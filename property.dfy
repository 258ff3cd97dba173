/**
 * A per-type property registry: named descriptors, each bound to one value type,
 * holding a getter and an optional setter, collected once into a table that is
 * looked up by name. Typed reads and writes check the descriptor's value type
 * (and, for writes, its writability) before calling the stored accessor.
 *
 * The model is generic in `S`, the state of the object the registry is for.
 * Accessors are functions over that state; a setter yields the object's new state.
 */
module Property {

  datatype Option<T> = None | Some(value: T)

  /** The three ways a typed access can fail: `unordered_map::at` throwing
      `std::out_of_range`, and the two `abort()` calls of the typed accessors. */
  datatype Failure = OutOfRange | TypeAbort | ReadOnlyAbort

  datatype Result<T> = Ok(value: T) | Err(failure: Failure)

  /** A property name. Names are `const char*` keys: two names are the same
      exactly when they are the same pointer, whatever characters they point at. */
  datatype Name = Name(addr: nat)

  type Str = seq<char>

  /** The C++ `int` (32 bits). */
  newtype int32 = x: int | -0x8000_0000 <= x < 0x8000_0000

  /** The value types the registry is instantiated with: `int` and `const char*`. */
  datatype ValueType = IntT | StrT

  /** A C++ value whose static type is one of the value types; the constructor is
      that static type. Nothing converts one kind into the other. */
  datatype Value = IntVal(i: int32) | StrVal(s: Str)

  function TypeOf(v: Value): (t: ValueType)
    ensures t == IntT <==> v.IntVal?
  {
    match v
    case IntVal(_) => IntT
    case StrVal(_) => StrT
  }

  /** `TypedProperty<T,O>` without its base: a getter and an optional setter for one
      value type `T`. The constructor stands for `T` and is what `dynamic_cast` tests. */
  datatype Accessors<!S> =
    | IntAccessors(getInt: S -> int32, setInt: Option<(S, int32) -> S>)
    | StrAccessors(getStr: S -> Str, setStr: Option<(S, Str) -> S>)
  {
    function Type(): ValueType
    {
      if IntAccessors? then IntT else StrT
    }

    /** `(bool)set`: whether a setter is stored. */
    predicate HasSetter()
      ensures HasSetter() <==> (IntAccessors? && setInt != None) || (StrAccessors? && setStr != None)
    {
      if IntAccessors? then setInt.Some? else setStr.Some?
    }

    /** Calls the stored getter. */
    function Read(obj: S): (v: Value)
      ensures TypeOf(v) == Type()
      ensures IntAccessors? ==> v == IntVal(getInt(obj))
      ensures StrAccessors? ==> v == StrVal(getStr(obj))
    {
      match this
      case IntAccessors(g, _) => IntVal(g(obj))
      case StrAccessors(g, _) => StrVal(g(obj))
    }

    /** Calls the stored setter once, with exactly the given value. */
    function Write(obj: S, v: Value): (next: S)
      requires HasSetter() && TypeOf(v) == Type()
      ensures IntAccessors? ==> next == setInt.value(obj, v.i)
      ensures StrAccessors? ==> next == setStr.value(obj, v.s)
    {
      match this
      case IntAccessors(_, setter) => setter.value(obj, v.i)
      case StrAccessors(_, setter) => setter.value(obj, v.s)
    }
  }

  /** `Property<Object>` together with the `TypedProperty` it is. */
  datatype Descriptor<!S> = Descriptor(name: Name, writable: bool, accessors: Accessors<S>)
  {
    /** Every descriptor built by the `TypedProperty` constructor has this shape. */
    predicate WellFormed()
    {
      writable == accessors.HasSetter()
    }

    /** `Property<Object>::get<T>`: aborts unless the descriptor's value type is `want`;
        otherwise the stored getter's value. `writable` plays no part. */
    function Get(want: ValueType, obj: S): (r: Result<Value>)
      ensures r.Ok? <==> accessors.Type() == want
      ensures r.Err? ==> r.failure == TypeAbort
      ensures r.Ok? ==> TypeOf(r.value) == want && r.value == accessors.Read(obj)
    {
      if accessors.Type() != want then Err(TypeAbort)
      else Ok(accessors.Read(obj))
    }

    /** `Property<Object>::set<T>`, where `T` is the static type of `v`: aborts on a value
        type mismatch, then on a read-only descriptor; otherwise the object's state after
        the stored setter has run with `v`. */
    function Set(obj: S, v: Value): (r: Result<S>)
      requires WellFormed()
      ensures r.Err? && r.failure == TypeAbort <==> accessors.Type() != TypeOf(v)
      ensures r.Err? && r.failure == ReadOnlyAbort <==> accessors.Type() == TypeOf(v) && !writable
      ensures r.Ok? <==> accessors.Type() == TypeOf(v) && writable
      ensures r.Ok? ==> r.value == accessors.Write(obj, v)
    {
      if accessors.Type() != TypeOf(v) then Err(TypeAbort)
      else if !writable then Err(ReadOnlyAbort)
      else Ok(accessors.Write(obj, v))
    }
  }

  /** `MakeProperty` (both overloads): a descriptor whose `writable` flag records
      whether a setter was supplied; a missing setter gives a read-only property. */
  function MakeProperty<S>(name: Name, accessors: Accessors<S>): (d: Descriptor<S>)
    ensures d.name == name && d.accessors == accessors
    ensures d.WellFormed()
    ensures d.writable <==> accessors.HasSetter()
  {
    Descriptor(name, accessors.HasSetter(), accessors)
  }

  /** Reading a property never looks at its `writable` flag. */
  lemma GetIgnoresWritable<S>(d: Descriptor<S>, writable: bool, want: ValueType, obj: S)
    ensures d.(writable := writable).Get(want, obj) == d.Get(want, obj)
  {
  }

  /** A property made without a setter can be read at its own type, and every
      write of the right type aborts as read-only. */
  lemma ReadOnlyProperty<S>(name: Name, accessors: Accessors<S>, obj: S, v: Value)
    requires !accessors.HasSetter()
    ensures MakeProperty(name, accessors).Get(accessors.Type(), obj) == Ok(accessors.Read(obj))
    ensures TypeOf(v) == accessors.Type() ==> MakeProperty(name, accessors).Set(obj, v) == Err(ReadOnlyAbort)
    ensures TypeOf(v) != accessors.Type() ==> MakeProperty(name, accessors).Set(obj, v) == Err(TypeAbort)
  {
  }

  /** A property made with a setter accepts every write of its own value type. */
  lemma WritableProperty<S>(name: Name, accessors: Accessors<S>, obj: S, v: Value)
    requires accessors.HasSetter() && TypeOf(v) == accessors.Type()
    ensures MakeProperty(name, accessors).Set(obj, v) == Ok(accessors.Write(obj, v))
  {
  }

  /** Accessors whose getter reads back what the setter stored. */
  ghost predicate ReadsBackWrites<S(!new)>(a: Accessors<S>)
  {
    a.HasSetter() && forall obj: S, v: Value :: TypeOf(v) == a.Type() ==> a.Read(a.Write(obj, v)) == v
  }

  /** For such accessors, a successful write followed by a read of the same type
      returns the written value. */
  lemma SetThenGet<S(!new)>(d: Descriptor<S>, obj: S, v: Value)
    requires d.WellFormed() && ReadsBackWrites(d.accessors) && TypeOf(v) == d.accessors.Type()
    ensures d.Set(obj, v).Ok?
    ensures d.Get(TypeOf(v), d.Set(obj, v).value) == Ok(v)
  {
  }

  // ---------------------------------------------------------------------------
  // The table of a `Properties<Object>`
  // ---------------------------------------------------------------------------

  /** The names of a list of descriptors. */
  function Names<S>(props: seq<Descriptor<S>>): set<Name>
  {
    set i | 0 <= i < |props| :: props[i].name
  }

  /** The table that inserting `props` one by one into an empty `unordered_map` gives:
      `insert` leaves an existing key alone, so the first descriptor of each name wins. */
  function BuildTable<S>(props: seq<Descriptor<S>>): (t: map<Name, Descriptor<S>>)
    ensures t.Keys == Names(props)
    ensures forall n :: n in t ==> t[n].name == n
    ensures (forall i | 0 <= i < |props| :: props[i].WellFormed()) ==>
              forall n :: n in t ==> t[n].WellFormed()
  {
    if props == [] then map[]
    else
      var init := props[..|props| - 1];
      var last := props[|props| - 1];
      var t := BuildTable(init);
      assert Names(props) == Names(init) + {last.name} by {
        forall n | n in Names(props) ensures n in Names(init) + {last.name} {
          var i :| 0 <= i < |props| && props[i].name == n;
          if i < |props| - 1 { assert init[i] == props[i]; }
        }
        forall n | n in Names(init) ensures n in Names(props) {
          var i :| 0 <= i < |init| && init[i].name == n;
          assert props[i] == init[i];
        }
      }
      if last.name in t then t else t[last.name := last]
  }

  /** Each descriptor whose name no earlier descriptor has is the one stored under that name. */
  lemma {:induction false} BuildTableKeepsFirst<S>(props: seq<Descriptor<S>>, i: nat)
    requires i < |props|
    requires forall j | 0 <= j < i :: props[j].name != props[i].name
    ensures props[i].name in BuildTable(props)
    ensures BuildTable(props)[props[i].name] == props[i]
  {
    var init := props[..|props| - 1];
    var last := props[|props| - 1];
    if i == |props| - 1 {
      assert last.name !in Names(init);
    } else {
      assert init[i] == props[i];
      forall j | 0 <= j < i ensures init[j].name != init[i].name {
        assert init[j] == props[j];
      }
      BuildTableKeepsFirst(init, i);
    }
  }

  /** A later descriptor that repeats an earlier name is ignored. */
  lemma BuildTableIgnoresDuplicate<S>(props: seq<Descriptor<S>>, i: nat, j: nat)
    requires i < j < |props| && props[i].name == props[j].name
    requires forall k | 0 <= k < i :: props[k].name != props[i].name
    ensures BuildTable(props)[props[j].name] == props[i]
  {
    BuildTableKeepsFirst(props, i);
  }

  /** `Properties<Object>`: the descriptor table of one object type. It is filled by the
      constructor and never changed afterwards; no member below modifies it. */
  class Properties<S> {
    var table: map<Name, Descriptor<S>>

    /** Every entry is stored under its own name and was built by `MakeProperty`. */
    ghost predicate Valid()
      reads this
    {
      forall n :: n in table ==> table[n].name == n && table[n].WellFormed()
    }

    /** Inserts the descriptors one by one, keeping the first of each name. */
    constructor (props: seq<Descriptor<S>>)
      requires forall i | 0 <= i < |props| :: props[i].WellFormed()
      ensures Valid()
      ensures table == BuildTable(props)
    {
      var t: map<Name, Descriptor<S>> := map[];
      var i := 0;
      while i < |props|
        invariant 0 <= i <= |props|
        invariant t == BuildTable(props[..i])
      {
        var prop := props[i];
        if prop.name !in t {
          t := t[prop.name := prop];
        }
        assert props[..i + 1][..i] == props[..i];
        i := i + 1;
      }
      assert props[..i] == props;
      table := t;
    }

    /** `operator[]`: the descriptor stored under `name`, or `at`'s out-of-range failure. */
    function At(name: Name): (r: Result<Descriptor<S>>)
      reads this
      requires Valid()
      ensures r.Ok? <==> name in table
      ensures r.Err? ==> r.failure == OutOfRange
      ensures r.Ok? ==> r.value == table[name]
      ensures r.Ok? ==> r.value.name == name && r.value.WellFormed()
    {
      if name in table then Ok(table[name]) else Err(OutOfRange)
    }

    /** `Properties::get<T>`: an unregistered name fails before any type check;
        otherwise the typed read of the stored descriptor. */
    function Get(obj: S, name: Name, want: ValueType): (r: Result<Value>)
      reads this
      requires Valid()
      ensures name !in table ==> r == Err(OutOfRange)
      ensures name in table ==> r == table[name].Get(want, obj)
      ensures r.Ok? ==> TypeOf(r.value) == want
    {
      match At(name)
      case Err(f) => Err(f)
      case Ok(d) => d.Get(want, obj)
    }

    /** `Properties::set<T>`: an unregistered name fails before the type and writability
        checks; otherwise the typed write through the stored descriptor. */
    function Set(obj: S, name: Name, v: Value): (r: Result<S>)
      reads this
      requires Valid()
      ensures name !in table ==> r.Err? && r.failure == OutOfRange
      ensures name in table ==> r == table[name].Set(obj, v)
    {
      match At(name)
      case Err(f) => Err(f)
      case Ok(d) => d.Set(obj, v)
    }
  }

  /** After construction every declared descriptor is reachable under its own name
      (the first one, for a repeated name), and nothing else is. */
  lemma RegistryFindsDeclared<S>(p: Properties<S>, props: seq<Descriptor<S>>, n: Name)
    requires p.Valid() && p.table == BuildTable(props)
    ensures p.At(n).Ok? <==> exists i | 0 <= i < |props| :: props[i].name == n
    ensures p.At(n).Ok? ==>
              exists i | 0 <= i < |props| ::
                p.At(n).value == props[i] && forall j | 0 <= j < i :: props[j].name != n
  {
    if n in p.table {
      var i :| 0 <= i < |props| && props[i].name == n;
      var k := FirstWithName(props, n, i);
      BuildTableKeepsFirst(props, k);
    }
  }

  /** The first index, at most `bound`, that holds the name `n`. */
  function FirstWithName<S>(props: seq<Descriptor<S>>, n: Name, bound: nat): (k: nat)
    requires bound < |props| && props[bound].name == n
    ensures k <= bound && props[k].name == n
    ensures forall j | 0 <= j < k :: props[j].name != n
    decreases bound
  {
    if exists j | 0 <= j < bound :: props[j].name == n then
      var j :| 0 <= j < bound && props[j].name == n;
      FirstWithName(props, n, j)
    else bound
  }
}
