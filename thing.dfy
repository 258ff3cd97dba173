/**
 * The one object type that publishes properties: `Thing`, with a mutable message,
 * a read-write `message` property and a read-only `unchanged` property, and the
 * program that reads, writes and re-reads them through the registry.
 */
module ThingExample {
  import opened Property

  /** The state of a `Thing`: its one field, `m_message`. */
  datatype ThingState = ThingState(message: Str)

  const HELLO_WORLD: Str := "hello world"
  const HELLO_UNIVERSE: Str := "hello universe"

  /** The two name literals the registry is declared with. They are distinct pointers. */
  const MESSAGE: Name := Name(0)
  const UNCHANGED: Name := Name(1)

  /** `getMessage` on the state, as the registry stores it: the current `m_message`. */
  function MessageOf(s: ThingState): (m: Str)
    ensures m == s.message
  {
    s.message
  }

  /** `setMessage` on the state, as the registry stores it. */
  function WithMessage(s: ThingState, value: Str): (s': ThingState)
    ensures MessageOf(s') == value
  {
    s.(message := value)
  }

  /** `unchanged`, as the registry stores it: 4 whatever the state. */
  function UnchangedOf(s: ThingState): (r: int32)
    ensures r == 4
  {
    4
  }

  class Thing {
    var message: Str

    function State(): ThingState
      reads this
    {
      ThingState(message)
    }

    /** A fresh `Thing` holds "hello world". */
    constructor ()
      ensures MessageOf(State()) == HELLO_WORLD
    {
      message := HELLO_WORLD;
    }

    method GetMessage() returns (r: Str)
      ensures r == MessageOf(State())
    {
      r := message;
    }

    /** Overwrites the message and nothing else. */
    method SetMessage(value: Str)
      modifies this
      ensures State() == WithMessage(old(State()), value)
      ensures MessageOf(State()) == value
    {
      message := value;
    }

    method Unchanged() returns (r: int32)
      ensures r == UnchangedOf(State()) && r == 4
    {
      r := 4;
    }
  }

  /** `MakeProperty("message", &Thing::getMessage, &Thing::setMessage)`. */
  function MessageProperty(): (d: Descriptor<ThingState>)
    ensures d.name == MESSAGE && d.WellFormed()
    ensures d.accessors.Type() == StrT && d.writable
  {
    MakeProperty(MESSAGE, StrAccessors(MessageOf, Some(WithMessage)))
  }

  /** `MakeProperty("unchanged", &Thing::unchanged)`: no setter, so read-only. */
  function UnchangedProperty(): (d: Descriptor<ThingState>)
    ensures d.name == UNCHANGED && d.WellFormed()
    ensures d.accessors.Type() == IntT && !d.writable
  {
    MakeProperty(UNCHANGED, IntAccessors(UnchangedOf, None))
  }

  /** The initializer list of `Thing::properties`. */
  function ThingDescriptors(): (props: seq<Descriptor<ThingState>>)
    ensures forall i | 0 <= i < |props| :: props[i].WellFormed()
  {
    [MessageProperty(), UnchangedProperty()]
  }

  /** The table of `Thing::properties` holds exactly `message` and `unchanged`. */
  lemma ThingTable()
    ensures BuildTable(ThingDescriptors()).Keys == {MESSAGE, UNCHANGED}
    ensures BuildTable(ThingDescriptors())[MESSAGE] == MessageProperty()
    ensures BuildTable(ThingDescriptors())[UNCHANGED] == UnchangedProperty()
  {
  }

  /** The message property reads back what it writes. */
  lemma MessageReadsBackWrites()
    ensures ReadsBackWrites(MessageProperty().accessors)
  {
  }

  /** What the registry of `Thing` answers for each name, value type and state. */
  lemma ThingRegistryAnswers(p: Properties<ThingState>, s: ThingState, n: Name, v: Value)
    requires p.Valid() && p.table == BuildTable(ThingDescriptors())
    ensures p.Get(s, MESSAGE, StrT) == Ok(StrVal(s.message))
    ensures p.Get(s, MESSAGE, IntT) == Err(TypeAbort)
    ensures p.Get(s, UNCHANGED, IntT) == Ok(IntVal(4))
    ensures p.Get(s, UNCHANGED, StrT) == Err(TypeAbort)
    ensures v.StrVal? ==> p.Set(s, MESSAGE, v) == Ok(ThingState(v.s))
    ensures v.IntVal? ==> p.Set(s, MESSAGE, v) == Err(TypeAbort)
    ensures v.IntVal? ==> p.Set(s, UNCHANGED, v) == Err(ReadOnlyAbort)
    ensures v.StrVal? ==> p.Set(s, UNCHANGED, v) == Err(TypeAbort)
    ensures n != MESSAGE && n != UNCHANGED ==>
              p.At(n) == Err(OutOfRange) && p.Get(s, n, StrT) == Err(OutOfRange) &&
              p.Set(s, n, v) == Err(OutOfRange)
  {
    ThingTable();
  }

  /** `Property<Thing>::set<T>` on a `Thing`: the stored setter's new state becomes the
      object's state on success; on an abort the object is left as it was. */
  method SetThroughDescriptor(d: Descriptor<ThingState>, t: Thing, v: Value) returns (r: Result<()>)
    requires d.WellFormed()
    modifies t
    ensures r.Ok? <==> d.Set(old(t.State()), v).Ok?
    ensures r.Ok? ==> t.State() == d.Set(old(t.State()), v).value
    ensures r.Err? ==> r.failure == d.Set(old(t.State()), v).failure && t.State() == old(t.State())
  {
    match d.Set(t.State(), v)
    case Err(f) =>
      r := Err(f);
    case Ok(next) =>
      t.message := next.message;
      r := Ok(());
  }

  /** `Properties<Thing>::set<T>` on a `Thing`: an unregistered name fails first. */
  method SetThroughRegistry(p: Properties<ThingState>, t: Thing, name: Name, v: Value)
    returns (r: Result<()>)
    requires p.Valid()
    modifies t
    ensures name !in p.table ==> r == Err(OutOfRange) && t.State() == old(t.State())
    ensures r.Ok? <==> p.Set(old(t.State()), name, v).Ok?
    ensures r.Ok? ==> t.State() == p.Set(old(t.State()), name, v).value
    ensures r.Err? ==> r.failure == p.Set(old(t.State()), name, v).failure && t.State() == old(t.State())
  {
    var prop := p.At(name);
    match prop
    case Err(f) =>
      r := Err(f);
    case Ok(d) =>
      r := SetThroughDescriptor(d, t, v);
  }

  /** The program's get, set, get, get sequence on a fresh `Thing`. The name literals
      it passes are the ones the registry was declared with. */
  method RunScenario() returns (get1: Result<Value>, get2: Result<Value>, get3: Result<Value>)
    ensures get1 == Ok(StrVal(HELLO_WORLD))
    ensures get2 == Ok(StrVal(HELLO_UNIVERSE))
    ensures get3 == Ok(IntVal(4))
  {
    var properties := new Properties(ThingDescriptors());
    ThingTable();
    var t := new Thing();
    get1 := properties.Get(t.State(), MESSAGE, StrT);
    var prop := properties.At(MESSAGE);
    var d := prop.value;
    var _ := SetThroughDescriptor(d, t, StrVal(HELLO_UNIVERSE));
    get2 := d.Get(StrT, t.State());
    get3 := properties.Get(t.State(), UNCHANGED, IntT);
  }
}
