# cpp-properties: a verified model of the property registry

The repository lets a C++ class publish named, typed properties. Each property is a
getter plus an optional setter. Callers reach them by name at run time through a
per-class table. This project models that mechanism in Dafny and proves what it
promises.

- `property.dfy`, module `Property`, models `property.h`.
  - `Descriptor` is `Property<Object>` together with the `TypedProperty<T,O>` it is.
    It holds a name, the `writable` flag and typed `Accessors`.
  - The constructor of `Accessors` (`IntAccessors` or `StrAccessors`) stands for the
    value type `T`. Comparing it with the requested type is the model of the
    `dynamic_cast` test.
  - `Descriptor.Get` and `Descriptor.Set` are the typed `get<T>` / `set<T>`. They
    return a `Result`, and the three failures stay distinct: `OutOfRange` (from
    `unordered_map::at`), `TypeAbort` and `ReadOnlyAbort` (the two `abort()` calls).
  - `Properties` is the registry class. Its constructor runs the insertion loop and
    is proved equal to `BuildTable`, under which the first descriptor of each name
    wins. Its lookups `At` (`operator[]`), `Get` and `Set` only read the table.
- `thing.dfy`, module `ThingExample`, models `main.cpp`.
  - The class `Thing` has its mutable message.
  - The module holds its two property descriptors and the initializer list of its
    registry; `RunScenario` builds the registry from that list.
  - `RunScenario` is the program's get, set, get, get sequence, verified.

The model is generic in `S`, the state of the object a registry serves. Getters are
functions of that state. A setter yields the object's next state. For `Thing`,
`SetThroughDescriptor` and `SetThroughRegistry` write that next state back into the
object's field, which is how `set<T>` changes a `Thing` in place.

Names are `const char*` keys compared as pointers. They are modelled as opaque
addresses (`Name(addr)`) with equality only; two literals with the same characters are
different names unless they are the same pointer. `main.cpp` passes the literal
`"message"` at lines 25-26 and `"unchanged"` at line 29. These are only the keys
registered at lines 18-19 if the compiler merges identical string literals.
`RunScenario` assumes that it does. `ThingRegistryAnswers` shows that any other
pointer fails with `OutOfRange`.

## Model

| member | source | states |
|---|---|---|
| `Property.MakeProperty` | property.h:94-103 | the descriptor carries the given name and accessors, and it is writable exactly when a setter was supplied |
| `Property.ReadOnlyProperty` | property.h:93-97 | a property made without a setter can still be read at its own type; every write of that type aborts as read-only, and a write of the other type aborts on the type |
| `Property.WritableProperty` | property.h:28-29 | a property made with a setter accepts every write of its value type and yields the stored setter's result |
| `Property.Accessors.HasSetter` | property.h:29 | `(bool)set`: true exactly when the stored setter is present |
| `Property.Accessors.Read` | property.h:42 | calling the stored getter yields a value of the accessors' own type, namely the getter's result on the object |
| `Property.Accessors.Write` | property.h:52 | calling the stored setter passes it the object and exactly the given value, once |
| `Property.Descriptor.Get` | property.h:37-43 | succeeds exactly when the requested type is the descriptor's value type, and then returns the stored getter's value of that type; otherwise it is a type abort |
| `Property.GetIgnoresWritable` | property.h:37-43 | a read gives the same answer whatever the `writable` flag is |
| `Property.Descriptor.Set` | property.h:45-53 | a type abort exactly when the value's type differs from the descriptor's; a read-only abort exactly when the types agree and the descriptor is read-only (the type check comes first); otherwise the state produced by one call of the stored setter with exactly that value |
| `Property.SetThenGet` | property.h:37-52 | for accessors whose getter reads back what the setter stored, a write succeeds and a read of the same type then returns the written value |
| `Property.BuildTable` | property.h:66-70 | the table's keys are exactly the names of the list, each entry sits under its own name, and well-formed descriptors stay well-formed |
| `Property.BuildTableKeepsFirst` | property.h:66-70 | a descriptor whose name no earlier one has is reachable under that name |
| `Property.BuildTableIgnoresDuplicate` | property.h:68-69 | a later descriptor repeating a name is ignored: the earlier one stays under that name |
| `Property.Properties.constructor` | property.h:66-70 | the insertion loop builds exactly `BuildTable` of the initializer list, and the registry invariant holds |
| `Property.Properties.At` | property.h:84-87 | `operator[]` finds a descriptor exactly when the name is registered, and then returns the table's entry for that name, which carries that name; an absent name is an out-of-range failure |
| `Property.Properties.Get` | property.h:74-77 | an unregistered name fails out of range before any type check; otherwise it is the typed read of the registered descriptor, which only returns values of the requested type; it changes no table entry |
| `Property.Properties.Set` | property.h:79-82 | an unregistered name fails out of range before the type and writability checks; otherwise it is the typed write through the registered descriptor |
| `Property.RegistryFindsDeclared` | property.h:66-87 | after construction a name is found exactly when some declared descriptor has it, and what is found is the first declared descriptor with that name |
| `ThingExample.MessageOf` | main.cpp:8 | `getMessage`, as the registry stores it, returns the current `m_message` |
| `ThingExample.UnchangedOf` | main.cpp:11 | `unchanged`, as the registry stores it, returns 4 whatever the state |
| `ThingExample.Thing.constructor` | main.cpp:14 | a fresh `Thing` holds "hello world" |
| `ThingExample.Thing.GetMessage` | main.cpp:8 | returns the current message |
| `ThingExample.Thing.SetMessage` | main.cpp:9 | the message becomes the given value and nothing else in the state changes |
| `ThingExample.WithMessage` | main.cpp:9 | the message of the state `setMessage` leaves is the given value |
| `ThingExample.Thing.Unchanged` | main.cpp:11 | returns 4 whatever the state |
| `ThingExample.MessageProperty` | main.cpp:18 | `message` is a string-typed, writable, well-formed descriptor |
| `ThingExample.UnchangedProperty` | main.cpp:19 | `unchanged` is an int-typed, read-only, well-formed descriptor |
| `ThingExample.ThingDescriptors` | main.cpp:17-20 | every descriptor of `Thing`'s initializer list is well-formed |
| `ThingExample.ThingTable` | main.cpp:17-20 | `Thing`'s table holds exactly `message` and `unchanged`, each under its own descriptor |
| `ThingExample.MessageReadsBackWrites` | main.cpp:8-9 | the `message` property's getter reads back what its setter stores |
| `ThingExample.ThingRegistryAnswers` | main.cpp:17-20 | on `Thing`'s registry: `message` reads as its string and aborts as int; `unchanged` reads as 4 and aborts as string; a string write to `message` stores it; an int write to `message` is a type abort; an int write to `unchanged` is a read-only abort; any other name fails out of range for `[]`, get and set |
| `ThingExample.SetThroughDescriptor` | property.h:52 | on success the `Thing` takes the state the stored setter produces; on an abort it fails with that abort and the `Thing` is unchanged |
| `ThingExample.SetThroughRegistry` | property.h:79-82 | an unregistered name fails out of range and leaves the `Thing` unchanged; otherwise the `Thing` changes exactly as the registry's typed write says |
| `ThingExample.RunScenario` | main.cpp:22-31 | on a fresh `Thing`, `message` reads "hello world"; after setting it to "hello universe" through its descriptor it reads "hello universe"; `unchanged` reads 4 |

## Left out

- Templates, `std::function`, member-function pointers and `dynamic_cast` are not modelled as such. A value-type tag on each descriptor replaces them, and every access checks that tag.
- Only the two value types the program uses exist: `int` (as a 32-bit `int32`) and `const char*`. A `const char*` value is modelled by its characters; pointer identity of values plays no part.
- `Property<Object>` built directly, without a `TypedProperty`, is not modelled. Every descriptor carries accessors.
- Property.Descriptor.Set: requires a well-formed descriptor, with `writable` equal to "a setter is stored". Every descriptor the source builds has this shape. The other case would call an empty `std::function`.
- Getters are modelled as side-effect-free functions of the object's state. In the source a getter receives a mutable object pointer and could change the object; `Descriptor.Get` and `Properties.Get` cannot represent such a getter. `Thing`'s two getters change nothing.
- Setters are modelled as functions from the object's state to its next state. The write back into the `Thing` is done by `SetThroughDescriptor`; aliasing of the object through other pointers is not modelled.
- `abort()` and the `std::out_of_range` exception are failure results, not process effects.
- Hashing and buckets of `std::unordered_map` are not modelled; the table is a map.
- The heap allocation and deliberate leak of descriptors in `MakeProperty` is memory management, not behaviour.
- The deleted copy constructor and copy assignment of `Properties` have no counterpart. Dafny has no implicit object copy, and no member of `Properties` changes its table after construction.
- `Thing::properties` is a static member; `RunScenario` builds the registry itself before use.
- `printf`, `argc` and `argv` in the program's entry point are left out. `RunScenario` returns the three values it would print.
