# Bison: a verified model of the object model and its formats

Bison objects (`dynamic`) are maps from 32-bit keys to tagged fields. They inherit defaults from
classes kept in a namespace-partitioned registry, and they travel in a self-describing binary format,
in a keyless schema format, and as YAML or JSON. This project models those parts in Dafny and proves
what they promise. `dafny verify dfyconfig.toml` checks everything.

## How it is laid out

| file | contents |
|---|---|
| `Bytes`, `Values` | fixed-width integers, read outcomes, field values, key order |
| `Varint`, `Wire`, `WireLaws` | the Standard Format as functions on byte strings, and its laws |
| `Buffers`, `Streams` | the serializer and both deserializers as classes, proved against `Wire` |
| `Chains`, `Registry` | parent chains, `addClass`, `findClass`, growth of the registry |
| `Lookup`, `Caches`, `Methods` | an object with its pointer cache in memory, what it shows as a value, and `findMethod` |
| `Sessions` | whole runs of operations with and without a cache |
| `Schema`, `SchemaBuffers` | the keyless format, and the code that runs it |
| `DeepCopy` | cloning on a heap of shared objects |
| `TypeLock` | runs of C API calls |
| `Witnesses` | short runs on two classes that show what the exact conditions shut out |
| `Decimals`, `EnumFlags` | integer text, and flag sets as text |
| `Documents`, `Yaml`, `YamlMachines`, `Json` | conversion to YAML events and JSON values, and back |
| `Perfetto`, `PerfettoEncoders` | trace packets, and a protobuf reader for them |
| `LineDiscipline` | the terminal's software line editing |
| `Hashing` | names as keys |
| `Instances`, `Formats` | nested objects field by field; byte order, tags, headers and the worked examples of `FORMAT.md` |

Code that changes state is modelled by classes and loops whose contracts name a function; the
theorems are about those functions.

## Main results

- **Standard Format.** Decoding an encoded tree followed by anything gives the tree's normal form and
  leaves exactly what followed; it throws if and only if some nested object has reserved fields the
  decoder refuses. From the second trip on, nothing changes any more. Decoding is local, every proper
  prefix is rejected, encodings are unique, and fields plus nesting depth are bounded by the bytes read.
- **Two decoders, one meaning.** The stream decoder completes exactly the reads the buffer decoder
  completes, with the same value, the same position and a stream that is still good.
- **Registry.** Every sequence of `addClass` calls leaves every namespace free of cycles; every walk
  ends within the number of registered classes; ancestry is a partial order; growth is monotone.
- **Cached lookup.** Lookups copy defaults into the object and remember misses. A run of operations,
  with `addField`, `as<T>`, numeric indexing, changes of class or namespace and `addClass` calls among
  them, shows at every step what an object that remembers nothing shows if and only if every step is
  admissible: a walk of the classes finds no empty reserved field to fill, what looks at the fields
  alone meets no copied default, and after a change of what is inherited every miss is still missing
  and every copy is still the default. Ordinary runs on an object that names its class always are.
- **Type lock.** Own fields keep their alternative along every run of C API calls. What lookups find,
  the reserved fields included, keeps it at every step if and only if every call is harmless.
- **Schema format.** What comes back is exactly the own value or the root-most default. It agrees with
  lookup if and only if the nearest and the root-most default read back alike.
- **Deep copy.** Clones share no object with anything that existed before.
- **Text formats.** YAML events, JSON values and flag sets come back as the value they were written from.

## Where the code and its promises differ

- `FORMAT.md` asks readers to reject counts wider than 64 bits; the code keeps one bit of the tenth
  byte instead. `Varint.ExactUnlessTenthByteOverflows` says exactly when the two agree, and
  `Varint.TruncationExample` gives ten bytes that denote 2^64 and are read as 0.
- `FORMAT.md` (section 6.5) shows the schema format without the reserved fields; every registered class
  holds them, so the code writes them too (`Formats.SchemaExample`). Its worked trace packet (section
  7.5) gives the length 0x12 for a packet of 14 bytes (`Formats.PacketExample`).
- `FORMAT.md` (section 1.3) hashes the bytes of a name; where `char` is signed the code hashes them with
  their sign extended, which differs outside ASCII (`Hashing.SignMatters`, `Hashing.AsciiHashesAlike`).
- Every class declares `__parent`, so with the schema format a decoded instance of a class with a
  registered parent names a different parent from the original's (`Schema.ParentIsShadowed`,
  `Witnesses.SchemaDiffers`).
- `addClass` overwrites the parent of the prototype it is given before it checks anything. For a
  prototype that is registered already this can close a cycle; `Chains.ReparentingIsSafeIff` says when, and
  `Witnesses.ReparentingCloses` is an input.
- The type lock holds for own fields without exception. What lookups find can change its alternative
  by `add_field` over a default of another alternative, and by a value stored as `__class` or
  `__namespace`: it can lead to defaults of other alternatives, and as an object without these fields
  is found to have key 0 in them, it can differ from that or make the lookup throw. `TypeLock.LockIff`
  is the exact condition, for every object, every call and every key looked up;
  `Witnesses.AddUnlocks`, `Witnesses.ClassWriteUnlocks` and `Witnesses.NamespaceUnlocks` are inputs.
- A call that returns a type error can change what lookups of `__class` and `__namespace` find, because
  the walk before it fills in empty reserved fields; `TypeLock.TypeErrorIff` says exactly when, and
  `Witnesses.TypeErrorShows` is an input. Nothing else a lookup finds changes.
- Registering a class keeps the lock unless it brings the global namespace into being under an object
  without a namespace whose class is no key (`TypeLock.GrowthLockIff`, `Witnesses.RegistrationShuts`).
- The cache of a `dynamic` is not always invisible. A copied default and a remembered miss outlive a
  change of class, a remembered miss outlives the registration of a class that declares the key, and a
  mere lookup can make `addField` fail or `as<T>` give another value (the first five runs in
  `Witnesses`). `Sessions.StepIff` and `Sessions.RunIff` say exactly when; a copied default never goes
  out of date by registration (`Sessions.DeclaringIff`).

## Model

| member | source | states |
|---|---|---|
| `Varint.RoundTrip` | src/bison/bison_serialization.hpp:83-92 | every 64-bit count is read back before any tail, from 1 to 10 bytes |
| `Varint.PrefixFree` | src/bison/bison_serialization.hpp:83-92 | an encoding that is a prefix of another is that other |
| `Varint.Minimal` | src/bison/bison_serialization.hpp:211-226 | no accepted encoding of a count is shorter than the one written |
| `Varint.Local` | src/bison/bison_serialization.hpp:211-226 | bytes after an accepted count do not change how it is read |
| `Varint.ExactUnlessTenthByteOverflows` | src/bison/bison_serialization.hpp:211-226 | an accepted encoding is read as the number it denotes if and only if it has no tenth byte above 1 |
| `Varint.TruncationExample` | src/bison/bison_serialization.hpp:211-226 | ten bytes that denote 2^64 and are read as 0 |
| `Formats.TooManyGroups` | src/bison/bison_serialization.hpp:211-226 | ten bytes that all ask for more are refused |
| `Formats.CountExample` | FORMAT.md:85-94 | the worked example of a count, 300 |
| `Bytes.U32RoundTrip` | src/bison/bison_serialization.hpp:188-197 | big-endian words are read back before any tail |
| `Formats.WordLayout` | src/bison/bison_serialization.hpp:68-74 | a word is written most significant byte first |
| `Formats.FieldLayout` | FORMAT.md:110-135 | the tag of every alternative and the bytes of those of fixed size |
| `Formats.VectorLayout` | src/bison/bison_serialization.hpp:94-116 | strings and vectors: the count, then one byte or four big-endian bytes an element, in order |
| `Formats.UnknownTags` | src/bison/bison_object.hpp:2088-2091 | a tag beyond the twelve alternatives is refused |
| `Formats.ObjectExample` | FORMAT.md:477-491 | the worked example of an object, byte for byte |
| `Formats.FieldExamples` | FORMAT.md:493-506 | the worked examples of an empty string and a null object |
| `Wire.VectorRoundTrip` | src/bison/bison_serialization.hpp:94-116 | strings and vectors of every element type are read back before any tail |
| `Wire.FieldRoundTrip` | src/bison/bison_object.hpp:2024-2091 | a field is read back in normal form, or throws if and only if it is not readable |
| `Values.AscendingIsSorted` | src/bison/bison_object.hpp:1799 | the fields are visited in strictly ascending key order, as a `std::map` iterates |
| `Values.AscendingIs` | src/bison/bison_object.hpp:1799 | there is only one such order |
| `Wire.ObjectRoundTrip` | src/bison/bison_object.hpp:2093-2135 | an object followed by any tail is read back in normal form and leaves the tail; it throws if and only if a nested object has unusable reserved fields |
| `Wire.EntryRoundTrip` | src/bison/bison_object.hpp:2127-2135 | an entry overwrites what was read under its key before |
| `Instances.NestedComesBack` | src/bison/bison_object.hpp:2137-2149 | told field by field: a nested object is read if and only if each field is and namespace and class hold keys (or an empty class is completed); it comes back with its own keys, namespace and class, key 0 where it had none, and every other field read back |
| `Instances.ObjectComesBack` | src/bison/bison_object.hpp:2127-2135 | the same for an object at the top, which gains a class alone |
| `Instances.PlainComesBack` | src/bison/bison_object.hpp:2043-2091 | a field that holds no object comes back as it is |
| `Instances.InstanceIsTwoLookups` | src/bison/bison_object.hpp:2137-2149 | the completion of a nested object is what looking up its namespace and then its class leaves behind |
| `WireLaws.SecondTripIsIdentity` | src/bison/bison_object.hpp:2127-2149 | whatever was decoded once is unchanged by every further trip |
| `WireLaws.ExactRoundTrip` | src/bison/bison_object.hpp:2093-2149 | the first trip is the identity on trees that name a class and a namespace in every object |
| `WireLaws.ObjectIsLocal` | src/bison/bison_object.hpp:2043-2149 | decoding that succeeds gives the same on the same bytes followed by anything |
| `WireLaws.TruncationFails` | src/bison/bison_object.hpp:2043-2149 | decoding any proper prefix of an encoded object fails |
| `WireLaws.EncodingIsPrefixFree` | src/bison/bison_object.hpp:2093-2099 | one encoded object is a prefix of another if and only if the objects are equal |
| `WireLaws.ObjectFitsInput` | src/bison/bison_object.hpp:2043-2149 | fields at every depth plus the nesting depth are at most the bytes consumed |
| `Buffers.BufferSerializer.WriteVarint` | src/bison/bison_serialization.hpp:83-92 | the loop appends exactly the specified encoding |
| `Buffers.BufferSerializer.WriteWordVector` | src/bison/bison_serialization.hpp:94-116 | appends the count and the big-endian elements |
| `Buffers.BufferSerializer.WriteField` | src/bison/bison_object.hpp:2024-2041 | appends the encoding that `Wire.FieldRoundTrip` inverts |
| `Buffers.BufferSerializer.WriteObject` | src/bison/bison_object.hpp:2093-2099 | appends the encoding that `Wire.ObjectRoundTrip` inverts |
| `Buffers.BufferDeserializer.ReadVarint` | src/bison/bison_serialization.hpp:211-226 | the accumulating loop with its 64-bit shifts reads what the recursive specification reads, and throws the same errors |
| `Buffers.BufferDeserializer.ReadWords` | src/bison/bison_serialization.hpp:228-255 | element by element, the specified vector or the specified error |
| `Buffers.BufferDeserializer.ReadField` | src/bison/bison_object.hpp:2043-2091 | value, position and exception are those of the specification |
| `Buffers.BufferDeserializer.ReadObject` | src/bison/bison_object.hpp:2127-2135 | value, position and exception are those of the specification, repeated keys included |
| `Buffers.BufferDeserializer.ReadInstance` | src/bison/bison_object.hpp:2137-2149 | the reserved fields are completed or refused as specified |
| `Streams.StreamDeserializer.Fill` | src/bison/bison_serialization.hpp:384-398 | what a stream read leaves behind when it comes up short, and the fail bit |
| `Streams.StreamDeserializer.ReadVarint` | src/bison/bison_serialization.hpp:406-421 | succeeds with a good stream exactly where the buffer decoder succeeds, with the same value and position |
| `Streams.StreamDeserializer.ReadField` | src/bison/bison_object.hpp:1913-1961 | the same equivalence for fields |
| `Streams.StreamDeserializer.ReadObject` | src/bison/bison_object.hpp:1977-1986 | the same equivalence for objects |
| `Streams.StreamDeserializer.ReadInstance` | src/bison/bison_object.hpp:1988-2000 | the same equivalence for nested objects |
| `Chains.EndsSoon` | src/bison/bison_object.hpp:1548-1554 | a walk that ends at all ends within the number of registered classes, on the same chain |
| `Chains.AcyclicIffNoCycle` | src/bison/bison_object.hpp:1548-1558 | all walks end if and only if no class is its own proper ancestor |
| `Chains.ExtensionIsAcyclic` | src/bison/bison_object.hpp:1540-1561 | an accepted class keeps every walk finite, and each chain is the old one or the old one continued through it |
| `Chains.ReparentingIsSafeIff` | src/bison/bison_object.hpp:1540-1544 | passing a registered prototype again keeps the namespace acyclic if and only if it is not an ancestor of its new parent |
| `Witnesses.ReparentingCloses` | src/bison/bison_object.hpp:1540-1544 | two classes for which it closes a cycle |
| `Registry.EveryRunIsSound` | src/bison/bison_object.hpp:1540-1561 | after every sequence of `addClass` calls, in any order, every namespace is acyclic and its prototypes carry their names |
| `Registry.AcceptsIff` | src/bison/bison_object.hpp:1548-1560 | a class is accepted if and only if its name is new and following parents from its parent never arrives at it |
| `Registry.ClassRegistry.AddClass` | src/bison/bison_object.hpp:1540-1561 | the new registry, the outcome, soundness, and that a refusal leaves every registered class as it was |
| `Registry.NewClassDeclares` | src/bison/bison_object.hpp:1540-1561 | an instance of a class just registered finds its methods and fields, its name, parent and namespace, and for anything else what the parent's chain said before |
| `Registry.ThrewIff` | src/bison/bison_object.hpp:1541-1543 | a call throws if and only if a reserved field of the prototype holds something but a key |
| `Registry.SpacesAfter` | src/bison/bison_object.hpp:1546 | any other call brings its namespace into being, even if the class is refused |
| `Registry.ClassRegistry.FindClass` | src/bison/bison_object.hpp:1731-1746 | finds the class if and only if it is on the chain, and returns its prototype |
| `Registry.AncestryIff` | src/bison/bison_object.hpp:1731-1746 | being on the chain is being registered and some number of parent links above |
| `Registry.AncestryIsPartialOrder` | src/bison/bison_object.hpp:1731-1746 | ancestry is reflexive on registered classes, antisymmetric and transitive |
| `Registry.ChainsOnlyGrow` | src/bison/bison_object.hpp:1540-1561 | a call only continues chains, changes no prototype and touches no other namespace |
| `Registry.GrowthIsMonotone` | src/bison/bison_object.hpp:1599-1638 | a call never changes a field or method lookup that resolved, nor any in another namespace |
| `Lookup.Dynamic.Slot` | src/bison/bison_object.hpp:1065-1083 | numeric indexing creates at most one empty field and points the cache at its node |
| `Lookup.Dynamic.As` | src/bison/bison_object.hpp:1162-1191 | an empty field takes the blank value, another alternative throws, the cache invariant is kept |
| `Lookup.Dynamic.AddField` | src/bison/bison_object.hpp:1330-1339 | inserts exactly if there is no own field, and keeps the cache invariant |
| `Lookup.Dynamic.Erase` | src/bison/bison_object.hpp:1040-1050 | removes the field and every pointer to it |
| `Lookup.Dynamic.Clear` | src/bison/bison_object.hpp:1052-1057 | removes exactly the numeric fields and forgets all pointers |
| `Lookup.Dynamic.ResolveNamespace` | src/bison/bison_object.hpp:1830-1840 | writes namespace 0 if it is missing, throws if it holds no key, and cannot invalidate the cache |
| `Lookup.Dynamic.FindInherited` | src/bison/bison_object.hpp:1604-1636 | the loop over the chain finds the nearest default, or none if no class declares the key |
| `Lookup.Dynamic.Materialise` | src/bison/bison_object.hpp:1599-1638 | the slow path changes the fields exactly as specified and keeps every node |
| `Lookup.Dynamic.FindField` | src/bison/bison_object.hpp:1581-1652 | a hit points to the very node of the key, a miss means there is none, and nothing else changes |
| `Lookup.Dynamic.Index` | src/bison/bison_object.hpp:1102-1120 | never null: the field, a copy of the nearest default, or a new empty field |
| `Lookup.Dynamic.Assign` | src/bison/bison_object.hpp:475-499 | stores the value or throws by the type of what the lookup found, and then leaves that as it was |
| `Methods.WalkForMethod` | src/bison/bison_object.hpp:1696-1714 | the loop over the chain finds the nearest class's method |
| `Methods.Identify` | src/bison/bison_object.hpp:1696-1702 | class and namespace are put in place or the search throws, and what is inherited stays the same |
| `Methods.Callable.FindMethod` | src/bison/bison_object.hpp:1687-1718 | on every object, answers or throws as a fresh search would, and changes no fresh search |
| `Methods.Callable.FindMethods` | src/bison/bison_object.hpp:1687-1718 | every run of searches answers as if nothing had been remembered |
| `Methods.RememberedIff` | src/bison/bison_object.hpp:1687-1718 | an object answers as if it remembered no method if and only if every remembered method is the one a fresh search finds |
| `Methods.GrowthKeepsRemembered` | src/bison/bison_object.hpp:1687-1718 | registering a class never makes a remembered method out of date |
| `Caches.LookIn` | src/bison/bison_object.hpp:1581-1652 | the lookup in memory answers and leaves the object as the lookup on values does, misses included |
| `Caches.ReachIn` | src/bison/bison_object.hpp:1102-1120 | the same for `operator[]` |
| `Caches.SlowPathIs` | src/bison/bison_object.hpp:1599-1638 | the slow path of any object, in closed form: the reserved fields it completes, and the default, the miss or the exception it comes to |
| `Caches.ShownIs` | src/bison/bison_object.hpp:1581-1652 | a key shows its field, nothing if it is remembered as missing, else what class and namespace say, for the reserved keys too |
| `Caches.AfreshAlike` | src/bison/bison_object.hpp:1830-1840 | whether class and namespace are missing, empty or key 0 makes no difference to what is inherited |
| `Caches.QuietIff` | src/bison/bison_object.hpp:1599-1638 | a lookup that walks the classes changes no answer if and only if it finds no empty or missed reserved field to fill and does not throw after filling one |
| `Sessions.Do` | src/bison/bison_object.hpp:1040-1191 | one operation on the object in memory is one step of the cached object as a value |
| `Sessions.TransparentIff` | src/bison/bison_object.hpp:1581-1652 | every key shows the same with and without memory if and only if no remembered miss is found afresh and no copy differs from what is |
| `Sessions.StepIff` | src/bison/bison_object.hpp:1581-1652 | on every object, an operation has the output of the object that remembers nothing and leaves every key showing the same if and only if it is admissible |
| `Sessions.DeclaringIff` | src/bison/bison_object.hpp:1540-1561 | an `addClass` in between stays invisible if and only if it declares no key remembered as missing and does not shut the lookup of a namespace that was filled in |
| `Sessions.RunIff` | src/bison/bison_object.hpp:1581-1652 | along every run the two agree at every step if and only if every step is admissible |
| `Sessions.OrdinaryRuns` | src/bison/bison_object.hpp:1040-1129 | on an object that names its class, runs of lookups and of reads, writes and removals of ordinary fields are always admissible |
| `Sessions.Execute` | src/bison/bison_object.hpp:1581-1652 | the same for the object in memory: its outputs, its final state and the exact condition under which they are those of the object that remembers nothing |
| `Witnesses.CopyOutlivesClass` | src/bison/bison_object.hpp:1613-1632 | a run in which a copied default is still shown after a change of class |
| `Witnesses.MissOutlivesClass` | src/bison/bison_object.hpp:1581-1598 | a run in which a miss is still reported after a change to a class that declares the key |
| `Witnesses.MissOutlivesRegistration` | src/bison/bison_object.hpp:1581-1598 | a run in which a miss is still reported after its class has been registered |
| `Witnesses.LookupBlocksAddField` | src/bison/bison_object.hpp:1330-1339 | a run in which a lookup makes `addField` fail |
| `Witnesses.LookupChangesCast` | src/bison/bison_object.hpp:1162-1191 | a run in which a lookup changes what `as<int32_t>` gives |
| `Witnesses.TwoCalls` | src/bison/bison_object.hpp:1540-1561 | the registry of these runs is reached by two calls of `addClass` |
| `Schema.LayersRoundTrip` | src/bison/bison_object.hpp:2113-2124 | the values of all classes on a chain are read back in order and leave the tail |
| `Schema.SchemaRoundTrip` | src/bison/bison_object.hpp:2101-2171 | the decoded keys are those of the chain; each has the own value, else the root-most default; the tail is left |
| `Schema.UndeclaredClass` | src/bison/bison_object.hpp:2151-2171 | if no class on the chain is registered, the decoded object has class 0 |
| `Formats.SchemaHeader` | src/bison/bison_object.hpp:2107-2108 | the namespace is written first, then the class |
| `Formats.SchemaExample` | src/bison/bison_object.hpp:2101-2125 | an instance of a class with one field, byte for byte, reserved fields included |
| `Schema.SchemaAgreesWithLookup` | src/bison/bison_object.hpp:2101-2171 | the decoded value is what lookup shows if and only if it is an own value or the two defaults read back alike |
| `Schema.UnshadowedAgree` | src/bison/bison_object.hpp:2113-2124 | for a key one class declares, nearest and root-most default are the same |
| `Schema.ParentIsShadowed` | src/bison/bison_object.hpp:2151-2171 | with two classes on the chain the decoded parent differs from the one lookup shows |
| `Witnesses.SchemaDiffers` | src/bison/bison_object.hpp:2101-2171 | an instance that comes back with another default and another parent than lookups on the original find |
| `SchemaBuffers.SerializeWithSchema` | src/bison/bison_object.hpp:2101-2125 | the walk appends exactly the specified bytes, after completing class and namespace |
| `SchemaBuffers.DeserializeWithSchema` | src/bison/bison_object.hpp:2151-2171 | value, position and exception are those of the specification |
| `SchemaBuffers.DeserializeWithSchemaFromStream` | src/bison/bison_object.hpp:2002-2022 | succeeds with a good stream exactly where the buffer decoder does, with the same result |
| `DeepCopy.Node.CloneFields` | src/bison/bison_object.hpp:960-975 | the loop yields equal values that reach only new objects |
| `DeepCopy.Node.Clone` | src/bison/bison_object.hpp:998-1002 | an equal tree of values (hence equal bytes) in which every object is new |
| `DeepCopy.Node.Copy` | src/bison/bison_object.hpp:910-924 | the copy constructor gives the same guarantees |
| `DeepCopy.Node.Inherit` | src/bison/bison_object.hpp:1613-1632 | an inherited object default arrives as a clone, and the prototype is untouched |
| `DeepCopy.InheritTwice` | src/bison/bison_object.hpp:1613-1632 | two objects that inherit one default share nothing with each other or the prototype |
| `DeepCopy.CloneAndWrite` | src/bison/bison_object.hpp:960-1002 | writing to a clone leaves the original's value as it was |
| `TypeLock.Invoke` | src/bison/bison_c.cpp:637-829 | what each setter, getter and `add_field` returns and leaves in the object, misses included |
| `TypeLock.CallMeans` | src/bison/bison_c.cpp:637-829 | a call succeeds if and only if what lookups find is missing, empty or of the alternative written; then they find the value given, for a getter what was there or the blank value; else the code says why; no other field is touched but reserved ones a walk completes |
| `TypeLock.CallKeepsOwn` | src/bison/bison_object.hpp:475-499 | whatever the call, an own field that is not empty keeps its alternative |
| `TypeLock.LockIff` | src/bison/bison_c.cpp:337-829 | a call keeps the alternative of everything lookups find, class and namespace included, if and only if it is harmless: no `add_field` over a default of another alternative, and no class or namespace stored that leads to other defaults, replaces the key 0 found there by another alternative or makes its lookup throw |
| `TypeLock.AddOverDefault` | src/bison/bison_c.cpp:337-346 | adding over a default keeps what is found if and only if the alternatives are the same |
| `TypeLock.ClassWriteLock` | src/bison/bison_c.cpp:689-700 | a change of class succeeds, and keeps what is found if and only if the new class has defaults of the same alternatives for every key still to be looked up |
| `TypeLock.TypeErrorIff` | src/bison/bison_c.cpp:637-829 | a call that returns a type error changes no answer about an ordinary field, and none at all if and only if the object holds its key or the walk was quiet |
| `TypeLock.GrowthLockIff` | src/bison/bison_object.hpp:1540-1561 | registering a class keeps the alternative of everything lookups find unless it creates the global namespace under an object without a namespace whose class is no key |
| `TypeLock.RunLockIff` | src/bison/bison_c.cpp:532-855 | own fields keep their alternative along every run; what lookups find, for every key, keeps it at every step if and only if every call is harmless when it is made |
| `TypeLock.RunCalls` | src/bison/bison_c.cpp:532-855 | the same for the object in memory, with all codes returned |
| `Witnesses.ClassWriteUnlocks` | src/bison/bison_c.cpp:689-700 | a class write that succeeds and turns an integer lookups find into text |
| `Witnesses.AddUnlocks` | src/bison/bison_c.cpp:337-346 | an `add_field` that does the same |
| `Witnesses.NamespaceUnlocks` | src/bison/bison_c.cpp:337-346 | an `add_field` of text as the namespace of a new object, where lookups found key 0 |
| `Witnesses.TypeErrorShows` | src/bison/bison_c.cpp:637-829 | a type error after which a call that would have succeeded fails |
| `Witnesses.RegistrationShuts` | src/bison/bison_object.hpp:1540-1561 | a registration after which the lookup of the namespace throws |
| `Decimals.TextReadsBack` | src/bison/bison_object.hpp:197-204 | `stoi` undoes `to_string` on every 32-bit integer |
| `Decimals.StoiReads` | src/bison/bison_object.hpp:197-204 | `stoi` gives the number a text begins with, after white space and a sign, or nothing if it has more than 32 bits |
| `Decimals.StoiNeedsNumber` | src/bison/bison_object.hpp:197-204 | and nothing for a text that begins otherwise |
| `EnumFlags.WordRoundTrip` | src/bison/bison_object.hpp:182-234 | bit sets and 32-bit integers correspond one to one |
| `EnumFlags.FormatLoop` | src/bison/bison_object.hpp:214-234 | the loop computes the specified text |
| `EnumFlags.ParseLoop` | src/bison/bison_object.hpp:182-211 | the splitting and trimming loop computes the specified value |
| `EnumFlags.PickedPartition` | src/bison/bison_object.hpp:214-234 | the named masks are pairwise disjoint and, with the remainder, partition the bits of the value |
| `EnumFlags.BitsAre` | src/bison/bison_object.hpp:214-234 | the bits of a value are those of its two's complement pattern |
| `EnumFlags.PickedIff` | src/bison/bison_object.hpp:214-234 | `format` names an entry, in table order, if and only if it has bits and all are left by those named before it |
| `EnumFlags.NothingLeftToName` | src/bison/bison_object.hpp:214-234 | no entry with bits fits into the remainder |
| `EnumFlags.PieceMeans` | src/bison/bison_object.hpp:182-211 | a text between bars, less spaces and tabs around it, adds the bits of the first entry of that name, else of the number it begins with, else none |
| `EnumFlags.ParseSplits` | src/bison/bison_object.hpp:182-211 | a bar anywhere splits the text into parts that are parsed alone and combined |
| `EnumFlags.FlagsRoundTrip` | src/bison/bison_object.hpp:182-234 | on a proper table `parse(format(v)) == v` for every 32-bit `v` |
| `EnumFlags.SelfAssignment` | src/bison/bison_object.hpp:475-538 | assigning a field its own text leaves it unchanged |
| `Yaml.WholeIntReadsBack` | src/bison/bison.cpp:198-222 | the integer branch reads back the text of every 32-bit integer |
| `Yaml.ScalarMeans` | src/bison/bison.cpp:198-222 | every plain scalar is read by its spelling: the words for null, true and false, an integer as narrowed, a float, or text; a quoted one is its text; a NUL ends it |
| `Yaml.OddValueMeans` | src/bison/bison.cpp:236-249 | an event that starts no value gives an empty field |
| `Yaml.MappingRefuses` | src/bison/bison.cpp:260-275 | a key that is no scalar, or the end of the events, is refused |
| `Yaml.SequenceMeans` | src/bison/bison.cpp:355-397 | which sequences become vectors of booleans, integers and floats, with what elements, and that others become objects |
| `Yaml.EmittedAs` | src/bison/bison.cpp:731-770 | the events of empty fields, keys, floats, float vectors and raw bytes |
| `Yaml.SequenceRoundTrip` | src/bison/bison.cpp:355-397 | a non-empty boolean or integer vector is classified back as itself and leaves the events that follow |
| `Yaml.FieldRoundTrip` | src/bison/bison.cpp:731-770 | the events of a value are parsed into its image and the events that follow are left |
| `Yaml.PlainSurvivesIff` | src/bison/bison.cpp:198-222 | of the values without objects and floats, exactly booleans, integers, null, NUL-free text and non-empty vectors come back as themselves |
| `Yaml.IndexedAt` | src/bison/bison.cpp:314-320 | any other sequence becomes an object with every item under its index and nothing else but a class |
| `Yaml.ObjectRoundTrip` | src/bison/bison.cpp:785-797 | the same for objects |
| `Yaml.YamlRoundTrip` | src/bison/bison.cpp:236-397 | parsing what an object was emitted as gives the object up to zero bookkeeping fields, and leaves the events that follow |
| `YamlMachines.Classify` | src/bison/bison.cpp:355-397 | the classification and conversion loops compute the specified field |
| `YamlMachines.EventReader.ReadValue` | src/bison/bison.cpp:236-249 | value, remaining events and failure are those of the specification |
| `YamlMachines.EventReader.ReadMapping` | src/bison/bison.cpp:260-288 | the same for the mapping loop |
| `YamlMachines.EventReader.ReadItems` | src/bison/bison.cpp:295-311 | the same for the sequence loop |
| `YamlMachines.EventWriter.WriteField` | src/bison/bison.cpp:731-770 | pushes exactly the specified events |
| `YamlMachines.EventWriter.WriteObject` | src/bison/bison.cpp:785-797 | pushes exactly the specified events |
| `YamlMachines.WriteThenRead` | src/bison/bison.cpp:731-797 | writing with the emitter and reading with the parser gives the object back, up to zero bookkeeping fields |
| `Json.ClassifyArray` | src/bison/bison.cpp:51-87 | the classification loop yields the specified vector, and declines exactly the arrays that become objects |
| `Json.MembersHold` | src/bison/bison.cpp:516-524 | the exported JSON object holds the value of every exported field under its name, and no other member |
| `Json.ExportedAs` | src/bison/bison.cpp:461-500 | the JSON value of every alternative that holds no object |
| `Json.ImportedAs` | src/bison/bison.cpp:148-180 | the field of every JSON value that is no array or object, integers narrowed |
| `Json.ArrayMeans` | src/bison/bison.cpp:51-87 | which arrays become vectors of booleans, integers and floats, and with what elements |
| `Json.MemberMeans` | src/bison/bison.cpp:148-180 | a member is assigned if it converts and finds its field empty or of its alternative; an array replaces whatever is there |
| `Json.VectorRoundTrip` | src/bison/bison.cpp:51-87 | a non-empty boolean, integer or float vector comes back as itself |
| `Json.PlainSurvivesIff` | src/bison/bison.cpp:461-500 | of the values without objects, exactly the storable ones come back as themselves |
| `Json.ItemsAt` | src/bison/bison.cpp:101-134 | a mixed array becomes an object with every converted element under its index, and no other key changes |
| `Documents.HexIsUnique` | src/bison/bison.cpp:488-494 | raw bytes are exported as two digits a byte, and no two byte strings alike |
| `Documents.HexMeans` | src/bison/bison.cpp:488-494 | two lowercase digits a byte, the high one first |
| `Documents.KeyText` | src/bison/bison.cpp:443-446 | a key is written as its name, else as `#` and its number |
| `Documents.BareMeans` | src/bison/bison.cpp:413-418 | what "up to zero bookkeeping fields" leaves out: a class or namespace of key 0, at every depth |
| `Documents.OpenedIsReach` | src/bison/bison_object.hpp:1102-1120 | the importers' `obj[k]` is `operator[]` on an object whose class 0 is not registered, its exceptions included |
| `Json.MembersRoundTrip` | src/bison/bison.cpp:148-180 | reading members in any order fills in exactly the fields they stand for, and nothing throws |
| `Json.FieldRoundTrip` | src/bison/bison.cpp:461-500 | a storable value comes back up to zero bookkeeping fields |
| `Json.ObjectRoundTrip` | src/bison/bison.cpp:148-180 | an exported object comes back up to zero bookkeeping fields, floats included |
| `Perfetto.RecordsRoundTrip` | src/bison/bison_perfetto.cpp:42-87 | a protobuf record reader recovers every list of records from its concatenation |
| `Perfetto.TraceRoundTrip` | src/bison/bison_perfetto.cpp:99-178 | any concatenation of packets is read as exactly those packets with their arguments, negative counters and doubles included |
| `Perfetto.SentInNumbers` | src/bison/bison_perfetto.cpp:99-178 | the same for each packet with the numbers of event types and units spelt out |
| `Formats.PacketExample` | src/bison/bison_perfetto.cpp:99-114 | a slice begin, byte for byte |
| `Perfetto.SameTraceIff` | src/bison/bison_perfetto.cpp:99-178 | two traces have the same bytes if and only if they send the same packets in the same order |
| `PerfettoEncoders.WriteVarintField` | src/bison/bison_perfetto.cpp:63-66 | appends one varint record |
| `PerfettoEncoders.WriteLengthDelimited` | src/bison/bison_perfetto.cpp:53-61 | appends one length-delimited record |
| `PerfettoEncoders.WriteFixed64Field` | src/bison/bison_perfetto.cpp:76-87 | the shifting loop appends one little-endian fixed64 record |
| `PerfettoEncoders.Frame` | src/bison/bison_perfetto.cpp:89-95 | the packet around its message is framed as one record of the trace |
| `PerfettoEncoders.EncodeTrackEventPacket` | src/bison/bison_perfetto.cpp:99-114 | the framed packet that `Perfetto.TraceRoundTrip` reads back |
| `PerfettoEncoders.EncodeTrackDescriptorPacket` | src/bison/bison_perfetto.cpp:116-128 | likewise |
| `PerfettoEncoders.EncodeCounterTrackDescriptorPacket` | src/bison/bison_perfetto.cpp:130-148 | likewise, with the unit only if one is given |
| `PerfettoEncoders.EncodeCounterEventPacket` | src/bison/bison_perfetto.cpp:150-163 | likewise, with the counter's 64-bit pattern |
| `PerfettoEncoders.EncodeDoubleCounterEventPacket` | src/bison/bison_perfetto.cpp:165-178 | likewise, with the bits of the double |
| `LineDiscipline.Passthrough.ProcessChunk` | src/term/scoped_terminal_config.cpp:13-50 | the byte loop computes the specified state |
| `LineDiscipline.ChunkingIsInvisible` | src/term/scoped_terminal_config.cpp:13-50 | however input is cut into chunks, the outcome is that of the whole |
| `LineDiscipline.LineEndsAreAlike` | src/term/scoped_terminal_config.cpp:19-30 | inputs that differ only in CR, LF or CRLF echo, deliver and hold the same |
| `LineDiscipline.DeliversWholeLines` | src/term/scoped_terminal_config.cpp:30-36 | exactly the complete lines are delivered, each edited; the last, edited, is held back |
| `LineDiscipline.EchoShowsPendingLine` | src/term/scoped_terminal_config.cpp:38-48 | replayed on a terminal row, the echo shows the pending line with the cursor at its end |
| `LineDiscipline.EchoShowsEveryLine` | src/term/scoped_terminal_config.cpp:30-48 | the whole echo shows, row after row, exactly the delivered lines, and then the pending one |
| `LineDiscipline.EchoIs` | src/term/scoped_terminal_config.cpp:19-48 | the exact echo of every input, in character codes |
| `Hashing.Hash` | src/bison/bison_common.hpp:125-138 | the loop computes FNV-1a up to the first NUL with the top bit forced, so a hashed name is never a numeric index |
| `Hashing.AsciiHashesAlike` | src/bison/bison_common.hpp:131 | for ASCII names it makes no difference whether `char` is signed |
| `Hashing.SignMatters` | src/bison/bison_common.hpp:131 | for the byte 0x80 it does |
| `Hashing.ClassHash` | src/bison/bison_object.hpp:869-871 | the reserved key of `__class` is its hash |
| `Hashing.ParentHash` | src/bison/bison_object.hpp:869-871 | the reserved key of `__parent` is its hash |
| `Hashing.NamespaceHash` | src/bison/bison_object.hpp:869-871 | the reserved key of `__namespace` is its hash |

## Left out

- Factories, userdata, attributes other than `Enum` and `EnumFlags`, and method bodies: the registry is factory-free, and a method is an identity.
- Locks, reference counts, allocation failure, moved-from objects and cyclic object graphs: objects are finite trees or finite acyclic heaps, and sizes stay below 2^64.
- A decoded object depends on the registry only through whether the global namespace exists; the codec takes that as a parameter, and no class may have a factory.
- Bool bytes other than 0 and 1 are read as true; what C++ makes of such a `bool` is not captured.
- Floats are 32-bit patterns and doubles 64-bit patterns; no arithmetic is done on them. Their text (`format_float_yaml`, `strtod`) and the conversion of an integer to a float are parameters, so a YAML round trip of floats is not claimed.
- The `|=` of the varint reader is an addition: the bits already collected lie below the group.
- Prototypes in the registry are values: that `addClass` may be handed a prototype it already holds is covered only by `Chains.ReparentingIsSafeIff`.
- Pointers into `fields_` are node identities that are never reused.
- The key hash is a parameter of the YAML and JSON conversions, with the key map required to be correct for it; FNV-1a itself is in `Hashing`.
- Class 0 is taken to be unregistered while YAML or JSON is imported, so `obj[k]` copies no default.
- YAML text scanning and JSON text parsing: the models start from events and values. A JSON float is its 32-bit pattern.
- The JSON converters other than the array classifier are functions, not loops; members are visited in one unspecified order, so the order in which two names with one hash overwrite each other is not captured.
- `Enum::parse` and `Enum::format`, `byte_swap`, printing, RMI, language bindings, pseudo-terminals: easy members or foreign code.
- `bison_clear_registry`, which empties the registry under living objects, and writes into a prototype obtained from `bison_find_class`: registries only grow and prototypes are frozen once registered.
- The C API's null-pointer checks and out pointers: a getter's value is the field it leaves under its key.
- TypeLock.RunCalls: an attribute's coercion of text to an integer is a parameter of the call, since attributes are not modelled on the object.
- EnumFlags.FlagsRoundTrip: assumes distinct names that are trimmed, contain no bar and are not themselves numerals, because a name with a bar or a blank at its end is split or trimmed by `parse`, a numeral means a name and a number at once, and of two equal names `parse` knows only the first.
