# Model of jsfw

jsfw forwards game controllers over a network. This directory models its schema compiler and the
wire codec generated from it (`ser/`, `net.c`), the hash map the compiler is built on, the JSON
parser of the configuration files, and the protocol between server and client, and proves what
they are for:

* **Schema compiler.** Constants resolve to what their references lead to; infinite structs are
  reported exactly; alignments are those of everything reachable; layouts are sorted permutations of
  the leaves; structs are defined in the order of their dependencies (`constants.dfy`,
  `infinite_structs.dfy`, `alignments.dfy`, `layouts.dfy`, `definitions.dfy`). `containment.dfy` says
  chain by chain what a struct contains, and `scalars.dfy` in numbers what scalars and lengths are.
* **Wire codec.** `emitter.dfy` specifies the statements the C backend emits for a layout, and
  `emission.dfy` is the backend itself, proved to emit them. `machine.dfy` runs such statements over
  bytes at absolute addresses. `plan.dfy` says what image a value has in memory; `serializing.dfy` and
  `deserializing.dfy` prove that emitted code writes and reads that image, and `round_trip.dfy` puts
  both together, for every schema, every value and every receiving object: the value comes back exactly
  if the object has a place for it. `places.dfy` says when that is so, and `any_bytes.dfy` that nothing
  but images of values is ever accepted. `messages.dfy`, `framing.dfy`, `receiving.dfy` and
  `addresses.dfy` add magic, tags, versions, streams, foreign bytes and the role of addresses;
  `lengths.dfy` and `device.dfy` apply everything to the messages of `net.ser`. `declarators.dfy` is
  about the C types printed for fields.
* **Hash map.** `probe_table.dfy` and `hash_map.dfy`: open addressing refines a finite map.
* **JSON.** `json.dfy` specifies the parser with all its errors and capacity checks, `json_parser.dfy`
  is the parser working in place, `json_round_trip.dfy` proves that it inverts printing, and
  `json_nesting.dfy` and `json_reader.dfy` that readers of its output find their way and get back what
  was parsed. `json_text.dfy` is about the characters of the grammar
  and `json_numbers.dfy` about numbers and their values; `json_escapes.dfy` and
  `json_commas.dfy` settle where the parser does not read what RFC 8259 means.
* **Protocol.** `slots.dfy` is the state machine of server threads, connection and client;
  `forwarding.dfy` follows input events from the device to the virtual device.

Code that changes things in place is modelled by classes and loops proved against specification
functions; the theorems are about those functions. Type objects are entries of a table and refer to
each other by index, as the C objects do by pointer. Generated code is modelled by its effect,
statement by statement, with a bound on the depth of calls that the theorems give in terms of
the size of the value.

Some results are about what the code does not do:

* A message without fields loses its tag, and a tag above 65535 is truncated (`Messages.MessageRoundTrip`
  gives the exact condition).
* Nobody allocates a heap array of a fixed size: deserialization into a fresh object stores through a
  pointer that is not set exactly if a scalar lies behind one (`Places.FreshTakesIff`,
  `Places.SampleFaults`).
* Received lengths are never compared with the declared maxima: elements of a longer array in a well-formed
  message are stored outside of the receiver's array (`Receiving.FaultsIffLong`).
* Padding depends on absolute addresses. `server.c` aligns its buffers to 4 bytes and `client.c` to 8;
  at any distance, a message with arrays arrives exactly if the addresses agree modulo 8
  (`Addresses.ArrivesIffAgreeing`, `Addresses.DeviceArrivesIff`).
* Slots are sent in 8 bits: with more than 256 slots reports can be rejected, and devices are never forgotten
  (`Slots.SafeIffFits`, `Slots.StaysBehind`).
* An Info of a device with many keys does not fit the server's buffer (`DeviceMessages.InfoFitsIff`), nor a
  Request for more than 1007 slots the client's (`DeviceMessages.RequestFitsIff`).
* The accumulator of `\u` escapes is not reset within a string (`JsonEscapes.StringReadIff` gives the exact
  condition under which a string is read as what it stands for).
* A trailing comma is an error in an array; in an object the brace after it is taken for the quote of a key
  (`JsonCommas.ArrayComma`, `JsonCommas.OddIsAccepted`). README.md of the repository shows one in an
  object that ends its text, which is refused (`JsonCommas.ObjectCommaAtEnd`).
* Deletion from a run of buckets that wraps around can lose entries (`ProbeTable.AcrossTheEndLoses`;
  `ProbeTable.TakeIsSoundIff` gives the exact condition).
* The indices of axes and keys have no sign, so the test for an undeclared code never succeeds, and the
  largest key code is never declared (`Forwarding.InBoundsIffDeclared`, `Forwarding.SetupKind`).

## Model

| member | source | states |
|---|---|---|
| InfiniteStructs.Checker.CheckForRecursion | ser/eval.c:601-654 | a search from struct rec that finds nothing leaves everything it marked without a way back to rec except through structs already reported; one that finds something lists a path of fields from str back to rec, of structs neither marked nor reported before, and marks exactly those as reported |
| InfiniteStructs.Checker.CheckAll | ser/eval.c:967-986 | whatever the order of the items, every report is a real containment cycle, no two reports share a struct, and every cycle of the containment graph contains a reported struct |
| InfiniteStructs.SettledExcludes | ser/eval.c:601-654 | a finished search that found nothing rules out every cycle through its start that avoids the reported structs |
| InfiniteStructs.SearchIsComplete | ser/eval.c:967-986 | if no cycle through any item avoids the reported structs, the reports hit every cycle |
| InfiniteStructs.ReportIsCycle | ser/eval.c:629-650 | a report, read backwards, is a closed walk of the containment graph |
| InfiniteStructs.NoReportIffAcyclic | ser/eval.c:967-986 | there is no report exactly when no struct contains itself without bounded heap indirection |
| Containment.HoldsByChain | ser/eval.c:617-627 | a field leads on to a struct exactly if a chain of types does, each an array of the next and none both on the heap and of variable length |
| Containment.NoReportIffRanked | ser/eval.c:967-986 | there is no report exactly if the types can be ranked so that ranks fall from a struct to its fields and from an array to its element, unless the array is on the heap and of variable length |
| Containment.FiniteIffRanked | ser/eval.c:967-986 | flattening ends for exactly these schemas |
| Containment.EveryProgram | ser/eval.c:1217-1223 | every such schema is compiled to a program of which the codec theorems speak, but for arrays of variable length with floats, arrays of a fixed size or message bodies as elements |
| Schema.Strip | ser/eval.c:619-621 | skipping arrays laid out in place ends at a type that is not one |
| Alignments.Resolver.ResolveAlignment | ser/eval.c:656-698 | the value returned is asked for by some type reachable from t, and accounts for everything the search has seen except what is still being searched; cached alignments are taken as they are; it ends on cyclic types too |
| Alignments.Resolver.ResolveAll | ser/eval.c:1217-1223 | in any order of the type objects, each gets exactly the greatest base alignment of the types reachable from it |
| Alignments.SearchFinds | ser/eval.c:656-698 | when the search from t is over, its result is the greatest alignment of all that t leads to, also through types cut off by the seen set |
| Alignments.AlignmentIsUnique | ser/eval.c:1217-1223 | no other number is the alignment of a type, so the order cannot matter |
| Scalars.AlignedForAll | ser/eval.c:16-28 | in numbers, type by type: a type is aligned to at least 1, 2, 4 or 8 for every scalar it leads to, and for the length of every array, by its maximum |
| Scalars.AlignedForOne | ser/eval.c:656-698 | and to no more than one of them asks for |
| Definitions.FindDependencies | ser/codegen.c:93-115 | the dependency map has every struct, with exactly the structs among its fields once field arrays are skipped |
| Definitions.DefineStructs | ser/codegen.c:117-152 | the loop ends; each struct is defined at most once and after all it needs; and those left over are exactly those that lead to a dependency cycle |
| Definitions.LeftLeadToCycles | ser/codegen.c:119-145 | when a pass defines nothing, what is left is what leads to a cycle, and nothing else is |
| Definitions.DefinedIsSafe | ser/codegen.c:119-145 | nothing that was defined leads to a cycle |
| Definitions.NeedsAreAcyclic | ser/codegen.c:98-103 | a schema without infinite structs has no dependency cycle, although the two passes skip different arrays |
| Definitions.NothingLeft | ser/codegen.c:147-149 | for a schema that the infinite-struct check accepts, every struct is defined |
| Containment.DependsIffInPlace | ser/codegen.c:98-112 | a struct depends on another exactly if a chain leads to it from a field, through arrays none of which is on the heap |
| Containment.DefinedBefore | ser/codegen.c:119-145 | what a struct has in place in this sense is defined before it |
| Containment.DefineAll | ser/codegen.c:93-152 | on every accepted schema each struct is defined, once, after all it has in place |
| HashMaps.HashMap.constructor | ser/hashmap.c:115-145 | a new map is empty |
| HashMaps.HashMap.FindBucket | ser/hashmap.c:147-162 | with a free bucket somewhere probing ends, at the key or at the first free bucket from its home |
| HashMaps.HashMap.Insert | ser/hashmap.c:164-181 | adds or overwrites one entry and says which; the count follows |
| HashMaps.HashMap.Grow | ser/hashmap.c:183-210 | twice as many buckets hold the same map |
| HashMaps.HashMap.Set | ser/hashmap.c:212-219 | is the update of a finite map, says whether it overwrote, and leaves the count at no more than half the capacity |
| HashMaps.HashMap.Get | ser/hashmap.c:221-231 | is lookup in the finite map, and ends |
| HashMaps.HashMap.Has | ser/hashmap.c:233-239 | is membership in the finite map |
| HashMaps.HashMap.Take | ser/hashmap.c:241-287 | returns and removes the entry; the map is whole again exactly if the run of buckets from the entry on is safe in the sense of TakeIsSoundIff, and so whenever that run does not go on across the end of the table |
| HashMaps.HashMap.ShiftBack | ser/hashmap.c:258-287 | the in-place shifting loop computes the shifted table, and ends at the first free bucket |
| HashMaps.HashMap.Clear | ser/hashmap.c:289-300 | leaves the empty map |
| HashMaps.HashMap.Iter | ser/hashmap.c:302-329 | goes to the next used bucket, passing over none |
| HashMaps.HashMap.Items | ser/hashmap.c:302-329 | iterating to the end yields every entry of the map exactly once |
| ProbeTable.ProbeFinds | ser/hashmap.c:147-162 | in a sound table the probe ends at a used bucket exactly for keys of the map, and at their values |
| ProbeTable.SomeFree | ser/hashmap.c:164-181 | a table with fewer entries than buckets has a free bucket, so probing ends |
| ProbeTable.StoreIsSound | ser/hashmap.c:164-181 | storing at the end of a probe keeps every entry reachable |
| ProbeTable.ShiftBelow | ser/hashmap.c:258-287 | from any point of the shifting loop in a run that ends in front of the end of the table, what comes out is sound exactly if the hole passes every entry that was pushed across the end before: those the loop never moves |
| ProbeTable.ShiftAround | ser/hashmap.c:258-287 | the same once the loop has gone on from the end of the table to its front: the first entry that moves back must have been pushed across the end, and from its bucket on the hole must pass all others that were; an entry at home in the front that moves back is lost for good |
| ProbeTable.HoleMoves | ser/hashmap.c:268-285 | an entry that is probed for across the hole is reachable when moved into it, and the others stay reachable |
| ProbeTable.HoleCloses | ser/hashmap.c:268-287 | emptying the bucket of the hole leaves a sound table exactly if no probe for an entry passes over it |
| ProbeTable.TakeIsSoundIff | ser/hashmap.c:241-287 | on every sound table, taking an entry out removes its key and nothing else exactly if the run of buckets from it up to the first free one is safe, a condition on the home buckets in that run before the deletion |
| ProbeTable.TakeIsSound | ser/hashmap.c:241-287 | so wherever the run around the entry does not go on from the last bucket to the first |
| ProbeTable.WrappedRunLosesEntry | ser/hashmap.c:268-285 | on every table whose run wraps into bucket 0, where an entry is at home, taking the last bucket's entry makes an entry unreachable: the comparison of home buckets is not cyclic |
| ProbeTable.AcrossTheEndLoses | ser/hashmap.c:268-285 | a sound table of 64 buckets with two entries of which one is lost when the other is taken |
| Layouts.AddFields | ser/eval.c:707-786 | pushes the leaf paths of a type in the order of declaration, each below the base path; flattening ends for every schema without infinite structs |
| Scalars.LeafTakesUp | ser/eval.c:710-733 | in numbers, type by type: a scalar is stored and loaded with 1, 2, 4 or 8 bytes, and what follows it comes so many bytes later |
| Layouts.TypeLayout | ser/eval.c:798-803 | the layout is a permutation of the leaves that the comparison allows |
| Layouts.LayoutOrder | ser/eval.c:788-796 | leaves of a fixed size come first, and in both parts alignments do not increase |
| Layouts.LayoutLeaves | ser/eval.c:798-803 | a layout has exactly the leaves of its type, each once, and no leaf lies inside another |
| Layouts.LeavesAreApart | ser/eval.c:707-786 | the paths of any two leaves part ways before either ends |
| Layouts.ArraysHaveLengths | ser/eval.c:744-773 | beside the data path of every array of variable length its length path is a leaf, of the right integer type |
| Layouts.LengthFieldIndex | ser/codegen_python.c:120-148 | finds a leaf of a fixed size with the length path of the array, or says that there is none |
| Layouts.LengthIsThere | ser/codegen_python.c:120-148 | in a layout the lookup never fails, and only one leaf fits |
| Emitter.CalignTo | ser/codegen.h:67-71 | is the least padding after which the tracked offset is a multiple |
| Emission.WriteLeaves | ser/codegen_c.c:302-313 | the loop over fixed leaves emits one access for each, at consecutive offsets, and tracks offset and alignment |
| Emission.WriteArrays | ser/codegen_c.c:319-351 | the loop over arrays emits for each a loop over its elements with the code of one element, preceded by an allocation when reading one on the heap |
| Emission.WriteType | ser/codegen_c.c:283-356 | the recursive emitters end, and append exactly the statements of the specification that the codec theorems are about; serializer and deserializer share it, with stores for loads |
| Machine.BytesRoundTrip | net.c:21-128 | a scalar that fits its type is read back from its bytes |
| Machine.BytesBack | net.c:21-128 | all bytes are those of one scalar that fits them |
| Scalars.LeastFirst | net.c:21-128 | bytes are a number with the least significant first |
| Scalars.ScalarsAre | ser/eval.c:16-28 | the values of each scalar type are the numbers below 2^8, 2^16, 2^32 or 2^64, type by type |
| Scalars.AggregatesAre | ser/eval.c:744-773 | an array of a fixed size has exactly so many elements; one of variable length has as many as fit into a length of 8, 16, 32 or 64 bits, by its maximum; a struct has a value for each field |
| Scalars.ScalarTakesUp | ser/eval.c:714-732 | a scalar by itself takes up 1, 2, 4 or 8 bytes that are its number, and is aligned to as much, type by type |
| Values.HeldIsUnique | ser/codegen_c.c:202-250 | an object holds one value only |
| Values.RepresentsLeaf | ser/codegen_c.c:202-250 | an object that holds a value holds it in every leaf |
| Values.LeavesRepresent | ser/codegen_c.c:202-250 | an object that holds every leaf of a value holds the value |
| Values.TakesLeaf | ser/codegen_c.c:358-446 | an object with a place for a value, its pointers set and its arrays long enough, has one for every leaf, also inside elements and behind pointers |
| Values.LeavesTake | ser/codegen_c.c:358-446 | and with a place for every leaf it has one for the value |
| Plans.PlanIsOrdered | ser/codegen_c.c:283-356 | no two stores of a serializer overlap, and all lie between the start and the pointer returned |
| Plans.ApplyHolds | ser/codegen_c.c:283-356 | ordered stores leave all their bytes in memory and nothing outside their range changes |
| Serializing.SerializesPlan | ser/codegen_c.c:283-356 | for every schema type and every value of it, running the emitted serializer carries out the plan of the value, through nested calls and loops, and leaves the pointer at its end |
| Deserializing.DeserializesPlan | ser/codegen_c.c:358-446 | for every type and value, running the emitted deserializer on memory that has the plan's bytes succeeds exactly if the object has a place for the value: no store goes through a pointer that is not set or beyond the room of an array. It then makes the object hold the value, takes up as many bytes, and touches nothing outside the object |
| RoundTrips.Serializes | ser/codegen_c.c:283-356 | given room, serialization succeeds, leaves the image in memory and the rest of memory and the object as they were |
| RoundTrips.PlanMoves | ser/codegen_c.c:283-356 | where an object starts matters only modulo the alignment it is serialized with |
| RoundTrips.RoundTrip | ser/codegen_c.c:283-446 | the deserializer run on the serialized bytes, at any address that agrees modulo the alignment and with anything as padding, succeeds exactly if its object has a place for the value; it then returns the same value and consumes the same byte count |
| RoundTrips.PlanIsNatural | ser/codegen_c.c:524-543 | in a struct body that starts aligned every scalar, also inside array elements, lies at a multiple of its size, and the end is a multiple of the struct's alignment |
| RoundTrips.ElemsNatural | ser/codegen_c.c:324-349 | every element of an array starts and ends at a multiple of its alignment |
| RoundTrips.LeafAlign | ser/eval.c:656-698 | no leaf needs a stricter alignment than its type |
| Places.FreshTakesIff | ser/codegen_c.c:403-412 | a fresh object has a place for a value exactly if no scalar of it lies behind a pointer to an array of a fixed size, which nobody allocates, and no array inside its container is longer than its maximum |
| Places.TakesIffKeepsRoom | ser/codegen_c.c:403-412 | in a schema without heap arrays of a fixed size, every object has a place for exactly the values whose arrays keep to their maxima |
| Places.HeldIsTaken | ser/codegen_c.c:403-412 | in such a schema what one object holds, every other object has a place for |
| Places.SampleIsValid | ser/parser.c:136-152 | the compiler takes struct Sample { x: u8&[5] } |
| Places.SampleFaults | ser/codegen_c.c:403-412 | and the deserializer emitted for it never succeeds on a fresh object: it stores through a pointer that is not set |
| AnyBytes.ReadsAsValue | ser/codegen_c.c:358-446 | whatever bytes lie in memory, a run of the emitted deserializer that succeeds has read the image of a value: the bytes are those of its plan, the object now holds it and had a place for it |
| AnyBytes.AcceptsImages | ser/codegen_c.c:358-446 | on any memory the emitted deserializer succeeds exactly if a value that the object has a place for has its image there |
| Messages.SerializeWrites | ser/codegen_c.c:712-766 | a message is written as magic, tag, body and magic; the length is returned, or -1 when it exceeds the buffer, which is found out after everything is written |
| Messages.MagicsAre | net.h:12-13 | the two magics are 0xCAFEF00DBEEFDEAD and 0xF00DBEEFCAFEDEAD, as 64-bit numbers |
| Messages.Reads | ser/codegen_c.c:768-831 | the image of a message is read as that message with its length, exactly if the receiver has a place for it; a versioned message from another version and a message longer than what was received give -1 |
| Messages.ArrivesIfPlaced | ser/codegen_c.c:712-831 | a message with fields and a tag of 16 bits arrives exactly if the receiver has a place for it, whatever it held before |
| Messages.MessageRoundTrip | ser/codegen_c.c:712-831 | any message arrives exactly if its body has fields, its tag fits 16 bits and the receiver has a place for it; without fields only the one whose tag equals the first two bytes of the second magic arrives, and one whose tag the receiver's message had before while no message has that tag |
| Messages.TagIsLost | ser/codegen_c.c:736-762 | for a message without fields the second magic overwrites the tag |
| Messages.LengthAnywhere | ser/codegen_c.c:742-751 | the length of a message is the same at every multiple of 8 |
| Framing.SentBytes | server.c:199-203 | the bytes a serializer leaves at an aligned address are a message in the sense of the framing theorem |
| Framing.FrontMessage | client.c:475-503 | deserializing the front of a buffer does not depend on the bytes after the message, nor on what the buffer or the receiver's message held before |
| Framing.Framed | client.c:475-503 | messages written one after the other to the stream are received one by one in order, and exactly what follows them stays in the stream |
| Receiving.AcceptsMessages | ser/codegen_c.c:768-831 | whatever lies in the buffer, a message with a certain tag is accepted, without a store outside an array or through a pointer that is not set, exactly if the buffer has at least 16 bytes and begins with the image, no longer than the buffer, of a value that the receiver has a place for, stamped with the right version; such a store ends the run |
| Addresses.EndsElsewhere | ser/codegen_c.c:351-351 | at any distance that leaves the elements of its arrays aligned a body has all its stores in the same places; its end moves along exactly if the distance is a multiple of 8 or there are no arrays, and otherwise by less than 8 bytes more or less |
| Addresses.DisagreeingIsRejected | ser/codegen_c.c:198-200 | a message with arrays found at such a distance, no multiple of 8, from where it was serialized is never accepted, whatever the padding |
| Addresses.ArrivesIffAgreeing | ser/codegen_c.c:198-200 | at any distance at all between the addresses a message with fields arrives exactly if its tag fits 16 bits, the receiver has a place for it, and the distance is a multiple of 8 or it has no arrays; for one without fields the distance does not matter |
| Addresses.LengthsAgree | ser/codegen_c.c:351-351 | what is received with the tag of a message with arrays, whatever it was read as, has the length sent only at a distance that is a multiple of 8 |
| Addresses.DeviceArrivesIff | server.c:301-301 | at any distance a message of the protocol arrives exactly if the addresses agree modulo 8 or it is a ControllerState or a Destroy |
| Addresses.DeviceIsRejected | server.c:301-301 | between buffers aligned to 4, as the server's are, the other three are not accepted as anything where the addresses disagree modulo 8 |
| DeviceMessages.DeviceExists | net.ser:1-64 | the types of the protocol have no infinite struct, have the alignments stated, and have layouts |
| DeviceMessages.DeviceIsProtocol | net.ser:31-64 | the five messages are well formed, with the version as the last field of Request |
| DeviceMessages.InfoLength | net.c:143-166 | the length of Info is 16 + align8(8 + 24a + 2r + 2k), for every order that sorting may give the leaves |
| DeviceMessages.ReportLength | net.c:167-193 | the length of Report is 16 + align8(8 + 4a + 4r + k) |
| DeviceMessages.ControllerStateLength | net.c:194-206 | the length of ControllerState is 32 |
| DeviceMessages.RequestLength | net.c:207-219 | the length of Request is 16 + align8(18 + the sum over lists of 2 + the sum over tags of 2 + align2(length of the name)) |
| DeviceMessages.DestroyLength | net.c:220-224 | the length of Destroy is 24 |
| DeviceMessages.DestroyImage | net.c:217-227 | the bytes of a Destroy: the first magic, 5, the index in two bytes, padding, the second magic |
| DeviceMessages.TagIsMeasured | net.c:104-128 | a tag takes up two bytes and its name, padded to 2 |
| DeviceMessages.DeviceRoundTrip | net.c:133-339 | each of the five messages is deserialized as it was serialized, at every address that agrees modulo 8 and whatever message the receiver held before |
| DeviceMessages.InfoFitsIff | server.c:197-204 | an Info fits the buffer of 2048 bytes exactly if 24a + 2r + 2k is at most 2024 |
| DeviceMessages.ReportFits | server.c:232-239 | a Report always fits the buffer |
| DeviceMessages.RequestFitsIff | client.c:353-356 | a Request fits the buffer of 2048 bytes exactly if its lists take up at most 2014; so it is never for more than 1007 slots |
| Receiving.DevicePlaceIff | net.c:231-339 | a receiver has a place for a message exactly if the lengths in it keep to the declared maxima |
| Receiving.FaultsIffLong | net.c:231-339 | on the image of a message the deserializer stores outside an array of the receiver's message exactly if some length in it is beyond the declared maximum: received lengths are compared with nothing |
| Lengths.ArrayEnd | ser/codegen_c.c:320-355 | where an object with arrays ends depends on the sizes of its leaves and elements, not on how they were sorted |
| Lengths.LocalIsAlignment | ser/eval.c:656-698 | alignments that are locally the maximum over a type and what it is made of are the resolved ones |
| JsonParser.Parser.ParseString | json.c:58-227 | writes the record of the string in place, or stops at the character and with the error specified; nothing before the record changes |
| JsonParser.Parser.ParseChars | json.c:87-226 | the loop over the characters keeps the length in the header up to date and pads at the closing quote |
| JsonParser.Parser.ParseNumber | json.c:230-346 | writes the record of a number, with the value of the characters scanned, rounded; or fails as specified |
| JsonParser.Parser.ScanNumber | json.c:246-343 | moves over sign, integer part, fraction and exponent, with the source's leniency about missing digits, and adds up exactly the number that the characters denote |
| JsonParser.Parser.ScanPlaces | json.c:286-299 | the loop over the digits of a fraction adds the fraction they denote |
| JsonNumbers.TakenIff | json.c:246-338 | in any text, what is taken for a number is exactly a sign, digits without a leading zero, a fraction and an exponent, each as long as possible; the digits before a dot may be missing after a sign, those of an exponent if anything follows |
| JsonNumbers.SplitIs | json.c:246-343 | the characters taken are the parts of one number only, whose value is that of its parts |
| JsonNumbers.AddedUp | json.c:246-343 | the sums and products of the loops come to that value |
| JsonNumbers.RoundedIs | json.c:230-346 | in a document a number of RFC 8259 is kept as the real number it denotes, rounded |
| JsonNumbers.DigitsDenote | json.c:258-267 | digits denote the number written with them |
| JsonNumbers.PlaceDenotes | json.c:286-299 | each digit behind the dot counts a tenth of the one before |
| JsonNumbers.ExponentDenotes | json.c:304-338 | an exponent is the number of its digits, negated after a minus |
| JsonNumbers.IntegerDenotes | json.c:258-267 | an integer denotes itself |
| JsonParser.Parser.ParseBoolean | json.c:349-385 | writes the record of a boolean, or fails as specified |
| JsonParser.Parser.ParseNull | json.c:388-410 | writes the record of null, or fails as specified |
| JsonParser.Parser.ParseArray | json.c:413-471 | writes header and elements in place and patches the length in; the result is the flat form of the array, and what lies before it is unchanged |
| JsonParser.Parser.ParseElements | json.c:443-468 | the loop over the elements of an array |
| JsonParser.Parser.ParseObject | json.c:474-550 | writes header, keys and values in place and patches the length in |
| JsonParser.Parser.ParseMember | json.c:503-525 | a key, whatever its first character, a colon and a value |
| JsonParser.Parser.ParseValue | json.c:553-593 | skips whitespace and parses what the next character announces; writes exactly the flat form of the value, or stops with the error and location specified; no store reaches the end of the buffer |
| JsonParser.Parser.Parse | json.c:595-604 | the return code and the error location; on success the buffer starts with the flat form and keeps its tail |
| Json.FlatAligned | json.c:413-414 | every record is a multiple of 8 long, so every record starts aligned |
| JsonRoundTrip.ParseInvertsPrint | json.c:595-604 | parsing any printed document (any whitespace but carriage returns, any spelling of characters and numbers) gives its tree and stops at its end exactly if the buffer is strictly longer than the flat form, and otherwise reports that it is not |
| JsonRoundTrip.DocRead | json.c:553-593 | the same for a document anywhere in a text |
| JsonRoundTrip.StringRead | json.c:58-227 | the spelling of a string is read as the bytes it stands for |
| JsonRoundTrip.NumberRead | json.c:246-338 | every number of the grammar of RFC 8259 is taken whole |
| JsonText.ArrayTextIs | json.c:443-468 | in characters, what the documents of the theorem above are: elements between brackets, with a comma after each but the last |
| JsonText.ObjectTextIs | json.c:503-545 | members between braces, each a string, a colon and a value, with a comma after each but the last |
| JsonText.StringTextIs | json.c:503-545 | a string stands between quotes |
| JsonText.NumbersAre | json.c:246-338 | two numbers of the grammar, to the letter |
| JsonText.DigitsAre | json.c:246-338 | the digits are those from 0 to 9 |
| JsonNumbers.WholeTextIff | json.c:246-338 | a text that begins like a number is taken for one as a whole exactly if it is a number of RFC 8259, or a sign with a fraction or an exponent but no integer part |
| JsonText.NumbersBreakOff | json.c:246-338 | errors of unfinished numbers and where they are noticed, by examples |
| JsonText.TrueIs | json.c:349-385 | the text true is read as true |
| JsonText.FalseIs | json.c:349-385 | and false as false |
| JsonText.NullIs | json.c:388-410 | and null as null |
| JsonText.WordsBreakOff | json.c:349-410 | errors of words cut short or misspelled, by examples |
| JsonText.NoValueStarts | json.c:553-593 | errors where no value begins, by examples, a carriage return among them |
| JsonText.RoomFirst | json.c:553-593 | a full buffer is noticed before anything else, whatever follows the first character |
| JsonText.WhitespaceIs | json.c:46-55 | spaces, tabs and line feeds are the whitespace between tokens |
| JsonText.ContainersBreakOff | json.c:443-468 | errors of missing separators, by examples |
| JsonText.PlainAre | json.c:203-222 | the characters that may stand for themselves in a string: tabs and what is printable in ASCII but quote and backslash |
| JsonText.EscapesAre | json.c:152-189 | the eight short escapes and what they stand for, in characters, and that there are no others |
| JsonText.CodePointIs | json.c:87-110 | four hexadecimal digits in either case denote the number written with them |
| JsonText.OnlyHexDigits | json.c:87-106 | no other characters are hexadecimal digits |
| JsonText.Utf8IsDecoded | json.c:111-147 | every code point is encoded as bytes that decode to it by the table of section 3 of RFC 3629 |
| JsonText.StringsBreakOff | json.c:58-227 | errors of unfinished strings and where they are noticed, by examples |
| JsonText.KeysBreakOff | json.c:503-525 | errors of members without a colon, by examples |
| JsonRoundTrip.EscapeIsFaithful | json.c:103-151 | a unicode escape is encoded as its code point exactly if it is the first of its string, follows one for 0, or follows one of at least 0x8000 while being ASCII: the accumulator is never reset |
| JsonEscapes.StringReadIff | json.c:58-227 | a string for which there is room is read as the bytes it stands for exactly if each of its escapes is the first, follows one for 0, or is ASCII and follows one of at least 0x8000: no misread escape can be made up for later |
| JsonEscapes.EscapesRunTogether | json.c:58-227 | the string of two escapes, for U+0001 and A, is accepted as U+0001 and the one character U+10041 |
| JsonCommas.ArrayComma | json.c:443-468 | an array with a comma after its last element is refused, at its closing bracket if the buffer lasts that far |
| JsonCommas.AnyQuoteWillDo | json.c:58-70 | the first character of a key is not looked at: the members are those of the text with a quote there, whatever it is |
| JsonCommas.OddIsAccepted | json.c:503-525 | an object is accepted in which the closing brace after a comma serves as the quote of one more key |
| JsonCommas.ObjectCommaAtEnd | json.c:503-525 | where no quote follows that brace, as when just whitespace does, the object is refused |
| JsonNesting.Nested | json.c:413-550 | the record of every tree is aligned, and the length of each container spans exactly its children, at every depth |
| JsonNesting.AcceptedIsNested | json.c:595-604 | whatever the parser accepts, it leaves a well-nested record that ends before the buffer does |
| JsonReader.ReadsBack | json.c:606-659 | wherever the flat form of a tree lies, reading it as the consumers do gives back the tree: kinds 1 to 6, a string by its length, a number by its eight bytes, a boolean by whether they are 1, elements and members in order |
| JsonReader.AcceptedIsRead | json.c:595-604 | so the buffer after any accepted text is read as the tree of the text, whatever else it holds |
| JsonReader.RecordsAre | json.h:9-27 | some records byte by byte: type and length as 32-bit numbers, then the contents, padded |
| JsonNesting.CountElements | json.c:791-800 | the walk by 8 + align_8(len) counts exactly the elements of the array, also over records of length 0 |
| JsonNesting.WalkValue | json.c:845-879 | moving over a well-nested record as json_adapt does, container by container at every depth, ends exactly where the header of the record says |
| Json.Align8 | util.h:16-16 | rounds up to a multiple of 8, and 0 to 0 although the subtraction wraps around |
| Constants.Evaluator.LoadConstants | ser/eval.c:1022-1042 | names are bound to their last definition; every later definition of a name is reported and removed from the items, and nothing else is |
| Constants.BoundByLast | ser/eval.c:1022-1042 | every name that an item defines is bound, to the value of the last item that does |
| Constants.RemovedIfDefinedBefore | ser/eval.c:1022-1042 | an item is reported and removed exactly if an earlier one defines its name |
| Constants.Evaluator.ResolveOne | ser/eval.c:1049-1110 | following one constant's references ends, and keeps all that is settled right |
| Constants.Evaluator.WalkCycle | ser/eval.c:1070-1092 | the inner walk ends, lists every member of the cycle once in the order of references, and marks exactly those |
| Constants.Evaluator.ResolveConstants | ser/eval.c:1016-1115 | every name is settled, in whatever order the items come |
| Constants.ResolutionIsExact | ser/eval.c:1016-1115 | a constant is valid with value v exactly if its chain of references ends at the literal v; each reference cycle has one report, no two reports share a constant; unknown names that chains end at are reported |
| Constants.SameCycle | ser/eval.c:1079-1086 | two cycles that share a constant have the same members |
| Constants.EndsAtKnown | ser/eval.c:1056-1068 | what has been settled for a constant holds for everything that refers to it |
| Declarators.WriteField | ser/codegen_c.c:146-184 | the reverse and the forward loop print the declarator of the modifiers of a field, which are those given and those of its type |
| Declarators.ModifiersByChain | ser/codegen_c.c:146-160 | along the chain of arrays of a fixed size, from the outermost in, a field has a pointer for each one on the heap and an array of its size for every other, and then the type the chain ends in |
| Declarators.DeclaratorRoundTrip | ser/codegen_c.c:146-184 | reading the declarator printed for any list of modifiers, by the grammar of section 6.7.6 of ISO/IEC 9899:2011, gives back that list and uses up the text |
| Declarators.ReadsPrinted | ser/codegen_c.c:146-184 | the same in front of any text that does not go on with another array |
| Declarators.PrintedGrows | ser/codegen_c.c:160-183 | one more modifier changes what the two loops print only at the ends |
| Declarators.PrintedIsBalanced | ser/codegen_c.c:160-183 | the parentheses of the two loops match |
| Slots.Client.DeviceInit | client.c:164-226 | replaces what was known of the slot, or ignores a slot out of range |
| Slots.Client.DeviceDestroy | client.c:149-162 | forgets the device of the slot, if it is in range |
| Slots.Client.DeviceHandleReport | client.c:245-257 | takes a report exactly if the slot has a device with the same counts |
| Slots.Client.Receive | client.c:505-518 | the effect of one message on the slots |
| Slots.Client.DestroyDevices | client.c:128-138 | forgets all devices |
| Slots.StepKeeps | server.c:167-285 | every step of every thread, every delivery and every new connection keeps: replaying what is under way takes every report and ends with exactly the devices held |
| Slots.RunKeeps | server.c:167-285 | so does every run |
| Slots.SafeIffFits | client.c:245-257 | over every interleaving of the slot threads on one in-order connection, with devices lost, replaced and connections renewed, no delivered report is rejected, exactly if there are at most 256 threads |
| Slots.Confuses | server.c:192-192 | with more, slots are sent modulo 256: in a run of five steps a report is rejected exactly if the two devices confused differ in the number of absolute axes, relative axes or keys |
| Slots.StaysBehind | server.c:268-277 | and the device of a thread from number 256 on is never forgotten: it was announced modulo 256, but its loss is not |
| Forwarding.Feature.Declare | hid.c:96-117 | the next index and the code are mapped to each other |
| Forwarding.SetupKind | hid.c:85-119 | the codes declared are numbered in order; the loop leaves out the largest code |
| Forwarding.DeclaredAre | hid.c:74-119 | the codes declared of a kind are those the device has below 767, in ascending order, if it has the kind at all |
| Forwarding.DevicesAre | hid.h:14-24 | the devices the model is of: any with absolute axes below 64 and relative axes below 16 |
| Forwarding.Device.Setup | hid.c:57-121 | for all three kinds the map from codes to indices is inverse to the list of codes |
| Forwarding.InBoundsIffDeclared | server.c:240-265 | an index read from the map lies in the report, and leads back to the code, exactly if the code was declared; for any other code it is -1 in 16 bits, so the guard against negative ones never fires |
| Forwarding.DeviceThread | server.c:206-266 | for any events: one report is sent for every EV_SYN, with the last value read for each declared code and 0 if there was none, up to the first event with a code that was not declared, whose value is stored outside the report |
| Forwarding.LastIs | server.c:240-265 | of the events themselves: what a report keeps for a code is 32 bits of the value of the last event with that kind and code, or for a key whether that value was not 0, and 0 if there is no such event |
| Forwarding.Enter | server.c:240-265 | an event changes the entry of its own code and no other, or is stored outside the report exactly if its code was not declared |
| Forwarding.HandleReport | client.c:259-278 | one event for every code of the device and an EV_SYN at the end, or nothing for a report of another shape |
| Forwarding.Forward | client.c:259-278 | from end to end, of the events themselves: for each EV_SYN before the first event with an undeclared code the virtual device gets one event for every declared code, with 32 bits of the value of the last event with that code before it, for keys 0xFFFFFFFF if that value was not 0, and 0 if there was none |

## Left out

- Definitions.DefineStructs: works on ideal maps, while the source keeps its structs in the hash map and takes them out of it; so the order holds as long as every deletion is one that TakeIsSoundIff finds safe.
- ProbeTable.WrappedRunLosesEntry: is one family of unsafe deletions; TakeIsSoundIff is for all.
- Slots.SafeIffFits: ranges over every number of slots; a Request fits the client's buffer for at most 1007, so rejected reports are real for 257 to 1007 slots.
- Lengths.LocalIsAlignment: is for tables in which types refer to earlier ones, as they do in net.ser; ResolveAll is for all tables.
- JsonRoundTrip.ParseInvertsPrint: takes strings whose unicode escapes are all encoded correctly, by the condition that JsonEscapes.StringReadIff shows to be exact for whole strings; each escape stands for its own 16-bit code unit, so surrogate pairs are not joined.
- Forwarding.Enter: takes the codes of events to lie within the tables of indices, as the kernel's do; beyond the end of one the source reads an index of the next.
- JsonParser.Parser.ParseNumber: adds up real numbers, exactly; how a double rounds them is a parameter, applied once at the end, and exponents are integers of any size.
- Messages.Serialize: lengths are unbounded integers where the source returns a 32-bit int.
- Elements of arrays of variable length that are floats or arrays of a fixed size: the compiler has no layout for the former, and for the latter it emits code that does not compile and may not stop emitting.
- The message DeviceTagNone, which writes no tag, and the freeing of memory; what is emitted to free a heap array of a fixed size does not compile.
- What happens after a store through a pointer that is not set, or outside an array: a run of the model ends there, where the source goes on with what it has overwritten.
- The text of the emitted C except for declarators: accessors are paths, and the condition of a loop is evaluated once, as no loop changes the length it counts to.
- The Python backend except for the search for the length of an array; its tags and magic differ from those of C by construction.
- Natural alignment of message bodies whose first leaf needs 4 or 8 bytes: the tracked alignment is not advanced by the initial padding. The round trip holds there too.
- Schemas with unresolved types, and what is computed for schemas that already have errors: layouts are flattened even after an infinite struct was found, and flattening then does not end.
- Machines that are not little-endian, and characters that are not signed.
- The contents of free buckets, the callbacks that drop items, and hashing itself; sorting stands for qsort and may order equal elements in any way.
- JSON texts and buffers of 2 GiB and more, where 32-bit lengths overflow.
- Carriage returns between JSON tokens, which RFC 8259 allows and the parser rejects.
- The adaptation of JSON records to C structs, except for the walks that count the elements of an array and move over a record.
- Sockets, devices, threads and the kernel: reads and writes are taken as whole messages and events, in order, and the codes a device declares as within the tables of the kernel.
- The order in which diagnostics are printed, and their text.
- Duplicate fields and types, message names, the lexer and parser of the schema language and their error recovery.
- Controller states sent by the client, and the choice of a device for a slot.
