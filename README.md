# ros-typescript core, modelled in Dafny

This project models the core of the foxglove `ros-typescript` packages and
proves properties of that model:

- **MessageWriter** (`packages/rosmsg-serialization/src/MessageWriter.ts`):
  the ROS1 message writer and size calculator. The source generates one
  JavaScript function per type and runs it with `eval`. Here that walk over the
  schema is a function, `WalkType`, that yields the sequence of primitive calls
  (`uint32(length)`, `string(value)`, ...). Two classes consume those calls one
  at a time:
  - `OffsetCalculator`, whose cursor `offset` advances;
  - `StandardTypeWriter`, which stores little-endian bytes into an `array`
    view given by offset and length.

  The specification functions are `CallWidth`, `TotalWidth` and `ByteSize` for
  sizes, and `EncodeCall`, `EncodeCalls` and `Encode` for bytes. The schema
  compiler (`CreateWriterAndSizeCalculator`) picks the root type, rejects bad
  schema sets and resolves every complex field by name.
- **Parse** (`packages/rosmsg/src/parse.ts`): the message-definition text
  parser.
  - Lines are trimmed and filtered, comment lines are dropped, and lines are
    grouped at `==` separators.
  - `MSG:` headers name the groups.
  - Structurally equal types are removed.
  - `fixupTypes` rewrites each complex field to its unique fully-qualified
    name. It is a method over an `array` of types, proved against
    `FixedTypes`.
  - The per-line grammar is a parameter.
- **RosMaster** (`packages/ros1/src/RosMaster.ts`): the ROS master's
  registry. The class `RosMaster` holds:
  - nodes;
  - services and their providers;
  - topic types;
  - publishers and subscribers;
  - parameters;
  - parameter subscriptions.

  Each XML-RPC handler is a method that checks its argument shapes
  (`CheckArguments`), then makes one state transition and returns the XML-RPC
  response. JavaScript `Map` and `Set` values keep insertion order, and that
  order is visible in the responses. They are modelled by the `Ordered` module.
- **GenDeps** (`packages/rosmsg-msgs-common/scripts/gendeps.ts`): the
  dependency flattener. Breadth-first, it joins a message definition with
  the definitions of its transitive dependencies. Each dependency block is a
  delimiter line and a `MSG:` header, followed by the definition text. The
  package name helpers are modelled too.
- **BagReverse** (`packages/rosbag/src/ReverseIterator.ts`): reverse
  iteration over a ROS1 bag, covering:
  - the constructor's chunk filter and ordering by decreasing end time;
  - `loadNext`'s selection of overlapping chunks, consumed-slot clearing,
    position step-back, index-entry window and chunk cache.
- **Bag2Messages** (`packages/rosbag2/src/MessageIterator.ts`): the rosbag2
  message iterator over a queue of row sources.
- **MsgsCommon** (`packages/rosmsg-msgs-common/src/index.ts`): the
  file-name and type-name helpers, plus the naming and recording step of
  `loadDefinitions`.
- Helper modules:
  - `Wrappers`: `Option` and `Result`;
  - `Strings`: `split`, `join`, `trim`, the comment regular expression and
    sorting;
  - `Bytes`: little-endian words, and UTF-8 as in section 3 of RFC 3629;
  - `MsgDef`: message definitions and fields;
  - `Ordered`: insertion-ordered maps and sets.

The tests of `parse` pass a `topLevelTypeName` option that `parse.ts` does
not read; the model follows the code.

## Model

| member | source | states |
|---|---|---|
| Strings.Split | packages/rosmsg-msgs-common/src/index.ts:96 | split yields at least one part, no part holds the separator, and joining the parts with the separator gives back the input |
| Strings.SplitJoin | packages/rosmsg-msgs-common/src/index.ts:96 | splitting a join of separator-free parts gives back exactly those parts |
| Strings.FirstSegment | packages/rosmsg-msgs-common/scripts/gendeps.ts:66 | the first segment holds no separator and is the text before the first separator, or the whole text when there is none |
| Strings.Trim | packages/rosmsg/src/parse.ts:53 | trim is a slice of its input with only white space before and after it, and starts and ends with a non-white-space character, so exactly the leading and trailing white space is removed; it is empty exactly when the input is all white space |
| Strings.TrimFacts | packages/rosmsg/src/parse.ts:53 | trimming the start and then the end yields empty exactly when the input is all white space |
| Strings.StripComments | packages/rosmsg/src/parse.ts:152 | removing the comment pattern leaves no hash, never lengthens the text, leaves text without a hash unchanged, and on a single line keeps exactly the text before the first hash |
| Strings.NonEmpty | packages/rosmsg/src/parse.ts:154 | filtering keeps exactly the non-empty words, and keeps everything when no word is empty |
| Strings.NonEmptyAppend | packages/rosmsg/src/parse.ts:154 | filtering a concatenation is the concatenation of the filtered parts, so order and repeats are kept |
| Strings.LastSegment | packages/rosmsg-msgs-common/scripts/gendeps.ts:70 | the last split part is a separator-free suffix of the text, preceded by a separator when the text has one, and the whole text otherwise |
| Strings.Sort | packages/ros1/src/RosMaster.ts:313 | the default sort yields a sorted permutation of its input |
| Strings.LessEqTotal | packages/ros1/src/RosMaster.ts:501 | the order the sort uses relates any two strings |
| Strings.LessEqTransitive | packages/ros1/src/RosMaster.ts:501 | the sort order is transitive |
| Strings.LessEqAntisymmetric | packages/ros1/src/RosMaster.ts:501 | two strings ordered both ways are equal |
| Bytes.LittleEndian | packages/rosmsg-serialization/src/MessageWriter.ts:133 | a little-endian word has exactly the requested byte count |
| Bytes.LittleEndianRoundTrip | packages/rosmsg-serialization/src/MessageWriter.ts:152-190 | reading back a little-endian word gives the value modulo 256 to the power of the width |
| Bytes.Utf8Encode | packages/rosmsg-serialization/src/MessageWriter.ts:134-137 | the encoded bytes number exactly the UTF-8 length of the string |
| Bytes.Utf8RoundTrip | packages/rosmsg-serialization/src/MessageWriter.ts:134-137 | decoding the UTF-8 encoding of any string gives back that string |
| Bytes.CodePointLength | packages/rosmsg-serialization/src/MessageWriter.ts:53 | every code point takes one to four bytes |
| Ordered.Put | packages/ros1/src/RosMaster.ts:31-38 | Map.set binds the key to the value, leaves every other key alone, and appends a new key at the end of the order while an existing key keeps its place |
| Ordered.Remove | packages/ros1/src/RosMaster.ts:123 | Map.delete unbinds the key, leaves every other key alone, and drops the key from the order |
| Ordered.Add | packages/ros1/src/RosMaster.ts:150 | Set.add keeps the set free of duplicates, contains exactly the old members and the new one, and keeps the old order as a prefix |
| Ordered.Without | packages/ros1/src/RosMaster.ts:176 | Set.delete contains exactly the other members and is unchanged when the member was absent |
| Ordered.WithoutDistinct | packages/ros1/src/RosMaster.ts:176 | deleting from a duplicate-free set keeps it duplicate-free and shrinks it by one when the member was present |
| Ordered.ValuesInOrder | packages/ros1/src/RosMaster.ts:154 | the values come out in key insertion order, one per key |
| Ordered.Get | packages/ros1/src/RosMaster.ts:141 | lookup succeeds exactly for bound keys |
| Ordered.Empty | packages/ros1/src/RosMaster.ts:31-38 | a new map is well formed and has no keys |
| Ordered.PutTwice | packages/ros1/src/RosMaster.ts:99 | setting a key twice is the same as setting it once to the second value |
| Ordered.RemoveAfterPut | packages/ros1/src/RosMaster.ts:121-123 | deleting a key just set, whether it was present or not, is the same as deleting it from the earlier map |
| RosMaster.TypeOf | packages/ros1/src/RosMaster.ts:14 | the typeof tag is string, number or boolean exactly for strings, numbers and booleans |
| RosMaster.CheckArguments | packages/ros1/src/RosMaster.ts:8-20 | no error exactly when the arguments conform; a count error when the lengths differ; otherwise the error names the first position whose tag is wrong and not a wildcard |
| Strings.Decimal | packages/ros1/src/RosMaster.ts:48 | a port number prints as a non-empty run of decimal digits that denotes that number, with no leading zero |
| RosMaster.ObjectToKeyValues | packages/ros1/src/RosMaster.ts:506-521 | the flattening loop yields exactly the leaf entries of the nested object |
| RosMaster.LeavesSound | packages/ros1/src/RosMaster.ts:506-521 | every flattened entry holds a non-object value under a key that extends the prefix with a slash |
| RosMaster.LeavesComplete | packages/ros1/src/RosMaster.ts:511-518 | every non-object member appears under its path, and every leaf of a nested object member appears too |
| RosMaster.LeavesOrigin | packages/ros1/src/RosMaster.ts:511-518 | every flattened entry comes from one member of the object |
| RosMaster.SetEach | packages/ros1/src/RosMaster.ts:391-392 | the store loop sets every entry in order |
| RosMaster.SetAllGet | packages/ros1/src/RosMaster.ts:387-392 | after storing the entries a key holds its last stored value, or its old value when no entry has that key |
| RosMaster.PlainValueStored | packages/ros1/src/RosMaster.ts:387-389 | setParam with a non-object value stores it under the key alone and changes no other key |
| RosMaster.StructValueStored | packages/ros1/src/RosMaster.ts:387-388 | setParam with an object value changes no key outside the key's path |
| RosMaster.LastValueFound | packages/ros1/src/RosMaster.ts:391-392 | the last value found for a key comes from an entry with that key |
| RosMaster.NodeApis | packages/ros1/src/RosMaster.ts:154-155 | the answered node APIs are exactly those of the named, known nodes |
| RosMaster.NodeApisAllKnown | packages/ros1/src/RosMaster.ts:155 | when every name is a known node, there is one API per name, in order |
| RosMaster.StringsArray | packages/ros1/src/RosMaster.ts:501 | a name list becomes an XML-RPC array of the same strings in the same order |
| RosMaster.TopicNodes | packages/ros1/src/RosMaster.ts:312-318 | one entry per topic in insertion order, pairing the topic with its members sorted and as a permutation |
| RosMaster.ServiceNodes | packages/ros1/src/RosMaster.ts:320-325 | one entry per service in insertion order, pairing the service with its provider names sorted and as a permutation |
| RosMaster.NodesGrow | packages/ros1/src/RosMaster.ts:100 | recording a node keeps every registered caller a known node |
| RosMaster.ServicesPut | packages/ros1/src/RosMaster.ts:94-100 | storing a non-empty provider map of known nodes keeps the service invariant |
| RosMaster.ServiceRegistered | packages/ros1/src/RosMaster.ts:94-100 | registerService's update keeps every service non-empty with known providers |
| RosMaster.ServicesRemove | packages/ros1/src/RosMaster.ts:121-124 | deleting a service keeps the service invariant |
| RosMaster.ServiceUnregistered | packages/ros1/src/RosMaster.ts:121-124 | unregisterService's update, deleting an emptied service, keeps every service non-empty |
| RosMaster.MembersPut | packages/ros1/src/RosMaster.ts:146-152 | storing a non-empty duplicate-free member set of known nodes keeps the topic invariant |
| RosMaster.MemberAdded | packages/ros1/src/RosMaster.ts:146-152 | a register handler's update keeps every topic non-empty with known members |
| RosMaster.MembersRemove | packages/ros1/src/RosMaster.ts:176-179 | deleting a topic keeps the topic invariant |
| RosMaster.MemberRemoved | packages/ros1/src/RosMaster.ts:176-179 | an unregister handler's update, deleting an emptied topic, keeps every topic non-empty |
| RosMaster.PublisherRegistered | packages/ros1/src/RosMaster.ts:201-208 | registerPublisher's update keeps all invariants, including that every published topic has a recorded type |
| RosMaster.TypeRecorded | packages/ros1/src/RosMaster.ts:207 | recording the type with the publisher keeps every published topic typed |
| RosMaster.PublisherDropped | packages/ros1/src/RosMaster.ts:246-249 | dropping a publisher without touching the types keeps every published topic typed |
| RosMaster.SortedNames | packages/ros1/src/RosMaster.ts:501 | sorted names keep the same count and members and are in non-decreasing order |
| RosMaster.RosMaster.constructor | packages/ros1/src/RosMaster.ts:31-43 | a new master has empty registries, no parameters and no URL |
| RosMaster.RosMaster.Start | packages/ros1/src/RosMaster.ts:45-48 | start records the URL built from host name and port |
| RosMaster.RosMaster.RegisterService | packages/ros1/src/RosMaster.ts:82-103 | on bad arguments an error and no change; otherwise the caller's API under the service, the caller in the nodes, and code 1 |
| RosMaster.RosMaster.UnregisterService | packages/ros1/src/RosMaster.ts:105-127 | on bad arguments an error and no change; otherwise the caller leaves the service, an emptied service is deleted, and the value is 1 exactly when the caller was a provider |
| RosMaster.RosMaster.RegisterSubscriber | packages/ros1/src/RosMaster.ts:129-157 | a type different from the recorded one gives code 0 and no change; otherwise the caller joins the subscribers and the response lists the topic's publisher APIs |
| RosMaster.RosMaster.UnregisterSubscriber | packages/ros1/src/RosMaster.ts:159-182 | the caller leaves the subscribers, an emptied topic is deleted, and the value is 1 exactly when the caller was subscribed |
| RosMaster.RosMaster.RegisterPublisher | packages/ros1/src/RosMaster.ts:184-227 | a type different from the recorded one gives code 0 and no change; otherwise the caller joins the publishers, the type is recorded and the subscriber APIs are returned |
| RosMaster.RosMaster.AddPublisher | packages/ros1/src/RosMaster.ts:196-211 | the exact new publishers, topics and nodes, or no change on a type mismatch |
| RosMaster.RosMaster.UnregisterPublisher | packages/ros1/src/RosMaster.ts:229-252 | the caller leaves the publishers, an emptied topic is deleted, the recorded type stays, and the value is 1 exactly when the caller was publishing |
| RosMaster.RosMaster.LookupNode | packages/ros1/src/RosMaster.ts:254-268 | code 1 with the node's API exactly when the node is known, else code 0 and a not-found message |
| RosMaster.RosMaster.GetPublishedTopics | packages/ros1/src/RosMaster.ts:270-292 | one pair per published topic, in insertion order, with its recorded type |
| RosMaster.RosMaster.GetTopicTypes | packages/ros1/src/RosMaster.ts:294-303 | one pair per typed topic, in insertion order, including topics whose publishers all left |
| RosMaster.RosMaster.GetSystemState | packages/ros1/src/RosMaster.ts:305-328 | publishers, subscribers and services, each listing its node names sorted |
| RosMaster.RosMaster.GetUri | packages/ros1/src/RosMaster.ts:330-343 | code 1 with the URL exactly when the master was started, else code 0 |
| RosMaster.RosMaster.LookupService | packages/ros1/src/RosMaster.ts:345-361 | code 1 exactly when the service has providers, answering the earliest provider's API |
| RosMaster.RosMaster.DeleteParam | packages/ros1/src/RosMaster.ts:365-377 | deleteParam removes exactly that key and leaves every other key alone |
| RosMaster.RosMaster.SetParam | packages/ros1/src/RosMaster.ts:379-408 | setParam stores each flattened leaf of the value, or the value itself, and answers code 1 |
| RosMaster.RosMaster.GetParam | packages/ros1/src/RosMaster.ts:410-424 | code 1 exactly when the key is set, answering its value or an empty struct |
| RosMaster.RosMaster.SearchParam | packages/ros1/src/RosMaster.ts:426-440 | code 1 exactly when the key is set, answering its value or an empty struct |
| RosMaster.RosMaster.SubscribeParam | packages/ros1/src/RosMaster.ts:442-460 | records the caller's API under the key and answers the current value or an empty struct |
| RosMaster.RosMaster.UnsubscribeParam | packages/ros1/src/RosMaster.ts:462-481 | forgets the caller for the key, answering 1 exactly when it was subscribed |
| RosMaster.RosMaster.HasParam | packages/ros1/src/RosMaster.ts:483-492 | answers true exactly when the key is set |
| RosMaster.RosMaster.GetParamNames | packages/ros1/src/RosMaster.ts:494-503 | answers all parameter keys sorted |
| Parse.Lines | packages/rosmsg/src/parse.ts:51-54 | the result is exactly the trimmed non-blank lines of the text, in order and with repeats: every kept line is non-empty and already trimmed, the trim of every non-blank line is kept, and there are no more results than lines |
| Parse.LinesOfJoin | packages/rosmsg/src/parse.ts:51-54 | trimmed, non-blank lines joined by newlines come back as the same lines, in order and with repeats |
| Parse.TrimAll | packages/rosmsg/src/parse.ts:53 | the trimming loop trims each line and keeps the count |
| Parse.TrimTrimmed | packages/rosmsg/src/parse.ts:53 | trim is idempotent |
| Parse.Groups | packages/rosmsg/src/parse.ts:59-81 | grouping always yields at least one group |
| Parse.AddLine | packages/rosmsg/src/parse.ts:59-76 | handling one line never changes any closed group |
| Parse.GroupCount | packages/rosmsg/src/parse.ts:66-81 | there is one group more than there are separator lines |
| Parse.GroupsPartitionContent | packages/rosmsg/src/parse.ts:59-76 | the groups, concatenated, are exactly the non-comment, non-separator lines in order |
| Parse.CommentLinesIgnored | packages/rosmsg/src/parse.ts:61-63 | inserting a comment line anywhere changes no group |
| Parse.SeparatorAdded | packages/rosmsg/src/parse.ts:66-72 | a separator closes the groups so far and opens an empty one |
| Parse.LineAdded | packages/rosmsg/src/parse.ts:73-75 | a content line goes to the end of the open group |
| Parse.SeparatorClosesGroups | packages/rosmsg/src/parse.ts:66-72 | the groups before a separator are a proper prefix of the final groups |
| Parse.GroupsGrow | packages/rosmsg/src/parse.ts:59-76 | reading more lines keeps all closed groups |
| Parse.NormalizeType | packages/rosmsg/src/parse.ts:195-203 | char becomes uint8 and byte becomes int8; the result is never char or byte, and other types are unchanged |
| Parse.NormalizeIdempotent | packages/rosmsg/src/parse.ts:195-203 | normalizing twice is normalizing once |
| Parse.SimpleTokenization | packages/rosmsg/src/parse.ts:150-155 | the tokens are exactly the non-empty space-separated words of the comment-stripped line, in order: each token is such a word, non-empty and free of spaces and hashes, and every such word is a token |
| Parse.TokenizeWords | packages/rosmsg/src/parse.ts:150-155 | words joined by single spaces tokenize back into the same words in order, with or without a trailing comment |
| Parse.BuildType | packages/rosmsg/src/parse.ts:123-148 | the line loop builds the type the specification function gives |
| Parse.Ros1TypeFacts | packages/rosmsg/src/parse.ts:123-148 | without a MSG header the type is unnamed, and no field type is char or byte |
| Parse.HeaderNamesType | packages/rosmsg/src/parse.ts:127-131 | a MSG header line names the type with its second token |
| Parse.HeaderTokens | packages/rosmsg/src/parse.ts:150-155 | a MSG header tokenizes into the header word and the name |
| Parse.RosTypeErrorPersists | packages/rosmsg/src/parse.ts:136-140 | a line that fails to parse makes the whole group fail with that error |
| Parse.BuildGroup | packages/rosmsg/src/parse.ts:67-70 | building one group agrees with the specification function |
| Parse.BuildAll | packages/rosmsg/src/parse.ts:66-81 | when every group builds, there is one type per group |
| Parse.FirstOccurrences | packages/rosmsg/src/parse.ts:86-92 | dedup never adds types |
| Parse.FirstOccurrencesFacts | packages/rosmsg/src/parse.ts:86-92 | dedup is an order-preserving subsequence in which no later kept type equals an earlier one, every type is kept or equals a kept one, and the first type (the root) is kept first |
| Parse.FirstOccurrencesGrow | packages/rosmsg/src/parse.ts:86-92 | the dedup of a prefix is a prefix of the dedup, so whether a type is kept depends only on the types before it |
| Parse.FirstOccurrenceIndices | packages/rosmsg/src/parse.ts:86-92 | for a transitive equality, the kept types are exactly those with no equal type before them, at strictly increasing positions: the first occurrence of each class, in input order |
| Parse.StructuralDedup | packages/rosmsg/src/parse.ts:86-92 | with structural equality the kept types are the distinct values of the input, each at its first occurrence, in input order |
| Parse.UniqueTypes | packages/rosmsg/src/parse.ts:86-92 | the dedup loop yields the first occurrences |
| Parse.UnqualifiedNamespace | packages/rosmsg/src/parse.ts:112 | a type name without a slash has the empty namespace |
| Parse.QualifiedNamespace | packages/rosmsg/src/parse.ts:112 | a qualified type's namespace is its package |
| Parse.Candidates | packages/rosmsg/src/parse.ts:162-182 | the candidates are exactly the types matching the name under the resolution rules |
| Parse.FindTypeByName | packages/rosmsg/src/parse.ts:157-193 | succeeds exactly when one type matches, returning that unique matching type |
| Parse.ResolutionRules | packages/rosmsg/src/parse.ts:165-181 | a slash name is matched exactly, Header means std_msgs/Header, then namespace/name in a namespace, else a slash-name suffix |
| Parse.CandidatesByName | packages/rosmsg/src/parse.ts:113 | resolution depends only on the type names, so rewriting fields does not change it |
| Parse.FixedField | packages/rosmsg/src/parse.ts:109-118 | non-complex fields are unchanged; a complex field changes only its type, to the name of the one type it resolves to; it fails exactly when a complex field does not resolve to one named type |
| Parse.FixedFields | packages/rosmsg/src/parse.ts:108-119 | each field is fixed on its own and the count is kept |
| Parse.FixedFieldByName | packages/rosmsg/src/parse.ts:113 | fixing a field depends only on the type names |
| Parse.FixedFieldsByName | packages/rosmsg/src/parse.ts:113 | fixing a field list depends only on the type names |
| Parse.FixedTypes | packages/rosmsg/src/parse.ts:106-121 | fixing keeps the count and the name of every type |
| Parse.FixedTypesShape | packages/rosmsg/src/parse.ts:106-121 | fixing keeps every field, rewriting only the types of complex fields, each to the name of its unique match from its container's namespace |
| Parse.FixedTypesElements | packages/rosmsg/src/parse.ts:106-121 | each type's fields are fixed in that type's own namespace, against the original types |
| Parse.FixupTypes | packages/rosmsg/src/parse.ts:106-121 | the in-place pass succeeds exactly when the specification does, leaving the array equal to its result |
| Parse.FixupAt | packages/rosmsg/src/parse.ts:107-113 | one type's pass agrees with the specification, although earlier types are already rewritten |
| Parse.FixupFields | packages/rosmsg/src/parse.ts:108-119 | the field loop agrees with the specification function |
| Parse.FixedFieldsErrorPersists | packages/rosmsg/src/parse.ts:114-116 | a field that does not resolve fails the whole type |
| Parse.FixedTypesErrorPersists | packages/rosmsg/src/parse.ts:114-116 | an error in an earlier type fails the whole pass |
| Parse.FixedTypesFieldError | packages/rosmsg/src/parse.ts:114-116 | an unresolvable field in a type fails the pass |
| Parse.TypesPerSeparator | packages/rosmsg/src/parse.ts:66-81 | before dedup there is one type more than there are separator lines |
| Parse.SkipFixupKeepsTypes | packages/rosmsg/src/parse.ts:95-97 | with skipTypeFixup the result is the deduplicated types exactly as built |
| Parse.BuildAllErrorPersists | packages/rosmsg/src/parse.ts:67-71 | a group that fails fails the parse |
| Parse.Parse | packages/rosmsg/src/parse.ts:49-100 | parse succeeds exactly when the specification does, with the same types |
| Parse.BuildTypes | packages/rosmsg/src/parse.ts:56-81 | the line loop builds exactly the types of the groups |
| Parse.SeparatorError | packages/rosmsg/src/parse.ts:66-71 | a group that fails at its closing separator fails the whole parse |
| Parse.LastGroupBuilt | packages/rosmsg/src/parse.ts:77-81 | the final group is built after the loop and appended last |
| GenDeps.PackageName | packages/rosmsg-msgs-common/scripts/gendeps.ts:65-67 | the package is the text before the first slash, and the whole name when it has no slash |
| GenDeps.BaseType | packages/rosmsg-msgs-common/scripts/gendeps.ts:69-71 | the base type is the slash-free suffix after the last slash, and the whole name when it has no slash |
| GenDeps.GetFullType | packages/rosmsg-msgs-common/scripts/gendeps.ts:55-63 | an error exactly when the name has no slash and no package is given; otherwise a qualified name ending in the name |
| GenDeps.FullTypeIdempotent | packages/rosmsg-msgs-common/scripts/gendeps.ts:55-58 | qualifying a full type again leaves it unchanged |
| GenDeps.FullTypeParts | packages/rosmsg-msgs-common/scripts/gendeps.ts:55-71 | a base in a package qualifies to pkg/base, whose package and base are those parts |
| GenDeps.NameFirst | packages/rosmsg-msgs-common/scripts/gendeps.ts:94-96 | an unnamed first definition is named with the full type, and nothing else changes |
| GenDeps.CollectFields | packages/rosmsg-msgs-common/scripts/gendeps.ts:97-104 | under either duplicate check the earlier list is kept as a prefix and only grows at the end |
| GenDeps.DuplicateDependencyAsWritten | packages/rosmsg-msgs-common/scripts/gendeps.ts:100-102 | with the script's raw-type check, two fields of the same relative type list that dependency twice |
| GenDeps.CollectFieldsFacts | packages/rosmsg-msgs-common/scripts/gendeps.ts:97-104 | under either check only complex field types, qualified, are added; with the qualified check the list also stays duplicate-free |
| GenDeps.CollectFieldsComplete | packages/rosmsg-msgs-common/scripts/gendeps.ts:99-102 | under either check every complex field's qualified type is collected, given qualified earlier entries for the raw check |
| GenDeps.CollectDefs | packages/rosmsg-msgs-common/scripts/gendeps.ts:91-104 | over all definitions the earlier list is kept as a prefix |
| GenDeps.CollectDefsDistinct | packages/rosmsg-msgs-common/scripts/gendeps.ts:91-104 | under either check every collected type is qualified; with the qualified check the types are also duplicate-free |
| GenDeps.LoadTypeSpec | packages/rosmsg-msgs-common/scripts/gendeps.ts:73-107 | an unqualifiable name fails, and a loaded type carries the qualified name |
| GenDeps.LoadTypeFacts | packages/rosmsg-msgs-common/scripts/gendeps.ts:73-107 | a loaded type has the qualified name, the text of its file in its package and qualified dependencies, which are duplicate-free under the qualified check |
| GenDeps.LoadType | packages/rosmsg-msgs-common/scripts/gendeps.ts:73-107 | loadType succeeds exactly when its specification function under the script's raw-type check does, with the same value |
| GenDeps.CollectComplexTypes | packages/rosmsg-msgs-common/scripts/gendeps.ts:91-104 | the collecting loop equals the collection under the script's raw-type check |
| GenDeps.AddFieldTypes | packages/rosmsg-msgs-common/scripts/gendeps.ts:99-103 | the inner field loop, skipping a field whose raw type is listed, equals the collection under the raw-type check |
| GenDeps.CollectFieldsError | packages/rosmsg-msgs-common/scripts/gendeps.ts:59-61 | a complex field that cannot be qualified, and is not skipped, fails with getFullType's error |
| GenDeps.CollectDefsError | packages/rosmsg-msgs-common/scripts/gendeps.ts:97-104 | a failing definition fails the whole collection with its error |
| GenDeps.Enqueue | packages/rosmsg-msgs-common/scripts/gendeps.ts:45-50 | the old queue is a prefix, and only unseen items are appended, each once; every item ends up seen |
| GenDeps.EnqueueKeepsDistinct | packages/rosmsg-msgs-common/scripts/gendeps.ts:45-50 | enqueueing keeps the queue duplicate-free and entirely seen |
| GenDeps.EnqueueShrinks | packages/rosmsg-msgs-common/scripts/gendeps.ts:36-51 | either nothing new is seen or fewer unseen names remain |
| GenDeps.QueueStep | packages/rosmsg-msgs-common/scripts/gendeps.ts:36-51 | one worklist step keeps the queue inside the universe and makes progress |
| GenDeps.DrainLoads | packages/rosmsg-msgs-common/scripts/gendeps.ts:36-51 | every dequeued entry names a type of the universe and holds exactly what loading it reports |
| GenDeps.DrainFifo | packages/rosmsg-msgs-common/scripts/gendeps.ts:36-48 | the types are loaded first-in first-out, the initial queue first |
| GenDeps.DrainDistinct | packages/rosmsg-msgs-common/scripts/gendeps.ts:45-50 | no type is loaded twice |
| GenDeps.DrainClosed | packages/rosmsg-msgs-common/scripts/gendeps.ts:36-51 | every dependency of a dequeued type was seen before the loop began or is itself dequeued |
| GenDeps.DrainQualified | packages/rosmsg-msgs-common/scripts/gendeps.ts:36-51 | a queue of qualified names, under a loader that reports qualified dependencies, dequeues only qualified names |
| GenDeps.FlattenAsWritten | packages/rosmsg-msgs-common/scripts/gendeps.ts:23-54 | as written, the root's dependencies are dequeued first, in their listed order and repeats included, every entry is what its load reports, and every dependency of a dequeued type other than the root is dequeued too |
| GenDeps.RepeatedDependencyAsWritten | packages/rosmsg-msgs-common/scripts/gendeps.ts:32-34 | as written, a dependency shared by the root and another dependency is emitted twice |
| GenDeps.Flatten | packages/rosmsg-msgs-common/scripts/gendeps.ts:23-54 | with the root's dependencies passed through the seen set, every entry is what its load reports, and every dependency of the root and of every dequeued type, the root apart, is dequeued: the transitive closure |
| GenDeps.FlattenOnce | packages/rosmsg-msgs-common/scripts/gendeps.ts:32-50 | with the root's dependencies seen from the start, every direct dependency is emitted once and the root is not emitted |
| GenDeps.BlocksAppend | packages/rosmsg-msgs-common/scripts/gendeps.ts:40-43 | the output grows by one block per loaded type |
| GenDeps.BlockHeader | packages/rosmsg-msgs-common/scripts/gendeps.ts:40-43 | a block is the delimiter, a MSG line with the full type, then the type's text |
| GenDeps.FullTypeFromFilename | packages/rosmsg-msgs-common/scripts/gendeps.ts:109-125 | succeeds exactly when the root path's segments are a prefix of the file's |
| GenDeps.GetFullTypeFromFilename | packages/rosmsg-msgs-common/scripts/gendeps.ts:109-125 | the shifting loop agrees with the specification function |
| GenDeps.FileUnderRoot | packages/rosmsg-msgs-common/scripts/gendeps.ts:109-125 | a file pkg/.../base.msg under the root names pkg/base |
| GenDeps.FileParts | packages/rosmsg-msgs-common/scripts/gendeps.ts:110-111 | stripping .msg and splitting gives the root's segments followed by the package, directories and base |
| GenDeps.RestType | packages/rosmsg-msgs-common/scripts/gendeps.ts:122-124 | the rest of the path names its first and last segment |
| GenDeps.EnqueueAll | packages/rosmsg-msgs-common/scripts/gendeps.ts:45-50 | the enqueue loop agrees with the specification function |
| GenDeps.LoadDependency | packages/rosmsg-msgs-common/scripts/gendeps.ts:38 | a dependency loads exactly as the loader gives it |
| GenDeps.LoaderLoads | packages/rosmsg-msgs-common/scripts/gendeps.ts:38 | the file-table loader is the one the worklist uses |
| GenDeps.MsgDeps | packages/rosmsg-msgs-common/scripts/gendeps.ts:23-54 | a bad file name fails; a successful output begins with the root file's text |
| GenDeps.MsgDepsClosed | packages/rosmsg-msgs-common/scripts/gendeps.ts:11-54 | the output is the root's text and one block per dequeued type, and every dependency of the root and of each emitted type, the root apart, has its own `MSG:` block |
| GenDeps.BlockTypes | packages/rosmsg-msgs-common/scripts/gendeps.ts:41 | one `MSG:` type per block, in output order |
| GenDeps.QualifiedBlockTypes | packages/rosmsg-msgs-common/scripts/gendeps.ts:38-41 | a dequeued qualified name's block is headed by that same name |
| GenDeps.GenerateMsgDeps | packages/rosmsg-msgs-common/scripts/gendeps.ts:23-54 | the script as written, seeding the queue with the root's dependencies unchecked: succeeds exactly when its specification function does, with the same text, so the closure stated by GenDeps.MsgDepsClosed holds for its output |
| GenDeps.DrainQueue | packages/rosmsg-msgs-common/scripts/gendeps.ts:36-51 | the while loop appends exactly the blocks of the drained queue |
| GenDeps.ProgressStep | packages/rosmsg-msgs-common/scripts/gendeps.ts:36-51 | one loop step keeps the worklist invariant and makes progress |
| BagReverse.Somes | packages/rosbag/src/ReverseIterator.ts:74 | filtering out the cleared slots never lengthens the list |
| BagReverse.Wrap | packages/rosbag/src/ReverseIterator.ts:33-36 | popping the heap yields a gap-free slot list in the same order |
| BagReverse.SomesOfWrap | packages/rosbag/src/ReverseIterator.ts:33-36 | filtering wrapped slots gives the chunks back |
| BagReverse.StartedBy | packages/rosbag/src/ReverseIterator.ts:20-22 | exactly the chunks starting at or before the position remain, in order |
| BagReverse.InsertByEnd | packages/rosbag/src/ReverseIterator.ts:25-31 | a heap insert adds exactly that chunk |
| BagReverse.InsertByEndSorted | packages/rosbag/src/ReverseIterator.ts:25-31 | a heap insert keeps end times non-increasing |
| BagReverse.HeapOrder | packages/rosbag/src/ReverseIterator.ts:25-31 | the pop order is a permutation, sorted by non-increasing end time |
| BagReverse.StopIndex | packages/rosbag/src/ReverseIterator.ts:52-61 | selection stops at the first chunk ending before start, or at the end |
| BagReverse.Cleared | packages/rosbag/src/ReverseIterator.ts:66-70 | clearing only empties slots |
| BagReverse.SelectionFacts | packages/rosbag/src/ReverseIterator.ts:42-71 | the first chunk is always loaded and cleared, and every other loaded chunk ends at or after start |
| BagReverse.SelectedEndAfter | packages/rosbag/src/ReverseIterator.ts:58-64 | the chunks scanned before the stop end at or after start |
| BagReverse.SelectedHoldsScanned | packages/rosbag/src/ReverseIterator.ts:52-64 | every chunk before the stop is loaded |
| BagReverse.ClearedSlots | packages/rosbag/src/ReverseIterator.ts:66-70 | a slot is cleared exactly when it was loaded and starts at or after start; the stop slot stays |
| BagReverse.PrunedSurvivors | packages/rosbag/src/ReverseIterator.ts:74 | the surviving chunks keep their relative order and lose at least one when a slot was cleared |
| BagReverse.SubsequenceSorted | packages/rosbag/src/ReverseIterator.ts:74 | survivors of a sorted list stay sorted |
| BagReverse.EntryItemsWindow | packages/rosbag/src/ReverseIterator.ts:101-107 | exactly the index entries with new start less than time at most the old position are pushed |
| BagReverse.DataItemsAllowed | packages/rosbag/src/ReverseIterator.ts:97-100 | only entries of allowed connections are pushed |
| BagReverse.ChunkItemsWindow | packages/rosbag/src/ReverseIterator.ts:86-109 | every pushed item lies inside the time window and comes from a loaded chunk |
| BagReverse.NewCacheKeys | packages/rosbag/src/ReverseIterator.ts:91-95 | the cache keeps exactly the loaded chunks spanning the new start |
| BagReverse.ReverseIterator.constructor | packages/rosbag/src/ReverseIterator.ts:11-37 | the started chunks are filtered, put in heap order and all present as slots; heap and cache start empty; the between-calls invariant holds |
| BagReverse.ReverseIterator.LoadNext | packages/rosbag/src/ReverseIterator.ts:39-113 | false exactly when no chunk remains, changing nothing; otherwise the exact new slots, position start minus 1, heap and cache; the between-calls invariant is kept when every remaining chunk starts no later than it ends |
| BagReverse.ReverseIterator.SelectChunks | packages/rosbag/src/ReverseIterator.ts:49-71 | the selection loop clears and selects exactly as the specification functions say |
| BagReverse.ReverseIterator.LoadChunks | packages/rosbag/src/ReverseIterator.ts:84-111 | the heap gains exactly the window's items of the loaded chunks, and the cache is rebuilt |
| BagReverse.ReverseIterator.PushChunk | packages/rosbag/src/ReverseIterator.ts:97-108 | one chunk's items of allowed connections are appended |
| BagReverse.ReverseIterator.PushEntries | packages/rosbag/src/ReverseIterator.ts:101-107 | one connection's entries in the window are appended |
| BagReverse.BuildHeap | packages/rosbag/src/ReverseIterator.ts:29-31 | the insert loop yields the heap order |
| BagReverse.PopAll | packages/rosbag/src/ReverseIterator.ts:33-36 | the pop loop yields every chunk as a slot in heap order |
| BagReverse.SelectionStep | packages/rosbag/src/ReverseIterator.ts:52-71 | one loop step loads the slot and clears it exactly when it is consumed |
| BagReverse.ConstructedValid | packages/rosbag/src/ReverseIterator.ts:11-37 | after construction the slots are gap-free and sorted, holding exactly the started chunks |
| BagReverse.LoadNextKeepsValid | packages/rosbag/src/ReverseIterator.ts:42-82 | after loadNext the surviving chunks stay sorted, start before the new position, and strictly shrink |
| BagReverse.SortedSlots | packages/rosbag/src/ReverseIterator.ts:24-36 | a later slot never ends after an earlier one |
| Bag2Messages.ToMessage | packages/rosbag2/src/MessageIterator.ts:33-40 | topic, timestamp and data are copied; the value is undefined without a decoder and is the decoded row with one |
| Bag2Messages.Step | packages/rosbag2/src/MessageIterator.ts:24-43 | done exactly when no rows remain; otherwise the yielded row followed by the rest is all the rows |
| Bag2Messages.ReplayIsConcatenation | packages/rosbag2/src/MessageIterator.ts:24-44 | replaying the iterator yields the concatenation of all sources in order |
| Bag2Messages.NextConsumesOneRow | packages/rosbag2/src/MessageIterator.ts:25-40 | each step consumes exactly the first remaining row |
| Bag2Messages.MessageIterator.constructor | packages/rosbag2/src/MessageIterator.ts:15-18 | the iterator holds the given sources and decoder |
| Bag2Messages.MessageIterator.Next | packages/rosbag2/src/MessageIterator.ts:24-44 | done exactly when no rows remain; otherwise yields the converted first row and drops exhausted sources |
| MsgsCommon.TrailingDirsFacts | packages/rosmsg-msgs-common/src/index.ts:99-105 | the kept directories are the nearest non-msg directory followed by the msg directories after it |
| MsgsCommon.FilenameToDataType | packages/rosmsg-msgs-common/src/index.ts:95-107 | the pop and unshift loop agrees with the specification function |
| MsgsCommon.DataTypeToTypeName | packages/rosmsg-msgs-common/src/index.ts:109-120 | succeeds exactly when there is a slash and the first segment is not msg, giving first/last |
| MsgsCommon.TypeNameIsTwoSegments | packages/rosmsg-msgs-common/src/index.ts:109-120 | the result has exactly two segments and maps to itself |
| MsgsCommon.PackageFileTypeName | packages/rosmsg-msgs-common/src/index.ts:95-120 | a file .../pkg/msg/Base.msg gives pkg/msg/Base and then pkg/Base |
| MsgsCommon.PathSplits | packages/rosmsg-msgs-common/src/index.ts:96 | such a path splits back into its segments |
| MsgsCommon.ToUpper | packages/rosmsg-msgs-common/src/index.ts:205 | lower-case letters become upper case and other characters stay |
| MsgsCommon.UpperAfterFirstDigit | packages/rosmsg-msgs-common/src/index.ts:205-207 | the replacement keeps the length |
| MsgsCommon.UpperAfterFirstDigitFacts | packages/rosmsg-msgs-common/src/index.ts:206-207 | only the letter after the first digit followed by a lower-case letter is upper-cased |
| MsgsCommon.ExportedTypeName | packages/rosmsg-msgs-common/src/index.ts:203-209 | an error exactly on an empty name; otherwise the first character is upper-cased, the rest has its first letter after a digit upper-cased, and the suffix is appended |
| MsgsCommon.ExportedRos1 | packages/rosmsg-msgs-common/src/index.ts:203-209 | ros1 becomes Ros1MsgCommonDefinitions |
| MsgsCommon.ExportedRos2Humble | packages/rosmsg-msgs-common/src/index.ts:203-209 | ros2humble becomes Ros2HumbleMsgCommonDefinitions |
| MsgsCommon.ExportedOnlyFirstMatch | packages/rosmsg-msgs-common/src/index.ts:207 | a1b2c becomes A1B2c, because the pattern is not global |
| MsgsCommon.NameSchema | packages/rosmsg-msgs-common/src/index.ts:85 | an error exactly on an empty schema; otherwise only the first entry is renamed |
| MsgsCommon.RecordFacts | packages/rosmsg-msgs-common/src/index.ts:86-91 | an error exactly when some entry is unnamed; otherwise every entry is recorded and earlier definitions stay |
| MsgsCommon.StoreSchemaFacts | packages/rosmsg-msgs-common/src/index.ts:84-91 | renaming then recording fails exactly on an empty schema or an unnamed later entry, and records the type name |
| MsgsCommon.RecordFirstKept | packages/rosmsg-msgs-common/src/index.ts:86-91 | the renamed first entry is recorded under its name when no later entry reuses it |
| MsgsCommon.LoadDefinitions | packages/rosmsg-msgs-common/src/index.ts:74-93 | the file loop agrees with the specification function |
| MsgsCommon.StoreEntries | packages/rosmsg-msgs-common/src/index.ts:84-91 | storing one file agrees with the specification function |
| MsgsCommon.RecordEntries | packages/rosmsg-msgs-common/src/index.ts:86-91 | the recording loop agrees with the specification function |
| MessageWriter.Lookup | packages/rosmsg-serialization/src/MessageWriter.ts:259 | a missing property reads as undefined, and a present one reads as the value of its first occurrence |
| MessageWriter.Property | packages/rosmsg-serialization/src/MessageWriter.ts:259 | property access fails exactly on undefined and yields a smaller value |
| MessageWriter.Element | packages/rosmsg-serialization/src/MessageWriter.ts:280 | element access yields the element, or undefined past the end |
| MessageWriter.ArrayLength | packages/rosmsg-serialization/src/MessageWriter.ts:267 | length is the array's element count |
| MessageWriter.FixedWidth | packages/rosmsg-serialization/src/MessageWriter.ts:57-107 | every fixed-width primitive takes 1, 2, 4 or 8 bytes |
| MessageWriter.EncodeNumberWidth | packages/rosmsg-serialization/src/MessageWriter.ts:148-190 | a number is encoded in its type's width, a bool in one byte |
| MessageWriter.Overlay | packages/rosmsg-serialization/src/MessageWriter.ts:133 | a store puts the bytes at the offset and keeps every other byte |
| MessageWriter.OverlayTwice | packages/rosmsg-serialization/src/MessageWriter.ts:27-30 | two adjacent stores are one store of both |
| MessageWriter.OffsetCalculator.constructor | packages/rosmsg-serialization/src/MessageWriter.ts:33 | the cursor starts at 0 |
| MessageWriter.OffsetCalculator.IncrementAndReturn | packages/rosmsg-serialization/src/MessageWriter.ts:36-40 | returns the old offset and advances by the byte count |
| MessageWriter.OffsetCalculator.String | packages/rosmsg-serialization/src/MessageWriter.ts:48-55 | fails exactly on a non-string; otherwise advances by 4 plus the UTF-8 length |
| MessageWriter.OffsetCalculator.Primitive | packages/rosmsg-serialization/src/MessageWriter.ts:57-107 | advances by the call's width and returns the old offset |
| MessageWriter.OffsetCalculator.Run | packages/rosmsg-serialization/src/MessageWriter.ts:313-317 | the final offset is the start plus the total width |
| MessageWriter.TotalWidthPrefix | packages/rosmsg-serialization/src/MessageWriter.ts:313-317 | offsets never decrease along the calls |
| MessageWriter.EncodeCallsPrefix | packages/rosmsg-serialization/src/MessageWriter.ts:308-312 | the bytes written never shrink along the calls |
| MessageWriter.StandardTypeWriter.constructor | packages/rosmsg-serialization/src/MessageWriter.ts:119-123 | the writer views the given buffer window with a fresh calculator at 0 |
| MessageWriter.StandardTypeWriter.Store | packages/rosmsg-serialization/src/MessageWriter.ts:152-190 | stores inside the view at the view's offset, or fails and keeps the buffer |
| MessageWriter.StandardTypeWriter.String | packages/rosmsg-serialization/src/MessageWriter.ts:129-145 | a string that fits is written as its length word and its bytes at the view offset |
| MessageWriter.StandardTypeWriter.WriteString | packages/rosmsg-serialization/src/MessageWriter.ts:132-144 | fails exactly when the string does not fit, never touching bytes outside the view |
| MessageWriter.StandardTypeWriter.Time | packages/rosmsg-serialization/src/MessageWriter.ts:192-198 | a time is 8 bytes written at the cursor |
| MessageWriter.StandardTypeWriter.WriteTime | packages/rosmsg-serialization/src/MessageWriter.ts:27-30 | sec and nsec written little-endian, inside the view |
| MessageWriter.StandardTypeWriter.StoreWord | packages/rosmsg-serialization/src/MessageWriter.ts:28 | a 4-byte word stored inside the view |
| MessageWriter.StandardTypeWriter.Primitive | packages/rosmsg-serialization/src/MessageWriter.ts:147-198 | the call's encoding is written at the cursor, which advances by its length |
| MessageWriter.StandardTypeWriter.Number | packages/rosmsg-serialization/src/MessageWriter.ts:152-190 | a number's encoding is written at the cursor in its width |
| MessageWriter.StandardTypeWriter.Run | packages/rosmsg-serialization/src/MessageWriter.ts:308-312 | running the calls writes their whole encoding at the cursor |
| MessageWriter.CalculateByteSize | packages/rosmsg-serialization/src/MessageWriter.ts:362-364 | the calculator's result is the specified byte size |
| MessageWriter.WriteMessage | packages/rosmsg-serialization/src/MessageWriter.ts:337-340 | the encoding is written at the view's offset, bytes outside the view are kept, and it fails when the message does not fit |
| MessageWriter.WriteMessageAlloc | packages/rosmsg-serialization/src/MessageWriter.ts:367-369 | a fresh buffer holding exactly the encoding |
| MessageWriter.CallWidthAgreesWithEncoding | packages/rosmsg-serialization/src/MessageWriter.ts:42-198 | each call's width is the length of its encoding |
| MessageWriter.TotalWidthAgreesWithEncoding | packages/rosmsg-serialization/src/MessageWriter.ts:308-317 | the total width is the length of the whole encoding |
| MessageWriter.SizeAgreement | packages/rosmsg-serialization/src/MessageWriter.ts:361-369 | calculateByteSize equals the number of bytes writeMessage writes |
| MessageWriter.StringRoundTrip | packages/rosmsg-serialization/src/MessageWriter.ts:129-145 | a string encodes as its UTF-8 length word and bytes, which decode back |
| MessageWriter.SmallRoundTrip | packages/rosmsg-serialization/src/MessageWriter.ts:172-174 | an in-range word reads back exactly |
| MessageWriter.TimeRoundTrip | packages/rosmsg-serialization/src/MessageWriter.ts:27-30 | a time reads back as sec at offset 0 and nsec at offset 4 |
| MessageWriter.TimeFields | packages/rosmsg-serialization/src/MessageWriter.ts:27-30 | a time is sec then nsec, little-endian |
| MessageWriter.BoolByte | packages/rosmsg-serialization/src/MessageWriter.ts:148-150 | a bool is the byte 1 or 0 |
| MessageWriter.IntegerRoundTrip | packages/rosmsg-serialization/src/MessageWriter.ts:152-190 | an integer reads back modulo its width, in its width |
| MessageWriter.NonConstant | packages/rosmsg-serialization/src/MessageWriter.ts:253-256 | the kept fields are all non-constant |
| MessageWriter.ConstantsSkipped | packages/rosmsg-serialization/src/MessageWriter.ts:253-256 | constants contribute no calls, so no bytes |
| MessageWriter.PrimitiveElements | packages/rosmsg-serialization/src/MessageWriter.ts:272-282 | a primitive array emits one call per element |
| MessageWriter.DynamicArrayCount | packages/rosmsg-serialization/src/MessageWriter.ts:266-268 | a dynamic array emits its uint32 count first |
| MessageWriter.ElementsConcat | packages/rosmsg-serialization/src/MessageWriter.ts:272-282 | the element loop makes the element walks one after another, stopping at the first error |
| MessageWriter.FixedArrayNoCount | packages/rosmsg-serialization/src/MessageWriter.ts:264-282 | a fixed array, of primitive or complex elements, makes exactly its declared number of element walks in order and no count call; primitive elements make one call each |
| MessageWriter.AsciiEncoding | packages/rosmsg-serialization/src/MessageWriter.ts:134-137 | an ASCII string encodes one byte per character |
| MessageWriter.HelloExample | packages/rosmsg-serialization/src/MessageWriter.ts:248-317 | a message with one string field hello has size 9 and the bytes 5 0 0 0 h e l l o |
| MessageWriter.HelloCalls | packages/rosmsg-serialization/src/MessageWriter.ts:288 | that message walks to one string call |
| MessageWriter.HelloCall | packages/rosmsg-serialization/src/MessageWriter.ts:129-145 | that call encodes to those nine bytes |
| MessageWriter.Matches | packages/rosmsg-serialization/src/MessageWriter.ts:203-217 | the matches are exactly the types matching the name |
| MessageWriter.MatchIsNamed | packages/rosmsg-serialization/src/MessageWriter.ts:206-212 | a non-empty name only matches named types |
| MessageWriter.FindTypeByName | packages/rosmsg-serialization/src/MessageWriter.ts:201-224 | succeeds exactly when one type matches, returning it under its found name; otherwise the error names the search and the number of matches |
| MessageWriter.UnnamedTypes | packages/rosmsg-serialization/src/MessageWriter.ts:237 | exactly the unnamed types |
| MessageWriter.NamedTypes | packages/rosmsg-serialization/src/MessageWriter.ts:244-246 | exactly the named types |
| MessageWriter.RootType | packages/rosmsg-serialization/src/MessageWriter.ts:242 | the root is the unnamed type when one exists, and otherwise the first type |
| MessageWriter.FriendlyName | packages/rosmsg-serialization/src/MessageWriter.ts:226 | every slash becomes an underscore and every other character is kept |
| MessageWriter.FunctionTableDistinct | packages/rosmsg-serialization/src/MessageWriter.ts:297-306 | without friendly-name collisions each named type has its own function |
| MessageWriter.FunctionTableDomain | packages/rosmsg-serialization/src/MessageWriter.ts:297-306 | every named type has a function |
| MessageWriter.ResolveFields | packages/rosmsg-serialization/src/MessageWriter.ts:274-285 | succeeds exactly when every complex field resolves, and then covers every field |
| MessageWriter.ResolveBodies | packages/rosmsg-serialization/src/MessageWriter.ts:297-317 | succeeds exactly when every body resolves, covering all of them |
| MessageWriter.CreateWriterAndSizeCalculator | packages/rosmsg-serialization/src/MessageWriter.ts:232-346 | an error on no types or several unnamed ones; otherwise success exactly when all fields resolve, with the selected root and one function per named type |
| MessageWriter.CompiledTargetsDefined | packages/rosmsg-serialization/src/MessageWriter.ts:274-285 | every field target of a compiled codec has a function |

## Left out

- The XML-RPC server, HTTP, `start`'s listening socket and `close` are I/O. The host name and port are parameters of `Start`.
- RosMaster.RosMaster.RegisterPublisher: does not send the `publisherUpdate` notifications to subscribers, because they are fire-and-forget network calls.
- RosMaster.RosMaster.SetParam: does not send the `paramUpdate` notifications to subscribed nodes, for the same reason.
- The logger calls in `RosMaster` have no effect on state and are left out.
- `isPlainObject` is replaced by the struct variant of the XML-RPC value type.
- The `eval` code generation is modelled as the call sequence the generated code makes, not as JavaScript text.
- IEEE 754 encoding of `float32`/`float64`: a float value carries its bit pattern, and only its width is checked.
- The `BigInt` conversion of `int64`/`uint64` is modelled for integers, booleans and undefined (which throws); other values fail in the model.
- Non-integer numbers reaching integer fields are not modelled (they fail in the model).
- MessageWriter.EncodeNumber: three JavaScript conversions fail in the model instead. First, `DataView.set*` applies ToNumber to strings, arrays and objects (`"12"` stores 12, `[7]` stores 7, `{}` stores NaN and so 0). Second, an integer number written to a `float32` or `float64` field is stored as that float. Third, `value ? 1 : 0` on a float stored in a `bool` field takes the float's truthiness. The model has no IEEE 754 arithmetic to compute these, so NumberArg, BigIntArg and Truthy return an error for these values.
- The `json` writer and calculator methods (`JSON.stringify`) are left out.
- MessageWriter.Element: only arrays are indexed. On a string JavaScript yields the one-character string at the index, or undefined past the end; on a number, boolean or object it yields undefined. The model returns an error for all of these, because the size measure that bounds the walk does not shrink from a string to one of its characters.
- MessageWriter.ArrayLength: only an array's `length` is modelled. A string's `length` is its number of UTF-16 code units, and any other value's `length` is undefined, which makes the element loop run zero times. The model returns an error for these values.
- MessageWriter.StandardTypeWriter.String: on failure, does not state which bytes a partial write changed.
- MessageWriter.StandardTypeWriter.WriteString: on failure, does not state which bytes a partial write changed.
- `TextEncoder` and its reuse are replaced by UTF-8 functions over code points.
- Sorting compares characters by code point. JavaScript compares UTF-16 code units, which differ only above U+FFFF.
- The `heap` library is modelled as a sequence of pushed items; pop order is not modelled beyond that.
- BagReverse.HeapOrder: chunks with equal end times are listed in insertion order. The `heap` library's binary heap may pop such chunks in another order, so only the order by non-increasing end time, and the permutation, match the source.
- BagReverse.ReverseIterator.constructor: for chunks with equal end times the slot order follows `HeapOrder`'s insertion order, not the `heap` library's; that order decides which chunk `loadNext` takes first and so its `start`.
- `BaseIterator` is not part of this model.
- `readChunk` is I/O, so `LoadNext` takes it as a parameter that maps a chunk to its read result.
- The `chunksToLoad.length === 0` branch of `loadNext` cannot happen, because the first chunk is always selected, so it is left out.
- Timestamps are integer nanoseconds rather than rostime `{sec, nsec}` records.
- Paths use `/` as the separator.
- `readdir`, `readFile`, `writeFile` and `getMsgFiles` are I/O; the message files arrive as a table from package and file name to text.
- `path.resolve` is left out.
- GenDeps.GenerateMsgDeps: requires that every dependency lies in a given finite universe of type names, which bounds the worklist's termination. The source loops on whatever the files name.
- GenDeps.DrainQueue: requires the same universe bound.
- `main`, `stringifyDefinitions`, `generateCjsLibrary`, `generateEsmLibrary`, `generateDefinitions` and prettier formatting are text generation and I/O.
- The nearley grammar and `buildRos2Type` are parameters of the parser: a function from a line to a field, or from text to types.
- `isMsgDefEqual` is a parameter, the equality `eq` used for dedup.
- Parse.FirstOccurrenceIndices: requires `eq` to be transitive, as the structural comparison `isMsgDefEqual` is. For an arbitrary `eq`, the model states which types are kept only step by step: FirstOccurrencesGrow and the dedup function itself.
- `toUpperCase` is modelled for ASCII letters only.
- Error message texts are modelled only where the source builds them.
- MsgsCommon.LoadDefinitions: the `definitions` record is modelled as a map value passed through the loop, not as an object mutated in place.
- `LazyMessageReader` is not part of this model. Round trips are stated against decoding functions defined here.
- `async`/`await` and promises are left out. Each handler and step is one sequential transition.
- JavaScript `null` is not a value of the message or XML-RPC value types. In the source a `null` field value is stored as a zero byte by the numeric setters, throws a TypeError on property access, and throws in the string writer.
- Bag2Messages.MessageIterator: the sources are held as a sequence value owned by the iterator. The source shifts the caller's own array in place, so a caller holding that array sees it shrink; the model does not capture that aliasing.
- MessageWriter.FriendlyName: a type name whose friendly name is empty or not a JavaScript identifier makes the generated code a syntax error at `eval` time. The model accepts every name.

## Findings

| source | as written | input that shows it | evidently intended | confidence | as-written member | corrected member |
|---|---|---|---|---|---|---|
| packages/rosmsg-msgs-common/scripts/gendeps.ts:32-34 | the root's own dependencies are queued but not added to `seenTypes`, so a dependency they share with another dependency is queued again | root p/Root uses p/A and p/B, and p/A uses p/B; the blocks come out as p/A, p/B, p/B | each dependency is emitted once | not executed | GenDeps.RepeatedDependencyAsWritten | GenDeps.FlattenOnce |
| packages/rosmsg-msgs-common/scripts/gendeps.ts:100-101 | `complexTypes.includes(definition.type)` compares the raw field type with qualified names, so it never matches a relative type | two fields of relative type Foo in package pkg; the list comes out as pkg/Foo, pkg/Foo | each qualified type is collected once | not executed | GenDeps.DuplicateDependencyAsWritten | GenDeps.CollectFieldsFacts |

The script's methods (`LoadType`, `CollectComplexTypes`, `AddFieldTypes`,
`GenerateMsgDeps`) follow the code as written: the raw-type duplicate check
and the root's dependencies queued unchecked. The corrected definitions sit
beside them: `CollectFields` under the qualified check, and `Flatten`.
