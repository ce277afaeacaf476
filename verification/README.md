# Verana: wire codecs, corporation registry and credential-schema genesis

A Dafny model of the parts of the Verana chain where a mistake would corrupt
identity: the Protocol Buffers codecs of `x/co`, the registry of corporations
with its two reverse indexes and its id counter, genesis import and export of
`x/co` and `x/cs`, the resolvers every delegable message relies on, and a few
pure pieces with a theorem of their own. `dafny verify dfyconfig.toml` checks
the whole project.

## How the pieces fit

- **Codecs** (`Basics`, `Varint`, `Skip`, `Groups`, `Codec`, `CodecLaws`,
  `Buffers`, `Messages`). The generated code of every `x/co` message is one template
  applied to a list of fields. `Codec.Schema` is that list; `Codec.Encode` and
  `Codec.Decode` are the template as functions; `Buffers` is the template as the
  generated code runs it: `Size`, a marshaller that fills an exactly sized
  `array` from its end, and `Struct.Unmarshal`, which moves an index over the
  input and assigns fields of an object one at a time. `Messages` instantiates
  the template and gives each message's bytes key by key, independently of the
  template. `Skip.Field` is an independent grammar of wire fields with nested
  groups, against which the depth-counter loop and the whole decoder are proved
  sound and complete.
- **Registry** (`Registry`, `Outcomes`, `Keeper`, `Order`, `Genesis`, `Chain`). `Registry`
  is a state machine: table, index by policy address, index by DID, counter;
  transactions carry the answers of the modules they call. `Keeper` holds the
  same collections as fields that methods reassign in the order the Go code
  writes them, with an explicit rollback. `Outcomes` tells what each transaction
  does and when it is refused by table and message alone. `Genesis` relates Validate, Init and
  Export; `Chain` joins registry and codec, from a valid genesis through any run
  to bytes and back.
- **Readers** (`Resolvers`, `Sorting`, `ListQuery`): four resolvers against a
  linear search, schema ownership, and the newest-first list.
- **Others** (`SchemaGenesis`, `SchemaRuns`, `Languages`, `Durations`): the `x/cs`
  genesis cycle, alone and after any run of schema messages, the DID, digest and language-tag checks as languages, and the amino
  duration conversion of the TypeScript client.

Go's `int` is 64 bits wide and wraps (`Basics.Wrap64`); `uint64` additions wrap;
`int32(wire >> 3)` truncates (`Basics.ToInt32`); `uint32(len)` truncates.

## Where the code and what it promises differ

- The wire format wants field numbers between 1 and 2^29 - 1 and an end-group
  tag that repeats its start tag's number (`Groups.Conforming`). `skip` checks
  neither and `Unmarshal` only that a number is positive
  (`Groups.NumbersAreNotChecked`, `CodecLaws.RuleBreakersPass`);
  `Groups.SkipMeetsNumberRules` says for which inputs the rules are met, by a
  scan a caller can run.
- Field numbers are compared after truncation to 32 bits: fields whose numbers
  agree modulo 2^32 cannot be told apart (`CodecLaws.NumbersCollide`), as in
  `Messages.LargeNumberSetsId`.
- The corporation counter is incremented with wrap, but `x/gf` refuses to seed
  id 0, so the creation rolls back and the counter never wraps
  (`Registry.IdsNeverWrap`). At 2^64 - 1 every creation fails
  (`Registry.LastIdRefuses`); a genesis holding that id validates
  (`Genesis.FullGenesis`) and closes the registry for good
  (`Genesis.FullForGood`).
- `ListCorporations` compares `uint32(len)` with the limit; `ListQuery.KeptIsMin`
  says exactly when that truncates as intended, and 2^32 matches escape every
  limit (`ListQuery.LimitEscapes`, `ListQuery.LimitEscapesHappens`).
- The DID pattern is described as an optional fragment followed by an optional
  query; the character classes overlap, so the marks may come in any order and
  number (`Languages.SuffixLanguage`).
- `x/cs` exports its counter but imports the largest id instead. Over every run
  the two agree until the ids wrap, which nothing in `x/cs` refuses
  (`SchemaRuns.CycleRestores`, `SchemaRuns.WrapIsForgotten`).
- The uniqueness gate of a DID rotation is described as "bound to a different
  corporation" but asks only whether the DID is bound; the two agree in every
  reachable state because the no-op case comes first (`Outcomes.UpdateOutcome`).

## Model

| member | source | states |
|---|---|---|
| Varint.SovIsLength | x/co/types/types.pb.go:505-507 | for every uint64 the closed size formula is the number of bytes of its varint, from 1 to 10 |
| Varint.VarintRoundTrip | x/co/types/types.pb.go:426-436 | reading an encoded varint gives the value back and stops at its end, whatever bytes follow |
| Varint.EncodeVarintAt | x/co/types/types.pb.go:426-436 | the encode loop writes exactly the varint's bytes into the slots before `offset`, returns their start, and changes no other byte |
| Varint.Accumulate | x/co/types/types.pb.go:546-556 | one shift-and-or of the decode loop, in any width, keeps the accumulator equal to the digits read so far modulo that width |
| Varint.ReadVarintAt | x/co/types/types.pb.go:546-556 | the shift-and-or loop reads the varint at the index, at most ten bytes and inside the slice, or fails; a narrower accumulator holds the low bits |
| Varint.ReadUint32At | x/co/types/types.pb.go:721-739 | the uint32 loop ends where the 64-bit one does and holds its value modulo 2^32 |
| Varint.ReadVarintPrefix | x/co/types/types.pb.go:516-530 | a varint that ends inside the input is read the same when more bytes follow |
| Varint.ReadIsExact | x/co/types/types.pb.go:516-530 | a varint is read exactly when one of the first ten bytes has its top bit clear, and it ends at the first such byte |
| Varint.Example150 | x/co/types/types.pb.go:426-436 | the number 150 is the bytes 96 01 |
| Skip.SkipField | x/co/types/types.pb.go:1045-1122 | at any group depth, the loop that arrives at a well-formed field leaves it at its last byte with the depth unchanged |
| Skip.SkipIsExact | x/co/types/types.pb.go:1045-1122 | skip stops inside the input exactly when it starts with a well-formed field of any kind, groups nested to any depth, and then returns that field's length |
| Skip.SkipPrefix | x/co/types/types.pb.go:1045-1122 | bytes after the skipped field have no influence |
| Skip.FieldLengths | x/co/types/tx.pb.go:2128-2174 | a fixed64 field reaches 8 bytes past its tag, a fixed32 field 4, a length-delimited one its length |
| Skip.EmptyGroup | x/co/types/tx.pb.go:2128-2184 | a start tag and its end tag are one field of two bytes |
| Skip.RefusedTags | x/co/types/tx.pb.go:2128-2174 | an end tag outside any group and wire types 6 and 7 are errors |
| Groups.FieldUnique | x/co/types/types.pb.go:1045-1122 | the grammar is unambiguous: bytes that start with two well-formed fields start with the same one |
| Groups.FieldsUnique | x/co/types/types.pb.go:511-760 | a message is the bytes of at most one list of well-formed fields |
| Groups.StrictField | x/co/types/types.pb.go:1045-1122 | the loop with a check on each number and a stack of numbers in place of the depth counter passes a well-formed field if and only if every number in it lies between 1 and 2^29 - 1 and every end tag repeats its start tag's number |
| Groups.SkipMeetsNumberRules | x/co/types/types.pb.go:1045-1122 | where skip accepts a field, the field keeps the format's rules on numbers if and only if the stack scan gives the same answer, and the stack scan accepts exactly the fields that keep them |
| Groups.MessageMeetsNumberRules | x/co/types/types.pb.go:740-753 | repeating the stack scan over a whole message decides whether all its fields keep the rules on numbers |
| Groups.NumbersAreNotChecked | x/co/types/types.pb.go:1045-1122 | three concrete fields, a group closed by another group's end tag, a group holding number 0 and a field of number 2^29: skip takes each for one field, the stack scan refuses it, and no field that keeps the rules starts there |
| CodecLaws.RuleBreakersPass | x/co/types/types.pb.go:740-753 | Unmarshal lets each of the three pass at any field boundary, without trace |
| Skip.SkipAt | x/co/types/tx.pb.go:2108-2185 | on any bytes, with wrapping index arithmetic, the loop terminates, stays in bounds, computes the specification, and never reports a count that is not positive |
| Skip.TokenAt | x/co/types/tx.pb.go:2112-2174 | one turn of that loop: the wire type and the index past the payload, negative exactly when the sum passes 2^63 - 1 |
| CodecLaws.DecodeConcat | x/co/types/genesis.pb.go:187-303 | decoding a concatenation is decoding the second part into the result of the first |
| CodecLaws.MergeTheorem | x/co/types/genesis.pb.go:187-303 | unmarshalling an encoded message into one already filled gives their merge: non-zero scalars win, lists append, embedded messages merge; of the time and `Any` codecs only what the schema uses is assumed |
| CodecLaws.AnyIsLawful | x/co/types/tx.pb.go:1626-1661 | an `Any` codec built from the same template satisfies what is assumed of it, for every value whose encoding fits a slice |
| CodecLaws.LawsHaveAModel | x/co/types/types.pb.go:623-655 | the laws assumed of the time and `Any` codecs can be met together |
| CodecLaws.MergeIntoZero | x/co/types/genesis.pb.go:187-303 | merging into the zero message loses and adds nothing |
| CodecLaws.EmbeddedFieldsMerge | x/co/types/genesis.pb.go:216-248 | two occurrences of an embedded message decode, or fail, as one occurrence whose body is their bodies joined |
| CodecLaws.RoundTrip | x/co/types/tx.pb.go:1467-1810 | for every message shape, unmarshal after marshal into the zero message is the identity although zero fields are not written; of the time and `Any` codecs only what the shape uses is assumed |
| CodecLaws.TagSelects | x/co/types/types.pb.go:531-538 | at the decoder: the arm of field n is taken for exactly the tags whose number is n modulo 2^32 and that do not end a group; any other tag, if accepted at all, leaves the message as it was |
| CodecLaws.NumbersCollide | x/co/types/types.pb.go:531-538 | a field may be replaced, anywhere in a message, by one with the same body and a number congruent modulo 2^32, without changing what is decoded |
| Messages.LargeNumberSetsId | x/co/types/types.pb.go:531-556 | a concrete six-byte tag with number 2^32 + 1 sets the id of a Corporation |
| CodecLaws.StepOfField | x/co/types/types.pb.go:511-760 | a turn of the decode loop at a well-formed field consumes it exactly and has that field's effect or fails with it |
| CodecLaws.DecodeIsFold | x/co/types/types.pb.go:511-760 | on any list of well-formed fields the byte loop is the left fold of the fields' effects |
| CodecLaws.DecodeParses | x/co/types/types.pb.go:511-760 | the decoder succeeds only on inputs that are a whole list of well-formed fields |
| CodecLaws.DecodeIsExact | x/co/types/types.pb.go:511-760 | for any bytes: the decoder returns a message if and only if the bytes are a list of well-formed fields whose fold is that message, and there is at most one such list |
| CodecLaws.NumberFieldMeans | x/co/types/query.pb.go:1041-1080 | a uint64 field takes the varint as it is, a uint32 field its value modulo 2^32, a flag whether it is not zero, replacing what was there; another wire type fails |
| CodecLaws.BodyFieldMeans | x/co/types/tx.pb.go:1496-1661 | a string field takes the body as it is, a time field what the body reads as, an `Any` field the body decoded on top of what was there; another wire type fails |
| CodecLaws.MessageFieldMeans | x/co/types/genesis.pb.go:216-282 | a repeated message field grows at its end by the body decoded from scratch, an embedded one has the body decoded on top of it; another wire type fails |
| CodecLaws.OrderDoesNotMatter | x/co/types/types.pb.go:531-753 | two messages whose fields agree number by number, in order within each number, decode alike however the numbers are interleaved |
| CodecLaws.UnknownFieldTransparent | x/co/types/types.pb.go:740-753 | a well-formed field outside the schema, inserted at any field boundary, changes nothing if its 32-bit number is positive and makes decoding fail otherwise |
| Buffers.Size | x/co/types/tx.pb.go:1057-1102 | Size is the number of bytes Marshal writes, through nested lists of any length |
| Buffers.MarshalToSizedBuffer | x/co/types/tx.pb.go:816-897 | the right-to-left marshaller fills exactly the last Size bytes of the buffer with the encoding, leaves all others alone, and fails exactly when some time has no encoding |
| Buffers.MarshalSubs | x/co/types/tx.pb.go:875-889 | the reverse loop over a repeated field writes every element behind its key and length in list order |
| Buffers.MarshalOneSub | x/co/types/tx.pb.go:877-888 | an element's body is written first, its length and key in front of it |
| Buffers.EncodeFromLength | x/co/types/tx.pb.go:816-897 | the fields still to be written always fit in what Size reserved |
| Buffers.Marshal | x/co/types/types.pb.go:272-285 | Marshal returns a fresh array holding the encoding and nothing else |
| Buffers.ExtentAt | x/co/types/types.pb.go:559-590 | the wrapping length checks accept exactly the bodies that lie inside the input |
| Buffers.Struct.Unmarshal | x/co/types/types.pb.go:511-760 | on any bytes the in-place decoder terminates in bounds, succeeds exactly when the specification does, and leaves the struct equal to its result |
| Buffers.Struct.Turn | x/co/types/types.pb.go:516-753 | one turn of the loop, tag checks and unknown fields included, updates the struct and the index as the specification step does |
| Buffers.Struct.SetField | x/co/types/tx.pb.go:1496-1789 | a known field changes only its own slot of the struct, after its wire type is checked |
| Buffers.Struct.SetBody | x/co/types/tx.pb.go:1528-1661 | strings are replaced, list elements appended, `Any` and embedded messages decoded on top of what was there |
| Buffers.Struct.SetNumber | x/co/types/query.pb.go:1061-1080 | a numeric field holds the reading narrowed to its width, a flag whether it was non-zero |
| Messages.CreateRoundTrip | x/co/types/tx.pb.go:1467-1810 | MsgCreateCorporation with any members comes back from its bytes unchanged, if `Any` values do |
| Messages.CreateRoundTripOutright | x/co/types/tx.pb.go:1467-1810 | with the generated `Any` codec the same holds with no assumption |
| Messages.CreateLayout | x/co/types/tx.pb.go:816-897 | the bytes of MsgCreateCorporation, key by key, with members as whole messages |
| Messages.MemberLayout | x/co/types/tx.pb.go:709-736 | the bytes of a Member, key by key |
| Messages.RepeatedField | x/co/types/tx.pb.go:875-889 | a repeated field is each element's bytes behind the key and its length, in order |
| Messages.ResponseRoundTrip | x/co/types/tx.pb.go:1811-1911 | MsgCreateCorporationResponse comes back from its bytes unchanged, with no assumption |
| Messages.ResponseLayout | x/co/types/tx.pb.go:914-932 | the bytes of MsgCreateCorporationResponse, key by key |
| Messages.UpdateRoundTrip | x/co/types/tx.pb.go:1912-2057 | MsgUpdateCorporation comes back from its bytes unchanged, with no assumption |
| Messages.UpdateLayout | x/co/types/tx.pb.go:949-976 | the bytes of MsgUpdateCorporation, key by key |
| Messages.CorporationRoundTrip | x/co/types/types.pb.go:511-760 | a Corporation whose times have encodings comes back from its bytes unchanged |
| Messages.CorporationLayout | x/co/types/types.pb.go:287-340 | the bytes of a Corporation, key by key; both times are always written |
| Messages.CorporationEncodable | x/co/types/types.pb.go:304-319 | marshalling a Corporation fails exactly when one of its two times has no encoding |
| Messages.GetRoundTrip | x/co/types/query.pb.go:1013-1133 | QueryGetCorporationRequest comes back from its bytes unchanged, with no assumption |
| Messages.GetLayout | x/co/types/query.pb.go:620-648 | the bytes of QueryGetCorporationRequest; a flag is a key and a single 1 or nothing |
| Messages.ListRoundTrip | x/co/types/query.pb.go:1217-1373 | QueryListCorporationsRequest comes back unchanged, an absent time staying absent |
| Messages.ListLayout | x/co/types/query.pb.go:698-736 | the bytes of QueryListCorporationsRequest, key by key |
| Messages.GenesisRoundTrip | x/co/types/genesis.pb.go:187-303 | a genesis with any number of corporations comes back from its bytes unchanged |
| Messages.GenesisLayout | x/co/types/genesis.pb.go:121-151 | the bytes of a genesis: the parameters always, as an empty body, then every corporation in order |
| Messages.GenesisEncodable | x/co/types/genesis.pb.go:126-141 | marshalling a genesis fails exactly when some corporation has a time without an encoding |
| Registry.CreateKeeps | x/co/keeper/msg_create_corporation.go:72-94 | past the uniqueness gates, the three-table write keeps the invariant if and only if the counter is below 2^64 - 1 |
| Registry.RotateKeeps | x/co/keeper/msg_update_corporation.go:57-67 | the index swap keeps both indexes exact inverses of the table |
| Registry.SetActiveKeeps | x/co/keeper/cross_module.go:79-87 | a version switch keeps the invariant |
| Registry.DeliverKeeps | x/co/keeper/msg_create_corporation.go:36-98 | any transaction, failed or not, keeps the invariant |
| Registry.CounterMoves | x/gf/keeper/cross_module.go:31-33 | a creation succeeds only below the last id and moves the counter by exactly one; any other transaction leaves it |
| Registry.IdsNeverWrap | x/co/keeper/keeper.go:77-87 | over every run, from any state, the counter grows by the number of creations and stays below 2^64 |
| Registry.RunKeeps | x/co/keeper/msg_create_corporation.go:36-98 | over every run the indexes stay exact, rows stay under their ids and the counter is the largest id and grows by one per creation |
| Registry.LastIdRefuses | x/gf/keeper/cross_module.go:31-33 | at counter 2^64 - 1 every creation fails and changes nothing |
| Outcomes.LastIdFailsToSeed | x/gf/keeper/cross_module.go:31-33 | a creation that passes every other gate there fails at the seed, whatever else the seeding would decide |
| Registry.RunGrows | x/co/keeper/msg_create_corporation.go:86-88 | no run removes a row or moves one away from its id, sound state or not |
| Genesis.FullForGood | x/co/keeper/msg_create_corporation.go:96-98 | from a valid genesis with id 2^64 - 1 no run ever adds a corporation |
| Genesis.FullGenesis | x/co/types/genesis.go:26-31 | such a genesis validates |
| Registry.IdentityStable | x/co/keeper/msg_update_corporation.go:63-67 | over every run ids are consecutive and never reused, an existing row keeps id, policy address, creation time and language, and no row appears but the created ones |
| Registry.DeliverIdentity | x/co/keeper/msg_create_corporation.go:72-94 | a transaction removes no row and adds at most the one under the next, unused id |
| Outcomes.CreateOutcome | x/co/keeper/msg_create_corporation.go:30-98 | a creation succeeds if and only if the message is well formed, no row has its DID, the group module, asked with the signer as admin, the members in order, both metadata, the policy as its own admin and the decision policy, returns an address no row has, the counter is below 2^64 - 1 and the seed of the next id with the message's language, URL and digest succeeds; each refusal names the first of these that fails |
| Outcomes.CreateIsInvalid | x/co/types/msgs.go:36-85 | the stateless gates accept exactly the well-formed messages, and otherwise give the error of the first gate failed, in the code's order |
| Outcomes.FirstBadMember | x/co/types/msgs.go:46-56 | the first bad member gives the error: an address that does not parse, or a missing address or weight |
| Outcomes.CreationMeans | x/co/keeper/msg_create_corporation.go:52-94 | the new address, which is the group module's answer to that request, and the new DID both find the one new corporation, with an unused id, version 1 and both times now; every other address and DID finds what it found before |
| Outcomes.MembersChecked | x/co/types/msgs.go:46-56 | the member loop passes exactly when every member has a valid address and a weight |
| Outcomes.UpdateOutcome | x/co/keeper/msg_update_corporation.go:18-54 | a rotation succeeds if and only if the message is well formed, some row has the address, the operator holds a grant from it, and no other row has the DID; each refusal names the first of these that fails, NotAuthorized exactly when only the grant is missing so far, and the inconsistency error never occurs |
| Outcomes.UpdateIsInvalid | x/co/types/msgs.go:88-108 | the stateless gates of a rotation and the error of the first one failed |
| Outcomes.RotationMeans | x/co/keeper/msg_update_corporation.go:44-67 | a rotation changes one row in DID and modification time, frees the old DID, binds the new one and leaves every other entry; the no-op changes nothing |
| Outcomes.RotateBack | x/co/keeper/msg_update_corporation.go:57-67 | rotating back restores the whole state but the modification time |
| Outcomes.SetActiveMeans | x/co/keeper/cross_module.go:79-87 | delivered on an existing row, a version switch succeeds, and by whatever address or DID a corporation is found it shows on that one only; on a missing row it fails and changes nothing |
| Outcomes.GatesAreExact | x/co/keeper/msg_create_corporation.go:37-70 | in a sound state an index lookup answers whether some row has the DID or address, and DIDs are unique |
| Keeper.CorporationKeeper.GetNextID | x/co/keeper/keeper.go:77-87 | the named counter is incremented with 64-bit wrap, missing counters count from zero, other counters stay |
| Keeper.CorporationKeeper.CreateCorporation | x/co/keeper/msg_create_corporation.go:30-111 | the gates and writes in the code's order reach the state, id, address or error of the state machine |
| Keeper.CorporationKeeper.UpdateCorporation | x/co/keeper/msg_update_corporation.go:18-77 | the resolve, authorisation, no-op, gate and swap sequence reaches the state or error of the state machine |
| Keeper.CorporationKeeper.SetActiveVersion | x/co/keeper/cross_module.go:79-87 | the row update reaches the state of the state machine, or fails and changes nothing |
| Keeper.CorporationKeeper.Deliver | x/co/keeper/msg_create_corporation.go:16-16 | a transaction takes effect as a whole or, on any error, leaves all four collections as they were |
| Keeper.CorporationKeeper.InitGenesis | x/co/keeper/genesis.go:9-29 | the import loop builds the three maps and the counter as specified, on any starting store |
| Keeper.CorporationKeeper.ExportGenesis | x/co/keeper/genesis.go:31-38 | the walk exports every row once, in ascending id order |
| Genesis.Validate | x/co/types/genesis.go:19-66 | no error exactly when ids, addresses and DIDs are pairwise distinct and every row is well formed; otherwise the error of the first row at fault |
| Genesis.FirstFaultMeans | x/co/types/genesis.go:26-63 | the error reported for the first row at fault, gate by gate, told by that row and the rows before it |
| Genesis.ValidGenesisMeans | x/co/types/genesis.go:23-65 | the accepted genesis, condition by condition: id, address, DID, language and times of every row, and what differs between any two |
| Genesis.ValidateIsExact | x/co/keeper/genesis.go:13-28 | a genesis is accepted if and only if importing it loses no row and ends in a sound state with well-formed rows |
| Genesis.InitIsSound | x/co/keeper/genesis.go:13-28 | importing an accepted genesis establishes the invariant and holds exactly its rows |
| Genesis.OrderFree | x/co/types/genesis.go:23-65 | permuting the rows changes neither the verdict nor the imported state |
| Genesis.ExportHolds | x/co/keeper/genesis.go:31-38 | an export lists exactly the rows and index entries of a sound state, in increasing id order |
| Genesis.ExportValidIff | x/co/types/genesis.go:23-65 | the export of a state satisfying the invariant validates if and only if its rows are well formed |
| Genesis.ExportImport | x/co/keeper/genesis.go:9-38 | a sound state exports to a genesis that validates and imports to the very same state |
| Genesis.DeliverRow | x/co/keeper/msg_update_corporation.go:63-67 | every row after a transaction is an old row, an old row with DID, version and modification time changed, or the created one |
| Genesis.RunSound | x/co/keeper/msg_create_corporation.go:76-85 | under non-decreasing block times every reachable row is well formed and not modified after the last block |
| Genesis.GenesisClosure | x/co/keeper/genesis.go:9-38 | from any valid genesis through any run, the export validates and re-imports to the same table, indexes and counter |
| Genesis.OrderlyMeans | x/co/keeper/genesis.go:9-38 | the runs the closure speaks of: block times in order and not zero, and no empty address from the group module |
| Chain.UpgradeIsLossless | x/co/keeper/genesis.go:9-38 | the same through bytes, for genesis and block times that have encodings: the exported bytes parse, validate and import to the same registry |
| Chain.RunEncodable | x/co/keeper/msg_create_corporation.go:76-85 | over every run, every time in the state has an encoding when the starting times and the block times have one |
| Chain.ExportBytes | x/co/keeper/genesis.go:31-38 | export and marshal give the genesis bytes, and nothing exactly when a time has no encoding |
| Chain.ImportBytes | x/co/keeper/genesis.go:9-29 | unmarshal, validate and import succeed exactly on bytes that parse and validate, and build the specified state |
| Resolvers.IndexRefinesScan | x/co/keeper/authz_check5.go:20-27 | in a sound state the canonical, GF, DE and table-free CS resolvers and GetByID agree with a linear search of the table, field by field |
| Resolvers.OwnershipMeansControl | x/cs/keeper/ownership.go:18-53 | the ownership check passes if and only if the ecosystem exists and its owner is the unique corporation with the signer's address; it reports a missing ecosystem first, then an unregistered signer, then one that is not the controller |
| Resolvers.OwnershipIsStable | x/cs/keeper/ownership.go:18-53 | from any state, a signer who passes the ownership check still passes it after any run of registry transactions |
| ListQuery.ListCorporations | x/co/keeper/query_corporation.go:44-89 | limits above 1024 are refused and 0 means 64; otherwise the answer is the first rows of a newest-first arrangement of the matches, each with its own seven fields and the versions listed for its id, or a failure exactly when some listing fails |
| ListQuery.GetMeans | x/co/keeper/query_corporation.go:14-41 | the single query refuses a missing request, id 0, an unknown id and a failed listing, each with its own error, and otherwise answers with the row's fields and the versions listed for its id |
| ListQuery.NewestMeans | x/co/keeper/query_corporation.go:55-70 | every returned row was modified after the bound, the rows are distinct and newest first, no omitted row modified after the bound is newer than a returned one, and the matches counted are the table's rows modified after the bound |
| ListQuery.SortAndTruncate | x/co/keeper/query_corporation.go:66-69 | sorting in place and truncating leaves the newest rows, as many as the truncating comparison keeps |
| ListQuery.MatchingIsFilter | x/co/keeper/query_corporation.go:56-62 | the walk keeps exactly the rows modified strictly after the bound, without duplicates |
| ListQuery.KeptIsMin | x/co/keeper/query_corporation.go:67-69 | the number kept is the smaller of limit and matches if and only if the uint32 conversion does not wrap below the limit |
| ListQuery.LimitEscapes | x/co/keeper/query_corporation.go:67-69 | an answer is longer than the limit if and only if the matches pass the limit and their low 32 bits do not, and then it holds every match |
| ListQuery.LimitEscapesHappens | x/co/keeper/query_corporation.go:67-69 | a genesis of 2^32 corporations with names of 32 letters validates, and every list answered from its import has all of them |
| ListQuery.WideFits | x/co/types/genesis.pb.go:121-151 | that genesis marshals to fewer than 2^63 bytes, which unmarshal to it, when the encoding of its time has at most 64 bytes |
| ListQuery.ListAgreesWithGet | x/co/keeper/query_corporation.go:14-41 | every entry of a list answer is what the single query returns for that id and the same options |
| Sorting.Slice | x/cs/module/genesis.go:25-27 | the sort leaves an ordered permutation in place; ties in any order |
| Sorting.OrderedUnique | x/cs/module/genesis.go:69-71 | with distinct keys the sorted order is determined by the elements |
| SchemaGenesis.SchemaKeeper.InitGenesis | x/cs/module/genesis.go:14-51 | the caller's slice is sorted in place, the rows stored, and the counter set to the largest id |
| SchemaGenesis.SchemaKeeper.ExportGenesis | x/cs/module/genesis.go:54-92 | every stored schema once, sorted by id, with the counter or, if it is missing, the largest id |
| SchemaGenesis.SchemaKeeper.GetNextID | x/cs/keeper/keeper.go:130-143 | the named counter is incremented with 64-bit wrap |
| SchemaGenesis.CycleSorts | x/cs/module/genesis.go:14-92 | for distinct ids, export after import is the strictly id-sorted permutation of the input with the largest id as counter |
| SchemaGenesis.CycleIsIdempotent | x/cs/module/genesis.go:14-92 | one more import and export changes nothing |
| SchemaGenesis.NextIsFresh | x/cs/keeper/keeper.go:130-143 | the next id is above every imported one if and only if there is none or the largest is below 2^64 - 1 |
| SchemaGenesis.CounterSurvives | x/cs/module/genesis.go:40-43 | on a state, a cycle restores the exported counter if and only if its schema is stored (or it is 0) and no stored id is larger |
| SchemaGenesis.SchemaKeeper.CreateCredentialSchema | x/cs/keeper/msg_server.go:25-61 | id, checks and write in the code's order reach the state and id of the specification, or an error |
| SchemaGenesis.SchemaKeeper.RewriteCredentialSchema | x/cs/keeper/msg_server.go:63-141 | an update or archival rewrites the stored schema under its own id, or fails and changes nothing |
| SchemaGenesis.SchemaKeeper.DeliverMessage | x/cs/keeper/msg_server.go:25-61 | a message takes effect as a whole or not at all, the id included |
| SchemaRuns.RunFiles | x/cs/keeper/msg_server.go:25-141 | over every run schemas stay under their ids, none is removed, and the counter has moved by one for each creation, modulo 2^64 |
| SchemaRuns.CreationStores | x/cs/keeper/credential_schema.go:86-122 | an accepted creation stores its content under the next id and touches no other schema; a refused one changes nothing |
| SchemaRuns.RewriteStores | x/cs/keeper/msg_server.go:63-123 | an accepted update or archival stores its content under the schema's own id and touches nothing else; a refused one changes nothing |
| SchemaRuns.LastWriterWins | x/cs/keeper/msg_server.go:25-225 | after a run the content under an id is what the last accepted message for that id left |
| SchemaRuns.UntouchedStays | x/cs/keeper/msg_server.go:25-225 | a schema no accepted message names is as it was |
| SchemaRuns.MaxExactly | x/cs/keeper/keeper.go:130-143 | after a run the counter is the largest stored id if and only if the ids have not wrapped or have wrapped all the way round |
| SchemaRuns.CycleRestores | x/cs/module/genesis.go:14-92 | from any genesis with distinct ids and after any run, a genesis cycle restores parameters and schemas, and the counter if and only if the ids have not wrapped or have wrapped all the way round |
| SchemaRuns.WrapIsForgotten | x/cs/module/genesis.go:40-43 | a concrete loss: after a genesis with id 2^64 - 1 and one creation the counter is 0, and a cycle makes it 2^64 - 1 |
| Languages.DidLanguage | util/validation/validation.go:17-20 | the DID pattern accepts exactly `did:`, a method of lower-case letters and digits, `:`, an identifier of letters, digits and `%-./:_`, and a suffix that is empty or starts with `#` or `?` and has no white space, all in literal bytes |
| Languages.DidBytes | util/validation/validation.go:17-17 | for each byte, whether it may be a method, an identifier, or follow an identifier |
| Languages.MarkBytes | util/validation/validation.go:17-17 | after `#` or `?` every byte but white space may follow |
| Languages.DidExamples | util/validation/validation.go:17-20 | `did:web:a.b` and a DID with fragment and query are accepted, three malformed ones refused |
| Languages.SuffixLanguage | util/validation/validation.go:17-17 | the two optional suffix groups together accept any text without white space after either mark |
| Languages.DidOnePass | util/validation/validation.go:20-20 | one left-to-right pass without backtracking decides the pattern |
| Languages.SriLanguage | util/validation/validation.go:25-30 | a digest is one of three algorithm names, a dash, a non-empty base64 body and at most two padding signs |
| Languages.DigestBytes | util/validation/validation.go:25-25 | `sha256-` and one byte is a digest exactly for the 64 base64 bytes; `sha1-a` is none |
| Languages.TagOnePass | x/co/types/types.go:10-36 | splitting on dashes and checking the parts accepts what a single scan that never splits accepts |
| Languages.TagBytes | x/co/types/types.go:21-33 | a first part takes letters only, a later one letters and digits, and no part may be empty |
| Languages.TagLengths | x/co/types/types.go:14-20 | eight bytes make a part, nine do not; more than seventeen make no tag |
| Languages.EnglishUs | x/co/types/types.go:10-36 | `en-US` is accepted |
| Durations.CountSurvives | ts-proto/src/amino-converter/co.ts:33-43 | every nanosecond count of either sign survives conversion to a duration and back |
| Durations.DurationSurvives | ts-proto/src/amino-converter/co.ts:33-43 | a duration, missing parts counted as zero, survives the reverse trip if and only if its parts do not disagree in sign and the nanos are less than a second |
| Durations.CountMeans | ts-proto/src/amino-converter/co.ts:33-38 | the string is the count seconds times 1000000000 plus nanos, missing parts counted as zero |
| Durations.Examples | ts-proto/src/amino-converter/co.ts:33-43 | one second is "1000000000", "-1500000000" is minus one second and minus 500000000 nanos, nothing is zero, and a letter is refused |
| Durations.ReadShow | ts-proto/src/amino-converter/co.ts:37-42 | the decimal string of an integer reads back as that integer |

## Left out

- Time and `Any` encodings: parameters of the model (`Codec.External`), assumed only to read back, and only by messages that hold one (`Codec.Lawful`); for the generated `Any` codec that is proved (`CodecLaws.AnyIsLawful`), apart from the unknown fields an `Any` keeps, which are not modelled.
- Errors of the decoder: success or failure only; the half-written struct after a failed decode and the error texts are not described.
- Slices longer than 2^63 - 1 bytes: impossible in Go, excluded by the codec's length conditions; nil and empty slices are one value, strings are bytes.
- Bit operations are on naturals (`Varint.Or`, `Varint.Shl` with an explicit width), right shifts and masks written as division and remainder.
- CorporationWithGF, MsgUpdateParams, the parameter and module messages: the same codec on empty or unseen types; a schema per message would repeat `Codec`.
- The file descriptors, gRPC plumbing, gateway, getters and XXX methods of the generated files.
- x/group, x/gf, x/de and x/ec: functions carried by each transaction or query that may refuse; of their own code only the refusal of `x/gf` to seed id 0 is modelled (`Registry.Seeds`), their state and its rollback are not.
- Bech32 and URL parsing: opaque predicates (`Registry.Checks`).
- Cosmos collections, the store and the context: finite maps walked in ascending key order, with an explicit rollback; store errors other than a missing key are not modelled.
- Events, logs and error texts; errors are told apart by the gate that raised them.
- UpdateParams and the parameters of `x/co`: the parameters are empty.
- Governance framework versions and the content of a credential schema: carried along unread.
- The sorting algorithm: `Sorting.Slice` is an insertion sort standing for `sort.Slice`; callers use only its contract.
- The write-back of the default limit 64 into the caller's request object.
- SchemaAuthorizationPolicies with their counter, parameter updates, and the checks of the schema messages, which are functions carried by each message; DeleteCredentialSchema, which nothing calls.
- BigInt string forms other than the empty string and decimal digits with an optional minus sign, and nanos that are not integers.
- The other amino converters, the end-to-end journeys, the application wiring and the upgrade handlers.
