# Verified models of the schema compiler and the mock server

Two parts of the repository are modelled and proved here.

**The schema compiler** (`tools/schema_compiler.py`) turns ProtoDef schemas into bounded C.

- *Component validators.* A schema is a tree of primitives, aliases, mappers, containers, counted arrays, options,
  switches over fields read before, registry holders and nested items. `ComponentSchema` says what bytes a schema
  means, without any generated code: fields live in a scope, a count or a selector is the nearest field of its name,
  no more than 64 alias calls nest. `ComponentCode` is the C that the compiler emits (read, fail-if, if/else-if chain,
  bounded `for`, call with `depth + 1`) with a big-step semantics over a reader; `ComponentCompiler` follows the
  compiler branch by branch, with its counter for variable names and its compile-time environment.
  `ComponentCorrect` proves that the two agree for every schema, on all bytes, at every offset and depth;
  `ComponentLocality` that validators are prefix-free; `AliasClosure` that the alias walk finds exactly what is
  reachable, so that generated code calls only what is defined; `ComponentText` what C makes of the printed text;
  `ComponentValidators` puts these together for a whole document. `ComponentLimits` and `ComponentText` say exactly
  which schemas the generated code is wrong for, `ComponentSelectors` that the compiler's choice of which fields to
  keep changes no meaning, `ComponentWires` that a meaning depends on its readers only below the depth where it is read.
- *The runtime that the validators call*: `Runtime` (the readers of `api.c` in both decode modes), `Nbt` (the NBT
  parser) and `NestedItems` (the nested item parser, which calls the validators that call it). They keep the contract of
  `Wire`, so that no reader is left as a parameter.
- *Renames, corrections and sharing of validators*: `ValidatorDispatch` generates the validators of all protocols;
  `ComponentSharing` proves what the switches over protocols then read.
- *Packet codecs compiled from schemas*: `SchemaResolution` (alias chains), `PacketCodec` (declarations, encoders and
  decoders) and `PacketRuntime` (the writers and readers of `api.c` that they call).
- *Two families of rendered codecs*: `Minecart` (metadata lists in any order, three layouts) and `ChunkEnvelope` (ten
  layouts), over `Primitives` and `Readers`.
- *Embedding generated text*: `MarkedRegion` and `GeneratedText`.

**The mock server** (`benchmark/mock_server.c`): `VarInt`, `Framing` (frames over a stream that moves any number of
bytes at a time) and `StartGate` (every interleaving of N session threads and the starter on the start gate).

The general theorems about component validators ask of the readers only the contract of `Wire` (`WellTyped` for
correctness, `SelfDelimiting` for locality), those about chunks `ChunkEnvelope.SelfDelimiting`, those about packets what
`PacketCodec` names (`AllDecided`, `CanWriteWhatItReads`, `WritesWhatItRead`). The runtime's own readers and writers are
proved to meet each of these: `Runtime.RuntimeIsTyped`, `NestedItems.RunDelimits`, `ChunkEnvelope.RuntimeNbtDelimits`,
`PacketRuntime.PacketsComeBackExactly` and `PacketRuntime.DecodedComeBack`.

Nine facts that a reader of the source may not expect:

- A switch with a default and no cases is emitted as `else {` alone, which C attaches to the `if` before it, or refuses
  when there is none. Where that `if` leaves the function the text still means what the schema says; behind an option,
  a holder or another switch the default is lost or read at the wrong time. `ComponentText.ReadAsMeantExactly` and
  `ComponentValidators.DocumentIsReadAsMeantExactly` say exactly when C reads the text as it is meant;
  `ComponentValidators.DefaultIsLost` is a schema that compiles to legal C and loses its default. The condition is exact
  for the text: a misplaced default whose printed code reads nothing, such as a switch to a `void`, breaks it and does no
  harm to the bytes.
- A mapper whose table is empty accepts every value, and one that lists a name twice keeps only the last id; the
  generated code means what the schema says exactly when neither is so (`ComponentLimits.MapperIsExactlyWellNamed`).
- A string of more than 2^20 bytes can be written but not read: a packet comes back exactly when it has none
  (`PacketRuntime.PacketsComeBackExactly`, `PacketRuntime.LongTextIsLost`).
- A comment at `tools/schema_compiler.py:641-642` says that protocols share a validator only when the corrections
  applied to them are the same. The key holds only the names of the corrected components, so two different
  replacements of one component under the same source share one validator
  (`ValidatorDispatch.ConflictGoesUnnoticed`); `ValidatorDispatch.SharingIsSound` gives the exact condition. The model
  follows the code.
- Names are joined with plus signs in that key, so a component name with a plus sign could be taken for two names
  (`ValidatorDispatch.PlusConfuses`).
- A validator that several protocols share passes the representative's protocol number, not the caller's, to the nested
  item and position readers: it reads what the shared document says of the representative. Items are the same for both
  numbers if and only if both are below 766 or neither is, and, in the compatible decode mode, both are 766 or neither is
  (`NestedItems.ItemsAgreeExactly`): protocol 766 reads an item's count from one byte, and only the compatible mode
  accepts longer counts. Positions are the same if and only if the runtime knows both protocols or neither. A document
  that uses neither is read alike whatever the numbers; one that does is misread when they differ
  (`ComponentSharing.ItemsAreReadAlikeExactly`, `ComponentSharing.PositionsAreReadAlikeExactly`,
  `ComponentSharing.ItemIsMisread`).
- The second switch calls a function for component ids that exists only if the components' schema needs that alias
  (`ComponentSharing.SwitchesAreLinkedExactly`, `ComponentSharing.PlainIsNotLinked`).
- A field that is kept for its value is read through its aliases in place, one that is not kept by calling them; the
  two differ only where the calls would nest more than 64 deep (`ComponentSelectors.CapturesReadTheSame`).
- Contents that contain one of the markers can be written but not read back
  (`MarkedRegion.ReplacedReadsBack`, an equivalence).

## Model

| member | source | states |
|---|---|---|
| ComponentValidators.DocumentIsCorrect | tools/schema_compiler.py:511-535 | What C makes of the text of every validator generated for a document accepts exactly the bytes its schema means and stops where the schema's reading stops, on all inputs, offsets and depths, for any readers whose values have their C types; it asks of the document only that mappers list something and have no name for two ids, and that bare defaults sit where an else may stand |
| ComponentValidators.RuntimeDocumentIsCorrect | api.c:2986-3300 | The same on the runtime's own readers in both decode modes, with any nested item parser |
| ComponentValidators.DocumentIsReadAsMeantExactly | tools/schema_compiler.py:433-455 | C reads every validator of a document as the compiler means it if and only if no reachable definition has a bare default behind an open if |
| ComponentValidators.DefaultIsLost | tools/schema_compiler.py:450-455 | A schema without mappers that compiles to legal C, whose validator stops a byte early in both decode modes because its default went to the option before it |
| ComponentText.ReadAsMeantExactly | tools/schema_compiler.py:396-456 | The same for one definition: the printed text is read as it is meant if and only if every bare default stands behind an if that leaves the function |
| ComponentSelectors.CapturesReadTheSame | tools/schema_compiler.py:279-329 | A scalar that is kept for its value is read from the same bytes as one that is not, wherever its aliases have room to nest |
| ComponentWires.AliasesAlike | tools/schema_compiler.py:289-301 | What an alias means at a depth depends on its readers, and on the nested item parser only at greater depths |
| ComponentWires.AliasesAlikeOn | tools/schema_compiler.py:188-301 | What uses no positions does not depend on how they are read, and what uses no nested items does not depend on their parser |
| Runtime.RuntimeIsTyped | api.c:3037-3249 | In both decode modes every reader yields a value of its primitive's C type, whatever the nested item parser does |
| Runtime.RuntimeDelimitsItself | api.c:2986-3300 | In both decode modes a read depends only on the bytes it consumes |
| Nbt.NbtStays | api.c:5399-5536 | An NBT value of any nesting depends only on the bytes it takes |
| NestedItems.RunIsMeant | api.c:21178-21221 | Items read by the generated code, which reads components which read items, are the items that the document means, at every level of nesting |
| NestedItems.ItemsAreRecursive | api.c:21178-21221 | Sixty-five levels are all there are: the items meant solve the equation that the C functions are written as |
| NestedItems.RunDelimits | api.c:21178-21221 | With the generated validators in it the nested item parser delimits itself, and so do all readers of the validators |
| NestedItems.ItemsAgreeExactly | api.c:21178-21195 | Where the runtime knows both protocols or neither, or no positions are used, a document's items are read alike as of two protocols if and only if both numbers are below 766 or neither is, and, in the compatible mode, both are 766 or neither is |
| NestedItems.StrictItems | api.c:21188-21195 | In strict mode the one-byte count of 766 and the VarInt of later protocols read alike, and refuse alike |
| NestedItems.OldItemsDiffer | api.c:21188-21195 | In the compatible mode an empty stack whose count takes two bytes is read as of later protocols and refused as of 766 |
| ComponentSharing.SharedValidatorsAreCorrect | tools/schema_compiler.py:668-723 | For every protocol whose corrections agree with its representative's, both switches read exactly what the protocol's own document says of its representative, nested items included; and that is what it says of the protocol itself, if the runtime knows both or neither or no positions are used, and if the numbers agree as far as the decode mode can tell or no nested items are used |
| ComponentSharing.PlainDocumentsAreReadAlike | tools/schema_compiler.py:668-723 | A document whose reachable definitions use neither positions nor nested items is read alike as of any two protocols |
| ComponentSharing.ItemsAreReadAlikeExactly | api.c:21178-21195 | Of documents whose components hold an item, two protocols read all bytes alike if and only if both numbers are below 766 or neither is, and, in the compatible mode, both are 766 or neither is |
| ComponentSharing.PositionsAreReadAlikeExactly | api.c:4013-4024 | Of documents whose components hold a position, two protocols read all bytes alike if and only if the runtime knows both or neither |
| ComponentSharing.ItemIsMisread | tools/schema_compiler.py:680-723 | A source that generates without a refusal for 766 and 767, and three bytes that are a component by the later protocol's own document and that the validator it shares refuses in the compatible mode |
| ComponentSharing.CalledIsPrefixFree | tools/schema_compiler.py:521-534 | With the runtime's readers and nested items, on success only the consumed bytes matter, wherever they stand; every strict prefix of them is rejected |
| ComponentSharing.RunItemsAreRecursive | api.c:21178-21221 | The modelled levels of the generated code's items solve the equation of the C functions |
| ComponentSharing.SwitchesAreLinkedExactly | tools/schema_compiler.py:680-720 | Both functions that the switches call for each protocol are defined if and only if the components of every representative's document need the alias for ids |
| ComponentSharing.PlainIsNotLinked | tools/schema_compiler.py:706-712 | For a document whose components are numbered in place the second switch calls a function that is not there |
| ComponentSharing.ConflictCompiles | tools/schema_compiler.py:641-650 | The overlay of `ValidatorDispatch.ConflictGoesUnnoticed` is not refused by the compiler either |
| ComponentCorrect.ValidatorIsCorrect | tools/schema_compiler.py:279-535 | The same for any linked program of statements as the compiler means them (how C reads their text is ComponentText's); a generated function is never stuck, so variables are set before use, called functions are defined and no loop exceeds 2^20 |
| ComponentCorrect.CompileIsCorrect | tools/schema_compiler.py:279-509 | The statements emitted for one node, as the compiler means them, run from any store that simulates the fields in scope, agree with the node's reading, keep the outer variables and leak no inner ones |
| ComponentCorrect.SelectorIsCorrect | tools/schema_compiler.py:289-334 | A captured scalar holds the value of the field it was captured for, with the mapper's table, also through aliases inlined for their value |
| ComponentCorrect.MapperIsCorrect | tools/schema_compiler.py:307-329 | The emitted membership check passes exactly the declared ids and rejects everything else |
| ComponentCorrect.MembershipIsDeclared | tools/schema_compiler.py:315-327 | Over the inverted name-to-id table the check is the declared membership, under C's comparison rules |
| ComponentCorrect.IdOfIsInverse | tools/schema_compiler.py:315-318 | Looking a name up in the inverted table finds the id that the document lists for it |
| ComponentCorrect.SortedArmsPick | tools/schema_compiler.py:418-443 | The sorted if/else-if chain of a switch takes the least id equal to the selector, and the first listed of those, or falls to the default |
| ComponentCorrect.ReferencesAreMentions | tools/schema_compiler.py:237-277 | The set of names to capture is exactly the set of names that inlined counts and selectors ask for |
| ComponentCorrect.ArrayIsCorrect | tools/schema_compiler.py:357-395 | Counts from a field or read in place, refused when negative or above the limit, then that many elements |
| ComponentCorrect.OptionalIsCorrect | tools/schema_compiler.py:396-409 | A flag, then the value exactly when the flag is set |
| ComponentCorrect.SwitchIsCorrect | tools/schema_compiler.py:410-456 | Cases, default, or nothing read for a value that no case lists; a default without cases runs here as it is meant, and ComponentText says when C agrees |
| ComponentCorrect.HolderIsCorrect | tools/schema_compiler.py:457-473 | Negative refused, zero means an inline value, positive a reference |
| ComponentCorrect.HolderSetIsCorrect | tools/schema_compiler.py:474-506 | Negative refused, zero means the base, n means n - 1 members up to the limit |
| ComponentCorrect.FieldsAreCorrect | tools/schema_compiler.py:335-356 | Fields in order; a captured field hides an outer one of its name from there on and only inside the container |
| ComponentCorrect.AliasIsCorrect | tools/schema_compiler.py:289-301 | A call one level deeper, refused beyond depth 64, or the nested item reader at the next depth |
| ComponentLocality.ValidatorsArePrefixFree | tools/schema_compiler.py:180-535 | On success only the consumed bytes matter, wherever they stand and whatever follows; every strict prefix of them is rejected |
| ComponentLocality.RunIsLocal | tools/schema_compiler.py:279-509 | The same for any block of emitted statements, with the same variables set |
| ComponentCode.Validate | tools/schema_compiler.py:521-534 | Total: a measure over remaining depth and statement structure; the offset never decreases and never leaves the buffer |
| ComponentLimits.MapperIsExactlyWellNamed | tools/schema_compiler.py:315-327 | The emitted membership check and name lookup mean what the table declares if and only if the table lists something and has no name for two ids |
| ComponentLimits.MappersThatDepart | tools/schema_compiler.py:315-327 | An empty table that passes an undeclared value, and a doubled name whose first id is refused |
| AliasClosure.AliasFinder.Visit | tools/schema_compiler.py:98-161 | The stack-pruned walk ends on cyclic schemas, refuses exactly malformed or unknown ones, and adds exactly the aliases reachable without passing through the stack |
| AliasClosure.WalkAvoiding | tools/schema_compiler.py:110-113 | What a walk through an alias reaches is reached without passing through that alias twice, so pruning loses nothing |
| AliasClosure.ReachesThroughAlias | tools/schema_compiler.py:110-113 | An alias reaches itself and what its definition reaches without it |
| AliasClosure.ReachableIsClosed | tools/schema_compiler.py:95-164 | Every alias in the definition of a found alias is found |
| AliasClosure.ClosedProgramIsLinked | tools/schema_compiler.py:511-535 | Every function that a rendered body calls is defined by the rendered program, whatever the mappers list |
| AliasClosure.CompileDocument | tools/schema_compiler.py:83-93 | Fails exactly when the walk refuses or a reachable definition does not compile; otherwise one function for every reachable alias but the nested item, and every function called is there |
| Wire.ReadIsLocal | tools/schema_compiler.py:222-227 | A read at an offset depends only on the bytes it consumes, wherever they stand |
| ValidatorDispatch.SharingIsSound | tools/schema_compiler.py:638-650 | Every protocol runs validators compiled from its own renamed and corrected document if and only if protocols of one source with the same corrected names have them replaced by the same schemas; asked of the digest only that it tells the given sources apart |
| ValidatorDispatch.ApartIsPossible | tools/schema_compiler.py:627 | The sources of any specifications can be told apart by some digest |
| ValidatorDispatch.ConflictGoesUnnoticed | tools/schema_compiler.py:641-646 | An overlay with two replacements for one component that is not refused and gives the second protocol the first one's schema |
| ValidatorDispatch.KeysTellSources | tools/schema_compiler.py:643 | Keys are equal exactly for equal sources and equal lists of corrected names, where the digest tells the two sources apart and the names have no plus signs |
| ValidatorDispatch.PlusConfuses | tools/schema_compiler.py:643 | Two different lists of names with the same text in a key |
| ValidatorDispatch.CorrectedSays | tools/schema_compiler.py:571-585 | Corrections that apply leave each named component with its last replacement, every other component as it was, and report the names in order |
| ValidatorDispatch.OwnTypesAgree | tools/schema_compiler.py:638-646 | For one source and the same corrected names, documents are equal exactly when the replacements are |
| ValidatorDispatch.Document.Rename | tools/schema_compiler.py:630-637 | Every entry of the component id table whose name has a rename is renamed, once and in place, and the names used are reported |
| ValidatorDispatch.Document.Correct | tools/schema_compiler.py:571-585 | In place and in order, on an exact match only; an unknown component or a mismatch fails |
| ValidatorDispatch.GenerateValidators | tools/schema_compiler.py:610-723 | With the specifications sorted by protocol, succeeds exactly when every correction fits, every rename and every correction is used, and the document of the first protocol with each key compiles; then one case for each protocol, which runs the validators compiled for the first protocol with its key |
| ValidatorDispatch.SortedAscends | tools/schema_compiler.py:626 | Sorting keeps the specifications, and leaves each protocol before the later ones |
| SchemaResolution.Resolve | tools/schema_compiler.py:768-792 | The loop computes the resolution, and ends |
| SchemaResolution.ResolutionIsExact | tools/schema_compiler.py:768-792 | Against the chain of nodes taken step by step without memory: a result exactly when the chain ends, an unknown name exactly when it is lost, recursion exactly when it never ends; what is returned is final and resolves to itself |
| SchemaResolution.ReturningNeverEnds | tools/schema_compiler.py:775-776 | A chain that comes back to a node it has passed goes on forever |
| PacketCodec.CodecFollowsDeclaration | tools/schema_compiler.py:828-880 | Declaration, encoder and decoder accept the same schemas, and the codecs handle exactly the declared scalars, in order and in the declared format |
| PacketCodec.NamesMakePaths | tools/schema_compiler.py:828-846 | Distinct member names in every struct give every scalar a path of its own |
| PacketCodec.PacketsComeBack | tools/schema_compiler.py:848-880 | For every packet that compiles, on any writers and readers under which each member of the value either reads back or is refused: what was encoded decodes to the value with nothing remaining if and only if every member reads back |
| PacketCodec.DecodedPacketsComeBack | tools/schema_compiler.py:962-977 | Where C accepts the struct, every decoded packet can be encoded and comes back, on any writers that take what the readers yield |
| PacketRuntime.PacketsComeBackExactly | api.c:2894-3327 | On the runtime's own writers and readers, in both decode modes and every position format: a packet that was encoded decodes to its value if no string is longer than 2^20 bytes, and is refused if one is |
| PacketRuntime.LongTextIsLost | api.c:2938-2949 | A packet of one string of 2^20 + 1 bytes that is encoded and that no decoder takes |
| PacketRuntime.DecodedComeBack | api.c:2986-3300 | Whatever decodes can be encoded again and comes back; in strict mode as the very bytes it was decoded from |
| PacketRuntime.StrictDecodingInvertsEncoding | api.c:3193-3249 | In strict mode bytes decode to a value if and only if the value encodes to them and its strings fit |
| PacketRuntime.ScalarBack | api.c:2807-2958 | Each format reads back what it wrote, whatever follows, but for strings that are too long |
| PacketRuntime.ScalarKept | api.c:3002-3300 | Each value read can be written, and in strict mode is written as the bytes it was read from |
| PacketRuntime.PackedBack | api.c:3302-3318 | A position in the world comes back from its 64 bits in either layout |
| PacketRuntime.UnpackedBack | api.c:4013-4038 | Any 64 bits are those of the position read from them |
| PacketRuntime.ReadersAgree | api.c:3002-3300 | Packet decoders and the readers that component validators call accept the same bytes for a primitive and stop at the same place |
| VarInt.EncodeVarint | benchmark/mock_server.c:72-83 | Writes the shortest encoding of the value's 32 bits, at most five bytes, and nothing else |
| VarInt.DecodeVarint | benchmark/mock_server.c:85-101 | Succeeds exactly on an encoding of at most five bytes; the offset moves past it and the value is its low 32 bits |
| VarInt.DecodeInvertsEncode | benchmark/mock_server.c:72-101 | Every 32-bit value comes back, whatever follows its encoding |
| VarInt.ReencodeIsShortest | benchmark/mock_server.c:72-101 | A decoded value re-encodes in at most the bytes it came from, and to the same bytes exactly when there is one byte, or the last is nonzero and a fifth is at most 0x0f |
| VarInt.DecodeIsLocal | benchmark/mock_server.c:85-101 | Decoding depends only on the bytes it consumes |
| Framing.Socket.ReadAll | benchmark/mock_server.c:40-54 | Under any schedule of partial receives and interruptions: the next bytes exactly, or 1 when the peer closes first |
| Framing.Socket.WriteAll | benchmark/mock_server.c:56-70 | Under any schedule of partial sends and interruptions: all bytes in order, or -1 with a prefix sent |
| Framing.Socket.ReadFrame | benchmark/mock_server.c:103-123 | Returns what a parse of the whole stream gives: the next body, a closed stream, or a refused length |
| Framing.Socket.WriteFrame | benchmark/mock_server.c:125-138 | Sends the length and the packet, or nothing when the packet is too large |
| Framing.FrameComesBack | benchmark/mock_server.c:103-138 | One frame is parsed back exactly, whatever follows |
| Framing.StreamComesBack | benchmark/mock_server.c:103-138 | Any sequence of packets is read back as the same bodies in order, then the stream is closed with nothing left over |
| Framing.Deliver | benchmark/mock_server.c:40-138 | Packets that one end writes and the other reads, under any partial sends, partial receives and interruptions on either side, arrive as the same bodies in order, and then the stream is closed |
| Framing.Socket.WaitForKeepAlive | benchmark/mock_server.c:214-229 | Skips other packets; succeeds exactly when the first keep-alive has the expected token and nothing behind it |
| Framing.OthersAreSkipped | benchmark/mock_server.c:217-223 | Packets with other ids in front do not change the answer |
| Framing.KeepAliveIsExact | benchmark/mock_server.c:214-229 | A keep-alive behind any other packets is accepted exactly for the expected token |
| Framing.Socket.ExchangeKeepAlives | benchmark/mock_server.c:290-300 | A session succeeds exactly when every answer in turn carries its token, and has then sent exactly the requests, in order |
| Framing.EchoingPeerIsAccepted | benchmark/mock_server.c:290-299 | A peer that echoes the requests among any other packets completes every session |
| StartGate.StepKeepsInv | benchmark/mock_server.c:249-302 | Every step of every thread keeps mutual exclusion, the arrival count, the order of the abort flags and what they imply |
| StartGate.RunInv | benchmark/mock_server.c:368-402 | The invariant holds in every state of every run |
| StartGate.FullGateIsNotAborted | benchmark/mock_server.c:258-265 | When all have arrived nobody is left to abort |
| StartGate.AllOrNothing | benchmark/mock_server.c:258-275 | In every interleaving, with spurious wakeups and failing logins or accepts, once gate_wait returns 0 in one session it returns -1 in none, ever |
| StartGate.WritesFollowLogins | benchmark/mock_server.c:277-299 | No keep-alive is written before every session has logged in |
| StartGate.SettledGateIsOpen | benchmark/mock_server.c:249-275 | No wakeup is lost: when the starter is done and each session has arrived or aborted, the gate is released and nobody waits, whichever came first |
| StartGate.SomeThreadProceeds | benchmark/mock_server.c:249-302 | No deadlock: until all is finished some thread can take a step other than a spurious wakeup |
| StartGate.FinishedOutcome | benchmark/mock_server.c:368-402 | In the end all sessions passed or none did, and all passed exactly when there was no abort |
| StartGate.RunsAreBounded | benchmark/mock_server.c:249-302 | With n sessions and w spurious wakeups a run takes at most 31n + 9 + 4w steps besides messages |
| StartGate.FlagsLast | benchmark/mock_server.c:249-265 | An abort is final, and so is a full gate |
| Minecart.HeaderComesBack | tools/schema_compiler.py:2649-2737 | Every header the encoder writes is read back as its own index and serializer, and none is taken for the terminator |
| Minecart.EntriesAreOrderFree | tools/schema_compiler.py:2688-2792 | Permutations of an entry list are accepted alike and give the same value |
| Minecart.DecodesListsInAnyOrder | tools/schema_compiler.py:2688-2792 | A terminated list is accepted exactly when the id is positive, entries are distinct and state and flag come as a pair; the value does not depend on the order |
| Minecart.EncodedComesBack | tools/schema_compiler.py:2649-2877 | Whatever the encoder accepts decodes to its normal form, in every layout and protocol |
| Minecart.DecodedCanBeEncoded | tools/schema_compiler.py:2649-2877 | Whatever the decoder accepts can be encoded, and then decodes to its normal form |
| Minecart.DecodeMetadata | tools/schema_compiler.py:2674-2792 | The loop over a buffer, with its seen bits, accepts and yields what the order-free reading does |
| Minecart.EncodeMetadata | tools/schema_compiler.py:2793-2877 | Refuses before writing, or writes the whole encoding, or fails the packet for lack of room |
| ChunkEnvelope.EncodedComesBack | tools/schema_compiler.py:3422-3732 | In all ten layouts, what the encoder accepts decodes to the same chunk with every byte consumed |
| ChunkEnvelope.DecodedCanBeEncoded | tools/schema_compiler.py:3422-3732 | Every decoded chunk is accepted by the encoder and comes back |
| ChunkEnvelope.RegistryStays | tools/schema_compiler.py:3440-3458 | The registry form of heightmaps delimits itself |
| ChunkEnvelope.RuntimeNbtDelimits | api.c:5399-5536 | The runtime's NBT parser is one that the round trips of chunks ask for |
| ChunkEnvelope.RuntimeEncodedComesBack | tools/schema_compiler.py:3422-3732 | On the runtime's own NBT parser, what the encoder accepts in any layout decodes to the same chunk |
| ChunkEnvelope.RuntimeDecodedCanBeEncoded | tools/schema_compiler.py:3422-3732 | On the runtime's own NBT parser, every decoded chunk is accepted by the encoder and comes back |
| ChunkEnvelope.FlagsBack | tools/schema_compiler.py:3601-3692 | The flags of each layout come back, with the section mask of up to one word |
| ChunkEnvelope.BiomesBack | tools/schema_compiler.py:3629-3654 | Fixed and counted biomes come back, present exactly when the layout and the ground-up flag say so |
| ChunkEnvelope.DecodeChunk | tools/schema_compiler.py:3459-3660 | The decoder of each layout computes the envelope's reading, to the last byte |
| ChunkEnvelope.EncodeChunk | tools/schema_compiler.py:3521-3730 | Succeeds exactly for chunks that have an encoding, given room, and writes that encoding |
| Readers.ListStays | tools/schema_compiler.py:3445-3453 | A loop over self-delimiting pieces is self-delimiting |
| Readers.Reader.All | tools/schema_compiler.py:3645-3651 | The loop reads the list that the reading defines, or stops at the first piece that cannot be read |
| Primitives.PacketWriter.Append | api.h:235-244 | A write that does not fit fails the packet for good and adds nothing |
| MarkedRegion.ReplaceKeepsTheRest | tools/schema_compiler.py:737-744 | Everything outside the region is kept |
| MarkedRegion.ReplacedReadsBack | tools/schema_compiler.py:726-744 | What was written is read back, with exactly one of each marker, if and only if it contains neither marker |
| MarkedRegion.RegenerationIsStable | tools/schema_compiler.py:3980-4006 | Generating again from the result gives the same file |
| MarkedRegion.NoStraddling | tools/schema_compiler.py:743 | No marker straddles an inserted newline |
| MarkedRegion.CountIsOne | tools/schema_compiler.py:728 | One occurrence is counted exactly when one is found and none begins behind it |
| GeneratedText.NormalizeGeneratedLines | tools/schema_compiler.py:3934-3943 | The result is the paragraphs of the lines with one blank line between two and none at the ends |
| GeneratedText.NoTokenIsLost | tools/schema_compiler.py:3934-3943 | Every line that is not blank is kept, in order |
| GeneratedText.NormalizingIsIdempotent | tools/schema_compiler.py:3934-3943 | Normalizing again changes nothing |

## Left out

- The rest of the runtime in `api.c` (stream decoder, typed dispatcher, replay reader, login state machine, and the component validators derived by hand for protocol 777): outside the model, which covers the readers and writers that generated code calls, the NBT parser and the nested item parser. `NestedItems` takes the protocols to be those of the two switches.
- Error codes and error offsets of `reader_fail`: a failing validator is `Rejected`, whatever the code.
- The text of identifiers, labels, indentation and declarations: emitted code is a statement tree; variables are numbered as the counter numbers them, and functions are keyed by alias, which takes `c_name` to be injective on the aliases (and prefixes to keep protocols apart).
- JSON parsing, `int(text, 0)` and SHA-256: parameters; where a member says so the digest tells the given sources apart. A malformed data switch or mapper is one malformed node: corrections do not reach it, and the document is refused for the missing switch rather than by the compiler; nodes are compared as schemas.
- Floats: bit patterns in `Minecart`; in component selectors a finite float is its integer part, sign and integrality, compared exactly.
- Python's recursion limit: a container type that contains itself is refused in `PacketCodec`, where the source recurses until Python stops it.
- The order of definitions in generated code, and the compiler's `packet_table`, packet constants and manifest.
- Sockets, accept, timing and the login exchange of `benchmark/mock_server.c`: logins and accepts may fail at any time; pthread calls themselves succeed.
- Files, command line, report hashes (`tools/schema_compiler.py:4030-4060`) and staleness messages.
- The other renderers (scoreboard, sound, primed TNT, minecart steps, inventory) and all shape checks of manifests: shorter instances of what `Minecart` and `ChunkEnvelope` show.
- What a refused or overflowing chunk encode leaves in the packet buffer; the caller discards it.
- ChunkEnvelope.DecodeChunk: the reader is the bytes not read yet rather than a pointer and an offset, and loops pass over pieces given as functions; each piece is read as the C reads it.
- ChunkEnvelope.EncodeChunk: the two modern checks that the C makes before its first write are made when their section is reached; only the bytes left by a refused encode differ.
- ChunkEnvelope.DecodeChunk, Minecart.DecodeMetadata: read in the compatible decode mode; the strict mode refuses some of the same payloads (encodings that are not shortest, truth values above 1).
- Minecart.EncodedComesBack: states `fields` as a set of fields and a mark for bits outside the mask, not as a 32-bit word.
- ValidatorDispatch.SharingIsSound: compares documents; `ComponentSharing.SharedValidatorsAreCorrect` adds the protocol number that a shared validator hands to the nested item and position readers.
- ComponentSharing.SharedValidatorsAreCorrect: the condition on the two protocols is exact for items, for positions, and for all documents that hold one at the start of a component; that a given document can in fact come to an item that tells the numbers apart is not decided.
- ComponentValidators.DocumentIsCorrect: asks that C read the text as it is meant, which leaves out documents whose misplaced defaults read nothing.
- PacketRuntime.PacketsComeBackExactly: packets have room for what is written (the sticky failure of a full packet is `Primitives.PacketWriter.Append`), and the data pointer of a string is not NULL.
- ValidatorDispatch.GenerateValidators: when several documents do not compile, the source reports the one whose key is least; the model reports one of them.
- ComponentCorrect.ValidatorIsCorrect: the NULL reader that every generated function refuses is not modelled.
- StartGate.AllOrNothing: `pthread_cond_wait` and the mutex calls do not fail.
