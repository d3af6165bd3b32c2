# A verified model of the DeepFlow WASM plugin SDK

The SDK sits between a host agent and plugins compiled to WebAssembly. The host writes contexts
into byte buffers, the SDK decodes them, asks the plugin, and encodes the plugin's answer as
framed Protocol Buffers messages. Nearly everything that can go wrong is in the codecs, so they
are the core of this project. `dafny verify dfyconfig.toml` checks all of it.

| file | what it models |
|---|---|
| `Machine`, `Varint` | fixed-width integers; base-128 varints, their writer and the loop the decoders inline |
| `Wire`, `Codec` | records; the one decoding loop all generated decoders are instances of; writing records |
| `Tables` | the wire format spelled out: tags, fields, byte order and errors with literal bytes |
| `Messages`, `Sizes`, `RoundTrip`, `NormalForms`, `Merging` | the messages as values, with their fields, their records and their sizes; merging, round trips, normal form, canonicity |
| `Buffers`, `AppRequest`, `AppResponse`, `AppTrace`, `KeyVal`, `AppInfo`, `NatsMessage` | the generated code itself: classes with fields, writers that fill an array backwards, decoders that update the object in place |
| `Plugin`, `Framing`, `Serde` | what a plugin hands over, its projection to messages, the framed stream |
| `BigEndian`, `Context`, `HttpContext`, `CustomMessage` | the contexts the host writes, each specified by its documented layout |
| `Host` | the exported functions that chain decoding, plugin and encoding |
| `Nats` | the nRPC plugin that matches replies to requests, over whole runs |
| `Resolve` | type names of the code generator: longest package first, then nested messages |

How the parts fit. A message is a sequence of records (`Codec.Decode` is a fold over them), and
every `UnmarshalVT` is proved to compute that fold on the object it updates, for every input
and every outcome. `SizeVT` and the backward writers are proved to compute the length and the
bytes of `Enc...`. Everything else about the codec is then proved of these functions. The same
pattern holds elsewhere: a method is proved against a function or a predicate, and lemmas say
what those mean. Which number, byte or field stands for what is stated a second time with literal
values (`Tables`, `Serde.Carries`, `Context.CtxByByte`, `Host.Answers`, `Nats.Converts`), so that reader and
writer cannot agree on something else.

Assumptions, all of them visible in the code:

- The varint writer, the varint size function and the record skipper belong to the vtprotobuf
  runtime, which is not part of this model. The first two are implemented from "Base 128 Varints" of the
  Protocol Buffers Encoding specification. The skipper is an unspecified constant `Wire.SKIP` known only
  by a contract: it takes at least the tag, and its answer depends on the bytes it takes. An
  implementation of the contract is proved to exist.
- The width of the platform's `int` is the unspecified constant `Machine.INT_WIDTH`: all results
  hold for 32 and for 64 bits.
- The converter from protobuf to JSON is an unspecified constant `Nats.PROTOBUF_TO_JSON`.
- A set oneof holds a message, and an info handed to the serializer is not nil.
- A byte slice or a string is no longer than the largest `int`. So decoding what was written is stated
  for messages whose encoding is that short; the writers and sizes are stated for all messages, and say when they
  panic or wrap around.
- A panic ends a call. A writer that has panicked is modelled by an index that stays at -1, and writes no more.
- A plugin is any function from contexts to actions, and the bytes the host writes are any bytes. What
  the SDK hands to the host is a result of the call.

Where the code does something other than one might expect, the model follows the code:

- `deserializeCustomMessageCtx` adds ten to a 32-bit length in 32-bit arithmetic; a length within ten of
  2^32 passes the check and the slice expression panics (`CustomMessage.PanicCondition`).
- `SizeVT` and the length check of `serializeL7ProtocolInfo` add up in an `int`. Where that has 32 bits, a size that
  has wrapped around can pass the check, and then the slice expressions or the writer panic (`Framing.Capacity` says
  exactly when, `Serde.SizeWraps` gives an input). The same goes for the check of `writeStr`
  (`HttpContext.WriteStr`).
- `OnHttpResp` dereferences the response of the plugin's info without a check; an info with a request only traps
  (`Host.OnHttpResp`).
- `DefaultParser.OnCustomMessage` ignores decoding errors and uses the fields decoded so far
  (`Nats.Heard`).
- Decoding into a message that has data already is not always merging: an input whose oneof changes arms and
  comes back drops what was there (`Merging.DecodeIsMerge` says exactly when, `Merging.TwoArmsExample` gives an input).
- An unmapped response status is sent as `RESP_OK` (`Host.StatusKept` says which ones are mapped).
- `getGoType` leaves an underscore in front of a message of the empty package, and the empty package is only tried
  for names of one component, where it panics if there is no such file (`Resolve.GoNameExact`,
  `Resolve.NoPackageExample`).
- Of a package that is split over several files only the first is searched (`Resolve.ResolutionComplete`).
- Names split at a first dot at position 0 have neither service nor method (`Nats.CalleeRejoins`).

## Model

| member | source | states |
|---|---|---|
| Varint.DecodeVarint | sdk/pb/WasmPluginApi_vtproto.pb.go:2044-2057 | The inlined loop reads exactly what the varint at the index spells, modulo the width of its type, fails with the right error when the input ends or runs past ten bytes, and moves the index behind it |
| Varint.ReadEncU64 | sdk/pb/WasmPluginApi_vtproto.pb.go:2044-2057 | Every uint64 is read back from its base-128 encoding, which takes at most ten bytes, whatever follows |
| Varint.ReadVarintBounds | sdk/pb/WasmPluginApi_vtproto.pb.go:2044-2057 | A successful read takes one to ten bytes, all inside the input |
| Varint.ReadVarintLocal | sdk/pb/WasmPluginApi_vtproto.pb.go:2044-2057 | A successful read depends on the bytes it takes and nothing else |
| Varint.EncodeVarint | sdk/pb/WasmPluginApi_vtproto.pb.go:671-677 | The runtime's backward varint writer ends just below the index and touches nothing else |
| Varint.SizeOfVarintExact | sdk/pb/WasmPluginApi_vtproto.pb.go:1795-1798 | The size function announces the number of bytes the writer produces |
| Machine.SignExtendRoundTrip | sdk/pb/WasmPluginApi_vtproto.pb.go:760-764 | Every int32, negative ones included, survives sign extension to 64 bits and the truncating read |
| Machine.TruncateSum | sdk/pb/WasmPluginApi_vtproto.pb.go:2053 | Accumulating groups in a fixed-width integer gives the low bits of the unbounded sum |
| Buffers.DecodeTag | sdk/pb/WasmPluginApi_vtproto.pb.go:2042-2065 | Tag, end-group and illegal-number checks in the order of the code |
| Buffers.DecodeDelim | sdk/pb/WasmPluginApi_vtproto.pb.go:2071-2099 | Length, sign and wrap-around checks: every slice taken lies inside the input, for a 32-bit and a 64-bit int |
| Buffers.DecodeSkip | sdk/pb/WasmPluginApi_vtproto.pb.go:2232-2245 | An unknown field is taken whole, tag included, or rejected |
| Buffers.WrapAround | sdk/pb/WasmPluginApi_vtproto.pb.go:2089-2092 | The sum of two non-negative ints is exact or wraps around to something negative, which is what the check tests |
| Wire.WireSkipMeetsContract | sdk/pb/WasmPluginApi_vtproto.pb.go:2233-2236 | Skipping as the wire format prescribes it, groups included, meets the contract assumed of the runtime's Skip |
| Wire.ReadRecLocal | sdk/pb/WasmPluginApi_vtproto.pb.go:2040-2247 | One record lies inside the input, makes progress, and reads the same in front of any continuation |
| Wire.ReadRecSound | sdk/pb/WasmPluginApi_vtproto.pb.go:2040-2247 | What is read has the kind its field number has; an unknown record reads as itself on its own |
| Codec.ReadEncRec | sdk/pb/WasmPluginApi_vtproto.pb.go:2040-2247 | Reading inverts writing record by record, whatever follows |
| Codec.DecodeConcat | sdk/pb/WasmPluginApi_vtproto.pb.go:2040-2252 | Concatenation is merge, for every message type and all byte strings: decoding a ++ b is decoding a, then b into the result |
| Codec.DecodeRecs | sdk/pb/WasmPluginApi_vtproto.pb.go:2040-2252 | Decoding written records applies them in order and goes on with the rest |
| Codec.DecodeIsFold | sdk/pb/WasmPluginApi_vtproto.pb.go:2040-2252 | The decoder is a fold over records, and success means that the input was consumed exactly |
| Codec.DecodeCases | sdk/pb/WasmPluginApi_vtproto.pb.go:2040-2247 | One turn of the loop, case by case |
| Codec.DecodeUnknown | sdk/pb/WasmPluginApi_vtproto.pb.go:2232-2246 | Unknown fields are kept byte for byte and in order |
| Codec.UnknownConcat | sdk/pb/WasmPluginApi_vtproto.pb.go:2245 | Appended unknown fields are unknown fields again |
| Codec.DecodePreserves | sdk/pb/WasmPluginApi_vtproto.pb.go:2040-2252 | What every record keeps, a whole decoding run keeps, failing ones included |
| Tables.RequestTable | sdk/pb/WasmPluginApi_vtproto.pb.go:2067-2230 | Which tag byte sets which field of a request: 0a version, 12 type, 1a domain, 22 resource, 2a endpoint |
| Tables.ResponseTable | sdk/pb/WasmPluginApi_vtproto.pb.go:2323-2454 | The same for the strings of a response: 1a exception, 22 result, 2a type, 32 endpoint |
| Tables.ResponseNumbers | sdk/pb/WasmPluginApi_vtproto.pb.go:2283-2322 | 08 sets the status and 10 the code, each to the signed low 32 bits of the varint |
| Tables.TraceTable | sdk/pb/WasmPluginApi_vtproto.pb.go:2506-2702 | 0a trace id, 12 span id, 1a parent span id, 22 request id, 2a proxy client, and 32 appends a trace id |
| Tables.KeyValTable | sdk/pb/WasmPluginApi_vtproto.pb.go:2754-2817 | 0a key, 12 value |
| Tables.NatsTable | sdk/pb/WasmPluginApi_vtproto.pb.go:3347-3444 | 0a subject, 12 reply_to, 1a payload |
| Tables.InfoNumbers | sdk/pb/WasmPluginApi_vtproto.pb.go:2869-2928 | 08 request length, 10 response length, 18 request id and 80 02 biz type, modulo 2^32 |
| Tables.InfoFlags | sdk/pb/WasmPluginApi_vtproto.pb.go:3080-3142 | a8 01, b0 01 and b8 01 set the three flags, to whether the low bits of the varint are not all zero |
| Tables.InfoStrings | sdk/pb/WasmPluginApi_vtproto.pb.go:3047-3079 | 6a protocol, 8a 02 biz code, 92 02 biz scenario, 9a 02 biz response code |
| Tables.InfoMessages | sdk/pb/WasmPluginApi_vtproto.pb.go:2929-3045 | 52, 5a and 62 decode into the request, response and trace there is, fa 01 appends an attribute; outcome and error for every payload |
| Tables.RequestBytes | sdk/pb/WasmPluginApi_vtproto.pb.go:652-700 | The bytes of a request, field by field, in order |
| Tables.ResponseBytes | sdk/pb/WasmPluginApi_vtproto.pb.go:720-771 | The bytes of a response, with negative numbers in 64 bits |
| Tables.TraceBytes | sdk/pb/WasmPluginApi_vtproto.pb.go:791-848 | The bytes of a trace |
| Tables.KeyValBytes | sdk/pb/WasmPluginApi_vtproto.pb.go:868-895 | The bytes of a pair, empty strings left out |
| Tables.NatsBytes | sdk/pb/WasmPluginApi_vtproto.pb.go:1111-1145 | The bytes of a NATS message, empty fields left out |
| Tables.InfoBytes | sdk/pb/WasmPluginApi_vtproto.pb.go:915-1053 | The bytes of an AppInfo by both writers, group by group with their tags: the oneof last, or behind field 3 |
| Tables.BadTags | sdk/pb/WasmPluginApi_vtproto.pb.go:2044-2065 | An end-group tag, a number below 1 and an unfinished tag are reported as such, in this order, and change nothing |
| Tables.OverlongTag | sdk/pb/WasmPluginApi_vtproto.pb.go:2045-2047 | A varint of ten continued bytes is an overflow |
| Tables.BadFields | sdk/pb/WasmPluginApi_vtproto.pb.go:3347-3378 | What a length-delimited field is refused for: wire type, no length, too long, negative |
| Tables.ThreeBytes | sdk/pb/WasmPluginApi_vtproto.pb.go:2044-2057 | The low seven bits of a varint come first, with the high bit set in all bytes but the last |
| AppRequests.AppRequest.SizeVT | sdk/pb/WasmPluginApi_vtproto.pb.go:1789-1817 | The length of the encoding, added up in an int, computed without writing it: exact up to the largest int, its low bits beyond |
| AppRequests.AppRequest.MarshalToSizedBufferVT | sdk/pb/WasmPluginApi_vtproto.pb.go:652-700 | The backward writer leaves exactly the encoding at the end of its slice and touches nothing else; it panics exactly when the slice is shorter, and then still stays inside it |
| AppRequests.AppRequest.UnmarshalVT | sdk/pb/WasmPluginApi_vtproto.pb.go:2038-2252 | Terminates on every input, stays inside it, and leaves message and error as the record-by-record specification says, also when it fails halfway |
| AppRequests.AppRequest.EqualVT | sdk/pb/WasmPluginApi_vtproto.pb.go:305-327 | True exactly for equal messages, absent and empty fields told apart where the type does |
| AppRequests.AppRequest.CloneVT | sdk/pb/WasmPluginApi_vtproto.pb.go:23-53 | A fresh object of the same value |
| AppResponses.AppResponse.SizeVT | sdk/pb/WasmPluginApi_vtproto.pb.go:1819-1849 | The length of the encoding, added up in an int, computed without writing it: exact up to the largest int, its low bits beyond |
| AppResponses.AppResponse.MarshalToSizedBufferVT | sdk/pb/WasmPluginApi_vtproto.pb.go:720-771 | The backward writer leaves exactly the encoding at the end of its slice and touches nothing else; it panics exactly when the slice is shorter, and then still stays inside it |
| AppResponses.AppResponse.UnmarshalVT | sdk/pb/WasmPluginApi_vtproto.pb.go:2254-2475 | Terminates on every input, stays inside it, and leaves message and error as the record-by-record specification says, also when it fails halfway |
| AppResponses.AppResponse.EqualVT | sdk/pb/WasmPluginApi_vtproto.pb.go:336-361 | True exactly for equal messages, absent and empty fields told apart where the type does |
| AppResponses.AppResponse.CloneVT | sdk/pb/WasmPluginApi_vtproto.pb.go:59-93 | A fresh object of the same value |
| AppTraces.AppTrace.SizeVT | sdk/pb/WasmPluginApi_vtproto.pb.go:1851-1885 | The length of the encoding, added up in an int, computed without writing it: exact up to the largest int, its low bits beyond |
| AppTraces.AppTrace.MarshalToSizedBufferVT | sdk/pb/WasmPluginApi_vtproto.pb.go:791-848 | The backward writer leaves exactly the encoding at the end of its slice and touches nothing else; it panics exactly when the slice is shorter, and then still stays inside it |
| AppTraces.AppTrace.UnmarshalVT | sdk/pb/WasmPluginApi_vtproto.pb.go:2477-2723 | Terminates on every input, stays inside it, and leaves message and error as the record-by-record specification says, also when it fails halfway |
| AppTraces.AppTrace.EqualVT | sdk/pb/WasmPluginApi_vtproto.pb.go:370-401 | True exactly for equal messages, absent and empty fields told apart where the type does |
| AppTraces.AppTrace.CloneVT | sdk/pb/WasmPluginApi_vtproto.pb.go:99-134 | A fresh object of the same value |
| KeyVals.KeyVal.SizeVT | sdk/pb/WasmPluginApi_vtproto.pb.go:1887-1903 | The length of the encoding, added up in an int, computed without writing it: exact up to the largest int, its low bits beyond |
| KeyVals.KeyVal.MarshalToSizedBufferVT | sdk/pb/WasmPluginApi_vtproto.pb.go:868-895 | The backward writer leaves exactly the encoding at the end of its slice and touches nothing else; it panics exactly when the slice is shorter, and then still stays inside it |
| KeyVals.KeyVal.UnmarshalVT | sdk/pb/WasmPluginApi_vtproto.pb.go:2725-2838 | Terminates on every input, stays inside it, and leaves message and error as the record-by-record specification says, also when it fails halfway |
| KeyVals.KeyVal.EqualVT | sdk/pb/WasmPluginApi_vtproto.pb.go:410-423 | True exactly for equal messages, absent and empty fields told apart where the type does |
| KeyVals.KeyVal.CloneVT | sdk/pb/WasmPluginApi_vtproto.pb.go:140-152 | A fresh object of the same value |
| NatsMessages.NatsMessage.SizeVT | sdk/pb/WasmPluginApi_vtproto.pb.go:1989-2009 | The length of the encoding, added up in an int, computed without writing it: exact up to the largest int, its low bits beyond |
| NatsMessages.NatsMessage.MarshalToSizedBufferVT | sdk/pb/WasmPluginApi_vtproto.pb.go:1111-1145 | The backward writer leaves exactly the encoding at the end of its slice and touches nothing else; it panics exactly when the slice is shorter, and then still stays inside it |
| NatsMessages.NatsMessage.UnmarshalVT | sdk/pb/WasmPluginApi_vtproto.pb.go:3318-3465 | Terminates on every input, stays inside it, and leaves message and error as the record-by-record specification says, also when it fails halfway |
| NatsMessages.NatsMessage.EqualVT | sdk/pb/WasmPluginApi_vtproto.pb.go:561-577 | True exactly for equal messages, absent and empty fields told apart where the type does |
| NatsMessages.NatsMessage.CloneVT | sdk/pb/WasmPluginApi_vtproto.pb.go:247-264 | A fresh object of the same value |
| AppInfos.AppInfo.SizeVT | sdk/pb/WasmPluginApi_vtproto.pb.go:1905-1987 | The size as it is added up in an int, with nested sizes that may have wrapped around already |
| Sizes.InfoSizeVTExact | sdk/pb/WasmPluginApi_vtproto.pb.go:1905-1987 | That size is the length of the encoding as long as an int can hold it |
| Machine.PlusIsSum | sdk/pb/WasmPluginApi_vtproto.pb.go:1905-1963 | Adding up in an int keeps the low bits of the unbounded sum |
| AppInfos.AppInfo.MarshalToSizedBufferVT | sdk/pb/WasmPluginApi_vtproto.pb.go:915-1053 | The backward writer with the oneof behind field 35: exact bytes, exact end, nothing else touched, a panic exactly when the slice is too short |
| AppInfos.AppInfo.MarshalToSizedBufferVTStrict | sdk/pb/WasmPluginApi_vtproto.pb.go:1491-1634 | The same with the oneof between fields 3 and 12 |
| AppInfos.AppInfo.MarshalToVT | sdk/pb/WasmPluginApi_vtproto.pb.go:910-913 | Writes to the front of a slice, and panics exactly when the slice is too short for the encoding, whether or not the size has wrapped around |
| AppInfos.AppInfo.MarshalVT | sdk/pb/WasmPluginApi_vtproto.pb.go:897-908 | A slice of SizeVT bytes is filled to index 0 and is the encoding; a panic exactly when the encoding is longer than the largest int |
| AppInfos.AppInfo.MarshalVTStrict | sdk/pb/WasmPluginApi_vtproto.pb.go:1473-1484 | The same for the strict writer, sized by the same SizeVT |
| AppInfos.AppInfo.UnmarshalVT | sdk/pb/WasmPluginApi_vtproto.pb.go:2840-3316 | The nested decoder: merges the trace and a same-arm oneof in place, replaces another arm once it has decoded, appends attributes, keeps unknown fields; message and error are those of the specification for every input |
| AppInfos.AppInfo.UnmarshalField | sdk/pb/WasmPluginApi_vtproto.pb.go:2841-2890 | One record of it: progress and agreement with the rest of the decoding |
| AppInfos.AppInfo.UnmarshalReq | sdk/pb/WasmPluginApi_vtproto.pb.go:2958-2968 | Merge into the same arm, or replace another one only if the new one decodes |
| AppInfos.AppInfo.UnmarshalResp | sdk/pb/WasmPluginApi_vtproto.pb.go:2999-3009 | The same for the other arm |
| AppInfos.AppInfo.UnmarshalTrace | sdk/pb/WasmPluginApi_vtproto.pb.go:3040-3045 | A second trace merges into the first |
| AppInfos.AppInfo.UnmarshalAttribute | sdk/pb/WasmPluginApi_vtproto.pb.go:3172-3175 | Attributes append, and a failing one stays as far as it got |
| AppInfos.AppInfo.EqualVT | sdk/pb/WasmPluginApi_vtproto.pb.go:432-502 | True exactly for equal values, a nil attribute counting as an empty one; hence an equivalence |
| AppInfos.AppInfo.CloneVT | sdk/pb/WasmPluginApi_vtproto.pb.go:158-223 | A deep copy: all parts fresh, the value the same |
| RoundTrip.InfoMerges | sdk/pb/WasmPluginApi_vtproto.pb.go:2840-3316 | Decoding what either writer produced for m into any x merges m into x by an independent definition of merging |
| RoundTrip.InfoRoundTrip | sdk/pb/WasmPluginApi_vtproto.pb.go:915-1053 | Full round trip of both writers, for every message with well-formed unknown fields, oneof out of order or not |
| RoundTrip.ConcatIsMerge | sdk/pb/WasmPluginApi_vtproto.pb.go:2958-2968 | Whatever was decoded first, appending what either writer produced for m merges m into it |
| Merging.DecodeIsMerge | sdk/pb/WasmPluginApi_vtproto.pb.go:2840-3316 | For every accepted byte string: decoding it into a message, whichever a decoder can have produced, equals merging in what it decodes to by itself exactly when its records set at most one arm of the oneof, given some unknown field of either arm that the skipper takes |
| Merging.TwoArms | sdk/pb/WasmPluginApi_vtproto.pb.go:2958-2968 | When both arms occur, a well-formed message that tells the difference: its arm has been dropped on the way |
| Merging.TwoArmsExample | sdk/pb/WasmPluginApi_vtproto.pb.go:2958-3009 | Three empty records, of fields 10, 11 and 10: they decode, and decoding them into a request with a version drops the version |
| Merging.UnknownFieldExample | sdk/pb/WasmPluginApi_vtproto.pb.go:2233-2236 | An unknown field of both arms that skipping by the wire format takes |
| Merging.ArmForgets | sdk/pb/WasmPluginApi_vtproto.pb.go:2958-3009 | The last arm set wins, and once both have been set the result does not depend on the message decoding started from |
| Merging.MergeStep | sdk/pb/WasmPluginApi_vtproto.pb.go:2860-3310 | One record commutes with merging, nested messages included |
| Merging.DecodeCommutes | sdk/pb/WasmPluginApi_vtproto.pb.go:2040-2252 | A change that every record commutes with commutes with decoding, errors included |
| RoundTrip.StrictIsPermutation | sdk/pb/WasmPluginApi_vtproto.pb.go:1604-1617 | Both writers emit a permutation of the same records, so the same number of bytes |
| RoundTrip.InfoApply | sdk/pb/WasmPluginApi_vtproto.pb.go:2860-3288 | In either order the records build up the same message |
| NormalForms.NormalForm | sdk/pb/WasmPluginApi_vtproto.pb.go:3296-3310 | For every byte string eleven bytes below the largest int, decoding, writing by either writer and decoding again gives the message first decoded, unknown bytes at any depth included, even when decoding failed halfway |
| NormalForms.InfoGrowth | sdk/pb/WasmPluginApi_vtproto.pb.go:2840-3316 | Written again, what an input decodes to takes at most eleven bytes more than the input |
| NormalForms.NatsNormalForm | sdk/pb/WasmPluginApi_vtproto.pb.go:3318-3465 | Written again, a decoded NATS message takes no more bytes than its input, and decodes to itself, for every input |
| NormalForms.RecNoShorter | sdk/pb/WasmPluginApi_vtproto.pb.go:2040-2247 | A record is written with no more bytes than it was read from |
| RoundTrip.NatsDecodeWf | sdk/pb/WasmPluginApi_vtproto.pb.go:3443-3457 | A decoded NATS message carries only unknown fields its type does not know |
| RoundTrip.InfoDecodeWf | sdk/pb/WasmPluginApi_vtproto.pb.go:3296-3310 | Whatever is decoded carries only unknown fields its types do not know, at any depth |
| RoundTrip.Canonicity | sdk/pb/WasmPluginApi_vtproto.pb.go:897-908 | Equal bytes exactly for equal messages, for both writers |
| RoundTrip.RequestRoundTrip | sdk/pb/WasmPluginApi_vtproto.pb.go:652-700 | Round trip of AppRequest |
| RoundTrip.ResponseRoundTrip | sdk/pb/WasmPluginApi_vtproto.pb.go:720-771 | Round trip of AppResponse, negative codes included |
| RoundTrip.TraceRoundTrip | sdk/pb/WasmPluginApi_vtproto.pb.go:791-848 | Round trip of AppTrace, any number of trace ids |
| RoundTrip.KeyValRoundTrip | sdk/pb/WasmPluginApi_vtproto.pb.go:868-895 | Round trip of KeyVal, empty strings not written |
| RoundTrip.NatsRoundTrip | sdk/pb/WasmPluginApi_vtproto.pb.go:1111-1145 | Round trip of NatsMessage |
| RoundTrip.NatsMerges | sdk/pb/WasmPluginApi_vtproto.pb.go:3318-3465 | Decoding into a NatsMessage merges: a non-empty field replaces, an empty one is not written and so does not |
| Serde.BuildMessage | sdk/serde.go:349-434 | The message object built for an info has the value of the info's projection, and is fresh |
| Serde.ProjectCarries | sdk/serde.go:351-434 | Where each field of an info ends up in its message, spelled out: request, response with the table of statuses, trace, attributes by index, flags, biz fields, lengths modulo 2^32 |
| Serde.StreamCarries | sdk/serde.go:331-457 | Of every stream the serializer returns, body k starts with the magic and decodes to a message with every field of info k where it belongs |
| Serde.ArmByDirection | sdk/serde.go:371-417 | With both a request and a response the direction decides; with one of them that one is kept |
| Serde.ProjectionForgets | sdk/serde.go:351-434 | What the projection loses for infos without a response: ProtocolMerge, IsEnd and the lengths modulo 2^32, and nothing else |
| Serde.PutFrame | sdk/serde.go:343-455 | One frame: written when it fits, its length field without truncation; else refused, or a panic when the check in int arithmetic lets it through; nothing in front of it changes |
| Serde.SerializeL7ProtocolInfo | sdk/serde.go:331-457 | All infos framed in order when they fit 65536 bytes, and the host reads every field of every info from them; otherwise nil or a panic, as the length check decides on the first info that does not fit |
| Framing.Capacity | sdk/serde.go:335-346 | Exact capacity: a stream exactly when 4 bytes and the encoding of each info fit 65536 bytes; a panic exactly when the check in int arithmetic lets the first misfit through; nil in all other cases |
| Framing.CapacityOfInts | sdk/serde.go:335-346 | No panic when the first misfit would still fit an int: then it is a stream or nil by the room alone |
| Serde.SizeWraps | sdk/serde.go:335-346 | An info with 40000 attributes that share a 64 KiB value: a panic with 32-bit ints, nil with 64-bit ones |
| Serde.ManySharedSize | sdk/pb/WasmPluginApi_vtproto.pb.go:1905-1963 | Its encoding has 2621800014 bytes, and that is the size as far as an int goes |
| Framing.StreamRoundTrip | sdk/serde.go:331-457 | Splitting the result by its lengths consumes it exactly and gives one body per message in order, each with the magic and each decoding to its message |
| Framing.FrameBytes | sdk/serde.go:453-455 | A frame is its length, the high byte first, 50 42 and the message |
| Framing.SplitBytes | sdk/serde.go:453-455 | And it is split off by that length |
| Framing.FramesSize | sdk/serde.go:343-455 | The stream is as long as the room it was given |
| Serde.HostReadsProjections | sdk/serde.go:331-457 | The same for infos: every body decodes to the projection of its info |
| Context.DeserializeParseCtx | sdk/serde.go:79-198 | Accepts exactly the buffers that start with the encoding of a valid context, and returns that context |
| Context.CtxByByte | sdk/serde.go:53-198 | The documented bytes of a context, in order, read back into the field each belongs to, numbers with the high byte first |
| Context.CtxAccepted | sdk/serde.go:79-198 | Which buffers are accepted: address kinds 4 and 6, protocols 6 and 17, eBPF types 0, 1, 2, 5, 8 and 255, directions 0 and 1, and no byte missing |
| BigEndian.FourBytes | sdk/serde.go:220-221 | The highest byte comes first |
| Context.LayoutByPosition | sdk/serde.go:53-78 | The documented layout, as an encoder, is what the decoder reads position by position |
| Context.HoldsUnique | sdk/serde.go:79-198 | A buffer holds at most one context |
| Context.CtxRoundTrip | sdk/serde.go:79-198 | Decoding inverts encoding whatever follows |
| Context.CtxPrefixRejected | sdk/serde.go:79-198 | Every proper prefix of an encoding is rejected |
| HttpContext.WriteStr | sdk/serde.go:36-51 | Succeeds exactly when length and string fit; a failing call changes nothing, a succeeding one only its window; the length has 16 bits; a panic exactly when the sum in the check exceeds the largest int |
| HttpContext.WriteHttpReq | sdk/serde.go:36-51 | Four calls of it: they succeed exactly when the buffer has room, and the decoder then reads the four strings back |
| HttpContext.WriteStrs | sdk/serde.go:36-51 | Calls of it one after another do what the specification of written strings says |
| HttpContext.WrittenStrings | sdk/serde.go:36-51 | Strings written one after another make up their encodings, and a buffer of at most 65536 bytes rules out truncated lengths |
| HttpContext.DeserializeHttpReqCtx | sdk/serde.go:244-285 | Accepts exactly a valid base context with four strings, and returns them |
| HttpContext.WriterReaderAgree | sdk/serde.go:36-51 | Four strings written into a buffer of at most 65536 bytes are the four strings the decoder returns |
| HttpContext.HoldsStrsUnique | sdk/serde.go:258-274 | A buffer holds at most one list of strings |
| HttpContext.DeserializeHttpRespCtx | sdk/serde.go:294-329 | Accepts exactly a known status with a valid base context; the endpoint is the string at the front of the rest, if there is a whole one |
| HttpContext.HttpRespRoundTrip | sdk/serde.go:287-329 | The documented bytes read back: code with the high byte first, status, and endpoint, or none in three bytes |
| HttpContext.HttpRespRejected | sdk/serde.go:294-314 | Rejected exactly for less than three bytes, a status 1 or above 5, or an invalid base context |
| HttpContext.EndpointRoundTrip | sdk/serde.go:318-326 | An endpoint laid out behind the first three bytes is read back |
| CustomMessage.DeserializeCustomMessageCtx | sdk/serde.go:206-229 | Accepts, rejects or panics exactly as specified, with the 32-bit sum of the length check |
| CustomMessage.MessageRoundTrip | sdk/serde.go:200-229 | Decoding inverts the documented layout whatever follows |
| CustomMessage.MessageByByte | sdk/serde.go:200-229 | The documented bytes read back: two of hook point, four of type code, four of length, payload |
| CustomMessage.PanicCondition | sdk/serde.go:222-226 | The decoder panics exactly when the base context is valid and the length field is within ten of 2^32 |
| CustomMessage.PanicExample | sdk/serde.go:222-226 | A ten-byte buffer that makes it panic |
| Host.Deliver | sdk/abi_export.go:47-61 | What the host gets of an action: the whole stream, or nothing on an error, several infos where one is allowed, no info, or no room, or a trap of the serializer; it returns the abort flag of the action in any case |
| Host.DeliveryAnswers | sdk/abi_export.go:47-61 | A call that returns, returns the action's abort flag; an error, an empty result, or several infos where one is allowed send nothing; bytes are sent exactly when none of these holds and the frames fit 65536 bytes; and the host reads every field from them |
| Host.RespCallAnswers | sdk/abi_export.go:64-109 | The same for a response, with the trap of a response-less info |
| Host.OnHttpReq | sdk/abi_export.go:22-61 | Decode, ask the plugin, deliver in direction 0; false and nothing sent without a plugin, a context or an action |
| Host.OnHttpResp | sdk/abi_export.go:64-109 | The same for a response: a missing status is filled in in place and nothing else of the response changes; an info without a response traps; what the host reads carries the plugin's status, or its own when the plugin set none |
| Host.FillAndDeliver | sdk/abi_export.go:88-109 | The part of it behind the plugin's answer |
| Host.ParsePayload | sdk/abi_export.go:184-219 | The same for a payload, with any number of infos and the direction of the context |
| Host.StatusReachesHost | sdk/abi_export.go:98-107 | The bytes handed to the host decode to one message with a response of the mapped status |
| Host.NoResponseExample | sdk/abi_export.go:98-101 | An info with a request only traps |
| Host.UnmappedExample | sdk/serde.go:384-400 | Status 1 reaches the host as RESP_OK |
| Host.StatusKept | sdk/serde.go:384-400 | The enum mapping keeps a status exactly when it is one the decoder validates |
| Nats.NrpcParser.OnNatsMessage | example/nats/nats.go:40-89 | The map and the action after a message: a request or a known reply is handed to the converter with the service and method around the first dot of its function, and reported under json_payload and call_id; any other message is passed on |
| Nats.NrpcParser.OnCustomMessage | sdk/parser.go:139-146 | Dispatch on hook point and type code; a payload that does not decode is used as far as it got |
| Nats.OnCustomMessageExport | sdk/abi_export.go:112-151 | The whole chain from buffers to the bytes for the host |
| Nats.CalleeRejoins | example/nats/nats.go:61-70 | Service and method rejoin to the function exactly when its first dot has something before it, or the function is the lone dot |
| Nats.CalleeUnique | example/nats/nats.go:61-70 | They are the only such names |
| Nats.LatestRequestIs | example/nats/nats.go:47-60 | The latest request of a call, without recursion |
| Nats.RemembersNext | example/nats/nats.go:47-60 | Every message keeps the map equal to the latest requests of the history, and is answered accordingly |
| Nats.RunRemembers | example/nats/nats.go:40-60 | After any run of buffers the map holds, for every call, the subject of the latest request heard, and no other calls |
| Nats.EndToEnd | sdk/abi_export.go:112-151 | Every call of every run ends as a correlator over the messages heard before says, traps included |
| Nats.RunCorrelates | sdk/abi_export.go:112-151 | Deliver any NATS messages in any contexts: call k reports exactly when message k is a request or answers an earlier one, with the latest such request |
| Nats.InputIsHeard | sdk/parser.go:139-146 | Buffer layout, protobuf and dispatch composed: what a host writes is what the plugin hears |
| Nats.RunConverts | example/nats/nats.go:40-89 | The same run in terms of what is read: the two attributes the host decodes are the converter's answer for service, method, direction and payload, and the call id; no earlier request, no report |
| Nats.JsonConverts | example/nats/nats.go:61-72 | Service and method reach the converter in that order, whenever the function is service, dot, method; both empty without a dot or with nothing before it |
| Nats.HeardIffNats | sdk/host.go:84-89 | Heard exactly for hook point 0 and type code 104; anything else leaves the map and is ignored |
| Nats.ReportReachesHost | example/nats/nats.go:72-88 | The host decodes the report that was sent |
| Resolve.SplitJoins | example/nats/protoc-gen-demo/main.go:83-91 | Splitting a name yields dot-free parts that join to it |
| Resolve.JoinSplits | example/nats/protoc-gen-demo/main.go:83-91 | And they are the only ones |
| Resolve.LookupFile | example/nats/protoc-gen-demo/main.go:93-100 | The first file of a package, or none when there is none |
| Resolve.LookupMessageType | example/nats/protoc-gen-demo/main.go:102-147 | Ends in a file and a descriptor, fatally or in a panic, exactly as specified |
| Resolve.ResolvesUnique | example/nats/protoc-gen-demo/main.go:102-147 | The specification leaves one ending for every name |
| Resolve.ResolutionSound | example/nats/protoc-gen-demo/main.go:102-147 | For a name with a package component: the file is one of the longest known package, a chain of nested messages with the remaining names leads to the descriptor, and package and chain rejoin to the name |
| Resolve.ResolutionComplete | example/nats/protoc-gen-demo/main.go:102-147 | The name of a message, among siblings with distinct names, resolves to it exactly when its file is the first of its package and no longer prefix of the name is a known package |
| Resolve.SplitPackageExample | example/nats/protoc-gen-demo/main.go:93-147 | A package split over two files: a message of the second file is not found |
| Resolve.WalkFollows | example/nats/protoc-gen-demo/main.go:121-145 | The nested search follows a chain of descriptors that bear the names |
| Resolve.WalkFinds | example/nats/protoc-gen-demo/main.go:121-145 | Where siblings have distinct names, every chain is found |
| Resolve.Descend | example/nats/protoc-gen-demo/main.go:121-145 | The two search loops compute the walk |
| Resolve.GetGoType | example/nats/protoc-gen-demo/main.go:149-157 | A name without a dot is itself; any other is resolved and renamed |
| Resolve.GoNameExact | example/nats/protoc-gen-demo/main.go:149-157 | The Go name is the chain joined with underscores exactly when the name has a package component; otherwise it keeps a leading underscore |
| Resolve.FirstMatch | example/nats/protoc-gen-demo/main.go:122-127 | Of several messages of one name the first is taken |
| Resolve.BadNames | example/nats/protoc-gen-demo/main.go:83-90 | A name without a leading dot is an error, and so is an empty one |
| Resolve.GoPackageParts | example/nats/protoc-gen-demo/main.go:19-33 | The package is the whole option, or what follows its one semicolon; more are an error |
| Resolve.GoTypeExample | example/nats/protoc-gen-demo/main.go:149-157 | A nested message B of A in package p with option path;pkg is A_B in pkg |
| Resolve.NoPackageExample | example/nats/protoc-gen-demo/main.go:102-157 | A message of the empty package is named with a leading underscore; without a file of that package the lookup panics |

## Left out

- Varint.DecodeVarint: the bitwise or of disjoint bits is an addition, as the lower bits always are below the shift.
- Buffers.DecodeDelim: `ErrInvalidLength` and `ErrUnexpectedEOF` for a length that leads past the end are one error, because which of the two it is depends on the position of the field in the enclosing slice.
- Buffers.DecodeSkip: likewise for an unknown field that leads past the end.
- AppInfos.AppInfo.MarshalVT: memory is unlimited; only the sign of the size makes the allocation panic.
- Host.OnHttpReq: a plugin is a function of the context; plugins with a state of their own are modelled for NATS only.
- Nats.EndToEnd: after a call that traps the run goes on with the map it left; in the program the trap ends the instance.
- Resolve.LookupMessageType: `log.Fatal` is an ending of the call; its message is not modelled.
- Aliasing of decoded byte slices and strings with the input buffer, and `UnmarshalVTUnsafe`, which differs from `UnmarshalVT` in nothing else.
- The strict writers of the messages without a oneof, which are the same code as the others.
- A nil receiver or argument of the generated methods, a oneof wrapper around nil, and nil entries in the list of infos.
- `EqualMessageVT`, `CloneMessageVT`, reflection and descriptors.
- `ZmtpMessage` and its plugin: a smaller instance of the same codec.
- A host that reports more bytes than the buffer it was given, or a negative number.
- Logging; the JSON converter; the template of the code generator and its handling of options and files, apart from the two parts of a `go_package`.
- `check_payload`, hook bitmaps and `GetPayload`: short bit packing and caching that would only add easy members.
- The other example plugins: glue over libraries for DNS, JSON, HTTP and compression, or fixed headers in front of code that is not in the repository.
