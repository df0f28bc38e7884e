# HiSysEvent write path: model and proofs

HiSysEvent is the client side of the OpenHarmony system-event logger. This project models the
code between a caller's write and the log socket, and the small codecs and state machines around
it, and proves what they guarantee.

| file | what it models |
|---|---|
| `bytes.dfy`, `sequences.dfy` | byte strings, little-endian numbers, zero padding, C strings; sequences without duplicates |
| `varint.dfy` | the tagged varint (5 bits, then 7 bits a byte) and zigzag, with a decoder |
| `raw_data.dfy` | the growable buffer with append and update in place |
| `wire_format.dfy` | the bytes of parameters and a decoder for them |
| `raw_data_encoder.dfy`, `encoded_param.dfy` | the encoders that append to a buffer |
| `event_format.dfy`, `event_base.dfy` | the message layout with a decoder, and the object that builds it |
| `string_filter.dfy` | string escaping and the name automaton |
| `hisysevent.dfy`, `c_params.dfy`, `def.dfy` | which pairs of a write get into the message, and its return code, for the variadic and the C entry |
| `read_back.dfy` | what a reader gets back of a caller's values |
| `event_socket_factory.dfy` | reading the header back to choose a socket |
| `easy_event.dfy` | the second writer with its fixed 1120-byte buffer |
| `lru_cache.dfy`, `write_controller.dfy`, `rate_bound.dfy` | the rate limiter over a 30-entry cache |
| `transport.dfy`, `transport_protocol.dfy` | sending with a retry queue: one call, and threads that interleave |
| `write_event.dfy` | the whole call: limiter, message, send |
| `callback_protocol.dfy`, `ani_callback_manager.dfy` | the callback managers: interleaved steps, and the recursive variant |
| `flat_json.dfy` | the flat JSON parser, printer and decorator |
| `event_names.dfy` | the join of event names in Rust, their split into slots, and the reading of the slots |

The main results:

- **A message means one thing.** The log service's own decoder is not in the repository, so
  `event_format.dfy` has one. Any write with valid names that the limiter lets through yields bytes
  that decode to exactly the header, trace block and selected parameters (`HiSysEvents.Write`,
  `EventWriter.Write`). The second writer's bytes decode with the same decoder to the named fields
  (`EasyEvents.EasyWriter.HiSysEventEasyWrite`), and both encoders agree byte for byte
  (`EasyEvents.TwoEncodersAgree`).
- **The cached limiter is the ideal limiter that forgets** a key exactly when 30 or more others
  were called since (`WriteController.CacheRefinesIdeal`). For a period of P seconds and a
  threshold of T, P + 1 seconds accept at most 2 * max(1, T) - 1 events, and with P = 0 at most
  max(1, T) (`RateBound.WindowBound`); for every P and T some history accepts that many
  (`RateBound.WindowBoundReached`). After the clock was set back, calls are accepted and counted
  from there (`WriteController.ClockBackAccepts`, `WriteController.CycleCounts`).
- **No event is lost or sent twice** by the retry queue in any interleaving, except that the oldest
  of ten waiting is dropped (`TransportProtocol.Conservation`). How many attempts a call makes, and
  what it leaves in the queue, is stated on the answers of the kernel (`Transport.Sender.SendData`,
  `Transport.AttemptMeaning`, `Transport.RetryMeaning`, `Transport.TriesMeaning`).
- **Callbacks run one at a time, in order, exactly once**, and none that can run is left behind
  (`CallbackProtocol.Serialised`, `CallbackProtocol.SettlesWithAllRun`). After a release at most one
  more task runs, the front of the queue, and one can run exactly when it was posted, started, or
  past the last look at the release flag (`CallbackProtocol.AtMostOneRunsAfterRelease`,
  `CallbackProtocol.RunsAfterReleaseIff`).
- **Printing and escaping are undone** by parsing and unescaping (`FlatJson`, `StringFilters`). What
  the parser makes of texts that nobody printed, the unclosed ones included, is stated pair by pair
  (`FlatJson.PairReads`, `FlatJson.EndReads`).
- **The layout is the documented one**: round trips would not notice two fields that trade places,
  so the offsets and the bytes of small values are stated literally (`EventFormat.MessageFields`,
  `WireFormat.SmallFormsAre`, `WireFormat.TypeBytesAre`, `Varint.FirstForms`).

Where the code does less than one might expect, the exact limit is proved:

- A value arrives unchanged exactly when its numbers are finite, its texts have no byte that
  escaping drops, it has at most 100 items and is no empty array of another kind than signed
  numbers (`ReadBack.ValueArrivesIff`); a whole list of pairs exactly when moreover there are at
  most 128 and their keys are valid (`ReadBack.PairsArriveIff`). A text that is longer than the
  limit is warned about, but not cut.
- Releasing the callback manager swaps its queue without the mutex. At every point of every run,
  a release is safe exactly when no runner is between its first look at the release flag and the
  read of the front, and no add between its look and the push (`CallbackProtocol.RaceFreeReleaseIff`).
  A caller cannot see where these threads are; what it can make sure of is that no add and no
  completion is under way, and exactly then every release is safe (`CallbackProtocol.CallerRule`).
- Event names of a query are copied into uninitialised slots without a terminator. They come back
  exactly when there are at most ten and the old bytes of the slots happen to end each of them
  (`EventNames.NamesComeBackIff`), and a list with more than ten that fit is written behind the
  slots (`EventNames.OutsideIff`).
- The bound on accepted events holds up to a time exactly when the 64-bit sum of period and seconds
  does not wrap around by then, or the threshold exceeds what any history can reach
  (`RateBound.WindowBoundIff`); after a wrap-around every call is accepted
  (`RateBound.WrapAroundAccepts`).
- The flat parser looks only at one byte before a quote, so it reads an escaped text back exactly
  when the text does not end in a backslash (`FlatJson.EscapedLiteralReads`).
- The two bits for the event type carry exactly the types 1 to 4
  (`EventSocketFactory.RoutingOfMessage`).

Conventions: a byte is a number below 256, a string is a byte sequence, and a float is its 4-byte
or 8-byte memory image. Masks and shifts are remainders and quotients; `Varint.BitForm` and
`Zigzag.BitForm` connect the two. Whether an allocation of a size succeeds is a parameter
(`canAlloc`), so failing appends are part of the model. Numbers that the outside world decides (time,
process and user ids, time zone, trace ids, the results of `socket` and `sendto`) are parameters.

## Model

| member | source | states |
|---|---|---|
| Varint.RoundTrip | interfaces/native/innerkits/hisysevent/include/raw_data_encoder.h:57-77 | Decoding an encoded value gives back the tag and the value and leaves exactly the bytes that follow it, for every tag 0 to 3, every value and every continuation |
| Varint.PrefixFree | interfaces/native/innerkits/hisysevent/include/raw_data_encoder.h:57-77 | No encoding is a prefix of the encoding of another tag or value |
| Varint.Minimal | interfaces/native/innerkits/hisysevent/include/raw_data_encoder.h:57-77 | Of all byte strings that the decoder reads as a given tag and value, the encoder picks the only shortest one |
| Varint.Length | interfaces/native/innerkits/hisysevent/include/raw_data_encoder.h:57-77 | An encoding takes at most 1 + n bytes exactly when the value is below 32 * 128^n |
| Varint.LengthBounds | interfaces/native/innerkits/hisysevent/include/raw_data_encoder.h:57-77 | One byte exactly below 32, at most two exactly below 4096, at most ten for every 64-bit value |
| Varint.FirstForms | interfaces/native/innerkits/hisysevent/include/raw_data_encoder.h:57-77 | The bytes of all values below 2^19: the tag in the two highest bits of the first byte, then the flag that more follows and the five lowest bits; then groups of seven bits, the lower one first |
| Varint.BitForm | interfaces/native/innerkits/hisysevent/include/raw_data_encoder.h:57-77 | The masks, shifts and ors of the source are the remainders, quotients and sums of the model on 64-bit words |
| Zigzag.EncodeValue | interfaces/native/innerkits/hisysevent/include/raw_data_encoder.h:81-88 | The wrapping shift-and-xor of a signed 64-bit value is 2v for v >= 0 and -2v - 1 below zero, the minimum included |
| Zigzag.Bijection | interfaces/native/innerkits/hisysevent/include/raw_data_encoder.h:81-88 | The zigzag code and its decoder are inverse to each other on all of int64 and uint64 |
| Zigzag.VarintRoundTrip | interfaces/native/innerkits/hisysevent/include/raw_data_encoder.h:81-88 | A signed value survives zigzag, varint encoding and both decoders, whatever bytes follow |
| Zigzag.NarrowWidths | interfaces/native/innerkits/hisysevent/include/raw_data_encoder.h:81-88 | For 8, 16, 32 and 64 bits, the code of a signed integer is that of its sign-extended 64-bit pattern, so all widths give the same bytes; bool is the 8-bit pattern 0 or 1 |
| Zigzag.BitForm | interfaces/native/innerkits/hisysevent/include/raw_data_encoder.h:81-88 | On 64-bit words the left shift doubles and the xor with all ones complements |
| RawDataBuffer.SpliceAt | interfaces/native/innerkits/hisysevent/raw_data.cpp:122-161 | Which byte is at each position after a write at a position: the new one inside the written range, the old one elsewhere |
| RawDataBuffer.RawData.constructor | interfaces/native/innerkits/hisysevent/raw_data.cpp:36-44 | A new buffer is empty with 128 bytes of room, or without memory when the allocation fails |
| RawDataBuffer.RawData.Copy | interfaces/native/innerkits/hisysevent/raw_data.cpp:46-70 | A copy has memory of its own and the same contents; an empty source is copied to a buffer of 128 bytes |
| RawDataBuffer.RawData.Update | interfaces/native/innerkits/hisysevent/raw_data.cpp:122-161 | Writing at a position inside the contents splices the bytes in and grows the buffer when needed; it fails exactly for a null source, a position behind the end, a missing buffer, a refused allocation, or an empty copy behind the last byte of the allocated block, and then changes nothing. The invariant it keeps says that the length fits the capacity and spare room is at most the larger of 128 and the longest write |
| RawDataBuffer.RawData.Grow | interfaces/native/innerkits/hisysevent/raw_data.cpp:134-150 | Reallocation gives exactly the wanted capacity and keeps the contents |
| RawDataBuffer.RawData.CopyInto | interfaces/native/innerkits/hisysevent/raw_data.cpp:151-156 | The copy of bytes into the block overwrites the range at the position and nothing else, and is refused at the end of the block |
| RawDataBuffer.RawData.Append | interfaces/native/innerkits/hisysevent/raw_data.cpp:109-115 | Bytes are added at the end, an empty append always succeeds without a change, and a failure keeps the contents |
| RawDataBuffer.RawData.GetDataLength | interfaces/native/innerkits/hisysevent/raw_data.cpp:168-171 | The length is that of the abstract contents |
| RawDataBuffer.RawData.IsEmpty | interfaces/native/innerkits/hisysevent/raw_data.cpp:117-120 | True exactly when there are no contents |
| RawDataEncoder.UnsignedVarintEncoded | interfaces/native/innerkits/hisysevent/include/raw_data_encoder.h:57-77 | The byte loop appends exactly the varint of tag and value to the buffer; on failure only a prefix of it was appended |
| RawDataEncoder.SignedVarintEncoded | interfaces/native/innerkits/hisysevent/include/raw_data_encoder.h:81-88 | Appends exactly the varint of the zigzag code |
| RawDataEncoder.LengthDelimited | interfaces/native/innerkits/hisysevent/raw_data_encoder.cpp:36-47 | Appends exactly the length varint followed by the bytes; a failure leaves a prefix |
| RawDataEncoder.ItemEncoded | interfaces/native/innerkits/hisysevent/include/raw_data_encoder.h:92-102 | A number or text item of any kind is appended as its own wire form, floats as their length and memory image |
| RawDataEncoder.ValueTypeEncoded | interfaces/native/innerkits/hisysevent/raw_data_encoder.cpp:49-60 | Appends the one packed byte of array flag, value type and count |
| EncodedParams.Finite | interfaces/native/innerkits/hisysevent/include/encoded_param.h:203-206 | A float is kept exactly when its image, read as a number without the sign bit, is below 0x7F800000 (0x7FF0000000000000 for a double); infinities and NaNs become positive zero; the kind never changes |
| EncodedParams.FloatBits | interfaces/native/innerkits/hisysevent/include/encoded_param.h:203-206 | Exponent bits that are not all ones mean a number below that of infinity |
| EncodedParams.DoubleBits | interfaces/native/innerkits/hisysevent/include/encoded_param.h:240-253 | The same for the eleven exponent bits of a double |
| EncodedParams.EncodedParam.constructor | interfaces/native/innerkits/hisysevent/include/encoded_param.h:90-100 | A parameter stores its key and its value, arrays cut to the first 100 items and non-finite floats zeroed |
| EncodedParams.EncodedParam.SetRawData | interfaces/native/innerkits/hisysevent/encoded_param.cpp:45-48 | Points the parameter at a buffer |
| EncodedParams.EncodedParam.Encode | interfaces/native/innerkits/hisysevent/encoded_param.cpp:58-62 | Key, type byte and value are appended in that order; without a buffer it fails, on a failure half way only a prefix of the parameter was appended, and success is recorded |
| EncodedParams.EncodedParam.EncodeKey | interfaces/native/innerkits/hisysevent/encoded_param.cpp:64-74 | Appends the key as a text and nothing else |
| EncodedParams.EncodedParam.EncodeValueType | interfaces/native/innerkits/hisysevent/include/encoded_param.h:208-221 | Appends the type byte that belongs to the stored value |
| EncodedParams.EncodedParam.EncodeValue | interfaces/native/innerkits/hisysevent/include/encoded_param.h:270-280 | Appends the stored value: an item as it is, an array as its count and then its items |
| EncodedParams.EncodedParam.EncodeItems | interfaces/native/innerkits/hisysevent/include/encoded_param.h:335-345 | The item loop appends the items in order and stops appending after the first failure |
| WireFormat.ItemRoundTrip | interfaces/native/innerkits/hisysevent/include/encoded_param.h:73-79 | Every item reads back from its bytes, whatever follows |
| WireFormat.SmallFormsAre | interfaces/native/innerkits/hisysevent/include/raw_data_encoder.h:57-102 | The bytes of small numbers, short texts and floats, literally: a number below 32 is its own byte, 64 plus the length starts a text, 68 a float and 72 a double |
| WireFormat.TypeBytesAre | interfaces/native/innerkits/hisysevent/raw_data_encoder.cpp:49-60 | The type byte of every kind, literally: twice the kind number 8 to 12, plus one for an array |
| WireFormat.ParamFormIs | interfaces/native/innerkits/hisysevent/encoded_param.cpp:58-74 | A parameter is the length and the bytes of its key, its type byte, and its value |
| WireFormat.ArrayFormIs | interfaces/native/innerkits/hisysevent/include/encoded_param.h:270-280 | An array is its size and then its items one behind the other |
| WireFormat.ValueRoundTrip | interfaces/native/innerkits/hisysevent/include/encoded_param.h:102-120 | The type byte and the value bytes of every scalar and array read back to that value, with the rest untouched |
| WireFormat.ParamRoundTrip | interfaces/native/innerkits/hisysevent/include/encoded_param.h:55-349 | Every parameter reads back from its bytes, whatever follows |
| WireFormat.ParamsRoundTrip | interfaces/native/innerkits/hisysevent/include/encoded_param.h:55-349 | A parameter list of any length reads back in order, whatever follows |
| EventFormat.HeaderRoundTrip | interfaces/native/innerkits/hisysevent/include/raw_data_base_def.h:44-74 | All fields of the packed 80-byte header read back, the 2-bit type and the trace flag included |
| EventFormat.TraceRoundTrip | interfaces/native/innerkits/hisysevent/include/raw_data_base_def.h:76-88 | The 17-byte trace block reads back |
| EventFormat.TraceFields | interfaces/native/innerkits/hisysevent/include/raw_data_base_def.h:76-88 | Flag, trace id, span id and parent span id stand at bytes 0, 1, 9 and 13 of the trace block |
| EventFormat.MessageFields | interfaces/native/innerkits/hisysevent/include/raw_data_base_def.h:44-88 | Every field of a message stands at its offset: size at 0, domain at 4, name at 21, time at 54, zone at 62, uid at 63, pid at 67, tid at 71, id at 75, type and trace flag in byte 83, then the trace block if any and the count |
| EventFormat.LayoutRoundTrip | interfaces/native/innerkits/hisysevent/hisysevent.cpp:90-135 | A message with any stored block size decodes to that size, its header, trace block and parameters, and leaves what follows it |
| EventFormat.MessageRoundTrip | interfaces/native/innerkits/hisysevent/hisysevent.cpp:79-151 | A whole message decodes to its header, trace block and parameters with no byte left, and its block size is its length modulo 2^32 |
| EventFormat.MessageInjective | interfaces/native/innerkits/hisysevent/hisysevent.cpp:79-151 | Equal messages have equal headers, trace blocks and parameters |
| EventBases.EventBase.constructor | interfaces/native/innerkits/hisysevent/hisysevent.cpp:41-67 | A bad domain, then a bad name, sets its error code; otherwise the header holds domain, name, time and the type in two bits |
| EventBases.EventBase.SetRetCode | interfaces/native/innerkits/hisysevent/hisysevent.cpp:74-77 | Sets the return code and nothing else |
| EventBases.EventBase.GetParamCnt | interfaces/native/innerkits/hisysevent/hisysevent.cpp:137-140 | The counter is the number of parameters accepted so far |
| EventBases.EventBase.WritebaseInfo | interfaces/native/innerkits/hisysevent/hisysevent.cpp:90-135 | The buffer gets the fixed layout of an event without parameters, or the write error is set |
| EventBases.EventBase.AppendFixedPart | interfaces/native/innerkits/hisysevent/hisysevent.cpp:113-134 | Size placeholder, header, optional trace block and count are appended in that order, and the place of the count is recorded |
| EventBases.EventBase.AppendSizeAndHeader | interfaces/native/innerkits/hisysevent/hisysevent.cpp:113-122 | A zero size and the header are appended |
| EventBases.EventBase.AppendTrace | interfaces/native/innerkits/hisysevent/hisysevent.cpp:123-128 | The trace block is appended exactly when tracing is open |
| EventBases.EventBase.AppendCount | interfaces/native/innerkits/hisysevent/hisysevent.cpp:129-134 | The count is appended and its position remembered |
| EventBases.EventBase.AppendParam | interfaces/native/innerkits/hisysevent/hisysevent.cpp:79-88 | A parameter is counted exactly when all its bytes are appended; otherwise a prefix of them stays in the buffer, which needs a failed allocation. The layout invariant is kept |
| EventBases.EventBase.GetEventRawData | interfaces/native/innerkits/hisysevent/hisysevent.cpp:142-151 | Back-patching writes the length and the count of complete parameters, changes no other byte and never the length; without a lost parameter the contents are the message of the header, trace block and accepted parameters |
| EventBases.Patched | interfaces/native/innerkits/hisysevent/hisysevent.cpp:142-151 | Splicing length and count into a laid-out buffer gives exactly the message |
| HiSysEvents.CheckKey | interfaces/native/innerkits/hisysevent/hisysevent.cpp:153-159 | Success exactly for a valid parameter name |
| HiSysEvents.IsWarnAndUpdate | interfaces/native/innerkits/hisysevent/hisysevent.cpp:203-210 | A code other than success becomes the return code; success changes nothing |
| HiSysEvents.CheckParamValidity | interfaces/native/innerkits/hisysevent/include/hisysevent.h:376-385 | A pair passes exactly when its key is valid and fewer than 128 parameters were accepted, and otherwise leaves the warning of the first failed check |
| HiSysEvents.CheckValue | interfaces/native/innerkits/hisysevent/include/hisysevent.h:397-411 | Oversized values are warned about but still written; strings are escaped and an empty vector becomes an empty signed array |
| HiSysEvents.CheckTexts | interfaces/native/innerkits/hisysevent/include/hisysevent.h:732-745 | Every string of a vector is escaped in order, and the last length warning wins |
| HiSysEvents.WritePair | interfaces/native/innerkits/hisysevent/include/hisysevent.h:413-420 | One pair adds exactly its parameter if accepted and nothing if not, and leaves its last warning |
| HiSysEvents.AppendGiven | interfaces/native/innerkits/hisysevent/include/hisysevent.h:546-551 | The parameter made of a key and a value is appended, and without a failed allocation the list grows by exactly it |
| HiSysEvents.InnerWrite | interfaces/native/innerkits/hisysevent/include/hisysevent.h:413-745 | The recursion over the pairs accepts exactly the first valid-key pairs up to 128, in order, and the code is the last warning of the list, never negative |
| HiSysEvents.Write | interfaces/native/innerkits/hisysevent/include/hisysevent.h:353-374 | Names are rejected first; a missing message means a failed allocation; otherwise the bytes decode to exactly the header, the trace block and the selected parameters with nothing left, and the code is the last warning or success |
| EventWriter.Write | interfaces/native/innerkits/hisysevent/include/hisysevent.h:271-292 | The whole call: exactly a call the limiter discards returns the high-frequency code; such a call and one with a bad name touch neither socket nor retry queue; any other makes a message that decodes to what was passed, which is delivered or queued once behind a prefix of the queue, and the code is the last warning or the error of the send |
| ReadBack.RecoverIsLeft | interfaces/native/innerkits/hisysevent/include/hisysevent.h:413-745 | Escaping, cutting and zeroing composed: what a reader gets of any value is the value with dropped bytes gone, non-finite numbers zero, at most 100 items, and every empty array signed |
| ReadBack.ValueArrivesIff | interfaces/native/innerkits/hisysevent/include/hisysevent.h:397-411 | A value comes back unchanged if and only if its numbers are finite, its texts have no byte that escaping drops, it has at most 100 items and is no empty array of another kind |
| ReadBack.WrittenAlikeIff | interfaces/native/innerkits/hisysevent/include/encoded_param.h:55-349 | Two values are written as the same bytes if and only if the same is left of them |
| ReadBack.PairsArriveIff | interfaces/native/innerkits/hisysevent/include/hisysevent.h:353-374 | A reader of a written message gets exactly the pairs of the caller if and only if there are at most 128, all keys are valid and all values arrive |
| HiSysEvents.SelectedStep | interfaces/native/innerkits/hisysevent/include/hisysevent.h:376-385 | First-128-of-the-valid-pairs is what one-at-a-time acceptance selects |
| HiSysEvents.SelectedLength | interfaces/native/innerkits/hisysevent/hisysevent.cpp:212-219 | Never more than 128 parameters, and all valid pairs when there are at most 128 |
| HiSysEvents.WarningsMeaning | interfaces/native/innerkits/hisysevent/hisysevent.cpp:153-175 | A pair has no warning exactly when it is accepted and within the limits; warnings are the codes 1 to 4, so never negative |
| HiSysEvents.WarningIs | interfaces/native/innerkits/hisysevent/hisysevent.cpp:153-219 | Which code a pair leaves: 1 for a bad key, then 3 for a full message, then 2 for a text that is too long and 4 for an array that is, the text last |
| HiSysEvents.NoWarningMeaning | interfaces/native/innerkits/hisysevent/hisysevent.cpp:153-219 | A whole list has no warning exactly when every key is valid, every value is within its limits and the total is at most 128 |
| HiSysEvents.LengthWarningsMeaning | interfaces/native/innerkits/hisysevent/hisysevent.cpp:161-167 | A string vector has no length warning exactly when every string has at most 256 * 1024 bytes |
| CParams.AppendParam | interfaces/native/innerkits/hisysevent/hisysevent.cpp:537-555 | One C parameter adds at most its own parameter and leaves its last warning; an unusable one adds nothing and warns |
| CParams.InnerWrite | interfaces/native/innerkits/hisysevent/hisysevent.cpp:527-535 | The C array entry selects the same parameters as the variadic one does for the usable pairs, and the code is the last warning |
| CParams.SameWarnings | interfaces/native/innerkits/hisysevent/hisysevent.cpp:251-519 | For usable parameters, the C path and the variadic path give the same warnings in the same order |
| CParams.PairsConcat | interfaces/native/innerkits/hisysevent/hisysevent.cpp:527-555 | Parameter by parameter, in order: exactly one with a tag from 1 to 24 and no null pointer stands for its pair |
| CParams.TagKindIs | interfaces/native/innerkits/hisysevent/hisysevent.cpp:540-549 | Tags 1, 2, 4, 6 and 8 are signed, 3, 5, 7 and 9 unsigned, then float, double and string, and twelve further on the arrays of them |
| EventSocketFactory.ParseEventInfo | interfaces/native/innerkits/hisysevent/event_socket_factory.cpp:99-110 | The header reader yields the fields at their fixed places in the buffer |
| EventSocketFactory.GetEventSocket | interfaces/native/innerkits/hisysevent/event_socket_factory.cpp:113-120 | The fast socket is chosen exactly for the priority predicate on the parsed fields |
| EventSocketFactory.FastEventsIff | interfaces/native/innerkits/hisysevent/event_socket_factory.cpp:52-97 | The events of the fast socket are exactly the listed pairs of domain and name, and the faults of one domain |
| EventSocketFactory.ReadInfoIs | interfaces/native/innerkits/hisysevent/event_socket_factory.cpp:99-110 | Domain and name are the bytes from 4 and from 21 on up to a NUL, and the type is the two lowest bits of byte 83 plus one |
| EventSocketFactory.ShortDataIsNotFast | interfaces/native/innerkits/hisysevent/event_socket_factory.cpp:99-120 | Data shorter than a header goes to the normal socket |
| EventSocketFactory.HeaderReadBack | interfaces/native/innerkits/hisysevent/event_socket_factory.cpp:99-110 | Whatever parameters, trace block or bytes follow, the reader recovers domain, name and the stored type plus one |
| EventSocketFactory.RoutingOfMessage | interfaces/native/innerkits/hisysevent/event_socket_factory.cpp:74-120 | The type survives its two bits exactly for 1 to 4, and then the routing of the built bytes equals that of the original domain, name and type |
| EasyEvents.MemoryInit | interfaces/native/innerkits/hisysevent_easy/easy_util.c:24-35 | A null pointer is refused; otherwise the byte loop zeroes exactly the first bytes of the array |
| EasyEvents.MemoryCopy | interfaces/native/innerkits/hisysevent_easy/easy_util.c:37-50 | The byte loop copies the whole source; a null pointer or too little room is refused and changes nothing |
| EasyEvents.EncodeUnsignedVarint | interfaces/native/innerkits/hisysevent_easy/easy_event_encoder.c:42-63 | With enough room it writes the same varint as the growing encoder; without, it fails after a prefix. It never writes at or past the bound nor before the offset |
| EasyEvents.EncodeValueType | interfaces/native/innerkits/hisysevent_easy/easy_event_encoder.c:65-77 | Writes the type byte, or fails at a full buffer |
| EasyEvents.EncodeStringValue | interfaces/native/innerkits/hisysevent_easy/easy_event_encoder.c:79-98 | Writes length and bytes of the string, or fails inside the bound |
| EasyEvents.AppendHeader | interfaces/native/innerkits/hisysevent_easy/easy_event_builder.c:34-46 | Writes the 80 header bytes at the offset or nothing |
| EasyEvents.AppendStringParam | interfaces/native/innerkits/hisysevent_easy/easy_event_builder.c:48-76 | A missing or over-long value is refused without a change; otherwise key, type and value are written in the wire form, or a prefix inside the bound; earlier bytes are kept on every outcome |
| EasyEvents.TwoEncodersAgree | interfaces/native/innerkits/hisysevent_easy/easy_event_builder.c:48-76 | When the fixed-buffer encoder succeeds, its bytes equal those the growing-buffer string parameter appends for the same key and raw string |
| EasyEvents.BufferBound | interfaces/native/innerkits/hisysevent_easy/include/easy_def.h:19 | The used size is 94 plus the varint length plus the data length; it is at most 1120 exactly for data of at most 1024 bytes and 1120 exactly at 1024 |
| EasyEvents.EasyRoundTrip | interfaces/native/innerkits/hisysevent_easy/hisysevent_easy.c:156-184 | The buffer decodes, with the decoder of the other writer, to its header and one string parameter, followed by zeros up to 1120 bytes |
| EasyEvents.EasyReadBack | interfaces/native/innerkits/hisysevent_easy/hisysevent_easy.c:144-191 | Both readers of the full buffer, the decoder and the one that chooses a socket, find the header and the text |
| EasyEvents.EasyWriter.constructor | interfaces/native/innerkits/hisysevent_easy/hisysevent_easy.c:120-120 | The cached process id starts at zero |
| EasyEvents.EasyWriter.InitEventHeader | interfaces/native/innerkits/hisysevent_easy/hisysevent_easy.c:122-142 | A domain or name longer than its field is a memory error before anything is read; otherwise the real process id is read only once, and for lengths within the limits the header is valid; what its fields are is stated of the sent bytes by the writing method |
| EasyEvents.EasyWriter.Assemble | interfaces/native/innerkits/hisysevent_easy/hisysevent_easy.c:156-184 | Assembly fails only for a bad value; otherwise the whole 1120-byte buffer is as specified |
| EasyEvents.EasyWriter.PutInt32 | interfaces/native/innerkits/hisysevent_easy/hisysevent_easy.c:156-179 | A 32-bit number is stored little-endian at the offset and nothing else changes |
| EasyEvents.EasyWriter.HiSysEventEasyWrite | interfaces/native/innerkits/hisysevent_easy/hisysevent_easy.c:144-191 | Arguments are refused in the order domain, name, type, data; with good arguments no assembly step fails and the code is that of the socket. The sent bytes decode to a header with exactly the given domain and name, the time, zone, uid, process id and thread id of the process, id 0, the type less one and no trace, and to the text under DATA; the reader that chooses a socket finds domain, name and type |
| LruCache.EventWroteLruCache.constructor | interfaces/native/innerkits/hisysevent/write_controller.cpp:74-79 | A new cache is empty |
| LruCache.EventWroteLruCache.Get | interfaces/native/innerkits/hisysevent/write_controller.cpp:84-94 | A hit returns the record and moves the key to the front; a miss returns an empty record and changes nothing |
| LruCache.EventWroteLruCache.Put | interfaces/native/innerkits/hisysevent/write_controller.cpp:95-115 | The record is stored and the key is in front; a new key in a full cache evicts exactly the last one; capacity zero stores nothing. List, map and stored iterators stay consistent |
| LruCache.EventWroteLruCache.Modify | interfaces/native/innerkits/hisysevent/write_controller.cpp:118-122 | Splicing the stored iterator to the front moves that key and keeps the order of the others |
| LruCache.SpliceFront | interfaces/native/innerkits/hisysevent/write_controller.cpp:118-122 | After the splice every stored iterator still points at the node with its own key, and records are unchanged |
| LruCache.PushFront | interfaces/native/innerkits/hisysevent/write_controller.cpp:110-114 | A new front node linked with its key keeps list and map in step |
| LruCache.DropLast | interfaces/native/innerkits/hisysevent/write_controller.cpp:106-109 | Erasing the key of the last node and popping it keeps list and map in step |
| LruCache.WithoutNode | interfaces/native/innerkits/hisysevent/write_controller.cpp:118-122 | Taking one node out takes exactly its key out of the key order |
| LruCache.StepConsistent | interfaces/native/innerkits/hisysevent/write_controller.cpp:84-122 | No get or put creates duplicates, lets list and map differ, or exceeds the capacity |
| LruCache.TouchCached | interfaces/native/innerkits/hisysevent/write_controller.cpp:118-122 | Moving a cached key to the front gives the most recently touched keys of the longer history |
| LruCache.TouchNew | interfaces/native/innerkits/hisysevent/write_controller.cpp:106-114 | Pushing a new key and dropping the last gives the most recently touched keys of the longer history |
| LruCache.MostRecentIsUnique | interfaces/native/innerkits/hisysevent/write_controller.cpp:74-129 | A history has only one list of most recently touched keys, so the specification fixes the list completely |
| LruCache.ContentsAfterRun | interfaces/native/innerkits/hisysevent/write_controller.cpp:74-129 | After any sequence of gets and puts, the list is the most recently touched keys of the history up to the capacity, newest first, the map has the same keys, and each record is the last one put for its key |
| WriteController.Controller.constructor | interfaces/native/innerkits/hisysevent/write_controller.cpp:131-131 | The limiter starts with an empty cache of 30 entries |
| WriteController.Controller.CheckLimitWritingEvent | interfaces/native/innerkits/hisysevent/write_controller.cpp:140-167 | Verdict and new record are those of the cycle rule applied to the cached record, 64-bit wrap-around included |
| WriteController.CachedIffRecent | interfaces/native/innerkits/hisysevent/write_controller.cpp:84-122 | A key is cached exactly when it was called and fewer than 30 different other keys were called since |
| WriteController.CacheHoldsIdealRecords | interfaces/native/innerkits/hisysevent/write_controller.cpp:140-167 | After any calls the cache holds exactly the keys that the ideal limiter remembers, with its records |
| WriteController.CacheRefinesIdeal | interfaces/native/innerkits/hisysevent/write_controller.cpp:140-167 | On every sequence of calls, the verdict is that of an unbounded per-key limiter that forgets a key when 30 or more other keys were called since |
| WriteController.StartsCycle | interfaces/native/innerkits/hisysevent/write_controller.cpp:144-150 | For all histories: a call whose key was forgotten, or which lies before or more than a period behind all earlier calls of its key, is accepted and leaves the record of a new cycle |
| WriteController.ClockBackAccepts | interfaces/native/innerkits/hisysevent/write_controller.cpp:148-150 | A call is accepted when all earlier calls of its key have a later second, whatever the histories of other keys |
| WriteController.CycleCounts | interfaces/native/innerkits/hisysevent/write_controller.cpp:144-166 | The following calls of the key within the period count from that start, and are accepted exactly while their number is within the threshold |
| WriteController.RecordsAreFromCalls | interfaces/native/innerkits/hisysevent/write_controller.cpp:140-167 | Every record carries the time of some call of its key |
| RateBound.KeyRecordIsIdeal | interfaces/native/innerkits/hisysevent/write_controller.cpp:140-167 | For a key that is never forgotten, the limiter acts on that key as if it were alone and never forgot |
| RateBound.AcceptedIsCount | interfaces/native/innerkits/hisysevent/write_controller.cpp:144-166 | The events the limiter accepted in the current cycle of a key number the stored count, cut at max(1, T) |
| RateBound.CycleBound | interfaces/native/innerkits/hisysevent/write_controller.cpp:144-166 | A cycle accepts at most max(1, T) events, and the limiter discards an event if and only if its cycle goes on and has accepted that many |
| RateBound.WindowBound | interfaces/native/innerkits/hisysevent/write_controller.cpp:144-166 | Any P + 1 consecutive seconds accept at most 2 * max(1, T) - 1 events, and with P = 0 at most max(1, T) |
| RateBound.WindowBoundReached | interfaces/native/innerkits/hisysevent/write_controller.cpp:144-166 | For every period and threshold, and every start that keeps times and counts in 64 bits, a history that accepts exactly that many |
| RateBound.WrapAroundAccepts | interfaces/native/innerkits/hisysevent/write_controller.cpp:144-145 | When the 64-bit sum of the cycle test wraps around, any number of calls at one time are all accepted |
| RateBound.WindowBoundIff | interfaces/native/innerkits/hisysevent/write_controller.cpp:144-166 | Up to any latest time, the bound holds of all histories if and only if the sum fits 64 bits at that time, or the threshold exceeds what any history can reach |
| Transport.Kernel.constructor | interfaces/native/innerkits/hisysevent/transport.cpp:82-111 | Nothing was delivered before the first call |
| Transport.Kernel.Socket | interfaces/native/innerkits/hisysevent/transport.cpp:86-90 | Opening a socket succeeds or fails as the outside world decides, and delivers nothing |
| Transport.Kernel.SendTo | interfaces/native/innerkits/hisysevent/transport.cpp:95-101 | A send delivers its data once or not at all |
| Transport.Sender.constructor | interfaces/native/innerkits/hisysevent/transport.cpp:57-60 | The retry queue starts empty |
| Transport.Sender.SendToHiSysEventDataSource | interfaces/native/innerkits/hisysevent/transport.cpp:82-111 | Success means delivered exactly once, any other code not at all; the code and the number of system calls are those of one attempt on the answers of the kernel |
| Transport.Sender.AddFailedData | interfaces/native/innerkits/hisysevent/transport.cpp:113-120 | The event is appended; of ten the oldest is dropped |
| Transport.Sender.RetrySendFailedData | interfaces/native/innerkits/hisysevent/transport.cpp:122-132 | A prefix of the queue is delivered in order, and exactly that prefix leaves it; how long it is follows from the answers of the kernel |
| Transport.Sender.SendData | interfaces/native/innerkits/hisysevent/transport.cpp:134-158 | Empty and oversized data change nothing; otherwise a prefix of the queue is delivered, then the event is delivered on success and queued on failure, never both. The length of the prefix, the code and the number of system calls follow from the answers of the kernel; a kernel that refuses nothing empties the queue and gets the event |
| Transport.AttemptMeaning | interfaces/native/innerkits/hisysevent/transport.cpp:82-111 | One attempt stops at an answer that says sent, at a permanent error, or at the third temporary one, and never before; without a socket nothing is sent |
| Transport.RetryMeaning | interfaces/native/innerkits/hisysevent/transport.cpp:122-132 | Queued events are left only when the last attempt was refused; when none is, none is left |
| Transport.TriesMeaning | interfaces/native/innerkits/hisysevent/transport.cpp:146-155 | An event is given up exactly after the given number of refused attempts in a row, and sent at the first that is not refused |
| Transport.WillingRefusesNothing | interfaces/native/innerkits/hisysevent/transport.cpp:82-111 | A kernel that opens every socket and sends everything refuses no attempt |
| TransportProtocol.LockStep | interfaces/native/innerkits/hisysevent/transport.cpp:113-132 | In every interleaving, only the lock holder is inside the retry loop, and its copy is the front of the queue |
| TransportProtocol.QueueStep | interfaces/native/innerkits/hisysevent/transport.cpp:113-158 | Every step keeps the log of failed events equal to those that left the queue followed by the queue, at most ten, without duplicates |
| TransportProtocol.DeliveredStep | interfaces/native/innerkits/hisysevent/transport.cpp:122-158 | Every step keeps the delivered events free of duplicates and equal to the direct and the retried successes |
| TransportProtocol.RunInv | interfaces/native/innerkits/hisysevent/transport.cpp:113-158 | All of this holds in every reachable state of any number of threads |
| TransportProtocol.Conservation | interfaces/native/innerkits/hisysevent/transport.cpp:113-158 | Every event is in exactly one place: being tried, delivered once, waiting, or dropped as oldest; success means delivered and not queued |
| TransportProtocol.QueueOrder | interfaces/native/innerkits/hisysevent/include/transport.h:49-52 | At most ten events wait, in the order of their failure, and events leave only at the front |
| TransportProtocol.DropsOnlyWhenFull | interfaces/native/innerkits/hisysevent/transport.cpp:113-120 | Only an add to a full queue drops an event, and it is the oldest |
| TransportProtocol.SomeStepEnabled | interfaces/native/innerkits/hisysevent/transport.cpp:122-158 | No deadlock: while a call is unfinished, some unfinished call can take a step |
| TransportProtocol.CallIsARun | interfaces/native/innerkits/hisysevent/transport.cpp:134-158 | What the sending method promises of one call, for any number of retried events and either result, is what a run of the steps of one thread does |
| CallbackProtocol.LockStep | interfaces/js/kits/napi/src/js_callback_manager.cpp:93-151 | Every step keeps the mutex with the one thread that is inside its section |
| CallbackProtocol.RunnerKeeps | interfaces/js/kits/napi/src/js_callback_manager.cpp:123-151 | Every access of a runner keeps the front task in place, or ends it idle or with exactly that task in flight |
| CallbackProtocol.TokenStep | interfaces/js/kits/napi/src/js_callback_manager.cpp:40-151 | Every step of adder, loop and releasing thread keeps at most one permission to run a task, and the flag set while it is held |
| CallbackProtocol.QueueStep | interfaces/js/kits/napi/src/js_callback_manager.cpp:93-151 | Until a release, every step keeps the tasks added equal to those popped followed by the queue, and those run equal to the popped ones, plus the front once it ran |
| CallbackProtocol.RunInv | interfaces/js/kits/napi/src/js_callback_manager.cpp:40-151 | All three hold in every reachable state, with the releasing thread acting between any two accesses, under the mutex or not |
| CallbackProtocol.Serialised | interfaces/js/kits/napi/src/js_callback_manager.cpp:40-151 | In every run at most one task is in flight, the shared context holds the front task meanwhile, tasks run exactly once in the order added, and a quiet manager has run everything up to a front without context |
| CallbackProtocol.NothingAfterRelease | interfaces/js/kits/napi/src/js_callback_manager.cpp:101-107 | After a task with a release function of its own no step runs or posts a task |
| CallbackProtocol.NothingAfterReleaseRun | interfaces/js/kits/napi/src/js_callback_manager.cpp:101-107 | The same for every continuation of a run |
| CallbackProtocol.OwnReleaseIsLast | interfaces/js/kits/napi/src/js_callback_manager.cpp:101-107 | In every interleaving, released or not: a task with a release function of its own is the last one that runs, and when all is quiet that function has been called exactly if there was such a task |
| CallbackProtocol.AtMostOneRunsAfterRelease | interfaces/js/kits/napi/src/js_callback_manager.cpp:117-151 | Whatever follows a release, at most one more task runs: the front of the queue, and only if it was posted, started, or past the last look at the flag; without such a task nothing is posted any more |
| CallbackProtocol.RunsAfterReleaseIff | interfaces/js/kits/napi/src/js_callback_manager.cpp:117-151 | Some continuation of a release runs a task if and only if one was posted, started, or past the last look at the flag |
| CallbackProtocol.UnderMutex | interfaces/js/kits/napi/src/js_callback_manager.cpp:129-146 | Under the mutex, against a release: an empty queue is not popped, popping or reading a queue that became empty is a fault, and a release that is seen there leaves the calling flag unset |
| CallbackProtocol.Progress | interfaces/js/kits/napi/src/js_callback_manager.cpp:123-151 | Every internal step lowers a measure, so the manager falls quiet when nothing is added |
| CallbackProtocol.NotQuietCanStep | interfaces/js/kits/napi/src/js_callback_manager.cpp:93-151 | No deadlock: as long as it is not quiet an internal step is possible |
| CallbackProtocol.SettlesWithAllRun | interfaces/js/kits/napi/src/js_callback_manager.cpp:40-151 | However the threads are scheduled without new calls: after boundedly many steps none is left, the manager is quiet, and without a release every task that can run has run, so no wakeup is lost |
| CallbackProtocol.FaultFreeReleaseIff | interfaces/js/kits/napi/src/js_callback_manager.cpp:117-140 | At every point of every run, a release can never lead to a pop or a read of an empty queue if and only if no runner is between its first look at the release flag and the read of the front |
| CallbackProtocol.RaceFreeReleaseIff | interfaces/js/kits/napi/src/js_callback_manager.cpp:93-140 | And its swap never meets another use of the queue if and only if moreover no add is between its look at the flag and the push |
| CallbackProtocol.CallerRule | interfaces/js/kits/napi/src/js_callback_manager.cpp:93-157 | In terms of what a caller can know: a release is safe in every run exactly when no add and no completion is under way |
| CallbackProtocol.ReleaseUnderMutexFaults | interfaces/js/kits/napi/src/js_callback_manager.cpp:134-140 | A complete run in which a release comes between the test for an empty queue and the read of its front, both under the mutex, and that read faults |
| AniCallbackManagers.DrainRunsPrefix | interfaces/ets/ani/hisysevent/src/ani_callback_manager.cpp:75-104 | Draining runs a prefix of the queue in order, stops at the first task without context or after the first with its own release, and keeps the rest |
| AniCallbackManagers.AniCallbackManager.constructor | interfaces/ets/ani/hisysevent/src/ani_callback_manager.cpp:45-67 | A new manager is idle |
| AniCallbackManagers.AniCallbackManager.Add | interfaces/ets/ani/hisysevent/src/ani_callback_manager.cpp:45-67 | A released manager ignores the task; after an own release the task is only queued; otherwise the queue with the task is drained and the manager is idle again or finished |
| AniCallbackManagers.AniCallbackManager.Release | interfaces/ets/ani/hisysevent/src/ani_callback_manager.cpp:69-73 | The manager is released and the queue empty |
| AniCallbackManagers.AniCallbackManager.ImmediateRun | interfaces/ets/ani/hisysevent/src/ani_callback_manager.cpp:75-104 | A released manager runs nothing; otherwise the recursion through the release function drains the queue, without its front when it has to pop, and clears the flag unless finished |
| AniCallbackManagers.AniCallbackManager.RunCallback | interfaces/ets/ani/hisysevent/src/ani_callback_manager.cpp:32-43 | Runs the front task in its context and then everything behind it |
| StringFilters.EscapeRoundTrip | interfaces/native/innerkits/hisysevent/stringfilter.cpp:79-96 | Unescaping the escaped text gives the text without unsupported control bytes and 0x7F; the output is a legal JSON string body (section 7 of RFC 8259, ASCII rules) of at most twice the length |
| StringFilters.EscapeOfByte | interfaces/native/innerkits/hisysevent/stringfilter.cpp:33-50 | The escape of every byte, literally: seven escapes, the bytes that stay, and the control bytes that are dropped |
| StringFilters.EscapeConcat | interfaces/native/innerkits/hisysevent/stringfilter.cpp:79-96 | Escaping works byte by byte |
| StringFilters.PrintableIff | interfaces/native/innerkits/hisysevent/stringfilter.cpp:79-96 | A text comes back whole if and only if every byte is at least 0x20 and not 0x7F, or one of backspace, tab, line feed, form feed and carriage return |
| StringFilters.NamesAre | interfaces/native/innerkits/hisysevent/stringfilter.cpp:52-118 | Names in character codes: A to Z and a to z, then also 0 to 9 and the underscore |
| StringFilters.StringFilter.constructor | interfaces/native/innerkits/hisysevent/stringfilter.cpp:33-77 | Both tables are built to their meaning |
| StringFilters.StringFilter.GetInstance | interfaces/native/innerkits/hisysevent/stringfilter.cpp:120-123 | The instance has both tables |
| StringFilters.StringFilter.BuildCharTable | interfaces/native/innerkits/hisysevent/stringfilter.cpp:35-50 | The loops leave each byte with its escape, itself, or nothing |
| StringFilters.StringFilter.BuildStateTable | interfaces/native/innerkits/hisysevent/stringfilter.cpp:52-76 | A name starts with a letter and goes on with letters, digits and underscores; all else stops |
| StringFilters.StringFilter.MarkRun | interfaces/native/innerkits/hisysevent/stringfilter.cpp:57-75 | A range loop marks exactly its range of one state row |
| StringFilters.StringFilter.MarkStop | interfaces/native/innerkits/hisysevent/stringfilter.cpp:52-56 | The first loop resets one state row |
| StringFilters.StringFilter.EscapeToRaw | interfaces/native/innerkits/hisysevent/stringfilter.cpp:79-96 | The table-driven loop computes the escaped text |
| StringFilters.StringFilter.IsValidName | interfaces/native/innerkits/hisysevent/stringfilter.cpp:98-118 | The automaton accepts exactly the non-empty names of at most the given length |
| FlatJson.PrintParseRoundTrip | frameworks/native/json_flatten_parser.cpp:57-83 | Parsing the plain print of any list of quote-free keys with number, string or balanced bracket values returns the list |
| FlatJson.ValueReads | frameworks/native/json_flatten_parser.cpp:100-179 | Each such value is read whole and exactly, a string or a bracket text whatever follows, a number when no number byte follows |
| FlatJson.PairReads | frameworks/native/json_flatten_parser.cpp:57-129 | In any text, with anything but quotes before a key and any skipped bytes before its value: the pair is read exactly, and the reader goes on right behind the value |
| FlatJson.EndReads | frameworks/native/json_flatten_parser.cpp:85-179 | How a text can end: no pair without a quote, an empty value for a key that is not closed or has none, and an unclosed string or bracket with the NUL behind the end of the text |
| FlatJson.FlagsAre | frameworks/native/json_flatten_parser.cpp:38-49 | The byte classes, literally |
| FlatJson.NumberTextIff | frameworks/native/json_flatten_parser.cpp:131-142 | A number is any non-empty text of digits, signs and points |
| FlatJson.BodyReads | frameworks/native/json_flatten_parser.cpp:144-158 | A string whose inner quotes follow backslashes is read whole exactly when its end is not taken for an escape |
| FlatJson.BracketReads | frameworks/native/json_flatten_parser.cpp:160-179 | A bracket text is read up to its own closing bracket |
| FlatJson.EscapedLiteralReads | frameworks/native/json_flatten_parser.cpp:144-158 | The literal of an escaped text is read back whole if and only if the printable text does not end in a backslash |
| FlatJson.StripDecorated | frameworks/native/hisysevent_json_decorator.cpp:152-171 | Without its colour codes a decorated pair is the plain pair, for every validity |
| FlatJson.MarksShow | frameworks/native/hisysevent_json_decorator.cpp:152-171 | Where the colour codes of a marked pair stand: around the key inside its quotes, or around the value; every other byte is that of the plain pair |
| FlatJson.StripDecoratedPrint | frameworks/native/hisysevent_json_decorator.cpp:152-171 | Without its colour codes the decorated print of escape-free text is the plain print |
| FlatJson.JsonFlattenParser.constructor | frameworks/native/json_flatten_parser.cpp:51-55 | The pairs of the text are parsed at construction |
| FlatJson.JsonFlattenParser.Initialize | frameworks/native/json_flatten_parser.cpp:38-49 | The filter table classifies the first byte of every value |
| FlatJson.JsonFlattenParser.Parse | frameworks/native/json_flatten_parser.cpp:57-70 | On every text the cursor loop ends with the pairs that the grammar function reads |
| FlatJson.JsonFlattenParser.ParseKv | frameworks/native/json_flatten_parser.cpp:61-69 | One round of the loop reads one pair and moves forward |
| FlatJson.JsonFlattenParser.ParseKey | frameworks/native/json_flatten_parser.cpp:85-98 | The key is the text up to the next quote or the end |
| FlatJson.JsonFlattenParser.ParseValue | frameworks/native/json_flatten_parser.cpp:100-129 | Bytes that start no value are skipped, then the value is read by its first byte; at the end the value is empty |
| FlatJson.JsonFlattenParser.ParseFlagged | frameworks/native/json_flatten_parser.cpp:105-123 | The dispatch reads the value that belongs to the first byte |
| FlatJson.JsonFlattenParser.ParseNumer | frameworks/native/json_flatten_parser.cpp:131-142 | A number extends over all number bytes |
| FlatJson.JsonFlattenParser.ParseString | frameworks/native/json_flatten_parser.cpp:144-158 | A string extends to the first quote that does not follow a backslash; an unclosed one reads the one byte past the end |
| FlatJson.JsonFlattenParser.ParseBrackets | frameworks/native/json_flatten_parser.cpp:160-179 | A bracket value extends to its balancing bracket; an unclosed one reads the one byte past the end |
| FlatJson.JsonFlattenParser.Print | frameworks/native/json_flatten_parser.cpp:72-83 | The printing loop joins the handled pairs by commas inside braces |
| FlatJson.DecorateJsonStr | frameworks/native/hisysevent_json_decorator.cpp:223-233 | Without marks the text is returned unchanged; with marks, removing the colour codes from the result gives the original of any printed list |
| EventNames.TransSliceToArray | interfaces/rust/innerkits/src/utils.rs:19-29 | A NUL in the text panics; otherwise as much of it as fits is copied and the rest of the array is unchanged |
| EventNames.FillEventList | interfaces/rust/innerkits/src/sys_event_manager.rs:381-391 | The names joined by bars, cut to 339 bytes, zero-padded, and with them the number of names, cut to 339 as well |
| EventNames.BufferBytes | interfaces/rust/innerkits/src/utils.rs:19-29 | Byte by byte, the buffer holds the joined names as far as they fit and zeros behind them |
| EventNames.PanicsIff | interfaces/rust/innerkits/src/utils.rs:19-29 | The call panics exactly when some name holds a NUL; without names the rule is invalid |
| EventNames.CopyPiece | frameworks/native/c_wrapper/source/hisysevent_c_wrapper.cpp:52-60 | A piece overwrites the start of its slot without a terminator, and no other slot |
| EventNames.SplitStringToArray | frameworks/native/c_wrapper/source/hisysevent_c_wrapper.cpp:39-76 | The index loop fills the slots, in order, with the non-empty pieces of at most 33 bytes up to the given count, and changes nothing else; it writes behind the slots exactly when more pieces are stored than there are slots. With a count of zero the first piece in front of a bar is stored all the same |
| EventNames.PassEventList | frameworks/native/c_wrapper/source/hisysevent_rust_manager.cpp:55-62 | The whole way from the query in Rust through buffer and uninitialised slots to the list that is read: a panic, a write behind the slots, an invalid rule, or the C strings found at the slots |
| EventNames.PiecesOfJoin | interfaces/rust/innerkits/src/sys_event_manager.rs:389-390 | Splitting at bars inverts joining by bars |
| EventNames.JoinConcat | interfaces/rust/innerkits/src/sys_event_manager.rs:389-390 | The join of two lists is their joins with a bar between |
| EventNames.FittingConcat | frameworks/native/c_wrapper/source/hisysevent_c_wrapper.cpp:52-60 | Of the pieces, those of 1 to 33 bytes are kept, in order |
| EventNames.SplitOfJoin | frameworks/native/c_wrapper/source/hisysevent_c_wrapper.cpp:39-76 | The pieces stored of a join that fits are exactly its names of 1 to 33 bytes, up to the count; with a count of zero, the first of them that stands in front of a bar |
| EventNames.SplitInvertsJoin | frameworks/native/c_wrapper/source/hisysevent_c_wrapper.cpp:39-76 | The pieces stored of at most ten event names are these names |
| EventNames.NamesComeBackIff | frameworks/native/c_wrapper/source/hisysevent_rust_manager.cpp:59-61 | For every list of event names and all old contents of the ten slots: the list that is read is the list that was passed if and only if there are at most ten names and each is ended by the old contents: by a zero behind a name of at most 32 bytes; a name of 33 bytes only as the last one, before a slot that starts with zero |
| EventNames.LeftoversChangeName | frameworks/native/c_wrapper/source/hisysevent_rust_manager.cpp:59-61 | The name A in a first slot whose second byte is not zero does not come back as A |
| EventNames.OutsideIff | frameworks/native/c_wrapper/source/hisysevent_c_wrapper.cpp:52-60 | For any texts whose join fits: a piece is written behind the ten slots if and only if more than ten of them are non-empty and at most 33 bytes long |
| EventNames.ElevenNames | frameworks/native/c_wrapper/source/hisysevent_c_wrapper.cpp:52-60 | Eleven one-byte names are such a list |
| EventNames.ZeroSlots | frameworks/native/c_wrapper/source/hisysevent_rust_manager.cpp:59-61 | With slots of zeros, at most ten names of at most 32 bytes come back without the empty ones and with as many empty ones at the end; so unchanged if and only if no empty name stands before another |

## Left out

- HiSysEvents.Write: the limiter call before it and the send after it are in `EventWriter.Write`.
- HiSysEvents.InnerWrite: selects exactly the specified parameters when no allocation fails; after a failed one a part of a parameter may stay in the buffer.
- HiSysEvents.WritePair: exact when no allocation fails, as for the whole list.
- HiSysEvents.CheckValue: a null array pointer belongs to the C entry only and is modelled there.
- EventWriter.Write: says what the message means when no allocation fails; period and threshold, which are fixed when the caller is compiled, come with the call.
- CParams.InnerWrite: which parameters and which code is stated for runs in which no allocation fails.
- EventBases.EventBase.GetEventRawData: gives the exact message when every append before it succeeded.
- EventFormat.MessageRoundTrip: the stored block size is the length modulo 2^32, as the field has 32 bits.
- EncodedParams.EncodedParam.constructor: the parameter class templates are one class over a value with its kind; inheritance is not modelled, nor is the lazy encoding in the getter of the buffer.
- RawDataBuffer.RawData.Update: a copy refused for its size by the bounds-checked copy function is not modelled; that function is not part of the repository, and only its refusal of an empty destination range is.
- RawDataBuffer.RawData.Append: is always called with bytes; a null pointer is modelled in `Update` only.
- RawDataBuffer.RawData.Copy: the assignment operator, which keeps old contents when the source is empty, is not modelled.
- StringFilters.StringFilter.GetInstance: returns one more instance with the same tables for the static one.
- EasyEvents.EasyWriter.HiSysEventEasyWrite: the header struct is a value, its field copies are not byte loops, and the checks of steps that cannot fail are proved away.
- EasyEvents.EasyWriter.InitEventHeader: the time-zone lookup and the reading of the real process id are parameters.
- EventNames.SplitStringToArray: reports a write behind the slots and stops there; what such a write does to other memory is not modelled.
- EventNames.PassEventList: one rule of a query, without its domain and condition; what a read behind the ten slots finds is not modelled, only that it happens.
- EventNames.OutsideIff: for joins of at most 339 bytes; of longer ones `EventNames.PassEventList` says the same about the pieces of the cut text.
- AniCallbackManagers.AniCallbackManager.Add: a task without context is a caller's error unless the manager is released or finished, as the code reads the context then; a callback that adds to its own manager, a second adding thread and a release during a callback are not modelled.
- AniCallbackManagers.AniCallbackManager.RunCallback: a callback that releases its own manager is not modelled.
- CallbackProtocol.Serialised: one adder at a time and a working event loop; overlapping adds can both start a runner because the flag is set after the lock is left, and the early returns for a missing loop or failed work allocation are not modelled.
- CallbackProtocol.RaceFreeReleaseIff: one releasing thread at a time; the swap of the queue is one step, and a thread about to use the queue while a swap is due counts as a race.
- Transport.Sender.SendData: the answers of the kernel are a given sequence, one for each system call; socket options are not modelled.
- TransportProtocol.Conservation: one try to send, with its inner loop, is one step; the inner loop is in `Transport.Sender.SendToHiSysEventDataSource`.
- WriteController.Controller.CheckLimitWritingEvent: one call is one step; two threads between the get and the put of one key are not interleaved, and keys are given, so a hash collision is an equal key.
- WriteController.CycleCounts: for calls of one key with one period and threshold, as long as the 64-bit sum does not wrap around.
- RateBound.WindowBound: for a key that is never forgotten, with one period and threshold, non-decreasing non-zero times and fewer than 2^64 calls.
- FlatJson.PrintParseRoundTrip: `true`, `false`, `null` and numbers with exponents are read by the model as by the code, but are outside the lists that round-trip.
- Varint.BitForm: stated on bit-vectors; the link from bit-vectors to unbounded integers is Dafny's own.
- Sockets, socket options, error texts, log lines, clocks, `/proc` and hitrace.
- IPC, parcels, shared memory, access control and directories under `adapter/`: marshalling around unseen libraries.
- NAPI and ANI value conversion, Rust macros, C record conversion, and reference counts across the Rust boundary.
- Records and validity checks that need a JSON library, and the command-line tool.
- Domain masks, which are resolved at compile time.
