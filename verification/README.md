# Protocol and codec models

Four parts of the libraries under `my_testProj/Pods` are modelled here, with the promises their callers
rely on.

* `nanopb/` is the table-driven protobuf codec: wire primitives, descriptor tables and the structs they
  describe, the encoder with its sizing pass, the decoder with its substreams, and the field iterator.
  `PbEncode` and `PbDecode` give encoding and decoding as functions; `PbOutput`, `PbEncoder`, `PbInput`,
  `PbDecoder` and `PbIterator` are the loops over streams, proved to compute them; `PbEvolution`,
  `PbRemoval`, `PbTerminator`, `PbRoundTrip` and `PbMerge` have the laws: readers with other tables, unknown
  fields, round trip, concatenation; `PbFailure` what a failed decode leaves behind.
* `dtls/` is the DTLS handshake transport: reassembly in a ring of seven buffers with a bit mask each,
  sending a flight in packets with rollback, record numbers and epochs, and the replay window.
  `DtlsDelivery` and `DtlsFlight` put sender and receiver together over a network that loses, reorders,
  duplicates and mixes fragments.
* `tls/` is the TLS 1.2 output path (`TlsBuffer`, `TlsOutput`), the two handshake machines with their
  asynchronous retries and `ssl_run_handshake` (`TlsFlow`, `TlsEndpoint`, `TlsClient`, `TlsServer`),
  composed over two channels in any schedule (`TlsRun`), the server's cipher choice (`CipherChoice`) and
  the serialisation of sessions (`SessionAsn1`).
* `crypto/` is the reference count, the compare-and-exchange loops against the locked version.

Conventions. Code that updates state is a class or a method with its loop. Where several operations
share a meaning it is a function, and each method says that it computes it. What the outside decides —
what the transport takes, whether a seal or a decryption succeeds, what a callback answers — is chosen
without constraint, within the bounds the interface gives. Ghost fields keep what the code does not:
what went to the wire, what was sealed, which numbers were used. The `Valid` predicate of each class is
the invariant of every run over it. Dafny's automatic induction is switched off for every lemma, so each
induction is the recursion written in its body.

## Findings

* `PbRequired.CheckIsAllSeen`: the required-field check of `pb_decode_noinit` shifts a 32-bit word by
  `32 - (count & 31)`, so a count that is a non-zero multiple of 32, or above 63, is undefined whenever
  all whole words are full. `CheckRequired` therefore asks for the other counts.
* `PbTerminator.RoundTrip`: a string that fills its buffer is encoded, and then refused by the decoder,
  whose buffer must also hold the terminator. On a table on which the check of required fields is defined,
  a valid message round-trips exactly when it has no such string; on any other, the check after it is
  undefined (`PbEvolution.CheckDefinedExactly`).
* `PbFailure.LeavesValidExactly`: an array entry is counted, and a oneof arm selected, before its decoder
  runs. When that fails, the struct shows what memory held there: bytes whose size may be past
  `data_size`, or a string without an end (`BareTag`). If what memory held was within bounds, every member is.
* `PbWire.EndOfMessage`: a tag cut off at the end of the input, and a zero tag, both end a message normally.
* `DtlsReceiver.WindowTests`: the handshake number seven past the current one passes the first window
  test, meant to ignore it, and fails the connection in the second.
* `DtlsSender.Sender.SendFlight`: a seal that fails after others of the same packet leaves the cursor behind
  records that were never sent (`LostMessage` is such a flight), and nothing sent later in the pass makes
  up for them (`LostIsNeverMadeUp`). A pass is the whole flight exactly if no packet is given up with
  records in it; a retransmission starts over and is whole again.
* `TlsBuffer.SSLBuffer.ConsumeExactly`: the 16-bit offset of the write buffer wraps while a buffer that ends
  past 2^16 is consumed in parts, and the rest of it is then lost, unless the bytes happen to repeat. That
  takes a record, its overhead and a flight in front of it of 0xFFFA to 0xFFFF bytes together
  (`TlsOutput.Overlong`); more are refused, and with fewer order is kept.
* `TlsOutput.TlsWriter.WriteAppData`: a retry shorter than what was already flushed for it loses the count.
* `SessionAsn1.Parse`: a negative verify result is written and then refused by the parser.

## Model

| member | source | states |
|---|---|---|
| PbWire.VarintRoundTrip | my_testProj/Pods/nanopb/pb_encode.c:494-514 | `pb_decode_varint` undoes `pb_encode_varint` on every 64-bit value and leaves whatever follows it |
| PbWire.Varint32RoundTrip | my_testProj/Pods/nanopb/pb_decode.c:173-207 | the 32-bit decoder does so on every 32-bit value |
| PbWire.Varint32IsLowHalf | my_testProj/Pods/nanopb/pb_decode.c:173-229 | on any bytes at all, when the 32-bit decoder succeeds the 64-bit one uses the same bytes, and the 32-bit value is the low half of the 64-bit one |
| PbWire.VarintShape | my_testProj/Pods/nanopb/pb_encode.c:494-514 | what is written is a run of continued bytes and one last byte, and denotes the number |
| PbWire.VarintAppend | my_testProj/Pods/nanopb/pb_decode.c:209-229 | a varint that was read is not disturbed by more bytes behind it |
| PbWire.ZigZagBijection | my_testProj/Pods/nanopb/pb_encode.c:516-525 | zig-zag is a bijection between signed and unsigned 64-bit integers and sends small magnitudes to small codes |
| PbWire.UnZigZagValue | my_testProj/Pods/nanopb/pb_decode.c:1118-1130 | the decoder's shift-and-negate form of zig-zag has the arithmetic meaning |
| PbWire.LittleEndianRoundTrip | my_testProj/Pods/nanopb/pb_encode.c:527-551 | fixed32 and fixed64 read back as written |
| PbWire.EndOfMessage | my_testProj/Pods/nanopb/pb_decode.c:251-275 | a message ends exactly at bytes cut off inside a tag, or at a tag of zero; anything else is a tag or an error |
| PbWire.TagRoundTrip | my_testProj/Pods/nanopb/pb_encode.c:553-557 | a tag and wire type read back as written, for every non-zero tag |
| PbWire.SkipAppend | my_testProj/Pods/nanopb/pb_decode.c:231-287 | skipping a payload does not look behind it |
| PbWire.DelimitedRoundTrip | my_testProj/Pods/nanopb/pb_encode.c:592-598 | a delimited payload reads back as written, with what follows it |
| PbSchema.Find | my_testProj/Pods/nanopb/pb_common.c:78-95 | the field with a tag, or none exactly when the table has none |
| PbSchema.OffsetsApart | my_testProj/Pods/nanopb/pb_common.c:44-66 | different members never share an offset, except the arms of one oneof |
| PbSchema.ReqIndexOrder | my_testProj/Pods/nanopb/pb_common.c:65-70 | required fields are numbered 0, 1, 2, … in table order, each number once |
| PbSchema.ReqIndexOnto | my_testProj/Pods/nanopb/pb_common.c:65-70 | every number below the count belongs to a required field |
| PbSchema.CString | my_testProj/Pods/nanopb/pb_encode.c:739-763 | the buffer up to its first zero byte, or all of it if it has none; `StringLength` finds the same length |
| PbSchema.DefaultFromAt | my_testProj/Pods/nanopb/pb_decode.c:835-846 | after `pb_message_set_to_defaults` every member is at its default, whatever the struct held before |
| PbSchema.DefaultValid | my_testProj/Pods/nanopb/pb_decode.c:763-833 | the default struct is within its types and sizes |
| PbEncode.ValidEncodes | my_testProj/Pods/nanopb/pb_encode.c:451-473 | a valid struct always encodes |
| PbEncode.FixedPackedSize | my_testProj/Pods/nanopb/pb_encode.c:135-155 | the closed forms for the size of a packed array of fixed-width words agree with the encoding |
| PbDecode.LoopKeepsValid | my_testProj/Pods/nanopb/pb_decode.c:852-917 | whatever the bytes, what is decoded without an error is within its type and size: counts within `array_size`, bytes and strings within `data_size`, through any nesting; `PbFailure` has the rest |
| PbDecode.FieldKeepsValid | my_testProj/Pods/nanopb/pb_decode.c:356-429 | one field that decodes keeps its member valid |
| PbDecode.ValueKeepsValid | my_testProj/Pods/nanopb/pb_decode.c:1334-1356 | one item that decodes is valid for its field, submessages included |
| PbDecode.IntegerValid | my_testProj/Pods/nanopb/pb_decode.c:1165-1248 | an integer stored with the member's width and read back is in the member's range |
| PbFailure.LeavesValidExactly | my_testProj/Pods/nanopb/pb_decode.c:356-429 | `pb_decode` leaves every member within its type and size, on success and on failure and whatever the bytes, exactly if the memory behind counted entries and in unions was so before |
| PbFailure.LoopLeftValid | my_testProj/Pods/nanopb/pb_decode.c:852-917 | with such memory, wherever decoding stops, from any valid struct |
| PbFailure.SlotLeftValid | my_testProj/Pods/nanopb/pb_decode.c:356-429 | in one member: has flags, counts and which tags are set before the item is decoded |
| PbFailure.ValueLeftValid | my_testProj/Pods/nanopb/pb_decode.c:1165-1379 | in one item: integers are stored before they are compared, a size before the bytes are read, a terminator after |
| PbFailure.BareTag | my_testProj/Pods/nanopb/pb_decode.c:399-424 | a tag with nothing behind it: an array entry is counted, or a oneof arm selected, that was never written |
| PbFailure.InSubmessage | my_testProj/Pods/nanopb/pb_decode.c:1334-1356 | such bytes inside a submessage do the same to the message around it |
| PbFailure.CountsWithin | my_testProj/Pods/nanopb/pb_decode.c:374-413 | whatever memory held, an array of the message never counts more entries than it has |
| PbFailure.LoopLeftAgrees | my_testProj/Pods/nanopb/pb_decode.c:852-917 | where there is no error, what is left is what was decoded |
| PbEvolution.MessageRoundTrip | my_testProj/Pods/nanopb/pb_decode.c:852-967 | on a table on which the check of required fields is defined, a reader whose table is compatible with the writer's accepts every valid message of the writer and uses all its bytes, and every field it knows gets the writer's presence, count and live values, through any nesting, packed or not |
| PbEvolution.MessageOnto | my_testProj/Pods/nanopb/pb_decode.c:852-917 | the same for the loop, from any cleared struct and for any well-formed table |
| PbEvolution.CheckDefinedExactly | my_testProj/Pods/nanopb/pb_decode.c:919-950 | after such a message the check is defined exactly for an admitted count of required fields, and then passes |
| PbRoundTrip.EncodeThenDecode | my_testProj/Pods/nanopb/pb_encode.c:451-473 | `pb_encode` into a buffer and `pb_decode` from it, into a struct that may hold anything: exactly when every live string is terminated it succeeds, with the same has flags, which tags, counts and live values |
| PbRoundTrip.EncodeThenRead | my_testProj/Pods/nanopb/pb_decode.c:955-967 | the same with a reader that has another, compatible table |
| PbRoundTrip.ValidIsStored | my_testProj/Pods/nanopb/pb_encode.c:323-449 | a valid struct is one the running encoder can be given |
| PbTerminator.RoundTrip | my_testProj/Pods/nanopb/pb_encode.c:451-473 | on a table on which the check of required fields is defined, `pb_decode` accepts the encoding of a valid message exactly when every live string, at any depth, is terminated in its buffer, and then undoes `pb_encode`: same has flags, which tags, counts and live values in every field |
| PbRemoval.RemovalCompatible | my_testProj/Pods/nanopb/pb_decode.c:875-906 | removing any fields from a table, at any depth, and laying the offsets out again leaves a well-formed table that can read the old messages |
| PbRemoval.UnknownFieldsTransparent | my_testProj/Pods/nanopb/pb_decode.c:875-906 | a reader with such a table, if the check is defined on it, accepts every message of the writer and gets the same values in every field it has |
| PbRemoval.UnionsKept | my_testProj/Pods/nanopb/pb_common.c:30-61 | two fields share their place in the smaller struct exactly if they did before: arms of a oneof that stay, stay together |
| PbRemoval.ReducedWellFormed | my_testProj/Pods/nanopb/pb_common.c:23-77 | the smaller table is one the library accepts |
| PbTerminator.MessageFails | my_testProj/Pods/nanopb/pb_decode.c:1296-1340 | one unterminated string anywhere in a message, and the decoder refuses its encoding |
| PbTerminator.ValueFails | my_testProj/Pods/nanopb/pb_decode.c:1296-1379 | in an item, also through submessages |
| PbTerminator.TaggedFails | my_testProj/Pods/nanopb/pb_decode.c:399-429 | in an array, behind items that are read |
| PbEvolution.CompatSelf | my_testProj/Pods/nanopb/pb_encode.c:451-473 | every well-formed table is compatible with itself |
| PbEvolution.StringNeedsTerminator | my_testProj/Pods/nanopb/pb_encode.c:739-763 | a static string survives the round trip exactly when its terminator is inside its buffer; with all of `data_size` in use the decoder refuses it |
| PbEvolution.SkipValue | my_testProj/Pods/nanopb/pb_decode.c:277-287 | going by the wire type, the decoder skips exactly the payload the encoder wrote |
| PbEvolution.SkipField | my_testProj/Pods/nanopb/pb_decode.c:875-906 | a field the reader does not know leaves no trace |
| PbEvolution.ValueRoundTrip | my_testProj/Pods/nanopb/pb_decode.c:1165-1379 | the decoder of an item undoes its encoder, whatever follows |
| PbEvolution.LeafRoundTrip | my_testProj/Pods/nanopb/pb_encode.c:652-763 | the same for every leaf type, with the width of its member |
| PbEvolution.ArrayRoundTrip | my_testProj/Pods/nanopb/pb_encode.c:163-198 | an unpacked array, each item under its own tag, is read behind the items already there |
| PbEvolution.PackedRoundTrip | my_testProj/Pods/nanopb/pb_decode.c:374-398 | a packed array is read behind the items already there |
| PbEvolution.FieldRoundTrip | my_testProj/Pods/nanopb/pb_encode.c:271-349 | the whole encoding of a field the reader knows |
| PbEvolution.FieldsRoundTrip | my_testProj/Pods/nanopb/pb_decode.c:858-917 | field by field over the writer's table, known to the reader or not |
| PbMerge.LoopAppend | my_testProj/Pods/nanopb/pb_decode.c:858-917 | the loop over a ++ b goes through the state it has after a, when a ends on a field boundary |
| PbMerge.SeenAccumulates | my_testProj/Pods/nanopb/pb_decode.c:920-950 | which required fields were met before has no influence on what the loop does; it is only added to |
| PbMerge.MergeByConcatenation | my_testProj/Pods/nanopb/pb_decode.c:852-953 | decoding a ++ b is decoding b on top of the struct that a left, with the required check over both |
| PbMerge.DecodeTwice | my_testProj/Pods/nanopb/pb_decode.c:852-953 | when each part alone has its required fields, concatenating is decoding twice |
| PbMerge.LastOneWins | my_testProj/Pods/nanopb/pb_decode.c:362-372 | a single leaf or oneof arm, met again or followed by another arm of its union, leaves no trace: the loop goes on as if the first had not been there |
| PbMerge.ArraysAppend | my_testProj/Pods/nanopb/pb_decode.c:374-413 | a further occurrence of an array adds exactly what it would have given alone |
| PbMerge.SubmessagesMerge | my_testProj/Pods/nanopb/pb_decode.c:1334-1356 | two occurrences of a required or optional submessage leave what one occurrence with both bodies leaves |
| PbIterator.FieldIter.constructor | my_testProj/Pods/nanopb/pb_common.c:8-18 | the iterator starts at the first field |
| PbIterator.FieldIter.Begin | my_testProj/Pods/nanopb/pb_common.c:8-18 | true exactly when the table has a field; position, data pointer and required index are those of the first |
| PbIterator.FieldIter.Next | my_testProj/Pods/nanopb/pb_common.c:20-76 | one field on, or back to the first with false; data pointer and required index stay functions of the position (`Valid`) |
| PbIterator.FieldIter.FindTag | my_testProj/Pods/nanopb/pb_common.c:78-95 | from any position, stops at a field with the tag exactly if the table has one, and otherwise is back where it was |
| PbRequired.CheckIsAllSeen | my_testProj/Pods/nanopb/pb_decode.c:920-950 | for a count that is 0, or below 64 and no multiple of 32, the check passes exactly when every required field was met; for any other count the C expression is undefined exactly when all whole words are full |
| PbRequired.ThirtyTwoRequired | my_testProj/Pods/nanopb/pb_decode.c:947 | 32 required fields, all present, shift a 32-bit word by 32 |
| PbInput.IStream.constructor | my_testProj/Pods/nanopb/pb_decode.c:145-167 | a stream over a buffer |
| PbInput.IStream.Read | my_testProj/Pods/nanopb/pb_decode.c:91-123 | reads or skips exactly the bytes asked for, or fails |
| PbInput.IStream.ReadByte | my_testProj/Pods/nanopb/pb_decode.c:127-143 | reads one byte, or fails exactly at the end |
| PbInput.IStream.DecodeVarint | my_testProj/Pods/nanopb/pb_decode.c:209-229 | the loop of shifts computes the 64-bit varint of the specification and moves behind it |
| PbInput.IStream.DecodeVarint32 | my_testProj/Pods/nanopb/pb_decode.c:173-207 | the same for 32 bits, with its quick case |
| PbInput.IStream.DecodeMore32 | my_testProj/Pods/nanopb/pb_decode.c:181-203 | its loop |
| PbInput.IStream.DecodeSvarint | my_testProj/Pods/nanopb/pb_decode.c:1118-1130 | a varint undone by zig-zag |
| PbInput.IStream.DecodeFixed | my_testProj/Pods/nanopb/pb_decode.c:1132-1163 | four or eight bytes, least significant first |
| PbInput.IStream.SkipVarint | my_testProj/Pods/nanopb/pb_decode.c:231-240 | skips one run of continued bytes and the last |
| PbInput.IStream.SkipString | my_testProj/Pods/nanopb/pb_decode.c:242-249 | skips a length and that many bytes |
| PbInput.IStream.DecodeTag | my_testProj/Pods/nanopb/pb_decode.c:251-275 | a tag, a failure, or the end of the message, as specified |
| PbInput.IStream.SkipField | my_testProj/Pods/nanopb/pb_decode.c:277-287 | skips one payload by its wire type, as specified |
| PbInput.IStream.MakeSubstream | my_testProj/Pods/nanopb/pb_decode.c:322-335 | the substream is the delimited payload; its bytes are off the parent at once, and position + bytes_left is conserved over the two |
| PbInput.IStream.CloseSubstream | my_testProj/Pods/nanopb/pb_decode.c:337-350 | the parent goes on behind what the substream was given, used or not |
| PbDecoder.DecInteger | my_testProj/Pods/nanopb/pb_decode.c:1165-1248 | stores with the member's width and fails exactly when the value does not fit it; a failure leaves what `PbFailure` says |
| PbDecoder.DecBlob | my_testProj/Pods/nanopb/pb_decode.c:1262-1332 | bytes, strings and fixed-length bytes, within `data_size`, exactly as specified; a failure leaves what `PbFailure` says |
| PbDecoder.DecLeaf | my_testProj/Pods/nanopb/pb_decode.c:1165-1379 | every leaf decoder computes the specified parse; a failure leaves what `PbFailure` says |
| PbDecoder.MessageSetToDefaults | my_testProj/Pods/nanopb/pb_decode.c:835-846 | walking the iterator sets every member to its default |
| PbDecoder.FieldSetToDefault | my_testProj/Pods/nanopb/pb_decode.c:763-833 | one member of the struct, by its rule and type |
| PbDecoder.DecValue | my_testProj/Pods/nanopb/pb_decode.c:1334-1356 | one item, recursing into submessages over a substream; a failure leaves what `PbFailure` says |
| PbDecoder.DecodeField | my_testProj/Pods/nanopb/pb_decode.c:356-429 | one field computes the specified parse into its member; a failure leaves what `PbFailure` says |
| PbDecoder.DecodePacked | my_testProj/Pods/nanopb/pb_decode.c:374-398 | the loop over a packed array; a failure leaves what `PbFailure` says |
| PbDecoder.DecodeNext | my_testProj/Pods/nanopb/pb_decode.c:858-917 | one turn of the loop: tag, find, skip or decode; and what it leaves |
| PbDecoder.Mark | my_testProj/Pods/nanopb/pb_decode.c:908-913 | marks one required field in its word |
| PbDecoder.Run | my_testProj/Pods/nanopb/pb_decode.c:852-953 | `pb_decode_noinit` computes the specified decoding on any bytes, terminates on bytes_left, and on success position + bytes_left is what it was; the struct, also on failure, is the one `PbFailure` says |
| PbDecoder.CheckRequired | my_testProj/Pods/nanopb/pb_decode.c:920-950 | the check passes exactly when every required field was met |
| PbDecoder.CountRequired | my_testProj/Pods/nanopb/pb_decode.c:920-936 | the walk from any position to the end of the table finds the number of required fields |
| PbDecoder.CompareWords | my_testProj/Pods/nanopb/pb_decode.c:937-949 | the comparisons compute the check wherever it is defined |
| PbDecoder.DecodeMessage | my_testProj/Pods/nanopb/pb_decode.c:955-967 | `pb_decode`: the same from defaults |
| PbDecoder.DecodeDelimited | my_testProj/Pods/nanopb/pb_decode.c:969-982 | the same inside one delimited payload |
| PbOutput.OStream.FromBuffer | my_testProj/Pods/nanopb/pb_encode.c:74-89 | a stream of a given room |
| PbOutput.OStream.Sizing | my_testProj/Pods/nanopb/pb_encode.h:96-104 | a stream that only counts |
| PbOutput.OStream.Copy | my_testProj/Pods/nanopb/pb_encode.c:62-72 | the loop of the buffer writer puts the bytes in place and touches no others |
| PbOutput.OStream.Write | my_testProj/Pods/nanopb/pb_encode.c:91-109 | all of the bytes if they fit, or nothing and a failure |
| PbOutput.OStream.Count | my_testProj/Pods/nanopb/pb_encode.c:91-109 | counting without data |
| PbOutput.OStream.WriteVarint | my_testProj/Pods/nanopb/pb_encode.c:494-514 | the bytes of the specified varint |
| PbOutput.VarintBytes | my_testProj/Pods/nanopb/pb_encode.c:499-513 | the loop over the ten-byte buffer computes the specified varint |
| PbOutput.OStream.WriteSvarint | my_testProj/Pods/nanopb/pb_encode.c:516-525 | a zig-zag varint |
| PbOutput.OStream.WriteFixed | my_testProj/Pods/nanopb/pb_encode.c:527-551 | the little-endian bytes |
| PbOutput.OStream.WriteTag | my_testProj/Pods/nanopb/pb_encode.c:553-557 | a tag |
| PbOutput.OStream.WriteString | my_testProj/Pods/nanopb/pb_encode.c:592-598 | a length and the bytes |
| PbOutput.StepCompose | my_testProj/Pods/nanopb/pb_encode.c:91-109 | writes one after another are one write of the concatenation, also in when they fail |
| PbEncoder.WriteTagForField | my_testProj/Pods/nanopb/pb_encode.c:559-590 | the tag with the wire type of the field's type |
| PbEncoder.StringLength | my_testProj/Pods/nanopb/pb_encode.c:739-763 | the length loop finds the first zero byte within the buffer |
| PbEncoder.WriteNumber | my_testProj/Pods/nanopb/pb_encode.c:652-716 | every numeric encoder writes the specified bytes |
| PbEncoder.WriteItem | my_testProj/Pods/nanopb/pb_encode.c:652-776 | one item, recursing into submessages |
| PbEncoder.WriteSubmessage | my_testProj/Pods/nanopb/pb_encode.c:600-648 | the two passes agree: a submessage is written exactly as sized, and 'submsg size changed' never fires, at any depth |
| PbEncoder.WriteBody | my_testProj/Pods/nanopb/pb_encode.c:628-647 | the second pass on a window of exactly the size found |
| PbEncoder.WriteArray | my_testProj/Pods/nanopb/pb_encode.c:116-201 | an array, packed or not |
| PbEncoder.WritePacked | my_testProj/Pods/nanopb/pb_encode.c:129-173 | sizing, closed form or loop, and then the items |
| PbEncoder.PackedSize | my_testProj/Pods/nanopb/pb_encode.c:129-151 | the closed forms and the sizing pass give the length of the items |
| PbEncoder.WriteItems | my_testProj/Pods/nanopb/pb_encode.c:144-173 | the items of a packed array, sized or written |
| PbEncoder.WriteTagged | my_testProj/Pods/nanopb/pb_encode.c:163-198 | items each under its own tag |
| PbEncoder.WriteField | my_testProj/Pods/nanopb/pb_encode.c:271-349 | one field by its rule, defaults and absent members left out |
| PbEncoder.WriteMessage | my_testProj/Pods/nanopb/pb_encode.c:451-473 | `pb_encode` writes exactly the specified encoding, or fails exactly when that does not exist or not fit |
| PbEncoder.EncodedSize | my_testProj/Pods/nanopb/pb_encode.c:480-489 | the sizing pass returns the length of the encoding |
| PbEncoder.EncodeToBuffer | my_testProj/Pods/nanopb/pb_encode.c:451-489 | a real stream succeeds exactly when the size fits, then writes exactly that many bytes and touches no others |
| DtlsWire.ParseFragment | my_testProj/Pods/BoringSSL/ssl/d1_both.cc:459-473 | what is parsed is encodable, as long as its header says, and shorter input is left |
| DtlsWire.FragmentRoundTrip | my_testProj/Pods/BoringSSL/ssl/d1_both.cc:459-473 | parsing undoes writing, whatever follows |
| DtlsReassembly.FullMeansAll | my_testProj/Pods/BoringSSL/ssl/d1_both.cc:236-250 | the mask test holds exactly when every byte has been received |
| DtlsReassembly.HmFragment.constructor | my_testProj/Pods/BoringSSL/ssl/d1_both.cc:152-199 | a new buffer, its header rewritten as one whole fragment; an empty message needs no mask |
| DtlsReassembly.HmFragment.Mark | my_testProj/Pods/BoringSSL/ssl/d1_both.cc:211-251 | marks exactly the bits of a range across byte boundaries, and the mask goes when that completes the message |
| DtlsReassembly.HmFragment.SetBits | my_testProj/Pods/BoringSSL/ssl/d1_both.cc:211-234 | exactly the bits of a range are set, within one byte or across many |
| DtlsReassembly.HmFragment.CompleteParts | my_testProj/Pods/BoringSSL/ssl/d1_both.cc:408-424 | a complete buffer is its header and the message |
| DtlsReassembly.HmFragment.IsFull | my_testProj/Pods/BoringSSL/ssl/d1_both.cc:236-250 | the loop over the mask computes the test |
| DtlsReassembly.HmFragment.Accept | my_testProj/Pods/BoringSSL/ssl/d1_both.cc:391-403 | copies a fragment's bytes into place and marks them; nothing else of the message changes |
| DtlsReassembly.HmFragment.CompleteIsNull | my_testProj/Pods/BoringSSL/ssl/d1_both.cc:255-259 | a null mask stands for a complete message, and for nothing else |
| DtlsReceiver.FragmentKeepsWindow | my_testProj/Pods/BoringSSL/ssl/d1_both.cc:265-295 | whatever arrives, every occupied slot i holds a number in [read_seq, read_seq + 7) that is i modulo 7 |
| DtlsReceiver.RecordKeepsWindow | my_testProj/Pods/BoringSSL/ssl/d1_both.cc:297-406 | the same over all fragments of a record |
| DtlsReceiver.AdvanceKeepsWindow | my_testProj/Pods/BoringSSL/ssl/d1_both.cc:426-438 | the same when the current message is taken, across the wrap of the 16-bit number: then the ring is empty |
| DtlsReceiver.WindowTests | my_testProj/Pods/BoringSSL/ssl/d1_both.cc:380-385 | outside encryption a fragment beyond the window is an error exactly for the number read_seq + 7, which the first test lets through and the second rejects |
| DtlsReceiver.Receiver.constructor | my_testProj/Pods/BoringSSL/ssl/d1_both.cc:255-259 | an empty ring |
| DtlsReceiver.Receiver.IsCurrentMessageComplete | my_testProj/Pods/BoringSSL/ssl/d1_both.cc:255-259 | true exactly when the current slot is occupied and complete |
| DtlsReceiver.Receiver.GetIncoming | my_testProj/Pods/BoringSSL/ssl/d1_both.cc:265-295 | the buffer of the fragment's message, new or found, or an error exactly for a different type or length |
| DtlsReceiver.Receiver.OpenFragment | my_testProj/Pods/BoringSSL/ssl/d1_both.cc:356-403 | one fragment does to the ring exactly what is specified, with the same alert |
| DtlsReceiver.Receiver.AcceptInto | my_testProj/Pods/BoringSSL/ssl/d1_both.cc:387-403 | only the slot of the message changes |
| DtlsReceiver.Receiver.OpenHandshake | my_testProj/Pods/BoringSSL/ssl/d1_both.cc:297-406 | one record of fragments does exactly what is specified; an error leaves what the fragments before it did |
| DtlsReceiver.Receiver.GetMessage | my_testProj/Pods/BoringSSL/ssl/d1_both.cc:408-424 | the current message, if complete, with its bytes under the header of one fragment |
| DtlsReceiver.Receiver.NextMessage | my_testProj/Pods/BoringSSL/ssl/d1_both.cc:426-438 | the slot is freed and the number moves on |
| DtlsDelivery.HonestErrors | my_testProj/Pods/BoringSSL/ssl/d1_both.cc:356-403 | exactly which honest fragments end the connection: over the limit, not the current one under encryption, or seven ahead |
| DtlsDelivery.FragmentKeepsFaithful | my_testProj/Pods/BoringSSL/ssl/d1_both.cc:387-403 | the buffers hold nothing but the sender's bytes in their places |
| DtlsDelivery.CurrentIsSenders | my_testProj/Pods/BoringSSL/ssl/d1_both.cc:408-424 | a complete current message is the sender's |
| DtlsDelivery.DeliveredInOrder | my_testProj/Pods/BoringSSL/ssl/d1_both.cc:297-438 | over every run of arrivals and takes, under any limits that change on the way, and under loss, reordering, duplication and overlap, what was delivered is the sender's first messages, unaltered, in order, once each |
| DtlsDelivery.FeedCovers | my_testProj/Pods/BoringSSL/ssl/d1_both.cc:297-406 | what the receiver has of a message is what the fragments cover, whatever their order |
| DtlsDelivery.CompleteIffCovered | my_testProj/Pods/BoringSSL/ssl/d1_both.cc:234-250 | a message is complete exactly when fragments that mention it cover all its bytes |
| DtlsDelivery.CompleteIsSenders | my_testProj/Pods/BoringSSL/ssl/d1_both.cc:408-424 | and reads as the sender wrote it |
| DtlsDelivery.FeedSucceeds | my_testProj/Pods/BoringSSL/ssl/d1_both.cc:297-406 | honest fragments within window and limit never fail |
| DtlsDelivery.RecordIsFragments | my_testProj/Pods/BoringSSL/ssl/d1_both.cc:347-406 | a record does what its fragments do one by one in such a run, and fails behind them exactly if it holds more than fragments |
| DtlsDelivery.CoveredIsComplete | my_testProj/Pods/BoringSSL/ssl/d1_both.cc:203-250 | covering fragments complete a message also when the receiver had some of it before |
| DtlsSender.AfterIsCloser | my_testProj/Pods/BoringSSL/ssl/d1_both.cc:630-720 | a record that comes next in a flight leaves fewer messages, or as many and fewer bytes |
| DtlsSender.FollowAppend | my_testProj/Pods/BoringSSL/ssl/d1_both.cc:768-813 | continuing a flight composes over packets |
| DtlsSender.FollowIsCloser | my_testProj/Pods/BoringSSL/ssl/d1_both.cc:725-766 | a packet of records that follow each other makes progress |
| DtlsSender.FollowMonotone | my_testProj/Pods/BoringSSL/ssl/d1_both.cc:630-720 | the same records, where they fit in two places, lead from the earlier place to the earlier one |
| DtlsSender.LostIsNeverMadeUp | my_testProj/Pods/BoringSSL/ssl/d1_both.cc:734-739 | if records are passed over unsent, what is sent before and after them is never the flight up to the cursor; it is exactly if none are |
| DtlsSender.LostMessage | my_testProj/Pods/BoringSSL/ssl/d1_both.cc:725-766 | a flight of two messages that a failed seal makes into one |
| DtlsSender.PacketPassed | my_testProj/Pods/BoringSSL/ssl/d1_both.cc:768-813 | a packet that is taken keeps what was sent the flight up to the cursor, or short of it; one that is not leaves it short |
| DtlsSender.CarriesMore | my_testProj/Pods/BoringSSL/ssl/d1_both.cc:541-584 | a message with the next number keeps the flight the sender's messages, each once, none missing since the flight began |
| DtlsSender.NumberFresh | my_testProj/Pods/BoringSSL/ssl/dtls_record.cc:294-351 | the next number of the current or the previous epoch has not been used |
| DtlsSender.NumberedNextEpoch | my_testProj/Pods/BoringSSL/ssl/dtls_method.cc:97-107 | numbers stay unique when the epoch changes |
| DtlsSender.Sender.constructor | my_testProj/Pods/BoringSSL/ssl/d1_both.cc:500-509 | nothing queued, nothing sent |
| DtlsSender.Sender.ClearOutgoing | my_testProj/Pods/BoringSSL/ssl/d1_both.cc:500-509 | an empty flight at its start |
| DtlsSender.Sender.AddOutgoing | my_testProj/Pods/BoringSSL/ssl/d1_both.cc:541-580 | the message joins the flight of its epoch, or a new flight if the last one was complete; the flight has at most seven messages |
| DtlsSender.Sender.AddMessage | my_testProj/Pods/BoringSSL/ssl/d1_both.cc:511-584 | behind the messages of an unfinished flight, a message is queued as one whole fragment with the next number, and the number moves on |
| DtlsSender.Sender.AddChangeCipherSpec | my_testProj/Pods/BoringSSL/ssl/d1_both.cc:586-588 | a ChangeCipherSpec takes a place in the flight and no number |
| DtlsSender.Sender.SetWriteState | my_testProj/Pods/BoringSSL/ssl/dtls_method.cc:97-107 | the epoch moves on and its counters stay for retransmissions |
| DtlsSender.Sender.SealRecord | my_testProj/Pods/BoringSSL/ssl/dtls_record.cc:294-351 | each sealed record takes a number never used before, under its epoch, also when the packet is given up, until the last number of an epoch was used, which fails the call; it grows by at most the overhead |
| DtlsSender.Sender.SealNextMessage | my_testProj/Pods/BoringSSL/ssl/d1_both.cc:630-720 | the record is exactly what comes next in the flight, as much as fits; no progress and failure leave the cursor alone |
| DtlsSender.Sender.SealNextPacket | my_testProj/Pods/BoringSSL/ssl/d1_both.cc:725-766 | a packet holds records that continue the flight without gap or overlap, in at most the room, and makes strict progress; when a seal fails the cursor is exactly behind the records already in the packet |
| DtlsSender.Sender.UpdateMtu | my_testProj/Pods/BoringSSL/ssl/d1_both.cc:601-618 | the MTU ends up at least the minimum, unless querying is off |
| DtlsSender.Sender.SendFlight | my_testProj/Pods/BoringSSL/ssl/d1_both.cc:768-813 | blocked writes are rolled back: the cursor passes exactly the packets taken and the records of a packet given up to a failed seal; what was sent stays the flight up to the cursor exactly if there are none of these; no packet exceeds the MTU, and the loop ends |
| DtlsSender.Sender.SendPacket | my_testProj/Pods/BoringSSL/ssl/d1_both.cc:783-801 | the same for one turn of the loop |
| DtlsSender.Sender.FlushFlight | my_testProj/Pods/BoringSSL/ssl/d1_both.cc:815-820 | when it succeeds, the packets taken over all its attempts are the whole flight, in order, once each, exactly if no packet of this pass was given up with records in it |
| DtlsSender.Sender.RetransmitOutgoing | my_testProj/Pods/BoringSSL/ssl/d1_both.cc:822-831 | a new pass over the same flight; when it succeeds its packets are the whole flight, whatever failed before |
| DtlsFlight.PassCoversOnce | my_testProj/Pods/BoringSSL/ssl/d1_both.cc:630-813 | the records of a complete pass partition the flight: every byte of every message is in exactly one |
| DtlsFlight.FollowTimes | my_testProj/Pods/BoringSSL/ssl/d1_both.cc:630-813 | a run of records covers exactly what the cursor passes over, once |
| DtlsFlight.PiecesHonest | my_testProj/Pods/BoringSSL/ssl/d1_both.cc:676-698 | every record holds a true piece of one of the messages |
| DtlsFlight.FollowMentions | my_testProj/Pods/BoringSSL/ssl/d1_both.cc:676-698 | empty messages are sent too |
| DtlsFlight.MessageRebuilt | my_testProj/Pods/BoringSSL/ssl/d1_both.cc:297-438 | a receiver that got every piece of a message, among any honest fragments and whatever it had before, holds that message |
| DtlsFlight.FlightRebuilt | my_testProj/Pods/BoringSSL/ssl/d1_both.cc:297-438 | a complete pass over a flight, its records reordered, duplicated and mixed with other honest fragments, each epoch under its own limits, makes the receiver deliver exactly the sender's messages |
| DtlsFlight.StageDelivers | my_testProj/Pods/BoringSSL/ssl/d1_both.cc:297-438 | the same for the messages of one epoch |
| DtlsFlight.RecordIsPiece | my_testProj/Pods/BoringSSL/ssl/d1_both.cc:347-406 | a record of the sender does to the receiver what its piece does |
| DtlsFlight.SenderDelivers | my_testProj/Pods/BoringSSL/ssl/d1_both.cc:768-831 | whenever what a `Sender` sent in a pass is its whole flight, the receiver delivers every message of the sender, with no further assumption on the flight |
| DtlsFlight.Flush | my_testProj/Pods/BoringSSL/ssl/d1_both.cc:815-820 | so after a flush that succeeds with no record lost |
| DtlsFlight.Retransmit | my_testProj/Pods/BoringSSL/ssl/d1_both.cc:822-831 | and after any retransmission that succeeds |
| DtlsReplay.BitShl | my_testProj/Pods/BoringSSL/ssl/dtls_record.cc:155-175 | shifting the 64-bit map moves every bit, for every distance |
| DtlsReplay.ShiftTracks | my_testProj/Pods/BoringSSL/ssl/dtls_record.cc:160-169 | the shifted map tracks the same numbers under a greater maximum |
| DtlsReplay.SetTracks | my_testProj/Pods/BoringSSL/ssl/dtls_record.cc:171-174 | setting a bit adds exactly one number |
| DtlsReplay.ToU64 | my_testProj/Pods/BoringSSL/ssl/dtls_record.cc:128-136 | the loop computes the big-endian number |
| DtlsReplay.EpochOfNumber | my_testProj/Pods/BoringSSL/ssl/dtls_record.cc:225-231 | the two first bytes of the 64-bit number are the epoch |
| DtlsReplay.ReadState.constructor | my_testProj/Pods/BoringSSL/ssl/dtls_method.cc:89-91 | an empty window |
| DtlsReplay.ReadState.ShouldDiscard | my_testProj/Pods/BoringSSL/ssl/dtls_record.cc:140-150 | discards exactly the numbers recorded in this epoch and those 64 or more below the greatest, after any history |
| DtlsReplay.ReadState.Record | my_testProj/Pods/BoringSSL/ssl/dtls_record.cc:155-175 | adds exactly one number to the history the window tracks |
| DtlsReplay.ReadState.OpenRecord | my_testProj/Pods/BoringSSL/ssl/dtls_record.cc:177-272 | a record is delivered only if it is of the epoch, fresh and not stale, and then its number is recorded; no number is ever delivered twice until the epoch wraps (`Valid`) |
| DtlsReplay.ReadState.SetReadState | my_testProj/Pods/BoringSSL/ssl/dtls_method.cc:81-95 | the window starts over for the next epoch, and what was delivered stays delivered once |
| DtlsReplay.UnrepeatedRecord | my_testProj/Pods/BoringSSL/ssl/dtls_record.cc:225-259 | a fresh number of the current epoch was not delivered in any epoch before |
| TlsBuffer.SSLBuffer.constructor | my_testProj/Pods/BoringSSL/ssl/internal.h:1034-1084 | an empty buffer |
| TlsBuffer.SSLBuffer.Clear | my_testProj/Pods/BoringSSL/ssl/ssl_buffer.cc:39-45 | an empty buffer |
| TlsBuffer.SSLBuffer.EnsureCap | my_testProj/Pods/BoringSSL/ssl/ssl_buffer.cc:47-81 | more room with the same contents, or an error exactly above 0xFFFF |
| TlsBuffer.SSLBuffer.Move | my_testProj/Pods/BoringSSL/ssl/ssl_buffer.cc:57-81 | the new memory, wherever the allocator put it |
| TlsBuffer.SSLBuffer.Append | my_testProj/Pods/BoringSSL/ssl/ssl_buffer.cc:83-88 | the data goes behind the contents |
| TlsBuffer.SSLBuffer.Consume | my_testProj/Pods/BoringSSL/ssl/ssl_buffer.cc:90-97 | the contents lose exactly their front, as long as the end is within reach of the 16-bit offset |
| TlsBuffer.SSLBuffer.ConsumeExactly | my_testProj/Pods/BoringSSL/ssl/ssl_buffer.cc:90-97 | consuming any part leaves exactly the rest of the contents, for every part, exactly when the buffer ends within 2^16 or happens to repeat there the bytes its memory begins with |
| TlsBuffer.SSLBuffer.LastLost | my_testProj/Pods/BoringSSL/ssl/ssl_buffer.cc:90-97 | 0xFFFA bytes at offset 7: the last one is lost if all others go first |
| TlsOutput.FlowSeal | my_testProj/Pods/BoringSSL/ssl/s3_both.cc:135-165 | sealing into the flight keeps wire ++ write buffer ++ flight equal to the records sealed, in order |
| TlsOutput.FlowSend | my_testProj/Pods/BoringSSL/ssl/s3_both.cc:257-269 | so does sending any part of the flight |
| TlsOutput.FlowSent | my_testProj/Pods/BoringSSL/ssl/s3_both.cc:276-278 | and dropping a flight that was sent |
| TlsOutput.FlowFlushed | my_testProj/Pods/BoringSSL/ssl/ssl_buffer.cc:239-252 | and moving bytes from the write buffer to the wire |
| TlsOutput.FlowSplice | my_testProj/Pods/BoringSSL/ssl/s3_pkt.cc:254-266 | and moving the rest of the flight into the write buffer |
| TlsOutput.FlowAppend | my_testProj/Pods/BoringSSL/ssl/s3_pkt.cc:268-273 | and sealing behind it |
| TlsOutput.TlsWriter.constructor | my_testProj/Pods/BoringSSL/ssl/s3_both.cc:135-165 | nothing sealed, nothing queued |
| TlsOutput.TlsWriter.AddRecordToFlight | my_testProj/Pods/BoringSSL/ssl/s3_both.cc:135-165 | one record sealed behind the flight, whether or not some of the flight has been sent, or nothing |
| TlsOutput.TlsWriter.AddMessage | my_testProj/Pods/BoringSSL/ssl/s3_both.cc:184-205 | the handshake bytes sealed grow by the message, in records of at most `max_send_fragment`, or by a beginning of it if a seal fails |
| TlsOutput.TlsWriter.AddChangeCipherSpec | my_testProj/Pods/BoringSSL/ssl/s3_both.cc:207-218 | one record |
| TlsOutput.TlsWriter.AddAlert | my_testProj/Pods/BoringSSL/ssl/s3_both.cc:220-229 | one record |
| TlsOutput.TlsWriter.WriteSome | my_testProj/Pods/BoringSSL/ssl/ssl_buffer.cc:242-249 | one write moves any part of the buffer to the wire; the bytes are kept in order exactly if what is left is the rest, as it is if the buffer ends within 2^16 |
| TlsOutput.TlsWriter.FlushWriteBuffer | my_testProj/Pods/BoringSSL/ssl/ssl_buffer.cc:239-252 | any part of the write buffer goes to the wire, in order if the buffer ends within 2^16; it is empty exactly on success |
| TlsOutput.TlsWriter.DrainWriteBuffer | my_testProj/Pods/BoringSSL/ssl/ssl_buffer.cc:273-284 | the same for the whole state of the output path |
| TlsOutput.TlsWriter.WriteFlight | my_testProj/Pods/BoringSSL/ssl/s3_both.cc:257-269 | the loop that sends the flight |
| TlsOutput.TlsWriter.FlushFlight | my_testProj/Pods/BoringSSL/ssl/s3_both.cc:231-279 | after success everything sealed is on the wire, in seal order; a write buffer left from a blocked write goes first |
| TlsOutput.TlsWriter.WritePending | my_testProj/Pods/BoringSSL/ssl/s3_pkt.cc:202-218 | only a call that repeats type, length and, unless the buffer may move, address gets the memorised result, and only after the buffer is flushed |
| TlsOutput.TlsWriter.SpliceFlight | my_testProj/Pods/BoringSSL/ssl/s3_pkt.cc:254-266 | the rest of the flight is moved once, in front |
| TlsOutput.TlsWriter.SealIntoBuffer | my_testProj/Pods/BoringSSL/ssl/s3_pkt.cc:268-273 | one record behind what is in the buffer, or nothing |
| TlsOutput.TlsWriter.FillWriteBuffer | my_testProj/Pods/BoringSSL/ssl/s3_pkt.cc:236-273 | order is kept also when sealing fails after the flight has moved; the buffer ends within 2^16 unless record, overhead and flight make 0xFFFA to 0xFFFF bytes |
| TlsOutput.TlsWriter.DoWrite | my_testProj/Pods/BoringSSL/ssl/s3_pkt.cc:221-289 | nothing or one record is sealed; a positive result counts exactly the bytes of the record it completed; order is kept if the buffer ended within 2^16, unless they make 0xFFFA to 0xFFFF bytes |
| TlsOutput.TlsWriter.WriteChunk | my_testProj/Pods/BoringSSL/ssl/s3_pkt.cc:163-198 | one round of the loop keeps account of what was sealed for the call, and order as before |
| TlsOutput.TlsWriter.WriteChunks | my_testProj/Pods/BoringSSL/ssl/s3_pkt.cc:163-198 | the loop does, while a full record and the flight make at most 0xFFF9 bytes |
| TlsOutput.TlsWriter.WriteAppData | my_testProj/Pods/BoringSSL/ssl/s3_pkt.cc:129-200 | under the retry contract a result r > 0 after any number of blocked attempts means exactly the caller's first r bytes were sealed, in order, once each; a shorter retry fails, and the count no longer agrees with what was sealed exactly when it is shorter than what had been flushed; order is kept while a full record and the flight make at most 0xFFF9 bytes |
| TlsOutput.TlsWriter.DispatchAlert | my_testProj/Pods/BoringSSL/ssl/s3_pkt.cc:405-423 | the alert is sealed once over all attempts, and not while another write is pending; order is kept unless alert, overhead and flight make 0xFFFA to 0xFFFF bytes |
| TlsOutput.TlsWriter.SendAlert | my_testProj/Pods/BoringSSL/ssl/s3_pkt.cc:377-403 | only the first closing alert counts; it is dispatched at once exactly when the write buffer is empty; order is kept as by that |
| TlsOutput.Interleave | my_testProj/Pods/BoringSSL/ssl/s3_pkt.cc:129-289 | in every interleaving of queued messages, ChangeCipherSpec and alerts, flushes, writes repeated until they succeed and alerts, wire ++ write buffer ++ flight is the records sealed, in order, as long as no write or alert finds more than 48957 bytes of flight waiting; and the application data sealed is what was reported written and a beginning of the write in progress |
| TlsOutput.Perform | my_testProj/Pods/BoringSSL/ssl/s3_pkt.cc:377-423 | one operation other than a write |
| TlsOutput.Overlong | my_testProj/Pods/BoringSSL/ssl/s3_pkt.cc:236-289 | a writer past that: 0xFFF9 bytes of flight and a record of one byte, which is lost if the transport takes the flight and blocks |
| TlsFlow.StepOn | my_testProj/Pods/BoringSSL/ssl/handshake_client.cc:1735-1817 | doing the step that is due leaves the rest of the flow |
| TlsFlow.DueNext | my_testProj/Pods/BoringSSL/ssl/handshake.cc:165-174 | a message that continues the flow has the kind and contents that are due |
| TlsFlow.Agreement | my_testProj/Pods/BoringSSL/ssl/handshake.cc:491-628 | two sides that follow the flow over order-preserving channels agree: one trail is a prefix of the other |
| TlsFlow.ArrivesDue | my_testProj/Pods/BoringSSL/ssl/handshake.cc:165-174 | so what arrives is what is due |
| TlsFlow.FinishedNow | my_testProj/Pods/BoringSSL/ssl/handshake.cc:380-429 | a Finished over the messages so far is the peer's Finished of the trail |
| TlsEndpoint.Endpoint.constructor | my_testProj/Pods/BoringSSL/ssl/handshake.cc:156-163 | a new transcript and nothing sent or read |
| TlsEndpoint.Endpoint.InitHash | my_testProj/Pods/BoringSSL/ssl/ssl_transcript.cc:181-195 | the hash starts with everything buffered |
| TlsEndpoint.Endpoint.FreeBuffer | my_testProj/Pods/BoringSSL/ssl/ssl_transcript.cc:197-199 | the buffer goes, the hash stays |
| TlsEndpoint.Endpoint.BufferIs | my_testProj/Pods/BoringSSL/ssl/ssl_transcript.cc:236-252 | the buffer, while it is kept, has exactly the messages so far |
| TlsEndpoint.Endpoint.AddMessage | my_testProj/Pods/BoringSSL/ssl/s3_both.cc:184-205 | the message is queued and hashed once |
| TlsEndpoint.Endpoint.AddChangeCipherSpec | my_testProj/Pods/BoringSSL/ssl/s3_both.cc:207-218 | queued and not hashed |
| TlsEndpoint.Endpoint.SendFinished | my_testProj/Pods/BoringSSL/ssl/handshake.cc:431-476 | the Finished covers exactly the transcript so far, with the buffer already released |
| TlsEndpoint.Endpoint.TakeMessage | my_testProj/Pods/BoringSSL/ssl/handshake.cc:215-222 | the message is hashed once, and gone |
| TlsEndpoint.Endpoint.GetFinished | my_testProj/Pods/BoringSSL/ssl/handshake.cc:380-429 | passes exactly for a Finished of the other side over this side's own transcript |
| TlsEndpoint.Endpoint.FlushFlight | my_testProj/Pods/BoringSSL/ssl/s3_both.cc:231-279 | any part of the flight goes, in order |
| TlsEndpoint.Endpoint.OpenHandshake | my_testProj/Pods/BoringSSL/ssl/s3_both.cc:474-560 | the next record is the current message; ChangeCipherSpec in its place is an error, which a peer that keeps to the flow never causes |
| TlsEndpoint.Endpoint.OpenChangeCipherSpec | my_testProj/Pods/BoringSSL/ssl/s3_pkt.cc:351-375 | the same for ChangeCipherSpec |
| TlsEndpoint.Endpoint.Due | my_testProj/Pods/BoringSSL/ssl/handshake.cc:165-174 | a current message is the step that is due |
| TlsClient.ClientHandshake.DoStartConnect | my_testProj/Pods/BoringSSL/ssl/handshake_client.cc:413-480 | sends the ClientHello; keeps the state in step with the flow |
| TlsClient.ClientHandshake.DoEnterEarlyData | my_testProj/Pods/BoringSSL/ssl/handshake_client.cc:482-517 | goes on to the ServerHello; keeps the state in step with the flow |
| TlsClient.ClientHandshake.DoReadServerHello | my_testProj/Pods/BoringSSL/ssl/handshake_client.cc:563-787 | takes what the server settled, starts the hash, and keeps the buffer exactly for a full handshake with certificates; keeps the state in step with the flow |
| TlsClient.ClientHandshake.HashServerHello | my_testProj/Pods/BoringSSL/ssl/handshake_client.cc:725-737 | the same on the transcript; keeps the state in step with the flow |
| TlsClient.ClientHandshake.DoReadServerCertificate | my_testProj/Pods/BoringSSL/ssl/handshake_client.cc:799-847 | exactly for ciphers with certificates; keeps the state in step with the flow |
| TlsClient.ClientHandshake.DoReadCertificateStatus | my_testProj/Pods/BoringSSL/ssl/handshake_client.cc:849-897 | if it is there; keeps the state in step with the flow |
| TlsClient.ClientHandshake.DoVerifyServerCertificate | my_testProj/Pods/BoringSSL/ssl/handshake_client.cc:899-917 | may wait, and then changes nothing; keeps the state in step with the flow |
| TlsClient.ClientHandshake.DoReadServerKeyExchange | my_testProj/Pods/BoringSSL/ssl/handshake_client.cc:919-1099 | required, optional or forbidden by the cipher; keeps the state in step with the flow |
| TlsClient.ClientHandshake.DoReadCertificateRequest | my_testProj/Pods/BoringSSL/ssl/handshake_client.cc:1101-1171 | the buffer stays exactly if a certificate is requested; keeps the state in step with the flow |
| TlsClient.ClientHandshake.DoReadServerHelloDone | my_testProj/Pods/BoringSSL/ssl/handshake_client.cc:1173-1195 | ends the server's flight; keeps the state in step with the flow |
| TlsClient.ClientHandshake.DoSendClientCertificate | my_testProj/Pods/BoringSSL/ssl/handshake_client.cc:1197-1243 | may wait before sending anything; without a certificate the buffer goes; keeps the state in step with the flow |
| TlsClient.ClientHandshake.DoSendClientKeyExchange | my_testProj/Pods/BoringSSL/ssl/handshake_client.cc:1248-1399 | one message; keeps the state in step with the flow |
| TlsClient.ClientHandshake.DoSendClientCertificateVerify | my_testProj/Pods/BoringSSL/ssl/handshake_client.cc:1401-1483 | the buffer is live when it is signed, a retry repeats nothing, and the signature covers the transcript; keeps the state in step with the flow |
| TlsClient.ClientHandshake.SendVerify | my_testProj/Pods/BoringSSL/ssl/handshake_client.cc:1416-1483 | the same on the transcript; keeps the state in step with the flow |
| TlsClient.ClientHandshake.DoSendClientFinished | my_testProj/Pods/BoringSSL/ssl/handshake_client.cc:1485-1540 | a retry repeats nothing; ChangeCipherSpec, the extensions agreed on, and Finished go once each; keeps the state in step with the flow |
| TlsClient.ClientHandshake.SendEnd | my_testProj/Pods/BoringSSL/ssl/handshake_client.cc:1498-1536 | the same, after the retry; keeps the state in step with the flow |
| TlsClient.ClientHandshake.DoFinishFlight | my_testProj/Pods/BoringSSL/ssl/handshake_client.cc:1566-1592 | resumed handshakes end here, and only after the server's Finished was checked; keeps the state in step with the flow |
| TlsClient.ClientHandshake.DoReadSessionTicket | my_testProj/Pods/BoringSSL/ssl/handshake_client.cc:1594-1675 | exactly if one was promised; keeps the state in step with the flow |
| TlsClient.ClientHandshake.DoProcessChangeCipherSpec | my_testProj/Pods/BoringSSL/ssl/handshake_client.cc:1677-1684 | after ChangeCipherSpec was read; keeps the state in step with the flow |
| TlsClient.ClientHandshake.DoReadServerFinished | my_testProj/Pods/BoringSSL/ssl/handshake_client.cc:1686-1700 | nothing goes on unless it is over the client's own transcript; keeps the state in step with the flow |
| TlsClient.ClientHandshake.DoFinishClientHandshake | my_testProj/Pods/BoringSSL/ssl/handshake_client.cc:1702-1733 | the handshake is done; keeps the state in step with the flow |
| TlsClient.ClientHandshake.constructor | my_testProj/Pods/BoringSSL/ssl/handshake.cc:156-163 | at the start of the flow |
| TlsClient.ClientHandshake.Do | my_testProj/Pods/BoringSSL/ssl/handshake_client.cc:1735-1817 | every state's step keeps the client in step, does not fail if everything read was due, and gets on unless it waits |
| TlsClient.ClientHandshake.Handshake | my_testProj/Pods/BoringSSL/ssl/handshake_client.cc:1735-1817 | runs until done or until something to wait for, and ends |
| TlsClient.ClientHandshake.Resolve | my_testProj/Pods/BoringSSL/ssl/handshake.cc:491-606 | what it waits for is settled, or control returns |
| TlsClient.ClientHandshake.RunHandshake | my_testProj/Pods/BoringSSL/ssl/handshake.cc:491-628 | with a peer that keeps to the flow the client keeps to it and does not fail; with any peer it stays sound: every message hashed once, done only after checking the server's Finished; unless held up by the transport or the application it gets on, or rests where it was |
| TlsServer.ServerHandshake.DoStartAccept | my_testProj/Pods/BoringSSL/ssl/handshake_server.cc:426-430 | goes on to the ClientHello; keeps the state in step with the flow |
| TlsServer.ServerHandshake.DoReadClientHello | my_testProj/Pods/BoringSSL/ssl/handshake_server.cc:432-510 | may wait; the message stays; keeps the state in step with the flow |
| TlsServer.ServerHandshake.DoSelectCertificate | my_testProj/Pods/BoringSSL/ssl/handshake_server.cc:512-560 | may wait; the message stays; keeps the state in step with the flow |
| TlsServer.ServerHandshake.DoSelectParameters | my_testProj/Pods/BoringSSL/ssl/handshake_server.cc:572-684 | may wait before anything is hashed; starts the hash with the ClientHello and keeps the buffer exactly if a certificate is requested; keeps the state in step with the flow |
| TlsServer.ServerHandshake.HashClientHello | my_testProj/Pods/BoringSSL/ssl/handshake_server.cc:667-678 | the same on the transcript; keeps the state in step with the flow |
| TlsServer.ServerHandshake.DoSendServerHello | my_testProj/Pods/BoringSSL/ssl/handshake_server.cc:686-752 | says what was settled; keeps the state in step with the flow |
| TlsServer.ServerHandshake.DoSendServerCertificate | my_testProj/Pods/BoringSSL/ssl/handshake_server.cc:754-840 | certificate and status, exactly as settled; keeps the state in step with the flow |
| TlsServer.ServerHandshake.DoSendServerKeyExchange | my_testProj/Pods/BoringSSL/ssl/handshake_server.cc:842-912 | may wait for the signature, and then repeats nothing; keeps the state in step with the flow |
| TlsServer.ServerHandshake.DoSendServerHelloDone | my_testProj/Pods/BoringSSL/ssl/handshake_server.cc:914-947 | the request, if there is one, and the end of the flight; keeps the state in step with the flow |
| TlsServer.ServerHandshake.DoReadClientCertificate | my_testProj/Pods/BoringSSL/ssl/handshake_server.cc:949-1040 | exactly if requested; an empty one releases the buffer; keeps the state in step with the flow |
| TlsServer.ServerHandshake.HashCertificate | my_testProj/Pods/BoringSSL/ssl/handshake_server.cc:985-1012 | the same on the transcript; keeps the state in step with the flow |
| TlsServer.ServerHandshake.DoVerifyClientCertificate | my_testProj/Pods/BoringSSL/ssl/handshake_server.cc:1042-1056 | may wait, and then changes nothing; keeps the state in step with the flow |
| TlsServer.ServerHandshake.DoReadClientKeyExchange | my_testProj/Pods/BoringSSL/ssl/handshake_server.cc:1058-1267 | may wait before the message is hashed; keeps the state in step with the flow |
| TlsServer.ServerHandshake.DoReadClientCertificateVerify | my_testProj/Pods/BoringSSL/ssl/handshake_server.cc:1269-1363 | exactly if there was a certificate; the buffer is live when the signature is checked, and the message itself is hashed after; keeps the state in step with the flow |
| TlsServer.ServerHandshake.HashVerify | my_testProj/Pods/BoringSSL/ssl/handshake_server.cc:1355-1358 | the same on the transcript; keeps the state in step with the flow |
| TlsServer.ServerHandshake.VerifyDue | my_testProj/Pods/BoringSSL/ssl/handshake_server.cc:1305-1354 | a message due there is the signature over this side's own transcript |
| TlsServer.ServerHandshake.DoReadChangeCipherSpec | my_testProj/Pods/BoringSSL/ssl/handshake_server.cc:1365-1368 | waits for ChangeCipherSpec; keeps the state in step with the flow |
| TlsServer.ServerHandshake.DoProcessChangeCipherSpec | my_testProj/Pods/BoringSSL/ssl/handshake_server.cc:1370-1377 | after it was read; keeps the state in step with the flow |
| TlsServer.ServerHandshake.DoReadNextProto | my_testProj/Pods/BoringSSL/ssl/handshake_server.cc:1379-1413 | exactly if agreed on; keeps the state in step with the flow |
| TlsServer.ServerHandshake.DoReadChannelId | my_testProj/Pods/BoringSSL/ssl/handshake_server.cc:1415-1437 | exactly if agreed on; keeps the state in step with the flow |
| TlsServer.ServerHandshake.DoReadClientFinished | my_testProj/Pods/BoringSSL/ssl/handshake_server.cc:1439-1461 | nothing goes on unless it is over the server's own transcript; keeps the state in step with the flow |
| TlsServer.ServerHandshake.SendEnd | my_testProj/Pods/BoringSSL/ssl/handshake_server.cc:1466-1502 | a ticket if promised, ChangeCipherSpec and Finished; keeps the state in step with the flow |
| TlsServer.ServerHandshake.DoSendServerFinished | my_testProj/Pods/BoringSSL/ssl/handshake_server.cc:1463-1509 | the same; a full handshake then ends, a resumed one reads the client's; keeps the state in step with the flow |
| TlsServer.ServerHandshake.DoFinishServerHandshake | my_testProj/Pods/BoringSSL/ssl/handshake_server.cc:1511-1537 | the handshake is done; keeps the state in step with the flow |
| TlsServer.ServerHandshake.constructor | my_testProj/Pods/BoringSSL/ssl/handshake.cc:156-163 | at the start of the flow |
| TlsServer.ServerHandshake.Do | my_testProj/Pods/BoringSSL/ssl/handshake_server.cc:1539-1621 | every state's step keeps the server in step, does not fail if everything read was due, and gets on unless it waits |
| TlsServer.ServerHandshake.Handshake | my_testProj/Pods/BoringSSL/ssl/handshake_server.cc:1539-1621 | runs until done or until something to wait for, and ends |
| TlsServer.ServerHandshake.Resolve | my_testProj/Pods/BoringSSL/ssl/handshake.cc:491-606 | what it waits for is settled, or control returns |
| TlsServer.ServerHandshake.RunHandshake | my_testProj/Pods/BoringSSL/ssl/handshake.cc:491-628 | as for the client: done only after checking the client's Finished, with any peer; it gets on unless held up |
| TlsRun.TranscriptsAgree | my_testProj/Pods/BoringSSL/ssl/handshake.cc:380-476 | at every moment of every run one side's trail is a prefix of the other's, each hash is exactly the messages of its trail, and a side that is done has checked the other's Finished |
| TlsRun.DoneTogether | my_testProj/Pods/BoringSSL/ssl/handshake.cc:491-628 | when both are done, both have hashed the same messages, those of the whole flow |
| TlsRun.NoDeadlock | my_testProj/Pods/BoringSSL/ssl/handshake.cc:491-628 | the two sides never both wait with nothing on the way |
| TlsRun.NeverStuck | my_testProj/Pods/BoringSSL/ssl/handshake.cc:491-628 | the two sides only rest together when both are done |
| TlsRun.ClientRuns | my_testProj/Pods/BoringSSL/ssl/handshake.cc:491-628 | a run of the client keeps the pair sound and unfailed, and gets on unless held up |
| TlsRun.ServerRuns | my_testProj/Pods/BoringSSL/ssl/handshake.cc:491-628 | a run of the server does |
| TlsRun.Connect | my_testProj/Pods/BoringSSL/ssl/handshake.cc:156-163 | the pair starts so |
| TlsRun.Play | my_testProj/Pods/BoringSSL/ssl/handshake.cc:491-628 | in any schedule, full or resumed, with any retries, neither side rejects anything, and all of the above holds |
| TlsRun.Finish | my_testProj/Pods/BoringSSL/ssl/handshake.cc:491-628 | from any moment of any run, running in turn ends: one side is held up by its transport or the application, or both are done, over the same messages |
| CipherChoice.ChosenOnce | my_testProj/Pods/BoringSSL/ssl/handshake_server.cc:357-424 | the specification determines the choice |
| CipherChoice.NoneExactly | my_testProj/Pods/BoringSSL/ssl/handshake_server.cc:357-424 | for flags ending in 0 there is no choice exactly when no cipher is acceptable |
| CipherChoice.WithoutGroups | my_testProj/Pods/BoringSSL/ssl/handshake_server.cc:372-383 | without groups the choice is exactly the first acceptable cipher |
| CipherChoice.Find | my_testProj/Pods/BoringSSL/ssl/handshake_server.cc:401 | the place of a cipher in a list |
| CipherChoice.GroupEnds | my_testProj/Pods/BoringSSL/ssl/handshake_server.cc:402-418 | the best rank of a group that ends is the choice |
| CipherChoice.Scan | my_testProj/Pods/BoringSSL/ssl/handshake_server.cc:387-421 | the loop finds the most preferred acceptable cipher of the first ended group that has one; with any flags, none exactly when all acceptable ciphers are in an unended last group |
| CipherChoice.ChooseCipher | my_testProj/Pods/BoringSSL/ssl/handshake_server.cc:357-424 | by the server's groups and the client's order within them, or by the client's order alone |
| SessionAsn1.ToElements | my_testProj/Pods/BoringSSL/ssl/ssl_asn1.cc:200-399 | writes the specified structure, and fails exactly without a cipher |
| SessionAsn1.WriteChain | my_testProj/Pods/BoringSSL/ssl/ssl_asn1.cc:332-349 | the certificates after the first |
| SessionAsn1.InOrder | my_testProj/Pods/BoringSSL/ssl/ssl_asn1.cc:225-396 | the optional fields come in increasing order of their tags |
| SessionAsn1.FieldIs | my_testProj/Pods/BoringSSL/ssl/ssl_asn1.cc:450-525 | where a field was written it is read, and where it was left out nothing is taken for it |
| SessionAsn1.ParseString | my_testProj/Pods/BoringSSL/ssl/ssl_asn1.cc:407-428 | what was written for an optional string reads back, exactly if it has no zero byte, and only such input is accepted |
| SessionAsn1.ParseOctetString | my_testProj/Pods/BoringSSL/ssl/ssl_asn1.cc:436-448 | what was written for optional bytes reads back, with empty ones as none, and only such input is accepted |
| SessionAsn1.ParseBounded | my_testProj/Pods/BoringSSL/ssl/ssl_asn1.cc:475-486 | no more than fits |
| SessionAsn1.ParseInt | my_testProj/Pods/BoringSSL/ssl/ssl_asn1.cc:488-525 | no more than the type holds, with the default when absent |
| SessionAsn1.ParseHeader | my_testProj/Pods/BoringSSL/ssl/ssl_asn1.cc:535-591 | the fixed fields |
| SessionAsn1.ParseFirst | my_testProj/Pods/BoringSSL/ssl/ssl_asn1.cc:593-608 | the peer certificate to the verify result, which is refused exactly when it was negative |
| SessionAsn1.ParseIdentity | my_testProj/Pods/BoringSSL/ssl/ssl_asn1.cc:610-625 | to the ticket, over the historical host name |
| SessionAsn1.ParseBuffers | my_testProj/Pods/BoringSSL/ssl/ssl_asn1.cc:627-653 | to the OCSP response |
| SessionAsn1.ParseSecond | my_testProj/Pods/BoringSSL/ssl/ssl_asn1.cc:655-714 | to the chain, which needs a leaf |
| SessionAsn1.ParseCerts | my_testProj/Pods/BoringSSL/ssl/ssl_asn1.cc:682-714 | the leaf and one certificate for each element |
| SessionAsn1.ParseThird | my_testProj/Pods/BoringSSL/ssl/ssl_asn1.cc:721-741 | the ticket age and the side |
| SessionAsn1.ParseLast | my_testProj/Pods/BoringSSL/ssl/ssl_asn1.cc:743-756 | to the end |
| SessionAsn1.Parse | my_testProj/Pods/BoringSSL/ssl/ssl_asn1.cc:527-757 | of any input only what the structure can hold; what was written reads back as the session up to the stated normalisation, for every combination of fields, exactly unless its verify result is negative |
| SessionAsn1.RoundTrip | my_testProj/Pods/BoringSSL/ssl/ssl_asn1.cc:200-757 | the round trip of the two |
| Refcount.LockedCount.constructor | my_testProj/Pods/BoringSSL/crypto/refcount_lock.c:29-51 | a count |
| Refcount.LockedCount.Increment | my_testProj/Pods/BoringSSL/crypto/refcount_lock.c:29-35 | the locked increment |
| Refcount.LockedCount.DecAndTestZero | my_testProj/Pods/BoringSSL/crypto/refcount_lock.c:37-51 | the locked decrement |
| Refcount.SeesKeepsLinear | my_testProj/Pods/BoringSSL/crypto/refcount_c11.c:37-65 | a load or failed exchange keeps the log a sequential run; a decrement that reads zero takes effect there |
| Refcount.ReturnKeepsLinear | my_testProj/Pods/BoringSSL/crypto/refcount_c11.c:37-65 | an operation that takes effect keeps it so |
| Refcount.StepKeepsLinear | my_testProj/Pods/BoringSSL/crypto/refcount_c11.c:37-65 | every atomic step does |
| Refcount.Linearises | my_testProj/Pods/BoringSSL/crypto/refcount_c11.c:37-65 | any run of any number of threads, with spurious failures, is a run of the locked version with the same results and the same count |
| Refcount.RealTime | my_testProj/Pods/BoringSSL/crypto/refcount_c11.c:37-65 | at any moment of a run, the operations of a thread that have taken effect are those it has returned from, and the decrement it is in if that is bound to abort: each takes effect between its call and its return |
| Refcount.EffectInCall | my_testProj/Pods/BoringSSL/crypto/refcount_c11.c:37-65 | a step lets only its own thread's operation take effect, within its call |
| Refcount.StaysSaturated | my_testProj/Pods/BoringSSL/crypto/refcount_c11.c:41 | the maximum is never left |
| Refcount.MoveKeepsCounted | my_testProj/Pods/BoringSSL/crypto/refcount_c11.c:37-65 | with callers that hold a reference while calling, the count is the references held, until it saturates |
| Refcount.LastReferenceOnce | my_testProj/Pods/BoringSSL/crypto/refcount_c11.c:49-65 | in every such run none aborts, and one decrement is told zero exactly when no reference is left |
| Refcount.FreedOnce | my_testProj/Pods/BoringSSL/crypto/refcount_c11.c:49-65 | the same from any start |

## Left out

- nanopb `PB_ENABLE_MALLOC`, pointer, callback and extension fields, and streams with callbacks: compiled out by default, or calls into code that is not there.
- nanopb SINGULAR submessages: `pb_check_proto3_default_value` looks only at the first element of a repeated member; `PbSchema` allows SINGULAR for leaf types only.
- nanopb structs in memory: a struct is a map from member offsets to values and is passed and returned, so padding and aliasing between structs are not modelled.
- PbInput.IStream.Read: the input buffer is a sequence, not memory; `size_t` is taken as wide enough for buffers, and `pb_size_t` is 32 bits, as under `PB_FIELD_32BIT`.
- PbInput.IStream.DecodeVarint: OR of disjoint bits is written as addition.
- PbFailure.LeavesValidExactly: memory that was never written is a parameter, as the value its member reads as; the half of the claim that needs bytes for every table is for nesting of less than 400 million levels.
- PbFailure.CountsWithin: for the arrays of the message itself; those of submessages are in `LoopLeftValid`.
- PbDecoder.Mark: the 32-bit words of the required-field set are sets of bit positions.
- PbTerminator.RoundTrip: messages of 2^32 bytes and more, which `pb_size_t` cannot count, are left out.
- DTLS record headers on sending, alerts and application data; HelloVerifyRequest and cookies; timers: no effect on the properties.
- DtlsSender.Sender.SealRecord: record contents are kept as plaintext with a length; the AEAD is known by its overhead only.
- DtlsSender.NumberFresh: numbers are unique until the 16-bit epoch or a 48-bit number wraps; `intact` says so.
- DtlsDelivery.DeliveredInOrder: at most 0xFFFF messages, since an honest sender's numbers start over after that; the window invariant holds across the wrap. `SenderDelivers` has the same bound.
- DtlsReplay.ReadState.OpenRecord: decryption may fail and gives any plaintext; that forged records fail is not claimed.
- TlsOutput.TlsWriter.WriteAppData: early data, and a record layer that splits records, which counts as one sealed unit.
- TlsOutput.TlsWriter.FlushFlight: a missing write BIO, and the error queue.
- Cryptography, certificates, randomness and clocks: MACs and signatures stand for the transcript they cover; parsing of message bodies succeeds.
- TLS 1.3, SSL 3.0, renegotiation, early data, V2ClientHello, handoff: other state machines, or cases of these.
- TlsClient.ClientHandshake.DoReadServerHello: which session to resume, version and extension checks; the ServerHello carries what was settled.
- TlsServer.ServerHandshake.DoSelectParameters: how the parameters are chosen; any consistent choice is allowed for.
- TlsEndpoint.Endpoint.OpenHandshake: a record is one message; messages over several records, or sharing one, are left out.
- SessionAsn1.Parse: DER is taken as tagged elements; byte-level DER, and checks of certificates by the X.509 method, are not part of this model.
- Refcount.Linearises: memory orders other than sequential consistency.
- Allocation failure, error queues, info and message callbacks: no effect on the properties.
- The app's Swift code, Firebase, and the other pods: user interface and platform calls.
