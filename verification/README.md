# A verified model of nanopb and of three Alamofire components

The BookZone app carries two libraries whose code has more to go wrong in it than the
app itself: nanopb 0.3.9.6, a protocol buffers codec in C, and Alamofire, an HTTP client
in Swift. This project models the core of the first and three stateful components of the
second, and proves what they are for.

    dafny verify dfyconfig.toml

## nanopb

The C structs are trees of values (`Descriptor.Struct`), described by field tables
(`Descriptor.Field`). What the encoder and the decoder mean is given by functions on byte
sequences, in `EncodeSpec` and `DecodeSpec`; `WellFormed` says which tables and structs
are in order. About these functions the main results are proved:

- `RoundTrip`: decoding inverts encoding, for every table, every struct and every depth of
  nesting, and a decoder that knows only some of the fields gets exactly those.
  `Projection` says which structs come back exactly as they were, and `Reencoding` that
  what the decoder accepts does, if no fixed count array was left out.
- `WireFormat`, `WireNumbers`: what the bytes are. A reader that knows no tables and shares
  no constants with the codec finds in the encoder's output exactly the records of the
  fields that are present; and skipping and the varint decoders agree with it.
- `LastWins`, `Unset`, `Limits`: what decoding makes of fields that come again, that do not
  come, and that are too large or too many.
- `Safety`: no accepted input, however malformed, takes a struct out of its bounds.
- `Merge`: when decoding a concatenation is the same as decoding its parts in turn.
- `Varint`, `VarintAgreement`, `Integers`: the two varint decoders and the conversions
  between integers of all widths.

The code itself is modelled in its own form: `InputStream`, `Decoder`, `OutputStream`,
`Encoder`, `FieldIter` and `Bitmap` hold the streams, the cyclic field iterator and the
bitmap of required fields as objects and arrays that methods update in loops. Each method
is proved to do exactly what the function it is specified by says (`Gives` for decoding,
`Emits` for encoding), so the results above are results about the methods. That the
methods verify also says that they terminate, and that the stream buffers, the varint
buffer and the bitmap are indexed within their bounds.

The memory of the struct is not modelled as an array, so `Writes` keeps a record of the
bytes written and of the member each write is meant for: field contents, `has_` flags,
counts, `which_` selectors and defaults. The decoding methods return it, on success and on
failure alike, and ensure that every write stays inside its member and that these are
members of the struct (`Decoder.DecodeInto`). For nested messages that supposes that a
submessage member has room for the struct of its table (`Writes.Roomy`), as `sizeof` makes
sure. That bool, fixed32 and fixed64 members have 1, 4 and 8 bytes is part of
`WellFormedField`.

One write of the code can leave its member. `pb_field_set_to_default` clears the count of
every repeated field (`pb_decode.c:862-868`), and for an array of fixed count, which has
none, that is the start of the array itself. If the array is smaller than `pb_size_t`
(1 byte, or 2 or 4 depending on the build; 4 in the build settings of this repository), the
write goes on into what lies behind it. `Writes.DefaultsStay` gives the exact condition,
`DefaultsFit`; `ShortArray` has a table for which it fails, and a message for which the code
loses a value that was decoded before. The decoder methods therefore require
`AllDecodingFits`, and `DecodeNew` promises the result of decoding only with `DefaultsFit`;
together these say that every fixed count array in the table, at every depth, is at least
as large as a count (`Writes.FitsTogether`). What is proved about `DecodeSpec.Decode`
speaks of the code only for such tables.

The width of `pb_size_t`, which depends on the build, is the constant `PB_SIZE_MAX`, of
which only the three possible values are known.

`pb_decode.h:74-80` offers `pb_decode_noinit` for merging two messages. The code does not
merge arrays of fixed count: it takes all their entries from one run of records. The
theorem `Merge.ConcatenationMerges` gives the exact condition, and
`Merge.FixedArraysDoNotMerge` an example.

## Alamofire

- `AuthProtocol` is the state machine of `AuthenticationInterceptor`: a step is what one
  thread does while it holds the lock, or one callback, or one item of the dispatch queue,
  and a run is any sequence of steps. `AuthOutcomes` says what each request is told.
  `Authentication` is the class itself, each method one step. It is assumed that the
  authenticator answers each refresh once and not before `refresh` has returned, that
  completion handlers are told apart, and that the clock does not go back between the two
  times one `refresh` reads it.
- `Multipart` is the framing of `MultipartFormData`, `Rfc2046` a reader after section 5.1.1
  of RFC 2046 with the octets that it names, and `MultipartFraming` what the one makes of
  the other; `MultipartStreams` is the class, encoding in memory or to a stream whose reads
  and writes may be cut in any way. It is assumed that the boundary has no carriage return,
  and that a stream to read from does not say that it has no bytes available while some
  are still to come: the loops (lines 407 and 450) would take that for its end.
  The class does not keep the delimiter out of the parts, nor line breaks out of headers;
  `MultipartFraming.EncodedFormParses` says that the output is read back correctly exactly if the
  caller does.
  `writeEncodedData` stops a write without an error when the stream refuses space
  (line 488 of `MultipartFormData.swift`); what it wrote is then incomplete, and only then.
- `RequestTaskMap` is the two-way index of requests and tasks, with runs of the two events
  that end an association.

## Model

| member | source | states |
|---|---|---|
| RoundTrip.MessageRoundTrip | BookZone/Pods/nanopb/pb_encode.c:528-550 | for every well-formed table and every in-bounds struct, at any nesting depth, encoding succeeds, and decoding the bytes succeeds, uses all of them, and restores every present value, presence flag, count and which_ selector, with defaults for what was absent |
| WireFormat.EncodedSplits | BookZone/Pods/nanopb/pb_encode.c:528-550 | a reader of the wire format without tables, with its own constants, splits the encoded message into exactly the records of the fields present, in table order, each with its field number, the wire type of its data type and its value |
| Projection.ExactRoundTrip | BookZone/Pods/nanopb/pb_encode.c:528-550 | exactly the structs whose absent optional members hold their defaults, at every depth, come back from a round trip unchanged in every member |
| Projection.StructKept | BookZone/Pods/nanopb/pb_decode.c:836-906 | the projection in which the round trip results is states no less than that: it keeps a struct exactly if its absent optional members hold their defaults |
| Projection.ProjectTwice | BookZone/Pods/nanopb/pb_decode.c:1075-1087 | a second round trip changes nothing |
| RoundTrip.MessageDecodes | BookZone/Pods/nanopb/pb_decode.c:925-1087 | forward compatibility: a table that knows only some of the fields, at any depth and in any order, decodes the full message to exactly the projection on the fields it knows |
| RoundTrip.FieldDecodes | BookZone/Pods/nanopb/pb_decode.c:406-480 | all records written for one known field, read into an untouched slot, leave exactly that field set and the loop at the bytes behind them |
| RoundTrip.DefaultProjection | BookZone/Pods/nanopb/pb_encode.c:240-337 | a proto3 submessage the encoder leaves out because all its fields look unset is, to the decoder, its defaults |
| Records.UnknownField | BookZone/Pods/nanopb/pb_decode.c:321-331 | whatever the encoder writes for a field the table does not have is skipped without a trace |
| Records.PackedRoundTrip | BookZone/Pods/nanopb/pb_decode.c:424-452 | a packed array decodes to the entries already there followed by exactly the entries encoded, as long as they fit |
| WireFormat.PackedReads | BookZone/Pods/nanopb/pb_encode.c:162-205 | that reader finds in the body of a packed array exactly its values, in order |
| WireFormat.ScalarReads | BookZone/Pods/nanopb/pb_encode.c:769-913 | and in the payload of a scalar its value: fixed32 and fixed64 as sums of bytes times powers of 256, signed numbers as two's complement, zigzag as 2x or -2x-1, true as 1 |
| WireFormat.SkipsPayload | BookZone/Pods/nanopb/pb_decode.c:321-331 | skipping agrees with that reader on every input whose length, if it has one, is below 2^32, and refuses every wire type but 0, 1, 2 and 5 |
| WireFormat.LongLengthMisread | BookZone/Pods/nanopb/pb_decode.c:187-247 | an input with a longer length on which skipping and the reader differ: bits of the length are dropped |
| WireFormat.TagsRead | BookZone/Pods/nanopb/pb_decode.c:298-319 | a tag below 2^32, however padded, is eight times the field number plus the wire type; zero ends the message |
| LastWins.ScalarReplaces | BookZone/Pods/nanopb/pb_decode.c:413-466 | last one wins: whatever a field held, present or not, and whatever its union had chosen, a record of a scalar, of any wire type, leaves exactly the value sent |
| LastWins.SubmessagesMerge | BookZone/Pods/nanopb/pb_decode.c:1503-1525 | two records of a required or optional submessage decode like one with the bodies joined |
| LastWins.OneofRestarts | BookZone/Pods/nanopb/pb_decode.c:466-476 | a submessage in a oneof starts from its defaults again at each record |
| LastWins.PackedOverwrites | BookZone/Pods/nanopb/pb_decode.c:436-445 | the entries of a packed array replace those that were there from the count on, and the others stay |
| Unset.DefaultsUnset | BookZone/Pods/nanopb/pb_decode.c:836-919 | initialisation leaves every member, at every depth, with the default value of its table entry, else false, zero, nothing or zero bytes, and with flag, count and selector cleared |
| Unset.DecodedUnset | BookZone/Pods/nanopb/pb_decode.c:1075-1087 | after pb_decode a field of which no record came holds just that |
| Unset.MergedKeeps | BookZone/Pods/nanopb/pb_decode.c:925-1073 | after pb_decode_noinit it holds what it held |
| Unset.AbsentComesBackUnset | BookZone/Pods/nanopb/pb_encode.c:341-426 | a field that the encoder leaves out comes back unset |
| Unset.RequiredExactly | BookZone/Pods/nanopb/pb_decode.c:1030-1070 | a message is accepted exactly if its records are, the last fixed count array is complete, and of each of the first 64 required fields a record came |
| Limits.PackedOverflows | BookZone/Pods/nanopb/pb_decode.c:436-448 | a packed array with more entries than there is room for is an error |
| Limits.FullArrayRefuses | BookZone/Pods/nanopb/pb_decode.c:453-464 | so is an entry for an array that is full |
| Limits.FixedArrayExactly | BookZone/Pods/nanopb/pb_decode.c:1023-1028 | a packed array of fixed count is accepted exactly with all its entries, which replace the old ones |
| Limits.OversizedArrayRefused | BookZone/Pods/nanopb/pb_encode.c:156-160 | the encoder refuses an array with more entries than its size |
| Limits.BlockAccepted | BookZone/Pods/nanopb/pb_decode.c:1431-1548 | bytes, strings and fixed-length bytes are accepted exactly if they fit |
| Limits.BlockContents | BookZone/Pods/nanopb/pb_decode.c:1431-1548 | bytes come as sent, a string is cut at its first zero byte, empty fixed-length bytes are zero bytes |
| Limits.TruncatedRefused | BookZone/Pods/nanopb/pb_decode.c:102-138 | no value is decoded from a proper part of its bytes |
| Limits.AnyNumberIsTrue | BookZone/Pods/nanopb/pb_decode.c:1318-1327 | every number but zero is true |
| Limits.ZeroTagStops | BookZone/Pods/nanopb/pb_decode.c:306-312 | a zero byte in place of a tag ends the message, whatever follows |
| Limits.CountSizes | BookZone/Pods/nanopb/pb.h:207-221 | a count has the bytes that the largest count calls for |
| Records.MessageEncodes | BookZone/Pods/nanopb/pb_encode.c:528-550 | encoding cannot fail on a struct within its bounds |
| Safety.DecodedMessageSafe | BookZone/Pods/nanopb/pb_decode.c:925-1073 | on every input the decoder accepts, the struct stays in bounds at every depth: counts at most array_size, strings terminated within data_size, integers in the range of their type, which_ zero or a member tag |
| Safety.DecodedEntrySafe | BookZone/Pods/nanopb/pb_decode.c:424-464 | an array decoding that succeeds, from a count within array_size, ends with a count within array_size (for one that fails, see Decoder.DecodeArray) |
| Writes.ItemInside | BookZone/Pods/nanopb/pb_decode.c:436-442 | the data_size bytes of an entry below array_size lie inside the data_size * array_size bytes of the array |
| Writes.StructWithin | BookZone/Pods/nanopb/pb_decode.c:1503-1525 | what is written to the members of a struct, their flags, counts and selectors included, is inside the bytes the struct needs |
| Writes.DefaultsStay | BookZone/Pods/nanopb/pb_decode.c:836-919 | setting a struct to its defaults writes inside its members if and only if every array of fixed count that it reaches is at least as large as the count the code clears in its place |
| Writes.FitsTogether | BookZone/Pods/nanopb/pb_decode.c:1503-1525 | the arrays that default setting reaches, and those that decoding reaches through repeated and oneof submessages, are together all arrays at every depth |
| Writes.DefaultsIn | BookZone/Pods/nanopb/pb_decode.c:836-919 | what default setting writes to are members of the struct, nested ones included |
| ShortArray.OneFlagOverflows | BookZone/Pods/nanopb/pb_decode.c:862-868 | for the table of one bool array of length 1, in order in every other way, default setting leaves the array unless counts are single bytes |
| ShortArray.NumberOverwritten | BookZone/Pods/nanopb/pb_decode.c:1503-1525 | initialising an entry of a repeated message with such an array overwrites the field behind it |
| ShortArray.NumberSpecified | BookZone/Pods/nanopb/pb_decode.c:1503-1525 | the specification, which the decoder methods promise only where default setting stays inside, would have that field keep its value |
| Writes.OthersUntouched | BookZone/Pods/nanopb/pb.h:399-405 | a write inside one member touches no other member, except of the same union |
| Safety.DefaultsSafe | BookZone/Pods/nanopb/pb_decode.c:836-919 | the defaults of a table are in bounds |
| Reencoding.MessageCanonical | BookZone/Pods/nanopb/pb_decode.c:925-1073 | decoding keeps absent optional members at their defaults, at every depth |
| Reencoding.DecodedReencodes | BookZone/Pods/nanopb/pb_decode.c:1075-1087 | whatever is accepted, unless a fixed count array was left out, can be encoded again, and decodes to the same struct |
| Merge.ConcatenationMerges | BookZone/Pods/nanopb/pb_decode.h:74-80 | decoding two messages into one struct, one after the other, equals decoding their concatenation, except exactly when the fixed count array that ends the first is also the first one in the second; then the concatenation is rejected |
| Merge.WithoutFixedArrays | BookZone/Pods/nanopb/pb_decode.h:74-80 | with a table that has no fixed count array, decoding the concatenation always equals decoding one message after the other |
| Merge.FixedArraysDoNotMerge | BookZone/Pods/nanopb/pb_decode.c:988-1010 | a table and two messages for which merging and concatenating differ |
| Extension.LoopExtends | BookZone/Pods/nanopb/pb_decode.c:943-1021 | what follows a message changes nothing about how its records decode |
| Varint.Varint64RoundTrip | BookZone/Pods/nanopb/pb_decode.c:255-275 | pb_decode_varint gives back every uint64 that pb_encode_varint wrote and stops right behind it |
| WireNumbers.Decodes64 | BookZone/Pods/nanopb/pb_decode.c:255-275 | pb_decode_varint accepts exactly the base 128 numbers of at most ten bytes and gives their value modulo 2^64 |
| WireNumbers.Decodes32 | BookZone/Pods/nanopb/pb_decode.c:187-247 | pb_decode_varint32 reads every number below 2^32, with any padding |
| WireNumbers.EncodedNumber | BookZone/Pods/nanopb/pb_encode.c:608-628 | pb_encode_varint writes the number in groups of seven bits, lowest first |
| WireNumbers.ZigZagNumber | BookZone/Pods/nanopb/pb_encode.c:630-639 | the zigzag form of x is 2x, or -2x-1 if x is negative |
| Varint.Varint32RoundTrip | BookZone/Pods/nanopb/pb_decode.c:187-247 | so does the 32-bit decoder for every value below 2^32 |
| Varint.EncodeVarintFitsBuffer | BookZone/Pods/nanopb/pb_encode.c:608-628 | no uint64 needs more than the ten bytes of the encoder's buffer |
| Varint.SkipVarintEncoded | BookZone/Pods/nanopb/pb_decode.c:278-287 | skipping an encoded varint skips exactly it |
| Varint.DelimitedRoundTrip | BookZone/Pods/nanopb/pb_decode.c:372-400 | reading a length-delimited payload yields the payload and stops right behind it |
| VarintAgreement.DecodersAgree | BookZone/Pods/nanopb/pb_decode.c:187-275 | whenever both varint decoders accept the same bytes they consume the same number of them and the results agree modulo 2^32 |
| VarintAgreement.AcceptedExactly | BookZone/Pods/nanopb/pb_decode.c:206-233 | the exact set of encoded 64-bit values the 32-bit decoder accepts: those below 2^32, and those with bit 31 set whose digits from bit 35 on are each all zeros or all ones, with the last a one |
| VarintAgreement.SignExtendedAccepted | BookZone/Pods/nanopb/pb_decode.c:211-222 | every negative int32 sent as ten bytes is accepted and gives its bit pattern |
| Integers.NarrowSignedExact | BookZone/Pods/nanopb/pb_decode.c:1329-1364 | a signed field accepts exactly the values congruent, modulo 2^32 (2^64 for the wide size), to an integer that fits, and yields that integer; "integer too large" otherwise |
| Integers.NarrowZigZagExact | BookZone/Pods/nanopb/pb_decode.c:1269-1281 | a zigzag field accepts exactly the encodings of the integers that fit |
| Integers.SignedRoundTrip | BookZone/Pods/nanopb/pb_encode.c:776-797 | at every width a signed integer survives the cast to uint64 and the narrowing back |
| Integers.ZigZagRoundTrip | BookZone/Pods/nanopb/pb_encode.c:630-639 | at every width a signed integer survives the zigzag transformation and its inverse |
| ValueRoundTrip.ScalarRoundTrip | BookZone/Pods/nanopb/pb_encode.c:769-913 | every value within bounds of every scalar field type encodes, decodes to itself, and consumes exactly its own bytes |
| ValueRoundTrip.TagRoundTrip | BookZone/Pods/nanopb/pb_decode.c:298-319 | a tag decodes to its field number and wire type |
| ValueRoundTrip.SkipValue | BookZone/Pods/nanopb/pb_encode.c:675-707 | the wire type written with a field makes the skipper consume precisely the payload the encoder wrote |
| FieldIter.OffsetsRecovered | BookZone/Pods/nanopb/pb.h:399-405 | the offsets the iterator arrives at by adding up relative offsets and member sizes are the struct offsets the layout macros were given, unions included |
| FieldIter.OffsetsIncrease | BookZone/Pods/nanopb/pb.h:399-405 | two entries have the same offset exactly if they are in one union |
| FieldIter.MembersDisjoint | BookZone/Pods/nanopb/pb_common.c:26-66 | two members that are not of one union never overlap; a member behind a union lies behind all of its entries |
| FieldIter.Iter.constructor | BookZone/Pods/nanopb/pb_common.c:8-18 | the cursor starts valid: at the first member, with no required field counted |
| FieldIter.Iter.Next | BookZone/Pods/nanopb/pb_common.c:20-76 | keeps the cursor valid (data and size pointer at the member, required fields before it counted); moves to the next entry, or wraps around and says so |
| FieldIter.Iter.Find | BookZone/Pods/nanopb/pb_common.c:78-95 | from any reachable cursor, within one cycle: true exactly if some entry has the tag, then pointing at it; otherwise the position is unchanged |
| FieldIter.Iter.Rewind | BookZone/Pods/nanopb/pb_common.c:32-37 | wrapping around leaves a valid cursor at the first member |
| Bitmap.Mark | BookZone/Pods/nanopb/pb_decode.c:1012-1017 | setting one bit of fields_seen records exactly that index |
| Bitmap.AllMarked | BookZone/Pods/nanopb/pb_decode.c:1049-1069 | the test on whole words and remaining bits passes exactly if every index below the count was recorded, for every count up to 64 |
| Bitmap.LowBitsSet | BookZone/Pods/nanopb/pb_decode.c:1061-1068 | a word equals the shifted all-ones mask exactly if its low bits are set and the others clear |
| Required.RanksComplete | BookZone/Pods/nanopb/pb_decode.c:1034-1047 | all tracked ranks are marked exactly if all tracked required fields were seen |
| Required.FieldOfRank | BookZone/Pods/nanopb/pb_common.c:65-70 | every index below the number of required fields belongs to one of them |
| Decoder.CheckRequired | BookZone/Pods/nanopb/pb_decode.c:1030-1070 | from any final cursor the check passes exactly if every one of the first 64 required fields was seen, whether or not the last field of the table is required |
| InputStream.IStream.Read | BookZone/Pods/nanopb/pb_decode.c:102-138 | all of the bytes or an error; state and bytes_left move together |
| InputStream.IStream.constructor | BookZone/Pods/nanopb/pb_decode.c:159-183 | the whole buffer remains to be read |
| InputStream.IStream.BufRead | BookZone/Pods/nanopb/pb_decode.c:87-100 | the next bytes of the buffer, and state moves by their number |
| InputStream.IStream.ReadByte | BookZone/Pods/nanopb/pb_decode.c:141-157 | the next byte, or an error exactly at the end |
| InputStream.IStream.DecodeVarint32 | BookZone/Pods/nanopb/pb_decode.c:249-253 | the 32-bit varint without the end-of-stream flag |
| InputStream.IStream.SkipString | BookZone/Pods/nanopb/pb_decode.c:289-296 | skips the length and as many bytes as it says |
| InputStream.IStream.DecodeVarint32Eof | BookZone/Pods/nanopb/pb_decode.c:187-247 | the loop computes the specified 32-bit varint; eof exactly at the end of the stream |
| InputStream.IStream.DecodeVarint | BookZone/Pods/nanopb/pb_decode.c:255-275 | the loop computes the specified 64-bit varint |
| InputStream.IStream.SkipVarint | BookZone/Pods/nanopb/pb_decode.c:278-287 | skips to behind the first byte without a continuation bit |
| InputStream.IStream.SkipField | BookZone/Pods/nanopb/pb_decode.c:321-331 | skips exactly what the wire type says and conserves state plus bytes_left |
| InputStream.IStream.DecodeTag | BookZone/Pods/nanopb/pb_decode.c:298-319 | the tag and wire type, or end of message at a zero tag or at the end of the stream, or an error |
| InputStream.IStream.MakeSubstream | BookZone/Pods/nanopb/pb_decode.c:372-385 | the substream covers exactly the declared length and the parent's remaining length excludes it |
| InputStream.IStream.CloseSubstream | BookZone/Pods/nanopb/pb_decode.c:387-400 | the parent goes on right behind the declared length, however much of the substream was used |
| Decoder.DecVarint | BookZone/Pods/nanopb/pb_decode.c:1329-1364 | a signed integer or an error exactly as specified, and framing conserved; at most data_size bytes are written, also on an error |
| Decoder.DecUvarint | BookZone/Pods/nanopb/pb_decode.c:1366-1388 | an unsigned integer or an error exactly as specified, and framing conserved; at most data_size bytes are written, also on an error |
| Decoder.DecSvarint | BookZone/Pods/nanopb/pb_decode.c:1390-1412 | a zigzag integer or an error exactly as specified, and framing conserved; at most data_size bytes are written, also on an error |
| Decoder.DecBool | BookZone/Pods/nanopb/pb_decode.c:1264-1267 | true exactly for a 32-bit varint other than zero; one byte is written, or none on an error |
| Decoder.DecFixed32 | BookZone/Pods/nanopb/pb_decode.c:1283-1296 | the four bytes shifted together are the little-endian value; four bytes are written, or none on an error |
| Decoder.DecFixed64 | BookZone/Pods/nanopb/pb_decode.c:1298-1315 | the eight bytes shifted together are the little-endian value; eight bytes are written, or none on an error |
| Decoder.DecScalar | BookZone/Pods/nanopb/pb_decode.c:68-82 | each field type gets its own decoder, and none writes more than data_size bytes |
| Decoder.DecBytes | BookZone/Pods/nanopb/pb_decode.c:1431-1466 | the bytes, or an error exactly if they do not fit the member or the stream is short; nothing is written beyond data_size |
| Decoder.DecString | BookZone/Pods/nanopb/pb_decode.c:1468-1501 | the string up to its first zero byte, or an error exactly if it does not fit with a terminator; nothing is written beyond data_size |
| Decoder.DecFixedLengthBytes | BookZone/Pods/nanopb/pb_decode.c:1527-1548 | exactly data_size bytes, or zeros for an empty payload |
| Decoder.DecSubmessage | BookZone/Pods/nanopb/pb_decode.c:1503-1525 | the nested message, merged into what is there unless repeated; the parent ends right behind the declared length; every write, default setting included, stays inside its member and inside the submessage |
| Decoder.FieldSetToDefault | BookZone/Pods/nanopb/pb_decode.c:836-906 | exactly the writes of default setting, the count cleared in place of a fixed count array included; if those stay inside their members the slot is unset: flag, count and selector cleared, contents the default value of the table or zeros |
| Decoder.MessageSetToDefaults | BookZone/Pods/nanopb/pb_decode.c:908-919 | the walk over the table makes exactly the writes of default setting, and produces the defaults of every member if those stay inside their members |
| Decoder.DecodePackedItems | BookZone/Pods/nanopb/pb_decode.c:436-445 | the substream loop refines the specified packed decoding; on every input, also one that fails half way, every write is inside the array or its count |
| Decoder.DecodePackedArray | BookZone/Pods/nanopb/pb_decode.c:424-452 | the packed branch refines the specified decoding, array overflow included, and writes only to the array and its count |
| Decoder.DecodeArray | BookZone/Pods/nanopb/pb_decode.c:424-464 | one more entry, or array overflow when the array is full; success or not, all writes are inside the array and its count |
| Decoder.DecodeOne | BookZone/Pods/nanopb/pb_decode.c:413-423 | a required, optional or oneof field: presence or which_ set, a oneof submessage started from its defaults, and nothing written outside these |
| Decoder.DecodeStaticField | BookZone/Pods/nanopb/pb_decode.c:406-480 | one field refined for each of the four repetition rules; success or not, all writes stay inside the members of the field |
| Decoder.EnterArray | BookZone/Pods/nanopb/pb_decode.c:988-1010 | the counter is switched to a newly found fixed count array exactly if the previous one is complete |
| Decoder.MarkRequired | BookZone/Pods/nanopb/pb_decode.c:1012-1017 | the bitmap records a required field among the first 64, and nothing else |
| Decoder.DecodeFound | BookZone/Pods/nanopb/pb_decode.c:988-1020 | a record of a field in the table, with counter and bitmap, refines the specified step |
| Decoder.DecodeUnknown | BookZone/Pods/nanopb/pb_decode.c:957-986 | a record of no field in the table is skipped, but an empty table takes its terminator for a boolean field, and writes it to the byte an empty struct has |
| Decoder.CheckComplete | BookZone/Pods/nanopb/pb_decode.c:1023-1070 | passes exactly if the last fixed count array is complete and the tracked required fields were seen |
| Decoder.DecodeRound | BookZone/Pods/nanopb/pb_decode.c:943-1021 | one round of the loop, with iterator, bitmap and counter, refines the record decoding it is specified by |
| Decoder.DecodeInto | BookZone/Pods/nanopb/pb_decode.c:925-1073 | pb_decode_noinit with its cursor, bitmap and fixed count counter terminates on every input, refines the specified decoding, and on success moves state by exactly the drop in bytes_left; on every input, accepted or not, every write at every depth (contents, has_ flags, counts, which_ selectors, defaults) stays inside its member |
| Decoder.DecodeNew | BookZone/Pods/nanopb/pb_decode.c:1075-1087 | the same for pb_decode, whose writes all stay inside their members, on every input, if and only if setting the struct to its defaults does |
| OutputStream.OStream.BufWrite | BookZone/Pods/nanopb/pb_encode.c:74-84 | the bytes go to the cursor and nothing else in the buffer changes |
| OutputStream.OStream.Write | BookZone/Pods/nanopb/pb_encode.c:103-131 | a sizing stream counts; a real one takes the bytes exactly if they fit |
| OutputStream.OStream.EncodeVarint | BookZone/Pods/nanopb/pb_encode.c:608-628 | the loop over the ten-byte buffer emits the specified varint |
| OutputStream.OStream.FromBuffer | BookZone/Pods/nanopb/pb_encode.c:86-101 | a stream that may fill the buffer up to the given size |
| OutputStream.OStream.WriteSize | BookZone/Pods/nanopb/pb_encode.c:103-131 | only counts |
| OutputStream.OStream.EncodeSvarint | BookZone/Pods/nanopb/pb_encode.c:630-639 | emits the zigzag varint |
| OutputStream.OStream.EncodeFixed32 | BookZone/Pods/nanopb/pb_encode.c:641-651 | emits four bytes, little-endian |
| OutputStream.OStream.EncodeFixed64 | BookZone/Pods/nanopb/pb_encode.c:653-667 | emits eight bytes, little-endian |
| OutputStream.OStream.EncodeTag | BookZone/Pods/nanopb/pb_encode.c:669-673 | emits field number and wire type as one varint |
| OutputStream.OStream.EncodeTagForField | BookZone/Pods/nanopb/pb_encode.c:675-707 | emits the tag with the wire type of the field |
| OutputStream.OStream.EncodeString | BookZone/Pods/nanopb/pb_encode.c:709-715 | emits the length and the data |
| Encoder.EncContents | BookZone/Pods/nanopb/pb_encode.c:739-765 | the second pass always has the size the first pass found, so "submsg size changed" is never reported |
| Encoder.EncSubmessage | BookZone/Pods/nanopb/pb_encode.c:717-765 | the sizing pass and the writing pass together emit the length and the contents |
| Encoder.EncScalar | BookZone/Pods/nanopb/pb_encode.c:769-913 | each field type emits its specified payload, or fails as specified |
| Encoder.EncTagged | BookZone/Pods/nanopb/pb_encode.c:392-398 | emits a tag and a payload, failing if either does |
| Encoder.CheckProto3Default | BookZone/Pods/nanopb/pb_encode.c:240-337 | true exactly if the field, recursively, looks unset |
| Encoder.CheckZero | BookZone/Pods/nanopb/pb_encode.c:270-337 | true exactly if a proto3 singular value is zero or empty, or a submessage of unset fields |
| Encoder.PackedSize | BookZone/Pods/nanopb/pb_encode.c:169-191 | the size computed for a packed array, by multiplication or by a sizing stream, is the size its entries take |
| Encoder.EncPackedItems | BookZone/Pods/nanopb/pb_encode.c:181-204 | the loop emits all entries in order, on a sizing stream and on a real one |
| Encoder.EncPacked | BookZone/Pods/nanopb/pb_encode.c:162-205 | tag, length and entries of a packed array; the length computed first is the length written |
| Encoder.EncUnpackedItems | BookZone/Pods/nanopb/pb_encode.c:209-232 | the loop emits a tagged record for each entry |
| Encoder.EncArray | BookZone/Pods/nanopb/pb_encode.c:147-236 | emits an array packed or unpacked as specified; error exactly if the count exceeds array_size or an entry fails |
| Encoder.EncodeBasicField | BookZone/Pods/nanopb/pb_encode.c:341-426 | emits one field for each repetition rule |
| Encoder.EncodeFields | BookZone/Pods/nanopb/pb_encode.c:528-550 | the loop with its iterator emits all fields in table order |
| Encoder.EncodeMessage | BookZone/Pods/nanopb/pb_encode.c:528-550 | the walk over the table emits the specified bytes on a sizing stream and on a real one alike, and writes nothing outside its part of the buffer |
| Encoder.GetEncodedSize | BookZone/Pods/nanopb/pb_encode.c:567-576 | succeeds exactly if encoding does, with the number of bytes a real stream receives |
| Encoder.EncodeToBuffer | BookZone/Pods/nanopb/pb_encode.c:86-100 | encoding into a buffer of capacity n succeeds exactly if the encoded size can be computed and is at most n |
| AuthProtocol.EveryRunSafe | BookZone/Pods/Alamofire/Source/AuthenticationInterceptor.swift:251-401 | over every interleaving of locked steps and callbacks: at most one refresh is outstanding, exactly while isRefreshing; both pending queues are empty otherwise; every completion handler is in exactly one place and none is called twice; once nothing is left to do, exactly the handlers received have been called |
| AuthProtocol.EveryRunRateBounded | BookZone/Pods/Alamofire/Source/AuthenticationInterceptor.swift:331-367 | in every run, every closed interval as long as the refresh window holds at most max(0, maximumAttempts) refresh starts, although the check and the timestamp read the clock separately |
| AuthOutcomes.RetryAnswered | BookZone/Pods/Alamofire/Source/AuthenticationInterceptor.swift:369-401 | in every run, a request waiting to be retried is told to retry, and nothing else, once the refresh has succeeded, and the error once it has failed |
| AuthOutcomes.AdaptAnswered | BookZone/Pods/Alamofire/Source/AuthenticationInterceptor.swift:369-401 | a request waiting to be adapted is adapted again, with the new credential in place, or fails with the error |
| AuthOutcomes.WaitingServed | BookZone/Pods/Alamofire/Source/AuthenticationInterceptor.swift:369-385 | after a success the waiting requests are dispatched behind all others, in order, adapts before retries |
| AuthOutcomes.WaitingRefused | BookZone/Pods/Alamofire/Source/AuthenticationInterceptor.swift:387-401 | after a failure likewise, each with the error |
| AuthOutcomes.AdaptTold | BookZone/Pods/Alamofire/Source/AuthenticationInterceptor.swift:251-290 | a request to adapt, new or dispatched again, waits while a refresh is going on; else it fails without a credential, gets the current one if that needs no refresh, waits for a refresh that starts, or fails if there were too many; in every run it is told nothing else |
| AuthOutcomes.RetryTold | BookZone/Pods/Alamofire/Source/AuthenticationInterceptor.swift:320-328 | a request to retry waits for the refresh, or is told that there were too many |
| AuthOutcomes.RefreshStarts | BookZone/Pods/Alamofire/Source/AuthenticationInterceptor.swift:331-367 | a refresh starts if and only if there is no window or fewer than maximumAttempts started in it |
| AuthOutcomes.CredentialAfter | BookZone/Pods/Alamofire/Source/AuthenticationInterceptor.swift:218-221 | the credential changes only by the setter and by a successful refresh |
| AuthOutcomes.QueueInOrder | BookZone/Pods/Alamofire/Source/AuthenticationInterceptor.swift:225-225 | the dispatch queue is worked off from the front and filled at the back |
| AuthProtocol.RateBounded | BookZone/Pods/Alamofire/Source/AuthenticationInterceptor.swift:354-367 | the same, from what the check guarantees about each single timestamp |
| AuthProtocol.RateStaysKept | BookZone/Pods/Alamofire/Source/AuthenticationInterceptor.swift:331-340 | a refresh that was not excessive when checked is not excessive when it starts |
| AuthProtocol.StepKeeps | BookZone/Pods/Alamofire/Source/AuthenticationInterceptor.swift:251-401 | each step keeps all of these invariants |
| AuthProtocol.SuccessDispatches | BookZone/Pods/Alamofire/Source/AuthenticationInterceptor.swift:369-385 | a successful refresh moves all pending handlers to the dispatch queue, none lost or duplicated |
| AuthProtocol.FailureDispatches | BookZone/Pods/Alamofire/Source/AuthenticationInterceptor.swift:387-400 | a failed one does, too |
| AuthProtocol.AdaptKeeps | BookZone/Pods/Alamofire/Source/AuthenticationInterceptor.swift:251-296 | adapt puts the handler it holds into exactly one place |
| Authentication.AuthenticationInterceptor.IsRefreshExcessive | BookZone/Pods/Alamofire/Source/AuthenticationInterceptor.swift:354-367 | the fold over the timestamps counts those in the window |
| Authentication.AuthenticationInterceptor.constructor | BookZone/Pods/Alamofire/Source/AuthenticationInterceptor.swift:241-247 | a new interceptor is in an initial state of the protocol |
| Authentication.AuthenticationInterceptor.HandleRefreshSuccess | BookZone/Pods/Alamofire/Source/AuthenticationInterceptor.swift:369-385 | takes exactly the success step: new credential, queues emptied, adapts before retries dispatched |
| Authentication.AuthenticationInterceptor.HandleRefreshFailure | BookZone/Pods/Alamofire/Source/AuthenticationInterceptor.swift:387-401 | takes exactly the failure step |
| Authentication.AuthenticationInterceptor.AdaptRequest | BookZone/Pods/Alamofire/Source/AuthenticationInterceptor.swift:251-290 | adapt with its completion is exactly the step of the protocol |
| Authentication.AuthenticationInterceptor.Refresh | BookZone/Pods/Alamofire/Source/AuthenticationInterceptor.swift:331-352 | takes exactly the refresh step of the protocol |
| Authentication.AuthenticationInterceptor.TryAdapt | BookZone/Pods/Alamofire/Source/AuthenticationInterceptor.swift:252-278 | the locked part of adapt, with the call it decides on, is exactly the protocol's adapt |
| Authentication.AuthenticationInterceptor.DecideRetry | BookZone/Pods/Alamofire/Source/AuthenticationInterceptor.swift:294-318 | retry answers at once exactly in its four early cases, and with which outcome |
| Authentication.AuthenticationInterceptor.RetryRequest | BookZone/Pods/Alamofire/Source/AuthenticationInterceptor.swift:320-328 | the locked part of retry is exactly the protocol's step |
| Authentication.AuthenticationInterceptor.Answer | BookZone/Pods/Alamofire/Source/AuthenticationInterceptor.swift:342-351 | the authenticator's answer is exactly the protocol's step |
| Authentication.AuthenticationInterceptor.RunQueue | BookZone/Pods/Alamofire/Source/AuthenticationInterceptor.swift:381-399 | each item of the dispatch queue is exactly the protocol's step |
| Authentication.AuthenticationInterceptor.MakeCall | BookZone/Pods/Alamofire/Source/AuthenticationInterceptor.swift:277-289 | a call decided on inside the lock is made once, outside it |
| Authentication.AuthenticationInterceptor.SetCredential | BookZone/Pods/Alamofire/Source/AuthenticationInterceptor.swift:218-221 | the setter changes the credential only |
| MultipartFraming.EncodedFormParses | BookZone/Pods/Alamofire/Source/MultipartFormData.swift:320-336 | a reader after the grammar of RFC 2046, section 5.1.1 recovers from the encoding of a non-empty form exactly its parts, in order (their header lines and their bodies) if and only if no part, counted from the end of its delimiter line, contains the delimiter and no header contains a line break |
| MultipartFraming.FormsDistinct | BookZone/Pods/Alamofire/Source/MultipartFormData.swift:373-398 | so two forms whose header names have no colon never encode alike |
| MultipartFraming.BoundaryOctets | BookZone/Pods/Alamofire/Source/MultipartFormData.swift:64-77 | the three boundary texts, octet by octet |
| MultipartFraming.HeaderParses | BookZone/Pods/Alamofire/Source/MultipartFormData.swift:392-398 | a header line whose name has no colon is read as name and value |
| MultipartFraming.PartMisread | BookZone/Pods/Alamofire/Source/MultipartFormData.swift:373-398 | a part that contains the delimiter, or has a line break in a header, is read as some other part, or not at all |
| MultipartFraming.DelimitersLead | BookZone/Pods/Alamofire/Source/MultipartFormData.swift:64-77 | with the line break that only the first part goes without, the three boundary texts make every part follow a delimiter line and the last part be followed by the closing delimiter |
| MultipartFraming.PartParses | BookZone/Pods/Alamofire/Source/MultipartFormData.swift:392-398 | the header lines of a part and its body are told apart |
| MultipartStreams.MultipartFormData.Append | BookZone/Pods/Alamofire/Source/MultipartFormData.swift:305-308 | adds exactly one part at the end |
| MultipartStreams.MultipartFormData.MarkBoundaries | BookZone/Pods/Alamofire/Source/MultipartFormData.swift:327-328 | the flags set on the first and the last part make each part encode as its position requires |
| MultipartStreams.MultipartFormData.EncodeBodyStream | BookZone/Pods/Alamofire/Source/MultipartFormData.swift:400-423 | however the stream is cut into reads, all of it is returned, unless it fails |
| MultipartStreams.MultipartFormData.EncodeBodyPart | BookZone/Pods/Alamofire/Source/MultipartFormData.swift:373-390 | one part as specified, or the failure of its stream |
| MultipartStreams.MultipartFormData.EncodeForm | BookZone/Pods/Alamofire/Source/MultipartFormData.swift:320-336 | encode returns the specified bytes, or an error, reported only if the form or one of its streams has one |
| MultipartStreams.MultipartFormData.WriteBuffer | BookZone/Pods/Alamofire/Source/MultipartFormData.swift:485-501 | whatever part of each write is taken, all bytes go out in order, unless the stream fails or refuses space |
| MultipartStreams.MultipartFormData.WriteBodyStream | BookZone/Pods/Alamofire/Source/MultipartFormData.swift:444-468 | however reads and writes are cut, the body is passed on unchanged |
| MultipartStreams.MultipartFormData.WriteFinalBoundary | BookZone/Pods/Alamofire/Source/MultipartFormData.swift:470-474 | the final boundary, for the last part only |
| MultipartStreams.MultipartFormData.WriteBodyPart | BookZone/Pods/Alamofire/Source/MultipartFormData.swift:427-442 | writes, in four pieces, exactly what encoding the part returns |
| MultipartStreams.MultipartFormData.WriteEncodedData | BookZone/Pods/Alamofire/Source/MultipartFormData.swift:345-369 | writing to a stream without error gives exactly the bytes encode returns if, and only if, the stream never refused space |
| MultipartStreams.AllJoined | BookZone/Pods/Alamofire/Source/MultipartFormData.swift:373-390 | the parts encoded one after another are the encoded form |
| RequestTaskMap.AssociateConsistent | BookZone/Pods/Alamofire/Source/RequestTaskMap.swift:47-87 | a new association keeps the two maps mutually inverse exactly if each side was free or already associated with the other |
| RequestTaskMap.SameCount | BookZone/Pods/Alamofire/Source/RequestTaskMap.swift:89-113 | the three dictionaries have the same size, so the preconditions of the counts hold |
| RequestTaskMap.RunAccurate | BookZone/Pods/Alamofire/Source/RequestTaskMap.swift:47-141 | over every run of new associations and events the maps stay inverse, (true, true) is never stored, and a task is removed exactly at the second of its two events, in either order |
| RequestTaskMap.Map.constructor | BookZone/Pods/Alamofire/Source/RequestTaskMap.swift:39-45 | an empty map is consistent |
| RequestTaskMap.Map.SetTask | BookZone/Pods/Alamofire/Source/RequestTaskMap.swift:47-66 | associates, or removes from all three dictionaries; fatal exactly if there is nothing to remove |
| RequestTaskMap.Map.SetRequest | BookZone/Pods/Alamofire/Source/RequestTaskMap.swift:68-87 | the same from the side of the URL session task |
| RequestTaskMap.Map.AfterGatheringMetrics | BookZone/Pods/Alamofire/Source/RequestTaskMap.swift:115-125 | takes exactly the metrics step; fatal, with nothing changed, exactly for an unknown task or a repeated event |
| RequestTaskMap.Map.AfterCompleting | BookZone/Pods/Alamofire/Source/RequestTaskMap.swift:127-141 | takes exactly the completion step |

## Left out

nanopb:

- Pointer fields, `pb_release` and `allocate_field`: the model has static allocation only; a heap would be needed for the rest.
- Callback fields and extensions, and with them `extension_range_start`: foreign functions with no guarantee about progress or size.
- Custom stream callbacks, the builds without 64-bit integers or with unpacked arrays, and the texts of error messages.
- Structs are values that the decoding methods take and return, where the code writes through `dest` pointers: aliasing of members, padding, and the contents of a struct after a failed decode are not described. The iterator, which computes those pointers, is modelled with addresses, and so are the writes.
- WireFormat.SkipsPayload: does not model a length of 2^32 or more, which the 32-bit decoder may take for a shorter one; `WireFormat.LongLengthMisread` is an example.
- Strings are held up to their terminator, so the loop in `pb_enc_string` that looks for it is not modelled; nor are the bytes behind the terminator.
- Decoder.FieldSetToDefault: does not model the values in an array that is set to its defaults, which have no specified contents (the code clears the first bytes of one of fixed count), nor any value when default setting leaves its member.
- Safety.DecodedEntrySafe: does not speak of decodings that end in an error, after which the count in memory may have overshot; what they write is bounded by Decoder.DecodeArray.
- Decoder.DecodeNew: does not model the values that a write outside a member spoils; it promises the decoded struct only with `DefaultsFit`.
- The null-terminated and delimited variants of encoding and decoding, which wrap the ones modelled.
- `size_t` is unbounded; instead, the encoder is given submessages of less than 2^64 bytes, and the round trip is claimed below 2^32 bytes, where the 32-bit length decoder ends.
- Field number 0 in a table, repeated tags and other malformed tables. An empty table that meets field number 0 is modelled, with what the code does then.
- A struct that does not have the shape its table describes has no counterpart in C; it is given the error result.
- `uint_fast8_t` is taken to have eight bits.
- Shifts and masks are written as multiplication, division and remainder by powers of two.

Alamofire:

- Everything but the three components. The completion handlers are numbers, and what they do when called is not modelled, except that they may call in again.
- AuthProtocol.EveryRunSafe: does not model an authenticator that answers a refresh more than once, never, or from inside `refresh`, where the lock is already held.
- The body of a dispatched block is taken item by item, so that other threads may come in between; the order of the items is kept.
- MultipartFraming.EncodedFormParses: does not model a second call of `encode` on the same form, whose boundary flags and streams are used up, nor the empty form, which encodes to nothing.
- A stream that is appended to two parts, which only the first would read. File checks, MIME types and random boundaries.
- Header folding: the parser takes each line of a header as it stands.
- MultipartStreams.MultipartFormData.WriteEncodedData: does not model a stream that reports a write of zero bytes without an error, on which the loop does not end.
- The branch of `RequestTaskMap` for watchOS, which gathers no metrics.

BookZone's own view controllers and Firebase calls are not part of this model.
