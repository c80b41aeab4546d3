# YieldMe: verified models of its vendored cores

The application is a thin user interface over libraries that it ships as source. This
project models the four of them that hold real algorithms, and proves what they are for.

* **nanopb 0.3.9.10**, the table-driven Protocol Buffers encoder and decoder.
  `Schema` is the data model: descriptors, messages and their storage shape. `Wire`,
  `Encoding` and `Decoding` say what the bytes of a message are and what any bytes mean,
  as functions. `OutputStream`, `Encoder`, `InputStream`, `Iterator`, `RequiredFields` and
  `Decoder` are the program itself, with its streams, buffers, cyclic iterator, bit mask
  and loops, each method proved to compute those functions; `DefaultPass` has the memory
  that the default pass writes. `Merging` says what merging a message into another means.
  `RoundTrip`, `Framing`, `Spoiling`, `Merge`, `Bounds` and `Acceptance` hold the laws:
  decoding an encoding is merging it and onto a fresh structure gives it back, exactly when
  all messages come back, messages back to back, last one wins, unknown fields are
  transparent, whatever is accepted is within its bounds, and exactly when a message is
  accepted. `OnTheWire`, `Items` and `Defaults` tie the functions to the format itself:
  which bytes records and values are, what a reader without the field steps over, and so
  forward compatibility; which numbers, strings and arrays are accepted or sent; and what
  reads as default.
* **Alamofire's `AuthenticationInterceptor`** (`Interceptor`): a state machine whose steps
  are the locked sections and the entries of the jobs on its serial queue, in any
  interleaving, and the object whose methods are those steps. `Draining` says how long it
  goes on by itself, `Outcomes` what each caller is told and when a refresh is let through.
* **BigInt addition** (`BigNumbers`): word loops with carries over inline, slice and array
  storage refine integer addition.
* **Alamofire's `RequestTaskMap`** (`RequestTaskMaps`): two inverse maps and an event table.

`PB_SIZE_MAX` and the range of `size_t` are left open among the widths that occur.
All static fields are covered: required, optional, proto3 singular, repeated, fixed-count
and oneof, of every logical type, nested to any depth.

Places where the code does less than its documentation, descriptors or callers suggest:

* The default pass writes a zero count through the size pointer of every array. A
  fixed-count array has no count member, so that write lands on its first item, and behind
  the array when the array is smaller than a `pb_size_t` (`WritesInside`, `CountSpills`).
* Two unions back to back whose gap equals `PB_SIZE_MAX` are taken for one
  (`IteratorRefinesLayout`, `MarkersCollide`), and the default pass misses the second
  (`WritesInside`, `UnionMissed`).
* Where the size of a submessage wraps in the encoder's limit test, the test passes
  (`LimitTestExact`).
* In an empty message type, a record with field number 0 is not skipped but handed to the
  boolean decoder (`TransparentExactly`, `EmptyTypeFails`).
* A proto3 singular field with a default other than zero does not round trip
  (`RecoversExactly`, `SpoiledMessage`, `RoundTripExactly`).
* Inserting a task or request that is still tied elsewhere leaves a stale entry
  (`InsertKeeps`).
* The bit position of the 32-bit varint decoder is an 8-bit number and wraps on overlong
  input (`OverlongWraps`).
* The documentation recommends a refresh window against endless refreshes. Any window that
  lets a single refresh through only spaces them out (`EndlessExactly`,
  `WindowBoundsSteps`).

## Model

| member | source | states |
|---|---|---|
| Wire.VarintRoundTrip | YieldMe/Pods/nanopb/pb_encode.c:608-628 | for every 64-bit value and every suffix, the 64-bit varint decoder on the encoding returns the value and leaves the suffix |
| Wire.VarintLength | YieldMe/Pods/nanopb/pb_encode.c:608-628 | the encoding needs at most n bytes iff the value fits in 7n bits |
| Wire.VarintAtMostTen | YieldMe/Pods/nanopb/pb_encode.c:608-628 | ten bytes always suffice |
| Wire.VarintShortest | YieldMe/Pods/nanopb/pb_decode.c:255-275 | nothing that decodes to a value is shorter than what the encoder emits for it |
| Wire.Varint32Refines | YieldMe/Pods/nanopb/pb_decode.c:187-247 | wherever both varint decoders accept they consume the same bytes, and the 32-bit result is the low word of the 64-bit one; the bit position is an 8-bit counter that wraps |
| Wire.Varint32Exact | YieldMe/Pods/nanopb/pb_decode.c:187-247 | on canonical input the 32-bit decoder accepts exactly the 32-bit values and the values whose upper groups are a sign extension; it yields the low word and leaves the suffix |
| Wire.Varint32RoundTrip | YieldMe/Pods/nanopb/pb_decode.c:187-253 | every 32-bit value comes back |
| Wire.Varint32RejectsLarge | YieldMe/Pods/nanopb/pb_decode.c:214-231 | every value from 2^32 up to 2^63 is rejected |
| Wire.Varint32AcceptsNegative | YieldMe/Pods/nanopb/pb_decode.c:214-231 | every sign-extended negative int32 is accepted and gives its word |
| Wire.ZigzagRoundTrip | YieldMe/Pods/nanopb/pb_encode.c:630-639 | zigzag of an int64 is 64-bit and is undone by the decoder's unfolding |
| Wire.UnzigzagRoundTrip | YieldMe/Pods/nanopb/pb_decode.c:1285-1297 | the unfolding is undone by zigzag: together a bijection |
| Wire.ZigzagIsFolding | YieldMe/Pods/nanopb/pb_encode.c:630-639 | the shift-and-complement form is 2n for n >= 0 and -2n-1 below |
| Wire.FixedRoundTrip | YieldMe/Pods/nanopb/pb_decode.c:1299-1332 | little-endian words of any width read back |
| Wire.DelimitedRoundTrip | YieldMe/Pods/nanopb/pb_decode.c:372-400 | a length-prefixed string of under 2^32 bytes reads back with any suffix left |
| Wire.HeaderRoundTrip | YieldMe/Pods/nanopb/pb_decode.c:298-319 | every tag in 1..2^29-1 with every wire type reads back as a field header, never as the zero that ends a message |
| Wire.Take | YieldMe/Pods/nanopb/pb_decode.c:102-139 | a read of n bytes splits the input exactly there |
| Wire.ToSigned | YieldMe/Pods/nanopb/pb_decode.c:1345-1380 | the cast to a signed width lies in range and keeps every value of that range |
| Wire.ToUnsigned | YieldMe/Pods/nanopb/pb_decode.c:1382-1404 | the cast to an unsigned width lies in range and keeps every value of that range |
| Wire.HeaderLocal | YieldMe/Pods/nanopb/pb_decode.c:298-319 | reading a header does not depend on what follows it |
| Wire.SkipFieldLocal | YieldMe/Pods/nanopb/pb_decode.c:321-331 | skipping a field does not depend on what follows it |
| Schema.IndexOf | YieldMe/Pods/nanopb/pb_common.c:87-104 | the first descriptor with the tag, or none |
| Schema.StrLen | YieldMe/Pods/nanopb/pb_encode.c:873-897 | the first NUL, or the whole buffer when there is none |
| Schema.DefaultMFits | YieldMe/Pods/nanopb/pb_decode.c:917-928 | the values that the default pass leaves have the shape of their descriptors, at any depth |
| DefaultPass.WritesInside | YieldMe/Pods/nanopb/pb_decode.c:845-928 | against the true offsets of the structure's members: the default pass writes only inside the members that it is there to set, at any depth, iff every fixed-count array it comes to is at least as large as a pb_size_t and no two unions it comes to are taken for one |
| DefaultPass.CollisionMisses | YieldMe/Pods/nanopb/pb_common.c:53-59 | the first union taken for the one before it has the which-member of that one set instead of its own |
| DefaultPass.CountSpills | YieldMe/Pods/nanopb/pb_decode.c:871-878 | for an array of two bools with a four-byte pb_size_t the count is written over the array and two bytes behind it |
| DefaultPass.UnionMissed | YieldMe/Pods/nanopb/pb_decode.c:871-878 | with an 8-bit pb_size_t and colliding unions, though there is room for every count, a which-member is missed |
| DefaultPass.DefaultStays | YieldMe/Pods/nanopb/pb_decode.c:845-928 | the default pass leaves a structure as it is that differs from its own result in items of fixed-count arrays only |
| DefaultPass.StrayCountsCovered | YieldMe/Pods/nanopb/pb_decode.c:1084-1096 | whatever the stray counts make of the items of fixed-count arrays, the loop then does what pb_decode does to a structure with those items, so that all that holds of decoding into any structure holds |
| Encoding.BoundedEncodes | YieldMe/Pods/nanopb/pb_encode.c:341-427 | every message within its bounds has an encoding |
| Encoding.SameEncodes | YieldMe/Pods/nanopb/pb_encode.c:341-550 | messages that differ only in what a reader cannot see (absent optionals, unused slots, inactive union members, bytes behind a NUL) have the same encoding |
| OutputStream.OStream.FromBuffer | YieldMe/Pods/nanopb/pb_encode.c:86-101 | a buffer stream starts at the first byte with the buffer's size as limit |
| OutputStream.OStream.Sizing | YieldMe/Pods/nanopb/pb_encode.c:567-576 | a stream without callback only counts |
| OutputStream.OStream.Substream | YieldMe/Pods/nanopb/pb_encode.c:743-748 | the limited second stream of a submessage, on the same memory |
| OutputStream.OStream.BufWrite | YieldMe/Pods/nanopb/pb_encode.c:74-84 | the bytes land behind each other at the old position; no other byte of the buffer changes |
| OutputStream.OStream.Write | YieldMe/Pods/nanopb/pb_encode.c:103-124 | all or nothing: written exactly if the limit allows it, counted in size_t, and bytes_written never exceeds max_size |
| OutputStream.OStream.CatchUp | YieldMe/Pods/nanopb/pb_encode.c:755-756 | the parent continues where the substream stopped, with its bytes counted |
| OutputStream.OStream.Followed | YieldMe/Pods/nanopb/pb_encode.c:528-550 | what two writers owe one after the other is what one writer of the concatenation owes |
| Encoder.VarintBytes | YieldMe/Pods/nanopb/pb_encode.c:608-628 | the local buffer is never overrun and holds exactly the varint |
| Encoder.EncodeVarint | YieldMe/Pods/nanopb/pb_encode.c:608-628 | the stream gets exactly the varint, or a prefix when it does not fit |
| Encoder.EncodeSvarint | YieldMe/Pods/nanopb/pb_encode.c:630-639 | the varint of the zigzag |
| Encoder.EncodeFixed32 | YieldMe/Pods/nanopb/pb_encode.c:641-651 | four bytes, little endian |
| Encoder.EncodeFixed64 | YieldMe/Pods/nanopb/pb_encode.c:653-666 | eight bytes, little endian |
| Encoder.NegativeVarintBytes | YieldMe/Pods/nanopb/pb_encode.c:583-606 | feeding 32 one-bits in through the top of a 32-bit register leaves exactly the ten bytes of the sign-extended value's 64-bit varint |
| Encoder.EncodeNegativeVarint | YieldMe/Pods/nanopb/pb_encode.c:583-606 | the stream gets the 64-bit encoding of the negative value |
| Encoder.NegativeVarintLength | YieldMe/Pods/nanopb/pb_encode.c:583-606 | a sign-extended negative value always takes ten bytes |
| Encoder.EncodeTag | YieldMe/Pods/nanopb/pb_encode.c:669-673 | the varint of the tag and the wire type |
| Encoder.EncodeTagForField | YieldMe/Pods/nanopb/pb_encode.c:675-707 | the tag with the wire type that belongs to the field's type |
| Encoder.EncodeString | YieldMe/Pods/nanopb/pb_encode.c:709-715 | length and bytes |
| Encoder.EncodeValue | YieldMe/Pods/nanopb/pb_encode.c:769-911 | each of the per-type encoders: exactly the specified bytes, a string up to its NUL or the end of its buffer, or an error where a bytes field is larger than its buffer |
| Encoder.EncodePackedItems | YieldMe/Pods/nanopb/pb_encode.c:180-204 | the items of a packed array without tags |
| Encoder.EncodeItems | YieldMe/Pods/nanopb/pb_encode.c:209-232 | the items of an unpacked array, each behind its tag |
| Encoder.PackedFixedSize | YieldMe/Pods/nanopb/pb_encode.c:170-177 | the length computed for packed fixed-width items by multiplication is the length of their encoding |
| Encoder.EncodePackedArray | YieldMe/Pods/nanopb/pb_encode.c:164-205 | tag, the length that the sizing pass found, and the items: a sizing stream counts the same |
| Encoder.EncodeArray | YieldMe/Pods/nanopb/pb_encode.c:147-236 | an empty array leaves no trace and an overfull one is an error |
| Encoder.EncodeSubmessage | YieldMe/Pods/nanopb/pb_encode.c:717-765 | sizing pass, length, and writing pass into a limited substream: the two passes agree, so that the exit for a changed size is never taken when the encoding fits size_t |
| Encoder.EncodePayload | YieldMe/Pods/nanopb/pb_encode.c:724-765 | the writing pass behind the length; where bytes_written and size wrap in size_t, the limit test lets the submessage through and the stream is marked lost |
| Encoder.LimitTestExact | YieldMe/Pods/nanopb/pb_encode.c:740-741 | that test is right iff the sum does not wrap |
| Encoder.CheckProto3Default | YieldMe/Pods/nanopb/pb_encode.c:240-337 | the presence rule for proto3: absent exactly if zero, recursively through submessages |
| Encoder.CheckZeroMessage | YieldMe/Pods/nanopb/pb_encode.c:289-308 | a submessage is absent exactly if all its fields are |
| Encoder.EncodeBasicField | YieldMe/Pods/nanopb/pb_encode.c:341-427 | one field: required always, optional and singular by presence, the active union member only |
| Encoder.Encode | YieldMe/Pods/nanopb/pb_encode.c:528-550 | the iterator-driven loop emits the fields in descriptor order: on any stream exactly the specified encoding, success iff it exists and fits, otherwise a prefix; no other byte changes |
| Encoder.EncodeDelimited | YieldMe/Pods/nanopb/pb_encode.c:552-555 | the message behind its length |
| Encoder.EncodeNullTerminated | YieldMe/Pods/nanopb/pb_encode.c:557-565 | the message with a zero byte behind it |
| Encoder.GetEncodedSize | YieldMe/Pods/nanopb/pb_encode.c:567-576 | the sizing pass fails if there is no encoding, and gives the exact length of every encoding that fits size_t |
| Encoder.EncodeToBuffer | YieldMe/Pods/nanopb/pb_encode.c:528-550 | encoding into a buffer succeeds iff the encoding exists and fits; then the buffer starts with it; bytes behind what was written are untouched even on failure, unless the stream got lost, which no message that has an encoding does |
| InputStream.IStream.FromBuffer | YieldMe/Pods/nanopb/pb_decode.c:159-179 | a stream over the whole buffer |
| InputStream.IStream.Read | YieldMe/Pods/nanopb/pb_decode.c:102-139 | succeeds iff enough bytes are left, and position plus bytes left stays constant |
| InputStream.IStream.ReadByte | YieldMe/Pods/nanopb/pb_decode.c:141-157 | the first byte, iff there is one |
| InputStream.IStream.DecodeVarint32 | YieldMe/Pods/nanopb/pb_decode.c:187-253 | the loop with its 8-bit counter computes the specified 32-bit decoding; end of input is reported exactly when nothing was left |
| InputStream.IStream.DecodeVarint | YieldMe/Pods/nanopb/pb_decode.c:255-275 | the loop computes the specified 64-bit decoding |
| InputStream.IStream.SkipVarint | YieldMe/Pods/nanopb/pb_decode.c:278-287 | skips to the byte without continuation bit |
| InputStream.IStream.SkipString | YieldMe/Pods/nanopb/pb_decode.c:289-296 | skips length and contents |
| InputStream.IStream.SkipField | YieldMe/Pods/nanopb/pb_decode.c:321-331 | skips one field of the given wire type, or fails on an invalid one |
| InputStream.IStream.DecodeTag | YieldMe/Pods/nanopb/pb_decode.c:298-319 | header, end of message at a zero tag, or error |
| InputStream.IStream.MakeStringSubstream | YieldMe/Pods/nanopb/pb_decode.c:372-385 | the substream sees exactly the delimited bytes; the parent gives them up and both stay inside the buffer; the substream is strictly shorter |
| InputStream.IStream.CloseStringSubstream | YieldMe/Pods/nanopb/pb_decode.c:387-400 | the parent stands behind the delimited bytes, whatever the substream left unread |
| Iterator.FieldIter.Begin | YieldMe/Pods/nanopb/pb_common.c:8-27 | at the first field, or on the terminator of an empty message type |
| Iterator.FieldIter.Next | YieldMe/Pods/nanopb/pb_common.c:29-85 | one field on with the data pointer and the required-field index of that field, or back to the first |
| Iterator.FieldIter.Find | YieldMe/Pods/nanopb/pb_common.c:87-104 | true iff a field has the tag (in an empty message type: iff the tag is 0), then positioned on it; otherwise back where it started |
| Iterator.IteratorRefinesLayout | YieldMe/Pods/nanopb/pb_common.c:29-85 | for descriptors built by the placement rules, every address the iterator computes is the true offset iff no two adjacent unions lie exactly PB_SIZE_MAX apart, where the gap reads as the union marker |
| Iterator.SizeAtOffset | YieldMe/Pods/nanopb/pb.h:395-435 | without such a collision the address kept for the has, count or which member is the true one as well |
| Iterator.MarkersCollide | YieldMe/Pods/nanopb/pb.h:401-409 | the collision happens for well-formed descriptors, and the address is then wrong: with an 8-bit pb_size_t, a union of a 255-byte string and a bool in front of another union |
| Iterator.StorageDisjoint | YieldMe/Pods/nanopb/pb.h:401-409 | the storage the iterator hands out for fields of different unions never overlaps |
| Iterator.UnionShares | YieldMe/Pods/nanopb/pb_common.c:53-59 | members of one union share their address |
| RequiredFields.WordTest | YieldMe/Pods/nanopb/pb_decode.c:1062-1078 | comparing a word with the mask of k ones is testing its k lowest bits |
| RequiredFields.AllSeenByRank | YieldMe/Pods/nanopb/pb_decode.c:1021-1026 | required fields and bits of the mask correspond one to one, by rank |
| RequiredFields.RecordWord | YieldMe/Pods/nanopb/pb_decode.c:1021-1026 | setting one bit records exactly that field |
| RequiredFields.CheckWords | YieldMe/Pods/nanopb/pb_decode.c:1060-1078 | the test of whole words and remainder passes iff every one of the first 64 required fields was seen |
| Decoder.MessageSetToDefaults | YieldMe/Pods/nanopb/pb_decode.c:845-928 | the iterator-driven default pass: the values it leaves, and exactly the list of writes to memory, by the iterator's addresses |
| Decoder.FieldSetToDefault | YieldMe/Pods/nanopb/pb_decode.c:845-898 | has-flag false, count 0, which-member 0, the rest its default value or zero, with the writes that do so; of a count written over a fixed-count array only the write is told |
| Decoder.DecodeInt | YieldMe/Pods/nanopb/pb_decode.c:1345-1428 | the three varint types with their range checks per width |
| Decoder.DecodeBytes | YieldMe/Pods/nanopb/pb_decode.c:1447-1485 | size checked against the storage before anything is written |
| Decoder.DecodeString | YieldMe/Pods/nanopb/pb_decode.c:1487-1523 | room for the NUL is checked, and the NUL is written |
| Decoder.DecodeFixedLength | YieldMe/Pods/nanopb/pb_decode.c:1549-1570 | exactly the declared length, or a cleared array for length 0 |
| Decoder.DecodeSubmessage | YieldMe/Pods/nanopb/pb_decode.c:1525-1547 | the nested decoder on the substream; items of arrays are reset first |
| Decoder.DecodePacked | YieldMe/Pods/nanopb/pb_decode.c:425-453 | a packed run, stopping at a full array, which is an error if bytes are left |
| Decoder.DecodeArray | YieldMe/Pods/nanopb/pb_decode.c:424-464 | a packed run or one item; overflow is an error |
| Decoder.DecodeMember | YieldMe/Pods/nanopb/pb_decode.c:466-478 | a union switches: a submessage that was not active is zeroed and set to defaults first |
| Decoder.DecodeStaticField | YieldMe/Pods/nanopb/pb_decode.c:406-483 | one record of a static field does to the structure what the specification says |
| Decoder.DecodeKnown | YieldMe/Pods/nanopb/pb_decode.c:997-1029 | one record of a known field with its bookkeeping: fixed-count counter, required bit |
| Decoder.CountRequired | YieldMe/Pods/nanopb/pb_decode.c:1041-1055 | seeking to the end gives the number of required fields, from any position, the last field included |
| Decoder.FinalTest | YieldMe/Pods/nanopb/pb_decode.c:1032-1079 | the final test is the specified acceptance |
| Decoder.DecodeNoInit | YieldMe/Pods/nanopb/pb_decode.c:934-1082 | the whole field loop equals the specified decoder on every input: it terminates, keeps position plus bytes left, and the value it leaves in every field, also on failure, has the shape of its descriptor |
| Decoder.Decode | YieldMe/Pods/nanopb/pb_decode.c:1084-1096 | default pass and loop, on values |
| Decoder.DecodeDelimited | YieldMe/Pods/nanopb/pb_decode.c:1113-1126 | one delimited message from a substream |
| Acceptance.LoopRecords | YieldMe/Pods/nanopb/pb_decode.c:997-1029 | the loop's bookkeeping is the history of records: a tracked required field is marked iff a record of it arrived, and all runs of fixed-count arrays are complete iff the last one is |
| Acceptance.RecordEffect | YieldMe/Pods/nanopb/pb_decode.c:997-1029 | a record marks its required field; one of a fixed-count array adds its items to the running count, or, when another array was in progress, demands that one complete and starts anew |
| Acceptance.AcceptedExactly | YieldMe/Pods/nanopb/pb_decode.c:934-1082 | decoding succeeds iff the loop gets through, a record arrived for each of the first 64 required fields, and every run of a fixed-count array brought exactly array_size items |
| OnTheWire.VarintGroups | YieldMe/Pods/nanopb/pb_encode.c:608-628 | a varint is the number in groups of seven bits, least significant first, with the continuation bit on all bytes but the last |
| OnTheWire.Varint64Exact | YieldMe/Pods/nanopb/pb_decode.c:255-275 | for every byte string, canonical or not: accepted iff one of the first ten bytes is below 128, giving the low 64 bits of the number in the groups |
| OnTheWire.OverlongWraps | YieldMe/Pods/nanopb/pb_decode.c:213-236 | the 8-bit position wraps: behind 37 empty groups the 32-bit decoder takes a 1 for an 8, where the 64-bit decoder gives up |
| OnTheWire.KeyIsKnown | YieldMe/Pods/nanopb/pb_encode.c:675-707 | the key of a field is the varint of 8 times its number plus the literal 0, 1, 2 or 5 of its logical type |
| OnTheWire.ValueOnTheWire | YieldMe/Pods/nanopb/pb_encode.c:769-911 | the bytes of each type: groups of the 64-bit two's complement whatever the width, sign-in-lowest-bit, little endian, or length and contents |
| OnTheWire.UnknownExactly | YieldMe/Pods/nanopb/pb_decode.c:321-331 | under the keys 8t, 8t+1, 8t+2 and 8t+5 of a number the schema lacks, what is stepped over as one record is exactly: bytes of which the last is the first below 128, eight bytes, a length and as many bytes, four bytes |
| OnTheWire.GroupsNotSkipped | YieldMe/Pods/nanopb/pb_decode.c:321-331 | under the wire types 3, 4, 6 and 7 nothing is |
| OnTheWire.GroupsRefused | YieldMe/Pods/nanopb/pb_decode.c:321-331 | and decoding fails, whatever follows |
| OnTheWire.StepsOver | YieldMe/Pods/nanopb/pb_decode.c:321-331 | a reader steps over exactly the bytes that the encoder writes for a value, of every type |
| OnTheWire.SentIsUnknown | YieldMe/Pods/nanopb/pb_decode.c:991-995 | every value behind its key is a record of an unknown field to a schema without that number |
| OnTheWire.PackedIsUnknown | YieldMe/Pods/nanopb/pb_decode.c:991-995 | so is every packed array |
| OnTheWire.FieldsSkipped | YieldMe/Pods/nanopb/pb_decode.c:991-995 | a reader that knows none of the fields from i on comes through their encoding as it was, onto whatever follows |
| OnTheWire.NewFieldsIgnored | YieldMe/Pods/nanopb/pb_decode.c:991-995 | forward compatibility: for every bounded message with fields and union members added behind those the reader knows, its encoding decodes, or fails, exactly as the encoding of the part the reader knows, onto any structure |
| OnTheWire.EncodingExhausts | YieldMe/Pods/nanopb/pb_decode.c:934-1037 | no encoding stops its own decoding: the loop runs to its last byte |
| OnTheWire.ZeroTagEnds | YieldMe/Pods/nanopb/pb_decode.c:951-957 | a zero behind an encoding ends decoding there: same message, and exactly what follows is left |
| OnTheWire.RestDropped | YieldMe/Pods/nanopb/pb_decode.c:1525-1547 | in a submessage, what follows a zero tag up to the announced length is dropped |
| OnTheWire.DelimitedRestDropped | YieldMe/Pods/nanopb/pb_decode.c:1113-1126 | in a delimited message too |
| Items.SignedAccepted | YieldMe/Pods/nanopb/pb_decode.c:1345-1380 | plain signed integers, iff: 8-byte fields take the 64 bits, narrower ones the low 32 bits in two's complement, refused when they do not fit the field |
| Items.UnsignedAccepted | YieldMe/Pods/nanopb/pb_decode.c:1382-1404 | unsigned integers, iff: the 64-bit number, refused when it does not fit |
| Items.ZigzagAccepted | YieldMe/Pods/nanopb/pb_decode.c:1406-1428 | zigzag integers, iff: the unfolded 64-bit number, refused when it does not fit |
| Items.BoolReads | YieldMe/Pods/nanopb/pb_decode.c:1334-1343 | every 32-bit number reads as true but 0 |
| Items.FixedReads | YieldMe/Pods/nanopb/pb_decode.c:1299-1332 | any four or eight bytes read as the word with the first byte lowest, fewer are an error |
| Items.BytesAccepted | YieldMe/Pods/nanopb/pb_decode.c:1447-1485 | bytes, iff: all there and within the room behind the size member |
| Items.StringAccepted | YieldMe/Pods/nanopb/pb_decode.c:1487-1523 | strings, iff: all there with room for the NUL that is put behind |
| Items.FixedLengthAccepted | YieldMe/Pods/nanopb/pb_decode.c:1549-1570 | fixed-length bytes, iff: of that length, or of length 0, which clears the field |
| Items.EncodesExactly | YieldMe/Pods/nanopb/pb_encode.c:147-236 | a message has an encoding iff every bytes field that is present is within its buffer and every count within its array, at any depth |
| Items.PackedShape | YieldMe/Pods/nanopb/pb_encode.c:164-205 | a packable array is one record under wire type 2 that holds as many items as the count says |
| Items.UnpackedItem | YieldMe/Pods/nanopb/pb_decode.c:455-464 | a packable array takes a single item under its own wire type as well, iff it has room |
| Items.EmptyRun | YieldMe/Pods/nanopb/pb_decode.c:423-451 | an empty packed run is accepted by every array, a full one included |
| Items.WireTypeIgnored | YieldMe/Pods/nanopb/pb_decode.c:406-483 | the wire type of a known field is not looked at, but to tell a packed run from an item |
| Items.ZeroNotSent | YieldMe/Pods/nanopb/pb_encode.c:240-337 | the zero value of a proto3 singular field is not sent, iff it is not a fixed-length field of some length |
| Items.LeftOutExactly | YieldMe/Pods/nanopb/pb_encode.c:289-308 | a message counts as zero, and is left out, iff its encoding is empty |
| Defaults.DefaultsRead | YieldMe/Pods/nanopb/pb_decode.c:845-928 | whatever the structure held, at every depth the pass comes to: a field holds its declared default if it has one and zero otherwise, has-flags, counts and which-members are cleared, and items and union members keep what they held |
| Defaults.NeverArrived | YieldMe/Pods/nanopb/pb_decode.c:1084-1096 | through pb_decode: a field of which no record arrived reads that, and a union of which no member arrived is unset |
| Defaults.EmptyRecord | YieldMe/Pods/nanopb/pb_decode.c:1525-1547 | an empty submessage record: an array item starts from defaults, any other field stays as it was |
| Defaults.EmptySwitch | YieldMe/Pods/nanopb/pb_decode.c:466-478 | a union that switches to a submessage starts it from the defaults of zeroed storage, one that has it already goes on with it |
| Merge.LoopConcat | YieldMe/Pods/nanopb/pb_decode.c:952-1030 | running the loop on x ++ y is running it on x and, from the state reached, on y |
| Merge.ConcatenationMerges | YieldMe/Pods/nanopb/pb_decode.c:934-1096 | "Last One Wins": without required and fixed-count fields, decoding x ++ y is decoding x and then y on top of it |
| Merge.SubmessagesMerge | YieldMe/Pods/nanopb/pb_decode.c:1525-1547 | two records of one submessage field merge as one record with both payloads |
| Merge.UnknownFieldTransparent | YieldMe/Pods/nanopb/pb_decode.c:991-995 | an unknown record at any record boundary changes neither success, message, nor bytes left, in the middle of a fixed-count run either |
| Merge.TransparentExactly | YieldMe/Pods/nanopb/pb_decode.c:966-995 | that holds for unknown records under number t at every boundary iff t is not 0 or the message type has fields |
| Merge.EmptyTypeFails | YieldMe/Pods/nanopb/pb_common.c:87-104 | a record under number 0 that is skipped elsewhere makes an empty message type fail: the terminator is found, and its type reads a bool |
| Merge.UnknownString | YieldMe/Pods/nanopb/pb_decode.c:289-331 | every length-delimited record under a number outside the schema is such an unknown record |
| Merging.MergeMFits | YieldMe/Pods/nanopb/pb_decode.c:406-483 | the merge of two messages has the shape of the descriptors |
| Merging.VacantRoom | YieldMe/Pods/nanopb/pb_decode.c:845-928 | what the default pass leaves has room for every message within its bounds |
| Merging.MergeAlike | YieldMe/Pods/nanopb/pb_decode.c:406-483 | merging into structures that are alike gives structures that are alike, and one has room if the other has |
| RoundTrip.DefaultsFresh | YieldMe/Pods/nanopb/pb_decode.c:845-928 | after the default pass nothing counts as received |
| RoundTrip.ValueMerged | YieldMe/Pods/nanopb/pb_decode.c:1334-1570 | every encoded value of every type is merged into whatever its storage held, any suffix left |
| RoundTrip.ItemsArrive | YieldMe/Pods/nanopb/pb_decode.c:455-464 | the items of an unpacked array are appended one by one, counted in the structure or by the decoder |
| RoundTrip.PackedArrives | YieldMe/Pods/nanopb/pb_decode.c:428-453 | the items of a packed array are appended from one record |
| RoundTrip.MessageLoop | YieldMe/Pods/nanopb/pb_decode.c:952-1030 | from any state of the loop, behind the encoding of a message it holds what it held with that message merged in, whatever follows |
| RoundTrip.MessageMerged | YieldMe/Pods/nanopb/pb_decode.c:934-1082 | for every schema, every structure with room and every message within its bounds, decoding the encoding onto the structure succeeds, consumes everything and leaves the merge: last scalar wins, arrays are appended to, submessages merge, unions switch |
| RoundTrip.MessageMergedExactly | YieldMe/Pods/nanopb/pb_decode.c:934-1082 | for every structure and every message within its bounds, decoding the encoding succeeds iff the structure's arrays have room for the items, at any depth |
| RoundTrip.Concatenated | YieldMe/Pods/nanopb/pb_decode.c:934-1082 | two encodings one behind the other decode iff there is room for both, to one message and then the other merged in |
| RoundTrip.FreshMerge | YieldMe/Pods/nanopb/pb_decode.c:845-928 | merging into a fresh structure gives the message |
| RoundTrip.MessageRoundTrip | YieldMe/Pods/nanopb/pb_decode.c:934-1082 | for every schema and every message within its bounds, decoding the encoding onto a fresh structure succeeds, consumes everything and gives the same message, up to absent optionals, unused slots, inactive union members and bytes behind a NUL |
| Framing.DecodeRoundTrip | YieldMe/Pods/nanopb/pb_decode.c:1084-1096 | the same through pb_decode, onto any structure |
| Framing.DecodeMerges | YieldMe/Pods/nanopb/pb_decode.c:1084-1096 | for any schema, pb_decode of an encoding leaves the message merged into the default values |
| Framing.RecoversExactly | YieldMe/Pods/nanopb/pb_decode.c:1084-1096 | whatever the defaults, a message comes back iff merging it into the default values gives it |
| Framing.DefaultsNeeded | YieldMe/Pods/nanopb/pb_encode.c:355-359 | with a proto3 singular field whose default is not zero, a zero message does not come back, whatever else is in the schema |
| Spoiling.SpoiledMessage | YieldMe/Pods/nanopb/pb_encode.c:355-359 | for every schema with such a default at any depth there is a message within its bounds that no structure gives back |
| Spoiling.RoundTripExactly | YieldMe/Pods/nanopb/pb_encode.c:355-359 | for every schema whose bounded messages are short enough to send: all messages come back iff every proto3 singular field, at any depth outside arrays without items, has zero for a default |
| Framing.DecodeConcatenated | YieldMe/Pods/nanopb/pb_decode.c:1084-1096 | two encodings one behind the other through pb_decode, iff there is room for the second: one and then the other merged into the default values |
| Framing.DelimitedMessage | YieldMe/Pods/nanopb/pb_decode.c:1113-1126 | a delimited message with any suffix comes back and leaves the suffix |
| Framing.BackToBack | YieldMe/Pods/nanopb/pb_decode.c:1113-1126 | n delimited messages written back to back come back in order by n calls, and exactly what follows is left |
| Framing.NullTerminatedMessage | YieldMe/Pods/nanopb/pb_decode.c:1128-1132 | a null-terminated message followed by anything decodes to the message and stops exactly behind the zero |
| Bounds.DecodeKept | YieldMe/Pods/nanopb/pb_decode.c:1084-1096 | for every byte string, a message that pb_decode accepts has every count within its array, every bytes size within its buffer, every string terminated and every union tag valid: outside fixed-count arrays in any case, and inside them as well if the structure's own were within their bounds |
| Bounds.ReceivedKept | YieldMe/Pods/nanopb/pb_decode.c:1000-1037 | a fixed-count array of which any record arrived is within its bounds in all items, whatever the structure held: as a whole if the storage of its items was ready, and apart from fixed-count arrays inside the items in any case |
| Bounds.StruckKept | YieldMe/Pods/nanopb/pb_decode.c:845-928 | the same for a structure in whose default values the stray counts have set things to zero |
| Bounds.ZeroedKept | YieldMe/Pods/nanopb/pb_decode.c:871-878 | setting sizes, characters, has-flags, counts and which-members to zero keeps a message within its bounds |
| Bounds.AlwaysReady | YieldMe/Pods/nanopb/pb_decode.c:871-878 | without fixed-count arrays any structure will do |
| Bounds.DecodeEncodeDecode | YieldMe/Pods/nanopb/pb_decode.c:1084-1096 | what decoding any input yields can be encoded, and decodes to itself again, onto anything |
| Interceptor.CallsConserved | YieldMe/Pods/Alamofire/Source/AuthenticationInterceptor.swift:250-402 | over every run of locked sections and queue entries in any interleaving, each call is in as many places as it was handed in; refreshing holds iff exactly one refresh is outstanding; not refreshing implies both lists are empty |
| Interceptor.StepConserves | YieldMe/Pods/Alamofire/Source/AuthenticationInterceptor.swift:250-402 | each atomic step keeps that |
| Interceptor.EveryCallCompletesOnce | YieldMe/Pods/Alamofire/Source/AuthenticationInterceptor.swift:250-402 | no completion runs twice, and once nothing is outstanding exactly the calls handed in have completed |
| Draining.ClientFreeBounded | YieldMe/Pods/Alamofire/Source/AuthenticationInterceptor.swift:330-402 | while no client acts, the number of steps is bounded by the calls held and the refreshes started, whatever the credentials and however refreshes turn out |
| Draining.StepPays | YieldMe/Pods/Alamofire/Source/AuthenticationInterceptor.swift:250-402 | each such step uses up potential or starts a refresh |
| Draining.EveryCallDrains | YieldMe/Pods/Alamofire/Source/AuthenticationInterceptor.swift:370-402 | once clients stop and the credentials stay usable every run is bounded, and when no step is left every call has completed |
| Draining.WindowBoundsSteps | YieldMe/Pods/Alamofire/Source/AuthenticationInterceptor.swift:355-368 | with a window, the steps in any time span of its length are bounded, whatever the credentials |
| Draining.NeverStuck | YieldMe/Pods/Alamofire/Source/AuthenticationInterceptor.swift:340-402 | as long as something is outstanding such a step is possible |
| Draining.ForbiddenBounded | YieldMe/Pods/Alamofire/Source/AuthenticationInterceptor.swift:355-368 | a window that lets no refresh through bounds every run without clients |
| Draining.EndlessExactly | YieldMe/Pods/Alamofire/Source/AuthenticationInterceptor.swift:234-243 | one adapt call can keep the interceptor busy for ever, from the initial state, iff there is no window or the window lets a single refresh through |
| Interceptor.SlidingWindow | YieldMe/Pods/Alamofire/Source/AuthenticationInterceptor.swift:330-368 | in every run every closed time window of the configured length, wherever it lies, holds at most the configured number of started refreshes |
| Interceptor.RefreshKeepsRate | YieldMe/Pods/Alamofire/Source/AuthenticationInterceptor.swift:330-368 | starting a refresh keeps that, although the clock is read twice |
| Interceptor.InitialState | YieldMe/Pods/Alamofire/Source/AuthenticationInterceptor.swift:241-246 | the initial state satisfies all invariants |
| Outcomes.ToldExactly | YieldMe/Pods/Alamofire/Source/AuthenticationInterceptor.swift:250-402 | over every run from the start: a call is told only a result that an event has settled for it, and once nothing is outstanding it has been told all of those; settled means: adapted with the credential in force, the error of the guard that failed, the failure of the refresh it waited for, or to retry when that refresh succeeded |
| Outcomes.StepSettles | YieldMe/Pods/Alamofire/Source/AuthenticationInterceptor.swift:250-402 | a step comes to owe a call a result exactly by settling it; nothing owed is lost or changed on its way through the queue |
| Outcomes.ToldForReason | YieldMe/Pods/Alamofire/Source/AuthenticationInterceptor.swift:250-402 | over every run, for each completion a reason at some moment of the run: retry only after a successful refresh the call waited for or under a credential that is gone, do-not-retry only without a response or an authentication error, adapted only with the credential in force, each error only for its cause |
| Outcomes.RefreshExactly | YieldMe/Pods/Alamofire/Source/AuthenticationInterceptor.swift:330-368 | a refresh that a call wants is started iff there is no window or the window ending now holds fewer than its maximum; then it is dispatched for the wanted credential and the call is held back, otherwise the call goes to the queue with the error |
| Outcomes.StartedExactly | YieldMe/Pods/Alamofire/Source/AuthenticationInterceptor.swift:330-368 | over every run exactly those refreshes are started, and stamped with the time of their start |
| Outcomes.CredentialInForce | YieldMe/Pods/Alamofire/Source/AuthenticationInterceptor.swift:370-376 | in every reachable state the credential is the last that a refresh brought or the client set |
| Outcomes.FirstComeFirstServed | YieldMe/Pods/Alamofire/Source/AuthenticationInterceptor.swift:319-402 | over every run: the retry calls that the queue has completed, then those waiting on it, then those held back, are the calls that took the lock in the order in which they took it |
| Interceptor.AuthenticationInterceptor.constructor | YieldMe/Pods/Alamofire/Source/AuthenticationInterceptor.swift:241-246 | starts idle and empty |
| Interceptor.AuthenticationInterceptor.IsRefreshExcessive | YieldMe/Pods/Alamofire/Source/AuthenticationInterceptor.swift:355-368 | the counting loop decides whether the window is full |
| Interceptor.AuthenticationInterceptor.HandleRefreshSuccess | YieldMe/Pods/Alamofire/Source/AuthenticationInterceptor.swift:370-386 | new credential, both lists drained onto the queue, no longer refreshing |
| Interceptor.AuthenticationInterceptor.HandleRefreshFailure | YieldMe/Pods/Alamofire/Source/AuthenticationInterceptor.swift:388-402 | both lists drained onto the queue with the error, no longer refreshing |
| Interceptor.AuthenticationInterceptor.Refresh | YieldMe/Pods/Alamofire/Source/AuthenticationInterceptor.swift:330-353 | refused when excessive, else stamped and queued |
| Interceptor.AuthenticationInterceptor.Adapt | YieldMe/Pods/Alamofire/Source/AuthenticationInterceptor.swift:250-289 | the locked section of adapt and its completion, as a step of the protocol |
| Interceptor.AuthenticationInterceptor.Retry | YieldMe/Pods/Alamofire/Source/AuthenticationInterceptor.swift:293-317 | the guards of retry, with the credential read outside the lock, as a step |
| Interceptor.AuthenticationInterceptor.RetryLocked | YieldMe/Pods/Alamofire/Source/AuthenticationInterceptor.swift:319-325 | the locked section of retry, as a step |
| Interceptor.AuthenticationInterceptor.RunQueue | YieldMe/Pods/Alamofire/Source/AuthenticationInterceptor.swift:340-401 | one entry of the serial queue, as a step |
| Interceptor.AuthenticationInterceptor.RefreshDone | YieldMe/Pods/Alamofire/Source/AuthenticationInterceptor.swift:342-351 | the authenticator's completion, as a step |
| Interceptor.AuthenticationInterceptor.SetCredential | YieldMe/Pods/Alamofire/Source/AuthenticationInterceptor.swift:219-222 | the public setter, as a step |
| BigNumbers.PutAt | YieldMe/Pods/BigInt/Sources/BigUInt.swift:199-255 | writing a digit changes that digit and no other, keeps the digits normal, and extends by no more than needed |
| BigNumbers.PutValue | YieldMe/Pods/BigInt/Sources/BigUInt.swift:223-255 | writing a digit changes the integer by exactly that digit's worth |
| BigNumbers.Canonical | YieldMe/Pods/BigInt/Sources/BigUInt.swift:133-163 | equal integers have equal digits |
| BigNumbers.CarriesNeverBoth | YieldMe/Pods/BigInt/Sources/Addition.swift:49-58 | of the two additions of one turn at most one overflows, and digit and carry are their sum |
| BigNumbers.BorrowsNeverBoth | YieldMe/Pods/BigInt/Sources/Subtraction.swift:76-85 | the same for the two subtractions |
| BigNumbers.AddingTurns | YieldMe/Pods/BigInt/Sources/Addition.swift:47-60 | one turn of the carry loop loses nothing, touches one word and makes progress |
| BigNumbers.SubtractingTurns | YieldMe/Pods/BigInt/Sources/Subtraction.swift:74-87 | one turn of the borrow loop |
| BigNumbers.AddBothWays | YieldMe/Pods/BigInt/Sources/Addition.swift:16-61 | run on equal integers, addWord and add of the integer made of the word leave the very same digits |
| BigNumbers.BigUInt.IsZero | YieldMe/Pods/BigInt/Sources/BigUInt.swift:71-78 | true iff the integer is 0 |
| BigNumbers.BigUInt.Count | YieldMe/Pods/BigInt/Sources/BigUInt.swift:186-197 | the number of digits without leading zeros, on all three kinds of storage |
| BigNumbers.BigUInt.Get | YieldMe/Pods/BigInt/Sources/BigUInt.swift:210-222 | the digit at the index, zero past the end, on all three kinds of storage |
| BigNumbers.BigUInt.Normalize | YieldMe/Pods/BigInt/Sources/BigUInt.swift:133-163 | leading zeros go and the digits stay |
| BigNumbers.BigUInt.EnsureArray | YieldMe/Pods/BigInt/Sources/BigUInt.swift:89-102 | the storage becomes an array with the same digits |
| BigNumbers.BigUInt.Replace | YieldMe/Pods/BigInt/Sources/BigUInt.swift:240-247 | overwriting a digit inside the integer |
| BigNumbers.BigUInt.Extend | YieldMe/Pods/BigInt/Sources/BigUInt.swift:249-255 | writing past the end, with zeros in between |
| BigNumbers.BigUInt.Set | YieldMe/Pods/BigInt/Sources/BigUInt.swift:223-238 | the digit setter on all three kinds of storage |
| BigNumbers.BigUInt.AddWord | YieldMe/Pods/BigInt/Sources/Addition.swift:16-26 | adds the word moved up by shift words; the words below stay |
| BigNumbers.BigUInt.Add | YieldMe/Pods/BigInt/Sources/Addition.swift:42-61 | terminates, adds b moved up by shift words exactly, and leaves the words below the shift unchanged |
| BigNumbers.BigUInt.Sum | YieldMe/Pods/BigInt/Sources/Addition.swift:67-71 | a new integer with the sum |
| BigNumbers.BigUInt.Increment | YieldMe/Pods/BigInt/Sources/Addition.swift:77-79 | adds one |
| BigNumbers.BigUInt.SubtractReportingOverflow | YieldMe/Pods/BigInt/Sources/Subtraction.swift:68-89 | the exact difference; overflow iff b is larger, and then the complement of the difference |
| BigNumbers.BigUInt.Minus | YieldMe/Pods/BigInt/Sources/Subtraction.swift:143-145 | the exact difference for a >= b |
| BigNumbers.BigUInt.Compare | YieldMe/Pods/BigInt/Sources/Comparable.swift:17-25 | the order of the digits is the order of the integers |
| BigNumbers.Signed | YieldMe/Pods/BigInt/Sources/BigInt.swift:51-54 | sign and magnitude, with zero always positive |
| BigNumbers.AddSigned | YieldMe/Pods/BigInt/Sources/Addition.swift:98-119 | over all four sign cases the result is the integer sum, and never a negative zero |
| RequestTaskMaps.InsertKeeps | YieldMe/Pods/Alamofire/Source/RequestTaskMap.swift:62-64 | inserting keeps the two maps inverse iff the pair is fresh or already tied together |
| RequestTaskMaps.RunKeeps | YieldMe/Pods/Alamofire/Source/RequestTaskMap.swift:47-148 | over every run of fresh insertions, removals and events the maps stay inverse and the events are those of the live tasks |
| RequestTaskMaps.CountsAgree | YieldMe/Pods/Alamofire/Source/RequestTaskMap.swift:89-113 | the three counts, which the properties insist on, agree |
| RequestTaskMaps.RemovalsAgree | YieldMe/Pods/Alamofire/Source/RequestTaskMap.swift:49-81 | removing by task and removing by request come to the same |
| RequestTaskMaps.LiveExactly | YieldMe/Pods/Alamofire/Source/RequestTaskMap.swift:49-81 | a task or request can be removed iff the other map ties something to it, and a task that cannot be removed has no events |
| RequestTaskMaps.RemovedIsGone | YieldMe/Pods/Alamofire/Source/RequestTaskMap.swift:49-81 | a fresh pair that is put in and removed, by either key, leaves no trace; every access to what is not there is a consistency error |
| RequestTaskMaps.GoneAfterBoth | YieldMe/Pods/Alamofire/Source/RequestTaskMap.swift:115-148 | in every run after its insertion, whatever happens to other tasks, a task is gone iff both of its events happened |
| RequestTaskMaps.SecondEventDisassociates | YieldMe/Pods/Alamofire/Source/RequestTaskMap.swift:115-148 | each event of a task is accepted exactly once and returns true iff it is the second, in either order |
| RequestTaskMaps.GoneAfterCompletion | YieldMe/Pods/Alamofire/Source/RequestTaskMap.swift:127-148 | where metrics are not gathered, in every run after its insertion, a task is gone iff its completion happened |
| RequestTaskMaps.CompletionDisassociates | YieldMe/Pods/Alamofire/Source/RequestTaskMap.swift:127-148 | there a completion is accepted exactly if it is the first, and disassociates the task |
| RequestTaskMaps.RequestTaskMap.TaskOf | YieldMe/Pods/Alamofire/Source/RequestTaskMap.swift:47-48 | the task whose request this is, read from the inverse map |
| RequestTaskMaps.RequestTaskMap.RequestOf | YieldMe/Pods/Alamofire/Source/RequestTaskMap.swift:68-69 | the request whose task this is |
| RequestTaskMaps.RequestTaskMap.SetTask | YieldMe/Pods/Alamofire/Source/RequestTaskMap.swift:49-65 | inserts or removes in all three tables; removing an unknown request is a consistency error |
| RequestTaskMaps.RequestTaskMap.SetRequest | YieldMe/Pods/Alamofire/Source/RequestTaskMap.swift:70-86 | the same, keyed by the task |
| RequestTaskMaps.RequestTaskMap.DisassociateIfNecessaryAfterGatheringMetrics | YieldMe/Pods/Alamofire/Source/RequestTaskMap.swift:115-125 | marks or disassociates; an unknown task or a repeated event is a consistency error |
| RequestTaskMaps.RequestTaskMap.DisassociateIfNecessaryAfterCompleting | YieldMe/Pods/Alamofire/Source/RequestTaskMap.swift:127-148 | marks or disassociates, depending on the platform |

## Left out

- nanopb callbacks, extension fields, pointer fields and dynamic allocation; `pb_release`, and custom stream callbacks: user code and heap management. The shipped build switches allocation on, which changes nothing for static fields.
- Error message strings: only success and failure are modelled.
- The message structure is passed into and out of encoder and decoder methods as a value. Storage in place is covered by the address lemmas of `Iterator`; aliasing of caller memory is not. What a failed decoding leaves in the structure is only known to fit its storage.
- Members of a union keep their own last value in the model, where in memory they overwrite each other. Only the active member is ever compared.
- Numbers are integers rather than bytes, a bool in memory is its truth value, and structure padding is not modelled.
- Exits for an invalid `data_size` and for a missing submessage descriptor cannot be taken for the descriptors considered here.
- Encoder.EncodeSubmessage: promises the outcome only for encodings that fit size_t, like every encoder method. Where the limit test is passed by a wrapped sum the source goes on to write past the limit; the model marks the stream lost and stops, and promises nothing of memory from there on.
- Bounds.DecodeKept: says nothing about items of fixed-count arrays of which no record arrived, unless the structure's own items were within their bounds; those keep what the caller's memory held. The stray counts come in through StruckKept, for the pass over the whole structure and not for those of array items.
- Schema.DefaultMFits: speaks of values, where a fixed-count array keeps its items. The count that the pass writes over it is in the list of writes, not in the items, and what lies behind a too small array is not modelled as memory.
- Decoder.FieldSetToDefault: the same.
- Decoder.MessageSetToDefaults: the same.
- Decoder.DecodeNoInit: the same, for the default passes of submessages; otherwise the place of a field in memory is the iterator's address, and the decoder fills the field's value.
- Decoder.Decode: the same.
- Encoder.GetEncodedSize: promises nothing for encodings longer than size_t can count.
- RoundTrip.Concatenated: excludes top-level fixed-count arrays, of which a second complete run in a row is refused.
- Framing.DefaultsNeeded: speaks of top-level fields of schemas whose zero message can be sent; defaults at any depth are the matter of Spoiling.RoundTripExactly.
- Merge.ConcatenationMerges: is stated without required and fixed-count fields, whose final test looks at one call only.
- Interceptor.EveryCallCompletesOnce: assumes that the authenticator completes each refresh once. Real threads, dispatch queues, locks and the identity of sessions and requests are left out; a completion runs together with the locked section that decides on it.
- Interceptor.SlidingWindow: assumes a clock that does not go back; time is a real number, not a floating-point one.
- A retry whose credential became stale between reading it and taking the lock may start a refresh; that is kept as it is, and nothing is claimed to the contrary.
- BigNumbers.BigUInt.Add: the argument is a separate object, as it is a copy in the source. Capacity, shifting, multiplication, division and the rest of BigInt are left out.
- RequestTaskMaps.RequestTaskMap.SetTask: a consistency error is a result, where the source stops the program; likewise in the other methods.
- RequestTaskMaps.GoneAfterBoth: explicit removals of the task or of its request are excluded throughout, also after the task is gone and the request is tied to another one.
- The application itself, the rest of Alamofire and of BigInt, BoringSSL's error table and the binary SDKs.
