# Verified models of Snappy, protobuf and Redigo

This project models the three hardest pieces of a Go code base and proves what they are for. The
order in each part is the same: a specification as datatypes and functions, methods and classes with
the loops and fields of the source proved against it, and theorems about the specification.

`dafny verify dfyconfig.toml` checks everything.

## What is modelled

**Snappy** (`snappy_*.dfy`). `SnappyFormat` says what a chunk is, which bytes it has and what it does to
the output (Lempel-Ziv copying one byte at a time). `SnappyDecode` has the decoder's loop on an array and
shows that it decides the format: it succeeds exactly on the bodies that denote data of the wanted
length. `SnappyEncode` has the block encoder with its hash table, skip heuristic and nested loops. Its
decisions are recorded as a list of literals and greedy matches (`Op`), and all its promises - round trip,
offsets below 65536, output bound - are theorems about such lists, so they do not depend on the hash.
`SnappyFraming`, `SnappyWriter`, `SnappyReader` and `SnappyStream` model the framing format (sections 3 and
4.1 to 4.6 of its description): a stream is specified by what it *delivers*, the writer keeps its sink
a stream of what it has accepted, and the reader hands out exactly what its source delivers.

The bound. `Encode` writes the length header first, so a block has less room than the comment of
`encodeBlock` assumes (golang/snappy/encode_other.go:109-111 against golang/snappy/encode.go:26-37).
`EncodeBlock` therefore promises n + n/60 + 3 bytes, and `BlockFits` shows that header and blocks stay within
32 + n + n/6.

**Protobuf** (`proto_*.dfy`, `varints.dfy`). Reflection is replaced by a schema: a table of message types
with fields in tag order. `ProtoSchema` gives the canonical encoding `Ser` of a message, `ProtoDecode` what
the decoding loop computes on *any* bytes, including the counter and bitmap of required fields. The classes
`ProtoDecoder.Buffer` (an index in a byte slice) and `ProtoEncoder.Buffer` (a slice with its backing array,
where length prefixes are put in front of messages in place) are proved against these two functions. On top
are the laws: round trip, concatenation is merging, preservation of unknown fields, agreement of sizes. They
are stated for messages of their type, and whatever is decoded from any bytes is one (`DecodesTyped`).

Three laws hold only under conditions, and the exact conditions are proved:

* Decoding two messages behind each other equals `Merge` if and only if no two messages that get merged
  both have unknown fields (`ConcatenationIsMerge`): decoding appends them
  (golang/protobuf/proto/decode.go:330-340), merging replaces them (golang/protobuf/proto/clone.go:98-105).
* Unmarshal is documented to report required fields that are not in the bytes
  (golang/protobuf/proto/encode.go:46-49). It misses some. A message's own required fields are always reported
  if and only if there is at most one, or none numbered above 64 has a payload that decodes without a report
  (`ReliableIff`); the source mentions this imprecision (golang/protobuf/proto/decode.go:551-556), and `Hides`
  gives the bytes for every type that has it. Whether there is such a payload is decided by the schema:
  `LeastSize` computes how long the shortest one is, in one round for every type, and `ShortestSilent` proves
  that this is exact - bytes of that length, and none shorter - for every schema, cycles included.
  The source does not mention that a group, at its end, drops what has been noticed inside it
  (golang/protobuf/proto/decode.go:474-481): `GroupsHideWhatIsInside` is the smallest case. `AlwaysReports` is
  what the schema must say of a type for required fields at every depth, and `DeeplyReliableIff` proves that it
  is enough and that, for schemas whose shortest silent records fit a length prefix together, less is not: own
  fields reliable in this sense; in every group of a message that can be silent at most one required field, or
  all numbered up to 64, and nothing inside that has required fields at all; and the same for the types of the
  messages in messages that can be silent.
* `Marshal` refuses some messages that are not larger than the documented limit: exactly those whose `Peak`, the
  largest length that is checked with four bytes for every length prefix still open, exceeds it (`TooBigIff`).
  `TooBigIsNearLimit` bounds it, `LimitIsNotExact` is an example.

**Text strings** (`proto_text.dfy`, `proto_text_io.dfy`). Quoted strings of the text format: `writeString`,
the tokeniser and `unquoteC` undo each other for every byte string.

**Redigo** (`redis_*.dfy`). Every critical section of the connection pool and of the multiplexer is a
function on the fields its mutex protects, and a method of a class is proved equal to it. `PoolRuns` and
`MuxRuns` are transition systems whose steps are these sections; dialling, testing, closing and sleeping lie
between steps, and test results, dial results, the clock and the order of steps are arbitrary. Invariants
over all reachable states give conservation, limits and the absence of lost wake-ups for the pool, and the
matching of replies to callers for the multiplexer. `RespFormat` and `RedisConn` model the protocol (sections
"Bulk strings" and "Arrays" of the RESP specification) and a pipelined connection, whose other end parses the
bytes that reach it and answers every command it finds, as an arbitrary function of the command and its number.

Where bytes are written, the contracts say what all of the memory is afterwards: `Splice(s, at, t)` is `s`
with `t` written over it at `at`.

## Model

| member | source | states |
|---|---|---|
| SnappyFormat.CopyRun | golang/snappy/snappy.go:27-29 | Lempel-Ziv copying byte by byte, so a run may overlap what it produces; it adds exactly n bytes. |
| SnappyFormat.RunConcat | golang/snappy/snappy.go:15-39 | The meaning of chunks behind other chunks is the meaning of the second sequence on the output of the first, or failure if the first fails. |
| SnappyFormat.RunPrefix | golang/snappy/snappy.go:27-29 | A body means the same after any earlier output, so the bodies of 64 KiB blocks may be put behind each other. |
| SnappyFormat.RunGrows | golang/snappy/snappy.go:15-39 | No chunk takes output away. |
| SnappyDecode.ReadWritten | golang/snappy/decode_other.go:17-83 | Reading the header of the bytes of any in-range chunk gives that chunk's own header, for all four tags. |
| SnappyDecode.WriteRead | golang/snappy/decode_other.go:17-83 | Whatever header can be read, the bytes it was read from are the wire form of an in-range chunk. |
| SnappyDecode.UniquelyDecodable | golang/snappy/snappy.go:15-39 | Different sequences of in-range chunks have different bytes. |
| SnappyDecode.DecodesWire | golang/snappy/decode_other.go:14-101 | Completeness: the bytes of every legal chunk sequence decode to its meaning. |
| SnappyDecode.DecodedChunk | golang/snappy/decode_other.go:16-96 | One pass of the decoder takes an in-range chunk that applies to the output so far, and decoding goes on with its meaning. |
| SnappyDecode.DecodedIsLegal | golang/snappy/decode_other.go:14-101 | Soundness: what decodes without error is the bytes of a legal chunk sequence with that meaning and the wanted length. |
| SnappyDecode.DecodeFromDecides | golang/snappy/decode_other.go:14-101 | The decoder succeeds with some data if and only if its input is a body that denotes this data and the data has the wanted length. |
| SnappyDecode.LiteralLength | golang/snappy/decode_other.go:19-47 | The five ways a literal's length is stored, against the format; false exactly when the input ends inside the header. |
| SnappyDecode.LiteralLengthAsInt | golang/snappy/decode_other.go:48-51 | `int(x) + 1` on 32 and 64 bits: positive exactly when the length fits an int, and then right. |
| SnappyDecode.CopyTag | golang/snappy/decode_other.go:60-83 | Position, length and offset of the three kinds of copy; an offset that does not fit an int is negative. |
| SnappyDecode.DecodeLiteral | golang/snappy/decode_other.go:18-58 | A literal takes the decoder on to the same outcome from the positions reached, or reports the outcome's error code. |
| SnappyDecode.DecodeCopy | golang/snappy/decode_other.go:60-95 | The same for copies. |
| SnappyDecode.ForwardCopy | golang/snappy/decode_other.go:93-95 | The byte-by-byte loop computes the Lempel-Ziv run, overlapping or not, and writes nowhere else. |
| SnappyDecode.DecodeBlock | golang/snappy/decode_other.go:14-101 | For any input and any wanted length `decode` ends in bounds and returns 0, 1 or 2 as the format decides; on 0 the first n bytes are the meaning, and nothing behind them changes. |
| SnappyDecode.DecodedLen | golang/snappy/decode.go:32-43 | A length that is accepted fits an int, and its header lies within the input. |
| SnappyDecode.DecodableIff | golang/snappy/decode.go:55-72 | A block is decodable to some data on a platform exactly when its header is accepted and its body decodes to that data. |
| SnappyDecode.Decode | golang/snappy/decode.go:55-72 | Without an error the result is the data the block stands for; with one, the block stands for no data on this platform. Which of the errors; when the given buffer is used and when a new one. |
| SnappyEncode.RunCopies | golang/snappy/encode_other.go:50-88 | The copies written for a match of any length and offset re-create the matched input. |
| SnappyEncode.RunElements | golang/snappy/encode_other.go:112-238 | Whatever parse of its input the encoder settles on, the chunks for it denote the input covered so far. |
| SnappyEncode.PrefixDecodes | golang/snappy/encode_other.go:140-237 | At every point of the encoder's loop the output so far decodes to src[:nextEmit]; every literal is non-empty, every copy has offset 1 to 65535 and length 4 to 65535. |
| SnappyEncode.WireCopiesSize | golang/snappy/encode_other.go:50-88 | A match takes fewer bytes than it stands for. |
| SnappyEncode.WireElementsSize | golang/snappy/encode.go:82-100 | Every literal header is paid for by the match behind it, but for one byte in 60 and 3 bytes for a last literal. |
| SnappyEncode.EmitLiteralHeader | golang/snappy/encode_other.go:26-40 | The switch over the literal's length writes exactly the header bytes and nothing else. |
| SnappyEncode.EmitLiteral | golang/snappy/encode_other.go:25-42 | Appends header and literal behind what has been written; nothing else changes. |
| SnappyEncode.WireLiteralBytes | golang/snappy/encode_other.go:25-42 | These bytes are the wire form of one literal chunk. |
| SnappyEncode.EmitCopy | golang/snappy/encode_other.go:50-88 | The loop of 64-byte copies and the tail append exactly the bytes of the match; nothing else changes. |
| SnappyEncode.EmitCopyTail | golang/snappy/encode_other.go:68-87 | The last one or two copies, split at 60 when more than 64 bytes are left. |
| SnappyEncode.EmitLastCopy | golang/snappy/encode_other.go:77-87 | Two bytes when length and offset allow it, three otherwise. |
| SnappyEncode.WireCopies | golang/snappy/encode_other.go:50-88 | These bytes are the wire form of the match's copy chunks. |
| SnappyEncode.Load32Injective | golang/snappy/encode_other.go:9-12 | Equal four-byte loads mean four equal bytes. |
| SnappyEncode.Load64Shifts | golang/snappy/encode_other.go:14-18 | The shifts of one eight-byte load are the four-byte loads at the next three positions. |
| SnappyEncode.Hash | golang/snappy/encode_other.go:101-103 | A masked hash is an index of the table; this is all that callers may use. |
| SnappyEncode.TableShift | golang/snappy/encode_other.go:122-125 | The hash table gets as large as the input needs, or the largest size. |
| SnappyEncode.ScanForMatch | golang/snappy/encode_other.go:161-179 | The skipping scan finds a real four-byte match before the input margin, or gives up; every table entry stays below the position reached. |
| SnappyEncode.Rehash | golang/snappy/encode_other.go:213-229 | Entering s-1 and s keeps the entries below s+1, and another match reported at s is real. |
| SnappyEncode.ExtendMatch | golang/snappy/encode_other.go:90-99 | The largest k for which the two runs are the same. |
| SnappyEncode.EmitRun | golang/snappy/encode_other.go:181-184 | Writes a pending literal: one more decision, and the bytes written stay within the bound. |
| SnappyEncode.EmitMatch | golang/snappy/encode_other.go:194-208 | Writes a match extended as far as it goes: one more decision, within the bound. |
| SnappyEncode.EmitMatches | golang/snappy/encode_other.go:194-230 | The inner loop: one match after the other until none is found right behind the last; what is written stays the wire form of the decisions, within the bound, and every table entry stays below the position reached. |
| SnappyEncode.EncodeBlock | golang/snappy/encode_other.go:112-238 | The whole block encoder: what it writes is the wire form of a greedy parse of the input, whatever the hash table suggests, in at most n + n/60 + 3 bytes, and nothing else is written. |
| SnappyEncode.MaxEncodedLenIs | golang/snappy/encode.go:76-106 | A bound that is not negative is 32 + n + n/6 and fits an int, on 32 and 64 bits. |
| SnappyEncode.BodyExtends | golang/snappy/encode.go:28-39 | The body of one more block behind a body denotes the concatenated data. |
| SnappyEncode.EncodePart | golang/snappy/encode.go:34-38 | One block of at most 65536 bytes, as a literal when it is short. |
| SnappyEncode.BlockFits | golang/snappy/encode.go:26-39 | Header and blocks together stay within 32 + n + n/6 although the header comes first. |
| SnappyEncode.EncodeBody | golang/snappy/encode.go:28-39 | The loop over the blocks: header and a body that denotes all of the input. |
| SnappyEncode.Encode | golang/snappy/encode.go:18-41 | The result is a block for src within MaxEncodedLen, in dst (and nothing behind it changed) when that is long enough, in a new array otherwise; it panics exactly when MaxEncodedLen is negative. |
| SnappyEncode.RoundTrip | golang/snappy/encode.go:18-41 | Decoding what was encoded gives back exactly src, for every src that MaxEncodedLen accepts and any number of blocks. |
| SnappyFraming.StreamExtends | golang/snappy/encode.go:211-217 | One more chunk, behind the stream identifier only if it is the first. |
| SnappyFraming.StreamSize | golang/snappy/encode.go:207-262 | A stream takes at most nine bytes for every byte of data, and ten for its identifier. |
| SnappyFraming.ChunkDelivers | golang/snappy/decode.go:147-206 | A chunk of the writer delivers its data, compressed or not, before whatever follows. |
| SnappyFraming.StreamDelivers | golang/snappy/decode.go:118-237 | A stream delivers exactly the data of its chunks, then end of file. |
| SnappyWriter.Writer.Compress | golang/snappy/encode.go:228-230 | Every block of at most 65536 bytes is encoded inside the output buffer, and the stream identifier in front stays. |
| SnappyWriter.Writer.FillHead | golang/snappy/encode.go:239-247 | Type, length and checksum of the chunk are put between identifier and body. |
| SnappyWriter.Writer.Prepare | golang/snappy/encode.go:210-247 | What is passed on is a chunk for the data, behind the identifier exactly in the first chunk. |
| SnappyWriter.OneMoreFits | golang/snappy/encode.go:209-260 | One more chunk keeps the pieces a stream, for the data and one piece more, within that size. |
| SnappyWriter.Writer.PassOn | golang/snappy/encode.go:249-259 | Either all bytes of the chunk reach the underlying writer behind the others, or it had less room than they take. |
| SnappyWriter.PieceIsChunk | golang/snappy/encode.go:228-237 | A compressed block that saves more than an eighth, or else the data itself, makes a chunk behind its header, for data of any contents. |
| SnappyWriter.Writer.WriteChunk | golang/snappy/encode.go:209-260 | One pass of the loop extends the stream by one chunk, or the sink has failed. |
| SnappyWriter.Writer.WriteOut | golang/snappy/encode.go:207-262 | All of the data goes out, in chunks of at most 65536 bytes. |
| SnappyWriter.Writer.Write | golang/snappy/encode.go:172-205 | The data accepted grows by exactly p, buffered or passed on, unless the sink fails; the errors are sticky. |
| SnappyWriter.Writer.Flush | golang/snappy/encode.go:265-275 | Empties the buffer without losing anything accepted. |
| SnappyWriter.Writer.Close | golang/snappy/encode.go:278-285 | If it succeeds, everything accepted has been passed on as a stream; afterwards the writer is closed. |
| SnappyReader.Reader.constructor | golang/snappy/decode.go:77-83 | A new reader has everything still to hand out that the stream delivers. |
| SnappyReader.Reader.ReadFull | golang/snappy/decode.go:107-115 | Exactly n bytes or an error: end of file only where it is allowed, corrupt otherwise. |
| SnappyReader.Reader.ReadCompressed | golang/snappy/decode.go:148-179 | A compressed chunk, against its specification: its data or its error. |
| SnappyReader.Reader.ReadUncompressed | golang/snappy/decode.go:181-206 | The same for an uncompressed chunk. |
| SnappyReader.Reader.ReadIdentifier | golang/snappy/decode.go:208-223 | The same for a stream identifier. |
| SnappyReader.Reader.SkipChunk | golang/snappy/decode.go:231-235 | The same for padding and reserved skippable chunks. |
| SnappyReader.Reader.NextChunk | golang/snappy/decode.go:128-235 | Reading a chunk changes nothing about what is pending. |
| SnappyReader.Reader.Read | golang/snappy/decode.go:118-237 | Hands out at most len(p) bytes of what is pending, in order, or the error the stream ends with; every read with room makes progress. |
| SnappyReader.ReadAll | golang/snappy/decode.go:118-237 | Reads of any sizes hand out exactly what the stream delivers. |
| SnappyStream.WriteAll | golang/snappy/encode.go:172-285 | After any writes and flushes and a close the stream is one for exactly the data written, or the underlying writer has failed and holds less than a stream for this data can take; which of the two, the result says. |
| SnappyStream.RoundTrip | golang/snappy/decode.go:118-237 | Any writes and flushes and a close, read back in pieces of any sizes: the data written comes out, then end of file. It can fail only if the underlying writer is full and has less room than the largest stream for this data. |
| ProtoVarint.VarintLow | golang/protobuf/proto/decode.go:63-78 | What n continued bytes decide about the outcome of decoding a varint. |
| ProtoVarint.LowStep | golang/protobuf/proto/decode.go:70-72 | Accumulating in 64 bits loses nothing below the tenth byte, and the tenth contributes what is left modulo 2^64. |
| ProtoVarint.VarintRoundTrip | golang/protobuf/proto/encode.go:95-105 | Every uint64 has a varint of at most ten bytes, and decoding gives it back and takes exactly those bytes. |
| ProtoVarint.VarintLocal | golang/protobuf/proto/decode.go:63-78 | A decoded varint depends on its own bytes only. |
| ProtoVarint.DecodeVarint | golang/protobuf/proto/decode.go:63-78 | The package function: value and size as the format has them, or two zeros. |
| ProtoVarint.EncodeVarint | golang/protobuf/proto/encode.go:95-105 | The package function writes the shortest varint and never leaves its ten bytes. |
| ProtoVarint.SizeVarint | golang/protobuf/proto/encode.go:125-134 | The number of bytes of the varint. |
| ProtoDecoder.Buffer.DecodeVarintSlow | golang/protobuf/proto/decode.go:80-101 | Agrees with the package function on success, value and bytes consumed. |
| ProtoDecoder.Buffer.DecodeVarint | golang/protobuf/proto/decode.go:107-202 | The unrolled form agrees with it too, on every buffer. |
| ProtoDecoder.UnrolledStep | golang/protobuf/proto/decode.go:118-201 | Adding a whole byte and taking the continuation bit away again never overflows before the tenth byte. |
| ProtoDecoder.TenthStep | golang/protobuf/proto/decode.go:189-201 | The tenth byte: the value modulo 2^64, or overflow if it continues. |
| ProtoNumbers.ZigzagRoundTrip | golang/protobuf/proto/encode.go:172-190 | Zigzag coding of 32 and 64 bits is undone by decoding. |
| ProtoNumbers.GetPut | golang/protobuf/proto/decode.go:204-268 | Reading a number that was written in any format consumes exactly its bytes and gives it back, or its low 32 bits in a 32-bit format. |
| ProtoNumbers.KeepsIff | golang/protobuf/proto/encode.go:355-488 | A wire format keeps every value of a field type exactly when it is not a 32-bit format of a 64-bit type. |
| ProtoNumbers.NumberRoundTrip | golang/protobuf/proto/encode.go:355-488 | A field value that is written and read back through its conversions is unchanged, whatever follows. |
| ProtoWire.SkipLocal | golang/protobuf/proto/decode.go:344-378 | Skipping looks at nothing behind what it consumes. |
| ProtoDecoder.Buffer.DecodeRawBytes | golang/protobuf/proto/decode.go:276-302 | A length and as many bytes; a length that is negative as an int64 or reaches beyond the buffer is an error. |
| ProtoDecoder.Buffer.DecodeFixed64 | golang/protobuf/proto/decode.go:207-225 | Eight bytes little-endian, or an error when fewer are left. |
| ProtoDecoder.Buffer.DecodeFixed32 | golang/protobuf/proto/decode.go:230-244 | Four bytes little-endian, or an error when fewer are left. |
| ProtoDecoder.Buffer.DecodeNumber | golang/protobuf/proto/properties.go:276-309 | The decoder chosen for a wire format reads what the format says. |
| ProtoDecoder.Buffer.Skip | golang/protobuf/proto/decode.go:344-378 | Advances by exactly the payload of one record of any wire type, nested groups included, or fails. |
| ProtoDecoder.Buffer.SkipGroup | golang/protobuf/proto/decode.go:358-373 | The loop of a group ends behind its own end-group key. |
| ProtoSkip.SkipsUnknown | golang/protobuf/proto/decode.go:344-378 | A run of unknown records inside a group is passed over as a whole. |
| ProtoSkip.SkipsPayload | golang/protobuf/proto/decode.go:344-378 | What is marshalled for one element of any kind is skipped exactly. |
| ProtoSkip.SerSkips | golang/protobuf/proto/decode.go:358-373 | A marshalled message inside a skipped group is passed over as a whole. |
| ProtoDecoder.Buffer.SkipAndSave | golang/protobuf/proto/decode.go:317-341 | The skipped record is appended to the unknown fields with a shortest key, if the type keeps any. |
| ProtoDecoder.Buffer.DecodeNumberField | golang/protobuf/proto/decode.go:592-651 | One number, stored or appended as the field's mode says. |
| ProtoDecoder.Buffer.DecodePacked | golang/protobuf/proto/decode.go:731-752 | A packed list of nb bytes is appended number by number; its last number may reach beyond the nb bytes. |
| ProtoDecoder.Buffer.DecodePackedField | golang/protobuf/proto/decode.go:694-787 | The length and the list behind it. |
| ProtoDecoder.Buffer.DecodeTextField | golang/protobuf/proto/decode.go:654-680 | One string or byte slice. |
| ProtoDecoder.Buffer.DecodeMessageField | golang/protobuf/proto/decode.go:896-925 | An embedded message is decoded from its own bytes into the one that is there; afterwards buffer and index are back behind it. |
| ProtoDecoder.Buffer.DecodeGroupField | golang/protobuf/proto/decode.go:885-893 | A group is decoded from the same buffer up to its end-group key. |
| ProtoDecoder.Buffer.DecodeAnyField | golang/protobuf/proto/decode.go:521-535 | The decoder for the wire type, the packed one where it applies, or an error. |
| ProtoDecoder.Buffer.UnmarshalRecord | golang/protobuf/proto/decode.go:467-560 | One pass of the loop, with the field looked up in the table of tags, leaves the outcome of the whole as it was. |
| ProtoDecoder.Buffer.UnmarshalType | golang/protobuf/proto/decode.go:462-575 | For all bytes the method computes exactly the specified message, rest and report of missing fields, or fails where the specification does. |
| ProtoDecoder.Buffer.Unmarshal | golang/protobuf/proto/decode.go:396-459 | The same for a whole buffer and a new message. |
| ProtoEncoder.Buffer.Append | golang/protobuf/proto/encode.go:111-118 | Go's append: the contents grow by the bytes; within the capacity nothing behind them changes. |
| ProtoEncoder.Buffer.EncodeVarint | golang/protobuf/proto/encode.go:111-118 | Appends the varint; within the capacity nothing behind it changes. |
| ProtoEncoder.Buffer.EncodeNumber | golang/protobuf/proto/encode.go:139-190 | Appends the number's bytes in its wire format. |
| ProtoEncoder.Buffer.EncodeRawBytes | golang/protobuf/proto/encode.go:199-203 | Appends the length and the bytes. |
| ProtoEncoder.Buffer.MoveMessage | golang/protobuf/proto/encode.go:1316-1329 | The message moves right, left or not at all, and is unchanged at its new place. |
| ProtoEncoder.Buffer.FillGap | golang/protobuf/proto/encode.go:1330-1332 | The length fills the gap exactly while the message behind it stays where it is in the backing array. |
| ProtoEncoder.Buffer.PlaceLength | golang/protobuf/proto/encode.go:1316-1333 | The buffer becomes old prefix, length of the message and message, for a length of any size. |
| ProtoEncoder.Buffer.EncLenStruct | golang/protobuf/proto/encode.go:1304-1334 | A message behind its length, at any depth of nesting. |
| ProtoEncoder.Buffer.EncElement | golang/protobuf/proto/encode.go:543-602 | One element with its key: a number, a string, a message behind its length or a group with its end key. |
| ProtoEncoder.Buffer.EncElements | golang/protobuf/proto/encode.go:913-1047 | All elements of a field in order; there is an error for a missing required field exactly if one of them lacks one. |
| ProtoEncoder.Buffer.EncPacked | golang/protobuf/proto/encode.go:745-762 | A packed list behind its key and length. |
| ProtoEncoder.Buffer.EncField | golang/protobuf/proto/encode.go:491-564 | The field's records, or the error for an absent field. |
| ProtoEncoder.Buffer.EncStructField | golang/protobuf/proto/encode.go:1232-1251 | One field of a message: that a required field is missing is remembered and the bytes are appended all the same, and the size is checked on the whole buffer. |
| ProtoEncoder.Buffer.EncUnknown | golang/protobuf/proto/encode.go:1264-1273 | The unknown fields are appended, exactly if they fit. |
| ProtoEncoder.Buffer.EncStruct | golang/protobuf/proto/encode.go:1227-1276 | Appends exactly the canonical encoding; reports a missing required field anywhere inside exactly when there is one, and ErrTooLarge exactly in the states named. |
| ProtoEncoder.Buffer.Marshal | golang/protobuf/proto/encode.go:261-285 | The same for a whole message. |
| ProtoSize.ElementSize | golang/protobuf/proto/encode.go:566-614 | The size of an element with its key; a bool counts one byte unseen. |
| ProtoSize.PackedSize | golang/protobuf/proto/encode.go:764-780 | The size of the numbers of a packed list; bools are not looked at. |
| ProtoSize.FieldSize | golang/protobuf/proto/encode.go:895-1064 | The size of all records of a field. |
| ProtoSize.SizeStruct | golang/protobuf/proto/encode.go:1278-1299 | Equals the number of bytes enc_struct appends, nested messages, groups and packed lists included. |
| ProtoSize.TooBigIff | golang/protobuf/proto/encode.go:1232-1276 | Encoding fails for its size exactly when the largest length that is checked - what is in front of the check, and four bytes for every length prefix still open - exceeds the limit, wherever in the buffer the message is put. |
| ProtoSize.TooBigIsNearLimit | golang/protobuf/proto/encode.go:1246-1270 | Encoding fails for its size only when the bytes, with four more for every level of nesting, exceed 1<<31 - 1. |
| ProtoSize.LimitIsNotExact | golang/protobuf/proto/encode.go:85-87 | A message of exactly the largest allowed size is refused, because the check comes while four bytes are reserved for a length that takes one. |
| ProtoTags.TagMap.Get | golang/protobuf/proto/properties.go:109-119 | What was entered for a number, in the fast or the slow table. |
| ProtoTags.TagMap.Put | golang/protobuf/proto/properties.go:121-133 | Enters one number and leaves every other as it was. |
| ProtoTags.DecoderTags | golang/protobuf/proto/properties.go:761-777 | The table of a type finds exactly its fields, by number. |
| ProtoTags.AllTags | golang/protobuf/proto/properties.go:641-662 | The tables of all types, which decoding looks its fields up in. |
| ProtoMerge.MergeStruct | golang/protobuf/proto/clone.go:77-106 | Merges field by field; unknown fields are replaced. |
| ProtoMerge.MergeAny | golang/protobuf/proto/clone.go:111-212 | A set scalar replaces, a set message is merged, elements of lists are appended. |
| ProtoMerge.MergeEmpty | golang/protobuf/proto/clone.go:166-173 | Merging into a new message copies the message. |
| ProtoMerge.CombineIsMergeIff | golang/protobuf/proto/clone.go:77-106 | Appending unknown fields instead of replacing them gives the same message exactly when no two messages that are merged both have some. |
| ProtoAdvance.ScalarStored | golang/protobuf/proto/decode.go:462-575 | Behind the record of a number or a string the loop goes on with the element stored and its field counted. |
| ProtoAdvance.MessageStored | golang/protobuf/proto/decode.go:896-925 | The same for an embedded message. |
| ProtoAdvance.GroupStored | golang/protobuf/proto/decode.go:885-893 | The same for a group. |
| ProtoAdvance.PackedStored | golang/protobuf/proto/decode.go:694-787 | The same for a packed list. |
| ProtoAdvance.UnknownStored | golang/protobuf/proto/decode.go:317-341 | A run of unknown records goes to the unknown fields byte for byte. |
| ProtoAdvance.AllMarked | golang/protobuf/proto/decode.go:540-559 | Once every required field has been decoded the counter reports none missing. |
| ProtoReduce.UnknownRunReduced | golang/protobuf/proto/decode.go:317-341 | What is unknown to a type is unknown to it with fields removed. |
| ProtoReduce.ReducedSize | golang/protobuf/proto/encode.go:1278-1299 | A message takes as many bytes under a schema with fields removed as under the full one. |
| ProtoOut.MessageOut | golang/protobuf/proto/decode.go:317-341 | Read under a schema with fields removed, a message of the full schema becomes the reduced message, the removed fields among its unknown ones. |
| ProtoBack.MessageBack | golang/protobuf/proto/decode.go:462-575 | What the reduced message is written as, read under the full schema into any message, combines that one with the original. |
| ProtoLaws.DecodeInto | golang/protobuf/proto/decode.go:407-413 | Decoding marshalled bytes into a message that is already there combines the two. |
| ProtoLaws.RoundTrip | golang/protobuf/proto/encode.go:1227-1276 | Unmarshalling a marshalled message gives the message back, for every schema and every message with its required fields set. |
| ProtoLaws.ConcatenationIsMerge | golang/protobuf/proto/decode.go:462-575 | Two marshalled messages behind each other decode to the two combined, and to what Merge gives exactly when no merged pair has unknown fields on both sides. |
| ProtoLaws.MergeDropsUnknownFields | golang/protobuf/proto/clone.go:98-105 | The smallest messages for which decoding and merging differ. |
| ProtoLaws.UnknownFieldsPreserved | golang/protobuf/proto/decode.go:317-378 | A reader with any fields of any types removed decodes what was marshalled, marshals what it has, and a reader with the full schema gets the original back. |
| ProtoCodec.RoundTrip | golang/protobuf/proto/encode.go:230-242 | The methods together: what is marshalled without an error has the announced size and unmarshals to the same message; otherwise a required field is missing or it is too large, and when each is the case. |
| ProtoLoop.ByRecord | golang/protobuf/proto/decode.go:466-560 | The outcome of the loop is that of its first record - the end, an error, an unknown one or one of a field - and then of the rest. |
| ProtoLoop.SameReport | golang/protobuf/proto/decode.go:462-575 | Whether decoding succeeds, where it ends and what it reports do not depend on the message that is decoded into. |
| ProtoTyped.SkipPrefix | golang/protobuf/proto/decode.go:344-378 | Skipping needs no more than the bytes it consumes. |
| ProtoTyped.UnknownRunAppends | golang/protobuf/proto/decode.go:317-341 | Unknown fields with one more unknown record behind them are a run of unknown records. |
| ProtoTyped.DecodesTyped | golang/protobuf/proto/decode.go:462-575 | Decoding any bytes into a message of a type gives a message of the type: every value of its kind, lists only where there may be some, unknown fields whole records. |
| ProtoTyped.DecodedRoundTrip | golang/protobuf/proto/decode.go:396-459 | So whatever has been decoded, if it is complete, is marshalled to bytes that decode to it again. |
| ProtoForge.AgainRead | golang/protobuf/proto/decode.go:551-557 | Read once for every required field, the record of one numbered above 64 runs the counter down to zero, and all other fields stay as they are. |
| ProtoForge.FillingRead | golang/protobuf/proto/decode.go:540-559 | A record for each required field: all of them are counted, and silent payloads report nothing. |
| ProtoPrice.Settles | golang/protobuf/proto/decode.go:540-573 | The cheapest message of a type holds only messages of cheaper types, so that what it costs is found after as many rounds as there are cheaper types. |
| ProtoPrice.EnoughLevels | golang/protobuf/proto/decode.go:540-573 | One round for every type of the schema gives the least size for good, whatever cycles there are. |
| ProtoPrice.SilenceDoubles | golang/protobuf/proto/decode.go:896-925 | A type with two required messages costs more than twice as much as their type. |
| ProtoSilent.ChosenRead | golang/protobuf/proto/decode.go:540-559 | Reading the records that are picked - for every required field its own or, if that is cheaper, one more of a field above 64 - runs the counter down to zero. |
| ProtoSilent.LeastBytesDecode | golang/protobuf/proto/decode.go:462-575 | For every type that has a price there are bytes of just that length that are decoded without a report. |
| ProtoSilent.RecordTakes | golang/protobuf/proto/decode.go:462-560 | No record of a required field that is decoded without a report is shorter than its price, in any encoding of its key and length. |
| ProtoSilent.Spends | golang/protobuf/proto/decode.go:462-575 | What is left to read of a message without a report is never shorter than what its uncounted required fields cost. |
| ProtoSilent.ShortestSilent | golang/protobuf/proto/decode.go:540-573 | A number computed from the schema alone is exactly the length of the shortest bytes that decode as a message of a type without a report; where it says never, there are none. No bound on schema or bytes. |
| ProtoSilent.FillableIff | golang/protobuf/proto/decode.go:885-925 | A field has a payload that decodes without a report if and only if the schema says so. |
| ProtoSilent.QuietIsFillable | golang/protobuf/proto/decode.go:896-925 | A field that has been decoded without a report has a silent payload, whatever it was decoded into. |
| ProtoRequired.TallyStep | golang/protobuf/proto/decode.go:540-559 | Counter and bitmap say how many required fields have been set, as long as the bitmap has room for all. |
| ProtoRequired.CountingTells | golang/protobuf/proto/decode.go:561-573 | A message that is not reported has all its required fields, for every accountable type and all bytes; for a group, if it is countable. |
| ProtoRequired.Hides | golang/protobuf/proto/decode.go:551-557 | With a second required field, repeating one numbered above 64 that can be silent hides that the second is missing: the bytes, for every such type. |
| ProtoRequired.ReliableIff | golang/protobuf/proto/decode.go:540-573 | For every schema: a message that lacks a required field of its own is always reported if and only if the type has at most one, or none numbered above 64 that has a silent payload, which the schema decides. |
| ProtoNested.FreeNested | golang/protobuf/proto/decode.go:462-575 | Where no type further in has a required field, everything inside a decoded message is complete. |
| ProtoNested.GroupTells | golang/protobuf/proto/decode.go:474-481 | A group that is not reported is complete, if its own required fields are countable and nothing inside it has any. |
| ProtoNested.MessageTells | golang/protobuf/proto/decode.go:561-573 | A message of a dependable type that is not reported is complete at every depth, if the types inside it are dependable too. |
| ProtoNested.GapRead | golang/protobuf/proto/decode.go:462-575 | Bytes that decode, for every type from which a required field can be reached, to a message without it. |
| ProtoNested.GroupLeaks | golang/protobuf/proto/decode.go:474-481 | For every other group, bytes that decode to a group that is not complete and not reported. |
| ProtoNested.LeakInMessage | golang/protobuf/proto/decode.go:474-481 | The same for a message with such a group whose own required fields can be silent. |
| ProtoNested.MustBeDependable | golang/protobuf/proto/decode.go:462-575 | A type that always reports every required field missing at any depth is dependable. |
| ProtoNested.DependableReports | golang/protobuf/proto/encode.go:46-49 | Decoding reports every missing required field, at any depth and for any bytes, if the type and those of the messages inside are dependable. |
| ProtoNested.GroupsHideWhatIsInside | golang/protobuf/proto/decode.go:474-481 | The smallest case that breaks the promise: four bytes with a message in a group that lacks its only required field, with no report. |
| ProtoDeep.ReportsDeeply | golang/protobuf/proto/encode.go:46-49 | A type of which the schema says so has every missing required field reported, for every schema. |
| ProtoDeep.LeakOutside | golang/protobuf/proto/decode.go:896-925 | A message inside that is incomplete and not reported makes the message around it so, if its own required fields can be silent. |
| ProtoDeep.Leak | golang/protobuf/proto/decode.go:462-575 | For every other type, bytes that decode without a report to a message that is not complete, through messages of any depth, and how many. |
| ProtoDeep.DeeplyReliableIff | golang/protobuf/proto/encode.go:46-49 | For one type by itself: every required field that is not in the bytes is reported if and only if the schema says so, a condition that is computed; bytes that show it fail must fit their length prefixes. |
| ProtoDeep.NoSilenceInCycles | golang/protobuf/proto/decode.go:551-557 | Two required fields of the type itself, one above 64: nothing is silent, so nothing is hidden. |
| ProtoDeep.SchemaTellsTheGroup | golang/protobuf/proto/decode.go:474-481 | The condition evaluated: it fails for the message around the group and holds for the same fields in a message. |
| TextFormat.OctalRoundTrip | golang/protobuf/proto/text_parser.go:280-297 | The three octal digits of a byte read back as that byte. |
| TextFormat.UnquotesEscaped | golang/protobuf/proto/text_parser.go:228-252 | The unquoting loop undoes the escaping of every byte string. |
| TextFormat.SimpleIsPlain | golang/protobuf/proto/text_parser.go:216-226 | Text that takes the short cut around the loop is text in which nothing was escaped. |
| TextFormat.PassesEscaped | golang/protobuf/proto/text_parser.go:173-184 | The search for the closing quote passes over escaped text and stops right behind it. |
| TextFormat.TokenRoundTrip | golang/protobuf/proto/text_parser.go:157-205 | Whatever follows, the token at a written string is that string and its unquoted text the original. |
| TextFormat.EscapedIsPrintable | golang/protobuf/proto/text.go:565-604 | A written string is printable ASCII on one line. |
| TextFormat.PiecesJoin | golang/protobuf/proto/text_parser.go:345-364 | However a text is cut into pieces before it is written, it reads back as a whole. |
| TextIO.TextWriter.WriteIndent | golang/protobuf/proto/text.go:763-777 | Two spaces for every level, in pieces of at most forty. |
| TextIO.TextWriter.WriteString | golang/protobuf/proto/text.go:570-604 | An indentation if one is due, and the quoted string. |
| TextIO.UnquoteC | golang/protobuf/proto/text_parser.go:212-253 | The short cut and the loop against the specification; failures on bad UTF-8 and bad escapes included. |
| TextIO.TextParser.SkipWhitespace | golang/protobuf/proto/text_parser.go:133-155 | Skips white space and comments, counting lines and bytes. |
| TextIO.TextParser.FindQuote | golang/protobuf/proto/text_parser.go:173-180 | The position of the closing quote, or where the search for it stops. |
| TextIO.TextParser.Advance | golang/protobuf/proto/text_parser.go:157-205 | The next token, its text and what follows it; or the end, or an error. |
| TextIO.TextParser.Next | golang/protobuf/proto/text_parser.go:333-367 | A token that has been backed off, or any token behind the end, is the current one again and nothing moves; otherwise the next one, where quoted strings that follow each other count as one. |
| TextIO.RoundTrip | golang/protobuf/proto/text.go:570-604 | A string written at any indentation is the next token, all of it is consumed, and its unquoted text is the string. |
| RedisPool.Pool.Signal | garyburd/redigo/redis/pool.go:315-323 | Wakes the getter that has waited longest, if there is one. |
| RedisPool.Pool.Release | garyburd/redigo/redis/pool.go:219-224 | One connection less, one getter woken. |
| RedisPool.Pool.Acquire | garyburd/redigo/redis/pool.go:253-304 | The critical section from the inner loop on: an idle connection, an error, a dial or a wait. |
| RedisPool.Pool.Prune | garyburd/redigo/redis/pool.go:233-249 | One pass of the pruning loop and what follows when it is over. |
| RedisPool.Pool.AfterFailedTest | garyburd/redigo/redis/pool.go:268-271 | The critical section after a failed test. |
| RedisPool.Pool.Put | garyburd/redigo/redis/pool.go:307-330 | Keeps the connection, throws the oldest out for it, or gives it up. |
| RedisPool.Pool.Close | garyburd/redigo/redis/pool.go:201-215 | Gives up all idle connections and wakes everybody. |
| PoolRuns.KeepsStep | garyburd/redigo/redis/pool.go:201-330 | Every atomic step keeps the invariant. |
| PoolRuns.ReachableInv | garyburd/redigo/redis/pool.go:201-330 | The invariant holds after any events in any order, for any settings. |
| PoolRuns.Conservation | garyburd/redigo/redis/pool.go:201-391 | In every reachable state active equals idle plus lent plus under test, being dialled or on the way back; active stays within a positive MaxActive, idle within MaxIdle; no connection is in two places. |
| PoolRuns.SleepersMissNothing | garyburd/redigo/redis/pool.go:219-330 | While a getter sleeps, idle connections and free slots are at most as many as signalled getters yet to retry; without such, nothing is idle, the limit is reached and somebody holds a connection. |
| PoolRuns.GivingBackWakesTheOldest | garyburd/redigo/redis/pool.go:219-249 | Every event that gives capacity back - a connection put back, failed its test, not dialled, or pruned in get - signals the getter that has slept longest, and no other. |
| PoolRuns.FailedTestNeverParks | garyburd/redigo/redis/pool.go:255-297 | After a failed test there is always something to try: nobody goes to sleep on it. |
| PoolRuns.ClosedPoolDrains | garyburd/redigo/redis/pool.go:201-215 | A closed pool has no sleepers and no idle connections, and counts none exactly when nobody holds one. |
| PoolRuns.ClosedHandlesStayClosed | garyburd/redigo/redis/pool.go:355-360 | A closed pooled connection stays closed, and closing it again does nothing. |
| PoolClock.IdleIsOrdered | garyburd/redigo/redis/pool.go:155-156 | If the clock does not run backwards the idle list is always ordered, most recently used first. |
| PoolClock.MostRecentFirst | garyburd/redigo/redis/pool.go:257-264 | A getter is offered the connection that was used last. |
| PoolClock.PruningIsThorough | garyburd/redigo/redis/pool.go:233-249 | Pruning takes the connection that has been idle longest, only if too long, and stops early only when none is left that has been. |
| PoolClock.OldestMakesRoom | garyburd/redigo/redis/pool.go:310-317 | When a returned connection does not fit, the one that has been idle longest makes room. |
| RedisMux.MuxConn.Send | garyburd/redigo/redisx/connmux.go:66-76 | The command takes the next id, which is appended to its caller's. |
| RedisMux.MuxConn.Pop | garyburd/redigo/redisx/connmux.go:92-101 | The oldest outstanding id, or underflow. |
| RedisMux.ConnMux.AwaitTurn | garyburd/redigo/redisx/connmux.go:103-109 | Whether it is this id's turn; if not, its channel is registered. |
| RedisMux.ConnMux.PassTurn | garyburd/redigo/redisx/connmux.go:118-126 | The turn goes to the next id, and its caller is woken if it is registered. |
| MuxRuns.CurrentIsOwn | garyburd/redigo/redisx/connmux.go:92-103 | The id a caller is after is its own and unanswered, so no two callers are after the same. |
| MuxRuns.KeepsStep | garyburd/redigo/redisx/connmux.go:62-129 | Every atomic step keeps the invariant. |
| MuxRuns.ReachableInv | garyburd/redigo/redisx/connmux.go:62-129 | The invariant holds after any events in any order. |
| MuxRuns.RepliesMatchCommands | garyburd/redigo/redisx/connmux.go:62-129 | What a caller has got is, reply for reply, the answer to its own commands in order; with no id left it has got them all. |
| MuxRuns.NeverOutOfSync | garyburd/redigo/redisx/connmux.go:110-114 | The panic cannot be reached. |
| MuxRuns.TurnFollowsReplies | garyburd/redigo/redisx/connmux.go:116-119 | recvID counts the replies read: one more with each, and nothing else moves it. |
| MuxRuns.SomebodyCanGoOn | garyburd/redigo/redisx/connmux.go:103-127 | The turn is never lost: while the oldest unanswered command has been flushed and its caller is inside Receive, that caller, or the one handing it the turn, can take a step. |
| MuxRuns.OwnerIsAfterIt | garyburd/redigo/redisx/connmux.go:92-103 | A caller that is inside Receive when its reply is next is after exactly that reply, and nobody else holds the lock. |
| MuxRuns.EveryStepIsCloser | garyburd/redigo/redisx/connmux.go:91-129 | Each such step takes it one closer, no step of others takes it back, only it can read the reply, and it is never more than three steps away. |
| RespFormat.DecimalDigits | garyburd/redigo/redis/conn.go:308-323 | The digits of a number stand for it. |
| RespFormat.ParsesLenIff | garyburd/redigo/redis/conn.go:408-428 | A decimal length is understood exactly when it fits an int64; longer ones wrap around. |
| RespFormat.ParsesInt | garyburd/redigo/redis/conn.go:431-458 | Every int64 is read back, the smallest one too, by overflowing twice. |
| RespFormat.PrintRoundTrip | garyburd/redigo/redis/conn.go:465-520 | Reading what was printed gives the reply back and leaves what follows, for every reply, nested arrays included. |
| RedisConn.CommandRoundTrip | garyburd/redigo/redis/conn.go:347-384 | Reading a printed command gives the array of its name and arguments as byte strings. |
| RedisConn.HearsOne | garyburd/redigo/redis/conn.go:535-543 | A server that parses the bytes that reach it finds the oldest command not heard, unchanged, and its answer comes behind those still to be read. |
| RedisConn.ParseDigits | garyburd/redigo/redis/conn.go:418-427 | The digit loop: the decimal value wrapped around at 64 bits, or an error for any other byte. |
| RedisConn.LenOf | garyburd/redigo/redis/conn.go:408-428 | parseLen against its specification, null and errors included. |
| RedisConn.IntOf | garyburd/redigo/redis/conn.go:431-458 | parseInt against its specification. |
| RedisConn.Conn.WriteLen | garyburd/redigo/redis/conn.go:308-323 | Formatting from the right end of 32 bytes appends prefix, digits and line end, for every length. |
| RedisConn.Conn.WriteBytes | garyburd/redigo/redis/conn.go:325-337 | Appends one bulk string. |
| RedisConn.Conn.WriteArg | garyburd/redigo/redis/conn.go:354-381 | Appends an argument as a bulk string, by its type. |
| RedisConn.Conn.WriteCommand | garyburd/redigo/redis/conn.go:347-384 | Appends exactly the command as the protocol prints it. |
| RedisConn.Conn.ReadLine | garyburd/redigo/redis/conn.go:392-405 | A line up to its line feed that fits the buffer and ends in a carriage return, or an error. |
| RedisConn.Conn.ReadReply | garyburd/redigo/redis/conn.go:465-520 | The parser against its specification, errors included: the reply and what follows it. |
| RedisConn.Conn.ReadElems | garyburd/redigo/redis/conn.go:504-517 | The loop over the elements of an array. |
| RedisConn.Conn.Send | garyburd/redigo/redis/conn.go:522-533 | The command is held back behind those before it, of which a full buffer may pass some on; one more is pending. |
| RedisConn.Conn.Flush | garyburd/redigo/redis/conn.go:535-543 | Every command sent has been heard by the server, in order and unchanged. |
| RedisConn.Conn.DeliverOne | garyburd/redigo/redis/conn.go:535-543 | The server takes one command from what reaches it and answers it; commands, answers and bytes stay in step. |
| RedisConn.Conn.Receive | garyburd/redigo/redis/conn.go:545-568 | The reply to the oldest unanswered command, an error reply as an error, and one less is pending; with nothing outstanding it blocks. |
| RedisConn.Conn.Do | garyburd/redigo/redis/conn.go:570-622 | The server has heard this command last, and the reply is what it answers to this very command, whatever was pending; the error is the first of all error replies received; nothing is pending. |
| RedisConn.Conn.DoPending | garyburd/redigo/redis/conn.go:598-608 | With the empty command: all outstanding replies, oldest first. |

## Left out

- SnappyEncode.Hash: promises only an index of the table, because nothing else about the hash matters to the promises of the encoder; which matches are found is not stated.
- SnappyWriter.Writer.Write: does not say how many bytes are reported when the underlying writer fails, nor what a failed writer has passed on.
- The assembly versions of the Snappy encoder and decoder.
- `Reset` of the Snappy writer and reader.
- The CRC-32C itself: the framing takes it as a parameter, only its masking is modelled.
- Errors of the underlying reader other than end of file; the underlying writer fails for good once it has no room.
- PoolRuns.Conservation: connections a goroutine is about to close no longer count, as in the source, so that the number of open sockets can exceed the limit for a moment.
- PoolRuns.ClosedHandlesStayClosed: closing a pooled connection is one step, so two goroutines that close the same one at the same time are not covered.
- Pool: how `pooledConnection.Close` clears transactions and subscriptions (DISCARD, UNWATCH, the sentinel) before the connection is put back; its result is the arbitrary `keep` of a step. Each pooled connection is used by one goroutine at a time.
- Pool: waiters are woken in the order in which they began to wait, as Go's notify list does; spurious wake-ups do not exist in Go.
- Multiplexer: sends succeed, each multiplexed connection is used by one goroutine, and ids do not wrap around at the width of Go's uint. Closing the underlying connection is not modelled.
- RedisConn.Conn.Send: the commands that a full write buffer passes on by itself are any number of them, up to a parameter; the size of the buffer is not modelled, and a command counts as heard once all of its bytes have arrived.
- RedisConn.Conn.Receive: replies that no command asked for (pushed to a subscriber) do not exist here, so without an outstanding command it only blocks.
- RedisConn.Conn.WriteArg: floats and values formatted by Go's fmt package are left out.
- Redis connections: timeouts, write errors and the state after a protocol error; allocating a bulk string or array of an absurd announced length panics in Go and is a protocol error here.
- Protobuf: oneofs, extensions, maps, message sets, custom marshalers, and lists with nil elements; the parsing of struct tags into the schema.
- ProtoLaws.RoundTrip: for messages whose required fields are set and whose encoding is shorter than 2^63 bytes; nil and empty lists are the same.
- ProtoDeep.DeeplyReliableIff: that the condition is enough is stated for every schema; that it is needed, for schemas with a bound on fields and on the size of silent records (`Modest`), because the bytes that show it nest messages, each of which must fit its length prefix. A bound on the number of types would not do, because the shortest silent message can double with every type (`SilenceDoubles`).
- ProtoNested.MustBeDependable: for schemas of fewer than 2^59 types, for the same reason.
- ProtoEncoder.Buffer.EncElements: the error does not say which required field is missing; that it is the first one is not stated.
- ProtoEncoder.Buffer.EncStructField: likewise.
- ProtoDecoder.Buffer.Unmarshal: does not say what the message holds after an error.
- ProtoDecoder.Buffer.DecodePackedField: does not say which numbers have been appended when a list fails in the middle.
- ProtoDecoder.Buffer.UnmarshalType: does not distinguish the errors of malformed input, nor the message that is left behind by one; a missing required field is distinguished.
- ProtoMerge.MergeStruct: messages are values, so sharing of memory between the two messages (which the source avoids by copying) is not captured.
- Floats are their bit patterns, and strings and byte slices share one kind of field; strings are not checked for UTF-8 by the source either.
- The text format beyond quoted strings, white space and tokens: printing and parsing of messages.
- TextIO.TextWriter.WriteByte: says nothing about a line feed, which the string writer never passes on.
- Sockets, TLS, dialling, deadlines, the xingo servers and timers, jsonpb and generated code.
