# cql-rb request encoding, CQL native protocol v1

This project models how the cql-rb Ruby driver writes requests: the request side of version 1 of the
Cassandra native protocol. A request frame is an 8-byte header followed by a body:

- the header holds version `0x01`, flags `0x00`, a stream id in 0..127, the opcode, and the body length as
  an unsigned 32-bit big-endian int;
- the body is one of the six requests: STARTUP (1), OPTIONS (5), REGISTER (0x0b), QUERY (7), PREPARE (9)
  and EXECUTE (0x0a).

The bodies are built from the notations of section 3 of the protocol: `[short]`, `[int]`, `[string]`,
`[long string]`, `[string list]`, `[string map]`, `[bytes]` and `[consistency]`. EXECUTE converts each bound
value by the column type its metadata names, and `to_s` renders each request for logging.

The modules follow the driver's layout:

| module | what it holds |
|---|---|
| `Protocol` (`protocol.dfy`) | The constant tables of `lib/cql/protocol.rb`: the error hierarchy, the `CONSISTENCIES` ordinals, the `pack` formats as big-endian fields with explicit wrap-around, and the boolean bytes. |
| `Encoding` (`encoding.dfy`) | Each notation three ways: as a function giving its bytes, as a reader taking it back off a buffer, and as a method of the `ByteBuffer` class, the binary String that `write` appends to. |
| `TypeConverter` (`type_converter.dfy`) | The column types, the bound values, and the conversion of a value to a `[bytes]` field. This includes minimal two's-complement varints; the model computes them with a byte-at-a-time loop of its own and proves it equal to the specification function. |
| `Requests` (`requests.dfy`) | The six request bodies: their opcodes, their layouts, and `WriteBody`, which appends a body to the buffer. Also a reader for each body. |
| `Frames` (`frames.dfy`) | Stream-id validation and the header. `Write` appends the header with a zero length placeholder, then the body, then overwrites the placeholder in place. Also a frame reader. |
| `Rendering` (`rendering.dfy`) | `to_s` of each request: `inspect`-style quoting, arrays and hashes, lowercase hex for the statement id, upper-cased consistency names. |
| `OptionsRequest` (`options_request.dfy`) | The OPTIONS request class: opcode 5, an empty `write`, and the rendering `OPTIONS`. |

Every notation, value encoding, body and frame has a reader, and a lemma over all inputs proves that the
reader takes back what was written. The loops are proved equal to their specification functions. Among the
`to_s` renderings, the QUERY and PREPARE renderings, the statement id of an EXECUTE rendering and each
single inspected value are read back by parsers, with round-trip lemmas over all inputs. The STARTUP and
REGISTER renderings, the inspected arrays and hashes, and the value list of an EXECUTE rendering are pinned
only by the example lemmas. The frames, bodies, value encodings and renderings that the request frame specs
pin byte for byte are proved as lemmas about those same functions.

## Model

| member | source | states |
|---|---|---|
| Protocol.RescueProtocolError | lib/cql/protocol.rb:4-16 | `rescue ProtocolError` catches an error exactly when it is one of the nine protocol error kinds, and never ArgumentError or TypeError. |
| Protocol.RescueKind | lib/cql/protocol.rb:8-16 | The nine kinds are distinct classes: rescuing one of them by name catches exactly that kind. |
| Protocol.Ordinal | lib/cql/protocol.rb:18 | A level's wire ordinal is its index in the 8-entry CONSISTENCIES table, and it fits a 2-byte short. |
| Protocol.FromOrdinal | lib/cql/protocol.rb:18 | An ordinal names a level exactly when it is an index of the table. |
| Protocol.OrdinalBijective | lib/cql/protocol.rb:18 | Ordinals and levels correspond one to one, in both directions. |
| Protocol.OrdinalInjective | lib/cql/protocol.rb:18 | Distinct levels have distinct ordinals. |
| Protocol.PackChar | lib/cql/protocol.rb:21 | 'c' writes one byte holding the value modulo 256; a value in -128..127 reads back as itself when read signed. |
| Protocol.PackInt | lib/cql/protocol.rb:24 | 'N' writes 4 bytes whose unsigned value is n modulo 2^32; a value in the signed 32-bit range reads back as itself. |
| Protocol.PackShort | lib/cql/protocol.rb:25 | 'n' writes 2 bytes whose unsigned value is n modulo 2^16. |
| Protocol.PackTwoInts | lib/cql/protocol.rb:28 | 'NN' writes 8 bytes: the first 'N' field, then the second. |
| Protocol.LongAsTwoInts | lib/cql/protocol.rb:28 | A 64-bit long written as 'NN', high word then low word, is its 8-byte big-endian form. |
| Protocol.PackHeader | lib/cql/protocol.rb:29 | 'c4' writes 4 bytes, each field modulo 256, in order. |
| Protocol.PackedField | lib/cql/protocol.rb:20-30 | Each big-endian field reads back unsigned as its value modulo 256^width. A field of at least one byte reads back signed as the value itself exactly when the value fits; the empty field reads as 0. |
| Protocol.UnsignedBigEndian | lib/cql/protocol.rb:20-30 | Reading a field back unsigned gives the value reduced modulo 256^width. |
| Protocol.SignedBigEndian | lib/cql/protocol.rb:20-30 | Within the signed range, a two's-complement field reads back as the same integer. |
| Protocol.BigEndianSplit | lib/cql/protocol.rb:28 | A wide field is the field of the value shifted right, followed by the field of the value's low bytes. |
| Protocol.BigEndianMod | lib/cql/protocol.rb:20-30 | Only the value modulo 256^width shows in a field of that width, so `pack` truncates silently. |
| Protocol.SignedFits | lib/cql/protocol.rb:20-30 | A signed field of k bytes holds only values in the signed k-byte range. |
| Protocol.FitsSignedMonotone | lib/cql/protocol.rb:20-30 | A wider signed field holds every value that a narrower one holds. |
| Protocol.BooleanByte | lib/cql/protocol.rb:33-34 | A boolean is one byte: 1 exactly for true, 0 exactly for false. |
| Encoding.StringBytes | spec/cql/protocol/request_frame_spec.rb:18 | `[string]` is a 2-byte length holding the byte count modulo 2^16, followed by the bytes unchanged. |
| Encoding.LongStringBytes | spec/cql/protocol/request_frame_spec.rb:37 | `[long string]` is a 4-byte length holding the byte count modulo 2^32, followed by the bytes unchanged. |
| Encoding.BytesField | spec/cql/protocol/request_frame_spec.rb:59 | `[bytes]` is a 4-byte length holding the byte count modulo 2^32, followed by the bytes; a null value is the length -1 alone (`FF FF FF FF`). |
| Encoding.ConsistencyBytes | lib/cql/protocol.rb:18 | `[consistency]` is 2 bytes: 0, then the level's ordinal. |
| Encoding.ShortStringLayout | spec/cql/protocol/request_frame_spec.rb:18 | A `[string]` shorter than 256 bytes is a zero byte, its length, then the bytes. |
| Encoding.ShortLongStringLayout | spec/cql/protocol/request_frame_spec.rb:37 | A `[long string]` shorter than 256 bytes is three zero bytes, its length, then the bytes. |
| Encoding.ShortRoundTrip | lib/cql/protocol.rb:25 | A `[short]` in 0..65535 reads back as itself, and the bytes after it are left as they were. |
| Encoding.IntRoundTrip | lib/cql/protocol.rb:24 | An `[int]` in the signed 32-bit range reads back as itself, and the bytes after it are left as they were. |
| Encoding.StringRoundTrip | spec/cql/protocol/request_frame_spec.rb:18 | A `[string]` whose length fits a short reads back as the same bytes, with what follows it intact. |
| Encoding.LongStringRoundTrip | spec/cql/protocol/request_frame_spec.rb:37 | A `[long string]` whose length fits 32 bits reads back as the same bytes, with what follows it intact. |
| Encoding.StringsRoundTrip | spec/cql/protocol/request_frame_spec.rb:30 | A run of `[string]`s reads back as the same list of strings. |
| Encoding.StringListRoundTrip | spec/cql/protocol/request_frame_spec.rb:30 | A `[string list]` reads back as the same list, in order. |
| Encoding.StringListBytes | spec/cql/protocol/request_frame_spec.rb:30 | `[string list]` is a 2-byte count holding the number of strings modulo 2^16, then each `[string]` in order. |
| Encoding.EntriesRoundTrip | spec/cql/protocol/request_frame_spec.rb:18 | A run of key and value `[string]`s reads back as the same entries, in order. |
| Encoding.StringMapRoundTrip | spec/cql/protocol/request_frame_spec.rb:18 | A `[string map]` reads back as the same entries, in order. |
| Encoding.StringMapBytes | spec/cql/protocol/request_frame_spec.rb:18 | `[string map]` is a 2-byte count holding the number of entries modulo 2^16, then each key and value `[string]` in order. |
| Encoding.BytesFieldRoundTrip | spec/cql/protocol/request_frame_spec.rb:86-88 | A `[bytes]` field, null or present, reads back as the same value, with what follows it intact. |
| Encoding.ConsistencyRoundTrip | lib/cql/protocol.rb:18 | A `[consistency]` reads back as the same level. |
| Encoding.StringsSnoc | spec/cql/protocol/request_frame_spec.rb:30 | Writing one more string appends its `[string]` to what the list wrote. |
| Encoding.EntriesSnoc | spec/cql/protocol/request_frame_spec.rb:18 | Writing one more entry appends its key and value `[string]`s to what the map wrote. |
| Encoding.ByteBuffer.constructor | spec/cql/protocol/request_frame_spec.rb:10 | A new buffer is empty, as the String passed to `write('')` is. |
| Encoding.ByteBuffer.Append | spec/cql/protocol/request_frame_spec.rb:10 | The buffer becomes its old contents followed by the bytes. |
| Encoding.ByteBuffer.AppendShort | lib/cql/protocol.rb:25 | The buffer becomes its old contents followed by the 'n' field. |
| Encoding.ByteBuffer.AppendInt | lib/cql/protocol.rb:24 | The buffer becomes its old contents followed by the 'N' field. |
| Encoding.ByteBuffer.OverwriteInt | spec/cql/protocol/request_frame_spec.rb:86-87 | Only the four bytes at the position change, and they become the 'N' field; the bytes before and after are unchanged. |
| Encoding.ByteBuffer.AppendString | spec/cql/protocol/request_frame_spec.rb:18 | The buffer becomes its old contents followed by the `[string]`. |
| Encoding.ByteBuffer.AppendLongString | spec/cql/protocol/request_frame_spec.rb:37 | The buffer becomes its old contents followed by the `[long string]`. |
| Encoding.ByteBuffer.AppendStrings | spec/cql/protocol/request_frame_spec.rb:30 | The loop appends exactly the run of `[string]`s that the list specification gives. |
| Encoding.ByteBuffer.AppendStringList | spec/cql/protocol/request_frame_spec.rb:30 | The buffer becomes its old contents followed by the `[string list]`. |
| Encoding.ByteBuffer.AppendEntries | spec/cql/protocol/request_frame_spec.rb:18 | The loop appends exactly the key and value `[string]`s that the map specification gives. |
| Encoding.ByteBuffer.AppendEntry | spec/cql/protocol/request_frame_spec.rb:18 | The buffer becomes its old contents followed by the key's and then the value's `[string]`. |
| Encoding.ByteBuffer.AppendStringMap | spec/cql/protocol/request_frame_spec.rb:18 | The buffer becomes its old contents followed by the `[string map]`. |
| Encoding.ByteBuffer.AppendBytes | spec/cql/protocol/request_frame_spec.rb:59 | The buffer becomes its old contents followed by the `[bytes]` field. |
| Encoding.ByteBuffer.AppendConsistency | lib/cql/protocol.rb:18 | The buffer becomes its old contents followed by the `[consistency]`. |
| TypeConverter.ColumnTypeNamed | spec/cql/protocol/request_frame_spec.rb:97-99 | A metadata symbol names a type exactly when it is that type's symbol. Any other symbol, such as `:imaginary`, names none. |
| TypeConverter.TypeSymbolRoundTrip | spec/cql/protocol/request_frame_spec.rb:84 | Every column type is found again under its own symbol. |
| TypeConverter.TypeSymbolInjective | spec/cql/protocol/request_frame_spec.rb:84 | No two column types share a symbol. |
| TypeConverter.VarintBytes | spec/cql/protocol/request_frame_spec.rb:79-80 | A varint is at least one byte, and its last byte is the value's low byte. |
| TypeConverter.VarintIsBigEndian | spec/cql/protocol/request_frame_spec.rb:79-80 | A varint is the two's-complement big-endian field of the value; that width fits the value and one byte less does not. |
| TypeConverter.VarintRoundTrip | spec/cql/protocol/request_frame_spec.rb:79-80 | Reading a varint signed gives the integer back, however large or negative. |
| TypeConverter.VarintMinimal | spec/cql/protocol/request_frame_spec.rb:79-80 | No shorter non-empty byte string reads as the same integer: there is no redundant leading byte. |
| TypeConverter.VarintZero | spec/cql/protocol/request_frame_spec.rb:79-80 | Zero is the single byte 0x00. |
| TypeConverter.EncodeVarint | spec/cql/protocol/request_frame_spec.rb:79-80 | The byte-at-a-time loop computes exactly the minimal varint. |
| TypeConverter.EncodeStep | spec/cql/protocol/request_frame_spec.rb:79-80 | Each pass of the loop keeps its invariant and shrinks what is left of the value. |
| TypeConverter.Raw | spec/cql/protocol/request_frame_spec.rb:62-81 | A value converts exactly when its class suits the column type; otherwise the error is TypeError. Fixed widths: int and float 4 bytes; bigint, counter, timestamp and double 8; uuid and timeuuid 16; boolean 1; inet 4 or 16. Strings pass through unchanged. |
| TypeConverter.ToBytes | spec/cql/protocol/request_frame_spec.rb:82-90 | An unknown type symbol gives UnsupportedColumnTypeError, for every value and only then. Nil becomes the null `[bytes]`; any other value becomes a `[bytes]` around its raw bytes. |
| TypeConverter.ToBytesErrors | spec/cql/protocol/request_frame_spec.rb:97-99 | Conversion fails exactly when the symbol is unknown or the value's class does not suit the type. |
| TypeConverter.RawRoundTrip | spec/cql/protocol/request_frame_spec.rb:62-81 | Decoding the raw bytes of a value its type can carry gives the value back. |
| TypeConverter.IntegerRoundTrip | spec/cql/protocol/request_frame_spec.rb:64 | Integers in the range of int, bigint, counter, timestamp or varint decode back to themselves. |
| TypeConverter.DecimalRoundTrip | spec/cql/protocol/request_frame_spec.rb:68 | A decimal, a 4-byte scale then the unscaled varint, decodes back to the same pair. |
| TypeConverter.FloatRoundTrip | spec/cql/protocol/request_frame_spec.rb:69-70 | A float or double bit pattern of the column's width decodes back unchanged. |
| TypeConverter.FloatWidth | spec/cql/protocol/request_frame_spec.rb:69-70 | A bit pattern that fits 4 or 8 bytes reads back unchanged. |
| TypeConverter.ToBytesRoundTrip | spec/cql/protocol/request_frame_spec.rb:84-89 | The `[bytes]` field written for a value its type can carry, nil included, reads back as that value. |
| TypeConverter.RawLength | spec/cql/protocol/request_frame_spec.rb:87 | The raw bytes of a value its type can carry fit a signed `[bytes]` length. |
| TypeConverter.EncodeRaw | spec/cql/protocol/request_frame_spec.rb:62-81 | Computing varints with the loop gives exactly the conversion's result. |
| TypeConverter.WriteValue | spec/cql/protocol/request_frame_spec.rb:82-90 | On success the buffer gains exactly the converted `[bytes]` field. On an error it reports the conversion's error and the buffer is unchanged. |
| TypeConverter.IntVector | spec/cql/protocol/request_frame_spec.rb:73 | 12348098 as int is `00 BC 6A C2`. |
| TypeConverter.LongLayout | spec/cql/protocol/request_frame_spec.rb:64 | bigint, counter and timestamp write the low 8 bytes of the value, big-endian. |
| TypeConverter.BigintVector | spec/cql/protocol/request_frame_spec.rb:64 | 1012312312414123 as bigint is `00 03 98 B1 53 C8 7F AB`. |
| TypeConverter.TimestampVector | spec/cql/protocol/request_frame_spec.rb:75 | 1358013521123 ms as a timestamp is `00 00 01 3C 2F E9 DC E3`. |
| TypeConverter.BooleanVectors | spec/cql/protocol/request_frame_spec.rb:66-67 | false is `00` and true is `01`. |
| TypeConverter.PositiveVarintVector | spec/cql/protocol/request_frame_spec.rb:79 | The 40-digit example is the 17 given bytes. |
| TypeConverter.NegativeVarintVector | spec/cql/protocol/request_frame_spec.rb:80 | -234234234234 is `C9 76 8D 3A 86`. |
| TypeConverter.DecimalVector | spec/cql/protocol/request_frame_spec.rb:68 | 1042342234234.123423435647768234 (scale 18) is `00 00 00 12` followed by the 13 given varint bytes. |
| TypeConverter.FloatVectors | spec/cql/protocol/request_frame_spec.rb:69-70 | The bit patterns of 12.13 and 10000.123123123 are written as the given 4 and 8 bytes. |
| TypeConverter.PassThroughVectors | spec/cql/protocol/request_frame_spec.rb:63-78 | ascii, text, varchar and blob values are written byte for byte. |
| TypeConverter.AddressVectors | spec/cql/protocol/request_frame_spec.rb:71-72 | 8.8.8.8 and ::1 are their 4 and 16 address bytes. |
| TypeConverter.UuidVectors | spec/cql/protocol/request_frame_spec.rb:76-77 | The timeuuid and uuid examples are their 16 bytes. |
| TypeConverter.UnsupportedVector | spec/cql/protocol/request_frame_spec.rb:97-99 | The symbol `:imaginary` is refused with UnsupportedColumnTypeError, whatever the value. |
| Requests.NewExecute | spec/cql/protocol/request_frame_spec.rb:93-95 | EXECUTE is built exactly when the value count equals the column spec count; otherwise it fails with ArgumentError. |
| Requests.OpcodeIdentifiesKind | spec/cql/protocol/request_frame_spec.rb:10-59 | Two requests share an opcode exactly when they are of the same class. |
| Requests.Opcode | lib/cql/protocol/requests/options_request.rb:7 | Every request carries one of the six opcodes 1, 5, 7, 9, 0x0a and 0x0b, and the opcode is 5 exactly for OPTIONS. |
| Requests.StartupOptions | spec/cql/protocol/request_frame_spec.rb:17-23 | STARTUP's map holds CQL_VERSION first, then COMPRESSION exactly when a compression is named. |
| Requests.Fields | spec/cql/protocol/request_frame_spec.rb:58-59 | There is one converted field per column, each converted by that column's own type symbol. |
| Requests.WrittenFieldsSucceeds | spec/cql/protocol/request_frame_spec.rb:97-99 | Writing the values ends without error exactly when every value converts. |
| Requests.WrittenFieldsFirstError | spec/cql/protocol/request_frame_spec.rb:97-99 | A failed write reports the first value that did not convert. |
| Requests.WrittenFieldsNext | spec/cql/protocol/request_frame_spec.rb:58-59 | After a complete prefix, one more value appends its field or stops the write with its error. |
| Requests.WrittenFieldsStop | spec/cql/protocol/request_frame_spec.rb:97-99 | Once a value has failed, the values after it change nothing. |
| Requests.BodyErrors | spec/cql/protocol/request_frame_spec.rb:97-99 | Only EXECUTE can fail to write, and it fails exactly when some value does not convert for its column. |
| Requests.Written | spec/cql/protocol/request_frame_spec.rb:10-59 | Writing a body can report an error only for EXECUTE, and OPTIONS writes no bytes. |
| Requests.Body | spec/cql/protocol/request_frame_spec.rb:10-59 | Every body other than EXECUTE is written successfully, and OPTIONS is the empty body. |
| Requests.ExecuteErrors | spec/cql/protocol/request_frame_spec.rb:97-99 | An EXECUTE body fails exactly when some value does not convert for its column. |
| Requests.UnsupportedColumnType | spec/cql/protocol/request_frame_spec.rb:97-99 | A body fails with UnsupportedColumnTypeError only when some column names an unknown type. |
| Requests.WriteBody | spec/cql/protocol/request_frame_spec.rb:10-59 | The buffer gains exactly the body that the specification gives, and the error is exactly the one it gives. |
| Requests.WriteValues | spec/cql/protocol/request_frame_spec.rb:58-59 | The loop appends the converted values in order, stops at the first one that fails, and reports its error. |
| Requests.ValuesRoundTrip | spec/cql/protocol/request_frame_spec.rb:84-89 | Values that their columns' types can carry are all written, and they read back in order by those types. |
| Requests.ExecuteWritten | spec/cql/protocol/request_frame_spec.rb:58-59 | A complete EXECUTE body is the id `[short bytes]`, the value count, the values, then the consistency. Unfolding helper: it restates the definition for the layout lemmas, not a separate result. |
| Requests.WrittenExecute | spec/cql/protocol/request_frame_spec.rb:58-59 | An EXECUTE body starts with the id as a `[short bytes]` and a 2-byte value count modulo 2^16, and a complete one ends with the consistency. |
| Requests.ExecuteSucceedsWith | spec/cql/protocol/request_frame_spec.rb:58-59 | When every value converts, the EXECUTE body is the id, the count, the converted values and the consistency. Unfolding helper: it restates the definition for the layout lemmas, not a separate result. |
| Requests.ExecuteLayout | spec/cql/protocol/request_frame_spec.rb:84-89 | An encodable EXECUTE writes every value, and its values read back by their columns' types. |
| Requests.BodyRoundTrip | spec/cql/protocol/request_frame_spec.rb:10-59 | Every encodable request writes without error, and its body read back by its opcode's reader is the request itself. |
| Requests.StartupRoundTrip | spec/cql/protocol/request_frame_spec.rb:17-23 | A STARTUP body reads back as the same version and compression. |
| Requests.RegisterRoundTrip | spec/cql/protocol/request_frame_spec.rb:29-30 | A REGISTER body reads back as the same event list. |
| Requests.QueryRoundTrip | spec/cql/protocol/request_frame_spec.rb:36-37 | A QUERY body reads back as the same text and level. |
| Requests.PrepareRoundTrip | spec/cql/protocol/request_frame_spec.rb:43-44 | A PREPARE body reads back as the same text. |
| Requests.ExecuteRoundTrip | spec/cql/protocol/request_frame_spec.rb:58-59 | An EXECUTE body, read back with the statement's metadata, is the same id, values and level. |
| Requests.OptionKeysText | spec/cql/protocol/request_frame_spec.rb:18 | The option names are the bytes of "CQL_VERSION" and "COMPRESSION". |
| Requests.StartupLayout | spec/cql/protocol/request_frame_spec.rb:17-23 | A STARTUP body is a count of 1 or 2, then CQL_VERSION and the version, then COMPRESSION and the algorithm when one is named. |
| Requests.DefaultStartupBody | spec/cql/protocol/request_frame_spec.rb:22-23 | STARTUP with no arguments is the given bytes with CQL_VERSION 3.0.0 only, 0x16 bytes long. |
| Requests.SnappyStartupBody | spec/cql/protocol/request_frame_spec.rb:17-18 | STARTUP with snappy is the given two-entry map, 0x2b bytes long. |
| Requests.RegisterBody | spec/cql/protocol/request_frame_spec.rb:29-30 | REGISTER for TOPOLOGY_CHANGE and STATUS_CHANGE is the given string list, 0x22 bytes long. |
| Requests.QueryBody | spec/cql/protocol/request_frame_spec.rb:36-37 | QUERY "USE system" at ALL is `00 00 00 0a`, the text, then `00 05`: 0x10 bytes. |
| Requests.PrepareBody | spec/cql/protocol/request_frame_spec.rb:43-44 | The PREPARE example is `00 00 00 2e` then the text: 0x32 bytes. |
| Requests.VarcharField | spec/cql/protocol/request_frame_spec.rb:59 | A varchar shorter than 256 bytes is `00 00 00` and its length, then the bytes. |
| Requests.IntField | spec/cql/protocol/request_frame_spec.rb:59 | 42 as int is the length 4, then `00 00 00 2a`. |
| Requests.WrittenThree | spec/cql/protocol/request_frame_spec.rb:58-59 | Three fields that all convert are written one after the other; if only the third fails, the first two are written and its error stops the write. |
| Requests.ExampleFields | spec/cql/protocol/request_frame_spec.rb:53-59 | "hello", 42 and "foo" convert for varchar, int and varchar to the three given fields. |
| Requests.ExecuteThreeLayout | spec/cql/protocol/request_frame_spec.rb:58-59 | An EXECUTE of three values that all convert is the id with its length, `00 03`, the three fields, then the consistency. |
| Requests.ExecuteBody | spec/cql/protocol/request_frame_spec.rb:57-59 | The EXECUTE example is the given bytes, 0x2e long, ending in EACH_QUORUM's `00 07`. |
| Requests.ExecuteArityMismatch | spec/cql/protocol/request_frame_spec.rb:93-95 | Two values for three columns are refused with ArgumentError. |
| Requests.ExecuteThirdFails | spec/cql/protocol/request_frame_spec.rb:97-99 | When the first two values convert and the third fails, the body fails with the third value's error. |
| Requests.ExecuteFailsWith | spec/cql/protocol/request_frame_spec.rb:97-99 | When a value fails to convert, the EXECUTE body fails with the error the values stopped at. Unfolding helper: it restates the definition for the layout lemmas, not a separate result. |
| Requests.ExecuteUnsupportedType | spec/cql/protocol/request_frame_spec.rb:97-99 | With a third column of type `:imaginary`, writing fails with UnsupportedColumnTypeError. |
| Frames.NewFrame | spec/cql/protocol/request_frame_spec.rb:103-118 | A frame is built exactly when the stream id is in 0..127, otherwise InvalidStreamIdError. The stream id defaults to 0. |
| Frames.Header | lib/cql/protocol.rb:29 | The header is 8 bytes: version 1, flags 0, the stream id and the opcode, then the length as 'N'. |
| Frames.FrameOf | spec/cql/protocol/request_frame_spec.rb:10-59 | A frame is 8 header bytes then the body: version 1, flags 0, the stream id and opcode modulo 256, and a length field holding the body size modulo 2^32 when the body completes, 0 when it failed; the error is the body's. |
| Frames.Framed | spec/cql/protocol/request_frame_spec.rb:10-59 | Writing a frame yields the body after 8 header bytes, with the body's own error, and byte 3 is the request's opcode. |
| Frames.Encode | spec/cql/protocol/request_frame_spec.rb:10-59 | A frame fails exactly when its body fails; otherwise it is 8 header bytes followed by the body. |
| Frames.PlaceholderOverwritten | spec/cql/protocol/request_frame_spec.rb:86-87 | Overwriting the zero placeholder gives the header with the real length, then the body. |
| Frames.Write | spec/cql/protocol/request_frame_spec.rb:10-11 | The buffer gains exactly the frame that the specification gives: the header with the length filled in place, then the body. The error is the body's. |
| Frames.FillPlaceholder | spec/cql/protocol/request_frame_spec.rb:86-87 | The placeholder is filled in when the body is complete and left at 0 when the body stopped on an error. |
| Frames.EncodeErrors | spec/cql/protocol/request_frame_spec.rb:97-99 | A frame fails exactly when its body fails, with the same error. |
| Frames.EncodeLayout | spec/cql/protocol/request_frame_spec.rb:84-89 | A frame is `01 00`, the stream id and the opcode, then the body's length, then the body. |
| Frames.HeaderThenBody | spec/cql/protocol/request_frame_spec.rb:84-89 | In a header followed by a body, the body starts at byte 8, and bytes 4..8 read back as its length. |
| Frames.FrameRoundTrip | spec/cql/protocol/request_frame_spec.rb:84-89 | Every encodable frame reads back as the same stream id and request. |
| Frames.SmallHeader | spec/cql/protocol/request_frame_spec.rb:11 | A header whose fields are all below 256 is the eight bytes `01 00 sid op 00 00 00 len`. |
| Frames.SmallFrame | spec/cql/protocol/request_frame_spec.rb:10-44 | A frame whose body is under 256 bytes is those eight bytes, then the body. |
| Frames.OptionsFrame | spec/cql/protocol/request_frame_spec.rb:10-11 | OPTIONS is `01 00 00 05 00 00 00 00`. |
| Frames.SnappyStartupFrame | spec/cql/protocol/request_frame_spec.rb:17-18 | STARTUP with snappy has header `01 00 00 01 00 00 00 2b`, followed by its body. |
| Frames.DefaultStartupFrame | spec/cql/protocol/request_frame_spec.rb:22-23 | The default STARTUP has header `01 00 00 01 00 00 00 16`, followed by its body. |
| Frames.RegisterFrame | spec/cql/protocol/request_frame_spec.rb:29-30 | The REGISTER example has header `01 00 00 0b 00 00 00 22`, followed by its body. |
| Frames.QueryFrame | spec/cql/protocol/request_frame_spec.rb:36-37 | The QUERY example has header `01 00 00 07 00 00 00 10`, followed by its body. |
| Frames.PrepareFrame | spec/cql/protocol/request_frame_spec.rb:43-44 | The PREPARE example has header `01 00 00 09 00 00 00 32`, followed by its body. |
| Frames.ExecuteFrame | spec/cql/protocol/request_frame_spec.rb:57-59 | The EXECUTE example has header `01 00 00 0a 00 00 00 2e`, followed by its body. |
| Frames.StreamIdByte | spec/cql/protocol/request_frame_spec.rb:104-112 | Stream 42 puts 0x2a in header byte 2; leaving the stream out puts 0 there. |
| Frames.StreamIdBounds | spec/cql/protocol/request_frame_spec.rb:114-118 | -1, 128 and 99999999 are refused with InvalidStreamIdError; 0 and 127 are accepted. |
| Rendering.Quote | spec/cql/protocol/request_frame_spec.rb:142-153 | A quoted string is a double quote, the string's characters, then a double quote. |
| Rendering.UnquoteQuote | spec/cql/protocol/request_frame_spec.rb:142-153 | A quoted string reads back as the bytes it was made from. |
| Rendering.Hex | spec/cql/protocol/request_frame_spec.rb:156-160 | The statement id is shown as two lowercase hex digits per byte, high nibble first. |
| Rendering.HexAppend | spec/cql/protocol/request_frame_spec.rb:156-160 | The hex of two byte strings one after the other is their two hex strings one after the other. |
| Rendering.UnhexHex | spec/cql/protocol/request_frame_spec.rb:156-160 | The hex digits read back as the id. |
| Rendering.Digits | spec/cql/protocol/request_frame_spec.rb:156-160 | A number's decimal digits are all digits, with no leading zero. |
| Rendering.DigitsValueDigits | spec/cql/protocol/request_frame_spec.rb:156-160 | The digits of a number spell that number. |
| Rendering.Decimal | spec/cql/protocol/request_frame_spec.rb:156-160 | An integer is shown with a leading minus sign exactly when it is negative. |
| Rendering.ParseDigits | spec/cql/protocol/request_frame_spec.rb:156-160 | A string of digits reads as its value, and with a minus sign in front as its negation. |
| Rendering.DecimalRoundTrip | spec/cql/protocol/request_frame_spec.rb:156-160 | A shown integer reads back as itself. |
| Rendering.InspectRoundTrip | spec/cql/protocol/request_frame_spec.rb:156-160 | A shown nil, string, integer or boolean reads back as itself, so distinct values render differently. |
| Rendering.InspectValuesRoundTrip | spec/cql/protocol/request_frame_spec.rb:156-160 | Each shown bound value reads back as itself. |
| Rendering.InspectArray | spec/cql/protocol/request_frame_spec.rb:135-139 | An array is shown between square brackets. |
| Rendering.InspectHash | spec/cql/protocol/request_frame_spec.rb:121-125 | A hash is shown between braces. |
| Rendering.InspectArrayThree | spec/cql/protocol/request_frame_spec.rb:156-160 | Three items are shown bracketed and separated by ", ". |
| Rendering.ToSStartsWithCommand | spec/cql/protocol/request_frame_spec.rb:121-160 | Every rendering starts with the request's message name. The name is followed by a space unless the rendering is OPTIONS alone. |
| Rendering.ToS | spec/cql/protocol/request_frame_spec.rb:121-160 | Every rendering begins with the request's message name. |
| Rendering.CommandIdentifiesKind | spec/cql/protocol/request_frame_spec.rb:121-160 | The message name tells the request class, just as the opcode does. |
| Rendering.NameRoundTrip | spec/cql/protocol/request_frame_spec.rb:142-146 | Each level's upper-cased name reads back as that level. |
| Rendering.NameUnquoted | spec/cql/protocol/request_frame_spec.rb:142-146 | No level's name holds a double quote. |
| Rendering.LastQuoteBefore | spec/cql/protocol/request_frame_spec.rb:142-146 | The last double quote of a string is the one before a quote-free tail. |
| Rendering.QueryTextEnds | spec/cql/protocol/request_frame_spec.rb:142-146 | In a QUERY rendering after the command, the last double quote closes the text. |
| Rendering.QueryToSRoundTrip | spec/cql/protocol/request_frame_spec.rb:142-146 | A QUERY rendering reads back as its text and level. |
| Rendering.PrepareToSRoundTrip | spec/cql/protocol/request_frame_spec.rb:149-153 | A PREPARE rendering reads back as its text. |
| Rendering.ExecuteToSId | spec/cql/protocol/request_frame_spec.rb:156-160 | An EXECUTE rendering carries the statement id right after the command, and the hex reads back as the id. |
| Rendering.ExecuteToSOf | spec/cql/protocol/request_frame_spec.rb:156-160 | An EXECUTE renders as the command, the hex id, the value array, then the level's name, separated by spaces. Unfolding helper: it restates the definition for the layout lemmas, not a separate result. |
| Rendering.StartupToS | spec/cql/protocol/request_frame_spec.rb:121-125 | The default STARTUP renders as `STARTUP {"CQL_VERSION"=>"3.0.0"}`. |
| Rendering.RegisterToS | spec/cql/protocol/request_frame_spec.rb:135-139 | The REGISTER example renders as `REGISTER ["TOPOLOGY_CHANGE", "STATUS_CHANGE"]`. |
| Rendering.QueryToS | spec/cql/protocol/request_frame_spec.rb:142-146 | The QUERY example renders as `QUERY "SELECT * FROM system.peers" LOCAL_QUORUM`. |
| Rendering.PrepareToS | spec/cql/protocol/request_frame_spec.rb:149-153 | The PREPARE example renders as `PREPARE "UPDATE users SET email = ? WHERE user_name = ?"`. |
| Rendering.ExampleIdHex | spec/cql/protocol/request_frame_spec.rb:158-159 | The example statement id is `ca487f1e7a82d23c4e8af3355171a52f` in hex. |
| Rendering.ExampleValuesShown | spec/cql/protocol/request_frame_spec.rb:158-159 | ("hello", 42, "foo") renders as `["hello", 42, "foo"]`. |
| Rendering.ExecuteToS | spec/cql/protocol/request_frame_spec.rb:156-160 | The EXECUTE example renders as `EXECUTE ca487f1e7a82d23c4e8af3355171a52f ["hello", 42, "foo"] EACH_QUORUM`. |
| OptionsRequest.OptionsShape | lib/cql/protocol/requests/options_request.rb:6-16 | OPTIONS carries opcode 5, writes no bytes without error, and renders as `OPTIONS`. |
| OptionsRequest.OptionsWritesNothing | lib/cql/protocol/requests/options_request.rb:10-12 | Writing an OPTIONS body leaves the buffer exactly as it was given. |
| OptionsRequest.OptionsWriteIdempotent | lib/cql/protocol/requests/options_request.rb:10-12 | However many times an OPTIONS body is written, the buffer is unchanged. |
| OptionsRequest.OptionsFrameOnStream | spec/cql/protocol/request_frame_spec.rb:10-11 | On any stream in 0..127, OPTIONS is `01 00 sid 05 00 00 00 00`, and it reads back as the same frame. |

## Left out

- lib/cql/protocol/encoding.rb, lib/cql/protocol/type_converter.rb, lib/cql/protocol/request_frame.rb and the request classes other than OPTIONS are modelled, but their Ruby source is not available to this model. Their behaviour is modelled from the constant tables and the byte vectors that pin it. The exceptions they raise are modelled as an `Error` datatype.
- CREDENTIALS, the response frames and their decoders, collections and custom column types, compression (the "snappy" name is only a map value), connections, sockets and stream-id pooling are not modelled. The readers here exist only to state the round trips.
- TypeConverter.Raw: a float or double value is given as the IEEE-754 bit pattern of its column's width. Floating-point arithmetic is outside the model.
- TypeConverter.Raw: a timestamp is given as integral milliseconds. The conversion of a fractional Ruby `Time` is not modelled.
- TypeConverter.Raw: a decimal is given as the (unscaled, scale) pair of a BigDecimal. Inet and uuid values are given as their 4 or 16 bytes. Parsing BigDecimal, IPAddr and Uuid from text is not modelled.
- TypeConverter.Raw: a value whose class does not suit its column type is reported as TypeError. The Ruby source of lib/cql/protocol/type_converter.rb is not available to this model, so the exact Ruby exception is not known. That such a value is refused at all is also an assumption of the model (`TypeConverter.Accepts`): the converter might instead write it, for example by testing a boolean column's value for truthiness.
- Rendering.Hex: the statement id is shown as two lowercase hex digits per byte, with a leading zero for bytes below 0x10. The only id the request frame specs pin has no such byte, and the Ruby source of the request classes that render it is not available to this model, so the zero padding is an assumption.
- Rendering.Quote: Ruby's `inspect` escapes double quotes, backslashes and non-printable characters; this model escapes nothing.
- Rendering.Inspect: only nil, strings, integers and booleans are rendered. Other bound values (decimals, floats, addresses, uuids) have no rendering in this model.
- Rendering.ToS: it requires every EXECUTE value to be one of the rendered kinds above.
- Frames.Write: when a value fails to convert, the model leaves the header's length at 0 and keeps the partial body in the buffer. The Ruby source of lib/cql/protocol/request_frame.rb is not available to this model, so what the frame writer leaves behind on an exception is not known.
- Requests.Query / Requests.Execute: the consistency is one of the eight levels of the `CONSISTENCIES` table (lib/cql/protocol.rb:18). A symbol outside the table cannot be given, so whatever error the encoder raises while writing it is not modelled; the Ruby source of lib/cql/protocol/encoding.rb is not available to this model.
- Encoding.ByteBuffer: lengths are written with 'n' and 'N', which keep only the low 16 or 32 bits, as `pack` does. The round-trip lemmas therefore require lengths that fit.
