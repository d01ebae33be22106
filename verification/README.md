# cbson, modelled in Dafny

cbson is a small C codec for BSON documents restricted to string fields.

The write side is a growable byte buffer, `bson_obj_t`:
- `bson_reserved` grows its storage by doubling;
- `bson_write_byte`, `bson_write_uint32` and `bson_write_string` append to it;
- `bson_reserved_length` reserves a 4-byte length slot that `bson_write_uint32_with_offset` patches later;
- `bson_append_string` appends one string element: the tag `0x02`, the key and its NUL, the value's length counting its NUL, the value and its NUL.

`main` frames a document around these calls:
1. it reserves the length slot at offset 0;
2. it appends ("hello", "world");
3. it writes the `0x00` terminator;
4. it patches the slot with the document's total length.

It then looks "hello" up with `bson_read_string`.

The read side is the cursor `bson_iter_t`, a position plus a count of bytes that may still be read. Its steps are `read_byte`, `read_int32`, `read_int64`, `read_key` and `read_string_val`.

The model has seven modules, one per file:

| module | file | what it holds |
|---|---|---|
| `Bytes` | bytes.dfy | byte and word types, the little-endian layout of 32-bit words, the signed casts, C strings without NUL |
| `BsonTypes` | bson_types.dfy | the `bson_type` tag enum and the `cbson_read_result_t` codes of cbson.h |
| `Wire` | wire.dfy | the byte layout as functions: a string element, an element list, the finished document, and the first pair with a key |
| `Writer` | writer.dfy | `bson_obj_t` as the class `BsonObj`: an `array` of `cap` cells, `size` of them written, and a ghost `Contents`; each primitive is a method proved against `Wire`. `EncodeFields` is `main`'s framing |
| `Reader` | reader.dfy | the corrected reader: a step function per read, the class `BsonIter` whose methods are proved against those functions, and the lookup `Find` / `BsonReadString` |
| `ReaderAsWritten` | reader_as_written.dfy | `bson_read_string` exactly as cbson.c writes it, applied in lemmas to concrete documents and compared there with the corrected reader |
| `RoundTrip` | roundtrip.dfy | writer and reader agree: each read step decodes what the matching write appended, a lookup in any finished document finds the first pair with the key, and `main` writes and finds what it should |

## The reader as written, and the corrected reader

The source's `bson_read_string` works on `main`'s own document by accident:
- The cursor starts on the length prefix rather than after it.
- The prefix bytes `0x16 0x00` and `0x00 0x00` read as two entries with empty keys.
- The real entry follows them.

`ReaderAsWritten.MainAsWritten` proves this.

On other documents the source misbehaves, so `Reader` models the reader as the rest of the code evidently intends it. Each deviation is commented at the place it occurs:
- **cbson.c:148-149.** The cursor starts at offset 4, with the declared length minus 4 remaining.
- **cbson.c:132-133.** A key's NUL is counted along with its other bytes.
- **cbson.c:142.** `read_string_val` subtracts the value's length from the count instead of adding it.
- **cbson.c:152-154.** The value of an entry whose key does not match is stepped over, instead of being read as the next tag.
- **cbson.c:130-133.** A `0x00` tag is the terminator and ends the list. The source goes on scanning a key after it.
- **cbson.c:130, 152-153.** Any tag other than STRING is an `UnsupportedType` error, since the codec knows no other element's size. The source stores the tag and never looks at it.
- **Bounds.** Every read checks the count first. A short read is `Truncated`, a string length below 1 is `BadLength`, and a string value without its final NUL is `Unterminated`.

The document `main` writes is 22 bytes long, and its length prefix is `0x16`:
- 4 bytes of length prefix;
- 1 byte of tag;
- 6 bytes for "hello" and its NUL;
- 4 bytes for the value's length;
- 6 bytes for "world" and its NUL;
- 1 terminator byte.

## Model

| member | source | states |
|---|---|---|
| `Bytes.LE32` | cbson.c:66-71 | the four bytes `bson_write_uint32` appends, lowest first; always four of them |
| `Bytes.FromLE32` | cbson.c:103 | the word `read_int32` assembles from four bytes; LE32RoundTrip and LE32Decode prove it inverts LE32 |
| `Bytes.FromLE64` | cbson.c:112-114 | the 64-bit word `read_int64` assembles from a low and a high 32-bit word |
| `Bytes.LE32RoundTrip` | cbson.c:66-71 | reading back, as `read_int32` does, the four bytes `bson_write_uint32` writes for a word gives the word |
| `Bytes.LE32Decode` | cbson.c:101-107 | re-encoding the word read from any four bytes gives those bytes back |
| `Bytes.LE32Injective` | cbson.c:66-71 | distinct words are written as distinct bytes |
| `Bytes.ToInt32` | cbson.c:106 | the `(int32_t)` cast is the value congruent to the word modulo 2^32 in the signed range, and is non-negative exactly when the word is below 2^31 |
| `Bytes.ToInt64` | cbson.c:117 | the same for the `(int64_t)` cast, modulo 2^64 |
| `BsonTypes.CodeAt` | cbson.h:6-26 | by C's enum rule, DOUBLE..INT64 are the consecutive codes 0x01..0x11, MIN_KEY is 0xFF and MAX_KEY is 0x7F, and no code is 0 |
| `BsonTypes.Code` | cbson.h:6-26 | the tag byte of each enumerator, as CodeAt gives it |
| `BsonTypes.FromCode` | cbson.h:6-26 | the enumerator a tag byte stands for, if any; CodeRoundTrip and FromCodeSound prove it inverts Code |
| `BsonTypes.CodeRoundTrip` | cbson.h:6-26 | every enumerator is recovered from its tag byte |
| `BsonTypes.FromCodeSound` | cbson.h:6-26 | a byte that decodes to an enumerator is that enumerator's tag, and 0x00 decodes to none |
| `BsonTypes.CodesDistinct` | cbson.h:6-26 | tags are pairwise distinct and never the 0x00 terminator |
| `BsonTypes.NamedCodes` | cbson.h:6-26 | the tags the wire format uses: STRING is 0x02, INT32 0x0F, INT64 0x11, MIN_KEY 0xFF, MAX_KEY 0x7F; every other tag is below 0x12 |
| `BsonTypes.ResultValue` | cbson.h:28-32 | the result codes are -1, -2 and 0, and only OK is non-negative |
| `BsonTypes.ResultValuesDistinct` | cbson.h:28-32 | the three result codes are distinct |
| `Wire.StringElement` | cbson.c:91-98 | the element `bson_append_string` writes is 7 bytes longer than key and value together |
| `Wire.StringElementParts` | cbson.c:91-98 | the element splits after the key's NUL into the part `read_key` reads and the part `read_string_val` reads |
| `Wire.Elements` | cbson.c:164 | the bytes successive `bson_append_string` calls append for the pairs, in order; ElementsConcat and Writer.AppendFields state it |
| `Wire.Envelope` | cbson.c:163-166 | the document `main` frames: the total length, the elements, the terminator; EnvelopeBody, EnvelopeFraming and Writer.EncodeFields state it |
| `Wire.FirstMatch` | cbson.c:151-155 | the lookup's intended answer is none exactly when no pair has the key |
| `Wire.FirstMatchIsFirst` | cbson.c:151-155 | when pair `i` is the first with the key, its value is the answer |
| `Wire.ElementsConcat` | cbson.c:91-98 | appending pairs in two batches writes the concatenation of their element lists |
| `Wire.EnvelopeBody` | cbson.c:163-166 | a finished document is the elements and the terminator after a 4-byte prefix |
| `Wire.EnvelopeFraming` | cbson.c:163-166 | the prefix of a finished document, read little-endian, is the document's total length, and its last byte is 0x00 |
| `Writer.DoubleUntil` | cbson.c:38-41 | the grown capacity exceeds the need, and every doubling was needed: it is the start itself or at most twice the need |
| `Writer.DoubleUntilIsDoubling` | cbson.c:38-41 | the grown capacity is the start multiplied by a power of two |
| `Writer.BsonObj.Valid` | cbson.h:34-38 | the invariant of `bson_obj_t`: `bytes` holds `cap` cells, `size <= cap`, and the first `size` cells are the bytes written so far |
| `Writer.BsonObj.constructor` | cbson.c:160-161 | the zeroed object has no storage and nothing written |
| `Writer.BsonObj.Reserved` | cbson.c:34-49 | nothing written moves or changes; with room to spare the storage is kept; otherwise fresh storage is allocated whose capacity is the doubling of max(cap, 1) beyond size + sz |
| `Writer.BsonObj.ReservedLength` | cbson.c:52-57 | returns the old size as the slot's offset, keeps what was written, and extends the object by four bytes |
| `Writer.BsonObj.WriteByte` | cbson.c:60-63 | the contents gain the byte at the end |
| `Writer.BsonObj.WriteUint32` | cbson.c:66-71 | the contents gain the word's four little-endian bytes |
| `Writer.BsonObj.WriteUint32WithOffset` | cbson.c:74-80 | the four bytes at the offset become the word's bytes, and everything else is unchanged |
| `Writer.BsonObj.WriteString` | cbson.c:83-88 | the contents gain the string and a NUL |
| `Writer.BsonObj.AppendString` | cbson.c:91-98 | the contents gain exactly the string element of the pair, with its length slot patched |
| `Writer.PatchedElement` | cbson.c:95-97 | patching the reserved slot with the value's length turns the written bytes into the string element |
| `Writer.AppendFields` | cbson.c:164 | appending the pairs in order adds their element list |
| `Writer.EncodeFields` | cbson.c:163-166 | `main`'s framing (slot, pairs, terminator, patch) yields the finished document of the pairs |
| `Writer.FramedEnvelope` | cbson.c:166 | patching slot 0 with the total length of slot, elements and terminator gives the finished document |
| `Writer.ElementsPrefix` | cbson.c:164 | one more pair extends the element list by that pair's element, within the length bound of all pairs |
| `Reader.ErrorCode` | cbson.h:28-32 | every error maps to a negative result code, and the code is TYPE_ERROR exactly for an unsupported tag |
| `Reader.FirstNul` | cbson.c:132-133 | the key scan: the position it reports is a NUL inside the range |
| `Reader.FirstNulFirst` | cbson.c:132-133 | the NUL the key scan stops at is the first one |
| `Reader.CString` | cbson.c:153 | the string a returned pointer stands for holds no NUL |
| `Reader.CStringPrefix` | cbson.c:153 | that string is the longest NUL-free prefix of the bytes |
| `Reader.CStringTerminated` | cbson.c:153 | a value stored with its NUL reads back as itself |
| `Reader.ByteAt` | cbson.c:121-126 | a byte is read exactly when one remains, and the cursor moves by one |
| `Reader.Int32At` | cbson.c:101-107 | succeeds exactly when four bytes remain, moves by four, and yields a signed 32-bit value |
| `Reader.Int64At` | cbson.c:110-118 | succeeds exactly when eight bytes remain, moves by eight, and yields a signed 64-bit value |
| `Reader.KeyAt` | cbson.c:129-135 | reads the tag; after a non-zero tag it reads the key and moves past the key's NUL, and the count drops by exactly what was consumed; it fails, with `Truncated`, exactly when no byte remains or a non-zero tag has no NUL within the count |
| `Reader.KeyAtName` | cbson.c:131-134 | the key read is the NUL-free bytes up to the first NUL, and the cursor resumes just past that NUL |
| `Reader.StringValAt` | cbson.c:138-144 | a value read is at least one byte, and the cursor moves past the four length bytes and the value |
| `Reader.StringValAtErrors` | cbson.c:138-144 | fewer than four bytes, or a length beyond the count, is `Truncated`; a length below 1 is `BadLength`; a last byte other than NUL is `Unterminated`; otherwise the read succeeds |
| `Reader.StringValAtValue` | cbson.c:139-140 | the value is the bytes after the length word, as many as the word says, and it ends with NUL |
| `Reader.FindFrom` | cbson.c:151-155 | a value found is a C string; an exhausted count or the terminator gives `NotFound`, a key cut off by the count `Failed(Truncated)`, and a tag other than STRING `Failed(UnsupportedType(tag))` |
| `Reader.LookupAfterKey` | cbson.c:152 | the loop body after `read_key`: a value found is a C string |
| `Reader.LookupValue` | cbson.c:152-153 | the loop body after the value is read: a value found is a C string |
| `Reader.FindFromBadValue` | cbson.c:153 | a STRING entry whose value cannot be read ends the lookup with that value's error |
| `Reader.Find` | cbson.c:147-157 | a value found is a C string; a buffer shorter than the prefix, or a declared length beyond the buffer, gives `Failed(Truncated)`, and a declared length below 4 `Failed(BadLength)` |
| `Reader.FindStarts` | cbson.c:148-149 | the lookup starts at offset 4 with the declared length minus the prefix remaining |
| `Reader.BsonIter.Valid` | cbson.h:40-43 | the invariant of `bson_iter_t`: the `size` bytes still to read from `ptr` lie within the document |
| `Reader.BsonIter.constructor` | cbson.c:149 | the initialiser `{doc, *data}`: the cursor holds the given document, position and count, and the invariant holds when they lie within the document |
| `Reader.BsonIter.ReadByte` | cbson.c:121-126 | returns what ByteAt gives and moves the cursor as it does |
| `Reader.BsonIter.ReadInt32` | cbson.c:101-107 | returns what Int32At gives and moves the cursor as it does |
| `Reader.BsonIter.ReadInt64` | cbson.c:110-118 | returns what Int64At gives and moves the cursor as it does |
| `Reader.BsonIter.ReadKey` | cbson.c:129-135 | returns what KeyAt gives and moves the cursor as it does |
| `Reader.BsonIter.ReadStringVal` | cbson.c:138-144 | returns what StringValAt gives and moves the cursor as it does |
| `Reader.BsonIter.Search` | cbson.c:151-155 | the loop returns what FindFrom gives from the starting cursor |
| `Reader.BsonReadString` | cbson.c:147-157 | returns what Find gives |
| `ReaderAsWritten.CStringFrom` | cbson.c:153 | the returned string is the NUL-free bytes from the pointer up to a NUL inside the buffer |
| `ReaderAsWritten.Scan` | cbson.c:151-155 | the source's loop, as written, returns a C string when it returns one |
| `ReaderAsWritten.ReadStringAsWritten` | cbson.c:147-157 | as written, a buffer shorter than the prefix is read past, and a declared length of 0 returns NULL |
| `ReaderAsWritten.MainAsWritten` | cbson.c:169 | as written, `main`'s lookup of "hello" returns "world", as the corrected reader does |
| `ReaderAsWritten.TerminatorOverrun` | cbson.c:130-133 | as written, reaching `main`'s terminator at offset 21 with any count left scans a key from offset 22 and reads past the written bytes |
| `ReaderAsWritten.MissingKeyAsWritten` | cbson.c:151-155 | as written, looking up "hi" in `main`'s document reaches the terminator and reads past the 22 written bytes; the corrected reader reports it missing |
| `ReaderAsWritten.FalseMatchAsWritten` | cbson.c:152-154 | as written, looking up "x" in the document of ("k", "\x01x"), ("y", "z") returns "", where the corrected reader reports it missing |
| `RoundTrip.Int32AtEncoded` | cbson.c:101-107 | `read_int32` over the bytes `bson_write_uint32` wrote gives the word as signed and moves by four |
| `RoundTrip.Int64AtEncoded` | cbson.c:110-118 | `read_int64` over two written words gives `lo \| hi << 32` as signed and moves by eight |
| `RoundTrip.KeyAtEncoded` | cbson.c:129-135 | `read_key` over a tag, a key and its NUL gives both back and moves past the NUL |
| `RoundTrip.StringValAtEncoded` | cbson.c:138-144 | `read_string_val` over a written length, value and NUL gives the value and its NUL back and moves past them |
| `RoundTrip.FindFromStep` | cbson.c:151-155 | one loop pass over a string entry stops with its value on a match, and otherwise continues after the value |
| `RoundTrip.FindFromElement` | cbson.c:151-155 | the same pass over a string element `bson_append_string` wrote |
| `RoundTrip.FindFromEnd` | cbson.c:151-155 | the terminator ends the lookup with nothing found |
| `RoundTrip.ElementsLaid` | cbson.c:164-165 | an element list followed by the terminator lies element by element in the buffer |
| `RoundTrip.FindFromElements` | cbson.c:151-155 | scanning written elements finds the value of the first pair with the key, and none when no pair has it |
| `RoundTrip.FindInEnvelope` | cbson.c:147-157 | a lookup in any finished document finds the value of the first pair with the key, and reports it missing when no pair has it |
| `RoundTrip.FindTruncated` | cbson.c:147-149 | every proper prefix of a finished document gives `Failed(Truncated)` |
| `RoundTrip.FindInDocument` | cbson.c:147-157 | the same for any buffer whose prefix gives its length and whose body is the elements and the terminator |
| `RoundTrip.FindSingle` | cbson.c:164-169 | a one-pair document gives back its value under its key |
| `RoundTrip.MainDocument` | cbson.c:163-166 | the document of ("hello", "world") is the 22 bytes `16 00 00 00 02 "hello" 00 06 00 00 00 "world" 00 00` |
| `RoundTrip.MainExample` | cbson.c:159-172 | `main`, without its printing, builds exactly those 22 bytes and finds "world" under "hello" |

## Findings

| source | as written | input that shows it | evidently intended | confidence | as-written member | corrected member |
|---|---|---|---|---|---|---|
| cbson.c:152-154 | a key that does not match leaves its value unread, so the value's length and bytes are read as the next entries | the document of ("k", "\x01x"), ("y", "z"); look up "x" | step over the value; "x" is missing | high, not executed | `ReaderAsWritten.FalseMatchAsWritten` | `RoundTrip.FindInEnvelope` |
| cbson.c:130-133 | `read_key` treats the 0x00 terminator tag like any other and scans a key after it, so a lookup that reaches the terminator with any count left reads offset 22, past the 22 written bytes; the wrong count (cbson.c:132-133, 149) only changes which entries are read before the terminator, and a correct one still leaves 1 there | `main`'s document; look up "hi" | stop at the terminator and return NULL | high, not executed | `ReaderAsWritten.MissingKeyAsWritten` | `RoundTrip.FindInEnvelope` |

## Left out

- `hex_dump` and the `printf` calls in `main` are output only and are not modelled.
- Allocation failure is not modelled: `malloc` and `realloc` always succeed. The cells a fresh array adds beyond the old contents are not specified: `memset` zero-fills the first storage and `realloc` does not, and no contract depends on them.
- The prototypes at cbson.h:48-64 have no definitions in cbson.c, so there is nothing to model: `bson_read_int32`, `bson_read_int64`, `bson_read_double`, `bson_read_doc`, `bson_pack_begin`, `bson_pack_end`, `bson_doc_iter_new`, `bson_doc_iter_release`.
- The prototype of `bson_read_string` at cbson.h:45-46 takes an iterator, a buffer and its size, and returns a result code. It does not match the definition at cbson.c:146-157, which takes the document and returns a pointer. The model follows the definition. The result codes are modelled (`BsonTypes.ResultValue`, `Reader.ErrorCode`), but no function returns them the way that prototype would.
- The length prefix is loaded through a `uint32_t*` in host byte order (cbson.c:148). The model decodes it little-endian, which is what a little-endian host does.
- The sign of the initializer `'\xff'` of MIN_KEY depends on the signedness of `char`. The model takes it as the byte 0xFF.
- Writer.BsonObj.AppendString: requires the document to stay below 2^31 bytes. The source keeps the slot offset in an `int`, and does not guard against overflow.
- Writer.EncodeFields: requires the document to stay below 2^31 bytes. `main` keeps the slot offset in an `int` (cbson.c:163), and `Wire.Envelope` requires the same bound.
- Writer.BsonObj.WriteUint32WithOffset: requires the slot to lie within the written bytes. The source does not check this, and a slot beyond them would write into unwritten storage.
- `Reader.BsonIter`: the cursor holds an immutable sequence instead of a raw pointer. Pointer aliasing between cursors and the buffer is not modelled.
- The corrected reader reads only STRING elements and the terminator. Every other element type, and nested documents, stop the lookup with `UnsupportedType`. The source never checks the tag: it reads the value of any matching element as a string.
- `ReaderAsWritten`: the buffer is the written bytes. A read beyond them is one outcome, `ReadsPastEnd`, rather than whatever the storage after them would make the source do. That storage may still lie inside the allocation: `main`'s document has a capacity of 32. `size_t` is taken to be 64 bits wide.
- `ReaderAsWritten` is stated as functions over the buffer, not as a cursor object, since it exists only to be compared with the corrected reader.
