/** `bson_read_string` exactly as cbson.c:128-157 writes it, kept beside the
    corrected reader so that the two can be compared on concrete documents.

    As written, the cursor starts on the length prefix itself with the whole
    declared length remaining, `read_key` does not count the key's NUL, a
    0x00 tag is read like any other so a key is scanned after it, and
    the value of an entry whose key does not match is
    never stepped over, so its bytes are read as the next tag and key. Nothing
    is bounds-checked: a read beyond the buffer is undefined behaviour in C,
    and it is an outcome of its own here. */
module ReaderAsWritten {
  import opened Bytes
  import opened BsonTypes
  import opened Wire
  import opened Reader
  import opened RoundTrip

  /** What the source's lookup does with a buffer: it returns a pointer to a
      C string, it returns NULL, or it reads past the end of the buffer. */
  datatype Outcome = Returns(value: seq<uint8>) | ReturnsNull | ReadsPastEnd

  /** `size_t` arithmetic wraps modulo 2^64. */
  const SizeModulus: nat := 0x1_0000_0000_0000_0000

  /** The C string the returned pointer `p` stands for: the bytes up to the
      next NUL, which must lie within the buffer. */
  function CStringFrom(doc: seq<uint8>, p: nat): (r: Outcome)
    ensures r != ReturnsNull
    ensures r.Returns? ==> p + |r.value| < |doc| && doc[p + |r.value|] == 0
    ensures r.Returns? ==> r.value == doc[p..p + |r.value|] && NoNul(r.value)
  {
    if p > |doc| then ReadsPastEnd
    else
      FirstNulFirst(doc, p, |doc|);
      match FirstNul(doc, p, |doc|)
      case None => ReadsPastEnd
      case Some(j) => Returns(doc[p..j])
  }

  /** The loop of `bson_read_string` as written (cbson.c:151-155), from the
      cursor (`ptr`, `size`): while the counter is not zero, read a tag byte
      and a key, taking one off the counter for the tag and one for each key
      byte before the NUL (cbson.c:130-133, wrapping as `size_t` does); on a
      match, skip the four length bytes and return the value that follows
      (cbson.c:139-140); otherwise read the next tag right after the key's NUL. */
  function Scan(doc: seq<uint8>, ptr: nat, size: nat, key: seq<uint8>): (r: Outcome)
    requires size < SizeModulus
    ensures r.Returns? ==> NoNul(r.value)
    decreases |doc| - ptr
  {
    if size == 0 then ReturnsNull
    else if ptr >= |doc| then ReadsPastEnd
    else match FirstNul(doc, ptr + 1, |doc|)
      case None => ReadsPastEnd
      case Some(j) =>
        var name := doc[ptr + 1..j];
        if name == key then
          if j + 5 > |doc| then ReadsPastEnd else CStringFrom(doc, j + 5)
        else Scan(doc, j + 1, (size - 1 - |name|) % SizeModulus, key)
  }

  /** `bson_read_string` as written (cbson.c:147-157): the counter is the
      word at offset 0 and the cursor starts at offset 0, on the prefix. */
  function ReadStringAsWritten(doc: seq<uint8>, key: seq<uint8>): (r: Outcome)
    ensures |doc| < 4 ==> r == ReadsPastEnd
    ensures |doc| >= 4 && FromLE32(doc[..4]) == 0 ==> r == ReturnsNull
  {
    if |doc| < 4 then ReadsPastEnd
    else Scan(doc, 0, FromLE32(doc[..4]), key)
  }

  /** One pass of the loop over a key that does not match: the key's NUL is
      at `j`, and the counter loses the tag and the key's other bytes. */
  lemma ScanSkip(doc: seq<uint8>, ptr: nat, size: nat, key: seq<uint8>, j: nat, next: nat)
    requires 0 < size < SizeModulus && ptr < |doc| && FirstNul(doc, ptr + 1, |doc|) == Some(j)
    requires doc[ptr + 1..j] != key
    requires next == size - (j - ptr)
    ensures Scan(doc, ptr, size, key) == Scan(doc, j + 1, next, key)
  {
    assert (size - 1 - |doc[ptr + 1..j]|) % SizeModulus == next;
  }

  /** The pass of the loop over a key that matches: the key's NUL is at `j`,
      four length bytes follow, and the value returned runs up to the NUL at `e`. */
  lemma ScanMatch(doc: seq<uint8>, ptr: nat, size: nat, key: seq<uint8>, j: nat, e: nat)
    requires 0 < size < SizeModulus && ptr < |doc| && FirstNul(doc, ptr + 1, |doc|) == Some(j)
    requires j + 5 <= |doc| && FirstNul(doc, j + 5, |doc|) == Some(e)
    requires doc[ptr + 1..j] == key
    ensures Scan(doc, ptr, size, key) == Returns(doc[j + 5..e])
  {
    assert Scan(doc, ptr, size, key) == CStringFrom(doc, j + 5);
  }

  /** The bytes `main` writes for ("hello", "world"). */
  predicate IsMainDocument(doc: seq<uint8>) {
    |doc| == 22 &&
    doc[0] == 0x16 && doc[1] == 0 && doc[2] == 0 && doc[3] == 0 && doc[4] == 0x02 &&
    doc[5] == 0x68 && doc[6] == 0x65 && doc[7] == 0x6c && doc[8] == 0x6c && doc[9] == 0x6f &&
    doc[10] == 0 && doc[11] == 0x06 && doc[12] == 0 && doc[13] == 0 && doc[14] == 0 &&
    doc[15] == 0x77 && doc[16] == 0x6f && doc[17] == 0x72 && doc[18] == 0x6c && doc[19] == 0x64 &&
    doc[20] == 0 && doc[21] == 0
  }

  /** The bytes of the document of ("k", "\x01x"), ("y", "z"). */
  predicate IsFalseMatchDocument(doc: seq<uint8>) {
    |doc| == 24 &&
    doc[0] == 0x18 && doc[1] == 0 && doc[2] == 0 && doc[3] == 0 && doc[4] == 0x02 &&
    doc[5] == 0x6b && doc[6] == 0 && doc[7] == 0x03 && doc[8] == 0 && doc[9] == 0 &&
    doc[10] == 0 && doc[11] == 0x01 && doc[12] == 0x78 && doc[13] == 0 && doc[14] == 0x02 &&
    doc[15] == 0x79 && doc[16] == 0 && doc[17] == 0x02 && doc[18] == 0 && doc[19] == 0 &&
    doc[20] == 0 && doc[21] == 0x7a && doc[22] == 0 && doc[23] == 0
  }

  /** The counter starts at `main`'s declared length, 22. */
  lemma MainStart(doc: seq<uint8>, key: seq<uint8>)
    requires IsMainDocument(doc)
    ensures ReadStringAsWritten(doc, key) == Scan(doc, 0, 22, key)
  {
    assert doc[..4] == [0x16, 0, 0, 0];
  }

  /** On `main`'s own document the source finds "world" under "hello": the
      prefix's bytes 0x16 0x00 and 0x00 0x00 read as two entries with empty
      keys, and the real entry follows. */
  lemma MainScan(doc: seq<uint8>, hello: seq<uint8>)
    requires IsMainDocument(doc) && hello == [0x68, 0x65, 0x6c, 0x6c, 0x6f]
    ensures ReadStringAsWritten(doc, hello) == Returns([0x77, 0x6f, 0x72, 0x6c, 0x64])
  {
    MainStart(doc, hello);
    ScanSkip(doc, 0, 22, hello, 1, 21);
    ScanSkip(doc, 2, 21, hello, 3, 20);
    assert FirstNul(doc, 5, 22) == FirstNul(doc, 6, 22) == FirstNul(doc, 7, 22) ==
           FirstNul(doc, 8, 22) == FirstNul(doc, 9, 22) == FirstNul(doc, 10, 22) == Some(10);
    assert FirstNul(doc, 15, 22) == FirstNul(doc, 16, 22) == FirstNul(doc, 17, 22) ==
           FirstNul(doc, 18, 22) == FirstNul(doc, 19, 22) == FirstNul(doc, 20, 22) == Some(20);
    ScanMatch(doc, 4, 20, hello, 10, 20);
    assert doc[5..10] == hello;
    assert doc[15..20] == [0x77, 0x6f, 0x72, 0x6c, 0x64];
  }

  /** The cause of the overrun on `main`'s document: once the loop reaches
      the 0x00 tag at offset 21 with any count left, `read_key` takes the tag
      and scans a key from offset 22, past the written bytes (cbson.c:130-133).
      A correct count (starting at offset 4 with 18 left, counting the key's
      NUL and stepping over the value) still leaves 1 at offset 21, so it too
      gets here; the count only decides which entries are read before. */
  lemma TerminatorOverrun(doc: seq<uint8>, size: nat, key: seq<uint8>)
    requires IsMainDocument(doc) && 0 < size < SizeModulus
    ensures Scan(doc, 21, size, key) == ReadsPastEnd
  {
    assert FirstNul(doc, 22, |doc|) == None;
  }

  /** A key `main`'s document lacks: as written the loop reads the prefix,
      the real entry and the value's bytes as entries, reaches the terminator
      at offset 21 with 7 left, and overruns there as `TerminatorOverrun` says. */
  lemma MissingKeyScan(doc: seq<uint8>, hi: seq<uint8>)
    requires IsMainDocument(doc) && hi == [0x68, 0x69]
    ensures ReadStringAsWritten(doc, hi) == ReadsPastEnd
  {
    MainStart(doc, hi);
    ScanSkip(doc, 0, 22, hi, 1, 21);
    ScanSkip(doc, 2, 21, hi, 3, 20);
    assert FirstNul(doc, 5, 22) == FirstNul(doc, 6, 22) == FirstNul(doc, 7, 22) ==
           FirstNul(doc, 8, 22) == FirstNul(doc, 9, 22) == FirstNul(doc, 10, 22) == Some(10);
    ScanSkip(doc, 4, 20, hi, 10, 14);
    ScanSkip(doc, 11, 14, hi, 12, 13);
    ScanSkip(doc, 13, 13, hi, 14, 12);
    assert FirstNul(doc, 16, 22) == FirstNul(doc, 17, 22) ==
           FirstNul(doc, 18, 22) == FirstNul(doc, 19, 22) == FirstNul(doc, 20, 22) == Some(20);
    ScanSkip(doc, 15, 12, hi, 20, 7);
    TerminatorOverrun(doc, 7, hi);
  }

  /** As written, after the key "k" does not match, the value's length and
      bytes are read as entries, and the "x" inside the value "\x01x" matches:
      the lookup returns the empty string. */
  lemma FalseMatchScan(doc: seq<uint8>, x: seq<uint8>)
    requires IsFalseMatchDocument(doc) && x == [0x78]
    ensures ReadStringAsWritten(doc, x) == Returns([])
  {
    assert doc[..4] == [0x18, 0, 0, 0];
    ScanSkip(doc, 0, 24, x, 1, 23);
    ScanSkip(doc, 2, 23, x, 3, 22);
    assert doc[5..6][0] != x[0];
    assert FirstNul(doc, 5, 24) == FirstNul(doc, 6, 24) == Some(6);
    ScanSkip(doc, 4, 22, x, 6, 20);
    ScanSkip(doc, 7, 20, x, 8, 19);
    ScanSkip(doc, 9, 19, x, 10, 18);
    assert doc[12..13] == x;
    assert FirstNul(doc, 12, 24) == FirstNul(doc, 13, 24) == Some(13);
    ScanMatch(doc, 11, 18, x, 13, 18);
  }

  /** `main` as the source runs it: its lookup of "hello" finds "world", as
      the corrected reader does. */
  lemma MainAsWritten(hello: seq<uint8>, world: seq<uint8>)
    requires hello == [0x68, 0x65, 0x6c, 0x6c, 0x6f] && world == [0x77, 0x6f, 0x72, 0x6c, 0x64]
    ensures Encodable([Field(hello, world)]) && |Elements([Field(hello, world)])| + 5 < 0x8000_0000
    ensures ReadStringAsWritten(Envelope([Field(hello, world)]), hello) == Returns(world)
    ensures Find(Envelope([Field(hello, world)]), hello) == Found(world)
  {
    MainDocument(hello, world);
    MainBytesAt(Envelope([Field(hello, world)]));
    MainScan(Envelope([Field(hello, world)]), hello);
    FindSingle(hello, world);
  }

  /** A key the document lacks: the source scans a key after the terminator
      tag and reads past the written bytes, where the corrected reader stops
      at the terminator with nothing found. */
  lemma MissingKeyAsWritten(hello: seq<uint8>, world: seq<uint8>, hi: seq<uint8>)
    requires hello == [0x68, 0x65, 0x6c, 0x6c, 0x6f] && world == [0x77, 0x6f, 0x72, 0x6c, 0x64]
    requires hi == [0x68, 0x69]
    ensures Encodable([Field(hello, world)]) && |Elements([Field(hello, world)])| + 5 < 0x8000_0000
    ensures ReadStringAsWritten(Envelope([Field(hello, world)]), hi) == ReadsPastEnd
    ensures Find(Envelope([Field(hello, world)]), hi) == NotFound
  {
    MainDocument(hello, world);
    MainBytesAt(Envelope([Field(hello, world)]));
    MissingKeyScan(Envelope([Field(hello, world)]), hi);
    FindInEnvelope([Field(hello, world)], hi);
  }

  /** A value whose bytes look like an entry: the source returns a string for
      a key the document does not have, where the corrected reader steps over
      the value and finds nothing. */
  lemma FalseMatchAsWritten(fs: seq<Field>, x: seq<uint8>)
    requires fs == [Field([0x6b], [0x01, 0x78]), Field([0x79], [0x7a])] && x == [0x78]
    ensures Encodable(fs) && |Elements(fs)| + 5 < 0x8000_0000
    ensures FirstMatch(fs, x).None?
    ensures ReadStringAsWritten(Envelope(fs), x) == Returns([])
    ensures Find(Envelope(fs), x) == NotFound
  {
    FalseMatchDocument(fs);
    FalseMatchBytesAt(Envelope(fs));
    FalseMatchScan(Envelope(fs), x);
    FindInEnvelope(fs, x);
  }

  /** `main`'s 22 bytes, one position at a time. */
  lemma MainBytesAt(doc: seq<uint8>)
    requires doc == [0x16, 0, 0, 0, 0x02, 0x68, 0x65, 0x6c, 0x6c, 0x6f, 0,
                     0x06, 0, 0, 0, 0x77, 0x6f, 0x72, 0x6c, 0x64, 0, 0]
    ensures IsMainDocument(doc)
  {
  }

  /** The 24 bytes of the document of ("k", "\x01x"), ("y", "z"), one
      position at a time. */
  lemma FalseMatchBytesAt(doc: seq<uint8>)
    requires doc == [0x18, 0, 0, 0, 0x02, 0x6b, 0, 0x03, 0, 0, 0, 0x01, 0x78, 0,
                     0x02, 0x79, 0, 0x02, 0, 0, 0, 0x7a, 0, 0]
    ensures IsFalseMatchDocument(doc)
  {
  }

  /** The two elements of ("k", "\x01x"), ("y", "z"), laid end to end. */
  lemma TwoElements(e0: seq<uint8>, e1: seq<uint8>)
    requires e0 == [0x02, 0x6b, 0, 0x03, 0, 0, 0, 0x01, 0x78, 0]
    requires e1 == [0x02, 0x79, 0, 0x02, 0, 0, 0, 0x7a, 0]
    ensures e0 + e1 == [0x02, 0x6b, 0, 0x03, 0, 0, 0, 0x01, 0x78, 0,
                        0x02, 0x79, 0, 0x02, 0, 0, 0, 0x7a, 0]
  {
  }

  /** The bytes of a string element whose key and value are short. */
  lemma ElementBytes(f: Field) returns (e: seq<uint8>)
    requires |f.value| < 0xFF
    ensures e == StringElement(f)
    ensures e == [0x02] + f.key + [0, |f.value| as uint8 + 1, 0, 0, 0] + f.value + [0]
  {
    NamedCodes();
    assert LE32(|f.value| + 1) == [|f.value| as uint8 + 1, 0, 0, 0];
    e := StringElement(f);
  }

  /** The document of ("k", "\x01x"), ("y", "z"), byte by byte. */
  lemma FalseMatchDocument(fs: seq<Field>)
    requires fs == [Field([0x6b], [0x01, 0x78]), Field([0x79], [0x7a])]
    ensures Encodable(fs) && |Elements(fs)| + 5 < 0x8000_0000
    ensures Envelope(fs) == [0x18, 0, 0, 0, 0x02, 0x6b, 0, 0x03, 0, 0, 0, 0x01, 0x78, 0,
                             0x02, 0x79, 0, 0x02, 0, 0, 0, 0x7a, 0, 0]
  {
    var e := FalseMatchElements(fs);
    assert LE32(24) == [0x18, 0, 0, 0];
    assert Envelope(fs) == [0x18, 0, 0, 0] + e + [0];
    FalseMatchFrame(e);
  }

  /** The length, the two elements and the terminator, laid end to end. */
  lemma FalseMatchFrame(e: seq<uint8>)
    requires e == [0x02, 0x6b, 0, 0x03, 0, 0, 0, 0x01, 0x78, 0,
                   0x02, 0x79, 0, 0x02, 0, 0, 0, 0x7a, 0]
    ensures [0x18, 0, 0, 0] + e + [0] ==
            [0x18, 0, 0, 0, 0x02, 0x6b, 0, 0x03, 0, 0, 0, 0x01, 0x78, 0,
             0x02, 0x79, 0, 0x02, 0, 0, 0, 0x7a, 0, 0]
  {
  }

  /** The element list of ("k", "\x01x"), ("y", "z"). */
  lemma FalseMatchElements(fs: seq<Field>) returns (e: seq<uint8>)
    requires fs == [Field([0x6b], [0x01, 0x78]), Field([0x79], [0x7a])]
    ensures Encodable(fs) && e == Elements(fs)
    ensures e == [0x02, 0x6b, 0, 0x03, 0, 0, 0, 0x01, 0x78, 0,
                  0x02, 0x79, 0, 0x02, 0, 0, 0, 0x7a, 0]
  {
    var e0 := ElementBytes(fs[0]);
    assert e0 == [0x02, 0x6b, 0, 0x03, 0, 0, 0, 0x01, 0x78, 0];
    var e1 := ElementBytes(fs[1]);
    assert e1 == [0x02, 0x79, 0, 0x02, 0, 0, 0, 0x7a, 0];
    assert Elements(fs[1..]) == e1 + Elements([]);
    e := Elements(fs);
    assert e == e0 + e1;
    TwoElements(e0, e1);
  }
}
