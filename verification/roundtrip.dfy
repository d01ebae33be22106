/** What the writer and the corrected reader promise each other: every step
    of the reader decodes what the matching writer primitive appended, a
    lookup in a finished document finds the first pair with the key, and
    `main`'s ("hello", "world") document is the 22 bytes it writes. */
module RoundTrip {
  import opened Bytes
  import opened BsonTypes
  import opened Wire
  import opened Writer
  import opened Reader

  /** The bytes of `doc` from `ptr` on begin with `w`. */
  ghost predicate At(doc: seq<uint8>, ptr: nat, w: seq<uint8>) {
    ptr + |w| <= |doc| && forall i | 0 <= i < |w| :: doc[ptr + i] == w[i]
  }

  /** `w` at `ptr` is the slice of `doc` there. */
  lemma AtSlice(doc: seq<uint8>, ptr: nat, w: seq<uint8>)
    requires At(doc, ptr, w)
    ensures doc[ptr..ptr + |w|] == w
  {
    assert forall i | 0 <= i < |w| :: doc[ptr..ptr + |w|][i] == w[i];
  }

  /** A slice of `doc` equal to `w` puts `w` at its start. */
  lemma SliceAt(doc: seq<uint8>, ptr: nat, w: seq<uint8>)
    requires ptr + |w| <= |doc| && doc[ptr..ptr + |w|] == w
    ensures At(doc, ptr, w)
  {
    forall i | 0 <= i < |w|
      ensures doc[ptr + i] == w[i]
    {
      assert w[i] == doc[ptr..ptr + |w|][i];
    }
  }

  /** `u + v` at `ptr` is `u` at `ptr` followed by `v`. */
  lemma AtSplit(doc: seq<uint8>, ptr: nat, u: seq<uint8>, v: seq<uint8>)
    requires At(doc, ptr, u + v)
    ensures At(doc, ptr, u) && At(doc, ptr + |u|, v)
  {
    forall i | 0 <= i < |u|
      ensures doc[ptr + i] == u[i]
    {
      assert (u + v)[i] == u[i];
    }
    forall i | 0 <= i < |v|
      ensures doc[ptr + |u| + i] == v[i]
    {
      assert (u + v)[|u| + i] == v[i];
    }
  }

  /** `read_int32` over the bytes `bson_write_uint32` wrote for `i` gives `i`
      as a signed word and moves on by four. */
  lemma Int32AtEncoded(doc: seq<uint8>, ptr: nat, size: nat, i: uint32)
    requires ptr + size <= |doc| && size >= 4
    requires At(doc, ptr, LE32(i))
    ensures Int32At(doc, ptr, size) == Ok(Step(ToInt32(i), ptr + 4, size - 4))
  {
    AtSlice(doc, ptr, LE32(i));
    LE32RoundTrip(i);
  }

  /** `read_int64` over the bytes of a low word and a high word gives the
      64-bit word `lo | hi << 32` as a signed word and moves on by eight. */
  lemma Int64AtEncoded(doc: seq<uint8>, ptr: nat, size: nat, lo: uint32, hi: uint32)
    requires ptr + size <= |doc| && size >= 8
    requires At(doc, ptr, LE32(lo) + LE32(hi))
    ensures Int64At(doc, ptr, size) == Ok(Step(ToInt64(lo + hi * 0x1_0000_0000), ptr + 8, size - 8))
  {
    AtSlice(doc, ptr, LE32(lo) + LE32(hi));
    var w := doc[ptr..ptr + 8];
    assert w[..4] == LE32(lo) && w[4..] == LE32(hi);
    LE32RoundTrip(lo);
    LE32RoundTrip(hi);
  }

  /** The scan for a NUL stops at the first one. */
  lemma {:induction false} FirstNulAt(doc: seq<uint8>, lo: nat, hi: nat, j: nat)
    requires lo <= j < hi <= |doc| && doc[j] == 0
    requires forall i | lo <= i < j :: doc[i] != 0
    ensures FirstNul(doc, lo, hi) == Some(j)
    decreases j - lo
  {
    if lo < j {
      FirstNulAt(doc, lo + 1, hi, j);
    }
  }

  /** `read_key` over a tag, a NUL-free key and its NUL gives back both and
      moves past the NUL. */
  lemma KeyAtEncoded(doc: seq<uint8>, ptr: nat, size: nat, tag: uint8, k: seq<uint8>)
    requires ptr + size <= |doc| && size >= |k| + 2
    requires tag != 0 && NoNul(k)
    requires At(doc, ptr, [tag] + (k + [0]))
    ensures KeyAt(doc, ptr, size) == Ok(Step(Key(tag, k), ptr + |k| + 2, size - |k| - 2))
  {
    AtSplit(doc, ptr, [tag], k + [0]);
    AtSplit(doc, ptr + 1, k, [0]);
    assert doc[ptr] == [tag][0];
    assert doc[ptr + 1 + |k|] == [0][0];
    forall i | ptr + 1 <= i < ptr + 1 + |k|
      ensures doc[i] != 0
    {
      assert doc[i] == k[i - ptr - 1];
    }
    FirstNulAt(doc, ptr + 1, ptr + size, ptr + 1 + |k|);
    AtSlice(doc, ptr + 1, k);
  }

  /** `read_string_val` over the length and the bytes `bson_append_string`
      wrote for `v` gives back `v` with its NUL and moves past them. */
  lemma StringValAtEncoded(doc: seq<uint8>, ptr: nat, size: nat, v: seq<uint8>)
    requires ptr + size <= |doc| && size >= |v| + 5
    requires |v| + 1 < 0x8000_0000
    requires At(doc, ptr, LE32(|v| + 1) + (v + [0]))
    ensures StringValAt(doc, ptr, size) == Ok(Step(v + [0], ptr + |v| + 5, size - |v| - 5))
  {
    AtSplit(doc, ptr, LE32(|v| + 1), v + [0]);
    Int32AtEncoded(doc, ptr, size, |v| + 1);
    AtSlice(doc, ptr + 4, v + [0]);
    assert doc[ptr + 4 + |v|] == (v + [0])[|v|];
  }

  /** The lookup the codec should give for `fs`: the first pair's value, or none. */
  function Expected(fs: seq<Field>, key: seq<uint8>): Lookup {
    match FirstMatch(fs, key)
    case Some(v) => Found(v)
    case None => NotFound
  }

  /** The expected lookup looks at the first pair, then at the rest. */
  lemma ExpectedStep(fs: seq<Field>, key: seq<uint8>)
    requires fs != []
    ensures Expected(fs, key) == if fs[0].key == key then Found(fs[0].value) else Expected(fs[1..], key)
  {
  }

  /** A lookup step over a string entry whose key and value read cleanly:
      it stops with the value when the key matches and goes on after the
      value otherwise. */
  lemma FindFromStep(doc: seq<uint8>, ptr: nat, size: nat, key: seq<uint8>,
                     k: seq<uint8>, v: seq<uint8>, vp: nat, vsize: nat, np: nat, nsize: nat)
    requires ptr + size <= |doc| && size > 0 && NoNul(v)
    requires KeyAt(doc, ptr, size) == Ok(Step(Key(Code(String), k), vp, vsize))
    requires vp + vsize <= |doc| && StringValAt(doc, vp, vsize) == Ok(Step(v + [0], np, nsize))
    requires np + nsize <= |doc| && nsize < size
    ensures k == key ==> FindFrom(doc, ptr, size, key) == Found(v)
    ensures k != key ==> FindFrom(doc, ptr, size, key) == FindFrom(doc, np, nsize, key)
  {
    assert FindFrom(doc, ptr, size, key) == LookupAfterKey(doc, size, KeyAt(doc, ptr, size), key);
    assert FindFrom(doc, ptr, size, key) == LookupValue(doc, vsize, k, StringValAt(doc, vp, vsize), key);
    CStringTerminated(v);
  }

  /** A string element in the buffer is the part `read_key` reads followed
      by the part `read_string_val` reads. */
  lemma ElementParts(doc: seq<uint8>, ptr: nat, f: Field)
    requires |f.value| + 1 < 0x1_0000_0000
    requires At(doc, ptr, StringElement(f))
    ensures At(doc, ptr, [Code(String)] + (f.key + [0]))
    ensures At(doc, ptr + |f.key| + 2, LE32(|f.value| + 1) + (f.value + [0]))
  {
    StringElementParts(f);
    AtSplit(doc, ptr, [Code(String)] + (f.key + [0]), LE32(|f.value| + 1) + (f.value + [0]));
  }

  /** One string element of `n` bytes at the cursor: the lookup either stops
      on it with its value, when the key matches, or goes on right after it. */
  lemma FindFromElement(doc: seq<uint8>, ptr: nat, size: nat, f: Field, n: nat, key: seq<uint8>)
    requires ValidField(f) && n == |StringElement(f)| && ptr + size <= |doc| && n <= size
    requires At(doc, ptr, StringElement(f))
    ensures f.key == key ==> FindFrom(doc, ptr, size, key) == Found(f.value)
    ensures f.key != key ==> FindFrom(doc, ptr, size, key) == FindFrom(doc, ptr + n, size - n, key)
  {
    var vp, vsize := ptr + |f.key| + 2, size - |f.key| - 2;
    assert n == |f.key| + |f.value| + 7;
    ElementParts(doc, ptr, f);
    KeyAtEncoded(doc, ptr, size, Code(String), f.key);
    StringValAtEncoded(doc, vp, vsize, f.value);
    FindFromStep(doc, ptr, size, key, f.key, f.value, vp, vsize, ptr + n, size - n);
  }

  /** The terminator ends the lookup with nothing found. */
  lemma FindFromEnd(doc: seq<uint8>, ptr: nat, size: nat, key: seq<uint8>)
    requires ptr + size <= |doc| && size >= 1 && doc[ptr] == 0
    ensures FindFrom(doc, ptr, size, key) == NotFound
  {
    assert KeyAt(doc, ptr, size) == Ok(Step(Key(0, []), ptr + 1, size - 1));
  }

  /** The bytes of a non-empty element list followed by the terminator
      split into the first element and the rest followed by the terminator. */
  lemma ElementsLayout(doc: seq<uint8>, ptr: nat, fs: seq<Field>)
    requires Encodable(fs) && fs != []
    requires At(doc, ptr, Elements(fs) + [0])
    ensures ValidField(fs[0]) && Encodable(fs[1..])
    ensures |Elements(fs)| == |StringElement(fs[0])| + |Elements(fs[1..])|
    ensures At(doc, ptr, StringElement(fs[0]))
    ensures At(doc, ptr + |StringElement(fs[0])|, Elements(fs[1..]) + [0])
  {
    var w := Elements(fs) + [0];
    var e := StringElement(fs[0]);
    assert Encodable(fs[1..]) by {
      forall i | 0 <= i < |fs[1..]| ensures ValidField(fs[1..][i]) {
        assert fs[1..][i] == fs[i + 1];
      }
    }
    assert w == e + (Elements(fs[1..]) + [0]);
    AtSplit(doc, ptr, e, Elements(fs[1..]) + [0]);
  }

  /** The `size` bytes at `ptr` hold the string elements of `fs`, in order,
      then the terminator. */
  ghost predicate Laid(doc: seq<uint8>, ptr: nat, size: nat, fs: seq<Field>)
    decreases |fs|
  {
    ptr + size <= |doc| &&
    if fs == [] then size >= 1 && doc[ptr] == 0
    else
      ValidField(fs[0]) &&
      var n := |StringElement(fs[0])|;
      n <= size && At(doc, ptr, StringElement(fs[0])) &&
      Laid(doc, ptr + n, size - n, fs[1..])
  }

  /** An element list followed by the terminator is laid out element by element. */
  lemma {:induction false} ElementsLaid(doc: seq<uint8>, ptr: nat, fs: seq<Field>)
    requires Encodable(fs) && At(doc, ptr, Elements(fs) + [0])
    ensures Laid(doc, ptr, |Elements(fs)| + 1, fs)
    decreases |fs|
  {
    if fs == [] {
      assert doc[ptr] == (Elements(fs) + [0])[0];
    } else {
      ElementsLayout(doc, ptr, fs);
      ElementsLaid(doc, ptr + |StringElement(fs[0])|, fs[1..]);
    }
  }

  /** Scanning laid-out elements of `fs` finds the value of the first pair
      with the key, and none when no pair has it. */
  lemma {:induction false} FindFromElements(doc: seq<uint8>, ptr: nat, size: nat, fs: seq<Field>, key: seq<uint8>)
    requires Laid(doc, ptr, size, fs)
    ensures ptr + size <= |doc|
    ensures FindFrom(doc, ptr, size, key) == Expected(fs, key)
    decreases |fs|
  {
    if fs == [] {
      FindFromEnd(doc, ptr, size, key);
    } else {
      var n := |StringElement(fs[0])|;
      FindFromElement(doc, ptr, size, fs[0], n, key);
      if fs[0].key != key {
        FindFromElements(doc, ptr + n, size - n, fs[1..], key);
      }
      FindFromCombine(doc, ptr, size, fs, key, n);
    }
  }

  /** `find(finalize(append(k, v)), k)`: a lookup in the finished document of
      `fs` finds the value of the first pair with the key, and reports it
      missing when no pair has it. */
  lemma FindInEnvelope(fs: seq<Field>, key: seq<uint8>)
    requires Encodable(fs) && |Elements(fs)| + 5 < 0x8000_0000
    ensures Find(Envelope(fs), key) == Expected(fs, key)
  {
    EnvelopeFraming(fs);
    EnvelopeBody(fs);
    FindInDocument(Envelope(fs), fs, key);
  }

  /** A finished document cut short anywhere is a truncation: its prefix, if
      it survives, claims more bytes than remain. */
  lemma FindTruncated(fs: seq<Field>, key: seq<uint8>, n: nat)
    requires Encodable(fs) && |Elements(fs)| + 5 < 0x8000_0000
    requires n < |Envelope(fs)|
    ensures Find(Envelope(fs)[..n], key) == Failed(Truncated)
  {
    EnvelopeFraming(fs);
    if n >= 4 {
      assert Envelope(fs)[..n][..4] == Envelope(fs)[..4];
    }
  }

  /** A buffer whose length prefix gives its own length and whose body is the
      elements of `fs` and the terminator is searched as `fs`. */
  lemma FindInDocument(doc: seq<uint8>, fs: seq<Field>, key: seq<uint8>)
    requires Encodable(fs) && |doc| == |Elements(fs)| + 5
    requires FromLE32(doc[..4]) == |doc|
    requires doc[4..4 + |Elements(fs)| + 1] == Elements(fs) + [0]
    ensures Find(doc, key) == Expected(fs, key)
  {
    FindStarts(doc, |doc|, key);
    SliceAt(doc, 4, Elements(fs) + [0]);
    FindFromList(doc, 4, fs, key);
  }

  /** Scanning an element list of `fs` followed by the terminator finds the
      value of the first pair with the key. */
  lemma FindFromList(doc: seq<uint8>, ptr: nat, fs: seq<Field>, key: seq<uint8>)
    requires Encodable(fs) && At(doc, ptr, Elements(fs) + [0])
    ensures FindFrom(doc, ptr, |Elements(fs)| + 1, key) == Expected(fs, key)
  {
    ElementsLaid(doc, ptr, fs);
    FindFromElements(doc, ptr, |Elements(fs)| + 1, fs, key);
  }

  /** A lookup in a one-pair document finds the pair's value. */
  lemma FindSingle(k: seq<uint8>, v: seq<uint8>)
    requires ValidField(Field(k, v)) && |k| + |v| + 12 < 0x8000_0000
    ensures Encodable([Field(k, v)])
    ensures |Elements([Field(k, v)])| + 5 < 0x8000_0000
    ensures Find(Envelope([Field(k, v)]), k) == Found(v)
  {
    var fs := [Field(k, v)];
    assert Elements(fs) == StringElement(Field(k, v));
    FindInEnvelope(fs, k);
  }

  /** `main` (cbson.c:159-172) without its printing: build the document of
      the pair ("hello", "world") exactly as `main` does, then look "hello"
      up in it. */
  method MainExample() returns (doc: seq<uint8>, value: Lookup)
    ensures doc == [0x16, 0, 0, 0, 0x02, 0x68, 0x65, 0x6c, 0x6c, 0x6f, 0,
                    0x06, 0, 0, 0, 0x77, 0x6f, 0x72, 0x6c, 0x64, 0, 0]
    ensures value == Found([0x77, 0x6f, 0x72, 0x6c, 0x64])
  {
    var hello: seq<uint8> := [0x68, 0x65, 0x6c, 0x6c, 0x6f];
    var world: seq<uint8> := [0x77, 0x6f, 0x72, 0x6c, 0x64];
    var b := new BsonObj();
    var offset := b.ReservedLength();
    ghost var slot := b.Contents;
    b.AppendString(hello, world);
    b.WriteByte(0);
    ghost var body := b.Contents;
    b.WriteUint32WithOffset(b.size - offset, offset);
    doc := b.bytes[..b.size];
    MainDocument(hello, world);
    FramedEnvelope([Field(hello, world)], slot, body, doc);
    value := BsonReadString(doc, hello);
    FindSingle(hello, world);
  }

  /** The bytes of the ("hello", "world") document. */
  lemma MainDocument(hello: seq<uint8>, world: seq<uint8>)
    requires hello == [0x68, 0x65, 0x6c, 0x6c, 0x6f] && world == [0x77, 0x6f, 0x72, 0x6c, 0x64]
    ensures Encodable([Field(hello, world)])
    ensures Elements([Field(hello, world)]) == StringElement(Field(hello, world))
    ensures |Elements([Field(hello, world)])| + 5 < 0x8000_0000
    ensures Envelope([Field(hello, world)]) ==
            [0x16, 0, 0, 0, 0x02, 0x68, 0x65, 0x6c, 0x6c, 0x6f, 0,
             0x06, 0, 0, 0, 0x77, 0x6f, 0x72, 0x6c, 0x64, 0, 0]
  {
    var e := MainElement(hello, world);
    SingleEnvelope(Field(hello, world));
    assert LE32(22) == [0x16, 0, 0, 0];
    assert Envelope([Field(hello, world)]) == [0x16, 0, 0, 0] + e + [0];
    MainBytes(e);
  }

  /** The length, the element and the terminator of the example, laid end to end. */
  lemma MainBytes(e: seq<uint8>)
    requires e == [0x02, 0x68, 0x65, 0x6c, 0x6c, 0x6f, 0, 0x06, 0, 0, 0, 0x77, 0x6f, 0x72, 0x6c, 0x64, 0]
    ensures [0x16, 0, 0, 0] + e + [0] ==
            [0x16, 0, 0, 0, 0x02, 0x68, 0x65, 0x6c, 0x6c, 0x6f, 0,
             0x06, 0, 0, 0, 0x77, 0x6f, 0x72, 0x6c, 0x64, 0, 0]
  {
  }

  /** The document of one pair is its element between the length and the
      terminator. */
  lemma SingleEnvelope(f: Field)
    requires ValidField(f) && |f.key| + |f.value| + 12 < 0x8000_0000
    ensures Encodable([f])
    ensures Elements([f]) == StringElement(f)
    ensures |Elements([f])| + 5 < 0x8000_0000
    ensures Envelope([f]) == LE32(|f.key| + |f.value| + 12) + StringElement(f) + [0]
  {
    assert Elements([f]) == StringElement([f][0]) + Elements([]);
  }

  /** The 17 bytes `bson_append_string` writes for ("hello", "world"). */
  lemma MainElement(hello: seq<uint8>, world: seq<uint8>) returns (e: seq<uint8>)
    requires hello == [0x68, 0x65, 0x6c, 0x6c, 0x6f] && world == [0x77, 0x6f, 0x72, 0x6c, 0x64]
    ensures ValidField(Field(hello, world))
    ensures e == StringElement(Field(hello, world))
    ensures e == [0x02, 0x68, 0x65, 0x6c, 0x6c, 0x6f, 0, 0x06, 0, 0, 0, 0x77, 0x6f, 0x72, 0x6c, 0x64, 0]
  {
    assert Code(String) == 0x02;
    assert LE32(6) == [6, 0, 0, 0];
    e := StringElement(Field(hello, world));
  }

  /** The lookup over `fs` from its first element's result and, when that
      element does not match, the lookup over the rest `n` bytes later. */
  lemma FindFromCombine(doc: seq<uint8>, ptr: nat, size: nat, fs: seq<Field>, key: seq<uint8>, n: nat)
    requires fs != [] && ptr + size <= |doc| && n <= size
    requires fs[0].key == key ==> FindFrom(doc, ptr, size, key) == Found(fs[0].value)
    requires fs[0].key != key ==> FindFrom(doc, ptr, size, key) == FindFrom(doc, ptr + n, size - n, key)
    requires fs[0].key != key ==> FindFrom(doc, ptr + n, size - n, key) == Expected(fs[1..], key)
    ensures FindFrom(doc, ptr, size, key) == Expected(fs, key)
  {
    ExpectedStep(fs, key);
  }
}
