/** The byte layout of a document: `int32 e_list "\x00"`, where each element
    written by this codec is a string element `"\x02" e_name int32 bytes "\x00"`. */
module Wire {
  import opened Bytes
  import opened BsonTypes

  /** One key/value pair handed to `bson_append_string`. */
  datatype Field = Field(key: seq<uint8>, value: seq<uint8>)

  /** A pair the codec can write and read back: both are C strings (no NUL
      inside, since `strlen` measures them) and the value's length with its
      terminator fits the signed 32-bit length the reader decodes. */
  predicate ValidField(f: Field) {
    NoNul(f.key) && NoNul(f.value) && |f.value| + 1 < 0x8000_0000
  }

  predicate Encodable(fs: seq<Field>) {
    forall i | 0 <= i < |fs| :: ValidField(fs[i])
  }

  /** The bytes `bson_append_string` appends for one pair: the STRING tag, the
      key and its NUL, the value's length counting its NUL, the value and its NUL. */
  function StringElement(f: Field): (r: seq<uint8>)
    requires |f.value| + 1 < 0x1_0000_0000
    ensures |r| == |f.key| + |f.value| + 7
  {
    [Code(String)] + f.key + [0] + LE32(|f.value| + 1) + f.value + [0]
  }

  /** A string element splits after the key's NUL into the part `read_key`
      reads and the part `read_string_val` reads. */
  lemma StringElementParts(f: Field)
    requires |f.value| + 1 < 0x1_0000_0000
    ensures StringElement(f) ==
            ([Code(String)] + (f.key + [0])) + (LE32(|f.value| + 1) + (f.value + [0]))
  {
  }

  /** The element list of a document holding `fs`, in order. */
  function Elements(fs: seq<Field>): seq<uint8>
    requires Encodable(fs)
  {
    if fs == [] then [] else StringElement(fs[0]) + Elements(fs[1..])
  }

  /** The finished document: the total length (counting the prefix and the
      terminator), the elements, the 0x00 terminator. */
  function Envelope(fs: seq<Field>): seq<uint8>
    requires Encodable(fs) && |Elements(fs)| + 5 < 0x8000_0000
  {
    LE32(|Elements(fs)| + 5) + Elements(fs) + [0]
  }

  /** The value of the first pair whose key is `k`, if there is one. */
  function FirstMatch(fs: seq<Field>, k: seq<uint8>): (r: Option<seq<uint8>>)
    ensures r.None? <==> forall i | 0 <= i < |fs| :: fs[i].key != k
  {
    if fs == [] then None
    else if fs[0].key == k then Some(fs[0].value)
    else FirstMatch(fs[1..], k)
  }

  /** FirstMatch picks exactly the earliest pair with the key. */
  lemma {:induction false} FirstMatchIsFirst(fs: seq<Field>, k: seq<uint8>, i: nat)
    requires i < |fs| && fs[i].key == k
    requires forall j | 0 <= j < i :: fs[j].key != k
    ensures FirstMatch(fs, k) == Some(fs[i].value)
  {
    if i > 0 {
      FirstMatchIsFirst(fs[1..], k, i - 1);
    }
  }

  /** Appending pairs one at a time builds the element list of all of them. */
  lemma {:induction false} ElementsConcat(a: seq<Field>, b: seq<Field>)
    requires Encodable(a) && Encodable(b)
    ensures Encodable(a + b)
    ensures Elements(a + b) == Elements(a) + Elements(b)
  {
    var ab := a + b;
    forall i | 0 <= i < |ab|
      ensures ValidField(ab[i])
    {
      if i < |a| { assert ab[i] == a[i]; } else { assert ab[i] == b[i - |a|]; }
    }
    if a == [] {
      assert ab == b;
    } else {
      assert ab[0] == a[0] && ab[1..] == a[1..] + b;
      ElementsConcat(a[1..], b);
      assert Elements(ab) == StringElement(a[0]) + (Elements(a[1..]) + Elements(b));
    }
  }

  /** After the length prefix come the elements and the terminator. */
  lemma EnvelopeBody(fs: seq<Field>)
    requires Encodable(fs) && |Elements(fs)| + 5 < 0x8000_0000
    ensures |Envelope(fs)| == |Elements(fs)| + 5
    ensures Envelope(fs)[4..] == Elements(fs) + [0]
    ensures Envelope(fs)[4..4 + |Elements(fs)| + 1] == Elements(fs) + [0]
  {
    assert Envelope(fs)[4..] == Envelope(fs)[4..4 + |Elements(fs)| + 1];
  }

  /** The first four bytes of a finished document, read little-endian, give
      its total length, and its last byte is the terminator. */
  lemma EnvelopeFraming(fs: seq<Field>)
    requires Encodable(fs) && |Elements(fs)| + 5 < 0x8000_0000
    ensures |Envelope(fs)| >= 5
    ensures FromLE32(Envelope(fs)[..4]) == |Envelope(fs)|
    ensures Envelope(fs)[|Envelope(fs)| - 1] == 0
  {
    var doc := Envelope(fs);
    assert doc[..4] == LE32(|Elements(fs)| + 5);
    LE32RoundTrip(|Elements(fs)| + 5);
  }
}
