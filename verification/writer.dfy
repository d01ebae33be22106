/** The write side of cbson.c: the growable buffer `bson_obj_t`, its append
    primitives, the length slot that is reserved and patched later, the
    composite `bson_append_string`, and the document framing done by `main`. */
module Writer {
  import opened Bytes
  import opened BsonTypes
  import opened Wire

  /** The capacity reached by doubling `c` while it is still at most `need`.
      `bson_reserved` starts this from twice the old capacity (or from 2 when
      there was none), because its loop is a do...while.
      The contract: the result exceeds `need`, and every doubling was needed,
      so the result is either `c` itself or at most twice `need`. */
  function DoubleUntil(c: nat, need: nat): (r: nat)
    requires c >= 1
    ensures r > need && r >= c
    ensures r == c || r <= 2 * need
    decreases need + 1 - c
  {
    if c > need then c else DoubleUntil(2 * c, need)
  }

  function Pow2(k: nat): (r: nat)
    ensures r >= 1
  {
    if k == 0 then 1 else 2 * Pow2(k - 1)
  }

  /** How many doublings DoubleUntil makes. */
  function Doublings(c: nat, need: nat): nat
    requires c >= 1
    decreases need + 1 - c
  {
    if c > need then 0 else Doublings(2 * c, need) + 1
  }

  /** The grown capacity is the starting one doubled some number of times. */
  lemma {:induction false} DoubleUntilIsDoubling(c: nat, need: nat)
    requires c >= 1
    ensures DoubleUntil(c, need) == c * Pow2(Doublings(c, need))
    decreases need + 1 - c
  {
    if c <= need {
      DoubleUntilIsDoubling(2 * c, need);
      var p := Pow2(Doublings(2 * c, need));
      assert c * (2 * p) == (2 * c) * p;
    }
  }

  /** The byte-level step behind `bson_append_string`: after the tag and the
      key, a 4-byte slot, the value and its NUL, patching the slot with the
      value's length yields the string element. */
  lemma PatchedElement(start: seq<uint8>, slotted: seq<uint8>, written: seq<uint8>,
                       k: seq<uint8>, v: seq<uint8>)
    requires |v| + 1 < 0x1_0000_0000
    requires |slotted| == |start| + |k| + 6
    requires slotted[..|start| + |k| + 2] == start + [Code(String)] + k + [0]
    requires written == slotted + v + [0]
    ensures written[..|start| + |k| + 2] + LE32(|v| + 1) + written[|start| + |k| + 6..]
            == start + StringElement(Field(k, v))
  {
    var o := |start| + |k| + 2;
    assert written[..o] == slotted[..o];
    assert written[o + 4..] == v + [0];
  }

  /** `bson_obj_t`: storage of `cap` bytes of which the first `size` are written.
      The storage NULL of a fresh object is the empty array. */
  class BsonObj {
    /** The bytes written so far: the public view of the buffer. */
    ghost var Contents: seq<uint8>
    /** The objects the writer owns: itself and every storage array it used. */
    ghost var Repr: set<object>

    var bytes: array<uint8>
    var size: nat
    var cap: nat

    /** The storage holds `cap` cells, of which the first `size` are written. */
    ghost predicate Valid()
      reads this, Repr
    {
      this in Repr && bytes in Repr &&
      bytes.Length == cap && size <= cap &&
      Contents == bytes[..size]
    }

    /** The zeroed `bson_obj_t` that `main` allocates: no storage, nothing written. */
    constructor ()
      ensures Valid() && fresh(Repr)
      ensures size == 0 && cap == 0 && Contents == []
    {
      bytes := new uint8[0];
      size := 0;
      cap := 0;
      Contents := [];
      Repr := {this, bytes};
    }

    /** `bson_reserved`: make room for `sz` more bytes. Nothing written moves
        or changes; when the room is short, the capacity is doubled (from 1 when
        there was none) until it exceeds `size + sz`. */
    method Reserved(sz: nat)
      requires Valid()
      modifies this
      ensures Valid() && fresh(Repr - old(Repr))
      ensures size == old(size) && Contents == old(Contents)
      ensures size + sz <= cap && old(cap) <= cap
      ensures old(size) + sz <= old(cap) ==> cap == old(cap) && bytes == old(bytes)
      ensures old(size) + sz > old(cap) ==>
                fresh(bytes) && cap == DoubleUntil(2 * (if old(cap) == 0 then 1 else old(cap)), size + sz)
    {
      if size + sz <= cap {
        return;
      }
      var grownCap := if cap == 0 then 1 else cap;
      grownCap := grownCap * 2;
      ghost var first := grownCap;
      while grownCap <= size + sz
        invariant grownCap >= 1
        invariant DoubleUntil(grownCap, size + sz) == DoubleUntil(first, size + sz)
        decreases size + sz + 1 - grownCap
      {
        grownCap := grownCap * 2;
      }
      // malloc followed by memset on the first allocation, realloc afterwards;
      // both keep the old storage's bytes in front.
      var grown := new uint8[grownCap];
      forall i | 0 <= i < cap {
        grown[i] := bytes[i];
      }
      assert grown[..size] == Contents;
      bytes, cap := grown, grownCap;
      Repr := Repr + {grown};
    }

    /** `bson_reserved_length`: reserve a 4-byte length slot at the end and
        return its offset; the slot's bytes are left as they are. */
    method ReservedLength() returns (offset: nat)
      requires Valid()
      modifies this
      ensures Valid() && fresh(Repr - old(Repr))
      ensures offset == old(size) && size == old(size) + 4
      ensures |Contents| == offset + 4 && Contents[..offset] == old(Contents)
      ensures cap >= old(cap)
    {
      offset := size;
      Reserved(4);
      size := size + 4;
      Contents := bytes[..size];
    }

    /** `bson_write_byte`: append one byte. */
    method WriteByte(b: uint8)
      requires Valid()
      modifies Repr
      ensures Valid() && fresh(Repr - old(Repr))
      ensures Contents == old(Contents) + [b]
      ensures cap >= old(cap)
    {
      Reserved(1);
      bytes[size] := b;
      size := size + 1;
      Contents := Contents + [b];
    }

    /** `bson_write_uint32`: append `i` as four little-endian bytes. */
    method WriteUint32(i: uint32)
      requires Valid()
      modifies Repr
      ensures Valid() && fresh(Repr - old(Repr))
      ensures Contents == old(Contents) + LE32(i)
      ensures cap >= old(cap)
    {
      WriteByte(i % 0x100);
      WriteByte((i / 0x100) % 0x100);
      WriteByte((i / 0x1_0000) % 0x100);
      WriteByte((i / 0x100_0000) % 0x100);
    }

    /** `bson_write_uint32_with_offset`: overwrite the four bytes at `offset`
        with `i`, little-endian; nothing else changes. The source does not check
        that the slot lies within the written bytes, so callers must ensure it. */
    method WriteUint32WithOffset(i: uint32, offset: nat)
      requires Valid() && offset + 4 <= size
      modifies Repr
      ensures Valid() && fresh(Repr - old(Repr))
      ensures size == old(size)
      ensures Contents == old(Contents)[..offset] + LE32(i) + old(Contents)[offset + 4..]
      ensures cap >= old(cap)
    {
      Reserved(4);
      Contents := Contents[..offset] + LE32(i) + Contents[offset + 4..];
      bytes[offset] := i % 0x100;
      bytes[offset + 1] := (i / 0x100) % 0x100;
      bytes[offset + 2] := (i / 0x1_0000) % 0x100;
      bytes[offset + 3] := (i / 0x100_0000) % 0x100;
      assert forall j | 0 <= j < size :: bytes[j] == Contents[j];
    }

    /** `bson_write_string`: append the `|s|` bytes of `s` and a NUL. */
    method WriteString(s: seq<uint8>)
      requires Valid()
      modifies Repr
      ensures Valid() && fresh(Repr - old(Repr))
      ensures Contents == old(Contents) + s + [0]
      ensures cap >= old(cap)
    {
      Reserved(|s| + 1);
      Contents := Contents + s + [0];
      forall i | 0 <= i < |s| {
        bytes[size + i] := s[i];
      }
      bytes[size + |s|] := 0;
      size := size + |s| + 1;
      assert forall j | 0 <= j < size :: bytes[j] == Contents[j];
    }

    /** `bson_append_string`: append the string element for key `k` and value
        `v`. Both are C strings, so they hold no NUL. The slot offset is kept
        in an `int`, so the document must stay below 2^31 bytes. */
    method AppendString(k: seq<uint8>, v: seq<uint8>)
      requires Valid() && NoNul(k) && NoNul(v)
      requires size + |k| + |v| + 7 < 0x8000_0000
      modifies Repr
      ensures Valid() && fresh(Repr - old(Repr))
      ensures Contents == old(Contents) + StringElement(Field(k, v))
      ensures cap >= old(cap)
    {
      ghost var start := Contents;
      WriteByte(Code(String));
      WriteString(k);
      ghost var head := Contents;
      assert head == start + [Code(String)] + k + [0];
      var lengthOffset := ReservedLength();
      ghost var slotted := Contents;
      assert slotted[..|start| + |k| + 2] == head;
      WriteString(v);
      ghost var written := Contents;
      assert written == slotted + v + [0];
      WriteUint32WithOffset(|v| + 1, lengthOffset);
      PatchedElement(start, slotted, written, k, v);
    }
  }

  /** The framing `main` does around the fields: reserve the length slot at
      offset 0, append the fields, write the 0x00 terminator, then patch the
      slot with the number of bytes from the slot to the end. The result is the
      finished document of the fields. */
  method EncodeFields(fs: seq<Field>) returns (doc: seq<uint8>)
    requires Encodable(fs) && |Elements(fs)| + 5 < 0x8000_0000
    ensures doc == Envelope(fs)
  {
    var b := new BsonObj();
    var offset := b.ReservedLength();
    assert offset == 0 && b.size == 4;
    ghost var slot := b.Contents;
    AppendFields(b, fs);
    b.WriteByte(0);
    ghost var body := b.Contents;
    assert body == slot + Elements(fs) + [0];
    assert b.size == |body| == |Elements(fs)| + 5;
    b.WriteUint32WithOffset(b.size - offset, offset);
    doc := b.bytes[..b.size];
    assert doc == body[..0] + LE32(|body|) + body[4..];
    FramedEnvelope(fs, slot, body, doc);
  }

  /** The calls to `bson_append_string` that `main` makes, one per pair, in
      order: the object gains the element list of the pairs. */
  method AppendFields(b: BsonObj, fs: seq<Field>)
    requires b.Valid() && Encodable(fs) && b.size + |Elements(fs)| < 0x8000_0000
    modifies b.Repr
    ensures b.Valid() && fresh(b.Repr - old(b.Repr))
    ensures b.Contents == old(b.Contents) + Elements(fs)
  {
    ghost var front := b.Contents;
    for i := 0 to |fs|
      invariant b.Valid() && fresh(b.Repr - old(b.Repr))
      invariant Encodable(fs[..i])
      invariant b.Contents == front + Elements(fs[..i])
    {
      ElementsPrefix(fs, i, front);
      b.AppendString(fs[i].key, fs[i].value);
    }
    assert fs[..|fs|] == fs;
  }

  /** Patching the leading slot of `slot ++ elements ++ [0]` with its total
      length gives the finished document. */
  lemma FramedEnvelope(fs: seq<Field>, slot: seq<uint8>, body: seq<uint8>, doc: seq<uint8>)
    requires Encodable(fs) && |Elements(fs)| + 5 < 0x8000_0000 && |slot| == 4
    requires body == slot + Elements(fs) + [0]
    requires doc == body[..0] + LE32(|body|) + body[4..]
    ensures doc == Envelope(fs)
  {
    assert |body| == |Elements(fs)| + 5;
    assert body[..0] == [] && body[4..] == Elements(fs) + [0];
    assert doc == LE32(|Elements(fs)| + 5) + (Elements(fs) + [0]);
  }

  /** One more pair extends the element list of the pairs before it, and no
      prefix of the pairs encodes longer than all of them. */
  lemma ElementsPrefix(fs: seq<Field>, i: nat, front: seq<uint8>)
    requires Encodable(fs) && i < |fs|
    ensures Encodable(fs[..i]) && Encodable(fs[..i + 1]) && ValidField(fs[i])
    ensures Elements(fs[..i + 1]) == Elements(fs[..i]) + StringElement(fs[i])
    ensures front + Elements(fs[..i]) + StringElement(fs[i]) == front + Elements(fs[..i + 1])
    ensures Field(fs[i].key, fs[i].value) == fs[i]
    ensures |Elements(fs[..i])| + |fs[i].key| + |fs[i].value| + 7 <= |Elements(fs)|
  {
    ElementsSnoc(fs, i);
    ElementsPrefixLength(fs, i + 1);
  }

  /** The element list of the first `i + 1` pairs ends with the element of pair `i`. */
  lemma ElementsSnoc(fs: seq<Field>, i: nat)
    requires Encodable(fs) && i < |fs|
    ensures Encodable(fs[..i]) && Encodable(fs[..i + 1]) && ValidField(fs[i])
    ensures Elements(fs[..i + 1]) == Elements(fs[..i]) + StringElement(fs[i])
  {
    assert fs[..i + 1] == fs[..i] + [fs[i]];
    assert Encodable([fs[i]]);
    ElementsConcat(fs[..i], [fs[i]]);
    assert Elements([fs[i]]) == StringElement(fs[i]);
  }

  /** No prefix of the pairs encodes longer than all of them. */
  lemma ElementsPrefixLength(fs: seq<Field>, j: nat)
    requires Encodable(fs) && j <= |fs|
    ensures Encodable(fs[..j])
    ensures |Elements(fs[..j])| <= |Elements(fs)|
  {
    assert fs == fs[..j] + fs[j..];
    assert Encodable(fs[..j]) && Encodable(fs[j..]) by {
      forall k | 0 <= k < |fs[j..]| ensures ValidField(fs[j..][k]) {
        assert fs[j..][k] == fs[j + k];
      }
    }
    ElementsConcat(fs[..j], fs[j..]);
  }
}
