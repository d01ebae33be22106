/** The read side of cbson.c: the cursor `bson_iter_t`, its step functions
    `read_byte`, `read_int32`, `read_int64`, `read_key`, `read_string_val`, and
    the key lookup `bson_read_string`.

    The reader here is the corrected one. Where the source goes wrong, the
    comment at the deviation names the source line and says what changed:
    the cursor starts after the length prefix with the prefix's bytes taken
    off the counter, a 0x00 tag ends the list, every step counts exactly the
    bytes it consumes, a skipped entry's string value is stepped over, any tag
    other than STRING is an error, and no step reads past the counter. */
module Reader {
  import opened Bytes
  import opened BsonTypes
  import opened Wire

  /** Why a read stopped short. */
  datatype ReadError =
    | Truncated                   // a step needs more bytes than remain
    | BadLength                   // a declared length that cannot be right
    | Unterminated                // a string value whose last byte is not NUL
    | UnsupportedType(tag: uint8) // an element the codec cannot read or skip

  datatype Result<T> = Ok(value: T) | Err(error: ReadError)

  /** A value read, with the cursor (position, remaining) after it. */
  datatype Step<T> = Step(value: T, ptr: nat, size: nat)

  /** What `read_key` hands back: the tag byte and the key's bytes. */
  datatype Key = Key(tag: uint8, name: seq<uint8>)

  /** The outcome of a lookup: the value found, none (the C NULL), or an error. */
  datatype Lookup = Found(value: seq<uint8>) | NotFound | Failed(error: ReadError)

  /** The `cbson_read_result_t` code each error reports: an element type the
      codec does not handle is a type error, everything else a broken document. */
  function ErrorCode(e: ReadError): (c: ReadResult)
    ensures ResultValue(c) < 0
    ensures c == RetTypeError <==> e.UnsupportedType?
  {
    if e.UnsupportedType? then RetTypeError else RetDocNotValid
  }

  function ValueOf<T>(s: Result<Step<T>>): Result<T> {
    if s.Ok? then Ok(s.value.value) else Err(s.error)
  }

  /** The cursor after a step: moved on success, left in place on an error. */
  function Resume<T>(s: Result<Step<T>>, ptr: nat, size: nat): (nat, nat) {
    if s.Ok? then (s.value.ptr, s.value.size) else (ptr, size)
  }

  /** The position of the first NUL in `doc[lo..hi]`, if there is one. */
  function FirstNul(doc: seq<uint8>, lo: nat, hi: nat): (r: Option<nat>)
    requires lo <= hi <= |doc|
    ensures r.Some? ==> lo <= r.value < hi && doc[r.value] == 0
    decreases hi - lo
  {
    if lo == hi then None
    else if doc[lo] == 0 then Some(lo)
    else FirstNul(doc, lo + 1, hi)
  }

  /** The NUL the scan reports is the first one, and when it reports none the
      range holds no NUL. */
  lemma {:induction false} FirstNulFirst(doc: seq<uint8>, lo: nat, hi: nat)
    requires lo <= hi <= |doc|
    ensures FirstNul(doc, lo, hi).None? ==> (forall i | lo <= i < hi :: doc[i] != 0)
    ensures FirstNul(doc, lo, hi).Some? ==> (forall i | lo <= i < FirstNul(doc, lo, hi).value :: doc[i] != 0)
    decreases hi - lo
  {
    if lo < hi && doc[lo] != 0 {
      FirstNulFirst(doc, lo + 1, hi);
    }
  }

  /** The bytes a `const char*` to `s` stands for: those before the first NUL. */
  function CString(s: seq<uint8>): (r: seq<uint8>)
    ensures NoNul(r)
  {
    if s == [] then []
    else if s[0] == 0 then []
    else [s[0]] + CString(s[1..])
  }

  /** The C string is the longest NUL-free prefix: it is followed by a NUL
      unless it is all of `s`. */
  lemma {:induction false} CStringPrefix(s: seq<uint8>)
    ensures |CString(s)| <= |s| && CString(s) == s[..|CString(s)|]
    ensures |CString(s)| < |s| ==> s[|CString(s)|] == 0
    ensures NoNul(s) ==> CString(s) == s
  {
    if s != [] && s[0] != 0 {
      CStringPrefix(s[1..]);
      assert [s[0]] + s[1..][..|CString(s[1..])|] == s[..|CString(s)|];
    }
  }

  /** A value written with its terminating NUL reads back as itself. */
  lemma {:induction false} CStringTerminated(v: seq<uint8>)
    requires NoNul(v)
    ensures CString(v + [0]) == v
  {
    if v != [] {
      assert (v + [0])[1..] == v[1..] + [0];
      CStringTerminated(v[1..]);
    }
  }

  /** `read_byte`, corrected to check that a byte remains (cbson.c:121-126). */
  function ByteAt(doc: seq<uint8>, ptr: nat, size: nat): (r: Result<Step<uint8>>)
    requires ptr + size <= |doc|
    ensures r.Ok? <==> size >= 1
    ensures r.Ok? ==> r.value.ptr == ptr + 1 && r.value.ptr + r.value.size == ptr + size
    ensures r.Err? ==> r.error == Truncated
  {
    if size < 1 then Err(Truncated) else Ok(Step(doc[ptr], ptr + 1, size - 1))
  }

  /** `read_int32`, corrected to check that four bytes remain (cbson.c:101-107):
      the little-endian word, reinterpreted as signed. */
  function Int32At(doc: seq<uint8>, ptr: nat, size: nat): (r: Result<Step<int>>)
    requires ptr + size <= |doc|
    ensures r.Ok? <==> size >= 4
    ensures r.Ok? ==> r.value.ptr == ptr + 4 && r.value.ptr + r.value.size == ptr + size
    ensures r.Ok? ==> -0x8000_0000 <= r.value.value < 0x8000_0000
    ensures r.Err? ==> r.error == Truncated
  {
    if size < 4 then Err(Truncated)
    else Ok(Step(ToInt32(FromLE32(doc[ptr..ptr + 4])), ptr + 4, size - 4))
  }

  /** `read_int64`, corrected to check that eight bytes remain (cbson.c:110-118):
      the low word, then the high word, reinterpreted as signed. */
  function Int64At(doc: seq<uint8>, ptr: nat, size: nat): (r: Result<Step<int>>)
    requires ptr + size <= |doc|
    ensures r.Ok? <==> size >= 8
    ensures r.Ok? ==> r.value.ptr == ptr + 8 && r.value.ptr + r.value.size == ptr + size
    ensures r.Ok? ==> -0x8000_0000_0000_0000 <= r.value.value < 0x8000_0000_0000_0000
    ensures r.Err? ==> r.error == Truncated
  {
    if size < 8 then Err(Truncated)
    else Ok(Step(ToInt64(FromLE64(doc[ptr..ptr + 8])), ptr + 8, size - 8))
  }

  /** `read_key` (cbson.c:129-135), corrected: the tag byte, then the key up
      to its NUL, with the NUL taken off the counter as well (the source
      decrements only for the key's other bytes, cbson.c:132-133). A 0x00 tag
      is the list terminator and has no key after it (the source goes on
      scanning a key after any tag, cbson.c:130-133). A key whose NUL lies
      beyond the counter is a truncation: the read fails exactly when no byte
      remains or a non-zero tag has no NUL within the counter. */
  function KeyAt(doc: seq<uint8>, ptr: nat, size: nat): (r: Result<Step<Key>>)
    requires ptr + size <= |doc|
    ensures r.Ok? ==> size >= 1 && r.value.value.tag == doc[ptr]
    ensures r.Ok? ==> r.value.ptr == ptr + 1 + (if doc[ptr] == 0 then 0 else |r.value.value.name| + 1)
    ensures r.Ok? ==> r.value.ptr + r.value.size == ptr + size
    ensures r.Err? ==> r.error == Truncated
    ensures r.Err? <==> size == 0 || (doc[ptr] != 0 && FirstNul(doc, ptr + 1, ptr + size).None?)
  {
    if size < 1 then Err(Truncated)
    else if doc[ptr] == 0 then Ok(Step(Key(0, []), ptr + 1, size - 1))
    else match FirstNul(doc, ptr + 1, ptr + size)
      case None => Err(Truncated)
      case Some(j) => Ok(Step(Key(doc[ptr], doc[ptr + 1..j]), j + 1, ptr + size - (j + 1)))
  }

  /** `read_string_val` (cbson.c:138-144), corrected: the signed length `L`,
      then the `L` bytes of the value, with `4 + L` taken off the counter (the
      source adds `L` to it instead, cbson.c:142). A length below 1 leaves no
      room for the value's NUL, a length beyond the counter would read past
      the document, and a value whose last byte is not NUL is no C string
      (StringValAtErrors names the error of each case). */
  function StringValAt(doc: seq<uint8>, ptr: nat, size: nat): (r: Result<Step<seq<uint8>>>)
    requires ptr + size <= |doc|
    ensures r.Ok? ==> size >= 4 + |r.value.value| && |r.value.value| >= 1
    ensures r.Ok? ==> r.value.ptr == ptr + 4 + |r.value.value| && r.value.ptr + r.value.size == ptr + size
  {
    match Int32At(doc, ptr, size)
    case Err(e) => Err(e)
    case Ok(n) =>
      if n.value < 1 then Err(BadLength)
      else if n.value > n.size then Err(Truncated)
      else if doc[n.ptr + n.value - 1] != 0 then Err(Unterminated)
      else Ok(Step(doc[n.ptr..n.ptr + n.value], n.ptr + n.value, n.size - n.value))
  }

  /** A key read past a non-zero tag is the bytes up to the first NUL, and the
      cursor resumes just past that NUL. */
  lemma KeyAtName(doc: seq<uint8>, ptr: nat, size: nat)
    requires ptr + size <= |doc| && KeyAt(doc, ptr, size).Ok? && doc[ptr] != 0
    ensures KeyAt(doc, ptr, size).value.value.name == doc[ptr + 1..KeyAt(doc, ptr, size).value.ptr - 1]
    ensures NoNul(KeyAt(doc, ptr, size).value.value.name)
    ensures doc[KeyAt(doc, ptr, size).value.ptr - 1] == 0
  {
    FirstNulFirst(doc, ptr + 1, ptr + size);
  }

  /** How `read_string_val` fails: fewer than four bytes for the length or a
      length beyond the counter is a truncation, a length below 1 a bad
      length, a last byte other than NUL an unterminated value; otherwise the
      read succeeds. */
  lemma StringValAtErrors(doc: seq<uint8>, ptr: nat, size: nat)
    requires ptr + size <= |doc|
    ensures size < 4 ==> StringValAt(doc, ptr, size) == Err(Truncated)
    ensures size >= 4 ==>
              var n := ToInt32(FromLE32(doc[ptr..ptr + 4]));
              (n < 1 ==> StringValAt(doc, ptr, size) == Err(BadLength)) &&
              (n > size - 4 ==> StringValAt(doc, ptr, size) == Err(Truncated)) &&
              (1 <= n <= size - 4 && doc[ptr + 3 + n] != 0 ==> StringValAt(doc, ptr, size) == Err(Unterminated)) &&
              (1 <= n <= size - 4 && doc[ptr + 3 + n] == 0 ==> StringValAt(doc, ptr, size).Ok?)
  {
  }

  /** A string value read is the `L` bytes after the length word, where `L` is
      that word, and its last byte is the NUL. */
  lemma StringValAtValue(doc: seq<uint8>, ptr: nat, size: nat)
    requires ptr + size <= |doc| && StringValAt(doc, ptr, size).Ok?
    ensures ToInt32(FromLE32(doc[ptr..ptr + 4])) == |StringValAt(doc, ptr, size).value.value|
    ensures StringValAt(doc, ptr, size).value.value == doc[ptr + 4..StringValAt(doc, ptr, size).value.ptr]
    ensures StringValAt(doc, ptr, size).value.value[|StringValAt(doc, ptr, size).value.value| - 1] == 0
  {
  }

  /** The lookup loop of `bson_read_string` (cbson.c:151-155) from cursor
      (`ptr`, `size`), corrected: a 0x00 tag ends the list, the value of an
      entry whose key does not match is stepped over (the source goes on
      reading the value's bytes as the next tag, cbson.c:152-154), and any
      tag other than STRING is an error, since the codec knows the size of no
      other element. The value found is the C string the source returns.
      The loop body is split over three functions, one per read: the key
      here, the rest in LookupAfterKey and LookupValue. The contract states
      how the first entry can end the lookup: an exhausted counter or the
      terminator with nothing found, a key cut off by the counter with a
      truncation, a tag other than STRING with a type error. */
  function FindFrom(doc: seq<uint8>, ptr: nat, size: nat, key: seq<uint8>): (r: Lookup)
    requires ptr + size <= |doc|
    ensures r.Found? ==> NoNul(r.value)
    ensures size == 0 ==> r == NotFound
    ensures size > 0 && doc[ptr] == 0 ==> r == NotFound
    ensures size > 0 && KeyAt(doc, ptr, size).Err? ==> r == Failed(Truncated)
    ensures size > 0 && KeyAt(doc, ptr, size).Ok? && doc[ptr] != 0 && doc[ptr] != Code(String) ==>
              r == Failed(UnsupportedType(doc[ptr]))
    decreases size, 2
  {
    if size == 0 then NotFound
    else LookupAfterKey(doc, size, KeyAt(doc, ptr, size), key)
  }

  /** The lookup once the key of the next entry has been read with `size`
      bytes remaining before it: the terminator ends the search, a tag other
      than STRING fails it, and a STRING entry has its value read next. */
  function LookupAfterKey(doc: seq<uint8>, size: nat, ks: Result<Step<Key>>, key: seq<uint8>): (r: Lookup)
    requires ks.Ok? ==> ks.value.ptr + ks.value.size <= |doc| && ks.value.size < size
    ensures r.Found? ==> NoNul(r.value)
    decreases size, 1
  {
    match ks
    case Err(e) => Failed(e)
    case Ok(k) =>
      if k.value.tag == 0 then NotFound
      else if k.value.tag != Code(String) then Failed(UnsupportedType(k.value.tag))
      else LookupValue(doc, k.size, k.value.name, StringValAt(doc, k.ptr, k.size), key)
  }

  /** The lookup once the value of an entry named `name` has been read with
      `bound` bytes remaining before it: a matching name gives the value as a
      C string, any other name resumes the search after the value. */
  function LookupValue(doc: seq<uint8>, bound: nat, name: seq<uint8>,
                       vs: Result<Step<seq<uint8>>>, key: seq<uint8>): (r: Lookup)
    requires vs.Ok? ==> vs.value.ptr + vs.value.size <= |doc| && vs.value.size < bound
    ensures r.Found? ==> NoNul(r.value)
    decreases bound, 0
  {
    match vs
    case Err(e) => Failed(e)
    case Ok(v) =>
      if name == key then Found(CString(v.value))
      else FindFrom(doc, v.ptr, v.size, key)
  }

  /** `bson_read_string` (cbson.c:147-157), corrected: the declared length is
      the little-endian word at offset 0, and the list starts at offset 4 with
      the prefix's four bytes already counted (the source starts the cursor
      on the prefix itself with the whole length remaining, cbson.c:148-149).
      A declared length beyond the buffer is a truncation, and one too short
      to hold the prefix is a bad length. */
  function Find(doc: seq<uint8>, key: seq<uint8>): (r: Lookup)
    ensures r.Found? ==> NoNul(r.value)
    ensures |doc| < 4 ==> r == Failed(Truncated)
    ensures |doc| >= 4 && FromLE32(doc[..4]) < 4 ==> r == Failed(BadLength)
    ensures |doc| >= 4 && FromLE32(doc[..4]) > |doc| ==> r == Failed(Truncated)
  {
    if |doc| < 4 then Failed(Truncated)
    else
      var declared := FromLE32(doc[..4]);
      if declared < 4 then Failed(BadLength)
      else if declared > |doc| then Failed(Truncated)
      else FindFrom(doc, 4, declared - 4, key)
  }

  /** A STRING entry whose key reads cleanly but whose value does not ends
      the lookup with the value's error. */
  lemma FindFromBadValue(doc: seq<uint8>, ptr: nat, size: nat, key: seq<uint8>)
    requires ptr + size <= |doc| && size > 0 && doc[ptr] == Code(String)
    requires KeyAt(doc, ptr, size).Ok?
    ensures var k := KeyAt(doc, ptr, size).value;
            StringValAt(doc, k.ptr, k.size).Err? ==>
              FindFrom(doc, ptr, size, key) == Failed(StringValAt(doc, k.ptr, k.size).error)
  {
    var ks := KeyAt(doc, ptr, size);
    assert FindFrom(doc, ptr, size, key) == LookupAfterKey(doc, size, ks, key);
    assert ks.value.value.tag == Code(String) != 0;
  }

  /** A document whose declared length fits the buffer is searched from
      offset 4 with the declared length less the prefix remaining. */
  lemma FindStarts(doc: seq<uint8>, declared: nat, key: seq<uint8>)
    requires |doc| >= 4 && declared == FromLE32(doc[..4]) && 4 <= declared <= |doc|
    ensures Find(doc, key) == FindFrom(doc, 4, declared - 4, key)
  {
  }

  /** `bson_iter_t`: a position in an immutable document and the number of
      bytes that may still be read from it. */
  class BsonIter {
    const doc: seq<uint8>
    var ptr: nat
    var size: nat

    /** The remaining bytes lie within the document. */
    ghost predicate Valid()
      reads this
    {
      ptr + size <= |doc|
    }

    constructor (doc: seq<uint8>, ptr: nat, size: nat)
      requires ptr + size <= |doc|
      ensures Valid()
      ensures this.doc == doc && this.ptr == ptr && this.size == size
    {
      this.doc := doc;
      this.ptr := ptr;
      this.size := size;
    }

    /** `read_byte` (cbson.c:121-126), with the bounds check added. */
    method ReadByte() returns (r: Result<uint8>)
      requires Valid()
      modifies this
      ensures Valid() && ptr + size == old(ptr + size)
      ensures r == ValueOf(ByteAt(doc, old(ptr), old(size)))
      ensures (ptr, size) == Resume(ByteAt(doc, old(ptr), old(size)), old(ptr), old(size))
    {
      if size < 1 {
        return Err(Truncated);
      }
      r := Ok(doc[ptr]);
      ptr := ptr + 1;
      size := size - 1;
    }

    /** `read_int32` (cbson.c:101-107), with the bounds check added. */
    method ReadInt32() returns (r: Result<int>)
      requires Valid()
      modifies this
      ensures Valid() && ptr + size == old(ptr + size)
      ensures r == ValueOf(Int32At(doc, old(ptr), old(size)))
      ensures (ptr, size) == Resume(Int32At(doc, old(ptr), old(size)), old(ptr), old(size))
    {
      if size < 4 {
        return Err(Truncated);
      }
      var v := doc[ptr] as int + doc[ptr + 1] as int * 0x100 +
               doc[ptr + 2] as int * 0x1_0000 + doc[ptr + 3] as int * 0x100_0000;
      assert v == FromLE32(doc[ptr..ptr + 4]);
      r := Ok(ToInt32(v));
      ptr := ptr + 4;
      size := size - 4;
    }

    /** `read_int64` (cbson.c:110-118), with the bounds check added. */
    method ReadInt64() returns (r: Result<int>)
      requires Valid()
      modifies this
      ensures Valid() && ptr + size == old(ptr + size)
      ensures r == ValueOf(Int64At(doc, old(ptr), old(size)))
      ensures (ptr, size) == Resume(Int64At(doc, old(ptr), old(size)), old(ptr), old(size))
    {
      if size < 8 {
        return Err(Truncated);
      }
      var lo := doc[ptr] as int + doc[ptr + 1] as int * 0x100 +
                doc[ptr + 2] as int * 0x1_0000 + doc[ptr + 3] as int * 0x100_0000;
      var hi := doc[ptr + 4] as int + doc[ptr + 5] as int * 0x100 +
                doc[ptr + 6] as int * 0x1_0000 + doc[ptr + 7] as int * 0x100_0000;
      ghost var w := doc[ptr..ptr + 8];
      assert lo == FromLE32(w[..4]) && hi == FromLE32(w[4..]);
      r := Ok(ToInt64(lo + hi * 0x1_0000_0000));
      ptr := ptr + 8;
      size := size - 8;
    }

    /** `read_key` (cbson.c:129-135): read the tag, then scan the key to its
        NUL. The scan is bounded by the counter and the NUL is counted too
        (the source's loop does neither, cbson.c:132-133); a 0x00 tag stops
        before any scan. */
    method ReadKey() returns (r: Result<Key>)
      requires Valid()
      modifies this
      ensures Valid() && ptr + size == old(ptr + size)
      ensures r == ValueOf(KeyAt(doc, old(ptr), old(size)))
      ensures (ptr, size) == Resume(KeyAt(doc, old(ptr), old(size)), old(ptr), old(size))
    {
      var tag := ReadByte();
      if tag.Err? {
        return Err(tag.error);
      }
      if tag.value == 0 {
        return Ok(Key(0, []));
      }
      var start := ptr;
      var end := ptr + size;
      var q := start;
      while q < end && doc[q] != 0
        invariant start <= q <= end
        invariant FirstNul(doc, q, end) == FirstNul(doc, start, end)
        decreases end - q
      {
        q := q + 1;
      }
      if q == end {
        // The key has no NUL before the counter runs out: leave the cursor.
        ptr, size := start - 1, size + 1;
        return Err(Truncated);
      }
      r := Ok(Key(tag.value, doc[start..q]));
      ptr, size := q + 1, end - (q + 1);
    }

    /** `read_string_val` (cbson.c:138-144): read the length, then step over
        the value, taking `4 + L` off the counter (the source adds `L` to it,
        cbson.c:142) after checking the length against what remains. */
    method ReadStringVal() returns (r: Result<seq<uint8>>)
      requires Valid()
      modifies this
      ensures Valid() && ptr + size == old(ptr + size)
      ensures r == ValueOf(StringValAt(doc, old(ptr), old(size)))
      ensures (ptr, size) == Resume(StringValAt(doc, old(ptr), old(size)), old(ptr), old(size))
    {
      var n := ReadInt32();
      if n.Err? {
        return Err(n.error);
      }
      var sz := n.value;
      if sz < 1 || sz > size || doc[ptr + sz - 1] != 0 {
        r := if sz < 1 then Err(BadLength) else if sz > size then Err(Truncated) else Err(Unterminated);
        ptr, size := ptr - 4, size + 4;
        return;
      }
      r := Ok(doc[ptr..ptr + sz]);
      ptr, size := ptr + sz, size - sz;
    }

    /** The loop of `bson_read_string` (cbson.c:151-155): read entries until
        the key matches, the terminator comes, or the counter runs out. */
    method Search(key: seq<uint8>) returns (r: Lookup)
      requires Valid()
      modifies this
      ensures old(ptr) + old(size) <= |doc|
      ensures r == FindFrom(doc, old(ptr), old(size), key)
    {
      while size > 0
        invariant Valid()
        invariant FindFrom(doc, ptr, size, key) == FindFrom(doc, old(ptr), old(size), key)
        decreases size
      {
        ghost var (p0, s0) := (ptr, size);
        var k := ReadKey();
        assert FindFrom(doc, p0, s0, key) == LookupAfterKey(doc, s0, KeyAt(doc, p0, s0), key);
        if k.Err? {
          return Failed(k.error);
        }
        if k.value.tag == 0 {
          // The terminator: the entries are exhausted (the source's read_key
          // would scan a key after it, cbson.c:130-133).
          return NotFound;
        }
        if k.value.tag != Code(String) {
          // No size is known for any other element, so it can be neither
          // read nor skipped.
          return Failed(UnsupportedType(k.value.tag));
        }
        ghost var (p1, s1) := (ptr, size);
        var v := ReadStringVal();
        assert FindFrom(doc, p0, s0, key) == LookupValue(doc, s1, k.value.name, StringValAt(doc, p1, s1), key);
        if v.Err? {
          return Failed(v.error);
        }
        if k.value.name == key {
          return Found(CString(v.value));
        }
        // A different key: its value has been stepped over (cbson.c:152-154
        // would read it as the next tag).
      }
      return NotFound;
    }
  }

  /** `bson_read_string` (cbson.c:147-157): find the value of `key` in `doc`.
      The lookup stops at the first entry with the key, at the terminator, or
      when the counter runs out. */
  method BsonReadString(doc: seq<uint8>, key: seq<uint8>) returns (r: Lookup)
    ensures r == Find(doc, key)
  {
    if |doc| < 4 {
      return Failed(Truncated);
    }
    // The length prefix, decoded little-endian whatever the host's byte
    // order (the source loads it through a host-endian pointer, cbson.c:148).
    var declared := FromLE32(doc[..4]);
    if declared < 4 {
      return Failed(BadLength);
    }
    if declared > |doc| {
      return Failed(Truncated);
    }
    // The list starts after the prefix, with the prefix counted
    // (cbson.c:149 starts on the prefix with the whole length remaining).
    var it := new BsonIter(doc, 4, declared - 4);
    FindStarts(doc, declared, key);
    r := it.Search(key);
  }
}
