/** The constants of cbson.h: the `bson_type` tag enum and the
    `cbson_read_result_t` codes. */
module BsonTypes {
  import opened Bytes

  /** The enumerators of `bson_type`, in declaration order. */
  datatype BsonType =
    | Double | String | Doc | Array | Binary | Undefined | ObjectId
    | False | True | UtcDatetime | Null | Regex | DbPointer | JavascriptCode
    | Int32 | Timestamp | Int64 | MinKey | MaxKey

  /** Position of an enumerator in the declaration of `bson_type`. */
  function Ordinal(t: BsonType): (n: nat)
    ensures n < 19
  {
    match t
    case Double => 0         case String => 1      case Doc => 2
    case Array => 3          case Binary => 4      case Undefined => 5
    case ObjectId => 6       case False => 7       case True => 8
    case UtcDatetime => 9    case Null => 10       case Regex => 11
    case DbPointer => 12     case JavascriptCode => 13
    case Int32 => 14         case Timestamp => 15  case Int64 => 16
    case MinKey => 17        case MaxKey => 18
  }

  /** The tag byte of the enumerator at position `n` of the declaration, by
      C's rule for enum constants: an enumerator with an initializer takes its
      value (DOUBLE, MIN_KEY, MAX_KEY), every other one is its predecessor's
      value plus one. The initializer `'\xff'` of MIN_KEY is taken as the
      byte 0xFF.
      The contract states that DOUBLE..INT64 form one consecutive block from 0x01. */
  function CodeAt(n: nat): (c: uint8)
    requires n < 19
    ensures c != 0
    ensures n < 17 ==> c == n + 1
    ensures n == 17 ==> c == 0xFF
    ensures n == 18 ==> c == 0x7F
  {
    if n == 0 then 0x01
    else if n == 17 then 0xFF
    else if n == 18 then 0x7F
    else CodeAt(n - 1) + 1
  }

  /** The tag byte of an enumerator. */
  function Code(t: BsonType): (c: uint8)
    ensures c != 0
    ensures t != MinKey && t != MaxKey ==> c == Ordinal(t) + 1
    ensures t == MinKey ==> c == 0xFF
    ensures t == MaxKey ==> c == 0x7F
  {
    CodeAt(Ordinal(t))
  }

  /** The enumerator at position `n` of the consecutive block DOUBLE..INT64. */
  function AtOrdinal(n: nat): BsonType
    requires n < 17
  {
    match n
    case 0 => Double
    case 1 => String
    case 2 => Doc
    case 3 => Array
    case 4 => Binary
    case 5 => Undefined
    case 6 => ObjectId
    case 7 => False
    case 8 => True
    case 9 => UtcDatetime
    case 10 => Null
    case 11 => Regex
    case 12 => DbPointer
    case 13 => JavascriptCode
    case 14 => Int32
    case 15 => Timestamp
    case 16 => Int64
  }

  /** Positions within the consecutive block identify the enumerator. */
  lemma OrdinalRoundTrip(t: BsonType)
    requires t != MinKey && t != MaxKey
    ensures AtOrdinal(Ordinal(t)) == t
  {
    match t
    case Double =>
    case String =>
    case Doc =>
    case Array =>
    case Binary =>
    case Undefined =>
    case ObjectId =>
    case False =>
    case True =>
    case UtcDatetime =>
    case Null =>
    case Regex =>
    case DbPointer =>
    case JavascriptCode =>
    case Int32 =>
    case Timestamp =>
    case Int64 =>
  }

  /** The enumerator a tag byte stands for, if any. */
  function FromCode(c: uint8): Option<BsonType> {
    if c == 0xFF then Some(MinKey)
    else if c == 0x7F then Some(MaxKey)
    else if 0x01 <= c <= 0x11 then Some(AtOrdinal(c - 1))
    else None
  }

  /** Every enumerator is recovered from its tag byte. */
  lemma CodeRoundTrip(t: BsonType)
    ensures FromCode(Code(t)) == Some(t)
  {
    if t != MinKey && t != MaxKey {
      OrdinalRoundTrip(t);
    }
  }

  /** A byte that decodes to an enumerator is that enumerator's tag; the
      terminator byte 0x00 decodes to none. */
  lemma FromCodeSound(c: uint8)
    ensures FromCode(c).Some? ==> Code(FromCode(c).value) == c
    ensures FromCode(0) == None
  {
  }

  /** The tag values are pairwise distinct and none is the 0x00 document
      terminator. */
  lemma CodesDistinct(a: BsonType, b: BsonType)
    ensures Code(a) != 0
    ensures a != b ==> Code(a) != Code(b)
  {
    CodeRoundTrip(a);
    CodeRoundTrip(b);
  }

  /** The tag values the wire format relies on. */
  lemma NamedCodes()
    ensures Code(String) == 0x02 && Code(False) == 0x08 && Code(True) == 0x09
    ensures Code(Int32) == 0x0F && Code(Int64) == 0x11
    ensures Code(MinKey) == 0xFF && Code(MaxKey) == 0x7F
    ensures forall t :: Code(t) < 0x12 || t == MinKey || t == MaxKey
  {
  }

  /** The codes of `cbson_read_result_t`. */
  datatype ReadResult = RetTypeError | RetDocNotValid | RetOk

  /** The integer value of each code; only OK is non-negative. */
  function ResultValue(r: ReadResult): (v: int)
    ensures v >= 0 <==> r == RetOk
  {
    match r
    case RetTypeError => -1
    case RetDocNotValid => -2
    case RetOk => 0
  }

  /** The three codes are distinct. */
  lemma ResultValuesDistinct(a: ReadResult, b: ReadResult)
    ensures a != b ==> ResultValue(a) != ResultValue(b)
  {
  }
}
