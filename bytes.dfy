/**
 * Fixed-width scalars and their native (here: little-endian) byte encoding.
 * A C++ `char` is one byte, so characters are restricted to the range 0..255.
 */
module Bytes {

  type Byte = b: int | 0 <= b < 0x100

  type Bytes = seq<Byte>

  /** A character that fits in one byte (a C++ `char`). */
  type Char8 = c: char | c as int < 0x100 witness '\0'

  /** The integer types a tag can name. */
  datatype IntType = Int8 | UInt8 | Int16 | UInt16 | Int32 | UInt32 | Int64 | UInt64 {

    function Width(): (w: nat)
      ensures w in {1, 2, 4, 8}
    {
      match this
      case Int8 => 1
      case UInt8 => 1
      case Int16 => 2
      case UInt16 => 2
      case Int32 => 4
      case UInt32 => 4
      case Int64 => 8
      case UInt64 => 8
    }

    predicate Signed() {
      this in {Int8, Int16, Int32, Int64}
    }

    /** numeric_limits<T>::min() */
    function Min(): int {
      if Signed() then 0 - Pow256(Width() - 1) * 0x80 else 0
    }

    /** numeric_limits<T>::max() */
    function Max(): int {
      if Signed() then Pow256(Width() - 1) * 0x80 - 1 else Pow256(Width()) - 1
    }

    predicate Contains(v: int) {
      Min() <= v <= Max()
    }
  }

  /** The arithmetic types of the tag grammar (floating point is not modelled). */
  datatype Arithmetic = BoolType | CharType | Integer(t: IntType)

  /** A decoded arithmetic value. */
  datatype Value = BoolValue(b: bool) | CharValue(c: Char8) | IntValue(t: IntType, v: int) {

    function Type(): Arithmetic {
      match this
      case BoolValue(_) => BoolType
      case CharValue(_) => CharType
      case IntValue(t, _) => Integer(t)
    }

    /** The value is representable in its type. */
    predicate Valid() {
      IntValue? ==> t.Contains(v)
    }
  }

  function Pow256(n: nat): (p: nat)
    ensures p >= 1
  {
    if n == 0 then 1 else 0x100 * Pow256(n - 1)
  }

  /** The n low-order bytes of u, least significant first. */
  function LittleEndian(u: nat, n: nat): (bs: Bytes)
    ensures |bs| == n
  {
    if n == 0 then [] else [u % 0x100] + LittleEndian(u / 0x100, n - 1)
  }

  /** The unsigned number whose little-endian bytes are bs. */
  function FromLittleEndian(bs: Bytes): (u: nat)
    ensures u < Pow256(|bs|)
  {
    if |bs| == 0 then 0 else bs[0] + 0x100 * FromLittleEndian(bs[1..])
  }

  lemma {:induction false} LittleEndianRoundTrip(u: nat, n: nat)
    requires u < Pow256(n)
    ensures FromLittleEndian(LittleEndian(u, n)) == u
  {
    if n > 0 {
      LittleEndianRoundTrip(u / 0x100, n - 1);
      assert LittleEndian(u, n)[1..] == LittleEndian(u / 0x100, n - 1);
    }
  }

  /** A 32-bit count (the size prefix of a sequence) reads back as written. */
  lemma CountRoundTrip(n: nat)
    requires n < 0x1_0000_0000
    ensures FromLittleEndian(LittleEndian(n, 4)) == n
  {
    assert Pow256(4) == 0x1_0000_0000;
    LittleEndianRoundTrip(n, 4);
  }

  /** Two's complement: the unsigned bit pattern of v in t (a conversion to the unsigned type, modulo 2 to the width). */
  function Bits(t: IntType, v: int): (u: nat)
    ensures u < Pow256(t.Width())
  {
    v % Pow256(t.Width())
  }

  /** The value of t whose bit pattern is u. */
  function FromBits(t: IntType, u: nat): (v: int)
    requires u < Pow256(t.Width())
    ensures t.Contains(v)
  {
    if t.Signed() && u >= Pow256(t.Width() - 1) * 0x80 then u - Pow256(t.Width()) else u
  }

  lemma BitsRoundTrip(t: IntType, v: int)
    requires t.Contains(v)
    ensures FromBits(t, Bits(t, v)) == v
  {
    var p := Pow256(t.Width());
    assert p == 0x100 * Pow256(t.Width() - 1);
    if v < 0 {
      ModWrap(v, p);
    } else {
      ModSmall(v, p);
    }
  }

  lemma ModWrap(v: int, p: int)
    requires 0 < p && -p <= v < 0
    ensures v % p == v + p
  {
  }

  lemma ModSmall(v: int, p: int)
    requires 0 <= v < p
    ensures v % p == v
  {
  }

  function EncodeInt(t: IntType, v: int): (bs: Bytes)
    ensures |bs| == t.Width()
  {
    LittleEndian(Bits(t, v), t.Width())
  }

  function DecodeInt(t: IntType, bs: Bytes): (v: int)
    requires |bs| == t.Width()
    ensures t.Contains(v)
  {
    FromBits(t, FromLittleEndian(bs))
  }

  lemma IntRoundTrip(t: IntType, v: int)
    requires t.Contains(v)
    ensures DecodeInt(t, EncodeInt(t, v)) == v
  {
    LittleEndianRoundTrip(Bits(t, v), t.Width());
    BitsRoundTrip(t, v);
  }

  function Width(a: Arithmetic): (w: nat)
    ensures w >= 1
  {
    match a
    case BoolType => 1
    case CharType => 1
    case Integer(t) => t.Width()
  }

  /** serialize() of an arithmetic value: its native bytes. */
  function EncodeValue(v: Value): (bs: Bytes)
    ensures |bs| == Width(v.Type())
  {
    match v
    case BoolValue(b) => if b then [1] else [0]
    case CharValue(c) => [c as int]
    case IntValue(t, x) => EncodeInt(t, x)
  }

  /** deserialize() of an arithmetic value from exactly its width of bytes. */
  function DecodeValue(a: Arithmetic, bs: Bytes): (v: Value)
    requires |bs| == Width(a)
    ensures v.Valid() && v.Type() == a
  {
    match a
    case BoolType => BoolValue(bs[0] != 0)
    case CharType => CharValue(bs[0] as char)
    case Integer(t) => IntValue(t, DecodeInt(t, bs))
  }

  lemma ValueRoundTrip(v: Value)
    requires v.Valid()
    ensures DecodeValue(v.Type(), EncodeValue(v)) == v
  {
    if v.IntValue? {
      IntRoundTrip(v.t, v.v);
    }
  }

  // Stream arithmetic, kept apart from contexts where it is expensive to derive

  lemma AppendAssoc(a: Bytes, b: Bytes, c: Bytes)
    ensures a + b + c == a + (b + c)
  {
  }

  lemma EmptyAppend(e: Bytes, c: Bytes)
    requires |e| == 0
    ensures e + c == c
  {
  }

  lemma AppendEmpty(a: Bytes, e1: Bytes, e2: Bytes, c: Bytes)
    requires |e1| == 0 && |e2| == 0
    ensures a + e1 + c == a + (e2 + c)
  {
  }

  lemma SplitAppend(a: Bytes, b: Bytes)
    ensures (a + b)[..|a|] == a && (a + b)[|a|..] == b
  {
  }
}
