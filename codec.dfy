/**
 * mserialize::deserialize: the type-aware decoder.  The static type that a
 * caller deserializes into is described by its tag tree (struct references
 * taken from env).  The decoder reads members in declared order, a 32-bit
 * count before sequence elements and a discriminator byte before a
 * variant's alternative.  Its stream is set to fail on a short read, so a
 * read past the end is a failure, never a partial value.
 */
module Codec {
  import opened Wrappers
  import opened Bytes
  import opened Grammar
  import opened Serialization

  /** A value read from the front of a stream and the bytes after it. */
  datatype Decoded = Decoded(value: Val, rest: Bytes)

  /** A sequence of values read from the front of a stream and the bytes after them. */
  datatype DecodedAll = DecodedAll(values: seq<Val>, rest: Bytes)

  /** The tags of the fields of a struct, in declared order. */
  function FieldTags(gs: seq<FieldTag>): (ts: seq<Tag>)
    ensures |ts| == |gs| && forall k | 0 <= k < |gs| :: ts[k] == gs[k].tag
  {
    seq(|gs|, k requires 0 <= k < |gs| => gs[k].tag)
  }

  /**
   * Read a value of type t from the front of bytes; fuel bounds the nesting.
   * None is the failure of the stream: too few bytes, a discriminator with
   * no alternative, or a bare null alternative.
   */
  function Deserialize(env: Env, t: Tag, bytes: Bytes, fuel: nat): (r: Option<Decoded>)
    ensures r.Some? ==> |r.value.rest| <= |bytes|
    decreases fuel, 0, 0
  {
    if fuel == 0 then None
    else match t
      case Arith(a) =>
        if |bytes| < Width(a) then None
        else Some(Decoded(Scalar(DecodeValue(a, bytes[..Width(a)])), bytes[Width(a)..]))
      case Sequence(e) =>
        if |bytes| < 4 then None
        else (
          match DeserializeCount(env, e, FromLittleEndian(bytes[..4]), bytes[4..], fuel - 1)
          case None => None
          case Some(d) => Some(Decoded(SeqVal(d.values), d.rest)))
      case Tuple(ts) =>
        (match DeserializeAll(env, ts, bytes, fuel - 1)
         case None => None
         case Some(d) => Some(Decoded(TupleVal(d.values), d.rest)))
      case Variant(alts) =>
        if |bytes| < 1 || bytes[0] >= |alts| then None
        else if alts[bytes[0]] == NullAlt then Some(Decoded(Alternative(bytes[0], NullVal), bytes[1..]))
        else (
          match Deserialize(env, alts[bytes[0]], bytes[1..], fuel - 1)
          case None => None
          case Some(d) => Some(Decoded(Alternative(bytes[0], d.value), d.rest)))
      case NullAlt => None
      case Struct(n, fs) =>
        (match DeserializeAll(env, FieldTags(Def(env, n, fs)), bytes, fuel - 1)
         case None => None
         case Some(d) => Some(Decoded(Fields(d.values), d.rest)))
      case Enum(it, _, _) =>
        if |bytes| < it.Width() then None
        else Some(Decoded(EnumVal(it, DecodeInt(it, bytes[..it.Width()])), bytes[it.Width()..]))
  }

  /** Read count values of type e, one after the other. */
  function DeserializeCount(env: Env, e: Tag, count: nat, bytes: Bytes, fuel: nat): (r: Option<DecodedAll>)
    ensures r.Some? ==> |r.value.rest| <= |bytes| && |r.value.values| == count
    decreases fuel, 1, count
  {
    if count == 0 then Some(DecodedAll([], bytes))
    else
      match Deserialize(env, e, bytes, fuel)
      case None => None
      case Some(d) =>
        (match DeserializeCount(env, e, count - 1, d.rest, fuel)
         case None => None
         case Some(ds) => Some(DecodedAll([d.value] + ds.values, ds.rest)))
  }

  /** Read one value of each of the types ts, in order. */
  function DeserializeAll(env: Env, ts: seq<Tag>, bytes: Bytes, fuel: nat): (r: Option<DecodedAll>)
    ensures r.Some? ==> |r.value.rest| <= |bytes| && |r.value.values| == |ts|
    decreases fuel, 1, |ts|
  {
    if |ts| == 0 then Some(DecodedAll([], bytes))
    else
      match Deserialize(env, ts[0], bytes, fuel)
      case None => None
      case Some(d) =>
        (match DeserializeAll(env, ts[1..], d.rest, fuel)
         case None => None
         case Some(ds) => Some(DecodedAll([d.value] + ds.values, ds.rest)))
  }

  // ---------------------------------------------------------------------
  // Round trip: deserialize reads back exactly what serialize wrote

  /** What the round trip needs of a value of type t. */
  predicate Decodable(env: Env, t: Tag, v: Val, fuel: nat) {
    Typed(env, t, v) && Valid(v) && Depth(v) <= fuel
  }

  lemma SequenceDecodable(env: Env, e: Tag, vs: seq<Val>, fuel: nat)
    requires Decodable(env, Sequence(e), SeqVal(vs), fuel)
    ensures fuel > 0 && |vs| < 0x1_0000_0000
    ensures forall k | 0 <= k < |vs| :: Decodable(env, e, vs[k], fuel - 1)
  {
  }

  lemma TupleDecodable(env: Env, ts: seq<Tag>, vs: seq<Val>, fuel: nat)
    requires Decodable(env, Tuple(ts), TupleVal(vs), fuel)
    ensures fuel > 0 && |ts| == |vs|
    ensures forall k | 0 <= k < |vs| :: Decodable(env, ts[k], vs[k], fuel - 1)
  {
  }

  lemma StructDecodable(env: Env, n: string, fs: seq<FieldTag>, vs: seq<Val>, fuel: nat)
    requires Decodable(env, Struct(n, fs), Fields(vs), fuel)
    ensures fuel > 0 && |FieldTags(Def(env, n, fs))| == |vs|
    ensures forall k | 0 <= k < |vs| :: Decodable(env, FieldTags(Def(env, n, fs))[k], vs[k], fuel - 1)
  {
  }

  lemma VariantDecodable(env: Env, alts: seq<Tag>, d: Byte, x: Val, fuel: nat)
    requires Decodable(env, Variant(alts), Alternative(d, x), fuel)
    ensures fuel > 0 && d < |alts|
    ensures alts[d] == NullAlt ==> x == NullVal
    ensures alts[d] != NullAlt ==> Decodable(env, alts[d], x, fuel - 1)
  {
  }

  /** deserialize(serialize(v)) == v, leaving the bytes after v in the stream. */
  lemma {:induction false} DeserializeSerialized(env: Env, t: Tag, v: Val, rest: Bytes, fuel: nat)
    requires Typed(env, t, v) && Valid(v) && Depth(v) <= fuel
    ensures Deserialize(env, t, Serialize(v) + rest, fuel) == Some(Decoded(v, rest))
    decreases v, 1
  {
    match t
    case Arith(a) => ScalarRoundTrip(env, a, v.x, rest, fuel);
    case Sequence(e) =>
      SequenceDecodable(env, e, v.items, fuel);
      SequenceRoundTrip(env, e, v.items, rest, fuel);
    case Tuple(ts) =>
      TupleDecodable(env, ts, v.items, fuel);
      assert Serialize(v) == SerializeAll(v.items);
      DeserializeAllSerialized(env, ts, v.items, rest, fuel - 1);
    case Variant(alts) =>
      VariantDecodable(env, alts, v.d, v.alt, fuel);
      VariantRoundTrip(env, alts, v.d, v.alt, rest, fuel);
    case Struct(n, fs) =>
      StructDecodable(env, n, fs, v.items, fuel);
      assert Serialize(v) == SerializeAll(v.items);
      DeserializeAllSerialized(env, FieldTags(Def(env, n, fs)), v.items, rest, fuel - 1);
    case Enum(it, _, _) => EnumRoundTrip(env, t, it, v.v, rest, fuel);
  }

  lemma ScalarRoundTrip(env: Env, a: Arithmetic, x: Value, rest: Bytes, fuel: nat)
    requires fuel > 0 && x.Valid() && x.Type() == a
    ensures Deserialize(env, Arith(a), Serialize(Scalar(x)) + rest, fuel) == Some(Decoded(Scalar(x), rest))
  {
    SplitAppend(EncodeValue(x), rest);
    ValueRoundTrip(x);
  }

  lemma EnumRoundTrip(env: Env, t: Tag, it: IntType, i: int, rest: Bytes, fuel: nat)
    requires fuel > 0 && t.Enum? && t.t == it && it.Contains(i)
    ensures Deserialize(env, t, Serialize(EnumVal(it, i)) + rest, fuel) == Some(Decoded(EnumVal(it, i), rest))
  {
    SplitAppend(EncodeInt(it, i), rest);
    IntRoundTrip(it, i);
  }

  lemma {:induction false} SequenceRoundTrip(env: Env, e: Tag, vs: seq<Val>, rest: Bytes, fuel: nat)
    requires fuel > 0 && |vs| < 0x1_0000_0000
    requires forall k | 0 <= k < |vs| :: Decodable(env, e, vs[k], fuel - 1)
    ensures Deserialize(env, Sequence(e), Serialize(SeqVal(vs)) + rest, fuel) == Some(Decoded(SeqVal(vs), rest))
    decreases SeqVal(vs), 0
  {
    var count := LittleEndian(|vs|, 4);
    AppendAssoc(count, SerializeAll(vs), rest);
    SplitAppend(count, SerializeAll(vs) + rest);
    CountRoundTrip(|vs|);
    DeserializeCountSerialized(env, e, vs, rest, fuel - 1);
  }

  lemma {:induction false} VariantRoundTrip(env: Env, alts: seq<Tag>, d: Byte, x: Val, rest: Bytes, fuel: nat)
    requires fuel > 0 && d < |alts|
    requires alts[d] == NullAlt ==> x == NullVal
    requires alts[d] != NullAlt ==> Decodable(env, alts[d], x, fuel - 1)
    ensures Deserialize(env, Variant(alts), Serialize(Alternative(d, x)) + rest, fuel) == Some(Decoded(Alternative(d, x), rest))
    decreases Alternative(d, x), 0
  {
    var bytes := Serialize(Alternative(d, x)) + rest;
    assert bytes == [d] + (Serialize(x) + rest);
    SplitAppend([d], Serialize(x) + rest);
    if alts[d] == NullAlt {
      EmptyAppend(Serialize(x), rest);
    } else {
      DeserializeSerialized(env, alts[d], x, rest, fuel - 1);
    }
  }

  lemma {:induction false} DeserializeCountSerialized(env: Env, e: Tag, vs: seq<Val>, rest: Bytes, fuel: nat)
    requires forall k | 0 <= k < |vs| :: Decodable(env, e, vs[k], fuel)
    ensures DeserializeCount(env, e, |vs|, SerializeAll(vs) + rest, fuel) == Some(DecodedAll(vs, rest))
    decreases vs, 0
  {
    if |vs| == 0 {
      EmptyAppend(SerializeAll(vs), rest);
    } else {
      var tail := SerializeAll(vs[1..]) + rest;
      AppendAssoc(Serialize(vs[0]), SerializeAll(vs[1..]), rest);
      DeserializeSerialized(env, e, vs[0], tail, fuel);
      assert forall k | 0 <= k < |vs| - 1 :: vs[1..][k] == vs[k + 1];
      DeserializeCountSerialized(env, e, vs[1..], rest, fuel);
      assert [vs[0]] + vs[1..] == vs;
    }
  }

  lemma {:induction false} DeserializeAllSerialized(env: Env, ts: seq<Tag>, vs: seq<Val>, rest: Bytes, fuel: nat)
    requires |ts| == |vs| && forall k | 0 <= k < |vs| :: Decodable(env, ts[k], vs[k], fuel)
    ensures DeserializeAll(env, ts, SerializeAll(vs) + rest, fuel) == Some(DecodedAll(vs, rest))
    decreases vs, 0
  {
    if |vs| == 0 {
      EmptyAppend(SerializeAll(vs), rest);
    } else {
      var tail := SerializeAll(vs[1..]) + rest;
      AppendAssoc(Serialize(vs[0]), SerializeAll(vs[1..]), rest);
      DeserializeSerialized(env, ts[0], vs[0], tail, fuel);
      assert forall k | 0 <= k < |vs| - 1 :: vs[1..][k] == vs[k + 1] && ts[1..][k] == ts[k + 1];
      DeserializeAllSerialized(env, ts[1..], vs[1..], rest, fuel);
      assert [vs[0]] + vs[1..] == vs;
    }
  }

  // ---------------------------------------------------------------------
  // Short reads fail

  /** Any proper prefix of the serialization of v fails to deserialize: the stream throws rather than yield a partial value. */
  lemma {:induction false} ShortReadFails(env: Env, t: Tag, v: Val, k: nat, fuel: nat)
    requires Typed(env, t, v) && Valid(v) && Depth(v) <= fuel
    requires k < |Serialize(v)|
    ensures Deserialize(env, t, Serialize(v)[..k], fuel) == None
    decreases v, 1
  {
    var bytes := Serialize(v)[..k];
    match t
    case Arith(a) =>
    case Sequence(e) =>
      SequenceDecodable(env, e, v.items, fuel);
      SequenceShortRead(env, e, v.items, k, fuel);
    case Tuple(ts) =>
      TupleDecodable(env, ts, v.items, fuel);
      ShortReadAll(env, ts, v.items, k, fuel - 1);
    case Variant(alts) =>
      VariantDecodable(env, alts, v.d, v.alt, fuel);
      VariantShortRead(env, alts, v.d, v.alt, k, fuel);
    case Struct(n, fs) =>
      StructDecodable(env, n, fs, v.items, fuel);
      ShortReadAll(env, FieldTags(Def(env, n, fs)), v.items, k, fuel - 1);
    case Enum(it, _, _) =>
  }

  lemma {:induction false} SequenceShortRead(env: Env, e: Tag, vs: seq<Val>, k: nat, fuel: nat)
    requires fuel > 0 && |vs| < 0x1_0000_0000
    requires forall j | 0 <= j < |vs| :: Decodable(env, e, vs[j], fuel - 1)
    requires k < |Serialize(SeqVal(vs))|
    ensures Deserialize(env, Sequence(e), Serialize(SeqVal(vs))[..k], fuel) == None
    decreases SeqVal(vs), 0
  {
    var count := LittleEndian(|vs|, 4);
    if k >= 4 {
      var bytes := Serialize(SeqVal(vs))[..k];
      PrefixAfter(count, SerializeAll(vs), k);
      CountRoundTrip(|vs|);
      ShortReadCount(env, e, vs, k - 4, fuel - 1);
    }
  }

  lemma {:induction false} VariantShortRead(env: Env, alts: seq<Tag>, d: Byte, x: Val, k: nat, fuel: nat)
    requires fuel > 0 && d < |alts|
    requires alts[d] == NullAlt ==> x == NullVal
    requires alts[d] != NullAlt ==> Decodable(env, alts[d], x, fuel - 1)
    requires k < |Serialize(Alternative(d, x))|
    ensures Deserialize(env, Variant(alts), Serialize(Alternative(d, x))[..k], fuel) == None
    decreases Alternative(d, x), 0
  {
    if k >= 1 && alts[d] != NullAlt {
      PrefixAfter([d], Serialize(x), k);
      ShortReadFails(env, alts[d], x, k - 1, fuel - 1);
    }
  }

  lemma {:induction false} ShortReadCount(env: Env, e: Tag, vs: seq<Val>, k: nat, fuel: nat)
    requires forall j | 0 <= j < |vs| :: Decodable(env, e, vs[j], fuel)
    requires k < |SerializeAll(vs)|
    ensures DeserializeCount(env, e, |vs|, SerializeAll(vs)[..k], fuel) == None
    decreases vs, 0
  {
    var first := Serialize(vs[0]);
    if k < |first| {
      PrefixWithin(first, SerializeAll(vs[1..]), k);
      ShortReadFails(env, e, vs[0], k, fuel);
    } else {
      PrefixAfter(first, SerializeAll(vs[1..]), k);
      DeserializeSerialized(env, e, vs[0], SerializeAll(vs[1..])[..k - |first|], fuel);
      assert forall j | 0 <= j < |vs| - 1 :: vs[1..][j] == vs[j + 1];
      ShortReadCount(env, e, vs[1..], k - |first|, fuel);
    }
  }

  lemma {:induction false} ShortReadAll(env: Env, ts: seq<Tag>, vs: seq<Val>, k: nat, fuel: nat)
    requires |ts| == |vs| && forall j | 0 <= j < |vs| :: Decodable(env, ts[j], vs[j], fuel)
    requires k < |SerializeAll(vs)|
    ensures DeserializeAll(env, ts, SerializeAll(vs)[..k], fuel) == None
    decreases vs, 0
  {
    var first := Serialize(vs[0]);
    if k < |first| {
      PrefixWithin(first, SerializeAll(vs[1..]), k);
      ShortReadFails(env, ts[0], vs[0], k, fuel);
    } else {
      PrefixAfter(first, SerializeAll(vs[1..]), k);
      DeserializeSerialized(env, ts[0], vs[0], SerializeAll(vs[1..])[..k - |first|], fuel);
      assert forall j | 0 <= j < |vs| - 1 :: vs[1..][j] == vs[j + 1] && ts[1..][j] == ts[j + 1];
      ShortReadAll(env, ts[1..], vs[1..], k - |first|, fuel);
    }
  }

  /** A prefix that ends within a: a prefix of a. */
  lemma PrefixWithin(a: Bytes, b: Bytes, k: nat)
    requires k < |a|
    ensures (a + b)[..k] == a[..k]
  {
  }

  /** A prefix that reaches past a: all of a, then a prefix of b. */
  lemma PrefixAfter(a: Bytes, b: Bytes, k: nat)
    requires |a| <= k <= |a| + |b|
    ensures (a + b)[..k] == a + b[..k - |a|]
    ensures (a + b)[..k][..|a|] == a && (a + b)[..k][|a|..] == b[..k - |a|]
  {
  }
}
