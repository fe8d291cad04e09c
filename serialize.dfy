/**
 * Values of tagged types, their serialization (the bytes mserialize::serialize
 * writes) and the events a visit of those bytes reports, defined on the value
 * itself rather than on tag text and bytes.
 */
module Serialization {
  import opened Wrappers
  import opened Bytes
  import opened Text
  import opened Tags
  import opened Grammar
  import opened Engine

  /** A value of some tagged type. */
  datatype Val =
    | Scalar(x: Value)
    | SeqVal(items: seq<Val>)
    | TupleVal(items: seq<Val>)
    /** The alternative d of a variant holding alt; alt is NullVal for the null alternative. */
    | Alternative(d: Byte, alt: Val)
    | NullVal
    | Fields(items: seq<Val>)
    | EnumVal(t: IntType, v: int)

  /** Definitions of the structs that field-less references `{Name}` stand for. */
  type Env = map<string, seq<FieldTag>>

  /** The fields of struct n written with fields fs: its own, or those of its definition when fs is empty. */
  function Def(env: Env, n: string, fs: seq<FieldTag>): seq<FieldTag> {
    if |fs| > 0 then fs else if n in env then env[n] else []
  }

  /**
   * env holds the structs that field-less references stand for, and the
   * engine finds each of them within full: a reference {n} resolves to the
   * fields env[n].  An empty struct is an entry with no fields.
   */
  predicate Resolves(full: string, env: Env) {
    forall n {:trigger StructDef(full, Print(Struct(n, [])))} | n in env ::
      WellFormed(Struct(n, env[n])) &&
      StructDef(full, Print(Struct(n, []))) == Some(StructTag(n, PrintFields(env[n]), Parsed(env[n])))
  }

  /** Scalars within their type's range and sequences whose size fits the 32-bit count. */
  predicate Valid(v: Val)
    decreases v
  {
    match v
    case Scalar(x) => x.Valid()
    case SeqVal(vs) => |vs| < 0x1_0000_0000 && forall k | 0 <= k < |vs| :: Valid(vs[k])
    case TupleVal(vs) => forall k | 0 <= k < |vs| :: Valid(vs[k])
    case Alternative(_, x) => Valid(x)
    case NullVal => true
    case Fields(vs) => forall k | 0 <= k < |vs| :: Valid(vs[k])
    case EnumVal(t, i) => t.Contains(i)
  }

  /** v is a value of type t, with struct references taken from env. */
  predicate Typed(env: Env, t: Tag, v: Val)
    decreases v
  {
    match (t, v)
    case (Arith(a), Scalar(x)) => x.Type() == a
    case (Sequence(e), SeqVal(vs)) => forall k | 0 <= k < |vs| :: Typed(env, e, vs[k])
    case (Tuple(ts), TupleVal(vs)) => |vs| == |ts| && forall k | 0 <= k < |vs| :: Typed(env, ts[k], vs[k])
    case (Variant(alts), Alternative(d, x)) =>
      d < |alts| && (if alts[d] == NullAlt then x == NullVal else Typed(env, alts[d], x))
    case (Struct(n, fs), Fields(vs)) =>
      (|fs| > 0 || n in env) &&
      var gs := Def(env, n, fs);
      |vs| == |gs| && forall k | 0 <= k < |vs| :: Typed(env, gs[k].tag, vs[k])
    case (Enum(it, _, _), EnumVal(it', _)) => it' == it
    case _ => false
  }

  /** The bytes mserialize::serialize writes for v: little-endian scalars, a 32-bit count before sequence elements, a discriminator byte before a variant's alternative, members in order. */
  function Serialize(v: Val): Bytes
    decreases v
  {
    match v
    case Scalar(x) => EncodeValue(x)
    case SeqVal(vs) => LittleEndian(|vs|, 4) + SerializeAll(vs)
    case TupleVal(vs) => SerializeAll(vs)
    case Alternative(d, x) => [d] + Serialize(x)
    case NullVal => []
    case Fields(vs) => SerializeAll(vs)
    case EnumVal(t, i) => EncodeInt(t, i)
  }

  function SerializeAll(vs: seq<Val>): Bytes
    decreases vs
  {
    if |vs| == 0 then [] else Serialize(vs[0]) + SerializeAll(vs[1..])
  }

  /** Values made of tuples and structs only, down to empty ones. */
  predicate EmptyVal(v: Val)
    decreases v
  {
    match v
    case TupleVal(vs) => forall k | 0 <= k < |vs| :: EmptyVal(vs[k])
    case Fields(vs) => forall k | 0 <= k < |vs| :: EmptyVal(vs[k])
    case NullVal => true
    case _ => false
  }

  /** Nesting levels the engine needs to visit v. */
  function Depth(v: Val): nat
    decreases v
  {
    match v
    case SeqVal(vs) => 1 + MaxDepth(vs)
    case TupleVal(vs) => 1 + MaxDepth(vs)
    case Alternative(_, x) => 1 + Depth(x)
    case NullVal => 0
    case Fields(vs) => 1 + MaxDepth(vs)
    case _ => 1
  }

  function MaxDepth(vs: seq<Val>): (r: nat)
    ensures forall k | 0 <= k < |vs| :: Depth(vs[k]) <= r
    ensures |vs| == 0 ==> r == 0
    decreases vs
  {
    if |vs| == 0 then 0
    else
      var d, m := Depth(vs[0]), MaxDepth(vs[1..]);
      assert forall k | 1 <= k < |vs| :: vs[k] == vs[1..][k - 1];
      if d < m then m else d
  }
  /** The bound MaxDepth gives is the depth of one of the values: it is the least bound. */
  lemma {:induction false} MaxDepthAttained(vs: seq<Val>)
    requires |vs| > 0
    ensures exists k | 0 <= k < |vs| :: Depth(vs[k]) == MaxDepth(vs)
    decreases vs
  {
    if |vs| > 1 && Depth(vs[0]) < MaxDepth(vs[1..]) {
      MaxDepthAttained(vs[1..]);
      var k :| 0 <= k < |vs[1..]| && Depth(vs[1..][k]) == MaxDepth(vs[1..]);
      assert vs[k + 1] == vs[1..][k];
    } else {
      assert Depth(vs[0]) == MaxDepth(vs);
    }
  }


  /** The events a visit of v, of type t, reports. */
  function Events(env: Env, t: Tag, v: Val): seq<Event>
    decreases v
  {
    match (t, v)
    case (Arith(_), Scalar(x)) => [Prim(x)]
    case (Sequence(e), SeqVal(vs)) =>
      var n, elem := |vs|, Print(e);
      if n > 0 && EmptyVal(vs[0]) then
        [SequenceBegin(n, elem), RepeatBegin(n, elem)] + Events(env, e, vs[0]) + [RepeatEnd(n, elem), SequenceEnd]
      else [SequenceBegin(n, elem)] + EventsEach(env, e, vs) + [SequenceEnd]
    case (Tuple(ts), TupleVal(vs)) => [TupleBegin(PrintAll(ts))] + EventsAll(env, ts, vs) + [TupleEnd]
    case (Variant(alts), Alternative(d, x)) =>
      if d >= |alts| then []
      else if alts[d] == NullAlt then [VariantBegin(d, "0"), Null, VariantEnd]
      else [VariantBegin(d, Print(alts[d]))] + Events(env, alts[d], x) + [VariantEnd]
    case (Struct(n, fs), Fields(vs)) =>
      var gs := Def(env, n, fs);
      [StructBegin(n, PrintFields(gs))] + EventsFields(env, gs, vs) + [StructEnd]
    case (Enum(it, n, es), EnumVal(_, i)) =>
      var hex := Hex(i);
      [EnumValue(n, Enumerator(es, hex), Code(Integer(it)), hex)]
    case _ => []
  }

  function EventsEach(env: Env, e: Tag, vs: seq<Val>): seq<Event>
    decreases vs
  {
    if |vs| == 0 then [] else Events(env, e, vs[0]) + EventsEach(env, e, vs[1..])
  }

  function EventsAll(env: Env, ts: seq<Tag>, vs: seq<Val>): seq<Event>
    decreases vs
  {
    if |vs| == 0 || |ts| == 0 then [] else Events(env, ts[0], vs[0]) + EventsAll(env, ts[1..], vs[1..])
  }

  function EventsFields(env: Env, gs: seq<FieldTag>, vs: seq<Val>): seq<Event>
    decreases vs
  {
    if |vs| == 0 || |gs| == 0 then []
    else
      [FieldBegin(gs[0].name, Print(gs[0].tag))] + Events(env, gs[0].tag, vs[0]) + [FieldEnd]
      + EventsFields(env, gs[1..], vs[1..])
  }
}
