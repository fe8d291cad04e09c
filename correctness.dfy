/**
 * The visit engine against its specification: visiting the serialization
 * of a value, under the printed tag of its type, reports exactly the events
 * Events defines for the value and leaves the stream just after it.
 */
module VisitCorrect {
  import opened Wrappers
  import opened Bytes
  import opened Text
  import opened Tags
  import opened Grammar
  import opened Engine
  import opened Serialization

  lemma CodeIsPlain(a: Arithmetic)
    ensures Code(a) !in Special && Code(a) != '0'
  {
  }

  /** Only the null alternative prints as the bare tag `0`. */
  lemma PrintNull(t: Tag)
    ensures Print(t) == "0" <==> t == NullAlt
  {
    match t
    case Arith(a) => CodeIsPlain(a);
    case _ =>
  }

  /** A struct printed with its fields stands for itself. */
  lemma StructDefOwn(full: string, n: string, fs: seq<FieldTag>)
    requires WellFormed(Struct(n, fs)) && |fs| > 0
    ensures StructDef(full, Print(Struct(n, fs))) == Some(StructTag(n, PrintFields(fs), Parsed(fs)))
  {
    ParseStructOfPrint(n, fs);
  }

  /**
   * The struct a printed struct tag stands for: its own fields when it has
   * some, and otherwise the definition env holds for its name.
   */
  lemma StructDefOfTyped(full: string, env: Env, n: string, fs: seq<FieldTag>)
    requires Resolves(full, env) && WellFormed(Struct(n, fs)) && (|fs| > 0 || n in env)
    ensures StructDef(full, Print(Struct(n, fs))) == Some(StructTag(n, PrintFields(Def(env, n, fs)), Parsed(Def(env, n, fs))))
    ensures forall k | 0 <= k < |Def(env, n, fs)| :: WellFormed(Def(env, n, fs)[k].tag)
  {
    if |fs| > 0 {
      StructDefOwn(full, n, fs);
    } else {
      StructDefRef(full, env, n);
    }
  }

  /** A field-less reference stands for the definition env holds for its name. */
  lemma StructDefRef(full: string, env: Env, n: string)
    requires Resolves(full, env) && n in env
    ensures StructDef(full, Print(Struct(n, []))) == Some(StructTag(n, PrintFields(env[n]), Parsed(env[n])))
    ensures forall k | 0 <= k < |env[n]| :: WellFormed(env[n][k].tag)
  {
    assert StructDef(full, Print(Struct(n, []))) == Some(StructTag(n, PrintFields(env[n]), Parsed(env[n])));
  }

  // ---------------------------------------------------------------------
  // Values that serialize to no bytes

  lemma {:induction false} NoBytesIffEmpty(v: Val)
    ensures Serialize(v) == [] <==> EmptyVal(v)
    decreases v, 1
  {
    match v
    case TupleVal(vs) => NoBytesIffAllEmpty(vs);
    case Fields(vs) => NoBytesIffAllEmpty(vs);
    case Scalar(x) => assert |Serialize(v)| == Width(x.Type());
    case EnumVal(t, i) => assert |Serialize(v)| == t.Width();
    case SeqVal(vs) => assert |Serialize(v)| >= 4;
    case Alternative(_, _) =>
    case NullVal =>
  }

  lemma {:induction false} NoBytesIffAllEmpty(vs: seq<Val>)
    ensures SerializeAll(vs) == [] <==> forall k | 0 <= k < |vs| :: EmptyVal(vs[k])
    decreases vs, 0
  {
    if |vs| > 0 {
      NoBytesIffEmpty(vs[0]);
      NoBytesIffAllEmpty(vs[1..]);
      assert forall k | 1 <= k < |vs| :: vs[k] == vs[1..][k - 1];
    }
  }

  /** v is a value of type t, whose struct references full resolves as env says. */
  predicate Typing(full: string, env: Env, t: Tag, v: Val) {
    var ok := Resolves(full, env) && WellFormed(t) && Typed(env, t, v);
    ok
  }

  /** Moreover v can be serialized and its visit fits in the budget. */
  predicate Fits(full: string, env: Env, t: Tag, v: Val, budget: nat) {
    var ok := Typing(full, env, t, v) && Valid(v) && Depth(v) <= budget;
    ok
  }

  // ---------------------------------------------------------------------
  // What typing says about the members of a composite value

  lemma TupleTyping(full: string, env: Env, ts: seq<Tag>, vs: seq<Val>, fuel: nat)
    requires Typing(full, env, Tuple(ts), TupleVal(vs)) && Depth(TupleVal(vs)) <= fuel
    ensures fuel > 0 && |ts| == |vs| && forall k | 0 <= k < |ts| :: WellFormed(ts[k])
    ensures forall k | 0 <= k < |vs| :: Typing(full, env, ts[k], vs[k]) && Depth(vs[k]) <= fuel - 1
  {
  }

  lemma StructTyping(full: string, env: Env, n: string, fs: seq<FieldTag>, vs: seq<Val>, fuel: nat)
    requires Typing(full, env, Struct(n, fs), Fields(vs)) && Depth(Fields(vs)) <= fuel
    ensures fuel > 0 && Resolves(full, env) && WellFormed(Struct(n, fs)) && (|fs| > 0 || n in env)
    ensures |Def(env, n, fs)| == |vs|
    ensures forall k | 0 <= k < |vs| :: Typing(full, env, Def(env, n, fs)[k].tag, vs[k]) && Depth(vs[k]) <= fuel - 1
  {
    if |fs| == 0 {
      StructDefRef(full, env, n);
    }
  }

  lemma SequenceFits(full: string, env: Env, e: Tag, vs: seq<Val>, budget: nat)
    requires Fits(full, env, Sequence(e), SeqVal(vs), budget)
    ensures budget > 0 && |vs| < 0x1_0000_0000
    ensures forall k | 0 <= k < |vs| :: Fits(full, env, e, vs[k], budget - 1)
  {
  }

  lemma TupleFits(full: string, env: Env, ts: seq<Tag>, vs: seq<Val>, budget: nat)
    requires Fits(full, env, Tuple(ts), TupleVal(vs), budget)
    ensures budget > 0 && |ts| == |vs| && forall k | 0 <= k < |ts| :: WellFormed(ts[k])
    ensures forall k | 0 <= k < |vs| :: Fits(full, env, ts[k], vs[k], budget - 1)
  {
  }

  lemma VariantFits(full: string, env: Env, alts: seq<Tag>, d: Byte, x: Val, budget: nat)
    requires Fits(full, env, Variant(alts), Alternative(d, x), budget)
    ensures budget > 0 && d < |alts| && forall k | 0 <= k < |alts| :: WellFormed(alts[k])
    ensures alts[d] == NullAlt ==> x == NullVal
    ensures alts[d] != NullAlt ==> Fits(full, env, alts[d], x, budget - 1)
  {
  }

  /** The chosen alternative of a variant that fits fits within one level less. */
  lemma AltFits(full: string, env: Env, alts: seq<Tag>, d: Byte, x: Val, budget: nat)
    requires Fits(full, env, Variant(alts), Alternative(d, x), budget)
    requires d < |alts| && alts[d] != NullAlt
    ensures budget > 0 && Fits(full, env, alts[d], x, budget - 1)
  {
    VariantFits(full, env, alts, d, x, budget);
  }

  lemma StructFits(full: string, env: Env, n: string, fs: seq<FieldTag>, vs: seq<Val>, budget: nat)
    requires Fits(full, env, Struct(n, fs), Fields(vs), budget)
    ensures budget > 0 && Resolves(full, env) && WellFormed(Struct(n, fs)) && (|fs| > 0 || n in env)
    ensures |Def(env, n, fs)| == |vs|
    ensures forall k | 0 <= k < |vs| :: Fits(full, env, Def(env, n, fs)[k].tag, vs[k], budget - 1)
  {
    if |fs| == 0 {
      StructDefRef(full, env, n);
    }
  }

  // ---------------------------------------------------------------------
  // The engine's emptiness check

  /**
   * The engine's emptiness check on a printed tag answers, given fuel for the
   * depth of any value of the type, whether that value serializes to nothing.
   */
  lemma {:induction false} EncodesToNothingOfTyped(full: string, env: Env, t: Tag, v: Val, fuel: nat)
    requires Typing(full, env, t, v) && Depth(v) <= fuel
    ensures EncodesToNothing(full, Print(t), fuel) == EmptyVal(v)
    decreases v, 2
  {
    match t
    case Arith(a) => CodeIsPlain(a);
    case Tuple(ts) => TupleEncodesToNothingOfTyped(full, env, ts, v.items, fuel);
    case Struct(n, fs) => StructEncodesToNothingOfTyped(full, env, n, fs, v.items, fuel);
    case Sequence(_) =>
    case Variant(_) =>
    case Enum(_, _, _) =>
  }

  lemma {:induction false} TupleEncodesToNothingOfTyped(full: string, env: Env, ts: seq<Tag>, vs: seq<Val>, fuel: nat)
    requires Typing(full, env, Tuple(ts), TupleVal(vs)) && Depth(TupleVal(vs)) <= fuel
    ensures EncodesToNothing(full, Print(Tuple(ts)), fuel) == EmptyVal(TupleVal(vs))
    decreases TupleVal(vs), 1
  {
    TupleTyping(full, env, ts, vs, fuel);
    AllEncodeToNothingOfTyped(full, env, ts, vs, fuel);
    BracketedPrint('(', ts, ')');
    TupleEmptyOf(full, PrintAll(ts), Prints(ts), vs, fuel);
  }

  lemma {:induction false} AllEncodeToNothingOfTyped(full: string, env: Env, ts: seq<Tag>, vs: seq<Val>, fuel: nat)
    requires fuel > 0 && |ts| == |vs|
    requires forall k | 0 <= k < |vs| :: Typing(full, env, ts[k], vs[k]) && Depth(vs[k]) <= fuel - 1
    ensures forall k | 0 <= k < |vs| :: EncodesToNothing(full, Prints(ts)[k], fuel - 1) == EmptyVal(vs[k])
    decreases TupleVal(vs), 0
  {
    forall k | 0 <= k < |vs|
      ensures EncodesToNothing(full, Prints(ts)[k], fuel - 1) == EmptyVal(vs[k])
    {
      ItemEncodesToNothingOfTyped(full, env, ts, vs, k, fuel);
    }
  }

  lemma {:induction false} ItemEncodesToNothingOfTyped(full: string, env: Env, ts: seq<Tag>, vs: seq<Val>, k: nat, fuel: nat)
    requires fuel > 0 && |ts| == |vs| && k < |vs|
    requires Typing(full, env, ts[k], vs[k]) && Depth(vs[k]) <= fuel - 1
    ensures EncodesToNothing(full, Prints(ts)[k], fuel - 1) == EmptyVal(vs[k])
    decreases vs[k], 3
  {
    EncodesToNothingOfTyped(full, env, ts[k], vs[k], fuel - 1);
  }

  lemma TupleEmptyOf(full: string, inner: string, items: seq<string>, vs: seq<Val>, fuel: nat)
    requires fuel > 0 && Bracketed("(" + inner + ")", ')') == Some(items) && |items| == |vs|
    requires forall k | 0 <= k < |vs| :: EncodesToNothing(full, items[k], fuel - 1) == EmptyVal(vs[k])
    ensures EncodesToNothing(full, "(" + inner + ")", fuel) == EmptyVal(TupleVal(vs))
  {
    TupleEncodesToNothing(full, inner, items, fuel);
  }

  lemma {:induction false} StructEncodesToNothingOfTyped(full: string, env: Env, n: string, fs: seq<FieldTag>, vs: seq<Val>, fuel: nat)
    requires Typing(full, env, Struct(n, fs), Fields(vs)) && Depth(Fields(vs)) <= fuel
    ensures EncodesToNothing(full, Print(Struct(n, fs)), fuel) == EmptyVal(Fields(vs))
    decreases Fields(vs), 1
  {
    var gs := Def(env, n, fs);
    StructTyping(full, env, n, fs, vs, fuel);
    FieldsEncodeToNothingOfTyped(full, env, gs, vs, fuel);
    StructDefOfTyped(full, env, n, fs);
    StructEmptyOf(full, Print(Struct(n, fs)), StructTag(n, PrintFields(gs), Parsed(gs)), vs, fuel);
  }

  lemma {:induction false} FieldsEncodeToNothingOfTyped(full: string, env: Env, gs: seq<FieldTag>, vs: seq<Val>, fuel: nat)
    requires fuel > 0 && |gs| == |vs|
    requires forall k | 0 <= k < |vs| :: Typing(full, env, gs[k].tag, vs[k]) && Depth(vs[k]) <= fuel - 1
    ensures forall k | 0 <= k < |vs| :: EncodesToNothing(full, Parsed(gs)[k].tag, fuel - 1) == EmptyVal(vs[k])
    decreases Fields(vs), 0
  {
    forall k | 0 <= k < |vs|
      ensures EncodesToNothing(full, Parsed(gs)[k].tag, fuel - 1) == EmptyVal(vs[k])
    {
      FieldEncodesToNothingOfTyped(full, env, gs, vs, k, fuel);
    }
  }

  lemma {:induction false} FieldEncodesToNothingOfTyped(full: string, env: Env, gs: seq<FieldTag>, vs: seq<Val>, k: nat, fuel: nat)
    requires fuel > 0 && |gs| == |vs| && k < |vs|
    requires Typing(full, env, gs[k].tag, vs[k]) && Depth(vs[k]) <= fuel - 1
    ensures EncodesToNothing(full, Parsed(gs)[k].tag, fuel - 1) == EmptyVal(vs[k])
    decreases vs[k], 3
  {
    EncodesToNothingOfTyped(full, env, gs[k].tag, vs[k], fuel - 1);
  }

  lemma StructEmptyOf(full: string, tag: string, st: StructTag, vs: seq<Val>, fuel: nat)
    requires fuel > 0 && |tag| > 0 && tag[0] == '{' && StructDef(full, tag) == Some(st) && |st.fields| == |vs|
    requires forall k | 0 <= k < |vs| :: EncodesToNothing(full, st.fields[k].tag, fuel - 1) == EmptyVal(vs[k])
    ensures EncodesToNothing(full, tag, fuel) == EmptyVal(Fields(vs))
  {
    StructEncodesToNothing(full, tag, st, fuel);
  }

  /** Either every value of a type serializes to nothing, or none does. */
  lemma EmptyTypeUnique(full: string, env: Env, t: Tag, v1: Val, v2: Val)
    requires Typing(full, env, t, v1) && Typing(full, env, t, v2)
    ensures EmptyVal(v1) == EmptyVal(v2)
  {
    var fuel := if Depth(v1) < Depth(v2) then Depth(v2) else Depth(v1);
    EncodesToNothingOfTyped(full, env, t, v1, fuel);
    EncodesToNothingOfTyped(full, env, t, v2, fuel);
  }

  /** A sequence whose first element serializes to nothing serializes to nothing after its count. */
  lemma EmptyElements(full: string, env: Env, e: Tag, vs: seq<Val>, budget: nat)
    requires |vs| > 0 && Serialize(vs[0]) == []
    requires forall k | 0 <= k < |vs| :: Fits(full, env, e, vs[k], budget)
    ensures SerializeAll(vs) == []
  {
    NoBytesIffEmpty(vs[0]);
    forall k | 0 <= k < |vs|
      ensures EmptyVal(vs[k])
    {
      EmptyTypeUnique(full, env, e, vs[0], vs[k]);
    }
    NoBytesIffAllEmpty(vs);
  }

  // ---------------------------------------------------------------------
  // One step of a visit of a serialized value, from the visits of its members

  lemma ScalarGlue(full: string, env: Env, a: Arithmetic, x: Value, rest: Bytes, budget: nat)
    requires x.Valid() && x.Type() == a && budget > 0
    ensures Visit(full, Print(Arith(a)), Serialize(Scalar(x)) + rest, budget) == Success(Visited(Events(env, Arith(a), Scalar(x)), rest))
  {
    var bytes := EncodeValue(x) + rest;
    ValueRoundTrip(x);
    SplitAppend(EncodeValue(x), rest);
    ArithmeticStep(full, [Code(a)], bytes, budget, a);
  }

  lemma RepeatGlue(full: string, env: Env, e: Tag, vs: seq<Val>, rest: Bytes, budget: nat)
    requires budget > 0 && |vs| < 0x1_0000_0000 && |vs| > 0 && EncodesToNothing(full, Print(e), budget - 1) == EmptyVal(vs[0])
    requires SerializeAll(vs) == [] && Serialize(vs[0]) == []
    requires Visit(full, Print(e), Serialize(vs[0]) + rest, budget - 1) == Success(Visited(Events(env, e, vs[0]), rest))
    ensures Visit(full, Print(Sequence(e)), Serialize(SeqVal(vs)) + rest, budget) == Success(Visited(Events(env, Sequence(e), SeqVal(vs)), rest))
  {
    NoBytesIffEmpty(vs[0]);
    var n, count := |vs|, LittleEndian(|vs|, 4);
    CountRoundTrip(n);
    AppendEmpty(count, SerializeAll(vs), Serialize(vs[0]), rest);
    SequenceRepeatStep(full, Print(e), count, Serialize(vs[0]) + rest, budget, n, Visited(Events(env, e, vs[0]), rest));
  }

  lemma EachGlue(full: string, env: Env, e: Tag, vs: seq<Val>, rest: Bytes, budget: nat)
    requires budget > 0 && |vs| < 0x1_0000_0000 && !(|vs| > 0 && EmptyVal(vs[0]))
    requires |vs| > 0 ==> EncodesToNothing(full, Print(e), budget - 1) == EmptyVal(vs[0])
    requires VisitRepeated(full, Print(e), SerializeAll(vs) + rest, budget, |vs|) == Success(Visited(EventsEach(env, e, vs), rest))
    ensures Visit(full, Print(Sequence(e)), Serialize(SeqVal(vs)) + rest, budget) == Success(Visited(Events(env, Sequence(e), SeqVal(vs)), rest))
  {
    var n, count := |vs|, LittleEndian(|vs|, 4);
    CountRoundTrip(n);
    AppendAssoc(count, SerializeAll(vs), rest);
    SequenceEachStep(full, Print(e), count, SerializeAll(vs) + rest, budget, n, Visited(EventsEach(env, e, vs), rest));
  }

  lemma RepeatedGlue(full: string, elem: string, env: Env, e: Tag, vs: seq<Val>, rest: Bytes, budget: nat)
    requires budget > 0 && |vs| > 0
    requires Visit(full, elem, Serialize(vs[0]) + (SerializeAll(vs[1..]) + rest), budget - 1) ==
      Success(Visited(Events(env, e, vs[0]), SerializeAll(vs[1..]) + rest))
    requires VisitRepeated(full, elem, SerializeAll(vs[1..]) + rest, budget, |vs| - 1) == Success(Visited(EventsEach(env, e, vs[1..]), rest))
    ensures VisitRepeated(full, elem, SerializeAll(vs) + rest, budget, |vs|) == Success(Visited(EventsEach(env, e, vs), rest))
  {
    EachCons(env, e, vs);
    RepeatedCons(full, elem, Serialize(vs[0]), SerializeAll(vs[1..]), rest, budget, |vs|, Events(env, e, vs[0]), EventsEach(env, e, vs[1..]));
  }

  lemma EachCons(env: Env, e: Tag, vs: seq<Val>)
    requires |vs| > 0
    ensures SerializeAll(vs) == Serialize(vs[0]) + SerializeAll(vs[1..])
    ensures EventsEach(env, e, vs) == Events(env, e, vs[0]) + EventsEach(env, e, vs[1..])
  {
  }

  lemma TupleGlue(full: string, env: Env, ts: seq<Tag>, vs: seq<Val>, rest: Bytes, budget: nat)
    requires budget > 0 && forall k | 0 <= k < |ts| :: WellFormed(ts[k])
    requires VisitAll(full, Prints(ts), SerializeAll(vs) + rest, budget) == Success(Visited(EventsAll(env, ts, vs), rest))
    ensures Visit(full, Print(Tuple(ts)), Serialize(TupleVal(vs)) + rest, budget) == Success(Visited(Events(env, Tuple(ts), TupleVal(vs)), rest))
  {
    BracketedPrint('(', ts, ')');
    TupleStep(full, PrintAll(ts), Prints(ts), SerializeAll(vs) + rest, budget, Visited(EventsAll(env, ts, vs), rest));
  }

  lemma AllGlue(full: string, env: Env, ts: seq<Tag>, vs: seq<Val>, rest: Bytes, budget: nat)
    requires budget > 0 && |vs| > 0 && |ts| == |vs|
    requires Visit(full, Print(ts[0]), Serialize(vs[0]) + (SerializeAll(vs[1..]) + rest), budget - 1) ==
      Success(Visited(Events(env, ts[0], vs[0]), SerializeAll(vs[1..]) + rest))
    requires VisitAll(full, Prints(ts[1..]), SerializeAll(vs[1..]) + rest, budget) == Success(Visited(EventsAll(env, ts[1..], vs[1..]), rest))
    ensures VisitAll(full, Prints(ts), SerializeAll(vs) + rest, budget) == Success(Visited(EventsAll(env, ts, vs), rest))
  {
    AllCons(full, Print(ts[0]), Prints(ts[1..]), Serialize(vs[0]), SerializeAll(vs[1..]), rest, budget,
      Events(env, ts[0], vs[0]), EventsAll(env, ts[1..], vs[1..]));
  }

  lemma VariantNullGlue(full: string, env: Env, alts: seq<Tag>, d: Byte, x: Val, rest: Bytes, budget: nat)
    requires Fits(full, env, Variant(alts), Alternative(d, x), budget)
    requires d < |alts| && alts[d] == NullAlt
    ensures Visit(full, Print(Variant(alts)), Serialize(Alternative(d, x)) + rest, budget) == Success(Visited(Events(env, Variant(alts), Alternative(d, x)), rest))
  {
    VariantFits(full, env, alts, d, x, budget);
    AppendAssoc([d], Serialize(x), rest);
    BracketedPrint('<', alts, '>');
    VariantNullStep(full, PrintAll(alts), Prints(alts), d, Serialize(x) + rest, budget);
  }

  lemma VariantAltGlue(full: string, env: Env, alts: seq<Tag>, d: Byte, x: Val, rest: Bytes, budget: nat)
    requires Fits(full, env, Variant(alts), Alternative(d, x), budget)
    requires budget > 0 && d < |alts| && alts[d] != NullAlt
    requires Visit(full, Print(alts[d]), Serialize(x) + rest, budget - 1) == Success(Visited(Events(env, alts[d], x), rest))
    ensures Visit(full, Print(Variant(alts)), Serialize(Alternative(d, x)) + rest, budget) == Success(Visited(Events(env, Variant(alts), Alternative(d, x)), rest))
  {
    VariantFits(full, env, alts, d, x, budget);
    AppendAssoc([d], Serialize(x), rest);
    BracketedPrint('<', alts, '>');
    PrintNull(alts[d]);
    VariantAltStep(full, PrintAll(alts), Prints(alts), d, Serialize(x) + rest, budget, Visited(Events(env, alts[d], x), rest));
  }

  lemma StructGlue(full: string, env: Env, n: string, fs: seq<FieldTag>, vs: seq<Val>, rest: Bytes, budget: nat)
    requires budget > 0
    requires StructDef(full, Print(Struct(n, fs))) == Some(StructTag(n, PrintFields(Def(env, n, fs)), Parsed(Def(env, n, fs))))
    requires VisitFields(full, Parsed(Def(env, n, fs)), SerializeAll(vs) + rest, budget) == Success(Visited(EventsFields(env, Def(env, n, fs), vs), rest))
    ensures Visit(full, Print(Struct(n, fs)), Serialize(Fields(vs)) + rest, budget) == Success(Visited(Events(env, Struct(n, fs), Fields(vs)), rest))
  {
    var gs := Def(env, n, fs);
    StructStep(full, Print(Struct(n, fs)), SerializeAll(vs) + rest, budget, StructTag(n, PrintFields(gs), Parsed(gs)),
      Visited(EventsFields(env, gs, vs), rest));
  }

  lemma FieldsGlue(full: string, env: Env, gs: seq<FieldTag>, vs: seq<Val>, rest: Bytes, budget: nat)
    requires budget > 0 && |vs| > 0 && |gs| == |vs|
    requires Visit(full, Print(gs[0].tag), Serialize(vs[0]) + (SerializeAll(vs[1..]) + rest), budget - 1) ==
      Success(Visited(Events(env, gs[0].tag, vs[0]), SerializeAll(vs[1..]) + rest))
    requires VisitFields(full, Parsed(gs[1..]), SerializeAll(vs[1..]) + rest, budget) == Success(Visited(EventsFields(env, gs[1..], vs[1..]), rest))
    ensures VisitFields(full, Parsed(gs), SerializeAll(vs) + rest, budget) == Success(Visited(EventsFields(env, gs, vs), rest))
  {
    FieldsCons(full, Field(gs[0].name, Print(gs[0].tag)), Parsed(gs[1..]), Serialize(vs[0]), SerializeAll(vs[1..]), rest, budget,
      Events(env, gs[0].tag, vs[0]), EventsFields(env, gs[1..], vs[1..]));
  }

  lemma EnumGlue(full: string, env: Env, it: IntType, n: string, es: seq<(string, string)>, i: int, rest: Bytes, budget: nat)
    requires WellFormed(Enum(it, n, es)) && it.Contains(i) && budget > 0
    ensures Visit(full, Print(Enum(it, n, es)), Serialize(EnumVal(it, i)) + rest, budget) == Success(Visited(Events(env, Enum(it, n, es), EnumVal(it, i)), rest))
  {
    var tag := Print(Enum(it, n, es));
    var bytes := EncodeInt(it, i) + rest;
    ParseEnumOfPrint(it, n, es);
    CodeIsRecognised(Integer(it));
    IntRoundTrip(it, i);
    SplitAppend(EncodeInt(it, i), rest);
    EnumStep(full, tag, bytes, budget, EnumTag(Code(Integer(it)), n, es), it);
  }

  // ---------------------------------------------------------------------
  // The main theorem

  /** Visiting the serialization of a value of type t under t's printed tag reports Events and consumes exactly the value. */
  lemma VisitOfSerialized(full: string, env: Env, t: Tag, v: Val, rest: Bytes, budget: nat)
    requires Resolves(full, env) && WellFormed(t) && Typed(env, t, v) && Valid(v) && Depth(v) <= budget
    ensures Visit(full, Print(t), Serialize(v) + rest, budget) == Success(Visited(Events(env, t, v), rest))
  {
    VisitSerialized(full, env, t, v, rest, budget);
  }

  lemma {:induction false} VisitSerialized(full: string, env: Env, t: Tag, v: Val, rest: Bytes, budget: nat)
    requires Fits(full, env, t, v, budget)
    ensures Visit(full, Print(t), Serialize(v) + rest, budget) == Success(Visited(Events(env, t, v), rest))
    decreases v, 2
  {
    match t
    case Arith(a) => ScalarGlue(full, env, a, v.x, rest, budget);
    case Sequence(e) => VisitSequenceSerialized(full, env, e, v.items, rest, budget);
    case Tuple(ts) => VisitTupleSerialized(full, env, ts, v.items, rest, budget);
    case Variant(alts) => VisitVariantSerialized(full, env, alts, v.d, v.alt, rest, budget);
    case Struct(n, fs) => VisitStructSerialized(full, env, n, fs, v.items, rest, budget);
    case Enum(it, n, es) => EnumGlue(full, env, it, n, es, v.v, rest, budget);
  }

  lemma {:induction false} VisitSequenceSerialized(full: string, env: Env, e: Tag, vs: seq<Val>, rest: Bytes, budget: nat)
    requires Fits(full, env, Sequence(e), SeqVal(vs), budget)
    ensures Visit(full, Print(Sequence(e)), Serialize(SeqVal(vs)) + rest, budget) == Success(Visited(Events(env, Sequence(e), SeqVal(vs)), rest))
    decreases SeqVal(vs), 1
  {
    SequenceFits(full, env, e, vs, budget);
    if |vs| > 0 {
      EncodesToNothingOfTyped(full, env, e, vs[0], budget - 1);
      NoBytesIffEmpty(vs[0]);
    }
    if |vs| > 0 && EmptyVal(vs[0]) {
      VisitRepeatSerialized(full, env, e, vs, rest, budget);
    } else {
      VisitEachSerialized(full, env, e, vs, rest, budget);
    }
  }

  lemma {:induction false} VisitRepeatSerialized(full: string, env: Env, e: Tag, vs: seq<Val>, rest: Bytes, budget: nat)
    requires budget > 0 && |vs| < 0x1_0000_0000 && |vs| > 0 && Serialize(vs[0]) == []
    requires EncodesToNothing(full, Print(e), budget - 1) == EmptyVal(vs[0])
    requires forall k | 0 <= k < |vs| :: Fits(full, env, e, vs[k], budget - 1)
    ensures Visit(full, Print(Sequence(e)), Serialize(SeqVal(vs)) + rest, budget) == Success(Visited(Events(env, Sequence(e), SeqVal(vs)), rest))
    decreases SeqVal(vs), 0
  {
    VisitSerialized(full, env, e, vs[0], rest, budget - 1);
    EmptyElements(full, env, e, vs, budget - 1);
    RepeatGlue(full, env, e, vs, rest, budget);
  }

  lemma {:induction false} VisitEachSerialized(full: string, env: Env, e: Tag, vs: seq<Val>, rest: Bytes, budget: nat)
    requires budget > 0 && |vs| < 0x1_0000_0000 && !(|vs| > 0 && EmptyVal(vs[0]))
    requires |vs| > 0 ==> EncodesToNothing(full, Print(e), budget - 1) == EmptyVal(vs[0])
    requires forall k | 0 <= k < |vs| :: Fits(full, env, e, vs[k], budget - 1)
    ensures Visit(full, Print(Sequence(e)), Serialize(SeqVal(vs)) + rest, budget) == Success(Visited(Events(env, Sequence(e), SeqVal(vs)), rest))
    decreases SeqVal(vs), 0
  {
    VisitRepeatedSerialized(full, env, e, vs, rest, budget);
    EachGlue(full, env, e, vs, rest, budget);
  }

  lemma {:induction false} VisitRepeatedSerialized(full: string, env: Env, e: Tag, vs: seq<Val>, rest: Bytes, budget: nat)
    requires budget > 0 && forall k | 0 <= k < |vs| :: Fits(full, env, e, vs[k], budget - 1)
    ensures VisitRepeated(full, Print(e), SerializeAll(vs) + rest, budget, |vs|) == Success(Visited(EventsEach(env, e, vs), rest))
    decreases vs, 0
  {
    if |vs| > 0 {
      VisitSerialized(full, env, e, vs[0], SerializeAll(vs[1..]) + rest, budget - 1);
      VisitRepeatedSerialized(full, env, e, vs[1..], rest, budget);
      RepeatedGlue(full, Print(e), env, e, vs, rest, budget);
    } else {
      EmptyAppend(SerializeAll(vs), rest);
    }
  }

  lemma {:induction false} VisitTupleSerialized(full: string, env: Env, ts: seq<Tag>, vs: seq<Val>, rest: Bytes, budget: nat)
    requires Fits(full, env, Tuple(ts), TupleVal(vs), budget)
    ensures Visit(full, Print(Tuple(ts)), Serialize(TupleVal(vs)) + rest, budget) == Success(Visited(Events(env, Tuple(ts), TupleVal(vs)), rest))
    decreases TupleVal(vs), 1
  {
    TupleFits(full, env, ts, vs, budget);
    VisitAllSerialized(full, env, ts, vs, rest, budget);
    TupleGlue(full, env, ts, vs, rest, budget);
  }

  lemma {:induction false} VisitAllSerialized(full: string, env: Env, ts: seq<Tag>, vs: seq<Val>, rest: Bytes, budget: nat)
    requires budget > 0 && |ts| == |vs| && forall k | 0 <= k < |vs| :: Fits(full, env, ts[k], vs[k], budget - 1)
    ensures VisitAll(full, Prints(ts), SerializeAll(vs) + rest, budget) == Success(Visited(EventsAll(env, ts, vs), rest))
    decreases vs, 0
  {
    if |vs| > 0 {
      VisitSerialized(full, env, ts[0], vs[0], SerializeAll(vs[1..]) + rest, budget - 1);
      VisitAllSerialized(full, env, ts[1..], vs[1..], rest, budget);
      AllGlue(full, env, ts, vs, rest, budget);
    } else {
      EmptyAppend(SerializeAll(vs), rest);
    }
  }

  lemma {:induction false} VisitVariantSerialized(full: string, env: Env, alts: seq<Tag>, d: Byte, x: Val, rest: Bytes, budget: nat)
    requires Fits(full, env, Variant(alts), Alternative(d, x), budget)
    ensures Visit(full, Print(Variant(alts)), Serialize(Alternative(d, x)) + rest, budget) == Success(Visited(Events(env, Variant(alts), Alternative(d, x)), rest))
    decreases Alternative(d, x), 1
  {
    VariantFits(full, env, alts, d, x, budget);
    if alts[d] == NullAlt {
      VariantNullGlue(full, env, alts, d, x, rest, budget);
    } else {
      VisitAltSerialized(full, env, alts, d, x, rest, budget);
    }
  }

  lemma {:induction false} VisitAltSerialized(full: string, env: Env, alts: seq<Tag>, d: Byte, x: Val, rest: Bytes, budget: nat)
    requires Fits(full, env, Variant(alts), Alternative(d, x), budget)
    requires d < |alts| && alts[d] != NullAlt
    ensures Visit(full, Print(Variant(alts)), Serialize(Alternative(d, x)) + rest, budget) == Success(Visited(Events(env, Variant(alts), Alternative(d, x)), rest))
    decreases Alternative(d, x), 0
  {
    AltFits(full, env, alts, d, x, budget);
    VisitSerialized(full, env, alts[d], x, rest, budget - 1);
    VariantAltGlue(full, env, alts, d, x, rest, budget);
  }

  lemma {:induction false} VisitStructSerialized(full: string, env: Env, n: string, fs: seq<FieldTag>, vs: seq<Val>, rest: Bytes, budget: nat)
    requires Fits(full, env, Struct(n, fs), Fields(vs), budget)
    ensures Visit(full, Print(Struct(n, fs)), Serialize(Fields(vs)) + rest, budget) == Success(Visited(Events(env, Struct(n, fs), Fields(vs)), rest))
    decreases Fields(vs), 1
  {
    StructFits(full, env, n, fs, vs, budget);
    StructDefOfTyped(full, env, n, fs);
    VisitFieldsSerialized(full, env, Def(env, n, fs), vs, rest, budget);
    StructGlue(full, env, n, fs, vs, rest, budget);
  }

  lemma {:induction false} VisitFieldsSerialized(full: string, env: Env, gs: seq<FieldTag>, vs: seq<Val>, rest: Bytes, budget: nat)
    requires budget > 0 && |gs| == |vs| && forall k | 0 <= k < |vs| :: Fits(full, env, gs[k].tag, vs[k], budget - 1)
    ensures VisitFields(full, Parsed(gs), SerializeAll(vs) + rest, budget) == Success(Visited(EventsFields(env, gs, vs), rest))
    decreases vs, 0
  {
    if |vs| > 0 {
      VisitSerialized(full, env, gs[0].tag, vs[0], SerializeAll(vs[1..]) + rest, budget - 1);
      VisitFieldsSerialized(full, env, gs[1..], vs[1..], rest, budget);
      FieldsGlue(full, env, gs, vs, rest, budget);
    } else {
      EmptyAppend(SerializeAll(vs), rest);
    }
  }

  // ---------------------------------------------------------------------
  // mserialize::visit on a whole serialized value

  /** visit(tag, visitor, stream) on the serialization of a value of type t delivers Events and leaves the rest of the stream. */
  lemma VisitTagSerialized(env: Env, t: Tag, v: Val, rest: Bytes)
    requires Resolves(Print(t), env) && WellFormed(t) && Typed(env, t, v) && Valid(v) && Depth(v) <= MaxRecursion
    ensures VisitTag(Print(t), Serialize(v) + rest) == Success(Visited(Events(env, t, v), rest))
  {
    CompleteOfPrint(t);
    VisitOfSerialized(Print(t), env, t, v, rest, MaxRecursion);
  }

  /** The first definition of struct n in full, found at p, is what the references {n} in full stand for. */
  lemma ResolvesAt(full: string, n: string, fs: seq<FieldTag>, p: nat, post: string)
    requires WellFormed(Struct(n, fs)) && |fs| > 0
    requires Find(full, "{" + n + "`", 0) == Some(p) && full[p..] == Print(Struct(n, fs)) + post
    ensures Resolves(full, map[n := fs])
  {
    var t := Print(Struct(n, fs));
    assert WellFormed(Struct(n, []));
    ParseStructOfPrint(n, []);
    ParseStructOfPrint(n, fs);
    TagEndOfPrint(Struct(n, fs), post);
    assert full[p..][..|t|] == t;
    assert full[p..p + |t|] == full[p..][..|t|];
    StructDefFound(full, Print(Struct(n, [])), StructTag(n, PrintFields([]), Parsed([])), p, |t|, StructTag(n, PrintFields(fs), Parsed(fs)));
  }

  /** A field-less reference takes the struct tag that starts where its definition is found. */
  lemma StructDefFound(full: string, t: string, st: StructTag, p: nat, m: nat, def: StructTag)
    requires |t| > 0 && t[0] == '{' && ParseStruct(t) == Some(st) && |st.fields| == 0
    requires Find(full, "{" + st.name + "`", 0) == Some(p) && TagEnd(full[p..]) == Some(m)
    requires ParseStruct(full[p..p + m]) == Some(def)
    ensures StructDef(full, t) == Some(def)
  {
  }

  /** A struct tag with fields starts with its own definition. */
  lemma FindOwnDefinition(n: string, fs: seq<FieldTag>, post: string)
    requires |fs| > 0
    ensures Find(Print(Struct(n, fs)) + post, "{" + n + "`", 0) == Some(0)
  {
    var s := Print(Struct(n, fs)) + post;
    var pat := "{" + n + "`";
    assert PrintFields(fs)[0] == '`';
    assert s[..|pat|] == pat by {
      assert forall k | 0 <= k < |pat| :: s[k] == pat[k];
    }
  }
}
