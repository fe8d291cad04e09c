/**
 * What serialize_and_visit<ToString> returns, production by production: the
 * text of a value of each kind of tag in terms of the texts of its members,
 * and the outputs the engine's tests expect.
 */
module Rendering {
  import opened Wrappers
  import opened Bytes
  import opened Text
  import opened Tags
  import opened Grammar
  import opened Engine
  import opened Serialization
  import opened VisitScenarios
  import opened ReferenceVisitors

  /** The texts of the elements of a sequence of e's, one after another. */
  function EachText(env: Env, e: Tag, vs: seq<Val>): string
    decreases vs
  {
    if |vs| == 0 then "" else Written(Events(env, e, vs[0])) + EachText(env, e, vs[1..])
  }

  /** The texts of the members of a tuple, one after another. */
  function AllText(env: Env, ts: seq<Tag>, vs: seq<Val>): string
    decreases vs
  {
    if |vs| == 0 || |ts| == 0 then "" else Written(Events(env, ts[0], vs[0])) + AllText(env, ts[1..], vs[1..])
  }

  /** Each field as `name(tag): text, `. */
  function FieldsText(env: Env, gs: seq<FieldTag>, vs: seq<Val>): string
    decreases vs
  {
    if |vs| == 0 || |gs| == 0 then ""
    else
      gs[0].name + "(" + Print(gs[0].tag) + "): " + Written(Events(env, gs[0].tag, vs[0])) + ", "
      + FieldsText(env, gs[1..], vs[1..])
  }

  /** Scalars as the stream writes them, each followed by a space. */
  function Spaced(xs: seq<Value>): string {
    if |xs| == 0 then "" else ValueText(xs[0]) + " " + Spaced(xs[1..])
  }

  function Scalars(xs: seq<Value>): (vs: seq<Val>)
    ensures |vs| == |xs|
  {
    if |xs| == 0 then [] else [Scalar(xs[0])] + Scalars(xs[1..])
  }

  lemma ScalarsTail(xs: seq<Value>)
    requires |xs| > 0
    ensures Scalars(xs)[0] == Scalar(xs[0]) && Scalars(xs)[1..] == Scalars(xs[1..])
  {
  }

  // ---------------------------------------------------------------------
  // Gluing texts

  lemma Wrapped(a: Event, mid: seq<Event>, b: Event)
    ensures Written([a] + mid + [b]) == EventText(a) + Written(mid) + EventText(b)
  {
    WrittenAppend([a] + mid, [b]);
    WrittenAppend([a], mid);
    WrittenOne(a);
    WrittenOne(b);
  }

  lemma WrittenThree(a: Event, m: Event, b: Event)
    ensures Written([a, m, b]) == EventText(a) + EventText(m) + EventText(b)
  {
    assert [a, m, b] == [a] + [m] + [b];
    Wrapped(a, [m], b);
    WrittenOne(m);
  }

  lemma {:induction false} WrittenEach(env: Env, e: Tag, vs: seq<Val>)
    ensures Written(EventsEach(env, e, vs)) == EachText(env, e, vs)
    decreases vs
  {
    if |vs| > 0 {
      WrittenAppend(Events(env, e, vs[0]), EventsEach(env, e, vs[1..]));
      WrittenEach(env, e, vs[1..]);
    }
  }

  lemma {:induction false} WrittenAll(env: Env, ts: seq<Tag>, vs: seq<Val>)
    ensures Written(EventsAll(env, ts, vs)) == AllText(env, ts, vs)
    decreases vs
  {
    if |vs| > 0 && |ts| > 0 {
      WrittenAppend(Events(env, ts[0], vs[0]), EventsAll(env, ts[1..], vs[1..]));
      WrittenAll(env, ts[1..], vs[1..]);
    }
  }

  lemma FieldGlue(f: FieldTag, mid: seq<Event>, rest: seq<Event>)
    ensures Written([FieldBegin(f.name, Print(f.tag))] + mid + [FieldEnd] + rest)
      == f.name + "(" + Print(f.tag) + "): " + Written(mid) + ", " + Written(rest)
  {
    WrittenAppend([FieldBegin(f.name, Print(f.tag))] + mid + [FieldEnd], rest);
    Wrapped(FieldBegin(f.name, Print(f.tag)), mid, FieldEnd);
  }

  lemma {:induction false} WrittenFields(env: Env, gs: seq<FieldTag>, vs: seq<Val>)
    ensures Written(EventsFields(env, gs, vs)) == FieldsText(env, gs, vs)
    decreases vs
  {
    if |vs| > 0 && |gs| > 0 {
      FieldGlue(gs[0], Events(env, gs[0].tag, vs[0]), EventsFields(env, gs[1..], vs[1..]));
      WrittenFields(env, gs[1..], vs[1..]);
    }
  }

  // ---------------------------------------------------------------------
  // The text of each kind of value

  /** A sequence whose elements are not collapsed: `SB(size,elem)[ ` then each element's text, then `] `. */
  lemma SequenceText(env: Env, e: Tag, vs: seq<Val>)
    requires |vs| == 0 || !EmptyVal(vs[0])
    ensures Written(Events(env, Sequence(e), SeqVal(vs)))
      == "SB(" + Decimal(|vs|) + "," + Print(e) + ")[ " + EachText(env, e, vs) + "] "
  {
    Wrapped(SequenceBegin(|vs|, Print(e)), EventsEach(env, e, vs), SequenceEnd);
    WrittenEach(env, e, vs);
  }

  /** A sequence of empty values: its first element's text once, inside `RB(size,elem)( ` and `) `. */
  lemma RepeatText(env: Env, e: Tag, vs: seq<Val>)
    requires |vs| > 0 && EmptyVal(vs[0])
    ensures Written(Events(env, Sequence(e), SeqVal(vs)))
      == "SB(" + Decimal(|vs|) + "," + Print(e) + ")[ "
        + ("RB(" + Decimal(|vs|) + "," + Print(e) + ")( " + Written(Events(env, e, vs[0])) + ") ")
        + "] "
  {
    var n, elem := |vs|, Print(e);
    var mid := Events(env, e, vs[0]);
    RepeatShape(n, elem, mid);
    Wrapped(SequenceBegin(n, elem), [RepeatBegin(n, elem)] + mid + [RepeatEnd(n, elem)], SequenceEnd);
    Wrapped(RepeatBegin(n, elem), mid, RepeatEnd(n, elem));
  }

  lemma RepeatShape(n: nat, elem: string, mid: seq<Event>)
    ensures [SequenceBegin(n, elem), RepeatBegin(n, elem)] + mid + [RepeatEnd(n, elem), SequenceEnd]
      == [SequenceBegin(n, elem)] + ([RepeatBegin(n, elem)] + mid + [RepeatEnd(n, elem)]) + [SequenceEnd]
  {
  }

  /** A sequence of scalars: each value then a space, between `SB(size,code)[ ` and `] `. */
  lemma {:induction false} ScalarSequenceText(env: Env, a: Arithmetic, xs: seq<Value>)
    ensures Written(Events(env, Sequence(Arith(a)), SeqVal(Scalars(xs))))
      == "SB(" + Decimal(|xs|) + "," + [Code(a)] + ")[ " + Spaced(xs) + "] "
  {
    SequenceText(env, Arith(a), Scalars(xs));
    ScalarsText(env, a, xs);
  }

  lemma {:induction false} ScalarsText(env: Env, a: Arithmetic, xs: seq<Value>)
    ensures EachText(env, Arith(a), Scalars(xs)) == Spaced(xs)
  {
    if |xs| > 0 {
      ScalarsTail(xs);
      ScalarsText(env, a, xs[1..]);
      WrittenOne(Prim(xs[0]));
    }
  }

  /** A tuple: `TB(tags)( ` then each member's text, then `) `. */
  lemma TupleText(env: Env, ts: seq<Tag>, vs: seq<Val>)
    ensures Written(Events(env, Tuple(ts), TupleVal(vs))) == "TB(" + PrintAll(ts) + ")( " + AllText(env, ts, vs) + ") "
  {
    Wrapped(TupleBegin(PrintAll(ts)), EventsAll(env, ts, vs), TupleEnd);
    WrittenAll(env, ts, vs);
  }

  /** The null alternative of a variant (a null pointer): `VB(d,0)< {null} > `. */
  lemma NullText(env: Env, alts: seq<Tag>, d: Byte)
    requires d < |alts| && alts[d] == NullAlt
    ensures Written(Events(env, Variant(alts), Alternative(d, NullVal))) == "VB(" + Decimal(d) + "," + "0" + ")< " + "{null} " + "> "
  {
    WrittenThree(VariantBegin(d, "0"), Null, VariantEnd);
  }

  /** Any other alternative: `VB(d,tag)< ` then the alternative's text, then `> `. */
  lemma AlternativeText(env: Env, alts: seq<Tag>, d: Byte, x: Val)
    requires d < |alts| && alts[d] != NullAlt
    ensures Written(Events(env, Variant(alts), Alternative(d, x)))
      == "VB(" + Decimal(d) + "," + Print(alts[d]) + ")< " + Written(Events(env, alts[d], x)) + "> "
  {
    Wrapped(VariantBegin(d, Print(alts[d])), Events(env, alts[d], x), VariantEnd);
  }

  /** An enum: its name, the enumerator listed for the value, the code and the value in hex. */
  lemma EnumText(env: Env, it: IntType, n: string, es: seq<(string, string)>, i: int)
    ensures Written(Events(env, Enum(it, n, es), EnumVal(it, i)))
      == "E(" + n + "::" + Enumerator(es, Hex(i)) + "," + [Code(Integer(it))] + ",0x" + Hex(i) + ") "
  {
    WrittenOne(EnumValue(n, Enumerator(es, Hex(i)), Code(Integer(it)), Hex(i)));
  }

  /** The enumerator shown is the first one listed with the value's hex text. */
  lemma {:induction false} ListedEnumerator(es: seq<(string, string)>, hex: string, k: nat)
    requires k < |es| && es[k].0 == hex
    requires forall j | 0 <= j < k :: es[j].0 != hex
    ensures Enumerator(es, hex) == es[k].1
  {
    if k > 0 {
      assert es[0].0 != hex;
      EnumeratorsTail(es);
      ListedEnumerator(es[1..], hex, k - 1);
    }
  }

  /** No enumerator is shown for a value the tag does not list. */
  lemma {:induction false} UnlistedEnumerator(es: seq<(string, string)>, hex: string)
    requires forall k | 0 <= k < |es| :: es[k].0 != hex
    ensures Enumerator(es, hex) == ""
  {
    if |es| > 0 {
      assert es[0].0 != hex;
      EnumeratorsTail(es);
      UnlistedEnumerator(es[1..], hex);
    }
  }

  lemma EnumeratorsTail(es: seq<(string, string)>)
    requires |es| > 0
    ensures forall k | 0 <= k < |es| - 1 :: es[1..][k] == es[k + 1]
  {
  }

  /** A struct: `StB(name,fields)  { ` then `name(tag): text, ` per field, then `} `. */
  lemma StructText(env: Env, n: string, fs: seq<FieldTag>, vs: seq<Val>)
    ensures var gs := Def(env, n, fs);
      Written(Events(env, Struct(n, fs), Fields(vs))) == "StB(" + n + "," + PrintFields(gs) + ") { " + FieldsText(env, gs, vs) + "} "
  {
    var gs := Def(env, n, fs);
    StructEvents(env, n, fs, vs);
    Wrapped(StructBegin(n, PrintFields(gs)), EventsFields(env, gs, vs), StructEnd);
    WrittenFields(env, gs, vs);
  }

  lemma StructEvents(env: Env, n: string, fs: seq<FieldTag>, vs: seq<Val>)
    ensures var gs := Def(env, n, fs);
      Events(env, Struct(n, fs), Fields(vs)) == [StructBegin(n, PrintFields(gs))] + EventsFields(env, gs, vs) + [StructEnd]
  {
  }

  // ---------------------------------------------------------------------
  // The outputs the tests expect

  function IntSeq(xs: seq<int>): (vs: seq<Value>)
    ensures |vs| == |xs|
  {
    if |xs| == 0 then [] else [IntValue(Int32, xs[0])] + IntSeq(xs[1..])
  }

  /** empty_vector_of_int */
  method EmptyVectorOfInt() returns (out: Result<string, Error>)
    ensures out == Success("SB(0,i)[ ] ")
  {
    var v := SeqVal(Scalars([]));
    EmptyVectorShown();
    out := SerializeAndShow(map[], Sequence(Int32Tag), v);
  }

  lemma EmptyVectorShown()
    ensures Serializable(map[], Sequence(Int32Tag), SeqVal(Scalars([])))
    ensures Written(Events(map[], Sequence(Int32Tag), SeqVal(Scalars([])))) == "SB(0,i)[ ] "
  {
    ScalarSequenceText(map[], Integer(Int32), []);
    assert "SB(" + Decimal(0) + "," + "i" + ")[ " + "" + "] " == "SB(0,i)[ ] ";
  }

  /** empty_tuple */
  method EmptyTuple() returns (out: Result<string, Error>)
    ensures out == Success("TB()( ) ")
  {
    EmptyTupleShown();
    out := SerializeAndShow(map[], Tuple([]), TupleVal([]));
  }

  lemma EmptyTupleShown()
    ensures Serializable(map[], Tuple([]), TupleVal([]))
    ensures Written(Events(map[], Tuple([]), TupleVal([]))) == "TB()( ) "
  {
    TupleText(map[], [], []);
    assert "TB(" + "" + ")( " + "" + ") " == "TB()( ) ";
  }

  const PointerTag := Variant([NullAlt, Int32Tag])

  /** null_pointer: a null `const int*`. */
  method NullPointer() returns (out: Result<string, Error>)
    ensures out == Success("VB(0,0)< {null} > ")
  {
    PointerSerializable(Alternative(0, NullVal));
    NullPointerShown();
    out := SerializeAndShow(map[], PointerTag, Alternative(0, NullVal));
  }

  lemma PointerSerializable(v: Val)
    requires v == Alternative(0, NullVal) || v == Alternative(1, Int(123))
    ensures Serializable(map[], PointerTag, v)
  {
  }

  lemma NullPointerShown()
    ensures Written(Events(map[], PointerTag, Alternative(0, NullVal))) == "VB(0,0)< {null} > "
  {
    NullText(map[], [NullAlt, Int32Tag], 0);
    NullPointerLiteral();
  }

  lemma NullPointerLiteral()
    ensures "VB(" + Decimal(0) + "," + "0" + ")< " + "{null} " + "> " == "VB(0,0)< {null} > "
  {
  }

  /** pointer_to_int: a pointer to 123. */
  method PointerToInt() returns (out: Result<string, Error>)
    ensures out == Success("VB(1,i)< 123 > ")
  {
    PointerSerializable(Alternative(1, Int(123)));
    PointerToIntShown();
    out := SerializeAndShow(map[], PointerTag, Alternative(1, Int(123)));
  }

  lemma PointerToIntShown()
    ensures Written(Events(map[], PointerTag, Alternative(1, Int(123)))) == "VB(1,i)< 123 > "
  {
    AlternativeText(map[], [NullAlt, Int32Tag], 1, Int(123));
    WrittenOne(Prim(IntValue(Int32, 123)));
    PointerToIntLiteral();
  }

  lemma PointerToIntLiteral()
    ensures "VB(" + Decimal(1) + "," + "i" + ")< " + (Decimal(123) + " ") + "> " == "VB(1,i)< 123 > "
  {
    assert Decimal(1) == "1" && Decimal(123) == "123";
  }

  /** Scalars of one type, each within its range, few enough for the 32-bit count. */
  predicate ScalarsOf(a: Arithmetic, xs: seq<Value>) {
    |xs| < 0x1_0000_0000 && forall k | 0 <= k < |xs| :: xs[k].Type() == a && xs[k].Valid()
  }

  lemma {:induction false} ScalarsAt(xs: seq<Value>, k: nat)
    requires k < |xs|
    ensures Scalars(xs)[k] == Scalar(xs[k])
  {
    if k > 0 {
      ScalarsTail(xs);
      ScalarsAt(xs[1..], k - 1);
    }
  }

  lemma ScalarVectorSerializable(a: Arithmetic, xs: seq<Value>)
    requires ScalarsOf(a, xs)
    ensures Serializable(map[], Sequence(Arith(a)), SeqVal(Scalars(xs)))
  {
    var vs := Scalars(xs);
    forall k | 0 <= k < |vs|
      ensures vs[k] == Scalar(xs[k])
    {
      ScalarsAt(xs, k);
    }
    forall k | 0 <= k < |vs|
      ensures Depth(vs[k]) <= 1
    {
      ScalarsAt(xs, k);
    }
    MaxDepthAtMost(vs, 1);
  }

  lemma {:induction false} MaxDepthAtMost(vs: seq<Val>, d: nat)
    requires forall k | 0 <= k < |vs| :: Depth(vs[k]) <= d
    ensures MaxDepth(vs) <= d
  {
    if |vs| > 0 {
      assert forall k | 0 <= k < |vs| - 1 :: vs[1..][k] == vs[k + 1];
      MaxDepthAtMost(vs[1..], d);
    }
  }

  /** vector_of_int, vector_of_char: serialize_and_visit<ToString> of a vector of scalars. */
  method ScalarVector(a: Arithmetic, xs: seq<Value>) returns (out: Result<string, Error>)
    ensures ScalarsOf(a, xs) ==> out == Success("SB(" + Decimal(|xs|) + "," + [Code(a)] + ")[ " + Spaced(xs) + "] ")
  {
    out := SerializeAndShow(map[], Sequence(Arith(a)), SeqVal(Scalars(xs)));
    if ScalarsOf(a, xs) {
      ScalarVectorSerializable(a, xs);
      ScalarSequenceText(map[], a, xs);
    }
  }

  /** The int32 values lo, lo + 1, ..., lo + n - 1. */
  function IntsFrom(lo: int, n: nat): (vs: seq<Value>)
    ensures |vs| == n
    decreases n
  {
    if n == 0 then [] else [IntValue(Int32, lo)] + IntsFrom(lo + 1, n - 1)
  }

  lemma IntsFromAt(lo: int, n: nat, k: nat)
    requires k < n
    ensures IntsFrom(lo, n)[k] == IntValue(Int32, lo + k)
    decreases n
  {
    if k > 0 {
      IntsFromAt(lo + 1, n - 1, k - 1);
    }
  }

  lemma IntsFromOf(lo: int, n: nat)
    requires -0x8000_0000 <= lo && lo + n <= 0x8000_0000 && n < 0x1_0000_0000
    ensures ScalarsOf(Integer(Int32), IntsFrom(lo, n))
  {
    forall k | 0 <= k < n
      ensures IntsFrom(lo, n)[k].Type() == Integer(Int32) && IntsFrom(lo, n)[k].Valid()
    {
      IntsFromAt(lo, n, k);
    }
  }

  lemma SpacedStep(lo: int, n: nat)
    requires n > 0
    ensures Spaced(IntsFrom(lo, n)) == Decimal(lo) + " " + Spaced(IntsFrom(lo + 1, n - 1))
  {
    assert IntsFrom(lo, n)[1..] == IntsFrom(lo + 1, n - 1);
  }

  /** The values of vector_of_int are written "1 2 3 4 5 6 ". */
  lemma OneToSix()
    ensures Spaced(IntsFrom(1, 6)) == "1 2 3 4 5 6 "
  {
    SpacedStep(1, 6);
    SpacedStep(2, 5);
    SpacedStep(3, 4);
    SpacedStep(4, 3);
    SpacedStep(5, 2);
    SpacedStep(6, 1);
    SmallDecimals();
    OneToSixLiteral();
  }

  lemma OneToSixLiteral()
    ensures "1" + " " + ("2" + " " + ("3" + " " + ("4" + " " + ("5" + " " + ("6" + " " + ""))))) == "1 2 3 4 5 6 "
  {
  }

  /** vector_of_int */
  method VectorOfInt() returns (out: Result<string, Error>)
    ensures out == Success("SB(6,i)[ 1 2 3 4 5 6 ] ")
  {
    IntsFromOf(1, 6);
    out := ScalarVector(Integer(Int32), IntsFrom(1, 6));
    OneToSix();
    VectorOfIntLiteral();
  }

  lemma VectorOfIntLiteral()
    ensures "SB(" + Decimal(6) + "," + [Code(Integer(Int32))] + ")[ " + "1 2 3 4 5 6 " + "] " == "SB(6,i)[ 1 2 3 4 5 6 ] "
  {
    assert Decimal(6) == "6";
  }

  /** A field-less struct `{n}` that the tag does not define. */
  lemma LoneReference(n: string)
    requires Name(n)
    ensures Serializable(map[n := []], Struct(n, []), Fields([]))
  {
    var s, pat := "{" + n + "}", "{" + n + "`";
    assert Print(Struct(n, [])) == s;
    assert s[|n| + 1] == '}' && pat[|n| + 1] == '`';
    Mismatch(s, pat, 0, |n| + 1);
    assert Find(s, pat, 0) == Find(s, pat, 1) == None;
    ParseStructOfPrint(n, []);
  }

  /** empty_struct */
  method EmptyStruct() returns (out: Result<string, Error>)
    ensures out == Success("StB(Empty,) { } ")
  {
    PlainName("Empty");
    LoneReference("Empty");
    EmptyStructShown();
    out := SerializeAndShow(map["Empty" := []], Struct("Empty", []), Fields([]));
  }

  lemma EmptyStructShown()
    ensures Written(Events(map["Empty" := []], Struct("Empty", []), Fields([]))) == "StB(Empty,) { } "
  {
    StructText(map["Empty" := []], "Empty", [], []);
    assert Def(map["Empty" := []], "Empty", []) == [];
    EmptyStructLiteral();
  }

  lemma EmptyStructLiteral()
    ensures "StB(" + "Empty" + "," + PrintFields([]) + ") { " + "" + "} " == "StB(Empty,) { } "
  {
  }

  const OpaqueEnumTag := Enum(Int32, "OpaqueEnum", [])

  /** not_adapted_enum: an enum without listed enumerators, holding 64. */
  method NotAdaptedEnum() returns (out: Result<string, Error>)
    ensures out == Success("E(OpaqueEnum::,i,0x40) ")
  {
    PlainName("OpaqueEnum");
    OpaqueEnumSerializable();
    OpaqueEnumShown();
    out := SerializeAndShow(map[], OpaqueEnumTag, EnumVal(Int32, 64));
  }

  lemma OpaqueEnumSerializable()
    requires Name("OpaqueEnum")
    ensures Serializable(map[], OpaqueEnumTag, EnumVal(Int32, 64))
  {
  }

  lemma OpaqueEnumShown()
    ensures Written(Events(map[], OpaqueEnumTag, EnumVal(Int32, 64))) == "E(OpaqueEnum::,i,0x40) "
  {
    EnumText(map[], Int32, "OpaqueEnum", [], 64);
    OpaqueEnumLiteral();
  }

  lemma OpaqueEnumLiteral()
    ensures "E(" + "OpaqueEnum" + "::" + Enumerator([], Hex(64)) + "," + [Code(Integer(Int32))] + ",0x" + Hex(64) + ") " == "E(OpaqueEnum::,i,0x40) "
  {
    assert Hex(64) == "40";
  }

  /**
   * seq_of_empty_tuple: a vector of n empty tuples is shown as one repeat of
   * the empty tuple; for the test's 1024 the counts read 1024.
   */
  method SequenceOfEmptyTuple(n: nat) returns (out: Result<string, Error>)
    requires 0 < n < 0x1_0000_0000
    ensures out == Success("SB(" + Decimal(n) + ",())[ RB(" + Decimal(n) + ",())( TB()( ) ) ] ")
    ensures n == 1024 ==> out == Success("SB(1024,())[ RB(1024,())( TB()( ) ) ] ")
  {
    var v := SeqVal(seq(n, _ => TupleVal([])));
    EmptyTuplesSerializable(n);
    EmptyTuplesShown(n);
    out := SerializeAndShow(map[], Sequence(Tuple([])), v);
    if n == 1024 {
      ThousandTwentyFour();
    }
  }

  lemma EmptyTuplesSerializable(n: nat)
    requires n < 0x1_0000_0000
    ensures Serializable(map[], Sequence(Tuple([])), SeqVal(seq(n, _ => TupleVal([]))))
  {
    ConstSeqTyped(map[], Tuple([]), TupleVal([]), n);
    if n > 0 {
      MaxDepthConst(seq(n, _ => TupleVal([])), TupleVal([]));
    }
  }

  lemma EmptyTuplesShown(n: nat)
    requires n > 0
    ensures Written(Events(map[], Sequence(Tuple([])), SeqVal(seq(n, _ => TupleVal([])))))
      == "SB(" + Decimal(n) + ",())[ RB(" + Decimal(n) + ",())( TB()( ) ) ] "
  {
    var vs := seq(n, _ => TupleVal([]));
    assert vs[0] == TupleVal([]);
    RepeatText(map[], Tuple([]), vs);
    EmptyTupleShown();
    EmptyTuplesLiteral(Decimal(n));
  }

  lemma EmptyTuplesLiteral(d: string)
    ensures "SB(" + d + "," + Print(Tuple([])) + ")[ " + ("RB(" + d + "," + Print(Tuple([])) + ")( " + "TB()( ) " + ") ") + "] "
      == "SB(" + d + ",())[ RB(" + d + ",())( TB()( ) ) ] "
  {
    assert Print(Tuple([])) == "()";
  }

  lemma ThousandTwentyFour()
    ensures "SB(" + Decimal(1024) + ",())[ RB(" + Decimal(1024) + ",())( TB()( ) ) ] " == "SB(1024,())[ RB(1024,())( TB()( ) ) ] "
  {
    DecimalOf1024();
  }

  /** The text of a struct n whose field f refers to a struct m it does not define: m shows as empty. */
  lemma HolderText(n: string, f: string, m: string)
    ensures Written([StructBegin(n, "`" + f + "'{" + m + "}"), FieldBegin(f, "{" + m + "}"), StructBegin(m, ""), StructEnd, FieldEnd, StructEnd])
      == "StB(" + n + "," + ("`" + f + "'{" + m + "}") + ") { "
        + (f + "(" + ("{" + m + "}") + "): " + ("StB(" + m + "," + "" + ") { " + "" + "} ") + ", ")
        + "} "
  {
    var sb, fb, sb2 := StructBegin(n, "`" + f + "'{" + m + "}"), FieldBegin(f, "{" + m + "}"), StructBegin(m, "");
    var field := [fb] + ([sb2] + [] + [StructEnd]) + [FieldEnd];
    HolderShape(sb, fb, sb2);
    HolderFieldText(f, m);
    Wrapped(sb, field, StructEnd);
  }

  lemma HolderFieldText(f: string, m: string)
    ensures Written([FieldBegin(f, "{" + m + "}")] + ([StructBegin(m, "")] + [] + [StructEnd]) + [FieldEnd])
      == f + "(" + ("{" + m + "}") + "): " + ("StB(" + m + "," + "" + ") { " + "" + "} ") + ", "
  {
    var inner := [StructBegin(m, "")] + [] + [StructEnd];
    Wrapped(StructBegin(m, ""), [], StructEnd);
    assert Written(inner) == "StB(" + m + "," + "" + ") { " + "" + "} ";
    Wrapped(FieldBegin(f, "{" + m + "}"), inner, FieldEnd);
  }

  lemma HolderShape(sb: Event, fb: Event, sb2: Event)
    ensures [sb, fb, sb2, StructEnd, FieldEnd, StructEnd] == [sb] + ([fb] + ([sb2] + [] + [StructEnd]) + [FieldEnd]) + [StructEnd]
  {
  }

  /** empty_prefix_of_containing_struct: `{Foo}` is not taken for the definition of FooBar, whose name it prefixes. */
  method EmptyPrefixOfContainingStruct() returns (out: Result<string, Error>)
    ensures out == Success("StB(FooBar,`f'{Foo}) { f({Foo}): StB(Foo,) { } , } ")
  {
    FooBarHolder();
    UndefinedReferenceIsEmpty("FooBar", "f", "Foo", []);
    HolderText("FooBar", "f", "Foo");
    FooBarLiteral();
    out := VisitAndShow("{FooBar`f'{Foo}}", []);
  }

  lemma FooBarLiteral()
    ensures "StB(" + "FooBar" + "," + ("`" + "f" + "'{" + "Foo" + "}") + ") { "
        + ("f" + "(" + ("{" + "Foo" + "}") + "): " + ("StB(" + "Foo" + "," + "" + ") { " + "" + "} ") + ", ")
        + "} "
      == "StB(FooBar,`f'{Foo}) { f({Foo}): StB(Foo,) { } , } "
  {
    FooBarHead();
    FooBarField();
    FooBarJoin();
  }

  lemma FooBarHead()
    ensures "StB(" + "FooBar" + "," + ("`" + "f" + "'{" + "Foo" + "}") + ") { " == "StB(FooBar,`f'{Foo}) { "
  {
  }

  lemma FooBarField()
    ensures "f" + "(" + ("{" + "Foo" + "}") + "): " + ("StB(" + "Foo" + "," + "" + ") { " + "" + "} ") + ", " == "f({Foo}): StB(Foo,) { } , "
  {
    assert "StB(" + "Foo" + "," + "" + ") { " + "" + "} " == "StB(Foo,) { } ";
  }

  lemma FooBarJoin()
    ensures "StB(FooBar,`f'{Foo}) { " + "f({Foo}): StB(Foo,) { } , " + "} " == "StB(FooBar,`f'{Foo}) { f({Foo}): StB(Foo,) { } , } "
  {
  }
}
