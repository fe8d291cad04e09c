/**
 * The visit test cases of the engine: arithmetic limits, malformed tags,
 * the nesting bound, recursive structs and repeats, each stated over the
 * tag text and the bytes the test writes.
 */
module VisitScenarios {
  import opened Wrappers
  import opened Bytes
  import opened Text
  import opened Tags
  import opened Grammar
  import opened Engine
  import opened Serialization
  import opened VisitCorrect

  const Int32Tag: Tag := Arith(Integer(Int32))

  function Int(i: int): Val {
    Scalar(IntValue(Int32, i))
  }

  /** n copies of the serialization of the int32 value i, one after the other. */
  function Int32s(i: int, n: nat): Bytes {
    if n == 0 then [] else EncodeInt(Int32, i) + Int32s(i, n - 1)
  }

  /** n copies of the character c. */
  function Chars(c: char, n: nat): (s: string)
    ensures |s| == n && forall k | 0 <= k < n :: s[k] == c
  {
    if n == 0 then "" else [c] + Chars(c, n - 1)
  }

  // ---------------------------------------------------------------------
  // Arithmetic values and malformed tags

  /** Visiting the bytes of an arithmetic value under its one-letter tag delivers that value and nothing else. */
  lemma ArithmeticVisit(x: Value)
    requires x.Valid()
    ensures VisitTag([Code(x.Type())], EncodeValue(x)) == Success(Visited([Prim(x)], []))
  {
    assert Serialize(Scalar(x)) + [] == EncodeValue(x);
    VisitTagSerialized(map[], Arith(x.Type()), Scalar(x), []);
  }

  /** The minimum and the maximum of every integer type come back as one primitive event each. */
  lemma IntegerLimits(t: IntType)
    ensures VisitTag([Code(Integer(t))], EncodeInt(t, t.Min())) == Success(Visited([Prim(IntValue(t, t.Min()))], []))
    ensures VisitTag([Code(Integer(t))], EncodeInt(t, t.Max())) == Success(Visited([Prim(IntValue(t, t.Max()))], []))
  {
    ArithmeticVisit(IntValue(t, t.Min()));
    ArithmeticVisit(IntValue(t, t.Max()));
  }

  lemma BoolLimits()
    ensures VisitTag("y", [0]) == Success(Visited([Prim(BoolValue(false))], []))
    ensures VisitTag("y", [1]) == Success(Visited([Prim(BoolValue(true))], []))
  {
    ArithmeticVisit(BoolValue(false));
    ArithmeticVisit(BoolValue(true));
  }

  /** `X` names no type. */
  lemma UnknownCodeFails(bytes: Bytes)
    ensures VisitTag("X", bytes) == Failure(InvalidTag)
  {
    assert Complete("X");
  }

  /** The null alternative `0` is not a tag on its own. */
  lemma FreestandingNullFails(bytes: Bytes)
    ensures VisitTag("0", bytes) == Failure(InvalidTag)
  {
    assert Complete("0");
  }

  // ---------------------------------------------------------------------
  // The nesting bound: sequences

  function NestedSeq(k: nat): Tag {
    if k == 0 then Int32Tag else Sequence(NestedSeq(k - 1))
  }

  /** k nested sequences of one element each, around the int32 1. */
  function NestedSeqVal(k: nat): Val {
    if k == 0 then Int(1) else SeqVal([NestedSeqVal(k - 1)])
  }

  lemma {:induction false} NestedSeqTyped(k: nat)
    ensures WellFormed(NestedSeq(k)) && Typed(map[], NestedSeq(k), NestedSeqVal(k))
  {
    if k > 0 {
      NestedSeqTyped(k - 1);
    }
  }

  lemma {:induction false} NestedSeqValid(k: nat)
    ensures Valid(NestedSeqVal(k))
  {
    if k > 0 {
      NestedSeqValid(k - 1);
    }
  }

  lemma MaxDepthSingleton(x: Val)
    ensures MaxDepth([x]) == Depth(x)
  {
    assert [x][1..] == [];
  }

  lemma {:induction false} NestedSeqDepth(k: nat)
    ensures Depth(NestedSeqVal(k)) == k + 1
  {
    if k > 0 {
      NestedSeqDepth(k - 1);
      MaxDepthSingleton(NestedSeqVal(k - 1));
    }
  }

  lemma {:induction false} NestedSeqPrint(k: nat)
    ensures Print(NestedSeq(k)) == Chars('[', k) + "i"
    ensures Print(NestedSeq(k))[0] in {'[', 'i'}
  {
    if k > 0 {
      NestedSeqPrint(k - 1);
      assert Chars('[', k) + "i" == "[" + (Chars('[', k - 1) + "i");
    }
  }

  /** The count 1 of a one-element sequence is the int32 serialization of 1. */
  lemma SerializeSingleton(x: Val)
    ensures Serialize(SeqVal([x])) == EncodeInt(Int32, 1) + Serialize(x)
  {
    assert SerializeAll([x]) == Serialize(x) + SerializeAll([]);
  }

  lemma {:induction false} NestedSeqBytes(k: nat)
    ensures Serialize(NestedSeqVal(k)) == Int32s(1, k + 1)
  {
    if k > 0 {
      NestedSeqBytes(k - 1);
      SerializeSingleton(NestedSeqVal(k - 1));
    } else {
      assert Serialize(Int(1)) == EncodeInt(Int32, 1) + [];
    }
  }

  lemma {:induction false} NestedSeqEvents(k: nat)
    ensures |Events(map[], NestedSeq(k), NestedSeqVal(k))| == 2 * k + 1
  {
    if k > 0 {
      NestedSeqEvents(k - 1);
      var x := NestedSeqVal(k - 1);
      assert !EmptyVal(x);
      assert EventsEach(map[], NestedSeq(k - 1), [x]) == Events(map[], NestedSeq(k - 1), x) + [];
    }
  }

  /**
   * Fewer than 2048 nested sequence tags are visited: a begin and an end
   * event per level, and the int.
   */
  lemma NestedSequenceWithin(k: nat)
    requires k < MaxRecursion
    ensures var r := VisitTag(Chars('[', k) + "i", Int32s(1, k + 1));
      r.Success? && |r.value.events| == 2 * k + 1 && r.value.rest == []
  {
    NestedSeqTyped(k);
    NestedSeqValid(k);
    NestedSeqDepth(k);
    NestedSeqPrint(k);
    NestedSeqBytes(k);
    NestedSeqEvents(k);
    assert Serialize(NestedSeqVal(k)) + [] == Int32s(1, k + 1);
    VisitTagSerialized(map[], NestedSeq(k), NestedSeqVal(k), []);
  }

  /** A non-negative int32 serializes as the 32-bit count a sequence starts with. */
  lemma Count(n: nat)
    requires n < 0x8000_0000
    ensures EncodeInt(Int32, n) == LittleEndian(n, 4) && FromLittleEndian(EncodeInt(Int32, n)) == n
  {
    assert Pow256(4) == 0x1_0000_0000;
    ModSmall(n, 0x1_0000_0000);
    CountRoundTrip(n);
  }

  lemma {:induction false} NestedSeqFails(full: string, k: nat, budget: nat, rest: Bytes)
    requires 1 <= budget <= k
    ensures Visit(full, Print(NestedSeq(k)), Serialize(NestedSeqVal(k)) + rest, budget) == Failure(RecursionLimit)
    decreases budget
  {
    var x := NestedSeqVal(k - 1);
    if budget > 1 {
      NestedSeqFails(full, k - 1, budget - 1, rest);
    }
    NestedSeqPrint(k - 1);
    SerializeSingleton(x);
    AppendAssoc(EncodeInt(Int32, 1), Serialize(x), rest);
    Count(1);
    SequenceFails(full, Print(NestedSeq(k - 1)), EncodeInt(Int32, 1), Serialize(x) + rest, budget, RecursionLimit);
  }

  /** 2048 or more nested sequence tags exceed the nesting bound. */
  lemma NestedSequenceBeyond(k: nat)
    requires k >= MaxRecursion
    ensures VisitTag(Chars('[', k) + "i", Int32s(1, k + 1)) == Failure(RecursionLimit)
  {
    NestedSeqTyped(k);
    NestedSeqPrint(k);
    NestedSeqBytes(k);
    CompleteOfPrint(NestedSeq(k));
    NestedSeqFails(Print(NestedSeq(k)), k, MaxRecursion, []);
    assert Serialize(NestedSeqVal(k)) + [] == Int32s(1, k + 1);
  }

  // ---------------------------------------------------------------------
  // The nesting bound: tuples

  lemma CharsSnoc(c: char, n: nat)
    ensures Chars(c, n) + [c] == Chars(c, n + 1)
  {
    assert forall k | 0 <= k < n + 1 :: (Chars(c, n) + [c])[k] == c;
  }

  lemma PrintAllSingleton(t: Tag)
    ensures PrintAll([t]) == Print(t) && Prints([t]) == [Print(t)]
  {
    assert [t][1..] == [];
  }

  function NestedTuple(k: nat): Tag {
    if k == 0 then Int32Tag else Tuple([NestedTuple(k - 1)])
  }

  /** k nested one-component tuples around the int32 1. */
  function NestedTupleVal(k: nat): Val {
    if k == 0 then Int(1) else TupleVal([NestedTupleVal(k - 1)])
  }

  lemma {:induction false} NestedTupleTyped(k: nat)
    ensures WellFormed(NestedTuple(k)) && Typed(map[], NestedTuple(k), NestedTupleVal(k))
  {
    if k > 0 {
      NestedTupleTyped(k - 1);
    }
  }

  lemma {:induction false} NestedTupleValid(k: nat)
    ensures Valid(NestedTupleVal(k))
  {
    if k > 0 {
      NestedTupleValid(k - 1);
    }
  }

  lemma {:induction false} NestedTupleDepth(k: nat)
    ensures Depth(NestedTupleVal(k)) == k + 1
  {
    if k > 0 {
      NestedTupleDepth(k - 1);
      MaxDepthSingleton(NestedTupleVal(k - 1));
    }
  }

  lemma {:induction false} NestedTuplePrint(k: nat)
    ensures Print(NestedTuple(k)) == Chars('(', k) + "i" + Chars(')', k)
  {
    if k > 0 {
      NestedTuplePrint(k - 1);
      PrintAllSingleton(NestedTuple(k - 1));
      CharsSnoc(')', k - 1);
      var a, b := Chars('(', k - 1), Chars(')', k - 1);
      assert "(" + (a + "i" + b) + ")" == ("(" + a) + "i" + (b + ")");
    }
  }

  lemma {:induction false} NestedTupleBytes(k: nat)
    ensures Serialize(NestedTupleVal(k)) == EncodeInt(Int32, 1)
  {
    if k > 0 {
      NestedTupleBytes(k - 1);
      var x := NestedTupleVal(k - 1);
      assert SerializeAll([x]) == Serialize(x) + SerializeAll([]);
    }
  }

  lemma {:induction false} NestedTupleEvents(k: nat)
    ensures |Events(map[], NestedTuple(k), NestedTupleVal(k))| == 2 * k + 1
  {
    if k > 0 {
      NestedTupleEvents(k - 1);
      var t, x := NestedTuple(k - 1), NestedTupleVal(k - 1);
      assert EventsAll(map[], [t], [x]) == Events(map[], t, x) + EventsAll(map[], [], []);
    }
  }

  /** Fewer than 2048 nested tuple tags around one int32 are visited with two events per level. */
  lemma NestedTupleWithin(k: nat)
    requires k < MaxRecursion
    ensures var r := VisitTag(Chars('(', k) + "i" + Chars(')', k), EncodeInt(Int32, 1));
      r.Success? && |r.value.events| == 2 * k + 1 && r.value.rest == []
  {
    NestedTupleTyped(k);
    NestedTupleValid(k);
    NestedTupleDepth(k);
    NestedTuplePrint(k);
    NestedTupleBytes(k);
    NestedTupleEvents(k);
    assert Serialize(NestedTupleVal(k)) + [] == EncodeInt(Int32, 1);
    VisitTagSerialized(map[], NestedTuple(k), NestedTupleVal(k), []);
  }

  lemma {:induction false} NestedTupleFails(full: string, k: nat, bytes: Bytes, budget: nat)
    requires 1 <= budget <= k
    ensures Visit(full, Print(NestedTuple(k)), bytes, budget) == Failure(RecursionLimit)
    decreases budget
  {
    var t := NestedTuple(k - 1);
    if budget > 1 {
      NestedTupleFails(full, k - 1, bytes, budget - 1);
    }
    NestedTupleTyped(k - 1);
    PrintAllSingleton(t);
    BracketedPrint('(', [t], ')');
    TupleFails(full, PrintAll([t]), Prints([t]), bytes, budget, RecursionLimit);
  }

  /** 2048 or more nested tuple tags exceed the nesting bound. */
  lemma NestedTupleBeyond(k: nat)
    requires k >= MaxRecursion
    ensures VisitTag(Chars('(', k) + "i" + Chars(')', k), EncodeInt(Int32, 1)) == Failure(RecursionLimit)
  {
    NestedTupleTyped(k);
    NestedTuplePrint(k);
    CompleteOfPrint(NestedTuple(k));
    NestedTupleFails(Print(NestedTuple(k)), k, EncodeInt(Int32, 1), MaxRecursion);
  }

  // ---------------------------------------------------------------------
  // The nesting bound: variants

  /** n zero bytes. */
  function Zeros(n: nat): (bs: Bytes)
    ensures |bs| == n
  {
    if n == 0 then [] else [0] + Zeros(n - 1)
  }

  lemma ZerosCons(n: nat, rest: Bytes)
    ensures Zeros(n + 1) + rest == [0] + (Zeros(n) + rest)
  {
  }

  function NestedVariant(k: nat): Tag {
    if k == 0 then Arith(Integer(UInt8)) else Variant([NestedVariant(k - 1)])
  }

  /** k nested variants, each holding its first alternative, around the uint8 0. */
  function NestedVariantVal(k: nat): Val {
    if k == 0 then Scalar(IntValue(UInt8, 0)) else Alternative(0, NestedVariantVal(k - 1))
  }

  lemma {:induction false} NestedVariantTyped(k: nat)
    ensures WellFormed(NestedVariant(k)) && Typed(map[], NestedVariant(k), NestedVariantVal(k))
  {
    if k > 0 {
      NestedVariantTyped(k - 1);
    }
  }

  lemma {:induction false} NestedVariantValid(k: nat)
    ensures Valid(NestedVariantVal(k))
  {
    if k > 0 {
      NestedVariantValid(k - 1);
    }
  }

  lemma {:induction false} NestedVariantDepth(k: nat)
    ensures Depth(NestedVariantVal(k)) == k + 1
  {
    if k > 0 {
      NestedVariantDepth(k - 1);
    }
  }

  lemma {:induction false} NestedVariantPrint(k: nat)
    ensures Print(NestedVariant(k)) == Chars('<', k) + "B" + Chars('>', k)
    ensures Print(NestedVariant(k)) != "0"
  {
    if k > 0 {
      NestedVariantPrint(k - 1);
      PrintAllSingleton(NestedVariant(k - 1));
      CharsSnoc('>', k - 1);
      var a, b := Chars('<', k - 1), Chars('>', k - 1);
      assert "<" + (a + "B" + b) + ">" == ("<" + a) + "B" + (b + ">");
    }
  }

  lemma {:induction false} NestedVariantBytes(k: nat)
    ensures Serialize(NestedVariantVal(k)) == Zeros(k + 1)
  {
    if k > 0 {
      NestedVariantBytes(k - 1);
    } else {
      assert EncodeInt(UInt8, 0) == [0];
    }
  }

  lemma {:induction false} NestedVariantEvents(k: nat)
    ensures |Events(map[], NestedVariant(k), NestedVariantVal(k))| == 2 * k + 1
  {
    if k > 0 {
      NestedVariantEvents(k - 1);
    }
  }

  /** Fewer than 2048 nested variant tags, each discriminator 0, are visited with two events per level. */
  lemma NestedVariantWithin(k: nat)
    requires k < MaxRecursion
    ensures var r := VisitTag(Chars('<', k) + "B" + Chars('>', k), Zeros(k + 1));
      r.Success? && |r.value.events| == 2 * k + 1 && r.value.rest == []
  {
    NestedVariantTyped(k);
    NestedVariantValid(k);
    NestedVariantDepth(k);
    NestedVariantPrint(k);
    NestedVariantBytes(k);
    NestedVariantEvents(k);
    assert Serialize(NestedVariantVal(k)) + [] == Zeros(k + 1);
    VisitTagSerialized(map[], NestedVariant(k), NestedVariantVal(k), []);
  }

  lemma {:induction false} NestedVariantFails(full: string, k: nat, rest: Bytes, budget: nat)
    requires 1 <= budget <= k
    ensures Visit(full, Print(NestedVariant(k)), Zeros(k + 1) + rest, budget) == Failure(RecursionLimit)
    decreases budget
  {
    var t := NestedVariant(k - 1);
    if budget > 1 {
      NestedVariantFails(full, k - 1, rest, budget - 1);
    }
    NestedVariantTyped(k - 1);
    NestedVariantPrint(k - 1);
    PrintAllSingleton(t);
    BracketedPrint('<', [t], '>');
    ZerosCons(k, rest);
    VariantFails(full, PrintAll([t]), Prints([t]), 0, Zeros(k) + rest, budget, RecursionLimit);
  }

  /** 2048 or more nested variant tags exceed the nesting bound. */
  lemma NestedVariantBeyond(k: nat)
    requires k >= MaxRecursion
    ensures VisitTag(Chars('<', k) + "B" + Chars('>', k), Zeros(k + 1)) == Failure(RecursionLimit)
  {
    NestedVariantTyped(k);
    NestedVariantPrint(k);
    CompleteOfPrint(NestedVariant(k));
    NestedVariantFails(Print(NestedVariant(k)), k, [], MaxRecursion);
    assert Zeros(k + 1) + [] == Zeros(k + 1);
  }

  // ---------------------------------------------------------------------
  // A struct that contains itself

  /** The struct n whose only field f refers back to n, as in `{R`r'{R}}`. */
  function SelfReference(n: string, f: string): Tag {
    Struct(n, [FieldTag(f, Struct(n, []))])
  }

  lemma SelfReferencePrint()
    ensures Print(SelfReference("R", "r")) == "{R`r'{R}}"
  {
  }

  lemma SelfReferenceDef(n: string, f: string)
    requires Name(n) && Name(f)
    ensures var full, st := Print(SelfReference(n, f)), StructTag(n, PrintFields(SelfReference(n, f).fields), Parsed(SelfReference(n, f).fields));
      StructDef(full, full) == Some(st) && StructDef(full, Print(Struct(n, []))) == Some(st) &&
      |st.fields| == 1 && st.fields[0].tag == Print(Struct(n, []))
  {
    var fs := [FieldTag(f, Struct(n, []))];
    var full := Print(Struct(n, fs));
    assert WellFormed(Struct(n, []));
    ParseStructOfPrint(n, fs);
    FindOwnDefinition(n, fs, "");
    assert full[0..] == full + "";
    ResolvesAt(full, n, fs, 0, "");
  }

  /** Visiting n, or the reference {n} within it, never reaches a byte: the nesting bound stops it at every budget. */
  lemma {:induction false} SelfReferenceFails(n: string, f: string, bytes: Bytes, budget: nat)
    requires Name(n) && Name(f)
    ensures var full := Print(SelfReference(n, f));
      Visit(full, full, bytes, budget) == Failure(RecursionLimit) &&
      Visit(full, Print(Struct(n, [])), bytes, budget) == Failure(RecursionLimit)
    decreases budget
  {
    if budget > 0 {
      var t := SelfReference(n, f);
      var full, st := Print(t), StructTag(n, PrintFields(t.fields), Parsed(t.fields));
      SelfReferenceDef(n, f);
      SelfReferenceFails(n, f, bytes, budget - 1);
      StructFails(full, full, bytes, budget, st, RecursionLimit);
      StructFails(full, Print(Struct(n, [])), bytes, budget, st, RecursionLimit);
    }
  }

  /** So mserialize::visit rejects such a tag whatever the stream holds. */
  lemma SelfReferenceRejected(n: string, f: string, bytes: Bytes)
    requires Name(n) && Name(f)
    ensures VisitTag(Print(SelfReference(n, f)), bytes) == Failure(RecursionLimit)
  {
    SelfReferenceFails(n, f, bytes, MaxRecursion);
    assert WellFormed(Struct(n, []));
    CompleteOfPrint(SelfReference(n, f));
  }

  // ---------------------------------------------------------------------
  // Sequences of values of no bytes

  lemma {:induction false} MaxDepthConst(vs: seq<Val>, x: Val)
    requires |vs| > 0 && forall k | 0 <= k < |vs| :: vs[k] == x
    ensures MaxDepth(vs) == Depth(x)
  {
    if |vs| > 1 {
      assert forall k | 0 <= k < |vs[1..]| :: vs[1..][k] == x;
      MaxDepthConst(vs[1..], x);
    }
  }

  lemma ConstSeqTyped(env: Env, e: Tag, x: Val, n: nat)
    requires n < 0x1_0000_0000 && Typed(env, e, x) && Valid(x)
    ensures Typed(env, Sequence(e), SeqVal(seq(n, _ => x))) && Valid(SeqVal(seq(n, _ => x)))
  {
  }

  lemma ConstSeqBytes(x: Val, n: nat)
    requires EmptyVal(x)
    ensures Serialize(SeqVal(seq(n, _ => x))) == LittleEndian(n, 4) + []
  {
    NoBytesIffAllEmpty(seq(n, _ => x));
  }

  lemma ConstSeqEvents(env: Env, e: Tag, x: Val, n: nat)
    requires n > 0 && EmptyVal(x)
    ensures Events(env, Sequence(e), SeqVal(seq(n, _ => x))) ==
      [SequenceBegin(n, Print(e)), RepeatBegin(n, Print(e))] + Events(env, e, x) + [RepeatEnd(n, Print(e)), SequenceEnd]
  {
    assert seq(n, _ => x)[0] == x;
  }

  /**
   * A sequence of n > 0 copies of a value that serializes to no bytes is
   * visited as one repeat of that value: the events do not depend on n.
   */
  lemma RepeatCollapsed(env: Env, e: Tag, x: Val, n: nat, rest: Bytes)
    requires 0 < n < 0x1_0000_0000
    requires Resolves(Print(Sequence(e)), env) && WellFormed(e) && Typed(env, e, x) && Valid(x) && EmptyVal(x)
    requires Depth(x) < MaxRecursion
    ensures VisitTag(Print(Sequence(e)), LittleEndian(n, 4) + rest) ==
      Success(Visited([SequenceBegin(n, Print(e)), RepeatBegin(n, Print(e))] + Events(env, e, x) + [RepeatEnd(n, Print(e)), SequenceEnd], rest))
  {
    var v := SeqVal(seq(n, _ => x));
    MaxDepthConst(seq(n, _ => x), x);
    ConstSeqTyped(env, e, x, n);
    ConstSeqBytes(x, n);
    ConstSeqEvents(env, e, x, n);
    AppendAssoc(LittleEndian(n, 4), [], rest);
    VisitTagSerialized(env, Sequence(e), v, rest);
  }

  /** `{S`a'()`b'(()())}`: a struct of empty tuples. */
  function EmptyS(): Tag {
    Struct("S", [FieldTag("a", Tuple([])), FieldTag("b", Tuple([Tuple([]), Tuple([])]))])
  }

  function EmptySVal(): Val {
    Fields([TupleVal([]), TupleVal([TupleVal([]), TupleVal([])])])
  }

  lemma EmptySPrint()
    ensures Print(Sequence(EmptyS())) == "[{S`a'()`b'(()())}"
  {
    EmptySFieldsPrint();
    EmptySJoin();
  }

  lemma EmptySFieldsPrint()
    ensures PrintFields(EmptyS().fields) == "`a'()" + ("`b'(()())" + "")
  {
    var fa, fb := FieldTag("a", Tuple([])), FieldTag("b", Tuple([Tuple([]), Tuple([])]));
    assert EmptyS().fields == [fa] + [fb];
    assert ([fa] + [fb])[1..] == [fb] && [fb][1..] == [];
    assert Print(fa.tag) == "()";
    assert Print(fb.tag) == "(()())" by {
      assert [Tuple([]), Tuple([])][1..] == [Tuple([])];
    }
  }

  lemma EmptySJoin()
    ensures "[" + ("{" + "S" + ("`a'()" + ("`b'(()())" + "")) + "}") == "[{S`a'()`b'(()())}"
  {
  }

  /** A one-letter name. */
  lemma Letter(c: char)
    requires 'a' <= c <= 'z' || 'A' <= c <= 'Z'
    ensures Name([c])
  {
    PlainName([c]);
  }

  lemma EmptySWellFormed()
    ensures WellFormed(EmptyS())
  {
    Letter('S');
    Letter('a');
    Letter('b');
  }

  lemma EmptySTyped()
    ensures Typed(map[], EmptyS(), EmptySVal())
  {
  }

  lemma EmptySValid()
    ensures Valid(EmptySVal()) && EmptyVal(EmptySVal()) && Depth(EmptySVal()) == 3
  {
  }

  lemma EmptySEvents()
    ensures |Events(map[], EmptyS(), EmptySVal())| == 14
  {
  }

  /** n > 0 empty structs in a sequence are reported in 18 events, whatever n is. */
  lemma SequenceOfEmptyStruct(n: nat)
    requires 0 < n < 0x8000_0000
    ensures var r := VisitTag(Print(Sequence(EmptyS())), EncodeInt(Int32, n));
      r.Success? && |r.value.events| == 18 && r.value.rest == []
  {
    EmptySWellFormed();
    EmptySTyped();
    EmptySValid();
    EmptySEvents();
    Count(n);
    RepeatCollapsed(map[], EmptyS(), EmptySVal(), n, []);
    assert LittleEndian(n, 4) + [] == EncodeInt(Int32, n);
  }

  // ---------------------------------------------------------------------
  // A struct that holds a sequence of itself

  /** `{R`r'[{R}}`: a struct R whose field r is a sequence of R. */
  function SelfSeq(): Tag {
    Struct("R", SelfSeqFields())
  }

  function SelfSeqFields(): seq<FieldTag> {
    [FieldTag("r", Sequence(Struct("R", [])))]
  }

  function SelfSeqEnv(): Env {
    map["R" := SelfSeqFields()]
  }

  /** An R whose sequence holds vs. */
  function RVal(vs: seq<Val>): Val {
    Fields([SeqVal(vs)])
  }

  lemma SelfSeqPrint()
    ensures Print(Sequence(SelfSeq())) == "[{R`r'[{R}}"
  {
  }

  lemma SelfSeqWellFormed()
    ensures WellFormed(SelfSeq()) && WellFormed(Struct("R", []))
  {
    Letter('R');
    Letter('r');
  }

  /** The reference {R} in `[{R`r'[{R}}` finds the definition one character in. */
  lemma SelfSeqResolves()
    ensures Resolves(Print(Sequence(SelfSeq())), SelfSeqEnv())
  {
    var full := Print(Sequence(SelfSeq()));
    var pat := "{R`";
    SelfSeqWellFormed();
    SelfSeqPrint();
    SelfSeqFind(full);
    assert full[1..] == Print(SelfSeq()) + "";
    ResolvesAt(full, "R", SelfSeqFields(), 1, "");
  }

  lemma SelfSeqFind(full: string)
    requires full == "[{R`r'[{R}}"
    ensures Find(full, "{R`", 0) == Some(1)
  {
    assert full[0] == '[' && full[1] == '{' && full[2] == 'R' && full[3] == '`';
    assert full[1..4] == "{R`";
    FindNext(full, "{R`", 0);
  }

  /** A pattern absent at i and present just after is found just after. */
  lemma FindNext(s: string, pat: string, i: nat)
    requires |pat| > 0 && i + 1 + |pat| <= |s|
    requires s[i] != pat[0] && s[i + 1..i + 1 + |pat|] == pat
    ensures Find(s, pat, i) == Some(i + 1)
  {
    assert s[i..i + |pat|][0] == s[i];
  }

  lemma SelfSeqTyped(vs: seq<Val>)
    requires forall k | 0 <= k < |vs| :: Typed(SelfSeqEnv(), Struct("R", []), vs[k])
    ensures Typed(SelfSeqEnv(), Struct("R", []), RVal(vs)) && Typed(SelfSeqEnv(), SelfSeq(), RVal(vs))
  {
  }

  /** No R is a value of no bytes: its sequence carries a count. */
  lemma RValNotEmpty(vs: seq<Val>)
    ensures !EmptyVal(RVal(vs))
  {
    var f := [SeqVal(vs)];
    assert f[0] == SeqVal(vs) && !EmptyVal(f[0]);
  }

  lemma SelfSeqFieldEvents(vs: seq<Val>)
    requires forall k | 0 <= k < |vs| :: !EmptyVal(vs[k])
    ensures |EventsFields(SelfSeqEnv(), SelfSeqFields(), [SeqVal(vs)])| == 4 + |EventsEach(SelfSeqEnv(), Struct("R", []), vs)|
  {
    var env := SelfSeqEnv();
    var e := Sequence(Struct("R", []));
    assert EventsFields(env, SelfSeqFields(), [SeqVal(vs)]) ==
      [FieldBegin("r", Print(e))] + Events(env, e, SeqVal(vs)) + [FieldEnd] + EventsFields(env, [], []);
  }

  /** The events of an R: struct, field and sequence begin and end around those of vs. */
  lemma SelfSeqEvents(t: Tag, vs: seq<Val>)
    requires t == SelfSeq() || t == Struct("R", [])
    requires forall k | 0 <= k < |vs| :: !EmptyVal(vs[k])
    ensures |Events(SelfSeqEnv(), t, RVal(vs))| == 6 + |EventsEach(SelfSeqEnv(), Struct("R", []), vs)|
  {
    assert Def(SelfSeqEnv(), "R", t.fields) == SelfSeqFields();
    SelfSeqFieldEvents(vs);
  }

  function Empties(m: nat): seq<Val> {
    seq(m, _ => RVal([]))
  }

  lemma EmptiesNotEmpty(m: nat)
    ensures forall k | 0 <= k < m :: !EmptyVal(Empties(m)[k])
  {
    RValNotEmpty([]);
  }

  lemma {:induction false} EmptiesEvents(m: nat)
    ensures |EventsEach(SelfSeqEnv(), Struct("R", []), Empties(m))| == 6 * m
  {
    if m > 0 {
      assert Empties(m)[1..] == Empties(m - 1);
      EmptiesEvents(m - 1);
      SelfSeqEvents(Struct("R", []), []);
      assert EventsEach(SelfSeqEnv(), Struct("R", []), Empties(m)) ==
        Events(SelfSeqEnv(), Struct("R", []), RVal([])) + EventsEach(SelfSeqEnv(), Struct("R", []), Empties(m - 1));
    }
  }

  lemma {:induction false} EmptiesBytes(m: nat)
    ensures SerializeAll(Empties(m)) == Int32s(0, m)
  {
    if m > 0 {
      assert Empties(m)[1..] == Empties(m - 1);
      EmptiesBytes(m - 1);
      Count(0);
      assert Serialize(RVal([])) == LittleEndian(0, 4) + [] + [];
    }
  }

  /** One R holding m empty R's, in a sequence. */
  function SelfSeqVal(m: nat): Val {
    SeqVal([RVal(Empties(m))])
  }

  lemma SelfSeqValTyped(m: nat)
    requires m < 0x8000_0000
    ensures Typed(SelfSeqEnv(), Sequence(SelfSeq()), SelfSeqVal(m)) && Valid(SelfSeqVal(m))
  {
    SelfSeqTyped([]);
    SelfSeqTyped(Empties(m));
    assert Valid(RVal([]));
    assert forall k | 0 <= k < m :: Empties(m)[k] == RVal([]);
    assert Valid(SeqVal(Empties(m)));
  }

  lemma SelfSeqDepth(m: nat)
    ensures Depth(SelfSeqVal(m)) <= 5
  {
    MaxDepthSingleton(SeqVal([]));
    if m > 0 {
      MaxDepthConst(Empties(m), RVal([]));
    }
    MaxDepthSingleton(SeqVal(Empties(m)));
    MaxDepthSingleton(RVal(Empties(m)));
  }

  lemma SelfSeqValBytes(m: nat)
    requires m < 0x8000_0000
    ensures Serialize(SelfSeqVal(m)) + [] == EncodeInt(Int32, 1) + EncodeInt(Int32, m) + Int32s(0, m)
  {
    Count(1);
    Count(m);
    EmptiesBytes(m);
    SerializeSingleton(RVal(Empties(m)));
    SerializeFieldBytes(Empties(m));
  }

  lemma SerializeFieldBytes(vs: seq<Val>)
    ensures Serialize(RVal(vs)) == LittleEndian(|vs|, 4) + SerializeAll(vs)
  {
    var x := SeqVal(vs);
    FieldsBytes([x]);
    SerializeOne(x);
  }

  /** A structure serializes to its members' bytes. */
  lemma FieldsBytes(items: seq<Val>)
    ensures Serialize(Fields(items)) == SerializeAll(items)
  {
  }

  /** A single member serializes to its own bytes. */
  lemma SerializeOne(x: Val)
    ensures SerializeAll([x]) == Serialize(x)
  {
    assert [x][1..] == [];
    assert Serialize(x) + [] == Serialize(x);
  }

  /** An R holding m empty R's is reported in 8 + 6m events: 392 for m = 64. */
  lemma SequenceOfRecursiveStruct(m: nat)
    requires m < 0x8000_0000
    ensures var r := VisitTag(Print(Sequence(SelfSeq())), EncodeInt(Int32, 1) + EncodeInt(Int32, m) + Int32s(0, m));
      r.Success? && |r.value.events| == 8 + 6 * m && r.value.rest == []
  {
    SelfSeqWellFormed();
    SelfSeqResolves();
    SelfSeqValTyped(m);
    SelfSeqDepth(m);
    SelfSeqValBytes(m);
    SelfSeqCount(m);
    VisitTagSerialized(SelfSeqEnv(), Sequence(SelfSeq()), SelfSeqVal(m), []);
  }

  lemma SelfSeqCount(m: nat)
    ensures |Events(SelfSeqEnv(), Sequence(SelfSeq()), SelfSeqVal(m))| == 8 + 6 * m
  {
    EmptiesNotEmpty(m);
    SelfSeqEvents(SelfSeq(), Empties(m));
    EmptiesEvents(m);
    SelfSeqEventsOuter(m);
  }

  lemma SelfSeqEventsOuter(m: nat)
    ensures |Events(SelfSeqEnv(), Sequence(SelfSeq()), SelfSeqVal(m))| == 2 + |Events(SelfSeqEnv(), SelfSeq(), RVal(Empties(m)))|
  {
    var env, x := SelfSeqEnv(), RVal(Empties(m));
    RValNotEmpty(Empties(m));
    assert EventsEach(env, SelfSeq(), [x]) == Events(env, SelfSeq(), x) + [];
  }

  // ---------------------------------------------------------------------
  // A reference to a struct defined nowhere, such as `{FooBar`f'{Foo}}`

  /** The struct n whose only field f is a reference to the struct m. */
  function Holder(n: string, f: string, m: string): Tag {
    Struct(n, [FieldTag(f, Struct(m, []))])
  }

  lemma {:induction false} NoOccurrence(s: string, pat: string, i: nat)
    requires i <= |s|
    requires forall j: nat | i <= j :: !OccursAt(s, pat, j)
    ensures Find(s, pat, i) == None
    decreases |s| - i
  {
    if i + |pat| <= |s| {
      assert !OccursAt(s, pat, i);
      NoOccurrence(s, pat, i + 1);
    }
  }

  lemma HolderPrint(n: string, f: string, m: string)
    ensures Print(Holder(n, f, m)) == ("{" + n + "`" + f + "'") + ("{" + m + "}}")
  {
    assert PrintFields([FieldTag(f, Struct(m, []))]) == "`" + f + "'" + ("{" + m + "}") + "";
  }

  /** The slice of s at j differs from pat in position d. */
  lemma Mismatch(s: string, pat: string, j: nat, d: nat)
    requires j + |pat| <= |s| && d < |pat| && s[j + d] != pat[d]
    ensures s[j..j + |pat|] != pat
  {
    assert s[j..j + |pat|][d] == s[j + d];
  }

  /** Only the two braces that open a struct can start `{m``, and neither does when m differs from n. */
  lemma OtherReferenceUndefined(n: string, f: string, m: string)
    requires Name(n) && Name(f) && Name(m) && m != n
    ensures Find(Print(Holder(n, f, m)), "{" + m + "`", 0) == None
  {
    var a, b := "{" + n + "`" + f + "'", "{" + m + "}}";
    var s, pat := a + b, "{" + m + "`";
    HolderPrint(n, f, m);
    forall j: nat
      ensures !OccursAt(s, pat, j)
    {
      if j + |pat| <= |s| {
        OtherReferenceAt(n, f, m, j);
      }
    }
    NoOccurrence(s, pat, 0);
  }

  lemma OtherReferenceAt(n: string, f: string, m: string, j: nat)
    requires Name(n) && Name(f) && Name(m) && m != n
    requires j + |m| + 2 <= |n| + |f| + |m| + 6
    ensures var s := ("{" + n + "`" + f + "'") + ("{" + m + "}}"); s[j..j + |m| + 2] != "{" + m + "`"
  {
    var a, b := "{" + n + "`" + f + "'", "{" + m + "}}";
    var s, pat := a + b, "{" + m + "`";
    var p := |a|;
    assert |pat| == |m| + 2;
    if j == 0 {
      if |m| < |n| {
        assert s[|m| + 1] == n[|m|];
        Mismatch(s, pat, 0, |m| + 1);
      } else if |m| > |n| {
        assert s[|n| + 1] == '`' && pat[|n| + 1] == m[|n|];
        Mismatch(s, pat, 0, |n| + 1);
      } else {
        var k :| 0 <= k < |m| && m[k] != n[k];
        assert s[k + 1] == n[k] && pat[k + 1] == m[k];
        Mismatch(s, pat, 0, k + 1);
      }
    } else if j == p {
      assert s[p + |m| + 1] == '}';
      Mismatch(s, pat, j, |m| + 1);
    } else if j < p {
      assert s[j] == a[j];
      Mismatch(s, pat, j, 0);
    } else {
      assert s[j] == b[j - p];
      Mismatch(s, pat, j, 0);
    }
  }

  lemma HolderResolves(n: string, f: string, m: string)
    requires Name(n) && Name(f) && Name(m) && m != n
    ensures Resolves(Print(Holder(n, f, m)), map[m := []])
  {
    OtherReferenceUndefined(n, f, m);
    ParseStructOfPrint(m, []);
  }

  lemma HolderEvents(n: string, f: string, m: string)
    ensures Events(map[m := []], Holder(n, f, m), Fields([Fields([])])) ==
      [StructBegin(n, "`" + f + "'{" + m + "}"), FieldBegin(f, "{" + m + "}"), StructBegin(m, ""), StructEnd, FieldEnd, StructEnd]
  {
    var env, fs := map[m := []], [FieldTag(f, Struct(m, []))];
    assert Print(Struct(m, [])) == "{" + m + "}";
    var inner := [StructBegin(m, ""), StructEnd];
    assert Events(env, Struct(m, []), Fields([])) == [StructBegin(m, "")] + [] + [StructEnd] == inner;
    var fe := [FieldBegin(f, "{" + m + "}")] + inner + [FieldEnd];
    assert EventsFields(env, fs, [Fields([])]) == fe + EventsFields(env, [], []) == fe;
    assert PrintFields(fs) == "`" + f + "'" + ("{" + m + "}") + "";
    var text := "`" + f + "'{" + m + "}";
    assert "`" + f + "'" + ("{" + m + "}") + "" == text by {
      assert forall k | 0 <= k < |text| :: ("`" + f + "'" + ("{" + m + "}") + "")[k] == text[k];
    }
    assert Def(env, n, fs) == fs;
    assert Events(env, Holder(n, f, m), Fields([Fields([])])) == [StructBegin(n, text)] + fe + [StructEnd];
  }

  lemma HolderTyped(n: string, f: string, m: string)
    requires Name(n) && Name(f) && Name(m)
    ensures WellFormed(Holder(n, f, m)) && Typed(map[m := []], Holder(n, f, m), Fields([Fields([])]))
  {
    var env := map[m := []];
    assert Typed(env, Struct(m, []), Fields([]));
  }

  lemma HolderValue()
    ensures Valid(Fields([Fields([])])) && Depth(Fields([Fields([])])) == 2
    ensures Serialize(Fields([Fields([])])) == [] && forall rest: Bytes :: Serialize(Fields([Fields([])])) + rest == rest
  {
    MaxDepthSingleton(Fields([]));
    assert Serialize(Fields([Fields([])])) == [] + [];
  }

  /**
   * A reference to a struct the tag defines nowhere is an empty struct, even
   * when its name is a prefix of the containing struct's name: no bytes are read.
   */
  lemma UndefinedReferenceIsEmpty(n: string, f: string, m: string, rest: Bytes)
    requires Name(n) && Name(f) && Name(m) && m != n
    ensures VisitTag(Print(Holder(n, f, m)), rest) == Success(Visited([
      StructBegin(n, "`" + f + "'{" + m + "}"), FieldBegin(f, "{" + m + "}"), StructBegin(m, ""), StructEnd, FieldEnd, StructEnd], rest))
  {
    var v := Fields([Fields([])]);
    HolderResolves(n, f, m);
    HolderTyped(n, f, m);
    HolderEvents(n, f, m);
    HolderValue();
    VisitTagSerialized(map[m := []], Holder(n, f, m), v, rest);
  }

  /** The test's `{FooBar`f'{Foo}}` is such a tag: Foo is a prefix of FooBar but not FooBar. */
  lemma FooBarHolder()
    ensures Name("FooBar") && Name("f") && Name("Foo") && "Foo" != "FooBar"
    ensures Print(Holder("FooBar", "f", "Foo")) == "{FooBar`f'{Foo}}"
  {
    PlainName("FooBar");
    PlainName("f");
    PlainName("Foo");
  }
}
