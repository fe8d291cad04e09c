/**
 * The visitors the engine's own tests drive: ToString writes a line of text
 * per event, CountingVisitor counts events and StoreT keeps the one value of
 * the type it expects.  serialize_and_visit serializes a value, visits the
 * bytes with the value's tag and returns what the visitor collected.
 */
module ReferenceVisitors {
  import opened Wrappers
  import opened Bytes
  import opened Text
  import opened Tags
  import opened Grammar
  import opened Engine
  import opened Serialization
  import opened VisitCorrect
  import opened VisitScenarios

  // ---------------------------------------------------------------------
  // ToString

  /** A scalar as the stream shows it: bool as true/false, char as itself, every integer (int8 and uint8 too) in decimal. */
  function ValueText(x: Value): string {
    match x
    case BoolValue(b) => if b then "true" else "false"
    case CharValue(c) => [c]
    case IntValue(_, i) => Decimal(i)
  }

  /** What ToString writes for one event. */
  function EventText(e: Event): string {
    match e
    case Prim(x) => ValueText(x) + " "
    case SequenceBegin(n, t) => "SB(" + Decimal(n) + "," + t + ")[ "
    case SequenceEnd => "] "
    case TupleBegin(t) => "TB(" + t + ")( "
    case TupleEnd => ") "
    case VariantBegin(d, t) => "VB(" + Decimal(d) + "," + t + ")< "
    case VariantEnd => "> "
    case Null => "{null} "
    case EnumValue(name, enumerator, code, hex) => "E(" + name + "::" + enumerator + "," + [code] + ",0x" + hex + ") "
    case StructBegin(n, t) => "StB(" + n + "," + t + ") { "
    case StructEnd => "} "
    case FieldBegin(n, t) => n + "(" + t + "): "
    case FieldEnd => ", "
    case RepeatBegin(n, t) => "RB(" + Decimal(n) + "," + t + ")( "
    case RepeatEnd(_, _) => ") "
  }

  /** The text of an event stream: the text of each event, in order. */
  function Written(es: seq<Event>): string {
    if |es| == 0 then "" else EventText(es[0]) + Written(es[1..])
  }

  /** The text of two streams delivered one after the other is the one text followed by the other. */
  lemma {:induction false} WrittenAppend(a: seq<Event>, b: seq<Event>)
    ensures Written(a + b) == Written(a) + Written(b)
  {
    if |a| == 0 {
      assert a + b == b;
    } else {
      assert (a + b)[1..] == a[1..] + b;
      WrittenAppend(a[1..], b);
    }
  }

  lemma WrittenOne(e: Event)
    ensures Written([e]) == EventText(e)
  {
    assert [e][1..] == [];
  }

  lemma WrittenPrefix(es: seq<Event>, i: nat)
    requires i < |es|
    ensures Written(es[..i + 1]) == Written(es[..i]) + EventText(es[i])
  {
    assert es[..i + 1] == es[..i] + [es[i]];
    WrittenAppend(es[..i], [es[i]]);
    assert Written([es[i]]) == EventText(es[i]) + Written([]);
  }

  lemma TextAssoc(a: string, b: string, c: string)
    ensures (a + b) + c == a + (b + c)
  {
  }

  lemma NoPrefix(w: string)
    ensures "" + w == w
  {
  }

  lemma WrittenWhole(es: seq<Event>)
    ensures Written(es[..|es|]) == Written(es)
  {
    assert es[..|es|] == es;
  }

  class ToString {
    var str: string

    constructor ()
      ensures str == ""
    {
      str := "";
    }

    /** One visit overload: append the event's text. */
    method Visit(e: Event)
      modifies this
      ensures str == old(str) + EventText(e)
    {
      str := str + EventText(e);
    }

    /** The engine delivering es, in order. */
    method VisitEach(es: seq<Event>)
      modifies this
      ensures str == old(str) + Written(es)
    {
      var i := 0;
      while i < |es|
        invariant 0 <= i <= |es|
        invariant str == old(str) + Written(es[..i])
      {
        WrittenPrefix(es, i);
        TextAssoc(old(str), Written(es[..i]), EventText(es[i]));
        Visit(es[i]);
        i := i + 1;
      }
      WrittenWhole(es);
    }
  }

  // ---------------------------------------------------------------------
  // CountingVisitor

  class CountingVisitor {
    var count: int

    constructor ()
      ensures count == 0
    {
      count := 0;
    }

    /** Every overload counts one event. */
    method Visit(e: Event)
      modifies this
      ensures count == old(count) + 1
    {
      count := count + 1;
    }

    method VisitEach(es: seq<Event>)
      modifies this
      ensures count == old(count) + |es|
    {
      var i := 0;
      while i < |es|
        invariant 0 <= i <= |es|
        invariant count == old(count) + i
      {
        Visit(es[i]);
        i := i + 1;
      }
    }
  }

  // ---------------------------------------------------------------------
  // StoreT<T>

  /** The value `T _value = {}` starts with. */
  function Zero(a: Arithmetic): Value {
    match a
    case BoolType => BoolValue(false)
    case CharType => CharValue(0 as Char8)
    case Integer(t) => IntValue(t, 0)
  }

  /** An event the visit(T) overload takes: a scalar of the expected type. */
  predicate Expected(expected: Arithmetic, e: Event) {
    e.Prim? && e.value.Type() == expected
  }

  /**
   * StoreT<T>: keeps the single T it is visited with.  failed records a
   * failed test assertion: a second T, any other callback, or asking for the
   * value before a visit.
   */
  class Store {
    const expected: Arithmetic
    var value: Value
    var hasVisit: bool
    var failed: bool

    constructor (expected: Arithmetic)
      ensures this.expected == expected && value == Zero(expected) && !hasVisit && !failed
    {
      this.expected := expected;
      value := Zero(expected);
      hasVisit := false;
      failed := false;
    }

    method Visit(e: Event)
      modifies this
      ensures Expected(expected, e) ==> value == e.value && hasVisit && failed == (old(failed) || old(hasVisit))
      ensures !Expected(expected, e) ==> value == old(value) && hasVisit == old(hasVisit) && failed
    {
      if Expected(expected, e) {
        if hasVisit {
          failed := true;
        }
        hasVisit := true;
        value := e.value;
      } else {
        failed := true;
      }
    }

    /** value(): the stored value, or None when a test assertion failed on the way. */
    function Result(): (r: Option<Value>)
      reads this
      ensures r.Some? <==> hasVisit && !failed
      ensures r.Some? ==> r.value == value
    {
      if hasVisit && !failed then Some(value) else None
    }

    /** A fresh store visited with es keeps a value exactly when es is that one scalar. */
    method VisitEach(es: seq<Event>)
      requires !hasVisit && !failed
      modifies this
      ensures Result() == if |es| == 1 && Expected(expected, es[0]) then Some(es[0].value) else None
    {
      var i := 0;
      while i < |es|
        invariant 0 <= i <= |es|
        invariant i == 0 ==> !hasVisit && !failed
        invariant i == 1 ==> (failed <==> !Expected(expected, es[0])) && (!failed ==> hasVisit && value == es[0].value)
        invariant i >= 2 ==> failed
      {
        Visit(es[i]);
        i := i + 1;
      }
    }
  }

  // ---------------------------------------------------------------------
  // serialize_and_visit and the tests' own visit calls

  /** The hypotheses under which the visit of v's serialization reports Events(env, t, v). */
  predicate Serializable(env: Env, t: Tag, v: Val) {
    Resolves(Print(t), env) && WellFormed(t) && Typed(env, t, v) && Valid(v) && Depth(v) <= MaxRecursion
  }

  lemma SerializedAlone(env: Env, t: Tag, v: Val)
    requires Serializable(env, t, v)
    ensures VisitTag(Print(t), Serialize(v)) == Success(Visited(Events(env, t, v), []))
  {
    assert Serialize(v) + [] == Serialize(v);
    VisitTagSerialized(env, t, v, []);
  }

  /** mserialize::visit(tag, ToString, stream) and the text it leaves, or the error it throws. */
  method VisitAndShow(tag: string, bytes: Bytes) returns (r: Result<string, Error>)
    ensures var x := VisitTag(tag, bytes);
      if x.Success? then r == Success(Written(x.value.events)) else r == Failure(x.error)
  {
    var x := VisitTag(tag, bytes);
    if x.Success? {
      var visitor := new ToString();
      visitor.VisitEach(x.value.events);
      NoPrefix(Written(x.value.events));
      r := Success(visitor.str);
    } else {
      r := Failure(x.error);
    }
  }

  /** serialize_and_visit<ToString>: serialize v, visit the bytes with its tag, return the text. */
  method SerializeAndShow(env: Env, t: Tag, v: Val) returns (r: Result<string, Error>)
    ensures var x := VisitTag(Print(t), Serialize(v));
      if x.Success? then r == Success(Written(x.value.events)) else r == Failure(x.error)
    ensures Serializable(env, t, v) ==> r == Success(Written(Events(env, t, v)))
  {
    r := VisitAndShow(Print(t), Serialize(v));
    if Serializable(env, t, v) {
      SerializedAlone(env, t, v);
    }
  }

  /** serialize_and_visit<StoreT<T>>: the scalar read back from its own serialization. */
  method SerializeAndStore(x: Value) returns (r: Option<Value>)
    ensures x.Valid() ==> r == Some(x)
  {
    var bytes := EncodeValue(x);
    var visited := VisitTag([Code(x.Type())], bytes);
    if visited.Success? {
      var store := new Store(x.Type());
      store.VisitEach(visited.value.events);
      r := store.Result();
    } else {
      r := None;
    }
    if x.Valid() {
      ArithmeticVisit(x);
    }
  }

  /** A min/max round trip of the arithmetic test: what is stored equals what was serialized. */
  method ArithmeticLimits(t: IntType) returns (min: Option<Value>, max: Option<Value>)
    ensures min == Some(IntValue(t, t.Min())) && max == Some(IntValue(t, t.Max()))
  {
    min := SerializeAndStore(IntValue(t, t.Min()));
    max := SerializeAndStore(IntValue(t, t.Max()));
  }

  /** mserialize::visit(tag, CountingVisitor, stream) and the count it leaves, or the error it throws. */
  method CountEvents(tag: string, bytes: Bytes) returns (r: Result<int, Error>)
    ensures var x := VisitTag(tag, bytes);
      if x.Success? then r == Success(|x.value.events|) else r == Failure(x.error)
  {
    var x := VisitTag(tag, bytes);
    if x.Success? {
      var visitor := new CountingVisitor();
      visitor.VisitEach(x.value.events);
      r := Success(visitor.count);
    } else {
      r := Failure(x.error);
    }
  }

  /** n copies of chunk, one after the other. */
  function Copies(chunk: Bytes, n: nat): Bytes {
    if n == 0 then [] else chunk + Copies(chunk, n - 1)
  }

  lemma {:induction false} CopiesSnoc(chunk: Bytes, n: nat)
    ensures Copies(chunk, n) + chunk == Copies(chunk, n + 1)
  {
    if n == 0 {
      assert Copies(chunk, 0) + chunk == chunk;
      assert Copies(chunk, 1) == chunk + [];
    } else {
      CopiesSnoc(chunk, n - 1);
      AppendAssoc(chunk, Copies(chunk, n - 1), chunk);
    }
  }

  /** The tests' `for (...) mserialize::serialize(x, stream);` loops: x serialized n times. */
  method SerializeTimes(x: Value, n: nat) returns (stream: Bytes)
    ensures stream == Copies(EncodeValue(x), n)
  {
    stream := [];
    var i := 0;
    while i < n
      invariant 0 <= i <= n
      invariant stream == Copies(EncodeValue(x), i)
    {
      CopiesSnoc(EncodeValue(x), i);
      stream := stream + EncodeValue(x);
      i := i + 1;
    }
  }

  lemma {:induction false} Int32sCopies(i: int, n: nat)
    ensures Copies(EncodeValue(IntValue(Int32, i)), n) == Int32s(i, n)
  {
    if n > 0 {
      Int32sCopies(i, n - 1);
    }
  }

  lemma {:induction false} ZerosCopies(n: nat)
    ensures Copies(EncodeValue(IntValue(UInt8, 0)), n) == Zeros(n)
  {
    if n > 0 {
      ZerosCopies(n - 1);
      assert EncodeValue(IntValue(UInt8, 0)) == [0];
    }
  }

  /** deeply_nested_seq_tag with k levels: k '[' and an int, and k + 1 int32 ones. */
  method DeeplyNestedSequence(k: nat) returns (r: Result<int, Error>)
    ensures k < MaxRecursion ==> r == Success(2 * k + 1)
    ensures k >= MaxRecursion ==> r == Failure(RecursionLimit)
  {
    var tag := Chars('[', k) + "i";
    var stream := SerializeTimes(IntValue(Int32, 1), k + 1);
    Int32sCopies(1, k + 1);
    r := CountEvents(tag, stream);
    if k < MaxRecursion {
      NestedSequenceWithin(k);
    } else {
      NestedSequenceBeyond(k);
    }
  }

  /** deeply_nested_tuple_tag with k levels: k '(' around an int, and one int32. */
  method DeeplyNestedTuple(k: nat) returns (r: Result<int, Error>)
    ensures k < MaxRecursion ==> r == Success(2 * k + 1)
    ensures k >= MaxRecursion ==> r == Failure(RecursionLimit)
  {
    var tag := Chars('(', k) + "i" + Chars(')', k);
    var stream := EncodeValue(IntValue(Int32, 1));
    r := CountEvents(tag, stream);
    if k < MaxRecursion {
      NestedTupleWithin(k);
    } else {
      NestedTupleBeyond(k);
    }
  }

  /** deeply_nested_variant_tag with k levels: k '<' around a uint8, and k + 1 zero bytes. */
  method DeeplyNestedVariant(k: nat) returns (r: Result<int, Error>)
    ensures k < MaxRecursion ==> r == Success(2 * k + 1)
    ensures k >= MaxRecursion ==> r == Failure(RecursionLimit)
  {
    var tag := Chars('<', k) + "B" + Chars('>', k);
    var stream := SerializeTimes(IntValue(UInt8, 0), k + 1);
    ZerosCopies(k + 1);
    r := CountEvents(tag, stream);
    if k < MaxRecursion {
      NestedVariantWithin(k);
    } else {
      NestedVariantBeyond(k);
    }
  }

  /** seq_of_recursive_struct: one R holding m empty R's; 64 of them give 392 events. */
  method SequenceOfRecursiveStructCount(m: nat) returns (r: Result<int, Error>)
    requires m < 0x8000_0000
    ensures r == Success(8 + 6 * m)
    ensures m == 64 ==> r == Success(392)
  {
    var head := EncodeValue(IntValue(Int32, 1)) + EncodeValue(IntValue(Int32, m));
    var zeros := SerializeTimes(IntValue(Int32, 0), m);
    Int32sCopies(0, m);
    SelfSeqPrint();
    r := CountEvents("[{R`r'[{R}}", head + zeros);
    SequenceOfRecursiveStruct(m);
  }

  /** seq_of_empty_struct: n elements of an empty struct are reported once, as a repeat of 18 events. */
  method SequenceOfEmptyStructCount(n: nat) returns (r: Result<int, Error>)
    requires 0 < n < 0x8000_0000
    ensures r == Success(18)
  {
    EmptySPrint();
    r := CountEvents("[{S`a'()`b'(()())}", EncodeValue(IntValue(Int32, n)));
    SequenceOfEmptyStruct(n);
  }

  /** infinite_recursive_struct and no_freestanding_null: both tags are rejected whatever the stream holds. */
  method RejectedTags(bytes: Bytes) returns (recursive: Result<int, Error>, nullTag: Result<int, Error>, unknown: Result<int, Error>)
    ensures recursive == Failure(RecursionLimit) && nullTag == Failure(InvalidTag) && unknown == Failure(InvalidTag)
  {
    SelfReferencePrint();
    SelfReferenceRejected("R", "r", bytes);
    recursive := CountEvents("{R`r'{R}}", bytes);
    FreestandingNullFails(bytes);
    nullTag := CountEvents("0", bytes);
    UnknownCodeFails(bytes);
    unknown := CountEvents("X", bytes);
  }
}
