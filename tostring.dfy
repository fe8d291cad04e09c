/**
 * binlog::ToStringVisitor: a visitor of the mserialize visit engine that
 * writes a human readable text of the visited value. Its fields are the
 * comma state (`Normal`, `SeqBegin`, `Seq`), the depth of open sequences,
 * tuples and structures, the "empty structure" flag and the output.
 *
 * The module has three layers:
 *   - the visitor's fields as a value (`Printer`) and one call of it as a
 *     function (`Step`, `Run`);
 *   - the `ToStringVisitor` class, whose methods update the fields in place
 *     and are proved to agree with `Step`;
 *   - a description of the visited value (`Doc`), the events the engine
 *     produces for it (`Flatten`) and the text it should give (`Pretty`),
 *     with the theorem that running the visitor on those events writes
 *     exactly that text.
 */
module BinlogToString {
  import opened Bytes
  import opened Text
  import opened Engine
  import opened ReferenceVisitors

  /** In sequences, tuples and structures: is a comma due before the next element? */
  datatype State = Normal | SeqBegin | Seq

  /** The fields of a ToStringVisitor. */
  datatype Printer = Printer(state: State, seqDepth: int, emptyStruct: bool, out: string)

  /** What a call leaves: the new fields, the input not consumed, and whether it threw. */
  datatype Outcome = Outcome(printer: Printer, rest: string, thrown: bool)

  /** What a freshly constructed visitor holds. */
  const Fresh: Printer := Printer(Normal, 0, false, "")

  /** The text that `comma()` writes in a state. */
  function CommaText(s: State): string {
    if s == Seq then ", " else ""
  }

  /** The state `comma()` leaves: inside a sequence, a comma is due from now on. */
  function CommaState(s: State): State {
    if s == Normal then Normal else Seq
  }

  /** `comma()`: a comma between elements, none before the first one. */
  function AfterComma(p: Printer): (q: Printer)
    ensures q.out == p.out + CommaText(p.state)
    ensures q.state == (if p.state == Normal then Normal else Seq)
    ensures q.seqDepth == p.seqDepth && q.emptyStruct == p.emptyStruct
  {
    match p.state
    case Seq => p.(out := p.out + ", ")
    case SeqBegin => p.(state := Seq)
    case Normal => p
  }

  /** `enterSeq()`. */
  function Entered(p: Printer): Printer {
    p.(state := SeqBegin, seqDepth := p.seqDepth + 1)
  }

  /** `leaveSeq()`: back to `Normal` only when the outermost sequence closes. */
  function Left(p: Printer): Printer {
    var d := p.seqDepth - 1;
    p.(state := if d != 0 then Seq else Normal, seqDepth := d)
  }

  /** Writes s to the output. */
  function Put(p: Printer, s: string): Printer {
    p.(out := p.out + s)
  }

  /** Where the template arguments of a structure name start, searching from i: its first '<', or its end. */
  function TemplateStart(name: string, i: nat): (j: nat)
    requires i <= |name|
    ensures i <= j <= |name|
    decreases |name| - i
  {
    if i == |name| || name[i] == '<' then i else TemplateStart(name, i + 1)
  }

  /** The part of a structure name before its template arguments. */
  function BeforeTemplate(name: string): string {
    name[..TemplateStart(name, 0)]
  }

  /** TemplateStart finds the first '<' from i on, if there is one. */
  lemma {:induction false} TemplateStartIsFirst(name: string, i: nat)
    requires i <= |name|
    ensures var j := TemplateStart(name, i);
      (forall k | i <= k < j :: name[k] != '<') && (j < |name| ==> name[j] == '<')
    decreases |name| - i
  {
    if i < |name| && name[i] != '<' {
      TemplateStartIsFirst(name, i + 1);
    }
  }

  /** BeforeTemplate keeps the name up to its first '<', or all of it if there is none. */
  lemma BeforeTemplateIsPrefix(name: string)
    ensures var r := BeforeTemplate(name);
      r <= name && '<' !in r && (|r| < |name| ==> name[|r|] == '<')
  {
    TemplateStartIsFirst(name, 0);
    var r := BeforeTemplate(name);
    assert forall k | 0 <= k < |r| :: r[k] == name[k];
  }

  /** An enumerator's name, or its value in hexadecimal if it has none. */
  function EnumeratorText(enumerator: string, hex: string): string {
    if |enumerator| == 0 then "0x" + hex else enumerator
  }

  /** What a field writes before its value: its name, unless it has none. */
  function Label(name: string): string {
    if |name| == 0 then "" else name + ": "
  }

  /** What the end of a repetition writes. */
  function RepeatText(n: nat): string {
    if n > 1 then " ... <repeats " + Decimal(n) + " times>" else ""
  }

  /** One call of the visitor on an event, with the input that follows it. */
  function Step(p: Printer, e: Event, input: string): Outcome {
    match e
    case Prim(x) => Outcome(Put(AfterComma(p), ValueText(x)), input, false)
    case SequenceBegin(n, t) =>
      if t == "c" then
        if n <= |input| then Outcome(Put(AfterComma(p), input[..n]), input[n..], false)
        else Outcome(AfterComma(p), input, true)
      else Outcome(Entered(Put(AfterComma(p), "[")), input, false)
    case SequenceEnd => Outcome(Left(Put(p, "]")), input, false)
    case TupleBegin(_) => Outcome(Entered(Put(AfterComma(p), "(")), input, false)
    case TupleEnd => Outcome(Left(Put(p, ")")), input, false)
    case VariantBegin(_, _) => Outcome(p, input, false)
    case VariantEnd => Outcome(p, input, false)
    case Null => Outcome(Put(AfterComma(p), "{null}"), input, false)
    case EnumValue(_, en, _, hex) => Outcome(Put(AfterComma(p), EnumeratorText(en, hex)), input, false)
    case StructBegin(n, t) =>
      var q := Put(AfterComma(p), BeforeTemplate(n));
      if |t| == 0 then Outcome(q.(emptyStruct := true), input, false)
      else Outcome(Entered(Put(q, "{ ")), input, false)
    case StructEnd =>
      if p.emptyStruct then Outcome(p.(emptyStruct := false), input, false)
      else Outcome(Left(Put(p, " }")), input, false)
    case FieldBegin(n, _) => Outcome(Put(AfterComma(p), Label(n)).(state := Normal), input, false)
    case FieldEnd => Outcome(p.(state := Seq), input, false)
    case RepeatBegin(_, _) => Outcome(p, input, false)
    case RepeatEnd(n, _) => Outcome(Put(p, RepeatText(n)), input, false)
  }

  /** Whether the visitor takes a sequence itself rather than asking for its elements. */
  function Takes(e: Event): bool {
    e.SequenceBegin? && e.tag == "c"
  }

  /** A run of calls, stopping at the first that throws. */
  function Run(p: Printer, es: seq<Event>, input: string): Outcome
    decreases |es|
  {
    if |es| == 0 then Outcome(p, input, false)
    else
      var o := Step(p, es[0], input);
      if o.thrown then o else Run(o.printer, es[1..], o.rest)
  }

  /** Only a taken character sequence consumes input, and only it can throw. */
  lemma StepInput(p: Printer, e: Event, input: string)
    ensures var o := Step(p, e, input);
      (!Takes(e) ==> o.rest == input && !o.thrown) &&
      (Takes(e) ==> (o.thrown <==> e.size > |input|) &&
                    (!o.thrown ==> input == input[..e.size] + o.rest && o.printer.out == p.out + CommaText(p.state) + input[..e.size]))
  {
  }

  lemma StepExtends(p: Printer, e: Event, input: string)
    ensures p.out <= Step(p, e, input).printer.out
  {
  }

  /** The output only grows: no call takes back what was written. */
  lemma {:induction false} RunExtends(p: Printer, es: seq<Event>, input: string)
    ensures p.out <= Run(p, es, input).printer.out
    decreases |es|
  {
    if |es| > 0 {
      var o := Step(p, es[0], input);
      StepExtends(p, es[0], input);
      if !o.thrown {
        RunExtends(o.printer, es[1..], o.rest);
      }
    }
  }

  /** Running two stretches of events runs the first, then the second from where it left off. */
  lemma {:induction false} RunAppend(p: Printer, a: seq<Event>, b: seq<Event>, input: string)
    ensures var o := Run(p, a, input);
      Run(p, a + b, input) == (if o.thrown then o else Run(o.printer, b, o.rest))
    decreases |a|
  {
    if |a| == 0 {
      assert a + b == b;
    } else {
      assert (a + b)[0] == a[0];
      assert (a + b)[1..] == a[1..] + b;
      var o := Step(p, a[0], input);
      if !o.thrown {
        RunAppend(o.printer, a[1..], b, o.rest);
      }
    }
  }

  lemma RunOne(p: Printer, e: Event, input: string)
    ensures var o := Step(p, e, input);
      Run(p, [e], input) == Outcome(o.printer, o.rest, o.thrown)
  {
    var o := Step(p, e, input);
    if !o.thrown {
      assert [e][1..] == [];
    }
  }

  /**
   * binlog::ToStringVisitor. Each visit method updates the fields as
   * `Step` says for the corresponding event.
   */
  class ToStringVisitor {
    var state: State
    var seqDepth: int
    var emptyStruct: bool
    var out: string

    /** The fields as a value. */
    function Snapshot(): Printer
      reads this
    {
      Printer(state, seqDepth, emptyStruct, out)
    }

    constructor()
      ensures Snapshot() == Fresh
    {
      state := Normal;
      seqDepth := 0;
      emptyStruct := false;
      out := "";
    }

    method Comma()
      modifies this
      ensures out == old(out) + CommaText(old(state)) && state == CommaState(old(state))
      ensures seqDepth == old(seqDepth) && emptyStruct == old(emptyStruct)
    {
      if state == Seq {
        out := out + ", ";
      } else if state == SeqBegin {
        state := Seq;
      }
    }

    method EnterSeq()
      modifies this
      ensures state == SeqBegin && seqDepth == old(seqDepth) + 1
      ensures out == old(out) && emptyStruct == old(emptyStruct)
    {
      state := SeqBegin;
      seqDepth := seqDepth + 1;
    }

    method LeaveSeq()
      modifies this
      ensures seqDepth == old(seqDepth) - 1 && state == (if seqDepth != 0 then Seq else Normal)
      ensures out == old(out) && emptyStruct == old(emptyStruct)
    {
      seqDepth := seqDepth - 1;
      state := if seqDepth != 0 then Seq else Normal;
    }

    /** The catch-all for arithmetic values and the int8_t/uint8_t overloads, which write numbers. */
    method VisitValue(x: Value)
      modifies this
      ensures out == old(out) + CommaText(old(state)) + ValueText(x) && state == CommaState(old(state))
      ensures seqDepth == old(seqDepth) && emptyStruct == old(emptyStruct)
    {
      Comma();
      out := out + ValueText(x);
    }

    /**
     * Takes a sequence of characters from the input and writes it; a
     * short input throws. Any other sequence is declined and opened.
     */
    method SequenceBegin(size: nat, tag: string, input: string) returns (took: bool, rest: string, thrown: bool)
      modifies this
      ensures took <==> tag == "c" && !thrown
      ensures thrown <==> tag == "c" && size > |input|
      ensures emptyStruct == old(emptyStruct)
      ensures took ==> out == old(out) + CommaText(old(state)) + input[..size] && rest == input[size..]
                       && state == CommaState(old(state)) && seqDepth == old(seqDepth)
      ensures thrown ==> out == old(out) + CommaText(old(state)) && rest == input
                         && state == CommaState(old(state)) && seqDepth == old(seqDepth)
      ensures tag != "c" ==> out == old(out) + CommaText(old(state)) + "[" && rest == input
                             && state == SeqBegin && seqDepth == old(seqDepth) + 1
    {
      Comma();
      if tag == "c" {
        if size > |input| {
          took, rest, thrown := false, input, true;
          return;
        }
        out := out + input[..size];
        took, rest, thrown := true, input[size..], false;
      } else {
        out := out + "[";
        EnterSeq();
        took, rest, thrown := false, input, false;
      }
    }

    method SequenceEnd()
      modifies this
      ensures out == old(out) + "]" && emptyStruct == old(emptyStruct)
      ensures seqDepth == old(seqDepth) - 1 && state == (if seqDepth != 0 then Seq else Normal)
    {
      out := out + "]";
      LeaveSeq();
    }

    method TupleBegin(tag: string) returns (took: bool)
      modifies this
      ensures out == old(out) + CommaText(old(state)) + "(" && emptyStruct == old(emptyStruct)
      ensures state == SeqBegin && seqDepth == old(seqDepth) + 1
      ensures !took
    {
      Comma();
      out := out + "(";
      EnterSeq();
      took := false;
    }

    method TupleEnd()
      modifies this
      ensures out == old(out) + ")" && emptyStruct == old(emptyStruct)
      ensures seqDepth == old(seqDepth) - 1 && state == (if seqDepth != 0 then Seq else Normal)
    {
      out := out + ")";
      LeaveSeq();
    }

    /** Variants add nothing: the engine goes on to the alternative. */
    method VariantBegin(discriminator: nat, tag: string) returns (took: bool)
      ensures !took
    {
      took := false;
    }

    /** The end of a variant writes nothing. */
    method VariantEnd()
      ensures Snapshot() == old(Snapshot())
    {
    }

    method Null()
      modifies this
      ensures out == old(out) + CommaText(old(state)) + "{null}" && state == CommaState(old(state))
      ensures seqDepth == old(seqDepth) && emptyStruct == old(emptyStruct)
    {
      Comma();
      out := out + "{null}";
    }

    method Enum(name: string, enumerator: string, code: char, hex: string)
      modifies this
      ensures out == old(out) + CommaText(old(state)) + EnumeratorText(enumerator, hex) && state == CommaState(old(state))
      ensures seqDepth == old(seqDepth) && emptyStruct == old(emptyStruct)
    {
      Comma();
      if |enumerator| != 0 {
        out := out + enumerator;
      } else {
        out := out + "0x" + hex;
      }
    }

    /** Writes the name without template arguments; an empty structure gets no braces. */
    method StructBegin(name: string, tag: string) returns (took: bool)
      modifies this
      ensures |tag| == 0 ==> out == old(out) + CommaText(old(state)) + BeforeTemplate(name) && emptyStruct
                             && state == CommaState(old(state)) && seqDepth == old(seqDepth)
      ensures |tag| != 0 ==> out == old(out) + CommaText(old(state)) + BeforeTemplate(name) + "{ "
                             && emptyStruct == old(emptyStruct) && state == SeqBegin && seqDepth == old(seqDepth) + 1
      ensures !took
    {
      Comma();
      var i := 0;
      while i < |name| && name[i] != '<'
        invariant 0 <= i <= |name|
        invariant TemplateStart(name, i) == TemplateStart(name, 0)
      {
        i := i + 1;
      }
      out := out + name[..i];
      if |tag| == 0 {
        emptyStruct := true;
      } else {
        out := out + "{ ";
        EnterSeq();
      }
      took := false;
    }

    method StructEnd()
      modifies this
      ensures !emptyStruct
      ensures old(emptyStruct) ==> out == old(out) && state == old(state) && seqDepth == old(seqDepth)
      ensures !old(emptyStruct) ==> out == old(out) + " }" && seqDepth == old(seqDepth) - 1
                                    && state == (if seqDepth != 0 then Seq else Normal)
    {
      if emptyStruct {
        emptyStruct := false;
      } else {
        out := out + " }";
        LeaveSeq();
      }
    }

    /** Writes the field's name, then leaves the value to start without a comma. */
    method FieldBegin(name: string, tag: string)
      modifies this
      ensures out == old(out) + CommaText(old(state)) + Label(name) && state == Normal
      ensures seqDepth == old(seqDepth) && emptyStruct == old(emptyStruct)
    {
      Comma();
      if |name| != 0 {
        out := out + name + ": ";
      }
      state := Normal;
    }

    /** After a field, the next one needs a comma. */
    method FieldEnd()
      modifies this
      ensures state == Seq
      ensures out == old(out) && seqDepth == old(seqDepth) && emptyStruct == old(emptyStruct)
    {
      state := Seq;
    }

    /** The start of a repeated value writes nothing: the count follows the value, at RepeatEnd. */
    method RepeatBegin(size: nat, tag: string)
      ensures Snapshot() == old(Snapshot())
    {
    }

    /** A value repeated more than once is written once, followed by the count. */
    method RepeatEnd(size: nat, tag: string)
      modifies this
      ensures out == old(out) + RepeatText(size)
      ensures state == old(state) && seqDepth == old(seqDepth) && emptyStruct == old(emptyStruct)
    {
      if size > 1 {
        out := out + " ... <repeats " + Decimal(size) + " times>";
      }
    }

    /** The overload the engine calls for an event. */
    method Visit(e: Event, input: string) returns (rest: string, thrown: bool)
      modifies this
      ensures Outcome(Snapshot(), rest, thrown) == Step(old(Snapshot()), e, input)
    {
      rest, thrown := input, false;
      match e {
        case Prim(x) => VisitValue(x);
        case SequenceBegin(n, t) => { var took; took, rest, thrown := SequenceBegin(n, t, input); }
        case SequenceEnd => SequenceEnd();
        case TupleBegin(t) => { var _ := TupleBegin(t); }
        case TupleEnd => TupleEnd();
        case VariantBegin(d, t) => { var _ := VariantBegin(d, t); }
        case VariantEnd => VariantEnd();
        case Null => Null();
        case EnumValue(n, en, c, h) => Enum(n, en, c, h);
        case StructBegin(n, t) => { var _ := StructBegin(n, t); }
        case StructEnd => StructEnd();
        case FieldBegin(n, t) => FieldBegin(n, t);
        case FieldEnd => FieldEnd();
        case RepeatBegin(n, t) => RepeatBegin(n, t);
        case RepeatEnd(n, t) => RepeatEnd(n, t);
      }
    }

    /** Visits the events in order until a call throws. */
    method VisitAll(es: seq<Event>, input: string) returns (rest: string, thrown: bool)
      modifies this
      ensures Outcome(Snapshot(), rest, thrown) == Run(old(Snapshot()), es, input)
    {
      rest, thrown := input, false;
      var i := 0;
      while i < |es| && !thrown
        invariant 0 <= i <= |es|
        invariant !thrown ==> Run(old(Snapshot()), es, input) == Run(Snapshot(), es[i..], rest)
        invariant thrown ==> Run(old(Snapshot()), es, input) == Outcome(Snapshot(), rest, true)
      {
        ghost var before := Snapshot();
        ghost var tail := es[i..];
        assert tail[0] == es[i] && tail[1..] == es[i + 1..];
        rest, thrown := Visit(es[i], rest);
        i := i + 1;
      }
    }
  }

  /**
   * A visited value as the engine presents it to a visitor: each
   * constructor stands for the events of one tag kind.
   */
  datatype Doc =
    | Atom(x: Value)
    | Nil
    | Enumerated(name: string, enumerator: string, code: char, hex: string)
    | Chars(s: string)
    | List(elem: string, items: seq<Doc>)
    | Group(tag: string, items: seq<Doc>)
    | Alt(discriminator: nat, tag: string, alt: Doc)
    | Record(name: string, tag: string, fields: seq<Member>)
    | Repeated(n: nat, tag: string, item: Doc)

  datatype Member = Member(name: string, tag: string, value: Doc)

  /** The shapes the engine produces: char sequences are Chars, and a structure has fields iff its tag is not empty. */
  predicate Ok(d: Doc) {
    match d
    case List(elem, items) => elem != "c" && forall k | 0 <= k < |items| :: Ok(items[k])
    case Group(_, items) => forall k | 0 <= k < |items| :: Ok(items[k])
    case Alt(_, _, a) => Ok(a)
    case Record(_, tag, fields) =>
      (|tag| == 0 <==> |fields| == 0) && forall k | 0 <= k < |fields| :: Ok(fields[k].value)
    case Repeated(_, _, item) => Ok(item)
    case _ => true
  }

  /** The events the engine calls the visitor with. */
  function Flatten(d: Doc): seq<Event> {
    match d
    case Atom(x) => [Prim(x)]
    case Nil => [Event.Null]
    case Enumerated(n, en, c, h) => [EnumValue(n, en, c, h)]
    case Chars(s) => [Event.SequenceBegin(|s|, "c")]
    case List(elem, items) => [Event.SequenceBegin(|items|, elem)] + FlattenAll(items) + [Event.SequenceEnd]
    case Group(tag, items) => [Event.TupleBegin(tag)] + FlattenAll(items) + [Event.TupleEnd]
    case Alt(i, tag, a) => [Event.VariantBegin(i, tag)] + Flatten(a) + [Event.VariantEnd]
    case Record(n, tag, fields) => [Event.StructBegin(n, tag)] + FlattenFields(fields) + [Event.StructEnd]
    case Repeated(n, tag, item) => [Event.RepeatBegin(n, tag)] + Flatten(item) + [Event.RepeatEnd(n, tag)]
  }

  function FlattenAll(items: seq<Doc>): seq<Event> {
    if |items| == 0 then [] else Flatten(items[0]) + FlattenAll(items[1..])
  }

  function FlattenFields(fields: seq<Member>): seq<Event> {
    if |fields| == 0 then []
    else [Event.FieldBegin(fields[0].name, fields[0].tag)] + Flatten(fields[0].value) + [Event.FieldEnd]
         + FlattenFields(fields[1..])
  }

  /** The input bytes the visitor takes: the contents of the character sequences. */
  function Input(d: Doc): string {
    match d
    case Chars(s) => s
    case List(_, items) => InputAll(items)
    case Group(_, items) => InputAll(items)
    case Alt(_, _, a) => Input(a)
    case Record(_, _, fields) => InputFields(fields)
    case Repeated(_, _, item) => Input(item)
    case _ => ""
  }

  function InputAll(items: seq<Doc>): string {
    if |items| == 0 then "" else Input(items[0]) + InputAll(items[1..])
  }

  function InputFields(fields: seq<Member>): string {
    if |fields| == 0 then "" else Input(fields[0].value) + InputFields(fields[1..])
  }

  /** The text a value should give: elements separated by ", ", sequences in [], tuples in (), structures as Name{ a: 1, b: 2 }. */
  function Pretty(d: Doc): string {
    match d
    case Atom(x) => ValueText(x)
    case Nil => "{null}"
    case Enumerated(_, en, _, h) => EnumeratorText(en, h)
    case Chars(s) => s
    case List(_, items) => "[" + Joined(items) + "]"
    case Group(_, items) => "(" + Joined(items) + ")"
    case Alt(_, _, a) => Pretty(a)
    case Record(n, tag, fields) =>
      if |tag| == 0 then BeforeTemplate(n) else BeforeTemplate(n) + "{ " + FieldsJoined(fields) + " }"
    case Repeated(n, _, item) => Pretty(item) + RepeatText(n)
  }

  /** The items separated by ", ". */
  function Joined(items: seq<Doc>): string {
    if |items| == 0 then "" else Pretty(items[0]) + Tail(items[1..])
  }

  /** Each item preceded by ", ". */
  function Tail(items: seq<Doc>): string {
    if |items| == 0 then "" else ", " + Pretty(items[0]) + Tail(items[1..])
  }

  function FieldText(f: Member): string {
    Label(f.name) + Pretty(f.value)
  }

  function FieldsJoined(fields: seq<Member>): string {
    if |fields| == 0 then "" else FieldText(fields[0]) + FieldsTail(fields[1..])
  }

  function FieldsTail(fields: seq<Member>): string {
    if |fields| == 0 then "" else ", " + FieldText(fields[0]) + FieldsTail(fields[1..])
  }

  /** Values that open no sequence, tuple or non-empty structure, so leave the comma state as it was. */
  predicate Atomic(d: Doc) {
    match d
    case List(_, _) => false
    case Group(_, _) => false
    case Record(_, tag, _) => |tag| == 0
    case Alt(_, _, a) => Atomic(a)
    case Repeated(_, _, item) => Atomic(item)
    case _ => true
  }

  /** Fields that the visitor keeps consistent between calls. */
  predicate Coherent(p: Printer) {
    p.seqDepth >= 0 && (p.state != Normal ==> p.seqDepth > 0) && !p.emptyStruct
  }

  /** The comma state after visiting a value: a comma is due unless nothing is open. */
  function After(p: Printer, d: Doc): State {
    if p.state == Normal && (p.seqDepth == 0 || Atomic(d)) then Normal else Seq
  }

  /** Three calls in a row: an opening event, a stretch of events, a closing event. */
  lemma Around(p: Printer, x: Event, mid: seq<Event>, y: Event, input: string)
    ensures Run(p, [x] + mid + [y], input)
         == (var o1 := Step(p, x, input);
             if o1.thrown then o1
             else var o2 := Run(o1.printer, mid, o1.rest);
                  if o2.thrown then o2 else Step(o2.printer, y, o2.rest))
  {
    RunAppend(p, [x] + mid, [y], input);
    RunAppend(p, [x], mid, input);
    RunOne(p, x, input);
    var o1 := Step(p, x, input);
    if !o1.thrown {
      var o2 := Run(o1.printer, mid, o1.rest);
      RunOne(o2.printer, y, o2.rest);
    }
  }

  /** An opening event, a stretch that consumes input, and a closing event, none of which throws. */
  lemma Enclosing(p: Printer, x: Event, mid: seq<Event>, y: Event, input: string, rest: string,
                  b: Printer, m: Printer, c: Printer)
    requires Step(p, x, input) == Outcome(b, input, false)
    requires Run(b, mid, input) == Outcome(m, rest, false)
    requires Step(m, y, rest) == Outcome(c, rest, false)
    ensures Run(p, [x] + mid + [y], input) == Outcome(c, rest, false)
  {
    Around(p, x, mid, y, input);
  }

  lemma Regroup3(a: string, x: string, y: string, z: string)
    ensures ((a + x) + y) + z == a + ((x + y) + z)
  {
  }

  lemma Regroup4(a: string, w: string, x: string, y: string, z: string)
    ensures (((a + w) + x) + y) + z == a + (((w + x) + y) + z)
  {
  }

  /** Closing what `Entered` opened restores the depth; the state is Normal again only at the outermost level. */
  lemma Reclosed(p: Printer, m: Printer, right: string)
    requires Coherent(p) && m.seqDepth == p.seqDepth + 1 && !m.emptyStruct
    ensures Left(Put(m, right)) == Printer(if p.state == Normal && p.seqDepth == 0 then Normal else Seq,
                                           p.seqDepth, false, m.out + right)
  {
  }

  /**
   * Visiting a value writes the comma its position calls for and then its
   * text, takes exactly its characters from the input, and restores the
   * depth.
   */
  lemma {:induction false} RunDoc(p: Printer, d: Doc, rest: string)
    requires Ok(d) && Coherent(p)
    ensures Run(p, Flatten(d), Input(d) + rest)
         == Outcome(Printer(After(p, d), p.seqDepth, false, p.out + CommaText(p.state) + Pretty(d)), rest, false)
    decreases d, 1
  {
    match d
    case Atom(x) => RunScalar(p, d, Prim(x), rest);
    case Nil => RunScalar(p, d, Event.Null, rest);
    case Enumerated(n, en, c, h) => RunScalar(p, d, EnumValue(n, en, c, h), rest);
    case Chars(s) => RunChars(p, s, rest);
    case List(elem, items) => RunList(p, elem, items, rest);
    case Group(tag, items) => RunGroup(p, tag, items, rest);
    case Alt(i, tag, v) => RunAlt(p, i, tag, v, rest);
    case Repeated(n, tag, item) => RunRepeated(p, n, tag, item, rest);
    case Record(n, tag, fields) => RunRecord(p, n, tag, fields, rest);
  }

  /** A value of one event that consumes no input. */
  lemma RunScalar(p: Printer, d: Doc, e: Event, rest: string)
    requires Coherent(p)
    requires (d.Atom? && e == Prim(d.x)) || (d.Nil? && e == Event.Null)
          || (d.Enumerated? && e == EnumValue(d.name, d.enumerator, d.code, d.hex))
    ensures Run(p, Flatten(d), Input(d) + rest)
         == Outcome(Printer(After(p, d), p.seqDepth, false, p.out + CommaText(p.state) + Pretty(d)), rest, false)
  {
    NoPrefix(rest);
    assert Flatten(d) == [e] && Input(d) == "";
    RunOne(p, e, rest);
  }

  lemma RunChars(p: Printer, s: string, rest: string)
    requires Coherent(p)
    ensures var d := Chars(s);
      Run(p, Flatten(d), Input(d) + rest)
         == Outcome(Printer(After(p, d), p.seqDepth, false, p.out + CommaText(p.state) + Pretty(d)), rest, false)
  {
    assert (s + rest)[..|s|] == s && (s + rest)[|s|..] == rest;
    RunOne(p, Event.SequenceBegin(|s|, "c"), s + rest);
  }

  lemma {:induction false} RunAlt(p: Printer, i: nat, tag: string, v: Doc, rest: string)
    requires Ok(v) && Coherent(p)
    ensures var d := Alt(i, tag, v);
      Run(p, Flatten(d), Input(d) + rest)
         == Outcome(Printer(After(p, d), p.seqDepth, false, p.out + CommaText(p.state) + Pretty(d)), rest, false)
    decreases v, 2
  {
    RunDoc(p, v, rest);
    var m := Printer(After(p, v), p.seqDepth, false, p.out + CommaText(p.state) + Pretty(v));
    Enclosing(p, Event.VariantBegin(i, tag), Flatten(v), Event.VariantEnd, Input(v) + rest, rest, p, m, m);
  }

  lemma {:induction false} RunRepeated(p: Printer, n: nat, tag: string, item: Doc, rest: string)
    requires Ok(item) && Coherent(p)
    ensures var d := Repeated(n, tag, item);
      Run(p, Flatten(d), Input(d) + rest)
         == Outcome(Printer(After(p, d), p.seqDepth, false, p.out + CommaText(p.state) + Pretty(d)), rest, false)
    decreases item, 2
  {
    RunDoc(p, item, rest);
    var m := Printer(After(p, item), p.seqDepth, false, p.out + CommaText(p.state) + Pretty(item));
    Enclosing(p, Event.RepeatBegin(n, tag), Flatten(item), Event.RepeatEnd(n, tag), Input(item) + rest, rest,
              p, m, Put(m, RepeatText(n)));
    TextAssoc(p.out + CommaText(p.state), Pretty(item), RepeatText(n));
  }

  lemma {:induction false} RunList(p: Printer, elem: string, items: seq<Doc>, rest: string)
    requires Ok(List(elem, items)) && Coherent(p)
    ensures var d := List(elem, items);
      Run(p, Flatten(d), Input(d) + rest)
         == Outcome(Printer(After(p, d), p.seqDepth, false, p.out + CommaText(p.state) + Pretty(d)), rest, false)
    decreases items, 2
  {
    var b := Entered(Put(AfterComma(p), "["));
    RunItems(b, items, rest);
    var m := Printer(if |items| == 0 then SeqBegin else Seq, p.seqDepth + 1, false, b.out + Joined(items));
    Reclosed(p, m, "]");
    Enclosing(p, Event.SequenceBegin(|items|, elem), FlattenAll(items), Event.SequenceEnd, InputAll(items) + rest, rest,
              b, m, Left(Put(m, "]")));
    Regroup3(p.out + CommaText(p.state), "[", Joined(items), "]");
  }

  lemma {:induction false} RunGroup(p: Printer, tag: string, items: seq<Doc>, rest: string)
    requires Ok(Group(tag, items)) && Coherent(p)
    ensures var d := Group(tag, items);
      Run(p, Flatten(d), Input(d) + rest)
         == Outcome(Printer(After(p, d), p.seqDepth, false, p.out + CommaText(p.state) + Pretty(d)), rest, false)
    decreases items, 2
  {
    var b := Entered(Put(AfterComma(p), "("));
    RunItems(b, items, rest);
    var m := Printer(if |items| == 0 then SeqBegin else Seq, p.seqDepth + 1, false, b.out + Joined(items));
    Reclosed(p, m, ")");
    Enclosing(p, Event.TupleBegin(tag), FlattenAll(items), Event.TupleEnd, InputAll(items) + rest, rest,
              b, m, Left(Put(m, ")")));
    Regroup3(p.out + CommaText(p.state), "(", Joined(items), ")");
  }

  lemma {:induction false} RunRecord(p: Printer, n: string, tag: string, fields: seq<Member>, rest: string)
    requires Ok(Record(n, tag, fields)) && Coherent(p)
    ensures var d := Record(n, tag, fields);
      Run(p, Flatten(d), Input(d) + rest)
         == Outcome(Printer(After(p, d), p.seqDepth, false, p.out + CommaText(p.state) + Pretty(d)), rest, false)
    decreases fields, 2
  {
    if |tag| == 0 {
      assert fields == [];
      RunEmptyRecord(p, n, tag, rest);
    } else {
      var b := Entered(Put(Put(AfterComma(p), BeforeTemplate(n)), "{ "));
      RunFields(b, fields, rest);
      RecordText(p, Event.StructBegin(n, tag), FlattenFields(fields), InputFields(fields) + rest, rest,
                 BeforeTemplate(n), FieldsJoined(fields), b, if |fields| == 0 then SeqBegin else Seq);
    }
  }

  /** Putting together the structure's header, its fields and its closing brace. */
  lemma RecordText(p: Printer, x: Event, mid: seq<Event>, input: string, rest: string,
                   head: string, body: string, b: Printer, s: State)
    requires Coherent(p)
    requires b == Entered(Put(Put(AfterComma(p), head), "{ "))
    requires Step(p, x, input) == Outcome(b, input, false)
    requires Run(b, mid, input) == Outcome(Printer(s, p.seqDepth + 1, false, b.out + body), rest, false)
    ensures Run(p, [x] + mid + [Event.StructEnd], input)
         == Outcome(Printer(if p.state == Normal && p.seqDepth == 0 then Normal else Seq, p.seqDepth, false,
                            p.out + CommaText(p.state) + (head + "{ " + body + " }")), rest, false)
  {
    var m := Printer(s, p.seqDepth + 1, false, b.out + body);
    Reclosed(p, m, " }");
    Enclosing(p, x, mid, Event.StructEnd, input, rest, b, m, Left(Put(m, " }")));
    Regroup4(p.out + CommaText(p.state), head, "{ ", body, " }");
  }

  /** A structure without fields writes only its name and sets no comma state of its own. */
  lemma RunEmptyRecord(p: Printer, n: string, tag: string, rest: string)
    requires Coherent(p) && |tag| == 0
    ensures var d := Record(n, tag, []);
      Run(p, Flatten(d), Input(d) + rest)
         == Outcome(Printer(After(p, d), p.seqDepth, false, p.out + CommaText(p.state) + Pretty(d)), rest, false)
  {
    var q := Put(AfterComma(p), BeforeTemplate(n));
    assert FlattenFields([]) == [] && InputFields([]) == "";
    NoPrefix(rest);
    Enclosing(p, Event.StructBegin(n, tag), [], Event.StructEnd, rest, rest,
              q.(emptyStruct := true), q.(emptyStruct := true), q);
  }

  /**
   * Visiting the items of an open sequence or tuple writes them separated
   * by commas, with a comma before the first one if one was already due.
   */
  lemma {:induction false} RunItems(p: Printer, items: seq<Doc>, rest: string)
    requires Coherent(p) && p.state != Normal
    requires forall k | 0 <= k < |items| :: Ok(items[k])
    ensures Run(p, FlattenAll(items), InputAll(items) + rest)
         == Outcome(Printer(if |items| == 0 then p.state else Seq, p.seqDepth, false,
                            p.out + (if p.state == Seq then Tail(items) else Joined(items))), rest, false)
    decreases items, 0
  {
    if |items| == 0 {
      NoPrefix(rest);
    } else {
      var head, tail := items[0], items[1..];
      assert Ok(head);
      assert forall k | 0 <= k < |tail| :: Ok(tail[k]) by {
        forall k | 0 <= k < |tail| ensures Ok(tail[k]) {
          assert tail[k] == items[k + 1];
        }
      }
      TextAssoc(Input(head), InputAll(tail), rest);
      RunAppend(p, Flatten(head), FlattenAll(tail), Input(head) + (InputAll(tail) + rest));
      RunDoc(p, head, InputAll(tail) + rest);
      var q := Printer(Seq, p.seqDepth, false, p.out + CommaText(p.state) + Pretty(head));
      RunItems(q, tail, rest);
      SeparatedText(p.out, p.state == Seq, Pretty(head), Tail(tail));
    }
  }

  /** The text of a separated list after its first element, with or without the comma before it. */
  lemma SeparatedText(out: string, comma: bool, first: string, others: string)
    ensures out + (if comma then ", " else "") + first + others
         == out + (if comma then ", " + first + others else first + others)
  {
  }

  /** One field: its label, then its value, after a comma if one is due. */
  lemma {:induction false} RunField(p: Printer, f: Member, rest: string)
    requires Coherent(p) && p.state != Normal && Ok(f.value)
    ensures Run(p, [Event.FieldBegin(f.name, f.tag)] + Flatten(f.value) + [Event.FieldEnd], Input(f.value) + rest)
         == Outcome(Printer(Seq, p.seqDepth, false, p.out + CommaText(p.state) + FieldText(f)), rest, false)
    decreases f, 2
  {
    var a := p.out + CommaText(p.state);
    var b := Printer(Normal, p.seqDepth, false, a + Label(f.name));
    RunDoc(b, f.value, rest);
    assert b.out + CommaText(b.state) == b.out;
    var m := Printer(After(b, f.value), p.seqDepth, false, b.out + Pretty(f.value));
    TextAssoc(a, Label(f.name), Pretty(f.value));
    Enclosing(p, Event.FieldBegin(f.name, f.tag), Flatten(f.value), Event.FieldEnd, Input(f.value) + rest, rest,
              b, m, m.(state := Seq));
  }

  /**
   * Visiting the fields of an open structure writes each label and value,
   * separated by commas.
   */
  lemma {:induction false} RunFields(p: Printer, fields: seq<Member>, rest: string)
    requires Coherent(p) && p.state != Normal
    requires forall k | 0 <= k < |fields| :: Ok(fields[k].value)
    ensures Run(p, FlattenFields(fields), InputFields(fields) + rest)
         == Outcome(Printer(if |fields| == 0 then p.state else Seq, p.seqDepth, false,
                            p.out + (if p.state == Seq then FieldsTail(fields) else FieldsJoined(fields))), rest, false)
    decreases fields, 0
  {
    if |fields| == 0 {
      NoPrefix(rest);
    } else {
      var f, tail := fields[0], fields[1..];
      assert Ok(f.value);
      assert forall k | 0 <= k < |tail| :: Ok(tail[k].value) by {
        forall k | 0 <= k < |tail| ensures Ok(tail[k].value) {
          assert tail[k] == fields[k + 1];
        }
      }
      TextAssoc(Input(f.value), InputFields(tail), rest);
      var evs := [Event.FieldBegin(f.name, f.tag)] + Flatten(f.value) + [Event.FieldEnd];
      RunAppend(p, evs, FlattenFields(tail), Input(f.value) + (InputFields(tail) + rest));
      RunField(p, f, InputFields(tail) + rest);
      var q := Printer(Seq, p.seqDepth, false, p.out + CommaText(p.state) + FieldText(f));
      RunFields(q, tail, rest);
      SeparatedText(p.out, p.state == Seq, FieldText(f), FieldsTail(tail));
    }
  }

  /** A fresh visitor, run on the events of any value, writes exactly its text and consumes exactly its characters. */
  lemma ToStringOfDoc(d: Doc, rest: string)
    requires Ok(d)
    ensures Run(Fresh, Flatten(d), Input(d) + rest) == Outcome(Printer(Normal, 0, false, Pretty(d)), rest, false)
  {
    RunDoc(Fresh, d, rest);
    NoPrefix(Pretty(d));
  }

  /*
   * The scenarios of the visitor's unit tests: the calls each test makes,
   * in order, and the text it expects.
   */

  lemma NoSuffix(w: string)
    ensures w + "" == w
  {
  }

  /** empty: a fresh visitor has written nothing. */
  method EmptyOutput() returns (r: string)
    ensures r == ""
  {
    var v := new ToStringVisitor();
    r := v.out;
  }

  /** bool_true, bool_false */
  method Boolean(b: bool) returns (r: string)
    ensures b ==> r == "true"
    ensures !b ==> r == "false"
  {
    var v := new ToStringVisitor();
    v.VisitValue(BoolValue(b));
    r := v.out;
  }

  /** arithmetic: every integer type, the 8-bit ones included, writes 123 as a number. */
  method Arithmetic(t: IntType) returns (r: string)
    ensures r == "123"
  {
    var v := new ToStringVisitor();
    v.VisitValue(IntValue(t, 123));
    DecimalOf123();
    r := v.out;
  }

  /** empty_sequence_of_int */
  method EmptySequenceOfInt() returns (r: string)
    ensures r == "[]"
  {
    var v := new ToStringVisitor();
    var took, rest, thrown := v.SequenceBegin(0, "i", "");
    v.SequenceEnd();
    r := v.out;
  }

  /** sequence_of_int */
  method SequenceOfInt() returns (r: string)
    ensures r == "[1, 2, 3]"
  {
    SmallDecimals();
    var v := new ToStringVisitor();
    var took, rest, thrown := v.SequenceBegin(3, "i", "");
    v.VisitValue(IntValue(Int32, 1));
    v.VisitValue(IntValue(Int32, 2));
    v.VisitValue(IntValue(Int32, 3));
    v.SequenceEnd();
    r := v.out;
  }

  /** sequence_of_char: the visitor takes the characters itself and says so. */
  method SequenceOfChar() returns (took: bool, r: string)
    ensures took && r == "abc"
  {
    var v := new ToStringVisitor();
    var rest, thrown;
    took, rest, thrown := v.SequenceBegin(3, "c", "abc");
    r := v.out;
  }

  /** The calls for a sequence of two ints nested in an open sequence. */
  method VisitIntPair(v: ToStringVisitor, a: int, b: int)
    requires v.seqDepth >= 1
    modifies v
    ensures v.out == old(v.out) + CommaText(old(v.state)) + "[" + Decimal(a) + ", " + Decimal(b) + "]"
    ensures v.state == Seq && v.seqDepth == old(v.seqDepth) && v.emptyStruct == old(v.emptyStruct)
  {
    var took, rest, thrown := v.SequenceBegin(2, "i", "");
    NoSuffix(v.out);
    v.VisitValue(IntValue(Int32, a));
    v.VisitValue(IntValue(Int32, b));
    v.SequenceEnd();
  }

  /** The calls for one field holding an arithmetic value. */
  method VisitField(v: ToStringVisitor, name: string, tag: string, x: Value)
    modifies v
    ensures v.out == old(v.out) + CommaText(old(v.state)) + Label(name) + ValueText(x)
    ensures v.state == Seq && v.seqDepth == old(v.seqDepth) && v.emptyStruct == old(v.emptyStruct)
  {
    v.FieldBegin(name, tag);
    NoSuffix(v.out);
    v.VisitValue(x);
    v.FieldEnd();
  }

  /** The calls for a structure with one such field. */
  method VisitStructOfOne(v: ToStringVisitor, name: string, tag: string, field: string, ftag: string, x: Value)
    requires |tag| != 0 && v.seqDepth >= 0 && !v.emptyStruct
    requires TemplateStart(name, 0) == |name|
    modifies v
    ensures v.out == old(v.out) + CommaText(old(v.state)) + name + "{ " + Label(field) + ValueText(x) + " }"
    ensures v.seqDepth == old(v.seqDepth) && !v.emptyStruct
    ensures v.state == (if v.seqDepth != 0 then Seq else Normal)
  {
    var took := v.StructBegin(name, tag);
    assert name[..|name|] == name;
    VisitField(v, field, ftag, x);
    v.StructEnd();
  }

  /** seq_of_seq_of_int */
  method SeqOfSeqOfInt() returns (r: string)
    ensures r == "[[1, 2], [3, 4], [5, 6]]"
  {
    SmallDecimals();
    var v := new ToStringVisitor();
    var took, rest, thrown := v.SequenceBegin(3, "[i", "");
    VisitIntPair(v, 1, 2);
    assert v.out == "[[1, 2]";
    VisitIntPair(v, 3, 4);
    assert v.out == "[[1, 2], [3, 4]";
    VisitIntPair(v, 5, 6);
    v.SequenceEnd();
    r := v.out;
  }

  /** seq_of_seq_of_char: each inner sequence is taken from the input in turn. */
  method SeqOfSeqOfChar() returns (took: bool, r: string)
    ensures took && r == "[ab, cd, ef]"
  {
    var v := new ToStringVisitor();
    var rest, thrown;
    took, rest, thrown := v.SequenceBegin(3, "[c", "abcdef");
    assert "abcdef"[..2] == "ab" && "abcdef"[2..] == "cdef";
    var t1, t2, t3;
    t1, rest := TakeChars(v, rest, "[", "ab");
    assert "cdef"[..2] == "cd" && "cdef"[2..] == "ef";
    t2, rest := TakeChars(v, rest, "[ab", "cd");
    assert "ef"[..2] == "ef";
    t3, rest := TakeChars(v, rest, "[ab, cd", "ef");
    v.SequenceEnd();
    took := t1 && t2 && t3;
    r := v.out;
  }

  /** One inner character sequence of two, taken from the input inside the outer sequence. */
  method TakeChars(v: ToStringVisitor, input: string, pre: string, chars: string) returns (took: bool, rest: string)
    requires v.seqDepth == 1 && !v.emptyStruct && v.state != Normal && v.out == pre
    requires |input| >= 2 && input[..2] == chars
    modifies v
    ensures took && rest == input[2..]
    ensures v.Snapshot() == Printer(Seq, 1, false, pre + CommaText(old(v.state)) + chars)
  {
    var thrown;
    took, rest, thrown := v.SequenceBegin(2, "c", input);
  }

  /** empty_tuple */
  method EmptyTuple() returns (r: string)
    ensures r == "()"
  {
    var v := new ToStringVisitor();
    var took := v.TupleBegin("");
    v.TupleEnd();
    r := v.out;
  }

  /** tuple_of_int_bool_char */
  method TupleOfIntBoolChar() returns (r: string)
    ensures r == "(1, true, a)"
  {
    SmallDecimals();
    var v := new ToStringVisitor();
    var took := v.TupleBegin("iyc");
    v.VisitValue(IntValue(Int32, 1));
    v.VisitValue(BoolValue(true));
    v.VisitValue(CharValue('a'));
    v.TupleEnd();
    r := v.out;
  }

  /** seq_of_variant: variants add nothing of their own. */
  method SeqOfVariant() returns (r: string)
    ensures r == "[{null}, 1, 2]"
  {
    var v := new ToStringVisitor();
    var took, rest, thrown := v.SequenceBegin(3, "<0i>", "");
    took := v.VariantBegin(1, "i");
    v.Null();
    v.VariantEnd();
    assert v.Snapshot() == Printer(Seq, 1, false, "[{null}");
    SeqOfVariantRest(v);
    r := v.out;
  }

  /** The calls of seq_of_variant after its first element. */
  method SeqOfVariantRest(v: ToStringVisitor)
    requires v.Snapshot() == Printer(Seq, 1, false, "[{null}")
    modifies v
    ensures v.out == "[{null}, 1, 2]"
  {
    SmallDecimals();
    var took := v.VariantBegin(0, "0");
    v.VisitValue(IntValue(Int32, 1));
    v.VariantEnd();
    took := v.VariantBegin(1, "i");
    v.VisitValue(IntValue(Int32, 2));
    v.VariantEnd();
    v.SequenceEnd();
  }

  /** seq_of_enum: an enumerator without a name shows its value in hexadecimal. */
  method SeqOfEnum() returns (r: string)
    ensures r == "[b, a, 0x3]"
  {
    var v := new ToStringVisitor();
    var took, rest, thrown := v.SequenceBegin(3, "/i`E'0`a'1`b'\\", "");
    v.Enum("E", "b", 'i', "1");
    v.Enum("E", "a", 'i', "2");
    v.Enum("E", "", 'i', "3");
    v.SequenceEnd();
    r := v.out;
  }

  /** empty_struct */
  method EmptyStruct() returns (r: string)
    ensures r == "Empty"
  {
    var v := new ToStringVisitor();
    var took := v.StructBegin("Empty", "");
    v.StructEnd();
    r := v.out;
  }

  /** empty_struct_template: template arguments are dropped. */
  method EmptyStructTemplate() returns (r: string)
    ensures r == "Empty"
  {
    var v := new ToStringVisitor();
    var took := v.StructBegin("Empty<A,B,C>", "");
    v.StructEnd();
    r := v.out;
  }

  /** simple_struct */
  method SimpleStruct() returns (r: string)
    ensures r == "Alpha{ a: 1, b: false }"
  {
    var v := new ToStringVisitor();
    var took := v.StructBegin("Alpha", "`a'i`b'y");
    assert v.out == "Alpha{ ";
    SimpleStructFields(v);
    v.StructEnd();
    r := v.out;
  }

  /** The two fields of simple_struct. */
  method SimpleStructFields(v: ToStringVisitor)
    requires v.out == "Alpha{ " && v.state == SeqBegin
    modifies v
    ensures v.out == "Alpha{ a: 1, b: false" && v.seqDepth == old(v.seqDepth) && v.emptyStruct == old(v.emptyStruct)
  {
    SmallDecimals();
    VisitField(v, "a", "i", IntValue(Int32, 1));
    assert v.out == "Alpha{ a: 1";
    VisitField(v, "b", "y", BoolValue(false));
  }

  /** pair_of_structs */
  method PairOfStructs() returns (r: string)
    ensures r == "(Alpha{ a: 1 }, Empty, Beta{ b: true })"
  {
    SmallDecimals();
    var v := new ToStringVisitor();
    var took := v.TupleBegin("{Alpha`a'i}{Empty}{Beta`b'y}");
    VisitStructOfOne(v, "Alpha", "`a'i", "a", "i", IntValue(Int32, 1));
    assert v.Snapshot() == Printer(Seq, 1, false, "(Alpha{ a: 1 }");
    PairOfStructsRest(v);
    r := v.out;
  }

  /** The calls of pair_of_structs after its first element. */
  method PairOfStructsRest(v: ToStringVisitor)
    requires v.Snapshot() == Printer(Seq, 1, false, "(Alpha{ a: 1 }")
    modifies v
    ensures v.out == "(Alpha{ a: 1 }, Empty, Beta{ b: true })"
  {
    var took := v.StructBegin("Empty", "");
    v.StructEnd();
    assert v.Snapshot() == Printer(Seq, 1, false, "(Alpha{ a: 1 }, Empty");
    VisitStructOfOne(v, "Beta", "`b'y", "b", "y", BoolValue(true));
    v.TupleEnd();
  }

  /** struct_of_structs */
  method StructOfStructs() returns (r: string)
    ensures r == "Alpha{ ccc: Beta{ d: 1 }, e: Empty }"
  {
    SmallDecimals();
    var v := new ToStringVisitor();
    var took := v.StructBegin("Alpha", "`ccc'{Beta`d'i}`e'{Empty}");
    v.FieldBegin("ccc", "{Beta`d'i}");
    assert v.Snapshot() == Printer(Normal, 1, false, "Alpha{ ccc: ");
    StructOfStructsInner(v);
    StructOfStructsRest(v);
    r := v.out;
  }

  /** The calls of struct_of_structs for the value of its first field. */
  method StructOfStructsInner(v: ToStringVisitor)
    requires v.Snapshot() == Printer(Normal, 1, false, "Alpha{ ccc: ")
    modifies v
    ensures v.Snapshot() == Printer(Seq, 1, false, "Alpha{ ccc: Beta{ d: 1 }")
  {
    SmallDecimals();
    NoSuffix(v.out);
    VisitStructOfOne(v, "Beta", "`d'i", "d", "i", IntValue(Int32, 1));
    v.FieldEnd();
  }

  /** The calls of struct_of_structs after its first field. */
  method StructOfStructsRest(v: ToStringVisitor)
    requires v.Snapshot() == Printer(Seq, 1, false, "Alpha{ ccc: Beta{ d: 1 }")
    modifies v
    ensures v.out == "Alpha{ ccc: Beta{ d: 1 }, e: Empty }"
  {
    v.FieldBegin("e", "{Empty}");
    var took := v.StructBegin("Empty", "");
    v.StructEnd();
    v.FieldEnd();
    assert v.Snapshot() == Printer(Seq, 1, false, "Alpha{ ccc: Beta{ d: 1 }, e: Empty");
    v.StructEnd();
  }

  /** empty_field_name: a field without a name shows only its value. */
  method EmptyFieldName() returns (r: string)
    ensures r == "BoundedInt{ 1024 }"
  {
    DecimalOf1024();
    var v := new ToStringVisitor();
    var took := v.StructBegin("BoundedInt", "`'i");
    VisitField(v, "", "i", IntValue(Int32, 1024));
    v.StructEnd();
    r := v.out;
  }

  /** repeat_once, repeat_more: a value repeated n > 1 times is shown once, with the count. */
  method Repeat(n: nat) returns (r: string)
    ensures n <= 1 ==> r == "1"
    ensures n > 1 ==> r == "1 ... <repeats " + Decimal(n) + " times>"
    ensures n == 9 ==> r == "1 ... <repeats 9 times>"
  {
    var v := new ToStringVisitor();
    v.RepeatBegin(n, "i");
    v.VisitValue(IntValue(Int32, 1));
    var one := v.out;
    v.RepeatEnd(n, "i");
    r := v.out;
    assert one == "" + CommaText(Normal) + ValueText(IntValue(Int32, 1));
    OneShown();
    RepeatShown(n, r);
  }

  lemma OneShown()
    ensures "" + CommaText(Normal) + ValueText(IntValue(Int32, 1)) == "1"
  {
    SmallDecimals();
  }

  lemma RepeatShown(n: nat, r: string)
    requires r == "1" + RepeatText(n)
    ensures n <= 1 ==> r == "1"
    ensures n > 1 ==> r == "1 ... <repeats " + Decimal(n) + " times>"
    ensures n == 9 ==> r == "1 ... <repeats 9 times>"
  {
    if n == 9 {
      NineRepeats();
    }
  }

  lemma NineRepeats()
    ensures "1" + (" ... <repeats " + Decimal(9) + " times>") == "1 ... <repeats 9 times>"
  {
    DecimalOf9();
    assert " ... <repeats " + "9" == " ... <repeats 9";
    assert " ... <repeats 9" + " times>" == " ... <repeats 9 times>";
  }


}
