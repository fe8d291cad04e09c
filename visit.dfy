/**
 * The tag-directed visit engine: a type tag and a byte stream are turned
 * into the ordered list of visitor events the engine delivers, or into the
 * error the engine raises.  Visitors here never take a sequence or a struct
 * over themselves (their *Begin callbacks answer false), so the engine
 * always descends into the data.
 */
module Engine {
  import opened Wrappers
  import opened Bytes
  import opened Text
  import opened Tags

  /** The callbacks a visitor receives, with the payload each carries. */
  datatype Event =
    | Prim(value: Value)
    | SequenceBegin(size: nat, tag: string)
    | SequenceEnd
    | TupleBegin(tag: string)
    | TupleEnd
    | VariantBegin(discriminator: nat, tag: string)
    | VariantEnd
    | Null
    /** An enum value: type name, enumerator name (empty when unlisted), underlying code, hex value. */
    | EnumValue(name: string, enumerator: string, code: char, hex: string)
    | StructBegin(name: string, tag: string)
    | StructEnd
    | FieldBegin(name: string, tag: string)
    | FieldEnd
    | RepeatBegin(size: nat, tag: string)
    | RepeatEnd(size: nat, tag: string)

  /** Why a visit is rejected (the engine throws). */
  datatype Error =
    | RecursionLimit
    | ShortRead
    | InvalidTag
    | InvalidDiscriminator

  /** The events delivered and the bytes left in the stream. */
  datatype Visited = Visited(events: seq<Event>, rest: Bytes)

  /** Nesting bound of the engine: 2047 nested tags can be visited, 2048 cannot. */
  const MaxRecursion: nat := 2048

  /** On success no more bytes are left than the visit was given. */
  predicate Consumes(bytes: Bytes, r: Result<Visited, Error>) {
    r.Success? ==> |r.value.rest| <= |bytes|
  }

  /**
   * Whether every value of the tag serializes to no bytes: tuples and structs
   * whose members all do.  Answers false once fuel runs out.
   */
  predicate EncodesToNothing(full: string, tag: string, fuel: nat)
    decreases fuel
  {
    if fuel == 0 || |tag| == 0 then false
    else if tag[0] == '(' then
      match Bracketed(tag, ')')
      case None => false
      case Some(items) => forall k | 0 <= k < |items| :: EncodesToNothing(full, items[k], fuel - 1)
    else if tag[0] == '{' then
      match StructDef(full, tag)
      case None => false
      case Some(st) => forall k | 0 <= k < |st.fields| :: EncodesToNothing(full, st.fields[k].tag, fuel - 1)
    else false
  }

  /**
   * Visit the value of type tag at the front of bytes.  full is the whole
   * top-level tag, against which field-less struct references are resolved;
   * budget is the nesting the engine still allows.
   */
  function Visit(full: string, tag: string, bytes: Bytes, budget: nat): (r: Result<Visited, Error>)
    ensures Consumes(bytes, r)
    ensures budget == 0 ==> r == Failure(RecursionLimit)
    decreases budget, 1, 0
  {
    if budget == 0 then Failure(RecursionLimit)
    else if |tag| == 0 then Failure(InvalidTag)
    else if tag[0] == '[' then VisitSequence(full, tag, bytes, budget)
    else if tag[0] == '(' then VisitTuple(full, tag, bytes, budget)
    else if tag[0] == '<' then VisitVariant(full, tag, bytes, budget)
    else if tag[0] == '{' then VisitStruct(full, tag, bytes, budget)
    else if tag[0] == '/' then VisitEnum(tag, bytes)
    else if |tag| == 1 && ArithmeticOfCode(tag[0]).Some? then VisitArithmetic(ArithmeticOfCode(tag[0]).value, bytes)
    else Failure(InvalidTag)
  }

  function VisitArithmetic(a: Arithmetic, bytes: Bytes): (r: Result<Visited, Error>)
    ensures Consumes(bytes, r)
    ensures r.Success? <==> |bytes| >= Width(a)
  {
    if |bytes| < Width(a) then Failure(ShortRead)
    else Success(Visited([Prim(DecodeValue(a, bytes[..Width(a)]))], bytes[Width(a)..]))
  }

  /** `[elem`: a 32-bit count, then the elements; elements of no bytes are reported once, as a repeat. */
  function VisitSequence(full: string, tag: string, bytes: Bytes, budget: nat): (r: Result<Visited, Error>)
    requires budget > 0 && |tag| > 0
    ensures Consumes(bytes, r)
    decreases budget, 0, 0
  {
    var elem := tag[1..];
    if |bytes| < 4 then Failure(ShortRead)
    else
      var n := FromLittleEndian(bytes[..4]);
      if n > 0 && EncodesToNothing(full, elem, budget - 1) then
        var x :- Visit(full, elem, bytes[4..], budget - 1);
        Success(Visited([SequenceBegin(n, elem), RepeatBegin(n, elem)] + x.events + [RepeatEnd(n, elem), SequenceEnd], x.rest))
      else
        var x :- VisitRepeated(full, elem, bytes[4..], budget, n);
        Success(Visited([SequenceBegin(n, elem)] + x.events + [SequenceEnd], x.rest))
  }

  /** count consecutive values of type elem, one level below budget. */
  function VisitRepeated(full: string, elem: string, bytes: Bytes, budget: nat, count: nat): (r: Result<Visited, Error>)
    requires budget > 0
    ensures Consumes(bytes, r)
    decreases budget - 1, 2, count
  {
    if count == 0 then Success(Visited([], bytes))
    else
      var x :- Visit(full, elem, bytes, budget - 1);
      var y :- VisitRepeated(full, elem, x.rest, budget, count - 1);
      Success(Visited(x.events + y.events, y.rest))
  }

  /** `(tags)`: the components in order. */
  function VisitTuple(full: string, tag: string, bytes: Bytes, budget: nat): (r: Result<Visited, Error>)
    requires budget > 0
    ensures Consumes(bytes, r)
    decreases budget, 0, 0
  {
    match Bracketed(tag, ')')
    case None => Failure(InvalidTag)
    case Some(items) =>
      var x :- VisitAll(full, items, bytes, budget);
      Success(Visited([TupleBegin(tag[1..|tag| - 1])] + x.events + [TupleEnd], x.rest))
  }

  function VisitAll(full: string, items: seq<string>, bytes: Bytes, budget: nat): (r: Result<Visited, Error>)
    requires budget > 0
    ensures Consumes(bytes, r)
    decreases budget - 1, 2, |items|
  {
    if |items| == 0 then Success(Visited([], bytes))
    else
      var x :- Visit(full, items[0], bytes, budget - 1);
      var y :- VisitAll(full, items[1..], x.rest, budget);
      Success(Visited(x.events + y.events, y.rest))
  }

  /** `<alts>`: a one-byte discriminator picks the alternative; the alternative `0` is null. */
  function VisitVariant(full: string, tag: string, bytes: Bytes, budget: nat): (r: Result<Visited, Error>)
    requires budget > 0
    ensures Consumes(bytes, r)
    decreases budget, 0, 0
  {
    match Bracketed(tag, '>')
    case None => Failure(InvalidTag)
    case Some(alts) =>
      if |bytes| < 1 then Failure(ShortRead)
      else if bytes[0] >= |alts| then Failure(InvalidDiscriminator)
      else
        var d := bytes[0];
        if alts[d] == "0" then Success(Visited([VariantBegin(d, "0"), Null, VariantEnd], bytes[1..]))
        else
          var x :- Visit(full, alts[d], bytes[1..], budget - 1);
          Success(Visited([VariantBegin(d, alts[d])] + x.events + [VariantEnd], x.rest))
  }

  /** `{Name`f'tag...}` or a reference `{Name}`: the fields in declared order. */
  function VisitStruct(full: string, tag: string, bytes: Bytes, budget: nat): (r: Result<Visited, Error>)
    requires budget > 0 && |tag| > 0 && tag[0] == '{'
    ensures Consumes(bytes, r)
    decreases budget, 0, 0
  {
    match StructDef(full, tag)
    case None => Failure(InvalidTag)
    case Some(st) =>
      var x :- VisitFields(full, st.fields, bytes, budget);
      Success(Visited([StructBegin(st.name, st.fieldsText)] + x.events + [StructEnd], x.rest))
  }

  function VisitFields(full: string, fields: seq<Field>, bytes: Bytes, budget: nat): (r: Result<Visited, Error>)
    requires budget > 0
    ensures Consumes(bytes, r)
    decreases budget - 1, 2, |fields|
  {
    if |fields| == 0 then Success(Visited([], bytes))
    else
      var x :- Visit(full, fields[0].tag, bytes, budget - 1);
      var y :- VisitFields(full, fields[1..], x.rest, budget);
      Success(Visited([FieldBegin(fields[0].name, fields[0].tag)] + x.events + [FieldEnd] + y.events, y.rest))
  }

  /** `/code`Name'hex`enumerator'...\`: the underlying integer, named by the first enumerator listed with its hex text. */
  function VisitEnum(tag: string, bytes: Bytes): (r: Result<Visited, Error>)
    requires |tag| > 0 && tag[0] == '/'
    ensures Consumes(bytes, r)
  {
    match ParseEnum(tag)
    case None => Failure(InvalidTag)
    case Some(e) =>
      match ArithmeticOfCode(e.code)
      case Some(Integer(it)) =>
        if |bytes| < it.Width() then Failure(ShortRead)
        else
          var hex := Hex(DecodeInt(it, bytes[..it.Width()]));
          Success(Visited([EnumValue(e.name, Enumerator(e.enumerators, hex), e.code, hex)], bytes[it.Width()..]))
      case _ => Failure(InvalidTag)
  }

  /** mserialize::visit(tag, visitor, stream): the tag must be exactly one complete tag. */
  function VisitTag(tag: string, bytes: Bytes): (r: Result<Visited, Error>)
    ensures Consumes(bytes, r)
    ensures !Complete(tag) ==> r == Failure(InvalidTag)
  {
    if !Complete(tag) then Failure(InvalidTag) else Visit(tag, tag, bytes, MaxRecursion)
  }

  // ---------------------------------------------------------------------
  // One step of the engine at a time, for proofs about whole visits

  lemma ArithmeticStep(full: string, tag: string, bytes: Bytes, budget: nat, a: Arithmetic)
    requires budget > 0 && tag == [Code(a)] && |bytes| >= Width(a)
    ensures Visit(full, tag, bytes, budget) == Success(Visited([Prim(DecodeValue(a, bytes[..Width(a)]))], bytes[Width(a)..]))
  {
    CodeIsRecognised(a);
    assert Code(a) !in {'[', '(', '<', '{', '/'} by {
      match a
      case BoolType =>
      case CharType =>
      case Integer(it) =>
    }
  }

  lemma TupleEncodesToNothing(full: string, inner: string, items: seq<string>, fuel: nat)
    requires fuel > 0 && Bracketed("(" + inner + ")", ')') == Some(items)
    ensures EncodesToNothing(full, "(" + inner + ")", fuel) <==>
      forall k | 0 <= k < |items| :: EncodesToNothing(full, items[k], fuel - 1)
  {
    assert ("(" + inner + ")")[0] == '(';
  }

  lemma StructEncodesToNothing(full: string, tag: string, st: StructTag, fuel: nat)
    requires (fuel > 0 && |tag| > 0 && tag[0] == '{' && StructDef(full, tag) == Some(st)) == true
    ensures EncodesToNothing(full, tag, fuel) <==>
      forall k | 0 <= k < |st.fields| :: EncodesToNothing(full, st.fields[k].tag, fuel - 1)
  {
  }

  /** A sequence of count bytes followed by the data, whose elements encode to nothing: one repeat. */
  lemma SequenceRepeatStep(full: string, elem: string, count: Bytes, data: Bytes, budget: nat, n: nat, x: Visited)
    requires budget > 0 && |count| == 4 && FromLittleEndian(count) == n
    requires n > 0 && EncodesToNothing(full, elem, budget - 1)
    requires Visit(full, elem, data, budget - 1) == Success(x)
    ensures Visit(full, "[" + elem, count + data, budget) ==
      Success(Visited([SequenceBegin(n, elem), RepeatBegin(n, elem)] + x.events + [RepeatEnd(n, elem), SequenceEnd], x.rest))
  {
    assert ("[" + elem)[1..] == elem;
    SplitAppend(count, data);
  }

  /** A sequence of count bytes followed by the data, element by element. */
  lemma SequenceEachStep(full: string, elem: string, count: Bytes, data: Bytes, budget: nat, n: nat, x: Visited)
    requires budget > 0 && |count| == 4 && FromLittleEndian(count) == n
    requires !(n > 0 && EncodesToNothing(full, elem, budget - 1))
    requires VisitRepeated(full, elem, data, budget, n) == Success(x)
    ensures Visit(full, "[" + elem, count + data, budget) ==
      Success(Visited([SequenceBegin(n, elem)] + x.events + [SequenceEnd], x.rest))
  {
    assert ("[" + elem)[1..] == elem;
    SplitAppend(count, data);
  }

  lemma RepeatedCons(full: string, elem: string, b0: Bytes, b1: Bytes, rest: Bytes, budget: nat, count: nat, e0: seq<Event>, e1: seq<Event>)
    requires budget > 0 && count > 0
    requires Visit(full, elem, b0 + (b1 + rest), budget - 1) == Success(Visited(e0, b1 + rest))
    requires VisitRepeated(full, elem, b1 + rest, budget, count - 1) == Success(Visited(e1, rest))
    ensures VisitRepeated(full, elem, b0 + b1 + rest, budget, count) == Success(Visited(e0 + e1, rest))
  {
    AppendAssoc(b0, b1, rest);
  }

  lemma TupleStep(full: string, inner: string, items: seq<string>, bytes: Bytes, budget: nat, x: Visited)
    requires budget > 0 && Bracketed("(" + inner + ")", ')') == Some(items)
    requires VisitAll(full, items, bytes, budget) == Success(x)
    ensures Visit(full, "(" + inner + ")", bytes, budget) == Success(Visited([TupleBegin(inner)] + x.events + [TupleEnd], x.rest))
  {
    var tag := "(" + inner + ")";
    assert tag[0] == '(' && tag[1..|tag| - 1] == inner;
  }

  lemma AllCons(full: string, item: string, items: seq<string>, b0: Bytes, b1: Bytes, rest: Bytes, budget: nat, e0: seq<Event>, e1: seq<Event>)
    requires budget > 0
    requires Visit(full, item, b0 + (b1 + rest), budget - 1) == Success(Visited(e0, b1 + rest))
    requires VisitAll(full, items, b1 + rest, budget) == Success(Visited(e1, rest))
    ensures VisitAll(full, [item] + items, b0 + b1 + rest, budget) == Success(Visited(e0 + e1, rest))
  {
    var all := [item] + items;
    assert all[0] == item && all[1..] == items;
    AppendAssoc(b0, b1, rest);
  }

  /** A discriminator d selecting the null alternative. */
  lemma VariantNullStep(full: string, inner: string, alts: seq<string>, d: Byte, data: Bytes, budget: nat)
    requires budget > 0 && Bracketed("<" + inner + ">", '>') == Some(alts) && d < |alts| && alts[d] == "0"
    ensures Visit(full, "<" + inner + ">", [d] + data, budget) == Success(Visited([VariantBegin(d, "0"), Null, VariantEnd], data))
  {
    assert ("<" + inner + ">")[0] == '<';
    SplitAppend([d], data);
  }

  /** A discriminator d selecting an alternative other than null. */
  lemma VariantAltStep(full: string, inner: string, alts: seq<string>, d: Byte, data: Bytes, budget: nat, x: Visited)
    requires budget > 0 && Bracketed("<" + inner + ">", '>') == Some(alts) && d < |alts| && alts[d] != "0"
    requires Visit(full, alts[d], data, budget - 1) == Success(x)
    ensures Visit(full, "<" + inner + ">", [d] + data, budget) ==
      Success(Visited([VariantBegin(d, alts[d])] + x.events + [VariantEnd], x.rest))
  {
    assert ("<" + inner + ">")[0] == '<';
    SplitAppend([d], data);
  }

  lemma StructStep(full: string, tag: string, bytes: Bytes, budget: nat, st: StructTag, x: Visited)
    requires budget > 0 && |tag| > 0 && tag[0] == '{'
    requires StructDef(full, tag) == Some(st) && VisitFields(full, st.fields, bytes, budget) == Success(x)
    ensures Visit(full, tag, bytes, budget) == Success(Visited([StructBegin(st.name, st.fieldsText)] + x.events + [StructEnd], x.rest))
  {
  }

  lemma FieldsCons(full: string, f: Field, fields: seq<Field>, b0: Bytes, b1: Bytes, rest: Bytes, budget: nat, e0: seq<Event>, e1: seq<Event>)
    requires budget > 0
    requires Visit(full, f.tag, b0 + (b1 + rest), budget - 1) == Success(Visited(e0, b1 + rest))
    requires VisitFields(full, fields, b1 + rest, budget) == Success(Visited(e1, rest))
    ensures VisitFields(full, [f] + fields, b0 + b1 + rest, budget) ==
      Success(Visited([FieldBegin(f.name, f.tag)] + e0 + [FieldEnd] + e1, rest))
  {
    var all := [f] + fields;
    assert all[0] == f && all[1..] == fields;
    AppendAssoc(b0, b1, rest);
  }

  lemma EnumStep(full: string, tag: string, bytes: Bytes, budget: nat, e: EnumTag, it: IntType)
    requires budget > 0 && |tag| > 0 && tag[0] == '/' && ParseEnum(tag) == Some(e)
    requires ArithmeticOfCode(e.code) == Some(Integer(it)) && |bytes| >= it.Width()
    ensures Visit(full, tag, bytes, budget) ==
      var hex := Hex(DecodeInt(it, bytes[..it.Width()]));
      Success(Visited([EnumValue(e.name, Enumerator(e.enumerators, hex), e.code, hex)], bytes[it.Width()..]))
  {
  }

  // ---------------------------------------------------------------------
  // A failure of the first nested visit is the failure of the whole visit

  lemma RepeatedFails(full: string, elem: string, bytes: Bytes, budget: nat, count: nat, e: Error)
    requires budget > 0 && count > 0
    requires Visit(full, elem, bytes, budget - 1) == Failure(e)
    ensures VisitRepeated(full, elem, bytes, budget, count) == Failure(e)
  {
  }

  lemma SequenceFails(full: string, elem: string, count: Bytes, data: Bytes, budget: nat, e: Error)
    requires budget > 0 && |count| == 4 && FromLittleEndian(count) > 0
    requires Visit(full, elem, data, budget - 1) == Failure(e)
    ensures Visit(full, "[" + elem, count + data, budget) == Failure(e)
  {
    assert ("[" + elem)[1..] == elem;
    SplitAppend(count, data);
    RepeatedFails(full, elem, data, budget, FromLittleEndian(count), e);
  }

  lemma AllFails(full: string, items: seq<string>, bytes: Bytes, budget: nat, e: Error)
    requires budget > 0 && |items| > 0
    requires Visit(full, items[0], bytes, budget - 1) == Failure(e)
    ensures VisitAll(full, items, bytes, budget) == Failure(e)
  {
  }

  lemma TupleFails(full: string, inner: string, items: seq<string>, bytes: Bytes, budget: nat, e: Error)
    requires budget > 0 && Bracketed("(" + inner + ")", ')') == Some(items) && |items| > 0
    requires Visit(full, items[0], bytes, budget - 1) == Failure(e)
    ensures Visit(full, "(" + inner + ")", bytes, budget) == Failure(e)
  {
    assert ("(" + inner + ")")[0] == '(';
    AllFails(full, items, bytes, budget, e);
  }

  lemma VariantFails(full: string, inner: string, alts: seq<string>, d: Byte, data: Bytes, budget: nat, e: Error)
    requires budget > 0 && Bracketed("<" + inner + ">", '>') == Some(alts) && d < |alts| && alts[d] != "0"
    requires Visit(full, alts[d], data, budget - 1) == Failure(e)
    ensures Visit(full, "<" + inner + ">", [d] + data, budget) == Failure(e)
  {
    assert ("<" + inner + ">")[0] == '<';
    SplitAppend([d], data);
  }

  lemma FieldsFail(full: string, fields: seq<Field>, bytes: Bytes, budget: nat, e: Error)
    requires budget > 0 && |fields| > 0
    requires Visit(full, fields[0].tag, bytes, budget - 1) == Failure(e)
    ensures VisitFields(full, fields, bytes, budget) == Failure(e)
  {
  }

  lemma StructFails(full: string, tag: string, bytes: Bytes, budget: nat, st: StructTag, e: Error)
    requires budget > 0 && |tag| > 0 && tag[0] == '{'
    requires StructDef(full, tag) == Some(st) && |st.fields| > 0
    requires Visit(full, st.fields[0].tag, bytes, budget - 1) == Failure(e)
    ensures Visit(full, tag, bytes, budget) == Failure(e)
  {
    FieldsFail(full, st.fields, bytes, budget, e);
  }
}
