/**
 * The documented uses of mserialize: strings and adapted structs written by
 * serialize and read back by deserialize, a tag written before the value it
 * describes, and the self-referential Node tag.
 */
module Documentation {
  import opened Wrappers
  import opened Bytes
  import opened Tags
  import opened Grammar
  import opened Engine
  import opened Serialization
  import opened Codec
  import opened VisitCorrect
  import opened VisitScenarios

  // ---------------------------------------------------------------------
  // std::string: a 32-bit size, then the characters

  /** A std::string: a sequence of one-byte characters. */
  type ByteString = seq<Char8>

  /** The characters of s as the bytes they are stored in. */
  function Raw(s: ByteString): (bs: Bytes)
    ensures |bs| == |s| && forall k | 0 <= k < |s| :: bs[k] == s[k] as int
  {
    seq(|s|, k requires 0 <= k < |s| => s[k] as int)
  }

  /** The characters stored in bs. */
  function Text(bs: Bytes): (s: ByteString)
    ensures |s| == |bs| && forall k | 0 <= k < |bs| :: s[k] as int == bs[k]
  {
    seq(|bs|, k requires 0 <= k < |bs| => bs[k] as char)
  }

  /** serialize(s): the size as a 32-bit count, then the characters. */
  function SerializeString(s: ByteString): Bytes {
    LittleEndian(|s|, 4) + Raw(s)
  }

  /** deserialize(s, stream): the size, then exactly that many characters; a short stream fails. */
  function DeserializeString(bs: Bytes): (r: Option<(ByteString, Bytes)>)
    ensures r.Some? ==> |bs| == 4 + |r.value.0| + |r.value.1|
  {
    if |bs| < 4 then None
    else
      var n := FromLittleEndian(bs[..4]);
      if |bs| - 4 < n then None else Some((Text(bs[4..4 + n]), bs[4 + n..]))
  }

  /** A string reads back as written, and the bytes after it stay in the stream. */
  lemma StringRoundTrip(s: ByteString, rest: Bytes)
    requires |s| < 0x1_0000_0000
    ensures DeserializeString(SerializeString(s) + rest) == Some((s, rest))
  {
    var bs := SerializeString(s) + rest;
    AppendAssoc(LittleEndian(|s|, 4), Raw(s), rest);
    SplitAppend(LittleEndian(|s|, 4), Raw(s) + rest);
    CountRoundTrip(|s|);
    assert bs[4..4 + |s|] == Raw(s);
    assert bs[4 + |s|..] == rest;
    assert Text(Raw(s)) == s;
  }

  /** A stream that ends before the whole string fails instead of yielding a shorter string. */
  lemma StringShortRead(s: ByteString, k: nat)
    requires |s| < 0x1_0000_0000 && k < |SerializeString(s)|
    ensures DeserializeString(SerializeString(s)[..k]) == None
  {
    if k >= 4 {
      var bs := SerializeString(s)[..k];
      assert bs[..4] == LittleEndian(|s|, 4);
      CountRoundTrip(|s|);
    }
  }

  /** The round-trip test: the empty string is its four size bytes, all zero, and reading it consumes exactly them. */
  lemma EmptyStringRoundTrip(rest: Bytes)
    ensures SerializeString([]) == [0, 0, 0, 0]
    ensures DeserializeString(SerializeString([]) + rest) == Some(([], rest))
  {
    StringRoundTrip([], rest);
  }

  /** The tag of std::string. */
  const StringTag: Tag := Sequence(Arith(CharType))

  /** s as a value of StringTag: a sequence of characters. */
  function StringVal(s: ByteString): Val {
    SeqVal(seq(|s|, k requires 0 <= k < |s| => Scalar(CharValue(s[k]))))
  }

  /** The string codec is the sequence codec at element type char: same tag `[c`, same bytes. */
  lemma StringIsSequence(env: Env, s: ByteString)
    ensures Print(StringTag) == "[c"
    ensures Typed(env, StringTag, StringVal(s)) && Depth(StringVal(s)) <= 2
    ensures |s| < 0x1_0000_0000 ==> Valid(StringVal(s))
    ensures Serialize(StringVal(s)) == SerializeString(s)
  {
    CharsBytes(s);
    var vs := StringVal(s).items;
    assert forall k | 0 <= k < |vs| :: Depth(vs[k]) == 1;
    MaxDepthAtMostOne(vs);
  }

  lemma {:induction false} CharsBytes(s: ByteString)
    ensures SerializeAll(StringVal(s).items) == Raw(s)
    decreases |s|
  {
    if |s| > 0 {
      CharsBytes(s[1..]);
      assert StringVal(s).items[1..] == StringVal(s[1..]).items;
      assert Serialize(StringVal(s).items[0]) == [s[0] as int];
      assert Raw(s) == [s[0] as int] + Raw(s[1..]);
    }
  }

  lemma {:induction false} MaxDepthAtMostOne(vs: seq<Val>)
    requires forall k | 0 <= k < |vs| :: Depth(vs[k]) == 1
    ensures MaxDepth(vs) <= 1
    decreases |vs|
  {
    if |vs| > 0 {
      assert forall k | 0 <= k < |vs| - 1 :: vs[1..][k] == vs[k + 1];
      MaxDepthAtMostOne(vs[1..]);
    }
  }

  // ---------------------------------------------------------------------
  // Alpha: a struct adapted with MSERIALIZE_MAKE_STRUCT_(DE)SERIALIZABLE(Alpha, a, b)

  /** struct Alpha { int a; std::string b; } */
  datatype Alpha = Alpha(a: int, b: ByteString)

  /** The values serialize can write: a fits an int, b's size fits the 32-bit count. */
  predicate AlphaValid(x: Alpha) {
    Int32.Contains(x.a) && |x.b| < 0x1_0000_0000
  }

  /** serialize(alpha): member a, then member b, with nothing between. */
  function SerializeAlpha(x: Alpha): Bytes {
    EncodeInt(Int32, x.a) + SerializeString(x.b)
  }

  /** deserialize(alpha): member a, then member b, in the same order. */
  function DeserializeAlpha(bs: Bytes): (r: Option<(Alpha, Bytes)>)
    ensures r.Some? ==> |r.value.1| + 8 <= |bs|
  {
    if |bs| < 4 then None
    else
      match DeserializeString(bs[4..])
      case None => None
      case Some((b, rest)) => Some((Alpha(DecodeInt(Int32, bs[..4]), b), rest))
  }

  /** Every Alpha serialize can write reads back equal, member by member. */
  lemma AlphaRoundTrip(x: Alpha, rest: Bytes)
    requires AlphaValid(x)
    ensures DeserializeAlpha(SerializeAlpha(x) + rest) == Some((x, rest))
  {
    var head := EncodeInt(Int32, x.a);
    AppendAssoc(head, SerializeString(x.b), rest);
    SplitAppend(head, SerializeString(x.b) + rest);
    IntRoundTrip(Int32, x.a);
    StringRoundTrip(x.b, rest);
  }

  /** The adapt_custom_type test: Alpha{30, "foo"} through a stream gives out.a == 30 and out.b == "foo". */
  lemma AlphaExample()
    ensures var out := DeserializeAlpha(SerializeAlpha(Alpha(30, "foo")));
      out.Some? && out.value.0.a == 30 && out.value.0.b == "foo" && out.value.1 == []
  {
    assert SerializeAlpha(Alpha(30, "foo")) + [] == SerializeAlpha(Alpha(30, "foo"));
    AlphaRoundTrip(Alpha(30, "foo"), []);
  }

  /** Alpha's tag, as a struct adapted for visit would have it. */
  const AlphaTag: Tag := Struct("Alpha", [FieldTag("a", Int32Tag), FieldTag("b", StringTag)])

  /** alpha as a value of AlphaTag: its members, in declared order. */
  function AlphaVal(x: Alpha): Val {
    Fields([Int(x.a), StringVal(x.b)])
  }

  /** The adapted struct is the generic aggregate: its bytes are its members' bytes in order, and the generic decoder reads it back. */
  lemma AlphaIsAggregate(env: Env, x: Alpha, rest: Bytes)
    requires AlphaValid(x)
    ensures SerializeAlpha(x) == Serialize(AlphaVal(x))
    ensures Deserialize(env, AlphaTag, SerializeAlpha(x) + rest, 3) == Some(Decoded(AlphaVal(x), rest))
  {
    StringIsSequence(env, x.b);
    var vs := AlphaVal(x).items;
    SerializeTwo(vs[0], vs[1]);
    MaxDepthPair(vs[0], vs[1]);
    DeserializeSerialized(env, AlphaTag, AlphaVal(x), rest, 3);
  }

  lemma MaxDepthPair(a: Val, b: Val)
    ensures MaxDepth([a, b]) == if Depth(a) < Depth(b) then Depth(b) else Depth(a)
  {
    assert [b][1..] == [];
    assert MaxDepth([b]) == Depth(b);
    assert [a, b][1..] == [b];
  }

  /** A struct of two members is written as the first member, then the second. */
  lemma SerializeTwo(a: Val, b: Val)
    ensures SerializeAll([a, b]) == Serialize(a) + Serialize(b)
  {
    assert [b][1..] == [];
    assert SerializeAll([b]) == Serialize(b);
    assert [a, b][1..] == [b];
  }

  // ---------------------------------------------------------------------
  // Pair<A, B>: a template adapted member-wise

  /** The tag of Pair<A, B>, given the tags of A and B. */
  function PairTag(ta: Tag, tb: Tag): Tag {
    Struct("Pair<A,B>", [FieldTag("a", ta), FieldTag("b", tb)])
  }

  /** A Pair<A, B> is written as its a and then its b, and reads back as the same two members. */
  lemma PairRoundTrip(env: Env, ta: Tag, tb: Tag, x: Val, y: Val, rest: Bytes, fuel: nat)
    requires Typed(env, ta, x) && Valid(x) && Depth(x) < fuel
    requires Typed(env, tb, y) && Valid(y) && Depth(y) < fuel
    ensures Serialize(Fields([x, y])) == Serialize(x) + Serialize(y)
    ensures Deserialize(env, PairTag(ta, tb), Serialize(x) + Serialize(y) + rest, fuel) == Some(Decoded(Fields([x, y]), rest))
  {
    var vs := [x, y];
    SerializeTwo(x, y);
    MaxDepthPair(x, y);
    DeserializeSerialized(env, PairTag(ta, tb), Fields(vs), rest, fuel);
  }

  // ---------------------------------------------------------------------
  // Beta: private members reached through getters and setters

  /** The bit pattern of a float (floating point itself is not modelled). */
  type Float32 = u: nat | u < 0x1_0000_0000

  /** class Beta { std::string c; float d; }: the members are private. */
  datatype Beta = Beta(c: ByteString, d: Float32)

  function GetC(x: Beta): ByteString {
    x.c
  }

  function SetC(x: Beta, c: ByteString): (y: Beta)
    ensures GetC(y) == c && GetD(y) == GetD(x)
  {
    x.(c := c)
  }

  function GetD(x: Beta): Float32 {
    x.d
  }

  function SetD(x: Beta, d: Float32): (y: Beta)
    ensures GetD(y) == d && GetC(y) == GetC(x)
  {
    x.(d := d)
  }

  /** MSERIALIZE_MAKE_STRUCT_SERIALIZABLE(Beta, getC, getD): what getC returns, then what getD returns. */
  function SerializeBeta(x: Beta): Bytes {
    SerializeString(GetC(x)) + LittleEndian(GetD(x), 4)
  }

  /** MSERIALIZE_MAKE_STRUCT_DESERIALIZABLE(Beta, setC, setD): read a string and pass it to setC, then a float and pass it to setD. */
  function DeserializeBeta(into: Beta, bs: Bytes): (r: Option<(Beta, Bytes)>)
    ensures r.Some? ==> |r.value.1| + 8 <= |bs|
  {
    match DeserializeString(bs)
    case None => None
    case Some((c, rest)) =>
      if |rest| < 4 then None
      else Some((SetD(SetC(into, c), FromLittleEndian(rest[..4])), rest[4..]))
  }

  /** The getters and setters pair up by position: whatever object is read into, it ends up equal to the one written. */
  lemma BetaRoundTrip(x: Beta, into: Beta, rest: Bytes)
    requires |GetC(x)| < 0x1_0000_0000
    ensures DeserializeBeta(into, SerializeBeta(x) + rest) == Some((x, rest))
  {
    var tail := LittleEndian(GetD(x), 4);
    AppendAssoc(SerializeString(GetC(x)), tail, rest);
    StringRoundTrip(GetC(x), tail + rest);
    SplitAppend(tail, rest);
    assert Pow256(4) == 0x1_0000_0000;
    LittleEndianRoundTrip(GetD(x), 4);
  }

  /** Accessors or fields, the bytes are those of the same members in the same order: a generic struct of a string and a 4-byte value. */
  lemma BetaIsAggregate(x: Beta)
    ensures SerializeBeta(x) == Serialize(Fields([StringVal(x.c), Scalar(IntValue(UInt32, x.d))]))
  {
    StringIsSequence(map[], x.c);
    assert Pow256(4) == 0x1_0000_0000;
    ModSmall(x.d, Pow256(4));
    SerializeTwo(StringVal(x.c), Scalar(IntValue(UInt32, x.d)));
  }

  // ---------------------------------------------------------------------
  // A tag written before the value

  /** Text that a std::string can hold. */
  predicate ByteText(s: string) {
    forall k | 0 <= k < |s| :: s[k] as int < 0x100
  }

  /** The visit_out snippet: serialize the tag string, then the value. */
  function WriteTagged(t: Tag, v: Val): Bytes
    requires ByteText(Print(t))
  {
    SerializeString(Print(t)) + Serialize(v)
  }

  /** The visit_in snippet: deserialize a string, then visit the rest of the stream with it as the tag. */
  function ReadTagged(bs: Bytes): (r: Result<Visited, Error>)
    ensures r.Success? ==> |r.value.rest| + 4 <= |bs|
  {
    match DeserializeString(bs)
    case None => Failure(ShortRead)
    case Some((tag, rest)) => VisitTag(tag, rest)
  }

  /** Reading back a tag-then-value stream visits exactly the value, with the events its type implies. */
  lemma TaggedVisit(env: Env, t: Tag, v: Val, rest: Bytes)
    requires ByteText(Print(t)) && |Print(t)| < 0x1_0000_0000
    requires Resolves(Print(t), env) && WellFormed(t) && Typed(env, t, v) && Valid(v) && Depth(v) <= MaxRecursion
    ensures ReadTagged(WriteTagged(t, v) + rest) == Success(Visited(Events(env, t, v), rest))
  {
    var tag: ByteString := Print(t);
    AppendAssoc(SerializeString(tag), Serialize(v), rest);
    StringRoundTrip(tag, Serialize(v) + rest);
    VisitTagSerialized(env, t, v, rest);
  }

  /** The visit test with T = std::string and an empty value: tag `[c`, then an empty sequence. */
  lemma EmptyStringTagged()
    ensures ReadTagged(WriteTagged(StringTag, StringVal([]))) == Success(Visited([SequenceBegin(0, "c"), SequenceEnd], []))
  {
    StringIsSequence(map[], []);
    assert Resolves(Print(StringTag), map[]);
    assert Events(map[], StringTag, StringVal([])) == [SequenceBegin(0, "c")] + [] + [SequenceEnd];
    assert ByteText(Print(StringTag));
    assert WellFormed(StringTag);
    assert WriteTagged(StringTag, StringVal([])) + [] == WriteTagged(StringTag, StringVal([]));
    TaggedVisit(map[], StringTag, StringVal([]), []);
    assert [SequenceBegin(0, "c")] + [] + [SequenceEnd] == [SequenceBegin(0, "c"), SequenceEnd];
  }

  // ---------------------------------------------------------------------
  // The recursive Node tag: struct Node { int value; Node* next; }

  /** `Node*`: a variant of null and a reference back to the enclosing Node. */
  const PointerToNode: Tag := Variant([NullAlt, Struct("Node", [])])

  function NodeFields(): seq<FieldTag> {
    [FieldTag("value", Int32Tag), FieldTag("next", PointerToNode)]
  }

  /** CustomTag<Node>. */
  const NodeTag: Tag := Struct("Node", NodeFields())

  function NodeEnv(): Env {
    map["Node" := NodeFields()]
  }

  lemma NodeTagText()
    ensures Print(NodeTag) == "{Node`value'i`next'<0{Node}>}"
  {
    NodeFieldsText();
    NodeTagJoin();
  }

  lemma NodeTagJoin()
    ensures "{" + "Node" + "`value'i`next'<0{Node}>" + "}" == "{Node`value'i`next'<0{Node}>}"
  {
  }

  lemma NodeFieldsText()
    ensures PrintFields(NodeFields()) == "`value'i`next'<0{Node}>"
  {
    var f0, f1 := FieldTag("value", Int32Tag), FieldTag("next", PointerToNode);
    assert NodeFields() == [f0] + [f1];
    assert ([f0] + [f1])[1..] == [f1];
    assert [f1][1..] == [];
    ValueFieldText();
    NextFieldText();
    NodeFieldsJoin();
  }

  lemma ValueFieldText()
    ensures "`" + "value" + "'" + Print(Int32Tag) == "`value'i"
  {
  }

  lemma NextFieldText()
    ensures "`" + "next" + "'" + Print(PointerToNode) + "" == "`next'<0{Node}>"
  {
    PointerToNodeText();
  }

  lemma PointerToNodeText()
    ensures Print(PointerToNode) == "<0{Node}>"
  {
    assert [NullAlt, Struct("Node", [])][1..] == [Struct("Node", [])];
  }

  lemma NodeFieldsJoin()
    ensures "`value'i" + "`next'<0{Node}>" == "`value'i`next'<0{Node}>"
  {
  }

  lemma NodeWellFormed()
    ensures WellFormed(NodeTag) && WellFormed(PointerToNode)
  {
    NodeNames();
    assert WellFormed(Struct("Node", []));
  }

  lemma NodeNames()
    ensures Name("Node") && Name("value") && Name("next")
  {
    PlainName("Node");
    PlainName("value");
    PlainName("next");
  }

  /** The reference `{Node}` within the tag stands for the struct itself. */
  lemma NodeResolves()
    ensures Resolves(Print(NodeTag), NodeEnv()) && WellFormed(NodeTag)
  {
    var full := Print(NodeTag);
    NodeWellFormed();
    FindOwnDefinition("Node", NodeFields(), "");
    assert full[0..] == full + "";
    ResolvesAt(full, "Node", NodeFields(), 0, "");
  }

  /** A node holding x whose next pointer leads through the nodes holding next. */
  function NodeVal(x: int, next: seq<int>): Val
    decreases |next|, 1
  {
    Fields([Int(x), PointerVal(next)])
  }

  /** A pointer to the list of nodes holding xs: null when xs is empty. */
  function PointerVal(xs: seq<int>): Val
    decreases |xs|, 0
  {
    if |xs| == 0 then Alternative(0, NullVal) else Alternative(1, NodeVal(xs[0], xs[1..]))
  }

  predicate Ints(xs: seq<int>) {
    forall k | 0 <= k < |xs| :: Int32.Contains(xs[k])
  }

  lemma {:induction false} NodeFacts(x: int, next: seq<int>)
    requires Int32.Contains(x) && Ints(next)
    ensures Typed(NodeEnv(), NodeTag, NodeVal(x, next)) && Typed(NodeEnv(), Struct("Node", []), NodeVal(x, next))
    ensures Valid(NodeVal(x, next)) && Depth(NodeVal(x, next)) == 2 * |next| + 2
    decreases |next|, 1
  {
    PointerFacts(next);
    MaxDepthPair(Int(x), PointerVal(next));
  }

  lemma {:induction false} PointerFacts(xs: seq<int>)
    requires Ints(xs)
    ensures Typed(NodeEnv(), PointerToNode, PointerVal(xs))
    ensures Valid(PointerVal(xs)) && Depth(PointerVal(xs)) == 2 * |xs| + 1
    decreases |xs|, 0
  {
    if |xs| > 0 {
      NodeFacts(xs[0], xs[1..]);
    }
  }

  /** The entry into a Node that the engine reports. */
  function NodeBegin(): Event {
    StructBegin("Node", PrintFields(NodeFields()))
  }

  /** The visit of a list enters and leaves Node once per node, and meets the null pointer once, at the end. */
  lemma {:induction false} NodeEvents(x: int, next: seq<int>)
    ensures var es := Events(NodeEnv(), NodeTag, NodeVal(x, next));
      multiset(es)[NodeBegin()] == |next| + 1 && multiset(es)[StructEnd] == |next| + 1 && multiset(es)[Null] == 1
    ensures Events(NodeEnv(), Struct("Node", []), NodeVal(x, next)) == Events(NodeEnv(), NodeTag, NodeVal(x, next))
    decreases |next|, 1
  {
    var p := PointerVal(next);
    PointerEvents(next);
    NodeShape(x, p);
    var pre := [NodeBegin(), FieldBegin("value", "i"), Prim(IntValue(Int32, x)), FieldEnd, FieldBegin("next", Print(PointerToNode))];
    assert multiset(pre)[NodeBegin()] == 1 && multiset(pre)[StructEnd] == 0 && multiset(pre)[Null] == 0;
  }

  /** The events of a node: its entry, the value field, the next field around the pointer's events, its exit. */
  lemma NodeShape(x: int, p: Val)
    ensures var pre := [NodeBegin(), FieldBegin("value", "i"), Prim(IntValue(Int32, x)), FieldEnd, FieldBegin("next", Print(PointerToNode))];
      Events(NodeEnv(), NodeTag, Fields([Int(x), p])) == pre + Events(NodeEnv(), PointerToNode, p) + [FieldEnd, StructEnd]
    ensures Events(NodeEnv(), Struct("Node", []), Fields([Int(x), p])) == Events(NodeEnv(), NodeTag, Fields([Int(x), p]))
  {
    NodeFieldsEvents(x, p);
    NodeDefinition();
  }

  /** Both node tags find the same fields: the full list, or the one the environment holds for Node. */
  lemma NodeDefinition()
    ensures Def(NodeEnv(), "Node", []) == NodeFields() == Def(NodeEnv(), "Node", NodeFields())
  {
  }

  /** The events of a node's two fields. */
  lemma NodeFieldsEvents(x: int, p: Val)
    ensures EventsFields(NodeEnv(), NodeFields(), [Int(x), p]) ==
      [FieldBegin("value", "i"), Prim(IntValue(Int32, x)), FieldEnd, FieldBegin("next", Print(PointerToNode))]
      + Events(NodeEnv(), PointerToNode, p) + [FieldEnd]
  {
    var env, gs, vs := NodeEnv(), NodeFields(), [Int(x), p];
    assert gs[1..][1..] == [] && vs[1..][1..] == [];
    var mid := Events(env, PointerToNode, p);
    assert EventsFields(env, gs[1..], vs[1..]) == [FieldBegin("next", Print(PointerToNode))] + mid + [FieldEnd];
  }

  lemma {:induction false} PointerEvents(xs: seq<int>)
    ensures var es := Events(NodeEnv(), PointerToNode, PointerVal(xs));
      multiset(es)[NodeBegin()] == |xs| && multiset(es)[StructEnd] == |xs| && multiset(es)[Null] == 1
    decreases |xs|, 0
  {
    if |xs| > 0 {
      NodeEvents(xs[0], xs[1..]);
    }
  }

  /** Scenario: a list of n nodes, up to the nesting bound, visited under the Node tag, enters and leaves Node exactly n times. */
  lemma NodeListVisit(x: int, next: seq<int>)
    requires Int32.Contains(x) && Ints(next) && |next| < 1024
    ensures var r := VisitTag("{Node`value'i`next'<0{Node}>}", Serialize(NodeVal(x, next)));
      r.Success? && r.value.rest == [] &&
      multiset(r.value.events)[NodeBegin()] == |next| + 1 && multiset(r.value.events)[StructEnd] == |next| + 1
  {
    NodeTagText();
    NodeResolves();
    NodeFacts(x, next);
    NodeEvents(x, next);
    assert Serialize(NodeVal(x, next)) + [] == Serialize(NodeVal(x, next));
    VisitTagSerialized(NodeEnv(), NodeTag, NodeVal(x, next), []);
  }

  /** Three linked nodes: three entries into Node and three exits. */
  lemma ThreeNodes()
    ensures var r := VisitTag("{Node`value'i`next'<0{Node}>}", Serialize(NodeVal(1, [2, 3])));
      r.Success? && multiset(r.value.events)[NodeBegin()] == 3 && multiset(r.value.events)[StructEnd] == 3
  {
    NodeListVisit(1, [2, 3]);
  }
}
