/**
 * The recursive Tree of the engine's tests: a struct whose left and right
 * members are pointers to Tree, tagged `{Tree`value'i`left'<0{Tree}>`right'<0{Tree}>}`
 * with the references resolved to the struct itself.  What ToString shows
 * for a tree is the test's leaf and node texts, for trees of any shape.
 */
module TreeRendering {
  import opened Wrappers
  import opened Bytes
  import opened Text
  import opened Tags
  import opened Grammar
  import opened Engine
  import opened Serialization
  import opened VisitCorrect
  import opened VisitScenarios
  import opened ReferenceVisitors
  import opened Rendering

  /** A Tree node: its value and its two (possibly null) children. */
  datatype Tree = Node(value: int, left: Option<Tree>, right: Option<Tree>)

  /** `Tree*`: a variant of null and a reference to Tree. */
  const PointerToTree: Tag := Variant([NullAlt, Struct("Tree", [])])

  function TreeFields(): seq<FieldTag> {
    [FieldTag("value", Int32Tag), FieldTag("left", PointerToTree), FieldTag("right", PointerToTree)]
  }

  const TreeTag: Tag := Struct("Tree", TreeFields())

  function TreeEnv(): Env {
    map["Tree" := TreeFields()]
  }

  /** The value serialize writes for a tree: its members in order, a child as alternative 1, a null child as alternative 0. */
  function TreeVal(t: Tree): Val
    decreases t
  {
    Fields([Int(t.value), BranchVal(t.left), BranchVal(t.right)])
  }

  function BranchVal(b: Option<Tree>): Val
    decreases b
  {
    match b
    case None => Alternative(0, NullVal)
    case Some(c) => Alternative(1, TreeVal(c))
  }

  /** Values fit an int. */
  predicate TreeValid(t: Tree)
    decreases t
  {
    -0x8000_0000 <= t.value < 0x8000_0000 && BranchValid(t.left) && BranchValid(t.right)
  }

  predicate BranchValid(b: Option<Tree>)
    decreases b
  {
    match b
    case None => true
    case Some(c) => TreeValid(c)
  }

  /** Levels of nodes. */
  function Height(t: Tree): (h: nat)
    ensures h >= 1
    decreases t
  {
    var l, r := BranchHeight(t.left), BranchHeight(t.right);
    1 + (if l < r then r else l)
  }

  function BranchHeight(b: Option<Tree>): nat
    decreases b
  {
    match b
    case None => 0
    case Some(c) => Height(c)
  }

  // ---------------------------------------------------------------------
  // The text the tests expect

  /** The fields of CustomTag<Tree>, as the tag spells them. */
  const TreeTagFields := "`value'i`left'<0{Tree}>`right'<0{Tree}>"

  /**
   * What ToString shows for a tree: the struct header, then the value and
   * both children, each field closed by `, `.
   */
  function Show(t: Tree): string
    decreases t
  {
    "StB(Tree," + TreeTagFields + ") { "
      + "value(i): " + Decimal(t.value) + " " + ", "
      + "left(<0{Tree}>): " + ShowBranch(t.left) + ", "
      + "right(<0{Tree}>): " + ShowBranch(t.right) + ", "
      + "} "
  }

  /** A child pointer: `VB(0,0)< {null} > ` when null, else `VB(1,{Tree})< ` and the child. */
  function ShowBranch(b: Option<Tree>): string
    decreases b
  {
    match b
    case None => "VB(0,0)< {null} > "
    case Some(c) => "VB(1,{Tree})< " + Show(c) + "> "
  }

  /** The test's `leaf` text: a node without children. */
  function Leaf(v: int): string {
    "StB(Tree," + TreeTagFields + ") " + "{ value(i): " + Decimal(v)
      + " , left(<0{Tree}>): " + "VB(0,0)< {null} >"
      + " , right(<0{Tree}>): " + "VB(0,0)< {null} >" + " , } "
  }

  /** The test's `node` text, around the texts of the two children. */
  function NodeText(v: int, l: string, r: string): string {
    "StB(Tree," + TreeTagFields + ") " + "{ value(i): " + Decimal(v)
      + " , left(<0{Tree}>): " + "VB(1,{Tree})< " + l + ">"
      + " , right(<0{Tree}>): " + "VB(1,{Tree})< " + r + ">" + " , } "
  }

  /** A leaf shows as the test's leaf text. */
  lemma ShowLeaf(v: int)
    ensures Show(Node(v, None, None)) == Leaf(v)
  {
    LeafGlue();
    TestShape("StB(Tree," + TreeTagFields, ") { ", ") ", "value(i): ", "{ value(i): ", Decimal(v), " ", ", ",
      "left(<0{Tree}>): ", " , left(<0{Tree}>): ", "VB(0,0)< {null} > ", "VB(0,0)< {null} >",
      "right(<0{Tree}>): ", " , right(<0{Tree}>): ", "VB(0,0)< {null} > ", "VB(0,0)< {null} >", "} ", " , } ");
  }

  /** A node with two children shows as the test's node text around the children's texts. */
  lemma ShowNode(v: int, a: Tree, b: Tree)
    ensures Show(Node(v, Some(a), Some(b))) == NodeText(v, Show(a), Show(b))
  {
    var h, vb := "StB(Tree," + TreeTagFields, "VB(1,{Tree})< ";
    var x, y := vb + Show(a) + "> ", vb + Show(b) + "> ";
    LeafGlue();
    TextAssoc(vb + Show(a), ">", " ");
    TextAssoc(vb + Show(b), ">", " ");
    TestShape(h, ") { ", ") ", "value(i): ", "{ value(i): ", Decimal(v), " ", ", ",
      "left(<0{Tree}>): ", " , left(<0{Tree}>): ", x, vb + Show(a) + ">",
      "right(<0{Tree}>): ", " , right(<0{Tree}>): ", y, vb + Show(b) + ">", "} ", " , } ");
    var p := h + ") " + "{ value(i): " + Decimal(v) + " , left(<0{Tree}>): ";
    Reassociate(p, vb, Show(a), ">");
    Reassociate(p + vb + Show(a) + ">" + " , right(<0{Tree}>): ", vb, Show(b), ">");
  }

  /** The literal pieces the test's texts and Show join differently. */
  lemma LeafGlue()
    ensures ") { " + "value(i): " == ") " + "{ value(i): "
    ensures " " + ", " + "left(<0{Tree}>): " == " , left(<0{Tree}>): "
    ensures " " + ", " + "right(<0{Tree}>): " == " , right(<0{Tree}>): "
    ensures " " + ", " + "} " == " , } "
    ensures "VB(0,0)< {null} > " == "VB(0,0)< {null} >" + " "
    ensures "> " == ">" + " "
  {
  }

  /** Show's joins against the test's, for children texts x and y that end in a space. */
  lemma TestShape(h: string, o: string, o1: string, v: string, v1: string, d: string, sp: string, c: string,
                  l: string, lj: string, x: string, x0: string, r: string, rj: string, y: string, y0: string, e: string, ej: string)
    requires o + v == o1 + v1
    requires sp + c + l == lj && sp + c + r == rj && sp + c + e == ej
    requires x == x0 + sp && y == y0 + sp
    ensures h + o + v + d + sp + c + l + x + c + r + y + c + e
      == h + o1 + v1 + d + lj + x0 + rj + y0 + ej
  {
    TextAssoc(h, o, v);
    TextAssoc(h, o1, v1);
    Regroup(h + o1 + v1 + d, sp, c, l);
    TextAssoc(h + o1 + v1 + d + lj, x0, sp);
    Regroup(h + o1 + v1 + d + lj + x0, sp, c, r);
    TextAssoc(h + o1 + v1 + d + lj + x0 + rj, y0, sp);
    Regroup(h + o1 + v1 + d + lj + x0 + rj + y0, sp, c, e);
  }

  lemma Regroup(p: string, a: string, b: string, c: string)
    ensures p + a + b + c == p + (a + b + c)
  {
    TextAssoc(p, a, b);
    TextAssoc(p, a + b, c);
  }

  lemma Reassociate(p: string, a: string, b: string, c: string)
    ensures p + (a + b + c) == p + a + b + c
  {
    Regroup(p, a, b, c);
  }

  // ---------------------------------------------------------------------
  // What ToString writes for a tree

  /** A visit of a tree, through its own tag or through the reference `{Tree}`, shows Show. */
  lemma {:induction false} TreeText(fs: seq<FieldTag>, t: Tree)
    requires fs == [] || fs == TreeFields()
    ensures Written(Events(TreeEnv(), Struct("Tree", fs), TreeVal(t))) == Show(t)
    decreases t
  {
    var env, gs := TreeEnv(), TreeFields();
    assert Def(env, "Tree", fs) == gs;
    StructText(env, "Tree", fs, TreeVal(t).items);
    BranchText(t.left);
    BranchText(t.right);
    TreeFieldsText(t);
    TreeHeader();
    StructRegroup("StB(Tree," + TreeTagFields + ") { ",
      "value(i): ", Decimal(t.value), "left(<0{Tree}>): ", ShowBranch(t.left), "right(<0{Tree}>): ", ShowBranch(t.right));
  }

  /** A child pointer shows as ShowBranch. */
  lemma {:induction false} BranchText(b: Option<Tree>)
    ensures Written(Events(TreeEnv(), PointerToTree, BranchVal(b))) == ShowBranch(b)
    decreases b
  {
    match b
    case None =>
      NullText(TreeEnv(), PointerToTree.alts, 0);
      NullPointerLiteral();
    case Some(c) =>
      AlternativeText(TreeEnv(), PointerToTree.alts, 1, TreeVal(c));
      TreeText([], c);
      ChildLiteral();
  }

  /** The three fields of a node, given the texts of its children. */
  lemma TreeFieldsText(t: Tree)
    requires Written(Events(TreeEnv(), PointerToTree, BranchVal(t.left))) == ShowBranch(t.left)
    requires Written(Events(TreeEnv(), PointerToTree, BranchVal(t.right))) == ShowBranch(t.right)
    ensures FieldsText(TreeEnv(), TreeFields(), TreeVal(t).items)
      == "value(i): " + Decimal(t.value) + " " + ", " + "left(<0{Tree}>): " + ShowBranch(t.left) + ", "
      + "right(<0{Tree}>): " + ShowBranch(t.right) + ", "
  {
    var env := TreeEnv();
    ThreeFields(env, FieldTag("value", Int32Tag), FieldTag("left", PointerToTree), FieldTag("right", PointerToTree),
      Int(t.value), BranchVal(t.left), BranchVal(t.right));
    WrittenOne(Prim(IntValue(Int32, t.value)));
    TreeLabels();
    FieldsRegroup("value(i): ", Decimal(t.value), "left(<0{Tree}>): ", ShowBranch(t.left), "right(<0{Tree}>): ", ShowBranch(t.right));
  }

  lemma EventsFieldsCons(env: Env, g: FieldTag, gs: seq<FieldTag>, v: Val, vs: seq<Val>)
    ensures FieldsText(env, [g] + gs, [v] + vs)
      == g.name + "(" + Print(g.tag) + "): " + Written(Events(env, g.tag, v)) + ", " + FieldsText(env, gs, vs)
  {
    assert ([g] + gs)[1..] == gs && ([v] + vs)[1..] == vs;
  }

  /** The text of three fields, field by field. */
  lemma ThreeFields(env: Env, g0: FieldTag, g1: FieldTag, g2: FieldTag, v0: Val, v1: Val, v2: Val)
    ensures FieldsText(env, [g0, g1, g2], [v0, v1, v2])
      == g0.name + "(" + Print(g0.tag) + "): " + Written(Events(env, g0.tag, v0)) + ", "
      + (g1.name + "(" + Print(g1.tag) + "): " + Written(Events(env, g1.tag, v1)) + ", "
      + (g2.name + "(" + Print(g2.tag) + "): " + Written(Events(env, g2.tag, v2)) + ", " + ""))
  {
    assert [g0, g1, g2] == [g0] + ([g1] + [g2]) && [v0, v1, v2] == [v0] + ([v1] + [v2]);
    EventsFieldsCons(env, g0, [g1] + [g2], v0, [v1] + [v2]);
    EventsFieldsCons(env, g1, [g2], v1, [v2]);
    assert [g2] == [g2] + [] && [v2] == [v2] + [];
    EventsFieldsCons(env, g2, [], v2, []);
  }

  /** Moving the parentheses of the field texts. */
  lemma FieldsRegroup(l0: string, d: string, l1: string, b1: string, l2: string, b2: string)
    ensures l0 + (d + " ") + ", " + (l1 + b1 + ", " + (l2 + b2 + ", " + ""))
      == l0 + d + " " + ", " + l1 + b1 + ", " + l2 + b2 + ", "
  {
  }

  lemma StructRegroup(h: string, l0: string, d: string, l1: string, b1: string, l2: string, b2: string)
    ensures h + (l0 + d + " " + ", " + l1 + b1 + ", " + l2 + b2 + ", ") + "} "
      == h + l0 + d + " " + ", " + l1 + b1 + ", " + l2 + b2 + ", " + "} "
  {
  }

  lemma PrintFieldsCons(g: FieldTag, gs: seq<FieldTag>)
    ensures PrintFields([g] + gs) == "`" + g.name + "'" + Print(g.tag) + PrintFields(gs)
  {
    assert ([g] + gs)[1..] == gs;
  }

  /** The fields of Tree print as CustomTag<Tree> spells them. */
  lemma TreeFieldsPrint()
    ensures PrintFields(TreeFields()) == TreeTagFields
  {
    var f0, f1, f2 := FieldTag("value", Int32Tag), FieldTag("left", PointerToTree), FieldTag("right", PointerToTree);
    assert TreeFields() == [f0] + ([f1] + ([f2] + []));
    PrintFieldsCons(f0, [f1] + ([f2] + []));
    PrintFieldsCons(f1, [f2] + []);
    PrintFieldsCons(f2, []);
    FieldPrints();
    FieldPrintsJoin();
  }

  lemma PointerToTreePrint()
    ensures Print(PointerToTree) == "<0{Tree}>"
  {
  }

  lemma FieldPrints()
    ensures "`" + "value" + "'" + Print(Int32Tag) == "`value'i"
    ensures "`" + "left" + "'" + Print(PointerToTree) == "`left'<0{Tree}>"
    ensures "`" + "right" + "'" + Print(PointerToTree) == "`right'<0{Tree}>"
  {
    PointerToTreePrint();
  }

  lemma FieldPrintsJoin()
    ensures "`value'i" + ("`left'<0{Tree}>" + ("`right'<0{Tree}>" + "")) == TreeTagFields
  {
    assert "`right'<0{Tree}>" + "" == "`right'<0{Tree}>";
    TextAssoc("`value'i", "`left'<0{Tree}>", "`right'<0{Tree}>");
    ValueLeftJoin();
    RightJoin();
  }

  lemma ValueLeftJoin()
    ensures "`value'i" + "`left'<0{Tree}>" == "`value'i`left'<0{Tree}>"
  {
  }

  lemma RightJoin()
    ensures "`value'i`left'<0{Tree}>" + "`right'<0{Tree}>" == TreeTagFields
  {
  }

  lemma TreeHeader()
    ensures "StB(" + "Tree" + "," + PrintFields(TreeFields()) + ") { " == "StB(Tree," + TreeTagFields + ") { "
  {
    TreeFieldsPrint();
    HeaderStart();
  }

  lemma HeaderStart()
    ensures "StB(" + "Tree" + "," == "StB(Tree,"
  {
  }

  lemma TreeLabels()
    ensures "value" + "(" + Print(Int32Tag) + "): " == "value(i): "
    ensures "left" + "(" + Print(PointerToTree) + "): " == "left(<0{Tree}>): "
    ensures "right" + "(" + Print(PointerToTree) + "): " == "right(<0{Tree}>): "
  {
    PointerToTreePrint();
  }

  lemma ChildLiteral()
    ensures "VB(" + Decimal(1) + "," + Print(PointerToTree.alts[1]) + ")< " == "VB(1,{Tree})< "
  {
  }

  // ---------------------------------------------------------------------
  // Trees are serializable

  /** A valid tree of at most 1024 levels can be serialized and visited: each level takes two nesting levels, the struct and the pointer. */
  lemma TreeSerializable(t: Tree)
    requires TreeValid(t) && Height(t) <= 1024
    ensures Serializable(TreeEnv(), TreeTag, TreeVal(t))
  {
    TreeResolves();
    TreeWellFormed();
    TreeTyped(TreeFields(), t);
    TreeValValid(t);
    TreeDepth(t);
  }

  lemma TreeWellFormed()
    ensures WellFormed(TreeTag) && WellFormed(PointerToTree)
  {
    TreeNames();
    assert WellFormed(Struct("Tree", []));
  }

  lemma TreeNames()
    ensures Name("Tree") && Name("value") && Name("left") && Name("right")
  {
    PlainName("Tree");
    PlainName("value");
    PlainName("left");
    PlainName("right");
  }

  /** The reference `{Tree}` within the tag stands for the struct itself. */
  lemma TreeResolves()
    ensures Resolves(Print(TreeTag), TreeEnv())
  {
    var full := Print(TreeTag);
    TreeWellFormed();
    FindOwnDefinition("Tree", TreeFields(), "");
    assert full[0..] == full + "";
    ResolvesAt(full, "Tree", TreeFields(), 0, "");
  }

  /** The tag the model builds is CustomTag<Tree>. */
  lemma TreeTagPrint()
    ensures Print(TreeTag) == "{" + "Tree" + TreeTagFields + "}"
  {
    TreeFieldsPrint();
  }

  lemma {:induction false} TreeTyped(fs: seq<FieldTag>, t: Tree)
    requires fs == [] || fs == TreeFields()
    ensures Typed(TreeEnv(), Struct("Tree", fs), TreeVal(t))
    decreases t
  {
    BranchTyped(t.left);
    BranchTyped(t.right);
  }

  lemma {:induction false} BranchTyped(b: Option<Tree>)
    ensures Typed(TreeEnv(), PointerToTree, BranchVal(b))
    decreases b
  {
    match b
    case None =>
    case Some(c) => TreeTyped([], c);
  }

  lemma {:induction false} TreeValValid(t: Tree)
    requires TreeValid(t)
    ensures Valid(TreeVal(t))
    decreases t
  {
    BranchValValid(t.left);
    BranchValValid(t.right);
  }

  lemma {:induction false} BranchValValid(b: Option<Tree>)
    requires BranchValid(b)
    ensures Valid(BranchVal(b))
    decreases b
  {
    match b
    case None =>
    case Some(c) => TreeValValid(c);
  }

  /** The engine nests twice per level of the tree. */
  lemma {:induction false} TreeDepth(t: Tree)
    ensures Depth(TreeVal(t)) == 2 * Height(t)
    decreases t
  {
    BranchDepth(t.left);
    BranchDepth(t.right);
    var vs := TreeVal(t).items;
    assert MaxDepth(vs) == 1 + 2 * (Height(t) - 1) by {
      MaxDepthThree(vs[0], vs[1], vs[2]);
    }
  }

  lemma {:induction false} BranchDepth(b: Option<Tree>)
    ensures Depth(BranchVal(b)) == 1 + 2 * BranchHeight(b)
    decreases b
  {
    match b
    case None =>
    case Some(c) => TreeDepth(c);
  }

  lemma MaxDepthThree(a: Val, b: Val, c: Val)
    ensures var da, db, dc := Depth(a), Depth(b), Depth(c);
      MaxDepth([a, b, c]) == if da < db then (if db < dc then dc else db) else (if da < dc then dc else da)
  {
    assert [a, b, c] == [a] + ([b] + ([c] + []));
    MaxDepthCons(a, [b] + ([c] + []));
    MaxDepthCons(b, [c] + []);
    MaxDepthCons(c, []);
  }

  lemma MaxDepthCons(v: Val, vs: seq<Val>)
    ensures MaxDepth([v] + vs) == if Depth(v) < MaxDepth(vs) then MaxDepth(vs) else Depth(v)
  {
    assert ([v] + vs)[1..] == vs;
  }

  // ---------------------------------------------------------------------
  // The recursive_struct tests

  /** serialize_and_visit<ToString> of a tree shows it as the leaf and node texts describe. */
  method RecursiveStruct(t: Tree) returns (out: Result<string, Error>)
    ensures TreeValid(t) && Height(t) <= 1024 ==> out == Success(Show(t))
  {
    out := SerializeAndShow(TreeEnv(), TreeTag, TreeVal(t));
    if TreeValid(t) && Height(t) <= 1024 {
      TreeSerializable(t);
      TreeText(TreeFields(), t);
    }
  }

  /** The test's tree: 1 over 2 and 5, over the leaves 3, 4 and 6, 7. */
  function SevenNodes(): Tree {
    var n: Option<Tree> := None;
    var a, b, c, d := Node(3, n, n), Node(4, n, n), Node(6, n, n), Node(7, n, n);
    var e, f := Node(2, Some(a), Some(b)), Node(5, Some(c), Some(d));
    Node(1, Some(e), Some(f))
  }

  lemma SevenNodesFacts()
    ensures TreeValid(SevenNodes()) && Height(SevenNodes()) == 3
  {
  }

  method SevenNodesShown() returns (out: Result<string, Error>)
    ensures out == Success(NodeText(1, NodeText(2, Leaf(3), Leaf(4)), NodeText(5, Leaf(6), Leaf(7))))
  {
    var g := SevenNodes();
    SevenNodesFacts();
    out := RecursiveStruct(g);
    var e, f := g.left.value, g.right.value;
    ShowLeaf(3);
    ShowLeaf(4);
    ShowLeaf(6);
    ShowLeaf(7);
    ShowNode(2, e.left.value, e.right.value);
    ShowNode(5, f.left.value, f.right.value);
    ShowNode(1, e, f);
  }

  /** The tuple of tuple_of_recursive_struct: two trees around an int, each tree tag defining Tree. */
  function TreeTupleTag(): Tag {
    Tuple([TreeTag, Int32Tag, TreeTag])
  }

  /** The first `{Tree`` of the tuple tag is the first member's, right after the `(`. */
  lemma TreeTupleResolves()
    ensures Resolves(Print(TreeTupleTag()), TreeEnv())
  {
    var p := Print(TreeTag);
    var post := "i" + p + ")";
    var full := Print(TreeTupleTag());
    var pat := "{" + "Tree" + "`";
    TreeTuplePrint();
    TreeWellFormed();
    FindOwnDefinition("Tree", TreeFields(), post);
    FindPastFirst(full, pat, p + post);
    assert full[1..] == p + post;
    ResolvesAt(full, "Tree", TreeFields(), 1, post);
  }

  lemma TreeTupleItemsPrint()
    ensures PrintAll(TreeTupleTag().items) == Print(TreeTag) + "i" + Print(TreeTag)
  {
    var p := Print(TreeTag);
    PrintAllThree(TreeTag, Int32Tag, TreeTag);
    assert Print(Int32Tag) == "i";
    TextAssoc(p, "i", p + "");
    assert p + "" == p;
  }

  lemma TreeTuplePrint()
    ensures Print(TreeTupleTag()) == "(" + (Print(TreeTag) + ("i" + Print(TreeTag) + ")"))
  {
    var p := Print(TreeTag);
    TreeTupleItemsPrint();
    TextAssoc("(" + p, "i" + p, ")");
    TextAssoc("(", p, "i" + p + ")");
    TextAssoc("i", p, ")");
  }

  lemma PrintAllThree(a: Tag, b: Tag, c: Tag)
    ensures PrintAll([a, b, c]) == Print(a) + (Print(b) + (Print(c) + ""))
  {
    assert [a, b, c] == [a] + ([b] + ([c] + []));
    PrintAllCons(a, [b] + ([c] + []));
    PrintAllCons(b, [c] + []);
    PrintAllCons(c, []);
  }

  lemma PrintAllCons(t: Tag, ts: seq<Tag>)
    ensures PrintAll([t] + ts) == Print(t) + PrintAll(ts)
  {
    assert ([t] + ts)[1..] == ts;
  }

  /** A pattern beginning with `{` and found in rest is found first after a leading `(`. */
  lemma FindPastFirst(s: string, pat: string, rest: string)
    requires |pat| > 0 && pat[0] == '{' && s == "(" + rest
    requires Find(rest, pat, 0) == Some(0)
    ensures Find(s, pat, 0) == Some(1)
  {
    assert rest[0..|pat|] == pat;
    assert s[1..1 + |pat|] == rest[0..|pat|];
    assert s[0..|pat|][0] == '(';
  }

  lemma EventsAllCons(env: Env, t: Tag, ts: seq<Tag>, v: Val, vs: seq<Val>)
    ensures AllText(env, [t] + ts, [v] + vs) == Written(Events(env, t, v)) + AllText(env, ts, vs)
  {
    assert ([t] + ts)[1..] == ts && ([v] + vs)[1..] == vs;
  }

  lemma AllThree(env: Env, t0: Tag, t1: Tag, t2: Tag, v0: Val, v1: Val, v2: Val)
    ensures AllText(env, [t0, t1, t2], [v0, v1, v2])
      == Written(Events(env, t0, v0)) + (Written(Events(env, t1, v1)) + (Written(Events(env, t2, v2)) + ""))
  {
    assert [t0, t1, t2] == [t0] + ([t1] + ([t2] + [])) && [v0, v1, v2] == [v0] + ([v1] + ([v2] + []));
    EventsAllCons(env, t0, [t1] + ([t2] + []), v0, [v1] + ([v2] + []));
    EventsAllCons(env, t1, [t2] + [], v1, [v2] + []);
    EventsAllCons(env, t2, [], v2, []);
  }

  /** Trees of at most 1023 levels, so that the tuple around them stays within the nesting bound. */
  predicate TupleFits(a: Tree, i: int, b: Tree) {
    TreeValid(a) && Height(a) < 1024 && TreeValid(b) && Height(b) < 1024 && -0x8000_0000 <= i < 0x8000_0000
  }

  /** serialize_and_visit<ToString> of (tree, int, tree): each tree as Show has it, the int between. */
  method TupleOfRecursiveStruct(a: Tree, i: int, b: Tree) returns (out: Result<string, Error>)
    ensures TupleFits(a, i, b) ==>
      out == Success("TB(" + PrintAll(TreeTupleTag().items) + ")( " + Show(a) + (Decimal(i) + " ") + Show(b) + ") ")
  {
    var v := TupleVal([TreeVal(a), Int(i), TreeVal(b)]);
    out := SerializeAndShow(TreeEnv(), TreeTupleTag(), v);
    if TupleFits(a, i, b) {
      TreeTupleSerializable(a, i, b);
      TreeTupleText(a, i, b);
    }
  }

  lemma TreeTupleText(a: Tree, i: int, b: Tree)
    ensures Written(Events(TreeEnv(), TreeTupleTag(), TupleVal([TreeVal(a), Int(i), TreeVal(b)])))
      == "TB(" + PrintAll(TreeTupleTag().items) + ")( " + Show(a) + (Decimal(i) + " ") + Show(b) + ") "
  {
    TreeShown(a);
    TreeShown(b);
    IntShown(i);
    TripleShown(TreeEnv(), TreeTag, Int32Tag, TreeTag, TreeVal(a), Int(i), TreeVal(b), Show(a), Decimal(i) + " ", Show(b));
  }

  lemma TreeShown(t: Tree)
    ensures Written(Events(TreeEnv(), TreeTag, TreeVal(t))) == Show(t)
  {
    TreeText(TreeFields(), t);
  }

  lemma IntShown(i: int)
    ensures Written(Events(TreeEnv(), Int32Tag, Int(i))) == Decimal(i) + " "
  {
    WrittenOne(Prim(IntValue(Int32, i)));
  }

  lemma TripleShown(env: Env, t0: Tag, t1: Tag, t2: Tag, v0: Val, v1: Val, v2: Val, s0: string, s1: string, s2: string)
    requires Written(Events(env, t0, v0)) == s0 && Written(Events(env, t1, v1)) == s1 && Written(Events(env, t2, v2)) == s2
    ensures Written(Events(env, Tuple([t0, t1, t2]), TupleVal([v0, v1, v2]))) == "TB(" + PrintAll([t0, t1, t2]) + ")( " + s0 + s1 + s2 + ") "
  {
    TripleText(env, t0, t1, t2, v0, v1, v2);
    TupleRegroup("TB(", PrintAll([t0, t1, t2]), ")( ", s0, s1, s2);
  }

  /** A tuple of three members: `TB(tags)( `, the members' texts, `) `. */
  lemma TripleText(env: Env, t0: Tag, t1: Tag, t2: Tag, v0: Val, v1: Val, v2: Val)
    ensures Written(Events(env, Tuple([t0, t1, t2]), TupleVal([v0, v1, v2])))
      == "TB(" + PrintAll([t0, t1, t2]) + ")( "
      + (Written(Events(env, t0, v0)) + (Written(Events(env, t1, v1)) + (Written(Events(env, t2, v2)) + ""))) + ") "
  {
    TupleText(env, [t0, t1, t2], [v0, v1, v2]);
    AllThree(env, t0, t1, t2, v0, v1, v2);
  }

  lemma TupleRegroup(h: string, p: string, o: string, x: string, y: string, z: string)
    ensures h + p + o + (x + (y + (z + ""))) + ") " == h + p + o + x + y + z + ") "
  {
    assert z + "" == z;
    Regroup(h + p + o, x, y, z);
  }

  lemma TreeTupleSerializable(a: Tree, i: int, b: Tree)
    requires TupleFits(a, i, b)
    ensures Serializable(TreeEnv(), TreeTupleTag(), TupleVal([TreeVal(a), Int(i), TreeVal(b)]))
  {
    TreeTupleMembers(a, i, b);
    TreeWellFormed();
    TreeTupleResolves();
    TripleSerializable(TreeEnv(), TreeTag, Int32Tag, TreeTag, TreeVal(a), Int(i), TreeVal(b));
  }

  lemma TreeTupleMembers(a: Tree, i: int, b: Tree)
    requires TupleFits(a, i, b)
    ensures Typed(TreeEnv(), TreeTag, TreeVal(a)) && Typed(TreeEnv(), Int32Tag, Int(i)) && Typed(TreeEnv(), TreeTag, TreeVal(b))
    ensures Valid(TreeVal(a)) && Valid(Int(i)) && Valid(TreeVal(b))
    ensures Depth(TreeVal(a)) < MaxRecursion && Depth(Int(i)) < MaxRecursion && Depth(TreeVal(b)) < MaxRecursion
  {
    TreeTyped(TreeFields(), a);
    TreeTyped(TreeFields(), b);
    TreeValValid(a);
    TreeValValid(b);
    TreeDepth(a);
    TreeDepth(b);
  }

  lemma TripleSerializable(env: Env, t0: Tag, t1: Tag, t2: Tag, v0: Val, v1: Val, v2: Val)
    requires Resolves(Print(Tuple([t0, t1, t2])), env)
    requires WellFormed(t0) && WellFormed(t1) && WellFormed(t2)
    requires Typed(env, t0, v0) && Typed(env, t1, v1) && Typed(env, t2, v2)
    requires Valid(v0) && Valid(v1) && Valid(v2)
    requires Depth(v0) < MaxRecursion && Depth(v1) < MaxRecursion && Depth(v2) < MaxRecursion
    ensures Serializable(env, Tuple([t0, t1, t2]), TupleVal([v0, v1, v2]))
  {
    TripleFacts(env, t0, t1, t2, v0, v1, v2);
  }

  /** A tuple of three members is typed, valid and nested as its members are. */
  lemma TripleFacts(env: Env, t0: Tag, t1: Tag, t2: Tag, v0: Val, v1: Val, v2: Val)
    ensures Typed(env, t0, v0) && Typed(env, t1, v1) && Typed(env, t2, v2) ==> Typed(env, Tuple([t0, t1, t2]), TupleVal([v0, v1, v2]))
    ensures Valid(v0) && Valid(v1) && Valid(v2) ==> Valid(TupleVal([v0, v1, v2]))
    ensures WellFormed(t0) && WellFormed(t1) && WellFormed(t2) ==> WellFormed(Tuple([t0, t1, t2]))
    ensures var d0, d1, d2 := Depth(v0), Depth(v1), Depth(v2);
      Depth(TupleVal([v0, v1, v2])) == 1 + if d0 < d1 then (if d1 < d2 then d2 else d1) else (if d0 < d2 then d2 else d0)
  {
    MaxDepthThree(v0, v1, v2);
  }
}
