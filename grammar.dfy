/**
 * Tags as the tag generator writes them: an abstract syntax of the tag
 * grammar and its printing, with the facts that tie printed tags to the way
 * the visit engine splits and reads a tag string.
 */
module Grammar {
  import opened Wrappers
  import opened Bytes
  import opened Tags

  datatype Tag =
    | Arith(a: Arithmetic)
    | Sequence(elem: Tag)
    | Tuple(items: seq<Tag>)
    | Variant(alts: seq<Tag>)
    /** The alternative `0` of a variant: a null pointer. */
    | NullAlt
    /** A struct; a field-less struct `{Name}` may stand for a struct defined elsewhere in the tag. */
    | Struct(name: string, fields: seq<FieldTag>)
    /** An enum of underlying type t; enumerators are (hex value, name) pairs. */
    | Enum(t: IntType, name: string, enumerators: seq<(string, string)>)

  datatype FieldTag = FieldTag(name: string, tag: Tag)

  /** Characters with a meaning in the grammar. */
  const Special: set<char> := {'[', '(', ')', '<', '>', '{', '}', '/', '\\', '`', '\''}

  /** Characters no name holds: the angle brackets of template arguments are the exception. */
  const Reserved: set<char> := Special - {'<', '>'}

  /**
   * A name, field name, enumerator or enum value: text free of grammar
   * characters, except for balanced angle brackets, as in `Pair<A,B>`.
   */
  predicate Name(s: string) {
    (forall k | 0 <= k < |s| :: s[k] !in Reserved) && AnglesClose(s, 0, 0)
  }

  /** Read from position i on, s closes the depth angle brackets open before i and every one it opens. */
  predicate AnglesClose(s: string, i: nat, depth: nat)
    requires i <= |s|
    decreases |s| - i
  {
    if i == |s| then depth == 0
    else if s[i] == '<' then AnglesClose(s, i + 1, depth + 1)
    else if s[i] == '>' then depth > 0 && AnglesClose(s, i + 1, depth - 1)
    else AnglesClose(s, i + 1, depth)
  }

  /** Every name in the tag is a Name. */
  predicate WellFormed(t: Tag) {
    match t
    case Arith(_) => true
    case Sequence(e) => WellFormed(e)
    case Tuple(items) => forall k | 0 <= k < |items| :: WellFormed(items[k])
    case Variant(alts) => forall k | 0 <= k < |alts| :: WellFormed(alts[k])
    case NullAlt => true
    case Struct(n, fs) => Name(n) && forall k | 0 <= k < |fs| :: Name(fs[k].name) && WellFormed(fs[k].tag)
    case Enum(_, n, es) => Name(n) && forall k | 0 <= k < |es| :: Name(es[k].0) && Name(es[k].1)
  }

  /** The tag string of t. */
  function Print(t: Tag): string
    decreases t
  {
    match t
    case Arith(a) => [Code(a)]
    case Sequence(e) => "[" + Print(e)
    case Tuple(items) => "(" + PrintAll(items) + ")"
    case Variant(alts) => "<" + PrintAll(alts) + ">"
    case NullAlt => "0"
    case Struct(n, fs) => "{" + n + PrintFields(fs) + "}"
    case Enum(it, n, es) => "/" + [Code(Integer(it))] + "`" + n + "'" + PrintEnumerators(es) + "\\"
  }

  function PrintAll(ts: seq<Tag>): string
    decreases ts
  {
    if |ts| == 0 then "" else Print(ts[0]) + PrintAll(ts[1..])
  }

  function PrintFields(fs: seq<FieldTag>): string
    decreases fs
  {
    if |fs| == 0 then "" else "`" + fs[0].name + "'" + Print(fs[0].tag) + PrintFields(fs[1..])
  }

  function PrintEnumerators(es: seq<(string, string)>): string {
    if |es| == 0 then "" else es[0].0 + "`" + es[0].1 + "'" + PrintEnumerators(es[1..])
  }

  /** The fields of a struct tag as the engine reads them. */
  function Parsed(fs: seq<FieldTag>): (r: seq<Field>)
    ensures |r| == |fs|
    ensures forall k | 0 <= k < |fs| :: r[k] == Field(fs[k].name, Print(fs[k].tag))
  {
    if |fs| == 0 then [] else [Field(fs[0].name, Print(fs[0].tag))] + Parsed(fs[1..])
  }

  function Prints(ts: seq<Tag>): (r: seq<string>)
    ensures |r| == |ts|
    ensures forall k | 0 <= k < |ts| :: r[k] == Print(ts[k])
  {
    if |ts| == 0 then [] else [Print(ts[0])] + Prints(ts[1..])
  }

  // ---------------------------------------------------------------------
  // Bracket balance

  function Delta(ch: char, open: char, close: char): int {
    if ch == open then 1 else if ch == close then -1 else 0
  }

  /** Opening minus closing brackets in x. */
  function Net(x: string, open: char, close: char): int {
    if |x| == 0 then 0 else Net(x[..|x| - 1], open, close) + Delta(x[|x| - 1], open, close)
  }

  predicate Balanced(x: string, open: char, close: char) {
    Net(x, open, close) == 0 && forall k | 0 <= k <= |x| :: Net(x[..k], open, close) >= 0
  }

  predicate Pair(open: char, close: char) {
    (open, close) in {('(', ')'), ('<', '>'), ('{', '}'), ('/', '\\')}
  }

  lemma {:induction false} NetConcat(a: string, b: string, open: char, close: char)
    ensures Net(a + b, open, close) == Net(a, open, close) + Net(b, open, close)
    decreases |b|
  {
    if |b| > 0 {
      var b' := b[..|b| - 1];
      assert (a + b)[..|a + b| - 1] == a + b';
      NetConcat(a, b', open, close);
    } else {
      assert a + b == a;
    }
  }

  lemma {:induction false} NetNeutral(x: string, open: char, close: char)
    requires forall k | 0 <= k < |x| :: x[k] != open && x[k] != close
    ensures Net(x, open, close) == 0
    decreases |x|
  {
    if |x| > 0 {
      NetNeutral(x[..|x| - 1], open, close);
    }
  }

  lemma BalancedNeutral(x: string, open: char, close: char)
    requires forall k | 0 <= k < |x| :: x[k] != open && x[k] != close
    ensures Balanced(x, open, close)
  {
    forall k | 0 <= k <= |x|
      ensures Net(x[..k], open, close) == 0
    {
      NetNeutral(x[..k], open, close);
    }
  }

  lemma BalancedConcat(a: string, b: string, open: char, close: char)
    requires Balanced(a, open, close) && Balanced(b, open, close)
    ensures Balanced(a + b, open, close)
  {
    NetConcat(a, b, open, close);
    forall k | 0 <= k <= |a + b|
      ensures Net((a + b)[..k], open, close) >= 0
    {
      if k <= |a| {
        assert (a + b)[..k] == a[..k];
      } else {
        assert (a + b)[..k] == a + b[..k - |a|];
        NetConcat(a, b[..k - |a|], open, close);
      }
    }
  }

  /** Wrapping a balanced text in a matching pair, or in two characters of no pair, keeps it balanced. */
  lemma BalancedWrap(l: char, x: string, r: char, open: char, close: char)
    requires Balanced(x, open, close) && open != close
    requires (l == open && r == close) || (Delta(l, open, close) == 0 && Delta(r, open, close) == 0)
    ensures Balanced([l] + x + [r], open, close)
  {
    var w := [l] + x + [r];
    NetConcat([l] + x, [r], open, close);
    NetConcat([l], x, open, close);
    assert Net([l], open, close) == Delta(l, open, close) by { assert [l][..0] == []; }
    assert Net([r], open, close) == Delta(r, open, close) by { assert [r][..0] == []; }
    forall k | 0 <= k <= |w|
      ensures Net(w[..k], open, close) >= 0
    {
      if k == 0 {
      } else if k <= |x| + 1 {
        assert w[..k] == [l] + x[..k - 1];
        NetConcat([l], x[..k - 1], open, close);
      } else {
        assert w[..k] == w;
      }
    }
  }

  lemma BalancedSeqPrefix(x: string, open: char, close: char)
    requires Balanced(x, open, close) && Delta('[', open, close) == 0
    ensures Balanced("[" + x, open, close)
  {
    BalancedNeutral("[", open, close);
    BalancedConcat("[", x, open, close);
  }

  lemma NameNeutral(s: string, open: char, close: char)
    requires Name(s) && Pair(open, close)
    ensures Balanced(s, open, close)
  {
    if open == '<' {
      AngleNameBalanced(s);
    } else {
      BalancedNeutral(s, open, close);
    }
  }

  /** Angle brackets that close, read left to right, are balanced. */
  lemma {:induction false} AnglesBalanced(s: string, i: nat, depth: nat)
    requires i <= |s| && AnglesClose(s, i, depth)
    ensures depth + Net(s[i..], '<', '>') == 0
    ensures forall k | i <= k <= |s| :: depth + Net(s[i..k], '<', '>') >= 0
    decreases |s| - i
  {
    if i == |s| {
      assert s[i..i] == s[i..] == [];
    } else {
      var c := s[i];
      var next := depth + Delta(c, '<', '>');
      assert next >= 0;
      AnglesBalanced(s, i + 1, next);
      assert Net([c], '<', '>') == Delta(c, '<', '>') by { assert [c][..0] == []; }
      assert s[i..] == [c] + s[i + 1..];
      NetConcat([c], s[i + 1..], '<', '>');
      forall k | i <= k <= |s|
        ensures depth + Net(s[i..k], '<', '>') >= 0
      {
        if k == i {
          assert s[i..k] == [];
        } else {
          assert s[i..k] == [c] + s[i + 1..k];
          NetConcat([c], s[i + 1..k], '<', '>');
        }
      }
    }
  }

  lemma AngleNameBalanced(s: string)
    requires AnglesClose(s, 0, 0)
    ensures Balanced(s, '<', '>')
  {
    AnglesBalanced(s, 0, 0);
    assert s[0..] == s;
    forall k | 0 <= k <= |s|
      ensures Net(s[..k], '<', '>') >= 0
    {
      assert s[0..k] == s[..k];
    }
  }

  /** Text free of every grammar character is a name. */
  lemma PlainName(s: string)
    requires forall k | 0 <= k < |s| :: s[k] !in Special
    ensures Name(s)
  {
    AnglesSkip(s, 0, |s|, 0);
  }

  /** Characters other than angle brackets leave the open depth as it is. */
  lemma {:induction false} AnglesSkip(s: string, i: nat, j: nat, depth: nat)
    requires i <= j <= |s| && forall k | i <= k < j :: s[k] != '<' && s[k] != '>'
    ensures AnglesClose(s, i, depth) == AnglesClose(s, j, depth)
    decreases j - i
  {
    if i < j {
      AnglesSkip(s, i + 1, j, depth);
    }
  }

  /**
   * The name of a template instance, a plain name followed by its arguments
   * in angle brackets (`Pair<A,B>`), is a name; without the closing bracket it is not.
   */
  lemma TemplateName(base: string, args: string)
    requires forall k | 0 <= k < |base| :: base[k] !in Special
    requires forall k | 0 <= k < |args| :: args[k] !in Special
    ensures Name(base + "<" + args + ">")
    ensures !Name(base + "<" + args)
  {
    var b, e := |base|, |base| + 1 + |args|;
    var u := base + "<" + args;
    var s := u + ">";
    assert forall k | 0 <= k < b :: u[k] == s[k] == base[k];
    assert forall k | b < k < e :: u[k] == s[k] == args[k - b - 1];
    assert u[b] == s[b] == '<' && s[e] == '>' && |u| == e && |s| == e + 1;
    assert AnglesClose(s, e, 1);
    AnglesSkip(s, b + 1, e, 1);
    AnglesSkip(s, 0, b, 0);
    AnglesSkip(u, b + 1, e, 1);
    AnglesSkip(u, 0, b, 0);
  }

  lemma {:induction false} PrintBalanced(t: Tag, open: char, close: char)
    requires WellFormed(t) && Pair(open, close)
    ensures Balanced(Print(t), open, close)
    decreases t, 1
  {
    match t
    case Arith(a) =>
      BalancedNeutral(Print(t), open, close);
    case Sequence(e) =>
      PrintBalanced(e, open, close);
      BalancedSeqPrefix(Print(e), open, close);
    case Tuple(items) =>
      PrintAllBalanced(items, open, close);
      BalancedWrap('(', PrintAll(items), ')', open, close);
    case Variant(alts) =>
      PrintAllBalanced(alts, open, close);
      BalancedWrap('<', PrintAll(alts), '>', open, close);
    case NullAlt =>
      BalancedNeutral(Print(t), open, close);
    case Struct(n, fs) =>
      PrintFieldsBalanced(fs, open, close);
      StructBalanced(n, fs, open, close);
    case Enum(it, n, es) =>
      EnumeratorsNeutral(es, open, close);
      EnumBalanced(it, n, es, open, close);
  }

  lemma StructBalanced(n: string, fs: seq<FieldTag>, open: char, close: char)
    requires Name(n) && Pair(open, close)
    requires Balanced(PrintFields(fs), open, close)
    ensures Balanced(Print(Struct(n, fs)), open, close)
  {
    NameNeutral(n, open, close);
    BalancedConcat(n, PrintFields(fs), open, close);
    BalancedWrap('{', n + PrintFields(fs), '}', open, close);
    StructPrint(n, fs);
  }

  lemma EnumBalanced(it: IntType, n: string, es: seq<(string, string)>, open: char, close: char)
    requires Name(n) && Pair(open, close)
    requires Balanced(PrintEnumerators(es), open, close)
    ensures Balanced(Print(Enum(it, n, es)), open, close)
  {
    EnumBodyBalanced(it, n, es, open, close);
    BalancedWrap('/', EnumBody(it, n, es), '\\', open, close);
    EnumPrint(it, n, es);
  }

  lemma EnumBodyBalanced(it: IntType, n: string, es: seq<(string, string)>, open: char, close: char)
    requires Name(n) && Pair(open, close)
    requires Balanced(PrintEnumerators(es), open, close)
    ensures Balanced(EnumBody(it, n, es), open, close)
  {
    var code := [Code(Integer(it))] + "`";
    NameNeutral(n, open, close);
    BalancedNeutral(code, open, close);
    BalancedConcat(code, n, open, close);
    BalancedNeutral("'", open, close);
    BalancedConcat(code + n, "'", open, close);
    BalancedConcat(code + n + "'", PrintEnumerators(es), open, close);
  }

  lemma EnumPrint(it: IntType, n: string, es: seq<(string, string)>)
    ensures Print(Enum(it, n, es)) == ['/'] + EnumBody(it, n, es) + ['\\']
  {
  }

  lemma {:induction false} PrintAllBalanced(ts: seq<Tag>, open: char, close: char)
    requires forall k | 0 <= k < |ts| :: WellFormed(ts[k])
    requires Pair(open, close)
    ensures Balanced(PrintAll(ts), open, close)
    decreases ts, 0
  {
    if |ts| == 0 {
      BalancedNeutral("", open, close);
    } else {
      PrintBalanced(ts[0], open, close);
      PrintAllBalanced(ts[1..], open, close);
      BalancedConcat(Print(ts[0]), PrintAll(ts[1..]), open, close);
    }
  }

  lemma {:induction false} PrintFieldsBalanced(fs: seq<FieldTag>, open: char, close: char)
    requires forall k | 0 <= k < |fs| :: Name(fs[k].name) && WellFormed(fs[k].tag)
    requires Pair(open, close)
    ensures Balanced(PrintFields(fs), open, close)
    decreases fs, 0
  {
    if |fs| == 0 {
      BalancedNeutral("", open, close);
    } else {
      var head := "`" + fs[0].name + "'";
      assert head == ['`'] + fs[0].name + ['\''];
      NameNeutral(fs[0].name, open, close);
      BalancedWrap('`', fs[0].name, '\'', open, close);
      PrintBalanced(fs[0].tag, open, close);
      PrintFieldsBalanced(fs[1..], open, close);
      BalancedConcat(head, Print(fs[0].tag), open, close);
      BalancedConcat(head + Print(fs[0].tag), PrintFields(fs[1..]), open, close);
    }
  }

  lemma {:induction false} EnumeratorsNeutral(es: seq<(string, string)>, open: char, close: char)
    requires forall k | 0 <= k < |es| :: Name(es[k].0) && Name(es[k].1)
    requires Pair(open, close)
    ensures Balanced(PrintEnumerators(es), open, close)
  {
    if |es| == 0 {
      BalancedNeutral("", open, close);
    } else {
      var head := es[0].0 + "`" + es[0].1 + "'";
      NameNeutral(es[0].0, open, close);
      NameNeutral(es[0].1, open, close);
      BalancedNeutral("`", open, close);
      BalancedNeutral("'", open, close);
      BalancedConcat(es[0].0, "`", open, close);
      BalancedConcat(es[0].0 + "`", es[0].1, open, close);
      BalancedConcat(es[0].0 + "`" + es[0].1, "'", open, close);
      EnumeratorsNeutral(es[1..], open, close);
      BalancedConcat(head, PrintEnumerators(es[1..]), open, close);
    }
  }

  // ---------------------------------------------------------------------
  // Printed tags are read back as one complete tag

  lemma {:induction false} ClosingSkips(s: string, open: char, close: char, p: nat, x: string, d: nat, k: nat)
    requires open != close && d >= 1
    requires p + |x| <= |s| && s[p..p + |x|] == x
    requires Balanced(x, open, close) && k <= |x|
    ensures Closing(s, open, close, p + k, d + Net(x[..k], open, close)) == Closing(s, open, close, p + |x|, d)
    decreases |x| - k
  {
    if k < |x| {
      NetStep(x, k, open, close);
      SliceAt(s, p, x, k);
      BalancedPrefix(x, open, close, k + 1);
      ClosingStep(s, open, close, p + k, d + Net(x[..k], open, close), d + Net(x[..k + 1], open, close));
      ClosingSkips(s, open, close, p, x, d, k + 1);
    } else {
      assert x[..k] == x;
    }
  }

  lemma BalancedPrefix(x: string, open: char, close: char, k: nat)
    requires Balanced(x, open, close) && k <= |x|
    ensures Net(x[..k], open, close) >= 0
  {
  }

  /** Closing reads one character that does not close the outermost bracket. */
  lemma ClosingStep(s: string, open: char, close: char, i: nat, depth: nat, depth': nat)
    requires open != close && i < |s| && depth > 0 && depth' > 0 && depth' == depth + Delta(s[i], open, close)
    ensures Closing(s, open, close, i, depth) == Closing(s, open, close, i + 1, depth')
  {
  }

  lemma NetStep(x: string, k: nat, open: char, close: char)
    requires k < |x|
    ensures Net(x[..k + 1], open, close) == Net(x[..k], open, close) + Delta(x[k], open, close)
  {
    assert x[..k + 1][..k] == x[..k];
  }

  lemma SliceAt(s: string, p: nat, x: string, k: nat)
    requires p + |x| <= |s| && s[p..p + |x|] == x && k < |x|
    ensures s[p + k] == x[k]
  {
    assert s[p..p + |x|][k] == s[p + k];
  }

  /** A bracket pair around a balanced text closes right after the text. */
  lemma WrappedEnd(l: char, x: string, r: char, rest: string)
    requires Pair(l, r) && Balanced(x, l, r)
    ensures Closing([l] + x + [r] + rest, l, r, 1, 1) == Some(|x| + 2)
  {
    var s := [l] + x + [r] + rest;
    WrappedPieces(l, x, r, rest);
    ClosingSkips(s, l, r, 1, x, 1, 0);
  }

  lemma WrappedPieces(l: char, x: string, r: char, rest: string)
    ensures ([l] + x + [r] + rest)[1..1 + |x|] == x && ([l] + x + [r] + rest)[1 + |x|] == r
    ensures x[..0] == []
  {
    assert ([l] + x + [r] + rest)[1..1 + |x|] == x;
  }

  // The head of a bracketed tag: TagEnd jumps to its closing bracket.
  lemma TagEndWrapped(l: char, x: string, r: char, rest: string)
    requires Pair(l, r) && Balanced(x, l, r)
    ensures TagEnd([l] + x + [r] + rest) == Some(|x| + 2)
  {
    WrappedEnd(l, x, r, rest);
  }

  /** The engine's tag splitting finds exactly the printed tag of t at the head of any text. */
  lemma {:induction false} TagEndOfPrint(t: Tag, rest: string)
    requires WellFormed(t)
    ensures TagEnd(Print(t) + rest) == Some(|Print(t)|)
  {
    match t
    case Arith(a) => TagEndArith(a, rest);
    case Sequence(e) =>
      assert (Print(t) + rest)[1..] == Print(e) + rest;
      TagEndOfPrint(e, rest);
    case Tuple(items) => TagEndTuple(items, rest);
    case Variant(alts) => TagEndVariant(alts, rest);
    case NullAlt =>
    case Struct(n, fs) => TagEndStruct(n, fs, rest);
    case Enum(it, n, es) => TagEndEnum(it, n, es, rest);
  }

  lemma TagEndArith(a: Arithmetic, rest: string)
    ensures TagEnd(Print(Arith(a)) + rest) == Some(1)
  {
    var s := Print(Arith(a)) + rest;
    assert s[0] == Code(a);
    assert Code(a) !in {'[', '(', '<', '{', '/'} by {
      match a
      case BoolType =>
      case CharType =>
      case Integer(it) =>
    }
  }

  lemma TagEndTuple(items: seq<Tag>, rest: string)
    requires WellFormed(Tuple(items))
    ensures TagEnd(Print(Tuple(items)) + rest) == Some(|Print(Tuple(items))|)
  {
    PrintAllBalanced(items, '(', ')');
    TagEndWrapped('(', PrintAll(items), ')', rest);
    assert Print(Tuple(items)) + rest == ['('] + PrintAll(items) + [')'] + rest;
  }

  lemma TagEndVariant(alts: seq<Tag>, rest: string)
    requires WellFormed(Variant(alts))
    ensures TagEnd(Print(Variant(alts)) + rest) == Some(|Print(Variant(alts))|)
  {
    PrintAllBalanced(alts, '<', '>');
    TagEndWrapped('<', PrintAll(alts), '>', rest);
    assert Print(Variant(alts)) + rest == ['<'] + PrintAll(alts) + ['>'] + rest;
  }

  lemma TagEndStruct(n: string, fs: seq<FieldTag>, rest: string)
    requires WellFormed(Struct(n, fs))
    ensures TagEnd(Print(Struct(n, fs)) + rest) == Some(|Print(Struct(n, fs))|)
  {
    StructInner(n, fs);
    TagEndWrapped('{', n + PrintFields(fs), '}', rest);
    StructPrint(n, fs);
  }

  lemma StructPrint(n: string, fs: seq<FieldTag>)
    ensures Print(Struct(n, fs)) == ['{'] + (n + PrintFields(fs)) + ['}']
  {
  }

  lemma TagEndEnum(it: IntType, n: string, es: seq<(string, string)>, rest: string)
    requires WellFormed(Enum(it, n, es))
    ensures TagEnd(Print(Enum(it, n, es)) + rest) == Some(|Print(Enum(it, n, es))|)
  {
    EnumInner(it, n, es);
    TagEndWrapped('/', EnumBody(it, n, es), '\\', rest);
    EnumPrint(it, n, es);
  }

  function EnumBody(it: IntType, n: string, es: seq<(string, string)>): string {
    [Code(Integer(it))] + "`" + n + "'" + PrintEnumerators(es)
  }

  lemma StructInner(n: string, fs: seq<FieldTag>)
    requires WellFormed(Struct(n, fs))
    ensures Balanced(n + PrintFields(fs), '{', '}')
  {
    NameNeutral(n, '{', '}');
    PrintFieldsBalanced(fs, '{', '}');
    BalancedConcat(n, PrintFields(fs), '{', '}');
  }

  lemma EnumInner(it: IntType, n: string, es: seq<(string, string)>)
    requires WellFormed(Enum(it, n, es))
    ensures Balanced(EnumBody(it, n, es), '/', '\\')
  {
    EnumeratorsNeutral(es, '/', '\\');
    EnumBodyBalanced(it, n, es, '/', '\\');
  }

  lemma CompleteOfPrint(t: Tag)
    requires WellFormed(t)
    ensures Complete(Print(t))
  {
    TagEndOfPrint(t, "");
    assert Print(t) + "" == Print(t);
  }

  /** Splitting the printed tags of ts, one after the other, gives them back. */
  lemma {:induction false} SplitPrintAll(ts: seq<Tag>)
    requires forall k | 0 <= k < |ts| :: WellFormed(ts[k])
    ensures SplitTags(PrintAll(ts)) == Some(Prints(ts))
  {
    if |ts| > 0 {
      var s := PrintAll(ts);
      TagEndOfPrint(ts[0], PrintAll(ts[1..]));
      var n := |Print(ts[0])|;
      assert s[..n] == Print(ts[0]) && s[n..] == PrintAll(ts[1..]);
      SplitPrintAll(ts[1..]);
    }
  }

  lemma BracketedPrint(l: char, ts: seq<Tag>, r: char)
    requires forall k | 0 <= k < |ts| :: WellFormed(ts[k])
    ensures Bracketed([l] + PrintAll(ts) + [r], r) == Some(Prints(ts))
  {
    var t := [l] + PrintAll(ts) + [r];
    assert t[1..|t| - 1] == PrintAll(ts);
    SplitPrintAll(ts);
  }

  // ---------------------------------------------------------------------
  // Printed struct and enum tags are taken apart into what they were printed from

  /** Spanning over a name stops at the grammar character that follows it. */
  lemma {:induction false} SpanName(x: string, c: char, rest: string, stop: set<char>)
    requires (forall k | 0 <= k < |x| :: x[k] !in Reserved) && stop <= Reserved && c in stop
    ensures Span(x + [c] + rest, stop) == |x|
    decreases |x|
  {
    var s := x + [c] + rest;
    if |x| > 0 {
      assert s[0] == x[0] && s[1..] == x[1..] + [c] + rest;
      SpanName(x[1..], c, rest, stop);
    }
  }

  function ConsField(f: Field, rest: Option<seq<Field>>): Option<seq<Field>> {
    match rest
    case None => None
    case Some(fs) => Some([f] + fs)
  }

  // One field read off the front of a field list, stated over its pieces.
  lemma ParseFieldsUnfold(s: string, field: string, j: nat, after: string, name: string, tagText: string, tail: string)
    requires |s| > 0 && s[0] == '`' && s[1..] == field
    requires j < |field| && Span(field, {'\''}) == j && field[..j] == name && field[j + 1..] == after
    requires TagEnd(after) == Some(|tagText|) && after[..|tagText|] == tagText && after[|tagText|..] == tail
    ensures ParseFields(s) == ConsField(Field(name, tagText), ParseFields(tail))
  {
  }

  lemma ParseFieldsStep(name: string, tagText: string, tail: string)
    requires Name(name) && TagEnd(tagText + tail) == Some(|tagText|)
    ensures ParseFields("`" + name + "'" + tagText + tail) == ConsField(Field(name, tagText), ParseFields(tail))
  {
    var s := "`" + name + "'" + tagText + tail;
    var field := name + ['\''] + (tagText + tail);
    assert s[1..] == field;
    SpanName(name, '\'', tagText + tail, {'\''});
    var after := tagText + tail;
    assert field[..|name|] == name;
    assert field[|name| + 1..] == after;
    assert after[..|tagText|] == tagText && after[|tagText|..] == tail;
    ParseFieldsUnfold(s, field, |name|, after, name, tagText, tail);
  }

  lemma {:induction false} ParseFieldsOfPrint(fs: seq<FieldTag>)
    requires forall k | 0 <= k < |fs| :: Name(fs[k].name) && WellFormed(fs[k].tag)
    ensures ParseFields(PrintFields(fs) + "}") == Some(Parsed(fs))
    decreases |fs|
  {
    if |fs| > 0 {
      var name, tag := fs[0].name, fs[0].tag;
      var tail := PrintFields(fs[1..]) + "}";
      assert PrintFields(fs) + "}" == "`" + name + "'" + Print(tag) + tail;
      TagEndOfPrint(tag, tail);
      ParseFieldsStep(name, Print(tag), tail);
      ParseFieldsOfPrint(fs[1..]);
    }
  }

  /** Scanning a struct name skips every character that no name reserves. */
  lemma {:induction false} ScanNameSkip(t: string, i: nat, j: nat)
    requires 0 < i <= j <= |t|
    requires forall k | i <= k < j :: t[k] !in Reserved
    ensures ScanName(t, i) == ScanName(t, j)
    decreases j - i
  {
    if i < j {
      ScanNameSkip(t, i + 1, j);
    }
  }

  /** A struct tag whose name is followed by a field list parses to that name and those fields. */
  lemma ParseStructOfParts(t: string, n: string, rest: string, fields: seq<Field>)
    requires t == "{" + n + rest && Name(n) && |rest| > 0 && rest[0] in {'`', '}'}
    requires ParseFields(rest) == Some(fields)
    ensures ParseStruct(t) == Some(StructTag(n, if rest[0] == '}' then "" else rest[..|rest| - 1], if rest[0] == '}' then [] else fields))
  {
    StructPieces(t, n, rest);
    ScanNameSkip(t, 1, 1 + |n|);
  }

  lemma StructPieces(t: string, n: string, rest: string)
    requires t == "{" + n + rest && Name(n) && |rest| > 0
    ensures forall k | 1 <= k < 1 + |n| :: t[k] !in Reserved
    ensures 1 + |n| < |t| && t[1 + |n|..] == rest && t[1..1 + |n|] == n && t[1 + |n|] == rest[0]
  {
    assert forall k | 1 <= k < 1 + |n| :: t[k] == n[k - 1];
  }

  /** A printed struct tag parses back to its name, its fields' text and its fields. */
  lemma ParseStructOfPrint(n: string, fs: seq<FieldTag>)
    requires WellFormed(Struct(n, fs))
    ensures ParseStruct(Print(Struct(n, fs))) == Some(StructTag(n, PrintFields(fs), Parsed(fs)))
  {
    var rest := PrintFields(fs) + "}";
    assert Print(Struct(n, fs)) == "{" + n + rest;
    ParseFieldsOfPrint(fs);
    assert rest[..|rest| - 1] == PrintFields(fs);
    ParseStructOfParts(Print(Struct(n, fs)), n, rest, Parsed(fs));
  }

  function ConsEnumerator(e: (string, string), rest: Option<seq<(string, string)>>): Option<seq<(string, string)>> {
    match rest
    case None => None
    case Some(es) => Some([e] + es)
  }

  // One enumerator read off the front of an enumerator list, stated over its pieces.
  lemma ParseEnumeratorsUnfold(s: string, k: nat, named: string, m: nat, hex: string, name: string, tail: string)
    requires |s| > 0 && s[0] != '\\'
    requires k < |s| && Span(s, {'`'}) == k && s[..k] == hex && s[k + 1..] == named
    requires m < |named| && Span(named, {'\''}) == m && named[..m] == name && named[m + 1..] == tail
    ensures ParseEnumerators(s) == ConsEnumerator((hex, name), ParseEnumerators(tail))
  {
  }

  lemma ParseEnumeratorsStep(hex: string, name: string, tail: string)
    requires Name(hex) && Name(name)
    ensures ParseEnumerators(hex + "`" + name + "'" + tail) == ConsEnumerator((hex, name), ParseEnumerators(tail))
  {
    var s := hex + "`" + name + "'" + tail;
    var named := name + ['\''] + tail;
    assert s == hex + ['`'] + named;
    SpanName(hex, '`', named, {'`'});
    assert s[..|hex|] == hex && s[|hex| + 1..] == named;
    SpanName(name, '\'', tail, {'\''});
    assert named[..|name|] == name && named[|name| + 1..] == tail;
    if |hex| == 0 {
      assert s[0] == '`';
    } else {
      assert s[0] == hex[0];
    }
    ParseEnumeratorsUnfold(s, |hex|, named, |name|, hex, name, tail);
  }

  lemma {:induction false} ParseEnumeratorsOfPrint(es: seq<(string, string)>)
    requires forall k | 0 <= k < |es| :: Name(es[k].0) && Name(es[k].1)
    ensures ParseEnumerators(PrintEnumerators(es) + "\\") == Some(es)
    decreases |es|
  {
    if |es| > 0 {
      var hex, name := es[0].0, es[0].1;
      var tail := PrintEnumerators(es[1..]) + "\\";
      assert PrintEnumerators(es) + "\\" == hex + "`" + name + "'" + tail;
      ParseEnumeratorsStep(hex, name, tail);
      ParseEnumeratorsOfPrint(es[1..]);
      assert [(hex, name)] + es[1..] == es;
    }
  }

  /** Scanning an enum name skips every character that no name reserves. */
  lemma {:induction false} ScanEnumNameSkip(t: string, i: nat, j: nat)
    requires 3 <= i <= j <= |t|
    requires forall k | i <= k < j :: t[k] !in Reserved
    ensures ScanEnumName(t, i) == ScanEnumName(t, j)
    decreases j - i
  {
    if i < j {
      ScanEnumNameSkip(t, i + 1, j);
    }
  }

  lemma EnumPieces(t: string, c: char, n: string, tail: string)
    requires t == "/" + [c] + "`" + n + "'" + tail && Name(n)
    ensures |t| > 3 + |n| && t[0] == '/' && t[1] == c && t[2] == '`' && t[3 + |n|] == '\''
    ensures forall k | 3 <= k < 3 + |n| :: t[k] !in Reserved
    ensures t[3..3 + |n|] == n && t[3 + |n| + 1..] == tail
  {
    assert forall k | 3 <= k < 3 + |n| :: t[k] == n[k - 3];
  }

  /** An enum tag whose name is followed by an enumerator list parses to that name and those enumerators. */
  lemma ParseEnumOfParts(t: string, c: char, n: string, tail: string, es: seq<(string, string)>)
    requires t == "/" + [c] + "`" + n + "'" + tail && Name(n)
    requires ParseEnumerators(tail) == Some(es)
    ensures ParseEnum(t) == Some(EnumTag(c, n, es))
  {
    EnumPieces(t, c, n, tail);
    ScanEnumNameSkip(t, 3, 3 + |n|);
  }

  /** A printed enum tag parses back to its underlying type's code, its name and its enumerators. */
  lemma ParseEnumOfPrint(it: IntType, n: string, es: seq<(string, string)>)
    requires WellFormed(Enum(it, n, es))
    ensures ParseEnum(Print(Enum(it, n, es))) == Some(EnumTag(Code(Integer(it)), n, es))
  {
    var tail := PrintEnumerators(es) + "\\";
    assert Print(Enum(it, n, es)) == "/" + [Code(Integer(it))] + "`" + n + "'" + tail;
    ParseEnumeratorsOfPrint(es);
    ParseEnumOfParts(Print(Enum(it, n, es)), Code(Integer(it)), n, tail, es);
  }
}
