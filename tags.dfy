/**
 * The tag grammar: splitting a tag string into its complete sub-tags and
 * reading the parts of struct and enum tags.
 *
 *   arithmetic  y c b B s S i I l L      (one letter each)
 *   sequence    [ elem                    (no closing bracket)
 *   tuple       ( tag* )
 *   variant     < tag* >                  (the alternative 0 stands for null)
 *   struct      { Name (` field ' tag)* } (`{Name}` may refer to a struct defined elsewhere in the tag)
 *   enum        / code ` Name ' (hex ` enumerator ')* \
 */
module Tags {
  import opened Wrappers
  import opened Bytes

  /** The one-letter code of an arithmetic type. */
  function Code(a: Arithmetic): char {
    match a
    case BoolType => 'y'
    case CharType => 'c'
    case Integer(t) =>
      match t
      case Int8 => 'b'
      case UInt8 => 'B'
      case Int16 => 's'
      case UInt16 => 'S'
      case Int32 => 'i'
      case UInt32 => 'I'
      case Int64 => 'l'
      case UInt64 => 'L'
  }

  /** The arithmetic type a one-letter code names, if any. */
  function ArithmeticOfCode(c: char): (r: Option<Arithmetic>)
    ensures r.Some? ==> Code(r.value) == c
  {
    match c
    case 'y' => Some(BoolType)
    case 'c' => Some(CharType)
    case 'b' => Some(Integer(Int8))
    case 'B' => Some(Integer(UInt8))
    case 's' => Some(Integer(Int16))
    case 'S' => Some(Integer(UInt16))
    case 'i' => Some(Integer(Int32))
    case 'I' => Some(Integer(UInt32))
    case 'l' => Some(Integer(Int64))
    case 'L' => Some(Integer(UInt64))
    case _ => None
  }

  lemma CodeIsRecognised(a: Arithmetic)
    ensures ArithmeticOfCode(Code(a)) == Some(a)
  {
  }

  /**
   * The length of the first complete tag of s: a sequence tag extends over its
   * element tag, a bracketed tag to its balancing bracket, anything else is one
   * character long. None when s is empty or a bracket is left open.
   */
  function TagEnd(s: string): (r: Option<nat>)
    ensures r.Some? ==> 0 < r.value <= |s|
  {
    if |s| == 0 then None
    else if s[0] == '[' then
      match TagEnd(s[1..])
      case None => None
      case Some(n) => Some(n + 1)
    else if s[0] == '(' then Closing(s, '(', ')', 1, 1)
    else if s[0] == '<' then Closing(s, '<', '>', 1, 1)
    else if s[0] == '{' then Closing(s, '{', '}', 1, 1)
    else if s[0] == '/' then Closing(s, '/', '\\', 1, 1)
    else Some(1)
  }

  /**
   * The position just after the bracket that closes depth open brackets,
   * scanning s from position i.
   */
  function Closing(s: string, open: char, close: char, i: nat, depth: nat): (r: Option<nat>)
    requires i <= |s| && depth > 0
    ensures r.Some? ==> i < r.value <= |s| && s[r.value - 1] == close
    decreases |s| - i
  {
    if i == |s| then None
    else if s[i] == close then
      if depth == 1 then Some(i + 1) else Closing(s, open, close, i + 1, depth - 1)
    else if s[i] == open then Closing(s, open, close, i + 1, depth + 1)
    else Closing(s, open, close, i + 1, depth)
  }

  /** A tag is complete when it is exactly one tag, with nothing after it. */
  predicate Complete(t: string) {
    TagEnd(t) == Some(|t|)
  }

  function Concat(parts: seq<string>): string {
    if |parts| == 0 then "" else parts[0] + Concat(parts[1..])
  }

  /** s cut into consecutive complete tags; None when a piece is not a tag. */
  function SplitTags(s: string): (r: Option<seq<string>>)
    decreases |s|
  {
    if |s| == 0 then Some([])
    else
      match TagEnd(s)
      case None => None
      case Some(n) =>
        match SplitTags(s[n..])
        case None => None
        case Some(rest) =>
          assert s[..n] + s[n..] == s;
          Some([s[..n]] + rest)
  }

  /** The component tags of a tuple tag `(...)` or the alternatives of a variant tag `<...>`. */
  function Bracketed(t: string, close: char): (r: Option<seq<string>>)
    ensures r.Some? ==> |t| >= 2 && t[|t| - 1] == close
  {
    if |t| >= 2 && t[|t| - 1] == close then SplitTags(t[1..|t| - 1]) else None
  }

  /** The length of the longest prefix of s free of the characters in stop. */
  function Span(s: string, stop: set<char>): (r: nat)
    ensures r <= |s|
  {
    if |s| == 0 || s[0] in stop then 0 else 1 + Span(s[1..], stop)
  }

  predicate OccursAt(s: string, pat: string, k: nat) {
    k + |pat| <= |s| && s[k..k + |pat|] == pat
  }

  /** The first position at which pat occurs in s, searching from i. */
  function Find(s: string, pat: string, i: nat): (r: Option<nat>)
    requires i <= |s|
    ensures r.Some? ==> i <= r.value && OccursAt(s, pat, r.value)
    ensures r.Some? ==> forall k | i <= k < r.value :: !OccursAt(s, pat, k)
    ensures r.None? ==> forall k | i <= k && k + |pat| <= |s| :: !OccursAt(s, pat, k)
    decreases |s| - i
  {
    if i + |pat| > |s| then None
    else if s[i..i + |pat|] == pat then Some(i)
    else Find(s, pat, i + 1)
  }

  datatype Field = Field(name: string, tag: string)

  /** A struct tag taken apart: its name, the text after the name, and its fields. */
  datatype StructTag = StructTag(name: string, fieldsText: string, fields: seq<Field>)

  /** The fields `field'tag... of a struct tag, read from the text after its name up to the closing brace. */
  function ParseFields(s: string): (r: Option<seq<Field>>)
    ensures r.Some? ==> |s| > 0 && s[|s| - 1] == '}'
    ensures r.Some? ==> (|r.value| == 0 <==> s[0] == '}')
    decreases |s|
  {
    if |s| == 0 then None
    else if s[0] == '}' then (if |s| == 1 then Some([]) else None)
    else if s[0] != '`' then None
    else
      var field := s[1..];
      var j := Span(field, {'\''});
      if j == |field| then None
      else
        var after := field[j + 1..];
        match TagEnd(after)
        case None => None
        case Some(n) =>
          match ParseFields(after[n..])
          case None => None
          case Some(fields) =>
            assert s[|s| - 1] == after[n..][|after[n..]| - 1];
            Some([Field(field[..j], after[..n])] + fields)
  }

  /** A struct tag `{Name`f'tag...}` taken apart. */
  function ParseStruct(t: string): (r: Option<StructTag>)
    requires |t| > 0 && t[0] == '{'
  {
    ScanName(t, 1)
  }

  /** Reads the name of struct tag t from position i on, up to the first backquote or closing brace. */
  function ScanName(t: string, i: nat): (r: Option<StructTag>)
    requires 0 < i <= |t|
    decreases |t| - i
  {
    if i == |t| then None
    else if t[i] == '`' || t[i] == '}' then StructOfParts(t[1..i], t[i..])
    else ScanName(t, i + 1)
  }

  /** A struct tag from its name and the text after the name: the field list and the closing brace. */
  function StructOfParts(name: string, rest: string): (r: Option<StructTag>)
    requires |rest| > 0
  {
    match ParseFields(rest)
    case None => None
    case Some(fields) =>
      if rest[0] == '}' then Some(StructTag(name, "", []))
      else Some(StructTag(name, rest[..|rest| - 1], fields))
  }

  /**
   * The struct a struct tag stands for within the full tag: a field-less
   * `{Name}` refers to the first definition `{Name`...` in the full tag
   * when there is one, and is an empty struct otherwise.
   */
  function StructDef(full: string, t: string): (r: Option<StructTag>)
    requires |t| > 0 && t[0] == '{'
  {
    match ParseStruct(t)
    case None => None
    case Some(st) =>
      if |st.fields| > 0 then Some(st)
      else
        match Find(full, "{" + st.name + "`", 0)
        case None => Some(st)
        case Some(p) =>
          match TagEnd(full[p..])
          case None => None
          case Some(n) => ParseStruct(full[p..p + n])
  }

  /** An enum tag taken apart; enumerators are (hex value, name) pairs in tag order. */
  datatype EnumTag = EnumTag(code: char, name: string, enumerators: seq<(string, string)>)

  /** The enumerators hex`name'... of an enum tag, read up to the closing backslash. */
  function ParseEnumerators(s: string): (r: Option<seq<(string, string)>>)
    decreases |s|
  {
    if |s| == 0 then None
    else if s[0] == '\\' then (if |s| == 1 then Some([]) else None)
    else
      var k := Span(s, {'`'});
      if k == |s| then None
      else
        var named := s[k + 1..];
        var m := Span(named, {'\''});
        if m == |named| then None
        else
          match ParseEnumerators(named[m + 1..])
          case None => None
          case Some(rest) => Some([(s[..k], named[..m])] + rest)
  }

  /** An enum tag `/code`Name'hex`enumerator'...\` taken apart. */
  function ParseEnum(t: string): (r: Option<EnumTag>)
    requires |t| > 0 && t[0] == '/'
  {
    if |t| < 3 || t[2] != '`' then None else ScanEnumName(t, 3)
  }

  /** Reads the name of enum tag t from position i on, then its enumerators. */
  function ScanEnumName(t: string, i: nat): (r: Option<EnumTag>)
    requires 3 <= i <= |t|
    decreases |t| - i
  {
    if i == |t| then None
    else if t[i] == '\'' then
      match ParseEnumerators(t[i + 1..])
      case None => None
      case Some(es) => Some(EnumTag(t[1], t[3..i], es))
    else ScanEnumName(t, i + 1)
  }

  /** The name of the first enumerator listed with the given hex value; empty when none is. */
  function Enumerator(enumerators: seq<(string, string)>, hex: string): (name: string)
    ensures name != "" ==> exists k | 0 <= k < |enumerators| :: enumerators[k] == (hex, name)
  {
    if |enumerators| == 0 then ""
    else if enumerators[0].0 == hex then enumerators[0].1
    else Enumerator(enumerators[1..], hex)
  }
}
