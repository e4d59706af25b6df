/**
 Muggin templates: the tree the compiler builds, and what its indentation-sensitive parser computes,
 as functions on the source text. `S` is what stands for a string in the tree: a pool id in the compiled
 template, or the string itself once ids are resolved.
 */
module Template {
  import opened Strs

  datatype Content<+S> = Const(text: S) | Name(name: S)

  /** Constants and variable references; the separator is NUL for none. */
  datatype Contents<+S> = Contents(items: seq<Content<S>>, separator: char)

  datatype AttrValue<+S> = Constant(constant: S) | Mixed(contents: Contents<S>)

  datatype Attr<+S> = Attr(name: S, value: AttrValue<S>)

  datatype Node<+S> =
    | Element(tag: S, attributes: seq<Attr<S>>, children: seq<Node<S>>, isVoid: bool)
    | Text(contents: Contents<S>)

  const MAX_CLASSES: nat := 64

  datatype Charset = TagChars | AttrChars

  /** valid_tag, which valid_id and valid_class equal, and valid_attr. */
  predicate ValidChar(set_: Charset, c: char, first: bool) {
    || 'a' <= c <= 'z' || 'A' <= c <= 'Z'
    || (!first && ('0' <= c <= '9' || c == ':' || c == '-'))
    || (set_ == AttrChars && c == '_')
  }

  const VOID_ELEMENTS: seq<string> :=
    ["area", "base", "br", "col", "embed", "hr", "img", "input", "link", "meta", "param", "source", "track", "wbr"]

  /** The length of the longest run of valid characters at the front. */
  function RunLength(s: string, set_: Charset, first: bool): (n: nat)
    ensures n <= |s|
    ensures forall i | 0 <= i < n :: ValidChar(set_, s[i], first && i == 0)
    ensures n < |s| ==> !ValidChar(set_, s[n], first && n == 0)
  {
    if s != "" && ValidChar(set_, s[0], first) then 1 + RunLength(s[1..], set_, false) else 0
  }

  /** muggin_read_indent: a space counts one, a tab eight. */
  function IndentWidth(s: string): nat {
    if s == "" then 0
    else if s[0] == ' ' then 1 + IndentWidth(s[1..])
    else if s[0] == '\t' then 8 + IndentWidth(s[1..])
    else 0
  }

  function SkipIndent(s: string): (r: string)
    ensures |r| <= |s|
    ensures r != "" ==> r[0] != ' ' && r[0] != '\t'
  {
    if s != "" && (s[0] == ' ' || s[0] == '\t') then SkipIndent(s[1..]) else s
  }

  /**
   What a parsing step does: it yields a value and the text left over; or it returns false, leaving the
   input wherever it had got to; or it ends in an error report, which does not return; or it never ends.
   */
  datatype Step<+T> = Got(value: T, rest: string) | NoMatch(rest: string) | Abort | Hang

  /**
   muggin_contents_from_str: text with mustache references. A reference that is not closed, and one with
   no name, end in an error report.
   */
  function ParseContents(s: string): (r: Step<seq<Content<string>>>)
    ensures r.Got? || r.Abort?
    ensures r.Got? ==> r.rest == ""
    decreases |s|
  {
    var i := IndexOf(s, '{');
    if i != -1 && CharAt(s, i + 1) == '{' then
      var before := if i > 0 then [Const(s[..i])] else [];
      var t := LTrim(Drop(s, i + 2));
      var j := IndexOf(t, '}');
      if j == -1 || CharAt(t, j + 1) != '}' then Abort
      else
        var name := RTrim(t[..j]);
        if name == "" then Abort
        else
          match ParseContents(Drop(t, j + 2))
          case Got(items, rest) => Got(before + [Name(name)] + items, "")
          case other => Abort
    else if s != "" then Got([Const(s)], "")
    else Got([], "")
  }

  const UNQUOTED_END: string := [' ', '\t', '\n', ')']

  /**
   The value half of muggin_read_attribute. An unquoted value that nothing ends is scanned for ever.
   */
  function ParseValue(name: string, s: string): (r: Step<Attr<string>>)
    ensures r.Got? || r.NoMatch? ==> |r.rest| <= |s|
  {
    if s != "" && s[0] == '"' then
      if s[1..] == "" then NoMatch(s[1..])
      else
        var items := ParseContents(Before(s[1..], "\""));
        if items.Got? then Got(Attr(name, Mixed(Contents(items.value, '\0'))), After(s[1..], "\"")) else Abort
    else
      var len := SplitPoint(s, UNQUOTED_END);
      if len == |s| then Hang
      else
        var items := ParseContents(s[..len]);
        if items.Got? then
          Got(Attr(name, Mixed(Contents(items.value, '\0'))), if s[len] == ')' then s[len..] else s[len + 1..])
        else Abort
  }

  lemma QuotedValue(name: string, s: string)
    requires s != "" && s[0] == '"'
    ensures Drop(s, 1) == "" ==> ParseValue(name, s) == NoMatch("")
    ensures Drop(s, 1) != "" ==>
              var items := ParseContents(Before(Drop(s, 1), "\""));
              ParseValue(name, s) ==
              if items.Got? then Got(Attr(name, Mixed(Contents(items.value, '\0'))), After(Drop(s, 1), "\"")) else Abort
  {
    hide ParseContents, Before, After;
  }

  lemma UnquotedValue(name: string, s: string)
    requires CharAt(s, 0) != '"'
    ensures var len := SplitPoint(s, UNQUOTED_END);
            ParseValue(name, s) ==
            if len == |s| then Hang
            else
              var items := ParseContents(Take(s, len));
              if items.Got? then
                Got(Attr(name, Mixed(Contents(items.value, '\0'))), Drop(s, if s[len] == ')' then len else len + 1))
              else Abort
  {
    hide ParseContents, SplitPoint;
  }

  /** muggin_read_attribute. */
  function ParseAttribute(s: string): (r: Step<Attr<string>>)
    ensures r.Got? ==> |r.rest| < |s|
    ensures r.NoMatch? ==> |r.rest| <= |s|
  {
    var s1 := LTrim(s);
    var n := RunLength(s1, AttrChars, true);
    if CharAt(s1, 0) == ')' || n == 0 then NoMatch(s1)
    else
      var s2 := LTrim(s1[n..]);
      if CharAt(s2, 0) != '=' then NoMatch(s2)
      else ParseValue(s1[..n], LTrim(Drop(s2, 1)))
  }

  /** The attribute loop of muggin_parse_node. */
  function ParseAttributes(s: string): (r: Step<seq<Attr<string>>>)
    ensures r.Got? ==> |r.rest| <= |s|
    ensures !r.NoMatch?
    decreases |s|
  {
    var first := ParseAttribute(s);
    if first.Got? then
      var others := ParseAttributes(first.rest);
      if others.Got? then Got([first.value] + others.value, others.rest) else others
    else if first.NoMatch? then Got([], first.rest)
    else if first.Abort? then Abort
    else Hang
  }

  datatype Marks = Marks(id: seq<string>, classes: seq<string>)

  /** The `#id` and `.class` marks after a tag: at most one id and 64 classes. */
  function ParseMarks(s: string, m: Marks): (r: Step<Marks>)
    requires |m.id| <= 1 && |m.classes| <= MAX_CLASSES
    ensures r.Got? ==> |r.rest| <= |s| && |r.value.id| <= 1 && |r.value.classes| <= MAX_CLASSES
    ensures r.NoMatch? ==> |r.rest| <= |s|
    ensures r.Got? || r.NoMatch?
    decreases |s|
  {
    var c := CharAt(s, 0);
    if c == '#' then
      if |m.id| == 1 then NoMatch(s)
      else
        var n := RunLength(s[1..], TagChars, true);
        if n == 0 then NoMatch(s[1..])
        else ParseMarks(s[1..][n..], m.(id := [s[1..][..n]]))
    else if c == '.' then
      var n := RunLength(s[1..], TagChars, true);
      if n == 0 then NoMatch(s[1..])
      else if |m.classes| == MAX_CLASSES then NoMatch(s[1..][n..])
      else ParseMarks(s[1..][n..], m.(classes := m.classes + [s[1..][..n]]))
    else Got(m, s)
  }

  /** The attributes the marks become: the id, and the classes, several of them joined by a space. */
  function MarkAttributes(m: Marks): seq<Attr<string>> {
    (if m.id == [] then [] else [Attr("id", Constant(m.id[0]))])
    + (if m.classes == [] then []
       else if |m.classes| == 1 then [Attr("class", Constant(m.classes[0]))]
       else [Attr("class", Mixed(Contents(Consts(m.classes), ' ')))])
  }

  function Consts(texts: seq<string>): (r: seq<Content<string>>)
    ensures |r| == |texts| && forall i | 0 <= i < |r| :: r[i] == Const(texts[i])
  {
    seq(|texts|, i requires 0 <= i < |texts| => Const(texts[i]))
  }

  /** The parenthesised attributes, if any. */
  function ParseParens(s: string): (r: Step<seq<Attr<string>>>)
    ensures r.Got? || r.NoMatch? ==> |r.rest| <= |s|
  {
    if s == "" || s[0] != '(' then Got([], s)
    else
      var attrs := ParseAttributes(s[1..]);
      if !attrs.Got? then attrs
      else if attrs.rest == "" || attrs.rest[0] != ')' then NoMatch(attrs.rest)
      else Got(attrs.value, attrs.rest[1..])
  }

  /** The rest of the element's line as a text child, unless it is blank. */
  function ParseInline(s: string): (r: Step<seq<Node<string>>>)
    ensures r.Got? ==> |r.rest| <= |s|
    ensures r.Got? || r.Abort?
  {
    var content := Trim(Before(s, "\n"));
    if content == "" then Got([], After(s, "\n"))
    else
      match ParseContents(content)
      case Got(items, _) => Got([Text(Contents(items, '\0'))], After(s, "\n"))
      case _ => Abort
  }

  /** The part of an element before its indented children: everything on its own line. */
  function ParseHead(s: string): (r: Step<Node<string>>)
    ensures r.Got? ==> r.value.Element? && |r.rest| < |s|
    ensures r.NoMatch? ==> |r.rest| <= |s|
  {
    var n := RunLength(s, TagChars, true);
    if n == 0 then NoMatch(s)
    else
      match ParseMarks(s[n..], Marks([], []))
      case NoMatch(rest) => NoMatch(rest)
      case Got(marks, s1) =>
        match ParseParens(s1)
        case NoMatch(rest) => NoMatch(rest)
        case Abort => Abort
        case Hang => Hang
        case Got(attrs, s2) =>
          match ParseInline(s2)
          case Got(text, rest) =>
            Got(Element(s[..n], MarkAttributes(marks) + attrs, text, s[..n] in VOID_ELEMENTS), rest)
          case _ => Abort
  }

  /** A `|` text line. The whole rest of the input is trimmed before the line is cut off. */
  function ParseTextLine(s: string): (r: Step<Node<string>>)
    requires s != ""
    ensures r.Got? ==> |r.rest| < |s|
    ensures r.Got? || r.Abort?
  {
    var t := Trim(s[1..]);
    match ParseContents(Trim(Before(t, "\n")))
    case Got(items, _) => Got(Text(Contents(items, '\0')), After(t, "\n"))
    case _ => Abort
  }

  /**
   muggin_parse_node. Text at another indentation is left alone; a line at this one that does not parse
   is given up with the input left where the trouble was.
   */
  function ParseNode(s: string, indent: nat): (r: Step<Node<string>>)
    ensures r.Got? ==> |r.rest| < |s|
    ensures r.NoMatch? ==> |r.rest| <= |s|
    decreases |s|, 1
  {
    if IndentWidth(s) != indent then NoMatch(s)
    else
      var s1 := SkipIndent(s);
      if CharAt(s1, 0) == '|' then ParseTextLine(s1)
      else
        match ParseHead(s1)
        case Got(head, s2) =>
          (match ParseChildren(s2, indent + 2)
           case Got(children, rest) => Got(head.(children := head.children + children), rest)
           case NoMatch(rest) => NoMatch(rest)
           case Abort => Abort
           case Hang => Hang)
        case other => other
  }

  /** The child loop of muggin_parse_node: siblings until one does not parse. */
  function ParseChildren(s: string, indent: nat): (r: Step<seq<Node<string>>>)
    ensures r.Got? ==> |r.rest| <= |s|
    ensures !r.NoMatch?
    decreases |s|, 2
  {
    var first := ParseNode(s, indent);
    if first.Got? then
      var others := ParseChildren(first.rest, indent);
      if others.Got? then Got([first.value] + others.value, others.rest) else others
    else if first.NoMatch? then Got([], first.rest)
    else if first.Abort? then Abort
    else Hang
  }

  /** The position just after the first `---`, or -1. */
  function AfterDashes(s: string, i: nat): (r: int)
    requires 2 <= i
    ensures r == -1 || i < r <= |s|
    decreases |s| - i
  {
    if i >= |s| then -1
    else if s[i] == '-' && s[i - 1] == '-' && s[i - 2] == '-' then i + 1
    else AfterDashes(s, i + 1)
  }

  /** muggin_skip_metadata. */
  function SkipMetadata(s: string): (r: string) {
    var i := AfterDashes(s, 2);
    if i == -1 then s else LTrim(s[i..])
  }

  /** muggin_parse: one root node, after the metadata; what follows the root is ignored. */
  function Parse(s: string): Step<Node<string>> {
    ParseNode(LTrim(SkipMetadata(s)), 0)
  }
}
