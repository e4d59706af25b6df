/**
 The canonical text of a template, and the proof that parsing it gives the template back.
 */
module TemplatePrinter {
  import opened Seqs
  import opened Strs
  import opened Template

  datatype Field = Field(name: string, value: seq<Content<string>>)

  /** A template as its author thinks of it. */
  datatype Markup =
    | Tag(name: string, id: seq<string>, classes: seq<string>, fields: seq<Field>,
          text: seq<Content<string>>, children: seq<Markup>)
    | Line(text: seq<Content<string>>)

  // ----- well-formedness -----

  predicate IsToken(s: string, set_: Charset) {
    s != "" && RunLength(s, set_, true) == |s|
  }

  /** A variable name survives the trimming around it and does not end its reference early. */
  predicate NameOk(n: string) {
    n != "" && '}' !in n && !IsSpace(n[0]) && !IsSpace(n[|n| - 1])
  }

  /** Constant text that reaches the end is not mistaken for a reference. */
  predicate LastConstOk(c: string) {
    c != "" && (IndexOf(c, '{') == -1 || CharAt(c, IndexOf(c, '{') + 1) != '{')
  }

  /** The item lists that text can denote. */
  predicate ItemsOk(items: seq<Content<string>>) {
    items == [] ||
    match items[0]
    case Name(n) => NameOk(n) && ItemsOk(items[1..])
    case Const(c) =>
      if |items| == 1 then LastConstOk(c)
      else c != "" && '{' !in c && items[1].Name? && ItemsOk(items[1..])
  }

  predicate Trimmed(s: string) {
    s != "" && !IsSpace(s[0]) && !IsSpace(s[|s| - 1])
  }

  /** Items that can stand as the text of a line. */
  predicate LineOk(items: seq<Content<string>>) {
    ItemsOk(items) && Trimmed(PrintItems(items)) && '\n' !in PrintItems(items)
  }

  predicate FieldOk(f: Field) {
    IsToken(f.name, AttrChars) && ItemsOk(f.value) && '"' !in PrintItems(f.value)
  }

  predicate WellFormed(m: Markup) {
    match m
    case Line(text) => LineOk(text)
    case Tag(name, id, classes, fields, text, children) =>
      && IsToken(name, TagChars)
      && |id| <= 1 && (forall t | t in id :: IsToken(t, TagChars))
      && |classes| <= MAX_CLASSES && (forall t | t in classes :: IsToken(t, TagChars))
      && (forall f | f in fields :: FieldOk(f))
      && (text == [] || LineOk(text))
      && (forall c | c in children :: WellFormed(c))
  }

  // ----- the printer -----

  function PrintItem(c: Content<string>): string {
    match c
    case Const(t) => t
    case Name(n) => "{{" + n + "}}"
  }

  function PrintItems(items: seq<Content<string>>): string {
    if items == [] then "" else PrintItem(items[0]) + PrintItems(items[1..])
  }

  function PrintField(f: Field): string {
    f.name + "=\"" + PrintItems(f.value) + "\""
  }

  function PrintFields(fields: seq<Field>): string {
    if fields == [] then ")"
    else if |fields| == 1 then PrintField(fields[0]) + ")"
    else PrintField(fields[0]) + " " + PrintFields(fields[1..])
  }

  function PrintClasses(classes: seq<string>): string {
    if classes == [] then "" else "." + classes[0] + PrintClasses(classes[1..])
  }

  function PrintId(id: seq<string>): string {
    if id == [] then "" else "#" + id[0]
  }

  function PrintText(text: seq<Content<string>>): string {
    if text == [] then "" else " " + PrintItems(text)
  }

  function PrintParens(fields: seq<Field>): string {
    if fields == [] then "" else "(" + PrintFields(fields)
  }

  function PrintHead(m: Markup): string
    requires m.Tag?
  {
    m.name + (PrintId(m.id) + PrintClasses(m.classes)) + PrintParens(m.fields) + PrintText(m.text)
  }

  function Spaces(n: nat): (r: string)
    ensures |r| == n && forall i | 0 <= i < n :: r[i] == ' '
  {
    if n == 0 then "" else " " + Spaces(n - 1)
  }

  /** A node at an indentation: its line, and its children below it, two columns further in. */
  function Print(m: Markup, indent: nat): string
    decreases m, 1
  {
    Spaces(indent) +
    match m
    case Line(text) => "| " + PrintItems(text)
    case Tag(_, _, _, _, _, children) => PrintHead(m) + PrintBelow(children, indent + 2)
  }

  function PrintBelow(ms: seq<Markup>, indent: nat): string
    decreases ms, 0
  {
    if ms == [] then "" else "\n" + Print(ms[0], indent) + PrintBelow(ms[1..], indent)
  }

  // ----- the tree a template means -----

  function FieldAttributes(fields: seq<Field>): (r: seq<Attr<string>>)
    ensures |r| == |fields|
  {
    seq(|fields|, i requires 0 <= i < |fields| => Attr(fields[i].name, Mixed(Contents(fields[i].value, '\0'))))
  }

  function TextNodes(text: seq<Content<string>>): seq<Node<string>> {
    if text == [] then [] else [Text(Contents(text, '\0'))]
  }

  /** The elements that HTML gives no content and no end tag. */
  predicate IsVoid(name: string) {
    || name == "area" || name == "base" || name == "br" || name == "col" || name == "embed" || name == "hr"
    || name == "img" || name == "input" || name == "link" || name == "meta" || name == "param"
    || name == "source" || name == "track" || name == "wbr"
  }

  function IdAttributes(id: seq<string>): seq<Attr<string>> {
    if id == [] then [] else [Attr("id", Constant(id[0]))]
  }

  /** One class is a constant; several are constants with a space between them. */
  function ClassAttributes(classes: seq<string>): seq<Attr<string>> {
    if |classes| == 0 then []
    else if |classes| == 1 then [Attr("class", Constant(classes[0]))]
    else
      var items := seq(|classes|, i requires 0 <= i < |classes| => Const(classes[i]));
      [Attr("class", Mixed(Contents(items, ' ')))]
  }

  function Head(m: Markup): Node<string>
    requires m.Tag?
  {
    Element(m.name, IdAttributes(m.id) + ClassAttributes(m.classes) + FieldAttributes(m.fields), TextNodes(m.text),
            IsVoid(m.name))
  }

  /** The parser's table and its attributes for marks are those of the printer's tree. */
  lemma MarksMean(name: string, id: seq<string>, classes: seq<string>)
    requires |id| <= 1
    ensures MarkAttributes(Marks(id, classes)) == IdAttributes(id) + ClassAttributes(classes)
    ensures name in VOID_ELEMENTS <==> IsVoid(name)
    ensures IsVoid(name) <==> name in ["area", "base", "br", "col", "embed", "hr", "img", "input", "link", "meta",
                                       "param", "source", "track", "wbr"]
  {
    VoidTable(name);
    if |classes| > 1 {
      assert Consts(classes) == seq(|classes|, i requires 0 <= i < |classes| => Const(classes[i]));
    }
  }

  lemma VoidTable(name: string)
    ensures name in VOID_ELEMENTS <==> IsVoid(name)
  {}

  function Tree(m: Markup): Node<string>
    decreases m, 1
  {
    match m
    case Line(text) => Text(Contents(text, '\0'))
    case Tag(_, _, _, _, _, children) =>
      var head := Head(m);
      head.(children := head.children + Trees(children))
  }

  function Trees(ms: seq<Markup>): seq<Node<string>>
    decreases ms, 0
  {
    if ms == [] then [] else [Tree(ms[0])] + Trees(ms[1..])
  }

  // ----- contents -----

  lemma IndexOfIn(a: string, c: char, b: string)
    requires c !in a
    ensures IndexOf(a + [c] + b, c) == |a|
  {
    assert (a + [c] + b)[..|a|] == a;
    IndexOfUnique(a + [c] + b, c, |a|);
  }

  /** The text the parser cuts out at a reference. */
  lemma ReferenceParts(c: string, n: string, rest: string)
    requires '{' !in c && NameOk(n)
    ensures var s, u := c + "{{" + n + "}}" + rest, n + "}}" + rest;
            && IndexOf(s, '{') == |c| && CharAt(s, |c| + 1) == '{' && s[..|c|] == c
            && LTrim(Drop(s, |c| + 2)) == u && n != ""
            && IndexOf(u, '}') == |n| && CharAt(u, |n| + 1) == '}' && RTrim(u[..|n|]) == n
            && Drop(u, |n| + 2) == rest
  {
    hide IndexOf, CharAt, Drop, RTrim, LTrim;
    var u := n + "}}" + rest;
    DoubledAt(c, '{', u);
    DoubledAt(n, '}', rest);
    Assoc(c + "{{" + n, "}}", rest);
    Assoc(c + "{{", n, "}}" + rest);
    Assoc(n, "}}", rest);
    NameTrims(n, rest);
  }

  lemma NameTrims(n: string, rest: string)
    requires NameOk(n)
    ensures LTrim(n + "}}" + rest) == n + "}}" + rest && RTrim(n) == n && '}' !in n && n != ""
  {}

  /** Where a doubled character is found, what precedes it and what follows it. */
  lemma DoubledAt(a: string, c: char, b: string)
    requires c !in a
    ensures var s := a + [c, c] + b;
            IndexOf(s, c) == |a| && CharAt(s, |a| + 1) == c && s[..|a|] == a && Drop(s, |a| + 2) == b
  {
    assert a + [c, c] + b == a + [c] + ([c] + b);
    IndexOfIn(a, c, [c] + b);
  }

  /** One reference: the text before it, its name, and the rest parsed on its own. */
  lemma ParseReference(c: string, n: string, rest: string)
    requires '{' !in c && NameOk(n) && ParseContents(rest).Got?
    ensures ParseContents(c + "{{" + n + "}}" + rest)
            == Got((if c == "" then [] else [Const(c)]) + [Name(n)] + ParseContents(rest).value, "")
  {
    hide *;
    ReferenceParts(c, n, rest);
    ParseContentsAt(c + "{{" + n + "}}" + rest, |c|, n + "}}" + rest, |n|, n, rest);
  }

  /** One unfolding of ParseContents at a reference whose parts are known. */
  lemma ParseContentsAt(s: string, i: nat, t: string, j: nat, name: string, rest: string)
    requires IndexOf(s, '{') == i && CharAt(s, i + 1) == '{' && LTrim(Drop(s, i + 2)) == t
    requires IndexOf(t, '}') == j && CharAt(t, j + 1) == '}' && RTrim(t[..j]) == name && Drop(t, j + 2) == rest
    requires name != "" && ParseContents(rest).Got?
    ensures ParseContents(s)
            == Got((if i > 0 then [Const(s[..i])] else []) + [Name(name)] + ParseContents(rest).value, "")
  {
    hide IndexOf, LTrim, RTrim;
  }

  /** Contents round trip: printing items and parsing them gives the same items. */
  lemma {:induction false} ContentsRoundTrip(items: seq<Content<string>>)
    requires ItemsOk(items)
    ensures ParseContents(PrintItems(items)) == Got(items, "")
    decreases |items|
  {
    if items == [] {
      return;
    }
    hide ParseContents, PrintItems;
    if items[0].Name? {
      ContentsRoundTrip(items[1..]);
      NameFirst(items);
    } else if |items| == 1 {
      LastConst(items);
    } else {
      assert items[2..] == items[1..][1..];
      ContentsRoundTrip(items[2..]);
      ConstFirst(items);
    }
  }

  lemma LastConst(items: seq<Content<string>>)
    requires |items| == 1 && items[0].Const? && ItemsOk(items)
    ensures ParseContents(PrintItems(items)) == Got(items, "")
  {
    assert PrintItems(items) == items[0].text && items == [items[0]];
  }

  lemma NameFirst(items: seq<Content<string>>)
    requires items != [] && items[0].Name? && ItemsOk(items)
    requires ParseContents(PrintItems(items[1..])) == Got(items[1..], "")
    ensures ParseContents(PrintItems(items)) == Got(items, "")
  {
    hide *;
    var n, printed := items[0].name, PrintItems(items[1..]);
    PrintName(items);
    assert "" + "{{" + n + "}}" + printed == "{{" + n + "}}" + printed;
    ParseReference("", n, printed);
    assert [] + [Name(n)] + items[1..] == items;
  }

  lemma PrintName(items: seq<Content<string>>)
    requires items != [] && items[0].Name? && ItemsOk(items)
    ensures NameOk(items[0].name) && PrintItems(items) == "{{" + items[0].name + "}}" + PrintItems(items[1..])
  {
    hide NameOk;
  }

  lemma ConstFirst(items: seq<Content<string>>)
    requires |items| >= 2 && items[0].Const? && ItemsOk(items)
    requires ParseContents(PrintItems(items[2..])) == Got(items[2..], "")
    ensures ParseContents(PrintItems(items)) == Got(items, "")
  {
    ConstFirstFacts(items);
    hide *;
    PrintPair(items);
    ParseReference(items[0].text, items[1].name, PrintItems(items[2..]));
    PairFirst(items);
  }

  lemma ConstFirstFacts(items: seq<Content<string>>)
    requires |items| >= 2 && items[0].Const? && ItemsOk(items)
    ensures items[1].Name? && NameOk(items[1].name) && '{' !in items[0].text && items[0].text != ""
  {
    assert items[1..][0] == items[1];
    hide NameOk, LastConstOk;
  }

  lemma PairFirst<T>(s: seq<T>)
    requires |s| >= 2
    ensures [s[0]] + [s[1]] + s[2..] == s
  {}

  lemma PrintPair(items: seq<Content<string>>)
    requires |items| >= 2 && items[0].Const? && items[1].Name?
    ensures PrintItems(items) == items[0].text + "{{" + items[1].name + "}}" + PrintItems(items[2..])
  {
    assert items[1..][0] == items[1] && items[1..][1..] == items[2..];
    var n := items[1].name;
    assert PrintItems(items[1..]) == "{{" + n + "}}" + PrintItems(items[2..]);
  }

  /** Conversely every item list the parser produces is well-formed, so exactly those lists can be read back. */
  lemma {:induction false} ParsedItemsOk(s: string)
    requires ParseContents(s).Got?
    ensures ItemsOk(ParseContents(s).value)
    decreases |s|
  {
    hide IndexOf, LTrim, RTrim, Drop, CharAt;
    var i := IndexOf(s, '{');
    if i != -1 && CharAt(s, i + 1) == '{' {
      var t := LTrim(Drop(s, i + 2));
      var j := IndexOf(t, '}');
      var name := RTrim(t[..j]);
      var rest := Drop(t, j + 2);
      ParsedItemsOk(rest);
      ReadName(t, j);
      ItemsOkCons(s[..i], name, ParseContents(rest).value);
    }
  }

  lemma ReadName(t: string, j: nat)
    requires j < |t| && '}' !in t[..j] && !IsSpace(t[0]) && RTrim(t[..j]) != ""
    ensures NameOk(RTrim(t[..j]))
  {
    var name := RTrim(t[..j]);
    assert forall k | 0 <= k < |name| :: name[k] == t[..j][k];
  }

  lemma ItemsOkCons(c: string, n: string, items: seq<Content<string>>)
    requires '{' !in c && NameOk(n) && ItemsOk(items)
    ensures ItemsOk((if c == "" then [] else [Const(c)]) + [Name(n)] + items)
  {
    var named := [Name(n)] + items;
    assert named[1..] == items;
    assert ItemsOk(named);
    if c == "" {
      assert [] + [Name(n)] + items == named;
    } else {
      assert ([Const(c)] + named)[1..] == named;
      assert [Const(c)] + [Name(n)] + items == [Const(c)] + named;
    }
  }

  lemma ItemsExactlyReadable(items: seq<Content<string>>)
    ensures ItemsOk(items) <==> exists s :: ParseContents(s) == Got(items, "")
  {
    if ItemsOk(items) {
      ContentsRoundTrip(items);
    }
    if s :| ParseContents(s) == Got(items, "") {
      ParsedItemsOk(s);
    }
  }

  // ----- tokens, attributes and marks -----

  /** The character after a token ends it. */
  predicate Ends(rest: string, set_: Charset) {
    rest == "" || !ValidChar(set_, rest[0], false)
  }

  lemma {:induction false} RunLengthAppend(s: string, rest: string, set_: Charset, first: bool)
    requires RunLength(s, set_, first) == |s| && Ends(rest, set_) && (first ==> s != "")
    ensures RunLength(s + rest, set_, first) == |s|
  {
    if s == "" {
      assert s + rest == rest;
    } else {
      assert (s + rest)[1..] == s[1..] + rest;
      RunLengthAppend(s[1..], rest, set_, false);
    }
  }

  lemma TokenAt(s: string, rest: string, set_: Charset)
    requires IsToken(s, set_) && Ends(rest, set_)
    ensures RunLength(s + rest, set_, true) == |s| && (s + rest)[..|s|] == s && (s + rest)[|s|..] == rest
    ensures ValidChar(set_, s[0], true)
  {
    RunLengthAppend(s, rest, set_, true);
  }

  /** The characters of tags, ids and classes, and of attribute names, in full. */
  lemma TokenCharacters(c: char)
    ensures ValidChar(TagChars, c, true) <==> 'a' <= c <= 'z' || 'A' <= c <= 'Z'
    ensures ValidChar(TagChars, c, false) <==>
            'a' <= c <= 'z' || 'A' <= c <= 'Z' || '0' <= c <= '9' || c == ':' || c == '-'
    ensures forall first :: ValidChar(AttrChars, c, first) <==> ValidChar(TagChars, c, first) || c == '_'
  {}

  lemma SplitPointIn(v: string, c: char, rest: string)
    requires c !in v
    ensures Before(v + [c] + rest, [c]) == v && After(v + [c] + rest, [c]) == rest
  {
    SplitPointUnique(v + [c] + rest, [c], |v|);
  }

  /** An attribute, after any white space, is read back up to its closing quote. */
  lemma FieldRoundTrip(w: string, f: Field, tail: string)
    requires FieldOk(f) && forall i | 0 <= i < |w| :: IsSpace(w[i])
    ensures ParseAttribute(w + PrintField(f) + tail)
            == Got(Attr(f.name, Mixed(Contents(f.value, '\0'))), tail)
  {
    var v := PrintItems(f.value);
    var s4 := v + ['"'] + tail;
    var s3 := ['"'] + s4;
    var s2 := ['='] + s3;
    FieldText(w, f, tail);
    FieldFacts(f, s3);
    hide *;
    TokenAt(f.name, s2, AttrChars);
    LTrimSkips(w, f.name + s2);
    FirstChar('=', s3);
    FirstChar('"', s4);
    TrimmedFront(f.name, s2);
    TrimmedFront(s2, "");
    TrimmedFront(s3, "");
    assert Drop(s2, 1) == s3 by { DropFirst(s2); }
    SplitPointIn(v, '"', tail);
    ContentsRoundTrip(f.value);
    ReadField(w + PrintField(f) + tail, f.name + s2, s2, s3, f, v, tail);
  }

  lemma FirstChar(c: char, s: string)
    ensures ([c] + s)[0] == c && ([c] + s)[1..] == s && [c] + s != ""
  {}

  lemma DropFirst(s: string)
    requires s != ""
    ensures Drop(s, 1) == s[1..]
  {}

  lemma TrimmedFront(s: string, t: string)
    requires s != "" && !IsSpace(s[0])
    ensures LTrim(s + t) == s + t && s + "" == s && (s + t)[0] == s[0] && s + t != ""
  {}

  lemma FieldText(w: string, f: Field, tail: string)
    ensures w + PrintField(f) + tail == w + (f.name + (['='] + (['"'] + (PrintItems(f.value) + ['"'] + tail))))
  {
    hide PrintItems;
  }

  lemma FieldFacts(f: Field, s3: string)
    requires FieldOk(f)
    ensures IsToken(f.name, AttrChars) && f.name != "" && ItemsOk(f.value) && '"' !in PrintItems(f.value)
    ensures Ends(['='] + s3, AttrChars)
    ensures !IsSpace(f.name[0]) && f.name[0] != ')' && !IsSpace('=') && !IsSpace('"')
  {
    hide PrintItems, ItemsOk;
  }

  /** ParseAttribute on a quoted value whose parts are known. */
  lemma ReadField(s: string, s1: string, s2: string, s3: string, f: Field, v: string, tail: string)
    requires LTrim(s) == s1 && RunLength(s1, AttrChars, true) == |f.name| > 0 && s1[..|f.name|] == f.name
    requires s1[0] != ')' && LTrim(s1[|f.name|..]) == s2 && s2 != "" && s2[0] == '=' && LTrim(Drop(s2, 1)) == s3
    requires s3 != "" && s3[0] == '"' && s3[1..] != "" && Before(s3[1..], "\"") == v && After(s3[1..], "\"") == tail
    requires ParseContents(v) == Got(f.value, "")
    ensures ParseAttribute(s) == Got(Attr(f.name, Mixed(Contents(f.value, '\0'))), tail)
  {
    hide LTrim, RunLength, Drop, Before, After, ParseContents, ParseValue;
    ReadValue(f.name, s3, v, f.value, tail);
  }

  lemma ReadValue(name: string, s: string, v: string, items: seq<Content<string>>, tail: string)
    requires s != "" && s[0] == '"' && s[1..] != "" && Before(s[1..], "\"") == v && After(s[1..], "\"") == tail
    requires ParseContents(v) == Got(items, "")
    ensures ParseValue(name, s) == Got(Attr(name, Mixed(Contents(items, '\0'))), tail)
  {
    hide Before, After, ParseContents;
  }

  lemma {:induction false} FieldsRoundTrip(w: string, fields: seq<Field>, tail: string)
    requires fields != [] && (forall f | f in fields :: FieldOk(f)) && forall i | 0 <= i < |w| :: IsSpace(w[i])
    ensures ParseAttributes(w + PrintFields(fields) + tail) == Got(FieldAttributes(fields), ")" + tail)
    decreases |fields|
  {
    hide ParseAttribute, PrintField, FieldOk;
    var f := fields[0];
    var s := w + PrintFields(fields) + tail;
    if |fields| == 1 {
      assert s == w + PrintField(f) + (")" + tail);
      FieldRoundTrip(w, f, ")" + tail);
      AttributesEnd(tail);
      assert FieldAttributes(fields) == [Attr(f.name, Mixed(Contents(f.value, '\0')))] + [];
    } else {
      var rest := " " + PrintFields(fields[1..]) + tail;
      assert s == w + PrintField(f) + rest;
      FieldRoundTrip(w, f, rest);
      FieldsRoundTrip(" ", fields[1..], tail);
      assert FieldAttributes(fields) == [Attr(f.name, Mixed(Contents(f.value, '\0')))] + FieldAttributes(fields[1..]);
    }
  }

  lemma AttributesEnd(tail: string)
    ensures ParseAttributes(")" + tail) == Got([], ")" + tail)
  {
    assert LTrim(")" + tail) == ")" + tail;
  }

  /** What may follow the marks: the attributes, the text, the line's end or nothing. */
  predicate AfterMarks(tail: string) {
    tail == "" || tail[0] in "( \n"
  }

  lemma {:induction false} ClassesRoundTrip(m: Marks, classes: seq<string>, tail: string)
    requires |m.id| <= 1 && |m.classes| + |classes| <= MAX_CLASSES && AfterMarks(tail)
    requires forall t | t in classes :: IsToken(t, TagChars)
    ensures ParseMarks(PrintClasses(classes) + tail, m) == Got(m.(classes := m.classes + classes), tail)
    decreases |classes|
  {
    hide ParseMarks, IsToken;
    if classes == [] {
      assert PrintClasses(classes) + tail == tail;
      assert m.classes + classes == m.classes;
      MarksEnd(m, tail);
    } else {
      var m' := m.(classes := m.classes + [classes[0]]);
      ClassesRoundTrip(m', classes[1..], tail);
      assert m'.classes + classes[1..] == m.classes + classes;
      MarkEnds(classes[1..], tail);
      ClassesText(classes, tail);
      ReadMark(m, classes[0], PrintClasses(classes[1..]) + tail);
    }
  }

  lemma ClassesText(classes: seq<string>, tail: string)
    requires classes != []
    ensures PrintClasses(classes) + tail == "." + (classes[0] + (PrintClasses(classes[1..]) + tail))
  {}

  lemma MarksEnd(m: Marks, tail: string)
    requires |m.id| <= 1 && |m.classes| <= MAX_CLASSES && AfterMarks(tail)
    ensures ParseMarks(tail, m) == Got(m, tail)
  {}

  lemma MarkEnds(classes: seq<string>, tail: string)
    requires AfterMarks(tail)
    ensures Ends(PrintClasses(classes) + tail, TagChars)
  {}

  /** One mark: its token is read and the marks go on with it. */
  lemma ReadMark(m: Marks, t: string, rest: string)
    requires |m.id| <= 1 && |m.classes| <= MAX_CLASSES && IsToken(t, TagChars) && Ends(rest, TagChars)
    ensures |m.classes| < MAX_CLASSES ==>
              ParseMarks("." + (t + rest), m) == ParseMarks(rest, m.(classes := m.classes + [t]))
    ensures m.id == [] ==> ParseMarks("#" + (t + rest), m) == ParseMarks(rest, m.(id := [t]))
  {
    TokenAt(t, rest, TagChars);
    assert ("." + (t + rest))[1..] == t + rest && ("#" + (t + rest))[1..] == t + rest;
    hide RunLength, ValidChar, IsToken, Ends;
  }

  lemma MarksRoundTrip(id: seq<string>, classes: seq<string>, tail: string)
    requires |id| <= 1 && |classes| <= MAX_CLASSES && AfterMarks(tail)
    requires (forall t | t in id :: IsToken(t, TagChars)) && forall t | t in classes :: IsToken(t, TagChars)
    ensures ParseMarks(PrintId(id) + PrintClasses(classes) + tail, Marks([], [])) == Got(Marks(id, classes), tail)
  {
    hide ParseMarks, IsToken;
    var rest := PrintClasses(classes) + tail;
    ClassesRoundTrip(Marks(id, []), classes, tail);
    assert [] + classes == classes;
    MarkEnds(classes, tail);
    IdText(id, PrintClasses(classes), tail);
    if id != [] {
      assert [id[0]] == id;
      ReadMark(Marks([], []), id[0], rest);
    }
  }

  lemma IdText(id: seq<string>, s: string, tail: string)
    ensures PrintId(id) + s + tail == if id == [] then s + tail else "#" + (id[0] + (s + tail))
  {}

  /** Marks up to the first that follows these classes. */
  lemma {:induction false} ClassesFirst(m: Marks, classes: seq<string>, rest: string)
    requires |m.id| <= 1 && |m.classes| + |classes| <= MAX_CLASSES && Ends(rest, TagChars)
    requires forall t | t in classes :: IsToken(t, TagChars)
    ensures ParseMarks(PrintClasses(classes) + rest, m) == ParseMarks(rest, m.(classes := m.classes + classes))
    decreases |classes|
  {
    hide ParseMarks, IsToken;
    if classes == [] {
      assert PrintClasses(classes) + rest == rest && m.classes + classes == m.classes;
    } else {
      var m' := m.(classes := m.classes + [classes[0]]);
      ClassesFirst(m', classes[1..], rest);
      assert m'.classes + classes[1..] == m.classes + classes;
      ClassesText(classes, rest);
      ClassesEndToken(classes[1..], rest);
      ReadMark(m, classes[0], PrintClasses(classes[1..]) + rest);
    }
  }

  lemma ClassesEndToken(classes: seq<string>, rest: string)
    requires Ends(rest, TagChars)
    ensures Ends(PrintClasses(classes) + rest, TagChars)
  {}

  /** Exactly 64 classes are read: with one more the element is refused. */
  lemma SixtyFourClasses(classes: seq<string>, tail: string)
    requires |classes| <= 65 && AfterMarks(tail) && forall t | t in classes :: IsToken(t, TagChars)
    ensures ParseMarks(PrintClasses(classes) + tail, Marks([], [])).Got? <==> |classes| <= 64
  {
    if |classes| <= 64 {
      ClassesRoundTrip(Marks([], []), classes, tail);
    } else {
      var last := "." + (classes[64] + tail);
      ClassesSplit(classes[..64], classes[64], tail);
      assert classes == classes[..64] + [classes[64]];
      assert [] + classes[..64] == classes[..64];
      ClassesFirst(Marks([], []), classes[..64], last);
      OneMore(Marks([], classes[..64]), classes[64], tail);
    }
  }

  lemma {:induction false} ClassesSplit(classes: seq<string>, last: string, tail: string)
    ensures PrintClasses(classes + [last]) + tail == PrintClasses(classes) + ("." + (last + tail))
  {
    if classes == [] {
      assert ([] + [last])[1..] == [] && PrintClasses([last]) == "." + last + "";
      assert "." + last + "" + tail == "" + ("." + (last + tail));
    } else {
      assert (classes + [last])[1..] == classes[1..] + [last];
      ClassesSplit(classes[1..], last, tail);
      ClassesText(classes + [last], tail);
      ClassesText(classes, "." + (last + tail));
    }
  }

  lemma OneMore(m: Marks, t: string, tail: string)
    requires |m.id| <= 1 && |m.classes| == 64 && IsToken(t, TagChars) && AfterMarks(tail)
    ensures ParseMarks("." + (t + tail), m).NoMatch?
  {
    TokenAt(t, tail, TagChars);
    assert ("." + (t + tail))[1..] == t + tail;
    hide RunLength, ValidChar, IsToken;
  }

  // ----- lines -----

  /** What follows a line: nothing, or a line break and more text that ends in a visible character. */
  predicate LineTail(tail: string) {
    tail == "" || (tail[0] == '\n' && !IsSpace(tail[|tail| - 1]))
  }

  lemma BeforeLineEnd(v: string, tail: string)
    requires '\n' !in v && LineTail(tail)
    ensures Before(v + tail, "\n") == v && After(v + tail, "\n") == Drop(tail, 1)
  {
    SplitPointUnique(v + tail, "\n", |v|);
  }

  lemma InlineRoundTrip(text: seq<Content<string>>, tail: string)
    requires (text == [] || LineOk(text)) && LineTail(tail)
    ensures ParseInline(PrintText(text) + tail) == Got(TextNodes(text), Drop(tail, 1))
  {
    var v := PrintText(text);
    BeforeLineEnd(v, tail);
    if text == [] {
      assert v == "";
    } else {
      var printed := PrintItems(text);
      TrimSpaced(printed);
      ContentsRoundTrip(text);
    }
  }

  lemma TrimSpaced(s: string)
    requires Trimmed(s)
    ensures Trim(" " + s) == s
  {
    assert RTrim(" " + s) == " " + s;
    LTrimSkips(" ", s);
  }

  lemma HeadRoundTrip(m: Markup, tail: string)
    requires m.Tag? && WellFormed(m) && LineTail(tail)
    ensures ParseHead(PrintHead(m) + tail) == Got(Head(m), Drop(tail, 1))
  {
    var s2 := PrintText(m.text) + tail;
    var s1 := PrintParens(m.fields) + s2;
    var s0 := PrintId(m.id) + PrintClasses(m.classes) + s1;
    HeadText(m, tail);
    HeadEnds(m, tail);
    hide *;
    TokenAt(m.name, s0, TagChars);
    MarksRoundTrip(m.id, m.classes, s1);
    assert |m.id| <= 1;
    ParensRoundTrip(m.fields, s2);
    InlineRoundTrip(m.text, tail);
    ReadHead(m.name + s0, m, s0, s1, s2, Drop(tail, 1));
  }

  lemma HeadText(m: Markup, tail: string)
    requires m.Tag?
    ensures PrintHead(m) + tail
            == m.name + (PrintId(m.id) + PrintClasses(m.classes) + (PrintParens(m.fields) + (PrintText(m.text) + tail)))
  {
    hide PrintId, PrintClasses, PrintParens, PrintText;
  }

  lemma HeadEnds(m: Markup, tail: string)
    requires m.Tag? && WellFormed(m) && LineTail(tail)
    ensures var s2 := PrintText(m.text) + tail;
            var s1 := PrintParens(m.fields) + s2;
            && m.name != "" && IsToken(m.name, TagChars)
            && |m.id| <= 1 && (forall t | t in m.id :: IsToken(t, TagChars))
            && |m.classes| <= MAX_CLASSES && (forall t | t in m.classes :: IsToken(t, TagChars))
            && (forall f | f in m.fields :: FieldOk(f)) && (m.text == [] || LineOk(m.text))
            && AfterMarks(s1) && (s2 == "" || s2[0] != '(')
            && Ends(PrintId(m.id) + PrintClasses(m.classes) + s1, TagChars)
  {
    hide FieldOk, LineOk, RunLength, PrintFields, PrintItems;
    var s2 := PrintText(m.text) + tail;
    var s1 := PrintParens(m.fields) + s2;
    assert s2 == "" || s2[0] == ' ' || s2[0] == '\n';
    assert s1 == "" || s1[0] == '(' || s1[0] == ' ' || s1[0] == '\n';
    assert "( \n" == ['(', ' ', '\n'];
    MarkEnds(m.classes, s1);
    IdText(m.id, PrintClasses(m.classes), s1);
  }

  lemma ParensRoundTrip(fields: seq<Field>, tail: string)
    requires (forall f | f in fields :: FieldOk(f)) && (tail == "" || tail[0] != '(')
    ensures ParseParens(PrintParens(fields) + tail) == Got(FieldAttributes(fields), tail)
  {
    if fields == [] {
      assert PrintParens(fields) + tail == tail;
    } else {
      ParensText(fields, tail);
      FieldsRoundTrip("", fields, tail);
      FirstChar('(', PrintFields(fields) + tail);
      FirstChar(')', tail);
      hide PrintFields, PrintParens, ParseAttributes, FieldAttributes;
    }
  }

  lemma ParensText(fields: seq<Field>, tail: string)
    requires fields != []
    ensures PrintParens(fields) + tail == ['('] + (PrintFields(fields) + tail)
    ensures "" + PrintFields(fields) + tail == PrintFields(fields) + tail
  {
    hide PrintFields;
  }

  lemma ReadHead(s: string, m: Markup, s0: string, s1: string, s2: string, rest: string)
    requires m.Tag? && RunLength(s, TagChars, true) == |m.name| > 0 && s[..|m.name|] == m.name && s[|m.name|..] == s0
    requires ParseMarks(s0, Marks([], [])) == Got(Marks(m.id, m.classes), s1)
    requires ParseParens(s1) == Got(FieldAttributes(m.fields), s2)
    requires ParseInline(s2) == Got(TextNodes(m.text), rest) && |m.id| <= 1
    ensures ParseHead(s) == Got(Head(m), rest)
  {
    MarksMean(m.name, m.id, m.classes);
    hide RunLength, ParseMarks, ParseParens, ParseInline, MarkAttributes, FieldAttributes, TextNodes, IsVoid,
         IdAttributes, ClassAttributes, VOID_ELEMENTS;
  }

  /** What marks make of an element's line, in full. */
  lemma MarksInFull(m: Markup, tail: string)
    requires m.Tag? && WellFormed(m) && LineTail(tail)
    ensures ParseHead(PrintHead(m) + tail).Got?
    ensures var attrs, n := ParseHead(PrintHead(m) + tail).value.attributes, |m.id|;
            && (m.id != [] ==> attrs != [] && attrs[0] == Attr("id", Constant(m.id[0])))
            && (|m.classes| == 1 ==> n < |attrs| && attrs[n] == Attr("class", Constant(m.classes[0])))
            && (|m.classes| > 1 ==>
                  && n < |attrs| && attrs[n].name == "class" && attrs[n].value.Mixed?
                  && attrs[n].value.contents.separator == ' '
                  && |attrs[n].value.contents.items| == |m.classes|
                  && forall i | 0 <= i < |m.classes| :: attrs[n].value.contents.items[i] == Const(m.classes[i]))
            && attrs[n + (if m.classes == [] then 0 else 1)..] == FieldAttributes(m.fields)
  {
    HeadRoundTrip(m, tail);
    assert |m.id| <= 1;
    hide WellFormed, ParseHead, PrintHead, FieldAttributes, IsVoid, TextNodes;
    assert Head(m).attributes == IdAttributes(m.id) + ClassAttributes(m.classes) + FieldAttributes(m.fields);
  }

  lemma TextLineRoundTrip(text: seq<Content<string>>, tail: string)
    requires LineOk(text) && LineTail(tail)
    ensures ParseTextLine("| " + PrintItems(text) + tail) == Got(Text(Contents(text, '\0')), Drop(tail, 1))
  {
    var v := PrintItems(text);
    var s := "| " + v + tail;
    assert s[1..] == " " + (v + tail);
    assert (v + tail)[0] == v[0];
    assert (v + tail)[|v + tail| - 1] == if tail == "" then v[|v| - 1] else tail[|tail| - 1];
    TrimSpaced(v + tail);
    BeforeLineEnd(v, tail);
    TrimIdempotent(v);
    ContentsRoundTrip(text);
  }

  // ----- nodes -----

  /** The text does not end in white space. */
  predicate EndsVisibly(s: string) {
    s != "" ==> !IsSpace(s[|s| - 1])
  }

  lemma BothEndVisibly(a: string, b: string)
    requires EndsVisibly(a) && EndsVisibly(b)
    ensures EndsVisibly(a + b)
  {}

  lemma TokenEnds(t: string, set_: Charset)
    requires IsToken(t, set_)
    ensures EndsVisibly(t)
  {
    assert forall i | 0 <= i < |t| :: ValidChar(set_, t[i], i == 0);
  }

  lemma {:induction false} ClassesEnd(classes: seq<string>)
    requires forall t | t in classes :: IsToken(t, TagChars)
    ensures EndsVisibly(PrintClasses(classes))
  {
    if classes != [] {
      assert classes[0] in classes;
      TokenEnds(classes[0], TagChars);
      BothEndVisibly(".", classes[0]);
      ClassesEnd(classes[1..]);
      BothEndVisibly("." + classes[0], PrintClasses(classes[1..]));
    }
  }

  lemma {:induction false} FieldsEnd(fields: seq<Field>)
    ensures EndsVisibly(PrintFields(fields))
    ensures PrintFields(fields) != ""
  {
    if |fields| > 1 {
      FieldsEnd(fields[1..]);
      var p := PrintField(fields[0]) + " ";
      assert PrintFields(fields) == p + PrintFields(fields[1..]);
    }
  }

  lemma IdAndClassesEnd(m: Markup)
    requires m.Tag? && WellFormed(m)
    ensures EndsVisibly(PrintId(m.id) + PrintClasses(m.classes))
  {
    hide PrintFields, PrintItems, PrintClasses, FieldOk, LineOk;
    if m.id != [] {
      assert m.id[0] in m.id;
      TokenEnds(m.id[0], TagChars);
    }
    BothEndVisibly("#", if m.id == [] then "" else m.id[0]);
    ClassesEnd(m.classes);
    BothEndVisibly(PrintId(m.id), PrintClasses(m.classes));
  }

  lemma PartsEnd(name: string, marks: string, parens: string, text: string)
    requires name != "" && EndsVisibly(name) && EndsVisibly(marks) && EndsVisibly(parens) && EndsVisibly(text)
    ensures var s := name + marks + parens + text; EndsVisibly(s) && s != "" && s[0] == name[0]
  {
    BothEndVisibly(name, marks);
    BothEndVisibly(name + marks, parens);
    BothEndVisibly(name + marks + parens, text);
  }

  lemma HeadEndsVisibly(m: Markup)
    requires m.Tag? && WellFormed(m)
    ensures EndsVisibly(PrintHead(m)) && PrintHead(m) != "" && ValidChar(TagChars, PrintHead(m)[0], true)
  {
    hide PrintFields, PrintItems, PrintClasses, FieldOk;
    TokenEnds(m.name, TagChars);
    IdAndClassesEnd(m);
    FieldsEnd(m.fields);
    BothEndVisibly("(", PrintFields(m.fields));
    PartsEnd(m.name, PrintId(m.id) + PrintClasses(m.classes), PrintParens(m.fields), PrintText(m.text));
  }

  lemma {:induction false} NodeEnds(m: Markup, indent: nat)
    requires WellFormed(m)
    ensures EndsVisibly(Print(m, indent))
    decreases m, 1
  {
    match m
    case Line(text) =>
      BothEndVisibly("|", " " + PrintItems(text));
    case Tag(_, _, _, _, _, children) =>
      HeadEndsVisibly(m);
      BelowEnds(children, indent + 2);
      BothEndVisibly(PrintHead(m), PrintBelow(children, indent + 2));
  }

  lemma {:induction false} BelowEnds(ms: seq<Markup>, indent: nat)
    requires forall m | m in ms :: WellFormed(m)
    ensures EndsVisibly(PrintBelow(ms, indent))
    decreases ms, 0
  {
    hide WellFormed, Print;
    if ms != [] {
      assert ms[0] in ms;
      NodeEnds(ms[0], indent);
      BelowEnds(ms[1..], indent);
      PrintNotEmpty(ms[0], indent);
      var first, more := Print(ms[0], indent), PrintBelow(ms[1..], indent);
      BothEndVisibly(first, more);
      Assoc("\n", first, more);
    }
  }

  /** What a node's line starts with after its indentation. */
  function Body(m: Markup, indent: nat): string {
    match m
    case Line(text) => "| " + PrintItems(text)
    case Tag(_, _, _, _, _, children) => PrintHead(m) + PrintBelow(children, indent + 2)
  }

  lemma PrintNotEmpty(m: Markup, indent: nat)
    requires WellFormed(m)
    ensures Print(m, indent) == Spaces(indent) + Body(m, indent)
    ensures Body(m, indent) != "" && !IsSpace(Body(m, indent)[0])
    ensures m.Tag? ==> Body(m, indent)[0] != '|'
  {
    if m.Tag? { HeadEndsVisibly(m); }
  }

  /** A tab counts as eight spaces. */
  lemma TabIsEight(s: string)
    requires s != "" && !IsSpace(s[0])
    ensures IndentWidth("\t" + s) == 8 && IndentWidth("\t  " + s) == 10 && SkipIndent("\t  " + s) == s
  {
    assert ("\t" + s)[1..] == s && IndentWidth(s) == 0;
    assert ("\t  " + s)[1..] == Spaces(2) + s by {
      assert Spaces(2) == [' '] + Spaces(1) && Spaces(1) == [' '] + Spaces(0);
    }
    IndentOf(2, s);
  }

  lemma {:induction false} IndentOf(n: nat, s: string)
    requires s != "" && !IsSpace(s[0])
    ensures IndentWidth(Spaces(n) + s) == n && SkipIndent(Spaces(n) + s) == s
  {
    if n == 0 {
      assert Spaces(n) + s == s;
    } else {
      assert (Spaces(n) + s)[1..] == Spaces(n - 1) + s;
      IndentOf(n - 1, s);
    }
  }

  /** What follows a node: nothing, or lines indented by less than k that end visibly. */
  predicate NodeTail(tail: string, k: nat) {
    LineTail(tail) && (tail != "" ==> IndentWidth(tail[1..]) < k)
  }

  /** Siblings below a node make a tail for it, and so does the first of several siblings. */
  lemma BelowTail(ms: seq<Markup>, indent: nat, tail: string, k: nat)
    requires (forall m | m in ms :: WellFormed(m)) && NodeTail(tail, k) && (ms != [] ==> indent < k)
    ensures NodeTail(PrintBelow(ms, indent) + tail, k)
    ensures ms != [] ==>
              Drop(PrintBelow(ms, indent) + tail, 1) == Print(ms[0], indent) + (PrintBelow(ms[1..], indent) + tail)
  {
    hide WellFormed, Print, PrintBelow, LineTail;
    if ms == [] {
      EmptyBelow(indent, tail);
    } else {
      assert ms[0] in ms;
      var more := PrintBelow(ms[1..], indent) + tail;
      BelowText(ms, indent, tail);
      BelowEnds(ms, indent);
      PrintNotEmpty(ms[0], indent);
      var body := Body(ms[0], indent) + more;
      assert Print(ms[0], indent) + more == Spaces(indent) + body;
      IndentOf(indent, body);
      TailEnds(PrintBelow(ms, indent), tail);
      FirstChar('\n', Print(ms[0], indent) + more);
      DropFirst(PrintBelow(ms, indent) + tail);
    }
  }

  lemma EmptyBelow(indent: nat, tail: string)
    ensures PrintBelow([], indent) + tail == tail
  {}

  lemma BelowText(ms: seq<Markup>, indent: nat, tail: string)
    requires ms != []
    ensures PrintBelow(ms, indent) + tail == ['\n'] + (Print(ms[0], indent) + (PrintBelow(ms[1..], indent) + tail))
    ensures PrintBelow(ms, indent) != "" && PrintBelow(ms, indent)[0] == '\n'
  {
    hide Print;
  }

  lemma TailEnds(a: string, tail: string)
    requires EndsVisibly(a) && LineTail(tail) && a != "" && a[0] == '\n'
    ensures LineTail(a + tail)
  {}

  /** Node round trip, with any admissible text after the node. */
  lemma {:induction false} NodeRoundTrip(m: Markup, indent: nat, tail: string)
    requires WellFormed(m) && NodeTail(tail, indent + 2)
    ensures ParseNode(Print(m, indent) + tail, indent) == Got(Tree(m), Drop(tail, 1))
    decreases m, 1
  {
    hide ParseNode, ParseHead, ParseTextLine, PrintHead, Print, PrintBelow, IndentWidth, LineTail, LineOk, PrintItems;
    var s1 := Body(m, indent) + tail;
    PrintNotEmpty(m, indent);
    assert Print(m, indent) + tail == Spaces(indent) + s1;
    IndentOf(indent, s1);
    match m
    case Line(text) =>
      TextLineRoundTrip(text, tail);
      ReadLine(Print(m, indent) + tail, indent, s1);
    case Tag(_, _, _, _, _, children) =>
      var below := PrintBelow(children, indent + 2) + tail;
      WeakerTail(tail, indent + 2, indent + 3);
      BelowTail(children, indent + 2, tail, indent + 3);
      assert s1 == PrintHead(m) + below;
      HeadRoundTrip(m, below);
      ChildrenRoundTrip(children, indent + 2, tail);
      ReadElement(Print(m, indent) + tail, indent, m, s1, Drop(below, 1), Drop(tail, 1));
  }

  lemma WeakerTail(tail: string, k: nat, k': nat)
    requires NodeTail(tail, k) && k <= k'
    ensures NodeTail(tail, k')
  {}

  lemma ReadLine(s: string, indent: nat, s1: string)
    requires IndentWidth(s) == indent && SkipIndent(s) == s1 && s1 != "" && s1[0] == '|'
    ensures ParseNode(s, indent) == ParseTextLine(s1)
  {
    hide ParseTextLine, IndentWidth, SkipIndent;
  }

  lemma ReadElement(s: string, indent: nat, m: Markup, s1: string, s2: string, rest: string)
    requires m.Tag? && IndentWidth(s) == indent && SkipIndent(s) == s1 && CharAt(s1, 0) != '|'
    requires ParseHead(s1) == Got(Head(m), s2) && ParseChildren(s2, indent + 2) == Got(Trees(m.children), rest)
    ensures ParseNode(s, indent) == Got(Tree(m), rest)
  {
    hide IndentWidth, SkipIndent, ParseHead, ParseChildren, Head, Trees;
  }

  lemma {:induction false} ChildrenRoundTrip(ms: seq<Markup>, indent: nat, tail: string)
    requires (forall m | m in ms :: WellFormed(m)) && NodeTail(tail, indent) && indent > 0
    ensures ParseChildren(Drop(PrintBelow(ms, indent) + tail, 1), indent) == Got(Trees(ms), Drop(tail, 1))
    decreases ms, 0
  {
    if ms == [] {
      EmptyBelow(indent, tail);
      ChildrenEnd(Drop(tail, 1), indent);
    } else {
      assert ms[0] in ms;
      var more := PrintBelow(ms[1..], indent) + tail;
      WeakerTail(tail, indent, indent + 2);
      BelowTail(ms, indent, tail, indent + 2);
      BelowTail(ms[1..], indent, tail, indent + 2);
      NodeRoundTrip(ms[0], indent, more);
      ChildrenRoundTrip(ms[1..], indent, tail);
      ReadChild(Print(ms[0], indent) + more, indent, ms, Drop(more, 1), Drop(tail, 1));
    }
  }

  lemma ChildrenEnd(s: string, indent: nat)
    requires IndentWidth(s) < indent
    ensures ParseChildren(s, indent) == Got([], s)
  {}

  lemma ReadChild(s: string, indent: nat, ms: seq<Markup>, s2: string, rest: string)
    requires ms != [] && ParseNode(s, indent) == Got(Tree(ms[0]), s2)
    requires ParseChildren(s2, indent) == Got(Trees(ms[1..]), rest)
    ensures ParseChildren(s, indent) == Got(Trees(ms), rest)
  {
    hide ParseNode, Tree;
  }

  // ----- whole templates -----

  predicate DashesAt(s: string, i: nat)
    requires 2 <= i < |s|
  {
    s[i] == '-' && s[i - 1] == '-' && s[i - 2] == '-'
  }

  /** The text has no `---` in it. */
  predicate NoDashes(s: string) {
    forall i | 2 <= i < |s| :: !DashesAt(s, i)
  }

  lemma {:induction false} FirstDashes(s: string, i: nat, k: nat)
    requires 2 <= i <= k < |s| && DashesAt(s, k) && forall j | i <= j < k :: !DashesAt(s, j)
    ensures AfterDashes(s, i) == k + 1
    decreases k - i
  {
    if i < k {
      assert !DashesAt(s, i);
      FirstDashes(s, i + 1, k);
    }
  }

  lemma {:induction false} NoFirstDashes(s: string, i: nat)
    requires 2 <= i && forall j | i <= j < |s| :: !DashesAt(s, j)
    ensures AfterDashes(s, i) == -1
    decreases |s| - i
  {
    if i < |s| {
      assert !DashesAt(s, i);
      NoFirstDashes(s, i + 1);
    }
  }

  /**
   Parsing undoes printing. Any metadata without an earlier `---`, a `---`, and any white space may come
   before the canonical text of a well-formed template; the parser gives back the template's tree and has
   read everything.
   */
  lemma TemplateRoundTrip(metadata: string, w: string, m: Markup)
    requires WellFormed(m) && NoDashes(metadata + "--") && forall i | 0 <= i < |w| :: IsSpace(w[i])
    ensures Parse(metadata + "---" + w + Print(m, 0)) == Got(Tree(m), "")
  {
    hide Print, ParseNode, NoDashes, SkipMetadata;
    var text := w + Print(m, 0);
    MetadataSkipped(metadata, text);
    LTrimSkips(w, Print(m, 0));
    RootRoundTrip(m);
    Assoc(metadata + "---", w, Print(m, 0));
    TrimmedTwice(text);
  }

  lemma TrimmedTwice(s: string)
    ensures LTrim(LTrim(s)) == LTrim(s)
  {}

  lemma MetadataSkipped(metadata: string, text: string)
    requires NoDashes(metadata + "--")
    ensures SkipMetadata(metadata + "---" + text) == LTrim(text)
  {
    var s := metadata + "---" + text;
    var k := |metadata| + 2;
    forall j | 2 <= j < k
      ensures !DashesAt(s, j)
    {
      assert !DashesAt(metadata + "--", j);
    }
    FirstDashes(s, 2, k);
    assert s[k + 1..] == text;
  }

  /** Without metadata the same holds of a template whose text has no `---`. */
  lemma PlainRoundTrip(m: Markup)
    requires WellFormed(m) && NoDashes(Print(m, 0))
    ensures Parse(Print(m, 0)) == Got(Tree(m), "")
  {
    NoFirstDashes(Print(m, 0), 2);
    RootRoundTrip(m);
  }

  lemma RootRoundTrip(m: Markup)
    requires WellFormed(m)
    ensures LTrim(Print(m, 0)) == Print(m, 0)
    ensures ParseNode(Print(m, 0), 0) == Got(Tree(m), "")
  {
    PrintNotEmpty(m, 0);
    assert Print(m, 0) == Body(m, 0);
    assert Print(m, 0) + "" == Print(m, 0);
    NodeRoundTrip(m, 0, "");
  }
}
