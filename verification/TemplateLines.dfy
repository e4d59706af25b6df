/**
 How much of a template's text its parser reads, told from the text line by line; and what it does not
 report. The parser is recursive and gives up a line without a word; the lines are walked by a loop.
 */
module TemplateLines {
  import opened Seqs
  import opened Strs
  import opened Template
  import opened TemplatePrinter

  predicate Blank(s: string) {
    forall i | 0 <= i < |s| :: IsSpace(s[i])
  }

  // ----- the lines, one after the other -----

  /** How a step ends: done or refused, with the text left over, or with an error report, or never. */
  datatype Ending = Done(rest: string) | Refused(rest: string) | Report | Endless

  function Outcome<T>(step: Step<T>): Ending {
    match step
    case Got(_, rest) => Done(rest)
    case NoMatch(rest) => Refused(rest)
    case Abort => Report
    case Hang => Endless
  }

  /** A line after its indentation: a text line, or the line of an element. */
  function ParseLine(s: string): (r: Step<Node<string>>)
    ensures r.Got? ==> |r.rest| < |s|
    ensures r.NoMatch? ==> |r.rest| <= |s|
  {
    if CharAt(s, 0) == '|' then ParseTextLine(s) else ParseHead(s)
  }

  /** An element's line opens the element for the lines below it. */
  function Opens(s: string): nat {
    if CharAt(s, 0) == '|' then 0 else 1
  }

  /** The line is indented by exactly two more than one of the d open elements. */
  predicate BelowOpen(s: string, d: nat) {
    IndentWidth(s) % 2 == 0 && 2 <= IndentWidth(s) <= 2 * d
  }

  /**
   Line after line below d open elements, until one is not below any. A line that is refused closes the
   element above it, and the walk goes on in the middle of that line.
   */
  function Walk(s: string, d: nat): Ending
    decreases |s|, d
  {
    if !BelowOpen(s, d) then Done(s)
    else
      var k, line := IndentWidth(s) / 2, SkipIndent(s);
      match ParseLine(line)
      case Got(_, rest) => Walk(rest, k + Opens(line))
      case NoMatch(rest) => Walk(rest, k - 1)
      case Abort => Report
      case Hang => Endless
  }

  /** The text after the metadata: the line of the root, and if it is an element the lines below it. */
  function WalkTemplate(s: string): Ending {
    match ParseLine(s)
    case Got(_, rest) => Walk(rest, Opens(s))
    case other => Outcome(other)
  }

  // ----- the recursive parser walks the lines -----

  /** How a child loop ends. */
  function Children(s: string, indent: nat): (r: Ending)
    ensures !r.Refused? && (r.Done? ==> |r.rest| <= |s|)
  {
    Outcome(ParseChildren(s, indent))
  }

  /** A step, and if it gets through the child loop at another indentation after it. */
  function ThenChildren(r: Ending, indent: nat): Ending {
    if r.Done? then Children(r.rest, indent) else r
  }

  /** A step, and if it gets through the lines below d open elements after it. */
  function ThenWalk(r: Ending, d: nat): Ending {
    if r.Done? then Walk(r.rest, d) else r
  }

  lemma NodeLine(s: string, indent: nat)
    requires IndentWidth(s) == indent
    ensures var line := SkipIndent(s);
            match ParseLine(line)
            case Got(_, rest) =>
              Outcome(ParseNode(s, indent)) == if CharAt(line, 0) == '|' then Done(rest) else Children(rest, indent + 2)
            case other => Outcome(ParseNode(s, indent)) == Outcome(other)
  {
    hide IndentWidth, SkipIndent, ParseHead, ParseTextLine, ParseChildren;
  }

  /** One turn of a child loop. */
  lemma ChildrenStep(s: string, indent: nat)
    ensures Children(s, indent)
            == match Outcome(ParseNode(s, indent))
               case Done(rest) => Children(rest, indent)
               case Refused(rest) => Done(rest)
               case other => other
  {
    hide ParseNode;
  }

  lemma ChildrenLine(s: string, indent: nat)
    requires IndentWidth(s) == indent
    ensures var line := SkipIndent(s);
            Children(s, indent)
            == match ParseLine(line)
               case Got(_, rest) =>
                 if CharAt(line, 0) == '|' then Children(rest, indent)
                 else ThenChildren(Children(rest, indent + 2), indent)
               case NoMatch(rest) => Done(rest)
               case other => Outcome(other)
  {
    NodeLine(s, indent);
    ChildrenStep(s, indent);
    hide *;
  }

  lemma WalkLine(s: string, d: nat)
    requires d > 0 && IndentWidth(s) == 2 * d
    ensures var line := SkipIndent(s);
            Walk(s, d)
            == match ParseLine(line)
               case Got(_, rest) => Walk(rest, d + Opens(line))
               case NoMatch(rest) => Walk(rest, d - 1)
               case other => Outcome(other)
  {
    hide ParseLine, IndentWidth, SkipIndent;
  }

  lemma OtherLevel(s: string, d: nat)
    requires d > 0 && IndentWidth(s) != 2 * d
    ensures Children(s, 2 * d) == Done(s) && Walk(s, d) == Walk(s, d - 1)
  {
    ChildrenStep(s, 2 * d);
    assert ParseNode(s, 2 * d) == NoMatch(s);
    hide ParseLine, IndentWidth, SkipIndent, ParseNode, Children;
    assert BelowOpen(s, d) == BelowOpen(s, d - 1);
  }

  /** The child loop of the innermost open element reads lines of the walk, and leaves the others to be walked. */
  lemma {:induction false} ChildrenIsWalk(s: string, d: nat)
    requires d > 0
    ensures Walk(s, d) == ThenWalk(Children(s, 2 * d), d - 1)
    decreases |s|
  {
    hide ParseLine, Children, Walk, IndentWidth, SkipIndent, CharAt;
    if IndentWidth(s) != 2 * d {
      OtherLevel(s, d);
    } else {
      var line := SkipIndent(s);
      var r := ParseLine(line);
      ChildrenLine(s, 2 * d);
      WalkLine(s, d);
      if r.Got? && CharAt(line, 0) == '|' {
        ChildrenIsWalk(r.rest, d);
      } else if r.Got? {
        var below := Children(r.rest, 2 * d + 2);
        ChildrenIsWalk(r.rest, d + 1);
        if below.Done? {
          ChildrenIsWalk(below.rest, d);
        }
      }
    }
  }

  lemma NoneOpen(r: Ending)
    ensures ThenWalk(r, 0) == r
  {}

  /** The text that parsing starts at. */
  function Source(s: string): (r: string)
    ensures IndentWidth(r) == 0 && SkipIndent(r) == r
  {
    LTrim(SkipMetadata(s))
  }

  /** Parsing a template ends as the walk over its lines does: with what is left, a refusal, a report, or never. */
  lemma ParseIsWalk(s: string)
    ensures Outcome(Parse(s)) == WalkTemplate(Source(s))
  {
    ParseSource(s);
    hide Parse, ParseLine, ParseNode, Children, Walk, IndentWidth, SkipIndent, Source, CharAt;
    var t := Source(s);
    var r := ParseLine(t);
    NodeLine(t, 0);
    if r.Got? && CharAt(t, 0) != '|' {
      ChildrenIsWalk(r.rest, 1);
      NoneOpen(Children(r.rest, 2));
    } else if r.Got? {
      NoneOpen(Done(r.rest));
    }
  }

  lemma ParseSource(s: string)
    ensures Parse(s) == ParseNode(Source(s), 0)
  {
    hide ParseNode, SkipMetadata, LTrim;
  }

  // ----- the tree is its lines -----

  /** A node without what is below it, and how deep it is in the tree. */
  datatype Entry = Entry(level: nat, node: Node<string>)

  function Alone(n: Node<string>): Node<string> {
    if n.Element? then n.(children := []) else n
  }

  /** The nodes of a tree from the top down, each before its children. */
  function Outline(n: Node<string>, level: nat): seq<Entry>
    decreases n, 0
  {
    [Entry(level, Alone(n))] + if n.Element? then OutlineAll(n.children, level + 1) else []
  }

  function OutlineAll(ns: seq<Node<string>>, level: nat): seq<Entry>
    decreases ns, 0
  {
    if ns == [] then [] else Outline(ns[0], level) + OutlineAll(ns[1..], level)
  }

  /** The nodes of the lines that the walk reads, as deep as they are indented; an inline text is below its line. */
  function LineEntries(s: string, d: nat): seq<Entry>
    decreases |s|, d
  {
    if !BelowOpen(s, d) then []
    else
      var k, line := IndentWidth(s) / 2, SkipIndent(s);
      match ParseLine(line)
      case Got(n, rest) => Outline(n, k) + LineEntries(rest, k + Opens(line))
      case NoMatch(rest) => LineEntries(rest, k - 1)
      case _ => []
  }

  lemma {:induction false} OutlineAppend(a: seq<Node<string>>, b: seq<Node<string>>, level: nat)
    ensures OutlineAll(a + b, level) == OutlineAll(a, level) + OutlineAll(b, level)
    decreases |a|
  {
    hide Outline;
    if a == [] {
      assert a + b == b;
    } else {
      assert (a + b)[1..] == a[1..] + b;
      OutlineAppend(a[1..], b, level);
      Assoc(Outline(a[0], level), OutlineAll(a[1..], level), OutlineAll(b, level));
    }
  }

  /** Children that are added to an element come after all that it had. */
  lemma OutlineMore(n: Node<string>, more: seq<Node<string>>, level: nat)
    requires n.Element?
    ensures Outline(n.(children := n.children + more), level) == Outline(n, level) + OutlineAll(more, level + 1)
  {
    hide OutlineAll;
    OutlineAppend(n.children, more, level + 1);
    Assoc([Entry(level, Alone(n))], OutlineAll(n.children, level + 1), OutlineAll(more, level + 1));
  }

  /** A child loop that gets through, in terms of the line it starts with. */
  lemma ChildrenTrees(s: string, indent: nat)
    requires IndentWidth(s) == indent && ParseChildren(s, indent).Got?
    ensures var line, r := SkipIndent(s), ParseChildren(s, indent);
            match ParseLine(line)
            case Got(n, rest) =>
              if CharAt(line, 0) == '|' then
                var more := ParseChildren(rest, indent);
                more.Got? && r == Got([n] + more.value, more.rest)
              else
                var below := ParseChildren(rest, indent + 2);
                && n.Element? && below.Got?
                && var more := ParseChildren(below.rest, indent);
                   more.Got? && r == Got([n.(children := n.children + below.value)] + more.value, more.rest)
            case NoMatch(rest) => r == Got([], rest)
            case _ => false
  {
    NodeLine(s, indent);
    if ParseNode(s, indent).Got? {
      NodeTree(s, indent);
    }
    hide ParseNode, ParseLine, IndentWidth, SkipIndent;
  }

  lemma NodeTree(s: string, indent: nat)
    requires IndentWidth(s) == indent && ParseNode(s, indent).Got?
    ensures var line, r := SkipIndent(s), ParseNode(s, indent);
            && ParseLine(line).Got?
            && var n, rest := ParseLine(line).value, ParseLine(line).rest;
               if CharAt(line, 0) == '|' then r == Got(n, rest)
               else
                 && n.Element? && ParseChildren(rest, indent + 2).Got?
                 && r.value == n.(children := n.children + ParseChildren(rest, indent + 2).value)
                 && r.rest == ParseChildren(rest, indent + 2).rest
  {
    hide ParseHead, ParseTextLine, ParseChildren, IndentWidth, SkipIndent;
  }

  lemma EntriesLine(s: string, d: nat)
    requires d > 0 && IndentWidth(s) == 2 * d
    ensures var line := SkipIndent(s);
            LineEntries(s, d)
            == match ParseLine(line)
               case Got(n, rest) => Outline(n, d) + LineEntries(rest, d + Opens(line))
               case NoMatch(rest) => LineEntries(rest, d - 1)
               case _ => []
  {
    hide ParseLine, IndentWidth, SkipIndent, Outline;
  }

  lemma EntriesOther(s: string, d: nat)
    requires d > 0 && IndentWidth(s) != 2 * d
    ensures LineEntries(s, d) == LineEntries(s, d - 1) && ParseChildren(s, 2 * d) == Got([], s)
  {
    assert BelowOpen(s, d) == BelowOpen(s, d - 1);
    hide ParseLine, IndentWidth, SkipIndent, Outline, ParseHead, ParseTextLine;
  }

  /** The trees of a child loop are the entries of its lines, and the other entries are those of the lines left. */
  lemma {:induction false} ChildrenEntries(s: string, d: nat)
    requires d > 0 && ParseChildren(s, 2 * d).Got?
    ensures var r := ParseChildren(s, 2 * d); LineEntries(s, d) == OutlineAll(r.value, d) + LineEntries(r.rest, d - 1)
    decreases |s|
  {
    hide ParseLine, ParseChildren, LineEntries, OutlineAll, Outline, IndentWidth, SkipIndent, CharAt;
    if IndentWidth(s) != 2 * d {
      EntriesOther(s, d);
      NoTrees(d);
    } else {
      var line, v := SkipIndent(s), ParseChildren(s, 2 * d).value;
      var r := ParseLine(line);
      EntriesLine(s, d);
      ChildrenTrees(s, 2 * d);
      if !r.Got? {
        NoTrees(d);
      } else if CharAt(line, 0) == '|' {
        var more := ParseChildren(r.rest, 2 * d);
        ChildrenEntries(r.rest, d);
        FirstTree(r.value, more.value, d);
        Assoc(Outline(r.value, d), OutlineAll(more.value, d), LineEntries(more.rest, d - 1));
      } else {
        var below := ParseChildren(r.rest, 2 * d + 2);
        var more := ParseChildren(below.rest, 2 * d);
        ChildrenEntries(r.rest, d + 1);
        ChildrenEntries(below.rest, d);
        OutlineMore(r.value, below.value, d);
        FirstTree(r.value.(children := r.value.children + below.value), more.value, d);
        Assoc4(Outline(r.value, d), OutlineAll(below.value, d + 1), OutlineAll(more.value, d),
               LineEntries(more.rest, d - 1));
      }
    }
  }

  lemma Assoc4<T>(a: seq<T>, b: seq<T>, c: seq<T>, d: seq<T>)
    ensures a + (b + (c + d)) == a + b + c + d
  {}

  /**
   The tree has the nodes of the lines that are read, in their order and as deep as they are indented, and
   no others.
   */
  lemma TreeIsItsLines(s: string)
    requires Parse(s).Got?
    ensures var t := Source(s);
            && ParseLine(t).Got?
            && Outline(Parse(s).value, 0) == Outline(ParseLine(t).value, 0) + LineEntries(ParseLine(t).rest, Opens(t))
  {
    hide ParseLine, ParseChildren, ParseNode, LineEntries, OutlineAll, Outline, IndentWidth, SkipIndent, CharAt, Parse,
        Source;
    var t := Source(s);
    ParseSource(s);
    NodeTree(t, 0);
    var n, rest := ParseLine(t).value, ParseLine(t).rest;
    if CharAt(t, 0) == '|' {
      NoEntries(rest);
      assert Outline(n, 0) + [] == Outline(n, 0);
    } else {
      var below := ParseChildren(rest, 2);
      ChildrenEntries(rest, 1);
      NoEntries(below.rest);
      OutlineMore(n, below.value, 0);
      assert OutlineAll(below.value, 1) + [] == OutlineAll(below.value, 1);
    }
  }

  lemma NoEntries(s: string)
    ensures LineEntries(s, 0) == []
  {}

  lemma NoTrees(level: nat)
    ensures OutlineAll([], level) == []
  {}

  lemma FirstTree(n: Node<string>, ns: seq<Node<string>>, level: nat)
    ensures OutlineAll([n] + ns, level) == Outline(n, level) + OutlineAll(ns, level)
  {
    assert ([n] + ns)[1..] == ns;
    hide Outline;
  }

  // ----- texts that are read to their end -----

  /** Every line below d open elements is below one of them when the walk comes to it, and nothing is left. */
  predicate LinesRead(s: string, d: nat)
    decreases |s|, d
  {
    if !BelowOpen(s, d) then Blank(s)
    else
      var k, line := IndentWidth(s) / 2, SkipIndent(s);
      match ParseLine(line)
      case Got(_, rest) => LinesRead(rest, k + Opens(line))
      case NoMatch(rest) => LinesRead(rest, k - 1)
      case Abort => false
      case Hang => false
  }

  lemma {:induction false} LinesReadIsWalk(s: string, d: nat)
    ensures LinesRead(s, d) <==> Walk(s, d).Done? && Blank(Walk(s, d).rest)
    decreases |s|, d
  {
    hide ParseLine, Blank;
    if BelowOpen(s, d) {
      var k, line := IndentWidth(s) / 2, SkipIndent(s);
      match ParseLine(line)
      case Got(_, rest) => LinesReadIsWalk(rest, k + Opens(line));
      case NoMatch(rest) => LinesReadIsWalk(rest, k - 1);
      case _ =>
    }
  }

  /**
   A template's text is read to its end exactly when its first line parses and line after line is indented
   by two more than an element that is open by then, or follows a line that was refused.
   */
  lemma ReadToEndExactly(s: string)
    ensures var r, t := Parse(s), Source(s);
            r.Got? && Blank(r.rest) <==> ParseLine(t).Got? && LinesRead(ParseLine(t).rest, Opens(t))
  {
    ParseIsWalk(s);
    var t := Source(s);
    hide SkipMetadata, ParseLine, ParseNode, LTrim, Parse, Source, Walk, LinesRead, Blank;
    if ParseLine(t).Got? {
      LinesReadIsWalk(ParseLine(t).rest, Opens(t));
    }
  }

  // ----- attributes that are lost -----

  /** An attribute name as it is written in a list, and whether a value is given with it. */
  datatype Written = Written(name: string, valued: bool)

  /** The names written in a list, up to the first that has no value. */
  function WrittenNames(s: string): seq<Written>
    decreases |s|
  {
    var s1 := LTrim(s);
    var n := RunLength(s1, AttrChars, true);
    if CharAt(s1, 0) == ')' || n == 0 then []
    else if CharAt(LTrim(s1[n..]), 0) != '=' then [Written(s1[..n], false)]
    else
      [Written(s1[..n], true)] + if ParseAttribute(s).Got? then WrittenNames(ParseAttribute(s).rest) else []
  }

  predicate AllValued(ws: seq<Written>) {
    forall w | w in ws :: w.valued
  }

  function NamesOf(ws: seq<Written>): (r: seq<string>)
    ensures |r| == |ws|
  {
    if ws == [] then [] else [ws[0].name] + NamesOf(ws[1..])
  }

  function AttributeNames(attrs: seq<Attr<string>>): (r: seq<string>)
    ensures |r| == |attrs|
  {
    if attrs == [] then [] else [attrs[0].name] + AttributeNames(attrs[1..])
  }

  /** The names before the first one without a value. */
  function Kept(ws: seq<Written>): (r: seq<Written>)
    ensures |r| <= |ws| && (|r| == |ws| <==> AllValued(ws)) && (AllValued(ws) ==> r == ws)
  {
    if ws == [] || !ws[0].valued then []
    else
      assert ws == [ws[0]] + ws[1..];
      [ws[0]] + Kept(ws[1..])
  }

  lemma ValueNamed(name: string, s: string)
    ensures ParseValue(name, s).Got? ==> ParseValue(name, s).value.name == name
    ensures ParseValue(name, s).NoMatch? ==> ParseValue(name, s).rest == ""
  {
    hide ParseContents, SplitPoint, Before, After;
  }

  /** One attribute of a list, and what the list's text says of it. */
  lemma AttributeWritten(s: string)
    ensures var r, ws := ParseAttribute(s), WrittenNames(s);
            && (r.Got? ==> ws == [Written(r.value.name, true)] + WrittenNames(r.rest))
            && (r.NoMatch? && CharAt(r.rest, 0) == ')' ==> Kept(ws) == [])
  {
    hide ParseValue, LTrim, RunLength, Drop, CharAt, WrittenNames, ParseAttribute, Kept;
    var s1 := LTrim(s);
    var n := RunLength(s1, AttrChars, true);
    NamesStep(s);
    var s2 := LTrim(s1[n..]);
    if CharAt(s1, 0) == ')' || n == 0 {
      NothingKept([]);
    } else if CharAt(s2, 0) != '=' {
      NothingKept([Written(s1[..n], false)]);
    } else {
      ValueNamed(s1[..n], LTrim(Drop(s2, 1)));
      EmptyChar();
    }
  }

  /** The first attribute of a list, and the names that the list's text goes on with. */
  lemma NamesStep(s: string)
    ensures var s1 := LTrim(s);
            var n := RunLength(s1, AttrChars, true);
            if CharAt(s1, 0) == ')' || n == 0 then ParseAttribute(s) == NoMatch(s1) && WrittenNames(s) == []
            else
              var s2, name := LTrim(s1[n..]), s1[..n];
              if CharAt(s2, 0) != '=' then ParseAttribute(s) == NoMatch(s2) && WrittenNames(s) == [Written(name, false)]
              else
                var r := ParseAttribute(s);
                && r == ParseValue(name, LTrim(Drop(s2, 1)))
                && WrittenNames(s) == [Written(name, true)] + if r.Got? then WrittenNames(r.rest) else []
  {
    hide ParseValue, LTrim, RunLength, Drop, CharAt;
  }

  lemma NothingKept(ws: seq<Written>)
    requires ws == [] || !ws[0].valued
    ensures Kept(ws) == []
  {}

  lemma EmptyChar()
    ensures CharAt("", 0) == '\0'
  {}

  /** The attributes of a list that ends in a parenthesis are those up to the first without a value. */
  lemma {:induction false} ParsedNames(s: string)
    requires ParseAttributes(s).Got? && CharAt(ParseAttributes(s).rest, 0) == ')'
    ensures AttributeNames(ParseAttributes(s).value) == NamesOf(Kept(WrittenNames(s)))
    decreases |s|
  {
    hide ParseAttribute, WrittenNames, CharAt;
    var first := ParseAttribute(s);
    AttributeWritten(s);
    if first.Got? {
      ParsedNames(first.rest);
      KeptFirst(first.value.name, WrittenNames(first.rest));
      var others := ParseAttributes(first.rest).value;
      assert ([first.value] + others)[1..] == others;
    }
  }

  lemma KeptFirst(name: string, ws: seq<Written>)
    ensures NamesOf(Kept([Written(name, true)] + ws)) == [name] + NamesOf(Kept(ws))
  {
    assert ([Written(name, true)] + ws)[1..] == ws;
    assert ([Written(name, true)] + Kept(ws))[1..] == Kept(ws);
  }

  /** A list in parentheses keeps every attribute written in it exactly when each of them has a value. */
  lemma AttributesKeptExactly(s: string)
    requires s != "" && s[0] == '(' && ParseParens(s).Got?
    ensures AttributeNames(ParseParens(s).value) == NamesOf(Kept(WrittenNames(s[1..])))
    ensures AttributeNames(ParseParens(s).value) == NamesOf(WrittenNames(s[1..])) <==> AllValued(WrittenNames(s[1..]))
  {
    ParsedNames(s[1..]);
    hide ParseAttributes, WrittenNames, AllValued, AttributeNames, NamesOf;
  }

  lemma BareName(name: string, after: string)
    requires IsToken(name, AttrChars) && after != "" && after[0] == ')'
    ensures ParseAttribute(name + after) == NoMatch(after)
    ensures WrittenNames(name + after) == [Written(name, false)]
  {
    NameStart(name, after);
    TokenAt(name, after, AttrChars);
    LTrimKeeps(name + after);
    LTrimKeeps(after);
    hide *;
    NameWithoutValue(name + after, |name|, name, after);
  }

  lemma NameStart(name: string, after: string)
    requires IsToken(name, AttrChars) && after != "" && after[0] == ')'
    ensures name != "" && !IsSpace((name + after)[0]) && CharAt(name + after, 0) != ')' && !IsSpace(after[0])
    ensures CharAt(after, 0) != '=' && Ends(after, AttrChars)
  {
    assert ValidChar(AttrChars, name[0], true);
    assert (name + after)[0] == name[0];
  }

  lemma NameWithoutValue(s: string, n: nat, name: string, after: string)
    requires LTrim(s) == s && 0 < n <= |s| && RunLength(s, AttrChars, true) == n && CharAt(s, 0) != ')'
    requires s[..n] == name && s[n..] == after && LTrim(after) == after && CharAt(after, 0) != '='
    ensures ParseAttribute(s) == NoMatch(after) && WrittenNames(s) == [Written(name, false)]
  {
    hide LTrim, RunLength, ParseValue, CharAt;
  }

  /** A name without a value that is all of a list vanishes. */
  lemma BareNameVanishes(name: string, rest: string)
    requires IsToken(name, AttrChars)
    ensures ParseParens(['('] + (name + ([')'] + rest))) == Got([], rest)
    ensures WrittenNames(name + ([')'] + rest)) == [Written(name, false)]
  {
    FirstChar('(', name + ([')'] + rest));
    FirstChar(')', rest);
    BareName(name, [')'] + rest);
    hide ParseAttribute, WrittenNames, IsToken;
  }

  /** So `input(disabled)` is an input that is not disabled. */
  lemma DisabledIsLost()
    ensures ParseHead("input" + (['('] + ("disabled" + ([')'] + "")))) == Got(Element("input", [], [], true), "")
  {
    hide *;
    var list := ['('] + ("disabled" + ([')'] + ""));
    InputTokens();
    BareNameVanishes("disabled", "");
    Parenthesis("disabled" + ([')'] + ""));
    TokenAt("input", list, TagChars);
    NothingInline();
    HeadParts("input" + list, |"input"|, "input", list, [], "");
  }

  lemma Parenthesis(t: string)
    ensures Ends(['('] + t, TagChars) && ParseMarks(['('] + t, Marks([], [])) == Got(Marks([], []), ['('] + t)
  {}

  lemma InputTokens()
    ensures IsToken("input", TagChars) && IsToken("disabled", AttrChars) && "input" in VOID_ELEMENTS
    ensures MarkAttributes(Marks([], [])) + [] == []
  {
    ValidToken("input", TagChars);
    ValidToken("disabled", AttrChars);
    InputIsVoid();
    hide RunLength, IsToken, VOID_ELEMENTS;
  }

  lemma InputIsVoid()
    ensures "input" in VOID_ELEMENTS
  {
    assert VOID_ELEMENTS[7] == "input";
  }

  lemma NothingInline()
    ensures ParseInline("") == Got([], "")
  {}

  /** A line without marks, from its parts. */
  lemma HeadParts(s: string, n: nat, tag: string, list: string, attrs: seq<Attr<string>>, rest: string)
    requires 0 < n <= |s| && RunLength(s, TagChars, true) == n && s[..n] == tag && s[n..] == list
    requires ParseMarks(list, Marks([], [])) == Got(Marks([], []), list) && ParseParens(list) == Got(attrs, rest)
    requires ParseInline(rest) == Got([], "") && MarkAttributes(Marks([], [])) + attrs == attrs
    ensures ParseHead(s) == Got(Element(tag, attrs, [], tag in VOID_ELEMENTS), "")
  {
    hide ParseMarks, ParseParens, ParseInline, RunLength, MarkAttributes;
  }

  // ----- texts of which nothing is lost -----

  /** An attribute is written in the line, but has no value. */
  predicate LosesName(s: string) {
    CharAt(s, 0) != '|' &&
    var marks := ParseMarks(s[RunLength(s, TagChars, true)..], Marks([], []));
    marks.Got? && CharAt(marks.rest, 0) == '(' && !AllValued(WrittenNames(Drop(marks.rest, 1)))
  }

  /** A line, refused when it would lose an attribute. */
  function WholeLine(s: string): (r: Step<Node<string>>)
    ensures r.Got? ==> |r.rest| < |s| && (CharAt(s, 0) != '|' ==> r.value.Element?)
  {
    var r := ParseLine(s);
    if r.Got? && LosesName(s) then NoMatch(r.rest) else r
  }

  lemma WholeIsLine(s: string)
    ensures WholeLine(s).Got? ==> WholeLine(s) == ParseLine(s)
  {
    hide ParseLine, LosesName;
  }

  /** Every line is indented by exactly two more than an open element, and is a whole line itself. */
  predicate EveryLine(s: string, d: nat)
    decreases |s|
  {
    Blank(s) ||
    (BelowOpen(s, d) &&
     var k, line := IndentWidth(s) / 2, SkipIndent(s);
     match WholeLine(line)
     case Got(_, rest) => EveryLine(rest, k + Opens(line))
     case _ => false)
  }

  /** The parser as it would be if a line that is not whole were refused with the template. */
  function StrictNode(s: string, indent: nat): (r: Step<Node<string>>)
    ensures r.Got? ==> |r.rest| < |s|
    decreases |s|, 1
  {
    if IndentWidth(s) != indent then NoMatch(s)
    else
      var line := SkipIndent(s);
      match WholeLine(line)
      case Got(node, below) =>
        if CharAt(line, 0) == '|' then Got(node, below)
        else
          (match StrictChildren(below, indent + 2)
           case Got(children, rest) => Got(node.(children := node.children + children), rest)
           case NoMatch(rest) => NoMatch(rest)
           case Abort => Abort
           case Hang => Hang)
      case other => other
  }

  /** Children end where the text ends or goes on at another indentation. */
  function StrictChildren(s: string, indent: nat): (r: Step<seq<Node<string>>>)
    ensures r.Got? ==> |r.rest| <= |s|
    decreases |s|, 2
  {
    if IndentWidth(s) != indent then Got([], s)
    else if Blank(s) then Got([], SkipIndent(s))
    else
      match StrictNode(s, indent)
      case Got(n, rest) =>
        (match StrictChildren(rest, indent)
         case Got(others, after) => Got([n] + others, after)
         case other => other)
      case NoMatch(rest) => NoMatch(rest)
      case Abort => Abort
      case Hang => Hang
  }

  /** And nothing but white space may be left. */
  function StrictParse(s: string): Step<Node<string>> {
    var r := StrictNode(Source(s), 0);
    if r.Got? && !Blank(r.rest) then NoMatch(r.rest) else r
  }

  /** Where the strict parser succeeds, the parser gives the same. */
  lemma {:induction false} StrictNodeAgrees(s: string, indent: nat)
    requires StrictNode(s, indent).Got?
    ensures ParseNode(s, indent) == StrictNode(s, indent)
    decreases |s|, 1
  {
    hide IndentWidth, SkipIndent, ParseHead, ParseTextLine, ParseChildren, StrictChildren, LosesName;
    WholeIsLine(SkipIndent(s));
    var line := SkipIndent(s);
    if CharAt(line, 0) != '|' {
      StrictChildrenAgree(WholeLine(line).rest, indent + 2);
    }
  }

  lemma {:induction false} StrictChildrenAgree(s: string, indent: nat)
    requires StrictChildren(s, indent).Got?
    ensures ParseChildren(s, indent) == StrictChildren(s, indent)
    decreases |s|, 2
  {
    if IndentWidth(s) != indent {
    } else if Blank(s) {
      BlankLine(s, indent);
    } else {
      StrictNodeAgrees(s, indent);
      StrictChildrenAgree(StrictNode(s, indent).rest, indent);
      hide IndentWidth, SkipIndent, ParseNode, StrictNode;
    }
  }

  lemma BlankLine(s: string, indent: nat)
    requires Blank(s) && IndentWidth(s) == indent
    ensures ParseNode(s, indent) == NoMatch(SkipIndent(s)) && Blank(SkipIndent(s))
  {
    BlankSkipped(s);
  }

  lemma {:induction false} BlankSkipped(s: string)
    requires Blank(s)
    ensures Blank(SkipIndent(s)) && (SkipIndent(s) == "" || SkipIndent(s)[0] == '\n')
  {
    if s != "" && (s[0] == ' ' || s[0] == '\t') {
      BlankSkipped(s[1..]);
    }
  }

  /** How a strict child loop ends. */
  function Strictly(s: string, indent: nat): (r: Ending)
    ensures r.Done? ==> |r.rest| <= |s|
  {
    Outcome(StrictChildren(s, indent))
  }

  /** A step, and if it gets through the child loop at another indentation after it. */
  function ThenStrictly(r: Ending, indent: nat): Ending {
    if r.Done? then Strictly(r.rest, indent) else r
  }

  predicate ThenEveryLine(r: Ending, d: nat) {
    r.Done? && EveryLine(r.rest, d)
  }

  lemma StrictNodeLine(s: string, indent: nat)
    requires IndentWidth(s) == indent
    ensures var line := SkipIndent(s);
            Outcome(StrictNode(s, indent))
            == match WholeLine(line)
               case Got(_, rest) => if CharAt(line, 0) == '|' then Done(rest) else Strictly(rest, indent + 2)
               case other => Outcome(other)
  {
    hide IndentWidth, SkipIndent, ParseHead, ParseTextLine, StrictChildren;
  }

  lemma StrictLine(s: string, indent: nat)
    requires IndentWidth(s) == indent && !Blank(s)
    ensures var line := SkipIndent(s);
            Strictly(s, indent)
            == match WholeLine(line)
               case Got(_, rest) =>
                 if CharAt(line, 0) == '|' then Strictly(rest, indent)
                 else ThenStrictly(Strictly(rest, indent + 2), indent)
               case other => Outcome(other)
  {
    StrictNodeLine(s, indent);
    StrictStep(s, indent);
    hide *;
  }

  lemma StrictStep(s: string, indent: nat)
    requires IndentWidth(s) == indent && !Blank(s)
    ensures Strictly(s, indent) == ThenStrictly(Outcome(StrictNode(s, indent)), indent)
  {
    hide StrictNode, IndentWidth, SkipIndent, Blank;
  }

  lemma EveryLineOther(s: string, d: nat)
    requires d > 0 && (Blank(s) || IndentWidth(s) != 2 * d)
    ensures EveryLine(s, d) <==> ThenEveryLine(Strictly(s, 2 * d), d - 1)
  {
    hide WholeLine, ParseLine, IndentWidth, SkipIndent, ParseHead, ParseTextLine;
    if Blank(s) { BlankSkipped(s); }
    assert BelowOpen(s, d) == BelowOpen(s, d - 1) || Blank(s);
  }

  lemma EveryLineHere(s: string, d: nat)
    requires d > 0 && IndentWidth(s) == 2 * d && !Blank(s)
    ensures var line, r := SkipIndent(s), WholeLine(SkipIndent(s));
            EveryLine(s, d) <==> r.Got? && EveryLine(r.rest, d + Opens(line))
  {
    hide WholeLine, ParseLine, IndentWidth, SkipIndent, Blank;
  }

  lemma {:induction false} StrictIsEveryLine(s: string, d: nat)
    requires d > 0
    ensures EveryLine(s, d) <==> ThenEveryLine(Strictly(s, 2 * d), d - 1)
    decreases |s|
  {
    hide WholeLine, ParseLine, Strictly, EveryLine, IndentWidth, SkipIndent, CharAt, Blank;
    if Blank(s) || IndentWidth(s) != 2 * d {
      EveryLineOther(s, d);
    } else {
      var line := SkipIndent(s);
      var r := WholeLine(line);
      StrictLine(s, 2 * d);
      EveryLineHere(s, d);
      if r.Got? && CharAt(line, 0) == '|' {
        StrictIsEveryLine(r.rest, d);
      } else if r.Got? {
        var below := Strictly(r.rest, 2 * d + 2);
        StrictIsEveryLine(r.rest, d + 1);
        if below.Done? {
          StrictIsEveryLine(below.rest, d);
        }
      }
    }
  }

  /**
   No line and no attribute after the metadata is lost exactly when every line is indented by two more than
   an open element, parses itself and has no attribute without a value: then, and only then, a parser that
   refuses such templates succeeds, and it gives the same.
   */
  lemma KeptExactly(s: string)
    ensures var t := Source(s);
            StrictParse(s).Got? <==> WholeLine(t).Got? && EveryLine(WholeLine(t).rest, Opens(t))
    ensures StrictParse(s).Got? ==> Parse(s) == StrictParse(s)
  {
    var t := Source(s);
    StrictRoot(t);
    if StrictNode(t, 0).Got? {
      StrictNodeAgrees(t, 0);
    }
    hide SkipMetadata, WholeLine, ParseNode, StrictNode, EveryLine, LTrim, Blank;
  }

  lemma OnlyBlank(s: string)
    ensures EveryLine(s, 0) <==> Blank(s)
  {}

  lemma StrictRoot(t: string)
    requires IndentWidth(t) == 0
    ensures var line, r := SkipIndent(t), StrictNode(t, 0);
            r.Got? && Blank(r.rest) <==> WholeLine(line).Got? && EveryLine(WholeLine(line).rest, Opens(line))
  {
    hide WholeLine, ParseLine, StrictNode, Strictly, EveryLine, IndentWidth, SkipIndent, Blank, CharAt;
    var line := SkipIndent(t);
    var r := WholeLine(line);
    StrictNodeLine(t, 0);
    if r.Got? && CharAt(line, 0) != '|' {
      StrictIsEveryLine(r.rest, 1);
      if Strictly(r.rest, 2).Done? { OnlyBlank(Strictly(r.rest, 2).rest); }
    } else if r.Got? {
      OnlyBlank(r.rest);
    }
  }

  // ----- lines that are lost -----

  /** Here `b#` is no element's line: the mark has no name. */
  const LOSING: string := "a\n  b#"

  predicate StartsLine(s: string) {
    s != "" && !IsSpace(s[0]) && CharAt(s, 0) != '|'
  }

  lemma MarkWithoutName(tail: string)
    requires tail == "" || tail[0] == '\n'
    ensures ParseHead("b#" + tail) == NoMatch(tail) && StartsLine("b#" + tail)
  {
    var marks := "#" + tail;
    FirstChar('#', tail);
    TokenAt("b", marks, TagChars) by { assert IsToken("b", TagChars); }
    Assoc("b", "#", tail);
    assert "b#" == "b" + "#";
    assert RunLength(tail, TagChars, true) == 0;
    assert ParseMarks(marks, Marks([], [])) == NoMatch(tail);
    hide ParseMarks, ParseParens, ParseInline, RunLength;
  }

  lemma LoneHead(tail: string)
    ensures ParseHead("a\n" + tail) == Got(Element("a", [], [], false), tail) && StartsLine("a\n" + tail)
  {
    var s, line := "a\n" + tail, "\n" + tail;
    LoneText(tail);
    TokenAt("a", line, TagChars) by { assert IsToken("a", TagChars); }
    NoMarks(line);
    NoInline(tail);
    NotVoid();
    hide *;
    HeadAt(s, 1, "a", line, tail);
  }

  lemma LoneText(tail: string)
    ensures "a\n" + tail == "a" + ("\n" + tail) && StartsLine("a\n" + tail)
    ensures "\n" + tail != "" && ("\n" + tail)[0] == '\n'
  {
    assert ("a\n" + tail)[0] == 'a';
  }

  lemma NoMarks(line: string)
    requires line != "" && line[0] == '\n'
    ensures ParseMarks(line, Marks([], [])) == Got(Marks([], []), line) && ParseParens(line) == Got([], line)
  {}

  lemma HeadAt(s: string, n: nat, tag: string, line: string, tail: string)
    requires 0 < n <= |s| && RunLength(s, TagChars, true) == n && s[..n] == tag && s[n..] == line
    requires ParseMarks(line, Marks([], [])) == Got(Marks([], []), line) && ParseParens(line) == Got([], line)
    requires ParseInline(line) == Got([], tail) && tag !in VOID_ELEMENTS && MarkAttributes(Marks([], [])) + [] == []
    ensures ParseHead(s) == Got(Element(tag, [], [], false), tail)
  {
    hide ParseMarks, ParseParens, ParseInline, RunLength, MarkAttributes;
  }

  lemma NoInline(tail: string)
    ensures ParseInline("\n" + tail) == Got([], tail)
  {
    assert "" + ['\n'] + tail == "\n" + tail;
    SplitPointIn("", '\n', tail);
  }

  lemma NotVoid()
    ensures "a" !in VOID_ELEMENTS && MarkAttributes(Marks([], [])) + [] == []
  {}

  lemma Indented(t: string)
    requires StartsLine(t)
    ensures CharAt(t, 0) != '|' && IndentWidth("  " + t) == 2 && SkipIndent("  " + t) == t
    ensures IndentWidth(t) == 0 && SkipIndent(t) == t && LTrim(t) == t
  {
    assert Spaces(2) == "  ";
    IndentOf(2, t);
  }

  lemma RefusedLine(s: string, indent: nat, line: string, rest: string)
    requires IndentWidth(s) == indent && SkipIndent(s) == line && CharAt(line, 0) != '|'
    requires ParseHead(line) == NoMatch(rest)
    ensures ParseNode(s, indent) == NoMatch(rest)
  {
    hide IndentWidth, SkipIndent, ParseHead;
  }

  lemma LoneElement(s: string, indent: nat, line: string, head: Node<string>, below: string, rest: string)
    requires IndentWidth(s) == indent && SkipIndent(s) == line && CharAt(line, 0) != '|'
    requires ParseHead(line) == Got(head, below) && head.Element? && ParseNode(below, indent + 2) == NoMatch(rest)
    ensures ParseNode(s, indent) == Got(head, rest)
  {
    hide IndentWidth, SkipIndent, ParseHead;
    assert head.children + [] == head.children;
    assert ParseChildren(below, indent + 2) == Got([], rest);
    hide ParseChildren;
  }

  lemma LosingNode(tail: string)
    requires tail == "" || tail[0] == '\n'
    ensures ParseNode(LOSING + tail, 0) == Got(Element("a", [], [], false), tail)
  {
    hide *;
    var s, below, bad := LosingParts(tail);
    RefusedLine(below, 2, bad, tail);
    LoneElement(s, 0, s, Element("a", [], [], false), below, tail);
  }

  /** The text, what is below its first line, and that without the indentation. */
  lemma LosingParts(tail: string) returns (s: string, below: string, bad: string)
    requires tail == "" || tail[0] == '\n'
    ensures s == LOSING + tail && StartsLine(s) && IndentWidth(s) == 0 && SkipIndent(s) == s && CharAt(s, 0) != '|'
    ensures ParseHead(s) == Got(Element("a", [], [], false), below)
    ensures StartsLine(bad) && IndentWidth(below) == 2 && SkipIndent(below) == bad && CharAt(bad, 0) != '|'
    ensures !Blank(below)
    ensures ParseHead(bad) == NoMatch(tail)
  {
    hide *;
    bad := "b#" + tail;
    below := "  " + bad;
    s := "a\n" + below;
    LoneHead(below);
    MarkWithoutName(tail);
    Indented(bad);
    Indented(s);
    NotBlank(bad);
    LosingText(tail);
  }

  lemma LosingText(tail: string)
    ensures LOSING + tail == "a\n" + ("  " + ("b#" + tail))
  {}

  lemma NotBlank(t: string)
    requires StartsLine(t)
    ensures !Blank("  " + t)
  {
    assert ("  " + t)[2] == t[0];
  }

  lemma NotEveryLine(s: string, line: string, rest: string)
    requires IndentWidth(s) == 2 && SkipIndent(s) == line && StartsLine(line) && ParseHead(line) == NoMatch(rest)
    requires !Blank(s)
    ensures !EveryLine(s, 1)
  {
    hide IndentWidth, SkipIndent, ParseHead, Blank, LosesName;
  }

  lemma NoMetadata(s: string)
    requires NoDashes(s) && StartsLine(s)
    ensures Source(s) == s && Parse(s) == ParseNode(s, 0)
  {
    NoFirstDashes(s, 2);
    hide ParseNode;
  }

  /**
   The line `b#` is given up with everything after it, and what has been read counts as the template. With
   nothing after it the text is even read to its end, and still the line is lost.
   */
  lemma ErrorsBelowAreSilent(tail: string)
    requires (tail == "" || tail[0] == '\n') && NoDashes(LOSING + tail)
    ensures Parse(LOSING + tail) == Got(Element("a", [], [], false), tail)
    ensures !StrictParse(LOSING + tail).Got?
  {
    hide *;
    var s, below, bad := LosingParts(tail);
    LosingNode(tail);
    NoMetadata(s);
    NotEveryLine(below, bad, tail);
    KeptExactly(s);
    HeadLine(s);
    WholeIsLine(s);
  }

  lemma HeadLine(s: string)
    requires StartsLine(s)
    ensures ParseLine(s) == ParseHead(s) && Opens(s) == 1
  {
    hide ParseHead;
  }

  // ----- text before the dashes -----

  lemma {:induction false} NoneFound(s: string, i: nat)
    requires 2 <= i && AfterDashes(s, i) == -1
    ensures forall j | i <= j < |s| :: !DashesAt(s, j)
    decreases |s| - i
  {
    if i < |s| {
      NoneFound(s, i + 1);
    }
  }

  /** The text is parsed from its start exactly when it has no three dashes. */
  lemma MetadataExactly(s: string)
    ensures SkipMetadata(s) == s <==> NoDashes(s)
  {
    if NoDashes(s) {
      NoFirstDashes(s, 2);
    } else if AfterDashes(s, 2) == -1 {
      NoneFound(s, 2);
    }
  }

  /** Otherwise a template's own lines are taken for metadata: of `p a---b` only `b` is left. */
  lemma LinesBeforeDashes(before: string)
    requires NoDashes(before + "--")
    ensures Parse(before + "---" + "b") == Got(Element("b", [], [], false), "")
  {
    hide *;
    MetadataSkipped(before, "b");
    LoneB();
    SourceOf(before + "---" + "b", "b");
    LoneElement("b", 0, "b", Element("b", [], [], false), "", "");
  }

  lemma SourceOf(s: string, t: string)
    requires SkipMetadata(s) == LTrim(t) && LTrim(t) == t
    ensures Parse(s) == ParseNode(t, 0)
  {
    hide SkipMetadata, ParseNode, LTrim;
  }

  lemma LoneB()
    ensures IndentWidth("b") == 0 && SkipIndent("b") == "b" && CharAt("b", 0) != '|' && LTrim("b") == "b"
    ensures ParseHead("b") == Got(Element("b", [], [], false), "") && ParseNode("", 2) == NoMatch("")
  {
    hide RunLength, ParseHead;
    BIsTag();
    NothingAfter();
    NothingInline();
    HeadParts("b", 1, "b", "", [], "");
  }

  lemma BIsTag()
    ensures RunLength("b", TagChars, true) == 1 && "b"[..1] == "b" && "b"[1..] == "" && "b" !in VOID_ELEMENTS
  {}

  lemma NothingAfter()
    ensures ParseMarks("", Marks([], [])) == Got(Marks([], []), "") && ParseParens("") == Got([], "")
    ensures MarkAttributes(Marks([], [])) + [] == []
  {}

  // ----- where a value ends -----

  /** An attribute with these contents, if they are contents. */
  function Valued(name: string, v: string, rest: string): Step<Attr<string>> {
    if ParseContents(v).Got? then Got(Attr(name, Mixed(Contents(ParseContents(v).value, '\0'))), rest) else Abort
  }

  /** A quoted value is the text up to the next quote, which is consumed; without one it is all that is left. */
  lemma QuotedEnds(name: string, v: string, rest: string)
    requires '"' !in v
    ensures ParseValue(name, ['"'] + (v + ['"'] + rest)) == Valued(name, v, rest)
    ensures ParseValue(name, ['"'] + v) == if v == "" then NoMatch("") else Valued(name, v, "")
  {
    SplitPointIn(v, '"', rest);
    SplitPointUnique(v, "\"", |v|);
    FirstChar('"', v + ['"'] + rest);
    FirstChar('"', v);
    assert v[..|v|] == v;
    hide ParseContents, SplitPoint;
  }

  /** A value without quotes ends at a space, a tab, a line break or a closing parenthesis. */
  lemma Terminators(c: char)
    ensures c in UNQUOTED_END <==> c == ' ' || c == '\t' || c == '\n' || c == ')'
  {}

  /** An unquoted one is the text up to the next terminator, which is consumed unless it is a parenthesis. */
  lemma UnquotedEnds(name: string, v: string, c: char, rest: string)
    requires (forall i | 0 <= i < |v| :: v[i] !in UNQUOTED_END) && c in UNQUOTED_END && (v == "" || v[0] != '"')
    ensures ParseValue(name, v + ([c] + rest)) == Valued(name, v, if c == ')' then [c] + rest else rest)
  {
    var s := v + ([c] + rest);
    AroundChar(v, c, rest);
    SplitPointUnique(s, UNQUOTED_END, |v|);
    UnquotedValue(name, s);
    hide ParseContents, SplitPoint, ParseValue;
  }

  lemma AroundChar(v: string, c: char, rest: string)
    ensures var s, n := v + ([c] + rest), |v|;
            && n < |s| && s[n] == c && Take(s, n) == v && Drop(s, n) == [c] + rest && Drop(s, n + 1) == rest
            && CharAt(s, 0) == if v == "" then c else v[0]
  {}

  /** A whole attribute with such a value. */
  lemma UnquotedAttribute(name: string, v: string, c: char, rest: string)
    requires IsToken(name, AttrChars) && v != "" && !IsSpace(v[0]) && v[0] != '"'
    requires (forall i | 0 <= i < |v| :: v[i] !in UNQUOTED_END) && c in UNQUOTED_END
    ensures ParseAttribute(name + ("=" + (v + ([c] + rest)))) == Valued(name, v, if c == ')' then [c] + rest else rest)
  {
    var after := v + ([c] + rest);
    TokenAt(name, "=" + after, AttrChars);
    AttributeTrims(name, after);
    AttributeAt(name + ("=" + after), |name|, "=" + after, after);
    UnquotedEnds(name, v, c, rest);
    hide *;
  }

  lemma ValidToken(s: string, set_: Charset)
    requires s != "" && forall i | 0 <= i < |s| :: ValidChar(set_, s[i], i == 0)
    ensures IsToken(s, set_)
  {}

  /** A comma belongs to the value: of `input(type=checkbox, checked={{complete}})` the type is "checkbox,". */
  lemma CommaInValue(rest: string)
    ensures ParseAttribute("type=checkbox, " + rest)
            == Got(Attr("type", Mixed(Contents([Const("checkbox,")], '\0'))), rest)
  {
    hide *;
    var v := "checkbox,";
    CommaText(rest);
    TypeToken();
    PlainWord(v);
    UnquotedAttribute("type", v, ' ', rest);
    ValuedConst("type", v, rest);
  }

  lemma TypeToken()
    ensures IsToken("type", AttrChars)
  {
    ValidToken("type", AttrChars);
    hide RunLength, IsToken;
  }

  /** Letters and commas: no terminator, no quote and no reference. */
  lemma PlainWord(v: string)
    requires v != "" && forall i | 0 <= i < |v| :: 'a' <= v[i] <= 'z' || v[i] == ','
    ensures !IsSpace(v[0]) && v[0] != '"' && forall i | 0 <= i < |v| :: v[i] !in UNQUOTED_END
    ensures ParseContents(v) == Got([Const(v)], "") && ' ' in UNQUOTED_END
  {}

  lemma CommaText(rest: string)
    ensures "type=checkbox, " + rest == "type" + ("=" + ("checkbox," + ([' '] + rest)))
  {}

  lemma ValuedConst(name: string, v: string, rest: string)
    requires ParseContents(v) == Got([Const(v)], "")
    ensures Valued(name, v, rest) == Got(Attr(name, Mixed(Contents([Const(v)], '\0'))), rest)
  {}

  /**
   An unquoted attribute value is scanned for ever exactly when no space, tab, line break or closing
   parenthesis follows it anywhere in the rest of the text.
   */
  lemma UnquotedHangs(name: string, v: string)
    requires IsToken(name, AttrChars) && (v == "" || (!IsSpace(v[0]) && v[0] != '"'))
    ensures ParseAttribute(name + "=" + v).Hang? <==> forall i | 0 <= i < |v| :: v[i] !in UNQUOTED_END
  {
    var s := name + ("=" + v);
    Assoc(name, "=", v);
    TokenAt(name, "=" + v, AttrChars);
    AttributeTrims(name, v);
    AttributeAt(s, |name|, "=" + v, v);
    UnquotedValue(name, v);
    NoTerminator(v);
    hide *;
  }

  lemma NoTerminator(v: string)
    ensures SplitPoint(v, UNQUOTED_END) == |v| <==> forall i | 0 <= i < |v| :: v[i] !in UNQUOTED_END
  {
    var n := SplitPoint(v, UNQUOTED_END);
    assert n < |v| ==> v[n] in UNQUOTED_END;
  }

  lemma AttributeTrims(name: string, v: string)
    requires name != "" && ValidChar(AttrChars, name[0], true) && (v == "" || !IsSpace(v[0]))
    ensures var s := name + ("=" + v);
            LTrim(s) == s && LTrim("=" + v) == "=" + v && LTrim(Drop("=" + v, 1)) == v && CharAt(s, 0) != ')'
  {
    hide LTrim, Drop;
    TrimmedFront(name, "=" + v);
    TrimmedFront("=", v);
    FirstChar('=', v);
    DropFirst("=" + v);
    LTrimKeeps(v);
  }

  lemma LTrimKeeps(v: string)
    requires v == "" || !IsSpace(v[0])
    ensures LTrim(v) == v
  {}

  lemma AttributeAt(s: string, n: nat, s2: string, v: string)
    requires LTrim(s) == s && RunLength(s, AttrChars, true) == n > 0 && CharAt(s, 0) != ')'
    requires LTrim(s[n..]) == s2 && CharAt(s2, 0) == '=' && LTrim(Drop(s2, 1)) == v
    ensures ParseAttribute(s) == ParseValue(s[..n], v)
  {}

  // ----- texts whose parsing ends -----

  /** A closing parenthesis, or nothing, and then white space to the end. */
  predicate ClosedAt(s: string, e: nat) {
    && e <= |s| && (forall i | e <= i < |s| :: IsSpace(s[i]))
    && (e == 0 || s[e - 1] == ')')
  }

  /** The last visible character is a closing parenthesis, if there is a visible one. */
  ghost predicate Closed(s: string) {
    exists e: nat :: ClosedAt(s, e)
  }

  lemma ClosedFrom(s: string, k: nat)
    requires Closed(s) && k <= |s|
    ensures Closed(s[k..])
  {
    var e: nat :| ClosedAt(s, e);
    var t, e' := s[k..], if e > k then e - k else 0;
    assert forall i | 0 <= i < |t| :: t[i] == s[k + i];
    assert ClosedAt(t, e');
  }

  lemma ClosedSlices(s: string, n: nat)
    requires Closed(s)
    ensures Closed(LTrim(s)) && Closed(Drop(s, n))
  {
    assert Closed("") by { assert ClosedAt("", 0); }
    hide Closed;
    ClosedFrom(s, |s| - |LTrim(s)|);
    if n <= |s| { ClosedFrom(s, n); }
  }

  lemma ClosedTrim(s: string)
    requires Closed(s)
    ensures Closed(Trim(s))
  {
    var e: nat :| ClosedAt(s, e);
    assert ClosedAt(RTrim(s), e);
    ClosedSlices(RTrim(s), 0);
  }

  /** A step that ends, and leaves such a text. */
  ghost predicate EndsClosed<T>(r: Step<T>) {
    !r.Hang? && (r.Got? || r.NoMatch? ==> Closed(r.rest))
  }

  lemma ValueClosed(name: string, s: string)
    requires Closed(s) && s != ""
    ensures EndsClosed(ParseValue(name, s))
  {
    hide ParseContents, Closed;
    if s[0] == '"' {
      ClosedFrom(s, 1);
      ClosedSlices(s[1..], SplitPoint(s[1..], "\"") + 1);
    } else {
      var n := SplitPoint(s, UNQUOTED_END);
      HasTerminator(s);
      NoTerminator(s);
      ClosedFrom(s, n);
      ClosedFrom(s, n + 1);
    }
  }

  lemma HasTerminator(s: string)
    requires Closed(s) && s != ""
    ensures exists i | 0 <= i < |s| :: s[i] in UNQUOTED_END
  {
    var e: nat :| ClosedAt(s, e);
    assert s[if e == 0 then 0 else e - 1] in UNQUOTED_END;
  }

  /** After a visible character that is no closing parenthesis something visible follows. */
  lemma MoreFollows(s: string)
    requires Closed(s) && s != "" && !IsSpace(s[0]) && s[0] != ')'
    ensures LTrim(Drop(s, 1)) != ""
  {
    var e: nat :| ClosedAt(s, e);
    assert e > 1;
    assert Drop(s, 1)[e - 2] == ')';
  }

  lemma AttributeClosed(s: string)
    requires Closed(s)
    ensures EndsClosed(ParseAttribute(s))
  {
    hide Closed, ParseValue, LTrim, RunLength, CharAt, Drop, IsSpace;
    var s1 := LTrim(s);
    ClosedSlices(s, 0);
    var n := RunLength(s1, AttrChars, true);
    ClosedFrom(s1, n);
    ClosedSlices(s1[n..], 0);
    var s2 := LTrim(s1[n..]);
    if CharAt(s2, 0) == '=' {
      EqualsClosed(s1[..n], s2);
    }
  }

  lemma EqualsClosed(name: string, s: string)
    requires Closed(s) && CharAt(s, 0) == '='
    ensures EndsClosed(ParseValue(name, LTrim(Drop(s, 1))))
  {
    AtEquals(s);
    ClosedSlices(s, 1);
    ClosedSlices(Drop(s, 1), 0);
    hide *;
    ValueClosed(name, LTrim(Drop(s, 1)));
  }

  lemma AtEquals(s: string)
    requires Closed(s) && CharAt(s, 0) == '='
    ensures LTrim(Drop(s, 1)) != ""
  {
    MoreFollows(s);
  }

  lemma {:induction false} AttributesClosed(s: string)
    requires Closed(s)
    ensures EndsClosed(ParseAttributes(s))
    decreases |s|
  {
    hide Closed, ParseAttribute;
    var first := ParseAttribute(s);
    AttributeClosed(s);
    if first.Got? { AttributesClosed(first.rest); }
  }

  lemma {:induction false} MarksClosed(s: string, m: Marks)
    requires |m.id| <= 1 && |m.classes| <= MAX_CLASSES && Closed(s)
    ensures EndsClosed(ParseMarks(s, m))
    decreases |s|
  {
    hide Closed;
    if CharAt(s, 0) == '#' || CharAt(s, 0) == '.' {
      var n := RunLength(s[1..], TagChars, true);
      ClosedFrom(s, 1);
      ClosedFrom(s[1..], n);
      if CharAt(s, 0) == '#' && |m.id| == 0 && n > 0 {
        MarksClosed(s[1..][n..], m.(id := [s[1..][..n]]));
      } else if CharAt(s, 0) == '.' && |m.classes| < MAX_CLASSES && n > 0 {
        MarksClosed(s[1..][n..], m.(classes := m.classes + [s[1..][..n]]));
      }
    }
  }

  lemma ParensClosed(s: string)
    requires Closed(s)
    ensures EndsClosed(ParseParens(s))
  {
    hide Closed, ParseAttributes;
    if s != "" && s[0] == '(' {
      ClosedFrom(s, 1);
      AttributesClosed(s[1..]);
      var attrs := ParseAttributes(s[1..]);
      if attrs.Got? && attrs.rest != "" { ClosedFrom(attrs.rest, 1); }
    }
  }

  lemma InlineClosed(s: string)
    requires Closed(s)
    ensures EndsClosed(ParseInline(s))
  {
    hide Closed, ParseContents, Trim, After, Before;
    AfterClosed(s, "\n");
  }

  lemma LineClosed(s: string)
    requires Closed(s)
    ensures EndsClosed(ParseLine(s))
  {
    hide Closed, ParseTextLine, ParseHead;
    if CharAt(s, 0) == '|' {
      TextLineClosed(s);
    } else {
      HeadClosed(s);
    }
  }

  lemma TextLineClosed(s: string)
    requires Closed(s) && s != ""
    ensures EndsClosed(ParseTextLine(s))
  {
    hide Closed, ParseContents, Trim, SplitPoint, After, Before;
    var t := Trim(s[1..]);
    ClosedFrom(s, 1);
    ClosedTrim(s[1..]);
    AfterClosed(t, "\n");
  }

  lemma AfterClosed(s: string, chars: string)
    requires Closed(s)
    ensures Closed(After(s, chars))
  {
    hide Closed, SplitPoint, Drop;
    ClosedSlices(s, SplitPoint(s, chars) + 1);
  }

  lemma HeadClosed(s: string)
    requires Closed(s)
    ensures EndsClosed(ParseHead(s))
  {
    hide Closed, ParseMarks, ParseParens, ParseInline, MarkAttributes, RunLength;
    var n := RunLength(s, TagChars, true);
    ClosedFrom(s, n);
    ClosedFrom(s, 0);
    assert s[0..] == s;
    var marks := ParseMarks(s[n..], Marks([], []));
    MarksClosed(s[n..], Marks([], []));
    if marks.Got? {
      var attrs := ParseParens(marks.rest);
      ParensClosed(marks.rest);
      if attrs.Got? { InlineClosed(attrs.rest); }
    }
  }

  lemma {:induction false} SkipClosed(s: string)
    requires Closed(s)
    ensures Closed(SkipIndent(s))
  {
    hide Closed;
    if s != "" && (s[0] == ' ' || s[0] == '\t') {
      ClosedFrom(s, 1);
      SkipClosed(s[1..]);
    }
  }

  lemma {:induction false} WalkEnds(s: string, d: nat)
    requires Closed(s)
    ensures !Walk(s, d).Endless?
    decreases |s|, d
  {
    hide Closed, ParseLine;
    if BelowOpen(s, d) {
      var k, line := IndentWidth(s) / 2, SkipIndent(s);
      SkipClosed(s);
      LineClosed(line);
      match ParseLine(line)
      case Got(_, rest) => WalkEnds(rest, k + Opens(line));
      case NoMatch(rest) => WalkEnds(rest, k - 1);
      case _ =>
    }
  }

  /**
   Parsing a template whose last visible character is a closing parenthesis ends. White space at the end is
   no such assurance: a text line trims all of the text after it.
   */
  lemma ClosedEnds(s: string)
    requires Closed(s)
    ensures !Parse(s).Hang?
  {
    hide Closed, ParseLine, Parse, Walk, LTrim;
    SourceClosed(s);
    var t := Source(s);
    ParseIsWalk(s);
    LineClosed(t);
    if ParseLine(t).Got? {
      WalkEnds(ParseLine(t).rest, Opens(t));
    }
  }

  lemma SourceClosed(s: string)
    requires Closed(s)
    ensures Closed(Source(s))
  {
    hide Closed, LTrim;
    var i := AfterDashes(s, 2);
    if i != -1 {
      ClosedFrom(s, i);
      ClosedSlices(s[i..], 0);
    }
    ClosedSlices(SkipMetadata(s), 0);
  }
}
