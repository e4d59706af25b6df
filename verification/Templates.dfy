/**
 A template from its source text to its output: what the handler of plmuggin functions does. The source
 is compiled, the function's arguments are bound by name, and the tree is rendered.
 */
module Templates {
  import opened Strs
  import opened Template
  import opened StringPools
  import opened StrBufs
  import opened RenderSpec
  import opened Scoping
  import opened TemplatePrinter
  import opened QueryParams
  import opened Muggin
  import opened Renderer

  // ----- what parsing makes sure of -----

  lemma {:induction false} ItemsFit(s: string)
    requires ParseContents(s).Got?
    ensures |ParseContents(s).value| <= |s|
    decreases |s|
  {
    hide IndexOf, LTrim, RTrim, CharAt, Drop;
    var i := IndexOf(s, '{');
    if i != -1 && CharAt(s, i + 1) == '{' {
      var t := LTrim(Drop(s, i + 2));
      var j := IndexOf(t, '}');
      var rest := Drop(t, j + 2);
      ItemsFit(rest);
      var before := if i > 0 then [Const(s[..i])] else [];
      assert ParseContents(s).value == before + [Name(RTrim(t[..j]))] + ParseContents(rest).value;
    }
  }

  lemma {:induction false} ItemsAlternate(items: seq<Content<string>>)
    requires ItemsOk(items)
    ensures Alternating(items)
  {
    if items != [] {
      if |items| > 1 {
        ItemsAlternate(items[1..]);
      }
      forall i | 0 <= i < |items| && items[i].Const?
        ensures items[i].text != "" && (i > 0 ==> items[i - 1].Name?)
      {
        if i > 0 { assert items[i] == items[1..][i - 1]; }
        if i > 1 { assert items[i - 1] == items[1..][i - 2]; }
      }
    }
  }

  /** Attributes as written in parentheses: mixed contents, as many items as there is text at the most. */
  predicate Written(a: Attr<string>, size: nat) {
    && a.value.Mixed? && a.value.contents.separator == '\0'
    && |a.value.contents.items| <= size && ItemsOk(a.value.contents.items)
  }

  lemma AttributeWritten(s: string)
    requires ParseAttribute(s).Got?
    ensures Written(ParseAttribute(s).value, |s|)
  {
    hide ParseValue, RunLength, LTrim, Written;
    var s1 := LTrim(s);
    var n := RunLength(s1, AttrChars, true);
    var s2 := LTrim(s1[n..]);
    var s3 := LTrim(Drop(s2, 1));
    ValueWritten(s1[..n], s3);
    WrittenWithin(ParseAttribute(s).value, |s3|, |s|);
  }

  lemma ValueWritten(name: string, s: string)
    requires ParseValue(name, s).Got?
    ensures Written(ParseValue(name, s).value, |s|)
  {
    hide ParseContents, Before, After, SplitPoint, ItemsOk;
    if s != "" && s[0] == '"' {
      BeforeFits(s[1..], "\"");
      ItemsFit(Before(s[1..], "\""));
      ParsedItemsOk(Before(s[1..], "\""));
    } else {
      ItemsFit(s[..SplitPoint(s, UNQUOTED_END)]);
      ParsedItemsOk(s[..SplitPoint(s, UNQUOTED_END)]);
    }
  }

  lemma BeforeFits(s: string, end: string)
    ensures |Before(s, end)| <= |s|
  {}

  lemma {:induction false} AttributesWritten(s: string)
    requires ParseAttributes(s).Got?
    ensures forall a | a in ParseAttributes(s).value :: Written(a, |s|)
    decreases |s|
  {
    hide ParseAttribute, Written;
    var first := ParseAttribute(s);
    if first.Got? {
      AttributeWritten(s);
      AttributesWritten(first.rest);
      forall a | a in ParseAttributes(first.rest).value ensures Written(a, |s|) {
        WrittenWithin(a, |first.rest|, |s|);
      }
    }
  }

  lemma WrittenWithin(a: Attr<string>, n: nat, m: nat)
    requires Written(a, n) && n <= m
    ensures Written(a, m)
  {
    hide ItemsOk;
  }

  /** A query of a parsed template is written in its parentheses. */
  lemma HeadQueries(s: string)
    requires ParseHead(s).Got? && |s| < 0x8000_0000
    ensures QueriesHaveContents(ParseHead(s).value)
    ensures forall a | a in ParseHead(s).value.attributes && a.name == QUERY_ATTRIBUTE :: Written(a, |s|)
  {
    hide ParseContents, Written, RunLength, Trim, Before, After, MarkAttributes, ParseMarks, ParseAttributes;
    var n := RunLength(s, TagChars, true);
    var marks := ParseMarks(s[n..], Marks([], []));
    var attrs := ParseParens(marks.rest);
    ParensWritten(marks.rest);
    MarkNames(marks.value);
    assert |marks.rest| <= |s|;
    var node := ParseHead(s).value;
    assert node.attributes == MarkAttributes(marks.value) + attrs.value;
    forall a | a in node.attributes && a.name == QUERY_ATTRIBUTE
      ensures Written(a, |s|) && a.value.Mixed? && |a.value.contents.items| < 0x8000_0000
    {
      assert a in attrs.value;
      WrittenWithin(a, |marks.rest|, |s|);
      WrittenParts(a, |s|);
    }
    assert forall c | c in node.children :: c.Text?;
  }

  lemma WrittenParts(a: Attr<string>, n: nat)
    requires Written(a, n)
    ensures a.value.Mixed? && |a.value.contents.items| <= n
  {
    hide ItemsOk;
  }

  lemma ParensWritten(s: string)
    requires ParseParens(s).Got?
    ensures forall a | a in ParseParens(s).value :: Written(a, |s|)
  {
    hide ParseAttributes, Written;
    if s != "" && s[0] == '(' {
      AttributesWritten(s[1..]);
      forall a | a in ParseParens(s).value ensures Written(a, |s|) {
        WrittenWithin(a, |s| - 1, |s|);
      }
    }
  }

  lemma MarkNames(m: Marks)
    ensures forall a | a in MarkAttributes(m) :: a.name != QUERY_ATTRIBUTE
  {
    assert "id"[0] != QUERY_ATTRIBUTE[0] && "class"[0] != QUERY_ATTRIBUTE[0];
  }

  lemma {:induction false} ParsedNodeQueries(s: string, indent: nat)
    requires ParseNode(s, indent).Got? && |s| < 0x8000_0000
    ensures QueriesHaveContents(ParseNode(s, indent).value)
    decreases |s|, 1
  {
    hide ParseHead, ParseTextLine, ParseChildren, SkipIndent, IndentWidth;
    var s1 := SkipIndent(s);
    if CharAt(s1, 0) == '|' {
      TextLineIsText(s1);
    } else {
      HeadQueries(s1);
      ParsedChildrenQueries(ParseHead(s1).rest, indent + 2);
    }
  }

  lemma TextLineIsText(s: string)
    requires s != "" && ParseTextLine(s).Got?
    ensures ParseTextLine(s).value.Text?
  {
    hide ParseContents, Trim, Before, After;
  }

  lemma {:induction false} ParsedChildrenQueries(s: string, indent: nat)
    requires ParseChildren(s, indent).Got? && |s| < 0x8000_0000
    ensures forall c | c in ParseChildren(s, indent).value :: QueriesHaveContents(c)
    decreases |s|, 2
  {
    hide ParseNode, QueriesHaveContents;
    var first := ParseNode(s, indent);
    if first.Got? {
      ParsedNodeQueries(s, indent);
      ParsedChildrenQueries(first.rest, indent);
    }
  }

  /** Every template that parses can be rendered: its queries have contents. */
  lemma ParsedQueries(source: string)
    requires Parse(source).Got? && |source| < 0x8000_0000
    ensures QueriesHaveContents(Parse(source).value)
  {
    hide ParseNode, QueriesHaveContents, AfterDashes, IsSpace;
    ParsedNodeQueries(LTrim(SkipMetadata(source)), 0);
  }

  /** And text that parses as contents has alternating items, as placeholders need. */
  lemma ParsedContentsAlternate(s: string)
    requires ParseContents(s).Got?
    ensures Alternating(ParseContents(s).value)
  {
    ParsedItemsOk(s);
    ItemsAlternate(ParseContents(s).value);
  }

  // ----- names -----

  lemma ContentsInPool(c: Contents<nat>, t: Contents<string>, cs: seq<string>, ns: seq<string>)
    requires ContentsDenote(c, t, cs, ns)
    ensures ItemNames(t.items) <= NameSet(ns)
  {
    forall i | 0 <= i < |t.items| && t.items[i].Name?
      ensures t.items[i].name in ns
    {
      assert ItemDenotes(c.items[i], t.items[i], cs, ns);
    }
  }

  /** Every name a template uses is in the name pool of its compiled tree. */
  lemma {:induction false} UsesInPool(n: Node<nat>, t: Node<string>, cs: seq<string>, ns: seq<string>)
    requires NodeDenotes(n, t, cs, ns)
    ensures Uses(t) <= NameSet(ns)
  {
    match t
    case Text(c) => ContentsInPool(n.contents, c, cs, ns);
    case Element(_, attrs, children, _) =>
      forall a, x | a in attrs && a.value.Mixed? && x in ItemNames(a.value.contents.items)
        ensures x in NameSet(ns)
      {
        var i :| 0 <= i < |attrs| && attrs[i] == a;
        assert AttrDenotes(n.attributes[i], attrs[i], cs, ns);
        ContentsInPool(n.attributes[i].value.contents, a.value.contents, cs, ns);
      }
      forall c, x | c in children && x in Uses(c)
        ensures x in NameSet(ns)
      {
        var i :| 0 <= i < |children| && children[i] == c;
        assert NodeDenotes(n.children[i], children[i], cs, ns);
        UsesInPool(n.children[i], c, cs, ns);
      }
  }

  // ----- rendering a function's template -----

  /** The arguments of the function, bound by name where the template has the name. */
  function Params<V>(params: seq<(string, V)>, names: set<string>): Scope<V> {
    if params == [] then map[]
    else
      var before, p := Params(params[..|params| - 1], names), params[|params| - 1];
      if p.0 in names then before[p.0 := Binding(p.1, true)] else before
  }

  /** The last argument of a name is bound to it, to be escaped when it is written. */
  lemma {:induction false} ParamsBind<V>(params: seq<(string, V)>, names: set<string>, i: nat)
    requires i < |params| && params[i].0 in names && forall j | i < j < |params| :: params[j].0 != params[i].0
    ensures params[i].0 in Params(params, names) && Params(params, names)[params[i].0] == Binding(params[i].1, true)
  {
    var k := |params| - 1;
    if i < k {
      ParamsBind(params[..k], names, i);
    }
  }

  /** And nothing else is bound than the arguments that have a name of the template. */
  lemma {:induction false} ParamsBound<V>(params: seq<(string, V)>, names: set<string>)
    ensures Params(params, names).Keys == set p | p in params && p.0 in names :: p.0
  {
    if params != [] {
      var k := |params| - 1;
      assert params == params[..k] + [params[k]];
      ParamsBound(params[..k], names);
    }
  }

  /** Binding arguments that the template does not name makes no difference to the names it uses. */
  lemma {:induction false} ParamsAgree<V>(params: seq<(string, V)>, names: set<string>, pool: set<string>)
    requires names <= pool
    ensures Agree(Params(params, pool), Params(params, names), names)
  {
    if params != [] {
      var k := |params| - 1;
      assert params == params[..k] + [params[k]];
      ParamsAgree(params[..k], names, pool);
    }
  }

  /** The document around a rendered root: its type, and the NUL that ends it as a C string. */
  function Document(text: string): string {
    "<!DOCTYPE html>\n" + text + "\0"
  }

  lemma DocumentIs(text: string)
    ensures Document(text) == "<!DOCTYPE html>\n" + text + "\0"
  {}

  lemma FunctionIsLexical<V(!new)>(t: Node<string>, params: seq<(string, V)>, w: World<V>, cols: string -> seq<string>,
                                   pool: set<string>)
    requires QueriesHaveContents(t) && Relational(w) && ColumnsBySql(w, cols) && Uses(t) <= pool
    requires Safe(t, Uses(t), cols, Uses(t))
    ensures var flat, lex := Render(t, Params(params, pool), w, pool), Lexical(t, Params(params, Uses(t)), w, Uses(t));
            flat.Some? == lex.Some? && (flat.Some? ==> flat.value.text == lex.value)
  {
    ParamsAgree(params, Uses(t), pool);
    RenderIsLexical(t, Params(params, pool), Params(params, Uses(t)), Uses(t), w, cols, Uses(t), pool);
    hide Render, Lexical, Uses, Params, Relational, QueriesHaveContents, Safe;
  }

  /**
   The plmuggin function handler: compile the source, bind the arguments, render. If no name is read that
   some other query or an earlier row may have overwritten, the output is the document that lexical scoping
   gives for the template the source text means: nothing of ids, pools, rehashing or the one scope is seen.
   */
  method RenderFunction<V(!new)>(source: string, hash: string -> nat, w: World<V>, params: seq<(string, V)>, to: StrBuf,
                                 ghost cols: string -> seq<string>)
    returns (st: Status, ok: bool)
    requires NulFree(source) && |source| < 0x8000_0000 && Relational(w) && to.Valid()
    requires forall p | p in params :: p.0 != "" && NulFree(p.0)
    modifies to.Repr
    ensures to.Valid() && fresh(to.Repr - old(to.Repr))
    ensures match Parse(source)
            case Got(_, _) => st == Yes
            case NoMatch(_) => st == No
            case Abort => st == Aborted
            case Hang => st == Hung
    ensures st != Yes ==> !ok && to.Contents() == old(to.Contents())
    ensures st == Yes && ColumnsBySql(w, cols) ==>
              var t := Parse(source).value;
              && QueriesHaveContents(t)
              && (Safe(t, Uses(t), cols, Uses(t)) ==>
                    var lex := Lexical(t, Params(params, Uses(t)), w, Uses(t));
                    && ok == lex.Some?
                    && (ok ==> to.Contents() == old(to.Contents()) + Document(lex.value)))
  {
    hide *;
    var root, constants, names;
    st, root, constants, names := MugginParse(source, hash);
    ok := false;
    if st == Yes {
      ghost var t := Parse(source).value;
      var r := new Renderer(constants, names, w);
      ghost var scope := BindParams(r, params);
      ParsedQueries(source);
      NewApart(r, to);
      ok := r.MugginRender(root, to, t, scope);
      UsesInPool(root, t, r.cs, r.ns);
      if ColumnsBySql(w, cols) && Safe(t, Uses(t), cols, Uses(t)) {
        FunctionIsLexical(t, params, w, cols, NameSet(r.ns));
        if ok {
          DocumentIs(Lexical(t, Params(params, Uses(t)), w, Uses(t)).value);
        }
      }
    }
  }

  twostate lemma NewApart<V(!new)>(new r: Renderer<V>, to: StrBuf)
    requires to.Valid() && fresh(r) && fresh(r.constants) && fresh(r.names) && fresh(r.values)
    ensures r.Apart(to)
  {}

  method BindParams<V(!new)>(r: Renderer<V>, params: seq<(string, V)>) returns (ghost scope: Scope<V>)
    requires r.Valid() && Represents(r.values[..], r.ns, map[])
    requires forall p | p in params :: p.0 != "" && NulFree(p.0)
    modifies r.values
    ensures r.Valid() && scope == Params(params, NameSet(r.ns)) && Represents(r.values[..], r.ns, scope)
  {
    hide Represents, Renderer.Valid, NulFree;
    scope := map[];
    var i := 0;
    assert params[..0] == [];
    while i < |params|
      invariant 0 <= i <= |params| && r.Valid()
      invariant scope == Params(params[..i], NameSet(r.ns)) && Represents(r.values[..], r.ns, scope)
    {
      assert params[i] in params && params[..i + 1][..i] == params[..i];
      r.Bind(params[i].0, Binding(params[i].1, true), scope);
      scope := if params[i].0 in r.ns then scope[params[i].0 := Binding(params[i].1, true)] else scope;
      i := i + 1;
    }
    assert params[..i] == params;
  }
}
