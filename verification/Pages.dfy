/**
 The page that a template makes, as HTML written down from what its author wrote: no tree, no parser and no
 part of the renderer is used here. Templates with queries are pages of their own at the end.
 */
module Pages {
  import opened Seqs
  import opened Strs
  import opened Template
  import opened TemplatePrinter
  import opened StringPools
  import opened StrBufs
  import opened RenderSpec
  import opened Scoping
  import opened Muggin
  import opened Templates

  // ----- HTML -----

  /** Constants as they are written, and for each name its text. */
  function ItemsHtml(items: seq<Content<string>>, text: string -> string): string {
    if items == [] then ""
    else (match items[0] case Const(s) => s case Name(n) => text(n)) + ItemsHtml(items[1..], text)
  }

  /** Words with one space between any two. */
  function Joined(words: seq<string>): string {
    if words == [] then "" else if |words| == 1 then words[0] else words[0] + " " + Joined(words[1..])
  }

  function AttributeHtml(name: string, value: string): string {
    " " + name + "=\"" + value + "\""
  }

  function FieldsHtml(fields: seq<Field>, text: string -> string): string {
    if fields == [] then ""
    else AttributeHtml(fields[0].name, ItemsHtml(fields[0].value, text)) + FieldsHtml(fields[1..], text)
  }

  function StartTag(m: Markup, text: string -> string): string
    requires m.Tag?
  {
    "<" + m.name
    + (if m.id == [] then "" else AttributeHtml("id", m.id[0]))
    + (if m.classes == [] then "" else AttributeHtml("class", Joined(m.classes)))
    + FieldsHtml(m.fields, text) + ">"
  }

  function Html(m: Markup, text: string -> string): string
    decreases m, 1
  {
    match m
    case Line(items) => ItemsHtml(items, text)
    case Tag(name, _, _, _, items, children) =>
      if IsVoid(name) then StartTag(m, text)
      else StartTag(m, text) + (ItemsHtml(items, text) + HtmlAll(children, text)) + "</" + name + ">"
  }

  function HtmlAll(ms: seq<Markup>, text: string -> string): string
    decreases ms, 0
  {
    if ms == [] then "" else Html(ms[0], text) + HtmlAll(ms[1..], text)
  }

  /** The template asks for nothing. */
  predicate NoQuery(m: Markup) {
    m.Tag? ==> (forall f | f in m.fields :: f.name != "m:q") && forall c | c in m.children :: NoQuery(c)
  }

  // ----- what the renderer writes -----

  /** The texts of names are those of an environment. */
  ghost predicate TextsOf<V>(text: string -> string, env: Scope<V>, w: World<V>, names: set<string>) {
    forall n | n in names :: text(n) == ItemText(Name(n), env, w)
  }

  lemma {:induction false} ItemsAppend(a: seq<Content<string>>, b: seq<Content<string>>, text: string -> string)
    ensures ItemsHtml(a + b, text) == ItemsHtml(a, text) + ItemsHtml(b, text)
    decreases |a|
  {
    if a == [] {
      assert a + b == b;
    } else {
      assert (a + b)[1..] == a[1..] + b;
      ItemsAppend(a[1..], b, text);
      var first := match a[0] case Const(s) => s case Name(n) => text(n);
      Assoc(first, ItemsHtml(a[1..], text), ItemsHtml(b, text));
    }
  }

  lemma OneItem(c: Content<string>, text: string -> string)
    ensures ItemsHtml([c], text) == match c case Const(s) => s case Name(n) => text(n)
  {
    assert [c][1..] == [];
  }

  /** Contents without a separator are their items' texts, one after the other. */
  lemma {:induction false} ContentsWritten<V>(items: seq<Content<string>>, env: Scope<V>, w: World<V>,
                                              text: string -> string)
    requires TextsOf(text, env, w, ItemNames(items))
    ensures ContentsText(items, '\0', env, w) == ItemsHtml(items, text)
  {
    if items != [] {
      var k := |items| - 1;
      ItemNamesSplit(items);
      ContentsWritten(items[..k], env, w, text);
      ItemsAppend(items[..k], [items[k]], text);
      OneItem(items[k], text);
      assert items == items[..k] + [items[k]];
      assert ContentsText(items[..k], '\0', env, w) + "" == ContentsText(items[..k], '\0', env, w);
      hide ContentsText, ItemsHtml;
      ContentsLast(items, env, w);
    }
  }

  lemma ContentsLast<V>(items: seq<Content<string>>, env: Scope<V>, w: World<V>)
    requires items != []
    ensures var k := |items| - 1;
            ContentsText(items, '\0', env, w)
            == ContentsText(items[..k], '\0', env, w) + "" + ItemText(items[k], env, w)
  {}

  lemma {:induction false} JoinedMore(words: seq<string>, word: string)
    requires words != []
    ensures Joined(words + [word]) == Joined(words) + " " + word
  {
    if |words| == 1 {
      assert (words + [word])[1..] == [word];
    } else {
      assert (words + [word])[1..] == words[1..] + [word];
      JoinedMore(words[1..], word);
      Spaced(words[0], Joined(words[1..]), word);
    }
  }

  lemma Spaced(a: string, b: string, c: string)
    ensures a + " " + (b + " " + c) == a + " " + b + " " + c
  {}

  /** A class list is written as its classes with single spaces between them. */
  lemma {:induction false} ClassesWritten<V>(classes: seq<string>, env: Scope<V>, w: World<V>)
    ensures ContentsText(Consts(classes), ' ', env, w) == Joined(classes)
  {
    if classes != [] {
      var k := |classes| - 1;
      ClassesWritten(classes[..k], env, w);
      assert Consts(classes)[..k] == Consts(classes[..k]);
      assert classes == classes[..k] + [classes[k]];
      if k > 0 {
        JoinedMore(classes[..k], classes[k]);
      } else {
        assert Consts(classes)[..0] == [];
      }
    }
  }

  lemma {:induction false} AttributesAppend<V>(a: seq<Attr<string>>, b: seq<Attr<string>>, env: Scope<V>, w: World<V>)
    ensures AttributesText(a + b, env, w) == AttributesText(a, env, w) + AttributesText(b, env, w)
    decreases |b|
  {
    if b == [] {
      assert a + b == a;
    } else {
      var k := |b| - 1;
      assert (a + b)[..|a + b| - 1] == a + b[..k] && (a + b)[|a + b| - 1] == b[k];
      AttributesAppend(a, b[..k], env, w);
      Assoc(AttributesText(a, env, w), AttributesText(b[..k], env, w), AttributeText(b[k], env, w));
    }
  }

  lemma OneAttribute<V>(a: Attr<string>, env: Scope<V>, w: World<V>)
    requires a.name != "m:q"
    ensures AttributesText([a], env, w) == AttributeHtml(a.name, ValueText(a.value, env, w))
  {
    assert [a][..0] == [];
    hide ValueText;
  }

  lemma {:induction false} FieldsWritten<V>(fields: seq<Field>, env: Scope<V>, w: World<V>, text: string -> string)
    requires forall f | f in fields :: f.name != "m:q" && TextsOf(text, env, w, ItemNames(f.value))
    ensures AttributesText(FieldAttributes(fields), env, w) == FieldsHtml(fields, text)
  {
    if fields != [] {
      var f := fields[0];
      var a := Attr(f.name, Mixed(Contents(f.value, '\0')));
      assert f in fields;
      assert FieldAttributes(fields) == [a] + FieldAttributes(fields[1..]);
      FieldsWritten(fields[1..], env, w, text);
      AttributesAppend([a], FieldAttributes(fields[1..]), env, w);
      OneAttribute(a, env, w);
      ContentsWritten(f.value, env, w, text);
      hide AttributesText, FieldAttributes, ContentsText, ItemsHtml, TextsOf;
    }
  }

  lemma IdWritten<V>(id: seq<string>, env: Scope<V>, w: World<V>)
    ensures AttributesText(IdAttributes(id), env, w) == if id == [] then "" else AttributeHtml("id", id[0])
  {
    if id != [] {
      OneAttribute(Attr("id", Constant(id[0])), env, w);
    }
    hide AttributeText;
  }

  lemma ClassWritten<V>(classes: seq<string>, env: Scope<V>, w: World<V>)
    ensures AttributesText(ClassAttributes(classes), env, w)
            == if classes == [] then "" else AttributeHtml("class", Joined(classes))
  {
    if |classes| == 1 {
      OneAttribute(Attr("class", Constant(classes[0])), env, w);
    } else if classes != [] {
      ClassesWritten(classes, env, w);
      assert Consts(classes) == seq(|classes|, i requires 0 <= i < |classes| => Const(classes[i]));
      OneAttribute(Attr("class", Mixed(Contents(Consts(classes), ' '))), env, w);
    }
    hide AttributeText, ContentsText;
  }

  lemma StartWritten<V>(m: Markup, env: Scope<V>, w: World<V>, text: string -> string)
    requires m.Tag? && forall f | f in m.fields :: f.name != "m:q" && TextsOf(text, env, w, ItemNames(f.value))
    ensures OpenTag(Head(m), env, w) == StartTag(m, text)
  {
    IdWritten(m.id, env, w);
    ClassWritten(m.classes, env, w);
    FieldsWritten(m.fields, env, w, text);
    AttributesAppend(IdAttributes(m.id), ClassAttributes(m.classes), env, w);
    AttributesAppend(IdAttributes(m.id) + ClassAttributes(m.classes), FieldAttributes(m.fields), env, w);
    hide AttributesText, FieldAttributes, IdAttributes, ClassAttributes, AttributeHtml, FieldsHtml, Joined, IsVoid,
         TextNodes;
    var a := if m.id == [] then "" else AttributeHtml("id", m.id[0]);
    var b := if m.classes == [] then "" else AttributeHtml("class", Joined(m.classes));
    Brackets(m.name, a, b, FieldsHtml(m.fields, text));
  }

  lemma Brackets(name: string, a: string, b: string, c: string)
    ensures "<" + name + (a + b + c) + ">" == "<" + name + a + b + c + ">"
  {}

  // ----- whole trees -----

  lemma {:induction false} LexicalAppend<V(!new)>(a: seq<Node<string>>, b: seq<Node<string>>, env: Scope<V>,
                                                  w: World<V>, names: set<string>)
    requires (forall c | c in a :: QueriesHaveContents(c)) && forall c | c in b :: QueriesHaveContents(c)
    requires LexicalRenders(a, env, w, names) && LexicalRenders(b, env, w, names)
    ensures (forall c | c in a + b :: QueriesHaveContents(c))
    ensures LexicalAll(a + b, env, w, names)
            == Some(LexicalAll(a, env, w, names).value + LexicalAll(b, env, w, names).value)
    decreases |b|
  {
    if b == [] {
      assert a + b == a;
      NoneWritten(env, w, names);
      assert LexicalAll(a, env, w, names).value + "" == LexicalAll(a, env, w, names).value;
    } else {
      var before, last := b[..|b| - 1], b[|b| - 1];
      assert b == before + [last] && a + b == (a + before) + [last];
      hide LexicalAll, Lexical, QueriesHaveContents, Relational;
      LexicalSnoc(before, last, env, w, names);
      LexicalAppend(a, before, env, w, names);
      LexicalSnoc(a + before, last, env, w, names);
      Assoc(LexicalAll(a, env, w, names).value, LexicalAll(before, env, w, names).value,
            Lexical(last, env, w, names).value);
    }
  }

  ghost predicate LexicalRenders<V(!new)>(ns: seq<Node<string>>, env: Scope<V>, w: World<V>, names: set<string>)
    requires forall c | c in ns :: QueriesHaveContents(c)
  {
    Relational(w) && LexicalAll(ns, env, w, names).Some?
  }

  lemma LexicalSnoc<V(!new)>(ns: seq<Node<string>>, n: Node<string>, env: Scope<V>, w: World<V>, names: set<string>)
    requires (forall c | c in ns :: QueriesHaveContents(c)) && QueriesHaveContents(n) && Relational(w)
    ensures LexicalAll(ns + [n], env, w, names)
            == match (LexicalAll(ns, env, w, names), Lexical(n, env, w, names))
               case (Some(x), Some(y)) => Some(x + y)
               case _ => None
  {
    assert (ns + [n])[..|ns|] == ns;
    hide Lexical, QueriesHaveContents, Relational;
  }

  lemma OneLexical<V(!new)>(n: Node<string>, env: Scope<V>, w: World<V>, names: set<string>)
    requires QueriesHaveContents(n) && Relational(w) && Lexical(n, env, w, names).Some?
    ensures LexicalAll([n], env, w, names) == Lexical(n, env, w, names)
  {
    var none: seq<Node<string>> := [];
    assert [n][..0] == none;
    assert "" + Lexical(n, env, w, names).value == Lexical(n, env, w, names).value;
    hide Lexical;
  }

  /** A tree without queries can be rendered, and asks for nothing. */
  lemma {:induction false} NothingAsked(m: Markup)
    requires NoQuery(m)
    ensures QueriesHaveContents(Tree(m))
    ensures m.Tag? ==> !Asks(Tree(m)) && QueryIndex(Tree(m).attributes) == -1
    decreases m, 1
  {
    if m.Tag? {
      AllNothingAsked(m.children);
      forall a | a in Head(m).attributes ensures a.name != QUERY_ATTRIBUTE {
        NotTheQuery(m, a);
      }
      assert Tree(m).attributes == Head(m).attributes;
      assert forall c | c in TextNodes(m.text) :: c.Text?;
    }
    hide NoQuery, IsVoid, FieldAttributes, IdAttributes, ClassAttributes, Head;
  }

  lemma NotTheQuery(m: Markup, a: Attr<string>)
    requires m.Tag? && NoQuery(m) && a in Head(m).attributes
    ensures a.name != QUERY_ATTRIBUTE
  {
    assert "id"[0] != QUERY_ATTRIBUTE[0] && "class"[0] != QUERY_ATTRIBUTE[0];
    if a in FieldAttributes(m.fields) {
      var i :| 0 <= i < |m.fields| && FieldAttributes(m.fields)[i] == a;
      assert m.fields[i] in m.fields;
    }
  }

  lemma {:induction false} AllNothingAsked(ms: seq<Markup>)
    requires forall m | m in ms :: NoQuery(m)
    ensures forall c | c in Trees(ms) :: QueriesHaveContents(c)
    decreases ms, 0
  {
    if ms != [] {
      assert ms[0] in ms;
      NothingAsked(ms[0]);
      AllNothingAsked(ms[1..]);
    }
    hide NoQuery, Tree, QueriesHaveContents;
  }

  lemma TextsWithin<V>(text: string -> string, env: Scope<V>, w: World<V>, more: set<string>, names: set<string>)
    requires TextsOf(text, env, w, more) && names <= more
    ensures TextsOf(text, env, w, names)
  {}

  /** The names of an element's fields, text and children are its names. */
  lemma UsesParts(m: Markup)
    requires m.Tag?
    ensures forall f | f in m.fields :: ItemNames(f.value) <= Uses(Tree(m))
    ensures ItemNames(m.text) <= Uses(Tree(m))
    ensures forall c | c in Trees(m.children) :: Uses(c) <= Uses(Tree(m))
  {
    var t := Tree(m);
    forall f | f in m.fields ensures ItemNames(f.value) <= Uses(t) {
      var i :| 0 <= i < |m.fields| && m.fields[i] == f;
      var a := Attr(f.name, Mixed(Contents(f.value, '\0')));
      assert FieldAttributes(m.fields)[i] == a;
      assert a in t.attributes;
      hide ItemNames;
    }
    if m.text != [] {
      var c := TextNodes(m.text)[0];
      assert c == t.children[0] && c in t.children && Uses(c) == ItemNames(m.text);
    } else {
      assert ItemNames(m.text) == {};
    }
    assert forall c | c in Trees(m.children) :: c in t.children;
    hide ItemNames, IsVoid, IdAttributes, ClassAttributes, FieldAttributes;
  }

  /** The tree of a template without queries is rendered to its HTML. */
  lemma {:induction false} TreeWritten<V(!new)>(m: Markup, env: Scope<V>, w: World<V>, names: set<string>,
                                                text: string -> string)
    requires NoQuery(m) && Relational(w) && QueriesHaveContents(Tree(m)) && TextsOf(text, env, w, Uses(Tree(m)))
    ensures Lexical(Tree(m), env, w, names) == Some(Html(m, text))
    decreases m, 1
  {
    match m
    case Line(items) => ContentsWritten(items, env, w, text);
    case Tag(name, _, _, fields, items, children) =>
      var t := Tree(m);
      NothingAsked(m);
      UsesParts(m);
      forall f | f in fields ensures TextsOf(text, env, w, ItemNames(f.value)) {
        TextsWithin(text, env, w, Uses(t), ItemNames(f.value));
      }
      StartWritten(m, env, w, text);
      OpenTagOf(m, env, w);
      if !IsVoid(name) {
        TextsWithin(text, env, w, Uses(t), ItemNames(items));
        forall c | c in Trees(children) ensures TextsOf(text, env, w, Uses(c)) {
          TextsWithin(text, env, w, Uses(t), Uses(c));
        }
        TextWritten(items, env, w, names, text);
        TreesWritten(children, env, w, names, text);
        ChildrenWritten(m, env, w, names, text);
        PlainElement(t, env, w, names, ItemsHtml(items, text) + HtmlAll(children, text));
      }
      hide *;
      HtmlParts(m, text);
      TreeParts(m);
      if IsVoid(name) {
        VoidElement(t, env, w, names);
      }
  }

  lemma HtmlParts(m: Markup, text: string -> string)
    requires m.Tag?
    ensures Html(m, text)
            == if IsVoid(m.name) then StartTag(m, text)
               else
                 StartTag(m, text) + (ItemsHtml(m.text, text) + HtmlAll(m.children, text)) + "</" + m.name + ">"
  {}

  lemma TreeParts(m: Markup)
    requires m.Tag?
    ensures Tree(m).Element? && Tree(m).tag == m.name && Tree(m).isVoid == IsVoid(m.name)
    ensures Tree(m).children == TextNodes(m.text) + Trees(m.children)
  {
    hide IsVoid, TextNodes, Trees;
  }

  lemma OpenTagOf<V>(m: Markup, env: Scope<V>, w: World<V>)
    requires m.Tag?
    ensures OpenTag(Tree(m), env, w) == OpenTag(Head(m), env, w)
  {
    hide AttributesText, IsVoid;
  }

  lemma VoidElement<V(!new)>(n: Node<string>, env: Scope<V>, w: World<V>, names: set<string>)
    requires n.Element? && n.isVoid && QueriesHaveContents(n) && Relational(w)
    ensures Lexical(n, env, w, names) == Some(OpenTag(n, env, w))
  {
    hide OpenTag, QueriesHaveContents, Relational;
  }

  lemma PlainElement<V(!new)>(n: Node<string>, env: Scope<V>, w: World<V>, names: set<string>, inner: string)
    requires n.Element? && !n.isVoid && !Asks(n) && QueriesHaveContents(n) && Relational(w)
    requires LexicalAll(n.children, env, w, names) == Some(inner)
    ensures Lexical(n, env, w, names) == Some(OpenTag(n, env, w) + inner + "</" + n.tag + ">")
  {
    hide OpenTag, LexicalAll, Relational;
  }

  lemma TextWritten<V(!new)>(items: seq<Content<string>>, env: Scope<V>, w: World<V>, names: set<string>,
                             text: string -> string)
    requires Relational(w) && TextsOf(text, env, w, ItemNames(items))
    ensures (forall c | c in TextNodes(items) :: QueriesHaveContents(c))
    ensures LexicalAll(TextNodes(items), env, w, names) == Some(ItemsHtml(items, text))
  {
    ContentsWritten(items, env, w, text);
    if items != [] {
      OneLexical(Text(Contents(items, '\0')), env, w, names);
    }
    hide ContentsText, TextsOf, Relational, LexicalAll;
    if items == [] {
      NoneWritten(env, w, names);
    }
  }

  lemma NoneWritten<V(!new)>(env: Scope<V>, w: World<V>, names: set<string>)
    requires Relational(w)
    ensures LexicalAll([], env, w, names) == Some("")
  {}

  lemma {:induction false} TreesWritten<V(!new)>(ms: seq<Markup>, env: Scope<V>, w: World<V>, names: set<string>,
                                                 text: string -> string)
    requires (forall m | m in ms :: NoQuery(m)) && Relational(w)
    requires forall c | c in Trees(ms) :: QueriesHaveContents(c) && TextsOf(text, env, w, Uses(c))
    ensures LexicalAll(Trees(ms), env, w, names) == Some(HtmlAll(ms, text))
    decreases ms, 0
  {
    if ms == [] {
      NoneWritten(env, w, names);
    } else {
      assert ms[0] in ms;
      var first, others := Tree(ms[0]), Trees(ms[1..]);
      assert Trees(ms) == [first] + others;
      assert first in Trees(ms) && forall c | c in others :: c in Trees(ms);
      TreeWritten(ms[0], env, w, names, text);
      TreesWritten(ms[1..], env, w, names, text);
      hide NoQuery, Tree, Trees, QueriesHaveContents, TextsOf, Uses, Lexical, LexicalAll, Html;
      OneLexical(first, env, w, names);
      LexicalAppend([first], others, env, w, names);
    }
  }

  lemma ChildrenWritten<V(!new)>(m: Markup, env: Scope<V>, w: World<V>, names: set<string>, text: string -> string)
    requires m.Tag? && QueriesHaveContents(Tree(m)) && Relational(w)
    requires (forall c | c in TextNodes(m.text) :: QueriesHaveContents(c))
    requires (forall c | c in Trees(m.children) :: QueriesHaveContents(c))
    requires LexicalAll(TextNodes(m.text), env, w, names) == Some(ItemsHtml(m.text, text))
    requires LexicalAll(Trees(m.children), env, w, names) == Some(HtmlAll(m.children, text))
    ensures (forall c | c in Tree(m).children :: QueriesHaveContents(c))
    ensures LexicalAll(Tree(m).children, env, w, names) == Some(ItemsHtml(m.text, text) + HtmlAll(m.children, text))
  {
    TreeParts(m);
    assert forall c | c in TextNodes(m.text) + Trees(m.children) :: QueriesHaveContents(c);
    LexicalAppend(TextNodes(m.text), Trees(m.children), env, w, names);
    hide *;
  }

  // ----- from source text to page -----

  /** What an argument shows: the text of the last one of its name, escaped; or nothing. */
  function ArgumentHtml<V>(params: seq<(string, V)>, n: string, w: World<V>): string {
    if params == [] then ""
    else
      var p := params[|params| - 1];
      if p.0 == n then Escape(w.text(p.1)) else ArgumentHtml(params[..|params| - 1], n, w)
  }

  lemma {:induction false} ArgumentWritten<V>(params: seq<(string, V)>, names: set<string>, n: string, w: World<V>)
    requires n in names
    ensures ItemText(Name(n), Params(params, names), w) == ArgumentHtml(params, n, w)
  {
    if params != [] {
      ArgumentWritten(params[..|params| - 1], names, n, w);
    }
    hide Escape;
  }

  /** Without queries nothing is rebound, and every name is known. */
  lemma {:induction false} NoQueryIsKnown(m: Markup, known: set<string>, use: Use, cols: string -> seq<string>,
                                          names: set<string>)
    requires NoQuery(m) && QueriesHaveContents(Tree(m)) && Uses(Tree(m)) <= known
    ensures ReadsKnown(Tree(m), known, use, cols, names) && Rebinds(Tree(m), cols, names) == {}
    decreases m, 1
  {
    var t := Tree(m);
    NothingAsked(m);
    if m.Tag? {
      assert Reads(t, use) <= Uses(t);
      TreeParts(m);
      UsesParts(m);
      TextsKnown(m.text, known, use, cols, names);
      TreesKnown(m.children, known, use, cols, names);
      KnownAppend(TextNodes(m.text), Trees(m.children), known, use, cols, names);
      assert KnownInside(t, known, cols, names) == known && Binds(t, cols, names) == {};
      hide NoQuery, Tree, Trees, TextNodes, AllReadKnown, AllRebind, Uses, Reads;
    }
  }

  lemma TextsKnown(items: seq<Content<string>>, known: set<string>, use: Use, cols: string -> seq<string>,
                   names: set<string>)
    requires ItemNames(items) <= known
    ensures (forall c | c in TextNodes(items) :: QueriesHaveContents(c))
    ensures AllReadKnown(TextNodes(items), known, use, cols, names) && AllRebind(TextNodes(items), cols, names) == {}
  {
    if items != [] {
      var t := Text(Contents(items, '\0'));
      assert Reads(t, use) <= known;
      assert ReadsKnown(t, known, use, cols, names) && Rebinds(t, cols, names) == {};
      OneKnown(t, known, use, cols, names);
    }
    hide ItemNames;
  }

  lemma OneKnown(n: Node<string>, known: set<string>, use: Use, cols: string -> seq<string>, names: set<string>)
    requires QueriesHaveContents(n) && ReadsKnown(n, known, use, cols, names) && Rebinds(n, cols, names) == {}
    ensures AllReadKnown([n], known, use, cols, names) && AllRebind([n], cols, names) == {}
  {
    var none: seq<Node<string>> := [];
    assert [n][..0] == none;
    assert known - {} == known;
    hide ReadsKnown, Rebinds, QueriesHaveContents;
  }

  lemma {:induction false} KnownAppend(a: seq<Node<string>>, b: seq<Node<string>>, known: set<string>, use: Use,
                                       cols: string -> seq<string>, names: set<string>)
    requires (forall c | c in a :: QueriesHaveContents(c)) && forall c | c in b :: QueriesHaveContents(c)
    requires AllReadKnown(a, known, use, cols, names) && AllRebind(a, cols, names) == {}
    requires AllReadKnown(b, known, use, cols, names) && AllRebind(b, cols, names) == {}
    ensures forall c | c in a + b :: QueriesHaveContents(c)
    ensures AllReadKnown(a + b, known, use, cols, names) && AllRebind(a + b, cols, names) == {}
    decreases |b|
  {
    if b == [] {
      assert a + b == a;
    } else {
      var k := |b| - 1;
      assert (a + b)[..|a + b| - 1] == a + b[..k] && (a + b)[|a + b| - 1] == b[k];
      KnownAppend(a, b[..k], known, use, cols, names);
      hide ReadsKnown, Rebinds, QueriesHaveContents;
    }
  }

  lemma {:induction false} TreesKnown(ms: seq<Markup>, known: set<string>, use: Use, cols: string -> seq<string>,
                                      names: set<string>)
    requires forall m | m in ms :: NoQuery(m)
    requires forall c | c in Trees(ms) :: QueriesHaveContents(c) && Uses(c) <= known
    ensures AllReadKnown(Trees(ms), known, use, cols, names) && AllRebind(Trees(ms), cols, names) == {}
    decreases ms, 0
  {
    if ms != [] {
      assert ms[0] in ms;
      var first, others := Tree(ms[0]), Trees(ms[1..]);
      assert Trees(ms) == [first] + others;
      assert first in Trees(ms) && forall c | c in others :: c in Trees(ms);
      NoQueryIsKnown(ms[0], known, use, cols, names);
      TreesKnown(ms[1..], known, use, cols, names);
      OneKnown(first, known, use, cols, names);
      hide NoQuery, Tree, Trees, QueriesHaveContents, Uses, ReadsKnown, Rebinds, AllReadKnown, AllRebind;
      KnownAppend([first], others, known, use, cols, names);
    }
  }

  /**
   From what an author writes to the page: a well-formed template without queries, printed after any metadata,
   is compiled, its arguments are bound, and what is appended is the document type, the template's HTML
   with every name replaced by the escaped text of its argument, and a NUL.
   */
  method RenderPrinted<V(!new)>(metadata: string, gap: string, m: Markup, hash: string -> nat, w: World<V>,
                                params: seq<(string, V)>, to: StrBuf, ghost cols: string -> seq<string>)
    returns (ok: bool)
    requires WellFormed(m) && NoQuery(m) && NoDashes(metadata + "--") && forall i | 0 <= i < |gap| :: IsSpace(gap[i])
    requires NulFree(metadata + "---" + gap + Print(m, 0)) && |metadata + "---" + gap + Print(m, 0)| < 0x8000_0000
    requires Relational(w) && ColumnsBySql(w, cols) && to.Valid()
    requires forall p | p in params :: p.0 != "" && NulFree(p.0)
    modifies to.Repr
    ensures to.Valid() && fresh(to.Repr - old(to.Repr))
    ensures ok && to.Contents()
                  == old(to.Contents()) + ("<!DOCTYPE html>\n" + Html(m, n => ArgumentHtml(params, n, w)) + "\0")
  {
    TemplateRoundTrip(metadata, gap, m);
    PageWritten(m, w, params, cols);
    hide *;
    var st;
    st, ok := RenderFunction(metadata + "---" + gap + Print(m, 0), hash, w, params, to, cols);
  }

  lemma PageWritten<V(!new)>(m: Markup, w: World<V>, params: seq<(string, V)>, cols: string -> seq<string>)
    requires NoQuery(m) && Relational(w)
    ensures var t := Tree(m);
            && QueriesHaveContents(t) && Safe(t, Uses(t), cols, Uses(t))
            && Lexical(t, Params(params, Uses(t)), w, Uses(t)) == Some(Html(m, n => ArgumentHtml(params, n, w)))
    ensures Document(Html(m, n => ArgumentHtml(params, n, w)))
            == "<!DOCTYPE html>\n" + Html(m, n => ArgumentHtml(params, n, w)) + "\0"
  {
    var t, text := Tree(m), n => ArgumentHtml(params, n, w);
    NothingAsked(m);
    NoQueryIsKnown(m, Uses(t), Shown, cols, Uses(t));
    NoQueryIsKnown(m, Uses(t), Asked, cols, Uses(t));
    forall n | n in Uses(t) ensures text(n) == ItemText(Name(n), Params(params, Uses(t)), w) {
      ArgumentWritten(params, Uses(t), n, w);
    }
    TreeWritten(m, Params(params, Uses(t)), w, Uses(t), text);
    hide Html, Lexical, NoQuery, Tree, Uses, ReadsKnown, Params, ArgumentHtml;
  }

  // ----- pages in full -----

  /** A word of a template: letters and digits that mean nothing to the template language. */
  predicate Plain(s: string) {
    s != "" && forall c | c in s :: 'a' <= c <= 'z' || 'A' <= c <= 'Z'
  }

  lemma PlainToken(s: string, set_: Charset)
    requires Plain(s)
    ensures IsToken(s, set_)
  {
    assert forall i | 0 <= i < |s| :: s[i] in s;
  }

  lemma PlainItems(s: string)
    requires Plain(s)
    ensures NameOk(s) && LastConstOk(s) && '"' !in s && '\n' !in s && '{' !in s && Trimmed(s)
    ensures ItemsOk([Const(s)]) && ItemsOk([Name(s)])
    ensures PrintItems([Const(s)]) == s && PrintItems([Name(s)]) == "{{" + s + "}}"
  {
    assert s[0] in s && s[|s| - 1] in s;
    assert '{' !in s && IndexOf(s, '{') == -1;
    assert [Const(s)][1..] == [] && [Name(s)][1..] == [];
    assert "{{" + s + "}}" + "" == "{{" + s + "}}";
  }

  /** The words of a sample template. */
  datatype Words = Words(tag: string, id: string, a: string, b: string, field: string, value: string, name: string,
                         line: string)

  predicate AllPlain(p: Words) {
    && Plain(p.tag) && Plain(p.id) && Plain(p.a) && Plain(p.b)
    && Plain(p.field) && Plain(p.value) && Plain(p.name) && Plain(p.line)
  }

  function Sample(p: Words): Markup {
    Tag(p.tag, [p.id], [p.a, p.b], [Field(p.field, [Const(p.value)])], [Name(p.name)], [Line([Const(p.line)])])
  }

  /** What the author of the sample writes, character by character. */
  lemma SampleSource(p: Words)
    requires AllPlain(p)
    ensures WellFormed(Sample(p)) && NoQuery(Sample(p))
    ensures Print(Sample(p), 0)
            == p.tag + "#" + p.id + "." + p.a + "." + p.b + "(" + p.field + "=\"" + p.value + "\") {{" + p.name
               + "}}\n  | " + p.line
  {
    SampleWellFormed(p);
    PlainItems(p.value);
    PlainItems(p.name);
    PlainItems(p.line);
    hide Plain, NoQuery, WellFormed;
    SampleHead(p);
    SampleBelow(p.line);
    SamplePrint(p);
    hide *;
    SourceJoined(p.tag + "#" + p.id + "." + p.a + "." + p.b + "(" + p.field + "=\"" + p.value + "\") {{" + p.name,
                 p.line);
  }

  lemma SourceJoined(s: string, line: string)
    ensures s + "}}" + ("\n  | " + line) == s + "}}\n  | " + line
  {}

  lemma SamplePrint(p: Words)
    ensures Print(Sample(p), 0) == PrintHead(Sample(p)) + PrintBelow([Line([Const(p.line)])], 2)
  {
    var m := Sample(p);
    assert Print(m, 0) == "" + (PrintHead(m) + PrintBelow(m.children, 2));
    hide PrintHead, PrintBelow;
  }

  lemma SampleWellFormed(p: Words)
    requires AllPlain(p)
    ensures WellFormed(Sample(p)) && NoQuery(Sample(p))
  {
    PlainToken(p.tag, TagChars);
    PlainToken(p.id, TagChars);
    PlainToken(p.a, TagChars);
    PlainToken(p.b, TagChars);
    PlainToken(p.field, AttrChars);
    PlainItems(p.value);
    PlainItems(p.name);
    ReferenceLine(p.name);
    PlainLine(p.line);
    NotQueryName(p.field);
    hide IsToken, ItemsOk, PrintItems, Plain, NameOk, LastConstOk;
  }

  lemma PlainLine(line: string)
    requires Plain(line)
    ensures WellFormed(Line([Const(line)])) && NoQuery(Line([Const(line)]))
  {
    PlainItems(line);
    hide IsToken, ItemsOk, PrintItems, Plain;
  }

  lemma NotQueryName(name: string)
    requires Plain(name)
    ensures name != "m:q"
  {
    assert ':' !in name && "m:q"[1] in "m:q";
  }

  lemma ReferenceLine(name: string)
    requires Plain(name)
    ensures Trimmed("{{" + name + "}}") && '\n' !in "{{" + name + "}}"
  {
    PlainItems(name);
  }

  lemma SampleHead(p: Words)
    requires PrintItems([Const(p.value)]) == p.value && PrintItems([Name(p.name)]) == "{{" + p.name + "}}"
    ensures PrintHead(Sample(p))
            == p.tag + "#" + p.id + "." + p.a + "." + p.b + "(" + p.field + "=\"" + p.value + "\") {{" + p.name + "}}"
  {
    TwoClasses(p.a, p.b);
    OneField(Field(p.field, [Const(p.value)]));
    HeadOf(Sample(p));
    hide *;
    HeadJoined(p);
  }

  lemma HeadOf(m: Markup)
    requires m.Tag? && |m.id| == 1 && m.text != []
    ensures PrintHead(m)
            == m.name + ("#" + m.id[0] + PrintClasses(m.classes)) + PrintParens(m.fields) + (" " + PrintItems(m.text))
  {
    hide PrintItems, PrintClasses, PrintParens;
  }

  lemma TwoClasses(a: string, b: string)
    ensures PrintClasses([a, b]) == "." + a + ("." + b)
  {
    assert [a, b][1..] == [b] && [b][1..] == [];
    assert PrintClasses([b]) == "." + b + "";
  }

  lemma OneField(f: Field)
    ensures PrintParens([f]) == "(" + (f.name + "=\"" + PrintItems(f.value) + "\"" + ")")
  {
    hide PrintItems;
  }

  lemma HeadJoined(p: Words)
    ensures p.tag + ("#" + p.id + ("." + p.a + ("." + p.b))) + ("(" + (p.field + "=\"" + p.value + "\"" + ")"))
            + (" " + ("{{" + p.name + "}}"))
            == p.tag + "#" + p.id + "." + p.a + "." + p.b + "(" + p.field + "=\"" + p.value + "\") {{" + p.name + "}}"
  {}

  lemma SampleBelow(line: string)
    requires PrintItems([Const(line)]) == line
    ensures PrintBelow([Line([Const(line)])], 2) == "\n  | " + line
  {
    var ms := [Line([Const(line)])];
    assert ms[1..] == [];
    assert Spaces(2) == "  ";
    assert Print(ms[0], 2) == "  " + ("| " + line);
    hide Print, PrintItems;
    assert "\n" + ("  " + ("| " + line)) + "" == "\n  | " + line;
  }

  /**
   What is written for the sample, character by character: the id and the classes in attributes, one space
   between the classes, the text of the argument, the line in the element.
   */
  lemma SamplePage(p: Words, text: string -> string)
    ensures Html(Sample(p), text)
            == var start := "<" + p.tag + " id=\"" + p.id + "\" class=\"" + p.a + " " + p.b + "\" " + p.field + "=\""
                            + p.value + "\">";
               if IsVoid(p.tag) then start else start + (text(p.name) + p.line) + "</" + p.tag + ">"
  {
    var m := Sample(p);
    OneItem(Const(p.value), text);
    OneItem(Name(p.name), text);
    OneItem(Const(p.line), text);
    assert [p.a, p.b][1..] == [p.b];
    assert Joined([p.a, p.b]) == p.a + " " + p.b;
    assert m.fields[1..] == [];
    assert FieldsHtml(m.fields, text) == AttributeHtml(p.field, p.value) + "";
    assert m.children[1..] == [] && Html(m.children[0], text) == p.line;
    assert HtmlAll(m.children, text) == p.line + "";
    HtmlParts(m, text);
    hide Html, HtmlAll, ItemsHtml, Joined, FieldsHtml, IsVoid;
    StartJoined(p);
  }

  lemma StartJoined(p: Words)
    ensures "<" + p.tag + AttributeHtml("id", p.id) + AttributeHtml("class", p.a + " " + p.b)
            + (AttributeHtml(p.field, p.value) + "") + ">"
            == "<" + p.tag + " id=\"" + p.id + "\" class=\"" + p.a + " " + p.b + "\" " + p.field + "=\"" + p.value
               + "\">"
  {}

  // ----- a page with a query -----

  /** A list of what a query gives. */
  function ListOf(tag: string, query: string, item: string, name: string): Markup {
    Tag(tag, [], [], [Field("m:q", [Const(query)])], [], [Tag(item, [], [], [], [Name(name)], [])])
  }

  lemma ListSource(tag: string, query: string, item: string, name: string)
    requires Plain(tag) && Plain(query) && Plain(item) && Plain(name)
    ensures WellFormed(ListOf(tag, query, item, name))
    ensures Print(ListOf(tag, query, item, name), 0)
            == tag + "(m:q=\"" + query + "\")\n  " + item + " {{" + name + "}}"
  {
    ListWellFormed(tag, query, item, name);
    PlainItems(query);
    PlainItems(name);
    OneField(Field("m:q", [Const(query)]));
    ListPrint(tag, query, item, name);
    hide *;
    ListJoined(tag, query, item, name);
  }

  lemma ListWellFormed(tag: string, query: string, item: string, name: string)
    requires Plain(tag) && Plain(query) && Plain(item) && Plain(name)
    ensures WellFormed(ListOf(tag, query, item, name))
  {
    PlainToken(tag, TagChars);
    PlainToken(item, TagChars);
    QueryToken();
    PlainItems(query);
    PlainItems(name);
    ReferenceLine(name);
    hide IsToken, ItemsOk, PrintItems, Plain, NameOk, LastConstOk;
  }

  lemma QueryToken()
    ensures IsToken("m:q", AttrChars)
  {
    assert forall i | 0 <= i < 3 :: ValidChar(AttrChars, "m:q"[i], i == 0);
  }

  lemma ListPrint(tag: string, query: string, item: string, name: string)
    ensures Print(ListOf(tag, query, item, name), 0)
            == tag + PrintParens([Field("m:q", [Const(query)])])
               + ("\n" + ("  " + (item + (" " + PrintItems([Name(name)])))))
  {
    var m := ListOf(tag, query, item, name);
    var c := m.children[0];
    assert m.children[1..] == [] && Spaces(2) == "  ";
    assert PrintHead(c) == item + "" + "" + (" " + PrintItems([Name(name)])) by { hide PrintItems; }
    assert PrintHead(m) == tag + "" + PrintParens(m.fields) + "" by { hide PrintParens; }
    assert Print(c, 2) == "  " + (PrintHead(c) + "") by { hide PrintHead; }
    hide PrintHead, PrintItems, PrintParens;
    assert PrintBelow(m.children, 2) == "\n" + Print(c, 2) + "";
    assert Print(m, 0) == "" + (PrintHead(m) + PrintBelow(m.children, 2));
    hide Print, PrintBelow;
    ListPadding(tag, PrintParens(m.fields), item, " " + PrintItems([Name(name)]));
  }

  lemma ListPadding(tag: string, parens: string, item: string, text: string)
    ensures "" + (tag + "" + parens + "" + ("\n" + ("  " + (item + "" + "" + text + "")) + ""))
            == tag + parens + ("\n" + ("  " + (item + text)))
  {}

  lemma ListJoined(tag: string, query: string, item: string, name: string)
    ensures tag + ("(" + ("m:q" + "=\"" + query + "\"" + ")")) + ("\n" + ("  " + (item + (" " + ("{{" + name + "}}")))))
            == tag + "(m:q=\"" + query + "\")\n  " + item + " {{" + name + "}}"
  {}

  /** One item for each row, in order. */
  function ListHtml<V>(item: string, rows: seq<seq<V>>, w: World<V>): string
    requires forall r | r in rows :: |r| == 1
  {
    if rows == [] then ""
    else
      ListHtml(item, rows[..|rows| - 1], w)
      + ("<" + item + ">" + Escape(w.text(rows[|rows| - 1][0])) + "</" + item + ">")
  }

  /**
   What is written for it, character by character: the element around one item for each row of the answer to the
   query's text, up to 65536 of them, in their order and with the values escaped.
   */
  lemma ListPage<V(!new)>(tag: string, query: string, item: string, name: string, w: World<V>, env: Scope<V>,
                          rows: seq<seq<V>>)
    requires Relational(w) && w.db(query, []) == Rows([name], rows) && (forall r | r in rows :: |r| == 1)
    requires !IsVoid(tag) && !IsVoid(item) && query != ""
    ensures var t, shown := Tree(ListOf(tag, query, item, name)), if |rows| > 65536 then rows[..65536] else rows;
            && QueriesHaveContents(t)
            && Lexical(t, env, w, {name}) == Some("<" + tag + ">" + ListHtml(item, shown, w) + "</" + tag + ">")
  {
    var m := ListOf(tag, query, item, name);
    var t, c := Tree(m), Tree(m.children[0]);
    ListTree(tag, query, item, name);
    var shown := if |rows| > 65536 then rows[..65536] else rows;
    assert shown == Limited(rows);
    ListAsks(query, env, w);
    ListRows(item, name, w, env, shown);
    hide Limited, LexicalRows, RunQuery, Relational, Tree, ListHtml, IsVoid;
    ListStart(t, tag, query, env, w);
    hide OpenTag;
  }

  lemma ListTree(tag: string, query: string, item: string, name: string)
    requires !IsVoid(tag) && !IsVoid(item)
    ensures Tree(ListOf(tag, query, item, name))
            == Element(tag, [Attr("m:q", Mixed(Contents([Const(query)], '\0')))], [ItemNode(item, name)], false)
    ensures QueriesHaveContents(Tree(ListOf(tag, query, item, name))) && QueriesHaveContents(ItemNode(item, name))
  {
    var m := ListOf(tag, query, item, name);
    var c := m.children[0];
    assert m.children[1..] == [] && c.children == [];
    assert FieldAttributes(m.fields) == [Attr("m:q", Mixed(Contents([Const(query)], '\0')))];
    assert FieldAttributes([]) == [];
    hide IsVoid, FieldAttributes;
    assert Trees([]) == [];
    assert Head(c) == ItemNode(item, name);
    assert Tree(c) == ItemNode(item, name);
    assert Trees(m.children) == [Tree(c)] + Trees([]);
    hide Tree;
    TreeParts(m);
    TreeAttributes(m);
    ListCanBeRendered(tag, query, item, name);
  }

  lemma ListCanBeRendered(tag: string, query: string, item: string, name: string)
    ensures QueriesHaveContents(ItemNode(item, name))
    ensures QueriesHaveContents(
              Element(tag, [Attr("m:q", Mixed(Contents([Const(query)], '\0')))], [ItemNode(item, name)], false))
  {
    assert QueriesHaveContents(Text(Contents([Name(name)], '\0')));
    assert QueriesHaveContents(ItemNode(item, name));
  }

  lemma TreeAttributes(m: Markup)
    requires m.Tag?
    ensures Tree(m).Element? && Tree(m).attributes
                                == IdAttributes(m.id) + ClassAttributes(m.classes) + FieldAttributes(m.fields)
  {
    hide IsVoid, IdAttributes, ClassAttributes, FieldAttributes, Trees;
  }

  function ItemNode(item: string, name: string): Node<string> {
    Element(item, [], [Text(Contents([Name(name)], '\0'))], false)
  }

  lemma ListAsks<V>(query: string, env: Scope<V>, w: World<V>)
    ensures RunQuery(Contents([Const(query)], '\0'), env, w)
            == var r := w.db(query, []); if r.Failed? then None else Some(r)
  {
    var items: seq<Content<string>> := [Const(query)];
    assert items[..0] == [];
    assert QuerySql(items, '\0') == "" + "" + query == query;
    assert QueryArgs(items, env) == [];
  }

  lemma ListStart<V>(t: Node<string>, tag: string, query: string, env: Scope<V>, w: World<V>)
    requires t.Element? && t.tag == tag && t.attributes == [Attr("m:q", Mixed(Contents([Const(query)], '\0')))]
    ensures OpenTag(t, env, w) == "<" + tag + ">" && QueryIndex(t.attributes) == 0
  {
    assert t.attributes[..0] == [];
    assert AttributesText(t.attributes, env, w) == "" + "";
    assert "<" + tag + "" + ">" == "<" + tag + ">";
  }

  lemma {:induction false} ListRows<V(!new)>(item: string, name: string, w: World<V>, env: Scope<V>, rows: seq<seq<V>>)
    requires Relational(w) && QueriesHaveContents(ItemNode(item, name)) && forall r | r in rows :: |r| == 1
    ensures LexicalRows([ItemNode(item, name)], [name], rows, env, w, {name}) == Some(ListHtml(item, rows, w))
  {
    if rows != [] {
      var k := |rows| - 1;
      ListRows(item, name, w, env, rows[..k]);
      assert rows[k] in rows;
      RowBound(env, name, rows[k]);
      ItemWritten(item, name, w, env[name := Binding(rows[k][0], true)]);
      hide Relational, QueriesHaveContents, LexicalAll, BindRow, Escape;
    }
  }

  lemma RowBound<V>(env: Scope<V>, name: string, row: seq<V>)
    requires |row| == 1
    ensures BindRow(env, [name], row, {name}) == env[name := Binding(row[0], true)]
  {
    assert [name][..0] == [] && row[..0] == [];
  }

  lemma ItemWritten<V(!new)>(item: string, name: string, w: World<V>, env: Scope<V>)
    requires Relational(w) && QueriesHaveContents(ItemNode(item, name)) && name in env && env[name].escape
    ensures LexicalAll([ItemNode(item, name)], env, w, {name})
            == Some("<" + item + ">" + Escape(w.text(env[name].value)) + "</" + item + ">")
  {
    var t := Text(Contents([Name(name)], '\0'));
    var none: seq<Content<string>> := [];
    assert t.contents.items[..0] == none;
    assert ContentsText(t.contents.items, '\0', env, w) == "" + "" + Escape(w.text(env[name].value));
    assert AttributesText([], env, w) == "";
    assert "<" + item + "" + ">" == "<" + item + ">";
    hide Escape, ContentsText;
    assert Lexical(t, env, w, {name}) == Some("" + "" + Escape(w.text(env[name].value)));
    assert "" + "" + Escape(w.text(env[name].value)) == Escape(w.text(env[name].value));
    OneLexical(t, env, w, {name});
    var n := ItemNode(item, name);
    assert n.children == [t];
    assert OpenTag(n, env, w) == "<" + item + ">";
    assert !Asks(n);
    hide LexicalAll, OpenTag;
    PlainElement(n, env, w, {name}, Escape(w.text(env[name].value)));
    OneLexical(n, env, w, {name});
  }

  // ----- the end of both -----

  /** One argument: its text, escaped. */
  lemma OneArgument<V>(name: string, v: V, w: World<V>)
    ensures ArgumentHtml([(name, v)], name, w) == Escape(w.text(v))
  {}
}
