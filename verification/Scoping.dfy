/**
 The renderer has one scope, which query rows overwrite and nothing ever restores. For templates that read
 no name whose binding some other query or an earlier row may have overwritten, it renders what lexical
 scoping means.
 */
module Scoping {
  import opened Template
  import opened StringPools
  import opened StrBufs
  import opened RenderSpec

  // ----- names -----

  function ItemNames(items: seq<Content<string>>): set<string> {
    set c | c in items && c.Name? :: c.name
  }

  /** The names a template uses. */
  function Uses(n: Node<string>): set<string> {
    match n
    case Text(c) => ItemNames(c.items)
    case Element(_, attrs, children, _) =>
      (set a, x | a in attrs && a.value.Mixed? && x in ItemNames(a.value.contents.items) :: x)
      + (set c, x | c in children && x in Uses(c) :: x)
  }

  /** A name is read to be shown or to be an argument of a query. */
  datatype Use = Shown | Asked

  function ShownNames(attrs: seq<Attr<string>>): set<string> {
    set a, x | a in attrs && a.name != QUERY_ATTRIBUTE && a.value.Mixed? && x in ItemNames(a.value.contents.items) :: x
  }

  /** The element runs a query. */
  predicate Asks(n: Node<string>) {
    n.Element? && !n.isVoid && QueryIndex(n.attributes) != -1
  }

  function QueryOf(n: Node<string>): Contents<string>
    requires Asks(n) && QueriesHaveContents(n)
  {
    n.attributes[QueryIndex(n.attributes)].value.contents
  }

  /** The names a node reads itself, not counting its children. */
  function Reads(n: Node<string>, use: Use): set<string>
    requires QueriesHaveContents(n)
  {
    match use
    case Shown => if n.Text? then ItemNames(n.contents.items) else ShownNames(n.attributes)
    case Asked => if Asks(n) then ItemNames(QueryOf(n).items) else {}
  }

  /** The template names among the columns. */
  function Bound(columns: seq<string>, names: set<string>): set<string> {
    set c | c in columns && c in names
  }

  /** The names the query of an element binds. `cols` gives the columns of each SQL text. */
  function Binds(n: Node<string>, cols: string -> seq<string>, names: set<string>): set<string>
    requires QueriesHaveContents(n)
  {
    if Asks(n) then Bound(cols(QuerySql(QueryOf(n).items, QueryOf(n).separator)), names) else {}
  }

  // ----- the condition -----

  /** The names that some query in a node binds. */
  function Rebinds(n: Node<string>, cols: string -> seq<string>, names: set<string>): set<string>
    requires QueriesHaveContents(n)
    decreases n, 0, 0
  {
    match n
    case Text(_) => {}
    case Element(_, _, children, isVoid) =>
      if isVoid then {} else Binds(n, cols, names) + AllRebind(children, cols, names)
  }

  function AllRebind(ns: seq<Node<string>>, cols: string -> seq<string>, names: set<string>): set<string>
    requires forall c | c in ns :: QueriesHaveContents(c)
    decreases ns, 0, |ns|
  {
    if ns == [] then {}
    else AllRebind(ns[..|ns| - 1], cols, names) + Rebinds(ns[|ns| - 1], cols, names)
  }

  /**
   The names that still have their lexical binding when the children of an element are rendered: an earlier
   row may have overwritten what any of the children binds, but the row itself is bound anew.
   */
  function KnownInside(n: Node<string>, known: set<string>, cols: string -> seq<string>,
                       names: set<string>): set<string>
    requires n.Element? && QueriesHaveContents(n)
  {
    if Asks(n) then known - AllRebind(n.children, cols, names) + Binds(n, cols, names) else known
  }

  /** Every name read has its lexical binding, when the names in `known` have it before the node. */
  predicate ReadsKnown(n: Node<string>, known: set<string>, use: Use, cols: string -> seq<string>, names: set<string>)
    requires QueriesHaveContents(n)
    decreases n, 0, 0
  {
    && Reads(n, use) <= known
    && match n
       case Text(_) => true
       case Element(_, _, children, isVoid) =>
         isVoid || AllReadKnown(children, KnownInside(n, known, cols, names), use, cols, names)
  }

  /** Siblings run one after the other, and each may overwrite what it binds. */
  predicate AllReadKnown(ns: seq<Node<string>>, known: set<string>, use: Use, cols: string -> seq<string>,
                         names: set<string>)
    requires forall c | c in ns :: QueriesHaveContents(c)
    decreases ns, 0, |ns|
  {
    ns == [] ||
    var k := |ns| - 1;
    && AllReadKnown(ns[..k], known, use, cols, names)
    && ReadsKnown(ns[k], known - AllRebind(ns[..k], cols, names), use, cols, names)
  }

  /** No name is shown or asked for whose binding may be another than the lexical one. */
  predicate Safe(n: Node<string>, known: set<string>, cols: string -> seq<string>, names: set<string>)
    requires QueriesHaveContents(n)
  {
    ReadsKnown(n, known, Shown, cols, names) && ReadsKnown(n, known, Asked, cols, names)
  }

  predicate AllSafe(ns: seq<Node<string>>, known: set<string>, cols: string -> seq<string>, names: set<string>)
    requires forall c | c in ns :: QueriesHaveContents(c)
  {
    AllReadKnown(ns, known, Shown, cols, names) && AllReadKnown(ns, known, Asked, cols, names)
  }

  // ----- scopes that agree -----

  /** The columns of a query depend on its text only, not on the arguments. */
  ghost predicate ColumnsBySql<V(!new)>(w: World<V>, cols: string -> seq<string>) {
    forall sql, args :: w.db(sql, args).Rows? ==> w.db(sql, args).columns == cols(sql)
  }

  /** The scope has the lexical binding of every known name, or none when there is none. */
  ghost predicate Agree<V>(scope: Scope<V>, env: Scope<V>, known: set<string>) {
    forall x | x in known :: (x in scope <==> x in env) && (x in scope ==> scope[x] == env[x])
  }

  lemma ItemNamesSplit(items: seq<Content<string>>)
    requires items != []
    ensures ItemNames(items)
            == ItemNames(items[..|items| - 1]) + (if items[|items| - 1].Name? then {items[|items| - 1].name} else {})
  {
    var k := |items| - 1;
    assert items == items[..k] + [items[k]];
  }

  lemma {:induction false} ContentsAgree<V>(items: seq<Content<string>>, sep: char, scope: Scope<V>, env: Scope<V>,
                                            known: set<string>, w: World<V>)
    requires ItemNames(items) <= known && Agree(scope, env, known)
    ensures ContentsText(items, sep, scope, w) == ContentsText(items, sep, env, w)
  {
    if items != [] {
      ItemNamesSplit(items);
      ContentsAgree(items[..|items| - 1], sep, scope, env, known, w);
    }
  }

  lemma {:induction false} ArgsAgree<V>(items: seq<Content<string>>, scope: Scope<V>, env: Scope<V>, known: set<string>)
    requires ItemNames(items) <= known && Agree(scope, env, known)
    ensures AllBound(items, scope) <==> AllBound(items, env)
    ensures AllBound(items, scope) ==> QueryArgs(items, scope) == QueryArgs(items, env)
  {
    forall c | c in items && c.Name? ensures c.name in scope <==> c.name in env {
      assert c.name in ItemNames(items);
    }
    if items != [] && AllBound(items, scope) {
      ItemNamesSplit(items);
      ArgsAgree(items[..|items| - 1], scope, env, known);
    }
  }

  lemma QueryAgrees<V>(c: Contents<string>, scope: Scope<V>, env: Scope<V>, known: set<string>, w: World<V>)
    requires ItemNames(c.items) <= known && Agree(scope, env, known)
    ensures RunQuery(c, scope, w) == RunQuery(c, env, w)
  {
    ArgsAgree(c.items, scope, env, known);
  }

  lemma ShownNamesSplit(attrs: seq<Attr<string>>)
    requires attrs != []
    ensures ShownNames(attrs[..|attrs| - 1]) <= ShownNames(attrs)
    ensures var a := attrs[|attrs| - 1];
            a.name != QUERY_ATTRIBUTE && a.value.Mixed? ==> ItemNames(a.value.contents.items) <= ShownNames(attrs)
    ensures var a := attrs[|attrs| - 1];
            forall x | x in ShownNames(attrs) ::
              || x in ShownNames(attrs[..|attrs| - 1])
              || (a.name != QUERY_ATTRIBUTE && a.value.Mixed? && x in ItemNames(a.value.contents.items))
  {
    var k := |attrs| - 1;
    assert attrs == attrs[..k] + [attrs[k]];
    hide ItemNames;
  }

  lemma {:induction false} AttributesAgree<V>(attrs: seq<Attr<string>>, scope: Scope<V>, env: Scope<V>,
                                              known: set<string>, w: World<V>)
    requires ShownNames(attrs) <= known && Agree(scope, env, known)
    ensures AttributesText(attrs, scope, w) == AttributesText(attrs, env, w)
  {
    if attrs != [] {
      var a := attrs[|attrs| - 1];
      ShownNamesSplit(attrs);
      AttributesAgree(attrs[..|attrs| - 1], scope, env, known, w);
      if a.name != QUERY_ATTRIBUTE && a.value.Mixed? {
        ContentsAgree(a.value.contents.items, a.value.contents.separator, scope, env, known, w);
      }
    }
  }

  lemma AgreeUpdated<V>(scope: Scope<V>, env: Scope<V>, known: set<string>, c: string, b: Binding<V>)
    requires Agree(scope, env, known)
    ensures Agree(scope[c := b], env[c := b], known + {c})
    ensures c !in known ==> Agree(scope[c := b], env, known)
  {}

  lemma BoundSplit(columns: seq<string>, names: set<string>)
    requires columns != []
    ensures var k := |columns| - 1;
            Bound(columns, names) == Bound(columns[..k], names) + (if columns[k] in names then {columns[k]} else {})
  {
    var k := |columns| - 1;
    assert columns == columns[..k] + [columns[k]];
  }

  /** Binding the same row keeps scope and environment in agreement, on the row's names as well. */
  lemma {:induction false} BindAgrees<V>(scope: Scope<V>, env: Scope<V>, known: set<string>, columns: seq<string>,
                                         row: seq<V>, names: set<string>, pool: set<string>)
    requires Agree(scope, env, known) && |columns| == |row| && known <= names <= pool
    ensures Agree(BindRow(scope, columns, row, pool), BindRow(env, columns, row, names), known + Bound(columns, names))
  {
    hide Agree, Bound;
    if columns == [] {
      assert Bound([], names) == {} by { NoneBound(names); }
      assert known + {} == known;
    } else {
      var k := |columns| - 1;
      var c, b := columns[k], Binding(row[k], true);
      BindAgrees(scope, env, known, columns[..k], row[..k], names, pool);
      BoundSplit(columns, names);
      BoundWithin(columns[..k], names);
      var known' := known + Bound(columns[..k], names);
      AgreeUpdated(BindRow(scope, columns[..k], row[..k], pool), BindRow(env, columns[..k], row[..k], names), known',
                   c, b);
      assert known + Bound(columns, names) == if c in names then known' + {c} else known';
    }
  }

  lemma NoneBound(names: set<string>)
    ensures Bound([], names) == {}
  {}

  lemma BoundWithin(columns: seq<string>, names: set<string>)
    ensures Bound(columns, names) <= names
  {}

  /** What two outcomes of a node have in common: the text, and afterwards the known names. */
  ghost predicate Same<V>(flat: Option<Output<V>>, lex: Option<string>, env: Scope<V>, known: set<string>) {
    match (flat, lex)
    case (None, None) => true
    case (Some(o), Some(text)) => o.text == text && Agree(o.scope, env, known)
    case _ => false
  }

  predicate SameText<V>(flat: Option<Output<V>>, lex: Option<string>) {
    flat.Some? == lex.Some? && (flat.Some? ==> flat.value.text == lex.value)
  }

  // ----- rendering is lexical -----

  lemma SafeParts(n: Node<string>, known: set<string>, cols: string -> seq<string>, names: set<string>)
    requires QueriesHaveContents(n) && Safe(n, known, cols, names)
    ensures Reads(n, Shown) <= known && Reads(n, Asked) <= known
    ensures n.Element? && !n.isVoid ==> AllSafe(n.children, KnownInside(n, known, cols, names), cols, names)
  {
    assert ReadsKnown(n, known, Shown, cols, names) && ReadsKnown(n, known, Asked, cols, names);
  }

  lemma AllSafeParts(ns: seq<Node<string>>, known: set<string>, cols: string -> seq<string>, names: set<string>)
    requires ns != [] && (forall c | c in ns :: QueriesHaveContents(c)) && AllSafe(ns, known, cols, names)
    ensures AllSafe(ns[..|ns| - 1], known, cols, names)
    ensures Safe(ns[|ns| - 1], known - AllRebind(ns[..|ns| - 1], cols, names), cols, names)
  {
    assert AllReadKnown(ns, known, Shown, cols, names) && AllReadKnown(ns, known, Asked, cols, names);
  }

  /**
   The renderer refines lexical scoping, whatever names the template's pool holds besides the names that
   scoping is about.
   */
  lemma {:induction false} RenderIsLexical<V(!new)>(n: Node<string>, scope: Scope<V>, env: Scope<V>, known: set<string>,
                                                    w: World<V>, cols: string -> seq<string>, names: set<string>,
                                                    pool: set<string>)
    requires QueriesHaveContents(n) && Relational(w) && ColumnsBySql(w, cols) && known <= names <= pool
    requires Safe(n, known, cols, names) && Agree(scope, env, known)
    ensures Same(Render(n, scope, w, pool), Lexical(n, env, w, names), env, known - Rebinds(n, cols, names))
    decreases n, 0, 1
  {
    SafeParts(n, known, cols, names);
    if n.Text? {
      ContentsAgree(n.contents.items, n.contents.separator, scope, env, known, w);
    } else {
      AttributesAgree(n.attributes, scope, env, known, w);
      assert OpenTag(n, scope, w) == OpenTag(n, env, w);
      hide Render, Lexical, Safe, AllSafe, Reads, OpenTag, AttributesText, QueriesHaveContents;
      if n.isVoid {
        VoidSame(n, scope, env, known, w, names, pool);
      } else if Asks(n) {
        QueryIsLexical(n, scope, env, known, w, cols, names, pool);
        QuerySame(n, scope, env, known - Rebinds(n, cols, names), w, names, pool);
      } else {
        AllIsLexical(n.children, scope, env, known, w, cols, names, pool);
        PlainSame(n, scope, env, known - Rebinds(n, cols, names), w, names, pool);
      }
    }
  }

  lemma VoidSame<V(!new)>(n: Node<string>, scope: Scope<V>, env: Scope<V>, known: set<string>, w: World<V>,
                          names: set<string>, pool: set<string>)
    requires QueriesHaveContents(n) && Relational(w) && n.Element? && n.isVoid
    requires OpenTag(n, scope, w) == OpenTag(n, env, w) && Agree(scope, env, known)
    ensures Same(Render(n, scope, w, pool), Lexical(n, env, w, names), env, known)
  {
    hide Agree, OpenTag, QueriesHaveContents;
  }

  lemma PlainSame<V(!new)>(n: Node<string>, scope: Scope<V>, env: Scope<V>, after: set<string>, w: World<V>,
                           names: set<string>, pool: set<string>)
    requires QueriesHaveContents(n) && Relational(w) && n.Element? && !n.isVoid && !Asks(n)
    requires OpenTag(n, scope, w) == OpenTag(n, env, w)
    requires Same(RenderAll(n.children, scope, w, pool), LexicalAll(n.children, env, w, names), env, after)
    ensures Same(Render(n, scope, w, pool), Lexical(n, env, w, names), env, after)
  {
    hide RenderAll, LexicalAll, Agree, OpenTag, QueriesHaveContents;
  }

  lemma QuerySame<V(!new)>(n: Node<string>, scope: Scope<V>, env: Scope<V>, after: set<string>, w: World<V>,
                           names: set<string>, pool: set<string>)
    requires QueriesHaveContents(n) && Relational(w) && Asks(n)
    requires OpenTag(n, scope, w) == OpenTag(n, env, w)
    requires var q := RunQuery(QueryOf(n), scope, w);
             && RunQuery(QueryOf(n), env, w) == q
             && (q.Some? ==>
                   Same(RenderRows(n.children, q.value.columns, Limited(q.value.rows), scope, w, pool),
                        LexicalRows(n.children, q.value.columns, Limited(q.value.rows), env, w, names), env, after))
    ensures Same(Render(n, scope, w, pool), Lexical(n, env, w, names), env, after)
  {
    hide RenderRows, LexicalRows, RenderAll, LexicalAll, Agree, OpenTag, QueriesHaveContents, Limited;
  }

  lemma {:induction false} QueryIsLexical<V(!new)>(n: Node<string>, scope: Scope<V>, env: Scope<V>, known: set<string>,
                                                   w: World<V>, cols: string -> seq<string>, names: set<string>,
                                                   pool: set<string>)
    requires QueriesHaveContents(n) && Relational(w) && ColumnsBySql(w, cols) && known <= names <= pool
    requires Asks(n) && Reads(n, Asked) <= known && Agree(scope, env, known)
    requires AllSafe(n.children, KnownInside(n, known, cols, names), cols, names)
    ensures var q, p := RunQuery(QueryOf(n), scope, w), RunQuery(QueryOf(n), env, w);
            && p == q
            && (q.Some? ==>
                  Same(RenderRows(n.children, q.value.columns, Limited(q.value.rows), scope, w, pool),
                       LexicalRows(n.children, q.value.columns, Limited(q.value.rows), env, w, names),
                       env, known - Rebinds(n, cols, names)))
    decreases n, 0, 0
  {
    QueryAgrees(QueryOf(n), scope, env, known, w);
    var r := RunQuery(QueryOf(n), scope, w);
    if r.Some? {
      var outside := known - AllRebind(n.children, cols, names) - Binds(n, cols, names);
      assert KnownInside(n, known, cols, names) == outside + Bound(r.value.columns, names);
      assert outside == known - Rebinds(n, cols, names);
      hide AllSafe;
      RowsAreLexical(n.children, r.value.columns, Limited(r.value.rows), scope, env, outside, w, cols, names, pool);
    }
  }

  lemma {:induction false} AllIsLexical<V(!new)>(ns: seq<Node<string>>, scope: Scope<V>, env: Scope<V>,
                                                 known: set<string>, w: World<V>, cols: string -> seq<string>,
                                                 names: set<string>, pool: set<string>)
    requires (forall c | c in ns :: QueriesHaveContents(c)) && Relational(w) && ColumnsBySql(w, cols)
    requires known <= names <= pool
    requires AllSafe(ns, known, cols, names) && Agree(scope, env, known)
    ensures Same(RenderAll(ns, scope, w, pool), LexicalAll(ns, env, w, names), env, known - AllRebind(ns, cols, names))
    decreases ns, 0, |ns|
  {
    if ns != [] {
      var k := |ns| - 1;
      var later := known - AllRebind(ns[..k], cols, names);
      AllSafeParts(ns, known, cols, names);
      AllIsLexical(ns[..k], scope, env, known, w, cols, names, pool);
      var before := RenderAll(ns[..k], scope, w, pool);
      if before.Some? {
        RenderIsLexical(ns[k], before.value.scope, env, later, w, cols, names, pool);
      }
    }
  }

  /** `outside` are the names known around the element that no row and no child overwrites. */
  lemma {:induction false} RowsAreLexical<V(!new)>(ns: seq<Node<string>>, columns: seq<string>, rows: seq<seq<V>>,
                                                   scope: Scope<V>, env: Scope<V>, outside: set<string>, w: World<V>,
                                                   cols: string -> seq<string>, names: set<string>, pool: set<string>)
    requires (forall c | c in ns :: QueriesHaveContents(c)) && Relational(w) && ColumnsBySql(w, cols)
    requires outside <= names <= pool
    requires forall r | r in rows :: |r| == |columns|
    requires outside !! Bound(columns, names) && outside !! AllRebind(ns, cols, names)
    requires AllSafe(ns, outside + Bound(columns, names), cols, names) && Agree(scope, env, outside)
    ensures Same(RenderRows(ns, columns, rows, scope, w, pool), LexicalRows(ns, columns, rows, env, w, names), env,
                 outside)
    decreases ns, 1, |rows|
  {
    if rows != [] {
      var k := |rows| - 1;
      assert rows[k] in rows;
      RowsAreLexical(ns, columns, rows[..k], scope, env, outside, w, cols, names, pool);
      var before := RenderRows(ns, columns, rows[..k], scope, w, pool);
      if before.Some? {
        BindAgrees(before.value.scope, env, outside, columns, rows[k], names, pool);
        var env' := BindRow(env, columns, rows[k], names);
        var known := outside + Bound(columns, names);
        AllIsLexical(ns, BindRow(before.value.scope, columns, rows[k], pool), env', known, w, cols, names, pool);
        var after := RenderAll(ns, BindRow(before.value.scope, columns, rows[k], pool), w, pool);
        if after.Some? {
          BackOutside(after.value.scope, env, env', outside, known - AllRebind(ns, cols, names), columns, rows[k],
                      names);
        }
      }
    }
  }

  /** The row's names are not among those outside, so agreement with the row's environment is enough. */
  lemma BackOutside<V>(scope: Scope<V>, env: Scope<V>, env': Scope<V>, outside: set<string>, known: set<string>,
                       columns: seq<string>, row: seq<V>, names: set<string>)
    requires |columns| == |row| && env' == BindRow(env, columns, row, names) && outside !! Bound(columns, names)
    requires Agree(scope, env', known) && outside <= known
    ensures Agree(scope, env, outside)
  {
    forall x | x in outside
      ensures (x in scope <==> x in env) && (x in scope ==> scope[x] == env[x])
    {
      assert x !in Bound(columns, names);
    }
  }

  // ----- a simpler rule -----

  /**
   Names are used only where bound, `live` being the names bound around the node, and no query below
   rebinds a live name.
   */
  predicate WellScoped(n: Node<string>, live: set<string>, cols: string -> seq<string>, names: set<string>)
    requires QueriesHaveContents(n)
  {
    && Reads(n, Shown) <= live && Reads(n, Asked) <= live
    && Binds(n, cols, names) !! live
    && match n
       case Text(_) => true
       case Element(_, _, children, isVoid) =>
         isVoid || forall c | c in children :: WellScoped(c, live + Binds(n, cols, names), cols, names)
  }

  /** Templates that keep to this rule read known names only. */
  lemma {:induction false} WellScopedReadsKnown(n: Node<string>, live: set<string>, known: set<string>, use: Use,
                                                cols: string -> seq<string>, names: set<string>)
    requires QueriesHaveContents(n) && WellScoped(n, live, cols, names) && live <= known
    ensures ReadsKnown(n, known, use, cols, names) && Rebinds(n, cols, names) !! live
    decreases n, 0, 0
  {
    if n.Element? && !n.isVoid {
      var inner := live + Binds(n, cols, names);
      WellScopedAll(n.children, inner, inner, use, cols, names);
      assert inner <= KnownInside(n, known, cols, names);
      WellScopedAll(n.children, inner, KnownInside(n, known, cols, names), use, cols, names);
    }
  }

  lemma {:induction false} WellScopedAll(ns: seq<Node<string>>, live: set<string>, known: set<string>, use: Use,
                                         cols: string -> seq<string>, names: set<string>)
    requires forall c | c in ns :: QueriesHaveContents(c) && WellScoped(c, live, cols, names)
    requires live <= known
    ensures AllReadKnown(ns, known, use, cols, names) && AllRebind(ns, cols, names) !! live
    decreases ns, 0, |ns|
  {
    if ns != [] {
      var k := |ns| - 1;
      assert ns[k] in ns;
      WellScopedAll(ns[..k], live, known, use, cols, names);
      WellScopedReadsKnown(ns[k], live, known - AllRebind(ns[..k], cols, names), use, cols, names);
    }
  }

  // ----- without the condition -----

  /** An element whose query binds x, followed by a sibling that uses x. */
  const LEAKY_QUERY: Node<string> := Element("b", [Attr("m:q", Mixed(Contents([Const("q")], '\0')))], [], false)
  const LEAKY_USE: Node<string> := Text(Contents([Name("x")], '\0'))

  /**
   The last row's binding outlives its element: whatever x meant around it, the sibling shows the row's
   value. Lexical scoping shows the outer value, so the two differ unless the texts happen to agree.
   */
  lemma BindingsLeak<V(!new)>(w: World<V>, env: Scope<V>, v: V)
    requires Relational(w) && w.db("q", []) == Rows(["x"], [[v]])
    ensures QueriesHaveContents(LEAKY_QUERY) && QueriesHaveContents(LEAKY_USE)
    ensures var ns := [LEAKY_QUERY, LEAKY_USE];
            var flat, lex := RenderAll(ns, env, w, {"x"}), LexicalAll(ns, env, w, {"x"});
            && flat.Some? && flat.value.text == "<b></b>" + Escape(w.text(v))
            && lex == Some("<b></b>" + ItemText(Name("x"), env, w))
  {
    assert QueriesHaveContents(LEAKY_QUERY) && QueriesHaveContents(LEAKY_USE);
    var bound := env["x" := Binding(v, true)];
    LeakyQueryRendered(w, env, v);
    UseRendered(w, bound);
    UseRendered(w, env);
    assert ItemText(Name("x"), bound, w) == Escape(w.text(v));
    PairRendered(LEAKY_QUERY, LEAKY_USE, w, env, Output("<b></b>", bound), Output(ItemText(Name("x"), bound, w), bound),
                 "<b></b>", ItemText(Name("x"), env, w));
  }

  lemma PairRendered<V(!new)>(a: Node<string>, b: Node<string>, w: World<V>, env: Scope<V>, o: Output<V>, p: Output<V>,
                              s: string, t: string)
    requires Relational(w) && QueriesHaveContents(a) && QueriesHaveContents(b)
    requires Render(a, env, w, {"x"}) == Some(o) && Render(b, o.scope, w, {"x"}) == Some(p)
    requires Lexical(a, env, w, {"x"}) == Some(s) && Lexical(b, env, w, {"x"}) == Some(t)
    ensures RenderAll([a, b], env, w, {"x"}) == Some(Output(o.text + p.text, p.scope))
    ensures LexicalAll([a, b], env, w, {"x"}) == Some(s + t)
  {
    hide Render, Lexical, Relational, QueriesHaveContents;
    var one: seq<Node<string>>, none: seq<Node<string>> := [a], [];
    assert one[..0] == none && [a, b][..1] == one;
    assert "" + o.text == o.text && "" + s == s;
    assert RenderAll(one, env, w, {"x"}) == Some(o);
    assert LexicalAll(one, env, w, {"x"}) == Some(s);
  }

  lemma LeakyQueryRendered<V(!new)>(w: World<V>, env: Scope<V>, v: V)
    requires Relational(w) && w.db("q", []) == Rows(["x"], [[v]]) && QueriesHaveContents(LEAKY_QUERY)
    ensures Render(LEAKY_QUERY, env, w, {"x"}) == Some(Output("<b></b>", env["x" := Binding(v, true)]))
    ensures Lexical(LEAKY_QUERY, env, w, {"x"}) == Some("<b></b>")
  {
    var rows, columns := [[v]], ["x"];
    LeakyQueryParts(w, env, v);
    LeakyRow(w, env, v);
    assert Limited(rows) == rows;
    LeakyTags();
    hide RunQuery, OpenTag, RenderRows, LexicalRows, Relational, Limited, QueryIndex;
  }

  lemma LeakyTags()
    ensures "<b>" + "" + "</" + "b" + ">" == "<b></b>"
  {}

  lemma LeakyQueryParts<V>(w: World<V>, env: Scope<V>, v: V)
    requires w.db("q", []) == Rows(["x"], [[v]])
    ensures OpenTag(LEAKY_QUERY, env, w) == "<b>" && QueryIndex(LEAKY_QUERY.attributes) == 0
    ensures RunQuery(LEAKY_QUERY.attributes[0].value.contents, env, w) == Some(Rows(["x"], [[v]]))
  {
    var items := [Const("q")];
    assert items[..0] == [];
    assert QuerySql(items, '\0') == "q" && QueryArgs<V>(items, env) == [];
    var attrs := LEAKY_QUERY.attributes;
    assert attrs[..0] == [];
    assert AttributesText(attrs, env, w) == "";
  }

  lemma LeakyRow<V(!new)>(w: World<V>, env: Scope<V>, v: V)
    requires Relational(w)
    ensures RenderRows([], ["x"], [[v]], env, w, {"x"}) == Some(Output("", env["x" := Binding(v, true)]))
    ensures LexicalRows([], ["x"], [[v]], env, w, {"x"}) == Some("")
  {
    var ns: seq<Node<string>>, rows, columns := [], [[v]], ["x"];
    var none: seq<seq<V>>, bound := [], env["x" := Binding(v, true)];
    assert rows[..|rows| - 1] == none && columns[..0] == [] && rows[0][..0] == [];
    assert BindRow(env, columns, rows[|rows| - 1], {"x"}) == bound;
    assert RenderRows(ns, columns, none, env, w, {"x"}) == Some(Output("", env));
    assert RenderAll(ns, bound, w, {"x"}) == Some(Output("", bound));
    assert "" + "" == "";
    assert RenderRows(ns, columns, rows, env, w, {"x"}) == Some(Output("", bound));
    assert LexicalRows(ns, columns, rows, env, w, {"x"}) == Some("");
  }

  lemma UseRendered<V(!new)>(w: World<V>, env: Scope<V>)
    requires Relational(w) && QueriesHaveContents(LEAKY_USE)
    ensures Render(LEAKY_USE, env, w, {"x"}) == Some(Output(ItemText(Name("x"), env, w), env))
    ensures Lexical(LEAKY_USE, env, w, {"x"}) == Some(ItemText(Name("x"), env, w))
  {
    var items: seq<Content<string>> := [Name("x")];
    assert items[..0] == [];
    assert ContentsText(items, '\0', env, w) == ItemText(Name("x"), env, w);
  }
}
