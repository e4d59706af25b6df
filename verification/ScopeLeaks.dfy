/**
 The condition of Scoping is exact: where a template reads a name that is not known to have its lexical
 binding, there is a database with the same columns for which the one scope gives another text.
 */
module ScopeLeaks {
  import opened Template
  import opened StringPools
  import opened StrBufs
  import opened RenderSpec
  import opened Scoping

  // ----- a database that answers every query with two rows, or three -----

  datatype Letter = A | B | C

  function LetterText(v: Letter): (s: string)
    ensures |s| == 1 && EscapeChar(s[0]) == s
  {
    match v case A => "a" case B => "b" case C => "c"
  }

  function Repeat(v: Letter, n: nat): (r: seq<Letter>)
    ensures |r| == n && forall x | x in r :: x == v
  {
    seq(n, _ => v)
  }

  /** The argument at position p is the value of a last row. */
  predicate LastAt(args: seq<Letter>, p: nat) {
    p < |args| && args[p] == B
  }

  /** A row of A and a row of B, and another row of B if the argument at position p is B. */
  function Answer(columns: nat, third: bool): (rows: seq<seq<Letter>>)
    ensures forall r | r in rows :: |r| == columns
  {
    var two := [Repeat(A, columns), Repeat(B, columns)];
    if third then two + [Repeat(B, columns)] else two
  }

  function Letters(cols: string -> seq<string>, p: nat): World<Letter> {
    World((sql, args) => Rows(cols(sql), Answer(|cols(sql)|, LastAt(args, p))), v => LetterText(v))
  }

  /** Columns have names, which are C strings. */
  ghost predicate Named(cols: string -> seq<string>) {
    forall sql, c | c in cols(sql) :: c != "" && NulFree(c)
  }

  lemma LettersAnswer(cols: string -> seq<string>, p: nat)
    requires Named(cols)
    ensures Relational(Letters(cols, p)) && ColumnsBySql(Letters(cols, p), cols)
  {
    var w := Letters(cols, p);
    forall sql, args
      ensures w.db(sql, args) == Rows(cols(sql), Answer(|cols(sql)|, LastAt(args, p)))
      ensures forall r | r in w.db(sql, args).rows :: |r| == |w.db(sql, args).columns|
      ensures forall c | c in w.db(sql, args).columns :: c != "" && NulFree(c)
    {}
  }

  // ----- conditions on a template -----

  /** The queries ask only for names that are bound around them, `live` being those bound around the node. */
  predicate AsksBound(n: Node<string>, live: set<string>, cols: string -> seq<string>, names: set<string>)
    requires QueriesHaveContents(n)
  {
    && Reads(n, Asked) <= live
    && match n
       case Text(_) => true
       case Element(_, _, children, isVoid) =>
         isVoid || forall c | c in children :: AsksBound(c, live + Binds(n, cols, names), cols, names)
  }

  /** The queries ask only for names that are bound by then, around them or by an earlier query. */
  predicate AsksBoundByThen(n: Node<string>, bound: set<string>, cols: string -> seq<string>, names: set<string>)
    requires QueriesHaveContents(n)
    decreases n, 0, 0
  {
    && Reads(n, Asked) <= bound
    && match n
       case Text(_) => true
       case Element(_, _, children, isVoid) =>
         isVoid || AllAskBoundByThen(children, bound + Binds(n, cols, names), cols, names)
  }

  predicate AllAskBoundByThen(ns: seq<Node<string>>, bound: set<string>, cols: string -> seq<string>,
                              names: set<string>)
    requires forall c | c in ns :: QueriesHaveContents(c)
    decreases ns, 0, |ns|
  {
    ns == [] ||
    var k := |ns| - 1;
    && AllAskBoundByThen(ns[..k], bound, cols, names)
    && AsksBoundByThen(ns[k], bound + AllRebind(ns[..k], cols, names), cols, names)
  }

  /** A node that always shows something. */
  predicate Visible(n: Node<string>) {
    n.Element? || exists c | c in n.contents.items :: c.Const? && c.text != ""
  }

  predicate SomeVisible(ns: seq<Node<string>>) {
    exists c | c in ns :: Visible(c)
  }

  /** A query that asks for a name which is not known shows its rows: something is visible in the element. */
  predicate AnswersShow(n: Node<string>, known: set<string>, cols: string -> seq<string>, names: set<string>)
    requires QueriesHaveContents(n)
    decreases n, 0, 0
  {
    match n
    case Text(_) => true
    case Element(_, _, children, isVoid) =>
      isVoid ||
      (&& (Reads(n, Asked) <= known || SomeVisible(children))
       && AllAnswersShow(children, KnownInside(n, known, cols, names), cols, names))
  }

  predicate AllAnswersShow(ns: seq<Node<string>>, known: set<string>, cols: string -> seq<string>, names: set<string>)
    requires forall c | c in ns :: QueriesHaveContents(c)
    decreases ns, 0, |ns|
  {
    ns == [] ||
    var k := |ns| - 1;
    && AllAnswersShow(ns[..k], known, cols, names)
    && AnswersShow(ns[k], known - AllRebind(ns[..k], cols, names), cols, names)
  }

  // ----- which names are read after they may have been overwritten -----

  /** The last position that a name has among the arguments of a query. */
  function ArgumentAt(items: seq<Content<string>>, x: string): nat
    requires x in ItemNames(items)
  {
    var k := |items| - 1;
    ItemNamesSplit(items);
    if items[k] == Name(x) then NameCount(items[..k]) else ArgumentAt(items[..k], x)
  }

  /** A name that is read, how, and where among the arguments if it is asked for. */
  datatype Reading = Reading(use: Use, name: string, position: nat)

  /** The node itself reads it, in a way that shows. */
  predicate ReadHere(n: Node<string>, r: Reading)
    requires QueriesHaveContents(n)
  {
    && r.name in Reads(n, r.use)
    && (r.use.Asked? ==> SomeVisible(n.children) && r.position == ArgumentAt(QueryOf(n).items, r.name))
  }

  /** It is read somewhere after it may have been overwritten; `stale` says that it was before the node. */
  predicate ReadsStale(n: Node<string>, r: Reading, stale: bool, cols: string -> seq<string>, names: set<string>)
    requires QueriesHaveContents(n)
    decreases n, 0, 0
  {
    || (stale && ReadHere(n, r))
    || match n
       case Text(_) => false
       case Element(_, _, children, isVoid) =>
         && !isVoid
         && AllReadStale(children, r, StaleInside(n, r.name, stale, cols, names), cols, names)
  }

  predicate StaleInside(n: Node<string>, x: string, stale: bool, cols: string -> seq<string>, names: set<string>)
    requires n.Element? && QueriesHaveContents(n)
  {
    if Asks(n) then (stale || x in AllRebind(n.children, cols, names)) && x !in Binds(n, cols, names) else stale
  }

  predicate AllReadStale(ns: seq<Node<string>>, r: Reading, stale: bool, cols: string -> seq<string>,
                         names: set<string>)
    requires forall c | c in ns :: QueriesHaveContents(c)
    decreases ns, 0, |ns|
  {
    ns != [] &&
    var k := |ns| - 1;
    || AllReadStale(ns[..k], r, stale, cols, names)
    || ReadsStale(ns[k], r, stale || r.name in AllRebind(ns[..k], cols, names), cols, names)
  }

  predicate Unknown(x: string, known: set<string>) {
    x !in known
  }

  lemma UnknownHere(n: Node<string>, known: set<string>, use: Use, cols: string -> seq<string>, names: set<string>)
    returns (r: Reading)
    requires QueriesHaveContents(n) && !(Reads(n, use) <= known)
    requires use.Asked? ==> AnswersShow(n, known, cols, names)
    ensures r.use == use && ReadHere(n, r) && Unknown(r.name, known)
  {
    var x :| x in Reads(n, use) && x !in known;
    r := Reading(use, x, if use.Asked? then ArgumentAt(QueryOf(n).items, x) else 0);
  }

  /** When the condition of Scoping fails, it fails for some name. */
  lemma {:induction false} SomeNameStale(n: Node<string>, known: set<string>, use: Use, cols: string -> seq<string>,
                                         names: set<string>) returns (r: Reading)
    requires QueriesHaveContents(n) && !ReadsKnown(n, known, use, cols, names)
    requires use.Asked? ==> AnswersShow(n, known, cols, names)
    ensures r.use == use && ReadsStale(n, r, Unknown(r.name, known), cols, names)
    decreases n, 0, 0
  {
    if !(Reads(n, use) <= known) {
      r := UnknownHere(n, known, use, cols, names);
    } else {
      var inside := KnownInside(n, known, cols, names);
      r := SomeNameStaleAmong(n.children, inside, use, cols, names);
      assert StaleInside(n, r.name, Unknown(r.name, known), cols, names) == Unknown(r.name, inside);
    }
  }

  lemma {:induction false} SomeNameStaleAmong(ns: seq<Node<string>>, known: set<string>, use: Use,
                                              cols: string -> seq<string>, names: set<string>) returns (r: Reading)
    requires (forall c | c in ns :: QueriesHaveContents(c)) && !AllReadKnown(ns, known, use, cols, names)
    requires use.Asked? ==> AllAnswersShow(ns, known, cols, names)
    ensures r.use == use && AllReadStale(ns, r, Unknown(r.name, known), cols, names)
    decreases ns, 0, |ns|
  {
    var k := |ns| - 1;
    if !AllReadKnown(ns[..k], known, use, cols, names) {
      r := SomeNameStaleAmong(ns[..k], known, use, cols, names);
    } else {
      var later := known - AllRebind(ns[..k], cols, names);
      r := SomeNameStale(ns[k], later, use, cols, names);
      assert Unknown(r.name, later) == (Unknown(r.name, known) || r.name in AllRebind(ns[..k], cols, names));
    }
  }

  /** Such a name is used by the template. */
  lemma {:induction false} StaleIsUsed(n: Node<string>, r: Reading, stale: bool, cols: string -> seq<string>,
                                       names: set<string>)
    requires QueriesHaveContents(n) && ReadsStale(n, r, stale, cols, names)
    ensures r.name in Uses(n)
    decreases n, 0, 0
  {
    if !(stale && ReadHere(n, r)) {
      StaleIsUsedAmong(n.children, r, StaleInside(n, r.name, stale, cols, names), cols, names);
    } else if r.use.Asked? {
      assert n.attributes[QueryIndex(n.attributes)] in n.attributes;
    }
  }

  lemma {:induction false} StaleIsUsedAmong(ns: seq<Node<string>>, r: Reading, stale: bool, cols: string -> seq<string>,
                                            names: set<string>)
    requires (forall c | c in ns :: QueriesHaveContents(c)) && AllReadStale(ns, r, stale, cols, names)
    ensures exists c | c in ns :: r.name in Uses(c)
    decreases ns, 0, |ns|
  {
    var k := |ns| - 1;
    if AllReadStale(ns[..k], r, stale, cols, names) {
      StaleIsUsedAmong(ns[..k], r, stale, cols, names);
    } else {
      StaleIsUsed(ns[k], r, stale || r.name in AllRebind(ns[..k], cols, names), cols, names);
      assert ns[k] in ns;
    }
  }

  // ----- texts that are longer, and texts that differ -----

  /** The one scope has every binding that the environment has. */
  ghost predicate Wider(scope: Scope<Letter>, env: Scope<Letter>) {
    env.Keys <= scope.Keys
  }

  /** The scope holds the value of a last row. */
  predicate Last(scope: Scope<Letter>, x: string) {
    x in scope && scope[x].value == B
  }

  /** Parts that are as long as their counterparts: they give different texts if any of them differs. */
  lemma Parts(a: string, b: string, c: string, d: string)
    requires |a| >= |c| && |b| >= |d|
    ensures |a + b| >= |c + d|
    ensures a != c || b != d ==> a + b != c + d
  {
    if a + b == c + d {
      assert |a| == |c|;
      assert (a + b)[..|a|] == a && (c + d)[..|c|] == c;
      assert (a + b)[|a|..] == b && (c + d)[|c|..] == d;
    }
  }

  /** The texts of values are letters. */
  ghost predicate Lettered(w: World<Letter>) {
    forall v :: w.text(v) == LetterText(v)
  }

  lemma EscapedLetter(v: Letter, w: World<Letter>)
    requires Lettered(w)
    ensures Escape(w.text(v)) == w.text(v) == LetterText(v)
  {
    var s := LetterText(v);
    assert s[..0] == "" && s == [s[0]];
  }

  lemma ItemShown(c: Content<string>, scope: Scope<Letter>, env: Scope<Letter>, w: World<Letter>, x: string)
    requires Wider(scope, env) && Lettered(w)
    ensures |ItemText(c, scope, w)| >= |ItemText(c, env, w)|
    ensures c == Name(x) && Last(scope, x) && !Last(env, x) ==> ItemText(c, scope, w) != ItemText(c, env, w)
  {
    if c.Name? {
      if c.name in scope { EscapedLetter(scope[c.name].value, w); }
      if c.name in env { EscapedLetter(env[c.name].value, w); }
    }
  }

  lemma {:induction false} ContentsShown(items: seq<Content<string>>, sep: char, scope: Scope<Letter>,
                                         env: Scope<Letter>, w: World<Letter>, x: string)
    requires Wider(scope, env) && Lettered(w)
    ensures |ContentsText(items, sep, scope, w)| >= |ContentsText(items, sep, env, w)|
    ensures x in ItemNames(items) && Last(scope, x) && !Last(env, x) ==>
              ContentsText(items, sep, scope, w) != ContentsText(items, sep, env, w)
  {
    if items != [] {
      var k := |items| - 1;
      ItemNamesSplit(items);
      ContentsShown(items[..k], sep, scope, env, w, x);
      ItemShown(items[k], scope, env, w, x);
      hide *;
      var before, before' := ContentsText(items[..k], sep, scope, w), ContentsText(items[..k], sep, env, w);
      var s := SeparatorBefore(k, sep);
      Parts(before, s, before', s);
      Parts(before + s, ItemText(items[k], scope, w), before' + s, ItemText(items[k], env, w));
      LastItem(items, sep, scope, w);
      LastItem(items, sep, env, w);
    }
  }

  lemma LastItem<V>(items: seq<Content<string>>, sep: char, scope: Scope<V>, w: World<V>)
    requires items != []
    ensures var k := |items| - 1;
            ContentsText(items, sep, scope, w)
            == ContentsText(items[..k], sep, scope, w) + SeparatorBefore(k, sep) + ItemText(items[k], scope, w)
  {}

  lemma {:induction false} AttributesShown(attrs: seq<Attr<string>>, scope: Scope<Letter>, env: Scope<Letter>,
                                           w: World<Letter>, x: string)
    requires Wider(scope, env) && Lettered(w)
    ensures |AttributesText(attrs, scope, w)| >= |AttributesText(attrs, env, w)|
    ensures x in ShownNames(attrs) && Last(scope, x) && !Last(env, x) ==>
              AttributesText(attrs, scope, w) != AttributesText(attrs, env, w)
  {
    if attrs != [] {
      var a := attrs[|attrs| - 1];
      ShownNamesSplit(attrs);
      AttributesShown(attrs[..|attrs| - 1], scope, env, w, x);
      AttributeShown(a, scope, env, w, x);
      hide Wider, Last, ShownNames, ItemNames, AttributeText, Lettered;
      Parts(AttributesText(attrs[..|attrs| - 1], scope, w), AttributeText(a, scope, w),
            AttributesText(attrs[..|attrs| - 1], env, w), AttributeText(a, env, w));
    }
  }

  lemma AttributeShown(a: Attr<string>, scope: Scope<Letter>, env: Scope<Letter>, w: World<Letter>, x: string)
    requires Wider(scope, env) && Lettered(w)
    ensures |AttributeText(a, scope, w)| >= |AttributeText(a, env, w)|
    ensures a.name != QUERY_ATTRIBUTE && a.value.Mixed? && x in ItemNames(a.value.contents.items) ==>
              Last(scope, x) && !Last(env, x) ==> AttributeText(a, scope, w) != AttributeText(a, env, w)
  {
    if a.name != QUERY_ATTRIBUTE && a.value.Mixed? {
      var c := a.value.contents;
      ContentsShown(c.items, c.separator, scope, env, w, x);
      hide Wider, Last, ItemNames, ContentsText, Lettered;
      var before := " " + a.name + "=\"";
      var f, l := ContentsText(c.items, c.separator, scope, w), ContentsText(c.items, c.separator, env, w);
      Parts(before, f, before, l);
      Parts(before + f, "\"", before + l, "\"");
    }
  }

  lemma OpenTagShown(n: Node<string>, scope: Scope<Letter>, env: Scope<Letter>, w: World<Letter>, x: string)
    requires n.Element? && Wider(scope, env) && Lettered(w)
    ensures |OpenTag(n, scope, w)| >= |OpenTag(n, env, w)|
    ensures x in ShownNames(n.attributes) && Last(scope, x) && !Last(env, x) ==>
              OpenTag(n, scope, w) != OpenTag(n, env, w)
  {
    AttributesShown(n.attributes, scope, env, w, x);
    hide Wider, Last, ShownNames, AttributesText, Lettered;
    var f, l := AttributesText(n.attributes, scope, w), AttributesText(n.attributes, env, w);
    Parts("<" + n.tag, f, "<" + n.tag, l);
    Parts("<" + n.tag + f, ">", "<" + n.tag + l, ">");
  }

  lemma Enclosed(open: string, f: string, open': string, l: string, close: string)
    requires |open| >= |open'| && |f| >= |l|
    ensures |open + f + close| >= |open' + l + close|
    ensures open != open' || f != l ==> open + f + close != open' + l + close
  {
    Parts(open, f, open', l);
    Parts(open + f, close, open' + l, close);
  }

  // ----- something visible has a text -----

  lemma {:induction false} ConstShown(items: seq<Content<string>>, sep: char, scope: Scope<Letter>, w: World<Letter>)
    requires exists c | c in items :: c.Const? && c.text != ""
    ensures ContentsText(items, sep, scope, w) != ""
  {
    var k := |items| - 1;
    LastItem(items, sep, scope, w);
    if !(items[k].Const? && items[k].text != "") {
      assert items == items[..k] + [items[k]];
      ConstShown(items[..k], sep, scope, w);
    }
  }

  lemma VisibleShown(n: Node<string>, scope: Scope<Letter>, w: World<Letter>, pool: set<string>)
    requires QueriesHaveContents(n) && Relational(w) && Visible(n) && Render(n, scope, w, pool).Some?
    ensures Render(n, scope, w, pool).value.text != ""
  {
    if n.Text? {
      ConstShown(n.contents.items, n.contents.separator, scope, w);
    } else {
      assert OpenTag(n, scope, w) != "";
    }
    hide OpenTag, RenderAll, RenderRows, RunQuery, ContentsText, Relational, QueriesHaveContents;
  }

  lemma {:induction false} SomeShown(ns: seq<Node<string>>, scope: Scope<Letter>, w: World<Letter>, pool: set<string>)
    requires (forall c | c in ns :: QueriesHaveContents(c)) && Relational(w) && SomeVisible(ns)
    requires RenderAll(ns, scope, w, pool).Some?
    ensures RenderAll(ns, scope, w, pool).value.text != ""
  {
    var k := |ns| - 1;
    if Visible(ns[k]) {
      VisibleShown(ns[k], RenderAll(ns[..k], scope, w, pool).value.scope, w, pool);
    } else {
      assert ns == ns[..k] + [ns[k]];
      SomeShown(ns[..k], scope, w, pool);
    }
    hide Render, Relational, QueriesHaveContents, Visible;
  }

  // ----- rows -----

  lemma {:induction false} LastColumn(columns: seq<string>, x: string) returns (i: nat)
    requires x in columns
    ensures i < |columns| && columns[i] == x && forall j | i < j < |columns| :: columns[j] != x
  {
    var k := |columns| - 1;
    if columns[k] == x {
      i := k;
    } else {
      i := LastColumn(columns[..k], x);
    }
  }

  lemma BindLetters(scope: Scope<Letter>, columns: seq<string>, v: Letter, names: set<string>, x: string)
    requires x in Bound(columns, names)
    ensures var r := BindRow(scope, columns, Repeat(v, |columns|), names); x in r && r[x] == Binding(v, true)
  {
    var i := LastColumn(columns, x);
    assert Repeat(v, |columns|)[i] == v;
  }

  lemma MoreRows<V(!new)>(ns: seq<Node<string>>, columns: seq<string>, rows: seq<seq<V>>, row: seq<V>, scope: Scope<V>,
                          w: World<V>, pool: set<string>, o: Output<V>)
    requires (forall c | c in ns :: QueriesHaveContents(c)) && Relational(w)
    requires |row| == |columns| && forall r | r in rows :: |r| == |columns|
    requires RenderRows(ns, columns, rows, scope, w, pool) == Some(o)
    ensures RenderRows(ns, columns, rows + [row], scope, w, pool)
            == match RenderAll(ns, BindRow(o.scope, columns, row, pool), w, pool)
               case None => None
               case Some(last) => Some(Output(o.text + last.text, last.scope))
  {
    hide Relational, QueriesHaveContents, RenderAll, BindRow;
    assert (rows + [row])[..|rows|] == rows;
  }

  lemma MoreRowsLexical<V(!new)>(ns: seq<Node<string>>, columns: seq<string>, rows: seq<seq<V>>, row: seq<V>,
                                 env: Scope<V>, w: World<V>, names: set<string>, text: string)
    requires (forall c | c in ns :: QueriesHaveContents(c)) && Relational(w)
    requires |row| == |columns| && forall r | r in rows :: |r| == |columns|
    requires LexicalRows(ns, columns, rows, env, w, names) == Some(text)
    ensures LexicalRows(ns, columns, rows + [row], env, w, names)
            == match LexicalAll(ns, BindRow(env, columns, row, names), w, names)
               case None => None
               case Some(last) => Some(text + last)
  {
    hide Relational, QueriesHaveContents, LexicalAll, BindRow;
    assert (rows + [row])[..|rows|] == rows;
  }

  // ----- scopes around a node -----

  /** What a scope holds after these names have been bound to v and no others. */
  ghost predicate Rebound(after: Scope<Letter>, before: Scope<Letter>, v: Letter, bound: set<string>,
                          names: set<string>) {
    && before.Keys <= after.Keys
    && forall y | y in names ::
         if y in bound then y in after && after[y].value == v
         else (y in after <==> y in before) && (y in before ==> after[y] == before[y])
  }

  /** Every template name has its value in the environment, or that of a last row. */
  ghost predicate Catches(scope: Scope<Letter>, env: Scope<Letter>, names: set<string>) {
    forall y | y in names && y in env :: y in scope && (scope[y].value == env[y].value || scope[y].value == B)
  }

  ghost predicate Around(scope: Scope<Letter>, env: Scope<Letter>, live: set<string>, names: set<string>,
                         pool: set<string>) {
    live <= env.Keys && Wider(scope, env) && Catches(scope, env, names) && names <= pool
  }

  lemma AroundLater(after: Scope<Letter>, scope: Scope<Letter>, env: Scope<Letter>, bound: set<string>,
                    live: set<string>, names: set<string>, pool: set<string>)
    requires Around(scope, env, live, names, pool) && Rebound(after, scope, B, bound, names)
    ensures Around(after, env, live, names, pool)
  {}

  lemma ReboundTwice(after: Scope<Letter>, middle: Scope<Letter>, before: Scope<Letter>, a: set<string>, b: set<string>,
                     names: set<string>)
    requires Rebound(middle, before, B, a, names) && Rebound(after, middle, B, b, names)
    ensures Rebound(after, before, B, a + b, names)
  {}

  /** After the row of B nothing is left of the row of A. */
  lemma ReboundRows(scope: Scope<Letter>, sa: Scope<Letter>, first: Scope<Letter>, sb: Scope<Letter>,
                    second: Scope<Letter>, bound: set<string>, below: set<string>, names: set<string>)
    requires Rebound(sa, scope, A, bound, names) && Rebound(first, sa, B, below, names)
    requires Rebound(sb, first, B, bound, names) && Rebound(second, sb, B, below, names)
    ensures Rebound(second, scope, B, bound + below, names)
  {}

  function Columns(n: Node<string>, cols: string -> seq<string>): seq<string>
    requires Asks(n) && QueriesHaveContents(n)
  {
    cols(QuerySql(QueryOf(n).items, QueryOf(n).separator))
  }

  /** The scope with a row of the letter bound for the query of an element. */
  function RowScope(n: Node<string>, v: Letter, scope: Scope<Letter>, cols: string -> seq<string>,
                    names: set<string>): Scope<Letter>
    requires Asks(n) && QueriesHaveContents(n)
  {
    BindRow(scope, Columns(n, cols), Repeat(v, |Columns(n, cols)|), names)
  }

  lemma RowRebound(n: Node<string>, v: Letter, scope: Scope<Letter>, cols: string -> seq<string>, names: set<string>,
                   pool: set<string>)
    requires Asks(n) && QueriesHaveContents(n) && names <= pool
    ensures Rebound(RowScope(n, v, scope, cols, pool), scope, v, Binds(n, cols, names), names)
  {
    var columns, after := Columns(n, cols), RowScope(n, v, scope, cols, pool);
    hide QuerySql, QueriesHaveContents, Asks, QueryOf;
    forall y | y in names
      ensures if y in Bound(columns, names) then y in after && after[y].value == v
              else (y in after <==> y in scope) && (y in scope ==> after[y] == scope[y])
    {
      if y in Bound(columns, names) {
        assert y in Bound(columns, pool);
        BindLetters(scope, columns, v, pool, y);
      }
    }
  }

  /** Between the rows of an element: what the next row binds need not be caught. */
  ghost predicate BetweenRows(n: Node<string>, scope: Scope<Letter>, env: Scope<Letter>, live: set<string>,
                              cols: string -> seq<string>, names: set<string>, pool: set<string>)
    requires QueriesHaveContents(n)
  {
    live <= env.Keys && Wider(scope, env) && Catches(scope, env, names - Binds(n, cols, names)) && names <= pool
  }

  lemma RowAround(n: Node<string>, v: Letter, scope: Scope<Letter>, env: Scope<Letter>, live: set<string>,
                  cols: string -> seq<string>, names: set<string>, pool: set<string>)
    requires Asks(n) && QueriesHaveContents(n) && BetweenRows(n, scope, env, live, cols, names, pool)
    ensures Around(RowScope(n, v, scope, cols, pool), RowScope(n, v, env, cols, names), live + Binds(n, cols, names),
                   names, pool)
    ensures RowScope(n, v, env, cols, names).Keys == env.Keys + Binds(n, cols, names)
  {
    RowRebound(n, v, scope, cols, names, pool);
    RowRebound(n, v, env, cols, names, names);
    assert RowScope(n, v, env, cols, names).Keys == env.Keys + Bound(Columns(n, cols), names);
    hide QuerySql, QueriesHaveContents, Asks, QueryOf;
  }

  /** After a row it is so again. */
  lemma RowLeaves(n: Node<string>, v: Letter, scope: Scope<Letter>, o: Scope<Letter>, env: Scope<Letter>,
                  live: set<string>, cols: string -> seq<string>, below: set<string>, names: set<string>,
                  pool: set<string>)
    requires Asks(n) && QueriesHaveContents(n) && BetweenRows(n, scope, env, live, cols, names, pool)
    requires Rebound(RowScope(n, v, scope, cols, pool), scope, v, Binds(n, cols, names), names)
    requires Rebound(o, RowScope(n, v, scope, cols, pool), B, below, names)
    ensures BetweenRows(n, o, env, live, cols, names, pool)
  {
    hide QuerySql, QueriesHaveContents, Asks, QueryOf, RowScope, Binds;
  }

  // ----- the answers that the queries of the two renderings get -----

  /** The query gets three rows. */
  ghost predicate Thirds(n: Node<string>, scope: Scope<Letter>, p: nat)
    requires Asks(n) && QueriesHaveContents(n)
  {
    AllBound(QueryOf(n).items, scope) && LastAt(QueryArgs(QueryOf(n).items, scope), p)
  }

  lemma Answered(n: Node<string>, scope: Scope<Letter>, cols: string -> seq<string>, p: nat)
    requires Asks(n) && QueriesHaveContents(n) && Reads(n, Asked) <= scope.Keys
    ensures var rows := Answer(|Columns(n, cols)|, Thirds(n, scope, p));
            RunQuery(QueryOf(n), scope, Letters(cols, p)) == Some(Rows(Columns(n, cols), rows)) && Limited(rows) == rows
  {
    forall c | c in QueryOf(n).items && c.Name? ensures c.name in scope {
      assert c.name in Reads(n, Asked);
    }
    hide QuerySql, QueryArgs, QueriesHaveContents;
  }

  lemma {:induction false} ArgumentIs(items: seq<Content<string>>, x: string, scope: Scope<Letter>)
    requires x in ItemNames(items) && AllBound(items, scope)
    ensures x in scope && ArgumentAt(items, x) < NameCount(items)
    ensures QueryArgs(items, scope)[ArgumentAt(items, x)] == scope[x].value
  {
    var k := |items| - 1;
    ItemNamesSplit(items);
    if items[k] != Name(x) {
      ArgumentIs(items[..k], x, scope);
    }
  }

  lemma {:induction false} ArgumentsCaught(items: seq<Content<string>>, scope: Scope<Letter>, env: Scope<Letter>,
                                           names: set<string>, p: nat)
    requires AllBound(items, scope) && AllBound(items, env) && Catches(scope, env, names) && ItemNames(items) <= names
    ensures LastAt(QueryArgs(items, env), p) ==> LastAt(QueryArgs(items, scope), p)
  {
    if items != [] {
      ItemNamesSplit(items);
      ArgumentsCaught(items[..|items| - 1], scope, env, names, p);
    }
  }

  /** The one scope gets at least as many rows, and more when a stale name is asked for at position p. */
  lemma MoreThirds(n: Node<string>, scope: Scope<Letter>, env: Scope<Letter>, names: set<string>, p: nat)
    requires Asks(n) && QueriesHaveContents(n) && Reads(n, Asked) <= env.Keys && Reads(n, Asked) <= names
    requires Wider(scope, env) && Catches(scope, env, names)
    ensures Thirds(n, env, p) ==> Thirds(n, scope, p)
    ensures forall x | x in Reads(n, Asked) && p == ArgumentAt(QueryOf(n).items, x) && Last(scope, x)
              && !Last(env, x) ::
              Thirds(n, scope, p) && !Thirds(n, env, p)
  {
    var items := QueryOf(n).items;
    forall c | c in items && c.Name? ensures c.name in env && c.name in scope {
      assert c.name in Reads(n, Asked);
    }
    ArgumentsCaught(items, scope, env, names, p);
    forall x | x in Reads(n, Asked) && p == ArgumentAt(items, x) && Last(scope, x) && !Last(env, x)
      ensures Thirds(n, scope, p) && !Thirds(n, env, p)
    {
      ArgumentIs(items, x, scope);
      ArgumentIs(items, x, env);
    }
  }

  lemma CloseTag(s: string, tag: string)
    ensures s + "</" + tag + ">" == s + ("</" + tag + ">")
  {}

  lemma AnswerRendered<V(!new)>(n: Node<string>, scope: Scope<V>, w: World<V>, pool: set<string>,
                                answer: QueryResult<V>, o: Output<V>)
    requires Asks(n) && QueriesHaveContents(n) && Relational(w) && answer.Rows?
    requires RunQuery(QueryOf(n), scope, w) == Some(answer) && Limited(answer.rows) == answer.rows
    requires forall r | r in answer.rows :: |r| == |answer.columns|
    requires RenderRows(n.children, answer.columns, answer.rows, scope, w, pool) == Some(o)
    ensures Render(n, scope, w, pool) == Some(Output(OpenTag(n, scope, w) + o.text + ("</" + n.tag + ">"), o.scope))
  {
    hide RenderAll, RenderRows, Relational, QueriesHaveContents, OpenTag, RunQuery, Limited;
    CloseTag(OpenTag(n, scope, w) + o.text, n.tag);
  }

  lemma AnswerMeant<V(!new)>(n: Node<string>, env: Scope<V>, w: World<V>, names: set<string>, answer: QueryResult<V>,
                             text: string)
    requires Asks(n) && QueriesHaveContents(n) && Relational(w) && answer.Rows?
    requires RunQuery(QueryOf(n), env, w) == Some(answer) && Limited(answer.rows) == answer.rows
    requires forall r | r in answer.rows :: |r| == |answer.columns|
    requires LexicalRows(n.children, answer.columns, answer.rows, env, w, names) == Some(text)
    ensures Lexical(n, env, w, names) == Some(OpenTag(n, env, w) + text + ("</" + n.tag + ">"))
  {
    hide LexicalAll, LexicalRows, Relational, QueriesHaveContents, OpenTag, RunQuery, Limited;
    CloseTag(OpenTag(n, env, w) + text, n.tag);
  }

  lemma PlainRendered(n: Node<string>, scope: Scope<Letter>, env: Scope<Letter>, w: World<Letter>, names: set<string>,
                      pool: set<string>)
    requires QueriesHaveContents(n) && Relational(w) && n.Element? && !n.isVoid && !Asks(n)
    requires RenderAll(n.children, scope, w, pool).Some? && LexicalAll(n.children, env, w, names).Some?
    ensures var flat, lex := RenderAll(n.children, scope, w, pool).value, LexicalAll(n.children, env, w, names).value;
            var close := "</" + n.tag + ">";
            && Render(n, scope, w, pool) == Some(Output(OpenTag(n, scope, w) + flat.text + close, flat.scope))
            && Lexical(n, env, w, names) == Some(OpenTag(n, env, w) + lex + close)
  {
    hide RenderAll, LexicalAll, Relational, OpenTag;
    var flat, lex := RenderAll(n.children, scope, w, pool).value, LexicalAll(n.children, env, w, names).value;
    CloseTag(OpenTag(n, scope, w) + flat.text, n.tag);
    CloseTag(OpenTag(n, env, w) + lex, n.tag);
  }

  lemma OneRow<V(!new)>(ns: seq<Node<string>>, columns: seq<string>, row: seq<V>, scope: Scope<V>, w: World<V>,
                        pool: set<string>, first: Output<V>)
    requires (forall c | c in ns :: QueriesHaveContents(c)) && Relational(w) && |row| == |columns|
    requires RenderAll(ns, BindRow(scope, columns, row, pool), w, pool) == Some(first)
    ensures RenderRows(ns, columns, [row], scope, w, pool) == Some(first)
  {
    var none: seq<seq<V>> := [];
    NoRow(ns, columns, scope, w, pool);
    MoreRows(ns, columns, none, row, scope, w, pool, Output("", scope));
    assert "" + first.text == first.text && none + [row] == [row];
    hide *;
  }

  lemma NoRow<V(!new)>(ns: seq<Node<string>>, columns: seq<string>, scope: Scope<V>, w: World<V>, pool: set<string>)
    requires (forall c | c in ns :: QueriesHaveContents(c)) && Relational(w)
    ensures RenderRows(ns, columns, [], scope, w, pool) == Some(Output("", scope))
  {}

  /** The rows of an answer, rendered from what the rows of A, of B, and of B again give. */
  lemma RowsRendered(ns: seq<Node<string>>, columns: seq<string>, scope: Scope<Letter>, w: World<Letter>,
                     pool: set<string>, first: Output<Letter>, second: Output<Letter>, third: Output<Letter>)
    requires (forall c | c in ns :: QueriesHaveContents(c)) && Relational(w)
    requires RenderAll(ns, BindRow(scope, columns, Repeat(A, |columns|), pool), w, pool) == Some(first)
    requires RenderAll(ns, BindRow(first.scope, columns, Repeat(B, |columns|), pool), w, pool) == Some(second)
    requires RenderAll(ns, BindRow(second.scope, columns, Repeat(B, |columns|), pool), w, pool) == Some(third)
    ensures var two := Output(first.text + second.text, second.scope);
            && RenderRows(ns, columns, Answer(|columns|, false), scope, w, pool) == Some(two)
            && RenderRows(ns, columns, Answer(|columns|, true), scope, w, pool)
                == Some(Output(two.text + third.text, third.scope))
  {
    hide Relational, QueriesHaveContents, RenderAll, RenderRows, BindRow, Repeat;
    var a, b := Repeat(A, |columns|), Repeat(B, |columns|);
    OneRow(ns, columns, a, scope, w, pool, first);
    MoreRows(ns, columns, [a], b, scope, w, pool, first);
    assert [a] + [b] == [a, b];
    MoreRows(ns, columns, [a, b], b, scope, w, pool, Output(first.text + second.text, second.scope));
  }

  lemma RowsMeant(ns: seq<Node<string>>, columns: seq<string>, env: Scope<Letter>, w: World<Letter>, names: set<string>,
                  la: string, lb: string)
    requires (forall c | c in ns :: QueriesHaveContents(c)) && Relational(w)
    requires LexicalAll(ns, BindRow(env, columns, Repeat(A, |columns|), names), w, names) == Some(la)
    requires LexicalAll(ns, BindRow(env, columns, Repeat(B, |columns|), names), w, names) == Some(lb)
    ensures LexicalRows(ns, columns, Answer(|columns|, false), env, w, names) == Some(la + lb)
    ensures LexicalRows(ns, columns, Answer(|columns|, true), env, w, names) == Some(la + lb + lb)
  {
    hide Relational, QueriesHaveContents, LexicalAll, BindRow, Repeat;
    var a, b := Repeat(A, |columns|), Repeat(B, |columns|);
    var none: seq<seq<Letter>> := [];
    assert LexicalRows(ns, columns, none, env, w, names) == Some("");
    hide LexicalRows;
    MoreRowsLexical(ns, columns, none, a, env, w, names, "");
    assert "" + la == la && none + [a] == [a];
    MoreRowsLexical(ns, columns, [a], b, env, w, names, la);
    assert [a] + [b] == [a, b];
    MoreRowsLexical(ns, columns, [a, b], b, env, w, names, la + lb);
  }

  // ----- the one scope shows at least as much, and leaves the last row behind -----

  /** Both render, and the renderer gives at least as much text. */
  ghost predicate Longer(flat: Option<Output<Letter>>, lex: Option<string>) {
    flat.Some? && lex.Some? && |flat.value.text| >= |lex.value|
  }

  lemma {:induction false} Follows(n: Node<string>, scope: Scope<Letter>, env: Scope<Letter>, live: set<string>,
                                   cols: string -> seq<string>, p: nat, names: set<string>, pool: set<string>)
    requires QueriesHaveContents(n) && AsksBound(n, live, cols, names) && Uses(n) <= names
    requires Relational(Letters(cols, p)) && Around(scope, env, live, names, pool)
    ensures var flat := Render(n, scope, Letters(cols, p), pool);
            && Longer(flat, Lexical(n, env, Letters(cols, p), names))
            && Rebound(flat.value.scope, scope, B, Rebinds(n, cols, names), names)
    decreases n, 0, 3
  {
    var w := Letters(cols, p);
    if n.Text? {
      ContentsShown(n.contents.items, n.contents.separator, scope, env, w, "");
    } else if n.isVoid {
      OpenTagShown(n, scope, env, w, "");
    } else if Asks(n) {
      FollowsRows(n, scope, env, live, cols, p, names, pool);
    } else {
      OpenTagShown(n, scope, env, w, "");
      assert live + Binds(n, cols, names) == live;
      FollowsAll(n.children, scope, env, live, cols, p, names, pool);
      PlainRendered(n, scope, env, w, names, pool);
      hide Render, Lexical, OpenTag, Around, Relational, AsksBound;
      var flat, lex := RenderAll(n.children, scope, w, pool), LexicalAll(n.children, env, w, names);
      Enclosed(OpenTag(n, scope, w), flat.value.text, OpenTag(n, env, w), lex.value, "</" + n.tag + ">");
    }
  }

  lemma {:induction false} FollowsAll(ns: seq<Node<string>>, scope: Scope<Letter>, env: Scope<Letter>,
                                      live: set<string>, cols: string -> seq<string>, p: nat, names: set<string>,
                                      pool: set<string>)
    requires forall c | c in ns :: QueriesHaveContents(c) && AsksBound(c, live, cols, names) && Uses(c) <= names
    requires Relational(Letters(cols, p)) && Around(scope, env, live, names, pool)
    ensures var flat := RenderAll(ns, scope, Letters(cols, p), pool);
            && Longer(flat, LexicalAll(ns, env, Letters(cols, p), names))
            && Rebound(flat.value.scope, scope, B, AllRebind(ns, cols, names), names)
    decreases ns, 0, |ns|
  {
    if ns != [] {
      var w, k := Letters(cols, p), |ns| - 1;
      assert ns[k] in ns;
      FollowsAll(ns[..k], scope, env, live, cols, p, names, pool);
      var before := RenderAll(ns[..k], scope, w, pool).value;
      AroundLater(before.scope, scope, env, AllRebind(ns[..k], cols, names), live, names, pool);
      Follows(ns[k], before.scope, env, live, cols, p, names, pool);
      ReboundTwice(Render(ns[k], before.scope, w, pool).value.scope, before.scope, scope,
                   AllRebind(ns[..k], cols, names), Rebinds(ns[k], cols, names), names);
      hide Render, Lexical, AsksBound, Relational, QueriesHaveContents, Letters, Rebound, Around, Uses;
    }
  }

  /** One row. */
  lemma {:induction false} RowFollows(n: Node<string>, v: Letter, scope: Scope<Letter>, env: Scope<Letter>,
                                      live: set<string>, cols: string -> seq<string>, p: nat, names: set<string>,
                                      pool: set<string>)
    returns (o: Output<Letter>, l: string)
    requires Asks(n) && QueriesHaveContents(n) && AsksBound(n, live, cols, names) && Uses(n) <= names
    requires Relational(Letters(cols, p)) && BetweenRows(n, scope, env, live, cols, names, pool)
    ensures RenderAll(n.children, RowScope(n, v, scope, cols, pool), Letters(cols, p), pool) == Some(o)
    ensures LexicalAll(n.children, RowScope(n, v, env, cols, names), Letters(cols, p), names) == Some(l)
    ensures |o.text| >= |l| && BetweenRows(n, o.scope, env, live, cols, names, pool)
    ensures Rebound(RowScope(n, v, scope, cols, pool), scope, v, Binds(n, cols, names), names)
    ensures Rebound(o.scope, RowScope(n, v, scope, cols, pool), B, AllRebind(n.children, cols, names), names)
    decreases n, 0, 0
  {
    var inner, w := live + Binds(n, cols, names), Letters(cols, p);
    assert forall c | c in n.children :: QueriesHaveContents(c) && AsksBound(c, inner, cols, names) && Uses(c) <= names;
    hide QueriesHaveContents, AsksBound, RenderAll, LexicalAll, Relational, RowScope, Binds, Letters, AllRebind,
        Around, Rebound,
         Uses, BetweenRows;
    RowAround(n, v, scope, env, live, cols, names, pool);
    RowRebound(n, v, scope, cols, names, pool) by { AllInPool(n, scope, env, live, cols, names, pool); }
    FollowsAll(n.children, RowScope(n, v, scope, cols, pool), RowScope(n, v, env, cols, names), inner, cols, p, names,
               pool);
    o := RenderAll(n.children, RowScope(n, v, scope, cols, pool), w, pool).value;
    l := LexicalAll(n.children, RowScope(n, v, env, cols, names), w, names).value;
    RowLeaves(n, v, scope, o.scope, env, live, cols, AllRebind(n.children, cols, names), names, pool);
  }

  lemma AllInPool(n: Node<string>, scope: Scope<Letter>, env: Scope<Letter>, live: set<string>,
                  cols: string -> seq<string>, names: set<string>, pool: set<string>)
    requires QueriesHaveContents(n) && BetweenRows(n, scope, env, live, cols, names, pool)
    ensures names <= pool
  {}

  /** What the three rows give for the children of an element. */
  ghost predicate RowOutputs(n: Node<string>, scope: Scope<Letter>, env: Scope<Letter>, first: Output<Letter>,
                             second: Output<Letter>, third: Output<Letter>, la: string, lb: string,
                             cols: string -> seq<string>, p: nat, names: set<string>, pool: set<string>)
    requires Asks(n) && QueriesHaveContents(n) && Relational(Letters(cols, p))
  {
    && RenderAll(n.children, RowScope(n, A, scope, cols, pool), Letters(cols, p), pool) == Some(first)
    && RenderAll(n.children, RowScope(n, B, first.scope, cols, pool), Letters(cols, p), pool) == Some(second)
    && RenderAll(n.children, RowScope(n, B, second.scope, cols, pool), Letters(cols, p), pool) == Some(third)
    && LexicalAll(n.children, RowScope(n, A, env, cols, names), Letters(cols, p), names) == Some(la)
    && LexicalAll(n.children, RowScope(n, B, env, cols, names), Letters(cols, p), names) == Some(lb)
    && |first.text| >= |la| && |second.text| >= |lb| && |third.text| >= |lb|
  }

  lemma {:induction false} RowsFollow(n: Node<string>, scope: Scope<Letter>, env: Scope<Letter>, live: set<string>,
                                      cols: string -> seq<string>, p: nat, names: set<string>, pool: set<string>)
    returns (first: Output<Letter>, second: Output<Letter>, third: Output<Letter>, la: string, lb: string)
    requires Asks(n) && QueriesHaveContents(n) && AsksBound(n, live, cols, names) && Uses(n) <= names
    requires Relational(Letters(cols, p)) && BetweenRows(n, scope, env, live, cols, names, pool)
    ensures RowOutputs(n, scope, env, first, second, third, la, lb, cols, p, names, pool)
    ensures BetweenRows(n, first.scope, env, live, cols, names, pool)
    ensures Rebound(RowScope(n, A, scope, cols, pool), scope, A, Binds(n, cols, names), names)
    ensures Rebound(first.scope, RowScope(n, A, scope, cols, pool), B, AllRebind(n.children, cols, names), names)
    ensures Rebound(RowScope(n, B, first.scope, cols, pool), first.scope, B, Binds(n, cols, names), names)
    ensures Rebound(second.scope, scope, B, Binds(n, cols, names) + AllRebind(n.children, cols, names), names)
    ensures Rebound(third.scope, scope, B, Binds(n, cols, names) + AllRebind(n.children, cols, names), names)
    decreases n, 0, 1
  {
    var bound, below := Binds(n, cols, names), AllRebind(n.children, cols, names);
    hide *;
    var lc;
    first, la := RowFollows(n, A, scope, env, live, cols, p, names, pool);
    second, lb := RowFollows(n, B, first.scope, env, live, cols, p, names, pool);
    third, lc := RowFollows(n, B, second.scope, env, live, cols, p, names, pool);
    var sb, sc := RowScope(n, B, first.scope, cols, pool), RowScope(n, B, second.scope, cols, pool);
    ReboundRows(scope, RowScope(n, A, scope, cols, pool), first.scope, sb, second.scope, bound, below, names);
    ReboundTwice(third.scope, sc, second.scope, bound, below, names);
    ReboundTwice(third.scope, second.scope, scope, bound + below, bound + below, names);
    assert bound + below + (bound + below) == bound + below;
    RowOutputsAre(n, scope, env, first, second, third, la, lb, cols, p, names, pool);
  }

  lemma RowOutputsAre(n: Node<string>, scope: Scope<Letter>, env: Scope<Letter>, first: Output<Letter>,
                      second: Output<Letter>, third: Output<Letter>, la: string, lb: string,
                      cols: string -> seq<string>, p: nat, names: set<string>, pool: set<string>)
    requires Asks(n) && QueriesHaveContents(n) && Relational(Letters(cols, p))
    requires RenderAll(n.children, RowScope(n, A, scope, cols, pool), Letters(cols, p), pool) == Some(first)
    requires RenderAll(n.children, RowScope(n, B, first.scope, cols, pool), Letters(cols, p), pool) == Some(second)
    requires RenderAll(n.children, RowScope(n, B, second.scope, cols, pool), Letters(cols, p), pool) == Some(third)
    requires LexicalAll(n.children, RowScope(n, A, env, cols, names), Letters(cols, p), names) == Some(la)
    requires LexicalAll(n.children, RowScope(n, B, env, cols, names), Letters(cols, p), names) == Some(lb)
    requires |first.text| >= |la| && |second.text| >= |lb| && |third.text| >= |lb|
    ensures RowOutputs(n, scope, env, first, second, third, la, lb, cols, p, names, pool)
  {}

  /** The texts of two or three rows. */
  lemma RowTexts(a: string, b: string, c: string, la: string, lb: string, more: bool, lexMore: bool)
    requires |a| >= |la| && |b| >= |lb| && |c| >= |lb| && (lexMore ==> more)
    ensures var f, l := if more then a + b + c else a + b, if lexMore then la + lb + lb else la + lb;
            && |f| >= |l|
            && (a != la || b != lb || (more && !lexMore && c != "") ==> f != l)
  {
    Parts(a, b, la, lb);
    if lexMore {
      Parts(a + b, c, la + lb, lb);
    } else if more {
      Parts(a + b, c, la + lb, "");
      assert la + lb + "" == la + lb;
    }
  }

  /** The outcome of the renderer with three rows, or with two. */
  function Rendered(first: Output<Letter>, second: Output<Letter>, third: Output<Letter>, more: bool): Output<Letter> {
    if more then Output(first.text + second.text + third.text, third.scope)
    else Output(first.text + second.text, second.scope)
  }

  function Meant(la: string, lb: string, more: bool): string {
    if more then la + lb + lb else la + lb
  }

  lemma FlatFromRows(n: Node<string>, scope: Scope<Letter>, first: Output<Letter>, second: Output<Letter>,
                     third: Output<Letter>, cols: string -> seq<string>, p: nat, pool: set<string>)
    requires Asks(n) && QueriesHaveContents(n) && Relational(Letters(cols, p)) && Reads(n, Asked) <= scope.Keys
    requires RenderAll(n.children, RowScope(n, A, scope, cols, pool), Letters(cols, p), pool) == Some(first)
    requires RenderAll(n.children, RowScope(n, B, first.scope, cols, pool), Letters(cols, p), pool) == Some(second)
    requires RenderAll(n.children, RowScope(n, B, second.scope, cols, pool), Letters(cols, p), pool) == Some(third)
    ensures var w, o := Letters(cols, p), Rendered(first, second, third, Thirds(n, scope, p));
            Render(n, scope, w, pool) == Some(Output(OpenTag(n, scope, w) + o.text + ("</" + n.tag + ">"), o.scope))
  {
    var w, more := Letters(cols, p), Thirds(n, scope, p);
    Answered(n, scope, cols, p);
    RowsRendered(n.children, Columns(n, cols), scope, w, pool, first, second, third);
    hide Render, RenderAll, RenderRows, OpenTag, Relational, QueriesHaveContents, RowScope, Letters, Asks, Reads,
        RunQuery,
         Limited, Answer, Thirds, QueryOf, Columns;
    AnswerRendered(n, scope, w, pool, Rows(Columns(n, cols), Answer(|Columns(n, cols)|, more)),
                   Rendered(first, second, third, more));
  }

  lemma LexicalFromRows(n: Node<string>, env: Scope<Letter>, la: string, lb: string, cols: string -> seq<string>,
                        p: nat, names: set<string>)
    requires Asks(n) && QueriesHaveContents(n) && Relational(Letters(cols, p)) && Reads(n, Asked) <= env.Keys
    requires LexicalAll(n.children, RowScope(n, A, env, cols, names), Letters(cols, p), names) == Some(la)
    requires LexicalAll(n.children, RowScope(n, B, env, cols, names), Letters(cols, p), names) == Some(lb)
    ensures var w := Letters(cols, p);
            Lexical(n, env, w, names) == Some(OpenTag(n, env, w) + Meant(la, lb,
                                                                         Thirds(n, env, p)) + ("</" + n.tag + ">"))
  {
    var w, more := Letters(cols, p), Thirds(n, env, p);
    Answered(n, env, cols, p);
    RowsMeant(n.children, Columns(n, cols), env, w, names, la, lb);
    hide Lexical, LexicalAll, LexicalRows, OpenTag, Relational, QueriesHaveContents, RowScope, Letters, Asks, Reads,
        RunQuery,
         Limited, Answer, Thirds, QueryOf, Columns;
    AnswerMeant(n, env, w, names, Rows(Columns(n, cols), Answer(|Columns(n, cols)|, more)), Meant(la, lb, more));
  }

  /** The element from its rows: longer, and different if a row or the number of rows is. */
  lemma RowsEnclosed(n: Node<string>, scope: Scope<Letter>, env: Scope<Letter>, first: Output<Letter>,
                     second: Output<Letter>, third: Output<Letter>, la: string, lb: string, cols: string -> seq<string>,
                     p: nat, names: set<string>, pool: set<string>)
    requires Asks(n) && QueriesHaveContents(n) && Relational(Letters(cols, p)) && Wider(scope, env)
    requires Reads(n, Asked) <= env.Keys && (Thirds(n, env, p) ==> Thirds(n, scope, p))
    requires RowOutputs(n, scope, env, first, second, third, la, lb, cols, p, names, pool)
    ensures var w, flat := Letters(cols, p), Render(n, scope, Letters(cols, p), pool);
            && Longer(flat, Lexical(n, env, w, names))
            && flat.value.scope == (if Thirds(n, scope, p) then third.scope else second.scope)
            && (|| first.text != la || second.text != lb || OpenTag(n, scope, w) != OpenTag(n, env, w)
                || (Thirds(n, scope, p) && !Thirds(n, env, p) && third.text != "") ==>
                  flat.value.text != Lexical(n, env, w, names).value)
  {
    var w := Letters(cols, p);
    OpenTagShown(n, scope, env, w, "");
    FlatFromRows(n, scope, first, second, third, cols, p, pool);
    LexicalFromRows(n, env, la, lb, cols, p, names);
    RowTexts(first.text, second.text, third.text, la, lb, Thirds(n, scope, p), Thirds(n, env, p));
    hide Render, Lexical, RenderAll, LexicalAll, OpenTag, Relational, QueriesHaveContents, RowScope, Letters, Asks,
        Reads,
         Thirds, RowOutputs;
    Enclosed(OpenTag(n, scope, w), Rendered(first, second, third, Thirds(n, scope, p)).text,
             OpenTag(n, env, w), Meant(la, lb, Thirds(n, env, p)), "</" + n.tag + ">");
  }

  /** An element whose query gives its rows. */
  lemma {:induction false} FollowsRows(n: Node<string>, scope: Scope<Letter>, env: Scope<Letter>, live: set<string>,
                                       cols: string -> seq<string>, p: nat, names: set<string>, pool: set<string>)
    requires Asks(n) && QueriesHaveContents(n) && AsksBound(n, live, cols, names) && Uses(n) <= names
    requires Relational(Letters(cols, p)) && Around(scope, env, live, names, pool)
    ensures var flat := Render(n, scope, Letters(cols, p), pool);
            && Longer(flat, Lexical(n, env, Letters(cols, p), names))
            && Rebound(flat.value.scope, scope, B, Rebinds(n, cols, names), names)
    decreases n, 0, 2
  {
    AskingParts(n, scope, env, live, cols, names, pool);
    hide *;
    var first, second, third, la, lb := RowsFollow(n, scope, env, live, cols, p, names, pool);
    MoreThirds(n, scope, env, names, p);
    RowsEnclosed(n, scope, env, first, second, third, la, lb, cols, p, names, pool);
  }

  lemma AskingParts(n: Node<string>, scope: Scope<Letter>, env: Scope<Letter>, live: set<string>,
                    cols: string -> seq<string>, names: set<string>, pool: set<string>)
    requires Asks(n) && QueriesHaveContents(n) && AsksBound(n, live, cols, names) && Uses(n) <= names
    requires Around(scope, env, live, names, pool)
    ensures Reads(n, Asked) <= env.Keys && Reads(n, Asked) <= names && Wider(scope, env) && Catches(scope, env, names)
    ensures BetweenRows(n, scope, env, live, cols, names, pool)
    ensures Rebinds(n, cols, names) == Binds(n, cols, names) + AllRebind(n.children, cols, names)
  {
    assert n.attributes[QueryIndex(n.attributes)] in n.attributes;
  }

  // ----- the texts differ -----

  /** A name that is read after it may have been overwritten makes the texts differ. */
  lemma {:induction false} Differs(n: Node<string>, scope: Scope<Letter>, env: Scope<Letter>, live: set<string>,
                                   r: Reading, stale: bool, cols: string -> seq<string>, names: set<string>,
                                   pool: set<string>)
    requires QueriesHaveContents(n) && AsksBound(n, live, cols, names) && Uses(n) <= names && r.name in names
    requires Relational(Letters(cols, r.position)) && Around(scope, env, live, names, pool)
    requires ReadsStale(n, r, stale, cols, names) && (stale ==> Last(scope, r.name)) && !Last(env, r.name)
    ensures var w := Letters(cols, r.position);
            var flat, lex := Render(n, scope, w, pool), Lexical(n, env, w, names);
            Longer(flat, lex) && flat.value.text != lex.value
    decreases n, 0, 1
  {
    var w, p := Letters(cols, r.position), r.position;
    Follows(n, scope, env, live, cols, p, names, pool);
    if n.Text? {
      ContentsShown(n.contents.items, n.contents.separator, scope, env, w, r.name);
    } else if n.isVoid {
      OpenTagShown(n, scope, env, w, r.name);
    } else if Asks(n) {
      DiffersRows(n, scope, env, live, r, stale, cols, names, pool);
    } else {
      OpenTagShown(n, scope, env, w, r.name);
      assert live + Binds(n, cols, names) == live;
      FollowsAll(n.children, scope, env, live, cols, p, names, pool);
      if !(stale && ReadHere(n, r)) {
        DiffersAll(n.children, scope, env, live, r, stale, cols, names, pool);
      }
      PlainRendered(n, scope, env, w, names, pool);
      hide Render, Lexical, OpenTag, Around, Relational, AsksBound;
      var flat, lex := RenderAll(n.children, scope, w, pool), LexicalAll(n.children, env, w, names);
      Enclosed(OpenTag(n, scope, w), flat.value.text, OpenTag(n, env, w), lex.value, "</" + n.tag + ">");
    }
  }

  lemma {:induction false} DiffersAll(ns: seq<Node<string>>, scope: Scope<Letter>, env: Scope<Letter>,
                                      live: set<string>, r: Reading, stale: bool, cols: string -> seq<string>,
                                      names: set<string>, pool: set<string>)
    requires forall c | c in ns :: QueriesHaveContents(c) && AsksBound(c, live, cols, names) && Uses(c) <= names
    requires Relational(Letters(cols, r.position)) && Around(scope, env, live, names, pool) && r.name in names
    requires AllReadStale(ns, r, stale, cols, names) && (stale ==> Last(scope, r.name)) && !Last(env, r.name)
    ensures var w := Letters(cols, r.position);
            var flat, lex := RenderAll(ns, scope, w, pool), LexicalAll(ns, env, w, names);
            Longer(flat, lex) && flat.value.text != lex.value
    decreases ns, 0, |ns|
  {
    var w, p, k := Letters(cols, r.position), r.position, |ns| - 1;
    assert ns[k] in ns;
    FollowsAll(ns[..k], scope, env, live, cols, p, names, pool);
    var before, before' := RenderAll(ns[..k], scope, w, pool).value, LexicalAll(ns[..k], env, w, names).value;
    AroundLater(before.scope, scope, env, AllRebind(ns[..k], cols, names), live, names, pool);
    Follows(ns[k], before.scope, env, live, cols, p, names, pool);
    if AllReadStale(ns[..k], r, stale, cols, names) {
      DiffersAll(ns[..k], scope, env, live, r, stale, cols, names, pool);
    } else {
      Differs(ns[k], before.scope, env, live, r, stale || r.name in AllRebind(ns[..k], cols, names), cols, names, pool);
    }
    hide Render, Lexical, AsksBound, QueriesHaveContents, Relational, Letters, ReadsStale, AllReadStale, AllRebind,
        Uses;
    Parts(before.text, Render(ns[k], before.scope, w, pool).value.text, before', Lexical(ns[k], env, w, names).value);
  }

  /**
   With a query of its own: a stale name among its arguments gets it another row. What its rows bind is stale
   after a child has overwritten it, on the first row already; what they do not bind is stale on the second
   row, if any child overwrites it.
   */
  lemma {:induction false} DiffersRows(n: Node<string>, scope: Scope<Letter>, env: Scope<Letter>, live: set<string>,
                                       r: Reading, stale: bool, cols: string -> seq<string>, names: set<string>,
                                       pool: set<string>)
    requires Asks(n) && QueriesHaveContents(n) && AsksBound(n, live, cols, names) && Uses(n) <= names && r.name in names
    requires Relational(Letters(cols, r.position)) && Around(scope, env, live, names, pool)
    requires ReadsStale(n, r, stale, cols, names) && (stale ==> Last(scope, r.name)) && !Last(env, r.name)
    ensures var w := Letters(cols, r.position);
            var flat, lex := Render(n, scope, w, pool), Lexical(n, env, w, names);
            Longer(flat, lex) && flat.value.text != lex.value
    decreases n, 0, 0
  {
    var p, x, inner := r.position, r.name, live + Binds(n, cols, names);
    var inside := StaleInside(n, x, stale, cols, names);
    var bound, below := Binds(n, cols, names), AllRebind(n.children, cols, names);
    assert inside <==> (stale || x in below) && x !in bound;
    assert forall c | c in n.children :: QueriesHaveContents(c) && AsksBound(c, inner, cols, names) && Uses(c) <= names;
    var here := stale && ReadHere(n, r);
    assert here || AllReadStale(n.children, r, inside, cols, names);
    AskingParts(n, scope, env, live, cols, names, pool);
    hide QueriesHaveContents, AsksBound, Render, Lexical, RenderAll, LexicalAll, OpenTag, Relational, RowScope, Binds,
        Letters, Asks, Reads,
         ReadsStale, AllReadStale, AllRebind, ReadHere, Around, BetweenRows, Uses, RowOutputs, Thirds, StaleInside;
    var first, second, third, la, lb := RowsFollow(n, scope, env, live, cols, p, names, pool);
    MoreThirds(n, scope, env, names, p);
    if here {
      OutputTexts(n, scope, env, first, second, third, la, lb, cols, p, names, pool);
      ReadHereShows(n, scope, env, r, RowScope(n, B, second.scope, cols, pool), third, cols, names, pool);
    } else if x in bound {
      RowAround(n, A, scope, env, live, cols, names, pool);
      RowLast(n, A, env, x, cols, names);
      DiffersAll(n.children, RowScope(n, A, scope, cols, pool), RowScope(n, A, env, cols, names), inner, r, inside,
                 cols, names, pool);
      OutputTexts(n, scope, env, first, second, third, la, lb, cols, p, names, pool);
    } else {
      RowAround(n, B, first.scope, env, live, cols, names, pool);
      RowLast(n, B, env, x, cols, names);
      StillLast(scope, RowScope(n, A, scope, cols, pool), first.scope, RowScope(n, B, first.scope, cols, pool), x,
                bound, below, names);
      DiffersAll(n.children, RowScope(n, B, first.scope, cols, pool), RowScope(n, B, env, cols, names), inner, r,
                 inside, cols, names, pool);
      OutputTexts(n, scope, env, first, second, third, la, lb, cols, p, names, pool);
    }
    RowsEnclosed(n, scope, env, first, second, third, la, lb, cols, p, names, pool);
  }

  lemma OutputTexts(n: Node<string>, scope: Scope<Letter>, env: Scope<Letter>, first: Output<Letter>,
                    second: Output<Letter>, third: Output<Letter>, la: string, lb: string, cols: string -> seq<string>,
                    p: nat, names: set<string>, pool: set<string>)
    requires Asks(n) && QueriesHaveContents(n) && Relational(Letters(cols, p))
    requires RowOutputs(n, scope, env, first, second, third, la, lb, cols, p, names, pool)
    ensures RenderAll(n.children, RowScope(n, A, scope, cols, pool), Letters(cols, p), pool) == Some(first)
    ensures RenderAll(n.children, RowScope(n, B, first.scope, cols, pool), Letters(cols, p), pool) == Some(second)
    ensures RenderAll(n.children, RowScope(n, B, second.scope, cols, pool), Letters(cols, p), pool) == Some(third)
    ensures LexicalAll(n.children, RowScope(n, A, env, cols, names), Letters(cols, p), names) == Some(la)
    ensures LexicalAll(n.children, RowScope(n, B, env, cols, names), Letters(cols, p), names) == Some(lb)
  {}

  /** A stale name that the element reads itself is seen in its tag, or in a third row. */
  lemma ReadHereShows(n: Node<string>, scope: Scope<Letter>, env: Scope<Letter>, r: Reading, sc: Scope<Letter>,
                      third: Output<Letter>, cols: string -> seq<string>, names: set<string>, pool: set<string>)
    requires Asks(n) && QueriesHaveContents(n) && Relational(Letters(cols, r.position)) && ReadHere(n, r)
    requires Reads(n, Asked) <= env.Keys && Reads(n, Asked) <= names && Wider(scope, env) && Catches(scope, env, names)
    requires Last(scope, r.name) && !Last(env, r.name)
    requires RenderAll(n.children, sc, Letters(cols, r.position), pool) == Some(third)
    ensures var w := Letters(cols, r.position);
            || OpenTag(n, scope, w) != OpenTag(n, env, w)
            || (Thirds(n, scope, r.position) && !Thirds(n, env, r.position) && third.text != "")
  {
    var w := Letters(cols, r.position);
    if r.use.Shown? {
      OpenTagShown(n, scope, env, w, r.name);
    } else {
      MoreThirds(n, scope, env, names, r.position);
      SomeShown(n.children, sc, w, pool);
    }
    hide OpenTag, Thirds, RenderAll, Letters, QueryArgs, ArgumentAt;
  }

  /** The environment of a row: the row's value, or what the name had. */
  lemma RowLast(n: Node<string>, v: Letter, env: Scope<Letter>, x: string, cols: string -> seq<string>,
                names: set<string>)
    requires Asks(n) && QueriesHaveContents(n) && x in names
    ensures Last(RowScope(n, v, env, cols, names), x) <==> if x in Binds(n, cols, names) then v == B else Last(env, x)
  {
    RowRebound(n, v, env, cols, names, names);
    hide RowScope, Binds;
  }

  lemma StillLast(scope: Scope<Letter>, sa: Scope<Letter>, first: Scope<Letter>, sb: Scope<Letter>, x: string,
                  bound: set<string>, below: set<string>, names: set<string>)
    requires Rebound(sa, scope, A, bound, names) && Rebound(first, sa, B, below, names)
    requires Rebound(sb, first, B, bound, names)
    requires x in names && x !in bound
    ensures Last(scope, x) || x in below ==> Last(sb, x)
  {}

  // ----- names that are asked for and not bound -----

  /** A query that asks for a name which is not bound around it makes lexical rendering fail. */
  lemma {:induction false} LexicalFails(n: Node<string>, env: Scope<Letter>, cols: string -> seq<string>, p: nat,
                                        names: set<string>)
    requires QueriesHaveContents(n) && Relational(Letters(cols, p)) && !AsksBound(n, env.Keys, cols, names)
    ensures Lexical(n, env, Letters(cols, p), names) == None
    decreases n, 0, 1
  {
    var w := Letters(cols, p);
    if !(Reads(n, Asked) <= env.Keys) {
      var x :| x in Reads(n, Asked) && x !in env.Keys;
      assert !AllBound(QueryOf(n).items, env) by { NotBound(QueryOf(n).items, x, env); }
      hide LexicalAll, LexicalRows, OpenTag, Relational, Letters, QuerySql, QueryArgs;
    } else if Asks(n) {
      RowsFail(n, env, cols, p, names);
    } else {
      assert env.Keys + Binds(n, cols, names) == env.Keys;
      AllFail(n.children, env, cols, p, names);
      hide LexicalAll, LexicalRows, OpenTag, Relational, Letters, RunQuery, AsksBound;
    }
  }

  lemma NotBound<V>(items: seq<Content<string>>, x: string, scope: Scope<V>)
    requires x in ItemNames(items) && x !in scope
    ensures !AllBound(items, scope)
  {}

  lemma {:induction false} AllFail(ns: seq<Node<string>>, env: Scope<Letter>, cols: string -> seq<string>, p: nat,
                                   names: set<string>)
    requires (forall c | c in ns :: QueriesHaveContents(c)) && Relational(Letters(cols, p))
    requires exists c | c in ns :: !AsksBound(c, env.Keys, cols, names)
    ensures LexicalAll(ns, env, Letters(cols, p), names) == None
    decreases ns, 0, |ns|
  {
    var k := |ns| - 1;
    assert ns == ns[..k] + [ns[k]];
    if !AsksBound(ns[k], env.Keys, cols, names) {
      LexicalFails(ns[k], env, cols, p, names);
    } else {
      AllFail(ns[..k], env, cols, p, names);
    }
    hide Lexical, Relational, QueriesHaveContents, AsksBound, Letters;
  }

  lemma {:induction false} RowsFail(n: Node<string>, env: Scope<Letter>, cols: string -> seq<string>, p: nat,
                                    names: set<string>)
    requires QueriesHaveContents(n) && Relational(Letters(cols, p)) && Asks(n) && Reads(n, Asked) <= env.Keys
    requires !AsksBound(n, env.Keys, cols, names)
    ensures Lexical(n, env, Letters(cols, p), names) == None
    decreases n, 0, 0
  {
    var w, columns := Letters(cols, p), Columns(n, cols);
    var ea := RowScope(n, A, env, cols, names);
    assert ea.Keys == env.Keys + Binds(n, cols, names);
    AllFail(n.children, ea, cols, p, names);
    Answered(n, env, cols, p);
    FirstRowFails(n.children, columns, env, w, names, Thirds(n, env, p));
    hide LexicalAll, LexicalRows, OpenTag, Relational, Letters, RunQuery, AsksBound, RowScope, Answer, Thirds, Limited;
  }

  lemma FirstRowFails(ns: seq<Node<string>>, columns: seq<string>, env: Scope<Letter>, w: World<Letter>,
                      names: set<string>, third: bool)
    requires (forall c | c in ns :: QueriesHaveContents(c)) && Relational(w)
    requires LexicalAll(ns, BindRow(env, columns, Repeat(A, |columns|), names), w, names) == None
    ensures LexicalRows(ns, columns, Answer(|columns|, third), env, w, names) == None
  {
    hide Relational, QueriesHaveContents, LexicalAll, BindRow, Repeat;
    var a, b := Repeat(A, |columns|), Repeat(B, |columns|);
    assert [a, b, b][..2] == [a, b] && [a, b][..1] == [a];
    assert LexicalRows(ns, columns, [a], env, w, names) == None;
    assert LexicalRows(ns, columns, [a, b], env, w, names) == None;
    assert [a, b] + [b] == [a, b, b];
  }

  /** The renderer does not fail while its queries ask for what is bound by then. */
  lemma {:induction false} FlatRenders(n: Node<string>, scope: Scope<Letter>, bound: set<string>,
                                       cols: string -> seq<string>, p: nat, names: set<string>, pool: set<string>)
    requires QueriesHaveContents(n) && Relational(Letters(cols, p)) && names <= pool
    requires AsksBoundByThen(n, bound, cols, names) && bound <= scope.Keys
    ensures var flat := Render(n, scope, Letters(cols, p), pool);
            flat.Some? && scope.Keys + Rebinds(n, cols, names) <= flat.value.scope.Keys
    decreases n, 0, 1
  {
    if n.Element? && !n.isVoid {
      if Asks(n) {
        RowsRender(n, scope, bound, cols, p, names, pool);
      } else {
        assert bound + Binds(n, cols, names) == bound;
        AllRender(n.children, scope, bound, cols, p, names, pool);
      }
    }
    hide RenderAll, RenderRows, OpenTag, Relational, Letters, RunQuery, AsksBoundByThen, ContentsText;
  }

  lemma {:induction false} AllRender(ns: seq<Node<string>>, scope: Scope<Letter>, bound: set<string>,
                                     cols: string -> seq<string>, p: nat, names: set<string>, pool: set<string>)
    requires (forall c | c in ns :: QueriesHaveContents(c)) && Relational(Letters(cols, p)) && names <= pool
    requires AllAskBoundByThen(ns, bound, cols, names) && bound <= scope.Keys
    ensures var flat := RenderAll(ns, scope, Letters(cols, p), pool);
            flat.Some? && scope.Keys + AllRebind(ns, cols, names) <= flat.value.scope.Keys
    decreases ns, 0, |ns|
  {
    if ns != [] {
      var k := |ns| - 1;
      AllRender(ns[..k], scope, bound, cols, p, names, pool);
      var before := RenderAll(ns[..k], scope, Letters(cols, p), pool).value;
      FlatRenders(ns[k], before.scope, bound + AllRebind(ns[..k], cols, names), cols, p, names, pool);
      hide Render, Relational, Letters, AsksBoundByThen, QueriesHaveContents;
    }
  }

  lemma {:induction false} RowsRender(n: Node<string>, scope: Scope<Letter>, bound: set<string>,
                                      cols: string -> seq<string>, p: nat, names: set<string>, pool: set<string>)
    requires QueriesHaveContents(n) && Relational(Letters(cols, p)) && names <= pool && Asks(n)
    requires AsksBoundByThen(n, bound, cols, names) && bound <= scope.Keys
    ensures var flat := Render(n, scope, Letters(cols, p), pool);
            flat.Some? && scope.Keys + Rebinds(n, cols, names) <= flat.value.scope.Keys
    decreases n, 0, 0
  {
    var w, inner := Letters(cols, p), bound + Binds(n, cols, names);
    var below := AllRebind(n.children, cols, names);
    assert AllAskBoundByThen(n.children, inner, cols, names) && Reads(n, Asked) <= scope.Keys;
    assert Rebinds(n, cols, names) == Binds(n, cols, names) + below;
    hide AsksBoundByThen, AllAskBoundByThen, Render, RenderAll, Relational, Letters, Reads, RowScope, Binds, AllRebind,
        Rebinds, Thirds;
    var sa := RowKeys(n, A, scope, cols, names, pool);
    AllRender(n.children, sa, inner, cols, p, names, pool);
    var first := RenderAll(n.children, sa, w, pool).value;
    var sb := RowKeys(n, B, first.scope, cols, names, pool);
    AllRender(n.children, sb, inner, cols, p, names, pool);
    var second := RenderAll(n.children, sb, w, pool).value;
    var sc := RowKeys(n, B, second.scope, cols, names, pool);
    AllRender(n.children, sc, inner, cols, p, names, pool);
    FlatFromRows(n, scope, first, second, RenderAll(n.children, sc, w, pool).value, cols, p, pool);
  }

  lemma RowKeys(n: Node<string>, v: Letter, scope: Scope<Letter>, cols: string -> seq<string>, names: set<string>,
                pool: set<string>)
    returns (s: Scope<Letter>)
    requires Asks(n) && QueriesHaveContents(n) && names <= pool
    ensures s == RowScope(n, v, scope, cols, pool) && scope.Keys + Binds(n, cols, names) <= s.Keys
  {
    s := RowScope(n, v, scope, cols, pool);
    assert Binds(n, cols, names) <= Binds(n, cols, pool);
    hide QuerySql, QueriesHaveContents, Asks, QueryOf;
  }

  // ----- the condition is exact -----

  /** Whatever the database with these columns and the outer bindings of `live`, the two give the same text. */
  ghost predicate RendersLexically(n: Node<string>, live: set<string>, cols: string -> seq<string>, names: set<string>,
                                   pool: set<string>)
    requires QueriesHaveContents(n)
  {
    forall w: World<Letter>, env: Scope<Letter> | Relational(w) && ColumnsBySql(w, cols) && env.Keys == live ::
      SameText(Render(n, env, w, pool), Lexical(n, env, w, names))
  }

  function Outer(live: set<string>): Scope<Letter> {
    map y | y in live :: Binding(C, true)
  }

  /** A name that is read stale is told from its lexical binding by the database of letters. */
  lemma StaleTells(n: Node<string>, live: set<string>, r: Reading, cols: string -> seq<string>, names: set<string>,
                   pool: set<string>)
    requires QueriesHaveContents(n) && Named(cols) && AsksBound(n, live, cols, names)
    requires Uses(n) <= names <= pool && ReadsStale(n, r, Unknown(r.name, names), cols, names)
    ensures !RendersLexically(n, live, cols, names, pool)
  {
    var env, w := Outer(live), Letters(cols, r.position);
    StaleIsUsed(n, r, Unknown(r.name, names), cols, names);
    LettersAnswer(cols, r.position);
    Differs(n, env, env, live, r, false, cols, names, pool);
    assert !SameText(Render(n, env, w, pool), Lexical(n, env, w, names));
    hide Render, Lexical, Letters, ReadsStale, AsksBound, Uses, QueriesHaveContents;
  }

  /**
   A template that shows a name which some other query or an earlier row may have overwritten is rendered
   otherwise than lexical scoping says with some database of the same columns. Its queries may ask for any
   bound names.
   */
  lemma StaleIsShown(n: Node<string>, live: set<string>, cols: string -> seq<string>, names: set<string>,
                     pool: set<string>)
    requires QueriesHaveContents(n) && Named(cols) && AsksBound(n, live, cols, names)
    requires Uses(n) <= names <= pool && !ReadsKnown(n, names, Shown, cols, names)
    ensures !RendersLexically(n, live, cols, names, pool)
  {
    var r := SomeNameStale(n, names, Shown, cols, names);
    hide *;
    StaleTells(n, live, r, cols, names, pool);
  }

  /** A template that asks for a name which is not bound around the query, but by then. */
  lemma UnboundTells(n: Node<string>, live: set<string>, cols: string -> seq<string>, names: set<string>,
                     pool: set<string>)
    requires QueriesHaveContents(n) && Named(cols) && names <= pool
    requires AsksBoundByThen(n, live, cols, names) && !AsksBound(n, live, cols, names)
    ensures !RendersLexically(n, live, cols, names, pool)
  {
    var env, w := Outer(live), Letters(cols, 0);
    LettersAnswer(cols, 0);
    assert env.Keys == live;
    LexicalFails(n, env, cols, 0, names);
    FlatRenders(n, env, live, cols, 0, names, pool);
    assert !SameText(Render(n, env, w, pool), Lexical(n, env, w, names));
    hide Render, Lexical, Letters, AsksBoundByThen, AsksBound, QueriesHaveContents;
  }

  /**
   The condition is exact. A template whose queries ask only for what is bound by then, and show the rows they
   get where they ask for a name that may have been overwritten, is rendered lexically with every database
   of its columns if and only if it reads no such name.
   */
  lemma LexicalExactly(n: Node<string>, live: set<string>, cols: string -> seq<string>, names: set<string>,
                       pool: set<string>)
    requires QueriesHaveContents(n) && Named(cols) && Uses(n) <= names <= pool
    requires AsksBoundByThen(n, live, cols, names) && AnswersShow(n, names, cols, names)
    ensures RendersLexically(n, live, cols, names, pool) <==> Safe(n, names, cols, names)
  {
    if Safe(n, names, cols, names) {
      forall w: World<Letter>, env: Scope<Letter> | Relational(w) && ColumnsBySql(w, cols) && env.Keys == live
        ensures SameText(Render(n, env, w, pool), Lexical(n, env, w, names))
      {
        RenderIsLexical(n, env, env, names, w, cols, names, pool);
      }
    } else if !AsksBound(n, live, cols, names) {
      UnboundTells(n, live, cols, names, pool);
    } else {
      var use := if ReadsKnown(n, names, Shown, cols, names) then Asked else Shown;
      var r := SomeNameStale(n, names, use, cols, names);
      StaleTells(n, live, r, cols, names, pool);
    }
  }

  // ----- templates whose queries ask for nothing that may have been overwritten -----

  lemma {:induction false} BoundIsByThen(n: Node<string>, live: set<string>, bound: set<string>,
                                         cols: string -> seq<string>, names: set<string>)
    requires QueriesHaveContents(n) && AsksBound(n, live, cols, names) && live <= bound
    ensures AsksBoundByThen(n, bound, cols, names)
    decreases n, 0, 0
  {
    if n.Element? && !n.isVoid {
      AllBoundByThen(n.children, live + Binds(n, cols, names), bound + Binds(n, cols, names), cols, names);
    }
  }

  lemma {:induction false} AllBoundByThen(ns: seq<Node<string>>, live: set<string>, bound: set<string>,
                                          cols: string -> seq<string>, names: set<string>)
    requires forall c | c in ns :: QueriesHaveContents(c) && AsksBound(c, live, cols, names)
    requires live <= bound
    ensures AllAskBoundByThen(ns, bound, cols, names)
    decreases ns, 0, |ns|
  {
    if ns != [] {
      var k := |ns| - 1;
      assert ns[k] in ns;
      AllBoundByThen(ns[..k], live, bound, cols, names);
      BoundIsByThen(ns[k], live, bound + AllRebind(ns[..k], cols, names), cols, names);
    }
  }

  lemma {:induction false} KnownAnswersShow(n: Node<string>, known: set<string>, cols: string -> seq<string>,
                                            names: set<string>)
    requires QueriesHaveContents(n) && ReadsKnown(n, known, Asked, cols, names)
    ensures AnswersShow(n, known, cols, names)
    decreases n, 0, 0
  {
    if n.Element? && !n.isVoid {
      AllKnownAnswersShow(n.children, KnownInside(n, known, cols, names), cols, names);
    }
  }

  lemma {:induction false} AllKnownAnswersShow(ns: seq<Node<string>>, known: set<string>, cols: string -> seq<string>,
                                               names: set<string>)
    requires (forall c | c in ns :: QueriesHaveContents(c)) && AllReadKnown(ns, known, Asked, cols, names)
    ensures AllAnswersShow(ns, known, cols, names)
    decreases ns, 0, |ns|
  {
    if ns != [] {
      var k := |ns| - 1;
      AllKnownAnswersShow(ns[..k], known, cols, names);
      KnownAnswersShow(ns[k], known - AllRebind(ns[..k], cols, names), cols, names);
    }
  }

  /** For them the condition on what is shown is exact, whatever their elements hold. */
  lemma ShownExactly(n: Node<string>, live: set<string>, cols: string -> seq<string>, names: set<string>,
                     pool: set<string>)
    requires QueriesHaveContents(n) && Named(cols) && Uses(n) <= names <= pool
    requires AsksBound(n, live, cols, names) && ReadsKnown(n, names, Asked, cols, names)
    ensures RendersLexically(n, live, cols, names, pool) <==> ReadsKnown(n, names, Shown, cols, names)
  {
    BoundIsByThen(n, live, live, cols, names);
    KnownAnswersShow(n, names, cols, names);
    LexicalExactly(n, live, cols, names, pool);
    hide RendersLexically, AsksBound, AsksBoundByThen, AnswersShow, Uses;
  }
}
