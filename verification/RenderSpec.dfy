/**
 Rendering of templates: what the renderer of muggin.c computes over its one mutable scope, what lexical
 scoping would compute, and when the two agree.
 */
module RenderSpec {
  import opened Template
  import opened StringPools
  import opened StrBufs

  /** A value bound to a name, and whether it is escaped when written. */
  datatype Binding<+V> = Binding(value: V, escape: bool)

  type Scope<+V> = map<string, Binding<V>>

  datatype QueryResult<+V> = Failed | Rows(columns: seq<string>, rows: seq<seq<V>>)

  /** The database, as a function of the SQL text and its arguments, and the text form of values. */
  datatype World<!V> = World(db: (string, seq<V>) -> QueryResult<V>, text: V -> string)

  const QUERY_ATTRIBUTE: string := "m:q"
  const MAX_ROWS: nat := 65536

  /** Every row has a value for every column, and columns are named by C strings. */
  ghost predicate Relational<V(!new)>(w: World<V>) {
    forall sql, args :: w.db(sql, args).Rows? ==>
      && (forall r | r in w.db(sql, args).rows :: |r| == |w.db(sql, args).columns|)
      && (forall c | c in w.db(sql, args).columns :: c != "" && NulFree(c))
  }

  // ----- contents -----

  function ItemText<V>(c: Content<string>, scope: Scope<V>, w: World<V>): string {
    match c
    case Const(s) => s
    case Name(n) =>
      if n !in scope then ""
      else if scope[n].escape then Escape(w.text(scope[n].value)) else w.text(scope[n].value)
  }

  /** The separator goes before every item but the first. */
  function SeparatorBefore(i: nat, separator: char): string {
    if i > 0 && separator != '\0' then [separator] else ""
  }

  /** muggin_render_contents */
  function ContentsText<V>(items: seq<Content<string>>, separator: char, scope: Scope<V>, w: World<V>): string {
    if items == [] then ""
    else
      var i := |items| - 1;
      ContentsText(items[..i], separator, scope, w) + SeparatorBefore(i, separator) + ItemText(items[i], scope, w)
  }

  // ----- queries -----

  /** How many of the items are names. */
  function NameCount(items: seq<Content<string>>): (n: nat)
    ensures n <= |items|
  {
    if items == [] then 0
    else NameCount(items[..|items| - 1]) + (if items[|items| - 1].Name? then 1 else 0)
  }

  /** The SQL text: the k-th name becomes `$k`. */
  function QuerySql(items: seq<Content<string>>, separator: char): string {
    if items == [] then ""
    else
      var i := |items| - 1;
      QuerySql(items[..i], separator) + SeparatorBefore(i, separator) +
      match items[i]
      case Const(s) => s
      case Name(_) => "$" + Decimal(NameCount(items))
  }

  predicate AllBound<V>(items: seq<Content<string>>, scope: Scope<V>) {
    forall c | c in items && c.Name? :: c.name in scope
  }

  /** The arguments: the values of the names, in order. */
  function QueryArgs<V>(items: seq<Content<string>>, scope: Scope<V>): (args: seq<V>)
    requires AllBound(items, scope)
    ensures |args| == NameCount(items)
  {
    if items == [] then []
    else
      var i := |items| - 1;
      QueryArgs(items[..i], scope) + (if items[i].Name? then [scope[items[i].name].value] else [])
  }

  /** query: a missing value and a failing query both end in an error report. */
  function RunQuery<V>(c: Contents<string>, scope: Scope<V>, w: World<V>): Option<QueryResult<V>> {
    if !AllBound(c.items, scope) then None
    else
      var r := w.db(QuerySql(c.items, c.separator), QueryArgs(c.items, scope));
      if r.Failed? then None else Some(r)
  }

  // ----- elements -----

  function ValueText<V>(v: AttrValue<string>, scope: Scope<V>, w: World<V>): string {
    match v
    case Constant(s) => s
    case Mixed(c) => ContentsText(c.items, c.separator, scope, w)
  }

  function AttributeText<V>(a: Attr<string>, scope: Scope<V>, w: World<V>): string {
    if a.name == QUERY_ATTRIBUTE then ""
    else " " + a.name + "=\"" + ValueText(a.value, scope, w) + "\""
  }

  function AttributesText<V>(attrs: seq<Attr<string>>, scope: Scope<V>, w: World<V>): string {
    if attrs == [] then ""
    else AttributesText(attrs[..|attrs| - 1], scope, w) + AttributeText(attrs[|attrs| - 1], scope, w)
  }

  /** The position of the last `m:q` attribute, or -1. */
  function QueryIndex(attrs: seq<Attr<string>>): (i: int)
    ensures -1 <= i < |attrs|
    ensures i >= 0 ==> attrs[i].name == QUERY_ATTRIBUTE
    ensures forall j | i < j < |attrs| :: attrs[j].name != QUERY_ATTRIBUTE
  {
    if attrs == [] then -1
    else if attrs[|attrs| - 1].name == QUERY_ATTRIBUTE then |attrs| - 1
    else QueryIndex(attrs[..|attrs| - 1])
  }

  function OpenTag<V>(n: Node<string>, scope: Scope<V>, w: World<V>): string
    requires n.Element?
  {
    "<" + n.tag + AttributesText(n.attributes, scope, w) + ">"
  }

  /**
   A query is written in parentheses after the tag, so it has contents; and a C int counts its arguments.
   */
  predicate QueriesHaveContents(n: Node<string>) {
    n.Element? ==>
      && (forall a | a in n.attributes && a.name == QUERY_ATTRIBUTE ::
            a.value.Mixed? && |a.value.contents.items| < 0x8000_0000)
      && (forall c | c in n.children :: QueriesHaveContents(c))
  }

  // ----- the renderer: one scope, overwritten -----

  datatype Output<+V> = Output(text: string, scope: Scope<V>)

  /** What is bound by the columns, the last of each name counting, and what stays as it was. */
  ghost predicate BoundBy<V>(scope: Scope<V>, columns: seq<string>, row: seq<V>, names: set<string>, r: Scope<V>)
    requires |columns| == |row|
  {
    && r.Keys == scope.Keys + (set c | c in columns && c in names)
    && (forall x | x in scope && (x !in columns || x !in names) :: r[x] == scope[x])
    && (forall i | 0 <= i < |columns| && columns[i] in names
                   && (forall j | i < j < |columns| :: columns[j] != columns[i]) ::
          r[columns[i]] == Binding(row[i], true))
  }

  /** Binds the columns of a row that the template has names for, in order: the last of a name counts. */
  function BindRow<V>(scope: Scope<V>, columns: seq<string>, row: seq<V>, names: set<string>): (r: Scope<V>)
    requires |columns| == |row|
    ensures BoundBy(scope, columns, row, names, r)
  {
    if columns == [] then scope
    else
      var k := |columns| - 1;
      var before := BindRow(scope, columns[..k], row[..k], names);
      var after := if columns[k] in names then before[columns[k] := Binding(row[k], true)] else before;
      OneMoreColumn(scope, columns, row, names, before, after);
      after
  }

  lemma OneMoreColumn<V>(scope: Scope<V>, columns: seq<string>, row: seq<V>, names: set<string>, before: Scope<V>,
                         after: Scope<V>)
    requires |columns| == |row| > 0
    requires BoundBy(scope, columns[..|columns| - 1], row[..|columns| - 1], names, before)
    requires var c, v := columns[|columns| - 1], row[|columns| - 1];
             after == if c in names then before[c := Binding(v, true)] else before
    ensures BoundBy(scope, columns, row, names, after)
  {
    var k := |columns| - 1;
    ColumnsBefore(columns);
    forall i | 0 <= i < |columns| && columns[i] in names && (forall j | i < j < |columns| :: columns[j] != columns[i])
      ensures after[columns[i]] == Binding(row[i], true)
    {
      if i < k {
        assert columns[k] != columns[i];
        assert columns[..k][i] == columns[i] && row[..k][i] == row[i];
        assert forall j | i < j < k :: columns[..k][j] == columns[j];
      }
    }
  }

  lemma ColumnsBefore(columns: seq<string>)
    requires columns != []
    ensures forall c :: c in columns <==> c in columns[..|columns| - 1] || c == columns[|columns| - 1]
  {
    assert columns == columns[..|columns| - 1] + [columns[|columns| - 1]];
  }

  /** muggin_render_node */
  function Render<V(!new)>(n: Node<string>, scope: Scope<V>, w: World<V>, names: set<string>): Option<Output<V>>
    requires QueriesHaveContents(n) && Relational(w)
    decreases n, 0, 0
  {
    match n
    case Text(c) => Some(Output(ContentsText(c.items, c.separator, scope, w), scope))
    case Element(tag, attrs, children, isVoid) =>
      if isVoid then Some(Output(OpenTag(n, scope, w), scope))
      else
        var q := QueryIndex(attrs);
        var inner :=
          if q == -1 then RenderAll(children, scope, w, names)
          else
            match RunQuery(attrs[q].value.contents, scope, w)
            case None => None
            case Some(r) => RenderRows(children, r.columns, Limited(r.rows), scope, w, names);
        match inner
        case None => None
        case Some(o) => Some(Output(OpenTag(n, scope, w) + o.text + "</" + tag + ">", o.scope))
  }

  function Limited<V>(rows: seq<seq<V>>): (r: seq<seq<V>>)
    ensures forall x | x in r :: x in rows
    ensures r == if |rows| > 65536 then rows[..65536] else rows
  {
    if |rows| > MAX_ROWS then rows[..MAX_ROWS] else rows
  }

  function RenderAll<V(!new)>(ns: seq<Node<string>>, scope: Scope<V>, w: World<V>,
                              names: set<string>): Option<Output<V>>
    requires (forall c | c in ns :: QueriesHaveContents(c)) && Relational(w)
    decreases ns, 0, |ns|
  {
    if ns == [] then Some(Output("", scope))
    else
      match RenderAll(ns[..|ns| - 1], scope, w, names)
      case None => None
      case Some(o) =>
        match Render(ns[|ns| - 1], o.scope, w, names)
        case None => None
        case Some(last) => Some(Output(o.text + last.text, last.scope))
  }

  /** The children once for each row, every row bound over whatever the scope holds by then. */
  function RenderRows<V(!new)>(ns: seq<Node<string>>, columns: seq<string>, rows: seq<seq<V>>, scope: Scope<V>,
                               w: World<V>, names: set<string>): Option<Output<V>>
    requires (forall c | c in ns :: QueriesHaveContents(c)) && Relational(w)
    requires forall r | r in rows :: |r| == |columns|
    decreases ns, 1, |rows|
  {
    if rows == [] then Some(Output("", scope))
    else
      match RenderRows(ns, columns, rows[..|rows| - 1], scope, w, names)
      case None => None
      case Some(o) =>
        match RenderAll(ns, BindRow(o.scope, columns, rows[|rows| - 1], names), w, names)
        case None => None
        case Some(last) => Some(Output(o.text + last.text, last.scope))
  }

  // ----- lexical scoping -----

  /** The reference: names mean what encloses them; nothing bound inside an element is seen outside it. */
  function Lexical<V(!new)>(n: Node<string>, env: Scope<V>, w: World<V>, names: set<string>): Option<string>
    requires QueriesHaveContents(n) && Relational(w)
    decreases n, 0, 0
  {
    match n
    case Text(c) => Some(ContentsText(c.items, c.separator, env, w))
    case Element(tag, attrs, children, isVoid) =>
      if isVoid then Some(OpenTag(n, env, w))
      else
        var q := QueryIndex(attrs);
        var inner :=
          if q == -1 then LexicalAll(children, env, w, names)
          else
            match RunQuery(attrs[q].value.contents, env, w)
            case None => None
            case Some(r) => LexicalRows(children, r.columns, Limited(r.rows), env, w, names);
        match inner
        case None => None
        case Some(text) => Some(OpenTag(n, env, w) + text + "</" + tag + ">")
  }

  function LexicalAll<V(!new)>(ns: seq<Node<string>>, env: Scope<V>, w: World<V>, names: set<string>): Option<string>
    requires (forall c | c in ns :: QueriesHaveContents(c)) && Relational(w)
    decreases ns, 0, |ns|
  {
    if ns == [] then Some("")
    else
      match (LexicalAll(ns[..|ns| - 1], env, w, names), Lexical(ns[|ns| - 1], env, w, names))
      case (Some(a), Some(b)) => Some(a + b)
      case _ => None
  }

  /** Row by row: the children under the outer bindings extended with that row. */
  function LexicalRows<V(!new)>(ns: seq<Node<string>>, columns: seq<string>, rows: seq<seq<V>>, env: Scope<V>,
                                w: World<V>, names: set<string>): Option<string>
    requires (forall c | c in ns :: QueriesHaveContents(c)) && Relational(w)
    requires forall r | r in rows :: |r| == |columns|
    decreases ns, 1, |rows|
  {
    if rows == [] then Some("")
    else
      match (LexicalRows(ns, columns, rows[..|rows| - 1], env, w, names),
             LexicalAll(ns, BindRow(env, columns, rows[|rows| - 1], names), w, names))
      case (Some(a), Some(b)) => Some(a + b)
      case _ => None
  }

  /** A name without a value shows nothing; one with a value shows its text, escaped if it is to be. */
  lemma NameShows<V>(n: string, v: V, w: World<V>)
    ensures ItemText(Name(n), map[], w) == ""
    ensures ItemText(Name(n), map[n := Binding(v, true)], w) == Escape(w.text(v))
    ensures ItemText(Name(n), map[n := Binding(v, false)], w) == w.text(v)
  {}

  /** A query that the database refuses and one that asks for a name without a value end in an error report. */
  lemma QueryFails<V>(sql: string, name: string, scope: Scope<V>, w: World<V>)
    ensures w.db(sql, []).Failed? ==> RunQuery(Contents([Const(sql)], '\0'), scope, w) == None
    ensures name !in scope ==> RunQuery(Contents([Const(sql), Name(name)], '\0'), scope, w) == None
  {
    var items, none: seq<Content<string>> := [Const(sql)], [];
    assert items[..0] == none && NameCount(none) == 0 && QuerySql(none, '\0') == "";
    assert NameCount(items) == 0;
    assert QuerySql(items, '\0') == "" + "" + sql == sql;
    assert AllBound(items, scope) && QueryArgs(items, scope) == [];
    hide QuerySql, NameCount, QueryArgs;
    assert Name(name) in [Const(sql), Name(name)];
  }
}
