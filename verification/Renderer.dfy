/**
 The renderer of muggin.c: it walks the compiled tree of ids, appends to a string buffer, and overwrites
 the bindings of its scope in place.
 */
module Renderer {
  import opened Seqs
  import opened Template
  import opened StringPools
  import opened StrBufs
  import opened RenderSpec
  import opened Muggin

  /** The bindings by name id stand for a scope. */
  ghost predicate Represents<V>(values: seq<Option<Binding<V>>>, ns: seq<string>, scope: Scope<V>) {
    && |values| == |ns|
    && (forall i | 0 <= i < |ns| :: values[i] == if ns[i] in scope then Some(scope[ns[i]]) else None)
    && (forall x | x in scope :: x in ns)
  }

  ghost function NameSet(ns: seq<string>): set<string> {
    set x | x in ns
  }

  lemma RepresentsBind<V>(values: seq<Option<Binding<V>>>, ns: seq<string>, scope: Scope<V>, i: nat, b: Binding<V>)
    requires Represents(values, ns, scope) && Distinct(ns) && i < |ns|
    ensures Represents(values[i := Some(b)], ns, scope[ns[i] := b])
  {
    forall j | 0 <= j < |ns|
      ensures values[i := Some(b)][j]
              == if ns[j] in scope[ns[i] := b] then Some(scope[ns[i] := b][ns[j]]) else None
    {
      if j < i { assert ns[j] != ns[i]; } else if i < j { assert ns[i] != ns[j]; }
    }
  }

  class Renderer<V(!new)> {
    const constants: StringPool
    const names: StringPool
    const world: World<V>
    const values: array<Option<Binding<V>>>  // scope->values
    const hasQuery: bool                     // the template has an "m:q" constant
    const mqIdx: nat                         // its id
    ghost const cs: seq<string>
    ghost const ns: seq<string>

    ghost predicate Valid()
      reads this, constants, names, values
    {
      && constants.Valid() && names.Valid() && cs == constants.Contents() && ns == names.Contents()
      && Distinct(cs) && Distinct(ns) && values.Length == |ns|
      && (hasQuery <==> QUERY_ATTRIBUTE in cs) && (hasQuery ==> mqIdx < |cs| && cs[mqIdx] == QUERY_ATTRIBUTE)
      && Relational(world)
    }

    /** The buffer is apart from the renderer's own objects. */
    ghost predicate Apart(sb: StrBuf)
      reads sb, sb.Repr
      ensures Apart(sb) ==>
                sb.Valid() && this !in sb.Repr && constants !in sb.Repr && names !in sb.Repr && values !in sb.Repr
    {
      sb.Valid() && {this, constants, names, values} !! sb.Repr
    }

    /** muggin_scope_new, and the start of muggin_render. Bindings start without a value. */
    constructor (c: StringPool, n: StringPool, w: World<V>)
      requires c.Valid() && n.Valid() && Relational(w)
      ensures Valid() && constants == c && names == n && world == w && cs == c.Contents() && ns == n.Contents()
      ensures fresh(this) && fresh(values) && Represents(values[..], ns, map[])
    {
      ContentsDistinct(c.pool, c.idx, c.count);
      ContentsDistinct(n.pool, n.idx, n.count);
      constants, names, world := c, n, w;
      cs, ns := c.Contents(), n.Contents();
      values := new Option<Binding<V>>[n.count](_ => None);
      assert NulFree(QUERY_ATTRIBUTE);
      var bug, found, id := c.Lookup(QUERY_ATTRIBUTE);
      hasQuery, mqIdx := found, id;
    }

    /** CONSTANT(t, id) */
    method Constant(id: nat, ghost s: string) returns (r: string)
      requires Valid() && IdOf(id, s, cs)
      ensures r == s
    {
      r := constants.pool[constants.idx[id]];
    }

    /** muggin_scope_bind_idx */
    method BindIdx(id: nat, b: Binding<V>, ghost scope: Scope<V>)
      requires Valid() && id < |ns| && Represents(values[..], ns, scope)
      modifies values
      ensures Valid() && Represents(values[..], ns, scope[ns[id] := b])
    {
      ghost var before := values[..];
      values[id] := Some(b);
      RepresentsBind(before, ns, scope, id, b);
      assert values[..] == before[id := Some(b)];
    }

    /** muggin_scope_bind: a name the template does not use is passed over with a notice. */
    method Bind(name: string, b: Binding<V>, ghost scope: Scope<V>)
      requires Valid() && name != "" && NulFree(name) && Represents(values[..], ns, scope)
      modifies values
      ensures Valid() && Represents(values[..], ns, if name in ns then scope[name := b] else scope)
    {
      hide PoolOk, Strings, NulFree, Represents;
      var bug, found, id := names.Lookup(name);
      if found {
        BindIdx(id, b, scope);
      }
    }

    method AppendSeparator(i: nat, separator: char, sb: StrBuf)
      requires Valid() && Apart(sb)
      modifies sb.Repr
      ensures Valid() && Apart(sb) && fresh(sb.Repr - old(sb.Repr)) && values[..] == old(values[..])
      ensures sb.Contents() == old(sb.Contents()) + SeparatorBefore(i, separator)
    {
      hide PoolOk, Strings;
      if i > 0 && separator != '\0' {
        sb.AppendChar(separator);
      }
    }

    /** One item of muggin_render_contents: a name without a value is left out with a notice. */
    method AppendItem(c: Content<nat>, sb: StrBuf, ghost t: Content<string>, ghost scope: Scope<V>)
      requires Valid() && Apart(sb) && ItemDenotes(c, t, cs, ns) && Represents(values[..], ns, scope)
      modifies sb.Repr
      ensures Valid() && Apart(sb) && fresh(sb.Repr - old(sb.Repr)) && values[..] == old(values[..])
      ensures sb.Contents() == old(sb.Contents()) + ItemText(t, scope, world)
    {
      hide PoolOk, Strings;
      match c {
        case Const(id) =>
          var s := Constant(id, t.text);
          sb.AppendStr(s);
        case Name(id) =>
          var b := values[id];
          assert b == values[..][id];
          if b.Some? {
            var text := world.text(b.value.value);
            if b.value.escape {
              sb.AppendStrEscaped(text);
            } else {
              sb.AppendStr(text);
            }
          }
      }
    }

    /** muggin_render_contents */
    method RenderContents(c: Contents<nat>, sb: StrBuf, ghost t: Contents<string>, ghost scope: Scope<V>)
      requires Valid() && Apart(sb) && ContentsDenote(c, t, cs, ns) && Represents(values[..], ns, scope)
      modifies sb.Repr
      ensures Valid() && Apart(sb) && fresh(sb.Repr - old(sb.Repr)) && values[..] == old(values[..])
      ensures sb.Contents() == old(sb.Contents()) + ContentsText(t.items, t.separator, scope, world)
    {
      hide Renderer.Valid, StrBuf.Contents, Represents, ItemDenotes, ItemText, SeparatorBefore;
      var i := 0;
      assert t.items[..0] == [];
      while i < |c.items|
        invariant 0 <= i <= |c.items|
        invariant Valid() && Apart(sb) && fresh(sb.Repr - old(sb.Repr)) && values[..] == old(values[..])
        invariant sb.Contents() == old(sb.Contents()) + ContentsText(t.items[..i], t.separator, scope, world)
      {
        ghost var before := sb.Contents();
        AppendSeparator(i, c.separator, sb);
        AppendItem(c.items[i], sb, t.items[i], scope);
        ContentsNext(t, i, scope, world, old(sb.Contents()), before, sb.Contents());
        i := i + 1;
      }
      assert t.items[..i] == t.items;
    }

    /** One name of query: appends `$n` for the next argument. */
    method AppendPlaceholder(n: nat, sb: StrBuf)
      requires Valid() && Apart(sb) && n < 0x8000_0000
      modifies sb.Repr
      ensures Valid() && Apart(sb) && fresh(sb.Repr - old(sb.Repr))
      ensures values[..] == old(values[..]) && sb.Contents() == old(sb.Contents()) + ("$" + Decimal(n))
    {
      hide PoolOk, Strings, Decimal;
      sb.AppendChar('$');
      sb.AppendInt(n);
      assert old(sb.Contents()) + ['$'] + Decimal(n) == old(sb.Contents()) + ("$" + Decimal(n));
    }

    /** One item of query: constant text, or the placeholder of the next argument. */
    method AppendQueryItem(c: Content<nat>, sb: StrBuf, args: seq<V>, ghost t: Content<string>, ghost scope: Scope<V>)
      returns (ok: bool, r: seq<V>)
      requires Valid() && Apart(sb) && ItemDenotes(c, t, cs, ns) && Represents(values[..], ns, scope)
      requires |args| + 1 < 0x8000_0000
      modifies sb.Repr
      ensures Valid() && Apart(sb) && fresh(sb.Repr - old(sb.Repr))
      ensures values[..] == old(values[..])
      ensures !ok ==> t.Name? && t.name !in scope
      ensures ok && t.Const? ==> r == args && sb.Contents() == old(sb.Contents()) + t.text
      ensures ok && t.Name? ==>
                && t.name in scope && r == args + [scope[t.name].value]
                && sb.Contents() == old(sb.Contents()) + ("$" + Decimal(|args| + 1))
    {
      hide PoolOk, Strings, Decimal;
      ok, r := true, args;
      match c {
        case Const(id) =>
          var s := Constant(id, t.text);
          sb.AppendStr(s);
        case Name(id) =>
          var b := values[id];
          assert b == values[..][id];
          if b.None? { return false, r; }
          r := args + [b.value.value];
          AppendPlaceholder(|r|, sb);
      }
    }

    /**
     query: names become placeholders and arguments. A missing value or a failing query ends in an error
     report.
     */
    method Query(c: Contents<nat>, ghost t: Contents<string>, ghost scope: Scope<V>) returns (r: Option<QueryResult<V>>)
      requires Valid() && ContentsDenote(c, t, cs, ns) && Represents(values[..], ns, scope) && |c.items| < 0x8000_0000
      ensures r == RunQuery(t, scope, world)
    {
      hide *;
      var sb := new StrBuf();
      var args: seq<V> := [];
      var i := 0;
      QueryBegin(t, scope);
      SameShape(c, t, cs, ns);
      NewBufferApart(sb);
      while i < |c.items|
        invariant 0 <= i <= |c.items|
        invariant Valid() && Apart(sb) && fresh(sb.Repr) && values[..] == old(values[..])
        invariant AllBound(t.items[..i], scope)
        invariant sb.Contents() == QuerySql(t.items[..i], t.separator)
        invariant args == QueryArgs(t.items[..i], scope)
      {
        QueryNext(t, i, scope);
        AppendSeparator(i, c.separator, sb);
        var ok;
        ok, args := AppendQueryItem(c.items[i], sb, args, t.items[i], scope);
        if !ok {
          NotAllBound(t, i, scope, world);
          return None;
        }
        i := i + 1;
      }
      var sql := sb.Text();
      var result := world.db(sql, args);
      r := if result.Failed? then None else Some(result);
      QueryDone(t, i, scope, world);
    }

    twostate lemma NewBufferApart(new sb: StrBuf)
      requires Valid() && sb.Valid() && fresh(sb.Repr)
      ensures Apart(sb)
    {}

    /** Appends several texts, one after the other. */
    method AppendTexts(a: string, b: string, c: string, sb: StrBuf)
      requires Valid() && Apart(sb)
      modifies sb.Repr
      ensures Valid() && Apart(sb) && fresh(sb.Repr - old(sb.Repr))
      ensures values[..] == old(values[..]) && sb.Contents() == old(sb.Contents()) + (a + b + c)
    {
      hide PoolOk, Strings;
      sb.AppendStr(a);
      sb.AppendStr(b);
      sb.AppendStr(c);
      assert old(sb.Contents()) + a + b + c == old(sb.Contents()) + (a + b + c);
    }

    /** The value of an attribute: constant text, or rendered contents. */
    method RenderValue(v: AttrValue<nat>, sb: StrBuf, ghost t: AttrValue<string>, ghost scope: Scope<V>)
      requires Valid() && Apart(sb) && ValueDenotes(v, t, cs, ns) && Represents(values[..], ns, scope)
      modifies sb.Repr
      ensures Valid() && Apart(sb) && fresh(sb.Repr - old(sb.Repr))
      ensures values[..] == old(values[..]) && sb.Contents() == old(sb.Contents()) + ValueText(t, scope, world)
    {
      hide PoolOk, Strings, ContentsText;
      match v {
        case Constant(id) =>
          var s := Constant(id, t.constant);
          sb.AppendStr(s);
        case Mixed(c) =>
          RenderContents(c, sb, t.contents, scope);
      }
    }

    /** One attribute of muggin_render_node; a query is not written. */
    method RenderAttribute(a: Attr<nat>, sb: StrBuf, ghost t: Attr<string>, ghost scope: Scope<V>)
      returns (isQuery: bool)
      requires Valid() && Apart(sb) && AttrDenotes(a, t, cs, ns) && Represents(values[..], ns, scope)
      modifies sb.Repr
      ensures Valid() && Apart(sb) && fresh(sb.Repr - old(sb.Repr))
      ensures values[..] == old(values[..]) && sb.Contents() == old(sb.Contents()) + AttributeText(t, scope, world)
      ensures isQuery == (t.name == QUERY_ATTRIBUTE)
    {
      hide *;
      isQuery := hasQuery && a.name == mqIdx;
      IsQuery(a, t);
      AttributeParts(a, t, cs, ns, scope, world);
      AppendedNothing(sb.Contents());
      if isQuery {
        return;
      }
      ghost var before := sb.Contents();
      var name := Constant(a.name, t.name);
      AppendTexts(" ", name, "=\"", sb);
      ghost var open := sb.Contents();
      RenderValue(a.value, sb, t.value, scope);
      AppendTexts("\"", "", "", sb);
      AttributeJoined(t, scope, world, before, open, sb.Contents());
    }

    lemma IsQuery(a: Attr<nat>, t: Attr<string>)
      requires Valid() && AttrDenotes(a, t, cs, ns)
      ensures hasQuery && a.name == mqIdx <==> t.name == QUERY_ATTRIBUTE
    {
      hide PoolOk, Strings;
      assert cs[a.name] == t.name;
      if hasQuery && a.name != mqIdx {
        assert cs[a.name] != cs[mqIdx];
      }
    }

    /** The attribute loop of muggin_render_node: the last query's position is kept. */
    method RenderAttributes(attrs: seq<Attr<nat>>, sb: StrBuf, ghost ts: seq<Attr<string>>, ghost scope: Scope<V>)
      returns (mqAttr: int)
      requires Valid() && Apart(sb) && AttrsDenote(attrs, ts, cs, ns) && Represents(values[..], ns, scope)
      modifies sb.Repr
      ensures Valid() && Apart(sb) && fresh(sb.Repr - old(sb.Repr))
      ensures values[..] == old(values[..]) && sb.Contents() == old(sb.Contents()) + AttributesText(ts, scope, world)
      ensures mqAttr == QueryIndex(ts)
    {
      hide *;
      mqAttr := -1;
      var i := 0;
      AttributesShape(attrs, ts, cs, ns, scope, world);
      AppendedNothing(sb.Contents());
      while i < |attrs|
        invariant 0 <= i <= |attrs|
        invariant Valid() && Apart(sb) && fresh(sb.Repr - old(sb.Repr)) && values[..] == old(values[..])
        invariant sb.Contents() == old(sb.Contents()) + AttributesText(ts[..i], scope, world)
        invariant mqAttr == QueryIndex(ts[..i])
      {
        AttributesNext(ts, i, scope, world, old(sb.Contents()));
        var isQuery := RenderAttribute(attrs[i], sb, ts[i], scope);
        if isQuery {
          mqAttr := i;
        }
        i := i + 1;
      }
      assert ts[..i] == ts;
    }

    /** The columns of a query, resolved to name ids; -1 for a column the template has no name for. */
    method ResolveColumns(columns: seq<string>) returns (varidx: array<int>)
      requires Valid() && forall c | c in columns :: c != "" && NulFree(c)
      ensures fresh(varidx) && Resolved(varidx[..], columns, ns)
    {
      hide PoolOk, Strings, NulFree;
      varidx := new int[|columns|];
      var col := 0;
      while col < |columns|
        invariant 0 <= col <= |columns|
        invariant fresh(varidx) && varidx.Length == |columns|
        invariant forall k | 0 <= k < col :: ResolvedTo(varidx[k], columns[k], ns)
      {
        assert columns[col] in columns;
        var bug, found, id := names.Lookup(columns[col]);
        varidx[col] := if found then id else -1;
        col := col + 1;
      }
    }

    /** Binds one row: the column loop inside the row loop of muggin_render_node. */
    method BindColumns(varidx: array<int>, ghost columns: seq<string>, row: seq<V>, ghost scope: Scope<V>)
      requires Valid() && Represents(values[..], ns, scope) && Resolved(varidx[..], columns, ns)
      requires |row| == |columns| && varidx as object != values
      modifies values
      ensures Valid() && Represents(values[..], ns, BindRow(scope, columns, row, NameSet(ns)))
    {
      hide *;
      ResolvedLength(varidx[..], columns, ns);
      BindNothing(scope, columns, row, ns);
      var col := 0;
      while col < varidx.Length
        invariant 0 <= col <= varidx.Length && Valid()
        invariant varidx[..] == old(varidx[..])
        invariant Represents(values[..], ns, BindRow(scope, columns[..col], row[..col], NameSet(ns)))
      {
        BindRowNext(scope, columns, row, ns, col, varidx[..]);
        if varidx[col] != -1 {
          BindIdx(varidx[col], Binding(row[col], true), BindRow(scope, columns[..col], row[..col], NameSet(ns)));
        }
        col := col + 1;
      }
      assert columns[..col] == columns && row[..col] == row;
    }

    /** muggin_render_node */
    method RenderNode(n: Node<nat>, sb: StrBuf, ghost t: Node<string>, ghost scope: Scope<V>)
      returns (ok: bool, ghost after: Scope<V>)
      requires Valid() && Apart(sb) && NodeDenotes(n, t, cs, ns) && Represents(values[..], ns, scope)
      requires QueriesHaveContents(t)
      modifies values, sb.Repr
      ensures Valid() && Apart(sb) && fresh(sb.Repr - old(sb.Repr))
      ensures Rendered(Render(t, scope, world, NameSet(ns)), ok, old(sb.Contents()), sb.Contents(), values[..], ns,
                       after)
      decreases n, 0
    {
      hide *;
      ok, after := true, scope;
      WorldIsRelational();
      match n {
        case Text(c) =>
          TextParts(n, t, cs, ns);
          RenderContents(c, sb, t.contents, scope);
          TextRendered(t, scope, world, ns, values[..], old(sb.Contents()), sb.Contents());
        case Element(tag, attrs, children, isVoid) =>
          ElementParts(n, t, cs, ns);
          var name := Constant(tag, t.tag);
          AppendTexts("<", name, "", sb);
          ghost var open := sb.Contents();
          var mqAttr := RenderAttributes(attrs, sb, t.attributes, scope);
          ghost var listed := sb.Contents();
          AppendTexts(">", "", "", sb);
          ghost var started := sb.Contents();
          OpenTagText(t, scope, world, old(sb.Contents()), open, listed, started);
          if !isVoid {
            ok, after := RenderInside(n, mqAttr, sb, t, scope);
            ghost var inside := sb.Contents();
            if ok {
              AppendTexts("</", name, ">", sb);
            }
            ElementRendered(t, scope, world, ns, ok, old(sb.Contents()), started, inside, sb.Contents(), values[..],
                            after);
          } else {
            VoidRendered(t, scope, world, ns, values[..], old(sb.Contents()), sb.Contents());
          }
      }
    }

    lemma WorldIsRelational()
      requires Valid()
      ensures Relational(world)
    {}

    /** The children of an element: once, or once for each row of its query. */
    method RenderInside(n: Node<nat>, mqAttr: int, sb: StrBuf, ghost t: Node<string>, ghost scope: Scope<V>)
      returns (ok: bool, ghost after: Scope<V>)
      requires Valid() && Apart(sb) && n.Element? && NodeDenotes(n, t, cs, ns) && t.Element?
      requires Represents(values[..], ns, scope)
      requires QueriesHaveContents(t) && mqAttr == QueryIndex(t.attributes)
      modifies values, sb.Repr
      ensures Valid() && Apart(sb) && fresh(sb.Repr - old(sb.Repr))
      ensures Relational(world)
      ensures Rendered(Inside(t, scope, world, NameSet(ns)), ok, old(sb.Contents()), sb.Contents(), values[..], ns,
                       after)
      decreases n.children, 3
    {
      hide *;
      WorldIsRelational();
      ElementParts(n, t, cs, ns);
      ChildQueries(t);
      InsideParts(t, scope, world, ns);
      if mqAttr == -1 {
        ok, after := RenderChildren(n.children, sb, t.children, scope);
        return;
      }
      AttributesShape(n.attributes, t.attributes, cs, ns, scope, world);
      QueryParts(n, t, mqAttr, cs, ns);
      var result := Query(n.attributes[mqAttr].value.contents, t.attributes[mqAttr].value.contents, scope);
      if result.None? {
        ok, after := false, scope;
        Nothing<V>(ok, sb.Contents(), values[..], ns, after);
        return;
      }
      QueryShape(t.attributes[mqAttr].value.contents, scope, world);
      ok, after := RenderForRows(n.children, result.value, sb, t.children, scope);
    }

    /** The row loop of muggin_render_node. */
    method RenderForRows(children: seq<Node<nat>>, result: QueryResult<V>, sb: StrBuf, ghost ts: seq<Node<string>>,
                         ghost scope: Scope<V>)
      returns (ok: bool, ghost after: Scope<V>)
      requires Valid() && Apart(sb) && NodesDenote(children, ts, cs, ns) && Represents(values[..], ns, scope)
      requires Relational(world) && (forall c | c in ts :: QueriesHaveContents(c))
      requires result.Rows? && (forall r | r in result.rows :: |r| == |result.columns|)
      requires forall c | c in result.columns :: c != "" && NulFree(c)
      modifies values, sb.Repr
      ensures Valid() && Apart(sb) && fresh(sb.Repr - old(sb.Repr))
      ensures Rendered(RenderRows(ts, result.columns, Limited(result.rows), scope, world, NameSet(ns)),
                       ok, old(sb.Contents()), sb.Contents(), values[..], ns, after)
      decreases children, 2
    {
      hide *;
      var varidx := ResolveColumns(result.columns);
      var rows := Limited(result.rows);
      ok, after := true, scope;
      RowsBegin(ts, result.columns, rows, scope, world, ns, values[..], sb.Contents());
      var row := 0;
      while row < |rows|
        invariant 0 <= row <= |rows|
        invariant Valid() && Apart(sb) && fresh(sb.Repr - old(sb.Repr)) && ok
        invariant fresh(varidx) && varidx !in sb.Repr && varidx as object != values
                  && Resolved(varidx[..], result.columns, ns)
        invariant Rendered(RenderRows(ts, result.columns, rows[..row], scope, world, NameSet(ns)),
                           true, old(sb.Contents()), sb.Contents(), values[..], ns, after)
      {
        ghost var before, mid := after, sb.Contents();
        RenderedParts(RenderRows(ts, result.columns, rows[..row], scope, world, NameSet(ns)), true,
                      old(sb.Contents()), sb.Contents(), values[..], ns, after);
        BindColumns(varidx, result.columns, rows[row], after);
        ok, after := RenderChildren(children, sb, ts, BindRow(after, result.columns, rows[row], NameSet(ns)));
        RowsNext(ts, result.columns, rows, row, scope, world, ns, old(sb.Contents()), mid, before, ok, sb.Contents(),
                 values[..], after);
        if !ok {
          return;
        }
        row := row + 1;
      }
      assert rows[..row] == rows;
    }

    /** The child loop of muggin_render_node. */
    method RenderChildren(children: seq<Node<nat>>, sb: StrBuf, ghost ts: seq<Node<string>>, ghost scope: Scope<V>)
      returns (ok: bool, ghost after: Scope<V>)
      requires Valid() && Apart(sb) && NodesDenote(children, ts, cs, ns) && Represents(values[..], ns, scope)
      requires Relational(world) && (forall c | c in ts :: QueriesHaveContents(c))
      modifies values, sb.Repr
      ensures Valid() && Apart(sb) && fresh(sb.Repr - old(sb.Repr))
      ensures Rendered(RenderAll(ts, scope, world, NameSet(ns)), ok, old(sb.Contents()), sb.Contents(), values[..], ns,
                       after)
      decreases children, 1
    {
      hide *;
      ok, after := true, scope;
      NodesShape(children, ts, cs, ns);
      AllBegin(ts, scope, world, ns, values[..], sb.Contents());
      var i := 0;
      while i < |children|
        invariant 0 <= i <= |children|
        invariant Valid() && Apart(sb) && fresh(sb.Repr - old(sb.Repr)) && ok
        invariant Rendered(RenderAll(ts[..i], scope, world, NameSet(ns)),
                           true, old(sb.Contents()), sb.Contents(), values[..], ns, after)
      {
        ghost var before, mid := after, sb.Contents();
        RenderedParts(RenderAll(ts[..i], scope, world, NameSet(ns)), true,
                      old(sb.Contents()), sb.Contents(), values[..], ns, after);
        ok, after := RenderNode(children[i], sb, ts[i], after);
        AllNext(ts, i, scope, world, ns, old(sb.Contents()), mid, before, ok, sb.Contents(), values[..], after);
        if !ok {
          return;
        }
        i := i + 1;
      }
      assert ts[..i] == ts;
    }

    /** muggin_render: the document type, the root, and a NUL. False stands for an error report. */
    method MugginRender(root: Node<nat>, to: StrBuf, ghost t: Node<string>, ghost scope: Scope<V>)
      returns (ok: bool)
      requires Valid() && Apart(to) && NodeDenotes(root, t, cs, ns) && Represents(values[..], ns, scope)
      requires QueriesHaveContents(t)
      modifies values, to.Repr
      ensures Relational(world)
      ensures to.Valid() && fresh(to.Repr - old(to.Repr))
      ensures var r := Render(t, scope, world, NameSet(ns));
              && ok == r.Some?
              && (ok ==> to.Contents() == old(to.Contents()) + ("<!DOCTYPE html>\n" + r.value.text + "\0"))
    {
      hide *;
      WorldIsRelational();
      AppendTexts("<!DOCTYPE html>\n", "", "", to);
      ghost var started := to.Contents();
      ghost var after;
      ok, after := RenderNode(root, to, t, scope);
      ghost var r := Render(t, scope, world, NameSet(ns));
      RenderedParts(r, ok, started, to.Contents(), values[..], ns, after);
      if ok {
        AppendTexts("\0", "", "", to);
        DocumentText(old(to.Contents()), started, r.value.text, to.Contents());
      }
    }
  }

  predicate ValueDenotes(v: AttrValue<nat>, t: AttrValue<string>, cs: seq<string>, ns: seq<string>) {
    match (v, t)
    case (Constant(id), Constant(s)) => IdOf(id, s, cs)
    case (Mixed(c), Mixed(u)) => ContentsDenote(c, u, cs, ns)
    case _ => false
  }

  lemma AppendedNothing(s: string)
    ensures s + "" == s
  {}

  lemma AttributeParts<V>(a: Attr<nat>, t: Attr<string>, cs: seq<string>, ns: seq<string>, scope: Scope<V>, w: World<V>)
    requires AttrDenotes(a, t, cs, ns)
    ensures IdOf(a.name, t.name, cs) && ValueDenotes(a.value, t.value, cs, ns)
    ensures t.name == QUERY_ATTRIBUTE ==> AttributeText(t, scope, w) == ""
  {}

  lemma AttributeJoined<V>(t: Attr<string>, scope: Scope<V>, w: World<V>, before: string, open: string, after: string)
    requires t.name != QUERY_ATTRIBUTE && open == before + (" " + t.name + "=\"")
    requires after == open + ValueText(t.value, scope, w) + ("\"" + "" + "")
    ensures after == before + AttributeText(t, scope, w)
  {
    hide ValueText;
  }

  lemma AttributesShape<V>(a: seq<Attr<nat>>, t: seq<Attr<string>>, cs: seq<string>, ns: seq<string>, scope: Scope<V>,
                           w: World<V>)
    requires AttrsDenote(a, t, cs, ns)
    ensures |a| == |t| && forall i | 0 <= i < |a| :: AttrDenotes(a[i], t[i], cs, ns)
    ensures AttributesText(t[..0], scope, w) == "" && QueryIndex(t[..0]) == -1
  {}

  lemma AttributesNext<V>(t: seq<Attr<string>>, i: nat, scope: Scope<V>, w: World<V>, start: string)
    requires i < |t|
    ensures start + AttributesText(t[..i], scope, w) + AttributeText(t[i], scope, w)
            == start + AttributesText(t[..i + 1], scope, w)
    ensures QueryIndex(t[..i + 1]) == if t[i].name == QUERY_ATTRIBUTE then i else QueryIndex(t[..i])
  {
    var next := t[..i + 1];
    assert next[..i] == t[..i];
    hide AttributeText;
    assert AttributesText(next, scope, w) == AttributesText(t[..i], scope, w) + AttributeText(t[i], scope, w);
    Assoc(start, AttributesText(t[..i], scope, w), AttributeText(t[i], scope, w));
  }

  // ----- steps of the loops, on values -----

  predicate ResolvedTo(idx: int, column: string, ns: seq<string>) {
    if column in ns then 0 <= idx < |ns| && ns[idx] == column else idx == -1
  }

  predicate Resolved(varidx: seq<int>, columns: seq<string>, ns: seq<string>) {
    |varidx| == |columns| && forall k | 0 <= k < |columns| :: ResolvedTo(varidx[k], columns[k], ns)
  }

  lemma ResolvedLength(varidx: seq<int>, columns: seq<string>, ns: seq<string>)
    requires Resolved(varidx, columns, ns)
    ensures |varidx| == |columns|
  {}

  lemma BindNothing<V>(scope: Scope<V>, columns: seq<string>, row: seq<V>, ns: seq<string>)
    ensures BindRow(scope, columns[..0], row[..0], NameSet(ns)) == scope
  {}

  lemma BindRowNext<V>(scope: Scope<V>, columns: seq<string>, row: seq<V>, ns: seq<string>, col: nat, varidx: seq<int>)
    requires |columns| == |row| && col < |columns| && Resolved(varidx, columns, ns)
    ensures varidx[col] != -1 ==> 0 <= varidx[col] < |ns|
    ensures BindRow(scope, columns[..col + 1], row[..col + 1], NameSet(ns)) ==
            var before := BindRow(scope, columns[..col], row[..col], NameSet(ns));
            if varidx[col] == -1 then before else before[ns[varidx[col]] := Binding(row[col], true)]
  {
    assert columns[..col + 1][..col] == columns[..col] && row[..col + 1][..col] == row[..col];
    assert ResolvedTo(varidx[col], columns[col], ns);
  }

  /** What the renderer has done, by the outcome the specification gives. */
  ghost predicate Rendered<V>(r: Option<Output<V>>, ok: bool, before: string, text: string,
                              values: seq<Option<Binding<V>>>, ns: seq<string>, after: Scope<V>)
  {
    && ok == r.Some?
    && (ok ==> text == before + r.value.text && after == r.value.scope && Represents(values, ns, after))
  }

  lemma RenderedParts<V>(r: Option<Output<V>>, ok: bool, before: string, text: string, values: seq<Option<Binding<V>>>,
                         ns: seq<string>, after: Scope<V>)
    requires Rendered(r, ok, before, text, values, ns, after)
    ensures ok == r.Some?
    ensures ok ==> text == before + r.value.text && after == r.value.scope && Represents(values, ns, after)
  {}

  lemma Nothing<V>(ok: bool, text: string, values: seq<Option<Binding<V>>>, ns: seq<string>, after: Scope<V>)
    requires !ok
    ensures forall before :: Rendered(None, ok, before, text, values, ns, after)
  {}

  lemma TextParts(n: Node<nat>, t: Node<string>, cs: seq<string>, ns: seq<string>)
    requires n.Text? && NodeDenotes(n, t, cs, ns)
    ensures t.Text? && ContentsDenote(n.contents, t.contents, cs, ns)
  {}

  lemma TextRendered<V(!new)>(t: Node<string>, scope: Scope<V>, w: World<V>, ns: seq<string>,
                              values: seq<Option<Binding<V>>>, before: string, text: string)
    requires t.Text? && QueriesHaveContents(t) && Relational(w) && Represents(values, ns, scope)
    requires text == before + ContentsText(t.contents.items, t.contents.separator, scope, w)
    ensures Rendered(Render(t, scope, w, NameSet(ns)), true, before, text, values, ns, scope)
  {
    hide Represents, ContentsText, Relational;
  }

  lemma OpenTagText<V>(t: Node<string>, scope: Scope<V>, w: World<V>, before: string, open: string, listed: string,
                       started: string)
    requires t.Element? && open == before + ("<" + t.tag + "")
    requires listed == open + AttributesText(t.attributes, scope, w)
    requires started == listed + (">" + "" + "")
    ensures started == before + OpenTag(t, scope, w)
  {
    hide AttributesText;
  }

  /** The children part of an element's rendering. */
  ghost function Inside<V(!new)>(t: Node<string>, scope: Scope<V>, w: World<V>, names: set<string>): Option<Output<V>>
    requires t.Element? && QueriesHaveContents(t) && Relational(w)
  {
    var q := QueryIndex(t.attributes);
    if q == -1 then RenderAll(t.children, scope, w, names)
    else
      match RunQuery(t.attributes[q].value.contents, scope, w)
      case None => None
      case Some(r) => RenderRows(t.children, r.columns, Limited(r.rows), scope, w, names)
  }

  lemma ElementRendered<V(!new)>(t: Node<string>, scope: Scope<V>, w: World<V>, ns: seq<string>, ok: bool,
                                 before: string, started: string, inside: string, text: string,
                                 values: seq<Option<Binding<V>>>, after: Scope<V>)
    requires t.Element? && !t.isVoid && QueriesHaveContents(t) && Relational(w)
    requires started == before + OpenTag(t, scope, w)
    requires Rendered(Inside(t, scope, w, NameSet(ns)), ok, started, inside, values, ns, after)
    requires ok ==> text == inside + ("</" + t.tag + ">")
    ensures Rendered(Render(t, scope, w, NameSet(ns)), ok, before, text, values, ns, after)
  {
    hide Represents, OpenTag, RenderAll, RenderRows, RunQuery, Relational;
    var inner := Inside(t, scope, w, NameSet(ns));
    if ok {
      assert Render(t, scope, w, NameSet(ns)) == Some(Output(OpenTag(t, scope,
                                                                     w) + inner.value.text + "</" + t.tag + ">",
                                                                         inner.value.scope));
      ClosedText(before, OpenTag(t, scope, w), inner.value.text, t.tag);
    }
  }

  lemma ClosedText(before: string, open: string, inner: string, tag: string)
    ensures before + open + inner + ("</" + tag + ">") == before + (open + inner + "</" + tag + ">")
  {}

  lemma VoidRendered<V(!new)>(t: Node<string>, scope: Scope<V>, w: World<V>, ns: seq<string>,
                              values: seq<Option<Binding<V>>>, before: string, text: string)
    requires t.Element? && t.isVoid && QueriesHaveContents(t) && Relational(w) && Represents(values, ns, scope)
    requires text == before + OpenTag(t, scope, w)
    ensures Rendered(Render(t, scope, w, NameSet(ns)), true, before, text, values, ns, scope)
  {
    hide Represents, OpenTag, Relational;
  }

  lemma ChildQueries(t: Node<string>)
    requires t.Element? && QueriesHaveContents(t)
    ensures forall c | c in t.children :: QueriesHaveContents(c)
    ensures forall a | a in t.attributes && a.name == QUERY_ATTRIBUTE ::
              a.value.Mixed? && |a.value.contents.items| < 0x8000_0000
  {}

  lemma InsideParts<V(!new)>(t: Node<string>, scope: Scope<V>, w: World<V>, ns: seq<string>)
    requires t.Element? && QueriesHaveContents(t) && Relational(w)
    ensures var q, names := QueryIndex(t.attributes), NameSet(ns);
            && (q == -1 ==> Inside(t, scope, w, names) == RenderAll(t.children, scope, w, names))
            && (q != -1 ==>
                  && 0 <= q < |t.attributes| && t.attributes[q].value.Mixed?
                  && var r := RunQuery(t.attributes[q].value.contents, scope, w);
                     && (r.None? ==> Inside(t, scope, w, names) == None)
                     && (r.Some? ==>
                           && r.value.Rows? && (forall x | x in Limited(r.value.rows) :: |x| == |r.value.columns|)
                           && Inside(t, scope, w, names)
                              == RenderRows(t.children, r.value.columns, Limited(r.value.rows), scope, w, names)))
  {
    hide RenderAll, RenderRows, QuerySql, QueryArgs;
  }

  lemma QueryParts(n: Node<nat>, t: Node<string>, q: int, cs: seq<string>, ns: seq<string>)
    requires n.Element? && t.Element? && |n.attributes| == |t.attributes| && 0 <= q < |n.attributes|
    requires AttrDenotes(n.attributes[q], t.attributes[q], cs, ns)
    requires t.attributes[q].value.Mixed? && |t.attributes[q].value.contents.items| < 0x8000_0000
    ensures n.attributes[q].value.Mixed? && |n.attributes[q].value.contents.items| < 0x8000_0000
    ensures ContentsDenote(n.attributes[q].value.contents, t.attributes[q].value.contents, cs, ns)
  {
    hide ItemDenotes;
  }

  lemma QueryShape<V(!new)>(c: Contents<string>, scope: Scope<V>, w: World<V>)
    requires Relational(w) && RunQuery(c, scope, w).Some?
    ensures var r := RunQuery(c, scope, w).value;
            && r.Rows? && (forall x | x in r.rows :: |x| == |r.columns|)
            && (forall x | x in r.columns :: x != "" && NulFree(x))
  {
    hide QuerySql, QueryArgs, NulFree;
  }

  lemma NodesShape(n: seq<Node<nat>>, t: seq<Node<string>>, cs: seq<string>, ns: seq<string>)
    requires NodesDenote(n, t, cs, ns)
    ensures |n| == |t| && forall i | 0 <= i < |n| :: NodeDenotes(n[i], t[i], cs, ns)
  {}

  lemma AllBegin<V(!new)>(ts: seq<Node<string>>, scope: Scope<V>, w: World<V>, ns: seq<string>,
                          values: seq<Option<Binding<V>>>, text: string)
    requires Relational(w) && Represents(values, ns, scope)
    ensures Rendered(RenderAll(ts[..0], scope, w, NameSet(ns)), true, text, text, values, ns, scope)
  {
    AppendedNothing(text);
  }

  lemma RowsBegin<V(!new)>(ts: seq<Node<string>>, columns: seq<string>, rows: seq<seq<V>>, scope: Scope<V>, w: World<V>,
                           ns: seq<string>, values: seq<Option<Binding<V>>>, text: string)
    requires Relational(w) && Represents(values, ns, scope) && (forall c | c in ts :: QueriesHaveContents(c))
    ensures Rendered(RenderRows(ts, columns, rows[..0], scope, w, NameSet(ns)), true, text, text, values, ns, scope)
  {
    AppendedNothing(text);
  }

  /** One more child: an error report ends the whole list. */
  lemma AllNext<V(!new)>(ts: seq<Node<string>>, i: nat, scope: Scope<V>, w: World<V>, ns: seq<string>, start: string,
                         mid: string, before: Scope<V>, ok: bool, text: string, values: seq<Option<Binding<V>>>,
                         after: Scope<V>)
    requires Relational(w) && (forall c | c in ts :: QueriesHaveContents(c)) && i < |ts|
    requires var r := RenderAll(ts[..i], scope, w, NameSet(ns));
             r.Some? && mid == start + r.value.text && before == r.value.scope
    requires Rendered(Render(ts[i], before, w, NameSet(ns)), ok, mid, text, values, ns, after)
    ensures Rendered(RenderAll(ts[..i + 1], scope, w, NameSet(ns)), ok, start, text, values, ns, after)
    ensures !ok ==> RenderAll(ts, scope, w, NameSet(ns)) == None
    ensures !ok ==> Rendered(RenderAll(ts, scope, w, NameSet(ns)), ok, start, text, values, ns, after)
  {
    hide Represents, Render, Relational, QueriesHaveContents;
    assert ts[..i + 1][..i] == ts[..i];
    if ok {
      Assoc(start, RenderAll(ts[..i], scope, w, NameSet(ns)).value.text,
            Render(ts[i], before, w, NameSet(ns)).value.text);
    } else {
      AllStops(ts, i + 1, scope, w, ns);
    }
  }

  lemma {:induction false} AllStops<V(!new)>(ts: seq<Node<string>>, i: nat, scope: Scope<V>, w: World<V>,
                                             ns: seq<string>)
    requires Relational(w) && (forall c | c in ts :: QueriesHaveContents(c)) && i <= |ts|
    requires RenderAll(ts[..i], scope, w, NameSet(ns)) == None
    ensures RenderAll(ts, scope, w, NameSet(ns)) == None
  {
    hide Render, Relational, QueriesHaveContents;
    if i < |ts| {
      assert ts[..|ts| - 1][..i] == ts[..i];
      AllStops(ts[..|ts| - 1], i, scope, w, ns);
    } else {
      assert ts[..i] == ts;
    }
  }

  lemma RowsNext<V(!new)>(ts: seq<Node<string>>, columns: seq<string>, rows: seq<seq<V>>, i: nat, scope: Scope<V>,
                          w: World<V>, ns: seq<string>, start: string, mid: string, before: Scope<V>, ok: bool,
                          text: string, values: seq<Option<Binding<V>>>, after: Scope<V>)
    requires Relational(w) && (forall c | c in ts :: QueriesHaveContents(c)) && i < |rows|
    requires forall r | r in rows :: |r| == |columns|
    requires var r := RenderRows(ts, columns, rows[..i], scope, w, NameSet(ns));
             r.Some? && mid == start + r.value.text && before == r.value.scope
    requires Rendered(RenderAll(ts, BindRow(before, columns, rows[i], NameSet(ns)), w, NameSet(ns)), ok, mid, text,
                      values, ns, after)
    ensures Rendered(RenderRows(ts, columns, rows[..i + 1], scope, w, NameSet(ns)), ok, start, text, values, ns, after)
    ensures !ok ==> Rendered(RenderRows(ts, columns, rows, scope, w, NameSet(ns)), ok, start, text, values, ns, after)
  {
    RowsOneMore(ts, columns, rows, i, scope, w, ns);
    hide Represents, RenderAll, RenderRows, Relational, QueriesHaveContents, BindRow;
    if ok {
      Assoc(start, RenderRows(ts, columns, rows[..i], scope, w, NameSet(ns)).value.text,
            RenderAll(ts, BindRow(before, columns, rows[i], NameSet(ns)), w, NameSet(ns)).value.text);
    } else {
      RowsStop(ts, columns, rows, i + 1, scope, w, ns);
    }
  }

  lemma RowsOneMore<V(!new)>(ts: seq<Node<string>>, columns: seq<string>, rows: seq<seq<V>>, i: nat, scope: Scope<V>,
                             w: World<V>, ns: seq<string>)
    requires Relational(w) && (forall c | c in ts :: QueriesHaveContents(c)) && i < |rows|
    requires forall r | r in rows :: |r| == |columns|
    requires RenderRows(ts, columns, rows[..i], scope, w, NameSet(ns)).Some?
    ensures var o := RenderRows(ts, columns, rows[..i], scope, w, NameSet(ns)).value;
            RenderRows(ts, columns, rows[..i + 1], scope, w, NameSet(ns))
            == match RenderAll(ts, BindRow(o.scope, columns, rows[i], NameSet(ns)), w, NameSet(ns))
               case None => None
               case Some(last) => Some(Output(o.text + last.text, last.scope))
  {
    hide RenderAll, Relational, QueriesHaveContents, BindRow;
    assert rows[..i + 1][..i] == rows[..i];
  }

  lemma {:induction false} RowsStop<V(!new)>(ts: seq<Node<string>>, columns: seq<string>, rows: seq<seq<V>>, i: nat,
                                             scope: Scope<V>, w: World<V>, ns: seq<string>)
    requires Relational(w) && (forall c | c in ts :: QueriesHaveContents(c)) && i <= |rows|
    requires forall r | r in rows :: |r| == |columns|
    requires RenderRows(ts, columns, rows[..i], scope, w, NameSet(ns)) == None
    ensures RenderRows(ts, columns, rows, scope, w, NameSet(ns)) == None
  {
    hide RenderAll, Relational, QueriesHaveContents, BindRow;
    if i < |rows| {
      assert rows[..|rows| - 1][..i] == rows[..i];
      RowsStop(ts, columns, rows[..|rows| - 1], i, scope, w, ns);
    } else {
      assert rows[..i] == rows;
    }
  }

  lemma DocumentText(before: string, started: string, inner: string, text: string)
    requires started == before + ("<!DOCTYPE html>\n" + "" + "") && text == started + inner + ("\0" + "" + "")
    ensures text == before + ("<!DOCTYPE html>\n" + inner + "\0")
  {}

  lemma SameShape(c: Contents<nat>, t: Contents<string>, cs: seq<string>, ns: seq<string>)
    requires ContentsDenote(c, t, cs, ns)
    ensures |c.items| == |t.items| && c.separator == t.separator
    ensures forall i | 0 <= i < |c.items| :: ItemDenotes(c.items[i], t.items[i], cs, ns)
  {}

  lemma QueryBegin<V>(t: Contents<string>, scope: Scope<V>)
    ensures AllBound(t.items[..0], scope) && QuerySql(t.items[..0], t.separator) == ""
    ensures QueryArgs(t.items[..0], scope) == []
  {}

  lemma NotAllBound<V>(t: Contents<string>, i: nat, scope: Scope<V>, w: World<V>)
    requires i < |t.items| && t.items[i].Name? && t.items[i].name !in scope
    ensures RunQuery(t, scope, w) == None
  {
    assert t.items[i] in t.items;
  }

  lemma QueryDone<V>(t: Contents<string>, i: nat, scope: Scope<V>, w: World<V>)
    requires i == |t.items| && AllBound(t.items[..i], scope)
    ensures var r := w.db(QuerySql(t.items[..i], t.separator), QueryArgs(t.items[..i], scope));
            RunQuery(t, scope, w) == if r.Failed? then None else Some(r)
  {
    assert t.items[..i] == t.items;
  }

  lemma QueryNext<V>(t: Contents<string>, i: nat, scope: Scope<V>)
    requires i < |t.items| && AllBound(t.items[..i], scope)
    ensures var before := QuerySql(t.items[..i], t.separator) + SeparatorBefore(i, t.separator);
            var after := QuerySql(t.items[..i + 1], t.separator);
            match t.items[i]
            case Const(s) => after == before + s
            case Name(_) => after == before + ("$" + Decimal(NameCount(t.items[..i]) + 1))
    ensures (t.items[i].Name? ==> t.items[i].name in scope) ==>
              && AllBound(t.items[..i + 1], scope)
              && QueryArgs(t.items[..i + 1], scope)
                 == QueryArgs(t.items[..i], scope) + (if t.items[i].Name? then [scope[t.items[i].name].value] else [])
  {
    hide SeparatorBefore, Decimal;
    var items, before, item := t.items[..i + 1], t.items[..i], t.items[i];
    assert items[..|items| - 1] == before && items[i] == item;
    SqlNext(items, before, item, t.separator);
    if item.Name? ==> item.name in scope {
      ArgsNext(items, before, item, scope);
    }
  }

  lemma SqlNext(items: seq<Content<string>>, before: seq<Content<string>>, item: Content<string>, separator: char)
    requires items != [] && items[..|items| - 1] == before && items[|items| - 1] == item
    ensures QuerySql(items, separator) == QuerySql(before, separator) + SeparatorBefore(|before|, separator)
            + match item
              case Const(s) => s
              case Name(_) => "$" + Decimal(NameCount(before) + 1)
  {
    hide SeparatorBefore, Decimal;
    assert NameCount(items) == NameCount(before) + (if item.Name? then 1 else 0);
    hide NameCount;
  }

  lemma ArgsNext<V>(items: seq<Content<string>>, before: seq<Content<string>>, item: Content<string>, scope: Scope<V>)
    requires items != [] && items[..|items| - 1] == before && items[|items| - 1] == item
    requires AllBound(before, scope) && (item.Name? ==> item.name in scope)
    ensures AllBound(items, scope)
    ensures QueryArgs(items, scope) == QueryArgs(before, scope) + (if item.Name? then [scope[item.name].value] else [])
  {
    assert items == before + [item];
  }

  lemma ContentsNext<V>(t: Contents<string>, i: nat, scope: Scope<V>, w: World<V>, start: string, before: string,
                        after: string)
    requires i < |t.items| && before == start + ContentsText(t.items[..i], t.separator, scope, w)
    requires after == before + SeparatorBefore(i, t.separator) + ItemText(t.items[i], scope, w)
    ensures after == start + ContentsText(t.items[..i + 1], t.separator, scope, w)
  {
    assert t.items[..i + 1][..i] == t.items[..i];
    hide ItemText, SeparatorBefore;
  }
}
