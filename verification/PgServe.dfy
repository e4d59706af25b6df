/**
 Serving a request from PostgreSQL: the three queries of mugshot_serve_pg sent in one batch, and their
 replies read back.
 */
module PgServe {
  import opened Bytes
  import opened StringPools
  import opened Wire
  import opened PgSession
  import opened PgRows
  import opened PgConns

  /** ASCII text as bytes. */
  function Ascii(s: string): seq<byte> {
    seq(|s|, i requires 0 <= i < |s| => s[i] as int % 256)
  }

  const SET_STATUS: string := "SET mugshot.http_status TO '200'"
  const GET_STATUS: string := "SELECT current_setting('mugshot.http_status')"

  /** The batch of one request. */
  function Batch(sql: seq<byte>, oids: seq<nat>, args: seq<seq<byte>>): seq<Frontend> {
    QueryMessages(Ascii(SET_STATUS), [], []) + QueryMessages(sql, oids, args)
    + QueryMessages(Ascii(GET_STATUS), [], []) + [Sync]
  }

  /** Every row the server sends is well-formed. */
  ghost predicate RowsOk(ms: seq<Message>) {
    forall m | m in ms && m.kind == 'D' :: IsRow(m.payload)
  }

  /** Writes and sends the batch. */
  method SendBatch(conn: PgConn, sql: seq<byte>, oids: seq<nat>, args: seq<seq<byte>>)
    requires conn.Valid() && conn.pos == 0 && |EncodeAll(Batch(sql, oids, args))| < 0x8000_0000
    modifies conn`buf, conn`pos, conn`sent, conn.buf
    ensures conn.Valid() && conn.pos == 0 && (conn.buf == old(conn.buf) || fresh(conn.buf))
    ensures conn.sent == old(conn.sent) + EncodeAll(Batch(sql, oids, args))
  {
    hide *;
    BatchBytes(sql, oids, args);
    assert conn.Written() == [];
    conn.PutQuery(Ascii(SET_STATUS), [], []);
    conn.PutQuery(sql, oids, args);
    conn.PutQuery(Ascii(GET_STATUS), [], []);
    conn.PgSync();
  }

  lemma {:induction false} EncodeAppend(a: seq<Frontend>, b: seq<Frontend>)
    ensures EncodeAll(a + b) == EncodeAll(a) + EncodeAll(b)
  {
    hide Encode, Flat;
    var ca := seq(|a|, i requires 0 <= i < |a| => Encode(a[i]));
    var cb := seq(|b|, i requires 0 <= i < |b| => Encode(b[i]));
    assert seq(|a + b|, i requires 0 <= i < |a + b| => Encode((a + b)[i])) == ca + cb;
    FlatSplit(ca, cb);
  }

  lemma BatchBytes(sql: seq<byte>, oids: seq<nat>, args: seq<seq<byte>>)
    ensures var a, b, c, d := EncodeAll(QueryMessages(Ascii(SET_STATUS), [], [])),
              EncodeAll(QueryMessages(sql, oids, args)),
                              EncodeAll(QueryMessages(Ascii(GET_STATUS), [], [])), Encode(Sync);
            && EncodeAll(Batch(sql, oids, args)) == [] + a + b + c + d
            && forall w: seq<byte> :: w + (([] + a + b + c) + d) == w + ([] + a + b + c + d)
  {
    hide QueryMessages, Encode;
    var a, b, c := QueryMessages(Ascii(SET_STATUS), [], []), QueryMessages(sql, oids, args),
        QueryMessages(Ascii(GET_STATUS), [], []);
    EncodeAppend(a + b + c, [Sync]);
    EncodeAppend(a + b, c);
    EncodeAppend(a, b);
    var one := [Sync];
    assert seq(|one|, i requires 0 <= i < |one| => Encode(one[i])) == [Encode(Sync)];
    FlatLast([], Encode(Sync));
    assert [] + [Encode(Sync)] == [Encode(Sync)] && Flat([]) + Encode(Sync) == Encode(Sync);
    assert [] + EncodeAll(a) == EncodeAll(a);
  }

  // ----- reading the replies -----

  lemma RowsLater(before: seq<Message>, after: seq<Message>)
    requires RowsOk(before) && Suffix(after, before)
    ensures RowsOk(after)
  {
    forall m | m in after && m.kind == 'D' ensures IsRow(m.payload) {
      assert m in before;
    }
  }

  lemma {:induction false} NextRowIsRow(s: Stream)
    requires !s.torn && RowsOk(s.ms)
    ensures NextRow(s).0.Row? ==> IsRow(NextRow(s).0.payload)
    decreases |s.ms|
  {
    hide IsRow;
    if s.ms != [] {
      assert s.ms[0] in s.ms;
      if s.ms[0].kind == 'N' {
        assert RowsOk(s.ms[1..]);
        NextRowIsRow(s.(ms := s.ms[1..]));
      }
    }
  }

  /** pg_value of the first column. */
  method FirstColumn(conn: PgConn, row: PgRow, ghost payload: seq<byte>) returns (v: PgVal)
    requires conn.Valid() && IsRow(payload)
    requires 0 <= row.rowStart && row.rowStart + |payload| == conn.pos && conn.buf[row.rowStart..conn.pos] == payload
    ensures Holds(conn.Written(), v, FirstText(payload))
  {
    hide EncodeRow, FirstText;
    ghost var cols :| RowOk(cols) && payload == EncodeRow(cols);
    FirstTextOf(cols);
    assert conn.buf[..][row.rowStart..row.rowStart + |payload|] == payload;
    v := conn.PgValue(row, 0, cols);
    if cols != [] {
      assert cols[0] in cols;
    }
  }

  /** The next row, and its first column. */
  method NextFirst(conn: PgConn) returns (row: PgRow, v: PgVal)
    requires conn.Valid() && conn.InStep() && !conn.stream.torn && RowsOk(conn.stream.ms)
    modifies conn`input, conn`stream, conn`buf, conn`pos, conn.buf
    ensures conn.Valid() && conn.InStep() && (conn.buf == old(conn.buf) || fresh(conn.buf))
    ensures old(conn.pos) <= conn.pos && conn.Written()[..old(conn.pos)] == old(conn.Written())
    ensures RowsOk(conn.stream.ms) && !conn.stream.torn
    ensures var (read, after) := NextRow(old(conn.stream));
            && conn.stream == after && row.hasRow == read.Row? && row.success == !read.Broken?
            && (read.Row? ==> Holds(conn.Written(), v, FirstText(read.payload)))
  {
    hide *;
    ghost var before := conn.stream;
    NextRowSuffix(before);
    NextRowIsRow(before);
    NextRowTorn(before);
    row := conn.PgNextRow();
    RowsLater(before.ms, conn.stream.ms);
    ghost var read := NextRow(before).0;
    v := PgVal(false, false, 0, 0);
    if row.hasRow {
      v := FirstColumn(conn, row, read.payload);
    }
  }

  lemma NextRowTorn(s: Stream)
    requires !s.torn
    ensures !NextRow(s).1.torn
  {}

  /**
   Reads the reply to the batch. What is served and where the stream is left are what the session model
   says, and the status and the response are the first columns of their rows, byte for byte: nothing read
   in between has moved or overwritten the response.
   */
  method ServeReply(conn: PgConn) returns (r: Option<(seq<byte>, seq<byte>)>)
    requires conn.Valid() && conn.InStep() && !conn.stream.torn && RowsOk(conn.stream.ms)
    modifies conn`input, conn`stream, conn`buf, conn`pos, conn`close, conn.buf
    ensures conn.Valid() && conn.InStep() && (conn.buf == old(conn.buf) || fresh(conn.buf))
    ensures conn.stream == Serve(old(conn.stream)).1
    ensures r == Texts(Serve(old(conn.stream)).0)
  {
    hide ReadResult, NextRow, Expect, Suffix, RowsOk, Holds, FirstText, IsRow, PgConn.InStep, PgConn.Roomy;
    ghost var before := conn.stream;
    ReadResultSuffix(before);
    var set_ := conn.PgReadResult();
    if !set_.success { return None; }
    RowsLater(before.ms, conn.stream.ms);
    r := ServeCallReply(conn);
  }

  method ServeCallReply(conn: PgConn) returns (r: Option<(seq<byte>, seq<byte>)>)
    requires conn.Valid() && conn.InStep() && !conn.stream.torn && RowsOk(conn.stream.ms)
    modifies conn`input, conn`stream, conn`buf, conn`pos, conn`close, conn.buf
    ensures conn.Valid() && conn.InStep() && (conn.buf == old(conn.buf) || fresh(conn.buf))
    ensures conn.stream == ServeCall(old(conn.stream)).1
    ensures r == Texts(ServeCall(old(conn.stream)).0)
  {
    hide ReadResult, NextRow, Expect, Suffix, RowsOk, Holds, FirstText, IsRow, PgConn.InStep, PgConn.Roomy;
    ghost var before := conn.stream;
    ReadResultSuffix(before);
    var call := conn.PgReadResult();
    if !call.success { return None; }
    RowsLater(before.ms, conn.stream.ms);
    var row, response := NextFirst(conn);
    if !row.hasRow { return None; }
    ghost var written, text := conn.Written(), FirstText(NextRow(ReadResult(before).1).0.payload);
    var none;
    row, none := NextFirst(conn);
    if !row.success || row.hasRow { return None; }
    HoldsLater(written, conn.Written(), response, text);
    r := ServeStatusReply(conn, response, NextRow(ReadResult(before).1).0.payload);
  }

  method ServeStatusReply(conn: PgConn, response: PgVal, ghost payload: seq<byte>)
    returns (r: Option<(seq<byte>, seq<byte>)>)
    requires conn.Valid() && conn.InStep() && !conn.stream.torn && RowsOk(conn.stream.ms)
    requires Holds(conn.Written(), response, FirstText(payload))
    modifies conn`input, conn`stream, conn`buf, conn`pos, conn`close, conn.buf
    ensures conn.Valid() && conn.InStep() && (conn.buf == old(conn.buf) || fresh(conn.buf))
    ensures conn.stream == ServeStatus(payload, old(conn.stream)).1
    ensures r == Texts(ServeStatus(payload, old(conn.stream)).0)
  {
    hide ReadResult, NextRow, Expect, Suffix, RowsOk, Holds, FirstText, IsRow, PgConn.InStep, PgConn.Roomy;
    ghost var before := conn.stream;
    ReadResultSuffix(before);
    ghost var w0 := conn.Written();
    var setting := conn.PgReadResult();
    if !setting.success { return None; }
    RowsLater(before.ms, conn.stream.ms);
    ghost var w1 := conn.Written();
    var row, status := NextFirst(conn);
    if !row.hasRow { return None; }
    ghost var w2 := conn.Written();
    ghost var text := FirstText(NextRow(ReadResult(before).1).0.payload);
    var none;
    row, none := NextFirst(conn);
    if row.hasRow { return None; }
    ghost var w3 := conn.Written();
    HoldsLater(w2, w3, status, text);
    HoldsLater(w0, w1, response, FirstText(payload));
    HoldsLater(w1, w2, response, FirstText(payload));
    HoldsLater(w2, w3, response, FirstText(payload));
    var statusText := conn.PgValueStr(status, text);
    var body := conn.PgValueStr(response, FirstText(payload));
    r := Some((statusText, body));
    var ready := conn.ExpectMsg('Z', 5);
    if !ready {
      conn.Close();
    }
  }

  /** What is written to the HTTP client: the texts of the first columns. */
  function Texts(served: Served): Option<(seq<byte>, seq<byte>)> {
    match served
    case Failure => None
    case Reply(status, response) => Some((FirstText(status), FirstText(response)))
  }

  lemma NothingToCome(s: Stream)
    requires Aligned(s)
    ensures Sized(s.ms) && StreamBytes(s) == []
  {}

  /**
   mugshot_serve_pg: exactly the batch is sent; the reply decides what is served; and for any reply of a
   conformant server the session model tells whether the connection is at the end of the reply.
   */
  method MugshotServePg(conn: PgConn, sql: seq<byte>, oids: seq<nat>, args: seq<seq<byte>>, ghost qs: seq<QueryReply>,
                        ghost state: byte)
    returns (r: Option<(seq<byte>, seq<byte>)>)
    requires conn.Valid() && conn.pos == 0 && |EncodeAll(Batch(sql, oids, args))| < 0x8000_0000
    requires conn.InStep() && !conn.stream.torn && !conn.stream.close && RowsOk(conn.stream.ms)
    modifies conn, conn.buf
    ensures conn.Valid() && conn.InStep() && conn.pos == 0
    ensures conn.sent == old(conn.sent) + EncodeAll(Batch(sql, oids, args))
    ensures conn.stream == Serve(old(conn.stream)).1 && r == Texts(Serve(old(conn.stream)).0)
    ensures Conformant(qs) && WithoutNotices(old(conn.stream).ms) == WholeReply(qs, state)
              && Ends(old(conn.stream).ms) ==>
              && (Aligned(conn.stream) <==> Drained(qs) && Quiet(old(conn.stream).ms))
              && (Aligned(conn.stream) ==> conn.input == [])
              && r == (if Quiet(old(conn.stream).ms) then Texts(Answer(qs)) else None)
              && !conn.close
  {
    hide *;
    ghost var before := conn.stream;
    SendBatch(conn, sql, oids, args);
    r := ServeReply(conn);
    conn.PgClear();
    StreamParts(conn);
    if Conformant(qs) && WithoutNotices(before.ms) == WholeReply(qs, state) && Ends(before.ms) {
      ServedExactly(qs, state, before.ms);
      assert before == Stream(before.ms, false, false);
      TextsOfFailure();
      if Aligned(conn.stream) {
        NothingToCome(conn.stream);
      }
    }
  }

  lemma TextsOfFailure()
    ensures Texts(Failure) == None
  {}

  lemma StreamParts(conn: PgConn)
    requires conn.InStep()
    ensures Sized(conn.stream.ms) && conn.input == StreamBytes(conn.stream) && conn.close == conn.stream.close
  {}

  // ----- the batch in full -----

  /** The bytes are those of the characters. */
  predicate Spells(b: seq<byte>, s: string) {
    |b| == |s| && forall i | 0 <= i < |s| :: b[i] == s[i] as int
  }

  /** ASCII without a NUL. */
  predicate Visible(s: string) {
    forall c | c in s :: 0 < c as int < 128
  }

  lemma AsciiSpells(s: string)
    requires Visible(s)
    ensures Spells(Ascii(s), s) && NoNul(Ascii(s))
  {
    forall i | 0 <= i < |s| ensures Ascii(s)[i] == s[i] as int != 0 {
      assert s[i] in s;
    }
  }

  lemma Commands()
    ensures Spells(Ascii(SET_STATUS), "SET mugshot.http_status TO '200'") && NoNul(Ascii(SET_STATUS))
    ensures Spells(Ascii(GET_STATUS), "SELECT current_setting('mugshot.http_status')") && NoNul(Ascii(GET_STATUS))
  {
    hide *;
    SetVisible();
    GetVisible();
    AsciiSpells(SET_STATUS);
    AsciiSpells(GET_STATUS);
  }

  lemma SetVisible()
    ensures SET_STATUS == "SET mugshot.http_status TO '200'" && Visible(SET_STATUS)
  {
    assert Visible("SET mugshot.http") && Visible("_status TO '200'");
    assert SET_STATUS == "SET mugshot.http" + "_status TO '200'";
  }

  lemma GetVisible()
    ensures GET_STATUS == "SELECT current_setting('mugshot.http_status')" && Visible(GET_STATUS)
  {
    var a, b := "SELECT current_setting(", "'mugshot.http_status')";
    GetPiecesVisible();
    VisibleBoth(a, b);
    hide Visible;
    assert GET_STATUS == a + b;
  }

  lemma GetPiecesVisible()
    ensures Visible("SELECT current_setting(") && Visible("'mugshot.http_status')")
  {
    assert Visible("SELECT curre") && Visible("nt_setting(");
    assert "SELECT current_setting(" == "SELECT curre" + "nt_setting(";
  }

  lemma VisibleBoth(a: string, b: string)
    requires Visible(a) && Visible(b)
    ensures Visible(a + b)
  {
  }

  lemma BatchDecodes(sql: seq<byte>, oids: seq<nat>, args: seq<seq<byte>>)
    requires NoNul(sql) && |oids| < 65536 && |args| < 65536
    requires (forall x | x in oids :: x < 0x1_0000_0000) && (forall p | p in args :: |p| < 0x8000_0000)
    requires |EncodeAll(Batch(sql, oids, args))| < 0x8000_0000
    ensures DecodeAll(EncodeAll(Batch(sql, oids, args))) == Some(Batch(sql, oids, args))
  {
    Commands();
    BatchBytes(sql, oids, args);
    hide EncodeAll, DecodeAll, QueryMessages, Encodable, Ascii, Spells, NoNul;
    QueryEncodable(Ascii(SET_STATUS), [], []);
    QueryEncodable(sql, oids, args);
    QueryEncodable(Ascii(GET_STATUS), [], []);
    SyncEncodable();
    assert forall m | m in Batch(sql, oids, args) :: Encodable(m);
    RoundTrip(Batch(sql, oids, args));
  }

  lemma SyncEncodable()
    ensures Encodable(Sync)
  {}

  /**
   What is sent decodes to thirteen messages: the status is set to 200, then the call is made with its own SQL,
   types and values, then the status is asked for; each is parsed, bound with binary results, described as the
   unnamed portal and executed for all its rows; and a Sync comes last.
   */
  lemma BatchInFull(sql: seq<byte>, oids: seq<nat>, args: seq<seq<byte>>)
    requires NoNul(sql) && |oids| < 65536 && |args| < 65536
    requires (forall x | x in oids :: x < 0x1_0000_0000) && (forall p | p in args :: |p| < 0x8000_0000)
    requires |EncodeAll(Batch(sql, oids, args))| < 0x8000_0000
    ensures exists first, last ::
              && Spells(first, "SET mugshot.http_status TO '200'")
              && Spells(last, "SELECT current_setting('mugshot.http_status')")
              && DecodeAll(EncodeAll(Batch(sql, oids, args)))
                 == Some([Parse([], first, []), Bind([], [], [], [], [1]), Describe(80, []), Execute([], 0),
                          Parse([], sql, oids), Bind([], [], [], args, [1]), Describe(80, []), Execute([], 0),
                          Parse([], last, []), Bind([], [], [], [], [1]), Describe(80, []), Execute([], 0),
                          Sync])
  {
    hide *;
    BatchDecodes(sql, oids, args);
    Commands();
    var first, last := Ascii(SET_STATUS), Ascii(GET_STATUS);
    Thirteen(first, sql, oids, args, last);
    BatchParts(sql, oids, args);
    assert Spells(first, "SET mugshot.http_status TO '200'");
    assert Spells(last, "SELECT current_setting('mugshot.http_status')");
  }

  lemma BatchParts(sql: seq<byte>, oids: seq<nat>, args: seq<seq<byte>>)
    ensures Batch(sql, oids, args)
            == QueryMessages(Ascii(SET_STATUS), [], []) + QueryMessages(sql, oids, args)
               + QueryMessages(Ascii(GET_STATUS), [], []) + [Sync]
  {}

  lemma Thirteen(first: seq<byte>, sql: seq<byte>, oids: seq<nat>, args: seq<seq<byte>>, last: seq<byte>)
    ensures QueryMessages(first, [], []) + QueryMessages(sql, oids, args) + QueryMessages(last, [], []) + [Sync]
            == [Parse([], first, []), Bind([], [], [], [], [1]), Describe(80, []), Execute([], 0),
                Parse([], sql, oids), Bind([], [], [], args, [1]), Describe(80, []), Execute([], 0),
                Parse([], last, []), Bind([], [], [], [], [1]), Describe(80, []), Execute([], 0),
                Sync]
  {
    hide Encode, Body;
  }

  /** What is served of the usual rows: the status and the response, the first column of each. */
  lemma ServedTexts(status: seq<byte>, response: seq<byte>, more: seq<Cell>, others: seq<Cell>)
    requires RowOk([Some(status)] + more) && RowOk([Some(response)] + others)
    ensures Texts(Reply(EncodeRow([Some(status)] + more), EncodeRow([Some(response)] + others)))
            == Some((status, response))
  {
    hide EncodeRow, FirstText, RowOk;
    FirstTextOf([Some(status)] + more);
    FirstTextOf([Some(response)] + others);
  }
}
