/**
 The client's side of a pipelined session, message by message: what each reading step of pgwire.c takes from
 the stream of backend messages, what serving a request takes in all, and when that leaves the stream at
 the end of the reply.
 */
module PgSession {
  import opened Seqs
  import opened Bytes
  import opened StringPools

  datatype Message = Message(kind: char, payload: seq<byte>)

  /**
   What the server has still to say. `torn` means that the header of the first message has been read but not
   its payload; `close` that the connection has been marked for closing.
   */
  datatype Stream = Stream(ms: seq<Message>, torn: bool, close: bool)

  /** expect_msg: notices are passed over, an error is followed up to ReadyForQuery (read_error). */
  function Expect(kind: char, size: int, s: Stream): (r: (bool, Stream))
    requires !s.torn
    ensures r.0 ==> !r.1.torn
    decreases |s.ms|
  {
    if s.ms == [] then (false, s)
    else
      var m, next := s.ms[0], s.(ms := s.ms[1..]);
      if m.kind == 'N' then Expect(kind, size, next)
      else if m.kind == 'E' then
        var (ready, after) := Expect('Z', 5, next);
        (false, after.(close := !ready))
      else if m.kind != kind || (size != -1 && |m.payload| + 4 != size) then (false, s.(torn := true))
      else (true, next)
  }

  datatype Result = Failed | NoRows | HasRows(description: seq<byte>)

  /** pg_read_result */
  function ReadResult(s: Stream): (r: (Result, Stream))
    requires !s.torn
    ensures !r.0.Failed? ==> !r.1.torn
  {
    var (parsed, s1) := Expect('1', 4, s);
    if !parsed then (Failed, s1)
    else
      var (bound, s2) := Expect('2', 4, s1);
      if !bound then (Failed, s2) else Described(s2)
  }

  /** The rest of pg_read_result. This message is read as it comes: a notice here is not passed over. */
  function Described(s: Stream): (r: (Result, Stream))
    requires !s.torn
    ensures !r.0.Failed? ==> !r.1.torn
  {
    if s.ms == [] then (Failed, s)
    else
      var m, next := s.ms[0], s.(ms := s.ms[1..]);
      if m.kind == 'n' then
        var (done, after) := Expect('C', -1, next);
        (if done then NoRows else Failed, after)
      else if m.kind != 'T' || |m.payload| < 2 then (Failed, next)
      else (HasRows(m.payload), next)
  }

  datatype RowRead = Row(payload: seq<byte>) | End | Broken

  /** pg_next_row: notices are passed over; anything but a row and the end of the command is a failure. */
  function NextRow(s: Stream): (r: (RowRead, Stream))
    requires !s.torn
    ensures !r.1.torn && r.1.close == s.close
    decreases |s.ms|
  {
    if s.ms == [] then (Broken, s)
    else
      var m, next := s.ms[0], s.(ms := s.ms[1..]);
      if m.kind == 'N' then NextRow(next)
      else if m.kind == 'D' then (Row(m.payload), next)
      else if m.kind == 'C' then (End, next)
      else (Broken, next)
  }

  /** What is served: the rows of the status and of the response, or an error. */
  datatype Served = Reply(status: seq<byte>, response: seq<byte>) | Failure

  /**
   The reading half of mugshot_serve_pg. Every failure ends it where the stream then is; only a reply looks
   for ReadyForQuery, and closes the connection without one. A failure where the end of the last query is
   looked for goes unnoticed.
   */
  function Serve(s: Stream): (r: (Served, Stream))
    requires !s.torn
  {
    var (set_, s1) := ReadResult(s);
    if set_.Failed? then (Failure, s1) else ServeCall(s1)
  }

  /** The function call: exactly one row. */
  function ServeCall(s: Stream): (r: (Served, Stream))
    requires !s.torn
  {
    var (call, s2) := ReadResult(s);
    if call.Failed? then (Failure, s2)
    else
      var (response, s3) := NextRow(s2);
      if !response.Row? then (Failure, s3)
      else
        var (extra, s4) := NextRow(s3);
        if !extra.End? then (Failure, s4) else ServeStatus(response.payload, s4)
  }

  /** The status: at least one row, and no second one. */
  function ServeStatus(response: seq<byte>, s: Stream): (r: (Served, Stream))
    requires !s.torn
  {
    var (setting, s5) := ReadResult(s);
    if setting.Failed? then (Failure, s5)
    else
      var (status, s6) := NextRow(s5);
      if !status.Row? then (Failure, s6)
      else
        var (extra, s7) := NextRow(s6);
        if extra.Row? then (Failure, s7)
        else
          var (ready, s8) := Expect('Z', 5, s7);
          (Reply(status.payload, response), if ready then s8 else s8.(close := true))
  }

  // ----- what a server replies -----

  /** The reply to Parse, Bind, Describe and Execute of one query. An error is the last thing of it. */
  datatype QueryReply =
    | NoData(tag: seq<byte>)
    | Rows(description: seq<byte>, rows: seq<seq<byte>>, tag: seq<byte>)
    | ParseError(error: seq<byte>)
    | BindError(error: seq<byte>)
    | DescribeError(error: seq<byte>)
    | ExecuteError(error: seq<byte>)
    | RowsError(description: seq<byte>, rows: seq<seq<byte>>, error: seq<byte>)

  predicate IsError(q: QueryReply) {
    !q.NoData? && !q.Rows?
  }

  function DataRows(rows: seq<seq<byte>>): (r: seq<Message>)
    ensures |r| == |rows| && forall i | 0 <= i < |r| :: r[i] == Message('D', rows[i])
  {
    seq(|rows|, i requires 0 <= i < |rows| => Message('D', rows[i]))
  }

  function Messages(q: QueryReply): seq<Message> {
    match q
    case NoData(tag) => [Message('1', []), Message('2', []), Message('n', []), Message('C', tag)]
    case Rows(description, rows, tag) =>
      [Message('1', []), Message('2', []), Message('T', description)] + DataRows(rows) + [Message('C', tag)]
    case ParseError(e) => [Message('E', e)]
    case BindError(e) => [Message('1', []), Message('E', e)]
    case DescribeError(e) => [Message('1', []), Message('2', []), Message('E', e)]
    case ExecuteError(e) => [Message('1', []), Message('2', []), Message('n', []), Message('E', e)]
    case RowsError(description, rows, e) =>
      [Message('1', []), Message('2', []), Message('T', description)] + DataRows(rows) + [Message('E', e)]
  }

  /** The replies to a pipeline of three queries: after an error the server skips to the Sync. */
  predicate Conformant(qs: seq<QueryReply>) {
    && 1 <= |qs| <= 3
    && (forall i | 0 <= i < |qs| - 1 :: !IsError(qs[i]))
    && (|qs| < 3 ==> IsError(qs[|qs| - 1]))
    && (forall q | q in qs && (q.Rows? || q.RowsError?) :: |q.description| >= 2)
  }

  function AllMessages(qs: seq<QueryReply>): seq<Message> {
    if qs == [] then [] else Messages(qs[0]) + AllMessages(qs[1..])
  }

  /** A whole reply, ReadyForQuery last. */
  function WholeReply(qs: seq<QueryReply>, state: byte): seq<Message> {
    AllMessages(qs) + [Message('Z', [state])]
  }

  // ----- notices -----

  function WithoutNotices(ms: seq<Message>): seq<Message> {
    if ms == [] then []
    else (if ms[0].kind == 'N' then [] else [ms[0]]) + WithoutNotices(ms[1..])
  }

  /** No notice comes directly before a row description or a NoData. */
  predicate Quiet(ms: seq<Message>) {
    |ms| >= 2 ==> !(ms[0].kind == 'N' && (ms[1].kind == 'T' || ms[1].kind == 'n')) && Quiet(ms[1..])
  }

  /** The stream after the first message that is not a notice. */
  function After(ms: seq<Message>): (r: seq<Message>)
    ensures |r| <= |ms|
  {
    if ms == [] then [] else if ms[0].kind == 'N' then After(ms[1..]) else ms[1..]
  }

  /** The replies that are read through to ReadyForQuery. */
  predicate Drained(qs: seq<QueryReply>)
    requires Conformant(qs)
  {
    if |qs| == 1 then Followed(qs[0]) || (qs[0].RowsError? && qs[0].rows == [])
    else if |qs| == 2 then qs[0].NoData? && Followed(qs[1])
    else
      && qs[0].NoData? && qs[1].Rows? && |qs[1].rows| == 1
      && (Followed(qs[2]) || qs[2].NoData? || ((qs[2].Rows? || qs[2].RowsError?) && |qs[2].rows| == 1))
  }

  /** The errors that answer a Parse or a Bind, or the Execute of a query without rows. */
  predicate Followed(q: QueryReply) {
    q.ParseError? || q.BindError? || q.ExecuteError?
  }

  // ----- steps through notices -----

  /** The next message that is not a notice, and what follows it. */
  lemma {:induction false} Step(ms: seq<Message>, m: Message, rest: seq<Message>)
    requires WithoutNotices(ms) == [m] + rest
    ensures m.kind != 'N' && WithoutNotices(After(ms)) == rest && |After(ms)| < |ms|
    ensures m.kind != 'T' && m.kind != 'n' ==> (Quiet(ms) <==> Quiet(After(ms)))
    ensures m.kind == 'T' || m.kind == 'n' ==> (Quiet(ms) <==> ms[0] == m && Quiet(ms[1..]))
    ensures ms[0].kind != 'N' ==> ms[0] == m && After(ms) == ms[1..]
    decreases |ms|
  {
    if ms[0].kind == 'N' {
      Step(ms[1..], m, rest);
    } else {
      assert ([ms[0]] + WithoutNotices(ms[1..]))[1..] == rest;
    }
  }

  lemma {:induction false} ExpectStep(kind: char, size: int, s: Stream, m: Message, rest: seq<Message>)
    requires !s.torn && WithoutNotices(s.ms) == [m] + rest && m.kind != 'E'
    ensures m.kind == kind && (size == -1 || |m.payload| + 4 == size) ==>
              Expect(kind, size, s) == (true, s.(ms := After(s.ms)))
    ensures m.kind != kind ==>
              var r := Expect(kind, size, s);
              !r.0 && r.1.torn && r.1.close == s.close && WithoutNotices(r.1.ms) == [m] + rest
    decreases |s.ms|
  {
    if s.ms[0].kind == 'N' {
      ExpectStep(kind, size, s.(ms := s.ms[1..]), m, rest);
    } else {
      assert ([s.ms[0]] + WithoutNotices(s.ms[1..]))[0] == m;
    }
  }

  /** An error is followed up to a ReadyForQuery that ends the stream. */
  lemma {:induction false} ExpectError(kind: char, size: int, s: Stream, e: Message, z: Message)
    requires !s.torn && WithoutNotices(s.ms) == [e, z] && e.kind == 'E' && z.kind == 'Z' && |z.payload| == 1
    ensures Expect(kind, size, s) == (false, Stream(After(After(s.ms)), false, false))
    ensures WithoutNotices(After(After(s.ms))) == []
    decreases |s.ms|
  {
    assert [e, z] == [e] + [z] && [z] == [z] + [];
    Step(s.ms, e, [z]);
    Step(After(s.ms), z, []);
    if s.ms[0].kind == 'N' {
      ExpectError(kind, size, s.(ms := s.ms[1..]), e, z);
    } else {
      ExpectStep('Z', 5, s.(ms := s.ms[1..]), z, []);
    }
  }

  lemma {:induction false} NextRowStep(s: Stream, m: Message, rest: seq<Message>)
    requires !s.torn && WithoutNotices(s.ms) == [m] + rest
    ensures NextRow(s) == (if m.kind == 'D' then Row(m.payload) else if m.kind == 'C' then End else Broken,
                           s.(ms := After(s.ms)))
    decreases |s.ms|
  {
    if s.ms[0].kind == 'N' {
      NextRowStep(s.(ms := s.ms[1..]), m, rest);
    } else {
      assert ([s.ms[0]] + WithoutNotices(s.ms[1..]))[0] == m;
    }
  }

  // ----- whole replies -----

  /** The last message of the stream is not a notice. */
  predicate Ends(ms: seq<Message>) {
    ms != [] ==> ms[|ms| - 1].kind != 'N'
  }

  /** In the middle of a reply: `rest` is still to come, but for notices. */
  predicate Remaining(s: Stream, rest: seq<Message>) {
    !s.torn && !s.close && WithoutNotices(s.ms) == rest && Ends(s.ms)
  }

  /** The stream is at the end of the reply. */
  predicate Aligned(s: Stream) {
    !s.torn && s.ms == []
  }

  lemma {:induction false} AfterEnds(ms: seq<Message>)
    requires Ends(ms)
    ensures Ends(After(ms))
    decreases |ms|
  {
    if ms != [] && ms[0].kind == 'N' {
      AfterEnds(ms[1..]);
    }
  }

  lemma {:induction false} NothingRemains(s: Stream, rest: seq<Message>)
    requires Remaining(s, rest)
    ensures Aligned(s) <==> rest == []
    decreases |s.ms|
  {
    if s.ms != [] && rest == [] {
      assert s.ms[0].kind == 'N';
      NothingRemains(s.(ms := s.ms[1..]), rest);
    }
  }

  /** The next message of a reply, with all that the steps need to know. */
  lemma Next(s: Stream, m: Message, rest: seq<Message>)
    requires Remaining(s, [m] + rest)
    ensures m.kind != 'N' && Remaining(s.(ms := After(s.ms)), rest)
    ensures m.kind != 'T' && m.kind != 'n' ==> (Quiet(s.ms) <==> Quiet(After(s.ms)))
    ensures m.kind == 'T' || m.kind == 'n' ==> (Quiet(s.ms) <==> s.ms[0] == m && Quiet(s.ms[1..]))
    ensures s.ms != [] && (s.ms[0].kind != 'N' ==> s.ms[0] == m && After(s.ms) == s.ms[1..])
    ensures NextRow(s) == (if m.kind == 'D' then Row(m.payload) else if m.kind == 'C' then End else Broken,
                           s.(ms := After(s.ms)))
  {
    Step(s.ms, m, rest);
    AfterEnds(s.ms);
    NextRowStep(s, m, rest);
    hide *;
  }

  lemma Expected(kind: char, size: int, s: Stream, m: Message, rest: seq<Message>)
    requires Remaining(s, [m] + rest) && m.kind != 'E'
    ensures m.kind == kind && (size == -1 || |m.payload| + 4 == size) ==>
              Expect(kind, size, s) == (true, s.(ms := After(s.ms)))
    ensures m.kind != kind ==> var r := Expect(kind, size, s); !r.0 && r.1.torn && !r.1.close
  {
    ExpectStep(kind, size, s, m, rest);
    hide *;
  }

  /** An error that expect_msg meets is followed to the end of the reply. */
  lemma FollowedUp(kind: char, size: int, s: Stream, e: seq<byte>, state: byte)
    requires Remaining(s, [Message('E', e), Message('Z', [state])])
    ensures var r := Expect(kind, size, s); !r.0 && Remaining(r.1, []) && Quiet(s.ms)
  {
    var em, zm := Message('E', e), Message('Z', [state]);
    assert [em, zm] == [em] + [zm] && [zm] == [zm] + [];
    ExpectError(kind, size, s, em, zm);
    Next(s, em, [zm]);
    Next(s.(ms := After(s.ms)), zm, []);
    NothingRemains(s.(ms := After(After(s.ms))), []);
    assert Quiet([]);
  }

  /** Parse and Bind have succeeded. */
  lemma ToDescribe(s: Stream, rest: seq<Message>)
    requires Remaining(s, [Message('1', []), Message('2', [])] + rest)
    ensures var d := s.(ms := After(After(s.ms)));
            ReadResult(s) == Described(d) && Remaining(d, rest) && (Quiet(s.ms) <==> Quiet(d.ms))
  {
    hide Expect, Described, WithoutNotices, Quiet, After, NextRow;
    var p, b := Message('1', []), Message('2', []);
    assert [p, b] + rest == [p] + ([b] + rest);
    Next(s, p, [b] + rest);
    Expected('1', 4, s, p, [b] + rest);
    var s1 := s.(ms := After(s.ms));
    Next(s1, b, rest);
    Expected('2', 4, s1, b, rest);
  }

  /** A query without rows: read to its end, unless a notice stands before NoData. */
  lemma ReadNoData(s: Stream, tag: seq<byte>, rest: seq<Message>)
    requires Remaining(s, Messages(NoData(tag)) + rest)
    ensures var (r, t) := ReadResult(s);
            || (r.NoRows? && Remaining(t, rest) && (Quiet(s.ms) <==> Quiet(t.ms)))
            || (r.Failed? && !Quiet(s.ms) && !Aligned(t) && !t.close)
  {
    hide Expect, WithoutNotices, Quiet, After, NextRow, ReadResult;
    var n, c := Message('n', []), Message('C', tag);
    assert Messages(NoData(tag)) + rest == [Message('1', []), Message('2', [])] + ([n] + ([c] + rest));
    ToDescribe(s, [n] + ([c] + rest));
    var d := s.(ms := After(After(s.ms)));
    Next(d, n, [c] + rest);
    if d.ms[0].kind == 'N' {
      StillMore(d, n, [c] + rest);
    } else {
      var d1 := d.(ms := d.ms[1..]);
      Next(d1, c, rest);
      Expected('C', -1, d1, c, rest);
    }
  }

  /** A notice where the description belongs is taken for it, and the description is still to come. */
  lemma StillMore(d: Stream, m: Message, rest: seq<Message>)
    requires Remaining(d, [m] + rest) && d.ms != [] && d.ms[0].kind == 'N'
    ensures d.ms[1..] != []
  {
    assert WithoutNotices(d.ms) == WithoutNotices(d.ms[1..]);
  }

  /** A query with rows: read up to the first row, unless a notice stands before the description. */
  lemma ReadRows(s: Stream, description: seq<byte>, rest: seq<Message>)
    requires Remaining(s, [Message('1', []), Message('2', []), Message('T', description)] + rest) && |description| >= 2
    ensures var (r, t) := ReadResult(s);
            || (r == HasRows(description) && Remaining(t, rest) && (Quiet(s.ms) <==> Quiet(t.ms)))
            || (r.Failed? && !Quiet(s.ms) && !Aligned(t) && !t.close)
  {
    hide Expect, WithoutNotices, Quiet, After, NextRow, ReadResult;
    var m := Message('T', description);
    assert [Message('1', []), Message('2', []), m] + rest == [Message('1', []), Message('2', [])] + ([m] + rest);
    ToDescribe(s, [m] + rest);
    var d := s.(ms := After(After(s.ms)));
    Next(d, m, rest);
    if d.ms[0].kind == 'N' {
      StillMore(d, m, rest);
    }
  }

  /** Errors. Those that answer a Parse, a Bind or the Execute of a query without rows are followed up. */
  lemma ReadError(s: Stream, q: QueryReply, state: byte)
    requires Remaining(s, Messages(q) + [Message('Z', [state])]) && (Followed(q) || q.DescribeError?)
    ensures var (r, t) := ReadResult(s);
            && r.Failed? && !t.close && (Aligned(t) <==> Followed(q) && Quiet(s.ms))
  {
    hide Expect, WithoutNotices, Quiet, After, NextRow, ReadResult;
    var p, b, n, z := Message('1', []), Message('2', []), Message('n', []), Message('Z', [state]);
    match q
    case ParseError(e) =>
      assert Messages(q) + [z] == [Message('E', e), z];
      FollowedUp('1', 4, s, e, state);
      NothingRemains(Expect('1', 4, s).1, []);
      FailsAtParse(s);
    case BindError(e) =>
      assert Messages(q) + [z] == [p] + [Message('E', e), z];
      Next(s, p, [Message('E', e), z]);
      Expected('1', 4, s, p, [Message('E', e), z]);
      var s1 := s.(ms := After(s.ms));
      FollowedUp('2', 4, s1, e, state);
      NothingRemains(Expect('2', 4, s1).1, []);
      FailsAtBind(s);
    case DescribeError(e) =>
      var em := Message('E', e);
      assert Messages(q) + [z] == [p, b] + ([em] + [z]);
      ToDescribe(s, [em] + [z]);
      var d := s.(ms := After(After(s.ms)));
      Next(d, em, [z]);
      if d.ms[0].kind == 'N' {
        StillMore(d, em, [z]);
      } else {
        NothingRemains(d.(ms := After(d.ms)), [z]);
      }
    case ExecuteError(e) =>
      var em := Message('E', e);
      assert Messages(q) + [z] == [p, b] + ([n] + [em, z]);
      ToDescribe(s, [n] + [em, z]);
      var d := s.(ms := After(After(s.ms)));
      Next(d, n, [em, z]);
      if d.ms[0].kind == 'N' {
        StillMore(d, n, [em, z]);
      } else {
        var d1 := d.(ms := d.ms[1..]);
        FollowedUp('C', -1, d1, e, state);
        NothingRemains(Expect('C', -1, d1).1, []);
      }
  }

  lemma FailsAtParse(s: Stream)
    requires !s.torn && !Expect('1', 4, s).0
    ensures ReadResult(s) == (Failed, Expect('1', 4, s).1)
  {
    hide Expect, Described;
  }

  lemma FailsAtBind(s: Stream)
    requires !s.torn && Expect('1', 4, s).0 && !Expect('2', 4, Expect('1', 4, s).1).0
    ensures ReadResult(s) == (Failed, Expect('2', 4, Expect('1', 4, s).1).1)
  {
    hide Expect, Described;
  }

  /** The rows of a query and the message after them. */
  lemma TakeRow(s: Stream, rows: seq<seq<byte>>, x: Message, more: seq<Message>)
    requires Remaining(s, DataRows(rows) + ([x] + more)) && (x.kind == 'C' || x.kind == 'E')
    ensures var (row, t) := NextRow(s);
            && (Quiet(s.ms) <==> Quiet(t.ms))
            && (rows == [] ==> row == (if x.kind == 'C' then End else Broken) && Remaining(t, more))
            && (rows != [] ==> row == Row(rows[0]) && Remaining(t, DataRows(rows[1..]) + ([x] + more)))
  {
    if rows == [] {
      assert DataRows(rows) + ([x] + more) == [x] + more;
      Next(s, x, more);
    } else {
      var d, rest := Message('D', rows[0]), DataRows(rows[1..]) + ([x] + more);
      assert DataRows(rows) == [d] + DataRows(rows[1..]);
      assert DataRows(rows) + ([x] + more) == [d] + rest;
      Next(s, d, rest);
    }
    hide *;
  }

  /** What serving comes to, compared with a claim when it drains the reply and what it then returns. */
  predicate Comes(r: (Served, Stream), drained: bool, quiet: bool, reply: Served) {
    && !r.1.close
    && (Aligned(r.1) <==> drained && quiet)
    && r.0 == if quiet then reply else Failure
  }

  /** The reply that a client can hope for. */
  function Answer(qs: seq<QueryReply>): Served
    requires Conformant(qs)
  {
    if |qs| == 3 && qs[0].NoData? && qs[1].Rows? && |qs[1].rows| == 1
       && (qs[2].Rows? || qs[2].RowsError?) && |qs[2].rows| == 1
    then Reply(qs[2].rows[0], qs[1].rows[0])
    else Failure
  }

  lemma LastError(s: Stream, q: QueryReply, state: byte)
    requires Remaining(s, Messages(q) + [Message('Z', [state])]) && IsError(q) && !q.RowsError?
    ensures Comes(Serve(s), Followed(q), Quiet(s.ms), Failure)
    ensures Comes(ServeCall(s), Followed(q), Quiet(s.ms), Failure)
    ensures forall response :: Comes(ServeStatus(response, s), Followed(q), Quiet(s.ms), Failure)
  {
    ReadError(s, q, state);
    hide ReadResult, NextRow, Quiet, Remaining, Followed, Messages;
  }

  /** How a row query's messages split. */
  lemma RowsSplit(q: QueryReply, more: seq<Message>)
    requires q.Rows? || q.RowsError?
    ensures var x := if q.Rows? then Message('C', q.tag) else Message('E', q.error);
            Messages(q) + more
            == [Message('1', []), Message('2', []), Message('T', q.description)] + (DataRows(q.rows) + ([x] + more))
  {}

  lemma RowsRemain(s: Stream, rows: seq<seq<byte>>, x: Message, more: seq<Message>)
    requires Remaining(s, DataRows(rows) + ([x] + more))
    ensures !Aligned(s)
  {
    NothingRemains(s, DataRows(rows) + ([x] + more));
    hide *;
  }

  lemma MoreRemains(s: Stream, more: seq<Message>, z: Message)
    requires Remaining(s, more + [z])
    ensures !Aligned(s)
  {
    NothingRemains(s, more + [z]);
    hide *;
  }

  /** The status query, with the call's row in hand. */
  lemma StatusComes(response: seq<byte>, s: Stream, q: QueryReply, state: byte)
    requires Remaining(s, Messages(q) + [Message('Z', [state])])
    requires (q.Rows? || q.RowsError?) ==> |q.description| >= 2
    ensures var one := (q.Rows? || q.RowsError?) && |q.rows| == 1;
            Comes(ServeStatus(response, s), Followed(q) || q.NoData? || one, Quiet(s.ms),
                  if one then Reply(q.rows[0], response) else Failure)
  {
    var z := Message('Z', [state]);
    if q.NoData? {
      ReadNoData(s, q.tag, [z]);
      var t := ReadResult(s).1;
      if ReadResult(s).0.NoRows? {
        assert [z] == [z] + [];
        Next(t, z, []);
        NothingRemains(NextRow(t).1, []);
        assert Quiet([]);
      }
      hide *;
      StatusStops(response, s);
    } else if q.Rows? || q.RowsError? {
      StatusRows(response, s, q, state);
    } else {
      LastError(s, q, state);
      hide *;
      assert Comes(ServeStatus(response, s), Followed(q), Quiet(s.ms), Failure);
      NotRows(q);
    }
  }

  lemma NotRows(q: QueryReply)
    ensures q.RowsError? || q.Rows? || q.NoData? ==> !Followed(q)
  {}

  lemma StatusStops(response: seq<byte>, s: Stream)
    requires !s.torn
    ensures var (r, t) := ReadResult(s);
            && (r.Failed? ==> ServeStatus(response, s) == (Failure, t))
            && (!r.Failed? && !NextRow(t).0.Row? ==> ServeStatus(response, s) == (Failure, NextRow(t).1))
  {
    hide ReadResult, NextRow;
  }

  lemma StatusRows(response: seq<byte>, s: Stream, q: QueryReply, state: byte)
    requires Remaining(s, Messages(q) + [Message('Z', [state])])
    requires (q.Rows? || q.RowsError?) && |q.description| >= 2
    ensures Comes(ServeStatus(response, s), |q.rows| == 1, Quiet(s.ms),
                  if |q.rows| == 1 then Reply(q.rows[0], response) else Failure)
  {
    var z := Message('Z', [state]);
    var x := if q.Rows? then Message('C', q.tag) else Message('E', q.error);
    RowsSplit(q, [z]);
    hide Messages, ReadResult, NextRow, Quiet, Remaining, Expect, Aligned, DataRows, After, Remaining, WithoutNotices;
    ReadRows(s, q.description, DataRows(q.rows) + ([x] + [z]));
    var t := ReadResult(s).1;
    if !ReadResult(s).0.Failed? {
      TakeRow(t, q.rows, x, [z]);
      var u := NextRow(t).1;
      if q.rows == [] {
        MoreRemains(u, [], z) by { assert [] + [z] == [z]; }
      } else {
        TakeRow(u, q.rows[1..], x, [z]);
        var v := NextRow(u).1;
        if |q.rows| == 1 {
          ReadyAtLast(v, state);
        } else {
          RowsRemain(v, q.rows[1..][1..], x, [z]);
        }
      }
    }
  }

  lemma ReadyAtLast(v: Stream, state: byte)
    requires Remaining(v, [Message('Z', [state])])
    ensures var (ready, w) := Expect('Z', 5, v); ready && Aligned(w) && !w.close && Quiet(v.ms)
  {
    var z := Message('Z', [state]);
    assert [z] == [z] + [];
    Next(v, z, []);
    Expected('Z', 5, v, z, []);
    NothingRemains(v.(ms := After(v.ms)), []);
    assert Quiet([]);
    hide Expect, Quiet, After;
  }

  /** The messages of the queries still to come. */
  function Tail(qs: seq<QueryReply>, state: byte): seq<Message> {
    AllMessages(qs) + [Message('Z', [state])]
  }

  lemma TailFirst(qs: seq<QueryReply>, state: byte)
    requires qs != []
    ensures Tail(qs, state) == Messages(qs[0]) + Tail(qs[1..], state)
  {
    Assoc(Messages(qs[0]), AllMessages(qs[1..]), [Message('Z', [state])]);
  }

  /** The function call, with no more queries after it if it fails and one more if not. */
  lemma CallComes(s: Stream, q: QueryReply, rest: seq<QueryReply>, state: byte)
    requires Remaining(s, Messages(q) + Tail(rest, state))
    requires (q.Rows? || q.RowsError?) ==> |q.description| >= 2
    requires if IsError(q) then rest == [] else |rest| == 1
    requires |rest| == 1 && (rest[0].Rows? || rest[0].RowsError?) ==> |rest[0].description| >= 2
    ensures var one := q.Rows? && |q.rows| == 1;
            var last := |rest| == 1 && (rest[0].Rows? || rest[0].RowsError?) && |rest[0].rows| == 1;
            Comes(ServeCall(s), Followed(q) || (one && (Followed(rest[0]) || rest[0].NoData? || last)), Quiet(s.ms),
                  if one && last then Reply(rest[0].rows[0], q.rows[0]) else Failure)
  {
    if q.NoData? {
      CallNoData(s, q.tag, rest, state);
      NotRows(q);
      hide *;
    } else if q.Rows? || q.RowsError? {
      CallRows(s, q, rest, state);
      NotRows(q);
      hide *;
    } else {
      assert Tail(rest, state) == [Message('Z', [state])];
      LastError(s, q, state);
      hide *;
    }
  }

  lemma CallNoData(s: Stream, tag: seq<byte>, rest: seq<QueryReply>, state: byte)
    requires Remaining(s, Messages(NoData(tag)) + Tail(rest, state)) && |rest| == 1
    ensures Comes(ServeCall(s), false, Quiet(s.ms), Failure)
  {
    ReadNoData(s, tag, Tail(rest, state));
    TailFirst(rest, state);
    FirstMessage(rest[0], Tail(rest[1..], state));
    var t := ReadResult(s).1;
    if ReadResult(s).0.NoRows? {
      var ms := Tail(rest, state);
      assert ms == [ms[0]] + ms[1..];
      Next(t, ms[0], ms[1..]);
      NothingRemains(NextRow(t).1, ms[1..]);
    }
    hide ReadResult, NextRow, Quiet, Remaining, Messages, Tail;
  }

  lemma FirstMessage(q: QueryReply, more: seq<Message>)
    requires more != []
    ensures var ms := Messages(q) + more; |ms| >= 2 && (ms[0].kind == '1' || ms[0].kind == 'E')
  {}

  lemma CallRows(s: Stream, q: QueryReply, rest: seq<QueryReply>, state: byte)
    requires Remaining(s, Messages(q) + Tail(rest, state))
    requires (q.Rows? || q.RowsError?) && |q.description| >= 2
    requires if IsError(q) then rest == [] else |rest| == 1
    requires |rest| == 1 && (rest[0].Rows? || rest[0].RowsError?) ==> |rest[0].description| >= 2
    ensures var one := q.Rows? && |q.rows| == 1;
            var last := |rest| == 1 && (rest[0].Rows? || rest[0].RowsError?) && |rest[0].rows| == 1;
            Comes(ServeCall(s), one && (Followed(rest[0]) || rest[0].NoData? || last), Quiet(s.ms),
                  if one && last then Reply(rest[0].rows[0], q.rows[0]) else Failure)
  {
    var more := Tail(rest, state);
    var x := if q.Rows? then Message('C', q.tag) else Message('E', q.error);
    RowsSplit(q, more);
    hide Messages, ReadResult, NextRow, Quiet, Remaining, Aligned, DataRows, ServeStatus, Followed, AllMessages;
    ReadRows(s, q.description, DataRows(q.rows) + ([x] + more));
    var t := ReadResult(s).1;
    if !ReadResult(s).0.Failed? {
      TakeRow(t, q.rows, x, more);
      var u := NextRow(t).1;
      if q.rows == [] {
        MoreRemains(u, AllMessages(rest), Message('Z', [state]));
      } else {
        TakeRow(u, q.rows[1..], x, more);
        var v := NextRow(u).1;
        if |q.rows| > 1 {
          RowsRemain(v, q.rows[1..][1..], x, more);
        } else if q.Rows? {
          TailFirst(rest, state);
          assert rest[1..] == [];
          TailOfNone(state);
          StatusComes(q.rows[0], v, rest[0], state);
        } else {
          MoreRemains(v, AllMessages(rest), Message('Z', [state]));
        }
      }
    }
  }

  lemma TailOfNone(state: byte)
    ensures Tail([], state) == [Message('Z', [state])]
  {}

  /** The first query, which should have no rows: with rows it puts the client out of step. */
  lemma SetRows(s: Stream, q: QueryReply, more: seq<Message>, state: byte)
    requires Remaining(s, Messages(q) + more) && (q.Rows? || q.RowsError?) && |q.description| >= 2
    requires q.RowsError? ==> more == [Message('Z', [state])]
    ensures Comes(Serve(s), q.RowsError? && q.rows == [], Quiet(s.ms), Failure)
  {
    var x := if q.Rows? then Message('C', q.tag) else Message('E', q.error);
    RowsSplit(q, more);
    hide Messages, ReadResult, NextRow, Quiet, Remaining, Expect, After, WithoutNotices, ServeStatus;
    ReadRows(s, q.description, DataRows(q.rows) + ([x] + more));
    var t := ReadResult(s).1;
    if !ReadResult(s).0.Failed? {
      if q.RowsError? && q.rows == [] {
        assert DataRows(q.rows) + ([x] + more) == [x, Message('Z', [state])];
        FollowedUp('1', 4, t, q.error, state);
        NothingRemains(Expect('1', 4, t).1, []);
      } else if q.rows == [] {
        assert DataRows(q.rows) + ([x] + more) == [x] + more;
        Expected('1', 4, t, x, more);
      } else {
        var d, rest := Message('D', q.rows[0]), DataRows(q.rows[1..]) + ([x] + more);
        assert DataRows(q.rows) == [d] + DataRows(q.rows[1..]);
        assert DataRows(q.rows) + ([x] + more) == [d] + rest;
        Expected('1', 4, t, d, rest);
      }
      FailsAtParse(t);
    }
  }

  /**
   Exactly when serving a request leaves the stream at the end of the server's reply, for every conformant
   reply with notices anywhere in it: when no notice stands before a description, and the reply is one of
   those that Drained lists. Otherwise the connection is out of step, and it is not marked for closing.
   And the rows that a reply is made of are the ones the server sent.
   */
  lemma ServedExactly(qs: seq<QueryReply>, state: byte, ms: seq<Message>)
    requires Conformant(qs) && WithoutNotices(ms) == WholeReply(qs, state) && Ends(ms)
    ensures var (served, after) := Serve(Stream(ms, false, false));
            && (Aligned(after) <==> Drained(qs) && Quiet(ms))
            && !after.close
            && served == if Quiet(ms) then Answer(qs) else Failure
  {
    var s, q := Stream(ms, false, false), qs[0];
    TailFirst(qs, state);
    assert q in qs;
    forall i | 0 < i < |qs| ensures qs[i] in qs {}
    assert Comes(Serve(s), Drained(qs), Quiet(ms), Answer(qs)) by {
      if |qs| == 1 {
        assert qs[1..] == [];
        TailOfNone(state);
        if q.RowsError? {
          SetRows(s, q, [Message('Z', [state])], state);
        } else {
          LastError(s, q, state);
        }
        hide Serve, Quiet, Messages, Remaining, WithoutNotices, Aligned;
      } else if q.Rows? {
        SetRows(s, q, Tail(qs[1..], state), state);
        hide Serve, Quiet, Messages, Remaining, WithoutNotices, Aligned;
      } else {
        SetNoData(s, qs, state);
      }
    }
  }

  lemma SetNoData(s: Stream, qs: seq<QueryReply>, state: byte)
    requires Conformant(qs) && |qs| > 1 && qs[0].NoData? && Remaining(s, Messages(qs[0]) + Tail(qs[1..], state))
    ensures Comes(Serve(s), Drained(qs), Quiet(s.ms), Answer(qs))
  {
    var call, rest := qs[1], qs[2..];
    assert call in qs;
    ReadNoData(s, qs[0].tag, Tail(qs[1..], state));
    TailFirst(qs[1..], state);
    assert qs[1..][1..] == rest;
    var t := ReadResult(s).1;
    if !ReadResult(s).0.Failed? {
      if |qs| == 3 { assert rest[0] == qs[2] && qs[2] in qs; }
      CallComes(t, call, rest, state);
    }
    hide ReadResult, NextRow, Quiet, Messages, Remaining, Aligned, ServeCall, Tail;
  }

  /** A call that gives no row at all: the reply to the status query is left unread. */
  lemma MissingRow(state: byte)
    ensures var qs := [NoData([]), Rows([0, 1], [], []), Rows([0, 1], [[0, 0]], [])];
            && Conformant(qs)
            && !Aligned(Serve(Stream(WholeReply(qs, state), false, false)).1)
            && !Serve(Stream(WholeReply(qs, state), false, false)).1.close
  {
    var qs := [NoData([]), Rows([0, 1], [], []), Rows([0, 1], [[0, 0]], [])];
    var ms := WholeReply(qs, state);
    assert !Drained(qs);
    NoNotices(qs, state);
    ServedExactly(qs, state, ms);
  }

  lemma {:induction false} Kept(ms: seq<Message>)
    requires forall m | m in ms :: m.kind != 'N'
    ensures WithoutNotices(ms) == ms
  {
    if ms != [] {
      Kept(ms[1..]);
    }
  }

  lemma {:induction false} AllKept(qs: seq<QueryReply>)
    ensures forall m | m in AllMessages(qs) :: m.kind != 'N'
  {
    if qs != [] {
      AllKept(qs[1..]);
      assert forall m | m in Messages(qs[0]) :: m.kind != 'N';
    }
  }

  lemma NoNotices(qs: seq<QueryReply>, state: byte)
    ensures WithoutNotices(WholeReply(qs, state)) == WholeReply(qs, state) && Ends(WholeReply(qs, state))
  {
    AllKept(qs);
    Kept(WholeReply(qs, state));
    hide WithoutNotices, AllMessages;
  }

  // ----- any stream at all -----

  predicate Suffix(a: seq<Message>, b: seq<Message>) {
    |a| <= |b| && a == b[|b| - |a|..]
  }

  lemma SuffixChain(a: seq<Message>, b: seq<Message>, c: seq<Message>)
    requires Suffix(a, b) && Suffix(b, c)
    ensures Suffix(a, c)
  {
    assert b[|b| - |a|..] == c[|c| - |b|..][|b| - |a|..];
  }

  lemma {:induction false} NextRowSuffix(s: Stream)
    requires !s.torn
    ensures Suffix(NextRow(s).1.ms, s.ms)
    decreases |s.ms|
  {
    if s.ms != [] && s.ms[0].kind == 'N' {
      NextRowSuffix(s.(ms := s.ms[1..]));
    }
  }

  lemma {:induction false} ExpectSuffix(kind: char, size: int, s: Stream)
    requires !s.torn
    ensures Suffix(Expect(kind, size, s).1.ms, s.ms)
    decreases |s.ms|
  {
    if s.ms != [] {
      var next := s.(ms := s.ms[1..]);
      if s.ms[0].kind == 'N' {
        ExpectSuffix(kind, size, next);
        SuffixChain(Expect(kind, size, next).1.ms, next.ms, s.ms);
      } else if s.ms[0].kind == 'E' {
        ExpectSuffix('Z', 5, next);
        SuffixChain(Expect('Z', 5, next).1.ms, next.ms, s.ms);
      }
    }
  }

  lemma ReadResultSuffix(s: Stream)
    requires !s.torn
    ensures Suffix(ReadResult(s).1.ms, s.ms)
  {
    hide Expect, Suffix;
    var (parsed, s1) := Expect('1', 4, s);
    ExpectSuffix('1', 4, s);
    if parsed {
      var (bound, s2) := Expect('2', 4, s1);
      ExpectSuffix('2', 4, s1);
      SuffixChain(s2.ms, s1.ms, s.ms);
      if bound {
        DescribedSuffix(s2);
        SuffixChain(Described(s2).1.ms, s2.ms, s.ms);
      }
    }
  }

  lemma DescribedSuffix(s: Stream)
    requires !s.torn
    ensures Suffix(Described(s).1.ms, s.ms)
  {
    hide Expect;
    if s.ms != [] {
      var next := s.(ms := s.ms[1..]);
      ExpectSuffix('C', -1, next);
      SuffixChain(Expect('C', -1, next).1.ms, next.ms, s.ms);
    }
  }

  /** The stream up to and including a ReadyForQuery has been consumed, and no more. */
  predicate ReadUpToReady(before: seq<Message>, after: seq<Message>) {
    && |after| < |before| && Suffix(after, before)
    && before[|before| - |after| - 1].kind == 'Z' && |before[|before| - |after| - 1].payload| == 1
  }

  lemma {:induction false} ReadyIsLast(s: Stream)
    requires !s.torn && Expect('Z', 5, s).0
    ensures ReadUpToReady(s.ms, Expect('Z', 5, s).1.ms)
    decreases |s.ms|
  {
    if s.ms[0].kind == 'N' {
      var next := s.(ms := s.ms[1..]);
      ReadyIsLast(next);
      SuffixChain(Expect('Z', 5, next).1.ms, next.ms, s.ms);
    }
  }

  lemma ReadyLater(a: seq<Message>, b: seq<Message>, after: seq<Message>)
    requires Suffix(b, a) && ReadUpToReady(b, after)
    ensures ReadUpToReady(a, after)
  {
    SuffixChain(after, b, a);
  }

  /**
   Whatever a server sends, conformant or not: when a reply is served, the stream has been consumed exactly
   through a ReadyForQuery, or the connection is being closed.
   */
  lemma ReplyEndsAtReady(s: Stream)
    requires !s.torn && Serve(s).0.Reply?
    ensures Serve(s).1.close || (!Serve(s).1.torn && ReadUpToReady(s.ms, Serve(s).1.ms))
  {
    hide Expect, ReadResult, NextRow, Suffix, ReadUpToReady;
    var s1 := ReadResult(s).1;
    ReadResultSuffix(s);
    var s2 := ReadResult(s1).1;
    ReadResultSuffix(s1);
    SuffixChain(s2.ms, s1.ms, s.ms);
    var s3 := NextRow(s2).1;
    NextRowSuffix(s2);
    SuffixChain(s3.ms, s2.ms, s.ms);
    var s4 := NextRow(s3).1;
    NextRowSuffix(s3);
    SuffixChain(s4.ms, s3.ms, s.ms);
    var s5 := ReadResult(s4).1;
    ReadResultSuffix(s4);
    SuffixChain(s5.ms, s4.ms, s.ms);
    var s6 := NextRow(s5).1;
    NextRowSuffix(s5);
    SuffixChain(s6.ms, s5.ms, s.ms);
    var s7 := NextRow(s6).1;
    NextRowSuffix(s6);
    SuffixChain(s7.ms, s6.ms, s.ms);
    if Expect('Z', 5, s7).0 {
      ReadyIsLast(s7);
      ReadyLater(s.ms, s7.ms, Expect('Z', 5, s7).1.ms);
    }
  }

  // ----- replies in full -----

  /**
   The usual reply, message by message: the setting, the call with one row, the status with one row. It is read
   to its end, and the rows that are served are the first row and the second.
   */
  lemma UsualReply(a: seq<byte>, d: seq<byte>, response: seq<byte>, b: seq<byte>, e: seq<byte>, status: seq<byte>,
                   c: seq<byte>, state: byte)
    requires |d| >= 2 && |e| >= 2
    ensures Serve(Stream([Message('1', []), Message('2', []), Message('n', []), Message('C', a),
                          Message('1', []), Message('2', []), Message('T', d), Message('D', response), Message('C', b),
                          Message('1', []), Message('2', []), Message('T', e), Message('D', status), Message('C', c),
                          Message('Z', [state])], false, false))
            == (Reply(status, response), Stream([], false, false))
  {
    hide *;
    var qs := [NoData(a), Rows(d, [response], b), Rows(e, [status], c)];
    var ms := WholeReply(qs, state);
    UsualMessages(a, d, response, b, e, status, c, state);
    UsualConformant(a, d, response, b, e, status, c);
    NoNotices(qs, state);
    QuietWithout(ms);
    ServedExactly(qs, state, ms);
    AlignedStream(Serve(Stream(ms, false, false)).1);
  }

  lemma UsualConformant(a: seq<byte>, d: seq<byte>, response: seq<byte>, b: seq<byte>, e: seq<byte>,
                        status: seq<byte>, c: seq<byte>)
    requires |d| >= 2 && |e| >= 2
    ensures var qs := [NoData(a), Rows(d, [response], b), Rows(e, [status], c)];
            Conformant(qs) && Drained(qs) && Answer(qs) == Reply(status, response)
  {}

  lemma AlignedStream(s: Stream)
    requires Aligned(s) && !s.close
    ensures s == Stream([], false, false)
  {}

  lemma {:induction false} QuietWithout(ms: seq<Message>)
    requires WithoutNotices(ms) == ms
    ensures Quiet(ms)
    decreases |ms|
  {
    if ms != [] {
      WithoutShorter(ms[1..]);
      assert ms[0].kind != 'N';
      assert WithoutNotices(ms[1..]) == WithoutNotices(ms)[1..];
      QuietWithout(ms[1..]);
    }
  }

  lemma {:induction false} WithoutShorter(ms: seq<Message>)
    ensures |WithoutNotices(ms)| <= |ms|
    decreases |ms|
  {
    if ms != [] { WithoutShorter(ms[1..]); }
  }

  lemma UsualMessages(a: seq<byte>, d: seq<byte>, response: seq<byte>, b: seq<byte>, e: seq<byte>, status: seq<byte>,
                      c: seq<byte>, state: byte)
    ensures WholeReply([NoData(a), Rows(d, [response], b), Rows(e, [status], c)], state)
            == [Message('1', []), Message('2', []), Message('n', []), Message('C', a),
                Message('1', []), Message('2', []), Message('T', d), Message('D', response), Message('C', b),
                Message('1', []), Message('2', []), Message('T', e), Message('D', status), Message('C', c),
                Message('Z', [state])]
  {
    var x, y, z := NoData(a), Rows(d, [response], b), Rows(e, [status], c);
    assert [x, y, z][1..] == [y, z] && [y, z][1..] == [z] && [z][1..] == [];
    OneRowMessages(d, response, b);
    OneRowMessages(e, status, c);
    hide Messages;
    assert AllMessages([z]) == Messages(z) + [];
    assert AllMessages([y, z]) == Messages(y) + AllMessages([z]);
    assert AllMessages([x, y, z]) == Messages(x) + AllMessages([y, z]);
    NoDataMessages(a);
  }

  lemma NoDataMessages(a: seq<byte>)
    ensures Messages(NoData(a)) == [Message('1', []), Message('2', []), Message('n', []), Message('C', a)]
  {}

  lemma OneRowMessages(d: seq<byte>, row: seq<byte>, tag: seq<byte>)
    ensures Messages(Rows(d, [row], tag))
            == [Message('1', []), Message('2', []), Message('T', d), Message('D', row), Message('C', tag)]
  {
    assert DataRows([row]) == [Message('D', row)];
  }

  /** An error after which nothing comes: a failure, and the connection is marked for closing. */
  lemma ErrorWithoutEnd(error: seq<byte>)
    ensures Serve(Stream([Message('E', error)], false, false)) == (Failure, Stream([], false, true))
  {
    var ms, none: seq<Message> := [Message('E', error)], [];
    assert ms[1..] == none;
    var s := Stream(ms, false, false);
    assert Expect('Z', 5, s.(ms := none)) == (false, s.(ms := none));
    assert Expect('1', 4, s) == (false, Stream(none, false, true));
    assert ReadResult(s) == (Failed, Stream(none, false, true));
  }

  /** A notice and an error at the start, message by message: a failure, read to its end. */
  lemma ErrorReply(notice: seq<byte>, error: seq<byte>, state: byte)
    ensures Serve(Stream([Message('N', notice), Message('E', error), Message('Z', [state])], false, false))
            == (Failure, Stream([], false, false))
  {
    var ms := [Message('N', notice), Message('E', error), Message('Z', [state])];
    assert ms[1..] == [Message('E', error), Message('Z', [state])] && ms[1..][1..] == [Message('Z', [state])];
    assert ms[1..][1..][1..] == [];
    var s := Stream(ms, false, false);
    assert Expect('Z', 5, s.(ms := ms[1..][1..])) == (true, s.(ms := []));
    assert Expect('1', 4, s.(ms := ms[1..])) == (false, s.(ms := []));
    assert Expect('1', 4, s) == (false, s.(ms := []));
    assert ReadResult(s) == (Failed, s.(ms := []));
  }
}
