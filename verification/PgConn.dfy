/**
 The PostgreSQL connection of pgwire.c: one growable buffer that requests are written to and replies are
 read into.
 */
module PgConns {
  import opened Seqs
  import opened Bytes
  import opened StringPools
  import opened Wire
  import opened PgRows
  import opened PgSession

  const MIN_BUFFER_SIZE: nat := 4096
  const MIN_BUFFER_INCREASE: nat := 8192
  const MAX_BUFFER_INCREASE: nat := 5 * 1024 * 1024

  // ----- growth -----

  /** The size that pg_ensure_buf gives a buffer that is too small. */
  function GrownSize(size: nat, wanted: nat): nat {
    var golden := size * 1618 / 1000;
    if golden < wanted || golden - size > MAX_BUFFER_INCREASE then wanted
    else if golden - size < MIN_BUFFER_INCREASE then size + MIN_BUFFER_INCREASE
    else golden
  }

  /** Every way to grow gives what is wanted; beyond that, growth is in steps of 8192 bytes to five megabytes. */
  lemma GrowthSuffices(size: nat, wanted: nat)
    requires size < wanted
    ensures GrownSize(size, wanted) >= wanted
    ensures GrownSize(size, wanted) == wanted || 8192 <= GrownSize(size, wanted) - size <= 5242880
    ensures size == 100000 && wanted <= 161800 ==> GrownSize(size, wanted) == 161800
  {}

  // ----- what is sent -----

  /** The four messages of one query, unnamed throughout: text parameters, binary results, all the rows. */
  function QueryMessages(sql: seq<byte>, oids: seq<nat>, params: seq<seq<byte>>): seq<Frontend> {
    [Parse([], sql, oids), Bind([], [], [], params, [1]), Describe('P' as int, []), Execute([], 0)]
  }

  // ----- what is received -----

  predicate Sized(ms: seq<Message>) {
    forall m | m in ms :: m.kind as int < 256 && |m.payload| + 4 < 0x8000_0000
  }

  function Frames(ms: seq<Message>): seq<byte>
    requires Sized(ms)
  {
    if ms == [] then []
    else
      assert ms[0] in ms;
      Framed(ms[0].kind as int, ms[0].payload) + Frames(ms[1..])
  }

  /** The bytes of a stream. */
  function StreamBytes(s: Stream): seq<byte>
    requires Sized(s.ms)
  {
    if s.torn && s.ms != [] then s.ms[0].payload + Frames(s.ms[1..]) else Frames(s.ms)
  }

  datatype PgResult = PgResult(success: bool, descriptionStart: nat, fields: int, rowStart: int)

  datatype PgRow = PgRow(success: bool, hasRow: bool, rowStart: int)

  datatype PgVal = PgVal(success: bool, isNull: bool, len: nat, bufPos: nat)

  /** A value lies in the bytes written so far; what is read later does not move it. */
  predicate Holds(written: seq<byte>, v: PgVal, text: seq<byte>) {
    if v.isNull then text == []
    else v.bufPos + v.len <= |written| && written[v.bufPos..v.bufPos + v.len] == text
  }

  lemma HoldsLater(written: seq<byte>, later: seq<byte>, v: PgVal, text: seq<byte>)
    requires Holds(written, v, text) && |written| <= |later| && later[..|written|] == written
    ensures Holds(later, v, text)
  {
    if !v.isNull {
      assert later[..|written|][v.bufPos..v.bufPos + v.len] == later[v.bufPos..v.bufPos + v.len];
    }
  }

  /** What pg_value has to find out about a cell: that it is null, or where its bytes lie. */
  predicate Found(written: seq<byte>, isNull: bool, len: nat, bufPos: nat, c: Cell) {
    match c
    case None => isNull
    case Some(text) =>
      !isNull && len == |text| && bufPos + len <= |written| && written[bufPos..bufPos + len] == text
  }

  class PgConn {
    var buf: array<byte>
    var pos: nat
    var input: seq<byte>     // what the server will send
    var sent: seq<byte>      // what it has been sent
    var close: bool
    ghost var stream: Stream

    ghost predicate Valid()
      reads this
    {
      pos <= buf.Length
    }

    /** The bytes to come are those of the stream. */
    ghost predicate InStep()
      reads this`input, this`stream, this`close
    {
      Sized(stream.ms) && input == StreamBytes(stream) && close == stream.close
    }

    /** What has been put into the buffer. */
    ghost function Written(): (w: seq<byte>)
      reads this, buf
      requires Valid()
      ensures |w| == pos
    {
      buf[..pos]
    }

    /** There are at least 8192 spare bytes: every put leaves so many, and mark_len relies on it. */
    ghost predicate Roomy()
      reads this
    {
      pos + 8192 <= buf.Length
    }

    /** pg_ensure_buf */
    method EnsureBuf(extra: nat)
      requires Valid()
      modifies this`buf
      ensures Valid() && pos + extra + 8192 <= buf.Length && (buf == old(buf) || fresh(buf))
      ensures old(buf.Length) <= buf.Length && buf[..old(buf.Length)] == old(buf[..])
      ensures var wanted := pos + extra + MIN_BUFFER_INCREASE;
              buf.Length == if wanted > old(buf.Length) then GrownSize(old(buf.Length), wanted) else old(buf.Length)
    {
      var wanted := pos + extra + MIN_BUFFER_INCREASE;
      var size := buf.Length;
      if wanted > size {
        var newSize := size * 1618 / 1000;
        var increase := newSize - size;
        if newSize < wanted || increase > MAX_BUFFER_INCREASE {
          newSize := wanted;
        } else if increase < MIN_BUFFER_INCREASE {
          newSize := size + MIN_BUFFER_INCREASE;
        }
        GrowthSuffices(size, wanted);
        var newBuf := new byte[newSize](_ => 0);
        forall i | 0 <= i < size {
          newBuf[i] := buf[i];
        }
        buf := newBuf;
      }
    }

    /** memcpy to the position, which moves on. */
    method Append(bytes: seq<byte>)
      requires Valid() && pos + |bytes| <= buf.Length
      modifies this`pos, buf
      ensures Valid() && pos == old(pos) + |bytes| && Written() == old(Written()) + bytes
    {
      forall i | 0 <= i < |bytes| {
        buf[pos + i] := bytes[i];
      }
      pos := pos + |bytes|;
    }

    /** put_ch, put_i16, put_i32 and put_string: room is made, then the bytes are written. */
    method Put(bytes: seq<byte>)
      requires Valid()
      modifies this`buf, this`pos, buf
      ensures Valid() && Roomy() && (buf == old(buf) || fresh(buf))
      ensures Written() == old(Written()) + bytes
    {
      EnsureBuf(|bytes|);
      assert buf[..pos] == buf[..old(buf.Length)][..pos];
      Append(bytes);
    }

    /**
     mark_len: skips four bytes without looking for room. The spare bytes are what makes that safe; the
     place is kept in an int.
     */
    method MarkLen() returns (lenPos: nat)
      requires Valid() && Roomy() && pos < 0x8000_0000
      modifies this`pos
      ensures Valid() && lenPos == old(pos) && pos == lenPos + 4 && Written()[..lenPos] == old(Written())
    {
      lenPos := pos;
      pos := pos + 4;
    }

    /** update_len: writes the length of the message, now known, at the place kept for it. */
    method UpdateLen(lenPos: nat)
      requires Valid() && lenPos + 4 <= pos
      modifies buf
      ensures Valid() && Written() == old(Written())[..lenPos] + I32(pos - lenPos) + old(Written())[lenPos + 4..]
    {
      var length := I32(pos - lenPos);
      buf[lenPos], buf[lenPos + 1], buf[lenPos + 2], buf[lenPos + 3] := length[0], length[1], length[2], length[3];
    }

    /** The parameter types of put_parse. */
    method PutOids(oids: seq<nat>)
      requires Valid()
      modifies this`buf, this`pos, buf
      ensures Valid() && Roomy() && (buf == old(buf) || fresh(buf))
      ensures Written() == old(Written()) + Oids(oids)
    {
      hide *;
      Put(I16(|oids|));
      ghost var start := Written();
      var i := 0;
      OidsBegin(oids);
      while i < |oids|
        invariant 0 <= i <= |oids|
        invariant Valid() && Roomy() && (buf == old(buf) || fresh(buf))
        invariant Written() == start + Flat(OidChunks(oids)[..i])
      {
        OidsStep(oids, i, start);
        Put(I32(oids[i]));
        i := i + 1;
      }
      OidsEnd(oids, i, old(Written()));
    }

    /** The parameter values of put_bind. */
    method PutParams(params: seq<seq<byte>>)
      requires Valid()
      modifies this`buf, this`pos, buf
      ensures Valid() && Roomy() && (buf == old(buf) || fresh(buf))
      ensures Written() == old(Written()) + Params(params)
    {
      hide *;
      Put(I16(|params|));
      ghost var start := Written();
      var p := 0;
      ParamsBegin(params);
      while p < |params|
        invariant 0 <= p <= |params|
        invariant Valid() && Roomy() && (buf == old(buf) || fresh(buf))
        invariant Written() == start + Flat(ParamChunks(params)[..p])
      {
        ParamsStep(params, p, start);
        Put(I32(|params[p]|));
        Put(params[p]);
        p := p + 1;
      }
      ParamsEnd(params, p, old(Written()));
    }

    // ----- reading -----

    /** read: the bytes asked for, if so many are to come. */
    method Receive(n: nat) returns (ok: bool, bytes: seq<byte>)
      modifies this`input
      ensures ok <==> n <= |old(input)|
      ensures ok ==> bytes == old(input)[..n] && input == old(input)[n..]
      ensures !ok ==> input == []
    {
      if n <= |input| {
        ok, bytes := true, input[..n];
        input := input[n..];
      } else {
        ok, bytes := false, input;
        input := [];
      }
    }

    /** Stores bytes at the position, which stays. */
    method Place(bytes: seq<byte>)
      requires Valid() && pos + |bytes| <= buf.Length
      modifies buf
      ensures Written() == old(Written()) && buf[pos..pos + |bytes|] == bytes
    {
      forall i | 0 <= i < |bytes| {
        buf[pos + i] := bytes[i];
      }
    }

    /** Reads the header of the next message. */
    method ReadHeader() returns (ok: bool, kind: char, size: nat)
      requires InStep() && !stream.torn
      modifies this`input, this`stream
      ensures InStep() && ok == (old(stream).ms != [])
      ensures !ok ==> stream == old(stream)
      ensures ok ==>
                && stream == old(stream).(torn := true)
                && kind == stream.ms[0].kind && size == |stream.ms[0].payload| + 4
    {
      hide Frames, ReadI32, I32;
      HeaderBytes(stream);
      var header;
      ok, header := Receive(5);
      kind, size := '\0', 0;
      if ok {
        kind := header[0] as char;
        size := ReadI32(header[1..]).value.0;
        stream := stream.(torn := true);
      }
    }

    /** Reads the payload of the message whose header has been read, to the position in the buffer, which stays. */
    method ReadPayload(n: nat)
      requires Valid() && InStep() && stream.torn && stream.ms != [] && n == |stream.ms[0].payload|
      modifies this`input, this`stream, this`buf, buf
      ensures Valid() && InStep() && (buf == old(buf) || fresh(buf))
      ensures Written() == old(Written()) && pos + n <= buf.Length && buf[pos..pos + n] == old(stream).ms[0].payload
      ensures stream == Stream(old(stream).ms[1..], false, old(stream).close)
    {
      hide Frames;
      PayloadBytes(stream);
      EnsureBuf(n);
      var ok, bytes := Receive(n);
      assert buf[..pos] == buf[..old(buf.Length)][..pos];
      Place(bytes);
      stream := Stream(stream.ms[1..], false, stream.close);
    }

    /** A message without a payload has been read once its header has. */
    ghost method NoPayload()
      requires InStep() && stream.torn && stream.ms != [] && stream.ms[0].payload == []
      modifies this`stream
      ensures InStep() && stream == Stream(old(stream).ms[1..], false, old(stream).close)
    {
      hide Frames;
      PayloadBytes(stream);
      stream := Stream(stream.ms[1..], false, stream.close);
    }

    /** expect_msg: the payload is read beyond the position, which stays. */
    method ExpectMsg(kind: char, expectedSize: int) returns (ok: bool)
      requires Valid() && InStep() && !stream.torn
      modifies this`input, this`stream, this`buf, this`close, buf
      ensures Valid() && InStep() && (buf == old(buf) || fresh(buf)) && Written() == old(Written())
      ensures (ok, stream) == Expect(kind, expectedSize, old(stream))
      decreases |stream.ms|, 1
    {
      hide InStep, Frames, StreamBytes, Sized;
      while true
        invariant Valid() && InStep() && !stream.torn && (buf == old(buf) || fresh(buf)) && Written() == old(Written())
        invariant |stream.ms| <= |old(stream).ms|
        invariant Expect(kind, expectedSize, stream) == Expect(kind, expectedSize, old(stream))
        decreases |stream.ms|
      {
        var got, k, size := ReadHeader();
        if !got {
          return false;
        }
        if k == 'N' {
          ReadPayload(size - 4);
        } else if k == 'E' {
          ReadError(size);
          return false;
        } else if k != kind {
          return false;
        } else if expectedSize != -1 && size != expectedSize {
          return false;
        } else {
          if size > 4 {
            ReadPayload(size - 4);
          } else {
            NoPayload();
          }
          return true;
        }
      }
    }

    /** read_error: reads the fields, and marks the connection for closing if no ReadyForQuery follows. */
    method ReadError(size: nat)
      requires Valid() && InStep() && stream.torn && stream.ms != [] && size == |stream.ms[0].payload| + 4
      modifies this`input, this`stream, this`buf, this`close, buf
      ensures Valid() && InStep() && (buf == old(buf) || fresh(buf)) && Written() == old(Written())
      ensures var (ready, after) := Expect('Z', 5, Stream(old(stream).ms[1..], false, old(stream).close));
              stream == after.(close := !ready)
      decreases |stream.ms|, 0
    {
      hide Frames, Expect;
      if size > 4 {
        ReadPayload(size - 4);
      } else {
        NoPayload();
      }
      var ready := ExpectMsg('Z', 5);
      close := !ready;
      stream := stream.(close := close);
    }

    /** read_msg: the payload is read to the position, which moves past it. */
    method ReadMsg() returns (ok: bool, kind: char, data: nat, len: nat)
      requires Valid() && InStep() && !stream.torn
      modifies this`input, this`stream, this`buf, this`pos, buf
      ensures Valid() && InStep() && (buf == old(buf) || fresh(buf))
      ensures ok == (old(stream).ms != [])
      ensures !ok ==> stream == old(stream) && Written() == old(Written())
      ensures ok ==>
                var m := old(stream).ms[0];
                && kind == m.kind && len == |m.payload| && data == old(pos)
                && Written() == old(Written()) + m.payload
                && stream == old(stream).(ms := old(stream).ms[1..])
    {
      hide Frames, StreamBytes, Sized, InStep;
      var size;
      ok, kind, size := ReadHeader();
      data, len := pos, 0;
      if ok {
        len := size - 4;
        ReadPayload(len);
        assert buf[..pos + len] == buf[..pos] + buf[pos..pos + len];
        pos := pos + len;
      }
    }

    /** pg_read_result. A failure forgets what the buffer holds. */
    method PgReadResult() returns (r: PgResult)
      requires Valid() && InStep() && !stream.torn
      modifies this`input, this`stream, this`buf, this`pos, this`close, buf
      ensures Valid() && InStep() && (buf == old(buf) || fresh(buf))
      ensures var (result, after) := ReadResult(old(stream));
              && stream == after && r.success == !result.Failed?
              && (result.Failed? ==> pos == 0)
              && (!result.Failed? ==> old(pos) <= pos && Written()[..old(pos)] == old(Written()))
              && (result.NoRows? ==> r.fields == 0)
              && (result.HasRows? ==>
                    && r.descriptionStart == old(pos) && r.fields == Short(ReadI16(result.description).value.0)
                    && Written() == old(Written()) + result.description)
    {
      hide InStep, Expect, Short, ReadI16;
      r := PgResult(false, 0, 0, 0);
      var ok := ExpectMsg('1', 4);
      if ok {
        ok := ExpectMsg('2', 4);
      }
      if !ok {
        pos := 0;
        return;
      }
      r := ReadDescription();
    }

    /** The rest of pg_read_result. */
    method ReadDescription() returns (r: PgResult)
      requires Valid() && InStep() && !stream.torn
      modifies this`input, this`stream, this`buf, this`pos, this`close, buf
      ensures Valid() && InStep() && (buf == old(buf) || fresh(buf))
      ensures var (result, after) := Described(old(stream));
              && stream == after && r.success == !result.Failed?
              && (result.Failed? ==> pos == 0)
              && (!result.Failed? ==> old(pos) <= pos && Written()[..old(pos)] == old(Written()))
              && (result.NoRows? ==> r.fields == 0)
              && (result.HasRows? ==>
                    && r.descriptionStart == old(pos) && r.fields == Short(ReadI16(result.description).value.0)
                    && Written() == old(Written()) + result.description)
    {
      hide InStep, Expect, Short;
      r := PgResult(false, 0, 0, 0);
      ghost var start := pos;
      var ok, kind, data, len := ReadMsg();
      if !ok {
        pos := 0;
      } else if kind == 'n' {
        assert buf[..data] == Written()[..data];
        ok := ExpectMsg('C', -1);
        if ok {
          r := PgResult(true, 0, 0, 0);
        } else {
          pos := 0;
        }
      } else if kind != 'T' || len < 2 {
        pos := 0;
      } else {
        assert Written()[data..] == old(stream).ms[0].payload;
        assert Written()[data..] == buf[data..pos];
        r := PgResult(true, data, Short(ReadI16(buf[data..pos]).value.0), -1);
      }
    }

    /** pg_next_row: notices are read into the buffer too, and the row after them. */
    method PgNextRow() returns (row: PgRow)
      requires Valid() && InStep() && !stream.torn
      modifies this`input, this`stream, this`buf, this`pos, buf
      ensures Valid() && InStep() && (buf == old(buf) || fresh(buf))
      ensures old(pos) <= pos && Written()[..old(pos)] == old(Written())
      ensures var (read, after) := NextRow(old(stream));
              && stream == after
              && match read
                 case Row(p) => row == PgRow(true, true, row.rowStart) && 0 <= row.rowStart && row.rowStart + |p| == pos
                                && buf[row.rowStart..pos] == p
                 case End => row == PgRow(true, false, -1)
                 case Broken => row == PgRow(false, false, -1)
    {
      hide InStep;
      while true
        invariant Valid() && InStep() && !stream.torn && (buf == old(buf) || fresh(buf))
        invariant old(pos) <= pos && Written()[..old(pos)] == old(Written())
        invariant NextRow(stream) == NextRow(old(stream))
        decreases |stream.ms|
      {
        ghost var before := Written();
        var ok, kind, data, len := ReadMsg();
        assert Written()[..old(pos)] == Written()[..|before|][..old(pos)];
        if !ok {
          return PgRow(false, false, -1);
        } else if kind == 'D' {
          assert buf[data..pos] == Written()[|before|..];
          return PgRow(true, true, data);
        } else if kind == 'C' {
          return PgRow(true, false, -1);
        } else if kind != 'N' {
          return PgRow(false, false, -1);
        }
      }
    }

    /** One cell of pg_value. */
    method ReadCell(at: nat, ghost c: Cell) returns (isNull: bool, len: nat, bufPos: nat, next: nat)
      requires Valid() && (c.Some? ==> |c.value| < 0x8000_0000)
      requires at + |EncodeCell(c)| <= pos && buf[..][at..at + |EncodeCell(c)|] == EncodeCell(c)
      ensures next == at + |EncodeCell(c)| && Found(Written(), isNull, len, bufPos, c)
    {
      hide Roomy, InStep, EncodeCell, I32, ReadI32, Int;
      ghost var e, b := EncodeCell(c), buf[..];
      CellLength(c);
      SubSlice(b, at, |e|, 0, 4);
      assert buf[at..at + 4] == b[at..at + 4];
      var n := Int(ReadI32(buf[at..at + 4]).value.0);
      if n == -1 {
        return true, 0, 0, at + 4;
      }
      SubSlice(b, at, |e|, 4, |e|);
      isNull, len, bufPos, next := false, n, at + 4, at + 4 + n;
      assert Written()[bufPos..bufPos + len] == b[bufPos..bufPos + len];
    }

    /** pg_value: null, or exactly the bytes of the column; a field there is none of is a failure. */
    method PgValue(row: PgRow, field: int, ghost cols: seq<Cell>) returns (v: PgVal)
      requires Valid() && RowOk(cols)
      requires row.rowStart == -1 || (0 <= row.rowStart && row.rowStart + |EncodeRow(cols)| <= pos
                                      && buf[..][row.rowStart..row.rowStart + |EncodeRow(cols)|] == EncodeRow(cols))
      ensures v.success <==> row.rowStart != -1 && 0 <= field < |cols|
      ensures v.success ==> Found(Written(), v.isNull, v.len, v.bufPos, cols[field])
      ensures !v.success ==> v == PgVal(false, false, 0, 0)
    {
      hide Roomy, InStep, Offset, EncodeRow, EncodeCell, EncodeCells, Flat, I16, ReadI16, Found, Short;
      v := PgVal(false, false, 0, 0);
      if row.rowStart == -1 { return; }
      ghost var w, b := EncodeRow(cols), buf[..];
      RowCount(cols);
      var at: nat := row.rowStart;
      SubSlice(b, at, |w|, 0, 2);
      assert buf[at..at + 2] == b[at..at + 2];
      var fields := Short(ReadI16(buf[at..at + 2]).value.0);
      at := at + 2;
      if field < 0 || field >= fields { return; }
      var isNull, len: nat, bufPos: nat := false, 0, 0;
      var i := 0;
      while i <= field
        invariant 0 <= i <= field + 1 && at == row.rowStart + Offset(cols, i)
        invariant i > 0 ==> Found(Written(), isNull, len, bufPos, cols[i - 1])
      {
        CellAt(cols, i);
        assert cols[i] in cols;
        SubSlice(b, row.rowStart, |w|, Offset(cols, i), Offset(cols, i + 1));
        isNull, len, bufPos, at := ReadCell(at, cols[i]);
        i := i + 1;
      }
      v := PgVal(true, isNull, len, bufPos);
    }

    /** pg_value_str */
    method PgValueStr(v: PgVal, ghost text: seq<byte>) returns (s: seq<byte>)
      requires Valid() && Holds(Written(), v, text)
      ensures s == text
    {
      if v.isNull { return []; }
      assert buf[v.bufPos..v.bufPos + v.len] == Written()[v.bufPos..v.bufPos + v.len];
      s := buf[v.bufPos..v.bufPos + v.len];
    }

    /** pg_clear: everything read is forgotten, and an overly large buffer given up. */
    method PgClear()
      requires Valid()
      modifies this`buf, this`pos
      ensures Valid() && pos == 0 && (buf == old(buf) || fresh(buf)) && buf.Length <= 40960
    {
      pos := 0;
      if buf.Length > 10 * MIN_BUFFER_SIZE {
        buf := new byte[MIN_BUFFER_SIZE](_ => 0);
      }
    }

    /** pg_close: `close` also stands for a connection that is gone, which the C code frees here. */
    method Close()
      requires InStep()
      modifies this`stream, this`close
      ensures InStep() && stream == old(stream).(close := true)
    {
      close := true;
      stream := stream.(close := true);
    }

    /** pg_sync: Sync, and everything put so far is sent. */
    method PgSync()
      requires Valid()
      modifies this`buf, this`pos, this`sent, buf
      ensures Valid() && pos == 0 && (buf == old(buf) || fresh(buf))
      ensures sent == old(sent) + (old(Written()) + Encode(Sync))
    {
      PutSync();
      sent := sent + buf[..pos];
      pos := 0;
    }

    /** put_parse */
    method PutParse(sql: seq<byte>, oids: seq<nat>)
      requires Valid() && pos + 1 < 0x8000_0000
      modifies this`buf, this`pos, buf
      ensures Valid() && Roomy() && (buf == old(buf) || fresh(buf))
      ensures Written() == old(Written()) + Encode(Parse([], sql, oids))
    {
      hide *;
      Put(['P' as int]);
      var lenPos := MarkLen();
      ghost var hole := Written();
      Put([0]);
      Put(sql + [0]);
      PutOids(oids);
      ParseBody(hole, Written(), sql, oids);
      ghost var body := Body(Parse([], sql, oids));
      KindOf(Parse([], sql, oids));
      UpdateLen(lenPos);
      Patched(old(Written()), hole, body, Parse([], sql, oids));
    }

    /** Unnamed portal, unnamed statement, and no parameter formats: all of them text. */
    method PutNames()
      requires Valid()
      modifies this`buf, this`pos, buf
      ensures Valid() && Roomy() && (buf == old(buf) || fresh(buf))
      ensures Written() == old(Written()) + (CStr([]) + CStr([]) + I16s([]))
    {
      hide I16, I16s, Roomy;
      OneShort();
      Put([0]);
      Put([0]);
      Put(I16(0));
      assert old(Written()) + [0] + [0] + I16(0) == old(Written()) + ([] + [0] + ([] + [0]) + I16(0));
    }

    /** One result format, for all the columns: binary. */
    method PutBinary()
      requires Valid()
      modifies this`buf, this`pos, buf
      ensures Valid() && Roomy() && (buf == old(buf) || fresh(buf))
      ensures Written() == old(Written()) + I16s([1])
    {
      hide I16, I16s, Roomy;
      OneShort();
      Put(I16(1));
      Put(I16(1));
      Assoc(old(Written()), I16(1), I16(1));
    }

    /** put_bind */
    method PutBind(params: seq<seq<byte>>)
      requires Valid() && pos + 1 < 0x8000_0000
      modifies this`buf, this`pos, buf
      ensures Valid() && Roomy() && (buf == old(buf) || fresh(buf))
      ensures Written() == old(Written()) + Encode(Bind([], [], [], params, [1]))
    {
      hide *;
      Put(['B' as int]);
      var lenPos := MarkLen();
      ghost var hole := Written();
      PutNames();
      PutParams(params);
      PutBinary();
      BindBody(hole, Written(), params);
      ghost var body := Body(Bind([], [], [], params, [1]));
      KindOf(Bind([], [], [], params, [1]));
      UpdateLen(lenPos);
      Patched(old(Written()), hole, body, Bind([], [], [], params, [1]));
    }

    /** put_describe_portal */
    method PutDescribePortal()
      requires Valid() && pos + 1 < 0x8000_0000
      modifies this`buf, this`pos, buf
      ensures Valid() && Roomy() && (buf == old(buf) || fresh(buf))
      ensures Written() == old(Written()) + Encode(Describe('P' as int, []))
    {
      hide *;
      Put(['D' as int]);
      var lenPos := MarkLen();
      ghost var hole := Written();
      Put(['P' as int]);
      Put([0]);
      DescribeBody(hole, Written());
      ghost var body := Body(Describe('P' as int, []));
      KindOf(Describe('P' as int, []));
      UpdateLen(lenPos);
      Patched(old(Written()), hole, body, Describe('P' as int, []));
    }

    /** put_execute */
    method PutExecute()
      requires Valid() && pos + 1 < 0x8000_0000
      modifies this`buf, this`pos, buf
      ensures Valid() && Roomy() && (buf == old(buf) || fresh(buf))
      ensures Written() == old(Written()) + Encode(Execute([], 0))
    {
      hide *;
      Put(['E' as int]);
      var lenPos := MarkLen();
      ghost var hole := Written();
      Put([0]);
      Put(I32(0));
      ExecuteBody(hole, Written());
      ghost var body := Body(Execute([], 0));
      KindOf(Execute([], 0));
      UpdateLen(lenPos);
      Patched(old(Written()), hole, body, Execute([], 0));
    }

    /** put_sync */
    method PutSync()
      requires Valid()
      modifies this`buf, this`pos, buf
      ensures Valid() && Roomy() && (buf == old(buf) || fresh(buf))
      ensures Written() == old(Written()) + Encode(Sync)
    {
      Put(['S' as int]);
      Put(I32(4));
      assert old(Written()) + ['S' as int] + I32(4) == old(Written()) + (['S' as int] + I32(4) + []);
    }

    /**
     pg_put_query: appends the bytes of Parse, Bind, Describe and Execute, each with its own length, for any
     query within the limits of the format.
     */
    method PutQuery(sql: seq<byte>, oids: seq<nat>, params: seq<seq<byte>>)
      requires Valid() && pos + |EncodeAll(QueryMessages(sql, oids, params))| < 0x8000_0000
      modifies this`buf, this`pos, buf
      ensures Valid() && Roomy() && (buf == old(buf) || fresh(buf))
      ensures Written() == old(Written()) + EncodeAll(QueryMessages(sql, oids, params))
    {
      hide *;
      QueryBytes(sql, oids, params, Written());
      PutParse(sql, oids);
      PutBind(params);
      PutDescribePortal();
      PutExecute();
    }
  }

  // ----- the parts of the messages -----

  function OidChunks(oids: seq<nat>): (r: seq<seq<byte>>)
    ensures |r| == |oids|
  {
    seq(|oids|, i requires 0 <= i < |oids| => I32(oids[i]))
  }

  function ParamChunks(params: seq<seq<byte>>): (r: seq<seq<byte>>)
    ensures |r| == |params|
  {
    seq(|params|, i requires 0 <= i < |params| => Counted(params[i]))
  }

  // ----- the parts of the stream -----

  lemma SubSlice(b: seq<byte>, start: nat, n: nat, i: nat, j: nat)
    requires start + n <= |b| && i <= j <= n
    ensures b[start..start + n][i..j] == b[start + i..start + j]
  {
    var x, y := b[start..start + n][i..j], b[start + i..start + j];
    assert |x| == |y| && forall k | 0 <= k < |x| :: x[k] == y[k];
  }

  lemma HeaderBytes(s: Stream)
    requires Sized(s.ms) && !s.torn
    ensures s.ms == [] ==> StreamBytes(s) == []
    ensures s.ms != [] ==>
              var b := StreamBytes(s);
              && |b| >= 5 && b[0] as char == s.ms[0].kind
              && ReadI32(b[..5][1..]) == Some((|s.ms[0].payload| + 4, []))
              && b[5..] == StreamBytes(s.(torn := true))
  {
    if s.ms != [] {
      var m := s.ms[0];
      assert m in s.ms;
      hide I32, ReadI32;
      var len := I32(|m.payload| + 4);
      I32RoundTrip(|m.payload| + 4, []);
      assert len + [] == len;
      assert StreamBytes(s) == [m.kind as int] + len + m.payload + Frames(s.ms[1..]);
      assert StreamBytes(s)[..5][1..] == len;
      assert StreamBytes(s)[5..] == m.payload + Frames(s.ms[1..]);
    }
  }

  lemma PayloadBytes(s: Stream)
    requires Sized(s.ms) && s.torn && s.ms != []
    ensures Sized(s.ms[1..])
    ensures var b, n := StreamBytes(s), |s.ms[0].payload|;
            |b| >= n && b[..n] == s.ms[0].payload && b[n..] == StreamBytes(Stream(s.ms[1..], false, s.close))
  {
    hide Frames;
  }

  lemma OidsBegin(oids: seq<nat>)
    ensures Flat(OidChunks(oids)[..0]) == []
  {}

  lemma OidsStep(oids: seq<nat>, i: nat, start: seq<byte>)
    requires i < |oids|
    ensures start + Flat(OidChunks(oids)[..i]) + I32(oids[i]) == start + Flat(OidChunks(oids)[..i + 1])
  {
    hide I32;
    var chunks := OidChunks(oids);
    assert chunks[..i + 1] == chunks[..i] + [chunks[i]];
    FlatLast(chunks[..i], chunks[i]);
    Assoc(start, Flat(chunks[..i]), chunks[i]);
  }

  lemma ParamsBegin(params: seq<seq<byte>>)
    ensures Flat(ParamChunks(params)[..0]) == []
  {}

  lemma ParamsStep(params: seq<seq<byte>>, i: nat, start: seq<byte>)
    requires i < |params|
    ensures start + Flat(ParamChunks(params)[..i]) + I32(|params[i]|) + params[i]
              == start + Flat(ParamChunks(params)[..i + 1])
  {
    hide I32;
    var chunks := ParamChunks(params);
    assert chunks[..i + 1] == chunks[..i] + [chunks[i]];
    FlatLast(chunks[..i], chunks[i]);
    assert start + (Flat(chunks[..i]) + (I32(|params[i]|) + params[i]))
        == start + Flat(chunks[..i]) + I32(|params[i]|) + params[i];
  }

  lemma OidsEnd(oids: seq<nat>, i: nat, w: seq<byte>)
    requires i == |oids|
    ensures w + I16(|oids|) + Flat(OidChunks(oids)[..i]) == w + Oids(oids)
  {
    hide I16, I32, Flat;
    assert OidChunks(oids)[..i] == OidChunks(oids);
    Assoc(w, I16(|oids|), Flat(OidChunks(oids)));
  }

  lemma ParamsEnd(params: seq<seq<byte>>, i: nat, w: seq<byte>)
    requires i == |params|
    ensures w + I16(|params|) + Flat(ParamChunks(params)[..i]) == w + Params(params)
  {
    hide I16, Counted, Flat;
    assert ParamChunks(params)[..i] == ParamChunks(params);
    Assoc(w, I16(|params|), Flat(ParamChunks(params)));
  }

  lemma ParseBody(hole: seq<byte>, w: seq<byte>, sql: seq<byte>, oids: seq<nat>)
    requires w == hole + [0] + (sql + [0]) + Oids(oids)
    ensures w == hole + Body(Parse([], sql, oids))
  {
    hide Oids;
    assert w == hole + ([] + [0] + (sql + [0]) + Oids(oids));
  }

  lemma BindBody(hole: seq<byte>, w: seq<byte>, params: seq<seq<byte>>)
    requires w == hole + (CStr([]) + CStr([]) + I16s([])) + Params(params) + I16s([1])
    ensures w == hole + Body(Bind([], [], [], params, [1]))
  {
    hide CStr, I16s, Params;
    assert w == hole + (CStr([]) + CStr([]) + I16s([]) + Params(params) + I16s([1]));
  }

  lemma OneShort()
    ensures I16s([]) == I16(0) && I16s([1]) == I16(1) + I16(1)
  {
    hide I16;
    var none: seq<nat> := [];
    var one: seq<nat> := [1];
    var chunks := seq(|one|, i requires 0 <= i < |one| => I16(one[i]));
    assert chunks == [I16(1)] && chunks[..0] == [];
    assert Flat(chunks) == I16(1);
    assert seq(|none|, i requires 0 <= i < |none| => I16(none[i])) == [];
    assert I16(0) + [] == I16(0);
  }

  lemma KindOf(m: Frontend)
    ensures m.Parse? ==> Kind(m) == 'P' as int
    ensures m.Bind? ==> Kind(m) == 'B' as int
    ensures m.Describe? ==> Kind(m) == 'D' as int
    ensures m.Execute? ==> Kind(m) == 'E' as int
  {}

  lemma DescribeBody(hole: seq<byte>, w: seq<byte>)
    requires w == hole + ['P' as int] + [0]
    ensures w == hole + Body(Describe('P' as int, []))
  {
    assert ['P' as int] + ([] + [0]) == ['P' as int] + [0];
    assert w == hole + (['P' as int] + [0]);
  }

  lemma ExecuteBody(hole: seq<byte>, w: seq<byte>)
    requires w == hole + [0] + I32(0)
    ensures w == hole + Body(Execute([], 0))
  {
    assert w == hole + ([] + [0] + I32(0));
  }

  /** Once its length is patched in, the message is framed. */
  lemma Patched(w: seq<byte>, hole: seq<byte>, body: seq<byte>, m: Frontend)
    requires |hole| == |w| + 5 && hole[..|w| + 1] == w + [Kind(m)] && body == Body(m)
    ensures var all := hole + body;
            all[..|w| + 1] + I32(|all| - (|w| + 1)) + all[|w| + 5..] == w + Encode(m)
  {
    hide I32, Kind, Body;
    var all := hole + body;
    assert all[..|w| + 1] == w + [Kind(m)] && all[|w| + 5..] == body;
    assert w + [Kind(m)] + I32(|body| + 4) + body == w + ([Kind(m)] + I32(|body| + 4) + body);
  }

  lemma QueryBytes(sql: seq<byte>, oids: seq<nat>, params: seq<seq<byte>>, w: seq<byte>)
    ensures var p, b, d, e := Encode(Parse([], sql, oids)), Encode(Bind([], [], [], params, [1])),
                              Encode(Describe('P' as int, [])), Encode(Execute([], 0));
            && |p| > 0 && |b| > 0 && |d| > 0 && |e| > 0
            && |EncodeAll(QueryMessages(sql, oids, params))| == |p| + |b| + |d| + |e|
            && w + EncodeAll(QueryMessages(sql, oids, params)) == w + p + b + d + e
  {
    var ms := QueryMessages(sql, oids, params);
    var chunks := seq(|ms|, i requires 0 <= i < |ms| => Encode(ms[i]));
    hide Encode;
    assert chunks == [Encode(ms[0]), Encode(ms[1]), Encode(ms[2]), Encode(ms[3])];
    FourChunks(Encode(ms[0]), Encode(ms[1]), Encode(ms[2]), Encode(ms[3]), w);
    NotEmpty(ms[0]);
    NotEmpty(ms[1]);
    NotEmpty(ms[2]);
    NotEmpty(ms[3]);
  }

  lemma NotEmpty(m: Frontend)
    ensures |Encode(m)| == |Body(m)| + 5
  {
    hide Kind, Body;
  }

  /**
   What pg_put_query leaves in the buffer decodes to exactly its four messages, for any SQL text without
   NUL and any parameters within the 16- and 32-bit limits of the format.
   */
  lemma QueryDecodes(sql: seq<byte>, oids: seq<nat>, params: seq<seq<byte>>)
    requires NoNul(sql) && |oids| < 65536 && |params| < 65536
    requires (forall x | x in oids :: x < 0x1_0000_0000) && (forall p | p in params :: |p| < 0x8000_0000)
    requires |EncodeAll(QueryMessages(sql, oids, params))| < 0x8000_0000
    ensures DecodeAll(EncodeAll(QueryMessages(sql, oids, params))) == Some(QueryMessages(sql, oids, params))
  {
    QueryEncodable(sql, oids, params);
    RoundTrip(QueryMessages(sql, oids, params));
    hide EncodeAll, DecodeAll, QueryMessages, Encodable;
  }

  lemma QueryEncodable(sql: seq<byte>, oids: seq<nat>, params: seq<seq<byte>>)
    requires NoNul(sql) && |oids| < 65536 && |params| < 65536
    requires (forall x | x in oids :: x < 0x1_0000_0000) && (forall p | p in params :: |p| < 0x8000_0000)
    requires |EncodeAll(QueryMessages(sql, oids, params))| < 0x8000_0000
    ensures forall m | m in QueryMessages(sql, oids, params) :: Encodable(m)
  {
    hide Encode, Body, EncodeAll;
    QueryBytes(sql, oids, params, []);
    forall m | m in QueryMessages(sql, oids, params) ensures Encodable(m) {
      NotEmpty(m);
    }
  }

  lemma FourChunks(a: seq<byte>, b: seq<byte>, c: seq<byte>, d: seq<byte>, w: seq<byte>)
    ensures Flat([a, b, c, d]) == a + b + c + d && w + Flat([a, b, c, d]) == w + a + b + c + d
  {
    FlatLast([], a);
    FlatLast([a], b);
    FlatLast([a, b], c);
    FlatLast([a, b, c], d);
    assert [] + [a] == [a] && [a] + [b] == [a, b] && [a, b] + [c] == [a, b, c] && [a, b, c] + [d] == [a, b, c, d];
    assert Flat([]) + a == a;
  }

  /** A message that is received starts with its kind and a length that counts itself. */
  lemma ReadyBytes(state: byte)
    ensures Frames([Message('Z', [state])]) == [90, 0, 0, 0, 5, state]
  {
    var ms, none: seq<Message> := [Message('Z', [state])], [];
    MostSignificantFirst(0, 0, 0, 5);
    assert ms[1..] == none && Frames(none) == [];
    assert Framed(90, [state]) == [90] + I32(5) + [state];
    hide I32, Framed;
    assert Frames(ms) == Framed(90, [state]) + [];
  }
}
