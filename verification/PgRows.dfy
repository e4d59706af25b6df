/** The payload of a DataRow message ("Message Formats" in the Frontend/Backend Protocol chapter). */
module PgRows {
  import opened Seqs
  import opened Bytes
  import opened StringPools
  import opened Wire

  /** A column: null, or its bytes. */
  type Cell = Option<seq<byte>>

  function EncodeCell(c: Cell): seq<byte> {
    match c
    case None => I32(-1)
    case Some(s) => Counted(s)
  }

  function EncodeCells(cols: seq<Cell>): (r: seq<seq<byte>>)
    ensures |r| == |cols|
  {
    seq(|cols|, i requires 0 <= i < |cols| => EncodeCell(cols[i]))
  }

  function EncodeRow(cols: seq<Cell>): seq<byte> {
    I16(|cols|) + Flat(EncodeCells(cols))
  }

  predicate RowOk(cols: seq<Cell>) {
    |cols| < 32768 && forall c | c in cols && c.Some? :: |c.value| < 0x8000_0000
  }

  ghost predicate IsRow(payload: seq<byte>) {
    exists cols :: RowOk(cols) && payload == EncodeRow(cols)
  }

  /** A 16- or 32-bit number as C reads it into a short or an int. */
  function Short(v: nat): int
    requires v < 65536
  {
    if v >= 32768 then v - 65536 else v
  }

  function Int(v: nat): int
    requires v < 0x1_0000_0000
  {
    if v >= 0x8000_0000 then v - 0x1_0000_0000 else v
  }

  // ----- where a cell lies -----

  lemma {:induction false} FlatSplit(a: seq<seq<byte>>, b: seq<seq<byte>>)
    ensures Flat(a + b) == Flat(a) + Flat(b)
  {
    if b == [] {
      assert a + b == a && Flat(a) + [] == Flat(a);
    } else {
      var n := |b| - 1;
      assert (a + b)[..|a + b| - 1] == a + b[..n] && (a + b)[|a| + n] == b[n];
      FlatSplit(a, b[..n]);
      Assoc(Flat(a), Flat(b[..n]), b[n]);
    }
  }

  /** The bytes of the first k cells, after the count. */
  function Offset(cols: seq<Cell>, k: nat): nat
    requires k <= |cols|
  {
    2 + |Flat(EncodeCells(cols)[..k])|
  }

  lemma RowCount(cols: seq<Cell>)
    requires RowOk(cols)
    ensures Offset(cols, 0) == 2 <= |EncodeRow(cols)|
    ensures ReadI16(EncodeRow(cols)[..2]) == Some((|cols|, [])) && Short(|cols|) == |cols|
  {
    hide I16, ReadI16;
    assert EncodeRow(cols)[..2] == I16(|cols|);
    I16RoundTrip(|cols|, []);
    assert I16(|cols|) + [] == I16(|cols|);
  }

  /** The k-th cell lies at its offset, and the next one after it. */
  lemma CellAt(cols: seq<Cell>, k: nat)
    requires k < |cols|
    ensures var o, cell := Offset(cols, k), EncodeCell(cols[k]);
            && Offset(cols, k + 1) == o + |cell| <= |EncodeRow(cols)|
            && EncodeRow(cols)[o..o + |cell|] == cell
  {
    hide I16, EncodeCell, Flat;
    var cells := EncodeCells(cols);
    assert cells[k] == EncodeCell(cols[k]);
    hide EncodeCells;
    assert cells == cells[..k] + cells[k..];
    FlatSplit(cells[..k], cells[k..]);
    FlatFirst(cells[k..]);
    assert cells[..k + 1] == cells[..k] + [cells[k]];
    FlatLast(cells[..k], cells[k]);
    Lies(I16(|cols|), Flat(cells[..k]), cells[k], Flat(cells[k..][1..]));
  }

  lemma Lies(count: seq<byte>, before: seq<byte>, cell: seq<byte>, after: seq<byte>)
    ensures var row := count + (before + (cell + after));
            var o := |count| + |before|;
            o + |cell| <= |row| && row[o..o + |cell|] == cell
  {}

  /** What the length field of a cell says. */
  lemma CellLength(c: Cell)
    requires c.Some? ==> |c.value| < 0x8000_0000
    ensures var e := EncodeCell(c);
            && |e| >= 4 && ReadI32(e[..4]).Some?
            && var len := Int(ReadI32(e[..4]).value.0);
               && (c.None? ==> len == -1 && |e| == 4)
               && (c.Some? ==> len == |c.value| && |e| == 4 + len && e[4..] == c.value)
  {
    match c
    case None =>
    case Some(s) =>
      hide I32, ReadI32;
      I32RoundTrip(|s|, []);
      assert I32(|s|) + [] == I32(|s|) == EncodeCell(c)[..4];
  }

  // ----- the first column, as text -----

  /** The bytes of the first column: none if there is no column or it is null. */
  function FirstText(payload: seq<byte>): seq<byte> {
    if |payload| < 6 || ReadI16(payload[..2]).value.0 == 0 then []
    else
      var len := Int(ReadI32(payload[2..6]).value.0);
      if 0 <= len && 6 + len <= |payload| then payload[6..6 + len] else []
  }

  lemma FirstTextOf(cols: seq<Cell>)
    requires RowOk(cols)
    ensures FirstText(EncodeRow(cols)) == if cols == [] || cols[0].None? then [] else cols[0].value
  {
    hide I16, I32, ReadI16, ReadI32, EncodeCell, Flat, EncodeCells;
    RowCount(cols);
    if cols != [] {
      CellAt(cols, 0);
      CellLength(cols[0]);
      var row, e := EncodeRow(cols), EncodeCell(cols[0]);
      assert row[2..6] == row[2..2 + |e|][..4] == e[..4];
      if cols[0].Some? {
        assert row[6..2 + |e|] == row[2..2 + |e|][4..];
      }
    } else {
      NoColumns();
    }
  }

  lemma NoColumns()
    ensures |EncodeRow([])| == 2
  {}

  /** A row of "A" and null, byte by byte. */
  lemma RowBytes()
    ensures EncodeRow([Some([65]), None]) == [0, 2, 0, 0, 0, 1, 65, 255, 255, 255, 255]
  {
    var a: seq<byte>, none: seq<seq<byte>> := [65], [];
    var cells := EncodeCells([Some(a), None]);
    MostSignificantFirst(0, 0, 0, 1);
    assert I32(1) == [0, 0, 0, 1] && I32(-1) == [255, 255, 255, 255];
    hide I32;
    assert cells[0] == Counted(a) == [0, 0, 0, 1, 65];
    assert cells == [[0, 0, 0, 1, 65], [255, 255, 255, 255]];
    assert cells[..1] == [[0, 0, 0, 1, 65]] && cells[..1][..0] == none;
    assert Flat(cells[..1]) == Flat(none) + [0, 0, 0, 1, 65];
    assert Flat(cells) == Flat(cells[..1]) + [255, 255, 255, 255];
  }
}
