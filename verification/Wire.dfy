/**
 The frontend messages of the PostgreSQL protocol ("Message Formats" in the Frontend/Backend Protocol
 chapter) that the client sends, as bytes; and a decoder for them that shares nothing with the encoder.
 */
module Wire {
  import opened Seqs
  import opened Bytes
  import opened StringPools

  // ----- numbers -----

  /** htons and htonl: the low 16 or 32 bits, the most significant byte first. */
  function I16(v: int): (r: seq<byte>)
    ensures |r| == 2
  {
    [v / 256 % 256, v % 256]
  }

  function I32(v: int): (r: seq<byte>)
    ensures |r| == 4
  {
    [v / 16777216 % 256, v / 65536 % 256, v / 256 % 256, v % 256]
  }

  type Reader<T> = seq<byte> -> Option<(T, seq<byte>)>

  function ReadI16(s: seq<byte>): Option<(nat, seq<byte>)> {
    if |s| < 2 then None else
      var hi: int, lo: int := s[0], s[1];
      Some((hi * 256 + lo, s[2..]))
  }

  function ReadI32(s: seq<byte>): (r: Option<(nat, seq<byte>)>)
    ensures r.Some? ==> r.value.0 < 0x1_0000_0000
  {
    if |s| < 4 then None else
      var a: int, b: int, c: int, d: int := s[0], s[1], s[2], s[3];
      Some((((a * 256 + b) * 256 + c) * 256 + d, s[4..]))
  }

  lemma I16RoundTrip(v: nat, rest: seq<byte>)
    requires v < 65536
    ensures ReadI16(I16(v) + rest) == Some((v, rest))
  {
    assert (I16(v) + rest)[2..] == rest;
  }

  lemma I32RoundTrip(v: nat, rest: seq<byte>)
    requires v < 0x1_0000_0000
    ensures ReadI32(I32(v) + rest) == Some((v, rest))
  {
    assert (I32(v) + rest)[4..] == rest;
    Base256(v);
  }

  lemma Base256(v: nat)
    requires v < 0x1_0000_0000
    ensures ((v / 16777216 % 256 * 256 + v / 65536 % 256) * 256 + v / 256 % 256) * 256 + v % 256 == v
  {
    assert v / 65536 == v / 256 / 256 && v / 16777216 == v / 65536 / 256;
  }

  // ----- strings and lists -----

  predicate NoNul(s: seq<byte>) {
    forall c | c in s :: c != 0
  }

  function CStr(s: seq<byte>): seq<byte> {
    s + [0]
  }

  function ReadCStr(s: seq<byte>): Option<(seq<byte>, seq<byte>)> {
    if s == [] then None
    else if s[0] == 0 then Some(([], s[1..]))
    else
      match ReadCStr(s[1..])
      case None => None
      case Some((t, rest)) => Some(([s[0]] + t, rest))
  }

  lemma {:induction false} CStrRoundTrip(s: seq<byte>, rest: seq<byte>)
    requires NoNul(s)
    ensures ReadCStr(CStr(s) + rest) == Some((s, rest))
  {
    var all := CStr(s) + rest;
    if s == [] {
      assert all[1..] == rest;
    } else {
      assert s[0] in s && s == [s[0]] + s[1..];
      assert forall c | c in s[1..] :: c in s;
      assert all[1..] == CStr(s[1..]) + rest;
      CStrRoundTrip(s[1..], rest);
    }
  }

  /** A parameter value: its length, then its bytes. */
  function Counted(s: seq<byte>): seq<byte> {
    I32(|s|) + s
  }

  function ReadCounted(s: seq<byte>): Option<(seq<byte>, seq<byte>)> {
    match ReadI32(s)
    case None => None
    case Some((n, rest)) => if n <= |rest| then Some((rest[..n], rest[n..])) else None
  }

  lemma CountedRoundTrip(s: seq<byte>, rest: seq<byte>)
    requires |s| < 0x8000_0000
    ensures ReadCounted(Counted(s) + rest) == Some((s, rest))
  {
    assert Counted(s) + rest == I32(|s|) + (s + rest);
    I32RoundTrip(|s|, s + rest);
  }

  function Flat(chunks: seq<seq<byte>>): seq<byte> {
    if chunks == [] then [] else Flat(chunks[..|chunks| - 1]) + chunks[|chunks| - 1]
  }

  lemma {:induction false} FlatFirst(chunks: seq<seq<byte>>)
    requires chunks != []
    ensures Flat(chunks) == chunks[0] + Flat(chunks[1..])
  {
    var n := |chunks| - 1;
    if n > 0 {
      FlatFirst(chunks[..n]);
      assert chunks[1..][..n - 1] == chunks[..n][1..];
    } else {
      assert chunks[..0] == [] && chunks[1..] == [];
    }
  }

  lemma FlatLast(chunks: seq<seq<byte>>, last: seq<byte>)
    ensures Flat(chunks + [last]) == Flat(chunks) + last
  {
    assert (chunks + [last])[..|chunks|] == chunks;
  }

  /** Reads n items, one after the other. */
  function ReadMany<T>(s: seq<byte>, n: nat, read: Reader<T>): Option<(seq<T>, seq<byte>)>
    decreases n
  {
    if n == 0 then Some(([], s))
    else
      match read(s)
      case None => None
      case Some((x, rest)) =>
        match ReadMany(rest, n - 1, read)
        case None => None
        case Some((xs, end)) => Some(([x] + xs, end))
  }

  lemma {:induction false} ManyRoundTrip<T>(chunks: seq<seq<byte>>, items: seq<T>, read: Reader<T>, rest: seq<byte>)
    requires |chunks| == |items|
    requires forall i, more | 0 <= i < |items| :: read(chunks[i] + more) == Some((items[i], more))
    ensures ReadMany(Flat(chunks) + rest, |items|, read) == Some((items, rest))
    decreases |items|
  {
    if items == [] {
      assert Flat(chunks) + rest == rest;
    } else {
      FlatFirst(chunks);
      assert Flat(chunks) + rest == chunks[0] + (Flat(chunks[1..]) + rest);
      ManyRoundTrip(chunks[1..], items[1..], read, rest);
      assert [items[0]] + items[1..] == items;
    }
  }

  // ----- the messages -----

  datatype Frontend =
    | Parse(name: seq<byte>, query: seq<byte>, oids: seq<nat>)
    | Bind(portal: seq<byte>, statement: seq<byte>, formats: seq<nat>, params: seq<seq<byte>>, results: seq<nat>)
    | Describe(what: byte, object: seq<byte>)
    | Execute(portal: seq<byte>, maxRows: nat)
    | Sync


  function I16s(v: seq<nat>): seq<byte> {
    I16(|v|) + Flat(seq(|v|, i requires 0 <= i < |v| => I16(v[i])))
  }

  function Oids(v: seq<nat>): seq<byte> {
    I16(|v|) + Flat(seq(|v|, i requires 0 <= i < |v| => I32(v[i])))
  }

  function Params(v: seq<seq<byte>>): seq<byte> {
    I16(|v|) + Flat(seq(|v|, i requires 0 <= i < |v| => Counted(v[i])))
  }

  function Kind(m: Frontend): byte {
    match m
    case Parse(_, _, _) => 'P' as int
    case Bind(_, _, _, _, _) => 'B' as int
    case Describe(_, _) => 'D' as int
    case Execute(_, _) => 'E' as int
    case Sync => 'S' as int
  }

  function Body(m: Frontend): seq<byte> {
    match m
    case Parse(name, query, oids) => CStr(name) + CStr(query) + Oids(oids)
    case Bind(portal, statement, formats, params, results) =>
      CStr(portal) + CStr(statement) + I16s(formats) + Params(params) + I16s(results)
    case Describe(what, name) => [what] + CStr(name)
    case Execute(portal, maxRows) => CStr(portal) + I32(maxRows)
    case Sync => []
  }

  /** The length counts itself but not the kind. */
  function Framed(kind: byte, body: seq<byte>): seq<byte> {
    [kind] + I32(|body| + 4) + body
  }

  function Encode(m: Frontend): seq<byte> {
    Framed(Kind(m), Body(m))
  }

  function EncodeAll(ms: seq<Frontend>): seq<byte> {
    Flat(seq(|ms|, i requires 0 <= i < |ms| => Encode(ms[i])))
  }

  // ----- decoding -----

  function ReadList<T>(s: seq<byte>, read: Reader<T>): Option<(seq<T>, seq<byte>)> {
    match ReadI16(s)
    case None => None
    case Some((n, rest)) => ReadMany(rest, n, read)
  }

  function Finish<T>(value: T, rest: seq<byte>): Option<T> {
    if rest == [] then Some(value) else None
  }

  function DecodeParse(s: seq<byte>): Option<Frontend> {
    match ReadCStr(s)
    case None => None
    case Some((name, s1)) =>
      match ReadCStr(s1)
      case None => None
      case Some((query, s2)) =>
        match ReadList(s2, ReadI32)
        case None => None
        case Some((oids, s3)) => Finish(Parse(name, query, oids), s3)
  }

  function DecodeBind(s: seq<byte>): Option<Frontend> {
    match ReadCStr(s)
    case None => None
    case Some((portal, s1)) =>
      match ReadCStr(s1)
      case None => None
      case Some((statement, s2)) =>
        match ReadList(s2, ReadI16)
        case None => None
        case Some((formats, s3)) =>
          match ReadList(s3, ReadCounted)
          case None => None
          case Some((params, s4)) =>
            match ReadList(s4, ReadI16)
            case None => None
            case Some((results, s5)) => Finish(Bind(portal, statement, formats, params, results), s5)
  }

  function DecodeBody(kind: byte, s: seq<byte>): Option<Frontend> {
    if kind == 'P' as int then DecodeParse(s)
    else if kind == 'B' as int then DecodeBind(s)
    else if kind == 'D' as int && s != [] then
      match ReadCStr(s[1..])
      case None => None
      case Some((name, rest)) => Finish(Describe(s[0], name), rest)
    else if kind == 'E' as int then
      match ReadCStr(s)
      case None => None
      case Some((portal, s1)) =>
        match ReadI32(s1)
        case None => None
        case Some((maxRows, rest)) => Finish(Execute(portal, maxRows), rest)
    else if kind == 'S' as int then Finish(Sync, s)
    else None
  }

  function DecodeOne(s: seq<byte>): (r: Option<(Frontend, seq<byte>)>)
    ensures r.Some? ==> |r.value.1| < |s|
  {
    if s == [] then None
    else
      match ReadI32(s[1..])
      case None => None
      case Some((len, rest)) =>
        if len < 4 || len - 4 > |rest| then None
        else
          match DecodeBody(s[0], rest[..len - 4])
          case None => None
          case Some(m) => Some((m, rest[len - 4..]))
  }

  function DecodeAll(s: seq<byte>): Option<seq<Frontend>>
    decreases |s|
  {
    if s == [] then Some([])
    else
      match DecodeOne(s)
      case None => None
      case Some((m, rest)) =>
        match DecodeAll(rest)
        case None => None
        case Some(ms) => Some([m] + ms)
  }

  // ----- round trip -----

  predicate Shorts(v: seq<nat>) {
    |v| < 65536 && forall x | x in v :: x < 65536
  }

  /** Within the limits of the format: no NUL in strings, and every count, number and length fits its field. */
  predicate Encodable(m: Frontend) {
    && |Body(m)| + 4 < 0x8000_0000
    && match m
       case Parse(name, query, oids) => NoNul(name) && NoNul(query) && |oids| < 65536 && forall x | x in oids ::
         x < 0x1_0000_0000
       case Bind(portal, statement, formats, params, results) =>
         && NoNul(portal) && NoNul(statement) && Shorts(formats) && Shorts(results)
         && |params| < 65536 && forall p | p in params :: |p| < 0x8000_0000
       case Describe(_, name) => NoNul(name)
       case Execute(portal, maxRows) => NoNul(portal) && maxRows < 0x1_0000_0000
       case Sync => true
  }

  lemma I16sRoundTrip(v: seq<nat>, rest: seq<byte>)
    requires Shorts(v)
    ensures ReadList(I16s(v) + rest, ReadI16) == Some((v, rest))
  {
    var chunks := seq(|v|, i requires 0 <= i < |v| => I16(v[i]));
    forall i, more | 0 <= i < |v| ensures ReadI16(chunks[i] + more) == Some((v[i], more)) {
      assert v[i] in v;
      I16RoundTrip(v[i], more);
    }
    hide I16, ReadI16;
    ManyRoundTrip(chunks, v, ReadI16, rest);
    assert I16s(v) + rest == I16(|v|) + (Flat(chunks) + rest);
    I16RoundTrip(|v|, Flat(chunks) + rest);
  }

  lemma OidsRoundTrip(v: seq<nat>, rest: seq<byte>)
    requires |v| < 65536 && forall x | x in v :: x < 0x1_0000_0000
    ensures ReadList(Oids(v) + rest, ReadI32) == Some((v, rest))
  {
    var chunks := seq(|v|, i requires 0 <= i < |v| => I32(v[i]));
    forall i, more | 0 <= i < |v| ensures ReadI32(chunks[i] + more) == Some((v[i], more)) {
      assert v[i] in v;
      I32RoundTrip(v[i], more);
    }
    hide I16, ReadI16, I32, ReadI32;
    ManyRoundTrip(chunks, v, ReadI32, rest);
    assert Oids(v) + rest == I16(|v|) + (Flat(chunks) + rest);
    I16RoundTrip(|v|, Flat(chunks) + rest);
  }

  lemma ParamsRoundTrip(v: seq<seq<byte>>, rest: seq<byte>)
    requires |v| < 65536 && forall p | p in v :: |p| < 0x8000_0000
    ensures ReadList(Params(v) + rest, ReadCounted) == Some((v, rest))
  {
    var chunks := seq(|v|, i requires 0 <= i < |v| => Counted(v[i]));
    forall i, more | 0 <= i < |v| ensures ReadCounted(chunks[i] + more) == Some((v[i], more)) {
      assert v[i] in v;
      CountedRoundTrip(v[i], more);
    }
    hide I16, ReadI16, Counted, ReadCounted;
    ManyRoundTrip(chunks, v, ReadCounted, rest);
    assert Params(v) + rest == I16(|v|) + (Flat(chunks) + rest);
    I16RoundTrip(|v|, Flat(chunks) + rest);
  }

  lemma ParseRoundTrip(m: Frontend)
    requires m.Parse? && Encodable(m)
    ensures DecodeParse(Body(m)) == Some(m)
  {
    var s2 := Oids(m.oids);
    hide Oids, CStr, ReadCStr, ReadList, NoNul;
    Assoc(CStr(m.name), CStr(m.query), s2);
    CStrRoundTrip(m.name, CStr(m.query) + s2);
    CStrRoundTrip(m.query, s2);
    OidsRoundTrip(m.oids, []);
    assert s2 + [] == s2;
  }

  lemma BindRoundTrip(m: Frontend)
    requires m.Bind? && Encodable(m)
    ensures DecodeBind(Body(m)) == Some(m)
  {
    hide I16s, Params, CStr, ReadCStr, ReadList, NoNul, Shorts;
    var s4 := I16s(m.results);
    var s3 := Params(m.params) + s4;
    var s2 := I16s(m.formats) + s3;
    var s1 := CStr(m.statement) + s2;
    assert Body(m) == CStr(m.portal) + s1;
    CStrRoundTrip(m.portal, s1);
    CStrRoundTrip(m.statement, s2);
    I16sRoundTrip(m.formats, s3);
    ParamsRoundTrip(m.params, s4);
    I16sRoundTrip(m.results, []);
    assert s4 + [] == s4;
  }

  lemma BodyRoundTrip(m: Frontend)
    requires Encodable(m)
    ensures DecodeBody(Kind(m), Body(m)) == Some(m)
  {
    hide CStr, ReadCStr, NoNul, I32, ReadI32, DecodeParse, DecodeBind;
    match m
    case Parse(_, _, _) => ParseRoundTrip(m);
    case Bind(_, _, _, _, _) => BindRoundTrip(m);
    case Describe(what, name) =>
      CStrRoundTrip(name, []);
      assert CStr(name) + [] == CStr(name) && Body(m)[1..] == CStr(name);
    case Execute(portal, maxRows) =>
      CStrRoundTrip(portal, I32(maxRows));
      I32RoundTrip(maxRows, []);
      assert I32(maxRows) + [] == I32(maxRows);
    case Sync =>
  }

  lemma OneRoundTrip(m: Frontend, rest: seq<byte>)
    requires Encodable(m)
    ensures DecodeOne(Encode(m) + rest) == Some((m, rest))
  {
    hide Body, Kind, I32, ReadI32, DecodeBody;
    var body := Body(m);
    var s := Encode(m) + rest;
    assert s[1..] == I32(|body| + 4) + (body + rest);
    I32RoundTrip(|body| + 4, body + rest);
    assert (body + rest)[..|body|] == body && (body + rest)[|body|..] == rest;
    BodyRoundTrip(m);
  }

  /** Decoding gives back every list of messages within the limits. */
  lemma {:induction false} RoundTrip(ms: seq<Frontend>)
    requires forall m | m in ms :: Encodable(m)
    ensures DecodeAll(EncodeAll(ms)) == Some(ms)
  {
    hide Encode, DecodeOne, Encodable;
    if ms != [] {
      var chunks := seq(|ms|, i requires 0 <= i < |ms| => Encode(ms[i]));
      FlatFirst(chunks);
      assert chunks[1..] == seq(|ms[1..]|, i requires 0 <= i < |ms[1..]| => Encode(ms[1..][i]));
      assert EncodeAll(ms) == Encode(ms[0]) + EncodeAll(ms[1..]);
      OneRoundTrip(ms[0], EncodeAll(ms[1..]));
      RoundTrip(ms[1..]);
      assert [ms[0]] + ms[1..] == ms;
    }
  }

  // ----- known bytes -----

  /** Numbers are sent with the most significant byte first. */
  lemma MostSignificantFirst(a: byte, b: byte, c: byte, d: byte)
    ensures I16(256 * a + b) == [a, b] && I32(16777216 * a + 65536 * b + 256 * c + d) == [a, b, c, d]
  {
    BytesOfNumber(a, b, c, d);
  }

  lemma BytesOfNumber(a: int, b: int, c: int, d: int)
    requires 0 <= a < 256 && 0 <= b < 256 && 0 <= c < 256 && 0 <= d < 256
    ensures var v := 16777216 * a + 65536 * b + 256 * c + d;
            v / 16777216 % 256 == a && v / 65536 % 256 == b && v / 256 % 256 == c && v % 256 == d
  {
    var v := 16777216 * a + 65536 * b + 256 * c + d;
    assert v / 256 == 65536 * a + 256 * b + c;
    assert v / 65536 == 256 * a + b;
    assert v / 16777216 == a;
  }

  /** The messages of a query byte by byte: the kind, the length, the fields. */
  lemma MessageBytes(a: byte)
    ensures Encode(Parse([], [a], [23])) == [80, 0, 0, 0, 13, 0, a, 0, 0, 1, 0, 0, 0, 23]
    ensures Encode(Bind([], [], [], [[a]], [1]))
            == [66, 0, 0, 0, 19, 0, 0, 0, 0, 0, 1, 0, 0, 0, 1, a, 0, 1, 0, 1]
  {
    ParseBytes(a);
    BindBytes(a);
    SmallNumbers();
    hide Encode, Body, I32, I16;
    Framing(Parse([], [a], [23]), [0, a, 0, 0, 1, 0, 0, 0, 23], [0, 0, 0, 13]);
    Framing(Bind([], [], [], [[a]], [1]), [0, 0, 0, 0, 0, 1, 0, 0, 0, 1, a, 0, 1, 0, 1], [0, 0, 0, 19]);
  }

  /** Describe the unnamed portal, execute it for all its rows, and Sync. */
  lemma ClosingBytes()
    ensures Encode(Describe(80, [])) == [68, 0, 0, 0, 6, 80, 0]
    ensures Encode(Execute([], 0)) == [69, 0, 0, 0, 9, 0, 0, 0, 0, 0]
    ensures Encode(Sync) == [83, 0, 0, 0, 4]
  {
    OtherBytes();
    SmallNumbers();
    hide Encode, Body, I32, I16;
    Framing(Describe(80, []), [80, 0], [0, 0, 0, 6]);
    Framing(Execute([], 0), [0, 0, 0, 0, 0], [0, 0, 0, 9]);
    Framing(Sync, [], [0, 0, 0, 4]);
  }

  lemma Framing(m: Frontend, body: seq<byte>, length: seq<byte>)
    requires Body(m) == body && I32(|body| + 4) == length
    ensures Encode(m) == [Kind(m)] + length + body
  {}

  lemma SmallNumbers()
    ensures I16(0) == [0, 0] && I16(1) == [0, 1]
    ensures I32(0) == [0, 0, 0, 0] && I32(1) == [0, 0, 0, 1] && I32(4) == [0, 0, 0, 4] && I32(6) == [0, 0, 0, 6]
    ensures I32(9) == [0, 0, 0, 9] && I32(13) == [0, 0, 0, 13] && I32(19) == [0, 0, 0, 19]
    ensures I32(23) == [0, 0, 0, 23]
  {}

  lemma FlatOne(chunk: seq<byte>)
    ensures Flat([chunk]) == chunk
  {
    var none: seq<seq<byte>> := [];
    FlatLast(none, chunk);
    assert none + [chunk] == [chunk] && [] + chunk == chunk;
  }

  lemma ParseBytes(a: byte)
    ensures Body(Parse([], [a], [23])) == [0, a, 0, 0, 1, 0, 0, 0, 23]
  {
    SmallNumbers();
    hide I32, I16;
    assert seq(1, i requires 0 <= i < 1 => I32([23][i])) == [I32(23)];
    FlatOne(I32(23));
    hide Flat;
    assert Oids([23]) == [0, 1, 0, 0, 0, 23];
  }

  lemma BindBytes(a: byte)
    ensures Body(Bind([], [], [], [[a]], [1])) == [0, 0, 0, 0, 0, 1, 0, 0, 0, 1, a, 0, 1, 0, 1]
  {
    OneValue(a);
    Formats();
    hide I16s, Params;
  }

  lemma OneValue(a: byte)
    ensures Params([[a]]) == [0, 1, 0, 0, 0, 1, a]
  {
    SmallNumbers();
    hide I32, I16;
    var chunk := Counted([a]);
    assert chunk == [0, 0, 0, 1, a];
    assert seq(1, i requires 0 <= i < 1 => Counted([[a]][i])) == [chunk];
    FlatOne(chunk);
    hide Flat;
  }

  lemma Formats()
    ensures I16s([]) == [0, 0] && I16s([1]) == [0, 1, 0, 1]
  {
    SmallNumbers();
    hide I32, I16;
    assert seq(1, i requires 0 <= i < 1 => I16([1][i])) == [I16(1)];
    FlatOne(I16(1));
  }

  lemma OtherBytes()
    ensures Body(Describe(80, [])) == [80, 0] && Body(Execute([], 0)) == [0, 0, 0, 0, 0] && Body(Sync) == []
  {
    SmallNumbers();
    hide I32;
  }
}
