/**
 Percent-encoding: the in-place decoder of str.h against section 2.1 of RFC 3986. Text is kept in one
 buffer that slices point into. A C char is signed here, so bytes from 128 up count as negative.
 */
module UrlDecode {
  import opened Seqs
  import opened Strs

  /** A str: where its bytes lie in the request buffer. */
  datatype Slice = Slice(start: nat, len: nat) {
    function End(): nat {
      start + len
    }
  }

  /** The text of a slice. */
  function Text(buf: seq<char>, s: Slice): string
    requires s.End() <= |buf|
  {
    buf[s.start..s.End()]
  }

  // ----- percent-encoding -----

  predicate IsHex(c: char) {
    '0' <= c <= '9' || 'a' <= c <= 'f' || 'A' <= c <= 'F'
  }

  function HexValue(c: char): (v: nat)
    requires IsHex(c)
    ensures v < 16
  {
    if '0' <= c <= '9' then c as int - '0' as int
    else if 'a' <= c <= 'f' then 10 + (c as int - 'a' as int)
    else 10 + (c as int - 'A' as int)
  }

  function Octet(d1: char, d2: char): char
    requires IsHex(d1) && IsHex(d2)
  {
    (HexValue(d1) * 16 + HexValue(d2)) as char
  }

  /** Characters that stand for themselves: neither control characters nor, being negative, bytes from 128 up. */
  predicate Plain(c: char) {
    32 <= c as int < 128 && c != '%'
  }

  /** A percent-encoding of a text: every character is itself or two hexadecimal digits of either case. */
  predicate Encodes(e: string, v: string)
    decreases |v|
  {
    if v == "" then e == ""
    else
      || (e != "" && Plain(e[0]) && e[0] == v[0] && Encodes(e[1..], v[1..]))
      || (|e| >= 3 && e[0] == '%' && IsHex(e[1]) && IsHex(e[2]) && Octet(e[1], e[2]) == v[0] && Encodes(e[3..], v[1..]))
  }

  /** What str_urldecode_to does: the text decoded before it ends, and whether it ends well. */
  function Decode(e: string): (r: (string, bool))
    ensures |r.0| <= |e|
  {
    if e == "" then ("", true)
    else if e[0] == '%' then
      if |e| < 2 || !IsHex(CharAt(e, 1)) || !IsHex(CharAt(e, 2)) then ("", false)
      else
        var rest := Decode(e[3..]);
        ([Octet(e[1], e[2])] + rest.0, rest.1)
    else if !Plain(e[0]) then ("", false)
    else
      var rest := Decode(e[1..]);
      ([e[0]] + rest.0, rest.1)
  }

  /** The decoder accepts exactly the percent-encodings, and gives what they encode. */
  lemma {:induction false} DecodeExactly(e: string, v: string)
    ensures Decode(e) == (v, true) <==> Encodes(e, v)
    decreases |e|
  {
    hide HexValue;
    if e != "" {
      var n := if e[0] == '%' then 3 else 1;
      if n <= |e| && v != "" {
        DecodeExactly(e[n..], v[1..]);
        assert [v[0]] + v[1..] == v;
        assert ([v[0]] + Decode(e[n..]).0)[1..] == Decode(e[n..]).0;
        if Decode(e).1 && Decode(e).0 == v {
          assert v[1..] == Decode(e[n..]).0;
        }
      }
    }
  }

  // ----- one encoding -----

  predicate Unreserved(c: char) {
    '0' <= c <= '9' || 'a' <= c <= 'z' || 'A' <= c <= 'Z' || c == '-' || c == '.' || c == '_' || c == '~'
  }

  predicate ByteString(s: string) {
    forall c | c in s :: c as int < 256
  }

  function HexDigit(d: nat): (c: char)
    requires d < 16
    ensures IsHex(c) && HexValue(c) == d && c != '&'
  {
    if d < 10 then ('0' as int + d) as char else ('A' as int + d - 10) as char
  }

  function PercentEncode(v: string): string
    requires ByteString(v)
  {
    if v == "" then ""
    else
      assert v[0] in v;
      assert forall c | c in v[1..] :: c in v;
      (if Unreserved(v[0]) then [v[0]] else ['%', HexDigit(v[0] as int / 16), HexDigit(v[0] as int % 16)])
      + PercentEncode(v[1..])
  }

  /** Encoding everything that is not unreserved is a percent-encoding of any bytes, and free of separators. */
  lemma {:induction false} PercentEncodes(v: string)
    requires ByteString(v)
    ensures Encodes(PercentEncode(v), v) && '&' !in PercentEncode(v)
  {
    hide HexValue;
    if v != "" {
      assert v[0] in v;
      assert forall c | c in v[1..] :: c in v;
      PercentEncodes(v[1..]);
      var e := PercentEncode(v);
      if Unreserved(v[0]) {
        assert e[1..] == PercentEncode(v[1..]);
      } else {
        assert e[3..] == PercentEncode(v[1..]);
      }
    }
  }

  // ----- in place -----

  /** The loop of str_urldecode: where it is in the slice, and what it has put out. */
  ghost predicate Underway(buf: seq<char>, before: seq<char>, s: Slice, p: nat, o: nat) {
    && s.End() <= |before| && |buf| == |before| && o <= p <= s.len
    && buf[..s.start] == before[..s.start] && buf[s.start + o..] == before[s.start + o..]
    && var (e, rest) := (Text(before, s), Decode(Text(before, s)[p..]));
       Decode(e) == (buf[s.start..s.start + o] + rest.0, rest.1)
  }

  /**
   str_urldecode, with the text and its result in the same place. Nothing outside the slice changes. On
   success the slice is as long as the decoded text; on failure its length stays, and what was decoded
   until then has been written over its start.
   */
  method StrUrlDecode(buf: array<char>, s: Slice) returns (ok: bool, out: Slice)
    requires s.End() <= buf.Length
    modifies buf
    ensures var e := Text(old(buf[..]), s);
            && ok == Decode(e).1 && out == Slice(s.start, if ok then |Decode(e).0| else s.len)
            && buf[..] == old(buf[..])[..s.start] + Decode(e).0 + old(buf[..])[s.start + |Decode(e).0|..]
  {
    hide Decode, Text, Underway, HexValue;
    ghost var before := buf[..];
    var p, o := 0, 0;
    Begin(before, s);
    while p < s.len && o < s.len
      invariant 0 <= o <= p <= s.len && Underway(buf[..], before, s, p, o)
    {
      ghost var now := buf[..];
      Here(now, before, s, p, o);
      var at := buf[s.start + p];
      if at == '%' {
        if s.len - p < 2 {
          Stopped(now, before, s, p, o);
          return false, s;
        }
        var d1 := buf[s.start + p + 1];
        var d2 := if p + 2 < s.len then buf[s.start + p + 2] else '\0';
        if !IsHex(d1) || !IsHex(d2) {
          Stopped(now, before, s, p, o);
          return false, s;
        }
        buf[s.start + o] := Octet(d1, d2);
        PutOut(now, buf[..], before, s, p, o, p + 3, Octet(d1, d2));
        o, p := o + 1, p + 3;
      } else if !Plain(at) {
        Stopped(now, before, s, p, o);
        return false, s;
      } else {
        buf[s.start + o] := at;
        PutOut(now, buf[..], before, s, p, o, p + 1, at);
        o, p := o + 1, p + 1;
      }
    }
    Ended(buf[..], before, s, p, o);
    return true, Slice(s.start, o);
  }

  lemma Begin(before: seq<char>, s: Slice)
    requires s.End() <= |before|
    ensures Underway(before, before, s, 0, 0)
  {
    var e := Text(before, s);
    assert e[0..] == e && before[s.start..s.start + 0] + Decode(e).0 == Decode(e).0;
  }

  /** What the decoder sees at its position, and what that means for the outcome. */
  lemma Here(buf: seq<char>, before: seq<char>, s: Slice, p: nat, o: nat)
    requires Underway(buf, before, s, p, o) && p < s.len
    ensures s.End() <= |buf| == |before|
    ensures var e := Text(before, s)[p..];
            && e != "" && |e| == s.len - p && buf[s.start + p] == e[0]
            && (p + 1 < s.len ==> buf[s.start + p + 1] == CharAt(e, 1))
            && (if p + 2 < s.len then buf[s.start + p + 2] else '\0') == CharAt(e, 2)
  {
    hide Decode;
    SameFrom(buf, before, s.start + o, s.start + p);
    if p + 1 < s.len { SameFrom(buf, before, s.start + o, s.start + p + 1); }
    if p + 2 < s.len { SameFrom(buf, before, s.start + o, s.start + p + 2); }
  }

  lemma SameFrom(a: seq<char>, b: seq<char>, m: nat, i: nat)
    requires |a| == |b| && m <= i < |a| && a[m..] == b[m..]
    ensures a[i] == b[i]
  {
    assert a[i] == a[m..][i - m];
  }

  lemma Rebuilt(buf: seq<char>, start: nat, o: nat)
    requires start + o <= |buf|
    ensures buf == buf[..start] + buf[start..start + o] + buf[start + o..]
    ensures buf[start..start + o] + "" == buf[start..start + o]
  {}

  lemma Stopped(buf: seq<char>, before: seq<char>, s: Slice, p: nat, o: nat)
    requires Underway(buf, before, s, p, o) && p < s.len
    requires var e := Text(before, s)[p..];
             if e[0] == '%' then |e| < 2 || !IsHex(CharAt(e, 1)) || !IsHex(CharAt(e, 2)) else !Plain(e[0])
    ensures var e := Text(before, s);
            !Decode(e).1 && buf == before[..s.start] + Decode(e).0 + before[s.start + |Decode(e).0|..]
  {
    hide Decode, Text, IsHex, Plain;
    TextLength(before, s);
    DecodeBad(Text(before, s)[p..]);
    Rebuilt(buf, s.start, o);
    hide *;
  }

  lemma DecodeBad(e: string)
    requires e != "" && if e[0] == '%' then |e| < 2 || !IsHex(CharAt(e, 1)) || !IsHex(CharAt(e, 2)) else !Plain(e[0])
    ensures Decode(e) == ("", false)
  {}

  lemma PutOut(buf: seq<char>, buf': seq<char>, before: seq<char>, s: Slice, p: nat, o: nat, next: nat, c: char)
    requires Underway(buf, before, s, p, o) && p < s.len && buf' == buf[s.start + o := c]
    requires var e := Text(before, s)[p..];
             if e[0] == '%' then |e| >= 2 && IsHex(CharAt(e, 1)) && IsHex(CharAt(e, 2)) && c == Octet(e[1], e[2])
                 && next == p + 3
             else Plain(e[0]) && c == e[0] && next == p + 1
    ensures next <= s.len && Underway(buf', before, s, next, o + 1)
  {
    hide HexValue, Octet;
    var e := Text(before, s);
    var rest := e[p..];
    Unfolded(rest, next - p, c);
    assert next <= s.len && rest[next - p..] == e[next..];
    PutSlices(buf, before, s.start, o, c);
    hide *;
    PutUnderway(buf, buf', before, s, p, o, next, c);
  }

  lemma PutUnderway(buf: seq<char>, buf': seq<char>, before: seq<char>, s: Slice, p: nat, o: nat, next: nat, c: char)
    requires Underway(buf, before, s, p, o) && p < next <= s.len && |buf'| == |before|
    requires Decode(Text(before, s)[p..]) == ([c] + Decode(Text(before, s)[next..]).0,
                                              Decode(Text(before, s)[next..]).1)
    requires buf'[..s.start] == buf[..s.start] && buf'[s.start + o + 1..] == before[s.start + o + 1..]
    requires buf'[s.start..s.start + o + 1] == buf[s.start..s.start + o] + [c]
    ensures Underway(buf', before, s, next, o + 1)
  {
    hide Decode;
    Assoc(buf[s.start..s.start + o], [c], Decode(Text(before, s)[next..]).0);
  }

  lemma PutSlices(buf: seq<char>, before: seq<char>, start: nat, o: nat, c: char)
    requires |buf| == |before| && start + o < |buf| && buf[start + o..] == before[start + o..]
    ensures var buf' := buf[start + o := c];
            && buf'[..start] == buf[..start] && buf'[start + o + 1..] == before[start + o + 1..]
            && buf'[start..start + o + 1] == buf[start..start + o] + [c]
  {
    assert buf[start + o..][1..] == before[start + o..][1..];
  }

  lemma Unfolded(e: string, n: nat, c: char)
    requires e != ""
    requires if e[0] == '%' then |e| >= 2 && IsHex(CharAt(e, 1)) && IsHex(CharAt(e, 2)) && c == Octet(e[1], e[2])
              && n == 3
             else Plain(e[0]) && c == e[0] && n == 1
    ensures n <= |e| && Decode(e) == ([c] + Decode(e[n..]).0, Decode(e[n..]).1)
  {
    hide HexValue;
  }

  lemma Ended(buf: seq<char>, before: seq<char>, s: Slice, p: nat, o: nat)
    requires Underway(buf, before, s, p, o) && p == s.len
    ensures var e := Text(before, s);
            Decode(e) == (buf[s.start..s.start + o], true)
            && buf == before[..s.start] + Decode(e).0 + before[s.start + |Decode(e).0|..]
  {
    hide Decode, Text;
    var e := Text(before, s);
    TextLength(before, s);
    DecodeEnd(e[p..]);
    Rebuilt(buf, s.start, o);
    hide *;
  }

  lemma DecodeEnd(e: string)
    requires e == ""
    ensures Decode(e) == ("", true)
  {}

  lemma TextLength(b: seq<char>, s: Slice)
    requires s.End() <= |b|
    ensures |Text(b, s)| == s.len
  {}

  // ----- digits of either case -----

  /** The value of every digit, in both cases. */
  lemma HexDigits(d: nat)
    requires d < 16
    ensures IsHex("0123456789abcdef"[d]) && HexValue("0123456789abcdef"[d]) == d
    ensures IsHex("0123456789ABCDEF"[d]) && HexValue("0123456789ABCDEF"[d]) == d
  {}

  function DigitOf(d: nat, upper: bool): (c: char)
    requires d < 16
    ensures IsHex(c) && HexValue(c) == d
  {
    HexDigits(d);
    if upper then "0123456789ABCDEF"[d] else "0123456789abcdef"[d]
  }

  /** Exactly the characters from 32 to 127 but the percent sign stand for themselves. */
  lemma PlainExactly(c: char)
    ensures Decode([c]) == ([c], true) <==> 32 <= c as int <= 127 && c != '%'
  {
    assert [c][1..] == "" && [c] + "" == [c];
    assert Decode("") == ("", true);
  }

  /** Every byte encoded, with digits of the case that `upper` says for each of the two. */
  function EncodeEither(v: string, upper: nat -> bool): string
    requires ByteString(v)
  {
    if v == "" then ""
    else
      assert v[0] in v;
      assert forall c | c in v[1..] :: c in v;
      var n := v[0] as int;
      ['%', DigitOf(n / 16, upper(2 * |v|)), DigitOf(n % 16, upper(2 * |v| + 1))] + EncodeEither(v[1..], upper)
  }

  /** Decoding undoes it, whatever the cases. */
  lemma {:induction false} EitherCaseDecoded(v: string, upper: nat -> bool)
    requires ByteString(v)
    ensures Decode(EncodeEither(v, upper)) == (v, true)
  {
    if v != "" {
      assert v[0] in v;
      assert forall c | c in v[1..] :: c in v;
      var n, rest := v[0] as int, EncodeEither(v[1..], upper);
      var hi, lo := DigitOf(n / 16, upper(2 * |v|)), DigitOf(n % 16, upper(2 * |v| + 1));
      assert EncodeEither(v, upper) == ['%', hi, lo] + rest;
      EitherCaseDecoded(v[1..], upper);
      DecodeDigits(hi, lo, rest);
      assert Octet(hi, lo) == v[0] by { assert n / 16 * 16 + n % 16 == n; }
      hide HexValue, EncodeEither, Decode, DigitOf;
      assert [v[0]] + v[1..] == v;
    }
  }

  lemma DecodeDigits(hi: char, lo: char, rest: string)
    requires IsHex(hi) && IsHex(lo)
    ensures Decode(['%', hi, lo] + rest) == ([Octet(hi, lo)] + Decode(rest).0, Decode(rest).1)
  {
    var e := ['%', hi, lo] + rest;
    assert e[0] == '%' && e[1] == hi && e[2] == lo && e[3..] == rest;
    hide HexValue;
  }
}
