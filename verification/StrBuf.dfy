/** The growable string buffer of str.h, and HTML escaping into it. */
module StrBufs {
  import opened Seqs

  // ----- HTML escaping -----

  function EscapeChar(c: char): (r: string)
    ensures 1 <= |r| <= 6
  {
    if c == '&' then "&amp;"
    else if c == '<' then "&lt;"
    else if c == '>' then "&gt;"
    else if c == '"' then "&quot;"
    else if c == '\'' then "&#39;"
    else [c]
  }

  function Escape(s: string): string {
    if s == "" then "" else Escape(s[..|s| - 1]) + EscapeChar(s[|s| - 1])
  }

  /** Reads one of the five entities, or a character as itself. */
  function DecodeOne(s: string): (r: (char, string))
    requires s != ""
    ensures |r.1| < |s|
  {
    if |s| >= 5 && s[..5] == "&amp;" then ('&', s[5..])
    else if |s| >= 4 && s[..4] == "&lt;" then ('<', s[4..])
    else if |s| >= 4 && s[..4] == "&gt;" then ('>', s[4..])
    else if |s| >= 6 && s[..6] == "&quot;" then ('"', s[6..])
    else if |s| >= 5 && s[..5] == "&#39;" then ('\'', s[5..])
    else (s[0], s[1..])
  }

  function DecodeEntities(s: string): string
    decreases |s|
  {
    if s == "" then "" else [DecodeOne(s).0] + DecodeEntities(DecodeOne(s).1)
  }

  lemma DecodeFirst(c: char, rest: string)
    ensures DecodeOne(EscapeChar(c) + rest) == (c, rest)
  {
    var e := EscapeChar(c);
    var s := e + rest;
    assert s[|e|..] == rest && s[..|e|] == e;
    if |e| > 1 {
      assert s[0] == '&' && s[1] == e[1] && s[2] == e[2];
      if |s| >= 5 { assert s[..5][1] == s[1]; }
      if |s| >= 4 { assert s[..4][1] == s[1]; }
      if |s| >= 6 { assert s[..6][1] == s[1]; }
    } else {
      if |s| >= 5 { assert s[..5][0] == c; }
      if |s| >= 4 { assert s[..4][0] == c; }
      if |s| >= 6 { assert s[..6][0] == c; }
    }
  }

  lemma {:induction false} DecodeAppend(s: string, rest: string)
    ensures DecodeEntities(Escape(s) + rest) == s + DecodeEntities(rest)
  {
    hide EscapeChar, DecodeOne;
    if s == "" {
      assert Escape(s) + rest == rest && s + DecodeEntities(rest) == DecodeEntities(rest);
    } else {
      var init, c := s[..|s| - 1], s[|s| - 1];
      var rest' := EscapeChar(c) + rest;
      Assoc(Escape(init), EscapeChar(c), rest);
      DecodeAppend(init, rest');
      DecodeFirst(c, rest);
      Assoc(init, [c], DecodeEntities(rest));
      assert init + [c] == s;
    }
  }

  /** Escaping loses nothing: decoding the five entities gives the text back. */
  lemma EscapeInvertible(s: string)
    ensures DecodeEntities(Escape(s)) == s
  {
    DecodeAppend(s, "");
    assert Escape(s) + "" == Escape(s) && s + DecodeEntities("") == s;
  }

  /** Escaped text has no character with a meaning in HTML, but for the ampersands of its entities. */
  lemma {:induction false} EscapedIsInert(s: string)
    ensures forall c | c in Escape(s) :: c !in "<>\"'"
  {
    if s != "" {
      EscapedIsInert(s[..|s| - 1]);
      assert forall c | c in EscapeChar(s[|s| - 1]) :: c !in "<>\"'";
    }
  }

  lemma {:induction false} EscapeAppend(a: string, b: string)
    ensures Escape(a + b) == Escape(a) + Escape(b)
  {
    hide EscapeChar;
    if b == "" {
      assert a + b == a && Escape(a) + Escape(b) == Escape(a);
    } else {
      var n := |b| - 1;
      assert (a + b)[..|a + b| - 1] == a + b[..n];
      EscapeAppend(a, b[..n]);
      Assoc(Escape(a), Escape(b[..n]), EscapeChar(b[n]));
    }
  }

  lemma EscapeNext(s: string, i: nat)
    requires i < |s|
    ensures Escape(s[..i + 1]) == Escape(s[..i]) + EscapeChar(s[i])
  {
    hide EscapeChar;
    assert s[..i + 1][..i] == s[..i];
  }

  /** The five characters and what they become, in full; every other character stays. */
  lemma Entities(c: char)
    ensures Escape("&") == "&amp;" && Escape("<") == "&lt;" && Escape(">") == "&gt;"
    ensures Escape("\"") == "&quot;" && Escape("'") == "&#39;"
    ensures c !in "&<>\"'" ==> Escape([c]) == [c]
  {
    OneEscaped('&');
    OneEscaped('<');
    OneEscaped('>');
    OneEscaped('"');
    OneEscaped('\'');
    OneEscaped(c);
    assert "&<>\"'" == ['&', '<', '>', '"', '\''];
  }

  lemma OneEscaped(c: char)
    ensures Escape([c]) == EscapeChar(c)
  {
    assert [c][..0] == "";
  }

  // ----- decimal numbers -----

  function Digit(d: nat): char
    requires d < 10
  {
    '0' + d as char
  }

  predicate AllDigits(s: string) {
    forall i | 0 <= i < |s| :: '0' <= s[i] <= '9'
  }

  /** What snprintf writes for %d of a natural number. */
  function Decimal(n: nat): (r: string)
    ensures r != "" && AllDigits(r)
  {
    if n < 10 then [Digit(n)] else Decimal(n / 10) + [Digit(n % 10)]
  }

  /** And of any int. */
  function SignedDecimal(n: int): (r: string)
    ensures n >= 0 ==> r == Decimal(n)
  {
    if n < 0 then "-" + Decimal(-n) else Decimal(n)
  }

  /** A number is written with the digits 0 to 9, the last one last; a negative one with a minus sign. */
  lemma DecimalDigits(n: nat, d: nat)
    requires d < 10
    ensures Decimal(d) == ["0123456789"[d]]
    ensures n > 0 ==> Decimal(10 * n + d) == Decimal(n) + ["0123456789"[d]]
    ensures n > 0 ==> SignedDecimal(-(n as int)) == "-" + Decimal(n)
  {}

  function DecimalValue(s: string): nat
    requires AllDigits(s)
  {
    if s == "" then 0 else 10 * DecimalValue(s[..|s| - 1]) + (s[|s| - 1] - '0') as nat
  }

  lemma {:induction false} DecimalRoundTrip(n: nat)
    ensures DecimalValue(Decimal(n)) == n
  {
    if n < 10 {
      assert Decimal(n)[..0] == "";
    } else {
      DecimalRoundTrip(n / 10);
      assert Decimal(n)[..|Decimal(n)| - 1] == Decimal(n / 10);
    }
  }

  lemma {:induction false} DecimalLength(n: nat)
    requires n <= 0x8000_0000
    ensures |Decimal(n)| <= 10
  {
    DecimalWithin(n, 10) by { assert Pow10(10) == 10 * Pow10(9); assert Pow10(9) == 1000000000; }
  }

  function Pow10(k: nat): nat {
    if k == 0 then 1 else 10 * Pow10(k - 1)
  }

  lemma {:induction false} DecimalWithin(n: nat, k: nat)
    requires k > 0 && n < Pow10(k)
    ensures |Decimal(n)| <= k
  {
    if n >= 10 {
      DecimalWithin(n / 10, k - 1);
    }
  }

  // ----- the buffer -----

  class StrBuf {
    var data: array<char>
    var len: nat
    ghost var Repr: set<object>

    ghost predicate Valid()
      reads this, Repr
      ensures Valid() ==> this in Repr
    {
      this in Repr && data in Repr && Repr == {this, data} && len <= data.Length
    }

    ghost function Contents(): string
      reads this, Repr
      requires Valid()
    {
      data[..len]
    }

    /** strbuf_new: 256 bytes. */
    constructor ()
      ensures Valid() && Contents() == "" && fresh(Repr) && data.Length == 256
    {
      data := new char[256];
      len := 0;
      new;
      Repr := {this, data};
    }

    /** strbuf_ensure: room for `space` more characters, growing by the golden ratio or to what is needed. */
    method Ensure(space: nat)
      requires Valid()
      modifies Repr
      ensures Valid() && fresh(Repr - old(Repr)) && len == old(len) && Contents() == old(Contents())
      ensures data.Length >= len + space && data.Length >= old(data.Length)
      ensures old(data.Length) >= old(len) + space ==> data == old(data)
    {
      var minCapacity := len + space;
      if data.Length < minCapacity {
        var newCapacity := data.Length * 1618 / 1000;
        if newCapacity < minCapacity {
          newCapacity := minCapacity;
        }
        var newData := new char[newCapacity];
        forall i | 0 <= i < len {
          newData[i] := data[i];
        }
        data := newData;
        Repr := {this, data};
      }
    }

    /** Writes characters at the end of the buffer, which must have room for them. */
    method Write(s: string)
      requires Valid() && len + |s| <= data.Length
      modifies Repr
      ensures Valid() && Repr == old(Repr) && data == old(data)
      ensures Contents() == old(Contents()) + s && len == old(len) + |s|
    {
      forall i | 0 <= i < |s| {
        data[len + i] := s[i];
      }
      len := len + |s|;
      assert data[..len] == old(data[..len]) + s;
    }

    /** Reads the text of the buffer. */
    method Text() returns (s: string)
      requires Valid()
      ensures s == Contents()
    {
      s := data[..len];
    }

    /** strbuf_append_str */
    method AppendStr(s: string)
      requires Valid()
      modifies Repr
      ensures Valid() && fresh(Repr - old(Repr)) && Contents() == old(Contents()) + s
    {
      Ensure(|s|);
      Write(s);
    }

    /** strbuf_append_char */
    method AppendChar(c: char)
      requires Valid()
      modifies Repr
      ensures Valid() && fresh(Repr - old(Repr)) && Contents() == old(Contents()) + [c]
    {
      Ensure(1);
      Write([c]);
    }

    /** strbuf_append_int, for any 32-bit int: with a NUL its text never takes more than twelve characters. */
    method AppendInt(n: int)
      requires Valid() && -0x8000_0000 <= n < 0x8000_0000
      modifies Repr
      ensures Valid() && fresh(Repr - old(Repr)) && Contents() == old(Contents()) + SignedDecimal(n)
      ensures |SignedDecimal(n)| + 1 <= 12
    {
      Ensure(12);
      DecimalLength(if n < 0 then -n else n);
      Write(SignedDecimal(n));
    }

    /**
     strbuf_append_str_escaped: appends the text with its five HTML characters replaced by entities. The
     room made at first may not do; it is topped up whenever fewer than six characters are left.
     */
    method AppendStrEscaped(s: string)
      requires Valid()
      modifies Repr
      ensures Valid() && fresh(Repr - old(Repr)) && Contents() == old(Contents()) + Escape(s)
    {
      hide EscapeChar;
      Ensure(|s|);
      assert s[..0] == "";
      var i := 0;
      while i < |s|
        invariant 0 <= i <= |s|
        invariant Valid() && fresh(Repr - old(Repr))
        invariant Contents() == old(Contents()) + Escape(s[..i])
      {
        if data.Length - len < 6 {
          Ensure(16);
        }
        Write(EscapeChar(s[i]));
        EscapeNext(s, i);
        i := i + 1;
      }
      assert s[..i] == s;
    }
  }
}
