/**
 Base64: the bounded encoder and the in-place decoder of mugshot.c, against section 4 of RFC 4648. Bytes
 are numbers; shifts and masks of the code are written as division, remainder and multiplication by powers
 of two, and what is stored in a uint8_t is taken modulo 256.
 */
module Base64 {
  import opened Seqs
  import opened Bytes

  const PAD: byte := 61   // '='
  const FIRST: byte := 43 // '+', the first character of the decoding table
  const LAST: byte := 122 // 'z'

  // ----- section 4 of RFC 4648 -----

  /** The character for a 6-bit value: A-Z, a-z, 0-9, + and /. */
  function Alphabet(v: nat): (c: byte)
    requires v < 64
    ensures FIRST <= c <= LAST && c != PAD
  {
    if v < 26 then 65 + v
    else if v < 52 then 97 + v - 26
    else if v < 62 then 48 + v - 52
    else if v == 62 then 43
    else 47
  }

  /** A group of up to 24 bits, in 6-bit values; fewer bits are filled up with zeros on the right. */
  function EncodeGroup(s: seq<byte>): (r: seq<byte>)
    requires 1 <= |s| <= 3
    ensures |r| == 4 && forall i | 0 <= i < 4 :: FIRST <= r[i] <= LAST
  {
    var a: int := s[0];
    if |s| == 1 then
      var bits := a * 16;
      [Alphabet(bits / 64), Alphabet(bits % 64), PAD, PAD]
    else
      var b: int := s[1];
      if |s| == 2 then
        var bits := (a * 256 + b) * 4;
        [Alphabet(bits / 4096), Alphabet(bits / 64 % 64), Alphabet(bits % 64), PAD]
      else
        var bits := a * 65536 + b * 256 + s[2];
        [Alphabet(bits / 262144), Alphabet(bits / 4096 % 64), Alphabet(bits / 64 % 64), Alphabet(bits % 64)]
  }

  /** How many groups bytes make. */
  function Groups(n: nat): nat {
    (n + 2) / 3
  }

  lemma GroupCount(n: nat)
    ensures Groups(0) == 0 && (0 < n < 3 ==> Groups(n) == 1) && (n >= 3 ==> Groups(n) == 1 + Groups(n - 3))
  {}

  function Encode(s: seq<byte>): (r: seq<byte>)
    ensures |r| == 4 * Groups(|s|)
  {
    hide EncodeGroup, Groups;
    GroupCount(|s|);
    if s == [] then []
    else if |s| < 3 then EncodeGroup(s)
    else EncodeGroup(s[..3]) + Encode(s[3..])
  }

  // ----- the tables -----

  const ENCODING: string := "ABCDEFGHIJKLM" + "NOPQRSTUVWXYZ" + "abcdefghijklm" + "nopqrstuvwxyz" + "0123456789" + "+/"

  /** From '+' to 'z'; 64 stands for a character that is not in the alphabet. */
  const DECODING: seq<byte> :=
    [62, 64, 64, 64, 63] + [52, 53, 54, 55, 56, 57, 58, 59, 60, 61] + [64, 64, 64, 64, 64, 64, 64]
    + [0, 1, 2, 3, 4, 5, 6, 7, 8, 9, 10, 11, 12] + [13, 14, 15, 16, 17, 18, 19, 20, 21, 22, 23, 24, 25]
    + [64, 64, 64, 64, 64, 64]
    + [26, 27, 28, 29, 30, 31, 32, 33, 34, 35, 36, 37, 38] + [39, 40, 41, 42, 43, 44, 45, 46, 47, 48, 49, 50, 51]

  lemma Capitals(v: nat)
    requires v < 26
    ensures |ENCODING| == 64 && ENCODING[v] as int == 65 + v
  {}

  lemma Smalls(v: nat)
    requires v < 26
    ensures |ENCODING| == 64 && ENCODING[26 + v] as int == 97 + v
  {}

  lemma Digits(v: nat)
    requires v < 10
    ensures |ENCODING| == 64 && ENCODING[52 + v] as int == 48 + v
  {}

  /** The encoding table is the alphabet. */
  lemma EncodingTable(v: nat)
    requires v < 64
    ensures |ENCODING| == 64 && ENCODING[v] as int == Alphabet(v)
  {
    if v < 26 {
      Capitals(v);
    } else if v < 52 {
      Smalls(v - 26);
    } else if v < 62 {
      Digits(v - 52);
    }
  }

  lemma OfCapitals(v: nat)
    requires v < 26
    ensures |DECODING| == 80 && DECODING[22 + v] == v
  {}

  lemma OfSmalls(v: nat)
    requires v < 26
    ensures |DECODING| == 80 && DECODING[54 + v] == 26 + v
  {}

  lemma OfDigits(v: nat)
    requires v < 10
    ensures |DECODING| == 80 && DECODING[5 + v] == 52 + v
  {}

  lemma OfOthers()
    ensures |DECODING| == 80 && DECODING[0] == 62 && DECODING[4] == 63
  {}

  /** The decoding table undoes it. */
  lemma DecodingTable(v: nat)
    requires v < 64
    ensures |DECODING| == 80 && DECODING[Alphabet(v) - FIRST] == v
  {
    hide DECODING;
    if v < 26 {
      OfCapitals(v);
    } else if v < 52 {
      OfSmalls(v - 26);
    } else if v < 62 {
      OfDigits(v - 52);
    } else {
      OfOthers();
    }
  }

  lemma DecodingRange(i: nat)
    requires i < 80
    ensures |DECODING| == 80 && DECODING[i] <= 64
  {}

  // ----- what the decoder does with a string -----

  /** The characters of a group that are not padding. */
  function Payload(g: seq<byte>): (n: nat)
    requires |g| == 4
    ensures n <= 4
  {
    Plain(g[0]) + Plain(g[1]) + Plain(g[2]) + Plain(g[3])
  }

  function Plain(c: byte): nat {
    if c == PAD then 0 else 1
  }

  predicate InTable(g: seq<byte>) {
    forall i | 0 <= i < |g| :: FIRST <= g[i] <= LAST
  }

  /** The value of a character; padding counts as the first character of the table. */
  function Value(c: byte): byte
    requires FIRST <= c <= LAST
  {
    if c == PAD then DECODING[0] else DECODING[c - FIRST]
  }

  function DecodeGroup(g: seq<byte>): (r: seq<byte>)
    requires |g| == 4 && InTable(g)
    ensures |r| <= 3
  {
    var x0, x1, x2, x3 := Value(g[0]), Value(g[1]), Value(g[2]), Value(g[3]);
    var b0 := (x0 * 4 + x1 / 16) % 256;
    var b1 := (x1 % 16 * 16 + x2 / 4) % 256;
    var b2 := (x2 % 4 * 64 + x3) % 256;
    match Payload(g)
    case 2 => [b0]
    case 3 => [b0, b1]
    case 4 => [b0, b1, b2]
    case _ => []
  }

  /**
   The bytes decoded, and whether the string was good to its end. It is bad at the first group that is cut
   short by the end of the string, has a character outside the table, or has fewer than two characters
   that are not padding.
   */
  function Decode(s: seq<byte>): (r: (seq<byte>, bool))
    ensures |r.0| <= |s|
  {
    if s == [] then ([], true)
    else if |s| < 4 || !InTable(s[..4]) || Payload(s[..4]) < 2 then ([], false)
    else
      var rest := Decode(s[4..]);
      (DecodeGroup(s[..4]) + rest.0, rest.1)
  }

  // ----- round trip -----

  lemma ValueOfCharacter(v: nat)
    requires v < 64
    ensures Value(Alphabet(v)) == v
  {
    DecodingTable(v);
    hide Alphabet;
  }

  lemma GroupRoundTrip(s: seq<byte>)
    requires 1 <= |s| <= 3
    ensures var g := EncodeGroup(s); InTable(g) && Payload(g) == |s| + 1 && DecodeGroup(g) == s
  {
    if |s| == 1 {
      OneRoundTrip(s[0]);
      assert s == [s[0]];
    } else if |s| == 2 {
      TwoRoundTrip(s[0], s[1]);
      assert s == [s[0], s[1]];
    } else {
      ThreeRoundTrip(s[0], s[1], s[2]);
      assert s == [s[0], s[1], s[2]];
    }
    hide *;
  }

  /** The 6-bit values, as the code cuts them out of the bytes. */
  lemma EncodedForms(s: seq<byte>)
    requires 1 <= |s| <= 3
    ensures |s| == 1 ==> EncodeGroup(s) == [Alphabet(s[0] / 4), Alphabet(s[0] % 4 * 16), PAD, PAD]
    ensures |s| == 2 ==>
              EncodeGroup(s) == [Alphabet(s[0] / 4), Alphabet(s[0] % 4 * 16 + s[1] / 16), Alphabet(s[1] % 16 * 4), PAD]
    ensures |s| == 3 ==>
              EncodeGroup(s) == [Alphabet(s[0] / 4), Alphabet(s[0] % 4 * 16 + s[1] / 16),
                                 Alphabet(s[1] % 16 * 4 + s[2] / 64), Alphabet(s[2] % 64)]
  {
    Slices(s[0], if |s| > 1 then s[1] else 0, if |s| > 2 then s[2] else 0);
    hide Alphabet;
  }

  lemma Digits64(x: nat, y: nat, z: nat, w: nat)
    requires x < 64 && y < 64 && z < 64 && w < 64
    ensures (x * 64 + y) / 64 == x && (x * 64 + y) % 64 == y
    ensures var n := x * 4096 + y * 64 + z; n / 4096 == x && n / 64 % 64 == y && n % 64 == z
    ensures var n := x * 262144 + y * 4096 + z * 64 + w;
            n / 262144 == x && n / 4096 % 64 == y && n / 64 % 64 == z && n % 64 == w
  {
    assert x * 4096 + y * 64 + z == (x * 64 + y) * 64 + z;
    var n := x * 262144 + y * 4096 + z * 64 + w;
    assert n == (x * 4096 + y * 64 + z) * 64 + w && n / 64 == x * 4096 + y * 64 + z;
    assert n / 4096 == x * 64 + y;
  }

  lemma Slices(a: nat, b: nat, c: nat)
    requires a < 256 && b < 256 && c < 256
    ensures a * 16 / 64 == a / 4 && a * 16 % 64 == a % 4 * 16
    ensures var bits := (a * 256 + b) * 4;
            bits / 4096 == a / 4 && bits / 64 % 64 == a % 4 * 16 + b / 16 && bits % 64 == b % 16 * 4
    ensures var bits := a * 65536 + b * 256 + c;
            && bits / 262144 == a / 4
            && bits / 4096 % 64 == a % 4 * 16 + b / 16
            && bits / 64 % 64 == b % 16 * 4 + c / 64
            && bits % 64 == c % 64
  {
    var x, y, z, w := a / 4, a % 4 * 16 + b / 16, b % 16 * 4 + c / 64, c % 64;
    Digits64(x, y, z, w);
    Digits64(x, a % 4 * 16, 0, 0);
    Digits64(x, y, b % 16 * 4, 0);
    assert a == a / 4 * 4 + a % 4 && b == b / 16 * 16 + b % 16 && c == c / 64 * 64 + c % 64;
    assert a * 16 == x * 64 + a % 4 * 16;
    assert (a * 256 + b) * 4 == x * 4096 + y * 64 + b % 16 * 4;
    assert a * 65536 + b * 256 + c == x * 262144 + y * 4096 + z * 64 + w;
  }

  /** Put together again, they are the bytes. */
  lemma Assembled(a: nat, b: nat, c: nat)
    requires a < 256 && b < 256 && c < 256
    ensures (a / 4 * 4 + a % 4 * 16 / 16) % 256 == a
    ensures (a / 4 * 4 + (a % 4 * 16 + b / 16) / 16) % 256 == a
    ensures ((a % 4 * 16 + b / 16) % 16 * 16 + b % 16 * 4 / 4) % 256 == b
    ensures ((a % 4 * 16 + b / 16) % 16 * 16 + (b % 16 * 4 + c / 64) / 4) % 256 == b
    ensures ((b % 16 * 4 + c / 64) % 4 * 64 + c % 64) % 256 == c
  {
    assert a == a / 4 * 4 + a % 4 && b == b / 16 * 16 + b % 16 && c == c / 64 * 64 + c % 64;
  }

  lemma DecodedForms(g: seq<byte>, x: nat, y: nat, z: nat, w: nat)
    requires |g| == 4 && (forall i | 0 <= i < 4 :: FIRST <= g[i] <= LAST)
    requires Value(g[0]) == x && Value(g[1]) == y && (g[2] != PAD ==> Value(g[2]) == z)
    requires (g[3] != PAD ==> Value(g[3]) == w)
    requires g[0] != PAD && g[1] != PAD && (g[2] == PAD ==> g[3] == PAD)
    ensures InTable(g) && Payload(g) == if g[2] == PAD then 2 else if g[3] == PAD then 3 else 4
    ensures Payload(g) == 2 ==> DecodeGroup(g) == [(x * 4 + y / 16) % 256]
    ensures Payload(g) == 3 ==> DecodeGroup(g) == [(x * 4 + y / 16) % 256, (y % 16 * 16 + z / 4) % 256]
    ensures Payload(g) == 4 ==>
              DecodeGroup(g) == [(x * 4 + y / 16) % 256, (y % 16 * 16 + z / 4) % 256, (z % 4 * 64 + w) % 256]
  {
    hide Value;
  }

  lemma OneRoundTrip(a: byte)
    ensures var g := EncodeGroup([a]); InTable(g) && Payload(g) == 2 && DecodeGroup(g) == [a]
  {
    hide *;
    var x, y := a / 4, a % 4 * 16;
    EncodedForms([a]);
    ValueOfCharacter(x);
    ValueOfCharacter(y);
    DecodedForms(EncodeGroup([a]), x, y, 0, 0);
    Assembled(a, 0, 0);
  }

  lemma TwoRoundTrip(a: byte, b: byte)
    ensures var g := EncodeGroup([a, b]); InTable(g) && Payload(g) == 3 && DecodeGroup(g) == [a, b]
  {
    hide *;
    var x, y, z := a / 4, a % 4 * 16 + b / 16, b % 16 * 4;
    EncodedForms([a, b]);
    ValueOfCharacter(x);
    ValueOfCharacter(y);
    ValueOfCharacter(z);
    DecodedForms(EncodeGroup([a, b]), x, y, z, 0);
    Assembled(a, b, 0);
  }

  lemma ThreeRoundTrip(a: byte, b: byte, c: byte)
    ensures var g := EncodeGroup([a, b, c]); InTable(g) && Payload(g) == 4 && DecodeGroup(g) == [a, b, c]
  {
    hide *;
    var x, y, z, w := a / 4, a % 4 * 16 + b / 16, b % 16 * 4 + c / 64, c % 64;
    EncodedForms([a, b, c]);
    ValueOfCharacter(x);
    ValueOfCharacter(y);
    ValueOfCharacter(z);
    ValueOfCharacter(w);
    DecodedForms(EncodeGroup([a, b, c]), x, y, z, w);
    Assembled(a, b, c);
  }

  /** Decoding what was encoded gives the bytes back. */
  lemma {:induction false} RoundTrip(s: seq<byte>)
    ensures Decode(Encode(s)) == (s, true)
    decreases |s|
  {
    hide EncodeGroup, DecodeGroup, InTable, Payload;
    if s != [] {
      var first := if |s| < 3 then s else s[..3];
      var rest := if |s| < 3 then [] else s[3..];
      GroupRoundTrip(first);
      RoundTrip(rest);
      var e := Encode(s);
      assert e == EncodeGroup(first) + Encode(rest);
      assert e[..4] == EncodeGroup(first) && e[4..] == Encode(rest);
      assert first + rest == s;
    }
  }

  // ----- the encoder -----

  /** The part of the output that fits. */
  function Fits(full: seq<byte>, room: nat): seq<byte> {
    if |full| <= room then full else full[..room]
  }

  /** The `out` steps of one group: each character is put out if there is room, or the call ends. */
  method Put(output: array<byte>, room: nat, j: nat, chars: seq<byte>) returns (ok: bool, next: nat)
    requires j <= room <= output.Length
    modifies output
    ensures (ok <==> j + |chars| <= room) && j <= next <= room
    ensures next == j + |Fits(chars, room - j)|
    ensures output[..next] == old(output[..j]) + Fits(chars, room - j)
    ensures output[next..] == old(output[next..])
  {
    next := j;
    var k := 0;
    while k < |chars|
      invariant 0 <= k <= |chars| && next == j + k <= room
      invariant output[..next] == old(output[..j]) + chars[..k]
      invariant output[next..] == old(output[next..])
    {
      if next >= room {
        return false, next;
      }
      output[next] := chars[k];
      next := next + 1;
      k := k + 1;
    }
    ok := true;
  }

  /** The characters of one group, as the switch of base64_encode makes them. */
  method GroupOf(octets: seq<byte>) returns (g: seq<byte>)
    requires 1 <= |octets| <= 3
    ensures g == EncodeGroup(octets)
  {
    hide *;
    EncodedForms(octets);
    var a: int := octets[0];
    EncodingTable(a / 4);
    if |octets| == 1 {
      EncodingTable(a % 4 * 16);
      return [ENCODING[a / 4] as int, ENCODING[a % 4 * 16] as int, PAD, PAD];
    }
    var b: int := octets[1];
    EncodingTable(a % 4 * 16 + b / 16);
    if |octets| == 2 {
      EncodingTable(b % 16 * 4);
      return [ENCODING[a / 4] as int, ENCODING[a % 4 * 16 + b / 16] as int, ENCODING[b % 16 * 4] as int, PAD];
    }
    var c: int := octets[2];
    EncodingTable(b % 16 * 4 + c / 64);
    EncodingTable(c % 64);
    return [ENCODING[a / 4] as int, ENCODING[a % 4 * 16 + b / 16] as int,
            ENCODING[b % 16 * 4 + c / 64] as int, ENCODING[c % 64] as int];
  }

  lemma EncodeNext(s: seq<byte>)
    requires s != []
    ensures var n := if |s| < 3 then |s| else 3; Encode(s) == EncodeGroup(s[..n]) + Encode(s[n..])
  {
    hide EncodeGroup;
    if |s| < 3 {
      assert s[..|s|] == s && s[|s|..] == [];
    }
  }

  /**
   base64_encode. It succeeds exactly when there is input and the output has room for all the characters
   and a final NUL; otherwise what fits has been written. Nothing else of the output is touched.
   */
  method Base64Encode(input: seq<byte>, output: array<byte>, room: nat) returns (ok: bool)
    requires room <= output.Length
    modifies output
    ensures ok <==> input != [] && 4 * Groups(|input|) + 1 <= room
    ensures var written := if input == [] then [] else Fits(Encode(input) + [0], room);
            output[..|written|] == written && output[|written|..] == old(output[|written|..])
  {
    hide *;
    if input == [] || room == 0 {
      FitsNothing(Encode(input) + [0]);
      return false;
    }
    var i, j := 0, 0;
    assert input[i..] == input;
    while i < |input|
      invariant 0 <= i <= |input| && 0 <= j <= room <= output.Length
                && Encode(input) == output[..j] + Encode(input[i..])
      invariant output[j..] == old(output[j..])
    {
      EncodeNext(input[i..]);
      var n := if |input| - i < 3 then |input| - i else 3;
      var g := GroupOf(input[i..i + n]);
      assert input[i..][..n] == input[i..i + n] && input[i..][n..] == input[i + n..];
      ghost var before, j0, o1 := output[..j], j, output[..];
      i := i + n;
      var fits;
      fits, j := Put(output, room, j, g);
      Untouched(old(output[..]), o1, output[..], j0, j);
      if !fits {
        CutShort(before, g, Encode(input[i..]), room);
        return false;
      }
      AllFits(g, room - |before|);
      Assoc(before, g, Encode(input[i..]));
    }
    assert input[i..] == [];
    EncodeNothing();
    ghost var before, j0, o1 := output[..j], j, output[..];
    assert before == Encode(input);
    ok, j := Put(output, room, j, [0]);
    Untouched(old(output[..]), o1, output[..], j0, j);
    FitsPartly(before, [0], [], room);
    assert before + [0] + [] == Encode(input) + [0];
  }

  lemma EncodeNothing()
    ensures Encode([]) == []
  {}

  lemma Untouched(o0: seq<byte>, o1: seq<byte>, o2: seq<byte>, j: nat, next: nat)
    requires |o0| == |o1| == |o2| && j <= next <= |o0| && o1[j..] == o0[j..] && o2[next..] == o1[next..]
    ensures o2[next..] == o0[next..]
  {
    assert o1[next..] == o1[j..][next - j..] == o0[j..][next - j..];
  }

  lemma CutShort(before: seq<byte>, g: seq<byte>, more: seq<byte>, room: nat)
    requires |before| <= room < |before| + |g|
    ensures Fits(before + (g + more) + [0], room) == before + Fits(g, room - |before|)
    ensures |before + (g + more) + [0]| > room
  {
    assert before + (g + more) + [0] == before + g + (more + [0]);
    FitsPartly(before, g, more + [0], room);
  }

  lemma FitsNothing(full: seq<byte>)
    ensures Fits(full, 0) == []
  {}

  lemma AllFits(s: seq<byte>, room: nat)
    requires |s| <= room
    ensures Fits(s, room) == s
  {}

  lemma FitsPartly(before: seq<byte>, s: seq<byte>, more: seq<byte>, room: nat)
    requires |before| <= room && (|before| + |s| > room || more == [])
    ensures Fits(before + s + more, room) == before + Fits(s, room - |before|)
  {}

  // ----- the decoder -----

  /** A C string in a buffer, from a position on: characters up to a NUL at n. */
  predicate CString(a: seq<byte>, start: nat, n: nat) {
    start <= n < |a| && a[n] == 0 && forall k | start <= k < n :: a[k] != 0
  }

  /** What the code puts in `in[i]` for a character. */
  function Index(c: byte): (i: byte)
    requires FIRST <= c <= LAST
    ensures i < 80
  {
    if c == PAD then 0 else c - FIRST
  }

  /** The first i characters of a group are read. */
  predicate Read(g: seq<byte>, i: nat, c: nat, x: seq<byte>) {
    && i <= |g| && i <= 4 && |x| == 4
    && (forall k | 0 <= k < i :: FIRST <= g[k] <= LAST && x[k] == Index(g[k]))
    && (forall k | i <= k < 4 :: x[k] == 0)
    && c == (if i > 0 then Plain(g[0]) else 0) + (if i > 1 then Plain(g[1]) else 0)
            + (if i > 2 then Plain(g[2]) else 0) + (if i > 3 then Plain(g[3]) else 0)
  }

  /** One group of base64_decode_mut: reads four characters. A NUL is below '+', so it is invalid as well. */
  method ReadGroup(a: array<byte>, input: nat, ghost n: nat) returns (ok: bool, c: nat, x: seq<byte>)
    requires CString(a[..], input, n)
    ensures var s := a[..][input..n];
            && (ok <==> |s| >= 4 && InTable(s[..4]))
            && (ok ==> Read(s[..4], 4, c, x))
  {
    ghost var s := a[..][input..];
    c, x := 0, [0, 0, 0, 0];
    var i := 0;
    while i < 4
      invariant 0 <= i <= 4 && input + i <= n && Read(s, i, c, x)
    {
      assert s[i] == a[input + i];
      if a[input + i] < FIRST || a[input + i] > LAST {
        if n - input >= 4 {
          assert a[..][input..n][..4][i] == s[i];
        }
        return false, c, x;
      }
      if a[input + i] != PAD {
        c := c + 1;
        x := x[i := a[input + i] - FIRST];
      }
      i := i + 1;
    }
    assert a[..][input..n][..4] == s[..4];
    ok := true;
  }

  /** The bytes of one group, as the switch of base64_decode_mut puts them out. */
  method BytesOf(ghost g: seq<byte>, c: nat, x: seq<byte>) returns (ok: bool, bytes: seq<byte>)
    requires |g| == 4 && Read(g, 4, c, x)
    ensures InTable(g) && ok == (Payload(g) >= 2) && (ok ==> bytes == DecodeGroup(g))
  {
    hide DECODING;
    DecodingRange(x[0]);
    DecodingRange(x[1]);
    DecodingRange(x[2]);
    DecodingRange(x[3]);
    var x0: int, x1: int, x2: int, x3: int := DECODING[x[0]], DECODING[x[1]], DECODING[x[2]], DECODING[x[3]];
    bytes := [];
    if c == 2 {
      bytes := [(x0 * 4 + x1 / 16) % 256];
    } else if c == 3 {
      bytes := [(x0 * 4 + x1 / 16) % 256, (x1 % 16 * 16 + x2 / 4) % 256];
    } else if c == 4 {
      bytes := [(x0 * 4 + x1 / 16) % 256, (x1 % 16 * 16 + x2 / 4) % 256, (x2 % 4 * 64 + x3) % 256];
    } else {
      return false, bytes;
    }
    ok := true;
  }

  /** Writes bytes over the buffer at a position. */
  method Overwrite(a: array<byte>, out: nat, bytes: seq<byte>)
    requires out + |bytes| <= a.Length
    modifies a
    ensures a[..] == old(a[..])[..out] + bytes + old(a[..])[out + |bytes|..]
  {
    forall k | 0 <= k < |bytes| {
      a[out + k] := bytes[k];
    }
  }

  predicate GoodGroup(s: seq<byte>) {
    |s| >= 4 && InTable(s[..4]) && Payload(s[..4]) >= 2
  }

  /** One turn of the loop of base64_decode_mut: a good group is replaced by its bytes at the output position. */
  method TakeGroup(a: array<byte>, input: nat, out: nat, ghost n: nat) returns (ok: bool, next: nat)
    requires CString(a[..], input, n) && out <= input
    modifies a
    ensures var s := old(a[..])[input..n];
            && ok == GoodGroup(s)
            && (!ok ==> a[..] == old(a[..]))
            && (ok ==> next == out + |DecodeGroup(s[..4])|
                       && a[..] == old(a[..])[..out] + DecodeGroup(s[..4]) + old(a[..])[next..])
  {
    hide DecodeGroup, InTable, Payload, Read;
    next := out;
    var c, x;
    ok, c, x := ReadGroup(a, input, n);
    if ok {
      var bytes;
      ok, bytes := BytesOf(a[..][input..n][..4], c, x);
      if ok {
        Overwrite(a, out, bytes);
        next := out + |bytes|;
      }
    }
  }

  /** The loop of base64_decode_mut: how the buffer, what is written and what is still to be read hang together. */
  predicate Underway(a: seq<byte>, before: seq<byte>, n: nat, input: nat, out: nat) {
    && CString(before, 0, n) && out <= input <= n && |a| == |before|
    && a[out..] == before[out..]
    && Decode(before[..n]) == (a[..out] + Decode(before[input..n]).0, Decode(before[input..n]).1)
  }

  /**
   base64_decode_mut: decodes a C string in place. What has been decoded so far never reaches what is
   still to be read, so the buffer ends as the decoded bytes, the NUL if all went well, and the rest of
   the old contents.
   */
  method Base64DecodeMut(a: array<byte>, ghost n: nat) returns (ok: bool)
    requires CString(a[..], 0, n)
    modifies a
    ensures ok == Decode(old(a[..])[..n]).1
    ensures var written := Decode(old(a[..])[..n]).0 + (if ok then [0] else []);
            |written| <= n + 1 && a[..] == written + old(a[..])[|written|..]
  {
    hide *;
    ghost var before := a[..];
    var input, out := 0, 0;
    DecodeStart(before, n);
    while a[input] != 0
      invariant 0 <= out <= input <= n < a.Length && Underway(a[..], before, n, input, out)
      decreases n - input
    {
      ghost var now := a[..];
      StillToRead(now, before, n, input, out);
      ghost var start := out;
      ok, out := TakeGroup(a, input, out, n);
      if !ok {
        BadGroup(now, before, n, input, start);
        return;
      }
      GroupDone(now, a[..], before, n, input, start, out);
      input := input + 4;
    }
    AllRead(a[..], before, n, input, out);
    Overwrite(a, out, [0]);
    ok := true;
  }

  lemma DecodeStart(before: seq<byte>, n: nat)
    requires CString(before, 0, n)
    ensures n < |before| && Underway(before, before, n, 0, 0)
  {
    hide Decode;
    assert before[0..n] == before[..n];
    assert before[..0] + Decode(before[..n]).0 == Decode(before[..n]).0;
  }

  lemma StillToRead(a: seq<byte>, before: seq<byte>, n: nat, input: nat, out: nat)
    requires Underway(a, before, n, input, out) && input < |a| && a[input] != 0
    ensures input < n && CString(a, input, n) && a[input..n] == before[input..n]
  {
    hide Decode;
    assert forall k | out <= k < |a| :: a[k] == a[out..][k - out] == before[k];
  }

  lemma DecodeStep(s: seq<byte>)
    requires s != []
    ensures !GoodGroup(s) ==> Decode(s) == ([], false)
    ensures GoodGroup(s) ==> Decode(s) == (DecodeGroup(s[..4]) + Decode(s[4..]).0, Decode(s[4..]).1)
  {
    hide InTable, Payload, DecodeGroup;
  }

  lemma BadGroup(a: seq<byte>, before: seq<byte>, n: nat, input: nat, out: nat)
    requires Underway(a, before, n, input, out) && input < n && !GoodGroup(before[input..n])
    ensures var written := Decode(before[..n]).0 + [];
            |written| <= n + 1 && !Decode(before[..n]).1 && a == written + before[|written|..]
  {
    hide Decode, GoodGroup;
    DecodeStep(before[input..n]);
    assert a == a[..out] + a[out..];
    assert Decode(before[..n]).0 + [] == a[..out];
  }

  lemma GroupDone(a: seq<byte>, a': seq<byte>, before: seq<byte>, n: nat, input: nat, out: nat, next: nat)
    requires Underway(a, before, n, input, out) && input < n && GoodGroup(before[input..n])
    requires var bytes := DecodeGroup(before[input..n][..4]);
             next == out + |bytes| && a' == a[..out] + bytes + a[next..]
    ensures input + 4 <= n && next <= input + 4 && Underway(a', before, n, input + 4, next)
  {
    hide Decode, InTable, Payload, DecodeGroup;
    var s, bytes := before[input..n], DecodeGroup(before[input..n][..4]);
    DecodeStep(s);
    assert s[4..] == before[input + 4..n];
    assert a'[..next] == a[..out] + bytes;
    assert a'[next..] == a[next..] == a[out..][next - out..] == before[out..][next - out..] == before[next..];
    var rest := Decode(before[input + 4..n]).0;
    assert a[..out] + (bytes + rest) == a[..out] + bytes + rest;
  }

  lemma AllRead(a: seq<byte>, before: seq<byte>, n: nat, input: nat, out: nat)
    requires Underway(a, before, n, input, out) && input < |a| && a[input] == 0
    ensures Decode(before[..n]) == (a[..out], true)
    ensures a[..out] + [0] + a[out + 1..] == a[..out] + [0] + before[out + 1..]
  {
    hide Decode;
    assert a[input] == a[out..][input - out] == before[input];
    assert input == n && before[n..n] == [];
    DecodeNothing();
    assert a[..out] + [] == a[..out];
    assert a[out + 1..] == a[out..][1..] == before[out..][1..] == before[out + 1..];
  }

  lemma DecodeNothing()
    ensures Decode([]) == ([], true)
  {}

  /**
   Decoding in place what was encoded: given the room, the buffer holds the input again, followed by a
   NUL, whatever bytes the input has.
   */
  method ThereAndBack(input: seq<byte>, buffer: array<byte>) returns (ok: bool)
    requires input != [] && 4 * Groups(|input|) + 1 <= buffer.Length
    modifies buffer
    ensures ok && buffer[..|input|] == input && buffer[|input|] == 0
  {
    hide *;
    ok := Base64Encode(input, buffer, buffer.Length);
    ghost var e := Encode(input);
    AllFits(e + [0], buffer.Length);
    EncodedIsCString(input, buffer[..]);
    RoundTrip(input);
    assert buffer[..][..|e|] == e;
    ok := Base64DecodeMut(buffer, |e|);
    assert buffer[..][..|input|] == input && buffer[..][|input|] == 0;
  }

  lemma EncodedIsCString(s: seq<byte>, a: seq<byte>)
    requires |a| > |Encode(s)| && a[..|Encode(s)| + 1] == Encode(s) + [0]
    ensures CString(a, 0, |Encode(s)|)
  {
    NoNul(s);
    hide Encode;
    NulAtEnd(Encode(s), a);
  }

  lemma NulAtEnd(e: seq<byte>, a: seq<byte>)
    requires |a| > |e| && a[..|e| + 1] == e + [0] && forall c | c in e :: c != 0
    ensures CString(a, 0, |e|)
  {
    assert forall k | 0 <= k < |e| + 1 :: a[k] == a[..|e| + 1][k];
    assert forall k | 0 <= k < |e| :: a[k] == e[k] && e[k] in e;
  }

  lemma {:induction false} NoNul(s: seq<byte>)
    ensures forall c | c in Encode(s) :: c != 0
    decreases |s|
  {
    if s != [] {
      hide EncodeGroup;
      EncodeNext(s);
      var n := if |s| < 3 then |s| else 3;
      NoNul(s[n..]);
    }
  }

  // ----- known answers -----

  /** The alphabet, character by character. */
  lemma AlphabetInFull(v: nat)
    requires v < 13
    ensures Alphabet(v) == "ABCDEFGHIJKLM"[v] as int && Alphabet(13 + v) == "NOPQRSTUVWXYZ"[v] as int
    ensures Alphabet(26 + v) == "abcdefghijklm"[v] as int && Alphabet(39 + v) == "nopqrstuvwxyz"[v] as int
    ensures v < 12 ==> Alphabet(52 + v) == "0123456789+/"[v] as int
  {}

  /** "f", "fo" and "foo" are encoded as "Zg==", "Zm8=" and "Zm9v" (section 10 of RFC 4648). */
  lemma TestVectors()
    ensures Encode([102]) == [90, 103, 61, 61] && Encode([102, 111]) == [90, 109, 56, 61]
    ensures Encode([102, 111, 111]) == [90, 109, 57, 118]
  {
    var s: seq<byte> := [102, 111, 111];
    assert s[..3] == s && s[3..] == [];
    assert EncodeGroup(s) == [90, 109, 57, 118];
  }
}
