/**
 SHA-1. The reference is FIPS 180-4: functions of section 4.1.1, padding of section 5.1.1, computation of
 section 6.1.2. The implementation is the streaming one of mugshot.c, which works on a block buffer.
 */
module Sha1 {
  import Probing

  const TWO_64: nat := 0x1_0000_0000_0000_0000

  // ----- the standard -----

  /** Addition modulo 2^32. */
  function Add(x: bv32, y: bv32): bv32 {
    x + y
  }

  function Rotl(x: bv32, n: nat): bv32
    requires 0 < n < 32
  {
    (x << n) | (x >> (32 - n))
  }

  function Ch(x: bv32, y: bv32, z: bv32): bv32 {
    (x & y) ^ (!x & z)
  }

  function Parity(x: bv32, y: bv32, z: bv32): bv32 {
    x ^ y ^ z
  }

  function Maj(x: bv32, y: bv32, z: bv32): bv32 {
    (x & y) ^ (x & z) ^ (y & z)
  }

  function F(t: nat, x: bv32, y: bv32, z: bv32): bv32
    requires t < 80
  {
    if t < 20 then Ch(x, y, z) else if t < 40 then Parity(x, y, z) else if t < 60 then Maj(x, y, z) else Parity(x, y, z)
  }

  function K(t: nat): bv32
    requires t < 80
  {
    if t < 20 then 0x5a827999 else if t < 40 then 0x6ed9eba1 else if t < 60 then 0x8f1bbcdc else 0xca62c1d6
  }

  const INITIAL: seq<bv32> := [0x67452301, 0xefcdab89, 0x98badcfe, 0x10325476, 0xc3d2e1f0]

  function Join(a: bv32, b: bv32, c: bv32, d: bv32): bv32 {
    (a << 24) | (b << 16) | (c << 8) | d
  }

  /** Four bytes as a word, the first byte being the most significant. */
  function Word(b: seq<bv8>): bv32
    requires |b| == 4
  {
    Join(b[0] as bv32, b[1] as bv32, b[2] as bv32, b[3] as bv32)
  }

  /** The message schedule of a block. */
  function W(block: seq<bv8>, t: nat): bv32
    requires |block| == 64 && t < 80
  {
    if t < 16 then Word(block[4 * t..4 * t + 4])
    else Rotl(W(block, t - 3) ^ W(block, t - 8) ^ W(block, t - 14) ^ W(block, t - 16), 1)
  }

  datatype Working = Working(a: bv32, b: bv32, c: bv32, d: bv32, e: bv32)

  function Sum5(x: bv32, f: bv32, e: bv32, k: bv32, w: bv32): bv32 {
    Add(Add(Add(Add(x, f), e), k), w)
  }

  function Round(t: nat, v: Working, w: bv32): Working
    requires t < 80
  {
    Working(Sum5(Rotl(v.a, 5), F(t, v.b, v.c, v.d), v.e, K(t), w), v.a, Rotl(v.b, 30), v.c, v.d)
  }

  /** The working variables after the first t rounds. */
  function Rounds(t: nat, v: Working, block: seq<bv8>): Working
    requires t <= 80 && |block| == 64
  {
    if t == 0 then v else Round(t - 1, Rounds(t - 1, v, block), W(block, t - 1))
  }

  function Compress(h: seq<bv32>, block: seq<bv8>): (r: seq<bv32>)
    requires |h| == 5 && |block| == 64
    ensures |r| == 5
  {
    var v := Rounds(80, Working(h[0], h[1], h[2], h[3], h[4]), block);
    [Add(h[0], v.a), Add(h[1], v.b), Add(h[2], v.c), Add(h[3], v.d), Add(h[4], v.e)]
  }

  /** The hash value after all the blocks. */
  function CompressAll(m: seq<bv8>): (r: seq<bv32>)
    requires |m| % 64 == 0
    ensures |r| == 5
  {
    if m == [] then INITIAL else Compress(CompressAll(m[..|m| - 64]), m[|m| - 64..])
  }

  /** How many zero bytes follow the byte with the 1 bit. */
  function ZeroBytes(length: nat): (z: nat)
    ensures z < 64 && (length + 1 + z) % 64 == 56
  {
    (119 - length % 64) % 64
  }

  /** With the seven zero bits of the byte with the 1 bit, those are the fewest zero bits that will do. */
  lemma PaddingIsMinimal(length: nat, k: nat)
    ensures (8 * length + 1 + (7 + 8 * ZeroBytes(length))) % 512 == 448
    ensures (8 * length + 1 + k) % 512 == 448 ==> k >= 7 + 8 * ZeroBytes(length)
  {
    var z := ZeroBytes(length);
    hide ZeroBytes;
    var q := (length + 1 + z) / 64;
    assert 8 * length + 8 + 8 * z == 512 * q + 448;
    WholeBlocks(q);
    if (8 * length + 1 + k) % 512 == 448 {
      var p := (8 * length + 1 + k) / 512;
      assert k - (7 + 8 * z) == 512 * (p - q);
    }
  }

  lemma WholeBlocks(q: nat)
    ensures (512 * q + 448) % 512 == 448
  {}

  /** The last k bytes of a number, the most significant first. */
  function BigEndian(n: nat, k: nat): (r: seq<bv8>)
    ensures |r| == k
  {
    if k == 0 then [] else BigEndian(n / 256, k - 1) + [(n % 256) as bv8]
  }

  function Pow256(k: nat): (p: nat)
    ensures p > 0
  {
    if k == 0 then 1 else 256 * Pow256(k - 1)
  }

  /** The byte that `(n >> (8 * j)) & 255` is, j places from the end. */
  lemma {:induction false} BigEndianByte(n: nat, k: nat, i: nat)
    requires i < k
    ensures BigEndian(n, k)[i] == (n / Pow256(k - 1 - i) % 256) as bv8
  {
    if i < k - 1 {
      BigEndianByte(n / 256, k - 1, i);
      DivDiv(n, Pow256(k - 2 - i));
    }
  }

  lemma DivDiv(n: nat, b: nat)
    requires b > 0
    ensures n / 256 / b == n / (256 * b)
  {
    var q, r := n / 256 / b, n / 256 % b;
    assert n / 256 == b * q + r;
    assert n == 256 * (b * q + r) + n % 256;
    assert 256 * (b * q) == q * (256 * b);
    Probing.ModUnique(n, q, 256 * r + n % 256, 256 * b);
  }

  function Zeros(n: nat): (r: seq<bv8>)
    ensures |r| == n
  {
    seq(n, _ => 0)
  }

  lemma PaddedLength(length: nat)
    ensures (length + 1 + ZeroBytes(length) + 8) % 64 == 0
  {}

  /** The padded message. */
  function Pad(m: seq<bv8>): (r: seq<bv8>)
    requires 8 * |m| < TWO_64
    ensures |r| % 64 == 0
  {
    hide *;
    PaddedLength(|m|);
    m + [0x80] + Zeros(ZeroBytes(|m|)) + BigEndian(8 * |m|, 8)
  }

  /** The hash of a message, as five words. */
  function Hash(m: seq<bv8>): (r: seq<bv32>)
    requires 8 * |m| < TWO_64
    ensures |r| == 5
  {
    CompressAll(Pad(m))
  }

  /** The words that twenty bytes hold. */
  function DigestWords(d: seq<bv8>): (r: seq<bv32>)
    requires |d| == 20
    ensures |r| == 5
  {
    [Word(d[0..4]), Word(d[4..8]), Word(d[8..12]), Word(d[12..16]), Word(d[16..20])]
  }

  // ----- the implementation's forms -----

  /** The choice and the majority, as the code writes them. */
  function ChooseByOr(x: bv32, y: bv32, z: bv32): bv32 {
    (x & y) | (!x & z)
  }

  function MajorityByOr(x: bv32, y: bv32, z: bv32): bv32 {
    (x & y) | (x & z) | (y & z)
  }

  lemma ChoiceBits(x: bv32, y: bv32, z: bv32)
    ensures (x & y) | (!x & z) == (x & y) ^ (!x & z)
  {}

  lemma MajorityBits(x: bv32, y: bv32, z: bv32)
    ensures (x & y) | (x & z) | (y & z) == (x & y) ^ (x & z) ^ (y & z)
  {}

  /** The code's ORs are the standard's exclusive ORs. */
  lemma OrsAreXors(x: bv32, y: bv32, z: bv32)
    ensures ChooseByOr(x, y, z) == Ch(x, y, z) && MajorityByOr(x, y, z) == Maj(x, y, z)
  {
    calc {
      ChooseByOr(x, y, z);
      (x & y) | (!x & z);
      { ChoiceBits(x, y, z); }
      (x & y) ^ (!x & z);
      Ch(x, y, z);
    }
    calc {
      MajorityByOr(x, y, z);
      (x & y) | (x & z) | (y & z);
      { MajorityBits(x, y, z); }
      (x & y) ^ (x & z) ^ (y & z);
      Maj(x, y, z);
    }
  }

  /** And the order of its sum does not matter. */
  lemma SumOrder(x: bv32, w: bv32, k: bv32)
    ensures Add(Add(x, w), k) == Add(Add(x, k), w)
  {
    calc {
      Add(Add(x, w), k);
      Add(x + w, k);
      x + w + k;
      { Commutes(x, w, k); }
      x + k + w;
      Add(x + k, w);
      Add(Add(x, k), w);
    }
  }

  lemma Commutes(x: bv32, w: bv32, k: bv32)
    ensures x + w + k == x + k + w
  {}

  /** The round's function and constant, as the code's four branches have them. */
  lemma Branches(t: nat, b: bv32, c: bv32, d: bv32)
    requires t < 80
    ensures t < 20 ==> ChooseByOr(b, c, d) == F(t, b, c, d) && K(t) == 0x5A827999
    ensures 20 <= t < 40 ==> Parity(b, c, d) == F(t, b, c, d) && K(t) == 0x6ED9EBA1
    ensures 40 <= t < 60 ==> MajorityByOr(b, c, d) == F(t, b, c, d) && K(t) == 0x8F1BBCDC
    ensures 60 <= t ==> Parity(b, c, d) == F(t, b, c, d) && K(t) == 0xCA62C1D6
  {
    hide Ch, Maj, Parity, ChooseByOr, MajorityByOr;
    OrsAreXors(b, c, d);
  }

  lemma CodeSum(x: bv32, f: bv32, e: bv32, k: bv32, w: bv32)
    ensures Add(Add(Add(Add(x, f), e), w), k) == Sum5(x, f, e, k, w)
  {
    hide Add;
    SumOrder(Add(Add(x, f), e), w, k);
  }

  lemma NextRound(t: nat, v: Working, block: seq<bv8>, a: bv32, b: bv32, c: bv32, d: bv32, e: bv32)
    requires t < 80 && |block| == 64 && Rounds(t, v, block) == Working(a, b, c, d, e)
    ensures Rounds(t + 1, v, block) == Working(Sum5(Rotl(a, 5), F(t, b, c, d), e, K(t), W(block, t)), a, Rotl(b, 30),
                                               c, d)
  {
    hide Rotl, F, K, W, Sum5;
  }

  lemma WordAt(block: seq<bv8>, t: nat)
    requires |block| == 64 && t < 16
    ensures W(block, t) == Join(block[t * 4] as bv32, block[t * 4 + 1] as bv32, block[t * 4 + 2] as bv32,
                                block[t * 4 + 3] as bv32)
  {
    hide Join;
  }

  lemma ScheduleAt(block: seq<bv8>, t: nat)
    requires |block| == 64 && 16 <= t < 80
    ensures W(block, t) == Rotl(W(block, t - 3) ^ W(block, t - 8) ^ W(block, t - 14) ^ W(block, t - 16), 1)
  {
    hide Rotl, Word;
  }

  // ----- the state of the stream -----

  /** Arithmetic on uint64_t. */
  function Wrap(n: nat): nat {
    n % TWO_64
  }

  function BitCount(m: seq<bv8>): nat {
    Wrap(8 * |m|)
  }

  /** What the context holds after a message: its whole blocks compressed, the rest waiting in the buffer. */
  predicate Absorbed(state: seq<bv32>, count: nat, buffer: seq<bv8>, m: seq<bv8>) {
    var k := |m| - |m| % 64;
    && |state| == 5 && |buffer| == 64
    && count == BitCount(m)
    && state == CompressAll(m[..k])
    && buffer[..|m| % 64] == m[k..]
  }

  /** The first k bytes of a message have been compressed. */
  predicate CompressedTo(state: seq<bv32>, m: seq<bv8>, k: nat) {
    k <= |m| && k % 64 == 0 && state == CompressAll(m[..k])
  }

  lemma AbsorbedParts(state: seq<bv32>, count: nat, buffer: seq<bv8>, m: seq<bv8>, data: seq<bv8>)
    requires Absorbed(state, count, buffer, m)
    ensures |buffer| == 64 && count / 8 % 64 <= |m|
    ensures var j := count / 8 % 64;
            var k := |m| - j;
            && CompressedTo(state, m + data, k) && buffer[..j] == (m + data)[k..|m|]
            && Wrap(count + 8 * |data|) == BitCount(m + data)
  {
    hide CompressAll, Wrap;
    CountPosition(|m|);
    CountAdds(|m|, |data|);
    var k := |m| - |m| % 64;
    assert (m + data)[..k] == m[..k] && (m + data)[k..|m|] == m[k..];
  }

  lemma AbsorbedIntro(state: seq<bv32>, count: nat, buffer: seq<bv8>, m: seq<bv8>, k: nat)
    requires |buffer| == 64 && k <= |m| < k + 64 && count == BitCount(m)
    requires CompressedTo(state, m, k) && buffer[..|m| - k] == m[k..]
    ensures Absorbed(state, count, buffer, m)
  {
    hide CompressAll;
  }

  /** The parts of a message and what is added to it. */
  lemma FirstBlock(m: seq<bv8>, data: seq<bv8>, j: nat, k: nat)
    requires j < 64 && k + j == |m| && j + |data| >= 64
    ensures (m + data)[k..|m|] + data[..64 - j] == (m + data)[k..k + 64]
  {}

  lemma InnerBlock(whole: seq<bv8>, data: seq<bv8>, start: nat, i: nat, k: nat)
    requires start <= i && i + 64 <= |data| && k <= |whole| && data[start..] == whole[k..]
    ensures k + i - start + 64 <= |whole| && data[i..i + 64] == whole[k + i - start..k + i - start + 64]
  {
    assert data[start..][i - start..i - start + 64] == whole[k..][i - start..i - start + 64];
  }

  lemma DataFrom(m: seq<bv8>, data: seq<bv8>, i: nat)
    requires i <= |data|
    ensures data[i..] == (m + data)[|m| + i..]
  {}

  /** What is left to keep: after a block nothing waits in the buffer; without one, all the data is left. */
  lemma LastPart(buffer: seq<bv8>, m: seq<bv8>, data: seq<bv8>, i: nat, j: nat, k: nat)
    requires i <= |data| && j <= |buffer| && k + j == |m| + i
    requires j == 0 || (i == 0 && buffer[..j] == (m + data)[k..|m|])
    ensures buffer[..j] + data[i..] == (m + data)[k..]
  {
    if j == 0 {
      assert buffer[..j] == [];
    } else {
      assert data[i..] == data;
    }
  }

  lemma NextBlock(state: seq<bv32>, m: seq<bv8>, k: nat, next: seq<bv32>)
    requires |state| == 5 && CompressedTo(state, m, k) && k + 64 <= |m| && next == Compress(state, m[k..k + 64])
    ensures CompressedTo(next, m, k + 64)
  {
    hide Compress;
    assert m[..k + 64][..k] == m[..k] && m[..k + 64][k..] == m[k..k + 64];
  }

  /** The bit count is kept modulo 2^64, which does not disturb the position in the block. */
  lemma CountPosition(length: nat)
    ensures Wrap(8 * length) / 8 % 64 == length % 64
    ensures Wrap(8 * length) % 512 == 448 <==> length % 64 == 56
  {
    var q := 8 * length / TWO_64;
    var r := 8 * length % TWO_64;
    assert r == 8 * (length - 0x2000_0000_0000_0000 * q);
    var s := length - 0x2000_0000_0000_0000 * q;
    assert r / 8 == s;
    assert length % 64 == s % 64 by {
      assert length == s + 64 * (0x80_0000_0000_0000 * q);
      AddMultiple(s, 0x80_0000_0000_0000 * q);
    }
    assert r % 512 == 8 * (s % 64);
  }

  lemma CountAdds(length: nat, more: nat)
    ensures Wrap(Wrap(8 * length) + 8 * more) == Wrap(8 * (length + more))
  {
    var q, r := 8 * length / TWO_64, 8 * length % TWO_64;
    assert 8 * (length + more) == r + 8 * more + TWO_64 * q;
    AddMultiple64(r + 8 * more, q);
  }

  lemma AddMultiple64(s: nat, k: nat)
    ensures (s + TWO_64 * k) % TWO_64 == s % TWO_64
  {}

  lemma AddMultiple(s: nat, k: nat)
    ensures (s + 64 * k) % 64 == s % 64
  {}

  class Context {
    const state: array<bv32>
    var count: nat            // of bits, modulo 2^64
    const buffer: array<bv8>
    ghost var message: seq<bv8>   // what has been added so far

    ghost predicate Valid()
      reads this, state, buffer
    {
      state.Length == 5 && buffer.Length == 64 && Absorbed(state[..], count, buffer[..], message)
    }

    /** SHA1_Init */
    constructor ()
      ensures Valid() && message == [] && fresh(this) && fresh(state) && fresh(buffer)
    {
      state := new bv32[5] [0x67452301, 0xefcdab89, 0x98badcfe, 0x10325476, 0xc3d2e1f0];
      buffer := new bv8[64](_ => 0);
      count := 0;
      message := [];
      new;
      assert state[..] == INITIAL;
    }

    /** The message schedule, as SHA1_Transform lays it out. */
    static method Schedule(block: seq<bv8>) returns (w: array<bv32>)
      requires |block| == 64
      ensures fresh(w) && w.Length == 80 && forall t | 0 <= t < 80 :: w[t] == W(block, t)
    {
      hide *;
      w := new bv32[80];
      var i := 0;
      while i < 16
        invariant 0 <= i <= 16
        invariant forall t | 0 <= t < i :: w[t] == W(block, t)
      {
        w[i] := Join(block[i * 4] as bv32, block[i * 4 + 1] as bv32, block[i * 4 + 2] as bv32,
                     block[i * 4 + 3] as bv32);
        WordAt(block, i);
        i := i + 1;
      }
      while i < 80
        invariant 16 <= i <= 80
        invariant forall t | 0 <= t < i :: w[t] == W(block, t)
      {
        w[i] := Rotl(w[i - 3] ^ w[i - 8] ^ w[i - 14] ^ w[i - 16], 1);
        ScheduleAt(block, i);
        i := i + 1;
      }
    }

    /** SHA1_Transform */
    method Transform(block: seq<bv8>)
      requires state.Length == 5 && |block| == 64
      modifies state
      ensures state[..] == Compress(old(state[..]), block)
    {
      hide *;
      var w := Schedule(block);
      var a, b, c, d, e := state[0], state[1], state[2], state[3], state[4];
      ghost var v := Working(a, b, c, d, e);
      NoRounds(v, block);
      var i := 0;
      while i < 80
        invariant 0 <= i <= 80 && state[..] == old(state[..])
        invariant forall t | 0 <= t < 80 :: w[t] == W(block, t)
        invariant Working(a, b, c, d, e) == Rounds(i, v, block)
      {
        NextRound(i, v, block, a, b, c, d, e);
        Branches(i, b, c, d);
        CodeSum(Rotl(a, 5), F(i, b, c, d), e, K(i), w[i]);
        var temp;
        if i < 20 {
          temp := Add(Add(Add(Add(Rotl(a, 5), ChooseByOr(b, c, d)), e), w[i]), 0x5A827999);
        } else if i < 40 {
          temp := Add(Add(Add(Add(Rotl(a, 5), Parity(b, c, d)), e), w[i]), 0x6ED9EBA1);
        } else if i < 60 {
          temp := Add(Add(Add(Add(Rotl(a, 5), MajorityByOr(b, c, d)), e), w[i]), 0x8F1BBCDC);
        } else {
          temp := Add(Add(Add(Add(Rotl(a, 5), Parity(b, c, d)), e), w[i]), 0xCA62C1D6);
        }
        e := d;
        d := c;
        c := Rotl(b, 30);
        b := a;
        a := temp;
        i := i + 1;
      }
      Compressed(state[..], block, Working(a, b, c, d, e));
      state[0] := Add(state[0], a);
      state[1] := Add(state[1], b);
      state[2] := Add(state[2], c);
      state[3] := Add(state[3], d);
      state[4] := Add(state[4], e);
    }

    lemma ItIsAbsorbed()
      requires Valid()
      ensures state.Length == 5 && buffer.Length == 64 && Absorbed(state[..], count, buffer[..], message)
    {}

    lemma ItIsValid()
      requires state.Length == 5 && buffer.Length == 64 && Absorbed(state[..], count, buffer[..], message)
      ensures Valid()
    {}

    /** memcpy into the buffer. */
    method Fill(j: nat, bytes: seq<bv8>)
      requires buffer.Length == 64 && j + |bytes| <= 64
      modifies buffer
      ensures buffer[..j + |bytes|] == old(buffer[..j]) + bytes
    {
      forall k | 0 <= k < |bytes| {
        buffer[j + k] := bytes[k];
      }
    }

    /** The start of SHA1_Update, when a block can be completed: the buffer is filled up and compressed. */
    method FillBlock(j: nat, first: seq<bv8>, ghost m: seq<bv8>, ghost data: seq<bv8>, ghost k: nat)
      requires state.Length == 5 && buffer.Length == 64 && j < 64 && k + j == |m| && j + |data| >= 64
      requires first == data[..64 - j] && CompressedTo(state[..], m + data, k) && buffer[..j] == (m + data)[k..|m|]
      modifies state, buffer
      ensures CompressedTo(state[..], m + data, k + 64)
    {
      hide *;
      Fill(j, first);
      FirstBlock(m, data, j, k);
      assert buffer[..] == buffer[..64];
      ghost var before := state[..];
      Transform(buffer[..]);
      NextBlock(before, m + data, k, state[..]);
    }

    /** The full blocks of SHA1_Update: data from position i on is what follows k bytes of the message. */
    method FullBlocks(data: seq<bv8>, start: nat, ghost whole: seq<bv8>, ghost k: nat) returns (i: nat)
      requires state.Length == 5 && start <= |data| && k <= |whole| && CompressedTo(state[..], whole, k)
      requires start + 63 < |data| ==> data[start..] == whole[k..]
      modifies state
      ensures start <= i <= |data| < i + 64 && (|data| - start < 64 ==> i == start)
      ensures CompressedTo(state[..], whole, k + i - start)
    {
      hide *;
      i := start;
      while i + 63 < |data|
        invariant start <= i <= |data| && (|data| - start < 64 ==> i == start)
        invariant CompressedTo(state[..], whole, k + i - start)
      {
        InnerBlock(whole, data, start, i, k);
        ghost var before := state[..];
        Transform(data[i..i + 64]);
        NextBlock(before, whole, k + i - start, state[..]);
        i := i + 64;
      }
    }

    /** The end of SHA1_Update: what is left goes into the buffer. */
    method KeepRest(j: nat, rest: seq<bv8>, ghost whole: seq<bv8>, ghost k: nat)
      requires buffer.Length == 64 && j + |rest| <= 64 && k <= |whole| && buffer[..j] + rest == whole[k..]
      modifies buffer
      ensures |whole| - k <= 64 && buffer[..|whole| - k] == whole[k..]
    {
      assert |whole| - k == |whole[k..]| == j + |rest|;
      if rest != [] {
        Fill(j, rest);
      } else {
        assert buffer[..j] + rest == buffer[..j];
      }
    }

    /** SHA1_Update */
    method Update(data: seq<bv8>)
      requires Valid()
      modifies this`count, this`message, state, buffer
      ensures Valid() && message == old(message) + data
    {
      hide *;
      ItIsAbsorbed();
      ghost var n, whole := |message|, message + data;
      AbsorbedParts(state[..], count, buffer[..], message, data);
      var i := 0;
      var j := count / 8 % 64;
      ghost var k := n - j;     // bytes compressed so far
      count := Wrap(count + 8 * |data|);
      if j + |data| >= 64 {
        FillBlock(j, data[..64 - j], message, data, k);
        i, k := 64 - j, k + 64;
        j := 0;
      }
      DataFrom(message, data, i);
      ghost var start := i;
      i := FullBlocks(data, i, whole, k);
      k := k + i - start;
      LastPart(buffer[..], message, data, i, j, k);
      assert buffer[..][..j] == buffer[..j];
      KeepRest(j, data[i..], whole, k);
      message := whole;
      AbsorbedIntro(state[..], count, buffer[..], whole, k);
      ItIsValid();
    }

    /**
     SHA1_Final: pads and writes the digest. The zero bytes go in one at a time until the count stands at
     448 bits into a block.
     */
    method Final() returns (digest: array<bv8>)
      requires Valid()
      modifies this`count, this`message, state, buffer
      ensures fresh(digest) && digest.Length == 20
      ensures 8 * |old(message)| < TWO_64 ==> DigestWords(digest[..]) == Hash(old(message))
    {
      hide *;
      ghost var m := message;
      ItIsAbsorbed();
      BitsOf(state[..], count, buffer[..], m);
      ghost var bits := count;
      var finalcount := CountBytes();
      Update([0x80]);
      ghost var z := 0;
      PaddingStarts(m, message);
      ItIsAbsorbed();
      ZeroStep(state[..], count, buffer[..], m, message, z);
      while count % 512 != 448
        invariant Valid() && Padding(m, message, z) && z <= ZeroBytes(|m|)
        invariant count % 512 == 448 <==> z == ZeroBytes(|m|)
        decreases ZeroBytes(|m|) - z
      {
        PaddingGrows(m, message, z);
        Update([0]);
        z := z + 1;
        ItIsAbsorbed();
        ZeroStep(state[..], count, buffer[..], m, message, z);
      }
      ghost var before := message;
      Update(finalcount);
      ItIsAbsorbed();
      Padded(state[..], count, buffer[..], m, message, before, bits);
      digest := new bv8[20];
      Output(digest);
    }

    /** The bit count in big-endian format, byte by byte. */
    method CountBytes() returns (finalcount: seq<bv8>)
      ensures finalcount == BigEndian(count, 8)
    {
      hide *;
      finalcount := [];
      var i := 0;
      while i < 8
        invariant 0 <= i <= 8 && finalcount == BigEndian(count, 8)[..i]
      {
        BigEndianByte(count, 8, i);
        finalcount := finalcount + [(count / Pow256(7 - i) % 256) as bv8];
        i := i + 1;
      }
    }

    /** The digest loop of SHA1_Final. */
    method Output(digest: array<bv8>)
      requires state.Length == 5 && digest.Length == 20
      modifies digest
      ensures DigestWords(digest[..]) == state[..]
    {
      hide *;
      var i := 0;
      while i < 20
        invariant 0 <= i <= 20
        invariant forall k | 0 <= k < i :: digest[k] == ByteOf(state[k / 4], k % 4)
      {
        digest[i] := ByteOf(state[i / 4], i % 4);
        i := i + 1;
      }
      WordsOut(digest[..], state[..]);
    }
  }

  /** `(word >> (24 - i * 8)) & 255` */
  function Shifted(w: bv32, i: nat): (r: bv32)
    requires i < 4
  {
    if i == 0 then (w >> 24) & 255 else if i == 1 then (w >> 16) & 255 else if i == 2 then (w >> 8) & 255 else w & 255
  }

  function ByteOf(w: bv32, i: nat): bv8
    requires i < 4
  {
    Shifted(w, i) as bv8
  }

  lemma ByteBack(w: bv32, i: nat)
    requires i < 4
    ensures ByteOf(w, i) as bv32 == Shifted(w, i)
  {
    ShiftedSmall(w, i);
    hide Shifted;
    Narrowed(Shifted(w, i));
  }

  lemma ShiftedSmall(w: bv32, i: nat)
    requires i < 4
    ensures Shifted(w, i) <= 255
  {}

  lemma Narrowed(x: bv32)
    requires x <= 255
    ensures (x as bv8) as bv32 == x
  {}

  lemma Rejoined(w: bv32)
    ensures (((w >> 24) & 255) << 24) | (((w >> 16) & 255) << 16) | (((w >> 8) & 255) << 8) | (w & 255) == w
  {}

  lemma ShiftedBytes(w: bv32)
    ensures Shifted(w, 0) == (w >> 24) & 255 && Shifted(w, 1) == (w >> 16) & 255
    ensures Shifted(w, 2) == (w >> 8) & 255 && Shifted(w, 3) == w & 255
  {}

  lemma JoinOf(a: bv32, b: bv32, c: bv32, d: bv32)
    ensures Join(a, b, c, d) == (a << 24) | (b << 16) | (c << 8) | d
  {}

  lemma JoinedBytes(w: bv32)
    ensures Join(Shifted(w, 0), Shifted(w, 1), Shifted(w, 2), Shifted(w, 3)) == w
  {
    hide Join, Shifted;
    ShiftedBytes(w);
    JoinOf((w >> 24) & 255, (w >> 16) & 255, (w >> 8) & 255, w & 255);
    Rejoined(w);
  }

  /** The bytes that are put out hold the word. */
  lemma WordOfBytes(w: bv32)
    ensures Word([ByteOf(w, 0), ByteOf(w, 1), ByteOf(w, 2), ByteOf(w, 3)]) == w
  {
    hide ByteOf, Join, Shifted;
    ByteBack(w, 0);
    ByteBack(w, 1);
    ByteBack(w, 2);
    ByteBack(w, 3);
    JoinedBytes(w);
  }

  lemma WordsOut(d: seq<bv8>, h: seq<bv32>)
    requires |d| == 20 && |h| == 5 && forall k | 0 <= k < 20 :: d[k] == ByteOf(h[k / 4], k % 4)
    ensures DigestWords(d) == h
  {
    hide ByteOf, Word;
    WordOut(d, h, 0);
    WordOut(d, h, 1);
    WordOut(d, h, 2);
    WordOut(d, h, 3);
    WordOut(d, h, 4);
  }

  lemma WordOut(d: seq<bv8>, h: seq<bv32>, i: nat)
    requires |d| == 20 && |h| == 5 && forall k | 0 <= k < 20 :: d[k] == ByteOf(h[k / 4], k % 4)
    requires i < 5
    ensures Word(d[4 * i..4 * i + 4]) == h[i]
  {
    hide ByteOf, Word;
    WordOfBytes(h[i]);
    assert d[4 * i] == ByteOf(h[i], 0);
    assert d[4 * i + 1] == ByteOf(h[i], 1);
    assert d[4 * i + 2] == ByteOf(h[i], 2);
    assert d[4 * i + 3] == ByteOf(h[i], 3);
    assert d[4 * i..4 * i + 4] == [ByteOf(h[i], 0), ByteOf(h[i], 1), ByteOf(h[i], 2), ByteOf(h[i], 3)];
  }

  /** A message on its way to being padded: the byte with the 1 bit, and z zero bytes. */
  predicate Padding(m: seq<bv8>, padded: seq<bv8>, z: nat) {
    padded == m + [0x80] + Zeros(z)
  }

  lemma PaddingStarts(m: seq<bv8>, padded: seq<bv8>)
    requires padded == m + [0x80]
    ensures Padding(m, padded, 0)
  {}

  lemma PaddingGrows(m: seq<bv8>, padded: seq<bv8>, z: nat)
    requires Padding(m, padded, z)
    ensures Padding(m, padded + [0], z + 1)
  {
    assert Zeros(z + 1) == Zeros(z) + [0];
  }

  lemma BitsOf(state: seq<bv32>, count: nat, buffer: seq<bv8>, m: seq<bv8>)
    requires Absorbed(state, count, buffer, m)
    ensures 8 * |m| < TWO_64 ==> count == 8 * |m|
  {
    hide CompressAll;
  }

  /** The count tells when there are enough zero bytes. */
  lemma ZeroStep(state: seq<bv32>, count: nat, buffer: seq<bv8>, m: seq<bv8>, padded: seq<bv8>, z: nat)
    requires Absorbed(state, count, buffer, padded) && Padding(m, padded, z) && z <= ZeroBytes(|m|)
    ensures count % 512 == 448 <==> z == ZeroBytes(|m|)
  {
    hide CompressAll, Wrap;
    CountPosition(|padded|);
    assert |padded| == |m| + 1 + z;
    OnlyZeroBytes(|m|, z);
  }

  lemma OnlyZeroBytes(length: nat, z: nat)
    requires z <= ZeroBytes(length)
    ensures (length + 1 + z) % 64 == 56 <==> z == ZeroBytes(length)
  {}

  lemma Padded(state: seq<bv32>, count: nat, buffer: seq<bv8>, m: seq<bv8>, padded: seq<bv8>, before: seq<bv8>,
               bits: nat)
    requires Absorbed(state, count, buffer, padded) && padded == before + BigEndian(bits, 8)
    requires Padding(m, before, ZeroBytes(|m|)) && (8 * |m| < TWO_64 ==> bits == 8 * |m|)
    ensures 8 * |m| < TWO_64 ==> state == Hash(m)
  {
    hide CompressAll, Wrap, BigEndian, ZeroBytes;
    if 8 * |m| < TWO_64 {
      assert padded == Pad(m);
      assert padded[..|padded|] == padded;
    }
  }

  lemma NoRounds(v: Working, block: seq<bv8>)
    requires |block| == 64
    ensures Rounds(0, v, block) == v
  {}

  lemma Compressed(h: seq<bv32>, block: seq<bv8>, v: Working)
    requires |h| == 5 && |block| == 64 && v == Rounds(80, Working(h[0], h[1], h[2], h[3], h[4]), block)
    ensures Compress(h, block) == [Add(h[0], v.a), Add(h[1], v.b), Add(h[2], v.c), Add(h[3], v.d), Add(h[4], v.e)]
  {
    hide Rounds, Add;
  }

  // ----- whole messages -----

  function Concat(pieces: seq<seq<bv8>>): seq<bv8> {
    if pieces == [] then [] else Concat(pieces[..|pieces| - 1]) + pieces[|pieces| - 1]
  }

  /** SHA1: the hash of a message, for any message that the standard gives a hash. */
  method Digest(data: seq<bv8>) returns (digest: array<bv8>)
    requires 8 * |data| < TWO_64
    ensures digest.Length == 20 && DigestWords(digest[..]) == Hash(data)
  {
    var ctx := new Context();
    ctx.Update(data);
    assert [] + data == data;
    digest := ctx.Final();
  }

  method AddAll(pieces: seq<seq<bv8>>) returns (ctx: Context)
    ensures fresh(ctx) && ctx.Valid() && ctx.message == Concat(pieces)
  {
    hide Absorbed;
    ctx := new Context();
    var i := 0;
    while i < |pieces|
      invariant 0 <= i <= |pieces|
      invariant fresh(ctx) && fresh(ctx.state) && fresh(ctx.buffer)
      invariant ctx.Valid() && ctx.message == Concat(pieces[..i])
    {
      assert pieces[..i + 1][..i] == pieces[..i];
      ctx.Update(pieces[i]);
      i := i + 1;
    }
    assert pieces[..i] == pieces;
  }

  /**
   Splitting does not matter: however a message is cut into pieces, adding them one by one leaves the
   state, the bit count and the live bytes of the buffer that any other cutting of it leaves.
   */
  method AnyTwoCuts(p: seq<seq<bv8>>, q: seq<seq<bv8>>) returns (a: Context, b: Context)
    requires Concat(p) == Concat(q)
    ensures a.state[..] == b.state[..] && a.count == b.count
    ensures a.buffer.Length == b.buffer.Length == 64
    ensures var live := |Concat(p)| % 64; a.buffer[..live] == b.buffer[..live]
  {
    hide *;
    a := AddAll(p);
    b := AddAll(q);
    a.ItIsAbsorbed();
    b.ItIsAbsorbed();
    Determined(a.state[..], a.count, a.buffer[..], b.state[..], b.count, b.buffer[..], Concat(p));
  }

  lemma Determined(s: seq<bv32>, n: nat, b: seq<bv8>, s': seq<bv32>, n': nat, b': seq<bv8>, m: seq<bv8>)
    requires Absorbed(s, n, b, m) && Absorbed(s', n', b', m)
    ensures s == s' && n == n' && |b| == |b'| == 64 && b[..|m| % 64] == b'[..|m| % 64]
  {}
}
