/**
 The known answer of FIPS 180-4 for a message of one block: the hash of "abc", word by word and round by round
 over numbers. It fixes the constants, the rotations and the order of the working variables.
 */
module Sha1Answer {
  import opened Sha1

  // ----- one step over numbers -----

  lemma Rotations(x: bv32)
    ensures Rotl(x, 1) == (x << 1) | (x >> 31) && Rotl(x, 5) == (x << 5) | (x >> 27)
    ensures Rotl(x, 30) == (x << 30) | (x >> 2)
  {}

  /** A word of the schedule from the four that it depends on. */
  lemma NextWord(block: seq<bv8>, t: nat, a: bv32, b: bv32, c: bv32, d: bv32, x: bv32, r: bv32)
    requires |block| == 64 && 16 <= t < 80
    requires W(block, t - 3) == a && W(block, t - 8) == b && W(block, t - 14) == c && W(block, t - 16) == d
    requires x == a ^ b ^ c ^ d && r == (x << 1) | (x >> 31)
    ensures W(block, t) == r
  {
    hide Rotl;
    ScheduleAt(block, t);
    Rotations(x);
  }

  /** What a round does with the value of its function; k is its constant, x and b are the rotated words. */
  lemma NextState(block: seq<bv8>, v: Working, t: nat, s: Working, x: bv32, f: bv32, k: bv32, w: bv32, r: bv32,
                  b: bv32)
    requires |block| == 64 && t < 80 && Rounds(t, v, block) == s && W(block, t) == w
    requires F(t, s.b, s.c, s.d) == f && K(t) == k
    requires x == Rotl(s.a, 5) && b == Rotl(s.b, 30) && r == Add(Add(Add(Add(x, f), s.e), k), w)
    ensures Rounds(t + 1, v, block) == Working(r, s.a, b, s.c, s.d)
  {
    hide *;
    SumOf(x, f, s.e, k, w);
    NextRound(t, v, block, s.a, s.b, s.c, s.d, s.e);
  }

  lemma SumOf(x: bv32, f: bv32, e: bv32, k: bv32, w: bv32)
    ensures Sum5(x, f, e, k, w) == Add(Add(Add(Add(x, f), e), k), w)
  {
    hide Add;
  }

  /** The function and the constant of each round. */
  lemma Functions(t: nat, x: bv32, y: bv32, z: bv32)
    requires t < 80
    ensures t < 20 ==> F(t, x, y, z) == Ch(x, y, z) && K(t) == 0x5a827999
    ensures 20 <= t < 40 ==> F(t, x, y, z) == Parity(x, y, z) && K(t) == 0x6ed9eba1
    ensures 40 <= t < 60 ==> F(t, x, y, z) == Maj(x, y, z) && K(t) == 0x8f1bbcdc
    ensures 60 <= t ==> F(t, x, y, z) == Parity(x, y, z) && K(t) == 0xca62c1d6
  {
    hide Ch, Parity, Maj;
  }

  lemma ChooseRound(block: seq<bv8>, v: Working, t: nat, s: Working, x: bv32, f: bv32, w: bv32, r: bv32, b: bv32)
    requires |block| == 64 && t < 20 && Rounds(t, v, block) == s && W(block, t) == w
    requires x == Rotl(s.a, 5) && b == Rotl(s.b, 30)
    requires f == Ch(s.b, s.c, s.d) && r == Add(Add(Add(Add(x, f), s.e), 0x5a827999), w)
    ensures Rounds(t + 1, v, block) == Working(r, s.a, b, s.c, s.d)
  {
    hide *;
    Functions(t, s.b, s.c, s.d);
    NextState(block, v, t, s, x, f, 0x5a827999, w, r, b);
  }

  lemma ParityRound(block: seq<bv8>, v: Working, t: nat, s: Working, x: bv32, f: bv32, k: bv32, w: bv32, r: bv32,
                    b: bv32)
    requires |block| == 64 && t < 80 && Rounds(t, v, block) == s && W(block, t) == w
    requires (20 <= t < 40 && k == 0x6ed9eba1) || (60 <= t && k == 0xca62c1d6)
    requires x == Rotl(s.a, 5) && b == Rotl(s.b, 30)
    requires f == Parity(s.b, s.c, s.d) && r == Add(Add(Add(Add(x, f), s.e), k), w)
    ensures Rounds(t + 1, v, block) == Working(r, s.a, b, s.c, s.d)
  {
    hide *;
    Functions(t, s.b, s.c, s.d);
    NextState(block, v, t, s, x, f, k, w, r, b);
  }

  lemma MajorityRound(block: seq<bv8>, v: Working, t: nat, s: Working, x: bv32, f: bv32, w: bv32, r: bv32, b: bv32)
    requires |block| == 64 && 40 <= t < 60 && Rounds(t, v, block) == s && W(block, t) == w
    requires x == Rotl(s.a, 5) && b == Rotl(s.b, 30)
    requires f == Maj(s.b, s.c, s.d) && r == Add(Add(Add(Add(x, f), s.e), 0x8f1bbcdc), w)
    ensures Rounds(t + 1, v, block) == Working(r, s.a, b, s.c, s.d)
  {
    hide *;
    Functions(t, s.b, s.c, s.d);
    NextState(block, v, t, s, x, f, 0x8f1bbcdc, w, r, b);
  }

  // ----- the block -----

  /** The bytes of "abc". */
  const ABC: seq<bv8> := [0x61, 0x62, 0x63]

  /** The padded message: its bytes, the 1 bit, zeros, and its length of 24 bits. */
  predicate AbcBlock(block: seq<bv8>) {
    && |block| == 64 && block[0] == 0x61 && block[1] == 0x62 && block[2] == 0x63 && block[3] == 0x80
    && (forall i | 4 <= i < 63 :: block[i] == 0) && block[63] == 24
  }

  lemma {:induction false} SmallNumber(n: nat, k: nat)
    requires n < 256 && k > 0
    ensures BigEndian(n, k)[k - 1] as int == n && forall i | 0 <= i < k - 1 :: BigEndian(n, k)[i] == 0
  {
    if k > 1 {
      SmallNumber(n / 256, k - 1);
      assert n / 256 == 0;
    }
    ByteOf256(n);
  }

  lemma ByteOf256(n: nat)
    requires n < 256
    ensures (n % 256) as bv8 as int == n
  {}

  lemma AbcPadded()
    ensures AbcBlock(Pad(ABC))
  {
    SmallNumber(24, 8);
    assert ZeroBytes(3) == 52;
    var length := BigEndian(24, 8);
    assert length[7] == 24;
    hide BigEndian, ZeroBytes;
    PaddedAbc(length);
  }

  lemma PaddedAbc(length: seq<bv8>)
    requires length == BigEndian(24, 8) && length[7] == 24 && forall i | 0 <= i < 7 :: length[i] == 0
    requires ZeroBytes(3) == 52
    ensures AbcBlock(Pad(ABC))
  {
    hide BigEndian, ZeroBytes;
    assert Pad(ABC) == ABC + [0x80] + Zeros(52) + length;
    var p := ABC + [0x80] + Zeros(52) + length;
    assert forall i | 56 <= i < 64 :: p[i] == length[i - 56];
  }

  /** A word from its bytes. */
  lemma BlockWord(block: seq<bv8>, t: nat, a: bv8, b: bv8, c: bv8, d: bv8, r: bv32)
    requires |block| == 64 && t < 16
    requires block[4 * t] == a && block[4 * t + 1] == b && block[4 * t + 2] == c && block[4 * t + 3] == d
    requires r == ((a as bv32) << 24) | ((b as bv32) << 16) | ((c as bv32) << 8) | (d as bv32)
    ensures W(block, t) == r
  {
    hide *;
    WordAt(block, t);
    JoinIs(a, b, c, d);
  }

  lemma JoinIs(a: bv8, b: bv8, c: bv8, d: bv8)
    ensures Join(a as bv32, b as bv32, c as bv32, d as bv32)
            == ((a as bv32) << 24) | ((b as bv32) << 16) | ((c as bv32) << 8) | (d as bv32)
  {}

  // ----- the schedule -----

  lemma Words0(block: seq<bv8>)
    requires AbcBlock(block)
    ensures W(block, 0) == 0x61626380 && W(block, 1) == 0x00000000 && W(block, 2) == 0x00000000
    ensures W(block, 3) == 0x00000000 && W(block, 4) == 0x00000000 && W(block, 5) == 0x00000000
    ensures W(block, 6) == 0x00000000 && W(block, 7) == 0x00000000 && W(block, 8) == 0x00000000
    ensures W(block, 9) == 0x00000000 && W(block, 10) == 0x00000000 && W(block, 11) == 0x00000000
    ensures W(block, 12) == 0x00000000 && W(block, 13) == 0x00000000 && W(block, 14) == 0x00000000
    ensures W(block, 15) == 0x00000018
  {
    BlockWord(block, 0, 0x61, 0x62, 0x63, 0x80, 0x61626380);
    forall t: nat | 1 <= t < 15 ensures W(block, t) == 0 {
      BlockWord(block, t, 0, 0, 0, 0, 0);
    }
    BlockWord(block, 15, 0, 0, 0, 24, 0x00000018);
    hide W;
  }

  lemma Words16(block: seq<bv8>)
    requires |block| == 64
    requires W(block, 0) == 0x61626380 && W(block, 1) == 0x00000000 && W(block, 2) == 0x00000000
    requires W(block, 3) == 0x00000000 && W(block, 4) == 0x00000000 && W(block, 5) == 0x00000000
    requires W(block, 6) == 0x00000000 && W(block, 7) == 0x00000000 && W(block, 8) == 0x00000000
    requires W(block, 9) == 0x00000000 && W(block, 10) == 0x00000000 && W(block, 11) == 0x00000000
    requires W(block, 12) == 0x00000000 && W(block, 13) == 0x00000000 && W(block, 14) == 0x00000000
    requires W(block, 15) == 0x00000018
    ensures W(block, 16) == 0xc2c4c700 && W(block, 17) == 0x00000000 && W(block, 18) == 0x00000030
    ensures W(block, 19) == 0x85898e01 && W(block, 20) == 0x00000000 && W(block, 21) == 0x00000060
    ensures W(block, 22) == 0x0b131c03 && W(block, 23) == 0x00000030 && W(block, 24) == 0x85898ec1
    ensures W(block, 25) == 0x16263806 && W(block, 26) == 0x00000000 && W(block, 27) == 0x00000180
    ensures W(block, 28) == 0x2c4c700c && W(block, 29) == 0x000000f0 && W(block, 30) == 0x93afb507
    ensures W(block, 31) == 0x5898e048
  {
    hide W;
    NextWord(block, 16, 0x00000000, 0x00000000, 0x00000000, 0x61626380, 0x61626380, 0xc2c4c700);
    NextWord(block, 17, 0x00000000, 0x00000000, 0x00000000, 0x00000000, 0x00000000, 0x00000000);
    NextWord(block, 18, 0x00000018, 0x00000000, 0x00000000, 0x00000000, 0x00000018, 0x00000030);
    NextWord(block, 19, 0xc2c4c700, 0x00000000, 0x00000000, 0x00000000, 0xc2c4c700, 0x85898e01);
    NextWord(block, 20, 0x00000000, 0x00000000, 0x00000000, 0x00000000, 0x00000000, 0x00000000);
    NextWord(block, 21, 0x00000030, 0x00000000, 0x00000000, 0x00000000, 0x00000030, 0x00000060);
    NextWord(block, 22, 0x85898e01, 0x00000000, 0x00000000, 0x00000000, 0x85898e01, 0x0b131c03);
    NextWord(block, 23, 0x00000000, 0x00000018, 0x00000000, 0x00000000, 0x00000018, 0x00000030);
    NextWord(block, 24, 0x00000060, 0xc2c4c700, 0x00000000, 0x00000000, 0xc2c4c760, 0x85898ec1);
    NextWord(block, 25, 0x0b131c03, 0x00000000, 0x00000000, 0x00000000, 0x0b131c03, 0x16263806);
    NextWord(block, 26, 0x00000030, 0x00000030, 0x00000000, 0x00000000, 0x00000000, 0x00000000);
    NextWord(block, 27, 0x85898ec1, 0x85898e01, 0x00000000, 0x00000000, 0x000000c0, 0x00000180);
    NextWord(block, 28, 0x16263806, 0x00000000, 0x00000000, 0x00000000, 0x16263806, 0x2c4c700c);
    NextWord(block, 29, 0x00000000, 0x00000060, 0x00000018, 0x00000000, 0x00000078, 0x000000f0);
    NextWord(block, 30, 0x00000180, 0x0b131c03, 0xc2c4c700, 0x00000000, 0xc9d7da83, 0x93afb507);
    NextWord(block, 31, 0x2c4c700c, 0x00000030, 0x00000000, 0x00000018, 0x2c4c7024, 0x5898e048);
  }

  lemma Words32(block: seq<bv8>)
    requires |block| == 64
    requires W(block, 16) == 0xc2c4c700 && W(block, 17) == 0x00000000 && W(block, 18) == 0x00000030
    requires W(block, 19) == 0x85898e01 && W(block, 20) == 0x00000000 && W(block, 21) == 0x00000060
    requires W(block, 22) == 0x0b131c03 && W(block, 23) == 0x00000030 && W(block, 24) == 0x85898ec1
    requires W(block, 25) == 0x16263806 && W(block, 26) == 0x00000000 && W(block, 27) == 0x00000180
    requires W(block, 28) == 0x2c4c700c && W(block, 29) == 0x000000f0 && W(block, 30) == 0x93afb507
    requires W(block, 31) == 0x5898e048
    ensures W(block, 32) == 0x8e9a9202 && W(block, 33) == 0x00000600 && W(block, 34) == 0xb131c0f0
    ensures W(block, 35) == 0x16263bc6 && W(block, 36) == 0x4ebed41e && W(block, 37) == 0x626380a1
    ensures W(block, 38) == 0x16263806 && W(block, 39) == 0x000018c0 && W(block, 40) == 0xd2e138c4
    ensures W(block, 41) == 0x00000f00 && W(block, 42) == 0x3afb5079 && W(block, 43) == 0x898e04e5
    ensures W(block, 44) == 0xe2ba3c2b && W(block, 45) == 0x000060c0 && W(block, 46) == 0x053a37cd
    ensures W(block, 47) == 0x74458547
  {
    hide W;
    NextWord(block, 32, 0x000000f0, 0x85898ec1, 0x00000030, 0xc2c4c700, 0x474d4901, 0x8e9a9202);
    NextWord(block, 33, 0x93afb507, 0x16263806, 0x85898e01, 0x00000000, 0x00000300, 0x00000600);
    NextWord(block, 34, 0x5898e048, 0x00000000, 0x00000000, 0x00000030, 0x5898e078, 0xb131c0f0);
    NextWord(block, 35, 0x8e9a9202, 0x00000180, 0x00000060, 0x85898e01, 0x0b131de3, 0x16263bc6);
    NextWord(block, 36, 0x00000600, 0x2c4c700c, 0x0b131c03, 0x00000000, 0x275f6a0f, 0x4ebed41e);
    NextWord(block, 37, 0xb131c0f0, 0x000000f0, 0x00000030, 0x00000060, 0xb131c050, 0x626380a1);
    NextWord(block, 38, 0x16263bc6, 0x93afb507, 0x85898ec1, 0x0b131c03, 0x0b131c03, 0x16263806);
    NextWord(block, 39, 0x4ebed41e, 0x5898e048, 0x16263806, 0x00000030, 0x00000c60, 0x000018c0);
    NextWord(block, 40, 0x626380a1, 0x8e9a9202, 0x00000000, 0x85898ec1, 0x69709c62, 0xd2e138c4);
    NextWord(block, 41, 0x16263806, 0x00000600, 0x00000180, 0x16263806, 0x00000780, 0x00000f00);
    NextWord(block, 42, 0x000018c0, 0xb131c0f0, 0x2c4c700c, 0x00000000, 0x9d7da83c, 0x3afb5079);
    NextWord(block, 43, 0xd2e138c4, 0x16263bc6, 0x000000f0, 0x00000180, 0xc4c70272, 0x898e04e5);
    NextWord(block, 44, 0x00000f00, 0x4ebed41e, 0x93afb507, 0x2c4c700c, 0xf15d1e15, 0xe2ba3c2b);
    NextWord(block, 45, 0x3afb5079, 0x626380a1, 0x5898e048, 0x000000f0, 0x00003060, 0x000060c0);
    NextWord(block, 46, 0x898e04e5, 0x16263806, 0x8e9a9202, 0x93afb507, 0x829d1be6, 0x053a37cd);
    NextWord(block, 47, 0xe2ba3c2b, 0x000018c0, 0x00000600, 0x5898e048, 0xba22c2a3, 0x74458547);
  }

  lemma Words48(block: seq<bv8>)
    requires |block| == 64
    requires W(block, 32) == 0x8e9a9202 && W(block, 33) == 0x00000600 && W(block, 34) == 0xb131c0f0
    requires W(block, 35) == 0x16263bc6 && W(block, 36) == 0x4ebed41e && W(block, 37) == 0x626380a1
    requires W(block, 38) == 0x16263806 && W(block, 39) == 0x000018c0 && W(block, 40) == 0xd2e138c4
    requires W(block, 41) == 0x00000f00 && W(block, 42) == 0x3afb5079 && W(block, 43) == 0x898e04e5
    requires W(block, 44) == 0xe2ba3c2b && W(block, 45) == 0x000060c0 && W(block, 46) == 0x053a37cd
    requires W(block, 47) == 0x74458547
    ensures W(block, 48) == 0xda9415ed && W(block, 49) == 0x26380a16 && W(block, 50) == 0x626383a1
    ensures W(block, 51) == 0x4ebf54de && W(block, 52) == 0x3835b44b && W(block, 53) == 0x0000f600
    ensures W(block, 54) == 0x1e84c7a3 && W(block, 55) == 0x98e04d98 && W(block, 56) == 0x651d16a0
    ensures W(block, 57) == 0x62658ca1 && W(block, 58) == 0x458544d6 && W(block, 59) == 0x44584cb7
    ensures W(block, 60) == 0x7ba06619 && W(block, 61) == 0x6380aea2 && W(block, 62) == 0x0ae55269
    ensures W(block, 63) == 0x627b49a1
  {
    hide W;
    NextWord(block, 48, 0x000060c0, 0xd2e138c4, 0xb131c0f0, 0x8e9a9202, 0xed4a0af6, 0xda9415ed);
    NextWord(block, 49, 0x053a37cd, 0x00000f00, 0x16263bc6, 0x00000600, 0x131c050b, 0x26380a16);
    NextWord(block, 50, 0x74458547, 0x3afb5079, 0x4ebed41e, 0xb131c0f0, 0xb131c1d0, 0x626383a1);
    NextWord(block, 51, 0xda9415ed, 0x898e04e5, 0x626380a1, 0x16263bc6, 0x275faa6f, 0x4ebf54de);
    NextWord(block, 52, 0x26380a16, 0xe2ba3c2b, 0x16263806, 0x4ebed41e, 0x9c1ada25, 0x3835b44b);
    NextWord(block, 53, 0x626383a1, 0x000060c0, 0x000018c0, 0x626380a1, 0x00007b00, 0x0000f600);
    NextWord(block, 54, 0x4ebf54de, 0x053a37cd, 0xd2e138c4, 0x16263806, 0x8f4263d1, 0x1e84c7a3);
    NextWord(block, 55, 0x3835b44b, 0x74458547, 0x00000f00, 0x000018c0, 0x4c7026cc, 0x98e04d98);
    NextWord(block, 56, 0x0000f600, 0xda9415ed, 0x3afb5079, 0xd2e138c4, 0x328e8b50, 0x651d16a0);
    NextWord(block, 57, 0x1e84c7a3, 0x26380a16, 0x898e04e5, 0x00000f00, 0xb132c650, 0x62658ca1);
    NextWord(block, 58, 0x98e04d98, 0x626383a1, 0xe2ba3c2b, 0x3afb5079, 0x22c2a26b, 0x458544d6);
    NextWord(block, 59, 0x651d16a0, 0x4ebf54de, 0x000060c0, 0x898e04e5, 0xa22c265b, 0x44584cb7);
    NextWord(block, 60, 0x62658ca1, 0x3835b44b, 0x053a37cd, 0xe2ba3c2b, 0xbdd0330c, 0x7ba06619);
    NextWord(block, 61, 0x458544d6, 0x0000f600, 0x74458547, 0x000060c0, 0x31c05751, 0x6380aea2);
    NextWord(block, 62, 0x44584cb7, 0x1e84c7a3, 0xda9415ed, 0x053a37cd, 0x8572a934, 0x0ae55269);
    NextWord(block, 63, 0x7ba06619, 0x98e04d98, 0x26380a16, 0x74458547, 0xb13da4d0, 0x627b49a1);
  }

  lemma Words64(block: seq<bv8>)
    requires |block| == 64
    requires W(block, 48) == 0xda9415ed && W(block, 49) == 0x26380a16 && W(block, 50) == 0x626383a1
    requires W(block, 51) == 0x4ebf54de && W(block, 52) == 0x3835b44b && W(block, 53) == 0x0000f600
    requires W(block, 54) == 0x1e84c7a3 && W(block, 55) == 0x98e04d98 && W(block, 56) == 0x651d16a0
    requires W(block, 57) == 0x62658ca1 && W(block, 58) == 0x458544d6 && W(block, 59) == 0x44584cb7
    requires W(block, 60) == 0x7ba06619 && W(block, 61) == 0x6380aea2 && W(block, 62) == 0x0ae55269
    requires W(block, 63) == 0x627b49a1
    ensures W(block, 64) == 0x7cd45c9d && W(block, 65) == 0x000f0000 && W(block, 66) == 0xfb50753a
    ensures W(block, 67) == 0xec6765e8 && W(block, 68) == 0xba3c2be2 && W(block, 69) == 0x0060c000
    ensures W(block, 70) == 0x3a37cd05 && W(block, 71) == 0x458546f4 && W(block, 72) == 0xb8599dd6
    ensures W(block, 73) == 0x380a1a26 && W(block, 74) == 0x01e02203 && W(block, 75) == 0xe7cc3456
    ensures W(block, 76) == 0xe6e60b69 && W(block, 77) == 0x00f60a00 && W(block, 78) == 0x5795ef4f
    ensures W(block, 79) == 0x822e0879
  {
    hide W;
    NextWord(block, 64, 0x6380aea2, 0x651d16a0, 0x626383a1, 0xda9415ed, 0xbe6a2e4e, 0x7cd45c9d);
    NextWord(block, 65, 0x0ae55269, 0x62658ca1, 0x4ebf54de, 0x26380a16, 0x00078000, 0x000f0000);
    NextWord(block, 66, 0x627b49a1, 0x458544d6, 0x3835b44b, 0x626383a1, 0x7da83a9d, 0xfb50753a);
    NextWord(block, 67, 0x7cd45c9d, 0x44584cb7, 0x0000f600, 0x4ebf54de, 0x7633b2f4, 0xec6765e8);
    NextWord(block, 68, 0x000f0000, 0x7ba06619, 0x1e84c7a3, 0x3835b44b, 0x5d1e15f1, 0xba3c2be2);
    NextWord(block, 69, 0xfb50753a, 0x6380aea2, 0x98e04d98, 0x0000f600, 0x00306000, 0x0060c000);
    NextWord(block, 70, 0xec6765e8, 0x0ae55269, 0x651d16a0, 0x1e84c7a3, 0x9d1be682, 0x3a37cd05);
    NextWord(block, 71, 0xba3c2be2, 0x627b49a1, 0x62658ca1, 0x98e04d98, 0x22c2a37a, 0x458546f4);
    NextWord(block, 72, 0x0060c000, 0x7cd45c9d, 0x458544d6, 0x651d16a0, 0x5c2cceeb, 0xb8599dd6);
    NextWord(block, 73, 0x3a37cd05, 0x000f0000, 0x44584cb7, 0x62658ca1, 0x1c050d13, 0x380a1a26);
    NextWord(block, 74, 0x458546f4, 0xfb50753a, 0x7ba06619, 0x458544d6, 0x80f01101, 0x01e02203);
    NextWord(block, 75, 0xb8599dd6, 0xec6765e8, 0x6380aea2, 0x44584cb7, 0x73e61a2b, 0xe7cc3456);
    NextWord(block, 76, 0x380a1a26, 0xba3c2be2, 0x0ae55269, 0x7ba06619, 0xf37305b4, 0xe6e60b69);
    NextWord(block, 77, 0x01e02203, 0x0060c000, 0x627b49a1, 0x6380aea2, 0x007b0500, 0x00f60a00);
    NextWord(block, 78, 0xe7cc3456, 0x3a37cd05, 0x7cd45c9d, 0x0ae55269, 0xabcaf7a7, 0x5795ef4f);
    NextWord(block, 79, 0xe6e60b69, 0x458546f4, 0x000f0000, 0x627b49a1, 0xc117043c, 0x822e0879);
  }

  // ----- the rounds -----

  /** The working variables at the start. */
  const START: Working := Working(0x67452301, 0xefcdab89, 0x98badcfe, 0x10325476, 0xc3d2e1f0)

  lemma Rounds0(block: seq<bv8>)
    requires |block| == 64
    requires W(block, 0) == 0x61626380 && W(block, 1) == 0x00000000 && W(block, 2) == 0x00000000
    requires W(block, 3) == 0x00000000 && W(block, 4) == 0x00000000 && W(block, 5) == 0x00000000
    requires W(block, 6) == 0x00000000 && W(block, 7) == 0x00000000 && W(block, 8) == 0x00000000
    requires W(block, 9) == 0x00000000
    ensures Rounds(10, START, block)
            == Working(0x8351f929, 0x4b6ae328, 0x27a301f5, 0x664f8c30, 0x0ff1f290)
  {
    NoRounds(START, block);
    hide W, Rounds, F, K;
    ChooseRound(block, START, 0, Working(0x67452301, 0xefcdab89, 0x98badcfe, 0x10325476, 0xc3d2e1f0),
                0xe8a4602c, 0x98badcfe, 0x61626380, 0x0116fc33, 0x7bf36ae2);
    ChooseRound(block, START, 1, Working(0x0116fc33, 0x67452301, 0x7bf36ae2, 0x98badcfe, 0x10325476),
                0x22df8660, 0xfbfbfefe, 0x00000000, 0x8990536d, 0x59d148c0);
    ChooseRound(block, START, 2, Working(0x8990536d, 0x0116fc33, 0x59d148c0, 0x7bf36ae2, 0x98badcfe),
                0x320a6db1, 0x7bf14ac0, 0x00000000, 0xa1390f08, 0xc045bf0c);
    ChooseRound(block, START, 3, Working(0xa1390f08, 0x8990536d, 0xc045bf0c, 0x59d148c0, 0x7bf36ae2),
                0x2721e114, 0xd0411b8c, 0x00000000, 0xcdd8e11b, 0x626414db);
    ChooseRound(block, START, 4, Working(0xcdd8e11b, 0xa1390f08, 0x626414db, 0xc045bf0c, 0x59d148c0),
                0xbb1c2379, 0x6064b40c, 0x00000000, 0xcfd499de, 0x284e43c2);
    ChooseRound(block, START, 5, Working(0xcfd499de, 0xcdd8e11b, 0x284e43c2, 0x626414db, 0xc045bf0c),
                0xfa933bd9, 0x2a6c55c2, 0x00000000, 0x3fc7ca40, 0xf3763846);
    ChooseRound(block, START, 6, Working(0x3fc7ca40, 0xcfd499de, 0xf3763846, 0x284e43c2, 0x626414db),
                0xf8f94807, 0xe35e5a46, 0x00000000, 0x993e30c1, 0xb3f52677);
    ChooseRound(block, START, 7, Working(0x993e30c1, 0x3fc7ca40, 0xb3f52677, 0xf3763846, 0x284e43c2),
                0x27c61833, 0xf3f53246, 0x00000000, 0x9e8c07d4, 0x0ff1f290);
    ChooseRound(block, START, 8, Working(0x9e8c07d4, 0x993e30c1, 0x0ff1f290, 0xb3f52677, 0xf3763846),
                0xd180fa93, 0x2bf136b6, 0x00000000, 0x4b6ae328, 0x664f8c30);
    ChooseRound(block, START, 9, Working(0x4b6ae328, 0x9e8c07d4, 0x664f8c30, 0x0ff1f290, 0xb3f52677),
                0x6d5c6509, 0x077df410, 0x00000000, 0x8351f929, 0x27a301f5);
  }

  lemma Rounds10(block: seq<bv8>)
    requires |block| == 64 && Rounds(10, START, block)
             == Working(0x8351f929, 0x4b6ae328, 0x27a301f5, 0x664f8c30, 0x0ff1f290)
    requires W(block, 10) == 0x00000000 && W(block, 11) == 0x00000000 && W(block, 12) == 0x00000000
    requires W(block, 13) == 0x00000000 && W(block, 14) == 0x00000000 && W(block, 15) == 0x00000018
    requires W(block, 16) == 0xc2c4c700 && W(block, 17) == 0x00000000 && W(block, 18) == 0x00000030
    requires W(block, 19) == 0x85898e01
    ensures Rounds(20, START, block)
            == Working(0xfd9e1d7d, 0xdc64901d, 0x20aa99ca, 0xd3a49608, 0xc82f758b)
  {
    hide W, Rounds, F, K;
    ChooseRound(block, START, 10, Working(0x8351f929, 0x4b6ae328, 0x27a301f5, 0x664f8c30, 0x0ff1f290),
                0x6a3f2530, 0x27270d30, 0x00000000, 0xfbda9e89, 0x12dab8ca);
    ChooseRound(block, START, 11, Working(0xfbda9e89, 0x8351f929, 0x12dab8ca, 0x27a301f5, 0x664f8c30),
                0x7b53d13f, 0x26f2b8dc, 0x00000000, 0x63188fe4, 0x60d47e4a);
    ChooseRound(block, START, 12, Working(0x63188fe4, 0xfbda9e89, 0x60d47e4a, 0x12dab8ca, 0x27a301f5),
                0x6311fc8c, 0x60d03e4a, 0x00000000, 0x4607b664, 0x7ef6a7a2);
    ChooseRound(block, START, 13, Working(0x4607b664, 0x63188fe4, 0x7ef6a7a2, 0x60d47e4a, 0x12dab8ca),
                0xc0f6cc88, 0x62d4f7aa, 0x00000000, 0x9128f695, 0x18c623f9);
    ChooseRound(block, START, 14, Working(0x9128f695, 0x4607b664, 0x18c623f9, 0x7ef6a7a2, 0x60d47e4a),
                0x251ed2b2, 0x38f623e2, 0x00000000, 0x196bee77, 0x1181ed99);
    ChooseRound(block, START, 15, Working(0x196bee77, 0x9128f695, 0x1181ed99, 0x18c623f9, 0x7ef6a7a2),
                0x2d7dcee3, 0x19c6e5f9, 0x00000018, 0x20bdd62f, 0x644a3da5);
    ChooseRound(block, START, 16, Working(0x20bdd62f, 0x196bee77, 0x644a3da5, 0x1181ed99, 0x18c623f9),
                0x17bac5e4, 0x00ca2dad, 0xc2c4c700, 0x4e925823, 0xc65afb9d);
    ChooseRound(block, START, 17, Working(0x4e925823, 0x20bdd62f, 0xc65afb9d, 0x644a3da5, 0x1181ed99),
                0xd24b0469, 0x445afb8d, 0x00000000, 0x82aa6728, 0xc82f758b);
    ChooseRound(block, START, 18, Working(0x82aa6728, 0x4e925823, 0xc82f758b, 0xc65afb9d, 0x644a3da5),
                0x554ce510, 0xc84af39f, 0x00000030, 0xdc64901d, 0xd3a49608);
    ChooseRound(block, START, 19, Working(0xdc64901d, 0x82aa6728, 0xd3a49608, 0xc82f758b, 0xc65afb9d),
                0x8c9203bb, 0xcaa5168b, 0x85898e01, 0xfd9e1d7d, 0x20aa99ca);
  }

  lemma Rounds20(block: seq<bv8>)
    requires |block| == 64 && Rounds(20, START, block)
             == Working(0xfd9e1d7d, 0xdc64901d, 0x20aa99ca, 0xd3a49608, 0xc82f758b)
    requires W(block, 20) == 0x00000000 && W(block, 21) == 0x00000060 && W(block, 22) == 0x0b131c03
    requires W(block, 23) == 0x00000030 && W(block, 24) == 0x85898ec1 && W(block, 25) == 0x16263806
    requires W(block, 26) == 0x00000000 && W(block, 27) == 0x00000180 && W(block, 28) == 0x2c4c700c
    requires W(block, 29) == 0x000000f0
    ensures Rounds(30, START, block)
            == Working(0xc5fbaf5d, 0x8370b52e, 0xd2aa1365, 0x6f8d7ef5, 0x12104ee9)
  {
    hide W, Rounds, F, K;
    ParityRound(block, START, 20, Working(0xfd9e1d7d, 0xdc64901d, 0x20aa99ca, 0xd3a49608, 0xc82f758b),
                0xb3c3afbf, 0x2f6a9fdf, 0x6ed9eba1, 0x00000000, 0x1a37b0ca, 0x77192407);
    ParityRound(block, START, 21, Working(0x1a37b0ca, 0xfd9e1d7d, 0x77192407, 0x20aa99ca, 0xd3a49608),
                0x46f61943, 0xaa2da0b0, 0x6ed9eba1, 0x00000060, 0x33a23bfc, 0x7f67875f);
    ParityRound(block, START, 22, Working(0x33a23bfc, 0x1a37b0ca, 0x7f67875f, 0x77192407, 0x20aa99ca),
                0x74477f86, 0x12491392, 0x6ed9eba1, 0x0b131c03, 0x21283486, 0x868dec32);
    ParityRound(block, START, 23, Working(0x21283486, 0x33a23bfc, 0x868dec32, 0x7f67875f, 0x77192407),
                0x250690c4, 0xca485091, 0x6ed9eba1, 0x00000030, 0xd541f12d, 0x0ce88eff);
    ParityRound(block, START, 24, Working(0xd541f12d, 0x21283486, 0x0ce88eff, 0x868dec32, 0x7f67875f),
                0xa83e25ba, 0xab4d564b, 0x6ed9eba1, 0x85898ec1, 0xc7567dc6, 0x884a0d21);
    ParityRound(block, START, 25, Working(0xc7567dc6, 0xd541f12d, 0x884a0d21, 0x0ce88eff, 0x868dec32),
                0xeacfb8d8, 0x51e372f3, 0x6ed9eba1, 0x16263806, 0x48413ba4, 0x75507c4b);
    ParityRound(block, START, 26, Working(0x48413ba4, 0xc7567dc6, 0x75507c4b, 0x884a0d21, 0x0ce88eff),
                0x08277489, 0x3a4c0cac, 0x6ed9eba1, 0x00000000, 0xbe35fbd5, 0xb1d59f71);
    ParityRound(block, START, 27, Working(0xbe35fbd5, 0x48413ba4, 0xb1d59f71, 0x75507c4b, 0x884a0d21),
                0xc6bf7ab7, 0x8cc4d89e, 0x6ed9eba1, 0x00000180, 0x4aa84d97, 0x12104ee9);
    ParityRound(block, START, 28, Working(0x4aa84d97, 0xbe35fbd5, 0x12104ee9, 0xb1d59f71, 0x75507c4b),
                0x5509b2e9, 0x1df02a4d, 0x6ed9eba1, 0x2c4c700c, 0x8370b52e, 0x6f8d7ef5);
    ParityRound(block, START, 29, Working(0x8370b52e, 0x4aa84d97, 0x6f8d7ef5, 0x12104ee9, 0xb1d59f71),
                0x6e16a5d0, 0x37357d8b, 0x6ed9eba1, 0x000000f0, 0xc5fbaf5d, 0xd2aa1365);
  }

  lemma Rounds30(block: seq<bv8>)
    requires |block| == 64 && Rounds(30, START, block)
             == Working(0xc5fbaf5d, 0x8370b52e, 0xd2aa1365, 0x6f8d7ef5, 0x12104ee9)
    requires W(block, 30) == 0x93afb507 && W(block, 31) == 0x5898e048 && W(block, 32) == 0x8e9a9202
    requires W(block, 33) == 0x00000600 && W(block, 34) == 0xb131c0f0 && W(block, 35) == 0x16263bc6
    requires W(block, 36) == 0x4ebed41e && W(block, 37) == 0x626380a1 && W(block, 38) == 0x16263806
    requires W(block, 39) == 0x000018c0
    ensures Rounds(40, START, block)
            == Working(0x32de1cba, 0x4c986405, 0xf718e5cf, 0x03d447f6, 0xf72eec32)
  {
    hide W, Rounds, F, K;
    ParityRound(block, START, 30, Working(0xc5fbaf5d, 0x8370b52e, 0xd2aa1365, 0x6f8d7ef5, 0x12104ee9),
                0xbf75ebb8, 0x3e57d8be, 0x6ed9eba1, 0x93afb507, 0x1267b407, 0xa0dc2d4b);
    ParityRound(block, START, 31, Working(0x1267b407, 0xc5fbaf5d, 0xa0dc2d4b, 0xd2aa1365, 0x6f8d7ef5),
                0x4cf680e2, 0xb78d9173, 0x6ed9eba1, 0x5898e048, 0x3b845d33, 0x717eebd7);
    ParityRound(block, START, 32, Working(0x3b845d33, 0x1267b407, 0x717eebd7, 0xa0dc2d4b, 0xd2aa1365),
                0x708ba667, 0xc3c5729b, 0x6ed9eba1, 0x8e9a9202, 0x046faa0a, 0xc499ed01);
    ParityRound(block, START, 33, Working(0x046faa0a, 0x3b845d33, 0xc499ed01, 0x717eebd7, 0xa0dc2d4b),
                0x8df54140, 0x8e635be5, 0x6ed9eba1, 0x00000600, 0x2c0ebc11, 0xcee1174c);
    ParityRound(block, START, 34, Working(0x2c0ebc11, 0x046faa0a, 0xcee1174c, 0xc499ed01, 0x717eebd7),
                0x81d78225, 0x0e175047, 0x6ed9eba1, 0xb131c0f0, 0x21796ad4, 0x811bea82);
    ParityRound(block, START, 35, Working(0x21796ad4, 0x2c0ebc11, 0x811bea82, 0xcee1174c, 0xc499ed01),
                0x2f2d5a84, 0x63f441df, 0x6ed9eba1, 0x16263bc6, 0xdcbbb0cb, 0x4b03af04);
    ParityRound(block, START, 36, Working(0xdcbbb0cb, 0x21796ad4, 0x4b03af04, 0x811bea82, 0xcee1174c),
                0x9776197b, 0xeb612f52, 0x6ed9eba1, 0x4ebed41e, 0x0f511fd8, 0x085e5ab5);
    ParityRound(block, START, 37, Working(0x0f511fd8, 0xdcbbb0cb, 0x085e5ab5, 0x4b03af04, 0x811bea82),
                0xea23fb01, 0x9fe6457a, 0x6ed9eba1, 0x626380a1, 0xdc63973f, 0xf72eec32);
    ParityRound(block, START, 38, Working(0xdc63973f, 0x0f511fd8, 0xf72eec32, 0x085e5ab5, 0x4b03af04),
                0x8c72e7fb, 0xf021a95f, 0x6ed9eba1, 0x16263806, 0x4c986405, 0x03d447f6);
    ParityRound(block, START, 39, Working(0x4c986405, 0xdc63973f, 0x03d447f6, 0xf72eec32, 0x085e5ab5),
                0x930c80a9, 0x28993cfb, 0x6ed9eba1, 0x000018c0, 0x32de1cba, 0xf718e5cf);
  }

  lemma Rounds40(block: seq<bv8>)
    requires |block| == 64 && Rounds(40, START, block)
             == Working(0x32de1cba, 0x4c986405, 0xf718e5cf, 0x03d447f6, 0xf72eec32)
    requires W(block, 40) == 0xd2e138c4 && W(block, 41) == 0x00000f00 && W(block, 42) == 0x3afb5079
    requires W(block, 43) == 0x898e04e5 && W(block, 44) == 0xe2ba3c2b && W(block, 45) == 0x000060c0
    requires W(block, 46) == 0x053a37cd && W(block, 47) == 0x74458547 && W(block, 48) == 0xda9415ed
    requires W(block, 49) == 0x26380a16
    ensures Rounds(50, START, block)
            == Working(0x120731c5, 0xbaf39337, 0xafab40b2, 0x2806e11b, 0x8714787c)
  {
    hide W, Rounds, F, K;
    MajorityRound(block, START, 40, Working(0x32de1cba, 0x4c986405, 0xf718e5cf, 0x03d447f6, 0xf72eec32),
                0x5bc39746, 0x479865c7, 0xd2e138c4, 0xfc87dedf, 0x53261901);
    MajorityRound(block, START, 41, Working(0xfc87dedf, 0x32de1cba, 0x53261901, 0xf718e5cf, 0x03d447f6),
                0x90fbdbff, 0x731e1d8b, 0x00000f00, 0x970a0d5c, 0x8cb7872e);
    MajorityRound(block, START, 42, Working(0x970a0d5c, 0xfc87dedf, 0x8cb7872e, 0x53261901, 0xf718e5cf),
                0xe141ab92, 0xdca79f0f, 0x3afb5079, 0x7f193dc5, 0xff21f7b7);
    MajorityRound(block, START, 43, Working(0x7f193dc5, 0x970a0d5c, 0xff21f7b7, 0x8cb7872e, 0x53261901),
                0xe327b8af, 0x9f23873e, 0x898e04e5, 0xee1b1aaf, 0x25c28357);
    MajorityRound(block, START, 44, Working(0xee1b1aaf, 0x7f193dc5, 0x25c28357, 0xff21f7b7, 0x8cb7872e),
                0xc36355fd, 0x7f01b7d7, 0xe2ba3c2b, 0x40f28e09, 0x5fc64f71);
    MajorityRound(block, START, 45, Working(0x40f28e09, 0xee1b1aaf, 0x5fc64f71, 0x25c28357, 0xff21f7b7),
                0x1e51c128, 0x6fc20b77, 0x000060c0, 0x1c51e1f2, 0xfb86c6ab);
    MajorityRound(block, START, 46, Working(0x1c51e1f2, 0x40f28e09, 0xfb86c6ab, 0x5fc64f71, 0x25c28357),
                0x8a3c3e43, 0x5bc6ce29, 0x053a37cd, 0xa01b846c, 0x503ca382);
    MajorityRound(block, START, 47, Working(0xa01b846c, 0x1c51e1f2, 0x503ca382, 0xfb86c6ab, 0x5fc64f71),
                0x03708d94, 0x5814e3a2, 0x74458547, 0xbead02ca, 0x8714787c);
    MajorityRound(block, START, 48, Working(0xbead02ca, 0xa01b846c, 0x8714787c, 0x503ca382, 0xfb86c6ab),
                0xd5a05957, 0x801ca06c, 0xda9415ed, 0xbaf39337, 0x2806e11b);
    MajorityRound(block, START, 49, Working(0xbaf39337, 0xbead02ca, 0x2806e11b, 0x8714787c, 0x503ca382),
                0x5e7266f7, 0xae04605a, 0x26380a16, 0x120731c5, 0xafab40b2);
  }

  lemma Rounds50(block: seq<bv8>)
    requires |block| == 64 && Rounds(50, START, block)
             == Working(0x120731c5, 0xbaf39337, 0xafab40b2, 0x2806e11b, 0x8714787c)
    requires W(block, 50) == 0x626383a1 && W(block, 51) == 0x4ebf54de && W(block, 52) == 0x3835b44b
    requires W(block, 53) == 0x0000f600 && W(block, 54) == 0x1e84c7a3 && W(block, 55) == 0x98e04d98
    requires W(block, 56) == 0x651d16a0 && W(block, 57) == 0x62658ca1 && W(block, 58) == 0x458544d6
    requires W(block, 59) == 0x44584cb7
    ensures Rounds(60, START, block)
            == Working(0x3f52de5a, 0x09d785fd, 0x3498bfd4, 0xf211824f, 0xd79915ab)
  {
    hide W, Rounds, F, K;
    MajorityRound(block, START, 50, Working(0x120731c5, 0xbaf39337, 0xafab40b2, 0x2806e11b, 0x8714787c),
                0x40e638a2, 0xaaa3c133, 0x626383a1, 0x641db2ce, 0xeebce4cd);
    MajorityRound(block, START, 51, Working(0x641db2ce, 0x120731c5, 0xeebce4cd, 0xafab40b2, 0x2806e11b),
                0x83b659cc, 0xaeaf60c5, 0x4ebf54de, 0x3847ad66, 0x4481cc71);
    MajorityRound(block, START, 52, Working(0x3847ad66, 0x641db2ce, 0x4481cc71, 0xeebce4cd, 0xafab40b2),
                0x08f5acc7, 0x649de4cd, 0x3835b44b, 0xe490436d, 0x99076cb3);
    MajorityRound(block, START, 53, Working(0xe490436d, 0x3847ad66, 0x99076cb3, 0x4481cc71, 0xeebce4cd),
                0x92086dbc, 0x1807ec73, 0x0000f600, 0x27e9f1d8, 0x8e11eb59);
    MajorityRound(block, START, 54, Working(0x27e9f1d8, 0xe490436d, 0x8e11eb59, 0x99076cb3, 0x4481cc71),
                0xfd3e3b04, 0x8c116b79, 0x1e84c7a3, 0x7b71f76d, 0x792410db);
    MajorityRound(block, START, 55, Working(0x7b71f76d, 0x27e9f1d8, 0x792410db, 0x8e11eb59, 0x99076cb3),
                0x6e3eedaf, 0x2f21f1d9, 0x98e04d98, 0x5e6456af, 0x09fa7c76);
    MajorityRound(block, START, 56, Working(0x5e6456af, 0x7b71f76d, 0x09fa7c76, 0x792410db, 0x8e11eb59),
                0xcc8ad5eb, 0x7970747f, 0x651d16a0, 0xc846093f, 0x5edc7ddb);
    MajorityRound(block, START, 57, Working(0xc846093f, 0x5e6456af, 0x5edc7ddb, 0x09fa7c76, 0x792410db),
                0x08c127f9, 0x5efc7cff, 0x62658ca1, 0xd262ff50, 0xd79915ab);
    MajorityRound(block, START, 58, Working(0xd262ff50, 0xc846093f, 0xd79915ab, 0x5edc7ddb, 0x09fa7c76),
                0x4c5fea1a, 0xdedc1dbb, 0x458544d6, 0x09d785fd, 0xf211824f);
    MajorityRound(block, START, 59, Working(0x09d785fd, 0xd262ff50, 0xf211824f, 0xd79915ab, 0x5edc7ddb),
                0x3af0bfa1, 0xd211974b, 0x44584cb7, 0x3f52de5a, 0x3498bfd4);
  }

  lemma Rounds60(block: seq<bv8>)
    requires |block| == 64 && Rounds(60, START, block)
             == Working(0x3f52de5a, 0x09d785fd, 0x3498bfd4, 0xf211824f, 0xd79915ab)
    requires W(block, 60) == 0x7ba06619 && W(block, 61) == 0x6380aea2 && W(block, 62) == 0x0ae55269
    requires W(block, 63) == 0x627b49a1 && W(block, 64) == 0x7cd45c9d && W(block, 65) == 0x000f0000
    requires W(block, 66) == 0xfb50753a && W(block, 67) == 0xec6765e8 && W(block, 68) == 0xba3c2be2
    requires W(block, 69) == 0x0060c000
    ensures Rounds(70, START, block)
            == Working(0x3f2588c2, 0x497093c0, 0xde37534a, 0x030f7cad, 0x4405957e)
  {
    hide W, Rounds, F, K;
    ParityRound(block, START, 60, Working(0x3f52de5a, 0x09d785fd, 0x3498bfd4, 0xf211824f, 0xd79915ab),
                0xea5bcb47, 0xcf5eb866, 0xca62c1d6, 0x7ba06619, 0xd756c147, 0x4275e17f);
    ParityRound(block, START, 61, Working(0xd756c147, 0x3f52de5a, 0x4275e17f, 0x3498bfd4, 0xf211824f),
                0xead828fa, 0x49bf80f1, 0xca62c1d6, 0x6380aea2, 0x548c9cb2, 0x8fd4b796);
    ParityRound(block, START, 62, Working(0x548c9cb2, 0xd756c147, 0x8fd4b796, 0x4275e17f, 0x3498bfd4),
                0x9193964a, 0x1af797ae, 0xca62c1d6, 0x0ae55269, 0xb66c020b, 0xf5d5b051);
    ParityRound(block, START, 63, Working(0xb66c020b, 0x548c9cb2, 0xf5d5b051, 0x8fd4b796, 0x4275e17f),
                0xcd804176, 0x2e8d9b75, 0xca62c1d6, 0x627b49a1, 0x6b61c9e1, 0x9523272c);
    ParityRound(block, START, 64, Working(0x6b61c9e1, 0xb66c020b, 0x9523272c, 0xf5d5b051, 0x8fd4b796),
                0x6c393c2d, 0xd69a9576, 0xca62c1d6, 0x7cd45c9d, 0x19dfa7ac, 0xed9b0082);
    ParityRound(block, START, 65, Working(0x19dfa7ac, 0x6b61c9e1, 0xed9b0082, 0x9523272c, 0xf5d5b051),
                0x3bf4f583, 0x13d9ee4f, 0xca62c1d6, 0x000f0000, 0x101655f9, 0x5ad87278);
    ParityRound(block, START, 66, Working(0x101655f9, 0x19dfa7ac, 0x5ad87278, 0xed9b0082, 0x9523272c),
                0x02cabf22, 0xae9cd556, 0xca62c1d6, 0xfb50753a, 0x0c3df2b4, 0x0677e9eb);
    ParityRound(block, START, 67, Working(0x0c3df2b4, 0x101655f9, 0x0677e9eb, 0x5ad87278, 0xed9b0082),
                0x87be5681, 0x4cb9ce6a, 0xca62c1d6, 0xec6765e8, 0x78dd4d2b, 0x4405957e);
    ParityRound(block, START, 68, Working(0x78dd4d2b, 0x0c3df2b4, 0x4405957e, 0x0677e9eb, 0x5ad87278),
                0x1ba9a56f, 0x4e4f8e21, 0xca62c1d6, 0xba3c2be2, 0x497093c0, 0x030f7cad);
    ParityRound(block, START, 69, Working(0x497093c0, 0x78dd4d2b, 0x030f7cad, 0x4405957e, 0x0677e9eb),
                0x2e127809, 0x3fd7a4f8, 0xca62c1d6, 0x0060c000, 0x3f2588c2, 0xde37534a);
  }

  lemma Rounds70(block: seq<bv8>)
    requires |block| == 64 && Rounds(70, START, block)
             == Working(0x3f2588c2, 0x497093c0, 0xde37534a, 0x030f7cad, 0x4405957e)
    requires W(block, 70) == 0x3a37cd05 && W(block, 71) == 0x458546f4 && W(block, 72) == 0xb8599dd6
    requires W(block, 73) == 0x380a1a26 && W(block, 74) == 0x01e02203 && W(block, 75) == 0xe7cc3456
    requires W(block, 76) == 0xe6e60b69 && W(block, 77) == 0x00f60a00 && W(block, 78) == 0x5795ef4f
    requires W(block, 79) == 0x822e0879
    ensures Rounds(80, START, block)
            == Working(0x42541b35, 0x5738d5e1, 0x21834873, 0x681e6df6, 0xd8fdf6ad)
  {
    hide W, Rounds, F, K;
    ParityRound(block, START, 70, Working(0x3f2588c2, 0x497093c0, 0xde37534a, 0x030f7cad, 0x4405957e),
                0xe4b11847, 0x9448bc27, 0xca62c1d6, 0x3a37cd05, 0xc199f8c7, 0x125c24f0);
    ParityRound(block, START, 71, Working(0xc199f8c7, 0x3f2588c2, 0x125c24f0, 0xde37534a, 0x030f7cad),
                0x333f18f8, 0xf34eff78, 0xca62c1d6, 0x458546f4, 0x39859de7, 0x8fc96230);
    ParityRound(block, START, 72, Working(0x39859de7, 0xc199f8c7, 0x8fc96230, 0x125c24f0, 0xde37534a),
                0x30b3bce7, 0x5c0cbe07, 0xca62c1d6, 0xb8599dd6, 0xedb42de4, 0xf0667e31);
    ParityRound(block, START, 73, Working(0xedb42de4, 0x39859de7, 0xf0667e31, 0x8fc96230, 0x125c24f0),
                0xb685bc9d, 0x462a81e6, 0xca62c1d6, 0x380a1a26, 0x11793f6f, 0xce616779);
    ParityRound(block, START, 74, Working(0x11793f6f, 0xedb42de4, 0xce616779, 0xf0667e31, 0x8fc96230),
                0x2f27ede2, 0xd3b334ac, 0xca62c1d6, 0x01e02203, 0x5ee76897, 0x3b6d0b79);
    ParityRound(block, START, 75, Working(0x5ee76897, 0x11793f6f, 0x3b6d0b79, 0xce616779, 0xf0667e31),
                0xdced12eb, 0xe475536f, 0xca62c1d6, 0xe7cc3456, 0x63f7dab7, 0xc45e4fdb);
    ParityRound(block, START, 76, Working(0x63f7dab7, 0x5ee76897, 0xc45e4fdb, 0x3b6d0b79, 0xce616779),
                0x7efb56ec, 0xa1d42c35, 0xca62c1d6, 0xe6e60b69, 0xa079b7d9, 0xd7b9da25);
    ParityRound(block, START, 77, Working(0xa079b7d9, 0x63f7dab7, 0xd7b9da25, 0xc45e4fdb, 0x3b6d0b79),
                0x0f36fb34, 0x70104f49, 0xca62c1d6, 0x00f60a00, 0x860d21cc, 0xd8fdf6ad);
    ParityRound(block, START, 78, Working(0x860d21cc, 0xa079b7d9, 0xd8fdf6ad, 0xd7b9da25, 0xc45e4fdb),
                0xc1a43990, 0xaf3d9b51, 0xca62c1d6, 0x5795ef4f, 0x5738d5e1, 0x681e6df6);
    ParityRound(block, START, 79, Working(0x5738d5e1, 0x860d21cc, 0x681e6df6, 0xd8fdf6ad, 0xd7b9da25),
                0xe71abc2a, 0x36eeba97, 0xca62c1d6, 0x822e0879, 0x42541b35, 0x21834873);
  }

  // ----- the hash -----

  lemma AbcWords(block: seq<bv8>)
    requires AbcBlock(block)
    ensures Rounds(80, START, block)
            == Working(0x42541b35, 0x5738d5e1, 0x21834873, 0x681e6df6, 0xd8fdf6ad)
  {
    Words0(block);
    hide W, Rounds, AbcBlock;
    Words16(block);
    Words32(block);
    Words48(block);
    Words64(block);
    Rounds0(block);
    Rounds10(block);
    Rounds20(block);
    Rounds30(block);
    Rounds40(block);
    Rounds50(block);
    Rounds60(block);
    Rounds70(block);
  }

  /** The known answer: a9993e36 4706816a ba3e2571 7850c26c 9cd0d89d is the hash of "abc". */
  lemma AbcHash()
    ensures Hash([0x61, 0x62, 0x63]) == [0xa9993e36, 0x4706816a, 0xba3e2571, 0x7850c26c, 0x9cd0d89d]
  {
    AbcPadded();
    var block := Pad(ABC);
    AbcWords(block);
    OneBlock(block);
    assert Hash(ABC) == CompressAll(block);
    hide *;
    Compressed(INITIAL, block, Working(0x42541b35, 0x5738d5e1, 0x21834873, 0x681e6df6, 0xd8fdf6ad));
    Sums();
  }

  /** And so are these twenty bytes what a digest of it holds. */
  lemma AbcDigest(d: seq<bv8>)
    requires |d| == 20 && DigestWords(d) == Hash([0x61, 0x62, 0x63])
    ensures d == [0xa9, 0x99, 0x3e, 0x36, 0x47, 0x06, 0x81, 0x6a, 0xba, 0x3e, 0x25, 0x71, 0x78, 0x50, 0xc2, 0x6c,
                  0x9c, 0xd0, 0xd8, 0x9d]
  {
    AbcHash();
    hide Hash, Word;
    assert DigestWords(d)[0] == Word(d[0..4]) && DigestWords(d)[1] == Word(d[4..8]);
    assert DigestWords(d)[2] == Word(d[8..12]) && DigestWords(d)[3] == Word(d[12..16]);
    assert DigestWords(d)[4] == Word(d[16..20]);
    hide DigestWords;
    BytesOf(d[0..4], 0xa9993e36, 0xa9, 0x99, 0x3e, 0x36);
    BytesOf(d[4..8], 0x4706816a, 0x47, 0x06, 0x81, 0x6a);
    BytesOf(d[8..12], 0xba3e2571, 0xba, 0x3e, 0x25, 0x71);
    BytesOf(d[12..16], 0x7850c26c, 0x78, 0x50, 0xc2, 0x6c);
    BytesOf(d[16..20], 0x9cd0d89d, 0x9c, 0xd0, 0xd8, 0x9d);
    assert d == d[0..4] + d[4..8] + d[8..12] + d[12..16] + d[16..20];
  }

  lemma BytesOf(b: seq<bv8>, w: bv32, x: bv8, y: bv8, z: bv8, u: bv8)
    requires |b| == 4 && Word(b) == w && w == Join(x as bv32, y as bv32, z as bv32, u as bv32)
    ensures b == [x, y, z, u]
  {
    hide Join;
    SameBytes(b[0], b[1], b[2], b[3], x, y, z, u);
  }

  lemma SameBytes(a: bv8, b: bv8, c: bv8, d: bv8, x: bv8, y: bv8, z: bv8, u: bv8)
    requires Join(a as bv32, b as bv32, c as bv32, d as bv32) == Join(x as bv32, y as bv32, z as bv32, u as bv32)
    ensures a == x && b == y && c == z && d == u
  {}

  lemma OneBlock(block: seq<bv8>)
    requires |block| == 64
    ensures CompressAll(block) == Compress(INITIAL, block) && |INITIAL| == 5
    ensures Working(INITIAL[0], INITIAL[1], INITIAL[2], INITIAL[3], INITIAL[4]) == START
  {
    assert block[..0] == [] && block[0..] == block;
    hide Compress;
  }

  lemma Sums()
    ensures Add(INITIAL[0], 0x42541b35) == 0xa9993e36 && Add(INITIAL[1], 0x5738d5e1) == 0x4706816a
    ensures Add(INITIAL[2], 0x21834873) == 0xba3e2571 && Add(INITIAL[3], 0x681e6df6) == 0x7850c26c
    ensures Add(INITIAL[4], 0xd8fdf6ad) == 0x9cd0d89d
  {}
}
