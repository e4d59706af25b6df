/**
 The probe sequence of the stb_ds hash index, and the number theory that makes it terminate.

 A table has `N == 8 * 2^k` slots in buckets of eight. Probing starts at `hash & (N - 1)`, which for
 a power of two is `hash % N`; it scans the eight lanes of the bucket starting at its own lane, and
 then moves on by 8, 16, 24, ... slots modulo `N`.
 */
module Probing {

  function Pow2(k: nat): (p: nat)
    ensures p >= 1
  {
    if k == 0 then 1 else 2 * Pow2(k - 1)
  }

  /** The t-th triangular number: how many buckets the first t quadratic steps have moved. */
  function Tri(t: nat): nat {
    if t == 0 then 0 else Tri(t - 1) + t
  }

  /** The bucket visited after t steps from bucket b, in a table of m buckets. */
  function Bucket(b: nat, t: nat, m: nat): (r: nat)
    requires m > 0
    ensures r < m
  {
    (b + Tri(t)) % m
  }

  /** The n-th slot probed from slot p in a table of `slots` slots. */
  function Slot(p: nat, n: nat, slots: nat): (s: nat)
    requires slots > 0 && slots % 8 == 0
    ensures s < slots
  {
    8 * Bucket(p / 8, n / 8, slots / 8)
    + (p % 8 + n % 8) % 8
  }

  /** A slot count the hash index can have: eight times a power of two. */
  ghost predicate SlotCount(slots: nat) {
    exists k: nat :: slots == 8 * Pow2(k)
  }

  lemma SlotCountDoubles(slots: nat)
    requires SlotCount(slots)
    ensures SlotCount(2 * slots)
    ensures slots > 8 ==> slots % 2 == 0 && SlotCount(slots / 2)
    ensures slots >= 8 && slots % 8 == 0
  {
    var k: nat :| slots == 8 * Pow2(k);
    assert 2 * slots == 8 * Pow2(k + 1);
    if slots > 8 {
      assert slots / 2 == 8 * Pow2(k - 1);
    }
  }

  lemma {:induction false} TriClosedForm(t: nat)
    ensures 2 * Tri(t) == t * (t + 1)
  {
    if t > 0 {
      TriClosedForm(t - 1);
      assert t * (t + 1) == (t - 1) * t + 2 * t;
    }
  }

  lemma DifferenceOfSquares(a: int, t: int)
    ensures a * a - t * t == (a + t) * (a - t)
  {
    assert (a + t) * (a - t) == a * (a - t) + t * (a - t);
    assert a * (a - t) == a * a - a * t;
    assert t * (a - t) == t * a - t * t;
  }

  /** Reflecting t in a range of even length 2h moves its triangular number by an odd multiple of h. */
  lemma TriReflect(h: nat, t: nat)
    requires t < 2 * h
    ensures Tri(2 * h - 1 - t) == Tri(t) + h * (2 * (h - t) - 1)
  {
    TriClosedForm(t);
    TriClosedForm(2 * h - 1 - t);
    var a := 2 * h - t;
    DifferenceOfSquares(a, t);
    assert (a - 1) * (a - 1 + 1) == a * a - a;
    assert t * (t + 1) == t * t + t;
    var y := 2 * (h - t);
    assert (2 * h) * y - 2 * h == 2 * (h * (y - 1));
  }

  lemma ModAddOddHalf(x: int, h: nat, c: int)
    requires h > 0
    ensures (x + h * (2 * c - 1)) % (2 * h) == (x + h) % (2 * h)
  {
    var m := 2 * h;
    assert x + h * (2 * c - 1) == (x + h) + (c - 1) * m by {
      assert h * (2 * c - 1) == h + (c - 1) * (2 * h);
    }
    ModAddMultiple(x + h, c - 1, m);
  }

  lemma {:induction false} ModAddMultiple(x: int, c: int, m: nat)
    requires m > 0
    ensures (x + c * m) % m == x % m
  {
    var q, r := x / m, x % m;
    assert x + c * m == (q + c) * m + r;
    ModUnique(x + c * m, q + c, r, m);
  }

  lemma MulAtLeast(d: int, m: nat)
    requires d >= 1
    ensures d * m >= m
  {
    assert d * m == (d - 1) * m + m;
    assert (d - 1) * m >= 0;
  }

  lemma ModUnique(x: int, q: int, r: int, m: nat)
    requires m > 0 && 0 <= r < m && x == q * m + r
    ensures x % m == r && x / m == q
  {
    var q', r' := x / m, x % m;
    assert x == q' * m + r';
    assert (q - q') * m == q * m - q' * m;
    if q > q' {
      MulAtLeast(q - q', m);
    } else if q < q' {
      MulAtLeast(q' - q, m);
    }
  }

  /**
   Triangular numbers modulo a power of two reach every residue: the quadratic steps visit every
   bucket within as many steps as there are buckets.
   */
  lemma {:induction false} TriReaches(k: nat, x: nat) returns (t: nat)
    requires x < Pow2(k)
    ensures t < Pow2(k) && Tri(t) % Pow2(k) == x
  {
    if k == 0 {
      t := 0;
    } else {
      var h := Pow2(k - 1);
      t := TriReaches(k - 1, x % h);
      if Tri(t) % (2 * h) != x {
        TriReflect(h, t);
        ModAddOddHalf(Tri(t), h, h - t);
        HalfwayRound(Tri(t), x, h);
        t := 2 * h - 1 - t;
      }
    }
  }

  lemma HalfwayRound(a: nat, x: nat, h: nat)
    requires h > 0 && x < 2 * h && a % h == x % h && a % (2 * h) != x
    ensures (a + h) % (2 * h) == x
  {
    var q, r := a / (2 * h), a % (2 * h);
    assert a == (2 * q) * h + r;
    if r >= h {
      ModUnique(a, 2 * q + 1, r - h, h);
    } else {
      ModUnique(a, 2 * q, r, h);
    }
    if x >= h { ModUnique(x, 1, x - h, h); } else { ModUnique(x, 0, x, h); }
    if r >= h {
      ModUnique(a + h, q + 1, r - h, 2 * h);
    } else {
      ModUnique(a + h, q, r + h, 2 * h);
    }
  }

  /** One quadratic step: from bucket t of the sequence to bucket t + 1. */
  lemma BucketStep(b: nat, t: nat, m: nat)
    requires m > 0
    ensures (Bucket(b, t, m) + t + 1) % m == Bucket(b, t + 1, m)
  {
    var x := b + Tri(t);
    assert b + Tri(t + 1) == (Bucket(b, t, m) + t + 1) + (x / m) * m;
    ModAddMultiple(Bucket(b, t, m) + t + 1, x / m, m);
  }

  lemma BucketReaches(k: nat, b: nat, c: nat) returns (t: nat)
    requires b < Pow2(k) && c < Pow2(k)
    ensures t < Pow2(k) && Bucket(b, t, Pow2(k)) == c
  {
    var m := Pow2(k);
    t := TriReaches(k, (c + m - b) % m);
    var q1, q2 := (c + m - b) / m, Tri(t) / m;
    assert (q2 - q1 + 1) * m == q2 * m - q1 * m + m;
    ModUnique(b + Tri(t), q2 - q1 + 1, c, m);
  }

  /** The position arithmetic of the C loops agrees with `Slot`. */
  lemma SlotOfLane(p: nat, t: nat, j: nat, slots: nat)
    requires slots > 0 && slots % 8 == 0 && j < 8
    ensures Slot(p, 8 * t + j, slots) == 8 * Bucket(p / 8, t, slots / 8) + (p % 8 + j) % 8
  {
    assert (8 * t + j) / 8 == t && (8 * t + j) % 8 == j;
  }

  /** The probe sequence visits every slot within `slots` probes, so a table with a free slot stops it. */
  lemma ProbeVisitsAll(slots: nat, p: nat, s: nat) returns (n: nat)
    requires SlotCount(slots) && p < slots && s < slots
    ensures slots % 8 == 0
    ensures n < slots && Slot(p, n, slots) == s
  {
    var k: nat :| slots == 8 * Pow2(k);
    var m := Pow2(k);
    EightTimes(slots, m);
    var t := BucketReaches(k, p / 8, s / 8);
    var j := LaneReaches(p % 8, s % 8);
    n := 8 * t + j;
    SlotOfLane(p, t, j, slots);
  }

  lemma EightTimes(slots: nat, m: nat)
    requires slots == 8 * m
    ensures slots % 8 == 0 && slots / 8 == m
  {}

  lemma LaneReaches(a: nat, b: nat) returns (j: nat)
    requires a < 8 && b < 8
    ensures j < 8 && (a + j) % 8 == b
  {
    j := if a <= b then b - a else b + 8 - a;
  }

  /** `pos += step; pos &= slot_count - 1` moves from round t to round t + 1 in the same lane. */
  lemma PositionStep(p: nat, t: nat, slots: nat)
    requires slots > 0 && slots % 8 == 0
    ensures (Slot(p, 8 * t, slots) + 8 * (t + 1)) % slots == Slot(p, 8 * (t + 1), slots)
  {
    hide Slot, Bucket;
    var b, b' := Bucket(p / 8, t, slots / 8), Bucket(p / 8, t + 1, slots / 8);
    assert Slot(p, 8 * t, slots) == 8 * b + p % 8 by { SlotOfLane(p, t, 0, slots); }
    assert Slot(p, 8 * (t + 1), slots) == 8 * b' + p % 8 by { SlotOfLane(p, t + 1, 0, slots); }
    assert b' == (b + t + 1) % (slots / 8) by { BucketStep(p / 8, t, slots / 8); }
    RoundStep(Slot(p, 8 * t, slots), b, b', t, p % 8, slots);
  }

  lemma RoundStep(pos: nat, b: nat, b': nat, t: nat, lane: nat, slots: nat)
    requires slots > 0 && slots % 8 == 0 && lane < 8 && pos == 8 * b + lane && b' == (b + t + 1) % (slots / 8)
    ensures (pos + 8 * (t + 1)) % slots == 8 * b' + lane
  {
    ScaledStep(b + t + 1, lane, slots / 8);
  }

  lemma ScaledStep(x: nat, lane: nat, m: nat)
    requires m > 0 && lane < 8
    ensures (8 * x + lane) % (8 * m) == 8 * (x % m) + lane
  {
    var q := x / m;
    assert q * (8 * m) == 8 * (q * m);
    ModUnique(8 * x + lane, q, 8 * (x % m) + lane, 8 * m);
  }
}
