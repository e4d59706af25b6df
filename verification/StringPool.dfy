/**
 The string pools of the template compiler: open-addressed tables of distinct strings, whose ids are
 handed out in order of first use and must keep their meaning while the table is rehashed.
 */
module StringPools {
  import opened Seqs

  datatype Option<+T> = None | Some(value: T)

  ghost predicate NulFree(s: string) {
    '\0' !in s
  }

  /** strncmp(a, b, n) == 0 on strings of at least n characters: comparison stops at a NUL. */
  predicate StrnEq(a: string, b: string, n: nat)
    requires n <= |a| && n <= |b|
    decreases n
  {
    n == 0 || (StrnEq(a, b, n - 1) && (a[n - 1] == b[n - 1] || '\0' in a[..n - 1]))
  }

  predicate StrEq(a: string, b: string) {
    |a| == |b| && StrnEq(a, b, |a|)
  }

  lemma {:induction false} StrnEqPrefix(a: string, b: string, n: nat)
    requires n <= |a| && n <= |b| && NulFree(a)
    ensures StrnEq(a, b, n) <==> a[..n] == b[..n]
  {
    if n > 0 {
      StrnEqPrefix(a, b, n - 1);
      assert a[..n] == a[..n - 1] + [a[n - 1]] && b[..n] == b[..n - 1] + [b[n - 1]];
    }
  }

  /** On NUL-free strings str_eq is equality. */
  lemma StrEqIsEquality(a: string, b: string)
    requires NulFree(a)
    ensures StrEq(a, b) <==> a == b
  {
    if |a| == |b| {
      StrnEqPrefix(a, b, |a|);
      assert a[..|a|] == a && b[..|a|] == b;
    }
  }

  /** The growth of the pools and of the dynamic arrays: by the golden ratio, rounded down. */
  function Grown(capacity: nat): nat {
    capacity * 1618 / 1000
  }

  ghost function Without(s: seq<nat>, x: nat): (r: seq<nat>)
    ensures forall y :: y in r <==> y in s && y != x
    ensures |r| <= |s| && (x in s ==> |r| < |s|)
  {
    if s == [] then []
    else
      assert s == [s[0]] + s[1..];
      (if s[0] == x then [] else [s[0]]) + Without(s[1..], x)
  }

  /** Fewer than n numbers leave one of 0..n out. */
  lemma {:induction false} Missing(s: seq<nat>, n: nat) returns (j: nat)
    requires |s| < n
    ensures j < n && j !in s
    decreases n
  {
    if n - 1 !in s {
      j := n - 1;
    } else {
      j := Missing(Without(s, n - 1), n - 1);
    }
  }

  /**
   The pool invariant: the first `count` ids lead to occupied slots holding distinct strings, and every
   occupied slot has its id.
   */
  ghost predicate PoolOk(pool: seq<string>, idx: seq<nat>, count: nat) {
    && |pool| == |idx| && count <= |pool| && 0 < |pool|
    && (forall i | 0 <= i < count :: idx[i] < |pool| && pool[idx[i]] != "" && NulFree(pool[idx[i]]))
    && (forall j | 0 <= j < |pool| :: pool[j] != "" ==> j in idx[..count])
    && (forall i, j | 0 <= i < j < count :: pool[idx[i]] != pool[idx[j]])
  }

  /** What a pool means: its strings in the order in which their ids were handed out. */
  ghost function Strings(pool: seq<string>, idx: seq<nat>, count: nat): (r: seq<string>)
    requires PoolOk(pool, idx, count)
    ensures |r| == count && forall i | 0 <= i < count :: r[i] == pool[idx[i]]
  {
    seq(count, i requires 0 <= i < count => pool[idx[i]])
  }

  lemma PoolSizes(pool: seq<string>, idx: seq<nat>, count: nat)
    requires PoolOk(pool, idx, count)
    ensures |pool| == |idx| && 0 < |pool| && count <= |pool|
    ensures forall i | 0 <= i < count :: idx[i] < |pool|
  {}

  lemma NextSlot(slot: nat, capacity: nat)
    requires slot < capacity
    ensures (slot + 1) % capacity == if slot + 1 == capacity then 0 else slot + 1
  {}

  /** A pool with fewer strings than slots has a free slot. */
  lemma FreeSlot(pool: seq<string>, idx: seq<nat>, count: nat) returns (j: nat)
    requires PoolOk(pool, idx, count) && count < |pool|
    ensures j < |pool| && pool[j] == ""
  {
    j := Missing(idx[..count], |pool|);
  }

  /** Filling a free slot with a new string gives it the next id and leaves all other ids alone. */
  lemma PoolOkInsert(pool: seq<string>, idx: seq<nat>, count: nat, j: nat, s: string)
    requires PoolOk(pool, idx, count) && count < |pool| && j < |pool| && pool[j] == ""
    requires s != "" && NulFree(s) && s !in Strings(pool, idx, count)
    ensures PoolOk(pool[j := s], idx[count := j], count + 1)
    ensures Strings(pool[j := s], idx[count := j], count + 1) == Strings(pool, idx, count) + [s]
  {
    var pool', idx' := pool[j := s], idx[count := j];
    assert idx'[..count + 1] == idx[..count] + [j];
    forall i | 0 <= i < count
      ensures pool'[idx'[i]] == pool[idx[i]] != s
    {
      assert Strings(pool, idx, count)[i] == pool[idx[i]];
    }
  }

  /** An id is found for an occupied slot, and it is the id of the slot's string. */
  lemma SlotHasId(pool: seq<string>, idx: seq<nat>, count: nat, j: nat) returns (i: nat)
    requires PoolOk(pool, idx, count) && j < |pool| && pool[j] != ""
    ensures i < count && idx[i] == j
  {
    i :| 0 <= i < count && idx[..count][i] == j;
  }

  /** The id of slot `slot`, searched for among the first `n` ids. */
  method IdOfSlot(idxs: seq<nat>, n: nat, slot: nat) returns (found: bool, id: nat)
    requires n <= |idxs|
    ensures found ==> id < n && idxs[id] == slot
    ensures !found ==> slot !in idxs[..n]
  {
    var i := 0;
    while i < n
      invariant 0 <= i <= n
      invariant slot !in idxs[..i]
    {
      if idxs[i] == slot { return true, i; }
      i := i + 1;
    }
    return false, 0;
  }

  /**
   string_pool_idx for a string that is not in the pool, which is so at both call sites: probes from the
   hash for a free slot and fills it under the id `n`.
   */
  method PoolIndex(h: string -> nat, pool0: seq<string>, idxs0: seq<nat>, n: nat, s: string)
    returns (pool: seq<string>, idxs: seq<nat>, id: nat)
    requires PoolOk(pool0, idxs0, n) && n < |pool0| && s != "" && NulFree(s)
    requires s !in Strings(pool0, idxs0, n)
    ensures id == n && |pool| == |pool0|
    ensures PoolOk(pool, idxs, n + 1)
    ensures Strings(pool, idxs, n + 1) == Strings(pool0, idxs0, n) + [s]
  {
    hide PoolOk, Strings, StrEq, NulFree;
    pool, idxs := pool0, idxs0;
    PoolSizes(pool, idxs, n);
    ghost var free := FreeSlot(pool, idxs, n);
    var slot: nat := h(s) % |pool|;
    while true
      invariant 0 <= slot < |pool|
      invariant pool == pool0 && idxs == idxs0
      decreases if slot <= free then free - slot else free + |pool| - slot
    {
      StrEqIsEquality(s, pool[slot]);
      if StrEq(s, pool[slot]) {
        NotInPool(pool, idxs, n, slot, s);
        assert false;
      } else if |pool[slot]| == 0 {
        PoolOkInsert(pool, idxs, n, slot, s);
        idxs := idxs[n := slot];
        pool := pool[slot := s];
        return pool, idxs, n;
      }
      NextSlot(slot, |pool|);
      slot := (slot + 1) % |pool|;
    }
  }

  class StringPool {
    const hash: string -> nat
    var pool: seq<string>   // the table; "" marks a free slot
    var idx: seq<nat>       // id to slot
    var count: nat

    ghost predicate Valid()
      reads this
    {
      |pool| >= 64 && PoolOk(pool, idx, count)
    }

    /** The strings interned so far; the id of a string is its position here. */
    ghost function Contents(): (r: seq<string>)
      reads this
      requires Valid()
      ensures |r| == count
    {
      Strings(pool, idx, count)
    }

    constructor (h: string -> nat)
      ensures Valid() && Contents() == [] && hash == h
    {
      hash := h;
      pool := seq(64, _ => "");
      idx := seq(64, _ => 0);
      count := 0;
    }

    /** Reads the interned strings back through the ids, as the CONSTANT and NAME macros do. */
    method List() returns (strings: seq<string>)
      requires Valid()
      ensures strings == Contents()
    {
      strings := [];
      var i := 0;
      while i < count
        invariant 0 <= i <= count && strings == Contents()[..i]
      {
        strings := strings + [pool[idx[i]]];
        i := i + 1;
      }
    }

    /**
     string_pool_lookup: goes once around the whole table. `Bug` is the C code's "entry idx not found"
     error, which ends the call.
     */
    method Lookup(s: string) returns (bug: bool, found: bool, id: nat)
      requires Valid() && NulFree(s)
      ensures s != "" ==> !bug && (found <==> s in Contents())
      ensures s != "" && found ==> id < count && Contents()[id] == s
      ensures s == "" ==> !found && (count < |pool| ==> bug)
    {
      hide PoolOk, Strings, StrEq, NulFree;
      PoolSizes(pool, idx, count);
      var capacity := |pool|;
      var start := hash(s) % capacity;
      var slot: nat := start;
      ghost var wrapped := false;
      while true
        invariant 0 <= slot < capacity
        invariant if wrapped then slot < start else start <= slot
        invariant forall j: nat | j < capacity && Passed(start, slot, wrapped, j) :: pool[j] != s
        decreases if wrapped then start - slot else start + capacity - slot
      {
        StrEqIsEquality(s, pool[slot]);
        if StrEq(s, pool[slot]) {
          var hasId, i := IdOfSlot(idx, count, slot);
          SlotIds(pool, idx, count, slot);
          if hasId {
            return false, true, i;
          }
          return true, false, 0;
        }
        NextSlot(slot, capacity);
        if slot + 1 == capacity { wrapped := true; }
        slot := (slot + 1) % capacity;
        if slot == start {
          assert forall j | 0 <= j < capacity :: pool[j] != s;
          AbsentString(pool, idx, count, s);
          return false, false, 0;
        }
      }
    }

    /** The rehash of string_pool_use: a larger table with the same strings under the same ids. */
    method Grow()
      requires Valid()
      modifies this
      ensures Valid() && Contents() == old(Contents()) && count == old(count)
      ensures |pool| == Grown(old(|pool|)) > old(|pool|)
    {
      hide PoolOk, Strings, NulFree;
      PoolSizes(pool, idx, count);
      var capacity := Grown(|pool|);
      var newIdx: seq<nat> := seq(capacity, _ => 0);
      var newPool: seq<string> := seq(capacity, _ => "");
      ghost var strings := Contents();
      EmptyPool(newPool, newIdx);
      var i := 0;
      while i < count
        invariant Valid() && pool == old(pool) && idx == old(idx) && count == old(count) == |strings|
        invariant 0 <= i <= count && |newPool| == capacity
        invariant PoolOk(newPool, newIdx, i)
        invariant Strings(newPool, newIdx, i) == strings[..i]
      {
        OldString(pool, idx, count, i);
        var id;
        newPool, newIdx, id := PoolIndex(hash, newPool, newIdx, i, pool[idx[i]]);
        assert strings[..i + 1] == strings[..i] + [strings[i]];
        i := i + 1;
      }
      pool, idx := newPool, newIdx;
      assert strings[..count] == strings;
    }

    /**
     string_pool_use: the id of a string, new exactly when the string was not seen before. No id handed
     out earlier changes its meaning, whether or not the table was rehashed. The empty string ends in the
     pool's error.
     */
    method Use(s: string) returns (id: Option<nat>)
      requires Valid() && NulFree(s)
      modifies this
      ensures Valid()
      ensures id.None? <==> s == ""
      ensures Contents() == old(Contents()) + (if s == "" || s in old(Contents()) then [] else [s])
      ensures id.Some? ==> id.value < |Contents()| && Contents()[id.value] == s
    {
      if count == |pool| {
        Grow();
      }
      var bug, found, i := Lookup(s);
      if bug { return None; }
      if found { return Some(i); }
      pool, idx, i := PoolIndex(hash, pool, idx, count, s);
      count := count + 1;
      return Some(i);
    }
  }

  /** The slots a once-around scan has left behind. */
  ghost predicate Passed(start: nat, slot: nat, wrapped: bool, j: nat) {
    if wrapped then start <= j || j < slot else start <= j < slot
  }

  lemma EmptyPool(pool: seq<string>, idx: seq<nat>)
    requires |pool| == |idx| > 0 && forall j | 0 <= j < |pool| :: pool[j] == ""
    ensures PoolOk(pool, idx, 0) && Strings(pool, idx, 0) == []
  {}

  lemma OldString(pool: seq<string>, idx: seq<nat>, count: nat, i: nat)
    requires PoolOk(pool, idx, count) && i < count
    ensures var s := Strings(pool, idx, count)[i];
            pool[idx[i]] == s && s != "" && NulFree(s) && s !in Strings(pool, idx, count)[..i]
  {}

  lemma SlotIds(pool: seq<string>, idx: seq<nat>, count: nat, j: nat)
    requires PoolOk(pool, idx, count) && j < |pool|
    ensures j in idx[..count] <==> pool[j] != ""
    ensures forall i | 0 <= i < count && idx[i] == j :: Strings(pool, idx, count)[i] == pool[j]
  {
    if j in idx[..count] {
      var i :| 0 <= i < count && idx[..count][i] == j;
      assert pool[idx[i]] != "";
    }
  }

  lemma NotInPool(pool: seq<string>, idx: seq<nat>, count: nat, j: nat, s: string)
    requires PoolOk(pool, idx, count) && j < |pool| && pool[j] == s && s != ""
    ensures s in Strings(pool, idx, count)
  {
    var i := SlotHasId(pool, idx, count, j);
    assert Strings(pool, idx, count)[i] == s;
  }

  lemma AbsentString(pool: seq<string>, idx: seq<nat>, count: nat, s: string)
    requires PoolOk(pool, idx, count) && forall j | 0 <= j < |pool| :: pool[j] != s
    ensures s !in Strings(pool, idx, count)
    ensures s == "" ==> count == |pool|
  {
    if s == "" && count < |pool| {
      var j := FreeSlot(pool, idx, count);
    }
  }

  lemma ContentsDistinct(pool: seq<string>, idx: seq<nat>, count: nat)
    requires PoolOk(pool, idx, count)
    ensures Distinct(Strings(pool, idx, count)) && "" !in Strings(pool, idx, count)
  {}

  /** The strings of a run in the order of their first use. */
  ghost function FirstUses(xs: seq<string>): seq<string> {
    if |xs| == 0 then []
    else
      var before := FirstUses(xs[..|xs| - 1]);
      if xs[|xs| - 1] in before then before else before + [xs[|xs| - 1]]
  }

  /**
   Whole runs: after interning any strings, through however many rehashes, every id handed out on the way
   denotes its string in the final pool, and the final pool is the list of first uses. Ids therefore
   agree exactly when the strings do.
   */
  method InternAll(h: string -> nat, xs: seq<string>) returns (ids: seq<nat>, strings: seq<string>)
    requires forall i | 0 <= i < |xs| :: xs[i] != "" && NulFree(xs[i])
    ensures |ids| == |xs| && strings == FirstUses(xs) && Distinct(strings)
    ensures forall i | 0 <= i < |xs| :: ids[i] < |strings| && strings[ids[i]] == xs[i]
    ensures forall i, j | 0 <= i < |xs| && 0 <= j < |xs| :: ids[i] == ids[j] <==> xs[i] == xs[j]
  {
    hide PoolOk, Strings;
    var pool := new StringPool(h);
    ids := [];
    assert xs[..0] == [];
    for i := 0 to |xs|
      invariant pool.Valid() && fresh(pool)
      invariant pool.Contents() == FirstUses(xs[..i])
      invariant |ids| == i
      invariant forall k | 0 <= k < i :: ids[k] < |pool.Contents()| && pool.Contents()[ids[k]] == xs[k]
    {
      assert xs[..i + 1][..i] == xs[..i];
      var id := pool.Use(xs[i]);
      ids := ids + [id.value];
    }
    assert xs[..|xs|] == xs;
    strings := pool.List();
    ContentsDistinct(pool.pool, pool.idx, pool.count);
  }
}
