/**
 The open-addressed hash index of stb_ds: a bucket array mapping stored hashes to positions in the
 dense entry array, with tombstones, and rebuilt whenever it grows, shrinks or collects tombstones.
 */
module HashIndexes {
  import opened Probing

  const INDEX_EMPTY: int := -1
  const INDEX_DELETED: int := -2
  const HASH_EMPTY: nat := 0
  const HASH_DELETED: nat := 1

  /** One slot of a bucket: the stored hash and the position in the dense array. */
  datatype Lane = Lane(hash: nat, index: int)

  /** Stored hashes 0 and 1 are reserved for free and deleted slots. */
  function StoredHash(h: nat): (r: nat)
    ensures r >= 2
  {
    if h < 2 then h + 2 else h
  }

  /** The number of slots whose stored hash is at least `lo`: 1 counts occupied slots, 2 counts live ones. */
  ghost function Count(st: seq<Lane>, lo: nat): (n: nat)
    ensures n <= |st|
  {
    if |st| == 0 then 0
    else Count(st[..|st| - 1], lo) + (if st[|st| - 1].hash >= lo then 1 else 0)
  }

  lemma {:induction false} CountUpdate(st: seq<Lane>, i: nat, lane: Lane, lo: nat)
    requires i < |st|
    ensures Count(st[i := lane], lo) + (if st[i].hash >= lo then 1 else 0)
            == Count(st, lo) + (if lane.hash >= lo then 1 else 0)
  {
    var n := |st| - 1;
    if i == n {
      assert st[i := lane][..n] == st[..n];
    } else {
      assert st[i := lane][..n] == st[..n][i := lane];
      CountUpdate(st[..n], i, lane, lo);
    }
  }

  lemma {:induction false} CountOrder(st: seq<Lane>)
    ensures Count(st, 2) <= Count(st, 1)
  {
    if |st| > 0 {
      CountOrder(st[..|st| - 1]);
    }
  }

  lemma {:induction false} CountBelow(st: seq<Lane>) returns (i: nat)
    requires Count(st, 1) < |st|
    ensures i < |st| && st[i].hash == HASH_EMPTY
  {
    var n := |st| - 1;
    if st[n].hash == 0 {
      i := n;
    } else {
      i := CountBelow(st[..n]);
    }
  }

  lemma {:induction false} CountAllEmpty(st: seq<Lane>, lo: nat)
    requires lo > 0 && forall i | 0 <= i < |st| :: st[i].hash == HASH_EMPTY
    ensures Count(st, lo) == 0
  {
    if |st| > 0 {
      CountAllEmpty(st[..|st| - 1], lo);
    }
  }

  /** The n-th slot probed for stored hash `h`. */
  function At(h: nat, n: nat, slots: nat): (s: nat)
    requires slots > 0 && slots % 8 == 0
    ensures s < slots
  {
    Slot(h % slots, n, slots)
  }

  /** A slot is free, deleted or live, and its two fields agree on which. */
  ghost predicate LaneState(lane: Lane) {
    && (lane.hash == HASH_EMPTY <==> lane.index == INDEX_EMPTY)
    && (lane.hash == HASH_DELETED <==> lane.index == INDEX_DELETED)
    && (lane.hash >= 2 <==> lane.index >= 0)
  }

  /** The first n probes for `h` meet no free slot. */
  ghost predicate Reaches(st: seq<Lane>, h: nat, n: nat)
    requires |st| > 0 && |st| % 8 == 0
  {
    forall m | 0 <= m < n :: st[At(h, m, |st|)].hash != HASH_EMPTY
  }

  /** The first n probes for `key`, stored as `h`, meet neither a free slot nor the key. */
  ghost predicate Missed<K>(st: seq<Lane>, keys: seq<K>, key: K, h: nat, n: nat)
    requires |st| > 0 && |st| % 8 == 0
  {
    && Reaches(st, h, n)
    && forall m | 0 <= m < n ::
         var lane := st[At(h, m, |st|)];
         !(lane.hash == h && 0 <= lane.index < |keys| && keys[lane.index] == key)
  }

  /**
   The probe-chain invariant. `depth` maps each indexed entry to the number of probes that reach it:
   exactly those entries have a live slot, each has one, it holds the hash of the entry's key, and no
   free slot comes before it on its probe path.
   */
  ghost predicate Chained<K>(f: K -> nat, st: seq<Lane>, keys: seq<K>, depth: map<nat, nat>)
    requires |st| > 0 && |st| % 8 == 0
  {
    && (forall s | 0 <= s < |st| :: LaneState(st[s]))
    && (forall s | 0 <= s < |st| && st[s].index >= 0 ::
          st[s].index in depth && st[s].index < |keys|
          && At(StoredHash(f(keys[st[s].index])), depth[st[s].index], |st|) == s)
    && (forall e | e in depth ::
          && e < |keys|
          && var h := StoredHash(f(keys[e]));
             st[At(h, depth[e], |st|)] == Lane(h, e) && Reaches(st, h, depth[e]))
  }

  /** When the n-th probe meets a free slot after missing the key, the key is not indexed. */
  lemma MissedForGood<K>(f: K -> nat, st: seq<Lane>, keys: seq<K>, depth: map<nat, nat>, key: K, n: nat)
    requires |st| > 0 && |st| % 8 == 0 && Chained(f, st, keys, depth)
    requires Missed(st, keys, key, StoredHash(f(key)), n)
    requires st[At(StoredHash(f(key)), n, |st|)].hash == HASH_EMPTY
    ensures forall e | e in depth :: keys[e] != key
  {
    forall e | e in depth
      ensures keys[e] != key
    {
      var h := StoredHash(f(keys[e]));
      assert st[At(h, depth[e], |st|)] == Lane(h, e) && Reaches(st, h, depth[e]);
      assert depth[e] < n || depth[e] == n || n < depth[e];
    }
  }

  lemma LiveSlotIndexed<K>(f: K -> nat, st: seq<Lane>, keys: seq<K>, depth: map<nat, nat>, s: nat)
    requires |st| > 0 && |st| % 8 == 0 && Chained(f, st, keys, depth) && s < |st| && st[s].index >= 0
    ensures st[s].index in depth
  {}

  /** Filling a free or deleted slot reached by probing extends the chains by the new entry. */
  lemma ChainedInsert<K>(f: K -> nat, st: seq<Lane>, keys: seq<K>, depth: map<nat, nat>, e: nat, n: nat)
    requires |st| > 0 && |st| % 8 == 0 && Chained(f, st, keys, depth)
    requires e < |keys| && e !in depth
    requires var h := StoredHash(f(keys[e])); Reaches(st, h, n) && st[At(h, n, |st|)].index < 0
    ensures var h := StoredHash(f(keys[e]));
            Chained(f, st[At(h, n, |st|) := Lane(h, e)], keys, depth[e := n])
  {
    var h := StoredHash(f(keys[e]));
    var s := At(h, n, |st|);
    var st' := st[s := Lane(h, e)];
    forall d | d in depth[e := n]
      ensures var g := StoredHash(f(keys[d]));
              st'[At(g, depth[e := n][d], |st|)] == Lane(g, d) && Reaches(st', g, depth[e := n][d])
    {
      var g := StoredHash(f(keys[d]));
      if d != e {
        assert st[At(g, depth[d], |st|)] == Lane(g, d);
        assert Reaches(st, g, depth[d]);
      }
    }
  }

  /** Turning a live slot into a tombstone leaves every other chain unbroken. */
  lemma ChainedDelete<K>(f: K -> nat, st: seq<Lane>, keys: seq<K>, depth: map<nat, nat>, s: nat)
    requires |st| > 0 && |st| % 8 == 0 && Chained(f, st, keys, depth)
    requires s < |st| && st[s].index >= 0
    ensures Chained(f, st[s := Lane(HASH_DELETED, INDEX_DELETED)], keys, depth - {st[s].index})
  {
    var st' := st[s := Lane(HASH_DELETED, INDEX_DELETED)];
    forall d | d in depth && d != st[s].index
      ensures var g := StoredHash(f(keys[d]));
              st'[At(g, depth[d], |st|)] == Lane(g, d) && Reaches(st', g, depth[d])
    {
      var g := StoredHash(f(keys[d]));
      assert st[At(g, depth[d], |st|)] == Lane(g, d);
      assert Reaches(st, g, depth[d]);
    }
  }

  /**
   The back-pointer repair of a swap delete: entry `last` has moved to position `old`, so its slot is
   pointed there.
   */
  lemma ChainedMove<K>(f: K -> nat, st: seq<Lane>, keys: seq<K>, depth: map<nat, nat>, s: nat, old': nat)
    requires |st| > 0 && |st| % 8 == 0 && Chained(f, st, keys, depth)
    requires s < |st| && st[s].index >= 0 && old' < |keys| && old' !in depth
    requires keys[old'] == keys[st[s].index]
    ensures Chained(f, st[s := st[s].(index := old')], keys, (depth - {st[s].index})[old' := depth[st[s].index]])
  {
    var last := st[s].index;
    var st' := st[s := st[s].(index := old')];
    var depth' := (depth - {last})[old' := depth[last]];
    forall d | d in depth'
      ensures var g := StoredHash(f(keys[d]));
              st'[At(g, depth'[d], |st|)] == Lane(g, d) && Reaches(st', g, depth'[d])
    {
      var g := StoredHash(f(keys[d]));
      var from := if d == old' then last else d;
      assert st[At(g, depth[from], |st|)] == Lane(g, from);
      assert Reaches(st, g, depth[from]);
    }
  }

  /** The chains depend on the keys of the indexed entries only. */
  lemma ChainedKeys<K>(f: K -> nat, st: seq<Lane>, keys: seq<K>, keys': seq<K>, depth: map<nat, nat>)
    requires |st| > 0 && |st| % 8 == 0 && Chained(f, st, keys, depth)
    requires forall e | e in depth :: e < |keys'| && keys'[e] == keys[e]
    ensures Chained(f, st, keys', depth)
  {
    forall e | e in depth
      ensures var h := StoredHash(f(keys'[e]));
              st[At(h, depth[e], |st|)] == Lane(h, e) && Reaches(st, h, depth[e])
    {
      assert keys'[e] == keys[e];
    }
  }

  /** The slot scanned for lane offset j of the round that starts at `pos`. */
  lemma LaneSlot(h: nat, t: nat, j: nat, slots: nat, pos: nat)
    requires slots > 0 && slots % 8 == 0 && j < 8 && pos == At(h, 8 * t, slots)
    ensures At(h, 8 * t + j, slots)
            == (if pos % 8 + j < 8 then pos - pos % 8 + (pos % 8 + j) else pos - pos % 8 + (pos % 8 + j - 8))
    ensures pos - pos % 8 + 8 <= slots
  {
    hide At, Slot, Bucket;
    var p := h % slots;
    var b := Bucket(p / 8, t, slots / 8);
    AtLane(h, t, 0, slots);
    AtLane(h, t, j, slots);
    LaneOf(b, p % 8, pos, slots);
  }

  lemma AtLane(h: nat, t: nat, j: nat, slots: nat)
    requires slots > 0 && slots % 8 == 0 && j < 8
    ensures var p := h % slots;
            var b := Bucket(p / 8, t, slots / 8);
            At(h, 8 * t + j, slots) == (if p % 8 + j < 8 then 8 * b + (p % 8 + j) else 8 * b + (p % 8 + j - 8))
  {
    SlotOfLane(h % slots, t, j, slots);
    LaneWrap((h % slots) % 8, j);
  }

  lemma LaneWrap(lane: nat, j: nat)
    requires lane < 8 && j < 8
    ensures (lane + j) % 8 == (if lane + j < 8 then lane + j else lane + j - 8)
  {}

  lemma LaneOf(b: nat, lane: nat, pos: nat, slots: nat)
    requires slots % 8 == 0 && lane < 8 && b < slots / 8 && pos == 8 * b + lane
    ensures pos % 8 == lane && pos - pos % 8 == 8 * b && 8 * b + 8 <= slots
  {}

  lemma FirstProbe(h: nat, slots: nat)
    requires slots > 0 && slots % 8 == 0
    ensures At(h, 0, slots) == h % slots
  {
    var p := h % slots;
    SlotOfLane(p, 0, 0, slots);
    assert p / 8 < slots / 8;
  }

  lemma NextRound(h: nat, t: nat, slots: nat)
    requires slots > 0 && slots % 8 == 0
    ensures (At(h, 8 * t, slots) + 8 * (t + 1)) % slots == At(h, 8 * (t + 1), slots)
  {
    PositionStep(h % slots, t, slots);
  }

  /** The two lane ranges a round scans: from the home lane to the bucket's end, then from its start. */
  ghost predicate LaneRange(h: nat, pos: nat, from: nat, to: nat, t: nat, n0: nat, slots: nat)
    requires slots > 0 && slots % 8 == 0
  {
    && pos == At(h, 8 * t, slots) && from <= to
    && ((from == pos % 8 && to == 8 && n0 == 8 * t) || (from == 0 && to == pos % 8 && n0 == 8 * t + 8 - to))
  }

  lemma LaneInRange(h: nat, pos: nat, from: nat, to: nat, t: nat, n0: nat, slots: nat, i: nat)
    requires slots > 0 && slots % 8 == 0 && LaneRange(h, pos, from, to, t, n0, slots)
    requires from <= i < to
    ensures pos - pos % 8 + i < slots && At(h, n0 + (i - from), slots) == pos - pos % 8 + i
  {
    hide At, Slot;
    LaneSlot(h, t, n0 - 8 * t + i - from, slots, pos);
  }

  lemma StopAt(st: seq<Lane>, h: nat, stop: nat)
    requires |st| > 0 && |st| % 8 == 0
    ensures At(h, stop, |st|) == Slot(h % |st|, stop, |st|)
  {}

  /** The thresholds of every table size leave at least one slot free, as the C code asserts. */
  lemma ThresholdsLeaveRoom(slots: nat)
    requires SlotCount(slots)
    ensures (slots - slots / 4) + (slots / 8 + slots / 16) < slots
  {
    SlotCountDoubles(slots);
  }

  class HashIndex<K(==)> {
    const hashFn: K -> nat       // the byte hash at the seed of this table
    const slotCount: nat
    const usedCountThreshold: nat
    const usedCountShrinkThreshold: nat
    const tombstoneCountThreshold: nat
    var usedCount: nat
    var tombstoneCount: nat
    const storage: array<Lane>
    ghost var depth: map<nat, nat>

    /** What holds of the index at every moment, for the entries whose keys are given. */
    ghost predicate Valid(keys: seq<K>)
      reads this, storage
    {
      && SlotCount(slotCount) && slotCount >= 8 && slotCount % 8 == 0
      && storage.Length == slotCount
      && usedCountThreshold == slotCount - slotCount / 4
      && tombstoneCountThreshold == slotCount / 8 + slotCount / 16
      && usedCountShrinkThreshold == (if slotCount <= 8 then 0 else slotCount / 4)
      && Chained(hashFn, storage[..], keys, depth)
      && Count(storage[..], 2) == usedCount
      && Count(storage[..], 1) == usedCount + tombstoneCount
    }

    /** The thresholds of a table of 64 slots. */
    lemma ThresholdsOf64(keys: seq<K>)
      requires Valid(keys) && slotCount == 64
      ensures usedCountThreshold == 48 && tombstoneCountThreshold == 12 && usedCountShrinkThreshold == 16
    {}

    /** There is a free slot, so every probe stops. */
    ghost predicate HasRoom()
      reads this
    {
      usedCount + tombstoneCount < slotCount
    }

    lemma ProbeStops(keys: seq<K>, h: nat) returns (stop: nat)
      requires Valid(keys) && HasRoom()
      ensures storage[At(h, stop, slotCount)].hash == HASH_EMPTY
    {
      var s := CountBelow(storage[..]);
      stop := ProbeVisitsAll(slotCount, h % slotCount, s);
      StopAt(storage[..], h, stop);
    }

    /** stbds_make_hash_index without an old table. */
    constructor Fresh(slots: nat, f: K -> nat, ghost keys: seq<K>)
      requires SlotCount(slots)
      ensures Valid(keys) && slotCount == slots && hashFn == f
      ensures usedCount == 0 && tombstoneCount == 0 && depth == map[]
      ensures fresh(storage)
    {
      SlotCountDoubles(slots);
      slotCount := slots;
      hashFn := f;
      usedCountThreshold := slots - slots / 4;
      tombstoneCountThreshold := slots / 8 + slots / 16;
      usedCountShrinkThreshold := if slots <= 8 then 0 else slots / 4;
      usedCount, tombstoneCount := 0, 0;
      depth := map[];
      storage := new Lane[slots](_ => Lane(HASH_EMPTY, INDEX_EMPTY));
      new;
      CountAllEmpty(storage[..], 1);
      CountAllEmpty(storage[..], 2);
    }

    /**
     stbds_make_hash_index from an old table: a table of another size with the same entries, each
     reachable again from its copied hash, and no tombstones.
     */
    constructor From(slots: nat, ot: HashIndex<K>, ghost keys: seq<K>)
      requires SlotCount(slots) && ot.Valid(keys) && ot.usedCount < slots
      ensures Valid(keys) && slotCount == slots && hashFn == ot.hashFn
      ensures usedCount == ot.usedCount && tombstoneCount == 0
      ensures depth.Keys == ot.depth.Keys
      ensures fresh(storage)
    {
      SlotCountDoubles(slots);
      slotCount := slots;
      hashFn := ot.hashFn;
      usedCountThreshold := slots - slots / 4;
      tombstoneCountThreshold := slots / 8 + slots / 16;
      usedCountShrinkThreshold := if slots <= 8 then 0 else slots / 4;
      usedCount, tombstoneCount := ot.usedCount, 0;
      depth := map[];
      storage := new Lane[slots](_ => Lane(HASH_EMPTY, INDEX_EMPTY));
      new;
      CountAllEmpty(storage[..], 1);
      CountAllEmpty(storage[..], 2);
      CopyAll(ot, keys);
    }

    /** The loop over the old slots in stbds_make_hash_index, on a table that is still empty. */
    method CopyAll(ot: HashIndex<K>, ghost keys: seq<K>)
      requires SlotCount(slotCount) && slotCount > 0 && slotCount % 8 == 0 && storage.Length == slotCount
      requires ot.Valid(keys) && ot.usedCount < slotCount && hashFn == ot.hashFn
      requires ot != this && ot.storage != storage
      requires Chained(hashFn, storage[..], keys, depth) && depth == map[]
      requires Count(storage[..], 1) == Count(storage[..], 2) == 0
      modifies storage, `depth
      ensures Chained(hashFn, storage[..], keys, depth) && depth.Keys == ot.depth.Keys
      ensures Count(storage[..], 1) == Count(storage[..], 2) == ot.usedCount
    {
      ghost var old' := ot.storage[..];
      assert old'[..0] == [];
      var i := 0;
      while i < ot.slotCount
        invariant 0 <= i <= ot.slotCount
        invariant ot.storage[..] == old'
        invariant Chained(hashFn, storage[..], keys, depth)
        invariant Count(storage[..], 2) == Count(storage[..], 1) == Count(old'[..i], 2)
        invariant depth.Keys == LiveEntries(old'[..i])
      {
        NextOldSlot(hashFn, old', keys, ot.depth, i);
        if ot.storage[i].index >= 0 {
          CopyIn(ot.storage[i].hash, ot.storage[i].index, keys);
        }
        i := i + 1;
      }
      assert old'[..i] == old';
      LiveEntriesAll(hashFn, old', keys, ot.depth);
    }

    /** The copy loop of stbds_make_hash_index: the first free slot on the probe path of `hash`. */
    method CopyIn(hash: nat, index: nat, ghost keys: seq<K>)
      requires SlotCount(slotCount) && slotCount > 0 && slotCount % 8 == 0 && storage.Length == slotCount
      requires Chained(hashFn, storage[..], keys, depth)
      requires index < |keys| && index !in depth && hash == StoredHash(hashFn(keys[index]))
      requires Count(storage[..], 1) < slotCount
      modifies storage, `depth
      ensures Chained(hashFn, storage[..], keys, depth)
      ensures depth.Keys == old(depth.Keys) + {index}
      ensures Count(storage[..], 1) == old(Count(storage[..], 1)) + 1
      ensures Count(storage[..], 2) == old(Count(storage[..], 2)) + 1
    {
      hide At, Slot;
      ghost var st := storage[..];
      ghost var free := CountBelow(st);
      ghost var stop := ProbeVisitsAll(slotCount, hash % slotCount, free);
      StopAt(st, hash, stop);
      var pos := hash % slotCount;
      var step := 8;
      ghost var t := 0;
      FirstProbe(hash, slotCount);
      while true
        invariant pos == At(hash, 8 * t, slotCount) && step == 8 * (t + 1)
        invariant Reaches(st, hash, 8 * t)
        invariant storage[..] == st && depth == old(depth)
        decreases stop - 8 * t
      {
        var lane := pos % 8;
        var slot, n := ScanForFree(hash, pos, lane, 8, t, 8 * t);
        if slot < 0 {
          slot, n := ScanForFree(hash, pos, 0, lane, t, 8 * t + 8 - lane);
        }
        if slot >= 0 {
          Fill(slot, hash, index, n, keys);
          return;
        }
        NextRound(hash, t, slotCount);
        pos := (pos + step) % slotCount;
        step := step + 8;
        t := t + 1;
      }
    }

    /** Scans lanes `from` to `to` of the bucket at `pos` for a free slot. */
    method ScanForFree(hash: nat, pos: nat, from: nat, to: nat, ghost t: nat, ghost n0: nat)
      returns (slot: int, ghost n: nat)
      requires slotCount > 0 && slotCount % 8 == 0 && storage.Length == slotCount
      requires LaneRange(hash, pos, from, to, t, n0, slotCount) && Reaches(storage[..], hash, n0)
      ensures slot < 0 ==> Reaches(storage[..], hash, n0 + (to - from))
      ensures slot >= 0 ==>
                && slot < slotCount && storage[slot].hash == HASH_EMPTY
                && slot == At(hash, n, slotCount) && Reaches(storage[..], hash, n)
    {
      hide At, Slot;
      var base := pos - pos % 8;
      var z := from;
      while z < to
        invariant from <= z <= to
        invariant Reaches(storage[..], hash, n0 + (z - from))
      {
        LaneInRange(hash, pos, from, to, t, n0, slotCount, z);
        if storage[base + z].hash == HASH_EMPTY {
          return base + z, n0 + (z - from);
        }
        z := z + 1;
      }
      return -1, 0;
    }

    /** Writes a free or deleted slot reached by n probes. */
    method Fill(pos: nat, hash: nat, index: nat, ghost n: nat, ghost keys: seq<K>)
      requires slotCount > 0 && slotCount % 8 == 0 && storage.Length == slotCount
      requires Chained(hashFn, storage[..], keys, depth)
      requires index < |keys| && index !in depth && hash == StoredHash(hashFn(keys[index]))
      requires pos == At(hash, n, slotCount) && Reaches(storage[..], hash, n) && storage[pos].hash < 2
      modifies storage, `depth
      ensures Chained(hashFn, storage[..], keys, depth)
      ensures depth == old(depth)[index := n]
      ensures Count(storage[..], 1) == old(Count(storage[..], 1))
                                       + (if old(storage[pos].hash) == HASH_EMPTY then 1 else 0)
      ensures Count(storage[..], 2) == old(Count(storage[..], 2)) + 1
    {
      ghost var st := storage[..];
      assert LaneState(st[pos]);
      ChainedInsert(hashFn, st, keys, depth, index, n);
      CountUpdate(st, pos, Lane(hash, index), 1);
      CountUpdate(st, pos, Lane(hash, index), 2);
      storage[pos] := Lane(hash, index);
      depth := depth[index := n];
      assert storage[..] == st[pos := Lane(hash, index)];
    }

    /** The end of stbds_hmput_key: indexes a new last entry at a slot found by ProbeForPut. */
    method Insert(key: K, pos: nat, index: nat, reuse: bool, ghost n: nat, ghost keys: seq<K>)
      requires Valid(keys) && index == |keys| && index !in depth && pos < slotCount
      requires storage[pos].hash == (if reuse then HASH_DELETED else HASH_EMPTY)
      requires pos == At(StoredHash(hashFn(key)), n, slotCount) && Reaches(storage[..], StoredHash(hashFn(key)), n)
      modifies storage, `depth, `usedCount, `tombstoneCount
      ensures Valid(keys + [key])
      ensures usedCount == old(usedCount) + 1
      ensures tombstoneCount == old(tombstoneCount) - (if reuse then 1 else 0)
      ensures depth.Keys == old(depth.Keys) + {index}
    {
      ChainedKeys(hashFn, storage[..], keys, keys + [key], depth);
      Fill(pos, StoredHash(hashFn(key)), index, n, keys + [key]);
      CountOrder(storage[..]);
      if reuse {
        tombstoneCount := tombstoneCount - 1;
      }
      usedCount := usedCount + 1;
    }

    /** The start of stbds_hmdel_key: turns the slot of an entry into a tombstone. */
    method Remove(slot: nat, ghost keys: seq<K>)
      requires Valid(keys) && slot < slotCount && storage[slot].index >= 0
      modifies storage, `depth, `usedCount, `tombstoneCount
      ensures Valid(keys)
      ensures usedCount == old(usedCount) - 1 && tombstoneCount == old(tombstoneCount) + 1
      ensures depth.Keys == old(depth.Keys) - {old(storage[slot].index)}
    {
      ghost var st := storage[..];
      ghost var tomb := Lane(HASH_DELETED, INDEX_DELETED);
      assert LaneState(st[slot]);
      ChainedDelete(hashFn, st, keys, depth, slot);
      CountUpdate(st, slot, tomb, 1);
      CountUpdate(st, slot, tomb, 2);
      usedCount := usedCount - 1;
      tombstoneCount := tombstoneCount + 1;
      depth := depth - {storage[slot].index};
      storage[slot] := Lane(HASH_DELETED, INDEX_DELETED);
      assert storage[..] == st[slot := tomb];
    }

    /** When the deleted entry was the last one, dropping its key leaves the index valid. */
    lemma ForgetLast(keys: seq<K>)
      requires Valid(keys) && |keys| > 0 && |keys| - 1 !in depth
      ensures Valid(keys[..|keys| - 1])
    {
      ChainedKeys(hashFn, storage[..], keys, keys[..|keys| - 1], depth);
    }

    /** The swap delete's repair: the last entry now also lies at `oldIndex`; its slot is pointed there. */
    method MoveLast(keys: seq<K>, ghost keys0: seq<K>, oldIndex: nat)
      requires Valid(keys0) && HasRoom() && oldIndex < |keys0| - 1
      requires keys == keys0[oldIndex := keys0[|keys0| - 1]]
      requires forall e :: e in depth <==> 0 <= e < |keys0| && e != oldIndex
      requires forall e | 0 <= e < |keys0| - 1 :: keys0[e] != keys0[|keys0| - 1]
      modifies storage, `depth
      ensures Valid(keys[..|keys| - 1])
      ensures forall e :: e in depth <==> 0 <= e < |keys| - 1
    {
      hide Chained, Count, Reaches, At, Slot;
      ghost var st := storage[..];
      ghost var last := |keys0| - 1;
      ChainedKeys(hashFn, st, keys0, keys, depth);
      var slot := FindSlot(keys, keys[oldIndex]);
      assert last in depth && keys[last] == keys[oldIndex];
      assert st[slot] == storage[slot];
      LiveSlotIndexed(hashFn, st, keys, depth, slot);
      assert keys0[st[slot].index] == keys0[last];
      ChainedMove(hashFn, st, keys, depth, slot, oldIndex);
      CountUpdate(st, slot, st[slot].(index := oldIndex), 1);
      CountUpdate(st, slot, st[slot].(index := oldIndex), 2);
      storage[slot] := storage[slot].(index := oldIndex);
      depth := (depth - {last})[oldIndex := depth[last]];
      assert storage[..] == st[slot := st[slot].(index := oldIndex)];
      ChainedKeys(hashFn, storage[..], keys, keys[..last], depth);
    }

    /** stbds_hm_find_slot: the slot of an indexed entry with this key, or -1 when there is none. */
    method FindSlot(keys: seq<K>, key: K) returns (slot: int)
      requires Valid(keys) && HasRoom()
      ensures -1 <= slot < slotCount
      ensures slot >= 0 ==> 0 <= storage[slot].index < |keys| && keys[storage[slot].index] == key
      ensures slot < 0 ==> forall e | e in depth :: keys[e] != key
    {
      hide At, Slot;
      var hash := StoredHash(hashFn(key));
      ghost var st := storage[..];
      ghost var stop := ProbeStops(keys, hash);
      var pos := hash % slotCount;
      var step := 8;
      ghost var t := 0;
      FirstProbe(hash, slotCount);
      while true
        invariant pos == At(hash, 8 * t, slotCount) && step == 8 * (t + 1)
        invariant Missed(st, keys, key, hash, 8 * t)
        decreases stop - 8 * t
      {
        var lane := pos % 8;
        var done: bool;
        done, slot := ScanForKey(keys, key, hash, pos, lane, 8, t, 8 * t);
        if done { return; }
        done, slot := ScanForKey(keys, key, hash, pos, 0, lane, t, 8 * t + 8 - lane);
        if done { return; }
        NextRound(hash, t, slotCount);
        pos := (pos + step) % slotCount;
        step := step + 8;
        t := t + 1;
      }
    }

    /** Scans lanes `from` to `to` of the bucket at `pos`, stopping at the key or at a free slot. */
    method ScanForKey(keys: seq<K>, key: K, hash: nat, pos: nat, from: nat, to: nat, ghost t: nat, ghost n0: nat)
      returns (done: bool, slot: int)
      requires Valid(keys) && hash == StoredHash(hashFn(key))
      requires LaneRange(hash, pos, from, to, t, n0, slotCount) && Missed(storage[..], keys, key, hash, n0)
      ensures !done ==> Missed(storage[..], keys, key, hash, n0 + (to - from))
      ensures done ==> -1 <= slot < slotCount
      ensures done && slot >= 0 ==> 0 <= storage[slot].index < |keys| && keys[storage[slot].index] == key
      ensures done && slot < 0 ==> forall e | e in depth :: keys[e] != key
    {
      hide At, Slot;
      ghost var st := storage[..];
      var base := pos - pos % 8;
      var i := from;
      while i < to
        invariant from <= i <= to
        invariant Missed(st, keys, key, hash, n0 + (i - from))
      {
        LaneInRange(hash, pos, from, to, t, n0, slotCount, i);
        assert LaneState(st[base + i]);
        if storage[base + i].hash == hash {
          if keys[storage[base + i].index] == key {
            return true, base + i;
          }
        } else if storage[base + i].hash == HASH_EMPTY {
          MissedForGood(hashFn, st, keys, depth, key, n0 + (i - from));
          return true, -1;
        }
        i := i + 1;
      }
      return false, -1;
    }

    /**
     The probe loop of stbds_hmput_key. Either the key is found and `index` is its entry, or it is not
     indexed and `pos` is where it goes: the first tombstone passed, or else the free slot met.
     */
    method ProbeForPut(keys: seq<K>, key: K) returns (index: int, pos: nat, reuse: bool, ghost n: nat)
      requires Valid(keys) && HasRoom()
      ensures index >= 0 ==> index < |keys| && keys[index] == key
      ensures index < 0 ==>
                var hash := StoredHash(hashFn(key));
                && (forall e | e in depth :: keys[e] != key)
                && pos < slotCount && pos == At(hash, n, slotCount) && Reaches(storage[..], hash, n)
                && storage[pos].hash == (if reuse then HASH_DELETED else HASH_EMPTY)
    {
      hide At, Slot;
      var hash := StoredHash(hashFn(key));
      ghost var st := storage[..];
      ghost var stop := ProbeStops(keys, hash);
      pos := hash % slotCount;
      var step := 8;
      var tombstone := -1;
      var done: bool;
      var free: nat;
      ghost var tn := 0;
      ghost var t := 0;
      FirstProbe(hash, slotCount);
      while true
        invariant pos == At(hash, 8 * t, slotCount) && step == 8 * (t + 1)
        invariant Missed(st, keys, key, hash, 8 * t)
        invariant TombstoneSeen(st, hash, tombstone, tn)
        decreases stop - 8 * t
      {
        var lane := pos % 8;
        done, index, free, tombstone, tn, n := ScanForPut(keys, key, hash, pos, lane, 8, tombstone, tn, t, 8 * t);
        if !done {
          done, index, free, tombstone, tn, n :=
            ScanForPut(keys, key, hash, pos, 0, lane, tombstone, tn, t, 8 * t + 8 - lane);
        }
        if done {
          reuse := tombstone >= 0;
          if reuse { pos, n := tombstone, tn; } else { pos := free; }
          return;
        }
        NextRound(hash, t, slotCount);
        pos := (pos + step) % slotCount;
        step := step + 8;
        t := t + 1;
      }
    }

    /** As ScanForKey, remembering in `tombstone` the first deleted slot passed. */
    method ScanForPut(keys: seq<K>, key: K, hash: nat, pos: nat, from: nat, to: nat, tombstone0: int, ghost tn0: nat,
                      ghost t: nat, ghost n0: nat)
      returns (done: bool, index: int, free: nat, tombstone: int, ghost tn: nat, ghost n: nat)
      requires Valid(keys) && hash == StoredHash(hashFn(key))
      requires LaneRange(hash, pos, from, to, t, n0, slotCount) && Missed(storage[..], keys, key, hash, n0)
      requires TombstoneSeen(storage[..], hash, tombstone0, tn0)
      ensures TombstoneSeen(storage[..], hash, tombstone, tn)
      ensures !done ==> Missed(storage[..], keys, key, hash, n0 + (to - from))
      ensures done && index >= 0 ==> index < |keys| && keys[index] == key
      ensures done && index < 0 ==>
                && (forall e | e in depth :: keys[e] != key)
                && free < slotCount && free == At(hash, n, slotCount) && Reaches(storage[..], hash, n)
                && storage[free].hash == HASH_EMPTY
    {
      hide At, Slot;
      ghost var st := storage[..];
      tombstone, tn, free, n := tombstone0, tn0, 0, 0;
      var base := pos - pos % 8;
      var i := from;
      while i < to
        invariant from <= i <= to
        invariant Missed(st, keys, key, hash, n0 + (i - from))
        invariant TombstoneSeen(st, hash, tombstone, tn)
      {
        LaneInRange(hash, pos, from, to, t, n0, slotCount, i);
        assert LaneState(st[base + i]);
        if storage[base + i].hash == hash {
          if keys[storage[base + i].index] == key {
            done, index := true, storage[base + i].index;
            return;
          }
        } else if storage[base + i].hash == HASH_EMPTY {
          n := n0 + (i - from);
          MissedForGood(hashFn, st, keys, depth, key, n);
          done, index, free := true, -1, base + i;
          return;
        } else if tombstone < 0 {
          if storage[base + i].index == INDEX_DELETED {
            tombstone, tn := base + i, n0 + (i - from);
          }
        }
        i := i + 1;
      }
      done, index := false, -1;
    }
  }

  ghost predicate TombstoneSeen(st: seq<Lane>, hash: nat, tombstone: int, n: nat)
    requires |st| > 0 && |st| % 8 == 0
  {
    tombstone >= 0 ==>
      tombstone == At(hash, n, |st|) && st[tombstone].hash == HASH_DELETED && Reaches(st, hash, n)
  }

  /** The entries that live slots point at. */
  ghost function LiveEntries(st: seq<Lane>): set<nat> {
    if |st| == 0 then {}
    else
      LiveEntries(st[..|st| - 1]) + (if st[|st| - 1].index >= 0 then {st[|st| - 1].index} else {})
  }

  lemma {:induction false} LiveEntriesIn(st: seq<Lane>, e: nat)
    ensures e in LiveEntries(st) <==> exists s :: 0 <= s < |st| && st[s].index == e
  {
    var n := |st| - 1;
    if n >= 0 {
      LiveEntriesIn(st[..n], e);
      if e in LiveEntries(st[..n]) {
        var s :| 0 <= s < n && st[..n][s].index == e;
        assert st[s].index == e;
      }
      if s :| 0 <= s < |st| && st[s].index == e {
        if s < n { assert st[..n][s].index == e; }
      }
    }
  }

  lemma LiveEntriesAll<K>(f: K -> nat, st: seq<Lane>, keys: seq<K>, depth: map<nat, nat>)
    requires |st| > 0 && |st| % 8 == 0 && Chained(f, st, keys, depth)
    ensures LiveEntries(st) == depth.Keys
  {
    forall e: nat
      ensures e in LiveEntries(st) <==> e in depth
    {
      LiveEntriesIn(st, e);
      if e in depth {
        assert st[At(StoredHash(f(keys[e])), depth[e], |st|)].index == e;
      }
    }
  }

  lemma NextCounts(st: seq<Lane>, i: nat)
    requires i < |st| && LaneState(st[i])
    ensures Count(st[..i + 1], 2) == Count(st[..i], 2) + (if st[i].index >= 0 then 1 else 0)
    ensures Count(st[..i + 1], 2) <= Count(st, 2)
    ensures LiveEntries(st[..i + 1]) == LiveEntries(st[..i]) + (if st[i].index >= 0 then {st[i].index} else {})
  {
    assert st[..i + 1][..i] == st[..i];
    CountPrefix(st, i + 1);
  }

  /** Before slot i of the old table is copied, its entry is new and the free slots suffice for it. */
  lemma NextOldSlot<K>(f: K -> nat, st: seq<Lane>, keys: seq<K>, depth: map<nat, nat>, i: nat)
    requires |st| > 0 && |st| % 8 == 0 && Chained(f, st, keys, depth) && i < |st|
    ensures Count(st[..i + 1], 2) == Count(st[..i], 2) + (if st[i].index >= 0 then 1 else 0)
    ensures Count(st[..i + 1], 2) <= Count(st, 2)
    ensures LiveEntries(st[..i + 1]) == LiveEntries(st[..i]) + (if st[i].index >= 0 then {st[i].index} else {})
    ensures st[i].index >= 0 ==>
              st[i].index !in LiveEntries(st[..i]) && st[i].index < |keys|
                  && st[i].hash == StoredHash(f(keys[st[i].index]))
  {
    assert LaneState(st[i]);
    NextCounts(st, i);
    hide Count, LiveEntries, Reaches, Slot;
    if st[i].index >= 0 {
      var e := st[i].index;
      LiveEntriesIn(st[..i], e);
      assert st[At(StoredHash(f(keys[e])), depth[e], |st|)] == Lane(StoredHash(f(keys[e])), e);
    }
  }

  lemma {:induction false} CountPrefix(st: seq<Lane>, n: nat)
    requires n <= |st|
    ensures Count(st[..n], 2) <= Count(st, 2)
  {
    if n < |st| {
      CountPrefix(st[..|st| - 1], n);
      assert st[..|st| - 1][..n] == st[..n];
    } else {
      assert st[..n] == st;
    }
  }
}
