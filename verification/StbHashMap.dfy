/**
 The hash map of stb_ds in binary-key mode: a dense entry array, addressed through a hash index that
 is built on the first put and replaced whenever it grows, shrinks or is rebuilt.
 */
module StbHashMap {
  import opened Seqs
  import opened Probing
  import opened HashIndexes

  datatype Entry<K, V> = Entry(key: K, value: V)

  function Keys<K, V>(es: seq<Entry<K, V>>): (keys: seq<K>)
    ensures |keys| == |es| && forall i | 0 <= i < |es| :: keys[i] == es[i].key
  {
    seq(|es|, i requires 0 <= i < |es| => es[i].key)
  }

  /** The finite map a dense array stands for. */
  ghost function AsMap<K, V>(es: seq<Entry<K, V>>): map<K, V> {
    if |es| == 0 then map[]
    else AsMap(es[..|es| - 1])[es[|es| - 1].key := es[|es| - 1].value]
  }

  lemma {:induction false} AsMapHas<K, V>(es: seq<Entry<K, V>>, k: K)
    ensures k in AsMap(es) <==> exists i :: 0 <= i < |es| && es[i].key == k
    ensures Distinct(Keys(es)) ==> forall i | 0 <= i < |es| && es[i].key == k :: AsMap(es)[k] == es[i].value
  {
    var n := |es| - 1;
    if n >= 0 {
      AsMapHas(es[..n], k);
      if i :| 0 <= i < n && es[..n][i].key == k {
        assert es[i].key == k;
      }
      if Distinct(Keys(es)) {
        assert Keys(es[..n]) == Keys(es)[..n];
        forall i | 0 <= i < |es| && es[i].key == k
          ensures AsMap(es)[k] == es[i].value
        {
          if i < n {
            assert es[..n][i].key == k;
            assert Keys(es)[i] != Keys(es)[n];
          }
        }
      }
    }
  }

  lemma InMap<K, V>(es: seq<Entry<K, V>>, i: nat)
    requires Distinct(Keys(es)) && i < |es|
    ensures es[i].key in AsMap(es) && AsMap(es)[es[i].key] == es[i].value
  {
    AsMapHas(es, es[i].key);
  }

  lemma NotInMap<K, V>(es: seq<Entry<K, V>>, k: K)
    requires forall i | 0 <= i < |es| :: Keys(es)[i] != k
    ensures k !in AsMap(es)
  {
    AsMapHas(es, k);
    assert forall i | 0 <= i < |es| :: es[i].key == Keys(es)[i];
  }

  lemma KeysAppend<K, V>(es: seq<Entry<K, V>>, e: Entry<K, V>)
    requires Distinct(Keys(es)) && forall i | 0 <= i < |es| :: Keys(es)[i] != e.key
    ensures Keys(es + [e]) == Keys(es) + [e.key] && Distinct(Keys(es + [e]))
  {
    assert Keys(es + [e]) == Keys(es) + [e.key];
  }

  lemma AsMapLast<K, V>(es: seq<Entry<K, V>>)
    requires |es| > 0
    ensures AsMap(es) == AsMap(es[..|es| - 1])[es[|es| - 1].key := es[|es| - 1].value]
  {}

  lemma LastKeyFresh<K, V>(es: seq<Entry<K, V>>)
    requires Distinct(Keys(es)) && |es| > 0
    ensures var n := |es| - 1;
            && Distinct(Keys(es[..n])) && es[n].key !in AsMap(es[..n])
            && forall j | 0 <= j < n :: es[..n][j].key != es[n].key
  {
    var n := |es| - 1;
    var keys := Keys(es);
    assert Keys(es[..n]) == keys[..n];
    assert forall j | 0 <= j < n :: es[..n][j].key == keys[j] && keys[j] != keys[n];
    AsMapHas(es[..n], es[n].key);
  }

  /** Overwriting entry i, whose new key no other entry has, replaces its binding. */
  lemma {:induction false} AsMapReplace<K, V>(es: seq<Entry<K, V>>, i: nat, e: Entry<K, V>)
    requires Distinct(Keys(es)) && i < |es|
    requires forall j | 0 <= j < |es| && j != i :: es[j].key != e.key
    ensures AsMap(es[i := e]) == (AsMap(es) - {es[i].key})[e.key := e.value]
  {
    var n := |es| - 1;
    var init := es[..n];
    LastKeyFresh(es);
    if i == n {
      assert es[i := e][..n] == init;
    } else {
      assert es[i := e][..n] == init[i := e];
      AsMapReplace(init, i, e);
    }
  }

  /** Swap delete: the last entry takes the place of the removed one. */
  function SwapDelete<T>(s: seq<T>, i: nat): seq<T>
    requires i < |s|
  {
    s[i := s[|s| - 1]][..|s| - 1]
  }

  lemma SwapDeleteForm<T>(s: seq<T>, i: nat)
    requires i < |s|
    ensures SwapDelete(s, i) == if i == |s| - 1 then s[..|s| - 1] else s[..|s| - 1][i := s[|s| - 1]]
  {}

  lemma SwapDeleteDistinct<K>(keys: seq<K>, i: nat)
    requires Distinct(keys) && i < |keys|
    ensures Distinct(SwapDelete(keys, i))
  {
    SwapDeleteForm(keys, i);
  }

  lemma SwapDeleteKeys<K, V>(es: seq<Entry<K, V>>, i: nat)
    requires i < |es|
    ensures Keys(SwapDelete(es, i)) == SwapDelete(Keys(es), i)
  {}

  lemma AsMapSwapDelete<K, V>(es: seq<Entry<K, V>>, i: nat)
    requires Distinct(Keys(es)) && i < |es|
    ensures AsMap(SwapDelete(es, i)) == AsMap(es) - {es[i].key}
  {
    var n := |es| - 1;
    var init := es[..n];
    hide *;
    SwapDeleteForm(es, i);
    LastKeyFresh(es);
    AsMapLast(es);
    var gone, moved := es[i].key, es[n];
    if i == n {
      RemoveAdded(AsMap(init), moved.key, moved.value);
    } else {
      assert init[i] == es[i];
      assert SwapDelete(es, i) == init[i := moved];
      AsMapReplace(init, i, moved);
      RemoveThenAdd(AsMap(init), gone, moved.key, moved.value);
    }
  }

  lemma RemoveAdded<K, V>(m: map<K, V>, k: K, v: V)
    requires k !in m
    ensures m[k := v] - {k} == m
  {}

  lemma RemoveThenAdd<K, V>(m: map<K, V>, gone: K, k: K, v: V)
    requires gone != k
    ensures (m - {gone})[k := v] == m[k := v] - {gone}
  {}

  /** Adding the key when it is new and then storing the value sets the binding. */
  lemma PutModel<K, V>(es0: seq<Entry<K, V>>, es: seq<Entry<K, V>>, temp: nat, fill: V, e: Entry<K, V>)
    requires Distinct(Keys(es)) && temp < |es| && es[temp].key == e.key
    requires es == if e.key in AsMap(es0) then es0 else es0 + [Entry(e.key, fill)]
    ensures Keys(es[temp := e]) == Keys(es)
    ensures AsMap(es[temp := e]) == AsMap(es0)[e.key := e.value]
  {
    assert forall j | 0 <= j < |es| && j != temp :: Keys(es)[j] == es[j].key != e.key;
    AsMapReplace(es, temp, e);
    hide AsMap;
    if e.key !in AsMap(es0) {
      AsMapLast(es);
      assert es[..|es| - 1] == es0;
    }
    RemoveThenReplace(AsMap(es), e.key, e.value);
  }

  lemma RemoveThenReplace<K, V>(m: map<K, V>, k: K, v: V)
    ensures (m - {k})[k := v] == m[k := v]
  {}

  class HashMap<K(==), V> {
    const hashFn: K -> nat
    var table: HashIndex?<K>
    var entries: seq<Entry<K, V>>  // the dense array after its default element
    var fallback: V                // the value of the default element

    ghost function Footprint(): set<object>
      reads this, table
    {
      {this} + if table == null then {} else {table, table.storage}
    }

    ghost predicate Valid()
      reads Footprint()
    {
      && Distinct(Keys(entries))
      && (table == null ==> entries == [])
      && (table != null ==>
            && table.Valid(Keys(entries)) && table.hashFn == hashFn
            && (forall e :: e in table.depth <==> 0 <= e < |entries|)
            && table.usedCount == |entries|
            && table.usedCount <= table.usedCountThreshold
            && table.tombstoneCount <= table.tombstoneCountThreshold)
    }

    /** The finite map this hash map stands for. */
    ghost function Model(): map<K, V>
      reads this
    {
      AsMap(entries)
    }

    constructor (f: K -> nat, default: V)
      ensures Valid() && Model() == map[] && fallback == default && hashFn == f
      ensures fresh(Footprint())
    {
      hashFn := f;
      table := null;
      entries := [];
      fallback := default;
    }

    /** stbds_hmget_key: the position of the key's entry, or -1. */
    method GetIndex(key: K) returns (temp: int)
      requires Valid()
      ensures key in Model() ==> 0 <= temp < |entries| && entries[temp].key == key
      ensures key !in Model() ==> temp == -1
    {
      hide Chained, Count, At, Slot, AsMap;
      if table == null {
        NotInMap(entries, key);
        return -1;
      }
      var slot := table.FindSlot(Keys(entries), key);
      if slot < 0 {
        assert forall e | 0 <= e < |entries| :: e in table.depth && Keys(entries)[e] != key;
        NotInMap(entries, key);
        return -1;
      }
      InMap(entries, table.storage[slot].index);
      return table.storage[slot].index;
    }

    method Get(key: K) returns (value: V)
      requires Valid()
      ensures value == if key in Model() then Model()[key] else fallback
    {
      var temp := GetIndex(key);
      AsMapHas(entries, key);
      value := if temp == -1 then fallback else entries[temp].value;
    }

    /** The growth step of stbds_hmput_key. */
    method EnsureRoom()
      requires Valid()
      modifies this`table
      ensures Valid() && table != null && table.usedCount < table.usedCountThreshold
      ensures table == old(table) || fresh({table, table.storage})
      ensures table.slotCount == if old(table) == null then 8
                                 else if |entries| >= old(table).usedCountThreshold then 2 * old(table).slotCount
                                 else old(table).slotCount
    {
      if table == null {
        assert 8 == 8 * Pow2(0);
        table := new HashIndex<K>.Fresh(8, hashFn, Keys(entries));
      } else if table.usedCount >= table.usedCountThreshold {
        SlotCountDoubles(table.slotCount);
        table := new HashIndex<K>.From(2 * table.slotCount, table, Keys(entries));
      }
    }

    /** stbds_hmput_key: the position of the key's entry, added at the end when there was none. */
    method PutKey(key: K, uninitialised: V) returns (temp: nat)
      requires Valid()
      modifies Footprint()
      ensures Valid() && fresh(Footprint() - old(Footprint()))
      ensures fallback == old(fallback)
      ensures temp < |entries| && entries[temp].key == key
      ensures entries == if key in old(Model()) then old(entries) else old(entries) + [Entry(key, uninitialised)]
    {
      hide Chained, Count, At, Slot, AsMap, Distinct;
      EnsureRoom();
      ghost var keys := Keys(entries);
      var index, pos, reuse, n := table.ProbeForPut(Keys(entries), key);
      if index >= 0 {
        InMap(entries, index);
        return index;
      }
      assert forall e | 0 <= e < |entries| :: e in table.depth && keys[e] != key;
      NotInMap(entries, key);
      temp := |entries|;
      Append(key, uninitialised, pos, reuse, n);
    }

    /** The new-key branch of stbds_hmput_key, from the slot its probe loop settled on. */
    method Append(key: K, uninitialised: V, pos: nat, reuse: bool, ghost n: nat)
      requires Valid() && table != null && table.usedCount < table.usedCountThreshold
      requires forall e | 0 <= e < |entries| :: Keys(entries)[e] != key
      requires pos < table.slotCount && table.storage[pos].hash == (if reuse then HASH_DELETED else HASH_EMPTY)
      requires pos == At(StoredHash(hashFn(key)), n, table.slotCount)
      requires Reaches(table.storage[..], StoredHash(hashFn(key)), n)
      modifies this`entries, table, table.storage
      ensures Valid() && table == old(table)
      ensures entries == old(entries) + [Entry(key, uninitialised)]
    {
      hide Chained, Count, At, Slot, AsMap, Distinct, Reaches;
      ghost var keys := Keys(entries);
      KeysAppend(entries, Entry(key, uninitialised));
      table.Insert(key, pos, |entries|, reuse, n, keys);
      entries := entries + [Entry(key, uninitialised)];
    }

    /** hmput(t, k, v) */
    method Put(key: K, value: V)
      requires Valid()
      modifies Footprint()
      ensures Valid() && fresh(Footprint() - old(Footprint()))
      ensures Model() == old(Model())[key := value] && fallback == old(fallback)
    {
      hide Chained, Count, At, Slot, AsMap, Distinct, Keys;
      var temp := PutKey(key, fallback);
      ghost var es := entries;
      entries := entries[temp := Entry(key, value)];
      PutModel(old(entries), es, temp, fallback, Entry(key, value));
    }

    /**
     hmdel(t, k): removes the key's entry, moving the last entry into its place, and then shrinks or
     rebuilds the index. True when the key was there.
     */
    method Delete(key: K) returns (deleted: bool)
      requires Valid()
      modifies Footprint()
      ensures Valid() && fresh(Footprint() - old(Footprint()))
      ensures Model() == old(Model()) - {key} && fallback == old(fallback)
      ensures deleted == (key in old(Model()))
    {
      hide Chained, Count, At, Slot, AsMap, SwapDelete;
      if table == null {
        NotInMap(entries, key);
        return false;
      }
      ghost var keys := Keys(entries);
      var slot := table.FindSlot(Keys(entries), key);
      if slot < 0 {
        assert forall e | 0 <= e < |entries| :: e in table.depth && keys[e] != key;
        NotInMap(entries, key);
        return false;
      }
      InMap(entries, table.storage[slot].index);
      AsMapSwapDelete(entries, table.storage[slot].index);
      RemoveEntry(slot);
      TrimIndex();
      return true;
    }

    /** The middle of stbds_hmdel_key: the swap delete of the entry whose slot was found. */
    method RemoveEntry(slot: nat)
      requires Valid() && table != null && slot < table.slotCount && 0 <= table.storage[slot].index < |entries|
      modifies this`entries, table, table.storage
      ensures entries == SwapDelete(old(entries), old(table.storage[slot].index))
      ensures table.Valid(Keys(entries)) && Distinct(Keys(entries))
      ensures forall e :: e in table.depth <==> 0 <= e < |entries|
      ensures table.usedCount == |entries| <= table.usedCountThreshold
    {
      hide Chained, Count, At, Slot, SwapDelete;
      ghost var keys := Keys(entries);
      var oldIndex := table.storage[slot].index;
      var finalIndex := |entries| - 1;
      SwapDeleteForm(entries, oldIndex);
      SwapDeleteKeys(entries, oldIndex);
      SwapDeleteDistinct(keys, oldIndex);
      table.Remove(slot, keys);
      if oldIndex != finalIndex {
        entries := entries[oldIndex := entries[finalIndex]];
        table.MoveLast(Keys(entries), keys, oldIndex);
      } else {
        table.ForgetLast(keys);
      }
      assert Keys(entries[..finalIndex]) == Keys(entries)[..finalIndex];
      entries := entries[..finalIndex];
    }

    /** The end of stbds_hmdel_key: shrinks a sparse index, or rebuilds one with many tombstones. */
    method TrimIndex()
      requires table != null && table.Valid(Keys(entries)) && table.hashFn == hashFn
      requires Distinct(Keys(entries)) && (forall e :: e in table.depth <==> 0 <= e < |entries|)
      requires table.usedCount == |entries| <= table.usedCountThreshold
      modifies this`table
      ensures Valid() && table != null && (table == old(table) || fresh({table, table.storage}))
      ensures var sparse := |entries| < old(table).usedCountShrinkThreshold && old(table).slotCount > 8;
              && table.slotCount == (if sparse then old(table).slotCount / 2 else old(table).slotCount)
              && (sparse || old(table.tombstoneCount) > old(table).tombstoneCountThreshold <==> table != old(table))
              && (table != old(table) ==> table.tombstoneCount == 0)
    {
      hide Chained, Count, At, Slot;
      if table.usedCount < table.usedCountShrinkThreshold && table.slotCount > 8 {
        SlotCountDoubles(table.slotCount);
        table := new HashIndex<K>.From(table.slotCount / 2, table, Keys(entries));
      } else if table.tombstoneCount > table.tombstoneCountThreshold {
        table := new HashIndex<K>.From(table.slotCount, table, Keys(entries));
      }
    }

    /** hmlen(t) */
    method Length() returns (n: nat)
      requires Valid()
      ensures n == |Model()|
    {
      AsMapSize(entries);
      return |entries|;
    }
  }

  lemma {:induction false} AsMapSize<K, V>(es: seq<Entry<K, V>>)
    requires Distinct(Keys(es))
    ensures |AsMap(es)| == |es|
  {
    var n := |es| - 1;
    if n >= 0 {
      LastKeyFresh(es);
      AsMapSize(es[..n]);
    }
  }

  datatype Op<K, V> = PutOp(key: K, value: V) | GetOp(key: K) | DeleteOp(key: K)

  datatype Answer<V> = Stored | Found(value: V) | Deleted(wasThere: bool)

  function Apply<K, V>(op: Op<K, V>, m: map<K, V>): map<K, V> {
    match op
    case PutOp(k, v) => m[k := v]
    case GetOp(_) => m
    case DeleteOp(k) => m - {k}
  }

  function AnswerOf<K, V>(op: Op<K, V>, m: map<K, V>, fallback: V): Answer<V> {
    match op
    case PutOp(_, _) => Stored
    case GetOp(k) => Found(if k in m then m[k] else fallback)
    case DeleteOp(k) => Deleted(k in m)
  }

  /** The map a finite map has become after a run of operations. */
  function After<K, V>(ops: seq<Op<K, V>>): map<K, V> {
    if |ops| == 0 then map[] else Apply(ops[|ops| - 1], After(ops[..|ops| - 1]))
  }

  lemma AfterStep<K, V>(ops: seq<Op<K, V>>, i: nat)
    requires i < |ops|
    ensures After(ops[..i + 1]) == Apply(ops[i], After(ops[..i]))
  {
    assert ops[..i + 1][..i] == ops[..i];
  }

  method Perform<K(==), V>(t: HashMap<K, V>, op: Op<K, V>) returns (a: Answer<V>)
    requires t.Valid()
    modifies t.Footprint()
    ensures t.Valid() && fresh(t.Footprint() - old(t.Footprint()))
    ensures t.Model() == Apply(op, old(t.Model())) && t.fallback == old(t.fallback)
    ensures a == AnswerOf(op, old(t.Model()), t.fallback)
  {
    match op {
      case PutOp(k, v) =>
        t.Put(k, v);
        a := Stored;
      case GetOp(k) =>
        var v := t.Get(k);
        a := Found(v);
      case DeleteOp(k) =>
        var d := t.Delete(k);
        a := Deleted(d);
    }
  }

  /**
   Whole runs: for every hash function and every sequence of operations on a new hash map, each answer
   is the one the finite map gives at that point, and the length at the end is the finite map's.
   */
  method Run<K(==), V>(f: K -> nat, fallback: V, ops: seq<Op<K, V>>) returns (answers: seq<Answer<V>>, length: nat)
    ensures |answers| == |ops|
    ensures forall i | 0 <= i < |ops| :: answers[i] == AnswerOf(ops[i], After(ops[..i]), fallback)
    ensures length == |After(ops)|
  {
    hide Apply, AnswerOf, HashMap.Model, HashMap.Valid;
    var t := new HashMap<K, V>(f, fallback);
    answers := [];
    assert ops[..0] == [];
    for i := 0 to |ops|
      invariant t.Valid() && fresh(t.Footprint()) && t.fallback == fallback
      invariant t.Model() == After(ops[..i])
      invariant |answers| == i
      invariant forall j | 0 <= j < i :: answers[j] == AnswerOf(ops[j], After(ops[..j]), fallback)
    {
      AfterStep(ops, i);
      var a := Perform(t, ops[i]);
      answers := answers + [a];
    }
    assert ops[..|ops|] == ops;
    length := t.Length();
  }
}
