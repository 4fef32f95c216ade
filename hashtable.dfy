/**
 * The counting hash table of src/lib/hashtable/hashtable.c in place: the
 * table's inline buckets and its map are arrays, its counters are fields,
 * and every operation is proved to move the table exactly as the functions
 * of HashSpec say.
 */
module HashTable {
  import opened Options
  import opened Bytes
  import opened HashSpec
  import opened HashProps

  /**
   * `basic_hash`: the rolling hash of the key's bytes, with the unsigned
   * long arithmetic of the source, cut to 16 bits.
   */
  method BasicHashLoop(key: seq<Byte>) returns (r: nat)
    ensures r == BasicHash(key) && r < MAP_SLOTS
  {
    var h: nat, exp: nat := 0, 1;
    var i := 0;
    while i < |key|
      invariant i <= |key|
      invariant RollOn((h, exp), key[i..]) == RollOn((0, 1), key)
    {
      assert key[i..][1..] == key[i + 1..];
      h := (h + (h + key[i] * exp) % WORD % M) % WORD;
      exp := exp * P % WORD % M;
      i := i + 1;
    }
    r := h % MAP_SLOTS;
  }

  /** The larger of two counts. */
  function Max(a: nat, b: nat): (r: nat)
    ensures r >= a && r >= b && (r == a || r == b)
  {
    if a >= b then a else b
  }

  /** The process-wide `num_unique_entries`: the most distinct keys any table has held. */
  class Stats {
    var numUniqueEntries: nat

    constructor ()
      ensures numUniqueEntries == 0
    {
      numUniqueEntries := 0;
    }

    /** `update_unique`: raise the recorded maximum to `entries` when it is larger. */
    method UpdateUnique(entries: nat)
      modifies this
      ensures numUniqueEntries == Max(old(numUniqueEntries), entries)
    {
      if entries > numUniqueEntries {
        numUniqueEntries := entries;
      }
    }
  }

  /**
   * What `num_unique_entries` is after an operation that took a table's
   * `unique` from `before` to `after`: raised to `after` when it grew.
   */
  function Recorded(prior: nat, before: nat, after: nat): nat
  {
    if after == before then prior else Max(prior, after)
  }

  /**
   * `struct hashtable`: the inline buckets, the map of `1 << 16` bucket
   * pointers (None for NULL), `num_internal`, `unique` and `hits`. A bucket
   * holds its key by value. The hash the map is indexed by is `jhash`.
   */
  class Hashtable {
    const jhash: seq<Byte> -> nat
    const bucket: array<Option<Bucket>>
    const slots: array<Option<Bucket>>
    var numInternal: nat
    var unique: nat
    var hits: nat

    /** The table as a value. */
    function State(): Table
      reads this, bucket, slots
    {
      Table(bucket[..], slots[..], numInternal, unique, hits)
    }

    /** The two arrays are distinct. */
    ghost predicate Shape()
      reads this
    {
      bucket != slots
    }

    ghost predicate Valid()
      reads this, bucket, slots
    {
      Shape() && Wf(State())
    }

    /** `alloc_table`: a zeroed table and a zeroed map. */
    constructor (jhash: seq<Byte> -> nat)
      ensures Valid() && State() == EmptyTable() && this.jhash == jhash
      ensures fresh(bucket) && fresh(slots)
    {
      this.jhash := jhash;
      bucket := new Option<Bucket>[NUM_INTERNAL](_ => None);
      slots := new Option<Bucket>[MAP_SLOTS](_ => None);
      numInternal, unique, hits := 0, 0, 0;
      new;
      assert State().internal == EmptyTable().internal;
      assert State().slots == EmptyTable().slots;
    }

    /**
     * The scan of the inline buckets in use that both `hash_insert` and
     * `hash_lookup` perform: the first bucket whose key has the same
     * length and the same bytes. A bucket in use always has a key, so the
     * scans' NULL-key branches are never taken.
     */
    method Find(key: seq<Byte>) returns (r: Option<nat>)
      requires Valid() && numInternal <= NUM_INTERNAL
      ensures r == FindInternal(State(), key)
    {
      var i := 0;
      while i < numInternal
        invariant i <= numInternal && ScanFrom(State(), key, i) == ScanFrom(State(), key, 0)
      {
        var b := bucket[i];
        if b.None? {
          assert false;
        }
        if |key| == |b.value.key| && b.value.key == key {
          return Some(i);
        }
        i := i + 1;
      }
      r := None;
    }

    /**
     * `__hash_insert`: the key's slot in the map gets a new zeroed bucket
     * for the key, counted as unique, or counts a hit on the bucket there;
     * either way the bucket's count grows by one. `ok` is false where the
     * assertion that the stored key agrees with this one fails and the
     * program aborts.
     */
    method SlowInsert(key: seq<Byte>, stats: Stats) returns (ok: bool)
      requires Shape() && slots.Length == MAP_SLOTS
      modifies this, slots, stats
      ensures ok == SlowInsertResult(jhash, old(State()), key).Some?
      ensures ok ==> State() == SlowInsertResult(jhash, old(State()), key).value
      ensures ok ==> stats.numUniqueEntries == Recorded(old(stats.numUniqueEntries), old(unique), unique)
      ensures unchanged(bucket)
    {
      var h := JenkinsHash(jhash, key);
      var b: Bucket;
      if slots[h].None? {
        b := Bucket(key, 0);
        unique := unique + 1;
        stats.UpdateUnique(unique);
      } else {
        hits := hits + 1;
        b := slots[h].value;
        if !Agrees(b.key, key) {
          return false;
        }
      }
      slots[h] := Some(b.(count := b.count + 1));
      ok := true;
    }

    /**
     * The switch to the map in `hash_insert`: `__hash_insert` of the key of
     * each inline bucket in turn, stopping at the first abort.
     */
    method Promote(stats: Stats) returns (ok: bool)
      requires Shape() && slots.Length == MAP_SLOTS && bucket.Length == NUM_INTERNAL
      requires bucket[0].Some? && bucket[1].Some? && bucket[2].Some?
      modifies this, slots, stats
      ensures ok == SlowInsertAll(jhash, old(State()), InternalKeys(old(bucket[..]))).Some?
      ensures ok ==> State() == SlowInsertAll(jhash, old(State()), InternalKeys(old(bucket[..]))).value
      ensures ok ==> stats.numUniqueEntries == Recorded(old(stats.numUniqueEntries), old(unique), unique)
      ensures ok ==> unique >= old(unique)
      ensures unchanged(bucket)
    {
      ghost var t0, ks := State(), InternalKeys(bucket[..]);
      var i := 0;
      while i < NUM_INTERNAL
        invariant i <= NUM_INTERNAL && unchanged(bucket)
        invariant SlowInsertAll(jhash, t0, ks[..i]) == Some(State())
        invariant stats.numUniqueEntries == Recorded(old(stats.numUniqueEntries), t0.unique, unique)
        invariant unique >= t0.unique
      {
        assert ks[..i + 1][..i] == ks[..i];
        ok := SlowInsert(bucket[i].value.key, stats);
        if !ok {
          SlowInsertAllAborts(jhash, t0, ks, i + 1);
          return;
        }
        i := i + 1;
      }
      assert ks[..NUM_INTERNAL] == ks;
      ok := true;
    }

    /**
     * `hash_insert`: while the inline buckets are in use, count a hit on
     * the bucket holding the key or give the key the next free bucket; a
     * fourth distinct key switches the table to the map, then every insert
     * is `__hash_insert`. `ok` is false where an assertion aborts.
     */
    method Insert(key: seq<Byte>, stats: Stats) returns (ok: bool)
      requires Valid()
      modifies this, bucket, slots, stats
      ensures ok == InsertResult(jhash, old(State()), key).Some?
      ensures ok ==> Valid() && State() == InsertResult(jhash, old(State()), key).value
      ensures ok ==> stats.numUniqueEntries == Recorded(old(stats.numUniqueEntries), old(unique), unique)
    {
      ghost var t := State();
      if numInternal <= NUM_INTERNAL {
        var f := Find(key);
        if f.Some? {
          var b := bucket[f.value].value;
          bucket[f.value] := Some(b.(count := b.count + 1));
          hits := hits + 1;
          assert State() == InsertResult(jhash, t, key).value;
          InsertCounts(jhash, t, key);
          return true;
        }
        if numInternal < NUM_INTERNAL {
          bucket[numInternal] := Some(Bucket(key, 1));
          numInternal := numInternal + 1;
          unique := unique + 1;
          stats.UpdateUnique(unique);
          assert State() == InsertResult(jhash, t, key).value;
          InsertCounts(jhash, t, key);
          return true;
        }
        numInternal := NUM_INTERNAL + 1;
        ghost var ks := InternalKeys(bucket[..]);
        assert (ks + [key])[..NUM_INTERNAL] == ks;
        ok := Promote(stats);
        if !ok {
          return;
        }
      }
      ok := SlowInsert(key, stats);
      if ok {
        InsertCounts(jhash, t, key);
      }
    }

    /**
     * `hash_lookup`: in the map phase, the count of the bucket in the key's
     * slot, or a NULL dereference when there is none; otherwise the count of
     * the inline bucket holding the key, or -1.
     */
    method Lookup(key: seq<Byte>) returns (r: Answer)
      requires Valid()
      ensures r == LookupAnswer(jhash, State(), key)
    {
      if numInternal > NUM_INTERNAL {
        var b := slots[JenkinsHash(jhash, key)];
        if b.None? {
          return NullDeref;
        }
        return Count(Int32(b.value.count));
      }
      var f := Find(key);
      if f.None? {
        return Count(-1);
      }
      r := Count(Int32(bucket[f.value].value.count));
    }
  }
}
