/**
 * What the hash table of src/lib/hashtable/hashtable.c promises: every
 * insert is counted where lookup reads, other keys are left alone, the
 * switch to the map restarts the counts of the inline keys, and the
 * rolling hash separates the keys its own test uses.
 */
module HashProps {
  import opened Options
  import opened Bytes
  import opened HashSpec

  /** "foobar" and "fubar" as bytes. */
  const FOOBAR: seq<Byte> := [102, 111, 111, 98, 97, 114]
  const FUBAR: seq<Byte> := [102, 117, 98, 97, 114]

  /** One step of the rolling hash in unbounded integers, with no wrap-around. */
  function PlainStep(acc: (nat, nat), k: Byte): (nat, nat)
  {
    (acc.0 + (acc.0 + k * acc.1) % M, acc.1 * P % M)
  }

  /** The rolling hash in unbounded integers. */
  function PlainOn(acc: (nat, nat), key: seq<Byte>): (nat, nat)
    decreases |key|
  {
    if key == [] then acc else PlainOn(PlainStep(acc, key[0]), key[1..])
  }

  /** A product below 256 times the modulus: a byte times a power already reduced modulo M. */
  lemma ByteTimesPower(k: Byte, e: nat)
    requires e < M
    ensures k * e < 256 * M
  {
    assert k * e <= 255 * e;
  }

  /** While the running hash is far enough below 2^64, a step of `basic_hash` does not wrap. */
  lemma StepNoWrap(acc: (nat, nat), k: Byte)
    requires acc.0 + 256 * M <= WORD && acc.1 < M
    ensures RollStep(acc, k) == PlainStep(acc, k)
    ensures PlainStep(acc, k).0 < acc.0 + M && PlainStep(acc, k).1 < M
  {
    ByteTimesPower(k, acc.1);
    ByteTimesPower(P, acc.1);
    var x := acc.0 + k * acc.1;
    assert x % WORD == x;
    var y := acc.0 + x % M;
    assert y < WORD;
    assert y % WORD == y;
    var z := acc.1 * P;
    assert z % WORD == z;
  }

  /**
   * The unsigned long arithmetic of `basic_hash` never wraps for keys of
   * fewer than about 2^34 bytes: each byte adds less than M to the hash.
   */
  lemma {:induction false} RollNeverWraps(acc: (nat, nat), key: seq<Byte>)
    requires acc.1 < M && acc.0 + (|key| + 256) * M <= WORD
    ensures RollOn(acc, key) == PlainOn(acc, key)
    ensures RollOn(acc, key).0 <= acc.0 + |key| * M
    decreases |key|
  {
    if key != [] {
      StepNoWrap(acc, key[0]);
      RollNeverWraps(RollStep(acc, key[0]), key[1..]);
    }
  }

  /** The first step of the unbounded rolling hash, taken with its value given. */
  lemma PlainCons(acc: (nat, nat), key: seq<Byte>, a1: (nat, nat))
    requires key != [] && a1 == PlainStep(acc, key[0])
    ensures PlainOn(acc, key) == PlainOn(a1, key[1..])
  {
  }

  /** Three steps of the unbounded rolling hash, taken with their values given. */
  lemma PlainThree(acc: (nat, nat), key: seq<Byte>, a1: (nat, nat), a2: (nat, nat), a3: (nat, nat))
    requires |key| >= 3 && a1 == PlainStep(acc, key[0]) && a2 == PlainStep(a1, key[1]) && a3 == PlainStep(a2, key[2])
    ensures PlainOn(acc, key) == PlainOn(a3, key[3..])
  {
    PlainCons(acc, key, a1);
    PlainCons(a1, key[1..], a2);
    assert key[1..][1..] == key[2..];
    PlainCons(a2, key[2..], a3);
    assert key[2..][1..] == key[3..];
  }

  /** The first 3 bytes of FOOBAR. */
  lemma FoobarHead()
    ensures PlainOn((0, 1), FOOBAR) == PlainOn((113961, 29791), FOOBAR[3..])
  {
    PlainThree((0, 1), FOOBAR, (102, 31), (3645, 961), (113961, 29791));
  }

  /** The remaining bytes of FOOBAR. */
  lemma FoobarTail()
    ensures PlainOn((113961, 29791), FOOBAR[3..]) == (455476021, 887503681)
  {
    PlainThree((113961, 29791), FOOBAR[3..], (3147440, 923521), (95876417, 28629151), (455476021, 887503681));
    assert FOOBAR[3..][3..] == [];
  }

  lemma FoobarRoll()
    ensures PlainOn((0, 1), FOOBAR) == (455476021, 887503681)
  {
    FoobarHead();
    FoobarTail();
  }

  /** The first 3 bytes of FUBAR. */
  lemma FubarHead()
    ensures PlainOn((0, 1), FUBAR) == PlainOn((101840, 29791), FUBAR[3..])
  {
    PlainThree((0, 1), FUBAR, (102, 31), (3831, 961), (101840, 29791));
  }

  /** The remaining bytes of FUBAR. */
  lemma FubarTail()
    ensures PlainOn((101840, 29791), FUBAR[3..]) == (111468208, 28629151)
  {
    PlainCons((101840, 29791), FUBAR[3..], (3093407, 923521));
    assert FUBAR[3..][1..] == FUBAR[4..];
    PlainCons((3093407, 923521), FUBAR[4..], (111468208, 28629151));
    assert FUBAR[4..][1..] == FUBAR[5..];
    assert FUBAR[5..] == [];
  }

  lemma FubarRoll()
    ensures PlainOn((0, 1), FUBAR) == (111468208, 28629151)
  {
    FubarHead();
    FubarTail();
  }

  /** The rolling hash gives "foobar" and "fubar" different 16-bit values. */
  lemma RollingHashSeparates()
    ensures BasicHash(FOOBAR) == 821 && BasicHash(FUBAR) == 57008
    ensures BasicHash(FOOBAR) != BasicHash(FUBAR)
  {
    RollNeverWraps((0, 1), FOOBAR);
    RollNeverWraps((0, 1), FUBAR);
    FoobarRoll();
    FubarRoll();
  }

  /** A candidate for the first inline bucket holding `key` that has the characterising properties is the one the scan finds. */
  lemma FindInternalIs(t: Table, key: seq<Byte>, r: Option<nat>)
    requires t.numInternal <= |t.internal|
    requires r.Some? ==> r.value < t.numInternal && Holds(t.internal[r.value], key)
    requires r.Some? ==> forall j :: 0 <= j < r.value ==> !Holds(t.internal[j], key)
    requires r.None? ==> forall j :: 0 <= j < t.numInternal ==> !Holds(t.internal[j], key)
    ensures FindInternal(t, key) == r
  {
  }

  /**
   * `__hash_insert` in the map phase: unless it aborts, the key's slot
   * counts one more insert, `unique` grows exactly when the slot was empty
   * and `hits` otherwise, and no other slot changes. It aborts exactly when
   * the slot holds a bucket whose key disagrees with this one.
   */
  lemma SlowInsertCounts(jhash: seq<Byte> -> nat, t: Table, key: seq<Byte>)
    requires Wf(t) && t.numInternal > NUM_INTERNAL
    ensures var r, h := SlowInsertResult(jhash, t, key), JenkinsHash(jhash, key);
      && (r.None? <==> t.slots[h].Some? && !Agrees(t.slots[h].value.key, key))
      && (r.Some? ==>
            && Wf(r.value) && r.value.numInternal == t.numInternal && r.value.internal == t.internal
            && Seen(jhash, r.value, key) == Seen(jhash, t, key) + 1
            && r.value.unique == t.unique + (if Seen(jhash, t, key) == 0 then 1 else 0)
            && r.value.hits == t.hits + (if Seen(jhash, t, key) == 0 then 0 else 1)
            && forall g :: 0 <= g < MAP_SLOTS && g != h ==> r.value.slots[g] == t.slots[g])
  {
  }

  /** A run of `__hash_insert`s in the map phase keeps the table well formed and the map phase on. */
  lemma {:induction false} SlowInsertAllWf(jhash: seq<Byte> -> nat, t: Table, keys: seq<seq<Byte>>)
    requires Wf(t) && t.numInternal > NUM_INTERNAL
    ensures var r := SlowInsertAll(jhash, t, keys);
      r.Some? ==> Wf(r.value) && r.value.numInternal == t.numInternal
    decreases |keys|
  {
    if keys != [] {
      SlowInsertAllWf(jhash, t, keys[..|keys| - 1]);
      var r1 := SlowInsertAll(jhash, t, keys[..|keys| - 1]);
      if r1.Some? {
        SlowInsertCounts(jhash, r1.value, keys[|keys| - 1]);
      }
    }
  }

  /** Once a run of `__hash_insert`s has aborted, the run of any longer list of keys has aborted too. */
  lemma {:induction false} SlowInsertAllAborts(jhash: seq<Byte> -> nat, t: Table, keys: seq<seq<Byte>>, n: nat)
    requires |t.slots| == MAP_SLOTS && n <= |keys| && SlowInsertAll(jhash, t, keys[..n]).None?
    ensures SlowInsertAll(jhash, t, keys).None?
    decreases |keys| - n
  {
    if n < |keys| {
      assert keys[..n + 1][..n] == keys[..n];
      SlowInsertAllAborts(jhash, t, keys, n + 1);
    } else {
      assert keys[..n] == keys;
    }
  }

  /**
   * `hash_insert` counts: unless an assertion aborts, the table stays well
   * formed, lookup of the key afterwards gives a positive count, and,
   * except on the switch to the map, that count is one more than before,
   * with `unique` growing for a key not seen before and `hits` otherwise.
   * At most four inline buckets are ever recorded as in use.
   */
  lemma InsertCounts(jhash: seq<Byte> -> nat, t: Table, key: seq<Byte>)
    requires Wf(t) && InsertResult(jhash, t, key).Some?
    ensures var u := InsertResult(jhash, t, key).value;
      && Wf(u) && u.numInternal <= NUM_INTERNAL + 1
      && Seen(jhash, u, key) >= 1
      && LookupAnswer(jhash, u, key) == Count(Int32(Seen(jhash, u, key)))
      && (t.numInternal <= NUM_INTERNAL ==> u.numInternal == t.numInternal + (if Seen(jhash, t, key) == 0 then 1 else 0))
      && (!Promotes(t, key) ==>
            && Seen(jhash, u, key) == Seen(jhash, t, key) + 1
            && u.unique == t.unique + (if Seen(jhash, t, key) == 0 then 1 else 0)
            && u.hits == t.hits + (if Seen(jhash, t, key) == 0 then 0 else 1))
  {
    var u := InsertResult(jhash, t, key).value;
    if t.numInternal > NUM_INTERNAL {
      SlowInsertCounts(jhash, t, key);
    } else {
      var f := FindInternal(t, key);
      if f.Some? {
        FindInternalIs(u, key, f);
      } else if t.numInternal < NUM_INTERNAL {
        FindInternalIs(u, key, Some(t.numInternal));
      } else {
        var t0 := t.(numInternal := NUM_INTERNAL + 1);
        var keys := InternalKeys(t.internal) + [key];
        assert keys[..|keys| - 1] == InternalKeys(t.internal);
        SlowInsertAllWf(jhash, t0, InternalKeys(t.internal));
        var t1 := SlowInsertAll(jhash, t0, InternalKeys(t.internal)).value;
        SlowInsertCounts(jhash, t1, key);
      }
    }
  }

  /**
   * `hash_insert` while the inline buckets are in use and not full or the
   * key is held: the bucket holding the key, or else the next free one,
   * now holds the key with one more count, and no other bucket or slot
   * changes.
   */
  lemma InsertInline(jhash: seq<Byte> -> nat, t: Table, key: seq<Byte>)
    requires Wf(t) && t.numInternal <= NUM_INTERNAL && !Promotes(t, key)
    ensures InsertResult(jhash, t, key).Some?
    ensures var u, f := InsertResult(jhash, t, key).value, FindInternal(t, key);
      var i := if f.Some? then f.value else t.numInternal;
      && i < NUM_INTERNAL && u.internal[i] == Some(Bucket(key, Seen(jhash, t, key) + 1))
      && (forall j :: 0 <= j < NUM_INTERNAL && j != i ==> u.internal[j] == t.internal[j])
      && u.slots == t.slots
  {
  }

  /**
   * Inserting one key leaves what lookup gives for any other key, when the
   * two keys do not share a map slot in the map phase and the insert is
   * not the switch to the map.
   */
  lemma InsertKeepsOthers(jhash: seq<Byte> -> nat, t: Table, key: seq<Byte>, other: seq<Byte>)
    requires Wf(t) && InsertResult(jhash, t, key).Some? && !Promotes(t, key) && other != key
    requires t.numInternal > NUM_INTERNAL ==> JenkinsHash(jhash, other) != JenkinsHash(jhash, key)
    ensures LookupAnswer(jhash, InsertResult(jhash, t, key).value, other) == LookupAnswer(jhash, t, other)
  {
    var u := InsertResult(jhash, t, key).value;
    if t.numInternal <= NUM_INTERNAL {
      var f := FindInternal(t, other);
      if FindInternal(t, key).Some? {
        FindInternalIs(u, other, f);
      } else {
        assert !Holds(u.internal[t.numInternal], other);
        FindInternalIs(u, other, f);
      }
    }
  }

  /**
   * The switch to the map, when the four keys fall in four different
   * slots: the map then holds each inline key and the new key with count 1,
   * whatever the inline counts were, `unique` grows by four although only
   * one key is new, and `hits` is unchanged.
   */
  lemma PromotionRestartsCounts(jhash: seq<Byte> -> nat, t: Table, key: seq<Byte>)
    requires Wf(t) && Promotes(t, key)
    requires var ks := InternalKeys(t.internal) + [key];
      forall i, j :: 0 <= i < j < |ks| ==> JenkinsHash(jhash, ks[i]) != JenkinsHash(jhash, ks[j])
    ensures InsertResult(jhash, t, key).Some?
    ensures var u, ks := InsertResult(jhash, t, key).value, InternalKeys(t.internal) + [key];
      && u.numInternal == NUM_INTERNAL + 1 && u.unique == t.unique + 4 && u.hits == t.hits
      && forall i :: 0 <= i < |ks| ==> u.slots[JenkinsHash(jhash, ks[i])] == Some(Bucket(ks[i], 1))
  {
    var ks := InternalKeys(t.internal) + [key];
    var t0 := t.(numInternal := NUM_INTERNAL + 1);
    assert ks[..4][..3] == ks[..3] && ks[..3][..2] == ks[..2] && ks[..2][..1] == ks[..1];
    assert ks[..4] == ks;
    var h0, h1, h2, h3 := JenkinsHash(jhash, ks[0]), JenkinsHash(jhash, ks[1]), JenkinsHash(jhash, ks[2]), JenkinsHash(jhash, ks[3]);
    var t1 := SlowInsertResult(jhash, t0, ks[0]).value;
    assert SlowInsertAll(jhash, t0, ks[..1]) == Some(t1);
    var t2 := SlowInsertResult(jhash, t1, ks[1]).value;
    assert SlowInsertAll(jhash, t0, ks[..2]) == Some(t2);
    var t3 := SlowInsertResult(jhash, t2, ks[2]).value;
    assert SlowInsertAll(jhash, t0, ks[..3]) == Some(t3);
    var t4 := SlowInsertResult(jhash, t3, ks[3]).value;
    assert SlowInsertAll(jhash, t0, ks) == Some(t4);
    assert t4.slots[h0] == Some(Bucket(ks[0], 1)) && t4.slots[h1] == Some(Bucket(ks[1], 1));
    assert t4.slots[h2] == Some(Bucket(ks[2], 1)) && t4.slots[h3] == Some(Bucket(ks[3], 1));
  }

  /** The table's own test: one insert into a new table, then lookup, gives 1. */
  lemma InsertThenLookupOne(jhash: seq<Byte> -> nat)
    ensures InsertResult(jhash, EmptyTable(), FOOBAR).Some?
    ensures LookupAnswer(jhash, InsertResult(jhash, EmptyTable(), FOOBAR).value, FOOBAR) == Count(1)
  {
    var t := EmptyTable();
    FindInternalIs(t, FOOBAR, None);
    InsertCounts(jhash, t, FOOBAR);
  }
}
