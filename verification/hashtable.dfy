/** The open-addressing `HashTable` of ht.h.

    The table is an array of slots, each empty or holding an item with a
    `deleted` flag (a tombstone when set). `insert` walks the probe sequence
    of the key and stops at the first slot that is empty or holds the key
    live; deleted slots are passed over and never reused. `remove` only sets
    the flag. When `size + deletedCount >= alpha * capacity` holds before a
    placement, `resize` moves to the next capacity of a fixed ladder and
    re-inserts every live item through `insert`.

    The abstract value of a table is the ghost map `contents` from keys to
    values; `Valid()` ties it to the slots. The central invariant is that
    every live item sits exactly where the probe walk of its key first
    stops (`FirstStop`), which is what makes lookups find it. */
module HashTables {
  import opened Util
  import opened Probers

  /** The capacity ladder. */
  const CAPACITIES: seq<nat> := [
    11, 23, 47, 97, 197, 397, 797, 1597, 3203, 6421, 12853, 25717, 51437, 102877,
    205759, 411527, 823117, 1646237, 3292489, 6584983, 13169977, 26339969,
    52679969, 105359969, 210719881, 421439783, 842879579, 1685759167
  ]

  lemma CapacitiesAscend()
    ensures StrictlyIncreasing(CAPACITIES)
    ensures forall i :: 0 <= i < |CAPACITIES| ==> CAPACITIES[0] <= CAPACITIES[i]
  {
    assert AdjacentIncreasing(CAPACITIES);
    AdjacentMakesStrict(CAPACITIES);
  }

  /** Each step up the ladder is to a larger capacity. */
  lemma CapacityGrows(i: nat, j: nat)
    requires i < j < |CAPACITIES|
    ensures CAPACITIES[0] <= CAPACITIES[i] < CAPACITIES[j]
  {
    CapacitiesAscend();
  }

  /** A slot of the table: the C++ `nullptr`, or a `HashItem`. */
  datatype Slot<K, V> = Empty | Item(key: K, value: V, deleted: bool)

  predicate IsLive<K, V>(slot: Slot<K, V>)
  {
    slot.Item? && !slot.deleted
  }

  predicate IsDeleted<K, V>(slot: Slot<K, V>)
  {
    slot.Item? && slot.deleted
  }

  /** The probe walk for `key` ends at this slot: it is empty, or it holds
      `key` and is not deleted. */
  predicate Stops<K(==), V>(slot: Slot<K, V>, key: K)
  {
    slot.Empty? || (slot.Item? && !slot.deleted && slot.key == key)
  }

  /** The exceptions of ht.h: `logic_error("HashTable full")`,
      `logic_error("No more capacity")` and `out_of_range("Bad key")`. */
  datatype TableError = TableFull | NoMoreCapacity | BadKey

  datatype Result<T> = Success(value: T) | Failure(error: TableError)

  ghost predicate SubMap<K, V>(a: map<K, V>, b: map<K, V>)
  {
    forall k :: k in a ==> k in b && a[k] == b[k]
  }

  // ---------------------------------------------------------------------
  // Counting slots
  // ---------------------------------------------------------------------

  function CountLive<K, V>(s: seq<Slot<K, V>>): nat
  {
    if |s| == 0 then 0
    else CountLive(s[..|s| - 1]) + (if IsLive(s[|s| - 1]) then 1 else 0)
  }

  function CountDeleted<K, V>(s: seq<Slot<K, V>>): nat
  {
    if |s| == 0 then 0
    else CountDeleted(s[..|s| - 1]) + (if IsDeleted(s[|s| - 1]) then 1 else 0)
  }

  /** Replacing one slot changes each count by what leaves and what enters. */
  lemma {:induction false} CountUpdate<K, V>(s: seq<Slot<K, V>>, p: nat, x: Slot<K, V>)
    requires p < |s|
    ensures CountLive(s[p := x])
         == CountLive(s) - (if IsLive(s[p]) then 1 else 0) + (if IsLive(x) then 1 else 0)
    ensures CountDeleted(s[p := x])
         == CountDeleted(s) - (if IsDeleted(s[p]) then 1 else 0) + (if IsDeleted(x) then 1 else 0)
  {
    var n := |s|;
    var t := s[p := x];
    if p == n - 1 {
      assert t[..n - 1] == s[..n - 1];
    } else {
      assert t[..n - 1] == s[..n - 1][p := x];
      CountUpdate(s[..n - 1], p, x);
    }
  }

  /** Live and deleted slots together never outnumber the slots. */
  lemma {:induction false} CountBound<K, V>(s: seq<Slot<K, V>>)
    ensures CountLive(s) + CountDeleted(s) <= |s|
  {
    if |s| > 0 {
      CountBound(s[..|s| - 1]);
    }
  }

  /** Fewer live and deleted slots than slots leaves an empty slot. */
  lemma {:induction false} EmptySlotExists<K, V>(s: seq<Slot<K, V>>) returns (e: nat)
    requires CountLive(s) + CountDeleted(s) < |s|
    ensures e < |s| && s[e].Empty?
  {
    var n := |s|;
    if s[n - 1].Empty? {
      e := n - 1;
    } else {
      e := EmptySlotExists(s[..n - 1]);
    }
  }

  lemma {:induction false} CountAllEmpty<K, V>(s: seq<Slot<K, V>>)
    requires forall p :: 0 <= p < |s| ==> s[p].Empty?
    ensures CountLive(s) == 0 && CountDeleted(s) == 0
  {
    if |s| > 0 {
      CountAllEmpty(s[..|s| - 1]);
    }
  }

  /** Counting the live slots of a growing prefix. */
  lemma {:induction false} CountLivePrefix<K, V>(s: seq<Slot<K, V>>, i: nat)
    requires i < |s|
    ensures CountLive(s[..i + 1]) == CountLive(s[..i]) + (if IsLive(s[i]) then 1 else 0)
    ensures CountLive(s[..i + 1]) <= CountLive(s)
    decreases |s| - i
  {
    assert s[..i + 1][..i] == s[..i];
    if i + 1 < |s| {
      CountLivePrefix(s, i + 1);
    } else {
      assert s[..i + 1] == s;
    }
  }

  /** The live items of `s` are exactly the entries of `c`. */
  ghost predicate Mirrors<K, V>(s: seq<Slot<K, V>>, c: map<K, V>)
  {
    && (forall p {:trigger IsLive(s[p])} :: 0 <= p < |s| && IsLive(s[p]) ==> s[p].key in c && c[s[p].key] == s[p].value)
    && (forall k :: k in c ==> exists p :: 0 <= p < |s| && s[p] == Item(k, c[k], false))
  }

  /** The same live items describe the same map. */
  lemma MirrorsDetermine<K, V>(s: seq<Slot<K, V>>, c1: map<K, V>, c2: map<K, V>)
    requires Mirrors(s, c1) && Mirrors(s, c2)
    ensures c1 == c2
  {
    forall k | k in c1
      ensures k in c2 && c2[k] == c1[k]
    {
      var p :| 0 <= p < |s| && s[p] == Item(k, c1[k], false);
      assert IsLive(s[p]);
    }
    forall k | k in c2
      ensures k in c1
    {
      var p :| 0 <= p < |s| && s[p] == Item(k, c2[k], false);
      assert IsLive(s[p]);
    }
  }

  /** Live keys of `s` occur once. */
  ghost predicate UniqueLiveKeys<K, V>(s: seq<Slot<K, V>>)
  {
    forall p, q {:trigger IsLive(s[p]), IsLive(s[q])} ::
      0 <= p < |s| && 0 <= q < |s| && IsLive(s[p]) && IsLive(s[q]) && s[p].key == s[q].key ==> p == q
  }

  /** The map of the live items of `s`, later slots taking precedence. */
  function LiveMap<K, V>(s: seq<Slot<K, V>>): map<K, V>
  {
    if |s| == 0 then map[]
    else if IsLive(s[|s| - 1]) then LiveMap(s[..|s| - 1])[s[|s| - 1].key := s[|s| - 1].value]
    else LiveMap(s[..|s| - 1])
  }

  /** Growing a prefix by one slot. */
  lemma LiveMapPrefix<K, V>(s: seq<Slot<K, V>>, i: nat)
    requires i < |s|
    ensures LiveMap(s[..i + 1])
         == if IsLive(s[i]) then LiveMap(s[..i])[s[i].key := s[i].value] else LiveMap(s[..i])
  {
    assert s[..i + 1][..i] == s[..i];
  }

  /** With unique live keys, `LiveMap` is the map the slots mirror. */
  lemma {:induction false} LiveMapMirrors<K, V>(s: seq<Slot<K, V>>)
    requires UniqueLiveKeys(s)
    ensures Mirrors(s, LiveMap(s))
  {
    if |s| > 0 {
      var n := |s| - 1;
      var init := s[..n];
      var c := LiveMap(init);
      assert UniqueLiveKeys(init) by {
        forall p, q | 0 <= p < |init| && 0 <= q < |init| && IsLive(init[p]) && IsLive(init[q]) && init[p].key == init[q].key
          ensures p == q
        {
          assert IsLive(s[p]) && IsLive(s[q]);
        }
      }
      LiveMapMirrors(init);
      if IsLive(s[n]) {
        var key := s[n].key;
        var c' := c[key := s[n].value];
        forall p | 0 <= p < |s| && IsLive(s[p])
          ensures s[p].key in c' && c'[s[p].key] == s[p].value
        {
          if p < n {
            assert IsLive(init[p]);
            assert s[p].key != key by {
              assert IsLive(s[p]) && IsLive(s[n]);
            }
          }
        }
        forall k | k in c'
          ensures exists p :: 0 <= p < |s| && s[p] == Item(k, c'[k], false)
        {
          if k == key {
            assert s[n] == Item(k, c'[k], false);
          } else {
            var p :| 0 <= p < |init| && init[p] == Item(k, c[k], false);
            assert s[p] == Item(k, c'[k], false);
          }
        }
      } else {
        forall p | 0 <= p < |s| && IsLive(s[p])
          ensures s[p].key in c && c[s[p].key] == s[p].value
        {
          assert IsLive(init[p]);
        }
        forall k | k in c
          ensures exists p :: 0 <= p < |s| && s[p] == Item(k, c[k], false)
        {
          var p :| 0 <= p < |init| && init[p] == Item(k, c[k], false);
          assert s[p] == Item(k, c[k], false);
        }
      }
    }
  }

  /** Rebuilding from the slots of `s` one slot at a time: the live items
      of a prefix form part of the map of all of `s`, and the next live
      slot brings a key not seen before. */
  lemma RebuildStep<K, V>(s: seq<Slot<K, V>>, c0: map<K, V>, i: nat)
    requires Mirrors(s, c0) && UniqueLiveKeys(s)
    requires i <= |s|
    ensures i < |s| && IsLive(s[i]) ==> s[i].key !in LiveMap(s[..i])
    ensures SubMap(LiveMap(s[..i]), c0)
  {
    var init := s[..i];
    var c := LiveMap(init);
    assert UniqueLiveKeys(init) by {
      forall p, q | 0 <= p < |init| && 0 <= q < |init| && IsLive(init[p]) && IsLive(init[q]) && init[p].key == init[q].key
        ensures p == q
      {
        assert IsLive(s[p]) && IsLive(s[q]);
      }
    }
    LiveMapMirrors(init);
    forall k | k in c
      ensures k in c0 && c0[k] == c[k]
    {
      var p :| 0 <= p < i && init[p] == Item(k, c[k], false);
      assert IsLive(s[p]);
    }
    if i < |s| && IsLive(s[i]) {
      forall p | 0 <= p < i && IsLive(init[p])
        ensures init[p].key != s[i].key
      {
        assert IsLive(s[p]) && IsLive(s[i]);
      }
    }
  }

  /** All of `s` gives back the map it mirrors. */
  lemma RebuildComplete<K, V>(s: seq<Slot<K, V>>, c0: map<K, V>)
    requires Mirrors(s, c0) && UniqueLiveKeys(s)
    ensures LiveMap(s) == c0
  {
    LiveMapMirrors(s);
    MirrorsDetermine(s, LiveMap(s), c0);
  }

  lemma SubMapTransitive<K, V>(a: map<K, V>, b: map<K, V>, c: map<K, V>)
    requires SubMap(a, b) && SubMap(b, c)
    ensures SubMap(a, c)
  {
  }

  // ---------------------------------------------------------------------
  // Load factor
  // ---------------------------------------------------------------------

  /** The check at the top of `insert`, made before the new item is placed
      and without counting it: `(size + deletedCount) / capacity >= alpha`,
      taken as an exact comparison of rationals. */
  function NeedsResize(live: nat, deleted: nat, capacity: nat, alpha: real): (fires: bool)
    ensures capacity > 0 ==> (fires <==> (live + deleted) as real / capacity as real >= alpha)
  {
    (live + deleted) as real >= alpha * capacity as real
  }

  /** Re-inserting `live` items into a fresh table of `capacity` slots
      never reaches the resize threshold on the way. */
  predicate RebuildFits(live: nat, capacity: nat, alpha: real)
  {
    live == 0 || !NeedsResize(live - 1, 0, capacity, alpha)
  }

  /** Below a threshold of at most 1 some slot is still unused. */
  lemma BelowThresholdLeavesRoom(live: nat, deleted: nat, capacity: nat, alpha: real)
    requires alpha <= 1.0
    requires !NeedsResize(live, deleted, capacity, alpha)
    ensures live + deleted < capacity
  {
    assert (1.0 - alpha) * capacity as real >= 0.0;
  }

  /** While a rebuild that fits has not yet placed its last item, the
      table stays below the threshold. */
  lemma RebuildStaysBelow(placed: nat, live: nat, capacity: nat, alpha: real)
    requires placed < live
    requires RebuildFits(live, capacity, alpha)
    ensures !NeedsResize(placed, 0, capacity, alpha)
  {
  }

  /** With `alpha` of 0.4 and capacity 11 the fifth distinct key is placed
      without growing (4 < 4.4) and the sixth one triggers growth first
      (5 >= 4.4); the rebuild into 23 slots needs no second growth. */
  lemma LoadCheckAtFirstCapacity()
    ensures !NeedsResize(4, 0, CAPACITIES[0], 0.4)
    ensures NeedsResize(5, 0, CAPACITIES[0], 0.4)
    ensures RebuildFits(5, CAPACITIES[1], 0.4)
  {
  }

  // ---------------------------------------------------------------------
  // Probers as the table's template argument
  // ---------------------------------------------------------------------

  /** Which prober a table is built with. */
  datatype ProbeStrategy<!K> = LinearProbing | DoubleHashing(h2: K -> nat)

  /** The table's own prober object, reinitialised by every operation. */
  datatype Prober<K> = Linear(lp: LinearProber) | DoubleHash(dp: DoubleHashProber<K>)
  {
    function Repr(): set<object>
    {
      match this
      case Linear(lp) => {lp}
      case DoubleHash(dp) => {dp}
    }
  }

  /** The i-th candidate slot the prober yields for `key` from `start`. */
  function ProbeLoc<K>(prober: Prober<K>, key: K, start: nat, m: nat, i: nat): (loc: nat)
    requires m > 0
    ensures loc < m
  {
    match prober
    case Linear(_) => LinearLoc(start, m, i)
    case DoubleHash(dp) => DoubleHashLoc(start, Step(dp.h2(key), m), m, i)
  }

  // ---------------------------------------------------------------------
  // The table
  // ---------------------------------------------------------------------

  class HashTable<K(==,!new), V> {
    var table: array<Slot<K, V>>
    const alpha: real
    const hash: K -> nat
    const prober: Prober<K>
    var mIndex: nat
    var size: nat
    var deletedCount: nat
    ghost var contents: map<K, V>

    /** The j-th slot the walk for `key` visits in a table of `m` slots. */
    ghost function Path(key: K, m: nat, j: nat): (loc: nat)
      requires m > 0
      ensures loc < m
    {
      ProbeLoc(prober, key, hash(key) % m, m, j)
    }

    /** Where the probe walk for `key`, resumed at probe `j`, ends: the
        first visited slot that is empty or holds `key` live; `None` when
        the sequence is exhausted first. */
    ghost function FirstStop(s: seq<Slot<K, V>>, key: K, j: nat): (r: Option<nat>)
      requires |s| > 0
      ensures r.Some? ==> r.value < |s| && Stops(s[r.value], key)
      decreases |s| - j
    {
      if j >= |s| then None
      else if Stops(s[Path(key, |s|, j)], key) then Some(Path(key, |s|, j))
      else FirstStop(s, key, j + 1)
    }

    /** Some key's probe walk over `s` runs out without stopping: the state
        in which `insert` reports "HashTable full". */
    ghost predicate SomeWalkRunsOut(s: seq<Slot<K, V>>)
    {
      |s| > 0 && exists k :: FirstStop(s, k, 0) == None
    }

    /** The slots agree with the map `c`: each live item is where its key's
        walk stops and carries the key's value, and each key of `c` has a
        live item. */
    ghost predicate SlotsOk(s: seq<Slot<K, V>>, c: map<K, V>)
    {
      && |s| > 0
      && (forall p {:trigger IsLive(s[p])} :: 0 <= p < |s| && IsLive(s[p]) ==> FirstStop(s, s[p].key, 0) == Some(p))
      && Mirrors(s, c)
    }

    ghost predicate Valid()
      reads this, table
    {
      && this !in prober.Repr() && table !in prober.Repr()
      && mIndex < |CAPACITIES|
      && table.Length == CAPACITIES[mIndex]
      && CAPACITIES[0] <= table.Length
      && SlotsOk(table[..], contents)
      && size == CountLive(table[..])
      && deletedCount == CountDeleted(table[..])
      && size == |contents|
    }

    // --- facts about the probe walk ---------------------------------------

    /** A table of empty slots holds the empty map. */
    lemma EmptySlotsOk(s: seq<Slot<K, V>>)
      requires |s| > 0 && forall p :: 0 <= p < |s| ==> s[p].Empty?
      ensures SlotsOk(s, map[]) && CountLive(s) == 0 && CountDeleted(s) == 0
    {
      CountAllEmpty(s);
    }

    /** Changing one slot keeps the end of a walk when the walk still stops
        at its old end and a slot it passed over is still passed over. */
    lemma {:induction false} StopPreserved(s: seq<Slot<K, V>>, key: K, j: nat, e: nat, x: Slot<K, V>)
      requires |s| > 0 && e < |s|
      requires FirstStop(s, key, j).Some?
      requires e == FirstStop(s, key, j).value ==> Stops(x, key)
      requires e != FirstStop(s, key, j).value && !Stops(s[e], key) ==> !Stops(x, key)
      ensures FirstStop(s[e := x], key, j) == FirstStop(s, key, j)
      decreases |s| - j
    {
      var p := Path(key, |s|, j);
      if !Stops(s[p], key) {
        StopPreserved(s, key, j + 1, e, x);
      }
    }

    /** An exhausted walk passed over every slot it visited. */
    lemma {:induction false} ExhaustedPassesAll(s: seq<Slot<K, V>>, key: K, j: nat, i: nat)
      requires |s| > 0
      requires FirstStop(s, key, j) == None
      requires j <= i < |s|
      ensures !Stops(s[Path(key, |s|, i)], key)
      decreases i - j
    {
      if j < i {
        ExhaustedPassesAll(s, key, j + 1, i);
      }
    }

    /** With linear probing the walk visits every slot, so an empty slot
        anywhere ends it. */
    lemma LinearWalkStops(s: seq<Slot<K, V>>, key: K, e: nat)
      requires prober.Linear?
      requires e < |s| && s[e].Empty?
      ensures FirstStop(s, key, 0).Some?
    {
      if FirstStop(s, key, 0) == None {
        var i := LinearProbeIndexOf(hash(key) % |s|, |s|, e);
        ExhaustedPassesAll(s, key, 0, i);
        assert false;
      }
    }

    /** Live keys are unique. */
    lemma LiveKeysUnique(s: seq<Slot<K, V>>, c: map<K, V>, p: nat, q: nat)
      requires SlotsOk(s, c)
      requires p < |s| && q < |s| && IsLive(s[p]) && IsLive(s[q]) && s[p].key == s[q].key
      ensures p == q
    {
    }

    lemma SlotsOkUnique(s: seq<Slot<K, V>>, c: map<K, V>)
      requires SlotsOk(s, c)
      ensures UniqueLiveKeys(s) && Mirrors(s, c) && |s| > 0
    {
      forall p, q | 0 <= p < |s| && 0 <= q < |s| && IsLive(s[p]) && IsLive(s[q]) && s[p].key == s[q].key
        ensures p == q
      {
        LiveKeysUnique(s, c, p, q);
      }
    }

    /** What the walk finds says whether the key is in the map. */
    lemma WalkFindsContents(s: seq<Slot<K, V>>, c: map<K, V>, key: K)
      requires SlotsOk(s, c)
      ensures key in c ==>
                FirstStop(s, key, 0).Some? && s[FirstStop(s, key, 0).value] == Item(key, c[key], false)
      ensures key !in c ==> FirstStop(s, key, 0).None? || s[FirstStop(s, key, 0).value].Empty?
    {
      if key in c {
        var p :| 0 <= p < |s| && s[p] == Item(key, c[key], false);
        assert IsLive(s[p]);
      } else if FirstStop(s, key, 0).Some? {
        var q := FirstStop(s, key, 0).value;
        assert !IsLive(s[q]);
      }
    }

    /** Filling the empty slot where the walk for a new key stops. */
    lemma PlaceKeepsSlotsOk(s: seq<Slot<K, V>>, c: map<K, V>, key: K, value: V, e: nat)
      requires SlotsOk(s, c)
      requires FirstStop(s, key, 0) == Some(e) && s[e].Empty?
      ensures key !in c
      ensures SlotsOk(s[e := Item(key, value, false)], c[key := value])
    {
      WalkFindsContents(s, c, key);
      var x := Item(key, value, false);
      var t := s[e := x];
      forall p | 0 <= p < |t| && IsLive(t[p])
        ensures FirstStop(t, t[p].key, 0) == Some(p)
      {
        StopPreserved(s, t[p].key, 0, e, x);
      }
      var c' := c[key := value];
      forall k | k in c'
        ensures exists p :: 0 <= p < |t| && t[p] == Item(k, c'[k], false)
      {
        if k == key {
          assert t[e] == Item(k, c'[k], false);
        } else {
          var p :| 0 <= p < |s| && s[p] == Item(k, c[k], false);
          assert t[p] == Item(k, c'[k], false);
        }
      }
    }

    /** Overwriting the value of the live item where the walk stops. */
    lemma OverwriteKeepsSlotsOk(s: seq<Slot<K, V>>, c: map<K, V>, key: K, value: V, e: nat)
      requires SlotsOk(s, c)
      requires e < |s| && IsLive(s[e]) && s[e].key == key
      ensures key in c
      ensures SlotsOk(s[e := Item(key, value, false)], c[key := value])
    {
      var x := Item(key, value, false);
      var t := s[e := x];
      forall p | 0 <= p < |t| && IsLive(t[p])
        ensures FirstStop(t, t[p].key, 0) == Some(p)
      {
        if p != e {
          if s[p].key == key {
            LiveKeysUnique(s, c, p, e);
          }
        }
        StopPreserved(s, t[p].key, 0, e, x);
      }
      forall p | 0 <= p < |t| && IsLive(t[p])
        ensures t[p].key in c[key := value] && c[key := value][t[p].key] == t[p].value
      {
        if p != e && s[p].key == key {
          LiveKeysUnique(s, c, p, e);
        }
      }
      var c' := c[key := value];
      forall k | k in c'
        ensures exists p :: 0 <= p < |t| && t[p] == Item(k, c'[k], false)
      {
        if k == key {
          assert t[e] == Item(k, c'[k], false);
        } else {
          var p :| 0 <= p < |s| && s[p] == Item(k, c[k], false);
          assert t[p] == Item(k, c'[k], false);
        }
      }
    }

    /** Turning the live item of `key` into a tombstone. */
    lemma TombstoneKeepsSlotsOk(s: seq<Slot<K, V>>, c: map<K, V>, e: nat)
      requires SlotsOk(s, c)
      requires e < |s| && IsLive(s[e])
      ensures s[e].key in c
      ensures SlotsOk(s[e := s[e].(deleted := true)], c - {s[e].key})
    {
      var key := s[e].key;
      var x := s[e].(deleted := true);
      var t := s[e := x];
      forall p | 0 <= p < |t| && IsLive(t[p])
        ensures FirstStop(t, t[p].key, 0) == Some(p)
      {
        if s[p].key == key {
          LiveKeysUnique(s, c, p, e);
        }
        StopPreserved(s, t[p].key, 0, e, x);
      }
      forall p | 0 <= p < |t| && IsLive(t[p])
        ensures t[p].key in c - {key} && (c - {key})[t[p].key] == t[p].value
      {
        if s[p].key == key {
          LiveKeysUnique(s, c, p, e);
        }
      }
      forall k | k in c - {key}
        ensures exists p :: 0 <= p < |t| && t[p] == Item(k, (c - {key})[k], false)
      {
        var p :| 0 <= p < |s| && s[p] == Item(k, c[k], false);
        assert t[p] == Item(k, (c - {key})[k], false);
      }
    }

    // --- construction and observers -----------------------------------

    /** A table at the first capacity with every slot empty. */
    constructor (alpha: real, strategy: ProbeStrategy<K>, hash: K -> nat)
      ensures Valid()
      ensures this.alpha == alpha && this.hash == hash
      ensures prober.Linear? <==> strategy.LinearProbing?
      ensures strategy.DoubleHashing? ==> prober.DoubleHash? && prober.dp.h2 == strategy.h2
      ensures fresh(table) && fresh(prober.Repr())
      ensures mIndex == 0 && size == 0 && deletedCount == 0 && contents == map[]
    {
      this.alpha := alpha;
      this.hash := hash;
      match strategy {
        case LinearProbing =>
          var lp := new LinearProber();
          prober := Linear(lp);
        case DoubleHashing(h2) =>
          var dp := new DoubleHashProber(h2);
          prober := DoubleHash(dp);
      }
      var slots := new Slot<K, V>[CAPACITIES[0]](_ => Empty);
      table := slots;
      mIndex, size, deletedCount := 0, 0, 0;
      contents := map[];
      new;
      CountAllEmpty(table[..]);
    }

    /** `size()`: the number of live entries. */
    function Size(): (n: nat)
      reads this, table
      requires Valid()
      ensures n == |contents|
      ensures n == CountLive(table[..])
    {
      size
    }

    /** `empty()`: true exactly when no key is present. */
    function IsEmpty(): (b: bool)
      reads this, table
      requires Valid()
      ensures b <==> contents == map[]
    {
      size == 0
    }

    // --- the prober ------------------------------------------------------

    /** The prober has been initialised for `key` at `start` in a table of
        `m` slots and has handed out `n` candidates. */
    ghost predicate ProberAt(key: K, start: nat, m: nat, n: nat)
      reads prober.Repr()
    {
      match prober
      case Linear(lp) => lp.start == start && lp.m == m && lp.numProbes == n
      case DoubleHash(dp) =>
        dp.start == start && dp.m == m && dp.numProbes == n && dp.step == Step(dp.h2(key), m)
    }

    /** `prober_.init(start, m, key)`. */
    method ProbeInit(start: nat, m: nat, key: K)
      modifies prober.Repr()
      ensures ProberAt(key, start, m, 0)
    {
      match prober {
        case Linear(lp) => lp.Init(start, m);
        case DoubleHash(dp) => dp.Init(start, m, key);
      }
    }

    /** `prober_.next()`. */
    method ProbeNext(ghost key: K, ghost start: nat, ghost m: nat, ghost n: nat) returns (loc: Option<nat>)
      requires ProberAt(key, start, m, n)
      modifies prober.Repr()
      ensures n < m ==> loc == Some(ProbeLoc(prober, key, start, m, n)) && ProberAt(key, start, m, n + 1)
      ensures m <= n ==> loc == None && ProberAt(key, start, m, n)
    {
      match prober {
        case Linear(lp) => loc := lp.Next();
        case DoubleHash(dp) => loc := dp.Next();
      }
    }

    // --- lookups ---------------------------------------------------------

    /** `probe`: the first slot on the walk for `key` that is empty or holds
        `key` live, or `None` when the probe sequence runs out. */
    method Probe(key: K) returns (loc: Option<nat>)
      requires Valid()
      modifies prober.Repr()
      ensures loc == FirstStop(table[..], key, 0)
    {
      var m := table.Length;
      var h0 := hash(key) % m;
      assert table !in prober.Repr() && this !in prober.Repr();
      ProbeInit(h0, m, key);
      loc := ProbeNext(key, h0, m, 0);
      ghost var j: nat := 0;
      while loc.Some?
        invariant j <= m
        invariant loc.Some? ==> j < m && loc.value == Path(key, m, j)
        invariant loc.None? ==> j == m
        invariant ProberAt(key, h0, m, if loc.Some? then j + 1 else j)
        invariant FirstStop(table[..], key, 0) == FirstStop(table[..], key, j)
        decreases m - j
      {
        var p := loc.value;
        if table[p].Empty? {
          return;
        }
        if !table[p].deleted && table[p].key == key {
          return;
        }
        j := j + 1;
        loc := ProbeNext(key, h0, m, j);
      }
    }

    /** `internalFind`: the index of the live item holding `key`. */
    method InternalFind(key: K) returns (hi: Option<nat>)
      requires Valid()
      modifies prober.Repr()
      ensures hi.Some? <==> key in contents
      ensures hi.Some? ==> hi.value < table.Length && table[hi.value] == Item(key, contents[key], false)
      ensures hi.Some? ==> FirstStop(table[..], key, 0) == Some(hi.value)
    {
      var h := Probe(key);
      WalkFindsContents(table[..], contents, key);
      if h.None? || table[h.value].Empty? {
        return None;
      }
      var item := table[h.value];
      if !item.deleted && item.key == key {
        return h;
      }
      return None;
    }

    /** `find`: the stored pair for `key`, or `None` (null). */
    method Find(key: K) returns (item: Option<(K, V)>)
      requires Valid()
      modifies prober.Repr()
      ensures item == if key in contents then Some((key, contents[key])) else None
    {
      var h := Probe(key);
      WalkFindsContents(table[..], contents, key);
      if h.None? || table[h.value].Empty? {
        return None;
      }
      item := Some((table[h.value].key, table[h.value].value));
    }

    /** `at`: the value for `key`, or the `out_of_range` error. */
    method At(key: K) returns (r: Result<V>)
      requires Valid()
      modifies prober.Repr()
      ensures r == if key in contents then Success(contents[key]) else Failure(BadKey)
    {
      var hi := InternalFind(key);
      if hi.None? {
        return Failure(BadKey);
      }
      r := Success(table[hi.value].value);
    }

    /** `operator[]`: the same as `at`; it never inserts. */
    method Index(key: K) returns (r: Result<V>)
      requires Valid()
      modifies prober.Repr()
      ensures r == if key in contents then Success(contents[key]) else Failure(BadKey)
    {
      r := At(key);
    }

    // --- updates ---------------------------------------------------------

    /** `remove`: tombstones the live item of `key`; an absent key is a
        no-op. */
    method Remove(key: K)
      requires Valid()
      modifies this, table, prober.Repr()
      ensures Valid()
      ensures table == old(table) && mIndex == old(mIndex)
      ensures contents == old(contents) - {key}
      ensures key in old(contents) ==>
                size == old(size) - 1 && deletedCount == old(deletedCount) + 1
      ensures key !in old(contents) ==>
                size == old(size) && deletedCount == old(deletedCount) && table[..] == old(table[..])
      // the slot where the key's walk stops becomes a tombstone; no other slot changes
      ensures key in old(contents) ==>
                && FirstStop(old(table[..]), key, 0).Some?
                && table[..] == old(table[..])[FirstStop(old(table[..]), key, 0).value := Item(key, old(contents)[key], true)]
    {
      var hi := InternalFind(key);
      if hi.Some? && !table[hi.value].deleted {
        var e := hi.value;
        ghost var s := table[..];
        assert FirstStop(s, key, 0) == Some(e);
        TombstoneKeepsSlotsOk(s, contents, e);
        CountUpdate(s, e, s[e].(deleted := true));
        table[e] := table[e].(deleted := true);
        assert table[..] == s[e := s[e].(deleted := true)];
        size := size - 1;
        deletedCount := deletedCount + 1;
        contents := contents - {key};
      }
    }

    /** `insert` (an upsert): the load check first, growing the table when
        it is reached, then the walk of `Place`. */
    method Insert(key: K, value: V) returns (err: Option<TableError>)
      requires Valid()
      modifies this, table, prober.Repr()
      decreases |CAPACITIES| - mIndex, 2
      ensures Valid()
      ensures mIndex >= old(mIndex)
      ensures table == old(table) || fresh(table)
      ensures err.Some? ==> err.value != BadKey
      ensures err.None? ==> contents == old(contents)[key := value]
      ensures err.None? ==> size == old(size) + (if key in old(contents) then 0 else 1)
      ensures err.Some? ==> SubMap(contents, old(contents))
      // no growth: the item goes to the first slot where the walk stops
      ensures !NeedsResize(old(size), old(deletedCount), old(table.Length), alpha) ==>
                mIndex == old(mIndex) && table == old(table) && err != Some(NoMoreCapacity)
      ensures !NeedsResize(old(size), old(deletedCount), old(table.Length), alpha) && err.None? ==>
                && deletedCount == old(deletedCount)
                && FirstStop(old(table[..]), key, 0).Some?
                && table[..] == old(table[..])[FirstStop(old(table[..]), key, 0).value := Item(key, value, false)]
      ensures !NeedsResize(old(size), old(deletedCount), old(table.Length), alpha) && err == Some(TableFull) ==>
                && FirstStop(old(table[..]), key, 0) == None
                && table[..] == old(table[..]) && contents == old(contents)
      // growth first
      ensures NeedsResize(old(size), old(deletedCount), old(table.Length), alpha) && err.None? ==>
                mIndex > old(mIndex) && deletedCount == 0
      // below the last capacity the table grows even when placing then fails
      ensures NeedsResize(old(size), old(deletedCount), old(table.Length), alpha) && old(mIndex) + 1 < |CAPACITIES| ==>
                mIndex > old(mIndex)
      ensures NeedsResize(old(size), old(deletedCount), old(table.Length), alpha)
              && old(mIndex) + 1 < |CAPACITIES|
              && RebuildFits(old(size), CAPACITIES[old(mIndex) + 1], alpha) ==>
                mIndex == old(mIndex) + 1 && err != Some(NoMoreCapacity)
      // growth due at the last capacity: "No more capacity", and nothing changes
      ensures NeedsResize(old(size), old(deletedCount), old(table.Length), alpha) && old(mIndex) + 1 >= |CAPACITIES| ==>
                err == Some(NoMoreCapacity) && table == old(table) && table[..] == old(table[..])
                && mIndex == old(mIndex) && contents == old(contents)
      ensures err == Some(NoMoreCapacity) ==> mIndex == |CAPACITIES| - 1
      // the "HashTable full" error cannot happen with linear probing
      ensures prober.Linear? && alpha <= 1.0 ==> err != Some(TableFull)
      // "HashTable full" comes from a walk, in the table as it is left, that runs out
      ensures err == Some(TableFull) ==> SomeWalkRunsOut(table[..])
    {
      if NeedsResize(size, deletedCount, table.Length, alpha) {
        err := GrowThenPlace(key, value);
      } else {
        if alpha <= 1.0 {
          CountBound(table[..]);
          BelowThresholdLeavesRoom(size, deletedCount, table.Length, alpha);
        }
        err := Place(key, value);
      }
    }

    /** The branch of `insert` where the load check fires: `resize` first,
        then the walk of `Place` in the grown table. */
    method GrowThenPlace(key: K, value: V) returns (err: Option<TableError>)
      requires Valid()
      modifies this, table, prober.Repr()
      decreases |CAPACITIES| - mIndex, 1
      ensures Valid()
      ensures mIndex >= old(mIndex)
      ensures table == old(table) || fresh(table)
      ensures err.Some? ==> err.value != BadKey
      ensures err.None? ==> contents == old(contents)[key := value]
      ensures err.None? ==> size == old(size) + (if key in old(contents) then 0 else 1)
      ensures err.Some? ==> SubMap(contents, old(contents))
      ensures err.None? ==> mIndex > old(mIndex) && deletedCount == 0
      ensures old(mIndex) + 1 < |CAPACITIES| ==> mIndex > old(mIndex)
      ensures old(mIndex) + 1 >= |CAPACITIES| ==>
                err == Some(NoMoreCapacity) && table == old(table) && table[..] == old(table[..])
                && mIndex == old(mIndex) && contents == old(contents)
      ensures old(mIndex) + 1 < |CAPACITIES| && RebuildFits(old(size), CAPACITIES[old(mIndex) + 1], alpha) ==>
                mIndex == old(mIndex) + 1 && err != Some(NoMoreCapacity)
      ensures err == Some(NoMoreCapacity) ==> mIndex == |CAPACITIES| - 1
      ensures prober.Linear? && alpha <= 1.0 ==> err != Some(TableFull)
      ensures err == Some(TableFull) ==> SomeWalkRunsOut(table[..])
    {
      CountBound(table[..]);
      ghost var bound := table.Length;
      ghost var next := mIndex + 1;
      ghost var fits := next < |CAPACITIES| && RebuildFits(size, CAPACITIES[next], alpha);
      err := Resize();
      if err.Some? {
        return;
      }
      assert size + deletedCount <= bound < table.Length;
      assert fits ==> mIndex == next;
      ghost var grown := mIndex;
      err := Place(key, value);
      assert mIndex == grown;
    }

    /** The walk of `insert` after the load check: the item goes into the
        first empty slot, or overwrites the value of the live item with the
        same key, whichever the walk meets first; "HashTable full" when the
        probe sequence runs out. */
    method Place(key: K, value: V) returns (err: Option<TableError>)
      requires Valid()
      modifies this, table, prober.Repr()
      ensures Valid()
      ensures table == old(table) && mIndex == old(mIndex) && deletedCount == old(deletedCount)
      ensures err.None? ==>
                && FirstStop(old(table[..]), key, 0).Some?
                && table[..] == old(table[..])[FirstStop(old(table[..]), key, 0).value := Item(key, value, false)]
                && contents == old(contents)[key := value]
                && size == old(size) + (if key in old(contents) then 0 else 1)
      ensures err.Some? ==>
                && err == Some(TableFull) && FirstStop(old(table[..]), key, 0) == None
                && table[..] == old(table[..]) && contents == old(contents) && size == old(size)
      ensures prober.Linear? && old(size) + old(deletedCount) < table.Length ==> err.None?
    {
      var m := table.Length;
      ghost var s := table[..];
      var h0 := hash(key) % m;
      ProbeInit(h0, m, key);
      var loc := ProbeNext(key, h0, m, 0);
      ghost var j: nat := 0;
      while loc.Some?
        invariant j <= m
        invariant loc.Some? ==> j < m && loc.value == Path(key, m, j)
        invariant loc.None? ==> j == m
        invariant ProberAt(key, h0, m, if loc.Some? then j + 1 else j)
        invariant FirstStop(s, key, 0) == FirstStop(s, key, j)
        invariant table == old(table) && table[..] == s && unchanged(this)
        decreases m - j
      {
        var p := loc.value;
        if table[p].Empty? {
          FillSlot(p, key, value);
          return None;
        }
        if !table[p].deleted && table[p].key == key {
          OverwriteSlot(p, key, value);
          return None;
        }
        j := j + 1;
        loc := ProbeNext(key, h0, m, j);
      }
      if prober.Linear? && size + deletedCount < m {
        var e := EmptySlotExists(s);
        LinearWalkStops(s, key, e);
        assert false;
      }
      err := Some(TableFull);
    }

    /** The empty slot where the walk for `key` stops receives a new live
        item holding `key` and `value`, and the size grows by one. */
    method FillSlot(p: nat, key: K, value: V)
      requires Valid()
      requires FirstStop(table[..], key, 0) == Some(p) && table[p].Empty?
      modifies this, table
      ensures Valid()
      ensures table == old(table) && mIndex == old(mIndex) && deletedCount == old(deletedCount)
      ensures table[..] == old(table[..])[p := Item(key, value, false)]
      ensures key !in old(contents) && contents == old(contents)[key := value]
      ensures size == old(size) + 1
    {
      ghost var s := table[..];
      PlaceKeepsSlotsOk(s, contents, key, value, p);
      CountUpdate(s, p, Item(key, value, false));
      table[p] := Item(key, value, false);
      assert table[..] == s[p := Item(key, value, false)];
      size := size + 1;
      contents := contents[key := value];
    }

    /** The live item of `key` keeps its key and takes `value` as its new
        value; nothing else changes. */
    method OverwriteSlot(p: nat, key: K, value: V)
      requires Valid()
      requires p < table.Length && IsLive(table[p]) && table[p].key == key
      modifies this, table
      ensures Valid()
      ensures table == old(table) && mIndex == old(mIndex) && deletedCount == old(deletedCount)
      ensures table[..] == old(table[..])[p := Item(key, value, false)]
      ensures key in old(contents) && contents == old(contents)[key := value]
      ensures size == old(size)
    {
      ghost var s := table[..];
      OverwriteKeepsSlotsOk(s, contents, key, value, p);
      CountUpdate(s, p, Item(key, value, false));
      table[p] := table[p].(value := value);
      assert table[..] == s[p := Item(key, value, false)];
      contents := contents[key := value];
    }

    /** The start of `resize`: one step up the ladder, with a fresh table
        of empty slots and both counters reset. */
    method MoveToNextCapacity()
      requires this !in prober.Repr()
      requires mIndex + 1 < |CAPACITIES| && table.Length == CAPACITIES[mIndex]
      modifies this
      ensures Valid()
      ensures mIndex == old(mIndex) + 1 && fresh(table)
      ensures table.Length > old(table.Length)
      ensures size == 0 && deletedCount == 0 && contents == map[]
    {
      var next := mIndex + 1;
      CapacityGrows(mIndex, next);
      var grown := new Slot<K, V>[CAPACITIES[next]](_ => Empty);
      ghost var slots := grown[..];
      EmptySlotsOk(slots);
      assert grown !in prober.Repr();
      assert CAPACITIES[0] <= grown.Length == CAPACITIES[next];
      mIndex := next;
      table := grown;
      size, deletedCount := 0, 0;
      contents := map[];
      assert table[..] == slots;
    }

    /** `resize`: the next capacity, tombstones dropped, every live item
        re-inserted through `Insert`. */
    method Resize() returns (err: Option<TableError>)
      requires Valid()
      modifies this, table, prober.Repr()
      decreases |CAPACITIES| - mIndex, 0
      ensures Valid()
      ensures mIndex >= old(mIndex)
      ensures table == old(table) || fresh(table)
      ensures err != Some(BadKey)
      ensures old(mIndex) + 1 >= |CAPACITIES| ==>
                err == Some(NoMoreCapacity) && table == old(table) && table[..] == old(table[..])
                && mIndex == old(mIndex) && contents == old(contents)
      ensures err.None? ==>
                && contents == old(contents) && size == old(size) && deletedCount == 0
                && mIndex > old(mIndex) && table.Length > old(table.Length)
      // the capacity moves up before any item is re-inserted, so a later failure leaves it grown
      ensures old(mIndex) + 1 < |CAPACITIES| ==> mIndex > old(mIndex) && fresh(table)
      ensures err.Some? ==> SubMap(contents, old(contents))
      ensures old(mIndex) + 1 < |CAPACITIES| && RebuildFits(old(size), CAPACITIES[old(mIndex) + 1], alpha) ==>
                mIndex == old(mIndex) + 1 && err != Some(NoMoreCapacity)
      ensures err == Some(NoMoreCapacity) ==> mIndex == |CAPACITIES| - 1
      ensures prober.Linear? && alpha <= 1.0 ==> err != Some(TableFull)
      ensures err == Some(TableFull) ==> SomeWalkRunsOut(table[..])
    {
      if mIndex + 1 >= |CAPACITIES| {
        return Some(NoMoreCapacity);
      }
      ghost var oldS := table[..];
      ghost var oldContents := contents;
      SlotsOkUnique(oldS, oldContents);
      var oldTable := table;
      ghost var grownIndex := mIndex + 1;
      ghost var fits := RebuildFits(size, CAPACITIES[grownIndex], alpha);
      MoveToNextCapacity();
      assert table.Length == CAPACITIES[grownIndex] && |oldContents| == old(size);
      err := Rebuild(oldTable, oldContents);
      assert fits ==> mIndex == grownIndex && err != Some(NoMoreCapacity);
      if grownIndex < mIndex {
        CapacityGrows(grownIndex, mIndex);
      }
    }

    /** The loop of `resize`: every live item of the old slots goes back in
        through `Insert`, in slot order. A re-insertion may itself grow the
        table again (small `alpha`); a failure part-way leaves the items
        moved so far. */
    method Rebuild(oldTable: array<Slot<K, V>>, ghost oldContents: map<K, V>) returns (err: Option<TableError>)
      requires Valid() && contents == map[] && size == 0 && deletedCount == 0
      requires oldTable != table && oldTable !in prober.Repr()
      requires Mirrors(oldTable[..], oldContents) && UniqueLiveKeys(oldTable[..])
      requires CountLive(oldTable[..]) == |oldContents|
      modifies this, table, prober.Repr()
      decreases |CAPACITIES| - mIndex, 3
      ensures Valid()
      ensures mIndex >= old(mIndex)
      ensures table == old(table) || fresh(table)
      ensures err != Some(BadKey)
      ensures err.None? ==> contents == oldContents && deletedCount == 0
      ensures err.Some? ==> SubMap(contents, oldContents)
      ensures RebuildFits(|oldContents|, old(table.Length), alpha) ==>
                mIndex == old(mIndex) && err != Some(NoMoreCapacity)
      ensures err == Some(NoMoreCapacity) ==> mIndex == |CAPACITIES| - 1
      ensures prober.Linear? && alpha <= 1.0 ==> err != Some(TableFull)
      ensures err == Some(TableFull) ==> SomeWalkRunsOut(table[..])
    {
      ghost var oldS := oldTable[..];
      ghost var fits := RebuildFits(|oldContents|, table.Length, alpha);
      var i := 0;
      while i < oldTable.Length
        invariant 0 <= i <= oldTable.Length
        invariant oldTable[..] == oldS
        invariant table != oldTable && oldTable !in prober.Repr()
        invariant table == old(table) || fresh(table)
        invariant Valid()
        invariant mIndex >= old(mIndex)
        invariant fits ==> mIndex == old(mIndex) && table.Length == old(table.Length)
        invariant deletedCount == 0
        invariant size == CountLive(oldS[..i])
        invariant contents == LiveMap(oldS[..i])
      {
        CountLivePrefix(oldS, i);
        LiveMapPrefix(oldS, i);
        RebuildStep(oldS, oldContents, i);
        var slot := oldTable[i];
        if slot.Item? && !slot.deleted {
          if fits {
            RebuildStaysBelow(size, |oldContents|, table.Length, alpha);
          }
          ghost var before := contents;
          err := Insert(slot.key, slot.value);
          if err.Some? {
            SubMapTransitive(contents, before, oldContents);
            return;
          }
        }
        i := i + 1;
      }
      assert oldS[..i] == oldS;
      RebuildComplete(oldS, oldContents);
      err := None;
    }
  }

  /** One insertion of a new key into a first-capacity table whose load
      stays below 0.4 (at most four items before the insertion). */
  method InsertBelowThreshold(t: HashTable<nat, nat>, key: nat, value: nat)
    requires t.Valid() && t.prober.Linear? && t.alpha == 0.4
    requires t.mIndex == 0 && t.deletedCount == 0 && t.size < 5
    requires forall k | k in t.contents :: k < key
    modifies t, t.table, t.prober.Repr()
    ensures t.Valid() && t.mIndex == 0 && t.deletedCount == 0 && t.table == old(t.table)
    ensures t.table.Length == CAPACITIES[0] == 11
    ensures t.size == old(t.size) + 1 && t.contents == old(t.contents)[key := value]
    ensures forall k | k in t.contents :: k <= key
  {
    assert !NeedsResize(t.size, 0, CAPACITIES[0], 0.4);
    var err := t.Insert(key, value);
  }

  /** The sixth distinct key reaches the load threshold of the first
      capacity and grows the table to the second one. */
  method InsertPastThreshold(t: HashTable<nat, nat>, key: nat, value: nat)
    requires t.Valid() && t.prober.Linear? && t.alpha == 0.4
    requires t.mIndex == 0 && t.deletedCount == 0 && t.size == 5
    modifies t, t.table, t.prober.Repr()
    ensures t.Valid() && t.mIndex == 1 && t.table.Length == CAPACITIES[1] == 23
    ensures t.contents == old(t.contents)[key := value]
  {
    LoadCheckAtFirstCapacity();
    assert NeedsResize(t.size, t.deletedCount, t.table.Length, t.alpha);
    assert RebuildFits(t.size, CAPACITIES[t.mIndex + 1], t.alpha);
    var err := t.Insert(key, value);
    assert t.mIndex == 1;
  }

  /** With `alpha` 0.4 and linear probing: five distinct keys stay in the
      first capacity, the sixth grows the table to the second one. */
  method LoadFactorScenario() returns (capacityAfterFive: nat, capacityAfterSix: nat)
    ensures capacityAfterFive == CAPACITIES[0] == 11
    ensures capacityAfterSix == CAPACITIES[1] == 23
  {
    var t := new HashTable<nat, nat>(0.4, LinearProbing, (k: nat) => k);
    InsertBelowThreshold(t, 1, 10);
    InsertBelowThreshold(t, 2, 20);
    InsertBelowThreshold(t, 3, 30);
    InsertBelowThreshold(t, 4, 40);
    InsertBelowThreshold(t, 5, 50);
    capacityAfterFive := t.table.Length;
    InsertPastThreshold(t, 6, 60);
    capacityAfterSix := t.table.Length;
  }
}
