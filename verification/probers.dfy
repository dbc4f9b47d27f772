/** The two probe-sequence strategies of ht.h. A prober is a small state
    machine: `Init` fixes the home slot `start`, the table size `m` and
    resets the probe counter; each `Next` hands out one more candidate slot,
    and `None` (the C++ `npos`) once `m` candidates have been produced.

    Indices are unbounded naturals. For the capacities the table uses
    (at most 1685759167 < 2^31) the products `step * numProbes` stay below
    `m * m < 2^64`, so the C++ `size_t` arithmetic never wraps and `nat`
    arithmetic is exact. */
module Probers {
  import opened Util

  /** Candidate sub-moduli for the double-hash step, ascending. */
  const DOUBLE_HASH_MOD_VALUES: seq<nat> := [
    7, 19, 43, 89, 193, 389, 787, 1583, 3191, 6397,
    12841, 25703, 51431, 102871, 205721, 411503,
    823051, 1646221, 3292463, 6584957, 13169963,
    26339921, 52679927, 105359939, 210719881,
    421439749, 842879563, 1685759113
  ]

  lemma ModValuesAscend()
    ensures StrictlyIncreasing(DOUBLE_HASH_MOD_VALUES)
  {
    assert AdjacentIncreasing(DOUBLE_HASH_MOD_VALUES);
    AdjacentMakesStrict(DOUBLE_HASH_MOD_VALUES);
  }

  // ---------------------------------------------------------------------
  // Linear probing
  // ---------------------------------------------------------------------

  /** The i-th candidate of a linear probe sequence. */
  function LinearLoc(start: nat, m: nat, i: nat): (loc: nat)
    requires m > 0
    ensures loc < m
  {
    (start + i) % m
  }

  /** Within one round the linear sequence is `start % m` counted upwards,
      wrapping once past `m - 1`. */
  lemma LinearLocWraps(start: nat, m: nat, i: nat)
    requires 0 < m && i < m
    ensures LinearLoc(start, m, i)
         == if start % m + i < m then start % m + i else start % m + i - m
  {
    var q, s := start / m, start % m;
    assert start + i == q * m + (s + i);
    if s + i < m {
      DivModUnique(start + i, m, q, s + i);
    } else {
      assert (q + 1) * m == q * m + m;
      DivModUnique(start + i, m, q + 1, s + i - m);
    }
  }

  /** No slot is handed out twice during the first `m` probes. */
  lemma LinearLocInjective(start: nat, m: nat, i: nat, j: nat)
    requires 0 < m && i < m && j < m
    requires LinearLoc(start, m, i) == LinearLoc(start, m, j)
    ensures i == j
  {
    LinearLocWraps(start, m, i);
    LinearLocWraps(start, m, j);
  }

  /** The probe number at which the linear sequence reaches slot `x`. */
  function LinearProbeIndexOf(start: nat, m: nat, x: nat): (i: nat)
    requires x < m
    ensures i < m && LinearLoc(start, m, i) == x
  {
    var s := start % m;
    var i := if s <= x then x - s else x + m - s;
    LinearLocWraps(start, m, i);
    i
  }

  /** One of the first `m` linear probes yields slot `x`. */
  ghost predicate LinearProbeReaches(start: nat, m: nat, x: nat)
    requires m > 0
  {
    exists i :: 0 <= i < m && LinearLoc(start, m, i) == x
  }

  /** The first `m` linear probes visit every slot of `[0, m)` exactly once. */
  lemma LinearProbeVisitsEachSlotOnce(start: nat, m: nat)
    requires m > 0
    ensures forall i :: 0 <= i < m ==> LinearLoc(start, m, i) < m
    ensures forall i, j :: 0 <= i < j < m ==> LinearLoc(start, m, i) != LinearLoc(start, m, j)
    ensures forall x :: 0 <= x < m ==> LinearProbeReaches(start, m, x)
  {
    forall x | 0 <= x < m
      ensures LinearProbeReaches(start, m, x)
    {
      var i := LinearProbeIndexOf(start, m, x);
      assert LinearLoc(start, m, i) == x;
    }
    forall i, j | 0 <= i < j < m
      ensures LinearLoc(start, m, i) != LinearLoc(start, m, j)
    {
      if LinearLoc(start, m, i) == LinearLoc(start, m, j) {
        LinearLocInjective(start, m, i, j);
      }
    }
  }

  /** `LinearProber<K>` of ht.h: yields `(start + i) % m` for i = 0 .. m-1,
      then `None` forever. */
  class LinearProber {
    var start: nat
    var m: nat
    var numProbes: nat

    constructor ()
      ensures start == 0 && m == 0 && numProbes == 0
    {
      start, m, numProbes := 0, 0, 0;
    }

    /** `Prober::init`; the key is not used by linear probing. */
    method Init(start: nat, m: nat)
      modifies this
      ensures this.start == start && this.m == m && numProbes == 0
    {
      this.start, this.m, numProbes := start, m, 0;
    }

    method Next() returns (loc: Option<nat>)
      modifies this`numProbes
      ensures old(numProbes) < m ==>
                loc == Some(LinearLoc(start, m, old(numProbes))) && numProbes == old(numProbes) + 1
      ensures m <= old(numProbes) ==> loc == None && numProbes == old(numProbes)
    {
      if numProbes >= m {
        return None;
      }
      loc := Some((start + numProbes) % m);
      numProbes := numProbes + 1;
    }
  }

  // ---------------------------------------------------------------------
  // Double hashing
  // ---------------------------------------------------------------------

  /** The last entry of `vs` below `m`, or `dflt` when there is none. */
  function LastBelow(vs: seq<nat>, m: nat, dflt: nat): (r: nat)
    ensures r in vs || r == dflt
    ensures r < m || r == dflt
    ensures (exists j :: 0 <= j < |vs| && vs[j] < m) ==> r in vs && r < m
    ensures StrictlyIncreasing(vs) ==> forall j :: 0 <= j < |vs| && vs[j] < m ==> vs[j] <= r
  {
    if |vs| == 0 then dflt
    else if vs[|vs| - 1] < m then vs[|vs| - 1]
    else LastBelow(vs[..|vs| - 1], m, dflt)
  }

  /** Entries at or above `m` at the end of an ascending table do not change
      which entry is the last one below `m`. */
  lemma {:induction false} LastBelowIgnoresTail(vs: seq<nat>, k: nat, m: nat, dflt: nat)
    requires StrictlyIncreasing(vs)
    requires k <= |vs|
    requires forall j :: k <= j < |vs| ==> m <= vs[j]
    ensures LastBelow(vs[..k], m, dflt) == LastBelow(vs, m, dflt)
    decreases |vs| - k
  {
    if k < |vs| {
      var init := vs[..|vs| - 1];
      assert init[..k] == vs[..k];
      LastBelowIgnoresTail(init, k, m, dflt);
    } else {
      assert vs[..k] == vs;
    }
  }

  /** An entry below `m` is the last one below `m` of the prefix it ends. */
  lemma LastBelowTakesNext(vs: seq<nat>, i: nat, m: nat, dflt: nat)
    requires i < |vs| && vs[i] < m
    ensures LastBelow(vs[..i + 1], m, dflt) == vs[i]
  {
    assert vs[..i + 1][i] == vs[i];
  }

  /** The sub-modulus double hashing uses for table size `m`: the largest
      entry of `DOUBLE_HASH_MOD_VALUES` below `m`, or 7 when none is. */
  function SubModulus(m: nat): (mod: nat)
    ensures mod in DOUBLE_HASH_MOD_VALUES
    ensures DOUBLE_HASH_MOD_VALUES[0] <= mod
    ensures mod < m || mod == DOUBLE_HASH_MOD_VALUES[0]
    ensures DOUBLE_HASH_MOD_VALUES[0] < m ==> mod < m
    ensures forall j :: 0 <= j < |DOUBLE_HASH_MOD_VALUES| && DOUBLE_HASH_MOD_VALUES[j] < m ==>
              DOUBLE_HASH_MOD_VALUES[j] <= mod
  {
    ModValuesAscend();
    LastBelow(DOUBLE_HASH_MOD_VALUES, m, DOUBLE_HASH_MOD_VALUES[0])
  }

  /** The scan at the top of `DoubleHashProber::init`: walk the ascending
      table while its entries stay below `m`, keeping the last one seen. */
  method ChooseSubModulus(m: nat) returns (mod: nat)
    ensures mod == SubModulus(m)
  {
    mod := DOUBLE_HASH_MOD_VALUES[0];
    var i := 0;
    while i < |DOUBLE_HASH_MOD_VALUES| && DOUBLE_HASH_MOD_VALUES[i] < m
      invariant 0 <= i <= |DOUBLE_HASH_MOD_VALUES|
      invariant mod == LastBelow(DOUBLE_HASH_MOD_VALUES[..i], m, DOUBLE_HASH_MOD_VALUES[0])
    {
      LastBelowTakesNext(DOUBLE_HASH_MOD_VALUES, i, m, DOUBLE_HASH_MOD_VALUES[0]);
      mod := DOUBLE_HASH_MOD_VALUES[i];
      i := i + 1;
    }
    ModValuesAscend();
    LastBelowIgnoresTail(DOUBLE_HASH_MOD_VALUES, i, m, DOUBLE_HASH_MOD_VALUES[0]);
  }

  /** The double-hash step for a key whose secondary hash is `h2`. */
  function Step(h2: nat, m: nat): (step: nat)
    ensures 1 <= step <= SubModulus(m)
  {
    var mod := SubModulus(m);
    mod - h2 % mod
  }

  /** For every size above the smallest sub-modulus (every ladder capacity
      is), the step is a non-zero amount smaller than the table. */
  lemma StepBelowTableSize(h2: nat, m: nat)
    requires DOUBLE_HASH_MOD_VALUES[0] < m
    ensures 1 <= Step(h2, m) < m
  {
  }

  /** The i-th candidate of a double-hash probe sequence. */
  function DoubleHashLoc(start: nat, step: nat, m: nat, i: nat): (loc: nat)
    requires m > 0
    ensures loc < m
  {
    (start + step * i) % m
  }

  /** `DoubleHashProber<K, Hash2>` of ht.h, with the secondary hash `h2`. */
  class DoubleHashProber<K> {
    const h2: K -> nat
    var start: nat
    var m: nat
    var numProbes: nat
    var step: nat

    constructor (h2: K -> nat)
      ensures this.h2 == h2
      ensures start == 0 && m == 0 && numProbes == 0 && step == 0
    {
      this.h2 := h2;
      start, m, numProbes, step := 0, 0, 0, 0;
    }

    /** Resets the counter and derives the step from the key. */
    method Init(start: nat, m: nat, key: K)
      modifies this
      ensures this.start == start && this.m == m && numProbes == 0
      ensures step == Step(h2(key), m)
    {
      this.start, this.m, numProbes := start, m, 0;
      var mod := ChooseSubModulus(m);
      step := mod - h2(key) % mod;
    }

    method Next() returns (loc: Option<nat>)
      modifies this`numProbes
      ensures old(numProbes) < m ==>
                loc == Some(DoubleHashLoc(start, step, m, old(numProbes)))
                && numProbes == old(numProbes) + 1
      ensures m <= old(numProbes) ==> loc == None && numProbes == old(numProbes)
    {
      if numProbes >= m {
        return None;
      }
      loc := Some((start + step * numProbes) % m);
      numProbes := numProbes + 1;
    }
  }
}
