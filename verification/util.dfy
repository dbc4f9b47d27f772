/** Small shared vocabulary: an optional value, ascending tables of
    constants, and the modular-arithmetic facts the probe sequences and the
    string hash rely on. */
module Util {

  /** A value that may be missing; `None` stands for the C++ `nullptr`
      or the `npos` sentinel. */
  datatype Option<T> = None | Some(value: T)

  /** Every entry of `s` is smaller than every later entry. */
  ghost predicate StrictlyIncreasing(s: seq<nat>)
  {
    forall i, j :: 0 <= i < j < |s| ==> s[i] < s[j]
  }

  /** Neighbouring entries ascend. */
  ghost predicate AdjacentIncreasing(s: seq<nat>)
  {
    forall i :: 0 <= i < |s| - 1 ==> s[i] < s[i + 1]
  }

  lemma {:induction false} ChainIncreasing(s: seq<nat>, i: nat, j: nat)
    requires AdjacentIncreasing(s)
    requires i < j < |s|
    ensures s[i] < s[j]
    decreases j - i
  {
    if i + 1 < j {
      ChainIncreasing(s, i, j - 1);
    }
  }

  /** Ascending neighbours make the whole table ascending. */
  lemma AdjacentMakesStrict(s: seq<nat>)
    requires AdjacentIncreasing(s)
    ensures StrictlyIncreasing(s)
  {
    forall i, j | 0 <= i < j < |s|
      ensures s[i] < s[j]
    {
      ChainIncreasing(s, i, j);
    }
  }

  lemma MulMonotone(a: nat, b: nat, m: nat)
    requires a <= b
    ensures a * m <= b * m
  {
  }

  /** Euclidean division is determined by its quotient and remainder. */
  lemma DivModUnique(x: nat, m: nat, q: nat, r: nat)
    requires r < m && x == q * m + r
    ensures x / m == q && x % m == r
  {
    var q', r' := x / m, x % m;
    assert x == q' * m + r';
    if q < q' {
      MulMonotone(q + 1, q', m);
      assert false;
    } else if q' < q {
      MulMonotone(q' + 1, q, m);
      assert false;
    }
  }

  /** Reducing the left summand first does not change a remainder. */
  lemma ModAddLeft(a: nat, b: nat, m: nat)
    requires m > 0
    ensures (a % m + b) % m == (a + b) % m
  {
    var q, r := a / m, a % m;
    var q2, r2 := (r + b) / m, (r + b) % m;
    assert a == q * m + r;
    assert r + b == q2 * m + r2;
    assert (q + q2) * m == q * m + q2 * m;
    assert a + b == (q + q2) * m + r2;
    DivModUnique(a + b, m, q + q2, r2);
  }
}
