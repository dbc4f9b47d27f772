/** `MyStringHash` of hash.h: a deterministic, case-insensitive string hash.
    Each character is a base-36 digit; the last 30 characters, cut into at
    most five 6-character chunks from the right, give five chunk values
    `w[0..4]`, and the digest is `rValues[0]*w[0] + ... + rValues[4]*w[4]`
    in 64-bit unsigned arithmetic, that is modulo 2^64. */
module StringHashing {
  import opened Util

  const GROUPS: nat := 5
  const CHUNK: nat := 6

  /** 2^64: `unsigned long long` arithmetic wraps modulo this. */
  const WORD: nat := 0x1_0000_0000_0000_0000

  /** The fixed coefficients of the debug constructor. */
  const DEBUG_R_VALUES: seq<nat> := [983132572, 1468777056, 552714139, 984953261, 261934300]

  /** The table `pow36` of the hash function: `POW36[i] == 36^i`. */
  const POW36: seq<nat> := [1, 36, 1296, 46656, 1679616, 60466176]

  // ---------------------------------------------------------------------
  // Digits
  // ---------------------------------------------------------------------

  /** `std::tolower` in the C locale: only 'A'..'Z' change. */
  function ToLower(ch: char): (lower: char)
    ensures 'A' <= ch <= 'Z' ==> lower as int == ch as int - 'A' as int + 'a' as int
    ensures !('A' <= ch <= 'Z') ==> lower == ch
  {
    if 'A' <= ch <= 'Z' then (ch as int - 'A' as int + 'a' as int) as char else ch
  }

  /** `letterDigitToNumber`: 'a'..'z' (either case) to 0..25, '0'..'9' to
      26..35, anything else to 0. */
  function LetterDigitToNumber(ch: char): (v: nat)
    ensures v < 36
    ensures 'a' <= ch <= 'z' ==> v == ch as int - 'a' as int
    ensures 'A' <= ch <= 'Z' ==> v == ch as int - 'A' as int
    ensures '0' <= ch <= '9' ==> v == 26 + (ch as int - '0' as int)
    ensures !('a' <= ch <= 'z' || 'A' <= ch <= 'Z' || '0' <= ch <= '9') ==> v == 0
  {
    var c := ToLower(ch);
    if 'a' <= c <= 'z' then c as int - 'a' as int
    else if '0' <= c <= '9' then 26 + (c as int - '0' as int)
    else 0
  }

  /** Upper and lower case of a letter are the same digit. */
  lemma LetterDigitIgnoresCase(ch: char)
    ensures LetterDigitToNumber(ToLower(ch)) == LetterDigitToNumber(ch)
  {
  }

  /** The digits of a string, one per character. */
  function Digits(s: string): (ds: seq<nat>)
    ensures |ds| == |s|
    ensures forall i :: 0 <= i < |s| ==> ds[i] == LetterDigitToNumber(s[i]) < 36
  {
    seq(|s|, i requires 0 <= i < |s| => LetterDigitToNumber(s[i]))
  }

  // ---------------------------------------------------------------------
  // Base 36
  // ---------------------------------------------------------------------

  function Pow36(i: nat): (p: nat)
    ensures p >= 1
  {
    if i == 0 then 1 else 36 * Pow36(i - 1)
  }

  /** The `pow36` table holds the powers of 36 it is named after. */
  lemma Pow36Table()
    ensures |POW36| == CHUNK
    ensures forall i :: 0 <= i < CHUNK ==> POW36[i] == Pow36(i)
  {
    assert Pow36(1) == 36;
    assert Pow36(2) == 1296;
    assert Pow36(3) == 46656;
    assert Pow36(4) == 1679616;
    assert Pow36(5) == 60466176;
  }

  lemma Pow36At(i: nat)
    requires i < CHUNK
    ensures POW36[i] == Pow36(i)
  {
    Pow36Table();
  }

  /** The number whose base-36 digits are `ds`, the last digit least
      significant. */
  function Base36(ds: seq<nat>): nat
  {
    if |ds| == 0 then 0 else Base36(ds[..|ds| - 1]) * 36 + ds[|ds| - 1]
  }

  predicate AllDigits(ds: seq<nat>)
  {
    forall i :: 0 <= i < |ds| ==> ds[i] < 36
  }

  /** `len` base-36 digits of `v`, most significant first. */
  function ToBase36(v: nat, len: nat): (ds: seq<nat>)
    ensures |ds| == len && AllDigits(ds)
  {
    if len == 0 then [] else ToBase36(v / 36, len - 1) + [v % 36]
  }

  /** A number of `|ds|` digits is below `36^|ds|`. */
  lemma {:induction false} Base36Below(ds: seq<nat>)
    requires AllDigits(ds)
    ensures Base36(ds) < Pow36(|ds|)
  {
    if |ds| > 0 {
      var init := ds[..|ds| - 1];
      Base36Below(init);
      assert Base36(init) + 1 <= Pow36(|init|);
      MulMonotone(Base36(init) + 1, Pow36(|init|), 36);
    }
  }

  /** Reading the digits back recovers them: `Base36` loses nothing. */
  lemma {:induction false} Base36RoundTrip(ds: seq<nat>)
    requires AllDigits(ds)
    ensures ToBase36(Base36(ds), |ds|) == ds
  {
    if |ds| > 0 {
      var init := ds[..|ds| - 1];
      var last := ds[|ds| - 1];
      DivModUnique(Base36(init) * 36 + last, 36, Base36(init), last);
      Base36RoundTrip(init);
      assert ds == init + [last];
    }
  }

  /** Equal-length digit strings with the same value are equal. */
  lemma Base36Injective(ds: seq<nat>, es: seq<nat>)
    requires AllDigits(ds) && AllDigits(es) && |ds| == |es|
    requires Base36(ds) == Base36(es)
    ensures ds == es
  {
    Base36RoundTrip(ds);
    Base36RoundTrip(es);
  }

  /** The sum the inner loop of the hash accumulates: the first `p` digits
      of `ds`, digit `q` weighted by `36^(e-1-q)`. */
  function PositionalSum(ds: seq<nat>, p: nat, e: nat): nat
    requires p <= |ds| && p <= e
  {
    if p == 0 then 0 else PositionalSum(ds, p - 1, e) + ds[p - 1] * Pow36(e - p)
  }

  /** The positional sum is the Horner form, scaled by the powers of 36
      still to come; over a whole chunk it is its base-36 value. */
  lemma {:induction false} PositionalSumIsBase36(ds: seq<nat>, p: nat, e: nat)
    requires p <= |ds| && p <= e
    ensures PositionalSum(ds, p, e) == Base36(ds[..p]) * Pow36(e - p)
  {
    if p > 0 {
      PositionalSumIsBase36(ds, p - 1, e);
      assert ds[..p][..p - 1] == ds[..p - 1];
      var b, q := Base36(ds[..p - 1]), Pow36(e - p);
      assert Pow36(e - p + 1) == 36 * q;
      calc {
        PositionalSum(ds, p, e);
        b * (36 * q) + ds[p - 1] * q;
        (b * 36 + ds[p - 1]) * q;
        Base36(ds[..p]) * q;
      }
    }
  }

  /** Over a whole chunk the positional sum is its base-36 value. */
  lemma PositionalSumWhole(ds: seq<nat>)
    ensures PositionalSum(ds, |ds|, |ds|) == Base36(ds)
  {
    PositionalSumIsBase36(ds, |ds|, |ds|);
    assert ds[..|ds|] == ds;
  }

  // ---------------------------------------------------------------------
  // Chunks and the digest
  // ---------------------------------------------------------------------

  /** The characters of chunk `c` (0 is the rightmost): positions
      `[max(n - 6c - 6, 0), n - 6c)`, empty once `n - 6c <= 0`. */
  function ChunkStart(n: nat, c: nat): nat
  {
    if n <= c * CHUNK + CHUNK then 0 else n - c * CHUNK - CHUNK
  }

  function ChunkEnd(n: nat, c: nat): nat
  {
    if n <= c * CHUNK then 0 else n - c * CHUNK
  }

  /** The value of chunk `c` of `k`. */
  function ChunkValue(k: string, c: nat): nat
  {
    if |k| <= c * CHUNK then 0
    else Base36(Digits(k)[ChunkStart(|k|, c)..ChunkEnd(|k|, c)])
  }

  /** Within one chunk the value loses nothing: two strings of the same
      length whose chunk `c` has the same value have the same digits there.
      Distinct six-character chunks, up to case and the characters that map
      to 0, therefore get distinct values. */
  lemma ChunkValueKeepsDigits(k1: string, k2: string, c: nat)
    requires |k1| == |k2| && c * CHUNK < |k1|
    requires ChunkValue(k1, c) == ChunkValue(k2, c)
    ensures Digits(k1)[ChunkStart(|k1|, c)..ChunkEnd(|k1|, c)]
         == Digits(k2)[ChunkStart(|k2|, c)..ChunkEnd(|k2|, c)]
  {
    var ds := Digits(k1)[ChunkStart(|k1|, c)..ChunkEnd(|k1|, c)];
    var es := Digits(k2)[ChunkStart(|k2|, c)..ChunkEnd(|k2|, c)];
    assert AllDigits(ds) && AllDigits(es);
    Base36Injective(ds, es);
  }

  /** Every chunk value fits in six base-36 digits. */
  lemma ChunkValueBelow(k: string, c: nat)
    ensures ChunkValue(k, c) < Pow36(CHUNK)
  {
    if c * CHUNK < |k| {
      var ds := Digits(k)[ChunkStart(|k|, c)..ChunkEnd(|k|, c)];
      Base36Below(ds);
      Pow36Monotone(|ds|, CHUNK);
    }
  }

  lemma {:induction false} Pow36Monotone(i: nat, j: nat)
    requires i <= j
    ensures Pow36(i) <= Pow36(j)
    decreases j
  {
    if i < j {
      Pow36Monotone(i, j - 1);
    }
  }

  /** The bounds `operator()` computes for chunk `c` are the chunk's. */
  lemma ChunkLimits(k: string, c: nat, start: nat, end: nat)
    requires c * CHUNK < |k| && end == |k| - c * CHUNK
    requires start == if end < CHUNK then 0 else end - CHUNK
    ensures start <= end <= |k|
    ensures ChunkValue(k, c) == Base36(Digits(k)[start..end])
  {
  }

  /** The array `w`: chunk `c` is stored at `w[GROUPS - 1 - c]`. */
  function Weights(k: string): (w: seq<nat>)
    ensures |w| == GROUPS
  {
    seq(GROUPS, i requires 0 <= i < GROUPS => ChunkValue(k, GROUPS - 1 - i))
  }

  /** `w` after the outer loop of `operator()` has stored chunks
      `0 .. c-1`: each at `w[GROUPS - 1 - j]`, zeros elsewhere. */
  function StoredChunks(k: string, c: nat): (ws: seq<nat>)
    requires c <= GROUPS
    ensures |ws| == GROUPS
  {
    if c == 0 then seq(GROUPS, _ => 0)
    else StoredChunks(k, c - 1)[GROUPS - c := ChunkValue(k, c - 1)]
  }

  lemma {:induction false} StoredChunksAt(k: string, c: nat, i: nat)
    requires c <= GROUPS && i < GROUPS
    ensures StoredChunks(k, c)[i] == if GROUPS - c <= i then ChunkValue(k, GROUPS - 1 - i) else 0
  {
    if c > 0 {
      StoredChunksAt(k, c - 1, i);
    }
  }

  /** Once the chunks from `c` on start before the string, the chunks
      stored so far are all of `w`. */
  lemma WeightsComplete(k: string, c: nat)
    requires c <= GROUPS
    requires c == GROUPS || |k| <= c * CHUNK
    ensures StoredChunks(k, c) == Weights(k)
  {
    forall i | 0 <= i < GROUPS
      ensures StoredChunks(k, c)[i] == Weights(k)[i]
    {
      StoredChunksAt(k, c, i);
      if i < GROUPS - c {
        UnusedChunksZero(k, GROUPS - 1 - i);
      }
    }
  }

  /** `Σ r[i] * w[i]` over the common prefix of two sequences. */
  function Dot(r: seq<nat>, w: seq<nat>): nat
    requires |r| == |w|
  {
    if |r| == 0 then 0 else Dot(r[..|r| - 1], w[..|w| - 1]) + r[|r| - 1] * w[|w| - 1]
  }

  /** The exact, unwrapped sum the hash computes. */
  function Digest(r: seq<nat>, k: string): nat
    requires |r| == GROUPS
  {
    Dot(r, Weights(k))
  }

  /** The value `operator()` returns. */
  function HashValue(r: seq<nat>, k: string): (h: nat)
    requires |r| == GROUPS
    ensures h < WORD
  {
    Digest(r, k) % WORD
  }

  // ---------------------------------------------------------------------
  // Properties
  // ---------------------------------------------------------------------

  lemma {:induction false} DotOfZeros(r: seq<nat>, w: seq<nat>)
    requires |r| == |w|
    requires forall i :: 0 <= i < |w| ==> w[i] == 0
    ensures Dot(r, w) == 0
  {
    if |r| > 0 {
      DotOfZeros(r[..|r| - 1], w[..|w| - 1]);
    }
  }

  /** A chunk whose end `n - 6c` is at most 0 lies wholly before the
      string and stays 0, and so do the leading entries of `w`. */
  lemma UnusedChunksZero(k: string, c: nat)
    requires |k| <= c * CHUNK
    ensures ChunkValue(k, c) == 0
  {
  }

  /** The empty string hashes to 0. */
  lemma EmptyStringHashesToZero(r: seq<nat>)
    requires |r| == GROUPS
    ensures HashValue(r, "") == 0
  {
    var w := Weights("");
    forall i | 0 <= i < GROUPS
      ensures w[i] == 0
    {
      UnusedChunksZero("", GROUPS - 1 - i);
    }
    DotOfZeros(r, w);
  }

  /** The rightmost chunk is `w[4]`: a string of at most six characters
      contributes `rValues[4]` times its own base-36 value. */
  lemma ShortStringUsesLastCoefficient(r: seq<nat>, k: string)
    requires |r| == GROUPS && |k| <= CHUNK
    ensures Digest(r, k) == r[4] * Base36(Digits(k))
  {
    var w := Weights(k);
    forall i | 0 <= i < GROUPS - 1
      ensures w[i] == 0
    {
      UnusedChunksZero(k, GROUPS - 1 - i);
    }
    assert w[4] == ChunkValue(k, 0);
    if |k| > 0 {
      assert Digits(k)[ChunkStart(|k|, 0)..ChunkEnd(|k|, 0)] == Digits(k);
    }
    DotOfZeros(r[..4], w[..4]);
  }

  /** The last 30 characters of `k` (all of it when shorter). */
  function Tail30(k: string): (t: string)
    ensures |t| <= GROUPS * CHUNK
  {
    if |k| <= GROUPS * CHUNK then k else k[|k| - GROUPS * CHUNK..]
  }

  lemma ChunkOfTail(k: string, c: nat)
    requires c < GROUPS
    ensures ChunkValue(Tail30(k), c) == ChunkValue(k, c)
  {
    var n := |k|;
    if n > GROUPS * CHUNK {
      var d := n - GROUPS * CHUNK;
      var t := Tail30(k);
      if c * CHUNK < |t| {
        assert ChunkStart(n, c) == ChunkStart(|t|, c) + d;
        assert ChunkEnd(n, c) == ChunkEnd(|t|, c) + d;
        assert Digits(t) == Digits(k)[d..];
        assert Digits(t)[ChunkStart(|t|, c)..ChunkEnd(|t|, c)] == Digits(k)[ChunkStart(n, c)..ChunkEnd(n, c)];
      }
    }
  }

  /** Only the last 30 characters influence the hash. */
  lemma OnlyLastThirtyMatter(r: seq<nat>, k1: string, k2: string)
    requires |r| == GROUPS
    requires Tail30(k1) == Tail30(k2)
    ensures HashValue(r, k1) == HashValue(r, k2)
  {
    forall c | 0 <= c < GROUPS
      ensures ChunkValue(k1, c) == ChunkValue(k2, c)
    {
      ChunkOfTail(k1, c);
      ChunkOfTail(k2, c);
    }
    assert Weights(k1) == Weights(k2);
  }

  /** Strings whose characters are the same digits hash equally; in
      particular a string and its lower-case form. */
  lemma SameDigitsSameHash(r: seq<nat>, k1: string, k2: string)
    requires |r| == GROUPS
    requires |k1| == |k2|
    requires forall i :: 0 <= i < |k1| ==> LetterDigitToNumber(k1[i]) == LetterDigitToNumber(k2[i])
    ensures HashValue(r, k1) == HashValue(r, k2)
  {
    assert Digits(k1) == Digits(k2);
    forall c | 0 <= c < GROUPS
      ensures ChunkValue(k1, c) == ChunkValue(k2, c)
    {
    }
    assert Weights(k1) == Weights(k2);
  }

  /** Lower-casing a string does not change its hash. */
  lemma CaseInsensitive(r: seq<nat>, k: string)
    requires |r| == GROUPS
    ensures HashValue(r, seq(|k|, i requires 0 <= i < |k| => ToLower(k[i]))) == HashValue(r, k)
  {
    var lower := seq(|k|, i requires 0 <= i < |k| => ToLower(k[i]));
    forall i | 0 <= i < |k|
      ensures LetterDigitToNumber(lower[i]) == LetterDigitToNumber(k[i])
    {
      LetterDigitIgnoresCase(k[i]);
    }
    SameDigitsSameHash(r, lower, k);
  }

  /** With the debug coefficients, "b" (digit 1 in the last chunk) hashes to
      the last coefficient. */
  lemma HashOfSingleLetter()
    ensures HashValue(DEBUG_R_VALUES, "b") == 261934300
  {
    ShortStringUsesLastCoefficient(DEBUG_R_VALUES, "b");
    assert Digits("b") == [1];
    assert Base36([1]) == 1;
  }

  /** Adding a wrapped value before wrapping again is the same as wrapping
      the exact sum. */
  lemma WrapAdd(a: nat, b: nat)
    ensures (a % WORD + b % WORD) % WORD == (a + b) % WORD
  {
    ModAddLeft(a, b % WORD, WORD);
    ModAddLeft(b, a, WORD);
  }

  /** One pass of the accumulation loop: adding the wrapped product to the
      wrapped partial sum and wrapping again is the wrapped longer sum. */
  lemma AccumulateStep(r: seq<nat>, w: seq<nat>, i: nat)
    requires |r| == |w| && i < |r|
    ensures r[i] * w[i] >= 0
    ensures (Dot(r[..i], w[..i]) % WORD + (r[i] * w[i]) % WORD) % WORD
         == Dot(r[..i + 1], w[..i + 1]) % WORD
  {
    assert r[..i + 1][..i] == r[..i];
    assert w[..i + 1][..i] == w[..i];
    MulMonotone(0, r[i], w[i]);
    WrapAdd(Dot(r[..i], w[..i]), r[i] * w[i]);
  }

  // ---------------------------------------------------------------------
  // The hash functor
  // ---------------------------------------------------------------------

  /** The functor object; its coefficients are fixed at construction. */
  class MyStringHash {
    const rValues: seq<nat>

    /** The debug constructor: the five fixed coefficients. */
    constructor ()
      ensures rValues == DEBUG_R_VALUES
    {
      rValues := DEBUG_R_VALUES;
    }

    /** One pass of the inner loop adds the next term of the positional
        sum. */
    lemma ChunkStep(k: string, start: nat, end: nat, pos: nat)
      requires start <= pos < end <= |k| && end - start <= CHUNK
      ensures LetterDigitToNumber(k[pos]) * POW36[(end - 1) - pos] >= 0
      ensures PositionalSum(Digits(k)[start..end], pos - start + 1, end - start)
           == PositionalSum(Digits(k)[start..end], pos - start, end - start)
              + LetterDigitToNumber(k[pos]) * POW36[(end - 1) - pos]
    {
      var ds := Digits(k)[start..end];
      assert ds[pos - start] == LetterDigitToNumber(k[pos]);
      Pow36At((end - 1) - pos);
      MulMonotone(0, LetterDigitToNumber(k[pos]), POW36[(end - 1) - pos]);
    }

    /** The value of chunk `c`: the inner loop over its characters. */
    method ChunkLoop(k: string, ghost c: nat, start: nat, end: nat) returns (chunkVal: nat)
      requires c * CHUNK < |k| && end == |k| - c * CHUNK
      requires start == if end < CHUNK then 0 else end - CHUNK
      ensures chunkVal == ChunkValue(k, c)
    {
      ChunkLimits(k, c, start, end);
      ghost var ds := Digits(k)[start..end];
      chunkVal := 0;
      var pos := start;
      while pos < end
        invariant start <= pos <= end
        invariant chunkVal == PositionalSum(ds, pos - start, end - start)
      {
        var idx := (end - 1) - pos;
        var v := LetterDigitToNumber(k[pos]);
        ChunkStep(k, start, end, pos);
        chunkVal := chunkVal + v * POW36[idx];
        pos := pos + 1;
      }
      PositionalSumWhole(ds);
    }

    /** `operator()`: fills `w` chunk by chunk from the right, then
        accumulates `Σ rValues[i] * w[i]` with 64-bit wrap-around. */
    method Hash(k: string) returns (h: nat)
      requires |rValues| == GROUPS
      ensures h == HashValue(rValues, k)
    {
      var w := FillChunks(k);
      h := Combine(w);
    }

    /** The outer loop of `operator()`: chunk `c` (counted from the right)
        goes to `w[GROUPS - 1 - c]`; it stops at the first chunk that would
        end before the string starts. */
    method FillChunks(k: string) returns (w: seq<nat>)
      ensures w == Weights(k)
    {
      w := [0, 0, 0, 0, 0];
      var n := |k|;
      var c := 0;
      while c < GROUPS
        invariant 0 <= c <= GROUPS
        invariant w == StoredChunks(k, c)
      {
        if n <= c * CHUNK {
          break;
        }
        var end := n - c * CHUNK;
        var start := if end < CHUNK then 0 else end - CHUNK;
        var chunkVal := ChunkLoop(k, c, start, end);
        w := w[GROUPS - 1 - c := chunkVal];
        c := c + 1;
      }
      WeightsComplete(k, c);
    }

    /** The last loop of `operator()`: adds each coefficient times its
        chunk value to the running hash, wrapping to 64 bits. */
    method Combine(w: seq<nat>) returns (h: nat)
      requires |rValues| == |w|
      ensures h == Dot(rValues, w) % WORD
    {
      h := 0;
      var i := 0;
      while i < |w|
        invariant 0 <= i <= |w|
        invariant h == Dot(rValues[..i], w[..i]) % WORD
      {
        AccumulateStep(rValues, w, i);
        h := (h + (rValues[i] * w[i]) % WORD) % WORD;
        i := i + 1;
      }
      assert rValues[..i] == rValues && w[..i] == w;
    }
  }
}
