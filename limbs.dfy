/** Limbs: the little-endian base-2^32 digit sequences that every big integer
    stores (the `std::vector<uint32_t> value` of big_integer), and the numeric
    value such a sequence denotes. */
module Limbs {

  /** 2^32, the radix of one limb. */
  const BASE: int := 0x1_0000_0000

  /** One `uint32_t` limb. */
  type Limb = x: int | 0 <= x < 0x1_0000_0000

  /** BASE^k. */
  function Pow(k: nat): (r: nat)
    ensures r >= 1
  {
    if k == 0 then 1 else BASE * Pow(k - 1)
  }

  /** The value of a little-endian limb sequence: sum of s[i] * BASE^i. */
  function Mag(s: seq<Limb>): nat
  {
    if |s| == 0 then 0 else s[0] + BASE * Mag(s[1..])
  }

  /** A trimmed limb vector: at least one limb and no most-significant zero limb
      unless the vector is the single limb [0]. */
  predicate Canonical(s: seq<Limb>)
  {
    |s| >= 1 && (|s| == 1 || s[|s| - 1] != 0)
  }

  /** k copies of one limb: zero limbs are what `resize` appends, all-ones
      limbs what sign extension appends. */
  function Fill(x: Limb, k: nat): (r: seq<Limb>)
    ensures |r| == k && forall i :: 0 <= i < k ==> r[i] == x
  {
    seq(k, _ => x)
  }

  /** `std::vector::resize(n)` on a limb vector: cut to n limbs, or pad with
      zero limbs up to n. */
  function Resized(s: seq<Limb>, n: nat): (r: seq<Limb>)
    ensures |r| == n
    ensures forall i :: 0 <= i < n && i < |s| ==> r[i] == s[i]
    ensures forall i :: |s| <= i < n ==> r[i] == 0
  {
    if n <= |s| then s[..n] else s + Fill(0, n - |s|)
  }

  /** The canonical limb vector of a natural number. */
  function LimbsOf(x: nat): (r: seq<Limb>)
    ensures Canonical(r) && Mag(r) == x
    ensures x < BASE ==> r == [x]
    decreases x
  {
    if x < BASE then
      MagSingle(x);
      [x]
    else
      var rest := LimbsOf(x / BASE);
      MagCons(x % BASE, rest);
      [x % BASE] + rest
  }

  // ---------------------------------------------------------------------------
  // Small facts of multiplication, stated apart so that each proof sees only the
  // nonlinear step it needs

  lemma {:induction false} MulLe(a: int, b: int, c: int)
    requires a <= b && 0 <= c
    ensures a * c <= b * c
  {
  }

  lemma {:induction false} MulDistrib(a: int, b: int, c: int)
    ensures a * (b + c) == a * b + a * c
  {
  }

  lemma {:induction false} MulSub(a: int, b: int, c: int)
    ensures (a - b) * c == a * c - b * c
  {
  }

  lemma {:induction false} MulAssoc(a: int, b: int, c: int)
    ensures a * (b * c) == b * (a * c)
  {
  }

  // ---------------------------------------------------------------------------
  // Powers

  lemma {:induction false} PowAdd(i: nat, j: nat)
    ensures Pow(i + j) == Pow(i) * Pow(j)
    decreases j
  {
    if j > 0 {
      PowAdd(i, j - 1);
      calc {
        Pow(i + j);
        BASE * Pow(i + j - 1);
        BASE * (Pow(i) * Pow(j - 1));
        Pow(i) * (BASE * Pow(j - 1));
        Pow(i) * Pow(j);
      }
    }
  }

  lemma {:induction false} PowMonotone(i: nat, j: nat)
    requires i <= j
    ensures Pow(i) <= Pow(j)
    decreases j
  {
    if i < j {
      PowMonotone(i, j - 1);
    }
  }

  lemma {:induction false} PowStrict(i: nat, j: nat)
    requires i < j
    ensures BASE * Pow(i) <= Pow(j)
  {
    PowMonotone(i + 1, j);
  }

  // ---------------------------------------------------------------------------
  // The value of a limb sequence

  lemma {:induction false} MagSingle(x: Limb)
    ensures Mag([x]) == x
  {
    assert [x][1..] == [];
  }

  lemma {:induction false} PowScale(p: int, m: int)
    ensures BASE * (p * m) == (BASE * p) * m
  {
  }

  lemma {:induction false} MagConcat(s: seq<Limb>, t: seq<Limb>)
    ensures Mag(s + t) == Mag(s) + Pow(|s|) * Mag(t)
    decreases |s|
  {
    if |s| == 0 {
      assert s + t == t;
    } else {
      MagConcat(s[1..], t);
      assert (s + t)[1..] == s[1..] + t;
      PowScale(Pow(|s| - 1), Mag(t));
    }
  }

  lemma {:induction false} MagAppend(s: seq<Limb>, x: Limb)
    ensures Mag(s + [x]) == Mag(s) + x * Pow(|s|)
  {
    MagConcat(s, [x]);
    MagSingle(x);
  }

  lemma {:induction false} MagBound(s: seq<Limb>)
    ensures Mag(s) < Pow(|s|)
    decreases |s|
  {
    if |s| > 0 {
      MagBound(s[1..]);
    }
  }

  lemma {:induction false} MagCons(x: Limb, t: seq<Limb>)
    ensures Mag([x] + t) == x + BASE * Mag(t)
  {
    assert ([x] + t)[1..] == t;
  }

  lemma {:induction false} MagSplit(s: seq<Limb>, i: nat)
    requires i <= |s|
    ensures Mag(s) == Mag(s[..i]) + Pow(i) * Mag(s[i..])
  {
    assert s == s[..i] + s[i..];
    MagConcat(s[..i], s[i..]);
  }

  /** Dropping the least-significant limb divides by BASE. */
  lemma {:induction false} MagTail(s: seq<Limb>)
    requires |s| >= 1
    ensures Mag(s) == s[0] + BASE * Mag(s[1..])
  {
  }

  /** Overwriting limb i changes the value by (x - s[i]) * BASE^i. */
  lemma {:induction false} MagUpdate(s: seq<Limb>, i: nat, x: Limb)
    requires i < |s|
    ensures Mag(s[i := x]) == Mag(s) + (x - s[i]) * Pow(i)
  {
    var t := s[i := x];
    MagSplit(s, i);
    MagSplit(t, i);
    assert t[..i] == s[..i];
    assert t[i..][1..] == s[i..][1..];
    var p, h := Pow(i), Mag(s[i + 1..]);
    assert s[i..][1..] == s[i + 1..];
    MulDistrib(p, s[i], BASE * h);
    MulDistrib(p, x, BASE * h);
    MulSub(x, s[i], p);
  }

  lemma {:induction false} MagAllZero(s: seq<Limb>)
    requires forall i :: 0 <= i < |s| ==> s[i] == 0
    ensures Mag(s) == 0
    decreases |s|
  {
    if |s| > 0 {
      MagAllZero(s[1..]);
    }
  }

  lemma {:induction false} MagPadded(s: seq<Limb>, n: nat)
    ensures Mag(s + Fill(0, n)) == Mag(s)
  {
    MagConcat(s, Fill(0, n));
    MagAllZero(Fill(0, n));
  }

  /** A sequence whose limbs above position k are all zero has the value of its first k limbs. */
  lemma {:induction false} MagHighZero(s: seq<Limb>, k: nat)
    requires k <= |s|
    requires forall i :: k <= i < |s| ==> s[i] == 0
    ensures Mag(s) == Mag(s[..k])
  {
    MagSplit(s, k);
    MagAllZero(s[k..]);
  }

  /** A nonzero most-significant limb puts the value at or above BASE^(n-1). */
  lemma {:induction false} MagTopNonzero(s: seq<Limb>)
    requires |s| >= 1 && s[|s| - 1] != 0
    ensures Mag(s) >= Pow(|s| - 1)
  {
    var n := |s| - 1;
    MulLe(1, s[n], Pow(n));
    assert s == s[..n] + [s[n]];
    MagAppend(s[..n], s[n]);
  }

  /** A value below BASE^(n-1) leaves the top limb of an n-limb sequence zero. */
  lemma {:induction false} MagSmallTopZero(s: seq<Limb>)
    requires |s| >= 1 && Mag(s) < Pow(|s| - 1)
    ensures s[|s| - 1] == 0
  {
    if s[|s| - 1] != 0 {
      MagTopNonzero(s);
    }
  }

  /** A value at or above BASE^(n-1) makes the top limb of an n-limb sequence nonzero. */
  lemma {:induction false} MagTopZeroBound(s: seq<Limb>)
    requires |s| >= 1 && Mag(s) >= Pow(|s| - 1)
    ensures s[|s| - 1] != 0
  {
    var n := |s| - 1;
    MagBound(s[..n]);
    assert s == s[..n] + [s[n]];
    MagAppend(s[..n], s[n]);
  }

  /** Sequences of equal length that first differ (from the top) at i compare as that limb does. */
  lemma {:induction false} MagLexLess(s: seq<Limb>, t: seq<Limb>, i: nat)
    requires |s| == |t| && i < |s|
    requires s[i + 1..] == t[i + 1..] && s[i] < t[i]
    ensures Mag(s) < Mag(t)
  {
    MagSplit(s, i);
    MagSplit(t, i);
    MagTail(s[i..]);
    MagTail(t[i..]);
    assert s[i..][1..] == s[i + 1..] && t[i..][1..] == t[i + 1..];
    MagBound(s[..i]);
    LexStep(Mag(s[..i]), Mag(t[..i]), Pow(i), Mag(s[i..]), Mag(t[i..]));
  }

  lemma {:induction false} LexStep(lo: int, lo': int, p: int, hi: int, hi': int)
    requires 0 <= lo < p && 0 <= lo' && hi < hi'
    ensures lo + p * hi < lo' + p * hi'
  {
    MulLe(hi + 1, hi', p);
  }

  /** Of two canonical vectors, the one with the smaller value is not longer. */
  lemma {:induction false} CanonicalLength(s: seq<Limb>, t: seq<Limb>)
    requires Canonical(s) && Canonical(t) && Mag(s) <= Mag(t)
    ensures |s| <= |t|
  {
    if |s| > |t| {
      PowMonotone(|t|, |s| - 1);
      MagBound(t);
      MagTopNonzero(s);
    }
  }

  /** A canonical vector whose value lies in [BASE^(k-1), BASE^k) has exactly k limbs. */
  lemma {:induction false} CanonicalLengthExact(s: seq<Limb>, k: nat)
    requires Canonical(s) && 1 <= k && Pow(k - 1) <= Mag(s) < Pow(k)
    ensures |s| == k
  {
    MagBound(s);
    if |s| < k {
      PowMonotone(|s|, k - 1);
    } else if |s| > k {
      MagTopNonzero(s);
      PowMonotone(k, |s| - 1);
    }
  }

  /** A canonical vector whose value is below BASE^k has at most k limbs. */
  lemma {:induction false} CanonicalLengthAtMost(s: seq<Limb>, k: nat)
    requires Canonical(s) && 1 <= k && Mag(s) < Pow(k)
    ensures |s| <= k
  {
    if |s| > k {
      MagTopNonzero(s);
      PowMonotone(k, |s| - 1);
    }
  }

  /** A vector whose value is at least BASE^(k-1) has at least k limbs. */
  lemma {:induction false} LengthAtLeast(s: seq<Limb>, k: nat)
    requires 1 <= k && Pow(k - 1) <= Mag(s)
    ensures k <= |s|
  {
    MagBound(s);
    if |s| < k {
      PowMonotone(|s|, k - 1);
    }
  }

  /** Distinct equal-length sequences have distinct values. */
  lemma {:induction false} MagInjective(s: seq<Limb>, t: seq<Limb>)
    requires |s| == |t| && Mag(s) == Mag(t)
    ensures s == t
    decreases |s|
  {
    if |s| > 0 {
      var n := |s| - 1;
      if s[n] < t[n] {
        assert s[n + 1..] == t[n + 1..];
        MagLexLess(s, t, n);
      } else if t[n] < s[n] {
        assert s[n + 1..] == t[n + 1..];
        MagLexLess(t, s, n);
      } else {
        assert s == s[..n] + [s[n]] && t == t[..n] + [t[n]];
        MagAppend(s[..n], s[n]);
        MagAppend(t[..n], t[n]);
        MagInjective(s[..n], t[..n]);
      }
    }
  }

  /** A canonical vector is determined by its value. */
  lemma {:induction false} CanonicalUnique(s: seq<Limb>, t: seq<Limb>)
    requires Canonical(s) && Canonical(t) && Mag(s) == Mag(t)
    ensures s == t
  {
    CanonicalLength(s, t);
    CanonicalLength(t, s);
    MagInjective(s, t);
  }
}
