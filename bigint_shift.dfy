/** The shift operators of big_integer (bigint/big_integer.cpp): `<<` multiplies
    by 2^k, `>>` divides by 2^k rounding toward minus infinity (arithmetic
    shift, through the two's-complement view of a negative operand). A shift
    by k splits into k / 32 whole limbs and k % 32 bits. */
module BigIntShift {
  import opened Limbs
  import opened BigIntCore
  import opened BigIntDivision
  import opened BigIntBitwise

  // ---------------------------------------------------------------------------
  // Limb shifts

  /** `x << d` on a `uint32_t`: the bits shifted out of the limb are lost.
      (d = 32 is the shift `x << (BITS_IN_CELL - 0)`; the model gives it its
      arithmetic meaning, 0.) */
  function ShlLimb(x: Limb, d: nat): (r: Limb)
    requires d <= 32
    ensures r == (x % Pow2(32 - d)) * Pow2(d)
  {
    Halves(d);
    SplitArith(x, Pow2(d), Pow2(32 - d));
    (x * Pow2(d)) % BASE
  }

  /** `x >> d` on a `uint32_t` (d = 32 gives 0, as for ShlLimb). */
  function ShrLimb(x: Limb, d: nat): (r: Limb)
    requires d <= 32
    ensures r * Pow2(d) <= x < (r + 1) * Pow2(d)
  {
    FloorBounds(x, Pow2(d));
    DivShrinks(x, Pow2(d));
    x / Pow2(d)
  }

  lemma {:induction false} DivShrinks(x: nat, p: int)
    requires p >= 1
    ensures 0 <= x / p <= x
  {
    MulLe(1, p, x / p);
  }

  lemma {:induction false} Pow2Add(i: nat, j: nat)
    ensures Pow2(i + j) == Pow2(i) * Pow2(j)
    decreases j
  {
    if j > 0 {
      Pow2Add(i, j - 1);
      MulAssoc(2, Pow2(i), Pow2(j - 1));
    }
  }

  /** The two parts of a limb split at bit d multiply to BASE. */
  lemma {:induction false} Halves(d: nat)
    requires d <= 32
    ensures Pow2(d) * Pow2(32 - d) == BASE
  {
    Pow2Add(d, 32 - d);
    Pow2Base();
  }

  /** 2^k is BASE^(k / 32) times 2^(k % 32). */
  lemma {:induction false} Pow2Limbs(q: nat, c: nat)
    ensures Pow2(32 * q + c) == Pow(q) * Pow2(c)
  {
    if q > 0 {
      var e := 32 * (q - 1) + c;
      assert Pow2(32 * q + c) == BASE * Pow2(e) by {
        Pow2Add(32, e);
        Pow2Base();
        assert 32 + e == 32 * q + c;
      }
      Pow2Limbs(q - 1, c);
      PowScale(Pow(q - 1), Pow2(c));
    }
  }

  /** A limb x split at a bit boundary, with p * q == BASE: x * p is the low
      part (x % q) * p plus BASE times the high part x / q. */
  lemma {:induction false} SplitArith(x: int, p: int, q: int)
    requires 0 <= x < BASE && p >= 1 && q >= 1 && p * q == BASE
    ensures (x * p) % BASE == (x % q) * p && (x * p) / BASE == x / q
    ensures x / q < p && (x % q) * p <= BASE - p
  {
    var hi, lo := x / q, x % q;
    assert x == q * hi + lo;
    MulLe(lo, q - 1, p);
    MulSub(q, 1, p);
    assert x * p == BASE * hi + lo * p by {
      MulSub(q * hi + lo, lo, p);
      MulAssoc(p, q, hi);
    }
    DivUnique(x * p, BASE, hi, lo * p);
    if hi >= p {
      MulLe(p, hi, q);
    }
  }

  /** Shifting a limb left by d bits: the low part stays in the limb, the high
      part x >> (32 - d) carries into the next limb. */
  lemma {:induction false} ShlSplit(x: Limb, d: nat)
    requires d <= 32
    ensures ShlLimb(x, d) == (x % Pow2(32 - d)) * Pow2(d) <= BASE - Pow2(d)
    ensures x * Pow2(d) == ShlLimb(x, d) + BASE * ShrLimb(x, 32 - d)
    ensures ShrLimb(x, 32 - d) < Pow2(d)
  {
    Halves(d);
    SplitArith(x, Pow2(d), Pow2(32 - d));
  }

  /** What is left of a limb shifted right by d bits is below 2^(32 - d). */
  lemma {:induction false} ShrBound(x: Limb, d: nat)
    requires d <= 32
    ensures ShrLimb(x, d) < Pow2(32 - d)
  {
    ShlSplit(x, 32 - d);
  }

  // ---------------------------------------------------------------------------
  // operator<<

  /** One step of the `<<` loop: the low part of x plus the carry from the
      limb below fits a limb, and the invariant "value so far plus carry
      equals the shifted prefix" holds one limb further. */
  lemma {:induction false} LeftStep(done: seq<Limb>, pre: seq<Limb>, x: Limb, rem: nat, c: nat)
    requires c < 32 && |done| == |pre| && rem < Pow2(c)
    requires Mag(done) + rem * Pow(|done|) == Mag(pre) * Pow2(c)
    ensures ShlLimb(x, c) + rem < BASE && ShrLimb(x, 32 - c) < Pow2(c)
    ensures Mag(done + [ShlLimb(x, c) + rem]) + ShrLimb(x, 32 - c) * Pow(|done| + 1)
            == Mag(pre + [x]) * Pow2(c)
  {
    var p, q := Pow2(c), Pow2(32 - c);
    ShlSplit(x, c);
    Halves(c);
    MulLe(x % q, q - 1, p);
    MulSub(q, 1, p);
    var lo, hi, j := ShlLimb(x, c), ShrLimb(x, 32 - c), |done|;
    MagAppend(done, lo + rem);
    MagAppend(pre, x);
    LeftArith(Mag(done), Mag(pre), rem, lo, hi, x, Pow(j), p);
  }

  lemma {:induction false} LeftArith(m: int, mp: int, rem: int, lo: int, hi: int, x: int, pj: int, p: int)
    requires m + rem * pj == mp * p && x * p == lo + BASE * hi
    ensures m + (lo + rem) * pj + hi * (BASE * pj) == (mp + x * pj) * p
  {
    MulAssoc(pj, x, p);
  }

  /** The limbs `<<` builds: k / 32 zero limbs, then the operand's limbs
      shifted by k % 32 bits, with the carry out of the top limb appended. */
  lemma {:induction false} LeftResult(v: seq<Limb>, s: nat, a: seq<Limb>, rem: nat, c: nat)
    requires |v| == s + |a| && (forall j :: 0 <= j < s ==> v[j] == 0)
    requires Mag(v[s..]) + rem * Pow(|a|) == Mag(a) * Pow2(c)
    requires rem < BASE
    ensures Mag(v + [rem]) == Mag(a) * (Pow(s) * Pow2(c))
  {
    var w := v + [rem];
    MagSplit(w, s);
    MagAllZero(w[..s]);
    assert w[s..] == v[s..] + [rem];
    MagAppend(v[s..], rem);
    MulAssoc(Pow(s), Mag(a), Pow2(c));
  }

  /** The invariant of the `<<` loop at limb i: the limbs rewritten so far plus
      the pending carry are the operand's first i - shift limbs times 2^c. */
  predicate LeftCarried(v: seq<Limb>, a: seq<Limb>, shift: nat, i: nat, rem: int, c: nat)
    requires shift <= i <= |v| && i - shift <= |a|
  {
    0 <= rem < Pow2(c) && Mag(v[shift..i]) + rem * Pow(i - shift) == Mag(a[..i - shift]) * Pow2(c)
  }

  /** One pass of the `<<` loop body keeps LeftCarried. */
  lemma {:induction false} LeftLoopStep(v: seq<Limb>, a: seq<Limb>, shift: nat, i: nat, rem: Limb, c: nat)
    requires c < 32 && shift <= i < |v| == shift + |a| && v[i] == a[i - shift]
    requires LeftCarried(v, a, shift, i, rem, c)
    ensures ShlLimb(v[i], c) + rem < BASE
    ensures LeftCarried(v[i := ShlLimb(v[i], c) + rem], a, shift, i + 1, ShrLimb(v[i], 32 - c), c)
  {
    LeftStep(v[shift..i], a[..i - shift], v[i], rem, c);
    var temp := ShlLimb(v[i], c) + rem;
    assert a[..i + 1 - shift] == a[..i - shift] + [v[i]];
    assert v[i := temp][shift..i + 1] == v[shift..i] + [temp];
  }

  /** The limbs `<<` builds before trimming: k / 32 zero limbs, the operand's
      limbs shifted in place by c = k % 32 bits with the carry moved up, and
      the last carry pushed on top. Their value is the operand's times
      BASE^(k / 32) * 2^c. */
  method ShiftLimbsLeft(a: seq<Limb>, shift: nat, c: nat) returns (v: seq<Limb>)
    requires c < 32
    ensures |v| == shift + |a| + 1
    ensures Mag(v) == Mag(a) * (Pow(shift) * Pow2(c))
  {
    v := Fill(0, shift) + a;
    var rem: Limb := 0;
    var i := shift;
    assert v[shift..i] == [] && a[..0] == [];
    while i < |v|
      invariant shift <= i <= |v| == shift + |a|
      invariant forall j :: 0 <= j < shift ==> v[j] == 0
      invariant forall j :: i <= j < |v| ==> v[j] == a[j - shift]
      invariant LeftCarried(v, a, shift, i, rem, c)
    {
      LeftLoopStep(v, a, shift, i, rem, c);
      var temp := ShlLimb(v[i], c) + rem;
      rem := ShrLimb(v[i], 32 - c);
      v := v[i := temp];
      i := i + 1;
    }
    assert v[shift..] == v[shift..i] && a[..i - shift] == a;
    Pow2Base();
    LeftResult(v, shift, a, rem, c);
    v := v + [rem];
  }

  /** `operator<<`: a negative count shifts right. */
  method ShiftLeft(a: BigInteger, k: int) returns (r: BigInteger)
    requires Valid(a) && INT32_MIN < k <= INT32_MAX
    ensures Valid(r)
    ensures k >= 0 ==> ToInt(r) == ToInt(a) * Pow2(k)
    ensures k < 0 ==> ToInt(r) == RightAsWritten(a, -k)
    decreases if k < 0 then 1 else 0
  {
    if k < 0 {
      r := ShiftRight(a, -k);
      return;
    } else if k == 0 {
      return a;
    }
    var shift, c := k / 32, k % 32;
    var v := ShiftLimbsLeft(a.value, shift, c);
    var t := Trim(v);
    r := BigInteger(a.sign, t);
    var m, p := Mag(a.value), Pow2(k);
    assert Mag(t) == m * p by {
      assert k == 32 * shift + c;
      Pow2Limbs(shift, c);
    }
    MulSub(0, m, p);
  }

  // ---------------------------------------------------------------------------
  // operator>>

  /** The value `>>` as written gives for k > 0: the floor of a / 2^k, except
      that when k is a multiple of 32, a has two limbs and the floor is -BASE,
      `complementation` sees the remaining view [0] as zero and returns +BASE;
      and a negative zero, whose view BASE^2 `binary` marks non-negative, is
      shifted as that view padded with k / 32 - 1 all-ones limbs. */
  function RightAsWritten(a: BigInteger, k: nat): (r: int)
    ensures !NegZero(a) && ToInt(a) >= 0 ==> r == ToInt(a) / Pow2(k)
    ensures !NegZero(a) ==> r == ToInt(a) / Pow2(k) || r == -(ToInt(a) / Pow2(k))
    ensures NegZero(a) ==> r >= 0
  {
    if NegZero(a) then NegZeroRight(a, k) else
      var f := ToInt(a) / Pow2(k);
      if k % 32 == 0 && |a.value| == 2 && f == -BASE then BASE else f
  }

  /** What `>>` as written gives a negative zero: its padded view shifted as
      a non-negative number. */
  function NegZeroRight(a: BigInteger, k: nat): int
  {
    Mag(RightView(a, k / 32)) / Pow2(k)
  }

  /** Limb i after the in-place loop of `>>`: the limb shifted right by c bits
      plus the low c bits of the limb above, moved to the top. */
  function ShiftedLimb(x: Limb, y: Limb, c: nat): Limb
    requires c < 32
  {
    ShrBound(x, c);
    ShlSplit(y, 32 - c);
    Halves(c);
    MulLe(y % Pow2(c), Pow2(c) - 1, Pow2(32 - c));
    MulSub(Pow2(c), 1, Pow2(32 - c));
    ShrLimb(x, c) + ShlLimb(y, 32 - c)
  }

  /** Limb i of what the loop of `>>` leaves behind. */
  function ShiftedAt(t: seq<Limb>, c: nat, i: nat): Limb
    requires c < 32 && i < |t|
  {
    if i + 1 < |t| then ShiftedLimb(t[i], t[i + 1], c) else ShrLimb(t[i], c)
  }

  /** The limbs the loop of `>>` leaves behind. */
  function Shifted(t: seq<Limb>, c: nat): (r: seq<Limb>)
    requires c < 32
    ensures |r| == |t| && forall i :: 0 <= i < |t| ==> r[i] == ShiftedAt(t, c, i)
  {
    seq(|t|, i requires 0 <= i < |t| => ShiftedAt(t, c, i))
  }

  /** The in-place loop of `>>`: every limb takes its own high bits and the
      low bits of the limb above; the top limb only its own high bits. */
  method ShiftLimbsRight(t: seq<Limb>, c: nat) returns (r: seq<Limb>)
    requires |t| >= 1 && c < 32
    ensures r == Shifted(t, c)
  {
    r := t;
    var i := 0;
    while i < |r| - 1
      invariant 0 <= i <= |r| - 1 && |r| == |t|
      invariant forall j :: 0 <= j < i ==> r[j] == ShiftedLimb(t[j], t[j + 1], c)
      invariant r[i..] == t[i..]
    {
      r := r[i := ShiftedLimb(r[i], r[i + 1], c)];
      i := i + 1;
    }
    r := r[|r| - 1 := ShrLimb(r[|r| - 1], c)];
  }

  /** The loop of `>>` divides the limbs' value by 2^c. */
  lemma {:induction false} MagShifted(t: seq<Limb>, c: nat)
    requires c < 32
    ensures Mag(Shifted(t, c)) == Mag(t) / Pow2(c)
    decreases |t|
  {
    var p, q := Pow2(c), Pow2(32 - c);
    if |t| == 0 {
    } else if |t| == 1 {
      MagSingle(t[0]);
      MagSingle(Shifted(t, c)[0]);
      assert Shifted(t, c) == [Shifted(t, c)[0]];
    } else {
      var r := Shifted(t, c);
      assert r[1..] == Shifted(t[1..], c);
      MagShifted(t[1..], c);
      ShlSplit(t[1], 32 - c);
      Halves(c);
      var m1 := Mag(t[1..]);
      MagTail(t[1..]);
      assert t[1..][1..] == t[2..];
      ShiftArith(t[0], t[1], Mag(t[2..]), m1, Mag(r[1..]), r[0], p, q);
      DivUnique(Mag(t), p, Mag(r), t[0] % p);
    }
  }

  lemma {:induction false} ShiftArith(t0: int, t1: int, m2: int, m1: int, s1: int, r0: int, p: int, q: int)
    requires p >= 1 && q >= 1 && p * q == BASE && t0 >= 0 && t1 >= 0
    requires m1 == t1 + BASE * m2 && s1 == m1 / p
    requires r0 == t0 / p + (t1 % p) * q
    ensures t0 + BASE * m1 == (t0 % p) + p * (r0 + BASE * s1)
  {
    var lo, hi := t1 % p, t1 / p;
    assert s1 == hi + q * m2 by {
      HighPart(t1, m2, m1, p, q);
    }
    assert p * (r0 + BASE * s1) == p * (t0 / p) + BASE * lo + BASE * (p * s1) by {
      MulDistrib(p, r0, BASE * s1);
      MulDistrib(p, t0 / p, lo * q);
      MulAssoc(p, lo, q);
      MulAssoc(p, BASE, s1);
    }
    assert BASE * m1 == BASE * lo + BASE * (p * s1) by {
      assert m1 == lo + p * s1 by {
        MulDistrib(p, hi, q * m2);
        MulAssoc(p, q, m2);
      }
      MulDistrib(BASE, lo, p * s1);
    }
  }

  /** With m1 = t1 + BASE * m2, floor division by p (a divisor of BASE) moves
      t1's high part and q * m2 into the quotient. */
  lemma {:induction false} HighPart(t1: int, m2: int, m1: int, p: int, q: int)
    requires p >= 1 && q >= 1 && p * q == BASE && t1 >= 0
    requires m1 == t1 + BASE * m2
    ensures m1 / p == t1 / p + q * m2
  {
    assert m1 == t1 % p + p * (t1 / p + q * m2) by {
      MulDistrib(p, t1 / p, q * m2);
      MulAssoc(p, q, m2);
    }
    DivUnique(m1, p, t1 / p + q * m2, t1 % p);
  }

  /** All ones split at bit c: 2^(32 - c) - 1 above, 2^c - 1 below. */
  lemma {:induction false} OnesArith(p: int, q: int)
    requires p >= 1 && q >= 1 && p * q == BASE
    ensures (BASE - 1) / p == q - 1 && (BASE - 1) % p == p - 1
  {
    MulSub(q, 1, p);
    DivUnique(BASE - 1, p, q - 1, p - 1);
  }

  /** All ones shifted right by c bits leaves 2^(32 - c) - 1. */
  lemma {:induction false} OnesShifted(c: nat)
    requires c < 32
    ensures ShrLimb(BASE - 1, c) == Pow2(32 - c) - 1 >= 1
  {
    Halves(c);
    OnesArith(Pow2(c), Pow2(32 - c));
    Pow2Strict(0, 32 - c);
  }

  lemma {:induction false} Pow2Strict(i: nat, j: nat)
    requires i < j
    ensures Pow2(i) < Pow2(j)
    decreases j
  {
    if i < j - 1 {
      Pow2Strict(i, j - 1);
    }
  }

  /** Dropping the low s limbs of a view divides its value by BASE^s, rounding
      toward minus infinity. */
  lemma {:induction false} DropView(v: seq<Limb>, s: nat, neg: bool)
    requires s <= |v|
    ensures View(v[s..], neg) == View(v, neg) / Pow(s)
  {
    var lo: int, hi: int, p: int, q: int := Mag(v[..s]), Mag(v[s..]), Pow(s), Pow(|v| - s);
    assert Mag(v) == lo + p * hi by {
      MagSplit(v, s);
    }
    assert Pow(|v|) == p * q by {
      PowAdd(s, |v| - s);
    }
    MagBound(v[..s]);
    DropArith(Mag(v), lo, hi, p, q, Pow(|v|));
  }

  lemma {:induction false} DropArith(m: int, lo: int, hi: int, p: int, q: int, pv: int)
    requires m == lo + p * hi && pv == p * q && 0 <= lo < p
    ensures m / p == hi && (m - pv) / p == hi - q
  {
    MulDistrib(p, hi, -q);
    DivUnique(m, p, hi, lo);
    DivUnique(m - pv, p, hi - q, lo);
  }

  /** Floor division by p, then by q, is floor division by p * q. */
  lemma {:induction false} DivDiv(x: int, p: int, q: int)
    requires p > 0 && q > 0
    ensures x / p / q == x / (p * q)
  {
    var q1, r1 := x / p, x % p;
    var q2, r2 := q1 / q, q1 % q;
    assert p * r2 + r1 < p * q by {
      MulLe(r2, q - 1, p);
      MulSub(q, 1, p);
    }
    assert x == (p * q) * q2 + (p * r2 + r1) by {
      assert q1 == q * q2 + r2;
      MulDistrib(p, q * q2, r2);
      MulAssoc(p, q, q2);
    }
    DivUnique(x, p * q, q2, p * r2 + r1);
  }

  /** What the limb part of `>>` promises: for a non-negative operand the
      magnitude of the floor, for a negative one a view of it, which is [0]
      exactly in the case `complementation` gets wrong. */
  predicate RightOutcome(a: BigInteger, k: nat, sign: bool, u: seq<Limb>)
  {
    var f := ToInt(a) / Pow2(k);
    if !a.sign then !sign && Canonical(u) && Mag(u) == f
    else sign && View(u, true) == f &&
         (|u| == 1 && u[0] == 0 <==> k % 32 == 0 && |a.value| == 2 && f == -BASE)
  }

  /** The non-negative case of `>>`: the dropped limbs and the loop divide by
      BASE^(k / 32) and 2^(k % 32). */
  lemma {:induction false} RightPositive(a: BigInteger, k: nat, u: seq<Limb>)
    requires Valid(a) && !a.sign && k > 0 && k / 32 < |a.value|
    requires Canonical(u) && Mag(u) == Mag(Shifted(a.value[k / 32..], k % 32))
    ensures RightOutcome(a, k, false, u)
  {
    var s, c := k / 32, k % 32;
    MagShifted(a.value[s..], c);
    DropView(a.value, s, false);
    DivDiv(Mag(a.value), Pow(s), Pow2(c));
    Pow2Limbs(s, c);
  }

  /** The non-negative case of `>>` when every limb is dropped: the result is 0. */
  lemma {:induction false} RightAllDropped(a: BigInteger, k: nat)
    requires Valid(a) && !a.sign && k / 32 >= |a.value|
    ensures RightOutcome(a, k, false, [0])
  {
    var s, c := k / 32, k % 32;
    assert k == 32 * s + c;
    MagBound(a.value);
    PowMonotone(|a.value|, s);
    Pow2Limbs(s, c);
    BelowDivisor(Mag(a.value), Pow(s), Pow2(c), Pow2(k));
    MagSingle(0);
  }

  lemma {:induction false} BelowDivisor(m: int, p: int, q: int, pq: int)
    requires 0 <= m < p && q >= 1 && pq == p * q
    ensures m / pq == 0
  {
    MulLe(1, q, p);
    DivUnique(m, pq, 0, m);
  }

  /** The view `>>` shifts for a negative operand: `binary`, then k / 32 - 1
      more all-ones limbs, so that k / 32 limbs can be dropped and still leave
      the all-ones top limb. */
  function RightView(a: BigInteger, s: nat): seq<Limb>
  {
    TwosView(a) + Fill(BASE - 1, if s >= 1 then s - 1 else 0)
  }

  /** The negative case of `>>`: the padded view still denotes a, dropping
      k / 32 limbs and shifting by k % 32 bits floors the division, the top
      limb left is nonzero and `pop_back` removes it. */
  lemma {:induction false} RightNegative(a: BigInteger, k: nat, num: seq<Limb>, r: seq<Limb>)
    requires Valid(a) && a.sign && !IsZero(a) && k > 0
    requires num == RightView(a, k / 32) && k / 32 < |num| && r == Shifted(num[k / 32..], k % 32)
    ensures Canonical(r) && RightOutcome(a, k, true, r[..|r| - 1])
  {
    var s, c := k / 32, k % 32;
    RightViewShape(a, s);
    var t := num[s..];
    assert Canonical(r) by {
      OnesShifted(c);
      assert r[|t| - 1] == ShrLimb(BASE - 1, c);
    }
    RightNegativeValue(a, k, num, t);
    ZeroView(t, c);
  }

  /** The padded view of a negative operand: one limb more than the operand
      plus the padding, all ones on top, and still denoting the operand. */
  lemma {:induction false} RightViewShape(a: BigInteger, s: nat)
    requires Valid(a) && a.sign && !IsZero(a)
    ensures var num := RightView(a, s);
      View(num, true) == ToInt(a) && num[|num| - 1] == BASE - 1 &&
      |num| == |a.value| + 1 + (if s >= 1 then s - 1 else 0)
  {
    TwosViewMeans(a);
    ViewExtend(TwosView(a), if s >= 1 then s - 1 else 0, true);
  }

  /** The value half of RightNegative: the limbs left after dropping,
      shifting and `pop_back` are a view of the floor of a / 2^k. */
  lemma {:induction false} RightNegativeValue(a: BigInteger, k: nat, num: seq<Limb>, t: seq<Limb>)
    requires k > 0 && k / 32 < |num| && t == num[k / 32..] && t[|t| - 1] == BASE - 1
    requires View(num, true) == ToInt(a)
    ensures View(Shifted(t, k % 32)[..|t| - 1], true) == ToInt(a) / Pow2(k)
  {
    var s, c := k / 32, k % 32;
    var u := Shifted(t, c)[..|t| - 1];
    assert View(t, true) == ToInt(a) / Pow(s) by {
      DropView(num, s, true);
    }
    assert View(u, true) == View(t, true) / Pow2(c) by {
      TopShifted(t, c);
    }
    DivDiv(ToInt(a), Pow(s), Pow2(c));
    assert k == 32 * s + c;
    Pow2Limbs(s, c);
  }

  /** Shifting a negative view t (top limb all ones) by c bits: the top limb
      left is 2^(32 - c) - 1, and without it the limbs are a view of the floor
      of t's value over 2^c. */
  lemma {:induction false} TopShifted(t: seq<Limb>, c: nat)
    requires c < 32 && |t| >= 1 && t[|t| - 1] == BASE - 1
    ensures var r := Shifted(t, c);
      View(r[..|t| - 1], true) == View(t, true) / Pow2(c)
  {
    var p, q, l := Pow2(c), Pow2(32 - c), |t| - 1;
    var r := Shifted(t, c);
    assert Mag(r) == Mag(t) / p by {
      MagShifted(t, c);
    }
    assert Mag(r) == Mag(r[..l]) + (q - 1) * Pow(l) by {
      OnesShifted(c);
      assert r[l] == q - 1;
      MagLast(r);
    }
    Halves(c);
    var vt, vu := View(t, true), View(r[..l], true);
    assert vt == Mag(t) - BASE * Pow(l);
    assert vu == Mag(r[..l]) - Pow(l);
    TopArith(vt, Mag(t), Mag(r), Mag(r[..l]), Pow(l), p, q);
    assert vu == vt / p;
  }

  lemma {:induction false} MagLast(r: seq<Limb>)
    requires |r| >= 1
    ensures Mag(r) == Mag(r[..|r| - 1]) + r[|r| - 1] * Pow(|r| - 1)
  {
    assert r == r[..|r| - 1] + [r[|r| - 1]];
    MagAppend(r[..|r| - 1], r[|r| - 1]);
  }

  lemma {:induction false} TopArith(vt: int, mt: int, mr: int, mu: int, pl: int, p: int, q: int)
    requires p >= 1 && p * q == BASE && mr == mt / p && mr == mu + (q - 1) * pl
    requires vt == mt - BASE * pl
    ensures vt / p == mu - pl
  {
    MulSub(q, 1, pl);
    MulAssoc(p, q, pl);
    MulDistrib(p, mu, -pl);
    assert mt - BASE * pl == mt % p + p * (mu - pl);
    DivUnique(mt - BASE * pl, p, mu - pl, mt % p);
  }

  /** The bottom limb after shifting [t0, BASE - 1] right by c bits is zero
      exactly when c is 0 and t0 is 0: otherwise the low bits of the all-ones
      limb land in it. */
  lemma {:induction false} ZeroLimb(t0: Limb, c: nat)
    requires c < 32
    ensures ShiftedLimb(t0, BASE - 1, c) == 0 <==> c == 0 && t0 == 0
  {
    var p, q := Pow2(c), Pow2(32 - c);
    Halves(c);
    ShlSplit(BASE - 1, 32 - c);
    OnesArith(p, q);
    if c == 0 {
      assert ShrLimb(t0, 0) == t0;
    } else {
      Pow2Strict(0, c);
      Pow2Strict(0, 32 - c);
      MulLe(1, p - 1, q);
    }
  }

  /** When the view left after `pop_back` is a single limb, that limb is 0
      exactly when the shift is by whole limbs and the floor is -BASE. */
  lemma {:induction false} ZeroView(t: seq<Limb>, c: nat)
    requires c < 32 && |t| >= 1 && t[|t| - 1] == BASE - 1
    ensures var u := Shifted(t, c)[..|t| - 1];
      |u| == 1 ==> (u[0] == 0 <==> c == 0 && View(u, true) == -BASE)
  {
    if |t| == 2 {
      var u := Shifted(t, c)[..1];
      assert u[0] == ShiftedLimb(t[0], BASE - 1, c);
      ZeroLimb(t[0], c);
      assert u == [u[0]];
      MagSingle(u[0]);
      assert Pow(1) == BASE;
    }
  }

  /** The loop of `>>` that sign-extends a negative operand's view by
      k / 32 - 1 all-ones limbs (none when k / 32 is 0). */
  method PadOnes(v: seq<Limb>, shift: nat) returns (r: seq<Limb>)
    ensures r == v + Fill(BASE - 1, if shift >= 1 then shift - 1 else 0)
  {
    r := v;
    var i := 0;
    while i < shift - 1
      invariant 0 <= i <= if shift >= 1 then shift - 1 else 0
      invariant r == v + Fill(BASE - 1, i)
    {
      r := r + [BASE - 1];
      i := i + 1;
    }
  }

  /** What `>>` makes of a negative zero: `binary` clears the sign, so the
      padded view is shifted as a non-negative number. */
  function NegZeroOperand(a: BigInteger, s: nat): BigInteger
  {
    BigInteger(false, RightView(a, s))
  }

  /** The padded view of a negative zero is canonical and, with at most one
      dropped limb, is BASE^2. */
  lemma {:induction false} NegZeroViewPadded(a: BigInteger, s: nat)
    requires NegZero(a)
    ensures Valid(NegZeroOperand(a, s)) && ToInt(NegZeroOperand(a, s)) == Mag(RightView(a, s))
    ensures s <= 1 ==> RightView(a, s) == [0, 0, 1] && Mag(RightView(a, s)) == Pow(2)
  {
    NegZeroView(a);
    var m := if s >= 1 then s - 1 else 0;
    var v := RightView(a, s);
    if m == 0 {
      assert v == [0, 0, 1];
    } else {
      assert v[|v| - 1] == BASE - 1;
    }
  }

  /** The operand `>>` works on: a non-negative one as it is, a negative one
      through `binary`, sign-extended by PadOnes. */
  method RightOperand(a: BigInteger, shift: nat) returns (num: BigInteger)
    requires Valid(a)
    ensures !a.sign ==> num == a
    ensures a.sign ==> num.sign == !IsZero(a) && num.value == RightView(a, shift)
    ensures a.sign && !IsZero(a) ==> shift < |num.value|
  {
    num := a;
    if num.sign {
      num := Binary(num);
      var v := PadOnes(num.value, shift);
      num := BigInteger(num.sign, v);
      if !IsZero(a) {
        RightViewShape(a, shift);
      }
    }
  }

  /** The part of `>>` before `complementation`: the sign it sets and the
      limbs it hands over. */
  method RightLimbs(a: BigInteger, k: int) returns (sign: bool, u: seq<Limb>)
    requires Valid(a) && 0 < k <= INT32_MAX
    ensures !sign ==> Canonical(u)
    ensures !NegZero(a) ==> RightOutcome(a, k, sign, u)
    ensures NegZero(a) ==> RightOutcome(NegZeroOperand(a, k / 32), k, sign, u)
  {
    var shift := k / 32;
    var num := RightOperand(a, shift);
    if shift >= |num.value| {
      if !a.sign {
        RightAllDropped(a, k);
      } else {
        NegZeroViewPadded(a, shift);
        RightAllDropped(num, k);
      }
      MagSingle(0);
      return false, [0];
    }
    sign, u := RightKept(a, k, num);
  }

  /** The limbs of the operand above the k / 32 dropped ones, shifted right by
      k % 32 bits, trimmed, and for a negative view without its top limb. */
  method RightKept(a: BigInteger, k: int, num: BigInteger) returns (sign: bool, u: seq<Limb>)
    requires Valid(a) && 0 < k <= INT32_MAX && k / 32 < |num.value|
    requires !a.sign ==> num == a
    requires a.sign ==> num.sign == !IsZero(a) && num.value == RightView(a, k / 32)
    ensures sign == num.sign
    ensures !sign ==> Canonical(u)
    ensures !NegZero(a) ==> RightOutcome(a, k, sign, u)
    ensures NegZero(a) ==> RightOutcome(NegZeroOperand(a, k / 32), k, sign, u)
  {
    var shift, c := k / 32, k % 32;
    var t := ShiftLimbsRight(num.value[shift..], c);
    u := Trim(t);
    sign := num.sign;
    if sign {
      RightNegative(a, k, num.value, t);
      CanonicalUnique(u, t);
      u := u[..|u| - 1];
    } else if !a.sign {
      RightPositive(a, k, u);
    } else {
      NegZeroKept(a, k, num, u);
    }
  }

  /** The negative-zero case of RightKept: the view is kept and shifted as a
      non-negative number. */
  lemma {:induction false} NegZeroKept(a: BigInteger, k: nat, num: BigInteger, u: seq<Limb>)
    requires NegZero(a) && k > 0 && num == NegZeroOperand(a, k / 32) && k / 32 < |num.value|
    requires Canonical(u) && Mag(u) == Mag(Shifted(num.value[k / 32..], k % 32))
    ensures RightOutcome(num, k, false, u)
  {
    NegZeroViewPadded(a, k / 32);
    RightPositive(num, k, u);
  }

  /** `operator>>` as written: a negative count shifts left. */
  method ShiftRight(a: BigInteger, k: int) returns (r: BigInteger)
    requires Valid(a) && INT32_MIN < k <= INT32_MAX
    ensures Valid(r)
    ensures k > 0 ==> ToInt(r) == RightAsWritten(a, k)
    ensures k == 0 ==> r == a
    ensures k < 0 ==> ToInt(r) == ToInt(a) * Pow2(-k)
    decreases if k < 0 then 1 else 0
  {
    if k < 0 {
      r := ShiftLeft(a, -k);
      return;
    } else if k == 0 {
      return a;
    }
    var sign, u := RightLimbs(a, k);
    r := Complementation(BigInteger(sign, u));
    if sign && !NegZero(a) {
      MagSingle(0);
      assert Pow(1) == BASE;
    } else if NegZero(a) {
      NegZeroViewPadded(a, k / 32);
    }
  }

  /** A negative zero shifted right by fewer than 64 bits: `>>` as written
      shifts its view BASE^2 = 2^64 and returns 2^(64 - k), where the floor of
      0 / 2^k is 0. */
  lemma {:induction false} ShiftRightNegZero(a: BigInteger, k: nat)
    requires NegZero(a) && 0 < k < 64
    ensures ToInt(a) / Pow2(k) == 0 && RightAsWritten(a, k) == Pow2(64 - k) > 0
  {
    var p, q := Pow2(64 - k), Pow2(k);
    assert Mag(RightView(a, k / 32)) == p * q by {
      NegZeroViewPadded(a, k / 32);
      Pow2Limbs(2, 0);
      Pow2Add(64 - k, k);
    }
    DivUnique(p * q, q, p, 0);
    DivUnique(0, q, 0, 0);
  }

  /** `operator>>` corrected: a negative zero is read as zero and the sign of
      the result comes from the view, so the view [0] gives -BASE. */
  method ShiftRightFixed(a: BigInteger, k: int) returns (r: BigInteger)
    requires Valid(a) && 0 < k <= INT32_MAX
    ensures Valid(r) && ToInt(r) == ToInt(a) / Pow2(k)
  {
    var sign, u := RightLimbs(Normal(a), k);
    r := ComplementationFixed(BigInteger(sign, u));
  }

  /** The case `>>` as written gets wrong: -(BASE^2 - 1) >> 32. The floor is
      -BASE; the result is +BASE. */
  lemma {:induction false} ShiftRightSignLost()
    ensures var a := BigInteger(true, [BASE - 1, BASE - 1]);
      Valid(a) && ToInt(a) / Pow2(32) == -BASE && RightAsWritten(a, 32) == BASE
  {
    var a := BigInteger(true, [BASE - 1, BASE - 1]);
    MagSingle(BASE - 1);
    MagCons(BASE - 1, [BASE - 1]);
    Pow2Base();
    DivUnique(ToInt(a), BASE, -BASE, 1);
  }
}
