/** Division of big_integer (bigint/big_integer.cpp): division by one limb
    (`simple_division`), the general long division with its helpers `normalise`,
    `trial`, `smaller` and `difference`, and `operator/` and `operator%`, which
    round toward zero as C++ integer division does. */
module BigIntDivision {
  import opened Limbs
  import opened BigIntCore

  // ---------------------------------------------------------------------------
  // Reference definitions

  function Abs(x: int): nat
  {
    if x < 0 then -x else x
  }

  /** C++ integer division: the quotient of the magnitudes, negated when the
      operands have opposite signs (rounding toward zero). */
  function TruncDiv(x: int, y: int): int
    requires y != 0
  {
    var q := Abs(x) / Abs(y);
    if (x < 0) != (y < 0) then -q else q
  }

  /** C++ remainder: the remainder of the magnitudes, with the sign of x. */
  function TruncMod(x: int, y: int): int
    requires y != 0
  {
    var r := Abs(x) % Abs(y);
    if x < 0 then -r else r
  }

  /** The two reference operations fit together as C++ promises:
      (x / y) * y + x % y == x, the remainder is smaller than the divisor in
      magnitude, and it is never of the opposite sign to x. */
  lemma {:induction false} DivModIdentity(x: int, y: int)
    requires y != 0
    ensures TruncDiv(x, y) * y + TruncMod(x, y) == x
    ensures Abs(TruncMod(x, y)) < Abs(y)
    ensures x >= 0 ==> TruncMod(x, y) >= 0
    ensures x <= 0 ==> TruncMod(x, y) <= 0
  {
    var ax, ay := Abs(x), Abs(y);
    var q: int, r: int := ax / ay, ax % ay;
    NatDivMod(ax, ay);
    assert TruncDiv(x, y) == (if (x < 0) != (y < 0) then -q else q);
    assert TruncMod(x, y) == (if x < 0 then -r else r);
    TruncArith(x, y, q, r);
  }

  /** Euclidean division of naturals. */
  lemma {:induction false} NatDivMod(a: nat, b: nat)
    requires b > 0
    ensures (a / b) * b + a % b == a && 0 <= a % b < b
  {
  }

  /** The signs put back on a division of magnitudes. */
  lemma {:induction false} TruncArith(x: int, y: int, q: int, r: int)
    requires y != 0 && q * Abs(y) + r == Abs(x) && 0 <= r < Abs(y)
    ensures (if (x < 0) != (y < 0) then -q else q) * y + (if x < 0 then -r else r) == x
  {
    if y < 0 {
      assert q * y == -(q * Abs(y));
    }
  }

  /** The signed value of a sign flag and a magnitude. */
  function Signed(sign: bool, m: nat): int
  {
    var v: int := m;
    if sign then -v else v
  }

  /** Dividing magnitudes and combining the signs by exclusive or is C++ division. */
  lemma {:induction false} SignedQuotient(ma: nat, mb: nat, sa: bool, sb: bool)
    requires mb > 0
    ensures Signed(sa != sb, ma / mb) == TruncDiv(Signed(sa, ma), Signed(sb, mb))
  {
    if ma == 0 {
      assert ma / mb == 0;
    }
  }

  /** `static_cast<int>` of a `uint32_t`: the same 32 bits read as two's complement. */
  function Int32Cast(x: Limb): (r: int)
    ensures INT32_MIN <= r <= INT32_MAX && r % BASE == x
    ensures x <= INT32_MAX ==> r == x
  {
    if x <= INT32_MAX then x else x - BASE
  }

  // ---------------------------------------------------------------------------
  // Division by one limb

  lemma {:induction false} QuotientDigit(xi: Limb, c: nat, d: nat, mq: int)
    requires 0 < d && c < d
    ensures var next := xi + c * BASE;
      next / d < BASE && next % d < d &&
      xi + BASE * (mq * d + c) == (next / d + BASE * mq) * d + next % d
  {
    var next := xi + c * BASE;
    assert next < d * BASE by {
      MulLe(c + 1, d, BASE);
    }
    var q, r := next / d, next % d;
    assert next == q * d + r;
    if q >= BASE {
      MulLe(BASE, q, d);
    }
    MulDistrib(d, q, BASE * mq);
    assert (q + BASE * mq) * d == q * d + BASE * (mq * d);
  }

  /** `simple_division`: long division by a single limb, from the most
      significant limb down; the quotient keeps the dividend's sign (so a zero
      quotient of a negative dividend is a negative zero). */
  method SimpleDivision(a: BigInteger, divisor: Limb) returns (r: Result<(BigInteger, Limb)>)
    requires Valid(a)
    ensures r.Err? <==> divisor == 0
    ensures r.Err? ==> r.error == DivisionByZero
    ensures r.Ok? ==> Valid(r.value.0) && r.value.0.sign == a.sign && r.value.1 < divisor &&
                      Mag(a.value) == Mag(r.value.0.value) * divisor + r.value.1
  {
    if divisor == 0 {
      return Err(DivisionByZero);
    }
    var x := a.value;
    var q: seq<Limb> := Fill(0, |x|);
    var carry := 0;
    var i := |x| - 1;
    while i >= 0
      invariant -1 <= i < |x| && |q| == |x|
      invariant 0 <= carry < divisor
      invariant Mag(x[i + 1..]) == Mag(q[i + 1..]) * divisor + carry
      decreases i + 1
    {
      var next := x[i] + carry * BASE;
      QuotientDigit(x[i], carry, divisor, Mag(q[i + 1..]));
      MagTail(x[i..]);
      assert x[i..][1..] == x[i + 1..];
      var q' := q[i := next / divisor];
      MagTail(q'[i..]);
      assert q'[i..][1..] == q[i + 1..];
      q := q';
      carry := next % divisor;
      i := i - 1;
    }
    var v := Trim(q);
    r := Ok((BigInteger(a.sign, v), carry));
  }

  // ---------------------------------------------------------------------------
  // Long division

  /** `trial`: the estimate of the next quotient digit, the top three limbs of
      the current window divided by the top two limbs of the divisor, capped at
      the largest limb. */
  function Trial(u: seq<Limb>, k: nat, m: nat, d2: nat): (r: Limb)
    requires 2 <= m && k + m < |u| && d2 > 0
    ensures var r3 := u[k + m] * BASE * BASE + u[k + m - 1] * BASE + u[k + m - 2];
      r * d2 <= r3 && (r == BASE - 1 || r3 < (r + 1) * d2)
  {
    var r3 := u[k + m] * BASE * BASE + u[k + m - 1] * BASE + u[k + m - 2];
    FloorBounds(r3, d2);
    if r3 / d2 < BASE - 1 then r3 / d2 else FloorAbove(BASE - 1, r3, d2); BASE - 1
  }

  lemma {:induction false} FloorBelow(q: int, x: int, d: int)
    requires d > 0 && q >= 0 && q * d <= x
    ensures q <= x / d
  {
    if q > x / d {
      MulLe(x / d + 1, q, d);
    }
  }

  lemma {:induction false} FloorAbove(q: int, x: int, d: int)
    requires d > 0 && 0 <= q <= x / d
    ensures q * d <= x
  {
    MulLe(q, x / d, d);
  }

  /** Scaling by p >= 1 preserves a strict order. */
  lemma {:induction false} CancelLess(x: int, y: int, p: int)
    requires p >= 1 && x * p < y * p
    ensures x < y
  {
    if x >= y {
      MulLe(y, x, p);
    }
  }

  /** Lower half of the trial bound: the true digit times the top of the
      divisor does not exceed the top of the window. */
  lemma {:induction false} TrialLower(w: int, v: int, u3: int, wlow: int, v2: int, vlow: int, p: int, q: int)
    requires p >= 1 && 0 <= wlow < p && 0 <= vlow && v2 >= 0 && q >= 0
    requires w == wlow + p * u3 && v == vlow + p * v2 && q * v <= w
    ensures q * v2 <= u3
  {
    MulLe(v2 * p, v, q);
    assert (q * v2) * p <= w;
    assert w < (u3 + 1) * p;
    CancelLess(q * v2, u3 + 1, p);
  }

  /** Upper half of the trial bound: an estimate t + 1 with (t + 1) * top <= u3
      cannot exceed the true digit by two, because the top of the divisor is at
      least BASE while t is below BASE. */
  lemma {:induction false} TrialUpper(w: int, v: int, u3: int, wlow: int, v2: int, vlow: int, p: int, t: int)
    requires p >= 1 && 0 <= wlow < p && 0 <= vlow < p && v2 >= BASE && 1 <= t < BASE
    requires w == wlow + p * u3 && v == vlow + p * v2
    requires (t + 1) * v2 <= u3
    ensures t * v <= w
  {
    MulLe((t + 1) * v2, u3, p);
    assert t * v == t * (v2 * p) + t * vlow;
    MulLe(vlow, p, t);
    MulLe(t, v2, p);
    assert (t + 1) * v2 * p == t * (v2 * p) + v2 * p;
  }

  /** The arithmetic of the trial digit: when the divisor's top two limbs are at
      least BASE (its top limb is nonzero) and the window is below BASE times the
      divisor, the capped estimate is the true digit or one more. */
  lemma {:induction false} TrialArith(w: int, v: int, u3: int, wlow: int, v2: int, vlow: int, p: int, qt: int)
    requires p >= 1 && 0 <= wlow < p && 0 <= vlow < p && v2 >= BASE && u3 >= 0
    requires w == wlow + p * u3 && v == vlow + p * v2 && 0 <= w < BASE * v
    requires qt == if u3 / v2 < BASE - 1 then u3 / v2 else BASE - 1
    ensures w / v <= qt <= w / v + 1
  {
    assert v > 0 by {
      MulLe(1, v2, p);
    }
    TrialNotBelow(w, v, u3, wlow, v2, vlow, p, qt);
    TrialNotAbove(w, v, u3, wlow, v2, vlow, p, qt);
  }

  lemma {:induction false} TrialNotBelow(w: int, v: int, u3: int, wlow: int, v2: int, vlow: int, p: int, qt: int)
    requires p >= 1 && 0 <= wlow < p && 0 <= vlow < p && v2 >= BASE && u3 >= 0 && v > 0
    requires w == wlow + p * u3 && v == vlow + p * v2 && 0 <= w < BASE * v
    requires qt == if u3 / v2 < BASE - 1 then u3 / v2 else BASE - 1
    ensures w / v <= qt
  {
    QuotientBelow(w, v, BASE);
    QuotientBelowTrial(w, v, u3, wlow, v2, vlow, p);
  }

  /** A value below b * v leaves a quotient by v below b. */
  lemma {:induction false} QuotientBelow(w: int, v: int, b: int)
    requires v > 0 && 0 <= w < b * v
    ensures w / v < b
  {
    CancelLess(w / v, b, v);
  }

  lemma {:induction false} QuotientBelowTrial(w: int, v: int, u3: int, wlow: int, v2: int, vlow: int, p: int)
    requires p >= 1 && 0 <= wlow < p && 0 <= vlow && v2 > 0 && v > 0 && 0 <= w
    requires w == wlow + p * u3 && v == vlow + p * v2
    ensures w / v <= u3 / v2
  {
    var q := w / v;
    TrialLower(w, v, u3, wlow, v2, vlow, p, q);
    FloorBelow(q, u3, v2);
  }

  lemma {:induction false} TrialNotAbove(w: int, v: int, u3: int, wlow: int, v2: int, vlow: int, p: int, qt: int)
    requires p >= 1 && 0 <= wlow < p && 0 <= vlow < p && v2 >= BASE && u3 >= 0 && v > 0
    requires w == wlow + p * u3 && v == vlow + p * v2 && 0 <= w
    requires qt == if u3 / v2 < BASE - 1 then u3 / v2 else BASE - 1
    ensures qt <= w / v + 1
  {
    var q := w / v;
    if qt >= q + 2 {
      var t := qt - 1;
      assert 0 <= qt <= u3 / v2 && 1 <= t < BASE;
      FloorAbove(qt, u3, v2);
      assert (t + 1) * v2 <= u3;
      TrialUpper(w, v, u3, wlow, v2, vlow, p, t);
      FloorBelow(t, w, v);
      assert false;
    }
  }

  /** The top three limbs of the window are the numerator of `trial`. */
  lemma {:induction false} TopLimbs(w: seq<Limb>, u: seq<Limb>, k: nat, m: nat)
    requires 2 <= m && k + m < |u| && w == u[k..k + m + 1]
    ensures Mag(w[m - 2..]) == u[k + m] * BASE * BASE + u[k + m - 1] * BASE + u[k + m - 2]
  {
    var top := w[m - 2..];
    assert top == [u[k + m - 2], u[k + m - 1], u[k + m]];
    assert top[1..][1..] == [u[k + m]];
    MagSingle(u[k + m]);
    assert Mag(top[1..]) == u[k + m - 1] + BASE * u[k + m];
  }

  /** The top two limbs of the divisor are the denominator of `trial`. */
  lemma {:induction false} TopLimbs2(v: seq<Limb>, m: nat)
    requires 2 <= m && |v| == m
    ensures Mag(v[m - 2..]) == v[m - 1] * BASE + v[m - 2]
  {
    var vt := v[m - 2..];
    assert vt == [v[m - 2], v[m - 1]] && vt[1..] == [v[m - 1]];
    MagSingle(v[m - 1]);
  }

  /** `trial` never underestimates the next quotient digit and overestimates it
      by at most one, given a divisor with a nonzero top limb and a window below
      BASE times the divisor. */
  lemma {:induction false} TrialBounds(u: seq<Limb>, v: seq<Limb>, k: nat, m: nat, d2: nat)
    requires 2 <= m && |v| == m && v[m - 1] != 0 && k + m < |u|
    requires d2 == v[m - 1] * BASE + v[m - 2]
    requires Mag(u[k..k + m + 1]) < BASE * Mag(v)
    ensures var w, qt := Mag(u[k..k + m + 1]), Trial(u, k, m, d2);
      (qt * Mag(v) <= w ==> w < (qt + 1) * Mag(v)) &&
      (w < qt * Mag(v) ==> 1 <= qt && (qt - 1) * Mag(v) <= w)
  {
    var w := u[k..k + m + 1];
    var r3 := u[k + m] * BASE * BASE + u[k + m - 1] * BASE + u[k + m - 2];
    var p := Pow(m - 2);
    TrialSplit(u, v, k, m, r3, d2);
    MagBound(w[..m - 2]);
    MagBound(v[..m - 2]);
    TrialArith(Mag(w), Mag(v), r3, Mag(w[..m - 2]), d2, Mag(v[..m - 2]), p, Trial(u, k, m, d2));
    DigitOrNext(Mag(w), Mag(v), Trial(u, k, m, d2));
  }

  /** The window and the divisor split at limb m - 2 into the operands of
      `trial` and the limbs below them. */
  lemma {:induction false} TrialSplit(u: seq<Limb>, v: seq<Limb>, k: nat, m: nat, r3: int, d2: int)
    requires 2 <= m && |v| == m && k + m < |u|
    requires d2 == v[m - 1] * BASE + v[m - 2]
    requires r3 == u[k + m] * BASE * BASE + u[k + m - 1] * BASE + u[k + m - 2]
    ensures Mag(u[k..k + m + 1]) == Mag(u[k..k + m + 1][..m - 2]) + Pow(m - 2) * r3
    ensures Mag(v) == Mag(v[..m - 2]) + Pow(m - 2) * d2
  {
    var w := u[k..k + m + 1];
    TopLimbs(w, u, k, m);
    TopLimbs2(v, m);
    MagSplit(w, m - 2);
    MagSplit(v, m - 2);
  }

  /** An estimate that is the floor quotient or one more is, in product form,
      the digit itself or one too large. */
  lemma {:induction false} DigitOrNext(w: int, v: int, qt: int)
    requires v > 0 && w >= 0 && w / v <= qt <= w / v + 1
    ensures qt * v <= w ==> w < (qt + 1) * v
    ensures w < qt * v ==> 1 <= qt && (qt - 1) * v <= w
  {
    FloorBounds(w, v);
    if qt * v <= w {
      FloorBelow(qt, w, v);
    } else {
      if qt == w / v {
        FloorAbove(qt, w, v);
      }
      FloorAbove(qt - 1, w, v);
    }
  }

  /** `smaller`: scans the window of m + 1 limbs at position k and dq from the
      top for the first difference, and reports whether the window is less. */
  method Smaller(u: seq<Limb>, dq: seq<Limb>, k: nat, m: nat) returns (r: bool)
    requires k + m < |u| && |dq| == m + 1
    ensures r <==> Mag(u[k..k + m + 1]) < Mag(dq)
  {
    var i, j := m, 0;
    while i != j
      invariant 0 <= j <= i <= m
      invariant j > 0 ==> u[i + k] != dq[i]
      invariant forall t :: i < t <= m ==> u[t + k] == dq[t]
      decreases i - j
    {
      if u[i + k] != dq[i] {
        j := i;
      } else {
        i := i - 1;
      }
    }
    r := u[i + k] < dq[i];
    var w := u[k..k + m + 1];
    assert w[i + 1..] == dq[i + 1..];
    if u[i + k] < dq[i] {
      MagLexLess(w, dq, i);
    } else if dq[i] < u[i + k] {
      MagLexLess(dq, w, i);
    } else {
      assert w == dq;
    }
  }

  /** `difference`: subtracts dq from the window of m + 1 limbs at position k,
      limb by limb with a borrow; limbs outside the window are untouched and a
      borrow out of the window is dropped. */
  method Difference(u: seq<Limb>, dq: seq<Limb>, k: nat, m: nat) returns (u': seq<Limb>)
    requires k + m < |u| && |dq| == m + 1
    ensures |u'| == |u| && u'[..k] == u[..k] && u'[k + m + 1..] == u[k + m + 1..]
    ensures var w, d := Mag(u[k..k + m + 1]), Mag(dq);
      Mag(u'[k..k + m + 1]) == if d <= w then w - d else w - d + Pow(m + 1)
  {
    u' := u;
    var borrow := 0;
    var i := 0;
    while i <= m
      invariant 0 <= i <= m + 1 && |u'| == |u| && (borrow == 0 || borrow == 1)
      invariant u'[..k] == u[..k] && u'[k + m + 1..] == u[k + m + 1..]
      invariant Mag(u'[k..k + m + 1]) - (if borrow == 1 then Pow(i) else 0) ==
                Mag(u[k..k + m + 1]) - Mag(dq[..i])
    {
      var diff := u'[i + k] - dq[i] - borrow + BASE;
      var next: Limb := diff % BASE;
      var borrow' := 1 - diff / BASE;
      ghost var win := u'[k..k + m + 1];
      BorrowStep(win, i, next, borrow, borrow', dq[i]);
      assert dq[..i + 1] == dq[..i] + [dq[i]];
      MagAppend(dq[..i], dq[i]);
      u' := u'[i + k := next];
      assert u'[k..k + m + 1] == win[i := next];
      borrow := borrow';
      i := i + 1;
    }
    assert dq[..m + 1] == dq;
    MagBound(u'[k..k + m + 1]);
  }

  /** `qt_as_big * norm.second` followed by `dq.value.resize(m + 1)`: the
      product of the digit and the divisor in exactly m + 1 limbs. */
  method TrialProduct(v: seq<Limb>, qt: Limb, m: nat) returns (dq: seq<Limb>)
    requires Canonical(v) && |v| == m
    ensures |dq| == m + 1 && Mag(dq) == qt * Mag(v)
  {
    MagSingle(qt);
    var p := Mul(BigInteger(false, [qt]), BigInteger(false, v));
    var w := p.value;
    assert Canonical(w) && Mag(w) == qt * Mag(v);
    MagBound(v);
    ProductLess(qt, BASE, Mag(v), Pow(m));
    CanonicalLengthAtMost(w, m + 1);
    dq := Resized(w, m + 1);
    if |w| < m + 1 {
      assert dq == w + Fill(0, m + 1 - |w|);
      MagPadded(w, m + 1 - |w|);
    } else {
      assert dq == w;
    }
  }

  /** The normalising factor is between 1 and 2^31, and scaling the top limb
      plus one by it stays within BASE. */
  lemma {:induction false} FactorBounds(top: Limb)
    requires top >= 1
    ensures var f := BASE / (top + 1);
      1 <= f <= INT32_MAX + 1 && (top + 1) * f <= BASE
  {
  }

  /** `static_cast<int>(f)` is INT32_MIN for f = 2^31, but the constructor from
      int turns INT32_MIN into the magnitude 2^31 with sign set, so the
      magnitude that reaches the multiplication is f in every case. */
  lemma {:induction false} CastFactor(f: Limb)
    requires 1 <= f <= INT32_MAX + 1
    ensures Mag(FromInt(Int32Cast(f)).value) == f
  {
  }

  /** Multiplying a divisor of m limbs by the factor keeps m limbs. */
  lemma {:induction false} NormalisedLength(v: seq<Limb>, m: nat, f: nat)
    requires Canonical(v) && |v| == m && m >= 2 && f >= 1 && (v[m - 1] + 1) * f <= BASE
    ensures Pow(m - 1) <= Mag(v) * f < Pow(m)
  {
    var p, top := Pow(m - 1), v[m - 1];
    MagSplit(v, m - 1);
    assert v[m - 1..] == [top];
    MagSingle(top);
    MagBound(v[..m - 1]);
    MagTopNonzero(v);
    ScaleBelow(Mag(v[..m - 1]), Mag(v), p, top, f);
  }

  lemma {:induction false} ScaleBelow(low: nat, x: nat, p: nat, top: nat, f: nat)
    requires x == low + p * top && low < p && f >= 1 && (top + 1) * f <= BASE && p <= x
    ensures p <= x * f < BASE * p
  {
    MulLe(1, f, x);
    assert x < p * (top + 1);
    MulLe(x, p * (top + 1) - 1, f);
    assert (p * (top + 1)) * f == p * ((top + 1) * f);
    MulLe((top + 1) * f, BASE, p);
  }

  /** `normalise`: both operands multiplied by f = BASE / (top limb of b + 1),
      which is handed to the multiplication as `static_cast<int>(f)`; the
      results are made non-negative. */
  method Normalise(a: BigInteger, b: BigInteger, m: nat) returns (na: BigInteger, nb: BigInteger)
    requires Valid(a) && Valid(b) && m == |b.value| && m >= 2
    ensures var f: int := BASE / (b.value[m - 1] as int + 1);
      f >= 1 && Valid(na) && Valid(nb) && !na.sign && !nb.sign &&
      Mag(na.value) == Mag(a.value) * f && Mag(nb.value) == Mag(b.value) * f
    ensures |nb.value| == m
  {
    var f: int := BASE / (b.value[m - 1] as int + 1);
    FactorBounds(b.value[m - 1]);
    CastFactor(f);
    var factor := FromInt(Int32Cast(f));
    var pa := Mul(a, factor);
    var pb := Mul(b, factor);
    na := BigInteger(false, pa.value);
    nb := BigInteger(false, pb.value);
    NormalisedLength(b.value, m, f);
    CanonicalLengthExact(nb.value, m);
  }

  /** The dividend is the low limbs plus BASE^k times the window, when every
      limb above the window is zero. */
  lemma {:induction false} WindowSplit(u: seq<Limb>, k: nat, m: nat)
    requires k + m < |u| && forall j :: k + m < j < |u| ==> u[j] == 0
    ensures Mag(u) == Mag(u[..k]) + Pow(k) * Mag(u[k..k + m + 1])
  {
    MagHighZero(u, k + m + 1);
    MagSplit(u[..k + m + 1], k);
    assert u[..k + m + 1][..k] == u[..k] && u[..k + m + 1][k..] == u[k..k + m + 1];
  }

  /** The remainder bound BASE^(k+1) * V confines the window below BASE * V. */
  lemma {:induction false} WindowBelow(lo: nat, p: int, w: int, v: int, mu: int)
    requires p >= 1 && mu == lo + p * w && mu < (BASE * p) * v
    ensures w < BASE * v
  {
    assert w * p < (BASE * v) * p;
    CancelLess(w, BASE * v, p);
  }

  /** One quotient digit keeps the long-division invariant: the remainder plus
      the divisor times the digits so far is the dividend, and the remainder is
      below BASE^k times the divisor. */
  lemma {:induction false} DigitArith(lo: int, p: int, w: int, v: int, qt: int, mu: int, mq: int, a: int,
                   w': int, mu': int, mq': int)
    requires 0 <= lo < p && v > 0 && 0 <= w
    requires mu == lo + p * w && mu + v * mq == a
    requires w' == w - qt * v && 0 <= w' < v
    requires mu' == lo + p * w' && mq' == mq + qt * p
    ensures mu' + v * mq' == a && mu' < p * v
  {
    MulDistrib(p, w, -(qt * v));
    assert p * (qt * v) == v * (qt * p);
    MulDistrib(v, mq, qt * p);
    MulLe(w', v - 1, p);
  }

  /** Limbs above position h that were zero and are untouched stay zero. */
  lemma {:induction false} ZerosAbove(u: seq<Limb>, u': seq<Limb>, h: nat)
    requires h < |u| == |u'| && u'[h] == 0 && u'[h + 1..] == u[h + 1..]
    requires forall j :: h < j < |u| ==> u[j] == 0
    ensures forall j :: h <= j < |u'| ==> u'[j] == 0
  {
    forall j | h < j < |u'|
      ensures u'[j] == 0
    {
      assert u'[j] == u'[h + 1..][j - (h + 1)];
    }
  }

  lemma {:induction false} FloorBounds(x: int, y: int)
    requires x >= 0 && y > 0
    ensures (x / y) * y <= x < (x / y + 1) * y
  {
  }

  lemma {:induction false} RemainderBelow(w: int, v: int, qt: int)
    requires v > 0 && w >= 0 && qt == w / v
    ensures 0 <= w - qt * v < v
  {
  }

  /** Quotient and remainder determine each other. */
  lemma {:induction false} DivUnique(a: int, v: int, q: int, r: int)
    requires v > 0 && 0 <= r < v && a == r + v * q
    ensures q == a / v
  {
    var q', r' := a / v, a % v;
    if q < q' {
      MulLe(q + 1, q', v);
    } else if q > q' {
      MulLe(q' + 1, q, v);
    }
  }

  /** Scaling both operands by the same factor leaves the quotient unchanged. */
  lemma {:induction false} DivCancel(x: int, y: int, f: int)
    requires x >= 0 && y > 0 && f > 0
    ensures (x * f) / (y * f) == x / y
  {
    var q, r := x / y, x % y;
    assert x * f == r * f + (y * f) * q by {
      MulDistrib(f, r, y * q);
    }
    MulLe(r, y - 1, f);
    DivUnique(x * f, y * f, q, r * f);
  }

  /** When the remainder is below the normalised divisor, the digits are the
      quotient of the original operands. */
  lemma {:induction false} FinalQuotient(ma: int, mb: int, f: int, mq: int, mu: int)
    requires mb > 0 && f > 0 && mq >= 0 && 0 <= mu < mb * f && mu + (mb * f) * mq == ma * f
    ensures mq * mb <= ma < (mq + 1) * mb
  {
    assert (mq * mb) * f <= ma * f;
    if mq * mb > ma {
      MulLe(ma + 1, mq * mb, f);
    }
    assert ma * f < ((mq + 1) * mb) * f;
    CancelLess(ma, (mq + 1) * mb, f);
  }

  /** Before the first digit the remainder, the whole normalised dividend, is
      below BASE^(n-m+1) times the normalised divisor. */
  lemma {:induction false} InitialBound(ma: int, mb: int, f: int, pn: int, pk: int, pm: int)
    requires 0 <= ma < pn && pm <= mb && f >= 1 && pk >= 1 && pk * pm == pn
    ensures ma * f < pk * (mb * f)
  {
    MulLe(ma, pn - 1, f);
    MulLe(pm, mb, pk);
    MulLe(pk * pm, pk * mb, f);
    assert pk * (mb * f) == (pk * mb) * f;
  }

  /** After one digit the window holds W - qt * V, which is below V and so
      leaves the window's top limb zero: the zero limbs now start one lower. */
  lemma {:induction false} AfterDigitZeros(u: seq<Limb>, u': seq<Limb>, k: nat, m: nat, V: nat)
    requires k + m < |u| && |u'| == |u| && V > 0 && V < Pow(m)
    requires forall j :: k + m < j < |u| ==> u[j] == 0
    requires u'[k + m + 1..] == u[k + m + 1..]
    requires Mag(u'[k..k + m + 1]) < V
    ensures forall j :: k + m <= j < |u'| ==> u'[j] == 0
  {
    var w' := u'[k..k + m + 1];
    assert Mag(w') < Pow(|w'| - 1);
    MagSmallTopZero(w');
    assert u'[k + m] == w'[m];
    ZerosAbove(u, u', k + m);
  }

  /** After one digit the long-division invariant holds one position lower. */
  lemma {:induction false} AfterDigit(u: seq<Limb>, u': seq<Limb>, k: nat, m: nat, V: nat, qt: Limb,
                   digits: seq<Limb>, digits': seq<Limb>, A: int)
    requires k + m < |u| && |u'| == |u| && V > 0
    requires forall j :: k + m < j < |u| ==> u[j] == 0
    requires forall j :: k + m < j < |u'| ==> u'[j] == 0
    requires u'[..k] == u[..k]
    requires Mag(u'[k..k + m + 1]) == Mag(u[k..k + m + 1]) - qt * V < V
    requires k < |digits| && digits[k] == 0 && digits' == digits[k := qt]
    requires Mag(u) + V * Mag(digits) == A
    ensures Mag(u') + V * Mag(digits') == A && Mag(u') < Pow(k) * V
  {
    WindowSplit(u, k, m);
    WindowSplit(u', k, m);
    MagBound(u[..k]);
    DigitSet(digits, k, qt);
    DigitArith(Mag(u[..k]), Pow(k), Mag(u[k..k + m + 1]), V, qt, Mag(u), Mag(digits), A,
               Mag(u'[k..k + m + 1]), Mag(u'), Mag(digits'));
  }

  /** Setting a zero digit adds its weight. */
  lemma {:induction false} DigitSet(digits: seq<Limb>, k: nat, qt: Limb)
    requires k < |digits| && digits[k] == 0
    ensures Mag(digits[k := qt]) == Mag(digits) + qt * Pow(k)
  {
    MagUpdate(digits, k, qt);
  }

  /** One pass of the loop of `operator/`: `trial`, the product, `smaller` and
      one correction, then `difference`. The digit is the exact quotient digit
      of the window, and the window is left holding the remainder. */
  method NextDigit(u: seq<Limb>, v: seq<Limb>, k: nat, m: nat, d2: nat) returns (qt: Limb, u': seq<Limb>)
    requires 2 <= m && |v| == m && Canonical(v) && k + m < |u|
    requires d2 == v[m - 1] * BASE + v[m - 2]
    requires Mag(u[k..k + m + 1]) < BASE * Mag(v)
    ensures |u'| == |u| && u'[..k] == u[..k] && u'[k + m + 1..] == u[k + m + 1..]
    ensures Mag(u'[k..k + m + 1]) == Mag(u[k..k + m + 1]) - qt * Mag(v) < Mag(v)
  {
    ghost var W, V := Mag(u[k..k + m + 1]), Mag(v);
    MagTopNonzero(v);
    TrialBounds(u, v, k, m, d2);
    qt := Trial(u, k, m, d2);
    var dq := TrialProduct(v, qt, m);
    var less := Smaller(u, dq, k, m);
    if less {
      qt := qt - 1;
      dq := TrialProduct(v, qt, m);
    }
    assert qt * V <= W < (qt + 1) * V;
    u' := Difference(u, dq, k, m);
  }

  /** The general case of `operator/` (a divisor of two or more limbs):
      normalise, then produce the quotient digits from the top down, each by
      `trial`, one correction guarded by `smaller`, and `difference`. The
      quotient's sign is the exclusive or of the signs, even when it is zero. */
  method LongDivision(a: BigInteger, b: BigInteger) returns (q: BigInteger)
    requires Valid(a) && Valid(b) && 2 <= |b.value| <= |a.value|
    ensures Valid(q) && q.sign == (a.sign != b.sign)
    ensures Mag(q.value) * Mag(b.value) <= Mag(a.value) < (Mag(q.value) + 1) * Mag(b.value)
  {
    var n, m := |a.value|, |b.value|;
    var na, nb := Normalise(a, b, m);
    ghost var f: int := BASE / (b.value[m - 1] as int + 1);
    var v := nb.value;
    var digits: seq<Limb> := Fill(0, n - m + 1);
    var u := na.value + [0];
    var d2 := v[m - 1] * BASE + v[m - 2];
    ghost var A, V := Mag(na.value), Mag(v);
    InitialState(a, b, na, nb, u, digits, f);
    var k: int := n - m;
    while k >= 0
      invariant -1 <= k <= n - m && |digits| == n - m + 1 && n + 1 <= |u|
      invariant forall j :: k + m < j < |u| ==> u[j] == 0
      invariant forall j :: 0 <= j <= k ==> digits[j] == 0
      invariant Mag(u) + V * Mag(digits) == A
      invariant Mag(u) < Pow(k + 1) * V
      decreases k + 1
    {
      ghost var W := Mag(u[k..k + m + 1]);
      assert W < BASE * V by {
        WindowSplit(u, k, m);
        WindowBelow(Mag(u[..k]), Pow(k), W, V, Mag(u));
      }
      var qt, u' := NextDigit(u, v, k, m, d2);
      var digits' := digits[k := qt];
      MagBound(v);
      AfterDigitZeros(u, u', k, m, V);
      AfterDigit(u, u', k, m, V, qt, digits, digits', A);
      u, digits := u', digits';
      k := k - 1;
    }
    MagTopNonzero(b.value);
    FinalQuotient(Mag(a.value), Mag(b.value), f, Mag(digits), Mag(u));
    var r := Trim(digits);
    q := BigInteger(a.sign != b.sign, r);
  }

  /** The state before the first digit: the normalised dividend with one zero
      limb appended, no digits yet, and the remainder bound for k = n - m. */
  lemma {:induction false} InitialState(a: BigInteger, b: BigInteger, na: BigInteger, nb: BigInteger,
                     u: seq<Limb>, digits: seq<Limb>, f: int)
    requires Valid(a) && Valid(b) && Valid(na) && 2 <= |b.value| <= |a.value|
    requires 1 <= f < BASE && |nb.value| == |b.value|
    requires Mag(na.value) == Mag(a.value) * f && Mag(nb.value) == Mag(b.value) * f
    requires u == na.value + [0] && digits == Fill(0, |a.value| - |b.value| + 1)
    ensures |a.value| + 1 <= |u|
    ensures forall j :: |a.value| < j < |u| ==> u[j] == 0
    ensures Mag(u) + Mag(nb.value) * Mag(digits) == Mag(na.value)
    ensures Mag(u) < Pow(|a.value| - |b.value| + 1) * Mag(nb.value)
  {
    var n, m := |a.value|, |b.value|;
    var ma, mb := Mag(a.value), Mag(b.value);
    MagTopNonzero(a.value);
    MagBound(a.value);
    ScaledDividend(ma, f, Pow(n - 1), Pow(n));
    assert Pow(n + 1) == BASE * Pow(n);
    LengthAtLeast(na.value, n);
    CanonicalLengthAtMost(na.value, n + 1);
    MagAppend(na.value, 0);
    MagAllZero(digits);
    MagTopNonzero(b.value);
    PowAdd(n - m + 1, m - 1);
    MagBound(a.value);
    InitialBound(ma, mb, f, Pow(n), Pow(n - m + 1), Pow(m - 1));
  }

  lemma {:induction false} ScaledDividend(ma: int, f: int, lower: int, upper: int)
    requires lower <= ma < upper && 1 <= f < BASE && 0 <= lower
    ensures lower <= ma * f < BASE * upper
  {
    MulLe(1, f, ma);
    MulLe(ma, upper, f);
    MulLe(f, BASE, upper);
  }

  // ---------------------------------------------------------------------------
  // operator/ and operator%

  lemma {:induction false} FloorFromBounds(a: int, v: int, q: int)
    requires v > 0 && q * v <= a < (q + 1) * v
    ensures q == a / v
  {
    DivUnique(a, v, q, a - q * v);
  }

  /** Floor bounds on magnitudes make the signed result C++ division. */
  lemma {:induction false} QuotientValue(q: BigInteger, a: BigInteger, b: BigInteger)
    requires Mag(b.value) > 0 && q.sign == (a.sign != b.sign)
    requires Mag(q.value) * Mag(b.value) <= Mag(a.value) < (Mag(q.value) + 1) * Mag(b.value)
    ensures ToInt(q) == TruncDiv(ToInt(a), ToInt(b))
  {
    FloorFromBounds(Mag(a.value), Mag(b.value), Mag(q.value));
    SignedQuotient(Mag(a.value), Mag(b.value), a.sign, b.sign);
  }

  /** A dividend with fewer limbs than the divisor has quotient zero. */
  lemma {:induction false} ShortDividend(a: BigInteger, b: BigInteger)
    requires Valid(a) && Valid(b) && |a.value| < |b.value|
    ensures ToInt(b) != 0 && TruncDiv(ToInt(a), ToInt(b)) == 0
  {
    LongerIsLarger(a.value, b.value);
    assert Abs(ToInt(a)) == Mag(a.value) && Abs(ToInt(b)) == Mag(b.value);
    SmallQuotient(ToInt(a), ToInt(b));
  }

  lemma {:induction false} SmallQuotient(x: int, y: int)
    requires Abs(x) < Abs(y)
    ensures TruncDiv(x, y) == 0
  {
    DivUnique(Abs(x), Abs(y), 0, Abs(x));
  }

  /** The one-limb path: the quotient of `simple_division`, with the divisor's
      sign applied by unary minus, is C++ division. */
  lemma {:induction false} OneLimbQuotient(a: BigInteger, b: BigInteger, q: BigInteger, rem: int, res: BigInteger)
    requires Valid(b) && |b.value| == 1 && b.value[0] != 0 && q.sign == a.sign
    requires 0 <= rem < b.value[0] && Mag(a.value) == Mag(q.value) * b.value[0] + rem
    requires res == if b.sign then Neg(q) else q
    ensures ToInt(res) == TruncDiv(ToInt(a), ToInt(b))
  {
    var divisor := b.value[0];
    assert b.value == [divisor];
    MagSingle(divisor);
    DivUnique(Mag(a.value), divisor, Mag(q.value), rem);
    SignedQuotient(Mag(a.value), divisor, a.sign, b.sign);
  }

  /** `operator/`: division by zero is an error; a dividend with fewer limbs
      gives the default zero; a one-limb divisor goes through `simple_division`
      and takes the divisor's sign by unary minus; anything else is long
      division. The result is C++ division, rounding toward zero. */
  method Div(a: BigInteger, b: BigInteger) returns (r: Result<BigInteger>)
    requires Valid(a) && Valid(b)
    ensures r.Err? <==> ToInt(b) == 0
    ensures r.Err? ==> r.error == DivisionByZero
    ensures r.Ok? ==> Valid(r.value) && ToInt(r.value) == TruncDiv(ToInt(a), ToInt(b))
  {
    if IsZero(b) {
      return Err(DivisionByZero);
    }
    ZeroLimbs(b.value);
    if |a.value| < |b.value| {
      ShortDividend(a, b);
      return Ok(Zero());
    }
    if IsSimple(b) {
      var divisor := b.value[0];
      var d := SimpleDivision(a, divisor);
      var q := d.value.0;
      var res := if b.sign then Neg(q) else q;
      OneLimbQuotient(a, b, q, d.value.1, res);
      return Ok(res);
    }
    var q := LongDivision(a, b);
    QuotientValue(q, a, b);
    return Ok(q);
  }

  /** `operator%`: a - (a / b) * b, the C++ remainder. */
  method Mod(a: BigInteger, b: BigInteger) returns (r: Result<BigInteger>)
    requires Valid(a) && Valid(b)
    ensures r.Err? <==> ToInt(b) == 0
    ensures r.Err? ==> r.error == DivisionByZero
    ensures r.Ok? ==> Valid(r.value) && ToInt(r.value) == TruncMod(ToInt(a), ToInt(b))
  {
    var d := Div(a, b);
    if d.Err? {
      return Err(d.error);
    }
    var p := Mul(d.value, b);
    var m := Sub(a, p);
    DivModIdentity(ToInt(a), ToInt(b));
    return Ok(m);
  }

  // ---------------------------------------------------------------------------
  // The correction step as written

  /** The correction as written: the divisor times the decremented digit read
      through `static_cast<int>`, and no `resize(m + 1)` afterwards. A digit
      above INT32_MAX becomes negative and the product has the wrong magnitude;
      a small product keeps fewer than m + 1 limbs. */
  function CorrectionAsWritten(v: seq<Limb>, qt: Limb): (r: BigInteger)
    requires Canonical(v)
    ensures Valid(r)
    ensures qt <= INT32_MAX ==> Mag(r.value) == qt * Mag(v)
    ensures qt > INT32_MAX ==> Mag(r.value) == (BASE - qt) * Mag(v)
  {
    var c := FromInt(Int32Cast(qt));
    var f: int := if qt <= INT32_MAX then qt else BASE - qt;
    assert Mag(c.value) == f;
    BigInteger(c.sign, LimbsOf(f * Mag(v)))
  }

  /** The normalised divisor of both counterexamples: b = 2^95 + 2^32 - 1,
      whose top limb 2^31 makes the normalising factor 1. */
  lemma {:induction false} SampleDivisor(v: seq<Limb>)
    requires v == [0xFFFF_FFFF, 0, 0x8000_0000]
    ensures Mag(v) == 0x8000_0000_0000_0000_FFFF_FFFF && BASE / (v[2] + 1) == 1
  {
    assert v[1..] == [0, 0x8000_0000] && v[1..][1..] == [0x8000_0000];
    MagSingle(0x8000_0000);
  }

  /** a = (2^30 + 1) * 2^128 divided by b = 2^95 + 2^32 - 1: the first trial
      digit is 0 and leaves the dividend as it is; the next window gets the
      estimate 2^31 + 2, `smaller` holds, and the decremented digit 2^31 + 1
      is the true one, but the product as written uses 2^31 - 1. */
  lemma {:induction false} CorrectionCastWraps(u: seq<Limb>, v: seq<Limb>)
    requires u == [0, 0, 0, 0, 0x4000_0001, 0] && v == [0xFFFF_FFFF, 0, 0x8000_0000]
    ensures Trial(u, 2, 3, 0x8000_0000 * BASE) == 0
    ensures Trial(u, 1, 3, 0x8000_0000 * BASE) == 0x8000_0002
    ensures 0x8000_0001 * Mag(v) <= Mag(u[1..5]) < 0x8000_0002 * Mag(v)
    ensures Mag(CorrectionAsWritten(v, 0x8000_0001).value) == 0x7FFF_FFFF * Mag(v)
    ensures Mag(u[1..5]) - 0x7FFF_FFFF * Mag(v) >= Mag(v)
  {
    SampleDivisor(v);
    var w := u[1..5];
    assert w == [0, 0, 0, 0x4000_0001];
    assert w[1..] == [0, 0, 0x4000_0001] && w[1..][1..] == [0, 0x4000_0001];
    assert w[1..][1..][1..] == [0x4000_0001];
    MagSingle(0x4000_0001);
    assert Mag(w[1..][1..]) == BASE * 0x4000_0001;
    assert Mag(w[1..]) == BASE * BASE * 0x4000_0001;
    assert Mag(w) == 0x4000_0001 * BASE * BASE * BASE;
  }

  /** a = 2^95 divided by b = 2^95 + 2^32 - 1: the only window gets the
      estimate 1, `smaller` holds, and the corrected product 0 is a single
      limb, so `difference` reads dq.value[1..3] past its end. */
  lemma {:induction false} CorrectionTooShort(u: seq<Limb>, v: seq<Limb>)
    requires u == [0, 0, 0x8000_0000, 0] && v == [0xFFFF_FFFF, 0, 0x8000_0000]
    ensures Trial(u, 0, 3, 0x8000_0000 * BASE) == 1
    ensures Mag(u) < Mag(v)
    ensures |CorrectionAsWritten(v, 0).value| == 1 < 3 + 1
  {
    SampleDivisor(v);
    assert u[1..] == [0, 0x8000_0000, 0] && u[1..][1..] == [0x8000_0000, 0];
    assert u[1..][1..][1..] == [0];
    MagSingle(0);
    assert Mag(u[1..][1..]) == 0x8000_0000;
    assert Mag(u[1..]) == BASE * 0x8000_0000;
  }
}
