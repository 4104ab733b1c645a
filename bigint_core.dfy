/** big_integer (bigint/big_integer.cpp): a sign flag and a little-endian vector
    of 32-bit limbs. This module holds the representation, trimming, the
    constructors from machine integers, unary minus, comparison, addition,
    subtraction and multiplication. The type has value semantics (every operator
    copies its operands), so a big integer is a datatype here and the limb loops
    are methods working on local copies of the limb vectors. */
module BigIntCore {
  import opened Limbs

  datatype Error = DivisionByZero | ParseError

  /** The source's two exceptions, as an explicit failure result. */
  datatype Result<T> = Ok(value: T) | Err(error: Error)

  /** `bool sign; std::vector<uint32_t> value;` */
  datatype BigInteger = BigInteger(sign: bool, value: seq<Limb>)

  const INT32_MIN: int := -0x8000_0000
  const INT32_MAX: int := 0x7FFF_FFFF

  /** Every big integer the operators build is trimmed. The sign of zero is NOT
      constrained: several operators can leave a negative zero behind. */
  predicate Valid(x: BigInteger)
  {
    Canonical(x.value)
  }

  /** The integer a big integer denotes; a negative zero denotes 0. */
  function ToInt(x: BigInteger): int
  {
    var m: int := Mag(x.value);
    if x.sign then -m else m
  }

  /** A zero whose sign flag is set. */
  predicate NegZero(x: BigInteger)
  {
    x.sign && IsZero(x)
  }

  /** Of a trimmed vector, value zero means the single limb [0]. */
  lemma {:induction false} ZeroLimbs(s: seq<Limb>)
    ensures Canonical(s) ==> (Mag(s) == 0 <==> |s| == 1 && s[0] == 0)
  {
    if Canonical(s) {
      if |s| > 1 {
        MagTopNonzero(s);
      } else {
        MagSingle(s[0]);
        assert s == [s[0]];
      }
    }
  }

  /** `is_zero`. */
  predicate IsZero(x: BigInteger): (r: bool)
    ensures Valid(x) ==> (r <==> ToInt(x) == 0)
  {
    ZeroLimbs(x.value);
    |x.value| == 1 && x.value[0] == 0
  }

  /** `is_simple`: the magnitude fits in one limb. */
  predicate IsSimple(x: BigInteger): (r: bool)
    ensures Valid(x) ==> (r <==> Mag(x.value) < BASE)
  {
    OneLimb(x.value);
    |x.value| == 1
  }

  /** Of a trimmed vector, one limb means a value below BASE. */
  lemma {:induction false} OneLimb(s: seq<Limb>)
    ensures Canonical(s) ==> (|s| == 1 <==> Mag(s) < BASE)
  {
    if Canonical(s) {
      if |s| > 1 {
        MagTopNonzero(s);
        PowMonotone(1, |s| - 1);
      } else {
        MagSingle(s[0]);
        assert s == [s[0]];
      }
    }
  }

  /** The default constructor: one zero limb, sign false. */
  function Zero(): (r: BigInteger)
    ensures Valid(r) && ToInt(r) == 0 && !r.sign
  {
    MagSingle(0);
    BigInteger(false, [0])
  }

  /** `big_integer(int a)`; INT32_MIN is special-cased because abs would overflow. */
  function FromInt(a: int): (r: BigInteger)
    requires INT32_MIN <= a <= INT32_MAX
    ensures Valid(r) && ToInt(r) == a && !NegZero(r)
  {
    var m: Limb := if a == INT32_MIN then INT32_MAX + 1 else if a < 0 then -a else a;
    MagSingle(m);
    BigInteger(a < 0, [m])
  }

  /** `trim`: pop most-significant zero limbs while more than one limb remains. */
  method Trim(v: seq<Limb>) returns (r: seq<Limb>)
    requires |v| >= 1
    ensures Canonical(r) && Mag(r) == Mag(v)
    ensures 1 <= |r| <= |v| && r == v[..|r|]
    ensures forall i :: |r| <= i < |v| ==> v[i] == 0
  {
    r := v;
    while |r| > 1 && r[|r| - 1] == 0
      invariant 1 <= |r| <= |v| && r == v[..|r|]
      invariant forall i :: |r| <= i < |v| ==> v[i] == 0
      invariant Mag(r) == Mag(v)
    {
      assert r == r[..|r| - 1] + [0];
      MagAppend(r[..|r| - 1], 0);
      r := r[..|r| - 1];
    }
  }

  /** Unary minus; zero always comes out with sign false. */
  function Neg(x: BigInteger): (r: BigInteger)
    ensures ToInt(r) == -ToInt(x) && !NegZero(r)
    ensures r.value == x.value && (!IsZero(x) ==> r.sign == !x.sign)
  {
    MagSingle(0);
    BigInteger(if IsZero(x) then false else !x.sign, x.value)
  }

  // ---------------------------------------------------------------------------
  // Comparison

  /** Limb i of s, or 0 past its end. */
  function At(s: seq<Limb>, i: nat): Limb
  {
    if i < |s| then s[i] else 0
  }

  /** The scan of `operator<`: walking limbs n-1 down to 0, -1 if the first
      difference has s below t, 1 if above, 0 if there is none. Limbs of t past
      its end read as 0. */
  function Compare(s: seq<Limb>, t: seq<Limb>, n: nat): (r: int)
    requires n <= |s|
    ensures -1 <= r <= 1
    ensures r == 0 <==> forall i :: 0 <= i < n ==> s[i] == At(t, i)
  {
    if n == 0 then 0
    else if s[n - 1] < At(t, n - 1) then -1
    else if s[n - 1] > At(t, n - 1) then 1
    else Compare(s, t, n - 1)
  }

  /** On equal-length vectors the scan is the numeric comparison of the prefixes. */
  lemma {:induction false} CompareMeans(s: seq<Limb>, t: seq<Limb>, n: nat)
    requires |s| == |t| && n <= |s|
    ensures Compare(s, t, n) < 0 <==> Mag(s[..n]) < Mag(t[..n])
    ensures Compare(s, t, n) == 0 <==> Mag(s[..n]) == Mag(t[..n])
    decreases n
  {
    if n > 0 {
      var s', t' := s[..n], t[..n];
      assert s'[n..] == t'[n..] == [];
      if s[n - 1] < t[n - 1] {
        MagLexLess(s', t', n - 1);
      } else if s[n - 1] > t[n - 1] {
        MagLexLess(t', s', n - 1);
      } else {
        CompareMeans(s, t, n - 1);
        EqualTopLimb(s, t, n);
      }
    }
  }

  /** Equal limbs at position n - 1 leave the order of the prefixes to the
      limbs below. */
  lemma {:induction false} EqualTopLimb(s: seq<Limb>, t: seq<Limb>, n: nat)
    requires |s| == |t| && 0 < n <= |s| && s[n - 1] == t[n - 1]
    ensures Mag(s[..n]) - Mag(t[..n]) == Mag(s[..n - 1]) - Mag(t[..n - 1])
  {
    assert s[..n] == s[..n - 1] + [s[n - 1]] && t[..n] == t[..n - 1] + [t[n - 1]];
    MagAppend(s[..n - 1], s[n - 1]);
    MagAppend(t[..n - 1], t[n - 1]);
    assert |s[..n - 1]| == |t[..n - 1]|;
  }

  /** Of two trimmed vectors, the longer has the larger value. */
  lemma {:induction false} LongerIsLarger(s: seq<Limb>, t: seq<Limb>)
    requires Canonical(s) && Canonical(t) && |s| < |t|
    ensures Mag(s) < Mag(t)
  {
    if Mag(t) <= Mag(s) {
      CanonicalLength(t, s);
    }
  }

  /** `operator<` as written: the limb scan runs over a's length only and never
      compares limb counts (b's limbs past its end read as 0). */
  function LessAsWritten(a: BigInteger, b: BigInteger): (r: bool)
    requires |a.value| >= 1
    ensures Valid(a) && Valid(b) && |a.value| == |b.value| ==> (r <==> ToInt(a) < ToInt(b))
    ensures Valid(a) && Valid(b) && a.sign != b.sign && !(IsZero(a) && IsZero(b)) ==> (r <==> ToInt(a) < ToInt(b))
  {
    LessMeans(a, b);
    if IsZero(a) && IsZero(b) then false
    else if a.sign && !b.sign then true
    else if !a.sign && b.sign then false
    else
      var c := Compare(a.value, b.value, |a.value|);
      if c == 0 then false else (c < 0) != a.sign
  }

  /** `operator<` with the limb counts compared before the scan, which is what
      `operator-` needs of it. */
  function Less(a: BigInteger, b: BigInteger): (r: bool)
    requires |a.value| >= 1 && |b.value| >= 1
    ensures Valid(a) && Valid(b) ==> (r <==> ToInt(a) < ToInt(b))
  {
    LessMeans(a, b);
    if IsZero(a) && IsZero(b) then false
    else if a.sign && !b.sign then true
    else if !a.sign && b.sign then false
    else if |a.value| != |b.value| then (|a.value| < |b.value|) != a.sign
    else
      var c := Compare(a.value, b.value, |a.value|);
      if c == 0 then false else (c < 0) != a.sign
  }

  lemma {:induction false} LessMeans(a: BigInteger, b: BigInteger)
    ensures Valid(a) && Valid(b) && !(IsZero(a) && IsZero(b)) && a.sign == b.sign ==>
      ((if |a.value| != |b.value| then (|a.value| < |b.value|) != a.sign
        else (var c := Compare(a.value, b.value, |a.value|);
              if c == 0 then false else (c < 0) != a.sign))
       <==> ToInt(a) < ToInt(b))
  {
    if Valid(a) && Valid(b) && a.sign == b.sign {
      if |a.value| < |b.value| {
        LongerIsLarger(a.value, b.value);
      } else if |b.value| < |a.value| {
        LongerIsLarger(b.value, a.value);
      } else {
        CompareMeans(a.value, b.value, |a.value|);
        assert a.value[..|a.value|] == a.value && b.value[..|b.value|] == b.value;
      }
    }
  }

  /** The source's `<` says 5 < 2^32 + 3 is false: it compares only the low limb. */
  lemma {:induction false} LessAsWrittenIgnoresLength()
    ensures var a, b := FromInt(5), BigInteger(false, [3, 1]);
      Valid(a) && Valid(b) && ToInt(a) < ToInt(b) && !LessAsWritten(a, b)
  {
    var b := BigInteger(false, [3, 1]);
    assert b.value[..1] == [3];
    MagSingle(3);
    assert Mag(b.value) == 3 + BASE;
  }

  /** `operator==`: any two zeros are equal; otherwise sign and limbs must match. */
  function Equal(a: BigInteger, b: BigInteger): (r: bool)
    ensures Valid(a) && Valid(b) ==> (r <==> ToInt(a) == ToInt(b))
  {
    SameValueSameLimbs(a.value, b.value);
    if IsZero(a) && IsZero(b) then true
    else if |a.value| != |b.value| || a.sign != b.sign then false
    else a.value == b.value
  }

  lemma {:induction false} SameValueSameLimbs(s: seq<Limb>, t: seq<Limb>)
    ensures Canonical(s) && Canonical(t) && Mag(s) == Mag(t) ==> s == t
  {
    if Canonical(s) && Canonical(t) && Mag(s) == Mag(t) {
      CanonicalUnique(s, t);
    }
  }

  /** `operator>`: `b < a && a != b`. */
  function Greater(a: BigInteger, b: BigInteger): (r: bool)
    requires |a.value| >= 1 && |b.value| >= 1
    ensures Valid(a) && Valid(b) ==> (r <==> ToInt(a) > ToInt(b))
  {
    Less(b, a) && !Equal(a, b)
  }

  /** `operator<=`: `a < b || a == b`. */
  function LessOrEqual(a: BigInteger, b: BigInteger): (r: bool)
    requires |a.value| >= 1 && |b.value| >= 1
    ensures Valid(a) && Valid(b) ==> (r <==> ToInt(a) <= ToInt(b))
  {
    Less(a, b) || Equal(a, b)
  }

  /** `operator>=`: `a > b || a == b`. */
  function GreaterOrEqual(a: BigInteger, b: BigInteger): (r: bool)
    requires |a.value| >= 1 && |b.value| >= 1
    ensures Valid(a) && Valid(b) ==> (r <==> ToInt(a) >= ToInt(b))
  {
    Greater(a, b) || Equal(a, b)
  }

  /** `operator>` as written: `b < a && a != b` with the source's `<`. */
  function GreaterAsWritten(a: BigInteger, b: BigInteger): (r: bool)
    requires |a.value| >= 1 && |b.value| >= 1
    ensures Valid(a) && Valid(b) && |a.value| == |b.value| ==> (r <==> ToInt(a) > ToInt(b))
  {
    LessAsWritten(b, a) && !Equal(a, b)
  }

  /** `operator<=` as written: `a < b || a == b` with the source's `<`. */
  function LessOrEqualAsWritten(a: BigInteger, b: BigInteger): (r: bool)
    requires |a.value| >= 1 && |b.value| >= 1
    ensures Valid(a) && Valid(b) && |a.value| == |b.value| ==> (r <==> ToInt(a) <= ToInt(b))
  {
    LessAsWritten(a, b) || Equal(a, b)
  }

  /** `operator>=` as written: `a > b || a == b` on top of the source's `>`. */
  function GreaterOrEqualAsWritten(a: BigInteger, b: BigInteger): (r: bool)
    requires |a.value| >= 1 && |b.value| >= 1
    ensures Valid(a) && Valid(b) && |a.value| == |b.value| ==> (r <==> ToInt(a) >= ToInt(b))
  {
    GreaterAsWritten(a, b) || Equal(a, b)
  }

  /** The three comparisons built on the source's `<` all get 2^32 + 3 against
      5 wrong. */
  lemma {:induction false} ComparisonsAsWrittenIgnoreLength()
    ensures var a, b := BigInteger(false, [3, 1]), FromInt(5);
      && Valid(a) && Valid(b) && ToInt(a) > ToInt(b)
      && !GreaterAsWritten(a, b) && !GreaterOrEqualAsWritten(a, b) && !LessOrEqualAsWritten(b, a)
  {
    var a := BigInteger(false, [3, 1]);
    assert a.value[..1] == [3];
    MagSingle(3);
    assert Mag(a.value) == 3 + BASE;
  }

  // ---------------------------------------------------------------------------
  // Addition and subtraction

  /** The first i limbs of y, or all of y when it is shorter. */
  function Prefix(y: seq<Limb>, i: nat): (r: seq<Limb>)
    ensures |r| <= |y| && (i >= |y| ==> r == y) && (i == 0 ==> Mag(r) == 0)
  {
    if i < |y| then y[..i] else y
  }

  /** Adding limb i of y to the value of the prefix y[..i]. */
  lemma {:induction false} PrefixStep(y: seq<Limb>, i: nat)
    ensures Mag(Prefix(y, i + 1)) == Mag(Prefix(y, i)) + At(y, i) * Pow(i)
  {
    if i + 1 < |y| {
      assert y[..i + 1] == y[..i] + [y[i]];
      MagAppend(y[..i], y[i]);
    } else if i + 1 == |y| {
      assert y == y[..i] + [y[i]];
      MagAppend(y[..i], y[i]);
    }
  }

  /** One step of the carry loop of `operator+`: limb i becomes `next` and the
      carry moves up one place. */
  lemma {:induction false} CarryStep(r: seq<Limb>, i: nat, next: Limb, c: int, c': int, d: int)
    requires i < |r| && (c == 0 || c == 1) && (c' == 0 || c' == 1)
    requires next == r[i] + c + d - c' * BASE
    ensures Mag(r[i := next]) + (if c' == 1 then Pow(i + 1) else 0) ==
            Mag(r) + (if c == 1 then Pow(i) else 0) + d * Pow(i)
  {
    MagUpdate(r, i, next);
    var p := Pow(i);
    assert Pow(i + 1) == BASE * p;
    CarryArith(Mag(r), Mag(r[i := next]), next - r[i], c, c', d, p);
  }

  lemma {:induction false} CarryArith(m: int, m': int, delta: int, c: int, c': int, d: int, p: int)
    requires (c == 0 || c == 1) && (c' == 0 || c' == 1)
    requires m' == m + delta * p && delta == c + d - c' * BASE
    ensures m' + (if c' == 1 then BASE * p else 0) == m + (if c == 1 then p else 0) + d * p
  {
    MulSub(c + d, c' * BASE, p);
    MulDistrib(p, c, d);
  }

  /** One step of the borrow loop of `operator-`. */
  lemma {:induction false} BorrowStep(r: seq<Limb>, i: nat, next: Limb, b: int, b': int, d: int)
    requires i < |r| && (b == 0 || b == 1) && (b' == 0 || b' == 1)
    requires next == r[i] - (b + d) + b' * BASE
    ensures Mag(r[i := next]) - (if b' == 1 then Pow(i + 1) else 0) ==
            Mag(r) - (if b == 1 then Pow(i) else 0) - d * Pow(i)
  {
    MagUpdate(r, i, next);
    var p := Pow(i);
    assert Pow(i + 1) == BASE * p;
    BorrowArith(Mag(r), Mag(r[i := next]), next - r[i], b, b', d, p);
  }

  lemma {:induction false} BorrowArith(m: int, m': int, delta: int, b: int, b': int, d: int, p: int)
    requires (b == 0 || b == 1) && (b' == 0 || b' == 1)
    requires m' == m + delta * p && delta == b' * BASE - (b + d)
    ensures m' - (if b' == 1 then BASE * p else 0) == m - (if b == 1 then p else 0) - d * p
  {
    MulSub(b' * BASE, b + d, p);
    MulDistrib(p, b, d);
  }

  /** The invariant of the carry loop of `operator+` at limb i: the limbs so
      far plus the pending carry are x plus the first i limbs of y. */
  predicate Summed(r: seq<Limb>, x: seq<Limb>, y: seq<Limb>, i: nat, carry: int)
  {
    Mag(r) + (if carry == 1 then Pow(i) else 0) == Mag(x) + Mag(Prefix(y, i))
  }

  /** One pass of the carry loop keeps Summed: the result grows by a zero limb
      when i reaches its end, then limb i takes the sum and the carry moves up. */
  lemma {:induction false} SumStep(r: seq<Limb>, x: seq<Limb>, y: seq<Limb>, i: nat, carry: int)
    requires i <= |r| && (carry == 0 || carry == 1) && Summed(r, x, y, i, carry)
    ensures var r' := if i == |r| then r + [0] else r;
      var sum := r'[i] + carry + At(y, i);
      var carry' := if sum >= BASE then 1 else 0;
      0 <= sum - carry' * BASE < BASE &&
      Summed(r'[i := sum - carry' * BASE], x, y, i + 1, carry')
  {
    var r' := if i == |r| then r + [0] else r;
    assert Summed(r', x, y, i, carry) by {
      MagAppend(r, 0);
    }
    var sum := r'[i] + carry + At(y, i);
    var carry' := if sum >= BASE then 1 else 0;
    CarryStep(r', i, sum - carry' * BASE, carry, carry', At(y, i));
    PrefixStep(y, i);
  }

  /** The carry loop of `operator+` for two non-negative operands: the result
      starts as a copy of x and grows by one limb only for a final carry. */
  method AddMagnitudes(x: seq<Limb>, y: seq<Limb>) returns (r: seq<Limb>)
    ensures Mag(r) == Mag(x) + Mag(y)
    ensures var n := if |x| < |y| then |y| else |x|;
      |r| == n || (|r| == n + 1 && r[n] == 1)
    ensures Canonical(x) && Canonical(y) ==> Canonical(r)
  {
    r := x;
    var carry := 0;
    var maxlen := if |x| < |y| then |y| else |x|;
    var i := 0;
    while i < maxlen || carry != 0
      invariant carry == 0 || carry == 1
      invariant |r| == if i <= |x| then |x| else i
      invariant i <= maxlen || (i == maxlen + 1 && carry == 0 && r[maxlen] == 1)
      invariant Summed(r, x, y, i, carry)
      decreases maxlen + 1 - i
    {
      assert i <= maxlen;
      SumStep(r, x, y, i, carry);
      if i == |r| {
        r := r + [0];
      }
      var sum := r[i] + carry + At(y, i);
      var carry' := if sum >= BASE then 1 else 0;
      r := r[i := sum - carry' * BASE];
      carry := carry';
      i := i + 1;
    }
    SumCanonical(x, y, r);
  }

  /** A sum of canonical vectors with no new top limb keeps a nonzero top limb. */
  lemma {:induction false} SumCanonical(x: seq<Limb>, y: seq<Limb>, r: seq<Limb>)
    requires Mag(r) == Mag(x) + Mag(y)
    requires var n := if |x| < |y| then |y| else |x|;
      |r| == n || (|r| == n + 1 && r[n] == 1)
    ensures Canonical(x) && Canonical(y) ==> Canonical(r)
  {
    var n := if |x| < |y| then |y| else |x|;
    if Canonical(x) && Canonical(y) && |r| == n && n > 1 {
      var big := if |x| == n then x else y;
      assert |big| == n && big[n - 1] != 0;
      MagTopNonzero(big);
      assert Mag(r) >= Mag(big);
      MagTopZeroBound(r);
    }
  }

  /** The borrow loop of `operator-` followed by `trim`: x minus y for x >= y. */
  method SubtractMagnitudes(x: seq<Limb>, y: seq<Limb>) returns (r: seq<Limb>)
    requires Canonical(x) && Canonical(y) && Mag(y) <= Mag(x)
    ensures Canonical(r) && Mag(r) == Mag(x) - Mag(y)
  {
    CanonicalLength(y, x);
    var v: seq<Limb> := x;
    var borrow := 0;
    var i := 0;
    while i < |y| || borrow != 0
      invariant 0 <= i <= |x| && |v| == |x|
      invariant borrow == 0 || borrow == 1
      invariant Mag(v) - (if borrow == 1 then Pow(i) else 0) == Mag(x) - Mag(Prefix(y, i))
      decreases |x| - i
    {
      SubtractInRange(x, y, v, i, borrow);
      var diff := v[i] - (borrow + At(y, i));
      var borrow' := if diff < 0 then 1 else 0;
      var next := diff + borrow' * BASE;
      BorrowStep(v, i, next, borrow, borrow', At(y, i));
      PrefixStep(y, i);
      v := v[i := next];
      borrow := borrow';
      i := i + 1;
    }
    r := Trim(v);
  }

  /** While a borrow is pending past the end of y, there is still a limb of x to take it from. */
  lemma {:induction false} SubtractInRange(x: seq<Limb>, y: seq<Limb>, v: seq<Limb>, i: nat, borrow: int)
    requires |y| <= |x| && i <= |x| && |v| == |x| && Mag(y) <= Mag(x)
    requires i < |y| || borrow == 1
    requires Mag(v) - (if borrow == 1 then Pow(i) else 0) == Mag(x) - Mag(Prefix(y, i))
    ensures i < |x|
  {
    if i == |x| {
      MagBound(v);
    }
  }

  function SignCount(a: BigInteger, b: BigInteger): nat
  {
    (if a.sign then 1 else 0) + (if b.sign then 1 else 0)
  }

  /** `operator+`: a negative operand sends the sum through `operator-`. */
  method Add(a: BigInteger, b: BigInteger) returns (r: BigInteger)
    requires Valid(a) && Valid(b)
    ensures Valid(r) && ToInt(r) == ToInt(a) + ToInt(b) && !NegZero(r)
    decreases SignCount(a, b), 1
  {
    if b.sign {
      r := Sub(a, Neg(b));
    } else if a.sign {
      r := Sub(b, Neg(a));
    } else {
      var v := AddMagnitudes(a.value, b.value);
      r := BigInteger(a.sign, v);
    }
  }

  /** `operator-`: a negative operand sends the difference through `operator+`;
      equal operands give the default zero; otherwise the smaller magnitude is
      subtracted from the larger and the sign records which one was larger. */
  method Sub(a: BigInteger, b: BigInteger) returns (r: BigInteger)
    requires Valid(a) && Valid(b)
    ensures Valid(r) && ToInt(r) == ToInt(a) - ToInt(b) && !NegZero(r)
    decreases SignCount(a, b), 0
  {
    if a.sign {
      var s := Add(Neg(a), b);
      r := Neg(s);
      return;
    } else if b.sign {
      r := Add(a, Neg(b));
      return;
    }
    if Equal(a, b) {
      r := Zero();
      return;
    }
    var resultSign := Less(a, b);
    var big, small := a, b;
    if resultSign {
      big, small := b, a;
    }
    var v := SubtractMagnitudes(big.value, small.value);
    r := BigInteger(resultSign, v);
  }

  /** The limb vectors the borrow loop of `operator-` works on, as written:
      the larger operand `big` (the one the source's `<` does not put below
      the other), the smaller one, and the sign of the result. Reached only
      for two non-negative operands. */
  function SubOperandsAsWritten(a: BigInteger, b: BigInteger): (r: (seq<Limb>, seq<Limb>, bool))
    requires Valid(a) && Valid(b) && !a.sign && !b.sign
    ensures |a.value| == |b.value| ==> Mag(r.1) <= Mag(r.0) && (r.2 <==> ToInt(a) < ToInt(b))
  {
    var resultSign := LessAsWritten(a, b);
    if resultSign then (b.value, a.value, resultSign) else (a.value, b.value, resultSign)
  }

  /** For 5 - (2^32 + 3) the source keeps 5 as `big`: its single limb is
      shorter than the two limbs of `small` that the borrow loop walks, so the
      loop reads and writes `big.value[1]` past its end. */
  lemma {:induction false} SubAsWrittenReadsPastBig()
    ensures var a, b := FromInt(5), BigInteger(false, [3, 1]);
      && Valid(a) && Valid(b) && !Equal(a, b)
      && var r := SubOperandsAsWritten(a, b);
      && r.0 == a.value && r.1 == b.value && |r.0| < |r.1| && Mag(r.0) < Mag(r.1)
  {
    var b := BigInteger(false, [3, 1]);
    assert b.value[..1] == [3];
    MagSingle(3);
    MagSingle(5);
    assert Mag(b.value) == 3 + BASE;
  }

  // ---------------------------------------------------------------------------
  // Multiplication

  /** Each accumulator value stays below BASE^2, so the carry fits in one limb. */
  lemma {:induction false} ProductBound(acc: Limb, u: Limb, w: Limb, c: Limb)
    ensures 0 <= acc + u * w + c < BASE * BASE
  {
    MulLe(0, u, w);
    MulLe(u, BASE - 1, w);
    MulLe(w, BASE - 1, BASE - 1);
  }

  /** One step of the inner product loop, with the carry taken as a `uint32_t`
      (the truncation never loses anything because the accumulator is below BASE^2). */
  lemma {:induction false} ProductStep(r: seq<Limb>, k: nat, u: Limb, w: Limb, c: Limb)
    requires k < |r|
    ensures var next := r[k] + u * w + c;
      0 <= next && next / BASE < BASE &&
      Mag(r[k := next % BASE]) + (next / BASE) % BASE * Pow(k + 1) ==
      Mag(r) + c * Pow(k) + u * w * Pow(k)
  {
    var next := r[k] + u * w + c;
    ProductBound(r[k], u, w, c);
    var lo, hi := next % BASE, next / BASE;
    SplitBase(next);
    MagUpdate(r, k, lo);
    assert Pow(k + 1) == BASE * Pow(k);
    UpdateArith(Mag(r), Mag(r[k := lo]), r[k], lo, hi, c, u * w, Pow(k), Pow(k + 1));
  }

  /** A value below BASE^2 is a low limb plus BASE times a high limb. */
  lemma {:induction false} SplitBase(x: int)
    requires 0 <= x < BASE * BASE
    ensures x == x % BASE + BASE * (x / BASE) && 0 <= x / BASE < BASE && (x / BASE) % BASE == x / BASE
  {
  }

  lemma {:induction false} UpdateArith(m: int, m': int, rk: int, lo: int, hi: int, c: int, uw: int, p: int, p': int)
    requires m' == m + (lo - rk) * p && lo + BASE * hi == rk + uw + c && p' == BASE * p
    ensures m' + hi * p' == m + c * p + uw * p
  {
    MulSub(lo, rk, p);
    MulAssoc(hi, BASE, p);
    MulDistrib(p, c, uw);
    MulSub(c + uw, BASE * hi, p);
  }

  /** The inner loop of `operator*` for one limb u = a[i]: adds u * y * BASE^i
      into the accumulator. */
  method MulRow(res: seq<Limb>, u: Limb, y: seq<Limb>, i: nat) returns (out: seq<Limb>)
    requires i + |y| < |res|
    requires Mag(res) + u * Mag(y) * Pow(i) < Pow(|res|)
    ensures |out| == |res| && Mag(out) == Mag(res) + u * Mag(y) * Pow(i)
  {
    out := res;
    var carry := 0;
    var j := 0;
    while j < |y| || carry != 0
      invariant 0 <= j && i + j <= |res| && |out| == |res|
      invariant 0 <= carry < BASE
      invariant Mag(out) + carry * Pow(i + j) == Mag(res) + u * Mag(Prefix(y, j)) * Pow(i)
      decreases |res| - (i + j)
    {
      if i + j == |res| {
        RowOverflow(Mag(out), carry, Pow(i + j));
        assert false;
      }
      var w := At(y, j);
      var next := out[i + j] + u * w + carry;
      ProductStep(out, i + j, u, w, carry);
      PowAdd(i, j);
      PrefixStep(y, j);
      RowStep(Mag(Prefix(y, j)), Mag(Prefix(y, j + 1)), u, w, Pow(i), Pow(j));
      out := out[i + j := next % BASE];
      carry := (next / BASE) % BASE;
      j := j + 1;
    }
  }

  lemma {:induction false} RowOverflow(m: nat, carry: int, p: int)
    requires 1 <= carry && 0 <= p
    ensures m + carry * p >= p
  {
    MulLe(1, carry, p);
  }

  lemma {:induction false} RowStep(before: int, after: int, u: int, w: int, pi: int, pj: int)
    requires after == before + w * pj
    ensures u * after * pi == u * before * pi + u * w * (pi * pj)
  {
    MulDistrib(u, before, w * pj);
    MulDistrib(pi, u * before, u * (w * pj));
  }

  /** No partial product overflows the |a|+|b| limbs of the accumulator. */
  lemma {:induction false} ProductFits(x: seq<Limb>, y: seq<Limb>, i: nat)
    requires i < |x|
    ensures Mag(x[..i]) * Mag(y) + x[i] * Mag(y) * Pow(i) == Mag(x[..i + 1]) * Mag(y)
    ensures Mag(x[..i + 1]) * Mag(y) < Pow(|x| + |y|)
  {
    assert x[..i + 1] == x[..i] + [x[i]];
    MagAppend(x[..i], x[i]);
    RowDone(Mag(x[..i]), x[i], Mag(y), Pow(i));
    MagBound(x[..i + 1]);
    MagBound(y);
    PowMonotone(i + 1, |x|);
    PowAdd(|x|, |y|);
    ProductLess(Mag(x[..i + 1]), Pow(|x|), Mag(y), Pow(|y|));
  }

  lemma {:induction false} RowDone(mx: int, xi: int, my: int, pi: int)
    ensures mx * my + xi * my * pi == (mx + xi * pi) * my
  {
  }

  lemma {:induction false} ProductLess(a: int, a': int, b: int, b': int)
    requires 0 <= a < a' && 0 <= b < b'
    ensures a * b < a' * b'
  {
    MulLe(a, a' - 1, b);
    MulLe(b, b' - 1, a');
  }

  lemma {:induction false} SignedProduct(ma: int, mb: int, sa: bool, sb: bool)
    ensures var p := ma * mb;
      (if sa != sb then -p else p) == (if sa then -ma else ma) * (if sb then -mb else mb)
  {
  }

  /** `operator*`: schoolbook multiplication into |a|+|b| zero limbs, then
      `trim`; the sign is the exclusive or of the signs, even for a zero product. */
  method Mul(a: BigInteger, b: BigInteger) returns (r: BigInteger)
    requires Valid(a) && Valid(b)
    ensures Valid(r) && r.value == LimbsOf(Mag(a.value) * Mag(b.value))
    ensures ToInt(r) == ToInt(a) * ToInt(b) && r.sign == (a.sign != b.sign)
  {
    var x, y := a.value, b.value;
    var res: seq<Limb> := Fill(0, |x| + |y|);
    MagAllZero(res);
    var i := 0;
    while i < |x|
      invariant 0 <= i <= |x| && |res| == |x| + |y|
      invariant Mag(res) == Mag(x[..i]) * Mag(y)
    {
      ProductFits(x, y, i);
      res := MulRow(res, x[i], y, i);
      i := i + 1;
    }
    var p := Mag(x) * Mag(y);
    assert Mag(res) == p by {
      assert x[..i] == x;
    }
    var v := Trim(res);
    r := BigInteger(a.sign != b.sign, v);
    SameValueSameLimbs(v, LimbsOf(p));
    SignedProduct(Mag(x), Mag(y), a.sign, b.sign);
  }
}
