/** The two's-complement bridge of big_integer (bigint/big_integer.cpp):
    `binary`, `complementation`, `bit_operation` with `&`, `|` and `^`, and `~`.
    The meaning of a bitwise operator is given limb by limb on the infinite
    two's-complement expansion of an integer: limb i of x is Digit(x, i). */
module BigIntBitwise {
  import opened Limbs
  import opened BigIntCore
  import opened BigIntDivision

  // ---------------------------------------------------------------------------
  // Reference definitions

  /** Limb i of the infinite two's-complement expansion of x (floor division,
      so a negative x has all-ones limbs from some point on). */
  function Digit(x: int, i: nat): Limb
    decreases i
  {
    if i == 0 then x % BASE else Digit(x / BASE, i - 1)
  }

  /** A limb vector read in two's complement: with `neg` every limb above the
      vector is all ones, so the value is Mag(s) - BASE^|s|. */
  function View(s: seq<Limb>, neg: bool): int
  {
    if neg then Mag(s) - Pow(|s|) else Mag(s)
  }

  /** The limb that fills a view above its own limbs. */
  function Ext(neg: bool): Limb
  {
    if neg then BASE - 1 else 0
  }

  /** Splitting off the lowest limb: x == x % BASE + BASE * (x / BASE), for
      every integer x, negative ones included. */
  lemma {:induction false} LowLimb(lo: Limb, rest: int, x: int)
    requires x == lo + BASE * rest
    ensures x % BASE == lo && x / BASE == rest
  {
    DivUnique(x, BASE, rest, lo);
  }

  /** 0 and -1 have every limb equal to 0 and to all ones. */
  lemma {:induction false} FillDigits(neg: bool, i: nat)
    ensures Digit(if neg then -1 else 0, i) == Ext(neg)
  {
    var x := if neg then -1 else 0;
    LowLimb(Ext(neg), x, x);
    if i > 0 {
      FillDigits(neg, i - 1);
    }
  }

  /** A view is its lowest limb plus BASE times the view of the rest. */
  lemma {:induction false} ViewCons(s: seq<Limb>, neg: bool)
    requires |s| >= 1
    ensures View(s, neg) == s[0] + BASE * View(s[1..], neg)
  {
  }

  /** The limbs of a view: its own limbs, then the fill limb forever. */
  lemma {:induction false} ViewDigits(s: seq<Limb>, neg: bool, i: nat)
    ensures Digit(View(s, neg), i) == if i < |s| then s[i] else Ext(neg)
  {
    if |s| == 0 {
      FillDigits(neg, i);
    } else {
      ViewCons(s, neg);
      LowLimb(s[0], View(s[1..], neg), View(s, neg));
      if i > 0 {
        ViewDigits(s[1..], neg, i - 1);
      }
    }
  }

  /** The bitwise complement of x is -x - 1, limb by limb. */
  lemma {:induction false} NotDigits(x: int, i: nat)
    ensures Digit(-x - 1, i) == BASE - 1 - Digit(x, i)
    decreases i
  {
    LowLimb(x % BASE, x / BASE, x);
    LowLimb(BASE - 1 - x % BASE, -(x / BASE) - 1, -x - 1);
    if i > 0 {
      NotDigits(x / BASE, i - 1);
    }
  }

  // ---------------------------------------------------------------------------
  // binary and complementation

  /** The limb loop shared by `binary` and `complementation`: `~i` of every limb. */
  method ComplementLimbs(s: seq<Limb>) returns (r: seq<Limb>)
    ensures |r| == |s| && forall i :: 0 <= i < |s| ==> r[i] == BASE - 1 - s[i]
    ensures Mag(r) == Pow(|s|) - 1 - Mag(s)
  {
    r := [];
    var i := 0;
    while i < |s|
      invariant 0 <= i <= |s| && |r| == i
      invariant forall j :: 0 <= j < i ==> r[j] == BASE - 1 - s[j]
    {
      r := r + [BASE - 1 - s[i]];
      i := i + 1;
    }
    MagComplement(s, r);
  }

  /** A limb-wise complement adds up to BASE^n - 1 with the original. */
  lemma {:induction false} MagComplement(s: seq<Limb>, r: seq<Limb>)
    requires |r| == |s| && forall i :: 0 <= i < |s| ==> r[i] == BASE - 1 - s[i]
    ensures Mag(r) == Pow(|s|) - 1 - Mag(s)
  {
    if |s| > 0 {
      MagComplement(s[1..], r[1..]);
    }
  }

  /** The two's-complement limbs `binary` produces, as a value: a non-negative
      integer unchanged, a negative one as BASE^(n+1) - |x|, one limb longer
      than x. */
  function TwosView(x: BigInteger): (r: seq<Limb>)
    ensures Canonical(x.value) ==> Canonical(r)
  {
    if x.sign then
      MagBound(x.value);
      PowMonotone(|x.value|, |x.value| + 1);
      LimbsOf(Pow(|x.value| + 1) - Mag(x.value))
    else
      x.value
  }

  /** `binary`: a non-negative value is returned as it is; a negative one
      becomes the complement of its limbs, one extra all-ones limb, plus 1. Its
      sign flag then says "negative view", except for a negative zero, which
      comes out as the positive BASE^2. */
  method Binary(x: BigInteger) returns (r: BigInteger)
    requires Valid(x)
    ensures Valid(r) && r.value == TwosView(x)
    ensures !x.sign ==> r == x
    ensures x.sign ==> r.sign == !IsZero(x)
  {
    if !x.sign {
      return x;
    }
    var c := ComplementLimbs(x.value);
    var res := c + [BASE - 1];
    MagAppend(c, BASE - 1);
    MagSingle(1);
    var sum := AddMagnitudes(res, [1]);
    var n, m, p := |x.value|, Mag(x.value), Pow(|x.value|);
    assert Mag(sum) == Pow(n + 1) - m by {
      assert Pow(n + 1) == BASE * p;
      assert Mag(sum) == (p - 1 - m) + (BASE - 1) * p + 1;
      MulSub(BASE, 1, p);
    }
    CanonicalUnique(sum, TwosView(x));
    r := BigInteger(!IsZero(x), sum);
  }

  /** What `binary` promises: the view of a value that is not a negative zero
      denotes the value, and a negative view has the all-ones limb on top. */
  lemma {:induction false} TwosViewMeans(x: BigInteger)
    requires Valid(x) && !NegZero(x)
    ensures View(TwosView(x), x.sign) == ToInt(x)
    ensures x.sign ==> |TwosView(x)| == |x.value| + 1 && TwosView(x)[|x.value|] == BASE - 1
  {
    if x.sign {
      var n, m := |x.value|, Mag(x.value);
      var v := TwosView(x);
      ZeroLimbs(x.value);
      MagBound(x.value);
      assert Pow(n + 1) == BASE * Pow(n);
      CanonicalLengthExact(v, n + 1);
      MagSplit(v, n);
      assert v[n..] == [v[n]];
      MagSingle(v[n]);
      MagBound(v[..n]);
      TopAllOnes(Mag(v[..n]), v[n], Pow(n), m);
    }
  }

  lemma {:induction false} TopAllOnes(lo: int, top: int, p: int, m: int)
    requires 0 <= lo < p && 0 < m < p && 0 <= top < BASE
    requires lo + p * top == BASE * p - m
    ensures top == BASE - 1
  {
    if top < BASE - 1 {
      MulLe(top, BASE - 2, p);
    }
  }

  /** `complementation`: maps a negative two's-complement view back to sign and
      magnitude (BASE^n minus the limbs, trimmed). The result's sign comes from
      testing the INPUT for zero, so the view [0], which denotes -BASE, comes
      back as +BASE. */
  method Complementation(y: BigInteger) returns (r: BigInteger)
    ensures !y.sign ==> r == y
    ensures y.sign ==> Valid(r) && Mag(r.value) == Pow(|y.value|) - Mag(y.value)
    ensures y.sign ==> r.sign == !IsZero(y)
  {
    if !y.sign {
      return y;
    }
    var c := ComplementLimbs(y.value);
    MagSingle(1);
    var sum := AddMagnitudes(c, [1]);
    var t := Trim(sum);
    r := BigInteger(!IsZero(y), t);
  }

  /** What `complementation` promises for a negative view that is not [0]. */
  lemma {:induction false} ComplementationMeans(y: BigInteger, r: BigInteger)
    requires y.sign && !IsZero(y)
    requires Mag(r.value) == Pow(|y.value|) - Mag(y.value) && r.sign
    ensures ToInt(r) == View(y.value, true) < 0
  {
    MagBound(y.value);
  }

  // ---------------------------------------------------------------------------
  // bit_operation, &, |, ^
  //
  // `bit_operation` takes a limb function (`std::bit_and<uint32_t>` and its
  // kin) and a sign function (`std::logical_and<bool>` and its kin); each
  // operator passes the same boolean operator at both types. The model takes
  // that boolean operator once and applies it bit by bit to limbs.

  /** 2^n. */
  function Pow2(n: nat): (r: nat)
    ensures r >= 1
  {
    if n == 0 then 1 else 2 * Pow2(n - 1)
  }

  lemma {:induction false} Pow2Base()
    ensures Pow2(32) == BASE
  {
    assert Pow2(8) == 0x100;
    assert Pow2(16) == 0x1_0000;
    assert Pow2(24) == 0x100_0000;
  }

  /** The n-bit number whose bit j is op(bit j of x, bit j of y). */
  function BitsOf(op: (bool, bool) -> bool, x: nat, y: nat, n: nat): (r: nat)
    ensures r < Pow2(n)
  {
    if n == 0 then 0
    else (if op(x % 2 == 1, y % 2 == 1) then 1 else 0) + 2 * BitsOf(op, x / 2, y / 2, n - 1)
  }

  /** The limb function of a boolean operator: the operator on every bit of a
      `uint32_t`, as C++'s `&`, `|` and `^` do. */
  function LimbOp(op: (bool, bool) -> bool, x: Limb, y: Limb): Limb
  {
    Pow2Base();
    BitsOf(op, x, y, 32)
  }

  /** n bits all equal to p. */
  function Ones(p: bool, n: nat): nat
  {
    if p then Pow2(n) - 1 else 0
  }

  /** Combining two all-equal bit patterns gives the all-equal pattern of the
      combined bit. */
  lemma {:induction false} BitsOfOnes(op: (bool, bool) -> bool, p: bool, q: bool, n: nat)
    ensures BitsOf(op, Ones(p, n), Ones(q, n), n) == Ones(op(p, q), n)
  {
    if n > 0 {
      BitsOfOnes(op, p, q, n - 1);
      assert Ones(p, n) % 2 == (if p then 1 else 0) && Ones(p, n) / 2 == Ones(p, n - 1);
      assert Ones(q, n) % 2 == (if q then 1 else 0) && Ones(q, n) / 2 == Ones(q, n - 1);
    }
  }

  /** The limb function maps the fill limbs of two views to the fill limb of
      the combined sign, so `bit_function` and `sign_function` agree above the
      limbs. */
  lemma {:induction false} LimbOpFill(op: (bool, bool) -> bool, p: bool, q: bool)
    ensures LimbOp(op, Ext(p), Ext(q)) == Ext(op(p, q))
  {
    Pow2Base();
    assert Ext(p) == Ones(p, 32) && Ext(q) == Ones(q, 32);
    BitsOfOnes(op, p, q, 32);
  }

  /** A boolean operator that ignores the order of its operands. */
  predicate Symmetric(op: (bool, bool) -> bool)
  {
    forall u: bool, v: bool :: op(u, v) == op(v, u)
  }

  /** A symmetric boolean operator gives a symmetric bit pattern. */
  lemma {:induction false} BitsOfSymmetric(op: (bool, bool) -> bool, x: nat, y: nat, n: nat)
    requires Symmetric(op)
    ensures BitsOf(op, x, y, n) == BitsOf(op, y, x, n)
  {
    if n > 0 {
      BitsOfSymmetric(op, x / 2, y / 2, n - 1);
    }
  }

  function AndSign(x: bool, y: bool): bool { x && y }
  function OrSign(x: bool, y: bool): bool { x || y }
  function XorSign(x: bool, y: bool): bool { x != y }

  /** The three operators' boolean operators are symmetric. */
  lemma {:induction false} OperatorsSymmetric()
    ensures Symmetric(AndSign) && Symmetric(OrSign) && Symmetric(XorSign)
  {
  }

  /** The limb-wise combination of two vectors of one length. */
  function Combine(op: (bool, bool) -> bool, s: seq<Limb>, t: seq<Limb>): (r: seq<Limb>)
    requires |s| == |t|
    ensures |r| == |s| && forall i :: 0 <= i < |s| ==> r[i] == LimbOp(op, s[i], t[i])
  {
    seq(|s|, i requires 0 <= i < |s| => LimbOp(op, s[i], t[i]))
  }

  /** For a symmetric operator the order of the two vectors does not matter. */
  lemma {:induction false} CombineSymmetric(op: (bool, bool) -> bool, s: seq<Limb>, t: seq<Limb>)
    requires |s| == |t| && Symmetric(op)
    ensures Combine(op, s, t) == Combine(op, t, s)
  {
    forall i | 0 <= i < |s|
      ensures Combine(op, s, t)[i] == Combine(op, t, s)[i]
    {
      BitsOfSymmetric(op, s[i], t[i], 32);
    }
  }

  /** The loop of `bit_operation`: `first.value[i] = bit_function(first.value[i], second.value[i])`. */
  method CombineLimbs(op: (bool, bool) -> bool, s: seq<Limb>, t: seq<Limb>) returns (w: seq<Limb>)
    requires |s| == |t|
    ensures w == Combine(op, s, t)
  {
    w := s;
    var i := 0;
    while i < |s|
      invariant 0 <= i <= |s| && |w| == |s|
      invariant forall j :: 0 <= j < i ==> w[j] == LimbOp(op, s[j], t[j])
      invariant forall j :: i <= j < |s| ==> w[j] == s[j]
    {
      w := w[i := LimbOp(op, w[i], t[i])];
      i := i + 1;
    }
  }

  /** Combining two views of one length limb by limb, with the operator on the
      signs for the fill, is the operator on every limb of the values the views
      denote. */
  lemma {:induction false} CombinedView(op: (bool, bool) -> bool, s: seq<Limb>, t: seq<Limb>,
                     ns: bool, nt: bool, i: nat)
    requires |s| == |t|
    ensures Digit(View(Combine(op, s, t), op(ns, nt)), i) ==
            LimbOp(op, Digit(View(s, ns), i), Digit(View(t, nt), i))
  {
    ViewDigits(Combine(op, s, t), op(ns, nt), i);
    ViewDigits(s, ns, i);
    ViewDigits(t, nt, i);
    LimbOpFill(op, ns, nt);
  }

  /** Sign extension: appending fill limbs leaves a view's value unchanged. */
  lemma {:induction false} ViewExtend(t: seq<Limb>, k: nat, neg: bool)
    ensures View(t + Fill(Ext(neg), k), neg) == View(t, neg)
  {
    var f := Fill(Ext(neg), k);
    MagConcat(t, f);
    PowAdd(|t|, k);
    if neg {
      MagComplement(Fill(0, k), f);
      MagAllZero(Fill(0, k));
      MulDistrib(Pow(|t|), Pow(k), -1);
    } else {
      MagAllZero(f);
    }
  }

  /** Zero padding of a view that is as long as the target or non-negative
      keeps its value. */
  lemma {:induction false} PaddedView(s: seq<Limb>, n: nat, neg: bool)
    requires |s| <= n && (|s| < n ==> !neg)
    ensures View(Resized(s, n), neg) == View(s, neg)
  {
    if |s| < n {
      assert Resized(s, n) == s + Fill(Ext(false), n - |s|);
      ViewExtend(s, n - |s|, false);
    } else {
      assert Resized(s, n) == s;
    }
  }

  /** The width of `bit_operation`'s combination: the longer view's length. */
  function Width(a: BigInteger, b: BigInteger): nat
    requires Valid(a) && Valid(b)
  {
    if |TwosView(a)| < |TwosView(b)| then |TwosView(b)| else |TwosView(a)|
  }

  /** The limbs `bit_operation` combines before `trim`: the longer view first,
      the shorter one padded with ZERO limbs second (`std::swap` then
      `resize`). */
  function Combined(op: (bool, bool) -> bool, a: BigInteger, b: BigInteger): (r: seq<Limb>)
    requires Valid(a) && Valid(b)
    ensures |r| == Width(a, b) >= 1
  {
    var s, t := TwosView(a), TwosView(b);
    if |s| < |t| then Combine(op, t, Resized(s, |t|)) else Combine(op, s, Resized(t, |s|))
  }

  /** What the end of `bit_operation` makes of a combination w: `trim`, the
      sign (dropped when the trimmed limbs are zero) and `complementation`. */
  function TrimmedRead(w: seq<Limb>, neg: bool): (r: int)
    ensures r < 0 <==> neg && Mag(w) > 0
  {
    var m := Mag(w);
    MagBound(LimbsOf(m));
    if m == 0 then 0 else if neg then m - Pow(|LimbsOf(m)|) else m
  }

  /** The value of `bit_operation` as written. */
  function BitOperationValue(op: (bool, bool) -> bool, a: BigInteger, b: BigInteger): (r: int)
    requires Valid(a) && Valid(b)
    ensures r < 0 ==> op(a.sign, b.sign)
    ensures op(a.sign, b.sign) ==> r <= 0
  {
    TrimmedRead(Combined(op, a, b), op(a.sign, b.sign))
  }

  /** `bit_operation` as written (bigint/big_integer.cpp). */
  method BitOperation(a: BigInteger, b: BigInteger, op: (bool, bool) -> bool) returns (r: BigInteger)
    requires Valid(a) && Valid(b)
    ensures Valid(r) && ToInt(r) == BitOperationValue(op, a, b)
  {
    var first := Binary(a);
    var second := Binary(b);
    if |first.value| < |second.value| {
      first, second := second, first;
    }
    var padded := Resized(second.value, |first.value|);
    var w := CombineLimbs(op, first.value, padded);
    assert w == Combined(op, a, b);
    r := ReadCombination(w, op(a.sign, b.sign));
  }

  /** The end of `bit_operation`: `trim`, the sign unless the trimmed limbs
      are zero, then `complementation`. */
  method ReadCombination(w: seq<Limb>, neg: bool) returns (r: BigInteger)
    requires |w| >= 1
    ensures Valid(r) && ToInt(r) == TrimmedRead(w, neg)
  {
    var t := Trim(w);
    CanonicalUnique(t, LimbsOf(Mag(w)));
    ZeroLimbs(t);
    var sign := if IsZero(BigInteger(false, t)) then false else neg;
    r := Complementation(BigInteger(sign, t));
  }

  /** The value the end of `bit_operation` gives a combination w is the view
      of w, when a negative combination has a nonzero top limb. */
  lemma {:induction false} TrimmedValue(w: seq<Limb>, neg: bool)
    requires |w| >= 1 && (neg ==> w[|w| - 1] != 0)
    ensures TrimmedRead(w, neg) == View(w, neg)
  {
    if neg {
      MagTopNonzero(w);
      CanonicalUnique(w, LimbsOf(Mag(w)));
    }
  }

  /** A view resized to a width it may be padded to still denotes its number. */
  lemma {:induction false} ResizedView(a: BigInteger, n: nat)
    requires Valid(a) && !NegZero(a) && |TwosView(a)| <= n && (|TwosView(a)| < n ==> !a.sign)
    ensures View(Resized(TwosView(a), n), a.sign) == ToInt(a)
  {
    TwosViewMeans(a);
    PaddedView(TwosView(a), n, a.sign);
  }

  /** The combination is the operator on both views resized to the width, and
      the resized views still denote the operands. */
  lemma {:induction false} OperandsResized(op: (bool, bool) -> bool, a: BigInteger, b: BigInteger)
    requires Symmetric(op)
    requires Valid(a) && Valid(b) && !NegZero(a) && !NegZero(b)
    requires |TwosView(a)| < |TwosView(b)| ==> !a.sign
    requires |TwosView(b)| < |TwosView(a)| ==> !b.sign
    ensures var n := Width(a, b);
      Combined(op, a, b) == Combine(op, Resized(TwosView(a), n), Resized(TwosView(b), n)) &&
      View(Resized(TwosView(a), n), a.sign) == ToInt(a) &&
      View(Resized(TwosView(b), n), b.sign) == ToInt(b)
  {
    var s, t, n := TwosView(a), TwosView(b), Width(a, b);
    if |s| < |t| {
      assert Resized(t, n) == t;
      CombineSymmetric(op, t, Resized(s, n));
    } else {
      assert Resized(s, n) == s;
    }
    ResizedView(a, n);
    ResizedView(b, n);
  }

  /** The two conditions under which `bit_operation` as written is right: the
      shorter view is non-negative, so zero padding is sign extension, and a
      negative combination keeps a nonzero top limb, so `trim` does not
      shorten a negative view. */
  predicate Harmless(op: (bool, bool) -> bool, a: BigInteger, b: BigInteger)
    requires Valid(a) && Valid(b)
  {
    (|TwosView(a)| < |TwosView(b)| ==> !a.sign) &&
    (|TwosView(b)| < |TwosView(a)| ==> !b.sign) &&
    (var w := Combined(op, a, b); op(a.sign, b.sign) ==> w[|w| - 1] != 0)
  }

  /** Reading a combination w of two views of x and y as `bit_operation` does
      gives the operator on x's and y's limbs, when a negative combination
      keeps a nonzero top limb. */
  lemma {:induction false} CombineRead(op: (bool, bool) -> bool, s: seq<Limb>, t: seq<Limb>, w: seq<Limb>,
                    ns: bool, nt: bool, x: int, y: int, i: nat)
    requires |s| == |t| >= 1 && w == Combine(op, s, t)
    requires View(s, ns) == x && View(t, nt) == y
    requires op(ns, nt) ==> w[|w| - 1] != 0
    ensures Digit(TrimmedRead(w, op(ns, nt)), i) == LimbOp(op, Digit(x, i), Digit(y, i))
  {
    TrimmedValue(w, op(ns, nt));
    CombinedView(op, s, t, ns, nt, i);
  }

  /** When `bit_operation` as written is right: for a symmetric operator,
      operands that are not negative zeros and the two conditions of
      Harmless, every limb i of the result is the operator on the operands'
      limbs i. */
  lemma {:induction false} BitOperationCorrect(op: (bool, bool) -> bool, a: BigInteger, b: BigInteger, i: nat)
    requires Symmetric(op) && Valid(a) && Valid(b) && !NegZero(a) && !NegZero(b)
    requires Harmless(op, a, b)
    ensures Digit(BitOperationValue(op, a, b), i) ==
            LimbOp(op, Digit(ToInt(a), i), Digit(ToInt(b), i))
  {
    var n := Width(a, b);
    var s, t := Resized(TwosView(a), n), Resized(TwosView(b), n);
    OperandsResized(op, a, b);
    CombineRead(op, s, t, Combined(op, a, b), a.sign, b.sign, ToInt(a), ToInt(b), i);
  }

  /** `operator&`. */
  method BitAnd(a: BigInteger, b: BigInteger) returns (r: BigInteger)
    requires Valid(a) && Valid(b)
    ensures Valid(r) && ToInt(r) == BitOperationValue(AndSign, a, b)
  {
    r := BitOperation(a, b, AndSign);
  }

  /** `operator|`. */
  method BitOr(a: BigInteger, b: BigInteger) returns (r: BigInteger)
    requires Valid(a) && Valid(b)
    ensures Valid(r) && ToInt(r) == BitOperationValue(OrSign, a, b)
  {
    r := BitOperation(a, b, OrSign);
  }

  /** `operator^`. */
  method BitXor(a: BigInteger, b: BigInteger) returns (r: BigInteger)
    requires Valid(a) && Valid(b)
    ensures Valid(r) && ToInt(r) == BitOperationValue(XorSign, a, b)
  {
    r := BitOperation(a, b, XorSign);
  }

  /** `operator~`: `-(a + 1)`. Every limb of the result is the complement of
      the operand's limb. */
  method Not(a: BigInteger) returns (r: BigInteger)
    requires Valid(a)
    ensures Valid(r) && ToInt(r) == -ToInt(a) - 1 && !NegZero(r)
  {
    var s := Add(a, FromInt(1));
    r := Neg(s);
  }

  /** ~(-2^32) computes -2^32 + 1, which `operator+` sends to 1 - 2^32; there
      the source's `<` keeps the one-limb 1 as `big` against the two limbs of
      2^32, so the borrow loop runs past the end of `big`. */
  lemma {:induction false} NotAsWrittenReadsPastBig()
    ensures var a := BigInteger(true, [0, 1]);
      && Valid(a) && ToInt(a) == -BASE && !Equal(FromInt(1), Neg(a))
      && var r := SubOperandsAsWritten(FromInt(1), Neg(a));
      && |r.0| < |r.1| && Mag(r.0) < Mag(r.1)
  {
    var a := BigInteger(true, [0, 1]);
    assert a.value[..1] == [0];
    MagSingle(0);
    MagSingle(1);
    assert Mag(a.value) == BASE;
  }

  /** What `operator~` promises limb by limb. */
  lemma {:induction false} NotMeans(a: BigInteger, r: BigInteger, i: nat)
    requires ToInt(r) == -ToInt(a) - 1
    ensures Digit(ToInt(r), i) == BASE - 1 - Digit(ToInt(a), i)
  {
    NotDigits(ToInt(a), i);
  }

  // ---------------------------------------------------------------------------
  // Two faults of bit_operation as written, and the corrected operation

  /** The value -1 as the int constructor builds it. */
  function MinusOne(): (r: BigInteger)
    ensures Valid(r) && ToInt(r) == -1 && r.value == [1] && r.sign
  {
    FromInt(-1)
  }

  /** The view `binary` makes of -1: two all-ones limbs. */
  lemma {:induction false} MinusOneView()
    ensures TwosView(MinusOne()) == [BASE - 1, BASE - 1]
  {
    var f := BASE - 1;
    assert Pow(2) == BASE * BASE;
    MagSingle(f);
    MagCons(f, [f]);
    CanonicalUnique(LimbsOf(Pow(2) - 1), [f, f]);
  }

  /** Limb i of a non-negative number given by its limbs, and of -1. */
  lemma {:induction false} SampleDigits(s: seq<Limb>, i: nat)
    requires i < |s|
    ensures Digit(Mag(s), i) == s[i] && Digit(-1, i) == BASE - 1
  {
    ViewDigits(s, false, i);
    FillDigits(true, i);
  }

  /** Zero padding of the shorter view: for -1 and BASE^2 * (BASE - 1) (limbs
      [0, 0, BASE - 1]) the view of -1 is [BASE - 1, BASE - 1]; padded with a
      zero limb instead of an all-ones limb it meets the top limb of the other
      operand as zero, so `&` returns 0, while limb 2 of the intended result
      is BASE - 1 (the intended result is the second operand itself). */
  lemma {:induction false} AndZeroPadding()
    ensures var a, b := MinusOne(), BigInteger(false, [0, 0, BASE - 1]);
      Valid(b) && BitOperationValue(AndSign, a, b) == 0 &&
      LimbOp(AndSign, Digit(ToInt(a), 2), Digit(ToInt(b), 2)) == BASE - 1
  {
    var a, b := MinusOne(), BigInteger(false, [0, 0, BASE - 1]);
    var f := BASE - 1;
    MinusOneView();
    assert Resized([f, f], 3) == [f, f, 0];
    LimbOpFill(AndSign, false, true);
    LimbOpFill(AndSign, true, false);
    LimbOpFill(AndSign, true, true);
    MagAllZero(Combined(AndSign, a, b));
    SampleDigits([0, 0, f], 2);
  }

  /** `trim` before `complementation`: for -1 and BASE^2 - BASE (limbs
      [0, BASE - 1]) the `^` combination is [BASE - 1, 0], a negative view of
      -BASE^2 + BASE - 1; `trim` drops its zero top limb, which turns it into
      the view [BASE - 1] of -1, so `^` returns -1, whose limb 1 is all ones,
      while limb 1 of the intended result -(BASE^2 - BASE) - 1 is 0. */
  lemma {:induction false} XorTopTrimmed()
    ensures var a, b := MinusOne(), BigInteger(false, [0, BASE - 1]);
      Valid(b) && BitOperationValue(XorSign, a, b) == -1 &&
      LimbOp(XorSign, Digit(ToInt(a), 1), Digit(ToInt(b), 1)) == 0 &&
      Digit(-1, 1) == BASE - 1
  {
    var a, b := MinusOne(), BigInteger(false, [0, BASE - 1]);
    var f := BASE - 1;
    MinusOneView();
    LimbOpFill(XorSign, true, false);
    LimbOpFill(XorSign, true, true);
    assert Combined(XorSign, a, b) == [f, 0];
    MagCons(f, [0]);
    MagSingle(0);
    MagSingle(f);
    SampleDigits([0, f], 1);
  }

  /** The view `binary` makes of a negative zero: BASE^2, limbs [0, 0, 1],
      where every other zero has the view [0]. */
  lemma {:induction false} NegZeroView(x: BigInteger)
    requires NegZero(x)
    ensures TwosView(x) == [0, 0, 1] && Mag(TwosView(x)) == Pow(2)
  {
    assert Pow(2) == BASE * BASE;
    MagSingle(0);
    MagSingle(1);
    MagCons(0, [1]);
    MagCons(0, [0, 1]);
    CanonicalUnique(LimbsOf(Pow(2) - 0), [0, 0, 1]);
  }

  /** A negative zero through `|` or `^` (any operator that is true on
      (true, false) and false on (false, false)): with 0 the combination is
      [0, 0, 1] with a negative sign, so the result is -(BASE^3 - BASE^2),
      while every limb of 0 | 0 and of 0 ^ 0 is 0. */
  lemma {:induction false} NegZeroBitOperation(op: (bool, bool) -> bool, i: nat)
    requires op(true, false) && !op(false, false)
    ensures var a, b := BigInteger(true, [0]), BigInteger(false, [0]);
      Valid(a) && NegZero(a) && ToInt(a) == 0 && ToInt(b) == 0 &&
      BitOperationValue(op, a, b) == Pow(2) - Pow(3) < 0 &&
      LimbOp(op, Digit(ToInt(a), i), Digit(ToInt(b), i)) == 0
  {
    var a, b := BigInteger(true, [0]), BigInteger(false, [0]);
    NegZeroView(a);
    assert Resized([0], 3) == [0, 0, 0];
    LimbOpFill(op, false, false);
    assert LimbOp(op, 1, 0) == 1 by {
      Pow2Base();
      BitsOfOnes(op, false, false, 31);
    }
    assert Combined(op, a, b) == [0, 0, 1];
    assert Pow(3) == BASE * Pow(2);
    FillDigits(false, i);
  }

  /** `complementation` as intended: a negative view denotes a negative
      number, the view [0] included. */
  method ComplementationFixed(y: BigInteger) returns (r: BigInteger)
    ensures !y.sign ==> r == y
    ensures y.sign ==> Valid(r) && ToInt(r) == View(y.value, true) < 0
  {
    if !y.sign {
      return y;
    }
    var c := ComplementLimbs(y.value);
    MagSingle(1);
    var sum := AddMagnitudes(c, [1]);
    var t := Trim(sum);
    MagBound(y.value);
    r := BigInteger(true, t);
  }

  /** The value a big integer denotes with a negative zero made positive. */
  function Normal(x: BigInteger): (r: BigInteger)
    ensures r.value == x.value && ToInt(r) == ToInt(x) && !NegZero(r)
  {
    BigInteger(x.sign && !IsZero(x), x.value)
  }

  /** A view sign-extended to n limbs. */
  function Extended(x: BigInteger, n: nat): (r: seq<Limb>)
    requires |TwosView(x)| <= n
    ensures |r| == n
  {
    TwosView(x) + Fill(Ext(x.sign), n - |TwosView(x)|)
  }

  /** The width of the corrected combination: the longer view's length. */
  function FixedWidth(a: BigInteger, b: BigInteger): nat
  {
    var a', b' := Normal(a), Normal(b);
    if |TwosView(a')| < |TwosView(b')| then |TwosView(b')| else |TwosView(a')|
  }

  /** The limbs the corrected `bit_operation` combines: both views
      sign-extended to the width, the operator applied limb by limb. */
  function FixedLimbs(op: (bool, bool) -> bool, a: BigInteger, b: BigInteger): seq<Limb>
  {
    var n := FixedWidth(a, b);
    Combine(op, Extended(Normal(a), n), Extended(Normal(b), n))
  }

  /** The value of the corrected `bit_operation`: the combined limbs read as a
      view with the combined sign. */
  function FixedValue(op: (bool, bool) -> bool, a: BigInteger, b: BigInteger): int
  {
    View(FixedLimbs(op, a, b), op(Normal(a).sign, Normal(b).sign))
  }

  /** A sign-extended view still denotes its number. */
  lemma {:induction false} ExtendedView(x: BigInteger, n: nat)
    requires Valid(x) && !NegZero(x) && |TwosView(x)| <= n
    ensures View(Extended(x, n), x.sign) == ToInt(x)
  {
    TwosViewMeans(x);
    ViewExtend(TwosView(x), n - |TwosView(x)|, x.sign);
  }

  /** The corrected `bit_operation` is the operator on every limb of the
      operands, for every operator and every pair of operands. */
  lemma {:induction false} FixedValueCorrect(op: (bool, bool) -> bool, a: BigInteger, b: BigInteger, i: nat)
    requires Valid(a) && Valid(b)
    ensures Digit(FixedValue(op, a, b), i) == LimbOp(op, Digit(ToInt(a), i), Digit(ToInt(b), i))
  {
    var a', b', n := Normal(a), Normal(b), FixedWidth(a, b);
    ExtendedView(a', n);
    ExtendedView(b', n);
    CombinedView(op, Extended(a', n), Extended(b', n), a'.sign, b'.sign, i);
  }

  /** `binary` followed by sign extension to n limbs. */
  method ExtendTo(x: BigInteger, n: nat) returns (s: seq<Limb>)
    requires Valid(x) && |TwosView(x)| <= n
    ensures s == Extended(x, n)
  {
    var v := Binary(x);
    s := v.value + Fill(Ext(x.sign), n - |v.value|);
  }

  /** `bit_operation` corrected: negative zeros are read as zero, the shorter
      view is padded with its own fill limb, and a negative combination is
      complemented without being trimmed first. */
  method BitOperationFixed(a: BigInteger, b: BigInteger, op: (bool, bool) -> bool) returns (r: BigInteger)
    requires Valid(a) && Valid(b)
    ensures Valid(r) && ToInt(r) == FixedValue(op, a, b)
  {
    var n := FixedWidth(a, b);
    var s := ExtendTo(Normal(a), n);
    var t := ExtendTo(Normal(b), n);
    var w := CombineLimbs(op, s, t);
    if op(Normal(a).sign, Normal(b).sign) {
      r := ComplementationFixed(BigInteger(true, w));
    } else {
      var v := Trim(w);
      r := BigInteger(false, v);
    }
  }
}
