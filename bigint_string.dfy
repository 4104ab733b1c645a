/** The decimal text form of a big integer: the string constructor, which reads
    the digits from the last one to the first and accumulates digit * 10^k with
    the big-integer `+` and `*`, and `to_string`, which peels off decimal digits
    with `simple_division(10)` and reverses them. */
module BigIntString {
  import opened Limbs
  import opened BigIntCore
  import opened BigIntDivision

  // ---------------------------------------------------------------------------
  // Decimal notation

  predicate IsDigit(c: char)
  {
    '0' <= c <= '9'
  }

  /** `c - '0'` for a digit character. */
  function DigitOf(c: char): (d: nat)
    requires IsDigit(c)
    ensures d < 10
  {
    (c as int) - ('0' as int)
  }

  /** `'0' + d`. */
  function DigitChar(d: nat): (c: char)
    requires d < 10
    ensures IsDigit(c) && DigitOf(c) == d
  {
    (('0' as int) + d) as char
  }

  predicate AllDigits(s: string)
  {
    forall j :: 0 <= j < |s| ==> IsDigit(s[j])
  }

  /** What the string constructor accepts: digits, with one '-' allowed in front. */
  predicate WellFormed(s: string)
  {
    forall j :: 0 <= j < |s| ==> IsDigit(s[j]) || (j == 0 && s[j] == '-')
  }

  function Pow10(k: nat): (r: nat)
    ensures r >= 1
  {
    if k == 0 then 1 else 10 * Pow10(k - 1)
  }

  /** The number a digit string denotes, read most-significant digit first. */
  function DecimalValue(s: string): (r: nat)
    requires AllDigits(s)
    ensures r < Pow10(|s|)
  {
    if |s| == 0 then 0 else 10 * DecimalValue(s[..|s| - 1]) + DigitOf(s[|s| - 1])
  }

  /** The number a well-formed string denotes; "" and "-" denote 0. */
  function ParsedValue(s: string): int
    requires WellFormed(s)
  {
    if |s| > 0 && s[0] == '-' then -(DecimalValue(s[1..]) as int) else DecimalValue(s)
  }

  /** The decimal digits of n without leading zeros; empty for 0. */
  function Digits(n: nat): (r: string)
    ensures AllDigits(r) && (|r| == 0 <==> n == 0)
    ensures |r| > 0 ==> r[0] != '0'
  {
    if n == 0 then "" else Digits(n / 10) + [DigitChar(n % 10)]
  }

  /** The text `to_string` promises: "0" for zero, otherwise the digits of the
      magnitude with a '-' in front when the sign is set. */
  function DecimalString(a: BigInteger): string
  {
    if IsZero(a) then "0" else (if a.sign then "-" else "") + Digits(Mag(a.value))
  }

  /** `std::reverse`. */
  function Reverse(s: string): (r: string)
    ensures |r| == |s| && forall i :: 0 <= i < |s| ==> r[i] == s[|s| - 1 - i]
  {
    if |s| == 0 then [] else [s[|s| - 1]] + Reverse(s[..|s| - 1])
  }

  // ---------------------------------------------------------------------------
  // Facts about decimal notation

  /** Putting a digit in front adds digit * 10^|s|. */
  lemma {:induction false} DecimalCons(c: char, s: string)
    requires IsDigit(c) && AllDigits(s)
    ensures AllDigits([c] + s)
    ensures DecimalValue([c] + s) == Pow10(|s|) * DigitOf(c) + DecimalValue(s)
    decreases |s|
  {
    var t := [c] + s;
    if |s| > 0 {
      var n := |s|;
      assert t[..n] == [c] + s[..n - 1];
      DecimalCons(c, s[..n - 1]);
      assert t[n] == s[n - 1];
      calc {
        DecimalValue(t);
        10 * DecimalValue(t[..n]) + DigitOf(s[n - 1]);
        10 * (Pow10(n - 1) * DigitOf(c) + DecimalValue(s[..n - 1])) + DigitOf(s[n - 1]);
        { ScaleAssoc(10, Pow10(n - 1), DigitOf(c)); }
        Pow10(n) * DigitOf(c) + DecimalValue(s);
      }
    } else {
      assert t[..0] == [];
    }
  }

  lemma {:induction false} ScaleAssoc(a: int, b: int, c: int)
    ensures a * (b * c) == (a * b) * c
  {
  }

  /** Every character from position j on is a digit. */
  predicate DigitsFrom(str: string, j: nat)
  {
    forall k :: j <= k < |str| ==> IsDigit(str[k])
  }

  /** The value of the digits from position j on, accumulated as the string
      constructor does: each digit weighted by 10 to the number of digits after it. */
  function Accumulated(str: string, j: nat): nat
    requires j <= |str| && DigitsFrom(str, j)
    decreases |str| - j
  {
    if j == |str| then 0 else Pow10(|str| - 1 - j) * DigitOf(str[j]) + Accumulated(str, j + 1)
  }

  /** Accumulating from the back agrees with reading from the front. */
  lemma {:induction false} AccumulatedMeans(str: string, j: nat)
    requires j <= |str| && DigitsFrom(str, j)
    ensures AllDigits(str[j..]) && Accumulated(str, j) == DecimalValue(str[j..])
    decreases |str| - j
  {
    if j == |str| {
      assert str[j..] == [];
    } else {
      AccumulatedMeans(str, j + 1);
      assert str[j..] == [str[j]] + str[j + 1..];
      DecimalCons(str[j], str[j + 1..]);
    }
  }

  /** Reading back the digits of n gives n. */
  lemma {:induction false} DecimalOfDigits(n: nat)
    ensures DecimalValue(Digits(n)) == n
    decreases n
  {
    if n > 0 {
      DecimalOfDigits(n / 10);
      var d := Digits(n);
      assert d[..|d| - 1] == Digits(n / 10);
    }
  }

  /** Splitting off the last decimal digit of a positive number. */
  lemma {:induction false} DigitsStep(m: nat, q: nat, rem: nat)
    requires m > 0 && m == q * 10 + rem && rem < 10
    ensures Digits(m) == Digits(q) + [DigitChar(rem)]
  {
    assert m / 10 == q && m % 10 == rem;
  }

  lemma {:induction false} ReverseAppend(s: string, c: char)
    ensures Reverse(s + [c]) == [c] + Reverse(s)
  {
    assert (s + [c])[..|s|] == s;
  }

  /** Every `to_string` result is accepted by the string constructor and denotes
      the number it was made from. */
  lemma {:induction false} DecimalStringParses(a: BigInteger)
    requires Valid(a)
    ensures WellFormed(DecimalString(a)) && ParsedValue(DecimalString(a)) == ToInt(a)
    ensures |DecimalString(a)| > 0 && (DecimalString(a)[0] == '-' <==> a.sign && !IsZero(a))
  {
    var s := DecimalString(a);
    if IsZero(a) {
      assert s == "0" && s[..0] == "";
    } else {
      var m := Mag(a.value);
      DecimalOfDigits(m);
      if a.sign {
        assert s[1..] == Digits(m);
      } else {
        assert s == Digits(m);
      }
    }
  }

  // ---------------------------------------------------------------------------
  // The string constructor

  /** The string constructor's loop state once the digits from j on are read:
      the accumulator holds their value, `position` the weight of the next
      digit, and the sign is still the initial one if no digit was added. */
  predicate ReadSoFar(str: string, j: nat, acc: BigInteger, position: BigInteger, initialSign: bool)
    requires j <= |str|
  {
    && DigitsFrom(str, j)
    && Valid(acc) && ToInt(acc) == Accumulated(str, j)
    && Valid(position) && ToInt(position) == Pow10(|str| - j)
    && (if j == |str| then acc.sign == initialSign else !acc.sign)
  }

  /** `big_integer(std::string const &)` exactly as written: `sign` is never
      initialised before `*this += …` reads it, so its first value is the
      parameter initialSign. The digit loop is ReadDigits; the result is then
      trimmed. */
  method ParseFrom(str: string, initialSign: bool) returns (r: Result<BigInteger>)
    ensures r.Ok? <==> WellFormed(str)
    ensures r.Err? ==> r.error == ParseError
    ensures r.Ok? ==> Valid(r.value) && ToInt(r.value) == ParsedValue(str)
    ensures r.Ok? ==> r.value.sign == (if |str| == 0 then initialSign else str[0] == '-')
  {
    var read := ReadDigits(str, initialSign);
    if read.Err? {
      return read;
    }
    var t := Trim(read.value.value);
    r := Ok(BigInteger(read.value.sign, t));
  }

  /** The string constructor's loop: the digits are read from the last to the
      first, each adding digit * 10^k to the accumulator; a non-digit raises,
      except a '-' in front, which sets the sign and ends the loop. */
  method ReadDigits(str: string, initialSign: bool) returns (r: Result<BigInteger>)
    ensures r.Ok? <==> WellFormed(str)
    ensures r.Err? ==> r.error == ParseError
    ensures r.Ok? ==> Valid(r.value) && ToInt(r.value) == ParsedValue(str)
    ensures r.Ok? ==> r.value.sign == (if |str| == 0 then initialSign else str[0] == '-')
  {
    MagSingle(0);
    var acc := BigInteger(initialSign, [0]);
    var position := FromInt(1);
    var i: int := |str| - 1;
    while i >= 0
      invariant -1 <= i < |str| && ReadSoFar(str, i + 1, acc, position, initialSign)
      decreases i + 1
    {
      var c := str[i];
      if !IsDigit(c) {
        if i == 0 && str[0] == '-' {
          ReadSigned(str, acc, position, initialSign);
          acc := acc.(sign := true);
          break;
        }
        assert !(IsDigit(str[i]) || (i == 0 && str[i] == '-'));
        return Err(ParseError);
      }
      acc, position := AddDigit(str, i, acc, position, initialSign);
      i := i - 1;
    }
    if i == -1 {
      ReadUnsigned(str, acc, position, initialSign);
    }
    r := Ok(acc);
  }

  /** The loop ran to the front: every character was a digit. */
  lemma {:induction false} ReadUnsigned(str: string, acc: BigInteger, position: BigInteger, initialSign: bool)
    requires ReadSoFar(str, 0, acc, position, initialSign)
    ensures WellFormed(str) && Valid(acc) && ToInt(acc) == ParsedValue(str)
    ensures acc.sign == (if |str| == 0 then initialSign else str[0] == '-')
  {
    AccumulatedMeans(str, 0);
    assert str[0..] == str;
  }

  /** The loop stopped at a '-' in front of digits only. */
  lemma {:induction false} ReadSigned(str: string, acc: BigInteger, position: BigInteger, initialSign: bool)
    requires |str| >= 1 && str[0] == '-' && ReadSoFar(str, 1, acc, position, initialSign)
    ensures WellFormed(str) && Valid(acc) && -(Mag(acc.value) as int) == ParsedValue(str)
  {
    AccumulatedMeans(str, 1);
  }

  /** One step of the string constructor's loop on the digit at i:
      `*this += position * next; position *= 10;`. */
  method AddDigit(str: string, i: nat, acc: BigInteger, position: BigInteger, initialSign: bool)
      returns (acc': BigInteger, position': BigInteger)
    requires i < |str| && IsDigit(str[i]) && ReadSoFar(str, i + 1, acc, position, initialSign)
    ensures ReadSoFar(str, i, acc', position', initialSign)
  {
    var term := Mul(position, FromInt(DigitOf(str[i])));
    acc' := Add(acc, term);
    position' := Mul(position, FromInt(10));
  }

  /** The string constructor with `sign` initialised to false. */
  method Parse(str: string) returns (r: Result<BigInteger>)
    ensures r.Ok? <==> WellFormed(str)
    ensures r.Err? ==> r.error == ParseError
    ensures r.Ok? ==> Valid(r.value) && ToInt(r.value) == ParsedValue(str)
    ensures r.Ok? ==> (r.value.sign <==> |str| > 0 && str[0] == '-')
  {
    r := ParseFrom(str, false);
  }

  /** The empty string, with the indeterminate sign happening to be set, yields a
      negative zero. */
  method EmptyStringSign() returns (r: Result<BigInteger>)
    ensures r.Ok? && NegZero(r.value)
  {
    r := ParseFrom("", true);
  }

  // ---------------------------------------------------------------------------
  // to_string

  /** `to_string`: divide by 10 until the value is zero, collecting remainders as
      characters, append '-' for a negative value and reverse. */
  method ToString(a: BigInteger) returns (s: string)
    requires Valid(a)
    ensures s == DecimalString(a)
  {
    var current := a;
    var negative := current.sign;
    if IsZero(current) {
      return "0";
    }
    var result: string := [];
    while !IsZero(current)
      invariant Valid(current)
      invariant Digits(Mag(a.value)) == Digits(Mag(current.value)) + Reverse(result)
      decreases Mag(current.value)
    {
      var next := SimpleDivision(current, 10);
      var q, rem := next.value.0, next.value.1;
      DigitsStep(Mag(current.value), Mag(q.value), rem);
      ReverseAppend(result, DigitChar(rem));
      current := q;
      result := result + [DigitChar(rem)];
    }
    assert Mag(current.value) == 0;
    if negative {
      ReverseAppend(result, '-');
      result := result + ['-'];
    }
    s := Reverse(result);
  }

  /** `big_integer(to_string(a)) == a` for every trimmed big integer other than a
      negative zero. */
  method StringRoundTrip(a: BigInteger) returns (r: Result<BigInteger>)
    requires Valid(a) && !NegZero(a)
    ensures r == Ok(a)
  {
    var s := ToString(a);
    DecimalStringParses(a);
    r := Parse(s);
    SameValueSameLimbs(r.value.value, a.value);
  }
}
