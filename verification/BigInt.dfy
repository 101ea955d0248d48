/**
 The arbitrary-precision integer: parsing, and the object that owns the digits.
 */
module BigInts {
  import opened Digits
  import opened Numbers
  import opened Carries
  import opened BigIntMul
  import opened BigIntDiv

  // ---------- Parsing ----------

  function CharDigit(c: char): (k: nat)
    ensures k < 16
  {
    if '0' <= c <= '9' then c as int - '0' as int
    else if 'A' <= c <= 'F' then c as int - 'A' as int + 10
    else if 'a' <= c <= 'f' then c as int - 'a' as int + 10
    else 0
  }

  /** The digits after the first `n` characters: multiply by the base, add one digit. */
  function Parsed(text: string, base: Digit, n: nat): seq<Digit>
    requires n <= |text|
  {
    if n == 0 then [0] else TimesPlus(Parsed(text, base, n - 1), base, CharDigit(text[n - 1]))
  }

  function TimesPlus(nums: seq<Digit>, base: Digit, k: Digit): seq<Digit> {
    var product: nat := Val(nums) * base;
    Sum(DigitsOf(product), [k])
  }

  /** The number they spell. */
  function Spelled(text: string, base: nat, n: nat): nat
    requires n <= |text|
  {
    if n == 0 then 0 else Spelled(text, base, n - 1) * base + CharDigit(text[n - 1])
  }

  /** No prefix spells a number whose remainder modulo 2^64 is below its own last digit. */
  predicate NeverWraps(text: string, base: nat, n: nat)
    requires n <= |text|
  {
    n == 0 || (NeverWraps(text, base, n - 1) && Spelled(text, base, n) % W >= CharDigit(text[n - 1]))
  }

  /** Adding one small digit: exact unless the two lowest digits overflow together. */
  lemma {:induction false} AddSmall(d: seq<Digit>, k: Digit)
    requires Normal(d)
    ensures Normal(Sum(d, [k]))
    ensures Val(Sum(d, [k])) <= Val(d) + k
    ensures Val(Sum(d, [k])) == Val(d) + k <==> (Val(d) + k) % W >= k
  {
    SumExactIff(d, [k]);
    Val1(k);
    assert Extended(d, 1) == d;
    AddSmallNormal(d, k);
    assert TrueCarry(d, [k], 1) == if d[0] + k >= B then 1 else 0;
    assert NoCarryLost(d, [k], 1);
    LowTwo(d, k);
  }

  lemma {:induction false} AddSmallNormal(d: seq<Digit>, k: Digit)
    requires Normal(d)
    ensures Normal(Sum(d, [k]))
  {
    assert Extended(d, 1) == d;
  }

  lemma {:induction false} LowTwo(d: seq<Digit>, k: Digit)
    requires Normal(d)
    ensures (Val(d) + k) % W < k <==> d[0] + k >= B && |d| > 1 && d[1] == B - 1
  {
    if |d| == 1 {
      Val1(d[0]);
      assert d == [d[0]];
      SmallMod(d[0] + k);
    } else {
      var high := DigitAt2(d, |d|);
      SplitMod(d[0], d[1], high, k);
    }
  }

  lemma {:induction false} DigitAt2(d: seq<Digit>, m: nat) returns (high: nat)
    requires 2 <= m <= |d|
    ensures ValUpto(d, m) == d[0] + B * d[1] + W * high
  {
    if m == 2 {
      high := 0;
      assert ValUpto(d, 2) == ValUpto(d, 1) + d[1] * BPow(1);
      assert ValUpto(d, 1) == ValUpto(d, 0) + d[0] * BPow(0);
      assert BPow(1) == B * BPow(0);
    } else {
      var h := DigitAt2(d, m - 1);
      high := h + d[m - 1] * BPow(m - 3);
      assert BPow(m - 1) == B * BPow(m - 2) && BPow(m - 2) == B * BPow(m - 3);
      Assoc(d[m - 1], W, BPow(m - 3));
    }
  }

  lemma {:induction false} SmallMod(x: nat)
    requires x < W
    ensures x % W == x
  {
  }

  lemma {:induction false} SplitMod(d0: nat, d1: nat, high: nat, k: nat)
    requires d0 < B && d1 < B && k < B
    ensures (d0 + B * d1 + W * high + k) % W < k <==> d0 + k >= B && d1 == B - 1
  {
    var low := d0 + B * d1 + k;
    if low < W {
      DivModUnique(low + W * high, W, high, low);
    } else {
      DivModUnique(low + W * high, W, high + 1, low - W);
    }
  }

  /** In every base: parsing never yields too much, always a normal vector, and the number
      spelled exactly when no prefix wraps. */
  lemma {:induction false} ParsedExactIff(text: string, base: Digit, n: nat)
    requires n <= |text| && base > 0
    ensures Normal(Parsed(text, base, n)) && Val(Parsed(text, base, n)) <= Spelled(text, base, n)
    ensures Val(Parsed(text, base, n)) == Spelled(text, base, n) <==> NeverWraps(text, base, n)
  {
    hide Sum, ValUpto, DigitsOf, CharDigit;
    if n == 0 {
      Val1(0);
    } else {
      ParsedExactIff(text, base, n - 1);
      ParseStep(Parsed(text, base, n - 1), base, Spelled(text, base, n - 1), CharDigit(text[n - 1]));
    }
  }

  lemma {:induction false} ParseStep(nums: seq<Digit>, base: Digit, t: nat, k: Digit)
    requires base > 0 && Val(nums) <= t
    ensures var next := Sum(DigitsOf(Val(nums) * base), [k]);
            && Normal(next) && Val(next) <= t * base + k
            && (Val(next) == t * base + k <==> Val(nums) == t && (t * base + k) % W >= k)
  {
    hide Sum, ValUpto, DigitsOf;
    var x := Val(nums);
    DigitsOfCorrect(x * base);
    AddSmall(DigitsOf(x * base), k);
    MulMono(x, t, base);
    if x < t { MulMonoStrict(x, t, base); }
  }

  lemma {:induction false} HexStep(t: nat, k: nat)
    requires k < 16
    ensures (t * 16 + k) % W >= k
  {
    var m := W / 16;
    assert m * 16 == W;
    DivMod(t, m);
    var q, r := t / m, t % m;
    assert t * 16 + k == q * W + (r * 16 + k) by { Assoc(16, q, m); }
    DivModUnique(t * 16 + k, W, q, r * 16 + k);
  }

  lemma {:induction false} HexNeverWraps(text: string, n: nat)
    requires n <= |text|
    ensures NeverWraps(text, 16, n)
  {
    if n > 0 {
      HexNeverWraps(text, n - 1);
      HexStep(Spelled(text, 16, n - 1), CharDigit(text[n - 1]));
    }
  }

  /** Hexadecimal strings of any length are parsed exactly. */
  lemma {:induction false} HexExact(text: string)
    ensures Normal(Parsed(text, 16, |text|)) && Val(Parsed(text, 16, |text|)) == Spelled(text, 16, |text|)
  {
    HexNeverWraps(text, |text|);
    ParsedExactIff(text, 16, |text|);
  }

  /** The shortest family of wrong decimals: a prefix worth 2^64 - 6 followed by a 6. */
  lemma {:induction false} DecimalGoesWrong(text: string)
    requires |text| >= 1 && Spelled(text, 10, |text| - 1) * 10 == W - 6 && CharDigit(text[|text| - 1]) == 6
    ensures Val(Parsed(text, 10, |text|)) < Spelled(text, 10, |text|) == W
  {
    ParsedExactIff(text, 10, |text|);
  }

  lemma {:induction false} NextDigit(text: string, n: nat, x: nat, d: nat)
    requires n < |text| && Spelled(text, 10, n) == x && CharDigit(text[n]) == d
    ensures Spelled(text, 10, n + 1) == 10 * x + d
  {
  }

  const TWO_TO_64 := "18446744073709551616"

  lemma {:induction false} FirstDigits(text: string)
    requires text == TWO_TO_64
    ensures Spelled(text, 10, 5) == 18446
  {
    hide Spelled;
    NothingSpelled(text, 10);
    NextDigit(text, 0, 0, 1);
    NextDigit(text, 1, 1, 8);
    NextDigit(text, 2, 18, 4);
    NextDigit(text, 3, 184, 4);
    NextDigit(text, 4, 1844, 6);
  }

  lemma {:induction false} MoreDigits(text: string)
    requires text == TWO_TO_64
    ensures Spelled(text, 10, 10) == 1844674407
  {
    hide Spelled;
    FirstDigits(text);
    NextDigit(text, 5, 18446, 7);
    NextDigit(text, 6, 184467, 4);
    NextDigit(text, 7, 1844674, 4);
    NextDigit(text, 8, 18446744, 0);
    NextDigit(text, 9, 184467440, 7);
  }

  lemma {:induction false} NothingSpelled(text: string, base: nat)
    ensures Spelled(text, base, 0) == 0
  {
  }

  lemma {:induction false} AllDigits(text: string)
    requires text == TWO_TO_64
    ensures Spelled(text, 10, 19) == 1844674407370955161 && Spelled(text, 10, 20) == W
  {
    hide Spelled;
    MoreDigits(text);
    NextDigit(text, 10, 1844674407, 3);
    NextDigit(text, 11, 18446744073, 7);
    NextDigit(text, 12, 184467440737, 0);
    NextDigit(text, 13, 1844674407370, 9);
    NextDigit(text, 14, 18446744073709, 5);
    NextDigit(text, 15, 184467440737095, 5);
    NextDigit(text, 16, 1844674407370955, 1);
    NextDigit(text, 17, 18446744073709551, 6);
    NextDigit(text, 18, 184467440737095516, 1);
    NextDigit(text, 19, 1844674407370955161, 6);
  }

  /** The decimal of 2^64 is one of them. */
  lemma {:induction false} TwoTo64GoesWrong()
    ensures Spelled(TWO_TO_64, 10, 20) == W && Val(Parsed(TWO_TO_64, 10, 20)) < W
  {
    hide Parsed, Spelled;
    AllDigits(TWO_TO_64);
    DecimalGoesWrong(TWO_TO_64);
  }

  method ParseDigits(text: string, base: Digit, start: nat) returns (nums: seq<Digit>)
    requires start <= |text| && base > 0
    ensures nums == Parsed(text[start..], base, |text| - start)
  {
    hide Sum, ValUpto, DigitsOf;
    ghost var digits := text[start..];
    nums := [0];
    var i := start;
    while i < |text|
      invariant start <= i <= |text| && nums == Parsed(digits, base, i - start)
    {
      ParsedExactIff(digits, base, i - start);
      ghost var before := nums;
      nums := MulDigits(nums, [base]);
      MulByDigit(before, base, nums);
      nums := AddDigits(nums, [CharDigit(text[i])]);
      assert digits[i - start] == text[i];
      i := i + 1;
    }
  }

  lemma {:induction false} MulByDigit(a: seq<Digit>, d: Digit, r: seq<Digit>)
    requires Normal(a) && d > 0 && IsProduct(a, [d], r)
    ensures r == DigitsOf(Val(a) * d)
  {
    Val1(d);
    NormalLower(a);
    ProductNormalIff(a, [d], r);
    DigitsOfCorrect(Val(a) * d);
    ValInjective(r, DigitsOf(Val(a) * d));
  }

  // ---------- Numbers written and read back ----------

  const UPPER := "0123456789ABCDEF"
  const LOWER := "0123456789abcdef"

  function DigitChar(d: nat, upper: bool): char
    requires d < 16
  {
    if upper then UPPER[d] else LOWER[d]
  }

  /** The number in a base up to 16, each digit in whichever case `upper` says for what is left then. */
  function Written(n: nat, base: nat, upper: nat -> bool): (text: string)
    requires 2 <= base <= 16
    ensures |text| >= 1
  {
    (if n < base then "" else Written(n / base, base, upper)) + [DigitChar(n % base, upper(n))]
  }

  /** All the digits there are, in both cases. */
  lemma {:induction false} DigitsReadBack(d: nat, upper: bool)
    requires d < 16
    ensures CharDigit(DigitChar(d, upper)) == d
  {
  }

  /** Anything else counts as zero. */
  lemma {:induction false} OtherCharacters(c: char)
    ensures CharDigit(c) > 0 ==> c in UPPER || c in LOWER
  {
    var d := CharDigit(c);
    if d > 0 { assert c == UPPER[d] || c == LOWER[d]; }
  }

  lemma {:induction false} SpelledFrame(text: string, more: string, base: nat, n: nat)
    requires n <= |text|
    ensures Spelled(text + more, base, n) == Spelled(text, base, n)
  {
    if n > 0 { SpelledFrame(text, more, base, n - 1); }
  }

  lemma {:induction false} SpelledLast(front: string, c: char, base: nat)
    ensures Spelled(front + [c], base, |front| + 1) == Spelled(front, base, |front|) * base + CharDigit(c)
  {
    hide CharDigit;
    SpelledFrame(front, [c], base, |front|);
    assert (front + [c])[|front|] == c;
  }

  lemma {:induction false} WrittenLast(n: nat, base: nat, upper: nat -> bool)
    requires 2 <= base <= 16
    ensures n < base ==> Written(n, base, upper) == "" + [DigitChar(n, upper(n))]
    ensures n >= base ==> n / base < n && n == n / base * base + n % base
    ensures n >= base ==> Written(n, base, upper) == Written(n / base, base, upper) + [DigitChar(n % base, upper(n))]
  {
    hide DigitChar;
    DivMod(n, base);
    if n < base { DivModUnique(n, base, 0, n); }
  }

  lemma {:induction false} WrittenSpells(n: nat, base: nat, upper: nat -> bool)
    requires 2 <= base <= 16
    ensures var text := Written(n, base, upper); Spelled(text, base, |text|) == n
    decreases n
  {
    hide DigitChar, CharDigit, Spelled, Written;
    WrittenLast(n, base, upper);
    if n < base {
      DigitsReadBack(n, upper(n));
      NothingSpelled("", base);
      SpelledLast("", DigitChar(n, upper(n)), base);
    } else {
      var q, d := n / base, n % base;
      DigitsReadBack(d, upper(n));
      WrittenSpells(q, base, upper);
      SpelledLast(Written(q, base, upper), DigitChar(d, upper(n)), base);
    }
  }

  /** Every number written in base 16, in upper case, lower case or both, is read back exactly. */
  lemma {:induction false} HexRoundTrip(n: nat, upper: nat -> bool)
    ensures var text := Written(n, 16, upper); Parsed(text, 16, |text|) == DigitsOf(n)
  {
    hide Parsed, Spelled, Written, ValUpto, DigitsOf;
    var text := Written(n, 16, upper);
    WrittenSpells(n, 16, upper);
    HexExact(text);
    DigitsOfCorrect(n);
    ValInjective(Parsed(text, 16, |text|), DigitsOf(n));
  }

  /** In any base up to 16 it is read back if and only if no prefix wraps. */
  lemma {:induction false} WrittenReadBackIff(n: nat, base: nat, upper: nat -> bool)
    requires 2 <= base <= 16
    ensures var text := Written(n, base, upper);
            Parsed(text, base, |text|) == DigitsOf(n) <==> NeverWraps(text, base, |text|)
  {
    hide Parsed, Spelled, Written, ValUpto, DigitsOf, NeverWraps;
    var text := Written(n, base, upper);
    WrittenSpells(n, base, upper);
    ParsedExactIff(text, base, |text|);
    DigitsOfCorrect(n);
    if Val(Parsed(text, base, |text|)) == n { ValInjective(Parsed(text, base, |text|), DigitsOf(n)); }
  }

  // ---------- The object ----------

  class BigInt {
    var sign_: bool
    var nums_: seq<Digit>

    ghost function Magnitude(): nat
      reads this
    {
      Val(nums_)
    }

    /** From one digit. */
    constructor (digit: Digit)
      ensures sign_ && nums_ == [digit]
    {
      sign_, nums_ := true, [digit];
    }

    /** From text with an optional sign.  For no text, or a sign alone, the sign of the result is
        whatever the memory held. */
    constructor Parse(text: string, base: Digit, garbage: bool)
      requires base > 0
      ensures nums_ == if text == "" || text == "-" || text == "+" then [0]
                       else if text[0] == '-' || text[0] == '+' then Parsed(text[1..], base, |text| - 1)
                       else Parsed(text, base, |text|)
      ensures sign_ == if text == "" || text == "-" || text == "+" then garbage else text[0] != '-'
    {
      hide Parsed;
      sign_, nums_ := garbage, [0];
      new;
      if |text| == 0 || (|text| == 1 && (text[0] == '-' || text[0] == '+')) {
        return;
      }
      var i := 0;
      sign_ := true;
      if text[0] == '-' {
        sign_ := false;
        i := i + 1;
      } else if text[0] == '+' {
        i := i + 1;
      }
      assert text[0..] == text;
      var parsed := ParseDigits(text, base, i);
      nums_ := parsed;
    }

    method Add(that: BigInt)
      modifies this`nums_
      ensures nums_ == Sum(old(nums_), old(that.nums_))
    {
      nums_ := AddDigits(nums_, that.nums_);
    }

    method Sub(that: BigInt)
      requires |nums_| >= 1 && |that.nums_| <= |nums_|
      modifies this`nums_
      ensures nums_ == Difference(old(nums_), old(that.nums_))
    {
      nums_ := SubDigits(nums_, that.nums_);
    }

    /** The argument must be another object: the digits of this one are cleared first. */
    method Mul(that: BigInt)
      requires this != that && |nums_| >= 1 && |that.nums_| >= 1
      modifies this`nums_
      ensures Magnitude() == old(Magnitude()) * that.Magnitude()
      ensures IsProduct(old(nums_), that.nums_, nums_)
    {
      nums_ := MulDigits(nums_, that.nums_);
    }

    /** The exponent must be another object.  A negative base loses its sign. */
    method Power(n: BigInt)
      requires this != n && |nums_| >= 1 && |n.nums_| >= 1
      modifies this
      ensures |nums_| >= 1 && Magnitude() == Exp(old(Magnitude()), n.Magnitude()) && sign_
    {
      nums_ := PowerDigits(nums_, n.nums_);
      sign_ := true;
    }

    /** Leaves the quotient here, not negative, and the remainder in `rest`, with the sign that
        was here. */
    method Div(that: BigInt, rest: BigInt)
      requires this != that && this != rest && that != rest
      requires Normal(nums_) && Normal(that.nums_) && that.Magnitude() > 0
      modifies this, rest
      ensures Progress(rest.nums_, nums_) == Divided(old(nums_), that.nums_, [0])
      ensures sign_ && rest.sign_ == old(sign_)
    {
      var quotient, remainder := DivDigits(nums_, that.nums_);
      nums_, rest.nums_ := quotient, remainder;
      sign_, rest.sign_ := true, sign_;
    }
  }
}
