/**
 Division by estimated quotient digits, with the addition and the subtraction the code has.
 */
module BigIntDiv {
  import opened Digits
  import opened Numbers
  import opened Carries
  import opened BigIntMul

  // ---------- Division ----------

  /** The digits the estimate looks at, and how far to the left its quotient digit goes. */
  datatype Estimate = Estimate(leading: nat, digit: nat, len: nat)

  /** Same length and same leading digit: the quotient is one, no estimate is made. */
  predicate SameTop(u: seq<Digit>, v: seq<Digit>)
    requires |u| >= 1 && |v| >= 1
  {
    |u| == |v| && u[|u| - 1] == v[|v| - 1]
  }

  function EstimateOf(u: seq<Digit>, v: seq<Digit>): Estimate
    requires 1 <= |v| <= |u|
  {
    var div, num, len := u[|u| - 1], v[|v| - 1], |u| - |v|;
    if div <= num && len > 0 then
      var leading := div * B + u[|u| - 2];
      Estimate(leading, leading / (num + 1), len - 1)
    else Estimate(div, div / (num + 1), len)
  }

  lemma {:induction false} NotShorter(u: seq<Digit>, v: seq<Digit>)
    requires Normal(u) && Normal(v) && Val(u) >= Val(v)
    ensures |v| <= |u| && (|u| == |v| ==> u[|u| - 1] >= v[|v| - 1])
  {
    if |v| > |u| {
      NormalLower(v);
      ValBound(u, |u|);
      BPowMono(|u|, |v| - 1);
      assert false;
    }
    if |u| == |v| && u[|u| - 1] < v[|v| - 1] {
      ValBound(u, |u| - 1);
      NormalLower(v);
      TopDecides(ValUpto(u, |u| - 1), u[|u| - 1], v[|v| - 1], BPow(|u| - 1));
      assert false;
    }
  }

  /** The digits looked at, in their place, are at most the whole number. */
  lemma {:induction false} LeadingPart(u: seq<Digit>, v: seq<Digit>)
    requires 1 <= |v| <= |u|
    ensures var e := EstimateOf(u, v); e.leading * BPow(e.len + |v| - 1) <= Val(u)
  {
    hide ValUpto, BPow;
    var n := |u|;
    ValStep(u, n - 1);
    if u[n - 1] <= v[|v| - 1] && n > |v| {
      ValStep(u, n - 2);
      PowerStep(n - 2);
      TwoLeading(u[n - 1], u[n - 2], BPow(n - 2));
    }
  }

  lemma {:induction false} TwoLeading(x: nat, y: nat, p: nat)
    ensures (x * B + y) * p == y * p + x * (B * p)
  {
    Assoc(x, B, p);
    Distribute(x * B, y, p);
  }

  lemma {:induction false} QuotientBounds(leading: int, num: int)
    requires 0 <= num < B && num + 1 <= leading < (num + 1) * B
    ensures 1 <= leading / (num + 1) < B && leading / (num + 1) * (num + 1) <= leading
  {
    var d := num + 1;
    var q := leading / d;
    assert leading == q * d + leading % d;
    if q < 1 { MulMono(q, 0, d); assert false; }
    if q >= B { MulMono(B, q, d); assert false; }
  }

  /** Each estimate is a digit, at least one, formed without leaving 64 bits, and not too large:
      what is then subtracted is at most what is left. */
  lemma {:induction false} EstimateSound(u: seq<Digit>, v: seq<Digit>)
    requires Normal(u) && Normal(v) && Val(u) >= Val(v) > 0 && !SameTop(u, v)
    ensures |v| <= |u|
    ensures var e := EstimateOf(u, v);
            && e.leading < W && 1 <= e.digit < B
            && 0 < e.digit * BPow(e.len) * Val(v) <= Val(u)
  {
    NotShorter(u, v);
    var e, num := EstimateOf(u, v), v[|v| - 1];
    EstimateRange(u, v);
    QuotientBounds(e.leading, num);
    LeadingPart(u, v);
    ValBound(v, |v| - 1);
    EstimateProduct(Val(v), ValUpto(v, |v| - 1), num, e.digit, e.leading, BPow(|v| - 1), BPow(e.len));
    BPowAdd(e.len, |v| - 1);
  }

  lemma {:induction false} EstimateRange(u: seq<Digit>, v: seq<Digit>)
    requires Normal(u) && Normal(v) && 1 <= |v| <= |u| && (|u| == |v| ==> u[|u| - 1] >= v[|v| - 1])
    requires !SameTop(u, v)
    ensures var e, num := EstimateOf(u, v), v[|v| - 1];
            num + 1 <= e.leading < (num + 1) * B && e.leading < W
  {
  }

  lemma {:induction false} EstimateProduct(v: int, low: int, num: int, q: int, leading: int, p: nat, s: nat)
    requires v == low + num * p && 0 <= low < p && v > 0 && q >= 1 && q * (num + 1) <= leading && p > 0 && s > 0
    ensures 0 < q * s * v <= leading * (s * p)
  {
    Distribute(num, 1, p);
    assert v <= (num + 1) * p;
    MulMono(1, q, s);
    assert q * s >= 1;
    MulMono(1, v, q * s);
    MulMono(v, (num + 1) * p, q * s);
    assert (q * s) * ((num + 1) * p) == (q * (num + 1)) * (s * p) by { Regroup(q, s, num + 1, p); }
    MulMono(q * (num + 1), leading, s * p);
  }

  lemma {:induction false} Regroup(a: int, b: int, c: int, d: int)
    ensures (a * b) * (c * d) == (a * c) * (b * d)
  {
    Assoc(a, b, c * d);
    Assoc(b, c, d);
    Assoc(a, c, b * d);
  }

  /** With equal lengths and leading digits the quotient is one. */
  lemma {:induction false} SameTopOnce(u: seq<Digit>, v: seq<Digit>)
    requires Normal(u) && Normal(v) && Val(u) >= Val(v) > 0 && SameTop(u, v)
    ensures Val(u) - Val(v) < Val(v)
  {
    var k, top := |u| - 1, v[|v| - 1];
    NormalLower(v);
    ValBound(u, k);
    if |v| == 1 {
      assert ValUpto(u, 0) == 0 && ValUpto(v, 0) == 0;
    } else {
      ValGrows(v, 0, k);
    }
    MulMono(1, top, BPow(k));
  }

  /** What one round subtracts, as digits. */
  function Taken(u: seq<Digit>, v: seq<Digit>): nat
    requires 1 <= |v| <= |u|
  {
    var scale: nat := EstimateOf(u, v).digit * BPow(EstimateOf(u, v).len);
    scale * Val(v)
  }

  /** Division with subtraction and addition done right: quotient so far, and remainder. */
  ghost function IdealDiv(u: seq<Digit>, v: seq<Digit>, rest: nat): (nat, nat)
    requires Normal(u) && Normal(v) && Val(v) > 0
    decreases Val(u)
  {
    if Val(u) < Val(v) then (rest, Val(u))
    else if SameTop(u, v) then (rest + 1, Val(u) - Val(v))
    else
      EstimateSound(u, v);
      DigitsOfCorrect(Val(u) - Taken(u, v));
      IdealDiv(DigitsOf(Val(u) - Taken(u, v)), v, rest + EstimateOf(u, v).digit * BPow(EstimateOf(u, v).len))
  }

  /** For every dividend and every divisor but zero, estimating digits this way ends, with the
      quotient and the remainder. */
  lemma {:induction false} IdealDivCorrect(u: seq<Digit>, v: seq<Digit>, rest: nat)
    requires Normal(u) && Normal(v) && Val(v) > 0
    ensures IdealDiv(u, v, rest) == (rest + Val(u) / Val(v), Val(u) % Val(v))
    decreases Val(u)
  {
    hide ValUpto, EstimateOf, DigitsOf, BPow;
    if Val(u) < Val(v) {
      DivModUnique(Val(u), Val(v), 0, Val(u));
    } else if SameTop(u, v) {
      SameTopOnce(u, v);
      DivModUnique(Val(u), Val(v), 1, Val(u) - Val(v));
    } else {
      EstimateSound(u, v);
      var left := Val(u) - Taken(u, v);
      DigitsOfCorrect(left);
      var s := EstimateOf(u, v).digit * BPow(EstimateOf(u, v).len);
      IdealDivCorrect(DigitsOf(left), v, rest + s);
      DivShift(Val(u), Val(v), s, left);
    }
  }

  lemma {:induction false} DivShift(u: nat, v: nat, s: nat, left: nat)
    requires v > 0 && left == u - s * v
    ensures u / v == s + left / v && u % v == left % v
  {
    DivMod(left, v);
    Distribute(s, left / v, v);
    DivModUnique(u, v, s + left / v, left % v);
  }

  /** The product that a round subtracts is the one the estimate promises, in normal form. */
  lemma {:induction false} TakenDigits(u: seq<Digit>, v: seq<Digit>, multi: seq<Digit>, tmp: seq<Digit>)
    requires Normal(u) && Normal(v) && Val(u) >= Val(v) > 0 && !SameTop(u, v) && |v| <= |u|
    requires EstimateOf(u, v).digit < B && multi == Shifted([EstimateOf(u, v).digit], EstimateOf(u, v).len)
    requires IsProduct(v, multi, tmp)
    ensures tmp == DigitsOf(Taken(u, v))
    ensures Val(multi) == EstimateOf(u, v).digit * BPow(EstimateOf(u, v).len)
  {
    hide ValUpto, EstimateOf, DigitsOf;
    EstimateSound(u, v);
    var e := EstimateOf(u, v);
    ShiftedVal([e.digit], e.len);
    Val1(e.digit);
    MulMono(1, e.digit, BPow(e.len));
    assert Normal(multi);
    ProductNormalIff(v, multi, tmp);
    DigitsOfCorrect(Taken(u, v));
    ValInjective(tmp, DigitsOf(Taken(u, v)));
  }

  // ---------- The loop as written ----------

  /** What is left to divide, and the quotient so far. */
  datatype Progress = Progress(u: seq<Digit>, rest: seq<Digit>)

  /** A round that makes an estimate. */
  predicate Estimates(u: seq<Digit>, v: seq<Digit>) {
    Normal(u) && Normal(v) && Val(u) >= Val(v) > 0 && !SameTop(u, v)
  }

  /** What it subtracts, in digits. */
  ghost function TakenOf(u: seq<Digit>, v: seq<Digit>): (t: seq<Digit>)
    requires Estimates(u, v)
    ensures Normal(t) && 1 <= |v| <= |u| && 0 < Val(t) == Taken(u, v) <= Val(u) && |t| <= |u|
    ensures 1 <= EstimateOf(u, v).digit < B
  {
    EstimateSound(u, v);
    DigitsOfCorrect(Taken(u, v));
    NotShorter(u, DigitsOf(Taken(u, v)));
    DigitsOf(Taken(u, v))
  }

  /** What it adds to the quotient. */
  ghost function AddedOf(u: seq<Digit>, v: seq<Digit>): seq<Digit>
    requires Estimates(u, v)
  {
    EstimateSound(u, v);
    Shifted([EstimateOf(u, v).digit], EstimateOf(u, v).len)
  }

  /** One such round, with the addition and the subtraction the code has. */
  ghost function Round(u: seq<Digit>, v: seq<Digit>, rest: seq<Digit>): (p: Progress)
    requires Estimates(u, v)
    ensures Normal(p.u)
  {
    DifferenceExactIff(u, TakenOf(u, v));
    Progress(Difference(u, TakenOf(u, v)), Sum(rest, AddedOf(u, v)))
  }

  // ---------- It always ends ----------

  /** While length and leading digit stay, the second digit goes from 2^32 - 1 to 0 and from 0 to
      something else, in this order; at 0 the digits below it may grow, but only so far. */
  function Rank(u: seq<Digit>): nat {
    if |u| < 2 then 0 else if u[|u| - 2] == B - 1 then 2 else if u[|u| - 2] == 0 then 1 else 0
  }

  function Room(u: seq<Digit>): nat {
    if |u| < 2 || u[|u| - 2] != 0 then 0
    else ValBound(u, |u| - 2); BPow(|u| - 2) - ValUpto(u, |u| - 2)
  }

  ghost predicate Descends(u: seq<Digit>, u': seq<Digit>)
    requires |u| >= 1 && |u'| >= 1
  {
    var d, d' := u[|u| - 1], u'[|u'| - 1];
    || |u'| < |u|
    || (|u'| == |u| && d' < d)
    || (|u'| == |u| && d' == d && Rank(u') < Rank(u))
    || (|u'| == |u| && d' == d && Rank(u') == Rank(u) && Room(u') < Room(u))
  }

  /** What is subtracted has as many digits as what is left, or one less; in the latter case the
      estimate was made from two digits, and its product with the divisor's leading digit shows in
      the leading digit of what is subtracted. */
  lemma {:induction false} TakenTop(u: seq<Digit>, v: seq<Digit>)
    requires Estimates(u, v)
    ensures var t, e := TakenOf(u, v), EstimateOf(u, v);
            var num: int := v[|v| - 1];
            && num >= 1 && (|t| == |u| || |t| == |u| - 1)
            && (|t| == |u| - 1 ==> |u| >= 2 && e.leading == u[|u| - 1] * B + u[|u| - 2])
            && (|t| == |u| - 1 ==> e.digit == e.leading / (num + 1) && e.digit * num <= t[|t| - 1])
  {
    hide ValUpto, BPow, DigitsOf;
    var t, e, m, num := TakenOf(u, v), EstimateOf(u, v), |v| - 1, v[|v| - 1];
    NormalLower(v);
    NormalLower(t);
    assert num >= 1;
    BPowAdd(e.len, m);
    TakenLower(e.digit, num, BPow(e.len), BPow(m), Val(v));
    var k := e.len + m;
    assert Val(t) >= e.digit * num * BPow(k);
    MulMono(1, e.digit, num);
    MulMono(1, e.digit * num, BPow(k));
    ValBound(t, |t|);
    if |t| <= k { BPowMono(|t|, k); }
    assert |t| >= k + 1;
    if |t| == |u| - 1 {
      assert k == |t| - 1;
      ValBound(t, k);
      LeadingDigit(t);
      TopAtLeast(e.digit * num, ValUpto(t, k), t[k], BPow(k));
    }
  }

  lemma {:induction false} LeadingDigit(t: seq<Digit>)
    requires |t| >= 1
    ensures Val(t) == ValUpto(t, |t| - 1) + t[|t| - 1] * BPow(|t| - 1)
  {
  }

  lemma {:induction false} TakenLower(q: nat, num: nat, s: nat, p: nat, v: nat)
    requires v >= num * p
    ensures q * s * v >= q * num * (s * p)
  {
    MulMono(num * p, v, q * s);
    Regroup(q, s, num, p);
  }

  lemma {:induction false} TopAtLeast(x: nat, low: nat, top: nat, p: nat)
    requires low + top * p >= x * p && low < p
    ensures x <= top
  {
    if top < x { TopDecides(low, top, x, p); }
  }

  /** Two factors that add up to B at least, with a product below B. */
  lemma {:induction false} LopsidedProduct(q: nat, num: nat)
    requires q >= 1 && num >= 1 && q + num >= B && q * num <= B - 1
    ensures q * num == B - 1
  {
    assert (q - 1) * (num - 1) == q * num - q - num + 1 by {
      Distribute(q, -1, num - 1);
      Distribute(num, -1, q);
    }
    if q > 1 && num > 1 { MulMono(1, q - 1, num - 1); }
  }

  /** If the estimate's product does not reach into the leading digit, the second digit is as large
      as a digit can be, and all of it is taken. */
  lemma {:induction false} SecondDigitIsFull(d: nat, s: nat, num: nat, q: nat, top: nat)
    requires d >= 1 && num >= 1 && q >= 1 && q == (d * B + s) / (num + 1)
    requires q * num <= top <= s <= B - 1
    ensures top == s == B - 1
  {
    DivMod(d * B + s, num + 1);
    Distribute(num, 1, q);
    assert q * (num + 1) == q * num + q;
    MulMono(1, d, B);
    LopsidedProduct(q, num);
  }

  /** The digits of the difference, when nothing is borrowed from the leading digit. */
  lemma {:induction false} LeadingStays(u: seq<Digit>, t: seq<Digit>)
    requires |u| >= 2 && |t| == |u| - 1 && Normal(t) && Val(t) > 0 && BorrowInto(u, t, |t|) == 0 && u[|u| - 1] >= 1
    ensures var r, k := RawDiff(u, t), |u| - 2;
            && r[k + 1] == u[k + 1]
            && (u[k] == 0 ==> r[k] == B - 1 - t[k] && BorrowInto(u, t, k) == 1 && t[k] >= 1)
            && (u[k] > 0 ==> r[k] == u[k] - BorrowInto(u, t, k) - t[k] >= 0)
  {
    hide Val, BorrowInto;
    SomeLeading(t);
    var k := |u| - 2;
    BorrowStep(u, t, k);
    NoBorrow(u[k], BorrowInto(u, t, k), t[k]);
    assert RawDiff(u, t)[k + 1] == DiffDigit(u, t, k + 1) == u[k + 1];
  }

  lemma {:induction false} BorrowStep(u: seq<Digit>, t: seq<Digit>, k: nat)
    requires k < |t| <= |u|
    ensures BorrowInto(u, t, k + 1) == if (u[k] - BorrowInto(u, t, k)) % B < t[k] then 1 else 0
  {
  }

  lemma {:induction false} NoBorrow(x: Digit, c: int, y: Digit)
    requires 0 <= c <= 1 && y >= 1 && (x - c) % B >= y
    ensures x == 0 ==> c == 1 && ((x - c) % B - y) % B == B - 1 - y
    ensures x > 0 ==> ((x - c) % B - y) % B == x - c - y >= 0
  {
    if x == 0 && c == 1 { assert (x - c) % B == B - 1; } else { assert (x - c) % B == x - c; }
  }

  /** At a second digit 0 that stays 0, the digits below it grow. */
  lemma {:induction false} BelowGrows(u: seq<Digit>, t: seq<Digit>, k: nat)
    requires k < |t| <= |u| && BorrowInto(u, t, k) == 1
    ensures ValUpto(RawDiff(u, t), k) > ValUpto(u, k)
  {
    hide BorrowInto, DiffDigit, ValUpto, BPow, Excess;
    LowDiff(u, t, RawDiff(u, t), k);
    ValBound(t, k);
  }

  /** The leading digit, when what is subtracted is as long as what is left. */
  lemma {:induction false} LeadingFalls(u: seq<Digit>, t: seq<Digit>)
    requires |u| >= 1 && |t| == |u| && t[|t| - 1] >= 1 && Val(u) >= Val(t) && u[|u| - 1] >= 1
    ensures RawDiff(u, t)[|u| - 1] < u[|u| - 1]
  {
    hide ValUpto, Excess;
    NoBorrowOut(u, t);
    var k := |u| - 1;
    var c := BorrowInto(u, t, k);
    assert (u[k] - c) % B == u[k] - c;
    assert u[k] - c >= t[k];
  }

  lemma {:induction false} BorrowFalls(u: seq<Digit>, t: seq<Digit>)
    requires |u| >= 2 && |t| == |u| - 1 && u[|u| - 1] >= 1 && BorrowInto(u, t, |t|) == 1
    ensures RawDiff(u, t)[|u| - 1] < u[|u| - 1]
  {
    hide BorrowInto;
  }

  lemma {:induction false} TrimmedFrom(u: seq<Digit>, r: seq<Digit>)
    requires |r| == |u| >= 1
    ensures var k := TrimmedLength(r, |r|);
            && |r[..k]| >= 1 && (r[|r| - 1] != 0 ==> k == |r| && r[..k] == r)
            && (r[|r| - 1] < u[|u| - 1] ==> Descends(u, r[..k]))
  {
    hide ValUpto, Rank, Room;
    var k := TrimmedLength(r, |r|);
  }

  /** Every round comes closer to the end, although it may leave more than it found. */
  lemma {:induction false} RoundDescends(u: seq<Digit>, v: seq<Digit>, rest: seq<Digit>)
    requires Estimates(u, v)
    ensures Descends(u, Round(u, v, rest).u)
  {
    hide Val, Normal, BorrowInto, RawDiff, Descends, TrimmedLength, TakenOf, EstimateOf, Sum;
    var t, r := TakenOf(u, v), RawDiff(u, TakenOf(u, v));
    SomeLeading(u);
    SomeLeading(t);
    TakenTop(u, v);
    TrimmedFrom(u, r);
    assert Round(u, v, rest).u == r[..TrimmedLength(r, |r|)];
    if |t| == |u| {
      LeadingFalls(u, t);
    } else if BorrowInto(u, t, |t|) == 1 {
      BorrowFalls(u, t);
    } else {
      SecondDescends(u, v);
    }
  }

  lemma {:induction false} SomeLeading(s: seq<Digit>)
    requires Normal(s) && Val(s) > 0
    ensures |s| >= 1 && s[|s| - 1] >= 1
  {
    NormalLower(s);
  }

  lemma {:induction false} SecondDescends(u: seq<Digit>, v: seq<Digit>)
    requires Estimates(u, v)
    requires var t := TakenOf(u, v); |t| == |u| - 1 && BorrowInto(u, t, |t|) == 0
    ensures Descends(u, Difference(u, TakenOf(u, v)))
  {
    hide ValUpto, BorrowInto, RawDiff, TrimmedLength, TakenOf, EstimateOf, DigitsOf;
    var t, e, num := TakenOf(u, v), EstimateOf(u, v), v[|v| - 1];
    NormalLower(u);
    TakenTop(u, v);
    var r, k := RawDiff(u, t), |u| - 2;
    LeadingStays(u, t);
    TrimmedFrom(u, r);
    assert Difference(u, t) == r;
    if u[k] == 0 {
      BelowGrows(u, t, k);
    } else {
      SecondDigitIsFull(u[k + 1], u[k], num, e.digit, t[k]);
    }
  }

  /** What the loop ends with: the remainder and the quotient. */
  ghost function Divided(u: seq<Digit>, v: seq<Digit>, rest: seq<Digit>): Progress
    requires Normal(u) && Normal(v) && Val(v) > 0
    decreases |u|, u[|u| - 1], Rank(u), Room(u)
  {
    if Val(u) < Val(v) then Progress(u, rest)
    else if SameTop(u, v) then Progress(Difference(u, v), Sum(rest, [1]))
    else
      RoundDescends(u, v, rest);
      Divided(Round(u, v, rest).u, v, Round(u, v, rest).rest)
  }

  method DivRound(u: seq<Digit>, v: seq<Digit>, rest: seq<Digit>) returns (u': seq<Digit>, rest': seq<Digit>)
    requires Estimates(u, v)
    ensures Progress(u', rest') == Round(u, v, rest)
  {
    hide ValUpto, BPow, Sum, Difference, DigitsOf;
    EstimateSound(u, v);
    var div, num, len := u[|u| - 1], v[|v| - 1], |u| - |v|;
    if div <= num && len > 0 {
      len := len - 1;
      div := div * B + u[|u| - 2];
    }
    div := div / (num + 1);
    assert div == EstimateOf(u, v).digit && len == EstimateOf(u, v).len;
    var multi := Shifted([div], len);
    rest' := AddDigits(rest, multi);
    var tmp := MulDigits(v, multi);
    TakenDigits(u, v, multi, tmp);
    assert tmp == TakenOf(u, v);
    u' := SubDigits(u, tmp);
  }

  /** `Div`: it ends for every dividend and every divisor but zero. */
  method DivDigits(u0: seq<Digit>, v: seq<Digit>) returns (quotient: seq<Digit>, remainder: seq<Digit>)
    requires Normal(u0) && Normal(v) && Val(v) > 0
    ensures Progress(remainder, quotient) == Divided(u0, v, [0])
  {
    hide ValUpto, Sum, Difference, Round, Rank, Room, Below;
    var u, rest := u0, [0];
    BelowCorrect(u, v);
    var less := CompareNoSign(u, v);
    while !less
      invariant Normal(u) && less == (Val(u) < Val(v))
      invariant Divided(u, v, rest) == Divided(u0, v, [0])
      decreases |u|, u[|u| - 1], Rank(u), Room(u)
    {
      if |u| == |v| && u[|u| - 1] == v[|v| - 1] {
        rest := AddDigits(rest, [1]);
        u := SubDigits(u, v);
        return rest, u;
      }
      RoundDescends(u, v, rest);
      u, rest := DivRound(u, v, rest);
      BelowCorrect(u, v);
      less := CompareNoSign(u, v);
    }
    quotient, remainder := rest, u;
  }

  // ---------- When it is right ----------

  /** The addend of a round has only one digit that is not zero, so that a carry can only be lost
      behind it. */
  lemma {:induction false} AddedLoss(rest: seq<Digit>, d: Digit, len: nat)
    ensures var b := Shifted([d], len); var x := Extended(rest, |b|);
            && Val(Sum(rest, b)) == Val(rest) + Val(b) - (if Sticks(x, b) then (B - 1) * BPow(|b|) else 0)
            && (AddClean(rest, b) <==> !Sticks(x, b))
  {
    hide ValUpto, BPow, SumDigit, CarryInto, NoCarryLost, TrueCarry, Sum;
    var b := Shifted([d], len);
    var x := Extended(rest, |b|);
    ExtendedVal(rest, |b|);
    NothingToLose(x, b, |b|, len);
    SumDigits(rest, b);
    LowSum(x, b, Sum(rest, b), |b|);
    SumTop(rest, b);
  }

  lemma {:induction false} SumDigits(a: seq<Digit>, b: seq<Digit>)
    ensures |b| <= |Sum(a, b)| && forall i :: 0 <= i < |b| ==> Sum(a, b)[i] == SumDigit(Extended(a, |b|), b, i)
  {
  }

  lemma {:induction false} NothingToLose(x: seq<Digit>, b: seq<Digit>, n: nat, len: nat)
    requires n <= |x| && n <= |b| && |b| <= len + 1 && forall i :: 0 <= i < len && i < |b| ==> b[i] == 0
    ensures NoCarryLost(x, b, n) && (n <= len ==> TrueCarry(x, b, n) == 0)
  {
    if n > 0 { NothingToLose(x, b, n - 1, len); }
  }

  /** What the quotient loses in a run, in units of 2^32 - 1. */
  ghost function LostCarries(u: seq<Digit>, v: seq<Digit>, rest: seq<Digit>): nat
    requires Normal(u) && Normal(v) && Val(v) > 0
    decreases |u|, u[|u| - 1], Rank(u), Room(u)
  {
    if Val(u) < Val(v) then 0
    else if SameTop(u, v) then Unit(rest, [1])
    else
      RoundDescends(u, v, rest);
      Unit(rest, AddedOf(u, v)) + LostCarries(Round(u, v, rest).u, v, Round(u, v, rest).rest)
  }

  function Unit(rest: seq<Digit>, b: seq<Digit>): nat {
    if Sticks(Extended(rest, |b|), b) then BPow(|b|) else 0
  }

  /** What is gained by what is left in a run, and by how many forgotten borrows. */
  ghost function Gained(u: seq<Digit>, v: seq<Digit>, rest: seq<Digit>): nat
    requires Normal(u) && Normal(v) && Val(v) > 0
    decreases |u|, u[|u| - 1], Rank(u), Room(u)
  {
    if Val(u) < Val(v) then 0
    else if SameTop(u, v) then Excess(u, v, |v|)
    else
      RoundDescends(u, v, rest);
      Excess(u, TakenOf(u, v), |TakenOf(u, v)|) + Gained(Round(u, v, rest).u, v, Round(u, v, rest).rest)
  }

  ghost function LostBorrows(u: seq<Digit>, v: seq<Digit>, rest: seq<Digit>): nat
    requires Normal(u) && Normal(v) && Val(v) > 0
    decreases |u|, u[|u| - 1], Rank(u), Room(u)
  {
    if Val(u) < Val(v) then 0
    else if SameTop(u, v) then Forgotten(u, v, |v|)
    else
      RoundDescends(u, v, rest);
      Forgotten(u, TakenOf(u, v), |TakenOf(u, v)|) + LostBorrows(Round(u, v, rest).u, v, Round(u, v, rest).rest)
  }

  /** Every addition and subtraction of the run is exact. */
  ghost predicate DivClean(u: seq<Digit>, v: seq<Digit>, rest: seq<Digit>)
    requires Normal(u) && Normal(v) && Val(v) > 0
    decreases |u|, u[|u| - 1], Rank(u), Room(u)
  {
    Val(u) >= Val(v) ==>
      if SameTop(u, v) then AddClean(rest, [1]) && SubClean(u, v)
      else
        RoundDescends(u, v, rest);
        && AddClean(rest, AddedOf(u, v)) && SubClean(u, TakenOf(u, v))
        && DivClean(Round(u, v, rest).u, v, Round(u, v, rest).rest)
  }

  /** One addition and one subtraction, with what they lose and gain. */
  lemma {:induction false} OneStep(u: seq<Digit>, t: seq<Digit>, rest: seq<Digit>, d: Digit, len: nat, v: nat)
    requires Normal(u) && |t| <= |u| && Val(t) <= Val(u) && Val(t) == d * BPow(len) * v
    ensures var b := Shifted([d], len);
            && Val(Sum(rest, b)) * v + Val(Difference(u, t)) + (B - 1) * Unit(rest, b) * v
               == Val(rest) * v + Val(u) + Excess(u, t, |t|)
            && (AddClean(rest, b) <==> Unit(rest, b) == 0) && (SubClean(u, t) <==> Forgotten(u, t, |t|) == 0)
            && (SubClean(u, t) <==> Excess(u, t, |t|) == 0)
  {
    hide ValUpto, BPow, Sum, Difference, Excess, Forgotten, SubClean, AddClean, Sticks;
    var b := Shifted([d], len);
    AddedLoss(rest, d, len);
    ShiftedVal([d], len);
    Val1(d);
    DifferenceExactIff(u, t);
    SubCleanIs(u, t);
    Distribute(Val(rest), Val(b), v);
    Distribute(Val(Sum(rest, b)), (B - 1) * Unit(rest, b), v);
  }

  lemma {:induction false} SubCleanIs(u: seq<Digit>, t: seq<Digit>)
    requires |t| <= |u|
    ensures SubClean(u, t) <==> Forgotten(u, t, |t|) == 0
    ensures SubClean(u, t) <==> Excess(u, t, |t|) == 0
  {
    CleanIsNoExcess(u, t, |t|);
  }

  /** The last subtraction leaves less than the divisor, even when it forgets a borrow. */
  lemma {:induction false} SameTopLeaves(u: seq<Digit>, v: seq<Digit>)
    requires Normal(u) && Normal(v) && Val(u) >= Val(v) > 0 && SameTop(u, v)
    ensures Val(Difference(u, v)) < Val(v)
  {
    hide ValUpto, BPow, Excess, BorrowInto;
    var r, k := RawDiff(u, v), |u| - 1;
    NoBorrowOut(u, v);
    SomeLeading(u);
    NormalLower(v);
    BorrowStep(u, v, k);
    NoBorrow(u[k], BorrowInto(u, v, k), v[k]);
    assert r[k] == 0;
    LeadingDigit(r);
    ValBound(r, k);
    TrimKeepsValue(r);
  }

  /** The books of a whole run. */
  lemma {:induction false} DivBooks(u: seq<Digit>, v: seq<Digit>, rest: seq<Digit>)
    requires Normal(u) && Normal(v) && Val(v) > 0
    ensures var p := Divided(u, v, rest);
            && Val(p.u) < Val(v)
            && Val(p.rest) * Val(v) + Val(p.u) + (B - 1) * LostCarries(u, v, rest) * Val(v)
               == Val(rest) * Val(v) + Val(u) + Gained(u, v, rest)
    ensures DivClean(u, v, rest) <==> LostCarries(u, v, rest) == 0 && LostBorrows(u, v, rest) == 0
    ensures LostBorrows(u, v, rest) == 0 <==> Gained(u, v, rest) == 0
    decreases |u|, u[|u| - 1], Rank(u), Room(u)
  {
    hide ValUpto, Sum, Difference, AddClean, SubClean, Excess, Forgotten, Rank, Room, DigitsOf, EstimateOf, Unit;
    if Val(u) < Val(v) {
    } else if SameTop(u, v) {
      SameTopLeaves(u, v);
      assert Shifted([1], 0) == [1];
      OneIsOne(Val(v));
      OneStep(u, v, rest, 1, 0, Val(v));
    } else {
      var p, t, e := Round(u, v, rest), TakenOf(u, v), EstimateOf(u, v);
      RoundDescends(u, v, rest);
      OneStep(u, t, rest, e.digit, e.len, Val(v));
      DivBooks(p.u, v, p.rest);
      SumLosses(Unit(rest, AddedOf(u, v)), LostCarries(p.u, v, p.rest), Val(v));
    }
  }

  lemma {:induction false} OneIsOne(v: nat)
    ensures v == 1 * BPow(0) * v
  {
  }

  lemma {:induction false} SumLosses(x: nat, y: nat, v: nat)
    ensures (B - 1) * (x + y) * v == (B - 1) * x * v + (B - 1) * y * v
  {
    Distribute((B - 1) * x, (B - 1) * y, v);
  }

  lemma {:induction false} GainedCounts(u: seq<Digit>, v: seq<Digit>, rest: seq<Digit>) returns (k: nat)
    requires Normal(u) && Normal(v) && Val(v) > 0
    ensures Gained(u, v, rest) == LostBorrows(u, v, rest) + k * (B - 1)
    decreases |u|, u[|u| - 1], Rank(u), Room(u)
  {
    hide ValUpto, Sum, Difference, Excess, Forgotten, Rank, Room, Round, TakenOf;
    if Val(u) < Val(v) {
      k := 0;
    } else if SameTop(u, v) {
      k := ExcessCounts(u, v, |v|);
    } else {
      var p, t := Round(u, v, rest), TakenOf(u, v);
      RoundDescends(u, v, rest);
      var i := ExcessCounts(u, t, |t|);
      var j := GainedCounts(p.u, v, p.rest);
      k := i + j;
      Distribute(i, j, B - 1);
    }
  }

  /** The quotient and the remainder are right. */
  ghost predicate DivRight(u: seq<Digit>, v: seq<Digit>)
    requires Normal(u) && Normal(v) && Val(v) > 0
  {
    var p := Divided(u, v, [0]);
    Val(p.rest) == Val(u) / Val(v) && Val(p.u) == Val(u) % Val(v)
  }

  /** For every dividend and every divisor but zero: `Div` is right exactly when what the quotient
      lost and what the remainder gained balance. */
  lemma {:induction false} DivRightIffBalanced(u: seq<Digit>, v: seq<Digit>)
    requires Normal(u) && Normal(v) && Val(v) > 0
    ensures DivRight(u, v) <==> (B - 1) * LostCarries(u, v, [0]) * Val(v) == Gained(u, v, [0])
  {
    hide Val, Divided, LostCarries, Gained, DivClean;
    DivBooks(u, v, [0]);
    Val1(0);
    var p := Divided(u, v, [0]);
    IsQuotient(Val(u), Val(v), Val(p.rest), Val(p.u));
  }

  lemma {:induction false} IsQuotient(u: nat, v: nat, q: nat, r: nat)
    requires v > 0 && r < v
    ensures q == u / v && r == u % v <==> q * v + r == u
  {
    DivMod(u, v);
    if q * v + r == u { DivModUnique(u, v, q, r); }
  }

  /** So an exact run is right, and one that is not exact can only be right if it forgot a positive
      multiple of 2^32 - 1 borrows: in every run that forgets fewer, `Div` is right exactly when
      every addition and subtraction was. */
  lemma {:induction false} DivRightIffClean(u: seq<Digit>, v: seq<Digit>)
    requires Normal(u) && Normal(v) && Val(v) > 0
    ensures DivClean(u, v, [0]) ==> DivRight(u, v)
    ensures DivRight(u, v) ==> DivClean(u, v, [0]) || (LostBorrows(u, v, [0]) > 0 && LostBorrows(u, v, [0]) % (B - 1) == 0)
    ensures LostBorrows(u, v, [0]) < B - 1 ==> (DivRight(u, v) <==> DivClean(u, v, [0]))
  {
    hide Val, DivRight, LostCarries, Gained, LostBorrows, DivClean, Divided;
    DivRightIffBalanced(u, v);
    DivBooks(u, v, [0]);
    var k := GainedCounts(u, v, [0]);
    Balance(DivRight(u, v), DivClean(u, v, [0]), LostCarries(u, v, [0]), Gained(u, v, [0]), LostBorrows(u, v, [0]), k, Val(v));
  }

  lemma {:induction false} Balance(right: bool, clean: bool, lost: nat, gained: nat, n: nat, k: nat, v: nat)
    requires v > 0 && gained == n + k * (B - 1) && (n == 0 <==> gained == 0)
    requires right <==> (B - 1) * lost * v == gained
    requires clean <==> lost == 0 && n == 0
    ensures clean ==> right
    ensures right ==> clean || (n > 0 && n % (B - 1) == 0)
    ensures n < B - 1 ==> (right <==> clean)
  {
    if right && n == 0 {
      NoLoss(lost, v);
    } else if right {
      Assoc(B - 1, lost, v);
      Multiple(n, lost * v, k);
    }
  }

  lemma {:induction false} NoLoss(lost: nat, v: nat)
    requires v > 0 && (B - 1) * lost * v == 0
    ensures lost == 0
  {
    if lost > 0 {
      MulMono(1, lost, B - 1);
      MulMono(1, (B - 1) * lost, v);
    }
  }

  lemma {:induction false} Multiple(n: nat, x: nat, k: nat)
    requires (B - 1) * x == n + k * (B - 1)
    ensures n % (B - 1) == 0 && (n > 0 ==> n >= B - 1)
  {
    var j: int := x - k;
    Distribute(j, k, B - 1);
    DivModUnique(n, B - 1, j, 0);
  }

  // ---------- How far it is exact ----------

  lemma {:induction false} SmallAddClean(a: seq<Digit>, b: seq<Digit>)
    requires 1 <= |a| <= 2 && 1 <= |b| <= 2 && Val(a) + Val(b) < W
    ensures AddClean(a, b) && |Sum(a, b)| <= 2
  {
    var x := Extended(a, |b|);
    ExtendedVal(a, |b|);
    assert NoCarryLost(x, b, 0) && NoCarryLost(x, b, 1);
    assert b == if |b| == 1 then [b[0]] else [b[0], b[1]];
    assert x == if |x| == 1 then [x[0]] else [x[0], x[1]];
    Val1(b[0]);
    Val1(x[0]);
    if |b| == 2 { Val2(b[0], b[1]); }
    if |x| == 2 { Val2(x[0], x[1]); }
    assert TrueCarry(x, b, 1) == if x[0] + b[0] >= B then 1 else 0;
    SumExactIff(a, b);
    LowSum(x, b, Sum(a, b), |b|);
  }

  lemma {:induction false} SmallSubClean(u: seq<Digit>, t: seq<Digit>)
    requires Normal(u) && |u| <= 2 && |t| <= |u|
    ensures SubClean(u, t)
  {
    if |t| >= 1 {
      assert TrueBorrow(u, t, 0) == 0 && SubCleanUpto(u, t, 0) && SubCleanUpto(u, t, 1);
    }
  }

  /** A quotient so far and what is left of a dividend below 2^64. */
  ghost predicate Within64(u: seq<Digit>, v: seq<Digit>, rest: seq<Digit>) {
    Normal(u) && Normal(v) && Val(v) > 0 && 1 <= |rest| <= 2 && Val(rest) * Val(v) + Val(u) < W
  }

  lemma {:induction false} TwoDigits(u: seq<Digit>)
    requires Normal(u) && Val(u) < W
    ensures |u| <= 2
  {
    assert BPow(2) == B * BPow(1) && BPow(1) == B * BPow(0) && BPow(0) == 1;
    if |u| > 2 { BPowMono(2, |u| - 1); }
    NormalLower(u);
  }

  lemma {:induction false} SmallRest(rest: nat, more: nat, v: nat, left: nat)
    requires v > 0 && rest * v + left < W && more * v <= left
    ensures rest + more < W && (rest + more) * v + (left - more * v) == rest * v + left
  {
    Distribute(rest, more, v);
    MulMono(1, v, rest + more);
  }

  /** Dividends below 2^64 never meet the lost carries and borrows: for them every run is exact. */
  lemma {:induction false} CleanBelow64Bits(u: seq<Digit>, v: seq<Digit>, rest: seq<Digit>)
    requires Within64(u, v, rest)
    ensures DivClean(u, v, rest)
    decreases Val(u)
  {
    hide ValUpto, AddClean, SubClean, Sum, Difference, DigitsOf, EstimateOf;
    MulMono(0, Val(rest), Val(v));
    TwoDigits(u);
    if Val(u) >= Val(v) {
      NotShorter(u, v);
      if SameTop(u, v) {
        Val1(1);
        SmallRest(Val(rest), 1, Val(v), Val(u));
        SmallAddClean(rest, [1]);
        SmallSubClean(u, v);
      } else {
        EstimateSound(u, v);
        var e, t := EstimateOf(u, v), Taken(u, v);
        var taken, multi := DigitsOf(t), Shifted([e.digit], e.len);
        DigitsOfCorrect(t);
        NotShorter(u, taken);
        SmallSubClean(u, taken);
        DifferenceExactIff(u, taken);
        ShiftedVal([e.digit], e.len);
        Val1(e.digit);
        SmallRest(Val(rest), Val(multi), Val(v), Val(u));
        assert |multi| <= 2 by { EstimateLength(u, v); }
        SmallAddClean(rest, multi);
        SumExactIff(rest, multi);
        AtLeast(rest, multi);
        CleanBelow64Bits(Difference(u, taken), v, Sum(rest, multi));
      }
    }
  }

  lemma {:induction false} EstimateLength(u: seq<Digit>, v: seq<Digit>)
    requires 1 <= |v| <= |u|
    ensures EstimateOf(u, v).len <= |u| - |v|
  {
  }

  lemma {:induction false} AtLeast(a: seq<Digit>, b: seq<Digit>)
    ensures |Sum(a, b)| >= |a|
  {
  }

  /** So `Div` is right for every dividend below 2^64 and every divisor but zero. */
  lemma {:induction false} DivRightBelow64Bits(u: seq<Digit>, v: seq<Digit>)
    requires Normal(u) && Normal(v) && Val(v) > 0 && Val(u) < W
    ensures DivRight(u, v)
  {
    hide ValUpto, DivClean, DivRight;
    Val1(0);
    CleanBelow64Bits(u, v, [0]);
    DivRightIffClean(u, v);
  }
}
