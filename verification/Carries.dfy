/**
 Addition and subtraction as the digit loops really compute them.  Both lose information in one
 situation: an addend digit plus carry is formed in 32 bits before it is widened, a carry past
 the end of the addend is added to the same digit for ever, and a borrow out of a zero digit
 wraps before it is tested.  The theorems say exactly when the results are right.
 */
module Carries {
  import opened Digits
  import opened Numbers

  function Extended(a: seq<Digit>, n: nat): (x: seq<Digit>)
    ensures |a| <= |x| && n <= |x| && (|x| == |a| || |x| == n)
    ensures a <= x && forall i :: |a| <= i < |x| ==> x[i] == 0
  {
    if |a| < n then a + seq(n - |a|, _ => 0) else a
  }

  // ---------- Addition ----------

  /** The carry that the loop hands to digit `i`. */
  function CarryInto(x: seq<Digit>, b: seq<Digit>, i: nat): (c: int)
    requires i <= |x| && i <= |b|
    ensures c == 0 || c == 1
  {
    if i == 0 then 0 else (x[i - 1] + (b[i - 1] + CarryInto(x, b, i - 1)) % B) / B
  }

  function SumDigit(x: seq<Digit>, b: seq<Digit>, i: nat): Digit
    requires i < |x| && i < |b|
  {
    (x[i] + (b[i] + CarryInto(x, b, i)) % B) % B
  }

  /** Adding a carry to one digit over and over, without moving on to the next. */
  function StuckCarry(d: Digit): Digit { if d + 1 < B then d + 1 else 1 }

  /** What `Add` leaves in its vector. */
  function Sum(a: seq<Digit>, b: seq<Digit>): (r: seq<Digit>)
    ensures |r| >= |a|
  {
    var x, n := Extended(a, |b|), |b|;
    var low := seq(n, i requires 0 <= i < n => SumDigit(x, b, i));
    if CarryInto(x, b, n) == 0 then low + x[n..]
    else if |x| == n then low + [1]
    else low + [StuckCarry(x[n])] + x[n + 1..]
  }

  /** The carry of the addition on paper. */
  function TrueCarry(x: seq<Digit>, b: seq<Digit>, i: nat): (c: int)
    requires i <= |x| && i <= |b|
    ensures c == 0 || c == 1
  {
    if i == 0 then 0 else if x[i - 1] + b[i - 1] + TrueCarry(x, b, i - 1) >= B then 1 else 0
  }

  /** No carry meets an addend digit 2^32 - 1. */
  predicate NoCarryLost(x: seq<Digit>, b: seq<Digit>, n: nat)
    requires n <= |x| && n <= |b|
  {
    n == 0 || (NoCarryLost(x, b, n - 1) && !(TrueCarry(x, b, n - 1) == 1 && b[n - 1] == B - 1))
  }

  /** And none leaves the addend into a digit 2^32 - 1. */
  predicate AddClean(a: seq<Digit>, b: seq<Digit>) {
    var x, n := Extended(a, |b|), |b|;
    NoCarryLost(x, b, n) && !(TrueCarry(x, b, n) == 1 && n < |x| && x[n] == B - 1)
  }

  lemma {:induction false} DigitSum(x: int, b: int, c: int)
    requires 0 <= x < B && 0 <= b < B && 0 <= c <= 1
    ensures var t := x + (b + c) % B;
            t % B + B * (t / B) == if b + c == B then x + b + c - B else x + b + c
    ensures 0 <= (x + (b + c) % B) / B <= 1
  {
  }

  /** What the first `n` digits and their carry fall short of the true sum: nothing, as long as
      no carry has been lost, and more than nothing from then on. */
  lemma {:induction false} LowSum(x: seq<Digit>, b: seq<Digit>, r: seq<Digit>, n: nat)
    requires n <= |x| && n <= |b| && n <= |r|
    requires forall i :: 0 <= i < n ==> r[i] == SumDigit(x, b, i)
    ensures var short := ValUpto(x, n) + ValUpto(b, n) - ValUpto(r, n) - CarryInto(x, b, n) * BPow(n);
            short >= 0 && (short == 0 <==> NoCarryLost(x, b, n))
    ensures NoCarryLost(x, b, n) ==> CarryInto(x, b, n) == TrueCarry(x, b, n)
  {
    hide SumDigit, ValUpto, BPow, CarryInto, NoCarryLost, Shortfall;
    LowSumIs(x, b, r, n);
    CleanIsNoShortfall(x, b, n);
  }

  /** A carry into an addend digit 2^32 - 1 is lost. */
  predicate Drops(x: seq<Digit>, b: seq<Digit>, i: nat)
    requires i < |x| && i < |b|
  {
    CarryInto(x, b, i) == 1 && b[i] == B - 1
  }

  /** What the lost carries are worth. */
  function Shortfall(x: seq<Digit>, b: seq<Digit>, n: nat): nat
    requires n <= |x| && n <= |b|
  {
    if n == 0 then 0 else Shortfall(x, b, n - 1) + if Drops(x, b, n - 1) then B * BPow(n - 1) else 0
  }

  lemma {:induction false} LowSumIs(x: seq<Digit>, b: seq<Digit>, r: seq<Digit>, n: nat)
    requires n <= |x| && n <= |b| && n <= |r|
    requires forall i :: 0 <= i < n ==> r[i] == SumDigit(x, b, i)
    ensures ValUpto(x, n) + ValUpto(b, n) == ValUpto(r, n) + CarryInto(x, b, n) * BPow(n) + Shortfall(x, b, n)
  {
    hide SumDigit, ValUpto, BPow, CarryInto;
    if n == 0 {
      NoDigits(x, b, r);
    } else {
      var i := n - 1;
      LowSumIs(x, b, r, i);
      SumOfDigits(x, b, i);
      ValStep(r, i);
      ValStep(x, i);
      ValStep(b, i);
      PowerStep(i);
      LowSumStep(x[i], b[i], CarryInto(x, b, i), r[i], CarryInto(x, b, n), BPow(i));
    }
  }

  lemma {:induction false} NoDigits(x: seq<Digit>, b: seq<Digit>, r: seq<Digit>)
    ensures ValUpto(x, 0) == ValUpto(b, 0) == ValUpto(r, 0) == 0 && CarryInto(x, b, 0) == 0
  {
  }

  lemma {:induction false} SumOfDigits(x: seq<Digit>, b: seq<Digit>, i: nat)
    requires i < |x| && i < |b|
    ensures SumDigit(x, b, i) + B * CarryInto(x, b, i + 1)
         == x[i] + b[i] + CarryInto(x, b, i) - if Drops(x, b, i) then B else 0
  {
    DigitSum(x[i], b[i], CarryInto(x, b, i));
  }

  lemma {:induction false} CleanIsNoShortfall(x: seq<Digit>, b: seq<Digit>, n: nat)
    requires n <= |x| && n <= |b|
    ensures NoCarryLost(x, b, n) <==> Shortfall(x, b, n) == 0
    ensures NoCarryLost(x, b, n) ==> CarryInto(x, b, n) == TrueCarry(x, b, n)
  {
    if n > 0 {
      CleanIsNoShortfall(x, b, n - 1);
      MulMono(1, BPow(n - 1), B);
    }
  }

  lemma {:induction false} LowSumStep(x: int, b: int, c: int, r: int, c': int, p: nat)
    requires r + B * c' == x + b + c || r + B * c' == x + b + c - B
    ensures r + B * c' == x + b + c ==> x * p + b * p + c * p == r * p + c' * (B * p)
    ensures r + B * c' == x + b + c - B ==> x * p + b * p + c * p - B * p == r * p + c' * (B * p)
  {
    assert x * p + b * p + c * p == (x + b + c) * p by {
      Distribute(x, b, p);
      Distribute(x + b, c, p);
    }
    assert r * p + c' * (B * p) == (r + B * c') * p by {
      Distribute(r, B * c', p);
      Assoc(c', B, p);
    }
    if r + B * c' == x + b + c - B { Distribute(x + b + c - B, B, p); }
  }

  /** Two vectors that agree from `n` on differ by what they differ below `n`. */
  lemma {:induction false} SameAbove(s: seq<Digit>, t: seq<Digit>, n: nat, m: nat)
    requires n <= m <= |s| && m <= |t| && forall i :: n <= i < m ==> s[i] == t[i]
    ensures ValUpto(s, m) - ValUpto(s, n) == ValUpto(t, m) - ValUpto(t, n)
    decreases m
  {
    if n < m { SameAbove(s, t, n, m - 1); }
  }

  lemma {:induction false} ExtendedVal(a: seq<Digit>, n: nat)
    ensures Val(Extended(a, n)) == Val(a)
  {
    var x := Extended(a, n);
    ValZeros(x, |a|, |x|);
    assert x[..|a|] == a[..|a|];
    ValFrame(x, a, |a|);
  }

  /** `Add` never exceeds the true sum, and reaches it exactly when no carry meets a digit
      2^32 - 1 of the addend, nor of the digit just above it. */
  lemma {:induction false} SumExactIff(a: seq<Digit>, b: seq<Digit>)
    ensures Val(Sum(a, b)) <= Val(a) + Val(b)
    ensures Val(Sum(a, b)) == Val(a) + Val(b) <==> AddClean(a, b)
  {
    hide SumDigit, NoCarryLost, ValUpto, BPow, CarryInto, TrueCarry;
    var x, n, r := Extended(a, |b|), |b|, Sum(a, b);
    ExtendedVal(a, n);
    LowSum(x, b, r, n);
    SumTop(a, b);
  }

  /** A carry out of the addend meets a digit 2^32 - 1. */
  predicate Sticks(x: seq<Digit>, b: seq<Digit>)
    requires |b| <= |x|
  {
    var n := |b|;
    CarryInto(x, b, n) == 1 && n < |x| && x[n] == B - 1
  }

  /** What the digits from the addend's end on fall short of. */
  lemma {:induction false} SumTop(a: seq<Digit>, b: seq<Digit>)
    ensures var x, n, r := Extended(a, |b|), |b|, Sum(a, b);
            Val(x) - ValUpto(x, n) + CarryInto(x, b, n) * BPow(n) - (Val(r) - ValUpto(r, n))
            == if Sticks(x, b) then (B - 1) * BPow(n) else 0
  {
    hide SumDigit, CarryInto, ValUpto, BPow;
    var x, n, r := Extended(a, |b|), |b|, Sum(a, b);
    var c := CarryInto(x, b, n);
    if c == 0 {
      SameAbove(x, r, n, |x|);
    } else if |x| == n {
      ValStep(r, n);
    } else {
      assert r[n] == StuckCarry(x[n]);
      SameAbove(x, r, n + 1, |x|);
      ValStep(x, n);
      ValStep(r, n);
      TopDigit(x[n], r[n], BPow(n));
    }
  }

  lemma {:induction false} TopDigit(x: Digit, r: Digit, p: nat)
    requires r == StuckCarry(x)
    ensures x * p + 1 * p - r * p == if x == B - 1 then (B - 1) * p else 0
  {
    Distribute(x, 1, p);
  }

  // ---------- Subtraction ----------

  /** The borrow that the loops hand to digit `i`: first through the subtrahend, then beyond. */
  function BorrowInto(a: seq<Digit>, b: seq<Digit>, i: nat): (c: int)
    requires i <= |a|
    ensures c == 0 || c == 1
  {
    if i == 0 then 0
    else
      var c := BorrowInto(a, b, i - 1);
      if i <= |b| then (if (a[i - 1] - c) % B < b[i - 1] then 1 else 0)
      else if a[i - 1] < c then 1 else 0
  }

  function DiffDigit(a: seq<Digit>, b: seq<Digit>, i: nat): Digit
    requires i < |a|
  {
    var c := BorrowInto(a, b, i);
    if i < |b| then ((a[i] - c) % B - b[i]) % B else (a[i] - c) % B
  }

  /** The length without leading zeros, at least one. */
  function TrimmedLength(s: seq<Digit>, n: nat): (k: nat)
    requires 1 <= |s| && n <= |s|
    ensures 1 <= k <= |s| && (k <= n || k == 1)
    ensures k > 1 ==> s[k - 1] != 0
    ensures forall i :: k <= i < n ==> s[i] == 0
  {
    if n == 0 then 1 else if s[n - 1] != 0 then n else TrimmedLength(s, n - 1)
  }

  function RawDiff(a: seq<Digit>, b: seq<Digit>): (r: seq<Digit>)
    ensures |r| == |a|
  {
    seq(|a|, i requires 0 <= i < |a| => DiffDigit(a, b, i))
  }

  /** What `Sub` leaves in its vector; the subtrahend must not be longer. */
  function Difference(a: seq<Digit>, b: seq<Digit>): seq<Digit>
    requires |a| >= 1
  {
    RawDiff(a, b)[..TrimmedLength(RawDiff(a, b), |a|)]
  }

  /** The borrow of the subtraction on paper. */
  function TrueBorrow(a: seq<Digit>, b: seq<Digit>, i: nat): (c: int)
    requires i <= |a| && i <= |b|
    ensures c == 0 || c == 1
  {
    if i == 0 then 0 else if a[i - 1] - b[i - 1] - TrueBorrow(a, b, i - 1) < 0 then 1 else 0
  }

  /** No borrow is taken from a zero digit within the subtrahend's length. */
  predicate SubCleanUpto(a: seq<Digit>, b: seq<Digit>, n: nat)
    requires n <= |a| && n <= |b|
  {
    n == 0 || (SubCleanUpto(a, b, n - 1) && !(TrueBorrow(a, b, n - 1) == 1 && a[n - 1] == 0))
  }

  predicate SubClean(a: seq<Digit>, b: seq<Digit>)
    requires |b| <= |a|
  {
    SubCleanUpto(a, b, |b|)
  }

  lemma {:induction false} DigitDiff(a: int, b: int, c: int)
    requires 0 <= a < B && 0 <= b < B && 0 <= c <= 1
    ensures var y := (a - c) % B;
            (y - b) % B - (if y < b then B else 0) == if a - c < 0 then a - b - c + B else a - b - c
  {
    if a - c < 0 {
      assert (a - c) % B == B - 1;
    } else {
      assert (a - c) % B == a - c;
    }
    var y := (a - c) % B;
    if y < b { assert (y - b) % B == y - b + B; } else { assert (y - b) % B == y - b; }
  }

  lemma {:induction false} LowDiffStep(a: int, b: int, c: int, r: int, c': int, p: nat)
    requires r - B * c' == a - b - c || r - B * c' == a - b - c + B
    ensures r - B * c' == a - b - c ==> r * p - c' * (B * p) == a * p - b * p - c * p
    ensures r - B * c' == a - b - c + B ==> r * p - c' * (B * p) == a * p - b * p - c * p + B * p
  {
    assert a * p - b * p - c * p == (a - b - c) * p by {
      Distribute(a, -b, p);
      Distribute(a - b, -c, p);
    }
    assert r * p - c' * (B * p) == (r - B * c') * p by {
      Distribute(r, -(B * c'), p);
      Assoc(c', B, p);
    }
    if r - B * c' == a - b - c + B { Distribute(a - b - c, B, p); }
  }

  /** A borrow is taken from a zero digit `i` and forgotten. */
  predicate Forgets(a: seq<Digit>, b: seq<Digit>, i: nat)
    requires i < |a|
  {
    BorrowInto(a, b, i) == 1 && a[i] == 0
  }

  /** What the forgotten borrows are worth ... */
  function Excess(a: seq<Digit>, b: seq<Digit>, n: nat): nat
    requires n <= |a|
  {
    if n == 0 then 0 else Excess(a, b, n - 1) + if Forgets(a, b, n - 1) then B * BPow(n - 1) else 0
  }

  /** ... and how many they are. */
  function Forgotten(a: seq<Digit>, b: seq<Digit>, n: nat): nat
    requires n <= |a|
  {
    if n == 0 then 0 else Forgotten(a, b, n - 1) + if Forgets(a, b, n - 1) then 1 else 0
  }

  /** What the first `n` digits less their borrow exceed the true difference by. */
  lemma {:induction false} LowDiff(a: seq<Digit>, b: seq<Digit>, r: seq<Digit>, n: nat)
    requires n <= |a| && n <= |b| && n <= |r|
    requires forall i :: 0 <= i < n ==> r[i] == DiffDigit(a, b, i)
    ensures ValUpto(r, n) - BorrowInto(a, b, n) * BPow(n) == ValUpto(a, n) - ValUpto(b, n) + Excess(a, b, n)
  {
    hide BorrowInto, DiffDigit, ValUpto, BPow;
    if n == 0 {
      NothingYet(a, b, r);
    } else {
      var i := n - 1;
      LowDiff(a, b, r, i);
      LowDigit(a, b, i);
      ValStep(r, i);
      ValStep(a, i);
      ValStep(b, i);
      PowerStep(i);
      LowDiffStep(a[i], b[i], BorrowInto(a, b, i), r[i], BorrowInto(a, b, n), BPow(i));
    }
  }

  lemma {:induction false} NothingYet(a: seq<Digit>, b: seq<Digit>, r: seq<Digit>)
    ensures ValUpto(a, 0) == ValUpto(b, 0) == ValUpto(r, 0) == 0 && BorrowInto(a, b, 0) == 0
  {
  }

  lemma {:induction false} LowDigit(a: seq<Digit>, b: seq<Digit>, i: nat)
    requires i < |a| && i < |b|
    ensures DiffDigit(a, b, i) - B * BorrowInto(a, b, i + 1)
         == a[i] - b[i] - BorrowInto(a, b, i) + if Forgets(a, b, i) then B else 0
  {
    DigitDiff(a[i], b[i], BorrowInto(a, b, i));
  }

  /** Nothing is forgotten exactly when the borrows on paper meet no zero digit. */
  lemma {:induction false} CleanIsNoExcess(a: seq<Digit>, b: seq<Digit>, n: nat)
    requires n <= |a| && n <= |b|
    ensures SubCleanUpto(a, b, n) <==> Excess(a, b, n) == 0
    ensures Excess(a, b, n) == 0 <==> Forgotten(a, b, n) == 0
    ensures SubCleanUpto(a, b, n) ==> BorrowInto(a, b, n) == TrueBorrow(a, b, n)
  {
    if n > 0 {
      CleanIsNoExcess(a, b, n - 1);
      MulMono(1, BPow(n - 1), B);
    }
  }

  /** Each of them is worth a power of 2^32, and so one modulo 2^32 - 1. */
  lemma {:induction false} ExcessCounts(a: seq<Digit>, b: seq<Digit>, n: nat) returns (k: nat)
    requires n <= |a|
    ensures Excess(a, b, n) == Forgotten(a, b, n) + k * (B - 1)
  {
    if n == 0 {
      k := 0;
    } else {
      var k0 := ExcessCounts(a, b, n - 1);
      var j := PowerIsOne(n);
      k := if Forgets(a, b, n - 1) then k0 + j else k0;
      Distribute(k0, j, B - 1);
    }
  }

  lemma {:induction false} PowerIsOne(n: nat) returns (j: nat)
    ensures BPow(n) == 1 + j * (B - 1)
  {
    if n == 0 {
      j := 0;
    } else {
      var i := PowerIsOne(n - 1);
      j := BPow(n - 1) + i;
      Distribute(BPow(n - 1), i, B - 1);
    }
  }

  /** Beyond the subtrahend the borrow is passed on without loss. */
  lemma {:induction false} HighDiff(a: seq<Digit>, b: seq<Digit>, r: seq<Digit>, n: nat)
    requires |b| <= n <= |a| && n <= |r|
    requires forall i :: |b| <= i < n ==> r[i] == DiffDigit(a, b, i)
    ensures ValUpto(r, n) - BorrowInto(a, b, n) * BPow(n) - ValUpto(a, n)
         == ValUpto(r, |b|) - BorrowInto(a, b, |b|) * BPow(|b|) - ValUpto(a, |b|)
  {
    hide BorrowInto, DiffDigit, ValUpto, BPow;
    if |b| < n {
      var i := n - 1;
      HighDiff(a, b, r, i);
      HighDigit(a, b, i);
      ValStep(r, i);
      ValStep(a, i);
      PowerStep(i);
      LowDiffStep(a[i], 0, BorrowInto(a, b, i), r[i], BorrowInto(a, b, n), BPow(i));
    }
  }

  lemma {:induction false} HighDigit(a: seq<Digit>, b: seq<Digit>, i: nat)
    requires |b| <= i < |a|
    ensures DiffDigit(a, b, i) - B * BorrowInto(a, b, i + 1) == a[i] - BorrowInto(a, b, i)
  {
    var c := BorrowInto(a, b, i);
    if a[i] < c { assert (a[i] - c) % B == B - 1; } else { assert (a[i] - c) % B == a[i] - c; }
  }

  lemma {:induction false} TrimKeepsValue(s: seq<Digit>)
    requires |s| >= 1
    ensures var k := TrimmedLength(s, |s|); Normal(s[..k]) && Val(s[..k]) == Val(s)
  {
    var k := TrimmedLength(s, |s|);
    ValZeros(s, k, |s|);
    ValPrefix(s, k);
  }

  /** A minuend that is at least as large has no borrow left at its end. */
  lemma {:induction false} NoBorrowOut(a: seq<Digit>, b: seq<Digit>)
    requires |b| <= |a| && Val(a) >= Val(b)
    ensures BorrowInto(a, b, |a|) == 0
    ensures Val(RawDiff(a, b)) == Val(a) - Val(b) + Excess(a, b, |b|)
  {
    hide DiffDigit, ValUpto, BPow, BorrowInto, Excess;
    var r := RawDiff(a, b);
    LowDiff(a, b, r, |b|);
    HighDiff(a, b, r, |a|);
    ValBound(r, |a|);
    assert BorrowInto(a, b, |a|) * BPow(|a|) <= Val(r);
  }

  /** For a minuend at least as large, `Sub` leaves a normal vector, too large by what was forgotten,
      and so is exact exactly when no borrow is taken from a zero digit within the subtrahend's
      length. */
  lemma {:induction false} DifferenceExactIff(a: seq<Digit>, b: seq<Digit>)
    requires |a| >= 1 && |b| <= |a| && Val(a) >= Val(b)
    ensures Normal(Difference(a, b))
    ensures Val(Difference(a, b)) == Val(a) - Val(b) + Excess(a, b, |b|)
    ensures Val(Difference(a, b)) == Val(a) - Val(b) <==> SubClean(a, b)
  {
    hide RawDiff, SubCleanUpto, ValUpto, TrimmedLength, Excess;
    TrimKeepsValue(RawDiff(a, b));
    NoBorrowOut(a, b);
    CleanIsNoExcess(a, b, |b|);
  }

  // ---------- Where it goes wrong ----------

  lemma {:induction false} Val1(x: Digit)
    ensures Val([x]) == x
  {
    assert ValUpto([x], 1) == ValUpto([x], 0) + x * BPow(0);
  }

  lemma {:induction false} Val2(x: Digit, y: Digit)
    ensures Val([x, y]) == x + B * y
  {
    assert [x, y] == [x] + [y];
    ValAppend([x], y);
    Val1(x);
    assert BPow(1) == B * BPow(0);
  }

  /** (2^32 - 1) + 2^32 (2^32 - 1), plus one, comes out as 2^32 instead of 2^64. */
  lemma {:induction false} AddGoesWrong()
    ensures Sum([B - 1, B - 1], [1]) == [0, 1] && Val([0, 1]) != Val([B - 1, B - 1]) + Val([1])
  {
    var a, b := [B - 1, B - 1], [1];
    assert Extended(a, 1) == a;
    assert CarryInto(a, b, 1) == (a[0] + (b[0] + CarryInto(a, b, 0)) % B) / B == 1;
    assert Sum(a, b) == [0] + [1] + a[2..];
    Val2(0, 1);
    Val2(B - 1, B - 1);
    Val1(1);
  }

  /** 2^64 less (1 + 2^32) comes out as 2^65 less (1 + 2^32). */
  lemma {:induction false} SubGoesWrong()
    ensures !SubClean([0, 0, 1], [1, 1]) && Val([0, 0, 1]) >= Val([1, 1])
    ensures Val(Difference([0, 0, 1], [1, 1])) > Val([0, 0, 1])
  {
    var a, b := [0, 0, 1], [1, 1];
    assert TrueBorrow(a, b, 1) == 1;
    Val2(1, 1);
    assert a == [0, 0] + [1];
    ValAppend([0, 0], 1);
    Val2(0, 0);
    assert BPow(2) == B * BPow(1) && BPow(1) == B * BPow(0);
    var r := RawDiff(a, b);
    assert BorrowInto(a, b, 1) == 1 && BorrowInto(a, b, 2) == 0;
    assert r[0] == B - 1 && r[1] == B - 2 && r[2] == 1;
    assert r == [B - 1, B - 2] + [1];
    assert TrimmedLength(r, 3) == 3 && r[..3] == r;
    ValAppend([B - 1, B - 2], 1);
    Val2(B - 1, B - 2);
  }

  // ---------- The loops of Add and Sub ----------

  /** The loop over the addend. */
  method AddLoop(x: seq<Digit>, b: seq<Digit>) returns (r: seq<Digit>, carry: Digit)
    requires |b| <= |x|
    ensures |r| == |x| && carry == CarryInto(x, b, |b|)
    ensures forall k :: 0 <= k < |b| ==> r[k] == SumDigit(x, b, k)
    ensures forall k :: |b| <= k < |x| ==> r[k] == x[k]
  {
    r, carry := x, 0;
    var i := 0;
    while i < |b|
      invariant 0 <= i <= |b| && |r| == |x| && carry == CarryInto(x, b, i)
      invariant forall k :: 0 <= k < i ==> r[k] == SumDigit(x, b, k)
      invariant forall k :: i <= k < |x| ==> r[k] == x[k]
    {
      var temp := r[i] + (b[i] + carry) % B;
      r := r[i := temp % B];
      carry := temp / B;
      i := i + 1;
    }
  }

  /** The loop over a carry that is left: its index never moves. */
  method CarryLoop(d0: Digit) returns (d: Digit)
    ensures d == StuckCarry(d0)
  {
    d := d0;
    var carry := 1;
    while carry != 0
      invariant 0 <= carry <= 1
      invariant carry == 1 ==> d == d0 || (d == 0 && d0 == B - 1)
      invariant carry == 0 ==> d == StuckCarry(d0)
      decreases carry, d
    {
      var temp := d + carry;
      carry := temp / B;
      d := if carry != 0 then temp % B else temp;
    }
  }

  method AddDigits(a: seq<Digit>, b: seq<Digit>) returns (r: seq<Digit>)
    ensures r == Sum(a, b)
  {
    hide CarryInto, SumDigit;
    var x := Extended(a, |b|);
    var carry;
    r, carry := AddLoop(x, b);
    if carry != 0 {
      if |r| == |b| {
        r := r + [carry];
      } else {
        var d := CarryLoop(r[|b|]);
        r := r[|b| := d];
      }
    }
  }

  /** The loop over the subtrahend. */
  method SubLoop(a: seq<Digit>, b: seq<Digit>) returns (r: seq<Digit>, borrow: Digit)
    requires |b| <= |a|
    ensures |r| == |a| && borrow == BorrowInto(a, b, |b|)
    ensures forall k :: 0 <= k < |b| ==> r[k] == DiffDigit(a, b, k)
    ensures forall k :: |b| <= k < |a| ==> r[k] == a[k]
  {
    r, borrow := a, 0;
    var i := 0;
    while i < |b|
      invariant 0 <= i <= |b| && |r| == |a| && borrow == BorrowInto(a, b, i)
      invariant forall k :: 0 <= k < i ==> r[k] == DiffDigit(a, b, k)
      invariant forall k :: i <= k < |a| ==> r[k] == a[k]
    {
      var x := (r[i] - borrow) % B;
      borrow := if x < b[i] then 1 else 0;
      r := r[i := (x - b[i]) % B];
      i := i + 1;
    }
  }

  /** The loop that carries a borrow on beyond it. */
  method BorrowLoop(a: seq<Digit>, b: seq<Digit>, r0: seq<Digit>, borrow0: Digit) returns (r: seq<Digit>)
    requires |b| <= |a| == |r0| && borrow0 == BorrowInto(a, b, |b|)
    requires forall k :: 0 <= k < |b| ==> r0[k] == DiffDigit(a, b, k)
    requires forall k :: |b| <= k < |a| ==> r0[k] == a[k]
    ensures r == RawDiff(a, b)
  {
    r := r0;
    var i, borrow := |b|, borrow0;
    while borrow != 0 && i < |r|
      invariant |b| <= i <= |a| == |r| && borrow == BorrowInto(a, b, i)
      invariant forall k :: 0 <= k < i ==> r[k] == DiffDigit(a, b, k)
      invariant forall k :: i <= k < |a| ==> r[k] == a[k]
    {
      if r[i] < borrow {
        borrow := 1;
        r := r[i := (r[i] + B - borrow) % B];
      } else {
        r := r[i := r[i] - borrow];
        borrow := 0;
      }
      i := i + 1;
    }
    if borrow == 0 { NoBorrowLeft(a, b, i); }
  }

  /** The loop that finds the last digit that is not zero, and the cut behind it. */
  method TrimLoop(s: seq<Digit>) returns (r: seq<Digit>)
    requires |s| >= 1
    ensures r == s[..TrimmedLength(s, |s|)]
  {
    var n := 0;
    var i := 0;
    while i < |s|
      invariant 0 <= i <= |s| && 0 <= n <= i
      invariant TrimmedLength(s, i) == if n == 0 then 1 else n
    {
      if s[i] != 0 {
        n := i + 1;
      }
      i := i + 1;
    }
    r := s[..if n == 0 then 1 else n];
  }

  /** The subtrahend may not be longer: its digits are compared with ours one by one. */
  method SubDigits(a: seq<Digit>, b: seq<Digit>) returns (r: seq<Digit>)
    requires |a| >= 1 && |b| <= |a|
    ensures r == Difference(a, b)
  {
    hide BorrowInto, DiffDigit;
    var borrow;
    r, borrow := SubLoop(a, b);
    r := BorrowLoop(a, b, r, borrow);
    r := TrimLoop(r);
  }

  lemma {:induction false} NoBorrowLeft(a: seq<Digit>, b: seq<Digit>, i: nat)
    requires |b| <= i <= |a| && BorrowInto(a, b, i) == 0
    ensures forall k :: i <= k < |a| ==> DiffDigit(a, b, k) == a[k]
    decreases |a| - i
  {
    if i < |a| { NoBorrowLeft(a, b, i + 1); }
  }
}
