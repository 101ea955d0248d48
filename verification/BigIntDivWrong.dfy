/**
 Where division goes wrong.  Dividing 2^64 by one loses a carry at the very end; dividing it by
 2^64 - 1 forgets a borrow in every round but the last, 2^32 - 1 times.
 */
module BigIntDivWrong {
  import opened Digits
  import opened Numbers
  import opened Carries
  import opened BigIntMul
  import opened BigIntDiv

  // ---------- Sums and differences of a few digits ----------

  lemma {:induction false} Val3(x: Digit, y: Digit, z: Digit)
    ensures Val([x, y, z]) == x + B * y + W * z
  {
    assert [x, y, z] == [x, y] + [z];
    ValAppend([x, y], z);
    Val2(x, y);
    assert BPow(2) == B * BPow(1) && BPow(1) == B * BPow(0);
  }

  lemma {:induction false} Sub1(x: Digit, d: Digit)
    requires d <= x
    ensures Difference([x], [d]) == [x - d]
  {
    var r := RawDiff([x], [d]);
    assert r == [x - d];
    assert TrimmedLength(r, 1) == 1;
  }

  /** Two digits less two, without a borrow. */
  lemma {:induction false} Sub2(x: Digit, d: Digit)
    requires 0 < d < x
    ensures Difference([0, x], [0, d]) == [0, x - d]
  {
    var a, b := [0, x], [0, d];
    assert BorrowInto(a, b, 1) == 0;
    var r := RawDiff(a, b);
    assert r[0] == 0 && r[1] == x - d;
    assert r == [0, x - d];
    assert TrimmedLength(r, 2) == 2;
  }

  lemma {:induction false} Sum1(x: Digit, y: Digit, d: Digit)
    requires x + d < B
    ensures Sum([x, y], Shifted([d], 0)) == [x + d, y]
  {
    var a, b := [x, y], Shifted([d], 0);
    assert b == [d] && Extended(a, 1) == a;
    assert CarryInto(a, b, 1) == 0;
    assert SumDigit(a, b, 0) == x + d;
    assert Sum(a, b) == [x + d] + a[1..];
  }

  lemma {:induction false} Sum2(x: Digit, d: Digit)
    requires x + d < B
    ensures Sum([0, x], Shifted([d], 1)) == [0, x + d]
  {
    var a, b := [0, x], Shifted([d], 1);
    assert b == [0, d] && Extended(a, 2) == a;
    assert CarryInto(a, b, 1) == 0 && CarryInto(a, b, 2) == 0;
    assert SumDigit(a, b, 0) == 0 && SumDigit(a, b, 1) == x + d;
    assert Sum(a, b) == [0, x + d];
  }

  /** One round on given digits. */
  lemma {:induction false} RoundIs(u: seq<Digit>, v: seq<Digit>, rest: seq<Digit>, e: Estimate, taken: seq<Digit>,
                                   u': seq<Digit>, rest': seq<Digit>)
    requires Estimates(u, v) && |v| <= |u| && EstimateOf(u, v) == e && e.digit < B
    requires Normal(taken) && Val(taken) == e.digit * BPow(e.len) * Val(v)
    requires |taken| <= |u| && Difference(u, taken) == u' && Sum(rest, Shifted([e.digit], e.len)) == rest'
    ensures TakenOf(u, v) == taken && Round(u, v, rest) == Progress(u', rest')
  {
    hide ValUpto, Sum, Difference, EstimateOf, DigitsOf;
    DigitsOfCorrect(Taken(u, v));
    ValInjective(DigitsOf(Taken(u, v)), taken);
  }

  lemma {:induction false} DividedAfter(u: seq<Digit>, v: seq<Digit>, rest: seq<Digit>, p: Progress)
    requires Estimates(u, v) && Round(u, v, rest) == p
    ensures Divided(u, v, rest) == Divided(p.u, v, p.rest)
    ensures LostBorrows(u, v, rest) == Forgotten(u, TakenOf(u, v), |TakenOf(u, v)|) + LostBorrows(p.u, v, p.rest)
  {
    hide ValUpto, Round, TakenOf, Forgotten;
    RoundDescends(u, v, rest);
  }

  // ---------- 2^64 divided by one ----------

  /** Halving a leading digit 2d, while the quotient's digit there grows to 2^32 - d. */
  lemma {:induction false} HalveHigh(d: Digit)
    requires d >= 1 && 2 * d < B
    ensures Estimates([0, 2 * d], [1]) && Round([0, 2 * d], [1], [0, B - 2 * d]) == Progress([0, d], [0, B - d])
  {
    hide ValUpto, Sum, Difference, Round;
    Val2(0, 2 * d);
    Val2(0, d);
    Val1(1);
    assert BPow(1) == B * BPow(0) && BPow(0) == 1;
    Sub2(2 * d, d);
    Sum2(B - 2 * d, d);
    RoundIs([0, 2 * d], [1], [0, B - 2 * d], Estimate(2 * d, d, 1), [0, d], [0, d], [0, B - d]);
  }

  lemma {:induction false} HalveLow(d: Digit)
    requires d >= 1 && 2 * d < B
    ensures Estimates([2 * d], [1]) && Round([2 * d], [1], [B - 2 * d, B - 1]) == Progress([d], [B - d, B - 1])
  {
    hide ValUpto, Sum, Difference, Round;
    Val1(2 * d);
    Val1(d);
    Val1(1);
    assert BPow(0) == 1;
    Sub1(2 * d, d);
    Sum1(B - 2 * d, B - 1, d);
    RoundIs([2 * d], [1], [B - 2 * d, B - 1], Estimate(2 * d, d, 0), [d], [d], [B - d, B - 1]);
  }

  /** The first round, and the one that passes from the high digit to the low one. */
  lemma {:induction false} FirstRound()
    ensures Estimates([0, 0, 1], [1]) && Round([0, 0, 1], [1], [0]) == Progress([0, B / 2], [0, B / 2])
  {
    hide ValUpto, Sum, Difference, Round;
    Val3(0, 0, 1);
    Val2(0, B / 2);
    Val1(1);
    assert BPow(1) == B * BPow(0) && BPow(0) == 1;
    FirstDifference(B / 2);
    FirstSum(B / 2);
    RoundIs([0, 0, 1], [1], [0], Estimate(B, B / 2, 1), [0, B / 2], [0, B / 2], [0, B / 2]);
  }

  lemma {:induction false} FirstDifference(h: Digit)
    requires h == B / 2
    ensures Difference([0, 0, 1], [0, h]) == [0, h]
  {
    var u, t := [0, 0, 1], [0, h];
    var r := RawDiff(u, t);
    assert BorrowInto(u, t, 1) == 0 && BorrowInto(u, t, 2) == 1;
    assert r[0] == 0 && r[1] == h && r[2] == 0;
    assert r == [0, h, 0];
    assert TrimmedLength(r, 3) == TrimmedLength(r, 2) == 2 && r[..2] == [0, h];
  }

  lemma {:induction false} FirstSum(h: Digit)
    ensures Sum([0], Shifted([h], 1)) == [0, h]
  {
    var x, b := [0, 0], Shifted([h], 1);
    assert b == [0, h] && Extended([0], 2) == x;
    assert CarryInto(x, b, 1) == 0 && CarryInto(x, b, 2) == 0;
    assert SumDigit(x, b, 0) == 0 && SumDigit(x, b, 1) == h;
    assert Sum([0], b) == [0, h];
  }

  lemma {:induction false} MiddleRound()
    ensures Estimates([0, 1], [1]) && Round([0, 1], [1], [0, B - 1]) == Progress([B / 2], [B / 2, B - 1])
  {
    hide ValUpto, Sum, Difference, Round;
    Val2(0, 1);
    Val1(B / 2);
    Val1(1);
    assert BPow(0) == 1;
    MiddleDifference(B / 2);
    Sum1(0, B - 1, B / 2);
    RoundIs([0, 1], [1], [0, B - 1], Estimate(B, B / 2, 0), [B / 2], [B / 2], [B / 2, B - 1]);
  }

  lemma {:induction false} MiddleDifference(h: Digit)
    requires h == B / 2
    ensures Difference([0, 1], [h]) == [h]
  {
    var u, t := [0, 1], [h];
    var r := RawDiff(u, t);
    assert BorrowInto(u, t, 1) == 1;
    assert r[0] == h && r[1] == 0;
    assert r == [h, 0];
    assert TrimmedLength(r, 2) == TrimmedLength(r, 1) == 1 && r[..1] == [h];
  }

  /** The last round adds one to 2^64 - 1, and the carry is lost. */
  lemma {:induction false} LastRound()
    ensures Val([1]) == 1 && Divided([1], [1], [B - 1, B - 1]) == Progress([0], [0, 1])
  {
    hide ValUpto, Sum, Difference;
    Val1(1);
    AddGoesWrong();
    Sub1(1, 1);
  }

  lemma {:induction false} TwoBelowBase(k: nat)
    requires k < 32
    ensures 1 <= Two(k) < B && (k == 31 ==> Two(k) == B / 2) && (k < 31 ==> 2 * Two(k) < B)
    ensures Two(k + 1) == 2 * Two(k)
  {
    hide Two;
    BaseIsTwoTo32();
    TwoSteps(k);
    TwoAdd(k + 1, 31 - k);
    MulMono(1, Two(31 - k), Two(k + 1));
    if k < 31 { MulMono(2, Two(31 - k), Two(k + 1)); }
  }

  lemma {:induction false} TwoSteps(k: nat)
    requires k < 32
    ensures 1 <= Two(k) && Two(k + 1) == 2 * Two(k) && Two(31 - k) >= (if k < 31 then 2 else 1)
    ensures k == 31 ==> Two(31 - k) == 1
    ensures Two(0) == 1
  {
  }

  lemma {:induction false} LowGoesWrong(k: nat)
    requires k < 32
    ensures Val([1]) == 1 && 1 <= Two(k) < B
    ensures Divided([Two(k)], [1], [B - Two(k), B - 1]) == Progress([0], [0, 1])
  {
    hide Round, Divided, Two, ValUpto, Estimates;
    TwoBelowBase(k);
    TwoSteps(k);
    LastRound();
    if k > 0 {
      TwoBelowBase(k - 1);
      LowGoesWrong(k - 1);
      HalveLow(Two(k - 1));
      DividedAfter([Two(k)], [1], [B - Two(k), B - 1], Progress([Two(k - 1)], [B - Two(k - 1), B - 1]));
    }
  }

  lemma {:induction false} HighGoesWrong(k: nat)
    requires k < 32
    ensures Val([1]) == 1 && 1 <= Two(k) < B
    ensures Divided([0, Two(k)], [1], [0, B - Two(k)]) == Progress([0], [0, 1])
  {
    hide Round, Divided, Two, ValUpto, Estimates;
    TwoBelowBase(k);
    TwoSteps(k);
    if k == 0 {
      TwoBelowBase(31);
      LowGoesWrong(31);
      MiddleRound();
      DividedAfter([0, 1], [1], [0, B - 1], Progress([B / 2], [B / 2, B - 1]));
    } else {
      TwoBelowBase(k - 1);
      HighGoesWrong(k - 1);
      HalveHigh(Two(k - 1));
      DividedAfter([0, Two(k)], [1], [0, B - Two(k)], Progress([0, Two(k - 1)], [0, B - Two(k - 1)]));
    }
  }

  /** The bound of 64 bits is sharp: 2^64 divided by one comes out as 2^32. */
  lemma {:induction false} DivGoesWrong()
    ensures Normal([0, 0, 1]) && Normal([1]) && Val([0, 0, 1]) == W && Val([1]) == 1 && Val([0, 1]) == B
    ensures Divided([0, 0, 1], [1], [0]) == Progress([0], [0, 1])
  {
    hide Round, Divided, ValUpto, Estimates;
    Val3(0, 0, 1);
    Val2(0, 1);
    FirstRound();
    TwoBelowBase(31);
    HighGoesWrong(31);
    DividedAfter([0, 0, 1], [1], [0], Progress([0, B / 2], [0, B / 2]));
  }

  // ---------- 2^64 divided by 2^64 - 1 ----------

  /** Subtracting 2^64 - 1 from 2^64 + k forgets a borrow and leaves 2^64 + k + 1. */
  lemma {:induction false} ForgetfulDifference(k: Digit)
    requires k < B - 1
    ensures Difference([k, 0, 1], [B - 1, B - 1]) == [k + 1, 0, 1]
    ensures Forgotten([k, 0, 1], [B - 1, B - 1], 2) == 1
  {
    var u, t := [k, 0, 1], [B - 1, B - 1];
    var r := RawDiff(u, t);
    assert BorrowInto(u, t, 1) == 1 && BorrowInto(u, t, 2) == 0;
    assert r[0] == k + 1 && r[1] == 0 && r[2] == 1;
    assert r == [k + 1, 0, 1];
    assert TrimmedLength(r, 3) == 3;
    assert Forgotten(u, t, 1) == 0;
  }

  lemma {:induction false} LastDifference()
    ensures Difference([B - 1, 0, 1], [B - 1, B - 1]) == [0, 1]
    ensures Forgotten([B - 1, 0, 1], [B - 1, B - 1], 2) == 0
  {
    var u, t := [B - 1, 0, 1], [B - 1, B - 1];
    var r := RawDiff(u, t);
    assert BorrowInto(u, t, 1) == 0 && BorrowInto(u, t, 2) == 1;
    assert r[0] == 0 && r[1] == 1 && r[2] == 0;
    assert r == [0, 1, 0];
    assert TrimmedLength(r, 3) == TrimmedLength(r, 2) == 2 && r[..2] == [0, 1];
    assert Forgotten(u, t, 1) == 0;
  }

  lemma {:induction false} PlusOne(k: Digit)
    ensures Sum([k], Shifted([1], 0)) == if k < B - 1 then [k + 1] else [0, 1]
  {
    var a, b := [k], Shifted([1], 0);
    assert b == [1] && Extended(a, 1) == a;
    assert CarryInto(a, b, 1) == if k < B - 1 then 0 else 1;
    assert SumDigit(a, b, 0) == if k < B - 1 then k + 1 else 0;
  }

  /** A round that estimates one. */
  lemma {:induction false} SlowRound(k: Digit)
    ensures var u, v := [k, 0, 1], [B - 1, B - 1];
            && Estimates(u, v) && TakenOf(u, v) == v
            && Round(u, v, [k]) == (if k < B - 1 then Progress([k + 1, 0, 1], [k + 1]) else Progress([0, 1], [0, 1]))
            && Forgotten(u, v, 2) == (if k < B - 1 then 1 else 0)
  {
    hide ValUpto, Sum, Difference, Round, Forgotten;
    var u, v := [k, 0, 1], [B - 1, B - 1];
    Val3(k, 0, 1);
    Val2(B - 1, B - 1);
    OneIsOne(Val(v));
    PlusOne(k);
    if k < B - 1 {
      ForgetfulDifference(k);
      RoundIs(u, v, [k], Estimate(B, 1, 0), v, [k + 1, 0, 1], [k + 1]);
    } else {
      LastDifference();
      RoundIs(u, v, [k], Estimate(B, 1, 0), v, [0, 1], [0, 1]);
    }
  }

  lemma {:induction false} SlowFrom(k: Digit)
    ensures var u, v := [k, 0, 1], [B - 1, B - 1];
            && Normal(u) && Normal(v) && Val(v) > 0
            && Divided(u, v, [k]) == Progress([0, 1], [0, 1]) && LostBorrows(u, v, [k]) == B - 1 - k
    decreases B - k
  {
    hide ValUpto, Round, TakenOf, Forgotten;
    var u, v := [k, 0, 1], [B - 1, B - 1];
    SlowRound(k);
    DividedAfter(u, v, [k], Round(u, v, [k]));
    if k < B - 1 {
      SlowFrom(k + 1);
    } else {
      Val2(0, 1);
      Val2(B - 1, B - 1);
    }
  }

  /** 2^64 divided by 2^64 - 1 comes out as 2^32, remainder 2^32.  So many borrows can be forgotten
      that their number is a multiple of 2^32 - 1, and the result still be wrong. */
  lemma {:induction false} SlowDivision()
    ensures var u, v := [0, 0, 1], [B - 1, B - 1];
            && Normal(u) && Normal(v) && Val(u) == W && Val(v) == W - 1
            && Divided(u, v, [0]) == Progress([0, 1], [0, 1]) && LostBorrows(u, v, [0]) == B - 1 && !DivRight(u, v)
  {
    hide ValUpto, Divided, LostBorrows;
    Val3(0, 0, 1);
    Val2(B - 1, B - 1);
    Val2(0, 1);
    SlowFrom(0);
    DivModUnique(W, W - 1, 1, 1);
  }
}
