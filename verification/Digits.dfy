/**
 Little-endian numbers in base 2^32: what a digit vector denotes, and the few facts about
 digits, powers and lengths on which the arithmetic rests.
 */
module Digits {
  import opened Numbers

  const B: int := 0x1_0000_0000

  /** 2^64, the size of the words in which products and estimates are formed. */
  const W: int := 0x1_0000_0000_0000_0000

  type Digit = d: int | 0 <= d < B

  function BPow(k: nat): (p: nat)
    ensures p > 0
  {
    if k == 0 then 1 else B * BPow(k - 1)
  }

  /** The number denoted by the first `n` digits. */
  function ValUpto(s: seq<Digit>, n: nat): nat
    requires n <= |s|
  {
    if n == 0 then 0 else ValUpto(s, n - 1) + s[n - 1] * BPow(n - 1)
  }

  function Val(s: seq<Digit>): nat { ValUpto(s, |s|) }

  /** No leading zero, except for the number zero itself, which is one digit. */
  predicate Normal(s: seq<Digit>) { |s| >= 1 && (|s| == 1 || s[|s| - 1] != 0) }

  // ---------- Products ----------

  lemma {:induction false} BPowAdd(i: nat, j: nat)
    ensures BPow(i + j) == BPow(i) * BPow(j)
  {
    if j > 0 {
      BPowAdd(i, j - 1);
      calc {
        BPow(i + j);
        B * (BPow(i) * BPow(j - 1));
        { Assoc(B, BPow(i), BPow(j - 1)); }
        BPow(i) * (B * BPow(j - 1));
      }
    }
  }

  // ---------- Values ----------

  lemma {:induction false} ValStep(s: seq<Digit>, n: nat)
    requires n < |s|
    ensures ValUpto(s, n + 1) == ValUpto(s, n) + s[n] * BPow(n)
  {
  }

  lemma {:induction false} PowerStep(n: nat)
    ensures BPow(n + 1) == B * BPow(n)
  {
  }

  lemma {:induction false} NoValue(s: seq<Digit>)
    ensures ValUpto(s, 0) == 0
  {
  }

  lemma {:induction false} ValFrame(s: seq<Digit>, t: seq<Digit>, n: nat)
    requires n <= |s| && n <= |t| && s[..n] == t[..n]
    ensures ValUpto(s, n) == ValUpto(t, n)
  {
    if n > 0 {
      assert s[n - 1] == s[..n][n - 1] == t[..n][n - 1] == t[n - 1];
      assert s[..n - 1] == s[..n][..n - 1] == t[..n][..n - 1] == t[..n - 1];
      ValFrame(s, t, n - 1);
    }
  }

  lemma {:induction false} ValUpdate(s: seq<Digit>, n: nat, i: nat, d: Digit)
    requires i < |s| && n <= |s|
    ensures i >= n ==> ValUpto(s[i := d], n) == ValUpto(s, n)
    ensures i < n ==> ValUpto(s[i := d], n) == ValUpto(s, n) + (d - s[i]) * BPow(i)
  {
    if n > 0 {
      ValUpdate(s, n - 1, i, d);
      var x: int := s[i];
      if i == n - 1 { Distribute(d, -x, BPow(i)); }
    }
  }

  lemma {:induction false} ValBound(s: seq<Digit>, n: nat)
    requires n <= |s|
    ensures ValUpto(s, n) < BPow(n)
  {
    if n > 0 {
      ValBound(s, n - 1);
      var top: int := s[n - 1];
      MulMono(top + 1, B, BPow(n - 1));
      Distribute(top, 1, BPow(n - 1));
    }
  }

  /** Digits above `n` that are all zero add nothing. */
  lemma {:induction false} ValZeros(s: seq<Digit>, n: nat, m: nat)
    requires n <= m <= |s| && forall k :: n <= k < m ==> s[k] == 0
    ensures ValUpto(s, m) == ValUpto(s, n)
    decreases m
  {
    if n < m { ValZeros(s, n, m - 1); }
  }

  lemma {:induction false} ValAppend(s: seq<Digit>, d: Digit)
    ensures Val(s + [d]) == Val(s) + d * BPow(|s|)
  {
    assert (s + [d])[..|s|] == s[..|s|];
    ValFrame(s + [d], s, |s|);
  }

  lemma {:induction false} ValPrefix(s: seq<Digit>, n: nat)
    requires n <= |s|
    ensures Val(s[..n]) == ValUpto(s, n)
  {
    assert s[..n][..n] == s[..n];
    ValFrame(s[..n], s, n);
  }

  lemma {:induction false} ValGrows(s: seq<Digit>, n: nat, m: nat)
    requires n <= m <= |s|
    ensures ValUpto(s, n) <= ValUpto(s, m)
    decreases m
  {
    if n < m {
      ValGrows(s, n, m - 1);
      MulMono(0, s[m - 1], BPow(m - 1));
    }
  }

  /** A normal number of `n` digits is at least B^(n-1), except zero. */
  lemma {:induction false} NormalLower(s: seq<Digit>)
    requires Normal(s)
    ensures Val(s) >= s[|s| - 1] * BPow(|s| - 1)
    ensures |s| > 1 || s[0] != 0 ==> Val(s) >= BPow(|s| - 1)
    ensures Val(s) == 0 <==> s == [0]
  {
    ValGrows(s, 0, |s| - 1);
    if s[|s| - 1] != 0 { MulMono(1, s[|s| - 1], BPow(|s| - 1)); }
    if |s| == 1 { assert ValUpto(s, 0) == 0 && BPow(0) == 1; }
  }

  lemma {:induction false} BPowMono(i: nat, j: nat)
    requires i <= j
    ensures BPow(i) <= BPow(j)
    decreases j
  {
    if i < j { BPowMono(i, j - 1); }
  }

  // ---------- Canonical digits ----------

  /** The normal digits of a number. */
  function DigitsOf(n: nat): (s: seq<Digit>)
    ensures |s| >= 1
  {
    if n < B then [n] else [n % B] + DigitsOf(n / B)
  }

  /** Putting a digit below. */
  lemma {:induction false} ValCons(d: Digit, s: seq<Digit>, n: nat)
    requires n <= |s|
    ensures ValUpto([d] + s, n + 1) == d + B * ValUpto(s, n)
  {
    if n == 0 {
      assert ValUpto([d] + s, 1) == ValUpto([d] + s, 0) + d * BPow(0);
    } else {
      ValCons(d, s, n - 1);
      assert ([d] + s)[n] == s[n - 1];
      Assoc(B, s[n - 1], BPow(n - 1));
    }
  }

  lemma {:induction false} DigitsOfCorrect(n: nat)
    ensures Normal(DigitsOf(n)) && Val(DigitsOf(n)) == n
  {
    if n < B {
      assert ValUpto([n], 1) == ValUpto([n], 0) + n * BPow(0);
    } else {
      DigitsOfCorrect(n / B);
      var high := DigitsOf(n / B);
      ValCons(n % B, high, |high|);
      assert high != [0] by { NormalLower(high); }
    }
  }

  /** Normal digit vectors with the same value are the same. */
  lemma {:induction false} ValInjective(s: seq<Digit>, t: seq<Digit>)
    requires Normal(s) && Normal(t) && Val(s) == Val(t)
    ensures s == t
  {
    SameLength(s, t);
    SameLength(t, s);
    SameDigits(s, t, |s|);
    assert s[..|s|] == s && t[..|t|] == t;
  }

  lemma {:induction false} SameLength(s: seq<Digit>, t: seq<Digit>)
    requires Normal(s) && Normal(t) && Val(s) == Val(t)
    ensures |s| <= |t|
  {
    if |s| > |t| {
      NormalLower(s);
      ValBound(t, |t|);
      BPowMono(|t|, |s| - 1);
      assert false;
    }
  }

  lemma {:induction false} SameDigits(s: seq<Digit>, t: seq<Digit>, n: nat)
    requires n <= |s| && n <= |t| && ValUpto(s, n) == ValUpto(t, n)
    ensures s[..n] == t[..n]
  {
    if n > 0 {
      ValBound(s, n - 1);
      ValBound(t, n - 1);
      var p := BPow(n - 1);
      if s[n - 1] < t[n - 1] {
        TopDecides(ValUpto(s, n - 1), s[n - 1], t[n - 1], p);
        assert false;
      } else if t[n - 1] < s[n - 1] {
        TopDecides(ValUpto(t, n - 1), t[n - 1], s[n - 1], p);
        assert false;
      }
      SameDigits(s, t, n - 1);
      assert s[..n] == s[..n - 1] + [s[n - 1]] && t[..n] == t[..n - 1] + [t[n - 1]];
    }
  }

  /** A smaller leading digit cannot be made up for below. */
  lemma {:induction false} TopDecides(low: nat, d: int, e: int, p: nat)
    requires low < p && d < e
    ensures low + d * p < e * p
  {
    MulMono(d + 1, e, p);
    Distribute(d, 1, p);
  }

  // ---------- Comparison ----------

  /** From digit `n - 1` down, the first digits that differ decide. */
  function BelowUpto(a: seq<Digit>, b: seq<Digit>, n: nat): bool
    requires n <= |a| && n <= |b|
  {
    n > 0 && if a[n - 1] != b[n - 1] then a[n - 1] < b[n - 1] else BelowUpto(a, b, n - 1)
  }

  /** The answer of `CompareNoSign`: is `a` below `b`?  A shorter vector always is. */
  function Below(a: seq<Digit>, b: seq<Digit>): bool {
    |a| < |b| || (|a| == |b| && BelowUpto(a, b, |a|))
  }

  method CompareNoSign(a: seq<Digit>, b: seq<Digit>) returns (less: bool)
    ensures less == Below(a, b)
  {
    less := false;
    if |a| < |b| {
      less := true;
    } else if |a| == |b| {
      var i := |a|;
      while i > 0
        invariant 0 <= i <= |a| && !less && BelowUpto(a, b, |a|) == BelowUpto(a, b, i)
      {
        i := i - 1;
        if a[i] != b[i] {
          less := a[i] < b[i];
          return;
        }
      }
    }
  }

  lemma {:induction false} BelowUptoCorrect(a: seq<Digit>, b: seq<Digit>, n: nat)
    requires n <= |a| && n <= |b|
    ensures BelowUpto(a, b, n) <==> ValUpto(a, n) < ValUpto(b, n)
  {
    if n > 0 {
      var i := n - 1;
      if a[i] == b[i] {
        BelowUptoCorrect(a, b, i);
      } else {
        ValBound(a, i);
        ValBound(b, i);
        if a[i] < b[i] { TopDecides(ValUpto(a, i), a[i], b[i], BPow(i)); }
        else { TopDecides(ValUpto(b, i), b[i], a[i], BPow(i)); }
      }
    }
  }

  /** Something from digit `n` on is not zero. */
  predicate ReachesBeyond(s: seq<Digit>, n: nat) { exists i :: n <= i < |s| && s[i] != 0 }

  lemma {:induction false} BeyondIsLarge(s: seq<Digit>, n: nat)
    requires n <= |s|
    ensures ReachesBeyond(s, n) ==> Val(s) >= BPow(n)
    ensures !ReachesBeyond(s, n) ==> Val(s) == ValUpto(s, n)
  {
    if ReachesBeyond(s, n) {
      var i :| n <= i < |s| && s[i] != 0;
      ValGrows(s, i + 1, |s|);
      MulMono(1, s[i], BPow(i));
      BPowMono(n, i);
    } else {
      ValZeros(s, n, |s|);
    }
  }

  /** The digits in the shorter vector's places, or something beyond them, make the longer vector
      the larger number. */
  lemma {:induction false} LongerIsLargerIff(a: seq<Digit>, b: seq<Digit>)
    requires |a| <= |b|
    ensures Val(a) < Val(b) <==> ReachesBeyond(b, |a|) || BelowUpto(a, b, |a|)
    ensures Val(b) < Val(a) <==> !ReachesBeyond(b, |a|) && BelowUpto(b, a, |a|)
  {
    hide ValUpto, BelowUpto;
    BeyondIsLarge(b, |a|);
    ValBound(a, |a|);
    BelowUptoCorrect(a, b, |a|);
    BelowUptoCorrect(b, a, |a|);
  }

  /** Exactly when the answer is right, for all vectors: always for equal lengths; else if the longer
      vector reaches beyond the shorter one, or its digits in the shorter one's places decide for
      the answer that the lengths gave. */
  lemma {:induction false} BelowRightIff(a: seq<Digit>, b: seq<Digit>)
    ensures (Below(a, b) <==> Val(a) < Val(b)) <==>
            || |a| == |b|
            || (|a| < |b| && (ReachesBeyond(b, |a|) || BelowUpto(a, b, |a|)))
            || (|b| < |a| && (ReachesBeyond(a, |b|) || !BelowUpto(a, b, |b|)))
  {
    hide ReachesBeyond, BelowUpto, ValUpto;
    if |a| <= |b| { LongerIsLargerIff(a, b); } else { LongerIsLargerIff(b, a); }
    if |a| == |b| { BelowUptoCorrect(a, b, |a|); }
  }

  /** So it is right for normal vectors. */
  lemma {:induction false} BelowCorrect(a: seq<Digit>, b: seq<Digit>)
    requires |a| >= 1 && |b| >= 1 && (|a| < |b| ==> Normal(b)) && (|b| < |a| ==> Normal(a))
    ensures Below(a, b) <==> Val(a) < Val(b)
  {
    hide Below, BelowUpto, ValUpto;
    BelowRightIff(a, b);
    if |a| < |b| { assert b[|b| - 1] != 0; }
    if |b| < |a| { assert a[|a| - 1] != 0; }
  }

  /** With a leading zero the lengths mislead it: it takes 1 for less than 0. */
  lemma {:induction false} CompareNeedsNormal()
    ensures Below([1], [0, 0]) && Val([1]) > Val([0, 0])
  {
    ValZeros([0, 0], 0, 2);
    assert Val([1]) == ValUpto([1], 0) + 1 * BPow(0);
  }

  // ---------- Shifting by whole digits ----------

  function Shifted(s: seq<Digit>, k: nat): (r: seq<Digit>)
    ensures |r| == k + |s|
  {
    seq(k, _ => 0) + s
  }

  lemma {:induction false} ShiftedUpto(s: seq<Digit>, k: nat, n: nat)
    requires n <= |s|
    ensures ValUpto(Shifted(s, k), k + n) == BPow(k) * ValUpto(s, n)
  {
    var r := Shifted(s, k);
    if n == 0 {
      ValZeros(r, 0, k);
    } else {
      ShiftedUpto(s, k, n - 1);
      assert r[k + n - 1] == s[n - 1];
      BPowAdd(k, n - 1);
      FactorOut(BPow(k), BPow(n - 1), ValUpto(s, n - 1), s[n - 1]);
    }
  }

  lemma {:induction false} FactorOut(p: int, q: int, v: int, d: int)
    ensures p * v + d * (p * q) == p * (v + d * q)
  {
    Assoc(d, p, q);
    Distribute(v, d * q, p);
  }

  lemma {:induction false} ShiftedVal(s: seq<Digit>, k: nat)
    ensures Val(Shifted(s, k)) == BPow(k) * Val(s)
  {
    ShiftedUpto(s, k, |s|);
  }
}
