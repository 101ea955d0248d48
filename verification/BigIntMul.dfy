/**
 Schoolbook multiplication and square-and-multiply powers on digit vectors.
 */
module BigIntMul {
  import opened Digits
  import opened Numbers

  // ---------- Multiplication ----------

  /** One inner step: the digit product, the carry and the cell regroup without loss. */
  lemma {:induction false} InnerStep(v: int, cell: int, carry: int, x: int, y: int, p: int, temp: int)
    requires temp == x * y + carry + cell
    ensures v + (temp % B - cell) * p + (temp / B) * (B * p) == v + carry * p + (x * y) * p
  {
    Distribute(temp % B, -cell, p);
    Assoc(temp / B, B, p);
    Distribute(temp % B, B * (temp / B), p);
    assert temp % B + B * (temp / B) == temp;
    Distribute(x * y, carry + cell, p);
    Distribute(carry, cell, p);
  }

  /** A digit product with two more digits on top still fits in 64 bits. */
  lemma {:induction false} FitsInWord(x: Digit, y: Digit, carry: Digit, cell: Digit)
    ensures 0 <= x * y + carry + cell < W
    ensures 0 <= (x * y + carry + cell) / B < B
  {
    MulMono(x, B - 1, y);
    MulMono(y, B - 1, B - 1);
    MulMono(0, x, y);
  }

  lemma {:induction false} ProductSum(a: int, aj: int, pj: int, x: int, pi: int)
    ensures x * (a + aj * pj) * pi == x * a * pi + (x * aj) * (pi * pj)
  {
    Distribute(a, aj * pj, x);
    Distribute(x * a, x * (aj * pj), pi);
    Assoc(x, aj, pj);
    Assoc(pi, x * aj, pj);
  }

  /** The inner loop: adds `x` times `a`, shifted by `i` digits, into the cells. */
  method AddScaled(cells: seq<Digit>, a: seq<Digit>, x: Digit, i: nat) returns (r: seq<Digit>)
    requires i + |a| < |cells| && cells[i + |a|] == 0
    ensures |r| == |cells| && Val(r) == Val(cells) + x * Val(a) * BPow(i)
    ensures forall k :: i + |a| < k < |r| ==> r[k] == cells[k]
  {
    r := cells;
    var carry: Digit := 0;
    var j := 0;
    while j < |a|
      invariant 0 <= j <= |a| && |r| == |cells|
      invariant forall k :: i + j <= k < |r| ==> r[k] == cells[k]
      invariant Val(r) + carry * BPow(i + j) == Val(cells) + x * ValUpto(a, j) * BPow(i)
    {
      var temp := x * a[j] + carry + r[i + j];
      FitsInWord(x, a[j], carry, r[i + j]);
      assert temp < W;
      ValUpdate(r, |r|, i + j, temp % B);
      InnerStep(Val(r), r[i + j], carry, x, a[j], BPow(i + j), temp);
      BPowAdd(i, j);
      ProductSum(ValUpto(a, j), a[j], BPow(j), x, BPow(i));
      r := r[i + j := temp % B];
      carry := temp / B;
      j := j + 1;
    }
    if carry != 0 {
      ValUpdate(r, |r|, i + |a|, carry);
      r := r[i + |a| := carry];
    }
  }

  /** `Mul`: exact for all non-empty vectors.  The last digit is dropped if it is zero. */
  method MulDigits(a: seq<Digit>, b: seq<Digit>) returns (r: seq<Digit>)
    requires |a| >= 1 && |b| >= 1
    ensures Val(r) == Val(a) * Val(b)
    ensures |r| == |a| + |b| - 1 || (|r| == |a| + |b| && r[|r| - 1] != 0)
  {
    hide ValUpto, BPow;
    r := seq(|a| + |b|, _ => 0);
    ValZeros(r, 0, |r|);
    NoValue(r);
    NoValue(b);
    var i := 0;
    while i < |b|
      invariant 0 <= i <= |b| && |r| == |a| + |b|
      invariant forall k :: i + |a| <= k < |r| ==> r[k] == 0
      invariant Val(r) == Val(a) * ValUpto(b, i)
    {
      r := AddScaled(r, a, b[i], i);
      assert b[i] * Val(a) * BPow(i) == Val(a) * (b[i] * BPow(i)) by { Assoc(b[i], Val(a), BPow(i)); }
      Distribute(ValUpto(b, i), b[i] * BPow(i), Val(a));
      ValStep(b, i);
      i := i + 1;
    }
    var last := |r| - 1;
    if r[last] == 0 {
      ValZeros(r, last, |r|);
      ValPrefix(r, last);
      r := r[..last];
    }
  }

  /** The contract of `Mul`, as a relation. */
  ghost predicate IsProduct(a: seq<Digit>, b: seq<Digit>, r: seq<Digit>) {
    && Val(r) == Val(a) * Val(b)
    && (|r| == |a| + |b| - 1 || (|r| == |a| + |b| && |r| >= 1 && r[|r| - 1] != 0))
  }

  /** For normal operands the product is normal exactly when neither is zero, or both are single
      digits: zero times a longer number keeps its leading zeros. */
  lemma {:induction false} ProductNormalIff(a: seq<Digit>, b: seq<Digit>, r: seq<Digit>)
    requires Normal(a) && Normal(b) && IsProduct(a, b, r)
    ensures Normal(r) <==> (Val(a) > 0 && Val(b) > 0) || (|a| == 1 && |b| == 1)
  {
    var n := |a| + |b|;
    NormalLower(a);
    NormalLower(b);
    if Val(a) > 0 && Val(b) > 0 {
      if |r| == n - 1 && r[n - 2] == 0 {
        ProductLower(a, b);
        ValZeros(r, n - 2, n - 1);
        ValBound(r, n - 2);
        assert false;
      }
    } else {
      assert Val(r) == 0 by { ZeroProduct(Val(a), Val(b)); }
      AllZero(r, |r|);
    }
  }

  lemma {:induction false} ZeroProduct(x: nat, y: nat)
    requires x == 0 || y == 0
    ensures x * y == 0
  {
  }

  lemma {:induction false} ProductLower(a: seq<Digit>, b: seq<Digit>)
    requires Normal(a) && Normal(b) && Val(a) > 0 && Val(b) > 0
    ensures Val(a) * Val(b) >= BPow(|a| + |b| - 2)
  {
    NormalLower(a);
    NormalLower(b);
    BPowAdd(|a| - 1, |b| - 1);
    MulMono(BPow(|a| - 1), Val(a), BPow(|b| - 1));
    MulMono(BPow(|b| - 1), Val(b), Val(a));
  }

  lemma {:induction false} AllZero(s: seq<Digit>, n: nat)
    requires n <= |s| && ValUpto(s, n) == 0
    ensures forall k :: 0 <= k < n ==> s[k] == 0
  {
    if n > 0 {
      if s[n - 1] > 0 { MulMono(1, s[n - 1], BPow(n - 1)); assert false; }
      AllZero(s, n - 1);
    }
  }

  // ---------- Powers ----------

  function Exp(b: nat, n: nat): nat { if n == 0 then 1 else b * Exp(b, n - 1) }

  lemma {:induction false} ExpAdd(b: nat, m: nat, n: nat)
    ensures Exp(b, m + n) == Exp(b, m) * Exp(b, n)
  {
    if m > 0 {
      ExpAdd(b, m - 1, n);
      Assoc(b, Exp(b, m - 1), Exp(b, n));
    }
  }

  lemma {:induction false} BaseIsTwoTo32()
    ensures Two(32) == B
  {
    assert Two(8) == 256 by { assert Two(4) == 16; TwoAdd(4, 4); }
    TwoAdd(8, 8);
    TwoAdd(16, 16);
  }

  lemma {:induction false} BPowIsTwo(k: nat)
    ensures BPow(k) == Two(32 * k)
  {
    if k > 0 {
      BPowIsTwo(k - 1);
      BaseIsTwoTo32();
      TwoAdd(32, 32 * (k - 1));
    }
  }

  lemma {:induction false} LowBitsOf(x: nat, t: nat, y: nat, r: nat, z: nat, b: nat)
    requires x == y * t + r && r < t && y == 2 * z + b && b <= 1
    ensures x % (2 * t) == if b == 1 then r + t else r
  {
    Distribute(2 * z, b, t);
    Assoc(2, z, t);
    assert y * t == z * (2 * t) + b * t;
    assert b * t == if b == 1 then t else 0;
    DivModUnique(x, 2 * t, z, b * t + r);
  }

  /** One more bit. */
  lemma {:induction false} LowBits(x: nat, i: nat)
    ensures x % Two(i + 1) == x % Two(i) + (if x / Two(i) % 2 == 1 then Two(i) else 0)
  {
    var t := Two(i);
    DivMod(x, t);
    var y, r := x / t, x % t;
    LowBitsOf(x, t, y, r, y / 2, y % 2);
  }

  /** `TestBit`; beyond the last digit every bit is clear. */
  predicate TestBit(n: seq<Digit>, i: nat) {
    i / 32 < |n| && n[i / 32] / Two(i % 32) % 2 == 1
  }

  /** The digit that holds the bit, seen from the number. */
  lemma {:induction false} DigitAt(n: seq<Digit>, w: nat, m: nat) returns (high: nat)
    requires w < m <= |n|
    ensures ValUpto(n, m) == ValUpto(n, w) + (n[w] + B * high) * BPow(w)
  {
    if m == w + 1 {
      high := 0;
    } else {
      var h := DigitAt(n, w, m - 1);
      var k := m - 2 - w;
      high := h + n[m - 1] * BPow(k);
      BPowAdd(w + 1, k);
      assert BPow(m - 1) == (B * BPow(w)) * BPow(k);
      HighDigit(n[w], h, n[m - 1], BPow(k), BPow(w));
    }
  }

  lemma {:induction false} HighDigit(d: int, h: int, top: int, pk: int, pw: int)
    ensures (d + B * h) * pw + top * ((B * pw) * pk) == (d + B * (h + top * pk)) * pw
  {
    Distribute(d + B * h, B * (top * pk), pw);
    Assoc(top, B * pw, pk);
    Assoc(B, pw, top * pk);
  }

  lemma {:induction false} BitInside(n: seq<Digit>, w: nat, b: nat)
    requires w < |n| && b < 32
    ensures BPow(w) * Two(b) > 0
    ensures Val(n) / (BPow(w) * Two(b)) % 2 == n[w] / Two(b) % 2
  {
    hide Two, BPow, ValUpto;
    MulMono(1, Two(b), BPow(w));
    var high := DigitAt(n, w, |n|);
    ValBound(n, w);
    WordSplit(b);
    BitOfDigit(ValUpto(n, w), n[w], high, BPow(w), Two(b), Two(31 - b));
  }

  lemma {:induction false} WordSplit(b: nat)
    requires b < 32
    ensures B == 2 * (Two(b) * Two(31 - b))
  {
    hide Two;
    BaseIsTwoTo32();
    TwoAdd(b, 31 - b);
    TwoNext(31);
  }

  lemma {:induction false} TwoNext(i: nat)
    ensures Two(i + 1) == 2 * Two(i)
  {
  }

  lemma {:induction false} BitOutside(n: seq<Digit>, w: nat, b: nat)
    requires w >= |n|
    ensures BPow(w) * Two(b) > 0
    ensures Val(n) / (BPow(w) * Two(b)) == 0
  {
    MulMono(1, Two(b), BPow(w));
    ValBound(n, |n|);
    BPowMono(|n|, w);
    DivModUnique(Val(n), BPow(w) * Two(b), 0, Val(n));
  }

  /** Bit `i` of the vector is bit `i` of the number. */
  lemma {:induction false} TestBitCorrect(n: seq<Digit>, i: nat)
    ensures TestBit(n, i) <==> Val(n) / Two(i) % 2 == 1
  {
    hide Two, BPow, ValUpto;
    var w, b := i / 32, i % 32;
    BPowIsTwo(w);
    TwoAdd(32 * w, b);
    if w < |n| { BitInside(n, w, b); } else { BitOutside(n, w, b); }
  }

  lemma {:induction false} BitOfDigit(low: nat, d: nat, high: nat, pw: nat, tb: nat, tc: nat)
    requires low < pw && pw > 0 && tb > 0 && B == 2 * (tb * tc)
    ensures (low + (d + B * high) * pw) / (pw * tb) % 2 == d / tb % 2
  {
    var q, r, x := d / tb, d % tb, tc * high;
    DivMod(d, tb);
    TimesWord(tb, tc, high);
    Distribute(q, 2 * x, tb);
    AboveDigit(low, q + 2 * x, r, pw, tb, d + B * high);
    EvenPart(x, q);
  }

  lemma {:induction false} TimesWord(tb: nat, tc: nat, high: nat)
    requires B == 2 * (tb * tc)
    ensures B * high == 2 * (tc * high) * tb
  {
    Assoc(tb, tc, high);
  }

  lemma {:induction false} AboveDigit(low: nat, q: nat, r: nat, pw: nat, tb: nat, y: nat)
    requires low < pw && pw > 0 && 0 <= r < tb && y == q * tb + r
    ensures pw * tb > 0 && (low + y * pw) / (pw * tb) == q
  {
    MulMono(1, tb, pw);
    Distribute(q * tb, r, pw);
    Assoc(q, pw, tb);
    MulMono(r + 1, tb, pw);
    Distribute(r, 1, pw);
    DivModUnique(low + y * pw, pw * tb, q, low + r * pw);
  }

  /** `GetTotalBits`: the bit length, for a normal number; never too few bits. */
  method GetTotalBits(n: seq<Digit>) returns (bits: nat)
    requires |n| >= 1
    ensures Val(n) < Two(bits)
    ensures Normal(n) && Val(n) > 0 ==> bits > 0 && Two(bits - 1) <= Val(n)
  {
    var top := n[|n| - 1];
    var backNum, length := top, 0;
    while backNum != 0
      invariant 0 <= backNum <= top && length >= 0
      invariant backNum * Two(length) <= top < (backNum + 1) * Two(length)
      invariant top > 0 && backNum == 0 ==> length > 0 && Two(length - 1) <= top
      decreases backNum
    {
      Assoc(backNum / 2, 2, Two(length));
      Distribute(backNum / 2 * 2, backNum % 2, Two(length));
      Distribute(backNum, 1, Two(length));
      Distribute(backNum / 2, 1, 2 * Two(length));
      if backNum == 1 { assert Two(length) <= top; }
      backNum := backNum / 2;
      length := length + 1;
    }
    bits := 32 * (|n| - 1) + length;
    TopBits(n, length);
  }

  lemma {:induction false} TopBits(n: seq<Digit>, length: nat)
    requires |n| >= 1 && n[|n| - 1] < Two(length)
    requires n[|n| - 1] > 0 ==> length > 0 && Two(length - 1) <= n[|n| - 1]
    ensures var bits := 32 * (|n| - 1) + length;
            && Val(n) < Two(bits)
            && (Normal(n) && Val(n) > 0 ==> bits > 0 && Two(bits - 1) <= Val(n))
  {
    TopBitsUpper(n, length);
    if Normal(n) && Val(n) > 0 {
      NormalLower(n);
      assert length > 0;
      TopBitsLower(n, length);
    }
  }

  lemma {:induction false} TopBitsUpper(n: seq<Digit>, length: nat)
    requires |n| >= 1 && n[|n| - 1] < Two(length)
    ensures Val(n) < Two(32 * (|n| - 1) + length)
  {
    var k := |n| - 1;
    var top: int := n[k];
    BPowIsTwo(k);
    TwoAdd(32 * k, length);
    ValBound(n, k);
    MulMono(top + 1, Two(length), BPow(k));
    Distribute(top, 1, BPow(k));
  }

  lemma {:induction false} TopBitsLower(n: seq<Digit>, length: nat)
    requires Normal(n) && length > 0 && Two(length - 1) <= n[|n| - 1]
    ensures Two(32 * (|n| - 1) + length - 1) <= Val(n)
  {
    hide Two, BPow, ValUpto;
    var k := |n| - 1;
    BPowIsTwo(k);
    NormalLower(n);
    TwoAdd(32 * k, length - 1);
    MulMono(Two(length - 1), n[k], BPow(k));
  }

  /** `Power`: for every base and every exponent, zero included. */
  method PowerDigits(base: seq<Digit>, n: seq<Digit>) returns (r: seq<Digit>)
    requires |base| >= 1 && |n| >= 1
    ensures |r| >= 1 && Val(r) == Exp(Val(base), Val(n))
  {
    ghost var b, e := Val(base), Val(n);
    if |n| == 1 && n[0] == 0 {
      NormalLower(n);
      r := [1];
      assert Val([1]) == ValUpto([1], 0) + 1 * BPow(0);
      return;
    }
    var bits := GetTotalBits(n);
    var t := base;
    r := [1];
    assert Val([1]) == ValUpto([1], 0) + 1 * BPow(0);
    assert Exp(b, 1) == b * Exp(b, 0);
    var i := 0;
    while i < bits
      invariant 0 <= i <= bits && |r| >= 1 && |t| >= 1
      invariant Val(r) == Exp(b, e % Two(i)) && Val(t) == Exp(b, Two(i))
    {
      TestBitCorrect(n, i);
      LowBits(e, i);
      if TestBit(n, i) {
        ExpAdd(b, e % Two(i), Two(i));
        r := MulDigits(r, t);
      }
      ExpAdd(b, Two(i), Two(i));
      t := MulDigits(t, t);
      i := i + 1;
    }
    DivModUnique(e, Two(bits), 0, e);
  }
}
