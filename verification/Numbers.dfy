/**
 Products, quotients and powers of two: the arithmetic the solver needs spelled out.
 */
module Numbers {
  function Max(a: int, b: int): int { if a < b then b else a }

  lemma {:induction false} MulMono(a: int, b: int, k: nat)
    requires a <= b
    ensures a * k <= b * k
  {
  }

  lemma {:induction false} MulMonoStrict(a: int, b: int, k: nat)
    requires a < b && k > 0
    ensures a * k < b * k
  {
  }

  lemma {:induction false} Distribute(a: int, b: int, k: int)
    ensures (a + b) * k == a * k + b * k
  {
  }

  lemma {:induction false} Assoc(a: int, b: int, c: int)
    ensures a * (b * c) == b * (a * c) == (a * b) * c
  {
  }

  lemma {:induction false} DivMod(x: nat, d: nat)
    requires d > 0
    ensures x == (x / d) * d + x % d && 0 <= x % d < d && x / d >= 0
  {
  }

  lemma {:induction false} DivModUnique(x: int, d: nat, q: int, r: int)
    requires d > 0 && x == q * d + r && 0 <= r < d
    ensures x / d == q && x % d == r
  {
    var q', r' := x / d, x % d;
    assert x == q' * d + r';
    if q' < q {
      MulMono(q' + 1, q, d);
      Distribute(q', 1, d);
      assert false;
    } else if q < q' {
      MulMono(q + 1, q', d);
      Distribute(q, 1, d);
      assert false;
    }
  }

  function Two(i: nat): (p: nat)
    ensures p > 0
  {
    if i == 0 then 1 else 2 * Two(i - 1)
  }

  lemma {:induction false} TwoAdd(i: nat, j: nat)
    ensures Two(i + j) == Two(i) * Two(j)
  {
    if j > 0 {
      TwoAdd(i, j - 1);
      Assoc(2, Two(i), Two(j - 1));
    }
  }

  lemma {:induction false} TwoBeats(n: nat)
    ensures Two(n) > n
  {
    if n > 0 { TwoBeats(n - 1); }
  }

  /** A number cut at a multiple of 2t keeps its bit of weight t. */
  lemma {:induction false} CutKeepsBit(v: nat, t: nat, c: nat)
    requires t > 0 && c > 0
    ensures (2 * c) * t > 0 && v % ((2 * c) * t) / t % 2 == v / t % 2
  {
    MulMono(1, 2 * c, t);
    var d := (2 * c) * t;
    DivMod(v, d);
    var q, r := v / d, v % d;
    DivMod(r, t);
    QuotientOfSum(q, 2 * c, t, r, v);
    Assoc(q, 2, c);
    EvenPart(q * c, r / t);
  }

  lemma {:induction false} EvenPart(x: nat, y: nat)
    ensures (2 * x + y) % 2 == y % 2
  {
  }

  lemma {:induction false} QuotientOfSum(q: nat, e: nat, t: nat, r: nat, v: nat)
    requires t > 0 && v == q * (e * t) + r
    ensures v / t == q * e + r / t
  {
    DivMod(r, t);
    Assoc(q, e, t);
    Distribute(q * e, r / t, t);
    DivModUnique(v, t, q * e + r / t, r % t);
  }
}
