/**
 Long codes: for every length up to 255 there is a file, as short as the depth bound allows, for which
 the compressor may give a byte a code that long.  Its bytes occur as often as the Fibonacci
 numbers say, so that each merge takes in just one more of them.
 */
module HuffmanDeep {
  import opened Basics
  import opened HuffmanOptimal
  import opened HuffmanBuild
  import opened HuffmanFile

  /** How often byte `b` occurs: 1, 1, 1, 2, 3, 5, and so on. */
  function Times(b: nat): nat { if b == 0 then 1 else Fib(b) }

  function Repeat(b: Byte, n: nat): seq<Byte> { seq(n, _ => b) }

  /** The bytes up to `n`, each as often as it should be. */
  function DeepInput(n: nat): seq<Byte>
    requires n <= 255
  {
    if n == 0 then [0] else DeepInput(n - 1) + Repeat(n, Times(n))
  }

  lemma {:induction false} CountRepeat(b: Byte, n: nat, c: Byte)
    ensures multiset(Repeat(b, n))[c] == if c == b then n else 0
  {
    if n > 0 {
      CountRepeat(b, n - 1, c);
      assert Repeat(b, n) == Repeat(b, n - 1) + [b];
    }
  }

  lemma {:induction false} DeepCounts(n: nat, c: Byte)
    requires n <= 255
    ensures multiset(DeepInput(n))[c] == if c <= n then Times(c) else 0
  {
    hide Times, Fib;
    if n == 0 {
      FirstTimes();
    } else {
      DeepCounts(n - 1, c);
      CountRepeat(n, Times(n), c);
    }
  }

  lemma {:induction false} FirstTimes()
    ensures Times(0) == 1 && Times(1) == 1 && Times(2) == 1
  {
    FibStep(0);
  }

  lemma {:induction false} DeepLength(n: nat)
    requires n <= 255
    ensures |DeepInput(n)| == Fib(n + 2)
  {
    hide Fib;
    FibStep(n);
    if n == 0 {
      FibStep(0);
    } else {
      DeepLength(n - 1);
    }
  }

  // ---------- The merges ----------

  /** The leaves up to byte `n`. */
  function Leaves(n: nat): seq<Tree>
    requires n <= 255
  {
    (if n == 0 then [] else Leaves(n - 1)) + [Leaf(n, Times(n))]
  }

  /** The leaves from byte `i` down to byte `k`. */
  function Down(i: nat, k: nat): (f: seq<Tree>)
    requires i <= 255
    ensures |f| == if i < k then 0 else i - k + 1
    ensures forall m :: 0 <= m < |f| ==> f[m] == Leaf(i - m, Times(i - m))
    decreases i
  {
    if i < k then [] else [Leaf(i, Times(i))] + if i == 0 then [] else Down(i - 1, k)
  }

  /** What the first `k` merges make of the bytes up to `k`. */
  function Caterpillar(k: nat): Tree
    requires k <= 255
  {
    if k == 0 then Leaf(0, 1) else Node(Caterpillar(k - 1), Leaf(k, Times(k)))
  }

  lemma {:induction false} CaterpillarSize(k: nat)
    requires k <= 255
    ensures Weight(Caterpillar(k)) == Fib(k + 2) && Height(Caterpillar(k)) == k
  {
    hide Fib;
    FibStep(k);
    if k == 0 { FibStep(0); } else { CaterpillarSize(k - 1); }
  }

  /** The items sorted before merge `k + 1`: the other bytes, then what has been merged, then byte `k + 1`. */
  function Before(n: nat, k: nat): seq<Tree>
    requires k < n <= 255
  {
    Down(n, k + 2) + [Caterpillar(k), Leaf(k + 1, Times(k + 1))]
  }

  lemma {:induction false} TimesMono(i: nat, j: nat)
    requires i <= j
    ensures Times(i) <= Times(j)
  {
    hide Fib;
    FibStep(0);
    if i >= 1 { FibMono(i, j); } else if j >= 1 { FibMono(1, j); }
  }

  lemma {:induction false} BeforeDescends(n: nat, k: nat)
    requires k < n <= 255
    ensures Descending(Before(n, k))
  {
    hide Times, Caterpillar, Fib;
    var f, d := Before(n, k), |Down(n, k + 2)|;
    CaterpillarSize(k);
    FibAsTimes(k);
    forall i, j | 0 <= i < j < |f|
      ensures Weight(f[i]) >= Weight(f[j])
    {
      if j < d {
        TimesMono(n - j, n - i);
      } else if i < d {
        TimesMono(k + 2, n - i);
      }
    }
  }

  lemma {:induction false} FibAsTimes(k: nat)
    ensures Fib(k + 2) == Times(k + 2) >= Times(k + 1)
  {
    TimesMono(k + 1, k + 2);
  }

  lemma {:induction false} DownMore(n: nat, k: nat)
    requires k <= n <= 255
    ensures Down(n, k) == Down(n, k + 1) + [Leaf(k, Times(k))]
  {
    hide Times;
  }

  /** From merge `k + 1` on, one more byte at a time. */
  lemma {:induction false} DeepRun(n: nat, k: nat)
    requires k < n <= 255
    ensures GreedyRun(Before(n, k), Caterpillar(n))
    decreases n - k
  {
    hide Times, Descending, GreedyRun, Caterpillar;
    var f := Before(n, k);
    BeforeDescends(n, k);
    var merged := Down(n, k + 2) + [Caterpillar(k + 1)];
    NextCaterpillar(k);
    assert Merged(f) == merged;
    if k + 1 == n {
      assert merged == [Caterpillar(n)];
      RunOfOne(Caterpillar(n));
    } else {
      DownMore(n, k + 2);
      var g := Before(n, k + 1);
      DeepRun(n, k + 1);
      SwapLast(Down(n, k + 3), Leaf(k + 2, Times(k + 2)), Caterpillar(k + 1));
      RunPermute(merged, g, Caterpillar(n));
    }
    RunOfSorted(f, Caterpillar(n));
  }

  lemma {:induction false} NextCaterpillar(k: nat)
    requires k < 255
    ensures Caterpillar(k + 1) == Node(Caterpillar(k), Leaf(k + 1, Times(k + 1)))
  {
    hide Times;
  }

  lemma {:induction false} SwapLast(f: seq<Tree>, x: Tree, y: Tree)
    ensures multiset(f + [x] + [y]) == multiset(f + [y, x])
  {
    assert f + [y, x] == f + [y] + [x];
  }

  lemma {:induction false} RunOfOne(t: Tree)
    ensures GreedyRun([t], t)
  {
  }

  lemma {:induction false} RunOfSorted(f: seq<Tree>, t: Tree)
    requires |f| >= 2 && Descending(f) && GreedyRun(Merged(f), t)
    ensures GreedyRun(f, t)
  {
    assert Sorting(f, f);
  }

  // ---------- The leaves of the input ----------

  lemma {:induction false} DeepLeaves(n: nat, m: nat)
    requires n <= 255 && 1 <= m <= 256
    ensures Positive(TallyOf(DeepInput(n))[..m]) == Leaves(if m <= n then m - 1 else n)
  {
    hide Positive, DeepInput, Times;
    var tally := TallyOf(DeepInput(n));
    DeepCounts(n, m - 1);
    PositiveStep(tally, m);
    SomeTimes(m - 1);
    if m == 1 {
      NoneOccur(tally[..0]);
    } else {
      DeepLeaves(n, m - 1);
    }
  }

  lemma {:induction false} SomeTimes(b: nat)
    ensures Times(b) > 0
  {
    FirstTimes();
    TimesMono(0, b);
  }

  lemma {:induction false} LeavesSorted(n: nat)
    requires 1 <= n <= 255
    ensures multiset(Leaves(n)) == multiset(Before(n, 0))
  {
    hide Times, Leaves, Before;
    if n == 1 {
      TwoLeaves();
    } else {
      LeavesSorted(n - 1);
      OneMoreLeaf(n);
      var x := [Leaf(n, Times(n))];
      assert multiset(Leaves(n - 1) + x) == multiset(Leaves(n - 1)) + multiset(x);
      assert multiset(x + Before(n - 1, 0)) == multiset(x) + multiset(Before(n - 1, 0));
    }
  }

  lemma {:induction false} TwoLeaves()
    ensures Leaves(1) == Before(1, 0)
  {
    hide Times;
    FirstTimes();
    assert Leaves(1) == Leaves(0) + [Leaf(1, Times(1))] && Leaves(0) == [] + [Leaf(0, Times(0))];
  }

  lemma {:induction false} OneMoreLeaf(n: nat)
    requires 2 <= n <= 255
    ensures Leaves(n) == Leaves(n - 1) + [Leaf(n, Times(n))] && Before(n, 0) == [Leaf(n, Times(n))] + Before(n - 1, 0)
  {
    hide Times;
    assert Down(n, 2) == [Leaf(n, Times(n))] + Down(n - 1, 2);
  }

  /** For every `n` from 1 to 255, some file of Fib(n + 2) bytes, and no shorter one, may be given a
      code of `n` bits. */
  lemma {:induction false} DepthBoundIsTight(n: nat)
    requires 1 <= n <= 255
    ensures |DeepInput(n)| == Fib(n + 2) && MayBuild(DeepInput(n), Caterpillar(n)) && Height(Caterpillar(n)) == n
  {
    hide Positive, GreedyRun, TallyOf, DeepInput, Before, Leaves, Caterpillar, Fib;
    DeepLength(n);
    CaterpillarSize(n);
    DeepLeaves(n, 256);
    assert TallyOf(DeepInput(n))[..256] == TallyOf(DeepInput(n));
    LeavesSorted(n);
    DeepRun(n, 0);
    RunPermute(Leaves(n), Before(n, 0), Caterpillar(n));
  }

  /** So the key field is too short for some file of 2584 bytes, and for none shorter. */
  lemma {:induction false} SixteenBits()
    ensures |DeepInput(16)| == 2584 && !KeysFit(DeepInput(16))
  {
    hide MayBuild, DeepInput, Caterpillar, Fib;
    DepthBoundIsTight(16);
    Fib18();
  }
}
