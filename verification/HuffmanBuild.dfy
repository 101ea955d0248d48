/**
 Building the code tree: count the bytes, sort, and merge the last two items of the sorted array
 until one is left.  The sort may leave equal counts in any order; nothing here depends on it.
 */
module HuffmanBuild {
  import opened Basics
  import opened Numbers
  import opened HuffmanOptimal

  /** A byte that occurs, with how often. */
  datatype Symbol = Symbol(num: Byte, ntimes: nat)

  function Symbols(t: Tree): seq<Symbol> {
    match t case Leaf(b, n) => [Symbol(b, n)] case Node(l, r) => Symbols(l) + Symbols(r)
  }

  // ---------- Forests ----------

  function Positive(items: seq<Tree>): seq<Tree> {
    if items == [] then []
    else
      var rest := Positive(items[..|items| - 1]);
      if Weight(items[|items| - 1]) > 0 then rest + [items[|items| - 1]] else rest
  }

  /** What merging keeps track of: the root weights, the symbols below, the cost so far, and the
      weight of everything together. */
  datatype Totals = Totals(weights: multiset<nat>, symbols: multiset<Symbol>, cost: nat, weight: nat)

  ghost function With(sum: Totals, t: Tree): Totals {
    Totals(sum.weights + multiset{Weight(t)}, sum.symbols + multiset(Symbols(t)),
           sum.cost + Cost(t), sum.weight + Weight(t))
  }

  ghost function TotalsOf(f: seq<Tree>): Totals {
    if f == [] then Totals(multiset{}, multiset{}, 0, 0)
    else With(TotalsOf(f[..|f| - 1]), f[|f| - 1])
  }

  lemma {:induction false} TotalsAppend(f: seq<Tree>, t: Tree)
    ensures TotalsOf(f + [t]) == With(TotalsOf(f), t)
  {
    hide With;
    assert (f + [t])[..|f|] == f;
  }

  lemma {:induction false} WithCommutes(sum: Totals, x: Tree, y: Tree)
    ensures With(With(sum, x), y) == With(With(sum, y), x)
  {
    hide Weight, Symbols, Cost;
    var sx, sy := multiset(Symbols(x)), multiset(Symbols(y));
    assert (sum.symbols + sx) + sy == (sum.symbols + sy) + sx;
    assert (sum.weights + multiset{Weight(x)}) + multiset{Weight(y)} == (sum.weights + multiset{Weight(y)}) + multiset{Weight(x)};
  }

  /** A tree may be counted last, wherever it stands. */
  lemma {:induction false} TotalsWithout(before: seq<Tree>, x: Tree, after: seq<Tree>)
    ensures TotalsOf(before + [x] + after) == With(TotalsOf(before + after), x)
    decreases |after|
  {
    hide With, TotalsOf;
    if after == [] {
      assert before + [x] + after == before + [x] && before + after == before;
      TotalsAppend(before, x);
    } else {
      var less, y := after[..|after| - 1], after[|after| - 1];
      assert before + [x] + after == (before + [x] + less) + [y];
      assert before + after == (before + less) + [y];
      TotalsWithout(before, x, less);
      TotalsAppend(before + [x] + less, y);
      TotalsAppend(before + less, y);
      WithCommutes(TotalsOf(before + less), x, y);
    }
  }

  /** An element of a sequence, taken out of a rearrangement of it. */
  lemma {:induction false} TakeOut<T>(f: seq<T>, x: T, g: seq<T>) returns (before: seq<T>, after: seq<T>)
    requires multiset(f + [x]) == multiset(g)
    ensures g == before + [x] + after && multiset(before + after) == multiset(f)
  {
    assert (f + [x])[|f|] == x;
    assert x in multiset(g);
    var i :| 0 <= i < |g| && g[i] == x;
    before, after := g[..i], g[i + 1..];
    assert g == before + [x] + after;
    assert multiset(f) + multiset{x} == multiset(before + after) + multiset{x};
    RemoveSame(multiset(f), multiset(before + after), x);
  }

  lemma {:induction false} EmptyPermutation<T>(g: seq<T>)
    requires multiset(g) == multiset{}
    ensures g == []
  {
    assert |multiset(g)| == 0;
  }

  lemma {:induction false} TotalsPermute(f: seq<Tree>, g: seq<Tree>)
    requires multiset(f) == multiset(g)
    ensures TotalsOf(f) == TotalsOf(g)
    decreases |f|
  {
    hide With, TotalsOf;
    if f == [] {
      EmptyPermutation(g);
    } else {
      var less, x := f[..|f| - 1], f[|f| - 1];
      assert f == less + [x];
      var before, after := TakeOut(less, x, g);
      TotalsPermute(less, before + after);
      TotalsAppend(less, x);
      TotalsWithout(before, x, after);
    }
  }

  // ---------- Depth ----------

  function Heavier(t: Tree): nat {
    match t case Leaf(_, _) => 0 case Node(l, r) => Max(Weight(l), Weight(r))
  }

  /** When two trees were merged, neither was lighter than a child of the other. */
  predicate Balanced(t: Tree) {
    match t
    case Leaf(_, n) => n > 0
    case Node(l, r) => Balanced(l) && Balanced(r) && Weight(r) >= Heavier(l) && Weight(l) >= Heavier(r)
  }

  function Height(t: Tree): nat {
    match t case Leaf(_, _) => 0 case Node(l, r) => 1 + Max(Height(l), Height(r))
  }

  function Fib(n: nat): nat { if n == 0 then 0 else if n == 1 then 1 else Fib(n - 1) + Fib(n - 2) }

  lemma {:induction false} FibMono(m: nat, n: nat)
    requires 1 <= m <= n
    ensures 1 <= Fib(m) <= Fib(n)
    decreases n
  {
    if n > m { FibMono(m, n - 1); if n >= 3 { FibMono(1, n - 2); } }
    else if m >= 3 { FibMono(1, m - 1); }
  }

  lemma {:induction false} FibStep(n: nat)
    ensures Fib(n + 2) == Fib(n + 1) + Fib(n) && Fib(1) == 1 && Fib(2) == 1
  {
  }

  /** A path of length h to some leaf needs a total weight of Fib(h + 2). */
  lemma {:induction false} HeightNeedsWeight(t: Tree)
    requires Balanced(t)
    ensures Weight(t) >= Fib(Height(t) + 2) && (t.Node? ==> Heavier(t) >= Fib(Height(t) + 1))
  {
    hide Fib;
    FibStep(Height(t));
    match t
    case Leaf(_, _) => FibStep(0);
    case Node(l, r) =>
      HeightNeedsWeight(l);
      HeightNeedsWeight(r);
      LeafIsSomething(l);
      LeafIsSomething(r);
  }

  lemma {:induction false} LeafIsSomething(t: Tree)
    requires Balanced(t)
    ensures Weight(t) >= 1 && (t.Leaf? ==> Fib(Height(t) + 1) == 1)
  {
    if t.Node? { LeafIsSomething(t.left); }
  }

  /** No tree of the forest is lighter than a child of any tree of the forest. */
  ghost predicate NoneTooLight(f: seq<Tree>) {
    && (forall t :: t in f ==> Balanced(t))
    && (forall x, y :: x in f && y in f ==> Weight(y) >= Heavier(x))
  }

  // ---------- What merging keeps ----------

  /** `f` was obtained from the leaves `f0` by merging two lightest, again and again. */
  ghost predicate GreedyForest(f0: seq<Tree>, f: seq<Tree>) {
    && Reduces(TotalsOf(f0).weights, TotalsOf(f).weights, TotalsOf(f).cost)
    && TotalsOf(f).symbols == TotalsOf(f0).symbols && TotalsOf(f).weight == TotalsOf(f0).weight
    && NoneTooLight(f)
  }

  lemma {:induction false} GreedyPermute(f0: seq<Tree>, f: seq<Tree>, g: seq<Tree>)
    requires GreedyForest(f0, f) && multiset(f) == multiset(g)
    ensures GreedyForest(f0, g)
  {
    hide Reduces, TotalsOf, Balanced, Heavier, Weight;
    TotalsPermute(f, g);
    forall t | t in g
      ensures t in f
    {
      assert t in multiset(g);
    }
  }

  predicate Descending(f: seq<Tree>) {
    forall i, j :: 0 <= i < j < |f| ==> Weight(f[i]) >= Weight(f[j])
  }

  /** The last two of a sorted forest merged. */
  function Merged(f: seq<Tree>): seq<Tree>
    requires |f| >= 2
  {
    f[..|f| - 2] + [Node(f[|f| - 2], f[|f| - 1])]
  }

  lemma {:induction false} WeightsInForest(f: seq<Tree>, w: nat) returns (i: nat)
    requires w in TotalsOf(f).weights
    ensures i < |f| && Weight(f[i]) == w
  {
    if Weight(f[|f| - 1]) == w { i := |f| - 1; }
    else { i := WeightsInForest(f[..|f| - 1], w); }
  }

  lemma {:induction false} WithMerged(sum: Totals, l: Tree, r: Tree)
    ensures var apart, joint := With(With(sum, l), r), With(sum, Node(l, r));
            && apart.weights == sum.weights + multiset{Weight(r), Weight(l)}
            && joint.weights == sum.weights + multiset{Weight(r) + Weight(l)}
            && joint.symbols == apart.symbols && joint.weight == apart.weight
            && joint.cost == apart.cost + Weight(r) + Weight(l)
  {
    hide Weight, Symbols, Cost;
    NodeParts(l, r);
    PairOf(sum.weights, Weight(r), Weight(l));
    SymbolsTogether(sum.symbols, Symbols(l), Symbols(r));
  }

  lemma {:induction false} NodeParts(l: Tree, r: Tree)
    ensures var t := Node(l, r);
            && Weight(t) == Weight(r) + Weight(l) && Symbols(t) == Symbols(l) + Symbols(r)
            && Cost(t) == Cost(l) + Cost(r) + Weight(r) + Weight(l)
  {
  }

  lemma {:induction false} PairOf(w: multiset<nat>, a: nat, b: nat)
    ensures (w + multiset{b}) + multiset{a} == w + multiset{a, b}
  {
  }

  lemma {:induction false} SymbolsTogether(m: multiset<Symbol>, x: seq<Symbol>, y: seq<Symbol>)
    ensures (m + multiset(x)) + multiset(y) == m + multiset(x + y)
  {
  }

  lemma {:induction false} LastTwoLightest(others: seq<Tree>, l: Tree, r: Tree)
    requires Descending(others + [l, r])
    ensures TwoLightest(Weight(r), Weight(l), TotalsOf(others).weights)
  {
    hide TotalsOf, Weight;
    var f := others + [l, r];
    assert Weight(f[|others|]) >= Weight(f[|others| + 1]);
    forall x | x in TotalsOf(others).weights
      ensures Weight(l) <= x
    {
      var i := WeightsInForest(others, x);
      assert Weight(f[i]) >= Weight(f[|others|]);
    }
  }

  lemma {:induction false} MergeReduces(f0: seq<Tree>, others: seq<Tree>, l: Tree, r: Tree)
    requires Descending(others + [l, r]) && GreedyForest(f0, others + [l, r])
    ensures var merged := TotalsOf(others + [Node(l, r)]);
            && Reduces(TotalsOf(f0).weights, merged.weights, merged.cost)
            && merged.symbols == TotalsOf(f0).symbols && merged.weight == TotalsOf(f0).weight
  {
    hide Reduces, NoneTooLight, TotalsOf, With, Descending;
    assert others + [l, r] == (others + [l]) + [r];
    TotalsAppend(others, l);
    TotalsAppend(others + [l], r);
    TotalsAppend(others, Node(l, r));
    WithMerged(TotalsOf(others), l, r);
    LastTwoLightest(others, l, r);
    ReducesStep(TotalsOf(f0).weights, TotalsOf(others).weights, Weight(r), Weight(l), TotalsOf(others + [l, r]).cost);
  }

  lemma {:induction false} MergeKeepsBalance(others: seq<Tree>, l: Tree, r: Tree)
    requires Descending(others + [l, r]) && NoneTooLight(others + [l, r])
    ensures NoneTooLight(others + [Node(l, r)])
  {
    var f, merged := others + [l, r], Node(l, r);
    assert f[|others|] == l && f[|others| + 1] == r;
    assert l in f && r in f;
    forall t | t in others
      ensures t in f && Weight(t) >= Weight(l) && Weight(t) >= Weight(r)
    {
      var i :| 0 <= i < |others| && others[i] == t;
      assert f[i] == t;
    }
    assert Balanced(merged);
    forall x, y | x in others + [merged] && y in others + [merged]
      ensures Weight(y) >= Heavier(x)
    {
    }
  }

  lemma {:induction false} MergeKeepsGreedy(f0: seq<Tree>, f: seq<Tree>)
    requires |f| >= 2 && Descending(f) && GreedyForest(f0, f)
    ensures GreedyForest(f0, Merged(f))
  {
    hide Reduces, NoneTooLight, TotalsOf, Descending;
    var others, l, r := f[..|f| - 2], f[|f| - 2], f[|f| - 1];
    assert f == others + [l, r];
    MergeReduces(f0, others, l, r);
    MergeKeepsBalance(others, l, r);
  }

  // ---------- The result ----------

  /** Exactly the bytes that occur, with their counts. */
  ghost predicate Covers(input: seq<Byte>, t: Tree) {
    && (forall s :: s in Symbols(t) ==> s.ntimes > 0 && s.ntimes == multiset(input)[s.num])
    && (forall b: Byte :: b in input ==> multiset(Symbols(t))[Symbol(b, multiset(input)[b])] == 1)
  }

  /** What is wanted of a tree for `input`: it covers exactly the bytes that occur, is balanced in the
      sense above, and is a cheapest one. */
  ghost predicate HuffmanTree(input: seq<Byte>, t: Tree) {
    && Covers(input, t) && Balanced(t) && Weight(t) == |input|
    && forall u :: multiset(Symbols(u)) == multiset(Symbols(t)) ==> Cost(t) <= Cost(u)
  }

  /** The counts of some symbols, without their bytes. */
  ghost function CountBag(s: seq<Symbol>): multiset<nat> {
    if s == [] then multiset{} else CountBag(s[..|s| - 1]) + multiset{s[|s| - 1].ntimes}
  }

  lemma {:induction false} CountBagConcat(s: seq<Symbol>, u: seq<Symbol>)
    ensures CountBag(s + u) == CountBag(s) + CountBag(u)
    decreases |u|
  {
    if u == [] {
      assert s + u == s;
    } else {
      assert (s + u)[..|s + u| - 1] == s + u[..|u| - 1];
      CountBagConcat(s, u[..|u| - 1]);
    }
  }

  lemma {:induction false} CountBagOne(x: Symbol)
    ensures CountBag([x]) == multiset{x.ntimes}
  {
    assert [x][..0] == [];
  }

  lemma {:induction false} CountBagPermute(s: seq<Symbol>, u: seq<Symbol>)
    requires multiset(s) == multiset(u)
    ensures CountBag(s) == CountBag(u)
    decreases |s|
  {
    hide CountBag;
    if s == [] {
      EmptyPermutation(u);
    } else {
      var less, x := s[..|s| - 1], s[|s| - 1];
      assert s == less + [x];
      var before, after := TakeOut(less, x, u);
      CountBagPermute(less, before + after);
      CountBagConcat(less, [x]);
      CountBagConcat(before + [x], after);
      CountBagConcat(before, [x]);
      CountBagConcat(before, after);
    }
  }

  lemma {:induction false} CountBagOfTree(t: Tree)
    ensures CountBag(Symbols(t)) == multiset(Weights(t))
  {
    match t
    case Leaf(b, n) => CountBagOne(Symbol(b, n));
    case Node(l, r) =>
      CountBagOfTree(l);
      CountBagOfTree(r);
      CountBagConcat(Symbols(l), Symbols(r));
  }

  /** The forest the merging starts from. */
  predicate AllLeaves(f: seq<Tree>) { forall i :: 0 <= i < |f| ==> f[i].Leaf? }

  function LeafSymbols(f: seq<Tree>): (s: seq<Symbol>)
    requires AllLeaves(f)
    ensures |s| == |f|
  {
    if f == [] then [] else LeafSymbols(f[..|f| - 1]) + [Symbol(f[|f| - 1].num, f[|f| - 1].ntimes)]
  }

  lemma {:induction false} LeafTotals(f: seq<Tree>)
    requires AllLeaves(f)
    ensures var t := TotalsOf(f);
            t.weights == CountBag(LeafSymbols(f)) && t.symbols == multiset(LeafSymbols(f)) && t.cost == 0
  {
    if f != [] {
      var g, x := f[..|f| - 1], f[|f| - 1];
      LeafTotals(g);
      CountBagConcat(LeafSymbols(g), [Symbol(x.num, x.ntimes)]);
      CountBagOne(Symbol(x.num, x.ntimes));
    }
  }

  lemma {:induction false} SymbolsOfLeaves(f: seq<Tree>, t: Tree)
    requires AllLeaves(f) && multiset(Symbols(t)) == TotalsOf(f).symbols
    ensures multiset(Weights(t)) == TotalsOf(f).weights
  {
    LeafTotals(f);
    CountBagOfTree(t);
    CountBagPermute(Symbols(t), LeafSymbols(f));
  }

  /** When one tree is left, it is a cheapest one over its symbols. */
  lemma {:induction false} LastOneIsOptimal(f0: seq<Tree>, t: Tree, u: Tree)
    requires AllLeaves(f0) && GreedyForest(f0, [t]) && multiset(Symbols(u)) == multiset(Symbols(t))
    ensures Cost(t) <= Cost(u)
  {
    assert [t] == [] + [t];
    TotalsAppend([], t);
    assert TotalsOf([t]).weights == multiset{Weight(t)};
    assert TotalsOf([t]).symbols == multiset(Symbols(t));
    SymbolsOfLeaves(f0, u);
    PaidIsLeast(TotalsOf(f0).weights, Weight(t), Cost(t), u);
  }

  /** A code of length d can arise only in a file of at least Fib(d + 2) bytes, so files of fewer
      than 2584 bytes have codes of at most 15 bits, which is what the key field holds. */
  lemma {:induction false} DepthBound(input: seq<Byte>, t: Tree)
    requires HuffmanTree(input, t)
    ensures |input| >= Fib(Height(t) + 2)
    ensures |input| < 2584 ==> Height(t) <= 15
  {
    HeightNeedsWeight(t);
    if |input| < 2584 && Height(t) >= 16 {
      FibMono(18, Height(t) + 2);
      Fib18();
      assert false;
    }
  }

  lemma {:induction false} Fib18()
    ensures Fib(18) == 2584
  {
    assert Fib(6) == 8 && Fib(7) == 13;
    assert Fib(8) == 21 && Fib(9) == 34;
    assert Fib(10) == 55 && Fib(11) == 89;
    assert Fib(12) == 144 && Fib(13) == 233;
    assert Fib(14) == 377 && Fib(15) == 610;
    assert Fib(16) == 987 && Fib(17) == 1597;
  }

  // ---------- Counting ----------

  /** Slot b holds byte b and how often it occurs. */
  ghost predicate Tally(items: seq<Tree>, input: seq<Byte>) {
    |items| == 256 && forall b: Byte :: items[b] == Leaf(b, multiset(input)[b])
  }

  lemma {:induction false} TotalsReplace(f: seq<Tree>, i: nat, t: Tree)
    requires i < |f|
    ensures TotalsOf(f[i := t]).weight == TotalsOf(f).weight - Weight(f[i]) + Weight(t)
  {
    hide TotalsOf;
    var before, after := f[..i], f[i + 1..];
    assert f == before + [f[i]] + after;
    assert f[i := t] == before + [t] + after;
    TotalsWithout(before, f[i], after);
    TotalsWithout(before, t, after);
  }

  lemma {:induction false} NothingWeighsNothing(f: seq<Tree>)
    requires forall i :: 0 <= i < |f| ==> Weight(f[i]) == 0
    ensures TotalsOf(f).weight == 0
  {
    if f != [] { NothingWeighsNothing(f[..|f| - 1]); }
  }

  method CountNumbers(input: seq<Byte>) returns (items: array<Tree>)
    ensures fresh(items) && Tally(items[..], input) && TotalsOf(items[..]).weight == |input|
  {
    hide TotalsOf;
    items := new Tree[256](i => Leaf(if 0 <= i < 256 then i else 0, 0));
    NothingWeighsNothing(items[..]);
    var i := 0;
    while i < |input|
      invariant 0 <= i <= |input| && items.Length == 256
      invariant Tally(items[..], input[..i]) && TotalsOf(items[..]).weight == i
    {
      var b := input[i];
      assert input[..i + 1] == input[..i] + [b];
      ghost var before := items[..];
      TotalsReplace(before, b, Leaf(b, before[b].ntimes + 1));
      items[b] := Leaf(b, items[b].ntimes + 1);
      assert items[..] == before[b := Leaf(b, before[b].ntimes + 1)];
      i := i + 1;
    }
    assert input[..i] == input;
  }

  // ---------- Sorting ----------

  function InsertSorted(t: Tree, s: seq<Tree>): seq<Tree> {
    if s == [] || Weight(t) >= Weight(s[0]) then [t] + s else [s[0]] + InsertSorted(t, s[1..])
  }

  lemma {:induction false} InsertSortedContents(t: Tree, s: seq<Tree>)
    ensures multiset(InsertSorted(t, s)) == multiset(s) + multiset{t}
  {
    if s == [] || Weight(t) >= Weight(s[0]) {
    } else {
      InsertSortedContents(t, s[1..]);
      assert s == [s[0]] + s[1..];
    }
  }

  predicate AtMost(s: seq<Tree>, w: nat) { forall i :: 0 <= i < |s| ==> Weight(s[i]) <= w }

  lemma {:induction false} InsertSortedCorrect(t: Tree, s: seq<Tree>, w: nat)
    requires Descending(s) && AtMost(s, w) && Weight(t) <= w
    ensures Descending(InsertSorted(t, s)) && AtMost(InsertSorted(t, s), w)
  {
    hide Weight;
    if s == [] || Weight(t) >= Weight(s[0]) {
    } else {
      InsertSortedCorrect(t, s[1..], Weight(s[0]));
    }
  }

  function Sorted(s: seq<Tree>): seq<Tree> {
    if s == [] then [] else InsertSorted(s[0], Sorted(s[1..]))
  }

  lemma {:induction false} DescendingAtMost(s: seq<Tree>, w: nat)
    ensures Descending(s) && s != [] && Weight(s[0]) <= w ==> AtMost(s, w)
    ensures s == [] ==> Descending(s) && AtMost(s, w)
  {
  }

  lemma {:induction false} SortedCorrect(s: seq<Tree>)
    ensures Descending(Sorted(s)) && multiset(Sorted(s)) == multiset(s) && |Sorted(s)| == |s|
  {
    hide InsertSorted, Descending, AtMost, Weight;
    if s == [] {
      DescendingAtMost(s, 0);
    } else {
      SortedCorrect(s[1..]);
      var rest := Sorted(s[1..]);
      var w := if rest == [] then Weight(s[0]) else Max(Weight(s[0]), Weight(rest[0]));
      DescendingAtMost(rest, w);
      InsertSortedCorrect(s[0], rest, w);
      InsertSortedContents(s[0], rest);
      assert s == [s[0]] + s[1..];
    }
    assert |multiset(Sorted(s))| == |multiset(s)|;
  }

  /** Some descending order of the first `n` items; callers know nothing about ties. */
  method Qsort(items: array<Tree>, n: nat)
    requires n <= items.Length
    modifies items
    ensures Descending(items[..n]) && multiset(items[..n]) == multiset(old(items[..n]))
    ensures items[n..] == old(items[n..])
  {
    var s := Sorted(items[..n]);
    SortedCorrect(items[..n]);
    var i := 0;
    while i < n
      invariant 0 <= i <= n
      invariant forall k :: 0 <= k < i ==> items[k] == s[k]
      invariant items[n..] == old(items[n..])
    {
      items[i] := s[i];
      i := i + 1;
    }
    assert items[..n] == s;
  }

  // ---------- Merging ----------

  lemma {:induction false} PositiveCount(f: seq<Tree>, t: Tree)
    ensures multiset(Positive(f))[t] == if Weight(t) > 0 then multiset(f)[t] else 0
  {
    if f != [] {
      PositiveCount(f[..|f| - 1], t);
      assert f == f[..|f| - 1] + [f[|f| - 1]];
    }
  }

  lemma {:induction false} PositivePermute(f: seq<Tree>, g: seq<Tree>)
    requires multiset(f) == multiset(g)
    ensures multiset(Positive(f)) == multiset(Positive(g))
  {
    forall t: Tree
      ensures multiset(Positive(f))[t] == multiset(Positive(g))[t]
    {
      PositiveCount(f, t);
      PositiveCount(g, t);
    }
  }

  lemma {:induction false} PositiveAll(f: seq<Tree>)
    requires forall i :: 0 <= i < |f| ==> Weight(f[i]) > 0
    ensures Positive(f) == f
  {
    if f != [] {
      PositiveAll(f[..|f| - 1]);
      assert f == f[..|f| - 1] + [f[|f| - 1]];
    }
  }

  lemma {:induction false} PositiveTally(items: seq<Tree>, n: nat)
    requires n <= |items| && AllLeaves(items)
    ensures AllLeaves(Positive(items[..n])) && TotalsOf(Positive(items[..n])).weight == TotalsOf(items[..n]).weight
    ensures forall t :: t in Positive(items[..n]) ==> Weight(t) > 0
  {
    hide TotalsOf, Positive, Weight;
    if n == 0 {
      assert items[..0] == [];
      NoneOccur([]);
    } else {
      PositiveTally(items, n - 1);
      PositiveStep(items, n);
      assert items[..n] == items[..n - 1] + [items[n - 1]];
      TotalsAppend(items[..n - 1], items[n - 1]);
      TotalsAppend(Positive(items[..n - 1]), items[n - 1]);
    }
  }

  lemma {:induction false} PositiveStep(items: seq<Tree>, n: nat)
    requires 1 <= n <= |items|
    ensures Positive(items[..n])
         == if Weight(items[n - 1]) > 0 then Positive(items[..n - 1]) + [items[n - 1]] else Positive(items[..n - 1])
  {
    assert items[..n][..n - 1] == items[..n - 1];
  }

  lemma {:induction false} LeafSymbolsAppend(f: seq<Tree>, x: Tree)
    requires AllLeaves(f) && x.Leaf?
    ensures LeafSymbols(f + [x]) == LeafSymbols(f) + [Symbol(x.num, x.ntimes)]
  {
    assert (f + [x])[..|f|] == f;
  }

  /** How often a symbol is expected among the leaves of the bytes below `n`. */
  ghost function Expected(input: seq<Byte>, n: nat, s: Symbol): nat {
    if s.num < n && s.ntimes > 0 && s.ntimes == multiset(input)[s.num] then 1 else 0
  }

  lemma {:induction false} ExpectedStep(input: seq<Byte>, n: nat, s: Symbol, syms: seq<Symbol>)
    requires 0 <= n < 256 && multiset(syms)[s] == Expected(input, n, s)
    ensures var c := multiset(input)[n];
            if c > 0 then multiset(syms + [Symbol(n, c)])[s] == Expected(input, n + 1, s)
            else multiset(syms)[s] == Expected(input, n + 1, s)
  {
    var x := Symbol(n, multiset(input)[n]);
    assert multiset(syms + [x])[s] == multiset(syms)[s] + multiset{x}[s];
  }

  lemma {:induction false} TallySymbols(items: seq<Tree>, input: seq<Byte>, n: nat, s: Symbol)
    requires Tally(items, input) && n <= 256
    ensures AllLeaves(Positive(items[..n]))
    ensures multiset(LeafSymbols(Positive(items[..n])))[s] == Expected(input, n, s)
  {
    hide Positive, LeafSymbols, TotalsOf, Expected, Symbols;
    assert AllLeaves(items);
    PositiveTally(items, n);
    if n > 0 {
      TallySymbols(items, input, n - 1, s);
      PositiveStep(items, n);
      TallyAt(items, input, n - 1);
      var f := Positive(items[..n - 1]);
      ExpectedStep(input, n - 1, s, LeafSymbols(f));
      if multiset(input)[n - 1] > 0 {
        LeafSymbolsAppend(f, items[n - 1]);
      }
    } else {
      EmptySymbols(items);
      ExpectedNone(input, s);
    }
  }

  lemma {:induction false} ExpectedNone(input: seq<Byte>, s: Symbol)
    ensures Expected(input, 0, s) == 0
  {
  }

  lemma {:induction false} TallyAt(items: seq<Tree>, input: seq<Byte>, b: nat)
    requires Tally(items, input) && b < 256
    ensures items[b] == Leaf(b, multiset(input)[b]) && Weight(items[b]) == multiset(input)[b]
  {
  }

  lemma {:induction false} EmptySymbols(items: seq<Tree>)
    ensures Positive(items[..0]) == [] && LeafSymbols([]) == []
  {
  }

  lemma {:induction false} GreedyStart(f0: seq<Tree>)
    requires AllLeaves(f0) && forall t :: t in f0 ==> Weight(t) > 0
    ensures GreedyForest(f0, f0)
  {
    LeafTotals(f0);
    ReducesNothing(TotalsOf(f0).weights);
  }

  /** The tree left at the end has exactly the symbols of the input. */
  lemma {:induction false} EndCovers(items: seq<Tree>, input: seq<Byte>, t: Tree)
    requires Tally(items, input)
    requires multiset(Symbols(t)) == TotalsOf(Positive(items)).symbols
    ensures Covers(input, t)
  {
    hide TotalsOf, Positive, LeafSymbols, Symbols;
    assert items[..256] == items && AllLeaves(items);
    PositiveTally(items, 256);
    LeafTotals(Positive(items));
    forall s: Symbol
      ensures multiset(Symbols(t))[s] == if s.ntimes > 0 && s.ntimes == multiset(input)[s.num] then 1 else 0
    {
      TallySymbols(items, input, 256, s);
    }
    forall s | s in Symbols(t)
      ensures s.ntimes > 0 && s.ntimes == multiset(input)[s.num]
    {
      assert multiset(Symbols(t))[s] > 0;
    }
    forall b: Byte | b in input
      ensures multiset(Symbols(t))[Symbol(b, multiset(input)[b])] == 1
    {
      assert multiset(input)[b] > 0;
    }
  }

  /** ... and is a cheapest tree of it. */
  lemma {:induction false} GreedyEnd(items: seq<Tree>, input: seq<Byte>, t: Tree)
    requires Tally(items, input) && TotalsOf(items).weight == |input| > 0
    requires GreedyForest(Positive(items), [t])
    ensures HuffmanTree(input, t)
  {
    hide Reduces, TotalsOf, Positive, Covers, Balanced, Cost;
    assert items[..256] == items && AllLeaves(items);
    PositiveTally(items, 256);
    var f0 := Positive(items);
    SingleTotals(t);
    EndCovers(items, input, t);
    assert t in [t];
    forall u | multiset(Symbols(u)) == multiset(Symbols(t))
      ensures Cost(t) <= Cost(u)
    {
      LastOneIsOptimal(f0, t, u);
    }
  }

  lemma {:induction false} SingleTotals(t: Tree)
    ensures TotalsOf([t]).symbols == multiset(Symbols(t)) && TotalsOf([t]).weight == Weight(t)
  {
    assert [t] == [] + [t];
    TotalsAppend([], t);
  }

  // ---------- Every tree the merging may build ----------

  /** The items in descending order, ties in any order. */
  ghost predicate Sorting(f: seq<Tree>, g: seq<Tree>) {
    |g| == |f| && multiset(g) == multiset(f) && Descending(g)
  }

  /** Sorting in some way and merging the last two, again and again, may end with `t`. */
  ghost predicate GreedyRun(f: seq<Tree>, t: Tree)
    decreases |f|
  {
    || (|f| == 1 && f[0] == t)
    || (|f| >= 2 && exists g :: Sorting(f, g) && GreedyRun(Merged(g), t))
  }

  ghost function TallyOf(input: seq<Byte>): (items: seq<Tree>)
    ensures Tally(items, input)
  {
    seq(256, b requires 0 <= b < 256 => Leaf(b, multiset(input)[b]))
  }

  /** A tree that the compressor may build for `input`. */
  ghost predicate MayBuild(input: seq<Byte>, t: Tree) {
    GreedyRun(Positive(TallyOf(input)), t)
  }

  lemma {:induction false} TallyWeight(input: seq<Byte>)
    ensures TotalsOf(TallyOf(input)).weight == |input|
  {
    hide TotalsOf;
    if input == [] {
      NothingWeighsNothing(TallyOf(input));
    } else {
      var init, x := input[..|input| - 1], input[|input| - 1];
      TallyWeight(init);
      assert input == init + [x];
      var old_, new_ := TallyOf(init), TallyOf(input);
      assert new_ == old_[x := Leaf(x, multiset(init)[x] + 1)];
      TotalsReplace(old_, x, Leaf(x, multiset(init)[x] + 1));
    }
  }

  lemma {:induction false} RunStaysGreedy(f0: seq<Tree>, f: seq<Tree>, t: Tree)
    requires GreedyForest(f0, f) && GreedyRun(f, t)
    ensures GreedyForest(f0, [t])
    decreases |f|
  {
    hide GreedyForest;
    if |f| == 1 && f[0] == t {
      assert f == [t];
    } else {
      var g :| Sorting(f, g) && GreedyRun(Merged(g), t);
      GreedyPermute(f0, f, g);
      MergeKeepsGreedy(f0, g);
      RunStaysGreedy(f0, Merged(g), t);
    }
  }

  /** Whatever the ties, every tree that the merging may build covers exactly the bytes that occur,
      is balanced, and costs no more than any tree over the same symbols. */
  lemma {:induction false} GreedyIsOptimal(input: seq<Byte>, t: Tree)
    requires input != [] && MayBuild(input, t)
    ensures HuffmanTree(input, t)
  {
    hide GreedyForest, Positive, HuffmanTree, TotalsOf, Tally;
    var tally := TallyOf(input);
    TallyStart(tally, input);
    TallyWeight(input);
    RunStaysGreedy(Positive(tally), Positive(tally), t);
    GreedyEnd(tally, input, t);
  }

  lemma {:induction false} NoneOccur(f: seq<Tree>)
    requires forall i :: 0 <= i < |f| ==> Weight(f[i]) == 0
    ensures Positive(f) == []
  {
    if f != [] { NoneOccur(f[..|f| - 1]); }
  }

  /** There is no tree for the empty input. */
  lemma {:induction false} SomeInput(input: seq<Byte>, t: Tree)
    requires MayBuild(input, t)
    ensures input != []
  {
    if input == [] { NoneOccur(TallyOf(input)); }
  }

  /** What may be built from `f` may be built from `f0`. */
  ghost predicate Continues(f0: seq<Tree>, f: seq<Tree>) {
    forall t :: GreedyRun(f, t) ==> GreedyRun(f0, t)
  }

  lemma {:induction false} RunPermute(f: seq<Tree>, g: seq<Tree>, t: Tree)
    requires multiset(f) == multiset(g) && GreedyRun(g, t)
    ensures GreedyRun(f, t)
  {
    hide Descending;
    assert |f| == |multiset(f)| == |g|;
    if |g| == 1 && g[0] == t {
      assert f[0] in multiset(g);
    } else {
      var h :| Sorting(g, h) && GreedyRun(Merged(h), t);
      assert Sorting(f, h);
    }
  }

  lemma {:induction false} ContinuesPermuted(f0: seq<Tree>, f: seq<Tree>, g: seq<Tree>)
    requires Continues(f0, f) && multiset(f) == multiset(g)
    ensures Continues(f0, g)
  {
    hide GreedyRun;
    forall t | GreedyRun(g, t)
      ensures GreedyRun(f0, t)
    {
      RunPermute(f, g, t);
    }
  }

  /** One pass of the merging loop, from sorted items to items sorted again. */
  lemma {:induction false} PassContinues(f0: seq<Tree>, f: seq<Tree>, g: seq<Tree>)
    requires |f| >= 2 && Descending(f) && Weight(f[|f| - 1]) > 0 && Continues(f0, Positive(f))
    requires multiset(g) == multiset(Merged(f))
    ensures Positive(g) == g && Continues(f0, g)
  {
    hide Positive;
    PositiveAll(f);
    forall t | GreedyRun(Merged(f), t)
      ensures GreedyRun(f0, t)
    {
      assert Sorting(f, f);
      assert GreedyRun(f, t);
    }
    ContinuesPermuted(f0, Merged(f), g);
    MergedPositive(f, g);
    PositiveAll(g);
  }

  lemma {:induction false} MergedPositive(f: seq<Tree>, g: seq<Tree>)
    requires |f| >= 2 && Descending(f) && Weight(f[|f| - 1]) > 0 && multiset(g) == multiset(Merged(f))
    ensures forall i :: 0 <= i < |g| ==> Weight(g[i]) > 0
  {
    forall i | 0 <= i < |g|
      ensures Weight(g[i]) > 0
    {
      assert g[i] in multiset(Merged(f));
      var j :| 0 <= j < |Merged(f)| && Merged(f)[j] == g[i];
      assert Weight(f[|f| - 2]) > 0;
    }
  }

  /** One pass of the loop: nothing for an item that does not occur, a merge and a sort otherwise. */
  method MergePass(items: array<Tree>, i: nat, ghost f0: seq<Tree>)
    requires 0 < i < items.Length
    requires Descending(items[..i + 1]) && Positive(items[..i + 1]) != [] && Continues(f0, Positive(items[..i + 1]))
    modifies items
    ensures Descending(items[..i]) && Positive(items[..i]) != [] && Continues(f0, Positive(items[..i]))
  {
    hide Continues, Positive;
    ghost var f := items[..i + 1];
    if Weight(items[i]) == 0 {
      SkipZero(f);
      assert f[..i] == items[..i];
    } else {
      var left, right := items[i - 1], items[i];
      items[i - 1] := Node(left, right);
      assert items[..i] == Merged(f);
      Qsort(items, i);
      PassContinues(f0, f, items[..i]);
    }
  }

  /** The compressor's tree, for every non-empty input: one that the merging may build, and so a
      cheapest one. */
  method BuildTree(input: seq<Byte>) returns (head: Tree)
    requires input != []
    ensures MayBuild(input, head) && HuffmanTree(input, head)
  {
    hide Continues, Positive, HuffmanTree, TotalsOf, Descending, Tally, GreedyRun;
    var items := CountNumbers(input);
    ghost var f0 := Positive(TallyOf(input));
    SameTally(items[..], input);
    SomethingOccurs(input);
    ContinuesAtStart(f0);
    ghost var tally := items[..];
    Qsort(items, 256);
    assert items[..256] == items[..] && tally[..256] == tally;
    PositivePermute(tally, items[..]);
    ContinuesPermuted(f0, f0, Positive(items[..]));
    StillSomething(f0, Positive(items[..]));
    var i := 255;
    while i > 0
      invariant 0 <= i <= 255 && items.Length == 256 && Descending(items[..i + 1])
      invariant Positive(items[..i + 1]) != [] && Continues(f0, Positive(items[..i + 1]))
    {
      MergePass(items, i, f0);
      i := i - 1;
    }
    head := items[0];
    assert items[..1] == [head];
    OneIsLeft(f0, head);
    GreedyIsOptimal(input, head);
  }

  lemma {:induction false} SameTally(items: seq<Tree>, input: seq<Byte>)
    requires Tally(items, input)
    ensures items == TallyOf(input) && |items| == 256
  {
  }

  lemma {:induction false} SomethingOccurs(input: seq<Byte>)
    requires input != []
    ensures Positive(TallyOf(input)) != []
  {
    hide TotalsOf, Positive;
    var tally := TallyOf(input);
    assert tally[..256] == tally && AllLeaves(tally);
    TallyWeight(input);
    PositiveTally(tally, 256);
    NoTotals();
  }

  lemma {:induction false} NoTotals()
    ensures TotalsOf([]).weight == 0
  {
  }

  lemma {:induction false} StillSomething(f: seq<Tree>, g: seq<Tree>)
    requires multiset(f) == multiset(g) && f != []
    ensures g != []
  {
    assert f[0] in multiset(g);
  }

  lemma {:induction false} ContinuesAtStart(f0: seq<Tree>)
    ensures Continues(f0, f0)
  {
  }

  lemma {:induction false} OneIsLeft(f0: seq<Tree>, t: Tree)
    requires Continues(f0, Positive([t])) && Positive([t]) != []
    ensures GreedyRun(f0, t)
  {
    assert [t][..0] == [];
    assert Positive([t]) == [t];
    assert GreedyRun([t], t);
  }

  lemma {:induction false} TallyStart(tally: seq<Tree>, input: seq<Byte>)
    requires Tally(tally, input)
    ensures |tally| == 256 && GreedyForest(Positive(tally), Positive(tally))
  {
    hide Positive, GreedyForest;
    assert tally[..256] == tally && AllLeaves(tally);
    PositiveTally(tally, 256);
    GreedyStart(Positive(tally));
  }

  lemma {:induction false} SkipZero(f: seq<Tree>)
    requires f != [] && Weight(f[|f| - 1]) == 0
    ensures Positive(f) == Positive(f[..|f| - 1])
  {
  }
}
