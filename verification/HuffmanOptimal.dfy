/**
 Code trees and their cost, and why merging two lightest trees is never a mistake.

 A tree's shape and the weights at its leaves are kept apart, so that exchanging two leaves is
 exchanging two numbers in a sequence.
 */
module HuffmanOptimal {
  import opened Basics

  /** An `item_t`: a byte with its number of occurrences, or two items merged. */
  datatype Tree = Leaf(num: Byte, ntimes: nat) | Node(left: Tree, right: Tree)

  function Weight(t: Tree): nat {
    match t case Leaf(_, n) => n case Node(l, r) => Weight(l) + Weight(r)
  }

  /** Occurrences times depth, summed over the leaves: the bits of the packed file. */
  function Cost(t: Tree): nat {
    match t case Leaf(_, _) => 0 case Node(l, r) => Cost(l) + Cost(r) + Weight(l) + Weight(r)
  }

  function Weights(t: Tree): seq<nat> {
    match t case Leaf(_, n) => [n] case Node(l, r) => Weights(l) + Weights(r)
  }

  // ---------- Shapes ----------

  datatype Shape = Tip | Fork(left: Shape, right: Shape)

  function Tips(s: Shape): (n: nat)
    ensures n >= 1
  {
    match s case Tip => 1 case Fork(l, r) => Tips(l) + Tips(r)
  }

  /** The depths of the tips from left to right, the root being at depth `d`. */
  function Depths(s: Shape, d: nat): (ds: seq<nat>)
    ensures |ds| == Tips(s)
  {
    match s case Tip => [d] case Fork(l, r) => Depths(l, d + 1) + Depths(r, d + 1)
  }

  function ShapeOf(t: Tree): Shape {
    match t case Leaf(_, _) => Tip case Node(l, r) => Fork(ShapeOf(l), ShapeOf(r))
  }

  function Dot(ds: seq<nat>, ws: seq<nat>): nat
    requires |ds| == |ws|
  {
    if ds == [] then 0 else ds[0] * ws[0] + Dot(ds[1..], ws[1..])
  }

  lemma {:induction false} DotAppend(a: seq<nat>, b: seq<nat>, v: seq<nat>, w: seq<nat>)
    requires |a| == |v| && |b| == |w|
    ensures Dot(a + b, v + w) == Dot(a, v) + Dot(b, w)
  {
    if a == [] {
      assert a + b == b && v + w == w;
    } else {
      assert (a + b)[1..] == a[1..] + b && (v + w)[1..] == v[1..] + w;
      DotAppend(a[1..], b, v[1..], w);
    }
  }

  lemma {:induction false} DotUpdate(ds: seq<nat>, ws: seq<nat>, i: nat, v: nat)
    requires |ds| == |ws| && i < |ds|
    ensures Dot(ds, ws[i := v]) == Dot(ds, ws) + ds[i] * v - ds[i] * ws[i]
  {
    if i > 0 {
      assert ws[i := v][1..] == ws[1..][i - 1 := v];
      DotUpdate(ds[1..], ws[1..], i - 1, v);
    } else {
      assert ws[0 := v][1..] == ws[1..];
    }
  }

  /** Lowering a tree by one level costs its weight once more. */
  lemma {:induction false} CostIsDot(t: Tree, d: nat)
    ensures |Weights(t)| == Tips(ShapeOf(t))
    ensures Dot(Depths(ShapeOf(t), d), Weights(t)) == Cost(t) + d * Weight(t)
  {
    match t
    case Leaf(_, n) =>
      assert [d][1..] == [] && [n][1..] == [];
    case Node(l, r) =>
      CostIsDot(l, d + 1);
      CostIsDot(r, d + 1);
      DotAppend(Depths(ShapeOf(l), d + 1), Depths(ShapeOf(r), d + 1), Weights(l), Weights(r));
      LevelDown(d, Weight(l), Weight(r));
  }

  lemma {:induction false} LevelDown(d: int, x: int, y: int)
    ensures (d + 1) * x + (d + 1) * y == d * (x + y) + x + y
  {
  }

  // ---------- Two deepest siblings, and joining them ----------

  predicate Siblings(s: Shape, k: nat) {
    s.Fork? &&
    (|| (s.left.Tip? && s.right.Tip? && k == 0)
     || (k + 1 < Tips(s.left) && Siblings(s.left, k))
     || (k >= Tips(s.left) && Siblings(s.right, k - Tips(s.left))))
  }

  lemma {:induction false} SiblingsInRange(s: Shape, k: nat)
    requires Siblings(s, k)
    ensures k + 1 < Tips(s)
  {
    if k + 1 < Tips(s.left) && Siblings(s.left, k) {
    } else if k >= Tips(s.left) && Siblings(s.right, k - Tips(s.left)) {
      SiblingsInRange(s.right, k - Tips(s.left));
    }
  }

  function Deepest(s: Shape): nat {
    match s case Tip => 0 case Fork(l, r) => 1 + if Deepest(l) < Deepest(r) then Deepest(r) else Deepest(l)
  }

  lemma {:induction false} DepthsBounded(s: Shape, d: nat, i: nat)
    requires i < Tips(s)
    ensures d <= Depths(s, d)[i] <= d + Deepest(s)
  {
    if s.Fork? {
      if i < Tips(s.left) { DepthsBounded(s.left, d + 1, i); }
      else { DepthsBounded(s.right, d + 1, i - Tips(s.left)); }
    }
  }

  lemma {:induction false} DepthsSplit(s: Shape, d: nat, k: nat)
    requires s.Fork? && k < Tips(s)
    ensures k < Tips(s.left) ==> Depths(s, d)[k] == Depths(s.left, d + 1)[k]
    ensures k >= Tips(s.left) ==> Depths(s, d)[k] == Depths(s.right, d + 1)[k - Tips(s.left)]
  {
  }

  /** Some two siblings lie as deep as anything. */
  lemma {:induction false} DeepestPair(s: Shape, d: nat) returns (k: nat)
    requires s.Fork?
    ensures Siblings(s, k) && k + 1 < Tips(s)
    ensures Depths(s, d)[k] == Depths(s, d)[k + 1] == d + Deepest(s)
  {
    hide Depths, Siblings;
    if s.left.Tip? && s.right.Tip? {
      k := 0;
      TwoTipDepths(d);
    } else if Deepest(s.left) < Deepest(s.right) {
      var j := DeepestPair(s.right, d + 1);
      k := Tips(s.left) + j;
      SiblingsBelow(s, k);
      DepthsSplit(s, d, k);
      DepthsSplit(s, d, k + 1);
    } else {
      k := DeepestPair(s.left, d + 1);
      SiblingsBelow(s, k);
      DepthsSplit(s, d, k);
      DepthsSplit(s, d, k + 1);
    }
  }

  lemma {:induction false} SiblingsBelow(s: Shape, k: nat)
    ensures s.Fork? && k + 1 < Tips(s.left) && Siblings(s.left, k) ==> Siblings(s, k)
    ensures s.Fork? && k >= Tips(s.left) && Siblings(s.right, k - Tips(s.left)) ==> Siblings(s, k)
  {
  }

  lemma {:induction false} TwoTipDepths(d: nat)
    ensures Depths(Fork(Tip, Tip), d) == [d + 1, d + 1] && Siblings(Fork(Tip, Tip), 0)
  {
  }

  /** The shape with the siblings at `k` joined into one tip. */
  function Join(s: Shape, k: nat): (r: Shape)
    requires Siblings(s, k)
    ensures Tips(r) == Tips(s) - 1
  {
    if s.left.Tip? && s.right.Tip? then Tip
    else if k + 1 < Tips(s.left) then Fork(Join(s.left, k), s.right)
    else Fork(s.left, Join(s.right, k - Tips(s.left)))
  }

  lemma {:induction false} JoinDepths(s: Shape, d: nat, k: nat)
    requires Siblings(s, k) && k + 1 < Tips(s)
    ensures var ds := Depths(s, d);
            ds[k] == ds[k + 1] > d && Depths(Join(s, k), d) == Joined(ds, k)
  {
    hide Depths;
    var left, right := Depths(s.left, d + 1), Depths(s.right, d + 1);
    ForkDepths(s, d);
    if s.left.Tip? && s.right.Tip? {
      TwoTipDepths(d);
      TipDepths(d);
    } else if k + 1 < Tips(s.left) {
      JoinDepths(s.left, d + 1, k);
      ForkDepths(Join(s, k), d);
      JoinLeft(left, right, k);
    } else {
      SiblingsInRange(s.right, k - Tips(s.left));
      JoinDepths(s.right, d + 1, k - Tips(s.left));
      ForkDepths(Join(s, k), d);
      JoinRight(left, right, k);
    }
  }

  lemma {:induction false} ForkDepths(s: Shape, d: nat)
    ensures s.Fork? ==> Depths(s, d) == Depths(s.left, d + 1) + Depths(s.right, d + 1)
  {
  }

  lemma {:induction false} TipDepths(d: nat)
    ensures Depths(Tip, d) == [d]
  {
  }

  function Joined(ds: seq<nat>, k: nat): seq<nat>
    requires k + 1 < |ds| && ds[k] > 0
  {
    ds[..k] + [ds[k] - 1] + ds[k + 2..]
  }

  lemma {:induction false} JoinLeft(left: seq<nat>, right: seq<nat>, k: nat)
    requires k + 1 < |left| && left[k] > 0
    ensures Joined(left, k) + right == Joined(left + right, k)
  {
  }

  lemma {:induction false} JoinRight(left: seq<nat>, right: seq<nat>, k: nat)
    requires |left| <= k && k + 1 < |left| + |right| && right[k - |left|] > 0
    ensures left + Joined(right, k - |left|) == Joined(left + right, k)
  {
  }

  /** Joining saves the two weights once. */
  lemma {:induction false} JoinCost(s: Shape, ws: seq<nat>, k: nat)
    requires |ws| == Tips(s) && Siblings(s, k) && k + 1 < Tips(s)
    ensures var joined := ws[..k] + [ws[k] + ws[k + 1]] + ws[k + 2..];
            |joined| == Tips(Join(s, k)) && Dot(Depths(Join(s, k), 0), joined) + ws[k] + ws[k + 1] == Dot(Depths(s, 0), ws)
  {
    hide Depths, Dot;
    JoinDepths(s, 0, k);
    JoinDot(Depths(s, 0), ws, k);
  }

  lemma {:induction false} JoinDot(ds: seq<nat>, ws: seq<nat>, k: nat)
    requires |ds| == |ws| && k + 1 < |ds| && ds[k] == ds[k + 1] > 0
    ensures var joined := ws[..k] + [ws[k] + ws[k + 1]] + ws[k + 2..];
            |joined| == |Joined(ds, k)| && Dot(Joined(ds, k), joined) + ws[k] + ws[k + 1] == Dot(ds, ws)
  {
    hide Dot;
    var x, p, q := ds[k], ws[k], ws[k + 1];
    var before, after := ds[..k], ds[k + 2..];
    assert ds == (before + [x, x]) + after && ws == (ws[..k] + [p, q]) + ws[k + 2..];
    DotAppend(before + [x, x], after, ws[..k] + [p, q], ws[k + 2..]);
    DotAppend(before, [x, x], ws[..k], [p, q]);
    DotAppend(before + [x - 1], after, ws[..k] + [p + q], ws[k + 2..]);
    DotAppend(before, [x - 1], ws[..k], [p + q]);
    TwoTips(x, p, q);
  }

  lemma {:induction false} TwoTips(x: nat, p: nat, q: nat)
    requires x > 0
    ensures Dot([x, x], [p, q]) == Dot([x - 1], [p + q]) + p + q
  {
    assert [x, x][1..] == [x] && [p, q][1..] == [q] && [x][1..] == [] && [q][1..] == [];
    assert [x - 1][1..] == [] && [p + q][1..] == [];
    assert (x - 1) * (p + q) + p + q == x * p + x * q;
  }

  // ---------- Exchanging leaves ----------

  function Swap(ws: seq<nat>, i: nat, j: nat): (r: seq<nat>)
    requires i < |ws| && j < |ws|
    ensures |r| == |ws|
  {
    ws[i := ws[j]][j := ws[i]]
  }

  lemma {:induction false} SwapContents(ws: seq<nat>, i: nat, j: nat)
    requires i < |ws| && j < |ws|
    ensures multiset(Swap(ws, i, j)) == multiset(ws)
  {
  }

  /** Moving a lighter weight deeper never costs more. */
  lemma {:induction false} SwapCost(ds: seq<nat>, ws: seq<nat>, i: nat, j: nat)
    requires |ds| == |ws| && i < |ws| && j < |ws| && ds[i] <= ds[j] && ws[i] <= ws[j]
    ensures Dot(ds, Swap(ws, i, j)) <= Dot(ds, ws)
  {
    if i == j {
      assert Swap(ws, i, j) == ws;
    } else {
      DotUpdate(ds, ws, i, ws[j]);
      DotUpdate(ds, ws[i := ws[j]], j, ws[i]);
      Rearrange(ds[i], ds[j], ws[i], ws[j]);
    }
  }

  lemma {:induction false} Rearrange(d: int, e: int, v: int, w: int)
    requires d <= e && v <= w
    ensures d * w + e * v <= d * v + e * w
  {
    assert (e - d) * (w - v) >= 0;
  }

  // ---------- The exchange argument ----------

  /** A shape with the weights of `bag` at its tips. */
  ghost predicate Fits(s: Shape, ws: seq<nat>, bag: multiset<nat>) {
    Tips(s) == |ws| && multiset(ws) == bag
  }

  /** `a` and `b` are the two lightest, `rest` is everything else. */
  ghost predicate TwoLightest(a: nat, b: nat, rest: multiset<nat>) {
    a <= b && forall x :: x in rest ==> b <= x
  }

  lemma {:induction false} PositionOf(ws: seq<nat>, x: nat) returns (i: nat)
    requires x in multiset(ws)
    ensures i < |ws| && ws[i] == x
  {
    i :| i < |ws| && ws[i] == x;
  }

  /** The weights rearranged so that the two lightest sit at `k` and `k + 1`. */
  lemma {:induction false} BringDown(ds: seq<nat>, ws: seq<nat>, a: nat, b: nat, rest: multiset<nat>, k: nat) returns (r: seq<nat>)
    requires |ds| == |ws| && k + 1 < |ws| && multiset(ws) == rest + multiset{a, b} && TwoLightest(a, b, rest)
    requires ds[k] == ds[k + 1] && forall i :: 0 <= i < |ds| ==> ds[i] <= ds[k]
    ensures |r| == |ws| && multiset(r) == multiset(ws) && r[k] == a && r[k + 1] == b && Dot(ds, r) <= Dot(ds, ws)
  {
    hide Dot;
    var i := PositionOf(ws, a);
    assert ws[k] in multiset(ws);
    var mid := BringOne(ds, ws, i, k);
    var j := SecondLightest(mid, a, b, rest, k);
    r := BringOne(ds, mid, j, k + 1);
  }

  /** One weight exchanged with a heavier one further down. */
  lemma {:induction false} BringOne(ds: seq<nat>, ws: seq<nat>, i: nat, k: nat) returns (r: seq<nat>)
    requires |ds| == |ws| && i < |ws| && k < |ws| && ds[i] <= ds[k] && ws[i] <= ws[k]
    ensures |r| == |ws| && multiset(r) == multiset(ws) && r[k] == ws[i] && Dot(ds, r) <= Dot(ds, ws)
    ensures forall m :: 0 <= m < |r| && m != i && m != k ==> r[m] == ws[m]
  {
    hide Dot;
    SwapCost(ds, ws, i, k);
    SwapContents(ws, i, k);
    r := Swap(ws, i, k);
  }

  /** With `a` at `k`, some other position holds `b`, and what is at `k + 1` is no lighter. */
  lemma {:induction false} SecondLightest(ws: seq<nat>, a: nat, b: nat, rest: multiset<nat>, k: nat) returns (j: nat)
    requires k + 1 < |ws| && ws[k] == a && multiset(ws) == rest + multiset{a, b} && TwoLightest(a, b, rest)
    ensures j < |ws| && j != k && ws[j] == b && b <= ws[k + 1]
  {
    var before, after := ws[..k], ws[k + 1..];
    assert ws == before + [a] + after;
    OthersAre(before, after, a, b, rest);
    assert ws[k + 1] == after[0] && after[0] in after;
    var i := PositionOf(before + after, b);
    if i < k {
      j := i;
      assert ws[j] == before[i];
    } else {
      j := i + 1;
      assert ws[j] == after[i - k];
    }
  }

  lemma {:induction false} OthersAre(before: seq<nat>, after: seq<nat>, a: nat, b: nat, rest: multiset<nat>)
    requires multiset(before + [a] + after) == rest + multiset{a, b} && TwoLightest(a, b, rest)
    ensures b in before + after && forall x :: x in after ==> b <= x
  {
    var others := multiset(before + after);
    assert multiset(before + [a] + after) == others + multiset{a};
    assert rest + multiset{a, b} == (rest + multiset{b}) + multiset{a};
    RemoveSame(others, rest + multiset{b}, a);
    assert b in others;
    forall x | x in after
      ensures b <= x
    {
      assert x in before + after;
      assert x in others;
    }
  }

  /** However a tree arranges its weights, there is one over the weights with the two lightest
      merged that, with that merge paid for, costs no more. */
  lemma {:induction false} MergeLightest(s: Shape, ws: seq<nat>, a: nat, b: nat, rest: multiset<nat>)
      returns (s': Shape, ws': seq<nat>)
    requires Fits(s, ws, rest + multiset{a, b}) && TwoLightest(a, b, rest)
    ensures Fits(s', ws', rest + multiset{a + b})
    ensures Dot(Depths(s', 0), ws') + a + b <= Dot(Depths(s, 0), ws)
  {
    hide Depths, Dot, Siblings, Deepest;
    assert |ws| == |multiset(ws)| == |rest| + 2;
    var ds := Depths(s, 0);
    var k := DeepestPair(s, 0);
    forall i | 0 <= i < |ds|
      ensures ds[i] <= ds[k]
    {
      DepthsBounded(s, 0, i);
    }
    var down := BringDown(ds, ws, a, b, rest, k);
    JoinCost(s, down, k);
    s', ws' := Join(s, k), down[..k] + [a + b] + down[k + 2..];
    JoinedContents(down, k, a, b, rest);
  }

  lemma {:induction false} JoinedContents(ws: seq<nat>, k: nat, a: nat, b: nat, rest: multiset<nat>)
    requires k + 1 < |ws| && ws[k] == a && ws[k + 1] == b && multiset(ws) == rest + multiset{a, b}
    ensures multiset(ws[..k] + [a + b] + ws[k + 2..]) == rest + multiset{a + b}
  {
    var outer := multiset(ws[..k]) + multiset(ws[k + 2..]);
    assert ws == ws[..k] + [a, b] + ws[k + 2..];
    assert multiset(ws) == outer + multiset{a, b};
    forall x: nat
      ensures outer[x] == rest[x]
    {
      assert (outer + multiset{a, b})[x] == (rest + multiset{a, b})[x];
    }
  }

  // ---------- From one merge to a whole run ----------

  /** Every arrangement of `from` is matched by one of `to`, when `paid` is added to it. */
  ghost predicate Reduces(from: multiset<nat>, to: multiset<nat>, paid: nat) {
    forall s, ws {:trigger Fits(s, ws, from)} :: Fits(s, ws, from) ==>
      exists s', ws' :: Fits(s', ws', to) && Dot(Depths(s', 0), ws') + paid <= Dot(Depths(s, 0), ws)
  }

  lemma {:induction false} ReducesNothing(bag: multiset<nat>)
    ensures Reduces(bag, bag, 0)
  {
  }

  lemma {:induction false} ReducesStep(from: multiset<nat>, rest: multiset<nat>, a: nat, b: nat, paid: nat)
    requires Reduces(from, rest + multiset{a, b}, paid) && TwoLightest(a, b, rest)
    ensures Reduces(from, rest + multiset{a + b}, paid + a + b)
  {
    forall s, ws | Fits(s, ws, from)
      ensures exists s', ws' :: Fits(s', ws', rest + multiset{a + b})
                && Dot(Depths(s', 0), ws') + (paid + a + b) <= Dot(Depths(s, 0), ws)
    {
      var s1, ws1 :| Fits(s1, ws1, rest + multiset{a, b}) && Dot(Depths(s1, 0), ws1) + paid <= Dot(Depths(s, 0), ws);
      var s2, ws2 := MergeLightest(s1, ws1, a, b, rest);
      assert Fits(s2, ws2, rest + multiset{a + b});
    }
  }

  /** Once everything is merged into one, what was paid is the least possible cost. */
  lemma {:induction false} PaidIsLeast(from: multiset<nat>, total: nat, paid: nat, t: Tree)
    requires Reduces(from, multiset{total}, paid) && multiset(Weights(t)) == from
    ensures paid <= Cost(t)
  {
    CostIsDot(t, 0);
    assert Fits(ShapeOf(t), Weights(t), from);
    var s, ws :| Fits(s, ws, multiset{total}) && Dot(Depths(s, 0), ws) + paid <= Dot(Depths(ShapeOf(t), 0), Weights(t));
  }
}
