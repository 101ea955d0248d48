/**
 The array heap behind the timer queue.  Slot 0 of the vector is unused, the heap proper is
 `heap[1..size + 1]`, and elements are moved with the hole technique: slots are overwritten
 along a path and the travelling element is stored once, at the end.

 The functions describe one operation on the vector, the theorems are about them and about
 whole runs of operations, and class `BinaryHeap` is the mutable object with its loops.
 */
module BinaryHeaps {

  /** The laws of a strict weak order, at three elements. */
  ghost predicate Laws<T>(less: (T, T) -> bool, a: T, b: T, c: T) {
    && !less(a, a)
    && (less(a, b) && less(b, c) ==> less(a, c))
    && (less(a, c) ==> less(a, b) || less(b, c))
  }

  ghost predicate StrictWeakOrder<T(!new)>(less: (T, T) -> bool) {
    forall a, b, c :: Laws(less, a, b, c)
  }

  datatype Heap<T> = Heap(slots: seq<T>, size: nat) {
    /** What every operation relies on; false only after `clear()` or for capacity 0. */
    predicate Valid() { size < |slots| }

    ghost function Elements(): multiset<T>
      requires Valid()
    {
      Live(slots, size)
    }
  }

  /** The contents of slots 1 to `n`. */
  ghost function Live<T>(s: seq<T>, n: nat): multiset<T>
    requires n < |s|
  {
    if n == 0 then multiset{} else Live(s, n - 1) + multiset{s[n]}
  }

  /** The tree in the array. */
  predicate IsChild(parent: nat, child: nat) {
    1 <= parent && (child == parent * 2 || child == parent * 2 + 1)
  }

  /** No element with its parent at `k` or beyond is smaller than that parent. */
  ghost predicate OrderedFrom<T(!new)>(less: (T, T) -> bool, h: Heap<T>, k: nat)
    requires h.Valid()
  {
    forall p: nat, c: nat {:trigger IsChild(p, c)} ::
      k <= p && IsChild(p, c) && c <= h.size ==> !less(h.slots[c], h.slots[p])
  }

  ghost predicate Ordered<T(!new)>(less: (T, T) -> bool, h: Heap<T>)
    requires h.Valid()
  {
    OrderedFrom(less, h, 1)
  }

  // ---------- The operations ----------

  function SiftUp<T>(less: (T, T) -> bool, s: seq<T>, hole: nat, x: T): (r: seq<T>)
    requires 1 <= hole < |s|
    ensures |r| == |s|
    decreases hole
  {
    if hole > 1 && less(x, s[hole / 2]) then SiftUp(less, s[hole := s[hole / 2]], hole / 2, x)
    else s[hole := x]
  }

  function SmallerChild<T>(less: (T, T) -> bool, s: seq<T>, size: nat, hole: nat): (c: nat)
    requires 1 <= hole && hole * 2 <= size < |s|
    ensures hole < c <= size && c / 2 == hole
  {
    if hole * 2 != size && less(s[hole * 2 + 1], s[hole * 2]) then hole * 2 + 1 else hole * 2
  }

  function SiftDown<T>(less: (T, T) -> bool, s: seq<T>, size: nat, hole: nat, tmp: T): (r: seq<T>)
    requires 1 <= hole < |s| && size < |s|
    ensures |r| == |s|
    decreases |s| - hole
  {
    if hole * 2 <= size then
      var child := SmallerChild(less, s, size, hole);
      if less(s[child], tmp) then SiftDown(less, s[hole := s[child]], size, child, tmp)
      else s[hole := tmp]
    else s[hole := tmp]
  }

  function Grown<T>(h: Heap<T>, blank: T): (r: seq<T>)
    requires h.Valid()
    ensures h.size + 1 < |r| && h.slots <= r
  {
    if h.size == |h.slots| - 1 then h.slots + seq(|h.slots|, _ => blank) else h.slots
  }

  function Insert<T>(less: (T, T) -> bool, h: Heap<T>, blank: T, x: T): (r: Heap<T>)
    requires h.Valid()
    ensures r.Valid() && r.size == h.size + 1
  {
    Heap(SiftUp(less, Grown(h, blank), h.size + 1, x), h.size + 1)
  }

  /** Takes out slot `i`: the last element fills it, sinks, and the last slot is blanked. */
  function RemoveAt<T>(less: (T, T) -> bool, h: Heap<T>, blank: T, i: nat): (r: Heap<T>)
    requires h.Valid() && 1 <= i <= h.size
    ensures r.Valid() && r.size == h.size - 1
  {
    var last := h.slots[h.size];
    Heap(SiftDown(less, h.slots[i := last], h.size - 1, i, last)[h.size := blank], h.size - 1)
  }

  /** The scan of `erase_if` from slot `i`: where it stops. */
  function FirstMatch<T>(f: T -> bool, s: seq<T>, size: nat, i: nat): (k: nat)
    requires 1 <= i <= size + 1 <= |s|
    ensures i <= k <= size + 1
    ensures k <= size ==> f(s[k])
    ensures forall j :: i <= j < k ==> !f(s[j])
    decreases size + 1 - i
  {
    if i <= size && !f(s[i]) then FirstMatch(f, s, size, i + 1) else i
  }

  function Erase<T>(less: (T, T) -> bool, h: Heap<T>, blank: T, f: T -> bool): (r: Heap<T>)
    requires h.Valid()
    ensures r.Valid()
  {
    var i := FirstMatch(f, h.slots, h.size, 1);
    if i == h.size + 1 then h else RemoveAt(less, h, blank, i)
  }

  /** The loop of `build`, from slot `k` down to 1. */
  function BuildFrom<T>(less: (T, T) -> bool, h: Heap<T>, k: nat): (r: Heap<T>)
    requires h.Valid() && k <= h.size / 2
    ensures r.Valid() && r.size == h.size
    decreases k
  {
    if k == 0 then h
    else BuildFrom(less, Heap(SiftDown(less, h.slots, h.size, k, h.slots[k]), h.size), k - 1)
  }

  function FromItems<T>(less: (T, T) -> bool, blank: T, items: seq<T>): (r: Heap<T>)
    ensures r.Valid() && r.size == |items|
  {
    var h := Heap([blank] + items + seq(9, _ => blank), |items|);
    BuildFrom(less, h, |items| / 2)
  }

  // ---------- Contents ----------

  lemma {:induction false} LiveAt<T>(s: seq<T>, n: nat, y: T) returns (i: nat)
    requires n < |s| && y in Live(s, n)
    ensures 1 <= i <= n && s[i] == y
  {
    if s[n] == y { i := n; } else { i := LiveAt(s, n - 1, y); }
  }

  ghost function One<T>(x: T, y: T): nat { if x == y then 1 else 0 }

  /** How often `y` occurs, before and after overwriting slot `i`. */
  lemma {:induction false} LiveUpdate<T>(s: seq<T>, n: nat, i: nat, v: T, y: T)
    requires 1 <= i < |s| && n < |s|
    ensures i > n ==> Live(s[i := v], n)[y] == Live(s, n)[y]
    ensures i <= n ==> Live(s[i := v], n)[y] + One(s[i], y) == Live(s, n)[y] + One(v, y)
  {
    if n > 0 { LiveUpdate(s, n - 1, i, v, y); }
  }

  lemma {:induction false} LivePrefix<T>(s: seq<T>, t: seq<T>, n: nat)
    requires n < |s| && s <= t
    ensures Live(t, n) == Live(s, n)
  {
    if n > 0 { LivePrefix(s, t, n - 1); }
  }

  /** Filling the hole from one slot and that slot with `x` is as good as filling the hole. */
  lemma {:induction false} MoveHole<T>(s: seq<T>, n: nat, hole: nat, from: nat, x: T, y: T)
    requires 1 <= hole <= n < |s| && 1 <= from <= n && hole != from
    ensures Live(s[hole := s[from]][from := x], n)[y] == Live(s[hole := x], n)[y]
  {
    LiveUpdate(s, n, hole, s[from], y);
    LiveUpdate(s, n, hole, x, y);
    LiveUpdate(s[hole := s[from]], n, from, x, y);
  }

  lemma {:induction false} SiftUpContents<T>(less: (T, T) -> bool, s: seq<T>, n: nat, hole: nat, x: T, y: T)
    requires 1 <= hole <= n < |s|
    ensures Live(SiftUp(less, s, hole, x), n)[y] == Live(s[hole := x], n)[y]
    decreases hole
  {
    if hole > 1 && less(x, s[hole / 2]) {
      MoveHole(s, n, hole, hole / 2, x, y);
      SiftUpContents(less, s[hole := s[hole / 2]], n, hole / 2, x, y);
    }
  }

  lemma {:induction false} SiftDownContents<T>(less: (T, T) -> bool, s: seq<T>, n: nat, hole: nat, tmp: T, y: T)
    requires 1 <= hole < |s| && n < |s|
    ensures Live(SiftDown(less, s, n, hole, tmp), n)[y] == Live(s[hole := tmp], n)[y]
    decreases |s| - hole
  {
    if hole * 2 <= n {
      var child := SmallerChild(less, s, n, hole);
      if less(s[child], tmp) {
        MoveHole(s, n, hole, child, tmp, y);
        SiftDownContents(less, s[hole := s[child]], n, child, tmp, y);
      }
    }
  }

  lemma {:induction false} InsertCounts<T>(less: (T, T) -> bool, h: Heap<T>, blank: T, x: T, y: T)
    requires h.Valid()
    ensures Insert(less, h, blank, x).Elements()[y] == h.Elements()[y] + One(x, y)
  {
    var s, n := Grown(h, blank), h.size + 1;
    SiftUpContents(less, s, n, n, x, y);
    LiveUpdate(s, h.size, n, x, y);
    LivePrefix(h.slots, s, h.size);
  }

  lemma {:induction false} InsertContents<T(!new)>(less: (T, T) -> bool, h: Heap<T>, blank: T, x: T)
    requires h.Valid()
    ensures Insert(less, h, blank, x).Elements() == h.Elements() + multiset{x}
  {
    var r := Insert(less, h, blank, x);
    forall y
      ensures r.Elements()[y] == (h.Elements() + multiset{x})[y]
    {
      InsertCounts(less, h, blank, x, y);
    }
  }

  lemma {:induction false} RemoveAtCounts<T>(less: (T, T) -> bool, h: Heap<T>, blank: T, i: nat, y: T)
    requires h.Valid() && 1 <= i <= h.size
    ensures RemoveAt(less, h, blank, i).Elements()[y] + One(h.slots[i], y) == h.Elements()[y]
  {
    var n, last := h.size, h.slots[h.size];
    var s := h.slots[i := last];
    SiftDownContents(less, s, n - 1, i, last, y);
    BlankBeyond(SiftDown(less, s, n - 1, i, last), n, blank, y);
    LastFills(h.slots, n, i, y);
  }

  lemma {:induction false} BlankBeyond<T>(sunk: seq<T>, n: nat, blank: T, y: T)
    requires 1 <= n < |sunk|
    ensures Live(sunk[n := blank], n - 1)[y] == Live(sunk, n - 1)[y]
  {
    LiveUpdate(sunk, n - 1, n, blank, y);
  }

  lemma {:induction false} LastFills<T>(slots: seq<T>, n: nat, i: nat, y: T)
    requires 1 <= i <= n < |slots|
    ensures Live(slots[i := slots[n]][i := slots[n]], n - 1)[y] + One(slots[i], y) == Live(slots, n)[y]
  {
    hide Live;
    assert slots[i := slots[n]][i := slots[n]] == slots[i := slots[n]];
    LiveUpdate(slots, n - 1, i, slots[n], y);
    LiveLast(slots, n, y);
  }

  lemma {:induction false} LiveLast<T>(s: seq<T>, n: nat, y: T)
    requires 1 <= n < |s|
    ensures Live(s, n)[y] == Live(s, n - 1)[y] + One(s[n], y)
  {
  }

  lemma {:induction false} RemoveAtContents<T(!new)>(less: (T, T) -> bool, h: Heap<T>, blank: T, i: nat)
    requires h.Valid() && 1 <= i <= h.size
    ensures h.Elements() == RemoveAt(less, h, blank, i).Elements() + multiset{h.slots[i]}
  {
    var r := RemoveAt(less, h, blank, i);
    forall y
      ensures h.Elements()[y] == (r.Elements() + multiset{h.slots[i]})[y]
    {
      RemoveAtCounts(less, h, blank, i, y);
    }
  }

  // ---------- Order ----------

  /** `s` is in order from `k` on except around `hole`, whose children respect its parent. */
  ghost predicate OrderedButHole<T(!new)>(less: (T, T) -> bool, s: seq<T>, n: nat, k: nat, hole: nat)
    requires n < |s|
  {
    && (forall p: nat, c: nat {:trigger IsChild(p, c)} ::
          k <= p && IsChild(p, c) && c <= n && p != hole && c != hole ==> !less(s[c], s[p]))
    && (forall g: nat, c: nat {:trigger IsChild(g, hole), IsChild(hole, c)} ::
          k <= g && IsChild(g, hole) && IsChild(hole, c) && c <= n ==> !less(s[c], s[g]))
  }

  lemma {:induction false} SiftUpOrders<T(!new)>(less: (T, T) -> bool, s: seq<T>, n: nat, hole: nat, x: T)
    requires StrictWeakOrder(less) && 1 <= hole <= n < |s|
    requires OrderedButHole(less, s, n, 1, hole)
    requires forall c: nat {:trigger IsChild(hole, c)} :: IsChild(hole, c) && c <= n ==> !less(s[c], x)
    ensures Ordered(less, Heap(SiftUp(less, s, hole, x), n))
    decreases hole
  {
    if hole > 1 {
      assert IsChild(hole / 2, hole);
      if less(x, s[hole / 2]) {
        HoleMovesUp(less, s, n, hole, x);
        SiftUpOrders(less, s[hole := s[hole / 2]], n, hole / 2, x);
      }
    }
  }

  lemma {:induction false} HoleMovesUp<T(!new)>(less: (T, T) -> bool, s: seq<T>, n: nat, hole: nat, x: T)
    requires StrictWeakOrder(less) && 1 < hole <= n < |s|
    requires OrderedButHole(less, s, n, 1, hole) && less(x, s[hole / 2])
    ensures OrderedButHole(less, s[hole := s[hole / 2]], n, 1, hole / 2)
    ensures forall c: nat {:trigger IsChild(hole / 2, c)} ::
              IsChild(hole / 2, c) && c <= n ==> !less(s[hole := s[hole / 2]][c], x)
  {
    var up, parent := hole / 2, s[hole / 2];
    var t := s[hole := parent];
    assert IsChild(up, hole);
    forall c: nat | IsChild(up, c) && c <= n
      ensures !less(t[c], x)
    {
      assert Laws(less, t[c], x, parent) && Laws(less, x, parent, x);
    }
    forall g: nat, c: nat | 1 <= g && IsChild(g, up) && IsChild(up, c) && c <= n
      ensures !less(t[c], t[g])
    {
      assert Laws(less, t[c], parent, s[g]);
    }
    forall p: nat, c: nat | IsChild(p, c) && c <= n && p != up && c != up
      ensures !less(t[c], t[p])
    {
    }
  }

  lemma {:induction false} SiftDownOrders<T(!new)>(less: (T, T) -> bool, s: seq<T>, n: nat, k: nat, hole: nat, tmp: T)
    requires StrictWeakOrder(less) && 1 <= hole < |s| && n < |s| && 1 <= k
    requires OrderedButHole(less, s, n, k, hole)
    requires forall g: nat {:trigger IsChild(g, hole)} :: k <= g && IsChild(g, hole) && hole <= n ==> !less(tmp, s[g])
    ensures OrderedFrom(less, Heap(SiftDown(less, s, n, hole, tmp), n), k)
    decreases |s| - hole
  {
    if hole * 2 <= n {
      var child := SmallerChild(less, s, n, hole);
      if less(s[child], tmp) {
        HoleMovesDown(less, s, n, k, hole, tmp);
        SiftDownOrders(less, s[hole := s[child]], n, k, child, tmp);
      } else {
        forall c: nat | IsChild(hole, c) && c <= n
          ensures !less(s[c], tmp)
        {
          ChosenChild(less, s, n, hole, c);
          assert Laws(less, s[c], s[child], tmp);
        }
      }
    }
  }

  lemma {:induction false} ChosenChild<T(!new)>(less: (T, T) -> bool, s: seq<T>, n: nat, hole: nat, c: nat)
    requires StrictWeakOrder(less) && 1 <= hole && hole * 2 <= n < |s| && IsChild(hole, c) && c <= n
    ensures !less(s[c], s[SmallerChild(less, s, n, hole)])
    ensures IsChild(hole, SmallerChild(less, s, n, hole))
  {
    assert Laws(less, s[c], s[SmallerChild(less, s, n, hole)], s[c]);
  }

  lemma {:induction false} HoleMovesDown<T(!new)>(less: (T, T) -> bool, s: seq<T>, n: nat, k: nat, hole: nat, tmp: T)
    requires StrictWeakOrder(less) && 1 <= hole && hole * 2 <= n < |s| && 1 <= k
    requires OrderedButHole(less, s, n, k, hole)
    requires less(s[SmallerChild(less, s, n, hole)], tmp)
    ensures var child := SmallerChild(less, s, n, hole);
            && OrderedButHole(less, s[hole := s[child]], n, k, child)
            && forall g: nat {:trigger IsChild(g, child)} ::
                 k <= g && IsChild(g, child) ==> !less(tmp, s[hole := s[child]][g])
  {
    var child := SmallerChild(less, s, n, hole);
    var t := s[hole := s[child]];
    ChosenChild(less, s, n, hole, child);
    assert Laws(less, s[child], tmp, s[child]);
    forall p: nat, c: nat | k <= p && IsChild(p, c) && c <= n && p != child && c != child
      ensures !less(t[c], t[p])
    {
      if p == hole {
        ChosenChild(less, s, n, hole, c);
      } else if c == hole {
        assert IsChild(p, hole) && IsChild(hole, child);
      }
    }
    forall g: nat, c: nat | k <= g && IsChild(g, child) && IsChild(child, c) && c <= n
      ensures !less(t[c], t[g])
    {
    }
  }

  /** `insert` keeps heap order, and adds exactly its argument. */
  lemma {:induction false} InsertCorrect<T(!new)>(less: (T, T) -> bool, h: Heap<T>, blank: T, x: T)
    requires StrictWeakOrder(less) && h.Valid() && Ordered(less, h)
    ensures var r := Insert(less, h, blank, x); Ordered(less, r) && r.Elements() == h.Elements() + multiset{x}
  {
    InsertContents(less, h, blank, x);
    SiftUpOrders(less, Grown(h, blank), h.size + 1, h.size + 1, x);
  }

  /** Heap order puts a smallest element in slot 1. */
  lemma {:induction false} RootIsLeast<T(!new)>(less: (T, T) -> bool, h: Heap<T>, i: nat)
    requires StrictWeakOrder(less) && h.Valid() && Ordered(less, h) && 1 <= i <= h.size
    ensures !less(h.slots[i], h.slots[1])
    decreases i
  {
    assert Laws(less, h.slots[1], h.slots[1], h.slots[1]);
    if i > 1 {
      assert IsChild(i / 2, i);
      RootIsLeast(less, h, i / 2);
      assert Laws(less, h.slots[i], h.slots[i / 2], h.slots[1]);
    }
  }

  ghost predicate IsLeast<T(!new)>(less: (T, T) -> bool, x: T, elements: multiset<T>) {
    x in elements && forall y :: y in elements ==> !less(y, x)
  }

  /** `delete_min` keeps heap order, and removes exactly the root, a smallest element. */
  lemma {:induction false} DeleteMinCorrect<T(!new)>(less: (T, T) -> bool, h: Heap<T>, blank: T)
    requires StrictWeakOrder(less) && h.Valid() && Ordered(less, h) && h.size > 0
    ensures var r := RemoveAt(less, h, blank, 1);
            && Ordered(less, r) && h.Elements() == r.Elements() + multiset{h.slots[1]}
            && IsLeast(less, h.slots[1], h.Elements())
  {
    RemoveAtContents(less, h, blank, 1);
    RemoveKeepsOrder(less, h, blank, 1);
    forall y | y in h.Elements()
      ensures !less(y, h.slots[1])
    {
      var j := LiveAt(h.slots, h.size, y);
      RootIsLeast(less, h, j);
    }
  }

  lemma {:induction false} RemoveKeepsOrder<T(!new)>(less: (T, T) -> bool, h: Heap<T>, blank: T, i: nat)
    requires StrictWeakOrder(less) && h.Valid() && Ordered(less, h) && 1 <= i <= h.size
    requires i == 1 || i == h.size || !less(h.slots[h.size], h.slots[i / 2])
    ensures Ordered(less, RemoveAt(less, h, blank, i))
  {
    var n, last := h.size, h.slots[h.size];
    RefilledHole(less, h, i);
    SiftDownOrders(less, h.slots[i := last], n - 1, 1, i, last);
  }

  lemma {:induction false} RefilledHole<T(!new)>(less: (T, T) -> bool, h: Heap<T>, i: nat)
    requires StrictWeakOrder(less) && h.Valid() && Ordered(less, h) && 1 <= i <= h.size
    ensures OrderedButHole(less, h.slots[i := h.slots[h.size]], h.size - 1, 1, i)
  {
    var s := h.slots[i := h.slots[h.size]];
    forall g: nat, c: nat | 1 <= g && IsChild(g, i) && IsChild(i, c) && c <= h.size - 1
      ensures !less(s[c], s[g])
    {
      assert Laws(less, h.slots[c], h.slots[i], h.slots[g]);
    }
  }

  /** Removing an inner element only ever sinks the element that replaces it.  Heap order
      survives exactly when that element may stay below the hole's parent: the guard that the
      code lacks. */
  lemma {:induction false} RemoveAtKeepsOrderIff<T(!new)>(less: (T, T) -> bool, h: Heap<T>, blank: T, i: nat)
    requires StrictWeakOrder(less) && h.Valid() && Ordered(less, h) && 1 <= i <= h.size
    ensures Ordered(less, RemoveAt(less, h, blank, i)) <==> MayFill(less, h, i)
  {
    if i == 1 || i == h.size || !less(h.slots[h.size], h.slots[i / 2]) {
      RemoveKeepsOrder(less, h, blank, i);
    } else {
      var n, last := h.size, h.slots[h.size];
      var s := h.slots[i := last];
      assert IsChild(i / 2, i);
      if i * 2 <= n - 1 {
        var child := SmallerChild(less, s, n - 1, i);
        assert IsChild(i, child);
        assert Laws(less, h.slots[child], h.slots[i], h.slots[i / 2]);
        assert Laws(less, h.slots[child], last, h.slots[i / 2]);
        assert !less(s[child], last);
      }
      var r := RemoveAt(less, h, blank, i);
      assert r.slots[i] == last && r.slots[i / 2] == h.slots[i / 2];
      assert less(r.slots[i], r.slots[i / 2]);
    }
  }

  /** The heap 1; 10, 2; 11, 12, 3 without its 11: the moved 3 ends up below the 10. */
  lemma {:induction false} RemoveAtCanBreakOrder()
    ensures var less := (a: int, b: int) => a < b;
            var h := Heap([0, 1, 10, 2, 11, 12, 3], 6);
            h.Valid() && Ordered(less, h) && !Ordered(less, RemoveAt(less, h, 0, 4))
  {
    var less := (a: int, b: int) => a < b;
    var h := Heap([0, 1, 10, 2, 11, 12, 3], 6);
    forall a, b, c
      ensures Laws(less, a, b, c)
    {
    }
    forall p: nat, c: nat | IsChild(p, c) && c <= 6
      ensures !less(h.slots[c], h.slots[p])
    {
      assert p == 1 || p == 2 || p == 3;
    }
    RemoveAtKeepsOrderIff(less, h, 0, 4);
  }

  lemma {:induction false} BuildStep<T(!new)>(less: (T, T) -> bool, h: Heap<T>, k: nat)
    requires StrictWeakOrder(less) && h.Valid() && 1 <= k <= h.size / 2 && OrderedFrom(less, h, k + 1)
    ensures var r := Heap(SiftDown(less, h.slots, h.size, k, h.slots[k]), h.size);
            OrderedFrom(less, r, k)
  {
    assert OrderedButHole(less, h.slots, h.size, k, k);
    SiftDownOrders(less, h.slots, h.size, k, k, h.slots[k]);
  }

  lemma {:induction false} BuildCorrect<T(!new)>(less: (T, T) -> bool, h: Heap<T>, k: nat)
    requires StrictWeakOrder(less) && h.Valid() && k <= h.size / 2 && OrderedFrom(less, h, k + 1)
    ensures var r := BuildFrom(less, h, k); Ordered(less, r) && r.Elements() == h.Elements()
    decreases k
  {
    if k > 0 {
      BuildStep(less, h, k);
      assert h.slots[k := h.slots[k]] == h.slots;
      forall y
        ensures Live(SiftDown(less, h.slots, h.size, k, h.slots[k]), h.size)[y] == h.Elements()[y]
      {
        SiftDownContents(less, h.slots, h.size, k, h.slots[k], y);
      }
      assert Live(SiftDown(less, h.slots, h.size, k, h.slots[k]), h.size) == h.Elements();
      BuildCorrect(less, Heap(SiftDown(less, h.slots, h.size, k, h.slots[k]), h.size), k - 1);
    }
  }

  lemma {:induction false} LiveItems<T>(s: seq<T>, items: seq<T>, n: nat)
    requires n <= |items| < |s| && forall i :: 0 <= i < |items| ==> s[i + 1] == items[i]
    ensures Live(s, n) == multiset(items[..n])
  {
    if n > 0 {
      LiveItems(s, items, n - 1);
      assert items[..n] == items[..n - 1] + [items[n - 1]];
    }
  }

  /** The vector constructor turns any items into a heap of exactly those items. */
  lemma {:induction false} FromItemsCorrect<T(!new)>(less: (T, T) -> bool, blank: T, items: seq<T>)
    requires StrictWeakOrder(less)
    ensures var r := FromItems(less, blank, items); Ordered(less, r) && r.Elements() == multiset(items)
  {
    var h := Heap([blank] + items + seq(9, _ => blank), |items|);
    LiveItems(h.slots, items, |items|);
    assert items[..|items|] == items;
    BuildCorrect(less, h, |items| / 2);
  }

  /** A full vector doubles, any other keeps its length. */
  lemma {:induction false} InsertGrows<T>(less: (T, T) -> bool, h: Heap<T>, blank: T, x: T)
    requires h.Valid()
    ensures |Insert(less, h, blank, x).slots| == if h.size + 1 == |h.slots| then 2 * |h.slots| else |h.slots|
  {
    hide SiftUp;
  }

  // ---------- Erasing ----------

  /** Slot `k` is the first in array order whose element satisfies `f`. */
  ghost predicate IsFirst<T(!new)>(f: T -> bool, h: Heap<T>, k: nat)
    requires h.Valid()
  {
    1 <= k <= h.size && f(h.slots[k]) && forall j :: 1 <= j < k ==> !f(h.slots[j])
  }

  /** Where no element satisfies `f`, nothing changes. */
  lemma {:induction false} EraseNothing<T(!new)>(less: (T, T) -> bool, h: Heap<T>, blank: T, f: T -> bool)
    requires h.Valid() && forall k :: 1 <= k <= h.size ==> !f(h.slots[k])
    ensures Erase(less, h, blank, f) == h
  {
  }

  /** `erase_if` takes out exactly the first element in array order that satisfies `f`, under any
      order whatever, and keeps heap order exactly when the element moved into its place may stay
      below the parent there. */
  lemma {:induction false} EraseCorrect<T(!new)>(less: (T, T) -> bool, h: Heap<T>, blank: T, f: T -> bool, k: nat)
    requires h.Valid() && IsFirst(f, h, k)
    ensures var r := Erase(less, h, blank, f);
            && r.size == h.size - 1 && h.Elements() == r.Elements() + multiset{h.slots[k]}
            && (StrictWeakOrder(less) && Ordered(less, h) ==> (Ordered(less, r) <==> MayFill(less, h, k)))
  {
    hide RemoveAt, Live, StrictWeakOrder, OrderedFrom;
    FirstIs(f, h, k);
    RemoveAtContents(less, h, blank, k);
    if StrictWeakOrder(less) && Ordered(less, h) { RemoveAtKeepsOrderIff(less, h, blank, k); }
  }

  lemma {:induction false} FirstIs<T(!new)>(f: T -> bool, h: Heap<T>, k: nat)
    requires h.Valid() && IsFirst(f, h, k)
    ensures FirstMatch(f, h.slots, h.size, 1) == k
  {
  }

  /** The last element may fill slot `k`: there is no parent, it is the one that goes, or it is not
      below the parent. */
  predicate MayFill<T>(less: (T, T) -> bool, h: Heap<T>, k: nat)
    requires h.Valid() && 1 <= k <= h.size
  {
    k == 1 || k == h.size || !less(h.slots[h.size], h.slots[k / 2])
  }

  // ---------- Slots that are not in use ----------

  /** Nothing but blanks behind the last element. */
  ghost predicate BlankBehind<T>(h: Heap<T>, blank: T) {
    forall i :: h.size < i < |h.slots| ==> h.slots[i] == blank
  }

  lemma {:induction false} SiftUpFrame<T>(less: (T, T) -> bool, s: seq<T>, hole: nat, x: T, i: nat)
    requires 1 <= hole < i < |s|
    ensures SiftUp(less, s, hole, x)[i] == s[i]
    decreases hole
  {
    if hole > 1 && less(x, s[hole / 2]) { SiftUpFrame(less, s[hole := s[hole / 2]], hole / 2, x, i); }
  }

  lemma {:induction false} SiftDownFrame<T>(less: (T, T) -> bool, s: seq<T>, size: nat, hole: nat, tmp: T, i: nat)
    requires 1 <= hole < |s| && size < i < |s| && hole < i
    ensures SiftDown(less, s, size, hole, tmp)[i] == s[i]
    decreases |s| - hole
  {
    if hole * 2 <= size {
      var child := SmallerChild(less, s, size, hole);
      if less(s[child], tmp) { SiftDownFrame(less, s[hole := s[child]], size, child, tmp, i); }
    }
  }

  /** Whatever is put in or taken out, elements that have left are not kept alive behind the others. */
  lemma {:induction false} StaysBlank<T>(less: (T, T) -> bool, h: Heap<T>, blank: T, x: T, i: nat)
    requires h.Valid() && BlankBehind(h, blank)
    ensures BlankBehind(Insert(less, h, blank, x), blank)
    ensures 1 <= i <= h.size ==> BlankBehind(RemoveAt(less, h, blank, i), blank)
  {
    hide SiftUp, SiftDown;
    var s, n := Grown(h, blank), h.size + 1;
    var risen := SiftUp(less, s, n, x);
    forall k | n < k < |risen|
      ensures risen[k] == blank
    {
      SiftUpFrame(less, s, n, x, k);
      assert k < |h.slots| ==> s[k] == h.slots[k];
    }
    if 1 <= i <= h.size {
      var last := h.slots[h.size];
      var t := h.slots[i := last];
      var sunk := SiftDown(less, t, h.size - 1, i, last);
      forall k | h.size < k < |sunk|
        ensures sunk[k] == blank
      {
        SiftDownFrame(less, t, h.size - 1, i, last, k);
      }
    }
  }

  lemma {:induction false} BuildFrame<T>(less: (T, T) -> bool, h: Heap<T>, k: nat, i: nat)
    requires h.Valid() && k <= h.size / 2 && h.size < i < |h.slots|
    ensures |BuildFrom(less, h, k).slots| == |h.slots| && BuildFrom(less, h, k).slots[i] == h.slots[i]
    decreases k
  {
    if k > 0 {
      SiftDownFrame(less, h.slots, h.size, k, h.slots[k], i);
      BuildFrame(less, Heap(SiftDown(less, h.slots, h.size, k, h.slots[k]), h.size), k - 1, i);
    }
  }

  lemma {:induction false} BuildLength<T>(less: (T, T) -> bool, h: Heap<T>, k: nat)
    requires h.Valid() && k <= h.size / 2
    ensures |BuildFrom(less, h, k).slots| == |h.slots|
    decreases k
  {
    if k > 0 { BuildLength(less, Heap(SiftDown(less, h.slots, h.size, k, h.slots[k]), h.size), k - 1); }
  }

  lemma {:induction false} StartsBlank<T>(less: (T, T) -> bool, blank: T, items: seq<T>)
    ensures BlankBehind(FromItems(less, blank, items), blank)
  {
    hide BuildFrom;
    var h := Heap([blank] + items + seq(9, _ => blank), |items|);
    BuildLength(less, h, |items| / 2);
    forall i | h.size < i < |h.slots|
      ensures BuildFrom(less, h, |items| / 2).slots[i] == blank
    {
      BuildFrame(less, h, |items| / 2, i);
    }
  }

  // ---------- Runs ----------

  datatype Operation<!T> = Add(x: T) | TakeMin | EraseFirst(f: T -> bool)

  /** The heap, everything put in, and everything that has left it, in order. */
  datatype History<T> = History(heap: Heap<T>, added: seq<T>, removed: seq<T>)

  /** `delete_min` on an empty heap throws with nothing to rethrow: the program ends. */
  function Apply<T>(less: (T, T) -> bool, blank: T, h: History<T>, op: Operation<T>): (r: History<T>)
    requires h.heap.Valid() && (op.TakeMin? ==> h.heap.size > 0)
    ensures r.heap.Valid()
  {
    match op
    case Add(x) => History(Insert(less, h.heap, blank, x), h.added + [x], h.removed)
    case TakeMin => History(RemoveAt(less, h.heap, blank, 1), h.added, h.removed + [h.heap.slots[1]])
    case EraseFirst(f) =>
      var k := FirstMatch(f, h.heap.slots, h.heap.size, 1);
      History(Erase(less, h.heap, blank, f), h.added, h.removed + if k <= h.heap.size then [h.heap.slots[k]] else [])
  }

  predicate CanRun<T>(less: (T, T) -> bool, blank: T, h: History<T>, ops: seq<Operation<T>>)
    requires h.heap.Valid()
    decreases |ops|
  {
    |ops| == 0 || ((ops[0].TakeMin? ==> h.heap.size > 0) && CanRun(less, blank, Apply(less, blank, h, ops[0]), ops[1..]))
  }

  function Run<T>(less: (T, T) -> bool, blank: T, h: History<T>, ops: seq<Operation<T>>): (r: History<T>)
    requires h.heap.Valid() && CanRun(less, blank, h, ops)
    ensures r.heap.Valid()
    decreases |ops|
  {
    if |ops| == 0 then h else Run(less, blank, Apply(less, blank, h, ops[0]), ops[1..])
  }

  /** What the insertions put in. */
  function AddedBy<T>(ops: seq<Operation<T>>): seq<T> {
    if |ops| == 0 then [] else (if ops[0].Add? then [ops[0].x] else []) + AddedBy(ops[1..])
  }

  /** What is in the heap and what has left it. */
  ghost function Together<T>(h: History<T>): multiset<T>
    requires h.heap.Valid()
  {
    h.heap.Elements() + multiset(h.removed)
  }

  lemma {:induction false} StepContents<T(!new)>(less: (T, T) -> bool, blank: T, h: History<T>, op: Operation<T>)
    requires h.heap.Valid() && (op.TakeMin? ==> h.heap.size > 0)
    ensures Together(Apply(less, blank, h, op)) == Together(h) + multiset(AddedBy([op]))
    ensures Apply(less, blank, h, op).added == h.added + AddedBy([op])
  {
    hide Insert, RemoveAt, Erase, Live, AddedBy, FirstMatch;
    AddedOne(op);
    match op
    case Add(x) => InsertContents(less, h.heap, blank, x);
    case TakeMin =>
      RemoveAtContents(less, h.heap, blank, 1);
      OneLeaves(h.heap.Elements(), RemoveAt(less, h.heap, blank, 1).Elements(), h.removed, h.heap.slots[1]);
    case EraseFirst(f) => EraseContents(less, blank, h, f);
  }

  lemma {:induction false} EraseContents<T(!new)>(less: (T, T) -> bool, blank: T, h: History<T>, f: T -> bool)
    requires h.heap.Valid()
    ensures Together(Apply(less, blank, h, EraseFirst(f))) == Together(h)
  {
    hide RemoveAt, Erase, Live;
    var k := FirstMatch(f, h.heap.slots, h.heap.size, 1);
    if k <= h.heap.size {
      EraseCorrect(less, h.heap, blank, f, k);
      OneLeaves(h.heap.Elements(), Erase(less, h.heap, blank, f).Elements(), h.removed, h.heap.slots[k]);
    } else {
      EraseNothing(less, h.heap, blank, f);
      assert h.removed + [] == h.removed;
    }
  }

  lemma {:induction false} OneLeaves<T>(before: multiset<T>, after: multiset<T>, removed: seq<T>, x: T)
    requires before == after + multiset{x}
    ensures after + multiset(removed + [x]) == before + multiset(removed)
  {
  }

  /** In every run of insertions, deletions and erasures, from any heap and under any order whatever,
      nothing is lost and nothing made up: what is in the heap and what has left it are what was
      there and what was put in. */
  lemma {:induction false} RunContents<T(!new)>(less: (T, T) -> bool, blank: T, h: History<T>, ops: seq<Operation<T>>)
    requires h.heap.Valid() && CanRun(less, blank, h, ops)
    ensures Together(Run(less, blank, h, ops)) == Together(h) + multiset(AddedBy(ops))
    ensures Run(less, blank, h, ops).added == h.added + AddedBy(ops)
    decreases |ops|
  {
    hide Together, AddedBy, Apply;
    if |ops| == 0 {
      NothingAdded(ops);
      assert h.added + [] == h.added;
    } else {
      var next := Apply(less, blank, h, ops[0]);
      StepContents(less, blank, h, ops[0]);
      RunContents(less, blank, next, ops[1..]);
      AddedFirst(ops);
      assert (h.added + AddedBy([ops[0]])) + AddedBy(ops[1..]) == h.added + AddedBy(ops);
    }
  }

  lemma {:induction false} NothingAdded<T>(ops: seq<Operation<T>>)
    requires |ops| == 0
    ensures AddedBy(ops) == []
  {
  }

  lemma {:induction false} AddedFirst<T>(ops: seq<Operation<T>>)
    requires |ops| > 0
    ensures AddedBy(ops) == AddedBy([ops[0]]) + AddedBy(ops[1..])
    ensures multiset(AddedBy(ops)) == multiset(AddedBy([ops[0]])) + multiset(AddedBy(ops[1..]))
  {
    AddedOne(ops[0]);
  }

  lemma {:induction false} AddedOne<T>(op: Operation<T>)
    ensures AddedBy([op]) == if op.Add? then [op.x] else []
  {
    assert |[op][1..]| == 0;
  }

  /** Every erasure of the run finds an element whose place the last one may fill, or none. */
  ghost predicate SafeRun<T(!new)>(less: (T, T) -> bool, blank: T, h: History<T>, ops: seq<Operation<T>>)
    requires h.heap.Valid() && CanRun(less, blank, h, ops)
    decreases |ops|
  {
    |ops| == 0 ||
    (&& (ops[0].EraseFirst? ==> forall k :: IsFirst(ops[0].f, h.heap, k) ==> MayFill(less, h.heap, k))
     && SafeRun(less, blank, Apply(less, blank, h, ops[0]), ops[1..]))
  }

  lemma {:induction false} StepKeepsOrder<T(!new)>(less: (T, T) -> bool, blank: T, h: History<T>, op: Operation<T>)
    requires StrictWeakOrder(less) && h.heap.Valid() && (op.TakeMin? ==> h.heap.size > 0) && Ordered(less, h.heap)
    requires op.EraseFirst? ==> forall k :: IsFirst(op.f, h.heap, k) ==> MayFill(less, h.heap, k)
    ensures Ordered(less, Apply(less, blank, h, op).heap)
  {
    hide Insert, RemoveAt, Erase, Live, OrderedFrom, StrictWeakOrder;
    match op
    case Add(x) => InsertCorrect(less, h.heap, blank, x);
    case TakeMin => DeleteMinCorrect(less, h.heap, blank);
    case EraseFirst(f) =>
      var k := FirstMatch(f, h.heap.slots, h.heap.size, 1);
      if k <= h.heap.size { EraseCorrect(less, h.heap, blank, f, k); } else { EraseNothing(less, h.heap, blank, f); }
  }

  lemma {:induction false} RunKeepsOrder<T(!new)>(less: (T, T) -> bool, blank: T, h: History<T>, ops: seq<Operation<T>>)
    requires StrictWeakOrder(less) && h.heap.Valid() && CanRun(less, blank, h, ops) && SafeRun(less, blank, h, ops)
    requires Ordered(less, h.heap)
    ensures Ordered(less, Run(less, blank, h, ops).heap)
    decreases |ops|
  {
    hide OrderedFrom, StrictWeakOrder, Apply, MayFill;
    if |ops| > 0 {
      StepKeepsOrder(less, blank, h, ops[0]);
      RunKeepsOrder(less, blank, Apply(less, blank, h, ops[0]), ops[1..]);
    }
  }

  /** From any `build`, under any sequence of insertions, deletions and erasures of elements whose
      place may be filled: heap order holds, the contents are what was put in less what has left,
      and the next element to be taken is a smallest one. */
  lemma {:induction false} AnyRun<T(!new)>(less: (T, T) -> bool, blank: T, items: seq<T>, ops: seq<Operation<T>>)
    requires StrictWeakOrder(less)
    requires var h0 := History(FromItems(less, blank, items), [], []);
             CanRun(less, blank, h0, ops) && SafeRun(less, blank, h0, ops)
    ensures var h := Run(less, blank, History(FromItems(less, blank, items), [], []), ops);
            && Ordered(less, h.heap)
            && h.heap.Elements() + multiset(h.removed) == multiset(items) + multiset(AddedBy(ops))
            && (h.heap.size > 0 ==> IsLeast(less, h.heap.slots[1], h.heap.Elements()))
  {
    hide OrderedFrom, StrictWeakOrder, Run, CanRun, SafeRun, FromItems, AddedBy;
    FromItemsCorrect(less, blank, items);
    var h0 := History(FromItems(less, blank, items), [], []);
    RunContents(less, blank, h0, ops);
    RunKeepsOrder(less, blank, h0, ops);
    var h := Run(less, blank, h0, ops);
    if h.heap.size > 0 {
      DeleteMinCorrect(less, h.heap, blank);
    }
  }

  /** Everything that deleting the minimum until nothing is left takes out, in order. */
  function DrainAll<T>(less: (T, T) -> bool, blank: T, h: Heap<T>): seq<T>
    requires h.Valid()
    decreases h.size
  {
    if h.size == 0 then [] else [h.slots[1]] + DrainAll(less, blank, RemoveAt(less, h, blank, 1))
  }

  ghost predicate Sorted<T(!new)>(less: (T, T) -> bool, out: seq<T>) {
    forall i, j :: 0 <= i < j < |out| ==> !less(out[j], out[i])
  }

  lemma {:induction false} PrependLeast<T(!new)>(less: (T, T) -> bool, x: T, out: seq<T>, elements: multiset<T>)
    requires Sorted(less, out) && IsLeast(less, x, elements) && elements == multiset(out) + multiset{x}
    ensures Sorted(less, [x] + out) && multiset([x] + out) == elements
  {
    forall j | 0 <= j < |out|
      ensures !less(out[j], x)
    {
      assert out[j] in multiset(out);
    }
  }

  /** Draining sorts. */
  lemma {:induction false} DrainSorts<T(!new)>(less: (T, T) -> bool, blank: T, h: Heap<T>)
    requires StrictWeakOrder(less) && h.Valid() && Ordered(less, h)
    ensures var out := DrainAll(less, blank, h);
            multiset(out) == h.Elements() && Sorted(less, out)
    decreases h.size
  {
    if h.size > 0 {
      var rest := RemoveAt(less, h, blank, 1);
      DeleteMinCorrect(less, h, blank);
      DrainSorts(less, blank, rest);
      PrependLeast(less, h.slots[1], DrainAll(less, blank, rest), h.Elements());
    }
  }

  // ---------- The order of timers ----------

  datatype Timer = Timer(timeout: nat, id: nat)

  /** A timer comes first only if it is both earlier and older. */
  predicate TimerLess(a: Timer, b: Timer) { a.timeout < b.timeout && a.id < b.id }

  /** So the theorems above do not apply to timers ... */
  lemma {:induction false} TimersAreNotOrdered()
    ensures !StrictWeakOrder(TimerLess)
  {
    assert !Laws(TimerLess, Timer(0, 0), Timer(1, 0), Timer(1, 1));
  }

  /** ... and of two timers the earlier one is at the root exactly when it was not inserted
      second with an id that is not smaller, as newly made timers are. */
  lemma {:induction false} EarlierTimerFirstIff(blank: Timer, x: Timer, y: Timer)
    ensures var h := Insert(TimerLess, Insert(TimerLess, FromItems(TimerLess, blank, []), blank, x), blank, y);
            h.slots[1].timeout <= h.slots[2].timeout <==> !(y.timeout < x.timeout && x.id <= y.id)
  {
    var h0 := FromItems(TimerLess, blank, []);
    assert h0 == Heap([blank] + [] + seq(9, _ => blank), 0);
    var h1 := Insert(TimerLess, h0, blank, x);
    assert h1 == Heap(h0.slots[1 := x], 1);
    var h2 := Insert(TimerLess, h1, blank, y);
    if TimerLess(y, x) {
      assert h2.slots == SiftUp(TimerLess, h1.slots[2 := x], 1, y);
      assert h2.slots[1] == y && h2.slots[2] == x;
    } else {
      assert h2.slots == h1.slots[2 := y];
    }
  }

  // ---------- The object ----------

  class BinaryHeap<T(!new)> {
    const less: (T, T) -> bool
    const blank: T
    var size_: nat
    var heap: seq<T>

    ghost function Now(): Heap<T>
      reads this
    {
      Heap(heap, size_)
    }

    constructor FromVector(less: (T, T) -> bool, blank: T, items: seq<T>)
      ensures this.less == less && this.blank == blank
      ensures Now() == FromItems(less, blank, items)
    {
      hide SiftDown;
      this.less, this.blank, size_ := less, blank, |items|;
      heap := [blank] + items + seq(9, _ => blank);
      new;
      var i := size_ / 2;
      while i > 0
        invariant 0 <= i <= size_ / 2 && size_ == |items| < |heap|
        invariant BuildFrom(less, Now(), i) == FromItems(less, blank, items)
      {
        PercolateDown(i);
        i := i - 1;
      }
    }

    method PercolateDown(start: nat)
      requires 1 <= start < |heap| && size_ < |heap|
      modifies this`heap
      ensures heap == SiftDown(less, old(heap), size_, start, old(heap)[start])
    {
      var hole, tmp := start, heap[start];
      while hole * 2 <= size_
        invariant 1 <= hole < |heap| && size_ < |heap|
        invariant SiftDown(less, heap, size_, hole, tmp) == SiftDown(less, old(heap), size_, start, tmp)
        decreases |heap| - hole
      {
        var child := hole * 2;
        if child != size_ && less(heap[child + 1], heap[child]) {
          child := child + 1;
        }
        assert child == SmallerChild(less, heap, size_, hole);
        if less(heap[child], tmp) {
          heap := heap[hole := heap[child]];
        } else {
          break;
        }
        hole := child;
      }
      heap := heap[hole := tmp];
    }

    method InsertElement(x: T)
      requires Now().Valid()
      modifies this
      ensures Now() == Insert(less, old(Now()), blank, x)
    {
      if size_ == |heap| - 1 {
        heap := heap + seq(|heap|, _ => blank);
      }
      assert heap == Grown(old(Now()), blank);
      size_ := size_ + 1;
      var hole := size_;
      while hole > 1 && less(x, heap[hole / 2])
        invariant 1 <= hole <= size_ == old(size_) + 1 < |heap|
        invariant SiftUp(less, heap, hole, x) == SiftUp(less, Grown(old(Now()), blank), old(size_) + 1, x)
      {
        heap := heap[hole := heap[hole / 2]];
        hole := hole / 2;
      }
      heap := heap[hole := x];
    }

    /** Removes the first element, in array order, that satisfies `f`, if there is one. */
    method EraseIf(f: T -> bool)
      requires Now().Valid()
      modifies this
      ensures Now() == Erase(less, old(Now()), blank, f)
    {
      if size_ == 0 {
        return;
      }
      var i := 1;
      while i < size_ + 1 && !f(heap[i])
        invariant 1 <= i <= size_ + 1 && FirstMatch(f, heap, size_, i) == FirstMatch(f, heap, size_, 1)
      {
        i := i + 1;
      }
      if i == size_ + 1 {
        return;
      }
      heap, size_ := heap[i := heap[size_]], size_ - 1;
      PercolateDown(i);
      heap := heap[size_ + 1 := blank];
    }

    method DeleteMin()
      requires Now().Valid() && size_ > 0
      modifies this
      ensures Now() == RemoveAt(less, old(Now()), blank, 1)
    {
      heap, size_ := heap[1 := heap[size_]], size_ - 1;
      PercolateDown(1);
      heap := heap[size_ + 1 := blank];
    }
  }
}
