/**
 The point of it all: among all prefix-free codes there is none that packs the file into fewer
 bits than the compressor's.
 */
module HuffmanPrefix {
  import opened Basics
  import opened Numbers
  import opened HuffmanOptimal
  import opened HuffmanBuild
  import opened HuffmanCodes
  import opened HuffmanPacker
  import opened HuffmanDecode
  import opened HuffmanFile

  ghost predicate PrefixFree(codes: map<Byte, Bits>) {
    forall x, y :: x in codes && y in codes && x != y ==> !(codes[x] <= codes[y])
  }

  /** The compressor's codes are prefix-free. */
  lemma {:induction false} CodesPrefixFree(t: Tree)
    ensures PrefixFree(CodesOf(t))
  {
    hide CodesOf;
    CodesGood(t);
    var codes := CodesOf(t);
    forall x, y | x in codes && y in codes && x != y
      ensures !(codes[x] <= codes[y])
    {
      LeavesApart(t, codes[x], codes[y], x, y);
    }
  }

  lemma {:induction false} LeavesApart(t: Tree, p: Bits, q: Bits, x: Byte, y: Byte)
    requires LeadsTo(t, p, x) && LeadsTo(t, q, y) && x != y
    ensures !(p <= q)
  {
    hide Sub;
    if |p| < |q| {
      InnerPrefix(t, q, |p|);
      assert q[..|p|] == p || !(p <= q);
    } else {
      assert p <= q ==> p == q;
    }
  }

  // ---------- Lengths, summed by byte ----------

  /** Occurrences times code length, where the first `d` bits are not counted. */
  function Bill(s: seq<Symbol>, codes: map<Byte, Bits>, d: nat): int
    requires forall i :: 0 <= i < |s| ==> s[i].num in codes
  {
    if s == [] then 0
    else Bill(s[..|s| - 1], codes, d) + s[|s| - 1].ntimes * (|codes[s[|s| - 1].num]| - d)
  }

  function Times(s: seq<Symbol>): nat { if s == [] then 0 else Times(s[..|s| - 1]) + s[|s| - 1].ntimes }

  predicate Known(s: seq<Symbol>, codes: map<Byte, Bits>) { forall i :: 0 <= i < |s| ==> s[i].num in codes }

  lemma {:induction false} BillAppend(s: seq<Symbol>, x: Symbol, codes: map<Byte, Bits>, d: nat)
    requires Known(s, codes) && x.num in codes
    ensures Known(s + [x], codes) && Bill(s + [x], codes, d) == Bill(s, codes, d) + x.ntimes * (|codes[x.num]| - d)
    ensures Times(s + [x]) == Times(s) + x.ntimes
  {
    assert (s + [x])[..|s|] == s;
  }

  lemma {:induction false} BillConcat(s: seq<Symbol>, u: seq<Symbol>, codes: map<Byte, Bits>, d: nat)
    requires Known(s, codes) && Known(u, codes)
    ensures Known(s + u, codes) && Bill(s + u, codes, d) == Bill(s, codes, d) + Bill(u, codes, d)
    decreases |u|
  {
    if u == [] {
      assert s + u == s;
    } else {
      var less, x := u[..|u| - 1], u[|u| - 1];
      BillConcat(s, less, codes, d);
      assert s + u == (s + less) + [x];
      BillAppend(s + less, x, codes, d);
    }
  }

  /** Not counting one more bit saves every occurrence once. */
  lemma {:induction false} BillDeeper(s: seq<Symbol>, codes: map<Byte, Bits>, d: nat)
    requires Known(s, codes)
    ensures Bill(s, codes, d) == Bill(s, codes, d + 1) + Times(s)
  {
    if s != [] {
      BillDeeper(s[..|s| - 1], codes, d);
      Distribute(|codes[s[|s| - 1].num]| - (d + 1), 1, s[|s| - 1].ntimes);
    }
  }

  /** The compressor's own bill is the cost of its tree. */
  lemma {:induction false} BillOfTree(t: Tree, path: Bits, codes: map<Byte, Bits>)
    requires Matches(Table(t, path), codes)
    ensures Known(Symbols(t), codes) && Bill(Symbols(t), codes, 0) == Cost(t) + |path| * Weight(t)
  {
    hide Bill, Matches, Known;
    match t
    case Leaf(b, n) => BillOfLeaf(b, n, path, codes);
    case Node(l, r) =>
      MatchesSplit(Table(l, path + [true]), Table(r, path + [false]), codes);
      BillOfTree(l, path + [true], codes);
      BillOfTree(r, path + [false], codes);
      BillConcat(Symbols(l), Symbols(r), codes, 0);
      LevelDown(|path|, Weight(l), Weight(r));
  }

  /** The codes are those of the entries. */
  ghost predicate Matches(table: seq<Entry>, codes: map<Byte, Bits>) {
    forall i :: 0 <= i < |table| ==> table[i].num in codes && codes[table[i].num] == table[i].code
  }

  lemma {:induction false} MatchesSplit(a: seq<Entry>, c: seq<Entry>, codes: map<Byte, Bits>)
    requires Matches(a + c, codes)
    ensures Matches(a, codes) && Matches(c, codes)
  {
    forall i | 0 <= i < |a|
      ensures a[i].num in codes && codes[a[i].num] == a[i].code
    {
      assert (a + c)[i] == a[i];
    }
    forall i | 0 <= i < |c|
      ensures c[i].num in codes && codes[c[i].num] == c[i].code
    {
      assert (a + c)[|a| + i] == c[i];
    }
  }

  lemma {:induction false} BillOfLeaf(b: Byte, n: nat, path: Bits, codes: map<Byte, Bits>)
    requires Matches([Entry(b, path)], codes)
    ensures Known([Symbol(b, n)], codes) && Bill([Symbol(b, n)], codes, 0) == |path| * n
  {
    assert [Entry(b, path)][0] == Entry(b, path);
    assert [Symbol(b, n)][..0] == [];
  }

  // ---------- The bits of a file, summed by byte ----------

  function Count(input: seq<Byte>, b: Byte): nat { multiset(input)[b] }

  function Without(input: seq<Byte>, b: Byte): seq<Byte> {
    if input == [] then []
    else
      var rest := Without(input[..|input| - 1], b);
      if input[|input| - 1] == b then rest else rest + [input[|input| - 1]]
  }

  lemma {:induction false} Occurring(input: seq<Byte>, b: Byte)
    ensures b in input <==> Count(input, b) > 0
  {
    assert b in input <==> b in multiset(input);
  }

  lemma {:induction false} WithoutCounts(input: seq<Byte>, b: Byte, x: Byte)
    ensures Count(Without(input, b), x) == if x == b then 0 else Count(input, x)
  {
    if input != [] {
      WithoutCounts(input[..|input| - 1], b, x);
      assert input == input[..|input| - 1] + [input[|input| - 1]];
    }
  }

  lemma {:induction false} WithoutBits(input: seq<Byte>, b: Byte, codes: map<Byte, Bits>)
    requires Coded(input, codes) && b in codes
    ensures Coded(Without(input, b), codes)
    ensures |Flat(input, codes)| == |Flat(Without(input, b), codes)| + Count(input, b) * |codes[b]|
  {
    hide Flat, Count;
    if input == [] {
      NothingYet(b, codes);
    } else {
      var init, x := input[..|input| - 1], input[|input| - 1];
      WithoutBits(init, b, codes);
      OneMore(init, x, b, codes);
      assert input == init + [x];
      var rest := Without(init, b);
      if x == b { Distribute(Count(init, b), 1, |codes[b]|); } else { OneMore(rest, x, b, codes); }
    }
  }

  lemma {:induction false} NothingYet(b: Byte, codes: map<Byte, Bits>)
    ensures Coded([], codes) && |Flat([], codes)| == 0 && Count([], b) == 0
  {
  }

  lemma {:induction false} OneMore(init: seq<Byte>, x: Byte, b: Byte, codes: map<Byte, Bits>)
    requires Coded(init, codes) && x in codes
    ensures Coded(init + [x], codes) && |Flat(init + [x], codes)| == |Flat(init, codes)| + |codes[x]|
    ensures Count(init + [x], b) == Count(init, b) + if x == b then 1 else 0
  {
    assert (init + [x])[..|init|] == init;
  }

  /** `s` lists every byte of `input` once, with its count. */
  ghost predicate Lists(s: seq<Symbol>, input: seq<Byte>) {
    && (forall i, j :: 0 <= i < j < |s| ==> s[i].num != s[j].num)
    && (forall i :: 0 <= i < |s| ==> s[i].ntimes == Count(input, s[i].num))
    && (forall b: Byte :: b in input ==> exists i :: 0 <= i < |s| && s[i].num == b)
  }

  lemma {:induction false} ListsLess(s: seq<Symbol>, input: seq<Byte>)
    requires s != [] && Lists(s, input)
    ensures Lists(s[..|s| - 1], Without(input, s[|s| - 1].num))
  {
    var less, b := s[..|s| - 1], s[|s| - 1].num;
    forall i | 0 <= i < |less|
      ensures less[i].ntimes == Count(Without(input, b), less[i].num)
    {
      WithoutCounts(input, b, less[i].num);
    }
    forall x: Byte | x in Without(input, b)
      ensures exists i :: 0 <= i < |less| && less[i].num == x
    {
      WithoutCounts(input, b, x);
      Occurring(Without(input, b), x);
      Occurring(input, x);
      var i :| 0 <= i < |s| && s[i].num == x;
      assert i < |less| && less[i].num == x;
    }
  }

  /** The packed length is the bill of the symbols. */
  lemma {:induction false} FlatLength(s: seq<Symbol>, input: seq<Byte>, codes: map<Byte, Bits>)
    requires Lists(s, input) && Coded(input, codes) && Known(s, codes)
    ensures |Flat(input, codes)| == Bill(s, codes, 0)
    decreases |s|
  {
    hide Lists, Flat, Without;
    if s == [] {
      NoSymbols(input, codes);
    } else {
      var b := s[|s| - 1].num;
      ListsLess(s, input);
      WithoutBits(input, b, codes);
      FlatLength(s[..|s| - 1], Without(input, b), codes);
      LastCount(s, input);
    }
  }

  lemma {:induction false} NoSymbols(input: seq<Byte>, codes: map<Byte, Bits>)
    ensures Lists([], input) ==> Coded(input, codes) && |Flat(input, codes)| == 0
  {
    if input != [] {
      var b := input[0];
      assert b in input;
    }
  }

  lemma {:induction false} LastCount(s: seq<Symbol>, input: seq<Byte>)
    requires s != [] && Lists(s, input)
    ensures s[|s| - 1].ntimes == Count(input, s[|s| - 1].num)
  {
  }

  lemma {:induction false} SymbolsList(input: seq<Byte>, t: Tree)
    requires Covers(input, t)
    ensures Lists(Symbols(t), input)
  {
    hide Symbols;
    var s := Symbols(t);
    forall i, j | 0 <= i < j < |s|
      ensures s[i].num != s[j].num
    {
      DistinctNums(input, t, i, j);
    }
    forall i | 0 <= i < |s|
      ensures s[i].ntimes == Count(input, s[i].num)
    {
      assert s[i] in s;
    }
    forall b: Byte | b in input
      ensures exists i :: 0 <= i < |s| && s[i].num == b
    {
      var x := Symbol(b, multiset(input)[b]);
      assert x in multiset(s);
      var i :| 0 <= i < |s| && s[i] == x;
      assert s[i].num == b;
    }
  }

  lemma {:induction false} TableSymbols(t: Tree, path: Bits, i: nat)
    requires i < |Table(t, path)|
    ensures i < |Symbols(t)| && Table(t, path)[i].num == Symbols(t)[i].num
  {
    TableSize(t, path);
    if t.Node? {
      var n := |Table(t.left, path + [true])|;
      TableSize(t.left, path + [true]);
      if i < n { TableSymbols(t.left, path + [true], i); }
      else { TableSymbols(t.right, path + [false], i - n); }
    }
  }

  /** Each byte's code is the one in its table entry. */
  lemma {:induction false} CodeOfEntry(input: seq<Byte>, t: Tree, i: nat)
    requires Covers(input, t) && i < |Table(t, [])|
    ensures var e := Table(t, [])[i]; e.num in CodesOf(t) && CodesOf(t)[e.num] == e.code
  {
    hide Table, Collect, Symbols, Covers;
    var table := Table(t, []);
    var b := table[i].num;
    CollectFrom(table, map[], b);
    var j :| 0 <= j < |table| && table[j] == Entry(b, CodesOf(t)[b]);
    TableSymbols(t, [], i);
    TableSymbols(t, [], j);
    if i < j { DistinctNums(input, t, i, j); }
    if j < i { DistinctNums(input, t, j, i); }
  }

  /** The packed file is as long as the tree costs. */
  lemma {:induction false} PackedLength(input: seq<Byte>, t: Tree)
    requires HuffmanTree(input, t)
    ensures Coded(input, CodesOf(t)) && |Flat(input, CodesOf(t))| == Cost(t)
  {
    hide Table, CodesOf, Symbols, Cost, Flat, Bill, Lists, Covers;
    InputCoded(input, t);
    forall i | 0 <= i < |Table(t, [])|
      ensures var e := Table(t, [])[i]; e.num in CodesOf(t) && CodesOf(t)[e.num] == e.code
    {
      CodeOfEntry(input, t, i);
    }
    BillOfTree(t, [], CodesOf(t));
    SymbolsList(input, t);
    FlatLength(Symbols(t), input, CodesOf(t));
  }

  // ---------- A tree for every prefix-free code ----------

  function Side(s: seq<Symbol>, codes: map<Byte, Bits>, d: nat, bit: bool): (r: seq<Symbol>)
    requires forall i :: 0 <= i < |s| ==> s[i].num in codes && |codes[s[i].num]| > d
    ensures |r| <= |s|
  {
    if s == [] then []
    else
      var rest := Side(s[..|s| - 1], codes, d, bit);
      if codes[s[|s| - 1].num][d] == bit then rest + [s[|s| - 1]] else rest
  }

  lemma {:induction false} SideMembers(s: seq<Symbol>, codes: map<Byte, Bits>, d: nat, bit: bool, x: Symbol)
    requires forall i :: 0 <= i < |s| ==> s[i].num in codes && |codes[s[i].num]| > d
    ensures x in Side(s, codes, d, bit) <==> x in s && codes[x.num][d] == bit
  {
    if s != [] {
      SideMembers(s[..|s| - 1], codes, d, bit, x);
      assert s == s[..|s| - 1] + [s[|s| - 1]];
    }
  }

  /** The two sides together are everything. */
  lemma {:induction false} SidesSplit(s: seq<Symbol>, codes: map<Byte, Bits>, d: nat, k: nat)
    requires forall i :: 0 <= i < |s| ==> s[i].num in codes && |codes[s[i].num]| > d
    ensures var a, b := Side(s, codes, d, true), Side(s, codes, d, false);
            && Known(a, codes) && Known(b, codes)
            && multiset(s) == multiset(a) + multiset(b) && Times(s) == Times(a) + Times(b)
            && Bill(s, codes, k) == Bill(a, codes, k) + Bill(b, codes, k)
  {
    hide Bill, Times;
    if s == [] {
      EmptyBill(codes, k);
    } else {
      var less, x := s[..|s| - 1], s[|s| - 1];
      SidesSplit(less, codes, d, k);
      assert s == less + [x];
      BillAppend(Side(less, codes, d, codes[x.num][d]), x, codes, k);
      BillAppend(less, x, codes, k);
    }
  }

  /** Different symbols with different bytes, whose codes all start with `p`. */
  ghost predicate Apart(s: seq<Symbol>, codes: map<Byte, Bits>, p: Bits) {
    && Known(s, codes) && (forall x :: multiset(s)[x] <= 1)
    && (forall x, y :: x in s && y in s && x != y ==> x.num != y.num)
    && (forall x :: x in s ==> p <= codes[x.num])
  }

  /** With two symbols left, every code goes on. */
  lemma {:induction false} AllLonger(s: seq<Symbol>, codes: map<Byte, Bits>, p: Bits, i: nat)
    requires PrefixFree(codes) && Apart(s, codes, p) && |s| >= 2 && i < |s|
    ensures |codes[s[i].num]| > |p|
  {
    var j := if i == 0 then 1 else 0;
    var x, y := s[i], s[j];
    assert x != y by {
      if x == y {
        if i < j { Occurs(s, i, j); } else { Occurs(s, j, i); }
        assert false;
      }
    }
    var c, e := codes[x.num], codes[y.num];
    assert p <= c && p <= e && !(c <= e);
    assert c == p || |c| > |p|;
  }

  lemma {:induction false} SideOnce(s: seq<Symbol>, codes: map<Byte, Bits>, d: nat, bit: bool)
    requires forall x :: multiset(s)[x] <= 1
    requires forall i :: 0 <= i < |s| ==> s[i].num in codes && |codes[s[i].num]| > d
    ensures forall x :: multiset(Side(s, codes, d, bit))[x] <= 1
  {
    hide Side, Bill, Times;
    SidesSplit(s, codes, d, 0);
    forall x
      ensures multiset(Side(s, codes, d, bit))[x] <= 1
    {
      assert multiset(Side(s, codes, d, bit))[x] <= multiset(s)[x];
    }
  }

  lemma {:induction false} GoesOn(p: Bits, c: Bits)
    requires p <= c && |c| > |p|
    ensures p + [c[|p|]] <= c
  {
  }

  lemma {:induction false} SideApart(s: seq<Symbol>, codes: map<Byte, Bits>, p: Bits, bit: bool)
    requires Apart(s, codes, p) && forall i :: 0 <= i < |s| ==> s[i].num in codes && |codes[s[i].num]| > |p|
    ensures Apart(Side(s, codes, |p|, bit), codes, p + [bit])
  {
    hide Side;
    var r := Side(s, codes, |p|, bit);
    forall x
      ensures x in r ==> x in s && codes[x.num][|p|] == bit
    {
      SideMembers(s, codes, |p|, bit, x);
    }
    SideOnce(s, codes, |p|, bit);
    forall x | x in r
      ensures p + [bit] <= codes[x.num]
    {
      GoesOn(p, codes[x.num]);
    }
  }

  /** For symbols with such codes there is a tree that puts none deeper than its code is long. */
  lemma {:induction false} TreeFor(s: seq<Symbol>, codes: map<Byte, Bits>, p: Bits, longest: nat) returns (u: Tree)
    requires s != [] && PrefixFree(codes) && Apart(s, codes, p)
    requires forall i :: 0 <= i < |s| ==> |codes[s[i].num]| <= longest
    ensures multiset(Symbols(u)) == multiset(s) && Weight(u) == Times(s) && Cost(u) <= Bill(s, codes, |p|)
    decreases longest - |p|
  {
    hide Side, Bill, Times, PrefixFree, Apart, Symbols, Cost, Weight;
    ApartKnown(s, codes, p);
    var d := |p|;
    assert s[0] in s;
    if |s| == 1 {
      u := Leaf(s[0].num, s[0].ntimes);
      LeafFor(s, codes, p);
    } else {
      forall i | 0 <= i < |s|
        ensures |codes[s[i].num]| > d
      {
        AllLonger(s, codes, p, i);
      }
      assert |codes[s[0].num]| > d;
      var a, b := Side(s, codes, d, true), Side(s, codes, d, false);
      SidesSplit(s, codes, d, d + 1);
      SideApart(s, codes, p, true);
      SideApart(s, codes, p, false);
      SideLongest(s, codes, d, longest);
      BillDeeper(s, codes, d);
      EmptyBill(codes, d + 1);
      assert |a| + |b| == |s| by { assert |multiset(s)| == |multiset(a)| + |multiset(b)|; }
      if a == [] {
        u := TreeFor(b, codes, p + [false], longest);
      } else if b == [] {
        u := TreeFor(a, codes, p + [true], longest);
      } else {
        var l := TreeFor(a, codes, p + [true], longest);
        var r := TreeFor(b, codes, p + [false], longest);
        u := Node(l, r);
        NodeFor(l, r);
      }
    }
  }

  lemma {:induction false} NodeFor(l: Tree, r: Tree)
    ensures var u := Node(l, r);
            multiset(Symbols(u)) == multiset(Symbols(l)) + multiset(Symbols(r)) &&
            Weight(u) == Weight(l) + Weight(r) && Cost(u) == Cost(l) + Cost(r) + Weight(u)
  {
  }

  lemma {:induction false} EmptyBill(codes: map<Byte, Bits>, d: nat)
    ensures Bill([], codes, d) == 0 && Times([]) == 0
  {
  }

  lemma {:induction false} LeafFor(s: seq<Symbol>, codes: map<Byte, Bits>, p: Bits)
    requires |s| == 1 && Apart(s, codes, p)
    ensures var u := Leaf(s[0].num, s[0].ntimes);
            multiset(Symbols(u)) == multiset(s) && Weight(u) == Times(s) && Cost(u) <= Bill(s, codes, |p|)
  {
    assert s[..0] == [];
    assert s == [s[0]];
    assert s[0] in s;
    MulMono(0, |codes[s[0].num]| - |p|, s[0].ntimes);
  }

  lemma {:induction false} SideLongest(s: seq<Symbol>, codes: map<Byte, Bits>, d: nat, longest: nat)
    requires forall i :: 0 <= i < |s| ==> s[i].num in codes && d < |codes[s[i].num]| <= longest
    ensures forall bit, i :: 0 <= i < |Side(s, codes, d, bit)| ==>
              Side(s, codes, d, bit)[i].num in codes && |codes[Side(s, codes, d, bit)[i].num]| <= longest
  {
    forall bit, i | 0 <= i < |Side(s, codes, d, bit)|
      ensures Side(s, codes, d, bit)[i].num in codes && |codes[Side(s, codes, d, bit)[i].num]| <= longest
    {
      SideMembers(s, codes, d, bit, Side(s, codes, d, bit)[i]);
    }
  }

  lemma {:induction false} Longest(codes: map<Byte, Bits>, s: seq<Symbol>) returns (n: nat)
    requires Known(s, codes)
    ensures forall i :: 0 <= i < |s| ==> |codes[s[i].num]| <= n
  {
    if s == [] {
      n := 0;
    } else {
      var less, x := s[..|s| - 1], s[|s| - 1];
      var m := Longest(codes, less);
      n := Max(m, |codes[x.num]|);
      forall i | 0 <= i < |s|
        ensures |codes[s[i].num]| <= n
      {
        if i < |less| { assert less[i] == s[i]; }
      }
    }
  }

  lemma {:induction false} SymbolsApart(input: seq<Byte>, t: Tree, codes: map<Byte, Bits>)
    requires Covers(input, t) && Coded(input, codes)
    ensures Apart(Symbols(t), codes, [])
  {
    hide Symbols;
    var s := Symbols(t);
    forall i | 0 <= i < |s|
      ensures s[i].num in codes
    {
      SymbolOnce(input, t, s[i]);
    }
    forall x
      ensures multiset(s)[x] <= 1
    {
      if x in s { SymbolOnce(input, t, x); }
    }
    forall x, y | x in s && y in s
      ensures x != y ==> x.num != y.num
    {
      SymbolOnce(input, t, x);
      SymbolOnce(input, t, y);
    }
  }

  /** For every input, every tree the compressor may build for it, and every prefix-free code of
      the bytes that occur: the compressor's bits are no more than that code's. */
  lemma {:induction false} NoShorterPrefixCode(input: seq<Byte>, t: Tree, codes: map<Byte, Bits>)
    requires HuffmanTree(input, t) && PrefixFree(codes) && Coded(input, codes)
    ensures Coded(input, CodesOf(t)) && |Flat(input, CodesOf(t))| <= |Flat(input, codes)|
  {
    hide CodesOf, Flat, Bill, Lists, Covers, Apart, Symbols, PrefixFree;
    PackedLength(input, t);
    SymbolsApart(input, t, codes);
    ApartKnown(Symbols(t), codes, []);
    var longest := Longest(codes, Symbols(t));
    var first := FirstSymbol(t);
    assert Symbols(t) != [];
    var u := TreeFor(Symbols(t), codes, [], longest);
    SymbolsList(input, t);
    FlatLength(Symbols(t), input, codes);
  }

  lemma {:induction false} ApartKnown(s: seq<Symbol>, codes: map<Byte, Bits>, p: Bits)
    requires Apart(s, codes, p)
    ensures Known(s, codes)
  {
  }
}
