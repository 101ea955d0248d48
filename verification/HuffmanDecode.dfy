/**
 Decompressing: the tree grown from the key table is the compressor's tree, and walking it bit
 by bit gives back the bytes.
 */
module HuffmanDecode {
  import opened Basics
  import opened Numbers
  import opened HuffmanOptimal
  import opened HuffmanCodes
  import opened HuffmanPacker

  // ---------- The tree grown from the keys ----------

  /** A code tree as items at paths: leaves flagged, with their byte. */
  function Trie(t: Tree, path: Bits): map<Bits, Item> {
    match t
    case Leaf(b, _) => map[path := Item(true, b)]
    case Node(l, r) => map[path := BLANK] + Trie(l, path + [true]) + Trie(r, path + [false])
  }

  /** The subtree a path leads to. */
  function Sub(t: Tree, p: Bits): Option<Tree>
    decreases |p|
  {
    if p == [] then Some(t)
    else if t.Leaf? then None
    else Sub(if p[0] then t.left else t.right, p[1..])
  }

  function ItemOf(t: Tree): Item { if t.Leaf? then Item(true, t.num) else BLANK }

  /** The items are exactly the subtrees. */
  lemma {:induction false} TrieAt(t: Tree, path: Bits, q: Bits)
    ensures q in Trie(t, path) <==> path <= q && Sub(t, q[|path|..]).Some?
    ensures q in Trie(t, path) ==> Trie(t, path)[q] == ItemOf(Sub(t, q[|path|..]).value)
  {
    if path <= q {
      var p := q[|path|..];
      if p == [] {
        assert q == path;
      }
      if t.Node? {
        TrieAt(t.left, path + [true], q);
        TrieAt(t.right, path + [false], q);
        if p != [] {
          assert q[|path|] == p[0];
          assert q[|path + [true]|..] == p[1..];
          assert path + [p[0]] <= q by { assert q == path + p; }
          assert !(path + [!p[0]] <= q) by { assert (path + [!p[0]])[|path|] == !p[0]; }
        }
      }
    } else if t.Node? {
      TrieAt(t.left, path + [true], q);
      TrieAt(t.right, path + [false], q);
      assert !(path + [true] <= q) && !(path + [false] <= q) by { NotPrefix(path, q); }
    }
  }

  lemma {:induction false} NotPrefix(path: Bits, q: Bits)
    ensures path + [true] <= q || path + [false] <= q ==> path <= q
  {
    if path + [true] <= q {
      assert path == (path + [true])[..|path|] == q[..|path|];
    } else if path + [false] <= q {
      assert path == (path + [false])[..|path|] == q[..|path|];
    }
  }

  /** What growing along a code adds. */
  lemma {:induction false} GrowAt(nodes: map<Bits, Item>, code: Bits, k: nat, q: Bits)
    requires k <= |code|
    ensures q in Grow(nodes, code, k) <==> q in nodes || (1 <= |q| <= k && q <= code)
    ensures q in Grow(nodes, code, k) ==> Grow(nodes, code, k)[q] == if q in nodes then nodes[q] else BLANK
  {
    if k > 0 {
      GrowAt(nodes, code, k - 1, q);
      GrowAt(nodes, code, k - 1, code[..k]);
      if |q| == k && q <= code { assert q == code[..k]; }
    }
  }

  lemma {:induction false} AddEntryAt(nodes: map<Bits, Item>, e: Entry, q: Bits)
    ensures q in AddEntry(nodes, e) <==> q in nodes || q == e.code || (|q| >= 1 && q <= e.code)
    ensures q in AddEntry(nodes, e) ==>
              AddEntry(nodes, e)[q] == if q == e.code then Item(true, e.num) else if q in nodes then nodes[q] else BLANK
  {
    GrowAt(nodes, e.code, |e.code|, q);
    if q <= e.code { assert |q| <= |e.code|; }
  }

  lemma {:induction false} SameMap(a: map<Bits, Item>, b: map<Bits, Item>)
    requires forall q :: (q in a <==> q in b) && (q in a && q in b ==> a[q] == b[q])
    ensures a == b
  {
  }

  /** An item that the first entry would allocate anyway may as well be there. */
  lemma {:induction false} Planted(nodes: map<Bits, Item>, q: Bits, entries: seq<Entry>)
    requires entries != [] && q != [] && q <= entries[0].code && q !in nodes
    ensures AddEntries(nodes, entries) == AddEntries(nodes[q := BLANK], entries)
  {
    var e, planted := entries[0], nodes[q := BLANK];
    forall p: Bits
      ensures var a, b := AddEntry(nodes, e), AddEntry(planted, e);
              (p in a <==> p in b) && (p in a && p in b ==> a[p] == b[p])
    {
      AddEntryAt(nodes, e, p);
      AddEntryAt(planted, e, p);
    }
    SameMap(AddEntry(nodes, e), AddEntry(planted, e));
  }

  lemma {:induction false} FirstCode(t: Tree, path: Bits)
    ensures path <= Table(t, path)[0].code
  {
    if t.Node? { FirstCode(t.left, path + [true]); }
  }

  lemma {:induction false} AddEntriesConcat(nodes: map<Bits, Item>, a: seq<Entry>, b: seq<Entry>)
    ensures AddEntries(nodes, a + b) == AddEntries(AddEntries(nodes, a), b)
    decreases |a|
  {
    hide AddEntry;
    if a == [] {
      assert a + b == b;
    } else {
      assert (a + b)[1..] == a[1..] + b;
      AddEntriesConcat(AddEntry(nodes, a[0]), a[1..], b);
    }
  }

  /** The tree so far has the item at `path` and its ancestors, and nothing below it. */
  ghost predicate Open(nodes: map<Bits, Item>, path: Bits) {
    && path in nodes && nodes[path] == BLANK
    && (forall q :: q <= path ==> q in nodes)
    && (forall q :: q in nodes && path <= q ==> q == path)
  }

  lemma {:induction false} OpenBelow(nodes: map<Bits, Item>, path: Bits, b: bool)
    requires path in nodes && (forall q :: q <= path ==> q in nodes)
    requires forall q :: q in nodes ==> !(path + [b] <= q)
    ensures path + [b] !in nodes && Open(nodes[path + [b] := BLANK], path + [b])
  {
    var below := path + [b];
    var more := nodes[below := BLANK];
    forall q: Bits | q <= below
      ensures q in more
    {
      if |q| <= |path| {
        assert q == below[..|q|] == path[..|q|];
      } else {
        assert q == below;
      }
    }
  }

  /** Adding the entries of a subtree plants exactly that subtree. */
  lemma {:induction false} AddSubtree(nodes: map<Bits, Item>, t: Tree, path: Bits)
    requires Open(nodes, path)
    ensures AddEntries(nodes, Table(t, path)) == nodes + Trie(t, path)
    decreases t
  {
    match t
    case Leaf(b, _) => AddLeaf(nodes, b, path);
    case Node(l, r) =>
      var p1, p2 := path + [true], path + [false];
      var a, b := Table(l, p1), Table(r, p2);
      hide Table, AddEntries, Trie;
      OpenLeft(nodes, path);
      var n1 := nodes[p1 := BLANK];
      FirstCode(l, p1);
      Planted(nodes, p1, a);
      AddSubtree(n1, l, p1);
      var m := n1 + Trie(l, p1);
      OpenRight(nodes, l, path);
      var n2 := m[p2 := BLANK];
      FirstCode(r, p2);
      Planted(m, p2, b);
      AddSubtree(n2, r, p2);
      AddEntriesConcat(nodes, a, b);
      TableOfNode(l, r, path);
      Together(nodes, l, r, path);
  }

  lemma {:induction false} AddLeaf(nodes: map<Bits, Item>, b: Byte, path: Bits)
    requires Open(nodes, path)
    ensures AddEntries(nodes, [Entry(b, path)]) == nodes + map[path := Item(true, b)]
  {
    var e := Entry(b, path);
    assert [e][1..] == [];
    forall q: Bits
      ensures var x, y := AddEntry(nodes, e), nodes + map[path := Item(true, b)];
              (q in x <==> q in y) && (q in x && q in y ==> x[q] == y[q])
    {
      AddEntryAt(nodes, e, q);
    }
    SameMap(AddEntry(nodes, e), nodes + map[path := Item(true, b)]);
    assert AddEntries(nodes, [e]) == AddEntries(AddEntry(nodes, e), []);
  }

  lemma {:induction false} TableOfNode(l: Tree, r: Tree, path: Bits)
    ensures Table(Node(l, r), path) == Table(l, path + [true]) + Table(r, path + [false])
  {
  }

  lemma {:induction false} OpenLeft(nodes: map<Bits, Item>, path: Bits)
    requires Open(nodes, path)
    ensures path + [true] !in nodes && Open(nodes[path + [true] := BLANK], path + [true])
  {
    forall q | q in nodes
      ensures !(path + [true] <= q)
    {
      if !(path <= q) { NotPrefix(path, q); }
    }
    OpenBelow(nodes, path, true);
  }

  lemma {:induction false} OpenRight(nodes: map<Bits, Item>, l: Tree, path: Bits)
    requires Open(nodes, path)
    ensures var m := nodes[path + [true] := BLANK] + Trie(l, path + [true]);
            path + [false] !in m && Open(m[path + [false] := BLANK], path + [false])
  {
    hide Trie;
    var p1 := path + [true];
    var m := nodes[p1 := BLANK] + Trie(l, p1);
    forall q | q in m
      ensures !(path + [false] <= q)
    {
      TrieAt(l, p1, q);
      if p1 <= q {
        assert q[|path|] == true && (path + [false])[|path|] == false;
      } else if !(path <= q) {
        NotPrefix(path, q);
      }
    }
    OpenBelow(m, path, false);
  }

  lemma {:induction false} Together(nodes: map<Bits, Item>, l: Tree, r: Tree, path: Bits)
    requires Open(nodes, path)
    ensures var p1, p2 := path + [true], path + [false];
            (nodes[p1 := BLANK] + Trie(l, p1))[p2 := BLANK] + Trie(r, p2) == nodes + Trie(Node(l, r), path)
  {
    var p1, p2 := path + [true], path + [false];
    TrieAt(l, p1, p1);
    TrieAt(r, p2, p2);
    TrieAt(l, p1, path);
    TrieAt(r, p2, path);
    SameUnion(nodes, path, p1, p2, Trie(l, p1), Trie(r, p2));
  }

  lemma {:induction false} SameUnion(nodes: map<Bits, Item>, path: Bits, p1: Bits, p2: Bits,
                                     left: map<Bits, Item>, right: map<Bits, Item>)
    requires path in nodes && nodes[path] == BLANK && p1 in left && p2 in right && path !in left && path !in right
    ensures (nodes[p1 := BLANK] + left)[p2 := BLANK] + right == nodes + (map[path := BLANK] + left + right)
  {
  }

  /** Key-table round trip: for every tree, whatever follows its keys, the decompressor consumes
      exactly the bytes written and grows exactly that tree, with only the leaves flagged. */
  lemma {:induction false} KeyTableRoundTrip(t: Tree, after: seq<Byte>)
    ensures ReadKeys(map[[] := BLANK], TableBytes(Table(t, [])) + after, 0, |Table(t, [])|)
         == Some(Built(Trie(t, []), |TableBytes(Table(t, []))|))
  {
    hide ReadKeys, Table, Trie, AddEntries, TableBytes;
    var root: map<Bits, Item> := map[[] := BLANK];
    var bytes := TableBytes(Table(t, []));
    ReadKeysBack(root, Table(t, []), [], after);
    assert [] + bytes + after == bytes + after;
    AddSubtree(root, t, []);
    TrieAt(t, [], []);
    assert root + Trie(t, []) == Trie(t, []);
  }

  // ---------- Walking ----------

  /** Where the walk is, and what it has put out. */
  datatype Cursor = Cursor(curr: Bits, out: seq<Byte>)

  /** None: a child is missing. */
  function Walk(nodes: map<Bits, Item>, c: Cursor, bits: Bits): Option<Cursor>
    decreases |bits|
  {
    if bits == [] then Some(c)
    else
      var next := c.curr + [bits[0]];
      if next !in nodes then None
      else if nodes[next].flag then Walk(nodes, Cursor([], c.out + [nodes[next].num]), bits[1..])
      else Walk(nodes, Cursor(next, c.out), bits[1..])
  }

  lemma {:induction false} WalkConcat(nodes: map<Bits, Item>, c: Cursor, a: Bits, b: Bits)
    ensures Walk(nodes, c, a + b) == match Walk(nodes, c, a) case None => None case Some(d) => Walk(nodes, d, b)
    decreases |a|
  {
    if a == [] {
      assert a + b == b;
    } else {
      assert (a + b)[0] == a[0] && (a + b)[1..] == a[1..] + b;
      var next := c.curr + [a[0]];
      if next in nodes {
        if nodes[next].flag { WalkConcat(nodes, Cursor([], c.out + [nodes[next].num]), a[1..], b); }
        else { WalkConcat(nodes, Cursor(next, c.out), a[1..], b); }
      }
    }
  }

  lemma {:induction false} SubStep(t: Tree, p: Bits, b: bool)
    ensures Sub(t, p + [b]) == match Sub(t, p)
                               case None => None
                               case Some(s) => if s.Leaf? then None else Some(if b then s.left else s.right)
    decreases |p|
  {
    if p == [] {
      assert p + [b] == [b] && [b][1..] == [];
    } else if t.Node? {
      assert (p + [b])[0] == p[0] && (p + [b])[1..] == p[1..] + [b];
      SubStep(if p[0] then t.left else t.right, p[1..], b);
    }
  }

  /** The item a step leads to. */
  lemma {:induction false} NextItem(t: Tree, curr: Bits, b: bool)
    requires Sub(t, curr).Some? && Sub(t, curr).value.Node?
    ensures var s, nodes := Sub(t, curr + [b]), Trie(t, []);
            s.Some? && curr + [b] in nodes && nodes[curr + [b]] == ItemOf(s.value)
  {
    SubStep(t, curr, b);
    TrieAt(t, [], curr + [b]);
    assert (curr + [b])[0..] == curr + [b];
  }

  /** In a tree of at least two leaves no bits at all ever lead to a missing child, and what has
      been put out stays. */
  lemma {:induction false} NeverMissing(t: Tree, c: Cursor, bits: Bits)
    requires t.Node? && Sub(t, c.curr).Some? && Sub(t, c.curr).value.Node?
    ensures var d := Walk(Trie(t, []), c, bits);
            d.Some? && c.out <= d.value.out && |d.value.out| <= |c.out| + |bits|
            && Sub(t, d.value.curr).Some? && Sub(t, d.value.curr).value.Node?
    decreases |bits|
  {
    hide Trie, Sub;
    if bits != [] {
      NextItem(t, c.curr, bits[0]);
      var next := c.curr + [bits[0]];
      SubRoot(t);
      var item := Trie(t, [])[next];
      if item.flag {
        NeverMissing(t, Cursor([], c.out + [item.num]), bits[1..]);
      } else {
        NeverMissing(t, Cursor(next, c.out), bits[1..]);
      }
    }
  }

  lemma {:induction false} SubRoot(t: Tree)
    ensures Sub(t, []) == Some(t)
  {
  }

  /** `code` leads to the leaf of `b`. */
  ghost predicate LeadsTo(t: Tree, code: Bits, b: Byte) {
    Sub(t, code).Some? && Sub(t, code).value.Leaf? && Sub(t, code).value.num == b
  }

  lemma {:induction false} InnerPrefix(t: Tree, code: Bits, k: nat)
    requires Sub(t, code).Some? && k < |code|
    ensures Sub(t, code[..k]).Some? && Sub(t, code[..k]).value.Node?
    decreases |code| - k
  {
    assert code[..k + 1] == code[..k] + [code[k]];
    SubStep(t, code[..k], code[k]);
    if k + 1 < |code| {
      InnerPrefix(t, code, k + 1);
    } else {
      assert code[..k + 1] == code;
    }
  }

  /** Part of a code puts out nothing. */
  lemma {:induction false} WalkPart(t: Tree, code: Bits, b: Byte, out: seq<Byte>, k: nat)
    requires LeadsTo(t, code, b) && k < |code|
    ensures Walk(Trie(t, []), Cursor([], out), code[..k]) == Some(Cursor(code[..k], out))
  {
    hide Trie, Sub;
    if k == 0 {
      assert code[..0] == [];
    } else {
      WalkPart(t, code, b, out, k - 1);
      InnerPrefix(t, code, k - 1);
      InnerPrefix(t, code, k);
      NextItem(t, code[..k - 1], code[k - 1]);
      assert code[..k] == code[..k - 1] + [code[k - 1]];
      WalkConcat(Trie(t, []), Cursor([], out), code[..k - 1], [code[k - 1]]);
      WalkOne(Trie(t, []), Cursor(code[..k - 1], out), code[k - 1]);
    }
  }

  lemma {:induction false} WalkOne(nodes: map<Bits, Item>, c: Cursor, b: bool)
    ensures var next := c.curr + [b];
            Walk(nodes, c, [b]) == if next !in nodes then None
                                   else if nodes[next].flag then Some(Cursor([], c.out + [nodes[next].num]))
                                   else Some(Cursor(next, c.out))
  {
    assert [b][1..] == [];
  }

  /** A whole code puts out its byte, and the walk is back at the root. */
  lemma {:induction false} WalkCode(t: Tree, code: Bits, b: Byte, out: seq<Byte>)
    requires LeadsTo(t, code, b) && code != []
    ensures Walk(Trie(t, []), Cursor([], out), code) == Some(Cursor([], out + [b]))
  {
    hide Trie, Sub;
    var k := |code| - 1;
    WalkPart(t, code, b, out, k);
    InnerPrefix(t, code, k);
    assert code == code[..k] + [code[k]];
    NextItem(t, code[..k], code[k]);
    WalkConcat(Trie(t, []), Cursor([], out), code[..k], [code[k]]);
    WalkOne(Trie(t, []), Cursor(code[..k], out), code[k]);
  }

  /** Every code of the table leads to the leaf of its byte. */
  ghost predicate GoodCodes(t: Tree, codes: map<Byte, Bits>) {
    forall b :: b in codes ==> codes[b] != [] && LeadsTo(t, codes[b], b)
  }

  lemma {:induction false} WalkFlat(t: Tree, input: seq<Byte>, codes: map<Byte, Bits>)
    requires Coded(input, codes) && GoodCodes(t, codes)
    ensures Walk(Trie(t, []), Cursor([], []), Flat(input, codes)) == Some(Cursor([], input))
    decreases |input|
  {
    hide Trie, LeadsTo;
    if input != [] {
      var init, b := input[..|input| - 1], input[|input| - 1];
      WalkFlat(t, init, codes);
      WalkCode(t, codes[b], b, init);
      WalkConcat(Trie(t, []), Cursor([], []), Flat(init, codes), codes[b]);
      assert input == init + [b];
    }
  }

  // ---------- The decoding loop ----------

  /** Bytes are walked one at a time until `size` bytes are out; None for a read past the data or
      a missing child. */
  function Decode(nodes: map<Bits, Item>, data: seq<Byte>, k: nat, c: Cursor, size: nat): Option<seq<Byte>>
    decreases |data| - k
  {
    if |c.out| >= size then Some(c.out)
    else if k >= |data| then None
    else
      match Walk(nodes, c, BitsOf(data[k]))
      case None => None
      case Some(d) => Decode(nodes, data, k + 1, d, size)
  }

  method DecodeData(nodes: map<Bits, Item>, data: seq<Byte>, size: nat) returns (out: Option<seq<Byte>>)
    ensures out == Decode(nodes, data, 0, Cursor([], []), size)
  {
    var c := Cursor([], []);
    var k := 0;
    while |c.out| < size
      invariant 0 <= k <= |data|
      invariant Decode(nodes, data, 0, Cursor([], []), size) == Decode(nodes, data, k, c, size)
      decreases |data| - k
    {
      if k >= |data| {
        return None;
      }
      var next := WalkByte(nodes, c, data[k]);
      match next
      case None => return None;
      case Some(d) => c, k := d, k + 1;
    }
    return Some(c.out);
  }

  /** The eight steps of one byte. */
  method WalkByte(nodes: map<Bits, Item>, c0: Cursor, value: Byte) returns (r: Option<Cursor>)
    ensures r == Walk(nodes, c0, BitsOf(value))
  {
    hide Walk, ToBits;
    var c := c0;
    var j := 0;
    ghost var bits := BitsOf(value);
    assert bits[0..] == bits;
    while j < 8
      invariant 0 <= j <= 8 && Walk(nodes, c0, bits) == Walk(nodes, c, bits[j..])
    {
      var rc := value / Two(7 - j) % 2;
      BitAt(value, 8, j);
      ghost var d := c;
      assert bits[j..] == [bits[j]] + bits[j + 1..];
      WalkConcat(nodes, d, [bits[j]], bits[j + 1..]);
      WalkOne(nodes, d, bits[j]);
      var next := c.curr + [rc == 1];
      if next !in nodes {
        return None;
      }
      if nodes[next].flag {
        c := Cursor([], c.out + [nodes[next].num]);
      } else {
        c := Cursor(next, c.out);
      }
      j := j + 1;
    }
    assert bits[8..] == [];
    WalkNothing(nodes, c);
    return Some(c);
  }

  lemma {:induction false} WalkNothing(nodes: map<Bits, Item>, c: Cursor)
    ensures Walk(nodes, c, []) == Some(c)
  {
  }

  lemma {:induction false} UnpackFirst(data: seq<Byte>)
    requires data != []
    ensures Unpack(data) == BitsOf(data[0]) + Unpack(data[1..])
  {
    assert data == [data[0]] + data[1..];
    UnpackConcat([data[0]], data[1..]);
    assert [data[0]][..0] == [];
    assert Unpack([data[0]]) == [] + BitsOf(data[0]);
  }

  /** A walk only adds to what is out. */
  lemma {:induction false} WalkGrows(nodes: map<Bits, Item>, c: Cursor, bits: Bits)
    requires Walk(nodes, c, bits).Some?
    ensures c.out <= Walk(nodes, c, bits).value.out && |Walk(nodes, c, bits).value.out| <= |c.out| + |bits|
    decreases |bits|
  {
    if bits != [] {
      var next := c.curr + [bits[0]];
      if nodes[next].flag { WalkGrows(nodes, Cursor([], c.out + [nodes[next].num]), bits[1..]); }
      else { WalkGrows(nodes, Cursor(next, c.out), bits[1..]); }
    }
  }

  /** The loop, seen from the walk over all the bits: if enough comes out, the loop stops with a
      prefix of it, at most seven bytes too many; if not, it reads past the data. */
  lemma {:induction false} DecodeByWalk(nodes: map<Bits, Item>, data: seq<Byte>, k: nat, c: Cursor, size: nat)
    requires k <= |data| && |c.out| < size + 8 && Walk(nodes, c, Unpack(data[k..])).Some?
    ensures var end, r := Walk(nodes, c, Unpack(data[k..])).value.out, Decode(nodes, data, k, c, size);
            if |end| < size then r == None
            else r.Some? && c.out <= r.value <= end && size <= |r.value| < size + 8
    decreases |data| - k
  {
    hide BitsOf, Unpack;
    WalkGrows(nodes, c, Unpack(data[k..]));
    if |c.out| >= size {
    } else if k == |data| {
      assert data[k..] == [];
      UnpackNothing();
      WalkNothing(nodes, c);
    } else {
      assert data[k..][0] == data[k] && data[k..][1..] == data[k + 1..];
      UnpackFirst(data[k..]);
      WalkConcat(nodes, c, BitsOf(data[k]), Unpack(data[k + 1..]));
      WalkGrows(nodes, c, BitsOf(data[k]));
      var d := Walk(nodes, c, BitsOf(data[k])).value;
      DecodeByWalk(nodes, data, k + 1, d, size);
      WalkGrows(nodes, d, Unpack(data[k + 1..]));
    }
  }

  lemma {:induction false} UnpackNothing()
    ensures Unpack([]) == []
  {
  }
}
