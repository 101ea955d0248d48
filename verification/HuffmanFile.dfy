/**
 Whole files: what the compressor writes, what the decompressor makes of it, and exactly when the
 two are inverse to each other.
 */
module HuffmanFile {
  import opened Basics
  import opened HuffmanOptimal
  import opened HuffmanBuild
  import opened HuffmanCodes
  import opened HuffmanPacker
  import opened HuffmanDecode

  /** The header's two numbers, and everything behind the header. */
  datatype Compressed = Compressed(fileSize: nat, nonZeroNums: nat, body: seq<Byte>)

  function CodesOf(t: Tree): map<Byte, Bits> { Collect(Table(t, []), map[]) }

  /** The case that `one_character_flag` singles out. */
  predicate AllZeros(input: seq<Byte>) { forall i :: 0 <= i < |input| ==> input[i] == 0 }

  ghost predicate CompressedFrom(input: seq<Byte>, t: Tree, data: seq<Byte>, file: Compressed) {
    && HuffmanTree(input, t) && Coded(input, CodesOf(t)) && IsPacked(input, CodesOf(t), data)
    && file == Compressed(|input|, |Table(t, [])|, TableBytes(Table(t, [])) + data)
  }

  const ZERO_CODES: map<Byte, Bits> := map[0 := [true]]

  ghost predicate CompressedZeros(input: seq<Byte>, data: seq<Byte>, file: Compressed) {
    && AllZeros(input) && Coded(input, ZERO_CODES) && IsPacked(input, ZERO_CODES, data)
    && file == Compressed(|input|, 1, [0, 64] + data)
  }

  /** The key field holds codes of up to 15 bits; longer ones are written outside it. */
  ghost predicate KeysFit(input: seq<Byte>) {
    forall t :: MayBuild(input, t) ==> Height(t) <= 15
  }

  lemma {:induction false} ShortFilesFit(input: seq<Byte>)
    requires |input| < 2584
    ensures KeysFit(input)
  {
    hide MayBuild, HuffmanTree;
    forall t | MayBuild(input, t)
      ensures Height(t) <= 15
    {
      SomeInput(input, t);
      GreedyIsOptimal(input, t);
      DepthBound(input, t);
    }
  }

  // ---------- The codes ----------

  lemma {:induction false} TableLeads(t: Tree, path: Bits, i: nat)
    requires i < |Table(t, path)|
    ensures var e := Table(t, path)[i];
            && path <= e.code && |e.code| <= |path| + Height(t)
            && LeadsTo(t, e.code[|path|..], e.num) && (t.Node? ==> |e.code| > |path|)
  {
    hide LeadsTo;
    if t.Leaf? {
      LeafLeads(t);
      assert path[|path|..] == [];
    } else {
      var b := i < |Table(t.left, path + [true])|;
      var child, below := if b then t.left else t.right, path + [b];
      var j := if b then i else i - |Table(t.left, path + [true])|;
      TableLeads(child, below, j);
      var code := Table(t, path)[i].code;
      assert code == Table(child, below)[j].code;
      assert path == below[..|path|] == code[..|path|];
      assert code[|path|] == below[|path|] == b;
      StepLeads(t, code[|path|..], Table(t, path)[i].num);
      assert code[|path|..][1..] == code[|below|..];
    }
  }

  lemma {:induction false} LeafLeads(t: Tree)
    requires t.Leaf?
    ensures LeadsTo(t, [], t.num)
  {
  }

  lemma {:induction false} StepLeads(t: Tree, p: Bits, b: Byte)
    requires t.Node? && p != []
    ensures LeadsTo(if p[0] then t.left else t.right, p[1..], b) ==> LeadsTo(t, p, b)
  {
  }

  lemma {:induction false} CollectFrom(entries: seq<Entry>, into: map<Byte, Bits>, b: Byte)
    ensures b in Collect(entries, into) ==>
              || (b in into && Collect(entries, into)[b] == into[b])
              || exists i :: 0 <= i < |entries| && entries[i] == Entry(b, Collect(entries, into)[b])
    ensures b in into || (exists i :: 0 <= i < |entries| && entries[i].num == b) ==> b in Collect(entries, into)
    decreases |entries|
  {
    if entries != [] {
      var next := into[entries[0].num := entries[0].code];
      CollectFrom(entries[1..], next, b);
      if exists i :: 0 <= i < |entries| && entries[i].num == b {
        var i :| 0 <= i < |entries| && entries[i].num == b;
        if i > 0 { assert entries[1..][i - 1].num == b; }
      }
      if b in Collect(entries, into) && (exists i :: 0 <= i < |entries[1..]| && entries[1..][i] == Entry(b, Collect(entries, into)[b])) {
        var i :| 0 <= i < |entries[1..]| && entries[1..][i] == Entry(b, Collect(entries, into)[b]);
        assert entries[i + 1] == Entry(b, Collect(entries, into)[b]);
      } else if entries[0].num == b {
        assert b in Collect(entries, into) ==> entries[0] == Entry(b, next[b]);
      }
    }
  }

  lemma {:induction false} CodesGood(t: Tree)
    ensures forall b :: b in CodesOf(t) ==> LeadsTo(t, CodesOf(t)[b], b) && |CodesOf(t)[b]| <= Height(t)
    ensures t.Node? ==> GoodCodes(t, CodesOf(t))
  {
    hide LeadsTo, Collect, Table;
    forall b | b in CodesOf(t)
      ensures LeadsTo(t, CodesOf(t)[b], b) && |CodesOf(t)[b]| <= Height(t)
      ensures t.Node? ==> CodesOf(t)[b] != []
    {
      CollectFrom(Table(t, []), map[], b);
      var i :| 0 <= i < |Table(t, [])| && Table(t, [])[i] == Entry(b, CodesOf(t)[b]);
      TableLeads(t, [], i);
      var code := CodesOf(t)[b];
      assert code[0..] == code;
    }
  }

  lemma {:induction false} SymbolInTable(t: Tree, path: Bits, s: Symbol) returns (i: nat)
    requires s in Symbols(t)
    ensures i < |Table(t, path)| && Table(t, path)[i].num == s.num
  {
    match t
    case Leaf(_, _) => i := 0;
    case Node(l, r) =>
      if s in Symbols(l) {
        i := SymbolInTable(l, path + [true], s);
      } else {
        var j := SymbolInTable(r, path + [false], s);
        i := |Table(l, path + [true])| + j;
      }
  }

  lemma {:induction false} InputCoded(input: seq<Byte>, t: Tree)
    requires HuffmanTree(input, t)
    ensures Coded(input, CodesOf(t))
  {
    hide Collect, Table, Symbols;
    forall k | 0 <= k < |input|
      ensures input[k] in CodesOf(t)
    {
      var b := input[k];
      var s := Symbol(b, multiset(input)[b]);
      assert b in input;
      assert s in multiset(Symbols(t));
      var i := SymbolInTable(t, [], s);
      CollectFrom(Table(t, []), map[], b);
    }
  }

  // ---------- The key buffer is large enough ----------

  lemma {:induction false} TableBytesBound(entries: seq<Entry>)
    requires forall i :: 0 <= i < |entries| ==> |entries[i].code| <= 15
    ensures |TableBytes(entries)| <= 5 * |entries|
  {
    if entries != [] { TableBytesBound(entries[1..]); }
  }

  lemma {:induction false} TableSize(t: Tree, path: Bits)
    ensures |Table(t, path)| == |Symbols(t)|
  {
    if t.Node? {
      TableSize(t.left, path + [true]);
      TableSize(t.right, path + [false]);
    }
  }

  function FirstBytes(n: nat): (s: set<int>)
    ensures |s| == n && forall b :: b in s <==> 0 <= b < n
  {
    if n == 0 then {} else FirstBytes(n - 1) + {n - 1}
  }

  function Nums(s: seq<Symbol>): set<int> {
    if s == [] then {} else Nums(s[..|s| - 1]) + {s[|s| - 1].num as int}
  }

  lemma {:induction false} NumsCount(s: seq<Symbol>)
    requires forall i, j :: 0 <= i < j < |s| ==> s[i].num != s[j].num
    ensures |Nums(s)| == |s| && forall b :: b in Nums(s) <==> exists i :: 0 <= i < |s| && s[i].num == b
  {
    if s != [] {
      NumsCount(s[..|s| - 1]);
      var last := s[|s| - 1].num as int;
      assert last !in Nums(s[..|s| - 1]);
      forall b
        ensures b in Nums(s) <==> exists i :: 0 <= i < |s| && s[i].num == b
      {
        if exists i :: 0 <= i < |s| && s[i].num == b {
          var i :| 0 <= i < |s| && s[i].num == b;
          if i < |s| - 1 { assert s[..|s| - 1][i].num == b; }
        }
        if b in Nums(s[..|s| - 1]) {
          var i :| 0 <= i < |s| - 1 && s[..|s| - 1][i].num == b;
          assert s[i].num == b;
        }
      }
    }
  }

  lemma {:induction false} SubsetSize(a: set<int>, b: set<int>)
    requires a <= b
    ensures |a| <= |b|
  {
    assert |b| == |a| + |b - a| by { assert b == a + (b - a); }
  }

  lemma {:induction false} Occurs<T>(s: seq<T>, i: nat, j: nat)
    requires i < j < |s| && s[i] == s[j]
    ensures multiset(s)[s[i]] >= 2
  {
    assert s == s[..i] + [s[i]] + s[i + 1..j] + [s[j]] + s[j + 1..];
  }

  /** No symbol has two leaves. */
  lemma {:induction false} SymbolOnce(input: seq<Byte>, t: Tree, s: Symbol)
    requires Covers(input, t) && s in Symbols(t)
    ensures multiset(Symbols(t))[s] == 1 && s == Symbol(s.num, multiset(input)[s.num]) && s.num in input
  {
    hide Symbols;
    assert multiset(input)[s.num] > 0;
    assert s.num in input;
  }

  lemma {:induction false} DistinctNums(input: seq<Byte>, t: Tree, i: nat, j: nat)
    requires Covers(input, t) && i < j < |Symbols(t)|
    ensures Symbols(t)[i].num != Symbols(t)[j].num
  {
    hide Symbols;
    var s := Symbols(t);
    SymbolOnce(input, t, s[i]);
    SymbolOnce(input, t, s[j]);
    if s[i] == s[j] {
      Occurs(s, i, j);
      assert false;
    }
  }

  lemma {:induction false} AtMost256(input: seq<Byte>, t: Tree)
    requires HuffmanTree(input, t)
    ensures |Table(t, [])| <= 256
  {
    hide Table, Symbols, Nums;
    var s := Symbols(t);
    TableSize(t, []);
    forall i, j | 0 <= i < j < |s|
      ensures s[i].num != s[j].num
    {
      DistinctNums(input, t, i, j);
    }
    NumsCount(s);
    SubsetSize(Nums(s), FirstBytes(256));
  }

  lemma {:induction false} KeysFitBuffer(input: seq<Byte>, t: Tree)
    requires HuffmanTree(input, t) && Height(t) <= 15
    ensures |TableBytes(Table(t, []))| <= 1280
  {
    hide LeadsTo, Table, TableBytes;
    forall i | 0 <= i < |Table(t, [])|
      ensures |Table(t, [])[i].code| <= 15
    {
      TableLeads(t, [], i);
    }
    TableBytesBound(Table(t, []));
    AtMost256(input, t);
  }

  // ---------- The two programs ----------

  /** The compressor.  `string_buf` starts with whatever memory held. */
  method Compress(input: seq<Byte>, string_buf: array<bool>) returns (file: Compressed, ghost t: Tree, ghost data: seq<Byte>)
    requires input != [] && KeysFit(input) && string_buf.Length == BLOCK
    modifies string_buf
    ensures AllZeros(input) ==> CompressedZeros(input, data, file)
    ensures !AllZeros(input) ==> CompressedFrom(input, t, data, file)
  {
    hide Table, TableBytes, HuffmanTree, Collect, IsPacked, LeadsTo;
    var head := BuildTree(input);
    t := head;
    if AllZeros(input) {
      var packed := PackAll(input, ZERO_CODES, string_buf);
      data := packed;
      file := Compressed(|input|, 1, [0, 64] + packed);
    } else {
      var encoder := new Encoder();
      KeysFitBuffer(input, t);
      encoder.DoHuffman(head);
      CodesGood(t);
      InputCoded(input, t);
      var keys := encoder.key_buf[..encoder.keybuf_off];
      var packed := PackAll(input, encoder.codes, string_buf);
      data := packed;
      file := Compressed(|input|, encoder.non_zero_nums, keys + packed);
    }
  }

  /** What the decompressor writes; None when it reads outside its input or meets no child. */
  function Decompressed(file: Compressed): Option<seq<Byte>> {
    match ReadKeys(map[[] := BLANK], file.body, 0, file.nonZeroNums)
    case None => None
    case Some(built) =>
      if built.off > |file.body| then None
      else
        match Decode(built.nodes, file.body[built.off..], 0, Cursor([], []), file.fileSize)
        case None => None
        case Some(out) => if |out| >= file.fileSize then Some(out[..file.fileSize]) else None
  }

  method Decompress(file: Compressed) returns (r: Option<seq<Byte>>)
    ensures r == Decompressed(file)
  {
    var built := HuffmanBuildTree(file.body, file.nonZeroNums);
    if built.None? || built.value.off > |file.body| {
      return None;
    }
    var out := DecodeData(built.value.nodes, file.body[built.value.off..], file.fileSize);
    if out.None? || |out.value| < file.fileSize {
      return None;
    }
    return Some(out.value[..file.fileSize]);
  }

  // ---------- Round trip ----------

  /** Nothing cut off: whatever the padding, the walk gives the input and perhaps a little more. */
  lemma {:induction false} WholeDecodes(input: seq<Byte>, t: Tree, codes: map<Byte, Bits>, data: seq<Byte>)
    requires t.Node? && Coded(input, codes) && GoodCodes(t, codes) && Flat(input, codes) <= Unpack(data)
    ensures var r := Decode(Trie(t, []), data, 0, Cursor([], []), |input|);
            r.Some? && |input| <= |r.value| < |input| + 8 && r.value[..|input|] == input
  {
    hide Trie, Sub, GoodCodes, Flat, Unpack, Walk, Decode;
    var nodes, flat, bits := Trie(t, []), Flat(input, codes), Unpack(data);
    var pad := bits[|flat|..];
    assert bits == flat + pad;
    WalkFlat(t, input, codes);
    WalkConcat(nodes, Cursor([], []), flat, pad);
    SubRoot(t);
    NeverMissing(t, Cursor([], input), pad);
    assert data[0..] == data;
    DecodeByWalk(nodes, data, 0, Cursor([], []), |input|);
  }

  /** Bits of the last code cut off: the last byte never comes out, and the loop reads on. */
  lemma {:induction false} CutDecodes(input: seq<Byte>, t: Tree, codes: map<Byte, Bits>, data: seq<Byte>, k: nat)
    requires t.Node? && input != [] && Coded(input, codes) && GoodCodes(t, codes)
    requires k < |codes[input[|input| - 1]]|
    requires Coded(input[..|input| - 1], codes)
    requires Unpack(data) == Flat(input[..|input| - 1], codes) + codes[input[|input| - 1]][..k]
    ensures Decode(Trie(t, []), data, 0, Cursor([], []), |input|) == None
  {
    hide Trie, Flat, Unpack, Walk, Decode, LeadsTo;
    var init, b := input[..|input| - 1], input[|input| - 1];
    WalkFlat(t, init, codes);
    WalkPart(t, codes[b], b, init, k);
    WalkConcat(Trie(t, []), Cursor([], []), Flat(init, codes), codes[b][..k]);
    assert data[0..] == data;
    DecodeByWalk(Trie(t, []), data, 0, Cursor([], []), |input|);
  }

  /** The data section after the cut. */
  lemma {:induction false} CutWhere(input: seq<Byte>, codes: map<Byte, Bits>, data: seq<Byte>) returns (k: nat)
    requires Coded(input, codes) && IsPacked(input, codes, data) && TailDropped(input, codes)
    requires |codes[input[|input| - 1]]| <= BLOCK
    ensures Coded(input[..|input| - 1], codes) && k < |codes[input[|input| - 1]]|
    ensures Unpack(data) == Flat(input[..|input| - 1], codes) + codes[input[|input| - 1]][..k]
  {
    hide Unpack;
    var init, code := Flat(input[..|input| - 1], codes), codes[input[|input| - 1]];
    var flat := Flat(input, codes);
    assert flat == init + code;
    var m := |flat| / BLOCK * BLOCK;
    assert |init| <= m < |flat|;
    k := m - |init|;
    assert flat[..m] == init + code[..k];
  }

  /** For every file that the compressor can write for an input that is not all zero bytes, under
      every tie-breaking and every padding: the decompressor gives the input back if and only if
      the input has two different bytes and the last code does not run over a full block. */
  lemma {:induction false} RoundTripIff(input: seq<Byte>, t: Tree, data: seq<Byte>, file: Compressed)
    requires input != [] && CompressedFrom(input, t, data, file) && Height(t) <= 15
    ensures Decompressed(file) == Some(input) <==> t.Node? && !TailDropped(input, CodesOf(t))
  {
    hide Table, TableBytes, Trie, ReadKeys, Decode, Collect, Flat, Unpack, LeadsTo;
    KeyTableRoundTrip(t, data);
    var off := |TableBytes(Table(t, []))|;
    assert file.body[off..] == data;
    CodesGood(t);
    if t.Node? {
      if TailDropped(input, CodesOf(t)) {
        var k := CutWhere(input, CodesOf(t), data);
        CutDecodes(input, t, CodesOf(t), data, k);
      } else {
        WholeDecodes(input, t, CodesOf(t), data);
      }
    } else {
      OneSymbolFails(input, t, data);
    }
  }

  lemma {:induction false} EmptyCode(t: Tree, p: Bits)
    requires t.Leaf? && Sub(t, p).Some?
    ensures p == []
  {
  }

  /** A single symbol gets the empty code, so there is no data to decode. */
  lemma {:induction false} OneSymbolFails(input: seq<Byte>, t: Tree, data: seq<Byte>)
    requires input != [] && t.Leaf? && Coded(input, CodesOf(t)) && IsPacked(input, CodesOf(t), data)
    ensures !TailDropped(input, CodesOf(t))
    ensures Decode(Trie(t, []), data, 0, Cursor([], []), |input|) == None
  {
    hide Collect, Table, Trie, Unpack;
    CodesGood(t);
    forall b | b in CodesOf(t)
      ensures CodesOf(t)[b] == []
    {
      EmptyCode(t, CodesOf(t)[b]);
    }
    NoBits(input, CodesOf(t));
    assert |Flat(input[..|input| - 1], CodesOf(t))| == 0 by { NoBits(input[..|input| - 1], CodesOf(t)); }
    UnpackLength(data);
    assert data == [];
  }

  lemma {:induction false} NoBits(input: seq<Byte>, codes: map<Byte, Bits>)
    requires Coded(input, codes) && forall b :: b in codes ==> codes[b] == []
    ensures Flat(input, codes) == []
  {
    if input != [] { NoBits(input[..|input| - 1], codes); }
  }

  /** The tree has an inner node exactly when the input has two different bytes. */
  lemma {:induction false} NodeIffTwoBytes(input: seq<Byte>, t: Tree)
    requires HuffmanTree(input, t) && input != []
    ensures t.Node? <==> exists i, j :: 0 <= i < |input| && 0 <= j < |input| && input[i] != input[j]
  {
    if t.Leaf? {
      forall i | 0 <= i < |input|
        ensures input[i] == t.num
      {
        assert input[i] in input;
        assert Symbol(input[i], multiset(input)[input[i]]) in multiset(Symbols(t));
      }
    } else {
      var x := FirstSymbol(t.left);
      var y := FirstSymbol(t.right);
      assert x in Symbols(t) && y in Symbols(t);
      SymbolOnce(input, t, x);
      SymbolOnce(input, t, y);
      if x == y {
        TwiceInNode(t, x);
        assert false;
      }
      var i :| 0 <= i < |input| && input[i] == x.num;
      var j :| 0 <= j < |input| && input[j] == y.num;
    }
  }

  lemma {:induction false} FirstSymbol(t: Tree) returns (s: Symbol)
    ensures s in Symbols(t)
  {
    match t
    case Leaf(b, n) => s := Symbol(b, n);
    case Node(l, _) => s := FirstSymbol(l);
  }

  lemma {:induction false} TwiceInNode(t: Tree, x: Symbol)
    requires t.Node? && x in Symbols(t.left) && x in Symbols(t.right)
    ensures multiset(Symbols(t))[x] >= 2
  {
    assert x in multiset(Symbols(t.left)) && x in multiset(Symbols(t.right));
    assert multiset(Symbols(t)) == multiset(Symbols(t.left)) + multiset(Symbols(t.right));
  }

  // ---------- The file of zeros ----------

  /** The decompressor's tree for it: a root with a left child only. */
  const ZERO_NODES: map<Bits, Item> := map[[] := BLANK, [true] := Item(true, 0)]

  lemma {:induction false} ZeroKeys(data: seq<Byte>)
    ensures ReadKeys(map[[] := BLANK], [0, 64] + data, 0, 1) == Some(Built(ZERO_NODES, 2))
  {
    var e := Entry(0, [true]);
    var root: map<Bits, Item> := map[[] := BLANK];
    OneEntry(e, map[]);
    assert FieldByte([true], 0) == 64;
    assert EntryBytes(e) == [0, 64];
    ReadKeysBack(root, [e], [], data);
    assert [] + TableBytes([e]) + data == [0, 64] + data;
    ZeroTree(root, e);
  }

  lemma {:induction false} ZeroTree(root: map<Bits, Item>, e: Entry)
    requires root == map[[] := BLANK] && e == Entry(0, [true])
    ensures AddEntries(root, [e]) == ZERO_NODES
  {
    assert [e][1..] == [];
    assert AddEntries(root, [e]) == AddEntry(root, e);
    assert [true][..1] == [true];
    assert Grow(root, [true], 0) == root && [true] !in root;
    assert Grow(root, [true], 1) == root[[true] := BLANK];
    assert AddEntry(root, e) == root[[true] := BLANK][[true] := Item(true, 0)];
  }

  predicate AllTrue(bits: Bits) { forall i :: 0 <= i < |bits| ==> bits[i] }

  function Zeros(n: nat): seq<Byte> { seq(n, _ => 0) }

  lemma {:induction false} WalkOnes(out: seq<Byte>, bits: Bits)
    ensures AllTrue(bits) ==> Walk(ZERO_NODES, Cursor([], out), bits) == Some(Cursor([], out + Zeros(|bits|)))
    ensures !AllTrue(bits) ==> Walk(ZERO_NODES, Cursor([], out), bits) == None
    decreases |bits|
  {
    if bits == [] {
      assert out + Zeros(0) == out;
    } else {
      assert [] + [bits[0]] == [bits[0]];
      if bits[0] {
        WalkOnes(out + [0], bits[1..]);
        assert (out + [0]) + Zeros(|bits| - 1) == out + Zeros(|bits|);
        assert AllTrue(bits) <==> AllTrue(bits[1..]) by {
          if AllTrue(bits[1..]) {
            forall i | 0 <= i < |bits|
              ensures bits[i]
            {
              if i > 0 { assert bits[1..][i - 1]; }
            }
          }
        }
      } else {
        assert [false] !in ZERO_NODES by { assert [false] != [true] by { assert [false][0] != [true][0]; } }
      }
    }
  }

  lemma {:induction false} FlatOfZeros(input: seq<Byte>)
    requires AllZeros(input) && Coded(input, ZERO_CODES)
    ensures |Flat(input, ZERO_CODES)| == |input| && AllTrue(Flat(input, ZERO_CODES))
  {
    if input != [] { FlatOfZeros(input[..|input| - 1]); }
  }

  /** With a clear bit in the data the loop reaches it: before the last byte too little is out. */
  lemma {:induction false} ClearBitFails(data: seq<Byte>, k: nat, size: nat)
    requires k <= |data| && 8 * (|data| - 1) < size && !AllTrue(Unpack(data[k..]))
    ensures Decode(ZERO_NODES, data, k, Cursor([], Zeros(8 * k)), size) == None
    decreases |data| - k
  {
    hide Walk, BitsOf, Unpack;
    if k == |data| {
      assert data[k..] == [];
      UnpackNothing();
      assert false;
    } else {
      assert data[k..][0] == data[k] && data[k..][1..] == data[k + 1..];
      UnpackFirst(data[k..]);
      WalkOnes(Zeros(8 * k), BitsOf(data[k]));
      if AllTrue(BitsOf(data[k])) {
        assert Zeros(8 * k) + Zeros(8) == Zeros(8 * (k + 1));
        ClearBitFails(data, k + 1, size);
      }
    }
  }

  /** A file of zero bytes only: it comes back if and only if the padding happens to be all ones,
      because the tree for it has no right child. */
  lemma {:induction false} ZerosRoundTripIff(input: seq<Byte>, data: seq<Byte>, file: Compressed)
    requires input != [] && CompressedZeros(input, data, file)
    ensures Decompressed(file) == Some(input) <==> AllTrue(Unpack(data))
  {
    hide ReadKeys, Decode, Unpack, Walk, Flat;
    ZeroKeys(data);
    assert file.body[2..] == data;
    FlatOfZeros(input);
    assert Coded(input[..|input| - 1], ZERO_CODES) && AllZeros(input[..|input| - 1]);
    FlatOfZeros(input[..|input| - 1]);
    assert !TailDropped(input, ZERO_CODES);
    var bits := Unpack(data);
    UnpackLength(data);
    assert data[0..] == data;
    if AllTrue(bits) {
      WalkOnes([], bits);
      assert [] + Zeros(|bits|) == Zeros(|bits|);
      DecodeByWalk(ZERO_NODES, data, 0, Cursor([], []), |input|);
      var out := Decode(ZERO_NODES, data, 0, Cursor([], []), |input|).value;
      assert out[..|input|] == input;
    } else {
      assert Zeros(8 * 0) == [];
      ClearBitFails(data, 0, |input|);
    }
  }

  /** Bytes for bits that fill them. */
  function PackBits(bits: Bits): (data: seq<Byte>)
    requires |bits| % 8 == 0
    decreases |bits|
  {
    if bits == [] then [] else PackBits(bits[..|bits| - 8]) + [PackByte(bits[|bits| - 8..])]
  }

  lemma {:induction false} PackBitsBack(bits: Bits)
    requires |bits| % 8 == 0
    ensures Unpack(PackBits(bits)) == bits
    decreases |bits|
  {
    hide PackByte, BitsOf;
    if bits != [] {
      var less, last := bits[..|bits| - 8], bits[|bits| - 8..];
      PackBitsBack(less);
      PackByteBack(last);
      var data := PackBits(less) + [PackByte(last)];
      assert data[..|data| - 1] == PackBits(less);
      assert bits == less + last;
    }
  }

  /** Whatever memory held, the file of zeros comes back. */
  ghost predicate ZerosAlwaysComeBack(input: seq<Byte>) {
    forall data, file :: CompressedZeros(input, data, file) ==> Decompressed(file) == Some(input)
  }

  lemma {:induction false} NoTailOfOneBit(input: seq<Byte>)
    requires Coded(input, ZERO_CODES)
    ensures !TailDropped(input, ZERO_CODES)
  {
    hide Flat;
  }

  lemma {:induction false} WithoutPadding(input: seq<Byte>, data: seq<Byte>)
    requires AllZeros(input) && Coded(input, ZERO_CODES) && IsPacked(input, ZERO_CODES, data) && |input| % 8 == 0
    ensures AllTrue(Unpack(data))
  {
    hide Flat, Unpack, TailDropped;
    NoTailOfOneBit(input);
    FlatOfZeros(input);
    UnpackLength(data);
    assert Unpack(data) == Flat(input, ZERO_CODES);
  }

  /** Padding of clear bits, when there is some. */
  lemma {:induction false} ClearPadding(input: seq<Byte>) returns (data: seq<Byte>)
    requires AllZeros(input) && Coded(input, ZERO_CODES) && |input| % 8 != 0
    ensures IsPacked(input, ZERO_CODES, data) && !AllTrue(Unpack(data))
  {
    hide Flat, Unpack, TailDropped, PackBits;
    NoTailOfOneBit(input);
    FlatOfZeros(input);
    var flat, pad := Flat(input, ZERO_CODES), seq(8 - |input| % 8, _ => false);
    data := PackBits(flat + pad);
    PackBitsBack(flat + pad);
    assert !(flat + pad)[|flat|];
  }

  /** So a caller knows that a file of zeros comes back exactly when its length is a multiple of 8:
      only then does nothing depend on what memory held. */
  lemma {:induction false} ZerosComeBackIff(input: seq<Byte>)
    requires input != [] && AllZeros(input)
    ensures ZerosAlwaysComeBack(input) <==> |input| % 8 == 0
  {
    hide Decompressed, IsPacked, AllTrue, Unpack;
    assert Coded(input, ZERO_CODES);
    if |input| % 8 == 0 {
      forall data, file | CompressedZeros(input, data, file)
        ensures Decompressed(file) == Some(input)
      {
        WithoutPadding(input, data);
        ZerosRoundTripIff(input, data, file);
      }
    } else {
      var data := ClearPadding(input);
      var file := Compressed(|input|, 1, [0, 64] + data);
      assert CompressedZeros(input, data, file);
      ZerosRoundTripIff(input, data, file);
    }
  }
}
