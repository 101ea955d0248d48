/**
 A file that does not come back: 8189 times the byte 1, then 2, then 3.  The codes have one bit for
 1 and two bits for 2 and 3, so that the last code begins at bit 8191 of a block of 8192.
 */
module HuffmanTail {
  import opened Basics
  import opened HuffmanOptimal
  import opened HuffmanBuild
  import opened HuffmanCodes
  import opened HuffmanPacker
  import opened HuffmanFile

  function Ones(n: nat): seq<Byte> { seq(n, _ => 1) }

  function Trues(n: nat): Bits { seq(n, _ => true) }

  function TailInput(): seq<Byte> { Ones(8189) + [2, 3] }

  function Pair23(): Tree { Node(Leaf(2, 1), Leaf(3, 1)) }

  function TailTree(): Tree { Node(Leaf(1, 8189), Pair23()) }

  function Full(): Byte { PackByte(Trues(8)) }

  /** The last byte of the block: the last five 1s, the 2, and one bit of the 3. */
  function LastBits(): Bits { [true, true, true, true, true, false, true, false] }

  function LastByte(): Byte { PackByte(LastBits()) }

  function Block(full: Byte, last: Byte): seq<Byte> { seq(1023, _ => full) + [last] }

  function TailData(): seq<Byte> { Block(Full(), LastByte()) }

  // ---------- The tree is one that the compressor may build ----------

  lemma {:induction false} CountOnes(n: nat, b: Byte)
    ensures multiset(Ones(n))[b] == if b == 1 then n else 0
  {
    if n > 0 {
      CountOnes(n - 1, b);
      assert Ones(n) == Ones(n - 1) + [1];
    }
  }

  lemma {:induction false} TailCounts(b: Byte)
    ensures multiset(TailInput())[b] == if b == 1 then 8189 else if b == 2 || b == 3 then 1 else 0
  {
    CountOnes(8189, b);
  }

  lemma {:induction false} TailLeaves(n: nat)
    requires 4 <= n <= 256
    ensures Positive(TallyOf(TailInput())[..n]) == [Leaf(1, 8189), Leaf(2, 1), Leaf(3, 1)]
  {
    hide Positive, TailInput;
    if n == 4 {
      FirstLeaves();
    } else {
      TailCounts(n - 1);
      PositiveStep(TallyOf(TailInput()), n);
      TailLeaves(n - 1);
    }
  }

  lemma {:induction false} FirstLeaves()
    ensures Positive(TallyOf(TailInput())[..4]) == [Leaf(1, 8189), Leaf(2, 1), Leaf(3, 1)]
  {
    hide Positive, TailInput;
    var tally := TallyOf(TailInput());
    TailCounts(0);
    TailCounts(1);
    TailCounts(2);
    TailCounts(3);
    NoneOccur(tally[..0]);
    PositiveStep(tally, 1);
    PositiveStep(tally, 2);
    PositiveStep(tally, 3);
    PositiveStep(tally, 4);
  }

  lemma {:induction false} LastMerge()
    ensures GreedyRun([Leaf(1, 8189), Pair23()], TailTree())
  {
    var g := [Leaf(1, 8189), Pair23()];
    assert Merged(g) == [TailTree()];
    assert GreedyRun([TailTree()], TailTree());
    assert Sorting(g, g);
  }

  lemma {:induction false} TailTreeMayBeBuilt()
    ensures MayBuild(TailInput(), TailTree())
  {
    hide Positive, TailInput, GreedyRun, TallyOf;
    TailLeaves(256);
    assert TallyOf(TailInput())[..256] == TallyOf(TailInput());
    FirstMerge();
  }

  lemma {:induction false} FirstMerge()
    ensures GreedyRun([Leaf(1, 8189), Leaf(2, 1), Leaf(3, 1)], TailTree())
  {
    var f := [Leaf(1, 8189), Leaf(2, 1), Leaf(3, 1)];
    LastMerge();
    assert Merged(f) == [Leaf(1, 8189), Pair23()];
    assert Sorting(f, f);
  }

  // ---------- Its codes, and what they make of the input ----------

  lemma {:induction false} TailCodes()
    ensures CodesOf(TailTree()) == map[1 := [true], 2 := [false, true], 3 := [false, false]]
  {
    var t := TailTree();
    assert [] + [true] == [true] && [] + [false] == [false];
    assert [false] + [true] == [false, true] && [false] + [false] == [false, false];
    var pair := Table(Pair23(), [false]);
    assert pair == [Entry(2, [false, true])] + [Entry(3, [false, false])];
    var table := Table(t, []);
    assert table == [Entry(1, [true])] + pair;
    assert table[1..] == pair && pair[1..][1..] == [];
    assert Collect(pair[1..], map[1 := [true], 2 := [false, true]])
        == Collect([], map[1 := [true], 2 := [false, true], 3 := [false, false]]);
    assert Collect(pair, map[1 := [true]]) == Collect(pair[1..], map[1 := [true], 2 := [false, true]]);
  }

  lemma {:induction false} FlatOnes(n: nat, codes: map<Byte, Bits>)
    requires 1 in codes && codes[1] == [true]
    ensures Coded(Ones(n), codes) && Flat(Ones(n), codes) == Trues(n)
  {
    if n > 0 {
      FlatOnes(n - 1, codes);
      assert Ones(n)[..n - 1] == Ones(n - 1);
      assert Trues(n) == Trues(n - 1) + [true];
    }
  }

  lemma {:induction false} FlatMore(init: seq<Byte>, x: Byte, codes: map<Byte, Bits>)
    requires Coded(init, codes) && x in codes
    ensures Coded(init + [x], codes) && Flat(init + [x], codes) == Flat(init, codes) + codes[x]
  {
    assert (init + [x])[..|init|] == init;
  }

  lemma {:induction false} TailFlat(codes: map<Byte, Bits>)
    requires codes == map[1 := [true], 2 := [false, true], 3 := [false, false]]
    ensures var input := TailInput();
            && Coded(input, codes) && Coded(input[..8190], codes)
            && Flat(input[..8190], codes) == Trues(8189) + [false, true]
            && Flat(input, codes) == Trues(8189) + [false, true] + [false, false]
  {
    hide Flat;
    var input, ones := TailInput(), Ones(8189);
    FlatOnes(8189, codes);
    FlatMore(ones, 2, codes);
    FlatMore(ones + [2], 3, codes);
    assert input == (ones + [2]) + [3] && input[..8190] == ones + [2];
  }

  // ---------- The block that is written ----------

  lemma {:induction false} UnpackFull(n: nat)
    ensures Unpack(seq(n, _ => Full())) == Trues(8 * n)
  {
    hide BitsOf, PackByte;
    if n > 0 {
      var data, less := seq(n, _ => Full()), seq(n - 1, _ => Full());
      UnpackFull(n - 1);
      assert data[..n - 1] == less && data[n - 1] == Full();
      PackByteBack(Trues(8));
      assert Trues(8 * (n - 1)) + Trues(8) == Trues(8 * n);
    }
  }

  lemma {:induction false} TailUnpacked()
    ensures Unpack(TailData()) == Trues(8189) + [false, true] + [false]
  {
    hide BitsOf, Unpack, PackByte;
    UnpackFull(1023);
    PackByteBack(LastBits());
    UnpackLast(seq(1023, _ => Full()), LastByte());
    assert Trues(8184) + LastBits() == Trues(8189) + [false, true] + [false];
  }

  lemma {:induction false} UnpackLast(data: seq<Byte>, b: Byte)
    ensures Unpack(data + [b]) == Unpack(data) + BitsOf(b)
  {
    hide BitsOf;
    assert (data + [b])[..|data|] == data;
  }

  /** This is what the compressor writes, and it is not read back: the last code runs over the block,
      and its second bit is nowhere. */
  lemma {:induction false} TailIsLost()
    ensures var input, t, data := TailInput(), TailTree(), TailData();
            var file := Compressed(|input|, |Table(t, [])|, TableBytes(Table(t, [])) + data);
            && MayBuild(input, t) && CompressedFrom(input, t, data, file)
            && TailDropped(input, CodesOf(t)) && Decompressed(file) != Some(input)
  {
    hide MayBuild, HuffmanTree, Flat, Table, TableBytes, Unpack, TailData, TailInput, CodesOf, Decompressed;
    var input, t, data := TailInput(), TailTree(), TailData();
    TailTreeMayBeBuilt();
    TailLength();
    GreedyIsOptimal(input, t);
    TailCodes();
    TailFlat(CodesOf(t));
    TailUnpacked();
    TailPacked(input, CodesOf(t), data);
    RoundTripIff(input, t, data, Compressed(|input|, |Table(t, [])|, TableBytes(Table(t, [])) + data));
  }

  lemma {:induction false} TailLength()
    ensures |TailInput()| == 8191 && TailInput()[8190] == 3
  {
  }

  lemma {:induction false} TailPacked(input: seq<Byte>, codes: map<Byte, Bits>, data: seq<Byte>)
    requires |input| == 8191 && input[8190] == 3 && 3 in codes && codes[3] == [false, false]
    requires Coded(input, codes) && Coded(input[..8190], codes)
    requires Flat(input[..8190], codes) == Trues(8189) + [false, true]
    requires Flat(input, codes) == Trues(8189) + [false, true] + [false, false]
    requires Unpack(data) == Trues(8189) + [false, true] + [false]
    ensures TailDropped(input, codes) && IsPacked(input, codes, data)
  {
    hide Flat, Unpack;
    var flat := Flat(input, codes);
    assert |flat| / BLOCK * BLOCK == 8192;
    assert flat[..8192] == Unpack(data);
  }
}
