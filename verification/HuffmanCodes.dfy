/**
 The key table: each code is written as two bits per step, 01 for left and 10 for right, ended
 by 00, and the decompressor grows its tree from it step by step.

 The decompressor's heap of items is a map from paths to items: an item is where its path leads,
 and a missing child is a missing path.
 */
module HuffmanCodes {
  import opened Basics
  import opened HuffmanOptimal
  import opened HuffmanBuild

  /** A code; true is the character '1', a step to the left. */
  type Bits = seq<bool>

  datatype Entry = Entry(num: Byte, code: Bits)

  /** The leaves with their codes, in the order in which `do_huffman` visits them. */
  function Table(t: Tree, path: Bits): (e: seq<Entry>)
    ensures |e| >= 1
  {
    match t
    case Leaf(b, _) => [Entry(b, path)]
    case Node(l, r) => Table(l, path + [true]) + Table(r, path + [false])
  }

  // ---------- The key field ----------

  /** Two bits for step `k` of a code, 00 behind its end. */
  function Pair(code: Bits, k: nat): (p: nat)
    ensures p < 4 && (p == 0 <==> k >= |code|) && p != 3
  {
    if k >= |code| then 0 else if code[k] then 1 else 2
  }

  function FieldByte(code: Bits, i: nat): Byte {
    Pair(code, 4 * i) * 64 + Pair(code, 4 * i + 1) * 16 + Pair(code, 4 * i + 2) * 4 + Pair(code, 4 * i + 3)
  }

  function Field(code: Bits): (f: seq<Byte>)
    ensures |f| == |code| / 4 + 1
  {
    seq(|code| / 4 + 1, i requires 0 <= i => FieldByte(code, i))
  }

  function EntryBytes(e: Entry): (s: seq<Byte>)
    ensures |s| == 1 + (|e.code| / 4 + 1)
  {
    [e.num] + Field(e.code)
  }

  function TableBytes(entries: seq<Entry>): seq<Byte> {
    if entries == [] then [] else EntryBytes(entries[0]) + TableBytes(entries[1..])
  }

  lemma {:induction false} TableBytesConcat(a: seq<Entry>, b: seq<Entry>)
    ensures TableBytes(a + b) == TableBytes(a) + TableBytes(b)
  {
    if a == [] {
      assert a + b == b;
    } else {
      assert (a + b)[1..] == a[1..] + b;
      TableBytesConcat(a[1..], b);
    }
  }

  // ---------- Writing it ----------

  /** The filling of `result`: two bits at a time, from zeros. */
  method FillField(code: Bits) returns (result: seq<Byte>)
    requires |code| <= 15
    ensures result == Field(code)
  {
    result := [];
    var i := 0;
    while i < |code| / 4 + 1
      invariant 0 <= i <= |code| / 4 + 1 && |result| == i
      invariant forall k :: 0 <= k < i ==> result[k] == FieldByte(code, k)
    {
      var value := 0;
      var j := 0;
      while j < 4 && i * 4 + j < |code|
        invariant 0 <= j <= 4
        invariant j > 0 ==> i * 4 + j - 1 < |code|
        invariant value == (if j > 0 then Pair(code, 4 * i) * 64 else 0) + (if j > 1 then Pair(code, 4 * i + 1) * 16 else 0)
                         + (if j > 2 then Pair(code, 4 * i + 2) * 4 else 0) + (if j > 3 then Pair(code, 4 * i + 3) else 0)
      {
        var shift := if j == 0 then 64 else if j == 1 then 16 else if j == 2 then 4 else 1;
        value := value + (if code[i * 4 + j] then 1 else 2) * shift;
        j := j + 1;
      }
      assert value == FieldByte(code, i);
      result := result + [value];
      i := i + 1;
    }
  }

  /** What `do_huffman` changes: the path walked, the key buffer, the codes and the count. */
  class Encoder {
    var result_string: Bits
    const key_buf: array<Byte>
    var keybuf_off: nat
    var codes: map<Byte, Bits>
    var non_zero_nums: nat

    ghost predicate Valid()
      reads this, key_buf
    {
      key_buf.Length == 4096 && keybuf_off <= 4096
    }

    constructor ()
      ensures Valid() && fresh(key_buf) && result_string == [] && keybuf_off == 0 && codes == map[] && non_zero_nums == 0
    {
      result_string, keybuf_off, codes, non_zero_nums := [], 0, map[], 0;
      key_buf := new Byte[4096](_ => 0);
    }

    method PutKey(num: Byte, field: seq<Byte>)
      requires Valid() && keybuf_off + 1 + |field| <= 4096
      modifies this`keybuf_off, key_buf
      ensures Valid() && keybuf_off == old(keybuf_off) + 1 + |field|
      ensures key_buf[..keybuf_off] == old(key_buf[..keybuf_off]) + [num] + field
    {
      var at := keybuf_off;
      key_buf[at] := num;
      var i := 0;
      while i < |field|
        invariant 0 <= i <= |field|
        invariant key_buf[at] == num
        invariant forall k :: 0 <= k < i ==> key_buf[at + 1 + k] == field[k]
        invariant forall k :: 0 <= k < at ==> key_buf[k] == old(key_buf[k])
      {
        key_buf[at + 1 + i] := field[i];
        i := i + 1;
      }
      keybuf_off := at + 1 + |field|;
    }

    /** A leaf: its key goes into the buffer, its code into the table. */
    method VisitLeaf(num: Byte)
      requires Valid() && |result_string| <= 15
      requires keybuf_off + |TableBytes([Entry(num, result_string)])| <= 4096
      modifies this, key_buf
      ensures Valid() && result_string == old(result_string)
      ensures var key := TableBytes([Entry(num, result_string)]);
              keybuf_off == old(keybuf_off) + |key| && key_buf[..keybuf_off] == old(key_buf[..keybuf_off]) + key
      ensures codes == Collect([Entry(num, result_string)], old(codes))
      ensures non_zero_nums == old(non_zero_nums) + 1
    {
      hide Field, FieldByte, TableBytes, Collect;
      OneEntry(Entry(num, result_string), codes);
      var field := FillField(result_string);
      ghost var before := key_buf[..keybuf_off];
      PutKey(num, field);
      assert before + [num] + field == before + ([num] + field);
      codes := codes[num := result_string];
      non_zero_nums := non_zero_nums + 1;
    }

    /** Visits the leaves below the current path, `1` before `0`. */
    method DoHuffman(t: Tree)
      requires Valid() && |result_string| + Height(t) <= 15
      requires keybuf_off + |TableBytes(Table(t, result_string))| <= 4096
      modifies this, key_buf
      ensures Valid() && result_string == old(result_string)
      ensures keybuf_off == old(keybuf_off) + |TableBytes(Table(t, result_string))|
      ensures key_buf[..keybuf_off] == old(key_buf[..keybuf_off]) + TableBytes(Table(t, result_string))
      ensures codes == Collect(Table(t, result_string), old(codes))
      ensures non_zero_nums == old(non_zero_nums) + |Table(t, result_string)|
      decreases t
    {
      hide TableBytes, Collect;
      match t
      case Leaf(num, _) =>
        VisitLeaf(num);
      case Node(l, r) =>
        ghost var path, before := result_string, codes;
        ghost var a, b := Table(l, path + [true]), Table(r, path + [false]);
        TableBytesConcat(a, b);
        CollectConcat(a, b, before);
        result_string := result_string + [true];
        DoHuffman(l);
        result_string := result_string[..|result_string| - 1];
        assert result_string == path;
        result_string := result_string + [false];
        DoHuffman(r);
        result_string := result_string[..|result_string| - 1];
        assert result_string == path;
    }
  }

  /** The codes by byte, later entries replacing earlier ones. */
  function Collect(entries: seq<Entry>, into: map<Byte, Bits>): map<Byte, Bits> {
    if entries == [] then into else Collect(entries[1..], into[entries[0].num := entries[0].code])
  }

  lemma {:induction false} CollectConcat(a: seq<Entry>, b: seq<Entry>, into: map<Byte, Bits>)
    ensures Collect(a + b, into) == Collect(b, Collect(a, into))
    decreases |a|
  {
    if a == [] {
      assert a + b == b;
    } else {
      assert (a + b)[1..] == a[1..] + b;
      CollectConcat(a[1..], b, into[a[0].num := a[0].code]);
    }
  }

  lemma {:induction false} OneEntry(e: Entry, into: map<Byte, Bits>)
    ensures TableBytes([e]) == EntryBytes(e) && Collect([e], into) == into[e.num := e.code]
  {
    assert [e][1..] == [];
    assert TableBytes([e]) == EntryBytes(e) + [];
  }

  // ---------- Reading it back ----------

  /** `(byte >> (6 - 2 * i)) & 3`. */
  function PairAt(b: Byte, i: nat): nat
    requires i < 4
  {
    if i == 0 then b / 64 else if i == 1 then b / 16 % 4 else if i == 2 then b / 4 % 4 else b % 4
  }

  /** `key_trans_iter`: 0 right, 1 left, 2 end; two bits never give anything else. */
  function KeyTransIter(n: nat): int { if n == 2 then 0 else if n == 1 then 1 else if n == 0 || n == 3 then 2 else -1 }

  /** The code read from pair `k` on, up to the pair that ends it; None when the input ends first. */
  function ReadCode(buf: seq<Byte>, at: nat, k: nat): Option<Bits>
    decreases |buf| - (at + k / 4), 4 - k % 4
  {
    if at + k / 4 >= |buf| then None
    else
      var step := KeyTransIter(PairAt(buf[at + k / 4], k % 4));
      if step == 2 then Some([])
      else
        match ReadCode(buf, at, k + 1)
        case None => None
        case Some(rest) => Some([step == 1] + rest)
  }

  /** An item of the decompressor's tree. */
  datatype Item = Item(flag: bool, num: Byte)

  const BLANK := Item(false, 0)

  /** The items on the way along a code, up to its step `k`. */
  function Grow(nodes: map<Bits, Item>, code: Bits, k: nat): map<Bits, Item>
    requires k <= |code|
  {
    if k == 0 then nodes
    else
      var m := Grow(nodes, code, k - 1);
      if code[..k] in m then m else m[code[..k] := BLANK]
  }

  function AddEntry(nodes: map<Bits, Item>, e: Entry): map<Bits, Item> {
    Grow(nodes, e.code, |e.code|)[e.code := Item(true, e.num)]
  }

  function AddEntries(nodes: map<Bits, Item>, entries: seq<Entry>): map<Bits, Item>
    decreases |entries|
  {
    if entries == [] then nodes else AddEntries(AddEntry(nodes, entries[0]), entries[1..])
  }

  /** The tree grown from `n` keys, and how many bytes they took. */
  datatype Built = Built(nodes: map<Bits, Item>, off: nat)

  function ReadKeys(nodes: map<Bits, Item>, buf: seq<Byte>, off: nat, n: nat): Option<Built>
    decreases n
  {
    if n == 0 then Some(Built(nodes, off))
    else if off >= |buf| then None
    else
      match ReadCode(buf, off + 1, 0)
      case None => None
      case Some(code) => ReadKeys(AddEntry(nodes, Entry(buf[off], code)), buf, off + 1 + (|code| / 4 + 1), n - 1)
  }

  /** `huffman_build`, with its two loops. */
  method HuffmanBuildTree(buf: seq<Byte>, nonZeroNums: nat) returns (built: Option<Built>)
    ensures built == ReadKeys(map[[] := BLANK], buf, 0, nonZeroNums)
  {
    var nodes: map<Bits, Item> := map[[] := BLANK];
    var off, left := 0, nonZeroNums;
    while left > 0
      invariant 0 <= left && 0 <= off
      invariant ReadKeys(map[[] := BLANK], buf, 0, nonZeroNums) == ReadKeys(nodes, buf, off, left)
    {
      if off >= |buf| {
        return None;
      }
      var num := buf[off];
      var code := ReadOneKey(buf, off + 1);
      match code
      case None => return None;
      case Some(c) =>
        nodes := GrowLoop(nodes, c);
        nodes := nodes[c := Item(true, num)];
        off := off + 1 + (|c| / 4 + 1);
        left := left - 1;
    }
    return Some(Built(nodes, off));
  }

  method ReadOneKey(buf: seq<Byte>, at: nat) returns (code: Option<Bits>)
    ensures code == ReadCode(buf, at, 0)
  {
    var k, steps := 0, [];
    assert Prepend([], ReadCode(buf, at, 0)) == ReadCode(buf, at, 0) by { PrependNothing(ReadCode(buf, at, 0)); }
    while true
      invariant ReadCode(buf, at, 0) == Prepend(steps, ReadCode(buf, at, k)) && k >= 0
      decreases |buf| - (at + k / 4), 4 - k % 4
    {
      if at + k / 4 >= |buf| {
        return None;
      }
      var step := KeyTransIter(PairAt(buf[at + k / 4], k % 4));
      if step == 2 {
        assert steps + [] == steps;
        return Some(steps);
      }
      PrependStep(steps, step == 1, ReadCode(buf, at, k + 1));
      steps := steps + [step == 1];
      k := k + 1;
    }
  }

  function Prepend(steps: Bits, rest: Option<Bits>): Option<Bits> {
    match rest case None => None case Some(r) => Some(steps + r)
  }

  lemma {:induction false} PrependNothing(rest: Option<Bits>)
    ensures Prepend([], rest) == rest
  {
    if rest.Some? { assert [] + rest.value == rest.value; }
  }

  lemma {:induction false} PrependStep(steps: Bits, bit: bool, rest: Option<Bits>)
    ensures Prepend(steps, Prepend([bit], rest)) == Prepend(steps + [bit], rest)
  {
    if rest.Some? { assert steps + ([bit] + rest.value) == (steps + [bit]) + rest.value; }
  }

  /** Allocating the items that are missing on the way. */
  method GrowLoop(nodes: map<Bits, Item>, code: Bits) returns (r: map<Bits, Item>)
    ensures r == Grow(nodes, code, |code|)
  {
    r := nodes;
    var k := 0;
    while k < |code|
      invariant 0 <= k <= |code| && r == Grow(nodes, code, k)
    {
      k := k + 1;
      if code[..k] !in r {
        r := r[code[..k] := BLANK];
      }
    }
  }

  // ---------- The field read back is the code written ----------

  lemma {:induction false} PairOfByte(code: Bits, i: nat, j: nat)
    requires j < 4
    ensures PairAt(FieldByte(code, i), j) == Pair(code, 4 * i + j)
  {
    hide Pair;
    FourPairs(Pair(code, 4 * i), Pair(code, 4 * i + 1), Pair(code, 4 * i + 2), Pair(code, 4 * i + 3));
  }

  lemma {:induction false} FourPairs(a: nat, b: nat, c: nat, d: nat)
    requires a < 4 && b < 4 && c < 4 && d < 4
    ensures var x := a * 64 + b * 16 + c * 4 + d; x / 64 == a && x / 16 % 4 == b && x / 4 % 4 == c && x % 4 == d
  {
    var x := a * 64 + b * 16 + c * 4 + d;
    assert x / 4 == a * 16 + b * 4 + c;
    assert x / 16 == a * 4 + b;
  }

  lemma {:induction false} ReadField(code: Bits, buf: seq<Byte>, at: nat, k: nat)
    requires k <= |code| && at + |Field(code)| <= |buf| && buf[at..at + |Field(code)|] == Field(code)
    ensures ReadCode(buf, at, k) == Some(code[k..])
  {
    hide FieldByte, PairAt, ReadCode;
    forall j | 0 <= j <= |code|
      ensures PairIn(buf, at, j) == Pair(code, j)
    {
      assert buf[at + j / 4] == buf[at..at + |Field(code)|][j / 4] == FieldByte(code, j / 4);
      PairOfByte(code, j / 4, j % 4);
    }
    ReadSpelt(code, buf, at, k);
  }

  /** Pair `j` of what stands at `at`. */
  function PairIn(buf: seq<Byte>, at: nat, j: nat): nat
    requires at + j / 4 < |buf|
  {
    PairAt(buf[at + j / 4], j % 4)
  }

  /** 01 and 10 for the steps of a code, then 00 or 11. */
  ghost predicate Spelt(buf: seq<Byte>, at: nat, code: Bits) {
    && at + |code| / 4 < |buf| && (PairIn(buf, at, |code|) == 0 || PairIn(buf, at, |code|) == 3)
    && forall j :: 0 <= j < |code| ==> PairIn(buf, at, j) == if code[j] then 1 else 2
  }

  /** Whatever pairs stand there, the code they spell is read, and 11 ends it as well as 00 does. */
  lemma {:induction false} ReadSpelt(code: Bits, buf: seq<Byte>, at: nat, k: nat)
    requires k <= |code| && Spelt(buf, at, code)
    ensures ReadCode(buf, at, k) == Some(code[k..])
    decreases |code| - k
  {
    hide PairAt;
    if k < |code| {
      assert PairIn(buf, at, k) == if code[k] then 1 else 2;
      ReadSpelt(code, buf, at, k + 1);
      assert code[k..] == [code[k]] + code[k + 1..];
    } else {
      assert PairIn(buf, at, k) == 0 || PairIn(buf, at, k) == 3;
      assert code[k..] == [];
    }
  }

  /** The keys written for some entries, read back: the tree grown is the one grown from the
      entries themselves, and exactly the bytes written are consumed. */
  lemma {:induction false} ReadKeysBack(nodes: map<Bits, Item>, entries: seq<Entry>, before: seq<Byte>, after: seq<Byte>)
    ensures ReadKeys(nodes, before + TableBytes(entries) + after, |before|, |entries|)
         == Some(Built(AddEntries(nodes, entries), |before| + |TableBytes(entries)|))
    decreases |entries|
  {
    hide EntryBytes, AddEntry, ReadCode, Field;
    var buf := before + TableBytes(entries) + after;
    if entries == [] {
    } else {
      var e := entries[0];
      var mine, rest := EntryBytes(e), TableBytes(entries[1..]);
      assert buf == before + (mine + (rest + after));
      KeyAt(e, before, rest + after, buf);
      assert buf == (before + mine) + rest + after;
      assert |mine| == 1 + (|e.code| / 4 + 1);
      ReadKeysBack(AddEntry(nodes, e), entries[1..], before + mine, after);
    }
  }

  lemma {:induction false} KeyAt(e: Entry, before: seq<Byte>, after: seq<Byte>, buf: seq<Byte>)
    requires buf == before + (EntryBytes(e) + after)
    ensures |before| < |buf| && buf[|before|] == e.num && ReadCode(buf, |before| + 1, 0) == Some(e.code)
  {
    var at := |before| + 1;
    assert buf[at..at + |Field(e.code)|] == Field(e.code);
    ReadField(e.code, buf, at, 0);
    assert e.code[0..] == e.code;
  }
}
