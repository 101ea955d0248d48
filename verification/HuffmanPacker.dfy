/**
 The packer: codes are written as characters into a block of 8192, and each full block becomes
 1024 bytes.  The block is not cleared, so the last byte is padded with whatever it held.
 */
module HuffmanPacker {
  import opened Basics
  import opened Numbers
  import opened HuffmanCodes

  const BUFFER_LENGTH: nat := 1024
  const BLOCK: nat := 8192

  // ---------- Bytes and bits ----------

  /** `str_to_unum`, most significant first. */
  function StrToUnum(c: Bits): (v: nat)
    ensures v < Two(|c|)
  {
    if c == [] then 0 else (if c[0] then Two(|c| - 1) else 0) + StrToUnum(c[1..])
  }

  /** The low `n` bits of a number, most significant first. */
  function ToBits(v: nat, n: nat): (c: Bits)
    ensures |c| == n
  {
    if n == 0 then [] else [v / Two(n - 1) % 2 == 1] + ToBits(v % Two(n - 1), n - 1)
  }

  lemma {:induction false} ToBitsBack(c: Bits)
    ensures ToBits(StrToUnum(c), |c|) == c
  {
    hide Two;
    if c != [] {
      var p, low := Two(|c| - 1), StrToUnum(c[1..]);
      TopBit(c[0], low, p);
      ToBitsBack(c[1..]);
      OneBit(c[0], low, |c|);
      assert StrToUnum(c) == (if c[0] then p else 0) + low;
      assert c == [c[0]] + c[1..];
    }
  }

  lemma {:induction false} OneBit(top: bool, low: nat, n: nat)
    requires n > 0 && low < Two(n - 1)
    ensures ToBits((if top then Two(n - 1) else 0) + low, n) == [top] + ToBits(low, n - 1)
  {
    TopBit(top, low, Two(n - 1));
  }

  lemma {:induction false} TopBit(top: bool, low: nat, p: nat)
    requires low < p
    ensures var v := (if top then p else 0) + low; v / p == (if top then 1 else 0) && v % p == low
  {
    if top {
      assert (p + low) / p == 1 && (p + low) % p == low;
    } else {
      assert low / p == 0 && low % p == low;
    }
  }

  lemma {:induction false} EightBits()
    ensures Two(8) == 256
  {
    assert Two(4) == 16;
  }

  function PackByte(c: Bits): Byte
    requires |c| == 8
  {
    EightBits();
    StrToUnum(c)
  }

  function BitsOf(b: Byte): (c: Bits)
    ensures |c| == 8
  {
    ToBits(b, 8)
  }

  /** Bit j of a byte is `(value >> (7 - j)) & 1`. */
  lemma {:induction false} BitAt(v: nat, n: nat, j: nat)
    requires j < n
    ensures ToBits(v, n)[j] == (v / Two(n - 1 - j) % 2 == 1)
    decreases n
  {
    if j > 0 {
      BitAt(v % Two(n - 1), n - 1, j - 1);
      ModKeepsBit(v, n - 1, n - 1 - j);
    }
  }

  /** Cutting a number at bit `m` leaves the bits below it as they are. */
  lemma {:induction false} ModKeepsBit(v: nat, m: nat, k: nat)
    requires k < m
    ensures v % Two(m) / Two(k) % 2 == v / Two(k) % 2
  {
    TwoAdd(m - k, k);
    CutKeepsBit(v, Two(k), Two(m - 1 - k));
  }

  function Unpack(data: seq<Byte>): Bits {
    if data == [] then [] else Unpack(data[..|data| - 1]) + BitsOf(data[|data| - 1])
  }

  lemma {:induction false} UnpackLength(data: seq<Byte>)
    ensures |Unpack(data)| == 8 * |data|
  {
    if data != [] { UnpackLength(data[..|data| - 1]); }
  }

  lemma {:induction false} UnpackConcat(a: seq<Byte>, b: seq<Byte>)
    ensures Unpack(a + b) == Unpack(a) + Unpack(b)
    decreases |b|
  {
    hide BitsOf;
    if b == [] {
      assert a + b == a;
    } else {
      assert (a + b)[..|a + b| - 1] == a + b[..|b| - 1];
      UnpackConcat(a, b[..|b| - 1]);
    }
  }

  // ---------- The bits to be written ----------

  predicate Coded(input: seq<Byte>, codes: map<Byte, Bits>) {
    forall i :: 0 <= i < |input| ==> input[i] in codes
  }

  /** All codes in a row. */
  function Flat(input: seq<Byte>, codes: map<Byte, Bits>): Bits
    requires Coded(input, codes)
  {
    if input == [] then [] else Flat(input[..|input| - 1], codes) + codes[input[|input| - 1]]
  }

  /** The last code fills a block and has bits left over: nothing writes those. */
  predicate TailDropped(input: seq<Byte>, codes: map<Byte, Bits>)
    requires Coded(input, codes)
  {
    input != [] &&
    |Flat(input[..|input| - 1], codes)| % BLOCK + |codes[input[|input| - 1]]| > BLOCK
  }

  /** What the data section holds: everything, padded to a byte, or everything but the bits left
      over from the last full block. */
  ghost predicate IsPacked(input: seq<Byte>, codes: map<Byte, Bits>, data: seq<Byte>)
    requires Coded(input, codes)
  {
    var flat, bits := Flat(input, codes), Unpack(data);
    if TailDropped(input, codes) then
      bits == flat[..|flat| / BLOCK * BLOCK]
    else
      flat <= bits && |bits| < |flat| + 8
  }

  // ---------- The writing loop ----------

  /** `data_buf[j] = str_to_unum(string_buf + 8 * j, 8)` for the first `n` bytes. */
  method PackBlock(buf: array<bool>, n: nat) returns (data: seq<Byte>)
    requires 8 * n <= buf.Length
    ensures |data| == n && Unpack(data) == buf[..8 * n]
  {
    hide BitsOf, PackByte;
    data := [];
    var j := 0;
    while j < n
      invariant 0 <= j <= n && |data| == j && Unpack(data) == buf[..8 * j]
    {
      var c := buf[8 * j..8 * j + 8];
      PackByteBack(c);
      assert (data + [PackByte(c)])[..|data|] == data;
      assert buf[..8 * (j + 1)] == buf[..8 * j] + c;
      data := data + [PackByte(c)];
      j := j + 1;
    }
  }

  lemma {:induction false} PackByteBack(c: Bits)
    requires |c| == 8
    ensures BitsOf(PackByte(c)) == c
  {
    ToBitsBack(c);
  }

  /** `memcpy` into the block. */
  method PutBits(buf: array<bool>, at: nat, bits: Bits)
    requires at + |bits| <= buf.Length
    modifies buf
    ensures buf[..at + |bits|] == old(buf[..at]) + bits
  {
    var i := 0;
    while i < |bits|
      invariant 0 <= i <= |bits|
      invariant forall k :: 0 <= k < at ==> buf[k] == old(buf[k])
      invariant forall k :: 0 <= k < i ==> buf[at + k] == bits[k]
    {
      buf[at + i] := bits[i];
      i := i + 1;
    }
  }

  /** Where the packer stands: the whole blocks are in the file, the rest is in the block. */
  ghost predicate Standing(done: Bits, file: seq<Byte>, block: Bits) {
    Unpack(file) + block == done && |block| < BLOCK && |file| % BUFFER_LENGTH == 0
  }

  lemma {:induction false} StandingOffset(done: Bits, file: seq<Byte>, block: Bits)
    requires Standing(done, file, block)
    ensures |block| == |done| % BLOCK && Unpack(file) == done[..|done| / BLOCK * BLOCK]
  {
    hide Unpack;
    UnpackLength(file);
    assert 8 * |file| == |file| / BUFFER_LENGTH * BLOCK;
    assert |done| == |file| / BUFFER_LENGTH * BLOCK + |block|;
    assert done[..8 * |file|] == Unpack(file);
  }

  /** A code that fits behind the others in the block. */
  method AddToBlock(buf: array<bool>, off: nat, code: Bits) returns (off': nat)
    requires buf.Length == BLOCK && off + |code| < BLOCK
    modifies buf
    ensures off' == off + |code| && buf[..off'] == old(buf[..off]) + code
  {
    PutBits(buf, off, code);
    off' := off + |code|;
  }

  /** A code that fills the block: the block is written, and the rest starts the next one. */
  method FillBlock(buf: array<bool>, off: nat, code: Bits, ghost done: Bits, file: seq<Byte>)
      returns (off': nat, file': seq<Byte>)
    requires buf.Length == BLOCK && off < BLOCK && off + |code| >= BLOCK && |code| <= BLOCK
    requires Standing(done, file, buf[..off])
    modifies buf
    ensures off' == off + |code| - BLOCK && Standing(done + code, file', buf[..off'])
  {
    hide Unpack;
    var temp := BLOCK - off;
    ghost var before := buf[..off];
    PutBits(buf, off, code[..temp]);
    var block := PackBlock(buf, BUFFER_LENGTH);
    UnpackConcat(file, block);
    file' := file + block;
    assert Unpack(file') == Unpack(file) + (before + code[..temp]);
    off' := |code| - temp;
    if off' != 0 {
      PutBits(buf, 0, code[temp..]);
    }
    assert buf[..off'] == code[temp..];
    BlockFilled(Unpack(file), before, code, temp, done);
    UnpackLength(block);
  }

  lemma {:induction false} BlockFilled(written: Bits, before: Bits, code: Bits, temp: nat, done: Bits)
    requires temp <= |code| && written + before == done
    ensures (written + (before + code[..temp])) + code[temp..] == done + code
  {
    assert code == code[..temp] + code[temp..];
  }

  /** The whole data section. */
  method PackAll(input: seq<Byte>, codes: map<Byte, Bits>, buf: array<bool>) returns (file: seq<Byte>)
    requires Coded(input, codes) && buf.Length == BLOCK
    requires forall b :: b in codes ==> |codes[b]| <= BLOCK
    modifies buf
    ensures IsPacked(input, codes, file)
  {
    hide Unpack, IsPacked, Flat, TailDropped;
    file := [];
    var off := 0;
    StartStanding(input, codes, buf[..0]);
    var i := 0;
    while i < |input|
      invariant 0 <= i <= |input| && 0 <= off < BLOCK
      invariant Coded(input[..i], codes)
      invariant i < |input| || input == [] ==> Standing(Flat(input[..i], codes), file, buf[..off])
      invariant i == |input| > 0 ==> IsPacked(input, codes, file)
    {
      var code := codes[input[i]];
      ghost var done := Flat(input[..i], codes);
      ghost var file0, block0 := file, buf[..off];
      FlatStep(input, codes, i);
      if off + |code| >= BLOCK {
        off, file := FillBlock(buf, off, code, done, file);
        if i == |input| - 1 { FilledLast(input, codes, done, code, file0, block0, file, buf[..off]); }
      } else {
        off := AddToBlock(buf, off, code);
        assert Standing(done + code, file, buf[..off]) by { assert Unpack(file) + buf[..off] == done + code; }
        if i == |input| - 1 {
          var n := off / 8 + (if off % 8 != 0 then 1 else 0);
          var tail := PackBlock(buf, n);
          UnpackConcat(file, tail);
          AddedLast(input, codes, done, code, file0, block0, file + tail, buf[..8 * n]);
          file := file + tail;
        }
      }
      i := i + 1;
    }
    if input == [] { EmptyPacked(input, codes, file, buf[..off]); }
  }

  lemma {:induction false} StartStanding(input: seq<Byte>, codes: map<Byte, Bits>, block: Bits)
    requires Coded(input, codes) && block == []
    ensures Standing(Flat(input[..0], codes), [], block)
  {
    assert input[..0] == [];
  }

  lemma {:induction false} EmptyPacked(input: seq<Byte>, codes: map<Byte, Bits>, file: seq<Byte>, block: Bits)
    requires input == [] && Coded(input, codes) && Standing(Flat(input[..0], codes), file, block)
    ensures IsPacked(input, codes, file)
  {
    assert input[..0] == [];
  }

  lemma {:induction false} FlatStep(input: seq<Byte>, codes: map<Byte, Bits>, i: nat)
    requires Coded(input, codes) && i < |input|
    ensures Coded(input[..i], codes) && Coded(input[..i + 1], codes)
    ensures Flat(input[..i + 1], codes) == Flat(input[..i], codes) + codes[input[i]]
    ensures i + 1 == |input| ==> input[..i + 1] == input && input[..i] == input[..|input| - 1]
  {
    assert input[..i + 1][..i] == input[..i];
  }

  lemma {:induction false} FilledLast(input: seq<Byte>, codes: map<Byte, Bits>, done: Bits, code: Bits,
                                      file0: seq<Byte>, block0: Bits, file: seq<Byte>, block: Bits)
    requires Coded(input, codes) && input != [] && Coded(input[..|input| - 1], codes)
    requires done == Flat(input[..|input| - 1], codes) && code == codes[input[|input| - 1]] && Flat(input, codes) == done + code
    requires Standing(done, file0, block0) && Standing(done + code, file, block) && |block0| + |code| >= BLOCK
    requires |block| == |block0| + |code| - BLOCK
    ensures IsPacked(input, codes, file)
  {
    hide Unpack, Flat;
    StandingOffset(done, file0, block0);
    StandingOffset(done + code, file, block);
    if |block| == 0 { assert Unpack(file) + block == Unpack(file); }
  }

  lemma {:induction false} AddedLast(input: seq<Byte>, codes: map<Byte, Bits>, done: Bits, code: Bits,
                                     file0: seq<Byte>, block0: Bits, file: seq<Byte>, padded: Bits)
    requires Coded(input, codes) && input != [] && Coded(input[..|input| - 1], codes)
    requires done == Flat(input[..|input| - 1], codes) && code == codes[input[|input| - 1]] && Flat(input, codes) == done + code
    requires Standing(done, file0, block0) && |block0| + |code| < BLOCK
    requires Unpack(file) == Unpack(file0) + padded && block0 + code <= padded && |padded| < |block0| + |code| + 8
    ensures IsPacked(input, codes, file)
  {
    hide Unpack, Flat;
    StandingOffset(done, file0, block0);
    assert Unpack(file0) + (block0 + code) == done + code;
    assert Unpack(file0) + (block0 + code) <= Unpack(file0) + padded;
  }
}
