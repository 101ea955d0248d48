/**
 The sliding byte buffer: a heap block with the readable bytes between two indices.  Appending
 either fits, or slides the content down, or doubles the block until it fits.
 */
module Buffers {
  import opened Basics
  import opened Numbers

  /** The doubling loop of `reserve`; it needs something to double. */
  function Doubled(size: nat, minSize: nat): (r: nat)
    requires size > 0
    ensures size <= r && minSize <= r
    ensures r == size || r < 2 * minSize
    decreases if size < minSize then minSize - size else 0
  {
    if size < minSize then Doubled(size * 2, minSize) else size
  }

  /** The doubling loop ends, for a given goal, exactly when it starts from something positive:
      from zero it never gets there, however often it doubles. */
  lemma {:induction false} DoublingEndsIff(size: nat, minSize: nat)
    requires minSize > 0
    ensures size > 0 <==> exists k: nat :: size * Two(k) >= minSize
  {
    if size > 0 {
      TwoBeats(minSize);
      MulMono(1, size, Two(minSize));
      assert size * Two(minSize) >= minSize;
    }
  }

  /** It stops at the first doubling that reaches the goal. */
  lemma {:induction false} DoubledIsFirst(size: nat, minSize: nat) returns (k: nat)
    requires size > 0
    ensures Doubled(size, minSize) == size * Two(k)
    ensures k > 0 ==> size * Two(k - 1) < minSize
    decreases if size < minSize then minSize - size else 0
  {
    if size < minSize {
      var j := DoubledIsFirst(size * 2, minSize);
      k := j + 1;
      Assoc(size, 2, Two(j));
      if j > 0 { Assoc(size, 2, Two(j - 1)); }
    } else {
      k := 0;
    }
  }

  const EXTRA: nat := 163840

  class Buffer {
    var buffer_: array<Byte>
    var leftIndex_: nat
    var rightIndex_: nat
    var capacity_: nat

    ghost predicate Valid()
      reads this
    {
      leftIndex_ <= rightIndex_ <= capacity_ == buffer_.Length
    }

    /** The readable bytes. */
    ghost function Content(): seq<Byte>
      requires Valid()
      reads this, buffer_
    {
      buffer_[leftIndex_..rightIndex_]
    }

    constructor (length: nat)
      ensures Valid() && fresh(buffer_) && capacity_ == length && Content() == []
    {
      buffer_ := new Byte[length](_ => 0);
      leftIndex_, rightIndex_, capacity_ := 0, 0, length;
    }

    constructor FromBytes(bytes: seq<Byte>)
      ensures Valid() && fresh(buffer_) && capacity_ == |bytes| && Content() == bytes
    {
      buffer_ := new Byte[|bytes|](i requires 0 <= i < |bytes| => bytes[i]);
      leftIndex_, rightIndex_, capacity_ := 0, |bytes|, |bytes|;
    }

    /** `append(n)`: takes over bytes that are already in the block. */
    method AppendInPlace(n: nat)
      requires Valid() && rightIndex_ + n <= capacity_
      modifies this`rightIndex_
      ensures Valid() && rightIndex_ == old(rightIndex_) + n
      ensures Content() == old(Content()) + buffer_[old(rightIndex_)..rightIndex_]
    {
      rightIndex_ := rightIndex_ + n;
    }

    /** The copy loop of `memcpy`/`memmove`, lowest address first. */
    static method CopyInto(dst: array<Byte>, at: nat, src: seq<Byte>)
      requires at + |src| <= dst.Length
      modifies dst
      ensures dst[at..at + |src|] == src
      ensures dst[..at] == old(dst[..at])
      ensures dst[at + |src|..] == old(dst[at + |src|..])
    {
      var i := 0;
      while i < |src|
        invariant 0 <= i <= |src|
        invariant forall k :: 0 <= k < i ==> dst[at + k] == src[k]
        invariant forall k :: 0 <= k < dst.Length && !(at <= k < at + i) ==> dst[k] == old(dst[k])
      {
        dst[at + i] := src[i];
        i := i + 1;
      }
    }

    /** `forward()`: slides the content to the start of the block. */
    method Forward()
      requires Valid()
      modifies this`leftIndex_, this`rightIndex_, buffer_
      ensures Valid() && leftIndex_ == 0
      ensures Content() == old(Content())
    {
      if leftIndex_ == 0 {
        return;
      }
      var n := rightIndex_ - leftIndex_;
      CopyInto(buffer_, 0, buffer_[leftIndex_..rightIndex_]);
      rightIndex_ := rightIndex_ - leftIndex_;
      leftIndex_ := 0;
      assert buffer_[0..n] == old(Content());
    }

    method Reserve(minSize: nat)
      requires Valid() && capacity_ > 0
      modifies this`buffer_, this`capacity_
      ensures Valid() && leftIndex_ == old(leftIndex_) && rightIndex_ == old(rightIndex_)
      ensures Content() == old(Content())
      ensures minSize < old(capacity_) ==> capacity_ == old(capacity_) && buffer_ == old(buffer_)
      ensures minSize >= old(capacity_) ==> capacity_ == Doubled(old(capacity_) * 2, minSize) && fresh(buffer_)
    {
      if minSize < capacity_ {
        return;
      }
      var newSize := capacity_ * 2;
      while newSize < minSize
        invariant newSize >= 2 * capacity_ > 0
        invariant Doubled(newSize, minSize) == Doubled(capacity_ * 2, minSize)
        decreases if newSize < minSize then minSize - newSize else 0
      {
        newSize := newSize * 2;
      }
      Resize(newSize);
    }

    method Resize(minSize: nat)
      requires Valid()
      modifies this`buffer_, this`capacity_
      ensures Valid() && leftIndex_ == old(leftIndex_) && rightIndex_ == old(rightIndex_)
      ensures Content() == old(Content())
      ensures minSize < old(capacity_) ==> capacity_ == old(capacity_) && buffer_ == old(buffer_)
      ensures minSize >= old(capacity_) ==> capacity_ == minSize && fresh(buffer_)
    {
      if minSize < capacity_ {
        return;
      }
      var newBuffer := new Byte[minSize](_ => 0);
      CopyInto(newBuffer, leftIndex_, buffer_[leftIndex_..rightIndex_]);
      buffer_ := newBuffer;
      capacity_ := minSize;
    }

    /** `append(buf, len)`, through whichever of its three paths applies. */
    method Append(bytes: seq<Byte>)
      requires Valid() && capacity_ > 0 && bytes != []
      modifies this, buffer_
      ensures Valid() && Content() == old(Content()) + bytes
      ensures buffer_ == old(buffer_) || fresh(buffer_)
      ensures capacity_ >= old(capacity_)
      ensures |old(Content())| + |bytes| <= old(capacity_) ==> capacity_ == old(capacity_)
    {
      var len := |bytes|;
      if capacity_ - rightIndex_ >= len {
      } else if len + (rightIndex_ - leftIndex_) <= capacity_ {
        Forward();
      } else {
        var minSize := (rightIndex_ - leftIndex_) + len + leftIndex_;
        Reserve(minSize);
      }
      SafeAppend(bytes);
    }

    method SafeAppend(bytes: seq<Byte>)
      requires Valid() && rightIndex_ + |bytes| <= capacity_
      modifies this`rightIndex_, buffer_
      ensures Valid() && Content() == old(Content()) + bytes && rightIndex_ == old(rightIndex_) + |bytes|
    {
      var at := rightIndex_;
      CopyInto(buffer_, at, bytes);
      rightIndex_ := rightIndex_ + |bytes|;
      assert buffer_[..at][leftIndex_..] == old(buffer_[..at])[leftIndex_..];
      assert buffer_[leftIndex_..at] == old(Content());
      assert buffer_[leftIndex_..rightIndex_] == buffer_[leftIndex_..at] + buffer_[at..rightIndex_];
    }

    /** `retrieve(len)`: drops `len` bytes from the front, or everything if there are fewer. */
    method Retrieve(len: nat)
      requires Valid()
      modifies this`leftIndex_, this`rightIndex_
      ensures Valid()
      ensures Content() == if len <= |old(Content())| then old(Content())[len..] else []
    {
      if rightIndex_ == leftIndex_ {
        return;
      } else if len > rightIndex_ - leftIndex_ {
        leftIndex_, rightIndex_ := 0, 0;
      } else {
        leftIndex_ := leftIndex_ + len;
      }
    }

    /** A scatter read into the free end of the block and, for what does not fit there, a spare
        block of 163840 bytes; `data` is what the kernel delivered. */
    method TryRead(data: seq<Byte>)
      requires Valid() && capacity_ > 0
      requires |data| <= capacity_ - rightIndex_ + EXTRA
      modifies this, buffer_
      ensures Valid() && capacity_ >= old(capacity_) && Content() == old(Content()) + data
      ensures buffer_ == old(buffer_) || fresh(buffer_)
    {
      var room := capacity_ - rightIndex_;
      var direct := if |data| < room then |data| else room;
      ghost var right := rightIndex_;
      Deliver(data[..direct]);
      if |data| > 0 {
        AppendInPlace(direct);
        assert Content() == old(Content()) + data[..direct];
        if |data| > room {
          Append(data[room..]);
        }
        assert data == data[..direct] + data[direct..];
      }
    }

    /** The kernel's half of the read: it writes behind the content. */
    method Deliver(bytes: seq<Byte>)
      requires Valid() && rightIndex_ + |bytes| <= capacity_
      modifies buffer_
      ensures Valid() && Content() == old(Content())
      ensures buffer_[rightIndex_..rightIndex_ + |bytes|] == bytes
    {
      CopyInto(buffer_, rightIndex_, bytes);
      assert buffer_[..rightIndex_][leftIndex_..] == old(buffer_[..rightIndex_])[leftIndex_..];
    }
  }
}
