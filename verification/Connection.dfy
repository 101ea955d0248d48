/**
 The outgoing side of a connection: a queue of buffers and file slices, written with gathered
 writes and `sendfile` that the kernel may cut short anywhere.

 `Write` is one call of `tryWrit`, given what the kernel will answer to each system call; the
 theorems are about every run of sends and writes under every sequence of answers.
 */
module Connections {
  import opened Basics

  /** An `io_task`: the bytes left in a buffer, or `len` bytes of a file from `offset`. */
  datatype Task =
    | Data(bytes: seq<Byte>)
    | File(file: seq<Byte>, offset: nat, len: nat)

  /** What of a file `sendfile` can reach. */
  function Slice(file: seq<Byte>, offset: nat, len: nat): (s: seq<Byte>)
    ensures |s| <= len
  {
    if offset >= |file| then []
    else if offset + len <= |file| then file[offset..offset + len]
    else file[offset..]
  }

  function Rest(t: Task): seq<Byte> {
    match t
    case Data(bytes) => bytes
    case File(file, offset, len) => Slice(file, offset, len)
  }

  function Pending(tasks: seq<Task>): seq<Byte> {
    if tasks == [] then [] else Rest(tasks[0]) + Pending(tasks[1..])
  }

  // ---------- One call of tryWrit ----------

  /** The kernel's answer, kept within what it was offered; -1 is an error. */
  function Answer(raw: int, offered: nat): (a: int)
    ensures -1 <= a <= offered
  {
    if raw < 0 then -1 else if raw > offered then offered else raw
  }

  /** The bytes gathered from the leading buffers, up to the first file. */
  function Gathered(tasks: seq<Task>): seq<Byte> {
    if tasks == [] || tasks[0].File? then [] else tasks[0].bytes + Gathered(tasks[1..])
  }

  /** The queue after `n` gathered bytes were written, and whether a buffer was cut. */
  datatype Popped = Popped(tasks: seq<Task>, cut: bool)

  function PopWritten(tasks: seq<Task>, n: nat): (p: Popped)
    requires n <= |Gathered(tasks)|
    ensures |p.tasks| <= |tasks| && (n > 0 && !p.cut ==> |p.tasks| < |tasks|)
    decreases |tasks|
  {
    if n == 0 then Popped(tasks, false)
    else if |tasks[0].bytes| <= n then PopWritten(tasks[1..], n - |tasks[0].bytes|)
    else Popped([Data(tasks[0].bytes[n..])] + tasks[1..], true)
  }

  /** One system call: the queue left, the bytes that went out, how many of them count towards
      the value returned, and whether and with what value the call ends here. */
  datatype Turn = Turn(tasks: seq<Task>, sent: seq<Byte>, counted: nat, over: bool, ret: int)

  function OneTurn(tasks: seq<Task>, raw: int): (t: Turn)
    requires tasks != []
    ensures !t.over ==> |t.tasks| < |tasks|
  {
    if tasks[0].File? then
      var f := tasks[0];
      var ret := Answer(raw, |Rest(f)|);
      if ret < 0 then Turn(tasks, [], 0, true, ret)
      else if ret == f.len then Turn(tasks[1..], Rest(f), 0, false, 0)
      else Turn([File(f.file, f.offset + ret, f.len - ret)] + tasks[1..], Rest(f)[..ret], 0, true, -1)
    else
      var gathered := Gathered(tasks);
      var ret := Answer(raw, |gathered|);
      if ret <= 0 then Turn(tasks, [], 0, true, ret)
      else
        var p := PopWritten(tasks, ret);
        Turn(p.tasks, gathered[..ret], ret, p.cut, -1)
  }

  /** The queue left, the bytes that went out, the value returned, and the number of system calls. */
  datatype Written = Written(tasks: seq<Task>, sent: seq<Byte>, ret: int, calls: nat)

  /** The answer to the next system call; a kernel of which no more is said answers with an error. */
  function First(answers: seq<int>): int { if answers == [] then -1 else answers[0] }

  function Later(answers: seq<int>): seq<int> { if answers == [] then [] else answers[1..] }

  function Write(tasks: seq<Task>, answers: seq<int>, bytes: nat): Written
    decreases |tasks|
  {
    if tasks == [] then Written([], [], bytes, 0)
    else
      var t := OneTurn(tasks, First(answers));
      if t.over then Written(t.tasks, t.sent, t.ret, 1)
      else
        var w := Write(t.tasks, Later(answers), bytes + t.counted);
        w.(sent := t.sent + w.sent, calls := w.calls + 1)
  }

  // ---------- Nothing is lost, repeated or reordered ----------

  lemma {:induction false} PopKeepsRest(tasks: seq<Task>, n: nat)
    requires n <= |Gathered(tasks)|
    ensures Gathered(tasks)[..n] + Pending(PopWritten(tasks, n).tasks) == Pending(tasks)
    decreases |tasks|
  {
    if n > 0 {
      var first, rest := tasks[0].bytes, tasks[1..];
      if |first| <= n {
        PopKeepsRest(rest, n - |first|);
        assert Gathered(tasks)[..n] == first + Gathered(rest)[..n - |first|];
      } else {
        assert Gathered(tasks)[..n] == first[..n];
        var cut := [Data(first[n..])] + rest;
        assert cut[1..] == rest;
        assert first[..n] + first[n..] == first;
      }
    }
  }

  lemma {:induction false} SliceSplits(file: seq<Byte>, offset: nat, len: nat, k: nat)
    requires k <= |Slice(file, offset, len)|
    ensures Slice(file, offset, len)[..k] + Slice(file, offset + k, len - k) == Slice(file, offset, len)
  {
  }

  lemma {:induction false} CutFile(f: Task, rest: seq<Task>, k: nat)
    requires f.File? && k <= |Rest(f)|
    ensures Rest(f)[..k] + Pending([File(f.file, f.offset + k, f.len - k)] + rest) == Rest(f) + Pending(rest)
  {
    hide Slice, Pending;
    SliceSplits(f.file, f.offset, f.len, k);
    PendingFirst(File(f.file, f.offset + k, f.len - k), rest);
  }

  lemma {:induction false} PendingFirst(t: Task, rest: seq<Task>)
    ensures Pending([t] + rest) == Rest(t) + Pending(rest)
  {
    hide Rest;
    assert ([t] + rest)[1..] == rest;
  }

  lemma {:induction false} TurnConserves(tasks: seq<Task>, raw: int)
    requires tasks != []
    ensures var t := OneTurn(tasks, raw); t.sent + Pending(t.tasks) == Pending(tasks)
  {
    hide Slice;
    var f := tasks[0];
    if f.File? {
      var ret := Answer(raw, |Rest(f)|);
      if 0 <= ret { CutFile(f, tasks[1..], ret); }
    } else {
      var ret := Answer(raw, |Gathered(tasks)|);
      if ret > 0 { PopKeepsRest(tasks, ret); }
    }
  }

  /** One call sends a prefix of what is queued, and leaves exactly the rest. */
  lemma {:induction false} WriteConserves(tasks: seq<Task>, answers: seq<int>, bytes: nat)
    ensures var w := Write(tasks, answers, bytes); w.sent + Pending(w.tasks) == Pending(tasks)
    decreases |tasks|
  {
    hide OneTurn, Pending;
    if tasks != [] {
      TurnConserves(tasks, First(answers));
      var t := OneTurn(tasks, First(answers));
      if !t.over {
        WriteConserves(t.tasks, Later(answers), bytes + t.counted);
      }
    }
  }

  /** What of a file can be sent, byte by byte. */
  lemma {:induction false} SliceIs(file: seq<Byte>, offset: nat, len: nat)
    ensures var s := Slice(file, offset, len);
            && |s| == (if offset >= |file| then 0 else if |file| - offset < len then |file| - offset else len)
            && forall i :: 0 <= i < |s| ==> s[i] == file[offset + i]
  {
  }

  // ---------- The value returned ----------

  /** The bytes in buffers; files do not count. */
  function BufferBytes(tasks: seq<Task>): nat {
    if tasks == [] then 0 else (if tasks[0].Data? then |tasks[0].bytes| else 0) + BufferBytes(tasks[1..])
  }

  /** What is gathered are the leading buffers, all of them. */
  lemma {:induction false} GatheredIs(tasks: seq<Task>, k: nat)
    requires k <= |tasks| && (forall i :: 0 <= i < k ==> tasks[i].Data?) && (k == |tasks| || tasks[k].File?)
    ensures Gathered(tasks) == Pending(tasks[..k])
    decreases k
  {
    if k > 0 {
      DropFirst(tasks, k);
      GatheredIs(tasks[1..], k - 1);
    }
  }

  lemma {:induction false} PopCounts(tasks: seq<Task>, n: nat)
    requires n <= |Gathered(tasks)|
    ensures var p := PopWritten(tasks, n);
            && BufferBytes(tasks) == n + BufferBytes(p.tasks)
            && (p.cut ==> p.tasks != [] && p.tasks[0].Data? && p.tasks[0].bytes != [])
    decreases |tasks|
  {
    if n > 0 {
      var first, rest := tasks[0].bytes, tasks[1..];
      if |first| <= n {
        PopCounts(rest, n - |first|);
      } else {
        assert ([Data(first[n..])] + rest)[1..] == rest;
      }
    }
  }

  /** The answer that the last system call of a call got. */
  function LastAnswer(answers: seq<int>, calls: nat): int
    requires calls > 0
  {
    if calls <= |answers| then answers[calls - 1] else -1
  }

  /** What a call that leaves tasks behind returns: 0 for a gathered write that wrote nothing, although
      it did not fail, and -1 for everything else. */
  function Stopped(tasks: seq<Task>, last: int): int
    requires tasks != []
  {
    if tasks[0].Data? && last >= 0 && (last == 0 || Gathered(tasks) == []) then 0 else -1
  }

  lemma {:induction false} TurnReturns(tasks: seq<Task>, raw: int)
    requires tasks != []
    ensures var t := OneTurn(tasks, raw);
            && (t.over ==> t.tasks != [] && t.ret == Stopped(t.tasks, raw))
            && (!t.over ==> BufferBytes(tasks) == t.counted + BufferBytes(t.tasks))
  {
    hide Slice, PopWritten;
    if tasks[0].Data? {
      var n := Answer(raw, |Gathered(tasks)|);
      if n > 0 {
        PopCounts(tasks, n);
        var p := PopWritten(tasks, n);
        if p.cut { assert Gathered(p.tasks) != []; }
      }
    }
  }

  /** For every queue and every sequence of answers: a call that empties the queue returns the bytes
      it took from buffers, on top of those counted before; a call that leaves tasks returns 0
      exactly when its last system call was a gathered write that wrote nothing without failing,
      and -1 otherwise, which makes its caller wait. */
  lemma {:induction false} WriteReturns(tasks: seq<Task>, answers: seq<int>, bytes: nat)
    ensures var w := Write(tasks, answers, bytes);
            && (w.tasks == [] ==> w.ret == bytes + BufferBytes(tasks))
            && (w.tasks != [] ==> w.calls > 0 && w.ret == Stopped(w.tasks, LastAnswer(answers, w.calls)))
    decreases |tasks|
  {
    hide OneTurn, Gathered;
    if tasks != [] {
      var t := OneTurn(tasks, First(answers));
      TurnReturns(tasks, First(answers));
      if !t.over {
        WriteReturns(t.tasks, Later(answers), bytes + t.counted);
      }
    }
  }

  // ---------- Where a call goes on, and where it stops ----------

  /** The first `k` tasks are buffers. */
  predicate Buffers(tasks: seq<Task>, k: nat) { k <= |tasks| && forall i :: 0 <= i < k ==> tasks[i].Data? }

  lemma {:induction false} DropFirst<T>(s: seq<T>, k: nat)
    requires 0 < k <= |s|
    ensures s[..k][1..] == s[1..][..k - 1] && s[1..][k - 1..] == s[k..]
  {
  }

  lemma {:induction false} BuffersRest(tasks: seq<Task>, k: nat)
    requires k > 0 && Buffers(tasks, k)
    ensures Buffers(tasks[1..], k - 1) && Gathered(tasks) == tasks[0].bytes + Gathered(tasks[1..])
    ensures Pending(tasks[..k]) == tasks[0].bytes + Pending(tasks[1..][..k - 1]) && tasks[1..][k - 1..] == tasks[k..]
  {
    DropFirst(tasks, k);
    assert tasks[..k][0] == tasks[0];
  }

  lemma {:induction false} GatheredFirst(tasks: seq<Task>, k: nat)
    requires Buffers(tasks, k)
    ensures Gathered(tasks) == Pending(tasks[..k]) + Gathered(tasks[k..])
    decreases k
  {
    hide Gathered, Pending;
    if k > 0 {
      BuffersRest(tasks, k);
      GatheredFirst(tasks[1..], k - 1);
    } else {
      NonePending(tasks);
    }
  }

  lemma {:induction false} NonePending(tasks: seq<Task>)
    ensures Pending(tasks[..0]) == [] && tasks[0..] == tasks
  {
  }

  lemma {:induction false} PopWhole(tasks: seq<Task>, k: nat, n: nat)
    requires Buffers(tasks, k) && n == |Pending(tasks[..k])| <= |Gathered(tasks)|
    requires k > 0 ==> tasks[k - 1].bytes != []
    ensures PopWritten(tasks, n) == Popped(tasks[k..], false)
    decreases k
  {
    hide Gathered, Pending;
    if k > 0 {
      BuffersRest(tasks, k);
      SomePending(tasks, k);
      PopWhole(tasks[1..], k - 1, n - |tasks[0].bytes|);
    } else {
      NonePending(tasks);
    }
  }

  lemma {:induction false} SomePending(tasks: seq<Task>, k: nat)
    requires 0 < k <= |tasks| && Buffers(tasks, k) && tasks[k - 1].bytes != []
    ensures |Pending(tasks[..k])| > 0
    decreases k
  {
    hide Pending;
    BuffersRest(tasks, k);
    if k > 1 { SomePending(tasks[1..], k - 1); }
  }

  lemma {:induction false} PopInside(tasks: seq<Task>, k: nat, n: nat)
    requires k < |tasks| && Buffers(tasks, k + 1) && n <= |Gathered(tasks)|
    requires |Pending(tasks[..k])| < n < |Pending(tasks[..k])| + |tasks[k].bytes|
    ensures PopWritten(tasks, n) == Popped([Data(tasks[k].bytes[n - |Pending(tasks[..k])|..])] + tasks[k + 1..], true)
    decreases k
  {
    hide Gathered, Pending;
    BuffersRest(tasks, k + 1);
    if k > 0 {
      BuffersRest(tasks, k);
      PopInside(tasks[1..], k - 1, n - |tasks[0].bytes|);
    } else {
      NonePending(tasks);
    }
  }

  /** A gathered write that ends with a buffer is not the last one: the buffers written are gone, and
      the call goes on with the others, even if the kernel took less than it was offered. */
  lemma {:induction false} WholeBuffersGoOn(tasks: seq<Task>, answers: seq<int>, bytes: nat, k: nat)
    requires 0 < k <= |tasks| && Buffers(tasks, k) && tasks[k - 1].bytes != []
    requires First(answers) == |Pending(tasks[..k])|
    ensures Write(tasks, answers, bytes) ==
            var w := Write(tasks[k..], Later(answers), bytes + First(answers));
            w.(sent := Pending(tasks[..k]) + w.sent, calls := w.calls + 1)
  {
    hide PopWritten, Gathered;
    GatheredFirst(tasks, k);
    SomePending(tasks, k);
    PopWhole(tasks, k, First(answers));
  }

  /** A gathered write that ends inside a buffer is the last one: what is left of the buffer stays in
      front, and the call returns -1. */
  lemma {:induction false} CutBufferStops(tasks: seq<Task>, answers: seq<int>, bytes: nat, k: nat)
    requires k < |tasks| && Buffers(tasks, k + 1)
    requires |Pending(tasks[..k])| < First(answers) < |Pending(tasks[..k])| + |tasks[k].bytes|
    ensures var n := First(answers);
            var cut := n - |Pending(tasks[..k])|;
            Write(tasks, answers, bytes)
            == Written([Data(tasks[k].bytes[cut..])] + tasks[k + 1..], Pending(tasks[..k]) + tasks[k].bytes[..cut], -1, 1)
  {
    hide PopWritten, Gathered;
    var n := First(answers);
    GatheredFirst(tasks, k);
    GatheredHead(tasks[k..]);
    PopInside(tasks, k, n);
    var before := Pending(tasks[..k]);
    assert Gathered(tasks)[..n] == before + tasks[k].bytes[..n - |before|];
  }

  lemma {:induction false} GatheredHead(tasks: seq<Task>)
    requires tasks != [] && tasks[0].Data?
    ensures Gathered(tasks) == tasks[0].bytes + Gathered(tasks[1..])
  {
  }

  /** A file is done when all of it that was asked for has gone; otherwise the call stops, and the next
      one goes on behind what has gone. */
  lemma {:induction false} FileGoes(tasks: seq<Task>, answers: seq<int>, bytes: nat)
    requires tasks != [] && tasks[0].File? && 0 <= First(answers) <= |Rest(tasks[0])|
    ensures var n, f := First(answers), tasks[0];
            Write(tasks, answers, bytes) ==
            if n == f.len then
              var w := Write(tasks[1..], Later(answers), bytes);
              w.(sent := Rest(f) + w.sent, calls := w.calls + 1)
            else Written([File(f.file, f.offset + n, f.len - n)] + tasks[1..], Rest(f)[..n], -1, 1)
  {
    hide Slice;
  }

  /** An error, and a gathered write of nothing, change nothing. */
  lemma {:induction false} NothingGoes(tasks: seq<Task>, answers: seq<int>, bytes: nat)
    requires tasks != [] && (First(answers) < 0 || (First(answers) == 0 && tasks[0].Data?))
    ensures Write(tasks, answers, bytes) == Written(tasks, [], if First(answers) < 0 then -1 else 0, 1)
  {
  }

  // ---------- Runs ----------

  datatype Operation =
    | Send(bytes: seq<Byte>)
    | SendFile(file: seq<Byte>, offset: nat, len: nat)
    | TryWrit(answers: seq<int>)

  /** The queue, what the peer has been sent, and everything ever enqueued. */
  datatype Stream = Stream(tasks: seq<Task>, wire: seq<Byte>, enqueued: seq<Byte>)

  function Apply(s: Stream, op: Operation): Stream {
    match op
    case Send(bytes) => s.(tasks := s.tasks + [Data(bytes)], enqueued := s.enqueued + bytes)
    case SendFile(file, offset, len) =>
      s.(tasks := s.tasks + [File(file, offset, len)], enqueued := s.enqueued + Slice(file, offset, len))
    case TryWrit(answers) =>
      var w := Write(s.tasks, answers, 0);
      s.(tasks := w.tasks, wire := s.wire + w.sent)
  }

  function Run(s: Stream, ops: seq<Operation>): Stream
    decreases |ops|
  {
    if ops == [] then s else Run(Apply(s, ops[0]), ops[1..])
  }

  lemma {:induction false} PendingAppend(tasks: seq<Task>, t: Task)
    ensures Pending(tasks + [t]) == Pending(tasks) + Rest(t)
  {
    if tasks == [] {
      assert [t][1..] == [];
    } else {
      assert (tasks + [t])[1..] == tasks[1..] + [t];
      PendingAppend(tasks[1..], t);
    }
  }

  /** Everything that the sends of a run hand over, in order. */
  function EnqueuedBy(ops: seq<Operation>): seq<Byte> {
    if ops == [] then []
    else
      (match ops[0]
       case Send(bytes) => bytes
       case SendFile(file, offset, len) => Slice(file, offset, len)
       case TryWrit(_) => []) + EnqueuedBy(ops[1..])
  }

  lemma {:induction false} RunEnqueues(s: Stream, ops: seq<Operation>)
    ensures Run(s, ops).enqueued == s.enqueued + EnqueuedBy(ops)
    decreases |ops|
  {
    hide Slice, Write;
    if ops != [] {
      RunEnqueues(Apply(s, ops[0]), ops[1..]);
    }
  }

  ghost predicate Conserved(s: Stream) { s.wire + Pending(s.tasks) == s.enqueued }

  lemma {:induction false} OperationConserves(s: Stream, op: Operation)
    ensures Conserved(s) ==> Conserved(Apply(s, op))
  {
    hide Write, Pending, Slice;
    match op
    case Send(bytes) => PendingAppend(s.tasks, Data(bytes));
    case SendFile(file, offset, len) => PendingAppend(s.tasks, File(file, offset, len));
    case TryWrit(answers) => WriteConserves(s.tasks, answers, 0);
  }

  lemma {:induction false} RunConserves(s: Stream, ops: seq<Operation>)
    requires Conserved(s)
    ensures Conserved(Run(s, ops))
    decreases |ops|
  {
    hide Conserved, Apply;
    if ops != [] {
      OperationConserves(s, ops[0]);
      RunConserves(Apply(s, ops[0]), ops[1..]);
    }
  }

  /** Over every run, under every sequence of kernel answers: the bytes on the wire followed by
      what is still queued are everything enqueued, in order. */
  lemma {:induction false} StreamConservation(ops: seq<Operation>)
    ensures var r := Run(Stream([], [], []), ops);
            r.wire + Pending(r.tasks) == EnqueuedBy(ops) && (r.tasks == [] ==> r.wire == EnqueuedBy(ops))
  {
    hide Run, EnqueuedBy;
    RunConserves(Stream([], [], []), ops);
    RunEnqueues(Stream([], [], []), ops);
    var r := Run(Stream([], [], []), ops);
    assert r.enqueued == [] + EnqueuedBy(ops) == EnqueuedBy(ops);
    assert r.tasks == [] ==> r.wire + [] == r.enqueued;
  }

  // ---------- When a willing kernel empties the queue ----------

  /** Answers of a kernel that takes everything it is offered, for long enough. */
  predicate Willing(tasks: seq<Task>, answers: seq<int>) {
    |answers| >= |tasks| && forall i :: 0 <= i < |answers| ==> answers[i] >= |Pending(tasks)|
  }

  /** No file slice runs past its file, and no empty buffer is the last before a file or the end. */
  predicate Finishable(tasks: seq<Task>) {
    tasks == [] ||
    (&& Finishable(tasks[1..])
     && match tasks[0]
        case File(file, offset, len) => |Slice(file, offset, len)| == len
        case Data(bytes) => bytes == [] ==> |tasks| > 1 && tasks[1].Data?)
  }

  lemma {:induction false} GatheredIsPrefix(tasks: seq<Task>)
    ensures Gathered(tasks) <= Pending(tasks)
  {
    if tasks != [] && tasks[0].Data? { GatheredIsPrefix(tasks[1..]); }
  }

  /** Writing everything gathered pops the leading buffers up to their last non-empty one. */
  lemma {:induction false} PopAll(tasks: seq<Task>)
    ensures var p := PopWritten(tasks, |Gathered(tasks)|);
            && !p.cut
            && (Finishable(tasks) <==> Finishable(p.tasks))
            && Gathered(p.tasks) == [] && |Pending(p.tasks)| <= |Pending(tasks)|
    decreases |tasks|
  {
    if Gathered(tasks) == [] {
      if tasks != [] && tasks[0].Data? { EmptyGroupIsStuck(tasks); }
    } else {
      var first, rest := tasks[0].bytes, tasks[1..];
      assert |Gathered(tasks)| == |first| + |Gathered(rest)|;
      assert PopWritten(tasks, |Gathered(tasks)|) == PopWritten(rest, |Gathered(rest)|);
      PopAll(rest);
      if first == [] {
        assert Gathered(rest) != [];
      }
    }
  }

  /** A group of empty buffers can never be finished: the gathered write has nothing to report. */
  lemma {:induction false} EmptyGroupIsStuck(tasks: seq<Task>)
    requires tasks != [] && tasks[0].Data? && Gathered(tasks) == []
    ensures !Finishable(tasks)
    decreases |tasks|
  {
    if |tasks| > 1 && tasks[1].Data? {
      EmptyGroupIsStuck(tasks[1..]);
    }
  }

  /** Under a kernel that takes everything offered, one call empties the queue exactly when the
      queue is finishable; otherwise tasks stay behind although nothing refused them. */
  lemma {:induction false} WillingKernelEmptiesIff(tasks: seq<Task>, answers: seq<int>, bytes: nat)
    requires Willing(tasks, answers)
    ensures Write(tasks, answers, bytes).tasks == [] <==> Finishable(tasks)
    decreases |tasks|
  {
    if tasks != [] {
      var t := tasks[0];
      if t.File? {
        assert Answer(answers[0], |Rest(t)|) == |Rest(t)|;
        if |Rest(t)| == t.len {
          WillingKernelEmptiesIff(tasks[1..], answers[1..], bytes);
        }
      } else {
        GatheredIsPrefix(tasks);
        var n := |Gathered(tasks)|;
        assert Answer(answers[0], n) == n;
        if n == 0 {
          EmptyGroupIsStuck(tasks);
        } else {
          PopAll(tasks);
          WillingKernelEmptiesIff(PopWritten(tasks, n).tasks, answers[1..], bytes + n);
        }
      }
    }
  }

  /** An empty buffer alone in the queue stays there through any number of writes, and a write
      that the kernel accepts returns 0, which its caller takes for an error ... */
  lemma {:induction false} EmptySendIsStuck(s: Stream, ops: seq<Operation>)
    requires s.tasks == [Data([])] && forall i :: 0 <= i < |ops| ==> ops[i].TryWrit?
    ensures Run(s, ops).tasks == [Data([])]
    ensures forall answers: seq<int> :: answers != [] && answers[0] >= 0 ==> Write(s.tasks, answers, 0).ret == 0
    decreases |ops|
  {
    hide Write;
    forall answers: seq<int>
      ensures Write(s.tasks, answers, 0).tasks == s.tasks
      ensures answers != [] && answers[0] >= 0 ==> Write(s.tasks, answers, 0).ret == 0
    {
      EmptyWrite(answers);
    }
    if ops != [] {
      assert ops[0].TryWrit?;
      EmptySendIsStuck(Apply(s, ops[0]), ops[1..]);
    }
  }

  lemma {:induction false} EmptyWrite(answers: seq<int>)
    ensures Write([Data([])], answers, 0)
         == Written([Data([])], [], if answers == [] || answers[0] < 0 then -1 else 0, 1)
  {
    var tasks := [Data([])];
    assert tasks[1..] == [] && Gathered(tasks) == [];
  }

  /** ... until something is sent behind it: bytes that go out take it along. */
  lemma {:induction false} LaterBytesFreeIt(bytes: seq<Byte>, answers: seq<int>)
    requires bytes != [] && answers != [] && answers[0] >= |bytes|
    ensures Write([Data([]), Data(bytes)], answers, 0) == Written([], bytes, |bytes|, 1)
  {
    var tasks := [Data([]), Data(bytes)];
    assert tasks[1..] == [Data(bytes)] && [Data(bytes)][1..] == [];
    assert Gathered([Data(bytes)]) == bytes + [] == bytes && Gathered(tasks) == [] + bytes == bytes;
    assert PopWritten([Data(bytes)], |bytes|) == PopWritten([], 0) == Popped([], false);
    assert OneTurn(tasks, answers[0]) == Turn([], bytes, |bytes|, false, -1);
  }

  // ---------- The object ----------

  class Connection {
    var writTasks_: seq<Task>
    var wire: seq<Byte>

    constructor ()
      ensures writTasks_ == [] && wire == []
    {
      writTasks_, wire := [], [];
    }

    method SendBytes(bytes: seq<Byte>)
      modifies this`writTasks_
      ensures writTasks_ == old(writTasks_) + [Data(bytes)]
    {
      writTasks_ := writTasks_ + [Data(bytes)];
    }

    method SendFileSlice(file: seq<Byte>, offset: nat, len: nat)
      modifies this`writTasks_
      ensures writTasks_ == old(writTasks_) + [File(file, offset, len)]
    {
      writTasks_ := writTasks_ + [File(file, offset, len)];
    }

    /** `answers` are the kernel's answers to the system calls of this call, in order. */
    method TryWritAll(answers: seq<int>) returns (ret: int)
      modifies this
      ensures var w := Write(old(writTasks_), answers, 0);
              writTasks_ == w.tasks && wire == old(wire) + w.sent && ret == w.ret
    {
      hide OneTurn;
      var bytes, left := 0, answers;
      ghost var sent: seq<Byte>, calls: nat := [], 0;
      while writTasks_ != []
        invariant bytes >= 0 && wire == old(wire) + sent
        invariant Write(old(writTasks_), answers, 0)
               == var w := Write(writTasks_, left, bytes); w.(sent := sent + w.sent, calls := calls + w.calls)
        decreases |writTasks_|
      {
        ghost var turn := OneTurn(writTasks_, First(left));
        var counted, over;
        counted, over, ret := TakeTurn(First(left));
        sent := sent + turn.sent;
        if over {
          return;
        }
        left, bytes, calls := Later(left), bytes + counted, calls + 1;
      }
      assert sent + [] == sent;
      return bytes;
    }

    /** One pass of the loop: a `sendfile` or a gathered write, and what it leaves to do. */
    method TakeTurn(raw: int) returns (counted: nat, over: bool, ret: int)
      requires writTasks_ != []
      modifies this
      ensures var t := OneTurn(old(writTasks_), raw);
              && writTasks_ == t.tasks && wire == old(wire) + t.sent
              && counted == t.counted && over == t.over && ret == t.ret
    {
      var first := writTasks_[0];
      if first.File? {
        var out := Slice(first.file, first.offset, first.len);
        var n := Answer(raw, |out|);
        if n < 0 {
          return 0, true, n;
        }
        wire := wire + out[..n];
        if n == first.len {
          assert out[..n] == out;
          writTasks_ := writTasks_[1..];
          return 0, false, 0;
        } else {
          writTasks_ := [File(first.file, first.offset + n, first.len - n)] + writTasks_[1..];
          return 0, true, -1;
        }
      } else {
        var gathered := Gathered(writTasks_);
        var n := Answer(raw, |gathered|);
        if n <= 0 {
          return 0, true, n;
        }
        wire := wire + gathered[..n];
        var cut := PopFront(n);
        return n, cut, -1;
      }
    }

    /** The inner loop: pops what was written in full, and trims the buffer that was cut. */
    method PopFront(n: nat) returns (cut: bool)
      requires n <= |Gathered(writTasks_)|
      modifies this`writTasks_
      ensures Popped(writTasks_, cut) == PopWritten(old(writTasks_), n)
    {
      var left := n;
      while left > 0
        invariant 0 <= left <= |Gathered(writTasks_)|
        invariant PopWritten(writTasks_, left) == PopWritten(old(writTasks_), n)
        decreases |writTasks_|
      {
        var first := writTasks_[0];
        if |first.bytes| <= left {
          left := left - |first.bytes|;
          writTasks_ := writTasks_[1..];
        } else {
          writTasks_ := [Data(first.bytes[left..])] + writTasks_[1..];
          return true;
        }
      }
      return false;
    }
  }
}
