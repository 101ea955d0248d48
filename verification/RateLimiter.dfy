/**
 The byte-rate limiter of the SOCKS proxy: one routine owns the counters and the list of
 postponed requests, and reacts to clock ticks and to incoming requests.

 `Step` is the routine's reaction to one event; class `Limiter` is the routine itself, with
 its loop, proved to do what `Step` says.  The theorems are about whole runs of events.
 */
module RateLimiter {
  import opened Numbers

  /** A client asking for leave to forward `bytes` bytes; `channel` is where it waits. */
  datatype Request = Request(bytes: nat, channel: nat)

  datatype State = State(bytesPerSecond: nat, waitedSeconds: nat, pending: seq<Request>)

  datatype Event = Tick | Arrive(info: Request)

  /** What a reaction leaves behind, and which requests it let through, in order. */
  datatype Reaction = Reaction(state: State, granted: seq<Request>)

  /** The inner loop of a tick, entered with the second's byte counter already reset. */
  function Drain(limit: int, s: State): Reaction
    decreases |s.pending|
  {
    if s.pending == [] then Reaction(s, [])
    else
      var head := s.pending[0];
      if head.bytes + s.bytesPerSecond > s.waitedSeconds * limit + limit then
        Reaction(s.(waitedSeconds := s.waitedSeconds + 1), [])
      else
        var served := State(s.bytesPerSecond + head.bytes, 0, s.pending[1..]);
        if served.bytesPerSecond > limit then Reaction(served, [head])
        else
          var rest := Drain(limit, served);
          Reaction(rest.state, [head] + rest.granted)
  }

  function Step(limit: int, s: State, e: Event): Reaction {
    match e
    case Tick => Drain(limit, s.(bytesPerSecond := 0))
    case Arrive(info) =>
      if limit == 0 || s.bytesPerSecond + info.bytes < limit then
        Reaction(s.(bytesPerSecond := s.bytesPerSecond + info.bytes), [info])
      else
        Reaction(s.(pending := s.pending + [info]), [])
  }

  /** The routine as it runs: an object whose fields the two select cases update. */
  class Limiter {
    const bytesLimit: int
    var bytesPerSecond: nat
    var waitedSeconds: nat
    var pendingInfoList: seq<Request>

    constructor (limit: int)
      ensures bytesLimit == limit && Now() == Start()
    {
      bytesLimit := limit;
      bytesPerSecond, waitedSeconds, pendingInfoList := 0, 0, [];
    }

    ghost function Now(): State
      reads this
    {
      State(bytesPerSecond, waitedSeconds, pendingInfoList)
    }

    /** `case <-t.C`: returns the requests released, in order. */
    method OnTick() returns (granted: seq<Request>)
      modifies this
      ensures Reaction(Now(), granted) == Step(bytesLimit, old(Now()), Tick)
    {
      bytesPerSecond := 0;
      granted := [];
      ghost var whole := Drain(bytesLimit, Now());
      while pendingInfoList != []
        invariant whole == var rest := Drain(bytesLimit, Now()); Reaction(rest.state, granted + rest.granted)
        decreases |pendingInfoList|
      {
        var info := pendingInfoList[0];
        if info.bytes + bytesPerSecond > waitedSeconds * bytesLimit + bytesLimit {
          waitedSeconds := waitedSeconds + 1;
          assert granted + [] == granted;
          return;
        } else {
          waitedSeconds := 0;
        }
        bytesPerSecond := bytesPerSecond + info.bytes;
        granted := granted + [info];
        pendingInfoList := pendingInfoList[1..];
        if bytesPerSecond > bytesLimit {
          return;
        }
      }
      assert granted + [] == granted;
    }

    /** `case info := <-ch`: says whether the request was let through at once. */
    method OnRequest(info: Request) returns (now: bool)
      modifies this
      ensures Reaction(Now(), if now then [info] else []) == Step(bytesLimit, old(Now()), Arrive(info))
    {
      now := bytesLimit == 0 || bytesPerSecond + info.bytes < bytesLimit;
      if now {
        bytesPerSecond := bytesPerSecond + info.bytes;
      } else {
        pendingInfoList := pendingInfoList + [info];
      }
    }
  }

  // ---------- Runs ----------

  function Start(): State { State(0, 0, []) }

  /** The state reached, with everything that happened on the way:
      `queued` is every request ever postponed, `served` those that left the list, and `recent`
      those let through by the last tick and since. */
  datatype History = History(
    now: State, ticks: nat, arrived: seq<Request>, granted: seq<Request>,
    queued: seq<Request>, served: seq<Request>, recent: seq<Request>)

  function Fresh(): History { History(Start(), 0, [], [], [], [], []) }

  function Extend(limit: int, h: History, e: Event): History {
    var r := Step(limit, h.now, e);
    match e
    case Tick =>
      h.(now := r.state, ticks := h.ticks + 1,
         granted := h.granted + r.granted, served := h.served + r.granted, recent := r.granted)
    case Arrive(info) =>
      h.(now := r.state, arrived := h.arrived + [info], granted := h.granted + r.granted,
         recent := h.recent + r.granted,
         queued := if r.granted == [] then h.queued + [info] else h.queued)
  }

  function Run(limit: int, h: History, events: seq<Event>): History
    decreases |events|
  {
    if events == [] then h
    else Run(limit, Extend(limit, h, events[0]), events[1..])
  }

  function TotalBytes(rs: seq<Request>): nat {
    if rs == [] then 0 else rs[0].bytes + TotalBytes(rs[1..])
  }

  function Ticks(events: seq<Event>): nat {
    if events == [] then 0 else (if events[0].Tick? then 1 else 0) + Ticks(events[1..])
  }

  lemma {:induction false} TotalBytesAppend(a: seq<Request>, b: seq<Request>)
    ensures TotalBytes(a + b) == TotalBytes(a) + TotalBytes(b)
  {
    if a == [] {
      assert a + b == b;
    } else {
      assert (a + b)[1..] == a[1..] + b;
      TotalBytesAppend(a[1..], b);
    }
  }

  // ---------- Conservation and order ----------

  ghost predicate Conserved(h: History) {
    && multiset(h.granted) + multiset(h.now.pending) == multiset(h.arrived)
    && h.served + h.now.pending == h.queued
  }

  /** A tick releases a prefix of the list, in order. */
  lemma {:induction false} DrainReleasesPrefix(limit: int, s: State)
    ensures var r := Drain(limit, s); r.granted + r.state.pending == s.pending
    decreases |s.pending|
  {
    if s.pending != [] {
      var head := s.pending[0];
      if head.bytes + s.bytesPerSecond <= s.waitedSeconds * limit + limit {
        var served := State(s.bytesPerSecond + head.bytes, 0, s.pending[1..]);
        if served.bytesPerSecond <= limit {
          DrainReleasesPrefix(limit, served);
          assert s.pending == [head] + s.pending[1..];
          assert [head] + (Drain(limit, served).granted + Drain(limit, served).state.pending) == s.pending;
        }
      }
    }
  }

  lemma {:induction false} StepConserves(limit: int, h: History, e: Event)
    requires Conserved(h)
    ensures Conserved(Extend(limit, h, e))
  {
    hide Drain;
    var r := Step(limit, h.now, e);
    match e
    case Tick =>
      DrainReleasesPrefix(limit, h.now.(bytesPerSecond := 0));
      TickConserves(h, r.granted, r.state.pending);
    case Arrive(info) =>
      assert h.served + (h.now.pending + [info]) == h.queued + [info];
      assert h.granted + [] == h.granted;
  }

  lemma {:induction false} TickConserves(h: History, granted: seq<Request>, pending: seq<Request>)
    requires Conserved(h) && granted + pending == h.now.pending
    ensures multiset(h.granted + granted) + multiset(pending) == multiset(h.arrived)
    ensures (h.served + granted) + pending == h.queued
  {
    assert multiset(h.now.pending) == multiset(granted) + multiset(pending);
    assert (h.served + granted) + pending == h.served + h.now.pending;
  }

  /** In every run, for every limit: each request that arrived is granted once or pending once,
      and postponed requests leave the list in the order they entered it. */
  lemma {:induction false} RunConserves(limit: int, h: History, events: seq<Event>)
    requires Conserved(h)
    ensures Conserved(Run(limit, h, events))
    decreases |events|
  {
    if events != [] {
      StepConserves(limit, h, events[0]);
      RunConserves(limit, Extend(limit, h, events[0]), events[1..]);
    }
  }

  // ---------- How much a tick releases ----------

  /** The bytes of this second, with the first `i` pending requests let through. */
  function SoFar(s: State, i: nat): nat
    requires i <= |s.pending|
  {
    s.bytesPerSecond + TotalBytes(s.pending[..i])
  }

  /** Seconds saved up when request `i` has its turn: the first one to go takes them all. */
  function Saved(s: State, i: nat): nat { if i == 0 then s.waitedSeconds else 0 }

  /** Request `i` goes, if those before it went: the second is not used up yet, and the request fits
      what is left of it and what was saved up. */
  predicate Goes(limit: int, s: State, i: nat)
    requires i < |s.pending|
  {
    && (i > 0 ==> SoFar(s, i) <= limit)
    && s.pending[i].bytes + SoFar(s, i) <= Saved(s, i) * limit + limit
  }

  /** A tick lets through the requests that go and stops at the first one that does not; it saves up
      a second if that one did not fit. */
  ghost predicate Released(limit: int, s: State, r: Reaction) {
    var k := |r.granted|;
    && k <= |s.pending| && r.granted == s.pending[..k] && r.state.pending == s.pending[k..]
    && r.state.bytesPerSecond == SoFar(s, k)
    && (forall i :: 0 <= i < k ==> Goes(limit, s, i)) && (k == |s.pending| || !Goes(limit, s, k))
    && r.state.waitedSeconds == Saved(s, k) + if k < |s.pending| && (k == 0 || SoFar(s, k) <= limit) then 1 else 0
  }

  lemma {:induction false} SoFarNext(s: State, served: State, i: nat)
    requires s.pending != [] && i < |s.pending|
    requires served == State(s.bytesPerSecond + s.pending[0].bytes, 0, s.pending[1..])
    ensures SoFar(served, i) == SoFar(s, i + 1)
  {
    assert s.pending[..i + 1][1..] == s.pending[1..][..i];
  }

  lemma {:induction false} SoFarStart(s: State)
    ensures SoFar(s, 0) == s.bytesPerSecond
  {
    assert s.pending[..0] == [];
  }

  lemma {:induction false} DrainExact(limit: int, s: State)
    ensures Released(limit, s, Drain(limit, s))
    decreases |s.pending|
  {
    hide SoFar;
    SoFarStart(s);
    if s.pending != [] {
      var head := s.pending[0];
      if head.bytes + s.bytesPerSecond <= s.waitedSeconds * limit + limit {
        var served := State(s.bytesPerSecond + head.bytes, 0, s.pending[1..]);
        SoFarStart(served);
        SoFarNext(s, served, 0);
        if served.bytesPerSecond <= limit {
          DrainExact(limit, served);
          OneMoreReleased(limit, s, served, Drain(limit, served));
        }
      }
    }
  }

  lemma {:induction false} OneMoreReleased(limit: int, s: State, served: State, r: Reaction)
    requires s.pending != [] && Goes(limit, s, 0) && Released(limit, served, r)
    requires served == State(s.bytesPerSecond + s.pending[0].bytes, 0, s.pending[1..]) && served.bytesPerSecond <= limit
    ensures Released(limit, s, Reaction(r.state, [s.pending[0]] + r.granted))
  {
    hide SoFar;
    SoFarStart(served);
    var k := |r.granted|;
    forall i | 0 <= i < |s.pending|
      ensures SoFar(served, i) == SoFar(s, i + 1)
      ensures i + 1 < |s.pending| ==> (Goes(limit, s, i + 1) <==> Goes(limit, served, i))
    {
      SoFarNext(s, served, i);
    }
    var all := [s.pending[0]] + r.granted;
    assert s.pending[..k + 1] == [s.pending[0]] + s.pending[1..][..k];
    assert s.pending[k + 1..] == s.pending[1..][k..];
    forall i | 0 <= i < |all|
      ensures Goes(limit, s, i)
    {
      if i > 0 { assert Goes(limit, served, i - 1); }
    }
  }

  // ---------- What goes through at once ----------

  function Arrivals(events: seq<Event>): seq<Request> {
    if events == [] then [] else (if events[0].Arrive? then [events[0].info] else []) + Arrivals(events[1..])
  }

  /** What a run records about its events is what they are. */
  lemma {:induction false} RunRecords(limit: int, h: History, events: seq<Event>)
    ensures var g := Run(limit, h, events);
            g.arrived == h.arrived + Arrivals(events) && g.ticks == h.ticks + Ticks(events)
    decreases |events|
  {
    hide Step;
    if events != [] { RunRecords(limit, Extend(limit, h, events[0]), events[1..]); }
  }

  /** The counter holds the bytes let through by the last tick and since. */
  lemma {:induction false} CounterIsRecent(limit: int, h: History, events: seq<Event>)
    requires h.now.bytesPerSecond == TotalBytes(h.recent)
    ensures var g := Run(limit, h, events); g.now.bytesPerSecond == TotalBytes(g.recent)
    decreases |events|
  {
    hide Drain, TotalBytes;
    if events != [] {
      var next := Extend(limit, h, events[0]);
      assert next.now.bytesPerSecond == TotalBytes(next.recent) by { RecentStep(limit, h, events[0]); }
      CounterIsRecent(limit, next, events[1..]);
    }
  }

  lemma {:induction false} RecentStep(limit: int, h: History, e: Event)
    requires h.now.bytesPerSecond == TotalBytes(h.recent)
    ensures var next := Extend(limit, h, e); next.now.bytesPerSecond == TotalBytes(next.recent)
  {
    hide Drain, TotalBytes;
    match e
    case Tick =>
      var s := h.now.(bytesPerSecond := 0);
      DrainExact(limit, s);
    case Arrive(info) =>
      OneRequest(info);
      TotalBytesAppend(h.recent, [info]);
      assert h.recent + [] == h.recent;
  }

  /** In every run, under every limit: a request goes through at once if and only if there is no limit,
      or it fits under the limit with everything let through by the last tick and since. */
  lemma {:induction false} AtOnceIff(limit: int, events: seq<Event>, info: Request)
    ensures var h := Run(limit, Fresh(), events);
            var g := Extend(limit, h, Arrive(info));
            && (limit == 0 || TotalBytes(h.recent) + info.bytes < limit ==>
                  g.granted == h.granted + [info] && g.now.pending == h.now.pending)
            && (!(limit == 0 || TotalBytes(h.recent) + info.bytes < limit) ==>
                  g.granted == h.granted && g.now.pending == h.now.pending + [info])
  {
    hide Run, TotalBytes;
    NoBytes();
    CounterIsRecent(limit, Fresh(), events);
    var h := Run(limit, Fresh(), events);
    assert h.granted + [] == h.granted;
  }

  lemma {:induction false} NoBytes()
    ensures TotalBytes([]) == 0
  {
  }

  /** Between any two ticks less than a limit arrives, `b` bytes having been let through already. */
  predicate Light(limit: int, b: nat, events: seq<Event>)
    decreases |events|
  {
    events == [] ||
    match events[0]
    case Tick => Light(limit, 0, events[1..])
    case Arrive(info) => b + info.bytes < limit && Light(limit, b + info.bytes, events[1..])
  }

  /** With nothing pending, nothing is postponed if and only if the load is light; and then everything
      goes through in the order in which it arrives. */
  lemma {:induction false} NothingPostponedIff(limit: int, h: History, events: seq<Event>)
    requires limit > 0 && h.now.pending == []
    ensures var g := Run(limit, h, events);
            && (g.queued == h.queued <==> Light(limit, h.now.bytesPerSecond, events))
            && (g.queued == h.queued ==> g.now.pending == [] && g.granted == h.granted + Arrivals(events))
    decreases |events|
  {
    hide Extend, Run, Light, Arrivals;
    EventsUnfold(limit, h, events);
    if events == [] {
      assert h.granted + [] == h.granted;
    } else {
      var e, next := events[0], Extend(limit, h, events[0]);
      LightStep(limit, h, e);
      if e.Tick? || h.now.bytesPerSecond + e.info.bytes < limit {
        NothingPostponedIff(limit, next, events[1..]);
        var own := if e.Tick? then [] else [e.info];
        assert next.granted == h.granted + own;
        assert (h.granted + own) + Arrivals(events[1..]) == h.granted + Arrivals(events);
      } else {
        ServedExtends(limit, next, events[1..]);
        assert |Run(limit, h, events).queued| >= |next.queued| == |h.queued| + 1;
      }
    }
  }

  lemma {:induction false} EventsUnfold(limit: int, h: History, events: seq<Event>)
    ensures events == [] ==> Run(limit, h, events) == h && Arrivals(events) == [] && Light(limit, h.now.bytesPerSecond, events)
    ensures events != [] ==>
              var e, b := events[0], h.now.bytesPerSecond;
              && Run(limit, h, events) == Run(limit, Extend(limit, h, e), events[1..])
              && Arrivals(events) == (if e.Tick? then [] else [e.info]) + Arrivals(events[1..])
              && (Light(limit, b, events) <==>
                    if e.Tick? then Light(limit, 0, events[1..])
                    else b + e.info.bytes < limit && Light(limit, b + e.info.bytes, events[1..]))
  {
    hide Extend;
  }

  lemma {:induction false} LightStep(limit: int, h: History, e: Event)
    requires limit > 0 && h.now.pending == []
    ensures var next := Extend(limit, h, e);
            match e
            case Tick => next.now.pending == [] && next.now.bytesPerSecond == 0
                         && next.granted == h.granted && next.queued == h.queued
            case Arrive(info) =>
              if h.now.bytesPerSecond + info.bytes < limit then
                && next.now.pending == [] && next.now.bytesPerSecond == h.now.bytesPerSecond + info.bytes
                && next.granted == h.granted + [info] && next.queued == h.queued
              else next.queued == h.queued + [info]
  {
    assert h.granted + [] == h.granted;
  }

  // ---------- Rate bound ----------

  /** Potential argument: bytes already granted in earlier seconds, the seconds saved up, and
      the larger of this second's bytes and the limit, never exceed one limit plus two per tick. */
  ghost predicate WithinBudget(limit: int, h: History) {
    TotalBytes(h.granted) - h.now.bytesPerSecond + h.now.waitedSeconds * limit + Max(h.now.bytesPerSecond, limit)
      <= (2 * h.ticks + 1) * limit
  }

  /** One tick's releases, entered at counter `b`: they are exactly what the counter gains, and
      the counter plus the seconds now saved up stay within what was saved before. */
  lemma {:induction false} DrainBudget(limit: int, s: State)
    requires limit > 0 && s.bytesPerSecond <= limit
    requires s.bytesPerSecond > 0 ==> s.waitedSeconds == 0
    ensures var r := Drain(limit, s);
            && r.state.bytesPerSecond == s.bytesPerSecond + TotalBytes(r.granted)
            && r.state.waitedSeconds * limit + Max(r.state.bytesPerSecond, limit) <= s.waitedSeconds * limit + 2 * limit
    decreases |s.pending|
  {
    if s.pending != [] {
      var head := s.pending[0];
      if head.bytes + s.bytesPerSecond > s.waitedSeconds * limit + limit {
        assert (s.waitedSeconds + 1) * limit == s.waitedSeconds * limit + limit;
      } else {
        var served := State(s.bytesPerSecond + head.bytes, 0, s.pending[1..]);
        assert s.waitedSeconds * limit >= 0;
        if served.bytesPerSecond <= limit {
          DrainBudget(limit, served);
        }
      }
    }
  }

  lemma {:induction false} StepWithinBudget(limit: int, h: History, e: Event)
    requires limit > 0 && WithinBudget(limit, h)
    ensures WithinBudget(limit, Extend(limit, h, e))
  {
    hide Drain, TotalBytes;
    var r := Step(limit, h.now, e);
    TotalBytesAppend(h.granted, r.granted);
    match e
    case Tick =>
      DrainBudget(limit, h.now.(bytesPerSecond := 0));
      assert (2 * (h.ticks + 1) + 1) * limit == (2 * h.ticks + 1) * limit + 2 * limit;
    case Arrive(info) =>
      OneRequest(info);
  }

  lemma {:induction false} OneRequest(info: Request)
    ensures TotalBytes([info]) == info.bytes && TotalBytes([]) == 0
  {
  }

  lemma {:induction false} RunWithinBudget(limit: int, h: History, events: seq<Event>)
    requires limit > 0 && WithinBudget(limit, h)
    ensures WithinBudget(limit, Run(limit, h, events))
    decreases |events|
  {
    if events != [] {
      StepWithinBudget(limit, h, events[0]);
      RunWithinBudget(limit, Extend(limit, h, events[0]), events[1..]);
    }
  }

  /** Over every interleaving of arrivals and ticks, the bytes granted plus the credit saved up
      are at most 2n + 1 limits after n ticks. */
  lemma {:induction false} RateBound(limit: int, events: seq<Event>)
    requires limit > 0
    ensures var h := Run(limit, Fresh(), events);
            TotalBytes(h.granted) + h.now.waitedSeconds * limit <= (2 * h.ticks + 1) * limit
  {
    RunWithinBudget(limit, Fresh(), events);
  }

  // ---------- The bound is reached ----------

  /** A second in which a request of one byte less than the limit follows the tick. */
  function BusySeconds(limit: nat, n: nat): seq<Event>
    requires limit > 0
  {
    if n == 0 then [] else [Tick, Arrive(Request(limit - 1, 0))] + BusySeconds(limit, n - 1)
  }

  /** A request for (n + 2) limits, then n + 1 busy seconds, then one more tick. */
  function Greedy(limit: nat, n: nat): seq<Event>
    requires limit > 0
  {
    [Arrive(Request((n + 2) * limit, 1))] + BusySeconds(limit, n + 1) + [Tick]
  }

  lemma {:induction false} RunAppend(limit: int, h: History, a: seq<Event>, b: seq<Event>)
    ensures Run(limit, h, a + b) == Run(limit, Run(limit, h, a), b)
    decreases |a|
  {
    if a == [] {
      assert a + b == b;
    } else {
      assert (a + b)[1..] == a[1..] + b;
      RunAppend(limit, Extend(limit, h, a[0]), a[1..], b);
    }
  }

  ghost predicate Saving(limit: nat, h: History, big: Request, total: nat) {
    h.now.pending == [big] && big.bytes == total * limit
  }

  /** One busy second: the tick cannot yet serve the big request, and the small one gets through. */
  lemma {:induction false} BusySecond(limit: nat, h: History, big: Request, total: nat)
    requires limit > 0 && Saving(limit, h, big, total) && h.now.waitedSeconds + 1 < total
    ensures var arrival := Request(limit - 1, 0);
            var next := Extend(limit, Extend(limit, h, Tick), Arrive(arrival));
            && Saving(limit, next, big, total) && next.now.waitedSeconds == h.now.waitedSeconds + 1
            && next.ticks == h.ticks + 1 && next.granted == h.granted + [arrival]
  {
    var w := h.now.waitedSeconds;
    MulMono(w + 2, total, limit);
    assert (w + 2) * limit == w * limit + limit + limit;
    var mid := Extend(limit, h, Tick);
    assert mid.now == State(0, w + 1, [big]);
    assert mid.granted == h.granted;
  }

  lemma {:induction false} BusySecondsRun(limit: nat, h: History, big: Request, n: nat, total: nat)
    requires limit > 0 && Saving(limit, h, big, total) && h.now.waitedSeconds + n < total
    ensures var g := Run(limit, h, BusySeconds(limit, n));
            && Saving(limit, g, big, total) && g.now.waitedSeconds == h.now.waitedSeconds + n
            && g.ticks == h.ticks + n
            && TotalBytes(g.granted) == TotalBytes(h.granted) + n * (limit - 1)
    decreases n
  {
    if n > 0 {
      var events := BusySeconds(limit, n);
      var arrival := Request(limit - 1, 0);
      var mid := Extend(limit, h, Tick);
      var next := Extend(limit, mid, Arrive(arrival));
      BusySecond(limit, h, big, total);
      TotalBytesAppend(h.granted, [arrival]);
      assert TotalBytes([arrival]) == limit - 1;
      assert events[1..][1..] == BusySeconds(limit, n - 1);
      assert Run(limit, h, events) == Run(limit, mid, events[1..]) == Run(limit, next, events[1..][1..]);
      BusySecondsRun(limit, next, big, n - 1, total);
      assert (n - 1) * (limit - 1) + (limit - 1) == n * (limit - 1);
    }
  }

  /** The last tick serves the big request, for which exactly enough seconds were saved. */
  lemma {:induction false} FinalTick(limit: nat, h: History, big: Request, total: nat)
    requires limit > 0 && Saving(limit, h, big, total) && h.now.waitedSeconds + 1 == total
    ensures Run(limit, h, [Tick]).ticks == h.ticks + 1
    ensures TotalBytes(Run(limit, h, [Tick]).granted) == TotalBytes(h.granted) + total * limit
  {
    assert h.now.waitedSeconds * limit + limit == total * limit;
    assert [Tick][1..] == [];
    var s := h.now.(bytesPerSecond := 0);
    assert s.pending[1..] == [];
    assert Drain(limit, s).granted == [big];
    assert Run(limit, h, [Tick]) == Run(limit, Extend(limit, h, Tick), []);
    TotalBytesAppend(h.granted, [big]);
    assert TotalBytes([big]) == big.bytes + TotalBytes([]);
  }

  /** The factor two is real: for every n there is a run of n + 2 ticks that grants
      2(n + 2) - 1 limits less one byte per busy second, so the mean rate comes within a byte
      per second of twice the limit. */
  lemma {:induction false} RateBoundIsTight(limit: nat, n: nat)
    requires limit > 0
    ensures var h := Run(limit, Fresh(), Greedy(limit, n));
            h.ticks == n + 2 && TotalBytes(h.granted) == (2 * n + 3) * limit - (n + 1)
  {
    hide Run, BusySeconds, TotalBytes, Extend;
    var big := Request((n + 2) * limit, 1);
    var h0 := Extend(limit, Fresh(), Arrive(big));
    BigRequestWaits(limit, n, big);
    var busy := BusySeconds(limit, n + 1);
    BusySecondsRun(limit, h0, big, n + 1, n + 2);
    var h1 := Run(limit, h0, busy);
    assert Run(limit, Fresh(), Greedy(limit, n)) == Run(limit, h1, [Tick]) by {
      RunFirst(limit, Fresh(), Arrive(big), busy + [Tick]);
      assert Greedy(limit, n) == [Arrive(big)] + (busy + [Tick]);
      RunAppend(limit, h0, busy, [Tick]);
    }
    FinalTick(limit, h1, big, n + 2);
    SumOfParts(limit, n);
  }

  lemma {:induction false} BigRequestWaits(limit: nat, n: nat, big: Request)
    requires limit > 0 && big == Request((n + 2) * limit, 1)
    ensures var h0 := Extend(limit, Fresh(), Arrive(big));
            Saving(limit, h0, big, n + 2) && h0.ticks == 0 && TotalBytes(h0.granted) == 0 && h0.now.waitedSeconds == 0
  {
    MulMono(1, n + 2, limit);
  }

  lemma {:induction false} RunFirst(limit: int, h: History, e: Event, events: seq<Event>)
    ensures Run(limit, h, [e] + events) == Run(limit, Extend(limit, h, e), events)
  {
    hide Extend;
    assert ([e] + events)[1..] == events;
  }

  lemma {:induction false} SumOfParts(limit: nat, n: nat)
    requires limit > 0
    ensures (n + 1) * (limit - 1) + (n + 2) * limit == (2 * n + 3) * limit - (n + 1)
  {
  }

  // ---------- No starvation ----------

  /** Whole seconds that a request of this size needs to save up for: at least one. */
  function Cost(limit: int, bytes: nat): (c: nat)
    requires limit > 0
    ensures c >= 1 && bytes <= c * limit
    ensures c > 1 ==> (c - 1) * limit < bytes
  {
    if bytes <= limit then 1
    else
      var rest := Cost(limit, bytes - limit);
      assert (rest + 1) * limit == rest * limit + limit;
      rest + 1
  }

  function WaitBound(limit: int, rs: seq<Request>): nat
    requires limit > 0
  {
    if rs == [] then 0 else Cost(limit, rs[0].bytes) + WaitBound(limit, rs[1..])
  }

  function Min(a: int, b: int): int { if a < b then a else b }

  /** Ticks still needed to release the first `j` pending requests, counting saved seconds. */
  ghost function Remaining(limit: int, s: State, j: nat): (n: int)
    requires limit > 0 && j <= |s.pending|
    ensures j > 0 ==> n >= 1
    ensures n <= WaitBound(limit, s.pending[..j])
  {
    if j == 0 then 0
    else
      assert s.pending[..j][0] == s.pending[0];
      WaitBound(limit, s.pending[..j]) - Min(s.waitedSeconds, Cost(limit, s.pending[0].bytes) - 1)
  }

  lemma {:induction false} NotSavedEnough(limit: int, bytes: nat, waited: nat)
    requires limit > 0 && bytes > waited * limit + limit
    ensures Cost(limit, bytes) > waited + 1
  {
    var c := Cost(limit, bytes);
    assert (waited + 1) * limit == waited * limit + limit;
    if c <= waited + 1 {
      MulMono(c, waited + 1, limit);
      assert false;
    }
  }

  lemma {:induction false} DrainProgress(limit: int, s: State, j: nat)
    requires limit > 0 && j <= |s.pending|
    ensures var r := Drain(limit, s);
            || |r.granted| >= j
            || (&& |r.granted| + |r.state.pending| == |s.pending|
                && Remaining(limit, r.state, j - |r.granted|) <= WaitBound(limit, s.pending[..j]))
    ensures s.bytesPerSecond == 0 ==>
              var r := Drain(limit, s);
              || |r.granted| >= j
              || Remaining(limit, r.state, j - |r.granted|) <= Remaining(limit, s, j) - 1
    decreases |s.pending|
  {
    hide Cost, WaitBound, Remaining;
    DrainReleasesPrefix(limit, s);
    var r := Drain(limit, s);
    assert |r.granted + r.state.pending| == |s.pending|;
    if j > 0 {
      var head := s.pending[0];
      if head.bytes + s.bytesPerSecond > s.waitedSeconds * limit + limit {
        HeadWaits(limit, s, j);
      } else {
        var served := State(s.bytesPerSecond + head.bytes, 0, s.pending[1..]);
        HeadServed(limit, s, j, served);
        if served.bytesPerSecond <= limit {
          DrainProgress(limit, served, j - 1);
        }
      }
    }
  }

  /** With one more second saved for the head, one tick less is needed. */
  lemma {:induction false} HeadWaits(limit: int, s: State, j: nat)
    requires limit > 0 && 0 < j <= |s.pending|
    requires s.pending[0].bytes + s.bytesPerSecond > s.waitedSeconds * limit + limit
    ensures var s' := s.(waitedSeconds := s.waitedSeconds + 1);
            && Remaining(limit, s', j) <= WaitBound(limit, s.pending[..j])
            && (s.bytesPerSecond == 0 ==> Remaining(limit, s', j) <= Remaining(limit, s, j) - 1)
  {
    hide Cost, WaitBound;
    if s.bytesPerSecond == 0 {
      NotSavedEnough(limit, s.pending[0].bytes, s.waitedSeconds);
    }
  }

  /** With the head released, the others need at least one tick less. */
  lemma {:induction false} HeadServed(limit: int, s: State, j: nat, served: State)
    requires limit > 0 && 0 < j <= |s.pending| && served.pending == s.pending[1..] && served.waitedSeconds == 0
    ensures Remaining(limit, served, j - 1) == WaitBound(limit, served.pending[..j - 1])
    ensures WaitBound(limit, served.pending[..j - 1]) <= Remaining(limit, s, j) - 1
    ensures WaitBound(limit, served.pending[..j - 1]) <= WaitBound(limit, s.pending[..j])
    ensures Remaining(limit, served, j - 1) <= Remaining(limit, s, j) - 1
  {
    hide Cost;
    var first := s.pending[..j];
    assert first[0] == s.pending[0] && first[1..] == served.pending[..j - 1];
    if j == 1 { assert served.pending[..0] == []; }
  }

  lemma {:induction false} WaitsForTicks(limit: int, h: History, j: nat, events: seq<Event>)
    requires limit > 0 && j <= |h.now.pending| && Conserved(h)
    requires Ticks(events) >= Remaining(limit, h.now, j)
    ensures |Run(limit, h, events).served| >= |h.served| + j
    decreases |events|
  {
    if events == [] {
    } else {
      var next := Extend(limit, h, events[0]);
      var r := Step(limit, h.now, events[0]);
      StepConserves(limit, h, events[0]);
      if events[0].Tick? {
        var s := h.now.(bytesPerSecond := 0);
        assert Remaining(limit, s, j) == Remaining(limit, h.now, j);
        DrainProgress(limit, s, j);
        DrainReleasesPrefix(limit, s);
        if |r.granted| >= j {
          ServedExtends(limit, next, events[1..]);
        } else {
          WaitsForTicks(limit, next, j - |r.granted|, events[1..]);
        }
      } else {
        assert next.now.pending[..j] == h.now.pending[..j];
        assert j > 0 ==> next.now.pending[0] == h.now.pending[0];
        WaitsForTicks(limit, next, j, events[1..]);
      }
    }
  }

  lemma {:induction false} ServedExtends(limit: int, h: History, events: seq<Event>)
    ensures h.served <= Run(limit, h, events).served
    ensures h.queued <= Run(limit, h, events).queued
    decreases |events|
  {
    if events != [] {
      ServedExtends(limit, Extend(limit, h, events[0]), events[1..]);
    }
  }

  /** However the run continues and however many requests still arrive, once it has ticked
      `WaitBound` times the first `j` pending requests have all been released, next and in order. */
  lemma {:induction false} NoStarvation(limit: int, before: seq<Event>, j: nat, after: seq<Event>)
    requires limit > 0
    requires j <= |Run(limit, Fresh(), before).now.pending|
    requires Ticks(after) >= WaitBound(limit, Run(limit, Fresh(), before).now.pending[..j])
    ensures var h := Run(limit, Fresh(), before);
            h.served + h.now.pending[..j] <= Run(limit, h, after).served
  {
    hide Run, Ticks, WaitBound, Cost, Remaining;
    RunConserves(limit, Fresh(), before);
    var h := Run(limit, Fresh(), before);
    var g := Run(limit, h, after);
    RunConserves(limit, h, after);
    WaitsForTicks(limit, h, j, after);
    ServedExtends(limit, h, after);
    assert g.served <= g.queued && h.queued <= g.queued;
    assert h.served + h.now.pending[..j] <= h.queued by {
      assert h.queued == (h.served + h.now.pending[..j]) + h.now.pending[j..];
    }
  }

  // ---------- Limits that are not positive ----------

  /** With limit zero nothing is ever postponed; with a negative limit nothing is ever granted. */
  lemma {:induction false} NonPositiveLimit(limit: int, h: History, events: seq<Event>)
    requires limit <= 0
    requires limit == 0 ==> h.now.pending == [] && h.granted == h.arrived
    requires limit < 0 ==> h.granted == [] && h.now.pending == h.arrived
    ensures var g := Run(limit, h, events);
            && (limit == 0 ==> g.now.pending == [] && g.granted == g.arrived)
            && (limit < 0 ==> g.granted == [] && g.now.pending == g.arrived)
    decreases |events|
  {
    if events != [] {
      if limit < 0 && events[0].Tick? {
        assert h.now.waitedSeconds * limit <= 0;
      }
      NonPositiveLimit(limit, Extend(limit, h, events[0]), events[1..]);
    }
  }

  /** `n` ticks in a row. */
  function TickTimes(n: nat): seq<Event> { seq(n, _ => Tick) }

  lemma {:induction false} TicksOfTickTimes(n: nat)
    ensures Ticks(TickTimes(n)) == n
  {
    if n > 0 {
      assert TickTimes(n)[1..] == TickTimes(n - 1);
      TicksOfTickTimes(n - 1);
    }
  }

  ghost predicate Clears(limit: int, h: History, n: nat) {
    Run(limit, h, TickTimes(n)).now.pending == []
  }

  ghost predicate CanClear(limit: int, before: seq<Event>) {
    exists n: nat :: Clears(limit, Run(limit, Fresh(), before), n)
  }

  /** A run can always be continued until nothing is pending, whatever has happened before,
      if and only if the limit is not negative. */
  lemma {:induction false} EveryoneServedIffLimitNotNegative(limit: int)
    ensures limit >= 0 <==> forall before: seq<Event> :: CanClear(limit, before)
  {
    if limit >= 0 {
      forall before: seq<Event>
        ensures CanClear(limit, before)
      {
        var n := ClearingTicks(limit, before);
      }
    } else {
      var before := [Arrive(Request(0, 0))];
      NonPositiveLimit(limit, Fresh(), before);
      var h := Run(limit, Fresh(), before);
      assert before[1..] == [];
      assert h == Run(limit, Extend(limit, Fresh(), before[0]), []);
      assert h.arrived == [Request(0, 0)];
      forall n: nat
        ensures !Clears(limit, h, n)
      {
        NonPositiveLimit(limit, h, TickTimes(n));
        TicksArriveNothing(limit, h, n);
      }
      assert !CanClear(limit, before);
    }
  }

  lemma {:induction false} TicksArriveNothing(limit: int, h: History, n: nat)
    ensures Run(limit, h, TickTimes(n)).arrived == h.arrived
    ensures Run(limit, h, TickTimes(n)).queued == h.queued
    decreases n
  {
    if n > 0 {
      assert TickTimes(n)[1..] == TickTimes(n - 1);
      TicksArriveNothing(limit, Extend(limit, h, Tick), n - 1);
    }
  }

  lemma {:induction false} ClearingTicks(limit: int, before: seq<Event>) returns (n: nat)
    requires limit >= 0
    ensures Clears(limit, Run(limit, Fresh(), before), n)
  {
    var h := Run(limit, Fresh(), before);
    if limit == 0 {
      n := 0;
      NonPositiveLimit(limit, Fresh(), before);
    } else {
      n := WaitBound(limit, h.now.pending);
      assert h.now.pending[..|h.now.pending|] == h.now.pending;
      TicksOfTickTimes(n);
      NoStarvation(limit, before, |h.now.pending|, TickTimes(n));
      TicksArriveNothing(limit, h, n);
      RunConserves(limit, Fresh(), before);
      RunConserves(limit, h, TickTimes(n));
    }
  }
}
