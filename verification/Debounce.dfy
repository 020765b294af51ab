/** The dump trigger of dump.rs as a protocol: many threads share a debounce gate, and each
    accepted request is sent once, when its run is awaited or dropped. */
module Debounce {
  import opened Bytes

  type Instant = nat
  type DumpId = nat

  /** The mutex-guarded field: when the last accepted request read the clock, and its id. */
  datatype Last = Last(at: Instant, into: DumpId)

  type Pairs = seq<(string, string)>

  /** What travels over the channel to the worker. */
  datatype DumpRequest = DumpRequest(id: DumpId, metadata: Pairs)

  /** Where a call of `request` stands. The clock is read before the lock is taken. An
      accepted request is owed to the channel until its run is awaited or dropped. */
  datatype Request =
    | Fresh
    | ClockRead(now: Instant)
    | Accepted(at: Instant, owed: bool, pairs: Pairs)
    | Coalesced(into: DumpId)

  /** Instant::duration_since saturates at zero. */
  function Since(now: Instant, at: Instant): nat {
    if now < at then 0 else now - at
  }

  /** The decision under the lock. */
  predicate Folds(last: Option<Last>, now: Instant, window: nat) {
    last.Some? && Since(now, last.value.at) < window
  }

  /** `log` lists accepted requests in the order in which they took the lock, `sent` what
      went over the channel. A request's id is its index. */
  datatype State = State(
    clock: Instant,
    last: Option<Last>,
    requests: seq<Request>,
    log: seq<Last>,
    open: bool,
    sent: seq<DumpRequest>)

  /** Time passes, a call reads the clock, a call takes the lock and decides, a pair is
      attached to a run, a run is awaited or dropped, or the worker goes away. */
  datatype Move =
    | Tick(delay: nat)
    | Read(id: nat)
    | Decide(id: nat)
    | Attach(id: nat, pair: (string, string))
    | End(id: nat, awaited: bool)
    | Close

  predicate Owed(s: State, i: nat) {
    i < |s.requests| && s.requests[i].Accepted? && s.requests[i].owed
  }

  function Act(window: nat, s: State, m: Move): State {
    match m
    case Tick(d) => s.(clock := s.clock + d)
    case Read(i) =>
      if i < |s.requests| && s.requests[i].Fresh? then s.(requests := s.requests[i := ClockRead(s.clock)]) else s
    case Decide(i) =>
      if i < |s.requests| && s.requests[i].ClockRead? then
        var now := s.requests[i].now;
        if Folds(s.last, now, window) then s.(requests := s.requests[i := Coalesced(s.last.value.into)])
        else s.(requests := s.requests[i := Accepted(now, true, [])], last := Some(Last(now, i)),
                log := s.log + [Last(now, i)])
      else s
    case Attach(i, pair) =>
      if Owed(s, i) then s.(requests := s.requests[i := s.requests[i].(pairs := s.requests[i].pairs + [pair])]) else s
    case End(i, _) =>
      if Owed(s, i) then
        s.(requests := s.requests[i := s.requests[i].(owed := false)],
           sent := if s.open then s.sent + [DumpRequest(i, s.requests[i].pairs)] else s.sent)
      else s
    case Close => s.(open := false)
  }

  function Run(window: nat, s: State, moves: seq<Move>): State
    decreases moves
  {
    if moves == [] then s else Run(window, Act(window, s, moves[0]), moves[1..])
  }

  function Initial(n: nat): State {
    State(0, None, Waiting(n), [], true, [])
  }

  function Waiting(n: nat): (r: seq<Request>)
    ensures |r| == n && forall i :: 0 <= i < n ==> r[i] == Fresh
  {
    if n == 0 then [] else [Fresh] + Waiting(n - 1)
  }

  // ----- spacing

  /** Accepted requests, in lock order, read the clock at least `window` apart. */
  predicate Spaced(log: seq<Last>, window: nat) {
    forall i, j :: 0 <= i < j < |log| ==> log[i].at + window <= log[j].at
  }

  predicate AcceptedAt(r: Request, at: Instant) {
    r.Accepted? && r.at == at
  }

  /** The log holds exactly the accepted requests, each once. */
  ghost predicate Logged(s: State) {
    (forall k :: 0 <= k < |s.log| ==>
       s.log[k].into < |s.requests| && AcceptedAt(s.requests[s.log[k].into], s.log[k].at))
    && (forall k, l :: 0 <= k < l < |s.log| ==> s.log[k].into != s.log[l].into)
    && (forall i :: 0 <= i < |s.requests| && s.requests[i].Accepted? ==> InLog(s.log, i))
  }

  ghost predicate InLog(log: seq<Last>, id: DumpId) {
    exists k :: 0 <= k < |log| && log[k].into == id
  }

  ghost predicate Inv(window: nat, s: State) {
    s.last == (if s.log == [] then None else Some(s.log[|s.log| - 1]))
    && (window > 0 ==> Spaced(s.log, window)) && Logged(s)
    && FoldsKnown(s)
  }

  lemma AcceptKeepsLogged(s: State, i: nat, now: Instant)
    requires Logged(s) && i < |s.requests| && s.requests[i] == ClockRead(now)
    ensures Logged(s.(requests := s.requests[i := Accepted(now, true, [])], log := s.log + [Last(now, i)]))
  {
    var s' := s.(requests := s.requests[i := Accepted(now, true, [])], log := s.log + [Last(now, i)]);
    forall k | 0 <= k < |s'.requests| && s'.requests[k].Accepted? ensures InLog(s'.log, k) {
      if k == i { assert s'.log[|s.log|].into == i; } else { StaysInLog(s.log, Last(now, i), k); }
    }
  }

  lemma StaysInLog(log: seq<Last>, e: Last, id: DumpId)
    requires InLog(log, id)
    ensures InLog(log + [e], id)
  {
    var k :| 0 <= k < |log| && log[k].into == id;
    assert (log + [e])[k].into == id;
  }

  lemma SpacedAppend(log: seq<Last>, window: nat, e: Last)
    requires Spaced(log, window) && (log != [] ==> log[|log| - 1].at + window <= e.at)
    ensures Spaced(log + [e], window)
  {
  }

  ghost predicate FoldsKnown(s: State) {
    forall i :: 0 <= i < |s.requests| && s.requests[i].Coalesced? ==> InLog(s.log, s.requests[i].into)
  }

  lemma AcceptKeepsFolds(s: State, i: nat, now: Instant)
    requires FoldsKnown(s) && i < |s.requests|
    ensures FoldsKnown(s.(requests := s.requests[i := Accepted(now, true, [])], log := s.log + [Last(now, i)]))
  {
    hide InLog;
    forall k | 0 <= k < |s.requests| && k != i && s.requests[k].Coalesced?
      ensures InLog(s.log + [Last(now, i)], s.requests[k].into)
    {
      StaysInLog(s.log, Last(now, i), s.requests[k].into);
    }
  }

  lemma FoldKeepsInv(window: nat, s: State, i: nat)
    requires Inv(window, s) && i < |s.requests| && s.requests[i].ClockRead? && Folds(s.last, s.requests[i].now, window)
    ensures Inv(window, Act(window, s, Decide(i)))
  {
    assert InLog(s.log, s.last.value.into) by { assert s.log[|s.log| - 1].into == s.last.value.into; }
  }

  lemma DecideKeepsInv(window: nat, s: State, i: nat)
    requires Inv(window, s) && i < |s.requests| && s.requests[i].ClockRead?
    ensures Inv(window, Act(window, s, Decide(i)))
  {
    var now := s.requests[i].now;
    if Folds(s.last, now, window) {
      FoldKeepsInv(window, s, i);
    } else {
      hide Logged, Spaced, InLog, FoldsKnown;
      AcceptKeepsLogged(s, i, now);
      if window > 0 { SpacedAppend(s.log, window, Last(now, i)); }
      AcceptKeepsFolds(s, i, now);
    }
  }

  /** Moves that take no decision leave the log and everything that it says as they are. */
  lemma OtherMoveKeepsInv(window: nat, s: State, m: Move)
    requires Inv(window, s) && !m.Decide?
    ensures Inv(window, Act(window, s, m))
  {
    hide InLog, Spaced;
  }

  lemma ActKeepsInv(window: nat, s: State, m: Move)
    requires Inv(window, s)
    ensures Inv(window, Act(window, s, m))
  {
    hide Inv;
    if !m.Decide? {
      OtherMoveKeepsInv(window, s, m);
    } else if m.id < |s.requests| && s.requests[m.id].ClockRead? {
      DecideKeepsInv(window, s, m.id);
    }
  }

  lemma {:induction false} RunKeepsInv(window: nat, s: State, moves: seq<Move>)
    requires Inv(window, s)
    ensures Inv(window, Run(window, s, moves))
    decreases moves
  {
    hide Inv, Act;
    if moves != [] {
      ActKeepsInv(window, s, moves[0]);
      RunKeepsInv(window, Act(window, s, moves[0]), moves[1..]);
    }
  }

  lemma {:induction false} RunKeepsIds(window: nat, s: State, moves: seq<Move>)
    ensures |Run(window, s, moves).requests| == |s.requests|
    decreases moves
  {
    if moves != [] { RunKeepsIds(window, Act(window, s, moves[0]), moves[1..]); }
  }

  /** For every interleaving: two accepted requests are at least the window apart, even
      though the clock is read before the lock is taken and the lock may be taken in
      another order than the clock was read. */
  lemma AcceptedAreSpaced(window: nat, n: nat, moves: seq<Move>, i: nat, j: nat)
    requires i < n && j < n && i != j
    ensures var s := Run(window, Initial(n), moves);
            |s.requests| == n
            && (s.requests[i].Accepted? && s.requests[j].Accepted? ==>
                s.requests[i].at + window <= s.requests[j].at || s.requests[j].at + window <= s.requests[i].at)
  {
    hide Run, FoldsKnown;
    StartInv(window, n);
    RunKeepsInv(window, Initial(n), moves);
    RunKeepsIds(window, Initial(n), moves);
    var s := Run(window, Initial(n), moves);
    if s.requests[i].Accepted? && s.requests[j].Accepted? {
      var k :| 0 <= k < |s.log| && s.log[k].into == i;
      var l :| 0 <= l < |s.log| && s.log[l].into == j;
      assert s.log[k].at == s.requests[i].at && s.log[l].at == s.requests[j].at;
    }
  }

  /** How many of the accepted requests read the clock within [from, from + span]. */
  function Within(log: seq<Last>, from: nat, span: nat): nat {
    if log == [] then 0
    else (if from <= log[0].at <= from + span then 1 else 0) + Within(log[1..], from, span)
  }

  lemma {:induction false} WithinBound(log: seq<Last>, window: nat, from: nat, span: nat)
    requires window > 0 && Spaced(log, window) && Within(log, from, span) > 0
    ensures (Within(log, from, span) - 1) * window <= span
    ensures log[0].at + (Within(log, from, span) - 1) * window <= from + span
  {
    var rest := log[1..];
    var tail := Within(rest, from, span);
    if tail > 0 {
      assert Spaced(rest, window) by { SpacedTail(log, window); }
      WithinBound(rest, window, from, span);
      assert log[0].at + window <= rest[0].at by { assert rest[0] == log[1]; }
      OneLess(tail, window);
    }
  }

  lemma SpacedTail(log: seq<Last>, window: nat)
    requires log != [] && Spaced(log, window)
    ensures Spaced(log[1..], window)
  {
    assert forall i :: 0 <= i < |log[1..]| ==> log[1..][i] == log[i + 1];
  }

  lemma OneLess(k: nat, w: nat)
    requires k > 0
    ensures k * w == (k - 1) * w + w
  {
  }

  /** At most span / window + 1 requests are accepted in any span of time. */
  lemma RateIsBounded(window: nat, n: nat, moves: seq<Move>, from: nat, span: nat)
    requires window > 0
    ensures Within(Run(window, Initial(n), moves).log, from, span) <= span / window + 1
  {
    hide Run, Spaced, Within, Logged, FoldsKnown;
    assert Inv(window, Initial(n)) by { StartInv(window, n); }
    RunKeepsInv(window, Initial(n), moves);
    var log := Run(window, Initial(n), moves).log;
    if Within(log, from, span) > 0 {
      WithinBound(log, window, from, span);
      Quotient(Within(log, from, span) - 1, window, span);
    }
  }

  lemma StartInv(window: nat, n: nat)
    ensures Inv(window, Initial(n))
  {
  }

  lemma Quotient(k: nat, w: nat, span: nat)
    requires w > 0 && k * w <= span
    ensures k <= span / w
  {
    if k > span / w {
      assert (span / w + 1) * w <= k * w by { Monotone(span / w + 1, k, w); }
      assert false;
    }
  }

  lemma Monotone(a: nat, b: nat, w: nat)
    requires a <= b
    ensures a * w <= b * w
  {
  }

  /** A coalesced trigger names the request that was accepted most recently when it took
      the lock, and that one read the clock less than a window before it, or after it. */
  lemma CoalescesIntoLatest(window: nat, n: nat, moves: seq<Move>, i: nat)
    requires var s := Run(window, Initial(n), moves); i < |s.requests| && s.requests[i].ClockRead?
    ensures var s := Run(window, Initial(n), moves);
            var now := s.requests[i].now;
            match Act(window, s, Decide(i)).requests[i]
            case Coalesced(into) =>
              s.log != [] && into == s.log[|s.log| - 1].into && now < s.log[|s.log| - 1].at + window
            case Accepted(at, owed, pairs) =>
              at == now && owed && pairs == [] && (s.log == [] || s.log[|s.log| - 1].at + window <= now || window == 0)
            case _ => false
  {
    hide Run, Logged, FoldsKnown, Spaced;
    StartInv(window, n);
    RunKeepsInv(window, Initial(n), moves);
  }

  // ----- sending

  /** What was sent belongs to accepted requests that are owed no more, with the pairs they
      had; while the worker is there, everything that is owed no more was sent. */
  ghost predicate SentInv(s: State) {
    (forall k :: 0 <= k < |s.sent| ==> SentFor(s, s.sent[k]))
    && (forall k, l :: 0 <= k < l < |s.sent| ==> s.sent[k].id != s.sent[l].id)
    && (s.open ==>
          forall i :: 0 <= i < |s.requests| && s.requests[i].Accepted? && !s.requests[i].owed ==> WasSent(s.sent, i))
  }

  predicate SentFor(s: State, r: DumpRequest) {
    r.id < |s.requests| && s.requests[r.id].Accepted? && !s.requests[r.id].owed && r.metadata == s.requests[r.id].pairs
  }

  ghost predicate WasSent(sent: seq<DumpRequest>, id: DumpId) {
    exists k :: 0 <= k < |sent| && sent[k].id == id
  }

  lemma StaysSent(sent: seq<DumpRequest>, r: DumpRequest, id: DumpId)
    requires WasSent(sent, id)
    ensures WasSent(sent + [r], id)
  {
    var k :| 0 <= k < |sent| && sent[k].id == id;
    assert (sent + [r])[k].id == id;
  }

  lemma EndKeepsSent(window: nat, s: State, i: nat, awaited: bool)
    requires SentInv(s) && Owed(s, i)
    ensures SentInv(Act(window, s, End(i, awaited)))
  {
    var s' := Act(window, s, End(i, awaited));
    if s.open {
      var r := DumpRequest(i, s.requests[i].pairs);
      assert forall k :: 0 <= k < |s.sent| ==> SentFor(s, s.sent[k]);
      forall j | 0 <= j < |s'.requests| && s'.requests[j].Accepted? && !s'.requests[j].owed
        ensures WasSent(s'.sent, j)
      {
        if j == i { assert s'.sent[|s.sent|].id == i; } else { StaysSent(s.sent, r, j); }
      }
    }
  }

  lemma ActKeepsSent(window: nat, s: State, m: Move)
    requires SentInv(s)
    ensures SentInv(Act(window, s, m))
  {
    if m.End? && Owed(s, m.id) {
      EndKeepsSent(window, s, m.id, m.awaited);
    } else {
      hide WasSent;
      assert Act(window, s, m).sent == s.sent;
      forall k | 0 <= k < |s.sent| ensures SentFor(Act(window, s, m), s.sent[k]) { assert SentFor(s, s.sent[k]); }
    }
  }

  lemma {:induction false} RunKeepsSent(window: nat, s: State, moves: seq<Move>)
    requires SentInv(s)
    ensures SentInv(Run(window, s, moves))
    decreases moves
  {
    hide SentInv, Act;
    if moves != [] {
      ActKeepsSent(window, s, moves[0]);
      RunKeepsSent(window, Act(window, s, moves[0]), moves[1..]);
    }
  }

  /** For every interleaving of any number of calls and runs: nothing is sent twice, only
      accepted requests are sent, each with the pairs attached to it, and while the worker
      is there what was sent is exactly what was accepted and is owed no more. */
  lemma SentOnce(window: nat, n: nat, moves: seq<Move>)
    ensures var s := Run(window, Initial(n), moves);
            (forall k, l :: 0 <= k < l < |s.sent| ==> s.sent[k].id != s.sent[l].id)
            && (forall k :: 0 <= k < |s.sent| ==> SentFor(s, s.sent[k]))
            && (s.open ==> forall i :: 0 <= i < |s.requests| ==>
                  (WasSent(s.sent, i) <==> s.requests[i].Accepted? && !s.requests[i].owed))
  {
    hide Run;
    RunKeepsSent(window, Initial(n), moves);
    var s := Run(window, Initial(n), moves);
    forall i | 0 <= i < |s.requests| && WasSent(s.sent, i) ensures s.requests[i].Accepted? && !s.requests[i].owed {
      var k :| 0 <= k < |s.sent| && s.sent[k].id == i;
      assert SentFor(s, s.sent[k]);
    }
  }

  predicate AllEnded(s: State) {
    forall i :: 0 <= i < |s.requests| ==> !Owed(s, i)
  }

  /** Once every run was awaited or dropped, exactly the accepted requests were sent: no
      fewer and no more than the gate's log has. */
  lemma AcceptedIsSent(window: nat, n: nat, moves: seq<Move>)
    requires var s := Run(window, Initial(n), moves); s.open && AllEnded(s)
    ensures var s := Run(window, Initial(n), moves);
            (forall i :: 0 <= i < |s.requests| ==> (WasSent(s.sent, i) <==> s.requests[i].Accepted?))
            && (forall id: DumpId :: WasSent(s.sent, id) <==> InLog(s.log, id)) && |s.sent| == |s.log|
  {
    hide Run, Spaced, FoldsKnown;
    SentOnce(window, n, moves);
    StartInv(window, n);
    RunKeepsInv(window, Initial(n), moves);
    var s := Run(window, Initial(n), moves);
    assert forall i :: 0 <= i < |s.requests| ==> !Owed(s, i);
    forall id: DumpId ensures WasSent(s.sent, id) <==> InLog(s.log, id) {
      if InLog(s.log, id) {
        var k :| 0 <= k < |s.log| && s.log[k].into == id;
        assert AcceptedAt(s.requests[s.log[k].into], s.log[k].at);
        assert !Owed(s, id);
      }
      if WasSent(s.sent, id) {
        var k :| 0 <= k < |s.sent| && s.sent[k].id == id;
        assert SentFor(s, s.sent[k]);
        assert InLog(s.log, id);
      }
    }
    SameCount(s.sent, s.log);
  }

  /** Two duplicate-free lists of the same ids have the same length. */
  lemma SameCount(sent: seq<DumpRequest>, log: seq<Last>)
    requires forall k, l :: 0 <= k < l < |sent| ==> sent[k].id != sent[l].id
    requires forall k, l :: 0 <= k < l < |log| ==> log[k].into != log[l].into
    requires forall id: DumpId :: WasSent(sent, id) <==> InLog(log, id)
    ensures |sent| == |log|
  {
    var a := seq(|sent|, i requires 0 <= i < |sent| => sent[i].id);
    var b := seq(|log|, i requires 0 <= i < |log| => log[i].into);
    DistinctCount(a);
    DistinctCount(b);
    assert Ids(a) == Ids(b) by {
      forall id: DumpId ensures id in a <==> id in b {
        if id in a {
          var k :| 0 <= k < |a| && a[k] == id;
          assert sent[k].id == id;
          assert WasSent(sent, id);
          var l :| 0 <= l < |log| && log[l].into == id;
          assert b[l] == id;
        }
        if id in b {
          var k :| 0 <= k < |b| && b[k] == id;
          assert log[k].into == id;
          assert InLog(log, id);
          var l :| 0 <= l < |sent| && sent[l].id == id;
          assert a[l] == id;
        }
      }
    }
  }

  function Ids(xs: seq<nat>): set<nat> {
    set x | x in xs
  }

  lemma {:induction false} DistinctCount(xs: seq<nat>)
    requires forall k, l :: 0 <= k < l < |xs| ==> xs[k] != xs[l]
    ensures |Ids(xs)| == |xs|
  {
    if xs != [] {
      DistinctCount(xs[1..]);
      assert xs == [xs[0]] + xs[1..];
      assert Ids(xs) == {xs[0]} + Ids(xs[1..]);
      assert forall k :: 0 < k < |xs| ==> xs[k] == xs[1..][k - 1];
      assert xs[0] !in xs[1..];
    }
  }
}

/** The run that `request` returns: it sends its request when awaited or when dropped,
    whichever comes first. */
module DumpRuns {
  import opened Bytes
  import opened Debounce

  /** What awaiting gives: the receipt is still to come, the worker is gone, or the error
      of a request that was folded into another. */
  datatype Future = Waiting(id: DumpId) | Stopped | Preempted(into: DumpId)

  /** The unbounded channel to the worker. */
  class Channel {
    var open: bool
    var sent: seq<DumpRequest>

    constructor ()
      ensures open && sent == []
    {
      open, sent := true, [];
    }

    /** The receiving end is gone. */
    method Close()
      modifies this
      ensures !open && sent == old(sent)
    {
      open := false;
    }

    method Send(r: DumpRequest) returns (ok: bool)
      modifies this
      ensures open == old(open) && ok == open
      ensures sent == if open then old(sent) + [r] else old(sent)
    {
      if open { sent := sent + [r]; }
      ok := open;
    }
  }

  class DumpRun {
    var request: Option<DumpRequest>
    var receipt: Option<DumpId>
    var preempt: Option<DumpId>
    const tx: Channel

    /** What this run still owes to the channel. */
    function Owed(): seq<DumpRequest>
      reads this
    {
      if request.Some? then [request.value] else []
    }

    predicate Valid()
      reads this
    {
      (request.Some? ==> receipt == Some(request.value.id)) && (preempt.Some? ==> request.None? && receipt.None?)
    }

    /** An accepted request. */
    constructor (tx: Channel, id: DumpId)
      ensures Valid() && this.tx == tx && Owed() == [DumpRequest(id, [])] && preempt == None
    {
      this.tx := tx;
      request, receipt, preempt := Some(DumpRequest(id, [])), Some(id), None;
    }

    constructor Folded(tx: Channel, into: DumpId)
      ensures Valid() && this.tx == tx && Owed() == [] && preempt == Some(into)
    {
      this.tx := tx;
      request, receipt, preempt := None, None, Some(into);
    }

    method WithMetadata(key: string, value: string)
      requires Valid()
      modifies this
      ensures Valid() && preempt == old(preempt) && receipt == old(receipt)
      ensures old(request).None? ==> request.None?
      ensures old(request).Some? ==>
                request == Some(old(request).value.(metadata := old(request).value.metadata + [(key, value)]))
    {
      if request.Some? {
        request := Some(request.value.(metadata := request.value.metadata + [(key, value)]));
      }
    }

    /** Sends the request, once; false when the worker is gone. */
    method Dispatch() returns (ok: bool)
      requires Valid()
      modifies this`request, tx
      ensures Valid() && Owed() == [] && tx.open == old(tx.open)
      ensures tx.sent == if tx.open then old(tx.sent) + old(Owed()) else old(tx.sent)
      ensures ok == (tx.open || old(request).None?)
    {
      ok := true;
      if request.Some? {
        var req := request.value;
        request := None;
        ok := tx.Send(req);
      }
    }

    method Drop()
      requires Valid()
      modifies this`request, tx
      ensures Valid() && Owed() == [] && tx.open == old(tx.open)
      ensures tx.sent == if tx.open then old(tx.sent) + old(Owed()) else old(tx.sent)
    {
      var _ := Dispatch();
    }

    /** Awaiting. The run is dropped on the way out, when it owes nothing any more. */
    method IntoFuture() returns (f: Future)
      requires Valid()
      modifies this, tx
      ensures Valid() && Owed() == [] && tx.open == old(tx.open)
      ensures tx.sent == if tx.open then old(tx.sent) + old(Owed()) else old(tx.sent)
      ensures old(preempt).Some? ==> f == Preempted(old(preempt).value) && tx.sent == old(tx.sent)
      ensures old(request).Some? ==> f == if tx.open then Waiting(old(request).value.id) else Stopped
    {
      if preempt.Some? {
        f := Preempted(preempt.value);
        preempt := None;
      } else {
        var sent := Dispatch();
        if sent && receipt.Some? { f := Waiting(receipt.value); } else { f := Stopped; }
        receipt := None;
      }
      Drop();
    }
  }

  /** What the gate looks at: the last accepted request, and this one, which has read the
      clock. */
  function Gate(id: DumpId, now: Instant, last: Option<Last>): State {
    State(now, last, seq(id, _ => Fresh) + [ClockRead(now)], [], true, [])
  }

  /** The sending half; every clone shares the gate's window and its `last`. */
  class DumpTrigger {
    const tx: Channel
    const window: Option<nat>
    var last: Option<Last>

    constructor (tx: Channel, window: Option<nat>)
      ensures this.tx == tx && this.window == window && last == None
    {
      this.tx, this.window := tx, window;
      last := None;
    }

    /** `request`, with the clock reading taken before the lock: folds or accepts as the
        gate's state machine does, and sends nothing yet. */
    method Request(id: DumpId, now: Instant) returns (run: DumpRun)
      modifies this
      ensures fresh(run) && run.Valid() && run.tx == tx
      ensures window.None? ==> run.Owed() == [DumpRequest(id, [])] && last == old(last)
      ensures window.Some? ==>
        var after := Act(window.value, Gate(id, now, old(last)), Decide(id));
        last == after.last
        && match after.requests[id]
           case Accepted(_, _, _) => run.Owed() == [DumpRequest(id, [])] && run.preempt == None
           case Coalesced(into) => run.Owed() == [] && run.preempt == Some(into)
           case _ => false
    {
      if window.Some? {
        if last.Some? && Since(now, last.value.at) < window.value {
          run := new DumpRun.Folded(tx, last.value.into);
          return;
        }
        last := Some(Last(now, id));
      }
      run := new DumpRun(tx, id);
    }
  }

  /** An accepted run, whatever is attached to it, is sent exactly once, with all its
      metadata, whether it is awaited or dropped; a folded run is never sent. The gate
      decides which it is. */
  method WholeLife(trigger: DumpTrigger, id: DumpId, now: Instant, pairs: Pairs, awaited: bool)
    requires trigger.tx.open
    modifies trigger, trigger.tx
    ensures trigger.tx.open
    ensures var folds := trigger.window.Some? && Folds(old(trigger.last), now, trigger.window.value);
            trigger.tx.sent == old(trigger.tx.sent) + (if folds then [] else [DumpRequest(id, pairs)])
            && trigger.last == if folds || trigger.window.None? then old(trigger.last) else Some(Last(now, id))
  {
    var run := trigger.Request(id, now);
    var tx := trigger.tx;
    ghost var owed, last := run.Owed() != [], trigger.last;
    for i := 0 to |pairs|
      invariant fresh(run) && run.tx == tx && run.Valid() && unchanged(tx) && trigger.last == last
      invariant run.Owed() == if owed then [DumpRequest(id, pairs[..i])] else []
    {
      run.WithMetadata(pairs[i].0, pairs[i].1);
      assert pairs[..i + 1] == pairs[..i] + [pairs[i]];
    }
    assert pairs[..|pairs|] == pairs;
    if awaited { var _ := run.IntoFuture(); } else { run.Drop(); }
  }

  // ----- the objects carry out the protocol

  /** A run object stands where the protocol says. */
  predicate Stands(r: Request, run: DumpRun, id: DumpId)
    reads run
  {
    run.Valid()
    && match r
       case Accepted(_, owed, pairs) => run.Owed() == if owed then [DumpRequest(id, pairs)] else []
       case Coalesced(_) => run.Owed() == []
       case _ => false
  }

  /** The runs at hand are those of the decided requests, each an object of its own. */
  ghost predicate RunsStand(requests: seq<Request>, runs: map<nat, DumpRun>, tx: Channel)
    reads runs.Values
  {
    (forall i :: i in runs <==> 0 <= i < |requests| && (requests[i].Accepted? || requests[i].Coalesced?))
    && (forall i :: i in runs ==> runs[i].tx == tx && Stands(requests[i], runs[i], i))
    && (forall i, j :: i in runs && j in runs && i != j ==> runs[i] != runs[j])
  }

  ghost predicate ReadsStand(requests: seq<Request>, read: map<nat, Instant>) {
    (forall i :: i in read <==> 0 <= i < |requests| && !requests[i].Fresh?)
    && (forall i :: i in read && requests[i].ClockRead? ==> requests[i].now == read[i])
  }

  /** The decision depends on the last accepted request and the clock reading alone. */
  lemma GateDecides(window: nat, s: State, i: nat, now: Instant)
    requires i < |s.requests| && s.requests[i] == ClockRead(now)
    ensures var one, all := Act(window, Gate(i, now, s.last), Decide(i)), Act(window, s, Decide(i));
            all.last == one.last && all.requests == s.requests[i := one.requests[i]]
  {
    assert Gate(i, now, s.last).requests[i] == ClockRead(now);
  }

  /** The call that decides. */
  method DecideOn(trigger: DumpTrigger, i: nat, now: Instant, ghost w: nat, ghost s: State) returns (run: DumpRun)
    requires w == (if trigger.window.Some? then trigger.window.value else 0)
    requires i < |s.requests| && s.requests[i] == ClockRead(now) && (trigger.window.Some? ==> trigger.last == s.last)
    modifies trigger
    ensures fresh(run) && run.tx == trigger.tx
    ensures var t := Act(w, s, Decide(i));
            (trigger.window.Some? ==> trigger.last == t.last) && |t.requests| == |s.requests|
            && Stands(t.requests[i], run, i)
            && t == s.(requests := s.requests[i := t.requests[i]], last := t.last, log := t.log)
            && (t.requests[i].Accepted? || t.requests[i].Coalesced?)
  {
    GateDecides(w, s, i, now);
    run := trigger.Request(i, now);
  }

  lemma OneMoreRun(requests: seq<Request>, runs: map<nat, DumpRun>, tx: Channel, i: nat, r: Request, run: DumpRun)
    requires RunsStand(requests, runs, tx) && i < |requests| && i !in runs && run !in runs.Values && run.tx == tx
    requires Stands(r, run, i)
    ensures RunsStand(requests[i := r], runs[i := run], tx)
  {
    hide Stands;
    assert Stands(r, run, i) ==> r.Accepted? || r.Coalesced? by { StandingIsDecided(r, run, i); }
  }

  lemma StandingIsDecided(r: Request, run: DumpRun, i: nat)
    ensures Stands(r, run, i) ==> r.Accepted? || r.Coalesced?
  {
  }

  /** The end of a run. */
  method EndOn(runs: map<nat, DumpRun>, tx: Channel, i: nat, awaited: bool, ghost w: nat, ghost s: State)
    requires i in runs && RunsStand(s.requests, runs, tx) && tx.sent == s.sent && tx.open == s.open
    modifies runs[i], tx
    ensures var t := Act(w, s, End(i, awaited));
            |t.requests| == |s.requests| && RunsStand(t.requests, runs, tx) && tx.sent == t.sent && tx.open == t.open
            && t == s.(requests := t.requests, sent := t.sent)
            && forall j :: 0 <= j < |s.requests| && !s.requests[j].Accepted? ==> t.requests[j] == s.requests[j]
  {
    if awaited { var _ := runs[i].IntoFuture(); } else { runs[i].Drop(); }
    ghost var t := Act(w, s, End(i, awaited));
    assert forall j :: j in runs && j != i ==> t.requests[j] == s.requests[j] && Stands(s.requests[j], runs[j], j);
  }

  method AttachOn(runs: map<nat, DumpRun>, tx: Channel, i: nat, pair: (string, string), ghost w: nat, ghost s: State)
    requires i in runs && RunsStand(s.requests, runs, tx)
    modifies runs[i]
    ensures var t := Act(w, s, Attach(i, pair));
            |t.requests| == |s.requests| && RunsStand(t.requests, runs, tx) && t == s.(requests := t.requests)
            && forall j :: 0 <= j < |s.requests| && !s.requests[j].Accepted? ==> t.requests[j] == s.requests[j]
  {
    runs[i].WithMetadata(pair.0, pair.1);
    ghost var t := Act(w, s, Attach(i, pair));
    assert forall j :: j in runs && j != i ==> t.requests[j] == s.requests[j] && Stands(s.requests[j], runs[j], j);
  }

  /** A move that concerns nobody. */
  lemma NoMove(w: nat, s: State, m: Move, read: map<nat, Instant>, runs: map<nat, DumpRun>)
    requires forall i :: i in read <==> 0 <= i < |s.requests| && !s.requests[i].Fresh?
    requires forall i :: i in runs <==> 0 <= i < |s.requests| && (s.requests[i].Accepted? || s.requests[i].Coalesced?)
    requires match m
             case Read(i) => i >= |s.requests| || i in read
             case Decide(i) => i !in read || i in runs
             case Attach(i, _) => i !in runs
             case End(i, _) => i !in runs
             case _ => false
    ensures Act(w, s, m) == s
  {
  }

  /** Moves that concern no run. */
  lemma SmallMoves(w: nat, s: State, m: Move)
    ensures m.Tick? ==> Act(w, s, m) == s.(clock := s.clock + m.delay)
    ensures m.Read? && m.id < |s.requests| && s.requests[m.id].Fresh? ==>
              Act(w, s, m) == s.(requests := s.requests[m.id := ClockRead(s.clock)])
    ensures m.Close? ==> Act(w, s, m) == s.(open := false)
  {
  }

  lemma SameCalls(w: nat, s: State, m: Move)
    ensures |Act(w, s, m).requests| == |s.requests|
  {
  }

  lemma RunOn(w: nat, s: State, moves: seq<Move>)
    requires moves != []
    ensures Run(w, s, moves) == Run(w, Act(w, s, moves[0]), moves[1..])
  {
    hide Act;
  }

  function WindowOf(window: Option<nat>): nat {
    if window.Some? then window.value else 0
  }

  /** The objects and the callers' clock readings are where the protocol is. */
  ghost predicate Agrees(s: State, tx: Channel, trigger: DumpTrigger, runs: map<nat, DumpRun>, read: map<nat, Instant>,
                         clock: Instant)
    reads tx, trigger, runs.Values
  {
    tx.sent == s.sent && tx.open == s.open && clock == s.clock && trigger.tx == tx
    && (trigger.window.Some? ==> trigger.last == s.last)
    && ReadsStand(s.requests, read) && RunsStand(s.requests, runs, tx)
  }

  /** A move that takes the lock. */
  method DecideMove(i: nat, tx: Channel, trigger: DumpTrigger, runs: map<nat, DumpRun>, read: map<nat, Instant>,
                    clock: Instant,
                    ghost s: State) returns (runs': map<nat, DumpRun>)
    requires Agrees(s, tx, trigger, runs, read, clock)
    modifies trigger
    ensures Agrees(Act(WindowOf(trigger.window), s, Decide(i)), tx, trigger, runs', read, clock)
    ensures forall j :: j in runs' ==> (j in runs && runs'[j] == runs[j]) || fresh(runs'[j])
  {
    hide Stands, Act, RunsStand;
    ghost var w := WindowOf(trigger.window);
    RunsAre(s.requests, runs, tx);
    runs' := runs;
    if i in read && i !in runs {
      var run := DecideOn(trigger, i, read[i], w, s);
      OneMoreRun(s.requests, runs, tx, i, Act(w, s, Decide(i)).requests[i], run);
      runs' := runs[i := run];
    } else {
      NoMove(w, s, Decide(i), read, runs);
    }
  }

  /** A move on a run at hand. */
  method RunMove(m: Move, tx: Channel, trigger: DumpTrigger, runs: map<nat, DumpRun>, read: map<nat, Instant>,
                 clock: Instant,
                 ghost s: State)
    requires Agrees(s, tx, trigger, runs, read, clock) && (m.Attach? || m.End?)
    modifies tx, runs.Values
    ensures Agrees(Act(WindowOf(trigger.window), s, m), tx, trigger, runs, read, clock)
  {
    hide Stands, Act, RunsStand;
    ghost var w := WindowOf(trigger.window);
    RunsAre(s.requests, runs, tx);
    if m.id !in runs {
      NoMove(w, s, m, read, runs);
    } else if m.Attach? {
      AttachOn(runs, tx, m.id, m.pair, w, s);
    } else {
      EndOn(runs, tx, m.id, m.awaited, w, s);
    }
  }

  /** Any move. */
  method Carry(m: Move, tx: Channel, trigger: DumpTrigger, runs: map<nat, DumpRun>, read: map<nat, Instant>,
               clock: Instant,
               n: nat, ghost s: State) returns (runs': map<nat, DumpRun>, read': map<nat, Instant>, clock': Instant)
    requires Agrees(s, tx, trigger, runs, read, clock) && |s.requests| == n
    modifies tx, trigger, runs.Values
    ensures Agrees(Act(WindowOf(trigger.window), s, m), tx, trigger, runs', read', clock')
    ensures |Act(WindowOf(trigger.window), s, m).requests| == n
    ensures forall i :: i in runs' ==> (i in runs && runs'[i] == runs[i]) || fresh(runs'[i])
  {
    hide Stands, Act, RunsStand;
    ghost var w := WindowOf(trigger.window);
    runs', read', clock' := runs, read, clock;
    SmallMoves(w, s, m);
    SameCalls(w, s, m);
    match m {
      case Tick(d) => clock' := clock + d;
      case Read(i) =>
        RunsAre(s.requests, runs, tx);
        if i in read || i >= n { NoMove(w, s, m, read, runs); }
        else { ReadKeepsRuns(s.requests, runs, tx, i, clock); read' := read[i := clock]; }
      case Close => tx.Close();
      case Decide(i) => runs' := DecideMove(i, tx, trigger, runs, read, clock, s);
      case _ => RunMove(m, tx, trigger, runs, read, clock, s);
    }
  }

  /** Any schedule carried out on a shared trigger, its runs and the channel: what the
      objects send is what the protocol sends. */
  method Schedule(window: Option<nat>, n: nat, moves: seq<Move>) returns (tx: Channel)
    ensures var s := Run(WindowOf(window), Initial(n), moves); tx.sent == s.sent && tx.open == s.open
  {
    hide Run, Act, RunsStand, ReadsStand;
    tx := new Channel();
    var trigger := new DumpTrigger(tx, window);
    var runs: map<nat, DumpRun>, read: map<nat, Instant>, clock := map[], map[], 0;
    ghost var w := WindowOf(window);
    ghost var s := Initial(n);
    NoRuns(s.requests, tx);
    assert moves[0..] == moves;
    for k := 0 to |moves|
      invariant fresh(tx) && fresh(trigger) && trigger.window == window
      invariant forall i :: i in runs ==> fresh(runs[i])
      invariant Agrees(s, tx, trigger, runs, read, clock) && |s.requests| == n
      invariant Run(w, s, moves[k..]) == Run(w, Initial(n), moves)
    {
      assert moves[k..][1..] == moves[k + 1..];
      RunOn(w, s, moves[k..]);
      runs, read, clock := Carry(moves[k], tx, trigger, runs, read, clock, n, s);
      s := Act(w, s, moves[k]);
    }
    assert moves[|moves|..] == [];
    NoMoves(w, s);
  }

  lemma RunsAre(requests: seq<Request>, runs: map<nat, DumpRun>, tx: Channel)
    requires RunsStand(requests, runs, tx)
    ensures forall i :: i in runs <==> 0 <= i < |requests| && (requests[i].Accepted? || requests[i].Coalesced?)
  {
    hide Stands;
  }

  lemma ReadKeepsRuns(requests: seq<Request>, runs: map<nat, DumpRun>, tx: Channel, i: nat, now: Instant)
    requires RunsStand(requests, runs, tx) && i < |requests| && requests[i].Fresh?
    ensures RunsStand(requests[i := ClockRead(now)], runs, tx)
  {
    hide Stands;
  }

  lemma NoRuns(requests: seq<Request>, tx: Channel)
    requires forall i :: 0 <= i < |requests| ==> requests[i].Fresh?
    ensures RunsStand(requests, map[], tx) && ReadsStand(requests, map[])
  {
  }

  lemma NoMoves(w: nat, s: State)
    ensures Run(w, s, []) == s
  {
  }
}
