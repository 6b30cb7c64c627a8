/** The single-flight callback slots of ui/src/WhistleblowerBackend.cpp, with their safety timers. Timers are never
    cancelled, so a timer of an earlier call can still be armed during a later one; and an event names no call, so the
    result of an earlier call can arrive during a later one. Times are in milliseconds. */
module Backend {
  import opened Basics
  import opened Text

  datatype Call = Call(id: nat, at: nat)

  datatype Timer = Timer(deadline: nat, owner: nat)

  /** Why a callback ran: the call was refused at once, a safety timer went off, or an event came. `op` is the call whose
      remote operation finished, if it was one made here. */
  datatype Cause = Refused | TimedOut | Finished(op: Option<nat>)

  /** One invocation of a callback: which call's, when, with what argument (empty for failure), and why. */
  datatype Firing = Firing(id: nat, at: nat, arg: Str, cause: Cause)

  /** `calls[id]` is when call `id` was made. `accepted` are the calls that occupied the slot, `rung` those whose timer has
      gone off, `outstanding` those whose remote operation has not finished. */
  datatype Slot = Slot(
    limit: nat,
    now: nat,
    pending: Option<Call>,
    timers: seq<Timer>,
    calls: seq<nat>,
    accepted: set<nat>,
    rung: set<nat>,
    outstanding: set<nat>,
    fired: seq<Firing>)

  datatype Event =
    | Invoke(available: bool)                // uploadToStorage or broadcastEnvelope
    | Complete(op: Option<nat>, arg: Str)    // storageUploadDone, messageSent or messageError
    | TimerFires(i: nat)                     // QTimer::singleShot
    | Advance(ms: nat)                       // time passes; never past the deadline of an armed timer

  const UPLOAD_LIMIT := 60_000
  const BROADCAST_LIMIT := 30_000

  function Empty(limit: nat, now: nat): (s: Slot) {
    Slot(limit, now, None, [], [], {}, {}, {}, [])
  }

  /** Clear the slot first, then call. */
  function Fire(s: Slot, arg: Str, cause: Cause): (r: Slot) {
    if s.pending.None? then s
    else s.(pending := None, fired := s.fired + [Firing(s.pending.value.id, s.now, arg, cause)])
  }

  /** An operation made here finishes at most once; events of others (`op` None) can come at any time. */
  function CompleteStep(s: Slot, op: Option<nat>, arg: Str): (r: Slot) {
    if op.None? then Fire(s, arg, Finished(op))
    else if op.value !in s.outstanding then s
    else Fire(s.(outstanding := s.outstanding - {op.value}), arg, Finished(op))
  }

  function Next(s: Slot, e: Event): (r: Slot) {
    match e
    case Invoke(available) => InvokeStep(s, available)
    case Complete(op, arg) => CompleteStep(s, op, arg)
    case TimerFires(i) => if i < |s.timers| && s.timers[i].deadline <= s.now then TimerStep(s, i) else s
    case Advance(ms) =>
      if forall i :: 0 <= i < |s.timers| ==> s.now + ms <= s.timers[i].deadline then s.(now := s.now + ms) else s
  }

  function InvokeStep(s: Slot, available: bool): (r: Slot) {
    var id := |s.calls|;
    var t := s.(calls := s.calls + [s.now]);
    if !available || s.pending.Some? then t.(fired := s.fired + [Firing(id, s.now, [], Refused)])
    else t.(pending := Some(Call(id, s.now)), timers := s.timers + [Timer(s.now + s.limit, id)],
            accepted := s.accepted + {id}, outstanding := s.outstanding + {id})
  }

  function TimerStep(s: Slot, i: nat): (r: Slot)
    requires i < |s.timers|
  {
    Fire(s.(timers := Without(s.timers, i), rung := s.rung + {s.timers[i].owner}), [], TimedOut)
  }

  function Run(s: Slot, events: seq<Event>): (r: Slot) {
    if events == [] then s else Next(Run(s, events[..|events| - 1]), events[|events| - 1])
  }

  lemma RunSnoc(s: Slot, events: seq<Event>, e: Event)
    ensures Run(s, events + [e]) == Next(Run(s, events), e)
    ensures Run(s, []) == s
  {
    hide Next;
    assert (events + [e])[..|events|] == events;
  }

  // ---- the invariant ----

  /** The armed timers are those of the accepted calls that have not rung, one each, and none is overdue or rang early. */
  ghost predicate TimersOk(s: Slot) {
    && (forall i :: 0 <= i < |s.timers| ==> TimerOk(s, s.timers[i]))
    && (forall i, j :: 0 <= i < j < |s.timers| ==> s.timers[i].owner != s.timers[j].owner)
    && (forall o :: o in s.accepted ==> o < |s.calls|)
    && (forall o :: o in s.rung ==> o in s.accepted && s.calls[o] + s.limit <= s.now)
    && (forall o :: o in s.accepted && o !in s.rung ==> IsArmed(s, o))
  }

  ghost predicate IsArmed(s: Slot, o: nat) {
    o < |s.calls| && Timer(s.calls[o] + s.limit, o) in s.timers
  }

  ghost predicate TimerOk(s: Slot, t: Timer) {
    t.owner < |s.calls| && t.owner in s.accepted && t.owner !in s.rung && t.deadline == s.calls[t.owner] + s.limit && s.now <= t.deadline
  }

  /** An occupied slot belongs to an accepted call whose own timer is still armed. */
  ghost predicate PendingOk(s: Slot) {
    s.pending.Some? ==>
      var c := s.pending.value; c.id < |s.calls| && s.calls[c.id] == c.at && c.id in s.accepted && c.id !in s.rung
  }

  /** Every call is either the pending one or fired, never both, and never fired twice. */
  ghost predicate OncePerCall(s: Slot) {
    && (forall i, j :: 0 <= i < j < |s.fired| ==> s.fired[i].id != s.fired[j].id)
    && (forall i :: 0 <= i < |s.fired| ==> s.fired[i].id < |s.calls|)
    && (s.pending.Some? ==> forall i :: 0 <= i < |s.fired| ==> s.fired[i].id != s.pending.value.id)
    && (forall id: nat :: id < |s.calls| && !(s.pending.Some? && s.pending.value.id == id) ==> HasFired(s, id))
  }

  ghost predicate HasFired(s: Slot, id: nat) {
    exists i: nat :: i < |s.fired| && s.fired[i].id == id
  }

  ghost predicate InTime(s: Slot) {
    && (forall id :: 0 <= id < |s.calls| ==> s.calls[id] <= s.now)
    && (forall i :: 0 <= i < |s.fired| && s.fired[i].id < |s.calls| ==>
          s.calls[s.fired[i].id] <= s.fired[i].at <= s.calls[s.fired[i].id] + s.limit)
  }

  ghost predicate Inv(s: Slot) {
    TimersOk(s) && PendingOk(s) && OncePerCall(s) && InTime(s)
  }

  lemma EmptyInv(limit: nat, now: nat)
    ensures Inv(Empty(limit, now))
  {
  }

  /** Running the pending callback: it is within its limit, because its own timer is not overdue. */
  lemma FireKeepsInv(s: Slot, arg: Str, cause: Cause)
    requires Inv(s)
    ensures Inv(Fire(s, arg, cause))
  {
    if s.pending.Some? {
      PendingInTime(s);
      FireKeepsTimers(s, arg, cause);
      hide TimersOk, PendingOk;
      FiredOnce(s, s.pending.value.id, arg, cause);
    }
  }

  lemma PendingInTime(s: Slot)
    requires TimersOk(s) && PendingOk(s) && s.pending.Some?
    ensures s.now <= s.pending.value.at + s.limit
  {
    var c := s.pending.value;
    assert IsArmed(s, c.id);
    var i :| 0 <= i < |s.timers| && s.timers[i] == Timer(c.at + s.limit, c.id);
    assert TimerOk(s, s.timers[i]);
  }

  lemma FireKeepsTimers(s: Slot, arg: Str, cause: Cause)
    requires TimersOk(s)
    ensures TimersOk(Fire(s, arg, cause)) && PendingOk(Fire(s, arg, cause))
  {
    if s.pending.Some? {
      var t := Fire(s, arg, cause);
      assert forall x :: TimerOk(s, x) ==> TimerOk(t, x);
    }
  }

  /** One more firing, of the call that is pending. */
  lemma FiredOnce(s: Slot, id: nat, arg: Str, cause: Cause)
    requires OncePerCall(s) && s.pending.Some? && s.pending.value.id == id && id < |s.calls|
    ensures OncePerCall(Fire(s, arg, cause))
  {
    var t := Fire(s, arg, cause);
    forall k: nat | k < |t.calls| ensures HasFired(t, k) {
      if k == id {
        assert t.fired[|s.fired|].id == k;
      } else {
        assert HasFired(s, k);
        var i: nat :| i < |s.fired| && s.fired[i].id == k;
        assert t.fired[i].id == k;
      }
    }
  }

  lemma InvokeKeepsTimers(s: Slot, available: bool)
    requires TimersOk(s) && PendingOk(s)
    ensures TimersOk(InvokeStep(s, available)) && PendingOk(InvokeStep(s, available))
  {
    var t := InvokeStep(s, available);
    assert forall x :: TimerOk(s, x) ==> TimerOk(t, x);
    if t.pending != s.pending {
      var mine := Timer(s.now + s.limit, |s.calls|);
      assert |s.calls| !in s.accepted;
      assert forall o :: IsArmed(s, o) ==> IsArmed(t, o);
      assert t.timers[|s.timers|] == mine;
    }
  }

  lemma InvokeKeepsOnce(s: Slot, available: bool)
    requires OncePerCall(s) && InTime(s) && PendingOk(s)
    ensures OncePerCall(InvokeStep(s, available)) && InTime(InvokeStep(s, available))
  {
    var t := InvokeStep(s, available);
    forall id: nat | id < |t.calls| && !(t.pending.Some? && t.pending.value.id == id) ensures HasFired(t, id) {
      if id == |s.calls| {
        assert t.fired[|s.fired|].id == id;
      } else {
        assert HasFired(s, id);
        var i: nat :| i < |s.fired| && s.fired[i].id == id;
        assert t.fired[i].id == id;
      }
    }
  }

  function Without<T>(xs: seq<T>, i: nat): (r: seq<T>)
    requires i < |xs|
    ensures |r| == |xs| - 1 && forall k :: 0 <= k < |r| ==> r[k] == xs[if k < i then k else k + 1]
    ensures forall j :: 0 <= j < |xs| && j != i ==> xs[j] in r
  {
    var r := xs[..i] + xs[i + 1..];
    assert forall j :: 0 <= j < |xs| && j != i ==> xs[j] == r[if j < i then j else j - 1];
    r
  }

  lemma TimerRemoved(s: Slot, i: nat)
    requires TimersOk(s) && i < |s.timers| && s.timers[i].deadline <= s.now
    ensures TimersOk(s.(timers := Without(s.timers, i), rung := s.rung + {s.timers[i].owner}))
  {
    var x := s.timers[i];
    var t := s.(timers := Without(s.timers, i), rung := s.rung + {x.owner});
    assert TimerOk(s, x);
    OthersStillOk(s, i);
    forall o | o in t.accepted && o !in t.rung ensures IsArmed(t, o) {
      assert IsArmed(s, o);
      OthersArmed(s, i, o);
    }
    hide IsArmed, Without;
  }

  lemma OthersArmed(s: Slot, i: nat, o: nat)
    requires i < |s.timers| && IsArmed(s, o) && s.timers[i].owner != o
    ensures IsArmed(s.(timers := Without(s.timers, i), rung := s.rung + {s.timers[i].owner}), o)
  {
    var j :| 0 <= j < |s.timers| && s.timers[j] == Timer(s.calls[o] + s.limit, o);
  }

  lemma OthersStillOk(s: Slot, i: nat)
    requires TimersOk(s) && i < |s.timers|
    ensures var rest, t := Without(s.timers, i), s.(timers := Without(s.timers, i), rung := s.rung + {s.timers[i].owner});
            && (forall k :: 0 <= k < |rest| ==> TimerOk(t, rest[k]))
            && (forall k, l :: 0 <= k < l < |rest| ==> rest[k].owner != rest[l].owner)
  {
    var rest, t := Without(s.timers, i), s.(timers := Without(s.timers, i), rung := s.rung + {s.timers[i].owner});
    forall k | 0 <= k < |rest| ensures TimerOk(t, rest[k]) {
      assert TimerOk(s, s.timers[if k < i then k else k + 1]);
    }
  }

  /** A timer goes off: it is the pending call's own one only when that call is at its limit. */
  lemma TimerKeepsInv(s: Slot, i: nat)
    requires Inv(s)
    ensures Inv(Next(s, TimerFires(i)))
  {
    if i < |s.timers| && s.timers[i].deadline <= s.now {
      TimerRemoved(s, i);
      var u := s.(timers := Without(s.timers, i), rung := s.rung + {s.timers[i].owner});
      assert TimerOk(s, s.timers[i]);
      FireKeepsTimers(u, [], TimedOut);
      if s.pending.Some? {
        PendingInTime(s);
        hide TimersOk;
        FiredOnce(s, s.pending.value.id, [], TimedOut);
        SameOnce(Fire(s, [], TimedOut), Fire(u, [], TimedOut));
      } else {
        hide TimersOk;
        SameOnce(s, u);
      }
    }
  }

  /** Once-only and in time speak of the calls and firings alone. */
  lemma SameOnce(s: Slot, t: Slot)
    requires OncePerCall(s) && t.calls == s.calls && t.fired == s.fired && t.pending == s.pending
    ensures OncePerCall(t)
  {
    assert forall id :: HasFired(s, id) == HasFired(t, id);
  }

  lemma CompleteKeepsInv(s: Slot, op: Option<nat>, arg: Str)
    requires Inv(s)
    ensures Inv(CompleteStep(s, op, arg))
  {
    if op.Some? && op.value in s.outstanding {
      var u := s.(outstanding := s.outstanding - {op.value});
      assert Inv(u) by {
        assert forall x :: TimerOk(s, x) ==> TimerOk(u, x);
        SameOnce(s, u);
      }
      hide Inv, Fire;
      FireKeepsInv(u, arg, Finished(op));
    } else {
      hide Inv, Fire;
      FireKeepsInv(s, arg, Finished(op));
    }
  }

  lemma AdvanceKeepsInv(s: Slot, ms: nat)
    requires Inv(s)
    ensures Inv(Next(s, Advance(ms)))
  {
    var t := Next(s, Advance(ms));
    SameOnce(s, t);
    assert forall i :: 0 <= i < |s.timers| ==> TimerOk(s, s.timers[i]);
  }

  lemma StepKeepsInv(s: Slot, e: Event)
    requires Inv(s)
    ensures Inv(Next(s, e))
  {
    match e {
      case Invoke(available) =>
        InvokeKeepsTimers(s, available);
        InvokeKeepsOnce(s, available);
      case Complete(op, arg) => CompleteKeepsInv(s, op, arg);
      case TimerFires(i) => TimerKeepsInv(s, i);
      case Advance(ms) => AdvanceKeepsInv(s, ms);
    }
  }

  lemma {:induction false} RunKeepsInv(limit: nat, now: nat, events: seq<Event>)
    ensures Inv(Run(Empty(limit, now), events)) && Run(Empty(limit, now), events).limit == limit
  {
    hide Inv, Next;
    if events == [] {
      EmptyInv(limit, now);
    } else {
      var before, e := Run(Empty(limit, now), events[..|events| - 1]), events[|events| - 1];
      RunKeepsInv(limit, now, events[..|events| - 1]);
      StepKeepsInv(before, e);
      LimitStays(before, e);
    }
  }

  lemma LimitStays(s: Slot, e: Event)
    ensures Next(s, e).limit == s.limit
  {
  }

  /** Over any interleaving of calls, completions, errors and timers: no callback runs twice, each that ran did so
      within the limit of its own call, and one whose limit has passed has run. */
  lemma CallbacksRunOnceInTime(limit: nat, now: nat, events: seq<Event>, id: nat)
    requires id < |Run(Empty(limit, now), events).calls|
    ensures var s := Run(Empty(limit, now), events);
            && (forall i, j :: 0 <= i < |s.fired| && 0 <= j < |s.fired| && s.fired[i].id == id && s.fired[j].id == id ==> i == j)
            && (forall i :: 0 <= i < |s.fired| && s.fired[i].id == id ==> s.calls[id] <= s.fired[i].at <= s.calls[id] + limit)
            && (s.now > s.calls[id] + limit ==> HasFired(s, id))
  {
    hide Run;
    RunKeepsInv(limit, now, events);
    var s := Run(Empty(limit, now), events);
    if s.pending.Some? {
      PendingInTime(s);
    }
  }

  // ---- whose result a callback is told ----

  /** What one step adds to the firings. */
  lemma FiringAdded(s: Slot, e: Event)
    ensures var t := Next(s, e);
            || t.fired == s.fired
            || (exists f :: t.fired == s.fired + [f] && CausedBy(s, e, f))
  {
    var t := Next(s, e);
    if t.fired != s.fired {
      assert t.fired == s.fired + [t.fired[|s.fired|]];
      assert CausedBy(s, e, t.fired[|s.fired|]);
    }
  }

  ghost predicate CausedBy(s: Slot, e: Event, f: Firing) {
    match e
    case Invoke(_) => f.cause == Refused && f.arg == [] && f.id == |s.calls|
    case Complete(op, arg) => f.cause == Finished(op) && f.arg == arg && s.pending.Some? && f.id == s.pending.value.id
                              && (op.Some? ==> op.value in s.outstanding)
    case TimerFires(i) => f.cause == TimedOut && f.arg == [] && s.pending.Some? && f.id == s.pending.value.id
                          && i < |s.timers| && s.timers[i].deadline <= s.now && f.at == s.now
    case Advance(_) => false
  }

  /** A callback that is told success is told exactly what a completion event of the run carried. */
  lemma {:induction false} SuccessComesFromEvents(s: Slot, events: seq<Event>, f: Firing)
    requires f in Run(s, events).fired && f !in s.fired && f.arg != []
    ensures f.cause.Finished? && Complete(f.cause.op, f.arg) in events
  {
    if events == [] {
      assert false;
    } else {
      hide Next;
      var prior, e := events[..|events| - 1], events[|events| - 1];
      FiringAdded(Run(s, prior), e);
      if f in Run(s, prior).fired {
        SuccessComesFromEvents(s, prior, f);
      } else {
        assert CausedBy(Run(s, prior), e, f);
        assert e in events;
      }
    }
  }

  /** No event of somebody else's operation. */
  predicate OwnEvents(events: seq<Event>) {
    forall i :: 0 <= i < |events| ==> !(events[i].Complete? && events[i].op.None?)
  }

  ghost predicate NoTimeouts(s: Slot) {
    forall f :: f in s.fired ==> f.cause != TimedOut
  }

  /** Only the pending call's operation is outstanding, and every result so far went to its own call. */
  ghost predicate OwnResults(s: Slot) {
    && (forall o :: o in s.outstanding ==> s.pending.Some? && s.pending.value.id == o)
    && (forall f :: f in s.fired && f.cause.Finished? ==> f.cause.op == Some(f.id))
  }

  lemma OwnStep(s: Slot, e: Event)
    requires OwnResults(s) && NoTimeouts(Next(s, e)) && !(e.Complete? && e.op.None?)
    ensures OwnResults(Next(s, e)) && NoTimeouts(s)
  {
    var t := Next(s, e);
    FiringAdded(s, e);
    assert forall f :: f in s.fired ==> f in t.fired;
  }

  /** In a run without events of others in which no callback was timed out, every callback that was told a result was
      told that of its own operation. */
  lemma {:induction false} WithoutTimeoutsResultsAreOwn(limit: nat, now: nat, events: seq<Event>)
    requires OwnEvents(events) && NoTimeouts(Run(Empty(limit, now), events))
    ensures OwnResults(Run(Empty(limit, now), events))
  {
    if events == [] {
    } else {
      hide Next, OwnResults, NoTimeouts;
      var prior, e := events[..|events| - 1], events[|events| - 1];
      NoTimeoutsBefore(Run(Empty(limit, now), prior), e);
      WithoutTimeoutsResultsAreOwn(limit, now, prior);
      OwnStep(Run(Empty(limit, now), prior), e);
    }
  }

  lemma NoTimeoutsBefore(s: Slot, e: Event)
    requires NoTimeouts(Next(s, e))
    ensures NoTimeouts(s)
  {
    FiringAdded(s, e);
    assert forall f :: f in s.fired ==> f in Next(s, e).fired;
  }

  // ---- what can happen to the pending call ----

  /** The pending call `c` has been told the result of another call's operation. */
  ghost predicate Misattributed(t: Slot, c: Call) {
    exists f :: f in t.fired && f.id == c.id && f.cause.Finished? && f.cause.op.Some? && f.cause.op.value != c.id
  }

  /** While `c` is pending only outstanding operations shrink; once it has fired, its firing stays the only one. */
  ghost predicate AttributionSafe(t: Slot, c: Call) {
    && c.id < |t.calls| && c.id in t.accepted
    && (if t.pending == Some(c) then (forall o :: o in t.outstanding ==> o == c.id) && (forall f :: f in t.fired ==> f.id != c.id)
        else !Misattributed(t, c) && (t.pending.Some? ==> t.pending.value.id != c.id))
  }

  lemma AttributionStep(t: Slot, c: Call, e: Event)
    requires AttributionSafe(t, c) && !(e.Complete? && e.op.None?)
    ensures AttributionSafe(Next(t, e), c)
  {
    FiringAdded(t, e);
  }

  lemma {:induction false} AttributionRun(s: Slot, c: Call, events: seq<Event>)
    requires AttributionSafe(s, c) && OwnEvents(events)
    ensures AttributionSafe(Run(s, events), c)
  {
    hide Next, AttributionSafe;
    if events == [] {
    } else {
      AttributionRun(s, c, events[..|events| - 1]);
      AttributionStep(Run(s, events[..|events| - 1]), c, events[|events| - 1]);
    }
  }

  /** After any run: the pending call can still be told another call's result, by some continuation without events of
      others, if and only if an operation other than its own is outstanding. */
  lemma MisattributedExactly(limit: nat, now: nat, events: seq<Event>)
    requires Run(Empty(limit, now), events).pending.Some?
    ensures var s := Run(Empty(limit, now), events);
            var c := s.pending.value;
            (exists o :: o in s.outstanding && o != c.id)
            <==> (exists more :: OwnEvents(more) && Misattributed(Run(s, more), c))
  {
    hide Run;
    RunKeepsInv(limit, now, events);
    var s := Run(Empty(limit, now), events);
    var c := s.pending.value;
    if o :| o in s.outstanding && o != c.id {
      var e := Complete(Some(o), []);
      RunSnoc(s, [], e);
      var t := Run(s, [e]);
      assert [] + [e] == [e] && OwnEvents([e]);
      assert t.fired[|s.fired|] in t.fired;
      assert Misattributed(t, c);
    } else {
      forall more | OwnEvents(more) ensures !Misattributed(Run(s, more), c) {
        assert AttributionSafe(s, c);
        hide Inv;
        AttributionRun(s, c, more);
      }
    }
  }

  /** The pending call `c` has been ended by a timer before its own limit. */
  ghost predicate EndedEarly(t: Slot, c: Call) {
    exists f :: f in t.fired && f.id == c.id && f.cause == TimedOut && f.at < c.at + t.limit
  }

  ghost predicate TimingSafe(t: Slot, c: Call) {
    && c.id < |t.calls|
    && (if t.pending == Some(c)
        then (forall i :: 0 <= i < |t.timers| ==> t.timers[i].deadline >= c.at + t.limit) && (forall f :: f in t.fired ==> f.id != c.id)
        else !EndedEarly(t, c) && (t.pending.Some? ==> t.pending.value.id != c.id))
  }

  lemma TimingStep(t: Slot, c: Call, e: Event)
    requires TimingSafe(t, c)
    ensures TimingSafe(Next(t, e), c)
  {
    FiringAdded(t, e);
  }

  lemma {:induction false} TimingRun(s: Slot, c: Call, events: seq<Event>)
    requires TimingSafe(s, c)
    ensures TimingSafe(Run(s, events), c)
  {
    hide Next, TimingSafe;
    if events == [] {
    } else {
      TimingRun(s, c, events[..|events| - 1]);
      TimingStep(Run(s, events[..|events| - 1]), c, events[|events| - 1]);
    }
  }

  lemma {:induction false} Earliest(timers: seq<Timer>) returns (k: nat)
    requires timers != []
    ensures k < |timers| && forall i :: 0 <= i < |timers| ==> timers[k].deadline <= timers[i].deadline
  {
    k := 0;
    if |timers| > 1 {
      var rest := Earliest(timers[1..]);
      assert forall i :: 1 <= i < |timers| ==> timers[i] == timers[1..][i - 1];
      if timers[rest + 1].deadline < timers[0].deadline {
        k := rest + 1;
      }
    }
  }

  /** After any run: some continuation, of any events, ends the pending call by a timer before its own limit if and only
      if the timer of an earlier accepted call has not gone off yet. */
  lemma TimedOutEarlyExactly(limit: nat, now: nat, events: seq<Event>)
    requires Run(Empty(limit, now), events).pending.Some?
    ensures var s := Run(Empty(limit, now), events);
            var c := s.pending.value;
            (exists o :: o in s.accepted && o !in s.rung && o < |s.calls| && s.calls[o] < c.at)
            <==> (exists more :: EndedEarly(Run(s, more), c))
  {
    hide Run;
    RunKeepsInv(limit, now, events);
    var s := Run(Empty(limit, now), events);
    var c := s.pending.value;
    if o :| o in s.accepted && o !in s.rung && o < |s.calls| && s.calls[o] < c.at {
      assert IsArmed(s, o);
      var k := Earliest(s.timers);
      assert TimerOk(s, s.timers[k]);
      EarliestRings(s, k);
      var t := Run(s, [Advance(s.timers[k].deadline - s.now), TimerFires(k)]);
      assert Firing(c.id, s.timers[k].deadline, [], TimedOut) in t.fired;
      assert EndedEarly(t, c);
    } else {
      forall more ensures !EndedEarly(Run(s, more), c) {
        assert forall i :: 0 <= i < |s.timers| ==> TimerOk(s, s.timers[i]);
        assert TimingSafe(s, c);
        hide Inv;
        TimingRun(s, c, more);
      }
    }
  }

  /** Time passes up to the earliest deadline, and that timer goes off. */
  lemma EarliestRings(s: Slot, k: nat)
    requires k < |s.timers| && s.now <= s.timers[k].deadline && s.pending.Some?
    requires forall i :: 0 <= i < |s.timers| ==> s.timers[k].deadline <= s.timers[i].deadline
    ensures var t := Run(s, [Advance(s.timers[k].deadline - s.now), TimerFires(k)]);
            t.pending.None? && t.fired == s.fired + [Firing(s.pending.value.id, s.timers[k].deadline, [], TimedOut)] && t.limit == s.limit
  {
    hide Run, Without;
    var ms := s.timers[k].deadline - s.now;
    RunSnoc(s, [], Advance(ms));
    RunSnoc(s, [Advance(ms)], TimerFires(k));
    assert [] + [Advance(ms)] == [Advance(ms)] && [Advance(ms)] + [TimerFires(k)] == [Advance(ms), TimerFires(k)];
    assert Next(s, Advance(ms)) == s.(now := s.timers[k].deadline);
  }

  /** Whether an accepted call's timer has gone off is a matter of time: not before its limit, and not later. */
  lemma RungByTime(limit: nat, now: nat, events: seq<Event>, o: nat)
    requires o in Run(Empty(limit, now), events).accepted
    ensures var s := Run(Empty(limit, now), events);
            && o < |s.calls|
            && (s.now < s.calls[o] + limit ==> o !in s.rung) && (s.now > s.calls[o] + limit ==> o in s.rung)
  {
    hide Run;
    RunKeepsInv(limit, now, events);
    var s := Run(Empty(limit, now), events);
    if o !in s.rung {
      assert IsArmed(s, o);
      var i :| 0 <= i < |s.timers| && s.timers[i] == Timer(s.calls[o] + s.limit, o);
      assert TimerOk(s, s.timers[i]);
    }
  }

  // ---- every call gets its answer ----

  ghost predicate PendingIsOutstanding(s: Slot) {
    s.pending.Some? ==> s.pending.value.id in s.outstanding
  }

  lemma {:induction false} PendingStaysOutstanding(limit: nat, now: nat, events: seq<Event>)
    ensures PendingIsOutstanding(Run(Empty(limit, now), events))
  {
    if events == [] {
    } else {
      hide Without;
      PendingStaysOutstanding(limit, now, events[..|events| - 1]);
    }
  }

  /** After any run: when the pending call's own operation finishes, its callback runs at once with that result, and the
      slot is free. */
  lemma OwnResultIsDelivered(limit: nat, now: nat, events: seq<Event>, arg: Str)
    requires Run(Empty(limit, now), events).pending.Some?
    ensures var s := Run(Empty(limit, now), events);
            var c := s.pending.value;
            var t := Next(s, Complete(Some(c.id), arg));
            t.pending.None? && t.fired == s.fired + [Firing(c.id, s.now, arg, Finished(Some(c.id)))]
  {
    hide Run;
    PendingStaysOutstanding(limit, now, events);
  }

  /** But it does not wait for its own: whatever event comes first, of another call's operation or of somebody else's, ends
      it with what that event carries. With nothing pending an event runs no callback. */
  lemma AnyEventEndsTheCall(s: Slot, op: Option<nat>, arg: Str)
    ensures var t, comes := Next(s, Complete(op, arg)), op.None? || op.value in s.outstanding;
            && t.pending == (if comes then None else s.pending)
            && t.fired == s.fired + (if comes && s.pending.Some? then [Firing(s.pending.value.id, s.now, arg, Finished(op))] else [])
            && t.timers == s.timers && t.calls == s.calls
  {
    assert s.fired + [] == s.fired;
  }

  /** And if no event ever comes, time and its timers alone end it within its limit, with the empty argument. */
  lemma SilenceEndsTheCall(limit: nat, now: nat, events: seq<Event>) returns (ms: nat, k: nat)
    requires Run(Empty(limit, now), events).pending.Some?
    ensures var s := Run(Empty(limit, now), events);
            var c := s.pending.value;
            var t := Run(s, [Advance(ms), TimerFires(k)]);
            && s.now + ms <= c.at + limit
            && t.pending.None? && t.fired == s.fired + [Firing(c.id, s.now + ms, [], TimedOut)]
  {
    hide Run;
    RunKeepsInv(limit, now, events);
    var s := Run(Empty(limit, now), events);
    var c := s.pending.value;
    assert IsArmed(s, c.id);
    k := Earliest(s.timers);
    assert TimerOk(s, s.timers[k]);
    ms := s.timers[k].deadline - s.now;
    EarliestRings(s, k);
  }

  /** A call is accepted, with its timer armed, exactly when the module is there and no other call is pending; otherwise
      its callback runs at once with the empty argument. */
  lemma CallTaken(s: Slot, available: bool)
    ensures var t, id := Next(s, Invoke(available)), |s.calls|;
            && t.calls == s.calls + [s.now]
            && (if available && s.pending.None?
                then && t.pending == Some(Call(id, s.now)) && t.timers == s.timers + [Timer(s.now + s.limit, id)]
                     && t.fired == s.fired && id in t.accepted && id in t.outstanding
                else t.pending == s.pending && t.timers == s.timers && t.fired == s.fired + [Firing(id, s.now, [], Refused)])
  {
  }

  // ---- two runs ----

  /** An upload finishes after 1 s; a second one made at 30 s is reported as timed out at 60 s, half-way to its limit. */
  lemma LeftoverTimerEndsNextUpload(cid: Str)
    ensures var s := Run(Empty(UPLOAD_LIMIT, 0), [Invoke(true)]);
            var t := Run(Run(s, [Advance(1_000), Complete(Some(0), cid)]), [Advance(29_000), Invoke(true)]);
            && t.pending == Some(Call(1, 30_000))
            && Run(t, [Advance(30_000), TimerFires(0)]).fired
               == [Firing(0, 1_000, cid, Finished(Some(0))), Firing(1, 60_000, [], TimedOut)]
  {
    var done := [Firing(0, 1_000, cid, Finished(Some(0)))];
    var s := Slot(UPLOAD_LIMIT, 0, Some(Call(0, 0)), [Timer(60_000, 0)], [0], {0}, {}, {0}, []);
    var c := Slot(UPLOAD_LIMIT, 1_000, None, [Timer(60_000, 0)], [0], {0}, {}, {}, done);
    var t := Slot(UPLOAD_LIMIT, 30_000, Some(Call(1, 30_000)), [Timer(60_000, 0), Timer(90_000, 1)], [0, 30_000], {0, 1}, {}, {1}, done);
    FirstUpload();
    FirstFinishes(s, c, cid);
    SecondUpload(c, t);
    LeftoverRings(t);
  }

  lemma FirstFinishes(s: Slot, c: Slot, cid: Str)
    requires s == Slot(UPLOAD_LIMIT, 0, Some(Call(0, 0)), [Timer(60_000, 0)], [0], {0}, {}, {0}, [])
    requires c == Slot(UPLOAD_LIMIT, 1_000, None, [Timer(60_000, 0)], [0], {0}, {}, {}, [Firing(0, 1_000, cid, Finished(Some(0)))])
    ensures Run(s, [Advance(1_000), Complete(Some(0), cid)]) == c
  {
    hide Run;
    RunTwo(s, Advance(1_000), Complete(Some(0), cid));
    assert Next(s, Advance(1_000)) == s.(now := 1_000);
  }

  lemma SecondUpload(c: Slot, t: Slot)
    requires c == Slot(UPLOAD_LIMIT, 1_000, None, [Timer(60_000, 0)], [0], {0}, {}, {}, t.fired)
    requires t == Slot(UPLOAD_LIMIT, 30_000, Some(Call(1, 30_000)), [Timer(60_000, 0), Timer(90_000, 1)], [0, 30_000], {0, 1}, {}, {1}, t.fired)
    ensures Run(c, [Advance(29_000), Invoke(true)]) == t
  {
    hide Run;
    RunTwo(c, Advance(29_000), Invoke(true));
    assert Next(c, Advance(29_000)) == c.(now := 30_000);
  }

  lemma LeftoverRings(t: Slot)
    requires t == Slot(UPLOAD_LIMIT, 30_000, Some(Call(1, 30_000)), [Timer(60_000, 0), Timer(90_000, 1)], [0, 30_000], {0, 1}, {}, {1}, t.fired)
    ensures Run(t, [Advance(30_000), TimerFires(0)]).fired == t.fired + [Firing(1, 60_000, [], TimedOut)]
  {
    hide Run;
    RunTwo(t, Advance(30_000), TimerFires(0));
    assert Next(t, Advance(30_000)) == t.(now := 60_000);
  }

  lemma FirstUpload()
    ensures Run(Empty(UPLOAD_LIMIT, 0), [Invoke(true)])
         == Slot(UPLOAD_LIMIT, 0, Some(Call(0, 0)), [Timer(60_000, 0)], [0], {0}, {}, {0}, [])
  {
    RunSnoc(Empty(UPLOAD_LIMIT, 0), [], Invoke(true));
    assert [] + [Invoke(true)] == [Invoke(true)];
  }

  lemma RunTwo(s: Slot, a: Event, b: Event)
    ensures Run(s, [a, b]) == Next(Next(s, a), b)
  {
    hide Next;
    RunSnoc(s, [], a);
    RunSnoc(s, [a], b);
    assert [] + [a] == [a] && [a] + [b] == [a, b];
  }

  /** An upload is timed out, a second one is made, and the first one's result is reported as the second one's. */
  lemma LateResultGoesToNextUpload(cid: Str)
    ensures var s := Run(Empty(UPLOAD_LIMIT, 0), [Invoke(true)]);
            Run(Run(s, [Advance(60_000), TimerFires(0)]), [Invoke(true), Complete(Some(0), cid)]).fired
            == [Firing(0, 60_000, [], TimedOut), Firing(1, 60_000, cid, Finished(Some(0)))]
  {
    FirstUpload();
    var s := Slot(UPLOAD_LIMIT, 0, Some(Call(0, 0)), [Timer(60_000, 0)], [0], {0}, {}, {0}, []);
    assert Next(s, Advance(60_000)) == s.(now := 60_000);
    var t := Slot(UPLOAD_LIMIT, 60_000, None, [], [0], {0}, {0}, {0}, [Firing(0, 60_000, [], TimedOut)]);
    assert Next(s.(now := 60_000), TimerFires(0)) == t;
    var u := Slot(UPLOAD_LIMIT, 60_000, Some(Call(1, 60_000)), [Timer(120_000, 1)], [0, 60_000], {0, 1}, {0}, {0, 1}, t.fired);
    assert Next(t, Invoke(true)) == u;
    hide Run;
    RunTwo(s, Advance(60_000), TimerFires(0));
    RunTwo(t, Invoke(true), Complete(Some(0), cid));
  }

  // ---- the mutable slot ----

  class CallbackSlot {
    const limit: nat
    var now: nat
    var pending: Option<Call>
    var timers: seq<Timer>
    var calls: seq<nat>
    var outstanding: set<nat>
    var fired: seq<Firing>
    ghost var accepted: set<nat>
    ghost var rung: set<nat>

    ghost function State(): (s: Slot)
      reads this
    {
      Slot(limit, now, pending, timers, calls, accepted, rung, outstanding, fired)
    }

    constructor (limit: nat, now: nat)
      ensures State() == Empty(limit, now)
    {
      this.limit, this.now := limit, now;
      pending, timers, calls, outstanding, fired := None, [], [], {}, [];
      accepted, rung := {}, {};
    }

    method Begin(available: bool)
      modifies this
      ensures State() == Next(old(State()), Invoke(available))
    {
      var id := |calls|;
      calls := calls + [now];
      if !available || pending.Some? {
        fired := fired + [Firing(id, now, [], Refused)];
        return;
      }
      pending := Some(Call(id, now));
      timers := timers + [Timer(now + limit, id)];
      outstanding := outstanding + {id};
      accepted := accepted + {id};
    }

    /** Clear the slot and run the callback, if there is one. */
    method RunPending(arg: Str, cause: Cause) returns (ran: Option<nat>)
      modifies this
      ensures State() == Fire(old(State()), arg, cause)
      ensures ran == if old(pending).Some? then Some(old(pending).value.id) else None
    {
      ran := None;
      if pending.Some? {
        var cb := pending.value;
        pending := None;
        fired := fired + [Firing(cb.id, now, arg, cause)];
        ran := Some(cb.id);
      }
    }

    method Finish(op: Option<nat>, arg: Str) returns (ran: Option<nat>)
      modifies this
      ensures State() == Next(old(State()), Complete(op, arg))
      ensures ran.Some? <==> |fired| == |old(fired)| + 1
      ensures ran.Some? ==> old(pending).Some? && ran.value == old(pending).value.id
      ensures ran.None? ==> fired == old(fired)
    {
      if op.Some? {
        if op.value !in outstanding {
          return None;
        }
        outstanding := outstanding - {op.value};
      }
      ran := RunPending(arg, Finished(op));
    }

    method Timeout(i: nat)
      modifies this
      ensures State() == Next(old(State()), TimerFires(i))
    {
      if i < |timers| && timers[i].deadline <= now {
        rung := rung + {timers[i].owner};
        timers := Without(timers, i);
        var _ := RunPending([], TimedOut);
      }
    }

    method Wait(ms: nat)
      modifies this
      ensures State() == Next(old(State()), Advance(ms))
    {
      if forall i :: 0 <= i < |timers| ==> now + ms <= timers[i].deadline {
        now := now + ms;
      }
    }

    /** Any schedule of calls, events, timers and time. */
    method RunSchedule(events: seq<Event>)
      modifies this
      ensures State() == Run(old(State()), events)
    {
      hide Next;
      for i := 0 to |events|
        invariant State() == Run(old(State()), events[..i])
      {
        assert events[..i + 1][..i] == events[..i];
        match events[i] {
          case Invoke(available) => Begin(available);
          case Complete(op, arg) =>
            var _ := Finish(op, arg);
          case TimerFires(k) => Timeout(k);
          case Advance(ms) => Wait(ms);
        }
      }
      assert events[..|events|] == events;
    }
  }
}
