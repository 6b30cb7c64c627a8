/** The publish flow of ui/src/WhistleblowerBackend.cpp: the upload slot, whose callback hashes the envelope and goes on
    to the broadcast slot. */
module Desk {
  import opened Basics
  import opened Text
  import opened Registry
  import opened Dedupe
  import opened Backend
  import opened Publisher
  import Base64
  import Batch
  import Hex

  /** One successful upload callback: the call it belonged to, when it ran, the CID it was told, the clock reading put
      into the envelope, and the two texts the hashing entry point gave for it. */
  datatype Report = Report(upload: nat, at: nat, cid: Str, stamp: U64, b64: Bytes, hex: Bytes)

  /** `asked[id]` is what upload call `id` was to be published with; `reports` are in order, and report `k` was handed to
      broadcast call `k`. */
  datatype Desk = Desk(upload: Slot, broadcast: Slot, asked: seq<MetadataInputs>, reports: seq<Report>)

  datatype DeskEvent =
    | Publish(available: bool, inputs: MetadataInputs)
    | UploadDone(op: Option<nat>, cid: Str, stamp: U64, delivery: bool)
    | UploadTimer(i: nat)
    | SendDone(op: Option<nat>, hash: Str)
    | SendTimer(i: nat)
    | Pass(ms: nat)

  function Opened(): (d: Desk) {
    Desk(Empty(UPLOAD_LIMIT, 0), Empty(BROADCAST_LIMIT, 0), [], [])
  }

  /** The publish callback of upload call `id`, run with this CID. */
  function Uploaded(sha: Sha, d: Desk, id: nat, cid: Str, stamp: U64, delivery: bool): (r: Desk) {
    if cid == [] || id >= |d.asked| then d
    else
      match ComputeMetadataHash(sha, cid, d.asked[id].(timestamp_unix := stamp))
      case None => d
      case Some((b64, hex)) =>
        d.(reports := d.reports + [Report(id, d.upload.now, cid, stamp, b64, hex)],
           broadcast := Next(d.broadcast, Invoke(delivery)))
  }

  predicate CanPass(s: Slot, ms: nat) {
    forall i :: 0 <= i < |s.timers| ==> s.now + ms <= s.timers[i].deadline
  }

  function UploadDoneStep(sha: Sha, d: Desk, op: Option<nat>, cid: Str, stamp: U64, delivery: bool): (r: Desk) {
    var u := Next(d.upload, Complete(op, cid));
    if u.fired == d.upload.fired || d.upload.pending.None? then d.(upload := u)
    else Uploaded(sha, d.(upload := u), d.upload.pending.value.id, cid, stamp, delivery)
  }

  function DeskNext(sha: Sha, d: Desk, e: DeskEvent): (r: Desk) {
    match e
    case Publish(available, inputs) => d.(upload := Next(d.upload, Invoke(available)), asked := d.asked + [inputs])
    case UploadDone(op, cid, stamp, delivery) => UploadDoneStep(sha, d, op, cid, stamp, delivery)
    case UploadTimer(i) => d.(upload := Next(d.upload, TimerFires(i)))
    case SendDone(op, hash) => d.(broadcast := Next(d.broadcast, Complete(op, hash)))
    case SendTimer(i) => d.(broadcast := Next(d.broadcast, TimerFires(i)))
    case Pass(ms) =>
      if CanPass(d.upload, ms) && CanPass(d.broadcast, ms)
      then d.(upload := Next(d.upload, Advance(ms)), broadcast := Next(d.broadcast, Advance(ms)))
      else d
  }

  function DeskRun(sha: Sha, d: Desk, events: seq<DeskEvent>): (r: Desk) {
    if events == [] then d else DeskNext(sha, DeskRun(sha, d, events[..|events| - 1]), events[|events| - 1])
  }

  // ---- each slot goes through a run of its own machine ----

  ghost predicate RunsTo(a: Slot, b: Slot) {
    exists events :: Run(a, events) == b
  }

  lemma StepsTo(a: Slot, b: Slot, e: Event)
    requires RunsTo(a, b)
    ensures RunsTo(a, Next(b, e)) && RunsTo(a, b)
  {
    hide Next, Run;
    var events :| Run(a, events) == b;
    RunSnoc(a, events, e);
    assert Run(a, events + [e]) == Next(b, e);
  }

  /** The events that happen to the upload slot, and to the broadcast slot, in one step. */
  lemma DeskSteps(sha: Sha, d: Desk, e: DeskEvent)
    ensures var t := DeskNext(sha, d, e);
            && (t.upload == d.upload || exists x :: t.upload == Next(d.upload, x))
            && (t.broadcast == d.broadcast || exists x :: t.broadcast == Next(d.broadcast, x))
  {
    hide Next, ComputeMetadataHash, CanPass;
    var t := DeskNext(sha, d, e);
    match e {
      case Publish(available, _) => assert t.upload == Next(d.upload, Invoke(available));
      case UploadDone(op, cid, stamp, delivery) =>
        assert t.upload == Next(d.upload, Complete(op, cid));
        assert t.broadcast == d.broadcast || t.broadcast == Next(d.broadcast, Invoke(delivery));
      case UploadTimer(i) => assert t.upload == Next(d.upload, TimerFires(i));
      case SendDone(op, hash) => assert t.broadcast == Next(d.broadcast, Complete(op, hash));
      case SendTimer(i) => assert t.broadcast == Next(d.broadcast, TimerFires(i));
      case Pass(ms) =>
        assert t.upload == d.upload || t.upload == Next(d.upload, Advance(ms));
        assert t.broadcast == d.broadcast || t.broadcast == Next(d.broadcast, Advance(ms));
    }
  }

  /** So everything proved about all runs of one slot holds for both, in every run of the desk. */
  lemma {:induction false} SlotsRun(sha: Sha, events: seq<DeskEvent>)
    ensures var d := DeskRun(sha, Opened(), events);
            RunsTo(Empty(UPLOAD_LIMIT, 0), d.upload) && RunsTo(Empty(BROADCAST_LIMIT, 0), d.broadcast)
  {
    hide DeskNext, RunsTo, Next;
    if events == [] {
      NoSteps(Empty(UPLOAD_LIMIT, 0));
      NoSteps(Empty(BROADCAST_LIMIT, 0));
    } else {
      var d, e := DeskRun(sha, Opened(), events[..|events| - 1]), events[|events| - 1];
      SlotsRun(sha, events[..|events| - 1]);
      DeskSteps(sha, d, e);
      var t := DeskNext(sha, d, e);
      if t.upload != d.upload {
        var x :| t.upload == Next(d.upload, x);
        StepsTo(Empty(UPLOAD_LIMIT, 0), d.upload, x);
      }
      if t.broadcast != d.broadcast {
        var x :| t.broadcast == Next(d.broadcast, x);
        StepsTo(Empty(BROADCAST_LIMIT, 0), d.broadcast, x);
      }
    }
  }

  lemma NoSteps(a: Slot)
    ensures RunsTo(a, a)
  {
    assert Run(a, []) == a;
  }

  // ---- uploads, reports and broadcasts belong together ----

  function InputsAt(d: Desk, r: Report): (i: MetadataInputs)
    requires r.upload < |d.asked|
  {
    d.asked[r.upload].(timestamp_unix := r.stamp)
  }

  /** A report is that of an upload callback that ran with a CID, and its texts were computed from exactly that CID and
      what that call was asked to publish. */
  ghost predicate ReportOk(sha: Sha, d: Desk, r: Report) {
    && r.upload < |d.asked| && r.cid != []
    && (exists f :: f in d.upload.fired && Reports(f, r))
    && ComputeMetadataHash(sha, r.cid, InputsAt(d, r)) == Some((r.b64, r.hex))
  }

  predicate Reports(f: Firing, r: Report) {
    f.id == r.upload && f.at == r.at && f.arg == r.cid && f.cause.Finished?
  }

  ghost predicate Reported(d: Desk, f: Firing) {
    exists r :: r in d.reports && Reports(f, r)
  }

  ghost predicate Joined(sha: Sha, d: Desk) {
    && |d.asked| == |d.upload.calls|
    && |d.broadcast.calls| == |d.reports|
    && d.upload.now == d.broadcast.now
    && (forall k :: 0 <= k < |d.reports| ==> ReportOk(sha, d, d.reports[k]) && d.broadcast.calls[k] == d.reports[k].at)
    && (forall j, k :: 0 <= j < k < |d.reports| ==> d.reports[j].upload != d.reports[k].upload)
    && (forall f :: f in d.upload.fired && f.cause.Finished? && NewCid(f.arg).Some? ==> Reported(d, f))
  }

  /** One slot step: calls and firings only grow, and what a new firing is. */
  lemma SlotGrows(s: Slot, e: Event)
    ensures var t := Next(s, e);
            && t.calls == s.calls + (if e.Invoke? then [s.now] else [])
            && t.now == s.now + (if e.Advance? && CanPass(s, e.ms) then e.ms else 0)
            && (e.Complete? ==>
                  || t.fired == s.fired
                  || (s.pending.Some? && t.fired == s.fired + [Firing(s.pending.value.id, s.now, e.arg, Finished(e.op))]))
            && (!e.Complete? ==> t.fired == s.fired || (exists f :: t.fired == s.fired + [f] && !f.cause.Finished?))
  {
    if !e.Complete? && Next(s, e).fired != s.fired {
      var f := Next(s, e).fired[|s.fired|];
      assert Next(s, e).fired == s.fired + [f] && !f.cause.Finished?;
    }
  }

  /** What a step without a report keeps. */
  lemma KeepsJoined(sha: Sha, d: Desk, t: Desk, more: seq<Firing>)
    requires Joined(sha, d)
    requires t.reports == d.reports && t.broadcast.calls == d.broadcast.calls && t.upload.fired == d.upload.fired + more
    requires |t.asked| == |t.upload.calls| && |t.asked| >= |d.asked| && t.asked[..|d.asked|] == d.asked && t.upload.now == t.broadcast.now
    requires forall f :: f in more && f.cause.Finished? ==> NewCid(f.arg).None?
    ensures Joined(sha, t)
  {
    hide ComputeMetadataHash, NewCid, Reports;
    forall k | 0 <= k < |t.reports| ensures ReportOk(sha, t, t.reports[k]) {
      assert ReportOk(sha, d, d.reports[k]);
      var f :| f in d.upload.fired && Reports(f, d.reports[k]);
      assert f in t.upload.fired;
      assert InputsAt(t, t.reports[k]) == InputsAt(d, d.reports[k]);
    }
    forall f | f in t.upload.fired && f.cause.Finished? && NewCid(f.arg).Some? ensures Reported(t, f) {
      assert f in d.upload.fired;
      assert Reported(d, f);
    }
  }

  /** `t` is `d` with one more firing of the upload slot, reported and handed to the broadcast slot. */
  ghost predicate Adds(sha: Sha, d: Desk, t: Desk, f: Firing, r: Report) {
    && Reports(f, r) && r.upload < |d.asked| && r.cid != []
    && ComputeMetadataHash(sha, r.cid, InputsAt(d, r)) == Some((r.b64, r.hex))
    && t.upload.fired == d.upload.fired + [f] && t.asked == d.asked && t.reports == d.reports + [r]
  }

  lemma ReportStillOk(sha: Sha, d: Desk, t: Desk, f: Firing, r: Report, q: Report)
    requires Adds(sha, d, t, f, r) && (q == r || ReportOk(sha, d, q))
    ensures ReportOk(sha, t, q)
  {
    hide ComputeMetadataHash, Reports;
    if q == r {
      assert f in t.upload.fired && InputsAt(t, r) == InputsAt(d, r);
    } else {
      var g :| g in d.upload.fired && Reports(g, q);
      assert g in t.upload.fired && InputsAt(t, q) == InputsAt(d, q);
    }
  }

  lemma OldReportIsOther(sha: Sha, d: Desk, f: Firing, q: Report)
    requires ReportOk(sha, d, q) && forall g :: g in d.upload.fired ==> g.id != f.id
    ensures q.upload != f.id
  {
    hide ComputeMetadataHash;
  }

  lemma FiringStillReported(d: Desk, t: Desk, f: Firing, r: Report, g: Firing)
    requires t.reports == d.reports + [r] && Reports(f, r) && (g == f || Reported(d, g))
    ensures Reported(t, g)
  {
    hide Reports;
    if g == f {
      assert r in t.reports;
    } else {
      var q :| q in d.reports && Reports(g, q);
      assert q in t.reports;
    }
  }

  lemma AddsReport(sha: Sha, d: Desk, t: Desk, f: Firing, r: Report)
    requires Joined(sha, d) && Adds(sha, d, t, f, r)
    requires forall g :: g in d.upload.fired ==> g.id != f.id
    requires t.upload.calls == d.upload.calls && t.broadcast.calls == d.broadcast.calls + [r.at] && t.upload.now == t.broadcast.now
    ensures Joined(sha, t)
  {
    hide ReportOk, Reported, NewCid, ComputeMetadataHash;
    forall k | 0 <= k < |t.reports|
      ensures ReportOk(sha, t, t.reports[k])
      ensures k < |d.reports| ==> t.reports[k].upload != r.upload
    {
      ReportStillOk(sha, d, t, f, r, t.reports[k]);
      if k < |d.reports| {
        OldReportIsOther(sha, d, f, d.reports[k]);
      }
    }
    forall g | g in t.upload.fired && g.cause.Finished? && NewCid(g.arg).Some? ensures Reported(t, g) {
      FiringStillReported(d, t, f, r, g);
    }
  }

  lemma HashedExactly(sha: Sha, cid: Str, i: MetadataInputs)
    ensures ComputeMetadataHash(sha, cid, i).Some? <==> NewCid(cid).Some?
  {
    hide NewCid;
  }

  lemma EmptyIsNoCid(cid: Str)
    requires cid == []
    ensures NewCid(cid).None?
  {
    TrimNothing();
  }

  lemma UploadDoneKeeps(sha: Sha, d: Desk, op: Option<nat>, cid: Str, stamp: U64, delivery: bool)
    requires Joined(sha, d) && Backend.Inv(d.upload)
    ensures Joined(sha, UploadDoneStep(sha, d, op, cid, stamp, delivery))
  {
    hide ComputeMetadataHash, NewCid, Next;
    var u := Next(d.upload, Complete(op, cid));
    SlotGrows(d.upload, Complete(op, cid));
    SlotGrows(d.broadcast, Invoke(delivery));
    var t := UploadDoneStep(sha, d, op, cid, stamp, delivery);
    EmptyOrNot(cid);
    if u.fired == d.upload.fired {
      assert u.fired == d.upload.fired + [];
      KeepsJoined(sha, d, t, []);
    } else {
      var id := d.upload.pending.value.id;
      var f := Firing(id, d.upload.now, cid, Finished(op));
      HashedExactly(sha, cid, d.asked[id].(timestamp_unix := stamp));
      if NewCid(cid).None? {
        KeepsJoined(sha, d, t, [f]);
      } else {
        var (b64, hex) := ComputeMetadataHash(sha, cid, d.asked[id].(timestamp_unix := stamp)).value;
        AddsReport(sha, d, t, f, Report(id, d.upload.now, cid, stamp, b64, hex));
      }
    }
  }

  lemma EmptyOrNot(cid: Str)
    ensures NewCid(cid).Some? ==> cid != []
  {
    if cid == [] {
      EmptyIsNoCid(cid);
    }
  }

  lemma StepKeepsJoined(sha: Sha, d: Desk, e: DeskEvent)
    requires Joined(sha, d) && Backend.Inv(d.upload)
    ensures Joined(sha, DeskNext(sha, d, e))
  {
    hide Next, ComputeMetadataHash, NewCid, CanPass, Joined, Backend.Inv;
    if e.UploadDone? {
      UploadDoneKeeps(sha, d, e.op, e.cid, e.stamp, e.delivery);
    } else {
      var t := DeskNext(sha, d, e);
      match e {
        case Publish(available, _) => SlotGrows(d.upload, Invoke(available));
        case UploadTimer(i) => SlotGrows(d.upload, TimerFires(i));
        case SendDone(op, hash) => SlotGrows(d.broadcast, Complete(op, hash));
        case SendTimer(i) => SlotGrows(d.broadcast, TimerFires(i));
        case Pass(ms) =>
          SlotGrows(d.upload, Advance(ms));
          SlotGrows(d.broadcast, Advance(ms));
      }
      OthersReportNothing(sha, d, t);
    }
  }

  lemma OthersReportNothing(sha: Sha, d: Desk, t: Desk)
    requires Joined(sha, d) && t.reports == d.reports && t.broadcast.calls == d.broadcast.calls
    requires t.upload.fired == d.upload.fired || exists f :: t.upload.fired == d.upload.fired + [f] && !f.cause.Finished?
    requires |t.asked| - |d.asked| == |t.upload.calls| - |d.upload.calls| && |t.asked| >= |d.asked| && t.asked[..|d.asked|] == d.asked
    requires t.upload.now - d.upload.now == t.broadcast.now - d.broadcast.now
    ensures Joined(sha, t)
  {
    if t.upload.fired == d.upload.fired {
      assert t.upload.fired == d.upload.fired + [];
      KeepsJoined(sha, d, t, []);
    } else {
      var f :| t.upload.fired == d.upload.fired + [f] && !f.cause.Finished?;
      KeepsJoined(sha, d, t, [f]);
    }
  }

  /** Over every run of the desk: each upload callback that ran with a usable CID is reported exactly once, nothing else is;
      report `k` is broadcast call `k`, made at the same moment; and its texts are those of that CID and that call. */
  lemma {:induction false} RunKeepsJoined(sha: Sha, events: seq<DeskEvent>)
    ensures Joined(sha, DeskRun(sha, Opened(), events))
  {
    if events == [] {
    } else {
      hide DeskNext, Joined, Backend.Inv, RunsTo;
      var prior := events[..|events| - 1];
      var d := DeskRun(sha, Opened(), prior);
      RunKeepsJoined(sha, prior);
      SlotsRun(sha, prior);
      RunsToInv(UPLOAD_LIMIT, d.upload);
      StepKeepsJoined(sha, d, events[|events| - 1]);
    }
  }

  lemma RunsToInv(limit: nat, s: Slot)
    requires RunsTo(Empty(limit, 0), s)
    ensures Backend.Inv(s)
  {
    hide Backend.Inv, Run;
    var events :| Run(Empty(limit, 0), events) == s;
    RunKeepsInv(limit, 0, events);
  }

  /** Over every run: what is broadcast for a report is bytes that the batch tool reads as exactly the trimmed CID the
      storage module gave and the hash the plugin shows and later anchors. */
  lemma ReportsAreReadBack(sha: Sha, events: seq<DeskEvent>, r: Report, cfg: Batch.BatchConfig)
    requires r in DeskRun(sha, Opened(), events).reports && cfg.sha == sha
    ensures Base64.Decode(r.b64).Some? && NewCid(r.cid).Some?
    ensures var bytes := Base64.Decode(r.b64).value;
            && Hex.ParseHash(r.hex) == Some(sha(bytes))
            && Batch.ParseEnvelope(cfg, ReceivedEnvelope(cfg.topic, bytes)) == Some(Item(NewCid(r.cid).value, sha(bytes)))
  {
    hide DeskRun, ComputeMetadataHash, Base64.Decode, Hex.ParseHash, Batch.ParseEnvelope, NewCid;
    var d := DeskRun(sha, Opened(), events);
    RunKeepsJoined(sha, events);
    assert ReportOk(sha, d, r);
    BroadcastBytesAreHashed(sha, r.cid, InputsAt(d, r), cfg);
  }

  /** What the user asked to publish, in order. */
  function AskedIn(events: seq<DeskEvent>): (r: seq<MetadataInputs>) {
    if events == [] then []
    else
      var last := events[|events| - 1];
      AskedIn(events[..|events| - 1]) + (if last.Publish? then [last.inputs] else [])
  }

  /** Upload call `k` is the user's `k`-th request, and each report is computed from what that request said. */
  lemma {:induction false} RequestsAreKept(sha: Sha, events: seq<DeskEvent>)
    ensures DeskRun(sha, Opened(), events).asked == AskedIn(events)
  {
    hide Next, ComputeMetadataHash, CanPass;
    if events == [] {
    } else {
      RequestsAreKept(sha, events[..|events| - 1]);
    }
  }

  /** A request goes to the storage module if it is there and no upload is pending; otherwise its callback runs at once,
      and nothing is reported or broadcast. */
  lemma PublishTaken(sha: Sha, d: Desk, available: bool, inputs: MetadataInputs)
    ensures var t, id := DeskNext(sha, d, Publish(available, inputs)), |d.upload.calls|;
            && t.broadcast == d.broadcast && t.reports == d.reports
            && (if available && d.upload.pending.None?
                then t.upload.pending == Some(Call(id, d.upload.now)) && t.upload.fired == d.upload.fired
                else t.upload.pending == d.upload.pending && t.upload.fired == d.upload.fired + [Firing(id, d.upload.now, [], Refused)])
  {
    CallTaken(d.upload, available);
    hide Next;
  }

  /** Over every run: an upload has 60 seconds and a broadcast 30. Each armed timer is that of an accepted call at exactly
      that distance, a pending call has its own, and no callback has run later than that. */
  lemma LimitsAre(sha: Sha, events: seq<DeskEvent>)
    ensures var d := DeskRun(sha, Opened(), events);
            && (forall i :: 0 <= i < |d.upload.timers| ==>
                  d.upload.timers[i].owner < |d.upload.calls|
                  && d.upload.timers[i].deadline == d.upload.calls[d.upload.timers[i].owner] + 60_000)
            && (forall i :: 0 <= i < |d.broadcast.timers| ==>
                  d.broadcast.timers[i].owner < |d.broadcast.calls|
                  && d.broadcast.timers[i].deadline == d.broadcast.calls[d.broadcast.timers[i].owner] + 30_000)
            && (d.upload.pending.Some? ==> Timer(d.upload.pending.value.at + 60_000, d.upload.pending.value.id) in d.upload.timers)
            && (d.broadcast.pending.Some? ==> Timer(d.broadcast.pending.value.at + 30_000, d.broadcast.pending.value.id) in d.broadcast.timers)
            && RanWithin(d.upload, 60_000) && RanWithin(d.broadcast, 30_000)
  {
    hide DeskRun, RunsTo;
    var d := DeskRun(sha, Opened(), events);
    SlotsRun(sha, events);
    SlotLimits(UPLOAD_LIMIT, d.upload);
    SlotLimits(BROADCAST_LIMIT, d.broadcast);
  }

  /** Every callback that ran did so within `limit` of its call. */
  ghost predicate RanWithin(s: Slot, limit: nat) {
    forall f :: f in s.fired ==> f.id < |s.calls| && s.calls[f.id] <= f.at <= s.calls[f.id] + limit
  }

  lemma SlotLimits(limit: nat, s: Slot)
    requires RunsTo(Empty(limit, 0), s)
    ensures forall i :: 0 <= i < |s.timers| ==>
              s.timers[i].owner < |s.calls| && s.timers[i].deadline == s.calls[s.timers[i].owner] + limit
    ensures s.pending.Some? ==> Timer(s.pending.value.at + limit, s.pending.value.id) in s.timers
    ensures RanWithin(s, limit)
  {
    hide Run;
    var events :| Run(Empty(limit, 0), events) == s;
    RunKeepsInv(limit, 0, events);
    assert forall i :: 0 <= i < |s.timers| ==> TimerOk(s, s.timers[i]);
    if s.pending.Some? {
      assert IsArmed(s, s.pending.value.id);
    }
    forall f | f in s.fired ensures f.id < |s.calls| && s.calls[f.id] <= f.at <= s.calls[f.id] + limit {
      var i :| 0 <= i < |s.fired| && s.fired[i] == f;
    }
  }

  /** What ends a pending broadcast: the event of its own operation tells it the hash that came, empty for an error; a timer
      that is due tells it nothing. Neither touches the uploads or the reports. */
  lemma BroadcastTold(sha: Sha, events: seq<DeskEvent>, hash: Str, i: nat)
    requires DeskRun(sha, Opened(), events).broadcast.pending.Some?
    ensures var d := DeskRun(sha, Opened(), events);
            var c := d.broadcast.pending.value;
            var sent, due := DeskNext(sha, d, SendDone(Some(c.id), hash)), DeskNext(sha, d, SendTimer(i));
            && sent.upload == d.upload && sent.reports == d.reports && due.upload == d.upload && due.reports == d.reports
            && sent.broadcast.pending.None?
            && sent.broadcast.fired == d.broadcast.fired + [Firing(c.id, d.broadcast.now, hash, Finished(Some(c.id)))]
            && (if i < |d.broadcast.timers| && d.broadcast.timers[i].deadline <= d.broadcast.now
                then due.broadcast.pending.None?
                     && due.broadcast.fired == d.broadcast.fired + [Firing(c.id, d.broadcast.now, [], TimedOut)]
                else due == d)
  {
    hide DeskRun, RunsTo, Without;
    var d := DeskRun(sha, Opened(), events);
    SlotsRun(sha, events);
    OwnIsOutstanding(BROADCAST_LIMIT, d.broadcast);
  }

  lemma OwnIsOutstanding(limit: nat, s: Slot)
    requires RunsTo(Empty(limit, 0), s)
    ensures s.pending.Some? ==> s.pending.value.id in s.outstanding
  {
    hide Run;
    var events :| Run(Empty(limit, 0), events) == s;
    PendingStaysOutstanding(limit, 0, events);
  }

  predicate IsReport(r: Report, upload: nat, at: nat, cid: Str, stamp: U64) {
    r.upload == upload && r.at == at && r.cid == cid && r.stamp == stamp
  }

  /** What ends a pending upload: its own event tells it the CID that came, a timer that is due nothing. With a usable CID
      the broadcast is called in the same moment: it is taken if delivery is there and no broadcast is pending. */
  lemma UploadGoesOn(sha: Sha, events: seq<DeskEvent>, cid: Str, stamp: U64, delivery: bool, i: nat)
    requires DeskRun(sha, Opened(), events).upload.pending.Some?
    ensures var d := DeskRun(sha, Opened(), events);
            var c := d.upload.pending.value;
            var done, due := DeskNext(sha, d, UploadDone(Some(c.id), cid, stamp, delivery)), DeskNext(sha, d, UploadTimer(i));
            && done.upload.pending.None? && done.upload.fired == d.upload.fired + [Firing(c.id, d.upload.now, cid, Finished(Some(c.id)))]
            && (NewCid(cid).None? ==> done.broadcast == d.broadcast && done.reports == d.reports)
            && (NewCid(cid).Some? ==> |done.reports| == |d.reports| + 1 && done.reports[..|d.reports|] == d.reports
                                      && IsReport(done.reports[|d.reports|], c.id, d.upload.now, cid, stamp))
            && (NewCid(cid).Some? && delivery && d.broadcast.pending.None? ==>
                  done.broadcast.pending == Some(Call(|d.broadcast.calls|, d.broadcast.now)) && done.broadcast.fired == d.broadcast.fired)
            && (NewCid(cid).Some? && !(delivery && d.broadcast.pending.None?) ==>
                  && done.broadcast.pending == d.broadcast.pending
                  && done.broadcast.fired == d.broadcast.fired + [Firing(|d.broadcast.calls|, d.broadcast.now, [], Refused)])
            && (i < |d.upload.timers| && d.upload.timers[i].deadline <= d.upload.now ==>
                  due.upload.pending.None? && due.upload.fired == d.upload.fired + [Firing(c.id, d.upload.now, [], TimedOut)])
            && due.broadcast == d.broadcast
  {
    hide DeskRun, RunsTo, Without, ComputeMetadataHash, NewCid, ReportOk, Reported, Next;
    var d := DeskRun(sha, Opened(), events);
    SlotsRun(sha, events);
    RunKeepsJoined(sha, events);
    OwnIsOutstanding(UPLOAD_LIMIT, d.upload);
    PendingIsCall(UPLOAD_LIMIT, d.upload);
    hide Joined;
    OwnUploadDone(d.upload, cid);
    TimerTells(d.upload, i);
    CallTaken(d.broadcast, delivery);
    OwnUploadStep(sha, d, cid, stamp, delivery);
    hide UploadDoneStep;
  }

  lemma OwnUploadStep(sha: Sha, d: Desk, cid: Str, stamp: U64, delivery: bool)
    requires d.upload.pending.Some? && d.upload.pending.value.id in d.upload.outstanding && d.upload.pending.value.id < |d.asked|
    ensures var e := Complete(Some(d.upload.pending.value.id), cid);
            var done := UploadDoneStep(sha, d, Some(d.upload.pending.value.id), cid, stamp, delivery);
            && done.upload == Next(d.upload, e)
            && done.broadcast == (if NewCid(cid).Some? then Next(d.broadcast, Invoke(delivery)) else d.broadcast)
            && (NewCid(cid).None? ==> done.reports == d.reports)
            && (NewCid(cid).Some? ==> |done.reports| == |d.reports| + 1 && done.reports[..|d.reports|] == d.reports
                                      && IsReport(done.reports[|d.reports|], d.upload.pending.value.id, d.upload.now, cid, stamp))
  {
    hide ComputeMetadataHash, NewCid, Next;
    SlotGrows(d.upload, Complete(Some(d.upload.pending.value.id), cid));
    OwnUploadDone(d.upload, cid);
    EmptyOrNot(cid);
    HashedExactly(sha, cid, d.asked[d.upload.pending.value.id].(timestamp_unix := stamp));
  }

  lemma OwnUploadDone(s: Slot, arg: Str)
    requires s.pending.Some? && s.pending.value.id in s.outstanding
    ensures var c := s.pending.value;
            var t := Next(s, Complete(Some(c.id), arg));
            t.pending.None? && t.fired == s.fired + [Firing(c.id, s.now, arg, Finished(Some(c.id)))]
  {
  }

  lemma TimerTells(s: Slot, i: nat)
    requires s.pending.Some?
    ensures var t := Next(s, TimerFires(i));
            i < |s.timers| && s.timers[i].deadline <= s.now ==>
              t.pending.None? && t.fired == s.fired + [Firing(s.pending.value.id, s.now, [], TimedOut)]
  {
    hide Without;
  }

  lemma PendingIsCall(limit: nat, s: Slot)
    requires RunsTo(Empty(limit, 0), s)
    ensures s.pending.Some? ==> s.pending.value.id < |s.calls|
  {
    RunsToInv(limit, s);
    hide RunsTo;
  }

  // ---- the plugin object ----

  class WhistleblowerBackend {
    const sha: Sha
    const upload: CallbackSlot
    const broadcast: CallbackSlot
    var asked: seq<MetadataInputs>
    var reports: seq<Report>

    ghost predicate Valid() {
      upload != broadcast
    }

    ghost function State(): (d: Desk)
      reads this, upload, broadcast
    {
      Desk(upload.State(), broadcast.State(), asked, reports)
    }

    constructor (sha: Sha)
      ensures Valid() && this.sha == sha && fresh(upload) && fresh(broadcast) && State() == Opened()
    {
      this.sha := sha;
      upload := new CallbackSlot(UPLOAD_LIMIT, 0);
      broadcast := new CallbackSlot(BROADCAST_LIMIT, 0);
      asked, reports := [], [];
    }

    /** `publish` on a readable file. */
    method StartPublish(available: bool, inputs: MetadataInputs)
      requires Valid()
      modifies this, upload
      ensures State() == DeskNext(sha, old(State()), Publish(available, inputs))
    {
      asked := asked + [inputs];
      upload.Begin(available);
    }

    /** The upload event: the callback of `publish` goes on to broadcast when it got a CID and could hash the envelope. */
    method OnStorageUploadDone(op: Option<nat>, cid: Str, stamp: U64, delivery: bool)
      requires Valid()
      modifies this, upload, broadcast
      ensures State() == DeskNext(sha, old(State()), UploadDone(op, cid, stamp, delivery))
    {
      hide ComputeMetadataHash, Next;
      var ran := upload.Finish(op, cid);
      if ran.None? || cid == [] || ran.value >= |asked| {
        return;
      }
      var hashed := ComputeMetadataHash(sha, cid, asked[ran.value].(timestamp_unix := stamp));
      if hashed.None? {
        return;
      }
      var (b64, hex) := hashed.value;
      reports := reports + [Report(ran.value, upload.now, cid, stamp, b64, hex)];
      broadcast.Begin(delivery);
    }

    method Dispatch(e: DeskEvent)
      requires Valid()
      modifies this, upload, broadcast
      ensures State() == DeskNext(sha, old(State()), e)
    {
      hide Next, ComputeMetadataHash;
      match e {
        case Publish(available, inputs) => StartPublish(available, inputs);
        case UploadDone(op, cid, stamp, delivery) => OnStorageUploadDone(op, cid, stamp, delivery);
        case UploadTimer(i) => upload.Timeout(i);
        case SendDone(op, hash) =>
          var _ := broadcast.Finish(op, hash);
        case SendTimer(i) => broadcast.Timeout(i);
        case Pass(ms) =>
          if (forall i :: 0 <= i < |upload.timers| ==> upload.now + ms <= upload.timers[i].deadline)
             && forall i :: 0 <= i < |broadcast.timers| ==> broadcast.now + ms <= broadcast.timers[i].deadline {
            upload.Wait(ms);
            broadcast.Wait(ms);
          }
      }
    }

    /** Any schedule of user actions, events, timers and time. */
    method RunSchedule(events: seq<DeskEvent>)
      requires Valid()
      modifies this, upload, broadcast
      ensures State() == DeskRun(sha, old(State()), events)
    {
      hide DeskNext;
      for i := 0 to |events|
        invariant State() == DeskRun(sha, old(State()), events[..i])
      {
        assert events[..i + 1][..i] == events[..i];
        Dispatch(events[i]);
      }
      assert events[..|events|] == events;
    }
  }
}
