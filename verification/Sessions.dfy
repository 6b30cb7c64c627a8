/** Sessions of the batch engine that share one dedupe ledger, each opened on the file the session before left behind:
    what an interrupted session loses, and whether hearing the same envelopes again brings it back. */
module Sessions {
  import opened Basics
  import opened Text
  import opened Json
  import opened Registry
  import opened Envelope
  import opened Dedupe
  import opened Batch
  import opened Anchoring
  import Hex
  import Replay

  datatype Session = Session(stream: seq<StreamItem>, events: seq<Event>)

  /** The engine at the end of one session. */
  function Ended(cfg: BatchConfig, file: Bytes, x: Session): (s: Engine) {
    Run(cfg, Start(x.stream, file), x.events)
  }

  function FileAfter(cfg: BatchConfig, file: Bytes, sessions: seq<Session>): (r: Bytes) {
    if sessions == [] then file
    else Ended(cfg, FileAfter(cfg, file, sessions[..|sessions| - 1]), sessions[|sessions| - 1]).file
  }

  /** The flushes of all sessions, in order. */
  function FlushesOver(cfg: BatchConfig, file: Bytes, sessions: seq<Session>): (r: seq<Flush>) {
    if sessions == [] then []
    else
      var prior := sessions[..|sessions| - 1];
      FlushesOver(cfg, file, prior) + Ended(cfg, FileAfter(cfg, file, prior), sessions[|sessions| - 1]).flushes
  }

  /** Session `i` of a sequence, at its end. */
  function EndedAt(cfg: BatchConfig, file: Bytes, sessions: seq<Session>, i: nat): (s: Engine)
    requires i < |sessions|
  {
    Ended(cfg, FileAfter(cfg, file, sessions[..i]), sessions[i])
  }

  // ---- a ledger file opens again, and keeps what it knows ----

  ghost predicate FileGrows(a: Bytes, b: Bytes) {
    && (ValidUtf8(a) ==> ValidUtf8(b))
    && (!HasDanglingLine(a) ==> !HasDanglingLine(b) && Load(a) <= Load(b))
  }

  lemma WriteGrows(file: Bytes, h: Bytes)
    requires h != [] && Hex.IsHex(h)
    ensures FileGrows(file, file + h + [NEWLINE])
  {
    hide Load, HasDanglingLine, ValidUtf8, Hex.IsHex;
    WrittenFileHasNoDanglingLine(file, h);
    if ValidUtf8(file) {
      WrittenFileIsUtf8(file, h);
    }
    if !HasDanglingLine(file) && h !in Load(file) {
      ReloadAfterNew(file, h);
    } else if !HasDanglingLine(file) {
      WriteKeeps(file, h);
    }
  }

  lemma WriteKeeps(file: Bytes, h: Bytes)
    requires h != [] && Hex.IsHex(h) && !HasDanglingLine(file)
    ensures Load(file) <= Load(file + h + [NEWLINE])
  {
    hide Load, Terminated, Unterminated, Trim, TrimStart, Hex.IsHex;
    LoadOfText(file);
    LoadAfterWrite(file, h);
  }

  lemma StepGrows(cfg: BatchConfig, s: Engine, e: Event)
    ensures FileGrows(s.file, Next(cfg, s, e).file)
  {
    hide Load, HasDanglingLine, ValidUtf8, EnvelopeHash, ParseEnvelope, Hex.IsHex;
    if e.Subscribe? && s.stream != [] && s.stream[0].Received? {
      WriteGrows(s.file, EnvelopeHash(cfg.sha, s.stream[0].envelope));
    }
  }

  lemma GrowsTwice(a: Bytes, b: Bytes, c: Bytes)
    requires FileGrows(a, b) && FileGrows(b, c)
    ensures FileGrows(a, c)
  {
    hide Load, HasDanglingLine, ValidUtf8;
  }

  lemma SameGrows(a: Bytes)
    ensures FileGrows(a, a)
  {
  }

  lemma {:induction false} RunGrows(cfg: BatchConfig, s: Engine, events: seq<Event>)
    ensures FileGrows(s.file, Run(cfg, s, events).file)
  {
    hide Next, FileGrows;
    if events == [] {
      SameGrows(s.file);
    } else {
      var prior := events[..|events| - 1];
      RunGrows(cfg, s, prior);
      StepGrows(cfg, Run(cfg, s, prior), events[|events| - 1]);
      GrowsTwice(s.file, Run(cfg, s, prior).file, Run(cfg, s, events).file);
    }
  }

  /** Over any sessions on any streams: a file that opens goes on opening, and one without a dangling line forgets nothing. */
  lemma {:induction false} SessionsGrow(cfg: BatchConfig, file: Bytes, sessions: seq<Session>)
    ensures FileGrows(file, FileAfter(cfg, file, sessions))
  {
    hide Run, FileGrows, Start;
    if sessions == [] {
      SameGrows(file);
    } else {
      var prior, last := sessions[..|sessions| - 1], sessions[|sessions| - 1];
      SessionsGrow(cfg, file, prior);
      var mid := FileAfter(cfg, file, prior);
      assert Start(last.stream, mid).file == mid by {
        StartFile(last.stream, mid);
      }
      RunGrows(cfg, Start(last.stream, mid), last.events);
      GrowsTwice(file, mid, FileAfter(cfg, file, sessions));
    }
  }

  lemma StartFile(stream: seq<StreamItem>, file: Bytes)
    ensures Start(stream, file).file == file
  {
  }

  // ---- what the ledger knows is never taken up again ----

  /** A hash in a ledger file without a dangling line is never again that of an item, in any session, on any stream. */
  lemma NeverAgain(cfg: BatchConfig, file: Bytes, sessions: seq<Session>, i: nat, f: Fated)
    requires !HasDanglingLine(file) && f.hash in Load(file) && i < |sessions|
    ensures f !in EndedAt(cfg, file, sessions, i).fates
  {
    hide Run, Load, HasDanglingLine, FileAfter, LedgerOf, ValidUtf8;
    SessionsGrow(cfg, file, sessions[..i]);
    var now := FileAfter(cfg, file, sessions[..i]);
    RunFollows(cfg, sessions[i].stream, now, sessions[i].events);
    assert f in EndedAt(cfg, file, sessions, i).fates ==> NewHash(now, EndedAt(cfg, file, sessions, i), f.hash);
  }

  /** The fates of the items that were sent, in order. */
  function SentFates(fates: seq<Fated>): (r: seq<Fated>)
    ensures forall f :: f in r ==> f in fates && f.fate == Sent
  {
    if fates == [] then []
    else
      var last := fates[|fates| - 1];
      SentFates(fates[..|fates| - 1]) + (if last.fate == Sent then [last] else [])
  }

  lemma {:induction false} SentFatesAre(fates: seq<Fated>)
    ensures ItemsOf(SentFates(fates)) == SentOf(fates)
  {
    if fates == [] {
    } else {
      var prior, last := fates[..|fates| - 1], fates[|fates| - 1];
      SentFatesAre(prior);
      assert ItemsOf(SentFates(prior) + [last]) == ItemsOf(SentFates(prior)) + [last.item];
    }
  }

  /** The accepted items come in order, so those reported anchored are the first ones. */
  function AnchoredFates(s: Engine): (r: seq<Fated>) {
    var n := |AnchoredItems(s.flushes)|;
    if n <= |SentFates(s.fates)| then SentFates(s.fates)[..n] else SentFates(s.fates)
  }

  lemma AnchoredFatesAre(cfg: BatchConfig, file: Bytes, x: Session)
    requires cfg.batch_size >= 1
    ensures var s := Ended(cfg, file, x); ItemsOf(AnchoredFates(s)) == AnchoredItems(s.flushes)
  {
    hide Run, SentOf, SentFates, AnchoredItems, StreamHashes, Load, Wanted;
    var s := Ended(cfg, file, x);
    WhatIsLeftBehind(cfg, x.stream, file, x.events);
    RunAccounts(cfg, x.stream, file, x.events);
    SentFatesAre(s.fates);
    assert s.accepted[..|AnchoredItems(s.flushes)|] == AnchoredItems(s.flushes);
    assert ItemsOf(AnchoredFates(s)) == ItemsOf(SentFates(s.fates))[..|AnchoredItems(s.flushes)|];
  }

  ghost predicate AnchoredIn(s: Engine, h: Bytes) {
    exists f :: f in AnchoredFates(s) && f.hash == h
  }

  ghost predicate AnchoredInSome(cfg: BatchConfig, file: Bytes, sessions: seq<Session>, h: Bytes) {
    exists i: nat :: i < |sessions| && AnchoredIn(EndedAt(cfg, file, sessions, i), h)
  }

  /** An item whose ledger line was written, and not swallowed, is anchored in some session, whatever the later sessions
      hear and do, if and only if the first session anchored it. */
  lemma FirstSessionOrNever(cfg: BatchConfig, file: Bytes, first: Session, later: seq<Session>, f: Fated)
    requires var s := Ended(cfg, file, first);
             f in s.fates && f.fate != Unwritten && !Swallowed(file, s.lines, f.hash)
    ensures AnchoredInSome(cfg, file, [first] + later, f.hash) <==> AnchoredIn(Ended(cfg, file, first), f.hash)
  {
    hide Run, Load, HasDanglingLine, LedgerOf, AnchoredFates;
    var s := Ended(cfg, file, first);
    RememberedExactly(cfg, first.stream, file, first.events, f);
    RunFollows(cfg, first.stream, file, first.events);
    assert f.hash in s.lines;
    var all := [first] + later;
    FirstSession(cfg, file, first, later);
    assert AnchoredIn(EndedAt(cfg, file, all, 0), f.hash) <==> AnchoredIn(s, f.hash);
    forall i: nat | 1 <= i < |all| ensures !AnchoredIn(EndedAt(cfg, file, all, i), f.hash) {
      LaterSession(cfg, file, first, later, i - 1);
      var t := EndedAt(cfg, file, all, i);
      forall g | g in AnchoredFates(t) && g.hash == f.hash ensures false {
        AnchoredAreFates(t, g);
        NeverAgain(cfg, s.file, later, i - 1, g);
      }
    }
  }

  lemma AnchoredAreFates(s: Engine, f: Fated)
    requires f in AnchoredFates(s)
    ensures f in s.fates
  {
    hide SentFates, AnchoredItems;
  }

  lemma FirstSession(cfg: BatchConfig, file: Bytes, first: Session, later: seq<Session>)
    ensures EndedAt(cfg, file, [first] + later, 0) == Ended(cfg, file, first)
  {
    hide Ended;
    assert ([first] + later)[..0] == [];
    assert FileAfter(cfg, file, []) == file;
  }

  lemma LaterSession(cfg: BatchConfig, file: Bytes, first: Session, later: seq<Session>, i: nat)
    requires i < |later|
    ensures EndedAt(cfg, file, [first] + later, i + 1) == EndedAt(cfg, Ended(cfg, file, first).file, later, i)
  {
    hide Ended;
    FileAfterFirst(cfg, file, first, later[..i]);
    assert ([first] + later)[..i + 1] == [first] + later[..i];
  }

  lemma {:induction false} FileAfterFirst(cfg: BatchConfig, file: Bytes, first: Session, later: seq<Session>)
    ensures FileAfter(cfg, file, [first] + later) == FileAfter(cfg, Ended(cfg, file, first).file, later)
  {
    hide Ended;
    if later == [] {
      assert [first] + later == [first] && [first][..0] == [];
      assert FileAfter(cfg, file, []) == file;
    } else {
      FileAfterFirst(cfg, file, first, later[..|later| - 1]);
      assert ([first] + later)[..|later|] == [first] + later[..|later| - 1];
    }
  }

  // ---- hearing the same envelopes again ----

  /** An item of the stream that would be wanted if this were its first occurrence. */
  ghost predicate Unknown(cfg: BatchConfig, known: set<Bytes>, x: StreamItem) {
    x.Received? && ParseEnvelope(cfg, x.envelope).Some? && EnvelopeHash(cfg.sha, x.envelope) !in known
  }

  lemma {:induction false} WantsNothing(cfg: BatchConfig, known: set<Bytes>, items: seq<StreamItem>)
    requires forall k :: 0 <= k < |items| ==> !Unknown(cfg, known, items[k])
    ensures Wanted(cfg, known, items) == []
  {
    hide ParseEnvelope, EnvelopeHash;
    if items == [] {
    } else {
      WantsNothing(cfg, known, items[..|items| - 1]);
    }
  }

  /** A session that hears nothing unknown accepts and flushes nothing. */
  lemma QuietSession(cfg: BatchConfig, file: Bytes, x: Session)
    requires cfg.batch_size >= 1 && forall k :: 0 <= k < |x.stream| ==> !Unknown(cfg, Load(file), x.stream[k])
    ensures var s := Ended(cfg, file, x); s.fates == [] && s.accepted == [] && s.flushes == []
  {
    hide Run, Load, Wanted, StreamHashes, Unknown;
    var s := Ended(cfg, file, x);
    RunAccounts(cfg, x.stream, file, x.events);
    assert forall k :: 0 <= k < |s.taken| ==> s.taken[k] == x.stream[k];
    WantsNothing(cfg, Load(file), s.taken);
    assert s.fates == [];
    Conservation(cfg, x.stream, file, x.events);
    NothingFlushed(cfg, s);
  }

  lemma NothingFlushed(cfg: BatchConfig, s: Engine)
    requires Inv(cfg, s) && s.accepted == []
    ensures s.flushes == []
  {
    assert s.flushes != [] ==> FlushedItems(s.flushes) != [];
  }

  /** Every stream item of these sessions is among `items`. */
  ghost predicate Repeats(items: seq<StreamItem>, sessions: seq<Session>) {
    forall i, k :: 0 <= i < |sessions| && 0 <= k < |sessions[i].stream| ==> sessions[i].stream[k] in items
  }

  ghost predicate AllKnown(cfg: BatchConfig, known: set<Bytes>, items: seq<StreamItem>) {
    forall k :: 0 <= k < |items| ==> !Unknown(cfg, known, items[k])
  }

  lemma {:induction false} QuietSessions(cfg: BatchConfig, file: Bytes, items: seq<StreamItem>, sessions: seq<Session>)
    requires cfg.batch_size >= 1 && !HasDanglingLine(file) && AllKnown(cfg, Load(file), items) && Repeats(items, sessions)
    ensures FlushesOver(cfg, file, sessions) == []
  {
    hide Ended, Load, HasDanglingLine, ValidUtf8;
    if sessions == [] {
    } else {
      var prior, last := sessions[..|sessions| - 1], sessions[|sessions| - 1];
      assert Repeats(items, prior);
      QuietSessions(cfg, file, items, prior);
      SessionsGrow(cfg, file, prior);
      var now := FileAfter(cfg, file, prior);
      forall k | 0 <= k < |last.stream| ensures !Unknown(cfg, Load(now), last.stream[k]) {
        assert sessions[|sessions| - 1].stream[k] in items;
      }
      hide Unknown, FileAfter;
      QuietSession(cfg, now, last);
    }
  }

  /** One unknown envelope, in a session of its own, is flushed by some run. */
  lemma LoudSession(cfg: BatchConfig, file: Bytes, x: StreamItem) returns (session: Session)
    requires cfg.batch_size >= 1 && Unknown(cfg, Load(file), x)
    ensures session.stream == [x] && FlushesOver(cfg, file, [session]) != []
  {
    hide Run, Load, Wanted, ParseEnvelope, EnvelopeHash, CleanEnd;
    var item := ParseEnvelope(cfg, x.envelope).value;
    OneWanted(cfg, Load(file), x);
    var fs := [Flush([item], [0], true)];
    FlushedSnoc([], fs[0]);
    assert [] + fs == fs && [] + [item] == [item];
    assert cfg.(batch_size := cfg.batch_size) == cfg;
    var events := RealizeCut(cfg, cfg.batch_size, [x], file, fs);
    session := Session([x], events);
    assert [session][..0] == [] && FlushesOver(cfg, file, []) == [] && FileAfter(cfg, file, []) == file;
    assert [] + fs == fs;
  }

  lemma OneWanted(cfg: BatchConfig, known: set<Bytes>, x: StreamItem)
    requires Unknown(cfg, known, x)
    ensures Wanted(cfg, known, [x]) == [ParseEnvelope(cfg, x.envelope).value]
  {
    hide ParseEnvelope, EnvelopeHash;
    TakeOne(cfg, known, [], x);
    assert [] + [x] == [x];
    assert Wanted(cfg, known, []) == [] && StreamHashes(cfg, []) == {};
  }

  /** After any session that left no dangling line: later sessions hearing only what it took flush nothing, however many
      there are and however they run, if and only if the file knows the hash of every taken envelope that parses. */
  lemma ReEmissionExactly(cfg: BatchConfig, file: Bytes, first: Session)
    requires cfg.batch_size >= 1 && !HasDanglingLine(Ended(cfg, file, first).file)
    ensures var s := Ended(cfg, file, first);
            AllKnown(cfg, Load(s.file), s.taken) <==> forall later :: Repeats(s.taken, later) ==> FlushesOver(cfg, s.file, later) == []
  {
    hide Ended, Load, HasDanglingLine, Unknown, FlushesOver;
    var s := Ended(cfg, file, first);
    if AllKnown(cfg, Load(s.file), s.taken) {
      forall later | Repeats(s.taken, later) ensures FlushesOver(cfg, s.file, later) == [] {
        QuietSessions(cfg, s.file, s.taken, later);
      }
    } else {
      var k :| 0 <= k < |s.taken| && Unknown(cfg, Load(s.file), s.taken[k]);
      var again := LoudSession(cfg, s.file, s.taken[k]);
      assert Repeats(s.taken, [again]);
    }
  }

  function InputsOf(items: seq<StreamItem>): (r: set<Bytes>) {
    set k | 0 <= k < |items| && items[k].Received? :: HashInput(items[k].envelope)
  }

  /** On a file without a dangling line, with NUL-free topics and no collision among the inputs, that is so exactly when no
      ledger line failed to be written for an item. */
  lemma KnownExactly(cfg: BatchConfig, file: Bytes, first: Session)
    requires cfg.batch_size >= 1 && !HasDanglingLine(file)
    requires CollisionFree(cfg.sha, InputsOf(first.stream))
    requires forall x :: x in first.stream && x.Received? ==> NulFree(x.envelope.topic)
    ensures var s := Ended(cfg, file, first);
            !HasDanglingLine(s.file) && (AllKnown(cfg, Load(s.file), s.taken) <==> forall f :: f in s.fates ==> f.fate != Unwritten)
  {
    hide Run, Load, HasDanglingLine, ParseEnvelope, EnvelopeHash, ValidUtf8, HasOrigin, CollisionFree, InputsOf, NulFree;
    var s := Ended(cfg, file, first);
    RunGrows(cfg, Start(first.stream, file), first.events);
    if AllKnown(cfg, Load(s.file), s.taken) {
      forall f | f in s.fates ensures f.fate != Unwritten {
        NothingIsInvented(cfg, first.stream, file, first.events, f);
        OriginIsKnown(cfg, Load(s.file), s.taken, f);
        RememberedExactly(cfg, first.stream, file, first.events, f);
      }
    }
    if forall f :: f in s.fates ==> f.fate != Unwritten {
      forall k: nat | k < |s.taken| ensures !Unknown(cfg, Load(s.file), s.taken[k]) {
        if s.taken[k].Received? && ParseEnvelope(cfg, s.taken[k].envelope).Some? && EnvelopeHash(cfg.sha, s.taken[k].envelope) !in Load(file) {
          var f := FateOfTaken(cfg, first.stream, file, first.events, k);
          RememberedExactly(cfg, first.stream, file, first.events, f);
        }
      }
    }
  }

  lemma OriginIsKnown(cfg: BatchConfig, known: set<Bytes>, items: seq<StreamItem>, f: Fated)
    requires HasOrigin(cfg, items, f) && AllKnown(cfg, known, items)
    ensures f.hash in known
  {
    hide Parse, CanonicalJsonBytes, EnvelopeHash;
    var k: nat :| DerivedFrom(cfg, items, k, f);
    assert !Unknown(cfg, known, items[k]);
  }

  lemma TakenStep(cfg: BatchConfig, s: Engine, e: Event)
    ensures var t := Next(cfg, s, e);
            || (t.taken == s.taken && t.fates == s.fates)
            || (e.Subscribe? && s.stream != [] && t.taken == s.taken + [s.stream[0]]
                && t.fates == s.fates + NewFates(cfg, s, e.writable))
  {
    hide NewFates, SubscribeStep;
    if e.Subscribe? && s.stream != [] {
      SubscribeEffects(cfg, s, e.writable);
    }
  }

  /** Taken envelopes with one hash are one envelope. */
  lemma SameTaken(cfg: BatchConfig, stream: seq<StreamItem>, j: nat, k: nat)
    requires j < |stream| && k < |stream| && stream[j].Received? && stream[k].Received?
    requires CollisionFree(cfg.sha, InputsOf(stream)) && forall x :: x in stream && x.Received? ==> NulFree(x.envelope.topic)
    requires EnvelopeHash(cfg.sha, stream[j].envelope) == EnvelopeHash(cfg.sha, stream[k].envelope)
    ensures stream[j] == stream[k]
  {
    hide CollisionFree, NulFree, EnvelopeHash, HashInput;
    assert stream[j] in stream && stream[k] in stream;
    SameHashSameEnvelope(cfg.sha, stream[j].envelope, stream[k].envelope, InputsOf(stream));
  }

  lemma EarlierTaken(cfg: BatchConfig, stream: seq<StreamItem>, file: Bytes, s: Engine, h: Bytes) returns (j: nat)
    requires Accounted(cfg, stream, file, s) && h in s.seen && h !in Load(file)
    ensures j < |s.taken| && s.taken[j].Received? && EnvelopeHash(cfg.sha, s.taken[j].envelope) == h
  {
    hide EnvelopeHash, Load, Wanted, ItemsOf, SentOf;
    j :| 0 <= j < |s.taken| && s.taken[j].Received? && EnvelopeHash(cfg.sha, s.taken[j].envelope) == h;
  }

  /** A taken envelope that parses and is new to the file has a fate under its hash. */
  lemma {:induction false} FateOfTaken(cfg: BatchConfig, stream: seq<StreamItem>, file: Bytes, events: seq<Event>, k: nat) returns (f: Fated)
    requires CollisionFree(cfg.sha, InputsOf(stream)) && forall x :: x in stream && x.Received? ==> NulFree(x.envelope.topic)
    requires cfg.batch_size >= 1
    requires var s := Run(cfg, Start(stream, file), events);
             k < |s.taken| && s.taken[k].Received? && ParseEnvelope(cfg, s.taken[k].envelope).Some?
             && EnvelopeHash(cfg.sha, s.taken[k].envelope) !in Load(file)
    ensures var s := Run(cfg, Start(stream, file), events); f in s.fates && f.hash == EnvelopeHash(cfg.sha, s.taken[k].envelope)
    decreases |events|
  {
    hide ParseEnvelope, EnvelopeHash, Load, NulFree, CollisionFree, InputsOf, Next, Accounted;
    var prior, e := events[..|events| - 1], events[|events| - 1];
    var s := Run(cfg, Start(stream, file), prior);
    TakenStep(cfg, s, e);
    if k < |s.taken| {
      f := FateOfTaken(cfg, stream, file, prior, k);
    } else {
      var h := EnvelopeHash(cfg.sha, s.stream[0].envelope);
      RunAccounts(cfg, stream, file, prior);
      if h in s.seen {
        var j := EarlierTaken(cfg, stream, file, s, h);
        PrefixTaken(cfg, stream, file, s);
        SameTaken(cfg, stream, j, k);
        f := FateOfTaken(cfg, stream, file, prior, j);
      } else {
        f := NewFates(cfg, s, e.writable)[0];
      }
    }
  }

  lemma PrefixTaken(cfg: BatchConfig, stream: seq<StreamItem>, file: Bytes, s: Engine)
    requires Accounted(cfg, stream, file, s) && s.stream != []
    ensures |s.taken| < |stream| && stream[|s.taken|] == s.stream[0] && forall j :: 0 <= j < |s.taken| ==> stream[j] == s.taken[j]
  {
    hide EnvelopeHash, Load, Wanted, ItemsOf, SentOf;
  }

  // ---- what that loses, and what would bring it back ----

  function Heard(cfg: BatchConfig, payload: Bytes): (x: StreamItem) {
    Received(ReceivedEnvelope(cfg.topic, payload))
  }

  /** One new envelope has been taken: its item waits in the channel, and the file knows its hash. */
  lemma TakenOnce(cfg: BatchConfig, payload: Bytes)
    requires Parse(payload).Some?
    ensures var x := Heard(cfg, payload);
            var item, h := ParseEnvelope(cfg, x.envelope).value, EnvelopeHash(cfg.sha, x.envelope);
            var s := Start([x], []);
            Run(cfg, s, [Subscribe(true)])
            == s.(stream := [], seen := {h}, file := [] + h + [NEWLINE], channel := [item], taken := [x], lines := [h],
                  fates := [Fated(item, h, Sent)], accepted := [item])
  {
    hide Parse, EnvelopeHash, MetadataHash, Load, Run;
    var x := Heard(cfg, payload);
    RunOne(cfg, Start([x], []), Subscribe(true));
    Replay.NothingLoaded();
    assert [x][1..] == [];
  }

  lemma EmptyFileIsClean()
    ensures !HasDanglingLine([])
  {
    TrimNothing();
  }

  /** A session over one envelope whose item was sent: hearing that envelope again flushes nothing. */
  lemma SentIsNotHeardAgain(cfg: BatchConfig, x: StreamItem, events: seq<Event>, f: Fated)
    requires cfg.batch_size >= 1 && x.Received? && f.hash == EnvelopeHash(cfg.sha, x.envelope) && f.fate == Sent
    requires var s := Run(cfg, Start([x], []), events); f in s.fates && s.taken == [x]
    ensures forall later :: Repeats([x], later) ==> FlushesOver(cfg, Run(cfg, Start([x], []), events).file, later) == []
  {
    hide Run, Load, EnvelopeHash, ParseEnvelope, HasDanglingLine, ValidUtf8, FlushesOver, Repeats;
    var first := Session([x], events);
    var s := Ended(cfg, [], first);
    EmptyFileIsClean();
    RememberedExactly(cfg, [x], [], events, f);
    RunGrows(cfg, Start([x], []), events);
    assert AllKnown(cfg, Load(s.file), s.taken);
    ReEmissionExactly(cfg, [], first);
  }

  /** The documented recovery fails on this run: one envelope, and a flush that fails with nothing landed. The item was
      accepted and not anchored, and no later sessions that hear the envelope again flush it. */
  lemma FailedFlushIsLost(cfg: BatchConfig, payload: Bytes)
    requires cfg.batch_size >= 1 && Parse(payload).Some?
    ensures var x := Heard(cfg, payload);
            var item := ParseEnvelope(cfg, x.envelope).value;
            var s := Run(cfg, Start([x], []), [Subscribe(true), Receive, Tick, FlushFailed([])]);
            && s.phase == Failed && s.accepted == [item] && s.flushes == [Flush([item], [], false)]
            && forall later :: Repeats([x], later) ==> FlushesOver(cfg, s.file, later) == []
  {
    hide Parse, EnvelopeHash, MetadataHash, Load, Run, FlushesOver, Repeats;
    var x := Heard(cfg, payload);
    var start := Start([x], []);
    TakenOnce(cfg, payload);
    RunSnoc(cfg, start, [Subscribe(true)], Receive);
    RunSnoc(cfg, start, [Subscribe(true), Receive], Tick);
    RunSnoc(cfg, start, [Subscribe(true), Receive, Tick], FlushFailed([]));
    assert [Subscribe(true)] + [Receive] == [Subscribe(true), Receive];
    assert [Subscribe(true), Receive] + [Tick] == [Subscribe(true), Receive, Tick];
    assert [Subscribe(true), Receive, Tick] + [FlushFailed([])] == [Subscribe(true), Receive, Tick, FlushFailed([])];
    var item, h := ParseEnvelope(cfg, x.envelope).value, EnvelopeHash(cfg.sha, x.envelope);
    assert [] + [item] == [item] && [item][1..] == [];
    var s := Run(cfg, start, [Subscribe(true), Receive, Tick, FlushFailed([])]);
    assert s.fates == [Fated(item, h, Sent)];
    SentIsNotHeardAgain(cfg, x, [Subscribe(true), Receive, Tick, FlushFailed([])], Fated(item, h, Sent));
  }

  /** So it does for an item still in the channel when a shutdown ends the loop, without any failure. */
  lemma ShutdownIsLost(cfg: BatchConfig, payload: Bytes)
    requires cfg.batch_size >= 1 && Parse(payload).Some?
    ensures var x := Heard(cfg, payload);
            var item := ParseEnvelope(cfg, x.envelope).value;
            var s := Run(cfg, Start([x], []), [Subscribe(true), SignalShutdown, AnchorerStops]);
            && s.phase == Done && s.accepted == [item] && s.channel == [item] && s.flushes == []
            && forall later :: Repeats([x], later) ==> FlushesOver(cfg, s.file, later) == []
  {
    hide Parse, EnvelopeHash, MetadataHash, Load, Run, FlushesOver, Repeats;
    var x := Heard(cfg, payload);
    var start := Start([x], []);
    TakenOnce(cfg, payload);
    RunSnoc(cfg, start, [Subscribe(true)], SignalShutdown);
    RunSnoc(cfg, start, [Subscribe(true), SignalShutdown], AnchorerStops);
    assert [Subscribe(true)] + [SignalShutdown] == [Subscribe(true), SignalShutdown];
    assert [Subscribe(true), SignalShutdown] + [AnchorerStops] == [Subscribe(true), SignalShutdown, AnchorerStops];
    var item, h := ParseEnvelope(cfg, x.envelope).value, EnvelopeHash(cfg.sha, x.envelope);
    var s := Run(cfg, start, [Subscribe(true), SignalShutdown, AnchorerStops]);
    assert s.fates == [Fated(item, h, Sent)];
    SentIsNotHeardAgain(cfg, x, [Subscribe(true), SignalShutdown, AnchorerStops], Fated(item, h, Sent));
  }

  lemma BlankIsSkipped(payload: Bytes)
    ensures Parse([0x20] + payload) == Parse(payload)
  {
    hide ReadWord, ReadString, ReadItems, ReadMembers, ReadNumber, FromJson;
    assert ([0x20] + payload)[1..] == payload;
    assert Skip([0x20] + payload) == Skip(payload);
  }

  /** What does recover an item: the same envelope with a blank in front is another payload with the same item, and it is
      wanted as long as its hash is new. */
  lemma BlankRecovers(cfg: BatchConfig, file: Bytes, payload: Bytes)
    requires Parse(payload).Some?
    ensures var again := Heard(cfg, [0x20] + payload);
            Wanted(cfg, Load(file), [again]) == (if EnvelopeHash(cfg.sha, again.envelope) in Load(file) then []
                                                 else [ParseEnvelope(cfg, Heard(cfg, payload).envelope).value])
  {
    hide Parse, EnvelopeHash, MetadataHash, Load, Wanted;
    BlankIsSkipped(payload);
    var again := Heard(cfg, [0x20] + payload);
    if EnvelopeHash(cfg.sha, again.envelope) in Load(file) {
      WantsNothing(cfg, Load(file), [again]);
    } else {
      OneWanted(cfg, Load(file), again);
    }
  }
}
