/** The batch engine of indexing/src/batch.rs: a subscriber task and an anchorer task joined by an unbounded channel,
    as a machine over their steps. A run is any sequence of events; an event that cannot happen changes nothing.
    What a flush does to a registry is not part of the machine: it records the flushes, for any registry client. */
module Batch {
  import opened Basics
  import opened Text
  import opened Registry
  import opened Envelope
  import opened Dedupe
  import Retry
  import Hex

  datatype BatchConfig = BatchConfig(sha: Sha, topic: Str, batch_size: nat)

  datatype StreamItem = Received(envelope: ReceivedEnvelope) | ReceiveError

  datatype Phase = Running | Done | Failed

  /** What became of the first occurrence of a parseable envelope: sent to the channel, skipped because its ledger line
      could not be written, or parsed after a failed flush, when nobody receives any more. */
  datatype Fate = Sent | Unwritten | Orphaned

  datatype Fated = Fated(item: Item, hash: Bytes, fate: Fate)

  /** One settled flush: the drained batch, the timestamps of its attempts that landed, and what the engine was told. */
  datatype Flush = Flush(batch: seq<Item>, landed: seq<U64>, ok: bool)

  /** `inflight` is the batch a flush has drained and not settled; `leaving` says the loop ends after it. `taken`, `lines`,
      `fates`, `accepted` and `flushes` are histories: stream items read, hashes written to the ledger file, first
      occurrences that parse with their fate, items sent to the channel, and settled flushes. */
  datatype Engine = Engine(
    stream: seq<StreamItem>,
    seen: set<Bytes>,
    file: Bytes,
    subscriberDone: bool,
    channel: seq<Item>,
    buffer: seq<Item>,
    inflight: Option<seq<Item>>,
    leaving: bool,
    phase: Phase,
    shutdown: bool,
    taken: seq<StreamItem>,
    lines: seq<Bytes>,
    fates: seq<Fated>,
    accepted: seq<Item>,
    flushes: seq<Flush>)

  datatype Event =
    | Subscribe(writable: bool)        // subscriber: the next stream item, with a working or failing ledger write
    | StreamEnd                        // subscriber: the stream is over
    | SubscriberStops                  // subscriber: sees the shutdown signal
    | Receive                          // anchorer: an item from the channel
    | Closed                           // anchorer: the channel is empty and its sender gone
    | Tick                             // anchorer: the interval elapsed
    | AnchorerStops                    // anchorer: sees the shutdown signal
    | FlushOk(landed: seq<U64>)        // anchor_batch returned entries
    | FlushFailed(landed: seq<U64>)    // anchor_batch failed for good; attempts may have landed all the same
    | SignalShutdown                   // from outside

  /** A session over a ledger file: the store is opened on it. */
  function Start(stream: seq<StreamItem>, file: Bytes): (s: Engine) {
    Engine(stream, Load(file), file, false, [], [], None, false, Running, false, [], [], [], [], [])
  }

  /** Topic check, JSON decoding, and the hash of the re-encoded envelope. */
  function ParseEnvelope(cfg: BatchConfig, e: ReceivedEnvelope): (r: Option<Item>) {
    if e.topic != cfg.topic then None
    else
      match Parse(e.payload)
      case None => None
      case Some(envelope) => Some(Item(envelope.cid, MetadataHash(cfg.sha, envelope)))
  }

  /** The ledger line is written before the envelope is parsed. After a failed flush the receiving end is gone, so the
      first send ends the subscriber and its item is dropped. */
  function SubscribeStep(cfg: BatchConfig, s: Engine, writable: bool): (r: Engine)
    requires s.stream != []
  {
    var item := s.stream[0];
    var t := s.(stream := s.stream[1..], taken := s.taken + [item]);
    match item
    case ReceiveError => t
    case Received(e) =>
      var h := EnvelopeHash(cfg.sha, e);
      if h in s.seen then t
      else Ingested(t.(seen := s.seen + {h}), h, ParseEnvelope(cfg, e), writable)
  }

  /** What follows on a hash that was new. */
  function Ingested(u: Engine, h: Bytes, parsed: Option<Item>, writable: bool): (r: Engine) {
    if !writable then u.(fates := u.fates + Note(parsed, h, Unwritten))
    else Delivered(u.(file := u.file + h + [NEWLINE], lines := u.lines + [h]), h, parsed)
  }

  function Delivered(u: Engine, h: Bytes, parsed: Option<Item>): (r: Engine) {
    if parsed.None? then u
    else if u.phase == Failed then u.(subscriberDone := true, fates := u.fates + Note(parsed, h, Orphaned))
    else u.(channel := u.channel + [parsed.value], accepted := u.accepted + [parsed.value],
            fates := u.fates + Note(parsed, h, Sent))
  }

  function Note(parsed: Option<Item>, h: Bytes, fate: Fate): (r: seq<Fated>) {
    if parsed.Some? then [Fated(parsed.value, h, fate)] else []
  }

  function Drain(s: Engine, leaving: bool): (r: Engine) {
    s.(inflight := Some(s.buffer), buffer := [], leaving := leaving)
  }

  /** Leave the anchorer loop, flushing first what is buffered. */
  function Leave(s: Engine): (r: Engine) {
    if s.buffer != [] then Drain(s, true) else s.(phase := Done)
  }

  predicate Waiting(s: Engine) {
    s.phase == Running && s.inflight.None?
  }

  function ReceiveStep(cfg: BatchConfig, s: Engine): (r: Engine)
    requires s.channel != []
  {
    var t := s.(channel := s.channel[1..], buffer := s.buffer + [s.channel[0]]);
    if |t.buffer| >= cfg.batch_size then Drain(t, false) else t
  }

  function Next(cfg: BatchConfig, s: Engine, e: Event): (r: Engine) {
    match e
    case Subscribe(writable) => if !s.subscriberDone && s.stream != [] then SubscribeStep(cfg, s, writable) else s
    case StreamEnd => if !s.subscriberDone && s.stream == [] then s.(subscriberDone := true) else s
    case SubscriberStops => if !s.subscriberDone && s.shutdown then s.(subscriberDone := true) else s
    case Receive => if Waiting(s) && s.channel != [] then ReceiveStep(cfg, s) else s
    case Closed => if Waiting(s) && s.channel == [] && s.subscriberDone then Leave(s) else s
    case Tick => if Waiting(s) && s.buffer != [] then Drain(s, false) else s
    case AnchorerStops => if Waiting(s) && s.shutdown then Leave(s) else s
    case FlushOk(landed) =>
      if s.inflight.None? then s
      else s.(inflight := None, flushes := s.flushes + [Flush(s.inflight.value, landed, true)],
              phase := if s.leaving then Done else s.phase)
    case FlushFailed(landed) =>
      if s.inflight.None? then s
      else s.(inflight := None, flushes := s.flushes + [Flush(s.inflight.value, landed, false)], phase := Failed)
    case SignalShutdown => s.(shutdown := true)
  }

  function Run(cfg: BatchConfig, s: Engine, events: seq<Event>): (r: Engine) {
    if events == [] then s
    else Next(cfg, Run(cfg, s, events[..|events| - 1]), events[|events| - 1])
  }

  lemma RunSnoc(cfg: BatchConfig, s: Engine, events: seq<Event>, e: Event)
    ensures Run(cfg, s, events + [e]) == Next(cfg, Run(cfg, s, events), e)
    ensures Run(cfg, s, []) == s
  {
    hide Next;
    assert (events + [e])[..|events|] == events;
  }

  lemma {:induction false} RunAppend(cfg: BatchConfig, s: Engine, xs: seq<Event>, ys: seq<Event>)
    ensures Run(cfg, s, xs + ys) == Run(cfg, Run(cfg, s, xs), ys)
  {
    hide Next, Run;
    if ys == [] {
      assert xs + ys == xs;
      RunSnoc(cfg, Run(cfg, s, xs), [], Tick);
    } else {
      var init, last := ys[..|ys| - 1], ys[|ys| - 1];
      RunAppend(cfg, s, xs, init);
      assert ys == init + [last] && xs + ys == xs + init + [last];
      RunSnoc(cfg, s, xs + init, last);
      RunSnoc(cfg, Run(cfg, s, xs), init, last);
    }
  }

  // ---- where every accepted item is ----

  function Pending(s: Engine): (r: seq<Item>) {
    if s.inflight.Some? then s.inflight.value else []
  }

  /** The items of all settled flushes. */
  function FlushedItems(fs: seq<Flush>): (r: seq<Item>) {
    if fs == [] then [] else FlushedItems(fs[..|fs| - 1]) + fs[|fs| - 1].batch
  }

  lemma FlushedSnoc(fs: seq<Flush>, f: Flush)
    ensures FlushedItems(fs + [f]) == FlushedItems(fs) + f.batch
  {
    assert (fs + [f])[..|fs|] == fs;
  }

  /** Every accepted item is in exactly one place, and the places are in order. */
  ghost predicate Conserved(s: Engine) {
    s.accepted == FlushedItems(s.flushes) + Pending(s) + s.buffer + s.channel
  }

  ghost predicate Shape(cfg: BatchConfig, s: Engine) {
    && (s.inflight.Some? ==> s.phase == Running && s.inflight.value != [] && |s.inflight.value| <= cfg.batch_size && s.buffer == [])
    && |s.buffer| < cfg.batch_size
    && (s.phase != Running ==> s.buffer == [])
    && FlushesShape(cfg, s.flushes, s.phase)
  }

  /** Batches are non-empty and bounded, and only the last flush of a failed engine was reported failed. */
  ghost predicate FlushesShape(cfg: BatchConfig, fs: seq<Flush>, phase: Phase) {
    && (forall i :: 0 <= i < |fs| ==> 1 <= |fs[i].batch| <= cfg.batch_size)
    && (forall i :: 0 <= i < |fs| ==> (!fs[i].ok <==> phase == Failed && i == |fs| - 1))
    && (phase == Failed ==> fs != [])
  }

  ghost predicate Inv(cfg: BatchConfig, s: Engine) {
    Conserved(s) && Shape(cfg, s)
  }

  lemma SettleKeepsShape(cfg: BatchConfig, s: Engine, e: Event)
    requires cfg.batch_size >= 1 && Shape(cfg, s) && (e.FlushOk? || e.FlushFailed?)
    ensures Shape(cfg, Next(cfg, s, e))
  {
    if s.inflight.Some? {
      var t := Next(cfg, s, e);
      assert forall i :: 0 <= i < |s.flushes| ==> t.flushes[i] == s.flushes[i];
    }
  }

  lemma StepKeepsShape(cfg: BatchConfig, s: Engine, e: Event)
    requires cfg.batch_size >= 1 && Shape(cfg, s)
    ensures Shape(cfg, Next(cfg, s, e))
  {
    hide ParseEnvelope, EnvelopeHash;
    if e.FlushOk? || e.FlushFailed? {
      hide Shape, Next;
      SettleKeepsShape(cfg, s, e);
    } else if e.Closed? || e.AnchorerStops? {
      LeaveKeepsShape(cfg, s);
    } else {
      hide FlushesShape;
    }
  }

  lemma LeaveKeepsShape(cfg: BatchConfig, s: Engine)
    requires Shape(cfg, s) && cfg.batch_size >= 1
    ensures Waiting(s) ==> Shape(cfg, Leave(s))
  {
  }

  lemma SubscribeConserves(cfg: BatchConfig, s: Engine, writable: bool)
    requires Conserved(s) && s.stream != []
    ensures Conserved(SubscribeStep(cfg, s, writable))
  {
    hide ParseEnvelope, EnvelopeHash, FlushedItems;
    var t := SubscribeStep(cfg, s, writable);
    var before := FlushedItems(s.flushes) + Pending(s) + s.buffer;
    if t.channel != s.channel {
      Concat3(before, s.channel, [t.channel[|s.channel|]]);
    }
  }

  lemma ReceiveConserves(cfg: BatchConfig, s: Engine)
    requires Conserved(s) && s.channel != [] && Waiting(s)
    ensures Conserved(ReceiveStep(cfg, s))
  {
    hide FlushedItems;
    var t := ReceiveStep(cfg, s);
    var before := FlushedItems(s.flushes);
    var head, tail := [s.channel[0]], s.channel[1..];
    assert Pending(s) == [];
    assert Pending(t) + t.buffer == s.buffer + head && t.channel == tail;
    assert s.channel == head + tail;
    hide Pending, ReceiveStep;
    assert s.accepted == before + s.buffer + s.channel;
    assert before + Pending(t) + t.buffer == before + (Pending(t) + t.buffer);
    assert before + (s.buffer + head) + tail == before + s.buffer + (head + tail);
  }

  lemma DrainConserves(s: Engine, leaving: bool)
    requires Conserved(s) && s.inflight.None?
    ensures Conserved(Drain(s, leaving))
  {
    hide FlushedItems;
    var before := FlushedItems(s.flushes);
    assert before + [] == before && before + s.buffer + [] == before + s.buffer;
  }

  lemma LeaveConserves(s: Engine)
    requires Conserved(s) && s.inflight.None?
    ensures Conserved(Leave(s))
  {
    if s.buffer != [] {
      hide Conserved, Drain;
      DrainConserves(s, true);
    } else {
      hide FlushedItems;
    }
  }

  lemma SettleConserves(cfg: BatchConfig, s: Engine, e: Event)
    requires Conserved(s) && s.inflight.Some? && (e.FlushOk? || e.FlushFailed?)
    ensures Conserved(Next(cfg, s, e))
  {
    hide FlushedItems;
    FlushedSnoc(s.flushes, Flush(s.inflight.value, e.landed, e.FlushOk?));
    var t := Next(cfg, s, e);
    assert FlushedItems(t.flushes) == FlushedItems(s.flushes) + Pending(s) && Pending(t) == [];
  }

  lemma StepConserves(cfg: BatchConfig, s: Engine, e: Event)
    requires Conserved(s)
    ensures Conserved(Next(cfg, s, e))
  {
    match e {
      case Subscribe(writable) =>
        if !s.subscriberDone && s.stream != [] {
          hide SubscribeStep, Conserved;
          SubscribeConserves(cfg, s, writable);
        }
      case Receive =>
        if Waiting(s) && s.channel != [] {
          hide ReceiveStep, Conserved;
          ReceiveConserves(cfg, s);
        }
      case FlushOk(_) =>
        if s.inflight.Some? {
          hide Conserved;
          SettleConserves(cfg, s, e);
        }
      case FlushFailed(_) =>
        if s.inflight.Some? {
          hide Conserved;
          SettleConserves(cfg, s, e);
        }
      case Tick =>
        if Waiting(s) {
          hide Conserved, Drain;
          DrainConserves(s, false);
        }
      case Closed =>
        if Waiting(s) {
          hide Conserved, Leave;
          LeaveConserves(s);
        }
      case AnchorerStops =>
        if Waiting(s) {
          hide Conserved, Leave;
          LeaveConserves(s);
        }
      case StreamEnd =>
        hide FlushedItems;
      case SubscriberStops =>
        hide FlushedItems;
      case SignalShutdown =>
        hide FlushedItems;
    }
  }

  /** At every reachable state, whatever the interleaving, the failures and the shutdowns: accepted items are the
      flushed batches, the batch in flight, the buffer and the channel, in that order. */
  lemma {:induction false} Conservation(cfg: BatchConfig, stream: seq<StreamItem>, file: Bytes, events: seq<Event>)
    requires cfg.batch_size >= 1
    ensures Inv(cfg, Run(cfg, Start(stream, file), events))
  {
    hide Next, Conserved, Shape;
    if events == [] {
      StartInv(cfg, stream, file);
    } else {
      var before, last := Run(cfg, Start(stream, file), events[..|events| - 1]), events[|events| - 1];
      Conservation(cfg, stream, file, events[..|events| - 1]);
      StepConserves(cfg, before, last);
      StepKeepsShape(cfg, before, last);
    }
  }

  lemma StartInv(cfg: BatchConfig, stream: seq<StreamItem>, file: Bytes)
    requires cfg.batch_size >= 1
    ensures Inv(cfg, Start(stream, file))
  {
    hide Load;
  }

  // ---- what is accepted ----

  /** Item `k` was received, its envelope is not in the ledger and did not occur earlier in the stream. */
  ghost predicate FirstOccurrence(cfg: BatchConfig, seen: set<Bytes>, items: seq<StreamItem>, k: nat)
    requires k < |items|
  {
    && items[k].Received?
    && EnvelopeHash(cfg.sha, items[k].envelope) !in seen
    && forall j :: 0 <= j < k && items[j].Received? ==>
         EnvelopeHash(cfg.sha, items[j].envelope) != EnvelopeHash(cfg.sha, items[k].envelope)
  }

  /** The first occurrences that parse, in stream order. */
  ghost function Wanted(cfg: BatchConfig, seen: set<Bytes>, items: seq<StreamItem>): (r: seq<Item>) {
    if items == [] then []
    else
      var n := |items| - 1;
      Wanted(cfg, seen, items[..n])
      + (if FirstOccurrence(cfg, seen, items, n) && ParseEnvelope(cfg, items[n].envelope).Some?
         then [ParseEnvelope(cfg, items[n].envelope).value] else [])
  }

  function StreamHashes(cfg: BatchConfig, items: seq<StreamItem>): (r: set<Bytes>) {
    set k | 0 <= k < |items| && items[k].Received? :: EnvelopeHash(cfg.sha, items[k].envelope)
  }

  function ItemsOf(fates: seq<Fated>): (r: seq<Item>)
    ensures |r| == |fates| && forall i :: 0 <= i < |fates| ==> r[i] == fates[i].item
  {
    seq(|fates|, i requires 0 <= i < |fates| => fates[i].item)
  }

  function SentOf(fates: seq<Fated>): (r: seq<Item>) {
    if fates == [] then []
    else SentOf(fates[..|fates| - 1]) + (if fates[|fates| - 1].fate == Sent then [fates[|fates| - 1].item] else [])
  }

  /** `a` is what is left of `b` after leaving some elements out. */
  ghost predicate Subsequence<T(!new)>(a: seq<T>, b: seq<T>) {
    if a == [] then true
    else if b == [] then false
    else (a[|a| - 1] == b[|b| - 1] && Subsequence(a[..|a| - 1], b[..|b| - 1])) || Subsequence(a, b[..|b| - 1])
  }

  lemma {:induction false} SentIsSubsequence(fates: seq<Fated>)
    ensures Subsequence(SentOf(fates), ItemsOf(fates))
  {
    if fates == [] {
    } else {
      var prior, last := fates[..|fates| - 1], fates[|fates| - 1];
      SentIsSubsequence(prior);
      assert ItemsOf(fates)[..|fates| - 1] == ItemsOf(prior);
      if last.fate == Sent {
        assert SentOf(fates)[..|SentOf(fates)| - 1] == SentOf(prior);
      } else {
        assert SentOf(fates) == SentOf(prior);
      }
    }
  }

  lemma FatesAppend(fates: seq<Fated>, more: seq<Fated>)
    requires |more| <= 1
    ensures ItemsOf(fates + more) == ItemsOf(fates) + ItemsOf(more)
    ensures SentOf(fates + more) == SentOf(fates) + SentOf(more)
  {
    if more == [] {
      assert fates + more == fates;
    } else {
      assert (fates + more)[..|fates|] == fates;
      assert more[..0] == [];
    }
  }

  /** The fate a subscriber step adds. */
  function NewFates(cfg: BatchConfig, s: Engine, writable: bool): (r: seq<Fated>)
    requires s.stream != []
    ensures |r| <= 1
  {
    var item := s.stream[0];
    if item.ReceiveError? || EnvelopeHash(cfg.sha, item.envelope) in s.seen then []
    else
      Note(ParseEnvelope(cfg, item.envelope), EnvelopeHash(cfg.sha, item.envelope),
           if !writable then Unwritten else if s.phase == Failed then Orphaned else Sent)
  }

  lemma SubscribeEffects(cfg: BatchConfig, s: Engine, writable: bool)
    requires s.stream != []
    ensures var t, item, more := SubscribeStep(cfg, s, writable), s.stream[0], NewFates(cfg, s, writable);
            && t.taken == s.taken + [item] && t.stream == s.stream[1..]
            && t.seen == s.seen + (if item.Received? then {EnvelopeHash(cfg.sha, item.envelope)} else {})
            && t.fates == s.fates + more && t.accepted == s.accepted + SentOf(more)
            && t.phase == s.phase
            && (t.subscriberDone <==> s.subscriberDone || (more != [] && more[0].fate == Orphaned))
            && ItemsOf(more) == (if item.Received? && EnvelopeHash(cfg.sha, item.envelope) !in s.seen && ParseEnvelope(cfg, item.envelope).Some?
                                 then [ParseEnvelope(cfg, item.envelope).value] else [])
  {
    hide EnvelopeHash, ParseEnvelope;
    var more := NewFates(cfg, s, writable);
    if more != [] {
      assert more[..0] == [];
    }
  }

  /** Taking one stream item adds its hash, and its item if this is a first occurrence that parses. */
  lemma TakeOne(cfg: BatchConfig, seen: set<Bytes>, taken: seq<StreamItem>, item: StreamItem)
    ensures StreamHashes(cfg, taken + [item])
         == StreamHashes(cfg, taken) + (if item.Received? then {EnvelopeHash(cfg.sha, item.envelope)} else {})
    ensures Wanted(cfg, seen, taken + [item])
         == Wanted(cfg, seen, taken)
            + (if item.Received? && EnvelopeHash(cfg.sha, item.envelope) !in seen + StreamHashes(cfg, taken)
                  && ParseEnvelope(cfg, item.envelope).Some?
               then [ParseEnvelope(cfg, item.envelope).value] else [])
  {
    hide EnvelopeHash, ParseEnvelope;
    var all := taken + [item];
    assert all[..|taken|] == taken;
    assert forall j :: 0 <= j < |taken| ==> all[j] == taken[j];
    assert StreamHashes(cfg, all) == StreamHashes(cfg, taken) + (if item.Received? then {EnvelopeHash(cfg.sha, item.envelope)} else {}) by {
      assert all[|taken|] == item;
    }
  }

  /** The fates are exactly the wanted items of what was taken, in order; the accepted items are the sent ones; an orphan
      can only be the last, after a failure that also ended the subscriber. */
  ghost predicate Accounted(cfg: BatchConfig, stream: seq<StreamItem>, file: Bytes, s: Engine) {
    && s.taken + s.stream == stream
    && s.seen == Load(file) + StreamHashes(cfg, s.taken)
    && ItemsOf(s.fates) == Wanted(cfg, Load(file), s.taken)
    && s.accepted == SentOf(s.fates)
    && OrphansLast(s)
  }

  ghost predicate OrphansLast(s: Engine) {
    forall i :: 0 <= i < |s.fates| && s.fates[i].fate == Orphaned ==> i == |s.fates| - 1 && s.phase == Failed && s.subscriberDone
  }

  lemma SubscribeAccounts(cfg: BatchConfig, stream: seq<StreamItem>, file: Bytes, s: Engine, writable: bool)
    requires Accounted(cfg, stream, file, s) && !s.subscriberDone && s.stream != []
    ensures Accounted(cfg, stream, file, SubscribeStep(cfg, s, writable))
  {
    hide EnvelopeHash, ParseEnvelope, StreamHashes, Wanted, Load, ItemsOf, SentOf, NewFates, SubscribeStep, OrphansLast;
    var item, t, more := s.stream[0], SubscribeStep(cfg, s, writable), NewFates(cfg, s, writable);
    SubscribeEffects(cfg, s, writable);
    TakeOne(cfg, Load(file), s.taken, item);
    FatesAppend(s.fates, more);
    OrphanAdded(cfg, s, writable);
    assert s.stream == [item] + s.stream[1..];
    Concat3(s.taken, [item], s.stream[1..]);
  }

  lemma OrphanAdded(cfg: BatchConfig, s: Engine, writable: bool)
    requires OrphansLast(s) && !s.subscriberDone && s.stream != []
    ensures OrphansLast(SubscribeStep(cfg, s, writable))
  {
    hide EnvelopeHash, ParseEnvelope;
  }

  lemma OthersAccountNothing(cfg: BatchConfig, s: Engine, e: Event)
    requires !e.Subscribe?
    ensures var t := Next(cfg, s, e);
            && t.taken == s.taken && t.stream == s.stream && t.seen == s.seen && t.file == s.file && t.lines == s.lines
            && t.fates == s.fates && t.accepted == s.accepted
            && (s.subscriberDone ==> t.subscriberDone)
            && (s.phase == Failed ==> t.phase == Failed || s.inflight.Some?)
  {
  }

  lemma StepAccounts(cfg: BatchConfig, stream: seq<StreamItem>, file: Bytes, s: Engine, e: Event)
    requires cfg.batch_size >= 1 && Accounted(cfg, stream, file, s) && Shape(cfg, s)
    ensures Accounted(cfg, stream, file, Next(cfg, s, e))
  {
    hide ItemsOf, SentOf, Wanted, StreamHashes, Load, FlushesShape;
    if e.Subscribe? {
      if !s.subscriberDone && s.stream != [] {
        hide Accounted, SubscribeStep;
        SubscribeAccounts(cfg, stream, file, s, e.writable);
      }
    } else {
      OthersAccountNothing(cfg, s, e);
      hide Next;
    }
  }

  lemma {:induction false} RunAccounts(cfg: BatchConfig, stream: seq<StreamItem>, file: Bytes, events: seq<Event>)
    requires cfg.batch_size >= 1
    ensures Accounted(cfg, stream, file, Run(cfg, Start(stream, file), events))
  {
    hide Accounted, Next, Shape, Conserved;
    if events == [] {
      StartAccounts(cfg, stream, file);
    } else {
      var prior := events[..|events| - 1];
      RunAccounts(cfg, stream, file, prior);
      Conservation(cfg, stream, file, prior);
      StepAccounts(cfg, stream, file, Run(cfg, Start(stream, file), prior), events[|events| - 1]);
    }
  }

  lemma StartAccounts(cfg: BatchConfig, stream: seq<StreamItem>, file: Bytes)
    ensures Accounted(cfg, stream, file, Start(stream, file))
  {
    hide Load;
    assert StreamHashes(cfg, []) == {};
    assert [] + stream == stream;
  }

  /** In every run, with failures and shutdowns: what is accepted is a subsequence of the wanted items of what was taken;
      missing are exactly the items whose ledger line could not be written, and at most one more, the last, taken after
      a failed flush. */
  lemma AcceptedInOrder(cfg: BatchConfig, stream: seq<StreamItem>, file: Bytes, events: seq<Event>)
    requires cfg.batch_size >= 1
    ensures var s := Run(cfg, Start(stream, file), events);
            && s.taken + s.stream == stream
            && ItemsOf(s.fates) == Wanted(cfg, Load(file), s.taken)
            && s.accepted == SentOf(s.fates) && Subsequence(s.accepted, Wanted(cfg, Load(file), s.taken))
            && (forall i :: 0 <= i < |s.fates| && s.fates[i].fate == Orphaned ==> i == |s.fates| - 1 && s.phase == Failed)
  {
    hide Run, Load, Wanted, Subsequence, SentOf, ItemsOf, StreamHashes;
    RunAccounts(cfg, stream, file, events);
    SentIsSubsequence(Run(cfg, Start(stream, file), events).fates);
  }

  /** The items of the flushes that were reported anchored. */
  function AnchoredItems(fs: seq<Flush>): (r: seq<Item>) {
    if fs == [] then []
    else AnchoredItems(fs[..|fs| - 1]) + (if fs[|fs| - 1].ok then fs[|fs| - 1].batch else [])
  }

  lemma {:induction false} AllOk(fs: seq<Flush>)
    requires forall i :: 0 <= i < |fs| ==> fs[i].ok
    ensures AnchoredItems(fs) == FlushedItems(fs)
  {
    if fs == [] {
    } else {
      AllOk(fs[..|fs| - 1]);
    }
  }

  /** A loop that ended well leaves only the channel behind. One that failed leaves its last batch, of which any number
      of attempts may have landed all the same, and the channel. */
  lemma WhatIsLeftBehind(cfg: BatchConfig, stream: seq<StreamItem>, file: Bytes, events: seq<Event>)
    requires cfg.batch_size >= 1
    ensures var s := Run(cfg, Start(stream, file), events);
            && (s.phase == Done ==> s.accepted == AnchoredItems(s.flushes) + s.channel)
            && (s.phase == Failed ==>
                  && s.flushes != [] && !s.flushes[|s.flushes| - 1].ok && s.flushes[|s.flushes| - 1].batch != []
                  && s.accepted == AnchoredItems(s.flushes) + s.flushes[|s.flushes| - 1].batch + s.channel)
            && (s.phase == Running ==> s.accepted == AnchoredItems(s.flushes) + Pending(s) + s.buffer + s.channel)
  {
    hide Run;
    Conservation(cfg, stream, file, events);
    var s := Run(cfg, Start(stream, file), events);
    if s.phase == Failed {
      var prior := s.flushes[..|s.flushes| - 1];
      hide Conserved;
      AllOk(prior);
      assert AnchoredItems(s.flushes) == AnchoredItems(prior) + [] == FlushedItems(prior);
      LeftBehind(s);
    } else {
      AllOk(s.flushes);
      hide FlushedItems, AnchoredItems;
      assert FlushedItems(s.flushes) + [] + [] == FlushedItems(s.flushes);
    }
  }

  lemma LeftBehind(s: Engine)
    requires Conserved(s) && s.inflight.None? && s.buffer == [] && s.flushes != []
    ensures s.accepted == FlushedItems(s.flushes[..|s.flushes| - 1]) + s.flushes[|s.flushes| - 1].batch + s.channel
  {
    assert FlushedItems(s.flushes) + [] + [] == FlushedItems(s.flushes);
  }

  // ---- shutdown, and the end of the subscriber ----

  /** A batch, or none if there is nothing to flush. */
  function BatchOf(items: seq<Item>, landed: seq<U64>): (r: seq<Flush>) {
    if items == [] then [] else [Flush(items, landed, true)]
  }

  lemma RunThree(cfg: BatchConfig, s: Engine, a: Event, b: Event, c: Event)
    ensures Run(cfg, s, [a, b, c]) == Next(cfg, Next(cfg, Next(cfg, s, a), b), c)
    ensures Run(cfg, s, [a, b]) == Next(cfg, Next(cfg, s, a), b)
  {
    hide Next, Run;
    RunSnoc(cfg, s, [], a);
    RunSnoc(cfg, s, [a], b);
    RunSnoc(cfg, s, [a, b], c);
    assert [] + [a] == [a] && [a] + [b] == [a, b] && [a, b] + [c] == [a, b, c];
  }

  /** From every reachable state that runs and has seen the shutdown signal: what is in flight settles, the buffer is
      flushed at once as one batch, and the loop is done; the channel is left as it is, and nothing is taken. */
  lemma ShutdownFlushes(cfg: BatchConfig, stream: seq<StreamItem>, file: Bytes, events: seq<Event>, first: seq<U64>, last: seq<U64>)
    requires cfg.batch_size >= 1
    requires var s := Run(cfg, Start(stream, file), events); s.phase == Running && s.shutdown
    ensures var s := Run(cfg, Start(stream, file), events);
            var t := Run(cfg, s, [FlushOk(first), AnchorerStops, FlushOk(last)]);
            && t.phase == Done && t.buffer == [] && t.inflight == None
            && t.flushes == s.flushes + BatchOf(Pending(s), first) + BatchOf(s.buffer, last)
            && t.channel == s.channel && t.taken == s.taken && t.accepted == s.accepted
  {
    hide Run, Conserved, FlushesShape;
    var s := Run(cfg, Start(stream, file), events);
    Conservation(cfg, stream, file, events);
    RunThree(cfg, s, FlushOk(first), AnchorerStops, FlushOk(last));
    LeavingBatches(cfg, stream, file, events);
  }

  /** A flush in flight is either inside the loop, with nothing else buffered, or the last one, after which the loop ends. */
  ghost predicate LeavingOk(s: Engine) {
    (s.inflight.Some? ==> s.buffer == [] && s.inflight.value != []) && (s.inflight.None? && s.phase == Running ==> !s.leaving)
  }

  lemma LeavingStep(cfg: BatchConfig, s: Engine, e: Event)
    requires LeavingOk(s)
    ensures LeavingOk(Next(cfg, s, e))
  {
    hide SubscribeStep;
    if e.Subscribe? && s.stream != [] {
      SubscribeLeavesAnchorer(cfg, s, e.writable);
    }
  }

  lemma {:induction false} LeavingBatches(cfg: BatchConfig, stream: seq<StreamItem>, file: Bytes, events: seq<Event>)
    ensures LeavingOk(Run(cfg, Start(stream, file), events))
  {
    hide Load;
    if events == [] {
    } else {
      hide Next, LeavingOk;
      LeavingBatches(cfg, stream, file, events[..|events| - 1]);
      LeavingStep(cfg, Run(cfg, Start(stream, file), events[..|events| - 1]), events[|events| - 1]);
    }
  }

  lemma SubscribeLeavesAnchorer(cfg: BatchConfig, s: Engine, writable: bool)
    requires s.stream != []
    ensures var t := SubscribeStep(cfg, s, writable);
            && t.inflight == s.inflight && t.buffer == s.buffer && t.leaving == s.leaving && t.phase == s.phase
            && t.flushes == s.flushes && t.shutdown == s.shutdown
  {
    hide EnvelopeHash, ParseEnvelope;
  }

  /** In particular, with nothing in flight: one step of the anchorer, and its flush. */
  lemma ShutdownFlushesBuffer(cfg: BatchConfig, stream: seq<StreamItem>, file: Bytes, events: seq<Event>, landed: seq<U64>)
    requires cfg.batch_size >= 1
    requires var s := Run(cfg, Start(stream, file), events); s.phase == Running && s.inflight.None? && s.shutdown
    ensures var s := Run(cfg, Start(stream, file), events);
            var t := Run(cfg, s, [AnchorerStops, FlushOk(landed)]);
            && t.phase == Done && t.flushes == s.flushes + BatchOf(s.buffer, landed)
            && t.channel == s.channel && t.accepted == FlushedItems(t.flushes) + t.channel
  {
    hide Run, FlushedItems, FlushesShape;
    var s := Run(cfg, Start(stream, file), events);
    Conservation(cfg, stream, file, events);
    RunThree(cfg, s, AnchorerStops, FlushOk(landed), Tick);
    LeavingBatches(cfg, stream, file, events);
    FlushedSnoc(s.flushes, Flush(s.buffer, landed, true));
    assert FlushedItems(s.flushes) + [] + s.buffer == FlushedItems(s.flushes) + s.buffer;
    assert s.flushes + [] == s.flushes && FlushedItems(s.flushes) + [] == FlushedItems(s.flushes);
  }

  /** Everything the subscriber has a hand in. */
  ghost predicate SameIntake(s: Engine, t: Engine) {
    && t.stream == s.stream && t.taken == s.taken && t.seen == s.seen && t.file == s.file && t.lines == s.lines
    && t.fates == s.fates && t.accepted == s.accepted
  }

  /** Once the subscriber has ended, no later event takes, remembers or accepts anything. */
  lemma {:induction false} EndedTakesNothing(cfg: BatchConfig, s: Engine, events: seq<Event>)
    requires s.subscriberDone
    ensures var t := Run(cfg, s, events); t.subscriberDone && SameIntake(s, t)
  {
    if events == [] {
    } else {
      hide Next;
      var mid, e := Run(cfg, s, events[..|events| - 1]), events[|events| - 1];
      EndedTakesNothing(cfg, s, events[..|events| - 1]);
      if e.Subscribe? {
        assert Next(cfg, mid, e) == mid by {
          EndedIgnores(cfg, mid, e);
        }
      } else {
        OthersAccountNothing(cfg, mid, e);
      }
    }
  }

  lemma EndedIgnores(cfg: BatchConfig, s: Engine, e: Event)
    requires s.subscriberDone && e.Subscribe?
    ensures Next(cfg, s, e) == s
  {
  }

  /** The signal ends the subscriber at its next look, whatever is left of the stream, and from then on it takes nothing. */
  lemma ShutdownEndsIntake(cfg: BatchConfig, s: Engine, events: seq<Event>)
    ensures SameIntake(s, Run(cfg, Run(cfg, s, [SignalShutdown, SubscriberStops]), events))
  {
    hide Run, SameIntake;
    RunThree(cfg, s, SignalShutdown, SubscriberStops, Tick);
    var t := Run(cfg, s, [SignalShutdown, SubscriberStops]);
    EndedTakesNothing(cfg, t, events);
    assert SameIntake(s, t) by {
      SignalTakesNothing(cfg, s);
    }
    IntakeTwice(s, t, Run(cfg, t, events));
  }

  lemma SignalTakesNothing(cfg: BatchConfig, s: Engine)
    ensures SameIntake(s, Next(cfg, Next(cfg, s, SignalShutdown), SubscriberStops))
  {
  }

  lemma IntakeTwice(a: Engine, b: Engine, c: Engine)
    requires SameIntake(a, b) && SameIntake(b, c)
    ensures SameIntake(a, c)
  {
  }

  /** What the subscriber does with an envelope, whatever the anchorer is doing. A known hash changes nothing. A new one is
      remembered in memory at once, and in the file as a line of its own, even if the envelope is then refused; its item
      goes to the end of the channel, unless the anchorer has failed, which ends the subscriber. */
  lemma EnvelopeTaken(cfg: BatchConfig, s: Engine, writable: bool)
    requires !s.subscriberDone && s.stream != [] && s.stream[0].Received?
    ensures var e, t := s.stream[0].envelope, Next(cfg, s, Subscribe(writable));
            var h, parsed, known := EnvelopeHash(cfg.sha, e), ParseEnvelope(cfg, e), EnvelopeHash(cfg.sha, e) in s.seen;
            && t.stream == s.stream[1..] && t.seen == s.seen + {h}
            && t.file == s.file + (if known || !writable then [] else h + [0x0A])
            && (t.channel == if known || !writable || parsed.None? || s.phase == Failed then s.channel else s.channel + [parsed.value])
            && (t.subscriberDone <==> !known && writable && parsed.Some? && s.phase == Failed)
            && t.buffer == s.buffer && t.inflight == s.inflight && t.flushes == s.flushes && t.phase == s.phase
  {
    hide EnvelopeHash, ParseEnvelope;
    var h := EnvelopeHash(cfg.sha, s.stream[0].envelope);
    assert s.file + h + [NEWLINE] == s.file + (h + [0x0A]);
    assert s.file + [] == s.file;
  }

  /** What parsing accepts, and the item it gives. */
  lemma ParsedExactly(cfg: BatchConfig, e: ReceivedEnvelope, x: Item)
    ensures ParseEnvelope(cfg, e) == Some(x) <==>
              && e.topic == cfg.topic
              && exists m :: Parse(e.payload) == Some(m) && x == Item(m.cid, cfg.sha(CanonicalJsonBytes(m)))
  {
    hide Parse, CanonicalJsonBytes;
  }

  // ---- what the ledger file remembers ----

  /** What a file that held `file` and then got these lines loads to; an unterminated last line swallows the first. */
  function LedgerOf(file: Bytes, lines: seq<Bytes>): (r: set<Bytes>) {
    if lines == [] then Load(file)
    else Load(Terminated(file)) + {TrimStart(Unterminated(file)) + lines[0]} + Elements(lines[1..])
  }

  predicate Swallowed(file: Bytes, lines: seq<Bytes>, h: Bytes) {
    HasDanglingLine(file) && lines != [] && lines[0] == h
  }

  /** `now`, which was `file` before these lines were written, loads to what they say. */
  ghost predicate FileFollows(file: Bytes, now: Bytes, lines: seq<Bytes>) {
    && Load(now) == LedgerOf(file, lines)
    && (lines != [] ==> !HasDanglingLine(now))
    && (lines == [] ==> now == file)
  }

  ghost predicate NewHash(file: Bytes, s: Engine, h: Bytes) {
    h in s.seen && |h| == 64 && h !in Load(file)
  }

  /** The lines are new hashes, among them those of the fates that were written; the others did not parse. */
  ghost predicate LinesFollow(file: Bytes, s: Engine) {
    && Load(file) <= s.seen
    && (forall h :: h in s.lines ==> NewHash(file, s, h))
    && (s.lines != [] ==> s.lines[0] !in s.lines[1..])
    && (forall f :: f in s.fates ==> NewHash(file, s, f.hash) && (f.hash in s.lines <==> f.fate != Unwritten))
  }

  lemma LedgerGrows(file: Bytes, now: Bytes, lines: seq<Bytes>, h: Bytes)
    requires FileFollows(file, now, lines) && h != [] && Hex.IsHex(h) && h !in Load(now)
    ensures FileFollows(file, now + h + [NEWLINE], lines + [h])
  {
    WrittenFileHasNoDanglingLine(now, h);
    LedgerSnoc(file, lines, h);
    if lines == [] {
      LoadAfterWrite(file, h);
    } else {
      ReloadAfterNew(now, h);
    }
    hide Load, HasDanglingLine, Hex.IsHex, LedgerOf;
  }

  lemma LedgerSnoc(file: Bytes, lines: seq<Bytes>, h: Bytes)
    ensures lines != [] ==> LedgerOf(file, lines + [h]) == LedgerOf(file, lines) + {h}
    ensures lines == [] ==> LedgerOf(file, lines + [h]) == Load(Terminated(file)) + {TrimStart(Unterminated(file)) + h}
  {
    hide Load, Terminated, Unterminated, TrimStart;
    if lines == [] {
      assert (lines + [h])[1..] == [];
    } else {
      assert (lines + [h])[1..] == lines[1..] + [h];
    }
  }

  /** Completing a text to one of the same length adds nothing. */
  lemma SameLength(p: Bytes, h: Bytes, line: Bytes)
    requires |h| == |line| && p + line == h
    ensures p == [] && h == line
  {
  }

  /** A hash not yet seen is absent from the file. */
  lemma UnseenIsUnloaded(file: Bytes, s: Engine, h: Bytes)
    requires FileFollows(file, s.file, s.lines) && LinesFollow(file, s) && h !in s.seen && |h| == 64
    ensures h !in Load(s.file)
  {
    hide Load, Terminated, Unterminated, TrimStart, HasDanglingLine, Trim;
    LoadOfText(file);
    if s.lines != [] {
      var first, p := s.lines[0], TrimStart(Unterminated(file));
      assert NewHash(file, s, first);
      assert forall x :: x in s.lines[1..] ==> x in s.lines;
      assert p + first != h by {
        if p + first == h {
          SameLength(p, h, first);
        }
      }
    }
  }

  lemma WriteFollows(file: Bytes, u: Engine, h: Bytes, parsed: Option<Item>, writable: bool)
    requires FileFollows(file, u.file, u.lines) && h != [] && Hex.IsHex(h) && h !in Load(u.file)
    ensures var t := Ingested(u, h, parsed, writable); FileFollows(file, t.file, t.lines)
  {
    LedgerGrows(file, u.file, u.lines, h);
    hide FileFollows, Load, Hex.IsHex;
  }

  lemma FatesFollow(file: Bytes, s: Engine, u: Engine, h: Bytes, parsed: Option<Item>, writable: bool)
    requires LinesFollow(file, s) && u.lines == s.lines && u.fates == s.fates && u.seen == s.seen + {h}
    requires h !in s.seen && |h| == 64
    ensures LinesFollow(file, Ingested(u, h, parsed, writable))
  {
    hide Load;
    var t := Ingested(u, h, parsed, writable);
    assert forall x :: NewHash(file, s, x) ==> NewHash(file, t, x) && x != h;
    assert NewHash(file, t, h);
    if writable {
      assert t.lines == s.lines + [h];
      assert s.lines != [] ==> t.lines[1..] == s.lines[1..] + [h] && s.lines[0] in s.lines;
    }
    assert forall f :: f in t.fates ==> f in s.fates || (f.hash == h && (f.fate == Unwritten <==> !writable));
  }

  lemma SubscribeFollows(cfg: BatchConfig, file: Bytes, s: Engine, writable: bool)
    requires FileFollows(file, s.file, s.lines) && LinesFollow(file, s) && s.stream != []
    ensures var t := SubscribeStep(cfg, s, writable); FileFollows(file, t.file, t.lines) && LinesFollow(file, t)
  {
    hide Load, LedgerOf, HasDanglingLine, EnvelopeHash, ParseEnvelope, Hex.IsHex, Ingested;
    var item := s.stream[0];
    var t := s.(stream := s.stream[1..], taken := s.taken + [item]);
    if item.Received? {
      var h := EnvelopeHash(cfg.sha, item.envelope);
      if h !in s.seen {
        UnseenIsUnloaded(file, s, h);
        hide FileFollows, LinesFollow;
        WriteFollows(file, t.(seen := s.seen + {h}), h, ParseEnvelope(cfg, item.envelope), writable);
        FatesFollow(file, s, t.(seen := s.seen + {h}), h, ParseEnvelope(cfg, item.envelope), writable);
      }
    }
  }

  lemma StepFollows(cfg: BatchConfig, file: Bytes, s: Engine, e: Event)
    requires FileFollows(file, s.file, s.lines) && LinesFollow(file, s)
    ensures FileFollows(file, Next(cfg, s, e).file, Next(cfg, s, e).lines) && LinesFollow(file, Next(cfg, s, e))
  {
    hide SubscribeStep, Load, LedgerOf, HasDanglingLine;
    if e.Subscribe? {
      hide FileFollows, LinesFollow;
      if !s.subscriberDone && s.stream != [] {
        SubscribeFollows(cfg, file, s, e.writable);
      }
    } else {
      OthersAccountNothing(cfg, s, e);
      hide Next;
    }
  }

  lemma {:induction false} RunFollows(cfg: BatchConfig, stream: seq<StreamItem>, file: Bytes, events: seq<Event>)
    ensures var s := Run(cfg, Start(stream, file), events); FileFollows(file, s.file, s.lines) && LinesFollow(file, s)
  {
    hide Next, Load;
    if events == [] {
    } else {
      hide FileFollows, LinesFollow;
      RunFollows(cfg, stream, file, events[..|events| - 1]);
      StepFollows(cfg, file, Run(cfg, Start(stream, file), events[..|events| - 1]), events[|events| - 1]);
    }
  }

  /** In every run, on any ledger file: the file remembers an item taken for the first time unless its line could not be
      written, or was glued to an unterminated last line. */
  lemma RememberedExactly(cfg: BatchConfig, stream: seq<StreamItem>, file: Bytes, events: seq<Event>, f: Fated)
    requires f in Run(cfg, Start(stream, file), events).fates
    ensures var s := Run(cfg, Start(stream, file), events);
            f.hash in Load(s.file) <==> f.fate != Unwritten && !Swallowed(file, s.lines, f.hash)
  {
    hide Run, Load, Terminated, Unterminated, TrimStart, Trim;
    var s := Run(cfg, Start(stream, file), events);
    RunFollows(cfg, stream, file, events);
    LoadOfText(file);
    TrimStartEmpty(Unterminated(file));
    assert NewHash(file, s, f.hash);
    if s.lines != [] {
      assert NewHash(file, s, s.lines[0]);
      LineLoaded(file, s.lines, f.hash);
    }
  }

  lemma LineLoaded(file: Bytes, lines: seq<Bytes>, h: Bytes)
    requires lines != [] && |h| == |lines[0]| && h !in Load(Terminated(file)) && lines[0] !in lines[1..]
    requires Trim(Unterminated(file)) == [] <==> TrimStart(Unterminated(file)) == []
    ensures h in LedgerOf(file, lines) <==> h in lines && !Swallowed(file, lines, h)
  {
    hide Load, Terminated, Unterminated, TrimStart, Trim;
    var p := TrimStart(Unterminated(file));
    assert lines == [lines[0]] + lines[1..];
    if p + lines[0] == h {
      SameLength(p, h, lines[0]);
    }
    assert p == [] ==> p + lines[0] == lines[0];
  }

  // ---- where the fates come from ----

  /** Stream item `k` is an envelope on the engine's topic whose payload reads as an envelope with this CID; the metadata
      hash is the hash of that envelope's canonical bytes, and the ledger hash that of topic and payload. */
  ghost predicate DerivedFrom(cfg: BatchConfig, items: seq<StreamItem>, k: nat, f: Fated) {
    && k < |items| && items[k].Received? && items[k].envelope.topic == cfg.topic
    && f.hash == EnvelopeHash(cfg.sha, items[k].envelope)
    && var e := Parse(items[k].envelope.payload);
       e.Some? && f.item == Item(e.value.cid, cfg.sha(CanonicalJsonBytes(e.value)))
  }

  ghost predicate HasOrigin(cfg: BatchConfig, items: seq<StreamItem>, f: Fated) {
    exists k: nat :: DerivedFrom(cfg, items, k, f)
  }

  lemma OriginStays(cfg: BatchConfig, items: seq<StreamItem>, more: seq<StreamItem>, f: Fated)
    requires HasOrigin(cfg, items, f)
    ensures HasOrigin(cfg, items + more, f)
  {
    hide Parse, CanonicalJsonBytes, EnvelopeHash;
    var k: nat :| DerivedFrom(cfg, items, k, f);
    assert DerivedFrom(cfg, items + more, k, f);
  }

  lemma SubscribeOrigin(cfg: BatchConfig, s: Engine, writable: bool, f: Fated)
    requires s.stream != [] && f in NewFates(cfg, s, writable)
    ensures HasOrigin(cfg, s.taken + [s.stream[0]], f)
  {
    hide Parse, CanonicalJsonBytes, EnvelopeHash;
    assert DerivedFrom(cfg, s.taken + [s.stream[0]], |s.taken|, f);
  }

  /** In every run every fate, and so every accepted and every flushed item, comes from an envelope that was taken. */
  lemma {:induction false} NothingIsInvented(cfg: BatchConfig, stream: seq<StreamItem>, file: Bytes, events: seq<Event>, f: Fated)
    requires f in Run(cfg, Start(stream, file), events).fates
    ensures HasOrigin(cfg, Run(cfg, Start(stream, file), events).taken, f)
  {
    if events == [] {
    } else {
      hide HasOrigin, SubscribeStep, NewFates, Load;
      var prior, e := events[..|events| - 1], events[|events| - 1];
      var s := Run(cfg, Start(stream, file), prior);
      if f in s.fates {
        NothingIsInvented(cfg, stream, file, prior, f);
      }
      if e.Subscribe? && !s.subscriberDone && s.stream != [] {
        SubscribeEffects(cfg, s, e.writable);
        if f in s.fates {
          OriginStays(cfg, s.taken, [s.stream[0]], f);
        } else {
          SubscribeOrigin(cfg, s, e.writable, f);
        }
      } else if !e.Subscribe? {
        OthersAccountNothing(cfg, s, e);
      }
    }
  }

  // ---- clean runs ----

  /** No failing write, no failing flush, no shutdown. */
  predicate Clean(e: Event) {
    e != Subscribe(false) && !e.FlushFailed? && !e.SignalShutdown?
  }

  predicate CleanRun(events: seq<Event>) {
    forall i :: 0 <= i < |events| ==> Clean(events[i])
  }

  ghost predicate CleanInv(s: Engine) {
    && s.accepted == ItemsOf(s.fates)
    && !s.shutdown && s.phase != Failed
    && (s.subscriberDone ==> s.stream == [])
    && (s.leaving || s.phase == Done ==> s.subscriberDone && s.channel == [])
  }

  lemma CleanSubscribe(cfg: BatchConfig, s: Engine)
    requires CleanInv(s) && !s.subscriberDone && s.stream != []
    ensures CleanInv(SubscribeStep(cfg, s, true))
  {
    hide EnvelopeHash, ParseEnvelope, SentOf;
    var more := NewFates(cfg, s, true);
    SubscribeEffects(cfg, s, true);
    FatesAppend(s.fates, more);
    assert SentOf(more) == ItemsOf(more) by {
      OneSent(more);
    }
    hide ItemsOf;
  }

  lemma OneSent(more: seq<Fated>)
    requires |more| <= 1 && forall f :: f in more ==> f.fate == Sent
    ensures SentOf(more) == ItemsOf(more)
  {
    if more != [] {
      assert more[0] in more && more[..0] == [];
    }
  }

  lemma CleanStep(cfg: BatchConfig, s: Engine, e: Event)
    requires CleanInv(s) && Clean(e)
    ensures CleanInv(Next(cfg, s, e))
  {
    hide ItemsOf;
    if e.Subscribe? {
      hide CleanInv, SubscribeStep;
      if !s.subscriberDone && s.stream != [] {
        CleanSubscribe(cfg, s);
      }
    }
  }

  lemma {:induction false} RunKeepsClean(cfg: BatchConfig, stream: seq<StreamItem>, file: Bytes, events: seq<Event>)
    requires CleanRun(events)
    ensures CleanInv(Run(cfg, Start(stream, file), events))
  {
    hide Load;
    if events == [] {
    } else {
      hide Next, CleanInv;
      RunKeepsClean(cfg, stream, file, events[..|events| - 1]);
      CleanStep(cfg, Run(cfg, Start(stream, file), events[..|events| - 1]), events[|events| - 1]);
    }
  }

  /** A clean run that ends has flushed the wanted items, in stream order, and nothing else, and every flush was
      reported anchored. */
  lemma CleanRunResult(cfg: BatchConfig, stream: seq<StreamItem>, file: Bytes, events: seq<Event>)
    requires cfg.batch_size >= 1 && CleanRun(events) && Run(cfg, Start(stream, file), events).phase == Done
    ensures var s := Run(cfg, Start(stream, file), events);
            && FlushedItems(s.flushes) == Wanted(cfg, Load(file), stream)
            && forall i :: 0 <= i < |s.flushes| ==> s.flushes[i].ok && 1 <= |s.flushes[i].batch| <= cfg.batch_size
  {
    hide Run, Load, Wanted, StreamHashes, FlushedItems, ItemsOf, SentOf;
    Conservation(cfg, stream, file, events);
    RunKeepsClean(cfg, stream, file, events);
    RunAccounts(cfg, stream, file, events);
    var s := Run(cfg, Start(stream, file), events);
    assert FlushedItems(s.flushes) + [] + [] + [] == FlushedItems(s.flushes);
    assert s.taken + [] == s.taken;
  }

  /** Confluence: two clean runs to the end, with any interleavings, ticks and batch sizes, flush the same sequence. What
      that leaves in a registry is the subject of `Anchoring`. */
  lemma Confluence(cfg: BatchConfig, otherSize: nat, stream: seq<StreamItem>, file: Bytes, a: seq<Event>, b: seq<Event>)
    requires cfg.batch_size >= 1 && otherSize >= 1 && CleanRun(a) && CleanRun(b)
    requires Run(cfg, Start(stream, file), a).phase == Done
    requires Run(cfg.(batch_size := otherSize), Start(stream, file), b).phase == Done
    ensures FlushedItems(Run(cfg, Start(stream, file), a).flushes)
         == FlushedItems(Run(cfg.(batch_size := otherSize), Start(stream, file), b).flushes)
  {
    hide Run, FlushedItems, Load;
    var other := cfg.(batch_size := otherSize);
    CleanRunResult(cfg, stream, file, a);
    CleanRunResult(other, stream, file, b);
    WantedIgnoresBatchSize(cfg, other, Load(file), stream);
  }

  lemma {:induction false} WantedIgnoresBatchSize(a: BatchConfig, b: BatchConfig, seen: set<Bytes>, items: seq<StreamItem>)
    requires a.sha == b.sha && a.topic == b.topic
    ensures Wanted(a, seen, items) == Wanted(b, seen, items)
  {
    hide EnvelopeHash, Parse, MetadataHash;
    if items == [] {
    } else {
      WantedIgnoresBatchSize(a, b, seen, items[..|items| - 1]);
    }
  }

  // ---- termination ----

  function Measure(s: Engine): (n: nat) {
    4 * |s.stream| + 3 * |s.channel| + 2 * |s.buffer|
    + (if s.inflight.Some? then 1 else 0)
    + (if s.subscriberDone then 0 else 1) + (if s.phase == Running then 1 else 0) + (if s.shutdown then 0 else 1)
  }

  /** Every event that changes anything makes the measure smaller. */
  lemma StepsDecrease(cfg: BatchConfig, s: Engine, e: Event)
    ensures Next(cfg, s, e) != s ==> Measure(Next(cfg, s, e)) < Measure(s)
  {
    match e {
      case Subscribe(writable) =>
        if !s.subscriberDone && s.stream != [] {
          hide SubscribeStep, Measure;
          SubscribeDecreases(cfg, s, writable);
        }
      case Receive =>
        if Waiting(s) && s.channel != [] {
          hide ReceiveStep, Measure;
          ReceiveDecreases(cfg, s);
        }
      case _ =>
    }
  }

  lemma SubscribeDecreases(cfg: BatchConfig, s: Engine, writable: bool)
    requires s.stream != [] && !s.subscriberDone
    ensures Measure(SubscribeStep(cfg, s, writable)) < Measure(s)
  {
    hide ParseEnvelope, EnvelopeHash;
  }

  lemma ReceiveDecreases(cfg: BatchConfig, s: Engine)
    requires s.channel != [] && Waiting(s)
    ensures Measure(ReceiveStep(cfg, s)) < Measure(s)
  {
  }

  function Changes(cfg: BatchConfig, s: Engine, events: seq<Event>): (n: nat) {
    if events == [] then 0
    else
      var before := Run(cfg, s, events[..|events| - 1]);
      Changes(cfg, s, events[..|events| - 1]) + (if Next(cfg, before, events[|events| - 1]) == before then 0 else 1)
  }

  /** No run of any length makes more real steps than the initial measure. */
  lemma {:induction false} RunsAreFinite(cfg: BatchConfig, s: Engine, events: seq<Event>)
    ensures Changes(cfg, s, events) + Measure(Run(cfg, s, events)) <= Measure(s)
  {
    hide Next, Measure;
    if events == [] {
    } else {
      RunsAreFinite(cfg, s, events[..|events| - 1]);
      StepsDecrease(cfg, Run(cfg, s, events[..|events| - 1]), events[|events| - 1]);
    }
  }

  /** An event that is possible now while the loop runs. */
  function Possible(s: Engine): (e: Event)
    ensures Clean(e)
  {
    if s.inflight.Some? then FlushOk([0])
    else if s.channel != [] then Receive
    else if s.subscriberDone then Closed
    else if s.stream == [] then StreamEnd
    else Subscribe(true)
  }

  /** A running loop is never stuck. */
  lemma NeverStuck(cfg: BatchConfig, s: Engine)
    requires s.phase == Running
    ensures Next(cfg, s, Possible(s)) != s
  {
    hide ParseEnvelope, EnvelopeHash;
  }

  /** From any state, some clean continuation takes a running loop out of it. */
  lemma {:induction false} CanEnd(cfg: BatchConfig, s: Engine) returns (more: seq<Event>)
    ensures CleanRun(more) && Run(cfg, s, more).phase != Running
    decreases Measure(s)
  {
    hide Next, Measure;
    if s.phase != Running {
      more := [];
    } else {
      var e := Possible(s);
      NeverStuck(cfg, s);
      StepsDecrease(cfg, s, e);
      var rest := CanEnd(cfg, Next(cfg, s, e));
      more := [e] + rest;
      RunAppend(cfg, s, [e], rest);
      RunSnoc(cfg, s, [], e);
      assert [] + [e] == [e];
    }
  }

  /** Clean completion: any clean run, however it was interleaved so far, can only go on for boundedly many steps, is
      not stuck before it is done, and has an end. */
  lemma CleanCompletion(cfg: BatchConfig, stream: seq<StreamItem>, file: Bytes, events: seq<Event>)
    returns (more: seq<Event>)
    requires cfg.batch_size >= 1 && CleanRun(events)
    ensures var s := Run(cfg, Start(stream, file), events);
            && Changes(cfg, Start(stream, file), events) <= 4 * |stream| + 3
            && (s.phase == Done || exists e :: Clean(e) && Next(cfg, s, e) != s)
            && CleanRun(more) && Run(cfg, Start(stream, file), events + more).phase == Done
  {
    hide Next, CleanInv;
    var s := Run(cfg, Start(stream, file), events);
    RunsAreFinite(cfg, Start(stream, file), events);
    CleanNotFailed(cfg, stream, file, events);
    if s.phase == Running {
      NeverStuck(cfg, s);
    }
    more := CanEnd(cfg, s);
    RunAppend(cfg, Start(stream, file), events, more);
    assert CleanRun(events + more);
    CleanNotFailed(cfg, stream, file, events + more);
  }

  lemma CleanNotFailed(cfg: BatchConfig, stream: seq<StreamItem>, file: Bytes, events: seq<Event>)
    requires CleanRun(events)
    ensures Run(cfg, Start(stream, file), events).phase != Failed
  {
    hide Next;
    RunKeepsClean(cfg, stream, file, events);
  }

  // ---- the engine with its mutable parts ----

  class BatchLoop {
    const cfg: BatchConfig
    const store: DurableDedupeStore
    var stream: seq<StreamItem>
    var subscriberDone: bool
    var channel: seq<Item>
    var buffer: seq<Item>
    var inflight: Option<seq<Item>>
    var leaving: bool
    var phase: Phase
    var shutdown: bool
    ghost var taken: seq<StreamItem>
    ghost var lines: seq<Bytes>
    ghost var fates: seq<Fated>
    ghost var accepted: seq<Item>
    ghost var flushes: seq<Flush>

    ghost function State(): (s: Engine)
      reads this, store
    {
      Engine(stream, store.seen, store.file, subscriberDone, channel, buffer, inflight, leaving, phase, shutdown,
             taken, lines, fates, accepted, flushes)
    }

    constructor (cfg: BatchConfig, store: DurableDedupeStore, stream: seq<StreamItem>)
      ensures this.cfg == cfg && this.store == store
      ensures State() == Start(stream, store.file).(seen := store.seen)
    {
      this.cfg, this.store, this.stream := cfg, store, stream;
      subscriberDone, channel := false, [];
      buffer, inflight, leaving, phase, shutdown := [], None, false, Running, false;
      taken, lines, fates, accepted, flushes := [], [], [], [], [];
    }

    /** The head of `run_batch_loop`: open the store, which fails on a ledger file that is not UTF-8. */
    static method Begin(cfg: BatchConfig, file: Bytes, stream: seq<StreamItem>) returns (loop: Option<BatchLoop>)
      requires cfg.batch_size >= 1
      ensures loop.Some? <==> ValidUtf8(file)
      ensures loop.Some? ==> fresh(loop.value) && fresh(loop.value.store) && loop.value.cfg == cfg
                             && loop.value.State() == Start(stream, file)
    {
      hide ValidUtf8, Load;
      var store := DurableDedupeStore.Open(file);
      if store.None? {
        return None;
      }
      var l := new BatchLoop(cfg, store.value, stream);
      loop := Some(l);
    }

    /** The subscriber's loop body for one stream item. */
    method SubscriberTurn(writable: bool)
      requires !subscriberDone && stream != []
      modifies this, store
      ensures State() == SubscribeStep(cfg, old(State()), writable)
    {
      hide EnvelopeHash, ParseEnvelope, Step;
      var item := stream[0];
      stream := stream[1..];
      taken := taken + [item];
      if item.ReceiveError? {
        return;
      }
      var outcome := store.Ingest(cfg.sha, item.envelope, writable);
      if outcome.None? {
        fates := fates + Note(ParseEnvelope(cfg, item.envelope), EnvelopeHash(cfg.sha, item.envelope), Unwritten);
        return;
      }
      if outcome.value.Duplicate? {
        assert store.seen == old(store.seen);
        return;
      }
      lines := lines + [outcome.value.envelope_hash];
      assert old(store.file) + outcome.value.envelope_hash + [NEWLINE] == store.file;
      Deliver(item.envelope);
    }

    /** Parse, hash and send. */
    method Deliver(envelope: ReceivedEnvelope)
      modifies this
      ensures State() == Delivered(old(State()), EnvelopeHash(cfg.sha, envelope), ParseEnvelope(cfg, envelope))
    {
      hide ParseEnvelope, EnvelopeHash;
      var parsed := ParseEnvelope(cfg, envelope);
      if parsed.Some? {
        if phase == Failed {
          subscriberDone := true;
          fates := fates + [Fated(parsed.value, EnvelopeHash(cfg.sha, envelope), Orphaned)];
        } else {
          channel := channel + [parsed.value];
          accepted := accepted + [parsed.value];
          fates := fates + [Fated(parsed.value, EnvelopeHash(cfg.sha, envelope), Sent)];
        }
      }
    }

    method TakeBuffer(leaving: bool)
      modifies this
      ensures State() == Drain(old(State()), leaving)
    {
      inflight := Some(buffer);
      buffer := [];
      this.leaving := leaving;
    }

    method LeaveLoop()
      modifies this
      ensures State() == Leave(old(State()))
    {
      if buffer != [] {
        TakeBuffer(true);
      } else {
        phase := Done;
      }
    }

    method ReceiveTurn()
      requires channel != []
      modifies this
      ensures State() == ReceiveStep(cfg, old(State()))
    {
      buffer := buffer + [channel[0]];
      channel := channel[1..];
      if |buffer| >= cfg.batch_size {
        TakeBuffer(false);
      }
    }

    /** The end of a flush: `ok` is what the retry helper returned. */
    method FinishFlush(ok: bool, landed: seq<U64>)
      requires inflight.Some?
      modifies this
      ensures State() == Next(cfg, old(State()), if ok then FlushOk(landed) else FlushFailed(landed))
    {
      flushes := flushes + [Flush(inflight.value, landed, ok)];
      inflight := None;
      if !ok {
        phase := Failed;
      } else if leaving {
        phase := Done;
      }
    }

    /** One whole flush against a registry client whose attempts have these outcomes: it is reported anchored exactly
        when some allowed attempt succeeds after nothing but retryable errors. */
    method FlushBatch(policy: Retry.RetryPolicy, client: nat -> Retry.Attempt<seq<AnchorEntry>>, landed: seq<U64>) returns (ok: bool)
      requires inflight.Some?
      modifies this
      ensures State() == Next(cfg, old(State()), if ok then FlushOk(landed) else FlushFailed(landed))
      ensures ok <==> exists k: nat :: 1 <= k <= policy.max_attempts && client(k).Ok?
                                       && forall j :: 1 <= j < k ==> Retry.Retryable(client(j))
    {
      var settled, _, _ := Retry.WithRetry(policy, client);
      ok := settled.Returned? && settled.result.Ok?;
      if policy.max_attempts >= 1 {
        var k := Retry.StopsAt(client, 1, policy.max_attempts);
        Retry.StopsAtMeaning(client, 1, policy.max_attempts, k);
        assert ok ==> client(k).Ok?;
        hide Retry.StopsAt;
      }
      FinishFlush(ok, landed);
    }

    method Dispatch(e: Event)
      modifies this, store
      ensures State() == Next(cfg, old(State()), e)
    {
      hide ParseEnvelope, EnvelopeHash;
      var waiting := phase == Running && inflight.None?;
      match e {
        case Subscribe(writable) =>
          if !subscriberDone && stream != [] {
            SubscriberTurn(writable);
          }
        case StreamEnd => subscriberDone := subscriberDone || stream == [];
        case SubscriberStops => subscriberDone := subscriberDone || shutdown;
        case Receive =>
          if waiting && channel != [] {
            ReceiveTurn();
          }
        case Closed =>
          if waiting && channel == [] && subscriberDone {
            LeaveLoop();
          }
        case Tick =>
          if waiting && buffer != [] {
            TakeBuffer(false);
          }
        case AnchorerStops =>
          if waiting && shutdown {
            LeaveLoop();
          }
        case FlushOk(landed) =>
          if inflight.Some? {
            FinishFlush(true, landed);
          }
        case FlushFailed(landed) =>
          if inflight.Some? {
            FinishFlush(false, landed);
          }
        case SignalShutdown => shutdown := true;
      }
    }

    /** Any schedule of the two tasks. */
    method RunSchedule(events: seq<Event>)
      modifies this, store
      ensures State() == Run(cfg, old(State()), events)
    {
      hide Next;
      for i := 0 to |events|
        invariant State() == Run(cfg, old(State()), events[..i])
      {
        assert events[..i + 1][..i] == events[..i];
        Dispatch(events[i]);
      }
      assert events[..|events|] == events;
    }
  }
}
