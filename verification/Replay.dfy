/** The finite source of indexing/src/file_delivery.rs, and the whole pipeline from its text to the entries. */
module Replay {
  import opened Basics
  import opened Text
  import opened Borsh
  import opened Registry
  import opened Envelope
  import opened Dedupe
  import opened Batch
  import opened Guest
  import opened Anchoring
  import Hex
  import Chain

  const HASH: Byte := 0x23

  /** The trimmed lines that are not empty and do not start with '#'. */
  function FromJsonl(text: Bytes): (r: seq<Bytes>) {
    DropComments(Records(Lines(text)))
  }

  function DropComments(records: seq<Bytes>): (r: seq<Bytes>) {
    if records == [] then []
    else
      var last := records[|records| - 1];
      DropComments(records[..|records| - 1]) + (if last != [] && last[0] == HASH then [] else [last])
  }

  function Subscription(topic: Str, payloads: seq<Bytes>): (r: seq<StreamItem>)
    ensures |r| == |payloads|
    ensures forall i :: 0 <= i < |payloads| ==> r[i] == Received(ReceivedEnvelope(topic, payloads[i]))
  {
    seq(|payloads|, i requires 0 <= i < |payloads| => Received(ReceivedEnvelope(topic, payloads[i])))
  }

  /** Exactly the trimmed non-blank lines that are not comments are replayed. */
  lemma {:induction false} CommentsDropped(records: seq<Bytes>, p: Bytes)
    ensures p in DropComments(records) <==> p in records && (p == [] || p[0] != HASH)
  {
    if records == [] {
    } else {
      CommentsDropped(records[..|records| - 1], p);
      assert records == records[..|records| - 1] + [records[|records| - 1]];
    }
  }

  lemma ReplayedPayloads(text: Bytes, p: Bytes)
    ensures p in FromJsonl(text) <==>
              p != [] && p[0] != 0x23 && exists i :: 0 <= i < |Lines(text)| && Trim(Lines(text)[i]) == p
  {
    hide Lines, Trim, Records, DropComments;
    var lines := Lines(text);
    CommentsDropped(Records(lines), p);
    RecordsMeaning(lines, p);
    assert FromJsonl(text) == DropComments(Records(lines));
  }

  lemma {:induction false} DropCommentsAppend(a: seq<Bytes>, b: seq<Bytes>)
    ensures DropComments(a + b) == DropComments(a) + DropComments(b)
  {
    if b == [] {
      assert a + b == a;
    } else {
      DropCommentsAppend(a, b[..|b| - 1]);
      assert (a + b)[..|a + b| - 1] == a + b[..|b| - 1];
    }
  }

  /** The replay is in file order, line by line: a first line gives its trimmed text, or nothing if that is blank or a comment. */
  lemma ReplayLineByLine(line: Bytes, rest: Bytes)
    requires OneLine(line)
    ensures var t := Trim(StripCr(line));
            FromJsonl(line + [0x0A] + rest) == (if t == [] || t[0] == 0x23 then [] else [t]) + FromJsonl(rest)
  {
    hide Trim, StripCr, Lines, OneLine;
    var first := [StripCr(line)];
    LinesStep(line, rest);
    OneRecord(StripCr(line));
    RecordsAppend(first, Lines(rest));
    hide Records;
    DropCommentsAppend(Records(first), Records(Lines(rest)));
    OneKept(Trim(StripCr(line)));
    NoneKept();
  }

  lemma OneKept(t: Bytes)
    ensures DropComments([t]) == if t != [] && t[0] == HASH then [] else [t]
  {
    assert [t][..0] == [];
  }

  lemma NoneKept()
    ensures DropComments([]) == []
  {
  }

  // ---- every parseable record is wanted ----

  lemma {:induction false} EarliestOccurrence(cfg: BatchConfig, items: seq<StreamItem>, k: nat) returns (j: nat)
    requires k < |items| && items[k].Received?
    ensures j <= k && FirstOccurrence(cfg, {}, items, j)
    ensures EnvelopeHash(cfg.sha, items[j].envelope) == EnvelopeHash(cfg.sha, items[k].envelope)
  {
    hide EnvelopeHash;
    if i: nat :| i < k && items[i].Received? && EnvelopeHash(cfg.sha, items[i].envelope) == EnvelopeHash(cfg.sha, items[k].envelope) {
      j := EarliestOccurrence(cfg, items, i);
    } else {
      j := k;
    }
  }

  lemma {:induction false} FirstOccurrenceIsWanted(cfg: BatchConfig, seen: set<Bytes>, items: seq<StreamItem>, j: nat)
    requires j < |items| && FirstOccurrence(cfg, seen, items, j) && ParseEnvelope(cfg, items[j].envelope).Some?
    ensures ParseEnvelope(cfg, items[j].envelope).value in Wanted(cfg, seen, items)
  {
    hide EnvelopeHash, ParseEnvelope;
    var n := |items| - 1;
    if j < n {
      assert items[..n][j] == items[j];
      FirstOccurrenceIsWanted(cfg, seen, items[..n], j);
    }
  }

  lemma SamePayload(sha: Sha, topic: Str, p: Bytes, q: Bytes, inputs: set<Bytes>)
    requires EnvelopeHash(sha, ReceivedEnvelope(topic, p)) == EnvelopeHash(sha, ReceivedEnvelope(topic, q))
    requires HashInput(ReceivedEnvelope(topic, p)) in inputs && HashInput(ReceivedEnvelope(topic, q)) in inputs
    requires CollisionFree(sha, inputs)
    ensures p == q
  {
    var a, b := HashInput(ReceivedEnvelope(topic, p)), HashInput(ReceivedEnvelope(topic, q));
    hide Hex.Encode, Hex.Decode;
    Hex.DecodeText(Hex.Encode(sha(a)), sha(a));
    Hex.DecodeText(Hex.Encode(sha(b)), sha(b));
    assert p == a[|topic| + 1..] && q == b[|topic| + 1..];
  }

  function Inputs(topic: Str, payloads: seq<Bytes>): (r: set<Bytes>) {
    set i | 0 <= i < |payloads| :: HashInput(ReceivedEnvelope(topic, payloads[i]))
  }

  lemma ParseableIsWanted(cfg: BatchConfig, payloads: seq<Bytes>, k: nat)
    requires k < |payloads| && Parse(payloads[k]).Some? && CollisionFree(cfg.sha, Inputs(cfg.topic, payloads))
    ensures ParseEnvelope(cfg, ReceivedEnvelope(cfg.topic, payloads[k])).Some?
    ensures ParseEnvelope(cfg, ReceivedEnvelope(cfg.topic, payloads[k])).value in Wanted(cfg, {}, Subscription(cfg.topic, payloads))
  {
    hide Parse, EnvelopeHash, CollisionFree, HashInput, MetadataHash, Wanted;
    var items := Subscription(cfg.topic, payloads);
    var j := EarliestOccurrence(cfg, items, k);
    var inputs := Inputs(cfg.topic, payloads);
    assert HashInput(ReceivedEnvelope(cfg.topic, payloads[j])) in inputs && HashInput(ReceivedEnvelope(cfg.topic, payloads[k])) in inputs;
    SamePayload(cfg.sha, cfg.topic, payloads[j], payloads[k], inputs);
    FirstOccurrenceIsWanted(cfg, {}, items, j);
  }

  lemma NothingLoaded()
    ensures Load([]) == {}
  {
    assert Records([]) == [] by {
      TrimNothing();
    }
  }

  /** The CID hash of a record, and that it is the hash of a wanted item. */
  lemma RecordIsWanted(cfg: BatchConfig, sha: Sha, payloads: seq<Bytes>, k: nat) returns (item: Item)
    requires k < |payloads| && Parse(payloads[k]).Some? && CollisionFree(cfg.sha, Inputs(cfg.topic, payloads))
    ensures item in Wanted(cfg, Load([]), Subscription(cfg.topic, payloads))
    ensures HashOf(sha, item) == CidHash(sha, Parse(payloads[k]).value.cid)
  {
    hide Parse, CollisionFree, CidHash, Wanted, MetadataHash, Load;
    NothingLoaded();
    ParseableIsWanted(cfg, payloads, k);
    item := ParseEnvelope(cfg, ReceivedEnvelope(cfg.topic, payloads[k])).value;
  }

  /** From a text file to the chain: once a clean run over the replayed file, with an empty dedupe ledger, has ended,
      every record that parses is found under its CID hash. If the chain did not have that CID before, the entry is that of
      a wanted record naming it, with the hash of its canonical bytes; of the first such, if no two conflict. */
  lemma EveryRecordIsAnchored(net: Config, cfg: BatchConfig, n: nat, text: Bytes, events: seq<Event>, ledger: Ledger, m: Entries, k: nat)
    requires PdaInjective(net.pda) && Represents(net, ledger, m)
    requires k < |FromJsonl(text)| && Parse(FromJsonl(text)[k]).Some?
    requires CollisionFree(cfg.sha, Inputs(cfg.topic, FromJsonl(text)))
    requires var stream := Subscription(cfg.topic, FromJsonl(text));
             CleanEnd(cfg, n, stream, [], events) && Answered(net, ledger, FlushesOf(cfg, n, stream, [], events))
    ensures var stream := Subscription(cfg.topic, FromJsonl(text));
            var wanted, h := Wanted(cfg, Load([]), stream), CidHash(net.sha, Parse(FromJsonl(text)[k]).value.cid);
            var data := DataAt(LedgerAfter(net, ledger, FlushesOf(cfg, n, stream, [], events)), net.pda(h));
            && data != []
            && (if h in m then data == DataAt(ledger, net.pda(h)) else EntryOf(net, wanted, h, data))
            && (h !in m && NoConflict(net.sha, m, wanted) ==>
                  exists i: nat :: IsFirst(net.sha, wanted, i) && HashOf(net.sha, wanted[i]) == h
                                   && Shown(DecodeEntry(data).value) == wanted[i])
  {
    hide FromJsonl, Parse, CollisionFree, CidHash, CleanEnd, FlushesOf, Answered, LedgerAfter, Wanted, Load;
    hide ViewAll, View, EntryOf, DataAt, DecodeEntry, NoConflict, PdaInjective;
    var stream := Subscription(cfg.topic, FromJsonl(text));
    var wanted := Wanted(cfg, Load([]), stream);
    var item := RecordIsWanted(cfg, net.sha, FromJsonl(text), k);
    var h := HashOf(net.sha, item);
    WantedAreAnchored(net, cfg, n, stream, [], events, ledger, m);
    var p: nat :| p < |wanted| && wanted[p] == item;
    if h !in m && NoConflict(net.sha, m, wanted) {
      ViewMeaning(net.sha, m, wanted);
      var i := FirstExists(net.sha, wanted, p);
      assert ViewAll(net.sha, View(m), wanted)[h] == wanted[i];
    }
  }

  /** The same file against a client of the reference registry, where no condition is needed. */
  lemma EveryRecordIsRegistered(sha: Sha, cfg: BatchConfig, n: nat, text: Bytes, events: seq<Event>, m: Entries, k: nat)
    requires k < |FromJsonl(text)| && Parse(FromJsonl(text)[k]).Some?
    requires CollisionFree(cfg.sha, Inputs(cfg.topic, FromJsonl(text)))
    requires CleanEnd(cfg, n, Subscription(cfg.topic, FromJsonl(text)), [], events)
    requires var fs := FlushesOf(cfg, n, Subscription(cfg.topic, FromJsonl(text)), [], events);
             forall i :: 0 <= i < |fs| ==> fs[i].landed != []
    ensures var stream := Subscription(cfg.topic, FromJsonl(text));
            var r := RegistryAfter(sha, m, FlushesOf(cfg, n, stream, [], events));
            var h := CidHash(sha, Parse(FromJsonl(text)[k]).value.cid);
            var wanted := Wanted(cfg, Load([]), stream);
            && h in r
            && (h !in m ==> exists i: nat :: IsFirst(sha, wanted, i) && HashOf(sha, wanted[i]) == h && Shown(r[h]) == wanted[i])
  {
    hide FromJsonl, Parse, CollisionFree, CidHash, CleanEnd, FlushesOf, Wanted, Load, ViewAll, RegistryAfter;
    var stream := Subscription(cfg.topic, FromJsonl(text));
    var wanted := Wanted(cfg, Load([]), stream);
    var item := RecordIsWanted(cfg, sha, FromJsonl(text), k);
    var h := HashOf(sha, item);
    ReferenceConfluence(sha, cfg, n, stream, [], events, m);
    ViewMeaning(sha, m, wanted);
    var p: nat :| p < |wanted| && wanted[p] == item;
    assert h in HashSet(sha, wanted);
    var r := RegistryAfter(sha, m, FlushesOf(cfg, n, stream, [], events));
    ViewHasKeys(r);
    if h !in m {
      var i := FirstExists(sha, wanted, p);
      assert View(r)[h] == wanted[i];
    }
  }

  /** Such an end exists for every text whose wanted items fit, with any batch size: any clean run whose client's answers
      were right so far can be continued to one. */
  lemma ReplayCompletes(net: Config, cfg: BatchConfig, text: Bytes, events: seq<Event>, ledger: Ledger) returns (more: seq<Event>)
    requires cfg.batch_size >= 1 && CleanRun(events)
    requires Fits(net, Wanted(cfg, Load([]), Subscription(cfg.topic, FromJsonl(text))))
    requires Answered(net, ledger, FlushesOf(cfg, cfg.batch_size, Subscription(cfg.topic, FromJsonl(text)), [], events))
    ensures var stream := Subscription(cfg.topic, FromJsonl(text));
            && CleanEnd(cfg, cfg.batch_size, stream, [], events + more)
            && Answered(net, ledger, FlushesOf(cfg, cfg.batch_size, stream, [], events + more))
  {
    hide Run, FromJsonl, Load, Wanted, Answered, Fits;
    assert cfg.(batch_size := cfg.batch_size) == cfg;
    more := AnsweredCompletion(net, cfg, Subscription(cfg.topic, FromJsonl(text)), [], events, ledger);
  }

  // ---- batching is not invisible on the chain ----

  /** Two payloads with different hashes that both parse are both wanted. */
  lemma BothWanted(cfg: BatchConfig, p: Bytes, q: Bytes)
    requires Parse(p).Some? && Parse(q).Some?
    requires EnvelopeHash(cfg.sha, ReceivedEnvelope(cfg.topic, p)) != EnvelopeHash(cfg.sha, ReceivedEnvelope(cfg.topic, q))
    ensures Wanted(cfg, Load([]), Subscription(cfg.topic, [p, q]))
         == [ParseEnvelope(cfg, ReceivedEnvelope(cfg.topic, p)).value, ParseEnvelope(cfg, ReceivedEnvelope(cfg.topic, q)).value]
  {
    hide Parse, EnvelopeHash, MetadataHash, Load, Wanted;
    NothingLoaded();
    var a, b := Received(ReceivedEnvelope(cfg.topic, p)), Received(ReceivedEnvelope(cfg.topic, q));
    assert Subscription(cfg.topic, [p, q]) == [a] + [b];
    assert [] + [a] == [a];
    TakeOne(cfg, {}, [], a);
    TakeOne(cfg, {}, [a], b);
    assert Wanted(cfg, {}, []) == [] by {
      NothingWanted(cfg);
    }
  }

  lemma NothingWanted(cfg: BatchConfig)
    ensures Wanted(cfg, {}, []) == []
  {
  }

  /** The input: two envelopes with one CID and different other fields, as two records of one stream. A clean run with
      batch size 1 leaves the first metadata hash on the chain, one with batch size 2 the second. */
  lemma BatchSizeShowsOnChain(net: Config, cfg: BatchConfig, a: MetadataEnvelopeV1, b: MetadataEnvelopeV1)
    returns (one: seq<Event>, two: seq<Event>)
    requires PdaInjective(net.pda) && a.cid == b.cid && |a.cid| <= U32_MAX && |a.cid| + 76 <= net.limit
    requires MetadataHash(cfg.sha, a) != MetadataHash(cfg.sha, b)
    requires EnvelopeHash(cfg.sha, ReceivedEnvelope(cfg.topic, CanonicalJsonBytes(a)))
          != EnvelopeHash(cfg.sha, ReceivedEnvelope(cfg.topic, CanonicalJsonBytes(b)))
    ensures var stream := Subscription(cfg.topic, [CanonicalJsonBytes(a), CanonicalJsonBytes(b)]);
            var s, t := FlushesOf(cfg, 1, stream, [], one), FlushesOf(cfg, 2, stream, [], two);
            var pda := net.pda(CidHash(net.sha, a.cid));
            && CleanEnd(cfg, 1, stream, [], one) && Answered(net, map[], s)
            && CleanEnd(cfg, 2, stream, [], two) && Answered(net, map[], t)
            && KeepsHash(net, LedgerAfter(net, map[], s), pda, MetadataHash(cfg.sha, a))
            && KeepsHash(net, LedgerAfter(net, map[], t), pda, MetadataHash(cfg.sha, b))
  {
    hide Parse, CanonicalJsonBytes, EnvelopeHash, MetadataHash, CidHash, Wanted, Load, LedgerAfter, Answered, CleanEnd, FlushesOf, PdaInjective;
    hide FlushedItems, CutAt, KeepsHash;
    ParseCanonical(a);
    ParseCanonical(b);
    BothWanted(cfg, CanonicalJsonBytes(a), CanonicalJsonBytes(b));
    var stream := Subscription(cfg.topic, [CanonicalJsonBytes(a), CanonicalJsonBytes(b)]);
    var x, y := Item(a.cid, MetadataHash(cfg.sha, a)), Item(b.cid, MetadataHash(cfg.sha, b));
    FirstCutDecides(net, x, y, 1);
    FirstCutDecides(net, x, y, 2);
    one := RealizeCut(cfg, 1, stream, [], CutAt([x, y], 1));
    two := RealizeCut(cfg, 2, stream, [], CutAt([x, y], 2));
  }

  ghost predicate KeepsHash(net: Config, ledger: Ledger, pda: AccountId, d: Digest) {
    var e := DecodeEntry(DataAt(ledger, pda));
    e.Some? && e.value.metadata_hash == d && net.pda(CidHash(net.sha, e.value.cid)) == pda
  }

  lemma FirstCutDecides(net: Config, x: Item, y: Item, n: nat)
    requires PdaInjective(net.pda) && x.cid == y.cid && |x.cid| <= U32_MAX && |x.cid| + 76 <= net.limit && 1 <= n <= 2
    ensures Cut(net, map[], CutAt([x, y], n), [x, y])
    ensures forall i :: 0 <= i < |CutAt([x, y], n)| ==> 1 <= |CutAt([x, y], n)[i].batch| <= n
    ensures KeepsHash(net, LedgerAfter(net, map[], CutAt([x, y], n)), PdaOf(net, x), [x, y][n - 1].metadata_hash)
  {
    var fs := CutAt([x, y], n);
    assert Fits(net, [x, y]) && Fits(net, fs[0].batch);
    CutAtIsCut(net, map[], [x, y], n);
    Chain.EmptyRepresents(net);
    hide CidHash, LedgerAfter, Answered, DecodeEntry, DataAt, Represents, Fits;
    assert fs[0].batch[n - 1] == [x, y][n - 1] && IsLastItem(net.sha, fs[0].batch, n - 1);
    FirstBatchDecides(net, map[], map[], fs, 0, n - 1);
  }
}
