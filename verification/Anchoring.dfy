/** What the flushes of the batch engine leave behind, with the on-chain client of adapters/lez/src/lib.rs and with a
    client of the reference registry. The engine's own statements are about flushes; these are about entries. */
module Anchoring {
  import opened Basics
  import opened Text
  import opened Registry
  import opened Borsh
  import opened Guest
  import opened Batch
  import opened Dedupe
  import Chain

  // ---- flushes on the ledger ----

  /** One attempt of `anchor_batch` that lands; a batch that does not encode is never submitted. */
  function LandOne(net: Config, ledger: Ledger, batch: seq<Item>, ts: U64): (r: Ledger) {
    match EncodeInstruction(AnchorBatch(batch, ts))
    case None => ledger
    case Some(payload) => Execute(net, ledger, Tx(Chain.PdasOf(net, batch), payload))
  }

  /** All attempts of one flush that land, in landing order. */
  function LandAll(net: Config, ledger: Ledger, batch: seq<Item>, landed: seq<U64>): (r: Ledger) {
    if landed == [] then ledger
    else LandOne(net, LandAll(net, ledger, batch, landed[..|landed| - 1]), batch, landed[|landed| - 1])
  }

  function LedgerAfter(net: Config, ledger: Ledger, fs: seq<Flush>): (r: Ledger) {
    if fs == [] then ledger
    else LandAll(net, LedgerAfter(net, ledger, fs[..|fs| - 1]), fs[|fs| - 1].batch, fs[|fs| - 1].landed)
  }

  ghost predicate Filled(net: Config, ledger: Ledger, items: seq<Item>) {
    forall x :: x in items ==> DataAt(ledger, PdaOf(net, x)) != []
  }

  /** The client reports a batch anchored only after it has read every PDA of it filled. */
  ghost predicate Answered(net: Config, ledger: Ledger, fs: seq<Flush>) {
    if fs == [] then true
    else
      Answered(net, ledger, fs[..|fs| - 1]) && (fs[|fs| - 1].ok ==> Filled(net, LedgerAfter(net, ledger, fs), fs[|fs| - 1].batch))
  }

  lemma LedgerSnoc(net: Config, ledger: Ledger, fs: seq<Flush>, f: Flush)
    ensures LedgerAfter(net, ledger, fs + [f]) == LandAll(net, LedgerAfter(net, ledger, fs), f.batch, f.landed)
    ensures Answered(net, ledger, fs + [f]) <==>
              Answered(net, ledger, fs) && (f.ok ==> Filled(net, LedgerAfter(net, ledger, fs + [f]), f.batch))
  {
    hide LandAll, Filled;
    assert (fs + [f])[..|fs|] == fs;
  }

  lemma LandSingle(net: Config, ledger: Ledger, batch: seq<Item>, ts: U64)
    ensures LandAll(net, ledger, batch, [ts]) == LandOne(net, ledger, batch, ts)
  {
    hide LandOne;
    assert [ts][..0] == [];
    assert LandAll(net, ledger, batch, []) == ledger;
  }

  // ---- whatever happens, entries come from flushed items and never change ----

  function Shown(e: AnchorEntry): (r: Item) {
    Item(e.cid, e.metadata_hash)
  }

  /** The data is the entry, under hash `h`, of one of these items. */
  ghost predicate EntryOf(net: Config, items: seq<Item>, h: Digest, data: Bytes) {
    && data != [] && DecodeEntry(data).Some?
    && var e := DecodeEntry(data).value; e.cid_hash == h && CidHash(net.sha, e.cid) == h && Shown(e) in items
  }

  /** Filled PDAs are untouched, and PDAs filled meanwhile hold entries of these items. */
  ghost predicate GrownBy(net: Config, before: Ledger, items: seq<Item>, after: Ledger) {
    forall h :: var a, b := DataAt(before, net.pda(h)), DataAt(after, net.pda(h));
                b == a || (a == [] && EntryOf(net, items, h, b))
  }

  lemma WrittenIsEntryOf(net: Config, batch: seq<Item>, ts: U64, h: Digest, k: nat)
    requires k < |batch| && |batch[k].cid| <= U32_MAX && HashOf(net.sha, batch[k]) == h
    ensures EntryOf(net, batch, h, PutEntry(EntryFor(net.sha, batch[k], ts)))
  {
    var e := EntryFor(net.sha, batch[k], ts);
    EntryCodec(e, PutEntry(e));
    EncodedEntryNotEmpty(e);
    assert Shown(e) == batch[k];
    hide PutEntry, DecodeEntry, CidHash;
  }

  lemma GrownOnce(net: Config, ledger: Ledger, batch: seq<Item>, ts: U64, h: Digest)
    requires PdaInjective(net.pda)
    ensures var a, b := DataAt(ledger, net.pda(h)), DataAt(LandOne(net, ledger, batch, ts), net.pda(h));
            b == a || (a == [] && EntryOf(net, batch, h, b))
  {
    var i := AnchorBatch(batch, ts);
    if EncodeInstruction(i).Some? {
      var tx := Tx(Chain.PdasOf(net, batch), EncodeInstruction(i).value);
      InstructionCodec(i, tx.payload);
      ExecuteMeaning(net, ledger, tx);
      hide Execute, Accepted, AccountAt, CidHash, PutEntry, DecodeEntry, EncodeInstruction, DecodeInstruction, EntryFor, EntryOf;
      if net.pda(h) in tx.accounts {
        var k0: nat :| k0 < |tx.accounts| && tx.accounts[k0] == net.pda(h);
        var k := LastExists(tx.accounts, k0);
        if DataAt(ledger, net.pda(h)) == [] {
          WrittenIsEntryOf(net, batch, ts, h, k);
        }
      }
    }
  }

  lemma GrownTwice(net: Config, a: Ledger, b: Ledger, c: Ledger, xs: seq<Item>, ys: seq<Item>, all: seq<Item>)
    requires GrownBy(net, a, xs, b) && GrownBy(net, b, ys, c)
    requires forall x :: x in xs || x in ys ==> x in all
    ensures GrownBy(net, a, all, c)
  {
    hide DataAt, DecodeEntry, CidHash;
  }

  lemma {:induction false} GrownByAttempts(net: Config, ledger: Ledger, batch: seq<Item>, landed: seq<U64>)
    requires PdaInjective(net.pda)
    ensures GrownBy(net, ledger, batch, LandAll(net, ledger, batch, landed))
  {
    hide LandOne, DataAt, EntryOf;
    if landed == [] {
    } else {
      var prior, ts := landed[..|landed| - 1], landed[|landed| - 1];
      var mid := LandAll(net, ledger, batch, prior);
      GrownByAttempts(net, ledger, batch, prior);
      forall h: Digest
        ensures var a, b := DataAt(mid, net.pda(h)), DataAt(LandOne(net, mid, batch, ts), net.pda(h));
                b == a || (a == [] && EntryOf(net, batch, h, b))
      {
        GrownOnce(net, mid, batch, ts, h);
      }
      assert GrownBy(net, mid, batch, LandOne(net, mid, batch, ts));
      hide GrownBy;
      GrownTwice(net, ledger, mid, LandOne(net, mid, batch, ts), batch, batch, batch);
    }
  }

  /** Over any flushes, reported anchored or failed: filled PDAs are untouched and new entries are flushed items. */
  lemma {:induction false} GrownByFlushes(net: Config, ledger: Ledger, fs: seq<Flush>)
    requires PdaInjective(net.pda)
    ensures GrownBy(net, ledger, FlushedItems(fs), LedgerAfter(net, ledger, fs))
  {
    hide LandAll, DataAt, EntryOf;
    if fs == [] {
    } else {
      var prior, last := fs[..|fs| - 1], fs[|fs| - 1];
      var mid := LedgerAfter(net, ledger, prior);
      GrownByFlushes(net, ledger, prior);
      GrownByAttempts(net, mid, last.batch, last.landed);
      hide GrownBy;
      GrownTwice(net, ledger, mid, LandAll(net, mid, last.batch, last.landed), FlushedItems(prior), last.batch, FlushedItems(fs));
    }
  }

  lemma FilledStays(net: Config, a: Ledger, b: Ledger, xs: seq<Item>, items: seq<Item>)
    requires GrownBy(net, a, xs, b) && Filled(net, a, items)
    ensures Filled(net, b, items)
  {
    hide DataAt, EntryOf, HashOf;
  }

  /** Every item reported anchored is filled at the end, whatever came after it. */
  lemma {:induction false} AnchoredAreFilled(net: Config, ledger: Ledger, fs: seq<Flush>)
    requires PdaInjective(net.pda) && Answered(net, ledger, fs)
    ensures Filled(net, LedgerAfter(net, ledger, fs), AnchoredItems(fs))
  {
    hide LandAll, DataAt, HashOf;
    if fs == [] {
    } else {
      var prior, last := fs[..|fs| - 1], fs[|fs| - 1];
      var mid := LedgerAfter(net, ledger, prior);
      AnchoredAreFilled(net, ledger, prior);
      GrownByAttempts(net, mid, last.batch, last.landed);
      FilledStays(net, mid, LedgerAfter(net, ledger, fs), last.batch, AnchoredItems(prior));
    }
  }

  /** An attempt that lands late, when the items of its batch are filled already, changes the data of no account. */
  lemma LateLandingChangesNothing(net: Config, ledger: Ledger, batch: seq<Item>, ts: U64, id: AccountId)
    requires Filled(net, ledger, batch)
    ensures DataAt(LandOne(net, ledger, batch, ts), id) == DataAt(ledger, id)
  {
    var i := AnchorBatch(batch, ts);
    if EncodeInstruction(i).Some? {
      var tx := Tx(Chain.PdasOf(net, batch), EncodeInstruction(i).value);
      ExecuteMeaning(net, ledger, tx);
      hide Execute, Accepted, AccountAt, HashOf, PutEntry, EncodeInstruction, DecodeInstruction;
      if id in tx.accounts {
        var k0: nat :| k0 < |tx.accounts| && tx.accounts[k0] == id;
        var k := LastExists(tx.accounts, k0);
        assert batch[k] in batch;
      }
    }
  }

  // ---- against the first-write-wins view ----

  /** Exactly the hashes of `v` are filled, with the CID and metadata hash `v` has for them. */
  ghost predicate ShowsView(net: Config, ledger: Ledger, v: map<Digest, Item>) {
    forall h :: var data := DataAt(ledger, net.pda(h));
      && (h in v <==> data != [])
      && (h in v ==> DecodeEntry(data).Some? && Shown(DecodeEntry(data).value) == v[h])
  }

  lemma RepresentsShows(net: Config, ledger: Ledger, m: Entries)
    requires Represents(net, ledger, m)
    ensures ShowsView(net, ledger, View(m))
  {
    hide DataAt, DecodeEntry;
  }

  lemma LandStep(net: Config, ledger: Ledger, m: Entries, batch: seq<Item>, ts: U64) returns (m': Entries)
    requires PdaInjective(net.pda) && Represents(net, ledger, m) && LastAgreesWithFirst(net.sha, m, batch)
    ensures m' == m || m' == PutAll(net.sha, m, batch, ts)
    ensures Represents(net, LandOne(net, ledger, batch, ts), m')
  {
    hide Execute, Represents, LastAgreesWithFirst, PutAll, SameKeys;
    m' := m;
    var i := AnchorBatch(batch, ts);
    if EncodeInstruction(i).Some? {
      var tx := Tx(Chain.PdasOf(net, batch), EncodeInstruction(i).value);
      InstructionCodec(i, tx.payload);
      if Accepted(net, ledger, tx) {
        GuestRefinesRegistry(net, ledger, m, tx);
        m' := PutAll(net.sha, m, batch, ts);
      } else {
        Chain.AbortedChangesNothing(net, ledger, tx);
      }
    }
  }

  /** After any attempts of one batch the ledger represents a registry that has seen the batch or not. */
  lemma {:induction false} LandAttempts(net: Config, ledger: Ledger, m: Entries, batch: seq<Item>, landed: seq<U64>, all: seq<Item>)
    returns (m': Entries)
    requires PdaInjective(net.pda) && Represents(net, ledger, m) && NoConflict(net.sha, m, all) && forall x :: x in batch ==> x in all
    ensures Represents(net, LandAll(net, ledger, batch, landed), m') && m.Keys <= m'.Keys
    ensures View(m') == View(m) || View(m') == ViewAll(net.sha, View(m), batch)
  {
    hide Represents, LandOne, PutAll, View, ViewAll, NoConflict, PdaInjective;
    if landed == [] {
      m' := m;
    } else {
      var ts := landed[|landed| - 1];
      var mid := LandAttempts(net, ledger, m, batch, landed[..|landed| - 1], all);
      NoConflictAgrees(net.sha, m, all, mid, batch);
      m' := LandStep(net, LandAll(net, ledger, batch, landed[..|landed| - 1]), mid, batch, ts);
      ViewOfPutAll(net.sha, mid, batch, ts);
      PutAllKeys(net.sha, mid, batch, ts);
      ViewAllTwice(net.sha, View(m), batch);
    }
  }

  lemma {:induction false} ViewKeys(sha: Sha, v: map<Digest, Item>, items: seq<Item>)
    ensures ViewAll(sha, v, items).Keys == v.Keys + HashSet(sha, items)
  {
    hide HashOf;
    if items == [] {
    } else {
      ViewKeys(sha, v, items[..|items| - 1]);
      HashSetSnoc(sha, items);
    }
  }

  lemma {:induction false} ViewAllPresent(sha: Sha, v: map<Digest, Item>, items: seq<Item>)
    requires HashSet(sha, items) <= v.Keys
    ensures ViewAll(sha, v, items) == v
  {
    hide HashOf;
    if items == [] {
    } else {
      HashSetSnoc(sha, items);
      ViewAllPresent(sha, v, items[..|items| - 1]);
    }
  }

  lemma ViewAllTwice(sha: Sha, v: map<Digest, Item>, items: seq<Item>)
    ensures ViewAll(sha, ViewAll(sha, v, items), items) == ViewAll(sha, v, items)
  {
    hide ViewAll, HashSet;
    ViewKeys(sha, v, items);
    ViewAllPresent(sha, ViewAll(sha, v, items), items);
  }

  lemma FilledAreKeys(net: Config, ledger: Ledger, m: Entries, items: seq<Item>)
    requires Represents(net, ledger, m) && Filled(net, ledger, items)
    ensures HashSet(net.sha, items) <= m.Keys
  {
    hide DataAt, HashOf, DecodeEntry;
    forall i | 0 <= i < |items| ensures HashOf(net.sha, items[i]) in m {
      assert items[i] in items;
    }
  }

  /** Flushes that were all reported anchored compute the view of their items, as long as no two items conflict. */
  lemma {:induction false} FlushesShow(net: Config, ledger: Ledger, m: Entries, fs: seq<Flush>, all: seq<Item>) returns (m': Entries)
    requires PdaInjective(net.pda) && Represents(net, ledger, m) && NoConflict(net.sha, m, all) && Answered(net, ledger, fs)
    requires (forall i :: 0 <= i < |fs| ==> fs[i].ok) && forall x :: x in FlushedItems(fs) ==> x in all
    ensures Represents(net, LedgerAfter(net, ledger, fs), m') && m.Keys <= m'.Keys
    ensures View(m') == ViewAll(net.sha, View(m), FlushedItems(fs))
  {
    hide Represents, LandAll, NoConflict, HashOf, Filled, PdaInjective;
    if fs == [] {
      m' := m;
    } else {
      var prior, last := fs[..|fs| - 1], fs[|fs| - 1];
      var mid := FlushesShow(net, ledger, m, prior, all);
      ConflictShrinks(net.sha, m, mid, all);
      m' := LandAttempts(net, LedgerAfter(net, ledger, prior), mid, last.batch, last.landed, all);
      FilledAreKeys(net, LedgerAfter(net, ledger, fs), m', last.batch);
      hide View, ViewAll;
      ViewAllAppend(net.sha, View(m), FlushedItems(prior), last.batch);
      if View(m') == View(mid) {
        ViewHasKeys(m');
        ViewAllPresent(net.sha, View(mid), last.batch);
      }
    }
  }

  lemma ViewHasKeys(m: Entries)
    ensures View(m).Keys == m.Keys
  {
  }

  lemma ConflictShrinks(sha: Sha, m: Entries, later: Entries, all: seq<Item>)
    requires NoConflict(sha, m, all) && m.Keys <= later.Keys
    ensures NoConflict(sha, later, all)
  {
    hide HashOf;
  }

  // ---- a conflict shows for some cut ----

  /** What a client may submit in one call for a registry that has none of these: everything encodes and fits an account. */
  ghost predicate Fits(net: Config, items: seq<Item>) {
    |items| <= U32_MAX && forall x :: x in items ==> |x.cid| <= U32_MAX && |x.cid| + 76 <= net.limit
  }

  lemma LandsWhenFitting(net: Config, ledger: Ledger, batch: seq<Item>, ts: U64)
    requires Fits(net, batch)
    ensures var i := AnchorBatch(batch, ts);
            && EncodeInstruction(i).Some? && Accepted(net, ledger, Chain.CallTx(net, i))
            && LandOne(net, ledger, batch, ts) == Execute(net, ledger, Chain.CallTx(net, i))
            && DecodeInstruction(EncodeInstruction(i).value) == Some(i)
  {
    var i := AnchorBatch(batch, ts);
    assert forall k :: 0 <= k < |batch| ==> batch[k] in batch;
    Chain.CallTxAccepted(net, ledger, i);
    InstructionCodec(i, EncodeInstruction(i).value);
    hide Execute, Accepted, DataAt, DecodeInstruction, PutInstruction;
  }

  lemma FittingFills(net: Config, ledger: Ledger, batch: seq<Item>, ts: U64)
    requires Fits(net, batch)
    ensures Filled(net, LandOne(net, ledger, batch, ts), batch)
  {
    LandsWhenFitting(net, ledger, batch, ts);
    hide LandOne, Execute, Accepted, DataAt, EncodeInstruction, PdaOf;
    forall x | x in batch ensures DataAt(LandOne(net, ledger, batch, ts), PdaOf(net, x)) != [] {
      var k: nat :| k < |batch| && batch[k] == x;
      Chain.LandedFills(net, ledger, AnchorBatch(batch, ts), k);
    }
  }

  /** The last item of the first batch naming a new hash decides for good. */
  lemma FirstBatchDecides(net: Config, ledger: Ledger, m: Entries, fs: seq<Flush>, ts: U64, k: nat)
    requires PdaInjective(net.pda) && Represents(net, ledger, m)
    requires fs != [] && fs[0].landed == [ts] && Fits(net, fs[0].batch)
    requires IsLastItem(net.sha, fs[0].batch, k) && HashOf(net.sha, fs[0].batch[k]) !in m
    ensures var data := DataAt(LedgerAfter(net, ledger, fs), PdaOf(net, fs[0].batch[k]));
            data != [] && DecodeEntry(data) == Some(EntryFor(net.sha, fs[0].batch[k], ts))
  {
    var batch := fs[0].batch;
    LandsWhenFitting(net, ledger, batch, ts);
    FirstFlush(net, ledger, fs, ts);
    LaterFlushesKeep(net, ledger, fs, HashOf(net.sha, batch[k]));
    hide LandOne, Execute, Accepted, DataAt, EncodeInstruction, DecodeInstruction, DecodeEntry, HashOf, LedgerAfter, EntryFor, Fits;
    DataAfter(net, ledger, m, Chain.CallTx(net, AnchorBatch(batch, ts)), HashOf(net.sha, batch[k]));
    assert batch[k] in batch;
  }

  lemma FirstFlush(net: Config, ledger: Ledger, fs: seq<Flush>, ts: U64)
    requires fs != [] && fs[0].landed == [ts]
    ensures LedgerAfter(net, ledger, fs[..1]) == LandOne(net, ledger, fs[0].batch, ts)
  {
    hide LandOne, LandAll;
    assert fs[..1] == [] + [fs[0]];
    LedgerSnoc(net, ledger, [], fs[0]);
    LandSingle(net, ledger, fs[0].batch, ts);
  }

  lemma {:induction false} LaterFlushesKeep(net: Config, ledger: Ledger, fs: seq<Flush>, h: Digest)
    requires PdaInjective(net.pda) && fs != []
    ensures var a, b := DataAt(LedgerAfter(net, ledger, fs[..1]), net.pda(h)), DataAt(LedgerAfter(net, ledger, fs), net.pda(h));
            a != [] ==> b == a
  {
    hide LandAll, DataAt, EntryOf;
    if |fs| == 1 {
      assert fs[..1] == fs;
    } else {
      var prior, last := fs[..|fs| - 1], fs[|fs| - 1];
      assert prior[..1] == fs[..1];
      LaterFlushesKeep(net, ledger, prior, h);
      GrownByAttempts(net, LedgerAfter(net, ledger, prior), last.batch, last.landed);
    }
  }

  /** `fs` cuts `xs` into non-empty batches, all reported anchored. */
  ghost predicate Cut(net: Config, ledger: Ledger, fs: seq<Flush>, xs: seq<Item>) {
    && FlushedItems(fs) == xs
    && (forall i :: 0 <= i < |fs| ==> fs[i].ok && fs[i].batch != [])
    && Answered(net, ledger, fs)
  }

  /** The cut after `n` items, each batch landing once. */
  function CutAt(xs: seq<Item>, n: nat): (fs: seq<Flush>)
    requires 1 <= n <= |xs|
  {
    [Flush(xs[..n], [0], true)] + (if n < |xs| then [Flush(xs[n..], [0], true)] else [])
  }

  lemma CutAtIsCut(net: Config, ledger: Ledger, xs: seq<Item>, n: nat)
    requires 1 <= n <= |xs| && Fits(net, xs)
    ensures Cut(net, ledger, CutAt(xs, n), xs)
  {
    hide LandOne, LandAll, LedgerAfter, Filled;
    var a, b := Flush(xs[..n], [0], true), Flush(xs[n..], [0], true);
    OneBatchAnswered(net, ledger, [], a);
    assert [] + [a] == [a];
    FlushedSnoc([], a);
    assert FlushedItems([]) == [] && [] + xs[..n] == xs[..n];
    if n < |xs| {
      OneBatchAnswered(net, ledger, [a], b);
      FlushedSnoc([a], b);
      assert CutAt(xs, n) == [a] + [b] && xs[..n] + xs[n..] == xs;
    } else {
      assert CutAt(xs, n) == [a] && xs[..n] == xs;
    }
  }

  lemma OneBatchAnswered(net: Config, ledger: Ledger, fs: seq<Flush>, f: Flush)
    requires Answered(net, ledger, fs) && f.landed == [0] && Fits(net, f.batch)
    ensures Answered(net, ledger, fs + [f])
  {
    hide LandOne, LandAll, LedgerAfter, Filled;
    LedgerSnoc(net, ledger, fs, f);
    LandSingle(net, LedgerAfter(net, ledger, fs), f.batch, 0);
    FittingFills(net, LedgerAfter(net, ledger, fs), f.batch, 0);
  }

  /** Two different items for one new hash: the first of that hash and a later one that differs from it. */
  lemma ConflictPositions(sha: Sha, m: Entries, xs: seq<Item>) returns (i: nat, j: nat)
    requires !NoConflict(sha, m, xs)
    ensures i < j < |xs| && IsFirst(sha, xs, i) && HashOf(sha, xs[i]) == HashOf(sha, xs[j]) && HashOf(sha, xs[i]) !in m && xs[i] != xs[j]
  {
    hide HashOf;
    var a, b :| a in xs && b in xs && HashOf(sha, a) == HashOf(sha, b) && HashOf(sha, a) !in m && a != b;
    var p: nat :| p < |xs| && xs[p] == a;
    var q: nat :| q < |xs| && xs[q] == b;
    i := FirstExists(sha, xs, p);
    j := if xs[i] != a then p else q;
    assert IsFirst(sha, xs, i);
  }

  /** The view in closed form: old keys, and for each new hash its first item. */
  lemma ViewMeaning(sha: Sha, m: Entries, items: seq<Item>)
    ensures var v := ViewAll(sha, View(m), items);
            && v.Keys == m.Keys + HashSet(sha, items)
            && (forall i: nat :: IsFirst(sha, items, i) && HashOf(sha, items[i]) !in m
                  ==> HashOf(sha, items[i]) in v && v[HashOf(sha, items[i])] == items[i])
  {
    hide PutAll, HashOf, HashSet, ViewAll, IsFirst;
    ViewOfPutAll(sha, m, items, 0);
    FirstWriteWins(sha, m, items, 0);
    assert View(PutAll(sha, m, items, 0)).Keys == PutAll(sha, m, items, 0).Keys;
  }

  lemma ConflictShows(net: Config, ledger: Ledger, m: Entries, xs: seq<Item>) returns (n: nat)
    requires PdaInjective(net.pda) && Represents(net, ledger, m) && Fits(net, xs) && !NoConflict(net.sha, m, xs)
    ensures 1 <= n <= |xs| && !ShowsView(net, LedgerAfter(net, ledger, CutAt(xs, n)), ViewAll(net.sha, View(m), xs))
  {
    hide HashOf, LedgerAfter, DecodeEntry, DataAt, ViewAll, View, Represents, NoConflict;
    var i, j := ConflictPositions(net.sha, m, xs);
    n := j + 1;
    var fs := CutAt(xs, n);
    assert fs[0].batch == xs[..n] && forall x :: x in xs[..n] ==> x in xs;
    assert IsLastItem(net.sha, xs[..n], j);
    FirstBatchDecides(net, ledger, m, fs, 0, j);
    ViewMeaning(net.sha, m, xs);
  }

  /** For every ledger that represents `m` and every sequence of items that fits: all ways to cut the sequence into
      batches show the first-write-wins view if and only if no hash new to `m` is named by two different items. */
  lemma CutsAgreeExactly(net: Config, ledger: Ledger, m: Entries, xs: seq<Item>)
    requires PdaInjective(net.pda) && Represents(net, ledger, m) && Fits(net, xs)
    ensures NoConflict(net.sha, m, xs) <==>
              forall fs :: Cut(net, ledger, fs, xs) ==> ShowsView(net, LedgerAfter(net, ledger, fs), ViewAll(net.sha, View(m), xs))
  {
    hide Represents, NoConflict, LedgerAfter, Answered, ShowsView, ViewAll, View, PdaInjective, Fits;
    if NoConflict(net.sha, m, xs) {
      forall fs | Cut(net, ledger, fs, xs) ensures ShowsView(net, LedgerAfter(net, ledger, fs), ViewAll(net.sha, View(m), xs)) {
        var m' := FlushesShow(net, ledger, m, fs, xs);
        RepresentsShows(net, LedgerAfter(net, ledger, fs), m');
      }
    } else {
      var n := ConflictShows(net, ledger, m, xs);
      CutAtIsCut(net, ledger, xs, n);
    }
  }

  // ---- flushes on the reference registry ----

  function PutTimes(sha: Sha, m: Entries, batch: seq<Item>, landed: seq<U64>): (r: Entries) {
    if landed == [] then m
    else PutAll(sha, PutTimes(sha, m, batch, landed[..|landed| - 1]), batch, landed[|landed| - 1])
  }

  /** A client that applies each attempt to the reference registry, as the mock adapter does. */
  function RegistryAfter(sha: Sha, m: Entries, fs: seq<Flush>): (r: Entries) {
    if fs == [] then m
    else PutTimes(sha, RegistryAfter(sha, m, fs[..|fs| - 1]), fs[|fs| - 1].batch, fs[|fs| - 1].landed)
  }

  lemma {:induction false} PutTimesView(sha: Sha, m: Entries, batch: seq<Item>, landed: seq<U64>)
    ensures View(PutTimes(sha, m, batch, landed)) == if landed == [] then View(m) else ViewAll(sha, View(m), batch)
  {
    hide PutAll, View, ViewAll;
    if landed == [] {
    } else {
      PutTimesView(sha, m, batch, landed[..|landed| - 1]);
      ViewOfPutAll(sha, PutTimes(sha, m, batch, landed[..|landed| - 1]), batch, landed[|landed| - 1]);
      ViewAllTwice(sha, View(m), batch);
    }
  }

  /** There every cut gives the view of the items, with or without conflicts, however often each batch was applied. */
  lemma {:induction false} RegistryShows(sha: Sha, m: Entries, fs: seq<Flush>)
    requires forall i :: 0 <= i < |fs| ==> fs[i].landed != []
    ensures View(RegistryAfter(sha, m, fs)) == ViewAll(sha, View(m), FlushedItems(fs))
  {
    hide PutTimes, View;
    if fs == [] {
    } else {
      var prior, last := fs[..|fs| - 1], fs[|fs| - 1];
      RegistryShows(sha, m, prior);
      PutTimesView(sha, RegistryAfter(sha, m, prior), last.batch, last.landed);
      hide ViewAll;
      ViewAllAppend(sha, View(m), FlushedItems(prior), last.batch);
    }
  }

  // ---- the engine ----

  /** A clean run of the engine, with batch size `n`, to its end. */
  ghost predicate CleanEnd(cfg: BatchConfig, n: nat, stream: seq<StreamItem>, file: Bytes, events: seq<Event>) {
    n >= 1 && CleanRun(events) && Run(cfg.(batch_size := n), Start(stream, file), events).phase == Done
  }

  ghost function FlushesOf(cfg: BatchConfig, n: nat, stream: seq<StreamItem>, file: Bytes, events: seq<Event>): (fs: seq<Flush>) {
    Run(cfg.(batch_size := n), Start(stream, file), events).flushes
  }

  /** The flushes of a clean run that ends are a cut of the wanted items. */
  lemma EngineCuts(cfg: BatchConfig, n: nat, stream: seq<StreamItem>, file: Bytes, events: seq<Event>)
    requires CleanEnd(cfg, n, stream, file, events)
    ensures var fs := FlushesOf(cfg, n, stream, file, events);
            && FlushedItems(fs) == Wanted(cfg, Load(file), stream)
            && forall i :: 0 <= i < |fs| ==> fs[i].ok && 1 <= |fs[i].batch| <= n
  {
    hide Run, Load;
    CleanRunResult(cfg.(batch_size := n), stream, file, events);
    WantedIgnoresBatchSize(cfg, cfg.(batch_size := n), Load(file), stream);
  }

  lemma {:induction false} FlushedAmongAnchored(fs: seq<Flush>, x: Item)
    ensures x in AnchoredItems(fs) ==> x in FlushedItems(fs)
  {
    if fs == [] {
    } else {
      FlushedAmongAnchored(fs[..|fs| - 1], x);
    }
  }

  lemma {:induction false} SentAmongFates(fates: seq<Fated>, x: Item)
    ensures x in SentOf(fates) ==> x in ItemsOf(fates)
  {
    if fates == [] {
    } else {
      var prior := fates[..|fates| - 1];
      SentAmongFates(prior, x);
      assert ItemsOf(fates) == ItemsOf(prior) + [fates[|fates| - 1].item];
    }
  }

  /** Over every run, with any failures, failing writes and shutdowns: entries in the ledger are untouched, new ones are
      wanted items under their own hash, and what was reported anchored is there. */
  lemma OnlyWantedReachTheChain(net: Config, cfg: BatchConfig, stream: seq<StreamItem>, file: Bytes, events: seq<Event>, ledger: Ledger)
    requires PdaInjective(net.pda) && cfg.batch_size >= 1
    ensures var s := Run(cfg, Start(stream, file), events);
            var after := LedgerAfter(net, ledger, s.flushes);
            && GrownBy(net, ledger, Wanted(cfg, Load(file), s.taken), after)
            && (Answered(net, ledger, s.flushes) ==> Filled(net, after, AnchoredItems(s.flushes)))
  {
    hide Run, Load, Wanted, LedgerAfter, AnchoredItems, Filled, GrownBy, Answered, PdaInjective, SentOf, Accounted;
    var s := Run(cfg, Start(stream, file), events);
    GrownByFlushes(net, ledger, s.flushes);
    if Answered(net, ledger, s.flushes) {
      AnchoredAreFilled(net, ledger, s.flushes);
    }
    var after := LedgerAfter(net, ledger, s.flushes);
    forall x | x in FlushedItems(s.flushes) ensures x in Wanted(cfg, Load(file), s.taken) {
      FlushedIsWanted(cfg, stream, file, events, x);
    }
    GrownByMore(net, ledger, FlushedItems(s.flushes), Wanted(cfg, Load(file), s.taken), after);
  }

  lemma GrownByMore(net: Config, a: Ledger, xs: seq<Item>, all: seq<Item>, b: Ledger)
    requires GrownBy(net, a, xs, b) && forall x :: x in xs ==> x in all
    ensures GrownBy(net, a, all, b)
  {
    hide DataAt, DecodeEntry, CidHash;
  }

  lemma FlushedIsWanted(cfg: BatchConfig, stream: seq<StreamItem>, file: Bytes, events: seq<Event>, x: Item)
    requires cfg.batch_size >= 1 && x in FlushedItems(Run(cfg, Start(stream, file), events).flushes)
    ensures x in Wanted(cfg, Load(file), Run(cfg, Start(stream, file), events).taken)
  {
    hide Run, Load, Wanted, FlushedItems, SentOf, StreamHashes;
    var s := Run(cfg, Start(stream, file), events);
    Conservation(cfg, stream, file, events);
    assert x in s.accepted;
    RunAccounts(cfg, stream, file, events);
    SentAmongFates(s.fates, x);
  }

  // ---- every cut is a clean run ----

  /** Nothing flushed or received yet, and the subscriber still listens. */
  ghost predicate Listening(s: Engine) {
    !s.subscriberDone && s.phase == Running && s.inflight.None? && s.buffer == [] && s.flushes == []
  }

  lemma SubscribeOnce(cfg: BatchConfig, s: Engine)
    requires Listening(s) && s.stream != []
    ensures var t := Next(cfg, s, Subscribe(true)); Listening(t) && t.stream == s.stream[1..]
  {
    hide EnvelopeHash, ParseEnvelope;
  }

  lemma {:induction false} TakeAll(cfg: BatchConfig, s: Engine) returns (events: seq<Event>)
    requires Listening(s)
    ensures CleanRun(events)
    ensures var t := Run(cfg, s, events); Listening(t) && t.stream == []
    decreases |s.stream|
  {
    hide Next, Run;
    if s.stream == [] {
      events := [];
      RunSnoc(cfg, s, [], Tick);
    } else {
      SubscribeOnce(cfg, s);
      var rest := TakeAll(cfg, Next(cfg, s, Subscribe(true)));
      events := [Subscribe(true)] + rest;
      RunOne(cfg, s, Subscribe(true));
      RunAppend(cfg, s, [Subscribe(true)], rest);
    }
  }

  lemma RunOne(cfg: BatchConfig, s: Engine, e: Event)
    ensures Run(cfg, s, [e]) == Next(cfg, s, e)
  {
    hide Next, Run;
    RunSnoc(cfg, s, [], e);
    assert [] + [e] == [e];
  }

  /** The anchorer waits with an empty buffer. */
  ghost predicate Idle(s: Engine) {
    Waiting(s) && s.buffer == []
  }

  lemma ReceiveNext(cfg: BatchConfig, s: Engine, k: nat)
    requires Idle(s) && k < |s.channel| && k + 1 < cfg.batch_size
    ensures Next(cfg, s.(channel := s.channel[k..], buffer := s.channel[..k]), Receive)
         == s.(channel := s.channel[k + 1..], buffer := s.channel[..k + 1])
  {
    assert s.channel[k..][1..] == s.channel[k + 1..] && s.channel[..k] + [s.channel[k]] == s.channel[..k + 1];
  }

  lemma {:induction false} ReceiveSome(cfg: BatchConfig, s: Engine, k: nat) returns (events: seq<Event>)
    requires Idle(s) && k <= |s.channel| && k < cfg.batch_size
    ensures CleanRun(events)
    ensures Run(cfg, s, events) == s.(channel := s.channel[k..], buffer := s.channel[..k])
  {
    hide Next, Run;
    if k == 0 {
      events := [];
      RunSnoc(cfg, s, [], Tick);
      assert s.channel[0..] == s.channel && s.channel[..0] == s.buffer;
    } else {
      var prior := ReceiveSome(cfg, s, k - 1);
      events := prior + [Receive];
      RunSnoc(cfg, s, prior, Receive);
      ReceiveNext(cfg, s, k - 1);
    }
  }

  /** The state once exactly the first `k` items of the channel are in flight. */
  function InFlight(s: Engine, k: nat): (r: Engine)
    requires k <= |s.channel|
  {
    s.(channel := s.channel[k..], buffer := [], inflight := Some(s.channel[..k]), leaving := false)
  }

  /** The last item of a batch, and the tick in case the batch is not full. */
  lemma FinishBatch(cfg: BatchConfig, s: Engine, k: nat)
    requires Idle(s) && k < |s.channel| && k + 1 <= cfg.batch_size
    ensures var t := s.(channel := s.channel[k..], buffer := s.channel[..k]);
            Next(cfg, Next(cfg, t, Receive), Tick) == InFlight(s, k + 1)
  {
    assert s.channel[k..][1..] == s.channel[k + 1..] && s.channel[..k] + [s.channel[k]] == s.channel[..k + 1];
  }

  lemma SettleBatch(cfg: BatchConfig, s: Engine, k: nat, landed: seq<U64>)
    requires Idle(s) && k <= |s.channel|
    ensures Next(cfg, InFlight(s, k), FlushOk(landed))
         == s.(channel := s.channel[k..], flushes := s.flushes + [Flush(s.channel[..k], landed, true)], leaving := false)
  {
  }

  lemma RealizeBatch(cfg: BatchConfig, s: Engine, f: Flush, rest: seq<Item>) returns (events: seq<Event>)
    requires Idle(s) && s.channel == f.batch + rest && 1 <= |f.batch| <= cfg.batch_size && f.ok
    ensures CleanRun(events)
    ensures Run(cfg, s, events) == s.(channel := rest, flushes := s.flushes + [f], leaving := false)
  {
    var k := |f.batch|;
    var some := ReceiveSome(cfg, s, k - 1);
    FinishBatch(cfg, s, k - 1);
    SettleBatch(cfg, s, k, f.landed);
    assert s.channel[..k] == f.batch && s.channel[k..] == rest;
    hide Next, Run, InFlight;
    RunSnoc(cfg, s, some, Receive);
    RunSnoc(cfg, s, some + [Receive], Tick);
    RunSnoc(cfg, s, some + [Receive] + [Tick], FlushOk(f.landed));
    events := some + [Receive] + [Tick] + [FlushOk(f.landed)];
  }

  lemma {:induction false} RealizeAll(cfg: BatchConfig, s: Engine, fs: seq<Flush>, rest: seq<Item>) returns (events: seq<Event>)
    requires Idle(s) && s.channel == FlushedItems(fs) + rest && !s.leaving
    requires forall i :: 0 <= i < |fs| ==> fs[i].ok && 1 <= |fs[i].batch| <= cfg.batch_size
    ensures CleanRun(events)
    ensures Run(cfg, s, events) == s.(channel := rest, flushes := s.flushes + fs)
  {
    hide Next, Run;
    if fs == [] {
      events := [];
      RunSnoc(cfg, s, [], Tick);
      assert s.flushes + [] == s.flushes && [] + rest == rest;
    } else {
      var prior, last := fs[..|fs| - 1], fs[|fs| - 1];
      Concat3(FlushedItems(prior), last.batch, rest);
      var before := RealizeAll(cfg, s, prior, last.batch + rest);
      var mid := Run(cfg, s, before);
      var more := RealizeBatch(cfg, mid, last, rest);
      events := before + more;
      RunAppend(cfg, s, before, more);
      assert s.flushes + prior + [last] == s.flushes + fs;
    }
  }

  lemma TakenAll(cfg: BatchConfig, stream: seq<StreamItem>, file: Bytes, events: seq<Event>)
    requires cfg.batch_size >= 1 && CleanRun(events)
    requires Listening(Run(cfg, Start(stream, file), events)) && Run(cfg, Start(stream, file), events).stream == []
    ensures var s := Run(cfg, Start(stream, file), events); s.channel == Wanted(cfg, Load(file), stream) && !s.leaving
  {
    hide Run, Load, Wanted, StreamHashes, ItemsOf, SentOf, FlushedItems;
    Conservation(cfg, stream, file, events);
    RunKeepsClean(cfg, stream, file, events);
    RunAccounts(cfg, stream, file, events);
    var s := Run(cfg, Start(stream, file), events);
    assert FlushedItems([]) == [] by {
      NoFlushes();
    }
    assert [] + [] + [] + s.channel == s.channel;
    assert s.taken + [] == s.taken;
  }

  lemma NoFlushes()
    ensures FlushedItems([]) == []
  {
  }

  lemma EndsAfter(cfg: BatchConfig, s: Engine, fs: seq<Flush>)
    requires Idle(s) && s.subscriberDone
    ensures var t := Next(cfg, s.(channel := [], flushes := fs), Closed); t.phase == Done && t.flushes == fs
  {
  }

  /** The subscriber's half: the whole stream is taken, and the wanted items wait in the channel. */
  lemma TakeStream(c: BatchConfig, stream: seq<StreamItem>, file: Bytes) returns (events: seq<Event>)
    requires c.batch_size >= 1
    ensures CleanRun(events)
    ensures var t := Run(c, Start(stream, file), events);
            Idle(t) && t.subscriberDone && !t.leaving && t.flushes == [] && t.channel == Wanted(c, Load(file), stream)
  {
    hide Run, Load, Wanted;
    var start := Start(stream, file);
    var taking := TakeAll(c, start);
    TakenAll(c, stream, file, taking);
    RunSnoc(c, start, taking, StreamEnd);
    events := taking + [StreamEnd];
  }

  /** Any cut of the wanted items into batches of at most the batch size is what some clean run of the engine flushes. */
  lemma RealizeCut(cfg: BatchConfig, n: nat, stream: seq<StreamItem>, file: Bytes, fs: seq<Flush>) returns (events: seq<Event>)
    requires n >= 1 && FlushedItems(fs) == Wanted(cfg, Load(file), stream)
    requires forall i :: 0 <= i < |fs| ==> fs[i].ok && 1 <= |fs[i].batch| <= n
    ensures CleanEnd(cfg, n, stream, file, events) && FlushesOf(cfg, n, stream, file, events) == fs
  {
    var c, start := cfg.(batch_size := n), Start(stream, file);
    WantedIgnoresBatchSize(cfg, c, Load(file), stream);
    hide Run, Start, Load, Wanted, FlushedItems, Next, Idle;
    var taking := TakeStream(c, stream, file);
    var t := Run(c, start, taking);
    assert FlushedItems(fs) + [] == FlushedItems(fs) && [] + fs == fs;
    var flushing := RealizeAll(c, t, fs, []);
    RunAppend(c, start, taking, flushing);
    EndsAfter(c, t, fs);
    RunSnoc(c, start, taking + flushing, Closed);
    events := taking + flushing + [Closed];
  }

  // ---- the engine on the chain ----

  /** Once a clean run has ended, every wanted item's PDA is filled; the ledger is otherwise as it was, and an entry that
      is new is a wanted item with that hash: the first one, if no two wanted items conflict. */
  lemma WantedAreAnchored(net: Config, cfg: BatchConfig, n: nat, stream: seq<StreamItem>, file: Bytes, events: seq<Event>,
                          ledger: Ledger, m: Entries)
    requires PdaInjective(net.pda) && Represents(net, ledger, m)
    requires CleanEnd(cfg, n, stream, file, events) && Answered(net, ledger, FlushesOf(cfg, n, stream, file, events))
    ensures var wanted, after := Wanted(cfg, Load(file), stream), LedgerAfter(net, ledger, FlushesOf(cfg, n, stream, file, events));
            && Filled(net, after, wanted) && GrownBy(net, ledger, wanted, after)
            && (NoConflict(net.sha, m, wanted) ==> ShowsView(net, after, ViewAll(net.sha, View(m), wanted)))
  {
    hide FlushesOf, CleanEnd, LedgerAfter, Answered, Load, Wanted, GrownBy, Filled, ShowsView, View, ViewAll, Represents, NoConflict;
    var fs := FlushesOf(cfg, n, stream, file, events);
    EngineCuts(cfg, n, stream, file, events);
    GrownByFlushes(net, ledger, fs);
    AnchoredAreFilled(net, ledger, fs);
    AllOk(fs);
    var wanted := Wanted(cfg, Load(file), stream);
    if NoConflict(net.sha, m, wanted) {
      var m' := FlushesShow(net, ledger, m, fs, wanted);
      RepresentsShows(net, LedgerAfter(net, ledger, fs), m');
    }
  }

  lemma {:induction false} WantedGrows(cfg: BatchConfig, seen: set<Bytes>, xs: seq<StreamItem>, ys: seq<StreamItem>)
    ensures |Wanted(cfg, seen, xs)| <= |Wanted(cfg, seen, xs + ys)|
    ensures forall x :: x in Wanted(cfg, seen, xs) ==> x in Wanted(cfg, seen, xs + ys)
  {
    if ys == [] {
      assert xs + ys == xs;
    } else {
      hide FirstOccurrence, ParseEnvelope;
      WantedGrows(cfg, seen, xs, ys[..|ys| - 1]);
      assert (xs + ys)[..|xs + ys| - 1] == xs + ys[..|ys| - 1];
    }
  }

  /** In a clean run over wanted items that fit, what is in flight fits. */
  lemma InFlightFits(net: Config, cfg: BatchConfig, stream: seq<StreamItem>, file: Bytes, events: seq<Event>)
    requires cfg.batch_size >= 1 && CleanRun(events) && Fits(net, Wanted(cfg, Load(file), stream))
    ensures Fits(net, Pending(Run(cfg, Start(stream, file), events)))
  {
    hide Run, Load, Wanted, ItemsOf, SentOf, StreamHashes, FlushedItems, Pending;
    var s := Run(cfg, Start(stream, file), events);
    Conservation(cfg, stream, file, events);
    RunKeepsClean(cfg, stream, file, events);
    RunAccounts(cfg, stream, file, events);
    WantedGrows(cfg, Load(file), s.taken, s.stream);
    assert forall x :: x in Pending(s) ==> x in s.accepted;
    assert |Pending(s)| <= |s.accepted|;
  }

  /** The next possible step keeps the answers right, if a flush in flight lands once. */
  lemma AnsweredStep(net: Config, cfg: BatchConfig, s: Engine, ledger: Ledger)
    requires Answered(net, ledger, s.flushes) && Fits(net, Pending(s))
    ensures Answered(net, ledger, Next(cfg, s, Possible(s)).flushes)
  {
    hide Answered, Fits, ParseEnvelope, EnvelopeHash;
    if s.inflight.Some? {
      OneBatchAnswered(net, ledger, s.flushes, Flush(s.inflight.value, [0], true));
    }
  }

  /** Any clean run whose client's answers were right so far can be continued to such an end. */
  lemma {:induction false} AnsweredCompletion(net: Config, cfg: BatchConfig, stream: seq<StreamItem>, file: Bytes, events: seq<Event>,
                                              ledger: Ledger) returns (more: seq<Event>)
    requires cfg.batch_size >= 1 && CleanRun(events) && Fits(net, Wanted(cfg, Load(file), stream))
    requires Answered(net, ledger, Run(cfg, Start(stream, file), events).flushes)
    ensures CleanRun(more) && Run(cfg, Start(stream, file), events + more).phase == Done
    ensures Answered(net, ledger, Run(cfg, Start(stream, file), events + more).flushes)
    decreases Measure(Run(cfg, Start(stream, file), events))
  {
    hide Run, Next, Load, Wanted, Answered, Fits, Measure, Start;
    var start := Start(stream, file);
    var s := Run(cfg, start, events);
    CleanNotFailed(cfg, stream, file, events);
    if s.phase == Done {
      more := [];
      assert events + [] == events;
    } else {
      var e := Possible(s);
      NeverStuck(cfg, s);
      StepsDecrease(cfg, s, e);
      InFlightFits(net, cfg, stream, file, events);
      AnsweredStep(net, cfg, s, ledger);
      RunSnoc(cfg, start, events, e);
      var rest := AnsweredCompletion(net, cfg, stream, file, events + [e], ledger);
      more := [e] + rest;
      Concat3(events, [e], rest);
    }
  }

  /** Confluence on the chain, exactly: from a ledger that represents `m`, all clean runs to the end, with any batch
      sizes, interleavings and ticks, show the first-write-wins view of the wanted items if and only if no hash new to
      `m` is named by two different wanted items. */
  lemma ChainConfluenceExactly(net: Config, cfg: BatchConfig, stream: seq<StreamItem>, file: Bytes, ledger: Ledger, m: Entries)
    requires PdaInjective(net.pda) && Represents(net, ledger, m) && Fits(net, Wanted(cfg, Load(file), stream))
    ensures var wanted := Wanted(cfg, Load(file), stream);
            NoConflict(net.sha, m, wanted) <==>
              forall n: nat, events ::
                var fs := FlushesOf(cfg, n, stream, file, events);
                CleanEnd(cfg, n, stream, file, events) && Answered(net, ledger, fs)
                ==> ShowsView(net, LedgerAfter(net, ledger, fs), ViewAll(net.sha, View(m), wanted))
  {
    hide FlushesOf, CleanEnd, LedgerAfter, Answered, Load, Wanted, GrownBy, Filled, ShowsView, View, ViewAll;
    hide Represents, NoConflict, Fits, PdaInjective;
    var wanted := Wanted(cfg, Load(file), stream);
    if NoConflict(net.sha, m, wanted) {
      forall n: nat, events | CleanEnd(cfg, n, stream, file, events) && Answered(net, ledger, FlushesOf(cfg, n, stream, file, events))
        ensures ShowsView(net, LedgerAfter(net, ledger, FlushesOf(cfg, n, stream, file, events)), ViewAll(net.sha, View(m), wanted))
      {
        WantedAreAnchored(net, cfg, n, stream, file, events, ledger, m);
      }
    } else {
      var k := ConflictShows(net, ledger, m, wanted);
      CutAtIsCut(net, ledger, wanted, k);
      hide FlushedItems;
      var events := RealizeCut(cfg, |wanted|, stream, file, CutAt(wanted, k));
      assert FlushesOf(cfg, |wanted|, stream, file, events) == CutAt(wanted, k);
    }
  }

  /** With a client of the reference registry there is no such condition: all clean runs leave the same view. */
  lemma ReferenceConfluence(sha: Sha, cfg: BatchConfig, n: nat, stream: seq<StreamItem>, file: Bytes, events: seq<Event>, m: Entries)
    requires CleanEnd(cfg, n, stream, file, events)
    requires forall i :: 0 <= i < |FlushesOf(cfg, n, stream, file, events)| ==> FlushesOf(cfg, n, stream, file, events)[i].landed != []
    ensures View(RegistryAfter(sha, m, FlushesOf(cfg, n, stream, file, events))) == ViewAll(sha, View(m), Wanted(cfg, Load(file), stream))
  {
    hide FlushesOf, CleanEnd, Load, Wanted, View, ViewAll;
    EngineCuts(cfg, n, stream, file, events);
    RegistryShows(sha, m, FlushesOf(cfg, n, stream, file, events));
  }
}
