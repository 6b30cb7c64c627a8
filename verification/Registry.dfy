/** The reference registry of core/src/lib.rs: one entry per CID hash, first write wins. */
module Registry {
  import opened Basics
  import opened Text

  datatype AnchorEntry = AnchorEntry(cid: Cid, cid_hash: Digest, metadata_hash: Digest, anchor_timestamp: U64)

  datatype Item = Item(cid: Cid, metadata_hash: Digest)

  datatype Instruction =
    | AnchorOne(item: Item, anchor_timestamp: U64)
    | AnchorBatch(entries: seq<Item>, anchor_timestamp: U64)
  {
    function Items(): (r: seq<Item>) {
      if AnchorOne? then [item] else entries
    }
  }

  type Entries = map<Digest, AnchorEntry>

  datatype OneOutcome = OneOutcome(entry: AnchorEntry, inserted: bool)

  datatype BatchOutcome = BatchOutcome(entries: seq<AnchorEntry>, inserted: nat, skipped_existing: nat)

  datatype Outcome = One(one: OneOutcome) | Batch(batch: BatchOutcome)

  /** CID_HASH_DOMAIN is "lp0017:cid:v1" followed by a NUL. */
  function CidPreimage(cid: Cid): (r: Bytes) {
    Ascii("lp0017:cid:v1") + [0] + cid
  }

  /** The hashed text: the thirteen characters "lp0017:cid:v1", a NUL, and all of the CID; so no two CIDs share it. */
  lemma PreimageExactly(cid: Cid, other: Cid)
    ensures CidPreimage(cid) == [0x6C, 0x70, 0x30, 0x30, 0x31, 0x37, 0x3A, 0x63, 0x69, 0x64, 0x3A, 0x76, 0x31, 0x00] + cid
    ensures CidPreimage(cid) == CidPreimage(other) <==> cid == other
  {
    assert Ascii("lp0017:cid:v1") == [0x6C, 0x70, 0x30, 0x30, 0x31, 0x37, 0x3A, 0x63, 0x69, 0x64, 0x3A, 0x76, 0x31];
    hide Ascii;
    var p := Ascii("lp0017:cid:v1") + [0];
    assert CidPreimage(cid)[|p|..] == cid && CidPreimage(other)[|p|..] == other;
  }

  function CidHash(sha: Sha, cid: Cid): (r: Digest) {
    sha(CidPreimage(cid))
  }

  function HashOf(sha: Sha, item: Item): (r: Digest) {
    CidHash(sha, item.cid)
  }

  function EntryFor(sha: Sha, item: Item, ts: U64): (r: AnchorEntry) {
    AnchorEntry(item.cid, HashOf(sha, item), item.metadata_hash, ts)
  }

  // ---- what the mutating methods compute, on values ----

  function Put(sha: Sha, m: Entries, item: Item, ts: U64): (r: Entries) {
    if HashOf(sha, item) in m then m else m[HashOf(sha, item) := EntryFor(sha, item, ts)]
  }

  function PutAll(sha: Sha, m: Entries, items: seq<Item>, ts: U64): (r: Entries) {
    if items == [] then m
    else Put(sha, PutAll(sha, m, items[..|items| - 1], ts), items[|items| - 1], ts)
  }

  /** The outcome so far, extended by what `anchor_one` gives for one more item on registry `before`. */
  function Extended(sha: Sha, before: Entries, prior: BatchOutcome, item: Item, ts: U64): (r: BatchOutcome) {
    var h := HashOf(sha, item);
    if h in before
    then BatchOutcome(prior.entries + [before[h]], prior.inserted, prior.skipped_existing + 1)
    else BatchOutcome(prior.entries + [EntryFor(sha, item, ts)], prior.inserted + 1, prior.skipped_existing)
  }

  /** The outcome of a batch, element by element as the loop produces it. */
  function BatchResult(sha: Sha, m: Entries, items: seq<Item>, ts: U64): (r: BatchOutcome) {
    if items == [] then BatchOutcome([], 0, 0)
    else
      var prior := items[..|items| - 1];
      Extended(sha, PutAll(sha, m, prior, ts), BatchResult(sha, m, prior, ts), items[|items| - 1], ts)
  }

  function ApplyResult(sha: Sha, m: Entries, i: Instruction): (r: Outcome) {
    if i.AnchorBatch? then Batch(BatchResult(sha, m, i.entries, i.anchor_timestamp))
    else
      var h := HashOf(sha, i.item);
      One(if h in m then OneOutcome(m[h], false) else OneOutcome(EntryFor(sha, i.item, i.anchor_timestamp), true))
  }

  // ---- what that means ----

  /** Every entry sits under the hash it names, and that is the hash of its CID. */
  ghost predicate WellKeyed(sha: Sha, m: Entries) {
    forall h :: h in m ==> m[h].cid_hash == h && CidHash(sha, m[h].cid) == h
  }

  /** No earlier item of the batch has the same CID hash. */
  ghost predicate IsFirst(sha: Sha, items: seq<Item>, i: nat) {
    i < |items| && forall j :: 0 <= j < i ==> HashOf(sha, items[j]) != HashOf(sha, items[i])
  }

  ghost predicate DistinctHashes(sha: Sha, items: seq<Item>) {
    forall i, j :: 0 <= i < j < |items| ==> HashOf(sha, items[i]) != HashOf(sha, items[j])
  }

  function HashSet(sha: Sha, items: seq<Item>): (r: set<Digest>) {
    set i | 0 <= i < |items| :: HashOf(sha, items[i])
  }

  lemma HashSetSnoc(sha: Sha, items: seq<Item>)
    requires items != []
    ensures HashSet(sha, items) == HashSet(sha, items[..|items| - 1]) + {HashOf(sha, items[|items| - 1])}
  {
    hide HashOf;
    var n := |items| - 1;
    forall h | h in HashSet(sha, items) ensures h in HashSet(sha, items[..n]) + {HashOf(sha, items[n])} {
      var i :| 0 <= i < |items| && HashOf(sha, items[i]) == h;
      assert i < n ==> items[..n][i] == items[i];
    }
    forall h | h in HashSet(sha, items[..n]) ensures h in HashSet(sha, items) {
      var i :| 0 <= i < n && HashOf(sha, items[..n][i]) == h;
      assert items[i] == items[..n][i];
    }
  }

  lemma {:induction false} PutAllKeys(sha: Sha, m: Entries, items: seq<Item>, ts: U64)
    ensures PutAll(sha, m, items, ts).Keys == m.Keys + HashSet(sha, items)
    ensures forall h :: h in m ==> PutAll(sha, m, items, ts)[h] == m[h]
  {
    hide HashOf;
    if items == [] {
    } else {
      hide HashSet;
      PutAllKeys(sha, m, items[..|items| - 1], ts);
      HashSetSnoc(sha, items);
    }
  }

  lemma {:induction false} FirstItemStored(sha: Sha, m: Entries, items: seq<Item>, ts: U64, i: nat)
    requires IsFirst(sha, items, i) && HashOf(sha, items[i]) !in m
    ensures HashOf(sha, items[i]) in PutAll(sha, m, items, ts)
    ensures PutAll(sha, m, items, ts)[HashOf(sha, items[i])] == EntryFor(sha, items[i], ts)
  {
    hide HashOf;
    var n := |items| - 1;
    var prior := items[..n];
    if i < n {
      FirstItemStored(sha, m, prior, ts, i);
    } else {
      PutAllKeys(sha, m, prior, ts);
      assert HashOf(sha, items[n]) !in HashSet(sha, prior);
    }
  }

  /** The final map in closed form: old entries untouched, and for each new hash its first item. */
  lemma FirstWriteWins(sha: Sha, m: Entries, items: seq<Item>, ts: U64)
    ensures var r := PutAll(sha, m, items, ts);
            && r.Keys == m.Keys + HashSet(sha, items)
            && (forall h :: h in m ==> r[h] == m[h])
            && (forall i: nat :: IsFirst(sha, items, i) && HashOf(sha, items[i]) !in m
                  ==> HashOf(sha, items[i]) in r
                      && r[HashOf(sha, items[i])] == AnchorEntry(items[i].cid, CidHash(sha, items[i].cid), items[i].metadata_hash, ts))
  {
    hide PutAll, CidHash, HashSet;
    PutAllKeys(sha, m, items, ts);
    forall i: nat | IsFirst(sha, items, i) && HashOf(sha, items[i]) !in m
      ensures HashOf(sha, items[i]) in PutAll(sha, m, items, ts)
      ensures PutAll(sha, m, items, ts)[HashOf(sha, items[i])] == EntryFor(sha, items[i], ts)
    {
      FirstItemStored(sha, m, items, ts, i);
    }
  }

  /** Every hash of a batch has a first item. */
  lemma {:induction false} FirstExists(sha: Sha, items: seq<Item>, k: nat) returns (i: nat)
    requires k < |items|
    ensures i <= k && IsFirst(sha, items, i) && HashOf(sha, items[i]) == HashOf(sha, items[k])
  {
    if j: nat :| j < k && HashOf(sha, items[j]) == HashOf(sha, items[k]) {
      i := FirstExists(sha, items, j);
    } else {
      i := k;
    }
  }

  lemma {:induction false} BatchCounters(sha: Sha, m: Entries, items: seq<Item>, ts: U64)
    ensures var r, out := PutAll(sha, m, items, ts), BatchResult(sha, m, items, ts);
            && |out.entries| == |items| == out.inserted + out.skipped_existing
            && |r| == |m| + out.inserted
  {
    hide HashOf;
    if items == [] {
    } else {
      BatchCounters(sha, m, items[..|items| - 1], ts);
    }
  }

  lemma {:induction false} ReturnedEntry(sha: Sha, m: Entries, items: seq<Item>, ts: U64, i: nat)
    requires i < |items|
    ensures var r, out := PutAll(sha, m, items, ts), BatchResult(sha, m, items, ts);
            i < |out.entries| && HashOf(sha, items[i]) in r && out.entries[i] == r[HashOf(sha, items[i])]
  {
    hide HashOf;
    var n := |items| - 1;
    BatchCounters(sha, m, items[..n], ts);
    if i < n {
      ReturnedEntry(sha, m, items[..n], ts, i);
    }
  }

  /** Counters, growth, and what is returned for each position. */
  lemma BatchAccounting(sha: Sha, m: Entries, items: seq<Item>, ts: U64)
    ensures var r, out := PutAll(sha, m, items, ts), BatchResult(sha, m, items, ts);
            && |out.entries| == |items| == out.inserted + out.skipped_existing
            && |r| == |m| + out.inserted
            && out.inserted == |HashSet(sha, items) - m.Keys|
            && (forall i :: 0 <= i < |items| ==> HashOf(sha, items[i]) in r && out.entries[i] == r[HashOf(sha, items[i])])
  {
    hide PutAll, BatchResult, HashOf, HashSet;
    BatchCounters(sha, m, items, ts);
    PutAllKeys(sha, m, items, ts);
    var added := HashSet(sha, items) - m.Keys;
    assert PutAll(sha, m, items, ts).Keys == m.Keys + added;
    forall i | 0 <= i < |items|
      ensures HashOf(sha, items[i]) in PutAll(sha, m, items, ts)
      ensures BatchResult(sha, m, items, ts).entries[i] == PutAll(sha, m, items, ts)[HashOf(sha, items[i])]
    {
      ReturnedEntry(sha, m, items, ts, i);
    }
  }

  lemma {:induction false} PutAllKeepsKeys(sha: Sha, m: Entries, items: seq<Item>, ts: U64)
    requires WellKeyed(sha, m)
    ensures WellKeyed(sha, PutAll(sha, m, items, ts))
  {
    hide CidHash;
    if items == [] {
    } else {
      PutAllKeepsKeys(sha, m, items[..|items| - 1], ts);
    }
  }

  /** Any sequence of instructions, from any well-keyed registry. */
  function ApplyAll(sha: Sha, m: Entries, run: seq<Instruction>): (r: Entries) {
    if run == [] then m
    else
      var last := run[|run| - 1];
      PutAll(sha, ApplyAll(sha, m, run[..|run| - 1]), last.Items(), last.anchor_timestamp)
  }

  /** How many entries one outcome reports as inserted. */
  function InsertedBy(o: Outcome): (n: nat) {
    match o
    case One(one) => if one.inserted then 1 else 0
    case Batch(batch) => batch.inserted
  }

  /** The sum of what the outcomes of a run report. */
  function TotalInserted(sha: Sha, m: Entries, run: seq<Instruction>): (n: nat) {
    if run == [] then 0
    else
      var prior := run[..|run| - 1];
      TotalInserted(sha, m, prior) + InsertedBy(ApplyResult(sha, ApplyAll(sha, m, prior), run[|run| - 1]))
  }

  lemma InsertedIsGrowth(sha: Sha, m: Entries, i: Instruction)
    ensures |PutAll(sha, m, i.Items(), i.anchor_timestamp)| == |m| + InsertedBy(ApplyResult(sha, m, i))
  {
    hide HashOf;
    match i {
      case AnchorOne(item, ts) =>
        assert [item][..0] == [];
        assert PutAll(sha, m, [], ts) == m && PutAll(sha, m, [item], ts) == Put(sha, m, item, ts);
      case AnchorBatch(items, ts) =>
        BatchCounters(sha, m, items, ts);
    }
  }

  /** Over every run: keys stay right, no entry is ever changed or removed, and growth is what the counters say. */
  lemma {:induction false} RunKeepsEntries(sha: Sha, m: Entries, run: seq<Instruction>)
    requires WellKeyed(sha, m)
    ensures var r := ApplyAll(sha, m, run);
            && WellKeyed(sha, r) && m.Keys <= r.Keys && (forall h :: h in m ==> r[h] == m[h])
            && |r| == |m| + TotalInserted(sha, m, run)
  {
    hide CidHash, ApplyResult, InsertedBy, PutAll;
    if run == [] {
    } else {
      var last, before := run[|run| - 1], ApplyAll(sha, m, run[..|run| - 1]);
      RunKeepsEntries(sha, m, run[..|run| - 1]);
      PutAllKeepsKeys(sha, before, last.Items(), last.anchor_timestamp);
      PutAllKeys(sha, before, last.Items(), last.anchor_timestamp);
      InsertedIsGrowth(sha, before, last);
    }
  }

  lemma {:induction false} PutAllAppend(sha: Sha, m: Entries, xs: seq<Item>, ys: seq<Item>, ts: U64)
    ensures PutAll(sha, m, xs + ys, ts) == PutAll(sha, PutAll(sha, m, xs, ts), ys, ts)
  {
    hide HashOf;
    if ys == [] {
      assert xs + ys == xs;
    } else {
      PutAllAppend(sha, m, xs, ys[..|ys| - 1], ts);
      assert (xs + ys)[..|xs + ys| - 1] == xs + ys[..|ys| - 1];
    }
  }

  function Joined(a: BatchOutcome, b: BatchOutcome): (r: BatchOutcome) {
    BatchOutcome(a.entries + b.entries, a.inserted + b.inserted, a.skipped_existing + b.skipped_existing)
  }

  lemma JoinedExtended(sha: Sha, before: Entries, a: BatchOutcome, b: BatchOutcome, item: Item, ts: U64)
    ensures Extended(sha, before, Joined(a, b), item, ts) == Joined(a, Extended(sha, before, b, item, ts))
    ensures Joined(a, BatchOutcome([], 0, 0)) == a
  {
    hide HashOf, EntryFor;
  }

  /** Splitting a batch changes neither the map, nor the returned entries, nor the summed counters. */
  lemma {:induction false} BatchSplits(sha: Sha, m: Entries, xs: seq<Item>, ys: seq<Item>, ts: U64)
    ensures PutAll(sha, m, xs + ys, ts) == PutAll(sha, PutAll(sha, m, xs, ts), ys, ts)
    ensures BatchResult(sha, m, xs + ys, ts)
         == Joined(BatchResult(sha, m, xs, ts), BatchResult(sha, PutAll(sha, m, xs, ts), ys, ts))
  {
    hide PutAll, Joined, Extended;
    var mid, a := PutAll(sha, m, xs, ts), BatchResult(sha, m, xs, ts);
    PutAllAppend(sha, m, xs, ys, ts);
    if ys == [] {
      assert xs + ys == xs;
      assert BatchResult(sha, mid, [], ts) == BatchOutcome([], 0, 0);
      JoinedExtended(sha, m, a, a, Item([], seq(32, _ => 0)), ts);
    } else {
      var init, last := ys[..|ys| - 1], ys[|ys| - 1];
      PutAllAppend(sha, m, xs, init, ts);
      BatchSplits(sha, m, xs, init, ts);
      assert (xs + ys)[..|xs + ys| - 1] == xs + init;
      JoinedExtended(sha, PutAll(sha, m, xs + init, ts), a, BatchResult(sha, mid, init, ts), last, ts);
    }
  }

  /** Submitting a batch again, with any later timestamp, changes nothing and returns the same entries. */
  lemma {:induction false} ReplayIsNoOp(sha: Sha, m: Entries, items: seq<Item>, ts: U64, later: U64)
    ensures var r := PutAll(sha, m, items, ts);
            && PutAll(sha, r, items, later) == r
            && BatchResult(sha, r, items, later) == BatchOutcome(BatchResult(sha, m, items, ts).entries, 0, |items|)
  {
    hide HashOf, PutAll, BatchResult;
    var r := PutAll(sha, m, items, ts);
    FirstWriteWins(sha, m, items, ts);
    BatchAccounting(sha, m, items, ts);
    FirstWriteWins(sha, r, items, later);
    BatchAccounting(sha, r, items, later);
    assert HashSet(sha, items) - r.Keys == {};
    assert BatchResult(sha, r, items, later).entries == BatchResult(sha, m, items, ts).entries;
  }

  lemma DistinctItemStored(sha: Sha, m: Entries, items: seq<Item>, ts: U64, item: Item)
    requires DistinctHashes(sha, items) && item in items && HashOf(sha, item) !in m
    ensures HashOf(sha, item) in PutAll(sha, m, items, ts)
    ensures PutAll(sha, m, items, ts)[HashOf(sha, item)] == EntryFor(sha, item, ts)
  {
    hide PutAll, HashOf;
    var i: nat :| i < |items| && items[i] == item;
    assert IsFirst(sha, items, i);
    FirstItemStored(sha, m, items, ts, i);
  }

  /** The order inside a batch does not matter when its CID hashes are distinct. */
  lemma PermutationKeepsMap(sha: Sha, m: Entries, xs: seq<Item>, ys: seq<Item>, ts: U64)
    requires multiset(xs) == multiset(ys) && DistinctHashes(sha, xs) && DistinctHashes(sha, ys)
    ensures PutAll(sha, m, xs, ts) == PutAll(sha, m, ys, ts)
  {
    hide PutAll, HashOf, DistinctHashes, EntryFor;
    forall x: Item ensures x in xs <==> x in ys {
      assert x in xs <==> x in multiset(xs);
      assert x in ys <==> x in multiset(ys);
    }
    PutAllKeys(sha, m, xs, ts);
    PutAllKeys(sha, m, ys, ts);
    SameItemsSameHashes(sha, xs, ys);
    SameItemsSameHashes(sha, ys, xs);
    var a, b := PutAll(sha, m, xs, ts), PutAll(sha, m, ys, ts);
    forall h | h in a && h !in m ensures a[h] == b[h] {
      var i :| 0 <= i < |xs| && HashOf(sha, xs[i]) == h;
      DistinctItemStored(sha, m, xs, ts, xs[i]);
      DistinctItemStored(sha, m, ys, ts, xs[i]);
    }
  }

  lemma SameItemsSameHashes(sha: Sha, xs: seq<Item>, ys: seq<Item>)
    requires forall x :: x in xs ==> x in ys
    ensures HashSet(sha, xs) <= HashSet(sha, ys)
  {
    forall i | 0 <= i < |xs| ensures HashOf(sha, xs[i]) in HashSet(sha, ys) {
      assert xs[i] in ys;
      var j :| 0 <= j < |ys| && ys[j] == xs[i];
    }
  }

  /** The one-entry instruction does what a batch of one does. */
  lemma OneIsBatchOfOne(sha: Sha, m: Entries, item: Item, ts: U64)
    ensures var one, batch := ApplyResult(sha, m, AnchorOne(item, ts)), ApplyResult(sha, m, AnchorBatch([item], ts));
            && one.One? && batch.Batch?
            && batch.batch == BatchOutcome([one.one.entry], if one.one.inserted then 1 else 0, if one.one.inserted then 0 else 1)
  {
    hide HashOf, EntryFor;
    assert [item][..0] == [];
    assert PutAll(sha, m, [], ts) == m && BatchResult(sha, m, [], ts) == BatchOutcome([], 0, 0);
  }

  // ---- the timestamp-free view, which does not depend on how items were batched ----

  function View(m: Entries): (r: map<Digest, Item>) {
    map h | h in m :: Item(m[h].cid, m[h].metadata_hash)
  }

  function ViewAll(sha: Sha, v: map<Digest, Item>, items: seq<Item>): (r: map<Digest, Item>) {
    if items == [] then v
    else
      var before, last := ViewAll(sha, v, items[..|items| - 1]), items[|items| - 1];
      if HashOf(sha, last) in before then before else before[HashOf(sha, last) := last]
  }

  lemma {:induction false} ViewOfPutAll(sha: Sha, m: Entries, items: seq<Item>, ts: U64)
    ensures View(PutAll(sha, m, items, ts)) == ViewAll(sha, View(m), items)
  {
    hide HashOf;
    if items == [] {
    } else {
      ViewOfPutAll(sha, m, items[..|items| - 1], ts);
    }
  }

  lemma {:induction false} ViewAllAppend(sha: Sha, v: map<Digest, Item>, xs: seq<Item>, ys: seq<Item>)
    ensures ViewAll(sha, v, xs + ys) == ViewAll(sha, ViewAll(sha, v, xs), ys)
  {
    hide HashOf;
    if ys == [] {
      assert xs + ys == xs;
    } else {
      ViewAllAppend(sha, v, xs, ys[..|ys| - 1]);
      assert (xs + ys)[..|xs + ys| - 1] == xs + ys[..|ys| - 1];
    }
  }

  // ---- the mutable registry ----

  class RegistryState {
    const sha: Sha
    var entries: Entries

    constructor (sha: Sha)
      ensures this.sha == sha && entries == map[]
    {
      this.sha := sha;
      entries := map[];
    }

    method Apply(instruction: Instruction) returns (outcome: Outcome)
      modifies this
      ensures entries == PutAll(sha, old(entries), instruction.Items(), instruction.anchor_timestamp)
      ensures outcome == ApplyResult(sha, old(entries), instruction)
    {
      match instruction {
        case AnchorOne(item, ts) =>
          var one := AnchorOne(item.cid, item.metadata_hash, ts);
          outcome := One(one);
          assert [item][..0] == [];
          assert PutAll(sha, old(entries), [], ts) == old(entries);
        case AnchorBatch(items, ts) =>
          var batch := AnchorBatch(items, ts);
          outcome := Batch(batch);
      }
    }

    method AnchorOne(cid: Cid, metadata_hash: Digest, anchor_timestamp: U64) returns (outcome: OneOutcome)
      modifies this
      ensures entries == Put(sha, old(entries), Item(cid, metadata_hash), anchor_timestamp)
      ensures CidHash(sha, cid) in entries && outcome.entry == entries[CidHash(sha, cid)]
      ensures outcome.inserted <==> CidHash(sha, cid) !in old(entries)
    {
      var cid_hash := CidHash(sha, cid);
      if cid_hash in entries {
        return OneOutcome(entries[cid_hash], false);
      }
      var entry := AnchorEntry(cid, cid_hash, metadata_hash, anchor_timestamp);
      entries := entries[cid_hash := entry];
      outcome := OneOutcome(entry, true);
    }

    method AnchorBatch(items: seq<Item>, anchor_timestamp: U64) returns (outcome: BatchOutcome)
      modifies this
      ensures entries == PutAll(sha, old(entries), items, anchor_timestamp)
      ensures outcome == BatchResult(sha, old(entries), items, anchor_timestamp)
    {
      var anchored: seq<AnchorEntry> := [];
      var inserted, skipped_existing := 0, 0;
      for i := 0 to |items|
        invariant entries == PutAll(sha, old(entries), items[..i], anchor_timestamp)
        invariant BatchOutcome(anchored, inserted, skipped_existing) == BatchResult(sha, old(entries), items[..i], anchor_timestamp)
      {
        assert items[..i + 1][..i] == items[..i];
        var one := AnchorOne(items[i].cid, items[i].metadata_hash, anchor_timestamp);
        if one.inserted {
          inserted := inserted + 1;
        } else {
          skipped_existing := skipped_existing + 1;
        }
        anchored := anchored + [one.entry];
      }
      assert items[..|items|] == items;
      outcome := BatchOutcome(anchored, inserted, skipped_existing);
    }

    method QueryByCidHash(cid_hash: Digest) returns (found: Option<AnchorEntry>)
      ensures found.Some? <==> cid_hash in entries
      ensures found.Some? ==> found.value == entries[cid_hash]
    {
      found := if cid_hash in entries then Some(entries[cid_hash]) else None;
    }
  }
}
