/** Many clients of adapters/lez/src/lib.rs against one ledger. Transactions may land in any order, late, repeatedly
    or never; a call that gave up may be made again with a fresh timestamp; anybody may submit anything. */
module Chain {
  import opened Basics
  import opened Text
  import opened Registry
  import opened Borsh
  import opened Guest

  /** A client waiting for its PDAs to fill: the request, and the entries read so far. */
  datatype Client = Client(items: seq<Item>, out: seq<AnchorEntry>)

  datatype Reply =
    | Anchored(items: seq<Item>, entries: seq<AnchorEntry>)
    | Found(cid_hash: Digest, entry: AnchorEntry)

  /** `pool` is every transaction ever submitted. */
  datatype State = State(ledger: Ledger, pool: seq<Tx>, clients: map<nat, Client>, replies: seq<Reply>)

  datatype Event =
    | Call(client: nat, instruction: Instruction, reaches: bool, acked: bool)  // submit_and_wait
    | Raw(tx: Tx)                                                             // someone else's transaction
    | Land(k: nat)                                                            // a submitted transaction executes
    | Poll(client: nat)                                                       // one read of read_entry_until
    | GiveUp(client: nat)                                                     // timeout or fetch error
    | Query(cid_hash: Digest)

  function Initial(): (s: State) {
    State(map[], [], map[], [])
  }

  function PdasOf(cfg: Config, items: seq<Item>): (r: seq<AccountId>)
    ensures |r| == |items|
  {
    seq(|items|, i requires 0 <= i < |items| => PdaOf(cfg, items[i]))
  }

  function Forget(s: State, client: nat): (r: State) {
    s.(clients := s.clients - {client})
  }

  function Next(cfg: Config, s: State, e: Event): (r: State) {
    match e
    case Call(c, i, reaches, acked) =>
      (match EncodeInstruction(i)
       case None => Forget(s, c)
       case Some(payload) =>
         var pool := if reaches then s.pool + [Tx(PdasOf(cfg, i.Items()), payload)] else s.pool;
         var sent := s.(pool := pool);
         if acked then sent.(clients := s.clients[c := Client(i.Items(), [])]) else Forget(sent, c))
    case Raw(tx) => s.(pool := s.pool + [tx])
    case Land(k) => if k < |s.pool| then s.(ledger := Execute(cfg, s.ledger, s.pool[k])) else s
    case Poll(c) => if c in s.clients then PollStep(cfg, s, c) else s
    case GiveUp(c) => Forget(s, c)
    case Query(h) =>
      (match DecodeEntry(DataAt(s.ledger, cfg.pda(h)))
       case None => s
       case Some(entry) => s.(replies := s.replies + [Found(h, entry)]))
  }

  function PollStep(cfg: Config, s: State, c: nat): (r: State)
    requires c in s.clients
  {
    var cl := s.clients[c];
    if |cl.out| >= |cl.items| then
      Forget(s, c).(replies := s.replies + [Anchored(cl.items, cl.out)])
    else
      var data := DataAt(s.ledger, PdaOf(cfg, cl.items[|cl.out|]));
      if data == [] then s
      else
        match DecodeEntry(data)
        case None => Forget(s, c)
        case Some(entry) => s.(clients := s.clients[c := cl.(out := cl.out + [entry])])
  }

  function Run(cfg: Config, s: State, events: seq<Event>): (r: State) {
    if events == [] then s
    else Next(cfg, Run(cfg, s, events[..|events| - 1]), events[|events| - 1])
  }

  // ---- immutability ----

  /** Every account with data keeps exactly that data. */
  ghost predicate Grows(a: Ledger, b: Ledger) {
    forall id :: DataAt(a, id) != [] ==> DataAt(b, id) == DataAt(a, id)
  }

  lemma ExecuteGrows(cfg: Config, ledger: Ledger, tx: Tx)
    ensures Grows(ledger, Execute(cfg, ledger, tx))
  {
    ExecuteMeaning(cfg, ledger, tx);
    hide Execute, AccountAt, DecodeInstruction, PutEntry, Accepted;
    var r := Execute(cfg, ledger, tx);
    forall id | DataAt(ledger, id) != [] ensures DataAt(r, id) == DataAt(ledger, id) {
      if id in tx.accounts {
        var k: nat :| k < |tx.accounts| && tx.accounts[k] == id;
        var last := LastExists(tx.accounts, k);
      }
    }
  }

  /** Over any run from any state, non-empty account data never changes. */
  lemma {:induction false} EntriesAreImmutable(cfg: Config, s: State, events: seq<Event>)
    ensures Grows(s.ledger, Run(cfg, s, events).ledger)
  {
    hide Execute, DataAt, EncodeInstruction, DecodeEntry;
    if events == [] {
    } else {
      var before, last := Run(cfg, s, events[..|events| - 1]), events[|events| - 1];
      EntriesAreImmutable(cfg, s, events[..|events| - 1]);
      if last.Land? && last.k < |before.pool| {
        ExecuteGrows(cfg, before.ledger, before.pool[last.k]);
      }
    }
  }

  /** Over every run, exactly the accounts with data belong to the program, and no balance or nonce ever moves. */
  lemma {:induction false} ExactlyFilledAccountsAreOwned(cfg: Config, events: seq<Event>, id: AccountId)
    ensures var a := AccountAt(Run(cfg, Initial(), events).ledger, id);
            a.owner == (if a.data == [] then 0 else cfg.owner) && a.balance == 0 && a.nonce == 0
  {
    hide Execute, EncodeInstruction, DecodeEntry;
    if events == [] {
    } else {
      var before, last := Run(cfg, Initial(), events[..|events| - 1]), events[|events| - 1];
      ExactlyFilledAccountsAreOwned(cfg, events[..|events| - 1], id);
      if last.Land? && last.k < |before.pool| {
        ExecuteClaims(cfg, before.ledger, before.pool[last.k], id);
      }
    }
  }

  // ---- where entries come from ----

  /** The data at `id` is the entry of item `k` of the instruction in `tx`, and `id` is that item's PDA. */
  ghost predicate WrittenBy(cfg: Config, tx: Tx, k: nat, id: AccountId, data: Bytes) {
    var i := DecodeInstruction(tx.payload);
    && i.Some? && k < |i.value.Items()|
    && id == PdaOf(cfg, i.value.Items()[k])
    && DecodeEntry(data) == Some(EntryFor(cfg.sha, i.value.Items()[k], i.value.anchor_timestamp))
  }

  ghost predicate FromPool(cfg: Config, pool: seq<Tx>, id: AccountId, data: Bytes) {
    exists t: nat, k: nat :: t < |pool| && WrittenBy(cfg, pool[t], k, id, data)
  }

  ghost predicate AllFromPool(cfg: Config, s: State) {
    forall id :: DataAt(s.ledger, id) != [] ==> FromPool(cfg, s.pool, id, DataAt(s.ledger, id))
  }

  lemma PoolOnlyGrows(cfg: Config, pool: seq<Tx>, more: seq<Tx>, id: AccountId, data: Bytes)
    requires FromPool(cfg, pool, id, data)
    ensures FromPool(cfg, pool + more, id, data)
  {
    hide WrittenBy;
    var t: nat, k: nat :| t < |pool| && WrittenBy(cfg, pool[t], k, id, data);
    assert (pool + more)[t] == pool[t];
  }

  lemma LandingKeepsOrigin(cfg: Config, s: State, t: nat)
    requires AllFromPool(cfg, s) && t < |s.pool|
    ensures AllFromPool(cfg, s.(ledger := Execute(cfg, s.ledger, s.pool[t])))
  {
    var tx := s.pool[t];
    var r := Execute(cfg, s.ledger, tx);
    ExecuteMeaning(cfg, s.ledger, tx);
    ExecuteGrows(cfg, s.ledger, tx);
    hide Execute, AccountAt, DecodeInstruction, PutEntry, DecodeEntry, Accepted;
    forall id | DataAt(r, id) != [] ensures FromPool(cfg, s.pool, id, DataAt(r, id)) {
      if DataAt(s.ledger, id) == [] {
        assert id in tx.accounts;
        var k0: nat :| k0 < |tx.accounts| && tx.accounts[k0] == id;
        var k := LastExists(tx.accounts, k0);
        var i := DecodeInstruction(tx.payload).value;
        var e := EntryFor(cfg.sha, i.Items()[k], i.anchor_timestamp);
        EntryCodec(e, PutEntry(e));
        assert WrittenBy(cfg, s.pool[t], k, id, DataAt(r, id));
      }
    }
  }

  // ---- the whole run against the reference ----

  /** The instructions of the transactions that landed and were accepted, in landing order. */
  ghost function LandedInstructions(cfg: Config, events: seq<Event>): (r: seq<Instruction>) {
    if events == [] then []
    else
      var prior := events[..|events| - 1];
      var s, e := Run(cfg, Initial(), prior), events[|events| - 1];
      LandedInstructions(cfg, prior) + LandedBy(cfg, s, e)
  }

  ghost function LandedBy(cfg: Config, s: State, e: Event): (r: seq<Instruction>) {
    if e.Land? && e.k < |s.pool| && Accepted(cfg, s.ledger, s.pool[e.k]) && DecodeInstruction(s.pool[e.k].payload).Some?
    then [DecodeInstruction(s.pool[e.k].payload).value] else []
  }

  /** Each instruction agrees with itself on the registry it finds. */
  ghost predicate AllAgree(sha: Sha, m: Entries, run: seq<Instruction>) {
    if run == [] then true
    else
      var prior, last := run[..|run| - 1], run[|run| - 1];
      AllAgree(sha, m, prior) && LastAgreesWithFirst(sha, ApplyAll(sha, m, prior), last.Items())
  }

  /** One landed transaction, from a ledger whose keys follow the reference. */
  lemma LandFollows(cfg: Config, ledger: Ledger, m: Entries, tx: Tx)
    requires PdaInjective(cfg.pda) && SameKeys(cfg, ledger, m) && Accepted(cfg, ledger, tx)
    ensures DecodeInstruction(tx.payload).Some?
    ensures var i, r := DecodeInstruction(tx.payload).value, Execute(cfg, ledger, tx);
            var m' := PutAll(cfg.sha, m, i.Items(), i.anchor_timestamp);
            && SameKeys(cfg, r, m')
            && (Represents(cfg, r, m') <==> Represents(cfg, ledger, m) && LastAgreesWithFirst(cfg.sha, m, i.Items()))
  {
    ExecuteKeepsKeys(cfg, ledger, m, tx);
    hide Execute, Accepted, DecodeInstruction, PutAll, LastAgreesWithFirst, Represents, SameKeys, PdaInjective;
    if Represents(cfg, ledger, m) {
      GuestRefinesRegistry(cfg, ledger, m, tx);
    } else {
      var i := DecodeInstruction(tx.payload).value;
      if Represents(cfg, Execute(cfg, ledger, tx), PutAll(cfg.sha, m, i.Items(), i.anchor_timestamp)) {
        DivergenceStays(cfg, ledger, m, tx);
      }
    }
  }

  lemma AppendInstruction(sha: Sha, m: Entries, run: seq<Instruction>, i: Instruction)
    ensures ApplyAll(sha, m, run + [i]) == PutAll(sha, ApplyAll(sha, m, run), i.Items(), i.anchor_timestamp)
    ensures AllAgree(sha, m, run + [i]) <==> AllAgree(sha, m, run) && LastAgreesWithFirst(sha, ApplyAll(sha, m, run), i.Items())
    ensures ApplyAll(sha, m, run + []) == ApplyAll(sha, m, run) && AllAgree(sha, m, run + []) == AllAgree(sha, m, run)
  {
    hide PutAll, LastAgreesWithFirst;
    assert (run + [i])[..|run|] == run && run + [] == run;
  }

  lemma EmptyRepresents(cfg: Config)
    ensures Represents(cfg, map[], map[])
  {
  }

  /** Over every run the ledger holds the keys of the reference registry that applied the landed instructions in landing
      order, and represents that registry if and only if every landed instruction agreed. */
  lemma {:induction false} LedgerFollowsRegistry(cfg: Config, events: seq<Event>)
    requires PdaInjective(cfg.pda)
    ensures var s, run := Run(cfg, Initial(), events), LandedInstructions(cfg, events);
            && SameKeys(cfg, s.ledger, ApplyAll(cfg.sha, map[], run))
            && (Represents(cfg, s.ledger, ApplyAll(cfg.sha, map[], run)) <==> AllAgree(cfg.sha, map[], run))
  {
    if events == [] {
      EmptyRepresents(cfg);
    } else {
      var prior, e := events[..|events| - 1], events[|events| - 1];
      var s, run := Run(cfg, Initial(), prior), LandedInstructions(cfg, prior);
      LedgerFollowsRegistry(cfg, prior);
      assert LandedInstructions(cfg, events) == run + LandedBy(cfg, s, e);
      assert Run(cfg, Initial(), events) == Next(cfg, s, e);
      StepFollows(cfg, s, run, e);
    }
  }

  lemma StepFollows(cfg: Config, s: State, run: seq<Instruction>, e: Event)
    requires PdaInjective(cfg.pda) && SameKeys(cfg, s.ledger, ApplyAll(cfg.sha, map[], run))
    requires Represents(cfg, s.ledger, ApplyAll(cfg.sha, map[], run)) <==> AllAgree(cfg.sha, map[], run)
    ensures var t, more := Next(cfg, s, e), run + LandedBy(cfg, s, e);
            && SameKeys(cfg, t.ledger, ApplyAll(cfg.sha, map[], more))
            && (Represents(cfg, t.ledger, ApplyAll(cfg.sha, map[], more)) <==> AllAgree(cfg.sha, map[], more))
  {
    hide Execute, Accepted, DecodeInstruction, EncodeInstruction, DecodeEntry, ApplyAll, AllAgree;
    hide LastAgreesWithFirst, Represents, SameKeys, PdaInjective;
    AppendInstruction(cfg.sha, map[], run, AnchorBatch([], 0));
    if e.Land? && e.k < |s.pool| {
      if Accepted(cfg, s.ledger, s.pool[e.k]) {
        LandFollows(cfg, s.ledger, ApplyAll(cfg.sha, map[], run), s.pool[e.k]);
        AppendInstruction(cfg.sha, map[], run, DecodeInstruction(s.pool[e.k].payload).value);
      } else {
        AbortedChangesNothing(cfg, s.ledger, s.pool[e.k]);
      }
    }
  }

  lemma AbortedChangesNothing(cfg: Config, ledger: Ledger, tx: Tx)
    requires !Accepted(cfg, ledger, tx)
    ensures Execute(cfg, ledger, tx) == ledger
  {
    hide Main;
  }

  // ---- what clients and queries were told ----

  /** `entry` is what the ledger now holds for `h`. */
  ghost predicate Backed(cfg: Config, ledger: Ledger, h: Digest, entry: AnchorEntry) {
    DataAt(ledger, cfg.pda(h)) != [] && DecodeEntry(DataAt(ledger, cfg.pda(h))) == Some(entry)
  }

  ghost predicate BackedPrefix(cfg: Config, ledger: Ledger, items: seq<Item>, out: seq<AnchorEntry>) {
    |out| <= |items| && forall i :: 0 <= i < |out| ==> Backed(cfg, ledger, HashOf(cfg.sha, items[i]), out[i])
  }

  ghost predicate ReplyBacked(cfg: Config, ledger: Ledger, reply: Reply) {
    match reply
    case Anchored(items, entries) => |entries| == |items| && BackedPrefix(cfg, ledger, items, entries)
    case Found(h, entry) => Backed(cfg, ledger, h, entry)
  }

  ghost predicate Inv(cfg: Config, s: State) {
    && AllFromPool(cfg, s)
    && (forall c :: c in s.clients ==> BackedPrefix(cfg, s.ledger, s.clients[c].items, s.clients[c].out))
    && (forall i :: 0 <= i < |s.replies| ==> ReplyBacked(cfg, s.ledger, s.replies[i]))
  }

  lemma GrowthKeepsReplies(cfg: Config, s: State, ledger: Ledger)
    requires Inv(cfg, s) && Grows(s.ledger, ledger)
    ensures forall c :: c in s.clients ==> BackedPrefix(cfg, ledger, s.clients[c].items, s.clients[c].out)
    ensures forall i :: 0 <= i < |s.replies| ==> ReplyBacked(cfg, ledger, s.replies[i])
  {
    hide DataAt, DecodeEntry, HashOf, AllFromPool;
    assert forall h, e :: Backed(cfg, s.ledger, h, e) ==> Backed(cfg, ledger, h, e);
  }

  lemma SubmittingKeepsOrigin(cfg: Config, s: State, more: seq<Tx>)
    requires AllFromPool(cfg, s)
    ensures AllFromPool(cfg, s.(pool := s.pool + more))
  {
    hide DataAt, FromPool;
    forall id | DataAt(s.ledger, id) != [] ensures FromPool(cfg, s.pool + more, id, DataAt(s.ledger, id)) {
      PoolOnlyGrows(cfg, s.pool, more, id, DataAt(s.ledger, id));
    }
  }

  lemma PollKeepsInv(cfg: Config, s: State, c: nat)
    requires Inv(cfg, s) && c in s.clients
    ensures Inv(cfg, PollStep(cfg, s, c))
  {
    hide AllFromPool, DecodeEntry, HashOf, AccountAt;
    var s', cl := PollStep(cfg, s, c), s.clients[c];
    assert AllFromPool(cfg, s') by {
      assert s'.ledger == s.ledger && s'.pool == s.pool;
      OriginDependsOnLedger(cfg, s, s');
    }
    assert BackedPrefix(cfg, s.ledger, cl.items, cl.out);
  }

  lemma OriginDependsOnLedger(cfg: Config, a: State, b: State)
    requires a.ledger == b.ledger && a.pool == b.pool && AllFromPool(cfg, a)
    ensures AllFromPool(cfg, b)
  {
  }

  lemma CallKeepsInv(cfg: Config, s: State, e: Event)
    requires Inv(cfg, s) && e.Call?
    ensures Inv(cfg, Next(cfg, s, e))
  {
    hide AllFromPool, EncodeInstruction, Backed, ReplyBacked;
    var s' := Next(cfg, s, e);
    if EncodeInstruction(e.instruction).Some? && e.reaches {
      var more := [Tx(PdasOf(cfg, e.instruction.Items()), EncodeInstruction(e.instruction).value)];
      SubmittingKeepsOrigin(cfg, s, more);
      OriginDependsOnLedger(cfg, s.(pool := s.pool + more), s');
    } else {
      OriginDependsOnLedger(cfg, s, s');
    }
  }

  lemma LandKeepsInv(cfg: Config, s: State, k: nat)
    requires Inv(cfg, s) && k < |s.pool|
    ensures Inv(cfg, Next(cfg, s, Land(k)))
  {
    hide AllFromPool, BackedPrefix, ReplyBacked, Execute;
    LandingKeepsOrigin(cfg, s, k);
    ExecuteGrows(cfg, s.ledger, s.pool[k]);
    GrowthKeepsReplies(cfg, s, Next(cfg, s, Land(k)).ledger);
  }

  lemma QueryKeepsInv(cfg: Config, s: State, h: Digest)
    requires Inv(cfg, s)
    ensures Inv(cfg, Next(cfg, s, Query(h)))
  {
    hide AllFromPool, BackedPrefix, HashOf, DecodeEntry, AccountAt;
    NothingDecodes();
    OriginDependsOnLedger(cfg, s, Next(cfg, s, Query(h)));
  }

  lemma NothingDecodes()
    ensures DecodeEntry([]) == None
  {
  }

  lemma ForgetKeepsInv(cfg: Config, s: State, c: nat)
    requires Inv(cfg, s)
    ensures Inv(cfg, Forget(s, c))
  {
    hide AllFromPool, BackedPrefix, ReplyBacked;
    OriginDependsOnLedger(cfg, s, Forget(s, c));
  }

  lemma RawKeepsInv(cfg: Config, s: State, tx: Tx)
    requires Inv(cfg, s)
    ensures Inv(cfg, Next(cfg, s, Raw(tx)))
  {
    hide AllFromPool, BackedPrefix, ReplyBacked;
    SubmittingKeepsOrigin(cfg, s, [tx]);
  }

  lemma StepKeepsInv(cfg: Config, s: State, e: Event)
    requires Inv(cfg, s)
    ensures Inv(cfg, Next(cfg, s, e))
  {
    hide Inv, Execute, PollStep, EncodeInstruction, DecodeEntry;
    match e {
      case Call(_, _, _, _) => CallKeepsInv(cfg, s, e);
      case Raw(tx) => RawKeepsInv(cfg, s, tx);
      case Land(k) =>
        if k < |s.pool| {
          LandKeepsInv(cfg, s, k);
        }
      case Poll(c) =>
        if c in s.clients {
          PollKeepsInv(cfg, s, c);
        }
      case GiveUp(c) => ForgetKeepsInv(cfg, s, c);
      case Query(h) => QueryKeepsInv(cfg, s, h);
    }
  }

  lemma {:induction false} RunKeepsInv(cfg: Config, events: seq<Event>)
    ensures Inv(cfg, Run(cfg, Initial(), events))
  {
    hide Next, Inv;
    if events == [] {
      InitialInv(cfg);
    } else {
      RunKeepsInv(cfg, events[..|events| - 1]);
      StepKeepsInv(cfg, Run(cfg, Initial(), events[..|events| - 1]), events[|events| - 1]);
    }
  }

  lemma InitialInv(cfg: Config)
    ensures Inv(cfg, Initial())
  {
  }

  // ---- the statements about runs ----

  /** `entry` was given, in some reply of this run, as the entry of CID hash `h`. */
  ghost predicate Told(cfg: Config, s: State, h: Digest, entry: AnchorEntry) {
    exists i: nat, k: nat :: i < |s.replies| && TellsAt(cfg, s.replies[i], k, h, entry)
  }

  ghost predicate TellsAt(cfg: Config, reply: Reply, k: nat, h: Digest, entry: AnchorEntry) {
    match reply
    case Anchored(items, entries) => k < |items| && k < |entries| && HashOf(cfg.sha, items[k]) == h && entries[k] == entry
    case Found(h', entry') => h == h' && entry == entry'
  }

  /** All successful anchors and queries of one CID in one run were told the same entry, whoever asked and whenever;
      it is still what the ledger holds; and all its fields come from one item of one submitted instruction. */
  lemma RepliesAgree(cfg: Config, events: seq<Event>, h: Digest, entry: AnchorEntry)
    requires PdaInjective(cfg.pda) && Told(cfg, Run(cfg, Initial(), events), h, entry)
    ensures var s := Run(cfg, Initial(), events);
            && Backed(cfg, s.ledger, h, entry)
            && (forall other :: Told(cfg, s, h, other) ==> other == entry)
            && entry.cid_hash == h && CidHash(cfg.sha, entry.cid) == h
            && exists t: nat, k: nat :: t < |s.pool| && FieldsOf(cfg, s.pool[t], k, entry)
  {
    hide Run, DataAt, DecodeEntry, AllFromPool, CidHash;
    var s := Run(cfg, Initial(), events);
    RunKeepsInv(cfg, events);
    ToldIsBacked(cfg, s, h, entry);
    forall other | Told(cfg, s, h, other) ensures other == entry {
      ToldIsBacked(cfg, s, h, other);
    }
    var t, k := OriginOf(cfg, s, h, entry);
  }

  /** `entry` is exactly item `k` of the instruction in `tx`, under that instruction's timestamp. */
  ghost predicate FieldsOf(cfg: Config, tx: Tx, k: nat, entry: AnchorEntry) {
    var i := DecodeInstruction(tx.payload);
    && i.Some? && k < |i.value.Items()|
    && entry == AnchorEntry(i.value.Items()[k].cid, HashOf(cfg.sha, i.value.Items()[k]),
                            i.value.Items()[k].metadata_hash, i.value.anchor_timestamp)
  }

  lemma OriginOf(cfg: Config, s: State, h: Digest, entry: AnchorEntry) returns (t: nat, k: nat)
    requires PdaInjective(cfg.pda) && Inv(cfg, s) && Backed(cfg, s.ledger, h, entry)
    ensures t < |s.pool| && FieldsOf(cfg, s.pool[t], k, entry)
    ensures entry.cid_hash == h && CidHash(cfg.sha, entry.cid) == h
  {
    hide DataAt, DecodeEntry, DecodeInstruction, CidHash;
    assert FromPool(cfg, s.pool, cfg.pda(h), DataAt(s.ledger, cfg.pda(h)));
    t, k :| t < |s.pool| && WrittenBy(cfg, s.pool[t], k, cfg.pda(h), DataAt(s.ledger, cfg.pda(h)));
  }

  lemma ToldIsBacked(cfg: Config, s: State, h: Digest, entry: AnchorEntry)
    requires Inv(cfg, s) && Told(cfg, s, h, entry)
    ensures Backed(cfg, s.ledger, h, entry)
  {
    hide DataAt, DecodeEntry, AllFromPool, HashOf, Backed;
    var i: nat, k: nat :| i < |s.replies| && TellsAt(cfg, s.replies[i], k, h, entry);
    assert ReplyBacked(cfg, s.ledger, s.replies[i]);
  }

  /** An anchor call that succeeds returns one entry per item, in request order. */
  lemma AnchorsInRequestOrder(cfg: Config, events: seq<Event>, i: nat)
    requires PdaInjective(cfg.pda)
    requires i < |Run(cfg, Initial(), events).replies| && Run(cfg, Initial(), events).replies[i].Anchored?
    ensures var r := Run(cfg, Initial(), events).replies[i];
            |r.entries| == |r.items| && forall k :: 0 <= k < |r.items| ==> r.entries[k].cid_hash == HashOf(cfg.sha, r.items[k])
  {
    hide Run, DataAt, DecodeEntry, AllFromPool, HashOf;
    var s := Run(cfg, Initial(), events);
    RunKeepsInv(cfg, events);
    var r := s.replies[i];
    assert ReplyBacked(cfg, s.ledger, r);
    forall k | 0 <= k < |r.items| ensures r.entries[k].cid_hash == HashOf(cfg.sha, r.items[k]) {
      var _, _ := OriginOf(cfg, s, HashOf(cfg.sha, r.items[k]), r.entries[k]);
    }
  }

  // ---- a call that lands is answered ----

  /** `tx` carries exactly this instruction and names one account an item, in order: the one derived from its CID. */
  ghost predicate Requests(cfg: Config, tx: Tx, i: Instruction) {
    && DecodeInstruction(tx.payload) == Some(i)
    && |tx.accounts| == |i.Items()|
    && forall k :: 0 <= k < |i.Items()| ==> tx.accounts[k] == cfg.pda(CidHash(cfg.sha, i.Items()[k].cid))
  }

  lemma RequestIsCallTx(cfg: Config, tx: Tx, i: Instruction)
    ensures EncodeInstruction(i).Some? ==> (Requests(cfg, tx, i) <==> tx == CallTx(cfg, i))
    ensures Requests(cfg, tx, i) ==> EncodeInstruction(i).Some?
  {
    InstructionCodec(i, tx.payload);
    hide DecodeInstruction, PutInstruction, CidHash;
    if EncodeInstruction(i).Some? {
      InstructionCodec(i, EncodeInstruction(i).value);
    }
  }

  /** What a call does at once. If the instruction encodes and reaches the sequencer, exactly one transaction is added,
      and it requests this instruction; the client waits for these items exactly if it also got its acknowledgement. */
  lemma CallSubmits(cfg: Config, s: State, c: nat, i: Instruction, reaches: bool, acked: bool)
    ensures var t, encodes := Next(cfg, s, Call(c, i, reaches, acked)), |i.Items()| <= U32_MAX && ItemsFit(i.Items());
            && t.ledger == s.ledger && t.replies == s.replies
            && (if encodes && reaches
                then |t.pool| == |s.pool| + 1 && t.pool[..|s.pool|] == s.pool && Requests(cfg, t.pool[|s.pool|], i)
                else t.pool == s.pool)
            && t.clients == (if encodes && acked then s.clients[c := Client(i.Items(), [])] else s.clients - {c})
  {
    hide PutInstruction, DecodeInstruction, PdaOf;
    if EncodeInstruction(i).Some? {
      RequestIsCallTx(cfg, CallTx(cfg, i), i);
    }
  }

  function CallTx(cfg: Config, i: Instruction): (tx: Tx)
    requires EncodeInstruction(i).Some?
  {
    Tx(PdasOf(cfg, i.Items()), EncodeInstruction(i).value)
  }

  /** Every item has its account filled already, or an entry that fits one. */
  ghost predicate FilledOrFitting(cfg: Config, ledger: Ledger, items: seq<Item>) {
    forall k :: 0 <= k < |items| ==> DataAt(ledger, PdaOf(cfg, items[k])) != [] || |items[k].cid| + 76 <= cfg.limit
  }

  lemma CallTxAccepted(cfg: Config, ledger: Ledger, i: Instruction)
    requires EncodeInstruction(i).Some?
    ensures Accepted(cfg, ledger, CallTx(cfg, i)) <==> FilledOrFitting(cfg, ledger, i.Items())
  {
    var items, pres := i.Items(), PreStates(ledger, PdasOf(cfg, i.Items()));
    InstructionCodec(i, EncodeInstruction(i).value);
    GuestMeaning(cfg, pres, EncodeInstruction(i).value);
    forall k | 0 <= k < |items|
      ensures EntryAccepted(cfg, pres[k], items[k], i.anchor_timestamp)
         <==> DataAt(ledger, PdaOf(cfg, items[k])) != [] || |items[k].cid| + 76 <= cfg.limit
    {
      hide PutEntry, CidHash, DecodeInstruction, Main;
      EntrySize(EntryFor(cfg.sha, items[k], i.anchor_timestamp));
    }
    hide EntryAccepted, DataAt, DecodeInstruction;
  }

  /** The program never rejects what a call submitted, on whatever ledger it lands, except for a new entry over the
      account size limit. */
  lemma CallAcceptedExactly(cfg: Config, s: State, c: nat, i: Instruction, acked: bool, ledger: Ledger)
    requires EncodeInstruction(i).Some?
    ensures var t := Next(cfg, s, Call(c, i, true, acked));
            && |t.pool| == |s.pool| + 1
            && (Accepted(cfg, ledger, t.pool[|s.pool|]) <==> FilledOrFitting(cfg, ledger, i.Items()))
  {
    hide Accepted, FilledOrFitting, PutInstruction;
    CallTxAccepted(cfg, ledger, i);
  }

  function Polls(c: nat, n: nat): (r: seq<Event>)
    ensures |r| == n
  {
    if n == 0 then [] else Polls(c, n - 1) + [Poll(c)]
  }

  /** Every PDA of the request holds an entry that decodes. */
  ghost predicate Readable(cfg: Config, ledger: Ledger, items: seq<Item>) {
    forall k :: 0 <= k < |items| ==> DataAt(ledger, PdaOf(cfg, items[k])) != [] && DecodeEntry(DataAt(ledger, PdaOf(cfg, items[k]))).Some?
  }

  lemma PollReads(cfg: Config, s: State, c: nat) returns (entry: AnchorEntry)
    requires c in s.clients && |s.clients[c].out| < |s.clients[c].items| && Readable(cfg, s.ledger, s.clients[c].items)
    ensures Next(cfg, s, Poll(c)) == s.(clients := s.clients[c := s.clients[c].(out := s.clients[c].out + [entry])])
  {
    hide DecodeEntry, DataAt, PdaOf;
    var cl := s.clients[c];
    entry := DecodeEntry(DataAt(s.ledger, PdaOf(cfg, cl.items[|cl.out|]))).value;
  }

  lemma PollAnswers(cfg: Config, s: State, c: nat)
    requires c in s.clients && |s.clients[c].out| == |s.clients[c].items|
    ensures var t := Next(cfg, s, Poll(c));
            t.replies == s.replies + [Anchored(s.clients[c].items, s.clients[c].out)] && c !in t.clients
  {
  }

  lemma {:induction false} PollsRead(cfg: Config, s: State, c: nat, n: nat)
    requires c in s.clients && s.clients[c].out == [] && n <= |s.clients[c].items|
    requires Readable(cfg, s.ledger, s.clients[c].items)
    ensures var t := Run(cfg, s, Polls(c, n));
            && t.ledger == s.ledger && t.replies == s.replies && c in t.clients
            && t.clients[c].items == s.clients[c].items && |t.clients[c].out| == n
  {
    hide Next, Run, Readable;
    if n == 0 {
      RunSnoc(cfg, s, [], Poll(c));
    } else {
      PollsRead(cfg, s, c, n - 1);
      RunSnoc(cfg, s, Polls(c, n - 1), Poll(c));
      var _ := PollReads(cfg, Run(cfg, s, Polls(c, n - 1)), c);
    }
  }

  /** However late a client's transaction lands, as long as it is accepted and the client still waits, the client is
      answered after one read per item. */
  lemma LandedCallIsAnswered(cfg: Config, events: seq<Event>, c: nat, i: Instruction, k: nat)
    requires EncodeInstruction(i).Some?
    requires var s := Run(cfg, Initial(), events);
             && c in s.clients && s.clients[c] == Client(i.Items(), [])
             && k < |s.pool| && Requests(cfg, s.pool[k], i) && Accepted(cfg, s.ledger, s.pool[k])
    ensures var s, t := Run(cfg, Initial(), events), Run(cfg, Initial(), events + [Land(k)] + Polls(c, |i.Items()| + 1));
            && c !in t.clients && |t.replies| == |s.replies| + 1 && t.replies[..|s.replies|] == s.replies
            && t.replies[|s.replies|].Anchored? && t.replies[|s.replies|].items == i.Items()
            && ReplyBacked(cfg, t.ledger, t.replies[|s.replies|])
  {
    hide Execute, Readable, Accepted, Run, EncodeInstruction, Polls, Requests, ReplyBacked, AllFromPool, BackedPrefix, CallTx, Next;
    var s, landed := Run(cfg, Initial(), events), Run(cfg, Initial(), events + [Land(k)]);
    RunSnoc(cfg, Initial(), events, Land(k));
    LandOnly(cfg, s, k);
    RequestIsCallTx(cfg, s.pool[k], i);
    LandedIsReadable(cfg, events, i, k);
    RunAppend(cfg, Initial(), events + [Land(k)], Polls(c, |i.Items()| + 1));
    RunKeepsInv(cfg, events + [Land(k)] + Polls(c, |i.Items()| + 1));
    PollsAnswer(cfg, landed, c);
  }

  lemma LandOnly(cfg: Config, s: State, k: nat)
    requires k < |s.pool|
    ensures Next(cfg, s, Land(k)) == s.(ledger := Execute(cfg, s.ledger, s.pool[k]))
  {
    hide Execute;
  }

  /** One read per item and one more poll answer a client whose PDAs are readable. */
  lemma PollsAnswer(cfg: Config, s: State, c: nat)
    requires c in s.clients && s.clients[c].out == [] && Readable(cfg, s.ledger, s.clients[c].items)
    ensures var items := s.clients[c].items;
            var t := Run(cfg, s, Polls(c, |items| + 1));
            && |t.replies| == |s.replies| + 1 && t.replies[..|s.replies|] == s.replies && c !in t.clients
            && t.replies[|s.replies|].Anchored? && t.replies[|s.replies|].items == items
  {
    hide Readable, Run, Next;
    var items := s.clients[c].items;
    PollsRead(cfg, s, c, |items|);
    RunSnoc(cfg, s, Polls(c, |items|), Poll(c));
    PollAnswers(cfg, Run(cfg, s, Polls(c, |items|)), c);
    assert Polls(c, |items| + 1) == Polls(c, |items|) + [Poll(c)];
  }

  lemma LandedFills(cfg: Config, ledger: Ledger, i: Instruction, n: nat)
    requires EncodeInstruction(i).Some? && Accepted(cfg, ledger, CallTx(cfg, i)) && n < |i.Items()|
    ensures DataAt(Execute(cfg, ledger, CallTx(cfg, i)), PdaOf(cfg, i.Items()[n])) != []
  {
    var tx := CallTx(cfg, i);
    ExecuteMeaning(cfg, ledger, tx);
    InstructionCodec(i, tx.payload);
    hide Execute, AccountAt, PutEntry, Accepted, PdaOf, DecodeInstruction, EncodeInstruction;
    var last := LastExists(tx.accounts, n);
    EncodedEntryNotEmpty(EntryFor(cfg.sha, i.Items()[last], i.anchor_timestamp));
  }

  lemma FilledIsReadable(cfg: Config, s: State, items: seq<Item>)
    requires AllFromPool(cfg, s) && forall n :: 0 <= n < |items| ==> DataAt(s.ledger, PdaOf(cfg, items[n])) != []
    ensures Readable(cfg, s.ledger, items)
  {
    hide DecodeEntry, DataAt, PdaOf, DecodeInstruction;
    forall n | 0 <= n < |items| ensures DecodeEntry(DataAt(s.ledger, PdaOf(cfg, items[n]))).Some? {
      assert FromPool(cfg, s.pool, PdaOf(cfg, items[n]), DataAt(s.ledger, PdaOf(cfg, items[n])));
    }
  }

  lemma LandedIsReadable(cfg: Config, events: seq<Event>, i: Instruction, k: nat)
    requires EncodeInstruction(i).Some?
    requires var s := Run(cfg, Initial(), events);
             k < |s.pool| && s.pool[k] == CallTx(cfg, i) && Accepted(cfg, s.ledger, s.pool[k])
    ensures Readable(cfg, Execute(cfg, Run(cfg, Initial(), events).ledger, CallTx(cfg, i)), i.Items())
  {
    var s, after := Run(cfg, Initial(), events), Run(cfg, Initial(), events + [Land(k)]);
    RunKeepsInv(cfg, events + [Land(k)]);
    RunSnoc(cfg, Initial(), events, Land(k));
    hide Run, Execute, DataAt, Accepted, PdaOf, CallTx, EncodeInstruction, Readable, AllFromPool;
    forall n: nat | n < |i.Items()| ensures DataAt(after.ledger, PdaOf(cfg, i.Items()[n])) != [] {
      LandedFills(cfg, s.ledger, i, n);
    }
    FilledIsReadable(cfg, after, i.Items());
  }

  /** While the account of item `k` stays empty, polling gets no further than that item. */
  ghost predicate StuckAt(cfg: Config, s: State, t: State, c: nat, items: seq<Item>, k: nat) {
    && t.ledger == s.ledger && t.replies == s.replies && t.pool == s.pool
    && (c in t.clients ==> t.clients[c].items == items && |t.clients[c].out| <= k)
  }

  lemma PollStaysStuck(cfg: Config, s: State, t: State, c: nat, items: seq<Item>, k: nat)
    requires StuckAt(cfg, s, t, c, items, k) && k < |items| && DataAt(s.ledger, PdaOf(cfg, items[k])) == []
    ensures StuckAt(cfg, s, Next(cfg, t, Poll(c)), c, items, k)
  {
    hide DecodeEntry, DataAt, PdaOf;
  }

  lemma {:induction false} PollsStayStuck(cfg: Config, s: State, c: nat, items: seq<Item>, k: nat, n: nat)
    requires StuckAt(cfg, s, s, c, items, k) && k < |items| && DataAt(s.ledger, PdaOf(cfg, items[k])) == []
    ensures StuckAt(cfg, s, Run(cfg, s, Polls(c, n)), c, items, k)
  {
    hide Next, Run, DataAt, PdaOf, StuckAt;
    if n == 0 {
      RunSnoc(cfg, s, [], Poll(c));
    } else {
      PollsStayStuck(cfg, s, c, items, k, n - 1);
      RunSnoc(cfg, s, Polls(c, n - 1), Poll(c));
      PollStaysStuck(cfg, s, Run(cfg, s, Polls(c, n - 1)), c, items, k);
    }
  }

  /** The whole of one call: it is made, the transaction it submitted lands, and the client polls once an item and once more. */
  function CallEvents(c: nat, i: Instruction, k: nat): (r: seq<Event>) {
    [Call(c, i, true, true), Land(k)] + Polls(c, |i.Items()| + 1)
  }

  lemma CallLanded(cfg: Config, events: seq<Event>, c: nat, i: Instruction)
    requires EncodeInstruction(i).Some?
    ensures var s := Run(cfg, Initial(), events);
            var called := Run(cfg, Initial(), events + [Call(c, i, true, true)]);
            && called == Next(cfg, s, Call(c, i, true, true))
            && Run(cfg, Initial(), events + CallEvents(c, i, |s.pool|))
               == Run(cfg, Run(cfg, Initial(), events + [Call(c, i, true, true)] + [Land(|s.pool|)]), Polls(c, |i.Items()| + 1))
            && Run(cfg, Initial(), events + [Call(c, i, true, true)] + [Land(|s.pool|)]) == Next(cfg, called, Land(|s.pool|))
  {
    hide Run, Next, Polls, EncodeInstruction;
    var s, call, land := Run(cfg, Initial(), events), [Call(c, i, true, true)], [Land(|Run(cfg, Initial(), events).pool|)];
    RunSnoc(cfg, Initial(), events, call[0]);
    RunSnoc(cfg, Initial(), events + call, land[0]);
    RunAppend(cfg, Initial(), events + call + land, Polls(c, |i.Items()| + 1));
    assert events + CallEvents(c, i, |s.pool|) == events + call + land + Polls(c, |i.Items()| + 1);
  }

  lemma FittingCallAnswered(cfg: Config, events: seq<Event>, c: nat, i: Instruction)
    requires EncodeInstruction(i).Some? && FilledOrFitting(cfg, Run(cfg, Initial(), events).ledger, i.Items())
    ensures var s := Run(cfg, Initial(), events);
            var t := Run(cfg, Initial(), events + CallEvents(c, i, |s.pool|));
            && |t.replies| == |s.replies| + 1 && t.replies[..|s.replies|] == s.replies
            && t.replies[|s.replies|].Anchored? && t.replies[|s.replies|].items == i.Items()
            && ReplyBacked(cfg, t.ledger, t.replies[|s.replies|])
  {
    hide Run, Execute, Requests, Polls, ReplyBacked, PdaOf, FilledOrFitting, Next, EncodeInstruction;
    var s := Run(cfg, Initial(), events);
    var call := [Call(c, i, true, true)];
    CallLanded(cfg, events, c, i);
    CallSubmits(cfg, s, c, i, true, true);
    CallTxAccepted(cfg, s.ledger, i);
    var called := Next(cfg, s, call[0]);
    EncodableFits(i);
    RequestIsCallTx(cfg, called.pool[|s.pool|], i);
    hide Accepted;
    LandedCallIsAnswered(cfg, events + call, c, i, |s.pool|);
    assert events + call + [Land(|s.pool|)] + Polls(c, |i.Items()| + 1) == events + CallEvents(c, i, |s.pool|);
  }

  lemma EncodableFits(i: Instruction)
    ensures EncodeInstruction(i).Some? <==> |i.Items()| <= U32_MAX && ItemsFit(i.Items())
  {
    hide PutInstruction;
  }

  lemma UnfittingCallSilent(cfg: Config, events: seq<Event>, c: nat, i: Instruction)
    requires EncodeInstruction(i).Some? && !FilledOrFitting(cfg, Run(cfg, Initial(), events).ledger, i.Items())
    ensures var s := Run(cfg, Initial(), events);
            var t := Run(cfg, Initial(), events + CallEvents(c, i, |s.pool|));
            t.replies == s.replies && t.ledger == s.ledger
  {
    hide Run, Execute, Requests, Polls, DataAt, PdaOf, EncodeInstruction;
    var s := Run(cfg, Initial(), events);
    CallLanded(cfg, events, c, i);
    CallSubmits(cfg, s, c, i, true, true);
    CallTxAccepted(cfg, s.ledger, i);
    var called := Run(cfg, Initial(), events + [Call(c, i, true, true)]);
    EncodableFits(i);
    RequestIsCallTx(cfg, called.pool[|s.pool|], i);
    hide Accepted;
    AbortedChangesNothing(cfg, s.ledger, called.pool[|s.pool|]);
    assert Next(cfg, called, Land(|s.pool|)) == called;
    hide Next;
    var k :| 0 <= k < |i.Items()| && DataAt(s.ledger, PdaOf(cfg, i.Items()[k])) == [];
    PollsStayStuck(cfg, called, c, i.Items(), k, |i.Items()| + 1);
  }

  /** From every reachable state: a call whose own transaction then lands is answered, with one entry an item that the
      ledger holds, if and only if every item's account is filled already or its entry fits. Otherwise nothing changes
      on the ledger and no answer comes. */
  lemma CallIsAnsweredExactly(cfg: Config, events: seq<Event>, c: nat, i: Instruction)
    requires EncodeInstruction(i).Some?
    ensures var s := Run(cfg, Initial(), events);
            var t := Run(cfg, Initial(), events + CallEvents(c, i, |s.pool|));
            if FilledOrFitting(cfg, s.ledger, i.Items())
            then && |t.replies| == |s.replies| + 1 && t.replies[..|s.replies|] == s.replies
                 && t.replies[|s.replies|].Anchored? && t.replies[|s.replies|].items == i.Items()
                 && ReplyBacked(cfg, t.ledger, t.replies[|s.replies|])
            else t.replies == s.replies && t.ledger == s.ledger
  {
    hide Run, ReplyBacked, FilledOrFitting, EncodeInstruction, CallEvents;
    if FilledOrFitting(cfg, Run(cfg, Initial(), events).ledger, i.Items()) {
      FittingCallAnswered(cfg, events, c, i);
    } else {
      UnfittingCallSilent(cfg, events, c, i);
    }
  }

  /** From every reachable state a query is answered exactly when the account is filled, with the entry whose encoding it
      holds; asking changes nothing else. */
  lemma QueryAnsweredExactly(cfg: Config, events: seq<Event>, h: Digest)
    ensures var s := Run(cfg, Initial(), events);
            var data, t := DataAt(s.ledger, cfg.pda(h)), Next(cfg, s, Query(h));
            if data == [] then t == s
            else exists e :: EncodeEntry(e) == Some(data) && t == s.(replies := s.replies + [Found(h, e)])
  {
    hide Run, DecodeEntry, DataAt;
    var s := Run(cfg, Initial(), events);
    RunKeepsInv(cfg, events);
    NothingDecodes();
    var data := DataAt(s.ledger, cfg.pda(h));
    if data != [] {
      DecodesFromPool(cfg, s, cfg.pda(h));
      EntryCodec(DecodeEntry(data).value, data);
    }
  }

  lemma DecodesFromPool(cfg: Config, s: State, id: AccountId)
    requires AllFromPool(cfg, s) && DataAt(s.ledger, id) != []
    ensures DecodeEntry(DataAt(s.ledger, id)).Some?
  {
    hide DecodeEntry, DataAt, DecodeInstruction;
    assert FromPool(cfg, s.pool, id, DataAt(s.ledger, id));
  }

  /** Anybody's transaction can land, at once, and any number of times. */
  lemma AnyoneCanLand(cfg: Config, s: State, tx: Tx, k: nat)
    ensures Run(cfg, s, [Raw(tx), Land(|s.pool|)]).ledger == Execute(cfg, s.ledger, tx)
    ensures k < |s.pool| ==> Run(cfg, s, [Land(k), Land(k)]).ledger == Execute(cfg, Execute(cfg, s.ledger, s.pool[k]), s.pool[k])
  {
    hide Execute, Run;
    RunTwo(cfg, s, Raw(tx), Land(|s.pool|));
    RunTwo(cfg, s, Land(k), Land(k));
  }

  lemma RunTwo(cfg: Config, s: State, a: Event, b: Event)
    ensures Run(cfg, s, [a, b]) == Next(cfg, Next(cfg, s, a), b)
  {
    hide Next, Run;
    RunSnoc(cfg, s, [], a);
    RunSnoc(cfg, s, [a], b);
    assert [] + [a] == [a] && [a] + [b] == [a, b];
  }

  /** A client that has given up is never answered, unless it calls again. */
  lemma {:induction false} GivenUpForGood(cfg: Config, s: State, c: nat, events: seq<Event>)
    requires forall j :: 0 <= j < |events| ==> !(events[j].Call? && events[j].client == c)
    ensures c !in Run(cfg, Next(cfg, s, GiveUp(c)), events).clients
  {
    hide Execute, DecodeEntry, DataAt, EncodeInstruction;
    if events == [] {
    } else {
      GivenUpForGood(cfg, s, c, events[..|events| - 1]);
    }
  }

  /** What was told at one moment is still told the same after any longer run. */
  lemma LaterRepliesAgree(cfg: Config, events: seq<Event>, more: seq<Event>, h: Digest, early: AnchorEntry, late: AnchorEntry)
    requires PdaInjective(cfg.pda)
    requires Told(cfg, Run(cfg, Initial(), events), h, early)
    requires Told(cfg, Run(cfg, Initial(), events + more), h, late)
    ensures early == late
  {
    hide DataAt, DecodeEntry, AllFromPool, HashOf, Next, Told, Inv;
    var a, b := Run(cfg, Initial(), events), Run(cfg, Initial(), events + more);
    RunKeepsInv(cfg, events);
    RunKeepsInv(cfg, events + more);
    ToldIsBacked(cfg, a, h, early);
    ToldIsBacked(cfg, b, h, late);
    RunAppend(cfg, Initial(), events, more);
    EntriesAreImmutable(cfg, a, more);
  }

  lemma RunSnoc(cfg: Config, s: State, events: seq<Event>, e: Event)
    ensures Run(cfg, s, events + [e]) == Next(cfg, Run(cfg, s, events), e)
    ensures Run(cfg, s, []) == s
  {
    hide Next;
    assert (events + [e])[..|events|] == events;
  }

  lemma {:induction false} RunAppend(cfg: Config, s: State, xs: seq<Event>, ys: seq<Event>)
    ensures Run(cfg, s, xs + ys) == Run(cfg, Run(cfg, s, xs), ys)
  {
    hide Next, Run;
    if ys == [] {
      assert xs + ys == xs;
      RunSnoc(cfg, Run(cfg, s, xs), [], Query(seq(32, _ => 0)));
    } else {
      var init, last := ys[..|ys| - 1], ys[|ys| - 1];
      RunAppend(cfg, s, xs, init);
      assert ys == init + [last] && xs + ys == xs + init + [last];
      RunSnoc(cfg, s, xs + init, last);
      RunSnoc(cfg, Run(cfg, s, xs), init, last);
    }
  }
}
