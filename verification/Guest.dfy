/** The on-chain registry program, the rule by which its result reaches the ledger, and its refinement of `Registry`. */
module Guest {
  import opened Basics
  import opened Text
  import opened Registry
  import opened Borsh

  type AccountId = Digest

  /** Owner 0 is the default (unclaimed) owner. */
  datatype Account = Account(owner: nat, balance: nat, nonce: nat, data: Bytes)

  const DEFAULT_ACCOUNT := Account(0, 0, 0, [])

  type Ledger = map<AccountId, Account>

  datatype PreState = PreState(account_id: AccountId, account: Account)

  /** `claim` is the PDA seed the program asks the runtime to claim the account with, if it is unclaimed. */
  datatype PostState = PostState(account: Account, claim: Option<Digest>)

  /** The hash, the PDA derivation for this program's id, its owner id, and the account-data size limit. */
  datatype Config = Config(sha: Sha, pda: Digest -> AccountId, owner: nat, limit: nat)

  datatype Tx = Tx(accounts: seq<AccountId>, payload: Bytes)

  ghost predicate PdaInjective(pda: Digest -> AccountId) {
    forall a, b :: pda(a) == pda(b) ==> a == b
  }

  function PdaOf(cfg: Config, item: Item): (r: AccountId) {
    cfg.pda(HashOf(cfg.sha, item))
  }

  // ---- the guest; None is a panic, which aborts the transaction ----

  function ProcessEntry(cfg: Config, pre: PreState, item: Item, ts: U64): (r: Option<PostState>) {
    var cid_hash := CidHash(cfg.sha, item.cid);
    if pre.account_id != cfg.pda(cid_hash) then None
    else if pre.account.data != [] then Some(PostState(pre.account, None))
    else
      match EncodeEntry(AnchorEntry(item.cid, cid_hash, item.metadata_hash, ts))
      case None => None
      case Some(bytes) =>
        if |bytes| > cfg.limit then None
        else Some(PostState(pre.account.(data := bytes), Some(cid_hash)))
  }

  /** The zip/map/collect over a batch: the first panic aborts everything. */
  function ProcessAll(cfg: Config, pres: seq<PreState>, items: seq<Item>, ts: U64): (r: Option<seq<PostState>>)
    requires |pres| == |items|
  {
    if items == [] then Some([])
    else
      match ProcessEntry(cfg, pres[0], items[0], ts)
      case None => None
      case Some(post) =>
        match ProcessAll(cfg, pres[1..], items[1..], ts)
        case None => None
        case Some(posts) => Some([post] + posts)
  }

  function Main(cfg: Config, pres: seq<PreState>, payload: Bytes): (r: Option<seq<PostState>>) {
    match DecodeInstruction(payload)
    case None => None
    case Some(AnchorOne(item, ts)) =>
      if |pres| != 1 then None
      else
        (match ProcessEntry(cfg, pres[0], item, ts)
         case None => None
         case Some(post) => Some([post]))
    case Some(AnchorBatch(items, ts)) =>
      if |items| != |pres| then None else ProcessAll(cfg, pres, items, ts)
  }

  // ---- the runtime: load pre-states, run, and write every post-state in order unless the guest aborted ----

  function AccountAt(ledger: Ledger, id: AccountId): (r: Account) {
    if id in ledger then ledger[id] else DEFAULT_ACCOUNT
  }

  function DataAt(ledger: Ledger, id: AccountId): (r: Bytes) {
    AccountAt(ledger, id).data
  }

  function PreStates(ledger: Ledger, ids: seq<AccountId>): (r: seq<PreState>)
    ensures |r| == |ids|
    ensures forall i :: 0 <= i < |ids| ==> r[i] == PreState(ids[i], AccountAt(ledger, ids[i]))
  {
    seq(|ids|, i requires 0 <= i < |ids| => PreState(ids[i], AccountAt(ledger, ids[i])))
  }

  /** A claim counts when its seed derives this very account and nobody owns the account yet. */
  function Finalized(cfg: Config, id: AccountId, post: PostState): (r: Account) {
    var claimed := post.claim.Some? && cfg.pda(post.claim.value) == id && post.account.owner == 0;
    if claimed then post.account.(owner := cfg.owner) else post.account
  }

  function WritePost(cfg: Config, ledger: Ledger, id: AccountId, post: PostState): (r: Ledger) {
    ledger[id := Finalized(cfg, id, post)]
  }

  function WritePosts(cfg: Config, ledger: Ledger, ids: seq<AccountId>, posts: seq<PostState>): (r: Ledger)
    requires |ids| == |posts|
  {
    if posts == [] then ledger
    else
      var n := |posts| - 1;
      WritePost(cfg, WritePosts(cfg, ledger, ids[..n], posts[..n]), ids[n], posts[n])
  }

  function Execute(cfg: Config, ledger: Ledger, tx: Tx): (r: Ledger) {
    match Main(cfg, PreStates(ledger, tx.accounts), tx.payload)
    case None => ledger
    case Some(posts) => if |posts| == |tx.accounts| then WritePosts(cfg, ledger, tx.accounts, posts) else ledger
  }

  // ---- exactly when the guest aborts, and what it emits otherwise ----

  ghost predicate EntryAccepted(cfg: Config, pre: PreState, item: Item, ts: U64) {
    && pre.account_id == PdaOf(cfg, item)
    && (pre.account.data != [] || (|item.cid| <= U32_MAX && |PutEntry(EntryFor(cfg.sha, item, ts))| <= cfg.limit))
  }

  function Emitted(cfg: Config, pre: PreState, item: Item, ts: U64): (r: PostState) {
    if pre.account.data != [] then PostState(pre.account, None)
    else PostState(pre.account.(data := PutEntry(EntryFor(cfg.sha, item, ts))), Some(HashOf(cfg.sha, item)))
  }

  lemma ProcessEntryMeaning(cfg: Config, pre: PreState, item: Item, ts: U64)
    ensures ProcessEntry(cfg, pre, item, ts)
         == if EntryAccepted(cfg, pre, item, ts) then Some(Emitted(cfg, pre, item, ts)) else None
  {
    hide PutEntry, CidHash;
  }

  lemma {:induction false} ProcessAllMeaning(cfg: Config, pres: seq<PreState>, items: seq<Item>, ts: U64)
    requires |pres| == |items|
    ensures var r := ProcessAll(cfg, pres, items, ts);
            && (r.Some? <==> forall i :: 0 <= i < |items| ==> EntryAccepted(cfg, pres[i], items[i], ts))
            && (r.Some? ==> |r.value| == |items| && forall i :: 0 <= i < |items| ==> r.value[i] == Emitted(cfg, pres[i], items[i], ts))
  {
    hide ProcessEntry, EntryAccepted, Emitted;
    if items == [] {
    } else {
      ProcessEntryMeaning(cfg, pres[0], items[0], ts);
      ProcessAllMeaning(cfg, pres[1..], items[1..], ts);
      assert forall i :: 1 <= i < |items| ==> pres[i] == pres[1..][i - 1] && items[i] == items[1..][i - 1];
      assert forall i :: 0 <= i < |items| - 1 ==> pres[1..][i] == pres[i + 1] && items[1..][i] == items[i + 1];
    }
  }

  /** The whole program: it aborts exactly on a malformed payload, a wrong account list, or an entry that does not fit. */
  lemma GuestMeaning(cfg: Config, pres: seq<PreState>, payload: Bytes)
    ensures var r, decoded := Main(cfg, pres, payload), DecodeInstruction(payload);
            && (r.Some? <==>
                  && decoded.Some?
                  && |pres| == |decoded.value.Items()|
                  && forall i :: 0 <= i < |pres| ==> EntryAccepted(cfg, pres[i], decoded.value.Items()[i], decoded.value.anchor_timestamp))
            && (r.Some? ==>
                  && |r.value| == |pres|
                  && forall i :: 0 <= i < |pres| ==> r.value[i] == Emitted(cfg, pres[i], decoded.value.Items()[i], decoded.value.anchor_timestamp))
  {
    hide ProcessAll, ProcessEntry, EntryAccepted, Emitted, DecodeInstruction;
    match DecodeInstruction(payload) {
      case None =>
      case Some(AnchorOne(item, ts)) =>
        if |pres| == 1 {
          ProcessEntryMeaning(cfg, pres[0], item, ts);
        }
      case Some(AnchorBatch(items, ts)) =>
        if |items| == |pres| {
          ProcessAllMeaning(cfg, pres, items, ts);
        }
    }
  }

  // ---- the ledger after a transaction ----

  ghost predicate IsLast<T>(s: seq<T>, k: nat) {
    k < |s| && forall j :: k < j < |s| ==> s[j] != s[k]
  }

  lemma {:induction false} OthersUntouched(cfg: Config, ledger: Ledger, ids: seq<AccountId>, posts: seq<PostState>, id: AccountId)
    requires |ids| == |posts| && id !in ids
    ensures AccountAt(WritePosts(cfg, ledger, ids, posts), id) == AccountAt(ledger, id)
  {
    hide Finalized;
    if posts == [] {
    } else {
      OthersUntouched(cfg, ledger, ids[..|posts| - 1], posts[..|posts| - 1], id);
    }
  }

  lemma {:induction false} LastWriteStays(cfg: Config, ledger: Ledger, ids: seq<AccountId>, posts: seq<PostState>, k: nat)
    requires |ids| == |posts| && IsLast(ids, k)
    ensures AccountAt(WritePosts(cfg, ledger, ids, posts), ids[k]) == Finalized(cfg, ids[k], posts[k])
  {
    hide Finalized;
    var n := |posts| - 1;
    if k < n {
      LastWriteStays(cfg, ledger, ids[..n], posts[..n], k);
    }
  }

  lemma WrittenAt(cfg: Config, ledger: Ledger, ids: seq<AccountId>, posts: seq<PostState>)
    requires |ids| == |posts|
    ensures var r := WritePosts(cfg, ledger, ids, posts);
            && (forall id :: id !in ids ==> AccountAt(r, id) == AccountAt(ledger, id))
            && (forall k: nat :: IsLast(ids, k) ==> AccountAt(r, ids[k]) == Finalized(cfg, ids[k], posts[k]))
  {
    hide WritePosts, Finalized, AccountAt;
    forall id | id !in ids ensures AccountAt(WritePosts(cfg, ledger, ids, posts), id) == AccountAt(ledger, id) {
      OthersUntouched(cfg, ledger, ids, posts, id);
    }
    forall k: nat | IsLast(ids, k)
      ensures AccountAt(WritePosts(cfg, ledger, ids, posts), ids[k]) == Finalized(cfg, ids[k], posts[k])
    {
      LastWriteStays(cfg, ledger, ids, posts, k);
    }
  }

  lemma {:induction false} LastExists<T>(s: seq<T>, k: nat) returns (l: nat)
    requires k < |s|
    ensures k <= l && IsLast(s, l) && s[l] == s[k]
    decreases |s| - k
  {
    if j: nat :| k < j < |s| && s[j] == s[k] {
      l := LastExists(s, j);
    } else {
      l := k;
    }
  }

  /** The guest did not abort on this transaction. */
  ghost predicate Accepted(cfg: Config, ledger: Ledger, tx: Tx) {
    Main(cfg, PreStates(ledger, tx.accounts), tx.payload).Some?
  }

  /** An aborted transaction changes nothing; an accepted one touches only its own accounts, fills the empty
      ones with the entry of the last item that names them, and leaves the bytes of the others alone. */
  lemma ExecuteMeaning(cfg: Config, ledger: Ledger, tx: Tx)
    ensures !Accepted(cfg, ledger, tx) ==> Execute(cfg, ledger, tx) == ledger
    ensures Accepted(cfg, ledger, tx) ==>
              var r, i := Execute(cfg, ledger, tx), DecodeInstruction(tx.payload);
              && i.Some? && |i.value.Items()| == |tx.accounts|
              && (forall k :: 0 <= k < |tx.accounts| ==> tx.accounts[k] == PdaOf(cfg, i.value.Items()[k]))
              && (forall id :: id !in tx.accounts ==> AccountAt(r, id) == AccountAt(ledger, id))
              && (forall k: nat :: IsLast(tx.accounts, k) && DataAt(ledger, tx.accounts[k]) != [] ==>
                    DataAt(r, tx.accounts[k]) == DataAt(ledger, tx.accounts[k]))
              && (forall k: nat :: IsLast(tx.accounts, k) && DataAt(ledger, tx.accounts[k]) == [] ==>
                    && |i.value.Items()[k].cid| <= U32_MAX
                    && DataAt(r, tx.accounts[k]) == PutEntry(EntryFor(cfg.sha, i.value.Items()[k], i.value.anchor_timestamp)))
  {
    hide Main, PutEntry, WritePosts, CidHash, DecodeInstruction;
    var pres := PreStates(ledger, tx.accounts);
    GuestMeaning(cfg, pres, tx.payload);
    if Accepted(cfg, ledger, tx) {
      WrittenAt(cfg, ledger, tx.accounts, Main(cfg, pres, tx.payload).value);
    }
  }

  /** What finalizing an emitted post-state does to the account it came from. */
  lemma EmittedFinalized(cfg: Config, id: AccountId, a: Account, item: Item, ts: U64)
    requires id == PdaOf(cfg, item)
    ensures var b := Finalized(cfg, id, Emitted(cfg, PreState(id, a), item, ts));
            && b.balance == a.balance && b.nonce == a.nonce && b.data != []
            && (a.data != [] ==> b == a)
            && (a.data == [] ==> b.owner == if a.owner == 0 then cfg.owner else a.owner)
  {
    EncodedEntryNotEmpty(EntryFor(cfg.sha, item, ts));
    hide PutEntry, CidHash;
  }

  /** What an accepted transaction does to the rest of an account: filling an unowned PDA claims it for the program;
      balance and nonce are never touched, and an account that already has data is not touched at all. */
  lemma ExecuteClaims(cfg: Config, ledger: Ledger, tx: Tx, id: AccountId)
    ensures var a, b := AccountAt(ledger, id), AccountAt(Execute(cfg, ledger, tx), id);
            && b.balance == a.balance && b.nonce == a.nonce
            && (a.data != [] || b.data == [] ==> b == a)
            && (a.data == [] && b.data != [] ==> b.owner == if a.owner == 0 then cfg.owner else a.owner)
  {
    hide Main, WritePosts, PutEntry, CidHash, DecodeInstruction, Finalized, Emitted;
    var pres := PreStates(ledger, tx.accounts);
    GuestMeaning(cfg, pres, tx.payload);
    if Accepted(cfg, ledger, tx) {
      var posts, i := Main(cfg, pres, tx.payload).value, DecodeInstruction(tx.payload).value;
      WrittenAt(cfg, ledger, tx.accounts, posts);
      assert Execute(cfg, ledger, tx) == WritePosts(cfg, ledger, tx.accounts, posts);
      hide Execute, Accepted, AccountAt;
      if id in tx.accounts {
        var k0: nat :| k0 < |tx.accounts| && tx.accounts[k0] == id;
        var k := LastExists(tx.accounts, k0);
        assert posts[k] == Emitted(cfg, pres[k], i.Items()[k], i.anchor_timestamp);
        assert EntryAccepted(cfg, pres[k], i.Items()[k], i.anchor_timestamp);
        EmittedFinalized(cfg, id, AccountAt(ledger, id), i.Items()[k], i.anchor_timestamp);
      }
    }
  }

  // ---- refinement ----

  /** Exactly the hashes of `m` have a filled PDA. */
  ghost predicate SameKeys(cfg: Config, ledger: Ledger, m: Entries) {
    forall h :: h in m <==> DataAt(ledger, cfg.pda(h)) != []
  }

  /** The registry `m` is what one reads by decoding the PDA of every hash. */
  ghost predicate Represents(cfg: Config, ledger: Ledger, m: Entries) {
    && SameKeys(cfg, ledger, m)
    && (forall h :: h in m ==> DecodeEntry(DataAt(ledger, cfg.pda(h))) == Some(m[h]))
  }

  /** For every hash the registry does not have yet, the first and the last item of the batch naming it are the same.
      In particular this holds when the hashes of the batch are distinct. */
  ghost predicate LastAgreesWithFirst(sha: Sha, m: Entries, items: seq<Item>) {
    forall i: nat, j: nat ::
      IsFirst(sha, items, i) && IsLastItem(sha, items, j) && HashOf(sha, items[i]) == HashOf(sha, items[j]) && HashOf(sha, items[i]) !in m
      ==> items[i] == items[j]
  }

  ghost predicate IsLastItem(sha: Sha, items: seq<Item>, k: nat) {
    k < |items| && forall j :: k < j < |items| ==> HashOf(sha, items[j]) != HashOf(sha, items[k])
  }

  lemma DistinctAgree(sha: Sha, m: Entries, items: seq<Item>)
    requires DistinctHashes(sha, items)
    ensures LastAgreesWithFirst(sha, m, items)
  {
    hide HashOf;
    forall i: nat, j: nat | IsFirst(sha, items, i) && IsLastItem(sha, items, j) && HashOf(sha, items[i]) == HashOf(sha, items[j])
      ensures items[i] == items[j]
    {
      assert i == j;
    }
  }

  lemma LastItemIsLastAccount(cfg: Config, accounts: seq<AccountId>, items: seq<Item>, k: nat)
    requires PdaInjective(cfg.pda) && |accounts| == |items|
    requires forall i :: 0 <= i < |items| ==> accounts[i] == PdaOf(cfg, items[i])
    ensures IsLast(accounts, k) <==> IsLastItem(cfg.sha, items, k)
  {
    hide HashOf;
  }

  /** The data under one hash after an accepted transaction, by its last item. */
  lemma DataAfter(cfg: Config, ledger: Ledger, m: Entries, tx: Tx, h: Digest)
    requires PdaInjective(cfg.pda) && SameKeys(cfg, ledger, m) && Accepted(cfg, ledger, tx)
    ensures var r, i := Execute(cfg, ledger, tx), DecodeInstruction(tx.payload);
            && i.Some?
            && (h in m || h !in HashSet(cfg.sha, i.value.Items()) ==> DataAt(r, cfg.pda(h)) == DataAt(ledger, cfg.pda(h)))
            && (forall k: nat :: h !in m && IsLastItem(cfg.sha, i.value.Items(), k) && HashOf(cfg.sha, i.value.Items()[k]) == h ==>
                  && DataAt(r, cfg.pda(h)) != []
                  && DecodeEntry(DataAt(r, cfg.pda(h))) == Some(EntryFor(cfg.sha, i.value.Items()[k], i.value.anchor_timestamp)))
  {
    hide HashOf, PutEntry, DecodeEntry, DecodeInstruction, Execute, Accepted, EntryFor, GetEntry;
    ExecuteMeaning(cfg, ledger, tx);
    var i := DecodeInstruction(tx.payload).value;
    var items := i.Items();
    if cfg.pda(h) in tx.accounts {
      var k0: nat :| k0 < |tx.accounts| && tx.accounts[k0] == cfg.pda(h);
      assert HashOf(cfg.sha, items[k0]) == h;
      var _ := LastExists(tx.accounts, k0);
    }
    forall k: nat | h !in m && IsLastItem(cfg.sha, items, k) && HashOf(cfg.sha, items[k]) == h
      ensures DataAt(Execute(cfg, ledger, tx), cfg.pda(h)) != []
      ensures DecodeEntry(DataAt(Execute(cfg, ledger, tx), cfg.pda(h))) == Some(EntryFor(cfg.sha, items[k], i.anchor_timestamp))
    {
      LastItemIsLastAccount(cfg, tx.accounts, items, k);
      var e := EntryFor(cfg.sha, items[k], i.anchor_timestamp);
      assert e.cid == items[k].cid by {
        EntryForFields(cfg.sha, items[k], i.anchor_timestamp);
      }
      EntryCodec(e, PutEntry(e));
      EncodedEntryNotEmpty(e);
    }
  }

  lemma EntryForFields(sha: Sha, item: Item, ts: U64)
    ensures EntryFor(sha, item, ts) == AnchorEntry(item.cid, HashOf(sha, item), item.metadata_hash, ts)
  {
  }

  lemma KeyAfter(cfg: Config, ledger: Ledger, m: Entries, tx: Tx, h: Digest)
    requires PdaInjective(cfg.pda) && SameKeys(cfg, ledger, m) && Accepted(cfg, ledger, tx)
    ensures var i := DecodeInstruction(tx.payload);
            i.Some? && (h in m.Keys + HashSet(cfg.sha, i.value.Items()) <==> DataAt(Execute(cfg, ledger, tx), cfg.pda(h)) != [])
  {
    hide HashOf, DecodeEntry, DecodeInstruction, Execute, Accepted, EntryFor, DataAt, PdaInjective;
    DataAfter(cfg, ledger, m, tx, h);
    var items := DecodeInstruction(tx.payload).value.Items();
    if h !in m && h in HashSet(cfg.sha, items) {
      var k: nat :| k < |items| && HashOf(cfg.sha, items[k]) == h;
      var last := LastItemExists(cfg.sha, items, k);
    }
  }

  /** Which hashes are filled always follows the reference, whatever the batch. */
  lemma ExecuteKeepsKeys(cfg: Config, ledger: Ledger, m: Entries, tx: Tx)
    requires PdaInjective(cfg.pda) && SameKeys(cfg, ledger, m) && Accepted(cfg, ledger, tx)
    ensures DecodeInstruction(tx.payload).Some?
    ensures var i := DecodeInstruction(tx.payload).value;
            SameKeys(cfg, Execute(cfg, ledger, tx), PutAll(cfg.sha, m, i.Items(), i.anchor_timestamp))
  {
    KeyAfter(cfg, ledger, m, tx, seq(32, _ => 0));
    hide HashOf, HashSet, DecodeInstruction, Execute, Accepted, PutAll, DataAt, PdaInjective;
    var i := DecodeInstruction(tx.payload).value;
    PutAllKeys(cfg.sha, m, i.Items(), i.anchor_timestamp);
    forall h: Digest
      ensures h in PutAll(cfg.sha, m, i.Items(), i.anchor_timestamp) <==> DataAt(Execute(cfg, ledger, tx), cfg.pda(h)) != []
    {
      KeyAfter(cfg, ledger, m, tx, h);
    }
  }

  /** A ledger that represents the reference after a transaction represented it before: a divergence never heals. */
  lemma DivergenceStays(cfg: Config, ledger: Ledger, m: Entries, tx: Tx)
    requires PdaInjective(cfg.pda) && SameKeys(cfg, ledger, m) && Accepted(cfg, ledger, tx) && DecodeInstruction(tx.payload).Some?
    requires var i := DecodeInstruction(tx.payload).value;
             Represents(cfg, Execute(cfg, ledger, tx), PutAll(cfg.sha, m, i.Items(), i.anchor_timestamp))
    ensures Represents(cfg, ledger, m)
  {
    hide HashOf, DecodeEntry, DecodeInstruction, Execute, Accepted, EntryFor, PutAll, DataAt;
    var i := DecodeInstruction(tx.payload).value;
    PutAllKeys(cfg.sha, m, i.Items(), i.anchor_timestamp);
    forall h | h in m ensures DecodeEntry(DataAt(ledger, cfg.pda(h))) == Some(m[h]) {
      DataAfter(cfg, ledger, m, tx, h);
    }
  }

  /** The main refinement. After an accepted transaction the ledger represents what the reference registry
      computes from the same instruction exactly when the batch does not name a new CID twice with different content. */
  lemma GuestRefinesRegistry(cfg: Config, ledger: Ledger, m: Entries, tx: Tx)
    requires PdaInjective(cfg.pda) && Represents(cfg, ledger, m) && Accepted(cfg, ledger, tx)
    ensures DecodeInstruction(tx.payload).Some?
    ensures var i := DecodeInstruction(tx.payload).value;
            LastAgreesWithFirst(cfg.sha, m, i.Items()) <==>
            Represents(cfg, Execute(cfg, ledger, tx), PutAll(cfg.sha, m, i.Items(), i.anchor_timestamp))
  {
    DataAfter(cfg, ledger, m, tx, seq(32, _ => 0));
    if LastAgreesWithFirst(cfg.sha, m, DecodeInstruction(tx.payload).value.Items()) {
      AgreementGivesRefinement(cfg, ledger, m, tx);
    } else {
      DisagreementBreaksRefinement(cfg, ledger, m, tx);
    }
  }

  lemma AgreementGivesRefinement(cfg: Config, ledger: Ledger, m: Entries, tx: Tx)
    requires PdaInjective(cfg.pda) && Represents(cfg, ledger, m) && Accepted(cfg, ledger, tx) && DecodeInstruction(tx.payload).Some?
    requires LastAgreesWithFirst(cfg.sha, m, DecodeInstruction(tx.payload).value.Items())
    ensures var i := DecodeInstruction(tx.payload).value;
            Represents(cfg, Execute(cfg, ledger, tx), PutAll(cfg.sha, m, i.Items(), i.anchor_timestamp))
  {
    hide HashOf, DecodeEntry, DecodeInstruction, Execute, Accepted, EntryFor, PutAll, DataAt;
    var i := DecodeInstruction(tx.payload).value;
    var items := i.Items();
    var r, m' := Execute(cfg, ledger, tx), PutAll(cfg.sha, m, items, i.anchor_timestamp);
    PutAllKeys(cfg.sha, m, items, i.anchor_timestamp);
    forall h: Digest
      ensures h in m' <==> DataAt(r, cfg.pda(h)) != []
      ensures h in m' ==> DecodeEntry(DataAt(r, cfg.pda(h))) == Some(m'[h])
    {
      DataAfter(cfg, ledger, m, tx, h);
      if h !in m && h in HashSet(cfg.sha, items) {
        var k: nat :| k < |items| && HashOf(cfg.sha, items[k]) == h;
        var first := FirstExists(cfg.sha, items, k);
        FirstItemStored(cfg.sha, m, items, i.anchor_timestamp, first);
        var last := LastItemExists(cfg.sha, items, k);
      }
    }
  }

  lemma {:induction false} LastItemExists(sha: Sha, items: seq<Item>, k: nat) returns (l: nat)
    requires k < |items|
    ensures k <= l && IsLastItem(sha, items, l) && HashOf(sha, items[l]) == HashOf(sha, items[k])
    decreases |items| - k
  {
    hide HashOf;
    if j: nat :| k < j < |items| && HashOf(sha, items[j]) == HashOf(sha, items[k]) {
      l := LastItemExists(sha, items, j);
    } else {
      l := k;
    }
  }

  lemma DisagreementBreaksRefinement(cfg: Config, ledger: Ledger, m: Entries, tx: Tx)
    requires PdaInjective(cfg.pda) && Represents(cfg, ledger, m) && Accepted(cfg, ledger, tx) && DecodeInstruction(tx.payload).Some?
    requires !LastAgreesWithFirst(cfg.sha, m, DecodeInstruction(tx.payload).value.Items())
    ensures var i := DecodeInstruction(tx.payload).value;
            !Represents(cfg, Execute(cfg, ledger, tx), PutAll(cfg.sha, m, i.Items(), i.anchor_timestamp))
  {
    hide HashOf, DecodeEntry, DecodeInstruction, Execute, Accepted, PutAll, DataAt;
    var i := DecodeInstruction(tx.payload).value;
    var items := i.Items();
    var first: nat, last: nat :|
      IsFirst(cfg.sha, items, first) && IsLastItem(cfg.sha, items, last)
      && HashOf(cfg.sha, items[first]) == HashOf(cfg.sha, items[last]) && HashOf(cfg.sha, items[first]) !in m
      && items[first] != items[last];
    var h := HashOf(cfg.sha, items[first]);
    DataAfter(cfg, ledger, m, tx, h);
    FirstItemStored(cfg.sha, m, items, i.anchor_timestamp, first);
    assert EntryFor(cfg.sha, items[first], i.anchor_timestamp) != EntryFor(cfg.sha, items[last], i.anchor_timestamp);
  }

  /** The entries of the reference outcome, in request order. */
  function OutcomeEntries(o: Outcome): (r: seq<AnchorEntry>) {
    if o.One? then [o.one.entry] else o.batch.entries
  }

  /** With distinct hashes: the new ledger represents the new registry, and decoding the transaction's accounts in
      request order gives exactly the entries the reference returns. */
  lemma DistinctBatchRefines(cfg: Config, ledger: Ledger, m: Entries, tx: Tx)
    requires PdaInjective(cfg.pda) && Represents(cfg, ledger, m) && Accepted(cfg, ledger, tx)
    requires DecodeInstruction(tx.payload).Some? ==> DistinctHashes(cfg.sha, DecodeInstruction(tx.payload).value.Items())
    ensures DecodeInstruction(tx.payload).Some?
    ensures var i := DecodeInstruction(tx.payload).value;
            var r, out := Execute(cfg, ledger, tx), OutcomeEntries(ApplyResult(cfg.sha, m, i));
            && Represents(cfg, r, PutAll(cfg.sha, m, i.Items(), i.anchor_timestamp))
            && |out| == |tx.accounts|
            && forall k :: 0 <= k < |out| ==> DecodeEntry(DataAt(r, tx.accounts[k])) == Some(out[k])
  {
    GuestRefinesRegistry(cfg, ledger, m, tx);
    var i := DecodeInstruction(tx.payload).value;
    DistinctAgree(cfg.sha, m, i.Items());
    ExecuteMeaning(cfg, ledger, tx);
    OutcomeMeaning(cfg.sha, m, i);
    hide Execute, DecodeEntry, DecodeInstruction, HashOf, PutAll, Accepted, DataAt, ApplyResult;
    var r, out := Execute(cfg, ledger, tx), OutcomeEntries(ApplyResult(cfg.sha, m, i));
    forall k | 0 <= k < |out|
      ensures DecodeEntry(DataAt(r, tx.accounts[k])) == Some(out[k])
    {
      assert tx.accounts[k] == cfg.pda(HashOf(cfg.sha, i.Items()[k]));
    }
  }

  lemma OutcomeMeaning(sha: Sha, m: Entries, i: Instruction)
    ensures var out, r := OutcomeEntries(ApplyResult(sha, m, i)), PutAll(sha, m, i.Items(), i.anchor_timestamp);
            && |out| == |i.Items()|
            && forall k :: 0 <= k < |out| ==> HashOf(sha, i.Items()[k]) in r && out[k] == r[HashOf(sha, i.Items()[k])]
  {
    hide HashOf;
    if i.AnchorBatch? {
      BatchAccounting(sha, m, i.entries, i.anchor_timestamp);
    } else {
      assert [i.item][..0] == [];
      assert PutAll(sha, m, [], i.anchor_timestamp) == m;
    }
  }

  /** No two different items name the same hash that the registry does not have yet. */
  ghost predicate NoConflict(sha: Sha, m: Entries, items: seq<Item>) {
    forall x, y :: x in items && y in items && HashOf(sha, x) == HashOf(sha, y) && HashOf(sha, x) !in m ==> x == y
  }

  lemma NoConflictAgrees(sha: Sha, m: Entries, items: seq<Item>, later: Entries, batch: seq<Item>)
    requires NoConflict(sha, m, items) && m.Keys <= later.Keys && forall x :: x in batch ==> x in items
    ensures LastAgreesWithFirst(sha, later, batch)
  {
    hide HashOf;
  }

  /** The same comparison on what the program emits, whatever the runtime then does with it: every emitted account
      decodes to the entry the reference returns for that position exactly when the batch has no conflict. */
  lemma EmittedMatchesReturnedExactly(cfg: Config, ledger: Ledger, m: Entries, tx: Tx)
    requires Represents(cfg, ledger, m) && Accepted(cfg, ledger, tx)
    ensures DecodeInstruction(tx.payload).Some?
    ensures var i, posts := DecodeInstruction(tx.payload).value, Main(cfg, PreStates(ledger, tx.accounts), tx.payload).value;
            var out := OutcomeEntries(ApplyResult(cfg.sha, m, i));
            && |posts| == |out| == |i.Items()|
            && ((forall k :: 0 <= k < |out| ==> DecodeEntry(posts[k].account.data) == Some(out[k])) <==> NoConflict(cfg.sha, m, i.Items()))
  {
    hide Main, DecodeInstruction, HashOf, PutEntry, DecodeEntry, ApplyResult, PutAll;
    var pres := PreStates(ledger, tx.accounts);
    GuestMeaning(cfg, pres, tx.payload);
    var i, posts := DecodeInstruction(tx.payload).value, Main(cfg, pres, tx.payload).value;
    OutcomeMeaning(cfg.sha, m, i);
    var out := OutcomeEntries(ApplyResult(cfg.sha, m, i));
    forall k: nat | k < |out| ensures EmittedDecodes(cfg, m, i, k, posts[k]) {
      EmittedEntry(cfg, ledger, m, pres[k], i, k);
    }
    ReturnedByConflict(cfg.sha, m, i, out);
    hide EmittedDecodes;
    if NoConflict(cfg.sha, m, i.Items()) {
      forall k: nat | k < |out| ensures DecodeEntry(posts[k].account.data) == Some(out[k]) {
        EmittedDecodesTo(cfg, m, i, k, posts[k]);
      }
    } else {
      var k: nat :| k < |out| && HashOf(cfg.sha, i.Items()[k]) !in m && out[k] != EntryFor(cfg.sha, i.Items()[k], i.anchor_timestamp);
      EmittedDecodesTo(cfg, m, i, k, posts[k]);
    }
  }

  /** A post-state carries the registered entry of its item's hash if there is one, and its item's own entry otherwise. */
  ghost predicate EmittedDecodes(cfg: Config, m: Entries, i: Instruction, k: nat, post: PostState)
    requires k < |i.Items()|
  {
    var h := HashOf(cfg.sha, i.Items()[k]);
    DecodeEntry(post.account.data) == Some(if h in m then m[h] else EntryFor(cfg.sha, i.Items()[k], i.anchor_timestamp))
  }

  lemma EmittedDecodesTo(cfg: Config, m: Entries, i: Instruction, k: nat, post: PostState)
    requires k < |i.Items()| && EmittedDecodes(cfg, m, i, k, post)
    ensures var h := HashOf(cfg.sha, i.Items()[k]);
            DecodeEntry(post.account.data) == Some(if h in m then m[h] else EntryFor(cfg.sha, i.Items()[k], i.anchor_timestamp))
  {
    hide DecodeEntry, HashOf;
  }

  lemma EmittedEntry(cfg: Config, ledger: Ledger, m: Entries, pre: PreState, i: Instruction, k: nat)
    requires Represents(cfg, ledger, m) && k < |i.Items()|
    requires pre == PreState(PdaOf(cfg, i.Items()[k]), AccountAt(ledger, PdaOf(cfg, i.Items()[k])))
    requires EntryAccepted(cfg, pre, i.Items()[k], i.anchor_timestamp)
    ensures EmittedDecodes(cfg, m, i, k, Emitted(cfg, pre, i.Items()[k], i.anchor_timestamp))
  {
    hide PutEntry, DecodeEntry, CidHash, AccountAt;
    var e := EntryFor(cfg.sha, i.Items()[k], i.anchor_timestamp);
    EntryCodec(e, PutEntry(e));
  }

  /** Where no conflict is, the reference too returns each new item's own entry; a conflict shows at some position. */
  lemma ReturnedByConflict(sha: Sha, m: Entries, i: Instruction, out: seq<AnchorEntry>)
    requires out == OutcomeEntries(ApplyResult(sha, m, i)) && |out| == |i.Items()|
    ensures forall k: nat :: k < |out| && HashOf(sha, i.Items()[k]) in m ==> out[k] == m[HashOf(sha, i.Items()[k])]
    ensures NoConflict(sha, m, i.Items()) <==>
              forall k: nat :: k < |out| && HashOf(sha, i.Items()[k]) !in m ==> out[k] == EntryFor(sha, i.Items()[k], i.anchor_timestamp)
  {
    hide HashOf, ApplyResult, PutAll, HashSet;
    var items := i.Items();
    OutcomeMeaning(sha, m, i);
    PutAllKeys(sha, m, items, i.anchor_timestamp);
    if NoConflict(sha, m, items) {
      forall k: nat | k < |out| && HashOf(sha, items[k]) !in m ensures out[k] == EntryFor(sha, items[k], i.anchor_timestamp) {
        var f := FirstExists(sha, items, k);
        FirstItemStored(sha, m, items, i.anchor_timestamp, f);
        assert items[f] == items[k];
      }
    } else {
      var a, b :| a in items && b in items && HashOf(sha, a) == HashOf(sha, b) && HashOf(sha, a) !in m && a != b;
      var p: nat :| p < |items| && items[p] == a;
      var q: nat :| q < |items| && items[q] == b;
      assert out[p] == out[q];
      assert EntryFor(sha, a, i.anchor_timestamp) != EntryFor(sha, b, i.anchor_timestamp);
    }
  }

  /** The input on which the two differ: one new CID twice in a batch. The reference keeps the first metadata hash,
      the chain the last, because every entry is judged by its own pre-state. */
  lemma DuplicateCidDiverges(cfg: Config, cid: Cid, first: Digest, second: Digest, ts: U64)
    requires PdaInjective(cfg.pda) && first != second
    requires |cid| <= U32_MAX && |cid| + 76 <= cfg.limit
    ensures var items := [Item(cid, first), Item(cid, second)];
            var pda := PdaOf(cfg, items[0]);
            var tx := Tx([pda, pda], PutInstruction(AnchorBatch(items, ts)));
            var h := CidHash(cfg.sha, cid);
            && Accepted(cfg, map[], tx)
            && DecodeEntry(DataAt(Execute(cfg, map[], tx), pda)) == Some(AnchorEntry(cid, h, second, ts))
            && PutAll(cfg.sha, map[], items, ts) == map[h := AnchorEntry(cid, h, first, ts)]
  {
    var a, b := Item(cid, first), Item(cid, second);
    var items := [a, b];
    var pda := PdaOf(cfg, a);
    var tx := Tx([pda, pda], PutInstruction(AnchorBatch(items, ts)));
    DuplicateAccepted(cfg, cid, first, second, ts);
    ReferenceKeepsFirst(cfg.sha, a, b, ts);
    hide PutEntry, Main, PutInstruction, CidHash, DecodeInstruction, DecodeEntry, Execute, PutAll, Accepted;
    assert Represents(cfg, map[], map[]);
    DataAfter(cfg, map[], map[], tx, HashOf(cfg.sha, b));
    assert IsLastItem(cfg.sha, items, 1);
  }

  lemma ReferenceKeepsFirst(sha: Sha, a: Item, b: Item, ts: U64)
    requires a.cid == b.cid
    ensures PutAll(sha, map[], [a, b], ts) == map[HashOf(sha, a) := EntryFor(sha, a, ts)]
  {
    hide CidHash;
    assert [a, b][..1] == [a] && [a][..0] == [];
    assert PutAll(sha, map[], [], ts) == map[];
    assert PutAll(sha, map[], [a], ts) == map[HashOf(sha, a) := EntryFor(sha, a, ts)];
  }

  lemma DuplicateAccepted(cfg: Config, cid: Cid, first: Digest, second: Digest, ts: U64)
    requires |cid| <= U32_MAX && |cid| + 76 <= cfg.limit
    ensures var items := [Item(cid, first), Item(cid, second)];
            var pda := PdaOf(cfg, items[0]);
            var tx := Tx([pda, pda], PutInstruction(AnchorBatch(items, ts)));
            Accepted(cfg, map[], tx) && DecodeInstruction(tx.payload) == Some(AnchorBatch(items, ts))
  {
    var a, b := Item(cid, first), Item(cid, second);
    var i := AnchorBatch([a, b], ts);
    var pda := PdaOf(cfg, a);
    EntrySize(EntryFor(cfg.sha, a, ts));
    EntrySize(EntryFor(cfg.sha, b, ts));
    hide PutEntry, Main, PutInstruction, CidHash, DecodeInstruction;
    InstructionCodec(i, PutInstruction(i));
    var pres := PreStates(map[], [pda, pda]);
    GuestMeaning(cfg, pres, PutInstruction(i));
    assert EntryAccepted(cfg, pres[0], a, ts) && EntryAccepted(cfg, pres[1], b, ts);
  }

  lemma EntrySize(e: AnchorEntry)
    ensures |PutEntry(e)| == |e.cid| + 76
  {
  }
}
