/** The reading side of adapters/lez/src/lib.rs: poll a PDA until it decodes, and read a batch back in request order. */
module LezClient {
  import opened Basics
  import opened Text
  import opened Registry
  import opened Borsh
  import opened Retry
  import opened Guest
  import Chain

  /** What each successive account fetch sees: a ledger, or nothing when the fetch fails. */
  type Reads = nat -> Option<Ledger>

  /** `read_entry`; None is an account that is still empty. */
  function ReadEntry(seen: Option<Ledger>, pda: AccountId): (r: Option<Attempt<AnchorEntry>>) {
    if seen.None? then Some(Err(AdapterError(true, "fetch entry account")))
    else if DataAt(seen.value, pda) == [] then None
    else
      match DecodeEntry(DataAt(seen.value, pda))
      case None => Some(Err(AdapterError(false, "decode AnchorEntry")))
      case Some(e) => Some(Ok(e))
  }

  /** What one fetch tells: the entry whose encoding the account holds; nothing while the account is empty; an error to
      retry when the fetch failed, and one not to retry when the data is no encoding of an entry. */
  lemma ReadEntryExactly(seen: Option<Ledger>, pda: AccountId)
    ensures var r := ReadEntry(seen, pda);
            && (r.None? <==> seen.Some? && DataAt(seen.value, pda) == [])
            && (forall e :: r == Some(Ok(e)) <==> seen.Some? && EncodeEntry(e) == Some(DataAt(seen.value, pda)))
            && (r.Some? && r.value.Err? ==> (r.value.error.retryable <==> seen.None?))
  {
    hide DecodeEntry, DataAt, PutEntry;
    if seen.Some? {
      var data := DataAt(seen.value, pda);
      forall e ensures DecodeEntry(data) == Some(e) <==> EncodeEntry(e) == Some(data) {
        EntryCodec(e, data);
      }
      if data == [] {
        Chain.NothingDecodes();
      }
    }
  }

  /** Number of polls: the timeout in whole units of 750 ms, and at least one. */
  function MaxAttempts(timeoutMs: nat): (n: nat)
    ensures n >= 1 && (n == 1 || n * 750 <= timeoutMs) && timeoutMs < (n + 1) * 750
  {
    if timeoutMs / 750 >= 1 then timeoutMs / 750 else 1
  }

  /** Later fetches never see less than earlier ones. */
  ghost predicate NeverLoses(views: Reads) {
    forall i: nat, j: nat :: i <= j && views(i).Some? && views(j).Some? ==> Chain.Grows(views(i).value, views(j).value)
  }

  /** One of the fetches from `start` up to `next` read this entry. */
  ghost predicate ReadBetween(views: Reads, pda: AccountId, start: nat, next: nat, entry: AnchorEntry) {
    exists i: nat :: start <= i < next && ReadEntry(views(i), pda) == Some(Ok(entry))
  }

  lemma StillThere(views: Reads, pda: AccountId, start: nat, next: nat, entry: AnchorEntry, later: nat)
    requires NeverLoses(views) && ReadBetween(views, pda, start, next, entry) && later >= next && views(later).Some?
    ensures ReadEntry(views(later), pda) == Some(Ok(entry))
  {
    hide DecodeEntry, DataAt;
    var i: nat :| start <= i < next && ReadEntry(views(i), pda) == Some(Ok(entry));
    assert Chain.Grows(views(i).value, views(later).value);
  }

  method ReadEntryUntil(views: Reads, pda: AccountId, timeoutMs: nat, start: nat) returns (result: Attempt<AnchorEntry>, next: nat)
    ensures start < next <= start + MaxAttempts(timeoutMs)
    ensures forall i :: start <= i < next - 1 ==> ReadEntry(views(i), pda).None?
    ensures ReadEntry(views(next - 1), pda).Some? ==> ReadEntry(views(next - 1), pda) == Some(result)
    ensures ReadEntry(views(next - 1), pda).None? ==>
              next == start + MaxAttempts(timeoutMs) && result.Err? && result.error.retryable
  {
    hide DecodeEntry;
    var attempts := MaxAttempts(timeoutMs);
    next := start;
    while next < start + attempts
      invariant start <= next <= start + attempts
      invariant forall i :: start <= i < next ==> ReadEntry(views(i), pda).None?
    {
      var r := ReadEntry(views(next), pda);
      next := next + 1;
      if r.Some? {
        return r.value, next;
      }
    }
    result := Err(AdapterError(true, "entry-PDA still empty"));
  }

  /** The reads of one item, from `start` up to `next`, ended in this error: a failed fetch or undecodable data at the last
      read after nothing but empty ones, or the full number of empty reads. */
  ghost predicate GaveUp(views: Reads, pda: AccountId, timeoutMs: nat, start: nat, next: nat, error: AdapterError) {
    && start < next <= start + MaxAttempts(timeoutMs)
    && (forall i: nat :: start <= i < next - 1 ==> ReadEntry(views(i), pda).None?)
    && (ReadEntry(views(next - 1), pda) == Some(Err(error))
        || (ReadEntry(views(next - 1), pda).None? && next == start + MaxAttempts(timeoutMs) && error.retryable))
  }

  ghost predicate WasRead(views: Reads, pda: AccountId, start: nat, next: nat) {
    exists e :: ReadBetween(views, pda, start, next, e)
  }

  /** Item `k` is the one that ended the reading: everything before it was read, and its own reads gave up. */
  ghost predicate FailedAt(cfg: Config, views: Reads, items: seq<Item>, timeoutMs: nat, start: nat, next: nat, k: nat, error: AdapterError) {
    && k < |items|
    && exists from: nat ::
         && start <= from
         && (forall j :: 0 <= j < k ==> WasRead(views, PdaOf(cfg, items[j]), start, from))
         && GaveUp(views, PdaOf(cfg, items[k]), timeoutMs, from, next, error)
  }

  /** Every fetch from `start` on sees a ledger with an entry in the account of every item. */
  ghost predicate AlwaysReadable(cfg: Config, views: Reads, items: seq<Item>, start: nat) {
    forall i: nat, k: nat :: i >= start && k < |items| ==>
      ReadEntry(views(i), PdaOf(cfg, items[k])).Some? && ReadEntry(views(i), PdaOf(cfg, items[k])).value.Ok?
  }

  /** `anchor_batch` after `submit_and_wait`: one entry per item, in request order, or the first error. */
  method ReadBatch(cfg: Config, views: Reads, items: seq<Item>, timeoutMs: nat, start: nat)
    returns (result: Attempt<seq<AnchorEntry>>, next: nat)
    ensures start <= next <= start + |items| * MaxAttempts(timeoutMs)
    ensures result.Ok? ==> |result.value| == |items|
    ensures result.Ok? ==> forall k :: 0 <= k < |items| ==> ReadBetween(views, PdaOf(cfg, items[k]), start, next, result.value[k])
    ensures result.Ok? && NeverLoses(views) ==> forall i: nat, k :: i >= next && views(i).Some? && 0 <= k < |items| ==>
              ReadEntry(views(i), PdaOf(cfg, items[k])) == Some(Ok(result.value[k]))
    ensures result.Err? ==> exists k :: FailedAt(cfg, views, items, timeoutMs, start, next, k, result.error)
    ensures AlwaysReadable(cfg, views, items, start) ==> result.Ok? && next == start + |items|
  {
    hide DecodeEntry, PdaOf, DataAt, ReadEntry, MaxAttempts;
    var out: seq<AnchorEntry> := [];
    next := start;
    for k := 0 to |items|
      invariant |out| == k
      invariant start <= next <= start + k * MaxAttempts(timeoutMs)
      invariant forall j :: 0 <= j < k ==> ReadBetween(views, PdaOf(cfg, items[j]), start, next, out[j])
      invariant AlwaysReadable(cfg, views, items, start) ==> next == start + k
    {
      ghost var from := next;
      assert forall j :: 0 <= j < k ==> ReadBetween(views, PdaOf(cfg, items[j]), start, from, out[j]);
      assert forall j :: 0 <= j < k ==> WasRead(views, PdaOf(cfg, items[j]), start, from);
      var r, after := ReadEntryUntil(views, PdaOf(cfg, items[k]), timeoutMs, next);
      assert |items| * MaxAttempts(timeoutMs) >= (k + 1) * MaxAttempts(timeoutMs) by {
        MulMonotone(|items|, k + 1, MaxAttempts(timeoutMs));
      }
      assert (k + 1) * MaxAttempts(timeoutMs) == k * MaxAttempts(timeoutMs) + MaxAttempts(timeoutMs);
      next := after;
      if AlwaysReadable(cfg, views, items, start) {
        assert ReadEntry(views(from), PdaOf(cfg, items[k])).Some?;
      }
      if r.Err? {
        assert GaveUp(views, PdaOf(cfg, items[k]), timeoutMs, from, next, r.error);
        assert FailedAt(cfg, views, items, timeoutMs, start, next, k, r.error);
        return Err(r.error), next;
      }
      out := out + [r.value];
    }
    result := Ok(out);
    if NeverLoses(views) {
      forall i: nat, k | i >= next && views(i).Some? && 0 <= k < |items|
        ensures ReadEntry(views(i), PdaOf(cfg, items[k])) == Some(Ok(out[k]))
      {
        StillThere(views, PdaOf(cfg, items[k]), start, next, out[k], i);
      }
    }
  }
}
