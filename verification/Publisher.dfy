/** The producing side: the publisher of indexing/src/publisher.rs and the hashing entry point of ui/ffi/src/lib.rs. */
module Publisher {
  import opened Basics
  import opened Text
  import opened Registry
  import opened Envelope
  import opened Retry
  import opened Dedupe
  import Base64
  import Batch
  import Hex
  import Json

  datatype MetadataInputs = MetadataInputs(
    title: Str, description: Str, content_type: Str, size_bytes: U64, timestamp_unix: U64, tags: seq<Str>)

  datatype PublisherError =
    | Storage(error: AdapterError) | Delivery(error: AdapterError) | RegistryCall(error: AdapterError) | InvalidCid(raw: Str)

  datatype PublishOutcome = PublishOutcome(
    cid: Cid, envelope: MetadataEnvelopeV1, envelope_bytes: Bytes, metadata_hash: Digest, receipt: string)

  /** The result of a publisher call; `Panic` is the retry helper's panic on zero attempts. */
  datatype Call<T> = Good(value: T) | Bad(error: PublisherError) | Panic

  function EnvelopeOf(cid: Cid, i: MetadataInputs): (e: MetadataEnvelopeV1) {
    MetadataEnvelopeV1(1, cid, i.title, i.description, i.content_type, i.size_bytes, i.timestamp_unix, i.tags)
  }

  /** Upload, build the envelope, broadcast it on the topic. `storage` and `delivery` give the outcome of each attempt. */
  function PublishFile(sha: Sha, policy: RetryPolicy, storage: nat -> Attempt<Str>, inputs: MetadataInputs, topic: Str,
                       delivery: ReceivedEnvelope -> (nat -> Attempt<string>)): (r: Call<PublishOutcome>) {
    match Settle(policy, storage)
    case Panicked => Panic
    case Returned(Err(e)) => Bad(Storage(e))
    case Returned(Ok(raw)) =>
      (match NewCid(raw)
       case None => Bad(InvalidCid(raw))
       case Some(cid) =>
         var envelope := EnvelopeOf(cid, inputs);
         var bytes := CanonicalJsonBytes(envelope);
         match Settle(policy, delivery(ReceivedEnvelope(topic, bytes)))
         case Panicked => Panic
         case Returned(Err(e)) => Bad(Delivery(e))
         case Returned(Ok(receipt)) => Good(PublishOutcome(cid, envelope, bytes, MetadataHash(sha, envelope), receipt)))
  }

  /** `registry` answers each attempt of `anchor_one` for the submitted pair. */
  function AnchorPublished(policy: RetryPolicy, outcome: PublishOutcome, registry: Item -> (nat -> Attempt<AnchorEntry>))
    : (r: Call<AnchorEntry>)
  {
    match Settle(policy, registry(Item(outcome.cid, outcome.metadata_hash)))
    case Panicked => Panic
    case Returned(Err(e)) => Bad(RegistryCall(e))
    case Returned(Ok(entry)) => Good(entry)
  }

  function PublishAndAnchor(sha: Sha, policy: RetryPolicy, storage: nat -> Attempt<Str>, inputs: MetadataInputs, topic: Str,
                            delivery: ReceivedEnvelope -> (nat -> Attempt<string>), registry: Item -> (nat -> Attempt<AnchorEntry>))
    : (r: Call<(PublishOutcome, AnchorEntry)>)
  {
    match PublishFile(sha, policy, storage, inputs, topic, delivery)
    case Panic => Panic
    case Bad(e) => Bad(e)
    case Good(outcome) =>
      match AnchorPublished(policy, outcome, registry)
      case Panic => Panic
      case Bad(e) => Bad(e)
      case Good(entry) => Good((outcome, entry))
  }

  // ---- what is uploaded, broadcast and anchored, attempt by attempt ----

  /** The envelope published for a CID, field by field. */
  ghost predicate Describes(e: MetadataEnvelopeV1, cid: Cid, i: MetadataInputs) {
    && e.version == 1 && e.cid == cid && e.title == i.title && e.description == i.description
    && e.content_type == i.content_type && e.size_bytes == i.size_bytes && e.timestamp == i.timestamp_unix && e.tags == i.tags
  }

  /** Some allowed attempt of the upload gave `raw`, after nothing but errors worth retrying. */
  ghost predicate UploadGave(policy: RetryPolicy, storage: nat -> Attempt<Str>, raw: Str) {
    exists k: nat :: Succeeds(policy, storage, k, raw)
  }

  lemma UploadExactly(policy: RetryPolicy, storage: nat -> Attempt<Str>)
    ensures forall raw: Str :: UploadGave(policy, storage, raw) <==> Settle(policy, storage) == Returned(Ok(raw))
  {
    SettlesExactly(policy, storage);
    hide Succeeds, Fails, Settle;
  }

  /** The upload gave a text whose trimmed form is this CID. */
  ghost predicate UploadGaveCid(policy: RetryPolicy, storage: nat -> Attempt<Str>, cid: Cid) {
    cid != [] && exists raw: Str :: UploadGave(policy, storage, raw) && Trim(raw) == cid
  }

  lemma UploadedCid(policy: RetryPolicy, storage: nat -> Attempt<Str>)
    ensures forall cid: Cid :: UploadGaveCid(policy, storage, cid) <==>
              exists raw: Str :: Settle(policy, storage) == Returned(Ok(raw)) && NewCid(raw) == Some(cid)
  {
    UploadExactly(policy, storage);
    hide Settle, Trim, UploadGave;
    forall cid: Cid
      ensures UploadGaveCid(policy, storage, cid) <==>
              exists raw: Str :: Settle(policy, storage) == Returned(Ok(raw)) && NewCid(raw) == Some(cid)
    {
      if UploadGaveCid(policy, storage, cid) {
        var raw: Str :| UploadGave(policy, storage, raw) && Trim(raw) == cid;
        assert Settle(policy, storage) == Returned(Ok(raw)) && NewCid(raw) == Some(cid);
      }
      if raw: Str :| Settle(policy, storage) == Returned(Ok(raw)) && NewCid(raw) == Some(cid) {
        assert UploadGave(policy, storage, raw) && Trim(raw) == cid;
      }
    }
  }

  /** Some allowed attempt to broadcast this envelope gave the receipt, after nothing but errors worth retrying. */
  ghost predicate BroadcastGave(policy: RetryPolicy, op: nat -> Attempt<string>, receipt: string) {
    exists k: nat :: Succeeds(policy, op, k, receipt)
  }

  ghost predicate BroadcastFailed(policy: RetryPolicy, op: nat -> Attempt<string>, e: AdapterError) {
    exists k: nat :: Fails(policy, op, k, e)
  }

  lemma BroadcastExactly(policy: RetryPolicy, op: nat -> Attempt<string>)
    ensures forall receipt :: BroadcastGave(policy, op, receipt) <==> Settle(policy, op) == Returned(Ok(receipt))
    ensures forall e :: BroadcastFailed(policy, op, e) <==> Settle(policy, op) == Returned(Err(e))
  {
    SettlesExactly(policy, op);
    hide Succeeds, Fails, Settle;
  }

  /** The call succeeds exactly like this: the upload gave a text whose trimmed form is the CID; the envelope describes
      that CID and the inputs; its canonical bytes are what was broadcast on the topic, and an allowed attempt of that
      broadcast gave the receipt after nothing but errors worth retrying; the hash is that of those bytes. */
  lemma PublishedExactly(sha: Sha, policy: RetryPolicy, storage: nat -> Attempt<Str>, inputs: MetadataInputs, topic: Str,
                         delivery: ReceivedEnvelope -> (nat -> Attempt<string>), o: PublishOutcome)
    ensures PublishFile(sha, policy, storage, inputs, topic, delivery) == Good(o) <==>
              && UploadGaveCid(policy, storage, o.cid)
              && Describes(o.envelope, o.cid, inputs)
              && o.envelope_bytes == CanonicalJsonBytes(o.envelope) && o.metadata_hash == sha(o.envelope_bytes)
              && BroadcastGave(policy, delivery(ReceivedEnvelope(topic, o.envelope_bytes)), o.receipt)
  {
    UploadedCid(policy, storage);
    BroadcastExactly(policy, delivery(ReceivedEnvelope(topic, o.envelope_bytes)));
    DescribedExactly(o.envelope, o.cid, inputs);
    hide Settle, CanonicalJsonBytes, NewCid, UploadGaveCid, BroadcastGave, Describes, EnvelopeOf;
  }

  lemma DescribedExactly(e: MetadataEnvelopeV1, cid: Cid, inputs: MetadataInputs)
    ensures Describes(e, cid, inputs) <==> e == EnvelopeOf(cid, inputs)
  {
  }

  /** The upload gave a usable CID, and broadcasting the envelope that describes it ended in this error. */
  ghost predicate BroadcastEnded(policy: RetryPolicy, storage: nat -> Attempt<Str>, inputs: MetadataInputs, topic: Str,
                                 delivery: ReceivedEnvelope -> (nat -> Attempt<string>), e: AdapterError) {
    exists envelope: MetadataEnvelopeV1 ::
      && UploadGaveCid(policy, storage, envelope.cid) && Describes(envelope, envelope.cid, inputs)
      && BroadcastFailed(policy, delivery(ReceivedEnvelope(topic, CanonicalJsonBytes(envelope))), e)
  }

  lemma BroadcastEndedExactly(policy: RetryPolicy, storage: nat -> Attempt<Str>, inputs: MetadataInputs, topic: Str,
                              delivery: ReceivedEnvelope -> (nat -> Attempt<string>), e: AdapterError)
    ensures BroadcastEnded(policy, storage, inputs, topic, delivery, e) <==>
              exists cid: Cid ::
                && UploadGaveCid(policy, storage, cid)
                && BroadcastFailed(policy, delivery(HeardFor(topic, cid, inputs)), e)
  {
    hide CanonicalJsonBytes, UploadGaveCid, BroadcastFailed;
    if cid: Cid :| UploadGaveCid(policy, storage, cid) && BroadcastFailed(policy, delivery(HeardFor(topic, cid, inputs)), e) {
      assert Describes(EnvelopeOf(cid, inputs), cid, inputs);
    }
    if BroadcastEnded(policy, storage, inputs, topic, delivery, e) {
      var envelope: MetadataEnvelopeV1 :| && UploadGaveCid(policy, storage, envelope.cid) && Describes(envelope, envelope.cid, inputs)
                      && BroadcastFailed(policy, delivery(ReceivedEnvelope(topic, CanonicalJsonBytes(envelope))), e);
      DescribedExactly(envelope, envelope.cid, inputs);
    }
  }

  /** When it fails, and with which error; it never reports an anchoring error, and panics only if nothing may be tried. */
  lemma PublishFailsExactly(sha: Sha, policy: RetryPolicy, storage: nat -> Attempt<Str>, inputs: MetadataInputs, topic: Str,
                            delivery: ReceivedEnvelope -> (nat -> Attempt<string>), error: PublisherError)
    ensures PublishFile(sha, policy, storage, inputs, topic, delivery) == Bad(error) <==>
              match error
              case Storage(e) => exists k: nat :: Fails(policy, storage, k, e)
              case InvalidCid(raw) => UploadGave(policy, storage, raw) && Trim(raw) == []
              case Delivery(e) => BroadcastEnded(policy, storage, inputs, topic, delivery, e)
              case RegistryCall(_) => false
    ensures PublishFile(sha, policy, storage, inputs, topic, delivery).Panic? <==> policy.max_attempts == 0
  {
    SettlesExactly(policy, storage);
    match error {
      case Storage(e) => assert Settle(policy, storage) == Returned(Err(e)) <==> exists k: nat :: Fails(policy, storage, k, e);
      case InvalidCid(raw) =>
        UploadExactly(policy, storage);
        assert UploadGave(policy, storage, raw) <==> Settle(policy, storage) == Returned(Ok(raw));
      case Delivery(e) => DeliveryEnds(sha, policy, storage, inputs, topic, delivery, e);
      case RegistryCall(_) =>
    }
    PanicExactly(sha, policy, storage, inputs, topic, delivery);
    hide CanonicalJsonBytes, Trim, Succeeds, Fails, UploadGave, EnvelopeOf, BroadcastEnded, Settle, MetadataHash;
  }

  /** The broadcast is reached exactly with a usable CID, and its error is the error of the call. */
  lemma DeliveryReached(sha: Sha, policy: RetryPolicy, storage: nat -> Attempt<Str>, inputs: MetadataInputs, topic: Str,
                        delivery: ReceivedEnvelope -> (nat -> Attempt<string>), e: AdapterError)
    ensures var upload, r := Settle(policy, storage), PublishFile(sha, policy, storage, inputs, topic, delivery);
            if upload.Returned? && upload.result.Ok? && NewCid(upload.result.value).Some?
            then r == Bad(Delivery(e)) <==>
                   Settle(policy, delivery(HeardFor(topic, NewCid(upload.result.value).value, inputs))) == Returned(Err(e))
            else r != Bad(Delivery(e))
  {
    hide CanonicalJsonBytes, NewCid, EnvelopeOf, Settle, MetadataHash;
  }

  /** The envelope of a CID and inputs, on the topic. */
  function HeardFor(topic: Str, cid: Cid, inputs: MetadataInputs): (r: ReceivedEnvelope) {
    ReceivedEnvelope(topic, CanonicalJsonBytes(EnvelopeOf(cid, inputs)))
  }

  lemma DeliveryEnds(sha: Sha, policy: RetryPolicy, storage: nat -> Attempt<Str>, inputs: MetadataInputs, topic: Str,
                     delivery: ReceivedEnvelope -> (nat -> Attempt<string>), e: AdapterError)
    ensures PublishFile(sha, policy, storage, inputs, topic, delivery) == Bad(Delivery(e))
       <==> BroadcastEnded(policy, storage, inputs, topic, delivery, e)
  {
    DeliveryReached(sha, policy, storage, inputs, topic, delivery, e);
    BroadcastEndedExactly(policy, storage, inputs, topic, delivery, e);
    UploadedCid(policy, storage);
    hide CanonicalJsonBytes, NewCid, UploadGaveCid, EnvelopeOf, BroadcastEnded, Settle, BroadcastFailed, PublishFile;
    if BroadcastEnded(policy, storage, inputs, topic, delivery, e) {
      var cid: Cid :| UploadGaveCid(policy, storage, cid) && BroadcastFailed(policy, delivery(HeardFor(topic, cid, inputs)), e);
      BroadcastExactly(policy, delivery(HeardFor(topic, cid, inputs)));
    }
    if PublishFile(sha, policy, storage, inputs, topic, delivery) == Bad(Delivery(e)) {
      var cid := NewCid(Settle(policy, storage).result.value).value;
      BroadcastExactly(policy, delivery(HeardFor(topic, cid, inputs)));
      assert UploadGaveCid(policy, storage, cid);
    }
  }

  lemma PanicExactly(sha: Sha, policy: RetryPolicy, storage: nat -> Attempt<Str>, inputs: MetadataInputs, topic: Str,
                     delivery: ReceivedEnvelope -> (nat -> Attempt<string>))
    ensures PublishFile(sha, policy, storage, inputs, topic, delivery).Panic? <==> policy.max_attempts == 0
  {
    hide CanonicalJsonBytes, NewCid, EnvelopeOf, StopsAt, MetadataHash;
  }

  ghost predicate AnchorGave(policy: RetryPolicy, op: nat -> Attempt<AnchorEntry>, entry: AnchorEntry) {
    exists k: nat :: Succeeds(policy, op, k, entry)
  }

  ghost predicate AnchorFailed(policy: RetryPolicy, op: nat -> Attempt<AnchorEntry>, e: AdapterError) {
    exists k: nat :: Fails(policy, op, k, e)
  }

  lemma AnchorPublishedExactly(policy: RetryPolicy, o: PublishOutcome, registry: Item -> (nat -> Attempt<AnchorEntry>))
    ensures var r, op := AnchorPublished(policy, o, registry), registry(Item(o.cid, o.metadata_hash));
            && (forall entry :: r == Good(entry) <==> AnchorGave(policy, op, entry))
            && (forall error :: r == Bad(error) <==> error.RegistryCall? && AnchorFailed(policy, op, error.error))
            && (r.Panic? <==> policy.max_attempts == 0)
  {
    var r, op := AnchorPublished(policy, o, registry), registry(Item(o.cid, o.metadata_hash));
    SettlesExactly(policy, op);
    hide Succeeds, Fails, Settle;
    forall entry ensures r == Good(entry) <==> AnchorGave(policy, op, entry) {
      assert Settle(policy, op) == Returned(Ok(entry)) <==> AnchorGave(policy, op, entry);
    }
    forall error ensures r == Bad(error) <==> error.RegistryCall? && AnchorFailed(policy, op, error.error) {
      if error.RegistryCall? {
        assert Settle(policy, op) == Returned(Err(error.error)) <==> AnchorFailed(policy, op, error.error);
      }
    }
  }

  /** Upload, broadcast and anchor in one call: it succeeds exactly when publishing does and an allowed attempt to anchor
      the published CID and hash gives the entry; an anchoring error ends it only after a successful publication. */
  lemma AnchoredExactly(sha: Sha, policy: RetryPolicy, storage: nat -> Attempt<Str>, inputs: MetadataInputs, topic: Str,
                        delivery: ReceivedEnvelope -> (nat -> Attempt<string>), registry: Item -> (nat -> Attempt<AnchorEntry>),
                        o: PublishOutcome, entry: AnchorEntry, error: PublisherError)
    ensures var published := PublishFile(sha, policy, storage, inputs, topic, delivery);
            var r := PublishAndAnchor(sha, policy, storage, inputs, topic, delivery, registry);
            && (r == Good((o, entry)) <==>
                  published == Good(o) && AnchorGave(policy, registry(Item(o.cid, o.metadata_hash)), entry))
            && (r == Bad(error) <==>
                  || published == Bad(error)
                  || (published.Good? && error.RegistryCall?
                      && AnchorFailed(policy, registry(Item(published.value.cid, published.value.metadata_hash)), error.error)))
  {
    hide PublishFile, AnchorPublished, AnchorGave, AnchorFailed;
    var published := PublishFile(sha, policy, storage, inputs, topic, delivery);
    if published.Good? {
      AnchorPublishedExactly(policy, published.value, registry);
    }
  }

  /** What was broadcast, heard by a batch tool on that topic, is exactly the pair the publisher anchors: the bytes parse
      back to the published envelope, and re-encoding and re-hashing it gives the published hash. */
  lemma BatchToolAgrees(sha: Sha, policy: RetryPolicy, storage: nat -> Attempt<Str>, inputs: MetadataInputs, topic: Str,
                        delivery: ReceivedEnvelope -> (nat -> Attempt<string>), o: PublishOutcome, cfg: Batch.BatchConfig)
    requires PublishFile(sha, policy, storage, inputs, topic, delivery) == Good(o) && cfg.sha == sha && cfg.topic == topic
    ensures exists heard ::
              && BroadcastGave(policy, delivery(heard), o.receipt)
              && Parse(heard.payload) == Some(o.envelope) && Describes(o.envelope, o.cid, inputs)
              && o.metadata_hash == sha(heard.payload) && Trim(o.cid) == o.cid != []
              && Batch.ParseEnvelope(cfg, heard) == Some(Item(o.cid, o.metadata_hash))
  {
    PublishedExactly(sha, policy, storage, inputs, topic, delivery, o);
    hide PublishFile, CanonicalJsonBytes, Parse, Trim, UploadGave, BroadcastGave;
    ParseCanonical(o.envelope);
    var raw: Str :| UploadGave(policy, storage, raw) && Trim(raw) == o.cid;
    TrimIdempotent(raw);
    var heard := ReceivedEnvelope(topic, o.envelope_bytes);
    assert Batch.ParseEnvelope(cfg, heard) == Some(Item(o.cid, o.metadata_hash));
    assert BroadcastGave(policy, delivery(heard), o.receipt);
  }

  /** Upload, broadcast and anchor in one call: the entry returned is the answer of the successful attempt to anchor
      exactly the pair a batch tool derives from what was broadcast. */
  lemma AnchoredPairIsBroadcast(sha: Sha, policy: RetryPolicy, storage: nat -> Attempt<Str>, inputs: MetadataInputs, topic: Str,
                                delivery: ReceivedEnvelope -> (nat -> Attempt<string>), registry: Item -> (nat -> Attempt<AnchorEntry>),
                                o: PublishOutcome, entry: AnchorEntry, cfg: Batch.BatchConfig)
    requires PublishAndAnchor(sha, policy, storage, inputs, topic, delivery, registry) == Good((o, entry))
    requires cfg.sha == sha && cfg.topic == topic
    ensures exists heard ::
              && BroadcastGave(policy, delivery(heard), o.receipt) && Batch.ParseEnvelope(cfg, heard).Some?
              && AnchorGave(policy, registry(Batch.ParseEnvelope(cfg, heard).value), entry)
  {
    hide PublishFile, Batch.ParseEnvelope, BroadcastGave, AnchorGave;
    AnchoredExactly(sha, policy, storage, inputs, topic, delivery, registry, o, entry, InvalidCid([]));
    BatchToolAgrees(sha, policy, storage, inputs, topic, delivery, o, cfg);
  }

  // ---- the hashing entry point and the entry texts of the plugin ----

  /** `compute_metadata_hash_impl` after its JSON arguments: the bytes in base64 and their hash in hex. */
  function ComputeMetadataHash(sha: Sha, raw: Str, inputs: MetadataInputs): (r: Option<(Bytes, Bytes)>) {
    match NewCid(raw)
    case None => None
    case Some(cid) =>
      var envelope := EnvelopeOf(cid, inputs);
      Some((Base64.Encoded(CanonicalJsonBytes(envelope)), Hex.Encode(MetadataHash(sha, envelope))))
  }

  /** The broadcast bytes are the hashed bytes: decoding the base64 text and hashing gives the value of the hex text,
      and the batch tool gets the same pair from the decoded bytes. */
  lemma BroadcastBytesAreHashed(sha: Sha, raw: Str, inputs: MetadataInputs, cfg: Batch.BatchConfig)
    requires ComputeMetadataHash(sha, raw, inputs).Some? && cfg.sha == sha
    ensures var (b64, hex) := ComputeMetadataHash(sha, raw, inputs).value;
            && Base64.Decode(b64).Some? && NewCid(raw).Some?
            && Parse(Base64.Decode(b64).value).Some? && Describes(Parse(Base64.Decode(b64).value).value, NewCid(raw).value, inputs)
            && Hex.ParseHash(hex) == Some(sha(Base64.Decode(b64).value))
            && Batch.ParseEnvelope(cfg, ReceivedEnvelope(cfg.topic, Base64.Decode(b64).value))
                 == Some(Item(NewCid(raw).value, sha(Base64.Decode(b64).value)))
  {
    hide CanonicalJsonBytes, Parse, Base64.Encoded, Base64.Decode, Hex.Encode, Hex.ParseHash, Trim;
    var e := EnvelopeOf(NewCid(raw).value, inputs);
    Base64.EncodingIsInverse(CanonicalJsonBytes(e), Base64.Encoded(CanonicalJsonBytes(e)));
    ParseCanonical(e);
    var d := MetadataHash(sha, e);
    Hex.HashTextBack(d, Hex.Encode(d), 0);
    assert Hex.Prefixes(0) + Hex.Encode(d) == Hex.Encode(d);
  }

  function HexText(d: Digest): (t: Str) {
    HexIsAscii(d);
    AsciiIsUtf8(Hex.Encode(d));
    Hex.Encode(d)
  }

  lemma HexIsAscii(d: Digest)
    ensures forall i :: 0 <= i < |Hex.Encode(d)| ==> Hex.Encode(d)[i] < 0x80
  {
    hide Hex.Encode;
    assert forall i :: 0 <= i < |Hex.Encode(d)| ==> Hex.HexValue(Hex.Encode(d)[i]) >= 0;
  }

  /** `entry_to_json`; the members of a `serde_json` map are written in key order. */
  function EntryToJson(e: AnchorEntry): (v: Json.Value)
    ensures v.Object? && |v.members| == 4 && forall i :: 0 <= i < 4 ==> v.members[i] == EntryMember(e, i)
  {
    Json.Object(seq(4, i requires 0 <= i < 4 => EntryMember(e, i)))
  }

  function EntryMember(e: AnchorEntry, i: nat): (m: Json.Member)
    requires i < 4
    ensures m.key.Some? && Json.Writable(m.value)
  {
    if i == 0 then Json.Member(Some(Ascii("anchor_timestamp")), Json.Num(Some(e.anchor_timestamp)))
    else if i == 1 then Json.Member(Some(Ascii("cid")), Json.String(Some(e.cid)))
    else if i == 2 then Json.Member(Some(Ascii("cid_hash")), Json.String(Some(HexText(e.cid_hash))))
    else Json.Member(Some(Ascii("metadata_hash")), Json.String(Some(HexText(e.metadata_hash))))
  }

  lemma EntryJsonWritable(e: AnchorEntry)
    ensures Json.Writable(EntryToJson(e))
  {
    hide EntryMember;
  }

  function EntryText(e: AnchorEntry): (t: Bytes) {
    EntryJsonWritable(e);
    Json.Write(EntryToJson(e))
  }

  /** A caller that parses the emitted text finds the timestamp and the CID, and both hash texts parse back. */
  lemma EntryTextReadsBack(e: AnchorEntry)
    ensures var v := Json.ReadAll(EntryText(e));
            && v.Some? && v.value.Object? && |v.value.members| == 4
            && v.value.members[0].key == Some(Ascii("anchor_timestamp")) && v.value.members[1].key == Some(Ascii("cid"))
            && v.value.members[2].key == Some(Ascii("cid_hash")) && v.value.members[3].key == Some(Ascii("metadata_hash"))
            && v.value.members[0].value == Json.Num(Some(e.anchor_timestamp))
            && v.value.members[1].value == Json.String(Some(e.cid))
            && v.value.members[2].value.String? && v.value.members[2].value.s.Some?
            && Hex.ParseHash(v.value.members[2].value.s.value) == Some(e.cid_hash)
            && v.value.members[3].value.String? && v.value.members[3].value.s.Some?
            && Hex.ParseHash(v.value.members[3].value.s.value) == Some(e.metadata_hash)
  {
    hide Json.ReadAll, Json.Write, Json.Writable, Hex.Encode, Hex.ParseHash, Ascii;
    EntryJsonWritable(e);
    Json.ReadAllWritten(EntryToJson(e));
    HexBack(e.cid_hash);
    HexBack(e.metadata_hash);
  }

  lemma HexBack(d: Digest)
    ensures Hex.ParseHash(HexText(d)) == Some(d)
  {
    hide Hex.Encode, Hex.ParseHash;
    Hex.HashTextBack(d, Hex.Encode(d), 0);
    assert Hex.Prefixes(0) + Hex.Encode(d) == Hex.Encode(d);
  }
}
