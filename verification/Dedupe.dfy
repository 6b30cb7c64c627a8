/** The durable dedupe store of indexing/src/orchestration.rs: an in-memory set beside an append-only text file. */
module Dedupe {
  import opened Basics
  import opened Text
  import opened Hex

  datatype ReceivedEnvelope = ReceivedEnvelope(topic: Str, payload: Bytes)

  datatype IngestOutcome = New(envelope_hash: Bytes) | Duplicate(envelope_hash: Bytes)

  /** Topic, a NUL, payload. */
  function HashInput(e: ReceivedEnvelope): (r: Bytes) {
    e.topic + [0] + e.payload
  }

  function EnvelopeHash(sha: Sha, e: ReceivedEnvelope): (r: Bytes)
    ensures |r| == 64 && IsHex(r)
  {
    Encode(sha(HashInput(e)))
  }

  /** The ledger text of an envelope: 64 lower-case digits, two a byte, of the hash of its topic, a NUL and its payload. */
  lemma EnvelopeHashText(sha: Sha, e: ReceivedEnvelope, i: nat)
    requires i < 32
    ensures var digest, digits := sha(e.topic + [0x00] + e.payload), Text.Ascii("0123456789abcdef");
            && EnvelopeHash(sha, e)[2 * i] == digits[digest[i] as int / 16]
            && EnvelopeHash(sha, e)[2 * i + 1] == digits[digest[i] as int % 16]
  {
    EncodedDigits(sha(HashInput(e)), i);
    hide Encode, Text.Ascii;
  }

  /** What `open` loads from a file's text. */
  function Load(file: Bytes): (r: set<Bytes>) {
    Elements(Records(Lines(file)))
  }

  /** A store opened on a file knows exactly the trimmed forms of its lines that are not blank. */
  lemma LoadExactly(file: Bytes, h: Bytes)
    ensures h in Load(file) <==> h != [] && exists i :: 0 <= i < |Lines(file)| && Trim(Lines(file)[i]) == h
  {
    hide Lines, Trim, Records;
    var lines := Lines(file);
    RecordsMeaning(lines, h);
    assert h in Load(file) <==> h in Records(lines);
  }

  // ---- the mutable store; the file is the text it would find on disk ----

  class DurableDedupeStore {
    var seen: set<Bytes>
    var file: Bytes

    /** The text must be UTF-8, or opening fails. */
    static method Open(file: Bytes) returns (store: Option<DurableDedupeStore>)
      ensures store.Some? <==> ValidUtf8(file)
      ensures store.Some? ==> fresh(store.value) && store.value.file == file && store.value.seen == Load(file)
    {
      if !ValidUtf8(file) {
        return None;
      }
      var lines := Lines(file);
      var seen: set<Bytes> := {};
      for i := 0 to |lines|
        invariant seen == Elements(Records(lines[..i]))
      {
        assert lines[..i + 1][..i] == lines[..i];
        var trimmed := Trim(lines[i]);
        if trimmed != [] {
          seen := seen + {trimmed};
        }
      }
      assert lines[..|lines|] == lines;
      var s := new DurableDedupeStore(file, seen);
      store := Some(s);
    }

    constructor (file: Bytes, seen: set<Bytes>)
      ensures this.file == file && this.seen == seen
    {
      this.file := file;
      this.seen := seen;
    }

    /** `writable` is whether appending to the file works; the set is updated before the write is tried. */
    method Ingest(sha: Sha, envelope: ReceivedEnvelope, writable: bool) returns (outcome: Option<IngestOutcome>)
      modifies this
      ensures var h := EnvelopeHash(sha, envelope);
              && (outcome == Some(Duplicate(h)) <==> h in old(seen))
              && (outcome == Some(New(h)) <==> h !in old(seen) && writable)
              && (outcome.None? <==> h !in old(seen) && !writable)
              && seen == old(seen) + {h}
              && file == old(file) + (if outcome == Some(New(h)) then h + [0x0A] else [])
              && (writable ==> Store(seen, file) == Step(sha, Store(old(seen), old(file)), Action.Ingest(envelope)))
    {
      var hash := EnvelopeHash(sha, envelope);
      if hash in seen {
        return Some(Duplicate(hash));
      }
      seen := seen + {hash};
      if !writable {
        return None;
      }
      file := file + hash + [NEWLINE];
      assert old(file) + hash + [NEWLINE] == old(file) + (hash + [NEWLINE]);
      outcome := Some(New(hash));
    }
  }

  // ---- the same store on values, with restarts ----

  datatype Store = Store(seen: set<Bytes>, file: Bytes)

  datatype Action = Ingest(envelope: ReceivedEnvelope) | Restart

  function Step(sha: Sha, s: Store, a: Action): (r: Store) {
    match a
    case Restart => Store(Load(s.file), s.file)
    case Ingest(e) =>
      var h := EnvelopeHash(sha, e);
      if h in s.seen then s else Store(s.seen + {h}, s.file + h + [NEWLINE])
  }

  function After(sha: Sha, s: Store, actions: seq<Action>): (r: Store) {
    if actions == [] then s else Step(sha, After(sha, s, actions[..|actions| - 1]), actions[|actions| - 1])
  }

  /** The outcomes of the ingest actions, in order. */
  function Outcomes(sha: Sha, s: Store, actions: seq<Action>): (r: seq<IngestOutcome>) {
    if actions == [] then []
    else
      var n := |actions| - 1;
      var before := After(sha, s, actions[..n]);
      var prior := Outcomes(sha, s, actions[..n]);
      match actions[n]
      case Restart => prior
      case Ingest(e) =>
        var h := EnvelopeHash(sha, e);
        prior + [if h in before.seen then Duplicate(h) else New(h)]
  }

  /** The envelopes ingested, as one uninterrupted session. */
  function Uninterrupted(actions: seq<Action>): (r: seq<Action>) {
    if actions == [] then []
    else Uninterrupted(actions[..|actions| - 1]) + (if actions[|actions| - 1].Restart? then [] else [actions[|actions| - 1]])
  }

  // ---- appending a hash to the file ----

  lemma HexIsNoSpace(h: Bytes)
    requires h != [] && IsHex(h)
    ensures SpacePrefix(h) == 0 && SpaceSuffix(h) == 0 && h[|h| - 1] != CR && OneLine(h)
  {
    NoSpaceBeforeHex(h);
    NoSpaceAfterHex([], h);
    hide SpacePrefix, SpaceSuffix, IsHex;
    assert [] + h == h;
    HexIsNoTerminator(h);
  }

  lemma HexIsNoTerminator(h: Bytes)
    requires IsHex(h)
    ensures OneLine(h) && CR !in h
  {
  }

  /** No white-space character starts or ends with a hex digit. */
  lemma HexInNoSpace(c: Bytes)
    requires c != [] && (HexValue(c[0]) >= 0 || HexValue(c[|c| - 1]) >= 0)
    ensures !IsSpace(c)
  {
  }

  lemma NoSpaceBeforeHex(h: Bytes)
    requires h != [] && IsHex(h)
    ensures SpacePrefix(h) == 0
  {
    hide IsSpace;
    forall k | 1 <= k <= |h| ensures !IsSpace(h[..k]) {
      HexInNoSpace(h[..k]);
    }
  }

  /** Leading white space of a text is not changed by hex digits after it. */
  lemma SpacePrefixBefore(p: Bytes, h: Bytes)
    requires p != [] && h != [] && IsHex(h)
    ensures SpacePrefix(p + h) == SpacePrefix(p)
  {
    assert HexValue(h[0]) >= 0 && (|h| > 1 ==> HexValue(h[1]) >= 0);
    var s := p + h;
    assert s[..1] == p[..1];
    if |p| == 1 {
      assert s[..2] == [p[0], h[0]];
      assert |s| >= 3 ==> s[..3] == [p[0], h[0], h[1]];
    } else if |p| == 2 {
      assert s[..2] == p[..2];
      assert s[..3] == [p[0], p[1], h[0]];
    } else {
      assert s[..2] == p[..2] && s[..3] == p[..3];
    }
  }

  lemma {:induction false} TrimStartBefore(p: Bytes, h: Bytes)
    requires h != [] && IsHex(h)
    ensures TrimStart(p + h) == TrimStart(p) + h
  {
    hide SpacePrefix;
    if p == [] {
      HexIsNoSpace(h);
      EmptyHasNoSpace();
      assert p + h == h;
    } else {
      SpacePrefixBefore(p, h);
      var n := SpacePrefix(p);
      if n > 0 {
        TrimStartBefore(p[n..], h);
        assert (p + h)[n..] == p[n..] + h;
      }
    }
  }

  lemma EmptyHasNoSpace()
    ensures SpacePrefix([]) == 0 && SpaceSuffix([]) == 0 && TrimEnd([]) == []
  {
  }

  lemma NoSpaceAfterHex(s: Bytes, h: Bytes)
    requires h != [] && IsHex(h)
    ensures SpaceSuffix(s + h) == 0
  {
    hide IsSpace;
    var t := s + h;
    assert t[|t| - 1] == h[|h| - 1];
    forall i | 0 <= i < |t| ensures !IsSpace(t[i..]) {
      HexInNoSpace(t[i..]);
    }
  }

  /** The trimmed form of an unterminated rest completed with a hash. */
  lemma TrimCompleted(p: Bytes, h: Bytes)
    requires h != [] && IsHex(h)
    ensures Trim(StripCr(p + h)) == TrimStart(p) + h
  {
    HexIsNoTerminator(h);
    assert (p + h)[|p + h| - 1] == h[|h| - 1];
    assert StripCr(p + h) == p + h;
    hide SpaceSuffix, SpacePrefix, TrimStart, IsHex, StripCr;
    TrimStartBefore(p, h);
    NoSpaceAfterHex(TrimStart(p), h);
    EndsTrimmed(TrimStart(p) + h);
  }

  lemma EndsTrimmed(s: Bytes)
    requires SpaceSuffix(s) == 0
    ensures TrimEnd(s) == s
  {
  }

  lemma LoadOfLines(lines: seq<Bytes>, last: Bytes)
    ensures Elements(Records(lines + [last])) == Elements(Records(lines)) + (if Trim(last) == [] then {} else {Trim(last)})
  {
    hide Trim, Records;
    OneRecord(last);
    RecordsAppend(lines, [last]);
  }

  lemma LoadOfParts(all: seq<Bytes>, lines: seq<Bytes>, rest: Bytes)
    requires all == lines + (if rest == [] then [] else [rest])
    ensures Elements(Records(all)) == Elements(Records(lines)) + (if Trim(rest) == [] then {} else {Trim(rest)})
  {
    hide Trim, Records, Elements;
    if rest == [] {
      TrimNothing();
      assert all == lines;
    } else {
      LoadOfLines(lines, rest);
    }
  }

  /** What opening finds: the terminated lines, and the rest unless it is blank. */
  lemma LoadOfText(file: Bytes)
    ensures var rest := Unterminated(file);
            Load(file) == Load(Terminated(file)) + (if Trim(rest) == [] then {} else {Trim(rest)})
  {
    hide Lines, Trim, Unterminated, Terminated, Records, Elements, OneLine, EndsLine;
    LinesOfText(file);
    LoadOfParts(Lines(file), Lines(Terminated(file)), Unterminated(file));
  }

  /** What opening finds after `h` was appended. */
  lemma LoadAfterWrite(file: Bytes, h: Bytes)
    requires h != [] && IsHex(h)
    ensures Load(file + h + [NEWLINE]) == Load(Terminated(file)) + {TrimStart(Unterminated(file)) + h}
  {
    hide Lines, Trim, TrimStart, Unterminated, Terminated, StripCr, IsHex, Records, Elements, OneLine, EndsLine;
    HexIsNoSpace(h);
    var rest := Unterminated(file);
    LinesAfterWrite(file, h);
    TrimCompleted(rest, h);
    LoadOfLines(Lines(Terminated(file)), StripCr(rest + h));
  }

  lemma TrimNothing()
    ensures Trim([]) == []
  {
    EmptyHasNoSpace();
  }

  lemma OneRecord(line: Bytes)
    ensures Records([line]) == if Trim(line) == [] then [] else [Trim(line)]
  {
    hide Trim;
    assert [line][..0] == [];
  }

  /** An unterminated last line with text in it, which is what a hash written next would be glued to. */
  predicate HasDanglingLine(file: Bytes) {
    Trim(Unterminated(file)) != []
  }

  lemma TrimStartEmpty(p: Bytes)
    ensures Trim(p) == [] <==> TrimStart(p) == []
  {
    TrimStartStops(p);
    TrimEndKeepsStart(TrimStart(p));
    EmptyHasNoSpace();
  }

  /** A text that does not start with white space does not trim away. */
  lemma {:induction false} TrimEndKeepsStart(s: Bytes)
    requires SpacePrefix(s) == 0
    ensures s != [] ==> TrimEnd(s) != []
  {
    hide IsSpace;
    var n := SpaceSuffix(s);
    if n > 0 {
      assert s[0..] == s == s[..|s|];
      assert n < |s|;
      {
        hide SpacePrefix, SpaceSuffix;
        NoSpaceInPrefix(s, |s| - n);
        TrimEndKeepsStart(s[..|s| - n]);
      }
    }
  }

  /** Writing a new hash and reopening gives the in-memory set exactly when the file had no dangling line. */
  lemma ReloadAfterNew(file: Bytes, h: Bytes)
    requires h != [] && IsHex(h) && h !in Load(file)
    ensures Load(file + h + [NEWLINE]) == Load(file) + {h} <==> !HasDanglingLine(file)
  {
    hide Load, Unterminated, Terminated, Trim, TrimStart;
    var rest := Unterminated(file);
    var kept := Load(Terminated(file));
    LoadOfText(file);
    LoadAfterWrite(file, h);
    TrimStartEmpty(rest);
    if HasDanglingLine(file) {
      assert |TrimStart(rest) + h| > |h|;
      assert h !in kept + {TrimStart(rest) + h};
    } else {
      assert TrimStart(rest) + h == h;
    }
  }

  // ---- restarts are invisible ----

  /** Reopening succeeds and loads exactly the set in memory. */
  ghost predicate Consistent(s: Store) {
    ValidUtf8(s.file) && s.seen == Load(s.file) && !HasDanglingLine(s.file)
  }

  lemma WrittenFileIsUtf8(file: Bytes, h: Bytes)
    requires ValidUtf8(file) && IsHex(h)
    ensures ValidUtf8(file + h + [NEWLINE])
  {
    assert forall i :: 0 <= i < |h| ==> HexValue(h[i]) >= 0;
    hide ValidUtf8, IsHex;
    AsciiIsUtf8(h + [NEWLINE]);
    Utf8Append(file, h + [NEWLINE]);
    Concat3(file, h, [NEWLINE]);
  }

  lemma WrittenFileHasNoDanglingLine(file: Bytes, h: Bytes)
    ensures !HasDanglingLine(file + h + [NEWLINE])
  {
    TrimNothing();
    assert Unterminated(file + h + [NEWLINE]) == [];
  }

  lemma StepKeepsConsistent(sha: Sha, s: Store, a: Action)
    requires Consistent(s)
    ensures Consistent(Step(sha, s, a))
    ensures a.Restart? ==> Step(sha, s, a) == s
  {
    hide Load, HasDanglingLine, EnvelopeHash, ValidUtf8;
    if a.Ingest? {
      var h := EnvelopeHash(sha, a.envelope);
      if h !in s.seen {
        ReloadAfterNew(s.file, h);
        WrittenFileHasNoDanglingLine(s.file, h);
        WrittenFileIsUtf8(s.file, h);
      }
    }
  }

  /** Closing and reopening at any points changes neither an outcome nor the final store. */
  lemma {:induction false} RestartsAreInvisible(sha: Sha, s: Store, actions: seq<Action>)
    requires Consistent(s)
    ensures Consistent(After(sha, s, actions))
    ensures After(sha, s, actions) == After(sha, s, Uninterrupted(actions))
    ensures Outcomes(sha, s, actions) == Outcomes(sha, s, Uninterrupted(actions))
  {
    hide Step, EnvelopeHash, Consistent;
    if actions == [] {
    } else {
      var n := |actions| - 1;
      var prior := actions[..n];
      RestartsAreInvisible(sha, s, prior);
      StepKeepsConsistent(sha, After(sha, s, prior), actions[n]);
      var u := Uninterrupted(prior);
      if actions[n].Ingest? {
        assert (u + [actions[n]])[..|u|] == u;
      } else {
        assert u + [] == u;
      }
    }
  }

  /** A store opened on any UTF-8 file: restarts are invisible in every sequence of actions exactly when the file has no
      dangling line, unless no envelope at all would be new to it. */
  ghost predicate RestartsInvisibleFrom(sha: Sha, s: Store) {
    forall actions: seq<Action> :: Outcomes(sha, s, actions) == Outcomes(sha, s, Uninterrupted(actions))
  }

  lemma RestartsInvisibleExactly(sha: Sha, file: Bytes)
    requires ValidUtf8(file)
    ensures RestartsInvisibleFrom(sha, Store(Load(file), file)) <==>
              !HasDanglingLine(file) || forall e :: EnvelopeHash(sha, e) in Load(file)
  {
    hide EnvelopeHash, Load, ValidUtf8, HasDanglingLine, Outcomes, Uninterrupted;
    var s := Store(Load(file), file);
    if !HasDanglingLine(file) {
      forall actions: seq<Action> ensures Outcomes(sha, s, actions) == Outcomes(sha, s, Uninterrupted(actions)) {
        RestartsAreInvisible(sha, s, actions);
      }
    } else if forall e :: EnvelopeHash(sha, e) in Load(file) {
      forall actions: seq<Action> ensures Outcomes(sha, s, actions) == Outcomes(sha, s, Uninterrupted(actions)) {
        NothingNew(sha, s, actions);
      }
    } else {
      var e :| EnvelopeHash(sha, e) !in Load(file);
      RestartShows(sha, file, e);
    }
  }

  /** With a dangling line, a new envelope is new again after a restart. */
  lemma RestartShows(sha: Sha, file: Bytes, e: ReceivedEnvelope)
    requires HasDanglingLine(file) && EnvelopeHash(sha, e) !in Load(file)
    ensures var s, actions := Store(Load(file), file), [Ingest(e), Restart, Ingest(e)];
            Outcomes(sha, s, actions) != Outcomes(sha, s, Uninterrupted(actions))
  {
    hide EnvelopeHash, HasDanglingLine;
    var s, h := Store(Load(file), file), EnvelopeHash(sha, e);
    var t := s.(seen := s.seen + {h}, file := file + h + [NEWLINE]);
    ForgottenAfterWrite(file, h);
    hide Load;
    OutcomesSnoc(sha, s, [], Ingest(e));
    OutcomesSnoc(sha, s, [Ingest(e)], Restart);
    OutcomesSnoc(sha, s, [Ingest(e), Restart], Ingest(e));
    OutcomesSnoc(sha, s, [Ingest(e)], Ingest(e));
    assert [] + [Ingest(e)] == [Ingest(e)] && [Ingest(e)] + [Restart] == [Ingest(e), Restart];
    assert [Ingest(e), Restart] + [Ingest(e)] == [Ingest(e), Restart, Ingest(e)] && [Ingest(e)] + [Ingest(e)] == [Ingest(e), Ingest(e)];
    assert Uninterrupted([Ingest(e), Restart, Ingest(e)]) == [Ingest(e), Ingest(e)] by {
      assert [Ingest(e), Restart, Ingest(e)][..2] == [Ingest(e), Restart] && [Ingest(e), Restart][..1] == [Ingest(e)] && [Ingest(e)][..0] == [];
      assert Uninterrupted([Ingest(e)]) == [Ingest(e)];
      assert Uninterrupted([Ingest(e), Restart]) == [Ingest(e)];
    }
    hide Outcomes, After, Uninterrupted;
    assert Outcomes(sha, s, [Ingest(e), Restart, Ingest(e)])[1] == New(h);
    assert Outcomes(sha, s, [Ingest(e), Ingest(e)])[1] == Duplicate(h);
  }

  lemma ForgottenAfterWrite(file: Bytes, h: Bytes)
    requires h != [] && IsHex(h) && h !in Load(file) && HasDanglingLine(file)
    ensures h !in Load(file + h + [NEWLINE])
  {
    hide Load, Unterminated, Terminated, Trim, TrimStart, IsHex;
    LoadOfText(file);
    LoadAfterWrite(file, h);
    TrimStartEmpty(Unterminated(file));
    assert |TrimStart(Unterminated(file)) + h| > |h|;
  }

  lemma OutcomesSnoc(sha: Sha, s: Store, actions: seq<Action>, a: Action)
    ensures After(sha, s, []) == s && Outcomes(sha, s, []) == []
    ensures After(sha, s, actions + [a]) == Step(sha, After(sha, s, actions), a)
    ensures Outcomes(sha, s, actions + [a]) ==
              Outcomes(sha, s, actions)
              + (match a
                 case Restart => []
                 case Ingest(e) => [if EnvelopeHash(sha, e) in After(sha, s, actions).seen
                                    then Duplicate(EnvelopeHash(sha, e)) else New(EnvelopeHash(sha, e))])
  {
    hide EnvelopeHash, Step;
    assert (actions + [a])[..|actions|] == actions;
  }

  lemma {:induction false} NothingNew(sha: Sha, s: Store, actions: seq<Action>)
    requires s.seen == Load(s.file) && forall e :: EnvelopeHash(sha, e) in s.seen
    ensures After(sha, s, actions) == s && After(sha, s, Uninterrupted(actions)) == s
    ensures Outcomes(sha, s, actions) == Outcomes(sha, s, Uninterrupted(actions))
  {
    hide EnvelopeHash, Load;
    if actions == [] {
    } else {
      var prior, a := actions[..|actions| - 1], actions[|actions| - 1];
      NothingNew(sha, s, prior);
      assert actions == prior + [a];
      OutcomesSnoc(sha, s, prior, a);
      OutcomesSnoc(sha, s, Uninterrupted(prior), a);
      assert Uninterrupted(prior) + [] == Uninterrupted(prior);
      hide Outcomes, After;
    }
  }

  /** A store over an absent or empty file. */
  lemma FreshStoreConsistent()
    ensures Consistent(Store({}, []))
  {
    TrimNothing();
    assert Records([]) == [];
  }

  // ---- New exactly on the first occurrence ----

  ghost predicate NulFree(s: Bytes) {
    0 !in s
  }

  lemma SplitAtNul(t: Bytes, p: Bytes, t': Bytes, p': Bytes)
    requires NulFree(t) && NulFree(t') && t + [0] + p == t' + [0] + p'
    ensures t == t' && p == p'
  {
    var a, b := t + [0] + p, t' + [0] + p';
    assert a[|t|] == 0 && b[|t'|] == 0;
    assert forall i :: 0 <= i < |t| ==> a[i] == t[i] && t[i] in t;
    assert forall i :: 0 <= i < |t'| ==> b[i] == t'[i] && t'[i] in t';
    assert |t| == |t'|;
    assert t == a[..|t|] && t' == b[..|t'|];
    assert p == a[|t| + 1..] && p' == b[|t'| + 1..];
  }

  lemma SameHashSameEnvelope(sha: Sha, a: ReceivedEnvelope, b: ReceivedEnvelope, inputs: set<Bytes>)
    requires NulFree(a.topic) && NulFree(b.topic)
    requires HashInput(a) in inputs && HashInput(b) in inputs && CollisionFree(sha, inputs)
    requires EnvelopeHash(sha, a) == EnvelopeHash(sha, b)
    ensures a == b
  {
    var x, y := sha(HashInput(a)), sha(HashInput(b));
    hide Decode, Encode;
    DecodeText(Encode(x), x);
    DecodeText(Encode(y), y);
    SplitAtNul(a.topic, a.payload, b.topic, b.payload);
  }

  function Session(envelopes: seq<ReceivedEnvelope>): (r: seq<Action>)
    ensures |r| == |envelopes|
    ensures forall i :: 0 <= i < |envelopes| ==> r[i] == Ingest(envelopes[i])
  {
    seq(|envelopes|, i requires 0 <= i < |envelopes| => Ingest(envelopes[i]))
  }

  function HashesOf(sha: Sha, envelopes: seq<ReceivedEnvelope>): (r: set<Bytes>) {
    set i | 0 <= i < |envelopes| :: EnvelopeHash(sha, envelopes[i])
  }

  lemma {:induction false} SeenAfter(sha: Sha, s: Store, envelopes: seq<ReceivedEnvelope>)
    ensures After(sha, s, Session(envelopes)).seen == s.seen + HashesOf(sha, envelopes)
  {
    hide EnvelopeHash;
    if envelopes == [] {
    } else {
      var n := |envelopes| - 1;
      var prior := envelopes[..n];
      SeenAfter(sha, s, prior);
      assert Session(envelopes)[..n] == Session(prior);
      assert HashesOf(sha, envelopes) == HashesOf(sha, prior) + {EnvelopeHash(sha, envelopes[n])} by {
        assert forall i :: 0 <= i < n ==> envelopes[i] == prior[i];
      }
    }
  }

  lemma {:induction false} OutcomeAt(sha: Sha, s: Store, envelopes: seq<ReceivedEnvelope>, k: nat)
    requires k < |envelopes|
    ensures |Outcomes(sha, s, Session(envelopes))| == |envelopes|
    ensures Outcomes(sha, s, Session(envelopes))[k].New? <==>
              EnvelopeHash(sha, envelopes[k]) !in s.seen + HashesOf(sha, envelopes[..k])
  {
    hide EnvelopeHash, HashesOf;
    var n := |envelopes| - 1;
    var prior := envelopes[..n];
    assert Session(envelopes)[..n] == Session(prior);
    SeenAfter(sha, s, prior);
    OutcomeCount(sha, s, prior);
    if k < n {
      OutcomeAt(sha, s, prior, k);
      assert prior[..k] == envelopes[..k];
    }
  }

  lemma {:induction false} OutcomeCount(sha: Sha, s: Store, envelopes: seq<ReceivedEnvelope>)
    ensures |Outcomes(sha, s, Session(envelopes))| == |envelopes|
  {
    hide EnvelopeHash;
    if envelopes == [] {
    } else {
      var n := |envelopes| - 1;
      assert Session(envelopes)[..n] == Session(envelopes[..n]);
      OutcomeCount(sha, s, envelopes[..n]);
    }
  }

  /** Starting empty, with NUL-free topics and no SHA-256 collision among the inputs: an envelope is New exactly when
      the same topic and payload did not occur before. */
  lemma NewExactlyOnce(sha: Sha, envelopes: seq<ReceivedEnvelope>, k: nat)
    requires k < |envelopes| && forall i :: 0 <= i < |envelopes| ==> NulFree(envelopes[i].topic)
    requires CollisionFree(sha, set i | 0 <= i < |envelopes| :: HashInput(envelopes[i]))
    ensures k < |Outcomes(sha, Store({}, []), Session(envelopes))|
    ensures Outcomes(sha, Store({}, []), Session(envelopes))[k].New? <==> envelopes[k] !in envelopes[..k]
  {
    hide EnvelopeHash, NulFree, Outcomes, CollisionFree, HashInput;
    OutcomeAt(sha, Store({}, []), envelopes, k);
    var inputs := set i | 0 <= i < |envelopes| :: HashInput(envelopes[i]);
    if EnvelopeHash(sha, envelopes[k]) in HashesOf(sha, envelopes[..k]) {
      var j :| 0 <= j < k && EnvelopeHash(sha, envelopes[..k][j]) == EnvelopeHash(sha, envelopes[k]);
      assert HashInput(envelopes[j]) in inputs && HashInput(envelopes[k]) in inputs;
      SameHashSameEnvelope(sha, envelopes[j], envelopes[k], inputs);
      assert envelopes[..k][j] == envelopes[k];
    }
  }
}
