/** The metadata envelope, its canonical JSON, and its hash (core/src/lib.rs). */
module Envelope {
  import opened Basics
  import opened Text
  import opened Json
  import JsonGrammar

  datatype MetadataEnvelopeV1 = MetadataEnvelopeV1(
    version: Byte,
    cid: Cid,
    title: Str,
    description: Str,
    content_type: Str,
    size_bytes: U64,
    timestamp: U64,
    tags: seq<Str>)

  /** The field names, in declaration order. */
  function Key(i: nat): (r: Str)
    requires i < 8
    ensures |r| == KeyLength(i)
  {
    if i == 0 then Ascii("version")
    else if i == 1 then Ascii("cid")
    else if i == 2 then Ascii("title")
    else if i == 3 then Ascii("description")
    else if i == 4 then Ascii("content_type")
    else if i == 5 then Ascii("size_bytes")
    else if i == 6 then Ascii("timestamp")
    else Ascii("tags")
  }

  /** No two names have the same length, so no two are the same. */
  function KeyLength(i: nat): (n: nat)
    requires i < 8
  {
    if i == 0 then 7 else if i == 1 then 3 else if i == 2 then 5 else if i == 3 then 11
    else if i == 4 then 12 else if i == 5 then 10 else if i == 6 then 9 else 4
  }

  lemma KeysDiffer(i: nat, j: nat)
    requires i < 8 && j < 8 && i != j
    ensures Key(i) != Key(j)
  {
    hide Key;
    assert KeyLength(i) != KeyLength(j);
  }

  // ---- serde's derived Serialize: an object with the fields in declaration order ----

  function Values(e: MetadataEnvelopeV1): (r: seq<Value>)
    ensures |r| == 8
  {
    [Num(Some(e.version as int)), String(Some(e.cid)), String(Some(e.title)), String(Some(e.description)),
     String(Some(e.content_type)), Num(Some(e.size_bytes)), Num(Some(e.timestamp)), Array(TagValues(e.tags))]
  }

  function TagValues(tags: seq<Str>): (r: seq<Value>)
    ensures |r| == |tags| && forall i :: 0 <= i < |tags| ==> r[i] == String(Some(tags[i]))
  {
    seq(|tags|, i requires 0 <= i < |tags| => String(Some(tags[i])))
  }

  function ToJson(e: MetadataEnvelopeV1): (v: Value)
    ensures v.Object? && |v.members| == 8
    ensures forall i :: 0 <= i < 8 ==> v.members[i] == Member(Some(Key(i)), Values(e)[i])
  {
    Object(seq(8, i requires 0 <= i < 8 => Member(Some(Key(i)), Values(e)[i])))
  }

  lemma ToJsonWritable(e: MetadataEnvelopeV1)
    ensures Writable(ToJson(e))
  {
    hide Key;
    assert Writable(Array(TagValues(e.tags)));
    assert forall i :: 0 <= i < 8 ==> Writable(Values(e)[i]);
  }

  function CanonicalJsonBytes(e: MetadataEnvelopeV1): (r: Bytes) {
    ToJsonWritable(e);
    Write(ToJson(e))
  }

  function MetadataHash(sha: Sha, e: MetadataEnvelopeV1): (r: Digest) {
    sha(CanonicalJsonBytes(e))
  }

  // ---- serde's derived Deserialize ----

  function AsU64(v: Value): (r: Option<U64>) {
    if v.Num? then v.n else None
  }

  function AsU8(v: Value): (r: Option<Byte>) {
    if v.Num? && v.n.Some? && v.n.value < 256 then Some(v.n.value as Byte) else None
  }

  function AsStr(v: Value): (r: Option<Str>) {
    if v.String? then v.s else None
  }

  function AsStrs(vs: seq<Value>): (r: Option<seq<Str>>) {
    if vs == [] then Some([])
    else if AsStr(vs[0]).None? || AsStrs(vs[1..]).None? then None
    else Some([AsStr(vs[0]).value] + AsStrs(vs[1..]).value)
  }

  function AsTags(v: Value): (r: Option<seq<Str>>) {
    if v.Array? then AsStrs(v.items) else None
  }

  /** The value of the only member with this key; a missing or repeated field is an error. */
  function Field(members: seq<Member>, key: Str): (r: Option<Value>) {
    if members == [] then None
    else if members[0].key == Some(key) then
      if Mentions(members[1..], key) then None else Some(members[0].value)
    else Field(members[1..], key)
  }

  predicate Mentions(members: seq<Member>, key: Str) {
    exists i :: 0 <= i < |members| && members[i].key == Some(key)
  }

  /** From the field values in declaration order. */
  function Build(v: seq<Value>): (r: Option<MetadataEnvelopeV1>)
    requires |v| == 8
  {
    if AsU8(v[0]).Some? && AsStr(v[1]).Some? && AsStr(v[2]).Some? && AsStr(v[3]).Some?
       && AsStr(v[4]).Some? && AsU64(v[5]).Some? && AsU64(v[6]).Some? && AsTags(v[7]).Some?
    then Some(MetadataEnvelopeV1(AsU8(v[0]).value, AsStr(v[1]).value, AsStr(v[2]).value, AsStr(v[3]).value,
                                 AsStr(v[4]).value, AsU64(v[5]).value, AsU64(v[6]).value, AsTags(v[7]).value))
    else None
  }

  /** The eight fields of an object, whatever their order. */
  function Fields(ms: seq<Member>): (r: Option<seq<Value>>)
    ensures r.Some? ==> |r.value| == 8
  {
    if forall i :: 0 <= i < 8 ==> Field(ms, Key(i)).Some?
    then Some(seq(8, i requires 0 <= i < 8 => Field(ms, Key(i)).value))
    else None
  }

  /** Fields may come in any order and unknown ones are ignored; a struct may also be given as an array of its fields. */
  function FromJson(v: Value): (r: Option<MetadataEnvelopeV1>) {
    match v
    case Array(items) => if |items| == 8 then Build(items) else None
    case Object(ms) =>
      if (exists i :: 0 <= i < |ms| && ms[i].key.None?) || Fields(ms).None? then None else Build(Fields(ms).value)
    case _ => None
  }

  function Parse(payload: Bytes): (r: Option<MetadataEnvelopeV1>) {
    match ReadAll(payload)
    case None => None
    case Some(v) => FromJson(v)
  }

  // ---- round trip ----

  lemma {:induction false} TagsBack(tags: seq<Str>)
    ensures AsStrs(TagValues(tags)) == Some(tags)
  {
    if tags == [] {
    } else {
      TagsBack(tags[1..]);
      assert TagValues(tags)[1..] == TagValues(tags[1..]);
      assert [tags[0]] + tags[1..] == tags;
    }
  }

  /** `key` names member `i` and no other. */
  lemma {:induction false} FieldAt(ms: seq<Member>, key: Str, i: nat)
    requires i < |ms| && ms[i].key == Some(key)
    requires forall j :: 0 <= j < |ms| && j != i ==> ms[j].key != Some(key)
    ensures Field(ms, key) == Some(ms[i].value)
  {
    if i > 0 {
      FieldAt(ms[1..], key, i - 1);
    }
  }

  lemma BuildBack(e: MetadataEnvelopeV1)
    ensures Build(Values(e)) == Some(e)
  {
    hide AsStrs;
    TagsBack(e.tags);
  }

  lemma FieldsBack(e: MetadataEnvelopeV1)
    ensures FromJson(ToJson(e)) == Some(e)
  {
    hide Key, KeyLength, Field, Build, Values;
    BuildBack(e);
    var ms := ToJson(e).members;
    forall i | 0 <= i < 8 ensures Field(ms, Key(i)) == Some(Values(e)[i]) {
      forall j | 0 <= j < 8 && j != i ensures Key(j) != Key(i) {
        KeysDiffer(i, j);
      }
      FieldAt(ms, Key(i), i);
    }
    assert Fields(ms).value == Values(e);
  }

  /** Parsing the canonical bytes gives the envelope back, for every envelope. */
  lemma ParseCanonical(e: MetadataEnvelopeV1)
    ensures Parse(CanonicalJsonBytes(e)) == Some(e)
  {
    hide FromJson, ToJson, ReadAll, Write;
    ToJsonWritable(e);
    ReadAllWritten(ToJson(e));
    FieldsBack(e);
  }

  /** So the printer is injective. */
  lemma CanonicalInjective(a: MetadataEnvelopeV1, b: MetadataEnvelopeV1)
    requires CanonicalJsonBytes(a) == CanonicalJsonBytes(b)
    ensures a == b
  {
    hide CanonicalJsonBytes, Parse;
    ParseCanonical(a);
    ParseCanonical(b);
  }

  // ---- which objects the reader accepts ----

  /** Exactly one member has this key, and this is its value. */
  ghost predicate OnlyMember(ms: seq<Member>, key: Str, v: Value) {
    exists i :: 0 <= i < |ms| && ms[i] == Member(Some(key), v) && forall j :: 0 <= j < |ms| && j != i ==> ms[j].key != Some(key)
  }

  lemma {:induction false} FieldExactly(ms: seq<Member>, key: Str, v: Value)
    ensures Field(ms, key) == Some(v) <==> OnlyMember(ms, key, v)
  {
    if OnlyMember(ms, key, v) {
      var i :| 0 <= i < |ms| && ms[i] == Member(Some(key), v) && forall j :: 0 <= j < |ms| && j != i ==> ms[j].key != Some(key);
      FieldAt(ms, key, i);
    }
    if Field(ms, key) == Some(v) {
      if ms[0].key == Some(key) {
        assert ms[0] == Member(Some(key), v);
        assert forall j :: 1 <= j < |ms| ==> ms[j] == ms[1..][j - 1];
      } else {
        FieldExactly(ms[1..], key, v);
        var i :| 0 <= i < |ms[1..]| && ms[1..][i] == Member(Some(key), v)
                 && forall j :: 0 <= j < |ms[1..]| && j != i ==> ms[1..][j].key != Some(key);
        assert ms[i + 1] == Member(Some(key), v);
        assert forall j :: 1 <= j < |ms| ==> ms[j] == ms[1..][j - 1];
      }
    }
  }

  lemma FirstTag(vs: seq<Value>, tags: seq<Str>)
    requires vs != [] && AsStrs(vs) == Some(tags)
    ensures tags != [] && vs[0] == String(Some(tags[0])) && AsStrs(vs[1..]) == Some(tags[1..])
  {
    var rest := AsStrs(vs[1..]);
    hide AsStrs, ValidUtf8;
    assert tags == [AsStr(vs[0]).value] + rest.value;
    assert tags[1..] == rest.value;
  }

  lemma {:induction false} TagsExactly(vs: seq<Value>, tags: seq<Str>)
    ensures AsStrs(vs) == Some(tags) <==> vs == TagValues(tags)
  {
    TagsBack(tags);
    if vs != [] && AsStrs(vs) == Some(tags) {
      FirstTag(vs, tags);
      hide AsStrs, ValidUtf8;
      TagsExactly(vs[1..], tags[1..]);
      assert forall i :: 1 <= i < |vs| ==> vs[i] == vs[1..][i - 1];
    }
  }

  lemma BuildExactly(v: seq<Value>, e: MetadataEnvelopeV1)
    requires |v| == 8
    ensures Build(v) == Some(e) <==> v == Values(e)
  {
    hide AsStrs;
    BuildBack(e);
    if Build(v) == Some(e) {
      TagsExactly(v[7].items, e.tags);
      assert v[0] == Num(Some(e.version as int)) && v[5] == Num(Some(e.size_bytes)) && v[6] == Num(Some(e.timestamp));
      assert v[7] == Array(TagValues(e.tags));
    }
  }

  lemma ObjectAcceptedByFields(ms: seq<Member>, e: MetadataEnvelopeV1)
    ensures FromJson(Object(ms)) == Some(e) <==>
              && (forall i :: 0 <= i < |ms| ==> ms[i].key.Some?)
              && (forall i: nat :: i < 8 ==> HasField(ms, e, i))
  {
    hide Key, Field, Build, Values, OnlyMember;
    forall i | 0 <= i < 8 ensures Field(ms, Key(i)) == Some(Values(e)[i]) <==> HasField(ms, e, i) {
      FieldExactly(ms, Key(i), Values(e)[i]);
    }
    if Fields(ms).Some? {
      BuildExactly(Fields(ms).value, e);
      assert Fields(ms).value == Values(e) <==> forall i :: 0 <= i < 8 ==> Fields(ms).value[i] == Values(e)[i];
    }
  }

  /** The tags as JSON strings. */
  ghost predicate AreTags(items: seq<Value>, tags: seq<Str>) {
    |items| == |tags| && forall i :: 0 <= i < |tags| ==> items[i] == String(Some(tags[i]))
  }

  /** An object is read as `e` exactly when all its keys are text and each of the eight fields occurs once with its value,
      in whatever order and among whatever other members. */
  lemma ObjectAcceptedExactly(ms: seq<Member>, e: MetadataEnvelopeV1)
    ensures FromJson(Object(ms)) == Some(e) <==>
              && (forall i :: 0 <= i < |ms| ==> ms[i].key.Some?)
              && OnlyMember(ms, Ascii("version"), Num(Some(e.version as int)))
              && OnlyMember(ms, Ascii("cid"), String(Some(e.cid)))
              && OnlyMember(ms, Ascii("title"), String(Some(e.title)))
              && OnlyMember(ms, Ascii("description"), String(Some(e.description)))
              && OnlyMember(ms, Ascii("content_type"), String(Some(e.content_type)))
              && OnlyMember(ms, Ascii("size_bytes"), Num(Some(e.size_bytes)))
              && OnlyMember(ms, Ascii("timestamp"), Num(Some(e.timestamp)))
              && (exists items :: AreTags(items, e.tags) && OnlyMember(ms, Ascii("tags"), Array(items)))
  {
    ObjectAcceptedByFields(ms, e);
    TagsMember(ms, e.tags);
    FieldNames();
    FieldValues(e);
    hide Ascii, OnlyMember, FromJson, AreTags, Key, Values;
    EachField(ms, e);
  }

  ghost predicate HasField(ms: seq<Member>, e: MetadataEnvelopeV1, i: nat)
    requires i < 8
  {
    OnlyMember(ms, Key(i), Values(e)[i])
  }

  lemma EachField(ms: seq<Member>, e: MetadataEnvelopeV1)
    ensures (forall i: nat :: i < 8 ==> HasField(ms, e, i)) <==>
              && HasField(ms, e, 0) && HasField(ms, e, 1) && HasField(ms, e, 2) && HasField(ms, e, 3)
              && HasField(ms, e, 4) && HasField(ms, e, 5) && HasField(ms, e, 6) && HasField(ms, e, 7)
  {
    hide HasField;
  }

  lemma TagsMember(ms: seq<Member>, tags: seq<Str>)
    ensures (exists items :: AreTags(items, tags) && OnlyMember(ms, Ascii("tags"), Array(items)))
       <==> OnlyMember(ms, Ascii("tags"), Array(TagValues(tags)))
  {
    TheTags(tags);
    hide AreTags, OnlyMember, Ascii;
    assert AreTags(TagValues(tags), tags);
  }

  lemma TheTags(tags: seq<Str>)
    ensures forall items :: AreTags(items, tags) <==> items == TagValues(tags)
  {
  }

  lemma FieldNames()
    ensures Key(0) == Ascii("version") && Key(1) == Ascii("cid") && Key(2) == Ascii("title") && Key(3) == Ascii("description")
    ensures Key(4) == Ascii("content_type") && Key(5) == Ascii("size_bytes") && Key(6) == Ascii("timestamp") && Key(7) == Ascii("tags")
  {
    hide Ascii;
  }

  lemma FieldValues(e: MetadataEnvelopeV1)
    ensures var v := Values(e);
            && v[0] == Num(Some(e.version as int)) && v[1] == String(Some(e.cid)) && v[2] == String(Some(e.title))
            && v[3] == String(Some(e.description)) && v[4] == String(Some(e.content_type)) && v[5] == Num(Some(e.size_bytes))
            && v[6] == Num(Some(e.timestamp)) && v[7] == Array(TagValues(e.tags))
  {
  }

  /** The other accepted form is an array of exactly the eight values, in declaration order; nothing else is accepted. */
  lemma ArrayAcceptedExactly(v: Value, e: MetadataEnvelopeV1)
    requires !v.Object?
    ensures FromJson(v) == Some(e) <==>
              && v.Array? && |v.items| == 8
              && v.items[..7] == [Num(Some(e.version as int)), String(Some(e.cid)), String(Some(e.title)), String(Some(e.description)),
                                  String(Some(e.content_type)), Num(Some(e.size_bytes)), Num(Some(e.timestamp))]
              && v.items[7].Array? && AreTags(v.items[7].items, e.tags)
  {
    TheTags(e.tags);
    FieldValues(e);
    if v.Array? && |v.items| == 8 {
      BuildExactly(v.items, e);
      hide AreTags, Build;
      assert v.items == v.items[..7] + [v.items[7]] && Values(e) == Values(e)[..7] + [Values(e)[7]];
      assert Values(e)[..7] == [Num(Some(e.version as int)), String(Some(e.cid)), String(Some(e.title)), String(Some(e.description)),
                                String(Some(e.content_type)), Num(Some(e.size_bytes)), Num(Some(e.timestamp))];
    }
  }

  /** The envelope as a JSON value: an object with the eight fields, each once and with its value, among any others that
      have names; or the array of the eight values. */
  ghost predicate IsEnvelope(v: Value, e: MetadataEnvelopeV1) {
    match v
    case Object(ms) =>
      && (forall i :: 0 <= i < |ms| ==> ms[i].key.Some?)
      && OnlyMember(ms, Ascii("version"), Num(Some(e.version as int)))
      && OnlyMember(ms, Ascii("cid"), String(Some(e.cid)))
      && OnlyMember(ms, Ascii("title"), String(Some(e.title)))
      && OnlyMember(ms, Ascii("description"), String(Some(e.description)))
      && OnlyMember(ms, Ascii("content_type"), String(Some(e.content_type)))
      && OnlyMember(ms, Ascii("size_bytes"), Num(Some(e.size_bytes)))
      && OnlyMember(ms, Ascii("timestamp"), Num(Some(e.timestamp)))
      && (exists items :: AreTags(items, e.tags) && OnlyMember(ms, Ascii("tags"), Array(items)))
    case Array(items) =>
      && |items| == 8
      && items[..7] == [Num(Some(e.version as int)), String(Some(e.cid)), String(Some(e.title)), String(Some(e.description)),
                        String(Some(e.content_type)), Num(Some(e.size_bytes)), Num(Some(e.timestamp))]
      && items[7].Array? && AreTags(items[7].items, e.tags)
    case _ => false
  }

  /** A payload is read as an envelope exactly when it is a JSON text, in the sense of RFC 8259, of that envelope. */
  lemma PayloadExactly(payload: Bytes, e: MetadataEnvelopeV1)
    ensures Parse(payload) == Some(e) <==> exists v :: JsonGrammar.IsJsonText(payload, v) && IsEnvelope(v, e)
  {
    hide ReadAll, FromJson, JsonGrammar.IsJsonText, IsEnvelope;
    forall v ensures FromJson(v) == Some(e) <==> IsEnvelope(v, e) {
      ValueExactly(v, e);
    }
    forall v ensures ReadAll(payload) == Some(v) <==> JsonGrammar.IsJsonText(payload, v) {
      JsonGrammar.ReadExactly(payload, v);
    }
    if Parse(payload) == Some(e) {
      var v := ReadAll(payload).value;
      assert JsonGrammar.IsJsonText(payload, v) && IsEnvelope(v, e);
    }
  }

  lemma ValueExactly(v: Value, e: MetadataEnvelopeV1)
    ensures FromJson(v) == Some(e) <==> IsEnvelope(v, e)
  {
    if v.Object? {
      ObjectAcceptedExactly(v.members, e);
    } else {
      ArrayAcceptedExactly(v, e);
    }
    hide FromJson, OnlyMember, AreTags, Ascii;
  }

  // ---- the bytes of an envelope ----

  /** What is written from member `i` on, after the text `before`. */
  function From(e: MetadataEnvelopeV1, i: nat): (r: Bytes)
    requires i < 8
  {
    ToJsonWritable(e);
    WriteMembers(ToJson(e).members[i..])
  }

  lemma FromStep(e: MetadataEnvelopeV1, i: nat, before: string, name: string, text: string)
    requires i < 8 && Key(i) == Ascii(name) && Plain(name) && Writable(Values(e)[i])
    requires text == before + "\"" + name + "\":" && forall k :: 0 <= k < |before| ==> before[k] < 128 as char
    ensures Ascii(before) + From(e, i)
         == Ascii(text) + Write(Values(e)[i]) + (if i == 7 then [RBRACE] else [COMMA] + From(e, i + 1))
  {
    hide Key, Values, Ascii, Plain, Write, WriteMember, Writable;
    ToJsonWritable(e);
    var ms := ToJson(e).members[i..];
    assert ms[0] == Member(Some(Ascii(name)), Values(e)[i]);
    MemberAs(before, name, Values(e)[i]);
    assert i < 7 ==> ms[1..] == ToJson(e).members[i + 1..];
    var rest := if i == 7 then [RBRACE] else [COMMA] + From(e, i + 1);
    assert From(e, i) == WriteMember(ms[0]) + rest;
    hide From;
    Concat3(Ascii(before), WriteMember(ms[0]), rest);
  }

  lemma Punctuation()
    ensures Ascii("{") == [LBRACE] && Ascii(",") == [COMMA] && Ascii("}") == [RBRACE]
  {
  }

  lemma PlainNames()
    ensures Plain("version") && Plain("cid") && Plain("title") && Plain("description")
    ensures Plain("content_type") && Plain("size_bytes") && Plain("timestamp") && Plain("tags")
  {
  }

  lemma Openings()
    ensures "{" + "\"" + "version" + "\":" == "{\"version\":" && "," + "\"" + "cid" + "\":" == ",\"cid\":"
    ensures "," + "\"" + "title" + "\":" == ",\"title\":" && "," + "\"" + "description" + "\":" == ",\"description\":"
  {
  }

  lemma MoreOpenings()
    ensures "," + "\"" + "content_type" + "\":" == ",\"content_type\":" && "," + "\"" + "size_bytes" + "\":" == ",\"size_bytes\":"
    ensures "," + "\"" + "timestamp" + "\":" == ",\"timestamp\":" && "," + "\"" + "tags" + "\":" == ",\"tags\":"
  {
  }

  /** The canonical bytes, literally: the eight members in this order, with no blank anywhere. */
  lemma CanonicalLayout(e: MetadataEnvelopeV1)
    ensures CanonicalJsonBytes(e)
         == Ascii("{\"version\":") + Decimal(e.version as int)
            + (Ascii(",\"cid\":") + Quoted(e.cid)
            + (Ascii(",\"title\":") + Quoted(e.title)
            + (Ascii(",\"description\":") + Quoted(e.description)
            + (Ascii(",\"content_type\":") + Quoted(e.content_type)
            + (Ascii(",\"size_bytes\":") + Decimal(e.size_bytes)
            + (Ascii(",\"timestamp\":") + Decimal(e.timestamp)
            + (Ascii(",\"tags\":") + (Ascii("[") + QuotedList(e.tags) + Ascii("]")) + Ascii("}"))))))))
  {
    ToJsonWritable(e);
    assert CanonicalJsonBytes(e) == [LBRACE] + From(e, 0) by {
      assert ToJson(e).members[0..] == ToJson(e).members;
    }
    assert forall i :: 0 <= i < 8 ==> Writable(Values(e)[i]) by {
      assert forall i :: 0 <= i < 8 ==> Writable(ToJson(e).members[i].value);
    }
    ListAs(e.tags, TagValues(e.tags));
    Scalars(e);
    Punctuation();
    hide Key, Values, Ascii, Write, Writable, From, CanonicalJsonBytes, Decimal, Quoted, QuotedList;
    FirstPart(e);
    SecondPart(e);
  }

  lemma FirstPart(e: MetadataEnvelopeV1)
    requires forall i :: 0 <= i < 8 ==> Writable(Values(e)[i])
    ensures var v := Values(e);
            Ascii("{") + From(e, 0)
            == Ascii("{\"version\":") + Write(v[0])
               + ([COMMA] + From(e, 1))
    ensures var v := Values(e);
            && [COMMA] + From(e, 1) == Ascii(",\"cid\":") + Write(v[1]) + ([COMMA] + From(e, 2))
            && [COMMA] + From(e, 2) == Ascii(",\"title\":") + Write(v[2]) + ([COMMA] + From(e, 3))
            && [COMMA] + From(e, 3) == Ascii(",\"description\":") + Write(v[3]) + ([COMMA] + From(e, 4))
  {
    Punctuation();
    PlainNames();
    FieldNames();
    Openings();
    hide Key, Values, Ascii, Plain, Write, Writable, From;
    FromStep(e, 0, "{", "version", "{\"version\":");
    FromStep(e, 1, ",", "cid", ",\"cid\":");
    FromStep(e, 2, ",", "title", ",\"title\":");
    FromStep(e, 3, ",", "description", ",\"description\":");
  }

  lemma SecondPart(e: MetadataEnvelopeV1)
    requires forall i :: 0 <= i < 8 ==> Writable(Values(e)[i])
    ensures var v := Values(e);
            && [COMMA] + From(e, 4) == Ascii(",\"content_type\":") + Write(v[4]) + ([COMMA] + From(e, 5))
            && [COMMA] + From(e, 5) == Ascii(",\"size_bytes\":") + Write(v[5]) + ([COMMA] + From(e, 6))
            && [COMMA] + From(e, 6) == Ascii(",\"timestamp\":") + Write(v[6]) + ([COMMA] + From(e, 7))
            && [COMMA] + From(e, 7) == Ascii(",\"tags\":") + Write(v[7]) + [RBRACE]
  {
    Punctuation();
    PlainNames();
    FieldNames();
    MoreOpenings();
    hide Key, Values, Ascii, Plain, Write, Writable, From;
    FromStep(e, 4, ",", "content_type", ",\"content_type\":");
    FromStep(e, 5, ",", "size_bytes", ",\"size_bytes\":");
    FromStep(e, 6, ",", "timestamp", ",\"timestamp\":");
    FromStep(e, 7, ",", "tags", ",\"tags\":");
  }

  lemma Scalars(e: MetadataEnvelopeV1)
    requires forall i :: 0 <= i < 8 ==> Writable(Values(e)[i])
    ensures var v := Values(e);
            && Write(v[0]) == Decimal(e.version as int) && Write(v[1]) == Quoted(e.cid) && Write(v[2]) == Quoted(e.title)
            && Write(v[3]) == Quoted(e.description) && Write(v[4]) == Quoted(e.content_type) && Write(v[5]) == Decimal(e.size_bytes)
            && Write(v[6]) == Decimal(e.timestamp) && v[7] == Array(TagValues(e.tags))
  {
    hide Decimal, Quoted;
  }
}
