/** JSON as serde_json writes and reads it (RFC 8259), for the metadata envelope of core/src/lib.rs. */
module Json {
  import opened Basics
  import opened Text
  import opened Hex

  /** A syntactically valid JSON text as the envelope reader sees it. `Num(None)` is a number that is not an unsigned
      64-bit integer; a string is None when its escapes or its bytes do not form UTF-8 text. */
  datatype Value =
    | Null
    | Bool(b: bool)
    | Num(n: Option<U64>)
    | String(s: Option<Str>)
    | Array(items: seq<Value>)
    | Object(members: seq<Member>)

  datatype Member = Member(key: Option<Str>, value: Value)

  const QUOTE: Byte := 0x22
  const BACKSLASH: Byte := 0x5C
  const COMMA: Byte := 0x2C
  const COLON: Byte := 0x3A
  const LBRACKET: Byte := 0x5B
  const RBRACKET: Byte := 0x5D
  const LBRACE: Byte := 0x7B
  const RBRACE: Byte := 0x7D

  // ---- compact writer ----

  function Escape1(c: Byte): (r: Bytes) {
    if c == QUOTE then [BACKSLASH, QUOTE]
    else if c == BACKSLASH then [BACKSLASH, BACKSLASH]
    else if c == 0x08 then [BACKSLASH, 0x62]
    else if c == 0x09 then [BACKSLASH, 0x74]
    else if c == 0x0A then [BACKSLASH, 0x6E]
    else if c == 0x0C then [BACKSLASH, 0x66]
    else if c == 0x0D then [BACKSLASH, 0x72]
    else if c < 0x20 then [BACKSLASH, 0x75, 0x30, 0x30, HexDigit(c as int / 16), HexDigit(c as int % 16)]
    else [c]
  }

  function Escape(s: Bytes): (r: Bytes) {
    if s == [] then [] else Escape1(s[0]) + Escape(s[1..])
  }

  function Quoted(s: Bytes): (r: Bytes) {
    [QUOTE] + (Escape(s) + [QUOTE])
  }

  function Decimal(n: nat): (r: Bytes)
    ensures r != []
  {
    if n < 10 then [(0x30 + n) as Byte] else Decimal(n / 10) + [(0x30 + n % 10) as Byte]
  }

  /** Only values built from unsigned integers, text, arrays and objects are ever written. */
  predicate Writable(v: Value) {
    match v
    case Null => true
    case Bool(_) => true
    case Num(n) => n.Some?
    case String(s) => s.Some?
    case Array(items) => forall i :: 0 <= i < |items| ==> Writable(items[i])
    case Object(members) => forall i :: 0 <= i < |members| ==> members[i].key.Some? && Writable(members[i].value)
  }

  function Write(v: Value): (r: Bytes)
    requires Writable(v)
    decreases v
  {
    match v
    case Null => Ascii("null")
    case Bool(b) => if b then Ascii("true") else Ascii("false")
    case Num(n) => Decimal(n.value)
    case String(s) => Quoted(s.value)
    case Array(items) => if items == [] then [LBRACKET, RBRACKET] else [LBRACKET] + WriteItems(items)
    case Object(members) => if members == [] then [LBRACE, RBRACE] else [LBRACE] + WriteMembers(members)
  }

  function WriteItems(items: seq<Value>): (r: Bytes)
    requires items != [] && forall i :: 0 <= i < |items| ==> Writable(items[i])
    decreases items
  {
    Write(items[0]) + (if |items| == 1 then [RBRACKET] else [COMMA] + WriteItems(items[1..]))
  }

  function WriteMembers(members: seq<Member>): (r: Bytes)
    requires members != []
    requires forall i :: 0 <= i < |members| ==> members[i].key.Some? && Writable(members[i].value)
    decreases members
  {
    WriteMember(members[0]) + (if |members| == 1 then [RBRACE] else [COMMA] + WriteMembers(members[1..]))
  }

  function WriteMember(m: Member): (r: Bytes)
    requires m.key.Some? && Writable(m.value)
    decreases m
  {
    Quoted(m.key.value) + ([COLON] + Write(m.value))
  }

  // ---- reader ----

  predicate IsBlank(c: Byte) {
    c == 0x20 || c == 0x0A || c == 0x0D || c == 0x09
  }

  function Skip(s: Bytes): (r: Bytes)
    ensures |r| <= |s|
  {
    if s != [] && IsBlank(s[0]) then Skip(s[1..]) else s
  }

  predicate IsDigit(c: Byte) {
    0x30 <= c <= 0x39
  }

  /** Number of decimal digits at the start. */
  function Digits(s: Bytes): (k: nat)
    ensures k <= |s|
    ensures forall i :: 0 <= i < k ==> IsDigit(s[i])
    ensures k < |s| ==> !IsDigit(s[k])
  {
    if s != [] && IsDigit(s[0]) then 1 + Digits(s[1..]) else 0
  }

  function DecimalValue(s: Bytes): (n: nat)
    requires forall i :: 0 <= i < |s| ==> IsDigit(s[i])
  {
    if s == [] then 0
    else
      assert IsDigit(s[|s| - 1]);
      10 * DecimalValue(s[..|s| - 1]) + (s[|s| - 1] as int - 0x30)
  }

  /** The optional exponent: Some(rest), or None when malformed. */
  function ReadExponent(s: Bytes): (r: Option<Bytes>)
    ensures r.Some? ==> |r.value| <= |s|
  {
    if s != [] && (s[0] == 0x65 || s[0] == 0x45) then
      var t := if |s| > 1 && (s[1] == 0x2B || s[1] == 0x2D) then s[2..] else s[1..];
      if Digits(t) == 0 then None else Some(t[Digits(t)..])
    else Some(s)
  }

  function ReadFraction(s: Bytes): (r: Option<Bytes>)
    ensures r.Some? ==> |r.value| <= |s|
  {
    if s != [] && s[0] == 0x2E then
      var t := s[1..];
      if Digits(t) == 0 then None else ReadExponent(t[Digits(t)..])
    else ReadExponent(s)
  }

  /** A number; a leading zero may not be followed by a digit. */
  function ReadNumber(s: Bytes): (r: Option<(Value, Bytes)>)
    ensures r.Some? ==> |r.value.1| < |s|
  {
    var negative := s != [] && s[0] == 0x2D;
    var t := if negative then s[1..] else s;
    var k := Digits(t);
    if k == 0 || (t[0] == 0x30 && k > 1) then None
    else
      match ReadFraction(t[k..])
      case None => None
      case Some(rest) =>
        var n := DecimalValue(t[..k]);
        var plain := !negative && |rest| == |t| - k && n <= U64_MAX;
        Some((Num(if plain then Some(n) else None), rest))
  }

  /** Four hex digits. */
  function Hex4(s: Bytes): (r: Option<int>)
    ensures r.Some? ==> |s| >= 4 && 0 <= r.value < 0x1_0000
  {
    if |s| < 4 || HexValue(s[0]) < 0 || HexValue(s[1]) < 0 || HexValue(s[2]) < 0 || HexValue(s[3]) < 0 then None
    else Some(((HexValue(s[0]) * 16 + HexValue(s[1])) * 16 + HexValue(s[2])) * 16 + HexValue(s[3]))
  }

  function Utf8Of(c: int): (r: Bytes)
    requires 0 <= c < 0x11_0000
  {
    if c < 0x80 then [c as Byte]
    else if c < 0x800 then [(0xC0 + c / 0x40) as Byte, (0x80 + c % 0x40) as Byte]
    else if c < 0x1_0000 then [(0xE0 + c / 0x1000) as Byte, (0x80 + c / 0x40 % 0x40) as Byte, (0x80 + c % 0x40) as Byte]
    else [(0xF0 + c / 0x4_0000) as Byte, (0x80 + c / 0x1000 % 0x40) as Byte, (0x80 + c / 0x40 % 0x40) as Byte, (0x80 + c % 0x40) as Byte]
  }

  /** One piece of a string body: its text (None if it has no meaning) and what follows it. None is a syntax error. */
  function ReadEscape(s: Bytes): (r: Option<(Option<Bytes>, Bytes)>)
    requires s != []
    ensures r.Some? ==> |r.value.1| < |s|
  {
    var c, rest := s[0], s[1..];
    if c == QUOTE || c == BACKSLASH || c == 0x2F then Some((Some([c]), rest))
    else if c == 0x62 then Some((Some([0x08]), rest))
    else if c == 0x66 then Some((Some([0x0C]), rest))
    else if c == 0x6E then Some((Some([0x0A]), rest))
    else if c == 0x72 then Some((Some([0x0D]), rest))
    else if c == 0x74 then Some((Some([0x09]), rest))
    else if c == 0x75 then
      match Hex4(rest)
      case None => None
      case Some(u) =>
        var after := rest[4..];
        if 0xDC00 <= u <= 0xDFFF then Some((None, after))
        else if 0xD800 <= u <= 0xDBFF then
          if |after| >= 2 && after[0] == BACKSLASH && after[1] == 0x75
             && Hex4(after[2..]).Some? && 0xDC00 <= Hex4(after[2..]).value <= 0xDFFF
          then Some((Some(Utf8Of(0x1_0000 + (u - 0xD800) * 0x400 + (Hex4(after[2..]).value - 0xDC00))), after[6..]))
          else Some((None, after))
        else Some((Some(Utf8Of(u)), after))
    else None
  }

  /** A string body up to and including the closing quote. */
  function ReadBody(s: Bytes): (r: Option<(Option<Bytes>, Bytes)>)
    ensures r.Some? ==> |r.value.1| < |s|
    decreases |s|
  {
    if s == [] || s[0] < 0x20 then None
    else if s[0] == QUOTE then Some((Some([]), s[1..]))
    else if s[0] == BACKSLASH then
      if |s| == 1 then None
      else
        match ReadEscape(s[1..])
        case None => None
        case Some((text, rest)) => Join(text, ReadBody(rest))
    else Join(Some([s[0]]), ReadBody(s[1..]))
  }

  function Join(text: Option<Bytes>, tail: Option<(Option<Bytes>, Bytes)>): (r: Option<(Option<Bytes>, Bytes)>)
    ensures r.Some? <==> tail.Some?
    ensures r.Some? ==> r.value.1 == tail.value.1
  {
    match tail
    case None => None
    case Some((more, rest)) => Some((if text.Some? && more.Some? then Some(text.value + more.value) else None, rest))
  }

  /** A string after its opening quote: text only if it is UTF-8. */
  function ReadString(s: Bytes): (r: Option<(Option<Str>, Bytes)>)
    ensures r.Some? ==> |r.value.1| < |s|
  {
    match ReadBody(s)
    case None => None
    case Some((text, rest)) => Some((if text.Some? && ValidUtf8(text.value) then Some(text.value) else None, rest))
  }

  function ReadWord(s: Bytes, word: Bytes, v: Value): (r: Option<(Value, Bytes)>)
    requires word != []
    ensures r.Some? ==> |r.value.1| < |s|
  {
    if word <= s then Some((v, s[|word|..])) else None
  }

  function Read(text: Bytes): (r: Option<(Value, Bytes)>)
    ensures r.Some? ==> |r.value.1| < |text|
    decreases |text|, 1
  {
    var s := Skip(text);
    if s == [] then None
    else if s[0] == 0x6E then ReadWord(s, Ascii("null"), Null)
    else if s[0] == 0x74 then ReadWord(s, Ascii("true"), Bool(true))
    else if s[0] == 0x66 then ReadWord(s, Ascii("false"), Bool(false))
    else if s[0] == QUOTE then
      (match ReadString(s[1..])
       case None => None
       case Some((t, rest)) => Some((String(t), rest)))
    else if s[0] == LBRACKET then
      var t := Skip(s[1..]);
      if t != [] && t[0] == RBRACKET then Some((Array([]), t[1..]))
      else
        (match ReadItems(s[1..])
         case None => None
         case Some((items, rest)) => Some((Array(items), rest)))
    else if s[0] == LBRACE then
      var t := Skip(s[1..]);
      if t != [] && t[0] == RBRACE then Some((Object([]), t[1..]))
      else
        (match ReadMembers(s[1..])
         case None => None
         case Some((members, rest)) => Some((Object(members), rest)))
    else ReadNumber(s)
  }

  /** A non-empty list of values, up to and including the closing bracket. */
  function ReadItems(s: Bytes): (r: Option<(seq<Value>, Bytes)>)
    ensures r.Some? ==> |r.value.1| < |s|
    decreases |s|, 2
  {
    match Read(s)
    case None => None
    case Some((v, rest)) =>
      var t := Skip(rest);
      if t == [] then None
      else if t[0] == RBRACKET then Some(([v], t[1..]))
      else if t[0] == COMMA then
        (match ReadItems(t[1..])
         case None => None
         case Some((vs, rest')) => Some(([v] + vs, rest')))
      else None
  }

  function ReadKey(s: Bytes): (r: Option<(Option<Str>, Bytes)>)
    ensures r.Some? ==> |r.value.1| < |s|
  {
    var t := Skip(s);
    if t == [] || t[0] != QUOTE then None
    else
      match ReadString(t[1..])
      case None => None
      case Some((key, rest)) =>
        var u := Skip(rest);
        if u == [] || u[0] != COLON then None else Some((key, u[1..]))
  }

  function ReadMembers(s: Bytes): (r: Option<(seq<Member>, Bytes)>)
    ensures r.Some? ==> |r.value.1| < |s|
    decreases |s|, 2
  {
    match ReadKey(s)
    case None => None
    case Some((key, afterKey)) =>
      match Read(afterKey)
      case None => None
      case Some((v, rest)) =>
        var t := Skip(rest);
        if t == [] then None
        else if t[0] == RBRACE then Some(([Member(key, v)], t[1..]))
        else if t[0] == COMMA then
          (match ReadMembers(t[1..])
           case None => None
           case Some((ms, rest')) => Some(([Member(key, v)] + ms, rest')))
        else None
  }

  /** `from_slice`: one value, and nothing but blanks after it. */
  function ReadAll(s: Bytes): (r: Option<Value>) {
    match Read(s)
    case None => None
    case Some((v, rest)) => if Skip(rest) == [] then Some(v) else None
  }

  // ---- the reader undoes the writer ----

  lemma ReadEscaped1(c: Byte, tail: Bytes)
    ensures Escape1(c) != [] && Escape1(c)[0] != QUOTE && Escape1(c)[0] >= 0x20
    ensures Escape1(c)[0] == BACKSLASH ==> |Escape1(c)| > 1 && ReadEscape((Escape1(c) + tail)[1..]) == Some((Some([c]), tail))
    ensures Escape1(c)[0] != BACKSLASH ==> Escape1(c) == [c]
  {
    var e := Escape1(c);
    if e[0] == BACKSLASH {
      var t := (e + tail)[1..];
      assert t[1..] == e[2..] + tail;
      if |e| == 6 {
        var rest := t[1..];
        assert rest[0] == 0x30 && rest[1] == 0x30 && rest[2] == e[4] && rest[3] == e[5];
        assert HexValue(e[4]) == c as int / 16 && HexValue(e[5]) == c as int % 16;
        assert Hex4(rest) == Some(c as int);
        assert rest[4..] == tail;
      } else {
        assert t[1..] == tail;
      }
    }
  }

  lemma {:induction false} ReadEscaped(s: Bytes, rest: Bytes)
    ensures ReadBody(Escape(s) + [QUOTE] + rest) == Some((Some(s), rest))
  {
    if s == [] {
      assert Escape(s) + [QUOTE] + rest == [QUOTE] + rest;
    } else {
      hide ReadEscape, Escape1;
      var tail := Escape(s[1..]) + [QUOTE] + rest;
      var all := Escape1(s[0]) + tail;
      assert Escape(s) + [QUOTE] + rest == all;
      hide Escape;
      ReadEscaped(s[1..], rest);
      ReadEscaped1(s[0], tail);
      assert [s[0]] + s[1..] == s;
      if Escape1(s[0])[0] != BACKSLASH {
        assert all[1..] == tail;
      }
    }
  }

  lemma ReadQuoted(s: Str, rest: Bytes)
    ensures Quoted(s) != [] && Quoted(s)[0] == QUOTE
    ensures ReadString((Quoted(s) + rest)[1..]) == Some((Some(s), rest))
  {
    hide ReadBody, Escape;
    ReadEscaped(s, rest);
    assert (Quoted(s) + rest)[1..] == Escape(s) + [QUOTE] + rest;
  }

  lemma {:induction false} DecimalDigits(n: nat)
    ensures forall i :: 0 <= i < |Decimal(n)| ==> IsDigit(Decimal(n)[i])
    ensures DecimalValue(Decimal(n)) == n
    ensures Decimal(n)[0] == 0x30 ==> |Decimal(n)| == 1
  {
    if n >= 10 {
      DecimalDigits(n / 10);
      var d := Decimal(n);
      assert d[..|d| - 1] == Decimal(n / 10);
      if n / 10 < 10 {
        assert Decimal(n / 10)[0] != 0x30;
      } else {
        assert |Decimal(n / 10)| > 1;
      }
    }
  }

  lemma {:induction false} DigitsAre(s: Bytes, k: nat)
    requires k <= |s| && (forall i :: 0 <= i < k ==> IsDigit(s[i])) && (k < |s| ==> !IsDigit(s[k]))
    ensures Digits(s) == k
  {
    if k > 0 {
      DigitsAre(s[1..], k - 1);
    }
  }

  /** What may follow a number in compact output. */
  predicate Delimited(rest: Bytes) {
    rest == [] || rest[0] == COMMA || rest[0] == RBRACKET || rest[0] == RBRACE
  }

  lemma ReadDecimal(n: U64, rest: Bytes)
    requires Delimited(rest)
    ensures IsDigit(Decimal(n)[0])
    ensures ReadNumber(Decimal(n) + rest) == Some((Num(Some(n)), rest))
  {
    hide Decimal, DecimalValue, Digits;
    DecimalDigits(n);
    var s, k := Decimal(n) + rest, |Decimal(n)|;
    DigitsAre(s, k);
    assert s[..k] == Decimal(n) && s[k..] == rest;
  }

  lemma WordsAre()
    ensures Ascii("null")[0] == 0x6E && Ascii("true")[0] == 0x74 && Ascii("false")[0] == 0x66
  {
    assert "null"[0] == 'n' && "true"[0] == 't' && "false"[0] == 'f';
  }

  lemma ReadWritten(v: Value, rest: Bytes)
    requires Writable(v) && Delimited(rest)
    ensures Write(v) != [] && !IsBlank(Write(v)[0])
    ensures Write(v)[0] != RBRACKET && Write(v)[0] != RBRACE
    ensures Read(Write(v) + rest) == Some((v, rest))
    decreases v
  {
    match v {
      case Array(items) =>
        if items != [] {
          ReadWrittenItems(items, rest);
        }
        ReadArray(items, rest);
      case Object(members) =>
        if members != [] {
          ReadWrittenMembers(members, rest);
        }
        ReadObject(members, rest);
      case _ =>
        ReadScalar(v, rest);
    }
  }

  lemma ReadScalar(v: Value, rest: Bytes)
    requires Writable(v) && Delimited(rest) && !v.Array? && !v.Object?
    ensures Write(v) != [] && !IsBlank(Write(v)[0])
    ensures Write(v)[0] != RBRACKET && Write(v)[0] != RBRACE
    ensures Read(Write(v) + rest) == Some((v, rest))
  {
    hide Decimal, Quoted, ReadNumber, ReadString, ReadItems, ReadMembers, Ascii, ReadWord, ValidUtf8, Delimited;
    WordsAre();
    match v {
      case Num(n) => ReadDecimal(n.value, rest);
      case String(t) => ReadQuoted(t.value, rest);
      case Null => ReadWrittenWord(Ascii("null"), v, rest);
      case Bool(b) => ReadWrittenWord(if b then Ascii("true") else Ascii("false"), v, rest);
    }
  }

  lemma ReadWrittenWord(word: Bytes, v: Value, rest: Bytes)
    requires word != []
    ensures ReadWord(word + rest, word, v) == Some((v, rest))
  {
  }

  lemma ReadArray(items: seq<Value>, rest: Bytes)
    requires Writable(Array(items))
    requires items != [] ==>
               && WriteItems(items) != [] && !IsBlank(WriteItems(items)[0]) && WriteItems(items)[0] != RBRACKET
               && ReadItems(WriteItems(items) + rest) == Some((items, rest))
    ensures Write(Array(items))[0] == LBRACKET
    ensures Read(Write(Array(items)) + rest) == Some((Array(items), rest))
  {
    hide WriteItems, ReadItems, ReadMembers, ReadNumber, ReadString, Ascii;
    var s := Write(Array(items)) + rest;
    assert s[1..] == (if items == [] then [RBRACKET] + rest else WriteItems(items) + rest);
    assert ([RBRACKET] + rest)[1..] == rest;
  }

  lemma ReadObject(members: seq<Member>, rest: Bytes)
    requires Writable(Object(members))
    requires members != [] ==>
               && WriteMembers(members) != [] && WriteMembers(members)[0] == QUOTE
               && ReadMembers(WriteMembers(members) + rest) == Some((members, rest))
    ensures Write(Object(members))[0] == LBRACE
    ensures Read(Write(Object(members)) + rest) == Some((Object(members), rest))
  {
    hide WriteMembers, ReadItems, ReadMembers, ReadNumber, ReadString, Ascii;
    var s := Write(Object(members)) + rest;
    assert s[1..] == (if members == [] then [RBRACE] + rest else WriteMembers(members) + rest);
    assert ([RBRACE] + rest)[1..] == rest;
  }

  lemma ItemsStep(s: Bytes, v: Value, t: Bytes)
    requires Read(s) == Some((v, t)) && t != []
    ensures t[0] == RBRACKET ==> ReadItems(s) == Some(([v], t[1..]))
    ensures t[0] == COMMA && ReadItems(t[1..]).Some? ==>
              ReadItems(s) == Some(([v] + ReadItems(t[1..]).value.0, ReadItems(t[1..]).value.1))
  {
    hide Read;
  }

  lemma ReadWrittenItems(items: seq<Value>, rest: Bytes)
    requires items != [] && forall i :: 0 <= i < |items| ==> Writable(items[i])
    ensures WriteItems(items) != []
    ensures !IsBlank(WriteItems(items)[0]) && WriteItems(items)[0] != RBRACKET
    ensures ReadItems(WriteItems(items) + rest) == Some((items, rest))
    decreases items
  {
    hide Read, ReadItems, Write;
    var tail := if |items| == 1 then [RBRACKET] else [COMMA] + WriteItems(items[1..]);
    assert WriteItems(items) == Write(items[0]) + tail;
    if |items| > 1 {
      ReadWrittenItems(items[1..], rest);
    }
    hide WriteItems;
    ReadWritten(items[0], tail + rest);
    Concat3(Write(items[0]), tail, rest);
    ItemsStep(WriteItems(items) + rest, items[0], tail + rest);
    if |items| == 1 {
      assert items == [items[0]];
      assert (tail + rest)[1..] == rest;
    } else {
      assert (tail + rest)[1..] == WriteItems(items[1..]) + rest;
      assert items == [items[0]] + items[1..];
    }
  }

  lemma MembersStep(s: Bytes, m: Member, afterKey: Bytes, t: Bytes)
    requires ReadKey(s) == Some((m.key, afterKey)) && Read(afterKey) == Some((m.value, t)) && t != []
    ensures t[0] == RBRACE ==> ReadMembers(s) == Some(([m], t[1..]))
    ensures t[0] == COMMA && ReadMembers(t[1..]).Some? ==>
              ReadMembers(s) == Some(([m] + ReadMembers(t[1..]).value.0, ReadMembers(t[1..]).value.1))
  {
    hide Read, ReadKey;
  }

  lemma ReadWrittenMember(m: Member, rest: Bytes)
    requires m.key.Some? && Writable(m.value) && Delimited(rest)
    ensures WriteMember(m) != [] && WriteMember(m)[0] == QUOTE
    ensures ReadKey(WriteMember(m) + rest) == Some((m.key, Write(m.value) + rest))
    ensures Read(Write(m.value) + rest) == Some((m.value, rest))
    decreases m
  {
    hide Read, Write, ReadKey, Quoted;
    var after := Write(m.value) + rest;
    ReadQuoted(m.key.value, [COLON] + after);
    ReadWrittenKey(m.key.value, after);
    assert WriteMember(m) + rest == Quoted(m.key.value) + ([COLON] + after);
    ReadWritten(m.value, rest);
  }

  lemma ReadWrittenKey(key: Str, after: Bytes)
    ensures ReadKey(Quoted(key) + ([COLON] + after)) == Some((Some(key), after))
  {
    hide ReadString, Quoted;
    ReadQuoted(key, [COLON] + after);
    assert ([COLON] + after)[1..] == after;
  }

  lemma ReadWrittenMembers(members: seq<Member>, rest: Bytes)
    requires members != []
    requires forall i :: 0 <= i < |members| ==> members[i].key.Some? && Writable(members[i].value)
    ensures WriteMembers(members) != [] && WriteMembers(members)[0] == QUOTE
    ensures ReadMembers(WriteMembers(members) + rest) == Some((members, rest))
    decreases members
  {
    hide Read, Write, ReadKey, ReadMembers, WriteMember;
    var m := members[0];
    var tail := if |members| == 1 then [RBRACE] else [COMMA] + WriteMembers(members[1..]);
    assert WriteMembers(members) == WriteMember(m) + tail;
    if |members| > 1 {
      ReadWrittenMembers(members[1..], rest);
    }
    hide WriteMembers;
    ReadWrittenMember(m, tail + rest);
    Concat3(WriteMember(m), tail, rest);
    MembersStep(WriteMembers(members) + rest, m, Write(m.value) + (tail + rest), tail + rest);
    if |members| == 1 {
      assert members == [m];
      assert (tail + rest)[1..] == rest;
    } else {
      assert (tail + rest)[1..] == WriteMembers(members[1..]) + rest;
      assert members == [m] + members[1..];
    }
  }

  /** Reading compact output gives the value back. */
  lemma ReadAllWritten(v: Value)
    requires Writable(v)
    ensures ReadAll(Write(v)) == Some(v)
  {
    hide Read, Write;
    ReadWritten(v, []);
    assert Write(v) + [] == Write(v);
  }

  // ---- escapes another writer may use ----

  /** UTF-16 code unit `u` as an escape with lower-case digits. */
  function UnitEscape(u: int): (r: Bytes)
    requires 0 <= u < 0x1_0000
    ensures |r| == 6
  {
    [BACKSLASH, 0x75, HexDigit(u / 0x1000), HexDigit(u / 0x100 % 16), HexDigit(u / 0x10 % 16), HexDigit(u % 16)]
  }

  /** RFC 8259 section 7: one escape, or a surrogate pair above the basic plane. */
  function EscapeCharacter(c: int): (r: Bytes)
    requires 0 <= c < 0x11_0000
  {
    if c < 0x1_0000 then UnitEscape(c)
    else UnitEscape(0xD800 + (c - 0x1_0000) / 0x400) + UnitEscape(0xDC00 + (c - 0x1_0000) % 0x400)
  }

  predicate IsScalar(c: int) {
    0 <= c < 0xD800 || 0xE000 <= c < 0x11_0000
  }

  lemma UnitBack(u: int, tail: Bytes)
    requires 0 <= u < 0x1_0000
    ensures Hex4(UnitEscape(u)[2..] + tail) == Some(u)
  {
    var s := UnitEscape(u)[2..] + tail;
    DigitValue(u / 0x1000);
    DigitValue(u / 0x100 % 16);
    DigitValue(u / 0x10 % 16);
    DigitValue(u % 16);
    hide HexDigit, HexValue;
    assert s[0] == HexDigit(u / 0x1000) && s[1] == HexDigit(u / 0x100 % 16) && s[2] == HexDigit(u / 0x10 % 16) && s[3] == HexDigit(u % 16);
    hide Hex4;
    NibblesBack(u);
    Hex4Value(s, u / 0x1000, u / 0x100 % 16, u / 0x10 % 16, u % 16);
  }

  lemma NibblesBack(u: nat)
    ensures ((u / 0x1000 * 16 + u / 0x100 % 16) * 16 + u / 0x10 % 16) * 16 + u % 16 == u
  {
    var a, b := u / 0x10, u / 0x100;
    assert b == a / 16 && u / 0x1000 == b / 16;
    assert b / 16 * 16 + b % 16 == b && b * 16 + a % 16 == a;
  }

  lemma Hex4Value(s: Bytes, a: nat, b: nat, c: nat, d: nat)
    requires |s| >= 4 && HexValue(s[0]) == a && HexValue(s[1]) == b && HexValue(s[2]) == c && HexValue(s[3]) == d
    ensures Hex4(s) == Some(((a * 16 + b) * 16 + c) * 16 + d)
  {
    hide HexValue;
  }

  /** Utf8Of is the UTF-8 form of every scalar value, and not UTF-8 for a surrogate. */
  lemma Utf8OfIsUtf8(c: int)
    requires 0 <= c < 0x11_0000
    ensures ValidUtf8(Utf8Of(c)) <==> IsScalar(c)
  {
    OwnLength(c);
    var u := Utf8Of(c);
    assert u[|u|..] == [] && u != [];
    hide CharLen, Utf8Of;
  }

  /** And it is the form of that very character: its bits are those of the code point (section 3 of RFC 3629). */
  lemma Utf8OfDecodes(c: int)
    requires 0 <= c < 0x11_0000
    ensures var u := Utf8Of(c);
            && |u| == (if c < 0x80 then 1 else if c < 0x800 then 2 else if c < 0x1_0000 then 3 else 4)
            && (forall i :: 1 <= i < |u| ==> 0x80 <= u[i] < 0xC0)
            && (|u| == 1 ==> u[0] as int == c)
            && (|u| == 2 ==> (u[0] as int - 0xC0) * 0x40 + (u[1] as int - 0x80) == c)
            && (|u| == 3 ==> ((u[0] as int - 0xE0) * 0x40 + (u[1] as int - 0x80)) * 0x40 + (u[2] as int - 0x80) == c)
            && (|u| == 4 ==>
                  (((u[0] as int - 0xF0) * 0x40 + (u[1] as int - 0x80)) * 0x40 + (u[2] as int - 0x80)) * 0x40 + (u[3] as int - 0x80) == c)
  {
    var a, b := c / 0x40, c / 0x1000;
    assert b == a / 0x40 && c / 0x4_0000 == b / 0x40;
    assert a * 0x40 + c % 0x40 == c && b * 0x40 + a % 0x40 == a && b / 0x40 * 0x40 + b % 0x40 == b;
  }

  predicate Scalars(cs: seq<int>) {
    forall i :: 0 <= i < |cs| ==> IsScalar(cs[i])
  }

  /** The UTF-8 form of a sequence of characters. */
  function Utf8Text(cs: seq<int>): (r: Bytes)
    requires Scalars(cs)
  {
    if cs == [] then [] else Utf8Of(cs[0]) + Utf8Text(cs[1..])
  }

  lemma OwnLength(c: int)
    requires 0 <= c < 0x11_0000
    ensures CharLen(Utf8Of(c)) == if IsScalar(c) then |Utf8Of(c)| else 0
  {
    if 0x800 <= c < 0x1_0000 {
      assert c / 0x40 % 0x40 >= 0x20 || c / 0x1000 >= 1;
    }
  }

  lemma CharExtends(u: Bytes, rest: Bytes)
    requires 0 < CharLen(u) == |u|
    ensures CharLen(u + rest) == |u|
  {
    assert forall i :: 0 <= i < |u| ==> (u + rest)[i] == u[i];
  }

  lemma CharRead(c: int, rest: Bytes)
    requires IsScalar(c)
    ensures CharLen(Utf8Of(c) + rest) == |Utf8Of(c)| > 0
  {
    OwnLength(c);
    Utf8OfDecodes(c);
    hide Utf8Of, CharLen;
    CharExtends(Utf8Of(c), rest);
  }

  lemma TwoByteChar(s: Bytes) returns (c: int)
    requires |s| == 2 && CharLen(s) == 2
    ensures IsScalar(c) && Utf8Of(c) == s
  {
    var a, b := s[0] as int - 0xC0, s[1] as int - 0x80;
    c := a * 0x40 + b;
    assert c / 0x40 == a && c % 0x40 == b;
  }

  lemma ThreeByteChar(s: Bytes) returns (c: int)
    requires |s| == 3 && CharLen(s) == 3
    ensures IsScalar(c) && Utf8Of(c) == s
  {
    var a, b, d := s[0] as int - 0xE0, s[1] as int - 0x80, s[2] as int - 0x80;
    var q := a * 0x40 + b;
    c := q * 0x40 + d;
    assert c / 0x40 == q && c % 0x40 == d && q / 0x40 == a && q % 0x40 == b;
    assert c / 0x1000 == a;
  }

  lemma FourByteChar(s: Bytes) returns (c: int)
    requires |s| == 4 && CharLen(s) == 4
    ensures IsScalar(c) && Utf8Of(c) == s
  {
    var a, b, d, e := s[0] as int - 0xF0, s[1] as int - 0x80, s[2] as int - 0x80, s[3] as int - 0x80;
    var p := a * 0x40 + b;
    var q := p * 0x40 + d;
    c := q * 0x40 + e;
    assert c / 0x40 == q && c % 0x40 == e && q / 0x40 == p && q % 0x40 == d && p / 0x40 == a && p % 0x40 == b;
    assert c / 0x1000 == p && c / 0x4_0000 == a;
  }

  lemma FirstChar(s: Bytes)
    requires CharLen(s) > 0
    ensures CharLen(s) <= 4 && CharLen(s[..CharLen(s)]) == CharLen(s)
  {
  }

  /** The character at the start of a text. */
  lemma CharFound(s: Bytes) returns (c: int)
    requires CharLen(s) > 0
    ensures IsScalar(c) && Utf8Of(c) == s[..CharLen(s)]
  {
    var n := CharLen(s);
    FirstChar(s);
    if n == 1 {
      c := s[0] as int;
    } else {
      hide CharLen, Utf8Of;
      if n == 2 {
        c := TwoByteChar(s[..n]);
      } else if n == 3 {
        c := ThreeByteChar(s[..n]);
      } else {
        c := FourByteChar(s[..n]);
      }
    }
  }

  lemma {:induction false} TextIsUtf8(cs: seq<int>)
    requires Scalars(cs)
    ensures ValidUtf8(Utf8Text(cs))
  {
    hide Utf8Of, CharLen;
    if cs == [] {
    } else {
      TextIsUtf8(cs[1..]);
      CharRead(cs[0], Utf8Text(cs[1..]));
      var s := Utf8Text(cs);
      assert s[|Utf8Of(cs[0])|..] == Utf8Text(cs[1..]);
    }
  }

  lemma {:induction false} TextFound(s: Bytes) returns (cs: seq<int>)
    requires ValidUtf8(s)
    ensures Scalars(cs) && Utf8Text(cs) == s
    decreases |s|
  {
    hide Utf8Of, CharLen;
    if s == [] {
      cs := [];
    } else {
      var c := CharFound(s);
      var rest := TextFound(s[CharLen(s)..]);
      cs := [c] + rest;
      assert cs[1..] == rest && s == s[..CharLen(s)] + s[CharLen(s)..];
    }
  }

  /** A byte sequence counts as text exactly when it is the UTF-8 form of some sequence of characters. */
  lemma Utf8Exactly(s: Bytes)
    ensures ValidUtf8(s) <==> exists cs :: Scalars(cs) && s == Utf8Text(cs)
  {
    hide ValidUtf8, Utf8Text;
    if ValidUtf8(s) {
      var cs := TextFound(s);
    }
    if cs :| Scalars(cs) && s == Utf8Text(cs) {
      TextIsUtf8(cs);
    }
  }

  lemma ReadUnit(s: Bytes, u: int)
    requires s != [] && s[0] == 0x75 && Hex4(s[1..]) == Some(u) && IsScalar(u)
    ensures ReadEscape(s) == Some((Some(Utf8Of(u)), s[1..][4..]))
  {
    hide Hex4, Utf8Of;
  }

  lemma ReadPair(s: Bytes, hi: int, lo: int)
    requires s != [] && s[0] == 0x75 && Hex4(s[1..]) == Some(hi) && 0xD800 <= hi <= 0xDBFF
    requires var after := s[1..][4..];
             |after| >= 2 && after[0] == BACKSLASH && after[1] == 0x75 && Hex4(after[2..]) == Some(lo) && 0xDC00 <= lo <= 0xDFFF
    ensures |s[1..][4..]| >= 6
    ensures ReadEscape(s) == Some((Some(Utf8Of(0x1_0000 + (hi - 0xD800) * 0x400 + (lo - 0xDC00))), s[1..][4..][6..]))
  {
    hide Utf8Of;
  }

  lemma EscapedUnitRead(u: int, tail: Bytes)
    requires 0 <= u < 0x1_0000 && IsScalar(u)
    ensures ReadEscape((UnitEscape(u) + tail)[1..]) == Some((Some(Utf8Of(u)), tail))
  {
    hide ReadEscape, Hex4, Utf8Of, HexDigit;
    var t := (UnitEscape(u) + tail)[1..];
    UnitBack(u, tail);
    assert t[1..] == UnitEscape(u)[2..] + tail;
    ReadUnit(t, u);
    assert t[1..][4..] == tail;
  }

  lemma EscapedPairRead(hi: int, lo: int, tail: Bytes)
    requires 0xD800 <= hi <= 0xDBFF && 0xDC00 <= lo <= 0xDFFF
    ensures ReadEscape((UnitEscape(hi) + UnitEscape(lo) + tail)[1..])
         == Some((Some(Utf8Of(0x1_0000 + (hi - 0xD800) * 0x400 + (lo - 0xDC00))), tail))
  {
    hide ReadEscape, Hex4, Utf8Of, HexDigit;
    var t := (UnitEscape(hi) + UnitEscape(lo) + tail)[1..];
    var second := UnitEscape(lo) + tail;
    UnitBack(hi, second);
    UnitBack(lo, tail);
    assert t[1..] == UnitEscape(hi)[2..] + second;
    assert t[1..][4..] == second;
    assert second[2..] == UnitEscape(lo)[2..] + tail;
    hide UnitEscape;
    ReadPair(t, hi, lo);
    assert second[6..] == tail;
  }

  /** An escaped character is read as the character itself, also when it takes a surrogate pair. */
  lemma EscapedCharacterRead(c: int, tail: Bytes)
    requires IsScalar(c)
    ensures ReadEscape((EscapeCharacter(c) + tail)[1..]) == Some((Some(Utf8Of(c)), tail))
  {
    hide ReadEscape, Utf8Of, UnitEscape;
    if c < 0x1_0000 {
      EscapedUnitRead(c, tail);
    } else {
      var hi, lo := 0xD800 + (c - 0x1_0000) / 0x400, 0xDC00 + (c - 0x1_0000) % 0x400;
      EscapedPairRead(hi, lo, tail);
      assert 0x1_0000 + (hi - 0xD800) * 0x400 + (lo - 0xDC00) == c;
    }
  }

  /** The white space of `trim` by code point: the characters with the Unicode property White_Space. */
  lemma SpacesAre(c: int)
    requires IsScalar(c)
    ensures IsSpace(Utf8Of(c)) <==>
              || 0x09 <= c <= 0x0D || c == 0x20 || c == 0x85 || c == 0xA0 || c == 0x1680 || 0x2000 <= c <= 0x200A
              || c == 0x2028 || c == 0x2029 || c == 0x202F || c == 0x205F || c == 0x3000
  {
  }

  // ---- the bytes the writer produces ----

  lemma {:induction false} EscapeAppend(a: Bytes, b: Bytes)
    ensures Escape(a + b) == Escape(a) + Escape(b)
  {
    hide Escape1;
    if a == [] {
      assert a + b == b;
    } else {
      EscapeAppend(a[1..], b);
      assert (a + b)[1..] == a[1..] + b;
      Concat3(Escape1(a[0]), Escape(a[1..]), Escape(b));
    }
  }

  /** One character is written with the short escapes where there are any, "\\u00" and two
      lower-case digits for the other control characters, and everything else as it is. */
  lemma EscapedAs(c: Byte)
    ensures c == 0x22 ==> Escape([c]) == Ascii("\\\"")
    ensures c == 0x5C ==> Escape([c]) == Ascii("\\\\")
    ensures c == 0x08 ==> Escape([c]) == Ascii("\\b")
    ensures c == 0x09 ==> Escape([c]) == Ascii("\\t")
    ensures c == 0x0A ==> Escape([c]) == Ascii("\\n")
    ensures c == 0x0C ==> Escape([c]) == Ascii("\\f")
    ensures c == 0x0D ==> Escape([c]) == Ascii("\\r")
    ensures c < 0x20 && c !in {0x08, 0x09, 0x0A, 0x0C, 0x0D} ==>
              Escape([c]) == Ascii("\\u00") + [Ascii("0123456789abcdef")[c as int / 16], Ascii("0123456789abcdef")[c as int % 16]]
    ensures c >= 0x20 && c != 0x22 && c != 0x5C ==> Escape([c]) == [c]
  {
    hide Ascii;
    assert Escape([c][1..]) == [] && Escape([c]) == Escape1(c) + [] == Escape1(c);
    ShortEscapes();
    if c < 0x20 {
      LowerDigit(c as int / 16);
      LowerDigit(c as int % 16);
    }
  }

  lemma ShortEscapes()
    ensures Ascii("\\\"") == [0x5C, 0x22] && Ascii("\\\\") == [0x5C, 0x5C]
    ensures Ascii("\\b") == [0x5C, 0x62] && Ascii("\\t") == [0x5C, 0x74] && Ascii("\\n") == [0x5C, 0x6E]
    ensures Ascii("\\f") == [0x5C, 0x66] && Ascii("\\r") == [0x5C, 0x72] && Ascii("\\u00") == [0x5C, 0x75, 0x30, 0x30]
  {
  }

  /** Between quotes, and each part of a text by itself. */
  lemma QuotedAs(a: Bytes, b: Bytes)
    ensures Quoted(a + b) == Ascii("\"") + Escape(a) + Escape(b) + Ascii("\"")
  {
    assert Ascii("\"") == [0x22];
    EscapeAppend(a, b);
    hide Escape, Ascii;
  }

  lemma {:induction false} DigitsDecide(s: Bytes)
    requires s != [] && (forall i :: 0 <= i < |s| ==> IsDigit(s[i])) && (|s| > 1 ==> s[0] != 0x30)
    ensures Decimal(DecimalValue(s)) == s
  {
    var n := |s| - 1;
    assert IsDigit(s[n]);
    if n == 0 {
      assert DecimalValue([]) == 0 && s[..0] == [];
    } else {
      DigitsDecide(s[..n]);
      assert Decimal(0) == [0x30] && s[..n][0] == s[0];
      assert DecimalValue(s[..n]) > 0;
      assert s == s[..n] + [s[n]];
    }
  }

  /** A number is written as its only decimal text without leading zeros. */
  lemma DecimalExactly(n: nat, s: Bytes)
    ensures s == Decimal(n) <==>
              && s != [] && (forall i :: 0 <= i < |s| ==> IsDigit(s[i])) && (|s| > 1 ==> s[0] != 0x30)
              && DecimalValue(s) == n
  {
    hide Decimal, DecimalValue;
    DecimalDigits(n);
    if s != [] && (forall i :: 0 <= i < |s| ==> IsDigit(s[i])) && (|s| > 1 ==> s[0] != 0x30) {
      DigitsDecide(s);
    }
  }

  /** Texts between quotes, with commas between them. */
  function QuotedList(texts: seq<Str>): (r: Bytes) {
    if texts == [] then []
    else if |texts| == 1 then Quoted(texts[0])
    else Quoted(texts[0]) + Ascii(",") + QuotedList(texts[1..])
  }

  lemma {:induction false} ItemsAs(texts: seq<Str>, items: seq<Value>)
    requires texts != [] && |items| == |texts| && forall i :: 0 <= i < |texts| ==> items[i] == String(Some(texts[i]))
    ensures WriteItems(items) == QuotedList(texts) + [RBRACKET]
  {
    hide Quoted;
    assert Ascii(",") == [COMMA];
    if |texts| > 1 {
      ItemsAs(texts[1..], items[1..]);
    }
  }

  lemma ListAs(texts: seq<Str>, items: seq<Value>)
    requires |items| == |texts| && forall i :: 0 <= i < |texts| ==> items[i] == String(Some(texts[i]))
    ensures Write(Array(items)) == Ascii("[") + QuotedList(texts) + Ascii("]")
  {
    assert Ascii("[") == [LBRACKET] && Ascii("]") == [RBRACKET];
    hide WriteItems, QuotedList;
    if texts != [] {
      ItemsAs(texts, items);
    } else {
      assert QuotedList(texts) == [] by {
        NoTexts();
      }
    }
  }

  lemma NoTexts()
    ensures QuotedList([]) == []
  {
  }

  predicate Plain(s: string) {
    forall i :: 0 <= i < |s| ==> ' ' <= s[i] < 128 as char && s[i] != '"' && s[i] != '\\'
  }

  lemma {:induction false} PlainEscaped(t: Bytes)
    requires forall i :: 0 <= i < |t| ==> t[i] >= 0x20 && t[i] != QUOTE && t[i] != BACKSLASH
    ensures Escape(t) == t
  {
    if t == [] {
    } else {
      PlainEscaped(t[1..]);
      assert t == [t[0]] + t[1..];
    }
  }

  lemma AsciiAppend(a: string, b: string)
    requires forall i :: 0 <= i < |a + b| ==> (a + b)[i] < 128 as char
    ensures Ascii(a + b) == Ascii(a) + Ascii(b)
  {
    hide Ascii;
    assert forall i :: 0 <= i < |a| ==> (a + b)[i] == a[i];
    assert forall i :: 0 <= i < |b| ==> (a + b)[|a| + i] == b[i];
    forall i | 0 <= i < |a + b| ensures Ascii(a + b)[i] == (Ascii(a) + Ascii(b))[i] {
      assert Ascii(a + b)[i] as int == (a + b)[i] as int;
    }
  }

  /** A member with a plain name is written as the name between quotes, a colon, and its value. */
  lemma MemberAs(before: string, name: string, v: Value)
    requires Plain(name) && Writable(v)
    requires forall i :: 0 <= i < |before| ==> before[i] < 128 as char
    ensures Ascii(before) + WriteMember(Member(Some(Ascii(name)), v)) == Ascii(before + "\"" + name + "\":") + Write(v)
  {
    PlainEscaped(Ascii(name));
    hide Write, Escape;
    AsciiAppend(before, "\"");
    AsciiAppend(before + "\"", name);
    AsciiAppend(before + "\"" + name, "\":");
    assert Ascii("\"") == [QUOTE] && Ascii("\":") == [QUOTE, COLON];
    hide Ascii;
    PiecesJoin(Ascii(before), Ascii(name), Write(v));
  }

  lemma PiecesJoin(before: Bytes, name: Bytes, value: Bytes)
    ensures before + (([QUOTE] + (name + [QUOTE])) + ([COLON] + value)) == before + [QUOTE] + name + [QUOTE, COLON] + value
  {
  }
}
