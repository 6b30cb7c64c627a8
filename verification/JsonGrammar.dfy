/** The grammar of RFC 8259, written without reference to the reader, and the proof that the reader of `Json` accepts
    exactly the texts of that grammar, with the values they spell. */
module JsonGrammar {
  import opened Basics
  import opened Text
  import opened Hex
  import opened Json

  // ---- blanks and numbers (sections 2 and 6) ----

  predicate Blank(w: Bytes) {
    forall i :: 0 <= i < |w| ==> w[i] == 0x20 || w[i] == 0x09 || w[i] == 0x0A || w[i] == 0x0D
  }

  predicate SomeDigits(s: Bytes) {
    s != [] && forall i :: 0 <= i < |s| ==> IsDigit(s[i])
  }

  predicate Whole(s: Bytes) {
    SomeDigits(s) && (|s| > 1 ==> s[0] != 0x30)
  }

  predicate Fraction(s: Bytes) {
    s == [] || (s[0] == 0x2E && SomeDigits(s[1..]))
  }

  predicate Exponent(s: Bytes) {
    s == [] || ((s[0] == 0x65 || s[0] == 0x45)
                && (SomeDigits(s[1..]) || (|s| > 1 && (s[1] == 0x2B || s[1] == 0x2D) && SomeDigits(s[2..]))))
  }

  /** An optional minus, a whole part, an optional fraction and an optional exponent. */
  ghost predicate NumberParts(t: Bytes, minus: Bytes, whole: Bytes, fraction: Bytes, exponent: Bytes) {
    && t == minus + whole + fraction + exponent
    && (minus == [] || minus == [0x2D]) && Whole(whole) && Fraction(fraction) && Exponent(exponent)
  }

  /** The number is an unsigned 64-bit integer exactly when it is a whole part alone that is small enough. */
  ghost predicate SpellsNumber(n: Option<U64>, t: Bytes) {
    exists minus, whole, fraction, exponent ::
      && NumberParts(t, minus, whole, fraction, exponent)
      && n == NumberValue(minus, whole, fraction, exponent)
  }

  function NumberValue(minus: Bytes, whole: Bytes, fraction: Bytes, exponent: Bytes): (n: Option<U64>)
    requires Whole(whole)
  {
    if minus == [] && fraction == [] && exponent == [] && DecimalValue(whole) <= U64_MAX then Some(DecimalValue(whole)) else None
  }

  /** What may follow a value: nothing, a blank, a comma or a closing bracket. */
  predicate Ends(rest: Bytes) {
    rest == [] || IsBlank(rest[0]) || rest[0] == COMMA || rest[0] == RBRACKET || rest[0] == RBRACE
  }

  lemma DigitsThen(s: Bytes, rest: Bytes)
    requires SomeDigits(s) && (rest != [] ==> !IsDigit(rest[0]))
    ensures Digits(s + rest) == |s| && (s + rest)[..|s|] == s && (s + rest)[|s|..] == rest
  {
    DigitsAre(s + rest, |s|);
  }

  lemma ExponentRead(e: Bytes, rest: Bytes)
    requires Exponent(e) && Ends(rest)
    ensures ReadExponent(e + rest) == Some(rest)
    ensures e + rest != [] ==> !IsDigit((e + rest)[0]) && (e + rest)[0] != 0x2E
  {
    if e == [] {
      assert e + rest == rest;
    } else if SomeDigits(e[1..]) {
      DigitsThen(e[1..], rest);
      assert IsDigit(e[1..][0]);
      assert (e + rest)[1..] == e[1..] + rest;
    } else {
      DigitsThen(e[2..], rest);
      assert (e + rest)[2..] == e[2..] + rest;
    }
  }

  lemma FractionRead(f: Bytes, e: Bytes, rest: Bytes)
    requires Fraction(f) && Exponent(e) && Ends(rest)
    ensures ReadFraction(f + (e + rest)) == Some(rest)
    ensures f + (e + rest) != [] ==> !IsDigit((f + (e + rest))[0])
  {
    hide ReadExponent, Exponent;
    ExponentRead(e, rest);
    if f == [] {
      assert f + (e + rest) == e + rest;
    } else {
      DigitsThen(f[1..], e + rest);
      assert (f + (e + rest))[1..] == f[1..] + (e + rest);
    }
  }

  function AfterMinus(s: Bytes): (u: Bytes) {
    if s != [] && s[0] == 0x2D then s[1..] else s
  }

  lemma NumberSteps(s: Bytes, rest: Bytes)
    ensures var u := AfterMinus(s);
            var k := Digits(u);
            ReadNumber(s).Some? <==> k > 0 && !(u[0] == 0x30 && k > 1) && ReadFraction(u[k..]).Some?
    ensures ReadNumber(s).Some? ==>
              var u, r := AfterMinus(s), ReadNumber(s).value;
              var k := Digits(u);
              && ReadFraction(u[k..]) == Some(r.1)
              && r.0 == Num(if u == s && |r.1| == |u| - k && DecimalValue(u[..k]) <= U64_MAX then Some(DecimalValue(u[..k])) else None)
  {
    hide Digits, ReadFraction, DecimalValue;
  }

  lemma NumberRead(t: Bytes, minus: Bytes, whole: Bytes, fraction: Bytes, exponent: Bytes, rest: Bytes)
    requires NumberParts(t, minus, whole, fraction, exponent) && Ends(rest)
    ensures ReadNumber(t + rest) == Some((Num(NumberValue(minus, whole, fraction, exponent)), rest))
    ensures t != [] && (t[0] == 0x2D || IsDigit(t[0]))
  {
    hide ReadNumber, ReadFraction, Digits, DecimalValue, Fraction, Exponent, Ends;
    var tail := fraction + (exponent + rest);
    FractionRead(fraction, exponent, rest);
    DigitsThen(whole, tail);
    var u := whole + tail;
    assert IsDigit(whole[0]) && u[0] == whole[0];
    assert t + rest == minus + u;
    MinusRead(minus, u);
    NumberSteps(t + rest, rest);
    assert |rest| == |tail| <==> fraction == [] && exponent == [];
  }

  lemma MinusRead(minus: Bytes, u: Bytes)
    requires u != [] && IsDigit(u[0]) && (minus == [] || minus == [0x2D])
    ensures AfterMinus(minus + u) == u && (u == minus + u <==> minus == [])
  {
    assert minus == [] ==> minus + u == u;
    assert minus == [0x2D] ==> (minus + u)[1..] == u;
  }

  // ---- whatever the number reader accepts is a number ----

  lemma DigitsTaken(t: Bytes, k: nat)
    requires k == Digits(t) && k > 0
    ensures SomeDigits(t[..k])
  {
    hide Digits;
  }

  lemma ExponentFound(s: Bytes) returns (e: Bytes)
    requires ReadExponent(s).Some?
    ensures Exponent(e) && s == e + ReadExponent(s).value
  {
    hide Digits, SomeDigits;
    if s != [] && (s[0] == 0x65 || s[0] == 0x45) {
      var n := if |s| > 1 && (s[1] == 0x2B || s[1] == 0x2D) then 2 else 1;
      var t := s[n..];
      var k := Digits(t);
      DigitsTaken(t, k);
      e := s[..n + k];
      assert e[n..] == t[..k];
      assert s == e + t[k..];
    } else {
      e := [];
    }
  }

  lemma FractionFound(s: Bytes) returns (f: Bytes, e: Bytes)
    requires ReadFraction(s).Some?
    ensures Fraction(f) && Exponent(e) && s == f + e + ReadFraction(s).value
  {
    hide ReadExponent, Exponent;
    if s != [] && s[0] == 0x2E {
      var t := s[1..];
      var k := Digits(t);
      e := ExponentFound(t[k..]);
      f := s[..k + 1];
      assert f[1..] == t[..k];
      assert s == f + t[k..];
    } else {
      f := [];
      e := ExponentFound(s);
      assert f + e == e;
    }
  }

  lemma MinusFound(s: Bytes) returns (minus: Bytes)
    ensures s == minus + AfterMinus(s) && (minus == [] || minus == [0x2D]) && (AfterMinus(s) == s <==> minus == [])
  {
    minus := if s != [] && s[0] == 0x2D then [0x2D] else [];
  }

  lemma WholeFound(u: Bytes)
    requires Digits(u) > 0 && !(u[0] == 0x30 && Digits(u) > 1)
    ensures Whole(u[..Digits(u)])
  {
    hide Digits;
    assert u[..Digits(u)][0] == u[0];
  }

  lemma FiveParts(a: Bytes, b: Bytes, c: Bytes, d: Bytes, e: Bytes)
    ensures a + (b + (c + d + e)) == (a + b + c + d) + e
  {
  }

  lemma NumberFound(s: Bytes) returns (t: Bytes)
    requires ReadNumber(s).Some?
    ensures var (v, rest) := ReadNumber(s).value; v.Num? && SpellsNumber(v.n, t) && s == t + rest
  {
    hide ReadNumber, ReadFraction, Fraction, Exponent, DecimalValue, SpellsNumber, Digits, AfterMinus, Whole;
    var u := AfterMinus(s);
    var minus := MinusFound(s);
    var k, rest := Digits(u), ReadNumber(s).value.1;
    NumberSteps(s, rest);
    WholeFound(u);
    var f, e := FractionFound(u[k..]);
    t := minus + u[..k] + f + e;
    FiveParts(minus, u[..k], f, e, rest);
    assert u == u[..k] + u[k..];
    assert |rest| == |u| - k <==> f == [] && e == [];
    SpelledByParts(t, minus, u[..k], f, e);
  }

  lemma SpelledByParts(t: Bytes, minus: Bytes, whole: Bytes, fraction: Bytes, exponent: Bytes)
    requires NumberParts(t, minus, whole, fraction, exponent)
    ensures SpellsNumber(NumberValue(minus, whole, fraction, exponent), t)
  {
    hide Fraction, Exponent, Whole, DecimalValue;
  }

  // ---- strings (section 7) ----

  /** A character as it is, a one-letter escape, or "\\u" and four hex digits. */
  datatype Piece = Raw(c: Byte) | Short(letter: Byte) | Unit(hex: Bytes)

  function ShortValue(letter: Byte): (r: Option<Byte>) {
    if letter == 0x22 || letter == 0x5C || letter == 0x2F then Some(letter)
    else if letter == 0x62 then Some(0x08)
    else if letter == 0x66 then Some(0x0C)
    else if letter == 0x6E then Some(0x0A)
    else if letter == 0x72 then Some(0x0D)
    else if letter == 0x74 then Some(0x09)
    else None
  }

  predicate PieceOk(p: Piece) {
    match p
    case Raw(c) => c >= 0x20 && c != 0x22 && c != 0x5C
    case Short(letter) => ShortValue(letter).Some?
    case Unit(hex) => |hex| == 4 && IsHex(hex)
  }

  function PieceText(p: Piece): (r: Bytes) {
    match p
    case Raw(c) => [c]
    case Short(letter) => [0x5C, letter]
    case Unit(hex) => [0x5C, 0x75] + hex
  }

  predicate PiecesOk(ps: seq<Piece>) {
    forall i :: 0 <= i < |ps| ==> PieceOk(ps[i])
  }

  function BodyText(ps: seq<Piece>): (r: Bytes) {
    if ps == [] then [] else PieceText(ps[0]) + BodyText(ps[1..])
  }

  function UnitValue(hex: Bytes): (u: int)
    requires |hex| == 4 && IsHex(hex)
    ensures 0 <= u < 0x1_0000
  {
    ((HexValue(hex[0]) * 16 + HexValue(hex[1])) * 16 + HexValue(hex[2])) * 16 + HexValue(hex[3])
  }

  predicate IsHigh(u: int) {
    0xD800 <= u <= 0xDBFF
  }

  predicate IsLow(u: int) {
    0xDC00 <= u <= 0xDFFF
  }

  /** The character a surrogate pair stands for. */
  function PairValue(hi: int, lo: int): (c: int)
    requires IsHigh(hi) && IsLow(lo)
    ensures 0x1_0000 <= c < 0x11_0000
  {
    0x1_0000 + (hi - 0xD800) * 0x400 + (lo - 0xDC00)
  }

  predicate StartsLow(ps: seq<Piece>)
    requires PiecesOk(ps)
  {
    ps != [] && ps[0].Unit? && IsLow(UnitValue(ps[0].hex))
  }

  function Before(text: Bytes, more: Option<Bytes>): (r: Option<Bytes>) {
    if more.None? then None else Some(text + more.value)
  }

  /** The text the pieces stand for; a surrogate that is not half of a pair stands for nothing. */
  function Sense(ps: seq<Piece>): (r: Option<Bytes>)
    requires PiecesOk(ps)
  {
    if ps == [] then Some([])
    else
      match ps[0]
      case Raw(c) => Before([c], Sense(ps[1..]))
      case Short(letter) => Before([ShortValue(letter).value], Sense(ps[1..]))
      case Unit(hex) =>
        var u := UnitValue(hex);
        if IsHigh(u) then
          if StartsLow(ps[1..]) then Before(Utf8Of(PairValue(u, UnitValue(ps[1].hex))), Sense(ps[2..]))
          else None
        else if IsLow(u) then None
        else Before(Utf8Of(u), Sense(ps[1..]))
  }

  /** A text is spelled by pieces that make UTF-8 together; other strings have no text. */
  ghost predicate SpellsString(s: Option<Str>, t: Bytes) {
    exists ps :: PiecesOk(ps) && t == [0x22] + BodyText(ps) + [0x22] && s == Spoken(ps)
  }

  function Spoken(ps: seq<Piece>): (s: Option<Str>)
    requires PiecesOk(ps)
  {
    if Sense(ps).Some? && ValidUtf8(Sense(ps).value) then Some(Sense(ps).value) else None
  }

  lemma UnitHex4(hex: Bytes, rest: Bytes)
    requires |hex| == 4 && IsHex(hex)
    ensures Hex4(hex + rest) == Some(UnitValue(hex)) && (hex + rest)[4..] == rest
  {
    hide HexValue;
    assert forall i :: 0 <= i < 4 ==> (hex + rest)[i] == hex[i] && HexValue(hex[i]) >= 0;
  }

  predicate LowAhead(after: Bytes) {
    |after| >= 2 && after[0] == BACKSLASH && after[1] == 0x75 && Hex4(after[2..]).Some? && IsLow(Hex4(after[2..]).value)
  }

  lemma AheadIs(hex: Bytes, tail: Bytes)
    requires |hex| == 4 && IsHex(hex)
    ensures LowAhead([BACKSLASH, 0x75] + hex + tail) <==> IsLow(UnitValue(hex))
  {
    UnitHex4(hex, tail);
    hide Hex4, UnitValue;
    var after := [BACKSLASH, 0x75] + hex + tail;
    assert after[2..] == hex + tail;
  }

  /** A unit is followed by the low half of a pair exactly when the next piece is one. */
  lemma LowAheadExactly(ps: seq<Piece>, rest: Bytes)
    requires PiecesOk(ps)
    ensures LowAhead(BodyText(ps) + [QUOTE] + rest) <==> StartsLow(ps)
  {
    hide Hex4, UnitValue, IsHex;
    if ps == [] {
      assert (BodyText([]) + [QUOTE] + rest)[0] == QUOTE;
    } else {
      var tail := BodyText(ps[1..]) + [QUOTE] + rest;
      BodySplits(ps, rest);
      hide BodyText;
      if ps[0].Unit? {
        AheadIs(ps[0].hex, tail);
      } else {
        var after := PieceText(ps[0]) + tail;
        assert after[0] == PieceText(ps[0])[0] && (ps[0].Short? ==> after[1] == ps[0].letter);
      }
    }
  }

  /** The steps of the string reader. */
  lemma RawStep(c: Byte, s: Bytes)
    requires c >= 0x20 && c != QUOTE && c != BACKSLASH
    ensures ReadBody([c] + s) == Join(Some([c]), ReadBody(s))
  {
    assert ([c] + s)[1..] == s;
  }

  lemma ShortStep(letter: Byte, s: Bytes)
    requires ShortValue(letter).Some?
    ensures ReadBody([BACKSLASH, letter] + s) == Join(Some([ShortValue(letter).value]), ReadBody(s))
  {
    hide Hex4;
    var t := [BACKSLASH, letter] + s;
    assert t[1..][1..] == s && t[1..][0] == letter;
  }

  lemma UnitStep(hex: Bytes, s: Bytes)
    requires |hex| == 4 && IsHex(hex) && (IsHigh(UnitValue(hex)) ==> !LowAhead(s))
    ensures ReadBody([BACKSLASH, 0x75] + hex + s)
         == Join(if IsHigh(UnitValue(hex)) || IsLow(UnitValue(hex)) then None else Some(Utf8Of(UnitValue(hex))), ReadBody(s))
  {
    var t := [BACKSLASH, 0x75] + hex + s;
    UnitHex4(hex, s);
    assert t[1..][0] == 0x75 && t[1..][1..] == hex + s;
    hide Hex4, Utf8Of, UnitValue;
    assert ReadEscape(t[1..]) == Some((if IsHigh(UnitValue(hex)) || IsLow(UnitValue(hex)) then None else Some(Utf8Of(UnitValue(hex))), s));
    hide ReadEscape;
  }

  lemma PairStep(hi: Bytes, lo: Bytes, s: Bytes)
    requires |hi| == 4 && IsHex(hi) && |lo| == 4 && IsHex(lo) && IsHigh(UnitValue(hi)) && IsLow(UnitValue(lo))
    ensures ReadBody([BACKSLASH, 0x75] + hi + ([BACKSLASH, 0x75] + lo + s))
         == Join(Some(Utf8Of(PairValue(UnitValue(hi), UnitValue(lo)))), ReadBody(s))
  {
    var second := [BACKSLASH, 0x75] + lo + s;
    var t := [BACKSLASH, 0x75] + hi + second;
    UnitHex4(hi, second);
    UnitHex4(lo, s);
    assert t[1..][0] == 0x75 && t[1..][1..] == hi + second;
    assert second[2..] == lo + s && second[6..] == s;
    hide Hex4, Utf8Of, UnitValue;
    assert ReadEscape(t[1..]) == Some((Some(Utf8Of(PairValue(UnitValue(hi), UnitValue(lo)))), s));
    hide ReadEscape;
  }

  lemma JoinBefore(text: Bytes, more: Option<Bytes>, rest: Bytes)
    ensures Join(Some(text), Some((more, rest))) == Some((Before(text, more), rest))
    ensures Join(None, Some((more, rest))) == Some((None, rest))
  {
  }

  lemma UnitRead(hex: Bytes, ps: seq<Piece>, rest: Bytes)
    requires PieceOk(Unit(hex)) && PiecesOk(ps) && !(IsHigh(UnitValue(hex)) && StartsLow(ps))
    requires ReadBody(BodyText(ps) + [QUOTE] + rest) == Some((Sense(ps), rest))
    ensures PiecesOk([Unit(hex)] + ps)
    ensures ReadBody([BACKSLASH, 0x75] + hex + (BodyText(ps) + [QUOTE] + rest)) == Some((Sense([Unit(hex)] + ps), rest))
  {
    assert ([Unit(hex)] + ps)[1..] == ps;
    hide Utf8Of, UnitValue, ReadBody, LowAhead, BodyText;
    if IsHigh(UnitValue(hex)) {
      LowAheadExactly(ps, rest);
    }
    UnitStep(hex, BodyText(ps) + [QUOTE] + rest);
    JoinBefore(if IsHigh(UnitValue(hex)) then [] else Utf8Of(UnitValue(hex)), Sense(ps), rest);
  }

  lemma PairRead(hi: Bytes, lo: Bytes, ps: seq<Piece>, rest: Bytes)
    requires PiecesOk(ps)
    requires |hi| == 4 && IsHex(hi) && |lo| == 4 && IsHex(lo) && IsHigh(UnitValue(hi)) && IsLow(UnitValue(lo))
    requires ReadBody(BodyText(ps) + [QUOTE] + rest) == Some((Sense(ps), rest))
    ensures PiecesOk([Unit(hi), Unit(lo)] + ps)
    ensures ReadBody([BACKSLASH, 0x75] + hi + ([BACKSLASH, 0x75] + lo + (BodyText(ps) + [QUOTE] + rest)))
         == Some((Sense([Unit(hi), Unit(lo)] + ps), rest))
  {
    var all := [Unit(hi), Unit(lo)] + ps;
    assert all[2..] == ps && all[1..][0] == Unit(lo) && all[0] == Unit(hi) && all[1] == Unit(lo);
    assert Sense(all) == Before(Utf8Of(PairValue(UnitValue(hi), UnitValue(lo))), Sense(ps));
    hide Sense, PairValue, Utf8Of, UnitValue, ReadBody, BodyText;
    PairStep(hi, lo, BodyText(ps) + [QUOTE] + rest);
    JoinBefore(Utf8Of(PairValue(UnitValue(hi), UnitValue(lo))), Sense(ps), rest);
  }

  lemma PlainRead(p: Piece, ps: seq<Piece>, rest: Bytes)
    requires PieceOk(p) && PiecesOk(ps) && !p.Unit?
    requires ReadBody(BodyText(ps) + [QUOTE] + rest) == Some((Sense(ps), rest))
    ensures PiecesOk([p] + ps)
    ensures ReadBody(PieceText(p) + (BodyText(ps) + [QUOTE] + rest)) == Some((Sense([p] + ps), rest))
  {
    assert ([p] + ps)[1..] == ps;
    hide ReadBody, BodyText;
    match p {
      case Raw(c) =>
        RawStep(c, BodyText(ps) + [QUOTE] + rest);
        JoinBefore([c], Sense(ps), rest);
      case Short(letter) =>
        ShortStep(letter, BodyText(ps) + [QUOTE] + rest);
        JoinBefore([ShortValue(letter).value], Sense(ps), rest);
    }
  }

  lemma BodySplits(ps: seq<Piece>, rest: Bytes)
    requires ps != []
    ensures BodyText(ps) + [QUOTE] + rest == PieceText(ps[0]) + (BodyText(ps[1..]) + [QUOTE] + rest)
  {
    hide PieceText;
  }

  lemma NoBody(rest: Bytes)
    ensures ReadBody(BodyText([]) + [QUOTE] + rest) == Some((Some([]), rest))
  {
    assert BodyText([]) + [QUOTE] + rest == [QUOTE] + rest;
  }

  /** Every spelled body is read as what it stands for. */
  lemma {:induction false} BodyRead(ps: seq<Piece>, rest: Bytes)
    requires PiecesOk(ps)
    ensures ReadBody(BodyText(ps) + [QUOTE] + rest) == Some((Sense(ps), rest))
    decreases |ps|
  {
    if ps == [] {
      NoBody(rest);
    } else {
      hide ReadBody, BodyText, Sense, UnitValue;
      BodySplits(ps, rest);
      assert ps == [ps[0]] + ps[1..];
      if ps[0].Unit? && IsHigh(UnitValue(ps[0].hex)) && StartsLow(ps[1..]) {
        BodyRead(ps[2..], rest);
        BodySplits(ps[1..], rest);
        assert ps[1..][1..] == ps[2..] && ps == [ps[0], ps[1]] + ps[2..];
        PairRead(ps[0].hex, ps[1].hex, ps[2..], rest);
      } else if ps[0].Unit? {
        BodyRead(ps[1..], rest);
        UnitRead(ps[0].hex, ps[1..], rest);
      } else {
        BodyRead(ps[1..], rest);
        PlainRead(ps[0], ps[1..], rest);
      }
    }
  }

  // ---- whatever the string reader accepts is a string ----

  lemma UnitFound(s: Bytes) returns (hex: Bytes)
    requires Hex4(s).Some?
    ensures |hex| == 4 && IsHex(hex) && s == hex + s[4..] && UnitValue(hex) == Hex4(s).value
  {
    hide HexValue;
    hex := s[..4];
    assert forall i :: 0 <= i < 4 ==> hex[i] == s[i];
  }

  /** What `ReadBody` goes on with after a first piece, or a first pair. */
  ghost predicate Starts(s: Bytes, first: seq<Piece>, more: Bytes) {
    && 1 <= |first| <= 2 && PiecesOk(first) && s == BodyText(first) + more && ReadBody(more).Some?
    && (|first| == 2 ==> first[0].Unit? && IsHigh(UnitValue(first[0].hex)) && StartsLow(first[1..]))
    && (|first| == 1 && first[0].Unit? && IsHigh(UnitValue(first[0].hex)) ==> !LowAhead(more))
    && ReadBody(s).Some? && ReadBody(s).value.1 == ReadBody(more).value.1
  }

  lemma UnitPieceFound(s: Bytes) returns (first: seq<Piece>, more: Bytes)
    requires |s| > 1 && s[0] == BACKSLASH && s[1] == 0x75 && ReadBody(s).Some?
    ensures Starts(s, first, more)
  {
    hide Utf8Of, UnitValue, Hex4, ShortValue;
    var t := s[1..];
    var hex := UnitFound(t[1..]);
    var after := t[1..][4..];
    assert s == [BACKSLASH, 0x75] + hex + after;
    if IsHigh(UnitValue(hex)) && LowAhead(after) {
      var low := UnitFound(after[2..]);
      first, more := [Unit(hex), Unit(low)], after[6..];
      assert after == [BACKSLASH, 0x75] + low + after[6..];
      TwoPieces(first[0], first[1]);
    } else {
      first, more := [Unit(hex)], after;
      OnePiece(first[0]);
    }
  }

  lemma PlainPieceFound(s: Bytes) returns (first: seq<Piece>, more: Bytes)
    requires s != [] && s[0] != QUOTE && ReadBody(s).Some? && (s[0] == BACKSLASH ==> |s| > 1 && s[1] != 0x75)
    ensures Starts(s, first, more)
  {
    hide Utf8Of, Hex4;
    if s[0] != BACKSLASH {
      first, more := [Raw(s[0])], s[1..];
    } else {
      var t := s[1..];
      assert s == [BACKSLASH, t[0]] + t[1..];
      first, more := [Short(t[0])], t[1..];
    }
    OnePiece(first[0]);
  }

  lemma Glue(s: Bytes, a: Bytes, more: Bytes, b: Bytes, rest: Bytes)
    requires s == a + more && more == b + [QUOTE] + rest
    ensures s == (a + b) + [QUOTE] + rest
  {
  }

  lemma OnePiece(p: Piece)
    ensures BodyText([p]) == PieceText(p)
  {
    assert [p][1..] == [];
  }

  lemma TwoPieces(p: Piece, q: Piece)
    ensures BodyText([p, q]) == PieceText(p) + PieceText(q)
  {
    assert [p, q][1..] == [q];
    OnePiece(q);
  }

  lemma {:induction false} BodyAppend(ps: seq<Piece>, qs: seq<Piece>)
    ensures BodyText(ps + qs) == BodyText(ps) + BodyText(qs)
  {
    hide PieceText;
    if ps == [] {
      assert ps + qs == qs && BodyText([]) == [];
      assert [] + BodyText(qs) == BodyText(qs);
    } else {
      BodyAppend(ps[1..], qs);
      assert (ps + qs)[1..] == ps[1..] + qs && (ps + qs)[0] == ps[0];
      var a, b, c := PieceText(ps[0]), BodyText(ps[1..]), BodyText(qs);
      assert BodyText(ps + qs) == a + BodyText(ps[1..] + qs) && BodyText(ps) == a + b;
      hide BodyText;
      Concat3(a, b, c);
    }
  }

  lemma {:induction false} BodyFound(s: Bytes) returns (ps: seq<Piece>)
    requires ReadBody(s).Some?
    ensures PiecesOk(ps) && s == BodyText(ps) + [QUOTE] + ReadBody(s).value.1 && ReadBody(s).value.0 == Sense(ps)
    decreases |s|
  {
    var rest := ReadBody(s).value.1;
    if s[0] == QUOTE {
      ps := [];
      assert s == [QUOTE] + rest;
    } else {
      var first, more;
      if s[0] == BACKSLASH && s[1] == 0x75 {
        first, more := UnitPieceFound(s);
      } else {
        first, more := PlainPieceFound(s);
      }
      BodyText1(first);
      hide ReadBody, BodyText, Sense, LowAhead, UnitValue, StartsLow, PieceOk;
      var later := BodyFound(more);
      ps := first + later;
      BodyAppend(first, later);
      Glue(s, BodyText(first), more, BodyText(later), rest);
      BodyRead(ps, rest);
    }
  }

  lemma BodyText1(ps: seq<Piece>)
    requires ps != []
    ensures BodyText(ps) != []
  {
    assert PieceText(ps[0]) != [];
  }

  lemma StringRead(s: Option<Str>, t: Bytes, rest: Bytes)
    requires SpellsString(s, t)
    ensures t != [] && t[0] == QUOTE && ReadString((t + rest)[1..]) == Some((s, rest))
  {
    hide BodyText, Sense, ReadBody, ValidUtf8, PieceOk, PiecesOk;
    var ps :| PiecesOk(ps) && t == [0x22] + BodyText(ps) + [0x22] && s == Spoken(ps);
    BodyRead(ps, rest);
    assert (t + rest)[1..] == BodyText(ps) + [QUOTE] + rest;
  }

  lemma StringFound(s: Bytes) returns (t: Bytes)
    requires s != [] && s[0] == QUOTE && ReadString(s[1..]).Some?
    ensures SpellsString(ReadString(s[1..]).value.0, t) && s == t + ReadString(s[1..]).value.1
  {
    hide BodyText, Sense, ReadBody, ValidUtf8, PieceOk, PiecesOk;
    var ps := BodyFound(s[1..]);
    t := [0x22] + BodyText(ps) + [0x22];
    assert PiecesOk(ps) && t == [0x22] + BodyText(ps) + [0x22] && ReadString(s[1..]).value.0 == Spoken(ps);
    assert s == [s[0]] + s[1..];
  }

  // ---- values (sections 3 to 5) ----

  /** `t` is a text of the value `v`, without blanks around it. */
  ghost predicate Spells(v: Value, t: Bytes)
    decreases v, 0
  {
    match v
    case Null => t == Ascii("null")
    case Bool(b) => t == if b then Ascii("true") else Ascii("false")
    case Num(n) => SpellsNumber(n, t)
    case String(s) => SpellsString(s, t)
    case Array(items) => exists inner :: t == [0x5B] + inner + [0x5D] && if items == [] then Blank(inner) else SpellsItems(items, inner)
    case Object(members) =>
      exists inner :: t == [0x7B] + inner + [0x7D] && if members == [] then Blank(inner) else SpellsMembers(members, inner)
  }

  ghost predicate SpellsItems(items: seq<Value>, inner: Bytes)
    requires items != []
    decreases items, 1
  {
    exists w1, x, w2, more :: ItemParts(items, inner, w1, x, w2, more)
  }

  /** The first value between blanks, and the others after a comma. */
  ghost predicate ItemParts(items: seq<Value>, inner: Bytes, w1: Bytes, x: Bytes, w2: Bytes, more: Bytes)
    requires items != []
    decreases items, 0
  {
    && Blank(w1) && Blank(w2) && Spells(items[0], x)
    && if |items| == 1 then inner == w1 + x + w2 else inner == w1 + x + w2 + [0x2C] + more && SpellsItems(items[1..], more)
  }

  ghost predicate SpellsMembers(members: seq<Member>, inner: Bytes)
    requires members != []
    decreases members, 1
  {
    exists w1, k, w2, w3, x, w4, more :: MemberParts(members, inner, w1, k, w2, w3, x, w4, more)
  }

  /** The first name, a colon and its value, with blanks between and around, and the others after a comma. */
  ghost predicate MemberParts(members: seq<Member>, inner: Bytes, w1: Bytes, k: Bytes, w2: Bytes, w3: Bytes, x: Bytes, w4: Bytes, more: Bytes)
    requires members != []
    decreases members, 0
  {
    && Blank(w1) && Blank(w2) && Blank(w3) && Blank(w4) && SpellsString(members[0].key, k) && SpellsValueOf(members[0], x)
    && var first := w1 + k + w2 + [0x3A] + (w3 + x + w4);
       if |members| == 1 then inner == first else inner == first + [0x2C] + more && SpellsMembers(members[1..], more)
  }

  ghost predicate SpellsValueOf(m: Member, x: Bytes)
    decreases m, 0
  {
    Spells(m.value, x)
  }

  lemma {:induction false} SkipBlank(w: Bytes, s: Bytes)
    requires Blank(w)
    ensures Skip(w + s) == Skip(s)
  {
    if w == [] {
      assert w + s == s;
    } else {
      SkipBlank(w[1..], s);
      assert (w + s)[1..] == w[1..] + s;
    }
  }

  lemma {:induction false} SkipFound(s: Bytes) returns (w: Bytes)
    ensures Blank(w) && s == w + Skip(s) && (Skip(s) != [] ==> !IsBlank(Skip(s)[0]))
  {
    if s != [] && IsBlank(s[0]) {
      var rest := SkipFound(s[1..]);
      w := [s[0]] + rest;
      assert s == [s[0]] + s[1..];
    } else {
      w := [];
    }
  }

  lemma SkipStops(s: Bytes)
    requires s != [] && !IsBlank(s[0])
    ensures Skip(s) == s
  {
  }

  lemma ReadSkips(w: Bytes, s: Bytes)
    requires Blank(w)
    ensures Read(w + s) == Read(s)
  {
    hide ReadWord, ReadString, ReadItems, ReadMembers, ReadNumber, Skip, Ascii;
    SkipBlank(w, s);
  }

  /** Where a value may start: not at a blank, and not at a closing bracket. */
  predicate StartsValue(t: Bytes) {
    t != [] && !IsBlank(t[0]) && t[0] != RBRACKET && t[0] != RBRACE
  }

  lemma ScalarRead(v: Value, t: Bytes, rest: Bytes)
    requires Spells(v, t) && Ends(rest) && !v.Array? && !v.Object?
    ensures StartsValue(t) && Read(t + rest) == Some((v, rest))
  {
    hide ReadNumber, ReadString, ReadItems, ReadMembers, Ascii, ReadWord, SpellsString, SpellsNumber, Ends, ValidUtf8;
    WordsAre();
    match v {
      case Null => ReadWrittenWord(t, v, rest);
      case Bool(b) => ReadWrittenWord(t, v, rest);
      case String(s) => StringRead(s, t, rest);
      case Num(n) => SpelledNumberRead(n, t, rest);
    }
  }

  lemma SpelledNumberRead(n: Option<U64>, t: Bytes, rest: Bytes)
    requires SpellsNumber(n, t) && Ends(rest)
    ensures ReadNumber(t + rest) == Some((Num(n), rest)) && t != [] && (t[0] == 0x2D || IsDigit(t[0]))
  {
    hide Whole, Fraction, Exponent, NumberValue, ReadNumber, Ends;
    var minus, whole, fraction, exponent :|
      NumberParts(t, minus, whole, fraction, exponent) && n == NumberValue(minus, whole, fraction, exponent);
    NumberRead(t, minus, whole, fraction, exponent, rest);
  }

  lemma EndsAfter(w: Bytes, rest: Bytes)
    requires Blank(w) && rest != [] && (rest[0] == COMMA || rest[0] == RBRACKET || rest[0] == RBRACE)
    ensures Ends(w + rest) && Skip(w + rest) == rest && w + rest != []
  {
    SkipBlank(w, rest);
    SkipStops(rest);
  }

  lemma ArraySteps(inner: Bytes, rest: Bytes)
    ensures var after := inner + ([RBRACKET] + rest);
            var t, all := Skip(after), [LBRACKET] + inner + [RBRACKET] + rest;
            && (t != [] && t[0] == RBRACKET ==> Read(all) == Some((Array([]), t[1..])))
            && ((t == [] || t[0] != RBRACKET) && ReadItems(after).Some? ==>
                  Read(all) == Some((Array(ReadItems(after).value.0), ReadItems(after).value.1)))
  {
    hide ReadWord, ReadString, ReadItems, ReadMembers, ReadNumber, Ascii;
    var all := [LBRACKET] + inner + [RBRACKET] + rest;
    SkipStops(all);
    assert all[1..] == inner + ([RBRACKET] + rest);
    hide Skip;
  }

  lemma ObjectSteps(inner: Bytes, rest: Bytes)
    ensures var after := inner + ([RBRACE] + rest);
            var t, all := Skip(after), [LBRACE] + inner + [RBRACE] + rest;
            && (t != [] && t[0] == RBRACE ==> Read(all) == Some((Object([]), t[1..])))
            && ((t == [] || t[0] != RBRACE) && ReadMembers(after).Some? ==>
                  Read(all) == Some((Object(ReadMembers(after).value.0), ReadMembers(after).value.1)))
  {
    hide ReadWord, ReadString, ReadItems, ReadMembers, ReadNumber, Ascii;
    var all := [LBRACE] + inner + [RBRACE] + rest;
    SkipStops(all);
    assert all[1..] == inner + ([RBRACE] + rest);
    hide Skip;
  }

  /** Every text of a value is read as that value, whatever may follow. */
  lemma ValueRead(v: Value, t: Bytes, rest: Bytes)
    requires Spells(v, t) && Ends(rest)
    ensures StartsValue(t) && Read(t + rest) == Some((v, rest))
    decreases v, 0
  {
    hide Read, ReadItems, ReadMembers, SpellsItems, SpellsMembers, Skip;
    match v {
      case Array(items) =>
        var inner :| t == [0x5B] + inner + [0x5D] && if items == [] then Blank(inner) else SpellsItems(items, inner);
        ArraySteps(inner, rest);
        if items == [] {
          EndsAfter(inner, [RBRACKET] + rest);
        } else {
          ItemsRead(items, inner, rest);
        }
      case Object(members) =>
        var inner :| t == [0x7B] + inner + [0x7D] && if members == [] then Blank(inner) else SpellsMembers(members, inner);
        ObjectSteps(inner, rest);
        if members == [] {
          EndsAfter(inner, [RBRACE] + rest);
        } else {
          MembersRead(members, inner, rest);
        }
      case _ =>
        hide Spells;
        ScalarRead(v, t, rest);
    }
  }

  /** The items up to and including the closing bracket. */
  lemma ItemsRead(items: seq<Value>, inner: Bytes, rest: Bytes)
    requires items != [] && SpellsItems(items, inner)
    ensures ReadItems(inner + ([RBRACKET] + rest)) == Some((items, rest))
    ensures var t := Skip(inner + ([RBRACKET] + rest)); t != [] && t[0] != RBRACKET
    decreases items, 1
  {
    hide Read, ReadItems, Spells, Skip, Blank, Ends;
    var w1, x, w2, more :| ItemParts(items, inner, w1, x, w2, more);
    var tail := if |items| == 1 then [RBRACKET] + rest else [COMMA] + (more + ([RBRACKET] + rest));
    assert inner + ([RBRACKET] + rest) == w1 + (x + (w2 + tail));
    EndsAfter(w2, tail);
    ValueRead(items[0], x, w2 + tail);
    ReadSkips(w1, x + (w2 + tail));
    SkipBlank(w1, x + (w2 + tail));
    SkipStops(x + (w2 + tail));
    OneItem(w1 + (x + (w2 + tail)), items[0], w2 + tail, tail);
    if |items| > 1 {
      ItemsRead(items[1..], more, rest);
      assert tail[1..] == more + ([RBRACKET] + rest);
      assert items == [items[0]] + items[1..];
    } else {
      assert tail[1..] == rest && items == [items[0]];
    }
  }

  lemma OneItem(s: Bytes, v: Value, after: Bytes, t: Bytes)
    requires Read(s) == Some((v, after)) && Skip(after) == t && t != []
    ensures t[0] == RBRACKET ==> ReadItems(s) == Some(([v], t[1..]))
    ensures t[0] == COMMA && ReadItems(t[1..]).Some? ==>
              ReadItems(s) == Some(([v] + ReadItems(t[1..]).value.0, ReadItems(t[1..]).value.1))
  {
    hide Read, Skip;
  }

  lemma OneMember(s: Bytes, m: Member, afterKey: Bytes, after: Bytes, t: Bytes)
    requires ReadKey(s) == Some((m.key, afterKey)) && Read(afterKey) == Some((m.value, after)) && Skip(after) == t && t != []
    ensures t[0] == RBRACE ==> ReadMembers(s) == Some(([m], t[1..]))
    ensures t[0] == COMMA && ReadMembers(t[1..]).Some? ==>
              ReadMembers(s) == Some(([m] + ReadMembers(t[1..]).value.0, ReadMembers(t[1..]).value.1))
  {
    hide Read, ReadKey, Skip;
  }

  lemma KeyRead(key: Option<Str>, w1: Bytes, k: Bytes, w2: Bytes, after: Bytes)
    requires Blank(w1) && Blank(w2) && SpellsString(key, k)
    ensures ReadKey(w1 + (k + (w2 + ([COLON] + after)))) == Some((key, after))
    ensures var t := Skip(w1 + (k + (w2 + ([COLON] + after)))); t != [] && t[0] == QUOTE
  {
    hide ReadString, SpellsString, Skip, Blank;
    var tail := w2 + ([COLON] + after);
    StringRead(key, k, tail);
    SkipBlank(w1, k + tail);
    assert (k + tail)[0] == QUOTE;
    SkipStops(k + tail);
    SkipBlank(w2, [COLON] + after);
    SkipStops([COLON] + after);
    assert ([COLON] + after)[1..] == after;
  }

  lemma MemberValueRead(m: Member, x: Bytes, rest: Bytes)
    requires SpellsValueOf(m, x) && Ends(rest)
    ensures StartsValue(x) && Read(x + rest) == Some((m.value, rest))
    decreases m, 0
  {
    hide Read;
    ValueRead(m.value, x, rest);
  }

  lemma MembersRead(members: seq<Member>, inner: Bytes, rest: Bytes)
    requires members != [] && SpellsMembers(members, inner)
    ensures ReadMembers(inner + ([RBRACE] + rest)) == Some((members, rest))
    ensures var t := Skip(inner + ([RBRACE] + rest)); t != [] && t[0] != RBRACE
    decreases members, 1
  {
    hide Read, ReadMembers, ReadKey, Spells, Skip, Blank, Ends, SpellsString;
    var w1, k, w2, w3, x, w4, more :| MemberParts(members, inner, w1, k, w2, w3, x, w4, more);
    var m := members[0];
    var tail := if |members| == 1 then [RBRACE] + rest else [COMMA] + (more + ([RBRACE] + rest));
    var after := w3 + (x + (w4 + tail));
    assert inner + ([RBRACE] + rest) == w1 + (k + (w2 + ([COLON] + after)));
    KeyRead(m.key, w1, k, w2, after);
    EndsAfter(w4, tail);
    MemberValueRead(m, x, w4 + tail);
    ReadSkips(w3, x + (w4 + tail));
    OneMember(w1 + (k + (w2 + ([COLON] + after))), m, after, w4 + tail, tail);
    if |members| > 1 {
      MembersRead(members[1..], more, rest);
      assert tail[1..] == more + ([RBRACE] + rest);
      assert members == [m] + members[1..];
    } else {
      assert tail[1..] == rest && members == [m];
    }
  }

  // ---- whatever the reader accepts is a text of the grammar ----

  lemma ScalarFound(s: Bytes) returns (x: Bytes)
    requires s != [] && !IsBlank(s[0]) && s[0] != LBRACKET && s[0] != LBRACE && Read(s).Some?
    ensures Spells(Read(s).value.0, x) && s == x + Read(s).value.1
  {
    hide ReadNumber, ReadString, ReadItems, ReadMembers, Ascii, SpellsString, SpellsNumber;
    SkipStops(s);
    hide Skip;
    if s[0] == QUOTE {
      x := StringFound(s);
    } else if s[0] == 0x6E || s[0] == 0x74 || s[0] == 0x66 {
      x := if s[0] == 0x6E then Ascii("null") else if s[0] == 0x74 then Ascii("true") else Ascii("false");
    } else {
      x := NumberFound(s);
    }
  }

  lemma OpenedArray(s: Bytes)
    requires s != [] && s[0] == LBRACKET && Read(s).Some?
    ensures var t, r := Skip(s[1..]), Read(s).value;
            if t != [] && t[0] == RBRACKET then r == (Array([]), t[1..])
            else ReadItems(s[1..]).Some? && r == (Array(ReadItems(s[1..]).value.0), ReadItems(s[1..]).value.1)
  {
    hide ReadWord, ReadString, ReadItems, ReadMembers, ReadNumber, Ascii;
    SkipStops(s);
    hide Skip;
  }

  lemma OpenedObject(s: Bytes)
    requires s != [] && s[0] == LBRACE && Read(s).Some?
    ensures var t, r := Skip(s[1..]), Read(s).value;
            if t != [] && t[0] == RBRACE then r == (Object([]), t[1..])
            else ReadMembers(s[1..]).Some? && r == (Object(ReadMembers(s[1..]).value.0), ReadMembers(s[1..]).value.1)
  {
    hide ReadWord, ReadString, ReadItems, ReadMembers, ReadNumber, Ascii;
    SkipStops(s);
    hide Skip;
  }

  lemma ReadFromSkipped(s: Bytes) returns (w: Bytes)
    requires Read(s).Some?
    ensures Blank(w) && s == w + Skip(s) && Skip(s) != [] && !IsBlank(Skip(s)[0]) && Read(Skip(s)) == Read(s)
  {
    w := SkipFound(s);
    ReadSkips(w, Skip(s));
    hide ReadWord, ReadString, ReadItems, ReadMembers, ReadNumber, Ascii, Skip;
  }

  lemma ArraySpelled(items: seq<Value>, inner: Bytes)
    requires if items == [] then Blank(inner) else SpellsItems(items, inner)
    ensures Spells(Array(items), [LBRACKET] + inner + [RBRACKET])
  {
    hide SpellsItems, Blank;
  }

  lemma ObjectSpelled(members: seq<Member>, inner: Bytes)
    requires if members == [] then Blank(inner) else SpellsMembers(members, inner)
    ensures Spells(Object(members), [LBRACE] + inner + [RBRACE])
  {
    hide SpellsMembers, Blank;
  }

  lemma ArrayFound(t: Bytes) returns (x: Bytes)
    requires t != [] && t[0] == LBRACKET && Read(t).Some?
    ensures Spells(Read(t).value.0, x) && t == x + Read(t).value.1
    decreases |t|, 0
  {
    OpenedArray(t);
    var v, rest := Read(t).value.0, Read(t).value.1;
    hide Read, ReadItems, Spells, SpellsItems, Skip, Blank;
    var inner;
    if Skip(t[1..]) != [] && Skip(t[1..])[0] == RBRACKET {
      inner := SkipFound(t[1..]);
    } else {
      inner := ItemsFound(t[1..]);
    }
    x := [LBRACKET] + inner + [RBRACKET];
    assert t[1..] == inner + ([RBRACKET] + rest);
    Bracketed(t, inner, [RBRACKET] + rest);
    ArraySpelled(v.items, inner);
  }

  lemma ObjectFound(t: Bytes) returns (x: Bytes)
    requires t != [] && t[0] == LBRACE && Read(t).Some?
    ensures Spells(Read(t).value.0, x) && t == x + Read(t).value.1
    decreases |t|, 0
  {
    OpenedObject(t);
    var v, rest := Read(t).value.0, Read(t).value.1;
    hide Read, ReadMembers, Spells, SpellsMembers, Skip, Blank;
    var inner;
    if Skip(t[1..]) != [] && Skip(t[1..])[0] == RBRACE {
      inner := SkipFound(t[1..]);
    } else {
      inner := MembersFound(t[1..]);
    }
    x := [LBRACE] + inner + [RBRACE];
    assert t[1..] == inner + ([RBRACE] + rest);
    Bracketed(t, inner, [RBRACE] + rest);
    ObjectSpelled(v.members, inner);
  }

  /** The text of the value at the start, behind blanks. */
  lemma ValueFound(s: Bytes) returns (w: Bytes, x: Bytes)
    requires Read(s).Some?
    ensures Blank(w) && Spells(Read(s).value.0, x) && s == w + x + Read(s).value.1
    decreases |s|, 1
  {
    w := ReadFromSkipped(s);
    var t, rest := Skip(s), Read(s).value.1;
    assert |t| <= |s|;
    hide Read, Spells, Skip, Blank;
    if t[0] == LBRACKET {
      x := ArrayFound(t);
    } else if t[0] == LBRACE {
      x := ObjectFound(t);
    } else {
      x := ScalarFound(t);
    }
    Concat3(w, x, rest);
  }

  lemma Bracketed(t: Bytes, inner: Bytes, after: Bytes)
    requires t != [] && t[1..] == inner + after && after != []
    ensures t == [t[0]] + inner + [after[0]] + after[1..]
  {
  }

  lemma ItemsOpened(s: Bytes)
    requires ReadItems(s).Some?
    ensures Read(s).Some?
    ensures var (v, after) := Read(s).value;
            var t := Skip(after);
            && t != []
            && (if t[0] == RBRACKET then ReadItems(s).value == ([v], t[1..])
                else t[0] == COMMA && ReadItems(t[1..]).Some?
                     && ReadItems(s).value == ([v] + ReadItems(t[1..]).value.0, ReadItems(t[1..]).value.1))
  {
    hide Read, Skip;
  }

  lemma ItemsGlue(items: seq<Value>, w1: Bytes, x: Bytes, w2: Bytes, more: Bytes) returns (inner: Bytes)
    requires items != [] && Blank(w1) && Blank(w2) && Spells(items[0], x) && (|items| > 1 ==> SpellsItems(items[1..], more))
    ensures SpellsItems(items, inner)
    ensures inner == if |items| == 1 then w1 + x + w2 else w1 + x + w2 + [COMMA] + more
  {
    hide Spells, Blank;
    inner := if |items| == 1 then w1 + x + w2 else w1 + x + w2 + [COMMA] + more;
    assert ItemParts(items, inner, w1, x, w2, more);
  }

  lemma Sequence(s: Bytes, first: Bytes, w: Bytes, t: Bytes, more: Bytes, rest: Bytes)
    requires s == first + (w + t) && t != [] && t[1..] == more + rest
    ensures s == first + w + [t[0]] + more + rest
  {
    assert t == [t[0]] + t[1..];
  }

  lemma ItemsFound(s: Bytes) returns (inner: Bytes)
    requires ReadItems(s).Some?
    ensures ReadItems(s).value.0 != [] && SpellsItems(ReadItems(s).value.0, inner)
    ensures s == inner + ([RBRACKET] + ReadItems(s).value.1)
    decreases |s|, 2
  {
    ItemsOpened(s);
    var items, rest := ReadItems(s).value.0, ReadItems(s).value.1;
    var after := Read(s).value.1;
    var t := Skip(after);
    hide Read, ReadItems, Spells, SpellsItems, Skip, Blank;
    var w1, x := ValueFound(s);
    var w2 := SkipFound(after);
    if t[0] == RBRACKET {
      inner := ItemsGlue(items, w1, x, w2, []);
      assert t == [RBRACKET] + rest;
      Concat3(w1 + x, w2, t);
    } else {
      var more := ItemsFound(t[1..]);
      assert items[1..] == ReadItems(t[1..]).value.0;
      inner := ItemsGlue(items, w1, x, w2, more);
      Sequence(s, w1 + x, w2, t, more, [RBRACKET] + rest);
    }
  }

  lemma MembersOpened(s: Bytes)
    requires ReadMembers(s).Some?
    ensures ReadKey(s).Some? && Read(ReadKey(s).value.1).Some?
    ensures var (key, afterKey) := ReadKey(s).value;
            var (v, after) := Read(afterKey).value;
            var t := Skip(after);
            && t != []
            && (if t[0] == RBRACE then ReadMembers(s).value == ([Member(key, v)], t[1..])
                else t[0] == COMMA && ReadMembers(t[1..]).Some?
                     && ReadMembers(s).value == ([Member(key, v)] + ReadMembers(t[1..]).value.0, ReadMembers(t[1..]).value.1))
  {
    hide Read, ReadKey, Skip;
  }

  lemma KeyFound(s: Bytes) returns (w1: Bytes, k: Bytes, w2: Bytes)
    requires ReadKey(s).Some?
    ensures Blank(w1) && Blank(w2) && SpellsString(ReadKey(s).value.0, k)
    ensures s == w1 + k + w2 + [COLON] + ReadKey(s).value.1
  {
    hide ReadString, SpellsString, Skip, Blank;
    w1 := SkipFound(s);
    var t := Skip(s);
    k := StringFound(t);
    var rest := ReadString(t[1..]).value.1;
    w2 := SkipFound(rest);
    var u := Skip(rest);
    assert u == [COLON] + u[1..];
  }

  lemma MembersGlue(members: seq<Member>, w1: Bytes, k: Bytes, w2: Bytes, w3: Bytes, x: Bytes, w4: Bytes, more: Bytes) returns (inner: Bytes)
    requires members != [] && Blank(w1) && Blank(w2) && Blank(w3) && Blank(w4)
    requires SpellsString(members[0].key, k) && Spells(members[0].value, x) && (|members| > 1 ==> SpellsMembers(members[1..], more))
    ensures SpellsMembers(members, inner)
    ensures var first := w1 + k + w2 + [COLON] + (w3 + x + w4);
            inner == if |members| == 1 then first else first + [COMMA] + more
  {
    hide Spells, Blank, SpellsString;
    var first := w1 + k + w2 + [COLON] + (w3 + x + w4);
    inner := if |members| == 1 then first else first + [COMMA] + more;
    assert SpellsValueOf(members[0], x);
    assert MemberParts(members, inner, w1, k, w2, w3, x, w4, more);
  }

  lemma MembersFound(s: Bytes) returns (inner: Bytes)
    requires ReadMembers(s).Some?
    ensures ReadMembers(s).value.0 != [] && SpellsMembers(ReadMembers(s).value.0, inner)
    ensures s == inner + ([RBRACE] + ReadMembers(s).value.1)
    decreases |s|, 2
  {
    MembersOpened(s);
    var members, rest := ReadMembers(s).value.0, ReadMembers(s).value.1;
    var afterKey := ReadKey(s).value.1;
    var after := Read(afterKey).value.1;
    var t := Skip(after);
    hide Read, ReadMembers, ReadKey, Spells, SpellsMembers, Skip, Blank, SpellsString;
    var w1, k, w2 := KeyFound(s);
    var w3, x := ValueFound(afterKey);
    var w4 := SkipFound(after);
    var before := w1 + k + w2 + [COLON];
    Concat3(before, w3 + x, after);
    Concat3(before, w3 + x, w4);
    if t[0] == RBRACE {
      inner := MembersGlue(members, w1, k, w2, w3, x, w4, []);
      assert t == [RBRACE] + rest;
      Concat3(before + (w3 + x), w4, t);
    } else {
      var more := MembersFound(t[1..]);
      assert members[1..] == ReadMembers(t[1..]).value.0;
      inner := MembersGlue(members, w1, k, w2, w3, x, w4, more);
      Sequence(s, before + (w3 + x), w4, t, more, [RBRACE] + rest);
    }
  }

  /** A payload is a JSON text of the value: a spelling of it with nothing but blanks around. */
  ghost predicate IsJsonText(s: Bytes, v: Value) {
    exists w1, x, w2 :: TextParts(s, v, w1, x, w2)
  }

  ghost predicate TextParts(s: Bytes, v: Value, w1: Bytes, x: Bytes, w2: Bytes) {
    Blank(w1) && Blank(w2) && Spells(v, x) && s == w1 + x + w2
  }

  lemma OnlyBlanks(w: Bytes)
    ensures Blank(w) <==> Skip(w) == []
  {
    if Blank(w) {
      SkipBlank(w, []);
      assert w + [] == w;
    }
    var b := SkipFound(w);
    if Skip(w) == [] {
      assert w == b;
    }
  }

  /** The reader accepts exactly the JSON texts, and gives the value each of them spells. */
  lemma ReadExactly(s: Bytes, v: Value)
    ensures ReadAll(s) == Some(v) <==> IsJsonText(s, v)
  {
    hide Read, Spells, Skip, Blank;
    if IsJsonText(s, v) {
      var w1, x, w2 :| TextParts(s, v, w1, x, w2);
      OnlyBlanks(w2);
      assert Ends(w2) by {
        BlankEnds(w2);
      }
      ValueRead(v, x, w2);
      ReadSkips(w1, x + w2);
      assert s == w1 + (x + w2);
    }
    if ReadAll(s) == Some(v) {
      var w1, x := ValueFound(s);
      var w2 := Read(s).value.1;
      OnlyBlanks(w2);
      assert TextParts(s, v, w1, x, w2);
    }
  }

  lemma BlankEnds(w: Bytes)
    requires Blank(w)
    ensures Ends(w)
  {
  }
}
