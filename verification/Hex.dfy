/** The hex texts of ui/ffi/src/lib.rs: `hex::encode`, `hex::decode` and the two hash parsers. */
module Hex {
  import opened Basics
  import opened Text

  function HexDigit(n: int): (d: Byte)
    requires 0 <= n < 16
  {
    if n < 10 then (0x30 + n) as Byte else (0x57 + n) as Byte
  }

  /** The value of a hex digit in either case, or -1. */
  function HexValue(c: Byte): (r: int)
    ensures -1 <= r < 16
  {
    if 0x30 <= c <= 0x39 then c as int - 0x30
    else if 0x61 <= c <= 0x66 then c as int - 0x57
    else if 0x41 <= c <= 0x46 then c as int - 0x37
    else -1
  }

  lemma DigitValue(n: int)
    requires 0 <= n < 16
    ensures HexValue(HexDigit(n)) == n
  {
  }

  predicate IsHex(s: Bytes) {
    forall i :: 0 <= i < |s| ==> HexValue(s[i]) >= 0
  }

  /** `hex::encode`: two lower-case digits a byte. */
  function Encode(b: Bytes): (r: Bytes)
    ensures |r| == 2 * |b| && IsHex(r)
  {
    if b == [] then []
    else [HexDigit(b[0] as int / 16), HexDigit(b[0] as int % 16)] + Encode(b[1..])
  }

  /** `hex::decode`: an even number of digits, in either case. */
  function Decode(s: Bytes): (r: Option<Bytes>)
    ensures r.Some? ==> |s| == 2 * |r.value|
  {
    if s == [] then Some([])
    else if |s| == 1 || HexValue(s[0]) < 0 || HexValue(s[1]) < 0 || Decode(s[2..]).None? then None
    else Some([(16 * HexValue(s[0]) + HexValue(s[1])) as Byte] + Decode(s[2..]).value)
  }

  /** `trim_start_matches("0x")`. */
  function Strip0x(s: Bytes): (r: Bytes) {
    if |s| >= 2 && s[0] == 0x30 && s[1] == 0x78 then Strip0x(s[2..]) else s
  }

  /** `parse_metadata_hash` and `parse_cid_hash`, which are the same code for two types. */
  function ParseHash(s: Bytes): (r: Option<Digest>) {
    var digits := Strip0x(s);
    if |digits| != 64 then None
    else
      match Decode(digits)
      case None => None
      case Some(bytes) => Some(bytes)
  }

  /** The same digits, each in either case. */
  ghost predicate SameDigits(s: Bytes, t: Bytes) {
    |s| == |t| && forall i :: 0 <= i < |s| ==> HexValue(s[i]) == HexValue(t[i])
  }

  function Prefixes(n: nat): (r: Bytes) {
    if n == 0 then [] else [0x30, 0x78] + Prefixes(n - 1)
  }

  lemma {:induction false} DecodeAccepts(s: Bytes)
    ensures Decode(s).Some? <==> |s| % 2 == 0 && IsHex(s)
  {
    if |s| >= 2 {
      DecodeAccepts(s[2..]);
      assert forall i :: 2 <= i < |s| ==> s[i] == s[2..][i - 2];
      if IsHex(s) {
        assert HexValue(s[0]) >= 0 && HexValue(s[1]) >= 0;
      }
    }
  }

  lemma {:induction false} DecodeText(s: Bytes, b: Bytes)
    requires SameDigits(s, Encode(b))
    ensures Decode(s) == Some(b)
  {
    if b == [] {
    } else {
      hide HexDigit, HexValue;
      var hi, lo := b[0] as int / 16, b[0] as int % 16;
      DigitValue(hi);
      DigitValue(lo);
      var e := Encode(b);
      assert e == [HexDigit(hi), HexDigit(lo)] + Encode(b[1..]);
      assert HexValue(s[0]) == HexValue(e[0]) && HexValue(s[1]) == HexValue(e[1]);
      assert SameDigits(s[2..], e[2..]);
      DecodeText(s[2..], b[1..]);
      hide Encode, SameDigits;
      assert b == [b[0]] + b[1..];
    }
  }

  lemma {:induction false} EncodeDecoded(s: Bytes)
    requires Decode(s).Some?
    ensures SameDigits(s, Encode(Decode(s).value))
  {
    if s == [] {
    } else {
      hide HexDigit;
      EncodeDecoded(s[2..]);
      var d := Decode(s).value;
      var e := Encode(d);
      assert d[1..] == Decode(s[2..]).value;
      assert forall i :: 2 <= i < |s| ==> s[i] == s[2..][i - 2] && e[i] == Encode(d[1..])[i - 2];
      assert d[0] as int / 16 == HexValue(s[0]) && d[0] as int % 16 == HexValue(s[1]);
      DigitValue(HexValue(s[0]));
      DigitValue(HexValue(s[1]));
    }
  }

  lemma HexHasNoPrefix(s: Bytes)
    requires IsHex(s)
    ensures Strip0x(s) == s
  {
    if |s| >= 2 {
      assert HexValue(s[1]) >= 0;
    }
  }

  lemma {:induction false} StripPrefixes(n: nat, s: Bytes)
    requires IsHex(s)
    ensures Strip0x(Prefixes(n) + s) == s
  {
    hide IsHex;
    if n == 0 {
      assert Prefixes(0) + s == s;
      HexHasNoPrefix(s);
    } else {
      StripPrefixes(n - 1, s);
      assert (Prefixes(n) + s)[2..] == Prefixes(n - 1) + s;
    }
  }

  /** Parsing accepts a text exactly when 64 hex digits are left after the prefixes, and the value is then the one whose
      lower-case text has those digits. */
  lemma HashText(d: Digest, s: Bytes)
    ensures ParseHash(s).Some? <==> |Strip0x(s)| == 64 && IsHex(Strip0x(s))
    ensures ParseHash(s) == Some(d) <==> SameDigits(Strip0x(s), Encode(d))
  {
    hide Decode, Encode, Strip0x;
    var digits := Strip0x(s);
    DecodeAccepts(digits);
    if ParseHash(s).Some? {
      EncodeDecoded(digits);
    }
    if SameDigits(digits, Encode(d)) {
      DecodeText(digits, d);
    }
  }

  /** Any casing of the emitted text, behind any number of "0x", parses back. */
  lemma HashTextBack(d: Digest, text: Bytes, n: nat)
    requires SameDigits(text, Encode(d))
    ensures ParseHash(Prefixes(n) + text) == Some(d)
  {
    hide ParseHash, Encode, Strip0x;
    assert IsHex(text);
    StripPrefixes(n, text);
    HashText(d, Prefixes(n) + text);
  }

  lemma PrefixesStart(n: nat, t: Bytes)
    ensures n > 0 ==> Prefixes(n) + t == [0x30, 0x78] + (Prefixes(n - 1) + t)
    ensures Prefixes(0) + t == t
  {
  }

  /** As many leading "0x" as there are, and `t`, which starts with none. */
  ghost predicate Prefixed(s: Bytes, t: Bytes) {
    exists n: nat :: s == Prefixes(n) + t
  }

  lemma PrefixedStep(s: Bytes, t: Bytes)
    ensures Prefixed(s, t) <==> s == t || ([0x30, 0x78] <= s && Prefixed(s[2..], t))
  {
    if n: nat :| s == Prefixes(n) + t {
      PrefixesStart(n, t);
      if n > 0 {
        assert s[2..] == Prefixes(n - 1) + t;
      }
    }
    if s == t {
      PrefixesStart(0, t);
    }
    if [0x30, 0x78] <= s && Prefixed(s[2..], t) {
      var n: nat :| s[2..] == Prefixes(n) + t;
      PrefixesStart(n + 1, t);
      assert s == [0x30, 0x78] + s[2..];
    }
  }

  /** What the prefix removal leaves: the text without as many leading "0x" as there are. */
  lemma {:induction false} StripExactly(s: Bytes, t: Bytes)
    ensures Strip0x(s) == t <==> Prefixed(s, t) && !(Ascii("0x") <= t)
  {
    assert Ascii("0x") == [0x30, 0x78];
    hide Ascii, Prefixed;
    PrefixedStep(s, t);
    if [0x30, 0x78] <= s {
      StripExactly(s[2..], t);
    }
  }

  // ---- the digits themselves ----

  lemma LowerDigit(n: int)
    requires 0 <= n < 16
    ensures HexDigit(n) == Ascii("0123456789abcdef")[n]
  {
    hide Ascii;
    var digits := "0123456789abcdef";
    assert digits[n] as int == if n < 10 then 0x30 + n else 0x57 + n;
  }

  /** The emitted text: two digits of "0123456789abcdef" a byte, the high one first. */
  lemma {:induction false} EncodedDigits(b: Bytes, i: nat)
    requires i < |b|
    ensures Encode(b)[2 * i] == Ascii("0123456789abcdef")[b[i] as int / 16]
    ensures Encode(b)[2 * i + 1] == Ascii("0123456789abcdef")[b[i] as int % 16]
  {
    hide HexDigit, HexValue, Ascii;
    LowerDigit(b[0] as int / 16);
    LowerDigit(b[0] as int % 16);
    if i > 0 {
      EncodedDigits(b[1..], i - 1);
      assert b[1..][i - 1] == b[i];
    }
  }

  lemma UpperDigit(n: int)
    requires 0 <= n < 16
    ensures Ascii("0123456789ABCDEF")[n] as int == if n < 10 then 0x30 + n else 0x37 + n
  {
    hide Ascii;
    var digits := "0123456789ABCDEF";
    assert digits[n] as int == if n < 10 then 0x30 + n else 0x37 + n;
  }

  /** What counts as a digit, and for how much: those characters, and "A" to "F" for the same values. */
  lemma DigitExactly(c: Byte, v: int)
    requires 0 <= v < 16
    ensures HexValue(c) == v <==> c == Ascii("0123456789abcdef")[v] || c == Ascii("0123456789ABCDEF")[v]
  {
    LowerDigit(v);
    UpperDigit(v);
    hide Ascii;
  }
}
