/** The hand-written encoder of ui/ffi/src/lib.rs against a strict RFC 4648 section 4 decoder. */
module Base64 {
  import opened Basics
  import Text

  const PAD: Byte := 0x3D

  /** Value `v` of the alphabet "A-Za-z0-9+/". */
  function Symbol(v: int): (c: Byte)
    requires 0 <= v < 64
  {
    if v < 26 then (0x41 + v) as Byte
    else if v < 52 then (0x61 + (v - 26)) as Byte
    else if v < 62 then (0x30 + (v - 52)) as Byte
    else if v == 62 then 0x2B
    else 0x2F
  }

  /** The value of an alphabet character, or -1. */
  function SymbolValue(c: Byte): (v: int)
    ensures -1 <= v < 64
  {
    if 0x41 <= c <= 0x5A then c as int - 0x41
    else if 0x61 <= c <= 0x7A then c as int - 0x61 + 26
    else if 0x30 <= c <= 0x39 then c as int - 0x30 + 52
    else if c == 0x2B then 62
    else if c == 0x2F then 63
    else -1
  }

  lemma SymbolsBijective(v: int, c: Byte)
    requires 0 <= v < 64
    ensures SymbolValue(Symbol(v)) == v && Symbol(v) != PAD
    ensures SymbolValue(c) >= 0 ==> Symbol(SymbolValue(c)) == c
  {
  }

  /** One chunk of one to three bytes. */
  function Chunk(b: Bytes): (r: Bytes)
    requires 1 <= |b| <= 3
    ensures |r| == 4
  {
    var b0 := b[0] as int;
    var b1 := if |b| > 1 then b[1] as int else 0;
    var b2 := if |b| > 2 then b[2] as int else 0;
    [Symbol(b0 / 4), Symbol(b0 % 4 * 16 + b1 / 16),
     if |b| > 1 then Symbol(b1 % 16 * 4 + b2 / 64) else PAD,
     if |b| > 2 then Symbol(b2 % 64) else PAD]
  }

  function Encoded(b: Bytes): (r: Bytes) {
    if b == [] then [] else if |b| <= 3 then Chunk(b) else Chunk(b[..3]) + Encoded(b[3..])
  }

  /** The shift and mask expressions of the source are the divisions and remainders used here. */
  lemma ShiftsAndMasks(b0: bv8, b1: bv8, b2: bv8)
    ensures b0 >> 2 == b0 / 4
    ensures ((b0 & 0x03) << 4) | (b1 >> 4) == b0 % 4 * 16 + b1 / 16
    ensures ((b1 & 0x0f) << 2) | (b2 >> 6) == b1 % 16 * 4 + b2 / 64
    ensures b2 & 0x3f == b2 % 64
  {
  }

  method Base64Encode(bytes: Bytes) returns (out: Bytes)
    ensures out == Encoded(bytes)
  {
    hide Encoded, Chunk;
    out := [];
    var i := 0;
    assert bytes[0..] == bytes && out + bytes == bytes;
    while i < |bytes|
      invariant 0 <= i <= |bytes|
      invariant out + Encoded(bytes[i..]) == Encoded(bytes)
    {
      var next := if i + 3 <= |bytes| then i + 3 else |bytes|;
      NextChunk(bytes, i);
      Concat3(out, Chunk(bytes[i..next]), Encoded(bytes[next..]));
      out := PushChunk(out, bytes[i..next]);
      i := next;
    }
    NothingLeft();
    assert bytes[|bytes|..] == [];
  }

  /** The body of the loop: four characters for one chunk. */
  method PushChunk(before: Bytes, chunk: Bytes) returns (out: Bytes)
    requires 1 <= |chunk| <= 3
    ensures out == before + Chunk(chunk)
  {
    hide Symbol;
    var b0 := chunk[0] as int;
    var b1 := if |chunk| > 1 then chunk[1] as int else 0;
    var b2 := if |chunk| > 2 then chunk[2] as int else 0;
    out := before + [Symbol(b0 / 4)];
    out := out + [Symbol(b0 % 4 * 16 + b1 / 16)];
    if |chunk| > 1 {
      out := out + [Symbol(b1 % 16 * 4 + b2 / 64)];
    } else {
      out := out + [PAD];
    }
    if |chunk| > 2 {
      out := out + [Symbol(b2 % 64)];
    } else {
      out := out + [PAD];
    }
  }

  lemma NothingLeft()
    ensures Encoded([]) == []
  {
  }

  lemma NextChunk(bytes: Bytes, i: nat)
    requires i < |bytes|
    ensures var next := Min(i + 3, |bytes|);
            Encoded(bytes[i..]) == Chunk(bytes[i..next]) + Encoded(bytes[next..])
  {
    hide Chunk;
    var s := bytes[i..];
    if |s| > 3 {
      assert s[..3] == bytes[i..i + 3] && s[3..] == bytes[i + 3..];
    } else {
      assert s == bytes[i..|bytes|] && bytes[|bytes|..] == [];
      assert Chunk(s) + [] == Chunk(s);
    }
  }

  // ---- the decoder: groups of four, padding only in the last, unused bits zero ----

  function DecodeGroup(t: Bytes): (r: Option<Bytes>)
    requires |t| == 4
    ensures r.Some? ==> 1 <= |r.value| <= 3
  {
    var a, b, c, d := SymbolValue(t[0]), SymbolValue(t[1]), SymbolValue(t[2]), SymbolValue(t[3]);
    if a < 0 || b < 0 then None
    else if t[2] == PAD && t[3] == PAD then
      if b % 16 != 0 then None else Some([(a * 4 + b / 16) as Byte])
    else if c < 0 then None
    else if t[3] == PAD then
      if c % 4 != 0 then None else Some([(a * 4 + b / 16) as Byte, (b % 16 * 16 + c / 4) as Byte])
    else if d < 0 then None
    else Some([(a * 4 + b / 16) as Byte, (b % 16 * 16 + c / 4) as Byte, (c % 4 * 64 + d) as Byte])
  }

  function Decode(t: Bytes): (r: Option<Bytes>) {
    if t == [] then Some([])
    else if |t| < 4 then None
    else
      match DecodeGroup(t[..4])
      case None => None
      case Some(g) =>
        if |t| == 4 then Some(g)
        else if |g| < 3 then None
        else
          match Decode(t[4..])
          case None => None
          case Some(rest) => Some(g + rest)
  }

  lemma GroupArithmetic(b0: int, b1: int, b2: int)
    requires 0 <= b0 < 256 && 0 <= b1 < 256 && 0 <= b2 < 256
    ensures var x, y, z := b0 % 4 * 16 + b1 / 16, b1 % 16 * 4 + b2 / 64, b2 % 64;
            && x % 16 == b1 / 16 && y % 4 == b2 / 64
            && b0 / 4 * 4 + x / 16 == b0
            && x % 16 * 16 + y / 4 == b1
            && y % 4 * 64 + z == b2
  {
  }

  lemma GroupOfChunk(b: Bytes)
    requires 1 <= |b| <= 3
    ensures DecodeGroup(Chunk(b)) == Some(b)
  {
    var b0 := b[0] as int;
    var b1 := if |b| > 1 then b[1] as int else 0;
    var b2 := if |b| > 2 then b[2] as int else 0;
    var x, y, z := b0 % 4 * 16 + b1 / 16, b1 % 16 * 4 + b2 / 64, b2 % 64;
    GroupArithmetic(b0, b1, b2);
    assert SymbolValue(PAD) == -1;
    hide Symbol, SymbolValue;
    SymbolsBijective(b0 / 4, 0);
    SymbolsBijective(x, 0);
    SymbolsBijective(y, 0);
    SymbolsBijective(z, 0);
    var t := Chunk(b);
    assert t == [Symbol(b0 / 4), Symbol(x), if |b| > 1 then Symbol(y) else PAD, if |b| > 2 then Symbol(z) else PAD];
    hide Chunk;
    if |b| == 1 {
      assert b == [b[0]];
    } else if |b| == 2 {
      assert b == [b[0], b[1]];
    } else {
      assert b == [b[0], b[1], b[2]];
    }
  }

  lemma ChunkOfGroup(t: Bytes)
    requires |t| == 4 && DecodeGroup(t).Some?
    ensures Chunk(DecodeGroup(t).value) == t
  {
    hide Symbol, SymbolValue;
    SymbolsBijective(0, t[0]);
    SymbolsBijective(0, t[1]);
    SymbolsBijective(0, t[2]);
    SymbolsBijective(0, t[3]);
  }

  lemma {:induction false} DecodeEncoded(b: Bytes)
    ensures Decode(Encoded(b)) == Some(b)
  {
    hide Chunk, DecodeGroup;
    if b == [] {
    } else {
      var c := if |b| <= 3 then b else b[..3];
      GroupOfChunk(c);
      var e := Encoded(b);
      assert e[..4] == Chunk(c);
      if |b| > 3 {
        DecodeEncoded(b[3..]);
        assert e[4..] == Encoded(b[3..]);
        assert c + b[3..] == b;
      }
    }
  }

  lemma {:induction false} EncodeDecoded(t: Bytes)
    requires Decode(t).Some?
    ensures Encoded(Decode(t).value) == t
  {
    hide Chunk, DecodeGroup;
    if t == [] {
    } else {
      ChunkOfGroup(t[..4]);
      var g := DecodeGroup(t[..4]).value;
      if |t| == 4 {
        assert t[..4] == t;
      } else {
        EncodeDecoded(t[4..]);
        var rest := Decode(t[4..]).value;
        assert rest != [];
        assert (g + rest)[..3] == g && (g + rest)[3..] == rest;
        assert t == t[..4] + t[4..];
      }
    }
  }

  /** The encoder and the standard decoder are inverse to each other, on exactly the canonical texts. */
  lemma EncodingIsInverse(b: Bytes, t: Bytes)
    ensures Decode(t) == Some(b) <==> t == Encoded(b)
  {
    hide Decode, Encoded;
    DecodeEncoded(b);
    if Decode(t) == Some(b) {
      EncodeDecoded(t);
    }
  }

  /** Number of padding characters: none, two or one for a length of 0, 1 or 2 modulo 3. */
  function Padding(n: nat): (p: nat)
    ensures p <= 2
  {
    (3 - n % 3) % 3
  }

  lemma {:induction false} EncodedShape(b: Bytes)
    ensures |Encoded(b)| == 4 * ((|b| + 2) / 3)
    ensures var body := |Encoded(b)| - Padding(|b|);
            && 0 <= body
            && (forall i :: 0 <= i < body ==> SymbolValue(Encoded(b)[i]) >= 0)
            && (forall i :: body <= i < |Encoded(b)| ==> Encoded(b)[i] == PAD)
  {
    hide Chunk, Symbol, SymbolValue;
    if |b| > 3 {
      EncodedShape(b[3..]);
      ChunkSymbols(b[..3]);
      var c, tail := Chunk(b[..3]), Encoded(b[3..]);
      assert Encoded(b) == c + tail;
      hide Encoded;
      assert Padding(|b| - 3) == Padding(|b|);
    } else if b != [] {
      ChunkSymbols(b);
    }
  }

  lemma ChunkSymbols(b: Bytes)
    requires 1 <= |b| <= 3
    ensures forall i :: 0 <= i <= |b| ==> SymbolValue(Chunk(b)[i]) >= 0
    ensures forall i :: |b| < i < 4 ==> Chunk(b)[i] == PAD
  {
  }

  lemma Letters(v: int)
    requires 0 <= v < 26
    ensures Symbol(v) == Text.Ascii("ABCDEFGHIJKLMNOPQRSTUVWXYZ")[v]
  {
    hide Text.Ascii;
    var letters := "ABCDEFGHIJKLMNOPQRSTUVWXYZ";
    assert letters[v] as int == 0x41 + v;
  }

  lemma SmallLetters(v: int)
    requires 0 <= v < 26
    ensures Symbol(26 + v) == Text.Ascii("abcdefghijklmnopqrstuvwxyz")[v]
  {
    hide Text.Ascii;
    var letters := "abcdefghijklmnopqrstuvwxyz";
    assert letters[v] as int == 0x61 + v;
  }

  /** The alphabet, literally, and the padding character. */
  lemma AlphabetExactly()
    ensures forall v :: 0 <= v < 26 ==> Symbol(v) == Text.Ascii("ABCDEFGHIJKLMNOPQRSTUVWXYZ")[v]
    ensures forall v :: 0 <= v < 26 ==> Symbol(26 + v) == Text.Ascii("abcdefghijklmnopqrstuvwxyz")[v]
    ensures forall v :: 0 <= v < 10 ==> Symbol(52 + v) == Text.Ascii("0123456789")[v]
    ensures Symbol(62) == Text.Ascii("+")[0] && Symbol(63) == Text.Ascii("/")[0] && PAD == Text.Ascii("=")[0]
  {
    hide Text.Ascii;
    forall v | 0 <= v < 26
      ensures Symbol(v) == Text.Ascii("ABCDEFGHIJKLMNOPQRSTUVWXYZ")[v]
      ensures Symbol(26 + v) == Text.Ascii("abcdefghijklmnopqrstuvwxyz")[v]
    {
      Letters(v);
      SmallLetters(v);
    }
    forall v | 0 <= v < 10 ensures Symbol(52 + v) == Text.Ascii("0123456789")[v] {
      var digits := "0123456789";
      assert digits[v] as int == 0x30 + v;
    }
    assert "+"[0] == '+' && "/"[0] == '/' && "="[0] == '=';
  }

  lemma TopBits(x: nat, rest: nat, unit: nat)
    requires unit > 0 && rest < unit
    ensures (x * unit + rest) / unit == x && (x * unit + rest) % unit == rest
  {
    var n := x * unit + rest;
    var q := n / unit;
    assert n == q * unit + n % unit;
    if q < x {
      MoreUnits(q, x, unit);
    } else if q > x {
      MoreUnits(x, q, unit);
    }
  }

  lemma MoreUnits(x: nat, y: nat, unit: nat)
    requires x < y
    ensures x * unit + unit <= y * unit
  {
    var k: nat := y - x - 1;
    assert k * unit >= 0;
    assert (x + 1 + k) * unit == x * unit + unit + k * unit;
  }

  lemma SixBits(b0: int, b1: int, b2: int)
    requires 0 <= b0 < 256 && 0 <= b1 < 256 && 0 <= b2 < 256
    ensures var n := b0 * 0x1_0000 + b1 * 0x100 + b2;
            && n / 0x4_0000 == b0 / 4 && n / 0x1000 % 64 == b0 % 4 * 16 + b1 / 16
            && n / 0x40 % 64 == b1 % 16 * 4 + b2 / 64 && n % 64 == b2 % 64
  {
    var x, y, z, w := b0 / 4, b0 % 4 * 16 + b1 / 16, b1 % 16 * 4 + b2 / 64, b2 % 64;
    var n := b0 * 0x1_0000 + b1 * 0x100 + b2;
    assert n == x * 0x4_0000 + y * 0x1000 + z * 0x40 + w;
    TopBits(x, y * 0x1000 + z * 0x40 + w, 0x4_0000);
    TopBits(x * 64 + y, z * 0x40 + w, 0x1000);
    TopBits(x, y, 64);
    TopBits((x * 64 + y) * 64 + z, w, 0x40);
    TopBits(x * 64 + y, z, 64);
  }

  lemma ChunkBits(b: Bytes)
    requires |b| == 3
    ensures var n := b[0] as int * 0x1_0000 + b[1] as int * 0x100 + b[2] as int;
            Chunk(b) == [Symbol(n / 0x4_0000), Symbol(n / 0x1000 % 64), Symbol(n / 0x40 % 64), Symbol(n % 64)]
  {
    hide Symbol;
    SixBits(b[0] as int, b[1] as int, b[2] as int);
  }

  /** Three bytes are four symbols of six bits each, the first byte's high bits first. */
  lemma {:induction false} EncodedSymbols(b: Bytes, i: nat)
    requires 3 * i + 3 <= |b|
    ensures var n := b[3 * i] as int * 0x1_0000 + b[3 * i + 1] as int * 0x100 + b[3 * i + 2] as int;
            4 * i + 4 <= |Encoded(b)|
            && Encoded(b)[4 * i..4 * i + 4] == [Symbol(n / 0x4_0000), Symbol(n / 0x1000 % 64), Symbol(n / 0x40 % 64), Symbol(n % 64)]
  {
    hide Symbol, Chunk;
    if i == 0 {
      ChunkBits(b[..3]);
      assert |b| == 3 ==> b[..3] == b;
      assert Encoded(b)[..4] == Chunk(b[..3]);
    } else {
      EncodedSymbols(b[3..], i - 1);
      assert Encoded(b) == Chunk(b[..3]) + Encoded(b[3..]);
      hide Encoded;
      assert b[3..][3 * i - 3] == b[3 * i] && b[3..][3 * i - 2] == b[3 * i + 1] && b[3..][3 * i - 1] == b[3 * i + 2];
      assert Encoded(b)[4 * i..4 * i + 4] == Encoded(b[3..])[4 * i - 4..4 * i];
    }
  }
}
