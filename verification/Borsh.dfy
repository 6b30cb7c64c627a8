/** The Borsh wire format of instructions and entries, and the second reader in scripts/verify-testnet.sh. */
module Borsh {
  import opened Basics
  import opened Text
  import opened Registry

  type Parsed<+T> = Option<(T, Bytes)>

  function Pow256(k: nat): (r: nat)
    ensures r > 0
  {
    if k == 0 then 1 else 256 * Pow256(k - 1)
  }

  /** The low `k` bytes of `n`, least significant first. */
  function LittleEndian(n: nat, k: nat): (b: Bytes)
    ensures |b| == k
  {
    if k == 0 then [] else [(n % 256) as Byte] + LittleEndian(n / 256, k - 1)
  }

  function FromLittleEndian(b: Bytes): (n: nat)
    ensures n < Pow256(|b|)
  {
    if b == [] then 0 else b[0] as int + 256 * FromLittleEndian(b[1..])
  }

  lemma {:induction false} LittleEndianValue(n: nat, k: nat)
    requires n < Pow256(k)
    ensures FromLittleEndian(LittleEndian(n, k)) == n
  {
    if k > 0 {
      LittleEndianValue(n / 256, k - 1);
      assert LittleEndian(n, k)[1..] == LittleEndian(n / 256, k - 1);
    }
  }

  lemma {:induction false} LittleEndianBytes(b: Bytes)
    ensures LittleEndian(FromLittleEndian(b), |b|) == b
  {
    if b == [] {
    } else {
      var n := FromLittleEndian(b[1..]);
      LittleEndianBytes(b[1..]);
      assert (b[0] as int + 256 * n) % 256 == b[0] as int && (b[0] as int + 256 * n) / 256 == n;
      assert b == [b[0]] + b[1..];
    }
  }

  lemma WordSizes()
    ensures Pow256(4) == U32_MAX + 1 && Pow256(8) == U64_MAX + 1
  {
    assert Pow256(2) == 0x1_0000 && Pow256(4) == 256 * (256 * Pow256(2));
    assert Pow256(6) == 256 * (256 * Pow256(4));
  }

  // ---- writers ----

  function PutU64(n: U64): (b: Bytes) {
    LittleEndian(n, 8)
  }

  function PutStr(s: Str): (b: Bytes) {
    LittleEndian(|s|, 4) + s
  }

  function PutItem(item: Item): (b: Bytes) {
    PutStr(item.cid) + item.metadata_hash
  }

  function PutItems(items: seq<Item>): (b: Bytes) {
    if items == [] then [] else PutItem(items[0]) + PutItems(items[1..])
  }

  function PutEntry(e: AnchorEntry): (b: Bytes) {
    PutStr(e.cid) + (e.cid_hash + (e.metadata_hash + PutU64(e.anchor_timestamp)))
  }

  function PutInstruction(i: Instruction): (b: Bytes) {
    match i
    case AnchorOne(item, ts) => [0] + (PutItem(item) + PutU64(ts))
    case AnchorBatch(items, ts) => [1] + (LittleEndian(|items|, 4) + (PutItems(items) + PutU64(ts)))
  }

  /** The length prefixes are 32-bit; the writer fails on anything longer. */
  predicate ItemsFit(items: seq<Item>) {
    forall i :: 0 <= i < |items| ==> |items[i].cid| <= U32_MAX
  }

  function EncodeEntry(e: AnchorEntry): (b: Option<Bytes>) {
    if |e.cid| <= U32_MAX then Some(PutEntry(e)) else None
  }

  function EncodeInstruction(i: Instruction): (b: Option<Bytes>) {
    if ItemsFit(i.Items()) && |i.Items()| <= U32_MAX then Some(PutInstruction(i)) else None
  }

  // ---- readers: each returns the value and the bytes it left ----

  function GetU64(b: Bytes): (r: Parsed<U64>) {
    if |b| < 8 then None
    else
      WordSizes();
      Some((FromLittleEndian(b[..8]), b[8..]))
  }

  function GetU32(b: Bytes): (r: Parsed<U32>) {
    if |b| < 4 then None
    else
      WordSizes();
      Some((FromLittleEndian(b[..4]), b[4..]))
  }

  function GetDigest(b: Bytes): (r: Parsed<Digest>) {
    if |b| < 32 then None else Some((b[..32], b[32..]))
  }

  function GetStr(b: Bytes): (r: Parsed<Str>) {
    match GetU32(b)
    case None => None
    case Some((n, rest)) =>
      if |rest| < n || !ValidUtf8(rest[..n]) then None else Some((rest[..n], rest[n..]))
  }

  function GetItem(b: Bytes): (r: Parsed<Item>) {
    match GetStr(b)
    case None => None
    case Some((cid, rest)) =>
      match GetDigest(rest)
      case None => None
      case Some((h, rest')) => Some((Item(cid, h), rest'))
  }

  function GetItems(n: nat, b: Bytes): (r: Parsed<seq<Item>>) {
    if n == 0 then Some(([], b))
    else
      match GetItem(b)
      case None => None
      case Some((item, rest)) =>
        match GetItems(n - 1, rest)
        case None => None
        case Some((items, rest')) => Some(([item] + items, rest'))
  }

  function GetEntry(b: Bytes): (r: Parsed<AnchorEntry>) {
    match GetStr(b)
    case None => None
    case Some((cid, b1)) =>
      match GetDigest(b1)
      case None => None
      case Some((h, b2)) =>
        match GetDigest(b2)
        case None => None
        case Some((mh, b3)) =>
          match GetU64(b3)
          case None => None
          case Some((ts, rest)) => Some((AnchorEntry(cid, h, mh, ts), rest))
  }

  function GetInstruction(b: Bytes): (r: Parsed<Instruction>) {
    if b == [] then None
    else if b[0] == 0 then
      match GetItem(b[1..])
      case None => None
      case Some((item, rest)) =>
        (match GetU64(rest)
         case None => None
         case Some((ts, rest')) => Some((AnchorOne(item, ts), rest')))
    else if b[0] == 1 then
      match GetU32(b[1..])
      case None => None
      case Some((n, rest)) =>
        (match GetItems(n, rest)
         case None => None
         case Some((items, rest')) =>
           match GetU64(rest')
           case None => None
           case Some((ts, rest'')) => Some((AnchorBatch(items, ts), rest'')))
    else None
  }

  /** `try_from_slice`: everything must be consumed. */
  function Whole<T>(p: Parsed<T>): (r: Option<T>) {
    if p.Some? && p.value.1 == [] then Some(p.value.0) else None
  }

  function DecodeEntry(b: Bytes): (r: Option<AnchorEntry>) {
    Whole(GetEntry(b))
  }

  function DecodeInstruction(b: Bytes): (r: Option<Instruction>) {
    Whole(GetInstruction(b))
  }

  // ---- a reader undoes its writer, whatever follows ----

  lemma Split(a: Bytes, b: Bytes)
    ensures (a + b)[..|a|] == a && (a + b)[|a|..] == b
  {
  }

  lemma ReadU64(n: U64, rest: Bytes)
    ensures GetU64(PutU64(n) + rest) == Some((n, rest))
  {
    hide LittleEndian, FromLittleEndian, Pow256;
    WordSizes();
    LittleEndianValue(n, 8);
    Split(PutU64(n), rest);
  }

  lemma ReadU32(n: U32, rest: Bytes)
    ensures GetU32(LittleEndian(n, 4) + rest) == Some((n, rest))
  {
    hide LittleEndian, FromLittleEndian, Pow256;
    WordSizes();
    LittleEndianValue(n, 4);
    Split(LittleEndian(n, 4), rest);
  }

  lemma ReadDigest(d: Digest, rest: Bytes)
    ensures GetDigest(d + rest) == Some((d, rest))
  {
    Split(d, rest);
  }

  lemma ReadStr(s: Str, rest: Bytes)
    requires |s| <= U32_MAX
    ensures GetStr(PutStr(s) + rest) == Some((s, rest))
  {
    hide LittleEndian, GetU32, ValidUtf8;
    ReadU32(|s|, s + rest);
    assert PutStr(s) + rest == LittleEndian(|s|, 4) + (s + rest);
    Split(s, rest);
  }

  lemma ReadItem(item: Item, rest: Bytes)
    requires |item.cid| <= U32_MAX
    ensures GetItem(PutItem(item) + rest) == Some((item, rest))
  {
    hide GetStr, PutStr, GetDigest;
    ReadStr(item.cid, item.metadata_hash + rest);
    ReadDigest(item.metadata_hash, rest);
    assert PutItem(item) + rest == PutStr(item.cid) + (item.metadata_hash + rest);
  }

  lemma {:induction false} ReadItems(items: seq<Item>, rest: Bytes)
    requires ItemsFit(items)
    ensures GetItems(|items|, PutItems(items) + rest) == Some((items, rest))
  {
    hide GetItem, PutItem;
    if items == [] {
      assert PutItems(items) + rest == rest;
    } else {
      ReadItem(items[0], PutItems(items[1..]) + rest);
      ReadItems(items[1..], rest);
      assert PutItems(items) + rest == PutItem(items[0]) + (PutItems(items[1..]) + rest);
      assert [items[0]] + items[1..] == items;
    }
  }

  lemma ReadEntry(e: AnchorEntry, rest: Bytes)
    requires |e.cid| <= U32_MAX
    ensures GetEntry(PutEntry(e) + rest) == Some((e, rest))
  {
    hide GetStr, PutStr, GetDigest, GetU64, PutU64;
    var b3 := PutU64(e.anchor_timestamp) + rest;
    var b2 := e.metadata_hash + b3;
    var b1 := e.cid_hash + b2;
    assert PutEntry(e) + rest == PutStr(e.cid) + b1;
    ReadStr(e.cid, b1);
    ReadDigest(e.cid_hash, b2);
    ReadDigest(e.metadata_hash, b3);
    ReadU64(e.anchor_timestamp, rest);
  }

  lemma ReadBatch(items: seq<Item>, ts: U64, rest: Bytes)
    requires ItemsFit(items) && |items| <= U32_MAX
    ensures GetInstruction(PutInstruction(AnchorBatch(items, ts)) + rest) == Some((AnchorBatch(items, ts), rest))
  {
    hide GetItem, PutItem, GetItems, PutItems, GetU32, GetU64, PutU64, LittleEndian, ItemsFit;
    var b := PutInstruction(AnchorBatch(items, ts)) + rest;
    var b2 := PutU64(ts) + rest;
    var b1 := PutItems(items) + b2;
    assert b[1..] == LittleEndian(|items|, 4) + b1;
    ReadU32(|items|, b1);
    ReadItems(items, b2);
    ReadU64(ts, rest);
  }

  lemma ReadInstruction(i: Instruction, rest: Bytes)
    requires EncodeInstruction(i).Some?
    ensures GetInstruction(PutInstruction(i) + rest) == Some((i, rest))
  {
    match i {
      case AnchorOne(item, ts) =>
        hide GetItem, PutItem, GetItems, PutItems, GetU32, GetU64, PutU64, LittleEndian;
        assert (PutInstruction(i) + rest)[1..] == PutItem(item) + (PutU64(ts) + rest);
        assert i.Items()[0] == item;
        ReadItem(item, PutU64(ts) + rest);
        ReadU64(ts, rest);
      case AnchorBatch(items, ts) =>
        hide GetInstruction, PutInstruction;
        ReadBatch(items, ts, rest);
    }
  }

  // ---- whatever a reader accepts, its writer would have produced ----

  lemma WrittenU64(b: Bytes)
    requires GetU64(b).Some?
    ensures b == PutU64(GetU64(b).value.0) + GetU64(b).value.1
  {
    hide LittleEndian, FromLittleEndian;
    LittleEndianBytes(b[..8]);
  }

  lemma WrittenU32(b: Bytes)
    requires GetU32(b).Some?
    ensures b == LittleEndian(GetU32(b).value.0, 4) + GetU32(b).value.1
  {
    hide LittleEndian, FromLittleEndian;
    LittleEndianBytes(b[..4]);
  }

  lemma WrittenStr(b: Bytes)
    requires GetStr(b).Some?
    ensures var (s, rest) := GetStr(b).value; |s| <= U32_MAX && b == PutStr(s) + rest
  {
    hide LittleEndian, GetU32, ValidUtf8;
    WrittenU32(b);
    var (n, r) := GetU32(b).value;
    assert r == r[..n] + r[n..];
    assert b == LittleEndian(n, 4) + r[..n] + r[n..];
  }

  lemma WrittenItem(b: Bytes)
    requires GetItem(b).Some?
    ensures var (item, rest) := GetItem(b).value; |item.cid| <= U32_MAX && b == PutItem(item) + rest
  {
    hide GetStr, PutStr;
    WrittenStr(b);
    var (cid, r) := GetStr(b).value;
    assert r == r[..32] + r[32..];
    assert b == PutStr(cid) + r[..32] + r[32..];
  }

  lemma {:induction false} WrittenItems(n: nat, b: Bytes)
    requires GetItems(n, b).Some?
    ensures var (items, rest) := GetItems(n, b).value; |items| == n && ItemsFit(items) && b == PutItems(items) + rest
  {
    hide GetItem, PutItem;
    if n > 0 {
      WrittenItem(b);
      var (item, r) := GetItem(b).value;
      WrittenItems(n - 1, r);
      var (items, rest) := GetItems(n - 1, r).value;
      assert ([item] + items)[1..] == items;
      assert PutItems([item] + items) + rest == PutItem(item) + (PutItems(items) + rest);
    }
  }

  lemma WrittenEntry(b: Bytes)
    requires GetEntry(b).Some?
    ensures var (e, rest) := GetEntry(b).value; |e.cid| <= U32_MAX && b == PutEntry(e) + rest
  {
    hide GetStr, PutStr, GetU64, PutU64;
    WrittenStr(b);
    var (cid, b1) := GetStr(b).value;
    var b2, b3 := b1[32..], b1[32..][32..];
    WrittenU64(b3);
    var (ts, rest) := GetU64(b3).value;
    assert b1 == b1[..32] + b2 && b2 == b2[..32] + b3;
    var e := GetEntry(b).value.0;
    assert PutEntry(e) + rest == PutStr(cid) + (b1[..32] + (b2[..32] + (PutU64(ts) + rest)));
  }

  lemma WrittenInstruction(b: Bytes)
    requires GetInstruction(b).Some?
    ensures var (i, rest) := GetInstruction(b).value; EncodeInstruction(i).Some? && b == PutInstruction(i) + rest
  {
    hide GetItem, PutItem, GetItems, PutItems, GetU32, GetU64, PutU64, LittleEndian;
    assert b == [b[0]] + b[1..];
    if b[0] == 0 {
      WrittenItem(b[1..]);
      var (item, r) := GetItem(b[1..]).value;
      WrittenU64(r);
      var (ts, rest) := GetU64(r).value;
      assert PutInstruction(AnchorOne(item, ts)) + rest == [0] + (PutItem(item) + (PutU64(ts) + rest));
    } else {
      WrittenU32(b[1..]);
      var (n, b1) := GetU32(b[1..]).value;
      WrittenItems(n, b1);
      var (items, b2) := GetItems(n, b1).value;
      WrittenU64(b2);
      var (ts, rest) := GetU64(b2).value;
      assert PutInstruction(AnchorBatch(items, ts)) + rest
          == [1] + (LittleEndian(n, 4) + (PutItems(items) + (PutU64(ts) + rest)));
    }
  }

  // ---- the two codecs ----

  /** The decoder accepts exactly what the encoder writes, and gives back what was encoded. */
  lemma EntryCodec(e: AnchorEntry, b: Bytes)
    ensures DecodeEntry(b) == Some(e) <==> EncodeEntry(e) == Some(b)
  {
    hide GetEntry, PutEntry;
    if DecodeEntry(b) == Some(e) {
      WrittenEntry(b);
      assert PutEntry(e) + [] == PutEntry(e);
    }
    if EncodeEntry(e) == Some(b) {
      ReadEntry(e, []);
      assert PutEntry(e) + [] == PutEntry(e);
    }
  }

  lemma InstructionCodec(i: Instruction, b: Bytes)
    ensures DecodeInstruction(b) == Some(i) <==> EncodeInstruction(i) == Some(b)
  {
    hide GetInstruction, PutInstruction;
    if DecodeInstruction(b) == Some(i) {
      WrittenInstruction(b);
      assert PutInstruction(i) + [] == PutInstruction(i);
    }
    if EncodeInstruction(i) == Some(b) {
      ReadInstruction(i, []);
      assert PutInstruction(i) + [] == PutInstruction(i);
    }
  }

  /** Bytes left over after a complete value are an error. */
  lemma TrailingBytesRejected(b: Bytes, extra: Bytes)
    requires extra != []
    ensures DecodeEntry(b).Some? ==> DecodeEntry(b + extra).None?
    ensures DecodeInstruction(b).Some? ==> DecodeInstruction(b + extra).None?
  {
    hide GetEntry, PutEntry, GetInstruction, PutInstruction;
    if DecodeEntry(b).Some? {
      EntryCodec(DecodeEntry(b).value, b);
      ReadEntry(DecodeEntry(b).value, extra);
    }
    if DecodeInstruction(b).Some? {
      InstructionCodec(DecodeInstruction(b).value, b);
      ReadInstruction(DecodeInstruction(b).value, extra);
    }
  }

  lemma EncodedEntryNotEmpty(e: AnchorEntry)
    ensures PutEntry(e) != []
  {
    assert |PutEntry(e)| >= 76;
  }

  // ---- the offset-based reader of the verify script ----

  /** Python's `data[i:j]`, which clips both ends instead of failing. */
  function Clip(data: Bytes, i: nat, j: nat): (r: Bytes) {
    if i >= |data| || j <= i then [] else data[i..Min(j, |data|)]
  }

  /** The fields the script reads, when its layout check and its UTF-8 decoding pass. */
  function ScriptRead(data: Bytes): (r: Option<(Bytes, Bytes, Bytes, nat)>) {
    var slen := FromLittleEndian(Clip(data, 0, 4));
    var i := 4 + slen;
    var cid := Clip(data, 4, i);
    var cidh := Clip(data, i, i + 32);
    var mh := Clip(data, i + 32, i + 64);
    var ts := FromLittleEndian(Clip(data, i + 64, i + 72));
    if ValidUtf8(cid) && i + 72 == |data| then Some((cid, cidh, mh, ts)) else None
  }

  /** The script accepts exactly the byte strings the program's own decoder accepts, with the same fields. */
  lemma ScriptAgreesWithDecoder(data: Bytes)
    ensures ScriptRead(data).Some? <==> DecodeEntry(data).Some?
    ensures DecodeEntry(data).Some? ==>
              var e := DecodeEntry(data).value;
              ScriptRead(data).value == (e.cid, e.cid_hash, e.metadata_hash, e.anchor_timestamp)
  {
    hide FromLittleEndian, ValidUtf8, Pow256;
    if |data| >= 4 {
      var slen := FromLittleEndian(data[..4]);
      var i := 4 + slen;
      if i <= |data| {
        assert data[4..][..slen] == data[4..i] && data[4..][slen..] == data[i..];
        if i + 72 <= |data| {
          assert data[i..][32..] == data[i + 32..];
          assert data[i..][..32] == data[i..i + 32];
          assert data[i + 32..][..32] == data[i + 32..i + 64] && data[i + 32..][32..] == data[i + 64..];
          assert data[i + 64..][..8] == data[i + 64..i + 72] && data[i + 64..][8..] == data[i + 72..];
        }
      }
    }
  }

  // ---- the layout, byte by byte ----

  /** `n` stands at offset `at` in `width` bytes, least significant first. */
  ghost predicate WordAt(b: Bytes, at: nat, width: nat, n: nat) {
    at + width <= |b| && forall i :: 0 <= i < width ==> b[at + i] as int == n / Pow256(i) % 256
  }

  lemma {:induction false} LittleEndianAt(n: nat, k: nat, i: nat)
    requires i < k
    ensures LittleEndian(n, k)[i] as int == n / Pow256(i) % 256
  {
    if i == 0 {
    } else {
      LittleEndianAt(n / 256, k - 1, i - 1);
      hide LittleEndian;
      DivideTwice(n, Pow256(i - 1));
    }
  }

  lemma DivideTwice(n: nat, d: nat)
    requires d > 0
    ensures n / 256 / d == n / (256 * d)
  {
    var q, r := n / 256, n % 256;
    var s, t := q / d, q % d;
    assert n == 256 * (d * s + t) + r;
    assert 256 * (d * s + t) == 256 * d * s + 256 * t;
    assert 0 <= 256 * t + r < 256 * d;
    QuotientIs(n, 256 * d, s, 256 * t + r);
  }

  lemma QuotientIs(n: nat, d: nat, q: nat, r: nat)
    requires d > 0 && n == d * q + r && r < d
    ensures n / d == q
  {
    var p := n / d;
    assert n == d * p + n % d;
    if p < q {
      OneMoreTime(d, p, q);
    } else if p > q {
      OneMoreTime(d, q, p);
    }
  }

  lemma OneMoreTime(d: nat, x: nat, y: nat)
    requires x < y
    ensures d * x + d <= d * y
  {
    var k: nat := y - x - 1;
    assert d * k >= 0;
    assert d * (x + 1 + k) == d * x + d + d * k;
  }

  lemma WordPlaced(b: Bytes, at: nat, width: nat, n: nat)
    requires at + width <= |b| && b[at..at + width] == LittleEndian(n, width)
    ensures WordAt(b, at, width, n)
  {
    hide LittleEndian, Pow256;
    forall i | 0 <= i < width ensures b[at + i] as int == n / Pow256(i) % 256 {
      LittleEndianAt(n, width, i);
      assert b[at..at + width][i] == b[at + i];
    }
  }

  ghost predicate BytesAt(b: Bytes, at: nat, part: Bytes) {
    at + |part| <= |b| && b[at..at + |part|] == part
  }

  /** An item at offset `at`: the length of its CID, the CID, and the metadata hash, 36 bytes and the CID in all. */
  ghost predicate ItemAt(b: Bytes, at: nat, item: Item) {
    WordAt(b, at, 4, |item.cid|) && BytesAt(b, at + 4, item.cid) && BytesAt(b, at + 4 + |item.cid|, item.metadata_hash)
  }

  /** Where item `k` starts, counted from the first. */
  function Offset(items: seq<Item>, k: nat): (n: nat)
    requires k <= |items|
  {
    if k == 0 then 0 else |items[0].cid| + 36 + Offset(items[1..], k - 1)
  }

  lemma ItemPlaced(before: Bytes, item: Item, after: Bytes)
    ensures ItemAt(before + PutItem(item) + after, |before|, item) && |PutItem(item)| == |item.cid| + 36
  {
    hide LittleEndian, WordAt;
    var b := before + PutItem(item) + after;
    assert b[|before|..|before| + 4] == LittleEndian(|item.cid|, 4);
    WordPlaced(b, |before|, 4, |item.cid|);
    assert b[|before| + 4..|before| + 4 + |item.cid|] == item.cid;
    assert b[|before| + 4 + |item.cid|..|before| + 4 + |item.cid| + 32] == item.metadata_hash;
  }

  lemma {:induction false} ItemsPlaced(before: Bytes, items: seq<Item>, after: Bytes, k: nat)
    requires k < |items|
    ensures ItemAt(before + PutItems(items) + after, |before| + Offset(items, k), items[k])
    decreases k
  {
    hide PutItem, ItemAt;
    var rest := PutItems(items[1..]);
    ItemPlaced(before, items[0], rest + after);
    assert before + PutItems(items) + after == before + PutItem(items[0]) + (rest + after);
    if k > 0 {
      ItemsPlaced(before + PutItem(items[0]), items[1..], after, k - 1);
      assert before + PutItems(items) + after == before + PutItem(items[0]) + rest + after;
    }
  }

  lemma {:induction false} ItemsLength(items: seq<Item>)
    ensures |PutItems(items)| == Offset(items, |items|)
  {
    hide PutItem;
    if items == [] {
    } else {
      ItemPlaced([], items[0], []);
      ItemsLength(items[1..]);
    }
  }

  /** The bytes of an instruction, by offset: a tag, 0 or 1; for a batch the number of entries; the items; and the
      timestamp in the last eight bytes. */
  lemma InstructionLayout(i: Instruction)
    requires EncodeInstruction(i).Some?
    ensures var b := EncodeInstruction(i).value;
            match i
            case AnchorOne(item, ts) =>
              |b| == |item.cid| + 45 && b[0] == 0 && ItemAt(b, 1, item) && WordAt(b, |b| - 8, 8, ts)
            case AnchorBatch(items, ts) =>
              && |b| == 5 + Offset(items, |items|) + 8 && b[0] == 1 && WordAt(b, 1, 4, |items|)
              && (forall k :: 0 <= k < |items| ==> ItemAt(b, 5 + Offset(items, k), items[k]))
              && WordAt(b, |b| - 8, 8, ts)
  {
    hide PutItem, PutItems, LittleEndian, ItemAt, WordAt, Offset, ItemsFit;
    var b := PutInstruction(i);
    match i {
      case AnchorOne(item, ts) =>
        ItemPlaced([0], item, PutU64(ts));
        assert b == [0] + PutItem(item) + PutU64(ts);
        assert b[|b| - 8..|b| - 8 + 8] == LittleEndian(ts, 8);
        WordPlaced(b, |b| - 8, 8, ts);
      case AnchorBatch(items, ts) =>
        var head := [1] + LittleEndian(|items|, 4);
        ItemsLength(items);
        assert b == head + PutItems(items) + PutU64(ts);
        forall k | 0 <= k < |items| ensures ItemAt(b, 5 + Offset(items, k), items[k]) {
          ItemsPlaced(head, items, PutU64(ts), k);
        }
        assert b[1..1 + 4] == LittleEndian(|items|, 4);
        WordPlaced(b, 1, 4, |items|);
        assert b[|b| - 8..|b| - 8 + 8] == LittleEndian(ts, 8);
        WordPlaced(b, |b| - 8, 8, ts);
    }
  }

  /** The bytes of an entry, by offset: the length of the CID, the CID, the two hashes, and the timestamp. */
  lemma EntryLayout(e: AnchorEntry)
    requires EncodeEntry(e).Some?
    ensures var b, n := EncodeEntry(e).value, |e.cid|;
            && |b| == n + 76 && WordAt(b, 0, 4, n) && BytesAt(b, 4, e.cid)
            && BytesAt(b, 4 + n, e.cid_hash) && BytesAt(b, 36 + n, e.metadata_hash) && WordAt(b, 68 + n, 8, e.anchor_timestamp)
  {
    hide LittleEndian, WordAt;
    var b, n := PutEntry(e), |e.cid|;
    assert b[0..0 + 4] == LittleEndian(n, 4);
    WordPlaced(b, 0, 4, n);
    assert b[68 + n..68 + n + 8] == LittleEndian(e.anchor_timestamp, 8);
    WordPlaced(b, 68 + n, 8, e.anchor_timestamp);
    assert b[4..4 + n] == e.cid;
    assert b[4 + n..36 + n] == e.cid_hash && b[36 + n..68 + n] == e.metadata_hash;
  }
}
