/** Rust's `String`/`str` as the UTF-8 bytes it is made of, with the string operations the program uses. */
module Text {
  import opened Basics

  predicate Continuation(b: Byte) {
    0x80 <= b <= 0xBF
  }

  /** Length of the well-formed UTF-8 character at the start of `s` (table of RFC 3629 section 4), or 0. */
  function CharLen(s: Bytes): (n: nat)
    ensures n <= |s|
  {
    if s == [] then 0
    else if s[0] < 0x80 then 1
    else if |s| >= 2 && 0xC2 <= s[0] <= 0xDF && Continuation(s[1]) then 2
    else if |s| >= 3 && 0xE0 <= s[0] <= 0xEF && Continuation(s[1]) && Continuation(s[2])
            && (s[0] == 0xE0 ==> s[1] >= 0xA0) && (s[0] == 0xED ==> s[1] <= 0x9F) then 3
    else if |s| >= 4 && 0xF0 <= s[0] <= 0xF4 && Continuation(s[1]) && Continuation(s[2]) && Continuation(s[3])
            && (s[0] == 0xF0 ==> s[1] >= 0x90) && (s[0] == 0xF4 ==> s[1] <= 0x8F) then 4
    else 0
  }

  predicate ValidUtf8(s: Bytes) {
    s == [] || (CharLen(s) > 0 && ValidUtf8(s[CharLen(s)..]))
  }

  type Str = s: Bytes | ValidUtf8(s)

  /** The canonical CID is a newtype around `String`; decoding does not trim it. */
  type Cid = Str

  lemma {:induction false} Utf8Append(a: Bytes, b: Bytes)
    requires ValidUtf8(a)
    ensures ValidUtf8(a + b) == ValidUtf8(b)
  {
    if a == [] {
      assert a + b == b;
    } else {
      var n := CharLen(a);
      assert CharLen(a + b) == n;
      Utf8Append(a[n..], b);
      assert (a + b)[n..] == a[n..] + b;
    }
  }

  lemma {:induction false} AsciiIsUtf8(s: Bytes)
    requires forall i :: 0 <= i < |s| ==> s[i] < 0x80
    ensures ValidUtf8(s)
  {
    if s == [] {
    } else {
      AsciiIsUtf8(s[1..]);
    }
  }

  /** The bytes of an ASCII literal. */
  function Ascii(s: string): (t: Str)
    ensures |t| == |s|
    ensures forall i :: 0 <= i < |s| && s[i] < 128 as char ==> t[i] as int == s[i] as int
  {
    var t: Bytes := seq(|s|, i requires 0 <= i < |s| => if s[i] < 128 as char then s[i] as int as Byte else 0x3F);
    AsciiIsUtf8(t);
    t
  }

  // ---- trim ----

  /** `c` is the encoding of one character with the Unicode White_Space property. */
  predicate IsSpace(c: Bytes) {
    || (|c| == 1 && (0x09 <= c[0] <= 0x0D || c[0] == 0x20))
    || (|c| == 2 && c[0] == 0xC2 && (c[1] == 0x85 || c[1] == 0xA0))
    || (|c| == 3 && c[0] == 0xE1 && c[1] == 0x9A && c[2] == 0x80)
    || (|c| == 3 && c[0] == 0xE2 && c[1] == 0x80 && (0x80 <= c[2] <= 0x8A || c[2] == 0xA8 || c[2] == 0xA9 || c[2] == 0xAF))
    || (|c| == 3 && c[0] == 0xE2 && c[1] == 0x81 && c[2] == 0x9F)
    || (|c| == 3 && c[0] == 0xE3 && c[1] == 0x80 && c[2] == 0x80)
  }

  function SpacePrefix(s: Bytes): (n: nat)
    ensures n <= |s|
  {
    if |s| >= 1 && IsSpace(s[..1]) then 1
    else if |s| >= 2 && IsSpace(s[..2]) then 2
    else if |s| >= 3 && IsSpace(s[..3]) then 3
    else 0
  }

  function SpaceSuffix(s: Bytes): (n: nat)
    ensures n <= |s|
  {
    if |s| >= 1 && IsSpace(s[|s| - 1..]) then 1
    else if |s| >= 2 && IsSpace(s[|s| - 2..]) then 2
    else if |s| >= 3 && IsSpace(s[|s| - 3..]) then 3
    else 0
  }

  function TrimStart(s: Bytes): (r: Bytes)
    ensures |r| <= |s|
  {
    if SpacePrefix(s) > 0 then TrimStart(s[SpacePrefix(s)..]) else s
  }

  function TrimEnd(s: Bytes): (r: Bytes)
    ensures |r| <= |s| && r == s[..|r|]
  {
    if SpaceSuffix(s) > 0 then TrimEnd(s[..|s| - SpaceSuffix(s)]) else s
  }

  function Trim(s: Bytes): (r: Bytes) {
    TrimEnd(TrimStart(s))
  }

  /** Removing a white-space character at the end never cuts another character in two. */
  lemma {:induction false} Utf8DropSpace(s: Bytes, k: nat)
    requires ValidUtf8(s) && k <= |s| && IsSpace(s[|s| - k..])
    ensures ValidUtf8(s[..|s| - k])
  {
    var n, cut := CharLen(s), |s| - k;
    var rest, head := s[n..], s[..cut];
    SpaceStartsCharacter(s[cut..]);
    assert s[cut] == s[cut..][0];
    assert n > 0 && ValidUtf8(rest);
    CharRest(s);
    NothingIsUtf8();
    hide ValidUtf8, CharLen, IsSpace, Continuation;
    if cut > 0 {
      assert cut >= n;
      assert rest[|rest| - k..] == s[cut..];
      Utf8DropSpace(rest, k);
      assert head[n..] == rest[..|rest| - k];
      CharKept(s, cut);
      Utf8Cons(head);
    }
  }

  lemma NothingIsUtf8()
    ensures ValidUtf8([])
  {
  }

  lemma CharKept(s: Bytes, cut: nat)
    requires CharLen(s) <= cut <= |s| && CharLen(s) > 0
    ensures CharLen(s[..cut]) == CharLen(s)
  {
  }

  lemma Utf8Cons(s: Bytes)
    requires CharLen(s) > 0 && ValidUtf8(s[CharLen(s)..])
    ensures ValidUtf8(s)
  {
    hide CharLen;
  }

  lemma SpaceStartsCharacter(c: Bytes)
    requires IsSpace(c)
    ensures c != [] && !Continuation(c[0])
  {
  }

  lemma CharRest(s: Bytes)
    ensures forall i :: 1 <= i < CharLen(s) ==> Continuation(s[i])
  {
  }

  lemma {:induction false} TrimStartIsUtf8(s: Bytes)
    requires ValidUtf8(s)
    ensures ValidUtf8(TrimStart(s))
  {
    var n := SpacePrefix(s);
    if n > 0 {
      assert forall i :: 0 <= i < n ==> s[..n][i] == s[i];
      assert n == CharLen(s);
      TrimStartIsUtf8(s[n..]);
    }
  }

  lemma {:induction false} TrimEndIsUtf8(s: Bytes)
    requires ValidUtf8(s)
    ensures ValidUtf8(TrimEnd(s))
  {
    var n := SpaceSuffix(s);
    if n > 0 {
      Utf8DropSpace(s, n);
      TrimEndIsUtf8(s[..|s| - n]);
    }
  }

  /** `CanonicalCid::new`: trim, and refuse what is then empty. */
  function NewCid(raw: Str): (r: Option<Cid>)
    ensures r.Some? <==> Trim(raw) != []
    ensures r.Some? ==> r.value == Trim(raw)
  {
    TrimStartIsUtf8(raw);
    TrimEndIsUtf8(TrimStart(raw));
    if Trim(raw) == [] then None else Some(Trim(raw))
  }

  /** What `NewCid` accepts is a fixed point of it. */
  lemma NewCidIsCanonical(raw: Str)
    requires NewCid(raw).Some?
    ensures NewCid(NewCid(raw).value) == NewCid(raw)
  {
    TrimIdempotent(raw);
  }

  lemma {:induction false} TrimStartStops(s: Bytes)
    ensures SpacePrefix(TrimStart(s)) == 0
  {
    if SpacePrefix(s) > 0 {
      TrimStartStops(s[SpacePrefix(s)..]);
    }
  }

  lemma {:induction false} TrimEndStops(s: Bytes)
    ensures SpaceSuffix(TrimEnd(s)) == 0
  {
    if SpaceSuffix(s) > 0 {
      TrimEndStops(s[..|s| - SpaceSuffix(s)]);
    }
  }

  lemma NoSpaceInPrefix(a: Bytes, n: nat)
    requires n <= |a| && SpacePrefix(a) == 0
    ensures SpacePrefix(a[..n]) == 0
  {
    hide IsSpace;
    assert forall k :: 0 <= k <= n ==> a[..n][..k] == a[..k];
  }

  lemma TrimIdempotent(s: Bytes)
    ensures Trim(Trim(s)) == Trim(s)
  {
    hide SpacePrefix, SpaceSuffix;
    var a := TrimStart(s);
    var b := TrimEnd(a);
    TrimStartStops(s);
    NoSpaceInPrefix(a, |b|);
    TrimEndStops(a);
    assert TrimStart(b) == b;
    assert TrimEnd(b) == b;
  }

  /** Nothing but white-space characters, one after the other. */
  ghost predicate White(s: Bytes) {
    s == [] || exists k :: 1 <= k <= |s| && IsSpace(s[..k]) && White(s[k..])
  }

  lemma {:induction false} WhiteAppend(a: Bytes, b: Bytes)
    requires White(a) && White(b)
    ensures White(a + b)
    decreases |a|
  {
    hide IsSpace;
    if a == [] {
      assert a + b == b;
    } else {
      var k :| 1 <= k <= |a| && IsSpace(a[..k]) && White(a[k..]);
      WhiteAppend(a[k..], b);
      assert (a + b)[..k] == a[..k] && (a + b)[k..] == a[k..] + b;
    }
  }

  lemma OneSpaceIsWhite(c: Bytes)
    requires IsSpace(c)
    ensures White(c)
  {
    hide IsSpace;
    assert |c| >= 1 by {
      SpaceStartsCharacter(c);
    }
    assert c[..|c|] == c && White(c[|c|..]);
  }

  lemma PrefixIsSpace(s: Bytes)
    ensures SpacePrefix(s) > 0 ==> IsSpace(s[..SpacePrefix(s)])
  {
    hide IsSpace;
  }

  lemma SuffixIsSpace(s: Bytes)
    ensures SpaceSuffix(s) > 0 ==> IsSpace(s[|s| - SpaceSuffix(s)..])
  {
    hide IsSpace;
  }

  lemma TrimStartStep(s: Bytes)
    ensures TrimStart(s) == if SpacePrefix(s) > 0 then TrimStart(s[SpacePrefix(s)..]) else s
  {
    hide SpacePrefix;
  }

  lemma {:induction false} TrimStartRemoves(s: Bytes) returns (a: Bytes)
    ensures White(a) && s == a + TrimStart(s)
  {
    TrimStartStep(s);
    hide SpacePrefix, White, IsSpace, TrimStart;
    var n := SpacePrefix(s);
    if n == 0 {
      a := [];
      NothingIsWhite();
    } else {
      var rest := TrimStartRemoves(s[n..]);
      PrefixIsSpace(s);
      OneSpaceIsWhite(s[..n]);
      WhiteAppend(s[..n], rest);
      a := s[..n] + rest;
      assert s == s[..n] + s[n..];
      Concat3(s[..n], rest, TrimStart(s[n..]));
    }
  }

  lemma NothingIsWhite()
    ensures White([])
  {
  }

  lemma {:induction false} TrimEndRemoves(s: Bytes) returns (b: Bytes)
    ensures White(b) && s == TrimEnd(s) + b
  {
    hide SpaceSuffix, White;
    var n := SpaceSuffix(s);
    if n == 0 {
      b := [];
      NothingIsWhite();
    } else {
      var init := s[..|s| - n];
      var rest := TrimEndRemoves(init);
      SuffixIsSpace(s);
      OneSpaceIsWhite(s[|s| - n..]);
      WhiteAppend(rest, s[|s| - n..]);
      b := rest + s[|s| - n..];
      assert TrimEnd(s) == TrimEnd(init) && s == init + s[|s| - n..];
      hide IsSpace, TrimEnd;
      Concat3(TrimEnd(init), rest, s[|s| - n..]);
    }
  }

  /** No white-space character starts the text, and none ends it. */
  ghost predicate Bare(s: Bytes) {
    forall k :: 1 <= k <= |s| ==> !IsSpace(s[..k]) && !IsSpace(s[|s| - k..])
  }

  lemma BareExactly(s: Bytes)
    ensures Bare(s) <==> SpacePrefix(s) == 0 && SpaceSuffix(s) == 0
  {
    assert forall c :: IsSpace(c) ==> 1 <= |c| <= 3;
    hide IsSpace;
  }

  /** What trimming is: only white space is taken away, at both ends, and all of it that is there. */
  lemma TrimMeaning(s: Bytes) returns (a: Bytes, b: Bytes)
    ensures White(a) && White(b) && s == a + Trim(s) + b
    ensures Bare(Trim(s))
  {
    hide White, Bare, IsSpace, SpacePrefix, SpaceSuffix, TrimStart, TrimEnd;
    a := TrimStartRemoves(s);
    b := TrimEndRemoves(TrimStart(s));
    Concat3(a, Trim(s), b);
    TrimStartStops(s);
    TrimEndStops(TrimStart(s));
    NoSpaceInPrefix(TrimStart(s), |Trim(s)|);
    BareExactly(Trim(s));
  }

  // ---- lines ----

  const NEWLINE: Byte := 0x0A
  const CR: Byte := 0x0D

  /** Index of the first newline, or `|s|`. */
  function FirstNewline(s: Bytes): (i: nat)
    ensures i <= |s|
    ensures i < |s| ==> s[i] == NEWLINE
    ensures forall k :: 0 <= k < i ==> s[k] != NEWLINE
  {
    if s == [] || s[0] == NEWLINE then 0
    else
      FirstNewline(s[1..]) + 1
  }

  function StripCr(line: Bytes): (r: Bytes) {
    if line != [] && line[|line| - 1] == CR then line[..|line| - 1] else line
  }

  /** `str::lines`: the terminating "\n" or "\r\n" is dropped; a last line needs no terminator. */
  function Lines(s: Bytes): (r: seq<Bytes>) {
    if s == [] then []
    else
      var i := FirstNewline(s);
      if i == |s| then [s] else [StripCr(s[..i])] + Lines(s[i + 1..])
  }

  /** The trimmed, non-empty lines, in order: what both readers of text files keep. */
  function Records(lines: seq<Bytes>): (r: seq<Bytes>) {
    if lines == [] then []
    else
      var t := Trim(lines[|lines| - 1]);
      Records(lines[..|lines| - 1]) + (if t == [] then [] else [t])
  }

  lemma {:induction false} RecordsMeaning(lines: seq<Bytes>, p: Bytes)
    ensures p in Records(lines) <==> p != [] && exists i :: 0 <= i < |lines| && Trim(lines[i]) == p
  {
    hide Trim;
    if lines == [] {
    } else {
      var n := |lines| - 1;
      RecordsMeaning(lines[..n], p);
      assert forall i :: 0 <= i < n ==> lines[..n][i] == lines[i];
    }
  }

  predicate OneLine(s: Bytes) {
    forall k :: 0 <= k < |s| ==> s[k] != NEWLINE
  }

  predicate EndsLine(s: Bytes) {
    s == [] || s[|s| - 1] == NEWLINE
  }

  /** The part of a text after its last newline. */
  function Unterminated(s: Bytes): (p: Bytes)
    ensures |p| <= |s| && p == s[|s| - |p|..]
    ensures OneLine(p)
    ensures EndsLine(s[..|s| - |p|])
  {
    if EndsLine(s) then [] else Unterminated(s[..|s| - 1]) + [s[|s| - 1]]
  }

  function Terminated(s: Bytes): (t: Bytes)
    ensures EndsLine(t) && s == t + Unterminated(s)
  {
    s[..|s| - |Unterminated(s)|]
  }

  lemma {:induction false} RecordsAppend(a: seq<Bytes>, b: seq<Bytes>)
    ensures Records(a + b) == Records(a) + Records(b)
  {
    hide Trim;
    if b == [] {
      assert a + b == a;
    } else {
      RecordsAppend(a, b[..|b| - 1]);
      assert (a + b)[..|a + b| - 1] == a + b[..|b| - 1];
    }
  }

  lemma FirstNewlineAt(s: Bytes, i: nat)
    requires i <= |s| && (forall k :: 0 <= k < i ==> s[k] != NEWLINE) && (i < |s| ==> s[i] == NEWLINE)
    ensures FirstNewline(s) == i
  {
  }

  lemma LinesStep(first: Bytes, rest: Bytes)
    requires OneLine(first)
    ensures Lines(first + [NEWLINE] + rest) == [StripCr(first)] + Lines(rest)
  {
    hide StripCr;
    var s := first + [NEWLINE] + rest;
    assert s[..|first|] == first;
    FirstNewlineAt(s, |first|);
    assert s[|first| + 1..] == rest;
  }

  lemma {:induction false} LinesAppend(t: Bytes, x: Bytes)
    requires EndsLine(t)
    ensures Lines(t + x) == Lines(t) + Lines(x)
  {
    hide Lines, StripCr;
    if t == [] {
      NoLines();
      assert t + x == x;
    } else {
      var i := FirstNewline(t);
      assert t[..|t|] == t;
      var first, rest := t[..i], t[i + 1..];
      assert Lines(t + x) == [StripCr(first)] + Lines(rest + x) by {
        assert t + x == first + [NEWLINE] + (rest + x);
        LinesStep(first, rest + x);
      }
      assert Lines(t) == [StripCr(first)] + Lines(rest) by {
        assert t == first + [NEWLINE] + rest;
        LinesStep(first, rest);
      }
      LinesAppend(rest, x);
    }
  }

  lemma NoLines()
    ensures Lines([]) == []
  {
  }

  lemma LinesOfLine(p: Bytes)
    requires OneLine(p)
    ensures Lines(p) == if p == [] then [] else [p]
  {
    FirstNewlineAt(p, |p|);
  }

  lemma LinesOfText(s: Bytes)
    ensures Lines(s) == Lines(Terminated(s)) + (if Unterminated(s) == [] then [] else [Unterminated(s)])
  {
    hide Terminated, Unterminated, Lines, OneLine;
    LinesAppend(Terminated(s), Unterminated(s));
    LinesOfLine(Unterminated(s));
  }

  lemma LinesOfParts(t: Bytes, line: Bytes)
    requires EndsLine(t) && OneLine(line)
    ensures Lines(t + line + [NEWLINE]) == Lines(t) + [StripCr(line)]
  {
    NoLines();
    hide StripCr, Lines, OneLine, EndsLine;
    Concat3(t, line, [NEWLINE]);
    LinesAppend(t, line + [NEWLINE]);
    assert line + [NEWLINE] + [] == line + [NEWLINE];
    LinesStep(line, []);
  }

  /** Writing one more terminated line completes the unterminated rest. */
  lemma LinesAfterWrite(s: Bytes, line: Bytes)
    requires OneLine(line)
    ensures Lines(s + line + [NEWLINE]) == Lines(Terminated(s)) + [StripCr(Unterminated(s) + line)]
  {
    var t, p := Terminated(s), Unterminated(s);
    assert s == t + p && EndsLine(t) && OneLine(p + line);
    hide StripCr, Lines, Terminated, Unterminated, OneLine, EndsLine;
    Concat3(t, p, line);
    LinesOfParts(t, p + line);
  }

  /** `str::lines`, case by case: a line ends at a newline, which is dropped with a carriage return before it; what
      follows the last newline is a line if there is anything, with whatever it ends in. */
  lemma LinesMeaning(line: Bytes, rest: Bytes)
    requires 0x0A !in line
    ensures Lines([]) == [] && (line != [] ==> Lines(line) == [line])
    ensures Lines(line + [0x0D, 0x0A] + rest) == [line] + Lines(rest)
    ensures line == [] || line[|line| - 1] != 0x0D ==> Lines(line + [0x0A] + rest) == [line] + Lines(rest)
  {
    NoLines();
    hide Lines;
    LinesOfLine(line);
    LinesStep(line, rest);
    LinesStep(line + [0x0D], rest);
    assert line + [0x0D] + [0x0A] + rest == line + [0x0D, 0x0A] + rest;
    assert StripCr(line + [0x0D]) == line;
    hide StripCr;
  }
}
