/**
 Header lines and header blocks: the two prefix matchers that share a line, against an independent reading of the
 lines.
 */
module HttpHeaders {
  import opened Http
  import opened HttpFormat
  import opened Numerals

  // ---------------------------------------------------------------- one header line

  /** What the two matchers make of a line. */
  datatype Match = Partial(cl: nat, te: nat) | IsLength(rest: string) | IsChunked | Neither

  function MatchLine(cl: nat, te: nat, line: string): Match
    requires cl < |CONTENT_LENGTH| && te < |CHUNKED|
    decreases |line|
  {
    if line == "" then Partial(cl, te)
    else if CONTENT_LENGTH[cl] == line[0] then
      if cl + 1 == |CONTENT_LENGTH| then IsLength(line[1..]) else MatchLine(cl + 1, te, line[1..])
    else if CHUNKED[te] == line[0] then
      if te + 1 == |CHUNKED| then IsChunked else MatchLine(cl, te + 1, line[1..])
    else Neither
  }

  function AddDigits(length: int, s: string): int
    decreases |s|
  {
    if s == "" || !IsDigit(s[0]) then length else AddDigits(AddDigit(length, s[0]), s[1..])
  }

  predicate PlainLine(line: string) {
    line != "" && '\r' !in line && '\n' !in line
  }

  predicate AtLineStart(r: Reader) {
    r.state == StatusCodeRead && r.cl == 0 && r.te == 0
  }

  function AtStart(r: Reader): Reader {
    r.(state := StatusCodeRead, cl := 0, te := 0)
  }

  lemma PrefixesHaveNoLineEnd(cl: nat, te: nat)
    requires cl < |CONTENT_LENGTH| && te < |CHUNKED|
    ensures CONTENT_LENGTH[cl] != '\r' && CHUNKED[te] != '\r' && CONTENT_LENGTH[cl] != '\n' && CHUNKED[te] != '\n'
  {
    assert '\r' !in CONTENT_LENGTH && '\r' !in CHUNKED && '\n' !in CONTENT_LENGTH && '\n' !in CHUNKED;
  }

  /** The rest of a line that is of no interest. */
  lemma {:induction false} SkipLine(r: Reader, line: string)
    requires r.state == SkipToEndOfHeader && OneLine(line)
    ensures FeedAll(r, line + CRLF) == (AtStart(r), "")
    decreases |line|
  {
    var s := line + CRLF;
    FeedSilent(r, s, FeedHeader(r, s[0]), s[1..]);
    if line == "" {
      FeedSilent(r, s[1..], FeedHeader(r, s[1]), s[1..][1..]);
      assert s[1..][1..] == "";
    } else {
      assert s[1..] == line[1..] + CRLF;
      SkipLine(r, line[1..]);
    }
  }

  lemma {:induction false} DigitsLine(r: Reader, line: string)
    requires r.state == ReadingContentLength && OneLine(line)
    ensures FeedAll(r, line + CRLF) == (AtStart(r).(contentLength := AddDigits(r.contentLength, line)), "")
    decreases |line|
  {
    var s := line + CRLF;
    FeedSilent(r, s, FeedHeader(r, s[0]), s[1..]);
    if line == "" {
      var r1 := r.(state := SkipToEndOfHeader);
      FeedSilent(r1, s[1..], FeedHeader(r1, s[1]), s[1..][1..]);
      assert s[1..][1..] == "";
    } else {
      assert s[1..] == line[1..] + CRLF;
      if IsDigit(line[0]) {
        DigitsLine(FeedHeader(r, line[0]), line[1..]);
      } else {
        SkipLine(FeedHeader(r, line[0]), line[1..]);
      }
    }
  }

  function AfterMatch(r: Reader, m: Match): Reader {
    match m
    case IsLength(rest) => AtStart(r).(contentLength := AddDigits(0, rest), consumed := 0)
    case IsChunked => AtStart(r).(chunked := true)
    case _ => AtStart(r)
  }

  /** One octet of a line moves the reader and the match in step. */
  lemma MatchStep(r: Reader, line: string)
    requires r.state == StatusCodeRead && Matching(r) && line != "" && '\r' !in line && '\n' !in line
    ensures var r1, m := FeedHeader(r, line[0]), MatchLine(r.cl, r.te, line);
      match r1.state
      case StatusCodeRead =>
        r1 == r.(cl := r1.cl, te := r1.te) && r1.cl + r1.te > 0 && m == MatchLine(r1.cl, r1.te, line[1..])
      case ReadingContentLength =>
        AtStart(r1) == AtStart(r).(contentLength := 0, consumed := 0) && m == IsLength(line[1..])
      case SkipToEndOfHeader => AtStart(r1) == AfterMatch(r, m)
      case _ => false
  {
    hide CONTENT_LENGTH, CHUNKED;
  }

  lemma {:induction false} MatchingLine(r: Reader, line: string)
    requires r.state == StatusCodeRead && Matching(r) && '\r' !in line && '\n' !in line
    requires r.cl + r.te + |line| > 0
    ensures FeedAll(r, line + CRLF) == (AfterMatch(r, MatchLine(r.cl, r.te, line)), "")
    decreases |line|
  {
    var s := line + CRLF;
    FeedSilent(r, s, FeedHeader(r, s[0]), s[1..]);
    var r1 := FeedHeader(r, s[0]);
    if line == "" {
      PrefixesHaveNoLineEnd(r.cl, r.te);
      FeedSilent(r1, s[1..], FeedHeader(r1, s[1]), s[1..][1..]);
      assert s[1..][1..] == "";
    } else {
      assert s[1..] == line[1..] + CRLF && s[0] == line[0];
      MatchStep(r, line);
      match r1.state {
        case StatusCodeRead => MatchingLine(r1, line[1..]);
        case ReadingContentLength => DigitsLine(r1, line[1..]);
        case SkipToEndOfHeader => SkipLine(r1, line[1..]);
      }
    }
  }

  // ---------------------------------------------------------------- header blocks

  /** What the reader keeps from a header block. */
  datatype Headers = Headers(contentLength: int, chunked: bool)

  function AfterLine(h: Headers, line: string): Headers {
    match MatchLine(0, 0, line)
    case IsLength(rest) => h.(contentLength := AddDigits(0, rest))
    case IsChunked => h.(chunked := true)
    case _ => h
  }

  function AfterLines(h: Headers, lines: seq<string>): Headers
    decreases |lines|
  {
    if lines == [] then h else AfterLines(AfterLine(h, lines[0]), lines[1..])
  }

  function HeadersOf(r: Reader): Headers {
    Headers(r.contentLength, r.chunked)
  }

  /** The header lines, then the empty line. */
  function Block(lines: seq<string>): string {
    Lines(lines) + CRLF
  }

  lemma LineRead(r: Reader, line: string)
    requires AtLineStart(r) && PlainLine(line)
    ensures var (r', out) := FeedAll(r, line + CRLF);
      out == "" && AtLineStart(r') && HeadersOf(r') == AfterLine(HeadersOf(r), line)
  {
    MatchingLine(r, line);
  }

  lemma BlankLineRead(r: Reader)
    requires AtLineStart(r)
    ensures var (r', out) := FeedAll(r, CRLF);
      && out == "" && HeadersOf(r') == HeadersOf(r)
      && (if r.chunked then AtSize(r') else r'.state == ReadingBody)
  {
    var r1 := FeedHeader(r, '\r');
    assert CONTENT_LENGTH[0] == 'C' && CHUNKED[0] == 'T';
    assert CRLF[1..] == "\n" && "\n"[1..] == "";
    FeedSilent(r, CRLF, r1, "\n");
    FeedSilent(r1, "\n", FeedHeader(r1, '\n'), "");
  }

  lemma {:induction false} LinesRead(r: Reader, lines: seq<string>)
    requires AtLineStart(r) && forall i :: 0 <= i < |lines| ==> PlainLine(lines[i])
    ensures var (r', out) := FeedAll(r, Lines(lines));
      out == "" && AtLineStart(r') && HeadersOf(r') == AfterLines(HeadersOf(r), lines)
    decreases |lines|
  {
    hide Feed, FeedAll, AfterLine;
    if lines == [] {
      FedNothing(r, "");
      assert FeedAll(r, Lines(lines)) == (r, "") by { EmptyFeed(r); }
    } else {
      LineRead(r, lines[0]);
      var r1 := FeedAll(r, lines[0] + CRLF).0;
      LinesRead(r1, lines[1..]);
      FeedAllConcat(r, lines[0] + CRLF, Lines(lines[1..]));
    }
  }

  lemma EmptyFeed(r: Reader)
    requires Matching(r)
    ensures FeedAll(r, "") == (r, "")
  {
  }

  /** The parser reaches the body just after the blank line, with the headers folded line by line. */
  lemma {:induction false} BlockRead(r: Reader, lines: seq<string>)
    requires AtLineStart(r) && forall i :: 0 <= i < |lines| ==> PlainLine(lines[i])
    ensures var (r', out) := FeedAll(r, Block(lines));
      && out == "" && HeadersOf(r') == AfterLines(HeadersOf(r), lines)
      && (if r'.chunked then AtSize(r') else r'.state == ReadingBody)
  {
    hide Feed, FeedAll;
    LinesRead(r, lines);
    BlankLineRead(FeedAll(r, Lines(lines)).0);
    FeedAllConcat(r, Lines(lines), CRLF);
  }

  // ---------------------------------------------------------------- an independent reading of the lines

  predicate StartsWith(line: string, prefix: string) {
    |prefix| <= |line| && line[..|prefix|] == prefix
  }

  function Digits(s: string): string
    decreases |s|
  {
    if s == "" || !IsDigit(s[0]) then "" else [s[0]] + Digits(s[1..])
  }

  /** The decimal number a string of digits spells, last digit first. */
  function Decimal(s: string): nat {
    if s == "" then 0
    else Decimal(s[..|s| - 1]) * 10 + (if IsDigit(s[|s| - 1]) then DigitValue(s[|s| - 1]) else 0)
  }

  function LengthValue(line: string): nat
    requires StartsWith(line, CONTENT_LENGTH)
  {
    Decimal(Digits(line[|CONTENT_LENGTH|..]))
  }

  /** The value of the last Content-Length line, or -1. */
  function LastLength(lines: seq<string>): int {
    if lines == [] then NO_CONTENT_LENGTH
    else
      var line := lines[|lines| - 1];
      if StartsWith(line, CONTENT_LENGTH) then LengthValue(line) else LastLength(lines[..|lines| - 1])
  }

  predicate AnyChunked(lines: seq<string>) {
    exists i :: 0 <= i < |lines| && StartsWith(lines[i], CHUNKED)
  }

  lemma {:induction false} AddDigitsIsDecimal(acc: string, s: string)
    requires forall i :: 0 <= i < |acc| ==> IsDigit(acc[i])
    requires Decimal(acc) < INT_LIMIT
    ensures Decimal(acc + Digits(s)) < INT_LIMIT ==> AddDigits(Decimal(acc), s) == Decimal(acc + Digits(s))
    decreases |s|
  {
    if s == "" || !IsDigit(s[0]) {
      assert acc + Digits(s) == acc;
    } else {
      var acc' := acc + [s[0]];
      assert acc'[..|acc|] == acc;
      assert acc + Digits(s) == acc' + Digits(s[1..]);
      DecimalGrows(acc', Digits(s[1..]));
      if Decimal(acc') < INT_LIMIT {
        assert AddDigit(Decimal(acc), s[0]) == Decimal(acc');
        AddDigitsIsDecimal(acc', s[1..]);
      }
    }
  }

  lemma {:induction false} DecimalGrows(s: string, t: string)
    ensures Decimal(s) <= Decimal(s + t)
    decreases |t|
  {
    if t == "" {
      assert s + t == s;
    } else {
      var k := |t| - 1;
      assert (s + t)[..|s + t| - 1] == s + t[..k];
      DecimalGrows(s, t[..k]);
    }
  }

  lemma {:induction false} AddDigitsInRange(length: int, s: string)
    requires -INT_LIMIT <= length < INT_LIMIT
    ensures -INT_LIMIT <= AddDigits(length, s) < INT_LIMIT
    decreases |s|
  {
    if s != "" && IsDigit(s[0]) {
      AddDigitsInRange(AddDigit(length, s[0]), s[1..]);
    }
  }

  /** The value read is the decimal value exactly when that fits a 32-bit long. */
  lemma LengthExact(rest: string)
    ensures AddDigits(0, rest) == Decimal(Digits(rest)) <==> Decimal(Digits(rest)) < INT_LIMIT
  {
    AddDigitsIsDecimal("", rest);
    assert "" + Digits(rest) == Digits(rest);
    AddDigitsInRange(0, rest);
  }

  lemma StartsTail(line: string, p: string, x: nat)
    requires x < |p| && StartsWith(line, p[x..])
    ensures line != "" && line[0] == p[x]
    ensures StartsWith(line[1..], p[x + 1..])
  {
    var q := p[x..];
    assert line[0] == line[..|q|][0];
    assert line[1..][..|q| - 1] == line[..|q|][1..];
  }

  /** Once the rest of the Content-Length prefix follows, that matcher completes wherever the other one stands. */
  lemma {:induction false} LengthPrefixMatches(cl: nat, te: nat, line: string)
    requires cl < |CONTENT_LENGTH| && te < |CHUNKED| && StartsWith(line, CONTENT_LENGTH[cl..])
    ensures MatchLine(cl, te, line) == IsLength(line[|CONTENT_LENGTH| - cl..])
    decreases |CONTENT_LENGTH| - cl
  {
    hide CONTENT_LENGTH, CHUNKED;
    StartsTail(line, CONTENT_LENGTH, cl);
    if cl + 1 < |CONTENT_LENGTH| {
      LengthPrefixMatches(cl + 1, te, line[1..]);
    }
  }

  lemma ChunkedHasNoC(te: nat)
    requires te < |CHUNKED|
    ensures CONTENT_LENGTH[0] != CHUNKED[te]
  {
    assert 'C' !in CHUNKED;
    assert CONTENT_LENGTH[0] == 'C';
  }

  lemma {:induction false} ChunkedPrefixMatches(te: nat, line: string)
    requires te < |CHUNKED| && StartsWith(line, CHUNKED[te..])
    ensures MatchLine(0, te, line) == IsChunked
    decreases |CHUNKED| - te
  {
    ChunkedHasNoC(te);
    hide CONTENT_LENGTH, CHUNKED;
    StartsTail(line, CHUNKED, te);
    if te + 1 < |CHUNKED| {
      ChunkedPrefixMatches(te + 1, line[1..]);
    }
  }

  lemma StartsNothing(line: string, p: string)
    ensures StartsWith(line, p[|p|..])
  {
    assert p[|p|..] == "" && line[..0] == "";
  }

  /** A character that is next, and the rest of the prefix behind it. */
  lemma StartsCons(line: string, p: string, x: nat)
    requires line != "" && x < |p| && line[0] == p[x] && StartsWith(line[1..], p[x + 1..])
    ensures StartsWith(line, p[x..])
  {
    assert p[x..] == [p[x]] + p[x + 1..];
    assert line == [line[0]] + line[1..];
  }

  lemma {:induction false} WithoutT(cl: nat, line: string)
    requires cl < |CONTENT_LENGTH| && 'T' !in line
    ensures var m := MatchLine(cl, 0, line); !m.IsChunked? && (m.IsLength? ==> StartsWith(line, CONTENT_LENGTH[cl..]))
    decreases |line|
  {
    assert CHUNKED[0] == 'T';
    hide CONTENT_LENGTH, CHUNKED, StartsWith;
    if line != "" && CONTENT_LENGTH[cl] == line[0] {
      if cl + 1 < |CONTENT_LENGTH| {
        WithoutT(cl + 1, line[1..]);
      } else {
        StartsNothing(line[1..], CONTENT_LENGTH);
      }
      if MatchLine(cl, 0, line).IsLength? {
        StartsCons(line, CONTENT_LENGTH, cl);
      }
    }
  }

  lemma {:induction false} WithoutC(te: nat, line: string)
    requires te < |CHUNKED| && 'C' !in line
    ensures var m := MatchLine(0, te, line); !m.IsLength? && (m.IsChunked? ==> StartsWith(line, CHUNKED[te..]))
    decreases |line|
  {
    assert CONTENT_LENGTH[0] == 'C';
    hide CONTENT_LENGTH, CHUNKED, StartsWith;
    if line != "" && CHUNKED[te] == line[0] {
      if te + 1 < |CHUNKED| {
        WithoutC(te + 1, line[1..]);
      } else {
        StartsNothing(line[1..], CHUNKED);
      }
      if MatchLine(0, te, line).IsChunked? {
        StartsCons(line, CHUNKED, te);
      }
    }
  }

  // ---------------------------------------------------------------- mixed lines

  /** The first |b| characters of a line are dealt out to two matchers; what one of them is given. */
  function Given(line: string, b: seq<bool>, which: bool): (s: string)
    requires |b| <= |line|
    ensures |s| <= |b|
    decreases |b|
  {
    if b == [] then "" else (if b[0] == which then [line[0]] else "") + Given(line[1..], b[1..], which)
  }

  /** s is the beginning of p, but not all of it. */
  predicate Begins(s: string, p: string) {
    |s| < |p| && s == p[..|s|]
  }

  predicate CannotTake(cl: nat, c: char) {
    cl < |CONTENT_LENGTH| && CONTENT_LENGTH[cl] != c
  }

  /**
   One matcher is given the rest of its prefix, from place cl or te on, and the other one a beginning of its own;
   `which` is the Transfer-Encoding matcher.
   */
  predicate Dealt(cl: nat, te: nat, line: string, b: seq<bool>, which: bool)
    requires cl < |CONTENT_LENGTH| && te < |CHUNKED| && |b| <= |line|
  {
    if which
    then Given(line, b, true) == CHUNKED[te..] && Begins(Given(line, b, false), CONTENT_LENGTH[cl..])
    else Given(line, b, false) == CONTENT_LENGTH[cl..] && Begins(Given(line, b, true), CHUNKED[te..])
  }

  /** The Transfer-Encoding matcher is only given what is not the next character of the other prefix. */
  predicate InTurn(cl: nat, line: string, b: seq<bool>)
    requires |b| <= |line|
  {
    forall i :: 0 <= i < |b| && b[i] ==> CannotTake(cl + |Given(line, b[..i], false)|, line[i])
  }

  /**
   From places cl and te of the prefixes on, the line begins with a mixture of the two that completes one of them with
   its last character.
   */
  predicate Woven(cl: nat, te: nat, line: string, b: seq<bool>, which: bool)
    requires cl < |CONTENT_LENGTH| && te < |CHUNKED|
  {
    0 < |b| <= |line| && b[|b| - 1] == which && Dealt(cl, te, line, b, which) && InTurn(cl, line, b)
  }

  /** The line begins with a mixture of characters of both prefixes that completes one of them. */
  ghost predicate Interleaved(line: string) {
    exists b: seq<bool>, which: bool :: Woven(0, 0, line, b, which) && true in b && false in b
  }

  lemma {:induction false} GivenLast(line: string, b: seq<bool>)
    requires 0 < |b| <= |line|
    ensures |Given(line, b, b[|b| - 1])| > 0
    decreases |b|
  {
    if |b| > 1 {
      GivenLast(line[1..], b[1..]);
    }
  }

  /** How the first of the characters moves the mixture on. */
  lemma GivenPrefix(line: string, b: seq<bool>, i: nat)
    requires 0 < i <= |b| <= |line|
    ensures |Given(line, b[..i], false)| == (if b[0] then 0 else 1) + |Given(line[1..], b[1..][..i - 1], false)|
  {
    assert b[..i][1..] == b[1..][..i - 1];
  }

  /** The turn of the i-th character, counted from the first one or from the second. */
  lemma SameTurn(cl: nat, line: string, b: seq<bool>, i: nat)
    requires 0 < i < |b| <= |line|
    ensures CannotTake(cl + |Given(line, b[..i], false)|, line[i]) <==>
      CannotTake((if b[0] then cl else cl + 1) + |Given(line[1..], b[1..][..i - 1], false)|, line[1..][i - 1])
  {
    GivenPrefix(line, b, i);
  }

  lemma InTurnTail(cl: nat, line: string, b: seq<bool>)
    requires 0 < |b| <= |line| && InTurn(cl, line, b)
    ensures b[0] ==> CannotTake(cl, line[0])
    ensures InTurn(if b[0] then cl else cl + 1, line[1..], b[1..])
  {
    assert b[0] ==> CannotTake(cl + |Given(line, b[..0], false)|, line[0]);
    assert b[..0] == [] && Given(line, b[..0], false) == "";
    hide CannotTake, Given;
    var cl', line', b' := if b[0] then cl else cl + 1, line[1..], b[1..];
    forall i | 0 <= i < |b'| && b'[i]
      ensures CannotTake(cl' + |Given(line', b'[..i], false)|, line'[i])
    {
      TurnInTail(cl, line, b, i);
    }
  }

  lemma TurnInTail(cl: nat, line: string, b: seq<bool>, i: nat)
    requires i + 1 < |b| <= |line| && b[i + 1] && InTurn(cl, line, b)
    ensures CannotTake((if b[0] then cl else cl + 1) + |Given(line[1..], b[1..][..i], false)|, line[1..][i])
  {
    SameTurn(cl, line, b, i + 1);
    hide CannotTake, Given;
  }

  lemma InTurnCons(cl: nat, line: string, b: seq<bool>)
    requires 0 < |b| <= |line| && (b[0] ==> CannotTake(cl, line[0]))
    requires InTurn(if b[0] then cl else cl + 1, line[1..], b[1..])
    ensures InTurn(cl, line, b)
  {
    assert b[..0] == [] && Given(line, b[..0], false) == "";
    hide CannotTake, Given;
    forall i | 0 <= i < |b| && b[i]
      ensures CannotTake(cl + |Given(line, b[..i], false)|, line[i])
    {
      if i > 0 {
        assert b[1..][i - 1];
        SameTurn(cl, line, b, i);
      }
    }
  }

  lemma BeginsCons(c: char, s: string, p: string, x: nat)
    requires x < |p|
    ensures Begins([c] + s, p[x..]) <==> x + 1 < |p| && p[x] == c && Begins(s, p[x + 1..])
    ensures [c] + s == p[x..] <==> p[x] == c && s == p[x + 1..]
  {
    assert p[x..] == [p[x]] + p[x + 1..];
    if Begins([c] + s, p[x..]) {
      assert p[x..][..|s| + 1] == [p[x]] + p[x + 1..][..|s|];
      assert ([c] + s)[1..] == s;
    }
    if x + 1 < |p| && p[x] == c && Begins(s, p[x + 1..]) {
      assert p[x..][..|s| + 1] == [p[x]] + p[x + 1..][..|s|];
    }
    if [c] + s == p[x..] {
      assert ([c] + s)[1..] == s && p[x..][1..] == p[x + 1..];
    }
  }

  /** How the first of the characters is dealt out. */
  lemma DealtTail(cl: nat, te: nat, line: string, b: seq<bool>, which: bool)
    requires cl < |CONTENT_LENGTH| && te < |CHUNKED| && 0 < |b| <= |line|
    requires |b| > 1 ==> b[|b| - 1] == which
    ensures |b| > 1 ==> var (cl', te') := (if b[0] then cl else cl + 1, if b[0] then te + 1 else te);
      Dealt(cl, te, line, b, which) <==>
        && (if b[0] then CHUNKED[te] == line[0] else CONTENT_LENGTH[cl] == line[0])
        && cl' < |CONTENT_LENGTH| && te' < |CHUNKED| && Dealt(cl', te', line[1..], b[1..], which)
    ensures |b| == 1 && b[0] == which ==>
      (Dealt(cl, te, line, b, which) <==>
        if which then te + 1 == |CHUNKED| && CHUNKED[te] == line[0]
        else cl + 1 == |CONTENT_LENGTH| && CONTENT_LENGTH[cl] == line[0])
  {
    hide CONTENT_LENGTH, CHUNKED, Begins;
    var s := Given(line[1..], b[1..], b[0]);
    assert Given(line, b, b[0]) == [line[0]] + s && Given(line, b, !b[0]) == Given(line[1..], b[1..], !b[0]);
    if b[0] {
      BeginsCons(line[0], s, CHUNKED, te);
    } else {
      BeginsCons(line[0], s, CONTENT_LENGTH, cl);
    }
    if |b| > 1 {
      GivenLast(line[1..], b[1..]);
    } else {
      BeginsNothing(CONTENT_LENGTH[cl..]);
      BeginsNothing(CHUNKED[te..]);
    }
  }

  lemma BeginsNothing(p: string)
    requires p != ""
    ensures Begins("", p)
  {
  }

  /** The mixture without its first character. */
  lemma WovenTail(cl: nat, te: nat, line: string, b: seq<bool>, which: bool)
    requires cl < |CONTENT_LENGTH| && te < |CHUNKED| && Woven(cl, te, line, b, which)
    ensures b[0] ==> CHUNKED[te] == line[0] && CONTENT_LENGTH[cl] != line[0]
    ensures !b[0] ==> CONTENT_LENGTH[cl] == line[0]
    ensures |b| == 1 ==> (if which then te + 1 == |CHUNKED| else cl + 1 == |CONTENT_LENGTH|)
    ensures |b| > 1 ==>
      var (cl', te') := (if b[0] then cl else cl + 1, if b[0] then te + 1 else te);
      cl' < |CONTENT_LENGTH| && te' < |CHUNKED| && Woven(cl', te', line[1..], b[1..], which)
  {
    hide CONTENT_LENGTH, CHUNKED, Dealt, InTurn, Given;
    InTurnTail(cl, line, b);
    DealtTail(cl, te, line, b, which);
  }

  /** A mixture completes the matcher it is made for. */
  lemma {:induction false} WovenMatches(cl: nat, te: nat, line: string, b: seq<bool>, which: bool)
    requires cl < |CONTENT_LENGTH| && te < |CHUNKED| && Woven(cl, te, line, b, which)
    ensures MatchLine(cl, te, line) == if which then IsChunked else IsLength(line[|b|..])
    decreases |b|
  {
    hide CONTENT_LENGTH, CHUNKED;
    WovenTail(cl, te, line, b, which);
    if |b| > 1 {
      WovenMatches(if b[0] then cl else cl + 1, if b[0] then te + 1 else te, line[1..], b[1..], which);
      assert line[1..][|b| - 1..] == line[|b|..];
    }
  }

  lemma WovenOne(cl: nat, te: nat, line: string, which: bool)
    requires cl < |CONTENT_LENGTH| && te < |CHUNKED| && line != ""
    requires if which then te + 1 == |CHUNKED| && CHUNKED[te] == line[0] && CONTENT_LENGTH[cl] != line[0]
             else cl + 1 == |CONTENT_LENGTH| && CONTENT_LENGTH[cl] == line[0]
    ensures Woven(cl, te, line, [which], which)
  {
    hide CONTENT_LENGTH, CHUNKED, Dealt, Given;
    DealtTail(cl, te, line, [which], which);
    InTurnCons(cl, line, [which]);
  }

  lemma WovenCons(cl: nat, te: nat, line: string, first: bool, b: seq<bool>, which: bool)
    requires cl < |CONTENT_LENGTH| && te < |CHUNKED| && line != ""
    requires if first then te + 1 < |CHUNKED| && CHUNKED[te] == line[0] && CONTENT_LENGTH[cl] != line[0]
             else cl + 1 < |CONTENT_LENGTH| && CONTENT_LENGTH[cl] == line[0]
    requires Woven(if first then cl else cl + 1, if first then te + 1 else te, line[1..], b, which)
    ensures Woven(cl, te, line, [first] + b, which)
  {
    hide CONTENT_LENGTH, CHUNKED, Dealt, InTurn, Given;
    var all := [first] + b;
    assert all[1..] == b && all[|all| - 1] == b[|b| - 1];
    DealtTail(cl, te, line, all, which);
    InTurnCons(cl, line, all);
  }

  /** Whenever a matcher completes, the line begins with such a mixture. */
  lemma {:induction false} Weave(cl: nat, te: nat, line: string) returns (b: seq<bool>)
    requires cl < |CONTENT_LENGTH| && te < |CHUNKED|
    requires MatchLine(cl, te, line).IsLength? || MatchLine(cl, te, line).IsChunked?
    ensures Woven(cl, te, line, b, MatchLine(cl, te, line).IsChunked?)
    decreases |line|
  {
    hide CONTENT_LENGTH, CHUNKED;
    var which := MatchLine(cl, te, line).IsChunked?;
    var first := CONTENT_LENGTH[cl] != line[0];
    if if first then te + 1 == |CHUNKED| else cl + 1 == |CONTENT_LENGTH| {
      WovenOne(cl, te, line, which);
      b := [which];
    } else {
      var rest := Weave(if first then cl else cl + 1, if first then te + 1 else te, line[1..]);
      WovenCons(cl, te, line, first, rest, which);
      b := [first] + rest;
    }
  }

  /** A line that begins with the Content-Length prefix gives the other matcher nothing. */
  lemma {:induction false} LengthLineIsPure(cl: nat, te: nat, line: string, b: seq<bool>, which: bool)
    requires cl < |CONTENT_LENGTH| && te < |CHUNKED| && Woven(cl, te, line, b, which)
    requires StartsWith(line, CONTENT_LENGTH[cl..])
    ensures true !in b
    decreases |b|
  {
    hide CONTENT_LENGTH, CHUNKED, Dealt, InTurn, StartsWith;
    WovenTail(cl, te, line, b, which);
    StartsTail(line, CONTENT_LENGTH, cl);
    assert b == [b[0]] + b[1..];
    if |b| > 1 {
      LengthLineIsPure(cl + 1, te, line[1..], b[1..], which);
    }
  }

  lemma {:induction false} ChunkedLineIsPure(te: nat, line: string, b: seq<bool>, which: bool)
    requires te < |CHUNKED| && 0 < |CONTENT_LENGTH| && Woven(0, te, line, b, which) && StartsWith(line, CHUNKED[te..])
    ensures false !in b
    decreases |b|
  {
    hide CONTENT_LENGTH, CHUNKED, Dealt, InTurn, StartsWith;
    WovenTail(0, te, line, b, which);
    ChunkedHasNoC(te);
    StartsTail(line, CHUNKED, te);
    assert b == [b[0]] + b[1..];
    if |b| > 1 {
      ChunkedLineIsPure(te + 1, line[1..], b[1..], which);
    }
  }

  /** When all characters are given to one matcher, it is given them in order. */
  lemma {:induction false} GivenAll(line: string, b: seq<bool>, which: bool)
    requires |b| <= |line| && (!which) !in b
    ensures Given(line, b, which) == line[..|b|]
    decreases |b|
  {
    if b != [] {
      assert b[0] == which;
      GivenAll(line[1..], b[1..], which);
      assert line[..|b|] == [line[0]] + line[1..][..|b| - 1];
    }
  }

  /** A matcher completes on a line that begins with neither prefix exactly when the line is interleaved. */
  lemma InterleavedMatches(line: string)
    ensures Interleaved(line) <==>
      && (MatchLine(0, 0, line).IsLength? || MatchLine(0, 0, line).IsChunked?)
      && !StartsWith(line, CONTENT_LENGTH) && !StartsWith(line, CHUNKED)
  {
    assert CONTENT_LENGTH[0..] == CONTENT_LENGTH && CHUNKED[0..] == CHUNKED && |CONTENT_LENGTH| > 0 && |CHUNKED| > 0;
    hide CONTENT_LENGTH, CHUNKED;
    var m := MatchLine(0, 0, line);
    if b: seq<bool>, which: bool :| Woven(0, 0, line, b, which) && true in b && false in b {
      WovenMatches(0, 0, line, b, which);
      if StartsWith(line, CONTENT_LENGTH) {
        LengthLineIsPure(0, 0, line, b, which);
      }
      if StartsWith(line, CHUNKED) {
        ChunkedLineIsPure(0, line, b, which);
      }
    }
    if (m.IsLength? || m.IsChunked?) && !StartsWith(line, CONTENT_LENGTH) && !StartsWith(line, CHUNKED) {
      var b := Weave(0, 0, line);
      assert b[|b| - 1] == m.IsChunked?;
      if (!m.IsChunked?) !in b {
        GivenAll(line, b, m.IsChunked?);
      }
      assert Woven(0, 0, line, b, m.IsChunked?);
    }
  }

  /** An interleaved line holds a 'C' and a 'T', the first characters of the two prefixes. */
  lemma InterleavedNeedsBoth(line: string)
    requires Interleaved(line)
    ensures 'C' in line && 'T' in line
  {
    InterleavedMatches(line);
    assert CONTENT_LENGTH[0..] == CONTENT_LENGTH && CHUNKED[0..] == CHUNKED;
    if 'T' !in line {
      WithoutT(0, line);
    } else if 'C' !in line {
      WithoutC(0, line);
    }
  }

  /** Such lines exist: a 'T' after the first letter of a Content-Length line goes to the other matcher. */
  lemma {:induction false} InterleavedExample()
    ensures Interleaved("CTontent-Length: 5") && MatchLine(0, 0, "CTontent-Length: 5") == IsLength("5")
  {
    var line := "CTontent-Length: 5";
    assert CONTENT_LENGTH[1..] == "ontent-Length: ";
    assert line[1..][1..] == "ontent-Length: 5";
    assert StartsWith(line[1..][1..], CONTENT_LENGTH[1..]);
    LengthPrefixMatches(1, 1, line[1..][1..]);
    assert line[1..][1..][15..] == "5";
    assert MatchLine(0, 0, line) == MatchLine(1, 0, line[1..]);
    assert CONTENT_LENGTH[1] == 'o' && CHUNKED[0] == 'T';
    assert MatchLine(1, 0, line[1..]) == MatchLine(1, 1, line[1..][1..]);
    assert line[..|CONTENT_LENGTH|][1] == 'T' && line[0] == 'C';
    InterleavedMatches(line);
  }

  /** On every line that is not interleaved the two matchers find exactly the line's own prefix. */
  lemma MatchMeaning(line: string)
    ensures StartsWith(line, CONTENT_LENGTH) ==> MatchLine(0, 0, line) == IsLength(line[|CONTENT_LENGTH|..])
    ensures StartsWith(line, CHUNKED) ==> MatchLine(0, 0, line) == IsChunked
    ensures !StartsWith(line, CONTENT_LENGTH) && !StartsWith(line, CHUNKED) && !Interleaved(line) ==>
      !MatchLine(0, 0, line).IsLength? && !MatchLine(0, 0, line).IsChunked?
  {
    assert CONTENT_LENGTH[0..] == CONTENT_LENGTH && CHUNKED[0..] == CHUNKED;
    InterleavedMatches(line);
    if StartsWith(line, CONTENT_LENGTH) {
      LengthPrefixMatches(0, 0, line);
    }
    if StartsWith(line, CHUNKED) {
      ChunkedPrefixMatches(0, line);
    }
  }

  predicate Fits(line: string) {
    StartsWith(line, CONTENT_LENGTH) ==> LengthValue(line) < INT_LIMIT
  }

  /**
   Main result on single lines: the headers a line gives are the ones its own text says exactly when the line is not
   interleaved and its length fits.
   */
  lemma InterleavedExact(line: string)
    ensures AfterLine(Headers(NO_CONTENT_LENGTH, false), line) == Headers(LastLength([line]), AnyChunked([line]))
            <==> !Interleaved(line) && Fits(line)
  {
    MatchMeaning(line);
    InterleavedMatches(line);
    FirstCharacters(line);
    var m := MatchLine(0, 0, line);
    hide CONTENT_LENGTH, CHUNKED, Interleaved;
    assert [line][..0] == [];
    assert AnyChunked([line]) <==> StartsWith(line, CHUNKED) by {
      if StartsWith(line, CHUNKED) {
        assert [line][0] == line;
      }
    }
    match m {
      case IsLength(rest) =>
        LengthExact(rest);
        AddDigitsNonNegative(0, rest);
      case _ =>
    }
  }

  lemma {:induction false} AddDigitsNonNegative(length: int, s: string)
    requires length >= 0
    ensures AddDigits(length, s) >= length
    decreases |s|
  {
    if s != "" && IsDigit(s[0]) {
      AddDigitsNonNegative(AddDigit(length, s[0]), s[1..]);
    }
  }

  lemma {:induction false} AfterLinesSnoc(h: Headers, lines: seq<string>, line: string)
    ensures AfterLines(h, lines + [line]) == AfterLine(AfterLines(h, lines), line)
    decreases |lines|
  {
    if lines == [] {
      assert (lines + [line])[1..] == [];
    } else {
      assert (lines + [line])[1..] == lines[1..] + [line];
      AfterLinesSnoc(AfterLine(h, lines[0]), lines[1..], line);
    }
  }

  lemma AnyChunkedSnoc(lines: seq<string>, line: string)
    ensures AnyChunked(lines + [line]) <==> AnyChunked(lines) || StartsWith(line, CHUNKED)
  {
    hide CONTENT_LENGTH, CHUNKED;
    var all := lines + [line];
    if i :| 0 <= i < |lines| && StartsWith(lines[i], CHUNKED) {
      assert all[i] == lines[i];
    }
    if StartsWith(line, CHUNKED) {
      assert all[|lines|] == line;
    }
  }

  /** A line that the matchers read as it is meant. */
  ghost predicate Ordinary(line: string) {
    PlainLine(line) && !Interleaved(line)
  }

  /**
   The fold the parser computes is the reference: any Transfer-Encoding: chunked, and, exactly when it fits, the last
   Content-Length value.
   */
  lemma {:induction false} LinesMeaning(lines: seq<string>)
    requires forall i :: 0 <= i < |lines| ==> Ordinary(lines[i])
    ensures var h := AfterLines(Headers(NO_CONTENT_LENGTH, false), lines);
      (h.chunked <==> AnyChunked(lines)) && (h.contentLength == LastLength(lines) <==> LastLength(lines) < INT_LIMIT)
    decreases |lines|
  {
    if lines != [] {
      var before, line := lines[..|lines| - 1], lines[|lines| - 1];
      assert lines == before + [line];
      LinesMeaning(before);
      AfterLinesSnoc(Headers(NO_CONTENT_LENGTH, false), before, line);
      AnyChunkedSnoc(before, line);
      MatchMeaning(line);
      FirstCharacters(line);
      if StartsWith(line, CONTENT_LENGTH) {
        LengthExact(line[|CONTENT_LENGTH|..]);
      }
    }
  }

  lemma FirstCharacters(line: string)
    ensures StartsWith(line, CONTENT_LENGTH) ==> line[0] == 'C'
    ensures StartsWith(line, CHUNKED) ==> line[0] == 'T'
  {
    if StartsWith(line, CONTENT_LENGTH) {
      assert line[0] == line[..|CONTENT_LENGTH|][0];
    }
    if StartsWith(line, CHUNKED) {
      assert line[0] == line[..|CHUNKED|][0];
    }
  }

  predicate Fresh(r: Reader) {
    AtLineStart(r) && r.contentLength == NO_CONTENT_LENGTH && !r.chunked
  }

  /** Main result on header blocks. */
  lemma {:induction false} HeaderBlockRead(r: Reader, lines: seq<string>)
    requires Fresh(r) && forall i :: 0 <= i < |lines| ==> Ordinary(lines[i])
    ensures var (r', out) := FeedAll(r, Block(lines));
      && out == ""
      && (r'.contentLength == LastLength(lines) <==> LastLength(lines) < INT_LIMIT)
      && (r'.chunked <==> AnyChunked(lines))
      && (if AnyChunked(lines) then AtSize(r') else r'.state == ReadingBody)
  {
    hide FeedAll, Feed;
    BlockRead(r, lines);
    LinesMeaning(lines);
  }

  // ---------------------------------------------------------------- lengths as a server writes them

  lemma DecimalSnoc(s: string, c: char)
    requires IsDigit(c)
    ensures Decimal(s + [c]) == Decimal(s) * 10 + DigitValue(c)
  {
    assert (s + [c])[..|s|] == s;
  }

  /** A number in decimal digits is read as itself. */
  lemma {:induction false} DecimalRead(n: nat)
    ensures Decimal(SpellDec(n)) == n
  {
    DigitOf(n % 10, false);
    var c := LOWER[n % 10];
    hide LOWER, DigitValue, IsDigit;
    if n < 10 {
      SpellOne(n, 10, LOWER);
      DecimalSnoc("", c);
      assert "" + [c] == [c];
    } else {
      SpellMore(n, 10, LOWER);
      DecimalRead(n / 10);
      DecimalSnoc(SpellDec(n / 10), c);
    }
  }

  lemma {:induction false} AllDigits(s: string)
    requires forall c :: c in s ==> IsDigit(c)
    ensures Digits(s) == s
    decreases |s|
  {
    if s != "" {
      assert s[0] in s && forall c :: c in s[1..] ==> c in s;
      AllDigits(s[1..]);
    }
  }

  function LengthLine(n: nat): string {
    "Content-Length: " + SpellDec(n)
  }

  lemma LengthLineValue(n: nat)
    ensures StartsWith(LengthLine(n), CONTENT_LENGTH) && LengthValue(LengthLine(n)) == n && Ordinary(LengthLine(n))
  {
    DecimalDigits(n);
    DecimalRead(n);
    AllDigits(SpellDec(n));
    assert CONTENT_LENGTH == "Content-Length: ";
    assert '\r' !in CONTENT_LENGTH && '\n' !in CONTENT_LENGTH;
    hide SpellDec;
    var line := LengthLine(n);
    assert line[..|CONTENT_LENGTH|] == CONTENT_LENGTH && line[|CONTENT_LENGTH|..] == SpellDec(n);
    InterleavedMatches(line);
  }

  lemma {:induction false} LastLengthBehind(lines: seq<string>, more: seq<string>)
    requires forall i :: 0 <= i < |more| ==> !StartsWith(more[i], CONTENT_LENGTH)
    ensures LastLength(lines + more) == LastLength(lines)
    decreases |more|
  {
    if more == [] {
      assert lines + more == lines;
    } else {
      var k := |more| - 1;
      assert (lines + more)[..|lines + more| - 1] == lines + more[..k];
      LastLengthBehind(lines, more[..k]);
    }
  }

  /** In particular: a length in decimal digits, whatever lines stand before it, and other lines behind it. */
  lemma LengthRead(r: Reader, before: seq<string>, n: nat, more: seq<string>)
    requires Fresh(r) && n < INT_LIMIT
    requires forall i :: 0 <= i < |before| ==> Ordinary(before[i])
    requires forall i :: 0 <= i < |more| ==> Ordinary(more[i]) && !StartsWith(more[i], CONTENT_LENGTH)
    ensures FeedAll(r, Block(before + ["Content-Length: " + SpellDec(n)] + more)).0.contentLength == n
  {
    var lines := before + [LengthLine(n)];
    LengthLineValue(n);
    hide FeedAll, Ordinary, SpellDec;
    LastLengthBehind(lines, more);
    HeaderBlockRead(r, lines + more);
    assert lines[..|lines| - 1] == before;
  }
}
