/** `responseStatusCode` of HttpClient.cpp: the reader of status lines, which passes over informational ones. */
module StatusLine {
  import opened Http
  import opened Numerals

  /** `*` stands for any character. */
  const STATUS_PREFIX: string := "HTTP/*.* "

  datatype Phase = Prefix(at: nat) | Digits | Rest

  datatype Result = Code(code: int) | TimedOut | Invalid

  /** How reading a line ends: at its newline, at a character that does not fit, or because nothing more arrives. */
  datatype LineEnd = Ended(phase: Phase, code: int, left: string) | Bad(left: string) | Out

  predicate Informational(code: int) {
    code < 200 && code != 101
  }

  predicate Fits(at: nat, c: char)
    requires at < |STATUS_PREFIX|
  {
    STATUS_PREFIX[at] == '*' || STATUS_PREFIX[at] == c
  }

  /** One character; phase and code after it. */
  function Next(phase: Phase, code: int, c: char): (Phase, int)
    requires phase.Prefix? ==> phase.at < |STATUS_PREFIX|
  {
    match phase
    case Prefix(at) => (if at + 1 == |STATUS_PREFIX| then Digits else Prefix(at + 1), code)
    case Digits => if IsDigit(c) then (Digits, Wrap(code * 10 + DigitValue(c))) else (Rest, code)
    case Rest => (Rest, code)
  }

  function ReadLine(phase: Phase, code: int, s: string): (end: LineEnd)
    requires phase.Prefix? ==> phase.at < |STATUS_PREFIX|
    ensures end.Ended? ==> |end.left| < |s|
    decreases |s|
  {
    if s == "" then Out
    else if phase.Prefix? && !Fits(phase.at, s[0]) then Bad(s[1..])
    else
      var (phase', code') := Next(phase, code, s[0]);
      if s[0] == '\n' then Ended(phase', code', s[1..]) else ReadLine(phase', code', s[1..])
  }

  /** The result for the text s, after which nothing arrives; and what is left of s. */
  function StatusCode(s: string): (Result, string)
    decreases |s|
  {
    match ReadLine(Prefix(0), 0, s)
    case Out => (TimedOut, "")
    case Bad(left) => (Invalid, left)
    case Ended(phase, code, left) =>
      if !Informational(code) then (if phase == Rest then Code(code) else Invalid, left)
      else if phase == Rest then StatusCode(left)
      else (TimedOut, left)
  }

  // ---------------------------------------------------------------- the reader

  /** The inner loop: reads until a newline, a misfit, or the end of what arrives. */
  method ReadStatusLine(incoming: string) returns (bad: bool, c: char, iState: Phase, iStatusCode: int, left: string)
    ensures match ReadLine(Prefix(0), 0, incoming)
      case Out => !bad && c != '\n' && left == ""
      case Bad(rest) => bad && left == rest
      case Ended(phase, code, rest) => !bad && c == '\n' && iState == phase && iStatusCode == code && left == rest
    ensures !bad && iState == Rest ==> |left| < |incoming|
  {
    c, iStatusCode, iState, left, bad := '\0', 0, Prefix(0), incoming, false;
    var statusPtr := 0;
    while c != '\n' && left != ""
      invariant !bad && statusPtr <= |STATUS_PREFIX| && |left| <= |incoming|
      invariant iState.Prefix? ==> iState.at == statusPtr < |STATUS_PREFIX|
      invariant iState == Rest ==> |left| < |incoming|
      invariant c != '\n' ==> ReadLine(iState, iStatusCode, left) == ReadLine(Prefix(0), 0, incoming)
      invariant c == '\n' ==> ReadLine(Prefix(0), 0, incoming) == Ended(iState, iStatusCode, left)
      decreases |left|
    {
      c := left[0];
      left := left[1..];
      match iState {
        case Prefix(_) =>
          if STATUS_PREFIX[statusPtr] == '*' || STATUS_PREFIX[statusPtr] == c {
            statusPtr := statusPtr + 1;
            iState := if statusPtr == |STATUS_PREFIX| then Digits else Prefix(statusPtr);
          } else {
            bad := true;
            return;
          }
        case Digits =>
          if IsDigit(c) {
            iStatusCode := Wrap(iStatusCode * 10 + DigitValue(c));
          } else {
            iState := Rest;
          }
        case Rest =>
      }
    }
  }

  method ResponseStatusCode(incoming: string) returns (result: Result, left: string)
    ensures (result, left) == StatusCode(incoming)
  {
    left := incoming;
    while true
      invariant StatusCode(left) == StatusCode(incoming)
      decreases |left|
    {
      ghost var before := left;
      var bad, c, iState, iStatusCode;
      bad, c, iState, iStatusCode, left := ReadStatusLine(left);
      if bad {
        return Invalid, left;
      }
      if c != '\n' {
        // Whatever the state is, the time is up again on the next turn.
        return TimedOut, left;
      }
      if Informational(iStatusCode) {
        c := '\0';
      }
      if !(iState == Rest && Informational(iStatusCode)) {
        if c == '\n' && iState == Rest {
          return Code(iStatusCode), left;
        } else if c != '\n' {
          return TimedOut, left;
        } else {
          return Invalid, left;
        }
      }
    }
  }

  // ---------------------------------------------------------------- status lines

  /** A status line: the two version characters, the digits of the code, and what follows them up to the newline. */
  datatype Line = Line(major: char, minor: char, digits: string, reason: string)

  function Text(l: Line): string {
    "HTTP/" + [l.major] + "." + [l.minor] + " " + l.digits + l.reason + "\n"
  }

  predicate WellFormed(l: Line) {
    && l.major != '\n' && l.minor != '\n' && '\n' !in l.reason
    && (forall i :: 0 <= i < |l.digits| ==> IsDigit(l.digits[i]))
    && (l.reason != "" ==> !IsDigit(l.reason[0]))
  }

  /** The number that the digits spell, as far as an int holds it. */
  function Number(code: int, digits: string): int
    requires forall i :: 0 <= i < |digits| ==> IsDigit(digits[i])
    decreases |digits|
  {
    if digits == "" then code else Number(Wrap(code * 10 + DigitValue(digits[0])), digits[1..])
  }

  function CodeOf(l: Line): int
    requires WellFormed(l)
  {
    Number(0, l.digits)
  }

  lemma {:induction false} ReadRest(code: int, reason: string, left: string)
    requires '\n' !in reason
    ensures ReadLine(Rest, code, reason + "\n" + left) == Ended(Rest, code, left)
  {
    var s := reason + "\n" + left;
    if reason == "" {
      assert s[0] == '\n' && s[1..] == left;
    } else {
      assert s[0] == reason[0] && s[1..] == reason[1..] + "\n" + left;
      ReadRest(code, reason[1..], left);
    }
  }

  lemma {:induction false} ReadDigits(code: int, digits: string, reason: string, left: string)
    requires forall i :: 0 <= i < |digits| ==> IsDigit(digits[i])
    requires '\n' !in reason && (reason != "" ==> !IsDigit(reason[0]))
    ensures ReadLine(Digits, code, digits + reason + "\n" + left) == Ended(Rest, Number(code, digits), left)
    decreases |digits|
  {
    var s := digits + reason + "\n" + left;
    if digits != "" {
      assert s[0] == digits[0] && s[1..] == digits[1..] + reason + "\n" + left;
      ReadDigits(Wrap(code * 10 + DigitValue(digits[0])), digits[1..], reason, left);
    } else if reason == "" {
      assert s[0] == '\n' && s[1..] == left;
    } else {
      assert s[0] == reason[0] && s[1..] == reason[1..] + "\n" + left;
      ReadRest(code, reason[1..], left);
    }
  }

  lemma PrefixLength()
    ensures |STATUS_PREFIX| == 9
  {
  }

  /** A prefix without a newline that fits is passed over. */
  lemma {:induction false} ReadPrefix(at: nat, p: string, s: string)
    requires at + |p| == |STATUS_PREFIX| && p != "" && '\n' !in p
    requires forall i :: 0 <= i < |p| ==> Fits(at + i, p[i])
    ensures ReadLine(Prefix(at), 0, p + s) == ReadLine(Digits, 0, s)
    decreases |p|
  {
    assert (p + s)[0] == p[0] && Fits(at + 0, p[0]);
    if |p| == 1 {
      assert (p + s)[1..] == s;
    } else {
      assert (p + s)[1..] == p[1..] + s;
      forall i | 0 <= i < |p[1..]|
        ensures Fits(at + 1 + i, p[1..][i])
      {
        assert Fits(at + (i + 1), p[i + 1]);
      }
      ReadPrefix(at + 1, p[1..], s);
    }
  }

  lemma ReadWellFormed(l: Line, left: string)
    requires WellFormed(l)
    ensures ReadLine(Prefix(0), 0, Text(l) + left) == Ended(Rest, CodeOf(l), left)
  {
    var p := "HTTP/" + [l.major] + "." + [l.minor] + " ";
    PrefixLength();
    forall i | 0 <= i < |p|
      ensures Fits(0 + i, p[i])
    {
      assert STATUS_PREFIX[i] == '*' || STATUS_PREFIX[i] == p[i];
    }
    var rest := l.digits + l.reason + "\n" + left;
    assert Text(l) + left == p + rest;
    ReadPrefix(0, p, rest);
    ReadDigits(0, l.digits, l.reason, left);
  }

  function Texts(ls: seq<Line>): string {
    if ls == [] then "" else Text(ls[0]) + Texts(ls[1..])
  }

  /** Only informational lines. */
  predicate AllInformational(ls: seq<Line>) {
    forall i :: 0 <= i < |ls| ==> WellFormed(ls[i]) && Informational(CodeOf(ls[i]))
  }

  lemma {:induction false} SkipInformational(infos: seq<Line>, rest: string)
    requires AllInformational(infos)
    ensures StatusCode(Texts(infos) + rest) == StatusCode(rest)
  {
    if infos == [] {
      assert Texts(infos) + rest == rest;
    } else {
      var more := Texts(infos[1..]) + rest;
      assert Texts(infos) + rest == Text(infos[0]) + more;
      ReadWellFormed(infos[0], more);
      SkipInformational(infos[1..], rest);
    }
  }

  /** Main result: the answer is the code of the first status line that is not informational, read to its end. */
  lemma {:induction false} FirstFinal(infos: seq<Line>, final: Line, left: string)
    requires AllInformational(infos) && WellFormed(final) && !Informational(CodeOf(final))
    ensures StatusCode(Texts(infos) + Text(final) + left) == (Code(CodeOf(final)), left)
  {
    assert Texts(infos) + Text(final) + left == Texts(infos) + (Text(final) + left);
    SkipInformational(infos, Text(final) + left);
    ReadWellFormed(final, left);
  }

  lemma {:induction false} NumberConcat(code: int, a: string, b: string)
    requires forall c :: c in a + b ==> IsDigit(c)
    ensures (forall i :: 0 <= i < |a| ==> IsDigit(a[i])) && (forall i :: 0 <= i < |b| ==> IsDigit(b[i]))
    ensures Number(code, a + b) == Number(Number(code, a), b)
    decreases |a|
  {
    assert forall i :: 0 <= i < |a| ==> a[i] in a + b;
    assert forall i :: 0 <= i < |b| ==> b[i] in a + b;
    if a == "" {
      assert a + b == b;
    } else {
      assert (a + b)[1..] == a[1..] + b;
      NumberConcat(Wrap(code * 10 + DigitValue(a[0])), a[1..], b);
    }
  }

  /** A code in decimal digits is read as the number it stands for. */
  lemma {:induction false} NumberRead(n: nat)
    requires n < INT_LIMIT
    ensures (forall i :: 0 <= i < |SpellDec(n)| ==> IsDigit(SpellDec(n)[i])) && Number(0, SpellDec(n)) == n
  {
    DecimalDigits(n);
    DigitOf(n % 10, false);
    if n < 10 {
      SpellOne(n, 10, LOWER);
      assert [LOWER[n]][1..] == "";
    } else {
      var last := [LOWER[n % 10]];
      SpellMore(n, 10, LOWER);
      NumberRead(n / 10);
      NumberConcat(0, SpellDec(n / 10), last);
      assert last[1..] == "";
    }
  }

  /** A status line for a code: version 1.1, the code in decimal digits, and a reason. */
  function StatusText(code: nat, reason: string): string {
    "HTTP/1.1 " + SpellDec(code) + reason + "\n"
  }

  predicate Reason(s: string) {
    '\n' !in s && (s != "" ==> !IsDigit(s[0]))
  }

  /** Status lines of informational codes with their reasons. */
  function StatusTexts(infos: seq<(nat, string)>): string {
    if infos == [] then "" else StatusText(infos[0].0, infos[0].1) + StatusTexts(infos[1..])
  }

  lemma StatusTextRead(code: nat, reason: string, left: string)
    requires code < INT_LIMIT && Reason(reason)
    ensures ReadLine(Prefix(0), 0, StatusText(code, reason) + left) == Ended(Rest, code, left)
  {
    var l := Line('1', '1', SpellDec(code), reason);
    NumberRead(code);
    hide SpellDec, ReadLine;
    ReadWellFormed(l, left);
    assert Text(l) == StatusText(code, reason);
  }

  /** In numbers: codes below 200 but 101 are passed over, and the first other one is returned. */
  lemma {:induction false} FirstFinalNumber(infos: seq<(nat, string)>, final: nat, reason: string, left: string)
    requires forall i :: 0 <= i < |infos| ==> infos[i].0 < 200 && infos[i].0 != 101 && Reason(infos[i].1)
    requires (final == 101 || 200 <= final < INT_LIMIT) && Reason(reason)
    ensures StatusCode(StatusTexts(infos) + StatusText(final, reason) + left) == (Code(final), left)
  {
    hide ReadLine, StatusText, Reason;
    if infos == [] {
      StatusTextRead(final, reason, left);
      assert StatusTexts(infos) + StatusText(final, reason) + left == StatusText(final, reason) + left;
    } else {
      var (code, why) := infos[0];
      var more := StatusTexts(infos[1..]) + StatusText(final, reason) + left;
      StatusTextRead(code, why, more);
      FirstFinalNumber(infos[1..], final, reason, left);
      assert StatusTexts(infos) + StatusText(final, reason) + left == StatusText(code, why) + more;
    }
  }

  /** But an informational response as HTTP writes it ends with a blank line, and that is refused. */
  lemma BlankLineRefused(info: Line, left: string)
    requires WellFormed(info) && Informational(CodeOf(info))
    ensures StatusCode(Text(info) + "\r\n" + left) == (Invalid, "\n" + left)
  {
    var more := "\r\n" + left;
    ReadWellFormed(info, more);
    assert Text(info) + "\r\n" + left == Text(info) + more;
    assert more[0] == '\r' && more[1..] == "\n" + left;
    assert !Fits(0, '\r');
    assert ReadLine(Prefix(0), 0, more) == Bad("\n" + left);
  }

  // ---------------------------------------------------------------- lines that are not status lines

  /** From place `at` of the prefix on, the first k - at characters fit and are no newlines. */
  predicate FitsUpTo(at: nat, s: string, k: nat)
    requires at <= k <= |STATUS_PREFIX| && k - at <= |s|
  {
    forall i :: 0 <= i < k - at ==> Fits(at + i, s[i]) && s[i] != '\n'
  }

  /** A newline stands at place k of the prefix, where any character fits. */
  predicate NewlineAt(at: nat, s: string, k: nat) {
    at <= k < |STATUS_PREFIX| && k - at < |s| && FitsUpTo(at, s, k) && STATUS_PREFIX[k] == '*' && s[k - at] == '\n'
  }

  /** A character that does not fit stands at place k of the prefix. */
  predicate MisfitAt(at: nat, s: string, k: nat) {
    at <= k < |STATUS_PREFIX| && k - at < |s| && FitsUpTo(at, s, k) && !Fits(k, s[k - at])
  }

  /** There is no newline, and nothing that does not fit. */
  predicate Unfinished(at: nat, s: string)
    requires at <= |STATUS_PREFIX|
  {
    '\n' !in s && FitsUpTo(at, s, if |s| < |STATUS_PREFIX| - at then at + |s| else |STATUS_PREFIX|)
  }

  lemma FitsFirst(at: nat, s: string, k: nat)
    requires at < k <= |STATUS_PREFIX| && k - at <= |s|
    ensures FitsUpTo(at, s, k) <==> Fits(at, s[0]) && s[0] != '\n' && FitsUpTo(at + 1, s[1..], k)
  {
    if FitsUpTo(at, s, k) {
      assert Fits(at + 0, s[0]);
      forall i | 0 <= i < k - (at + 1)
        ensures Fits(at + 1 + i, s[1..][i]) && s[1..][i] != '\n'
      {
        assert Fits(at + (i + 1), s[i + 1]);
      }
    }
    if Fits(at, s[0]) && s[0] != '\n' && FitsUpTo(at + 1, s[1..], k) {
      forall i | 0 <= i < k - at
        ensures Fits(at + i, s[i]) && s[i] != '\n'
      {
        assert i > 0 ==> Fits(at + 1 + (i - 1), s[1..][i - 1]);
      }
    }
  }

  /** A newline at a place where any character fits ends the line inside the prefix. */
  lemma {:induction false} EndsAtNewline(at: nat, s: string, k: nat)
    requires NewlineAt(at, s, k)
    ensures ReadLine(Prefix(at), 0, s) == Ended(Prefix(k + 1), 0, s[k - at + 1..])
    decreases |s|
  {
    PrefixLength();
    assert STATUS_PREFIX[8] == ' ';
    if at < k {
      FitsFirst(at, s, k);
      EndsAtNewline(at + 1, s[1..], k);
      assert s[1..][k - at..] == s[k - at + 1..];
    }
  }

  lemma {:induction false} EndsAtMisfit(at: nat, s: string, k: nat)
    requires MisfitAt(at, s, k)
    ensures ReadLine(Prefix(at), 0, s) == Bad(s[k - at + 1..])
    decreases |s|
  {
    if at < k {
      FitsFirst(at, s, k);
      EndsAtMisfit(at + 1, s[1..], k);
      assert s[1..][k - at..] == s[k - at + 1..];
    }
  }

  /** Behind the prefix a line that does not end has no newline. */
  lemma {:induction false} OutBehindPrefix(phase: Phase, code: int, s: string)
    requires !phase.Prefix?
    ensures ReadLine(phase, code, s) == Out <==> '\n' !in s
    ensures !ReadLine(phase, code, s).Bad?
    ensures ReadLine(phase, code, s).Ended? ==> !ReadLine(phase, code, s).phase.Prefix?
    decreases |s|
  {
    if s != "" && s[0] != '\n' {
      var (phase', code') := Next(phase, code, s[0]);
      OutBehindPrefix(phase', code', s[1..]);
    }
  }

  lemma UnfinishedFirst(at: nat, s: string)
    requires at < |STATUS_PREFIX| && s != ""
    ensures Unfinished(at, s) <==> Fits(at, s[0]) && s[0] != '\n' && Unfinished(at + 1, s[1..])
  {
    FitsFirst(at, s, if |s| < |STATUS_PREFIX| - at then at + |s| else |STATUS_PREFIX|);
    hide STATUS_PREFIX, Fits, FitsUpTo;
    assert s == [s[0]] + s[1..];
  }

  lemma OutFirst(at: nat, s: string)
    requires at < |STATUS_PREFIX| && s != ""
    ensures ReadLine(Prefix(at), 0, s) == Out <==>
      Fits(at, s[0]) && s[0] != '\n' &&
      ReadLine(if at + 1 == |STATUS_PREFIX| then Digits else Prefix(at + 1), 0, s[1..]) == Out
  {
    hide STATUS_PREFIX, Fits;
  }

  lemma {:induction false} OutExact(at: nat, s: string)
    requires at < |STATUS_PREFIX|
    ensures ReadLine(Prefix(at), 0, s) == Out <==> Unfinished(at, s)
    decreases |s|
  {
    if s == "" {
      assert FitsUpTo(at, s, at);
    } else {
      UnfinishedFirst(at, s);
      OutFirst(at, s);
      hide ReadLine, STATUS_PREFIX, Fits;
      if at + 1 < |STATUS_PREFIX| {
        OutExact(at + 1, s[1..]);
      } else {
        OutBehindPrefix(Digits, 0, s[1..]);
      }
    }
  }

  /** Why the reading of a line that began at place `at` of the prefix stopped. */
  lemma {:induction false} StopsAt(at: nat, s: string) returns (k: nat)
    requires at < |STATUS_PREFIX|
    requires var end := ReadLine(Prefix(at), 0, s); end.Bad? || (end.Ended? && end.phase.Prefix?)
    ensures if ReadLine(Prefix(at), 0, s).Bad? then MisfitAt(at, s, k) else NewlineAt(at, s, k)
    decreases |s|
  {
    if !Fits(at, s[0]) || s[0] == '\n' {
      k := at;
      PrefixLength();
      assert '\n' !in STATUS_PREFIX;
    } else {
      if at + 1 == |STATUS_PREFIX| {
        OutBehindPrefix(Digits, 0, s[1..]);
      }
      k := StopsAt(at + 1, s[1..]);
      FitsFirst(at, s, k);
    }
  }

  /** A line ends inside the prefix exactly when a newline stands where any character fits. */
  lemma NewlineExact(at: nat, s: string)
    requires at < |STATUS_PREFIX|
    ensures ReadLine(Prefix(at), 0, s).Ended? && ReadLine(Prefix(at), 0, s).phase.Prefix?
            <==> exists k :: NewlineAt(at, s, k)
  {
    if ReadLine(Prefix(at), 0, s).Ended? && ReadLine(Prefix(at), 0, s).phase.Prefix? {
      var k := StopsAt(at, s);
    }
    if k :| NewlineAt(at, s, k) {
      EndsAtNewline(at, s, k);
    }
  }

  /** A line is refused exactly when a character of its prefix does not fit. */
  lemma MisfitExact(at: nat, s: string)
    requires at < |STATUS_PREFIX|
    ensures ReadLine(Prefix(at), 0, s).Bad? <==> exists k :: MisfitAt(at, s, k)
  {
    if ReadLine(Prefix(at), 0, s).Bad? {
      var k := StopsAt(at, s);
    }
    if k :| MisfitAt(at, s, k) {
      EndsAtMisfit(at, s, k);
    }
  }

  // ---------------------------------------------------------------- the converse

  lemma {:induction false} SplitRest(code: int, s: string) returns (reason: string)
    requires ReadLine(Rest, code, s).Ended?
    ensures '\n' !in reason && s == reason + "\n" + ReadLine(Rest, code, s).left && ReadLine(Rest, code, s).code == code
    decreases |s|
  {
    if s[0] == '\n' {
      reason := "";
    } else {
      var more := SplitRest(code, s[1..]);
      reason := [s[0]] + more;
    }
  }

  lemma {:induction false} SplitDigits(code: int, s: string) returns (digits: string, reason: string)
    requires ReadLine(Digits, code, s).Ended?
    ensures forall i :: 0 <= i < |digits| ==> IsDigit(digits[i])
    ensures '\n' !in reason && (reason != "" ==> !IsDigit(reason[0]))
    ensures s == digits + reason + "\n" + ReadLine(Digits, code, s).left
    ensures ReadLine(Digits, code, s).code == Number(code, digits) && ReadLine(Digits, code, s).phase == Rest
    decreases |s|
  {
    if IsDigit(s[0]) {
      var more;
      more, reason := SplitDigits(Wrap(code * 10 + DigitValue(s[0])), s[1..]);
      digits := [s[0]] + more;
      assert digits[1..] == more;
    } else if s[0] == '\n' {
      digits, reason := "", "";
    } else {
      var more := SplitRest(code, s[1..]);
      digits, reason := "", [s[0]] + more;
      RestEnds(code, s[1..]);
    }
  }

  lemma {:induction false} RestEnds(code: int, s: string)
    ensures ReadLine(Rest, code, s).Ended? ==> ReadLine(Rest, code, s).phase == Rest
    decreases |s|
  {
    if s != "" && s[0] != '\n' {
      RestEnds(code, s[1..]);
    }
  }

  lemma {:induction false} SplitPrefix(at: nat, s: string) returns (p: string)
    requires at < |STATUS_PREFIX| && ReadLine(Prefix(at), 0, s).Ended? && !ReadLine(Prefix(at), 0, s).phase.Prefix?
    ensures at + |p| == |STATUS_PREFIX| && '\n' !in p && p <= s
    ensures forall i :: 0 <= i < |p| ==> Fits(at + i, p[i])
    ensures ReadLine(Prefix(at), 0, s) == ReadLine(Digits, 0, s[|p|..])
    decreases |STATUS_PREFIX| - at
  {
    PrefixLength();
    assert STATUS_PREFIX[8] == ' ';
    if at + 1 == |STATUS_PREFIX| {
      p := [s[0]];
    } else {
      var more := SplitPrefix(at + 1, s[1..]);
      p := [s[0]] + more;
      assert s[1..][|more|..] == s[|p|..];
    }
  }

  lemma SplitLine(s: string) returns (l: Line)
    requires ReadLine(Prefix(0), 0, s).Ended? && !ReadLine(Prefix(0), 0, s).phase.Prefix?
    ensures WellFormed(l) && s == Text(l) + ReadLine(Prefix(0), 0, s).left
    ensures ReadLine(Prefix(0), 0, s).code == CodeOf(l) && ReadLine(Prefix(0), 0, s).phase == Rest
  {
    var p := SplitPrefix(0, s);
    var digits, reason := SplitDigits(0, s[|p|..]);
    l := Line(p[5], p[7], digits, reason);
    PrefixLength();
    forall i | 0 <= i < |p| && i != 5 && i != 7
      ensures p[i] == STATUS_PREFIX[i]
    {
      assert Fits(0 + i, p[i]);
    }
    assert p == "HTTP/" + [l.major] + "." + [l.minor] + " ";
  }

  lemma {:induction false} PrefixCode(at: nat, s: string)
    requires at < |STATUS_PREFIX|
    ensures var end := ReadLine(Prefix(at), 0, s); end.Ended? && end.phase.Prefix? ==> end.code == 0
    decreases |s|
  {
    PrefixLength();
    if s != "" && Fits(at, s[0]) && s[0] != '\n' {
      if at + 1 == |STATUS_PREFIX| {
        if ReadLine(Digits, 0, s[1..]).Ended? {
          var _, _ := SplitDigits(0, s[1..]);
        }
      } else {
        PrefixCode(at + 1, s[1..]);
      }
    }
  }

  lemma InFront(l: Line, infos: seq<Line>, rest: string)
    ensures Text(l) + (Texts(infos) + rest) == Texts([l] + infos) + rest
  {
    hide Text;
    assert ([l] + infos)[1..] == infos;
  }

  /** The text is some informational lines and then `rest`. */
  predicate Behind(s: string, infos: seq<Line>, rest: string) {
    AllInformational(infos) && s == Texts(infos) + rest
  }

  /** Takes the informational lines off; what is left begins with none. */
  lemma {:induction false} Peel(s: string) returns (infos: seq<Line>, rest: string)
    ensures Behind(s, infos, rest) && StatusCode(s) == StatusCode(rest)
    ensures var end := ReadLine(Prefix(0), 0, rest); end.Ended? && end.phase == Rest ==> !Informational(end.code)
    decreases |s|
  {
    var end := ReadLine(Prefix(0), 0, s);
    if end.Ended? && end.phase == Rest && Informational(end.code) {
      var l := SplitLine(s);
      infos, rest := Peel(end.left);
      InFront(l, infos, rest);
      infos := [l] + infos;
    } else {
      infos, rest := [], s;
      assert Texts(infos) + rest == rest;
    }
  }

  /** Main result, the other way: whenever a code is returned, the text is such a list of lines. */
  lemma {:induction false} CodeExplained(s: string) returns (infos: seq<Line>, final: Line, left: string)
    requires StatusCode(s).0.Code?
    ensures AllInformational(infos) && WellFormed(final) && !Informational(CodeOf(final))
    ensures s == Texts(infos) + Text(final) + left && StatusCode(s) == (Code(CodeOf(final)), left)
  {
    var rest;
    infos, rest := Peel(s);
    PrefixCode(0, rest);
    final := SplitLine(rest);
    left := ReadLine(Prefix(0), 0, rest).left;
    hide Text, CodeOf, WellFormed;
    assert Texts(infos) + (Text(final) + left) == Texts(infos) + Text(final) + left;
  }

  lemma LineEnds(s: string)
    ensures var end := ReadLine(Prefix(0), 0, s);
      end.Ended? ==> end.phase == Rest || (end.phase.Prefix? && end.code == 0)
  {
    PrefixCode(0, s);
    if ReadLine(Prefix(0), 0, s).Ended? && !ReadLine(Prefix(0), 0, s).phase.Prefix? {
      var _ := SplitLine(s);
    }
  }

  /** The end of a line never leads to the last branch of the source: its code has been read, or is informational. */
  lemma LastBranchDead(s: string)
    ensures var end := ReadLine(Prefix(0), 0, s); end.Ended? && !Informational(end.code) ==> end.phase == Rest
  {
    LineEnds(s);
  }

  /**
   Main result on refusals: the response is invalid exactly when, behind informational lines only, a character of a
   prefix does not fit.
   */
  lemma InvalidExact(s: string)
    ensures StatusCode(s).0 == Invalid <==> exists infos, rest, k :: Behind(s, infos, rest) && MisfitAt(0, rest, k)
  {
    if StatusCode(s).0 == Invalid {
      var infos, rest := Peel(s);
      LastBranchDead(rest);
      var k := StopsAt(0, rest);
      assert Behind(s, infos, rest) && MisfitAt(0, rest, k);
    }
    if infos, rest, k :| Behind(s, infos, rest) && MisfitAt(0, rest, k) {
      SkipInformational(infos, rest);
      EndsAtMisfit(0, rest, k);
    }
  }

  /** Behind informational lines only, the text breaks off, or a newline stands where any character of a prefix fits. */
  ghost predicate BreaksOff(s: string) {
    exists infos, rest :: Behind(s, infos, rest) && (Unfinished(0, rest) || exists k :: NewlineAt(0, rest, k))
  }

  /** Main result on timeouts: one is reported exactly in these two cases. */
  lemma TimedOutExact(s: string)
    ensures StatusCode(s).0 == TimedOut <==> BreaksOff(s)
  {
    if StatusCode(s).0 == TimedOut {
      var infos, rest := Peel(s);
      OutExact(0, rest);
      if ReadLine(Prefix(0), 0, rest) != Out {
        LineEnds(rest);
        var k := StopsAt(0, rest);
      }
      assert Behind(s, infos, rest);
    }
    if infos, rest :| Behind(s, infos, rest) && (Unfinished(0, rest) || exists k :: NewlineAt(0, rest, k)) {
      SkipInformational(infos, rest);
      if Unfinished(0, rest) {
        OutExact(0, rest);
      } else {
        var k :| NewlineAt(0, rest, k);
        EndsAtNewline(0, rest, k);
      }
    }
  }
}
