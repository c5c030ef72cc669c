/** The head of an upload request: the header loop of `pollServer`, against an independent reading of the lines. */
module OtaRequest {
  import opened Authorization
  import opened Base64
  import opened Bytes
  import opened HttpHeaders
  import opened Numerals

  /** The request as the header loop leaves it: its first line, the last Content-Length and Authorization values. */
  datatype Request = Request(line: string, contentLength: int, authorization: string)

  const LENGTH_FIELD: string := "Content-Length: "

  /** What `readStringUntil('\n')` leaves in the stream. */
  function Behind(text: string): (rest: string)
    ensures text != "" ==> |rest| < |text|
  {
    if text == "" || text[0] == '\n' then (if text == "" then "" else text[1..]) else Behind(text[1..])
  }

  function Trim(s: string): string {
    TrimEnd(TrimStart(s))
  }

  /** `toInt`, as far as the number fits: blanks, a sign, digits. */
  function ToInt(s: string): int {
    var t := TrimStart(s);
    if t != "" && t[0] == '-' then 0 - Decimal(Digits(t[1..]))
    else Decimal(Digits(if t != "" && t[0] == '+' then t[1..] else t))
  }

  function WithHeader(r: Request, header: string): Request {
    if LENGTH_FIELD <= header then r.(contentLength := ToInt(header[|LENGTH_FIELD|..]))
    else if FIELD <= header then r.(authorization := header[|FIELD|..])
    else r
  }

  /** The loop from here on; and what it leaves in the stream. */
  function Headers(r: Request, text: string): (Request, string)
    decreases |text|
  {
    var header := Trim(Line(text));
    if header == "" then (r, Behind(text)) else Headers(WithHeader(r, header), Behind(text))
  }

  function RequestOf(text: string): (Request, string) {
    Headers(Request(Trim(Line(text)), -1, ""), Behind(text))
  }

  lemma {:induction false} TrimmedEnd(s: string)
    ensures TrimEnd(s) != "" ==> !Space(TrimEnd(s)[|TrimEnd(s)| - 1])
  {
    if s != "" && Space(s[|s| - 1]) {
      TrimmedEnd(s[..|s| - 1]);
    }
  }

  /** A header that has been trimmed is never used up by its field name, which ends with a blank. */
  lemma SomethingLeft(s: string)
    ensures LENGTH_FIELD <= Trim(s) ==> |Trim(s)| > |LENGTH_FIELD|
    ensures FIELD <= Trim(s) ==> |Trim(s)| > |FIELD|
  {
    TrimmedEnd(TrimStart(s));
    assert LENGTH_FIELD[15] == ' ' && FIELD[14] == ' ' && |LENGTH_FIELD| == 16 && |FIELD| == 15;
    assert Trim(s) == TrimEnd(TrimStart(s));
    hide Trim, LENGTH_FIELD, FIELD;
    NotAll(Trim(s), LENGTH_FIELD);
    NotAll(Trim(s), FIELD);
  }

  lemma NotAll(t: string, prefix: string)
    requires t != "" ==> !Space(t[|t| - 1])
    requires prefix != "" && Space(prefix[|prefix| - 1])
    ensures prefix <= t ==> |prefix| < |t|
  {
  }

  /** `client.readStringUntil('\n')` */
  method ReadStringUntilNewline(text: string) returns (line: string, rest: string)
    ensures line == Line(text) && rest == Behind(text)
  {
    line, rest := "", text;
    while rest != "" && rest[0] != '\n'
      invariant line + Line(rest) == Line(text) && Behind(rest) == Behind(text)
      decreases |rest|
    {
      assert line + ([rest[0]] + Line(rest[1..])) == line + [rest[0]] + Line(rest[1..]);
      line := line + [rest[0]];
      rest := rest[1..];
    }
    assert line + "" == line;
    if rest != "" {
      rest := rest[1..];
    }
  }

  /** The first line and the header loop, which tests what is left of the header it has looked at. */
  method ReadRequest(text: string) returns (request: Request, left: string)
    ensures (request, left) == RequestOf(text)
  {
    var line;
    line, left := ReadStringUntilNewline(text);
    var contentLength, authorization := -1, "";
    var first := Trim(line);
    var header := ".";
    while header != ""
      invariant header != "" ==> Headers(Request(first, contentLength, authorization), left) == RequestOf(text)
      invariant header == "" ==> (Request(first, contentLength, authorization), left) == RequestOf(text)
      decreases header != "", |left|
    {
      line, left := ReadStringUntilNewline(left);
      header := Trim(line);
      SomethingLeft(line);
      if LENGTH_FIELD <= header {
        header := header[|LENGTH_FIELD|..];
        contentLength := ToInt(header);
      } else if FIELD <= header {
        header := header[|FIELD|..];
        authorization := header;
      }
    }
    request := Request(first, contentLength, authorization);
  }

  // ---------------------------------------------------------------- an independent reading of the head

  /** A header line as it is sent: anything but a newline, and not only blanks. */
  predicate Sent(line: string) {
    '\n' !in line && Trim(line) != ""
  }

  /** The line that ends the headers. */
  predicate Blank(line: string) {
    '\n' !in line && Trim(line) == ""
  }

  function Head(lines: seq<string>, blank: string): string {
    if lines == [] then blank + "\n" else lines[0] + "\n" + Head(lines[1..], blank)
  }

  function Trimmed(lines: seq<string>): (r: seq<string>)
    ensures |r| == |lines|
  {
    if lines == [] then [] else [Trim(lines[0])] + Trimmed(lines[1..])
  }

  /** What follows the prefix in the last of the lines that begin with it. */
  function LastValue(lines: seq<string>, prefix: string): Option<string> {
    if lines == [] then None
    else
      var line := lines[|lines| - 1];
      if prefix <= line then Some(line[|prefix|..]) else LastValue(lines[..|lines| - 1], prefix)
  }

  /** The request the lines stand for. */
  function Meant(first: string, lines: seq<string>): Request {
    var length, authorization := LastValue(lines, LENGTH_FIELD), LastValue(lines, FIELD);
    Request(first, if length.Some? then ToInt(length.value) else -1,
            if authorization.Some? then authorization.value else "")
  }

  lemma {:induction false} LineBehind(t: string, rest: string)
    requires '\n' !in t
    ensures Line(t + "\n" + rest) == t && Behind(t + "\n" + rest) == rest
  {
    var s := t + "\n" + rest;
    if t == "" {
      assert s[0] == '\n' && s[1..] == rest;
    } else {
      assert s[0] == t[0] && s[1..] == t[1..] + "\n" + rest;
      LineBehind(t[1..], rest);
    }
  }

  function AllHeaders(r: Request, lines: seq<string>): Request
    decreases |lines|
  {
    if lines == [] then r else AllHeaders(WithHeader(r, lines[0]), lines[1..])
  }

  lemma {:induction false} HeadRead(r: Request, lines: seq<string>, blank: string, left: string)
    requires Blank(blank) && forall i :: 0 <= i < |lines| ==> Sent(lines[i])
    ensures Headers(r, Head(lines, blank) + left) == (AllHeaders(r, Trimmed(lines)), left)
    decreases |lines|
  {
    hide WithHeader, Trim;
    if lines == [] {
      LineBehind(blank, left);
    } else {
      var rest := Head(lines[1..], blank) + left;
      assert Head(lines, blank) + left == lines[0] + "\n" + rest;
      LineBehind(lines[0], rest);
      HeadRead(WithHeader(r, Trim(lines[0])), lines[1..], blank, left);
      assert Trimmed(lines)[1..] == Trimmed(lines[1..]);
    }
  }

  lemma {:induction false} AllHeadersSnoc(r: Request, lines: seq<string>, line: string)
    ensures AllHeaders(r, lines + [line]) == WithHeader(AllHeaders(r, lines), line)
    decreases |lines|
  {
    hide WithHeader;
    if lines == [] {
      assert (lines + [line])[1..] == [];
    } else {
      assert (lines + [line])[1..] == lines[1..] + [line];
      AllHeadersSnoc(WithHeader(r, lines[0]), lines[1..], line);
    }
  }

  lemma FieldsDiffer(line: string)
    ensures !(LENGTH_FIELD <= line && FIELD <= line)
  {
    assert LENGTH_FIELD[0] == 'C' && FIELD[0] == 'A';
  }

  lemma {:induction false} HeadersMeaning(first: string, lines: seq<string>)
    ensures AllHeaders(Request(first, -1, ""), lines) == Meant(first, lines)
    decreases |lines|
  {
    if lines != [] {
      var before, line := lines[..|lines| - 1], lines[|lines| - 1];
      assert lines == before + [line];
      HeadersMeaning(first, before);
      AllHeadersSnoc(Request(first, -1, ""), before, line);
      FieldsDiffer(line);
      hide LENGTH_FIELD, FIELD, ToInt;
    }
  }

  /**
   Main result on the head, whatever blanks are around its lines: the values of the last Content-Length and
   Authorization lines, and the body left over.
   */
  lemma RequestRead(first: string, lines: seq<string>, blank: string, left: string)
    requires '\n' !in first && Blank(blank) && forall i :: 0 <= i < |lines| ==> Sent(lines[i])
    ensures RequestOf(first + "\n" + Head(lines, blank) + left) == (Meant(Trim(first), Trimmed(lines)), left)
  {
    hide Head, Headers, Line, Behind, Trim, Sent, Blank, Meant, AllHeaders, Trimmed;
    var start, head := first + "\n", Head(lines, blank);
    assert start + head + left == start + (head + left);
    LineBehind(first, head + left);
    HeadRead(Request(Trim(first), -1, ""), lines, blank, left);
    HeadersMeaning(Trim(first), Trimmed(lines));
  }

  lemma {:induction false} LastValueBehind(lines: seq<string>, more: seq<string>, prefix: string)
    requires forall i :: 0 <= i < |more| ==> !(prefix <= more[i])
    ensures LastValue(lines + more, prefix) == LastValue(lines, prefix)
    decreases |more|
  {
    if more == [] {
      assert lines + more == lines;
    } else {
      var k := |more| - 1;
      assert (lines + more)[..|lines + more| - 1] == lines + more[..k];
      LastValueBehind(lines, more[..k], prefix);
    }
  }

  lemma ToIntRead(n: nat)
    ensures ToInt(SpellDec(n)) == n
  {
    DecimalDigits(n);
    DecimalRead(n);
    AllDigits(SpellDec(n));
    assert SpellDec(n)[0] in SpellDec(n);
    hide SpellDec;
  }

  lemma NothingToTrim(s: string)
    requires s != "" && !Space(s[0]) && !Space(s[|s| - 1])
    ensures Trim(s) == s
  {
  }

  lemma {:induction false} TrimmedConcat(a: seq<string>, b: seq<string>)
    ensures Trimmed(a + b) == Trimmed(a) + Trimmed(b)
    decreases |a|
  {
    hide Trim;
    if a == [] {
      assert a + b == b;
    } else {
      assert (a + b)[1..] == a[1..] + b;
      TrimmedConcat(a[1..], b);
    }
  }

  lemma {:induction false} TrimmedAt(lines: seq<string>, i: nat)
    requires i < |lines|
    ensures Trimmed(lines)[i] == Trim(lines[i])
  {
    hide Trim;
    if i > 0 {
      TrimmedAt(lines[1..], i - 1);
    }
  }

  /** A length line as a client writes it. */
  lemma LengthSent(n: nat)
    ensures var line := "Content-Length: " + SpellDec(n);
      Sent(line) && Trim(line) == line && LENGTH_FIELD <= line && line[|LENGTH_FIELD|..] == SpellDec(n)
  {
    DecimalDigits(n);
    var digits := SpellDec(n);
    assert digits[|digits| - 1] in digits;
    hide SpellDec;
    var line := "Content-Length: " + digits;
    assert line[0] == 'C' && line[|line| - 1] == digits[|digits| - 1];
    NothingToTrim(line);
    assert '\n' !in "Content-Length: ";
  }

  /** In particular: a length in decimal digits, with no other length behind it. */
  lemma LengthAnnounced(first: string, before: seq<string>, n: nat, more: seq<string>, blank: string, left: string)
    requires '\n' !in first && Blank(blank)
    requires forall i :: 0 <= i < |before| ==> Sent(before[i])
    requires forall i :: 0 <= i < |more| ==> Sent(more[i]) && !("Content-Length: " <= Trim(more[i]))
    ensures var lines := before + ["Content-Length: " + SpellDec(n)] + more;
      RequestOf(first + "\n" + Head(lines, blank) + left).0.contentLength == n
  {
    var line := "Content-Length: " + SpellDec(n);
    var lines := before + [line] + more;
    LengthSent(n);
    ToIntRead(n);
    hide SpellDec, Trim, Sent, Blank, Head, Headers, ToInt;
    RequestRead(first, lines, blank, left);
    TrimmedConcat(before + [line], more);
    TrimmedConcat(before, [line]);
    assert [line][1..] == [] && Trimmed([line]) == [line];
    forall i | 0 <= i < |more|
      ensures !(LENGTH_FIELD <= Trimmed(more)[i])
    {
      TrimmedAt(more, i);
    }
    var shown := Trimmed(before) + [line];
    LastValueBehind(shown, Trimmed(more), LENGTH_FIELD);
    assert shown[|shown| - 1] == line;
  }

  /** A request whose last Authorization line is what the HTTP client sends is let in for the right credentials only. */
  lemma ClientAccepted(first: string, lines: seq<string>, blank: string, left: string, user: seq<byte>,
                       password: seq<byte>, expected: seq<byte>)
    requires '\n' !in first && Blank(blank) && forall i :: 0 <= i < |lines| ==> Sent(lines[i])
    requires LastValue(Trimmed(lines), FIELD) == Some("Basic " + Encode(Credentials(user, password)))
    ensures RequestOf(first + "\n" + Head(lines, blank) + left).0.authorization == Expected(expected) <==>
      Credentials(user, password) == Credentials(BOARD, expected)
  {
    RequestRead(first, lines, blank, left);
    Injective(Credentials(user, password), Credentials(BOARD, expected));
    hide Encode, Credentials;
    SameAfter("Basic ", Encode(Credentials(user, password)), Encode(Credentials(BOARD, expected)));
  }
}
