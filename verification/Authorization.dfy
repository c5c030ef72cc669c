/**
 The three base 64 encoders of the repository, the header that the HTTP client sends with two of them, and the value
 that the OTA server builds with the third and compares with the header.
 */
module Authorization {
  import opened Base64
  import opened Bits
  import opened Bytes

  // ---------------------------------------------------------------- b64.cpp

  /** s with t written over it from `at` on. */
  function Spliced(s: string, at: nat, t: string): (r: string)
    requires at + |t| <= |s|
    ensures |r| == |s|
  {
    s[..at] + t + s[at + |t|..]
  }

  lemma SplicedTwice(s: string, at: nat, t: string, u: string)
    requires at + |t| + |u| <= |s|
    ensures Spliced(Spliced(s, at, t), at + |t|, u) == Spliced(s, at, t + u)
  {
    var mid := Spliced(s, at, t);
    assert mid[..at + |t|] == s[..at] + t;
    assert mid[at + |t| + |u|..] == s[at + |t| + |u|..];
  }

  lemma IsSpliced(before: string, after: string, at: nat, t: string)
    requires |after| == |before| && at + |t| <= |before|
    requires after[..at] == before[..at] && after[at..at + |t|] == t && after[at + |t|..] == before[at + |t|..]
    ensures after == Spliced(before, at, t)
  {
    assert after == after[..at] + after[at..at + |t|] + after[at + |t|..];
  }

  /**
   `b64_encode(input, |input|, &output[at], room)`; the input is read only. The caller owns the memory that is written;
   the check of `room` alone does not guarantee that (see RoomCheckExact).
   */
  method B64Encode(input: seq<byte>, output: array<char>, at: nat, room: int) returns (r: nat)
    requires room >= |input| * 8 / 6 ==> at + Length(|input|) <= output.Length
    modifies output
    ensures room < |input| * 8 / 6 ==> r == |input| * 8 / 6 && output[..] == old(output[..])
    ensures room >= |input| * 8 / 6 ==>
      r == Length(|input|) && output[..] == Spliced(old(output[..]), at, Encode(input))
    decreases |input|
  {
    hide Encode, Spliced;
    var n := |input|;
    if room < n * 8 / 6 {
      return n * 8 / 6;
    }
    if n == 3 {
      EncodeThree(input, output, at);
    } else if n == 2 {
      EncodeTwo(input, output, at);
    } else if n == 1 {
      EncodeOne(input, output, at);
    } else {
      EncodeChunks(input, output, at, room);
    }
    r := Length(n);
  }

  method EncodeThree(s: seq<byte>, output: array<char>, at: nat)
    requires |s| == 3 && at + 4 <= output.Length
    modifies output
    ensures output[..] == Spliced(old(output[..]), at, Encode(s))
  {
    hide Letter, DICTIONARY, Spliced;
    ghost var before := output[..];
    DictionaryAt(s[0] / 4);
    var second, third := Second(s[0], s[1]), Third(s[1], s[2]);
    DictionaryAt(s[2] % 64);
    output[at] := DICTIONARY[s[0] / 4];
    output[at + 1] := DICTIONARY[second];
    output[at + 2] := DICTIONARY[third];
    output[at + 3] := DICTIONARY[s[2] % 64];
    assert Encode(s) == Group(s);
    IsSpliced(before, output[..], at, Group(s));
  }

  method EncodeTwo(s: seq<byte>, output: array<char>, at: nat)
    requires |s| == 2 && at + 4 <= output.Length
    modifies output
    ensures output[..] == Spliced(old(output[..]), at, Encode(s))
  {
    hide Letter, DICTIONARY, Spliced;
    ghost var before := output[..];
    DictionaryAt(s[0] / 4);
    var second := Second(s[0], s[1]);
    DictionaryAt(s[1] % 16 * 4);
    output[at] := DICTIONARY[s[0] / 4];
    output[at + 1] := DICTIONARY[second];
    output[at + 2] := DICTIONARY[s[1] % 16 * 4];
    output[at + 3] := '=';
    assert Encode(s) == Group(s);
    IsSpliced(before, output[..], at, Group(s));
  }

  method EncodeOne(s: seq<byte>, output: array<char>, at: nat)
    requires |s| == 1 && at + 4 <= output.Length
    modifies output
    ensures output[..] == Spliced(old(output[..]), at, Encode(s))
  {
    hide Letter, DICTIONARY, Spliced;
    ghost var before := output[..];
    DictionaryAt(s[0] / 4);
    DictionaryAt(s[0] % 4 * 16);
    output[at] := DICTIONARY[s[0] / 4];
    output[at + 1] := DICTIONARY[s[0] % 4 * 16];
    output[at + 2] := '=';
    output[at + 3] := '=';
    assert Encode(s) == Group(s);
    IsSpliced(before, output[..], at, Group(s));
  }

  /** `(a & 0x3)<<4|(b>>4)` */
  function Second(a: byte, b: byte): (v: sextet)
    ensures v == a % 4 * 16 + b / 16 && |DICTIONARY| == 64 && DICTIONARY[v] == Letter(v)
  {
    OrDisjoint(a % 4 * 16, b / 16, 16);
    DictionaryAt(a % 4 * 16 + b / 16);
    Or(a % 4 * 16, b / 16)
  }

  /** `(b&0x0F)<<2|(c>>6)` */
  function Third(b: byte, c: byte): (v: sextet)
    ensures v == b % 16 * 4 + c / 64 && |DICTIONARY| == 64 && DICTIONARY[v] == Letter(v)
  {
    OrDisjoint(b % 16 * 4, c / 64, 4);
    DictionaryAt(b % 16 * 4 + c / 64);
    Or(b % 16 * 4, c / 64)
  }

  /** The letters of the first k groups of three, and of what follows them. */
  lemma {:induction false} Append(s: seq<byte>, k: nat, more: nat)
    requires k * 3 + more <= |s|
    ensures Encode(s[..k * 3 + more]) == Encode(s[..k * 3]) + Encode(s[k * 3..k * 3 + more])
  {
    hide Encode;
    EncodeConcat(s[..k * 3], s[k * 3..k * 3 + more]);
    assert s[..k * 3 + more] == s[..k * 3] + s[k * 3..k * 3 + more];
  }

  /** Sizes of input and output when i of the chunks are done; n is the size of the whole. */
  lemma Sizes(n: nat, chunks: nat, rest: nat, i: nat)
    requires n == chunks * 3 + rest && rest < 3 && i <= chunks
    ensures n / 3 == chunks && n % 3 == rest && n * 8 / 6 == chunks * 4 + rest * 8 / 6
    ensures Length(i * 3) == i * 4 && Length(3) == 4 && i * 4 <= Length(n)
    ensures i < chunks ==> i * 3 + 3 <= n && i * 4 + 4 <= Length(n)
    ensures Length(n) == chunks * 4 + Length(rest)
  {
    assert n * 8 == 6 * (4 * chunks) + 8 * rest;
  }

  lemma LengthAdd(k: nat, more: nat)
    ensures Length(k * 3) == k * 4 && Length(k * 3 + more) == k * 4 + Length(more)
  {
  }

  /** One more chunk behind the first k. */
  lemma {:induction false} Extend(before: string, mid: string, after: string, at: nat, s: seq<byte>, k: nat, more: nat)
    requires k * 3 + more <= |s| && at + k * 4 + Length(more) <= |before|
    requires mid == Spliced(before, at, Encode(s[..k * 3]))
    requires after == Spliced(mid, at + k * 4, Encode(s[k * 3..k * 3 + more]))
    ensures Length(k * 3 + more) == k * 4 + Length(more)
    ensures after == Spliced(before, at, Encode(s[..k * 3 + more]))
  {
    hide *;
    LengthAdd(k, more);
    Append(s, k, more);
    SplicedTwice(before, at, Encode(s[..k * 3]), Encode(s[k * 3..k * 3 + more]));
  }

  method EncodeChunks(s: seq<byte>, output: array<char>, at: nat, room: int)
    requires (|s| == 0 || |s| > 3) && at + Length(|s|) <= output.Length && room >= |s| * 8 / 6
    modifies output
    ensures output[..] == Spliced(old(output[..]), at, Encode(s))
    decreases |s|, 0
  {
    ghost var before := output[..];
    var chunks, rest := |s| / 3, |s| % 3;
    Sizes(|s|, chunks, rest, chunks);
    hide *;
    EncodeTriples(s, chunks, output, at);
    assert chunks * 3 + rest == |s| && s[..|s|] == s;
    if rest > 0 {
      EncodeRest(s, chunks, rest, output, at, room, before);
    }
  }

  lemma NothingYet(before: string, at: nat, s: seq<byte>)
    requires at <= |before|
    ensures Encode(s[..0]) == "" && before == Spliced(before, at, Encode(s[..0]))
  {
    assert s[..0] == [];
  }

  /** The loop of `b64_encode`. */
  method EncodeTriples(s: seq<byte>, chunks: nat, output: array<char>, at: nat)
    requires |s| > 3 || chunks == 0
    requires chunks * 3 <= |s| && at + chunks * 4 <= output.Length
    modifies output
    ensures output[..] == Spliced(old(output[..]), at, Encode(s[..chunks * 3]))
    decreases |s|, 0, 1
  {
    hide *;
    ghost var before := output[..];
    var i := 0;
    NothingYet(before, at, s);
    while i < chunks
      invariant 0 <= i <= chunks && |Encode(s[..i * 3])| == i * 4
      invariant output[..] == Spliced(before, at, Encode(s[..i * 3]))
    {
      EncodeTriple(s, i, output, at, before);
      assert i * 3 + 3 == (i + 1) * 3;
      i := i + 1;
    }
  }

  lemma OneChunk(n: nat)
    requires 1 <= n <= 3
    ensures Length(n) == 4 && n * 8 / 6 <= 4
  {
  }

  method EncodeTriple(s: seq<byte>, i: nat, output: array<char>, at: nat, ghost before: string)
    requires |s| > 3 && i * 3 + 3 <= |s| && at + i * 4 + 4 <= output.Length == |before|
    requires |Encode(s[..i * 3])| == i * 4 && output[..] == Spliced(before, at, Encode(s[..i * 3]))
    modifies output
    ensures |Encode(s[..i * 3 + 3])| == i * 4 + 4 && output[..] == Spliced(before, at, Encode(s[..i * 3 + 3]))
    decreases |s|, 0, 0
  {
    hide *;
    var chunk := s[i * 3..i * 3 + 3];
    OneChunk(|chunk|);
    ghost var mid := output[..];
    var _ := B64Encode(chunk, output, at + i * 4, 4);
    Extend(before, mid, output[..], at, s, i, 3);
  }

  /** The bytes that do not fill a chunk. */
  method EncodeRest(s: seq<byte>, chunks: nat, rest: nat, output: array<char>, at: nat, room: int, ghost before: string)
    requires 0 < rest < 3 && chunks > 0 && |s| == chunks * 3 + rest
    requires at + chunks * 4 + 4 <= output.Length && room - chunks * 4 >= rest * 8 / 6
    requires |before| == output.Length && |Encode(s[..chunks * 3])| == chunks * 4
    requires output[..] == Spliced(before, at, Encode(s[..chunks * 3]))
    modifies output
    ensures output[..] == Spliced(before, at, Encode(s))
    decreases |s|, 0, 0
  {
    hide *;
    var chunk := s[chunks * 3..chunks * 3 + rest];
    OneChunk(|chunk|);
    ghost var mid := output[..];
    var _ := B64Encode(chunk, output, at + chunks * 4, room - chunks * 4);
    Extend(before, mid, output[..], at, s, chunks, rest);
    assert s[..chunks * 3 + rest] == s;
  }

  /** The least room that passes the check is what is written exactly for whole groups of three. */
  lemma RoomCheckExact(n: nat)
    ensures n * 8 / 6 <= Length(n)
    ensures n * 8 / 6 == Length(n) <==> n % 3 == 0
  {
    Sizes(n, n / 3, n % 3, 0);
  }

  // ---------------------------------------------------------------- sendBasicAuth

  const COLON: byte := 58

  function Credentials(user: seq<byte>, password: seq<byte>): seq<byte> {
    user + [COLON] + password
  }

  /** What `print` sends of a C string. */
  function CText(s: string): string {
    if s == "" || s[0] == '\0' then "" else [s[0]] + CText(s[1..])
  }

  lemma {:induction false} CTextOf(t: string, rest: string)
    requires '\0' !in t
    ensures CText(t + "\0" + rest) == t
  {
    if t != "" {
      assert (t + "\0" + rest)[1..] == t[1..] + "\0" + rest;
      CTextOf(t[1..], rest);
    }
  }

  lemma {:induction false} OnlyBase64(s: seq<byte>)
    ensures forall c :: c in Encode(s) ==> Value(c).Some? || c == '='
    decreases |s|
  {
    hide Letter, Value;
    if |s| > 3 {
      OnlyBase64(s[3..]);
    }
  }

  /** Encodes the bytes that have been collected; the value is what is printed. */
  method EncodeChunk(input: array<byte>, inputOffset: nat, output: array<char>) returns (printed: string)
    requires 1 <= inputOffset <= input.Length == 3 && output.Length == 5
    modifies output
    ensures printed == Encode(input[..inputOffset])
  {
    ghost var s := input[..inputOffset];
    var _ := B64Encode(input[..inputOffset], output, 0, 4);
    assert output[..4] == Encode(s);
    OnlyBase64(s);
    output[4] := '\0';
    assert output[..] == output[..4] + "\0" + "";
    CTextOf(output[..4], "");
    printed := CText(output[..]);
  }

  const BASIC: string := "Authorization: Basic "

  /** Copies byte i of the credentials. */
  method Collect(user: seq<byte>, password: seq<byte>, i: nat, input: array<byte>, inputOffset: nat)
    requires i <= |user| + |password| && inputOffset < input.Length
    modifies input
    ensures input[..inputOffset + 1] == old(input[..inputOffset]) + [Credentials(user, password)[i]]
  {
    if i < |user| {
      input[inputOffset] := user[i];
    } else if i == |user| {
      input[inputOffset] := COLON;
    } else {
      input[inputOffset] := password[i - (|user| + 1)];
    }
  }

  /** The first i bytes of `all` are dealt with: k chunks have been printed and the rest is in `input`. */
  ghost predicate Collected(all: seq<byte>, i: nat, k: nat, input: seq<byte>, text: string) {
    && i <= |all|
    && (if i == |all| then input == [] && text == Encode(all)
        else |input| < 3 && i == k * 3 + |input| && input == all[k * 3..i] && text == Encode(all[..k * 3]))
  }

  lemma AllCollected(all: seq<byte>, k: nat, input: seq<byte>, text: string)
    requires Collected(all, |all|, k, input, text)
    ensures text == Encode(all)
  {
  }

  lemma OneMore(all: seq<byte>, from: nat, i: nat)
    requires from <= i < |all|
    ensures all[from..i] + [all[i]] == all[from..i + 1] && (i + 1 == |all| ==> all[..i + 1] == all)
  {
  }

  lemma ChunkFull(all: seq<byte>, i: nat, k: nat, before: seq<byte>, after: seq<byte>, text: string)
    requires Collected(all, i, k, before, text) && i < |all| && after == before + [all[i]]
    requires |after| == 3 || i + 1 == |all|
    ensures Collected(all, i + 1, k + 1, [], text + Encode(after))
  {
    hide Encode, Length;
    OneMore(all, k * 3, i);
    Append(all, k, |after|);
  }

  lemma ChunkOpen(all: seq<byte>, i: nat, k: nat, before: seq<byte>, after: seq<byte>, text: string)
    requires Collected(all, i, k, before, text) && i < |all| && after == before + [all[i]]
    requires |after| < 3 && i + 1 < |all|
    ensures Collected(all, i + 1, k, after, text)
  {
    hide Encode;
    OneMore(all, k * 3, i);
  }

  /** One turn of the loop; `text` is what has been printed before. */
  method Turn(user: seq<byte>, password: seq<byte>, i: nat, input: array<byte>, inputOffset: nat, output: array<char>,
              ghost k: nat, ghost text: string)
    returns (printed: string, nextOffset: nat, ghost next: nat)
    requires input.Length == 3 && output.Length == 5 && inputOffset < 3 && i <= |user| + |password|
    requires Collected(Credentials(user, password), i, k, input[..inputOffset], text)
    modifies input, output
    ensures nextOffset < 3
    ensures Collected(Credentials(user, password), i + 1, next, input[..nextOffset], text + printed)
  {
    ghost var all := Credentials(user, password);
    assert |all| == |user| + 1 + |password|;
    hide *;
    ghost var before := input[..inputOffset];
    Collect(user, password, i, input, inputOffset);
    nextOffset := inputOffset + 1;
    next := k;
    if nextOffset == 3 || i == |user| + |password| {
      ChunkFull(all, i, k, before, input[..nextOffset], text);
      printed := EncodeChunk(input, nextOffset, output);
      nextOffset := 0;
      next := k + 1;
      assert input[..0] == [];
    } else {
      ChunkOpen(all, i, k, before, input[..nextOffset], text);
      printed := "";
      assert text + printed == text;
    }
  }

  lemma Associative(a: string, b: string, c: string)
    ensures a + b + c == a + (b + c)
  {
  }

  /** `user` and `password` are the bytes before the terminating zero. */
  method SendBasicAuth(user: seq<byte>, password: seq<byte>) returns (sent: string)
    ensures sent == BASIC + Encode(Credentials(user, password)) + "\r\n"
  {
    ghost var all, text, k := Credentials(user, password), "", 0;
    assert |all| == |user| + 1 + |password| && all[..0] == [] && Encode(all[..0]) == "";
    sent := BASIC;
    var input, output := new byte[3], new char[5];
    var inputOffset: nat, i: nat := 0, 0;
    assert Collected(all, 0, 0, input[..0], "");
    hide *;
    while i < |user| + 1 + |password|
      invariant inputOffset < 3 && i <= |all|
      invariant Collected(all, i, k, input[..inputOffset], text)
      invariant sent == BASIC + text
    {
      var printed, nextOffset, next := Turn(user, password, i, input, inputOffset, output, k, text);
      Associative(BASIC, text, printed);
      sent := sent + printed;
      inputOffset := nextOffset;
      text, k := text + printed, next;
      i := i + 1;
    }
    AllCollected(all, k, input[..inputOffset], text);
    sent := sent + "\r\n";
  }

  // ---------------------------------------------------------------- WiFiOTA.cpp

  /** Where a turn that begins at byte i ends. */
  function Until(text: seq<byte>, i: nat): (end: nat)
    ensures end <= |text|
  {
    if i + 3 <= |text| then i + 3 else |text|
  }

  /** One turn of the loop: appends the letters of up to three bytes. */
  method AppendGroup(text: seq<byte>, i: nat, soFar: string) returns (out: string)
    requires i < |text|
    ensures out == soFar + Encode(text[i..Until(text, i)])
  {
    ghost var s := text[i..Until(text, i)];
    assert Encode(s) == Group(s);
    hide Letter, DICTIONARY, Encode;
    DictionaryAt(text[i] / 4);
    out := soFar + [DICTIONARY[text[i] / 4]];
    if i + 1 < |text| {
      var second := Second(text[i], text[i + 1]);
      out := out + [DICTIONARY[second]];
      out := AppendLast(text, i, out);
    } else {
      DictionaryAt(text[i] % 4 * 16);
      out := out + [DICTIONARY[text[i] % 4 * 16]];
      out := out + "==";
    }
  }

  /** The third and fourth letter of a group of two or three bytes. */
  method AppendLast(text: seq<byte>, i: nat, soFar: string) returns (out: string)
    requires i + 1 < |text|
    ensures out == soFar + Group(text[i..Until(text, i)])[2..]
  {
    hide Letter, DICTIONARY;
    if i + 2 < |text| {
      var third := Third(text[i + 1], text[i + 2]);
      DictionaryAt(text[i + 2] % 64);
      out := soFar + [DICTIONARY[third]];
      out := out + [DICTIONARY[text[i + 2] % 64]];
    } else {
      DictionaryAt(text[i + 1] % 16 * 4);
      out := soFar + [DICTIONARY[text[i + 1] % 16 * 4]];
      out := out + "=";
    }
  }

  method AppendNext(text: seq<byte>, i: nat, soFar: string, ghost k: nat) returns (out: string)
    requires i == k * 3 < |text| && soFar == Encode(text[..i])
    ensures out == Encode(text[..Until(text, i)])
  {
    hide Encode;
    out := AppendGroup(text, i, soFar);
    Append(text, k, Until(text, i) - i);
  }

  /** `base64Encode` */
  method Base64Encode(text: seq<byte>) returns (out: string)
    ensures out == Encode(text)
  {
    assert text[..0] == [] && Encode(text[..0]) == "" && text[..|text|] == text;
    hide Encode;
    out := "";
    var i := 0;
    ghost var k := 0;
    while i < |text|
      invariant i == k * 3
      invariant out == Encode(text[..if i < |text| then i else |text|])
    {
      out := AppendNext(text, i, out, k);
      i := i + 3;
      k := k + 1;
    }
  }

  /** "arduino" */
  const BOARD: seq<byte> := [97, 114, 100, 117, 105, 110, 111]

  function Expected(password: seq<byte>): string {
    "Basic " + Encode(Credentials(BOARD, password))
  }

  method Begin(password: seq<byte>) returns (expectedAuthorization: string)
    ensures expectedAuthorization == Expected(password)
  {
    var text := Base64Encode(BOARD + [COLON] + password);
    expectedAuthorization := "Basic " + text;
  }

  /** `readStringUntil('\n')` */
  function Line(s: string): string {
    if s == "" || s[0] == '\n' then "" else [s[0]] + Line(s[1..])
  }

  predicate Space(c: char) {
    c in {' ', '\t', '\n', '\r', 11 as char, 12 as char}
  }

  function TrimStart(s: string): string {
    if s != "" && Space(s[0]) then TrimStart(s[1..]) else s
  }

  function TrimEnd(s: string): string {
    if s != "" && Space(s[|s| - 1]) then TrimEnd(s[..|s| - 1]) else s
  }

  const FIELD: string := "Authorization: "

  /** The value the server takes from a header line; None if the line is another header. */
  function AuthorizationOf(sent: string): Option<string> {
    var header := TrimEnd(TrimStart(Line(sent)));
    if FIELD <= header then Some(header[|FIELD|..]) else None
  }

  lemma {:induction false} LineOf(t: string)
    requires '\n' !in t
    ensures Line(t + "\n") == t
  {
    if t != "" {
      assert (t + "\n")[1..] == t[1..] + "\n";
      LineOf(t[1..]);
    }
  }

  /** The server reads back exactly the value the client sent. */
  lemma HeaderArrives(value: string)
    requires value != "" && '\n' !in value && !Space(value[|value| - 1])
    ensures AuthorizationOf(FIELD + value + "\r\n") == Some(value)
  {
    var t := FIELD + value;
    assert FIELD[0] == 'A' && '\n' !in FIELD;
    LineOf(t + "\r");
    assert FIELD + value + "\r\n" == t + "\r" + "\n";
    assert TrimStart(t + "\r") == t + "\r";
    assert (t + "\r")[..|t|] == t && t[|t| - 1] == value[|value| - 1];
    assert TrimEnd(t + "\r") == TrimEnd(t) == t;
  }

  lemma Plain(c: char)
    requires Value(c).Some? || c == '='
    ensures c != '\n' && !Space(c)
  {
  }

  lemma Base64IsPlain(s: seq<byte>)
    requires s != []
    ensures '\n' !in Encode(s)
    ensures Encode(s) != "" && !Space(Encode(s)[|Encode(s)| - 1])
  {
    OnlyBase64(s);
    hide Encode, Value, Space;
    forall c | c in Encode(s)
      ensures c != '\n' && !Space(c)
    {
      Plain(c);
    }
  }

  lemma SameAfter(prefix: string, a: string, b: string)
    ensures prefix + a == prefix + b <==> a == b
  {
    assert (prefix + a)[|prefix|..] == a && (prefix + b)[|prefix|..] == b;
  }

  /**
   Main result on the header: what the client sends for a user and a password is what the server expects exactly when
   the credentials are the server's.
   */
  lemma {:induction false} AcceptedExact(user: seq<byte>, password: seq<byte>, expected: seq<byte>)
    ensures var sent := BASIC + Encode(Credentials(user, password)) + "\r\n";
      AuthorizationOf(sent) == Some(Expected(expected)) <==> Credentials(user, password) == Credentials(BOARD, expected)
  {
    var own := Credentials(user, password);
    var value := "Basic " + Encode(own);
    Base64IsPlain(own);
    hide Encode, Credentials;
    assert '\n' !in "Basic ";
    assert BASIC == FIELD + "Basic ";
    assert BASIC + Encode(own) + "\r\n" == FIELD + value + "\r\n";
    assert value[|value| - 1] == Encode(own)[|Encode(own)| - 1];
    HeaderArrives(value);
    Injective(own, Credentials(BOARD, expected));
    SameAfter("Basic ", Encode(own), Encode(Credentials(BOARD, expected)));
  }

  /** What is sent for "arduino" and a password, and expected, octet by octet: the name, a colon and the password. */
  lemma BoardText(password: seq<byte>)
    ensures var text := [0x61, 0x72, 0x64, 0x75, 0x69, 0x6E, 0x6F, 0x3A] + password;
      && Expected(password) == "Basic " + Encode(text)
      && BASIC + Encode(Credentials(BOARD, password)) == "Authorization: Basic " + Encode(text)
  {
    assert Credentials(BOARD, password) == [0x61, 0x72, 0x64, 0x75, 0x69, 0x6E, 0x6F, 0x3A] + password;
  }

  /** For the user the server is made for, the header is accepted exactly when the passwords are equal. */
  lemma PasswordExact(password: seq<byte>, expected: seq<byte>)
    ensures AuthorizationOf(BASIC + Encode(Credentials(BOARD, password)) + "\r\n") == Some(Expected(expected))
      <==> password == expected
  {
    AcceptedExact(BOARD, password, expected);
    assert Credentials(BOARD, password)[|BOARD| + 1..] == password;
    assert Credentials(BOARD, expected)[|BOARD| + 1..] == expected;
  }
}
