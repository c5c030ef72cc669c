/**
 The response reader of HttpClient.cpp, on values: the header parser that matches two prefixes at once, and the
 chunk decoder that runs inside `available()` and `read()`.

 `Feed` is the byte-at-a-time reader the two together amount to; `Poll` is one call of the client, which takes from
 the socket only what has arrived. Octets are characters.
 */
module Http {
  import opened Bytes

  /** The states of `tHttpState` from the end of the status line on. */
  datatype State =
    | StatusCodeRead | ReadingContentLength | SkipToEndOfHeader | LineStartingCRFound
    | ReadingBody | ReadingChunkLength | ReadingBodyChunk

  const CONTENT_LENGTH: string := "Content-Length: "
  const CHUNKED: string := "Transfer-Encoding: chunked"
  const NO_CONTENT_LENGTH: int := -1

  /** `cl` and `te` are how far the two prefix pointers have advanced. */
  datatype Reader = Reader(
    state: State, cl: nat, te: nat, contentLength: int, consumed: int, chunked: bool, chunkLength: int)

  const INT_LIMIT: int := 0x8000_0000

  /** The value of an int or long of 32 bits after an operation whose exact result is x. */
  function Wrap(x: int): (r: int)
    ensures -INT_LIMIT <= r < INT_LIMIT
    ensures -INT_LIMIT <= x < INT_LIMIT ==> r == x
    ensures (r - x) % 0x1_0000_0000 == 0
  {
    if -INT_LIMIT <= x < INT_LIMIT then x else (x + 0x8000_0000) % 0x1_0000_0000 - 0x8000_0000
  }

  predicate EndOfHeaders(r: Reader) {
    r.state == ReadingBody || r.state == ReadingChunkLength || r.state == ReadingBodyChunk
  }

  predicate IsDigit(c: char) { '0' <= c <= '9' }

  predicate IsHexDigit(c: char) {
    IsDigit(c) || 'a' <= c <= 'f' || 'A' <= c <= 'F'
  }

  function DigitValue(c: char): (v: nat)
    requires IsHexDigit(c)
    ensures v < 16 && (IsDigit(c) ==> v < 10)
  {
    if IsDigit(c) then c as int - '0' as int
    else if 'a' <= c <= 'f' then c as int - 'a' as int + 10
    else c as int - 'A' as int + 10
  }

  // ---------------------------------------------------------------- one octet

  /** One octet of the start line of a header: both matchers look at it, the first that fits advances. */
  function MatchPrefixes(r: Reader, c: char): Reader
    requires r.cl < |CONTENT_LENGTH| && r.te < |CHUNKED|
  {
    if CONTENT_LENGTH[r.cl] == c then
      if r.cl + 1 == |CONTENT_LENGTH| then
        r.(cl := r.cl + 1, state := ReadingContentLength, contentLength := 0, consumed := 0)
      else r.(cl := r.cl + 1)
    else if CHUNKED[r.te] == c then
      if r.te + 1 == |CHUNKED| then r.(te := r.te + 1, chunked := true, state := SkipToEndOfHeader)
      else r.(te := r.te + 1)
    else if r.cl == 0 && r.te == 0 && c == '\r' then r.(state := LineStartingCRFound)
    else r.(state := SkipToEndOfHeader)
  }

  predicate Matching(r: Reader) {
    r.state == StatusCodeRead ==> r.cl < |CONTENT_LENGTH| && r.te < |CHUNKED|
  }

  function AddDigit(length: int, c: char): int
    requires IsDigit(c)
  {
    var longer := Wrap(length * 10 + DigitValue(c));
    if longer > length then longer else length
  }

  /** One octet of the header block. */
  function FeedHeader(r: Reader, c: char): (r': Reader)
    requires !EndOfHeaders(r) && Matching(r)
    ensures Matching(r')
  {
    var s := match r.state
      case StatusCodeRead => MatchPrefixes(r, c)
      case ReadingContentLength =>
        if IsDigit(c) then r.(contentLength := AddDigit(r.contentLength, c)) else r.(state := SkipToEndOfHeader)
      case LineStartingCRFound =>
        if c != '\n' then r
        else if r.chunked then r.(state := ReadingChunkLength, chunkLength := 0)
        else r.(state := ReadingBody)
      case _ => r;
    if c == '\n' && !EndOfHeaders(s) then s.(state := StatusCodeRead, cl := 0, te := 0) else s
  }

  /** One octet of a chunk-size line. */
  function FeedSize(r: Reader, c: char): Reader {
    if c == '\n' then (if r.chunkLength == 0 then r else r.(state := ReadingBodyChunk))
    else if IsHexDigit(c) then r.(chunkLength := Wrap(r.chunkLength * 16 + DigitValue(c)))
    else r
  }

  /** One octet of the body, handed to the caller. */
  function FeedBody(r: Reader): Reader {
    var s := if r.contentLength > 0 then r.(consumed := Wrap(r.consumed + 1)) else r;
    if s.state != ReadingBodyChunk then s
    else
      var left := Wrap(s.chunkLength - 1);
      s.(chunkLength := left, state := if left == 0 then ReadingChunkLength else ReadingBodyChunk)
  }

  /** The reader after one octet, and what that octet gives the caller. */
  function Feed(r: Reader, c: char): (p: (Reader, string))
    requires Matching(r)
    ensures Matching(p.0)
  {
    if !EndOfHeaders(r) then (FeedHeader(r, c), "")
    else if r.state == ReadingChunkLength then (FeedSize(r, c), "")
    else (FeedBody(r), [c])
  }

  function FeedAll(r: Reader, s: string): (p: (Reader, string))
    requires Matching(r)
    ensures Matching(p.0)
    decreases |s|
  {
    if s == "" then (r, "")
    else
      var (r1, out1) := Feed(r, s[0]);
      var (r2, out2) := FeedAll(r1, s[1..]);
      (r2, out1 + out2)
  }

  lemma {:induction false} FeedAllConcat(r: Reader, s: string, t: string)
    requires Matching(r)
    ensures var (r1, out1) := FeedAll(r, s); var (r2, out2) := FeedAll(r1, t);
      FeedAll(r, s + t) == (r2, out1 + out2)
    decreases |s|
  {
    hide Feed;
    if s == "" {
      assert s + t == t;
      var (r2, out2) := FeedAll(r, t);
      assert "" + out2 == out2;
    } else {
      var (r0, out0) := Feed(r, s[0]);
      FeedAllConcat(r0, s[1..], t);
      assert (s + t)[1..] == s[1..] + t;
      var (r1, out1) := FeedAll(r0, s[1..]);
      var (r2, out2) := FeedAll(r1, t);
      assert out0 + (out1 + out2) == (out0 + out1) + out2;
    }
  }

  // ---------------------------------------------------------------- one call

  /** The loop of `available()`: size-line octets are taken up to the end of the line or of what has arrived. */
  function SkipSizeLine(r: Reader, buf: string): (Reader, string)
    decreases |buf|
  {
    if buf == "" then (r, buf)
    else if buf[0] == '\n' then (FeedSize(r, buf[0]), buf[1..])
    else SkipSizeLine(FeedSize(r, buf[0]), buf[1..])
  }

  /** `read()` on what has arrived; None stands for -1. */
  function ReadBody(r: Reader, buf: string): (Reader, string, Option<char>) {
    var (r1, rest) := if r.state == ReadingChunkLength then SkipSizeLine(r, buf) else (r, buf);
    if r1.state == ReadingChunkLength || rest == "" then (r1, rest, None)
    else (FeedBody(r1), rest[1..], Some(rest[0]))
  }

  /** The client: its reader, what has arrived and not been taken, and what the calls so far returned. */
  datatype Client = Client(reader: Reader, buf: string, out: string)

  /** One turn of the caller: skip a header octet if one has arrived, or read the body. */
  function Poll(c: Client): (c': Client)
    requires Matching(c.reader)
    ensures Matching(c'.reader)
  {
    if !EndOfHeaders(c.reader) then
      if c.buf == "" then c else Client(FeedHeader(c.reader, c.buf[0]), c.buf[1..], c.out)
    else
      var (r, rest, got) := ReadBody(c.reader, c.buf);
      ReadBodyIsFeed(c.reader, c.buf);
      Client(r, rest, c.out + (if got.Some? then [got.value] else ""))
  }

  /** A turn adds what it gets to the results so far. */
  lemma PollAppends(c: Client)
    requires Matching(c.reader)
    ensures var p := Poll(c.(out := "")); Poll(c) == p.(out := c.out + p.out)
  {
    assert c.out + "" == c.out;
    var got := ReadBody(c.reader, c.buf).2;
    assert "" + (if got.Some? then [got.value] else "") == (if got.Some? then [got.value] else "");
  }

  /** A schedule mixes the arrival of octets with the caller's turns in any order. */
  datatype Event = Arrive(octets: string) | Turn

  function Apply(c: Client, e: Event): (c': Client)
    requires Matching(c.reader)
    ensures Matching(c'.reader)
  {
    match e
    case Arrive(octets) => c.(buf := c.buf + octets)
    case Turn => Poll(c)
  }

  function Run(c: Client, events: seq<Event>): (c': Client)
    requires Matching(c.reader)
    ensures Matching(c'.reader)
    decreases |events|
  {
    if events == [] then c else Run(Apply(c, events[0]), events[1..])
  }

  function Arrived(events: seq<Event>): string {
    if events == [] then ""
    else (match events[0] case Arrive(octets) => octets case Turn => "") + Arrived(events[1..])
  }

  // ---------------------------------------------------------------- calls refine octets

  /** `rest` is what is left of `buf` after some octets, whose feeding turns r into r1 and gives `out`. */
  ghost predicate Fed(r: Reader, buf: string, r1: Reader, rest: string, out: string)
    requires Matching(r)
  {
    |rest| <= |buf| && rest == buf[|buf| - |rest|..] && FeedAll(r, buf[..|buf| - |rest|]) == (r1, out)
  }

  lemma FeedOne(r: Reader, buf: string)
    requires Matching(r) && buf != ""
    ensures Fed(r, buf, Feed(r, buf[0]).0, buf[1..], Feed(r, buf[0]).1)
  {
    var (r1, out) := Feed(r, buf[0]);
    assert buf[..1] == [buf[0]];
    assert [buf[0]][1..] == "" && out + "" == out;
  }

  lemma FeedFirst(r: Reader, s: string, r1: Reader, t: string, out: string)
    requires Matching(r) && s != "" && Feed(r, s[0]) == (r1, out) && t == s[1..]
    ensures FeedAll(r, s) == (FeedAll(r1, t).0, out + FeedAll(r1, t).1)
  {
  }

  /** An octet that gives nothing out can be fed first. */
  lemma FeedSilent(r: Reader, s: string, r1: Reader, t: string)
    requires Matching(r) && s != "" && Feed(r, s[0]) == (r1, "") && t == s[1..]
    ensures FeedAll(r, s) == FeedAll(r1, t)
  {
    hide Feed, FeedAll;
    FeedFirst(r, s, r1, t, "");
    var q := FeedAll(r1, t);
    assert "" + q.1 == q.1;
  }

  lemma FedNothing(r: Reader, buf: string)
    requires Matching(r)
    ensures Fed(r, buf, r, buf, "")
  {
    assert buf[..0] == "";
  }

  lemma FedTwice(r: Reader, buf: string, r1: Reader, rest1: string, out1: string, r2: Reader, rest2: string,
                 out2: string)
    requires Matching(r) && Matching(r1)
    requires Fed(r, buf, r1, rest1, out1) && Fed(r1, rest1, r2, rest2, out2)
    ensures Fed(r, buf, r2, rest2, out1 + out2)
  {
    var i, j := |buf| - |rest1|, |rest1| - |rest2|;
    FeedAllConcat(r, buf[..i], rest1[..j]);
    assert buf[..i + j] == buf[..i] + rest1[..j];
  }

  /** Whatever arrives later can be appended. */
  lemma FedMore(r: Reader, buf: string, r1: Reader, rest: string, out: string, more: string)
    requires Matching(r) && Fed(r, buf, r1, rest, out)
    ensures Fed(r, buf + more, r1, rest + more, out)
  {
    var k := |buf| - |rest|;
    assert (buf + more)[..k] == buf[..k];
  }

  lemma {:induction false} SkipSizeLineIsFeed(r: Reader, buf: string)
    requires r.state == ReadingChunkLength
    ensures var (r1, rest) := SkipSizeLine(r, buf);
      && Fed(r, buf, r1, rest, "")
      && (buf != "" ==> |rest| < |buf|)
      && (r1.state == ReadingChunkLength || (r1.state == ReadingBodyChunk && r1.chunkLength != 0))
    decreases |buf|
  {
    if buf != "" {
      FeedOne(r, buf);
      var r0 := FeedSize(r, buf[0]);
      if buf[0] != '\n' {
        SkipSizeLineIsFeed(r0, buf[1..]);
        var (r1, rest) := SkipSizeLine(r0, buf[1..]);
        FedTwice(r, buf, r0, buf[1..], "", r1, rest, "");
      }
    }
  }

  /** A call of `read()` on the body feeds the octets it takes; it takes at least one if one has arrived. */
  lemma ReadBodyIsFeed(r: Reader, buf: string)
    requires EndOfHeaders(r)
    ensures var (r1, rest, got) := ReadBody(r, buf);
      && EndOfHeaders(r1)
      && Fed(r, buf, r1, rest, if got.Some? then [got.value] else "")
      && (buf != "" ==> |rest| < |buf|)
  {
    if r.state == ReadingChunkLength {
      SkipSizeLineIsFeed(r, buf);
      var (r1, rest) := SkipSizeLine(r, buf);
      if r1.state != ReadingChunkLength && rest != "" {
        FeedOne(r1, rest);
        FedTwice(r, buf, r1, rest, "", FeedBody(r1), rest[1..], [rest[0]]);
        assert "" + [rest[0]] == [rest[0]];
      }
    } else if buf != "" {
      FeedOne(r, buf);
    } else {
      FedNothing(r, buf);
    }
  }

  lemma PollIsFeed(c: Client)
    requires Matching(c.reader)
    ensures var c' := Poll(c);
      && |c.out| <= |c'.out| && c.out == c'.out[..|c.out|]
      && Fed(c.reader, c.buf, c'.reader, c'.buf, c'.out[|c.out|..])
      && (c.buf != "" ==> |c'.buf| < |c.buf|)
  {
    if !EndOfHeaders(c.reader) {
      if c.buf != "" {
        FeedOne(c.reader, c.buf);
      } else {
        FedNothing(c.reader, c.buf);
      }
      assert c.out[|c.out|..] == "";
    } else {
      ReadBodyIsFeed(c.reader, c.buf);
      var got := ReadBody(c.reader, c.buf).2;
      assert Poll(c).out[|c.out|..] == (if got.Some? then [got.value] else "");
    }
  }

  /**
   The calls do not depend on how the octets arrive: after any schedule the reader and the results are those of
   feeding, one by one, the octets taken so far.
   */
  lemma {:induction false} RunIsFeed(c: Client, events: seq<Event>)
    requires Matching(c.reader)
    ensures var c' := Run(c, events);
      && |c.out| <= |c'.out| && c.out == c'.out[..|c.out|]
      && Fed(c.reader, c.buf + Arrived(events), c'.reader, c'.buf, c'.out[|c.out|..])
    decreases |events|
  {
    if events == [] {
      assert c.buf + Arrived(events) == c.buf && c.out[|c.out|..] == "";
      FedNothing(c.reader, c.buf);
    } else {
      var c1, later := Apply(c, events[0]), Arrived(events[1..]);
      RunIsFeed(c1, events[1..]);
      match events[0] {
        case Arrive(octets) =>
          assert c.buf + Arrived(events) == c1.buf + later;
        case Turn =>
          assert Arrived(events) == later;
          PollIsFeed(c);
          FedJoin(c, c1, Run(c1, events[1..]), later);
      }
    }
  }

  /** What one turn took, then what the rest of the schedule took. */
  lemma FedJoin(c: Client, c1: Client, c2: Client, later: string)
    requires Matching(c.reader) && Matching(c1.reader)
    requires |c.out| <= |c1.out| && c.out == c1.out[..|c.out|]
    requires |c1.out| <= |c2.out| && c1.out == c2.out[..|c1.out|]
    requires Fed(c.reader, c.buf, c1.reader, c1.buf, c1.out[|c.out|..])
    requires Fed(c1.reader, c1.buf + later, c2.reader, c2.buf, c2.out[|c1.out|..])
    ensures |c.out| <= |c2.out| && c.out == c2.out[..|c.out|]
    ensures Fed(c.reader, c.buf + later, c2.reader, c2.buf, c2.out[|c.out|..])
  {
    hide Fed, FeedAll;
    var o1, o2 := c1.out[|c.out|..], c2.out[|c1.out|..];
    FedMore(c.reader, c.buf, c1.reader, c1.buf, o1, later);
    FedTwice(c.reader, c.buf + later, c1.reader, c1.buf + later, o1, c2.reader, c2.buf, o2);
    assert o1 + o2 == c2.out[|c.out|..];
  }

  function Turns(n: nat): seq<Event> {
    seq(n, i => Turn)
  }

  lemma TurnTakes(c: Client)
    requires Matching(c.reader)
    ensures if c.buf == "" then Poll(c).buf == "" else |Poll(c).buf| < |c.buf|
  {
    PollIsFeed(c);
  }

  /** Turns with nothing arriving drain what has arrived. */
  lemma {:induction false} TurnsDrain(c: Client, n: nat)
    requires Matching(c.reader) && |c.buf| <= n
    ensures Run(c, Turns(n)).buf == ""
    decreases n
  {
    hide Poll;
    if n > 0 {
      TurnTakes(c);
      assert Turns(n)[1..] == Turns(n - 1);
      TurnsDrain(Poll(c), n - 1);
    }
  }
}
