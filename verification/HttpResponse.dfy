/** Whole responses: the delivery of a body behind its header block, under every schedule of arrivals. */
module HttpResponse {
  import opened Http
  import opened HttpFormat
  import opened HttpHeaders
  import opened Numerals

  // ---------------------------------------------------------------- delivery

  predicate Prefix(s: string, t: string) {
    |s| <= |t| && s == t[..|s|]
  }

  lemma FeedPrefix(r: Reader, s: string, k: nat)
    requires Matching(r) && k <= |s|
    ensures Prefix(FeedAll(r, s[..k]).1, FeedAll(r, s).1)
  {
    hide Feed, FeedAll;
    FeedAllConcat(r, s[..k], s[k..]);
    assert s == s[..k] + s[k..];
  }

  lemma {:induction false} RunConcat(c: Client, e1: seq<Event>, e2: seq<Event>)
    requires Matching(c.reader)
    ensures Run(c, e1 + e2) == Run(Run(c, e1), e2)
    decreases |e1|
  {
    hide Apply;
    if e1 == [] {
      assert e1 + e2 == e2;
    } else {
      assert (e1 + e2)[1..] == e1[1..] + e2;
      RunConcat(Apply(c, e1[0]), e1[1..], e2);
    }
  }

  lemma {:induction false} TurnsBringNothing(n: nat)
    ensures Arrived(Turns(n)) == ""
  {
    if n > 0 {
      assert Turns(n)[1..] == Turns(n - 1);
      TurnsBringNothing(n - 1);
      assert "" + Arrived(Turns(n - 1)) == "";
    }
  }

  lemma {:induction false} ArrivedConcat(e1: seq<Event>, e2: seq<Event>)
    ensures Arrived(e1 + e2) == Arrived(e1) + Arrived(e2)
    decreases |e1|
  {
    if e1 == [] {
      assert e1 + e2 == e2;
    } else {
      assert (e1 + e2)[1..] == e1[1..] + e2;
      ArrivedConcat(e1[1..], e2);
    }
  }

  function NewClient(r: Reader): Client {
    Client(r, "", "")
  }

  /** Whatever part of s has arrived, in whatever pieces: the results are a prefix of what s holds. */
  lemma {:induction false} DeliveryIsSafe(r: Reader, events: seq<Event>, s: string)
    requires Matching(r) && Prefix(Arrived(events), s)
    ensures Prefix(Run(NewClient(r), events).out, FeedAll(r, s).1)
  {
    hide Run, FeedAll;
    RunIsFeed(NewClient(r), events);
    var c := Run(NewClient(r), events);
    assert "" + Arrived(events) == Arrived(events) && c.out[0..] == c.out;
    var k := |Arrived(events)| - |c.buf|;
    assert Arrived(events)[..k] == s[..k];
    FeedPrefix(r, s, k);
  }

  /** Once all of s has arrived, as many turns as it has octets deliver everything. */
  lemma {:induction false} DeliveryIsComplete(r: Reader, events: seq<Event>, n: nat)
    requires Matching(r) && |Arrived(events)| <= n
    ensures Run(NewClient(r), events + Turns(n)).out == FeedAll(r, Arrived(events)).1
  {
    hide FeedAll, Run;
    var s, all := Arrived(events), events + Turns(n);
    var c := Run(NewClient(r), events);
    RunIsFeed(NewClient(r), events);
    assert "" + s == s;
    TurnsDrain(c, n);
    RunConcat(NewClient(r), events, Turns(n));
    ArrivedConcat(events, Turns(n));
    TurnsBringNothing(n);
    assert s + "" == s;
    RunIsFeed(NewClient(r), all);
    var c' := Run(NewClient(r), all);
    assert c'.out[0..] == c'.out && s[..|s|] == s;
  }

  /** A response: its header lines and, behind the blank line, the octets of its body. */
  lemma ResponseDecodes(r: Reader, lines: seq<string>, body: string)
    requires Fresh(r) && forall i :: 0 <= i < |lines| ==> Ordinary(lines[i])
    ensures var r1 := FeedAll(r, Block(lines)).0; FeedAll(r, Block(lines) + body).1 == FeedAll(r1, body).1
  {
    hide FeedAll;
    HeaderBlockRead(r, lines);
    FeedAllConcat(r, Block(lines), body);
    var r1 := FeedAll(r, Block(lines)).0;
    assert "" + FeedAll(r1, body).1 == FeedAll(r1, body).1;
  }

  /**
   Main result on chunked responses: for every header block with a chunked line, every chunked body and every
   schedule in which they arrive, the results are at all times a prefix of the payload, and all of it in the end.
   */
  lemma {:induction false} ChunkedDelivery(r: Reader, lines: seq<string>, chunks: seq<Chunk>, last: seq<string>,
                                           events: seq<Event>, n: nat)
    requires Fresh(r) && AnyChunked(lines) && forall i :: 0 <= i < |lines| ==> Ordinary(lines[i])
    requires forall i :: 0 <= i < |chunks| ==> ValidChunk(chunks[i])
    requires forall i :: 0 <= i < |last| ==> Void(last[i])
    requires Prefix(Arrived(events), Block(lines) + EncodeBody(chunks, last))
    ensures Prefix(Run(NewClient(r), events).out, Payload(chunks))
    ensures Arrived(events) == Block(lines) + EncodeBody(chunks, last) && |Arrived(events)| <= n ==>
      Run(NewClient(r), events + Turns(n)).out == Payload(chunks)
  {
    hide FeedAll, Run, AnyChunked;
    HeaderBlockRead(r, lines);
    var body := EncodeBody(chunks, last);
    BodyDecodes(FeedAll(r, Block(lines)).0, chunks, last);
    ResponseDecodes(r, lines, body);
    DeliveryIsSafe(r, events, Block(lines) + body);
    if |Arrived(events)| <= n {
      DeliveryIsComplete(r, events, n);
    }
  }

  /** In particular for bodies as a server writes them: pieces behind their sizes in hexadecimal digits. */
  lemma PiecesDelivered(r: Reader, lines: seq<string>, pieces: seq<Piece>, events: seq<Event>, n: nat)
    requires Fresh(r) && "Transfer-Encoding: chunked" in lines && forall i :: 0 <= i < |lines| ==> Ordinary(lines[i])
    requires forall i :: 0 <= i < |pieces| ==> Sendable(pieces[i])
    requires Prefix(Arrived(events), Block(lines) + Wire(pieces))
    ensures Prefix(Run(NewClient(r), events).out, Joined(pieces))
    ensures Arrived(events) == Block(lines) + Wire(pieces) && |Arrived(events)| <= n ==>
      Run(NewClient(r), events + Turns(n)).out == Joined(pieces)
  {
    WireIsBody(pieces);
    assert Void("0") by {
      HexRead(0, false);
      assert SpellHex(0, false) == "" + "0" == "0";
    }
    var i :| 0 <= i < |lines| && lines[i] == "Transfer-Encoding: chunked";
    assert StartsWith(lines[i], CHUNKED);
    ChunkedDelivery(r, lines, ChunksOf(pieces), ["0"], events, n);
  }

  lemma {:induction false} PlainBody(r: Reader, body: string)
    requires r.state == ReadingBody
    ensures FeedAll(r, body).1 == body
    decreases |body|
  {
    if body == "" {
      EmptyFeed(r);
    } else {
      var r1 := FeedBody(r);
      FeedFirst(r, body, r1, body[1..], [body[0]]);
      PlainBody(r1, body[1..]);
      assert [body[0]] + body[1..] == body;
    }
  }

  /** Without a chunked line the body is handed over as it is. */
  lemma {:induction false} PlainDelivery(r: Reader, lines: seq<string>, body: string, events: seq<Event>, n: nat)
    requires Fresh(r) && !AnyChunked(lines) && forall i :: 0 <= i < |lines| ==> Ordinary(lines[i])
    requires Prefix(Arrived(events), Block(lines) + body)
    ensures Prefix(Run(NewClient(r), events).out, body)
    ensures Arrived(events) == Block(lines) + body && |Arrived(events)| <= n ==>
      Run(NewClient(r), events + Turns(n)).out == body
  {
    hide FeedAll, Run, AnyChunked;
    HeaderBlockRead(r, lines);
    PlainBody(FeedAll(r, Block(lines)).0, body);
    ResponseDecodes(r, lines, body);
    DeliveryIsSafe(r, events, Block(lines) + body);
    if |Arrived(events)| <= n {
      DeliveryIsComplete(r, events, n);
    }
  }

  // ---------------------------------------------------------------- the chunk counter

  /** Inside a chunk at least one octet is outstanding; a size is built up from 0. */
  predicate Good(r: Reader) {
    && (r.state == ReadingChunkLength ==> 0 <= r.chunkLength)
    && (r.state == ReadingBodyChunk ==> 0 < r.chunkLength)
  }

  /** The reader stays good through all of s. */
  predicate Steady(r: Reader, s: string)
    requires Matching(r)
    decreases |s|
  {
    Good(r) && (s == "" || Steady(Feed(r, s[0]).0, s[1..]))
  }

  lemma {:induction false} SteadyConcat(r: Reader, s: string, t: string)
    requires Matching(r) && Steady(r, s) && Steady(FeedAll(r, s).0, t)
    ensures Steady(r, s + t)
    decreases |s|
  {
    hide Feed, Good;
    if s == "" {
      assert s + t == t;
    } else {
      assert (s + t)[1..] == s[1..] + t;
      SteadyConcat(Feed(r, s[0]).0, s[1..], t);
    }
  }

  lemma {:induction false} SteadyPrefix(r: Reader, s: string, k: nat)
    requires Matching(r) && k <= |s| && Steady(r, s)
    ensures Good(FeedAll(r, s[..k]).0)
    decreases |s|
  {
    if k == 0 {
      EmptyFeed(r);
      assert s[..0] == "";
    } else {
      var (r1, out) := Feed(r, s[0]);
      assert s[..k][1..] == s[1..][..k - 1];
      SteadyPrefix(r1, s[1..], k - 1);
      FeedFirst(r, s[..k], r1, s[..k][1..], out);
    }
  }

  lemma {:induction false} SteadySizeLine(r: Reader, line: string)
    requires r.state == ReadingChunkLength && 0 <= r.chunkLength && OneLine(line)
    requires HexFrom(r.chunkLength, line) < INT_LIMIT
    ensures Steady(r, line)
    decreases |line|
  {
    if line != "" {
      SteadySizeLine(FeedSize(r, line[0]), line[1..]);
    }
  }

  lemma {:induction false} SteadyData(r: Reader, data: string)
    requires r.state == ReadingBodyChunk && 0 < |data| == r.chunkLength < INT_LIMIT
    ensures Steady(r, data)
    decreases |data|
  {
    if |data| > 1 {
      SteadyData(FeedBody(r), data[1..]);
    }
  }

  lemma SteadyCrlf(r: Reader)
    requires r.state == ReadingChunkLength && Good(r)
    ensures Steady(r, CRLF)
  {
    assert CRLF[1..] == "\n" && CRLF[1..][1..] == "";
    var r1 := FeedSize(r, '\r');
    assert Steady(FeedSize(r1, '\n'), "");
    assert Steady(r1, "\n") by {
      assert "\n"[1..] == "";
    }
  }

  lemma SteadyLine(r: Reader, line: string)
    requires AtSize(r) && OneLine(line) && HexOf(line) < INT_LIMIT
    ensures Steady(r, line + CRLF)
  {
    SteadySizeLine(r, line);
    SizeLine(r, line);
    SteadyCrlf(FeedAll(r, line).0);
    SteadyConcat(r, line, CRLF);
  }

  lemma SteadyChunk(r: Reader, c: Chunk)
    requires AtSize(r) && ValidChunk(c)
    ensures Steady(r, c.line + CRLF + c.data + CRLF)
  {
    hide Steady, Feed, FeedAll;
    SteadyLine(r, c.line);
    SizeLineCrlf(r, c.line);
    var r1 := FeedAll(r, c.line + CRLF).0;
    SteadyData(r1, c.data);
    SteadyConcat(r, c.line + CRLF, c.data);
    ChunkData(r1, c.data);
    FeedAllConcat(r, c.line + CRLF, c.data);
    SteadyCrlf(FeedAll(r1, c.data).0);
    SteadyConcat(r, c.line + CRLF + c.data, CRLF);
  }

  lemma {:induction false} SteadyChunks(r: Reader, chunks: seq<Chunk>)
    requires AtSize(r) && forall i :: 0 <= i < |chunks| ==> ValidChunk(chunks[i])
    ensures Steady(r, EncodeChunks(chunks))
    decreases |chunks|
  {
    if chunks != [] {
      var first := chunks[0].line + CRLF + chunks[0].data + CRLF;
      SteadyChunk(r, chunks[0]);
      ChunkDecodes(r, chunks[0]);
      SteadyChunks(FeedAll(r, first).0, chunks[1..]);
      SteadyConcat(r, first, EncodeChunks(chunks[1..]));
    }
  }

  lemma {:induction false} SteadyVoid(r: Reader, lines: seq<string>)
    requires AtSize(r) && forall i :: 0 <= i < |lines| ==> Void(lines[i])
    ensures Steady(r, Lines(lines))
    decreases |lines|
  {
    if lines != [] {
      SteadyLine(r, lines[0]);
      SizeLineCrlf(r, lines[0]);
      SteadyVoid(r, lines[1..]);
      SteadyConcat(r, lines[0] + CRLF, Lines(lines[1..]));
    }
  }

  lemma SteadyBody(r: Reader, chunks: seq<Chunk>, last: seq<string>)
    requires AtSize(r) && forall i :: 0 <= i < |chunks| ==> ValidChunk(chunks[i])
    requires forall i :: 0 <= i < |last| ==> Void(last[i])
    ensures Steady(r, EncodeBody(chunks, last))
  {
    hide Steady, Good, FeedAll, EncodeChunks;
    var s := EncodeChunks(chunks);
    SteadyChunks(r, chunks);
    ChunksDecode(r, chunks);
    var r1 := FeedAll(r, s).0;
    SteadyVoid(r1, last);
    VoidLines(r1, last);
    SteadyLine(r1, "");
    assert "" + CRLF == CRLF;
    SteadyConcat(r1, Lines(last), CRLF);
    SteadyConcat(r, s, Lines(last) + CRLF);
  }

  /** A reader behind the headers stays there. */
  lemma {:induction false} EndStays(r: Reader, s: string)
    requires Matching(r) && EndOfHeaders(r)
    ensures EndOfHeaders(FeedAll(r, s).0)
    decreases |s|
  {
    if s == "" {
      EmptyFeed(r);
    } else {
      var (r1, out) := Feed(r, s[0]);
      EndStays(r1, s[1..]);
      FeedFirst(r, s, r1, s[1..], out);
    }
  }

  /** So what does not end the headers is read in their states. */
  lemma {:induction false} SteadyHeaders(r: Reader, s: string)
    requires Matching(r) && !EndOfHeaders(FeedAll(r, s).0)
    ensures Steady(r, s)
    decreases |s|
  {
    if EndOfHeaders(r) {
      EndStays(r, s);
    }
    if s != "" {
      var (r1, out) := Feed(r, s[0]);
      FeedFirst(r, s, r1, s[1..], out);
      SteadyHeaders(r1, s[1..]);
    }
  }

  lemma SteadyBlank(r: Reader)
    requires AtLineStart(r)
    ensures Steady(r, CRLF)
  {
    var r1 := FeedHeader(r, '\r');
    assert CONTENT_LENGTH[0] == 'C' && CHUNKED[0] == 'T';
    assert CRLF[1..] == "\n" && "\n"[1..] == "";
    assert Steady(FeedHeader(r1, '\n'), "");
    assert Steady(r1, "\n");
  }

  lemma SteadyBlock(r: Reader, lines: seq<string>)
    requires AtLineStart(r) && forall i :: 0 <= i < |lines| ==> PlainLine(lines[i])
    ensures Steady(r, Block(lines))
  {
    hide Steady, FeedAll;
    LinesRead(r, lines);
    SteadyHeaders(r, Lines(lines));
    SteadyBlank(FeedAll(r, Lines(lines)).0);
    SteadyConcat(r, Lines(lines), CRLF);
  }

  /**
   Whenever a turn returns inside a chunk of a response, some of the chunk's octets are still outstanding, for every
   header block with a chunked line, every chunked body and every schedule.
   */
  lemma {:induction false} InsideAChunk(r: Reader, lines: seq<string>, chunks: seq<Chunk>, last: seq<string>,
                                        events: seq<Event>)
    requires Fresh(r) && AnyChunked(lines) && forall i :: 0 <= i < |lines| ==> Ordinary(lines[i])
    requires forall i :: 0 <= i < |chunks| ==> ValidChunk(chunks[i])
    requires forall i :: 0 <= i < |last| ==> Void(last[i])
    requires Prefix(Arrived(events), Block(lines) + EncodeBody(chunks, last))
    ensures Good(Run(NewClient(r), events).reader)
  {
    hide Steady, Good, FeedAll, Run, AnyChunked, EncodeBody;
    HeaderBlockRead(r, lines);
    SteadyBlock(r, lines);
    SteadyBody(FeedAll(r, Block(lines)).0, chunks, last);
    var s := Block(lines) + EncodeBody(chunks, last);
    SteadyConcat(r, Block(lines), EncodeBody(chunks, last));
    RunIsFeed(NewClient(r), events);
    var c := Run(NewClient(r), events);
    var k := |Arrived(events)| - |c.buf|;
    assert "" + Arrived(events) == Arrived(events);
    assert Arrived(events)[..k] == s[..k];
    SteadyPrefix(r, s, k);
  }
}
