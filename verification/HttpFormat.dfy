/** Chunked bodies (section 7.1 of RFC 9112) on the wire, and what the reader of module Http makes of them. */
module HttpFormat {
  import opened Http
  import opened Numerals

  const CRLF: string := "\r\n"

  // ---------------------------------------------------------------- chunked bodies

  /** A chunk: the text of its size line and its data. */
  datatype Chunk = Chunk(line: string, data: string)

  /** The number the hex digits of a line spell after `acc`; every other character is passed over. */
  function HexFrom(acc: nat, line: string): (v: nat)
    ensures v >= acc
    decreases |line|
  {
    if line == "" then acc
    else HexFrom(if IsHexDigit(line[0]) then acc * 16 + DigitValue(line[0]) else acc, line[1..])
  }

  function HexOf(line: string): nat {
    HexFrom(0, line)
  }

  predicate OneLine(line: string) {
    '\n' !in line
  }

  predicate ValidChunk(c: Chunk) {
    OneLine(c.line) && c.data != "" && |c.data| < INT_LIMIT && HexOf(c.line) == |c.data|
  }

  /** A line that announces no data: a last-chunk line, or a trailer without hex digits other than 0. */
  predicate Void(line: string) {
    OneLine(line) && HexOf(line) == 0
  }

  function EncodeChunks(chunks: seq<Chunk>): string {
    if chunks == [] then ""
    else chunks[0].line + CRLF + chunks[0].data + CRLF + EncodeChunks(chunks[1..])
  }

  function Lines(lines: seq<string>): string {
    if lines == [] then "" else lines[0] + CRLF + Lines(lines[1..])
  }

  /** Chunks, then the last-chunk line and what follows it, then the empty line. */
  function EncodeBody(chunks: seq<Chunk>, last: seq<string>): string {
    EncodeChunks(chunks) + (Lines(last) + CRLF)
  }

  function Payload(chunks: seq<Chunk>): string {
    if chunks == [] then "" else chunks[0].data + Payload(chunks[1..])
  }

  predicate AtSize(r: Reader) {
    r.state == ReadingChunkLength && r.chunkLength == 0
  }

  lemma {:induction false} SizeLine(r: Reader, line: string)
    requires r.state == ReadingChunkLength && 0 <= r.chunkLength && OneLine(line)
    requires HexFrom(r.chunkLength, line) < INT_LIMIT
    ensures FeedAll(r, line) == (r.(chunkLength := HexFrom(r.chunkLength, line)), "")
    decreases |line|
  {
    if line != "" {
      FeedSilent(r, line, FeedSize(r, line[0]), line[1..]);
      SizeLine(FeedSize(r, line[0]), line[1..]);
    }
  }

  /** A size line, with its CRLF, announces as many octets as its hex digits say. */
  lemma SizeLineCrlf(r: Reader, line: string)
    requires AtSize(r) && OneLine(line) && HexOf(line) < INT_LIMIT
    ensures var n := HexOf(line);
      FeedAll(r, line + CRLF) == (if n == 0 then r else r.(state := ReadingBodyChunk, chunkLength := n), "")
  {
    SizeLine(r, line);
    var r1 := FeedAll(r, line).0;
    FeedAllConcat(r, line, CRLF);
    assert CRLF[1..] == "\n" && CRLF[1..][1..] == "";
    assert FeedAll(r1, CRLF) == FeedAll(r1, "\n");
    assert FeedAll(r1, "\n") == FeedAll(FeedSize(r1, '\n'), "");
  }

  lemma {:induction false} ChunkData(r: Reader, data: string)
    requires r.state == ReadingBodyChunk && 0 < |data| == r.chunkLength < INT_LIMIT
    ensures var (r', out) := FeedAll(r, data); AtSize(r') && out == data
    decreases |data|
  {
    var r1 := FeedBody(r);
    if |data| > 1 {
      ChunkData(r1, data[1..]);
    } else {
      assert data[1..] == "";
    }
    assert [data[0]] + data[1..] == data;
  }

  lemma ChunkDecodes(r: Reader, c: Chunk)
    requires AtSize(r) && ValidChunk(c)
    ensures var (r', out) := FeedAll(r, c.line + CRLF + c.data + CRLF); AtSize(r') && out == c.data
  {
    SizeLineCrlf(r, c.line);
    var r1 := FeedAll(r, c.line + CRLF).0;
    ChunkData(r1, c.data);
    FeedAllConcat(r, c.line + CRLF, c.data);
    var r2 := FeedAll(r1, c.data).0;
    SizeLineCrlf(r2, "");
    assert "" + CRLF == CRLF && "" + c.data == c.data && c.data + "" == c.data;
    FeedAllConcat(r, c.line + CRLF + c.data, CRLF);
  }

  lemma {:induction false} ChunksDecode(r: Reader, chunks: seq<Chunk>)
    requires AtSize(r) && forall i :: 0 <= i < |chunks| ==> ValidChunk(chunks[i])
    ensures var (r', out) := FeedAll(r, EncodeChunks(chunks)); AtSize(r') && out == Payload(chunks)
    decreases |chunks|
  {
    if chunks != [] {
      var first := chunks[0].line + CRLF + chunks[0].data + CRLF;
      ChunkDecodes(r, chunks[0]);
      ChunksDecode(FeedAll(r, first).0, chunks[1..]);
      FeedAllConcat(r, first, EncodeChunks(chunks[1..]));
    }
  }

  lemma {:induction false} VoidLines(r: Reader, lines: seq<string>)
    requires AtSize(r) && forall i :: 0 <= i < |lines| ==> Void(lines[i])
    ensures FeedAll(r, Lines(lines)) == (r, "")
  {
    if lines != [] {
      SizeLineCrlf(r, lines[0]);
      VoidLines(r, lines[1..]);
      FeedAllConcat(r, lines[0] + CRLF, Lines(lines[1..]));
    }
  }

  /** Decoding is the inverse of encoding, for every list of chunks and every void ending. */
  lemma BodyDecodes(r: Reader, chunks: seq<Chunk>, last: seq<string>)
    requires AtSize(r) && forall i :: 0 <= i < |chunks| ==> ValidChunk(chunks[i])
    requires forall i :: 0 <= i < |last| ==> Void(last[i])
    ensures var (r', out) := FeedAll(r, EncodeBody(chunks, last)); AtSize(r') && out == Payload(chunks)
  {
    ChunksDecode(r, chunks);
    var r1 := FeedAll(r, EncodeChunks(chunks)).0;
    VoidLines(r1, last);
    SizeLineCrlf(r1, "");
    assert "" + CRLF == CRLF;
    FeedAllConcat(r1, Lines(last), CRLF);
    FeedAllConcat(r, EncodeChunks(chunks), Lines(last) + CRLF);
    assert Payload(chunks) + "" == Payload(chunks);
  }

  predicate NoHex(s: string) {
    forall i :: 0 <= i < |s| ==> !IsHexDigit(s[i])
  }

  lemma {:induction false} HexFromConcat(acc: nat, s: string, t: string)
    ensures HexFrom(acc, s + t) == HexFrom(HexFrom(acc, s), t)
    decreases |s|
  {
    if s == "" {
      assert s + t == t;
    } else {
      assert (s + t)[1..] == s[1..] + t;
      HexFromConcat(if IsHexDigit(s[0]) then acc * 16 + DigitValue(s[0]) else acc, s[1..], t);
    }
  }

  lemma {:induction false} HexFromNoHex(acc: nat, s: string)
    requires acc > 0
    ensures HexFrom(acc, s) == acc <==> NoHex(s)
    decreases |s|
  {
    if s != "" {
      if IsHexDigit(s[0]) {
        assert HexFrom(acc, s) >= acc * 16 + DigitValue(s[0]) > acc;
      } else {
        HexFromNoHex(acc, s[1..]);
        assert NoHex(s) <==> NoHex(s[1..]) by {
          if NoHex(s[1..]) {
            assert forall i :: 1 <= i < |s| ==> s[i] == s[1..][i - 1];
          }
        }
      }
    }
  }

  /** No hex digit but 0. */
  predicate OnlyZeros(s: string) {
    forall i :: 0 <= i < |s| && IsHexDigit(s[i]) ==> s[i] == '0'
  }

  lemma {:induction false} HexOfZeros(s: string)
    ensures HexOf(s) == 0 <==> OnlyZeros(s)
    decreases |s|
  {
    if s != "" {
      HexOfZeros(s[1..]);
      assert OnlyZeros(s) <==> (IsHexDigit(s[0]) ==> s[0] == '0') && OnlyZeros(s[1..]) by {
        if OnlyZeros(s[1..]) {
          assert forall i :: 1 <= i < |s| ==> s[i] == s[1..][i - 1];
        }
      }
    }
  }

  /**
   Chunk extensions (section 7.1.1 of RFC 9112): the size is read right exactly when they hold no hex digit, and that of
   the last chunk, which is zero, exactly when they hold none but 0.
   */
  lemma ExtensionHarmless(size: string, extension: string)
    ensures HexOf(size + extension) == HexOf(size) <==>
      if HexOf(size) > 0 then NoHex(extension) else OnlyZeros(extension)
  {
    HexFromConcat(0, size, extension);
    if HexOf(size) > 0 {
      HexFromNoHex(HexOf(size), extension);
    } else {
      HexOfZeros(extension);
    }
  }

  // ---------------------------------------------------------------- bodies as a server writes them

  /** A size in hexadecimal digits, of either case, is read as the number it stands for. */
  lemma {:induction false} HexRead(n: nat, upper: bool)
    ensures HexOf(SpellHex(n, upper)) == n
  {
    var alphabet := if upper then UPPER else LOWER;
    DigitOf(n % 16, upper);
    hide UPPER, LOWER;
    if n < 16 {
      var one := [alphabet[n]];
      SpellOne(n, 16, alphabet);
      assert one[1..] == "";
      assert HexFrom(0, one) == HexFrom(n, "");
    } else {
      var before, last := SpellHex(n / 16, upper), [alphabet[n % 16]];
      SpellMore(n, 16, alphabet);
      HexRead(n / 16, upper);
      HexFromConcat(0, before, last);
      assert last[1..] == "";
    }
  }

  /** A piece of a body, with a chunk extension, and the case its size is written in. */
  datatype Piece = Piece(data: string, extension: string, upper: bool)

  predicate Sendable(p: Piece) {
    p.data != "" && |p.data| < INT_LIMIT && NoHex(p.extension) && '\n' !in p.extension
  }

  function SizeOf(p: Piece): string {
    SpellHex(|p.data|, p.upper) + p.extension
  }

  /** The pieces, each behind its size, and the chunk of size zero that ends them. */
  function Wire(pieces: seq<Piece>): string {
    if pieces == [] then "0\r\n\r\n"
    else SizeOf(pieces[0]) + "\r\n" + pieces[0].data + "\r\n" + Wire(pieces[1..])
  }

  function Joined(pieces: seq<Piece>): string {
    if pieces == [] then "" else pieces[0].data + Joined(pieces[1..])
  }

  function ChunksOf(pieces: seq<Piece>): (chunks: seq<Chunk>)
    ensures |chunks| == |pieces|
  {
    if pieces == [] then [] else [Chunk(SizeOf(pieces[0]), pieces[0].data)] + ChunksOf(pieces[1..])
  }

  lemma SizeRead(p: Piece)
    requires Sendable(p)
    ensures ValidChunk(Chunk(SizeOf(p), p.data))
  {
    HexRead(|p.data|, p.upper);
    HexDigits(|p.data|, p.upper);
    ExtensionHarmless(SpellHex(|p.data|, p.upper), p.extension);
  }

  lemma {:induction false} WireIsBody(pieces: seq<Piece>)
    requires forall i :: 0 <= i < |pieces| ==> Sendable(pieces[i])
    ensures Wire(pieces) == EncodeBody(ChunksOf(pieces), ["0"]) && Joined(pieces) == Payload(ChunksOf(pieces))
    ensures forall i :: 0 <= i < |pieces| ==> ValidChunk(ChunksOf(pieces)[i])
  {
    assert Lines(["0"]) == "0" + CRLF + Lines([]) == "0\r\n";
    if pieces == [] {
      assert EncodeBody([], ["0"]) == "" + ("0\r\n" + "\r\n") == "0\r\n\r\n";
    } else {
      var chunks, first := ChunksOf(pieces), SizeOf(pieces[0]) + CRLF + pieces[0].data + CRLF;
      SizeRead(pieces[0]);
      WireIsBody(pieces[1..]);
      assert chunks[1..] == ChunksOf(pieces[1..]);
      hide SizeOf, ValidChunk, Lines;
      assert EncodeBody(chunks, ["0"]) == first + EncodeBody(chunks[1..], ["0"]);
      assert Wire(pieces) == first + Wire(pieces[1..]);
    }
  }
}
