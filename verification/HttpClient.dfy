/**
 The response reader of HttpClient.cpp as the object the source makes of it. Every method is tied to the function of
 module Http that the theorems of HttpResponse are about.
 */
module HttpClient {
  import opened Bytes
  import H = Http

  class HttpClient {
    var iState: H.State
    var iContentLengthPtr: nat  // index into the prefix
    var iTransferEncodingChunkedPtr: nat
    var iContentLength: int
    var iBodyLengthConsumed: int
    var iIsChunked: bool
    var iChunkLength: int
    var incoming: string  // what the socket holds

    ghost function Reader(): H.Reader
      reads this
    {
      H.Reader(iState, iContentLengthPtr, iTransferEncodingChunkedPtr, iContentLength, iBodyLengthConsumed,
               iIsChunked, iChunkLength)
    }

    /**
     Between calls: the prefix pointers are inside the prefixes, chunks are read only when announced, and a chunk that
     is being read has octets outstanding.
     */
    ghost predicate Valid()
      reads this
    {
      && H.Matching(Reader())
      && (iState == H.ReadingChunkLength || iState == H.ReadingBodyChunk ==> iIsChunked)
      && (iState == H.ReadingBodyChunk ==> iChunkLength != 0)
    }

    /** The client once the status line has been read. */
    constructor ()
      ensures Valid() && incoming == ""
      ensures iState == H.StatusCodeRead && iContentLengthPtr == iTransferEncodingChunkedPtr == 0
      ensures iContentLength == H.NO_CONTENT_LENGTH && !iIsChunked && iChunkLength == 0
    {
      iState := H.StatusCodeRead;
      iContentLength := H.NO_CONTENT_LENGTH;
      iBodyLengthConsumed, iContentLengthPtr, iTransferEncodingChunkedPtr := 0, 0, 0;
      iIsChunked, iChunkLength := false, 0;
      incoming := "";
    }

    predicate EndOfHeadersReached()
      reads this
    {
      iState == H.ReadingBody || iState == H.ReadingChunkLength || iState == H.ReadingBodyChunk
    }

    method SocketRead() returns (c: Option<char>)
      modifies `incoming
      ensures if old(incoming) == "" then c == None && incoming == ""
              else c == Some(old(incoming)[0]) && incoming == old(incoming)[1..]
    {
      if incoming == "" {
        c := None;
      } else {
        c := Some(incoming[0]);
        incoming := incoming[1..];
      }
    }

    /** How many octets `read()` can give at once. A size line is taken from the socket on the way. */
    method Available() returns (n: int)
      requires Valid()
      modifies `iState, `iChunkLength, `incoming
      ensures Valid()
      ensures (Reader(), incoming) == if old(iState) == H.ReadingChunkLength
                                      then H.SkipSizeLine(old(Reader()), old(incoming))
                                      else (old(Reader()), old(incoming))
      ensures n == if iState == H.ReadingChunkLength then 0
                   else if iState == H.ReadingBodyChunk && iChunkLength < |incoming| then iChunkLength
                   else |incoming|
    {
      if iState == H.ReadingChunkLength {
        while incoming != ""
          invariant iState == H.ReadingChunkLength && Valid()
          invariant H.SkipSizeLine(Reader(), incoming) == H.SkipSizeLine(old(Reader()), old(incoming))
          decreases |incoming|
        {
          var got := SocketRead();
          var c := got.value;
          if c == '\n' {
            iState := H.ReadingBodyChunk;
            break;
          } else if c == '\r' {
          } else if H.IsHexDigit(c) {
            iChunkLength := H.Wrap(iChunkLength * 16 + H.DigitValue(c));
          }
        }
      }
      if iState == H.ReadingBodyChunk && iChunkLength == 0 {
        iState := H.ReadingChunkLength;
      }
      if iState == H.ReadingChunkLength {
        return 0;
      }
      n := |incoming|;
      if iState == H.ReadingBodyChunk && iChunkLength < n {
        n := iChunkLength;
      }
    }

    /** One octet, or None for -1: while chunks are read, available() decides whether there is one. */
    method Read() returns (ret: Option<char>)
      requires Valid()
      modifies `iState, `iChunkLength, `iBodyLengthConsumed, `incoming
      ensures Valid() && EndOfHeadersReached() == old(EndOfHeadersReached())
      ensures if old(EndOfHeadersReached()) then (Reader(), incoming, ret) == H.ReadBody(old(Reader()), old(incoming))
              else Reader() == old(Reader()) && if old(incoming) == "" then ret == None && incoming == ""
                                                else ret == Some(old(incoming)[0]) && incoming == old(incoming)[1..]
    {
      if iState == H.ReadingChunkLength {
        H.SkipSizeLineIsFeed(Reader(), incoming);
      }
      if iIsChunked {
        var n := Available();
        if n == 0 {
          return None;
        }
      }
      ret := SocketRead();
      if ret.Some? {
        if EndOfHeadersReached() && iContentLength > 0 {
          iBodyLengthConsumed := H.Wrap(iBodyLengthConsumed + 1);
        }
        if iState == H.ReadingBodyChunk {
          iChunkLength := H.Wrap(iChunkLength - 1);
          if iChunkLength == 0 {
            iState := H.ReadingChunkLength;
          }
        }
      }
    }

    /**
     Reads an octet of the header block; what -1 becomes when it is stored in a char is read like any other. Behind the
     headers it is a read of the body.
     */
    method ReadHeader() returns (c: char)
      requires Valid()
      modifies this
      ensures Valid()
      ensures !old(EndOfHeadersReached()) ==>
        && (c, incoming) == (if old(incoming) == "" then (255 as char, "") else (old(incoming)[0], old(incoming)[1..]))
        && Reader() == H.FeedHeader(old(Reader()), c)
      ensures old(EndOfHeadersReached()) ==>
        var (reader, rest, got) := H.ReadBody(old(Reader()), old(incoming));
        Reader() == reader && incoming == rest && c == if got.Some? then got.value else 255 as char
    {
      hide H.ReadBody;
      var got := Read();
      c := if got.Some? then got.value else 255 as char;
      if EndOfHeadersReached() {
        return;
      }
      match iState {
        case StatusCodeRead =>
          if H.CONTENT_LENGTH[iContentLengthPtr] == c {
            iContentLengthPtr := iContentLengthPtr + 1;
            if iContentLengthPtr == |H.CONTENT_LENGTH| {
              iState := H.ReadingContentLength;
              iContentLength := 0;
              iBodyLengthConsumed := 0;
            }
          } else if H.CHUNKED[iTransferEncodingChunkedPtr] == c {
            iTransferEncodingChunkedPtr := iTransferEncodingChunkedPtr + 1;
            if iTransferEncodingChunkedPtr == |H.CHUNKED| {
              iIsChunked := true;
              iState := H.SkipToEndOfHeader;
            }
          } else if iContentLengthPtr == 0 && iTransferEncodingChunkedPtr == 0 && c == '\r' {
            iState := H.LineStartingCRFound;
          } else {
            iState := H.SkipToEndOfHeader;
          }
        case ReadingContentLength =>
          if H.IsDigit(c) {
            var longer := H.Wrap(iContentLength * 10 + H.DigitValue(c));
            if longer > iContentLength {
              iContentLength := longer;
            }
          } else {
            iState := H.SkipToEndOfHeader;
          }
        case LineStartingCRFound =>
          if c == '\n' {
            if iIsChunked {
              iState := H.ReadingChunkLength;
              iChunkLength := 0;
            } else {
              iState := H.ReadingBody;
            }
          }
        case _ =>
      }
      if c == '\n' && !EndOfHeadersReached() {
        iState := H.StatusCodeRead;
        iContentLengthPtr := 0;
        iTransferEncodingChunkedPtr := 0;
      }
    }

    /** One turn of the caller: a header octet if one is available, or a read of the body. */
    method Turn() returns (got: string)
      requires Valid()
      modifies this
      ensures Valid()
      ensures H.Client(Reader(), incoming, got) == H.Poll(H.Client(old(Reader()), old(incoming), ""))
    {
      got := "";
      if !EndOfHeadersReached() {
        var n := Available();
        if n > 0 {
          var c := ReadHeader();
        }
      } else {
        var c := Read();
        if c.Some? {
          got := [c.value];
        }
      }
      assert "" + got == got;
    }

    /** A client driven by a schedule of arrivals and turns. */
    method Drive(events: seq<H.Event>) returns (out: string)
      requires Valid()
      modifies this
      ensures Valid()
      ensures H.Client(Reader(), incoming, out) == H.Run(H.Client(old(Reader()), old(incoming), ""), events)
    {
      out := "";
      ghost var c0 := H.Client(Reader(), incoming, "");
      for i := 0 to |events|
        invariant Valid()
        invariant H.Run(H.Client(Reader(), incoming, out), events[i..]) == H.Run(c0, events)
      {
        ghost var c := H.Client(Reader(), incoming, out);
        assert events[i..][1..] == events[i + 1..];
        match events[i] {
          case Arrive(octets) =>
            incoming := incoming + octets;
          case Turn =>
            var got := Turn();
            H.PollAppends(c);
            out := out + got;
        }
        assert H.Client(Reader(), incoming, out) == H.Apply(c, events[i]);
      }
      assert events[|events|..] == [];
    }
  }
}
