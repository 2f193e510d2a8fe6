/**
 Chunked bodies (section 7.1 of RFC 9112, without extensions or trailers).  `isChunkedBodyComplete`
 looks for five bytes anywhere in the body; here is exactly when that finds the true end.
 */
module Chunked {
  import opened CStrings
  import opened Framing
  import opened Receive
  import Segmentation

  /** A chunk as sent: its size line (hexadecimal digits, leading zeros allowed) and its data. */
  datatype Chunk = Chunk(size: string, data: string)

  predicate IsHexDigit(c: char) { IsDigit(c) || 'a' <= c <= 'f' || 'A' <= c <= 'F' }

  function HexDigit(c: char): nat
    requires IsHexDigit(c)
  {
    if IsDigit(c) then c as int - '0' as int
    else if 'a' <= c then c as int - 'a' as int + 10
    else c as int - 'A' as int + 10
  }

  predicate AllHex(s: string) { forall i :: 0 <= i < |s| ==> IsHexDigit(s[i]) }

  function HexValue(s: string): nat
    requires AllHex(s)
  {
    if s == "" then 0 else 16 * HexValue(s[..|s| - 1]) + HexDigit(s[|s| - 1])
  }

  predicate WellFormed(c: Chunk) {
    c.size != "" && AllHex(c.size) && c.data != "" && HexValue(c.size) == |c.data|
  }

  function Frame(c: Chunk): string { c.size + CRLF + c.data + CRLF }

  function Encode(chunks: seq<Chunk>): string {
    if chunks == [] then LAST_CHUNK else Frame(chunks[0]) + Encode(chunks[1..])
  }

  /** Two chunks in their encoded form, one with a size of two digits. */
  lemma EncodedExample(data: string)
    requires |data| == 26
    ensures WellFormed(Chunk("5", "hello")) && WellFormed(Chunk("1a", data)) && WellFormed(Chunk("01A", data))
    ensures Encode([Chunk("5", "hello"), Chunk("1a", data)])
         == "5\r\nhello\r\n" + ("1a\r\n" + data + "\r\n") + "0\r\n\r\n"
  {
    HexDigits();
    var chunks := [Chunk("5", "hello"), Chunk("1a", data)];
    assert chunks[1..] == [chunks[1]] && chunks[1..][1..] == [];
    assert Encode(chunks[1..]) == Frame(chunks[1]) + Encode([]);
  }

  lemma HexDigits()
    ensures AllHex("5") && HexValue("5") == 5 && AllHex("1a") && HexValue("1a") == 26
    ensures AllHex("01A") && HexValue("01A") == 26
  {
    assert "1a"[..1] == "1" && "1"[..0] == "" && "01A"[..2] == "01" && "01"[..1] == "0" && "0"[..0] == "";
    assert "5"[..0] == "";
  }

  // ---------- an occurrence never straddles two frames ----------

  lemma NoStraddle(frame: string, rest: string, i: nat)
    requires 2 <= |frame| && frame[|frame| - 1] == '\n'
    requires rest != "" && rest[0] != '\r'
    requires At(frame + rest, LAST_CHUNK, i)
    ensures i + |LAST_CHUNK| <= |frame| || |frame| <= i
  {
    var all := frame + rest;
    assert all[|frame| - 1] == '\n';
    assert all[|frame|] == rest[0];
    if i < |frame| < i + |LAST_CHUNK| {
      var k := |frame| - i;
      AtChar(all, LAST_CHUNK, i, k - 1);
      AtChar(all, LAST_CHUNK, i, k);
      assert false;
    }
  }

  lemma EncodeStarts(chunks: seq<Chunk>)
    requires forall c :: c in chunks ==> WellFormed(c)
    ensures Encode(chunks) != "" && Encode(chunks)[0] != '\r'
  {
    if chunks != [] {
      assert chunks[0] in chunks;
      assert Encode(chunks)[0] == chunks[0].size[0];
      assert IsHexDigit(chunks[0].size[0]);
    }
  }

  lemma FindInFrames(chunk: Chunk, rest: string)
    requires WellFormed(chunk)
    requires rest != "" && rest[0] != '\r'
    ensures var f, all := Find(Frame(chunk), LAST_CHUNK), Find(Frame(chunk) + rest, LAST_CHUNK);
            if f != -1 then all == f
            else all == if Find(rest, LAST_CHUNK) == -1 then -1 else |Frame(chunk)| + Find(rest, LAST_CHUNK)
  {
    var frame := Frame(chunk);
    if Find(frame, LAST_CHUNK) != -1 {
      FindExtends(frame, rest, LAST_CHUNK);
    } else {
      forall i | 0 <= i < |frame|
        ensures !At(frame + rest, LAST_CHUNK, i)
      {
        if At(frame + rest, LAST_CHUNK, i) {
          NoStraddle(frame, rest, i);
          NotEarlier(frame, LAST_CHUNK, 0, i);
          AtExtends(frame, rest, LAST_CHUNK, i);
        }
      }
      FindShifts(frame, rest, LAST_CHUNK);
    }
  }

  // ---------- when the scan is exact ----------

  ghost predicate Clean(chunks: seq<Chunk>) {
    forall c :: c in chunks ==> Find(Frame(c), LAST_CHUNK) == -1
  }

  /** The scan finds the true end, and nothing before it, exactly when no single frame holds the five bytes. */
  lemma {:induction false} ScanExactIff(chunks: seq<Chunk>)
    requires forall c :: c in chunks ==> WellFormed(c)
    ensures 0 <= Find(Encode(chunks), LAST_CHUNK) <= |Encode(chunks)| - |LAST_CHUNK|
    ensures Find(Encode(chunks), LAST_CHUNK) == |Encode(chunks)| - |LAST_CHUNK| <==> Clean(chunks)
  {
    if chunks == [] {
      FindIs(LAST_CHUNK, LAST_CHUNK, 0);
    } else {
      var first, rest := chunks[0], chunks[1..];
      assert forall c :: c in chunks <==> c == first || c in rest;
      ScanExactIff(rest);
      EncodeStarts(rest);
      FindInFrames(first, Encode(rest));
    }
  }

  /** Chunks without CR never hold the five bytes. */
  lemma CrFreeIsClean(chunks: seq<Chunk>)
    requires forall c :: c in chunks ==> WellFormed(c) && Free(c.data, '\r')
    ensures Clean(chunks)
  {
    forall c | c in chunks
      ensures Find(Frame(c), LAST_CHUNK) == -1
    {
      CrFreeFrame(c);
    }
  }

  lemma CrFreeFrame(c: Chunk)
    requires WellFormed(c) && Free(c.data, '\r')
    ensures Find(Frame(c), LAST_CHUNK) == -1
  {
    var frame, i := Frame(c), Find(Frame(c), LAST_CHUNK);
    if i != -1 {
      Found(frame, LAST_CHUNK, 0);
      FrameCarriageReturns(c, i + 1);
      FrameCarriageReturns(c, i + 3);
      AtChar(frame, LAST_CHUNK, i, 1);
      AtChar(frame, LAST_CHUNK, i, 3);
      assert false;
    }
  }

  lemma FrameCarriageReturns(c: Chunk, p: nat)
    requires WellFormed(c) && Free(c.data, '\r') && p < |Frame(c)|
    ensures Frame(c)[p] == '\r' ==> p == |c.size| || p == |c.size| + 2 + |c.data|
  {
    var s, d := |c.size|, |c.data|;
    if p < s {
      assert Frame(c)[p] == c.size[p];
    } else if s + 2 <= p < s + 2 + d {
      assert Frame(c)[p] == c.data[p - s - 2];
    }
  }

  // ---------- whole requests ----------

  /** A header block after which the receiver goes by the last chunk. */
  ghost predicate ChunkedHeader(headers: string) {
    HeaderEnd(headers) == |headers| && !IsBodiless(headers) && ContentLength(headers) <= 0 && IsChunked(headers)
  }

  /** A chunked request is complete at its last byte and not before, exactly when its chunks are clean. */
  lemma ChunkedRequestExactIff(headers: string, chunks: seq<Chunk>)
    requires ChunkedHeader(headers)
    requires forall c :: c in chunks ==> WellFormed(c)
    ensures var request := headers + Encode(chunks);
            LeastLength(request).Some? && (LeastLength(request).value == |request|) == Clean(chunks)
  {
    var body := Encode(chunks);
    ScanExactIff(chunks);
    WithBody(headers, body);
    ChunkedBody(headers, body);
    assert |headers + body| == |headers| + |body|;
  }

  /** After such a header only the first last-chunk marker counts. */
  lemma ChunkedBody(headers: string, body: string)
    requires ChunkedHeader(headers) && HasLastChunk(body)
    ensures BodyComplete(headers, body) && BodyLength(headers, body) == Some(Find(body, LAST_CHUNK) + |LAST_CHUNK|)
  {
  }

  /** For data without CR: any cutting of such a request is received as exactly that request. */
  lemma ChunkedRequestReceived(headers: string, chunks: seq<Chunk>, schedule: nat -> Arrival, k: nat)
    requires ChunkedHeader(headers)
    requires forall c :: c in chunks ==> WellFormed(c) && Free(c.data, '\r')
    requires |headers + Encode(chunks)| <= LIMIT + 1
    requires forall i :: k <= i ==> schedule(i).Bytes?
    ensures Outcome(headers + Encode(chunks), schedule, k, 0) == Accepted(|headers + Encode(chunks)|)
  {
    CrFreeIsClean(chunks);
    ChunkedRequestExactIff(headers, chunks);
    Segmentation.ExactRequest(headers + Encode(chunks), schedule, k);
  }

  /** Data that spells the marker ends the request early: one 5-byte chunk is enough. */
  lemma MarkerInDataStopsEarly(headers: string)
    requires ChunkedHeader(headers)
    ensures var chunks := [Chunk("5", LAST_CHUNK)];
            WellFormed(chunks[0])
            && LeastLength(headers + Encode(chunks)).Some?
            && LeastLength(headers + Encode(chunks)).value < |headers + Encode(chunks)|
  {
    var c := Chunk("5", LAST_CHUNK);
    assert c.size[..0] == "";
    MarkerFrame(c);
    assert c in [c];
    ChunkedRequestExactIff(headers, [c]);
    var request := headers + Encode([c]);
    CompleteIffPastLeast(request, |request|);
    assert request[..|request|] == request;
  }

  lemma MarkerFrame(c: Chunk)
    requires c == Chunk("5", LAST_CHUNK)
    ensures Find(Frame(c), LAST_CHUNK) != -1
  {
    AtMiddle(c.size + CRLF, LAST_CHUNK, CRLF);
    if Find(Frame(c), LAST_CHUNK) == -1 { NotEarlier(Frame(c), LAST_CHUNK, 0, |c.size + CRLF|); }
  }
}
