/**
 When is a request complete?  The four scanning helpers of socket.c, each an index loop proved
 against a from-scratch description, the completeness test they make up, and the least length at
 which a byte stream passes that test.
 */
module Framing {
  import opened CStrings

  const HEADER_END: string := "\r\n\r\n"
  const CONTENT_LENGTH: string := "Content-Length:"
  const TRANSFER_ENCODING: string := "Transfer-Encoding:"
  const CHUNKED: string := "chunked"
  const LAST_CHUNK: string := "0\r\n\r\n"

  // ---------- what the helpers mean ----------

  /** Length of the header block up to and including the blank line, or -1. */
  function HeaderEnd(data: string): (r: int)
    ensures r == -1 || 4 <= r <= |data|
  {
    var i := Find(data, HEADER_END);
    if i == -1 then -1 else i + 4
  }

  function ContentLength(headers: string): int {
    var text := CStr(headers);
    var i := Find(text, CONTENT_LENGTH);
    if i == -1 then -1 else NumberAt(text, i + |CONTENT_LENGTH|)
  }

  predicate IsChunked(headers: string) {
    var text := CStr(headers);
    var i := Find(text, TRANSFER_ENCODING);
    i != -1 && NCaseEq(text[SpaceEnd(text, i + |TRANSFER_ENCODING|)..], CHUNKED, |CHUNKED|)
  }

  /** The header block starts with one of the methods taken to have no body, and a space. */
  predicate IsBodiless(headers: string) {
    var text := CStr(headers);
    FirstWordIs(text, "GET") || FirstWordIs(text, "HEAD") || FirstWordIs(text, "DELETE") || FirstWordIs(text, "OPTIONS")
  }

  predicate HasLastChunk(body: string) { Find(body, LAST_CHUNK) != -1 }

  /** The from-scratch completeness test: nothing cached, everything read off the bytes so far. */
  predicate Complete(data: string) {
    var h := HeaderEnd(data);
    h != -1 && BodyComplete(data[..h], data[h..])
  }

  predicate BodyComplete(headers: string, body: string) {
    if IsBodiless(headers) then true
    else if ContentLength(headers) > 0 then |body| >= ContentLength(headers)
    else if IsChunked(headers) then HasLastChunk(body)
    else |body| > 0
  }

  // ---------- the index loops ----------
  // Each helper only reads its `const char *` argument and that argument's length: a value here.

  method FindHttpHeaderEnd(data: string) returns (pos: int)
    ensures pos == HeaderEnd(data)
  {
    var i := 0;
    while i + 3 < |data|
      invariant forall j :: 0 <= j < i ==> !At(data, HEADER_END, j)
    {
      assert data[i..i + 4] == [data[i], data[i + 1], data[i + 2], data[i + 3]];
      if data[i] == '\r' && data[i + 1] == '\n' && data[i + 2] == '\r' && data[i + 3] == '\n' {
        FindIs(data, HEADER_END, i);
        return i + 4;
      }
      i := i + 1;
    }
    if HeaderEnd(data) != -1 { Found(data, HEADER_END, 0); }
    return -1;
  }

  /** Copies the word before the first space, up to 14 characters, and looks it up. */
  method NamesBodilessMethod(headers: string) returns (bodiless: bool)
    ensures bodiless == IsBodiless(headers)
  {
    var text, verb := CStr(headers), "";
    var space := Find(text, " ");
    if space != -1 && space < 16 - 1 {
      verb := text[..space];
    }
    BodilessByVerb(text, verb);
    return CaseEq(verb, "GET") || CaseEq(verb, "HEAD") || CaseEq(verb, "DELETE") || CaseEq(verb, "OPTIONS");
  }

  /** Nothing is lost by keeping at most 14 characters: the four words are shorter. */
  lemma BodilessByVerb(text: string, verb: string)
    requires var space := Find(text, " "); verb == if 0 <= space < 15 then text[..space] else ""
    ensures FirstWordIs(text, "GET") <==> CaseEq(verb, "GET")
    ensures FirstWordIs(text, "HEAD") <==> CaseEq(verb, "HEAD")
    ensures FirstWordIs(text, "DELETE") <==> CaseEq(verb, "DELETE")
    ensures FirstWordIs(text, "OPTIONS") <==> CaseEq(verb, "OPTIONS")
  {
    FirstWordAt(text, "GET");
    FirstWordAt(text, "HEAD");
    FirstWordAt(text, "DELETE");
    FirstWordAt(text, "OPTIONS");
  }

  /** `headers` is the copied header block, with a '\0' after it: `text` is what pointers into it read. */
  method GetContentLength(headers: string) returns (length: int)
    ensures length == ContentLength(headers)
  {
    var text := CStr(headers);
    var p := Find(text, CONTENT_LENGTH);
    if p == -1 || p >= |headers| {
      return -1;
    }
    p := p + |CONTENT_LENGTH|;
    assert ContentLength(headers) == NumberAt(text, p);
    ghost var first := SpaceEnd(text, p);
    while p < |headers| && IsSpace(CharAt(text, p))
      invariant 0 <= p <= |text|
      invariant SpaceEnd(text, p) == first
    {
      p := p + 1;
    }
    length := 0;
    assert ContentLength(headers) == Value(text, first, DigitEnd(text, first));
    while p < |headers| && IsDigit(CharAt(text, p))
      invariant first <= p <= |text|
      invariant DigitEnd(text, p) == DigitEnd(text, first)
      invariant length == Value(text, first, p)
    {
      length := length * 10 + Digit(CharAt(text, p));
      p := p + 1;
    }
  }

  method IsChunkedTransfer(headers: string) returns (chunked: bool)
    ensures chunked == IsChunked(headers)
  {
    var text := CStr(headers);
    var p := Find(text, TRANSFER_ENCODING);
    if p == -1 || p >= |headers| {
      return false;
    }
    p := p + |TRANSFER_ENCODING|;
    ghost var first := SpaceEnd(text, p);
    assert IsChunked(headers) == NCaseEq(text[first..], CHUNKED, |CHUNKED|);
    while p < |headers| && IsSpace(CharAt(text, p))
      invariant 0 <= p <= |text|
      invariant SpaceEnd(text, p) == first
    {
      p := p + 1;
    }
    if p + |CHUNKED| > |headers| {
      ShortFieldDiffers(text[p..], CHUNKED);
      return false;
    }
    return NCaseEq(text[p..], CHUNKED, |CHUNKED|);
  }

  lemma ShortFieldDiffers(field: string, word: string)
    requires |field| < |word|
    ensures !NCaseEq(field, word, |word|)
  {
  }

  /** The backward scan for the five bytes of the last chunk. */
  method IsChunkedBodyComplete(body: string) returns (found: bool)
    ensures found == HasLastChunk(body)
  {
    if |body| < 5 {
      return false;
    }
    var i := |body| - 5;
    while i >= 0
      invariant -1 <= i <= |body| - 5
      invariant forall j :: i < j ==> !At(body, LAST_CHUNK, j)
    {
      if body[i..i + 5] == LAST_CHUNK {
        if !HasLastChunk(body) { NotEarlier(body, LAST_CHUNK, 0, i); }
        return true;
      }
      i := i - 1;
    }
    if HasLastChunk(body) { Found(body, LAST_CHUNK, 0); }
    return false;
  }

  // ---------- the least complete length ----------

  /** The length at which `data` first becomes a complete request, if it does. */
  function LeastLength(data: string): (m: Option<nat>)
    ensures m.Some? ==> m.value <= |data|
  {
    var h := HeaderEnd(data);
    if h == -1 then None
    else
      var n := BodyLength(data[..h], data[h..]);
      if n == None then None else Some(h + n.value)
  }

  function BodyLength(headers: string, body: string): (n: Option<nat>)
    ensures n.Some? ==> n.value <= |body|
  {
    if IsBodiless(headers) then Some(0)
    else if ContentLength(headers) > 0 then
      if |body| >= ContentLength(headers) then Some(ContentLength(headers)) else None
    else if IsChunked(headers) then
      var i := Find(body, LAST_CHUNK);
      if i == -1 then None else Some(i + |LAST_CHUNK|)
    else if |body| > 0 then Some(1) else None
  }

  /** Completeness of a prefix is decided by one number: monotone, with least length `LeastLength`. */
  lemma CompleteIffPastLeast(data: string, t: nat)
    requires t <= |data|
    ensures Complete(data[..t]) <==> LeastLength(data).Some? && LeastLength(data).value <= t
  {
    HeaderEndOfPrefix(data, t);
    var h := HeaderEnd(data);
    if h != -1 && h <= t {
      assert data[..t][..h] == data[..h];
      assert data[..t][h..] == data[h..][..t - h];
      BodyCompleteIffPastLeast(data[..h], data[h..], t - h);
    }
  }

  lemma BodyCompleteIffPastLeast(headers: string, body: string, t: nat)
    requires t <= |body|
    ensures BodyComplete(headers, body[..t])
       <==> BodyLength(headers, body).Some? && BodyLength(headers, body).value <= t
  {
    LastChunkOfPrefix(body, t);
  }

  /** A header block followed by a body: the body alone decides. */
  lemma WithBody(headers: string, body: string)
    requires HeaderEnd(headers) == |headers|
    ensures HeaderEnd(headers + body) == |headers|
    ensures Complete(headers + body) == BodyComplete(headers, body)
    ensures var n := BodyLength(headers, body);
            LeastLength(headers + body) == if n == None then None else Some(|headers| + n.value)
  {
    var all := headers + body;
    FindExtends(headers, body, HEADER_END);
    assert all[..|headers|] == headers;
    assert all[|headers|..] == body;
    AtHeaderEnd(all, |headers|, headers, body);
  }

  lemma AtHeaderEnd(data: string, h: nat, headers: string, body: string)
    requires HeaderEnd(data) == h && headers == data[..h] && body == data[h..]
    ensures Complete(data) == BodyComplete(headers, body)
    ensures var n := BodyLength(headers, body); LeastLength(data) == if n == None then None else Some(h + n.value)
  {
  }

  /**
   A header block with nothing after it is a complete request exactly for the four methods: any other
   request waits for at least one more byte, even when it announces `Content-Length: 0`.
   */
  lemma HeaderAloneCompleteIff(headers: string)
    requires HeaderEnd(headers) == |headers|
    ensures Complete(headers) <==> IsBodiless(headers)
  {
    assert headers + "" == headers;
    WithBody(headers, "");
  }

  lemma FindOfPrefix(data: string, needle: string, t: nat)
    requires t <= |data|
    ensures var i := Find(data, needle);
            Find(data[..t], needle) == if i != -1 && i + |needle| <= t then i else -1
  {
    var i := Find(data[..t], needle);
    assert data == data[..t] + data[t..];
    if i != -1 {
      FindExtends(data[..t], data[t..], needle);
    } else if Find(data, needle) != -1 && Find(data, needle) + |needle| <= t {
      Found(data, needle, 0);
      AtExtends(data[..t], data[t..], needle, Find(data, needle));
      NotEarlier(data[..t], needle, 0, Find(data, needle));
    }
  }

  lemma HeaderEndOfPrefix(data: string, t: nat)
    requires t <= |data|
    ensures HeaderEnd(data[..t]) == if HeaderEnd(data) <= t then HeaderEnd(data) else -1
  {
    FindOfPrefix(data, HEADER_END, t);
  }

  lemma LastChunkOfPrefix(body: string, t: nat)
    requires t <= |body|
    ensures HasLastChunk(body[..t]) <==> HasLastChunk(body) && Find(body, LAST_CHUNK) + |LAST_CHUNK| <= t
  {
    FindOfPrefix(body, LAST_CHUNK, t);
  }

  /** A complete request stays complete whatever follows it. */
  lemma CompleteMonotone(data: string, more: string)
    requires Complete(data)
    ensures Complete(data + more)
  {
    assert (data + more)[..|data|] == data;
    assert (data + more)[..|data + more|] == data + more;
    CompleteIffPastLeast(data + more, |data|);
    CompleteIffPastLeast(data + more, |data + more|);
  }
}
