/**
 Header blocks as lists of lines.  Two parsers walk the same bytes line by line: `parseHttpRequest`
 up to the blank line, `parseHttpHeaders` until it meets an empty line.  Both walks are described here,
 and shown to see the same lines.
 */
module Lines {
  import opened CStrings
  import opened Framing

  /** Every line with its CRLF. */
  function Block(lines: seq<string>): string {
    if lines == [] then "" else lines[0] + CRLF + Block(lines[1..])
  }

  predicate IsLine(line: string) { line != "" && Free(line, '\r') }

  predicate AllLines(lines: seq<string>) { forall i :: 0 <= i < |lines| ==> IsLine(lines[i]) }

  /** The lines from p on that start before `end`: the walk of `parseHttpRequest`. */
  function LinesBefore(text: string, p: nat, end: nat): seq<string>
    requires p <= |text|
    decreases |text| - p
  {
    if p >= end then []
    else
      var e := FindFrom(text, CRLF, p);
      if e == -1 then [] else [text[p..e]] + LinesBefore(text, e + 2, end)
  }

  /** The CRLF-terminated lines before the first empty line: the walk of `parseHttpHeaders`. */
  function LinesToBlank(text: string, p: nat): seq<string>
    requires p <= |text|
    decreases |text| - p
  {
    var e := FindFrom(text, CRLF, p);
    if e == -1 || e == p then [] else [text[p..e]] + LinesToBlank(text, e + 2)
  }

  /** Taking one line off the front of those that are left. */
  lemma OneFurther(done: seq<string>, rest: seq<string>)
    requires rest != []
    ensures done + rest == (done + [rest[0]]) + rest[1..]
  {
  }

  // ---------- finding the ends of lines ----------

  lemma AtCrlf(s: string, i: int)
    ensures At(s, CRLF, i) <==> 0 <= i && i + 2 <= |s| && s[i] == '\r' && s[i + 1] == '\n'
  {
    if 0 <= i && i + 2 <= |s| {
      assert s[i..i + 2] == [s[i], s[i + 1]];
    }
  }

  lemma AtBlank(s: string, i: int)
    ensures At(s, HEADER_END, i) <==> At(s, CRLF, i) && At(s, CRLF, i + 2)
  {
    if 0 <= i && i + 4 <= |s| {
      assert s[i..i + 4] == [s[i], s[i + 1], s[i + 2], s[i + 3]];
    }
    AtCrlf(s, i);
    AtCrlf(s, i + 2);
  }

  /** A CR-free line followed by CRLF is what the walk takes next. */
  lemma NextLine(text: string, p: nat, line: string)
    requires At(text, line, p) && At(text, CRLF, p + |line|) && Free(line, '\r')
    ensures FindFrom(text, CRLF, p) == p + |line|
  {
    forall j | p <= j < p + |line|
      ensures !At(text, CRLF, j)
    {
      AtCrlf(text, j);
      AtChar(text, line, p, j - p);
    }
    FindFromIs(text, CRLF, p, p + |line|);
  }

  // ---------- blocks inside a text ----------

  /** Non-empty lines from p on, each followed by CRLF, and one more CRLF after them. */
  ghost predicate BlockAt(text: string, p: nat, lines: seq<string>)
    decreases |lines|
  {
    if lines == [] then At(text, CRLF, p)
    else
      && IsLine(lines[0]) && At(text, lines[0], p) && At(text, CRLF, p + |lines[0]|)
      && BlockAt(text, p + |lines[0]| + 2, lines[1..])
  }

  function BlockSize(lines: seq<string>): nat
    decreases |lines|
  {
    if lines == [] then 0 else |lines[0]| + 2 + BlockSize(lines[1..])
  }

  lemma {:induction false} BlockSizeIs(lines: seq<string>)
    ensures |Block(lines)| == BlockSize(lines)
    decreases |lines|
  {
    if lines != [] { BlockSizeIs(lines[1..]); }
  }

  /** A block that stands in a text is read line by line. */
  lemma {:induction false} BlockReads(text: string, p: nat, lines: seq<string>)
    requires AllLines(lines) && At(text, Block(lines) + CRLF, p)
    ensures BlockAt(text, p, lines)
    decreases |lines|
  {
    if lines == [] {
      EmptyBlock(lines);
    } else {
      BlockStep(text, p, lines);
      BlockReads(text, p + |lines[0]| + 2, lines[1..]);
    }
  }

  /** A block by itself. */
  lemma BlockItself(head: string, lines: seq<string>)
    requires head == Block(lines) + CRLF && AllLines(lines)
    ensures BlockAt(head, 0, lines) && |head| == BlockSize(lines) + 2
  {
    assert head[0..|head|] == head;
    BlockReads(head, 0, lines);
    BlockSizeIs(lines);
  }

  lemma EmptyBlock(lines: seq<string>)
    requires lines == []
    ensures |Block(lines)| == 0 && Block(lines) + CRLF == CRLF
  {
  }

  lemma BlockStep(text: string, p: nat, lines: seq<string>)
    requires lines != [] && AllLines(lines) && At(text, Block(lines) + CRLF, p)
    ensures IsLine(lines[0]) && AllLines(lines[1..])
    ensures At(text, lines[0], p) && At(text, CRLF, p + |lines[0]|)
    ensures At(text, Block(lines[1..]) + CRLF, p + |lines[0]| + 2)
  {
    var first, rest := lines[0], Block(lines[1..]) + CRLF;
    BlockUnfolds(lines);
    assert At(text, first + CRLF + rest, p);
    Split3(text, first, CRLF, rest, p);
  }

  lemma BlockUnfolds(lines: seq<string>)
    requires lines != []
    ensures Block(lines) + CRLF == lines[0] + CRLF + (Block(lines[1..]) + CRLF)
    ensures |Block(lines)| == |lines[0]| + 2 + |Block(lines[1..])|
  {
  }

  lemma Split3(text: string, a: string, b: string, c: string, p: nat)
    ensures At(text, a + b + c, p) <==> At(text, a, p) && At(text, b, p + |a|) && At(text, c, p + |a| + |b|)
  {
    AtSplit(text, a + b, c, p);
    AtSplit(text, a, b, p);
  }

  lemma BlockInText(lines: seq<string>, rest: string)
    requires AllLines(lines)
    ensures BlockAt(Block(lines) + CRLF + rest, 0, lines)
  {
    AtMiddle("", Block(lines) + CRLF, rest);
    assert "" + (Block(lines) + CRLF) + rest == Block(lines) + CRLF + rest;
    BlockReads(Block(lines) + CRLF + rest, 0, lines);
  }

  /** In a block of non-empty lines the blank line is the first place where two CRLFs meet. */
  lemma {:induction false} FirstBlank(text: string, p: nat, lines: seq<string>)
    requires lines != [] && BlockAt(text, p, lines)
    ensures FindFrom(text, HEADER_END, p) == p + BlockSize(lines) - 2
    decreases |lines|
  {
    var rest := lines[1..];
    if rest == [] {
      BlankEndsLine(text, p, lines[0]);
    } else {
      BlankPastLine(text, p, lines[0], rest[0]);
      FirstBlank(text, p + |lines[0]| + 2, rest);
    }
  }

  lemma BlankEndsLine(text: string, p: nat, line: string)
    requires At(text, line, p) && IsLine(line)
    requires At(text, CRLF, p + |line|) && At(text, CRLF, p + |line| + 2)
    ensures FindFrom(text, HEADER_END, p) == p + |line|
  {
    NoBlankInLine(text, p, line);
    AtBlank(text, p + |line|);
    FindFromIs(text, HEADER_END, p, p + |line|);
  }

  lemma BlankPastLine(text: string, p: nat, line: string, next: string)
    requires At(text, line, p) && IsLine(line) && At(text, CRLF, p + |line|)
    requires At(text, next, p + |line| + 2) && IsLine(next)
    ensures FindFrom(text, HEADER_END, p) == FindFrom(text, HEADER_END, p + |line| + 2)
  {
    NoBlankThrough(text, p, line, next);
    SkipTo(text, HEADER_END, p, p + |line| + 2);
  }

  lemma NoBlankThrough(text: string, p: nat, line: string, next: string)
    requires At(text, line, p) && IsLine(line) && At(text, CRLF, p + |line|)
    requires At(text, next, p + |line| + 2) && IsLine(next)
    ensures forall j :: p <= j < p + |line| + 2 ==> !At(text, HEADER_END, j)
  {
    NoBlankInLine(text, p, line);
    StartsLine(text, p + |line|, next);
  }

  lemma NoBlankInLine(text: string, p: nat, line: string)
    requires At(text, line, p) && Free(line, '\r')
    ensures forall j :: p <= j < p + |line| ==> !At(text, HEADER_END, j)
  {
    forall j | p <= j < p + |line|
      ensures !At(text, HEADER_END, j)
    {
      AtBlank(text, j);
      AtCrlf(text, j);
      AtChar(text, line, p, j - p);
    }
  }

  lemma StartsLine(text: string, e: nat, line: string)
    requires At(text, CRLF, e) && At(text, line, e + 2) && IsLine(line)
    ensures !At(text, HEADER_END, e) && !At(text, HEADER_END, e + 1)
  {
    AtBlank(text, e);
    AtBlank(text, e + 1);
    AtCrlf(text, e);
    AtCrlf(text, e + 1);
    AtCrlf(text, e + 2);
    AtChar(text, line, e + 2, 0);
  }

  lemma BlankLineAfterBlock(lines: seq<string>, rest: string)
    requires lines != [] && AllLines(lines)
    ensures HeaderEnd(Block(lines) + CRLF + rest) == |Block(lines)| + 2
  {
    BlockInText(lines, rest);
    BlockSizeIs(lines);
    FirstBlank(Block(lines) + CRLF + rest, 0, lines);
  }

  lemma {:induction false} BlockFree(lines: seq<string>, c: char)
    requires c != '\r' && c != '\n' && forall i :: 0 <= i < |lines| ==> Free(lines[i], c)
    ensures Free(Block(lines), c)
    decreases lines
  {
    if lines != [] {
      BlockFree(lines[1..], c);
      FreeConcat(lines[0], CRLF, c);
      FreeConcat(lines[0] + CRLF, Block(lines[1..]), c);
    }
  }

  // ---------- both walks give back the lines of a block ----------

  /** One line taken by either walk. */
  lemma WalkBefore(text: string, p: nat, line: string, next: nat, end: nat, rest: seq<string>)
    requires At(text, line, p) && At(text, CRLF, p + |line|) && IsLine(line) && p < end && next == p + |line| + 2
    requires LinesBefore(text, next, end) == rest
    ensures LinesBefore(text, p, end) == [line] + rest
  {
    NextLine(text, p, line);
    AtSlice(text, line, p);
  }

  lemma WalkToBlank(text: string, p: nat, line: string, next: nat, rest: seq<string>)
    requires At(text, line, p) && At(text, CRLF, p + |line|) && IsLine(line) && next == p + |line| + 2
    requires LinesToBlank(text, next) == rest
    ensures LinesToBlank(text, p) == [line] + rest
  {
    NextLine(text, p, line);
    AtSlice(text, line, p);
  }

  /** The first line of a block, and what follows. */
  lemma BlockNext(text: string, p: nat, lines: seq<string>) returns (line: string, next: nat)
    requires lines != [] && BlockAt(text, p, lines)
    ensures line == lines[0] && next == p + |line| + 2
    ensures IsLine(line) && At(text, line, p) && At(text, CRLF, p + |line|)
    ensures BlockAt(text, next, lines[1..]) && p + BlockSize(lines) == next + BlockSize(lines[1..])
  {
    line, next := lines[0], p + |lines[0]| + 2;
  }

  lemma {:induction false} LinesBeforeBlank(text: string, p: nat, lines: seq<string>, end: nat)
    requires BlockAt(text, p, lines) && end + 2 == p + BlockSize(lines)
    ensures LinesBefore(text, p, end) == lines
    decreases |lines|
  {
    if lines == [] {
      NoneBefore(text, p, end);
    } else {
      var line, next := BlockNext(text, p, lines);
      LinesBeforeBlank(text, next, lines[1..], end);
      WalkBefore(text, p, line, next, end, lines[1..]);
      Joined(LinesBefore(text, p, end), lines);
    }
  }

  lemma {:induction false} LinesToBlankOfBlock(text: string, p: nat, lines: seq<string>)
    requires BlockAt(text, p, lines)
    ensures LinesToBlank(text, p) == lines
    decreases |lines|
  {
    if lines == [] {
      BlankNext(text, p);
    } else {
      var line, next := BlockNext(text, p, lines);
      LinesToBlankOfBlock(text, next, lines[1..]);
      WalkToBlank(text, p, line, next, lines[1..]);
      Joined(LinesToBlank(text, p), lines);
    }
  }

  lemma Joined(walk: seq<string>, lines: seq<string>)
    requires lines != [] && walk == [lines[0]] + lines[1..]
    ensures walk == lines
  {
  }

  lemma NoneBefore(text: string, p: nat, end: nat)
    requires end <= p <= |text|
    ensures LinesBefore(text, p, end) == []
  {
  }

  lemma BlankNext(text: string, p: nat)
    requires At(text, CRLF, p)
    ensures LinesToBlank(text, p) == []
  {
    assert FindFrom(text, CRLF, p) == p;
  }

  // ---------- the two walks agree on every request ----------

  lemma {:induction false} WalksMeet(text: string, p: nat)
    requires HeaderEnd(text) != -1 && p < HeaderEnd(text) - 4 && !At(text, CRLF, p)
    ensures LinesBefore(text, p, HeaderEnd(text) - 4) == LinesToBlank(text, p)
    decreases |text| - p
  {
    var end := HeaderEnd(text) - 4;
    var e := LineEndBefore(text, p);
    if e < end { WalksMeet(text, e + 2); }
  }

  lemma WalksPart(text: string, p: nat, end: nat)
    requires At(text, CRLF, p) && p < end
    ensures LinesToBlank(text, p) == [] && LinesBefore(text, p, end) != []
  {
    BlankNext(text, p);
    assert FindFrom(text, CRLF, p) == p;
  }

  /**
   For every text with a header end, from any position before it, the two parsers see the same lines if and
   only if the first of them is not empty: an empty line stops only one of the walks.
   */
  lemma WalksAgree(text: string, p: nat)
    requires HeaderEnd(text) != -1 && p < HeaderEnd(text) - 4
    ensures LinesBefore(text, p, HeaderEnd(text) - 4) == LinesToBlank(text, p) <==> !At(text, CRLF, p)
  {
    if At(text, CRLF, p) {
      WalksPart(text, p, HeaderEnd(text) - 4);
    } else {
      WalksMeet(text, p);
    }
  }

  /** A line that starts before the blank line ends there, or before it with another line to follow. */
  lemma LineEndBefore(text: string, p: nat) returns (e: nat)
    requires HeaderEnd(text) != -1 && p < HeaderEnd(text) - 4 && !At(text, CRLF, p)
    ensures e == FindFrom(text, CRLF, p) && p < e <= HeaderEnd(text) - 4
    ensures e == HeaderEnd(text) - 4 ==> At(text, CRLF, e + 2)
    ensures e < HeaderEnd(text) - 4 ==> e + 2 < HeaderEnd(text) - 4 && !At(text, CRLF, e + 2)
  {
    var end := HeaderEnd(text) - 4;
    TwoAtEnd(text);
    if FindFrom(text, CRLF, p) == -1 || end < FindFrom(text, CRLF, p) { NotEarlier(text, CRLF, p, end); }
    e := FindFrom(text, CRLF, p);
    Found(text, CRLF, p);
    NotBetween(text, e, end);
    if e < end { OneBeforeEnd(text, e); }
  }

  /** The header ends with two CRLFs; before that, no two of them meet. */
  lemma TwoAtEnd(text: string)
    requires HeaderEnd(text) != -1
    ensures At(text, CRLF, HeaderEnd(text) - 4) && At(text, CRLF, HeaderEnd(text) - 2)
  {
    Found(text, HEADER_END, 0);
    AtBlank(text, HeaderEnd(text) - 4);
  }

  lemma OneBeforeEnd(text: string, e: nat)
    requires HeaderEnd(text) != -1 && e < HeaderEnd(text) - 4 && At(text, CRLF, e)
    ensures !At(text, CRLF, e + 2)
  {
    NotEarlier(text, HEADER_END, 0, e);
    AtBlank(text, e);
  }

  /** The CRLF that ends a line does not overlap the blank line it may run into. */
  lemma NotBetween(text: string, e: nat, end: nat)
    requires At(text, CRLF, e) && At(text, CRLF, end) && e <= end
    ensures e + 1 != end
  {
    AtCrlf(text, e);
    AtCrlf(text, end);
  }
}
