/**
 The parts of the C library that the server's parsers rest on: `strstr`, `strncasecmp`,
 `isspace`, `isdigit` and decimal numbers.  A C string is a `string` without '\0'; `CStr` is what
 the `str...` functions see of a buffer that is followed by a terminating '\0'.
 */
module CStrings {

  const CRLF: string := "\r\n"
  const INT_MAX: int := 0x7fff_ffff

  datatype Option<+T> = None | Some(value: T)

  // ---------- terminated buffers ----------

  function StrLenFrom(buffer: string, i: nat): (n: nat)
    requires i <= |buffer|
    ensures i <= n <= |buffer|
    ensures forall k :: i <= k < n ==> buffer[k] != '\0'
    ensures n < |buffer| ==> buffer[n] == '\0'
    decreases |buffer| - i
  {
    if i < |buffer| && buffer[i] != '\0' then StrLenFrom(buffer, i + 1) else i
  }

  function StrLen(buffer: string): nat { StrLenFrom(buffer, 0) }

  /** The characters before the first '\0' (all of them when there is none). */
  function CStr(buffer: string): string { buffer[..StrLen(buffer)] }

  /** What dereferencing a pointer into a C string yields: its end reads as '\0'. */
  function CharAt(s: string, p: nat): char { if p < |s| then s[p] else '\0' }

  lemma CStrOfClean(buffer: string)
    requires Free(buffer, '\0')
    ensures CStr(buffer) == buffer
  {
  }

  lemma CStrStops(s: string, t: string)
    ensures CStr(s + ['\0'] + t) == CStr(s)
  {
    var all := s + ['\0'] + t;
    assert forall i :: 0 <= i < |s| ==> all[i] == s[i];
    assert all[|s|] == '\0';
    assert StrLen(all) == StrLen(s);
  }

  lemma CStrOfConcat(s: string, t: string)
    requires Free(s, '\0')
    ensures CStr(s + t) == s + CStr(t)
  {
    var n := StrLen(t);
    assert forall i :: 0 <= i < |t| ==> (s + t)[|s| + i] == t[i];
    assert forall i :: 0 <= i < |s| ==> (s + t)[i] == s[i];
    assert StrLen(s + t) == |s| + n;
  }

  lemma FreeConcat(a: string, b: string, c: char)
    requires Free(a, c) && Free(b, c)
    ensures Free(a + b, c)
  {
  }

  // ---------- strstr ----------

  predicate At(s: string, needle: string, i: int) {
    0 <= i && i + |needle| <= |s| && s[i..i + |needle|] == needle
  }

  /** Offset of the first occurrence of `needle`, -1 when there is none (`strstr`). */
  function Find(s: string, needle: string): (r: int)
    ensures r == -1 || (0 <= r && r + |needle| <= |s|)
  {
    FindFrom(s, needle, 0)
  }

  function FindFrom(s: string, needle: string, i: nat): (r: int)
    ensures r == -1 || (i <= r && r + |needle| <= |s|)
    decreases |s| - i
  {
    if i + |needle| > |s| then -1
    else if At(s, needle, i) then i
    else FindFrom(s, needle, i + 1)
  }

  lemma Found(s: string, needle: string, i: nat)
    requires FindFrom(s, needle, i) != -1
    ensures At(s, needle, FindFrom(s, needle, i))
    decreases |s| - i
  {
    if !At(s, needle, i) { Found(s, needle, i + 1); }
  }

  lemma NotEarlier(s: string, needle: string, i: nat, j: int)
    requires i <= j && (FindFrom(s, needle, i) == -1 || j < FindFrom(s, needle, i))
    ensures !At(s, needle, j)
    decreases |s| - i
  {
    if i < j && i + |needle| <= |s| { NotEarlier(s, needle, i + 1, j); }
  }

  lemma FindFromIs(s: string, needle: string, i: nat, r: nat)
    requires i <= r && At(s, needle, r)
    requires forall j :: i <= j < r ==> !At(s, needle, j)
    ensures FindFrom(s, needle, i) == r
    decreases |s| - i
  {
    if i < r { FindFromIs(s, needle, i + 1, r); }
  }

  /** A search may start later if nothing starts in between. */
  lemma SkipTo(s: string, needle: string, i: nat, j: nat)
    requires i <= j && forall k :: i <= k < j ==> !At(s, needle, k)
    ensures FindFrom(s, needle, i) == FindFrom(s, needle, j)
    decreases j - i
  {
    if i < j { SkipTo(s, needle, i + 1, j); }
  }

  lemma FindIs(s: string, needle: string, r: nat)
    requires At(s, needle, r)
    requires forall j :: 0 <= j < r ==> !At(s, needle, j)
    ensures Find(s, needle) == r
  {
    FindFromIs(s, needle, 0, r);
  }

  lemma FindNone(s: string, needle: string)
    requires forall j :: 0 <= j ==> !At(s, needle, j)
    ensures Find(s, needle) == -1
  {
    if Find(s, needle) != -1 { Found(s, needle, 0); }
  }

  /** Appending characters does not disturb the occurrences that were already there. */
  lemma AtExtends(s: string, t: string, needle: string, i: int)
    requires 0 <= i && i + |needle| <= |s|
    ensures At(s, needle, i) <==> At(s + t, needle, i)
  {
    assert (s + t)[i..i + |needle|] == s[i..i + |needle|];
  }

  lemma FindExtends(s: string, t: string, needle: string)
    requires Find(s, needle) != -1
    ensures Find(s + t, needle) == Find(s, needle)
  {
    var r := Find(s, needle);
    Found(s, needle, 0);
    AtExtends(s, t, needle, r);
    forall j | 0 <= j < r
      ensures !At(s + t, needle, j)
    {
      NotEarlier(s, needle, 0, j);
      AtExtends(s, t, needle, j);
    }
    FindIs(s + t, needle, r);
  }

  lemma AtShifts(s: string, t: string, needle: string, i: int)
    requires 0 <= i
    ensures At(t, needle, i) <==> At(s + t, needle, |s| + i)
  {
    if i + |needle| <= |t| {
      assert (s + t)[|s| + i..|s| + i + |needle|] == t[i..i + |needle|];
    }
  }

  /** If no occurrence starts inside `s`, the search goes on in what follows `s`. */
  lemma FindShifts(s: string, t: string, needle: string)
    requires forall i :: 0 <= i < |s| ==> !At(s + t, needle, i)
    ensures Find(s + t, needle) == if Find(t, needle) == -1 then -1 else |s| + Find(t, needle)
  {
    var r := Find(t, needle);
    forall j | 0 <= j && (r == -1 || j < |s| + r)
      ensures !At(s + t, needle, j)
    {
      if |s| <= j {
        NotEarlier(t, needle, 0, j - |s|);
        AtShifts(s, t, needle, j - |s|);
      }
    }
    if r == -1 {
      FindNone(s + t, needle);
    } else {
      Found(t, needle, 0);
      AtShifts(s, t, needle, r);
      FindIs(s + t, needle, |s| + r);
    }
  }

  lemma AtSlice(s: string, needle: string, i: int)
    requires At(s, needle, i)
    ensures s[i..i + |needle|] == needle
  {
  }

  lemma AtMiddle(a: string, b: string, c: string)
    ensures At(a + b + c, b, |a|)
  {
    assert (a + b + c)[|a|..|a| + |b|] == b;
  }

  lemma AtSplit(s: string, a: string, b: string, i: nat)
    ensures At(s, a + b, i) <==> At(s, a, i) && At(s, b, i + |a|)
  {
    var m, n := i + |a|, i + |a| + |b|;
    if n <= |s| {
      var whole := s[i..n];
      assert whole == s[i..m] + s[m..n];
      if whole == a + b {
        assert s[i..m] == whole[..|a|] == a;
        assert s[m..n] == whole[|a|..] == b;
      }
    }
  }

  /** Every character of an occurrence, read off the haystack. */
  lemma AtChar(s: string, needle: string, i: int, k: int)
    requires At(s, needle, i) && 0 <= k < |needle|
    ensures s[i + k] == needle[k]
  {
    assert s[i..i + |needle|][k] == s[i + k];
  }

  /** The first occurrence of a character. */
  lemma FindChar(s: string, c: char, i: nat)
    requires i < |s| && s[i] == c && forall k :: 0 <= k < i ==> s[k] != c
    ensures Find(s, [c]) == i
  {
    assert s[i..i + 1] == [c];
    forall k | 0 <= k < i
      ensures !At(s, [c], k)
    {
      assert s[k..k + 1] == [s[k]];
    }
    FindIs(s, [c], i);
  }

  // ---------- ctype.h and strings.h ----------

  predicate IsSpace(c: char) { c == ' ' || ('\t' <= c <= '\r') }

  predicate IsDigit(c: char) { '0' <= c <= '9' }

  predicate AllDigits(s: string) { forall i :: 0 <= i < |s| ==> IsDigit(s[i]) }

  predicate SpaceFree(s: string) { forall i :: 0 <= i < |s| ==> !IsSpace(s[i]) }

  predicate Free(s: string, c: char) { forall i :: 0 <= i < |s| ==> s[i] != c }

  function LowerChar(c: char): char {
    if 'A' <= c <= 'Z' then (c as int + 32) as char else c
  }

  function Take(s: string, n: nat): string { if n <= |s| then s[..n] else s }

  /** `strcasecmp(a, b) == 0` */
  predicate CaseEq(a: string, b: string) {
    |a| == |b| && forall i :: 0 <= i < |a| ==> LowerChar(a[i]) == LowerChar(b[i])
  }

  /** Case is ignored, and nothing else: letters may differ by the distance of 'a' and 'A'. */
  lemma CaseIgnored(a: string, b: string)
    ensures CaseEq(a, b) <==> |a| == |b| && forall i :: 0 <= i < |a| ==> SameLetter(a[i], b[i])
  {
  }

  predicate SameLetter(c: char, d: char) {
    || c == d
    || ('A' <= c <= 'Z' && d as int - c as int == 'a' as int - 'A' as int)
    || ('A' <= d <= 'Z' && c as int - d as int == 'a' as int - 'A' as int)
  }

  /** `strncasecmp(a, b, n) == 0`: equal up to the terminator or to n characters. */
  predicate NCaseEq(a: string, b: string, n: nat) {
    CaseEq(Take(a, n), Take(b, n))
  }

  /** s starts with the word, which is written in small letters, in any case. */
  predicate StartsWith(s: string, word: string) {
    |s| >= |word| && forall i :: 0 <= i < |word| ==> LowerChar(s[i]) == word[i]
  }

  lemma StartsWithIs(s: string, word: string, lower: string)
    requires |word| == |lower| && forall i :: 0 <= i < |word| ==> LowerChar(word[i]) == lower[i]
    ensures NCaseEq(s, word, |word|) <==> StartsWith(s, lower)
  {
    assert Take(word, |word|) == word;
    assert |s| >= |word| ==> forall i :: 0 <= i < |word| ==> Take(s, |word|)[i] == s[i];
  }

  /** The text starts with the word, in any case, and a space. */
  predicate FirstWordIs(text: string, word: string) {
    |word| < |text| && text[|word|] == ' ' && CaseEq(text[..|word|], word)
  }

  /** Looking for the first space and comparing what is before it asks for just that. */
  lemma FirstWordAt(text: string, word: string)
    requires Free(word, ' ')
    ensures var space := Find(text, " ");
            FirstWordIs(text, word) <==> space != -1 && CaseEq(text[..space], word)
  {
    if FirstWordIs(text, word) {
      assert forall k :: 0 <= k < |word| ==> LowerChar(text[..|word|][k]) == LowerChar(word[k]);
      FindChar(text, ' ', |word|);
    } else if Find(text, " ") != -1 {
      Found(text, " ", 0);
      AtChar(text, " ", Find(text, " "), 0);
    }
  }

  // ---------- decimal numbers ----------

  /** End of the run of white space that starts at `i`. */
  function SpaceEnd(s: string, i: nat): (r: nat)
    requires i <= |s|
    ensures i <= r <= |s|
    decreases |s| - i
  {
    if i < |s| && IsSpace(s[i]) then SpaceEnd(s, i + 1) else i
  }

  lemma SpaceEndIs(s: string, i: nat, r: nat)
    requires i <= r <= |s|
    requires forall k :: i <= k < r ==> IsSpace(s[k])
    requires r < |s| ==> !IsSpace(s[r])
    ensures SpaceEnd(s, i) == r
    decreases r - i
  {
    if i < r { SpaceEndIs(s, i + 1, r); }
  }

  /** End of the run of digits that starts at `i`. */
  function DigitEnd(s: string, i: nat): (r: nat)
    requires i <= |s|
    ensures i <= r <= |s|
    decreases |s| - i
  {
    if i < |s| && IsDigit(s[i]) then DigitEnd(s, i + 1) else i
  }

  lemma DigitEndIs(s: string, i: nat, r: nat)
    requires i <= r <= |s|
    requires forall k :: i <= k < r ==> IsDigit(s[k])
    requires r < |s| ==> !IsDigit(s[r])
    ensures DigitEnd(s, i) == r
    decreases r - i
  {
    if i < r { DigitEndIs(s, i + 1, r); }
  }

  /** End of the run of non-space characters that starts at `i`. */
  function WordEnd(s: string, i: nat): (r: nat)
    requires i <= |s|
    ensures i <= r <= |s|
    decreases |s| - i
  {
    if i < |s| && !IsSpace(s[i]) then WordEnd(s, i + 1) else i
  }

  lemma WordEndIs(s: string, i: nat, r: nat)
    requires i <= r <= |s|
    requires forall k :: i <= k < r ==> !IsSpace(s[k])
    requires r < |s| ==> IsSpace(s[r])
    ensures WordEnd(s, i) == r
    decreases r - i
  {
    if i < r { WordEndIs(s, i + 1, r); }
  }

  function Digit(c: char): int { c as int - '0' as int }

  /** The number that the digits at positions `a` to `b` spell. */
  function Value(s: string, a: nat, b: nat): int
    requires a <= b <= |s|
    decreases b
  {
    if a == b then 0 else Value(s, a, b - 1) * 10 + Digit(s[b - 1])
  }

  lemma ValueMoves(s: string, a: nat, b: nat, t: string, c: nat)
    requires a <= b <= |s| && c + b - a <= |t|
    requires forall k :: a <= k < b ==> s[k] == t[k - a + c]
    ensures Value(s, a, b) == Value(t, c, c + b - a)
    decreases b
  {
    if a < b { ValueMoves(s, a, b - 1, t, c); }
  }

  /** The accumulator of the digit loops never exceeds the number it ends with. */
  lemma {:induction false} ValueMonotone(s: string, a: nat, k: nat, b: nat)
    requires a <= k <= b <= |s|
    requires forall i :: a <= i < b ==> IsDigit(s[i])
    ensures 0 <= Value(s, a, k) <= Value(s, a, b)
    decreases b
  {
    if k < b {
      ValueMonotone(s, a, k, b - 1);
    } else if a < b {
      ValueMonotone(s, a, b - 1, b - 1);
    }
  }

  function Decimal(n: nat): (s: string)
    ensures s != [] && AllDigits(s)
  {
    if n < 10 then [DigitOf(n)] else Decimal(n / 10) + [DigitOf(n % 10)]
  }

  function DigitOf(n: nat): (c: char)
    requires n < 10
    ensures IsDigit(c) && Digit(c) == n
  {
    (n + '0' as int) as char
  }

  lemma {:induction false} DecimalValue(n: nat)
    ensures Value(Decimal(n), 0, |Decimal(n)|) == n
  {
    if n >= 10 {
      var d, s := Decimal(n / 10), Decimal(n);
      DecimalValue(n / 10);
      ValueMoves(d, 0, |d|, s, 0);
    }
  }

  /** Skip white space, then accumulate digits: what the hand-written readers and `atoi` share. */
  function NumberAt(s: string, i: nat): int
    requires i <= |s|
  {
    var a := SpaceEnd(s, i);
    Value(s, a, DigitEnd(s, a))
  }

  /** A run of digits is read as the number it spells, wherever it stands. */
  lemma NumberAtReads(s: string, i: nat, a: nat, d: string)
    requires i <= a && a + |d| <= |s|
    requires forall k :: i <= k < a ==> IsSpace(s[k])
    requires s[a..a + |d|] == d && d != [] && AllDigits(d)
    requires a + |d| < |s| ==> !IsDigit(s[a + |d|])
    ensures NumberAt(s, i) == Value(d, 0, |d|)
  {
    DigitRun(s, a, d);
    SpaceEndIs(s, i, a);
    ValueOfCopy(s, a, d);
  }

  lemma DigitRun(s: string, a: nat, d: string)
    requires a + |d| <= |s| && s[a..a + |d|] == d && d != [] && AllDigits(d)
    requires a + |d| < |s| ==> !IsDigit(s[a + |d|])
    ensures IsDigit(s[a]) && DigitEnd(s, a) == a + |d|
  {
    assert forall k :: a <= k < a + |d| ==> s[k] == s[a..a + |d|][k - a];
    DigitEndIs(s, a, a + |d|);
  }

  lemma ValueOfCopy(s: string, a: nat, d: string)
    requires a + |d| <= |s| && s[a..a + |d|] == d
    ensures Value(s, a, a + |d|) == Value(d, 0, |d|)
  {
    assert forall k :: 0 <= k < |d| ==> d[k] == s[a..a + |d|][k] == s[k - 0 + a];
    ValueMoves(d, 0, |d|, s, a);
  }

  /** A printed number is read back from wherever it stands. */
  lemma NumberAtIs(s: string, i: nat, a: nat, n: nat)
    requires i <= a && a + |Decimal(n)| <= |s|
    requires forall k :: i <= k < a ==> IsSpace(s[k])
    requires s[a..a + |Decimal(n)|] == Decimal(n)
    requires a + |Decimal(n)| < |s| ==> !IsDigit(s[a + |Decimal(n)|])
    ensures NumberAt(s, i) == n
  {
    NumberAtReads(s, i, a, Decimal(n));
    DecimalValue(n);
  }
}
