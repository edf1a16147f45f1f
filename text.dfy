/** The Python string operations the pipeline relies on: `str.strip()`,
    `str.split(',')`, `str.replace(old, '')`, and the way a text-mode file
    is read back line by line. */
module Text {

  /** The characters Python's `str.isspace()` accepts, which are the ones
      `str.strip()` removes at both ends. */
  predicate IsSpace(c: char) {
    var n := c as int;
    n == 0x20 || (0x09 <= n <= 0x0D) || (0x1C <= n <= 0x1F) || n == 0x85 || n == 0xA0 ||
    n == 0x1680 || (0x2000 <= n <= 0x200A) || n == 0x2028 || n == 0x2029 ||
    n == 0x202F || n == 0x205F || n == 0x3000
  }

  /** `s` without the leading characters that `space` accepts. */
  function TrimStart(s: string, space: char -> bool): (r: string)
    ensures |r| <= |s| && r == s[|s| - |r|..]
    ensures r == [] || !space(r[0])
    ensures forall i :: 0 <= i < |s| - |r| ==> space(s[i])
  {
    if s != [] && space(s[0]) then
      var t := s[1..];
      var r := TrimStart(t, space);
      assert t[|t| - |r|..] == s[|s| - |r|..];
      assert forall i :: 0 < i < |s| - |r| ==> s[i] == t[i - 1];
      r
    else s
  }

  /** `s` without the trailing characters that `space` accepts. */
  function TrimEnd(s: string, space: char -> bool): (r: string)
    ensures |r| <= |s| && r == s[..|r|]
    ensures r == [] || !space(r[|r| - 1])
    ensures forall i :: |r| <= i < |s| ==> space(s[i])
  {
    if s != [] && space(s[|s| - 1]) then TrimEnd(s[..|s| - 1], space) else s
  }

  /** `s` trimmed at both ends. */
  function StripBy(s: string, space: char -> bool): string {
    TrimEnd(TrimStart(s, space), space)
  }

  /** Python's `s.strip()`. */
  function Strip(s: string): string {
    StripBy(s, IsSpace)
  }

  /** A string that begins and ends with a character outside `space` is
      left alone by trimming. */
  lemma {:induction false} StripUnchanged(s: string, space: char -> bool)
    requires s == [] || (!space(s[0]) && !space(s[|s| - 1]))
    ensures StripBy(s, space) == s
  {
  }

  lemma {:induction false} AppendAssoc(x: string, y: string, z: string)
    ensures x + (y + z) == (x + y) + z
  {
  }

  lemma {:induction false} TrimStartSkip(c: char, s: string, space: char -> bool)
    requires space(c)
    ensures TrimStart([c] + s, space) == TrimStart(s, space)
  {
    assert ([c] + s)[1..] == s;
  }

  /** A string that ends with a character outside `space` keeps its end. */
  lemma {:induction false} TrimEndKeeps(s: string, space: char -> bool)
    requires s != [] && !space(s[|s| - 1])
    ensures TrimEnd(s, space) == s
  {
  }

  /** Leading white space is trimmed up to the first other character,
      whatever follows it. */
  lemma {:induction false} TrimStartAppend(a: string, t: string, space: char -> bool)
    requires t != [] && !space(t[0])
    ensures TrimStart(a + t, space) == TrimStart(a, space) + t
    decreases |a|
  {
    if a == [] {
      assert a + t == t;
    } else {
      assert (a + t)[0] == a[0];
      if space(a[0]) {
        assert (a + t)[1..] == a[1..] + t;
        TrimStartAppend(a[1..], t, space);
      }
    }
  }

  /** Python's `sep.join(parts)`. */
  function Join(parts: seq<string>, sep: char): string
    requires |parts| > 0
  {
    if |parts| == 1 then parts[0] else parts[0] + [sep] + Join(parts[1..], sep)
  }

  /** Python's `s.split(sep)` for a one-character separator: the pieces
      between separators, at least one of them, none holding the separator,
      that join back to `s`. */
  function Split(s: string, sep: char): (parts: seq<string>)
    ensures |parts| > 0
    ensures forall i :: 0 <= i < |parts| ==> sep !in parts[i]
    ensures Join(parts, sep) == s
  {
    if s == [] then [""]
    else
      var rest := Split(s[1..], sep);
      if s[0] == sep then [""] + rest
      else
        JoinConsFirst(s[0], rest, sep);
        [[s[0]] + rest[0]] + rest[1..]
  }

  lemma {:induction false} JoinConsFirst(c: char, parts: seq<string>, sep: char)
    requires |parts| > 0
    ensures Join([[c] + parts[0]] + parts[1..], sep) == [c] + Join(parts, sep)
  {
  }

  lemma {:induction false} SplitNoSeparator(s: string, sep: char)
    requires sep !in s
    ensures Split(s, sep) == [s]
  {
    if s != [] {
      SplitNoSeparator(s[1..], sep);
    }
  }

  lemma {:induction false} SplitAtFirst(a: string, b: string, sep: char)
    requires sep !in a
    ensures Split(a + [sep] + b, sep) == [a] + Split(b, sep)
  {
    if a != [] {
      var s := a + [sep] + b;
      assert s[0] == a[0] && s[1..] == a[1..] + [sep] + b;
      SplitAtFirst(a[1..], b, sep);
      var rest := Split(s[1..], sep);
      assert rest == [a[1..]] + Split(b, sep);
      assert Split(s, sep) == [[a[0]] + rest[0]] + rest[1..];
      assert [a[0]] + a[1..] == a;
    } else {
      assert (a + [sep] + b)[1..] == b;
    }
  }

  /** Three fields joined by the separator split back into those three. */
  lemma {:induction false} SplitThree(a: string, b: string, c: string, sep: char)
    requires sep !in a && sep !in b && sep !in c
    ensures Split(a + [sep] + (b + [sep] + c), sep) == [a, b, c]
  {
    SplitAtFirst(a, b + [sep] + c, sep);
    SplitTwo(b, c, sep);
  }

  /** The fields `a`, `b`, `c` joined left to right, regrouped. */
  lemma {:induction false} JoinedThree(a: string, b: string, c: string, sep: char)
    ensures a + [sep] + b + [sep] + c == a + [sep] + (b + [sep] + c)
  {
    var tail := b + [sep] + c;
    assert (a + [sep]) + tail == a + [sep] + tail;
  }

  lemma {:induction false} SplitTwo(b: string, c: string, sep: char)
    requires sep !in b && sep !in c
    ensures Split(b + [sep] + c, sep) == [b, c]
  {
    SplitAtFirst(b, c, sep);
    SplitNoSeparator(c, sep);
  }

  /** Splitting undoes joining pieces that do not hold the separator. */
  lemma {:induction false} SplitJoin(parts: seq<string>, sep: char)
    requires |parts| > 0
    requires forall i :: 0 <= i < |parts| ==> sep !in parts[i]
    ensures Split(Join(parts, sep), sep) == parts
  {
    if |parts| == 1 {
      SplitNoSeparator(parts[0], sep);
    } else {
      SplitJoin(parts[1..], sep);
      SplitAtFirst(parts[0], Join(parts[1..], sep), sep);
    }
  }

  /** Python's `s.replace(pat, '')`: occurrences are found left to right
      and do not overlap. */
  function RemoveAll(s: string, pat: string): (r: string)
    requires |pat| > 0
    ensures |r| <= |s|
    ensures forall i :: 0 <= i < |r| ==> r[i] in s
  {
    if |s| < |pat| then s
    else if s[..|pat|] == pat then RemoveAll(s[|pat|..], pat)
    else [s[0]] + RemoveAll(s[1..], pat)
  }

  /** `pat` occurs in `s` at position `i`. */
  predicate MatchAt(s: string, pat: string, i: int) {
    0 <= i && i + |pat| <= |s| && s[i..i + |pat|] == pat
  }

  /** No occurrence of `pat` in `s` starts before position `k`. */
  predicate NoMatchBefore(s: string, pat: string, k: int) {
    forall i :: 0 <= i < k ==> !MatchAt(s, pat, i)
  }

  /** A text in which `pat` does not occur is left as it is. */
  lemma {:induction false} RemoveAbsent(s: string, pat: string)
    requires |pat| > 0 && NoMatchBefore(s, pat, |s|)
    ensures RemoveAll(s, pat) == s
    decreases |s|
  {
    if |s| >= |pat| {
      assert !MatchAt(s, pat, 0);
      NoMatchShift(s, pat, |s|);
      RemoveAbsent(s[1..], pat);
      assert [s[0]] + s[1..] == s;
    }
  }

  /** Dropping the first character keeps the absence of earlier
      occurrences, one position sooner. */
  lemma {:induction false} NoMatchShift(s: string, pat: string, k: int)
    requires s != [] && NoMatchBefore(s, pat, k)
    ensures NoMatchBefore(s[1..], pat, k - 1)
  {
    forall i | 0 <= i < k - 1
      ensures !MatchAt(s[1..], pat, i)
    {
      assert !MatchAt(s, pat, i + 1);
      if i + |pat| <= |s[1..]| {
        assert s[1..][i..i + |pat|] == s[i + 1..i + 1 + |pat|];
      }
    }
  }

  /** The leftmost occurrence is removed first, and the search goes on
      after it: the text before it is kept, and the text after it is
      treated the same way. */
  lemma {:induction false} RemoveLeftmost(a: string, pat: string, b: string)
    requires |pat| > 0 && NoMatchBefore(a + pat + b, pat, |a|)
    ensures RemoveAll(a + pat + b, pat) == a + RemoveAll(b, pat)
    decreases |a|
  {
    var s := a + pat + b;
    if a == [] {
      assert s == pat + b;
      assert s[..|pat|] == pat;
      assert s[|pat|..] == b;
    } else {
      assert !MatchAt(s, pat, 0);
      NoMatchShift(s, pat, |a|);
      assert s[1..] == a[1..] + pat + b;
      RemoveLeftmost(a[1..], pat, b);
      assert s[0] == a[0];
      assert [a[0]] + (a[1..] + RemoveAll(b, pat)) == a + RemoveAll(b, pat);
    }
  }

  /** When the first character of `pat` does not occur in `base`, the only
      occurrence in `base + pat` is the trailing one, and removing it gives
      `base` back. */
  lemma {:induction false} RemoveTrailing(base: string, pat: string)
    requires |pat| > 0 && pat[0] !in base
    ensures RemoveAll(base + pat, pat) == base
  {
    if base == [] {
      assert (base + pat)[|pat|..] == [];
    } else {
      assert (base + pat)[..|pat|][0] == base[0];
      assert (base + pat)[1..] == base[1..] + pat;
      RemoveTrailing(base[1..], pat);
    }
  }

  /** The characters at which Python's text-mode reading (universal
      newlines) ends a line. */
  predicate IsLineBreak(c: char) {
    c == '\n' || c == '\r'
  }

  function BreakIndex(s: string): (k: nat)
    ensures k <= |s|
    ensures forall i :: 0 <= i < k ==> !IsLineBreak(s[i])
    ensures k < |s| ==> IsLineBreak(s[k])
  {
    if s == [] || IsLineBreak(s[0]) then 0 else 1 + BreakIndex(s[1..])
  }

  /** The lines a text-mode file with content `s` yields, one by one, with
      their terminator (`\n`, `\r\n` or `\r`) dropped; a final terminator
      does not start another line. */
  function FileLines(s: string): (lines: seq<string>)
    ensures forall i :: 0 <= i < |lines| ==> forall j :: 0 <= j < |lines[i]| ==> !IsLineBreak(lines[i][j])
    decreases |s|
  {
    if s == [] then []
    else
      var k := BreakIndex(s);
      if k == |s| then [s]
      else
        var next := if s[k] == '\r' && k + 1 < |s| && s[k + 1] == '\n' then k + 2 else k + 1;
        [s[..k]] + FileLines(s[next..])
  }

  predicate NoLineBreak(s: string) {
    forall i :: 0 <= i < |s| ==> !IsLineBreak(s[i])
  }

  /** A field of a comma-separated line that reads back as it was
      written: no comma and no line break. */
  predicate PlainField(s: string) {
    forall i :: 0 <= i < |s| ==> s[i] != ',' && !IsLineBreak(s[i])
  }

  lemma {:induction false} PlainFieldHasNoComma(s: string)
    requires PlainField(s)
    ensures ',' !in s && NoLineBreak(s)
  {
  }

  /** The content a loop writes with `f.write(line + '\n')` per line. */
  function Unlines(lines: seq<string>): string {
    if lines == [] then "" else lines[0] + "\n" + Unlines(lines[1..])
  }

  lemma {:induction false} UnlinesSnoc(lines: seq<string>, line: string)
    ensures Unlines(lines + [line]) == Unlines(lines) + line + "\n"
  {
    if lines != [] {
      assert (lines + [line])[1..] == lines[1..] + [line];
      UnlinesSnoc(lines[1..], line);
    } else {
      assert [line][1..] == [];
    }
  }

  lemma {:induction false} FileLinesCons(line: string, rest: string)
    requires NoLineBreak(line)
    ensures FileLines(line + "\n" + rest) == [line] + FileLines(rest)
  {
    var s := line + "\n" + rest;
    assert s[|line|] == '\n';
    assert BreakIndex(s) == |line|;
    assert s[..|line|] == line && s[|line| + 1..] == rest;
  }

  /** Reading back what was written line by line gives the lines back. */
  lemma {:induction false} FileLinesUnlines(lines: seq<string>)
    requires forall i :: 0 <= i < |lines| ==> NoLineBreak(lines[i])
    ensures FileLines(Unlines(lines)) == lines
  {
    if lines != [] {
      FileLinesUnlines(lines[1..]);
      FileLinesCons(lines[0], Unlines(lines[1..]));
    }
  }
}
