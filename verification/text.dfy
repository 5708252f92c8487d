/** Python string primitives the pipeline relies on, written out over
    `seq<char>`: whitespace as `str.isspace()` sees it (the set `strip()`,
    `split()` and the regex class `\s` use), stripping, word splitting,
    prefix/suffix/infix tests, `replace`, `split(sep)`, line iteration of a
    text-mode file and `os.path.basename`. */
module Text {

  /** The code points `str.isspace()` accepts, split at 0x80: ASCII space,
      tab, line feed, vertical tab, form feed, carriage return and the four
      separators 0x1C-0x1F below; NEL, no-break space, ogham space mark,
      the punctuation spaces 0x2000-0x200A, line and paragraph separator,
      narrow no-break space, medium mathematical space and ideographic
      space above. */
  const LowSpaceCodes: seq<int> := [32, 9, 10, 11, 12, 13, 28, 29, 30, 31]
  const HighSpaceCodes: seq<int> := [
    0x85, 0xA0, 0x1680, 0x2000, 0x2001, 0x2002, 0x2003, 0x2004, 0x2005,
    0x2006, 0x2007, 0x2008, 0x2009, 0x200A, 0x2028, 0x2029, 0x202F,
    0x205F, 0x3000]

  predicate Member(n: int, xs: seq<int>) {
    xs != [] && (xs[0] == n || Member(n, xs[1..]))
  }

  /** `str.isspace()` for one code point. */
  predicate IsSpace(c: char) {
    var n := c as int;
    (n <= 32 && Member(n, LowSpaceCodes)) || (n >= 0x85 && Member(n, HighSpaceCodes))
  }

  lemma {:induction false} MemberIsIn(n: int, xs: seq<int>)
    ensures Member(n, xs) <==> n in xs
  {
    if xs != [] {
      MemberIsIn(n, xs[1..]);
      assert xs == [xs[0]] + xs[1..];
    }
  }

  /** Printable ASCII other than the space is never whitespace. */
  lemma VisibleAsciiIsNotSpace(c: char)
    requires 33 <= c as int <= 126
    ensures !IsSpace(c)
  {
  }

  /** The ASCII whitespace characters the pipeline meets. */
  lemma AsciiSpaceIsSpace(c: char)
    requires c == ' ' || c == '\t' || c == '\n' || c == '\r'
    ensures IsSpace(c)
  {
    MemberIsIn(c as int, LowSpaceCodes);
  }

  predicate AllSpace(s: string) {
    forall i :: 0 <= i < |s| ==> IsSpace(s[i])
  }

  predicate NoSpace(s: string) {
    forall i :: 0 <= i < |s| ==> !IsSpace(s[i])
  }

  /** Neither end of `s` is whitespace: what `strip()` leaves behind. */
  predicate IsStripped(s: string) {
    s == [] || (!IsSpace(s[0]) && !IsSpace(s[|s| - 1]))
  }

  /** `s.lstrip()`: drops the leading whitespace; `TrimStartIsSuffix`
      shows the rest of `s` is kept as it is. */
  function TrimStart(s: string): (r: string)
    ensures |r| <= |s|
    ensures AllSpace(s[..|s| - |r|])
    ensures r == [] || !IsSpace(r[0])
  {
    if |s| > 0 && IsSpace(s[0]) then
      var r := TrimStart(s[1..]);
      assert s[..|s| - |r|] == [s[0]] + s[1..][..|s| - 1 - |r|];
      r
    else s
  }

  /** `s.rstrip()`: drops the trailing whitespace; `TrimEndIsPrefix`
      shows the rest of `s` is kept as it is. */
  function TrimEnd(s: string): (r: string)
    ensures |r| <= |s|
    ensures AllSpace(s[|r|..])
    ensures r == [] || !IsSpace(r[|r| - 1])
  {
    if |s| > 0 && IsSpace(s[|s| - 1]) then
      var r := TrimEnd(s[..|s| - 1]);
      assert s[|r|..] == s[..|s| - 1][|r|..] + [s[|s| - 1]];
      r
    else s
  }

  lemma {:induction false} TrimStartIsSuffix(s: string)
    ensures TrimStart(s) == s[|s| - |TrimStart(s)|..]
  {
    if |s| > 0 && IsSpace(s[0]) {
      TrimStartIsSuffix(s[1..]);
    }
  }

  lemma {:induction false} TrimEndIsPrefix(s: string)
    ensures TrimEnd(s) == s[..|TrimEnd(s)|]
  {
    if |s| > 0 && IsSpace(s[|s| - 1]) {
      TrimEndIsPrefix(s[..|s| - 1]);
    }
  }

  /** `s.strip()`: the result is a slice of `s` that drops only whitespace
      and keeps none at either end. */
  function Strip(s: string): (r: string)
    ensures |r| <= |s|
    ensures IsStripped(r)
  {
    var t := TrimStart(s);
    TrimEndIsPrefix(t);
    TrimEnd(t)
  }

  /** `strip()` leaves a string with no whitespace at either end as it
      is: stripping is idempotent. */
  lemma StripStripped(s: string)
    requires IsStripped(s)
    ensures Strip(s) == s
  {
  }

  /** `strip()` returns a contiguous slice, starting where `lstrip()` does. */
  lemma StripIsSlice(s: string)
    ensures Strip(s) == s[|s| - |TrimStart(s)|..|s| - |TrimStart(s)| + |Strip(s)|]
  {
    var t := TrimStart(s);
    TrimStartIsSuffix(s);
    TrimEndIsPrefix(t);
  }

  /** The characters of `s` that are not whitespace, in order. */
  function EraseSpace(s: string): (r: string)
    ensures |r| <= |s|
    ensures NoSpace(r)
  {
    if s == [] then []
    else if IsSpace(s[0]) then EraseSpace(s[1..])
    else [s[0]] + EraseSpace(s[1..])
  }

  lemma {:induction false} EraseSpaceAppend(a: string, b: string)
    ensures EraseSpace(a + b) == EraseSpace(a) + EraseSpace(b)
  {
    if a == [] {
      assert a + b == b;
    } else {
      assert (a + b)[0] == a[0];
      assert (a + b)[1..] == a[1..] + b;
      EraseSpaceAppend(a[1..], b);
    }
  }

  lemma {:induction false} EraseSpaceOfSpaces(s: string)
    requires AllSpace(s)
    ensures EraseSpace(s) == []
  {
    if s != [] {
      EraseSpaceOfSpaces(s[1..]);
    }
  }

  lemma EraseSpaceTrimStart(s: string)
    ensures EraseSpace(TrimStart(s)) == EraseSpace(s)
  {
    var r := TrimStart(s);
    TrimStartIsSuffix(s);
    var p := s[..|s| - |r|];
    assert s == p + r;
    EraseSpaceAppend(p, r);
    EraseSpaceOfSpaces(p);
    assert EraseSpace(s) == EraseSpace(p) + EraseSpace(r);
  }

  lemma EraseSpaceTrimEnd(s: string)
    ensures EraseSpace(TrimEnd(s)) == EraseSpace(s)
  {
    var r := TrimEnd(s);
    TrimEndIsPrefix(s);
    var q := s[|r|..];
    assert s == r + q;
    EraseSpaceAppend(r, q);
    EraseSpaceOfSpaces(q);
    assert EraseSpace(s) == EraseSpace(r) + EraseSpace(q);
  }

  /** Stripping never loses a visible character. */
  lemma EraseSpaceStrip(s: string)
    ensures EraseSpace(Strip(s)) == EraseSpace(s)
  {
    EraseSpaceTrimStart(s);
    EraseSpaceTrimEnd(TrimStart(s));
  }

  lemma StripEmptyIsAllSpace(s: string)
    ensures Strip(s) == [] <==> EraseSpace(s) == []
  {
    EraseSpaceStrip(s);
  }

  /** Concatenation of a list of strings, `''.join(xs)`. */
  function Concat(xs: seq<string>): (r: string)
  {
    if xs == [] then [] else xs[0] + Concat(xs[1..])
  }

  lemma ConcatSingle(s: string)
    ensures Concat([s]) == s
  {
    assert [s][1..] == [];
  }

  lemma {:induction false} ConcatAppend(xs: seq<string>, ys: seq<string>)
    ensures Concat(xs + ys) == Concat(xs) + Concat(ys)
  {
    if xs == [] {
      assert xs + ys == ys;
    } else {
      assert (xs + ys)[0] == xs[0];
      assert (xs + ys)[1..] == xs[1..] + ys;
      ConcatAppend(xs[1..], ys);
    }
  }

  predicate StartsWith(s: string, prefix: string) {
    |prefix| <= |s| && s[..|prefix|] == prefix
  }

  predicate EndsWith(s: string, suffix: string) {
    |suffix| <= |s| && s[|s| - |suffix|..] == suffix
  }

  /** Python's `sub in s`. */
  predicate Contains(s: string, sub: string)
    decreases |s|
  {
    StartsWith(s, sub) || (|s| > 0 && Contains(s[1..], sub))
  }

  /** Index of the first character of `s` satisfying `stop`, or `|s|`. */
  function FirstWhere(s: string, stop: char -> bool): (k: nat)
    ensures k <= |s|
    ensures forall i :: 0 <= i < k ==> !stop(s[i])
    ensures k < |s| ==> stop(s[k])
  {
    if s == [] || stop(s[0]) then 0 else 1 + FirstWhere(s[1..], stop)
  }

  /** Every entry is a non-empty run of non-whitespace characters. */
  predicate AreWords(ws: seq<string>) {
    forall i :: 0 <= i < |ws| ==> ws[i] != [] && NoSpace(ws[i])
  }

  /** `s.split()`: the maximal runs of non-whitespace characters. */
  function Words(s: string): (ws: seq<string>)
    ensures AreWords(ws)
    decreases |s|
  {
    var t := TrimStart(s);
    if t == [] then []
    else
      var k := WordEnd(t);
      var rest := Words(t[k..]);
      AreWordsCons(t[..k], rest);
      [t[..k]] + rest
  }

  lemma AreWordsCons(w: string, ws: seq<string>)
    requires w != [] && NoSpace(w) && AreWords(ws)
    ensures AreWords([w] + ws)
  {
  }

  /** Length of the run of non-whitespace characters at the front of `t`. */
  function WordEnd(t: string): (k: nat)
    ensures k <= |t|
    ensures NoSpace(t[..k])
    ensures k < |t| ==> IsSpace(t[k])
    ensures t != [] && !IsSpace(t[0]) ==> k > 0
  {
    if t == [] || IsSpace(t[0]) then 0 else 1 + WordEnd(t[1..])
  }

  function WordCount(s: string): nat {
    |Words(s)|
  }

  /** `s.replace(pat, rep)`: every non-overlapping occurrence of `pat`,
      scanning left to right, is replaced by `rep`. */
  function ReplaceAll(s: string, pat: string, rep: string): (r: string)
    requires pat != []
    ensures rep == [] ==> |r| <= |s|
    decreases |s|
  {
    if s == [] then []
    else if StartsWith(s, pat) then rep + ReplaceAll(s[|pat|..], pat, rep)
    else [s[0]] + ReplaceAll(s[1..], pat, rep)
  }

  /** `s.split(sep)` for a one-character separator: always at least one
      piece, and the pieces hold no separator. */
  function SplitOn(s: string, sep: char): (pieces: seq<string>)
    ensures |pieces| >= 1
    ensures forall i :: 0 <= i < |pieces| ==> sep !in pieces[i]
    decreases |s|
  {
    var k := FirstWhere(s, c => c == sep);
    if k == |s| then [s] else [s[..k]] + SplitOn(s[k + 1..], sep)
  }

  /** Cuts `s` after every character satisfying `stop`; a non-empty
      remainder forms the last piece. */
  function SplitAfter(s: string, stop: char -> bool): (pieces: seq<string>)
    ensures forall i :: 0 <= i < |pieces| ==> pieces[i] != []
    ensures forall i, j :: 0 <= i < |pieces| && 0 <= j < |pieces[i]| - 1 ==> !stop(pieces[i][j])
    ensures forall i :: 0 <= i < |pieces| - 1 ==> stop(pieces[i][|pieces[i]| - 1])
    decreases |s|
  {
    if s == [] then []
    else
      var k := FirstWhere(s, stop);
      if k == |s| then [s] else [s[..k + 1]] + SplitAfter(s[k + 1..], stop)
  }

  lemma {:induction false} ConcatSplitAfter(s: string, stop: char -> bool)
    ensures Concat(SplitAfter(s, stop)) == s
    decreases |s|
  {
    if s != [] {
      var k := FirstWhere(s, stop);
      if k < |s| {
        ConcatSplitAfter(s[k + 1..], stop);
        assert s == s[..k + 1] + s[k + 1..];
      }
    }
  }

  /** Universal-newline translation done by a file opened in text mode:
      `\r\n` and a lone `\r` both read as `\n`. */
  function UniversalNewlines(s: string): (r: string)
    ensures '\r' !in r
    decreases |s|
  {
    if s == [] then []
    else if s[0] == '\r' then
      if |s| > 1 && s[1] == '\n' then "\n" + UniversalNewlines(s[2..])
      else "\n" + UniversalNewlines(s[1..])
    else [s[0]] + UniversalNewlines(s[1..])
  }

  /** The lines `for line in f` yields for a file with contents `s`:
      every line but the last ends in its newline. */
  function Lines(s: string): (ls: seq<string>)
    ensures forall i :: 0 <= i < |ls| ==> ls[i] != []
  {
    SplitAfter(UniversalNewlines(s), IsNewline)
  }

  predicate IsNewline(c: char) {
    c == '\n'
  }

  /** `os.path.basename`: the part after the last `/`. */
  function Basename(path: string): (r: string)
    ensures '/' !in r
    ensures EndsWith(path, r)
    decreases |path|
  {
    if path == [] then []
    else if path[|path| - 1] == '/' then []
    else Basename(path[..|path| - 1]) + [path[|path| - 1]]
  }

  /** ASCII lower-casing of one character. */
  function AsciiLower(c: char): char {
    if 'A' <= c <= 'Z' then (c as int + 32) as char else c
  }

  /** `s.lower()` restricted to ASCII letters. */
  function LowerAscii(s: string): (r: string)
    ensures |r| == |s|
    ensures forall i :: 0 <= i < |s| ==> r[i] == AsciiLower(s[i])
  {
    if s == [] then [] else [AsciiLower(s[0])] + LowerAscii(s[1..])
  }

  /** `s.lower().startswith(prefix)` for an all-lower-case ASCII prefix.
      No non-ASCII code point lower-cases to a string starting with an ASCII
      letter other than `i` and `k`, so comparing the leading characters
      after ASCII lower-casing decides the same question for the letters
      used here. */
  predicate LowerStartsWith(s: string, prefix: string) {
    |prefix| <= |s| && forall i :: 0 <= i < |prefix| ==> AsciiLower(s[i]) == prefix[i]
  }

  /** A text without line breaks, followed by one newline, is one line. */
  lemma OneLine(d: string)
    requires '\n' !in d && '\r' !in d
    ensures Lines(d + "\n") == [d + "\n"]
  {
    var s := d + "\n";
    UniversalNewlinesPlain(s);
    assert UniversalNewlines(s) == s;
    var k := FirstWhere(s, IsNewline);
    assert s[|d|] == '\n';
    assert forall i :: 0 <= i < |d| ==> s[i] == d[i];
    assert k == |d|;
    assert s[..k + 1] == s;
    assert s[k + 1..] == [];
    assert SplitAfter(s, IsNewline) == [s[..k + 1]] + SplitAfter(s[k + 1..], IsNewline);
    assert Lines(s) == SplitAfter(s, IsNewline);
  }

  lemma {:induction false} UniversalNewlinesPlain(s: string)
    requires '\r' !in s
    ensures UniversalNewlines(s) == s
    decreases |s|
  {
    if s != [] {
      assert s[0] != '\r';
      UniversalNewlinesPlain(s[1..]);
      assert s == [s[0]] + s[1..];
    }
  }

  /** `replace` brings in no character that neither the text nor the
      replacement holds. */
  lemma {:induction false} ReplaceAllFrom(s: string, pat: string, rep: string, c: char)
    requires pat != [] && c !in s && c !in rep
    ensures c !in ReplaceAll(s, pat, rep)
    decreases |s|
  {
    if s != [] {
      if StartsWith(s, pat) {
        ReplaceAllFrom(s[|pat|..], pat, rep, c);
      } else {
        ReplaceAllFrom(s[1..], pat, rep, c);
      }
    }
  }

  /** A text contains every piece it is made of. */
  lemma {:induction false} ContainsMiddle(a: string, b: string, c: string)
    ensures Contains(a + b + c, b)
    decreases |a|
  {
    var s := a + b + c;
    if a == [] {
      assert s[..|b|] == b;
    } else {
      assert s[1..] == a[1..] + b + c;
      ContainsMiddle(a[1..], b, c);
    }
  }
}
