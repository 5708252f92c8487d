/** The segmenter of `src/core/processor.py` (`chunk_generator`): text is
    cut into stripped sentences after every `.`, `!`, `?` or newline, and a
    sentence longer than the size limit is cut into fixed-width slices,
    each stripped. The size parameters are checked only for non-empty text,
    and `overlap` takes part in the check and nowhere else. */
module Segmenter {
  import opened Wrappers
  import opened Text

  /** The `ValueError`s `chunk_generator` raises, in the order it checks. */
  datatype ChunkError = NonPositiveSize | NegativeOverlap | OverlapNotBelowSize

  predicate IsTerminator(c: char) {
    c == '.' || c == '!' || c == '?' || c == '\n'
  }

  /** The pieces the character scan closes: each ends at a terminator,
      except a trailing remainder. */
  function RawSentences(text: string): seq<string> {
    SplitAfter(text, IsTerminator)
  }

  predicate AllStripped(xs: seq<string>) {
    forall i :: 0 <= i < |xs| ==> IsStripped(xs[i])
  }

  predicate NoneEmpty(xs: seq<string>) {
    forall i :: 0 <= i < |xs| ==> xs[i] != []
  }

  predicate AllFit(xs: seq<string>, size: int) {
    forall i :: 0 <= i < |xs| ==> |xs[i]| <= size
  }

  /** Every chunk fits `size` and has no whitespace at either end. */
  predicate ChunksFit(xs: seq<string>, size: int) {
    AllFit(xs, size) && AllStripped(xs)
  }

  /** Strip every piece and keep the non-empty results. */
  function KeepStripped(pieces: seq<string>): (r: seq<string>)
    ensures AllStripped(r) && NoneEmpty(r)
  {
    if pieces == [] then []
    else
      var s := Strip(pieces[0]);
      (if s != [] then [s] else []) + KeepStripped(pieces[1..])
  }

  /** The list `sentences` the first pass builds. */
  function Sentences(text: string): seq<string> {
    KeepStripped(RawSentences(text))
  }

  function Min(a: int, b: int): int {
    if a <= b then a else b
  }

  /** `sentence[i:i + size]` for `i` in `range(k, len(sentence), size)`. */
  function RawSlices(s: string, k: nat, size: int): (r: seq<string>)
    requires size > 0
    ensures AllFit(r, size)
    decreases |s| - k
  {
    if k >= |s| then [] else [s[k..Min(k + size, |s|)]] + RawSlices(s, k + size, size)
  }

  /** `[x.strip() for x in xs]` */
  function StripEach(xs: seq<string>): (r: seq<string>)
    ensures |r| == |xs|
    ensures forall i :: 0 <= i < |xs| ==> r[i] == Strip(xs[i])
  {
    if xs == [] then [] else [Strip(xs[0])] + StripEach(xs[1..])
  }

  /** What one sentence turns into: itself when it fits, otherwise its
      stripped fixed-width slices. */
  function Emit(sentence: string, size: int): (r: seq<string>)
    requires size > 0
    requires IsStripped(sentence)
    ensures ChunksFit(r, size)
  {
    if |sentence| > size then StripEach(RawSlices(sentence, 0, size)) else [sentence]
  }

  function EmitAll(sentences: seq<string>, size: int): (r: seq<string>)
    requires size > 0
    requires AllStripped(sentences)
    ensures ChunksFit(r, size)
  {
    if sentences == [] then []
    else
      var head := Emit(sentences[0], size);
      var tail := EmitAll(sentences[1..], size);
      ChunksFitAppend(head, tail, size);
      head + tail
  }

  lemma ChunksFitAppend(a: seq<string>, b: seq<string>, size: int)
    requires ChunksFit(a, size) && ChunksFit(b, size)
    ensures ChunksFit(a + b, size)
  {
    assert forall i :: 0 <= i < |a + b| ==> (a + b)[i] == if i < |a| then a[i] else b[i - |a|];
  }

  predicate ValidSizes(maxSize: int, overlap: int) {
    maxSize > 0 && 0 <= overlap < maxSize
  }

  /** `list(chunk_generator(text, maxSize, overlap))`, or the error it raises.
      Empty text yields nothing whatever the sizes; otherwise the sizes are
      checked first, and every chunk fits the limit with no whitespace at
      either end. */
  function ChunkText(text: string, maxSize: int, overlap: int): (r: Result<seq<string>, ChunkError>)
    ensures text == [] ==> r == Ok([])
    ensures text != [] && maxSize <= 0 ==> r == Err(NonPositiveSize)
    ensures text != [] && maxSize > 0 && overlap < 0 ==> r == Err(NegativeOverlap)
    ensures text != [] && maxSize > 0 && 0 <= overlap && overlap >= maxSize ==> r == Err(OverlapNotBelowSize)
    ensures text != [] && ValidSizes(maxSize, overlap) ==> r.Ok?
    ensures r.Ok? ==> ChunksFit(r.value, maxSize)
  {
    if text == [] then Ok([])
    else if maxSize <= 0 then Err(NonPositiveSize)
    else if overlap < 0 then Err(NegativeOverlap)
    else if overlap >= maxSize then Err(OverlapNotBelowSize)
    else Ok(EmitAll(Sentences(text), maxSize))
  }

  // ---------------------------------------------------------------------
  // The generator as the source writes it: one pass over the characters
  // with a sentence buffer, then one pass over the sentences.

  method Chunk(text: string, maxSize: int, overlap: int) returns (r: Result<seq<string>, ChunkError>)
    ensures r == ChunkText(text, maxSize, overlap)
  {
    if text == [] {
      return Ok([]);
    }
    if maxSize <= 0 {
      return Err(NonPositiveSize);
    }
    if overlap < 0 {
      return Err(NegativeOverlap);
    }
    if overlap >= maxSize {
      return Err(OverlapNotBelowSize);
    }
    var sentences := SplitSentences(text);
    var chunks := EmitChunks(sentences, maxSize);
    return Ok(chunks);
  }

  /** The sentences still to come from buffer `current` followed by the
      unread text `todo`. */
  function Pending(current: string, todo: string): seq<string> {
    KeepStripped(RawSentences(current + todo))
  }

  /** The first pass: a character buffer closed at every terminator. */
  method SplitSentences(text: string) returns (sentences: seq<string>)
    ensures sentences == Sentences(text)
  {
    sentences := [];
    var current: string := [];
    var todo := text;
    assert current + todo == text;
    while todo != []
      invariant forall j :: 0 <= j < |current| ==> !IsTerminator(current[j])
      invariant sentences + Pending(current, todo) == Sentences(text)
      decreases |todo|
    {
      var c := todo[0];
      var rest := todo[1..];
      assert todo == [c] + rest;
      sentences, current := ScanChar(sentences, current, c, rest);
      todo := rest;
    }
    sentences := CloseRemainder(sentences, current);
  }

  /** One turn of the character loop: append `c` to the buffer and, at a
      terminator, close the buffer as a sentence. */
  method ScanChar(sentences: seq<string>, current: string, c: char, ghost rest: string)
    returns (sentences': seq<string>, current': string)
    requires forall j :: 0 <= j < |current| ==> !IsTerminator(current[j])
    ensures forall j :: 0 <= j < |current'| ==> !IsTerminator(current'[j])
    ensures sentences' + Pending(current', rest) == sentences + Pending(current, [c] + rest)
  {
    if IsTerminator(c) {
      var s := Strip(current + [c]);
      var kept := if s != [] then [s] else [];
      CloseSentence(sentences, current, c, rest, kept);
      sentences' := sentences + kept;
      current' := [];
      assert current' + rest == rest;
    } else {
      assert (current + [c]) + rest == current + ([c] + rest);
      sentences' := sentences;
      current' := current + [c];
    }
  }

  /** After the last character: whatever is left in the buffer forms the
      last sentence, if it strips to something. */
  method CloseRemainder(sentences: seq<string>, current: string) returns (sentences': seq<string>)
    requires forall j :: 0 <= j < |current| ==> !IsTerminator(current[j])
    ensures sentences' == sentences + Pending(current, [])
  {
    assert current + [] == current;
    sentences' := sentences;
    if current != [] {
      assert FirstWhere(current, IsTerminator) == |current|;
      assert RawSentences(current) == [current];
      var s := Strip(current);
      assert [current][1..] == [];
      assert KeepStripped([current]) == (if s != [] then [s] else []) + [];
      if s != [] {
        sentences' := sentences + [s];
      } else {
        assert sentences + [] == sentences;
      }
    } else {
      assert sentences + [] == sentences;
    }
  }

  /** The second pass: fitting sentences as they are, longer ones cut at
      every multiple of `maxSize` and stripped. */
  method EmitChunks(sentences: seq<string>, maxSize: int) returns (out: seq<string>)
    requires maxSize > 0
    requires AllStripped(sentences)
    ensures out == EmitAll(sentences, maxSize)
  {
    out := [];
    var todo := sentences;
    assert out + EmitAll(todo, maxSize) == EmitAll(sentences, maxSize);
    while todo != []
      invariant AllStripped(todo)
      invariant out + EmitAll(todo, maxSize) == EmitAll(sentences, maxSize)
      decreases |todo|
    {
      var pieces := EmitOne(todo[0], maxSize);
      EmitStep(out, todo, maxSize);
      out := out + pieces;
      todo := todo[1..];
    }
    assert out + [] == out;
  }

  /** Closing the buffer at a terminator emits its stripped contents, if
      any, and leaves the rest of the text to be scanned. */
  lemma CloseSentence(sentences: seq<string>, current: string, c: char, rest: string, kept: seq<string>)
    requires forall j :: 0 <= j < |current| ==> !IsTerminator(current[j])
    requires IsTerminator(c)
    requires kept == KeepStripped([current + [c]])
    ensures (sentences + kept) + KeepStripped(RawSentences(rest))
      == sentences + KeepStripped(RawSentences(current + ([c] + rest)))
  {
    assert current + ([c] + rest) == current + [c] + rest;
    SplitAfterClosed(current, c, rest);
    KeepStrippedAppend([current + [c]], RawSentences(rest));
  }

  /** One turn of the sentence loop. */
  method EmitOne(s: string, maxSize: int) returns (pieces: seq<string>)
    requires maxSize > 0 && IsStripped(s)
    ensures pieces == Emit(s, maxSize)
  {
    if |s| > maxSize {
      pieces := SliceSentence(s, maxSize);
    } else {
      pieces := [s];
    }
  }

  /** The inner loop: `sentence[i:i + maxSize].strip()` for every `i` in
      `range(0, len(sentence), maxSize)`. */
  method SliceSentence(s: string, maxSize: int) returns (out: seq<string>)
    requires maxSize > 0
    ensures out == StripEach(RawSlices(s, 0, maxSize))
  {
    out := [];
    var k := 0;
    while k < |s|
      invariant out + StripEach(RawSlices(s, k, maxSize)) == StripEach(RawSlices(s, 0, maxSize))
      decreases |s| - k
    {
      var next := k + maxSize;
      var piece := s[k..Min(next, |s|)];
      SliceStep(s, k, next, maxSize, out);
      out := out + [Strip(piece)];
      k := next;
    }
    assert RawSlices(s, k, maxSize) == [];
    assert out + [] == out;
  }

  lemma SliceStep(s: string, k: nat, next: nat, size: int, out: seq<string>)
    requires size > 0 && k < |s| && next == k + size
    ensures (out + [Strip(s[k..Min(next, |s|)])]) + StripEach(RawSlices(s, next, size))
      == out + StripEach(RawSlices(s, k, size))
  {
    var piece := s[k..Min(next, |s|)];
    var later := RawSlices(s, next, size);
    RawSlicesStep(s, k, next, size);
    StripEachCons(piece, later);
  }

  lemma SplitAfterClosed(current: string, c: char, rest: string)
    requires forall j :: 0 <= j < |current| ==> !IsTerminator(current[j])
    requires IsTerminator(c)
    ensures RawSentences(current + [c] + rest) == [current + [c]] + RawSentences(rest)
  {
    var s := current + [c] + rest;
    assert s[|current|] == c;
    assert forall j :: 0 <= j < |current| ==> s[j] == current[j];
    var k := FirstWhere(s, IsTerminator);
    assert k == |current|;
    assert s[..k + 1] == current + [c];
    assert s[k + 1..] == rest;
  }

  lemma {:induction false} KeepStrippedAppend(a: seq<string>, b: seq<string>)
    ensures KeepStripped(a + b) == KeepStripped(a) + KeepStripped(b)
  {
    if a == [] {
      assert a + b == b;
    } else {
      assert (a + b)[0] == a[0];
      assert (a + b)[1..] == a[1..] + b;
      KeepStrippedAppend(a[1..], b);
    }
  }

  lemma RawSlicesStep(s: string, k: nat, next: nat, size: int)
    requires size > 0 && k < |s| && next == k + size
    ensures RawSlices(s, k, size) == [s[k..Min(next, |s|)]] + RawSlices(s, next, size)
  {
  }

  lemma StripEachCons(x: string, xs: seq<string>)
    ensures StripEach([x] + xs) == [Strip(x)] + StripEach(xs)
  {
    assert ([x] + xs)[1..] == xs;
  }

  // ---------------------------------------------------------------------
  // Properties.

  /** The raw slices of a sentence put back together give the sentence. */
  lemma {:induction false} RawSlicesConcat(s: string, k: nat, size: int)
    requires size > 0 && k <= |s|
    ensures Concat(RawSlices(s, k, size)) == s[k..]
    decreases |s| - k
  {
    if k < |s| {
      var next := k + size;
      var stop := Min(next, |s|);
      RawSlicesStep(s, k, next, size);
      assert s[k..] == s[k..stop] + s[stop..];
      if next < |s| {
        RawSlicesConcat(s, next, size);
      } else {
        assert RawSlices(s, next, size) == [];
        assert s[stop..] == [];
      }
    }
  }

  /** Order and content survive: deleting all whitespace from the joined
      chunks gives the input with all whitespace deleted. */
  lemma ChunksKeepVisibleText(text: string, maxSize: int, overlap: int)
    requires ChunkText(text, maxSize, overlap).Ok?
    ensures EraseSpace(Concat(ChunkText(text, maxSize, overlap).value)) == EraseSpace(text)
  {
    if text != [] {
      ConcatSplitAfter(text, IsTerminator);
      EraseKeepStripped(RawSentences(text));
      EraseEmitAll(Sentences(text), maxSize);
    }
  }

  lemma {:induction false} EraseKeepStripped(pieces: seq<string>)
    ensures EraseSpace(Concat(KeepStripped(pieces))) == EraseSpace(Concat(pieces))
  {
    if pieces != [] {
      var p := pieces[0];
      var s := Strip(p);
      var head := if s != [] then [s] else [];
      var tail := KeepStripped(pieces[1..]);
      assert KeepStripped(pieces) == head + tail;
      EraseKeepStripped(pieces[1..]);
      EraseSpaceStrip(p);
      ConcatAppend(head, tail);
      assert Concat(head) == s by {
        if s != [] {
          assert Concat(head) == s + Concat([]);
        }
      }
      EraseSpaceAppend(s, Concat(tail));
      EraseSpaceAppend(p, Concat(pieces[1..]));
    }
  }

  lemma {:induction false} EraseStripEach(xs: seq<string>)
    ensures EraseSpace(Concat(StripEach(xs))) == EraseSpace(Concat(xs))
  {
    if xs != [] {
      var x := xs[0];
      assert StripEach(xs) == [Strip(x)] + StripEach(xs[1..]);
      EraseStripEach(xs[1..]);
      EraseSpaceStrip(x);
      EraseSpaceAppend(Strip(x), Concat(StripEach(xs[1..])));
      EraseSpaceAppend(x, Concat(xs[1..]));
    }
  }

  lemma EraseEmit(s: string, size: int)
    requires size > 0 && IsStripped(s)
    ensures EraseSpace(Concat(Emit(s, size))) == EraseSpace(s)
  {
    if |s| > size {
      EraseSlices(s, size);
    } else {
      ConcatSingle(s);
    }
  }

  lemma EraseSlices(s: string, size: int)
    requires size > 0
    ensures EraseSpace(Concat(StripEach(RawSlices(s, 0, size)))) == EraseSpace(s)
  {
    EraseStripEach(RawSlices(s, 0, size));
    RawSlicesConcat(s, 0, size);
    assert s[0..] == s;
  }

  lemma {:induction false} EraseEmitAll(sentences: seq<string>, size: int)
    requires size > 0
    requires AllStripped(sentences)
    ensures EraseSpace(Concat(EmitAll(sentences, size))) == EraseSpace(Concat(sentences))
  {
    if sentences != [] {
      var s := sentences[0];
      var head := Emit(s, size);
      var tail := EmitAll(sentences[1..], size);
      assert EmitAll(sentences, size) == head + tail;
      EraseEmitAll(sentences[1..], size);
      EraseEmit(s, size);
      ConcatAppend(head, tail);
      EraseSpaceAppend(Concat(head), Concat(tail));
      EraseSpaceAppend(s, Concat(sentences[1..]));
    }
  }

  /** ceil(len / size) for a positive `size`, counted by repeated
      subtraction; `CeilDivBounds` pins it down arithmetically. */
  function CeilDiv(len: int, size: int): nat
    requires size > 0
    decreases len
  {
    if len <= 0 then 0 else 1 + CeilDiv(len - size, size)
  }

  /** For positive `len`, `c = CeilDiv(len, size)` is the one count with
      `(c - 1) * size < len <= c * size`. */
  lemma {:induction false} CeilDivBounds(len: int, size: int)
    requires size > 0 && len > 0
    ensures (CeilDiv(len, size) - 1) * size < len <= CeilDiv(len, size) * size
    decreases len
  {
    var c := CeilDiv(len, size);
    if len - size > 0 {
      CeilDivBounds(len - size, size);
      var m := CeilDiv(len - size, size);
      assert c == m + 1;
      assert (m + 1) * size == m * size + size;
    } else {
      assert CeilDiv(len - size, size) == 0;
      assert c == 1;
    }
  }

  lemma CeilDivStep(len: int, rest: int, size: int)
    requires size > 0 && len > 0 && rest == len - size
    ensures CeilDiv(len, size) == 1 + CeilDiv(rest, size)
  {
  }

  /** The slices from offset `k` number ceil((L - k) / size). */
  lemma {:induction false} RawSliceCount(s: string, k: nat, size: int)
    requires size > 0 && k <= |s|
    ensures |RawSlices(s, k, size)| == CeilDiv(|s| - k, size)
    decreases |s| - k
  {
    if k < |s| {
      var next := k + size;
      RawSlicesStep(s, k, next, size);
      CeilDivStep(|s| - k, |s| - next, size);
      if next < |s| {
        RawSliceCount(s, next, size);
      }
    }
  }

  /** A sentence longer than the limit becomes exactly ceil(L / size)
      chunks, and never fewer than two. */
  lemma LongSentenceChunkCount(sentence: string, size: int)
    requires size > 0 && IsStripped(sentence) && |sentence| > size
    ensures |Emit(sentence, size)| == CeilDiv(|sentence|, size)
    ensures |Emit(sentence, size)| >= 2
  {
    var n := |RawSlices(sentence, 0, size)|;
    assert n == CeilDiv(|sentence|, size) by {
      RawSliceCount(sentence, 0, size);
      assert |sentence| - 0 == |sentence|;
    }
    assert |Emit(sentence, size)| == n by {
      EmitLongCount(sentence, size);
    }
    CeilDivOfLong(|sentence|, size);
  }

  lemma EmitLongCount(sentence: string, size: int)
    requires size > 0 && IsStripped(sentence) && |sentence| > size
    ensures |Emit(sentence, size)| == |RawSlices(sentence, 0, size)|
  {
  }

  lemma CeilDivOfLong(len: int, size: int)
    requires 0 < size < len
    ensures CeilDiv(len, size) >= 2
  {
    assert CeilDiv(len, size) == 1 + CeilDiv(len - size, size);
    assert CeilDiv(len - size, size) == 1 + CeilDiv(len - size - size, size);
  }

  /** A slice can strip down to nothing: a long sentence may yield an
      empty chunk. */
  lemma BlankSliceExample()
    ensures Emit("ab  cd", 2) == ["ab", "", "cd"]
  {
    var s := "ab  cd";
    assert RawSlices(s, 0, 2) == ["ab", "  ", "cd"] by {
      RawSlicesStep(s, 0, 2, 2);
      RawSlicesStep(s, 2, 4, 2);
      RawSlicesStep(s, 4, 6, 2);
      assert RawSlices(s, 6, 2) == [];
      assert s[0..2] == "ab" && s[2..4] == "  " && s[4..6] == "cd";
    }
    StripKeepsVisibleEnds("ab");
    StripKeepsVisibleEnds("cd");
    assert Strip("  ") == [] by {
      AsciiSpaceIsSpace(' ');
      assert "  "[1..] == " " && " "[1..] == "";
      assert TrimStart("  ") == TrimStart(" ") == TrimStart("");
    }
    assert StripEach(["ab", "  ", "cd"]) == [Strip("ab"), Strip("  "), Strip("cd")];
  }

  /** `overlap` decides only whether the call is accepted. */
  lemma OverlapDoesNotShapeOutput(text: string, maxSize: int, o1: int, o2: int)
    requires ValidSizes(maxSize, o1) && ValidSizes(maxSize, o2)
    ensures ChunkText(text, maxSize, o1) == ChunkText(text, maxSize, o2)
  {
  }

  /** A sentence is non-empty, stripped, and holds a terminator at most as
      its last character. */
  lemma SentenceShape(text: string)
    ensures forall i :: 0 <= i < |Sentences(text)| ==>
      Sentences(text)[i] != [] && IsStripped(Sentences(text)[i]) &&
      forall j :: 0 <= j < |Sentences(text)[i]| - 1 ==> !IsTerminator(Sentences(text)[i][j])
  {
    KeepStrippedShape(RawSentences(text));
  }

  lemma {:induction false} KeepStrippedShape(pieces: seq<string>)
    requires forall i, j :: 0 <= i < |pieces| && 0 <= j < |pieces[i]| - 1 ==> !IsTerminator(pieces[i][j])
    ensures forall i, j :: 0 <= i < |KeepStripped(pieces)| && 0 <= j < |KeepStripped(pieces)[i]| - 1 ==> !IsTerminator(KeepStripped(pieces)[i][j])
  {
    if pieces != [] {
      KeepStrippedShape(pieces[1..]);
      var p := pieces[0];
      var a := |p| - |TrimStart(p)|;
      var s := Strip(p);
      StripIsSlice(p);
      forall j | 0 <= j < |s| - 1
        ensures !IsTerminator(s[j])
      {
        assert s[j] == p[a + j];
      }
      var head := if s != [] then [s] else [];
      assert KeepStripped(pieces) == head + KeepStripped(pieces[1..]);
    }
  }

  /** Two sentences that fit come out whole, stripped and in order. */
  lemma TwoFittingSentences(a: string, b: string, size: int)
    requires forall j :: 0 <= j < |a| ==> !IsTerminator(a[j])
    requires forall j :: 0 <= j < |b| ==> !IsTerminator(b[j])
    requires |a| < size && |b| < size
    ensures ChunkText(a + "." + b + ".", size, 0) == Ok([Strip(a + "."), Strip(b + ".")])
  {
    TwoSentences(a, b);
    EmitTwoFitting(Strip(a + "."), Strip(b + "."), size);
  }

  lemma TwoSentences(a: string, b: string)
    requires forall j :: 0 <= j < |a| ==> !IsTerminator(a[j])
    requires forall j :: 0 <= j < |b| ==> !IsTerminator(b[j])
    ensures Sentences(a + "." + b + ".") == [Strip(a + "."), Strip(b + ".")]
  {
    TwoRawSentences(a, b);
    StripKeepsFullStop(a);
    StripKeepsFullStop(b);
    KeepStrippedCons(a + ".", [b + "."]);
    KeepStrippedCons(b + ".", []);
  }

  lemma EmitTwoFitting(x: string, y: string, size: int)
    requires size > 0 && IsStripped(x) && IsStripped(y)
    requires |x| <= size && |y| <= size
    ensures AllStripped([x, y])
    ensures EmitAll([x, y], size) == [x, y]
  {
    EmitAllCons(x, [y], size);
    EmitAllCons(y, [], size);
  }

  lemma KeepStrippedCons(p: string, rest: seq<string>)
    ensures KeepStripped([p] + rest) == (if Strip(p) != [] then [Strip(p)] else []) + KeepStripped(rest)
  {
    assert ([p] + rest)[1..] == rest;
  }

  /** One turn of the sentence loop moves the first sentence's chunks from
      the work list to the output. */
  lemma EmitStep(out: seq<string>, todo: seq<string>, size: int)
    requires size > 0 && todo != [] && AllStripped(todo)
    ensures AllStripped(todo[1..])
    ensures (out + Emit(todo[0], size)) + EmitAll(todo[1..], size) == out + EmitAll(todo, size)
  {
    var s, rest := todo[0], todo[1..];
    assert AllStripped(rest) by {
      forall i | 0 <= i < |rest| ensures IsStripped(rest[i]) {
        assert rest[i] == todo[i + 1];
      }
    }
    assert todo == [s] + rest;
    EmitAllCons(s, rest, size);
  }

  lemma EmitAllCons(x: string, rest: seq<string>, size: int)
    requires size > 0 && IsStripped(x) && AllStripped(rest)
    ensures AllStripped([x] + rest)
    ensures EmitAll([x] + rest, size) == Emit(x, size) + EmitAll(rest, size)
  {
    assert ([x] + rest)[1..] == rest;
  }

  /** A piece ending in a full stop never strips to nothing. */
  lemma StripKeepsFullStop(a: string)
    ensures Strip(a + ".") != []
  {
    VisibleAsciiIsNotSpace('.');
    EraseSpaceAppend(a, ".");
    assert EraseSpace(".") == "." by {
      assert "."[1..] == [];
    }
    StripEmptyIsAllSpace(a + ".");
  }

  /** `chunk_generator("One. Two.", 10, 0)` yields `"One."` and `"Two."`. */
  lemma ExampleTwoSentences()
    ensures ChunkText("One" + "." + " Two" + ".", 10, 0) == Ok(["One.", "Two."])
  {
    TwoFittingSentences("One", " Two", 10);
    assert "One" + "." == "One." && " Two" + "." == " Two.";
    StripKeepsVisibleEnds("One.");
    ExampleStripLeadingSpace();
  }

  /** Two terminator-free runs, each closed by a full stop, scan as two
      pieces. */
  lemma TwoRawSentences(a: string, b: string)
    requires forall j :: 0 <= j < |a| ==> !IsTerminator(a[j])
    requires forall j :: 0 <= j < |b| ==> !IsTerminator(b[j])
    ensures RawSentences(a + "." + b + ".") == [a + ".", b + "."]
  {
    SplitAfterClosed(a, '.', b + ".");
    assert a + ['.'] + (b + ".") == a + "." + b + ".";
    SplitAfterClosed(b, '.', "");
    assert b + ['.'] + "" == b + ".";
  }

  lemma ExampleStripLeadingSpace()
    ensures Strip(" Two.") == "Two."
  {
    assert TrimStart(" Two.") == "Two." by {
      AsciiSpaceIsSpace(' ');
      VisibleAsciiIsNotSpace('T');
      assert " Two."[1..] == "Two.";
    }
    StripKeepsVisibleEnds("Two.");
  }

  /** A string whose ends are printable ASCII is its own strip. */
  lemma StripKeepsVisibleEnds(s: string)
    requires s != [] && 33 <= s[0] as int <= 126 && 33 <= s[|s| - 1] as int <= 126
    ensures Strip(s) == s
  {
    VisibleAsciiIsNotSpace(s[0]);
    VisibleAsciiIsNotSpace(s[|s| - 1]);
  }
}
