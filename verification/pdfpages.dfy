/** The page filter of `src/core/pdf_utils.py` (`process_pdf`): the Markdown
    extractor's page list is taken as an input, only dictionary elements are
    looked at, each page's `text` is stripped, and a page is yielded when it
    has more than twenty words. Any exception ends the stream with a single
    empty string after whatever was already yielded. */
module PdfPages {
  import opened Wrappers
  import opened Text

  /** A page must have strictly more words than this to be yielded. */
  const MinWords: nat := 20

  /** The value stored under a page's `text` key: a string, or something
      without a `strip` method (a `None` value, say). */
  datatype TextValue = StrText(s: string) | NotStr

  /** One element of the extractor's list: a dictionary, whose `text` key
      may be missing, or anything else. */
  datatype Element = Page(text: Option<TextValue>) | NotDict

  /** `chunk.get('text', '').strip()` raises. */
  predicate Raises(e: Element) {
    e.Page? && e.text == Some(NotStr)
  }

  /** A stripped page text that passes the `text and len(text.split()) > 20`
      test. */
  predicate Passes(text: string) {
    text != [] && WordCount(text) > MinWords
  }

  /** What one well-behaved element contributes: at most one chunk. */
  function Yield(e: Element): (r: seq<string>)
    requires !Raises(e)
    ensures |r| <= 1
    ensures r != [] <==> e.Page? && e.text.Some? && Passes(Strip(e.text.value.s))
    ensures r != [] ==> GoodChunk(r[0])
  {
    match e
    case NotDict => []
    case Page(None) => []
    case Page(Some(StrText(s))) =>
      var t := Strip(s);
      if Passes(t) then [t] else []
  }

  /** The stream yielded while iterating over `elements`: the pages that
      pass, in order, and a single `""` in place of everything from the
      first element whose text cannot be stripped. */
  function Filter(elements: seq<Element>): (r: seq<string>)
    ensures |r| <= |elements|
    ensures (forall i :: 0 <= i < |elements| ==> !Raises(elements[i])) ==> forall t :: t in r ==> GoodChunk(t)
  {
    if elements == [] then []
    else if Raises(elements[0]) then [""]
    else
      YieldShape(elements[0]);
      Yield(elements[0]) + Filter(elements[1..])
  }

  /** A yielded chunk that is not the final one is a stripped page text of
      more than twenty words; the final one is that too, or the `""` of an
      exception. */
  lemma {:induction false} FilterChunks(elements: seq<Element>)
    ensures GoodStream(Filter(elements), GoodChunk)
  {
    if elements != [] && !Raises(elements[0]) {
      FilterChunks(elements[1..]);
      YieldShape(elements[0]);
      assert Filter(elements) == Yield(elements[0]) + Filter(elements[1..]);
      GoodStreamAfter(Yield(elements[0]), Filter(elements[1..]), GoodChunk);
    }
  }

  /** Every chunk but the last passes `ok`; the last passes it or is `""`. */
  predicate GoodStream(out: seq<string>, ok: string -> bool) {
    && (forall i :: 0 <= i < |out| - 1 ==> ok(out[i]))
    && (out != [] ==> out[|out| - 1] == "" || ok(out[|out| - 1]))
  }

  lemma GoodStreamAfter(y: seq<string>, rest: seq<string>, ok: string -> bool)
    requires |y| <= 1 && (y != [] ==> ok(y[0]))
    requires GoodStream(rest, ok)
    ensures GoodStream(y + rest, ok)
  {
    var out := y + rest;
    if y != [] {
      forall i | 1 <= i < |out| ensures out[i] == rest[i - 1] {
      }
    } else {
      assert out == rest;
    }
  }

  predicate GoodChunk(s: string) {
    IsStripped(s) && Passes(s)
  }

  /** One element yields at most one chunk, and yields one exactly when it
      is a page whose stripped text passes. */
  lemma YieldShape(e: Element)
    requires !Raises(e)
    ensures |Yield(e)| <= 1
    ensures Yield(e) != [] <==> e.Page? && e.text.Some? && Passes(Strip(e.text.value.s))
    ensures Yield(e) != [] ==> GoodChunk(Yield(e)[0])
  {
  }

  /** Some element's text cannot be stripped. */
  predicate AnyRaises(elements: seq<Element>) {
    exists i :: 0 <= i < |elements| && Raises(elements[i])
  }

  lemma AnyRaisesTail(elements: seq<Element>)
    requires elements != [] && !Raises(elements[0])
    ensures AnyRaises(elements) <==> AnyRaises(elements[1..])
  {
    if AnyRaises(elements) {
      var i :| 0 <= i < |elements| && Raises(elements[i]);
      assert elements[1..][i - 1] == elements[i];
    }
    if AnyRaises(elements[1..]) {
      var i :| 0 <= i < |elements[1..]| && Raises(elements[1..][i]);
      assert elements[i + 1] == elements[1..][i];
    }
  }

  lemma YieldNotEmptyString(e: Element)
    requires !Raises(e)
    ensures |Yield(e)| <= 1
    ensures Yield(e) != [] ==> Yield(e)[0] != ""
  {
  }

  /** The stream's last chunk is the `""` of an exception. */
  predicate EndsInEmpty(out: seq<string>) {
    out != [] && out[|out| - 1] == ""
  }

  /** The stream ends in `""` exactly when some element's text cannot be
      stripped. */
  lemma {:induction false} FilterEndsInEmptyIffRaises(elements: seq<Element>)
    ensures AnyRaises(elements) <==> EndsInEmpty(Filter(elements))
  {
    if elements == [] {
    } else if Raises(elements[0]) {
      assert AnyRaises(elements) by { assert Raises(elements[0]); }
    } else {
      AnyRaisesTail(elements);
      FilterEndsInEmptyIffRaises(elements[1..]);
      YieldNotEmptyString(elements[0]);
      assert Filter(elements) == Yield(elements[0]) + Filter(elements[1..]);
      EndsInEmptyAfter(Yield(elements[0]), Filter(elements[1..]));
    }
  }

  /** A prefix of at most one non-empty chunk does not change how the
      stream ends. */
  lemma EndsInEmptyAfter(y: seq<string>, rest: seq<string>)
    requires |y| <= 1 && (y != [] ==> y[0] != "")
    ensures EndsInEmpty(y + rest) <==> EndsInEmpty(rest)
  {
    var out := y + rest;
    if rest != [] {
      assert out[|out| - 1] == rest[|rest| - 1];
    } else if y != [] {
      assert out == y;
    }
  }

  /** `process_pdf`: `None` stands for the extractor itself raising. */
  function ProcessPdf(extracted: Option<seq<Element>>): (r: seq<string>)
    ensures extracted.None? ==> r == [""]
  {
    match extracted
    case None => [""]
    case Some(elements) => Filter(elements)
  }

  /** The stream of well-behaved pages is the concatenation of what each
      part contributes: pages are yielded in page order and independently
      of each other. */
  lemma {:induction false} FilterAppend(a: seq<Element>, b: seq<Element>)
    requires forall i :: 0 <= i < |a| ==> !Raises(a[i])
    ensures Filter(a + b) == Filter(a) + Filter(b)
  {
    if a == [] {
      assert a + b == b;
    } else {
      var t := a[1..];
      assert forall i :: 0 <= i < |t| ==> !Raises(t[i]) by {
        forall i | 0 <= i < |t| ensures !Raises(t[i]) {
          assert t[i] == a[i + 1];
        }
      }
      FilterAppend(t, b);
      FilterAppendStep(a[0], t, b);
      assert a == [a[0]] + t;
    }
  }

  lemma FilterAppendStep(h: Element, t: seq<Element>, b: seq<Element>)
    requires !Raises(h)
    requires Filter(t + b) == Filter(t) + Filter(b)
    ensures Filter([h] + t + b) == Filter([h] + t) + Filter(b)
  {
    assert [h] + t + b == [h] + (t + b);
    FilterCons(h, t + b);
    FilterCons(h, t);
    AppendAssoc(Yield(h), Filter(t), Filter(b));
  }

  lemma AppendAssoc(x: seq<string>, y: seq<string>, z: seq<string>)
    ensures x + (y + z) == (x + y) + z
  {
  }

  lemma FilterCons(h: Element, t: seq<Element>)
    requires !Raises(h)
    ensures Filter([h] + t) == Yield(h) + Filter(t)
  {
    assert ([h] + t)[0] == h;
    assert ([h] + t)[1..] == t;
  }

  /** An element whose text cannot be stripped ends the stream with `""`,
      keeping what the elements before it yielded and dropping the rest. */
  lemma ErrorEndsStream(a: seq<Element>, bad: Element, b: seq<Element>)
    requires forall i :: 0 <= i < |a| ==> !Raises(a[i])
    requires Raises(bad)
    ensures Filter(a + [bad] + b) == Filter(a) + [""]
  {
    FilterAppend(a, [bad] + b);
    assert a + [bad] + b == a + ([bad] + b);
  }

  /** A page without a `text` key and a non-dictionary element yield
      nothing and do not stop the stream. */
  lemma SkippedElements(b: seq<Element>)
    ensures Filter([Page(None)] + b) == Filter(b)
    ensures Filter([NotDict] + b) == Filter(b)
  {
    assert ([Page(None)] + b)[1..] == b;
    assert ([NotDict] + b)[1..] == b;
  }

  /** A single page whose text is a string yields its stripped text exactly
      when that has more than twenty words. */
  lemma OnePage(s: string)
    ensures Filter([Page(Some(StrText(s)))]) == if Passes(Strip(s)) then [Strip(s)] else []
  {
    assert [Page(Some(StrText(s)))][1..] == [];
  }
}
