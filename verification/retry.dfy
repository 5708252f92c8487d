/** The retry loop of `scripts/process_pdfs_gemini.py`
    (`process_with_retry`). Each attempt uploads the PDF, asks the model for
    a JSON extraction, and checks the answer. What the remote service does
    on the n-th attempt is an input; the loop is a fold over those outcomes
    that returns the accepted text, if any, the waits it slept, in order,
    and how many attempts it made. */
module ExtractionRetry {
  import opened Wrappers
  import opened Text
  import opened JsonModel

  /** What the n-th attempt meets. `network` marks an `ssl.SSLError` or a
      `TimeoutError`; `message` is `str(e)` of a generation error. */
  datatype Attempt =
    | UploadRaises(network: bool)
    | GenerationRaises(message: string)
    | TextRaises(network: bool)
    | Responded(text: string)

  /** The accepted text, the sleeps in seconds, and the attempts made. */
  datatype RetryResult = RetryResult(content: Option<string>, waits: seq<nat>, tries: nat)

  /** How the checks after a response end: return the text, go on to the
      next attempt, or leave the loop (an exception other than a JSON
      decoding error). */
  datatype Verdict = Accept | Again | Abort

  /** The keys an extraction must have at the top level. */
  const RequiredKeys: seq<string> := ["metadata", "study", "findings"]

  /** The fence stripping of the script: strip, drop a leading "```json"
      and a trailing "```", strip again. */
  function CleanResponse(text: string): (r: string)
    ensures IsStripped(r)
    ensures |r| <= |text|
  {
    Strip(Unfence(Strip(text)))
  }

  /** Drop a leading "```json", then a trailing "```". */
  function Unfence(c: string): (r: string)
    ensures |r| <= |c|
    ensures !StartsWith(c, "```json") && !EndsWith(c, "```") ==> r == c
  {
    var unfenced := if StartsWith(c, "```json") then c[7..] else c;
    if EndsWith(unfenced, "```") then unfenced[..|unfenced| - 3] else unfenced
  }

  /** A body wrapped in the fences comes back out unchanged, whatever it
      holds, fences included. */
  lemma UnfenceFenced(body: string)
    ensures Unfence("```json" + body + "```") == body
  {
    var c := "```json" + body + "```";
    assert c[..7] == "```json";
    var u := c[7..];
    assert u == body + "```";
    assert u[|u| - 3..] == "```";
    assert u[..|u| - 3] == body;
  }

  /** The extraction passes the script's structural checks. */
  predicate WellFormedExtraction(p: Json) {
    && p.JObj?
    && (forall k :: k in RequiredKeys ==> k in p.fields)
    && p.fields["metadata"].JObj?
    && "title" in p.fields["metadata"].fields
    && Truthy(p.fields["metadata"].fields["title"])
    && Truthy(p.fields["findings"])
  }

  /** The checks on a non-failing response, in the order the script makes
      them. Indexing a list or a string by a key, or calling `.get` on a
      non-dictionary, raises an exception that leaves the loop. */
  function Judge(text: string, parse: Parser): (v: Verdict)
    ensures v == Accept <==> text != "" && parse(CleanResponse(text)).Some? && WellFormedExtraction(parse(CleanResponse(text)).value)
  {
    if text == "" then Again
    else
      match parse(CleanResponse(text))
      case None => Again
      case Some(p) =>
        match PyAllIn(RequiredKeys, p)
        case None => Abort
        case Some(false) => Again
        case Some(true) =>
          match Field(p, "metadata")
          case None => Abort
          case Some(meta) =>
            if !meta.JObj? then Abort
            else if !("title" in meta.fields && Truthy(meta.fields["title"])) then Again
            else if !Truthy(p.fields["findings"]) then Again
            else Accept
  }

  /** `"rate limit" in str(e).lower()` */
  predicate RateLimited(message: string) {
    Contains(LowerAscii(message), "rate limit")
  }

  /** What one attempt does to the loop: leave it with a result, or go on
      to the next attempt after sleeping `wait` seconds. */
  datatype Effect = Finish(content: Option<string>) | Continue(wait: seq<nat>)

  /** The body of the loop for attempt `k`, which met `o`. An `SSLError` or
      `TimeoutError` sleeps `(k + 1) * 5` seconds when another attempt
      follows; any other exception outside generation leaves the loop; a
      generation error goes on, after `(k + 1) * 30` seconds when it is a
      rate limit. */
  function EffectOf(k: nat, o: Attempt, maxRetries: int, parse: Parser): (e: Effect)
    ensures e.Finish? && e.content.Some? ==>
      && o.Responded?
      && e.content.value == CleanResponse(o.text)
      && parse(e.content.value).Some?
      && WellFormedExtraction(parse(e.content.value).value)
      && IsStripped(e.content.value)
  {
    match o
    case UploadRaises(network) => AfterNetworkError(k, network, maxRetries)
    case TextRaises(network) => AfterNetworkError(k, network, maxRetries)
    case GenerationRaises(message) => Continue(if RateLimited(message) then [(k + 1) * 30] else [])
    case Responded(text) =>
      match Judge(text, parse)
      case Accept => Finish(Some(CleanResponse(text)))
      case Abort => Finish(None)
      case Again => Continue([])
  }

  function AfterNetworkError(k: nat, network: bool, maxRetries: int): Effect {
    if network then Continue(if k < maxRetries - 1 then [(k + 1) * 5] else []) else Finish(None)
  }

  /** The loop `for attempt in range(a, max_retries)` over the attempts'
      effects: the first `Finish` ends it, and the sleeps of the attempts
      before it are taken in order. */
  function Loop(a: nat, maxRetries: int, effect: nat -> Effect): (r: RetryResult)
    ensures a <= maxRetries ==> a + r.tries <= maxRetries
    ensures a >= maxRetries ==> r == RetryResult(None, [], 0)
    ensures r.content.Some? ==> exists k :: a <= k < a + r.tries && effect(k) == Finish(r.content)
    decreases maxRetries - a
  {
    if a >= maxRetries then RetryResult(None, [], 0)
    else
      match effect(a)
      case Finish(c) => RetryResult(c, [], 1)
      case Continue(w) =>
        var rest := Loop(a + 1, maxRetries, effect);
        RetryResult(rest.content, w + rest.waits, rest.tries + 1)
  }

  /** The effects of all attempts of one call. */
  function Effects(maxRetries: int, outcome: nat -> Attempt, parse: Parser): nat -> Effect {
    (k: nat) => EffectOf(k, outcome(k), maxRetries, parse)
  }

  /** `process_with_retry(..., max_retries)` from attempt `a` on. */
  function RetryFrom(a: nat, maxRetries: int, outcome: nat -> Attempt, parse: Parser): RetryResult {
    Loop(a, maxRetries, Effects(maxRetries, outcome, parse))
  }

  /** `process_with_retry(model, pdf_path, prompt, max_retries)` */
  function ProcessWithRetry(maxRetries: int, outcome: nat -> Attempt, parse: Parser): (r: RetryResult)
    ensures r.tries <= if maxRetries < 0 then 0 else maxRetries
    ensures r.content.Some? ==>
      && parse(r.content.value).Some?
      && WellFormedExtraction(parse(r.content.value).value)
      && IsStripped(r.content.value)
      && exists k :: 0 <= k < r.tries && outcome(k).Responded? && r.content.value == CleanResponse(outcome(k).text)
  {
    var effect := Effects(maxRetries, outcome, parse);
    var r := Loop(0, maxRetries, effect);
    if r.content.Some? then
      var k :| 0 <= k < r.tries && effect(k) == Finish(r.content);
      assert effect(k) == EffectOf(k, outcome(k), maxRetries, parse);
      r
    else r
  }

  /** The sleep attempt `k` takes after meeting `o`, on its own. */
  function WaitOf(k: nat, o: Attempt, maxRetries: int): (w: seq<nat>)
    ensures |w| <= 1
  {
    match o
    case GenerationRaises(message) => if RateLimited(message) then [(k + 1) * 30] else []
    case UploadRaises(network) => if network && k < maxRetries - 1 then [(k + 1) * 5] else []
    case TextRaises(network) => if network && k < maxRetries - 1 then [(k + 1) * 5] else []
    case Responded(_) => []
  }

  /** The sleeps of attempts `a` up to but not including `b`, in order. */
  function WaitsBetween(a: nat, b: nat, maxRetries: int, outcome: nat -> Attempt): seq<nat>
    decreases b - a
  {
    if a >= b then [] else WaitOf(a, outcome(a), maxRetries) + WaitsBetween(a + 1, b, maxRetries, outcome)
  }

  /** The sleep of an effect: none for one that leaves the loop. */
  function WaitIn(e: Effect): seq<nat> {
    if e.Continue? then e.wait else []
  }

  /** What each attempt sleeps is what `WaitOf` says it sleeps, whether it
      ends the loop or not. */
  lemma EffectWait(k: nat, o: Attempt, maxRetries: int, parse: Parser)
    ensures WaitIn(EffectOf(k, o, maxRetries, parse)) == WaitOf(k, o, maxRetries)
  {
  }

  /** The sleeps of the loop are those of its attempts, in order. */
  lemma {:induction false} LoopWaits(a: nat, maxRetries: int, effect: nat -> Effect)
    ensures Loop(a, maxRetries, effect).waits == EffectWaits(a, a + Loop(a, maxRetries, effect).tries, effect)
    decreases maxRetries - a
  {
    if a < maxRetries {
      var r := Loop(a, maxRetries, effect);
      LoopWaits(a + 1, maxRetries, effect);
      assert EffectWaits(a, a + r.tries, effect) == WaitIn(effect(a)) + EffectWaits(a + 1, a + r.tries, effect);
      if effect(a).Finish? {
        assert EffectWaits(a + 1, a + 1, effect) == [];
      }
    }
  }

  function EffectWaits(a: nat, b: nat, effect: nat -> Effect): seq<nat>
    decreases b - a
  {
    if a >= b then [] else WaitIn(effect(a)) + EffectWaits(a + 1, b, effect)
  }

  lemma {:induction false} EffectWaitsAreWaits(a: nat, b: nat, maxRetries: int, outcome: nat -> Attempt, parse: Parser)
    ensures EffectWaits(a, b, Effects(maxRetries, outcome, parse)) == WaitsBetween(a, b, maxRetries, outcome)
    decreases b - a
  {
    if a < b {
      EffectWaitsAreWaits(a + 1, b, maxRetries, outcome, parse);
      EffectWait(a, outcome(a), maxRetries, parse);
    }
  }

  /** The loop sleeps exactly what each attempt it made calls for, attempt
      by attempt, and nothing else. */
  lemma WaitsAreScheduled(a: nat, maxRetries: int, outcome: nat -> Attempt, parse: Parser)
    ensures var r := RetryFrom(a, maxRetries, outcome, parse);
            r.waits == WaitsBetween(a, a + r.tries, maxRetries, outcome)
  {
    var effect := Effects(maxRetries, outcome, parse);
    LoopWaits(a, maxRetries, effect);
    EffectWaitsAreWaits(a, a + Loop(a, maxRetries, effect).tries, maxRetries, outcome, parse);
  }

  /** All attempts from `a` on go on: the loop makes them all, returns
      nothing, and sleeps what they call for. */
  lemma {:induction false} LoopRunsOut(a: nat, maxRetries: int, effect: nat -> Effect)
    requires a <= maxRetries
    requires forall k :: a <= k < maxRetries ==> effect(k).Continue?
    ensures Loop(a, maxRetries, effect).content.None?
    ensures Loop(a, maxRetries, effect).tries == maxRetries - a
    decreases maxRetries - a
  {
    if a < maxRetries {
      LoopRunsOut(a + 1, maxRetries, effect);
    }
  }

  /** Rate-limit errors on every attempt: the loop makes all attempts,
      returns nothing, and sleeps `(attempt + 1) * 30` seconds after each,
      the last one included. */
  lemma RateLimitedThroughout(a: nat, maxRetries: int, outcome: nat -> Attempt, parse: Parser)
    requires a <= maxRetries
    requires forall k :: a <= k < maxRetries ==> outcome(k).GenerationRaises? && RateLimited(outcome(k).message)
    ensures var r := RetryFrom(a, maxRetries, outcome, parse);
            && r.content.None?
            && r.tries == maxRetries - a
            && |r.waits| == maxRetries - a
            && forall i :: 0 <= i < |r.waits| ==> r.waits[i] == (a + i + 1) * 30
  {
    var effect := Effects(maxRetries, outcome, parse);
    assert forall k :: a <= k < maxRetries ==> effect(k).Continue? by {
      forall k | a <= k < maxRetries ensures effect(k).Continue? {
        assert effect(k) == EffectOf(k, outcome(k), maxRetries, parse);
      }
    }
    LoopRunsOut(a, maxRetries, effect);
    WaitsAreScheduled(a, maxRetries, outcome, parse);
    WaitsOfRateLimits(a, maxRetries, maxRetries, outcome);
  }

  lemma {:induction false} WaitsOfRateLimits(a: nat, b: nat, maxRetries: int, outcome: nat -> Attempt)
    requires a <= b
    requires forall k :: a <= k < b ==> outcome(k).GenerationRaises? && RateLimited(outcome(k).message)
    ensures var w := WaitsBetween(a, b, maxRetries, outcome);
            && |w| == b - a
            && forall i :: 0 <= i < |w| ==> w[i] == (a + i + 1) * 30
    decreases b - a
  {
    if a < b {
      WaitsOfRateLimits(a + 1, b, maxRetries, outcome);
      var rest := WaitsBetween(a + 1, b, maxRetries, outcome);
      var w := WaitsBetween(a, b, maxRetries, outcome);
      assert w == [(a + 1) * 30] + rest;
      forall i | 1 <= i < |w|
        ensures w[i] == (a + i + 1) * 30
      {
        assert w[i] == rest[i - 1];
      }
    }
  }

  /** Network errors on every attempt: the loop makes all attempts, returns
      nothing, and sleeps `(attempt + 1) * 5` seconds after each but the
      last. */
  lemma NetworkErrorsThroughout(a: nat, maxRetries: int, outcome: nat -> Attempt, parse: Parser)
    requires a < maxRetries
    requires forall k :: a <= k < maxRetries ==> outcome(k) == UploadRaises(true)
    ensures var r := RetryFrom(a, maxRetries, outcome, parse);
            && r.content.None?
            && r.tries == maxRetries - a
            && |r.waits| == maxRetries - a - 1
            && forall i :: 0 <= i < |r.waits| ==> r.waits[i] == (a + i + 1) * 5
  {
    var effect := Effects(maxRetries, outcome, parse);
    assert forall k :: a <= k < maxRetries ==> effect(k).Continue? by {
      forall k | a <= k < maxRetries ensures effect(k).Continue? {
        assert effect(k) == EffectOf(k, outcome(k), maxRetries, parse);
      }
    }
    LoopRunsOut(a, maxRetries, effect);
    WaitsAreScheduled(a, maxRetries, outcome, parse);
    WaitsOfNetworkErrors(a, maxRetries, outcome);
  }

  lemma {:induction false} WaitsOfNetworkErrors(a: nat, maxRetries: int, outcome: nat -> Attempt)
    requires a < maxRetries
    requires forall k :: a <= k < maxRetries ==> outcome(k) == UploadRaises(true)
    ensures var w := WaitsBetween(a, maxRetries, maxRetries, outcome);
            && |w| == maxRetries - a - 1
            && forall i :: 0 <= i < |w| ==> w[i] == (a + i + 1) * 5
    decreases maxRetries - a
  {
    var w := WaitsBetween(a, maxRetries, maxRetries, outcome);
    if a + 1 < maxRetries {
      WaitsOfNetworkErrors(a + 1, maxRetries, outcome);
      var rest := WaitsBetween(a + 1, maxRetries, maxRetries, outcome);
      assert w == [(a + 1) * 5] + rest;
      forall i | 1 <= i < |w|
        ensures w[i] == (a + i + 1) * 5
      {
        assert w[i] == rest[i - 1];
      }
    } else {
      assert WaitsBetween(a + 1, maxRetries, maxRetries, outcome) == [];
      assert w == [] + [];
    }
  }

  /** Any exception outside generation that is not a network error ends the
      loop at once with nothing, and so does one the checks do not catch. */
  lemma OtherErrorsBreak(a: nat, maxRetries: int, outcome: nat -> Attempt, parse: Parser)
    requires a < maxRetries
    requires outcome(a) == UploadRaises(false) || outcome(a) == TextRaises(false)
             || (outcome(a).Responded? && Judge(outcome(a).text, parse) == Abort)
    ensures RetryFrom(a, maxRetries, outcome, parse) == RetryResult(None, [], 1)
  {
    assert Effects(maxRetries, outcome, parse)(a) == EffectOf(a, outcome(a), maxRetries, parse);
  }

  /** The first response that passes the checks is returned, cleaned, and
      ends the loop. */
  lemma AcceptedEndsLoop(a: nat, maxRetries: int, outcome: nat -> Attempt, parse: Parser)
    requires a < maxRetries
    requires outcome(a).Responded? && Judge(outcome(a).text, parse) == Accept
    ensures RetryFrom(a, maxRetries, outcome, parse) == RetryResult(Some(CleanResponse(outcome(a).text)), [], 1)
  {
    assert Effects(maxRetries, outcome, parse)(a) == EffectOf(a, outcome(a), maxRetries, parse);
  }

  /** A fenced answer loses its fences and the whitespace around them. */
  lemma CleanFencedResponse(body: string)
    requires IsStripped(body)
    ensures CleanResponse("```json" + body + "```") == body
  {
    var fenced := "```json" + body + "```";
    VisibleAsciiIsNotSpace('`');
    assert fenced[0] == '`' && fenced[|fenced| - 1] == '`';
    StripStripped(fenced);
    assert fenced[..7] == "```json";
    assert fenced[7..] == body + "```";
    var unfenced := body + "```";
    assert unfenced[|unfenced| - 3..] == "```";
    assert unfenced[..|unfenced| - 3] == body;
    StripStripped(body);
  }
}
