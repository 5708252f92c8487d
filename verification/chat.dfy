/** The chat front end of `src/interface/chat.py`: a persisted history of
    messages capped at `max_history`, the cleaning of context lines, and
    the canned answer built from the sentences of a context, with one
    citation per distinct sentence.

    The history file is read and written through the abstract `json`
    module, the clock is an input (one timestamp per message), and the
    five pattern deletions of `clean_content` are one text-to-text input;
    its whitespace collapsing and stripping are modelled. */
module Chat {
  import opened Wrappers
  import opened Text
  import opened JsonModel
  import opened FileSystem

  /** The defaults of `Chat`. */
  const DefaultHistoryFile: string := ".chat_history.json"
  const DefaultMaxHistory: int := 10

  /** A context line must have more than this many words to be cited. */
  const MinCitationWords: nat := 10

  const Opening: string := "Based on the available sources, "
  const FollowUp: string := "\nWould you like to know more about any specific aspect?"
  const NoCitationReply: string :=
    "I apologize, but I couldn't find specific information about that in my sources. "
    + "Could you try rephrasing your question or ask about a related topic?"
  const NoContextReply: string :=
    "I apologize, but I don't have access to relevant sources to answer that question. "
    + "Please try asking about something covered in the available documents."

  /** `history_file` and `max_history` of one chat. */
  datatype Config = Config(historyFile: string, maxHistory: int)

  /** Python's `h[start:]`: a negative start counts from the end, and
      both are clamped to the list. */
  function SliceFrom<T>(h: seq<T>, start: int): (r: seq<T>)
    ensures |r| <= |h|
    ensures r == h[|h| - |r|..]
  {
    if start < 0 then (if -start >= |h| then h else h[|h| + start..])
    else if start >= |h| then []
    else h[start..]
  }

  /** `h[-m:]`: the last `m` entries, except that `m == 0` keeps them all
      (`h[-0:]` is `h[0:]`) and a negative `m` drops the first `-m`. */
  function Tail<T>(h: seq<T>, m: int): seq<T> {
    SliceFrom(h, -m)
  }

  /** What `h[-m:]` keeps, case by case. */
  lemma TailShape<T>(h: seq<T>, m: int)
    ensures m > 0 ==> |Tail(h, m)| == (if m < |h| then m else |h|)
    ensures m == 0 ==> Tail(h, m) == h
    ensures m < 0 ==> Tail(h, m) == (if -m >= |h| then [] else h[-m..])
    ensures Tail(h, m) == h[|h| - |Tail(h, m)|..]
  {
  }

  /** What a history file that decodes to something other than a list
      does. `len()` of a number, a boolean or `null`, and the slice
      `h[-max_history:]` of a dictionary longer than the cap, raise
      `TypeError` inside `load_history` (`RaisesAtLoad`). A string, or a
      dictionary within the cap, is kept as the history, and the first
      `append` fails on it later (`NonListKept`). */
  datatype LoadError = RaisesAtLoad | NonListKept

  /** `load_history()`: a missing or undecodable file gives `[]`; a list
      longer than `max_history` is cut to `history[-max_history:]`. */
  function LoadHistory(fs: Files, cfg: Config, parse: Parser): (r: Result<seq<Json>, LoadError>)
    ensures !Exists(fs, cfg.historyFile) ==> r == Ok([])
    ensures Exists(fs, cfg.historyFile) && parse(fs[cfg.historyFile]).None? ==> r == Ok([])
    ensures r.Ok? && cfg.maxHistory > 0 ==> |r.value| <= cfg.maxHistory
    ensures r.Err? <==> Exists(fs, cfg.historyFile) && parse(fs[cfg.historyFile]).Some?
                        && !parse(fs[cfg.historyFile]).value.JArr?
    ensures r == Err(NonListKept) <==>
              && Exists(fs, cfg.historyFile) && parse(fs[cfg.historyFile]).Some?
              && var j := parse(fs[cfg.historyFile]).value;
                 j.JStr? || (j.JObj? && |j.fields| <= cfg.maxHistory)
  {
    if !Exists(fs, cfg.historyFile) then Ok([])
    else
      match parse(fs[cfg.historyFile])
      case None => Ok([])
      case Some(JArr(items)) =>
        TailShape(items, cfg.maxHistory);
        Ok(if |items| > cfg.maxHistory then Tail(items, cfg.maxHistory) else items)
      case Some(JStr(_)) => Err(NonListKept)
      case Some(JObj(fields)) => if |fields| > cfg.maxHistory then Err(RaisesAtLoad) else Err(NonListKept)
      case Some(_) => Err(RaisesAtLoad)
  }

  /** `save_history()`: writes the last `max_history` messages. */
  function SaveHistory(fs: Files, cfg: Config, history: seq<Json>, dump: Printer): (r: Files)
    ensures r.Keys == fs.Keys + {cfg.historyFile}
    ensures forall p :: p != cfg.historyFile ==> SameAt(fs, r, p)
  {
    fs[cfg.historyFile := dump(JArr(Tail(history, cfg.maxHistory)))]
  }

  /** Saving and loading again gives the history as capped, for any cap
      that is not negative. */
  lemma SaveThenLoad(fs: Files, cfg: Config, history: seq<Json>, parse: Parser, dump: Printer)
    requires RoundTrips(parse, dump)
    requires cfg.maxHistory >= 0
    ensures LoadHistory(SaveHistory(fs, cfg, history, dump), cfg, parse) == Ok(Tail(history, cfg.maxHistory))
  {
    var kept := Tail(history, cfg.maxHistory);
    var saved := SaveHistory(fs, cfg, history, dump);
    assert Exists(saved, cfg.historyFile) && saved[cfg.historyFile] == dump(JArr(kept));
    LoadDumped(saved, cfg, kept, parse, dump);
    TailShape(history, cfg.maxHistory);
    if |kept| > cfg.maxHistory {
      TailShape(kept, 0);
    }
  }

  /** A file holding a dumped list loads as that list, capped. */
  lemma LoadDumped(fs: Files, cfg: Config, items: seq<Json>, parse: Parser, dump: Printer)
    requires RoundTrips(parse, dump)
    requires Exists(fs, cfg.historyFile) && fs[cfg.historyFile] == dump(JArr(items))
    ensures LoadHistory(fs, cfg, parse) == Ok(if |items| > cfg.maxHistory then Tail(items, cfg.maxHistory) else items)
  {
    ParseDump(parse, dump, JArr(items));
    assert parse(fs[cfg.historyFile]) == Some(JArr(items));
  }

  lemma ParseDump(parse: Parser, dump: Printer, j: Json)
    requires RoundTrips(parse, dump)
    ensures parse(dump(j)) == Some(j)
  {
  }

  /** A negative cap drops the first entries again on every load: a saved
      history of two messages with a cap of -1 loads as empty. */
  lemma NegativeCapLosesMessages(fs: Files, a: Json, b: Json, parse: Parser, dump: Printer)
    requires RoundTrips(parse, dump)
    ensures var cfg := Config(DefaultHistoryFile, -1);
            LoadHistory(SaveHistory(fs, cfg, [a, b], dump), cfg, parse) == Ok([])
  {
    var cfg := Config(DefaultHistoryFile, -1);
    assert Tail([a, b], -1) == [b];
    assert parse(dump(JArr([b]))) == Some(JArr([b]));
    assert Tail([b], -1) == [];
  }

  /** The in-memory history and the file system. */
  datatype ChatState = ChatState(history: seq<Json>, fs: Files)

  /** `{"role": role, "content": content, "timestamp": str(time.time())}` */
  function Message(role: string, content: string, timestamp: string): Json {
    JObj(map["role" := JStr(role), "content" := JStr(content), "timestamp" := JStr(timestamp)])
  }

  /** `add_message(role, content)`: append, then save. */
  function AddMessage(s: ChatState, cfg: Config, role: string, content: string, timestamp: string, dump: Printer): (r: ChatState)
    ensures r.history == s.history + [Message(role, content, timestamp)]
    ensures forall p :: p in s.fs && p != cfg.historyFile ==> p in r.fs && r.fs[p] == s.fs[p]
  {
    var h := s.history + [Message(role, content, timestamp)];
    ChatState(h, SaveHistory(s.fs, cfg, h, dump))
  }

  /** `clear_history()` */
  function ClearHistory(s: ChatState, cfg: Config, dump: Printer): (r: ChatState)
    ensures r.history == []
    ensures r.fs.Keys == s.fs.Keys + {cfg.historyFile}
    ensures forall p :: p != cfg.historyFile ==> SameAt(s.fs, r.fs, p)
  {
    ChatState([], SaveHistory(s.fs, cfg, [], dump))
  }

  /** After a clear the file loads as empty; after an add it loads with
      the new message last. */
  lemma ClearThenLoad(s: ChatState, cfg: Config, parse: Parser, dump: Printer)
    requires RoundTrips(parse, dump)
    requires cfg.maxHistory >= 0
    ensures LoadHistory(ClearHistory(s, cfg, dump).fs, cfg, parse) == Ok([])
  {
    SaveThenLoad(s.fs, cfg, [], parse, dump);
  }

  lemma AddThenLoad(s: ChatState, cfg: Config, role: string, content: string, timestamp: string, parse: Parser, dump: Printer)
    requires RoundTrips(parse, dump)
    requires cfg.maxHistory > 0
    ensures var r := LoadHistory(AddMessage(s, cfg, role, content, timestamp, dump).fs, cfg, parse);
            && r.Ok? && r.value != []
            && r.value[|r.value| - 1] == Message(role, content, timestamp)
            && r.value == Tail(s.history + [Message(role, content, timestamp)], cfg.maxHistory)
  {
    var h := s.history + [Message(role, content, timestamp)];
    SaveThenLoad(s.fs, cfg, h, parse, dump);
    TailShape(h, cfg.maxHistory);
  }

  /** Every character is separated from the next whitespace character by a
      non-whitespace one, and the only whitespace is the plain space. */
  predicate SingleSpaced(s: string) {
    forall i :: 0 <= i < |s| && IsSpace(s[i]) ==> s[i] == ' ' && (i + 1 < |s| ==> !IsSpace(s[i + 1]))
  }

  /** `re.sub(r'\s+', ' ', text)` */
  function Collapse(s: string): (r: string)
    ensures s != [] && !IsSpace(s[0]) ==> r != [] && r[0] == s[0]
    ensures s != [] && IsSpace(s[0]) ==> r != [] && r[0] == ' '
    ensures SingleSpaced(r)
    decreases |s|
  {
    if s == [] then []
    else if IsSpace(s[0]) then
      var rest := Collapse(TrimStart(s[1..]));
      AsciiSpaceIsSpace(' ');
      " " + rest
    else
      var rest := Collapse(s[1..]);
      [s[0]] + rest
  }

  /** Collapsing whitespace keeps every visible character, in order. */
  lemma {:induction false} CollapseKeepsText(s: string)
    ensures EraseSpace(Collapse(s)) == EraseSpace(s)
    decreases |s|
  {
    if s != [] {
      if IsSpace(s[0]) {
        var t := TrimStart(s[1..]);
        CollapseKeepsText(t);
        EraseSpaceTrimStart(s[1..]);
        AsciiSpaceIsSpace(' ');
        EraseSpaceAppend(" ", Collapse(t));
        assert EraseSpace(" ") == [];
      } else {
        CollapseKeepsText(s[1..]);
        EraseSpaceAppend([s[0]], Collapse(s[1..]));
        assert EraseSpace([s[0]]) == [s[0]];
      }
    }
  }

  /** A slice of a single-spaced text is single-spaced. */
  lemma SingleSpacedSlice(s: string, i: nat, j: nat)
    requires i <= j <= |s|
    requires SingleSpaced(s)
    ensures SingleSpaced(s[i..j])
  {
    var t := s[i..j];
    forall k | 0 <= k < |t| && IsSpace(t[k]) ensures t[k] == ' ' && (k + 1 < |t| ==> !IsSpace(t[k + 1])) {
      assert t[k] == s[i + k];
      if k + 1 < |t| {
        assert t[k + 1] == s[i + k + 1];
      }
    }
  }

  /** `clean_content(text)`; `dropPatterns` stands for the five pattern
      deletions that come first. */
  function CleanContent(text: string, dropPatterns: string -> string): (r: string)
    ensures IsStripped(r)
    ensures SingleSpaced(r)
  {
    var c := Collapse(dropPatterns(text));
    StripIsSlice(c);
    SingleSpacedSlice(c, |c| - |TrimStart(c)|, |c| - |TrimStart(c)| + |Strip(c)|);
    Strip(c)
  }

  /** The cleaned text has no whitespace at either end, only single
      spaces inside, and every visible character the deletions left. */
  lemma CleanContentShape(text: string, dropPatterns: string -> string)
    ensures var r := CleanContent(text, dropPatterns);
            && IsStripped(r)
            && SingleSpaced(r)
            && EraseSpace(r) == EraseSpace(dropPatterns(text))
  {
    var c := Collapse(dropPatterns(text));
    EraseSpaceStrip(c);
    CollapseKeepsText(dropPatterns(text));
  }

  /** The text after the last `sep`, or all of `s` without one:
      `s.split(sep)[-1]`. */
  function AfterLast(s: string, sep: string): string
    requires sep != []
    decreases |s|
  {
    if !Contains(s, sep) then s
    else if StartsWith(s, sep) then AfterLast(s[|sep|..], sep)
    else AfterLast(s[1..], sep)
  }

  const FromMarker: string := "From "

  /** `line.split('From ')[-1].split()[0]`; `None` is the `IndexError`
      of a line with no word after its last marker. */
  function SourceName(line: string): (r: Option<string>)
    ensures r.Some? ==> r.value != [] && NoSpace(r.value)
  {
    var words := Words(AfterLast(line, FromMarker));
    if words == [] then None else Some(words[0])
  }

  /** The first word of a text that starts with one. */
  lemma {:induction false} FirstWord(name: string, rest: string)
    requires name != [] && NoSpace(name)
    requires rest == [] || IsSpace(rest[0])
    ensures Words(name + rest) != [] && Words(name + rest)[0] == name
  {
    var t := name + rest;
    assert t[0] == name[0];
    assert TrimStart(t) == t;
    WordEndOf(name, rest);
  }

  lemma {:induction false} WordEndOf(name: string, rest: string)
    requires NoSpace(name)
    requires rest == [] || IsSpace(rest[0])
    ensures WordEnd(name + rest) == |name|
    decreases |name|
  {
    var t := name + rest;
    if name == [] {
      assert t == rest;
    } else {
      assert t[0] == name[0];
      assert t[1..] == name[1..] + rest;
      WordEndOf(name[1..], rest);
    }
  }

  /** A source line names the first word after its marker, when no other
      marker follows. */
  lemma SourceOfFromLine(name: string, rest: string)
    requires name != [] && NoSpace(name)
    requires rest == [] || IsSpace(rest[0])
    requires !Contains(name + rest, FromMarker)
    ensures SourceName(FromMarker + name + rest) == Some(name)
  {
    var line := FromMarker + name + rest;
    assert line[..|FromMarker|] == FromMarker;
    assert line[|FromMarker|..] == name + rest;
    assert AfterLast(line, FromMarker) == name + rest;
    FirstWord(name, rest);
  }

  /** A context sentence with the source in force where it was read. */
  datatype Citation = Citation(source: Option<string>, text: string)

  const SimilarityMarker: string := "(similarity:"

  /** Lines skipped outright: blank ones and similarity annotations. */
  predicate Skipped(line: string) {
    Strip(line) == [] || Contains(line, SimilarityMarker)
  }

  /** A text can only be found in `a + b` across or inside `b` once its
      first character does not occur in `a`. */
  lemma {:induction false} ContainsAfterHead(a: string, b: string, sub: string)
    requires sub != [] && sub[0] !in a
    ensures Contains(a + b, sub) ==> Contains(b, sub)
    decreases |a|
  {
    if a != [] {
      var s := a + b;
      assert s[0] == a[0];
      assert s[1..] == a[1..] + b;
      ContainsAfterHead(a[1..], b, sub);
    } else {
      assert a + b == b;
    }
  }

  /** The loop over `context.split('\n')`: source lines switch the current
      source, other lines are cleaned and kept when they have more than
      ten words. `None` is the `IndexError` of a bad source line. */
  function Collect(lines: seq<string>, current: Option<string>, dropPatterns: string -> string): (r: Option<seq<Citation>>)
    ensures r.Some? ==> |r.value| <= |lines|
    ensures r.Some? ==> forall c :: c in r.value ==>
      && c.text != [] && WordCount(c.text) > MinCitationWords
      && IsStripped(c.text)
      && exists l :: l in lines && !Skipped(l) && !StartsWith(l, FromMarker) && c.text == CleanContent(l, dropPatterns)
    decreases |lines|
  {
    if lines == [] then Some([])
    else
      var line := lines[0];
      assert forall l :: l in lines[1..] ==> l in lines;
      if Skipped(line) then Collect(lines[1..], current, dropPatterns)
      else if StartsWith(line, FromMarker) then
        match SourceName(line)
        case None => None
        case Some(name) => Collect(lines[1..], Some(name), dropPatterns)
      else
        var clean := CleanContent(line, dropPatterns);
        var rest := Collect(lines[1..], current, dropPatterns);
        if rest.None? then None
        else if clean != [] && WordCount(clean) > MinCitationWords then Some([Citation(current, clean)] + rest.value)
        else rest
  }

  /** Without source lines nothing raises, and every sentence keeps the
      source in force before the first line. */
  lemma {:induction false} CollectWithoutSources(lines: seq<string>, current: Option<string>, dropPatterns: string -> string)
    requires forall l :: l in lines ==> !StartsWith(l, FromMarker)
    ensures Collect(lines, current, dropPatterns).Some?
    ensures forall c :: c in Collect(lines, current, dropPatterns).value ==> c.source == current
    decreases |lines|
  {
    if lines != [] {
      assert forall l :: l in lines[1..] ==> l in lines;
      assert lines[0] in lines;
      CollectWithoutSources(lines[1..], current, dropPatterns);
      CollectPlainLine(lines, current, dropPatterns);
    }
  }

  /** A line that is not a source line adds at most one sentence, under
      the current source, and raises nothing. */
  lemma CollectPlainLine(lines: seq<string>, current: Option<string>, dropPatterns: string -> string)
    requires lines != [] && !StartsWith(lines[0], FromMarker)
    ensures Collect(lines, current, dropPatterns).None? <==> Collect(lines[1..], current, dropPatterns).None?
    ensures Collect(lines, current, dropPatterns).Some? ==>
      forall c :: c in Collect(lines, current, dropPatterns).value ==>
        c in Collect(lines[1..], current, dropPatterns).value || c.source == current
  {
  }

  /** A source line switches the source of the sentences after it. */
  lemma CollectAfterSource(name: string, rest: string, lines: seq<string>, current: Option<string>, dropPatterns: string -> string)
    requires name != [] && NoSpace(name)
    requires rest == [] || IsSpace(rest[0])
    requires !Contains(name + rest, FromMarker) && !Contains(name + rest, SimilarityMarker)
    ensures Collect([FromMarker + name + rest] + lines, current, dropPatterns) == Collect(lines, Some(name), dropPatterns)
  {
    var line := FromMarker + name + rest;
    SourceOfFromLine(name, rest);
    assert line[..|FromMarker|] == FromMarker;
    assert !Contains(line, SimilarityMarker) by {
      assert line == FromMarker + (name + rest);
      ContainsAfterHead(FromMarker, name + rest, SimilarityMarker);
    }
    assert Strip(line) != [] by {
      VisibleAsciiIsNotSpace(line[0]);
      assert TrimStart(line) == line;
    }
    assert ([line] + lines)[1..] == lines;
  }

  /** `str(source)` */
  function SourceText(source: Option<string>): string {
    if source.None? then "None" else source.value
  }

  /** A sentence once its `(Source: None)` markers are removed. */
  function Shown(text: string): string {
    ReplaceAll(text, "(Source: None)", "")
  }

  /** The sentence is cited: it has more than ten words before and after
      the `(Source: None)` removal. */
  predicate Citable(text: string) {
    WordCount(text) > MinCitationWords && Shown(text) != [] && WordCount(Shown(text)) > MinCitationWords
  }

  /** The citations kept by the `seen_content` loop: each sentence at its
      first occurrence that passes `cited` (in the reply, `Citable`). */
  function Kept(cs: seq<Citation>, seen: set<string>, cited: string -> bool): (r: seq<Citation>)
    ensures |r| <= |cs|
    ensures forall c :: c in r ==> c in cs && cited(c.text) && c.text !in seen
    decreases |cs|
  {
    if cs == [] then []
    else if cs[0].text !in seen && cited(cs[0].text) then [cs[0]] + Kept(cs[1..], seen + {cs[0].text}, cited)
    else Kept(cs[1..], seen, cited)
  }

  predicate DistinctTexts(cs: seq<Citation>) {
    forall i, j :: 0 <= i < j < |cs| ==> cs[i].text != cs[j].text
  }

  /** No sentence is cited twice. */
  lemma {:induction false} KeptDistinct(cs: seq<Citation>, seen: set<string>, cited: string -> bool)
    ensures DistinctTexts(Kept(cs, seen, cited))
    decreases |cs|
  {
    if cs != [] {
      var c := cs[0];
      if c.text !in seen && cited(c.text) {
        var rest := Kept(cs[1..], seen + {c.text}, cited);
        KeptDistinct(cs[1..], seen + {c.text}, cited);
        var r := [c] + rest;
        assert Kept(cs, seen, cited) == r;
        forall i, j | 0 <= i < j < |r| ensures r[i].text != r[j].text {
          assert r[j] == rest[j - 1] && r[j] in rest;
          if i > 0 {
            assert r[i] == rest[i - 1];
            assert DistinctTexts(rest);
          } else {
            assert r[j].text !in seen + {c.text};
          }
        }
      } else {
        assert Kept(cs, seen, cited) == Kept(cs[1..], seen, cited);
        KeptDistinct(cs[1..], seen, cited);
      }
    }
  }

  /** Every sentence that passes `cited` and was not seen before is cited. */
  lemma {:induction false} KeptComplete(cs: seq<Citation>, seen: set<string>, cited: string -> bool, c: Citation)
    requires c in cs && cited(c.text) && c.text !in seen
    ensures exists k :: k in Kept(cs, seen, cited) && k.text == c.text
    decreases |cs|
  {
    var h := cs[0];
    if h.text !in seen && cited(h.text) {
      assert h in Kept(cs, seen, cited);
      if h.text != c.text {
        assert c in cs[1..];
        KeptComplete(cs[1..], seen + {h.text}, cited, c);
      }
    } else {
      assert c != h;
      assert c in cs[1..];
      KeptComplete(cs[1..], seen, cited, c);
    }
  }

  /** The text one kept citation adds to the reply. */
  function Cite(c: Citation): string {
    Shown(c.text) + " (Source: " + SourceText(c.source) + "). "
  }

  function CiteAll(cs: seq<Citation>): string {
    if cs == [] then [] else Cite(cs[0]) + CiteAll(cs[1..])
  }

  /** `query.lower().startswith(('what', 'how', 'why'))` */
  predicate AsksFollowUp(query: string) {
    LowerStartsWith(query, "what") || LowerStartsWith(query, "how") || LowerStartsWith(query, "why")
  }

  /** The reply text; `None` when the loop raises. */
  function Respond(query: string, context: Option<string>, dropPatterns: string -> string): (r: Option<string>)
    ensures context.None? || context.value == [] ==> r == Some(NoContextReply)
  {
    if context.None? || context.value == [] then Some(NoContextReply)
    else
      match Cited(context.value, dropPatterns)
      case None => None
      case Some(cs) => Some(Reply(query, cs))
  }

  /** The reply once the context's sentences are collected. */
  function Reply(query: string, cs: seq<Citation>): (r: string)
    ensures cs == [] ==> r == NoCitationReply
    ensures cs != [] ==> StartsWith(r, Opening)
    ensures cs != [] && AsksFollowUp(query) ==> EndsWith(r, FollowUp)
  {
    if cs == [] then NoCitationReply
    else
      var body := CiteAll(Kept(cs, {}, Citable));
      var tail := if AsksFollowUp(query) then FollowUp else "";
      Enclosed(Opening, body, tail);
      Opening + body + tail
  }

  /** A text built from `head`, `body` and `tail` starts with `head` and
      ends with `tail`. */
  lemma Enclosed(head: string, body: string, tail: string)
    ensures var r := head + body + tail;
            StartsWith(r, head) && EndsWith(r, tail)
  {
    var r := head + body + tail;
    assert r[..|head|] == head;
    assert r[|r| - |tail|..] == tail;
  }

  /** `CiteAll(ks)` holds the citation of every kept sentence. */
  lemma {:induction false} CiteAllHas(ks: seq<Citation>, k: Citation) returns (p: string, q: string)
    requires k in ks
    ensures CiteAll(ks) == p + Cite(k) + q
    decreases |ks|
  {
    if ks[0] == k {
      p, q := [], CiteAll(ks[1..]);
    } else {
      assert k in ks[1..];
      var p1, q1 := CiteAllHas(ks[1..], k);
      p, q := Cite(ks[0]) + p1, q1;
    }
  }

  /** `CiteAll` is empty or ends with the space after a citation. */
  lemma {:induction false} CiteAllEnd(ks: seq<Citation>)
    ensures CiteAll(ks) == [] || CiteAll(ks)[|CiteAll(ks)| - 1] == ' '
    decreases |ks|
  {
    if ks != [] {
      CiteAllEnd(ks[1..]);
      var c := Cite(ks[0]);
      assert c[|c| - 1] == ' ';
    }
  }

  /** The sentences of the context that became citations. */
  function Cited(context: string, dropPatterns: string -> string): (r: Option<seq<Citation>>)
    ensures r.Some? ==> forall c :: c in r.value ==> c.text != [] && WordCount(c.text) > MinCitationWords && IsStripped(c.text)
    ensures (forall l :: l in SplitOn(context, '\n') ==> !StartsWith(l, FromMarker)) ==> r.Some?
  {
    var lines := SplitOn(context, '\n');
    if forall l :: l in lines ==> !StartsWith(l, FromMarker) then
      CollectWithoutSources(lines, None, dropPatterns);
      Collect(lines, None, dropPatterns)
    else Collect(lines, None, dropPatterns)
  }

  /** A reply built from sentences opens with the fixed phrase and cites
      every citable sentence, with the source of one of its occurrences. */
  lemma ReplyCitesEach(query: string, cs: seq<Citation>, k: Citation)
    requires k in cs && Citable(k.text)
    ensures StartsWith(Reply(query, cs), Opening)
    ensures exists c :: c in cs && c.text == k.text && Contains(Reply(query, cs), Cite(c))
  {
    var kept := Kept(cs, {}, Citable);
    var tail := if AsksFollowUp(query) then FollowUp else "";
    var r := Opening + CiteAll(kept) + tail;
    assert Reply(query, cs) == r;
    KeptComplete(cs, {}, Citable, k);
    var c :| c in kept && c.text == k.text;
    var p, q := CiteAllHas(kept, c);
    InFrame(Opening, p, Cite(c), q, tail);
  }

  /** Where `x` sits in `o + (p + x + q) + t`. */
  lemma InFrame(o: string, p: string, x: string, q: string, t: string)
    ensures StartsWith(o + (p + x + q) + t, o)
    ensures Contains(o + (p + x + q) + t, x)
  {
    var r := o + (p + x + q) + t;
    assert r == (o + p) + x + (q + t);
    ContainsMiddle(o + p, x, q + t);
    assert r[..|o|] == o;
  }

  /** A reply built from sentences ends with the follow-up question
      exactly when the query asks what, how or why. */
  lemma ReplyFollowUp(query: string, cs: seq<Citation>)
    requires cs != []
    ensures Reply(query, cs) != []
    ensures Reply(query, cs)[|Reply(query, cs)| - 1] == '?' <==> AsksFollowUp(query)
  {
    var body := Opening + CiteAll(Kept(cs, {}, Citable));
    CiteAllEnd(Kept(cs, {}, Citable));
    assert body[|body| - 1] == ' ';
    if AsksFollowUp(query) {
      var r := body + FollowUp;
      assert Reply(query, cs) == r;
      assert r[|r| - 1] == FollowUp[|FollowUp| - 1];
    } else {
      assert Reply(query, cs) == body + "" == body;
    }
  }

  /** `token + " "` for every word of the reply. */
  function Tokens(words: seq<string>): (ts: seq<string>)
    ensures |ts| == |words|
    ensures forall i :: 0 <= i < |ts| ==> ts[i] == words[i] + " "
  {
    if words == [] then [] else [words[0] + " "] + Tokens(words[1..])
  }

  /** What `get_response` leaves behind: the new state, and the tokens it
      yields, or `None` when it raises after recording the query. */
  datatype Outcome = Outcome(state: ChatState, tokens: Option<seq<string>>)

  /** `get_response(query, context)` run to the end. */
  function GetResponse(s: ChatState, cfg: Config, query: string, context: Option<string>, dropPatterns: string -> string,
                       askedAt: string, answeredAt: string, dump: Printer): (o: Outcome)
    ensures o.tokens.None? ==> o.state.history == s.history + [Message("user", query, askedAt)]
    ensures o.tokens.Some? ==>
      && Respond(query, context, dropPatterns).Some?
      && o.state.history == s.history + [Message("user", query, askedAt),
                                         Message("assistant", Respond(query, context, dropPatterns).value, answeredAt)]
      && |o.tokens.value| == WordCount(Respond(query, context, dropPatterns).value)
  {
    var s1 := AddMessage(s, cfg, "user", query, askedAt, dump);
    match Respond(query, context, dropPatterns)
    case None => Outcome(s1, None)
    case Some(reply) =>
      var s2 := AddMessage(s1, cfg, "assistant", reply, answeredAt, dump);
      Outcome(s2, Some(Tokens(Words(reply))))
  }

  /** The words of a text, put together, are its visible characters. */
  lemma {:induction false} WordsKeepText(s: string)
    ensures Concat(Words(s)) == EraseSpace(s)
    decreases |s|
  {
    var t := TrimStart(s);
    EraseSpaceTrimStart(s);
    if t != [] {
      var k := WordEnd(t);
      assert t == t[..k] + t[k..];
      EraseSpaceAppend(t[..k], t[k..]);
      EraseSpaceOfWord(t[..k]);
      WordsKeepText(t[k..]);
      assert Words(s) == [t[..k]] + Words(t[k..]);
    } else {
      assert EraseSpace(t) == [];
    }
  }

  lemma {:induction false} EraseSpaceOfWord(w: string)
    requires NoSpace(w)
    ensures EraseSpace(w) == w
  {
    if w != [] {
      assert !IsSpace(w[0]);
      EraseSpaceOfWord(w[1..]);
      assert w == [w[0]] + w[1..];
    }
  }

  /** The tokens put together hold every visible character of the reply,
      in order, and nothing else visible. */
  lemma {:induction false} TokensKeepText(words: seq<string>)
    requires AreWords(words)
    ensures EraseSpace(Concat(Tokens(words))) == Concat(words)
  {
    if words != [] {
      var w := words[0];
      assert AreWords(words[1..]) by {
        forall i | 0 <= i < |words[1..]| ensures words[1..][i] != [] && NoSpace(words[1..][i]) {
          assert words[1..][i] == words[i + 1];
        }
      }
      TokensKeepText(words[1..]);
      var ts := Tokens(words);
      assert ts == [w + " "] + Tokens(words[1..]);
      EraseSpaceAppend(w + " ", Concat(Tokens(words[1..])));
      EraseSpaceOfToken(w);
    }
  }

  lemma EraseSpaceOfToken(w: string)
    requires NoSpace(w)
    ensures EraseSpace(w + " ") == w
  {
    EraseSpaceAppend(w, " ");
    AsciiSpaceIsSpace(' ');
    assert EraseSpace(" ") == [];
    EraseSpaceOfWord(w);
  }

  /** The streamed tokens lose only whitespace: the visible text of the
      reply comes out whole. */
  lemma StreamKeepsReply(reply: string)
    ensures EraseSpace(Concat(Tokens(Words(reply)))) == EraseSpace(reply)
  {
    TokensKeepText(Words(reply));
    WordsKeepText(reply);
  }
}
