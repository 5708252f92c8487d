/** `Bot.get_response` of `src/interface/bot.py`: the vector store is
    searched for the four nearest hits, those at or above the similarity
    floor are grouped by type into a context block, and the reply is the
    language model's answer with a `<STOP>` marker, a fixed refusal when
    there is no context, or an apology carrying the error.

    The system prompt, the `json` module (`json.dumps(..., ensure_ascii=False)`
    is its own printer), the language model and the text of the exception
    are inputs. */
module Bot {
  import opened Wrappers
  import opened Text
  import opened JsonModel
  import opened Sorting
  import opened VectorStore

  /** `min_similarity` of the bot. */
  const MinSimilarity: real := 0.6

  /** `top_k` of the search the bot runs. */
  const TopK: int := 4

  const Stop: string := " <STOP>"

  /** The reply when no context was built. */
  const NoSourcesReply: string := "Based on the available sources, I cannot provide information about this topic. <STOP>"

  /** What the prompt says in place of a context. */
  const NoSourcesText: string := "No specific sources available for this query."

  const ErrorPrefix: string := "I apologize, I encountered an error: "

  /** The bot's vector store, when it has one, with its search world. */
  datatype Db = Db(store: Store, env: SearchEnv)

  /** What the bot's code calls into: the system prompt, `json.loads`, the
      `json.dumps` used for the context, the language model (`None` when
      generation raises), and `str(e)` of whatever raised. */
  datatype BotEnv = BotEnv(systemPrompt: string, parse: Parser, dumpUnicode: Printer,
                           generate: string -> Option<string>, errorMessage: string)

  function NegSimilarity(h: Hit): real {
    -h.similarity
  }

  /** `[r for r in results if r['similarity'] >= floor]` */
  function AtLeast(hits: seq<Hit>, floor: real): (r: seq<Hit>)
    ensures |r| <= |hits|
    ensures forall h :: h in r <==> h in hits && h.similarity >= floor
  {
    if hits == [] then []
    else
      assert forall h :: h in hits <==> h == hits[0] || h in hits[1..];
      (if hits[0].similarity >= floor then [hits[0]] else []) + AtLeast(hits[1..], floor)
  }

  /** `results.sort(key=similarity, reverse=True)`, then the floor. */
  function Relevant(results: seq<Hit>): (r: seq<Hit>)
    ensures |r| <= |results|
    ensures forall h :: h in r <==> h in results && h.similarity >= MinSimilarity
  {
    var sorted := SortBy(results, NegSimilarity);
    assert forall h :: h in sorted <==> h in multiset(sorted);
    assert forall h :: h in results <==> h in multiset(results);
    AtLeast(sorted, MinSimilarity)
  }

  /** The search already returns hits by falling similarity, so the bot's
      own sort keeps them as they are and the relevant hits are the leading
      ones at or above the floor; every hit after them is below it. */
  lemma RelevantIsPrefix(st: Store, query: string, env: SearchEnv)
    ensures var results := Search(st, query, TopK, None, env);
            var relevant := Relevant(results);
            && |relevant| <= |results|
            && relevant == results[..|relevant|]
            && (forall i :: 0 <= i < |relevant| ==> relevant[i].similarity >= MinSimilarity)
            && (forall i :: |relevant| <= i < |results| ==> results[i].similarity < MinSimilarity)
  {
    var results := Search(st, query, TopK, None, env);
    assert SortedBy(results, NegSimilarity) by {
      forall i, j | 0 <= i < j < |results| ensures NegSimilarity(results[i]) <= NegSimilarity(results[j]) {
        assert Distance(results[i]) <= Distance(results[j]);
      }
    }
    SortSorted(results, NegSimilarity);
    AtLeastOfDescending(results, MinSimilarity);
  }

  /** `r` is the leading part of `hits` at or above `floor`, and every hit
      after it is below. */
  predicate SplitsAt(hits: seq<Hit>, r: seq<Hit>, floor: real) {
    && |r| <= |hits|
    && r == hits[..|r|]
    && (forall i :: 0 <= i < |r| ==> r[i].similarity >= floor)
    && (forall i :: |r| <= i < |hits| ==> hits[i].similarity < floor)
  }

  lemma {:induction false} AtLeastOfDescending(hits: seq<Hit>, floor: real)
    requires SortedBy(hits, NegSimilarity)
    ensures SplitsAt(hits, AtLeast(hits, floor), floor)
  {
    if hits != [] {
      SortedTail(hits);
      AtLeastOfDescending(hits[1..], floor);
      if hits[0].similarity >= floor {
        KeepHead(hits, floor);
      } else {
        DropHead(hits, floor);
      }
    }
  }

  lemma SortedTail(hits: seq<Hit>)
    requires hits != [] && SortedBy(hits, NegSimilarity)
    ensures SortedBy(hits[1..], NegSimilarity)
  {
    var tail := hits[1..];
    forall i, j | 0 <= i < j < |tail| ensures NegSimilarity(tail[i]) <= NegSimilarity(tail[j]) {
      assert tail[i] == hits[i + 1] && tail[j] == hits[j + 1];
    }
  }

  lemma KeepHead(hits: seq<Hit>, floor: real)
    requires hits != [] && hits[0].similarity >= floor
    requires SplitsAt(hits[1..], AtLeast(hits[1..], floor), floor)
    ensures SplitsAt(hits, AtLeast(hits, floor), floor)
  {
    var tail := hits[1..];
    var rest := AtLeast(tail, floor);
    assert AtLeast(hits, floor) == [hits[0]] + rest;
    KeepHeadSplits(hits[0], tail, rest, floor);
    assert hits == [hits[0]] + tail;
  }

  lemma KeepHeadSplits(h: Hit, tail: seq<Hit>, rest: seq<Hit>, floor: real)
    requires h.similarity >= floor
    requires SplitsAt(tail, rest, floor)
    ensures SplitsAt([h] + tail, [h] + rest, floor)
  {
    var hits, r := [h] + tail, [h] + rest;
    assert hits[..|r|] == [h] + tail[..|rest|];
    forall i | 0 <= i < |r| ensures r[i].similarity >= floor {
      if i > 0 {
        assert r[i] == rest[i - 1];
      }
    }
    forall i | |r| <= i < |hits| ensures hits[i].similarity < floor {
      assert hits[i] == tail[i - 1];
    }
  }

  lemma DropHead(hits: seq<Hit>, floor: real)
    requires hits != [] && hits[0].similarity < floor
    requires SortedBy(hits, NegSimilarity)
    requires SplitsAt(hits[1..], AtLeast(hits[1..], floor), floor)
    ensures SplitsAt(hits, AtLeast(hits, floor), floor)
  {
    var tail := hits[1..];
    assert AtLeast(hits, floor) == AtLeast(tail, floor);
    forall i | 0 <= i < |tail| ensures tail[i].similarity < floor {
      assert NegSimilarity(hits[0]) <= NegSimilarity(hits[i + 1]);
    }
    NoneAtLeast(tail, floor);
  }

  /** No hit reaches the floor: nothing is kept. */
  lemma {:induction false} NoneAtLeast(hits: seq<Hit>, floor: real)
    requires forall i :: 0 <= i < |hits| ==> hits[i].similarity < floor
    ensures AtLeast(hits, floor) == []
  {
    if hits != [] {
      NoneAtLeast(hits[1..], floor);
    }
  }

  /** `os.path.basename(source).replace('_gemini.jsonl', '')` */
  function DisplaySource(source: string): string {
    ReplaceAll(Basename(source), "_gemini.jsonl", "")
  }

  /** The display name is never longer than the file name and never holds
      a directory separator. */
  lemma DisplaySourceShape(source: string)
    ensures '/' !in DisplaySource(source) && |DisplaySource(source)| <= |Basename(source)|
  {
    ReplaceAllFrom(Basename(source), "_gemini.jsonl", "", '/');
  }

  /** The display name of a summary file is its stem. */
  lemma DisplayOfSummaryFile(dir: string, stem: string)
    requires '/' !in stem
    requires forall i :: 0 <= i < |stem| ==> !StartsWith((stem + "_gemini.jsonl")[i..], "_gemini.jsonl")
    ensures DisplaySource(dir + "/" + stem + "_gemini.jsonl") == stem
  {
    var name := stem + "_gemini.jsonl";
    assert '/' !in name;
    BasenameOfPath(dir, name);
    assert dir + "/" + stem + "_gemini.jsonl" == dir + "/" + name;
    ReplaceSuffix(stem, "_gemini.jsonl");
  }

  /** The display name of a PDF path is its file name. */
  lemma DisplayOfPdf(dir: string, name: string)
    requires '/' !in name
    requires forall i :: 0 <= i < |name| ==> !StartsWith(name[i..], "_gemini.jsonl")
    ensures DisplaySource(dir + "/" + name) == name
  {
    BasenameOfPath(dir, name);
    ReplaceAbsent(name, "_gemini.jsonl");
  }

  lemma {:induction false} BasenameOfPath(dir: string, name: string)
    requires '/' !in name
    ensures Basename(dir + "/" + name) == name
    decreases |name|
  {
    var p := dir + "/" + name;
    if name == [] {
      assert p[|p| - 1] == '/';
    } else {
      var last := name[|name| - 1];
      assert p[|p| - 1] == last;
      assert p[..|p| - 1] == dir + "/" + name[..|name| - 1];
      BasenameOfPath(dir, name[..|name| - 1]);
      assert name == name[..|name| - 1] + [last];
    }
  }

  /** A text in which the pattern starts nowhere is left alone by
      `replace`. */
  lemma {:induction false} ReplaceAbsent(s: string, pat: string)
    requires pat != [] && forall i :: 0 <= i < |s| ==> !StartsWith(s[i..], pat)
    ensures ReplaceAll(s, pat, "") == s
    decreases |s|
  {
    if s != [] {
      assert s[0..] == s;
      forall i | 0 <= i < |s[1..]| ensures !StartsWith(s[1..][i..], pat) {
        assert s[1..][i..] == s[i + 1..];
      }
      ReplaceAbsent(s[1..], pat);
      assert s == [s[0]] + s[1..];
    }
  }

  /** A pattern appended to a text, where it starts at no earlier
      position, is the only occurrence, and `replace` removes it. */
  lemma {:induction false} ReplaceSuffix(s: string, pat: string)
    requires pat != [] && forall i :: 0 <= i < |s| ==> !StartsWith((s + pat)[i..], pat)
    ensures ReplaceAll(s + pat, pat, "") == s
    decreases |s|
  {
    var t := s + pat;
    if s == [] {
      assert t == pat;
      assert t[|pat|..] == [];
    } else {
      assert t[0..] == t;
      assert t[1..] == s[1..] + pat;
      forall i | 0 <= i < |s[1..]| ensures !StartsWith((s[1..] + pat)[i..], pat) {
        assert (s[1..] + pat)[i..] == t[i + 1..];
      }
      ReplaceSuffix(s[1..], pat);
      assert s == [s[0]] + s[1..];
    }
  }

  /** How one relevant hit's content reads: not JSON (skipped), JSON that
      is not a dictionary (`content['source'] = ...` raises), or a
      dictionary, tagged with the hit's display source. */
  datatype Reading = Unreadable | NotADict | Tagged(content: Json)

  function ReadHit(h: Hit, parse: Parser): (r: Reading)
    ensures r.Tagged? ==> Field(r.content, "source") == Some(JStr(DisplaySource(h.source)))
    ensures r.Tagged? <==> parse(h.content).Some? && parse(h.content).value.JObj?
  {
    match parse(h.content)
    case None => Unreadable
    case Some(JObj(fields)) => Tagged(JObj(fields["source" := JStr(DisplaySource(h.source))]))
    case Some(_) => NotADict
  }

  /** The three lists the hits are grouped into. */
  datatype Groups = Groups(findings: seq<Json>, relationships: seq<Json>, methods: seq<Json>)

  /** Puts one tagged content in front of the list its type routes it to;
      other types are dropped. */
  function File(kind: string, c: Json, g: Groups): Groups {
    if kind == "finding" then g.(findings := [c] + g.findings)
    else if kind == "methodology" then g.(methods := [c] + g.methods)
    else if kind == "relationship" then g.(relationships := [c] + g.relationships)
    else g
  }

  /** The hit's content is JSON but not a dictionary. */
  predicate AnyNotADict(hits: seq<Hit>, parse: Parser) {
    exists i :: 0 <= i < |hits| && ReadHit(hits[i], parse) == NotADict
  }

  /** Some hit of type `kind` reads as the tagged content `c`. */
  predicate FromHit(hits: seq<Hit>, kind: string, c: Json, parse: Parser) {
    exists i :: 0 <= i < |hits| && hits[i].embeddingType == kind && ReadHit(hits[i], parse) == Tagged(c)
  }

  /** The grouping loop; `None` when it raises. */
  function GroupHits(hits: seq<Hit>, parse: Parser): (r: Option<Groups>)
    ensures r.None? <==> AnyNotADict(hits, parse)
    ensures r.Some? ==> && (forall c :: c in r.value.findings ==> FromHit(hits, "finding", c, parse))
                        && (forall c :: c in r.value.relationships ==> FromHit(hits, "relationship", c, parse))
                        && (forall c :: c in r.value.methods ==> FromHit(hits, "methodology", c, parse))
  {
    if hits == [] then Some(Groups([], [], []))
    else
      var rest := GroupHits(hits[1..], parse);
      GroupStep(hits, parse, rest);
      var reading := ReadHit(hits[0], parse);
      if reading.NotADict? then None
      else if reading.Unreadable? || rest.None? then rest
      else
        FileRoutes(hits[0].embeddingType, reading.content, rest.value);
        Some(File(hits[0].embeddingType, reading.content, rest.value))
  }

  /** An entry lands in the list of its type, in front of what was there;
      the other lists, and all three for any other type, are unchanged. */
  lemma FileRoutes(kind: string, c: Json, g: Groups)
    ensures forall x :: x in File(kind, c, g).findings ==> (x == c && kind == "finding") || x in g.findings
    ensures forall x :: x in File(kind, c, g).relationships ==> (x == c && kind == "relationship") || x in g.relationships
    ensures forall x :: x in File(kind, c, g).methods ==> (x == c && kind == "methodology") || x in g.methods
    ensures kind == "finding" ==> File(kind, c, g) == g.(findings := [c] + g.findings)
    ensures kind == "relationship" ==> File(kind, c, g) == g.(relationships := [c] + g.relationships)
    ensures kind == "methodology" ==> File(kind, c, g) == g.(methods := [c] + g.methods)
    ensures kind != "finding" && kind != "relationship" && kind != "methodology" ==> File(kind, c, g) == g
  {
  }

  /** What one hit adds to the list of type `kind`: its tagged content when
      it has that type and reads as a dictionary, nothing otherwise. */
  function Own(h: Hit, kind: string, parse: Parser): seq<Json> {
    if h.embeddingType == kind && ReadHit(h, parse).Tagged? then [ReadHit(h, parse).content] else []
  }

  /** The reference grouping of one type: the tagged contents of the hits
      of that type, in hit order, appended one hit at a time as the loop
      over `relevant` does. */
  function OfKind(hits: seq<Hit>, kind: string, parse: Parser): seq<Json> {
    Gather(hits, (h: Hit) => Own(h, kind, parse))
  }

  /** What `f` gives for each hit, concatenated, built from the back. */
  function Gather(hits: seq<Hit>, f: Hit -> seq<Json>): seq<Json>
    decreases |hits|
  {
    if hits == [] then [] else Gather(hits[..|hits| - 1], f) + f(hits[|hits| - 1])
  }

  /** The gathered list read from the front. */
  lemma {:induction false} GatherCons(hits: seq<Hit>, f: Hit -> seq<Json>)
    requires hits != []
    ensures Gather(hits, f) == f(hits[0]) + Gather(hits[1..], f)
    decreases |hits|
  {
    if |hits| == 1 {
      assert hits[..0] == [] && hits[1..] == [];
    } else {
      var init := hits[..|hits| - 1];
      var tail := hits[1..];
      var last := f(hits[|hits| - 1]);
      var mid := Gather(init[1..], f);
      GatherCons(init, f);
      assert init[0] == hits[0];
      assert init[1..] == tail[..|tail| - 1];
      assert tail[|tail| - 1] == hits[|hits| - 1];
      assert Gather(tail, f) == mid + last;
      assert Gather(hits, f) == (f(hits[0]) + mid) + last;
    }
  }

  /** The reference grouping read from the front. */
  lemma OfKindCons(hits: seq<Hit>, kind: string, parse: Parser)
    requires hits != []
    ensures OfKind(hits, kind, parse) == Own(hits[0], kind, parse) + OfKind(hits[1..], kind, parse)
  {
    GatherCons(hits, (h: Hit) => Own(h, kind, parse));
  }

  /** When grouping does not raise, each list holds exactly the tagged
      contents of the hits of its type, every one of them, in hit order. */
  lemma {:induction false} GroupHitsInOrder(hits: seq<Hit>, parse: Parser)
    ensures GroupHits(hits, parse).Some? ==>
      GroupHits(hits, parse).value
        == Groups(OfKind(hits, "finding", parse), OfKind(hits, "relationship", parse), OfKind(hits, "methodology", parse))
    decreases |hits|
  {
    if hits != [] && GroupHits(hits, parse).Some? {
      var rest := GroupHits(hits[1..], parse);
      var reading := ReadHit(hits[0], parse);
      assert rest.Some?;
      GroupHitsInOrder(hits[1..], parse);
      OfKindCons(hits, "finding", parse);
      OfKindCons(hits, "relationship", parse);
      OfKindCons(hits, "methodology", parse);
      if reading.Tagged? {
        FileRoutes(hits[0].embeddingType, reading.content, rest.value);
      }
    }
  }

  /** What holds of the tail carries over to the whole list. */
  lemma GroupStep(hits: seq<Hit>, parse: Parser, rest: Option<Groups>)
    requires hits != []
    requires rest.None? <==> AnyNotADict(hits[1..], parse)
    requires rest.Some? ==> && (forall c :: c in rest.value.findings ==> FromHit(hits[1..], "finding", c, parse))
                            && (forall c :: c in rest.value.relationships ==> FromHit(hits[1..], "relationship", c, parse))
                            && (forall c :: c in rest.value.methods ==> FromHit(hits[1..], "methodology", c, parse))
    ensures AnyNotADict(hits, parse) <==> ReadHit(hits[0], parse) == NotADict || AnyNotADict(hits[1..], parse)
    ensures forall kind, c :: FromHit(hits[1..], kind, c, parse) ==> FromHit(hits, kind, c, parse)
    ensures forall c :: ReadHit(hits[0], parse) == Tagged(c) ==> FromHit(hits, hits[0].embeddingType, c, parse)
  {
    if AnyNotADict(hits[1..], parse) {
      var i :| 0 <= i < |hits[1..]| && ReadHit(hits[1..][i], parse) == NotADict;
      assert hits[i + 1] == hits[1..][i];
    }
    if AnyNotADict(hits, parse) {
      var i :| 0 <= i < |hits| && ReadHit(hits[i], parse) == NotADict;
      if i > 0 {
        assert hits[1..][i - 1] == hits[i];
      }
    }
    forall kind, c | FromHit(hits[1..], kind, c, parse) ensures FromHit(hits, kind, c, parse) {
      var i :| 0 <= i < |hits[1..]| && hits[1..][i].embeddingType == kind && ReadHit(hits[1..][i], parse) == Tagged(c);
      assert hits[i + 1] == hits[1..][i];
    }
  }

  /** `"-" * 80`, `"=" * 80` */
  function Rule(c: char): (r: string)
    ensures |r| == 80 && forall i :: 0 <= i < |r| ==> r[i] == c
  {
    seq(80, _ => c)
  }

  /** One JSON document per line. */
  function ItemLines(items: seq<Json>, dumpUnicode: Printer): string {
    if items == [] then [] else dumpUnicode(items[0]) + "\n" + ItemLines(items[1..], dumpUnicode)
  }

  /** A titled section; all but the last are followed by a blank line. */
  function Section(title: string, items: seq<Json>, dumpUnicode: Printer, blankAfter: bool): string {
    title + ":\n" + DashRule + "\n" + ItemLines(items, dumpUnicode) + DashRule + "\n" + (if blankAfter then "\n" else "")
  }

  /** The context block: findings, relationships, then methodology, each
      only when it has entries. */
  function Context(g: Groups, dumpUnicode: Printer): (r: string)
    ensures StartsWith(r, ContextStart + "\n" + EqualsRule + "\n")
    ensures EndsWith(r, EqualsRule + "\n" + ContextEnd + "\n")
  {
    Frame((if g.findings != [] then Section(FindingsTitle, g.findings, dumpUnicode, true) else ""),
          (if g.relationships != [] then Section(RelationshipsTitle, g.relationships, dumpUnicode, true) else ""),
          (if g.methods != [] then Section(MethodologyTitle, g.methods, dumpUnicode, false) else ""))
  }

  /** A section as the block shows it: nothing for an empty list. */
  function Shown(title: string, items: seq<Json>, dumpUnicode: Printer, blankAfter: bool): string {
    if items == [] then "" else Section(title, items, dumpUnicode, blankAfter)
  }

  /** The block is its head, then the findings, relationships and
      methodology sections in that order, each left out when its list is
      empty, then its tail. */
  lemma ContextSections(g: Groups, dumpUnicode: Printer)
    ensures Context(g, dumpUnicode)
         == ContextHead
          + (Shown(FindingsTitle, g.findings, dumpUnicode, true)
             + Shown(RelationshipsTitle, g.relationships, dumpUnicode, true)
             + Shown(MethodologyTitle, g.methods, dumpUnicode, false))
          + ContextTail
  {
    var f := Shown(FindingsTitle, g.findings, dumpUnicode, true);
    var l := Shown(RelationshipsTitle, g.relationships, dumpUnicode, true);
    var m := Shown(MethodologyTitle, g.methods, dumpUnicode, false);
    assert Context(g, dumpUnicode) == Frame(f, l, m);
    FrameParts(f, l, m);
  }

  /** The frame is its head, the sections, and its tail. */
  lemma FrameParts(findings: string, relationships: string, methods: string)
    ensures Frame(findings, relationships, methods) == ContextHead + (findings + relationships + methods) + ContextTail
  {
  }

  const ContextHead: string := ContextStart + "\n" + EqualsRule + "\n"
  const ContextTail: string := EqualsRule + "\n" + ContextEnd + "\n"

  /** Every non-empty group appears as its whole titled section, with one
      line per entry in order, and the shown sections follow one another
      as findings, relationships, methodology. */
  lemma ContextShowsGroups(g: Groups, dumpUnicode: Printer)
    ensures var r := Context(g, dumpUnicode);
            var f := Shown(FindingsTitle, g.findings, dumpUnicode, true);
            var l := Shown(RelationshipsTitle, g.relationships, dumpUnicode, true);
            var m := Shown(MethodologyTitle, g.methods, dumpUnicode, false);
            && Contains(r, f + l + m)
            && (g.findings != [] ==> Contains(r, Section(FindingsTitle, g.findings, dumpUnicode, true)))
            && (g.relationships != [] ==> Contains(r, Section(RelationshipsTitle, g.relationships, dumpUnicode, true)))
            && (g.methods != [] ==> Contains(r, Section(MethodologyTitle, g.methods, dumpUnicode, false)))
  {
    ContextSections(g, dumpUnicode);
    Pieces(ContextHead,
           Shown(FindingsTitle, g.findings, dumpUnicode, true),
           Shown(RelationshipsTitle, g.relationships, dumpUnicode, true),
           Shown(MethodologyTitle, g.methods, dumpUnicode, false),
           ContextTail);
  }

  /** Each of the three middle parts of a five-part text, and the three
      together, occur in it. */
  lemma Pieces(head: string, f: string, l: string, m: string, tail: string)
    ensures var r := head + (f + l + m) + tail;
            Contains(r, f + l + m) && Contains(r, f) && Contains(r, l) && Contains(r, m)
  {
    var r := head + (f + l + m) + tail;
    ContainsMiddle(head, f + l + m, tail);
    assert r == head + f + (l + m + tail);
    ContainsMiddle(head, f, l + m + tail);
    assert r == (head + f) + l + (m + tail);
    ContainsMiddle(head + f, l, m + tail);
    assert r == (head + f + l) + m + tail;
    ContainsMiddle(head + f + l, m, tail);
  }

  /** A title's text can also come from an entry: a block with no findings
      section still contains `FINDINGS:` when a relationship prints as it.
      So the sections shown are told by the lists, not by a text search. */
  lemma TitleInsideEntry(x: Json)
    ensures var dumpUnicode := (j: Json) => FindingsTitle + ":";
            var g := Groups([], [x], []);
            g.findings == [] && Contains(Context(g, dumpUnicode), FindingsTitle + ":")
  {
    var dumpUnicode := (j: Json) => FindingsTitle + ":";
    var g := Groups([], [x], []);
    var t := FindingsTitle + ":";
    var head := ContextHead;
    var tail := ContextTail;
    var lead := RelationshipsTitle + ":\n" + DashRule + "\n";
    var rest := "\n" + DashRule + "\n" + "\n";
    assert ItemLines([x], dumpUnicode) == t + "\n" + ItemLines([], dumpUnicode);
    assert Section(RelationshipsTitle, [x], dumpUnicode, true) == lead + t + rest;
    ContextSections(g, dumpUnicode);
    assert Context(g, dumpUnicode) == (head + lead) + t + (rest + tail);
    ContainsMiddle(head + lead, t, rest + tail);
  }

  /** The start and end markers and rules around the sections. */
  function Frame(findings: string, relationships: string, methods: string): (r: string)
    ensures StartsWith(r, ContextStart + "\n" + EqualsRule + "\n")
    ensures EndsWith(r, EqualsRule + "\n" + ContextEnd + "\n")
  {
    var head := ContextStart + "\n" + EqualsRule + "\n";
    var tail := EqualsRule + "\n" + ContextEnd + "\n";
    var r := ContextStart + "\n" + EqualsRule + "\n" + findings + relationships + methods + EqualsRule + "\n" + ContextEnd + "\n";
    assert r == head + (findings + relationships + methods) + tail;
    assert r[..|head|] == head;
    assert r[|r| - |tail|..] == tail;
    r
  }

  const EqualsRule: string := Rule('=')
  const DashRule: string := Rule('-')
  const ContextStart: string := "[CONTEXT START]"
  const ContextEnd: string := "[CONTEXT END]"
  const FindingsTitle: string := "FINDINGS"
  const RelationshipsTitle: string := "RELATIONSHIPS"
  const MethodologyTitle: string := "METHODOLOGY"

  /** Number of line breaks in a text. */
  function Newlines(s: string): nat {
    if s == [] then 0 else (if s[0] == '\n' then 1 else 0) + Newlines(s[1..])
  }

  lemma {:induction false} NewlinesAppend(a: string, b: string)
    ensures Newlines(a + b) == Newlines(a) + Newlines(b)
  {
    if a == [] {
      assert a + b == b;
    } else {
      assert (a + b)[1..] == a[1..] + b;
      NewlinesAppend(a[1..], b);
    }
  }

  lemma {:induction false} NoNewlines(s: string)
    requires '\n' !in s
    ensures Newlines(s) == 0
  {
    if s != [] {
      assert s[0] != '\n';
      NoNewlines(s[1..]);
    }
  }

  /** A text without line breaks, then a newline, is one line. */
  lemma OneNewline(s: string)
    requires '\n' !in s
    ensures Newlines(s + "\n") == 1
  {
    NewlinesAppend(s, "\n");
    NoNewlines(s);
    assert "\n"[1..] == [];
  }

  lemma {:induction false} ItemLinesNewlines(items: seq<Json>, dumpUnicode: Printer)
    requires forall j :: '\n' !in dumpUnicode(j)
    ensures Newlines(ItemLines(items, dumpUnicode)) == |items|
  {
    if items != [] {
      ItemLinesNewlines(items[1..], dumpUnicode);
      OneNewline(dumpUnicode(items[0]));
      NewlinesAppend(dumpUnicode(items[0]) + "\n", ItemLines(items[1..], dumpUnicode));
    }
  }

  lemma SectionNewlines(title: string, items: seq<Json>, dumpUnicode: Printer, blankAfter: bool)
    requires '\n' !in title
    requires forall j :: '\n' !in dumpUnicode(j)
    ensures Newlines(Section(title, items, dumpUnicode, blankAfter)) == |items| + (if blankAfter then 4 else 3)
  {
    LabelsAreOneLine();
    var body := ItemLines(items, dumpUnicode);
    var blank: string := if blankAfter then "\n" else "";
    var nb := if blankAfter then 1 else 0;
    assert Newlines(title + ":") == 0 by { assert '\n' !in title + ":"; NoNewlines(title + ":"); }
    assert Newlines(DashRule) == 0 by { NoNewlines(DashRule); }
    assert Newlines(body) == |items| by { ItemLinesNewlines(items, dumpUnicode); }
    assert Newlines(blank) == nb;
    var x1 := title + ":\n";
    assert Newlines(x1) == 1 by { NewlinesAppend(title + ":", "\n"); assert title + ":\n" == title + ":" + "\n"; }
    var x2 := x1 + DashRule;
    assert Newlines(x2) == 1 by { NewlinesAppend(x1, DashRule); }
    var x3 := x2 + "\n";
    assert Newlines(x3) == 2 by { NewlinesAppend(x2, "\n"); }
    var x4 := x3 + body;
    assert Newlines(x4) == 2 + |items| by { NewlinesAppend(x3, body); }
    var x5 := x4 + DashRule;
    assert Newlines(x5) == 2 + |items| by { NewlinesAppend(x4, DashRule); }
    var x6 := x5 + "\n";
    assert Newlines(x6) == 3 + |items| by { NewlinesAppend(x5, "\n"); }
    var x7 := x6 + blank;
    assert Newlines(x7) == 3 + |items| + nb by { NewlinesAppend(x6, blank); }
  }

  /** Every grouped entry takes one line of the context, and the frame
      takes four, plus three or four for each section shown. */
  lemma ContextNewlines(g: Groups, dumpUnicode: Printer)
    requires forall j :: '\n' !in dumpUnicode(j)
    ensures Newlines(Context(g, dumpUnicode))
         == 4 + |g.findings| + |g.relationships| + |g.methods|
              + (if g.findings != [] then 4 else 0)
              + (if g.relationships != [] then 4 else 0)
              + (if g.methods != [] then 3 else 0)
  {
    LabelsAreOneLine();
    var f := if g.findings != [] then Section(FindingsTitle, g.findings, dumpUnicode, true) else "";
    var r := if g.relationships != [] then Section(RelationshipsTitle, g.relationships, dumpUnicode, true) else "";
    var m := if g.methods != [] then Section(MethodologyTitle, g.methods, dumpUnicode, false) else "";
    if g.findings != [] { SectionNewlines(FindingsTitle, g.findings, dumpUnicode, true); }
    if g.relationships != [] { SectionNewlines(RelationshipsTitle, g.relationships, dumpUnicode, true); }
    if g.methods != [] { SectionNewlines(MethodologyTitle, g.methods, dumpUnicode, false); }
    FrameNewlines(f, r, m);
  }

  /** The frame adds four lines to the sections. */
  lemma FrameNewlines(f: string, r: string, m: string)
    ensures Newlines(Frame(f, r, m)) == 4 + Newlines(f) + Newlines(r) + Newlines(m)
  {
    LabelsAreOneLine();
    FramedNewlines(ContextStart, EqualsRule, ContextEnd, f, r, m);
  }

  lemma FramedNewlines(start: string, rule: string, end: string, f: string, r: string, m: string)
    requires '\n' !in start && '\n' !in rule && '\n' !in end
    ensures Newlines(start + "\n" + rule + "\n" + f + r + m + rule + "\n" + end + "\n")
         == 4 + Newlines(f) + Newlines(r) + Newlines(m)
  {
    var nf, nr, nm := Newlines(f), Newlines(r), Newlines(m);
    NoNewlines(start);
    NoNewlines(rule);
    NoNewlines(end);
    var x1 := start + "\n";
    assert Newlines(x1) == 1 by { NewlinesAppend(start, "\n"); }
    var x2 := x1 + rule;
    assert Newlines(x2) == 1 by { NewlinesAppend(x1, rule); }
    var x3 := x2 + "\n";
    assert Newlines(x3) == 2 by { NewlinesAppend(x2, "\n"); }
    var x4 := x3 + f;
    assert Newlines(x4) == 2 + nf by { NewlinesAppend(x3, f); }
    var x5 := x4 + r;
    assert Newlines(x5) == 2 + nf + nr by { NewlinesAppend(x4, r); }
    var x6 := x5 + m;
    assert Newlines(x6) == 2 + nf + nr + nm by { NewlinesAppend(x5, m); }
    var x7 := x6 + rule;
    assert Newlines(x7) == 2 + nf + nr + nm by { NewlinesAppend(x6, rule); }
    var x8 := x7 + "\n";
    assert Newlines(x8) == 3 + nf + nr + nm by { NewlinesAppend(x7, "\n"); }
    var x9 := x8 + end;
    assert Newlines(x9) == 3 + nf + nr + nm by { NewlinesAppend(x8, end); }
    var x10 := x9 + "\n";
    assert Newlines(x10) == 4 + nf + nr + nm by { NewlinesAppend(x9, "\n"); }
  }

  lemma LabelsAreOneLine()
    ensures '\n' !in ContextStart && '\n' !in ContextEnd
    ensures '\n' !in FindingsTitle && '\n' !in RelationshipsTitle && '\n' !in MethodologyTitle
    ensures '\n' !in EqualsRule && '\n' !in DashRule
  {
  }

  /** What the context step ends in: no context, a context block, or an
      exception that turns the whole reply into an apology. */
  datatype ContextResult = NoContext | Built(text: string) | Raised

  /** The context step of `get_response`. */
  function BuildContext(db: Option<Db>, query: string, env: BotEnv): (r: ContextResult)
    ensures db.None? ==> r == NoContext
    ensures !r.NoContext? ==> db.Some? && exists h :: h in Search(db.value.store, query, TopK, None, db.value.env) && h.similarity >= MinSimilarity
    ensures r.Built? ==> StartsWith(r.text, ContextStart + "\n" + EqualsRule + "\n")
  {
    if db.None? then NoContext
    else ContextOf(Search(db.value.store, query, TopK, None, db.value.env), env)
  }

  /** The context step once the search has answered. */
  function ContextOf(results: seq<Hit>, env: BotEnv): (r: ContextResult)
    ensures !r.NoContext? ==> exists h :: h in results && h.similarity >= MinSimilarity
    ensures r.Built? ==> StartsWith(r.text, ContextStart + "\n" + EqualsRule + "\n")
  {
    if results == [] then NoContext
    else
      var relevant := Relevant(results);
      if relevant == [] then NoContext
      else
        assert relevant[0] in relevant;
        match GroupHits(relevant, env.parse)
        case None => Raised
        case Some(g) => Built(Context(g, env.dumpUnicode))
  }

  /** Some hit reaches the floor exactly when the relevant list is not
      empty: the bot's sort loses no hit. */
  lemma RelevantNonEmpty(results: seq<Hit>)
    ensures Relevant(results) != [] <==> exists h :: h in results && h.similarity >= MinSimilarity
  {
    var sorted := SortBy(results, NegSimilarity);
    forall h ensures h in sorted <==> h in results {
      assert h in multiset(sorted) <==> h in multiset(results);
    }
    var relevant := Relevant(results);
    if relevant != [] {
      assert relevant[0] in relevant;
      assert relevant[0] in results && relevant[0].similarity >= MinSimilarity;
    }
    if exists h :: h in results && h.similarity >= MinSimilarity {
      var h :| h in results && h.similarity >= MinSimilarity;
      assert h in relevant;
    }
  }

  /** A context is built exactly when one of the hits reaches the floor
      and none of those that do holds JSON that is not a dictionary; a
      context with no readable entry still counts. */
  lemma ContextOfRelevant(results: seq<Hit>, env: BotEnv)
    ensures ContextOf(results, env).Built? <==>
      (exists h :: h in results && h.similarity >= MinSimilarity) && !AnyNotADict(Relevant(results), env.parse)
    ensures ContextOf(results, env).Raised? <==> AnyNotADict(Relevant(results), env.parse)
  {
    RelevantNonEmpty(results);
    if results == [] {
      assert !exists h :: h in results && h.similarity >= MinSimilarity;
    }
    if Relevant(results) == [] {
      assert !AnyNotADict(Relevant(results), env.parse);
    }
  }

  /** With a store, the bot's context is what the search results give;
      without one there is never a context. */
  lemma ContextWhenRelevant(db: Option<Db>, query: string, env: BotEnv)
    ensures db.None? ==> BuildContext(db, query, env) == NoContext
    ensures BuildContext(db, query, env).Built? <==>
      && db.Some?
      && (exists h :: h in Search(db.value.store, query, TopK, None, db.value.env) && h.similarity >= MinSimilarity)
      && !AnyNotADict(Relevant(Search(db.value.store, query, TopK, None, db.value.env)), env.parse)
  {
    if db.Some? {
      ContextOfRelevant(Search(db.value.store, query, TopK, None, db.value.env), env);
    }
  }

  /** The prompt handed to the language model. */
  function Prompt(systemPrompt: string, query: string, context: ContextResult): (r: string)
    ensures StartsWith(r, systemPrompt + "\n\n" + "CURRENT QUERY: " + query + "\n")
    ensures EndsWith(r, "\n" + AnswerLabel)
    ensures Contains(r, if context.Built? && context.text != "" then context.text else NoSourcesText)
  {
    var head := systemPrompt + "\n\n" + "CURRENT QUERY: " + query + "\n";
    var info := if context.Built? && context.text != "" then context.text else NoSourcesText;
    Parts(head, "AVAILABLE INFORMATION:\n", info, "\n" + AnswerLabel);
    head + "AVAILABLE INFORMATION:\n" + info + ("\n" + AnswerLabel)
  }

  const AnswerLabel: string := "DR. SEDMAN'S RESPONSE: "

  /** A text made of four parts starts with the first, ends with the last
      and contains the third. */
  lemma Parts(a: string, b: string, c: string, d: string)
    ensures StartsWith(a + b + c + d, a) && EndsWith(a + b + c + d, d) && Contains(a + b + c + d, c)
  {
    var r := a + b + c + d;
    assert r[..|a|] == a;
    assert r[|r| - |d|..] == d;
    ContainsMiddle(a + b, c, d);
  }

  function ErrorReply(message: string): string {
    ErrorPrefix + message + Stop
  }

  /** `get_response(query)`. The model is asked even when there is no
      context, and its failure is reported even then. */
  function GetResponse(db: Option<Db>, query: string, env: BotEnv): (r: string)
    ensures EndsWith(r, " <STOP>")
    ensures BuildContext(db, query, env).Raised? ==> r == ErrorReply(env.errorMessage)
    ensures BuildContext(db, query, env).NoContext? && env.generate(Prompt(env.systemPrompt, query, NoContext)).Some? ==>
      r == NoSourcesReply
    ensures BuildContext(db, query, env).Built? ==>
      (r == ErrorReply(env.errorMessage) || exists answer :: r == answer + Stop)
  {
    var context := BuildContext(db, query, env);
    if context.Raised? then ErrorReply(env.errorMessage)
    else
      match env.generate(Prompt(env.systemPrompt, query, context))
      case None => ErrorReply(env.errorMessage)
      case Some(answer) => if context.NoContext? then NoSourcesReply else answer + Stop
  }

  /** A failed generation gives the apology whether or not there is a
      context; a successful one with a context gives the answer marked with
      `<STOP>`. */
  lemma GenerationOutcome(db: Option<Db>, query: string, env: BotEnv)
    ensures var context := BuildContext(db, query, env);
            var answer := env.generate(Prompt(env.systemPrompt, query, context));
            && (!context.Raised? && answer.None? ==> GetResponse(db, query, env) == ErrorReply(env.errorMessage))
            && (context.Built? && answer.Some? ==> GetResponse(db, query, env) == answer.value + Stop)
  {
  }

  /** With a context, the reply is the model's answer to a prompt carrying
      that context, marked with `<STOP>`. */
  lemma AnswerCarriesContext(db: Option<Db>, query: string, env: BotEnv)
    requires BuildContext(db, query, env).Built?
    requires env.generate(Prompt(env.systemPrompt, query, BuildContext(db, query, env))).Some?
    ensures GetResponse(db, query, env)
         == env.generate(Prompt(env.systemPrompt, query, BuildContext(db, query, env))).value + Stop
    ensures var ctx := BuildContext(db, query, env).text;
            ctx != [] && Contains(Prompt(env.systemPrompt, query, BuildContext(db, query, env)), ctx)
  {
    var context := BuildContext(db, query, env);
    assert StartsWith(context.text, ContextStart + "\n" + EqualsRule + "\n");
  }

}
