/** A concrete printer and parser for `JsonModel.Json` that read each other
    back. They witness that `JsonModel.RoundTrips` can be met, so the lemmas
    that assume it speak of real parser/printer pairs. The format is a prefix
    code over a dozen ASCII letters and signs rather than JSON text: what
    matters is only that such a pair exists. */
module JsonCodec {
  import opened Wrappers
  import opened JsonModel

  /** A natural number in unary: `n` ones and a full stop. */
  function Nat(n: nat): string
    decreases n
  {
    if n == 0 then "." else "1" + Nat(n - 1)
  }

  function ReadNat(s: string): (r: Option<(nat, string)>)
    ensures r.Some? ==> |r.value.1| < |s|
    decreases |s|
  {
    if s == [] then None
    else if s[0] == '.' then Some((0, s[1..]))
    else if s[0] == '1' then
      var r := ReadNat(s[1..]);
      if r.None? then None else Some((r.value.0 + 1, r.value.1))
    else None
  }

  lemma {:induction false} ReadNatOf(n: nat, rest: string)
    ensures ReadNat(Nat(n) + rest) == Some((n, rest))
    decreases n
  {
    if n == 0 {
      assert (Nat(0) + rest)[1..] == rest;
    } else {
      assert Nat(n) + rest == "1" + (Nat(n - 1) + rest);
      ReadNatOf(n - 1, rest);
    }
  }

  /** A character as its code point. */
  function Char(c: char): string {
    Nat(c as int)
  }

  function ReadChar(s: string): (r: Option<(char, string)>)
    ensures r.Some? ==> |r.value.1| < |s|
  {
    var r := ReadNat(s);
    if r.None? then None
    else
      var n := r.value.0;
      if n < 0xD800 || 0xE000 <= n < 0x11_0000 then Some((n as char, r.value.1)) else None
  }

  function Chars(s: string): string
    decreases |s|
  {
    if s == [] then [] else Char(s[0]) + Chars(s[1..])
  }

  function ReadChars(n: nat, s: string): (r: Option<(string, string)>)
    ensures r.Some? ==> |r.value.1| <= |s|
    decreases n
  {
    if n == 0 then Some(([], s))
    else
      var head := ReadChar(s);
      if head.None? then None
      else
        var tail := ReadChars(n - 1, head.value.1);
        if tail.None? then None
        else Some(([head.value.0] + tail.value.0, tail.value.1))
  }

  lemma {:induction false} ReadCharsOf(s: string, rest: string)
    ensures ReadChars(|s|, Chars(s) + rest) == Some((s, rest))
    decreases |s|
  {
    if s != [] {
      assert Chars(s) + rest == Nat(s[0] as int) + (Chars(s[1..]) + rest);
      ReadNatOf(s[0] as int, Chars(s[1..]) + rest);
      var x := Chars(s) + rest;
      assert ReadChar(x) == Some((s[0], Chars(s[1..]) + rest));
      ReadCharsOf(s[1..], rest);
      assert ReadChars(|s| - 1, Chars(s[1..]) + rest) == Some((s[1..], rest));
      assert [s[0]] + s[1..] == s;
      assert ReadChars(|s|, x) == Some(([s[0]] + s[1..], rest));
    } else {
      assert Chars(s) + rest == rest;
    }
  }

  /** A string: its length, then its characters. */
  function Text(s: string): string {
    Nat(|s|) + Chars(s)
  }

  function ReadText(s: string): (r: Option<(string, string)>)
    ensures r.Some? ==> |r.value.1| < |s|
  {
    var r := ReadNat(s);
    if r.None? then None else ReadChars(r.value.0, r.value.1)
  }

  lemma ReadTextOf(s: string, rest: string)
    ensures ReadText(Text(s) + rest) == Some((s, rest))
  {
    assert Text(s) + rest == Nat(|s|) + (Chars(s) + rest);
    ReadNatOf(|s|, Chars(s) + rest);
    ReadCharsOf(s, rest);
  }

  function Int(i: int): string {
    if i >= 0 then "+" + Nat(i) else "-" + Nat(-i)
  }

  function ReadInt(s: string): (r: Option<(int, string)>)
    ensures r.Some? ==> |r.value.1| < |s|
  {
    if s == [] || (s[0] != '+' && s[0] != '-') then None
    else
      var r := ReadNat(s[1..]);
      if r.None? then None
      else
        var n: int := r.value.0;
        Some((if s[0] == '+' then n else -n, r.value.1))
  }

  lemma ReadIntOf(i: int, rest: string)
    ensures ReadInt(Int(i) + rest) == Some((i, rest))
  {
    if i >= 0 {
      assert Int(i) + rest == "+" + (Nat(i) + rest);
      ReadNatOf(i, rest);
    } else {
      assert Int(i) + rest == "-" + (Nat(-i) + rest);
      ReadNatOf(-i, rest);
    }
  }

  /** The keys of a map, each once, in some fixed order. */
  ghost function Keys(m: map<string, Json>): (ks: seq<string>)
    ensures forall k :: k in ks <==> k in m
    ensures |ks| == |m|
    decreases |m|
  {
    if m == map[] then []
    else
      var k :| k in m;
      assert |m - {k}| == |m| - 1;
      [k] + Keys(m - {k})
  }

  ghost function Dump(j: Json): string
    decreases j, 1, 0
  {
    match j
    case JNull => "n"
    case JBool(b) => if b then "t" else "f"
    case JInt(i) => "i" + Int(i)
    case JFloat(repr) => "d" + Text(repr)
    case JStr(s) => "s" + Text(s)
    case JArr(items) => "a" + Nat(|items|) + DumpItems(items, 0)
    case JObj(fields) => "o" + Nat(|fields|) + DumpPairs(Keys(fields), fields)
  }

  ghost function DumpItems(items: seq<Json>, i: nat): string
    requires i <= |items|
    decreases JArr(items), 0, |items| - i
  {
    if i == |items| then [] else Dump(items[i]) + DumpItems(items, i + 1)
  }

  ghost function DumpPairs(ks: seq<string>, m: map<string, Json>): string
    requires forall k :: k in ks ==> k in m
    decreases JObj(m), 0, |ks|
  {
    if ks == [] then [] else Text(ks[0]) + Dump(m[ks[0]]) + DumpPairs(ks[1..], m)
  }

  function ParseAt(s: string): (r: Option<(Json, string)>)
    ensures r.Some? ==> |r.value.1| < |s|
    decreases |s|, 0, 0
  {
    if s == [] then None
    else if s[0] == 'a' then ParseArr(s[1..])
    else if s[0] == 'o' then ParseObj(s[1..])
    else ParseScalar(s[0], s[1..])
  }

  /** A value that holds no other value, after its tag. */
  function ParseScalar(tag: char, t: string): (r: Option<(Json, string)>)
    ensures r.Some? ==> |r.value.1| <= |t|
  {
    if tag == 'n' then Some((JNull, t))
    else if tag == 't' then Some((JBool(true), t))
    else if tag == 'f' then Some((JBool(false), t))
    else if tag == 'i' then
      var r := ReadInt(t);
      if r.None? then None else Some((JInt(r.value.0), r.value.1))
    else if tag == 'd' then
      var r := ReadText(t);
      if r.None? then None else Some((JFloat(r.value.0), r.value.1))
    else if tag == 's' then
      var r := ReadText(t);
      if r.None? then None else Some((JStr(r.value.0), r.value.1))
    else None
  }

  function ParseArr(t: string): (r: Option<(Json, string)>)
    ensures r.Some? ==> |r.value.1| <= |t|
    decreases |t|, 2, 0
  {
    var n := ReadNat(t);
    if n.None? then None
    else
      var items := ParseItems(n.value.0, n.value.1);
      if items.None? then None else Some((JArr(items.value.0), items.value.1))
  }

  function ParseObj(t: string): (r: Option<(Json, string)>)
    ensures r.Some? ==> |r.value.1| <= |t|
    decreases |t|, 2, 0
  {
    var n := ReadNat(t);
    if n.None? then None
    else
      var fields := ParsePairs(n.value.0, n.value.1);
      if fields.None? then None else Some((JObj(fields.value.0), fields.value.1))
  }

  function ParseItems(n: nat, s: string): (r: Option<(seq<Json>, string)>)
    ensures r.Some? ==> |r.value.1| <= |s|
    decreases |s|, 1, n
  {
    if n == 0 then Some(([], s))
    else
      var head := ParseAt(s);
      if head.None? then None
      else
        var tail := ParseItems(n - 1, head.value.1);
        if tail.None? then None else Some(([head.value.0] + tail.value.0, tail.value.1))
  }

  function ParsePairs(n: nat, s: string): (r: Option<(map<string, Json>, string)>)
    ensures r.Some? ==> |r.value.1| <= |s|
    decreases |s|, 1, n
  {
    if n == 0 then Some((map[], s))
    else
      var key := ReadText(s);
      if key.None? then None
      else
        var value := ParseAt(key.value.1);
        if value.None? then None
        else
          var tail := ParsePairs(n - 1, value.value.1);
          if tail.None? then None else Some((tail.value.0[key.value.0 := value.value.0], tail.value.1))
  }

  /** The whole text, an optional final line break aside, is one value. */
  function Parse(s: string): Option<Json> {
    var t := if s != [] && s[|s| - 1] == '\n' then s[..|s| - 1] else s;
    var r := ParseAt(t);
    if r.Some? && r.value.1 == [] then Some(r.value.0) else None
  }

  /** The map `m` cut down to the keys in `ks`. */
  ghost function Restrict(m: map<string, Json>, ks: seq<string>): map<string, Json>
    requires forall k :: k in ks ==> k in m
  {
    map k | k in ks :: m[k]
  }

  lemma {:induction false} ParseAtDump(j: Json, rest: string)
    ensures ParseAt(Dump(j) + rest) == Some((j, rest))
    decreases j, 1, 0
  {
    match j
    case JNull =>
    case JBool(b) =>
    case JInt(i) => ParseIntDump(i, rest);
    case JFloat(repr) => ParseTextDump('d', repr, rest);
    case JStr(str) => ParseTextDump('s', str, rest);
    case JArr(items) => ParseArrDump(items, rest);
    case JObj(fields) => ParseObjDump(fields, rest);
  }

  /** A tag, then a body, then whatever follows. */
  lemma AfterTag(tag: char, body: string, rest: string)
    ensures ([tag] + body + rest)[0] == tag
    ensures ([tag] + body + rest)[1..] == body + rest
  {
  }

  lemma ParseIntDump(i: int, rest: string)
    ensures ParseAt(Dump(JInt(i)) + rest) == Some((JInt(i), rest))
  {
    AfterTag('i', Int(i), rest);
    ReadIntOf(i, rest);
  }

  lemma ParseTextDump(tag: char, str: string, rest: string)
    requires tag == 'd' || tag == 's'
    ensures tag == 'd' ==> ParseAt(Dump(JFloat(str)) + rest) == Some((JFloat(str), rest))
    ensures tag == 's' ==> ParseAt(Dump(JStr(str)) + rest) == Some((JStr(str), rest))
  {
    AfterTag(tag, Text(str), rest);
    ReadTextOf(str, rest);
  }

  lemma {:induction false} ParseArrDump(items: seq<Json>, rest: string)
    ensures ParseAt(Dump(JArr(items)) + rest) == Some((JArr(items), rest))
    decreases JArr(items), 0, |items| + 1
  {
    var body := DumpItems(items, 0) + rest;
    assert Dump(JArr(items)) + rest == ['a'] + Nat(|items|) + body;
    AfterTag('a', Nat(|items|), body);
    ReadNatOf(|items|, body);
    ParseItemsDump(items, 0, rest);
    assert items[0..] == items;
  }

  lemma RestrictKeys(m: map<string, Json>)
    ensures Restrict(m, Keys(m)) == m
  {
  }

  lemma {:induction false} ParseObjDump(fields: map<string, Json>, rest: string)
    ensures ParseAt(Dump(JObj(fields)) + rest) == Some((JObj(fields), rest))
    decreases JObj(fields), 0, |fields| + 1
  {
    var ks := Keys(fields);
    var body := DumpPairs(ks, fields) + rest;
    assert Dump(JObj(fields)) + rest == ['o'] + Nat(|ks|) + body;
    AfterTag('o', Nat(|ks|), body);
    ReadNatOf(|ks|, body);
    ParsePairsDump(ks, fields, rest);
    RestrictKeys(fields);
  }

  lemma ParseItemsCons(n: nat, s: string, j: Json, mid: string, items: seq<Json>, rest: string)
    requires n > 0
    requires ParseAt(s) == Some((j, mid))
    requires ParseItems(n - 1, mid) == Some((items, rest))
    ensures ParseItems(n, s) == Some(([j] + items, rest))
  {
  }

  lemma {:induction false} ParseItemsDump(items: seq<Json>, i: nat, rest: string)
    requires i <= |items|
    ensures ParseItems(|items| - i, DumpItems(items, i) + rest) == Some((items[i..], rest))
    decreases JArr(items), 0, |items| - i
  {
    if i < |items| {
      var tail := DumpItems(items, i + 1) + rest;
      assert DumpItems(items, i) + rest == Dump(items[i]) + tail;
      ParseAtDump(items[i], tail);
      ParseItemsDump(items, i + 1, rest);
      ParseItemsCons(|items| - i, Dump(items[i]) + tail, items[i], tail, items[i + 1..], rest);
      assert [items[i]] + items[i + 1..] == items[i..];
    } else {
      assert DumpItems(items, i) + rest == rest;
      assert items[i..] == [];
    }
  }

  lemma ParsePairsCons(n: nat, s: string, k: string, mid: string, v: Json, mid': string,
                       m: map<string, Json>, rest: string)
    requires n > 0
    requires ReadText(s) == Some((k, mid))
    requires ParseAt(mid) == Some((v, mid'))
    requires ParsePairs(n - 1, mid') == Some((m, rest))
    ensures ParsePairs(n, s) == Some((m[k := v], rest))
  {
  }

  lemma RestrictCons(m: map<string, Json>, ks: seq<string>)
    requires ks != [] && forall k :: k in ks ==> k in m
    ensures Restrict(m, ks[1..])[ks[0] := m[ks[0]]] == Restrict(m, ks)
  {
  }

  lemma DumpPairsCons(ks: seq<string>, m: map<string, Json>, rest: string)
    requires ks != [] && forall k :: k in ks ==> k in m
    ensures DumpPairs(ks, m) + rest == Text(ks[0]) + (Dump(m[ks[0]]) + (DumpPairs(ks[1..], m) + rest))
  {
  }

  lemma {:induction false} ParsePairsDump(ks: seq<string>, m: map<string, Json>, rest: string)
    requires forall k :: k in ks ==> k in m
    ensures ParsePairs(|ks|, DumpPairs(ks, m) + rest) == Some((Restrict(m, ks), rest))
    decreases JObj(m), 0, |ks|
  {
    if ks != [] {
      var k := ks[0];
      var tail := DumpPairs(ks[1..], m) + rest;
      DumpPairsCons(ks, m, rest);
      ReadTextOf(k, Dump(m[k]) + tail);
      ParseAtDump(m[k], tail);
      ParsePairsDump(ks[1..], m, rest);
      ParsePairsCons(|ks|, DumpPairs(ks, m) + rest, k, Dump(m[k]) + tail, m[k], tail, Restrict(m, ks[1..]), rest);
      RestrictCons(m, ks);
    } else {
      assert DumpPairs(ks, m) + rest == rest;
      assert Restrict(m, ks) == map[];
    }
  }

  /** Every character the printer emits is one of the code's letters and
      signs; in particular there is no line break. */
  ghost predicate Plain(s: string) {
    '\n' !in s && '\r' !in s
  }

  lemma {:induction false} PlainNat(n: nat)
    ensures Plain(Nat(n))
    decreases n
  {
    if n > 0 { PlainNat(n - 1); }
  }

  lemma {:induction false} PlainChars(s: string)
    ensures Plain(Chars(s))
    decreases |s|
  {
    if s != [] {
      PlainNat(s[0] as int);
      PlainChars(s[1..]);
    }
  }

  lemma PlainText(s: string)
    ensures Plain(Text(s))
  {
    PlainNat(|s|);
    PlainChars(s);
  }

  lemma {:induction false} PlainDump(j: Json)
    ensures Plain(Dump(j))
    decreases j, 1, 0
  {
    match j
    case JNull =>
    case JBool(b) =>
    case JInt(i) => PlainNat(if i >= 0 then i else -i);
    case JFloat(repr) => PlainText(repr);
    case JStr(str) => PlainText(str);
    case JArr(items) =>
      PlainNat(|items|);
      PlainItems(items, 0);
    case JObj(fields) =>
      PlainNat(|fields|);
      PlainPairs(Keys(fields), fields);
  }

  lemma {:induction false} PlainItems(items: seq<Json>, i: nat)
    requires i <= |items|
    ensures Plain(DumpItems(items, i))
    decreases JArr(items), 0, |items| - i
  {
    if i < |items| {
      PlainDump(items[i]);
      PlainItems(items, i + 1);
    }
  }

  lemma {:induction false} PlainPairs(ks: seq<string>, m: map<string, Json>)
    requires forall k :: k in ks ==> k in m
    ensures Plain(DumpPairs(ks, m))
    decreases JObj(m), 0, |ks|
  {
    if ks != [] {
      PlainText(ks[0]);
      PlainDump(m[ks[0]]);
      PlainPairs(ks[1..], m);
    }
  }

  /** The printer and parser above read each other back, with or without a
      final line break, and the printer never breaks a line. */
  lemma RoundTripsMet()
    ensures RoundTrips(Parse, Dump)
  {
    forall j: Json
      ensures && Parse(Dump(j)) == Some(j)
              && Parse(Dump(j) + "\n") == Some(j)
              && '\n' !in Dump(j)
              && '\r' !in Dump(j)
    {
      PlainDump(j);
      ParseAtDump(j, []);
      assert Dump(j) + [] == Dump(j);
      var s := Dump(j) + "\n";
      assert s[..|s| - 1] == Dump(j);
    }
  }
}
