/** The multi-valued, case-folded store the handler fills: keys, appended values, lookups. */
module IniStore {
  import opened IniText

  function Lower(c: char): char { if 'A' <= c <= 'Z' then c - 'A' + 'a' else c }

  function LowerAll(s: string): (r: string)
    ensures |r| == |s|
  {
    seq(|s|, i requires 0 <= i < |s| => Lower(s[i]))
  }

  function MakeKey(section: string, name: string): string { LowerAll(section + "=" + name) }

  function KeyOf(e: Event): string { MakeKey(e.section, e.name) }

  /** One call of the handler. */
  function Handle(values: map<string, string>, e: Event): map<string, string> {
    var key := KeyOf(e);
    if key !in values then values[key := e.value]
    else values[key := values[key] + (if values[key] != "" && e.value != "" then "\n" else "") + e.value]
  }

  function Store(events: seq<Event>): map<string, string> {
    if events == [] then map[] else Handle(Store(events[..|events| - 1]), events[|events| - 1])
  }

  lemma StoreSnoc(events: seq<Event>, e: Event)
    ensures Store(events + [e]) == Handle(Store(events), e)
  {
    assert (events + [e])[..|events|] == events;
  }

  // ---------------------------------------------------------------- keys

  /** tolower on every character: the 26 capitals change, nothing else does. */
  lemma LowerExact(s: string)
    ensures forall i :: 0 <= i < |s| ==>
              LowerAll(s)[i] ==
                if 65 <= s[i] as int <= 90 then "abcdefghijklmnopqrstuvwxyz"[s[i] as int - 65] else s[i]
  {
  }

  lemma LowerAppend(a: string, b: string)
    ensures LowerAll(a + b) == LowerAll(a) + LowerAll(b)
  {
  }

  lemma NoSeparator(name: string)
    requires '=' !in name
    ensures '=' !in LowerAll(name)
  {
  }

  /** The text after the last '=' determines both halves. */
  lemma SplitAtLast(s1: string, n1: string, s2: string, n2: string)
    requires '=' !in n1 && '=' !in n2
    requires s1 + "=" + n1 == s2 + "=" + n2
    ensures s1 == s2 && n1 == n2
  {
    var k1, k2 := s1 + "=" + n1, s2 + "=" + n2;
    assert k1[|s1|] == '=' && forall i :: |s1| < i < |k1| ==> k1[i] == n1[i - |s1| - 1];
    assert k2[|s2|] == '=' && forall i :: |s2| < i < |k2| ==> k2[i] == n2[i - |s2| - 1];
    assert |s1| == |s2|;
    assert s1 == k1[..|s1|] && s2 == k2[..|s2|];
    assert n1 == k1[|s1| + 1..] && n2 == k2[|s2| + 1..];
  }

  /** A key stands for one section and one name, up to case, as long as names hold no '='.  Sections may. */
  lemma KeysDistinct(s1: string, n1: string, s2: string, n2: string)
    requires '=' !in n1 && '=' !in n2
    ensures MakeKey(s1, n1) == MakeKey(s2, n2) <==> LowerAll(s1) == LowerAll(s2) && LowerAll(n1) == LowerAll(n2)
  {
    LowerAppend(s1 + "=", n1);
    LowerAppend(s1, "=");
    LowerAppend(s2 + "=", n2);
    LowerAppend(s2, "=");
    NoSeparator(n1);
    NoSeparator(n2);
    assert LowerAll("=") == "=";
    if MakeKey(s1, n1) == MakeKey(s2, n2) {
      SplitAtLast(LowerAll(s1), LowerAll(n1), LowerAll(s2), LowerAll(n2));
    }
  }

  /** The condition on names is needed: what stands before a separator in a name may as well stand behind one in
      the section. */
  lemma SeparatorShifts(section: string, a: string, b: string)
    ensures MakeKey(section, a + "=" + b) == MakeKey(section + "=" + a, b)
    ensures LowerAll(section + "=" + a) != LowerAll(section)
  {
    assert section + "=" + (a + "=" + b) == section + "=" + a + "=" + b;
    assert |LowerAll(section + "=" + a)| > |LowerAll(section)|;
  }

  /** Where the last '=' is, |s| if nowhere. */
  function LastSeparator(s: string): (i: nat)
    ensures i <= |s|
    ensures i < |s| ==> s[i] == '=' && '=' !in s[i + 1..]
    ensures i == |s| ==> '=' !in s
  {
    if s == [] then 0
    else
      var n := |s| - 1;
      if s[n] == '=' then n
      else
        var i := LastSeparator(s[..n]);
        assert s == s[..n] + [s[n]];
        if i == n then |s| else (assert s[i + 1..] == s[..n][i + 1..] + [s[n]]; i)
  }

  /** The section and the '='-free name that have the same key as the asked ones. */
  function Resolve(section: string, name: string): (string, string) {
    var i := LastSeparator(name);
    if i == |name| then (section, name) else (section + "=" + name[..i], name[i + 1..])
  }

  lemma ResolveKey(section: string, name: string)
    ensures var (s, n) := Resolve(section, name); '=' !in n && MakeKey(section, name) == MakeKey(s, n)
    ensures '=' in name ==> LowerAll(Resolve(section, name).0) != LowerAll(section)
  {
    var i := LastSeparator(name);
    if i < |name| {
      assert name == name[..i] + "=" + name[i + 1..];
      SeparatorShifts(section, name[..i], name[i + 1..]);
    }
  }

  /** A name asked for stands for its own section and name only, among the names that can occur, exactly when it
      holds no '='. */
  lemma LookupExactIff(section: string, name: string)
    ensures (forall s, n :: '=' !in n && MakeKey(s, n) == MakeKey(section, name) ==>
                              LowerAll(s) == LowerAll(section) && LowerAll(n) == LowerAll(name))
            <==> '=' !in name
  {
    if '=' in name {
      ResolveKey(section, name);
      var (s, n) := Resolve(section, name);
      assert '=' !in n && MakeKey(s, n) == MakeKey(section, name) && LowerAll(s) != LowerAll(section);
    } else {
      forall s, n | '=' !in n && MakeKey(s, n) == MakeKey(section, name)
        ensures LowerAll(s) == LowerAll(section) && LowerAll(n) == LowerAll(name)
      {
        KeysDistinct(s, n, section, name);
      }
    }
  }

  // ---------------------------------------------------------------- values

  function ValuesFor(events: seq<Event>, key: string): seq<string> {
    if events == [] then []
    else
      var n := |events| - 1;
      ValuesFor(events[..n], key) + (if KeyOf(events[n]) == key then [events[n].value] else [])
  }

  function NonEmpty(vs: seq<string>): seq<string> {
    if vs == [] then []
    else NonEmpty(vs[..|vs| - 1]) + (if vs[|vs| - 1] == "" then [] else [vs[|vs| - 1]])
  }

  function Join(vs: seq<string>): string {
    if vs == [] then ""
    else if |vs| == 1 then vs[0]
    else Join(vs[..|vs| - 1]) + "\n" + vs[|vs| - 1]
  }

  function Split(s: string): (r: seq<string>)
    ensures r != []
    decreases |s|
  {
    var e := Find(s, "\n");
    if e == |s| then [s] else [s[..e]] + Split(s[e + 1..])
  }

  lemma {:induction false} NonEmptyNone(vs: seq<string>)
    ensures forall i :: 0 <= i < |NonEmpty(vs)| ==> NonEmpty(vs)[i] != ""
  {
    if vs != [] { NonEmptyNone(vs[..|vs| - 1]); }
  }

  lemma NonEmptySnoc(vs: seq<string>, v: string)
    ensures NonEmpty(vs + [v]) == if v == "" then NonEmpty(vs) else NonEmpty(vs) + [v]
  {
    assert (vs + [v])[..|vs|] == vs;
  }

  /** Joined non-empty values are empty only when there are none, so appending one more is a join. */
  lemma JoinSnoc(vs: seq<string>, v: string)
    requires forall i :: 0 <= i < |vs| ==> vs[i] != ""
    ensures Join(vs) == "" <==> vs == []
    ensures Join(vs + [v]) == if vs == [] then v else Join(vs) + "\n" + v
  {
    assert (vs + [v])[..|vs|] == vs;
  }

  /** What one more value does to the joined text is what the handler does. */
  lemma JoinStep(vs: seq<string>, v: string)
    ensures var was := Join(NonEmpty(vs));
            Join(NonEmpty(vs + [v])) == was + (if was != "" && v != "" then "\n" else "") + v
  {
    NonEmptySnoc(vs, v);
    NonEmptyNone(vs);
    JoinSnoc(NonEmpty(vs), v);
  }

  /** A key is present exactly when an event carries it, and its value is the newline-join of that key's
      non-empty values in file order. */
  lemma {:induction false} StoredValue(events: seq<Event>, key: string)
    ensures key in Store(events) <==> ValuesFor(events, key) != []
    ensures key in Store(events) ==> Store(events)[key] == Join(NonEmpty(ValuesFor(events, key)))
    decreases |events|
  {
    if events != [] {
      var n := |events| - 1;
      StoredValue(events[..n], key);
      if KeyOf(events[n]) == key {
        JoinStep(ValuesFor(events[..n], key), events[n].value);
      } else {
        assert ValuesFor(events, key) == ValuesFor(events[..n], key);
      }
    }
  }

  predicate OneLine(v: string) { v != "" && '\n' !in v }
  predicate AllOneLine(vs: seq<string>) { forall i :: 0 <= i < |vs| ==> OneLine(vs[i]) }

  lemma {:induction false} SplitHead(v: string, rest: string)
    requires '\n' !in v
    ensures Split(v + "\n" + rest) == [v] + Split(rest)
  {
    var s := v + "\n" + rest;
    FindFirst(s, "\n", |v|);
    assert s[..|v|] == v && s[|v| + 1..] == rest;
  }

  lemma {:induction false} JoinHead(vs: seq<string>)
    requires |vs| > 1
    ensures Join(vs) == vs[0] + "\n" + Join(vs[1..])
    decreases |vs|
  {
    var n := |vs| - 1;
    if n > 1 {
      JoinHead(vs[..n]);
      assert vs[..n][1..] == vs[1..][..n - 1];
      assert vs[1..][n - 1] == vs[n];
    }
  }

  /** The stored text loses nothing: splitting it at newlines gives the values back. */
  lemma {:induction false} SplitOfJoin(vs: seq<string>)
    requires vs != [] && AllOneLine(vs)
    ensures Split(Join(vs)) == vs
    decreases |vs|
  {
    if |vs| == 1 {
      FindNone(vs[0], "\n");
    } else {
      JoinHead(vs);
      SplitHead(vs[0], Join(vs[1..]));
      SplitOfJoin(vs[1..]);
    }
  }

  lemma AllOneLineSnoc(vs: seq<string>, v: string)
    requires AllOneLine(NonEmpty(vs)) && '\n' !in v
    ensures AllOneLine(NonEmpty(vs + [v]))
  {
    assert AllOneLine(if v == "" then NonEmpty(vs) else NonEmpty(vs) + [v]) by { OneLineSnoc(NonEmpty(vs), v); }
    NonEmptySnoc(vs, v);
  }

  lemma OneLineSnoc(vs: seq<string>, v: string)
    requires AllOneLine(vs) && '\n' !in v
    ensures AllOneLine(if v == "" then vs else vs + [v])
  {
  }

  lemma {:induction false} ValuesOneLine(events: seq<Event>, key: string)
    requires forall i :: 0 <= i < |events| ==> GoodEvent(events[i])
    ensures AllOneLine(NonEmpty(ValuesFor(events, key)))
    decreases |events|
  {
    if events != [] {
      var n := |events| - 1;
      ValuesOneLine(events[..n], key);
      var before, v := ValuesFor(events[..n], key), events[n].value;
      assert GoodEvent(events[n]);
      if KeyOf(events[n]) == key {
        AllOneLineSnoc(before, v);
      } else {
        assert ValuesFor(events, key) == before;
      }
    }
  }

  /** For any file: a stored text that is not empty splits into that key's non-empty values. */
  lemma FileValuesRecovered(text: string, key: string)
    ensures var events := ParseLines(Pieces(text)).events;
            key in Store(events) && Store(events)[key] != "" ==>
              Split(Store(events)[key]) == NonEmpty(ValuesFor(events, key))
  {
    var events := ParseLines(Pieces(text)).events;
    AllEmittedTrimmed(Pieces(text));
    StoredValue(events, key);
    ValuesOneLine(events, key);
    if key in Store(events) && Store(events)[key] != "" {
      SplitOfJoin(NonEmpty(ValuesFor(events, key)));
    }
  }

  /** The entry is the one asked for, up to case. */
  predicate Meets(e: Event, section: string, name: string) {
    var (s, n) := Resolve(section, name);
    LowerAll(e.section) == LowerAll(s) && LowerAll(e.name) == LowerAll(n)
  }

  /** The values of the entries asked for, in order. */
  function Matching(events: seq<Event>, section: string, name: string): seq<string> {
    if events == [] then []
    else
      var n := |events| - 1;
      Matching(events[..n], section, name) + if Meets(events[n], section, name) then [events[n].value] else []
  }

  lemma MeetsIsKey(e: Event, section: string, name: string)
    requires GoodEvent(e)
    ensures KeyOf(e) == MakeKey(section, name) <==> Meets(e, section, name)
  {
    ResolveKey(section, name);
    var (s, n) := Resolve(section, name);
    KeysDistinct(e.section, e.name, s, n);
  }

  lemma {:induction false} MatchingIsValuesFor(events: seq<Event>, section: string, name: string)
    requires forall i :: 0 <= i < |events| ==> GoodEvent(events[i])
    ensures ValuesFor(events, MakeKey(section, name)) == Matching(events, section, name)
    decreases |events|
  {
    if events != [] {
      var n := |events| - 1;
      assert GoodEvent(events[n]);
      MeetsIsKey(events[n], section, name);
      MatchingIsValuesFor(events[..n], section, name);
    }
  }

  /** For any file and any lookup, with '=' in the name or without: the key is present exactly when some entry
      meets it, and holds the newline-join of the non-empty values of those that do. */
  lemma LookupMeets(text: string, section: string, name: string)
    ensures var events := ParseLines(Pieces(text)).events;
            var key, vs := MakeKey(section, name), Matching(events, section, name);
            && (key in Store(events) <==> vs != [])
            && (vs != [] ==> Store(events)[key] == Join(NonEmpty(vs)))
  {
    var events := ParseLines(Pieces(text)).events;
    AllEmittedTrimmed(Pieces(text));
    MatchingIsValuesFor(events, section, name);
    StoredValue(events, MakeKey(section, name));
  }

  /** Which entry a lookup collects. */
  lemma CollectedExactly(e: Event, section: string, name: string)
    requires '=' !in name
    ensures Matching([e], section, name) ==
            if LowerAll(e.section) == LowerAll(section) && LowerAll(e.name) == LowerAll(name) then [e.value] else []
  {
    assert [e][..0] == [];
    assert LastSeparator(name) == |name|;
  }

  /** It collects them in file order. */
  lemma {:induction false} CollectedInOrder(a: seq<Event>, b: seq<Event>, section: string, name: string)
    ensures Matching(a + b, section, name) == Matching(a, section, name) + Matching(b, section, name)
    decreases |b|
  {
    if b == [] {
      assert a + b == a;
    } else {
      var n := |b| - 1;
      var last := if Meets(b[n], section, name) then [b[n].value] else [];
      CollectedInOrder(a, b[..n], section, name);
      assert (a + b)[..|a| + n] == a + b[..n] && (a + b)[|a| + n] == b[n];
      Associate(Matching(a, section, name), Matching(b[..n], section, name), last);
    }
  }

  lemma Associate(a: seq<string>, b: seq<string>, c: seq<string>)
    ensures (a + b) + c == a + (b + c)
  {
  }

  /** What becomes of the values: empty ones are dropped and the others joined by newlines. */
  lemma JoinedExactly(vs: seq<string>, v: string)
    ensures NonEmpty([v]) == (if v == "" then [] else [v]) && NonEmpty(vs + [v]) == NonEmpty(vs) + NonEmpty([v])
    ensures Join([v]) == v && (vs != [] ==> Join(vs + [v]) == Join(vs) + "\n" + v)
  {
    assert [v][..0] == [] && (vs + [v])[..|vs|] == vs;
  }

  lemma JoinEmpty(vs: seq<string>)
    requires AllNonEmpty(vs)
    ensures Join(vs) == "" <==> vs == []
  {
    JoinSnoc(vs, "");
  }

  predicate AllNonEmpty(vs: seq<string>) { forall i :: 0 <= i < |vs| ==> vs[i] != "" }
}
