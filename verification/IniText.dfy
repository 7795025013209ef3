/** The configuration language: what each line means, independent of the buffer it is read into. */
module IniText {
  import opened Common

  const MAX_LINE := 200      // buffer size; a line holds at most 199 characters
  const MAX_SECTION := 50    // likewise

  predicate IsSpace(c: char) { c == ' ' || c == '\t' || c == '\n' || c == '\U{0B}' || c == '\U{0C}' || c == '\r' }

  function LSkip(s: string): string {
    if s != [] && IsSpace(s[0]) then LSkip(s[1..]) else s
  }

  function RStrip(s: string): string {
    if s != [] && IsSpace(s[|s| - 1]) then RStrip(s[..|s| - 1]) else s
  }

  /** Where the first character of `stops` is, |s| if nowhere. */
  function Find(s: string, stops: string): (i: nat)
    ensures i <= |s|
    ensures i < |s| ==> s[i] in stops
    ensures forall j :: 0 <= j < i ==> s[j] !in stops
  {
    if s == [] || s[0] in stops then 0 else 1 + Find(s[1..], stops)
  }

  predicate Trimmed(s: string) { s == [] || (!IsSpace(s[0]) && !IsSpace(s[|s| - 1])) }

  datatype Event = Event(section: string, name: string, value: string)

  /** What a line is, whatever section it stands in. */
  datatype Line = Comment | Header(section: string) | Pair(name: string, value: string) | Bad

  /** What strlen sees of a buffer: everything before the first NUL. */
  function CStr(s: string): string { s[..Find(s, "\0")] }

  function Strip(line: string): string { RStrip(LSkip(CStr(line))) }

  function Classify(line: string): Line {
    var t := Strip(line);
    if t == [] || t[0] == ';' || t[0] == '#' then Comment
    else if t[0] == '[' then
      var e := Find(t[1..], "]");
      if e < |t[1..]| then Header(Truncate(t[1..][..e])) else Bad
    else
      var e := Find(t, "=:");
      if e < |t| then Pair(RStrip(t[..e]), LSkip(t[e + 1..])) else Bad
  }

  function Truncate(s: string): string {
    if |s| < MAX_SECTION then s else s[..MAX_SECTION - 1]
  }

  /** The whole stream: section at the end, handler calls in order, first bad line (0 if none). */
  datatype Parsed = Parsed(section: string, events: seq<Event>, error: nat)

  /** One more line, number `lineno`, after what `p` says. */
  function Extend(p: Parsed, line: Line, lineno: nat): Parsed {
    match line
    case Comment => p
    case Header(section) => p.(section := section)
    case Pair(name, value) => p.(events := p.events + [Event(p.section, name, value)])
    case Bad => if p.error == 0 then p.(error := lineno) else p
  }

  function Fold(lines: seq<Line>): Parsed {
    if lines == [] then Parsed("", [], 0)
    else Extend(Fold(lines[..|lines| - 1]), lines[|lines| - 1], |lines|)
  }

  function ClassifyAll(lines: seq<string>): seq<Line> { seq(|lines|,
      i requires 0 <= i < |lines| => Classify(lines[i])) }

  function ParseLines(lines: seq<string>): Parsed { Fold(ClassifyAll(lines)) }

  predicate NewlineLast(l: string) { forall j :: 0 <= j < |l| - 1 ==> l[j] != '\n' }

  /** The pieces fgets returns: up to and including a newline, or a full buffer. */
  function Pieces(text: string): (ps: seq<string>)
    ensures forall i :: 0 <= i < |ps| ==> 0 < |ps[i]| < MAX_LINE && NewlineLast(ps[i])
    decreases |text|
  {
    if text == [] then []
    else
      var e := Find(text, "\n");
      var n := if e + 1 < MAX_LINE && e < |text| then e + 1 else if |text| < MAX_LINE then |text| else MAX_LINE - 1;
      [text[..n]] + Pieces(text[n..])
  }

  // ---------------------------------------------------------------- what is emitted

  lemma {:induction false} LSkipFirst(s: string)
    ensures LSkip(s) == [] || !IsSpace(LSkip(s)[0])
    ensures |LSkip(s)| <= |s| && LSkip(s) == s[|s| - |LSkip(s)|..]
    ensures forall i :: 0 <= i < |s| - |LSkip(s)| ==> IsSpace(s[i])
  {
    if s != [] && IsSpace(s[0]) { LSkipFirst(s[1..]); }
  }

  lemma {:induction false} RStripLast(s: string)
    ensures RStrip(s) == [] || !IsSpace(RStrip(s)[|RStrip(s)| - 1])
    ensures RStrip(s) <= s
    ensures forall i :: |RStrip(s)| <= i < |s| ==> IsSpace(s[i])
  {
    if s != [] && IsSpace(s[|s| - 1]) { RStripLast(s[..|s| - 1]); }
  }

  lemma NoneOf(s: string, stops: string, c: char)
    requires c in stops
    ensures c !in s[..Find(s, stops)]
  {
    var e := Find(s, stops);
    assert forall j :: 0 <= j < e ==> s[..e][j] == s[j];
  }

  lemma StripTrims(line: string)
    ensures Trimmed(Strip(line))
  {
    LSkipFirst(CStr(line));
    RStripLast(LSkip(CStr(line)));
  }

  /** Stripping the inner ends of two halves of a trimmed text leaves both trimmed. */
  lemma HalvesTrimmed(t: string, e: nat)
    requires Trimmed(t) && e < |t|
    ensures Trimmed(RStrip(t[..e])) && RStrip(t[..e]) <= t[..e]
    ensures Trimmed(LSkip(t[e + 1..]))
  {
    RStripLast(t[..e]);
    LSkipFirst(t[e + 1..]);
  }

  /** Names and values reach the handler trimmed on both sides: the value although its own right strip
      does nothing, because the line was stripped before.  A name contains no separator. */
  lemma EmittedTrimmed(line: string)
    requires Classify(line).Pair?
    ensures var l := Classify(line);
            Trimmed(l.name) && Trimmed(l.value) && '=' !in l.name && ':' !in l.name
  {
    var t := Strip(line);
    var e := Find(t, "=:");
    StripTrims(line);
    HalvesTrimmed(t, e);
    NoneOf(t, "=:", '=');
    NoneOf(t, "=:", ':');
    var name := Classify(line).name;
    assert forall i :: 0 <= i < |name| ==> name[i] == t[..e][i];
  }

  lemma StripNewline(line: string)
    requires NewlineLast(line)
    ensures forall j :: 0 <= j < |Strip(line)| ==> Strip(line)[j] != '\n'
  {
    var c := CStr(line);
    LSkipFirst(c);
    RStripLast(LSkip(c));
    assert forall j :: 0 <= j < |c| - 1 ==> c[j] != '\n';
  }

  /** Nor does a value hold a newline: a piece has one at most at its end, where it is stripped. */
  lemma EmittedOneLine(line: string)
    requires NewlineLast(line) && Classify(line).Pair?
    ensures '\n' !in Classify(line).value
  {
    var t := Strip(line);
    StripNewline(line);
    LSkipFirst(t[Find(t, "=:") + 1..]);
    var v := Classify(line).value;
    assert forall j :: 0 <= j < |v| ==> v[j] == t[|t| - |v| + j];
  }

  predicate GoodEvent(e: Event) { Trimmed(e.name) && Trimmed(e.value) && '=' !in e.name && ':' !in e.name
      && '\n' !in e.value }

  lemma {:induction false} FoldKeeps(ls: seq<Line>)
    requires forall i :: 0 <= i < |ls| && ls[i].Pair? ==> GoodEvent(Event("", ls[i].name, ls[i].value))
    ensures forall i :: 0 <= i < |Fold(ls).events| ==> GoodEvent(Fold(ls).events[i])
    decreases |ls|
  {
    if ls != [] { FoldKeeps(ls[..|ls| - 1]); }
  }

  lemma AllEmittedTrimmed(lines: seq<string>)
    requires forall i :: 0 <= i < |lines| ==> NewlineLast(lines[i])
    ensures forall i :: 0 <= i < |ParseLines(lines).events| ==> GoodEvent(ParseLines(lines).events[i])
  {
    forall i | 0 <= i < |lines| && Classify(lines[i]).Pair?
      ensures GoodEvent(Event("", Classify(lines[i]).name, Classify(lines[i]).value))
    {
      EmittedTrimmed(lines[i]);
      EmittedOneLine(lines[i]);
    }
    FoldKeeps(ClassifyAll(lines));
  }

  lemma {:induction false} FoldError(ls: seq<Line>)
    ensures var e := Fold(ls).error;
            && e <= |ls|
            && (e == 0 ==> forall i :: 0 <= i < |ls| ==> !ls[i].Bad?)
            && (e > 0 ==> ls[e - 1].Bad? && forall i :: 0 <= i < e - 1 ==> !ls[i].Bad?)
    decreases |ls|
  {
    if ls != [] { FoldError(ls[..|ls| - 1]); }
  }

  /** The reported error is the number of the first bad line, 0 when there is none. */
  lemma ErrorIsFirstBad(lines: seq<string>)
    ensures var e := ParseLines(lines).error;
            && e <= |lines|
            && (e == 0 ==> forall i :: 0 <= i < |lines| ==> !Classify(lines[i]).Bad?)
            && (e > 0 ==> Classify(lines[e - 1]).Bad? && forall i :: 0 <= i < e - 1 ==> !Classify(lines[i]).Bad?)
  {
    var ls := ClassifyAll(lines);
    FoldError(ls);
    assert forall i :: 0 <= i < |lines| ==> ls[i] == Classify(lines[i]);
  }

  /** A line is bad exactly when it is no comment and lacks its bracket or separator. */
  lemma BadExactly(line: string)
    ensures Classify(line).Bad? <==>
            var t := Strip(line);
            t != [] && t[0] !in ";#" && (if t[0] == '[' then ']' !in t else '=' !in t && ':' !in t)
  {
    var t := Strip(line);
    if t != [] {
      var e := if t[0] == '[' then 1 + Find(t[1..], "]") else Find(t, "=:");
      assert e < |t| ==> t[e] in t;
    }
  }

  /** White space is what isspace takes for it. */
  lemma SpaceExact(c: char)
    ensures IsSpace(c) <==> c in " \t\n\r" || c as int == 11 || c as int == 12
  {
  }

  lemma CStrExact(line: string, n: nat)
    requires n <= |line| && '\0' !in line[..n] && (n < |line| ==> line[n] == '\0')
    ensures CStr(line) == line[..n]
  {
    assert forall k :: 0 <= k < n ==> line[..n][k] == line[k];
    if n < |line| {
      FindFirst(line, "\0", n);
    } else {
      FindNone(line, "\0");
    }
  }

  lemma StrippedPart(c: string, a: nat, b: nat)
    requires a == |c| - |LSkip(c)| && b == a + |RStrip(LSkip(c))|
    ensures b <= |c| && RStrip(LSkip(c)) == c[a..b] && forall k :: 0 <= k < a || b <= k < |c| ==> IsSpace(c[k])
  {
    LSkipFirst(c);
    RStripLast(LSkip(c));
    assert LSkip(c) == c[a..] && c[a..][..b - a] == c[a..b];
    forall k | b <= k < |c| ensures IsSpace(c[k]) {
      assert c[k] == LSkip(c)[k - a];
    }
  }

  /** What is left of a line: everything before the first NUL, without the white space at its two ends. */
  lemma StripExact(line: string, n: nat)
    requires n <= |line| && '\0' !in line[..n] && (n < |line| ==> line[n] == '\0')
    ensures Trimmed(Strip(line))
    ensures exists a, b :: 0 <= a <= b <= n && Strip(line) == line[..n][a..b]
              && (forall k :: 0 <= k < a || b <= k < n ==> IsSpace(line[..n][k]))
  {
    CStrExact(line, n);
    StripTrims(line);
    var c := line[..n];
    LSkipFirst(c);
    var a := n - |LSkip(c)|;
    StrippedPart(c, a, a + |RStrip(LSkip(c))|);
  }

  /** The kinds of line by what is left of them: a header names what stands before the first bracket, up to 49
      characters. */
  lemma HeaderExactly(line: string, e: nat)
    requires var t := Strip(line); 0 < e < |t| && t[0] == '[' && t[e] == ']' && ']' !in t[1..e]
    ensures Classify(line) == Header(if e <= 50 then Strip(line)[1..e] else Strip(line)[1..50])
  {
    var t := Strip(line);
    assert forall j :: 0 <= j < e - 1 ==> t[1..][j] == t[1..e][j];
    FindFirst(t[1..], "]", e - 1);
    assert t[1..][..e - 1] == t[1..e];
  }

  /** A pair is split at the first '=' or ':', and both halves lose the white space around it. */
  lemma PairExactly(line: string, e: nat)
    requires var t := Strip(line); e < |t| && t[0] !in ";#[" && t[e] in "=:" && '=' !in t[..e] && ':' !in t[..e]
    ensures var t, l := Strip(line), Classify(line);
            && l.Pair? && |l.name| <= e && l.name == t[..|l.name|]
            && (forall k :: |l.name| <= k < e ==> IsSpace(t[k]))
            && |l.value| < |t| - e && l.value == t[|t| - |l.value|..]
            && (forall k :: e < k < |t| - |l.value| ==> IsSpace(t[k]))
            && Trimmed(l.name) && Trimmed(l.value)
  {
    var t := Strip(line);
    assert forall j :: 0 <= j < e ==> t[j] == t[..e][j];
    FindFirst(t, "=:", e);
    EmittedTrimmed(line);
    LSkipFirst(t[e + 1..]);
    RStripLast(t[..e]);
    var value := Classify(line).value;
    forall k | e < k < |t| - |value| ensures IsSpace(t[k]) { assert t[k] == t[e + 1..][k - e - 1]; }
  }

  /** Everything else that is left is a comment, or is bad as BadExactly says. */
  lemma CommentExactly(line: string)
    ensures Classify(line).Comment? <==> Strip(line) == "" || Strip(line)[0] == ';' || Strip(line)[0] == '#'
  {
  }

  /** A piece that another follows ends in a newline or fills the buffer. */
  predicate Cut(l: string) { l != "" && (|l| == 199 || l[|l| - 1] == '\n') }

  lemma FirstPiece(text: string)
    requires text != []
    ensures var l := Pieces(text)[0];
            && |l| <= |text| && Pieces(text) == [l] + Pieces(text[|l|..]) && l == text[..|l|]
            && (Pieces(text[|l|..]) != [] ==> Cut(l))
  {
  }

  /** The pieces are the text, cut. */
  lemma {:induction false} PiecesCover(text: string)
    ensures Flatten(Pieces(text)) == text
    decreases |text|
  {
    if text != [] {
      var l := Pieces(text)[0];
      var rest := text[|l|..];
      FirstPiece(text);
      PiecesCover(rest);
      FlattenCons(l, Pieces(rest));
      assert text == l + rest;
    }
  }

  /** It is cut behind every newline and, where a line is longer, behind 199 characters. */
  lemma {:induction false} PieceEnds(text: string, i: nat)
    requires i + 1 < |Pieces(text)|
    ensures Cut(Pieces(text)[i])
    decreases i
  {
    var l := Pieces(text)[0];
    FirstPiece(text);
    if i > 0 { PieceEnds(text[|l|..], i - 1); }
  }

  lemma FlattenCons(l: string, ls: seq<string>)
    ensures Flatten([l] + ls) == l + Flatten(ls)
  {
    assert ([l] + ls)[1..] == ls;
  }

  // ---------------------------------------------------------------- rendering and parsing back

  datatype Section = Section(name: string, pairs: seq<(string, string)>)

  predicate PlainText(s: string) { '\n' !in s && '\0' !in s }

  predicate SectionOk(name: string) { PlainText(name) && ']' !in name && |name| < MAX_SECTION }

  predicate PairOk(name: string, value: string) {
    && PlainText(name) && PlainText(value) && Trimmed(name) && Trimmed(value)
    && '=' !in name && ':' !in name
    && (name != [] ==> name[0] != ';' && name[0] != '#' && name[0] != '[')
    && |name| + |value| + 2 < MAX_LINE
  }

  predicate SectionsOk(ss: seq<Section>) {
    forall i :: 0 <= i < |ss| ==>
      SectionOk(ss[i].name) && forall j :: 0 <= j < |ss[i].pairs| ==> PairOk(ss[i].pairs[j].0, ss[i].pairs[j].1)
  }

  function SectionLine(name: string): string { "[" + name + "]\n" }
  function PairLine(name: string, value: string): string { name + "=" + value + "\n" }

  function PairLines(pairs: seq<(string, string)>): seq<string> {
    if pairs == [] then [] else PairLines(pairs[..|pairs| - 1]) + [PairLine(pairs[|pairs| - 1].0, pairs[|pairs| - 1].1)]
  }

  function Lines(ss: seq<Section>): seq<string> {
    if ss == [] then []
    else Lines(ss[..|ss| - 1]) + [SectionLine(ss[|ss| - 1].name)] + PairLines(ss[|ss| - 1].pairs)
  }

  function PairEvents(section: string, pairs: seq<(string, string)>): seq<Event> {
    if pairs == [] then []
    else PairEvents(section, pairs[..|pairs| - 1]) + [Event(section, pairs[|pairs| - 1].0, pairs[|pairs| - 1].1)]
  }

  function Events(ss: seq<Section>): seq<Event> {
    if ss == [] then []
    else Events(ss[..|ss| - 1]) + PairEvents(ss[|ss| - 1].name, ss[|ss| - 1].pairs)
  }

  lemma {:induction false} FindFirst(s: string, stops: string, i: nat)
    requires i < |s| && s[i] in stops && forall j :: 0 <= j < i ==> s[j] !in stops
    ensures Find(s, stops) == i
  {
    if i > 0 { FindFirst(s[1..], stops, i - 1); }
  }

  lemma {:induction false} FindNone(s: string, stops: string)
    requires forall j :: 0 <= j < |s| ==> s[j] !in stops
    ensures Find(s, stops) == |s|
  {
    if s != [] { FindNone(s[1..], stops); }
  }

  lemma NoNul(s: string)
    requires '\0' !in s
    ensures CStr(s) == s
  {
    FindNone(s, "\0");
  }

  lemma StripOfLine(t: string)
    requires t != "" && Trimmed(t) && '\0' !in t
    ensures Strip(t + "\n") == t
  {
    var line := t + "\n";
    NoNul(line);
    assert LSkip(line) == line;
    assert line[..|line| - 1] == t;
    assert RStrip(line) == RStrip(t) == t;
  }

  lemma SectionLineParses(name: string)
    requires SectionOk(name)
    ensures Classify(SectionLine(name)) == Header(name)
  {
    var t := "[" + name + "]";
    StripOfLine(t);
    assert SectionLine(name) == t + "\n";
    assert t[1..] == name + "]";
    FindFirst(t[1..], "]", |name|);
    assert t[1..][..|name|] == name;
  }

  lemma PairLineParses(name: string, value: string)
    requires PairOk(name, value)
    ensures Classify(PairLine(name, value)) == Pair(name, value)
  {
    var t := name + "=" + value;
    StripOfLine(t);
    assert PairLine(name, value) == t + "\n";
    FindFirst(t, "=:", |name|);
    assert t[..|name|] == name && t[|name| + 1..] == value;
    assert RStrip(name) == name && LSkip(value) == value;
  }

  /** What the rendered pairs of a section, and whole sections, are as lines. */
  function PairKinds(pairs: seq<(string, string)>): seq<Line> {
    if pairs == [] then [] else PairKinds(pairs[..|pairs| - 1]) + [Pair(pairs[|pairs| - 1].0, pairs[|pairs| - 1].1)]
  }

  function Kinds(ss: seq<Section>): seq<Line> {
    if ss == [] then [] else Kinds(ss[..|ss| - 1]) + [Header(ss[|ss| - 1].name)] + PairKinds(ss[|ss| - 1].pairs)
  }

  lemma ClassifyAppend(a: seq<string>, b: seq<string>)
    ensures ClassifyAll(a + b) == ClassifyAll(a) + ClassifyAll(b)
  {
  }

  lemma {:induction false} PairsClassified(pairs: seq<(string, string)>)
    requires forall j :: 0 <= j < |pairs| ==> PairOk(pairs[j].0, pairs[j].1)
    ensures ClassifyAll(PairLines(pairs)) == PairKinds(pairs)
    decreases |pairs|
  {
    if pairs != [] {
      var n := |pairs| - 1;
      var line := PairLine(pairs[n].0, pairs[n].1);
      PairsClassified(pairs[..n]);
      assert ClassifyAll([line]) == [Pair(pairs[n].0, pairs[n].1)] by { PairLineParses(pairs[n].0, pairs[n].1); }
      ClassifyAppend(PairLines(pairs[..n]), [line]);
    }
  }

  lemma {:induction false} SectionsClassified(ss: seq<Section>)
    requires SectionsOk(ss)
    ensures ClassifyAll(Lines(ss)) == Kinds(ss)
    decreases |ss|
  {
    if ss != [] {
      var n := |ss| - 1;
      var line := SectionLine(ss[n].name);
      SectionsClassified(ss[..n]);
      assert ClassifyAll([line]) == [Header(ss[n].name)] by { SectionLineParses(ss[n].name); }
      PairsClassified(ss[n].pairs);
      ClassifyAppend(Lines(ss[..n]), [line]);
      ClassifyAppend(Lines(ss[..n]) + [line], PairLines(ss[n].pairs));
    }
  }

  lemma FoldSnoc(ls: seq<Line>, l: Line)
    ensures Fold(ls + [l]) == Extend(Fold(ls), l, |ls| + 1)
  {
    assert (ls + [l])[..|ls|] == ls;
  }

  lemma ParseLinesSnoc(lines: seq<string>, line: string)
    ensures ParseLines(lines + [line]) == Extend(ParseLines(lines), Classify(line), |lines| + 1)
  {
    ClassifyAppend(lines, [line]);
    FoldSnoc(ClassifyAll(lines), Classify(line));
  }

  function WithPairs(p: Parsed, pairs: seq<(string, string)>): Parsed {
    p.(events := p.events + PairEvents(p.section, pairs))
  }

  lemma {:induction false} PairsFold(before: seq<Line>, pairs: seq<(string, string)>)
    ensures Fold(before + PairKinds(pairs)) == WithPairs(Fold(before), pairs)
    decreases |pairs|
  {
    if pairs == [] {
      assert before + PairKinds(pairs) == before;
    } else {
      var n := |pairs| - 1;
      var l := Pair(pairs[n].0, pairs[n].1);
      PairsFold(before, pairs[..n]);
      assert before + PairKinds(pairs) == before + PairKinds(pairs[..n]) + [l];
      FoldSnoc(before + PairKinds(pairs[..n]), l);
      assert WithPairs(Fold(before), pairs) == Extend(WithPairs(Fold(before), pairs[..n]), l, 0);
    }
  }

  lemma {:induction false} SectionsFold(ss: seq<Section>)
    ensures Fold(Kinds(ss)).events == Events(ss) && Fold(Kinds(ss)).error == 0
    decreases |ss|
  {
    if ss != [] {
      var n := |ss| - 1;
      SectionsFold(ss[..n]);
      FoldSnoc(Kinds(ss[..n]), Header(ss[n].name));
      PairsFold(Kinds(ss[..n]) + [Header(ss[n].name)], ss[n].pairs);
    }
  }

  /** A line that ends in its only newline and fits the buffer is one piece. */
  predicate WholeLine(l: string) {
    0 < |l| < MAX_LINE && l[|l| - 1] == '\n' && NewlineLast(l)
  }

  lemma {:induction false} PiecesOfLines(lines: seq<string>)
    requires forall i :: 0 <= i < |lines| ==> WholeLine(lines[i])
    ensures Pieces(Flatten(lines)) == lines
    decreases |lines|
  {
    if lines != [] {
      var text, l := Flatten(lines), lines[0];
      FindFirst(text, "\n", |l| - 1);
      PiecesOfLines(lines[1..]);
      assert text[..|l|] == l && text[|l|..] == Flatten(lines[1..]);
    }
  }

  lemma {:induction false} PairLinesWhole(pairs: seq<(string, string)>)
    requires forall j :: 0 <= j < |pairs| ==> PairOk(pairs[j].0, pairs[j].1)
    ensures forall i :: 0 <= i < |PairLines(pairs)| ==> WholeLine(PairLines(pairs)[i])
    decreases |pairs|
  {
    if pairs != [] { PairLinesWhole(pairs[..|pairs| - 1]); }
  }

  lemma {:induction false} LinesWhole(ss: seq<Section>)
    requires SectionsOk(ss)
    ensures forall i :: 0 <= i < |Lines(ss)| ==> WholeLine(Lines(ss)[i])
    decreases |ss|
  {
    if ss != [] {
      LinesWhole(ss[..|ss| - 1]);
      PairLinesWhole(ss[|ss| - 1].pairs);
      assert WholeLine(SectionLine(ss[|ss| - 1].name));
    }
  }

  /** Writing sections and pairs out and reading the file gives exactly those pairs, in order, and no error. */
  lemma RenderParse(ss: seq<Section>)
    requires SectionsOk(ss)
    ensures var r := ParseLines(Pieces(Flatten(Lines(ss)))); r.events == Events(ss) && r.error == 0
  {
    LinesWhole(ss);
    PiecesOfLines(Lines(ss));
    SectionsClassified(ss);
    SectionsFold(ss);
  }
}
