/** The parser as written: one character buffer for the line, cut up in place with NULs, one for the
    section, and the map of values. */
module IniReader {
  import opened IniText
  import opened IniStore

  /** `buf` holds the NUL-terminated string `s` at `i`. */
  predicate HasStr(buf: seq<char>, i: nat, s: string) {
    && i + |s| < |buf|
    && buf[i..i + |s|] == s
    && buf[i + |s|] == '\0'
    && '\0' !in s
  }

  lemma CharAt(buf: seq<char>, i: nat, s: string, k: nat)
    requires HasStr(buf, i, s) && k <= |s|
    ensures k < |s| ==> buf[i + k] == s[k] && s[k] != '\0'
    ensures k == |s| ==> buf[i + k] == '\0'
  {
    if k < |s| {
      assert buf[i..i + |s|][k] == s[k];
      assert s[k] in s;
    }
  }

  /** The string from `k` characters further on. */
  lemma HasTail(buf: seq<char>, i: nat, s: string, k: nat)
    requires HasStr(buf, i, s) && k <= |s|
    ensures HasStr(buf, i + k, s[k..])
  {
    assert buf[i + k..i + |s|] == buf[i..i + |s|][k..];
  }

  /** A NUL written `k` characters on ends the string there. */
  lemma HasHead(buf: seq<char>, i: nat, s: string, k: nat)
    requires HasStr(buf, i, s) && k < |s|
    ensures HasStr(buf[i + k := '\0'], i, s[..k])
  {
    assert buf[i + k := '\0'][i..i + k] == buf[i..i + |s|][..k];
  }

  /** A change below the string or past its end leaves it in place. */
  lemma HasSame(buf: seq<char>, after: seq<char>, i: nat, s: string)
    requires HasStr(buf, i, s) && |after| == |buf|
    requires forall k :: i <= k <= i + |s| ==> after[k] == buf[k]
    ensures HasStr(after, i, s)
  {
    assert after[i..i + |s|] == buf[i..i + |s|];
  }

  method StrLen(buf: array<char>, i: nat, ghost s: string) returns (n: nat)
    requires HasStr(buf[..], i, s)
    ensures n == |s|
  {
    n := 0;
    CharAt(buf[..], i, s, 0);
    while buf[i + n] != '\0'
      invariant n <= |s|
      decreases |s| - n
    {
      CharAt(buf[..], i, s, n);
      n := n + 1;
      CharAt(buf[..], i, s, n);
    }
    CharAt(buf[..], i, s, n);
  }

  /** Overwrite trailing white space before `end` with NULs. */
  method IniRStrip(buf: array<char>, i: nat, end: nat, ghost s: string)
    requires end < i || (HasStr(buf[..], i, s) && end == i + |s|)
    modifies buf
    ensures end < i ==> buf[..] == old(buf[..])
    ensures end >= i ==> HasStr(buf[..], i, RStrip(s))
    ensures forall k :: 0 <= k < buf.Length && (k < i || k >= end) ==> buf[k] == old(buf[k])
  {
    var e := end;
    ghost var t := s;
    while e > i
      invariant i <= end ==> i <= e <= end && HasStr(buf[..], i, t) && e == i + |t| && RStrip(t) == RStrip(s)
      invariant end < i ==> e == end && buf[..] == old(buf[..])
      invariant forall k :: 0 <= k < buf.Length && (k < i || k >= end) ==> buf[k] == old(buf[k])
    {
      CharAt(buf[..], i, t, |t| - 1);
      e := e - 1;
      if !IsSpace(buf[e]) { break; }
      HasHead(buf[..], i, t, |t| - 1);
      buf[e] := '\0';
      t := t[..|t| - 1];
    }
  }

  method IniLSkip(buf: array<char>, i: nat, ghost s: string) returns (j: nat)
    requires HasStr(buf[..], i, s)
    ensures i <= j && j + |LSkip(s)| == i + |s| && HasStr(buf[..], j, LSkip(s))
  {
    j := i;
    ghost var t := s;
    CharAt(buf[..], j, t, 0);
    while buf[j] != '\0' && IsSpace(buf[j])
      invariant i <= j && HasStr(buf[..], j, t) && LSkip(t) == LSkip(s) && j + |t| == i + |s|
      invariant t != [] ==> buf[j] == t[0]
      invariant t == [] ==> buf[j] == '\0'
      decreases |t|
    {
      HasTail(buf[..], j, t, 1);
      j, t := j + 1, t[1..];
      CharAt(buf[..], j, t, 0);
    }
    CharAt(buf[..], j, t, 0);
  }

  method IniFindChars(buf: array<char>, i: nat, chars: string, ghost s: string) returns (j: nat)
    requires HasStr(buf[..], i, s)
    ensures j == i + Find(s, chars)
  {
    j := i;
    ghost var t := s;
    CharAt(buf[..], j, t, 0);
    while buf[j] != '\0' && buf[j] !in chars
      invariant i <= j && HasStr(buf[..], j, t) && i + |s| == j + |t|
      invariant j - i + Find(t, chars) == Find(s, chars)
      invariant t != [] ==> buf[j] == t[0]
      invariant t == [] ==> buf[j] == '\0'
      decreases |t|
    {
      HasTail(buf[..], j, t, 1);
      j, t := j + 1, t[1..];
      CharAt(buf[..], j, t, 0);
    }
    CharAt(buf[..], j, t, 0);
  }

  /** Copy at most dest.Length - 1 characters and terminate. */
  method IniStrncpy0(dest: array<char>, src: array<char>, from: nat, ghost s: string)
    requires dest.Length == MAX_SECTION && dest != src
    requires HasStr(src[..], from, s)
    modifies dest
    ensures HasStr(dest[..], 0, Truncate(s))
  {
    var i := 0;
    CharAt(src[..], from, s, 0);
    while i < dest.Length - 1 && src[from + i] != '\0'
      invariant i <= dest.Length - 1 && i <= |s|
      invariant dest[..i] == s[..i]
    {
      CharAt(src[..], from, s, i);
      dest[i] := src[from + i];
      i := i + 1;
      CharAt(src[..], from, s, i);
    }
    CharAt(src[..], from, s, i);
    dest[i] := '\0';
    assert dest[..i] == s[..i];
    assert s[..i] == Truncate(s);
  }

  /** fgets: the next piece of the stream, copied and terminated; nothing at the end. */
  method Fgets(line: array<char>, text: string) returns (got: bool, rest: string, ghost piece: string)
    requires line.Length == MAX_LINE
    modifies line
    ensures got == (text != [])
    ensures !got ==> rest == text && line[..] == old(line[..])
    ensures got ==> Pieces(text) == [piece] + Pieces(rest) && |rest| < |text| && HasStr(line[..], 0, CStr(piece))
  {
    if text == [] { return false, text, []; }
    var n := 0;
    while n < MAX_LINE - 1 && n < |text| && (n == 0 || text[n - 1] != '\n')
      invariant n <= MAX_LINE - 1 && n <= |text|
      invariant line[..n] == text[..n]
      invariant forall k :: 0 <= k < n - 1 ==> text[k] != '\n'
    {
      line[n] := text[n];
      n := n + 1;
    }
    line[n] := '\0';
    got, rest, piece := true, text[n..], text[..n];
    PieceLength(text, n);
    assert line[..n] == piece;
    CStrIn(line[..], piece);
  }

  /** Where the copying stops is where the piece ends. */
  lemma PieceLength(text: string, n: nat)
    requires text != [] && 0 < n < MAX_LINE && n <= |text|
    requires forall k :: 0 <= k < n - 1 ==> text[k] != '\n'
    requires n == MAX_LINE - 1 || n == |text| || text[n - 1] == '\n'
    ensures Pieces(text) == [text[..n]] + Pieces(text[n..])
  {
    var e := Find(text, "\n");
    assert e >= n - 1;
    if text[n - 1] == '\n' { assert e == n - 1; }
  }

  lemma CStrIn(buf: seq<char>, piece: string)
    requires |piece| < |buf| && buf[..|piece|] == piece && buf[|piece|] == '\0'
    ensures HasStr(buf, 0, CStr(piece))
  {
    var e := Find(piece, "\0");
    NoneOf(piece, "\0", '\0');
    assert buf[0..e] == piece[..e];
    assert buf[e] == if e < |piece| then piece[e] else '\0';
  }

  /** The value of a char*: what std::string's constructor copies. */
  method ToString(buf: array<char>, i: nat, ghost s: string) returns (r: string)
    requires HasStr(buf[..], i, s)
    ensures r == s
  {
    var n := StrLen(buf, i, s);
    r := buf[i..i + n];
    assert buf[..][i..i + n] == buf[i..i + n];
  }

  /** End the name at its separator and strip it; the value behind stays. */
  method CutPair(line: array<char>, i: nat, end: nat, ghost t: string)
    requires HasStr(line[..], i, t) && i <= end < i + |t|
    modifies line
    ensures HasStr(line[..], i, RStrip(t[..end - i]))
    ensures HasStr(line[..], end + 1, t[end - i + 1..])
  {
    HasTail(line[..], i, t, end - i + 1);
    HasHead(line[..], i, t, end - i);
    ghost var cut := line[..][end := '\0'];
    HasSame(line[..], cut, end + 1, t[end - i + 1..]);
    line[end] := '\0';
    assert line[..] == cut;
    IniRStrip(line, i, end, t[..end - i]);
    HasSame(cut, line[..], end + 1, t[end - i + 1..]);
  }

  /** The value: its left end is skipped; stripping back from `end`, which lies before it, does nothing. */
  method ValueText(line: array<char>, i: nat, end: nat, ghost s: string) returns (value: string)
    requires HasStr(line[..], i, s) && end < i
    modifies line
    ensures value == LSkip(s)
  {
    var from := IniLSkip(line, i, s);
    ghost var buf := line[..];
    IniRStrip(line, from, end, "");
    assert line[..] == buf;
    value := ToString(line, from, LSkip(s));
  }

  /** Both ends of the line stripped: where it now starts. */
  method StripLine(line: array<char>, ghost piece: string) returns (start: nat)
    requires HasStr(line[..], 0, CStr(piece))
    modifies line
    ensures HasStr(line[..], start, Strip(piece))
  {
    var offset := StrLen(line, 0, CStr(piece));
    start := IniLSkip(line, 0, CStr(piece));
    IniRStrip(line, start, offset, LSkip(CStr(piece)));
  }

  /** What the three kinds of line do to the state that is kept. */
  lemma ExtendComment(p: Parsed, piece: string, lineno: nat)
    requires var t := Strip(piece); t == [] || t[0] == ';' || t[0] == '#'
    ensures Extend(p, Classify(piece), lineno) == p
  {
  }

  lemma ExtendSection(p: Parsed, piece: string, lineno: nat)
    requires var t := Strip(piece); t != [] && t[0] == '['
    ensures var s := Strip(piece)[1..];
            var e := Find(s, "]");
            Extend(p, Classify(piece), lineno) ==
              if e < |s| then p.(section := Truncate(s[..e])) else p.(error := if p.error == 0 then lineno else p.error)
  {
  }

  lemma ExtendPair(p: Parsed, piece: string, lineno: nat)
    requires var t := Strip(piece); t != [] && t[0] !in ";#["
    ensures var t := Strip(piece);
            var e := Find(t, "=:");
            var q := Extend(p, Classify(piece), lineno);
            && q.section == p.section
            && Store(q.events) == (if e == |t| then Store(p.events)
                                   else Handle(Store(p.events), Event(p.section, RStrip(t[..e]), LSkip(t[e + 1..]))))
            && q.error == if e < |t| || p.error != 0 then p.error else lineno
  {
    var t := Strip(piece);
    var e := Find(t, "=:");
    if e < |t| { StoreSnoc(p.events, Event(p.section, RStrip(t[..e]), LSkip(t[e + 1..]))); }
  }

  /** What fopen finds. */
  datatype File = Missing | Content(text: string)

  /** The entries of a file, in order. */
  function Entries(file: File): seq<Event> {
    if file.Missing? then [] else ParseLines(Pieces(file.text)).events
  }

  class INIReader {
    var error: int
    var values: map<string, string>
    ghost var file: File

    ghost predicate Valid()
      reads this
    {
      values == Store(Entries(file)) && error == if file.Missing? then -1 else ParseLines(Pieces(file.text)).error
    }

    /** A missing file: error -1 and no values.  Otherwise the first bad line, and every value folded in order. */
    constructor (file: File)
      ensures this.file == file && Valid()
    {
      error, values := 0, map[];
      this.file := file;
      new;
      if file.Missing? {
        error := -1;
      } else {
        error := IniParseStream(file.text);
      }
    }

    /** Append to a known key, with a newline only between two non-empty texts; insert a new key. */
    method ValueHandler(section: string, name: string, value: string) returns (ok: bool)
      modifies this`values
      ensures ok && values == Handle(old(values), Event(section, name, value))
    {
      var key := MakeKey(section, name);
      if key in values {
        var it := values[key];
        if it != "" && value != "" {
          it := it + "\n";
        } else {
          assert it + "" == it;
        }
        values := values[key := it + value];
      } else {
        values := values[key := value];
      }
      return true;
    }

    /** A "[section]" line, from behind its bracket. */
    method ParseSectionLine(line: array<char>, section: array<char>, i: nat, err: nat, lineno: nat, ghost s: string,
        ghost was: string)
      returns (err': nat)
      requires line != section && section.Length == MAX_SECTION
      requires HasStr(line[..], i, s) && HasStr(section[..], 0, was)
      modifies line, section
      ensures var e := Find(s, "]");
              && HasStr(section[..], 0, if e < |s| then Truncate(s[..e]) else was)
              && err' == if e < |s| || err != 0 then err else lineno
    {
      err' := err;
      var end := IniFindChars(line, i, "]", s);
      CharAt(line[..], i, s, end - i);
      if line[end] == ']' {
        HasHead(line[..], i, s, end - i);
        line[end] := '\0';
        IniStrncpy0(section, line, i, s[..end - i]);
      } else if err == 0 {
        err' := lineno;
      }
    }

    /** Cut at the separator, strip, and call the handler. */
    method HandOver(line: array<char>, section: array<char>, i: nat, end: nat, ghost t: string, ghost sec: string)
      returns (ok: bool)
      requires line != section && HasStr(section[..], 0, sec)
      requires HasStr(line[..], i, t) && i <= end < i + |t|
      modifies line, this`values
      ensures ok && values == Handle(old(values), Event(sec, RStrip(t[..end - i]), LSkip(t[end - i + 1..])))
    {
      var sect := ToString(section, 0, sec);
      CutPair(line, i, end, t);
      var name := ToString(line, i, RStrip(t[..end - i]));
      var value := ValueText(line, end + 1, end, t[end - i + 1..]);
      ok := ValueHandler(sect, name, value);
    }

    /** A name and value line: find the separator, hand over. */
    method ParsePairLine(line: array<char>, section: array<char>, i: nat, err: nat, lineno: nat, ghost t: string,
        ghost sec: string)
      returns (err': nat)
      requires line != section
      requires HasStr(line[..], i, t) && HasStr(section[..], 0, sec)
      modifies line, this`values
      ensures var e := Find(t, "=:");
              && values == (if e < |t| then Handle(old(values), Event(sec, RStrip(t[..e]), LSkip(t[e + 1..])))
                            else old(values))
              && err' == if e < |t| || err != 0 then err else lineno
    {
      err' := err;
      var end := IniFindChars(line, i, "=:", t);
      CharAt(line[..], i, t, end - i);
      if line[end] == '=' || line[end] == ':' {
        var ok := HandOver(line, section, i, end, t, sec);
        if !ok && err == 0 { err' := lineno; }
      } else if err == 0 {
        err' := lineno;
      }
    }

    /** The loop body, `piece` having just been read into `line` as line number `lineno`. */
    method HandleLine(line: array<char>, section: array<char>, err: nat, lineno: nat, ghost piece: string,
        ghost p: Parsed)
      returns (err': nat)
      requires line != section && section.Length == MAX_SECTION
      requires HasStr(line[..], 0, CStr(piece))
      requires HasStr(section[..], 0, p.section) && values == Store(p.events) && err == p.error
      modifies this`values, line, section
      ensures var q := Extend(p, Classify(piece), lineno);
              HasStr(section[..], 0, q.section) && values == Store(q.events) && err' == q.error
    {
      err' := err;
      var start := StripLine(line, piece);
      ghost var t := Strip(piece);
      CharAt(line[..], start, t, 0);
      if line[start] == '\0' || line[start] == ';' || line[start] == '#' {
        ExtendComment(p, piece, lineno);   // strchr also finds the NUL of a blank line
      } else if line[start] == '[' {
        HasTail(line[..], start, t, 1);
        err' := ParseSectionLine(line, section, start + 1, err, lineno, t[1..], p.section);
        ExtendSection(p, piece, lineno);
      } else {
        err' := ParsePairLine(line, section, start, err, lineno, t, p.section);
        ExtendPair(p, piece, lineno);
      }
    }

    /** Read and handle piece after piece. */
    method IniParseStream(text: string) returns (err: nat)
      requires values == map[]
      modifies this`values
      ensures var p := ParseLines(Pieces(text)); err == p.error && values == Store(p.events)
    {
      var line := new char[MAX_LINE];
      var section := new char[MAX_SECTION];
      section[0] := '\0';
      var lineno := 0;
      err := 0;
      ghost var done: seq<string> := [];
      var got, rest, piece := Fgets(line, text);
      while got
        invariant got ==> Pieces(text) == done + [piece] + Pieces(rest) && HasStr(line[..], 0, CStr(piece))
        invariant !got ==> Pieces(text) == done
        invariant lineno == |done|
        invariant var p := ParseLines(done);
                  HasStr(section[..], 0, p.section) && values == Store(p.events) && err == p.error
        decreases |rest|, got
      {
        lineno := lineno + 1;
        ghost var p := ParseLines(done);
        err := HandleLine(line, section, err, lineno, piece, p);
        ParseLinesSnoc(done, piece);
        done := done + [piece];
        got, rest, piece := Fgets(line, rest);
      }
    }

    /** The non-empty values the file gives for section and name, in any letter case and joined by newlines; the
        default if it has no such entry. */
    method Get(section: string, name: string, default_value: string) returns (r: string)
      requires Valid()
      ensures var vs := Matching(Entries(file), section, name);
              r == if vs == [] then default_value else Join(NonEmpty(vs))
    {
      if file.Content? { LookupMeets(file.text, section, name); }
      var key := MakeKey(section, name);
      return if key in values then values[key] else default_value;
    }

    /** The default also stands in if all those values are empty. */
    method GetString(section: string, name: string, default_value: string) returns (r: string)
      requires Valid()
      ensures var vs := NonEmpty(Matching(Entries(file), section, name));
              r == if vs == [] then default_value else Join(vs)
    {
      var str := Get(section, name, "");
      NonEmptyNone(Matching(Entries(file), section, name));
      JoinEmpty(NonEmpty(Matching(Entries(file), section, name)));
      return if str == "" then default_value else str;
    }
  }
}
