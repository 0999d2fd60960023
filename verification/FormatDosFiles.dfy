/** FormatFile: five regular-expression substitutions over a file's bytes. */
module FormatDosFiles {
  import opened Options
  import opened Bytes

  // ------------------------------------------------ re.sub for the five patterns

  datatype Pattern =
    | LoneLf          // ([^\r])\n    ->  \1\r\n
    | LineStartLf     // ^\n          ->  \r\n        (MULTILINE)
    | LastChar        // ([^\r\n])$   ->  \1\r\n
    | TrailingBlanks  // [ \t]+(\r\n) ->  \1
    | TabChar         // \t           ->  two spaces

  datatype Match = NoMatch | Match(length: nat, text: seq<byte>)

  predicate Blank(c: byte) { c == SPACE || c == TAB }

  /** `$` without MULTILINE: at the end, and before a line feed at the end. */
  predicate AtDollar(s: seq<byte>) { s == [] || s == [LF] }

  /** Whether a pattern matches at the front of `s`, where `prev` is the character before
      it (None at the start of the file). A run of blanks matches as a whole or not at all. */
  function MatchAt(p: Pattern, prev: Option<byte>, s: seq<byte>): (m: Match)
    ensures m.Match? ==> 1 <= m.length <= |s|
  {
    if s == [] then NoMatch
    else
      match p
      case LoneLf => if |s| > 1 && s[0] != CR && s[1] == LF then Match(2, [s[0], CR, LF]) else NoMatch
      case LineStartLf => if s[0] == LF && (prev.None? || prev.value == LF) then Match(1, [CR, LF]) else NoMatch
      case LastChar => if s[0] != CR && s[0] != LF && AtDollar(s[1..]) then Match(1, [s[0], CR, LF]) else NoMatch
      case TrailingBlanks =>
        var n := Leading(s, {SPACE, TAB});
        if n > 0 && n + 1 < |s| && s[n] == CR && s[n + 1] == LF then Match(n + 2, [CR, LF]) else NoMatch
      case TabChar => if s[0] == TAB then Match(1, [SPACE, SPACE]) else NoMatch
  }

  /** Leftmost matches, one after the other, never overlapping. */
  function Sub(p: Pattern, prev: Option<byte>, s: seq<byte>): seq<byte>
    decreases |s|
  {
    if s == [] then []
    else
      match MatchAt(p, prev, s)
      case NoMatch => [s[0]] + Sub(p, Some(s[0]), s[1..])
      case Match(n, text) => text + Sub(p, Some(s[n - 1]), s[n..])
  }

  function FormatFile(content: seq<byte>): seq<byte> {
    var content1 := Sub(LoneLf, None, content);
    var content2 := Sub(LineStartLf, None, content1);
    var content3 := Sub(LastChar, None, content2);
    var content4 := Sub(TrailingBlanks, None, content3);
    Sub(TabChar, None, content4)
  }

  // ------------------------------------------------ what it should compute

  /** Without the blanks at the end. */
  function DropBlanks(s: seq<byte>): (r: seq<byte>)
    ensures |r| <= |s| && r == s[..|r|]
    ensures forall i :: |r| <= i < |s| ==> Blank(s[i])
    ensures r != [] ==> !Blank(r[|r| - 1])
  {
    if s == [] then []
    else
      var r := DropBlanks(s[1..]);
      if r == [] && Blank(s[0]) then [] else [s[0]] + r
  }

  function Expand(s: seq<byte>): seq<byte> {
    if s == [] then [] else (if s[0] == TAB then [SPACE, SPACE] else [s[0]]) + Expand(s[1..])
  }

  function Clean(line: seq<byte>): seq<byte> { Expand(DropBlanks(line)) }

  /** The number of characters before the first line feed. */
  function LineLength(s: seq<byte>): (n: nat)
    ensures n <= |s| && (n < |s| ==> s[n] == LF)
    ensures forall i :: 0 <= i < n ==> s[i] != LF
  {
    if s == [] || s[0] == LF then 0 else 1 + LineLength(s[1..])
  }

  /** One carriage return taken off the end, if there is one. */
  function Chop(s: seq<byte>): seq<byte> {
    if s != [] && s[|s| - 1] == CR then s[..|s| - 1] else s
  }

  /** Line by line: every line ends in LF or CRLF; it loses its trailing blanks, its tabs
      become two spaces each, and CRLF ends it. Text after the last line end is treated as
      a line too, unless it ends in a carriage return. */
  function Format(s: seq<byte>): seq<byte>
    decreases |s|
  {
    var k := LineLength(s);
    if k < |s| then FormatOne(s, k) + Format(s[k + 1..]) else FormatLast(s)
  }

  function FormatOne(s: seq<byte>, k: nat): seq<byte>
    requires k < |s|
  {
    Clean(Chop(s[..k])) + CRLF
  }

  function FormatLast(s: seq<byte>): seq<byte> {
    if s == [] then [] else if s[|s| - 1] == CR then Expand(s) else Clean(s) + CRLF
  }

  lemma Kept(p: Pattern, prev: Option<byte>, c: byte, s: seq<byte>)
    requires MatchAt(p, prev, [c] + s).NoMatch?
    ensures Sub(p, prev, [c] + s) == [c] + Sub(p, Some(c), s)
  {
    assert ([c] + s)[1..] == s;
  }

  lemma Replaced(p: Pattern, prev: Option<byte>, s: seq<byte>)
    requires MatchAt(p, prev, s).Match?
    ensures var m := MatchAt(p, prev, s);
            Sub(p, prev, s) == m.text + Sub(p, Some(s[m.length - 1]), s[m.length..])
  {
  }

  // ------------------------------------------------ the first two stages

  /** A carriage return put in front of every line feed that has none. */
  function Insert(prev: Option<byte>, s: seq<byte>): seq<byte>
    decreases |s|
  {
    if s == [] then []
    else (if s[0] == LF && prev != Some(CR) then CRLF else [s[0]]) + Insert(Some(s[0]), s[1..])
  }

  lemma {:induction false} LineEndings(prev: Option<byte>, s: seq<byte>)
    requires s != [] && s[0] == LF ==> prev.None? || prev.value == LF || prev.value == CR
    ensures Sub(LineStartLf, prev, Sub(LoneLf, prev, s)) == Insert(prev, s)
    decreases |s|, 1
  {
    if s != [] {
      if |s| > 1 && s[0] != CR && s[1] == LF {
        PairEnding(prev, s);
      } else {
        LineEndings(Some(s[0]), s[1..]);
        var t := Sub(LoneLf, Some(s[0]), s[1..]);
        assert Sub(LoneLf, prev, s) == [s[0]] + t;
        assert ([s[0]] + t)[1..] == t;
      }
    }
  }

  lemma PairEnding(prev: Option<byte>, s: seq<byte>)
    requires |s| > 1 && s[0] != CR && s[1] == LF
    requires s[0] == LF ==> prev.None? || prev.value == LF || prev.value == CR
    ensures Sub(LineStartLf, prev, Sub(LoneLf, prev, s)) == Insert(prev, s)
    decreases |s|, 0
  {
    hide Sub;
    LineEndings(Some(LF), s[2..]);
    var t := Sub(LoneLf, Some(LF), s[2..]);
    Replaced(LoneLf, prev, s);
    assert [s[0], CR, LF] + t == [s[0]] + (CRLF + t);
    CrlfKept(s[0], t);
    hide MatchAt;
    StartOfLine(prev, s[0], CRLF + t);
    assert Insert(Some(s[0]), s[1..]) == CRLF + Insert(Some(LF), s[2..]) by {
      assert s[1..][1..] == s[2..];
    }
  }

  lemma CrlfKept(prev: byte, t: seq<byte>)
    ensures Sub(LineStartLf, Some(prev), CRLF + t) == CRLF + Sub(LineStartLf, Some(LF), t)
  {
    hide Sub;
    Kept(LineStartLf, Some(CR), LF, t);
    Kept(LineStartLf, Some(prev), CR, [LF] + t);
    assert CRLF + t == [CR] + ([LF] + t);
  }

  lemma StartOfLine(prev: Option<byte>, c: byte, t: seq<byte>)
    requires c == LF ==> prev.None? || prev.value == LF || prev.value == CR
    ensures Sub(LineStartLf, prev, [c] + t) ==
            (if c == LF && prev != Some(CR) then CRLF else [c]) + Sub(LineStartLf, Some(c), t)
  {
    assert ([c] + t)[1..] == t;
  }

  // ------------------------------------------------ the other stages

  /** Every line feed stands behind a carriage return. */
  predicate AllCrlf(prev: Option<byte>, s: seq<byte>)
    decreases |s|
  {
    s != [] ==> (s[0] == LF ==> prev == Some(CR)) && AllCrlf(Some(s[0]), s[1..])
  }

  lemma {:induction false} InsertedAll(prev: Option<byte>, s: seq<byte>)
    ensures AllCrlf(prev, Insert(prev, s))
    decreases |s|
  {
    if s != [] {
      InsertedAll(Some(s[0]), s[1..]);
      var t := Insert(Some(s[0]), s[1..]);
      if s[0] == LF && prev != Some(CR) {
        assert (CRLF + t)[1..] == [LF] + t && ([LF] + t)[1..] == t;
      } else {
        assert ([s[0]] + t)[1..] == t;
      }
    }
  }

  /** A line end put at the end of a text that stops in the middle of a line. */
  function Ended(s: seq<byte>): seq<byte> {
    if s != [] && s[|s| - 1] != CR && s[|s| - 1] != LF then s + CRLF else s
  }

  lemma {:induction false} FileEnd(prev: Option<byte>, s: seq<byte>)
    requires AllCrlf(prev, s)
    ensures Sub(LastChar, prev, s) == Ended(s)
    decreases |s|
  {
    if s != [] {
      FileEnd(Some(s[0]), s[1..]);
      assert s == [s[0]] + s[1..];
      if AtDollar(s[1..]) && s[0] != CR && s[0] != LF {
        assert s[1..] == [] by {
          assert AllCrlf(Some(s[0]), s[1..]);
        }
      }
    }
  }

  lemma {:induction false} TabsExpanded(prev: Option<byte>, s: seq<byte>)
    ensures Sub(TabChar, prev, s) == Expand(s)
    decreases |s|
  {
    if s != [] {
      TabsExpanded(Some(s[0]), s[1..]);
    }
  }

  lemma {:induction false} NothingToTrim(prev: Option<byte>, s: seq<byte>)
    requires LF !in s
    ensures Sub(TrailingBlanks, prev, s) == s
    decreases |s|
  {
    if s != [] {
      hide Sub, MatchAt;
      NothingToTrim(Some(s[0]), s[1..]);
      NoRunBeforeLf(prev, s);
      assert s == [s[0]] + s[1..];
      Kept(TrailingBlanks, prev, s[0], s[1..]);
    }
  }

  lemma NoRunBeforeLf(prev: Option<byte>, s: seq<byte>)
    requires LF !in s
    ensures MatchAt(TrailingBlanks, prev, s) == NoMatch
  {
    hide Leading;
    var n := Leading(s, {SPACE, TAB});
    assert n + 1 < |s| ==> s[n + 1] in s;
  }

  /** On one line the fourth stage drops the trailing blanks. */
  lemma {:induction false} LineTrimmed(prev: Option<byte>, line: seq<byte>, rest: seq<byte>)
    requires LF !in line
    ensures Sub(TrailingBlanks, prev, line + CRLF + rest) == DropBlanks(line) + CRLF + Sub(TrailingBlanks, Some(LF), rest)
    decreases |line|
  {
    hide Sub, MatchAt, DropBlanks, Leading;
    var s := line + CRLF + rest;
    if line == [] {
      EmptyLineKept(prev, rest);
      assert s == CRLF + rest && DropBlanks(line) == [];
    } else {
      var tail := line[1..] + CRLF + rest;
      LineTrimmed(Some(line[0]), line[1..], rest);
      assert s == [line[0]] + tail;
      if DropBlanks(line) == [] {
        BlankRun(line, rest);
        assert s[|line| + 2..] == rest && s[|line|] == CR && s[|line| + 1] == LF;
        RunMatches(prev, s);
        Replaced(TrailingBlanks, prev, s);
      } else {
        NoRunToTheEnd(prev, line, rest);
        Kept(TrailingBlanks, prev, line[0], tail);
      }
    }
  }

  lemma EmptyLineKept(prev: Option<byte>, rest: seq<byte>)
    ensures Sub(TrailingBlanks, prev, CRLF + rest) == CRLF + Sub(TrailingBlanks, Some(LF), rest)
  {
    hide Sub;
    Kept(TrailingBlanks, Some(CR), LF, rest);
    Kept(TrailingBlanks, prev, CR, [LF] + rest);
    assert CRLF + rest == [CR] + ([LF] + rest);
  }

  lemma BlankRun(line: seq<byte>, rest: seq<byte>)
    requires DropBlanks(line) == []
    ensures Leading(line + CRLF + rest, {SPACE, TAB}) == |line|
  {
    hide DropBlanks, Leading;
    var s := line + CRLF + rest;
    var n := Leading(s, {SPACE, TAB});
    assert s[|line|] == CR;
    assert forall i :: 0 <= i < |line| ==> s[i] == line[i] && Blank(s[i]);
  }

  lemma RunMatches(prev: Option<byte>, s: seq<byte>)
    requires var n := Leading(s, {SPACE, TAB}); n > 0 && n + 1 < |s| && s[n] == CR && s[n + 1] == LF
    ensures MatchAt(TrailingBlanks, prev, s) == Match(Leading(s, {SPACE, TAB}) + 2, CRLF)
  {
    hide Leading;
  }

  lemma NoRunToTheEnd(prev: Option<byte>, line: seq<byte>, rest: seq<byte>)
    requires LF !in line && line != [] && DropBlanks(line) != []
    ensures MatchAt(TrailingBlanks, prev, line + CRLF + rest) == NoMatch
    ensures DropBlanks(line) == [line[0]] + DropBlanks(line[1..])
  {
    var s := line + CRLF + rest;
    var n := Leading(s, {SPACE, TAB});
    var d := DropBlanks(line);
    assert !Blank(line[|d| - 1]) && s[|d| - 1] == line[|d| - 1];
    hide Leading, DropBlanks;
    assert n < |line|;
    assert s[n + 1] == if n + 1 < |line| then line[n + 1] else CR;
    assert n + 1 < |line| ==> line[n + 1] in line;
  }

  // ------------------------------------------------ line by line

  lemma InsertChar(prev: Option<byte>, s: seq<byte>)
    requires s != []
    ensures Insert(prev, s) == (if s[0] == LF && prev != Some(CR) then CRLF else [s[0]]) + Insert(Some(s[0]), s[1..])
  {
  }

  lemma LineStep(s: seq<byte>)
    requires s != []
    ensures LineLength(s) == if s[0] == LF then 0 else 1 + LineLength(s[1..])
  {
  }

  lemma {:induction false} InsertLine(prev: Option<byte>, s: seq<byte>)
    requires LineLength(s) < |s|
    ensures var k := LineLength(s);
            Insert(prev, s) ==
            (if k == 0 && prev == Some(CR) then [LF] else Chop(s[..k]) + CRLF) + Insert(Some(LF), s[k + 1..])
    decreases |s|
  {
    hide Insert, LineLength, Chop;
    var k := LineLength(s);
    InsertChar(prev, s);
    LineStep(s);
    if k == 0 {
      ChopNone(s[..k]);
    } else {
      InsertLine(Some(s[0]), s[1..]);
      assert s[1..][k..] == s[k + 1..];
      ChopNext(s, k);
    }
  }

  lemma ChopNone(s: seq<byte>)
    requires s == []
    ensures Chop(s) + CRLF == CRLF
  {
  }

  lemma ChopNext(s: seq<byte>, k: nat)
    requires 0 < k < |s|
    ensures Chop(s[..k]) + CRLF ==
            [s[0]] + if k == 1 && s[0] == CR then [LF] else Chop(s[1..][..k - 1]) + CRLF
  {
    if k == 1 {
      assert s[..1] == [s[0]] && s[1..][..0] == [];
    } else {
      assert s[..k] == [s[0]] + s[1..][..k - 1];
    }
  }

  lemma {:induction false} InsertNothing(prev: Option<byte>, s: seq<byte>)
    requires LF !in s
    ensures Insert(prev, s) == s
    decreases |s|
  {
    if s != [] {
      InsertNothing(Some(s[0]), s[1..]);
    }
  }

  lemma {:induction false} ExpandAppend(u: seq<byte>, v: seq<byte>)
    ensures Expand(u + v) == Expand(u) + Expand(v)
  {
    if u == [] {
      assert u + v == v;
    } else {
      assert (u + v)[1..] == u[1..] + v;
      ExpandAppend(u[1..], v);
    }
  }

  lemma ExpandLine(line: seq<byte>, rest: seq<byte>)
    ensures Expand(line + CRLF + rest) == Expand(line) + CRLF + Expand(rest)
  {
    assert Expand(CRLF) == CRLF by {
      assert CRLF[1..] == [LF] && [LF][1..] == [];
      assert Expand([LF]) == [LF];
    }
    hide Expand;
    ExpandAppend(line + CRLF, rest);
    ExpandAppend(line, CRLF);
  }

  lemma EndedLine(line: seq<byte>, rest: seq<byte>)
    ensures Ended(line + CRLF + rest) == line + CRLF + Ended(rest)
  {
    var s := line + CRLF + rest;
    if rest == [] {
      assert s == line + CRLF;
    } else {
      assert s[|s| - 1] == rest[|rest| - 1];
    }
  }

  /** The stages from the third on, line by line. */
  lemma {:induction false} LaterStages(prev: Option<byte>, s: seq<byte>)
    ensures Expand(Sub(TrailingBlanks, prev, Ended(Insert(None, s)))) == Format(s)
    decreases |s|
  {
    hide Sub, Insert, Expand, Ended, DropBlanks, Format, LineLength;
    var k := LineLength(s);
    if k < |s| {
      var line, rest := Chop(s[..k]), s[k + 1..];
      LaterStages(Some(LF), rest);
      InsertLine(None, s);
      FreshLine(rest);
      var u := Insert(None, rest);
      hide Chop;
      EndedLine(line, u);
      LineTrimmed(prev, line, Ended(u));
      ExpandLine(DropBlanks(line), Sub(TrailingBlanks, Some(LF), Ended(u)));
      FormatLine(s);
    } else {
      LastLine(prev, s);
    }
  }

  lemma FormatLine(s: seq<byte>)
    requires LineLength(s) < |s|
    ensures var k := LineLength(s);
            Format(s) == Clean(Chop(s[..k])) + CRLF + Format(s[k + 1..])
  {
    hide Format, Clean, Chop, LineLength;
    FormatStep(s, LineLength(s));
  }

  lemma FormatStep(s: seq<byte>, k: nat)
    requires k == LineLength(s) < |s|
    ensures Format(s) == FormatOne(s, k) + Format(s[k + 1..])
  {
    hide FormatOne, LineLength, FormatLast;
  }

  lemma FormatLastLine(s: seq<byte>)
    requires LF !in s
    ensures Format(s) == FormatLast(s)
  {
    hide FormatOne, LineLength, FormatLast;
  }

  lemma FreshLine(s: seq<byte>)
    ensures Insert(Some(LF), s) == Insert(None, s)
  {
  }

  lemma LastLine(prev: Option<byte>, s: seq<byte>)
    requires LF !in s
    ensures Expand(Sub(TrailingBlanks, prev, Ended(Insert(None, s)))) == Format(s)
  {
    InsertNothing(None, s);
    if s != [] && s[|s| - 1] != CR {
      assert s[|s| - 1] in s;
      assert Ended(s) == s + CRLF + [];
      LineTrimmed(prev, s, []);
      ExpandLine(DropBlanks(s), []);
    } else {
      NothingToTrim(prev, s);
    }
  }

  /** The five substitutions compute the line-by-line format, for every byte string. */
  lemma FormatFileExact(s: seq<byte>)
    ensures FormatFile(s) == Format(s)
  {
    hide Sub, Insert, Expand, Ended, Format, AllCrlf;
    LineEndings(None, s);
    InsertedAll(None, s);
    FileEnd(None, Insert(None, s));
    LaterStages(None, s);
    TabsExpanded(None, Sub(TrailingBlanks, None, Ended(Insert(None, s))));
  }

  /** A tab becomes two spaces and every other byte stays as it is, byte by byte. */
  lemma ExpandExactly(u: seq<byte>, v: seq<byte>, c: byte)
    ensures Expand(u + v) == Expand(u) + Expand(v)
    ensures Expand([TAB]) == [SPACE, SPACE] && (c != TAB ==> Expand([c]) == [c]) && Expand([]) == []
  {
    ExpandAppend(u, v);
    assert [TAB][1..] == [] && [c][1..] == [];
  }

  // ------------------------------------------------ formatting twice

  lemma {:induction false} Expanded(s: seq<byte>)
    ensures TAB !in Expand(s)
    ensures LF !in s ==> LF !in Expand(s)
    ensures s != [] ==> Expand(s) != [] && Expand(s)[|Expand(s)| - 1] == if s[|s| - 1] == TAB then SPACE else s[|s| - 1]
  {
    if s != [] {
      Expanded(s[1..]);
    }
  }

  lemma {:induction false} NoTabs(s: seq<byte>)
    requires TAB !in s
    ensures Expand(s) == s
  {
    if s != [] {
      NoTabs(s[1..]);
    }
  }

  lemma {:induction false} NoBlanks(s: seq<byte>)
    requires s != [] ==> !Blank(s[|s| - 1])
    ensures DropBlanks(s) == s
  {
    if s != [] {
      NoBlanks(s[1..]);
    }
  }

  /** A cleaned line has no tab, no line feed and no blank at the end. */
  lemma Cleaned(line: seq<byte>)
    requires LF !in line
    ensures var c := Clean(line);
            && TAB !in c && LF !in c && (c != [] ==> !Blank(c[|c| - 1])) && Clean(c) == c
            && (c != [] ==> DropBlanks(line) != [] && c[|c| - 1] == DropBlanks(line)[|DropBlanks(line)| - 1])
  {
    hide Expand, DropBlanks;
    var d := DropBlanks(line);
    assert LF !in d;
    Expanded(d);
    var c := Clean(line);
    assert d == [] ==> c == [] by { if d == [] { NoTabs(d); } }
    NoBlanks(c);
    NoTabs(c);
  }

  lemma {:induction false} LineEndsAt(s: seq<byte>, n: nat)
    requires n < |s| && s[n] == LF && forall i :: 0 <= i < n ==> s[i] != LF
    ensures LineLength(s) == n
  {
    if n > 0 {
      LineEndsAt(s[1..], n - 1);
    }
  }

  lemma FirstLine(line: seq<byte>, rest: seq<byte>)
    requires LF !in line
    ensures var s := line + CRLF + rest;
            LineLength(s) == |line| + 1 && Chop(s[..|line| + 1]) == line && s[|line| + 2..] == rest
  {
    hide LineLength;
    var s := line + CRLF + rest;
    LineEndsAt(s, |line| + 1);
    assert s[..|line| + 1] == line + [CR];
  }

  lemma {:induction false} FormatTwice(s: seq<byte>)
    ensures Format(Format(s)) == Format(s)
    decreases |s|
  {
    hide Format, Expand, LineLength, DropBlanks;
    var k := LineLength(s);
    if k < |s| {
      var line := Chop(s[..k]);
      FormatTwice(s[k + 1..]);
      Cleaned(line);
      FormatLine(s);
      FirstLine(Clean(line), Format(s[k + 1..]));
      FormatLine(Format(s));
    } else {
      FormatLastLine(s);
      if s != [] && s[|s| - 1] == CR {
        Expanded(s);
        NoTabs(Expand(s));
        FormatLastLine(Expand(s));
      } else if s != [] {
        Cleaned(s);
        assert Clean(s) + CRLF == Clean(s) + CRLF + [];
        FirstLine(Clean(s), []);
        FormatLine(Format(s));
        FormatLastLine([]);
      }
    }
  }

  /** Formatting a formatted file changes nothing. */
  lemma Idempotent(s: seq<byte>)
    ensures FormatFile(FormatFile(s)) == FormatFile(s)
  {
    hide FormatFile, Format;
    FormatFileExact(s);
    FormatFileExact(FormatFile(s));
    FormatTwice(s);
  }
}
