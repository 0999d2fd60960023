/** A file is formatted, git writes the diff that adds it, and the patch checker reads that
    diff. */
module FormatThenCheck {
  import opened Bytes
  import F = FormatDosFiles
  import P = PatchCheck

  /** Where str.splitlines ends a line, besides CR LF as one. */
  predicate Boundary(c: byte) {
    10 <= c <= 13 || 28 <= c <= 30 || c == 0x85
  }

  /** The length of the first line, its end included. */
  function FirstLength(s: seq<byte>): (n: nat)
    requires s != []
    ensures 1 <= n <= |s|
  {
    if s[0] == CR && |s| > 1 && s[1] == LF then 2
    else if Boundary(s[0]) || |s| == 1 then 1
    else 1 + FirstLength(s[1..])
  }

  /** str.splitlines(True). */
  function SplitLines(s: seq<byte>): seq<P.Line>
    decreases |s|
  {
    if s == [] then []
    else
      var n := FirstLength(s);
      [s[..n]] + SplitLines(s[n..])
  }

  predicate Printable(c: byte) { 0x20 <= c <= 0x7e }

  predicate AllPrintable(s: seq<byte>) {
    forall i :: 0 <= i < |s| ==> Printable(s[i])
  }

  /** Printable ASCII, tabs, and line feeds and carriage returns anywhere. */
  predicate AsciiText(s: seq<byte>) {
    forall i :: 0 <= i < |s| ==> Printable(s[i]) || s[i] in {TAB, LF, CR}
  }

  /** A carriage return that is not part of CRLF. */
  predicate BareCr(s: seq<byte>, i: nat)
    requires i < |s|
  {
    s[i] == CR && !(i + 1 < |s| && s[i + 1] == LF)
  }

  /** Text with LF or CRLF at line ends. */
  predicate SourceText(s: seq<byte>) {
    AsciiText(s) && forall i :: 0 <= i < |s| ==> !BareCr(s, i)
  }

  predicate EndsInBlank(u: seq<byte>) { u != [] && F.Blank(u[|u| - 1]) }

  /** A text that the checker lets end in a bare carriage return: it names a submodule
      commit, if CRLF is asked for, and does not end in a blank. */
  predicate Exempt(rules: P.Rules, u: seq<byte>) {
    (rules.forceCrlf ==> P.Contains(u, P.SUBPROJECT)) && !EndsInBlank(u)
  }

  // ------------------------------------------------ one line of the output

  predicate Inner(s: seq<byte>) {
    forall i :: 0 <= i < |s| ==> Printable(s[i]) || s[i] == TAB
  }

  lemma {:induction false} ExpandedPrintable(s: seq<byte>)
    requires Inner(s)
    ensures AllPrintable(F.Expand(s))
  {
    if s != [] {
      ExpandedPrintable(s[1..]);
    }
  }

  lemma CleanPrintable(s: seq<byte>)
    requires Inner(s)
    ensures AllPrintable(F.Clean(s))
    ensures F.Clean(s) != [] ==> F.Clean(s)[|F.Clean(s)| - 1] != SPACE
  {
    hide F.Expand;
    ExpandedPrintable(F.DropBlanks(s));
    F.Cleaned(s);
  }

  /** The first line of a text ends at its first carriage return, with the line feed
      behind it if there is one. */
  lemma {:induction false} OneLine(c: seq<byte>, rest: seq<byte>)
    requires Inner(c)
    ensures FirstLength(c + [CR] + rest) == |c| + if rest != [] && rest[0] == LF then 2 else 1
  {
    var s := c + [CR] + rest;
    if c != [] {
      assert s[1..] == c[1..] + [CR] + rest;
      OneLine(c[1..], rest);
      assert s[0] == c[0];
    }
  }

  lemma CrlfSplitOff(c: seq<byte>, rest: seq<byte>)
    requires Inner(c)
    ensures SplitLines(c + CRLF + rest) == [c + CRLF] + SplitLines(rest)
  {
    var s := c + CRLF + rest;
    OneLine(c, [LF] + rest);
    assert s == c + [CR] + ([LF] + rest);
    assert s[..|c| + 2] == c + CRLF && s[|c| + 2..] == rest;
  }

  lemma CrSplitOff(c: seq<byte>, rest: seq<byte>)
    requires Inner(c) && (rest != [] ==> rest[0] != LF)
    ensures SplitLines(c + [CR] + rest) == [c + [CR]] + SplitLines(rest)
  {
    var s := c + [CR] + rest;
    OneLine(c, rest);
    assert s[..|c| + 1] == c + [CR] && s[|c| + 1..] == rest;
  }

  /** Which lines pass, by their text and their line end. */
  lemma LineVerdict(rules: P.Rules, c: seq<byte>, eol: seq<byte>)
    requires Inner(c) && eol in {CRLF, [CR], [LF]}
    ensures P.LayoutOk(rules, P.CutAll(c + eol)) <==>
            && (rules.forceCrlf && eol != CRLF ==> P.Contains(c, P.SUBPROJECT))
            && (rules.forceNoTabs ==> TAB !in c)
            && !EndsInBlank(c)
  {
    hide P.Contains, P.CutAll;
    if c != [] {
      assert Printable(c[|c| - 1]) || c[|c| - 1] == TAB;
    }
    P.LineCut(c + eol, c, eol);
  }

  /** Which printable lines pass. */
  lemma LinePasses(rules: P.Rules, c: seq<byte>, eol: seq<byte>)
    requires AllPrintable(c) && (eol == CRLF || eol == [CR])
    ensures P.LayoutOk(rules, P.CutAll(c + eol)) <==>
            && (rules.forceCrlf && eol != CRLF ==> P.Contains(c, P.SUBPROJECT))
            && (c != [] ==> c[|c| - 1] != SPACE)
  {
    hide P.Contains, P.CutAll, P.LayoutOk;
    LineVerdict(rules, c, eol);
    if c != [] {
      assert Printable(c[|c| - 1]);
    }
  }

  // ------------------------------------------------ tabs and the phrase

  /** No tab, no two spaces in a row and no space at the end. */
  predicate SingleSpaced(p: seq<byte>) {
    && TAB !in p && (p != [] ==> p[|p| - 1] != SPACE)
    && forall i :: 0 <= i < |p| - 1 ==> p[i] != SPACE || p[i + 1] != SPACE
  }

  lemma {:induction false} PrefixExpanded(u: seq<byte>, p: seq<byte>)
    requires SingleSpaced(p)
    ensures P.StartsWith(F.Expand(u), p) <==> P.StartsWith(u, p)
  {
    if u != [] && p != [] {
      var e, rest := F.Expand(u), F.Expand(u[1..]);
      if u[0] == TAB {
        assert e[0] == SPACE && e[1] == SPACE;
        FirstTwo(e, p);
        FirstTwo(u, p);
      } else {
        assert SingleSpaced(p[1..]) by {
          assert forall i :: 0 <= i < |p[1..]| ==> p[1..][i] == p[i + 1];
        }
        PrefixExpanded(u[1..], p[1..]);
        assert e == [u[0]] + rest;
        StartsWithNext(e, p);
        assert e[1..] == rest;
        StartsWithNext(u, p);
      }
    }
  }

  lemma FirstTwo(w: seq<byte>, p: seq<byte>)
    requires p != []
    ensures P.StartsWith(w, p) ==> |w| >= |p| && p[0] == w[0] && (|p| > 1 ==> p[1] == w[1])
  {
  }

  lemma StartsWithNext(w: seq<byte>, p: seq<byte>)
    requires w != [] && p != []
    ensures P.StartsWith(w, p) <==> w[0] == p[0] && P.StartsWith(w[1..], p[1..])
  {
    if |p| <= |w| {
      assert w[..|p|] == [w[0]] + w[1..][..|p| - 1];
      assert p == [p[0]] + p[1..];
    }
  }

  lemma ContainsNext(w: seq<byte>, p: seq<byte>)
    requires w != []
    ensures P.Contains(w, p) <==> P.StartsWith(w, p) || P.Contains(w[1..], p)
  {
    hide P.StartsWith;
    if P.Contains(w, p) {
      var i :| 0 <= i <= |w| && P.StartsWith(w[i..], p);
      assert i == 0 ==> w[i..] == w;
      assert i > 0 ==> w[1..][i - 1..] == w[i..];
    }
    assert w[0..] == w;
    if P.Contains(w[1..], p) {
      var i :| 0 <= i <= |w[1..]| && P.StartsWith(w[1..][i..], p);
      assert w[1..][i..] == w[i + 1..];
    }
  }

  /** Two spaces for a tab neither make nor break the phrase. */
  lemma {:induction false} PhraseExpanded(u: seq<byte>, p: seq<byte>)
    requires SingleSpaced(p) && p != [] && p[0] != SPACE
    ensures P.Contains(F.Expand(u), p) <==> P.Contains(u, p)
  {
    hide P.Contains, P.StartsWith, SingleSpaced;
    if u != [] {
      var e, rest := F.Expand(u), F.Expand(u[1..]);
      PhraseExpanded(u[1..], p);
      PrefixExpanded(u, p);
      ContainsNext(u, p);
      ContainsNext(e, p);
      if u[0] == TAB {
        var tail := [SPACE] + rest;
        assert e[1..] == tail && tail[1..] == rest;
        ContainsNext(tail, p);
        StartsWithNext(tail, p);
        StartsWithNext(e, p);
      } else {
        assert e[1..] == rest;
      }
    }
  }

  lemma PhraseSpacing()
    ensures SingleSpaced(P.SUBPROJECT) && P.SUBPROJECT != [] && P.SUBPROJECT[0] != SPACE
  {
    var s := "Subproject commit";
    assert |s| == 17 && s[16] == 't' && s[0] == 'S';
    assert forall i :: 0 <= i < |s| ==> s[i] != ' ' || i == 10;
    assert forall i :: 0 <= i < |s| ==> s[i] != '\t';
    assert forall i :: 0 <= i < |s| ==> P.SUBPROJECT[i] == s[i] as int;
  }

  // ------------------------------------------------ the format, segment by segment

  /** The number of characters before the first line feed or carriage return. */
  function SegmentLength(s: seq<byte>): (n: nat)
    ensures n <= |s| && (n < |s| ==> P.EndsLine(s[n]))
    ensures forall i :: 0 <= i < n ==> !P.EndsLine(s[i])
  {
    if s == [] || P.EndsLine(s[0]) then 0 else 1 + SegmentLength(s[1..])
  }

  predicate NoEnds(a: seq<byte>) { CR !in a && LF !in a }

  lemma {:induction false} BlanksBehind(u: seq<byte>, t: seq<byte>)
    requires u != [] && !F.Blank(u[|u| - 1])
    ensures F.DropBlanks(u + t) == u + F.DropBlanks(t)
  {
    hide F.DropBlanks;
    BlanksNext(u + t);
    assert (u + t)[1..] == u[1..] + t;
    if |u| == 1 {
      assert u[1..] + t == t;
      assert u == [u[0]];
    } else {
      BlanksBehind(u[1..], t);
      assert u == [u[0]] + u[1..];
    }
  }

  lemma BlanksNext(s: seq<byte>)
    requires s != []
    ensures var r := F.DropBlanks(s[1..]);
            F.DropBlanks(s) == if r == [] && F.Blank(s[0]) then [] else [s[0]] + r
  {
  }

  lemma ExpandBehind(a: seq<byte>, t: seq<byte>)
    ensures F.Expand(a + [CR] + t) == F.Expand(a) + [CR] + F.Expand(t)
  {
    assert F.Expand([CR]) == [CR] by {
      assert F.Expand([]) == [] && [CR][1..] == [];
    }
    hide F.Expand;
    F.ExpandAppend(a + [CR], t);
    F.ExpandAppend(a, [CR]);
  }

  lemma CleanBehind(a: seq<byte>, t: seq<byte>)
    ensures F.Clean(a + [CR] + t) == F.Expand(a) + [CR] + F.Clean(t)
  {
    hide F.Expand, F.DropBlanks;
    BlanksBehind(a + [CR], t);
    ExpandBehind(a, F.DropBlanks(t));
  }

  lemma {:induction false} LineBehind(u: seq<byte>, rest: seq<byte>)
    requires LF !in u
    ensures F.LineLength(u + rest) == |u| + F.LineLength(rest)
  {
    if u == [] {
      assert u + rest == rest;
    } else {
      LineBehind(u[1..], rest);
      assert (u + rest)[1..] == u[1..] + rest;
    }
  }

  lemma ChopBehind(u: seq<byte>, t: seq<byte>)
    requires t != []
    ensures F.Chop(u + t) == u + F.Chop(t)
  {
  }

  lemma BareInLine(a: seq<byte>, rest: seq<byte>)
    requires NoEnds(a) && LF in rest && rest[0] != LF
    ensures F.Format(a + [CR] + rest) == F.Expand(a) + [CR] + F.Format(rest)
  {
    hide F.Format, F.Expand, F.Clean, F.LineLength, F.Chop;
    var u, k := a + [CR], F.LineLength(rest);
    LineBehind(u, rest);
    F.FormatLine(u + rest);
    F.FormatLine(rest);
    var line := rest[..k];
    assert (u + rest)[..|u| + k] == u + line && (u + rest)[|u| + k + 1..] == rest[k + 1..];
    ChopBehind(u, line);
    CleanBehind(a, F.Chop(line));
  }

  lemma BareInTail(a: seq<byte>, rest: seq<byte>)
    requires NoEnds(a) && LF !in rest
    ensures F.Format(a + [CR] + rest) == F.Expand(a) + [CR] + F.Format(rest)
  {
    hide F.Format, F.Expand, F.Clean;
    var s := a + [CR] + rest;
    F.FormatLastLine(s);
    F.FormatLastLine(rest);
    CleanBehind(a, rest);
    ExpandBehind(a, rest);
    if rest == [] {
      F.NoTabs([]);
    } else {
      assert s[|s| - 1] == rest[|rest| - 1];
    }
  }

  /** A bare carriage return cuts the format in two. */
  lemma BareFormat(a: seq<byte>, rest: seq<byte>)
    requires NoEnds(a) && (rest != [] ==> rest[0] != LF)
    ensures F.Format(a + [CR] + rest) == F.Expand(a) + [CR] + F.Format(rest)
  {
    if LF in rest {
      BareInLine(a, rest);
    } else {
      BareInTail(a, rest);
    }
  }

  /** A line feed ends a line, with the carriage return before it if there is one. */
  lemma EndFormat(a: seq<byte>, eol: seq<byte>, rest: seq<byte>)
    requires NoEnds(a) && (eol == CRLF || eol == [LF])
    ensures F.Format(a + eol + rest) == F.Clean(a) + CRLF + F.Format(rest)
  {
    hide F.Format, F.Clean, F.LineLength;
    var s, n := a + eol + rest, |a| + |eol| - 1;
    assert s[n] == LF;
    assert forall i :: 0 <= i < n ==> s[i] != LF;
    F.LineEndsAt(s, n);
    F.FormatLine(s);
    assert s[..n] == if eol == CRLF then a + [CR] else a;
    assert F.Chop(s[..n]) == a;
    assert s[n + 1..] == rest;
  }

  lemma NoLeadingLf(s: seq<byte>)
    ensures F.Format(s) != [] ==> F.Format(s)[0] != LF
  {
    hide F.Format, F.LineLength, F.Clean, F.Expand;
    if LF in s {
      F.FormatLine(s);
      var line := F.Chop(s[..F.LineLength(s)]);
      assert LF !in line;
      F.Cleaned(line);
    } else {
      F.FormatLastLine(s);
      F.Cleaned(s);
      F.Expanded(s);
    }
  }

  // ------------------------------------------------ the diff that adds a file

  const NO_NEWLINE: seq<byte> := Ascii("\\ No newline at end of file\n")

  function LineOf(w: seq<byte>, k: nat): seq<byte>
    requires k < |w|
  {
    w[..k + 1]
  }

  function Closed(w: seq<byte>): seq<byte> { w + [LF] + NO_NEWLINE }

  /** The rest of a file of which the current line has its '+'. */
  function RestAdded(w: seq<byte>): seq<byte>
    decreases |w|, 0
  {
    var k := F.LineLength(w);
    if k < |w| then LineOf(w, k) + Added(w[k + 1..]) else Closed(w)
  }

  /** The hunk git writes for a new file: a '+' before every line, a line end being a line
      feed, and a remark if the last line has none. */
  function Added(w: seq<byte>): seq<byte>
    decreases |w|, 1
  {
    if w == [] then [] else [PLUS] + RestAdded(w)
  }

  /** A line of a diff header: printable text and a line feed. */
  predicate HeadLine(l: P.Line) {
    l != [] && l[|l| - 1] == LF && AllPrintable(l[..|l| - 1])
  }

  /** The diff command, header lines, and the hunk marker. */
  predicate WellFormedHead(head: seq<P.Line>) {
    P.OpensHunk(head) && forall i :: 0 <= i < |head| ==> HeadLine(head[i])
  }

  function Flat(lines: seq<P.Line>): seq<byte> {
    if lines == [] then [] else lines[0] + Flat(lines[1..])
  }

  function Diff(head: seq<P.Line>, w: seq<byte>): seq<byte> {
    Flat(head) + Added(w)
  }

  /** The ends of str.splitlines: line feed, vertical tab, form feed, carriage return, the
      file, group and record separators, and next line. */
  const LINE_ENDS: set<byte> := {0x0a, 0x0b, 0x0c, 0x0d, 0x1c, 0x1d, 0x1e, 0x85}

  /** A line of splitlines has a line end only at its end, where CR LF counts as one. */
  predicate OneEnd(l: P.Line) {
    l != [] && forall i :: 0 <= i < |l| - 1 && l[i] in LINE_ENDS ==> i == |l| - 2 && l[i] == CR && l[i + 1] == LF
  }

  lemma {:induction false} FirstEnds(s: seq<byte>)
    requires s != []
    ensures var n := FirstLength(s);
            OneEnd(s[..n]) && (n < |s| ==> s[n - 1] in LINE_ENDS && !(s[n - 1] == CR && s[n] == LF))
  {
    if !Boundary(s[0]) && |s| > 1 {
      FirstEnds(s[1..]);
      var n := FirstLength(s);
      assert s[..n] == [s[0]] + s[1..][..n - 1];
    }
  }

  /** A line is ended, and the next one does not take its LF away. */
  predicate Parts(l: P.Line, next: P.Line) {
    && l != [] && l[|l| - 1] in LINE_ENDS
    && !(l[|l| - 1] == CR && next != [] && next[0] == LF)
  }

  predicate WellSplit(ls: seq<P.Line>) {
    && (forall k :: 0 <= k < |ls| ==> OneEnd(ls[k]))
    && forall k :: 0 <= k < |ls| - 1 ==> Parts(ls[k], ls[k + 1])
  }

  /** What splitlines makes of any text: the lines join to the text, each but the last has a
      line end, at its end, and CR and LF are not torn apart. */
  lemma {:induction false} SplitExactly(s: seq<byte>)
    ensures Flat(SplitLines(s)) == s && WellSplit(SplitLines(s))
    decreases |s|
  {
    hide OneEnd, FirstLength, Parts, WellSplit, SplitLines, Flat;
    if s == [] {
      SplitNothing();
    } else {
      FirstEnds(s);
      var n := FirstLength(s);
      var first, rest := s[..n], s[n..];
      SplitExactly(rest);
      SplitFirst(s, n);
      assert first + rest == s;
      if n < |s| {
        SplitFirst(rest, FirstLength(rest));
        FirstParts(first, rest, FirstLength(rest));
      } else {
        SplitNothing();
      }
      WellSplitCons(first, SplitLines(rest));
    }
  }

  lemma SplitNothing()
    ensures SplitLines([]) == [] && Flat([]) == [] && WellSplit([])
  {
  }

  lemma FirstParts(first: seq<byte>, rest: seq<byte>, m: nat)
    requires first != [] && 1 <= m <= |rest| && first[|first| - 1] in LINE_ENDS
    requires !(first[|first| - 1] == CR && rest[0] == LF)
    ensures Parts(first, rest[..m])
  {
  }

  lemma WellSplitCons(l: P.Line, ls: seq<P.Line>)
    requires OneEnd(l) && WellSplit(ls) && (ls != [] ==> Parts(l, ls[0]))
    ensures WellSplit([l] + ls)
  {
    hide OneEnd, Parts;
    var all := [l] + ls;
    forall k | 0 <= k < |all| - 1
      ensures Parts(all[k], all[k + 1])
    {
      if k > 0 {
        assert Parts(ls[k - 1], ls[k]);
      }
    }
  }

  lemma SplitFirst(s: seq<byte>, n: nat)
    requires s != [] && n == FirstLength(s)
    ensures SplitLines(s) == [s[..n]] + SplitLines(s[n..]) && Flat(SplitLines(s)) == s[..n] + Flat(SplitLines(s[n..]))
  {
    hide FirstLength;
    var ls := SplitLines(s);
    assert ls[1..] == SplitLines(s[n..]);
  }

  /** The first segment of a text ends in a bare carriage return. */
  predicate Broken(s: seq<byte>) {
    var n := SegmentLength(s);
    n < |s| && BareCr(s, n)
  }

  /** Where the second segment begins. */
  function Skip(s: seq<byte>): (m: nat)
    ensures m <= |s| && (s != [] ==> m > 0)
  {
    var n := SegmentLength(s);
    if n == |s| then n else if !Broken(s) && s[n] == CR then n + 2 else n + 1
  }

  /** The first segment as it comes out. Git closes a file that ends in a bare carriage
      return with a line feed, which makes it CRLF. */
  function FirstPiece(s: seq<byte>): P.Line {
    var a := s[..SegmentLength(s)];
    if !Broken(s) then F.Clean(a) + CRLF else F.Expand(a) + if Skip(s) == |s| then CRLF else [CR]
  }

  /** The lines the checker makes of the formatted file `s`, without the formatter and
      without the diff. `first` is false behind a bare carriage return: only the first
      piece of a line has the '+'. */
  function Pieces(s: seq<byte>, first: bool): seq<P.Line>
    decreases |s|
  {
    if s == [] then []
    else
      [(if first then [PLUS] else []) + FirstPiece(s)] +
      if Broken(s) && Skip(s) == |s| then [NO_NEWLINE] else Pieces(s[Skip(s)..], !Broken(s))
  }

  lemma RestUnfold(w: seq<byte>, k: nat)
    requires k == F.LineLength(w)
    ensures RestAdded(w) == if k < |w| then LineOf(w, k) + Added(w[k + 1..]) else Closed(w)
  {
    hide F.LineLength, Added, LineOf, Closed;
  }

  lemma RestBehind(u: seq<byte>, w: seq<byte>)
    requires LF !in u
    ensures RestAdded(u + w) == u + RestAdded(w)
  {
    hide F.LineLength, Added, RestAdded, Ascii;
    LineBehind(u, w);
    var k := F.LineLength(w);
    RestUnfold(w, k);
    RestUnfold(u + w, |u| + k);
    if k < |w| {
      assert (u + w)[..|u| + k + 1] == u + w[..k + 1];
      assert (u + w)[|u| + k + 1..] == w[k + 1..];
    }
  }

  lemma RestOfLine(c: seq<byte>, w: seq<byte>)
    requires LF !in c
    ensures RestAdded(c + CRLF + w) == c + CRLF + Added(w)
  {
    hide RestAdded, Added;
    RestBehind(c + [CR], [LF] + w);
    RestOfEnd(w);
    assert c + CRLF + w == c + [CR] + ([LF] + w);
    assert c + [CR] + ([LF] + Added(w)) == c + CRLF + Added(w);
  }

  lemma RestOfEnd(w: seq<byte>)
    ensures RestAdded([LF] + w) == [LF] + Added(w)
  {
    hide F.LineLength, Added;
    F.LineEndsAt([LF] + w, 0);
    assert ([LF] + w)[..1] == [LF] && ([LF] + w)[1..] == w;
  }

  lemma RestOfNothing()
    ensures RestAdded([]) == [LF] + NO_NEWLINE
  {
    assert [] + [LF] + NO_NEWLINE == [LF] + NO_NEWLINE;
  }

  lemma {:induction false} LfLine(c: seq<byte>, rest: seq<byte>)
    requires Inner(c)
    ensures FirstLength(c + [LF] + rest) == |c| + 1
  {
    var s := c + [LF] + rest;
    if c != [] {
      assert s[1..] == c[1..] + [LF] + rest;
      LfLine(c[1..], rest);
      assert s[0] == c[0];
    }
  }

  lemma HeadSplitOff(l: P.Line, rest: seq<byte>)
    requires HeadLine(l)
    ensures SplitLines(l + rest) == [l] + SplitLines(rest)
  {
    var c := l[..|l| - 1];
    assert l + rest == c + [LF] + rest;
    LfLine(c, rest);
    assert (l + rest)[..|l|] == l && (l + rest)[|l|..] == rest;
  }

  lemma {:induction false} HeadSplit(head: seq<P.Line>, rest: seq<byte>)
    requires forall i :: 0 <= i < |head| ==> HeadLine(head[i])
    ensures SplitLines(Flat(head) + rest) == head + SplitLines(rest)
  {
    hide SplitLines, HeadLine;
    if head == [] {
      assert Flat(head) + rest == rest;
    } else {
      HeadSplit(head[1..], rest);
      HeadSplitOff(head[0], Flat(head[1..]) + rest);
      assert Flat(head) + rest == head[0] + (Flat(head[1..]) + rest);
    }
  }

  lemma AsciiHeadLine(t: string)
    requires t != "" && t[|t| - 1] == '\n' && forall i :: 0 <= i < |t| - 1 ==> 0x20 <= t[i] as int <= 0x7e
    ensures HeadLine(Ascii(t))
  {
    assert forall i :: 0 <= i < |t| ==> Ascii(t)[i] == t[i] as int;
  }

  lemma AsciiPrefix(t: string, p: string)
    requires p <= t
    ensures P.StartsWith(Ascii(t), Ascii(p))
  {
    assert Ascii(t)[..|p|] == Ascii(p);
  }

  lemma RemarkIsLine()
    ensures HeadLine(NO_NEWLINE) && SplitLines(NO_NEWLINE) == [NO_NEWLINE]
    ensures NO_NEWLINE[0] == 0x5c && P.IsPatchLine(NO_NEWLINE)
  {
    RemarkText();
    hide Ascii, HeadLine, SplitLines;
    HeadSplitOff(NO_NEWLINE, []);
    assert NO_NEWLINE + [] == NO_NEWLINE;
    NothingAdded();
  }

  lemma RemarkText()
    ensures HeadLine(NO_NEWLINE) && NO_NEWLINE[0] == 0x5c && P.StartsWith(NO_NEWLINE, Ascii("\\ No newline "))
  {
    var s := "\\ No newline at end of file\n";
    assert |s| == 28 && s[27] == '\n' && s[0] == '\\';
    hide P.StartsWith, HeadLine;
    AsciiHeadLine(s);
    AsciiPrefix(s, "\\ No newline ");
  }

  /** One segment and what follows it, as text of the diff and as lines. */
  lemma SegmentSplit(mark: seq<byte>, a: seq<byte>, rest: seq<byte>)
    requires AllPrintable(mark) && Inner(a) && rest != [] && rest[0] != LF
    ensures SplitLines(mark + RestAdded(F.Format(a + [CR] + rest))) ==
            [mark + F.Expand(a) + [CR]] + SplitLines(RestAdded(F.Format(rest)))
  {
    hide F.Format, F.Expand, SplitLines, RestAdded;
    var c, w := mark + F.Expand(a), F.Format(rest);
    BareFormat(a, rest);
    ExpandedPrintable(a);
    RestBehind(F.Expand(a) + [CR], w);
    RestStarts(rest);
    CrSplitOff(c, RestAdded(w));
    assert mark + (F.Expand(a) + [CR] + RestAdded(w)) == c + [CR] + RestAdded(w);
  }

  lemma RestStarts(s: seq<byte>)
    requires s != []
    ensures RestAdded(F.Format(s)) != [] && RestAdded(F.Format(s))[0] != LF
  {
    hide F.Format, F.LineLength, Added;
    NoLeadingLf(s);
    FormatNotEmpty(s);
  }

  lemma FormatNotEmpty(s: seq<byte>)
    requires s != []
    ensures F.Format(s) != []
  {
    hide F.Format, F.LineLength, F.Clean, F.Expand;
    if LF in s {
      F.FormatLine(s);
    } else {
      F.FormatLastLine(s);
      F.Expanded(s);
    }
  }

  lemma LineSplit(mark: seq<byte>, a: seq<byte>, w: seq<byte>)
    requires AllPrintable(mark) && Inner(a)
    ensures SplitLines(mark + RestAdded(F.Clean(a) + CRLF + w)) == [mark + F.Clean(a) + CRLF] + SplitLines(Added(w))
  {
    hide F.Clean, SplitLines, RestAdded, Added;
    var c := F.Clean(a);
    CleanPrintable(a);
    assert LF !in c;
    RestOfLine(c, w);
    CrlfSplitOff(mark + c, Added(w));
    assert mark + (c + CRLF + Added(w)) == mark + c + CRLF + Added(w);
  }

  lemma LastCrSplit(mark: seq<byte>, a: seq<byte>)
    requires AllPrintable(mark) && Inner(a)
    ensures SplitLines(mark + RestAdded(F.Format(a + [CR]))) == [mark + F.Expand(a) + CRLF, NO_NEWLINE]
  {
    hide F.Format, F.Expand, SplitLines, RestAdded;
    var c := mark + F.Expand(a);
    assert a + [CR] == a + [CR] + [];
    BareFormat(a, []);
    F.FormatLastLine([]);
    ExpandedPrintable(a);
    RestBehind(F.Expand(a) + [CR], []);
    RestOfNothing();
    CrlfSplitOff(c, NO_NEWLINE);
    RemarkIsLine();
    assert mark + (F.Expand(a) + [CR] + ([LF] + NO_NEWLINE)) == c + CRLF + NO_NEWLINE;
  }

  lemma PiecesNext(s: seq<byte>, first: bool)
    requires s != []
    ensures Pieces(s, first) ==
            [(if first then [PLUS] else []) + FirstPiece(s)] +
            if Broken(s) && Skip(s) == |s| then [NO_NEWLINE] else Pieces(s[Skip(s)..], !Broken(s))
  {
    hide FirstPiece, Broken, Skip;
  }

  lemma NoPieces(first: bool)
    ensures Pieces([], first) == []
  {
  }

  lemma WholeSegment(s: seq<byte>)
    requires AsciiText(s) && s != [] && !Broken(s)
    ensures var a := s[..SegmentLength(s)];
            && Inner(a) && FirstPiece(s) == F.Clean(a) + CRLF
            && F.Format(s) == F.Clean(a) + CRLF + F.Format(s[Skip(s)..])
  {
    hide F.Format, F.Clean, F.Expand, SegmentLength;
    var n := SegmentLength(s);
    var a, rest := s[..n], s[Skip(s)..];
    if n == |s| {
      assert s == a && LF !in s && rest == [];
      F.FormatLastLine(s);
      F.FormatLastLine([]);
    } else {
      var eol := if s[n] == CR then CRLF else [LF];
      assert s == a + eol + rest;
      EndFormat(a, eol, rest);
    }
  }

  lemma BrokenSegment(s: seq<byte>)
    requires AsciiText(s) && Broken(s)
    ensures var a, rest := s[..SegmentLength(s)], s[Skip(s)..];
            && Inner(a) && s == a + [CR] + rest && (rest != [] ==> rest[0] != LF)
            && FirstPiece(s) == F.Expand(a) + if rest == [] then CRLF else [CR]
  {
    hide F.Clean, F.Expand, SegmentLength;
  }

  lemma {:induction false} MarkedPieces(s: seq<byte>, first: bool)
    requires AsciiText(s) && s != []
    ensures SplitLines((if first then [PLUS] else []) + RestAdded(F.Format(s))) == Pieces(s, first)
    decreases |s|, 0
  {
    hide F.Format, F.Clean, F.Expand, SplitLines, RestAdded, Added, SegmentLength, Pieces, Broken, Skip, FirstPiece;
    var a, rest := s[..SegmentLength(s)], s[Skip(s)..];
    var mark: seq<byte> := if first then [PLUS] else [];
    PiecesNext(s, first);
    if !Broken(s) {
      WholeSegment(s);
      LineSplit(mark, a, F.Format(rest));
      AddedPieces(rest);
      assert mark + (F.Clean(a) + CRLF) == mark + F.Clean(a) + CRLF;
    } else {
      BrokenSegment(s);
      if rest == [] {
        assert s == a + [CR];
        LastCrSplit(mark, a);
        assert mark + (F.Expand(a) + CRLF) == mark + F.Expand(a) + CRLF;
      } else {
        SegmentSplit(mark, a, rest);
        MarkedPieces(rest, false);
        assert [] + RestAdded(F.Format(rest)) == RestAdded(F.Format(rest));
        assert mark + (F.Expand(a) + [CR]) == mark + F.Expand(a) + [CR];
      }
    }
  }

  lemma NothingAdded()
    ensures SplitLines(Added([])) == []
  {
  }

  lemma {:induction false} AddedPieces(s: seq<byte>)
    requires AsciiText(s)
    ensures SplitLines(Added(F.Format(s))) == Pieces(s, true)
    decreases |s|, 1
  {
    hide F.Format, SplitLines, RestAdded, SegmentLength;
    if s == [] {
      F.FormatLastLine(s);
      NothingAdded();
    } else {
      FormatNotEmpty(s);
      MarkedPieces(s, true);
    }
  }

  /** What the checker reads of the diff that adds a formatted file, for every text. */
  lemma DiffLines(head: seq<P.Line>, s: seq<byte>)
    requires WellFormedHead(head) && AsciiText(s)
    ensures SplitLines(Diff(head, F.FormatFile(s))) == head + Pieces(s, true)
  {
    hide F.FormatFile, F.Format, SplitLines, Added, Pieces, Flat, HeadLine, P.OpensHunk;
    F.FormatFileExact(s);
    AddedPieces(s);
    HeadSplit(head, Added(F.Format(s)));
  }

  // ------------------------------------------------ which pieces pass

  /** An added line that ends in a bare carriage return passes exactly if it is exempt. */
  lemma CrPiecePasses(rules: P.Rules, a: seq<byte>)
    requires Inner(a)
    ensures P.LayoutOk(rules, P.CutAll(F.Expand(a) + [CR])) <==> Exempt(rules, a)
  {
    hide F.Expand, P.Contains, P.LayoutOk, P.CutAll, SingleSpaced;
    ExpandedPrintable(a);
    LinePasses(rules, F.Expand(a), [CR]);
    PhraseSpacing();
    PhraseExpanded(a, P.SUBPROJECT);
    ExpandedEnd(a);
  }

  lemma ExpandedEnd(a: seq<byte>)
    ensures EndsInBlank(a) <==> F.Expand(a) != [] && F.Expand(a)[|F.Expand(a)| - 1] == SPACE
  {
    hide F.Expand;
    F.Expanded(a);
    if a == [] {
      F.NoTabs(a);
    }
  }

  /** One that git has closed passes exactly if it does not end in a blank. */
  lemma LastPiecePasses(rules: P.Rules, a: seq<byte>)
    requires Inner(a)
    ensures P.LayoutOk(rules, P.CutAll(F.Expand(a) + CRLF)) <==> !EndsInBlank(a)
  {
    hide F.Expand, P.Contains, P.LayoutOk, P.CutAll;
    ExpandedPrintable(a);
    LinePasses(rules, F.Expand(a), CRLF);
    ExpandedEnd(a);
  }

  /** A '+' and a printable line that does not end in a blank, or the remark. */
  ghost predicate GoodPiece(p: P.Line) {
    || p == NO_NEWLINE
    || (exists c :: p == [PLUS] + (c + CRLF) && AllPrintable(c) && (c != [] ==> c[|c| - 1] != SPACE))
  }

  lemma GoodPieceFine(rules: P.Rules, p: P.Line)
    requires GoodPiece(p)
    ensures !P.IsDiff(p) && P.IsPatchLine(p)
    ensures P.IsAdded(p) ==> P.LayoutOk(rules, P.CutAll(p[1..]))
  {
    hide P.IsDiff, P.LayoutOk, P.CutAll, P.Contains, Ascii;
    P.FirstLetters(p);
    RemarkIsLine();
    if p != NO_NEWLINE {
      var c :| p == [PLUS] + (c + CRLF) && AllPrintable(c) && (c != [] ==> c[|c| - 1] != SPACE);
      assert p[1..] == c + CRLF;
      LinePasses(rules, c, CRLF);
    }
  }

  // ------------------------------------------------ tidy files

  /** A carriage return without a line feed stands at most at the very end, and then not
      behind a blank. */
  predicate Tidy(s: seq<byte>) {
    forall i :: 0 <= i < |s| && BareCr(s, i) ==> i == |s| - 1 && (i > 0 ==> !F.Blank(s[i - 1]))
  }

  lemma TidyWhole(s: seq<byte>)
    requires s != [] && !Broken(s)
    ensures Tidy(s) <==> Tidy(s[Skip(s)..])
  {
    hide SegmentLength;
    var m := Skip(s);
    var rest := s[m..];
    assert forall i :: 0 <= i < m ==> !BareCr(s, i);
    assert forall i :: 0 <= i < |rest| ==> BareCr(rest, i) == BareCr(s, m + i);
    if Tidy(s) {
      forall i | 0 <= i < |rest| && BareCr(rest, i)
        ensures i == |rest| - 1 && (i > 0 ==> !F.Blank(rest[i - 1]))
      {
        assert BareCr(s, m + i);
      }
    }
    if Tidy(rest) {
      forall i | 0 <= i < |s| && BareCr(s, i)
        ensures i == |s| - 1 && (i > 0 ==> !F.Blank(s[i - 1]))
      {
        assert BareCr(rest, i - m);
        assert i == m ==> P.EndsLine(s[i - 1]);
      }
    }
  }

  lemma TidyBroken(s: seq<byte>)
    requires Broken(s)
    ensures Tidy(s) <==> Skip(s) == |s| && !EndsInBlank(s[..SegmentLength(s)])
  {
    hide SegmentLength;
    var n := SegmentLength(s);
    assert forall i :: 0 <= i < n ==> !BareCr(s, i);
    assert BareCr(s, n);
  }

  lemma {:induction false} TidyPieces(s: seq<byte>)
    requires AsciiText(s) && Tidy(s)
    ensures forall p :: p in Pieces(s, true) ==> GoodPiece(p)
    decreases |s|
  {
    hide Pieces, Broken, Skip, FirstPiece, SegmentLength, F.Clean, F.Expand, Tidy, F.Format, GoodPiece;
    if s == [] {
      NoPieces(true);
    } else {
      var a := s[..SegmentLength(s)];
      PiecesNext(s, true);
      if !Broken(s) {
        WholeSegment(s);
        TidyWhole(s);
        TidyPieces(s[Skip(s)..]);
        CleanPrintable(a);
        MakesGoodPiece(F.Clean(a));
      } else {
        BrokenSegment(s);
        TidyBroken(s);
        ExpandedPrintable(a);
        ExpandedEnd(a);
        MakesGoodPiece(F.Expand(a));
        RemarkIsGood();
      }
    }
  }

  lemma MakesGoodPiece(c: seq<byte>)
    requires AllPrintable(c) && (c != [] ==> c[|c| - 1] != SPACE)
    ensures GoodPiece([PLUS] + (c + CRLF))
  {
  }

  lemma RemarkIsGood()
    ensures GoodPiece(NO_NEWLINE)
  {
  }

  /** The first bare carriage return of a file that is not tidy ends an added line that is
      refused, and only added lines come before it. */
  lemma {:induction false} UntidyPiece(rules: P.Rules, s: seq<byte>) returns (k: nat)
    requires AsciiText(s) && !Tidy(s) && rules.forceCrlf && !P.Contains(s, P.SUBPROJECT)
    ensures var ps := Pieces(s, true);
            && k < |ps| && (forall j :: 0 <= j <= k ==> P.IsAdded(ps[j]))
            && !P.LayoutOk(rules, P.CutAll(ps[k][1..]))
    decreases |s|
  {
    hide Pieces, Broken, Skip, FirstPiece, SegmentLength, F.Clean, F.Expand, Tidy, F.Format, P.Contains, P.LayoutOk, P.CutAll;
    assert s != [] by { NothingTidy(); }
    var ps := Pieces(s, true);
    PiecesNext(s, true);
    assert ps[0] == [PLUS] + FirstPiece(s) && ps[0][1..] == FirstPiece(s);
    if !Broken(s) {
      TidyWhole(s);
      var rest := s[Skip(s)..];
      assert rest == s[Skip(s)..|s|];
      if P.Contains(rest, P.SUBPROJECT) {
        ContainedAround(s, Skip(s), |s|, P.SUBPROJECT);
      }
      var k' := UntidyPiece(rules, rest);
      k := k' + 1;
      assert forall j :: 0 <= j < |Pieces(rest, true)| ==> ps[j + 1] == Pieces(rest, true)[j];
    } else {
      BrokenPiece(rules, s);
      k := 0;
    }
  }

  lemma BrokenPiece(rules: P.Rules, s: seq<byte>)
    requires AsciiText(s) && Broken(s) && !Tidy(s) && rules.forceCrlf && !P.Contains(s, P.SUBPROJECT)
    ensures !P.LayoutOk(rules, P.CutAll(FirstPiece(s)))
  {
    hide Broken, Skip, FirstPiece, SegmentLength, F.Expand, Tidy, P.Contains, P.LayoutOk, P.CutAll;
    var a := s[..SegmentLength(s)];
    BrokenSegment(s);
    TidyBroken(s);
    LastPiecePasses(rules, a);
    CrPiecePasses(rules, a);
    assert a == s[0..SegmentLength(s)];
    if P.Contains(a, P.SUBPROJECT) {
      ContainedAround(s, 0, SegmentLength(s), P.SUBPROJECT);
    }
  }

  lemma NothingTidy()
    ensures Tidy([])
  {
  }

  lemma ContainedAround(s: seq<byte>, j: nat, i: nat, p: seq<byte>)
    requires j <= i <= |s| && P.Contains(s[j..i], p)
    ensures P.Contains(s, p)
  {
    var u := s[j..i];
    var k :| 0 <= k <= |u| && P.StartsWith(u[k..], p);
    assert s[j + k..][..|p|] == u[k..][..|p|];
  }

  // ------------------------------------------------ the verdict

  /** No added line uses a deprecated debug macro. */
  predicate NoOldDebug(u: P.Line -> bool, lines: seq<P.Line>) {
    forall l :: l in lines && P.IsAdded(l) ==> !u(P.CutAll(l[1..]).line)
  }

  /** The checker's verdict on the diff that adds the formatted file. */
  ghost predicate Passes(head: seq<P.Line>, s: seq<byte>, u: P.Line -> bool) {
    var lines := SplitLines(Diff(head, F.FormatFile(s)));
    !P.FormatError(lines) && P.AllPass(lines, |lines|, u)
  }

  /** The diff that adds a tidy file, once formatted, is well formed, and passes unless it
      uses a deprecated macro: line ends, tabs and blanks are never wrong. */
  lemma TidyPasses(head: seq<P.Line>, s: seq<byte>, u: P.Line -> bool)
    requires WellFormedHead(head) && AsciiText(s) && Tidy(s)
    ensures !P.FormatError(SplitLines(Diff(head, F.FormatFile(s))))
    ensures Passes(head, s, u) <==> NoOldDebug(u, Pieces(s, true))
  {
    hide F.FormatFile, SplitLines, Diff, Pieces, GoodPiece, P.FormatError, P.AllPass, P.IsDiff, P.IsPatchLine, P.OpensHunk,
         HeadLine, P.CutAll, P.LayoutOk, P.Live, P.RulesOf;
    DiffLines(head, s);
    TidyPieces(s);
    var body, rules := Pieces(s, true), P.RulesOf(head, u);
    forall i | 0 <= i < |body|
      ensures !P.IsDiff(body[i]) && P.IsPatchLine(body[i])
      ensures P.AddedPasses(rules, body[i]) <==> P.IsAdded(body[i]) ==> !u(P.CutAll(body[i][1..]).line)
    {
      assert body[i] in body;
      GoodPieceFine(rules, body[i]);
      AddedSplit(head, u, body[i]);
    }
    P.HunkVerdict(head, body, u);
    AllLive(body);
    assert NoOldDebug(u, body) <==> forall i :: 0 <= i < |body| ==> P.AddedPasses(rules, body[i]);
  }

  lemma AddedSplit(head: seq<P.Line>, u: P.Line -> bool, l: P.Line)
    ensures P.AddedPasses(P.RulesOf(head, u), l) <==>
            P.IsAdded(l) ==> P.LayoutOk(P.RulesOf(head, u), P.CutAll(l[1..])) && !u(P.CutAll(l[1..]).line)
  {
    hide P.CutAll, P.LayoutOk, P.SwitchesAt;
  }

  lemma AllLive(body: seq<P.Line>)
    requires forall i :: 0 <= i < |body| ==> P.IsPatchLine(body[i])
    ensures forall i :: 0 <= i < |body| ==> P.Live(body, i)
  {
    hide P.IsPatchLine;
  }

  /** The same of source text: LF or CRLF at line ends and no other carriage return. */
  lemma FormattedPasses(head: seq<P.Line>, s: seq<byte>, u: P.Line -> bool)
    requires WellFormedHead(head) && SourceText(s)
    ensures !P.FormatError(SplitLines(Diff(head, F.FormatFile(s))))
    ensures Passes(head, s, u) <==> NoOldDebug(u, Pieces(s, true))
  {
    hide F.FormatFile, SplitLines, Diff, Pieces, P.FormatError, Passes, NoOldDebug, WellFormedHead;
    TidyPasses(head, s, u);
  }

  /** Where CRLF is asked for and no submodule commit is named, the diff passes exactly if
      the file was tidy and no added line uses a deprecated macro. */
  lemma PassesExactly(head: seq<P.Line>, s: seq<byte>, u: P.Line -> bool)
    requires WellFormedHead(head) && AsciiText(s)
    requires P.RulesOf(head, u).forceCrlf && !P.Contains(s, P.SUBPROJECT)
    ensures Passes(head, s, u) <==> Tidy(s) && NoOldDebug(u, Pieces(s, true))
  {
    hide F.FormatFile, SplitLines, Diff, Pieces, P.FormatError, P.AllPass, NoOldDebug, P.OpensHunk, HeadLine, Tidy, P.Contains,
         P.CutAll, P.LayoutOk, P.RulesOf;
    if Tidy(s) {
      TidyPasses(head, s, u);
    } else {
      DiffLines(head, s);
      var k := UntidyPiece(P.RulesOf(head, u), s);
      AddedSplit(head, u, Pieces(s, true)[k]);
      P.BadLine(head, Pieces(s, true), k, u);
    }
  }

  /** In general, as long as no piece behind a bare carriage return reads as a diff command,
      the added pieces decide that the run gets to: a piece without the marks of a patch
      line ends it. */
  lemma PiecesDecide(head: seq<P.Line>, s: seq<byte>, u: P.Line -> bool)
    requires WellFormedHead(head) && AsciiText(s) && forall p :: p in Pieces(s, true) ==> !P.IsDiff(p)
    ensures !P.FormatError(SplitLines(Diff(head, F.FormatFile(s))))
    ensures Passes(head, s, u) <==>
            forall i :: 0 <= i < |Pieces(s, true)| && P.Live(Pieces(s, true), i) ==>
              P.AddedPasses(P.RulesOf(head, u), Pieces(s, true)[i])
  {
    hide F.FormatFile, SplitLines, Diff, Pieces, P.FormatError, P.AllPass, P.OpensHunk, HeadLine, P.IsDiff, P.Live, P.RulesOf,
         P.AddedPasses;
    DiffLines(head, s);
    assert forall i :: 0 <= i < |Pieces(s, true)| ==> Pieces(s, true)[i] in Pieces(s, true);
    P.HunkVerdict(head, Pieces(s, true), u);
  }

  /** The formatter, git and the checker in a row. */
  method FormatAndCheck(head: seq<P.Line>, s: seq<byte>, u: P.Line -> bool) returns (ok: bool, formatOk: bool)
    requires WellFormedHead(head) && AsciiText(s)
    ensures ok <==> Passes(head, s, u)
    ensures Tidy(s) ==> formatOk && (ok <==> NoOldDebug(u, Pieces(s, true)))
    ensures P.RulesOf(head, u).forceCrlf && !P.Contains(s, P.SUBPROJECT) ==>
              (ok <==> Tidy(s) && NoOldDebug(u, Pieces(s, true)))
  {
    hide F.FormatFile, SplitLines, Diff, Pieces, P.FormatError, P.AllPass, P.Added, WellFormedHead, NoOldDebug, Tidy, P.Contains,
         P.RulesOf;
    var lines := SplitLines(Diff(head, F.FormatFile(s)));
    LinesNotEmpty(Diff(head, F.FormatFile(s)));
    ghost var checked;
    ok, formatOk, checked := P.CheckDiff(lines, u);
    if Tidy(s) {
      TidyPasses(head, s, u);
    }
    if P.RulesOf(head, u).forceCrlf && !P.Contains(s, P.SUBPROJECT) {
      PassesExactly(head, s, u);
    }
  }

  lemma {:induction false} LinesNotEmpty(w: seq<byte>)
    ensures forall i :: 0 <= i < |SplitLines(w)| ==> SplitLines(w)[i] != []
    decreases |w|
  {
    hide FirstLength;
    if w != [] {
      LinesNotEmpty(w[FirstLength(w)..]);
    }
  }

  // ------------------------------------------------ three files

  /** A carriage return in the middle of a line is left alone by the formatter and refused
      by the checker. */
  lemma BareCarriageReturn(head: seq<P.Line>, u: P.Line -> bool)
    requires WellFormedHead(head) && P.RulesOf(head, u).forceCrlf
    ensures !Passes(head, [0x61, CR, 0x62, LF], u)
  {
    hide Passes, WellFormedHead, P.Contains, P.RulesOf, NoOldDebug, Pieces;
    var s := [0x61, CR, 0x62, LF];
    assert BareCr(s, 1);
    NoSubproject(s);
    PassesExactly(head, s, u);
  }

  /** At the end of the file it is accepted: in the diff a line feed follows it. */
  lemma LastCarriageReturn(head: seq<P.Line>)
    requires WellFormedHead(head)
    ensures F.FormatFile([0x61, CR]) == [0x61, CR] && Passes(head, [0x61, CR], l => false)
  {
    hide F.FormatFile, F.Format, Passes, WellFormedHead, Pieces;
    var s := [0x61, CR];
    F.FormatFileExact(s);
    F.FormatLastLine(s);
    F.NoTabs(s);
    TidyPasses(head, s, l => false);
  }

  lemma {:induction false} SegmentEnds(a: seq<byte>, rest: seq<byte>)
    requires NoEnds(a) && rest != [] && P.EndsLine(rest[0])
    ensures SegmentLength(a + rest) == |a|
  {
    if a == [] {
      assert a + rest == rest;
    } else {
      SegmentEnds(a[1..], rest);
      assert (a + rest)[1..] == a[1..] + rest;
    }
  }

  lemma CrPieces(a: seq<byte>, rest: seq<byte>, first: bool)
    requires Inner(a) && rest != [] && rest[0] != LF
    ensures Pieces(a + [CR] + rest, first) ==
            [(if first then [PLUS] else []) + (F.Expand(a) + [CR])] + Pieces(rest, false)
  {
    hide F.Clean, F.Expand, SegmentLength, Pieces;
    var s := a + [CR] + rest;
    assert NoEnds(a);
    SegmentEnds(a, [CR] + rest);
    assert s == a + ([CR] + rest);
    PiecesNext(s, first);
    assert s[..|a|] == a && s[|a| + 1..] == rest;
  }

  lemma LfPieces(a: seq<byte>, rest: seq<byte>, first: bool)
    requires Inner(a)
    ensures Pieces(a + [LF] + rest, first) ==
            [(if first then [PLUS] else []) + (F.Clean(a) + CRLF)] + Pieces(rest, true)
  {
    hide F.Clean, F.Expand, SegmentLength, Pieces;
    var s := a + [LF] + rest;
    assert NoEnds(a);
    SegmentEnds(a, [LF] + rest);
    assert s == a + ([LF] + rest);
    PiecesNext(s, first);
    assert s[..|a|] == a && s[|a| + 1..] == rest;
  }

  /** Behind an exempt line that ends in a bare carriage return, text that does not look
      like a patch line ends the run: whatever follows is accepted unseen. */
  lemma UncheckedBehind(head: seq<P.Line>, a: seq<byte>, rest: seq<byte>, u: P.Line -> bool)
    requires WellFormedHead(head) && Inner(a) && Exempt(P.RulesOf(head, u), a) && !u(F.Expand(a))
    requires AsciiText(rest) && rest != [] && rest[0] != LF
    requires forall p :: p in Pieces(rest, false) ==> !P.IsDiff(p)
    requires |Pieces(rest, false)| > 0
    requires !P.IsHunk(Pieces(rest, false)[0]) && !P.IsPatchLine(Pieces(rest, false)[0])
    ensures Passes(head, a + [CR] + rest, u)
  {
    hide Passes, WellFormedHead, P.IsDiff, P.IsHunk, P.CutAll, P.LayoutOk, Pieces, F.Expand, Exempt, Ascii, F.FormatFile,
         SplitLines, Diff, P.FormatError, P.RulesOf;
    var s, c := a + [CR] + rest, F.Expand(a) + [CR];
    var ps, rules := Pieces(s, true), P.RulesOf(head, u);
    CrPieces(a, rest, true);
    assert ps[0] == [PLUS] + c && ps[0][1..] == c && ps[1] == Pieces(rest, false)[0];
    P.FirstLetters(ps[0]);
    PiecesDecide(head, s, u);
    CrPiecePasses(rules, a);
    ExpandedCut(a);
    AddedSplit(head, u, ps[0]);
    NothingLiveBehind(ps, 1);
  }

  lemma NothingLiveBehind(body: seq<P.Line>, k: nat)
    requires k < |body| && !P.IsHunk(body[k]) && !P.IsPatchLine(body[k])
    ensures forall i :: 0 <= i < |body| && P.Live(body, i) ==> i <= k
  {
    hide P.IsHunk, P.IsPatchLine;
  }

  lemma ExpandedCut(a: seq<byte>)
    requires Inner(a)
    ensures P.CutAll(F.Expand(a) + [CR]).line == F.Expand(a)
  {
    hide F.Expand, P.CutAll;
    var c := F.Expand(a);
    ExpandedPrintable(a);
    if c != [] {
      assert Printable(c[|c| - 1]);
    }
    P.LineCut(c + [CR], c, [CR]);
  }

  /** The third line of this file has a bare carriage return in the middle, as in
      BareCarriageReturn, and is accepted because of the first. */
  lemma HiddenLine(head: seq<P.Line>)
    requires WellFormedHead(head)
    ensures Passes(head, P.SUBPROJECT + [CR] + [0x62, LF, 0x63, CR, 0x65, LF], l => false)
  {
    hide Passes, WellFormedHead, Pieces, P.RulesOf, F.Expand, F.Clean;
    var rest := [0x62, LF, 0x63, CR, 0x65, LF];
    HiddenPieces();
    SubprojectExempt(P.RulesOf(head, l => false));
    UncheckedBehind(head, P.SUBPROJECT, rest, l => false);
  }

  lemma SubprojectExempt(rules: P.Rules)
    ensures Inner(P.SUBPROJECT) && Exempt(rules, P.SUBPROJECT)
  {
    hide P.Contains;
    var s := "Subproject commit";
    assert |s| == 17 && s[16] == 't';
    assert forall i :: 0 <= i < |s| ==> 0x20 <= s[i] as int <= 0x7e;
    assert forall i :: 0 <= i < |s| ==> P.SUBPROJECT[i] == s[i] as int;
    ContainsItself(P.SUBPROJECT);
  }

  lemma ContainsItself(p: seq<byte>)
    ensures P.Contains(p, p)
  {
    assert p[0..] == p && P.StartsWith(p[0..], p);
  }

  lemma OneLetter(c: byte)
    requires Printable(c) && c != SPACE
    ensures Inner([c]) && F.Clean([c]) == [c] && F.Expand([c]) == [c]
  {
    F.NoBlanks([c]);
    F.NoTabs([c]);
  }

  lemma HiddenPieces()
    ensures var rest := [0x62, LF, 0x63, CR, 0x65, LF];
            && Pieces(rest, false) == [[0x62, CR, LF], [PLUS, 0x63, CR], [0x65, CR, LF]]
            && (forall p :: p in Pieces(rest, false) ==> !P.IsDiff(p))
            && !P.IsHunk(Pieces(rest, false)[0]) && !P.IsPatchLine(Pieces(rest, false)[0])
  {
    hide Pieces, P.IsDiff, P.IsHunk, P.IsPatchLine;
    ThreePieces();
    ShortLine([0x62, CR, LF]);
    ShortLine([PLUS, 0x63, CR]);
    ShortLine([0x65, CR, LF]);
  }

  lemma ShortLine(l: P.Line)
    requires |l| == 3 && l[0] != 0x40
    ensures !P.IsDiff(l) && !P.IsHunk(l)
    ensures l[0] !in P.SPACE_MINUS_PLUS && l[0] != CR ==> !P.IsPatchLine(l)
  {
    P.FirstLetters(l);
    P.Front(l, CRLF);
    assert |Ascii("diff --git")| == 10 && |Ascii("\\ No newline ")| == 13;
  }

  lemma ThreePieces()
    ensures Pieces([0x62, LF, 0x63, CR, 0x65, LF], false) == [[0x62, CR, LF], [PLUS, 0x63, CR], [0x65, CR, LF]]
  {
    hide Pieces, F.Clean, F.Expand;
    OneLetter(0x62);
    OneLetter(0x63);
    OneLetter(0x65);
    assert [0x62, LF, 0x63, CR, 0x65, LF] == [0x62] + [LF] + [0x63, CR, 0x65, LF];
    LfPieces([0x62], [0x63, CR, 0x65, LF], false);
    assert [0x63, CR, 0x65, LF] == [0x63] + [CR] + [0x65, LF];
    CrPieces([0x63], [0x65, LF], true);
    assert [0x65, LF] == [0x65] + [LF] + [];
    LfPieces([0x65], [], false);
    NoPieces(true);
    assert [] + ([0x62] + CRLF) == [0x62, CR, LF] && [PLUS] + ([0x63] + [CR]) == [PLUS, 0x63, CR];
    assert [] + ([0x65] + CRLF) == [0x65, CR, LF];
  }

  lemma NoSubproject(l: seq<byte>)
    requires |l| < 17
    ensures !P.Contains(l, P.SUBPROJECT)
  {
    assert |P.SUBPROJECT| == 17;
  }
}
