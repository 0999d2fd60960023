/** The patch checker on the diff that adds a file as it stands, formatted or not. */
module FileCheck {
  import opened Bytes
  import opened FormatThenCheck
  import F = FormatDosFiles
  import P = PatchCheck

  // ------------------------------------------------ what the checker reads

  /** The last line has no line feed of its own. */
  predicate Unended(w: seq<byte>) {
    Skip(w) == |w| && (SegmentLength(w) == |w| || Broken(w))
  }

  /** The line end of the first segment, as the diff has it: git closes the last line with a
      line feed. */
  function EndOf(w: seq<byte>): seq<byte> {
    var n := SegmentLength(w);
    if n == |w| || w[n] == LF then [LF] else if Broken(w) && Skip(w) < |w| then [CR] else CRLF
  }

  /** The lines of the diff, segment by segment; only the first of a line has the '+'. */
  function RawPieces(w: seq<byte>, first: bool): seq<P.Line>
    decreases |w|
  {
    if w == [] then []
    else
      [(if first then [PLUS] else []) + (w[..SegmentLength(w)] + EndOf(w))] +
      if Unended(w) then [NO_NEWLINE] else RawPieces(w[Skip(w)..], !Broken(w))
  }

  lemma RawNext(w: seq<byte>, first: bool)
    requires w != []
    ensures RawPieces(w, first) ==
            [(if first then [PLUS] else []) + (w[..SegmentLength(w)] + EndOf(w))] +
            if Unended(w) then [NO_NEWLINE] else RawPieces(w[Skip(w)..], !Broken(w))
  {
    hide SegmentLength, EndOf, Unended, Skip, Broken;
  }

  lemma NoRaw(first: bool)
    ensures RawPieces([], first) == []
  {
  }

  lemma LfSplitOff(c: seq<byte>, rest: seq<byte>)
    requires Inner(c)
    ensures SplitLines(c + [LF] + rest) == [c + [LF]] + SplitLines(rest)
  {
    var s := c + [LF] + rest;
    LfLine(c, rest);
    assert s[..|c| + 1] == c + [LF] && s[|c| + 1..] == rest;
  }

  /** A text by its first segment. */
  lemma FirstSegment(w: seq<byte>)
    requires AsciiText(w) && w != []
    ensures var a, rest := w[..SegmentLength(w)], w[Skip(w)..];
            && Inner(a) && NoEnds(a) && AsciiText(rest) && |rest| < |w|
            && (Unended(w) && !Broken(w) ==> w == a && EndOf(w) == [LF] && rest == [])
            && (Unended(w) && Broken(w) ==> w == a + [CR] && EndOf(w) == CRLF && rest == [])
            && (!Unended(w) && Broken(w) ==> w == a + [CR] + rest && EndOf(w) == [CR] && rest != [] && rest[0] != LF)
            && (!Unended(w) && !Broken(w) ==> w == a + EndOf(w) + rest && (EndOf(w) == CRLF || EndOf(w) == [LF]))
  {
    hide SegmentLength;
  }

  lemma RawStarts(w: seq<byte>)
    requires w != [] && w[0] != LF
    ensures RestAdded(w) != [] && RestAdded(w)[0] != LF
  {
    hide F.LineLength, Added;
  }

  lemma Regroup(mark: seq<byte>, a: seq<byte>, eol: seq<byte>, x: seq<byte>)
    ensures mark + (a + eol + x) == mark + a + eol + x && mark + (a + eol) == mark + a + eol
  {
  }

  lemma UnendedSplit(mark: seq<byte>, a: seq<byte>)
    requires AllPrintable(mark) && Inner(a) && NoEnds(a)
    ensures SplitLines(mark + RestAdded(a)) == [mark + (a + [LF]), NO_NEWLINE]
    ensures SplitLines(mark + RestAdded(a + [CR])) == [mark + (a + CRLF), NO_NEWLINE]
  {
    hide SplitLines, RestAdded, Ascii;
    RestOfNothing();
    RemarkIsLine();
    RestBehind(a, []);
    assert a + [] == a && a + ([LF] + NO_NEWLINE) == a + [LF] + NO_NEWLINE;
    Regroup(mark, a, [LF], NO_NEWLINE);
    LfSplitOff(mark + a, NO_NEWLINE);
    RestBehind(a + [CR], []);
    assert a + [CR] + [] == a + [CR] && a + [CR] + ([LF] + NO_NEWLINE) == a + CRLF + NO_NEWLINE;
    Regroup(mark, a, CRLF, NO_NEWLINE);
    CrlfSplitOff(mark + a, NO_NEWLINE);
  }

  lemma BrokenSplit(mark: seq<byte>, a: seq<byte>, rest: seq<byte>)
    requires AllPrintable(mark) && Inner(a) && NoEnds(a) && rest != [] && rest[0] != LF
    ensures SplitLines(mark + RestAdded(a + [CR] + rest)) == [mark + (a + [CR])] + SplitLines(RestAdded(rest))
  {
    hide SplitLines, RestAdded;
    RestBehind(a + [CR], rest);
    RawStarts(rest);
    Regroup(mark, a, [CR], RestAdded(rest));
    CrSplitOff(mark + a, RestAdded(rest));
  }

  lemma EndedSplit(mark: seq<byte>, a: seq<byte>, eol: seq<byte>, rest: seq<byte>)
    requires AllPrintable(mark) && Inner(a) && NoEnds(a) && (eol == CRLF || eol == [LF])
    ensures SplitLines(mark + RestAdded(a + eol + rest)) == [mark + (a + eol)] + SplitLines(Added(rest))
  {
    hide SplitLines, RestAdded, Added;
    Regroup(mark, a, eol, Added(rest));
    if eol == CRLF {
      RestOfLine(a, rest);
      CrlfSplitOff(mark + a, Added(rest));
    } else {
      RestBehind(a, [LF] + rest);
      RestOfEnd(rest);
      assert a + ([LF] + rest) == a + [LF] + rest && a + ([LF] + Added(rest)) == a + [LF] + Added(rest);
      LfSplitOff(mark + a, Added(rest));
    }
  }

  lemma {:induction false} RawMarked(w: seq<byte>, first: bool)
    requires AsciiText(w) && w != []
    ensures SplitLines((if first then [PLUS] else []) + RestAdded(w)) == RawPieces(w, first)
    decreases |w|, 0
  {
    hide SplitLines, RestAdded, Added, SegmentLength, Skip, Broken, Unended, EndOf, AsciiText, RawPieces;
    var a, rest := w[..SegmentLength(w)], w[Skip(w)..];
    var mark: seq<byte> := if first then [PLUS] else [];
    FirstSegment(w);
    RawNext(w, first);
    if Unended(w) {
      UnendedSplit(mark, a);
    } else if Broken(w) {
      BrokenSplit(mark, a, rest);
      RawMarked(rest, false);
      assert [] + RestAdded(rest) == RestAdded(rest);
    } else {
      EndedSplit(mark, a, EndOf(w), rest);
      RawAdded(rest);
    }
  }

  lemma {:induction false} RawAdded(w: seq<byte>)
    requires AsciiText(w)
    ensures SplitLines(Added(w)) == RawPieces(w, true)
    decreases |w|, 1
  {
    hide SplitLines, RestAdded, RawPieces;
    if w == [] {
      NothingAdded();
      NoRaw(true);
    } else {
      RawMarked(w, true);
    }
  }

  /** What the checker reads of the diff that adds a file, for every ASCII text. */
  lemma RawLines(head: seq<P.Line>, w: seq<byte>)
    requires WellFormedHead(head) && AsciiText(w)
    ensures SplitLines(Diff(head, w)) == head + RawPieces(w, true)
  {
    hide SplitLines, Added, RawPieces, Flat, HeadLine, P.OpensHunk;
    RawAdded(w);
    HeadSplit(head, Added(w));
  }

  // ------------------------------------------------ formatted files

  /** The formatter has nothing to do, and no carriage return stands alone but at the end. */
  predicate Neat(w: seq<byte>) { F.FormatFile(w) == w && Tidy(w) }

  /** The formatter leaves a line alone exactly if it has no tab and no blank at the end. */
  lemma CleanFixed(a: seq<byte>)
    requires LF !in a
    ensures F.Clean(a) == a <==> TAB !in a && !EndsInBlank(a)
    ensures F.Expand(a) == a <==> TAB !in a
  {
    hide F.Expand, F.DropBlanks;
    F.Cleaned(a);
    F.Expanded(a);
    if TAB !in a {
      F.NoTabs(a);
      if !EndsInBlank(a) {
        F.NoBlanks(a);
      }
    }
  }

  /** Two texts that are equal, cut at their first line feed or carriage return. */
  lemma CutAtEnd(u: seq<byte>, x: seq<byte>, v: seq<byte>, y: seq<byte>)
    requires NoEnds(u) && NoEnds(v) && u + x == v + y
    requires (x != [] ==> P.EndsLine(x[0])) && (y != [] ==> P.EndsLine(y[0]))
    ensures u == v && x == y
  {
    var s := u + x;
    assert forall i :: 0 <= i < |u| ==> s[i] == u[i] && !P.EndsLine(s[i]);
    assert forall i :: 0 <= i < |v| ==> s[i] == v[i] && !P.EndsLine(s[i]);
    assert |u| < |s| ==> P.EndsLine(s[|u|]);
    assert |v| < |s| ==> P.EndsLine(s[|v|]);
    assert |u| == |v|;
    assert u == s[..|u|] && v == s[..|u|] && x == s[|u|..] && y == s[|u|..];
  }

  lemma CleanHasNoEnds(a: seq<byte>)
    requires Inner(a)
    ensures NoEnds(F.Clean(a)) && NoEnds(F.Expand(a))
  {
    hide F.Clean, F.Expand;
    CleanPrintable(a);
    ExpandedPrintable(a);
  }

  lemma KeptLine(a: seq<byte>, rest: seq<byte>)
    requires Inner(a) && NoEnds(a)
    ensures F.Format(a + CRLF + rest) == a + CRLF + rest <==> F.Clean(a) == a && F.Format(rest) == rest
  {
    hide F.Format, F.Clean;
    CleanHasNoEnds(a);
    var c := F.Clean(a);
    EndFormat(a, CRLF, rest);
    assert c + CRLF + F.Format(rest) == c + (CRLF + F.Format(rest)) && a + CRLF + rest == a + (CRLF + rest);
    if F.Format(a + CRLF + rest) == a + CRLF + rest {
      CutAtEnd(c, CRLF + F.Format(rest), a, CRLF + rest);
      assert (CRLF + F.Format(rest))[2..] == F.Format(rest) && (CRLF + rest)[2..] == rest;
    }
  }

  lemma ChangedLine(a: seq<byte>, rest: seq<byte>)
    requires Inner(a) && NoEnds(a)
    ensures F.Format(a + [LF] + rest) != a + [LF] + rest
  {
    hide F.Format, F.Clean;
    CleanHasNoEnds(a);
    var c := F.Clean(a);
    EndFormat(a, [LF], rest);
    assert c + CRLF + F.Format(rest) == c + (CRLF + F.Format(rest)) && a + [LF] + rest == a + ([LF] + rest);
    assert (CRLF + F.Format(rest))[0] == CR && ([LF] + rest)[0] == LF;
    if F.Format(a + [LF] + rest) == a + [LF] + rest {
      CutAtEnd(c, CRLF + F.Format(rest), a, [LF] + rest);
    }
  }

  lemma ChangedTail(a: seq<byte>)
    requires Inner(a) && NoEnds(a) && a != []
    ensures F.Format(a) != a
  {
    hide F.Format, F.Clean;
    assert a[|a| - 1] in a;
    F.FormatLastLine(a);
    var w := F.Clean(a) + CRLF;
    assert w[|w| - 1] == LF;
  }

  lemma KeptTail(a: seq<byte>)
    requires Inner(a) && NoEnds(a)
    ensures F.Format(a + [CR]) == a + [CR] <==> F.Expand(a) == a
  {
    hide F.Format, F.Expand;
    BareFormat(a, []);
    F.FormatLastLine([]);
    assert a + [CR] + [] == a + [CR] && F.Expand(a) + [CR] + [] == F.Expand(a) + [CR];
    if F.Expand(a) + [CR] == a + [CR] {
      assert (F.Expand(a) + [CR])[..|F.Expand(a)|] == F.Expand(a) && (a + [CR])[..|a|] == a;
    }
  }

  /** Whether a file is neat, by its first segment. */
  lemma NeatBySegment(w: seq<byte>)
    requires AsciiText(w) && w != []
    ensures var a, rest := w[..SegmentLength(w)], w[Skip(w)..];
            Neat(w) <==>
            && EndOf(w) == CRLF && TAB !in a && !EndsInBlank(a)
            && (!Unended(w) ==> Neat(rest))
  {
    hide F.FormatFile, F.Format, F.Clean, F.Expand, SegmentLength, Skip, Broken, Unended, EndOf, AsciiText, Tidy;
    var a, rest := w[..SegmentLength(w)], w[Skip(w)..];
    FirstSegment(w);
    F.FormatFileExact(w);
    F.FormatFileExact(rest);
    CleanFixed(a);
    if Broken(w) {
      TidyBroken(w);
      BrokenAtEnd(w);
      if Unended(w) {
        KeptTail(a);
      }
    } else {
      TidyWhole(w);
      if Unended(w) {
        ChangedTail(a);
      } else if EndOf(w) == CRLF {
        KeptLine(a, rest);
      } else {
        ChangedLine(a, rest);
      }
    }
  }

  lemma BrokenAtEnd(w: seq<byte>)
    requires Broken(w)
    ensures Unended(w) <==> Skip(w) == |w|
  {
    hide SegmentLength;
  }

  lemma NothingIsNeat()
    ensures Neat([])
  {
    F.FormatFileExact([]);
    F.FormatLastLine([]);
  }

  lemma {:induction false} NeatPieces(w: seq<byte>)
    requires AsciiText(w) && Neat(w)
    ensures forall p :: p in RawPieces(w, true) ==> GoodPiece(p)
    decreases |w|
  {
    hide Neat, SegmentLength, Skip, Broken, Unended, EndOf, AsciiText, RawPieces, GoodPiece;
    if w == [] {
      NoRaw(true);
    } else {
      var a := w[..SegmentLength(w)];
      FirstSegment(w);
      RawNext(w, true);
      NeatBySegment(w);
      PrintableLine(a);
      MakesGoodPiece(a);
      RemarkIsGood();
      if !Unended(w) {
        EndsWhole(w);
        NeatPieces(w[Skip(w)..]);
      }
    }
  }

  lemma EndsWhole(w: seq<byte>)
    requires w != [] && EndOf(w) == CRLF && !Unended(w)
    ensures !Broken(w)
  {
    hide SegmentLength;
  }

  lemma PrintableLine(a: seq<byte>)
    requires Inner(a) && TAB !in a && !EndsInBlank(a)
    ensures AllPrintable(a) && (a != [] ==> a[|a| - 1] != SPACE)
  {
    assert forall i :: 0 <= i < |a| ==> a[i] in a;
  }

  /** The first segment of a file that is not neat, if it is not in order itself. */
  lemma BadSegment(rules: P.Rules, w: seq<byte>)
    requires AsciiText(w) && w != [] && rules.forceCrlf && rules.forceNoTabs && !P.Contains(w, P.SUBPROJECT)
    requires var a := w[..SegmentLength(w)]; !(EndOf(w) == CRLF && TAB !in a && !EndsInBlank(a))
    ensures !P.LayoutOk(rules, P.CutAll(w[..SegmentLength(w)] + EndOf(w)))
  {
    hide SegmentLength, Skip, Broken, Unended, EndOf, AsciiText, P.LayoutOk, P.CutAll, P.Contains;
    var n := SegmentLength(w);
    FirstSegment(w);
    LineVerdict(rules, w[..n], EndOf(w));
    assert w[..n] == w[0..n];
    if P.Contains(w[0..n], P.SUBPROJECT) {
      ContainedAround(w, 0, n, P.SUBPROJECT);
    }
  }

  /** A file that is not neat has an added line that is refused, and only added lines come
      before it. */
  lemma {:induction false} BadPiece(rules: P.Rules, w: seq<byte>) returns (k: nat)
    requires AsciiText(w) && !Neat(w) && rules.forceCrlf && rules.forceNoTabs && !P.Contains(w, P.SUBPROJECT)
    ensures var ps := RawPieces(w, true);
            && k < |ps| && (forall j :: 0 <= j <= k ==> P.IsAdded(ps[j]))
            && !P.LayoutOk(rules, P.CutAll(ps[k][1..]))
    decreases |w|
  {
    hide Neat, SegmentLength, Skip, Broken, Unended, EndOf, AsciiText, RawPieces, P.LayoutOk, P.CutAll, P.Contains;
    assert w != [] by { NothingIsNeat(); }
    var ps, a, rest := RawPieces(w, true), w[..SegmentLength(w)], w[Skip(w)..];
    FirstSegment(w);
    RawNext(w, true);
    NeatBySegment(w);
    assert ps[0] == [PLUS] + (a + EndOf(w)) && ps[0][1..] == a + EndOf(w);
    if EndOf(w) == CRLF && TAB !in a && !EndsInBlank(a) {
      EndsWhole(w);
      assert rest == w[Skip(w)..|w|];
      if P.Contains(rest, P.SUBPROJECT) {
        ContainedAround(w, Skip(w), |w|, P.SUBPROJECT);
      }
      var k' := BadPiece(rules, rest);
      k := k' + 1;
      assert forall j :: 0 <= j < |RawPieces(rest, true)| ==> ps[j + 1] == RawPieces(rest, true)[j];
    } else {
      BadSegment(rules, w);
      k := 0;
    }
  }

  // ------------------------------------------------ the verdict

  /** The checker's verdict on the diff that adds the file. */
  ghost predicate Accepted(head: seq<P.Line>, w: seq<byte>, u: P.Line -> bool) {
    var lines := SplitLines(Diff(head, w));
    !P.FormatError(lines) && P.AllPass(lines, |lines|, u)
  }

  lemma NeatAccepted(head: seq<P.Line>, w: seq<byte>, u: P.Line -> bool)
    requires WellFormedHead(head) && AsciiText(w) && Neat(w)
    ensures Accepted(head, w, u) <==> NoOldDebug(u, RawPieces(w, true))
  {
    hide SplitLines, Diff, RawPieces, GoodPiece, P.FormatError, P.AllPass, P.IsDiff, P.IsPatchLine, P.OpensHunk, HeadLine,
         P.CutAll, P.LayoutOk, P.Live, P.RulesOf, Neat;
    RawLines(head, w);
    NeatPieces(w);
    var body, rules := RawPieces(w, true), P.RulesOf(head, u);
    forall i | 0 <= i < |body|
      ensures !P.IsDiff(body[i]) && P.IsPatchLine(body[i])
      ensures P.AddedPasses(rules, body[i]) <==> P.IsAdded(body[i]) ==> !u(P.CutAll(body[i][1..]).line)
    {
      assert body[i] in body;
      GoodPieceFine(rules, body[i]);
      AddedSplit(head, u, body[i]);
    }
    P.HunkVerdict(head, body, u);
    AllLive(body);
    assert NoOldDebug(u, body) <==> forall i :: 0 <= i < |body| ==> P.AddedPasses(rules, body[i]);
  }

  /** Where CRLF is asked for and no submodule commit is named, the checker accepts exactly
      the files that the formatter leaves as they are and that have no carriage return
      alone but at the end, unless an added line uses a deprecated macro. */
  lemma AcceptedExactly(head: seq<P.Line>, w: seq<byte>, u: P.Line -> bool)
    requires WellFormedHead(head) && AsciiText(w)
    requires P.RulesOf(head, u).forceCrlf && !P.Contains(w, P.SUBPROJECT)
    ensures Accepted(head, w, u) <==> F.FormatFile(w) == w && Tidy(w) && NoOldDebug(u, RawPieces(w, true))
  {
    hide F.FormatFile, SplitLines, Diff, RawPieces, P.FormatError, P.AllPass, NoOldDebug, P.OpensHunk, HeadLine, Tidy,
         P.Contains, P.CutAll, P.LayoutOk, AsciiText, P.SwitchesAt;
    if Neat(w) {
      NeatAccepted(head, w, u);
    } else {
      RawLines(head, w);
      P.CrlfMeansNoTabs(head, |head|);
      var k := BadPiece(P.RulesOf(head, u), w);
      AddedSplit(head, u, RawPieces(w, true)[k]);
      P.BadLine(head, RawPieces(w, true), k, u);
    }
  }

  /** The checker run on the diff that adds a file. */
  method CheckFile(head: seq<P.Line>, w: seq<byte>, u: P.Line -> bool) returns (ok: bool, formatOk: bool)
    requires WellFormedHead(head) && AsciiText(w)
    ensures ok <==> Accepted(head, w, u)
    ensures P.RulesOf(head, u).forceCrlf && !P.Contains(w, P.SUBPROJECT) ==>
              (ok <==> F.FormatFile(w) == w && Tidy(w) && NoOldDebug(u, RawPieces(w, true)))
  {
    hide F.FormatFile, SplitLines, Diff, RawPieces, P.FormatError, P.AllPass, P.Added, WellFormedHead, NoOldDebug, Tidy,
         P.Contains, P.RulesOf, AsciiText;
    var lines := SplitLines(Diff(head, w));
    LinesNotEmpty(Diff(head, w));
    ghost var checked;
    ok, formatOk, checked := P.CheckDiff(lines, u);
    if P.RulesOf(head, u).forceCrlf && !P.Contains(w, P.SUBPROJECT) {
      AcceptedExactly(head, w, u);
    }
  }

  /** Three files with one line each: a tab, a blank at the end, and LF alone. */
  lemma ThreeRefused(head: seq<P.Line>, u: P.Line -> bool)
    requires WellFormedHead(head) && P.RulesOf(head, u).forceCrlf
    ensures !Accepted(head, [TAB, 0x61, CR, LF], u) && !Accepted(head, [0x61, SPACE, CR, LF], u) && !Accepted(head, [0x61, LF], u)
  {
    OneLineRefused(head, [TAB, 0x61], CRLF, u);
    OneLineRefused(head, [0x61, SPACE], CRLF, u);
    OneLineRefused(head, [0x61], [LF], u);
    assert [TAB, 0x61] + CRLF == [TAB, 0x61, CR, LF] && [0x61, SPACE] + CRLF == [0x61, SPACE, CR, LF];
    assert [0x61] + [LF] == [0x61, LF];
  }

  lemma OneLineRefused(head: seq<P.Line>, a: seq<byte>, eol: seq<byte>, u: P.Line -> bool)
    requires WellFormedHead(head) && P.RulesOf(head, u).forceCrlf && Inner(a) && |a| <= 2
    requires eol == CRLF || eol == [LF]
    requires eol == [LF] || TAB in a || EndsInBlank(a)
    ensures !Accepted(head, a + eol, u)
  {
    hide Accepted, WellFormedHead, P.Contains, P.RulesOf, NoOldDebug, RawPieces, F.FormatFile, F.Format, F.Clean, Tidy;
    var w := a + eol;
    assert NoEnds(a) && w == a + eol + [];
    NoSubproject(w);
    AcceptedExactly(head, w, u);
    F.FormatFileExact(w);
    CleanFixed(a);
    if eol == CRLF {
      KeptLine(a, []);
    } else {
      ChangedLine(a, []);
    }
  }
}
