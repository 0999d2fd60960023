/** GitDiffCheck of PatchCheck.py: a three-state reader of a git diff that checks the
    lines a patch adds. Lines keep their line ends; characters are taken as bytes. */
module PatchCheck {
  import opened Options
  import opened Bytes
  import Text

  type Line = seq<byte>

  predicate StartsWith(l: Line, prefix: seq<byte>) {
    |prefix| <= |l| && l[..|prefix|] == prefix
  }

  predicate EndsWith(l: Line, suffix: seq<byte>) {
    |suffix| <= |l| && l[|l| - |suffix|..] == suffix
  }

  predicate Contains(l: Line, text: seq<byte>) {
    exists i :: 0 <= i <= |l| && StartsWith(l[i..], text)
  }

  /** str.rstrip. */
  function RStrip(l: Line): (r: Line)
    ensures |r| <= |l| && r == l[..|r|]
    ensures r != [] ==> !Text.IsSpace(r[|r| - 1])
    ensures forall i :: |r| <= i < |l| ==> Text.IsSpace(l[i])
  {
    if l == [] || !Text.IsSpace(l[|l| - 1]) then l else RStrip(l[..|l| - 1])
  }

  // ------------------------------------------------ check_added_line

  datatype Cut = Cut(line: Line, eol: seq<byte>)

  const LINE_ENDINGS: seq<seq<byte>> := [[CR, LF], [LF, CR], [LF], [CR]]

  function CutOne(c: Cut, ending: seq<byte>): Cut {
    if EndsWith(c.line, ending) then Cut(c.line[..|c.line| - |ending|], ending) else c
  }

  /** The endings are tried in turn, each on what the ones before it left. */
  function CutAll(line: Line): Cut {
    CutOne(CutOne(CutOne(CutOne(Cut(line, []), [CR, LF]), [LF, CR]), [LF]), [CR])
  }

  const SUBPROJECT: seq<byte> := Ascii("Subproject commit")

  /** `usesOldDebug` stands for the search for the deprecated debug macros. */
  datatype Rules = Rules(forceCrlf: bool, forceNoTabs: bool, usesOldDebug: Line -> bool)

  /** The line-end, tab and trailing-space checks on a line whose line end is off. */
  predicate LayoutOk(r: Rules, c: Cut) {
    && (r.forceCrlf && c.eol != CRLF ==> Contains(c.line, SUBPROJECT))
    && (r.forceNoTabs ==> TAB !in c.line)
    && (c.line != [] ==> !Text.IsSpace(c.line[|c.line| - 1]))
  }

  /** What an added line must satisfy. */
  predicate Acceptable(r: Rules, c: Cut) {
    LayoutOk(r, c) && !r.usesOldDebug(c.line)
  }

  predicate EndsLine(c: byte) { c == CR || c == LF }

  /** `line` is a text and at most one of the four line ends, as str.splitlines leaves it. */
  predicate IsLine(line: Line, text: Line, eol: seq<byte>) {
    && line == text + eol && eol in {[], [CR, LF], [LF, CR], [LF], [CR]}
    && (text != [] ==> !EndsLine(text[|text| - 1]))
  }

  lemma EndsInOne(l: Line, a: byte)
    ensures EndsWith(l, [a]) <==> l != [] && l[|l| - 1] == a
  {
    if l != [] {
      assert l[|l| - 1..] == [l[|l| - 1]];
    }
  }

  lemma EndsInTwo(l: Line, a: byte, b: byte)
    ensures EndsWith(l, [a, b]) <==> |l| >= 2 && l[|l| - 2] == a && l[|l| - 1] == b
  {
    if |l| >= 2 {
      assert l[|l| - 2..] == [l[|l| - 2], l[|l| - 1]];
    }
  }

  /** CutAll by the last characters of the line. */
  lemma CutOff(l: Line)
    ensures |l| >= 2 && l[|l| - 2] == CR && l[|l| - 1] == LF ==>
              CutAll(l) == CutRest(Cut(l[..|l| - 2], [CR, LF]))
    ensures |l| >= 2 && l[|l| - 2] == LF && l[|l| - 1] == CR ==>
              CutAll(l) == CutOne(CutOne(Cut(l[..|l| - 2], [LF, CR]), [LF]), [CR])
    ensures l != [] && l[|l| - 1] == LF && (|l| >= 2 ==> l[|l| - 2] != CR) ==> CutAll(l) == Cut(l[..|l| - 1], [LF])
    ensures l != [] && l[|l| - 1] == CR && (|l| >= 2 ==> l[|l| - 2] != LF) ==> CutAll(l) == Cut(l[..|l| - 1], [CR])
    ensures (l != [] ==> !EndsLine(l[|l| - 1])) ==> CutAll(l) == Cut(l, [])
  {
    hide EndsWith;
    EndsInTwo(l, CR, LF);
    EndsInTwo(l, LF, CR);
    EndsInOne(l, LF);
    EndsInOne(l, CR);
    if l != [] {
      EndsInOne(l[..|l| - 1], CR);
    }
  }

  function CutRest(c: Cut): Cut {
    CutOne(CutOne(CutOne(c, [LF, CR]), [LF]), [CR])
  }

  lemma NothingToCut(c: Cut)
    requires c.line != [] ==> !EndsLine(c.line[|c.line| - 1])
    ensures CutRest(c) == c && CutOne(CutOne(c, [LF]), [CR]) == c
  {
    hide EndsWith;
    EndsInTwo(c.line, LF, CR);
    EndsInOne(c.line, LF);
    EndsInOne(c.line, CR);
  }

  lemma TwoCharactersCut(text: Line, a: byte, b: byte)
    requires text != [] ==> !EndsLine(text[|text| - 1])
    requires EndsLine(a) && EndsLine(b) && a != b
    ensures CutAll(text + [a, b]) == Cut(text, [a, b])
  {
    hide CutAll, CutOne, CutRest;
    var line := text + [a, b];
    CutOff(line);
    assert line[..|line| - 2] == text;
    NothingToCut(Cut(text, [a, b]));
  }

  lemma OneCharacterCut(text: Line, a: byte)
    requires text != [] ==> !EndsLine(text[|text| - 1])
    requires EndsLine(a)
    ensures CutAll(text + [a]) == Cut(text, [a])
  {
    hide CutAll, CutOne, CutRest;
    var line := text + [a];
    CutOff(line);
    assert line[..|line| - 1] == text;
  }

  /** A line as str.splitlines gives it is cut into its text and its line end. */
  lemma LineCut(line: Line, text: Line, eol: seq<byte>)
    requires IsLine(line, text, eol)
    ensures CutAll(line) == Cut(text, eol)
  {
    hide CutAll, CutOne, CutRest;
    if eol == [] {
      assert line == text;
      CutOff(line);
    } else if |eol| == 1 {
      OneCharacterCut(text, eol[0]);
    } else {
      TwoCharactersCut(text, eol[0], eol[1]);
    }
  }

  lemma EndingFits(l: Line, ending: seq<byte>)
    requires EndsWith(l, ending)
    ensures |ending| <= |l|
  {
  }

  lemma CutShrinks(c: Cut, ending: seq<byte>)
    requires c.eol != [] && ending != []
    ensures var d := CutOne(c, ending);
            && d.eol != [] && |d.line| <= |c.line|
            && if EndsWith(c.line, ending) then |d.line| + |d.eol| == |c.line| else d == c
  {
    if EndsWith(c.line, ending) {
      EndingFits(c.line, ending);
    }
  }

  /** A line end behind another one takes that one with it. */
  lemma CutTooMuch(c: Cut)
    requires c.eol != [] && c.line != [] && EndsLine(c.line[|c.line| - 1])
    ensures var d := CutRest(c); |d.line| + |d.eol| <= |c.line|
    ensures var d := CutOne(CutOne(c, [LF]), [CR]); |d.line| + |d.eol| <= |c.line|
  {
    hide EndsWith, CutOne;
    var c1 := CutOne(c, [LF, CR]);
    CutShrinks(c, [LF, CR]);
    CutShrinks(c1, [LF]);
    CutShrinks(CutOne(c1, [LF]), [CR]);
    CutShrinks(c, [LF]);
    CutShrinks(CutOne(c, [LF]), [CR]);
    EndsInOne(c.line, LF);
    EndsInOne(c.line, CR);
  }

  /** The text and the line end reported make up the line exactly unless a line end of
      two characters stands behind another one. */
  lemma CutKeeps(line: Line)
    ensures var c, n := CutAll(line), |line|;
            c.line + c.eol == line <==>
            !(n >= 3 && EndsLine(line[n - 3]) && EndsLine(line[n - 2]) && EndsLine(line[n - 1]) && line[n - 2] != line[n - 1])
  {
    hide CutAll, CutOne, CutRest;
    CutOff(line);
    var n := |line|;
    if n >= 2 && EndsLine(line[n - 2]) && EndsLine(line[n - 1]) && line[n - 2] != line[n - 1] {
      var c := Cut(line[..n - 2], line[n - 2..]);
      assert line[n - 2..] == [line[n - 2], line[n - 1]];
      if n >= 3 && EndsLine(line[n - 3]) {
        CutTooMuch(c);
      } else {
        NothingToCut(c);
      }
    } else if n >= 1 {
      assert line == line[..n - 1] + [line[n - 1]];
    }
  }

  /** Two line ends in one line: both are cut, and the wrong one is reported. */
  lemma TwoLineEnds(line: Line)
    requires line == [0x61, LF, CR, LF]
    ensures CutAll(line) == Cut([0x61], [LF])
  {
    hide EndsWith, CutAll;
    CutOff(line);
    var c: Cut := Cut([0x61, LF], [CR, LF]);
    assert line[..2] == c.line;
    EndsInTwo(c.line, LF, CR);
    EndsInOne(c.line, LF);
    assert c.line[..1] == [0x61];
    EndsInOne([0x61], CR);
  }

  /** The loop over the line endings. */
  method StripLineEndings(added: Line) returns (line: Line, eol: seq<byte>)
    ensures forall text, end :: IsLine(added, text, end) ==> line == text && eol == end
    ensures Cut(line, eol) == CutAll(added)
  {
    hide EndsWith;
    eol, line := [], added;
    for i := 0 to |LINE_ENDINGS|
      invariant i == 0 ==> Cut(line, eol) == Cut(added, [])
      invariant i == 1 ==> Cut(line, eol) == CutOne(Cut(added, []), [CR, LF])
      invariant i == 2 ==> Cut(line, eol) == CutOne(CutOne(Cut(added, []), [CR, LF]), [LF, CR])
      invariant i == 3 ==> Cut(line, eol) == CutOne(CutOne(CutOne(Cut(added, []), [CR, LF]), [LF, CR]), [LF])
      invariant i == 4 ==> Cut(line, eol) == CutAll(added)
    {
      if EndsWith(line, LINE_ENDINGS[i]) {
        EndingFits(line, LINE_ENDINGS[i]);
        eol := LINE_ENDINGS[i];
        line := line[..|line| - |eol|];
      }
    }
    forall text, end | IsLine(added, text, end)
      ensures line == text && eol == end
    {
      LineCut(added, text, end);
    }
  }

  /** The method counts the errors it would report. */
  method CheckAddedLine(r: Rules, added: Line) returns (errors: nat)
    ensures forall text, eol :: IsLine(added, text, eol) ==>
              (errors == 0 <==>
               && (r.forceCrlf && eol != [CR, LF] ==> Contains(text, Ascii("Subproject commit")))
               && (r.forceNoTabs ==> TAB !in text)
               && (text != [] ==> !Text.IsSpace(text[|text| - 1]))
               && !r.usesOldDebug(text))
    ensures errors == 0 <==> Acceptable(r, CutAll(added))
  {
    hide CutAll, Contains, Ascii, IsLine;
    var line, eol := StripLineEndings(added);
    var stripped := RStrip(line);
    errors := 0;
    if r.forceCrlf && eol != CRLF && !Contains(line, SUBPROJECT) {
      errors := errors + 1;
    }
    if r.forceNoTabs && TAB in line {
      errors := errors + 1;
    }
    if |stripped| < |line| {
      errors := errors + 1;
    }
    if r.usesOldDebug(line) {
      errors := errors + 1;
    }
  }

  lemma SpaceBytes(c: byte)
    ensures Text.IsSpace(c) <==> c in {9, 10, 11, 12, 13, 28, 29, 30, 31, 32, 0x85, 0xa0}
  {
  }

  // ------------------------------------------------ what the lines of a diff are

  const SPACE_MINUS_PLUS: set<byte> := {SPACE, MINUS, PLUS}

  predicate IsDiff(l: Line) { StartsWith(l, Ascii("diff --git")) }

  predicate IsHunk(l: Line) { StartsWith(l, Ascii("@@ ")) }

  predicate IsBinaryMark(l: Line) {
    StartsWith(l, Ascii("GIT binary patch")) || StartsWith(l, Ascii("Binary files"))
  }

  predicate IsSubmodule(l: Line) { StartsWith(l, Ascii("new file mode 160000")) }

  const PRE_PATCH_PREFIXES: seq<seq<byte>> := [
    Ascii("--- "), Ascii("+++ "), Ascii("index "), Ascii("new file "), Ascii("deleted file "), Ascii("old mode "),
    Ascii("new mode "), Ascii("similarity index "), Ascii("copy from "), Ascii("copy to "), Ascii("rename ")
  ]

  predicate IsHeaderLine(l: Line) {
    exists i :: 0 <= i < |PRE_PATCH_PREFIXES| && StartsWith(l, PRE_PATCH_PREFIXES[i])
  }

  /** A line that can stand in a text hunk. */
  predicate IsPatchLine(l: Line) {
    || l == [] || l[0] in SPACE_MINUS_PLUS
    || StartsWith(l, CRLF) || StartsWith(l, Ascii("\\ No newline "))
  }

  /** The file name: from column 13 to the next space. */
  function FileName(l: Line): seq<byte> {
    UpToSpace(if |l| >= 13 then l[13..] else [])
  }

  function UpToSpace(s: seq<byte>): seq<byte> {
    if s == [] || s[0] == SPACE then [] else [s[0]] + UpToSpace(s[1..])
  }

  /** Files used by git itself, which have tabs and LF line ends. */
  predicate GitInternal(name: seq<byte>) {
    name == Ascii(".gitmodules") || name == Ascii("BaseTools/Conf/diff.order")
  }

  predicate ShellScript(name: seq<byte>) {
    || EndsWith(name, Ascii(".sh"))
    || StartsWith(name, Ascii("BaseTools/BinWrappers/PosixLike/"))
    || StartsWith(name, Ascii("BaseTools/BinPipWrappers/PosixLike/"))
    || StartsWith(name, Ascii("BaseTools/Bin/CYGWIN_NT-5.1-i686/"))
    || name == Ascii("BaseTools/BuildEnv")
  }

  lemma FirstLetters(l: Line)
    ensures IsDiff(l) ==> l != [] && l[0] == 'd' as int
    ensures IsHunk(l) ==> l != [] && l[0] == '@' as int
    ensures IsBinaryMark(l) ==> l != [] && (l[0] == 'G' as int || l[0] == 'B' as int)
    ensures IsSubmodule(l) ==> l != [] && l[0] == 'n' as int
  {
    assert Ascii("diff --git")[0] == 'd' as int;
    assert Ascii("@@ ")[0] == '@' as int;
    assert Ascii("GIT binary patch")[0] == 'G' as int;
    assert Ascii("Binary files")[0] == 'B' as int;
    assert Ascii("new file mode 160000")[0] == 'n' as int;
    Front(l, Ascii("diff --git"));
    Front(l, Ascii("@@ "));
    Front(l, Ascii("GIT binary patch"));
    Front(l, Ascii("Binary files"));
    Front(l, Ascii("new file mode 160000"));
  }

  lemma Front(l: Line, prefix: seq<byte>)
    requires prefix != []
    ensures StartsWith(l, prefix) ==> l != [] && l[0] == prefix[0]
  {
  }

  lemma PrefixAt(l: Line, prefix: seq<byte>, i: nat)
    requires i < |prefix|
    ensures StartsWith(l, prefix) ==> i < |l| && l[i] == prefix[i]
  {
  }

  lemma LastFits(l: Line, suffix: seq<byte>)
    requires suffix != []
    ensures EndsWith(l, suffix) ==> l != [] && l[|l| - 1] == suffix[|suffix| - 1]
  {
  }

  // ------------------------------------------------ where a line stands

  datatype Region = Preamble | Header | TextHunk | BinaryPatch

  function NextRegion(r: Region, l: Line): Region {
    if IsDiff(l) then Header
    else
      match r
      case Preamble => Preamble
      case Header => if IsHunk(l) then TextHunk else if IsBinaryMark(l) then BinaryPatch else Header
      case TextHunk => TextHunk
      case BinaryPatch => if IsHunk(l) then TextHunk else BinaryPatch
  }

  /** The region line i stands in, from the lines before it. */
  function RegionOf(lines: seq<Line>, i: nat): Region
    requires i <= |lines|
  {
    if i == 0 then Preamble else NextRegion(RegionOf(lines, i - 1), lines[i - 1])
  }

  /** The file name and the two switches in force at a line. */
  datatype Switches = Switches(name: Option<seq<byte>>, crlf: bool, noTabs: bool)

  function NextSwitches(s: Switches, r: Region, l: Line): Switches {
    if IsDiff(l) then
      var name := FileName(l);
      Switches(Some(name), !ShellScript(name) && !GitInternal(name), !GitInternal(name))
    else if r == Header && IsSubmodule(l) then s.(crlf := false)
    else s
  }

  function SwitchesAt(lines: seq<Line>, i: nat): Switches
    requires i <= |lines|
  {
    if i == 0 then Switches(None, true, true)
    else NextSwitches(SwitchesAt(lines, i - 1), RegionOf(lines, i - 1), lines[i - 1])
  }

  // ------------------------------------------------ the verdict

  /** A line that is an error where it stands. */
  predicate Misplaced(lines: seq<Line>, i: nat)
    requires i < |lines|
  {
    var l, r := lines[i], RegionOf(lines, i);
    !IsDiff(l) &&
    match r
    case Preamble => RStrip(l) != []
    case Header => !IsHunk(l) && !IsBinaryMark(l) && !IsSubmodule(l) && !IsHeaderLine(l)
    case TextHunk => false
    case BinaryPatch => false
  }

  /** The first line behind a text hunk that belongs to no patch. */
  predicate EndsPatch(lines: seq<Line>, i: nat)
    requires i < |lines|
  {
    var l := lines[i];
    RegionOf(lines, i) == TextHunk && !IsDiff(l) && !IsHunk(l) && !IsPatchLine(l)
  }

  ghost predicate Reached(lines: seq<Line>, i: nat)
    requires i <= |lines|
  {
    forall j :: 0 <= j < i ==> !Misplaced(lines, j) && !EndsPatch(lines, j)
  }

  /** A format error: a misplaced line, or a diff behind the end of the patch. */
  ghost predicate FormatErrorAt(lines: seq<Line>, i: nat)
    requires i < |lines|
  {
    Misplaced(lines, i) || (EndsPatch(lines, i) && exists j :: i < j < |lines| && IsDiff(lines[j]))
  }

  ghost predicate FormatError(lines: seq<Line>) {
    exists i :: 0 <= i < |lines| && Reached(lines, i) && FormatErrorAt(lines, i)
  }

  /** The added lines: those with a '+' inside a text hunk. */
  ghost predicate Added(lines: seq<Line>, i: nat)
    requires i < |lines|
  {
    Reached(lines, i) && RegionOf(lines, i) == TextHunk && lines[i] != [] && lines[i][0] == PLUS
  }

  ghost predicate Passes(lines: seq<Line>, i: nat, usesOldDebug: Line -> bool)
    requires i < |lines|
  {
    var s := SwitchesAt(lines, i);
    lines[i] != [] ==> Acceptable(Rules(s.crlf, s.noTabs, usesOldDebug), CutAll(lines[i][1..]))
  }

  ghost predicate AllPass(lines: seq<Line>, n: nat, usesOldDebug: Line -> bool)
    requires n <= |lines|
  {
    forall i :: 0 <= i < n && Added(lines, i) ==> Passes(lines, i, usesOldDebug)
  }

  // ------------------------------------------------ the checker

  datatype State = START | PRE_PATCH | PATCH

  function StateFor(r: Region): State {
    match r
    case Preamble => START
    case Header => PRE_PATCH
    case TextHunk => PATCH
    case BinaryPatch => PATCH
  }

  /** The fields of the checker. Those that __init__ does not set are None until they
      are assigned. */
  datatype Fields = Fields(ok: bool, formatOk: bool, lineNum: nat, state: State, filename: Option<seq<byte>>,
                           binary: Option<bool>, forceCrlf: Option<bool>, forceNoTabs: Option<bool>)

  /** The fields agree with the region and the switches of line `n`; in particular every
      field that the branch for that region reads has been assigned. */
  predicate Agrees(lines: seq<Line>, f: Fields, n: nat)
    requires n <= |lines|
  {
    var r, s := RegionOf(lines, n), SwitchesAt(lines, n);
    && f.state == StateFor(r)
    && (r == TextHunk ==> f.binary == Some(false))
    && (r == BinaryPatch ==> f.binary == Some(true))
    && f.filename == s.name
    && (r != Preamble ==> s.name.Some? && f.forceCrlf == Some(s.crlf) && f.forceNoTabs == Some(s.noTabs))
  }

  /** Exactly the added lines before the n-th have been checked, and `ok` says whether
      they all passed. */
  ghost predicate CheckedUpTo(lines: seq<Line>, usesOldDebug: Line -> bool, ok: bool, checked: set<nat>, n: nat)
    requires n <= |lines|
  {
    && (ok <==> AllPass(lines, n, usesOldDebug))
    && forall i: nat :: i in checked <==> i < n && Added(lines, i)
  }

  ghost predicate Running(lines: seq<Line>, usesOldDebug: Line -> bool, f: Fields, checked: set<nat>) {
    && f.lineNum <= |lines| && f.formatOk
    && Reached(lines, f.lineNum) && Agrees(lines, f, f.lineNum)
    && CheckedUpTo(lines, usesOldDebug, f.ok, checked, f.lineNum)
  }

  /** Line `n` ended the run. */
  ghost predicate Stopped(lines: seq<Line>, usesOldDebug: Line -> bool, f: Fields, checked: set<nat>, n: nat) {
    && n < |lines| && Reached(lines, n) && (Misplaced(lines, n) || EndsPatch(lines, n))
    && f.formatOk == !FormatErrorAt(lines, n) && (f.formatOk ==> f.lineNum == |lines|) && f.lineNum <= |lines|
    && exists ok :: CheckedUpTo(lines, usesOldDebug, ok, checked, n) && f.ok == (f.formatOk && ok)
  }

  // One lemma per way through run().

  lemma ReachedNext(lines: seq<Line>, n: nat)
    requires n < |lines| && Reached(lines, n) && !Misplaced(lines, n) && !EndsPatch(lines, n)
    ensures Reached(lines, n + 1)
  {
    hide Misplaced, EndsPatch;
  }

  lemma CheckedNext(lines: seq<Line>, u: Line -> bool, ok: bool, checked: set<nat>, n: nat)
    requires n < |lines| && CheckedUpTo(lines, u, ok, checked, n)
    ensures !Added(lines, n) ==> CheckedUpTo(lines, u, ok, checked, n + 1)
    ensures Added(lines, n) ==> CheckedUpTo(lines, u, ok && Passes(lines, n, u), checked + {n}, n + 1)
  {
    hide Added, Passes;
  }

  /** A line that is neither misplaced, nor the end, nor added. */
  lemma Uneventful(lines: seq<Line>, u: Line -> bool, f: Fields, f': Fields, checked: set<nat>)
    requires Running(lines, u, f, checked) && f.lineNum < |lines|
    requires !Misplaced(lines, f.lineNum) && !EndsPatch(lines, f.lineNum) && !Added(lines, f.lineNum)
    requires f'.ok == f.ok && f'.formatOk && f'.lineNum == f.lineNum + 1 && Agrees(lines, f', f'.lineNum)
    ensures Running(lines, u, f', checked)
  {
    hide Misplaced, EndsPatch, Added, Passes, Reached, CheckedUpTo, Agrees;
    ReachedNext(lines, f.lineNum);
    CheckedNext(lines, u, f.ok, checked, f.lineNum);
  }

  lemma DiffLine(lines: seq<Line>, u: Line -> bool, f: Fields, checked: set<nat>)
    requires Running(lines, u, f, checked) && f.lineNum < |lines| && IsDiff(lines[f.lineNum])
    ensures var name := FileName(lines[f.lineNum]);
            Running(lines, u, f.(state := PRE_PATCH, filename := Some(name),
                                 forceCrlf := Some(!ShellScript(name) && !GitInternal(name)),
                                 forceNoTabs := Some(!GitInternal(name)), lineNum := f.lineNum + 1), checked)
  {
    hide Ascii, ShellScript, GitInternal, FileName, Reached, CheckedUpTo;
    FirstLetters(lines[f.lineNum]);
    hide IsDiff;
    var name := FileName(lines[f.lineNum]);
    Uneventful(lines, u, f, f.(state := PRE_PATCH, filename := Some(name),
                               forceCrlf := Some(!ShellScript(name) && !GitInternal(name)),
                               forceNoTabs := Some(!GitInternal(name)), lineNum := f.lineNum + 1), checked);
  }

  lemma BlankLine(lines: seq<Line>, u: Line -> bool, f: Fields, checked: set<nat>)
    requires Running(lines, u, f, checked) && f.lineNum < |lines| && f.state == START
    requires !IsDiff(lines[f.lineNum]) && RStrip(lines[f.lineNum]) == []
    ensures Running(lines, u, f.(lineNum := f.lineNum + 1), checked)
  {
    hide Ascii, IsDiff, Reached, CheckedUpTo, RStrip;
    Uneventful(lines, u, f, f.(lineNum := f.lineNum + 1), checked);
  }

  lemma HunkLine(lines: seq<Line>, u: Line -> bool, f: Fields, checked: set<nat>)
    requires Running(lines, u, f, checked) && f.lineNum < |lines| && f.state != START && IsHunk(lines[f.lineNum])
    ensures Running(lines, u, f.(state := PATCH, binary := Some(false), lineNum := f.lineNum + 1), checked)
  {
    hide Ascii, Reached, CheckedUpTo;
    FirstLetters(lines[f.lineNum]);
    hide IsDiff, IsHunk, IsSubmodule;
    Uneventful(lines, u, f, f.(state := PATCH, binary := Some(false), lineNum := f.lineNum + 1), checked);
  }

  /** A header line that is not a hunk: a binary mark, a new submodule, or a known one. */
  lemma HeaderStep(lines: seq<Line>, u: Line -> bool, f: Fields, f': Fields, checked: set<nat>)
    requires Running(lines, u, f, checked) && f.lineNum < |lines| && f.state == PRE_PATCH
    requires var l := lines[f.lineNum];
             && !IsDiff(l) && !IsHunk(l)
             && if IsBinaryMark(l) then f' == f.(state := PATCH, binary := Some(true), lineNum := f.lineNum + 1)
                else if IsSubmodule(l) then f' == f.(forceCrlf := Some(false), lineNum := f.lineNum + 1)
                else IsHeaderLine(l) && f' == f.(lineNum := f.lineNum + 1)
    ensures Running(lines, u, f', checked)
  {
    hide Ascii, Reached, CheckedUpTo;
    FirstLetters(lines[f.lineNum]);
    hide IsDiff, IsHunk, IsSubmodule, IsBinaryMark, IsHeaderLine;
    Uneventful(lines, u, f, f', checked);
  }

  /** A line of a patch, whether binary or text, that adds nothing. */
  lemma QuietPatchLine(lines: seq<Line>, u: Line -> bool, f: Fields, checked: set<nat>)
    requires Running(lines, u, f, checked) && f.lineNum < |lines| && f.state == PATCH
    requires var l := lines[f.lineNum];
             !IsDiff(l) && !IsHunk(l) && (f.binary == Some(true) || (IsPatchLine(l) && (l == [] || l[0] != PLUS)))
    ensures Running(lines, u, f.(lineNum := f.lineNum + 1), checked)
  {
    hide Ascii, Reached, CheckedUpTo, IsDiff, IsHunk, IsSubmodule, IsBinaryMark, IsHeaderLine, IsPatchLine;
    Uneventful(lines, u, f, f.(lineNum := f.lineNum + 1), checked);
  }

  lemma AddedLine(lines: seq<Line>, u: Line -> bool, f: Fields, checked: set<nat>)
    requires Running(lines, u, f, checked) && f.lineNum < |lines| && f.state == PATCH && f.binary == Some(false)
    requires lines[f.lineNum] != [] && lines[f.lineNum][0] == PLUS
    ensures Added(lines, f.lineNum)
    ensures Running(lines, u, f.(ok := f.ok && Passes(lines, f.lineNum, u), lineNum := f.lineNum + 1), checked + {f.lineNum})
  {
    hide Ascii, Reached, CheckedUpTo, Passes;
    FirstLetters(lines[f.lineNum]);
    assert IsPatchLine(lines[f.lineNum]);
    hide IsDiff, IsHunk, IsSubmodule, IsBinaryMark, IsHeaderLine, IsPatchLine;
    ReachedNext(lines, f.lineNum);
    CheckedNext(lines, u, f.ok, checked, f.lineNum);
  }

  lemma MisplacedLine(lines: seq<Line>, u: Line -> bool, f: Fields, f': Fields, checked: set<nat>)
    requires Running(lines, u, f, checked) && f.lineNum < |lines| && Misplaced(lines, f.lineNum)
    requires !f'.ok && !f'.formatOk && f'.lineNum <= |lines|
    ensures Stopped(lines, u, f', checked, f.lineNum)
  {
    hide Misplaced, EndsPatch, Reached, CheckedUpTo, Agrees;
  }

  lemma LastPatchLine(lines: seq<Line>, u: Line -> bool, f: Fields, f': Fields, checked: set<nat>, later: bool)
    requires Running(lines, u, f, checked) && f.lineNum < |lines| && EndsPatch(lines, f.lineNum)
    requires later <==> exists j :: f.lineNum + 1 <= j < |lines| && IsDiff(lines[j])
    requires f' == if later then f.(ok := false, formatOk := false, lineNum := |lines|) else f.(lineNum := |lines|)
    ensures Stopped(lines, u, f', checked, f.lineNum)
  {
    assert !Misplaced(lines, f.lineNum);
    hide Misplaced, EndsPatch, Reached, CheckedUpTo, Agrees, IsDiff;
  }

  /** The checker. str.splitlines gives no empty line, since line ends are kept. */
  class GitDiffCheck {
    const lines: seq<Line>
    const usesOldDebug: Line -> bool
    var ok: bool
    var formatOk: bool
    var lineNum: nat
    var state: State
    var filename: Option<seq<byte>>
    var binary: Option<bool>
    var forceCrlf: Option<bool>
    var forceNoTabs: Option<bool>
    ghost var stopped: Option<nat>  // the line that ended the run early
    ghost var checked: set<nat>     // the lines given to check_added_line

    function Now(): Fields
      reads this
    {
      Fields(ok, formatOk, lineNum, state, filename, binary, forceCrlf, forceNoTabs)
    }

    ghost predicate Valid()
      reads this
      ensures Valid() ==> lineNum <= |lines| && if stopped.None? then formatOk else formatOk ==> lineNum == |lines|
    {
      && (forall i :: 0 <= i < |lines| ==> lines[i] != [])
      && if stopped.None? then Running(lines, usesOldDebug, Now(), checked)
         else Stopped(lines, usesOldDebug, Now(), checked, stopped.value)
    }

    constructor (lines: seq<Line>, usesOldDebug: Line -> bool)
      requires forall i :: 0 <= i < |lines| ==> lines[i] != []
      ensures Valid() && this.lines == lines && this.usesOldDebug == usesOldDebug && stopped.None?
    {
      this.lines, this.usesOldDebug := lines, usesOldDebug;
      ok, formatOk, lineNum, state := true, true, 0, START;
      filename, binary, forceCrlf, forceNoTabs := None, None, None, None;
      stopped, checked := None, {};
    }

    /** Whether a diff follows. */
    method ScanForDiff(start: nat) returns (found: bool)
      requires start <= |lines|
      ensures found <==> exists j :: start <= j < |lines| && IsDiff(lines[j])
    {
      found := false;
      for i := start to |lines|
        invariant forall j :: start <= j < i ==> !IsDiff(lines[j])
      {
        if IsDiff(lines[i]) {
          return true;
        }
      }
    }

    method FormatError()
      modifies this`ok, this`formatOk
      ensures !ok && !formatOk
    {
      formatOk := false;
      ok := false;
    }

    /** One line. No branch reads a field that was not assigned, and the line number
        grows, which is what the assert in __init__ demands. */
    method Run()
      requires Valid() && stopped.None? && lineNum < |lines|
      modifies this
      ensures Valid() && lineNum > old(lineNum)
    {
      hide Running, Stopped, IsDiff, IsHunk, IsBinaryMark, IsSubmodule, IsHeaderLine, Ascii, Passes;
      ghost var f := Now();
      var line := lines[lineNum];
      FieldsSet(lines, usesOldDebug, f, checked);
      if state == PRE_PATCH || state == PATCH {
        if IsDiff(line) {
          state := START;
        }
      }
      if state == PATCH {
        if IsHunk(line) {
          state := PRE_PATCH;
        } else if !IsPatchLine(line) && !binary.value {
          var found := ScanForDiff(lineNum + 1);
          if found {
            FormatError();
          }
          stopped := Some(lineNum);
          lineNum := |lines|;
          LastPatchLine(lines, usesOldDebug, f, Now(), checked, found);
          return;
        }
      }
      if state == START {
        RunStart(line, f);
      } else if state == PRE_PATCH {
        RunPrePatch(line, f);
      } else {
        RunPatch(line, f);
      }
    }

    method RunStart(line: Line, ghost f: Fields)
      requires (forall i :: 0 <= i < |lines| ==> lines[i] != []) && stopped.None?
      requires lineNum < |lines| && line == lines[lineNum]
      requires Running(lines, usesOldDebug, f, checked) && Now() == f.(state := START)
      requires f.state == START || IsDiff(line)
      modifies this
      ensures Valid() && lineNum == old(lineNum) + 1
    {
      hide Running, Stopped, IsDiff, Ascii, ShellScript, GitInternal, FileName, RStrip;
      if IsDiff(line) {
        DiffLine(lines, usesOldDebug, f, checked);
        state := PRE_PATCH;
        filename := Some(FileName(line));
        forceCrlf := Some(true);
        forceNoTabs := Some(true);
        if ShellScript(filename.value) {
          forceCrlf := Some(false);
        }
        if GitInternal(filename.value) {
          forceCrlf := Some(false);
          forceNoTabs := Some(false);
        }
        lineNum := lineNum + 1;
      } else if |RStrip(line)| != 0 {
        FormatError();
        stopped := Some(lineNum);
        lineNum := lineNum + 1;
        PreambleMisplaced(lines, usesOldDebug, f, checked);
        MisplacedLine(lines, usesOldDebug, f, Now(), checked);
      } else {
        BlankLine(lines, usesOldDebug, f, checked);
        lineNum := lineNum + 1;
      }
    }

    method RunPrePatch(line: Line, ghost f: Fields)
      requires (forall i :: 0 <= i < |lines| ==> lines[i] != []) && stopped.None?
      requires lineNum < |lines| && line == lines[lineNum] && !IsDiff(line)
      requires Running(lines, usesOldDebug, f, checked) && Now() == f.(state := PRE_PATCH)
      requires f.state == PRE_PATCH || (f.state == PATCH && IsHunk(line))
      modifies this
      ensures Valid() && lineNum == old(lineNum) + 1
    {
      hide Running, Stopped, IsDiff, IsHunk, IsBinaryMark, IsSubmodule, IsHeaderLine, Ascii;
      if IsHunk(line) {
        HunkLine(lines, usesOldDebug, f, checked);
        state := PATCH;
        binary := Some(false);
        lineNum := lineNum + 1;
      } else if IsBinaryMark(line) {
        state := PATCH;
        binary := Some(true);
        lineNum := lineNum + 1;
        HeaderStep(lines, usesOldDebug, f, Now(), checked);
      } else if IsSubmodule(line) {
        forceCrlf := Some(false);
        lineNum := lineNum + 1;
        HeaderStep(lines, usesOldDebug, f, Now(), checked);
      } else if !IsHeaderLine(line) {
        FormatError();
        stopped := Some(lineNum);
        lineNum := lineNum + 1;
        HeaderMisplaced(lines, usesOldDebug, f, checked);
        MisplacedLine(lines, usesOldDebug, f, Now(), checked);
      } else {
        lineNum := lineNum + 1;
        HeaderStep(lines, usesOldDebug, f, Now(), checked);
      }
    }

    /** The last branch, for a patch line of an unexpected kind, is never taken. */
    method RunPatch(line: Line, ghost f: Fields)
      requires (forall i :: 0 <= i < |lines| ==> lines[i] != []) && stopped.None?
      requires lineNum < |lines| && line == lines[lineNum] && !IsDiff(line) && !IsHunk(line)
      requires Running(lines, usesOldDebug, f, checked) && Now() == f && state == PATCH
      requires binary.Some? && forceCrlf.Some? && forceNoTabs.Some? && (binary.value || IsPatchLine(line))
      modifies this
      ensures Valid() && lineNum == old(lineNum) + 1
    {
      hide Running, Stopped, IsDiff, IsHunk, Ascii, Passes, Acceptable, CutAll;
      if binary.value {
        QuietPatchLine(lines, usesOldDebug, f, checked);
      } else if line[0] == MINUS {
        QuietPatchLine(lines, usesOldDebug, f, checked);
      } else if line[0] == PLUS {
        AddedLine(lines, usesOldDebug, f, checked);
        RulesInForce(lines, usesOldDebug, f, checked);
        var errors := CheckAddedLine(Rules(forceCrlf.value, forceNoTabs.value, usesOldDebug), line[1..]);
        if errors > 0 {
          ok := false;
        }
        checked := checked + {lineNum};
      } else if StartsWith(line, CRLF) {
        QuietPatchLine(lines, usesOldDebug, f, checked);
      } else if StartsWith(line, Ascii("\\ No newline ")) {
        QuietPatchLine(lines, usesOldDebug, f, checked);
      } else if line[0] != SPACE {
        assert false;
      } else {
        QuietPatchLine(lines, usesOldDebug, f, checked);
      }
      lineNum := lineNum + 1;
    }
  }

  lemma FieldsSet(lines: seq<Line>, u: Line -> bool, f: Fields, checked: set<nat>)
    requires Running(lines, u, f, checked) && f.lineNum < |lines|
    ensures f.formatOk
    ensures f.state == PATCH ==> f.binary.Some? && f.forceCrlf.Some? && f.forceNoTabs.Some?
    ensures f.state == PATCH && !f.binary.value ==>
              (EndsPatch(lines, f.lineNum) <==> !IsDiff(lines[f.lineNum]) && !IsHunk(lines[f.lineNum]) && !IsPatchLine(lines[f.lineNum]))
  {
    hide IsDiff, IsHunk, IsPatchLine, Reached, CheckedUpTo, Ascii;
  }

  lemma PreambleMisplaced(lines: seq<Line>, u: Line -> bool, f: Fields, checked: set<nat>)
    requires Running(lines, u, f, checked) && f.lineNum < |lines| && f.state == START
    requires !IsDiff(lines[f.lineNum]) && RStrip(lines[f.lineNum]) != []
    ensures Misplaced(lines, f.lineNum)
  {
    hide IsDiff, RStrip, Reached, CheckedUpTo, Ascii;
  }

  lemma HeaderMisplaced(lines: seq<Line>, u: Line -> bool, f: Fields, checked: set<nat>)
    requires Running(lines, u, f, checked) && f.lineNum < |lines| && f.state == PRE_PATCH
    requires var l := lines[f.lineNum];
             !IsDiff(l) && !IsHunk(l) && !IsBinaryMark(l) && !IsSubmodule(l) && !IsHeaderLine(l)
    ensures Misplaced(lines, f.lineNum)
  {
    hide IsDiff, IsHunk, IsBinaryMark, IsSubmodule, IsHeaderLine, Reached, CheckedUpTo, Ascii;
  }

  lemma RulesInForce(lines: seq<Line>, u: Line -> bool, f: Fields, checked: set<nat>)
    requires Running(lines, u, f, checked) && f.lineNum < |lines| && f.state == PATCH
    requires f.forceCrlf.Some? && f.forceNoTabs.Some? && lines[f.lineNum] != []
    ensures Passes(lines, f.lineNum, u) <==>
            Acceptable(Rules(f.forceCrlf.value, f.forceNoTabs.value, u), CutAll(lines[f.lineNum][1..]))
  {
    hide Acceptable, CutAll, Reached, CheckedUpTo, Ascii;
  }

  lemma NothingAddedAfter(lines: seq<Line>, n: nat, i: nat)
    requires n <= i < |lines| && (Misplaced(lines, n) || EndsPatch(lines, n))
    ensures !Added(lines, i)
  {
    if i == n {
      hide Ascii, RegionOf, IsDiff, IsHunk, IsBinaryMark, IsSubmodule, IsHeaderLine, RStrip;
    } else {
      hide Misplaced, EndsPatch;
    }
  }

  lemma VerdictStopped(lines: seq<Line>, u: Line -> bool, f: Fields, checked: set<nat>, n: nat)
    requires Stopped(lines, u, f, checked, n)
    ensures f.formatOk <==> !FormatError(lines)
    ensures f.ok <==> f.formatOk && AllPass(lines, |lines|, u)
    ensures forall i: nat :: i in checked <==> i < |lines| && Added(lines, i)
  {
    hide Misplaced, EndsPatch, Added, Passes;
    forall i: nat | n <= i < |lines|
      ensures !Added(lines, i)
    {
      NothingAddedAfter(lines, n, i);
    }
    if FormatError(lines) {
      var i :| 0 <= i < |lines| && Reached(lines, i) && FormatErrorAt(lines, i);
      assert i == n;
    }
  }

  lemma VerdictRunning(lines: seq<Line>, u: Line -> bool, f: Fields, checked: set<nat>)
    requires Running(lines, u, f, checked) && f.lineNum == |lines|
    ensures !FormatError(lines)
    ensures f.ok <==> AllPass(lines, |lines|, u)
    ensures forall i: nat :: i in checked <==> i < |lines| && Added(lines, i)
  {
    hide Misplaced, EndsPatch, Added, Passes, Agrees;
  }

  /** __init__, the whole diff: the format is found wrong exactly when some line the run
      reaches is misplaced or a diff follows the end of the patch; exactly the lines with
      a '+' in a text hunk are checked; and the verdict is good exactly when the format is
      right and all of those pass. */
  method CheckDiff(lines: seq<Line>, usesOldDebug: Line -> bool) returns (ok: bool, formatOk: bool, ghost checked: set<nat>)
    requires forall i :: 0 <= i < |lines| ==> lines[i] != []
    ensures formatOk <==> !FormatError(lines)
    ensures ok <==> formatOk && AllPass(lines, |lines|, usesOldDebug)
    ensures forall i: nat :: i in checked <==> i < |lines| && Added(lines, i)
  {
    hide Running, Stopped, FormatError, AllPass, Added;
    var c := new GitDiffCheck(lines, usesOldDebug);
    while c.lineNum < |c.lines| && c.formatOk
      invariant fresh(c) && c.Valid() && c.lines == lines && c.usesOldDebug == usesOldDebug
      invariant c.stopped.Some? ==> c.lineNum >= |lines| || !c.formatOk
      invariant c.lineNum <= |lines| && (c.stopped.None? ==> c.formatOk)
      decreases |lines| - c.lineNum
    {
      c.Run();
    }
    ok, formatOk, checked := c.ok, c.formatOk, c.checked;
    if c.stopped.None? {
      VerdictRunning(lines, usesOldDebug, c.Now(), checked);
    } else {
      VerdictStopped(lines, usesOldDebug, c.Now(), checked, c.stopped.value);
    }
  }

  // ------------------------------------------------ the regions without the states

  predicate InPreamble(lines: seq<Line>, i: nat)
    requires i <= |lines|
  {
    forall j :: 0 <= j < i ==> !IsDiff(lines[j])
  }

  /** Line `d` is a diff command and no hunk or binary mark follows before line `i`. */
  predicate HeaderFrom(lines: seq<Line>, d: nat, i: nat)
    requires i <= |lines|
  {
    && d < i && IsDiff(lines[d])
    && forall j :: d < j < i ==> !IsDiff(lines[j]) && !IsHunk(lines[j]) && !IsBinaryMark(lines[j])
  }

  /** Line `h` is a hunk behind a diff command, and no other hunk and no diff command
      follows before line `i`. */
  predicate HunkFrom(lines: seq<Line>, h: nat, i: nat)
    requires i <= |lines|
  {
    && h < i && IsHunk(lines[h]) && !InPreamble(lines, h)
    && forall j :: h < j < i ==> !IsDiff(lines[j]) && !IsHunk(lines[j])
  }

  /** Line `b` is a binary mark in a header, and no hunk and no diff command follows. */
  ghost predicate BinaryFrom(lines: seq<Line>, b: nat, i: nat)
    requires i <= |lines|
  {
    && b < i && IsBinaryMark(lines[b]) && (exists d: nat :: HeaderFrom(lines, d, b))
    && forall j :: b < j < i ==> !IsDiff(lines[j]) && !IsHunk(lines[j])
  }

  ghost predicate In(lines: seq<Line>, r: Region, i: nat)
    requires i <= |lines|
  {
    match r
    case Preamble => InPreamble(lines, i)
    case Header => exists d: nat :: HeaderFrom(lines, d, i)
    case TextHunk => exists h: nat :: HunkFrom(lines, h, i)
    case BinaryPatch => exists b: nat :: BinaryFrom(lines, b, i)
  }

  lemma {:induction false} RegionFound(lines: seq<Line>, i: nat)
    requires i <= |lines|
    ensures In(lines, RegionOf(lines, i), i)
  {
    hide IsDiff, IsHunk, IsBinaryMark;
    if i > 0 {
      RegionFound(lines, i - 1);
      var r, l := RegionOf(lines, i - 1), lines[i - 1];
      if IsDiff(l) {
        assert HeaderFrom(lines, i - 1, i);
      } else {
        match r
        case Preamble =>
        case Header =>
          var d: nat :| HeaderFrom(lines, d, i - 1);
          if IsHunk(l) {
            assert HunkFrom(lines, i - 1, i);
          } else if IsBinaryMark(l) {
            assert BinaryFrom(lines, i - 1, i);
          } else {
            assert HeaderFrom(lines, d, i);
          }
        case TextHunk =>
          var h: nat :| HunkFrom(lines, h, i - 1);
          assert !InPreamble(lines, i - 1);
          assert if IsHunk(l) then HunkFrom(lines, i - 1, i) else HunkFrom(lines, h, i);
        case BinaryPatch =>
          var b: nat :| BinaryFrom(lines, b, i - 1);
          assert !InPreamble(lines, i - 1);
          assert if IsHunk(l) then HunkFrom(lines, i - 1, i) else BinaryFrom(lines, b, i);
      }
    }
  }

  lemma RegionsExclude(lines: seq<Line>, r: Region, r': Region, i: nat)
    requires i <= |lines| && In(lines, r, i) && In(lines, r', i)
    ensures r == r'
  {
    forall j | 0 <= j < |lines|
      ensures IsDiff(lines[j]) ==> !IsHunk(lines[j]) && !IsBinaryMark(lines[j])
      ensures IsHunk(lines[j]) ==> !IsBinaryMark(lines[j])
    {
      FirstLetters(lines[j]);
    }
    hide IsDiff, IsHunk, IsBinaryMark;
  }

  /** Where the run takes a line to stand is where it stands. */
  lemma RegionExact(lines: seq<Line>, r: Region, i: nat)
    requires i <= |lines|
    ensures RegionOf(lines, i) == r <==> In(lines, r, i)
  {
    hide RegionOf, In;
    RegionFound(lines, i);
    if In(lines, r, i) {
      RegionsExclude(lines, r, RegionOf(lines, i), i);
    }
  }

  /** The switches in force are those of the last diff command, less the line-end rule
      if its header announced a submodule. */
  lemma {:induction false} SwitchesExact(lines: seq<Line>, d: nat, i: nat)
    requires d < i <= |lines| && IsDiff(lines[d]) && forall j :: d < j < i ==> !IsDiff(lines[j])
    ensures var name := FileName(lines[d]);
            SwitchesAt(lines, i) ==
            Switches(Some(name),
                     !ShellScript(name) && !GitInternal(name) &&
                     !(exists j :: d < j < i && RegionOf(lines, j) == Header && IsSubmodule(lines[j])),
                     !GitInternal(name))
    decreases i
  {
    hide IsDiff, IsSubmodule, ShellScript, GitInternal, FileName, RegionOf;
    if d + 1 < i {
      SwitchesExact(lines, d, i - 1);
    }
  }

  // ------------------------------------------------ a diff with one text hunk

  predicate QuietHeader(l: Line) {
    && (IsSubmodule(l) || IsHeaderLine(l))
    && !IsDiff(l) && !IsHunk(l) && !IsBinaryMark(l)
  }

  /** A diff command, header lines, and a hunk marker. */
  predicate OpensHunk(head: seq<Line>) {
    && |head| >= 2 && IsDiff(head[0]) && IsHunk(head[|head| - 1])
    && forall i :: 0 < i < |head| - 1 ==> QuietHeader(head[i])
  }

  /** The rules in force behind it. */
  function RulesOf(head: seq<Line>, usesOldDebug: Line -> bool): Rules {
    var s := SwitchesAt(head, |head|);
    Rules(s.crlf, s.noTabs, usesOldDebug)
  }

  /** The run gets as far as line `i` of the hunk. */
  predicate Live(body: seq<Line>, i: nat)
    requires i <= |body|
  {
    forall j :: 0 <= j < i ==> IsHunk(body[j]) || IsPatchLine(body[j])
  }

  predicate IsAdded(l: Line) { l != [] && l[0] == PLUS }

  predicate AddedPasses(rules: Rules, l: Line) {
    IsAdded(l) ==> Acceptable(rules, CutAll(l[1..]))
  }

  lemma {:induction false} PrefixDecides(u: seq<Line>, v: seq<Line>, i: nat)
    requires i <= |u|
    ensures RegionOf(u + v, i) == RegionOf(u, i) && SwitchesAt(u + v, i) == SwitchesAt(u, i)
  {
    hide NextRegion, NextSwitches;
    if i > 0 {
      PrefixDecides(u, v, i - 1);
      assert (u + v)[i - 1] == u[i - 1];
    }
  }

  lemma {:induction false} HeadRegion(head: seq<Line>, i: nat)
    requires OpensHunk(head) && i <= |head|
    ensures RegionOf(head, i) == if i == 0 then Preamble else if i < |head| then Header else TextHunk
  {
    hide IsHunk, IsDiff, IsBinaryMark, IsSubmodule, IsHeaderLine, Ascii;
    if i > 0 {
      HeadRegion(head, i - 1);
      if i == |head| {
        HunkIsNoDiff(head[i - 1]);
      } else if i > 1 {
        assert QuietHeader(head[i - 1]);
      }
    }
  }

  lemma HunkIsNoDiff(l: Line)
    requires IsHunk(l)
    ensures !IsDiff(l)
  {
    FirstLetters(l);
  }

  /** Nothing in the head is out of place, and nothing in it is an added line. */
  lemma HeadPasses(head: seq<Line>, body: seq<Line>, i: nat)
    requires OpensHunk(head) && i < |head|
    ensures var lines := head + body;
            !Misplaced(lines, i) && !EndsPatch(lines, i) && RegionOf(lines, i) != TextHunk
  {
    hide IsHunk, IsDiff, IsBinaryMark, IsSubmodule, IsHeaderLine, IsPatchLine, RStrip, Ascii;
    var lines := head + body;
    PrefixDecides(head, body, i);
    HeadRegion(head, i);
    assert lines[i] == head[i];
    if 0 < i < |head| - 1 {
      assert QuietHeader(head[i]);
    }
  }

  lemma {:induction false} BodyRegion(head: seq<Line>, body: seq<Line>, i: nat)
    requires OpensHunk(head) && i <= |body| && forall j :: 0 <= j < i ==> !IsDiff(body[j])
    ensures var lines, n := head + body, |head| + i;
            RegionOf(lines, n) == TextHunk && SwitchesAt(lines, n) == SwitchesAt(head, |head|)
  {
    hide IsDiff, OpensHunk, RegionOf, SwitchesAt, NextRegion, NextSwitches;
    var lines := head + body;
    if i == 0 {
      HeadLong(head);
      PrefixDecides(head, body, |head|);
      HeadRegion(head, |head|);
    } else {
      BodyRegion(head, body, i - 1);
      assert lines[|head| + i - 1] == body[i - 1];
      RegionStep(lines, |head| + i);
      StaysInHunk(SwitchesAt(head, |head|), body[i - 1]);
    }
  }

  lemma HeadLong(head: seq<Line>)
    requires OpensHunk(head)
    ensures |head| >= 2
  {
  }

  lemma RegionStep(lines: seq<Line>, n: nat)
    requires 0 < n <= |lines|
    ensures RegionOf(lines, n) == NextRegion(RegionOf(lines, n - 1), lines[n - 1])
    ensures SwitchesAt(lines, n) == NextSwitches(SwitchesAt(lines, n - 1), RegionOf(lines, n - 1), lines[n - 1])
  {
    hide NextRegion, NextSwitches;
  }

  lemma StaysInHunk(s: Switches, l: Line)
    requires !IsDiff(l)
    ensures NextRegion(TextHunk, l) == TextHunk && NextSwitches(s, TextHunk, l) == s
  {
  }

  lemma HeadReached(head: seq<Line>, body: seq<Line>)
    requires OpensHunk(head)
    ensures Reached(head + body, |head|)
  {
    hide Misplaced, EndsPatch, RegionOf;
    forall j | 0 <= j < |head|
      ensures !Misplaced(head + body, j) && !EndsPatch(head + body, j)
    {
      HeadPasses(head, body, j);
    }
  }

  lemma BodyLine(head: seq<Line>, body: seq<Line>, i: nat)
    requires OpensHunk(head) && i < |body| && forall j :: 0 <= j < i ==> !IsDiff(body[j])
    ensures var lines, n := head + body, |head| + i;
            && !Misplaced(lines, n)
            && (!IsDiff(body[i]) ==> (EndsPatch(lines, n) <==> !IsHunk(body[i]) && !IsPatchLine(body[i])))
            && (IsDiff(body[i]) ==> !EndsPatch(lines, n))
  {
    hide IsHunk, IsDiff, IsBinaryMark, IsSubmodule, IsPatchLine, OpensHunk, RegionOf;
    BodyRegion(head, body, i);
    assert (head + body)[|head| + i] == body[i];
  }

  lemma {:induction false} BodyReached(head: seq<Line>, body: seq<Line>, i: nat)
    requires OpensHunk(head) && i <= |body| && forall j :: 0 <= j < i ==> !IsDiff(body[j])
    ensures Reached(head + body, |head| + i) <==> Live(body, i)
  {
    hide IsHunk, IsDiff, IsPatchLine, OpensHunk, Misplaced, EndsPatch;
    if i == 0 {
      HeadReached(head, body);
    } else {
      BodyReached(head, body, i - 1);
      BodyLine(head, body, i - 1);
    }
  }

  lemma BodyAdded(head: seq<Line>, body: seq<Line>, i: nat, u: Line -> bool)
    requires OpensHunk(head) && i < |body| && forall j :: 0 <= j < i ==> !IsDiff(body[j])
    ensures Added(head + body, |head| + i) <==> Live(body, i) && IsAdded(body[i])
    ensures IsAdded(body[i]) ==> (Passes(head + body, |head| + i, u) <==> AddedPasses(RulesOf(head, u), body[i]))
  {
    hide IsHunk, IsDiff, IsPatchLine, OpensHunk, Reached, RegionOf, SwitchesAt, Acceptable, CutAll, Live;
    BodyRegion(head, body, i);
    BodyReached(head, body, i);
    assert (head + body)[|head| + i] == body[i];
  }

  /** The verdict on a hunk that holds no diff command: the format is right, and the added
      lines the run gets to decide. */
  lemma HunkVerdict(head: seq<Line>, body: seq<Line>, u: Line -> bool)
    requires OpensHunk(head) && forall j :: 0 <= j < |body| ==> !IsDiff(body[j])
    ensures var lines := head + body;
            && !FormatError(lines)
            && (AllPass(lines, |lines|, u) <==>
                forall i :: 0 <= i < |body| && Live(body, i) ==> AddedPasses(RulesOf(head, u), body[i]))
  {
    hide IsHunk, IsDiff, IsPatchLine, OpensHunk, Misplaced, EndsPatch, Added, Passes, AddedPasses, Live, Reached, RulesOf;
    var lines, h := head + body, |head|;
    forall i: nat | i < |lines|
      ensures !FormatErrorAt(lines, i)
    {
      if i < h {
        HeadPasses(head, body, i);
      } else {
        BodyLine(head, body, i - h);
        assert forall j :: i < j < |lines| ==> lines[j] == body[j - h];
      }
    }
    forall i: nat | i < |lines|
      ensures Added(lines, i) ==> i >= h
    {
      if i < h {
        HeadNotAdded(head, body, i);
      }
    }
    if AllPass(lines, |lines|, u) {
      forall i | 0 <= i < |body| && Live(body, i)
        ensures AddedPasses(RulesOf(head, u), body[i])
      {
        BodyAdded(head, body, i, u);
        OnlyAddedFail(RulesOf(head, u), body[i]);
        assert Added(lines, h + i) ==> Passes(lines, h + i, u);
      }
    }
    if forall i :: 0 <= i < |body| && Live(body, i) ==> AddedPasses(RulesOf(head, u), body[i]) {
      forall i | 0 <= i < |lines| && Added(lines, i)
        ensures Passes(lines, i, u)
      {
        BodyAdded(head, body, i - h, u);
      }
    }
  }

  lemma HeadNotAdded(head: seq<Line>, body: seq<Line>, i: nat)
    requires OpensHunk(head) && i < |head|
    ensures !Added(head + body, i)
  {
    hide OpensHunk, Misplaced, EndsPatch, RegionOf, Reached;
    HeadPasses(head, body, i);
  }

  lemma OnlyAddedFail(rules: Rules, l: Line)
    ensures !AddedPasses(rules, l) ==> IsAdded(l)
  {
  }

  /** One bad added line behind nothing but added lines makes the verdict bad, whatever
      follows it. */
  lemma BadLine(head: seq<Line>, body: seq<Line>, k: nat, u: Line -> bool)
    requires OpensHunk(head) && k < |body| && forall j :: 0 <= j < k ==> IsAdded(body[j])
    requires !AddedPasses(RulesOf(head, u), body[k])
    ensures !AllPass(head + body, |head + body|, u)
  {
    hide IsHunk, OpensHunk, Added, Passes, Acceptable, CutAll, RulesOf;
    forall j | 0 <= j < k
      ensures !IsDiff(body[j]) && IsPatchLine(body[j])
    {
      FirstLetters(body[j]);
    }
    hide IsDiff, IsPatchLine;
    BodyAdded(head, body, k, u);
    assert Added(head + body, |head| + k);
  }

  /** Where line ends are enforced, so is the absence of tabs. */
  lemma {:induction false} CrlfMeansNoTabs(lines: seq<Line>, i: nat)
    requires i <= |lines|
    ensures SwitchesAt(lines, i).crlf ==> SwitchesAt(lines, i).noTabs
  {
    hide IsDiff, IsSubmodule, FileName, ShellScript, GitInternal, RegionOf;
    if i > 0 {
      CrlfMeansNoTabs(lines, i - 1);
    }
  }

  // ------------------------------------------------ format errors

  /** Text before the first diff command is an error. */
  lemma BadPreamble(lines: seq<Line>, i: nat)
    requires i < |lines| && !IsDiff(lines[i]) && RStrip(lines[i]) != []
    requires forall j :: 0 <= j < i ==> !IsDiff(lines[j]) && RStrip(lines[j]) == []
    ensures FormatError(lines)
  {
    hide IsDiff, RStrip, IsHunk, IsBinaryMark, IsSubmodule, IsHeaderLine, IsPatchLine, RegionOf;
    forall j | 0 <= j <= i
      ensures RegionOf(lines, j) == Preamble
    {
      StillPreamble(lines, j);
    }
    assert Misplaced(lines, i);
    assert Reached(lines, i) && FormatErrorAt(lines, i);
  }

  lemma {:induction false} StillPreamble(lines: seq<Line>, i: nat)
    requires i <= |lines| && forall j :: 0 <= j < i ==> !IsDiff(lines[j])
    ensures RegionOf(lines, i) == Preamble
  {
    hide IsDiff, IsHunk, IsBinaryMark;
    if i > 0 {
      StillPreamble(lines, i - 1);
    }
  }

  lemma {:induction false} StillHeader(lines: seq<Line>, i: nat)
    requires 0 < i <= |lines| && IsDiff(lines[0]) && forall j :: 0 < j < i ==> QuietHeader(lines[j])
    ensures RegionOf(lines, i) == Header
  {
    hide IsDiff, IsHunk, IsBinaryMark, IsSubmodule, IsHeaderLine;
    if i > 1 {
      StillHeader(lines, i - 1);
      assert QuietHeader(lines[i - 1]);
    } else {
      assert RegionOf(lines, 0) == Preamble;
    }
  }

  /** Every line of a head is where it may be. */
  lemma HeadReachedUpTo(lines: seq<Line>, i: nat)
    requires 0 < i <= |lines| && IsDiff(lines[0]) && forall j :: 0 < j < i ==> QuietHeader(lines[j])
    ensures Reached(lines, i)
  {
    hide IsDiff, IsHunk, IsBinaryMark, IsSubmodule, IsHeaderLine, IsPatchLine, RStrip, RegionOf, QuietHeader;
    forall j | 0 <= j < i
      ensures !Misplaced(lines, j) && !EndsPatch(lines, j)
    {
      if j > 0 {
        StillHeader(lines, j);
        QuietLine(lines[j]);
      }
    }
  }

  lemma QuietLine(l: Line)
    requires QuietHeader(l)
    ensures (IsSubmodule(l) || IsHeaderLine(l)) && !IsDiff(l) && !IsHunk(l) && !IsBinaryMark(l)
  {
    hide IsDiff, IsHunk, IsBinaryMark, IsSubmodule, IsHeaderLine;
  }

  /** So is a header line of an unknown kind. */
  lemma BadHeader(lines: seq<Line>, i: nat)
    requires 0 < i < |lines| && IsDiff(lines[0]) && forall j :: 0 < j < i ==> QuietHeader(lines[j])
    requires var l := lines[i];
             !IsDiff(l) && !IsHunk(l) && !IsBinaryMark(l) && !IsSubmodule(l) && !IsHeaderLine(l)
    ensures FormatError(lines)
  {
    hide IsDiff, IsHunk, IsBinaryMark, IsSubmodule, IsHeaderLine, IsPatchLine, RStrip, RegionOf, QuietHeader, Reached;
    HeadReachedUpTo(lines, i);
    StillHeader(lines, i);
    assert Misplaced(lines, i) && FormatErrorAt(lines, i);
  }

  /** So is a diff command behind the first line that is no patch line. */
  lemma DiffBehindPatch(head: seq<Line>, body: seq<Line>, k: nat, j: nat)
    requires OpensHunk(head) && k < j < |body| && IsDiff(body[j])
    requires forall i :: 0 <= i <= k ==> !IsDiff(body[i])
    requires Live(body, k) && !IsHunk(body[k]) && !IsPatchLine(body[k])
    ensures FormatError(head + body)
  {
    hide IsDiff, IsHunk, IsPatchLine, OpensHunk, Misplaced, EndsPatch, Reached, Live;
    var lines := head + body;
    BodyReached(head, body, k);
    BodyLine(head, body, k);
    assert lines[|head| + j] == body[j];
    assert FormatErrorAt(lines, |head| + k);
  }

  /** The lines of a binary patch are never checked. */
  lemma BinaryUnchecked(head: seq<Line>, body: seq<Line>, u: Line -> bool)
    requires |head| >= 2 && IsDiff(head[0]) && IsBinaryMark(head[|head| - 1])
    requires forall i :: 0 < i < |head| - 1 ==> QuietHeader(head[i])
    requires forall i :: 0 <= i < |body| ==> !IsDiff(body[i]) && !IsHunk(body[i])
    ensures var lines := head + body; !FormatError(lines) && AllPass(lines, |lines|, u)
  {
    hide IsDiff, IsHunk, IsBinaryMark, IsSubmodule, IsHeaderLine, IsPatchLine, RStrip, RegionOf, QuietHeader, Reached, Passes;
    var lines, b := head + body, |head| - 1;
    FirstLettersApart(head[b]);
    forall i: nat | i < |lines|
      ensures !FormatErrorAt(lines, i) && !Added(lines, i)
    {
      if i == 0 {
        StillPreamble(lines, 0);
      } else if i <= b {
        StillHeader(lines, i);
        if i < b {
          QuietLine(lines[i]);
        }
      } else {
        StillBinary(lines, b, i);
        assert i > b + 1 ==> lines[i - 1] == body[i - 1 - |head|];
      }
    }
  }

  lemma FirstLettersApart(l: Line)
    requires IsBinaryMark(l)
    ensures !IsDiff(l) && !IsHunk(l)
  {
    FirstLetters(l);
  }

  lemma {:induction false} StillBinary(lines: seq<Line>, b: nat, i: nat)
    requires 0 < b < i <= |lines| && IsDiff(lines[0]) && (forall j :: 0 < j < b ==> QuietHeader(lines[j]))
    requires IsBinaryMark(lines[b]) && forall j :: b < j < i ==> !IsDiff(lines[j]) && !IsHunk(lines[j])
    ensures RegionOf(lines, i) == BinaryPatch
  {
    FirstLettersApart(lines[b]);
    hide IsDiff, IsHunk, IsBinaryMark, QuietHeader, RegionOf, SwitchesAt, NextSwitches;
    RegionStep(lines, i);
    if i == b + 1 {
      StillHeader(lines, b);
    } else {
      StillBinary(lines, b, i - 1);
    }
  }

  // ------------------------------------------------ names

  lemma {:induction false} UpToSpaceIs(name: seq<byte>, rest: seq<byte>)
    requires SPACE !in name
    ensures UpToSpace(name + [SPACE] + rest) == name
  {
    var s := name + [SPACE] + rest;
    if name != [] {
      UpToSpaceIs(name[1..], rest);
      assert s[1..] == name[1..] + [SPACE] + rest;
    }
  }

  /** The file name is what stands between "diff --git a/" and the next space. */
  lemma NameRead(name: seq<byte>, rest: seq<byte>)
    requires SPACE !in name
    ensures FileName(Ascii("diff --git a/") + name + [SPACE] + rest) == name
  {
    hide UpToSpace;
    var d := Ascii("diff --git a/");
    assert |d| == 13;
    UpToSpaceIs(name, rest);
    assert (d + name + [SPACE] + rest)[13..] == name + [SPACE] + rest;
  }

  lemma PrefixFits(p: seq<byte>, rest: seq<byte>)
    ensures StartsWith(p + rest, p) && EndsWith(rest + p, p)
  {
  }

  /** Which names are exempt from CRLF, and which from both rules. */
  lemma ExemptNames(rest: seq<byte>)
    ensures ShellScript(rest + Ascii(".sh")) && ShellScript(Ascii("BaseTools/BuildEnv"))
    ensures ShellScript(Ascii("BaseTools/BinWrappers/PosixLike/") + rest)
    ensures ShellScript(Ascii("BaseTools/BinPipWrappers/PosixLike/") + rest)
    ensures ShellScript(Ascii("BaseTools/Bin/CYGWIN_NT-5.1-i686/") + rest)
    ensures GitInternal(Ascii(".gitmodules")) && GitInternal(Ascii("BaseTools/Conf/diff.order"))
  {
    hide Ascii, StartsWith, EndsWith;
    PrefixFits(Ascii(".sh"), rest);
    PrefixFits(Ascii("BaseTools/BinWrappers/PosixLike/"), rest);
    PrefixFits(Ascii("BaseTools/BinPipWrappers/PosixLike/"), rest);
    PrefixFits(Ascii("BaseTools/Bin/CYGWIN_NT-5.1-i686/"), rest);
  }
}
