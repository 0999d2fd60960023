/** The lines git itself writes, as the patch checker takes them. */
module GitHeads {
  import opened Bytes
  import opened PatchCheck
  import opened FormatThenCheck

  // ------------------------------------------------ prefixes of literals

  lemma Starts(t: string, p: string, rest: seq<byte>)
    requires p <= t
    ensures StartsWith(Ascii(t) + rest, Ascii(p))
  {
    assert (Ascii(t) + rest)[..|p|] == Ascii(p);
  }

  /** A text that differs from a prefix in one place does not begin with it. */
  lemma Differs(t: string, p: string, rest: seq<byte>, i: nat)
    requires i < |p| && i < |t| && (t[i] as int) % 256 != (p[i] as int) % 256
    ensures !StartsWith(Ascii(t) + rest, Ascii(p))
  {
    var l := Ascii(t) + rest;
    assert l[i] == (t[i] as int) % 256 && Ascii(p)[i] == (p[i] as int) % 256;
    PrefixAt(l, Ascii(p), i);
  }

  /** A line that begins neither like a diff command nor like a hunk or binary mark. */
  lemma Quiet(t: string, rest: seq<byte>, p: string, k: nat)
    requires |t| >= 2 && p <= t && k < |PRE_PATCH_PREFIXES| && PRE_PATCH_PREFIXES[k] == Ascii(p)
    requires (t[0] as int) % 256 != '@' as int && (t[0] as int) % 256 != 'G' as int && (t[0] as int) % 256 != 'B' as int
    requires (t[0] as int) % 256 != 'd' as int || (t[1] as int) % 256 != 'i' as int
    ensures QuietHeader(Ascii(t) + rest)
  {
    hide Ascii, StartsWith;
    Starts(t, p, rest);
    Differs(t, "@@ ", rest, 0);
    Differs(t, "GIT binary patch", rest, 0);
    Differs(t, "Binary files", rest, 0);
    Differs(t, "diff --git", rest, if (t[0] as int) % 256 != 'd' as int then 0 else 1);
  }

  /** Every kind of header line, whatever follows its first words. */
  lemma HeaderKinds(rest: seq<byte>)
    ensures QuietHeader(Ascii("--- ") + rest) && QuietHeader(Ascii("+++ ") + rest)
    ensures QuietHeader(Ascii("index ") + rest) && QuietHeader(Ascii("new file mode ") + rest)
    ensures QuietHeader(Ascii("deleted file mode ") + rest) && QuietHeader(Ascii("old mode ") + rest)
    ensures QuietHeader(Ascii("new mode ") + rest) && QuietHeader(Ascii("similarity index ") + rest)
    ensures QuietHeader(Ascii("copy from ") + rest) && QuietHeader(Ascii("copy to ") + rest)
    ensures QuietHeader(Ascii("rename from ") + rest) && QuietHeader(Ascii("rename to ") + rest)
  {
    hide Ascii, QuietHeader;
    Quiet("--- ", rest, "--- ", 0);
    Quiet("+++ ", rest, "+++ ", 1);
    Quiet("index ", rest, "index ", 2);
    Quiet("new file mode ", rest, "new file ", 3);
    Quiet("deleted file mode ", rest, "deleted file ", 4);
    Quiet("old mode ", rest, "old mode ", 5);
    Quiet("new mode ", rest, "new mode ", 6);
    Quiet("similarity index ", rest, "similarity index ", 7);
    Quiet("copy from ", rest, "copy from ", 8);
    Quiet("copy to ", rest, "copy to ", 9);
    Quiet("rename from ", rest, "rename ", 10);
    Quiet("rename to ", rest, "rename ", 10);
  }

  /** The marks of diffs, hunks, binary patches and submodules. */
  lemma Marks(rest: seq<byte>)
    ensures IsDiff(Ascii("diff --git a/") + rest) && IsHunk(Ascii("@@ -") + rest)
    ensures IsBinaryMark(Ascii("GIT binary patch") + rest) && IsBinaryMark(Ascii("Binary files ") + rest)
    ensures IsSubmodule(Ascii("new file mode 160000") + rest) && !IsSubmodule(Ascii("new file mode 100644") + rest)
  {
    hide Ascii, StartsWith;
    Starts("diff --git a/", "diff --git", rest);
    Starts("@@ -", "@@ ", rest);
    Starts("GIT binary patch", "GIT binary patch", rest);
    Starts("Binary files ", "Binary files", rest);
    Starts("new file mode 160000", "new file mode 160000", rest);
    Differs("new file mode 100644", "new file mode 160000", rest, 15);
  }

  /** What may stand in a hunk: context, removed and added lines, an empty line and the
      remark of git; nothing else. */
  lemma PatchLines(c: byte, rest: seq<byte>)
    ensures c in {0x20, 0x2d, 0x2b} ==> IsPatchLine([c] + rest)
    ensures IsPatchLine([0x0d, 0x0a] + rest) && IsPatchLine(Ascii("\\ No newline at end of file") + rest)
    ensures c !in {0x20, 0x2d, 0x2b, 0x0d, 0x5c} ==> !IsPatchLine([c] + rest)
  {
    Starts("\\ No newline at end of file", "\\ No newline ", rest);
    assert Ascii("\\ No newline ")[0] == 0x5c;
    hide Ascii;
    PrefixFits(CRLF, rest);
    var l := [c] + rest;
    Front(l, CRLF);
    Front(l, Ascii("\\ No newline "));
  }

  // ------------------------------------------------ the head for a new file

  predicate PlainName(name: seq<byte>) { AllPrintable(name) && SPACE !in name }

  const NEWLINE: seq<byte> := [LF]

  /** What git writes in front of the lines of a new file. */
  function NewFileHead(name: seq<byte>): seq<Line> {
    [ Ascii("diff --git a/") + (name + Ascii(" b/") + name + NEWLINE),
      Ascii("new file mode 100644") + NEWLINE,
      Ascii("index 0000000..e69de29") + NEWLINE,
      Ascii("--- /dev/null") + NEWLINE,
      Ascii("+++ b/") + (name + NEWLINE),
      Ascii("@@ -0,0 +1 @@") + NEWLINE ]
  }

  lemma LiteralPrintable(t: string)
    requires forall i :: 0 <= i < |t| ==> 0x20 <= t[i] as int <= 0x7e
    ensures AllPrintable(Ascii(t))
  {
  }

  lemma IsHeadLine(t: string, u: seq<byte>)
    requires (forall i :: 0 <= i < |t| ==> 0x20 <= t[i] as int <= 0x7e) && AllPrintable(u)
    ensures HeadLine(Ascii(t) + (u + NEWLINE))
  {
    LiteralPrintable(t);
    hide Ascii;
    var l := Ascii(t) + (u + NEWLINE);
    assert l[..|l| - 1] == Ascii(t) + u;
  }

  lemma FixedLines()
    ensures HeadLine(Ascii("new file mode 100644") + NEWLINE) && HeadLine(Ascii("index 0000000..e69de29") + NEWLINE)
    ensures HeadLine(Ascii("--- /dev/null") + NEWLINE) && HeadLine(Ascii("@@ -0,0 +1 @@") + NEWLINE)
  {
    hide Ascii, HeadLine;
    assert [] + NEWLINE == NEWLINE;
    IsHeadLine("new file mode 100644", []);
    IsHeadLine("index 0000000..e69de29", []);
    IsHeadLine("--- /dev/null", []);
    IsHeadLine("@@ -0,0 +1 @@", []);
  }

  lemma NamedLines(name: seq<byte>)
    requires PlainName(name)
    ensures HeadLine(Ascii("diff --git a/") + (name + Ascii(" b/") + name + NEWLINE))
    ensures HeadLine(Ascii("+++ b/") + (name + NEWLINE))
  {
    LiteralPrintable(" b/");
    hide Ascii, HeadLine;
    IsHeadLine("diff --git a/", name + Ascii(" b/") + name);
    IsHeadLine("+++ b/", name);
  }

  lemma Longer(t: string, p: string, rest: seq<byte>)
    requires p <= t
    ensures Ascii(t) + rest == Ascii(p) + (Ascii(t)[|p|..] + rest)
  {
    assert Ascii(t)[..|p|] == Ascii(p);
  }

  lemma HeadKinds(name: seq<byte>)
    ensures var head := NewFileHead(name);
            && IsDiff(head[0]) && IsHunk(head[5]) && (forall i :: 0 < i < 5 ==> QuietHeader(head[i]))
            && (forall i :: 0 < i < 6 ==> !IsSubmodule(head[i]))
  {
    hide Ascii, QuietHeader, IsDiff, IsHunk, IsBinaryMark, IsSubmodule;
    var head := NewFileHead(name);
    Marks(name + Ascii(" b/") + name + NEWLINE);
    Marks(NEWLINE);
    Longer("@@ -0,0 +1 @@", "@@ -", NEWLINE);
    Marks(Ascii("@@ -0,0 +1 @@")[4..] + NEWLINE);
    Longer("new file mode 100644", "new file mode ", NEWLINE);
    HeaderKinds(Ascii("new file mode 100644")[14..] + NEWLINE);
    Longer("index 0000000..e69de29", "index ", NEWLINE);
    HeaderKinds(Ascii("index 0000000..e69de29")[6..] + NEWLINE);
    Longer("--- /dev/null", "--- ", NEWLINE);
    HeaderKinds(Ascii("--- /dev/null")[4..] + NEWLINE);
    Longer("+++ b/", "+++ ", name + NEWLINE);
    HeaderKinds(Ascii("+++ b/")[4..] + (name + NEWLINE));
    NotSubmodule("index 0000000..e69de29", NEWLINE);
    NotSubmodule("--- /dev/null", NEWLINE);
    NotSubmodule("+++ b/", name + NEWLINE);
    NotSubmodule("@@ -0,0 +1 @@", NEWLINE);
  }

  lemma NotSubmodule(t: string, rest: seq<byte>)
    requires t != "" && (t[0] as int) % 256 != 'n' as int
    ensures !IsSubmodule(Ascii(t) + rest)
  {
    Differs(t, "new file mode 160000", rest, 0);
  }

  /** The head of a new file is one of those the theorems on diffs speak of, for every name
      without spaces, and the rules behind it are those of the name. */
  lemma NewFileHeadFits(name: seq<byte>, u: Line -> bool)
    requires PlainName(name)
    ensures WellFormedHead(NewFileHead(name))
    ensures var rules := RulesOf(NewFileHead(name), u);
            && rules.forceCrlf == (!ShellScript(name) && !GitInternal(name))
            && rules.forceNoTabs == !GitInternal(name)
  {
    hide Ascii, QuietHeader, IsDiff, IsHunk, IsSubmodule, HeadLine, FileName, ShellScript, GitInternal, SwitchesAt, RegionOf;
    var head := NewFileHead(name);
    HeadKinds(name);
    FixedLines();
    NamedLines(name);
    HunkIsNoDiff(head[5]);
    forall i | 0 < i < 5
      ensures !IsDiff(head[i])
    {
      QuietLine(head[i]);
    }
    SwitchesExact(head, 0, 6);
    assert FileName(head[0]) == name by { HeadName(name); }
  }

  lemma HeadName(name: seq<byte>)
    requires PlainName(name)
    ensures FileName(NewFileHead(name)[0]) == name
  {
    assert Ascii(" b/") == [SPACE] + Ascii("b/");
    hide FileName, Ascii;
    var rest := Ascii("b/") + name + NEWLINE;
    NameRead(name, rest);
    calc {
      NewFileHead(name)[0];
      Ascii("diff --git a/") + (name + ([SPACE] + Ascii("b/")) + name + NEWLINE);
      Ascii("diff --git a/") + name + [SPACE] + rest;
    }
  }

  lemma PathBelow(name: seq<byte>, t: string, p: string)
    requires p <= t
    ensures StartsWith(name, Ascii(t)) ==> StartsWith(name, Ascii(p))
  {
    if StartsWith(name, Ascii(t)) {
      assert name[..|p|] == name[..|t|][..|p|] == Ascii(p);
    }
  }

  /** Every other file is exempt from neither rule. */
  lemma OrdinaryName(name: seq<byte>)
    requires !EndsWith(name, Ascii(".sh")) && !StartsWith(name, Ascii("BaseTools/")) && name != Ascii(".gitmodules")
    ensures !ShellScript(name) && !GitInternal(name)
  {
    hide Ascii, StartsWith, EndsWith;
    PathBelow(name, "BaseTools/BinWrappers/PosixLike/", "BaseTools/");
    PathBelow(name, "BaseTools/BinPipWrappers/PosixLike/", "BaseTools/");
    PathBelow(name, "BaseTools/Bin/CYGWIN_NT-5.1-i686/", "BaseTools/");
    PathBelow(name, "BaseTools/BuildEnv", "BaseTools/");
    PathBelow(name, "BaseTools/Conf/diff.order", "BaseTools/");
    Itself(name);
  }

  lemma Itself(name: seq<byte>)
    ensures StartsWith(name, name)
  {
  }

  /** The first words of header lines. */
  const HEADER_WORDS: set<string> := {"---", "+++", "index", "new", "deleted", "old", "similarity", "copy", "rename"}

  /** A line that begins with any other word is no header line. */
  lemma HeaderWord(l: Line)
    requires IsHeaderLine(l)
    ensures exists w :: w in HEADER_WORDS && UpToSpace(l) == Ascii(w)
  {
    hide Ascii, StartsWith, UpToSpace;
    var i :| 0 <= i < |PRE_PATCH_PREFIXES| && StartsWith(l, PRE_PATCH_PREFIXES[i]);
    match i {
      case 0 => FirstWord(l, "--- ", "---");
      case 1 => FirstWord(l, "+++ ", "+++");
      case 2 => FirstWord(l, "index ", "index");
      case 3 => FirstWord(l, "new file ", "new");
      case 4 => FirstWord(l, "deleted file ", "deleted");
      case 5 => FirstWord(l, "old mode ", "old");
      case 6 => FirstWord(l, "new mode ", "new");
      case 7 => FirstWord(l, "similarity index ", "similarity");
      case 8 => FirstWord(l, "copy from ", "copy");
      case 9 => FirstWord(l, "copy to ", "copy");
      case _ => FirstWord(l, "rename ", "rename");
    }
  }

  lemma FirstWord(l: Line, p: string, w: string)
    requires w in HEADER_WORDS && w < p && p[|w|] == ' ' && StartsWith(l, Ascii(p))
    ensures UpToSpace(l) == Ascii(w)
  {
    hide UpToSpace;
    var rest := l[|w| + 1..];
    assert l[..|w|] == Ascii(p)[..|w|] == Ascii(w) && l[|w|] == Ascii(p)[|w|] == SPACE;
    assert l == Ascii(w) + [SPACE] + rest;
    WordNoSpace(w);
    UpToSpaceIs(Ascii(w), rest);
  }

  lemma WordNoSpace(w: string)
    requires w in HEADER_WORDS
    ensures SPACE !in Ascii(w)
  {
    assert forall i :: 0 <= i < |w| ==> 0x20 < w[i] as int < 0x7f;
  }
}
