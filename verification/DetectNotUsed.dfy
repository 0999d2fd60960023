/** ParseDscFdfInfContent of DetectNotUsedItem.py: comments are removed from a list of
    lines by a loop that runs backwards and deletes by value. */
module DetectNotUsed {
  import opened Text

  /** The part before the first '#'. */
  function BeforeHash(s: string): string {
    if s == [] || s[0] == '#' then [] else [s[0]] + BeforeHash(s[1..])
  }

  predicate Dropped(line: string) {
    (Strip(line) != [] && Strip(line)[0] == '#') || line == "\n" || line == "\r\n"
  }

  function Cleaned(line: string): string {
    if '#' in line then Strip(BeforeHash(line)) else Strip(line)
  }

  /** The lines that are not comments, each without its comment. */
  function Content(lines: seq<string>): seq<string> {
    if lines == [] then []
    else Content(lines[..|lines| - 1]) + if Dropped(lines[|lines| - 1]) then [] else [Cleaned(lines[|lines| - 1])]
  }

  function IndexOf(lines: seq<string>, x: string): (i: nat)
    requires x in lines
    ensures i < |lines| && lines[i] == x && x !in lines[..i]
  {
    if lines[0] == x then 0 else 1 + IndexOf(lines[1..], x)
  }

  /** list.remove: takes out the first equal element. */
  function Remove(lines: seq<string>, x: string): (r: seq<string>)
    requires x in lines
    ensures |r| == |lines| - 1
  {
    var i := IndexOf(lines, x);
    lines[..i] + lines[i + 1..]
  }

  lemma {:induction false} ContentAppend(u: seq<string>, v: seq<string>)
    ensures Content(u + v) == Content(u) + Content(v)
    decreases |v|
  {
    if v == [] {
      assert u + v == u;
    } else {
      assert (u + v)[..|u + v| - 1] == u + v[..|v| - 1];
      ContentAppend(u, v[..|v| - 1]);
    }
  }

  lemma DroppedAlone(line: string)
    ensures Content([line]) == if Dropped(line) then [] else [Cleaned(line)]
  {
    hide Dropped, Cleaned;
    assert [line][..0] == [];
  }

  /** Taking out any dropped line leaves the content as it is. */
  lemma DroppedRemoved(u: seq<string>, i: nat)
    requires i < |u| && Dropped(u[i])
    ensures Content(u[..i] + u[i + 1..]) == Content(u)
  {
    hide Content, Dropped;
    DroppedAlone(u[i]);
    ContentAppend(u[..i], u[i + 1..]);
    ContentAppend(u[..i], [u[i]]);
    ContentAppend(u[..i] + [u[i]], u[i + 1..]);
    assert u[..i] + [u[i]] + u[i + 1..] == u;
  }

  /** The line at the index, not yet looked at, is removed by value: the first equal line
      goes, which lies in the part not yet looked at, and that part keeps its content. */
  lemma RemovedInFront(lines: seq<string>, index: nat)
    requires index < |lines| && Dropped(lines[index])
    ensures var after := Remove(lines, lines[index]);
            after[index..] == lines[index + 1..] && Content(after[..index]) == Content(lines[..index + 1])
  {
    hide Content, Dropped, IndexOf;
    var x := lines[index];
    var i := IndexOf(lines, x);
    assert i <= index;
    var u := lines[..index + 1];
    var after := Remove(lines, x);
    assert u[i] == x && after[..index] == u[..i] + u[i + 1..];
    DroppedRemoved(u, i);
  }

  /** The loop stays in bounds and computes the content, whatever lines are equal. */
  method ParseContent(file: seq<string>) returns (lines: seq<string>)
    ensures lines == Content(file)
  {
    hide Content, Dropped, Cleaned, Remove;
    lines := file;
    var index := |lines| - 1;
    assert lines[..|lines|] == lines;
    while index >= 0
      invariant -1 <= index < |lines|
      invariant Content(lines[..index + 1]) + lines[index + 1..] == Content(file)
    {
      ghost var was := lines;
      if Dropped(lines[index]) {
        RemovedInFront(lines, index);
        lines := Remove(lines, lines[index]);
      } else {
        LastKept(lines[..index + 1]);
        assert lines[..index + 1][..index] == lines[..index];
        lines := lines[index := Cleaned(lines[index])];
        assert lines[..index] == was[..index];
        assert lines[index..] == [lines[index]] + was[index + 1..];
      }
      index := index - 1;
    }
    NothingLeft();
    assert lines[..0] == [];
  }

  lemma LastKept(u: seq<string>)
    requires u != [] && !Dropped(u[|u| - 1])
    ensures Content(u) == Content(u[..|u| - 1]) + [Cleaned(u[|u| - 1])]
  {
  }

  lemma NothingLeft()
    ensures Content([]) == []
  {
  }

  // ------------------------------------------------ what becomes of a line

  /** A comment line is dropped, wherever its '#' stands. */
  lemma CommentDropped(u: string, rest: string)
    requires AllSpace(u)
    ensures Dropped(u + "#" + rest)
  {
    hide Strip;
    var t, v := Ending("#" + rest);
    Stripped(u, t, v);
    assert u + "#" + rest == u + ("#" + rest);
    assert u + (t + v) == u + t + v;
  }

  /** A line of code comes out without indentation, comment and trailing white space. */
  lemma {:induction false} CodeCleaned(u: string, t: string, v: string, comment: string)
    requires AllSpace(u) && AllSpace(v) && Trimmed(t) && '#' !in t
    ensures Cleaned(u + t + v) == t && Cleaned(u + t + v + "#" + comment) == t
  {
    hide Strip;
    Stripped(u, t, v);
    var s := u + t + v;
    SpaceIsNoHash(u);
    SpaceIsNoHash(v);
    UpToHash(s, comment);
  }

  lemma SpaceIsNoHash(u: string)
    requires AllSpace(u)
    ensures '#' !in u
  {
  }

  lemma {:induction false} UpToHash(s: string, comment: string)
    requires '#' !in s
    ensures BeforeHash(s + "#" + comment) == s && '#' in s + "#" + comment
  {
    var all := s + "#" + comment;
    assert all[|s|] == '#';
    if s != [] {
      UpToHash(s[1..], comment);
      assert all[1..] == s[1..] + "#" + comment;
    }
  }

  /** A line of code is not dropped; an empty line is, but not one of other white space,
      which becomes an empty line. */
  lemma CodeKept(u: string, t: string, v: string)
    requires AllSpace(u) && AllSpace(v) && Trimmed(t) && t != [] && t[0] != '#'
    ensures !Dropped(u + t + v) && Dropped("\n") && Dropped("\r\n") && !Dropped(" \n")
  {
    hide Strip;
    Stripped(u, t, v);
    Stripped(" \n", "", "");
    assert " \n" + "" + "" == " \n";
    NotBlank(u, t, v);
  }

  lemma NotBlank(u: string, t: string, v: string)
    requires t != [] && !IsSpace(t[0] as int)
    ensures u + t + v != "\n" && u + t + v != "\r\n"
  {
    var s := u + t + v;
    assert s[|u|] == t[0];
  }
}
