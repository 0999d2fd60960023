/** UpdateInfAsmFile: the loop that rewrites the source lines of an INF file while it
    inserts into the list it walks. */
module InfRewrite {
  import opened Options
  import opened Text

  /** What the inner loop finds for a line: None if no converted source is named in it;
      otherwise the updated line, and whether the old source is kept. */
  datatype Update = Update(text: string, keep: bool)

  type Rewriter = string -> Option<Update>

  /** The update for a line as read, which is compared without its line end. */
  function UpdateOf(rewrite: Rewriter, line: string): Option<Update> {
    rewrite(RStrip(line))
  }

  /** What tells new lines apart: the updated text without surrounding space. */
  function Key(rewrite: Rewriter, line: string): string
    requires UpdateOf(rewrite, line).Some?
  {
    Strip(UpdateOf(rewrite, line).value.text)
  }

  /** Lines `j` and `i` lie in one run of lines that are all rewritten. */
  predicate SameRun(rewrite: Rewriter, lines: seq<string>, j: nat, i: nat)
    requires i < |lines|
  {
    j <= i && forall k :: j <= k <= i ==> UpdateOf(rewrite, lines[k]).Some?
  }

  /** No earlier line of the run gives the same new line. */
  predicate FirstOfItsKind(rewrite: Rewriter, lines: seq<string>, i: nat)
    requires i < |lines| && UpdateOf(rewrite, lines[i]).Some?
  {
    forall j :: 0 <= j < i && SameRun(rewrite, lines, j, i) ==>
      Key(rewrite, lines[j]) != Key(rewrite, lines[i])
  }

  /** What stands for line `i` in the result: the new line if it is the first of its kind
      in the run, and the old line unless it was replaced. */
  function Result(rewrite: Rewriter, lines: seq<string>, i: nat): seq<string>
    requires i < |lines|
  {
    match UpdateOf(rewrite, lines[i])
    case None => [lines[i]]
    case Some(u) =>
      (if FirstOfItsKind(rewrite, lines, i) then [u.text + "\n"] else []) + (if u.keep then [lines[i]] else [])
  }

  function Results(rewrite: Rewriter, lines: seq<string>, n: nat): seq<string>
    requires n <= |lines|
  {
    if n == 0 then [] else Results(rewrite, lines, n - 1) + Result(rewrite, lines, n - 1)
  }

  // ------------------------------------------------ the loop

  /** The lines that are not None. */
  function Present(lines: seq<Option<string>>): seq<string> {
    if lines == [] then []
    else Present(lines[..|lines| - 1]) + if lines[|lines| - 1].Some? then [lines[|lines| - 1].value] else []
  }

  function AllSome(lines: seq<string>): seq<Option<string>> {
    seq(|lines|, i requires 0 <= i < |lines| => Some(lines[i]))
  }

  lemma {:induction false} PresentAppend(u: seq<Option<string>>, v: seq<Option<string>>)
    ensures Present(u + v) == Present(u) + Present(v)
    decreases |v|
  {
    if v == [] {
      assert u + v == u;
    } else {
      assert (u + v)[..|u + v| - 1] == u + v[..|v| - 1];
      PresentAppend(u, v[..|v| - 1]);
    }
  }

  /** The new lines since the last line that was not rewritten. */
  ghost predicate Recent(rewrite: Rewriter, lines: seq<string>, n: nat, recent: seq<string>)
    requires n <= |lines|
  {
    forall key :: key in recent <==>
      exists j :: 0 <= j < n && SameRun(rewrite, lines, j, n - 1) && Key(rewrite, lines[j]) == key
  }

  lemma RecentNext(rewrite: Rewriter, lines: seq<string>, n: nat, recent: seq<string>)
    requires n < |lines| && Recent(rewrite, lines, n, recent)
    ensures UpdateOf(rewrite, lines[n]).None? ==> Recent(rewrite, lines, n + 1, [])
    ensures UpdateOf(rewrite, lines[n]).Some? ==>
              var key := Key(rewrite, lines[n]);
              && (key in recent <==> !FirstOfItsKind(rewrite, lines, n))
              && (key in recent ==> Recent(rewrite, lines, n + 1, recent))
              && Recent(rewrite, lines, n + 1, recent + [key])
  {
    hide Strip, RStrip;
    if UpdateOf(rewrite, lines[n]).Some? {
      forall j | 0 <= j < n
        ensures SameRun(rewrite, lines, j, n) <==> SameRun(rewrite, lines, j, n - 1)
      {
      }
      assert SameRun(rewrite, lines, n, n);
    } else {
      assert forall j :: 0 <= j <= n ==> !SameRun(rewrite, lines, j, n);
    }
  }

  lemma {:induction false} PresentAll(lines: seq<string>)
    ensures Present(AllSome(lines)) == lines
  {
    if lines != [] {
      PresentAll(lines[..|lines| - 1]);
      assert AllSome(lines)[..|lines| - 1] == AllSome(lines[..|lines| - 1]);
    }
  }

  lemma PresentOne(x: Option<string>)
    ensures Present([x]) == if x.Some? then [x.value] else []
  {
    assert [x][..0] == [];
  }

  /** One more source line: what the loop leaves for it. */
  lemma Extend(rewrite: Rewriter, lines: seq<string>, n: nat, done: seq<Option<string>>, more: seq<Option<string>>)
    requires n < |lines| && Present(done) == Results(rewrite, lines, n)
    requires Present(more) == Result(rewrite, lines, n)
    ensures Present(done + more) == Results(rewrite, lines, n + 1)
  {
    hide Result, Present;
    PresentAppend(done, more);
  }

  lemma PresentTwo(x: Option<string>, y: Option<string>)
    requires x.Some? && y.Some?
    ensures Present([x, y]) == [x.value, y.value]
  {
    PresentOne(x);
    PresentOne(y);
    PresentAppend([x], [y]);
    assert [x] + [y] == [x, y];
  }

  /** What the body of the loop puts in the place of a line. */
  function LeftBy(rewrite: Rewriter, line: string, recent: seq<string>): (more: seq<Option<string>>)
    ensures |more| >= 1
  {
    match UpdateOf(rewrite, line)
    case None => [Some(line)]
    case Some(u) =>
      var unseen := Strip(u.text) !in recent;
      if u.keep then (if unseen then [Some(u.text + "\n"), Some(line)] else [Some(line)])
      else if unseen then [Some(u.text + "\n")] else [None]
  }

  function NextRecent(rewrite: Rewriter, line: string, recent: seq<string>): seq<string> {
    match UpdateOf(rewrite, line)
    case None => []
    case Some(u) => if Strip(u.text) in recent then recent else recent + [Strip(u.text)]
  }

  lemma LeftIsResult(rewrite: Rewriter, lines: seq<string>, n: nat, recent: seq<string>)
    requires n < |lines| && Recent(rewrite, lines, n, recent)
    ensures Present(LeftBy(rewrite, lines[n], recent)) == Result(rewrite, lines, n)
    ensures Recent(rewrite, lines, n + 1, NextRecent(rewrite, lines[n], recent))
    ensures UpdateOf(rewrite, lines[n]).None? ==> LeftBy(rewrite, lines[n], recent) == [Some(lines[n])]
  {
    hide Present, Strip, RStrip, Recent, FirstOfItsKind;
    RecentNext(rewrite, lines, n, recent);
    var more := LeftBy(rewrite, lines[n], recent);
    if |more| == 2 { PresentTwo(more[0], more[1]); } else { PresentOne(more[0]); }
  }

  class InfFile {
    var lines: seq<Option<string>>

    constructor (lines: seq<string>)
      ensures this.lines == AllSome(lines)
    {
      this.lines := AllSome(lines);
    }

    /** The body of the loop, from the test whether the line changed. */
    method Visit(rewrite: Rewriter, index: nat, recent: seq<string>) returns (i: nat, recentSources: seq<string>, lineChanged: bool)
      requires index < |lines| && lines[index].Some?
      modifies this
      ensures var line, was := old(lines)[index].value, old(lines);
              && lines == was[..index] + LeftBy(rewrite, line, recent) + was[index + 1..]
              && i == index + |LeftBy(rewrite, line, recent)|
              && recentSources == NextRecent(rewrite, line, recent)
              && lineChanged == UpdateOf(rewrite, line).Some?
    {
      hide RStrip, Strip;
      i, recentSources := index, recent;
      var update := UpdateOf(rewrite, lines[i].value);
      lineChanged := update.Some?;
      if lineChanged {
        var updatedLine := update.value.text;
        if update.value.keep {
          if Strip(updatedLine) !in recentSources {
            lines := lines[..i] + [Some(updatedLine + "\n")] + lines[i..];
            recentSources := recentSources + [Strip(updatedLine)];
            i := i + 1;
          }
        } else {
          if Strip(updatedLine) in recentSources {
            lines := lines[i := None];
          } else {
            lines := lines[i := Some(updatedLine + "\n")];
            recentSources := recentSources + [Strip(updatedLine)];
          }
        }
      } else {
        recentSources := [];
      }
      i := i + 1;
    }

    /** The loop ends although it inserts in front of where it stands, and its result is
        given line by line. */
    method UpdateInfAsmFile(rewrite: Rewriter, ghost source: seq<string>)
      requires lines == AllSome(source)
      modifies this
      ensures lines == AllSome(Results(rewrite, source, |source|))
    {
      hide Present, Results, Recent, LeftBy, NextRecent, UpdateOf;
      var fileChanged := false;
      var recentSources: seq<string> := [];
      var i: nat := 0;
      ghost var n := 0;
      Initially(rewrite, source);
      assert lines[..0] == [];
      while i < |lines|
        invariant 0 <= n <= |source| && i <= |lines| && lines[i..] == AllSome(source)[n..]
        invariant Present(lines[..i]) == Results(rewrite, source, n)
        invariant Recent(rewrite, source, n, recentSources)
        invariant !fileChanged ==> i == n && lines == AllSome(source)
        decreases |source| - n
      {
        ghost var done, was := lines[..i], lines;
        assert was[i] == was[i..][0] == Some(source[n]);
        LeftIsResult(rewrite, source, n, recentSources);
        ghost var more := LeftBy(rewrite, source[n], recentSources);
        var lineChanged;
        i, recentSources, lineChanged := Visit(rewrite, i, recentSources);
        Extend(rewrite, source, n, done, more);
        assert lines[..i] == done + more;
        assert lines[i..] == was[|done| + 1..] == was[|done|..][1..];
        fileChanged := fileChanged || lineChanged;
        n := n + 1;
      }
      assert lines[..i] == lines;
      if fileChanged {
        lines := AllSome(Present(lines));
      } else {
        PresentAll(source);
      }
    }
  }

  lemma Initially(rewrite: Rewriter, source: seq<string>)
    ensures Present([]) == Results(rewrite, source, 0) == []
    ensures Recent(rewrite, source, 0, [])
  {
  }

  // ------------------------------------------------ what the result means

  /** Where each line of the result comes from. */
  datatype Origin = Old(index: nat) | New(index: nat)

  function OriginsOf(rewrite: Rewriter, lines: seq<string>, i: nat): seq<Origin>
    requires i < |lines|
  {
    match UpdateOf(rewrite, lines[i])
    case None => [Old(i)]
    case Some(u) => (if FirstOfItsKind(rewrite, lines, i) then [New(i)] else []) + (if u.keep then [Old(i)] else [])
  }

  function Origins(rewrite: Rewriter, lines: seq<string>, n: nat): seq<Origin>
    requires n <= |lines|
  {
    if n == 0 then [] else Origins(rewrite, lines, n - 1) + OriginsOf(rewrite, lines, n - 1)
  }

  function TextOf(rewrite: Rewriter, lines: seq<string>, o: Origin): string
    requires o.index < |lines| && (o.New? ==> UpdateOf(rewrite, lines[o.index]).Some?)
  {
    match o
    case Old(i) => lines[i]
    case New(i) => UpdateOf(rewrite, lines[i]).value.text + "\n"
  }

  predicate ValidOrigins(rewrite: Rewriter, lines: seq<string>, os: seq<Origin>) {
    forall k :: 0 <= k < |os| ==> os[k].index < |lines| && (os[k].New? ==> UpdateOf(rewrite, lines[os[k].index]).Some?)
  }

  lemma OneLine(rewrite: Rewriter, lines: seq<string>, i: nat)
    requires i < |lines|
    ensures var m := OriginsOf(rewrite, lines, i);
            && (forall k :: 0 <= k < |m| ==> m[k].index == i) && ValidOrigins(rewrite, lines, m)
            && (|m| <= 1 || m == [New(i), Old(i)])
            && (Old(i) in m <==> UpdateOf(rewrite, lines[i]).None? || UpdateOf(rewrite, lines[i]).value.keep)
            && (New(i) in m <==> UpdateOf(rewrite, lines[i]).Some? && FirstOfItsKind(rewrite, lines, i))
            && |Result(rewrite, lines, i)| == |m|
            && forall k :: 0 <= k < |m| ==> Result(rewrite, lines, i)[k] == TextOf(rewrite, lines, m[k])
  {
    hide FirstOfItsKind, UpdateOf;
  }

  /** The result is the text of its origins. */
  lemma {:induction false} OriginsText(rewrite: Rewriter, lines: seq<string>, n: nat)
    requires n <= |lines|
    ensures var os := Origins(rewrite, lines, n);
            && ValidOrigins(rewrite, lines, os) && |Results(rewrite, lines, n)| == |os|
            && forall k :: 0 <= k < |os| ==> Results(rewrite, lines, n)[k] == TextOf(rewrite, lines, os[k])
  {
    hide OriginsOf, Result, UpdateOf, TextOf;
    if n > 0 {
      OriginsText(rewrite, lines, n - 1);
      OneLine(rewrite, lines, n - 1);
      var os, os', m := Origins(rewrite, lines, n), Origins(rewrite, lines, n - 1), OriginsOf(rewrite, lines, n - 1);
      var rs, rs', r := Results(rewrite, lines, n), Results(rewrite, lines, n - 1), Result(rewrite, lines, n - 1);
      assert os == os' + m && rs == rs' + r;
      hide Origins, Results;
      forall k | 0 <= k < |os|
        ensures os[k].index < |lines| && (os[k].New? ==> UpdateOf(rewrite, lines[os[k].index]).Some?)
        ensures rs[k] == TextOf(rewrite, lines, os[k])
      {
        if k < |os'| {
          assert os[k] == os'[k] && rs[k] == rs'[k];
        } else {
          assert os[k] == m[k - |os'|] && rs[k] == r[k - |os'|];
        }
      }
    }
  }

  /** An old line is among them exactly if no converted source is named in it or its
      source is kept, a new line exactly if it is the first of its kind in its run. */
  lemma {:induction false} OriginsMembers(rewrite: Rewriter, lines: seq<string>, n: nat, i: nat)
    requires n <= |lines| && i < |lines|
    ensures var os := Origins(rewrite, lines, n);
            && (Old(i) in os <==> i < n && (UpdateOf(rewrite, lines[i]).None? || UpdateOf(rewrite, lines[i]).value.keep))
            && (New(i) in os <==> i < n && UpdateOf(rewrite, lines[i]).Some? && FirstOfItsKind(rewrite, lines, i))
  {
    hide OriginsOf, FirstOfItsKind, UpdateOf;
    if n > 0 {
      OriginsMembers(rewrite, lines, n - 1, i);
      OneLine(rewrite, lines, n - 1);
    }
  }

  predicate InOrder(o: Origin, o': Origin) {
    o.index < o'.index || (o.New? && o'.Old? && o.index == o'.index)
  }

  predicate Ordered(os: seq<Origin>, n: nat) {
    && (forall k :: 0 <= k < |os| ==> os[k].index < n)
    && (forall k, l :: 0 <= k < l < |os| ==> InOrder(os[k], os[l]))
  }

  /** The line end and other white space behind a line do not matter to the update. */
  lemma LineEndIgnored(rewrite: Rewriter, t: string, v: string)
    requires AllSpace(v) && (t != [] ==> !IsSpace(t[|t| - 1] as int))
    ensures UpdateOf(rewrite, t + v) == rewrite(t)
  {
    RStripped(t, v);
  }

  /** New lines that differ in the white space around them count as the same. */
  lemma SpacingIgnored(rewrite: Rewriter, lines: seq<string>, j: nat, i: nat, t: string,
                       u: string, v: string, u': string, v': string)
    requires j < i < |lines| && SameRun(rewrite, lines, j, i)
    requires Trimmed(t) && AllSpace(u) && AllSpace(v) && AllSpace(u') && AllSpace(v')
    requires UpdateOf(rewrite, lines[j]).value.text == u + t + v
    requires UpdateOf(rewrite, lines[i]).value.text == u' + t + v'
    ensures !FirstOfItsKind(rewrite, lines, i)
  {
    hide Strip, RStrip;
    Stripped(u, t, v);
    Stripped(u', t, v');
  }

  predicate Ended(line: string) { line != [] && line[|line| - 1] == '\n' }

  /** A file whose lines all end in a line feed still has only such lines. */
  lemma {:induction false} LinesStayEnded(rewrite: Rewriter, lines: seq<string>, n: nat)
    requires n <= |lines| && forall i :: 0 <= i < |lines| ==> Ended(lines[i])
    ensures forall k :: 0 <= k < |Results(rewrite, lines, n)| ==> Ended(Results(rewrite, lines, n)[k])
  {
    hide Result, Ended;
    if n > 0 {
      LinesStayEnded(rewrite, lines, n - 1);
      ResultEnded(rewrite, lines, n - 1);
    }
  }

  lemma ResultEnded(rewrite: Rewriter, lines: seq<string>, i: nat)
    requires i < |lines| && Ended(lines[i])
    ensures forall k :: 0 <= k < |Result(rewrite, lines, i)| ==> Ended(Result(rewrite, lines, i)[k])
  {
    hide UpdateOf, FirstOfItsKind;
  }

  /** They stand in the order of the source, each once, a new line before its old one. */
  lemma {:induction false} OriginsOrdered(rewrite: Rewriter, lines: seq<string>, n: nat)
    requires n <= |lines|
    ensures Ordered(Origins(rewrite, lines, n), n)
  {
    hide OriginsOf, Ordered;
    if n == 0 {
      assert Ordered([], 0) by { NoneOrdered(); }
    } else {
      OriginsOrdered(rewrite, lines, n - 1);
      OneOrder(rewrite, lines, n - 1);
      OrderedAppend(Origins(rewrite, lines, n - 1), OriginsOf(rewrite, lines, n - 1), n - 1);
    }
  }

  lemma NoneOrdered()
    ensures Ordered([], 0)
  {
  }

  lemma OneOrder(rewrite: Rewriter, lines: seq<string>, i: nat)
    requires i < |lines|
    ensures var m := OriginsOf(rewrite, lines, i);
            (forall k :: 0 <= k < |m| ==> m[k].index == i) && (|m| <= 1 || m == [New(i), Old(i)])
  {
    hide FirstOfItsKind, UpdateOf;
  }

  lemma OrderedAppend(os: seq<Origin>, m: seq<Origin>, n: nat)
    requires Ordered(os, n) && (forall k :: 0 <= k < |m| ==> m[k].index == n) && (|m| <= 1 || m == [New(n), Old(n)])
    ensures Ordered(os + m, n + 1)
  {
  }

  /** In a run of rewritten lines every new line appears exactly once: each line of the
      run has one first of its kind, at or before it, in the same run. */
  lemma {:induction false} OncePerRun(rewrite: Rewriter, lines: seq<string>, a: nat, i: nat) returns (j: nat)
    requires i < |lines| && SameRun(rewrite, lines, a, i)
    requires a == 0 || UpdateOf(rewrite, lines[a - 1]).None?
    ensures a <= j <= i && UpdateOf(rewrite, lines[j]).Some?
    ensures Key(rewrite, lines[j]) == Key(rewrite, lines[i]) && FirstOfItsKind(rewrite, lines, j)
    ensures forall k :: a <= k <= i && k != j && Key(rewrite, lines[k]) == Key(rewrite, lines[i]) ==>
              !FirstOfItsKind(rewrite, lines, k)
    decreases i
  {
    hide Strip, RStrip;
    if FirstOfItsKind(rewrite, lines, i) {
      j := i;
      forall k | a <= k < i
        ensures Key(rewrite, lines[k]) != Key(rewrite, lines[i])
      {
        assert SameRun(rewrite, lines, k, i);
      }
    } else {
      var j' :| 0 <= j' < i && SameRun(rewrite, lines, j', i) && Key(rewrite, lines[j']) == Key(rewrite, lines[i]);
      assert j' >= a;
      j := OncePerRun(rewrite, lines, a, j');
      forall k | a <= k <= i && k != j && Key(rewrite, lines[k]) == Key(rewrite, lines[i])
        ensures !FirstOfItsKind(rewrite, lines, k)
      {
        if k > j {
          assert SameRun(rewrite, lines, j, k);
        }
      }
    }
  }
}
