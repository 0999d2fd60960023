/** The string methods of the scripts. */
module Text {

  /** str.isspace on the first 256 characters, by their codes. */
  predicate IsSpace(code: int) {
    9 <= code <= 13 || 28 <= code <= 32 || code == 0x85 || code == 0xa0
  }

  function RStrip(s: string): string {
    if s != [] && IsSpace(s[|s| - 1] as int) then RStrip(s[..|s| - 1]) else s
  }

  function LStrip(s: string): string {
    if s != [] && IsSpace(s[0] as int) then LStrip(s[1..]) else s
  }

  function Strip(s: string): string { LStrip(RStrip(s)) }

  predicate AllSpace(s: string) { forall i :: 0 <= i < |s| ==> IsSpace(s[i] as int) }

  /** No white space at either end. */
  predicate Trimmed(s: string) {
    s != [] ==> !IsSpace(s[0] as int) && !IsSpace(s[|s| - 1] as int)
  }

  lemma {:induction false} RStripped(t: string, v: string)
    requires AllSpace(v) && (t != [] ==> !IsSpace(t[|t| - 1] as int))
    ensures RStrip(t + v) == t
    decreases |v|
  {
    if v == [] {
      assert t + v == t;
    } else {
      RStripped(t, v[..|v| - 1]);
      assert (t + v)[..|t + v| - 1] == t + v[..|v| - 1];
    }
  }

  lemma {:induction false} LStripped(u: string, t: string)
    requires AllSpace(u) && (t != [] ==> !IsSpace(t[0] as int))
    ensures LStrip(u + t) == t
  {
    if u == [] {
      assert u + t == t;
    } else {
      LStripped(u[1..], t);
      assert (u + t)[1..] == u[1..] + t;
    }
  }

  /** Strip takes away white space at both ends, and nothing else. */
  lemma Stripped(u: string, t: string, v: string)
    requires AllSpace(u) && AllSpace(v) && Trimmed(t)
    ensures Strip(u + t + v) == t
  {
    hide LStrip, RStrip, IsSpace;
    if t == [] {
      assert AllSpace(u + v) && u + t + v == [] + (u + v);
      RStripped([], u + v);
      LStripped([], []);
      assert [] + [] == "";
    } else {
      assert (u + t)[|u + t| - 1] == t[|t| - 1];
      RStripped(u + t, v);
      LStripped(u, t);
    }
  }

  /** Every text is white space, a trimmed text, and white space. */
  lemma {:induction false} Framed(s: string) returns (u: string, t: string, v: string)
    ensures s == u + t + v && AllSpace(u) && AllSpace(v) && Trimmed(t)
  {
    if s == [] {
      u, t, v := [], [], [];
    } else if IsSpace(s[0] as int) {
      u, t, v := Framed(s[1..]);
      u := [s[0]] + u;
    } else {
      t, v := Ending(s);
      u := [];
    }
  }

  lemma {:induction false} Ending(s: string) returns (t: string, v: string)
    requires s != [] && !IsSpace(s[0] as int)
    ensures s == t + v && AllSpace(v) && Trimmed(t) && t != [] && t[0] == s[0]
  {
    if IsSpace(s[|s| - 1] as int) {
      t, v := Ending(s[..|s| - 1]);
      v := v + [s[|s| - 1]];
    } else {
      t, v := s, [];
    }
  }
}
