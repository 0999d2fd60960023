/** Anonymous labels in ConvertMasmToNasm: '@@:' becomes a numbered local label, and
    '@b' and '@f' become references to the one before and the one after. */
module AnonLabels {
  import opened Options

  // ------------------------------------------------ label names

  function Digit(n: nat): char
    requires n < 10
  {
    ('0' as int + n) as char
  }

  /** %d */
  function Decimal(n: int): (s: string)
    ensures s != [] && '@' !in s && ':' !in s
    ensures s[0] == '-' <==> n < 0
    ensures |s| == 1 <==> 0 <= n < 10
    decreases n < 0, if n < 0 then -n else n
  {
    if n < 0 then ['-'] + Decimal(-n)
    else if n < 10 then [Digit(n)]
    else Decimal(n / 10) + [Digit(n % 10)]
  }

  function AnonLabel(count: int): (s: string)
    ensures s != [] && s[0] == '.' && '@' !in s && ':' !in s
  {
    ['.'] + Decimal(count)
  }

  lemma {:induction false} NatInjective(a: nat, b: nat)
    requires Decimal(a) == Decimal(b)
    ensures a == b
    decreases a
  {
    if a >= 10 {
      var s, t := Decimal(a), Decimal(b);
      assert s[..|s| - 1] == Decimal(a / 10) && t[..|t| - 1] == Decimal(b / 10);
      assert s[|s| - 1] == Digit(a % 10) && t[|t| - 1] == Digit(b % 10);
      NatInjective(a / 10, b / 10);
    }
  }

  /** Different numbers make different labels. */
  lemma LabelInjective(a: int, b: int)
    requires AnonLabel(a) == AnonLabel(b)
    ensures a == b
  {
    assert AnonLabel(a)[1..] == Decimal(a) && AnonLabel(b)[1..] == Decimal(b);
    assert Decimal(a) == Decimal(b);
    if a < 0 {
      assert Decimal(a)[1..] == Decimal(-a) && Decimal(b)[1..] == Decimal(-b);
      NatInjective(-a, -b);
    } else {
      NatInjective(a, b);
    }
  }

  /** The number a text of digits stands for, most significant first. */
  function Value(s: string): int {
    if s == [] then 0 else Value(s[..|s| - 1]) * 10 + (s[|s| - 1] as int - '0' as int)
  }

  /** A label is a period and its count in decimal. */
  lemma {:induction false} LabelRead(n: nat)
    ensures AnonLabel(n)[1..] == Decimal(n) && Value(Decimal(n)) == n && Decimal(-1) == "-1"
  {
    assert Decimal(1) == "1";
    if n < 10 {
      assert [Digit(n)][..0] == [];
    } else {
      LabelRead(n / 10);
      var s := Decimal(n);
      assert s[..|s| - 1] == Decimal(n / 10);
    }
  }

  // ------------------------------------------------ references inside a line

  /** str.replace of '@' and the letter `c`. */
  function Replace(s: string, c: char, name: string): string {
    if s == [] then []
    else if |s| > 1 && s[0] == '@' && s[1] == c then name + Replace(s[2..], c, name)
    else [s[0]] + Replace(s[1..], c, name)
  }

  function ConvertAnonymousLabels(oldAsm: string, count: int): string {
    var back, ahead := AnonLabel(count), AnonLabel(count + 1);
    Replace(Replace(Replace(Replace(oldAsm, 'b', back), 'B', back), 'f', ahead), 'F', ahead)
  }

  /** A line as plain characters and references. */
  datatype Piece = Char(c: char) | Ref(letter: char)

  predicate IsRefLetter(c: char) { c == 'b' || c == 'B' || c == 'f' || c == 'F' }

  function Pieces(s: string): seq<Piece> {
    if s == [] then []
    else if |s| > 1 && s[0] == '@' && IsRefLetter(s[1]) then [Ref(s[1])] + Pieces(s[2..])
    else [Char(s[0])] + Pieces(s[1..])
  }

  /** The label a reference stands for when `count` is the number of the last label. */
  function LabelFor(letter: char, count: int): string {
    if letter == 'b' || letter == 'B' then AnonLabel(count) else AnonLabel(count + 1)
  }

  function RenderOne(p: Piece, done: set<char>, count: int): string {
    match p
    case Char(c) => [c]
    case Ref(letter) => if letter in done then LabelFor(letter, count) else ['@', letter]
  }

  /** The text with the references in `done` replaced. */
  function Render(ps: seq<Piece>, done: set<char>, count: int): string {
    if ps == [] then [] else RenderOne(ps[0], done, count) + Render(ps[1..], done, count)
  }

  lemma RenderNext(p: Piece, ps: seq<Piece>, done: set<char>, count: int)
    ensures Render([p] + ps, done, count) == RenderOne(p, done, count) + Render(ps, done, count)
  {
    hide RenderOne;
    assert ([p] + ps)[1..] == ps;
  }

  /** No plain '@' stands before a reference letter, and references are to letters. */
  predicate Canonical(ps: seq<Piece>) {
    ps != [] ==>
      && Canonical(ps[1..])
      && (ps[0].Ref? ==> IsRefLetter(ps[0].letter))
      && (ps[0] == Char('@') && |ps| > 1 ==> ps[1].Ref? || !IsRefLetter(ps[1].c))
  }

  lemma PiecesNext(s: string)
    requires s != []
    ensures var ref := |s| > 1 && s[0] == '@' && IsRefLetter(s[1]);
            Pieces(s) == if ref then [Ref(s[1])] + Pieces(s[2..]) else [Char(s[0])] + Pieces(s[1..])
  {
  }

  lemma CanonicalNext(p: Piece, ps: seq<Piece>)
    requires Canonical(ps) && (p.Ref? ==> IsRefLetter(p.letter))
    requires p == Char('@') && ps != [] ==> ps[0].Ref? || !IsRefLetter(ps[0].c)
    ensures Canonical([p] + ps)
  {
    assert ([p] + ps)[1..] == ps;
  }

  lemma {:induction false} PiecesCanonical(s: string)
    ensures Canonical(Pieces(s))
  {
    hide Pieces, Canonical;
    if s == [] {
      NoPieces(s);
    } else {
      PiecesNext(s);
      if |s| > 1 && s[0] == '@' && IsRefLetter(s[1]) {
        PiecesCanonical(s[2..]);
        CanonicalNext(Ref(s[1]), Pieces(s[2..]));
      } else {
        PiecesCanonical(s[1..]);
        if |s| > 1 {
          PiecesNext(s[1..]);
        } else {
          NoPieces(s[1..]);
        }
        CanonicalNext(Char(s[0]), Pieces(s[1..]));
      }
    }
  }

  lemma NoPieces(s: string)
    requires s == []
    ensures Pieces(s) == [] && Canonical(Pieces(s))
  {
  }

  lemma {:induction false} PiecesRendered(s: string)
    ensures Render(Pieces(s), {}, 0) == s
  {
    hide Pieces, AnonLabel;
    if s == [] {
      NoPieces(s);
    } else {
      PiecesNext(s);
      if |s| > 1 && s[0] == '@' && IsRefLetter(s[1]) {
        PiecesRendered(s[2..]);
        RenderNext(Ref(s[1]), Pieces(s[2..]), {}, 0);
        assert s == ['@', s[1]] + s[2..];
      } else {
        PiecesRendered(s[1..]);
        RenderNext(Char(s[0]), Pieces(s[1..]), {}, 0);
        assert s == [s[0]] + s[1..];
      }
    }
  }

  lemma {:induction false} ReplaceSkips(u: string, v: string, c: char, name: string)
    requires '@' !in u
    ensures Replace(u + v, c, name) == u + Replace(v, c, name)
  {
    if u == [] {
      assert u + v == v;
    } else {
      assert (u + v)[1..] == u[1..] + v;
      ReplaceSkips(u[1..], v, c, name);
    }
  }

  lemma RenderStart(ps: seq<Piece>, done: set<char>, count: int)
    requires Canonical(ps) && ps != []
    ensures Render(ps, done, count) != []
    ensures ps[0].Ref? ==> Render(ps, done, count)[0] == '@' || Render(ps, done, count)[0] == '.'
    ensures ps[0].Char? ==> Render(ps, done, count)[0] == ps[0].c
  {
    hide AnonLabel;
  }

  lemma ReplaceChar(x: char, rest: string, c: char, name: string)
    requires x == '@' && rest != [] ==> rest[0] != c
    ensures Replace([x] + rest, c, name) == [x] + Replace(rest, c, name)
  {
    assert ([x] + rest)[1..] == rest;
  }

  lemma ReplaceRef(letter: char, rest: string, c: char, name: string)
    requires letter != '@'
    ensures Replace(['@', letter] + rest, c, name) ==
            (if letter == c then name else ['@', letter]) + Replace(rest, c, name)
  {
    var s := ['@', letter] + rest;
    if letter == c {
      assert s[2..] == rest;
    } else {
      hide Replace;
      assert s == ['@'] + ([letter] + rest);
      ReplaceChar('@', [letter] + rest, c, name);
      ReplaceChar(letter, rest, c, name);
    }
  }

  /** One of the four replacements replaces exactly the references with its letter. */
  lemma {:induction false} ReplaceRenders(ps: seq<Piece>, done: set<char>, c: char, count: int)
    requires Canonical(ps) && IsRefLetter(c) && c !in done
    ensures Replace(Render(ps, done, count), c, LabelFor(c, count)) == Render(ps, done + {c}, count)
  {
    if ps != [] {
      var rest := Render(ps[1..], done, count);
      ReplaceRenders(ps[1..], done, c, count);
      hide Replace, AnonLabel;
      match ps[0]
      case Char(x) =>
        if ps[1..] != [] {
          RenderStart(ps[1..], done, count);
        }
        ReplaceChar(x, rest, c, LabelFor(c, count));
      case Ref(letter) =>
        if letter in done {
          ReplaceSkips(LabelFor(letter, count), rest, c, LabelFor(c, count));
        } else {
          ReplaceRef(letter, rest, c, LabelFor(c, count));
        }
    }
  }

  lemma {:induction false} NothingDone(ps: seq<Piece>, a: int, b: int)
    ensures Render(ps, {}, a) == Render(ps, {}, b)
  {
    if ps != [] {
      NothingDone(ps[1..], a, b);
    }
  }

  const REF_LETTERS := {'b', 'B', 'f', 'F'}

  /** The four replacements in a row replace every '@' that stands before one of the four
      letters, with its letter, by the label for that letter, for every line. */
  lemma LineConverted(s: string, count: int)
    ensures ConvertAnonymousLabels(s, count) == Render(Pieces(s), REF_LETTERS, count)
  {
    hide Replace, Render, Pieces, AnonLabel, Canonical;
    var ps := Pieces(s);
    PiecesCanonical(s);
    PiecesRendered(s);
    NothingDone(ps, 0, count);
    ReplaceRenders(ps, {}, 'b', count);
    ReplaceRenders(ps, {} + {'b'}, 'B', count);
    ReplaceRenders(ps, {} + {'b'} + {'B'}, 'f', count);
    ReplaceRenders(ps, {} + {'b'} + {'B'} + {'f'}, 'F', count);
    assert {} + {'b'} + {'B'} + {'f'} + {'F'} == REF_LETTERS;
  }

  // ------------------------------------------------ references as tokens

  /** The characters of a name. */
  type Alphabet = char -> bool

  /** Any alphabet in which the four references are names. */
  predicate HasReferences(isName: Alphabet) {
    isName('@') && isName('b') && isName('B') && isName('f') && isName('F')
  }

  /** The name patterns of the script: word characters, here of ASCII, and '@'. */
  predicate ScriptName(c: char) {
    c == '@' || c == '_' || '0' <= c <= '9' || 'a' <= c <= 'z' || 'A' <= c <= 'Z'
  }

  function NameLength(isName: Alphabet, s: string): (n: nat)
    ensures n <= |s| && (n < |s| ==> !isName(s[n]))
    ensures forall i :: 0 <= i < n ==> isName(s[i])
  {
    if s == [] || !isName(s[0]) then 0 else 1 + NameLength(isName, s[1..])
  }

  datatype Token = Name(text: string) | Other(c: char)

  /** A line as the longest names in it and the characters between them. */
  function Tokens(isName: Alphabet, s: string): seq<Token>
    decreases |s|
  {
    if s == [] then []
    else
      var n := NameLength(isName, s);
      if n > 0 then [Name(s[..n])] + Tokens(isName, s[n..]) else [Other(s[0])] + Tokens(isName, s[1..])
  }

  /** The token is one of the four references. */
  predicate IsReference(text: string) {
    |text| == 2 && text[0] == '@' && IsRefLetter(text[1])
  }

  function TokenConverted(t: Token, count: int): string {
    match t
    case Name(text) => if IsReference(text) then LabelFor(text[1], count) else text
    case Other(c) => [c]
  }

  /** The line with the references replaced and every other token as it was. */
  function ByToken(ts: seq<Token>, count: int): string {
    if ts == [] then [] else TokenConverted(ts[0], count) + ByToken(ts[1..], count)
  }

  predicate RefAt(s: string, i: nat)
    requires i + 1 < |s|
  {
    s[i] == '@' && IsRefLetter(s[i + 1])
  }

  /** No '@' stands before one of the four letters. */
  predicate NoRefs(s: string) {
    forall i :: 0 <= i < |s| - 1 ==> !RefAt(s, i)
  }

  predicate Harmless(t: Token) {
    t.Name? && !IsReference(t.text) ==> NoRefs(t.text)
  }

  predicate Apart(u: string, v: string) {
    u != [] && u[|u| - 1] == '@' && v != [] ==> !IsRefLetter(v[0])
  }

  lemma NoRefsAppend(u: string, v: string)
    ensures NoRefs(u) && NoRefs(v) && Apart(u, v) ==> NoRefs(u + v)
    ensures NoRefs(u + v) ==> NoRefs(u) && NoRefs(v)
  {
    var s := u + v;
    assert forall i :: 0 <= i < |u| - 1 ==> RefAt(s, i) == RefAt(u, i);
    if NoRefs(s) {
      forall i | 0 <= i < |v| - 1
        ensures !RefAt(v, i)
      {
        assert RefAt(s, |u| + i) == RefAt(v, i);
      }
    }
    if NoRefs(u) && NoRefs(v) && Apart(u, v) {
      forall i | 0 <= i < |s| - 1
        ensures !RefAt(s, i)
      {
        if i < |u| - 1 {
          assert !RefAt(u, i);
        } else if i >= |u| {
          assert !RefAt(v, i - |u|);
        }
      }
    }
  }

  lemma CharPiece(c: char, s: string)
    requires Apart([c], s)
    ensures Pieces([c] + s) == [Char(c)] + Pieces(s)
  {
    hide Pieces;
    PiecesNext([c] + s);
    assert ([c] + s)[1..] == s;
  }

  lemma RefPiece(letter: char, s: string)
    requires IsRefLetter(letter)
    ensures Pieces(['@', letter] + s) == [Ref(letter)] + Pieces(s)
  {
    hide Pieces;
    PiecesNext(['@', letter] + s);
    assert (['@', letter] + s)[2..] == s;
  }

  lemma {:induction false} PiecesAppend(u: string, v: string)
    requires Apart(u, v)
    ensures Pieces(u + v) == Pieces(u) + Pieces(v)
  {
    hide Pieces;
    if u == [] {
      NoPieces(u);
      assert u + v == v;
    } else if |u| > 1 && u[0] == '@' && IsRefLetter(u[1]) {
      var u' := u[2..];
      assert u == ['@', u[1]] + u';
      PiecesAppend(u', v);
      RefPiece(u[1], u');
      RefPiece(u[1], u' + v);
      assert u + v == ['@', u[1]] + (u' + v);
    } else {
      var u' := u[1..];
      assert u == [u[0]] + u';
      PiecesAppend(u', v);
      CharPiece(u[0], u');
      CharPiece(u[0], u' + v);
      assert u + v == [u[0]] + (u' + v);
    }
  }

  lemma {:induction false} RenderAppend(u: seq<Piece>, v: seq<Piece>, done: set<char>, count: int)
    ensures Render(u + v, done, count) == Render(u, done, count) + Render(v, done, count)
  {
    hide RenderOne;
    if u == [] {
      assert u + v == v;
    } else {
      assert (u + v)[1..] == u[1..] + v;
      RenderAppend(u[1..], v, done, count);
    }
  }

  lemma {:induction false} NothingToReplace(s: string, done: set<char>, count: int)
    requires NoRefs(s)
    ensures Render(Pieces(s), done, count) == s
  {
    hide Pieces;
    if s == [] {
      NoPieces(s);
    } else {
      PiecesNext(s);
      assert s == [s[0]] + s[1..];
      NoRefsAppend([s[0]], s[1..]);
      assert |s| > 1 ==> !RefAt(s, 0);
      NothingToReplace(s[1..], done, count);
      RenderNext(Char(s[0]), Pieces(s[1..]), done, count);
    }
  }

  lemma TokenRendered(t: string, count: int)
    requires Harmless(Name(t))
    ensures Render(Pieces(t), REF_LETTERS, count) == TokenConverted(Name(t), count)
  {
    hide Pieces, Render, AnonLabel, NoRefs;
    if IsReference(t) {
      PiecesNext(t);
      NoPieces(t[2..]);
      assert [Ref(t[1])] + [] == [Ref(t[1])];
      RenderNext(Ref(t[1]), [], REF_LETTERS, count);
      RenderNothing(REF_LETTERS, count);
    } else {
      NothingToReplace(t, REF_LETTERS, count);
    }
  }

  lemma RenderNothing(done: set<char>, count: int)
    ensures Render([], done, count) == []
  {
  }

  lemma ByTokenNext(t: Token, ts: seq<Token>, count: int)
    ensures ByToken([t] + ts, count) == TokenConverted(t, count) + ByToken(ts, count)
  {
    hide TokenConverted;
    assert ([t] + ts)[1..] == ts;
  }

  /** The first token of a line and the rest do not share a reference. */
  lemma FirstToken(isName: Alphabet, s: string) returns (t: Token, n: nat)
    requires HasReferences(isName) && s != []
    ensures 0 < n <= |s| && Tokens(isName, s) == [t] + Tokens(isName, s[n..])
    ensures t == (if t.Name? then Name(s[..n]) else Other(s[0])) && (t.Other? ==> n == 1 && s[0] != '@')
    ensures Apart(s[..n], s[n..])
  {
    hide NameLength;
    n := NameLength(isName, s);
    if n > 0 {
      t := Name(s[..n]);
    } else {
      t, n := Other(s[0]), 1;
    }
  }

  lemma {:induction false} HarmlessRendered(isName: Alphabet, s: string, count: int)
    requires HasReferences(isName) && forall t :: t in Tokens(isName, s) ==> Harmless(t)
    ensures Render(Pieces(s), REF_LETTERS, count) == ByToken(Tokens(isName, s), count)
    decreases |s|
  {
    hide Pieces, Render, Tokens, ByToken, Harmless, TokenConverted, HasReferences, Apart;
    if s == [] {
      EmptyLine(isName, s, count);
    } else {
      var t, n := FirstToken(isName, s);
      var u, v := s[..n], s[n..];
      assert s == u + v;
      assert t in Tokens(isName, s);
      HarmlessRendered(isName, v, count);
      PiecesAppend(u, v);
      RenderAppend(Pieces(u), Pieces(v), REF_LETTERS, count);
      ByTokenNext(t, Tokens(isName, v), count);
      if t.Name? {
        TokenRendered(u, count);
      } else {
        OtherRendered(u, count);
      }
    }
  }

  lemma EmptyLine(isName: Alphabet, s: string, count: int)
    requires s == []
    ensures Render(Pieces(s), REF_LETTERS, count) == [] && Tokens(isName, s) == [] && ByToken([], count) == []
  {
  }

  lemma OtherRendered(u: string, count: int)
    requires |u| == 1
    ensures Render(Pieces(u), REF_LETTERS, count) == TokenConverted(Other(u[0]), count)
  {
    NothingToReplace(u, REF_LETTERS, count);
  }

  /** What the code writes has no reference left. */
  lemma {:induction false} NoneLeft(ps: seq<Piece>, count: int)
    requires Canonical(ps)
    ensures NoRefs(Render(ps, REF_LETTERS, count))
  {
    if ps != [] {
      var u, v := RenderOne(ps[0], REF_LETTERS, count), Render(ps[1..], REF_LETTERS, count);
      NoneLeft(ps[1..], count);
      if ps[1..] != [] {
        RenderStart(ps[1..], REF_LETTERS, count);
      }
      hide AnonLabel, NoRefs, Render;
      LoneText(u);
      NoRefsAppend(u, v);
    }
  }

  lemma LoneText(u: string)
    ensures |u| <= 1 || '@' !in u ==> NoRefs(u)
  {
  }

  lemma {:induction false} RefsKept(ts: seq<Token>, t: Token, count: int)
    requires t in ts && !Harmless(t)
    ensures !NoRefs(ByToken(ts, count))
  {
    hide NoRefs, LabelFor;
    NoRefsAppend(TokenConverted(ts[0], count), ByToken(ts[1..], count));
    if ts[0] != t {
      RefsKept(ts[1..], t, count);
    }
  }

  /** Whatever the alphabet of names, the code converts a line token by token exactly if
      no name in it, other than the references, has '@' before one of the four letters. */
  lemma ConvertedByToken(isName: Alphabet, s: string, count: int)
    requires HasReferences(isName)
    ensures ConvertAnonymousLabels(s, count) == ByToken(Tokens(isName, s), count) <==>
            forall t :: t in Tokens(isName, s) ==> Harmless(t)
  {
    hide Pieces, Render, Tokens, ByToken, Harmless, NoRefs, Canonical, ConvertAnonymousLabels, HasReferences;
    LineConverted(s, count);
    if forall t :: t in Tokens(isName, s) ==> Harmless(t) {
      HarmlessRendered(isName, s, count);
    } else {
      var t :| t in Tokens(isName, s) && !Harmless(t);
      RefsKept(Tokens(isName, s), t, count);
      PiecesCanonical(s);
      NoneLeft(Pieces(s), count);
    }
  }

  lemma NothingReplaced(s: string, c: char, name: string)
    requires '@' !in s
    ensures Replace(s, c, name) == s
  {
    ReplaceSkips(s, [], c, name);
    assert s + [] == s;
  }

  lemma OneName(isName: Alphabet, s: string)
    requires s != [] && forall i :: 0 <= i < |s| ==> isName(s[i])
    ensures Tokens(isName, s) == [Name(s)]
  {
    hide NameLength;
    var n := NameLength(isName, s);
    assert s[..n] == s && s[n..] == [];
  }

  lemma MinusOne()
    ensures AnonLabel(-1) == ".-1"
  {
    assert Decimal(1) == "1";
  }

  /** A name with '@b' in the middle is torn apart. */
  lemma NameTornApart()
    ensures ConvertAnonymousLabels("foo@bar", -1) == "foo.-1ar"
    ensures ByToken(Tokens(ScriptName, "foo@bar"), -1) == "foo@bar"
  {
    hide Replace, AnonLabel, Tokens, ByToken;
    var s := "foo@bar";
    OneName(ScriptName, s);
    ByTokenNext(Name(s), [], -1);
    assert [Name(s)] + [] == [Name(s)];
    NoTokens(-1);
    MinusOne();
    TornApart(".-1", AnonLabel(0));
  }

  lemma NoTokens(count: int)
    ensures ByToken([], count) == []
  {
  }

  lemma TornApart(back: string, ahead: string)
    requires '@' !in back
    ensures Replace(Replace(Replace(Replace("foo@bar", 'b', back), 'B', back), 'f', ahead), 'F', ahead) == "foo" + back + "ar"
  {
    hide Replace;
    var t := "foo" + back + "ar";
    assert "foo@bar" == "foo" + (['@', 'b'] + "ar");
    ReplaceSkips("foo", ['@', 'b'] + "ar", 'b', back);
    ReplaceRef('b', "ar", 'b', back);
    NothingReplaced("ar", 'b', back);
    assert "foo" + (back + "ar") == t;
    NothingReplaced(t, 'B', back);
    NothingReplaced(t, 'f', ahead);
    NothingReplaced(t, 'F', ahead);
  }

  // ------------------------------------------------ whole programs

  /** A line of the source without indentation, comment and line end. `special` is what
      another branch of TranslateAsm puts out for it (PROC, EQU, MACRO, an include, a
      directive that is dropped), None if it goes through the common conversions. `opens`
      says whether the line defines an ordinary label. */
  datatype Line = Line(text: string, special: Option<seq<string>>, opens: bool)

  /** The test of the script: nothing but the label on the line. */
  predicate IsLabel(l: Line) { l.text == "@@:" }

  /** MASM also allows code behind the label. */
  predicate IsMasmLabel(l: Line) { "@@:" <= l.text }

  predicate IsConverted(l: Line) { !IsLabel(l) && l.special.None? }

  predicate Opens(l: Line) { !IsLabel(l) && l.opens }

  /** The number of labels the script has seen in the first `i` lines. */
  function Before(lines: seq<Line>, i: nat): nat
    requires i <= |lines|
  {
    if i == 0 then 0 else Before(lines, i - 1) + if IsLabel(lines[i - 1]) then 1 else 0
  }

  /** What line `i` puts out. */
  function Emitted(lines: seq<Line>, i: nat): seq<string>
    requires i < |lines|
  {
    var l := lines[i];
    if IsLabel(l) then [AnonLabel(Before(lines, i)) + [':']]
    else if l.special.Some? then l.special.value
    else [ConvertAnonymousLabels(l.text, Before(lines, i) - 1)]
  }

  function AllEmitted(lines: seq<Line>, n: nat): seq<string>
    requires n <= |lines|
  {
    if n == 0 then [] else AllEmitted(lines, n - 1) + Emitted(lines, n - 1)
  }

  /** Convert and the label branch of TranslateAsm. */
  class AsmConverter {
    var anonLabelCount: int
    var output: seq<string>

    constructor ()
      ensures anonLabelCount == -1 && output == []
    {
      anonLabelCount, output := -1, [];
    }

    method TranslateAsm(line: Line)
      modifies this
      ensures anonLabelCount == old(anonLabelCount) + if IsLabel(line) then 1 else 0
      ensures output == old(output) +
                        if IsLabel(line) then [AnonLabel(anonLabelCount) + [':']]
                        else if line.special.Some? then line.special.value
                        else [ConvertAnonymousLabels(line.text, anonLabelCount)]
    {
      if line.text == "@@:" {
        anonLabelCount := anonLabelCount + 1;
        output := output + [AnonLabel(anonLabelCount) + [':']];
      } else if line.special.Some? {
        output := output + line.special.value;
      } else {
        output := output + [ConvertAnonymousLabels(line.text, anonLabelCount)];
      }
    }

    method Convert(lines: seq<Line>)
      modifies this
      ensures output == AllEmitted(lines, |lines|)
    {
      hide AnonLabel, ConvertAnonymousLabels, IsLabel;
      anonLabelCount := -1;
      output := [];
      for n := 0 to |lines|
        invariant anonLabelCount == Before(lines, n) - 1 && output == AllEmitted(lines, n)
      {
        TranslateAsm(lines[n]);
      }
    }
  }

  // ------------------------------------------------ what the references mean

  predicate IsBack(letter: char) { letter == 'b' || letter == 'B' }

  /** Line `k` lies between a reference in line `i` and line `j`. A label with code behind
      it comes before that code, so for '@b' the line of the reference counts as above. */
  predicate Between(i: nat, letter: char, j: nat, k: nat) {
    if IsBack(letter) then j < k <= i else i < k < j
  }

  predicate OnItsSide(i: nat, letter: char, j: nat) {
    if IsBack(letter) then j <= i else i < j
  }

  /** MASM: '@b' means the nearest '@@:' above, '@f' the nearest below. */
  predicate MasmTarget(lines: seq<Line>, i: nat, letter: char, j: nat)
    requires i < |lines|
  {
    && j < |lines| && OnItsSide(i, letter, j) && IsMasmLabel(lines[j])
    && forall k :: 0 <= k < |lines| && Between(i, letter, j, k) ==> !IsMasmLabel(lines[k])
  }

  /** The nearest label of those the script takes for one. */
  predicate ScriptTarget(lines: seq<Line>, i: nat, letter: char, j: nat)
    requires i < |lines|
  {
    && j < |lines| && OnItsSide(i, letter, j) && IsLabel(lines[j])
    && forall k :: 0 <= k < |lines| && Between(i, letter, j, k) ==> !IsLabel(lines[k])
  }

  /** A label with code behind it lies between the reference and line `j`. */
  predicate CodedBetween(lines: seq<Line>, i: nat, letter: char, j: nat) {
    exists k :: 0 <= k < |lines| && Between(i, letter, j, k) && IsMasmLabel(lines[k]) && !IsLabel(lines[k])
  }

  /** The number of ordinary labels up to and including line `i`. */
  function Scope(lines: seq<Line>, i: nat): nat
    requires i < |lines|
  {
    (if i == 0 then 0 else Scope(lines, i - 1)) + if Opens(lines[i]) then 1 else 0
  }

  /** Line `j` puts out a definition of `name`, with or without code behind it. */
  predicate DefinesAt(lines: seq<Line>, j: nat, name: string) {
    j < |lines| && exists e :: e in Emitted(lines, j) && name + [':'] <= e
  }

  /** NASM: a name that begins with a period belongs to the ordinary label above it, so
      a reference finds a definition only under the same ordinary label. */
  predicate NasmTarget(lines: seq<Line>, i: nat, name: string, j: nat)
    requires i < |lines|
  {
    DefinesAt(lines, j, name) && Scope(lines, i) == Scope(lines, j)
  }

  /** The label that stands for a reference in line `i`. */
  function NameFor(lines: seq<Line>, i: nat, letter: char): string
    requires i < |lines|
  {
    LabelFor(letter, Before(lines, i) - 1)
  }

  /** No other line of the program puts out what looks like a generated label. */
  ghost predicate NoClash(lines: seq<Line>) {
    forall j, n :: 0 <= j < |lines| && !IsLabel(lines[j]) ==> !DefinesAt(lines, j, AnonLabel(n))
  }

  lemma {:induction false} BeforeGrows(lines: seq<Line>, i: nat, j: nat)
    requires i <= j <= |lines|
    ensures Before(lines, i) <= Before(lines, j)
    ensures Before(lines, i) == Before(lines, j) <==> forall k :: i <= k < j ==> !IsLabel(lines[k])
  {
    hide IsLabel;
    if i < j {
      BeforeGrows(lines, i, j - 1);
    }
  }

  lemma SameLabel(u: string, v: string)
    requires ':' !in u && v + [':'] <= u + [':']
    ensures u == v
  {
    var s, t := u + [':'], v + [':'];
    assert t[|v|] == s[|v|] == ':';
    assert forall i :: 0 <= i < |u| ==> s[i] == u[i] && u[i] in u;
    assert |v| == |u|;
    assert u == s[..|u|] && v == t[..|v|];
  }

  lemma Defines(lines: seq<Line>, j: nat, n: int)
    requires j < |lines| && NoClash(lines)
    ensures DefinesAt(lines, j, AnonLabel(n)) <==> IsLabel(lines[j]) && Before(lines, j) == n
  {
    hide AnonLabel, ConvertAnonymousLabels, IsLabel;
    if IsLabel(lines[j]) {
      var u, v := AnonLabel(Before(lines, j)), AnonLabel(n);
      assert u + [':'] in Emitted(lines, j);
      if DefinesAt(lines, j, v) {
        SameLabel(u, v);
        LabelInjective(Before(lines, j), n);
      }
    }
  }

  lemma {:induction false} LabelLine(lines: seq<Line>, i: nat, n: nat) returns (j: nat)
    requires i <= |lines| && n < Before(lines, i)
    ensures j < i && IsLabel(lines[j]) && Before(lines, j) == n
    decreases i
  {
    hide IsLabel;
    if IsLabel(lines[i - 1]) && Before(lines, i - 1) == n {
      j := i - 1;
    } else {
      j := LabelLine(lines, i - 1, n);
    }
  }

  /** Exactly the labels numbered from zero up to the number of '@@:' lines are defined,
      each by one line. */
  lemma DefinedOnce(lines: seq<Line>, n: int)
    requires NoClash(lines)
    ensures (exists j :: DefinesAt(lines, j, AnonLabel(n))) <==> 0 <= n < Before(lines, |lines|)
    ensures forall j, k :: DefinesAt(lines, j, AnonLabel(n)) && DefinesAt(lines, k, AnonLabel(n)) ==> j == k
  {
    hide Emitted, AnonLabel, NoClash, IsLabel;
    forall j: nat | DefinesAt(lines, j, AnonLabel(n))
      ensures IsLabel(lines[j]) && Before(lines, j) == n < Before(lines, |lines|)
    {
      Defines(lines, j, n);
      BeforeGrows(lines, j + 1, |lines|);
    }
    forall j: nat, k: nat | DefinesAt(lines, j, AnonLabel(n)) && DefinesAt(lines, k, AnonLabel(n))
      ensures j == k
    {
      if j < k {
        BeforeGrows(lines, j, k);
      } else if k < j {
        BeforeGrows(lines, k, j);
      }
    }
    if 0 <= n < Before(lines, |lines|) {
      var j := LabelLine(lines, |lines|, n);
      Defines(lines, j, n);
    }
  }

  lemma NumberedTarget(lines: seq<Line>, i: nat, letter: char, j: nat)
    requires i < |lines| && IsConverted(lines[i])
    ensures ScriptTarget(lines, i, letter, j) <==>
            && j < |lines| && IsLabel(lines[j])
            && Before(lines, j) == Before(lines, i) - if IsBack(letter) then 1 else 0
  {
    assert !IsLabel(lines[i]);
    hide IsLabel;
    if j < |lines| && IsLabel(lines[j]) {
      if j < i {
        BeforeGrows(lines, j + 1, i);
      } else {
        BeforeGrows(lines, i, j);
      }
    }
  }

  /** What a converted reference finds: the nearest label the script has seen, provided no
      ordinary label stands between, and nothing otherwise. */
  lemma FoundExactly(lines: seq<Line>, i: nat, letter: char, j: nat)
    requires NoClash(lines) && i < |lines| && IsConverted(lines[i]) && IsRefLetter(letter)
    ensures NasmTarget(lines, i, NameFor(lines, i, letter), j) <==>
            ScriptTarget(lines, i, letter, j) && Scope(lines, i) == Scope(lines, j)
  {
    hide Emitted, AnonLabel, NoClash, ScriptTarget, Scope, DefinesAt, IsConverted, IsLabel;
    var count := Before(lines, i) - 1;
    NumberedTarget(lines, i, letter, j);
    var n := if IsBack(letter) then count else count + 1;
    if j < |lines| {
      Defines(lines, j, n);
    } else {
      NothingPastTheEnd(lines, j, AnonLabel(n));
    }
  }

  lemma NothingPastTheEnd(lines: seq<Line>, j: nat, name: string)
    ensures DefinesAt(lines, j, name) ==> j < |lines|
  {
  }

  /** A reference finds the line MASM means exactly if that line is '@@:' alone and no
      ordinary label stands between. What it finds is the line MASM means exactly if no
      label with code behind it stands between. */
  lemma TargetsPreserved(lines: seq<Line>, i: nat, letter: char, j: nat)
    requires NoClash(lines) && i < |lines| && IsConverted(lines[i]) && IsRefLetter(letter)
    ensures MasmTarget(lines, i, letter, j) ==>
              (NasmTarget(lines, i, NameFor(lines, i, letter), j) <==> IsLabel(lines[j]) && Scope(lines, i) == Scope(lines, j))
    ensures NasmTarget(lines, i, NameFor(lines, i, letter), j) ==>
              (MasmTarget(lines, i, letter, j) <==> !CodedBetween(lines, i, letter, j))
  {
    hide NasmTarget, NoClash, Scope, IsConverted, NameFor, Between;
    FoundExactly(lines, i, letter, j);
    LabelsAreMasmLabels(lines);
    hide IsLabel, IsMasmLabel;
  }

  lemma LabelsAreMasmLabels(lines: seq<Line>)
    ensures forall k :: 0 <= k < |lines| && IsLabel(lines[k]) ==> IsMasmLabel(lines[k])
  {
  }

  lemma {:induction false} NearestLabel(lines: seq<Line>, i: nat, letter: char, j: nat) returns (m: nat)
    requires i < |lines| && j < |lines| && OnItsSide(i, letter, j) && IsMasmLabel(lines[j])
    ensures MasmTarget(lines, i, letter, m) && (m == j || Between(i, letter, j, m))
    decreases if IsBack(letter) then i - j else j - i
  {
    hide IsMasmLabel;
    if k :| 0 <= k < |lines| && Between(i, letter, j, k) && IsMasmLabel(lines[k]) {
      m := NearestLabel(lines, i, letter, k);
    } else {
      m := j;
    }
  }

  /** A reference means in NASM what it meant in MASM, no more and no less, exactly if the
      line it meant, should there be one, is '@@:' alone and under the same ordinary label. */
  lemma KeptExactly(lines: seq<Line>, i: nat, letter: char)
    requires NoClash(lines) && i < |lines| && IsConverted(lines[i]) && IsRefLetter(letter)
    ensures (forall j: nat :: NasmTarget(lines, i, NameFor(lines, i, letter), j) <==> MasmTarget(lines, i, letter, j)) <==>
            (forall j: nat :: MasmTarget(lines, i, letter, j) ==> IsLabel(lines[j]) && Scope(lines, i) == Scope(lines, j))
  {
    hide NasmTarget, NoClash, Scope, IsConverted, NameFor, CodedBetween, IsLabel, IsMasmLabel;
    forall j: nat
      ensures MasmTarget(lines, i, letter, j) ==>
                (NasmTarget(lines, i, NameFor(lines, i, letter), j) <==> IsLabel(lines[j]) && Scope(lines, i) == Scope(lines, j))
    {
      TargetsPreserved(lines, i, letter, j);
    }
    if forall j: nat :: MasmTarget(lines, i, letter, j) ==> IsLabel(lines[j]) && Scope(lines, i) == Scope(lines, j) {
      forall j: nat | NasmTarget(lines, i, NameFor(lines, i, letter), j)
        ensures MasmTarget(lines, i, letter, j)
      {
        FoundExactly(lines, i, letter, j);
        LabelsAreMasmLabels(lines);
        var m := NearestLabel(lines, i, letter, j);
        assert IsLabel(lines[m]);
      }
    }
  }

  /** The same ordinary label governs two lines exactly when none stands between them. */
  lemma {:induction false} SameScope(lines: seq<Line>, i: nat, j: nat)
    requires i <= j < |lines|
    ensures Scope(lines, i) <= Scope(lines, j)
    ensures Scope(lines, i) == Scope(lines, j) <==> forall k :: i < k <= j ==> !Opens(lines[k])
  {
    hide Opens;
    if i < j {
      SameScope(lines, i, j - 1);
    }
  }

  lemma OtherText(l: Line)
    requires l.text != [] && l.text[0] != '@'
    ensures !IsMasmLabel(l) && !IsLabel(l)
  {
  }

  lemma LabelAndCode(l: Line, code: string)
    requires l.text == "@@:" + code && code != []
    ensures IsMasmLabel(l) && !IsLabel(l)
  {
  }

  /** A jump over a procedure start loses its target. */
  lemma JumpIntoProcedure()
    ensures var lines := [Line("jmp @f", None, false),
                          Line("foo PROC", Some(["global ASM_PFX(foo)", "ASM_PFX(foo):"]), true),
                          Line("@@:", None, false)];
            MasmTarget(lines, 0, 'f', 2) && !NasmTarget(lines, 0, NameFor(lines, 0, 'f'), 2)
  {
    var lines := [Line("jmp @f", None, false),
                  Line("foo PROC", Some(["global ASM_PFX(foo)", "ASM_PFX(foo):"]), true),
                  Line("@@:", None, false)];
    OtherText(lines[0]);
    OtherText(lines[1]);
    assert Scope(lines, 0) == 0 && Scope(lines, 1) == 1 && Scope(lines, 2) == 1;
  }

  lemma Unchanged(s: string, count: int)
    requires NoRefs(s)
    ensures ConvertAnonymousLabels(s, count) == s
  {
    hide ConvertAnonymousLabels, NoRefs;
    LineConverted(s, count);
    NothingToReplace(s, REF_LETTERS, count);
  }

  /** '@@:', then a label with code behind it, then a jump back: MASM means the second. */
  lemma WrongLabel(a: Line, b: Line, c: Line)
    requires IsLabel(a) && IsMasmLabel(b) && !IsLabel(b) && !IsMasmLabel(c) && !IsLabel(c) && !Opens(b) && !Opens(c)
    ensures var lines := [a, b, c];
            && MasmTarget(lines, 2, 'b', 1) && !MasmTarget(lines, 2, 'b', 0)
            && Before(lines, 1) == 1 && NasmTarget(lines, 2, NameFor(lines, 2, 'b'), 0)
  {
    assert !Opens(a);
    hide AnonLabel, IsLabel, IsMasmLabel, Opens;
    var lines := [a, b, c];
    assert Before(lines, 0) == 0 && Before(lines, 1) == 1 && Before(lines, 2) == 1;
    assert Scope(lines, 0) == 0 && Scope(lines, 1) == 0 && Scope(lines, 2) == 0;
    assert Between(2, 'b', 0, 1);
    assert AnonLabel(0) + [':'] in Emitted(lines, 0);
  }

  /** A label with code behind it goes out as it came in and is not counted, and a jump
      back to it lands on the label above. */
  lemma CodeBehindLabel()
    ensures var lines := [Line("@@:", None, false), Line("@@: dec ecx", None, false), Line("jnz @b", None, false)];
            && MasmTarget(lines, 2, 'b', 1) && Emitted(lines, 1) == ["@@: dec ecx"]
            && NasmTarget(lines, 2, NameFor(lines, 2, 'b'), 0) && !MasmTarget(lines, 2, 'b', 0)
  {
    var a, b, c := Line("@@:", None, false), Line("@@: dec ecx", None, false), Line("jnz @b", None, false);
    OtherText(c);
    LabelAndCode(b, " dec ecx");
    Unchanged("@@: dec ecx", 0);
    assert IsLabel(a);
    hide AnonLabel, ConvertAnonymousLabels, IsMasmLabel, IsLabel, MasmTarget, NasmTarget, NameFor, Before;
    WrongLabel(a, b, c);
  }
}
