/** Bytes on the debug wire, hexadecimal digits and the numeric parser of BaseLib. */
module Bytes {

  type byte = b: int | 0 <= b < 256

  const NUL: byte := 0x00
  const TAB: byte := 0x09
  const LF: byte := 0x0a
  const CR: byte := 0x0d
  const SPACE: byte := 0x20
  const HASH: byte := 0x23
  const DOLLAR: byte := 0x24
  const STAR: byte := 0x2a
  const PLUS: byte := 0x2b
  const COMMA: byte := 0x2c
  const MINUS: byte := 0x2d
  const ZERO: byte := 0x30
  const COLON: byte := 0x3a
  const UPPER_C: byte := 0x43
  const UPPER_E: byte := 0x45
  const UPPER_F: byte := 0x46
  const UPPER_X: byte := 0x58
  const LOWER_X: byte := 0x78
  const BRACE: byte := 0x7d

  const CRLF: seq<byte> := [CR, LF]

  const MAX_UINTN: nat := 0xFFFF_FFFF_FFFF_FFFF

  /** The bytes of an ASCII text. */
  function Ascii(s: string): (r: seq<byte>)
    ensures |r| == |s|
  {
    seq(|s|, i requires 0 <= i < |s| => (s[i] as int) % 256)
  }

  /** The text of a NUL-terminated buffer: everything before the first NUL. */
  function CStr(s: seq<byte>): (r: seq<byte>)
    ensures |r| <= |s| && r == s[..|r|]
    ensures NUL !in r
    ensures |r| < |s| ==> s[|r|] == NUL
  {
    if s == [] || s[0] == NUL then [] else [s[0]] + CStr(s[1..])
  }

  /** Addition of UINT8. */
  function Add8(a: byte, b: byte): byte { if a + b < 256 then a + b else a + b - 256 }

  /** The UINT8 accumulator that both ends of the link keep over a payload. */
  function Sum(s: seq<byte>): byte {
    if s == [] then 0 else Add8(Sum(s[..|s| - 1]), s[|s| - 1])
  }

  /** The table mHexToStr. */
  function HexUpper(n: nat): (c: byte)
    requires n < 16
    ensures HexValue(c) == n
  {
    if n < 10 then 0x30 + n else 0x37 + n
  }

  predicate IsHex(c: byte) {
    0x30 <= c <= 0x39 || 0x41 <= c <= 0x46 || 0x61 <= c <= 0x66
  }

  /** The value of a hexadecimal digit of either case, and -1 for any other character. */
  function HexValue(c: byte): (v: int)
    ensures -1 <= v < 16
    ensures v == -1 <==> !IsHex(c)
  {
    if 0x41 <= c <= 0x46 then c - 0x41 + 10
    else if 0x61 <= c <= 0x66 then c - 0x61 + 10
    else if 0x30 <= c <= 0x39 then c - 0x30
    else -1
  }

  /** How many leading characters of `s` are in `cs`. */
  function Leading(s: seq<byte>, cs: set<byte>): (n: nat)
    ensures n <= |s|
    ensures forall i :: 0 <= i < n ==> s[i] in cs
    ensures n < |s| ==> s[n] !in cs
  {
    if s == [] || s[0] !in cs then 0 else 1 + Leading(s[1..], cs)
  }

  function HexDigits(s: seq<byte>, acc: nat): (n: nat)
    requires acc <= MAX_UINTN
    ensures n <= MAX_UINTN
  {
    if s == [] || !IsHex(s[0]) then acc
    else if acc > (MAX_UINTN - HexValue(s[0])) / 16 then MAX_UINTN
    else HexDigits(s[1..], acc * 16 + HexValue(s[0]))
  }

  /** AsciiStrHexToUintn: blanks, zeros, an optional x that must follow a zero, then
      digits. A string that starts with x makes the code look at the character in
      front of it, so that character is a parameter. */
  function HexToUintn(before: byte, s: seq<byte>): (n: nat)
    ensures n <= MAX_UINTN
  {
    var i := Leading(s, {SPACE, TAB});
    var j := i + Leading(s[i..], {ZERO});
    if j < |s| && (s[j] == UPPER_X || s[j] == LOWER_X) then
      if (if j == 0 then before else s[j - 1]) != ZERO then 0 else HexDigits(s[j + 1..], 0)
    else
      HexDigits(s[j..], 0)
  }

  lemma NextDigit(d: byte, rest: seq<byte>, acc: nat)
    requires IsHex(d) && acc < 16
    ensures HexDigits([d] + rest, acc) == HexDigits(rest, acc * 16 + HexValue(d))
  {
    assert ([d] + rest)[1..] == rest;
  }

  lemma TwoDigitsScanned(h: byte, l: byte)
    requires IsHex(h) && IsHex(l)
    ensures HexDigits([h, l], 0) == 16 * HexValue(h) + HexValue(l)
    ensures HexDigits([l], 0) == HexValue(l)
  {
    NextDigit(h, [l], 0);
    NextDigit(l, [], HexValue(h));
    NextDigit(l, [], 0);
    assert [h] + [l] == [h, l] && [l] + [] == [l];
  }

  /** Two hexadecimal digits parse to their value whatever stands in front of them. */
  lemma TwoDigits(before: byte, h: byte, l: byte)
    requires IsHex(h) && IsHex(l)
    ensures HexToUintn(before, [h, l]) == 16 * HexValue(h) + HexValue(l)
  {
    var s := [h, l];
    var j := Leading(s, {ZERO});
    assert Leading(s, {SPACE, TAB}) == 0 && s[0..] == s;
    assert HexToUintn(before, s) == HexDigits(s[j..], 0);
    TwoDigitsScanned(h, l);
    if j == 1 {
      assert s[j..] == [l];
    } else if j == 2 {
      assert s[0] == s[1] == ZERO;
      assert s[j..] == [];
    }
  }

  /** The sixteen digits of either case, in the order of the table mHexToStr. */
  lemma DigitTable(n: nat)
    requires n < 16
    ensures HexUpper(n) == Ascii("0123456789ABCDEF")[n]
    ensures HexValue(Ascii("0123456789ABCDEF")[n]) == n && HexValue(Ascii("0123456789abcdef")[n]) == n
  {
    var upper, lower := "0123456789ABCDEF", "0123456789abcdef";
    assert upper[n] as int == if n < 10 then 0x30 + n else 0x37 + n;
    assert lower[n] as int == if n < 10 then 0x30 + n else 0x57 + n;
  }

  /** The checksum of a text is the sum of its bytes, modulo 256. */
  lemma {:induction false} SumAppend(u: seq<byte>, v: seq<byte>)
    ensures Sum(u + v) == Add8(Sum(u), Sum(v))
    decreases |v|
  {
    hide Sum, Add8;
    if v == [] {
      assert u + v == u;
      SumNone();
      Regroup(Sum(u), 0, 0);
    } else {
      var v', c := v[..|v| - 1], v[|v| - 1];
      SumAppend(u, v');
      Regroup(Sum(u), Sum(v'), c);
      SumLast(u + v', c);
      SumLast(v', c);
      assert u + v == u + v' + [c] && v == v' + [c];
    }
  }

  lemma Regroup(a: byte, b: byte, c: byte)
    ensures Add8(Add8(a, b), c) == Add8(a, Add8(b, c)) && Add8(a, 0) == a
  {
  }

  lemma SumNone()
    ensures Sum([]) == 0
  {
  }

  lemma SumLast(s: seq<byte>, c: byte)
    ensures Sum(s + [c]) == Add8(Sum(s), c)
  {
    hide Add8;
    assert (s + [c])[..|s + [c]| - 1] == s;
  }

  lemma SumOne(c: byte)
    ensures Sum([c]) == c
  {
    assert [c][..0] == [];
  }

  lemma {:induction false} LeadingIs(u: seq<byte>, v: seq<byte>, cs: set<byte>)
    requires (forall c :: c in u ==> c in cs) && (v == [] || v[0] !in cs)
    ensures Leading(u + v, cs) == |u|
  {
    if u == [] {
      assert u + v == v;
    } else {
      assert (u + v)[1..] == u[1..] + v && u[0] in u;
      LeadingIs(u[1..], v, cs);
    }
  }

  predicate IsX(c: byte) { c == UPPER_X || c == LOWER_X }

  /** Blanks and then zeros are skipped. An x counts as a prefix if a zero precedes it,
      even one that lies before the string; any other x makes the number zero. */
  lemma PrefixSkipped(before: byte, blanks: seq<byte>, zeros: seq<byte>, t: seq<byte>)
    requires (forall c :: c in blanks ==> c == SPACE || c == TAB) && (forall c :: c in zeros ==> c == ZERO)
    requires t != [] ==> t[0] != ZERO && (zeros == [] ==> t[0] != SPACE && t[0] != TAB)
    ensures HexToUintn(before, blanks + zeros + t) ==
            if t == [] || !IsX(t[0]) then HexDigits(t, 0)
            else if zeros != [] || (blanks == [] && before == ZERO) then HexDigits(t[1..], 0)
            else 0
  {
    hide Leading, HexDigits, HexToUintn;
    var s, i, j := blanks + zeros + t, |blanks|, |blanks| + |zeros|;
    ThreeParts(blanks, zeros, t);
    assert zeros != [] ==> zeros[0] in zeros;
    LeadingIs(blanks, zeros + t, {SPACE, TAB});
    LeadingIs(zeros, t, {ZERO});
    ScanFrom(before, s, i, j);
  }

  lemma ThreeParts(u: seq<byte>, v: seq<byte>, t: seq<byte>)
    ensures var s, i, j := u + v + t, |u|, |u| + |v|;
            && s == u + (v + t) && s[i..] == v + t && s[j..] == t
            && (t != [] ==> s[j] == t[0] && s[j + 1..] == t[1..])
            && (v != [] ==> s[j - 1] == v[|v| - 1] && v[|v| - 1] in v)
            && (v == [] && u != [] ==> s[j - 1] == u[|u| - 1] && u[|u| - 1] in u)
  {
  }

  lemma ScanFrom(before: byte, s: seq<byte>, i: nat, j: nat)
    requires i == Leading(s, {SPACE, TAB}) && j == i + Leading(s[i..], {ZERO})
    ensures HexToUintn(before, s) ==
            if j < |s| && IsX(s[j]) then
              if (if j == 0 then before else s[j - 1]) != ZERO then 0 else HexDigits(s[j + 1..], 0)
            else HexDigits(s[j..], 0)
  {
    hide Leading, HexDigits;
  }
}
