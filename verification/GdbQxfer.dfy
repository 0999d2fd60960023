/** The qXfer:libraries:read session: the debug image table as an XML document, handed
    out one chunk per request from globals that remember where the reader stands. */
module GdbQxfer {
  import opened Options
  import opened Bytes
  import opened GdbPacket
  import opened GdbTranscript
  import GdbMemory

  const GDB_EINVALIDARG: byte := 31
  const XFER_BUFFER_SIZE := 2000
  const LOWER_L: byte := 0x6c
  const LOWER_M: byte := 0x6d

  // ------------------------------------------------ binary escaping

  predicate NeedsEscape(c: byte) {
    c == BRACE || c == HASH || c == DOLLAR || c == STAR
  }

  /** Exclusive or with 0x20. */
  function Flip(c: byte): byte {
    if (c / 32) % 2 == 1 then c - 32 else c + 32
  }

  function EscapeOne(c: byte): seq<byte> {
    if NeedsEscape(c) then [BRACE, Flip(c)] else [c]
  }

  function Escape(s: seq<byte>): seq<byte> {
    if s == [] then [] else EscapeOne(s[0]) + Escape(s[1..])
  }

  /** Exclusive or, bit by bit. */
  function Xor(a: nat, b: nat): nat
    decreases a + b
  {
    if a == 0 && b == 0 then 0 else 2 * Xor(a / 2, b / 2) + if a % 2 == b % 2 then 0 else 1
  }

  lemma {:induction false} XorZero(a: nat)
    ensures Xor(a, 0) == a
  {
    if a > 0 {
      XorZero(a / 2);
    }
  }

  lemma XorEven(m: nat, j: nat, b: nat)
    requires j < 2
    ensures Xor(2 * m + j, 2 * b) == 2 * Xor(m, b) + j
  {
  }

  lemma XorTwo(m: nat, r: nat, b: nat)
    requires r < 4
    ensures Xor(4 * m + r, 4 * b) == 4 * Xor(m, b) + r
  {
    hide Xor;
    XorEven(2 * m + r / 2, r % 2, 2 * b);
    XorEven(m, r / 2, b);
  }

  lemma XorFive(m: nat, r: nat)
    requires r < 32
    ensures Xor(32 * m + r, 32) == 32 * Xor(m, 1) + r
  {
    hide Xor;
    var r1 := r / 4;
    XorTwo(8 * m + r1, r % 4, 8);
    XorTwo(2 * m + r1 / 4, r1 % 4, 2);
    XorEven(m, r1 / 4, 1);
  }

  lemma XorOne(m: nat)
    ensures Xor(m, 1) == if m % 2 == 1 then m - 1 else m + 1
  {
    XorZero(m / 2);
  }

  lemma FlipIsXor(c: byte)
    ensures Xor(c, 0x20) == Flip(c)
  {
    hide Xor;
    XorFive(c / 32, c % 32);
    XorOne(c / 32);
  }

  /** What the debugger makes of the character behind a '}': by the remote serial protocol
      that is the original character exclusive or 0x20. */
  function Original(e: byte): byte {
    FlipIsXor(e);
    Xor(e, 0x20)
  }

  /** What the debugger makes of escaped text. */
  function Unescape(t: seq<byte>): seq<byte> {
    if t == [] then []
    else if t[0] == BRACE && |t| > 1 then [Original(t[1])] + Unescape(t[2..])
    else [t[0]] + Unescape(t[1..])
  }

  /** The four characters on the wire, and every other as it is. */
  lemma EscapedValues(c: byte)
    ensures EscapeOne(0x24) == [0x7d, 0x04] && EscapeOne(0x23) == [0x7d, 0x03]
    ensures EscapeOne(0x2a) == [0x7d, 0x0a] && EscapeOne(0x7d) == [0x7d, 0x5d]
    ensures c !in {0x23, 0x24, 0x2a, 0x7d} ==> EscapeOne(c) == [c]
  {
  }

  lemma {:induction false} EscapeAppend(u: seq<byte>, v: seq<byte>)
    ensures Escape(u + v) == Escape(u) + Escape(v)
  {
    if u == [] {
      assert u + v == v;
    } else {
      assert (u + v)[1..] == u[1..] + v;
      EscapeAppend(u[1..], v);
    }
  }

  lemma FlipTwice(c: byte)
    ensures Original(Flip(c)) == c
  {
    hide Xor;
    FlipIsXor(Flip(c));
  }

  /** Unescaping undoes escaping, for every text. */
  lemma {:induction false} UnescapeEscape(s: seq<byte>)
    ensures Unescape(Escape(s)) == s
  {
    if s != [] {
      var rest := Escape(s[1..]);
      UnescapeEscape(s[1..]);
      FlipTwice(s[0]);
      hide Flip, Original;
      var t := EscapeOne(s[0]) + rest;
      assert if NeedsEscape(s[0]) then t[2..] == rest else t[1..] == rest;
    }
  }

  /** Escaped text has no '$', no '#', no '*', and no NUL unless there was one. */
  lemma {:induction false} EscapedIsPlain(s: seq<byte>)
    ensures Plain(Escape(s)) && STAR !in Escape(s)
    ensures NUL !in s ==> NUL !in Escape(s)
  {
    if s != [] {
      EscapedIsPlain(s[1..]);
    }
  }

  /** Escaped text that fits the buffer survives the frame of SendPacket: the debugger
      that unescapes what it receives gets the text back. */
  lemma EscapedSurvives(size: nat, before: byte, s: seq<byte>)
    requires |Escape(s)| + 2 <= size
    ensures var st := After(size, ChecksumOk(before), Hunting, Frame(Escape(s)));
            st.Delivered? && Unescape(st.data) == s
  {
    hide Escape, Unescape, After, Frame;
    EscapedIsPlain(s);
    UnescapeEscape(s);
    FrameSurvives(size, before, Escape(s));
  }

  /** A text without NUL whose escaped form fits the output buffer. */
  predicate FitsOut(text: seq<byte>) {
    NUL !in text && |Escape(text)| < GdbMemory.MAX_BUF_SIZE
  }

  /** gXferObjectReadResponse leaves the escaped text in `outBuffer`. The type byte it
      stores first is overwritten, so it is not part of the reply, but it is counted. */
  method XferObjectReadResponse(kind: byte, str: seq<byte>, outBuffer: array<byte>) returns (count: nat)
    requires FitsOut(str) && outBuffer.Length == GdbMemory.MAX_BUF_SIZE
    modifies outBuffer
    ensures count == 1 + |str|
    ensures outBuffer[|Escape(str)|] == NUL && outBuffer[..|Escape(str)|] == Escape(str)
    ensures CStr(outBuffer[..]) == Escape(str)
  {
    hide Escape, CStr;
    var out := 0;
    outBuffer[out] := kind;
    count := 1;
    assert str[..0] == [];
    EscapeNothing(str[..0]);
    var i := 0;
    while i < |str|
      invariant 0 <= i <= |str| && count == 1 + i
      invariant out == |Escape(str[..i])| && out <= |Escape(str)| && outBuffer[..out] == Escape(str[..i])
    {
      EscapeNext(str, i);
      var c := str[i];
      if NeedsEscape(c) {
        outBuffer[out] := BRACE;
        out := out + 1;
        c := Flip(c);
      }
      outBuffer[out] := c;
      out := out + 1;
      count := count + 1;
      i := i + 1;
    }
    assert str[..i] == str;
    outBuffer[out] := NUL;
    EscapedIsPlain(str);
    TerminatedText(outBuffer[..], out);
  }

  lemma EscapeNothing(s: seq<byte>)
    requires s == []
    ensures Escape(s) == []
  {
  }

  lemma EscapeNext(s: seq<byte>, i: nat)
    requires i < |s|
    ensures Escape(s[..i + 1]) == Escape(s[..i]) + EscapeOne(s[i])
    ensures |Escape(s[..i])| + |EscapeOne(s[i])| <= |Escape(s)|
  {
    assert Escape([s[i]]) == EscapeOne(s[i]) by { assert [s[i]][1..] == []; }
    hide Escape;
    EscapeAppend(s[..i], [s[i]]);
    assert s[..i] + [s[i]] == s[..i + 1];
    EscapeAppend(s[..i + 1], s[i + 1..]);
    assert s[..i + 1] + s[i + 1..] == s;
  }

  lemma {:induction false} TerminatedText(s: seq<byte>, n: nat)
    requires n < |s| && NUL !in s[..n] && s[n] == NUL
    ensures CStr(s) == s[..n]
  {
    if n > 0 {
      assert s[0] == s[..n][0];
      assert s[1..][..n - 1] == s[..n][1..];
      TerminatedText(s[1..], n - 1);
      assert s[..n] == [s[0]] + s[1..][..n - 1];
    }
  }

  // ------------------------------------------------ the table and the document

  const HEADER := Ascii("<library-list>\n")
  const FOOTER := Ascii("</library-list>\n")

  /** What the loop asks of a table entry; `info` is the answer of
      PeCoffLoaderGetDebuggerInfo, with the load address as printed. */
  datatype Entry = Entry(present: bool, normal: bool, loaded: bool, info: Option<(seq<byte>, seq<byte>)>)

  function Line(name: seq<byte>, address: seq<byte>): seq<byte> {
    Ascii("  <library name=\"") + name + Ascii("\"><segment address=\"0x") + address + Ascii("\"/></library>\n")
  }

  /** What AsciiSPrint leaves in a buffer of this size. */
  function Printed(text: seq<byte>): seq<byte> {
    if |text| < XFER_BUFFER_SIZE then text else text[..XFER_BUFFER_SIZE - 1]
  }

  predicate Qualifies(e: Entry) {
    && e.present && e.normal && e.loaded && e.info.Some?
    && var size := |Printed(Line(e.info.value.0, e.info.value.1))|;
       size != 0 && size != XFER_BUFFER_SIZE - 1
  }

  function Text(e: Entry): seq<byte>
    requires Qualifies(e)
  {
    Line(e.info.value.0, e.info.value.1)
  }

  /** The lines of the qualifying entries from the i-th on, in table order. */
  function Lines(table: seq<Entry>, i: nat): seq<seq<byte>>
    requires i <= |table|
    decreases |table| - i
  {
    if i == |table| then []
    else if Qualifies(table[i]) then [Text(table[i])] + Lines(table, i + 1)
    else Lines(table, i + 1)
  }

  /** `table` is None when the header holds no table. */
  function Chunks(table: Option<seq<Entry>>): seq<seq<byte>> {
    [HEADER] + (if table.Some? then Lines(table.value, 0) else []) + [FOOTER]
  }

  function Concat(cs: seq<seq<byte>>): seq<byte> {
    if cs == [] then [] else cs[0] + Concat(cs[1..])
  }

  /** An entry is listed exactly if the four tests hold and its line is shorter than the
      print buffer by two or more: a line that fills it is skipped. */
  lemma QualifiesExactly(e: Entry)
    ensures Qualifies(e) <==>
            && e.present && e.normal && e.loaded && e.info.Some?
            && |Line(e.info.value.0, e.info.value.1)| < 1999
  {
    hide Ascii;
    if e.info.Some? {
      LineNotEmpty(e.info.value.0, e.info.value.1);
    }
    hide Line;
  }

  lemma LineNotEmpty(name: seq<byte>, address: seq<byte>)
    ensures Line(name, address) != []
  {
    assert |Ascii("  <library name=\"")| == 17;
  }

  /** The lines are those of the listed entries, in table order. */
  lemma {:induction false} LinesAppend(table: seq<Entry>, e: Entry, i: nat)
    requires i <= |table|
    ensures Lines(table + [e], i) == Lines(table, i) + if Qualifies(e) then [Text(e)] else []
    decreases |table| - i
  {
    hide Qualifies, Line;
    var all := table + [e];
    if i == |table| {
      assert all[i] == e;
      NoLines(all, i + 1);
    } else {
      LinesAppend(table, e, i + 1);
      assert all[i] == table[i];
    }
  }

  lemma NoLines(table: seq<Entry>, i: nat)
    requires i == |table|
    ensures Lines(table, i) == []
  {
  }

  // ------------------------------------------------ one request

  /** gPacketqXferLibraryOffset, whether gDebugTable is set, and how far both the table
      pointer and gEfiDebugImageTableEntry have come. */
  datatype Session = Session(offset: nat, open: bool, entry: nat)

  datatype Reply = Chunk(text: seq<byte>) | Refused

  datatype Turn = Turn(session: Session, reply: Reply)

  function NextQualifying(table: seq<Entry>, i: nat): (j: nat)
    requires i <= |table|
    ensures i <= j <= |table| && (j < |table| ==> Qualifies(table[j]))
    decreases |table| - i
  {
    if i == |table| || Qualifies(table[i]) then i else NextQualifying(table, i + 1)
  }

  predicate WellFormed(table: Option<seq<Entry>>, s: Session) {
    s.open ==> table.Some? && s.entry <= |table.value|
  }

  function Request(table: Option<seq<Entry>>, s: Session, offset: nat): (t: Turn)
    requires WellFormed(table, s)
    ensures WellFormed(table, t.session)
  {
    if offset != s.offset then Turn(s.(offset := 0), Refused)
    else if offset == 0 then Turn(Session(1 + |HEADER|, table.Some?, 0), Chunk(HEADER))
    else if !s.open then Turn(s.(offset := 0), Chunk(FOOTER))
    else
      var j := NextQualifying(table.value, s.entry);
      if j == |table.value| then Turn(Session(0, true, j), Chunk(FOOTER))
      else Turn(Session(s.offset + 1 + |Text(table.value[j])|, true, j + 1), Chunk(Text(table.value[j])))
  }

  /** The payload that goes out for a reply. */
  function Payload(r: Reply): seq<byte> {
    if r.Chunk? then Escape(r.text) else GdbMemory.Error(GDB_EINVALIDARG)
  }

  /** Every line of the table fits the output buffer. */
  predicate LinesFit(table: Option<seq<Entry>>) {
    table.Some? ==> forall i :: 0 <= i < |table.value| && Qualifies(table.value[i]) ==> FitsOut(Text(table.value[i]))
  }

  lemma {:induction false} EscapeAtMostDoubles(s: seq<byte>)
    ensures |Escape(s)| <= 2 * |s|
  {
    if s != [] {
      EscapeAtMostDoubles(s[1..]);
    }
  }

  lemma {:induction false} AsciiHasNoNul(s: string)
    requires forall i :: 0 <= i < |s| ==> 0 < s[i] as int < 256
    ensures NUL !in Ascii(s)
  {
    assert forall i :: 0 <= i < |s| ==> Ascii(s)[i] == s[i] as int;
  }

  /** Texts of fewer than 1000 characters fit, whatever they hold. */
  lemma ShortFits(text: seq<byte>)
    requires NUL !in text && |text| < 1000
    ensures FitsOut(text)
  {
    hide Escape;
    EscapeAtMostDoubles(text);
  }

  lemma FrameTextsFit()
    ensures FitsOut(HEADER) && FitsOut(FOOTER)
  {
    hide Escape, Ascii;
    AsciiHasNoNul("<library-list>\n");
    AsciiHasNoNul("</library-list>\n");
    EscapeAtMostDoubles(HEADER);
    EscapeAtMostDoubles(FOOTER);
  }

  /** The globals and QxferLibrary. The table does not change during a session. */
  class LibraryReader {
    const table: Option<seq<Entry>>
    const outBuffer: array<byte>
    var offset: nat
    var open: bool
    var entry: nat

    function State(): Session
      reads this
    {
      Session(offset, open, entry)
    }

    ghost predicate Valid() reads this {
      WellFormed(table, State()) && LinesFit(table) && outBuffer.Length == GdbMemory.MAX_BUF_SIZE
    }

    constructor (table: Option<seq<Entry>>)
      requires LinesFit(table)
      ensures Valid() && fresh(outBuffer) && this.table == table && State() == Session(0, false, 0)
    {
      this.table, offset, open, entry := table, 0, false, 0;
      outBuffer := new byte[GdbMemory.MAX_BUF_SIZE];
    }

    /** `payload` is the text SendPacket is given. */
    method QxferLibrary(request: nat) returns (payload: seq<byte>)
      requires Valid()
      modifies this, outBuffer
      ensures Valid() && State() == Request(table, old(State()), request).session
      ensures payload == Payload(Request(table, old(State()), request).reply)
    {
      hide Line, Ascii, Escape, CStr, FitsOut;
      FrameTextsFit();
      if request != offset {
        offset := 0;
        return GdbMemory.Error(GDB_EINVALIDARG);
      }
      if request == 0 {
        var count := XferObjectReadResponse(LOWER_M, HEADER, outBuffer);
        offset := offset + count;
        open, entry := table.Some?, 0;
        return CStr(outBuffer[..]);
      }
      if open {
        while entry < |table.value|
          invariant offset == old(offset) && open && entry <= |table.value|
          invariant NextQualifying(table.value, entry) == NextQualifying(table.value, old(entry))
        {
          var e := table.value[entry];
          if e.present {
            if e.normal && e.loaded {
              if e.info.Some? {
                var text := Line(e.info.value.0, e.info.value.1);
                var size := |Printed(text)|;
                if size != 0 && size != XFER_BUFFER_SIZE - 1 {
                  var count := XferObjectReadResponse(LOWER_M, text, outBuffer);
                  offset := offset + count;
                  entry := entry + 1;
                  return CStr(outBuffer[..]);
                }
              }
            }
          }
          entry := entry + 1;
        }
      }
      var count := XferObjectReadResponse(LOWER_L, FOOTER, outBuffer);
      offset := 0;
      return CStr(outBuffer[..]);
    }
  }

  // ------------------------------------------------ whole sessions

  datatype History = History(session: Session, texts: seq<seq<byte>>)

  /** `n` requests, each at the offset the stub expects. */
  function Follow(table: Option<seq<Entry>>, s: Session, n: nat): History
    requires WellFormed(table, s)
    decreases n
  {
    if n == 0 then History(s, [])
    else
      var t := Request(table, s, s.offset);
      var h := Follow(table, t.session, n - 1);
      History(h.session, [t.reply.text] + h.texts)
  }

  lemma {:induction false} SkipToNext(table: seq<Entry>, i: nat)
    requires i <= |table|
    ensures var j := NextQualifying(table, i);
            Lines(table, i) == if j == |table| then [] else [Text(table[j])] + Lines(table, j + 1)
    decreases |table| - i
  {
    if i < |table| && !Qualifies(table[i]) {
      SkipToNext(table, i + 1);
    }
  }

  lemma NothingFollows(table: Option<seq<Entry>>, s: Session)
    requires WellFormed(table, s)
    ensures Follow(table, s, 0) == History(s, [])
  {
  }

  lemma OneFollows(table: Option<seq<Entry>>, s: Session, n: nat)
    requires WellFormed(table, s) && n > 0
    ensures var t := Request(table, s, s.offset);
            var h := Follow(table, t.session, n - 1);
            t.reply.Chunk? && Follow(table, s, n) == History(h.session, [t.reply.text] + h.texts)
  {
    hide Line, Ascii, NextQualifying, Qualifies;
  }

  /** From any point inside a session, the requests still to come bring the remaining
      lines and the footer, and only the footer resets the offset. */
  lemma {:induction false} RestOfSession(table: Option<seq<Entry>>, s: Session)
    requires WellFormed(table, s) && s.offset > 0
    ensures var lines := if s.open then Lines(table.value, s.entry) else [];
            var h := Follow(table, s, |lines| + 1);
            h.texts == lines + [FOOTER] && h.session.offset == 0
    decreases if s.open then |table.value| - s.entry else 0
  {
    hide Line, Ascii, Follow, Lines, NextQualifying, Qualifies;
    var t := Request(table, s, s.offset);
    var lines := if s.open then Lines(table.value, s.entry) else [];
    if s.open {
      SkipToNext(table.value, s.entry);
    }
    OneFollows(table, s, |lines| + 1);
    if lines == [] {
      NothingFollows(table, t.session);
      assert lines + [FOOTER] == [FOOTER] + [];
    } else {
      RestOfSession(table, t.session);
      assert lines + [FOOTER] == [lines[0]] + (lines[1..] + [FOOTER]);
    }
  }

  /** Whenever the stub expects offset 0, a reader that asks at the expected offsets gets
      the header, each qualifying line once in table order and the footer, in that many
      requests, and leaves the stub expecting offset 0 again. */
  lemma WholeSession(table: Option<seq<Entry>>, s: Session)
    requires WellFormed(table, s) && s.offset == 0
    ensures var h := Follow(table, s, |Chunks(table)|);
            h.texts == Chunks(table) && h.session.offset == 0
  {
    hide Line, Ascii;
    var t := Request(table, s, 0);
    RestOfSession(table, t.session);
  }

  /** A request at any other offset is refused, and the session that follows is whole. */
  lemma CleanRestart(table: Option<seq<Entry>>, s: Session, offset: nat)
    requires WellFormed(table, s) && offset != s.offset
    ensures var t := Request(table, s, offset);
            && t.reply == Refused && t.session.offset == 0
            && Follow(table, t.session, |Chunks(table)|).texts == Chunks(table)
  {
    hide Follow, Chunks;
    WholeSession(table, Request(table, s, offset).session);
  }

  function Unescaped(payloads: seq<seq<byte>>): seq<seq<byte>> {
    seq(|payloads|, i requires 0 <= i < |payloads| => Unescape(payloads[i]))
  }

  function Escaped(texts: seq<seq<byte>>): seq<seq<byte>> {
    seq(|texts|, i requires 0 <= i < |texts| => Escape(texts[i]))
  }

  /** The document, put together from the payloads of a whole session. */
  lemma DocumentReceived(table: Option<seq<Entry>>, s: Session)
    requires WellFormed(table, s) && s.offset == 0
    ensures var payloads := Escaped(Follow(table, s, |Chunks(table)|).texts);
            Concat(Unescaped(payloads)) ==
            HEADER + Concat(if table.Some? then Lines(table.value, 0) else []) + FOOTER
  {
    hide Line, Ascii, Follow, Escape, Unescape;
    WholeSession(table, s);
    var texts := Chunks(table);
    forall i | 0 <= i < |texts|
      ensures Unescape(Escape(texts[i])) == texts[i]
    {
      UnescapeEscape(texts[i]);
    }
    assert Unescaped(Escaped(texts)) == texts;
    var lines := if table.Some? then Lines(table.value, 0) else [];
    assert texts == [HEADER] + lines + [FOOTER];
    assert texts[1..] == lines + [FOOTER];
    ConcatLast(lines, FOOTER);
  }

  lemma {:induction false} ConcatLast(cs: seq<seq<byte>>, c: seq<byte>)
    ensures Concat(cs + [c]) == Concat(cs) + c
  {
    if cs == [] {
      assert (cs + [c])[1..] == [];
    } else {
      assert (cs + [c])[1..] == cs[1..] + [c];
      ConcatLast(cs[1..], c);
    }
  }

  lemma ConcatNext(c: seq<byte>, cs: seq<seq<byte>>)
    ensures Concat([c] + cs) == c + Concat(cs) && Concat([]) == []
  {
    assert ([c] + cs)[1..] == cs;
  }

  /** Up to the footer the expected offset runs ahead of the text handed out by one per
      reply: the type byte is counted though it is never sent. */
  lemma {:induction false} OffsetRunsAhead(table: Option<seq<Entry>>, s: Session, n: nat)
    requires WellFormed(table, s) && s.offset > 0
    requires n <= if s.open then |Lines(table.value, s.entry)| else 0
    ensures var h := Follow(table, s, n);
            h.session.offset == s.offset + |Concat(h.texts)| + n
    decreases n
  {
    hide Line, Ascii, Follow, Concat, Lines, NextQualifying, Qualifies;
    if n == 0 {
      NothingFollows(table, s);
      ConcatNext([], []);
    } else {
      SkipToNext(table.value, s.entry);
      var t := Request(table, s, s.offset);
      OffsetRunsAhead(table, t.session, n - 1);
      OneFollows(table, s, n);
      ConcatNext(t.reply.text, Follow(table, t.session, n - 1).texts);
    }
  }

  /** `n` requests of a debugger that asks on behind the bytes it has received, and from
      the beginning after a refusal. */
  function Counted(table: Option<seq<Entry>>, s: Session, at: nat, n: nat): seq<Reply>
    requires WellFormed(table, s)
    decreases n
  {
    if n == 0 then []
    else
      var t := Request(table, s, at);
      [t.reply] + Counted(table, t.session, if t.reply.Chunk? then at + |t.reply.text| else 0, n - 1)
  }

  /** Whatever the table, such a debugger is refused at every second request and never
      sees more than the header. */
  lemma {:induction false} CountingReaderStuck(table: Option<seq<Entry>>, s: Session, n: nat)
    requires WellFormed(table, s) && s.offset == 0
    ensures var replies := Counted(table, s, 0, n);
            |replies| == n && forall k :: 0 <= k < n ==> replies[k] == if k % 2 == 0 then Chunk(HEADER) else Refused
    decreases n
  {
    hide Ascii;
    if n == 1 {
      assert Counted(table, s, 0, 1) == [Chunk(HEADER)];
    } else if n > 1 {
      var t := Request(table, s, 0);
      var t' := Request(table, t.session, |HEADER|);
      var rest := Counted(table, t'.session, 0, n - 2);
      CountingReaderStuck(table, t'.session, n - 2);
      assert Counted(table, s, 0, n) == [Chunk(HEADER)] + ([Refused] + rest);
    }
  }

  /** Counted from the header on: after `n` replies short of the footer the stub expects the
      length of the text so far and one more per reply. */
  lemma OffsetFromStart(table: Option<seq<Entry>>, s: Session, n: nat)
    requires WellFormed(table, s) && s.offset == 0 && 0 < n < |Chunks(table)|
    ensures var h := Follow(table, s, n); h.session.offset == |Concat(h.texts)| + n
  {
    hide Line, Ascii, Follow, Concat, NextQualifying, Qualifies;
    var t := Request(table, s, 0);
    OffsetRunsAhead(table, t.session, n - 1);
    OneFollows(table, s, n);
    ConcatNext(t.reply.text, Follow(table, t.session, n - 1).texts);
  }

  /** The refusal is error 31. */
  lemma RefusalRead()
    ensures GdbMemory.IsError(Payload(Refused), 31)
  {
    GdbMemory.ErrorRead(31);
  }

  // ------------------------------------------------ the document read by a debugger

  const QUOTE: byte := 0x22

  function Until(s: seq<byte>, c: byte): seq<byte> { s[..GdbMemory.Find(s, c)] }

  function Behind(s: seq<byte>, c: byte): seq<byte> {
    var i := GdbMemory.Find(s, c);
    if i < |s| then s[i + 1..] else []
  }

  lemma Parted(u: seq<byte>, c: byte, v: seq<byte>)
    requires c !in u
    ensures Until(u + [c] + v, c) == u && Behind(u + [c] + v, c) == v
  {
    hide GdbMemory.Find;
    GdbMemory.FoundAfter(u, c, v);
  }

  datatype Library = Library(name: seq<byte>, address: seq<byte>)

  /** The two quoted values of a line. */
  function ReadLine(l: seq<byte>): Library {
    var rest := Behind(l, QUOTE);
    var more := Behind(rest, QUOTE);
    Library(Until(rest, QUOTE), Until(Behind(more, QUOTE), QUOTE))
  }

  lemma LineParts(name: seq<byte>, address: seq<byte>)
    ensures Line(name, address) ==
            Ascii("  <library name=") + [QUOTE] +
            (name + [QUOTE] + (Ascii("><segment address=") + [QUOTE] + (Ascii("0x") + address + [QUOTE] + Ascii("/></library>\n"))))
  {
    hide Ascii;
    var a, b, d := Ascii("  <library name="), Ascii("><segment address="), Ascii("/></library>\n");
    LinePart1();
    LinePart2();
    LinePart3();
    calc {
      Line(name, address);
      (a + [QUOTE]) + name + ([QUOTE] + b + [QUOTE] + Ascii("0x")) + address + ([QUOTE] + d);
      a + [QUOTE] + (name + [QUOTE] + (b + [QUOTE] + (Ascii("0x") + address + [QUOTE] + d)));
    }
  }

  lemma AsciiAppend(a: string, b: string)
    ensures Ascii(a + b) == Ascii(a) + Ascii(b)
  {
  }

  lemma AsciiQuote()
    ensures Ascii("\"") == [QUOTE]
  {
  }

  lemma LinePart1()
    ensures Ascii("  <library name=\"") == Ascii("  <library name=") + [QUOTE]
  {
    hide Ascii;
    AsciiQuote();
    AsciiAppend("  <library name=", "\"");
    assert "  <library name=" + "\"" == "  <library name=\"";
  }

  lemma LinePart2()
    ensures Ascii("\"><segment address=\"0x") == [QUOTE] + Ascii("><segment address=") + [QUOTE] + Ascii("0x")
  {
    hide Ascii;
    AsciiQuote();
    AsciiAppend("\"", "><segment address=");
    AsciiAppend("\"><segment address=", "\"");
    AsciiAppend("\"><segment address=\"", "0x");
    assert "\"" + "><segment address=" == "\"><segment address=";
    assert "\"><segment address=" + "\"" == "\"><segment address=\"";
    assert "\"><segment address=\"" + "0x" == "\"><segment address=\"0x";
  }

  lemma LinePart3()
    ensures Ascii("\"/></library>\n") == [QUOTE] + Ascii("/></library>\n")
  {
    hide Ascii;
    AsciiQuote();
    AsciiAppend("\"", "/></library>\n");
    assert "\"" + "/></library>\n" == "\"/></library>\n";
  }

  lemma AsciiWithout(s: string, c: byte)
    requires forall i :: 0 <= i < |s| ==> (s[i] as int) % 256 != c
    ensures c !in Ascii(s)
  {
    assert forall i :: 0 <= i < |s| ==> Ascii(s)[i] == (s[i] as int) % 256;
  }

  /** Name and address are read back from a line, if neither holds a quote. */
  lemma LineRead(name: seq<byte>, address: seq<byte>)
    requires QUOTE !in name && QUOTE !in address
    ensures ReadLine(Line(name, address)) == Library(name, Ascii("0x") + address)
  {
    hide Ascii, Line, Until, Behind;
    LineParts(name, address);
    var last := Ascii("0x") + address + [QUOTE] + Ascii("/></library>\n");
    var mid := Ascii("><segment address=") + [QUOTE] + last;
    AsciiWithout("  <library name=", QUOTE);
    AsciiWithout("><segment address=", QUOTE);
    AsciiWithout("0x", QUOTE);
    Parted(Ascii("  <library name="), QUOTE, name + [QUOTE] + mid);
    Parted(name, QUOTE, mid);
    Parted(Ascii("><segment address="), QUOTE, last);
    Parted(Ascii("0x") + address, QUOTE, Ascii("/></library>\n"));
  }

  /** The lines of a text, each with its line feed. */
  function DocumentLines(doc: seq<byte>): seq<seq<byte>>
    decreases |doc|
  {
    var k := GdbMemory.Find(doc, LF);
    if k == |doc| then [] else [doc[..k + 1]] + DocumentLines(doc[k + 1..])
  }

  predicate OneLine(l: seq<byte>) { l != [] && l[|l| - 1] == LF && LF !in l[..|l| - 1] }

  lemma NoDocument()
    ensures DocumentLines([]) == []
  {
  }

  lemma FirstDocumentLine(l: seq<byte>, rest: seq<byte>)
    requires OneLine(l)
    ensures DocumentLines(l + rest) == [l] + DocumentLines(rest)
  {
    hide GdbMemory.Find;
    var u := l[..|l| - 1];
    GdbMemory.FoundAfter(u, LF, rest);
    assert l + rest == u + [LF] + rest;
    assert (l + rest)[..|l|] == l && (l + rest)[|l|..] == rest;
  }

  lemma {:induction false} LinesOfDocument(cs: seq<seq<byte>>)
    requires forall i :: 0 <= i < |cs| ==> OneLine(cs[i])
    ensures DocumentLines(Concat(cs)) == cs
  {
    hide DocumentLines, OneLine;
    if cs == [] {
      NoDocument();
    } else {
      LinesOfDocument(cs[1..]);
      FirstDocumentLine(cs[0], Concat(cs[1..]));
    }
  }

  /** Neither name nor address holds a quote or a line feed. */
  predicate Quotable(e: Entry) {
    e.info.Some? ==> var (name, address) := e.info.value;
                     QUOTE !in name && QUOTE !in address && LF !in name && LF !in address
  }

  /** What the table has to tell, with the addresses as printed. */
  function Libraries(table: seq<Entry>): seq<Library> {
    if table == [] then []
    else
      var e := table[|table| - 1];
      Libraries(table[..|table| - 1]) +
      if e.present && e.normal && e.loaded && e.info.Some? && |Line(e.info.value.0, e.info.value.1)| < 1999
      then [Library(e.info.value.0, Ascii("0x") + e.info.value.1)] else []
  }

  lemma LineIsOne(name: seq<byte>, address: seq<byte>)
    requires LF !in name && LF !in address
    ensures OneLine(Line(name, address))
  {
    var a, b, d := "  <library name=\"", "\"><segment address=\"0x", "\"/></library>\n";
    AsciiWithout(a, LF);
    AsciiWithout(b, LF);
    assert |d| == 14 && d[13] == '\n';
    var tail := Ascii(d);
    AsciiWithout(d[..13], LF);
    assert tail[..13] == Ascii(d[..13]) && tail[13] == LF && |tail| == 14;
    hide Ascii;
    var l := Line(name, address);
    assert l[..|l| - 1] == Ascii(a) + name + Ascii(b) + address + tail[..13];
  }

  /** The lines of the table, read back one by one. */
  lemma {:induction false} LinesRead(table: seq<Entry>)
    requires forall i :: 0 <= i < |table| ==> Quotable(table[i])
    ensures var ls, libs := Lines(table, 0), Libraries(table);
            |ls| == |libs| && forall i :: 0 <= i < |ls| ==> OneLine(ls[i]) && ReadLine(ls[i]) == libs[i]
  {
    hide Line, Ascii, Qualifies, OneLine, ReadLine, Lines;
    if table == [] {
      NoLines(table, 0);
    } else {
      var init, e := table[..|table| - 1], table[|table| - 1];
      LinesRead(init);
      LinesAppend(init, e, 0);
      assert table == init + [e];
      QualifiesExactly(e);
      if Qualifies(e) {
        LineIsOne(e.info.value.0, e.info.value.1);
        LineRead(e.info.value.0, e.info.value.1);
      }
    }
  }

  lemma FrameLines()
    ensures OneLine(HEADER) && OneLine(FOOTER)
  {
    var h, f := "<library-list>\n", "</library-list>\n";
    assert |h| == 15 && |f| == 16 && h[14] == '\n' && f[15] == '\n';
    AsciiWithout(h[..14], LF);
    AsciiWithout(f[..15], LF);
    assert HEADER[..14] == Ascii(h[..14]) && FOOTER[..15] == Ascii(f[..15]);
  }

  lemma {:induction false} ConcatOfChunks(lines: seq<seq<byte>>)
    ensures Concat([HEADER] + lines + [FOOTER]) == HEADER + Concat(lines) + FOOTER
  {
    hide Ascii, Concat;
    ConcatLast([HEADER] + lines, FOOTER);
    ConcatNext(HEADER, lines);
  }

  /** The debugger that follows a whole session, unescapes and joins the payloads and reads
      the document line by line learns exactly the listed libraries, in table order. */
  lemma DocumentRead(table: seq<Entry>, s: Session)
    requires WellFormed(Some(table), s) && s.offset == 0 && forall i :: 0 <= i < |table| ==> Quotable(table[i])
    ensures var payloads := Escaped(Follow(Some(table), s, |Chunks(Some(table))|).texts);
            var lines, libs := DocumentLines(Concat(Unescaped(payloads))), Libraries(table);
            && |lines| == |libs| + 2
            && lines[0] == Ascii("<library-list>\n") && lines[|lines| - 1] == Ascii("</library-list>\n")
            && forall i :: 0 <= i < |libs| ==> ReadLine(lines[i + 1]) == libs[i]
  {
    hide Line, Ascii, Follow, Concat, Unescaped, Escaped, Lines, Libraries, ReadLine, OneLine, Quotable, DocumentLines;
    DocumentReceived(Some(table), s);
    var lines := Lines(table, 0);
    ConcatOfChunks(lines);
    LinesRead(table);
    FrameLines();
    LinesOfDocument([HEADER] + lines + [FOOTER]);
  }
}
