/** File I/O over the debug link: GdbRead, its F reply, and the periodic callback that
    may fire between any two steps of it and looks at the same byte stream. */
module GdbSerialIo {
  import opened Options
  import opened Bytes
  import opened GdbPacket
  import opened GdbMemory
  import opened GdbTranscript

  const CTRL_C: byte := 0x03
  const PACKET_SIZE := 128

  // ------------------------------------------------ the F reply

  /** What GdbParseFReplyPacket returns, what it leaves in *ErrNo (None: nothing), and
      whether it raises the break flag. */
  datatype FReply = FReply(code: int, errNo: Option<nat>, ctrlC: bool)

  /** The cast of an unsigned number to INTN. */
  function ToIntn(n: nat): int {
    if n > MAX_UINTN / 2 then n - (MAX_UINTN + 1) else n
  }

  function ParseF(text: seq<byte>): FReply {
    if text == [] || text[0] != UPPER_F then FReply(-1, None, false)
    else
      var code := ToIntn(HexToUintn(UPPER_F, text[1..]));
      var i := Find(text, COMMA);
      if i == |text| then FReply(code, Some(0), false)
      else
        var rest := text[i + 1..];
        var j := Find(rest, COMMA);
        FReply(code, Some(HexToUintn(COMMA, rest)), j + 1 < |rest| && rest[j + 1] == UPPER_C)
  }

  /** The F reply as a debugger writes it: return code, errno and the break flag. */
  function ReplyText(code: nat, errNo: Option<nat>, ctrlC: bool): seq<byte> {
    [UPPER_F] + HexNumber(code) + if errNo.None? then [] else [COMMA] + ErrorText(errNo.value, ctrlC)
  }

  function ErrorText(errNo: nat, ctrlC: bool): seq<byte> {
    HexNumber(errNo) + if ctrlC then [COMMA, UPPER_C] else []
  }

  lemma NoComma(u: seq<byte>)
    requires forall c :: c in u ==> IsHex(c)
    ensures COMMA !in u && COMMA !in [UPPER_F] + u && NUL !in u && Plain(u)
  {
  }

  lemma ErrorTextParsed(errNo: nat, ctrlC: bool)
    requires errNo <= MAX_UINTN
    ensures var rest := ErrorText(errNo, ctrlC);
            && HexToUintn(COMMA, rest) == errNo
            && var j := Find(rest, COMMA); ctrlC == (j + 1 < |rest| && rest[j + 1] == UPPER_C)
  {
    hide HexToUintn, Find, HexNumber;
    var t := HexNumber(errNo);
    NoComma(t);
    NumberRead(COMMA, errNo, if ctrlC then [COMMA, UPPER_C] else []);
    if ctrlC {
      FoundAfter(t, COMMA, [UPPER_C]);
      assert t + [COMMA] + [UPPER_C] == ErrorText(errNo, ctrlC);
    } else {
      assert ErrorText(errNo, ctrlC) == t;
    }
  }

  /** An F packet by its two commas. */
  lemma ParseParts(t: seq<byte>, rest: seq<byte>)
    requires COMMA !in t
    ensures ParseF([UPPER_F] + t) == FReply(ToIntn(HexToUintn(UPPER_F, t)), Some(0), false)
    ensures var j := Find(rest, COMMA);
            ParseF([UPPER_F] + t + [COMMA] + rest) ==
            FReply(ToIntn(HexToUintn(UPPER_F, t + [COMMA] + rest)), Some(HexToUintn(COMMA, rest)),
                   j + 1 < |rest| && rest[j + 1] == UPPER_C)
  {
    hide HexToUintn, Find, ParseF;
    Placed(t, rest);
    ParseAt([UPPER_F] + t, |t| + 1);
    ParseAt([UPPER_F] + t + [COMMA] + rest, |t| + 1);
  }

  lemma Placed(t: seq<byte>, rest: seq<byte>)
    requires COMMA !in t
    ensures ([UPPER_F] + t)[1..] == t
    ensures ([UPPER_F] + t + [COMMA] + rest)[1..] == t + [COMMA] + rest
    ensures ([UPPER_F] + t + [COMMA] + rest)[|t| + 2..] == rest
    ensures Find([UPPER_F] + t, COMMA) == Find([UPPER_F] + t + [COMMA] + rest, COMMA) == |t| + 1
  {
    hide Find;
    FoundAfter([UPPER_F] + t, COMMA, rest);
  }

  lemma ParseAt(text: seq<byte>, i: nat)
    requires text != [] && text[0] == UPPER_F && i == Find(text, COMMA)
    ensures ParseF(text) ==
            if i == |text| then FReply(ToIntn(HexToUintn(UPPER_F, text[1..])), Some(0), false)
            else
              var rest := text[i + 1..];
              FReply(ToIntn(HexToUintn(UPPER_F, text[1..])), Some(HexToUintn(COMMA, rest)),
                     Find(rest, COMMA) + 1 < |rest| && rest[Find(rest, COMMA) + 1] == UPPER_C)
  {
    hide HexToUintn, Find;
  }

  /** The reply is read as it was meant, the return code as a signed number; errno is 0 if
      it was left out. */
  lemma ReplyParsed(code: nat, errNo: Option<nat>, ctrlC: bool)
    requires code <= MAX_UINTN && (errNo.Some? ==> errNo.value <= MAX_UINTN)
    ensures ParseF(ReplyText(code, errNo, ctrlC)) ==
            FReply(if code < 0x8000_0000_0000_0000 then code else code - 0x1_0000_0000_0000_0000,
                   Some(if errNo.Some? then errNo.value else 0), errNo.Some? && ctrlC)
  {
    hide HexToUintn, Find, HexNumber, ErrorText, ParseF;
    var t := HexNumber(code);
    NoComma(t);
    if errNo.Some? {
      var rest := ErrorText(errNo.value, ctrlC);
      ParseParts(t, rest);
      assert ReplyText(code, errNo, ctrlC) == [UPPER_F] + t + [COMMA] + rest;
      assert t + [COMMA] + rest == t + ([COMMA] + rest);
      NumberRead(UPPER_F, code, [COMMA] + rest);
      ErrorTextParsed(errNo.value, ctrlC);
    } else {
      ParseParts(t, []);
      assert ReplyText(code, errNo, ctrlC) == [UPPER_F] + t;
      NumberParsed(UPPER_F, code);
    }
  }

  /** A return code written with a minus sign, as the File-I/O protocol has it for a failed
      call, is read as 0: the -1 that GdbRead promises on error does not come out. */
  lemma MinusLost(k: nat, errNo: nat)
    requires errNo <= MAX_UINTN
    ensures ParseF([UPPER_F, MINUS] + HexNumber(k) + [COMMA] + HexNumber(errNo)) == FReply(0, Some(errNo), false)
  {
    hide HexToUintn, Find, HexNumber, ParseF;
    var t, rest := HexNumber(k), HexNumber(errNo);
    NoComma(t);
    ParseParts([MINUS] + t, rest);
    assert [UPPER_F, MINUS] + t + [COMMA] + rest == [UPPER_F] + ([MINUS] + t) + [COMMA] + rest;
    assert [MINUS] + t + [COMMA] + rest == [MINUS] + (t + [COMMA] + rest);
    MinusIsNoNumber(t + [COMMA] + rest);
    ErrorTextParsed(errNo, false);
    assert ErrorText(errNo, false) == rest;
  }

  lemma MinusIsNoNumber(rest: seq<byte>)
    ensures HexToUintn(UPPER_F, [MINUS] + rest) == 0
  {
    hide HexToUintn, HexDigits;
    var tail := [MINUS] + rest;
    assert [] + [] + tail == tail;
    PrefixSkipped(UPPER_F, [], [], tail);
    NoDigits(tail);
  }

  /** The return code is -1 exactly for a packet that is no F reply and for a code of 64
      one bits or more. */
  lemma MinusOneExactly(text: seq<byte>)
    ensures ParseF(text).code == -1 <==>
            text == [] || text[0] != UPPER_F || HexToUintn(UPPER_F, text[1..]) == MAX_UINTN
  {
    hide HexToUintn, Find;
  }

  /** How many of the waiting characters the callback takes: all of them, or up to and
      including the first ctrl-c. */
  function Drained(waiting: seq<byte>): (n: nat)
    ensures n <= |waiting|
    ensures CTRL_C in waiting ==> n > 0 && waiting[n - 1] == CTRL_C && CTRL_C !in waiting[..n - 1]
    ensures CTRL_C !in waiting ==> n == |waiting|
  {
    if waiting == [] then 0 else if waiting[0] == CTRL_C then 1 else 1 + Drained(waiting[1..])
  }

  /** The pointer walk to a comma or to the end of the text. */
  method SkipToComma(text: seq<byte>) returns (i: nat)
    ensures i == Find(text, COMMA)
  {
    i := 0;
    assert text == text[0..];
    while i < |text| && text[i] != COMMA
      invariant i <= |text| && i + Find(text[i..], COMMA) == Find(text, COMMA)
    {
      assert text[i..][1..] == text[i + 1..];
      i := i + 1;
    }
  }

  /** The two global flags. */
  class Flags {
    var ctrlCBreak: bool
    var processingF: bool

    constructor ()
      ensures !ctrlCBreak && !processingF
    {
      ctrlCBreak, processingF := false, false;
    }

    method ParseFReplyPacket(packet: seq<byte>) returns (code: int, errNo: Option<nat>)
      modifies this`ctrlCBreak
      ensures FReply(code, errNo, ParseF(packet).ctrlC) == ParseF(packet)
      ensures ctrlCBreak == (old(ctrlCBreak) || ParseF(packet).ctrlC)
    {
      hide HexToUintn, Find;
      if packet == [] || packet[0] != UPPER_F {
        return -1, None;
      }
      code := ToIntn(HexToUintn(UPPER_F, packet[1..]));
      var i := SkipToComma(packet);
      if i == |packet| {
        return code, Some(0);
      }
      i := i + 1;
      var rest := packet[i..];
      errNo := Some(HexToUintn(COMMA, rest));
      var j := SkipToComma(rest);
      if j == |rest| {
        return;
      }
      j := j + 1;
      if j < |rest| && rest[j] == UPPER_C {
        ctrlCBreak := true;
      }
    }

    /** `waiting` is what is in the receive queue. `stepped`: AddSingleStep was called. */
    method PeriodicCallBack(waiting: seq<byte>) returns (taken: nat, stepped: bool)
      modifies this`ctrlCBreak
      ensures taken == if old(ctrlCBreak) || processingF then 0 else Drained(waiting)
      ensures stepped == (old(ctrlCBreak) || (!processingF && 0x03 in waiting))
      ensures !ctrlCBreak
    {
      taken, stepped := 0, false;
      if !ctrlCBreak && !processingF {
        while taken < |waiting|
          invariant taken <= |waiting| && !ctrlCBreak
          invariant CTRL_C !in waiting[..taken] && taken + Drained(waiting[taken..]) == Drained(waiting)
        {
          var c := waiting[taken];
          assert waiting[taken..][1..] == waiting[taken + 1..];
          taken := taken + 1;
          if c == CTRL_C {
            ctrlCBreak := true;
            break;
          }
        }
      }
      if ctrlCBreak {
        stepped := true;
        ctrlCBreak := false;
      }
    }
  }

  // ------------------------------------------------ GdbRead between two interrupts

  /** `retries` is the limit of SendPacket, `before` the byte in front of the checksum
      string. */
  datatype Config = Config(before: byte, retries: nat)

  datatype Goal = ToReceive | ToClear(code: int)

  /** Where GdbRead stands. It waits for a character in Answering and in Receiving
      before delivery; every other state inside the call moves on by itself. */
  datatype Reader =
    | Outside
    | Answering(left: nat, goal: Goal)  // SendPacket waits for an answer, `left` tries remain
    | Receiving(st: Receiver)
    | Parsing(packet: seq<byte>)
    | Clearing(code: int)
    | Returned(code: int)

  predicate InCall(m: Reader) {
    !m.Outside? && !m.Returned?
  }

  predicate WantsByte(m: Reader) {
    m.Answering? || (m.Receiving? && !m.st.Delivered?)
  }

  function Proceed(goal: Goal): Reader {
    if goal.ToReceive? then Receiving(Hunting) else Clearing(goal.code)
  }

  /** A call of SendPacket. */
  function Send(c: Config, goal: Goal): Reader {
    if c.retries == 0 then Proceed(goal) else Answering(c.retries - 1, goal)
  }

  function OnByte(c: Config, m: Reader, b: byte): Reader
    requires WantsByte(m)
  {
    match m
    case Answering(left, goal) => if b == PLUS || left == 0 then Proceed(goal) else Answering(left - 1, goal)
    case Receiving(st) => Receiving(Next(PACKET_SIZE, ChecksumOk(c.before), st, b))
  }

  /** A step that needs no character: dispatch on the packet, parse it, return. Every
      packet but an F reply is answered by one SendPacket. */
  function OnItsOwn(c: Config, m: Reader): Reader
    requires InCall(m) && !WantsByte(m)
  {
    match m
    case Receiving(st) =>
      var packet := CStr(st.data);
      if packet != [] && packet[0] == UPPER_F then Parsing(packet) else Send(c, ToReceive)
    case Parsing(packet) =>
      var f := ParseF(packet);
      if f.errNo.Some? && f.errNo.value > 0 then Send(c, ToClear(f.code)) else Clearing(f.code)
    case Clearing(code) => Returned(code)
  }

  function Rank(m: Reader): nat {
    if WantsByte(m) || !InCall(m) then 0 else if m.Receiving? then 3 else if m.Parsing? then 2 else 1
  }

  /** The call left alone with the bytes `w`. */
  function Alone(c: Config, m: Reader, w: seq<byte>): Reader
    decreases |w|, Rank(m)
  {
    if !InCall(m) then m
    else if !WantsByte(m) then Alone(c, OnItsOwn(c, m), w)
    else if w == [] then m
    else Alone(c, OnByte(c, m, w[0]), w[1..])
  }

  lemma {:induction false} AloneAppend(c: Config, m: Reader, u: seq<byte>, v: seq<byte>)
    ensures Alone(c, m, u + v) == Alone(c, Alone(c, m, u), v)
    decreases |u|, Rank(m)
  {
    hide OnByte, OnItsOwn;
    if InCall(m) {
      if !WantsByte(m) {
        AloneRank(c, m);
        AloneAppend(c, OnItsOwn(c, m), u, v);
      } else if u == [] {
        assert u + v == v;
      } else {
        assert (u + v)[1..] == u[1..] + v;
        AloneAppend(c, OnByte(c, m, u[0]), u[1..], v);
      }
    }
  }

  lemma AloneRank(c: Config, m: Reader)
    requires InCall(m) && !WantsByte(m)
    ensures Rank(OnItsOwn(c, m)) < Rank(m)
  {
    hide ParseF, CStr;
  }

  lemma AloneFrom(c: Config, first: Reader, u: seq<byte>, m: Reader, v: seq<byte>)
    requires Alone(c, first, u) == Alone(c, m, [])
    ensures Alone(c, first, u + v) == Alone(c, m, v)
  {
    hide Alone;
    AloneAppend(c, first, u, v);
    AloneAppend(c, m, [], v);
    assert [] + v == v;
  }

  // ------------------------------------------------ what GdbRead sends

  /** The payload of the reply to a packet other than F. */
  type Replies = seq<byte> -> seq<byte>

  /** What a step that needs no character hands to SendPacket. */
  function Hands(replyTo: Replies, m: Reader): seq<seq<byte>>
    requires InCall(m) && !WantsByte(m)
  {
    match m
    case Receiving(st) =>
      var packet := CStr(st.data);
      if packet != [] && packet[0] == UPPER_F then [] else [replyTo(packet)]
    case Parsing(packet) =>
      var f := ParseF(packet);
      if f.errNo.Some? && f.errNo.value > 0 then [Error(f.errNo.value % 256)] else []
    case Clearing(_) => []
  }

  /** What the call hands to SendPacket on the way, left alone with the bytes `w`. */
  function Said(c: Config, replyTo: Replies, m: Reader, w: seq<byte>): seq<seq<byte>>
    decreases |w|, Rank(m)
  {
    if !InCall(m) then []
    else if !WantsByte(m) then
      AloneRank(c, m);
      Hands(replyTo, m) + Said(c, replyTo, OnItsOwn(c, m), w)
    else if w == [] then []
    else Said(c, replyTo, OnByte(c, m, w[0]), w[1..])
  }

  lemma {:induction false} SaidAppend(c: Config, replyTo: Replies, m: Reader, u: seq<byte>, v: seq<byte>)
    ensures Said(c, replyTo, m, u + v) == Said(c, replyTo, m, u) + Said(c, replyTo, Alone(c, m, u), v)
    decreases |u|, Rank(m)
  {
    hide OnByte, OnItsOwn, Hands;
    if InCall(m) {
      if !WantsByte(m) {
        AloneRank(c, m);
        SaidAppend(c, replyTo, OnItsOwn(c, m), u, v);
      } else if u == [] {
        assert u + v == v;
      } else {
        assert (u + v)[1..] == u[1..] + v;
        SaidAppend(c, replyTo, OnByte(c, m, u[0]), u[1..], v);
      }
    }
  }

  /** What follows a stretch that ends where `m` begins. */
  lemma SaidFrom(c: Config, replyTo: Replies, first: Reader, u: seq<byte>, m: Reader, v: seq<byte>)
    requires Alone(c, first, u) == Alone(c, m, []) && Said(c, replyTo, m, []) == []
    ensures Said(c, replyTo, first, u + v) == Said(c, replyTo, first, u) + Said(c, replyTo, m, v)
  {
    hide Alone, Said;
    SaidAppend(c, replyTo, first, u, v);
    SaidAppend(c, replyTo, m, [], v);
    assert [] + v == v;
  }

  lemma {:induction false} SilentWaiting(c: Config, replyTo: Replies, left: nat, goal: Goal, w: seq<byte>)
    requires PLUS !in w && |w| <= left
    ensures Said(c, replyTo, Answering(left, goal), w) == []
    decreases |w|
  {
    if w != [] {
      SilentWaiting(c, replyTo, left - 1, goal, w[1..]);
    }
  }

  lemma SilentProceeding(c: Config, replyTo: Replies, goal: Goal)
    ensures Said(c, replyTo, Proceed(goal), []) == [] && Said(c, replyTo, Send(c, goal), []) == []
  {
  }

  lemma SilentAnswer(c: Config, replyTo: Replies, left: nat, goal: Goal, b: byte)
    requires b == PLUS || left == 0
    ensures Said(c, replyTo, Answering(left, goal), [b]) == []
  {
    assert [b][1..] == [];
    SilentProceeding(c, replyTo, goal);
  }

  /** While SendPacket waits nothing else is sent. */
  lemma SilentSending(c: Config, replyTo: Replies, goal: Goal, answers: seq<byte>, frames: nat, returned: bool)
    requires FramesFor(c.retries, answers, frames, returned)
    ensures returned ==> Said(c, replyTo, Send(c, goal), answers[..frames]) == []
    ensures !returned ==> Said(c, replyTo, Send(c, goal), answers) == []
  {
    hide Said, Alone;
    if c.retries == 0 {
      assert answers[..frames] == [];
      SilentProceeding(c, replyTo, goal);
    } else if returned {
      var w, b := answers[..frames - 1], answers[frames - 1];
      Unanswered(c, c.retries - 1, goal, w);
      SilentWaiting(c, replyTo, c.retries - 1, goal, w);
      SilentAnswer(c, replyTo, c.retries - frames, goal, b);
      SaidAppend(c, replyTo, Send(c, goal), w, [b]);
      assert w + [b] == answers[..frames];
    } else {
      assert answers[..frames - 1] == answers;
      SilentWaiting(c, replyTo, c.retries - 1, goal, answers);
    }
  }

  lemma SilentByte(c: Config, replyTo: Replies, st: Receiver, b: byte)
    requires !st.Delivered?
    ensures Said(c, replyTo, Receiving(st), [b]) ==
            Said(c, replyTo, Receiving(Next(PACKET_SIZE, ChecksumOk(c.before), st, b)), [])
    ensures Said(c, replyTo, Receiving(st), []) == []
  {
    hide ChecksumOk, Next, OnItsOwn, Hands;
    assert [b][1..] == [];
  }

  /** While ReceivePacket collects nothing but its answers is sent. */
  lemma {:induction false} SilentReceiving(c: Config, replyTo: Replies, w: seq<byte>)
    requires !After(PACKET_SIZE, ChecksumOk(c.before), Hunting, w).Delivered?
    ensures Said(c, replyTo, Receiving(Hunting), w) == []
    decreases |w|, 0
  {
    hide ChecksumOk, Said;
    if w == [] {
      SilentByte(c, replyTo, Hunting, 0);
    } else {
      SaidOnDelivery(c, replyTo, w);
      SilentByte(c, replyTo, After(PACKET_SIZE, ChecksumOk(c.before), Hunting, w), 0);
    }
  }

  lemma {:induction false} SaidOnDelivery(c: Config, replyTo: Replies, w: seq<byte>)
    requires w != [] && !After(PACKET_SIZE, ChecksumOk(c.before), Hunting, w[..|w| - 1]).Delivered?
    ensures Said(c, replyTo, Receiving(Hunting), w) ==
            Said(c, replyTo, Receiving(After(PACKET_SIZE, ChecksumOk(c.before), Hunting, w)), [])
    decreases |w| - 1, 1
  {
    hide ChecksumOk, Alone, Said, Next;
    var w', b := w[..|w| - 1], w[|w| - 1];
    SilentReceiving(c, replyTo, w');
    ReceiveAlone(c, w');
    SaidAppend(c, replyTo, Receiving(Hunting), w', [b]);
    SilentByte(c, replyTo, After(PACKET_SIZE, ChecksumOk(c.before), Hunting, w'), b);
    assert w' + [b] == w;
  }

  // ------------------------------------------------ its calls as moves of the reader

  lemma {:induction false} Unanswered(c: Config, left: nat, goal: Goal, w: seq<byte>)
    requires PLUS !in w && |w| <= left
    ensures Alone(c, Answering(left, goal), w) == Answering(left - |w|, goal)
    decreases |w|
  {
    if w != [] {
      Unanswered(c, left - 1, goal, w[1..]);
    }
  }

  lemma LastAnswer(c: Config, left: nat, goal: Goal, b: byte)
    requires b == PLUS || left == 0
    ensures Alone(c, Answering(left, goal), [b]) == Alone(c, Proceed(goal), [])
  {
    assert [b][1..] == [];
  }

  /** A call of SendPacket, by its contract, is the Answering state of the reader. */
  lemma SendAlone(c: Config, goal: Goal, answers: seq<byte>, frames: nat, returned: bool)
    requires FramesFor(c.retries, answers, frames, returned)
    ensures returned ==> Alone(c, Send(c, goal), answers[..frames]) == Alone(c, Proceed(goal), [])
    ensures !returned ==> Alone(c, Send(c, goal), answers).Answering?
  {
    hide Alone;
    if c.retries == 0 {
      assert answers[..frames] == [];
    } else {
      if returned {
        var w, b := answers[..frames - 1], answers[frames - 1];
        Unanswered(c, c.retries - 1, goal, w);
        LastAnswer(c, c.retries - frames, goal, b);
        AloneAppend(c, Send(c, goal), w, [b]);
        assert w + [b] == answers[..frames];
      } else {
        assert answers[..frames - 1] == answers;
        Unanswered(c, c.retries - 1, goal, answers);
      }
    }
  }

  lemma ReceiveNothing(c: Config, st: Receiver)
    requires !st.Delivered?
    ensures Alone(c, Receiving(st), []) == Receiving(st)
  {
  }

  lemma ReceiveByte(c: Config, st: Receiver, b: byte)
    requires !st.Delivered?
    ensures Alone(c, Receiving(st), [b]) == Alone(c, Receiving(Next(PACKET_SIZE, ChecksumOk(c.before), st, b)), [])
  {
    hide ChecksumOk, Next, OnItsOwn;
    assert [b][1..] == [];
  }

  /** A call of ReceivePacket is its Receiving state. */
  lemma {:induction false} ReceiveAlone(c: Config, w: seq<byte>)
    requires !After(PACKET_SIZE, ChecksumOk(c.before), Hunting, w).Delivered?
    ensures Alone(c, Receiving(Hunting), w) == Receiving(After(PACKET_SIZE, ChecksumOk(c.before), Hunting, w))
    decreases |w|, 0
  {
    hide ChecksumOk, Alone;
    if w == [] {
      ReceiveNothing(c, Hunting);
    } else {
      DeliverAlone(c, w);
      ReceiveNothing(c, After(PACKET_SIZE, ChecksumOk(c.before), Hunting, w));
    }
  }

  lemma {:induction false} DeliverAlone(c: Config, w: seq<byte>)
    requires w != [] && !After(PACKET_SIZE, ChecksumOk(c.before), Hunting, w[..|w| - 1]).Delivered?
    ensures Alone(c, Receiving(Hunting), w) == Alone(c, Receiving(After(PACKET_SIZE, ChecksumOk(c.before), Hunting, w)), [])
    decreases |w| - 1, 1
  {
    hide ChecksumOk, Alone, Next;
    var w', b := w[..|w| - 1], w[|w| - 1];
    ReceiveAlone(c, w');
    AloneAppend(c, Receiving(Hunting), w', [b]);
    ReceiveByte(c, After(PACKET_SIZE, ChecksumOk(c.before), Hunting, w'), b);
    assert w' + [b] == w;
  }

  // ------------------------------------------------ GdbRead itself

  /** One call of SendPacket: the payload and how many frames went out for it. */
  datatype Sending = Sending(payload: seq<byte>, frames: nat)

  function WireOf(log: seq<Sending>): seq<byte> {
    if log == [] then [] else WireOf(log[..|log| - 1]) + Copies(Frame(log[|log| - 1].payload), log[|log| - 1].frames)
  }

  function Payloads(log: seq<Sending>): seq<seq<byte>> {
    seq(|log|, i requires 0 <= i < |log| => log[i].payload)
  }

  lemma WireNext(log: seq<Sending>, x: Sending)
    ensures WireOf(log + [x]) == WireOf(log) + Copies(Frame(x.payload), x.frames)
    ensures Payloads(log + [x]) == Payloads(log) + [x.payload]
  {
    hide Copies, Frame;
    assert (log + [x])[..|log + [x]| - 1] == log;
  }

  lemma EmptyWire()
    ensures WireOf([]) == [] && Payloads([]) == []
  {
  }

  /** SendPacket on what is left of the stream, as a move of the reader. */
  method SendFrom(c: Config, stream: seq<byte>, start: nat, payload: seq<byte>, ghost m: Reader, ghost goal: Goal,
                  ghost replyTo: Replies)
    returns (r: Option<nat>, sent: seq<byte>, frames: nat)
    requires start <= |stream| && NUL !in payload
    requires Alone(c, m, stream[..start]) == Alone(c, Send(c, goal), [])
    ensures r.Some? ==> start <= r.value <= |stream| && Alone(c, m, stream[..r.value]) == Alone(c, Proceed(goal), [])
    ensures r.None? ==> InCall(Alone(c, m, stream))
    ensures sent == Copies(Frame(payload), frames) && frames <= c.retries
    ensures Said(c, replyTo, m, if r.Some? then stream[..r.value] else stream) == Said(c, replyTo, m, stream[..start])
  {
    hide Alone, FramesFor, Send, Proceed, CStr, Frame, Copies, Said;
    var rest := stream[start..];
    var done;
    TextBefore(payload);
    done, sent, frames := SendPacket(payload + [NUL], c.retries, rest);
    FramesBound(c.retries, rest, frames, done.Some?);
    SendAlone(c, goal, rest, frames, done.Some?);
    SilentSending(c, replyTo, goal, rest, frames, done.Some?);
    SilentProceeding(c, replyTo, goal);
    if done.Some? {
      AloneFrom(c, m, stream[..start], Send(c, goal), rest[..frames]);
      SaidFrom(c, replyTo, m, stream[..start], Send(c, goal), rest[..frames]);
      assert stream[..start] + rest[..frames] == stream[..start + frames];
      return Some(start + frames), sent, frames;
    }
    AloneFrom(c, m, stream[..start], Send(c, goal), rest);
    SaidFrom(c, replyTo, m, stream[..start], Send(c, goal), rest);
    assert stream[..start] + rest == stream;
    return None, sent, frames;
  }

  lemma {:induction false} TextBefore(p: seq<byte>)
    requires NUL !in p
    ensures CStr(p + [NUL]) == p
  {
    if p != [] {
      assert (p + [NUL])[1..] == p[1..] + [NUL];
      TextBefore(p[1..]);
    }
  }

  lemma FramesBound(retries: nat, answers: seq<byte>, frames: nat, returned: bool)
    requires FramesFor(retries, answers, frames, returned)
    ensures frames <= retries && (returned ==> frames <= |answers|)
  {
  }

  /** ReceivePacket on what is left of the stream, as a move of the reader. */
  method ReceiveFrom(c: Config, stream: seq<byte>, start: nat, ghost m: Reader, ghost replyTo: Replies)
    returns (r: Option<(nat, seq<byte>)>)
    requires start <= |stream| && Alone(c, m, stream[..start]) == Receiving(Hunting)
    ensures r.Some? ==>
              && start < r.value.0 <= |stream|
              && Alone(c, m, stream[..r.value.0]) == Alone(c, Receiving(Delivered(r.value.1)), [])
              && Said(c, replyTo, m, stream[..r.value.0]) ==
                 Said(c, replyTo, m, stream[..start]) + Said(c, replyTo, Receiving(Delivered(r.value.1)), [])
    ensures r.None? ==> InCall(Alone(c, m, stream)) && Said(c, replyTo, m, stream) == Said(c, replyTo, m, stream[..start])
  {
    hide Alone, After, Answers, ChecksumOk, Said;
    var rest := stream[start..];
    var packet := new byte[PACKET_SIZE];
    var index, taken, replies := ReceivePacket(rest, packet, c.before);
    ReceiveNothing(c, Hunting);
    SilentByte(c, replyTo, Hunting, 0);
    ghost var w := rest[..taken];
    AloneFrom(c, m, stream[..start], Receiving(Hunting), w);
    SaidFrom(c, replyTo, m, stream[..start], Receiving(Hunting), w);
    assert stream[..start] + w == stream[..start + taken];
    if index.Some? {
      assert w[..|w| - 1] == rest[..taken - 1];
      DeliverAlone(c, w);
      SaidOnDelivery(c, replyTo, w);
      return Some((start + taken, packet[..index.value]));
    }
    ReceiveAlone(c, w);
    SilentReceiving(c, replyTo, w);
    assert stream[..start + taken] == stream;
    return None;
  }

  /** GdbRead, left alone: it takes a stretch of the stream and returns, or waits for
      more. `replyTo` is the payload of the reply to a packet other than F. `frames` is all
      it sends besides the answers of ReceivePacket. */
  method GdbRead(c: Config, stream: seq<byte>, request: seq<byte>, replyTo: Replies)
    returns (r: Option<int>, taken: nat, frames: seq<byte>, log: seq<Sending>)
    requires NUL !in request && forall p :: NUL !in replyTo(p)
    ensures taken <= |stream|
    ensures r.Some? ==> Alone(c, Send(c, ToReceive), stream[..taken]) == Returned(r.value)
    ensures r.None? ==> InCall(Alone(c, Send(c, ToReceive), stream))
    ensures frames == WireOf(log) && forall i :: 0 <= i < |log| ==> log[i].frames <= c.retries
    ensures Payloads(log) ==
            [request] + Said(c, replyTo, Send(c, ToReceive), if r.Some? then stream[..taken] else stream)
  {
    hide Alone, Send, OnItsOwn, ParseF, Said, WireOf, Payloads, Copies, Frame, Error;
    ghost var m := Send(c, ToReceive);
    assert stream[..0] == [];
    SilentProceeding(c, replyTo, ToReceive);
    EmptyWire();
    var sent, out, n := SendFrom(c, stream, 0, request, m, ToReceive, replyTo);
    WireNext([], Sending(request, n));
    frames, log := out, [Sending(request, n)];
    assert [] + log == log && [] + out == out && [] + [request] == [request];
    ReceiveNothing(c, Hunting);
    if sent.None? { return None, 0, frames, log; }
    taken := sent.value;
    while true
      invariant taken <= |stream| && Alone(c, m, stream[..taken]) == Receiving(Hunting)
      invariant frames == WireOf(log) && forall i :: 0 <= i < |log| ==> log[i].frames <= c.retries
      invariant Payloads(log) == [request] + Said(c, replyTo, m, stream[..taken])
      decreases |stream| - taken
    {
      var got := ReceiveFrom(c, stream, taken, m, replyTo);
      if got.None? { return None, taken, frames, log; }
      taken := got.value.0;
      var packet := CStr(got.value.1);
      Dispatched(c, got.value.1);
      DispatchSaid(c, replyTo, got.value.1);
      var payload, goal := replyTo(packet), ToReceive;
      if packet != [] && packet[0] == UPPER_F {
        var f := ParseF(packet);
        Finished(c, packet);
        if !(f.errNo.Some? && f.errNo.value > 0) {
          return Some(f.code), taken, frames, log;
        }
        payload, goal := Error(f.errNo.value % 256), ToClear(f.code);
      }
      sent, out, n := SendFrom(c, stream, taken, payload, m, goal, replyTo);
      WireNext(log, Sending(payload, n));
      frames, log := frames + out, log + [Sending(payload, n)];
      if sent.None? { return None, taken, frames, log; }
      taken := sent.value;
      if goal.ToClear? { return Some(goal.code), taken, frames, log; }
    }
  }

  lemma DispatchSaid(c: Config, replyTo: Replies, data: seq<byte>)
    ensures var packet := CStr(data);
            var f := ParseF(packet);
            Said(c, replyTo, Receiving(Delivered(data)), []) ==
            if packet == [] || packet[0] != UPPER_F then [replyTo(packet)]
            else if f.errNo.Some? && f.errNo.value > 0 then [Error(f.errNo.value % 256)]
            else []
  {
    hide CStr, ParseF, Error, Said;
    var packet := CStr(data);
    SaidStep(c, replyTo, Receiving(Delivered(data)));
    SilentProceeding(c, replyTo, ToReceive);
    if packet != [] && packet[0] == UPPER_F {
      var f := ParseF(packet);
      SaidStep(c, replyTo, Parsing(packet));
      SilentProceeding(c, replyTo, ToClear(f.code));
    }
  }

  lemma SaidStep(c: Config, replyTo: Replies, m: Reader)
    requires InCall(m) && !WantsByte(m)
    ensures Said(c, replyTo, m, []) == Hands(replyTo, m) + Said(c, replyTo, OnItsOwn(c, m), [])
  {
    hide Hands, OnItsOwn;
  }

  lemma Dispatched(c: Config, data: seq<byte>)
    ensures var packet := CStr(data);
            Alone(c, Receiving(Delivered(data)), []) ==
            if packet != [] && packet[0] == UPPER_F then Alone(c, Parsing(packet), []) else Alone(c, Send(c, ToReceive), [])
  {
    hide CStr, ParseF;
  }

  lemma Finished(c: Config, packet: seq<byte>)
    ensures var f := ParseF(packet);
            && (f.errNo.Some? && f.errNo.value > 0 ==> Alone(c, Parsing(packet), []) == Alone(c, Send(c, ToClear(f.code)), []))
            && (!(f.errNo.Some? && f.errNo.value > 0) ==> Alone(c, Parsing(packet), []) == Returned(f.code))
            && Alone(c, Proceed(ToClear(f.code)), []) == Returned(f.code)
            && forall n :: NUL !in Error(n)
  {
    hide ParseF;
    var f := ParseF(packet);
    assert Alone(c, Clearing(f.code), []) == Returned(f.code);
    assert Alone(c, Parsing(packet), []) == Alone(c, OnItsOwn(c, Parsing(packet)), []);
  }

  /** A whole exchange on a clean line: the request is acknowledged, the debugger sends its
      F reply, and acknowledges the error reply if one is due. */
  function Exchange(text: seq<byte>, errNo: nat): seq<byte> {
    [PLUS] + Frame(text) + if errNo > 0 then [PLUS] else []
  }

  lemma PlainReply(code: nat, errNo: nat)
    requires code <= MAX_UINTN && errNo <= MAX_UINTN
    ensures var text := ReplyText(code, Some(errNo), false);
            Plain(text) && NUL !in text && |text| + 2 <= PACKET_SIZE && text != [] && text[0] == UPPER_F && CStr(text) == text
  {
    hide HexNumber, CStr;
    NoComma(HexNumber(code));
    NoComma(HexNumber(errNo));
    NumberLength(code);
    NumberLength(errNo);
    var text := ReplyText(code, Some(errNo), false);
    WholeText(text);
  }

  lemma WholeText(text: seq<byte>)
    requires NUL !in text
    ensures CStr(text) == text
  {
    hide CStr;
    var n := |CStr(text)|;
    assert forall i :: 0 <= i < |text| ==> text[i] != NUL;
    assert n == |text| && text[..n] == text;
  }

  /** The longest packet GdbRead can take has 126 characters. */
  lemma LongestPacket(c: Config, text: seq<byte>)
    requires Plain(text)
    ensures After(PACKET_SIZE, ChecksumOk(c.before), Hunting, Frame(text)) == Delivered(text) <==>
            |text| <= 126 || (|text| == 127 && Sum(text) == 0)
  {
    hide After, ChecksumOk, Frame;
    FrameSurvives(PACKET_SIZE, c.before, text);
  }

  lemma FrameRead(c: Config, replyTo: Replies, text: seq<byte>)
    requires Plain(text) && |text| + 2 <= PACKET_SIZE
    ensures Alone(c, Receiving(Hunting), Frame(text)) == Alone(c, Receiving(Delivered(text)), [])
    ensures Said(c, replyTo, Receiving(Hunting), Frame(text)) == Said(c, replyTo, Receiving(Delivered(text)), [])
  {
    hide Alone, Said, After, ChecksumOk, Frame;
    FrameDeliveredAtEnd(PACKET_SIZE, c.before, text);
    DeliverAlone(c, Frame(text));
    SaidOnDelivery(c, replyTo, Frame(text));
  }

  lemma Acknowledged(c: Config, replyTo: Replies, goal: Goal)
    requires c.retries > 0
    ensures Alone(c, Send(c, goal), [PLUS]) == Alone(c, Proceed(goal), [])
    ensures Said(c, replyTo, Send(c, goal), [PLUS]) == [] == Said(c, replyTo, Send(c, goal), [])
  {
    hide Alone, Said;
    LastAnswer(c, c.retries - 1, goal, PLUS);
    SilentAnswer(c, replyTo, c.retries - 1, goal, PLUS);
    SilentProceeding(c, replyTo, goal);
  }

  /** Whatever return code and errno the debugger sends, GdbRead returns that code, as a
      signed number, and answers with an error reply exactly if errno is not 0. */
  lemma ReadExchange(c: Config, replyTo: Replies, code: nat, errNo: nat)
    requires c.retries > 0 && code <= MAX_UINTN && errNo <= MAX_UINTN
    ensures var stream := Exchange(ReplyText(code, Some(errNo), false), errNo);
            && Alone(c, Send(c, ToReceive), stream) ==
               Returned(if code < 0x8000_0000_0000_0000 then code else code - 0x1_0000_0000_0000_0000)
            && Said(c, replyTo, Send(c, ToReceive), stream) == if errNo > 0 then [Error(errNo % 256)] else []
  {
    hide Alone, Said, ParseF, Frame, CStr, ReplyText, Error, Send;
    var text := ReplyText(code, Some(errNo), false);
    var first, end: seq<byte> := Send(c, ToReceive), if errNo > 0 then [PLUS] else [];
    var f := ParseF(text);
    PlainReply(code, errNo);
    ReplyParsed(code, Some(errNo), false);
    Acknowledged(c, replyTo, ToReceive);
    Acknowledged(c, replyTo, ToClear(f.code));
    ReceiveNothing(c, Hunting);
    FrameRead(c, replyTo, text);
    Dispatched(c, text);
    DispatchSaid(c, replyTo, text);
    Finished(c, text);
    AloneAppend(c, first, [PLUS], Frame(text));
    SaidAppend(c, replyTo, first, [PLUS], Frame(text));
    AloneAppend(c, first, [PLUS] + Frame(text), end);
    SaidAppend(c, replyTo, first, [PLUS] + Frame(text), end);
    if errNo > 0 {
      AloneAppend(c, Send(c, ToClear(f.code)), [], end);
      SaidAppend(c, replyTo, Send(c, ToClear(f.code)), [], end);
      assert [] + end == end;
    } else {
      NothingAfterReturn(c, replyTo, f.code);
    }
  }

  lemma NothingAfterReturn(c: Config, replyTo: Replies, code: int)
    ensures Alone(c, Returned(code), []) == Returned(code) && Said(c, replyTo, Returned(code), []) == []
  {
  }

  // ------------------------------------------------ every interleaving

  datatype Owner = ByCall | ByCallback

  /** `owner` says who took each byte of the stream so far; `start` and `end` delimit
      what the current or last call has taken, and `guarded` is the kind of that call. */
  datatype World = World(stream: seq<byte>, owner: seq<Owner>, flag: bool, processing: bool, main: Reader,
                         guarded: bool, start: nat, end: nat, steps: nat, raised: nat)

  /** GdbRead raises gProcessingFPacket around its work, a guarded call; GdbWrite, which
      goes through the same steps, does not. */
  datatype Event = Arrive(b: byte) | Call(guarded: bool) | Step | Tick

  const BOOT := World([], [], false, false, Outside, false, 0, 0, 0, 0)

  function DoStep(c: Config, w: World): World
    requires InCall(w.main) && |w.owner| <= |w.stream|
  {
    var m, pos := w.main, |w.owner|;
    if WantsByte(m) then
      if pos == |w.stream| then w
      else w.(main := OnByte(c, m, w.stream[pos]), owner := w.owner + [ByCall])
    else
      var raises := m.Parsing? && ParseF(m.packet).ctrlC;
      w.(main := OnItsOwn(c, m), flag := w.flag || raises,
         raised := w.raised + if raises && !w.flag then 1 else 0,
         processing := if m.Clearing? && w.guarded then false else w.processing,
         end := if m.Clearing? then pos else w.end)
  }

  function DoTick(w: World): World
    requires |w.owner| <= |w.stream|
  {
    var waiting := w.stream[|w.owner|..];
    var looks := !w.flag && !w.processing;
    var n := if looks then Drained(waiting) else 0;
    var caught := looks && CTRL_C in waiting;
    w.(owner := w.owner + seq(n, i => ByCallback), flag := false,
       raised := w.raised + if caught then 1 else 0,
       steps := w.steps + if w.flag || caught then 1 else 0)
  }

  /** One event; a call cannot start inside a call, and outside there is no step. */
  function Do(c: Config, w: World, e: Event): World
    requires |w.owner| <= |w.stream|
  {
    match e
    case Arrive(b) => w.(stream := w.stream + [b])
    case Call(guarded) =>
      if InCall(w.main) then w
      else w.(main := Send(c, ToReceive), processing := guarded || w.processing, guarded := guarded, start := |w.owner|)
    case Step => if InCall(w.main) then DoStep(c, w) else w
    case Tick => DoTick(w)
  }

  predicate CallsOwn(w: World, from: nat, to: nat)
    requires to <= |w.owner|
  {
    forall i :: from <= i < to ==> w.owner[i] == ByCall
  }

  /** The bytes of the running call, if any, were all taken by it. */
  predicate Exclusive(w: World) {
    InCall(w.main) ==> CallsOwn(w, w.start, |w.owner|)
  }

  /** What holds whether or not the flag is raised. */
  ghost predicate Sound(c: Config, w: World) {
    && |w.owner| <= |w.stream| && w.start <= |w.owner|
    && w.processing == (w.guarded && InCall(w.main))
    && w.raised == w.steps + (if w.flag then 1 else 0)
    && (w.main.Parsing? ==> ParseF(w.main.packet).errNo.Some?)
  }

  /** A guarded call is where it would be had it been left alone with the bytes it has
      taken, and those are one unbroken stretch of the stream. */
  ghost predicate Undisturbed(c: Config, w: World)
    requires |w.owner| <= |w.stream|
  {
    w.guarded ==>
    && (InCall(w.main) ==>
          && w.start <= |w.owner| && CallsOwn(w, w.start, |w.owner|)
          && Alone(c, w.main, []) == Alone(c, Send(c, ToReceive), w.stream[w.start..|w.owner|]))
    && (w.main.Returned? ==>
          && w.start <= w.end <= |w.owner| && CallsOwn(w, w.start, w.end)
          && w.main == Alone(c, Send(c, ToReceive), w.stream[w.start..w.end]))
  }

  lemma DoSound(c: Config, w: World, e: Event)
    requires Sound(c, w)
    ensures Sound(c, Do(c, w, e))
  {
    hide DoStep, DoTick, ParseF;
    if e == Step && InCall(w.main) {
      StepSound(c, w);
    } else if e == Tick {
      TickSound(c, w);
    }
  }

  lemma StepSound(c: Config, w: World)
    requires Sound(c, w) && InCall(w.main)
    ensures Sound(c, DoStep(c, w))
  {
    hide CStr, Next, HexToUintn, Find;
  }

  lemma TickSound(c: Config, w: World)
    requires Sound(c, w)
    ensures Sound(c, DoTick(w))
  {
    hide Drained, ParseF;
  }

  lemma ByteUndisturbed(c: Config, w: World)
    requires Sound(c, w) && Undisturbed(c, w) && WantsByte(w.main) && |w.owner| < |w.stream|
    ensures Undisturbed(c, DoStep(c, w))
  {
    hide Alone, OnByte, OnItsOwn, Send, ParseF;
    var m, pos := w.main, |w.owner|;
    var w', b := DoStep(c, w), w.stream[pos];
    OneByte(c, m, b);
    if w.guarded {
      var u := w.stream[w.start..pos];
      AloneAppend(c, Send(c, ToReceive), u, [b]);
      AloneAppend(c, m, [], [b]);
      assert [] + [b] == [b] && u + [b] == w'.stream[w.start..|w'.owner|];
    }
  }

  lemma OneByte(c: Config, m: Reader, b: byte)
    requires WantsByte(m)
    ensures InCall(OnByte(c, m, b)) && Alone(c, m, [b]) == Alone(c, OnByte(c, m, b), [])
  {
    hide Next, OnItsOwn;
    assert [b][1..] == [];
  }

  lemma OwnUndisturbed(c: Config, w: World)
    requires Sound(c, w) && Undisturbed(c, w) && InCall(w.main) && !WantsByte(w.main)
    ensures Undisturbed(c, DoStep(c, w))
  {
    hide ParseF, CStr;
    var m, w' := w.main, DoStep(c, w);
    AloneRank(c, m);
    assert Alone(c, m, []) == Alone(c, w'.main, []);
    assert w'.owner == w.owner && w'.stream == w.stream;
    assert w'.main.Returned? ==> w'.end == |w.owner| && w'.main == Alone(c, w'.main, []);
  }

  lemma ArrivalUndisturbed(c: Config, w: World, b: byte)
    requires Sound(c, w) && Undisturbed(c, w)
    ensures Undisturbed(c, Do(c, w, Arrive(b)))
  {
    hide Alone, ParseF, Send;
    var stream := w.stream + [b];
    assert stream[w.start..|w.owner|] == w.stream[w.start..|w.owner|];
    if w.guarded && w.main.Returned? {
      assert stream[w.start..w.end] == w.stream[w.start..w.end];
    }
  }

  lemma CallUndisturbed(c: Config, w: World, guarded: bool)
    requires Sound(c, w) && Undisturbed(c, w)
    ensures var w' := Do(c, w, Call(guarded)); |w'.owner| <= |w'.stream| && Undisturbed(c, w')
  {
    hide Alone, ParseF;
    var w' := Do(c, w, Call(guarded));
    if !InCall(w.main) {
      assert w'.stream[w'.start..|w'.owner|] == [];
    }
  }

  lemma StepUndisturbed(c: Config, w: World)
    requires Sound(c, w) && Undisturbed(c, w) && InCall(w.main)
    ensures |DoStep(c, w).owner| <= |DoStep(c, w).stream| && Undisturbed(c, DoStep(c, w))
  {
    hide Alone, ParseF, OnItsOwn, OnByte;
    if !WantsByte(w.main) {
      OwnUndisturbed(c, w);
    } else if |w.owner| < |w.stream| {
      ByteUndisturbed(c, w);
    }
  }

  lemma TickUndisturbed(c: Config, w: World)
    requires Sound(c, w) && Undisturbed(c, w)
    ensures |DoTick(w).owner| <= |DoTick(w).stream| && Undisturbed(c, DoTick(w))
  {
    hide Alone, ParseF, Drained, Send;
  }

  lemma DoUndisturbed(c: Config, w: World, e: Event)
    requires Sound(c, w) && Undisturbed(c, w)
    ensures |Do(c, w, e).owner| <= |Do(c, w, e).stream|
    ensures Undisturbed(c, Do(c, w, e))
  {
    hide Alone, ParseF, DoStep, DoTick;
    match e
    case Arrive(b) => ArrivalUndisturbed(c, w, b);
    case Call(guarded) => CallUndisturbed(c, w, guarded);
    case Step => if InCall(w.main) { StepUndisturbed(c, w); }
    case Tick => TickUndisturbed(c, w);
  }

  /** The world after a schedule of arrivals, calls, steps of the call and callbacks. */
  ghost function Exec(c: Config, schedule: seq<Event>): (w: World)
    ensures Sound(c, w) && Undisturbed(c, w)
  {
    if schedule == [] then BOOT
    else
      var w := Exec(c, schedule[..|schedule| - 1]);
      var e := schedule[|schedule| - 1];
      DoSound(c, w, e);
      DoUndisturbed(c, w, e);
      Do(c, w, e)
  }

  // ------------------------------------------------ results

  /** Whatever the callback does in between, and whatever other calls came before, GdbRead
      returns what it would have returned alone on one unbroken stretch of the stream, all
      of which it took itself. */
  lemma Transparent(c: Config, schedule: seq<Event>)
    ensures var w := Exec(c, schedule);
            w.guarded && w.main.Returned? ==>
              && w.start <= w.end <= |w.owner| <= |w.stream| && CallsOwn(w, w.start, w.end)
              && Alone(c, Send(c, ToReceive), w.stream[w.start..w.end]) == w.main
    ensures Exec(c, schedule).guarded ==> Exclusive(Exec(c, schedule))
  {
    hide Exec, Alone;
  }

  /** In schedules that mix both kinds, the callback keeps off the bytes of a call in every
      interleaving exactly for the kind that raises gProcessingFPacket. */
  lemma ExclusiveExactly(c: Config, guarded: bool)
    ensures (forall schedule :: Exec(c, schedule).guarded == guarded ==> Exclusive(Exec(c, schedule))) <==> guarded
  {
    hide Exec;
    if guarded {
      forall schedule
        ensures Exec(c, schedule).guarded ==> Exclusive(Exec(c, schedule))
      {
        Transparent(c, schedule);
      }
    } else {
      StolenByte(c);
    }
  }

  /** Without the flag the callback takes a character the call is waiting for. */
  lemma StolenByte(c: Config)
    ensures var w := Exec(c, [Call(false), Arrive(PLUS), Tick]);
            InCall(w.main) && WantsByte(w.main) && !w.guarded && w.start == 0 && w.owner == [ByCallback] && !Exclusive(w)
  {
    var w1 := Do(c, BOOT, Call(false));
    var w2 := Do(c, w1, Arrive(PLUS));
    assert w2.stream[0..] == [PLUS] && w2.stream == [PLUS] && w2.owner == [];
    var w3 := DoTick(w2);
    assert w3.owner == [ByCallback] by { assert Drained([PLUS]) == 1; }
    assert w3.owner[0] == ByCallback;
    hide Do;
    assert Exec(c, []) == BOOT;
    hide Exec;
    ExecNext(c, [], Call(false));
    ExecNext(c, [Call(false)], Arrive(PLUS));
    ExecNext(c, [Call(false), Arrive(PLUS)], Tick);
    assert [] + [Call(false)] == [Call(false)] && [Call(false)] + [Arrive(PLUS)] == [Call(false), Arrive(PLUS)];
    assert [Call(false), Arrive(PLUS)] + [Tick] == [Call(false), Arrive(PLUS), Tick];
  }

  lemma ExecNext(c: Config, schedule: seq<Event>, e: Event)
    ensures Exec(c, schedule + [e]) == Do(c, Exec(c, schedule), e)
  {
    assert (schedule + [e])[..|schedule + [e]| - 1] == schedule;
    hide Do;
  }

  /** ErrNo is set by the parser before GdbRead looks at it, in every interleaving. */
  lemma ErrNoInitialised(c: Config, schedule: seq<Event>)
    ensures var w := Exec(c, schedule);
            w.main.Parsing? ==> ParseF(w.main.packet).errNo.Some?
  {
    hide Exec, ParseF;
  }

  /** Each raising of the break flag is followed by exactly one single step: at most one
      is outstanding, and none is lost or doubled. */
  lemma OneStepPerBreak(c: Config, schedule: seq<Event>)
    ensures var w := Exec(c, schedule);
            w.raised == w.steps + if w.flag then 1 else 0
  {
    hide Exec;
  }

  ghost function Continue(c: Config, w: World, more: seq<Event>): (w': World)
    requires Sound(c, w)
    ensures Sound(c, w')
    decreases |more|
  {
    if more == [] then w else DoSound(c, w, more[0]); Continue(c, Do(c, w, more[0]), more[1..])
  }

  /** The callback of the model is the method PeriodicCallBack on what is waiting. */
  method TickAsCoded(w: World) returns (w': World)
    requires |w.owner| <= |w.stream|
    ensures w'.owner == DoTick(w).owner && w'.flag == DoTick(w).flag && w'.steps == DoTick(w).steps
    ensures w'.stream == w.stream && w'.main == w.main && w'.processing == w.processing
  {
    hide Drained;
    var flags := new Flags();
    flags.ctrlCBreak, flags.processingF := w.flag, w.processing;
    var taken, stepped := flags.PeriodicCallBack(w.stream[|w.owner|..]);
    w' := w.(owner := w.owner + seq(taken, i => ByCallback), flag := flags.ctrlCBreak,
             steps := w.steps + if stepped then 1 else 0);
  }

  lemma FlagPendsOnce(c: Config, w: World, e: Event)
    requires Sound(c, w) && w.flag && e != Tick
    ensures Do(c, w, e).flag && Do(c, w, e).steps == w.steps
  {
    hide ParseF, OnItsOwn, OnByte, DoTick;
  }

  lemma {:induction false} FlagPends(c: Config, w: World, more: seq<Event>)
    requires Sound(c, w) && w.flag && Tick !in more
    ensures var w' := Continue(c, w, more); w'.flag && w'.steps == w.steps
    decreases |more|
  {
    hide Do;
    if more != [] {
      DoSound(c, w, more[0]);
      assert more[0] in more;
      FlagPendsOnce(c, w, more[0]);
      FlagPends(c, Do(c, w, more[0]), more[1..]);
    }
  }

  lemma PendingTick(w: World)
    requires |w.owner| <= |w.stream| && w.flag
    ensures DoTick(w) == w.(flag := false, steps := w.steps + 1)
  {
    hide Drained;
    assert w.owner + seq(0, i => ByCallback) == w.owner;
  }

  /** A 'C' in the F reply, with no break pending, causes one single step at the next
      callback, however much happens before it, and that callback takes no byte. */
  lemma CtrlCInReply(c: Config, w: World, more: seq<Event>)
    requires Sound(c, w) && !w.flag && w.main.Parsing? && ParseF(w.main.packet).ctrlC
    requires Tick !in more
    ensures Sound(c, Do(c, w, Step))
    ensures var before := Continue(c, Do(c, w, Step), more);
            && before.steps == w.steps
            && Do(c, before, Tick) == before.(flag := false, steps := w.steps + 1)
  {
    hide ParseF, DoStep, DoTick, Continue;
    DoSound(c, w, Step);
    RaisingStep(c, w);
    FlagPends(c, DoStep(c, w), more);
    PendingTick(Continue(c, DoStep(c, w), more));
  }

  lemma RaisingStep(c: Config, w: World)
    requires Sound(c, w) && w.main.Parsing? && ParseF(w.main.packet).ctrlC
    ensures DoStep(c, w).flag && DoStep(c, w).steps == w.steps
  {
    hide ParseF, OnItsOwn;
  }
}
