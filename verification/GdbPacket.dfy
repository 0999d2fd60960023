/** The framed, checksummed packets of the GDB stub: SendPacket, ReceivePacket, and
    what a stream of bytes must look like for a packet to be taken from it. */
module GdbPacket {
  import opened Options
  import opened Bytes

  // ---------------------------------------------------------------- sending

  /** What SendPacket puts on the wire for a payload. */
  function Frame(p: seq<byte>): seq<byte> {
    [DOLLAR] + p + [HASH, HexUpper(Sum(p) / 16), HexUpper(Sum(p) % 16)]
  }

  function Copies(w: seq<byte>, n: nat): seq<byte> {
    if n == 0 then [] else Copies(w, n - 1) + w
  }

  /** One trip through the loop of SendPacket, up to the wait for the answer. */
  method PutFrame(packet: seq<byte>) returns (sent: seq<byte>, count: nat)
    requires NUL in packet
    ensures count == |CStr(packet)| && sent == Frame(CStr(packet))
  {
    hide Sum, CStr, HexUpper;
    ghost var payload := CStr(packet);
    sent := [DOLLAR];
    var checkSum: byte := 0;
    count := 0;
    SumNone();
    while packet[count] != NUL
      invariant 0 <= count <= |payload|
      invariant checkSum == Sum(payload[..count]) && sent == [DOLLAR] + payload[..count]
      decreases |payload| - count
    {
      assert payload[..count + 1] == payload[..count] + [payload[count]];
      SumLast(payload[..count], payload[count]);
      sent := sent + [packet[count]];
      checkSum := (checkSum + packet[count]) % 256;
      count := count + 1;
    }
    assert payload[..count] == payload;
    sent := sent + [HASH];
    sent := sent + [HexUpper(checkSum / 16)];
    sent := sent + [HexUpper(checkSum % 16)];
  }

  /** How many frames a sender that may try `retries` times has put out when it has
      read `answers`: no frame follows a '+', and every character read that is not a
      '+' costs one try. */
  predicate FramesFor(retries: nat, answers: seq<byte>, frames: nat, returned: bool) {
    && frames <= retries && frames <= |answers| + 1
    && (frames > 0 ==> PLUS !in answers[..frames - 1])
    && if returned then frames <= |answers| && (frames == retries || (frames > 0 && answers[frames - 1] == PLUS))
       else frames == |answers| + 1
  }

  /** Sends the text of `packet` until a '+' is read or `retries` frames are out.
      `answers` is everything the peer will ever send back; a wait past its end never
      returns (r is None). */
  method SendPacket(packet: seq<byte>, retries: nat, answers: seq<byte>)
    returns (r: Option<nat>, sent: seq<byte>, frames: nat)
    requires NUL in packet
    ensures sent == Copies(Frame(CStr(packet)), frames)
    ensures FramesFor(retries, answers, frames, r.Some?)
    ensures r.Some? ==> r.value == if retries == 0 then 0 else |CStr(packet)|
  {
    var timeout: nat := retries;
    var count := 0;
    frames, sent := 0, [];
    while true
      invariant timeout + frames == retries && frames <= |answers|
      invariant sent == Copies(Frame(CStr(packet)), frames)
      invariant PLUS !in answers[..frames]
      invariant count == if frames == 0 then 0 else |CStr(packet)|
      decreases timeout
    {
      if timeout == 0 {
        return Some(count), sent, frames;
      }
      timeout := timeout - 1;
      var frame;
      frame, count := PutFrame(packet);
      sent, frames := sent + frame, frames + 1;
      if frames > |answers| {
        return None, sent, frames;
      }
      var testChar := answers[frames - 1];
      if testChar == PLUS {
        return Some(count), sent, frames;
      }
    }
  }

  // ---------------------------------------------------------------- receiving

  /** Where ReceivePacket stands between two characters. */
  datatype Receiver =
    | Hunting
    | InBody(data: seq<byte>)
    | WantSum1(data: seq<byte>)
    | WantSum2(data: seq<byte>, c1: byte)
    | Delivered(data: seq<byte>)

  /** Whether two characters are the checksum of a body. */
  type Verdict = (seq<byte>, byte, byte) -> bool

  /** The test in ReceivePacket; `before` is the byte that happens to lie in front of
      its checksum string. */
  function ChecksumOk(before: byte): Verdict {
    (data, c1: byte, c2: byte) => HexToUintn(before, [c1, c2]) == Sum(data)
  }

  /** The body loop goes on while the index is below the buffer size less one. */
  function Collect(size: nat, data: seq<byte>): Receiver {
    if |data| + 1 < size then InBody(data) else WantSum1(data)
  }

  function Next(size: nat, good: Verdict, st: Receiver, c: byte): Receiver {
    match st
    case Hunting => if c == DOLLAR then Collect(size, []) else Hunting
    case InBody(data) =>
      if c == DOLLAR then Collect(size, [])
      else if c == HASH then WantSum1(data)
      else Collect(size, data + [c])
    case WantSum1(data) => WantSum2(data, c)
    case WantSum2(data, c1) => if good(data, c1, c) then Delivered(data) else Hunting
    case Delivered(_) => st
  }

  function Answer(good: Verdict, st: Receiver, c: byte): seq<byte> {
    if st.WantSum2? then [if good(st.data, st.c1, c) then PLUS else MINUS] else []
  }

  /** The receiver after reading all of `w`. */
  function After(size: nat, good: Verdict, st: Receiver, w: seq<byte>): Receiver {
    if w == [] then st else Next(size, good, After(size, good, st, w[..|w| - 1]), w[|w| - 1])
  }

  /** Everything it answered on the way. */
  function Answers(size: nat, good: Verdict, st: Receiver, w: seq<byte>): seq<byte> {
    if w == [] then []
    else
      var w' := w[..|w| - 1];
      Answers(size, good, st, w') + Answer(good, After(size, good, st, w'), w[|w| - 1])
  }

  lemma Begin(size: nat, good: Verdict, st: Receiver, w: seq<byte>)
    requires w == []
    ensures After(size, good, st, w) == st && Answers(size, good, st, w) == []
  {
  }

  lemma Extend(size: nat, good: Verdict, st: Receiver, w: seq<byte>, c: byte)
    ensures After(size, good, st, w + [c]) == Next(size, good, After(size, good, st, w), c)
    ensures Answers(size, good, st, w + [c]) == Answers(size, good, st, w) + Answer(good, After(size, good, st, w), c)
  {
    assert (w + [c])[..|w + [c]| - 1] == w;
  }

  lemma {:induction false} Append(size: nat, good: Verdict, st: Receiver, u: seq<byte>, v: seq<byte>)
    ensures After(size, good, st, u + v) == After(size, good, After(size, good, st, u), v)
    ensures Answers(size, good, st, u + v) == Answers(size, good, st, u) + Answers(size, good, After(size, good, st, u), v)
    decreases |v|
  {
    if v == [] {
      assert u + v == u;
    } else {
      var v' := v[..|v| - 1];
      assert (u + v)[..|u + v| - 1] == u + v';
      Append(size, good, st, u, v');
    }
  }


  /** Skips to the start of a packet. None: still waiting. */
  method AwaitStart(incoming: seq<byte>, start: nat, ghost size: nat, ghost good: Verdict) returns (r: Option<nat>)
    requires start <= |incoming|
    ensures r.None? ==> After(size, good, Hunting, incoming[start..]) == Hunting
                        && Answers(size, good, Hunting, incoming[start..]) == []
    ensures r.Some? ==> start < r.value <= |incoming|
                        && After(size, good, Hunting, incoming[start..r.value]) == Collect(size, [])
                        && Answers(size, good, Hunting, incoming[start..r.value]) == []
  {
    hide After, Answers;
    Begin(size, good, Hunting, incoming[start..start]);
    var pos := start;
    while pos < |incoming|
      invariant start <= pos <= |incoming|
      invariant After(size, good, Hunting, incoming[start..pos]) == Hunting
      invariant Answers(size, good, Hunting, incoming[start..pos]) == []
    {
      var testChar := incoming[pos];
      Extend(size, good, Hunting, incoming[start..pos], testChar);
      assert incoming[start..pos] + [testChar] == incoming[start..pos + 1];
      pos := pos + 1;
      if testChar == DOLLAR {
        return Some(pos);
      }
    }
    assert incoming[start..pos] == incoming[start..];
    return None;
  }

  /** Fills `buf` until '#' or until it is full, starting over at every '$'; gives the
      new position, the index and the running checksum. None: still waiting. */
  method CollectBody(incoming: seq<byte>, start: nat, buf: array<byte>, ghost good: Verdict) returns (r: Option<(nat, nat, byte)>)
    requires start <= |incoming| && buf.Length >= 1
    modifies buf
    ensures r.None? ==> !After(buf.Length, good, Collect(buf.Length, []), incoming[start..]).Delivered?
                        && Answers(buf.Length, good, Collect(buf.Length, []), incoming[start..]) == []
    ensures r.Some? ==> var (pos, index, sum) := r.value;
                        && start <= pos <= |incoming| && index < buf.Length && sum == Sum(buf[..index])
                        && After(buf.Length, good, Collect(buf.Length, []), incoming[start..pos]) == WantSum1(buf[..index])
                        && Answers(buf.Length, good, Collect(buf.Length, []), incoming[start..pos]) == []
  {
    hide After, Answers, Sum;
    var size := buf.Length;
    var pos, index := start, 0;
    var checkSum: byte := 0;
    Begin(size, good, Collect(size, []), incoming[start..start]);
    SumNone();
    while index < size - 1
      invariant start <= pos <= |incoming|
      invariant 0 <= index < size && checkSum == Sum(buf[..index])
      invariant After(size, good, Collect(size, []), incoming[start..pos]) == Collect(size, buf[..index])
      invariant Answers(size, good, Collect(size, []), incoming[start..pos]) == []
      decreases |incoming| - pos
    {
      ghost var data := buf[..index];
      if pos == |incoming| {
        assert incoming[start..pos] == incoming[start..];
        return None;
      }
      var c := incoming[pos];
      Extend(size, good, Collect(size, []), incoming[start..pos], c);
      assert incoming[start..pos] + [c] == incoming[start..pos + 1];
      pos := pos + 1;
      if c == DOLLAR {
        index, checkSum := 0, 0;
        continue;
      }
      if c == HASH {
        return Some((pos, index, checkSum));
      }
      buf[index] := c;
      checkSum := (checkSum + c) % 256;
      assert buf[..index + 1] == data + [c];
      SumLast(data, c);
      index := index + 1;
    }
    return Some((pos, index, checkSum));
  }

  datatype Trip = Starved | Accepted(end: nat, index: nat) | Rejected(end: nat)

  /** One trip through the outer loop of ReceivePacket. */
  method TryPacket(incoming: seq<byte>, start: nat, buf: array<byte>, before: byte) returns (r: Trip, reply: seq<byte>)
    requires start <= |incoming| && buf.Length >= 1
    modifies buf
    ensures var good := ChecksumOk(before);
            match r
            case Starved =>
              && !After(buf.Length, good, Hunting, incoming[start..]).Delivered?
              && reply == Answers(buf.Length, good, Hunting, incoming[start..])
            case Rejected(end) =>
              && start < end <= |incoming|
              && After(buf.Length, good, Hunting, incoming[start..end]) == Hunting
              && reply == Answers(buf.Length, good, Hunting, incoming[start..end])
            case Accepted(end, index) =>
              && start < end <= |incoming| && index < buf.Length && buf[index] == NUL
              && !After(buf.Length, good, Hunting, incoming[start..end - 1]).Delivered?
              && After(buf.Length, good, Hunting, incoming[start..end]) == Delivered(buf[..index])
              && reply == Answers(buf.Length, good, Hunting, incoming[start..end])
  {
    hide After, Answers, Sum, HexToUintn;
    ghost var size, good := buf.Length, ChecksumOk(before);
    var begun := AwaitStart(incoming, start, size, good);
    if begun.None? { return Starved, []; }
    ghost var u := incoming[start..begun.value];
    var body := CollectBody(incoming, begun.value, buf, good);
    if body.None? {
      Append(size, good, Hunting, u, incoming[begun.value..]);
      assert u + incoming[begun.value..] == incoming[start..];
      return Starved, [];
    }
    var (pos, index, checkSum) := body.value;
    buf[index] := NUL;
    Append(size, good, Hunting, u, incoming[begun.value..pos]);
    ghost var w := incoming[start..pos];
    assert u + incoming[begun.value..pos] == w;
    if pos == |incoming| {
      assert w == incoming[start..];
      return Starved, [];
    }
    var s0 := incoming[pos];
    Extend(size, good, Hunting, w, s0);
    assert w + [s0] == incoming[start..pos + 1];
    if pos + 1 == |incoming| {
      assert w + [s0] == incoming[start..];
      return Starved, [];
    }
    var s1 := incoming[pos + 1];
    Extend(size, good, Hunting, w + [s0], s1);
    assert w + [s0] + [s1] == incoming[start..pos + 2];
    if HexToUintn(before, [s0, s1]) == checkSum {
      buf[index] := NUL;
      return Accepted(pos + 2, index), [PLUS];
    }
    return Rejected(pos + 2), [MINUS];
  }

  /** ReceivePacket on a stream `incoming`: the number of characters it took, what it
      answered, and the index it returns. None: still waiting at the end of the stream. */
  method ReceivePacket(incoming: seq<byte>, buf: array<byte>, before: byte)
    returns (r: Option<nat>, taken: nat, replies: seq<byte>)
    requires buf.Length >= 1
    modifies buf
    ensures taken <= |incoming|
    ensures replies == Answers(buf.Length, ChecksumOk(before), Hunting, incoming[..taken])
    ensures var st := After(buf.Length, ChecksumOk(before), Hunting, incoming[..taken]);
            match r
            case None => taken == |incoming| && !st.Delivered?
            case Some(index) => index < buf.Length && buf[index] == NUL && st == Delivered(buf[..index])
    ensures r.Some? ==> taken > 0 && !After(buf.Length, ChecksumOk(before), Hunting, incoming[..taken - 1]).Delivered?
  {
    hide After, Answers, Sum, HexToUintn;
    ghost var size, good := buf.Length, ChecksumOk(before);
    forall i | 0 <= i < buf.Length { buf[i] := NUL; }
    taken, replies := 0, [];
    Begin(size, good, Hunting, incoming[..0]);
    while true
      invariant taken <= |incoming|
      invariant After(size, good, Hunting, incoming[..taken]) == Hunting
      invariant replies == Answers(size, good, Hunting, incoming[..taken])
      decreases |incoming| - taken
    {
      ghost var u := incoming[..taken];
      var trip, reply := TryPacket(incoming, taken, buf, before);
      replies := replies + reply;
      match trip
      case Starved =>
        Append(size, good, Hunting, u, incoming[taken..]);
        assert u + incoming[taken..] == incoming == incoming[..|incoming|];
        return None, |incoming|, replies;
      case Rejected(end) =>
        Append(size, good, Hunting, u, incoming[taken..end]);
        assert u + incoming[taken..end] == incoming[..end];
        taken := end;
      case Accepted(end, index) =>
        Append(size, good, Hunting, u, incoming[taken..end]);
        Append(size, good, Hunting, u, incoming[taken..end - 1]);
        assert u + incoming[taken..end] == incoming[..end];
        assert u + incoming[taken..end - 1] == incoming[..end - 1];
        return Some(index), end, replies;
    }
  }

  // ---------------------------------------------------------------- the checksum

  /** Two characters that are digits are the checksum of a body exactly if they are its sum,
      in either case, whatever lies before the checksum string. */
  lemma ChecksumExact(before: byte, data: seq<byte>, h: byte, l: byte)
    requires IsHex(h) && IsHex(l)
    ensures ChecksumOk(before)(data, h, l) <==> 16 * HexValue(h) + HexValue(l) == Sum(data)
  {
    hide HexToUintn, Sum;
    TwoDigits(before, h, l);
  }

  /** The reply OK on the wire. */
  lemma FrameOfOk()
    ensures Frame(Ascii("OK")) == Ascii("$OK#9A")
  {
    hide Sum;
    var ok: seq<byte> := [0x4f, 0x4b];
    assert Ascii("OK") == ok;
    SumAppend([0x4f], [0x4b]);
    SumOne(0x4f);
    SumOne(0x4b);
    assert [0x4f] + [0x4b] == ok && Sum(ok) == 0x9a;
    assert Ascii("$OK#9A") == [0x24, 0x4f, 0x4b, 0x23, 0x39, 0x41];
  }
}
