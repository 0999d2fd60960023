/** SendPacket and repeated calls of ReceivePacket run against each other over a line that
    may damage bytes in both directions, one byte at a time and in every interleaving. */
module GdbLink {
  import opened Bytes
  import opened GdbPacket
  import opened GdbTranscript

  /** `channel(i)` is what arrives of the i-th transmission of the frame, `heard(i, b)` what
      arrives of the answer `b` to it. */
  datatype Config = Config(size: nat, before: byte, payload: seq<byte>, retries: nat, channel: nat -> seq<byte>,
                           heard: (nat, byte) -> byte) {
    function Good(): Verdict { ChecksumOk(before) }

    function Length(): nat { |payload| + 4 }

    /** What arrives of the i-th transmission, read as an attempt. */
    function Arrival(i: nat): Attempt
      requires |channel(i)| == Length()
    {
      var w := channel(i);
      Attempt([], [], w[1..|payload| + 1], true, w[|payload| + 2], w[|payload| + 3])
    }

    /** The framing survives: '$', as many plain bytes as were sent, '#', two characters. */
    predicate Framed(i: nat) {
      && |channel(i)| == Length()
      && channel(i) == Wire(Arrival(i))
      && Plain(Arrival(i).body)
    }

    predicate Intact(i: nat) { channel(i) == Frame(payload) }

    function AnswerTo(i: nat): byte { if Intact(i) then PLUS else MINUS }

    /** What the sender reads after the i-th transmission. */
    function Heard(i: nat): byte { heard(i, AnswerTo(i)) }

    /** What it has read after the first n. */
    function HeardUpTo(n: nat): (r: seq<byte>)
      ensures |r| == n && forall i :: 0 <= i < n ==> r[i] == Heard(i)
    {
      if n == 0 then [] else HeardUpTo(n - 1) + [Heard(n - 1)]
    }

    /** How many of the first n transmissions arrive intact. */
    function Arrived(n: nat): nat {
      if n == 0 then 0 else Arrived(n - 1) + if Intact(n - 1) then 1 else 0
    }

    /** Each transmission arrives as sent, or damaged so that the sum disagrees. */
    ghost predicate Valid() {
      && Plain(payload) && |payload| + 2 <= size
      && forall i: nat :: Framed(i) && (Intact(i) || !Accepts(Good(), Arrival(i)))
    }
  }

  datatype Sender =
    | Sending(i: nat, k: nat)  // transmission i, k bytes of it are out
    | Waiting(i: nat)          // transmission i is out
    | Acked(i: nat)            // a '+' was read after transmission i
    | GaveUp

  /** `delivered` is what the calls of ReceivePacket have returned; the next call begins
      as soon as one returns. */
  datatype Link = Link(sender: Sender, forth: seq<byte>, receiver: Receiver, delivered: seq<seq<byte>>,
                       back: seq<byte>, read: seq<byte>)

  datatype Move = Put | Get | ReadAnswer

  function Start(c: Config): Link {
    Link(if c.retries == 0 then GaveUp else Sending(0, 0), [], Hunting, [], [], [])
  }

  predicate Enabled(c: Config, s: Link, m: Move) {
    match m
    case Put => s.sender.Sending?
    case Get => s.forth != []
    case ReadAnswer => s.sender.Waiting? && s.back != []
  }

  /** The receiver takes a byte. */
  function Take(c: Config, s: Link, b: byte): Link {
    var st, answer := Next(c.size, c.Good(), s.receiver, b), Answer(c.Good(), s.receiver, b);
    s.(receiver := if st.Delivered? then Hunting else st, back := s.back + answer,
       delivered := s.delivered + if st.Delivered? then [st.data] else [])
  }

  /** One byte is put, taken or answered; a move that is not enabled does nothing. */
  function Do(c: Config, s: Link, m: Move): Link
    requires s.sender.Sending? ==> s.sender.k < |c.channel(s.sender.i)|
  {
    if !Enabled(c, s, m) then s
    else
      match m
      case Put =>
        var Sending(i, k) := s.sender;
        s.(forth := s.forth + [c.channel(i)[k]], sender := if k + 1 == c.Length() then Waiting(i) else Sending(i, k + 1))
      case Get => Take(c, s, s.forth[0]).(forth := s.forth[1..])
      case ReadAnswer =>
        var i := s.sender.i;
        var b := c.heard(i, s.back[0]);
        s.(back := s.back[1..], read := s.read + [b],
           sender := if b == PLUS then Acked(i) else if i + 1 == c.retries then GaveUp else Sending(i + 1, 0))
  }

  // ------------------------------------------------ one transmission, byte by byte

  lemma Arriving(c: Config, i: nat, j: nat)
    requires c.Valid() && j <= |c.channel(i)|
    ensures var w := c.channel(i)[..j];
            && After(c.size, c.Good(), Hunting, w).Delivered? == (j == c.Length() && c.Intact(i))
            && (j < c.Length() ==> Answers(c.size, c.Good(), Hunting, w) == [])
            && (j == c.Length() && c.Intact(i) ==>
                  && After(c.size, c.Good(), Hunting, w) == Delivered(c.payload)
                  && Answers(c.size, c.Good(), Hunting, w) == [PLUS])
            && (j == c.Length() && !c.Intact(i) ==>
                  && After(c.size, c.Good(), Hunting, w) == Hunting
                  && Answers(c.size, c.Good(), Hunting, w) == [MINUS])
  {
    hide After, Answers, c.Valid, c.Intact, Frame;
    WholeArrives(c, i);
    if j == c.Length() {
      assert c.channel(i)[..j] == c.channel(i);
    } else {
      PartArrives(c, i, j);
    }
  }

  lemma WholeArrives(c: Config, i: nat)
    requires c.Valid()
    ensures var w := c.channel(i);
            && |w| == c.Length()
            && After(c.size, c.Good(), Hunting, w) == (if c.Intact(i) then Delivered(c.payload) else Hunting)
            && Answers(c.size, c.Good(), Hunting, w) == [c.AnswerTo(i)]
  {
    hide After, Answers, Frame, Sum, HexToUintn, HexUpper, Wire;
    assert c.Framed(i);
    WireHeard(c.size, c.Good(), c.Arrival(i));
    if c.Intact(i) {
      OwnChecksumOk(c.before, c.payload);
      IntactArrival(c, i);
    }
  }

  lemma PartArrives(c: Config, i: nat, j: nat)
    requires c.Valid() && j < |c.channel(i)|
    ensures var w := c.channel(i)[..j];
            j < c.Length() && !After(c.size, c.Good(), Hunting, w).Delivered? && Answers(c.size, c.Good(), Hunting, w) == []
  {
    hide After, Answers, Frame, Sum, HexToUintn, HexUpper;
    assert c.Framed(i);
    var good, n, w := c.Good(), |c.payload|, c.channel(i);
    var a := c.Arrival(i);
    assert Opening(a) == [DOLLAR] + a.body;
    if j == 0 {
      Begin(c.size, good, Hunting, w[..j]);
    } else if j <= n + 1 {
      var part := a.(body := a.body[..j - 1]);
      assert Opening(part) == w[..j];
      OpeningHeard(c.size, good, part);
    } else {
      assert w[..n + 1] == Opening(a);
      ClosingHeard(c.size, good, a);
      assert w[..j] == if j == n + 2 then Opening(a) + [HASH] else Opening(a) + [HASH] + [a.c1];
    }
  }

  lemma IntactArrival(c: Config, i: nat)
    requires |c.channel(i)| == c.Length() && c.Intact(i)
    ensures c.Arrival(i) == FrameAttempt(c.payload)
  {
    hide Sum, HexUpper;
    assert Frame(c.payload)[1..|c.payload| + 1] == c.payload;
  }

  // ------------------------------------------------ the invariant

  /** No '+' was read after any transmission before the i-th. */
  ghost predicate Unacked(c: Config, i: nat) {
    forall j: nat :: j < i ==> c.Heard(j) != PLUS
  }

  /** Of the first `n` transmissions those that arrived intact were delivered, and nothing
      else was. */
  ghost predicate AllDelivered(c: Config, delivered: seq<seq<byte>>, n: nat) {
    |delivered| == c.Arrived(n) && forall d :: d in delivered ==> d == c.payload
  }

  /** The receiver has taken the first `j` bytes of transmission i. */
  ghost predicate HasTaken(c: Config, s: Link, i: nat, j: nat)
    requires j <= |c.channel(i)|
  {
    if j < c.Length() then
      && s.receiver == After(c.size, c.Good(), Hunting, c.channel(i)[..j])
      && s.back == [] && AllDelivered(c, s.delivered, i)
    else
      s.receiver == Hunting && s.back == [c.AnswerTo(i)] && AllDelivered(c, s.delivered, i + 1)
  }

  /** The first `k` bytes of transmission i are out, and some of them on the line. */
  ghost predicate Halfway(c: Config, s: Link, i: nat, k: nat) {
    && i < c.retries && Unacked(c, i) && s.read == c.HeardUpTo(i)
    && |c.channel(i)| == c.Length()
    && |s.forth| <= k <= c.Length()
    && s.forth == c.channel(i)[k - |s.forth|..k]
    && HasTaken(c, s, i, k - |s.forth|)
  }

  /** `n` transmissions are over and nothing is on the line. */
  ghost predicate Over(c: Config, s: Link, n: nat) {
    s.read == c.HeardUpTo(n) && s.forth == [] && s.back == [] && s.receiver == Hunting && AllDelivered(c, s.delivered, n)
  }

  ghost predicate Inv(c: Config, s: Link) {
    match s.sender
    case Sending(i, k) => k < c.Length() && Halfway(c, s, i, k)
    case Waiting(i) => Halfway(c, s, i, c.Length())
    case Acked(i) => i < c.retries && Unacked(c, i) && c.Heard(i) == PLUS && Over(c, s, i + 1)
    case GaveUp => Unacked(c, c.retries) && Over(c, s, c.retries)
  }

  /** A new transmission begins. */
  lemma BeginInv(c: Config, s: Link, i: nat)
    requires c.Valid() && i < c.retries && Unacked(c, i) && Over(c, s, i) && s.sender == Sending(i, 0)
    ensures Inv(c, s)
  {
    hide After, Answers, Wire, Frame, c.Intact, c.HeardUpTo, c.Arrived, Unacked;
    assert c.Framed(i);
    Begin(c.size, c.Good(), Hunting, c.channel(i)[..0]);
  }

  lemma StartInv(c: Config)
    requires c.Valid()
    ensures Inv(c, Start(c))
  {
    hide c.Valid, Halfway;
    if c.retries > 0 {
      BeginInv(c, Start(c), 0);
    }
  }

  lemma PutInv(c: Config, s: Link)
    requires c.Valid() && Inv(c, s) && s.sender.Sending?
    ensures Inv(c, Do(c, s, Put))
  {
    hide After, Answers, Wire, Frame, c.Valid, Unacked, AllDelivered, c.HeardUpTo, c.Intact;
    var i, k := s.sender.i, s.sender.k;
    var w := c.channel(i);
    assert w[k - |s.forth|..k] + [w[k]] == w[k - |s.forth|..k + 1];
  }

  /** One more byte of a transmission is taken. */
  lemma TakeOne(c: Config, s: Link, i: nat, j: nat)
    requires c.Valid() && j < |c.channel(i)| == c.Length() && HasTaken(c, s, i, j)
    ensures HasTaken(c, Take(c, s, c.channel(i)[j]), i, j + 1)
  {
    hide After, Answers, Wire, Frame, Next, Answer, c.Valid, c.Intact;
    var w := c.channel(i);
    Extend(c.size, c.Good(), Hunting, w[..j], w[j]);
    assert w[..j] + [w[j]] == w[..j + 1];
    Arriving(c, i, j);
    Arriving(c, i, j + 1);
    var answer := Answer(c.Good(), s.receiver, w[j]);
    assert [] + answer == answer;
    assert s.delivered + [] == s.delivered;
  }

  lemma GetInv(c: Config, s: Link)
    requires c.Valid() && Inv(c, s) && Enabled(c, s, Get)
    ensures Inv(c, Do(c, s, Get))
  {
    hide c.Valid, Take, Halfway, Unacked, c.HeardUpTo;
    var i, k := s.sender.i, if s.sender.Sending? then s.sender.k else c.Length();
    HalfwayGet(c, s, i, k);
    TakeKeeps(c, s, s.forth[0]);
  }

  lemma TakeKeeps(c: Config, s: Link, b: byte)
    ensures var t := Take(c, s, b); t.sender == s.sender && t.forth == s.forth && t.read == s.read
  {
    hide Next, Answer;
  }

  lemma HalfwayGet(c: Config, s: Link, i: nat, k: nat)
    requires c.Valid() && Halfway(c, s, i, k) && s.forth != []
    ensures Halfway(c, Take(c, s, s.forth[0]).(forth := s.forth[1..]), i, k)
  {
    hide c.Valid, Take, c.Intact, c.HeardUpTo, Unacked, AllDelivered, After;
    var w, j := c.channel(i), k - |s.forth|;
    FrontTaken(w, j, k);
    TakeOne(c, s, i, j);
    TakeKeeps(c, s, w[j]);
  }

  lemma FrontTaken(w: seq<byte>, j: nat, k: nat)
    requires j < k <= |w|
    ensures w[j..k][0] == w[j] && w[j..k][1..] == w[j + 1..k]
  {
  }

  lemma ReadInv(c: Config, s: Link)
    requires c.Valid() && Inv(c, s) && Enabled(c, s, ReadAnswer)
    ensures Inv(c, Do(c, s, ReadAnswer))
  {
    hide c.Valid, Inv, AllDelivered, c.AnswerTo, c.HeardUpTo, Unacked, Take;
    AnswerWaits(c, s);
    var i, s' := s.sender.i, Do(c, s, ReadAnswer);
    assert s.back[1..] == [];
    ReadOne(c, i);
    if c.Heard(i) == PLUS {
      AckedInv(c, s', i);
    } else {
      UnackedNext(c, i);
      if i + 1 < c.retries {
        BeginInv(c, s', i + 1);
      } else {
        GaveUpInv(c, s');
      }
    }
  }

  lemma UnackedNext(c: Config, i: nat)
    requires Unacked(c, i) && c.Heard(i) != PLUS
    ensures Unacked(c, i + 1)
  {
    hide c.Heard;
  }

  lemma ReadOne(c: Config, i: nat)
    ensures c.HeardUpTo(i + 1) == c.HeardUpTo(i) + [c.Heard(i)]
  {
    hide c.Heard;
  }

  /** When there is an answer to read the line is empty and the answer is the only one. */
  lemma AnswerWaits(c: Config, s: Link)
    requires c.Valid() && Inv(c, s) && Enabled(c, s, ReadAnswer)
    ensures var i := s.sender.i;
            && i < c.retries && Unacked(c, i) && s.read == c.HeardUpTo(i) && s.forth == []
            && s.back == [c.AnswerTo(i)] && s.receiver == Hunting && AllDelivered(c, s.delivered, i + 1)
  {
    hide After, c.Valid, c.AnswerTo, AllDelivered, c.HeardUpTo;
  }

  lemma AckedInv(c: Config, s: Link, i: nat)
    requires i < c.retries && Unacked(c, i) && c.Heard(i) == PLUS && Over(c, s, i + 1) && s.sender == Acked(i)
    ensures Inv(c, s)
  {
    hide Halfway, Over, Unacked;
  }

  lemma GaveUpInv(c: Config, s: Link)
    requires Unacked(c, c.retries) && Over(c, s, c.retries) && s.sender == GaveUp
    ensures Inv(c, s)
  {
    hide Halfway, Over, Unacked;
  }

  /** The state after a schedule; moves that cannot be made are skipped. */
  ghost function Exec(c: Config, schedule: seq<Move>): (s: Link)
    requires c.Valid()
    ensures Inv(c, s)
  {
    StartInv(c);
    if schedule == [] then Start(c)
    else
      var s := Exec(c, schedule[..|schedule| - 1]);
      var m := schedule[|schedule| - 1];
      DoInv(c, s, m);
      Do(c, s, m)
  }

  lemma DoInv(c: Config, s: Link, m: Move)
    requires c.Valid() && Inv(c, s)
    ensures s.sender.Sending? ==> s.sender.k < |c.channel(s.sender.i)|
    ensures Inv(c, Do(c, s, m))
  {
    hide c.Valid, HasTaken, Unacked, c.HeardUpTo, Take;
    if Enabled(c, s, m) {
      match m
      case Put => PutInv(c, s);
      case Get => GetInv(c, s);
      case ReadAnswer => ReadInv(c, s);
    }
  }

  // ------------------------------------------------ results

  ghost predicate Halted(c: Config, s: Link) {
    forall m :: !Enabled(c, s, m)
  }

  /** How many transmissions have been begun. */
  function Begun(c: Config, s: Link): nat {
    match s.sender
    case Sending(i, _) => i + 1
    case Waiting(i) => i + 1
    case Acked(i) => i + 1
    case GaveUp => c.retries
  }

  /** In every state of every interleaving, whatever becomes of the answers: nothing but the
      payload is ever delivered, and at most once per transmission that arrived intact. */
  lemma NeverWrong(c: Config, schedule: seq<Move>)
    requires c.Valid()
    ensures var s := Exec(c, schedule);
            && (forall d :: d in s.delivered ==> d == c.payload)
            && |s.delivered| <= c.Arrived(Begun(c, s)) && Begun(c, s) <= c.retries
            && (s.sender.Acked? || s.sender.GaveUp? ==> |s.delivered| == c.Arrived(Begun(c, s)))
  {
    hide After, Exec, c.Valid, c.Intact, c.HeardUpTo;
  }

  lemma NotStuckHalfway(c: Config, s: Link)
    requires c.Valid() && Inv(c, s) && s.sender.Waiting?
    ensures Enabled(c, s, Get) || Enabled(c, s, ReadAnswer)
  {
    hide After, AllDelivered, c.Valid, c.HeardUpTo, Unacked;
  }

  /** Every interleaving ends in the same place: after the first transmission whose answer
      is read as '+', if one of the allowed ones is, and otherwise after exactly the allowed
      number; the payload has then been delivered as often as it arrived intact. */
  lemma Outcome(c: Config, schedule: seq<Move>)
    requires c.Valid() && Halted(c, Exec(c, schedule))
    ensures var s := Exec(c, schedule);
            && s.read == c.HeardUpTo(Begun(c, s)) && s.receiver == Hunting
            && |s.delivered| == c.Arrived(Begun(c, s)) && (forall d :: d in s.delivered ==> d == c.payload)
            && if exists i: nat :: i < c.retries && c.Heard(i) == PLUS then
                 && s.sender.Acked? && s.sender.i < c.retries && c.Heard(s.sender.i) == PLUS
                 && forall j: nat :: j < s.sender.i ==> c.Heard(j) != PLUS
               else s.sender.GaveUp?
  {
    hide After, Exec, c.Valid, c.Heard, c.HeardUpTo, Halfway;
    var s := Exec(c, schedule);
    assert !Enabled(c, s, Put);
    if s.sender.Waiting? {
      NotStuckHalfway(c, s);
      assert false;
    }
  }

  /** The answers come through. */
  ghost predicate AnswersIntact(c: Config) {
    forall i: nat, b: byte :: c.heard(i, b) == b
  }

  lemma {:induction false} NoneArrived(c: Config, n: nat)
    requires forall j: nat :: j < n ==> !c.Intact(j)
    ensures c.Arrived(n) == 0
    ensures AnswersIntact(c) ==> c.HeardUpTo(n) == Copies([MINUS], n)
  {
    hide c.Intact;
    if n > 0 {
      NoneArrived(c, n - 1);
    }
  }

  /** Where answers are not damaged, every interleaving ends at the first transmission that
      arrives intact, if one of the allowed ones does, with the payload delivered once and
      one '-' per earlier transmission; otherwise after exactly the allowed number, with
      nothing delivered. */
  lemma ExactlyOnce(c: Config, schedule: seq<Move>)
    requires c.Valid() && AnswersIntact(c) && Halted(c, Exec(c, schedule))
    ensures var s := Exec(c, schedule);
            if exists i: nat :: i < c.retries && c.Intact(i) then
              && s.sender.Acked? && s.delivered == [c.payload]
              && c.Intact(s.sender.i) && (forall j: nat :: j < s.sender.i ==> !c.Intact(j))
              && s.read == Copies([MINUS], s.sender.i) + [PLUS]
            else
              s.sender.GaveUp? && s.delivered == [] && s.read == Copies([MINUS], c.retries)
  {
    hide Exec, c.Valid, c.Intact, Halted, c.HeardUpTo, c.Arrived, Copies;
    Outcome(c, schedule);
    var s := Exec(c, schedule);
    forall j: nat
      ensures c.Heard(j) == PLUS <==> c.Intact(j)
    {
    }
    if s.sender.Acked? {
      NoneArrived(c, s.sender.i);
      ReadOne(c, s.sender.i);
      ArrivedNext(c, s.sender.i);
      assert s.delivered[0] in s.delivered;
    } else {
      NoneArrived(c, c.retries);
    }
  }

  lemma ArrivedNext(c: Config, n: nat)
    ensures c.Arrived(n + 1) == c.Arrived(n) + if c.Intact(n) then 1 else 0
  {
    hide c.Intact;
  }

  /** A damaged answer does harm in both directions. If the answer to a first transmission
      that arrived is not read as '+', and the second arrives too, the payload is delivered
      again; if the answer to one that was refused is read as '+', it is never delivered. */
  lemma DamagedAnswer(c: Config, schedule: seq<Move>)
    requires c.Valid() && Halted(c, Exec(c, schedule))
    ensures c.retries >= 2 && c.Intact(0) && c.Intact(1) && c.Heard(0) != PLUS ==> |Exec(c, schedule).delivered| >= 2
    ensures c.retries >= 1 && !c.Intact(0) && c.Heard(0) == PLUS ==>
              Exec(c, schedule).sender == Acked(0) && Exec(c, schedule).delivered == []
  {
    hide Exec, c.Valid, c.Intact, Halted, c.HeardUpTo, c.Heard, c.Arrived;
    Outcome(c, schedule);
    var s := Exec(c, schedule);
    NoTransmission(c);
    ArrivedNext(c, 0);
    ArrivedNext(c, 1);
    if Begun(c, s) >= 2 {
      ArrivedGrows(c, 2, Begun(c, s));
    }
  }

  lemma NoTransmission(c: Config)
    ensures c.Arrived(0) == 0
  {
  }

  lemma {:induction false} ArrivedGrows(c: Config, m: nat, n: nat)
    requires m <= n
    ensures c.Arrived(m) <= c.Arrived(n)
    decreases n
  {
    hide c.Intact;
    if m < n {
      ArrivedGrows(c, m, n - 1);
    }
  }

  /** The sender of the link keeps to the contract of SendPacket: given the answers it
      read, SendPacket puts out exactly this many frames. */
  lemma SendPacketAgrees(c: Config, schedule: seq<Move>, frames: nat)
    requires c.Valid() && Halted(c, Exec(c, schedule))
    ensures var s := Exec(c, schedule);
            FramesFor(c.retries, s.read, frames, true) <==> frames == Begun(c, s)
  {
    hide Exec, c.Valid, Halted, c.Heard, c.HeardUpTo;
    Outcome(c, schedule);
    var s := Exec(c, schedule);
    var n := Begun(c, s);
    assert s.sender.GaveUp? ==> forall k :: 0 <= k < n ==> s.read[k] != PLUS;
    assert forall k :: 0 <= k && k + 1 < n ==> s.read[k] != PLUS;
  }

  /** How many moves are left at most. */
  function Left(c: Config, s: Link): int {
    var round := 2 * c.Length() + 1;
    match s.sender
    case Sending(i, k) => (c.retries - i) * round - 2 * k + |s.forth|
    case Waiting(i) => (c.retries - i) * round - 2 * c.Length() + |s.forth|
    case Acked(_) => 0
    case GaveUp => 0
  }

  /** Every move that is made brings the end nearer, so no interleaving runs for ever. */
  lemma Progress(c: Config, s: Link, m: Move)
    requires c.Valid() && Inv(c, s)
    ensures Left(c, s) >= 0
    ensures s.sender.Sending? ==> s.sender.k < |c.channel(s.sender.i)|
    ensures Enabled(c, s, m) ==> Left(c, Do(c, s, m)) < Left(c, s)
  {
    hide After, c.Valid, AllDelivered, c.HeardUpTo, Unacked, c.Heard, Take;
    var round := 2 * c.Length() + 1;
    if s.forth != [] {
      TakeKeeps(c, s, s.forth[0]);
    }
    if s.sender.Sending? || s.sender.Waiting? {
      Distribute(c.retries - s.sender.i - 1, round);
    }
  }

  lemma ExecNext(c: Config, schedule: seq<Move>, m: Move)
    requires c.Valid()
    ensures var s := Exec(c, schedule);
            && (s.sender.Sending? ==> s.sender.k < |c.channel(s.sender.i)|)
            && Exec(c, schedule + [m]) == Do(c, s, m)
  {
    hide Inv, c.Valid, Do, Start;
    assert (schedule + [m])[..|schedule + [m]| - 1] == schedule;
    DoInv(c, Exec(c, schedule), m);
  }

  /** Every interleaving can be carried on until it rests, within the bound. */
  lemma {:induction false} Completes(c: Config, schedule: seq<Move>) returns (more: seq<Move>)
    requires c.Valid()
    ensures Halted(c, Exec(c, schedule + more)) && |more| <= Left(c, Exec(c, schedule))
    decreases Left(c, Exec(c, schedule))
  {
    hide Exec, Inv, c.Valid, Do, Left, Enabled;
    var s := Exec(c, schedule);
    Progress(c, s, Put);
    if Halted(c, s) {
      more := [];
      assert schedule + more == schedule;
    } else {
      var m :| Enabled(c, s, m);
      Progress(c, s, m);
      ExecNext(c, schedule, m);
      var rest := Completes(c, schedule + [m]);
      more := [m] + rest;
      assert schedule + more == schedule + [m] + rest;
    }
  }

  lemma Distribute(n: nat, round: nat)
    ensures (n + 1) * round == n * round + round && n * round >= 0
  {
  }

  lemma CleanLine(c: Config)
    requires Plain(c.payload) && |c.payload| + 2 <= c.size
    requires forall i: nat :: c.channel(i) == Frame(c.payload)
    ensures c.Valid()
  {
    hide Sum, HexUpper, HexToUintn;
    forall i: nat
      ensures c.Framed(i) && c.Intact(i)
    {
      FrameIsWire(c.payload);
      IntactArrival(c, i);
    }
  }

  /** Over a line that damages nothing, every payload that fits is delivered once, by the
      first transmission, in every interleaving that has come to rest. */
  lemma CleanLineDelivers(c: Config, schedule: seq<Move>)
    requires Plain(c.payload) && |c.payload| + 2 <= c.size && c.retries > 0 && AnswersIntact(c)
    requires forall i: nat :: c.channel(i) == Frame(c.payload)
    ensures c.Valid()
    ensures Halted(c, Exec(c, schedule)) ==>
              Exec(c, schedule).sender == Acked(0) && Exec(c, schedule).delivered == [c.payload]
  {
    hide Exec, Frame, c.Valid, Halted, AnswersIntact;
    CleanLine(c);
    if Halted(c, Exec(c, schedule)) {
      assert c.Intact(0);
      ExactlyOnce(c, schedule);
    }
  }
}
