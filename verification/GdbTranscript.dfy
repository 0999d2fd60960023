/** What ReceivePacket makes of a stream, without its states: a stream is a run of
    attempts, each one noise, a '$', bodies given up at a further '$', a last body and
    two checksum characters. Every stream is one, and every such run is heard as such. */
module GdbTranscript {
  import opened Bytes
  import opened GdbPacket

  /** `hashed` is false when the buffer filled up first; the code then takes the next
      two characters for the checksum without having seen a '#'. */
  datatype Attempt = Attempt(noise: seq<byte>, abandoned: seq<seq<byte>>, body: seq<byte>,
                             hashed: bool, c1: byte, c2: byte)

  predicate Plain(u: seq<byte>) {
    DOLLAR !in u && HASH !in u
  }

  /** The bodies given up before the last one, each cut off by the next '$'. */
  function Restarts(us: seq<seq<byte>>): seq<byte> {
    if us == [] then [] else Restarts(us[..|us| - 1]) + us[|us| - 1] + [DOLLAR]
  }

  function Opening(a: Attempt): seq<byte> {
    a.noise + [DOLLAR] + Restarts(a.abandoned) + a.body
  }

  function Closing(a: Attempt): seq<byte> {
    if a.hashed then [HASH] else []
  }

  function Wire(a: Attempt): seq<byte> {
    Opening(a) + Closing(a) + [a.c1] + [a.c2]
  }

  function Wires(t: seq<Attempt>): seq<byte> {
    if t == [] then [] else Wires(t[..|t| - 1]) + Wire(t[|t| - 1])
  }

  /** An attempt up to its body. */
  predicate Opened(size: nat, a: Attempt) {
    && DOLLAR !in a.noise
    && (forall u :: u in a.abandoned ==> Plain(u) && |u| + 2 <= size)
    && Plain(a.body)
  }

  predicate Legal(size: nat, a: Attempt) {
    Opened(size, a) && if a.hashed then |a.body| + 2 <= size else |a.body| + 1 == size
  }

  predicate Accepts(good: Verdict, a: Attempt) {
    good(a.body, a.c1, a.c2)
  }

  /** Attempts that were all turned down. */
  predicate Refused(size: nat, good: Verdict, t: seq<Attempt>) {
    forall a :: a in t ==> Legal(size, a) && !Accepts(good, a)
  }

  /** Attempts turned down but for the last, which was taken. */
  predicate Taken(size: nat, good: Verdict, t: seq<Attempt>) {
    && t != []
    && Refused(size, good, t[..|t| - 1])
    && Legal(size, t[|t| - 1]) && Accepts(good, t[|t| - 1])
  }

  // ------------------------------------------------ every transcript is heard

  lemma {:induction false} NoiseIgnored(size: nat, good: Verdict, u: seq<byte>)
    requires DOLLAR !in u
    ensures After(size, good, Hunting, u) == Hunting && Answers(size, good, Hunting, u) == []
  {
    if u != [] {
      NoiseIgnored(size, good, u[..|u| - 1]);
      assert u[|u| - 1] in u;
    }
  }

  lemma {:induction false} BodyCollected(size: nat, good: Verdict, u: seq<byte>)
    requires Plain(u) && |u| + 1 <= size
    ensures After(size, good, Collect(size, []), u) == Collect(size, u)
    ensures Answers(size, good, Collect(size, []), u) == []
  {
    if u != [] {
      BodyCollected(size, good, u[..|u| - 1]);
      assert u[|u| - 1] in u;
      assert u == u[..|u| - 1] + [u[|u| - 1]];
    }
  }

  lemma {:induction false} RestartsForgotten(size: nat, good: Verdict, us: seq<seq<byte>>)
    requires forall u :: u in us ==> Plain(u) && |u| + 2 <= size
    ensures After(size, good, Collect(size, []), Restarts(us)) == Collect(size, [])
    ensures Answers(size, good, Collect(size, []), Restarts(us)) == []
  {
    hide After, Answers;
    if us == [] {
      Begin(size, good, Collect(size, []), Restarts(us));
    } else {
      var us', u := us[..|us| - 1], us[|us| - 1];
      assert u in us;
      RestartsForgotten(size, good, us');
      BodyCollected(size, good, u);
      Append(size, good, Collect(size, []), Restarts(us'), u);
      Extend(size, good, Collect(size, []), Restarts(us') + u, DOLLAR);
    }
  }

  lemma OpeningHeard(size: nat, good: Verdict, a: Attempt)
    requires Opened(size, a) && |a.body| + 1 <= size
    ensures After(size, good, Hunting, Opening(a)) == Collect(size, a.body)
    ensures Answers(size, good, Hunting, Opening(a)) == []
  {
    hide After, Answers, Restarts;
    NoiseIgnored(size, good, a.noise);
    Extend(size, good, Hunting, a.noise, DOLLAR);
    RestartsForgotten(size, good, a.abandoned);
    Append(size, good, Hunting, a.noise + [DOLLAR], Restarts(a.abandoned));
    BodyCollected(size, good, a.body);
    Append(size, good, Hunting, a.noise + [DOLLAR] + Restarts(a.abandoned), a.body);
  }

  lemma ClosingHeard(size: nat, good: Verdict, a: Attempt)
    requires Opened(size, a) && |a.body| + 2 <= size
    ensures var w := Opening(a) + [HASH];
            && After(size, good, Hunting, w) == WantSum1(a.body) && Answers(size, good, Hunting, w) == []
            && After(size, good, Hunting, w + [a.c1]) == WantSum2(a.body, a.c1) && Answers(size, good, Hunting, w + [a.c1]) == []
  {
    hide After, Answers, Opening;
    OpeningHeard(size, good, a);
    Extend(size, good, Hunting, Opening(a), HASH);
    Extend(size, good, Hunting, Opening(a) + [HASH], a.c1);
  }

  lemma WireHeard(size: nat, good: Verdict, a: Attempt)
    requires Legal(size, a)
    ensures After(size, good, Hunting, Wire(a)) == if Accepts(good, a) then Delivered(a.body) else Hunting
    ensures Answers(size, good, Hunting, Wire(a)) == [if Accepts(good, a) then PLUS else MINUS]
  {
    hide After, Answers, Restarts;
    OpeningHeard(size, good, a);
    var w := Opening(a) + Closing(a);
    if a.hashed {
      Extend(size, good, Hunting, Opening(a), HASH);
    } else {
      assert w == Opening(a);
    }
    assert After(size, good, Hunting, w) == WantSum1(a.body) && Answers(size, good, Hunting, w) == [];
    Extend(size, good, Hunting, w, a.c1);
    Extend(size, good, Hunting, w + [a.c1], a.c2);
  }

  /** Refused attempts are answered by one '-' each and leave the receiver hunting. */
  lemma {:induction false} RefusedHeard(size: nat, good: Verdict, t: seq<Attempt>)
    requires Refused(size, good, t)
    ensures After(size, good, Hunting, Wires(t)) == Hunting
    ensures Answers(size, good, Hunting, Wires(t)) == Copies([MINUS], |t|)
  {
    hide After, Answers, Wire;
    if t == [] {
      Begin(size, good, Hunting, Wires(t));
    } else {
      var t', a := t[..|t| - 1], t[|t| - 1];
      assert a in t;
      RefusedHeard(size, good, t');
      WireHeard(size, good, a);
      Append(size, good, Hunting, Wires(t'), Wire(a));
    }
  }

  /** A taken transcript delivers the last body, one '-' per refusal and one '+'. */
  lemma TakenHeard(size: nat, good: Verdict, t: seq<Attempt>)
    requires Taken(size, good, t)
    ensures After(size, good, Hunting, Wires(t)) == Delivered(t[|t| - 1].body)
    ensures Answers(size, good, Hunting, Wires(t)) == Copies([MINUS], |t| - 1) + [PLUS]
  {
    hide After, Answers, Wire;
    var t', a := t[..|t| - 1], t[|t| - 1];
    RefusedHeard(size, good, t');
    WireHeard(size, good, a);
    Append(size, good, Hunting, Wires(t'), Wire(a));
  }

  // ------------------------------------------------ every stream is a transcript

  /** The part of the stream that belongs to no finished attempt. */
  function Unfinished(st: Receiver, p: Attempt): seq<byte> {
    match st
    case Hunting => p.noise
    case InBody(_) => Opening(p)
    case WantSum1(_) => Opening(p) + Closing(p)
    case WantSum2(_, _) => Opening(p) + Closing(p) + [p.c1]
    case Delivered(_) => p.noise
  }

  predicate Pending(size: nat, st: Receiver, p: Attempt) {
    match st
    case Hunting => DOLLAR !in p.noise
    case InBody(d) => Opened(size, p) && p.body == d && |d| + 1 < size
    case WantSum1(d) => Legal(size, p) && p.body == d
    case WantSum2(d, c1) => Legal(size, p) && p.body == d && p.c1 == c1
    case Delivered(_) => true
  }

  predicate Explains(size: nat, good: Verdict, st: Receiver, w: seq<byte>, t: seq<Attempt>, p: Attempt) {
    && w == Wires(t) + Unfinished(st, p)
    && Pending(size, st, p)
    && if st.Delivered? then Taken(size, good, t) && t[|t| - 1].body == st.data else Refused(size, good, t)
  }

  lemma CollectExplained(size: nat, good: Verdict, w: seq<byte>, t: seq<Attempt>, p: Attempt)
    requires size >= 1 && Opened(size, p) && |p.body| + 1 <= size
    requires w == Wires(t) + Opening(p) && Refused(size, good, t)
    ensures Explains(size, good, Collect(size, p.body), w, t, p.(hashed := false))
  {
    hide Wires, Restarts;
    assert Opening(p.(hashed := false)) == Opening(p);
    assert Opening(p) + [] == Opening(p);
  }

  lemma {:induction false} FinishAttempt(t: seq<Attempt>, a: Attempt)
    ensures Wires(t + [a]) == Wires(t) + Wire(a)
  {
    assert (t + [a])[..|t + [a]| - 1] == t;
  }

  lemma RestartExplained(size: nat, p: Attempt)
    requires Opened(size, p) && |p.body| + 2 <= size
    ensures var p' := p.(abandoned := p.abandoned + [p.body], body := []);
            Opened(size, p') && Opening(p') == Opening(p) + [DOLLAR]
  {
    var us := p.abandoned + [p.body];
    assert Restarts(us) == Restarts(p.abandoned) + p.body + [DOLLAR] by {
      assert us[..|us| - 1] == p.abandoned;
    }
    hide Restarts;
    calc {
      Opening(p.(abandoned := us, body := []));
      p.noise + [DOLLAR] + (Restarts(p.abandoned) + p.body + [DOLLAR]) + [];
      p.noise + [DOLLAR] + Restarts(p.abandoned) + p.body + [DOLLAR];
      Opening(p) + [DOLLAR];
    }
  }

  lemma HuntStep(size: nat, good: Verdict, w: seq<byte>, c: byte, t: seq<Attempt>, p: Attempt) returns (p': Attempt)
    requires size >= 1 && Explains(size, good, Hunting, w, t, p)
    ensures Explains(size, good, Next(size, good, Hunting, c), w + [c], t, p')
  {
    if c == DOLLAR {
      p' := Attempt(p.noise, [], [], false, 0, 0);
      assert Opening(p') == p.noise + [DOLLAR];
      hide Wires, Restarts;
      assert w + [c] == Wires(t) + Opening(p');
      CollectExplained(size, good, w + [c], t, p');
    } else {
      hide Wires;
      p' := p.(noise := p.noise + [c]);
    }
  }

  lemma BodyStep(size: nat, good: Verdict, st: Receiver, w: seq<byte>, c: byte, t: seq<Attempt>, p: Attempt)
    returns (p': Attempt)
    requires st.InBody? && Explains(size, good, st, w, t, p)
    ensures Explains(size, good, Next(size, good, st, c), w + [c], t, p')
  {
    hide Wires, Restarts;
    if c == HASH {
      p' := p.(hashed := true);
      assert Opening(p') == Opening(p);
    } else {
      var q := if c == DOLLAR then p.(abandoned := p.abandoned + [p.body], body := []) else p.(body := p.body + [c]);
      if c == DOLLAR {
        RestartExplained(size, p);
      }
      assert Opened(size, q) && Opening(q) == Opening(p) + [c];
      assert w + [c] == Wires(t) + Opening(q);
      CollectExplained(size, good, w + [c], t, q);
      p' := q.(hashed := false);
    }
  }

  lemma SumStep(size: nat, good: Verdict, st: Receiver, w: seq<byte>, c: byte, t: seq<Attempt>, p: Attempt)
    returns (t': seq<Attempt>, p': Attempt)
    requires st.WantSum2? && Explains(size, good, st, w, t, p)
    ensures Explains(size, good, Next(size, good, st, c), w + [c], t', p')
    ensures |t'| == |t| + 1
  {
    hide Wires, Restarts;
    var a := p.(c2 := c);
    assert Opening(a) == Opening(p) && Closing(a) == Closing(p);
    assert w + [c] == Wires(t) + Wire(a);
    FinishAttempt(t, a);
    t', p' := t + [a], p.(noise := []);
    assert t'[..|t'| - 1] == t;
    assert Wires(t') + [] == Wires(t');
  }

  lemma QuietStep(size: nat, good: Verdict, st: Receiver, w: seq<byte>, c: byte, t: seq<Attempt>, p: Attempt)
    returns (p': Attempt)
    requires (st.WantSum1? || st.Delivered?) && Explains(size, good, st, w, t, p)
    ensures Explains(size, good, Next(size, good, st, c), w + [c], t, p')
  {
    hide Wires, Restarts;
    p' := if st.Delivered? then p.(noise := p.noise + [c]) else p.(c1 := c);
    if st.WantSum1? {
      assert Opening(p') == Opening(p) && Closing(p') == Closing(p);
    }
  }

  /** What a receiver in state `st` has answered to the attempts `t`. */
  function Answered(st: Receiver, t: seq<Attempt>): seq<byte> {
    if st.Delivered? && t != [] then Copies([MINUS], |t| - 1) + [PLUS] else Copies([MINUS], |t|)
  }

  /** One more character keeps a stream explained. */
  lemma StepExplained(size: nat, good: Verdict, st: Receiver, w: seq<byte>, c: byte, t: seq<Attempt>, p: Attempt)
    returns (t': seq<Attempt>, p': Attempt)
    requires size >= 1 && Explains(size, good, st, w, t, p)
    ensures Explains(size, good, Next(size, good, st, c), w + [c], t', p')
    ensures Answered(Next(size, good, st, c), t') == Answered(st, t) + Answer(good, st, c)
  {
    hide Explains;
    t' := t;
    match st
    case Hunting => p' := HuntStep(size, good, w, c, t, p);
    case InBody(d) => p' := BodyStep(size, good, st, w, c, t, p);
    case WantSum1(d) => p' := QuietStep(size, good, st, w, c, t, p);
    case WantSum2(d, c1) => t', p' := SumStep(size, good, st, w, c, t, p);
    case Delivered(d) => p' := QuietStep(size, good, st, w, c, t, p);
  }

  lemma NothingHeard(size: nat, good: Verdict)
    ensures Explains(size, good, Hunting, [], [], Attempt([], [], [], false, 0, 0)) && Answered(Hunting, []) == []
  {
    assert Wires([]) + [] == [];
  }

  /** Whatever ReceivePacket has read is a run of refused attempts, at most one taken
      attempt after which nothing counts, and one unfinished attempt. */
  lemma {:induction false} StreamExplained(size: nat, good: Verdict, w: seq<byte>) returns (t: seq<Attempt>, p: Attempt)
    requires size >= 1
    ensures Explains(size, good, After(size, good, Hunting, w), w, t, p)
    ensures Answers(size, good, Hunting, w) == Answered(After(size, good, Hunting, w), t)
  {
    hide After, Answers, Explains, Answered, Next, Answer;
    if w == [] {
      t, p := [], Attempt([], [], [], false, 0, 0);
      NothingHeard(size, good);
      Begin(size, good, Hunting, w);
    } else {
      var w', c := w[..|w| - 1], w[|w| - 1];
      var t', p' := StreamExplained(size, good, w');
      t, p := StepExplained(size, good, After(size, good, Hunting, w'), w', c, t', p');
      Extend(size, good, Hunting, w', c);
      assert w == w' + [c];
    }
  }

  // ------------------------------------------------ consequences

  lemma {:induction false} NothingAfterDelivery(size: nat, good: Verdict, d: seq<byte>, rest: seq<byte>)
    ensures After(size, good, Delivered(d), rest) == Delivered(d) && Answers(size, good, Delivered(d), rest) == []
  {
    if rest != [] {
      NothingAfterDelivery(size, good, d, rest[..|rest| - 1]);
    }
  }

  ghost predicate TakenFrom(size: nat, good: Verdict, w: seq<byte>, d: seq<byte>, t: seq<Attempt>, rest: seq<byte>) {
    Taken(size, good, t) && t[|t| - 1].body == d && w == Wires(t) + rest
  }

  /** A stream delivers `d` exactly when it begins with refused attempts and one taken
      attempt whose last body is `d`. */
  lemma DeliveredExactly(size: nat, good: Verdict, w: seq<byte>, d: seq<byte>)
    requires size >= 1
    ensures After(size, good, Hunting, w) == Delivered(d) <==>
            exists t, rest :: TakenFrom(size, good, w, d, t, rest)
  {
    hide After, Wires, Wire;
    var t, p := StreamExplained(size, good, w);
    if After(size, good, Hunting, w) == Delivered(d) {
      assert TakenFrom(size, good, w, d, t, p.noise);
    }
    forall t, rest | TakenFrom(size, good, w, d, t, rest)
      ensures After(size, good, Hunting, w) == Delivered(d)
    {
      TakenHeard(size, good, t);
      Append(size, good, Hunting, Wires(t), rest);
      NothingAfterDelivery(size, good, d, rest);
    }
  }

  /** What is delivered has no '$' and no '#', leaves room for its NUL, and was heard
      with its checksum. */
  lemma DeliveredIsSound(size: nat, good: Verdict, w: seq<byte>) returns (c1: byte, c2: byte)
    requires size >= 1 && After(size, good, Hunting, w).Delivered?
    ensures var d := After(size, good, Hunting, w).data;
            Plain(d) && |d| < size && good(d, c1, c2)
  {
    hide After, Wires;
    var t, p := StreamExplained(size, good, w);
    var a := t[|t| - 1];
    c1, c2 := a.c1, a.c2;
  }

  /** The frame SendPacket builds, as an attempt. */
  function FrameAttempt(p: seq<byte>): Attempt {
    Attempt([], [], p, true, HexUpper(Sum(p) / 16), HexUpper(Sum(p) % 16))
  }

  lemma FrameIsWire(p: seq<byte>)
    ensures Wire(FrameAttempt(p)) == Frame(p)
  {
    hide Sum, HexUpper;
    assert Opening(FrameAttempt(p)) == [DOLLAR] + p;
  }

  lemma OwnChecksumOk(before: byte, p: seq<byte>)
    ensures ChecksumOk(before)(p, HexUpper(Sum(p) / 16), HexUpper(Sum(p) % 16))
  {
    hide Sum, HexToUintn;
    TwoDigits(before, HexUpper(Sum(p) / 16), HexUpper(Sum(p) % 16));
  }

  lemma HashIsNoNumber(before: byte, c: byte)
    ensures HexToUintn(before, [HASH, c]) == 0
  {
    assert [HASH, c][0..] == [HASH, c];
  }

  /** A payload one short of the buffer leaves no room for the '#', which is then read
      as the first checksum character: it is taken only if its sum is zero. */
  lemma FullFrame(size: nat, before: byte, p: seq<byte>)
    requires Plain(p) && |p| + 1 == size
    ensures After(size, ChecksumOk(before), Hunting, Frame(p)) == if Sum(p) == 0 then Delivered(p) else Hunting
  {
    hide After, Answers, Sum, HexToUintn, HexUpper;
    var good := ChecksumOk(before);
    var h, l := HexUpper(Sum(p) / 16), HexUpper(Sum(p) % 16);
    var a := Attempt([], [], p, false, HASH, h);
    WireHeard(size, good, a);
    HashIsNoNumber(before, h);
    assert Opening(a) == [DOLLAR] + p && Opening(a) + [] == Opening(a);
    assert Wire(a) == [DOLLAR] + p + [HASH] + [h];
    Extend(size, good, Hunting, Wire(a), l);
    assert Wire(a) + [l] == Frame(p);
    DigitIsNotDollar(Sum(p) % 16);
  }

  lemma DigitIsNotDollar(n: nat)
    requires n < 16
    ensures HexUpper(n) != DOLLAR && HexUpper(n) != HASH
  {
  }

  /** An undamaged frame of SendPacket is delivered by ReceivePacket exactly when its
      payload has no '$' and no '#' and leaves room for NUL and '#' in the buffer; one
      byte more passes only for a payload whose sum is zero. */
  lemma FrameSurvives(size: nat, before: byte, p: seq<byte>)
    requires size >= 1
    ensures After(size, ChecksumOk(before), Hunting, Frame(p)) == Delivered(p) <==>
            Plain(p) && (|p| + 2 <= size || (|p| + 1 == size && Sum(p) == 0))
  {
    hide After, Sum, HexToUintn, HexUpper, Frame;
    var good := ChecksumOk(before);
    if After(size, good, Hunting, Frame(p)) == Delivered(p) {
      var c1, c2 := DeliveredIsSound(size, good, Frame(p));
    }
    if Plain(p) && |p| + 2 <= size {
      OwnChecksumOk(before, p);
      FrameIsWire(p);
      WireHeard(size, good, FrameAttempt(p));
    } else if Plain(p) && |p| + 1 == size {
      FullFrame(size, before, p);
    }
  }

  // ------------------------------------------------ a frame behind an unfinished packet

  /** A stream that fills the buffer is an attempt whose body is cut off there; the two
      characters behind it pass for its checksum. */
  lemma Overlong(size: nat, good: Verdict, w: seq<byte>)
    requires size >= 1 && |w| >= size + 2 && w[0] == DOLLAR && Plain(w[1..size])
    ensures After(size, good, Hunting, w) ==
            if good(w[1..size], w[size], w[size + 1]) then Delivered(w[1..size])
            else After(size, good, Hunting, w[size + 2..])
  {
    hide After, Answers, Next;
    var body := w[1..size];
    var a := Attempt([], [], body, false, w[size], w[size + 1]);
    WireHeard(size, good, a);
    assert Opening(a) == [DOLLAR] + body;
    assert Wire(a) == w[..size + 2];
    assert w == Wire(a) + w[size + 2..];
    Append(size, good, Hunting, Wire(a), w[size + 2..]);
    if Accepts(good, a) {
      NothingAfterDelivery(size, good, body, w[size + 2..]);
    }
  }

  lemma FrameBehindNoise(size: nat, before: byte, noise: seq<byte>, v: seq<byte>)
    requires DOLLAR !in noise && Plain(v) && |v| + 2 <= size
    ensures After(size, ChecksumOk(before), Hunting, noise + Frame(v)) == Delivered(v)
  {
    hide After, Answers, Sum, HexToUintn, HexUpper, Frame;
    var good := ChecksumOk(before);
    OwnChecksumOk(before, v);
    FrameIsWire(v);
    WireHeard(size, good, FrameAttempt(v));
    NoiseIgnored(size, good, noise);
    Append(size, good, Hunting, noise, Frame(v));
  }

  lemma FrameBehindBody(size: nat, before: byte, u: seq<byte>, v: seq<byte>)
    requires Plain(u) && |u| + 2 <= size && Plain(v) && |v| + 2 <= size
    ensures After(size, ChecksumOk(before), Hunting, [DOLLAR] + u + Frame(v)) == Delivered(v)
  {
    hide After, Answers, Sum, HexToUintn, HexUpper;
    var a := FrameAttempt(v).(abandoned := [u]);
    OwnChecksumOk(before, v);
    WireHeard(size, ChecksumOk(before), a);
    assert Restarts([u]) == u + [DOLLAR] by {
      assert Restarts([]) == [] && [u][..0] == [];
    }
    assert Opening(a) == [DOLLAR] + u + [DOLLAR] + v;
    assert Wire(a) == [DOLLAR] + u + Frame(v);
  }

  /** The rest of a frame whose '$' is gone has no other. */
  lemma TailIsNoise(v: seq<byte>, n: nat)
    requires Plain(v) && 1 <= n <= |Frame(v)|
    ensures DOLLAR !in Frame(v)[n..]
  {
    hide Sum, HexUpper;
    DigitIsNotDollar(Sum(v) / 16);
    DigitIsNotDollar(Sum(v) % 16);
    var f := Frame(v);
    assert forall i :: 1 <= i <= |v| ==> f[i] == v[i - 1];
  }

  /** A packet `u` breaks off, and a whole frame for `v` follows. The unfinished packet is
      dropped and the frame delivered exactly if `u` leaves room for NUL and '#', or if
      it is longer than the buffer and the two characters that then pass for its
      checksum are wrong. */
  lemma UnfinishedDropped(size: nat, before: byte, u: seq<byte>, v: seq<byte>)
    requires Plain(u) && Plain(v) && |v| + 2 <= size
    ensures After(size, ChecksumOk(before), Hunting, [DOLLAR] + u + Frame(v)) == Delivered(v) <==>
            || |u| + 2 <= size
            || (|u| > size && !ChecksumOk(before)(u[..size - 1], u[size - 1], u[size]))
  {
    hide After, Answers, Frame, HexToUintn, Sum;
    var good, w := ChecksumOk(before), [DOLLAR] + u + Frame(v);
    FrameLength(v);
    if |u| + 2 <= size {
      FrameBehindBody(size, before, u, v);
    } else {
      assert w[1..size] == u[..size - 1];
      Overlong(size, good, w);
      if |u| > size {
        assert w[size] == u[size - 1] && w[size + 1] == u[size];
        assert w[size + 2..] == u[size + 1..] + Frame(v);
        FrameBehindNoise(size, before, u[size + 1..], v);
      } else {
        var n := size + 1 - |u|;
        assert w[size + 2..] == Frame(v)[n..];
        TailIsNoise(v, n);
        NoiseIgnored(size, good, Frame(v)[n..]);
      }
    }
  }

  lemma FrameLength(v: seq<byte>)
    ensures |Frame(v)| == |v| + 4
  {
  }

  /** Three characters of a packet, and then a whole frame: a buffer of four is full when
      the '$' of the frame comes, and the frame is lost. */
  lemma FrameLost(before: byte)
    ensures var u, v := Ascii("abc"), Ascii("OK");
            && After(4, ChecksumOk(before), Hunting, Frame(v)) == Delivered(v)
            && After(4, ChecksumOk(before), Hunting, [DOLLAR] + u + Frame(v)) != Delivered(v)
  {
    hide After, HexToUintn, Sum, Frame;
    UnfinishedDropped(4, before, Ascii("abc"), Ascii("OK"));
    FrameSurvives(4, before, Ascii("OK"));
  }

  /** A frame is delivered by its last byte and not before. */
  lemma FrameDeliveredAtEnd(size: nat, before: byte, p: seq<byte>)
    requires Plain(p) && |p| + 2 <= size
    ensures var w := Frame(p);
            && w != [] && After(size, ChecksumOk(before), Hunting, w) == Delivered(p)
            && !After(size, ChecksumOk(before), Hunting, w[..|w| - 1]).Delivered?
  {
    hide After, Answers, Sum, HexToUintn, HexUpper;
    FrameSurvives(size, before, p);
    var a, w := FrameAttempt(p), Frame(p);
    ClosingHeard(size, ChecksumOk(before), a);
    assert Opening(a) == [DOLLAR] + p;
    assert w[..|w| - 1] == Opening(a) + [HASH] + [a.c1];
  }
}
