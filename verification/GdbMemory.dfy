/** The memory commands of the GDB stub: "m addr,length" and "M addr,length:XX...". */
module GdbMemory {
  import opened Bytes

  const MAX_BUF_SIZE := 2000
  const MAX_ADDR_SIZE := 32
  const MAX_LENGTH_SIZE := 32
  const GDB_EBADMEMADDRBUFSIZE: byte := 11
  const GDB_EBADMEMLENGBUFSIZE: byte := 12
  const GDB_EBADMEMLENGTH: byte := 13
  const GDB_EBADMEMDATA: byte := 14
  const GDB_EBADMEMDATASIZE: byte := 15

  /** The payload of SendSuccess. */
  const OK: seq<byte> := [0x4f, 0x4b]

  /** The payload of SendError. */
  function Error(n: byte): seq<byte> {
    [UPPER_E, HexUpper(n / 16), HexUpper(n % 16)]
  }

  /** What the debugger takes for error number `n`. */
  predicate IsError(reply: seq<byte>, n: nat) {
    && |reply| == 3 && reply[0] == UPPER_E && IsHex(reply[1]) && IsHex(reply[2])
    && forall before :: HexToUintn(before, reply[1..]) == n
  }

  /** An error number is read back from its reply. */
  lemma ErrorRead(n: byte)
    ensures IsError(Error(n), n)
  {
    hide HexToUintn;
    var r := Error(n);
    assert r[1..] == [r[1], r[2]];
    forall before
      ensures HexToUintn(before, r[1..]) == n
    {
      TwoDigits(before, r[1], r[2]);
    }
  }

  /** A digit of mHexToStr, put in lower case as the read loop does. */
  function HexLower(n: nat): (c: byte)
    requires n < 16
    ensures HexValue(c) == n && !(0x41 <= c <= 0x46)
  {
    if 0x41 <= HexUpper(n) <= 0x46 then HexUpper(n) - 0x41 + 0x61 else HexUpper(n)
  }

  /** Bytes as the text the read loop produces. */
  function HexText(bytes: seq<byte>): (t: seq<byte>)
    ensures |t| == 2 * |bytes|
  {
    if bytes == [] then []
    else HexText(bytes[..|bytes| - 1]) + [HexLower(bytes[|bytes| - 1] / 16), HexLower(bytes[|bytes| - 1] % 16)]
  }

  /** Whether pair `i` of a text is two hexadecimal digits; nothing past its end is. */
  predicate GoodPair(text: seq<byte>, i: nat) {
    2 * i + 1 < |text| && IsHex(text[2 * i]) && IsHex(text[2 * i + 1])
  }

  /** How many of the first `length` pairs can be stored before one is bad. */
  function GoodPairs(text: seq<byte>, length: nat): (k: nat)
    ensures k <= length && 2 * k <= |text|
    ensures forall i :: 0 <= i < k ==> GoodPair(text, i)
    ensures k < length ==> !GoodPair(text, k)
  {
    if length == 0 then 0
    else
      var k := GoodPairs(text, length - 1);
      if k == length - 1 && GoodPair(text, k) then length else k
  }

  function PairValue(text: seq<byte>, i: nat): byte
    requires GoodPair(text, i)
  {
    16 * HexValue(text[2 * i]) + HexValue(text[2 * i + 1])
  }

  /** The bytes of the first `k` pairs. */
  function Decode(text: seq<byte>, k: nat): (d: seq<byte>)
    requires forall i :: 0 <= i < k ==> GoodPair(text, i)
    ensures |d| == k
    ensures forall i :: 0 <= i < k ==> d[i] == PairValue(text, i)
  {
    seq(k, i requires 0 <= i < k => PairValue(text, i))
  }

  function Overwrite(mem: seq<byte>, address: nat, data: seq<byte>): (r: seq<byte>)
    requires address + |data| <= |mem|
    ensures |r| == |mem|
    ensures forall i :: 0 <= i < |mem| ==> r[i] == if address <= i < address + |data| then data[i - address] else mem[i]
  {
    mem[..address] + data + mem[address + |data|..]
  }

  /** Stores pairs until `length` are done or one is bad: exactly the pairs before the
      bad one are written, nothing else changes, and one reply says which it was.
      `newData` is the text up to its NUL, which counts as a bad digit. */
  method TransferFromInBufToMem(length: nat, address: nat, newData: seq<byte>, mem: array<byte>) returns (reply: seq<byte>)
    requires address + GoodPairs(newData, length) <= mem.Length
    modifies mem
    ensures var k := GoodPairs(newData, length);
            && mem[..] == Overwrite(old(mem[..]), address, Decode(newData, k))
            && reply == if k == length then OK else Error(GDB_EBADMEMDATA)
  {
    ghost var k := GoodPairs(newData, length);
    var done: nat := 0;
    while done < length
      invariant done <= k
      invariant forall i :: 0 <= i < mem.Length ==>
                  mem[i] == if address <= i < address + done then PairValue(newData, i - address) else old(mem[..])[i]
    {
      var p := 2 * done;
      var c1 := if p < |newData| then HexValue(newData[p]) else -1;
      var c2 := if p + 1 < |newData| then HexValue(newData[p + 1]) else -1;
      if c1 < 0 || c2 < 0 {
        assert !GoodPair(newData, done);
        assert mem[..] == Overwrite(old(mem[..]), address, Decode(newData, k));
        return Error(GDB_EBADMEMDATA);
      }
      assert GoodPair(newData, done);
      mem[address + done] := c1 * 16 + c2;
      done := done + 1;
    }
    assert mem[..] == Overwrite(old(mem[..]), address, Decode(newData, k));
    return OK;
  }

  /** Sends memory as text. The output buffer must hold the text and its NUL. */
  method TransferFromMemToOutBufAndSend(length: nat, address: nat, valid: bool, mem: array<byte>) returns (reply: seq<byte>)
    requires address + length <= mem.Length && 2 * length < MAX_BUF_SIZE
    ensures reply == if valid then HexText(mem[address..address + length]) else Error(14)
  {
    if !valid {
      return Error(14);
    }
    hide HexText;
    ghost var bytes := mem[address..address + length];
    reply := [];
    var i := 0;
    HexTextNone(bytes[..0]);
    while i < length
      invariant 0 <= i <= length && reply == HexText(bytes[..i])
    {
      var b := mem[address + i];
      HexTextNext(bytes, i);
      reply := reply + [HexLower(b / 16)] + [HexLower(b % 16)];
      i := i + 1;
    }
    assert bytes[..i] == bytes;
  }

  lemma HexTextNone(bytes: seq<byte>)
    requires bytes == []
    ensures HexText(bytes) == []
  {
  }

  lemma HexTextNext(bytes: seq<byte>, i: nat)
    requires i < |bytes|
    ensures HexText(bytes[..i + 1]) == HexText(bytes[..i]) + [HexLower(bytes[i] / 16)] + [HexLower(bytes[i] % 16)]
  {
    assert bytes[..i + 1][..i] == bytes[..i];
  }

  // ------------------------------------------------ reading back what was read out

  lemma {:induction false} HexTextAt(bytes: seq<byte>, i: nat)
    requires i < |bytes|
    ensures GoodPair(HexText(bytes), i) && PairValue(HexText(bytes), i) == bytes[i]
  {
    if i + 1 < |bytes| {
      HexTextAt(bytes[..|bytes| - 1], i);
    }
  }

  /** A pair of digits has the value the numeric parser gives it. */
  lemma PairParsed(before: byte, text: seq<byte>, i: nat)
    requires GoodPair(text, i)
    ensures PairValue(text, i) == HexToUintn(before, text[2 * i..2 * i + 2])
  {
    hide HexToUintn;
    assert text[2 * i..2 * i + 2] == [text[2 * i], text[2 * i + 1]];
    TwoDigits(before, text[2 * i], text[2 * i + 1]);
  }

  /** Every byte string is recovered from its text. */
  lemma DecodeText(bytes: seq<byte>)
    ensures GoodPairs(HexText(bytes), |bytes|) == |bytes|
    ensures Decode(HexText(bytes), |bytes|) == bytes
  {
    forall i | 0 <= i < |bytes|
      ensures GoodPair(HexText(bytes), i) && PairValue(HexText(bytes), i) == bytes[i]
    {
      HexTextAt(bytes, i);
    }
  }

  // ------------------------------------------------ the packets

  /** Where `c` first stands in `s`, or the length of `s`. */
  function Find(s: seq<byte>, c: byte): (n: nat)
    ensures n <= |s| && c !in s[..n]
    ensures n < |s| ==> s[n] == c
    ensures n < |s| <==> c in s
  {
    if s == [] || s[0] == c then 0 else 1 + Find(s[1..], c)
  }

  /** The three fields of the text that follows the 'M'. */
  datatype Fields = Fields(address: seq<byte>, length: seq<byte>, data: seq<byte>)

  predicate HasFields(text: seq<byte>) {
    COMMA in text && COLON in text[Find(text, COMMA) + 1..]
  }

  function Split(text: seq<byte>): Fields
    requires HasFields(text)
  {
    var i := Find(text, COMMA);
    var rest := text[i + 1..];
    var j := Find(rest, COLON);
    Fields(text[..i], rest[..j], rest[j + 1..])
  }

  lemma FindNext(text: seq<byte>, i: nat, c: byte)
    requires i < |text| && text[i] != c
    ensures Find(text[i..], c) == 1 + Find(text[i + 1..], c)
  {
    assert text[i..][1..] == text[i + 1..];
  }

  /** Copies characters into a buffer up to a separator. */
  method CopyUntil(text: seq<byte>, start: nat, stop: byte) returns (field: seq<byte>, end: nat)
    requires start <= |text| && stop in text[start..]
    ensures start <= end < |text| && field == text[start..end] && end == start + Find(text[start..], stop)
  {
    hide Find;
    end, field := start, [];
    while text[end] != stop
      invariant start <= end < |text| && field == text[start..end]
      invariant end + Find(text[end..], stop) == start + Find(text[start..], stop) < |text|
      decreases |text| - end
    {
      FindNext(text, end, stop);
      field := field + [text[end]];
      end := end + 1;
    }
  }

  /** What an 'M' packet does: the new memory and the reply. `a` and `l` are the bytes
      that lie in front of the two field buffers. */
  datatype Effect = Effect(mem: seq<byte>, reply: seq<byte>)

  predicate InMemory(a: byte, l: byte, f: Fields, size: nat) {
    HexToUintn(a, f.address) + GoodPairs(f.data, HexToUintn(l, f.length)) <= size
  }

  /** The comparison of the message length with twice the announced length, which is
      computed in 64 bits. */
  predicate SizeCheck(messageLength: int, length: nat) {
    messageLength == (2 * length) % (MAX_UINTN + 1)
  }

  function WriteEffect(a: byte, l: byte, f: Fields, mem: seq<byte>): Effect
    requires InMemory(a, l, f, |mem|)
  {
    var length := HexToUintn(l, f.length);
    var k := GoodPairs(f.data, length);
    if |f.address| >= MAX_ADDR_SIZE then Effect(mem, Error(GDB_EBADMEMADDRBUFSIZE))
    else if |f.length| >= MAX_LENGTH_SIZE then Effect(mem, Error(GDB_EBADMEMLENGBUFSIZE))
    else if !SizeCheck(|f.data|, length) then Effect(mem, Error(GDB_EBADMEMDATASIZE))
    else Effect(Overwrite(mem, HexToUintn(a, f.address), Decode(f.data, k)), if k == length then OK else Error(GDB_EBADMEMDATA))
  }

  /** `packet` is the text of the packet, 'M' included. */
  method WriteToMemory(packet: seq<byte>, a: byte, l: byte, mem: array<byte>) returns (reply: seq<byte>)
    requires |packet| > 0 && HasFields(packet[1..]) && InMemory(a, l, Split(packet[1..]), mem.Length)
    modifies mem
    ensures Effect(mem[..], reply) == WriteEffect(a, l, Split(packet[1..]), old(mem[..]))
  {
    hide HexToUintn, GoodPairs, Decode, Find, Overwrite, SizeCheck, Error;
    ghost var f := Split(packet[1..]);
    var text := packet[1..];
    assert text == text[0..];
    var addressBuffer, i := CopyUntil(text, 0, COMMA);
    var lengthBuffer, j := CopyUntil(text, i + 1, COLON);
    assert addressBuffer == f.address && lengthBuffer == f.length && text[j + 1..] == f.data;
    var address := HexToUintn(a, addressBuffer);
    var length := HexToUintn(l, lengthBuffer);
    if |addressBuffer| >= MAX_ADDR_SIZE {
      return Error(GDB_EBADMEMADDRBUFSIZE);
    }
    if |lengthBuffer| >= MAX_LENGTH_SIZE {
      return Error(GDB_EBADMEMLENGBUFSIZE);
    }
    var messageLength := |packet| - |addressBuffer| - |lengthBuffer| - 3;
    assert messageLength == |f.data|;
    if !SizeCheck(messageLength, length) {
      return Error(GDB_EBADMEMDATASIZE);
    }
    reply := TransferFromInBufToMem(length, address, text[j + 1..], mem);
  }

  /** `packet` is the text of an "m addr,length" packet. */
  method ReadFromMemory(packet: seq<byte>, a: byte, valid: bool, mem: array<byte>) returns (reply: seq<byte>)
    requires |packet| > 0 && COMMA in packet[1..]
    requires var i := Find(packet[1..], COMMA);
             var length := HexToUintn(COMMA, packet[1..][i + 1..]);
             HexToUintn(a, packet[1..][..i]) + length <= mem.Length && 2 * length < MAX_BUF_SIZE
    ensures var i := Find(packet[1..], COMMA);
            var address, length := HexToUintn(a, packet[1..][..i]), HexToUintn(COMMA, packet[1..][i + 1..]);
            reply == if i >= MAX_ADDR_SIZE then Error(GDB_EBADMEMADDRBUFSIZE)
                     else if |packet| - i - 2 >= MAX_LENGTH_SIZE then Error(GDB_EBADMEMLENGTH)
                     else if !valid then Error(14)
                     else HexText(mem[address..address + length])
    ensures var i := Find(packet[1..], COMMA);
            && (i >= 32 ==> IsError(reply, 11))
            && (i < 32 && |packet| - i - 2 >= 32 ==> IsError(reply, 13))
            && (i < 32 && |packet| - i - 2 < 32 && !valid ==> IsError(reply, 14))
  {
    hide HexToUintn, HexText, Find, IsError, Error;
    ErrorRead(11);
    ErrorRead(13);
    ErrorRead(14);
    var text := packet[1..];
    assert text == text[0..];
    var addressBuffer, i := CopyUntil(text, 0, COMMA);
    if |addressBuffer| >= MAX_ADDR_SIZE {
      return Error(GDB_EBADMEMADDRBUFSIZE);
    }
    if |packet| - |addressBuffer| - 2 >= MAX_LENGTH_SIZE {
      return Error(GDB_EBADMEMLENGTH);
    }
    assert text[..i] == text[0..i];
    var address := HexToUintn(a, addressBuffer);
    var length := HexToUintn(COMMA, text[i + 1..]);
    reply := TransferFromMemToOutBufAndSend(length, address, valid, mem);
  }

  // ------------------------------------------------ numbers as the debugger writes them

  function HexNumber(n: nat): (t: seq<byte>)
    ensures t != [] && forall c :: c in t ==> IsHex(c)
    ensures n > 0 ==> t[0] != ZERO
  {
    if n < 16 then [HexLower(n)] else HexNumber(n / 16) + [HexLower(n % 16)]
  }

  function Saturated(n: nat): nat { if n <= MAX_UINTN then n else MAX_UINTN }

  lemma {:induction false} OneMoreDigit(s: seq<byte>, d: byte, acc: nat)
    requires IsHex(d) && (forall c :: c in s ==> IsHex(c)) && acc <= MAX_UINTN
    ensures HexDigits(s + [d], acc) == Saturated(HexDigits(s, acc) * 16 + HexValue(d))
    decreases |s|
  {
    if s == [] {
      assert (s + [d])[1..] == [];
      assert acc * 16 + HexValue(d) <= MAX_UINTN ==> HexDigits([], acc * 16 + HexValue(d)) == acc * 16 + HexValue(d);
    } else {
      assert s[0] in s && (s + [d])[1..] == s[1..] + [d];
      assert forall c :: c in s[1..] ==> c in s;
      if acc <= (MAX_UINTN - HexValue(s[0])) / 16 {
        OneMoreDigit(s[1..], d, acc * 16 + HexValue(s[0]));
      }
    }
  }

  lemma {:induction false} DigitsOfNumber(n: nat)
    ensures HexDigits(HexNumber(n), 0) == Saturated(n)
  {
    if n < 16 {
      TwoDigitsScanned(ZERO, HexLower(n));
    } else {
      DigitsOfNumber(n / 16);
      OneMoreDigit(HexNumber(n / 16), HexLower(n % 16), 0);
    }
  }

  predicate EndsNumber(rest: seq<byte>) { rest == [] || (!IsHex(rest[0]) && !IsX(rest[0])) }

  lemma {:induction false} DigitsStop(s: seq<byte>, rest: seq<byte>, acc: nat)
    requires (forall c :: c in s ==> IsHex(c)) && EndsNumber(rest) && acc <= MAX_UINTN
    ensures HexDigits(s + rest, acc) == HexDigits(s, acc)
    decreases |s|
  {
    if s == [] {
      assert s + rest == rest;
    } else {
      assert s[0] in s && (s + rest)[1..] == s[1..] + rest;
      assert forall c :: c in s[1..] ==> c in s;
      if acc <= (MAX_UINTN - HexValue(s[0])) / 16 {
        DigitsStop(s[1..], rest, acc * 16 + HexValue(s[0]));
      }
    }
  }

  /** A number is read back up to the first character that is no digit; one that does not
      fit 64 bits is read as the largest that does. */
  lemma NumberRead(before: byte, n: nat, rest: seq<byte>)
    requires EndsNumber(rest)
    ensures HexToUintn(before, HexNumber(n) + rest) == Saturated(n)
  {
    hide HexDigits, HexToUintn;
    var t := HexNumber(n);
    DigitsOfNumber(n);
    assert t[0] in t;
    if n > 0 {
      DigitsStop(t, rest, 0);
      PrefixSkipped(before, [], [], t + rest);
      assert [] + [] + (t + rest) == t + rest;
    } else {
      assert t == [ZERO];
      NoDigits(rest);
      PrefixSkipped(before, [], t, rest);
      assert [] + t + rest == t + rest;
    }
  }

  lemma NoDigits(s: seq<byte>)
    requires EndsNumber(s)
    ensures HexDigits(s, 0) == 0
  {
  }

  /** A number survives being written and parsed. */
  lemma NumberParsed(before: byte, n: nat)
    requires n <= MAX_UINTN
    ensures HexToUintn(before, HexNumber(n)) == n
  {
    hide HexToUintn;
    NumberRead(before, n, []);
    assert HexNumber(n) + [] == HexNumber(n);
  }

  lemma NumberLength(n: nat)
    requires n <= MAX_UINTN
    ensures |HexNumber(n)| <= 16
  {
    hide HexLower;
    var m := n / 0x1_0000;
    ShortNumber(n);
    ShortNumber(m);
    ShortNumber(m / 0x1_0000);
    ShortNumber(m / 0x1_0000 / 0x1_0000);
  }

  lemma ShortNumber(n: nat)
    ensures |HexNumber(n)| <= 4 + if n < 0x1_0000 then 0 else |HexNumber(n / 0x1_0000)|
  {
    hide HexLower;
    if n >= 0x1_0000 {
      assert n / 16 / 16 / 16 / 16 == n / 0x1_0000;
      assert |HexNumber(n)| == 1 + |HexNumber(n / 16)|;
      assert |HexNumber(n / 16)| == 1 + |HexNumber(n / 16 / 16)|;
      assert |HexNumber(n / 16 / 16)| == 1 + |HexNumber(n / 16 / 16 / 16)|;
      assert |HexNumber(n / 16 / 16 / 16)| == 1 + |HexNumber(n / 16 / 16 / 16 / 16)|;
    } else if n >= 16 {
      assert |HexNumber(n)| == 1 + |HexNumber(n / 16)|;
      if n / 16 >= 16 {
        assert |HexNumber(n / 16)| == 1 + |HexNumber(n / 16 / 16)|;
        if n / 16 / 16 >= 16 {
          assert |HexNumber(n / 16 / 16)| == 1 + |HexNumber(n / 16 / 16 / 16)|;
        }
      }
    }
  }

  // ------------------------------------------------ results

  lemma {:induction false} FoundAfter(u: seq<byte>, c: byte, v: seq<byte>)
    requires c !in u
    ensures Find(u + [c] + v, c) == |u|
  {
    if u != [] {
      assert (u + [c] + v)[1..] == u[1..] + [c] + v;
      assert forall x :: x in u[1..] ==> x in u;
      FoundAfter(u[1..], c, v);
    }
  }

  /** The text a debugger sends after 'M' to store `data` at `address`. */
  function WriteText(address: nat, data: seq<byte>): seq<byte> {
    HexNumber(address) + [COMMA] + HexNumber(|data|) + [COLON] + HexText(data)
  }

  lemma WriteTextFields(address: nat, data: seq<byte>)
    ensures HasFields(WriteText(address, data))
    ensures Split(WriteText(address, data)) == Fields(HexNumber(address), HexNumber(|data|), HexText(data))
  {
    hide Find, HexNumber, HexText, HasFields, Split;
    var a, l, d := HexNumber(address), HexNumber(|data|), HexText(data);
    assert !IsHex(COMMA) && !IsHex(COLON);
    FieldsFound(a, l, d);
    assert WriteText(address, data) == a + [COMMA] + (l + [COLON] + d);
  }

  lemma FieldsFound(a: seq<byte>, l: seq<byte>, d: seq<byte>)
    requires COMMA !in a && COLON !in l
    ensures HasFields(a + [COMMA] + (l + [COLON] + d))
    ensures Split(a + [COMMA] + (l + [COLON] + d)) == Fields(a, l, d)
  {
    hide Find;
    var rest := l + [COLON] + d;
    var text := a + [COMMA] + rest;
    FoundAfter(a, COMMA, rest);
    assert text[|a| + 1..] == rest && text[..|a|] == a;
    assert text[|a|] == COMMA && rest[|l|] == COLON;
    FoundAfter(l, COLON, d);
    assert rest[..|l|] == l && rest[|l| + 1..] == d;
  }

  /** Memory read out as text and written back by the matching packet puts every byte
      back where it came from and touches no other address, whatever has happened to
      memory in between. */
  lemma RoundTrip(a: byte, l: byte, was: seq<byte>, now: seq<byte>, address: nat, n: nat)
    requires address + n <= |was| == |now| && address <= MAX_UINTN && 2 * n <= MAX_UINTN
    ensures HasFields(WriteText(address, was[address..address + n]))
    ensures var f := Split(WriteText(address, was[address..address + n]));
            && InMemory(a, l, f, |now|) && WriteEffect(a, l, f, now).reply == OK
            && var mem := WriteEffect(a, l, f, now).mem;
               |mem| == |now| && forall i :: 0 <= i < |mem| ==> mem[i] == if address <= i < address + n then was[i] else now[i]
  {
    hide HexToUintn, GoodPairs, Decode, Find, Split, HasFields, HexNumber, HexText;
    var data := was[address..address + n];
    WriteTextFields(address, data);
    DecodeText(data);
    NumberParsed(a, address);
    NumberParsed(l, n);
    NumberLength(address);
    NumberLength(n);
  }

  /** "OK" is the reply exactly when both fields are short, the text has two digits per
      byte announced, and they are all digits. */
  lemma WrittenExactly(a: byte, l: byte, f: Fields, mem: seq<byte>)
    requires InMemory(a, l, f, |mem|) && |f.data| <= MAX_UINTN
    ensures WriteEffect(a, l, f, mem).reply == OK <==>
            && |f.address| < MAX_ADDR_SIZE && |f.length| < MAX_LENGTH_SIZE
            && |f.data| == 2 * HexToUintn(l, f.length)
            && forall i :: 0 <= i < |f.data| ==> IsHex(f.data[i])
  {
    hide HexToUintn, Decode;
    var length := HexToUintn(l, f.length);
    var k := GoodPairs(f.data, length);
    if k == length && |f.data| == 2 * length {
      forall i | 0 <= i < |f.data|
        ensures IsHex(f.data[i])
      {
        assert GoodPair(f.data, i / 2);
      }
    }
    if |f.data| == 2 * length && k < length {
      assert !GoodPair(f.data, k);
    }
    assert forall n :: |Error(n)| == 3;
    assert k == length ==> 2 * length <= |f.data|;
  }

  /** What every check that fails does: the field of 32 characters or more comes first, then
      the size, and these leave memory alone; a bad digit leaves the bytes before it. */
  lemma RefusedExactly(a: byte, l: byte, f: Fields, mem: seq<byte>)
    requires InMemory(a, l, f, |mem|)
    ensures var e, length := WriteEffect(a, l, f, mem), HexToUintn(l, f.length);
            && (|f.address| >= 32 ==> e.mem == mem && IsError(e.reply, 11))
            && (|f.address| < 32 <= |f.length| ==> e.mem == mem && IsError(e.reply, 12))
            && (|f.address| < 32 && |f.length| < 32 && 2 * length <= MAX_UINTN && |f.data| != 2 * length ==>
                  e.mem == mem && IsError(e.reply, 15))
            && (|f.address| < 32 && |f.length| < 32 && 2 * length <= MAX_UINTN && |f.data| == 2 * length ==>
                  var address := HexToUintn(a, f.address);
                  exists k :: 0 <= k <= length && (forall i :: 0 <= i < k ==> GoodPair(f.data, i))
                              && (if k == length then e.reply == [0x4f, 0x4b] else !GoodPair(f.data, k) && IsError(e.reply, 14))
                              && StoredAt(mem, e.mem, address, f.data, k))
  {
    hide HexToUintn, GoodPairs, Overwrite, IsError, StoredAt;
    ErrorRead(11);
    ErrorRead(12);
    ErrorRead(14);
    ErrorRead(15);
    var k := GoodPairs(f.data, HexToUintn(l, f.length));
    assert StoredAt(mem, Overwrite(mem, HexToUintn(a, f.address), Decode(f.data, k)), HexToUintn(a, f.address), f.data, k) by {
      OverwriteStores(mem, HexToUintn(a, f.address), f.data, k);
    }
  }

  /** Memory holds the first `k` pairs of the text from `address` on, and is otherwise as it
      was. */
  predicate StoredAt(mem: seq<byte>, mem': seq<byte>, address: nat, text: seq<byte>, k: nat)
    requires forall i :: 0 <= i < k ==> GoodPair(text, i)
  {
    && |mem'| == |mem|
    && forall i :: 0 <= i < |mem| ==> mem'[i] == if address <= i < address + k then PairValue(text, i - address) else mem[i]
  }

  lemma OverwriteStores(mem: seq<byte>, address: nat, text: seq<byte>, k: nat)
    requires (forall i :: 0 <= i < k ==> GoodPair(text, i)) && address + k <= |mem|
    ensures StoredAt(mem, Overwrite(mem, address, Decode(text, k)), address, text, k)
  {
    hide GoodPair, PairValue;
  }

  /** The size check multiplies without a guard, so an announced length of 2^63 + 1
      passes it with one byte of text, which is then stored under an error reply. */
  lemma HugeLengthSlipsThrough(a: byte, l: byte, mem: seq<byte>)
    requires |mem| > 0
    ensures var f := Fields(HexNumber(0), HexNumber(0x8000_0000_0000_0001), HexText([0x41]));
            && InMemory(a, l, f, |mem|) && |f.data| != 2 * HexToUintn(l, f.length)
            && WriteEffect(a, l, f, mem) == Effect([0x41] + mem[1..], Error(GDB_EBADMEMDATA))
  {
    hide HexToUintn, HexNumber, HexText, Decode;
    NumberParsed(a, 0);
    NumberParsed(l, 0x8000_0000_0000_0001);
    NumberLength(0);
    NumberLength(0x8000_0000_0000_0001);
    DecodeText([0x41]);
    var t := HexText([0x41]);
    HexTextAt([0x41], 0);
    GoodPairsIs(t, 0x8000_0000_0000_0001, 1);
  }

  lemma GoodPairsIs(text: seq<byte>, length: nat, k: nat)
    requires k < length && (forall i :: 0 <= i < k ==> GoodPair(text, i)) && !GoodPair(text, k)
    ensures GoodPairs(text, length) == k
  {
    hide GoodPairs;
    var g := GoodPairs(text, length);
    assert g > k ==> GoodPair(text, k);
  }

  /** The size check admits the right size only, exactly for lengths below 2^63. */
  lemma SizeCheckExact(length: nat)
    requires length <= MAX_UINTN
    ensures (forall n: nat :: SizeCheck(n, length) ==> n == 2 * length) <==> length <= MAX_UINTN / 2
  {
    if length > MAX_UINTN / 2 {
      assert SizeCheck(2 * length - (MAX_UINTN + 1), length);
    }
  }
}
