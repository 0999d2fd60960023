/** Device-tree enumeration: the node searches of FdtClientDxe and the memory-node
    decoder of HighMemDxe. */
module DeviceTree {
  import opened Options
  import opened Bytes
  import opened Words

  /** A node's properties, as fdt_getprop finds them. */
  datatype Node = Node(status: Option<seq<byte>>, deviceType: Option<seq<byte>>,
                       compatible: Option<seq<byte>>, reg: Option<seq<byte>>)

  /** The nodes in tree order; the first is the root, and fdt_next_node goes to the next. */
  type Tree = seq<Node>

  /** String properties end in NUL, as the Devicetree Specification has it. */
  predicate Terminated(p: Option<seq<byte>>) {
    p.Some? ==> p.value != [] && p.value[|p.value| - 1] == NUL
  }

  predicate WellFormed(tree: Tree) {
    forall i :: 0 <= i < |tree| ==> Terminated(tree[i].deviceType) && Terminated(tree[i].compatible)
  }

  const OKAY: seq<byte> := [0x6f, 0x6b, 0x61, 0x79]
  const JUST_OK: seq<byte> := [0x6f, 0x6b]
  const MEMORY: seq<byte> := [0x6d, 0x65, 0x6d, 0x6f, 0x72, 0x79]

  predicate IsNodeEnabled(n: Node) {
    || n.status.None?
    || (|n.status.value| >= 5 && CStr(n.status.value) == OKAY)
    || (|n.status.value| >= 3 && CStr(n.status.value) == JUST_OK)
  }

  /** A node is enabled exactly if it has no status or its status is "ok" or "okay". */
  lemma EnabledExactly(n: Node, s: seq<byte>)
    requires n.status == Some(s + [NUL]) && NUL !in s
    ensures IsNodeEnabled(n) <==> s == Ascii("ok") || s == Ascii("okay")
    ensures IsNodeEnabled(n.(status := None))
  {
    TextBefore(s, []);
    assert s + [NUL] + [] == s + [NUL];
    assert Ascii("ok") == [0x6f, 0x6b] && Ascii("okay") == [0x6f, 0x6b, 0x61, 0x79];
  }

  // ------------------------------------------------ memory nodes

  /** An enabled memory node whose reg property holds whole pairs of 64-bit numbers. */
  predicate IsMemoryNode(n: Node) {
    && IsNodeEnabled(n)
    && n.deviceType.Some? && CStr(n.deviceType.value) == MEMORY
    && n.reg.Some? && |n.reg.value| % 16 == 0
  }

  /** For properties as a compiler of device trees writes them. */
  lemma MemoryNodeExactly(n: Node, t: seq<byte>)
    requires n.deviceType == Some(t + [NUL]) && NUL !in t && IsNodeEnabled(n)
    ensures IsMemoryNode(n) <==> t == Ascii("memory") && n.reg.Some? && |n.reg.value| % 16 == 0
  {
    hide IsNodeEnabled;
    TextBefore(t, []);
    assert t + [NUL] + [] == t + [NUL];
    assert Ascii("memory") == [0x6d, 0x65, 0x6d, 0x6f, 0x72, 0x79];
  }

  /** The first memory node after `prev`; None when there is none left. */
  method FindNextMemoryNodeReg(tree: Tree, prev: nat) returns (r: Option<(nat, seq<byte>)>)
    requires WellFormed(tree)
    ensures match r
            case Some((node, reg)) =>
              && prev < node < |tree| && IsMemoryNode(tree[node]) && reg == tree[node].reg.value
              && forall i :: prev < i < node ==> !IsMemoryNode(tree[i])
            case None => forall i :: prev < i < |tree| ==> !IsMemoryNode(tree[i])
  {
    var next := prev + 1;
    while next < |tree|
      invariant prev < next
      invariant forall i :: prev < i < next && i < |tree| ==> !IsMemoryNode(tree[i])
      decreases |tree| - next
    {
      var node := tree[next];
      if IsNodeEnabled(node) {
        if node.deviceType.Some? && CStr(node.deviceType.value) == MEMORY {
          if node.reg.Some? {
            if |node.reg.value| % 16 == 0 {
              return Some((next, node.reg.value));
            }
          }
        }
      }
      next := next + 1;
    }
    return None;
  }

  // ------------------------------------------------ decoding reg

  /** A big-endian number. */
  function BigEndian(bytes: seq<byte>): nat {
    if bytes == [] then 0 else BigEndian(bytes[..|bytes| - 1]) * 256 + bytes[|bytes| - 1]
  }

  function Quad(b0: int, b1: int, b2: int, b3: int): int {
    ((b0 * 256 + b1) * 256 + b2) * 256 + b3
  }

  /** SwapBytes32 of the little-endian word at byte `pos`. */
  function Word(reg: seq<byte>, pos: nat): (w: nat)
    requires pos + 4 <= |reg|
    ensures w < TWO32
  {
    Quad(reg[pos], reg[pos + 1], reg[pos + 2], reg[pos + 3])
  }

  datatype Region = Region(base: nat, size: nat)

  /** Pair `i` of a reg property: two 64-bit big-endian numbers. */
  function Pair(reg: seq<byte>, i: nat): Region
    requires 16 * i + 16 <= |reg|
  {
    Region(BigEndian(reg[16 * i..16 * i + 8]), BigEndian(reg[16 * i + 8..16 * i + 16]))
  }

  function Pairs(reg: seq<byte>): seq<Region> {
    seq(|reg| / 16, i requires 0 <= i < |reg| / 16 => Pair(reg, i))
  }

  lemma BigEndian4(b: seq<byte>)
    requires |b| == 4
    ensures BigEndian(b) == Quad(b[0], b[1], b[2], b[3])
  {
    assert b[..3][..2] == b[..2] && b[..2][..1] == b[..1] && b[..1][..0] == [];
    assert BigEndian(b[..1]) == b[0];
    assert BigEndian(b[..2]) == BigEndian(b[..1]) * 256 + b[1];
    assert BigEndian(b[..3]) == BigEndian(b[..2]) * 256 + b[2];
  }

  lemma {:induction false} BigEndianAppend4(a: seq<byte>, b: seq<byte>)
    requires |b| == 4
    ensures BigEndian(a + b) == BigEndian(a) * TWO32 + BigEndian(b)
  {
    BigEndian4(b);
    var s := a + b;
    assert s[..|a| + 3][..|a| + 2] == s[..|a| + 2] && s[..|a| + 2][..|a| + 1] == s[..|a| + 1] && s[..|a| + 1][..|a|] == a;
    assert BigEndian(s) == BigEndian(s[..|a| + 3]) * 256 + b[3];
    assert BigEndian(s[..|a| + 3]) == BigEndian(s[..|a| + 2]) * 256 + b[2];
    assert BigEndian(s[..|a| + 2]) == BigEndian(s[..|a| + 1]) * 256 + b[1];
    assert BigEndian(s[..|a| + 1]) == BigEndian(a) * 256 + b[0];
  }

  /** Two words with a shift of 32 make the 64-bit number. */
  lemma TwoWords(reg: seq<byte>, pos: nat)
    requires pos + 8 <= |reg|
    ensures Word(reg, pos) * TWO32 + Word(reg, pos + 4) == BigEndian(reg[pos..pos + 8])
  {
    var hi, lo := reg[pos..pos + 4], reg[pos + 4..pos + 8];
    assert hi + lo == reg[pos..pos + 8];
    BigEndian4(hi);
    BigEndian4(lo);
    BigEndianAppend4(hi, lo);
  }

  /** The inner loop of InitializeHighMemDxe: reads stay inside the property, the
      unsigned countdown ends at zero, and every pair is read once, in order. */
  method DecodeReg(reg: seq<byte>) returns (regions: seq<Region>)
    requires |reg| % 16 == 0 && |reg| < TWO32
    ensures regions == Pairs(reg)
  {
    hide BigEndian, Word;
    var regSize := |reg|;
    var pos := 0;
    regions := [];
    while regSize > 0
      invariant 0 <= pos <= |reg| && pos % 16 == 0 && regSize == |reg| - pos
      invariant regions == Pairs(reg)[..pos / 16]
      decreases regSize
    {
      var curBase := Word(reg, pos);
      curBase := curBase * TWO32 + Word(reg, pos + 4);
      var curSize := Word(reg, pos + 8);
      curSize := curSize * TWO32 + Word(reg, pos + 12);
      TwoWords(reg, pos);
      TwoWords(reg, pos + 8);
      assert Pairs(reg)[pos / 16] == Region(curBase, curSize);
      regions := regions + [Region(curBase, curSize)];
      pos := pos + 16;
      regSize := (regSize - 16) % TWO32;
    }
  }

  /** Counting down by 16 in 32 bits comes to zero exactly from multiples of 16: without
      the check in the search the decoder would not end. */
  lemma CountdownExact(n: nat)
    requires n < TWO32
    ensures (exists k: nat :: Left(n, k) == 0) <==> n % 16 == 0
  {
    if n % 16 == 0 {
      assert Left(n, n / 16) == 0;
    }
    forall k: nat | Left(n, k) == 0
      ensures n % 16 == 0
    {
      var q := (n - 16 * k) / TWO32;
      assert n - 16 * k == q * TWO32;
      assert n == 16 * (k + q * 0x1000_0000);
    }
  }

  /** What is left of `n` in a 32-bit variable after `k` rounds. */
  function Left(n: nat, k: nat): nat {
    (n - 16 * k) % TWO32
  }

  // ------------------------------------------------ the driver

  /** What the services say about a region, given the regions added so far. */
  datatype Answer = NotFound | Existing | NonExistent(addable: bool)

  type Services = (seq<Region>, Region) -> Answer

  /** The regions AddMemorySpace accepts out of `rs`, in order. */
  function Accept(ask: Services, added: seq<Region>, rs: seq<Region>): seq<Region> {
    if rs == [] then added
    else
      var now := Accept(ask, added, rs[..|rs| - 1]);
      var r := rs[|rs| - 1];
      if ask(now, r) == NonExistent(true) then now + [r] else now
  }

  /** The regions of all memory nodes from node `i` on, in tree order. */
  function Regions(tree: Tree, i: nat): seq<Region>
    requires i <= |tree|
    decreases |tree| - i
  {
    if i == |tree| then []
    else (if IsMemoryNode(tree[i]) then Pairs(tree[i].reg.value) else []) + Regions(tree, i + 1)
  }

  lemma {:induction false} RegionsSkip(tree: Tree, i: nat, j: nat)
    requires i <= j <= |tree| && forall k :: i <= k < j ==> !IsMemoryNode(tree[k])
    ensures Regions(tree, i) == Regions(tree, j)
    decreases j - i
  {
    if i < j {
      RegionsSkip(tree, i + 1, j);
    }
  }

  lemma {:induction false} AcceptAppend(ask: Services, added: seq<Region>, u: seq<Region>, v: seq<Region>)
    ensures Accept(ask, added, u + v) == Accept(ask, Accept(ask, added, u), v)
    decreases |v|
  {
    if v == [] {
      assert u + v == u;
    } else {
      assert (u + v)[..|u + v| - 1] == u + v[..|v| - 1];
      AcceptAppend(ask, added, u, v[..|v| - 1]);
    }
  }

  predicate Apart(r: Region, q: Region) {
    r.base + r.size <= q.base || q.base + q.size <= r.base
  }

  /** Memory space can be added only where none of what was added lies. */
  ghost predicate Honest(ask: Services) {
    forall now, r, q :: ask(now, r) == NonExistent(true) && q in now ==> Apart(q, r)
  }

  predicate AllApart(rs: seq<Region>) {
    forall i, j :: 0 <= i < j < |rs| ==> Apart(rs[i], rs[j])
  }

  /** No address is added twice, whatever the tree says. */
  lemma {:induction false} AddedApart(ask: Services, rs: seq<Region>)
    requires Honest(ask)
    ensures AllApart(Accept(ask, [], rs))
  {
    hide AllApart, Honest;
    if rs == [] {
      NothingApart();
    } else {
      var now, r := Accept(ask, [], rs[..|rs| - 1]), rs[|rs| - 1];
      AddedApart(ask, rs[..|rs| - 1]);
      if ask(now, r) == NonExistent(true) {
        OneMoreApart(ask, now, r);
      }
    }
  }

  lemma NothingApart()
    ensures AllApart([])
  {
  }

  lemma OneMoreApart(ask: Services, now: seq<Region>, r: Region)
    requires Honest(ask) && AllApart(now) && ask(now, r) == NonExistent(true)
    ensures AllApart(now + [r])
  {
    hide Apart;
    forall i | 0 <= i < |now|
      ensures Apart(now[i], r)
    {
      assert now[i] in now;
    }
  }

  /** A region that the services have room for at any time is added, one that they never
      have room for is not. */
  lemma {:induction false} AddedExactly(ask: Services, rs: seq<Region>, r: Region)
    requires (forall now :: ask(now, r) == NonExistent(true)) || (forall now :: ask(now, r) != NonExistent(true))
    ensures r in Accept(ask, [], rs) <==> r in rs && ask([], r) == NonExistent(true)
  {
    if rs != [] {
      AddedExactly(ask, rs[..|rs| - 1], r);
      var now := Accept(ask, [], rs[..|rs| - 1]);
      assert rs == rs[..|rs| - 1] + [rs[|rs| - 1]];
      assert (ask(now, r) == NonExistent(true)) == (ask([], r) == NonExistent(true));
    }
  }

  /** What is done with the regions of one node. */
  method AddRegions(ask: Services, before: seq<Region>, rs: seq<Region>) returns (added: seq<Region>)
    ensures added == Accept(ask, before, rs)
  {
    added := before;
    assert rs[..0] == [];
    for i := 0 to |rs|
      invariant added == Accept(ask, before, rs[..i])
    {
      assert rs[..i + 1][..i] == rs[..i];
      var answer := ask(added, rs[i]);
      if answer.NotFound? {
        continue;
      }
      if answer.NonExistent? {
        if !answer.addable {
          continue;
        }
        added := added + [rs[i]];
      }
    }
    assert rs[..|rs|] == rs;
  }

  /** InitializeHighMemDxe: every region of every enabled memory node below the root is
      looked at exactly once, in tree order. */
  method InitializeHighMemDxe(tree: Tree, ask: Services) returns (seen: seq<Region>, added: seq<Region>)
    requires WellFormed(tree) && |tree| > 0
    requires forall i :: 0 <= i < |tree| && tree[i].reg.Some? ==> |tree[i].reg.value| < TWO32
    ensures seen == Regions(tree, 1)
    ensures added == Accept(ask, [], Regions(tree, 1))
  {
    hide IsMemoryNode, Pairs, Accept, WellFormed;
    seen, added := [], [];
    AcceptNothing(ask);
    var node := 0;
    var found := FindNextMemoryNodeReg(tree, 0);
    while found.Some?
      invariant 0 <= node < |tree| && seen + Regions(tree, node + 1) == Regions(tree, 1)
      invariant added == Accept(ask, [], seen)
      invariant match found
                case Some((next, reg)) =>
                  && node < next < |tree| && IsMemoryNode(tree[next]) && tree[next].reg == Some(reg)
                  && forall i :: node < i < next ==> !IsMemoryNode(tree[i])
                case None => forall i :: node < i < |tree| ==> !IsMemoryNode(tree[i])
      decreases |tree| - node, found.Some?
    {
      var (next, reg) := found.value;
      RegionsSkip(tree, node + 1, next);
      RegSizeOk(tree[next]);
      var rs := DecodeReg(reg);
      added := AddRegions(ask, added, rs);
      AcceptAppend(ask, [], seen, rs);
      seen := seen + rs;
      node := next;
      found := FindNextMemoryNodeReg(tree, node);
      if found.Some? { IsMemoryReg(tree[found.value.0]); }
    }
    RegionsSkip(tree, node + 1, |tree|);
  }

  lemma AcceptNothing(ask: Services)
    ensures Accept(ask, [], []) == []
  {
  }

  lemma RegSizeOk(n: Node)
    requires IsMemoryNode(n)
    ensures n.reg.Some? && |n.reg.value| % 16 == 0
  {
  }

  lemma IsMemoryReg(n: Node)
    requires IsMemoryNode(n)
    ensures n.reg.Some?
  {
  }

  // ------------------------------------------------ round trip of reg

  function ToBigEndian(n: nat, k: nat): (b: seq<byte>)
    ensures |b| == k
  {
    if k == 0 then [] else ToBigEndian(n / 256, k - 1) + [n % 256]
  }

  function Power256(k: nat): nat {
    if k == 0 then 1 else 256 * Power256(k - 1)
  }

  lemma {:induction false} NumberBack(n: nat, k: nat)
    requires n < Power256(k)
    ensures BigEndian(ToBigEndian(n, k)) == n
  {
    if k > 0 {
      NumberBack(n / 256, k - 1);
      var b := ToBigEndian(n, k);
      assert b[..|b| - 1] == ToBigEndian(n / 256, k - 1);
    }
  }

  /** The most significant byte comes first. */
  lemma BigEndianSample()
    ensures ToBigEndian(0x1234_5678, 4) == [0x12, 0x34, 0x56, 0x78]
  {
    assert ToBigEndian(0, 0) == [];
    assert ToBigEndian(0x12, 1) == [0x12];
    assert ToBigEndian(0x1234, 2) == [0x12, 0x34];
    assert ToBigEndian(0x12_3456, 3) == [0x12, 0x34, 0x56];
  }

  /** The regions added to a tree are those of its memory nodes. */
  lemma {:induction false} RegionsAppend(tree: Tree, n: Node, i: nat)
    requires i <= |tree|
    ensures Regions(tree + [n], i) == Regions(tree, i) + if IsMemoryNode(n) then Pairs(n.reg.value) else []
    decreases |tree| - i
  {
    hide IsMemoryNode, Pairs;
    var all := tree + [n];
    if i == |tree| {
      assert all[i] == n;
      NoRegions(all, i + 1);
      if IsMemoryNode(n) { IsMemoryReg(n); }
    } else {
      RegionsAppend(tree, n, i + 1);
      assert all[i] == tree[i];
      if IsMemoryNode(n) { IsMemoryReg(n); }
    }
  }

  lemma NoRegions(tree: Tree, i: nat)
    requires i == |tree|
    ensures Regions(tree, i) == []
  {
  }

  function EncodePair(r: Region): (b: seq<byte>)
    ensures |b| == 16
  {
    ToBigEndian(r.base, 8) + ToBigEndian(r.size, 8)
  }

  function EncodePairs(rs: seq<Region>): (b: seq<byte>)
    ensures |b| == 16 * |rs|
  {
    if rs == [] then [] else EncodePairs(rs[..|rs| - 1]) + EncodePair(rs[|rs| - 1])
  }

  lemma {:induction false} PairBack(rs: seq<Region>, i: nat)
    requires i < |rs| && rs[i].base < Power256(8) && rs[i].size < Power256(8)
    ensures Pair(EncodePairs(rs), i) == rs[i]
  {
    hide BigEndian, Power256;
    var n := |rs| - 1;
    var b := EncodePairs(rs);
    if i < n {
      PairBack(rs[..n], i);
      var b' := EncodePairs(rs[..n]);
      assert b[16 * i..16 * i + 8] == b'[16 * i..16 * i + 8];
      assert b[16 * i + 8..16 * i + 16] == b'[16 * i + 8..16 * i + 16];
    } else {
      NumberBack(rs[i].base, 8);
      NumberBack(rs[i].size, 8);
      assert b[16 * i..16 * i + 8] == ToBigEndian(rs[i].base, 8);
      assert b[16 * i + 8..16 * i + 16] == ToBigEndian(rs[i].size, 8);
    }
  }

  /** Regions written to a reg property are read back as they were. */
  lemma RegRoundTrip(rs: seq<Region>)
    requires forall r :: r in rs ==> r.base < Power256(8) && r.size < Power256(8)
    ensures Pairs(EncodePairs(rs)) == rs
  {
    hide EncodePairs, Pair, Power256;
    forall i | 0 <= i < |rs|
      ensures Pair(EncodePairs(rs), i) == rs[i]
    {
      PairBack(rs, i);
    }
  }

  // ------------------------------------------------ compatible nodes

  /** The strings of a compatible property, up to an empty one. */
  function Strings(p: seq<byte>): seq<seq<byte>> {
    if p == [] || p[0] == NUL then []
    else
      var s := CStr(p);
      [s] + if |s| < |p| then Strings(p[|s| + 1..]) else []
  }

  predicate IsCompatible(n: Node, name: seq<byte>) {
    IsNodeEnabled(n) && n.compatible.Some? && name in Strings(n.compatible.value)
  }

  lemma NextString(p: seq<byte>, pos: nat)
    requires pos < |p| && p[pos] != NUL && p[|p| - 1] == NUL
    ensures var s := CStr(p[pos..]);
            pos + 1 + |s| <= |p| && Strings(p[pos..]) == [s] + Strings(p[pos + 1 + |s|..])
  {
    hide CStr, Strings;
    var q := p[pos..];
    var s := CStr(q);
    assert q[|q| - 1] in q && q[..|q|] == q;
    assert s != q;
    FirstString(q);
    assert q[|s| + 1..] == p[pos + 1 + |s|..];
  }

  lemma FirstString(p: seq<byte>)
    requires p != [] && p[0] != NUL && |CStr(p)| < |p|
    ensures Strings(p) == [CStr(p)] + Strings(p[|CStr(p)| + 1..])
  {
    hide CStr;
  }

  lemma NoString(p: seq<byte>)
    requires p == [] || p[0] == NUL
    ensures Strings(p) == []
  {
  }

  /** The walk over the strings of one property. */
  method HasString(p: seq<byte>, name: seq<byte>) returns (found: bool)
    requires p != [] && p[|p| - 1] == NUL
    ensures found <==> name in Strings(p)
  {
    hide Strings, CStr;
    var pos := 0;
    assert p[0..] == p;
    while pos < |p| && p[pos] != NUL
      invariant 0 <= pos <= |p|
      invariant name in Strings(p) <==> name in Strings(p[pos..])
      decreases |p| - pos
    {
      NextString(p, pos);
      var s := CStr(p[pos..]);
      if name == s {
        return true;
      }
      pos := pos + 1 + |s|;
    }
    NoString(p[pos..]);
    return false;
  }

  method FindNextCompatibleNode(tree: Tree, name: seq<byte>, prev: nat) returns (r: Option<nat>)
    requires WellFormed(tree)
    ensures match r
            case Some(node) =>
              && prev < node < |tree| && IsCompatible(tree[node], name)
              && forall i :: prev < i < node ==> !IsCompatible(tree[i], name)
            case None => forall i :: prev < i < |tree| ==> !IsCompatible(tree[i], name)
  {
    hide Strings, IsNodeEnabled;
    var next := prev + 1;
    while next < |tree|
      invariant prev < next
      invariant forall i :: prev < i < next && i < |tree| ==> !IsCompatible(tree[i], name)
      decreases |tree| - next
    {
      var node := tree[next];
      if IsNodeEnabled(node) && node.compatible.Some? {
        var found := HasString(node.compatible.value, name);
        if found {
          return Some(next);
        }
      }
      next := next + 1;
    }
    return None;
  }

  /** A list of names, each with its NUL. */
  function Joined(names: seq<seq<byte>>): seq<byte> {
    if names == [] then [] else names[0] + [NUL] + Joined(names[1..])
  }

  lemma {:induction false} TextBefore(s: seq<byte>, rest: seq<byte>)
    requires NUL !in s
    ensures CStr(s + [NUL] + rest) == s
  {
    if s != [] {
      assert (s + [NUL] + rest)[1..] == s[1..] + [NUL] + rest;
      TextBefore(s[1..], rest);
    }
  }

  /** A property made of non-empty names lists exactly those names. */
  lemma {:induction false} StringsOfJoined(names: seq<seq<byte>>)
    requires forall i :: 0 <= i < |names| ==> names[i] != [] && NUL !in names[i]
    ensures Strings(Joined(names)) == names
  {
    hide CStr;
    if names != [] {
      var s, rest := names[0], Joined(names[1..]);
      StringsOfJoined(names[1..]);
      TextBefore(s, rest);
      var p := s + [NUL] + rest;
      assert p[0] == s[0] && s[0] in s;
      assert p[|s| + 1..] == rest;
    }
  }
}
