/** Boot memory on ARM platforms: where InitializeMemory puts the UEFI region, and how
    MemoryPeim carves the firmware device out of the resource descriptors. */
module MemoryInit {
  import opened Options
  import opened Words

  const MAX_ALLOC_ADDRESS := 0xFFFF_FFFF_FFFF

  /** The platform's settings: system memory, the firmware device (FD) and the size of
      the region to hand to PEI. */
  datatype Platform = Platform(memBase: u64, memSize: u64, fdBase: u64, fdSize: u32, region: u32) {
    function MemTop(): int { memBase + memSize }

    function FdTop(): int { fdBase + fdSize }

    /** The top InitializeMemory works with. */
    function Clamped(): int {
      if MemTop() - 1 > MAX_ALLOC_ADDRESS then MAX_ALLOC_ADDRESS + 1 else MemTop()
    }

    /** The asserts at the head of both functions, and sums that fit their variables. */
    predicate Valid() {
      && memSize != 0 && memBase < MAX_ALLOC_ADDRESS
      && MemTop() < TWO64 && FdTop() < TWO64
    }

    /** MemoryPeim's test for firmware that was shadowed in system memory. */
    predicate FdInMemory() { fdBase >= memBase && FdTop() <= MemTop() }
  }

  // ------------------------------------------------ placing the UEFI region

  /** InitializeMemory up to PeiServicesInstallPeiMemory; None when an ASSERT fails. */
  method PlaceUefiMemory(p: Platform) returns (base: Option<u64>)
    requires p.Valid()
    ensures base == Placement(p)
  {
    var systemMemoryTop: u64 := Add(p.memBase, p.memSize);
    if Sub(systemMemoryTop, 1) > MAX_ALLOC_ADDRESS {
      systemMemoryTop := MAX_ALLOC_ADDRESS + 1;
    }
    var fdTop := Add(p.fdBase, p.fdSize);
    var uefiMemoryBase: u64;
    if p.fdBase >= p.memBase && fdTop <= systemMemoryTop {
      if Sub(systemMemoryTop, fdTop) >= p.region {
        uefiMemoryBase := Sub(systemMemoryTop, p.region);
      } else {
        if !(Add(p.memBase, p.region) <= p.fdBase) {
          return None;
        }
        uefiMemoryBase := Sub(p.fdBase, p.region);
      }
    } else {
      if !(p.fdBase < p.memBase || p.fdBase >= systemMemoryTop) {
        return None;
      }
      if !(fdTop <= p.memBase || fdTop > systemMemoryTop) {
        return None;
      }
      uefiMemoryBase := Sub(systemMemoryTop, p.region);
    }
    return Some(uefiMemoryBase);
  }

  /** The region goes to the top of memory; if the FD is in the way, right below it. */
  function Placement(p: Platform): Option<u64>
    requires p.Valid()
  {
    if p.memBase <= p.fdBase && p.FdTop() <= p.Clamped() then
      if p.FdTop() + p.region <= p.Clamped() then Some(p.Clamped() - p.region)
      else if p.memBase + p.region <= p.fdBase then Some(p.fdBase - p.region)
      else None
    else if (p.memBase <= p.fdBase < p.Clamped()) || (p.memBase < p.FdTop() <= p.Clamped()) then None
    else Some(Sub(p.Clamped(), p.region))
  }

  predicate Disjoint(a: int, aTop: int, b: int, bTop: int) {
    aTop <= b || bTop <= a
  }

  /** The firmware spans all of system memory and more on both sides, a case the asserts
      let through. */
  predicate FdSwallowsMemory(p: Platform) {
    p.fdBase < p.memBase && p.FdTop() > p.Clamped()
  }

  /** The region is placed inside system memory and below the clamp exactly when it is
      no larger than that; it then keeps clear of the FD exactly when the FD does not
      swallow the whole of system memory. */
  lemma PlacementSound(p: Platform)
    requires p.Valid() && Placement(p).Some? && p.region > 0
    ensures var base := Placement(p).value;
            && (p.memBase <= base && base + p.region <= p.Clamped() <==> p.region <= p.Clamped() - p.memBase)
            && (p.region <= p.Clamped() - p.memBase ==>
                  (Disjoint(base, base + p.region, p.fdBase, p.FdTop()) <==> !FdSwallowsMemory(p)))
  {
  }

  /** No other place is higher: of all addresses that keep the region in memory, in the
      first 2^48 bytes and clear of the FD, it takes the last. */
  lemma PlacementHighest(p: Platform, b: int)
    requires p.Valid() && p.region > 0 && !FdSwallowsMemory(p)
    requires p.memBase <= b && b + p.region <= p.MemTop() && b + p.region <= 0x1_0000_0000_0000
    requires Disjoint(b, b + p.region, p.fdBase, p.FdTop())
    ensures Placement(p).Some? ==> b <= Placement(p).value
  {
  }

  /** A region that fits into the memory below 2^48 is put there. */
  lemma PlacementAddressable(p: Platform)
    requires p.Valid() && Placement(p).Some?
    requires p.memBase + p.region <= p.MemTop() && p.memBase + p.region <= 0x1_0000_0000_0000
    ensures var base := Placement(p).value;
            p.memBase <= base && base + p.region <= p.MemTop() && base + p.region <= 0x1_0000_0000_0000
  {
  }

  /** An assert fails exactly if the FD lies in memory and leaves no room on the side the
      code looks at, or lies in memory in part. */
  lemma PlacementFails(p: Platform)
    requires p.Valid()
    ensures Placement(p).None? <==>
            if p.memBase <= p.fdBase && p.FdTop() <= p.Clamped() then
              p.Clamped() - p.FdTop() < p.region && p.fdBase - p.memBase < p.region
            else p.memBase <= p.fdBase < p.Clamped() || p.memBase < p.FdTop() <= p.Clamped()
  {
  }

  /** The board with its FD in flash below memory: the region ends with memory. */
  lemma RegionAtTop()
    ensures Placement(Platform(0x8000_0000, 0x4000_0000, 0, 0x10_0000, 0x400_0000)) == Some(0xBC00_0000)
  {
  }

  /** One page of memory inside a firmware device of three: the region is put on it. */
  lemma RegionInsideFd()
    ensures var p := Platform(0x8000_0000, 0x1000, 0x7fff_f000, 0x3000, 0x1000);
            && p.Valid() && FdSwallowsMemory(p) && Placement(p) == Some(0x8000_0000)
            && !Disjoint(0x8000_0000, 0x8000_1000, p.fdBase, p.FdTop())
  {
  }

  /** A region of two pages and a memory of one: the region starts below memory. */
  lemma RegionBelowMemory()
    ensures var p := Platform(0x8000_0000, 0x1000, 0, 0x1000, 0x2000);
            p.Valid() && Placement(p) == Some(0x7fff_f000)
  {
  }

  // ------------------------------------------------ the resource descriptors

  datatype ResourceKind = SystemMemory | OtherKind

  datatype Hob =
    | Resource(kind: ResourceKind, attr: int, start: u64, length: u64)
    | Allocation(base: u64, size: u64)  // boot services data
    | OtherHob

  /** Present, initialized, tested, and write combining, through and back cacheable. */
  const DEFAULT_ATTRIBUTES := 0x1 + 0x2 + 0x4 + 0x800 + 0x1000 + 0x2000

  predicate IsMemory(h: Hob) { h.Resource? && h.kind.SystemMemory? }

  function Top(h: Hob): u64
    requires h.Resource?
  {
    Add(h.start, h.length)
  }

  /** The test for the main system memory. */
  predicate IsMain(p: Platform, h: Hob) {
    IsMemory(h) && p.memBase >= h.start && Top(h) <= Add(p.memBase, p.memSize)
  }

  /** The test for the descriptor that contains the firmware. */
  predicate HoldsFd(p: Platform, h: Hob) {
    IsMemory(h) && p.fdBase >= h.start && Add(p.fdBase, p.fdSize) <= Top(h)
  }

  function FirstFd(p: Platform, hobs: seq<Hob>): (i: nat)
    ensures i <= |hobs| && (i < |hobs| ==> HoldsFd(p, hobs[i]))
    ensures forall j :: 0 <= j < i ==> !HoldsFd(p, hobs[j])
  {
    if hobs == [] || HoldsFd(p, hobs[0]) then 0 else 1 + FirstFd(p, hobs[1..])
  }

  function MainHob(p: Platform): Hob {
    Resource(SystemMemory, DEFAULT_ATTRIBUTES, p.memBase, p.memSize)
  }

  predicate MainDeclared(p: Platform, hobs: seq<Hob>) {
    exists h :: h in hobs && IsMain(p, h)
  }

  function Declared(p: Platform, hobs: seq<Hob>): seq<Hob> {
    if MainDeclared(p, hobs) then hobs else hobs + [MainHob(p)]
  }

  /** What becomes of the descriptor that holds the FD. */
  function Shrunk(p: Platform, h: Hob): Hob
    requires p.Valid() && HoldsFd(p, h)
  {
    if p.fdBase == h.start then
      if p.MemTop() != p.FdTop() then h.(start := Add(h.start, p.fdSize), length := Sub(h.length, p.fdSize)) else h
    else h.(length := Sub(p.fdBase, h.start))
  }

  /** The descriptors made from it. */
  function Cut(p: Platform, h: Hob): seq<Hob>
    requires p.Valid() && HoldsFd(p, h)
  {
    var fd := Resource(SystemMemory, h.attr, p.fdBase, p.fdSize);
    if p.fdBase == h.start then
      if p.MemTop() != p.FdTop() then [fd] else []
    else if p.FdTop() < Top(h) then [fd, Resource(SystemMemory, h.attr, p.FdTop(), Sub(Top(h), p.FdTop()))]
    else [fd]
  }

  /** The list after the split, if some descriptor holds an FD that lies in memory. */
  function Carved(p: Platform, hobs: seq<Hob>): seq<Hob>
    requires p.Valid()
  {
    var i := FirstFd(p, hobs);
    if p.FdInMemory() && i < |hobs| then
      hobs[i := Shrunk(p, hobs[i])] + Cut(p, hobs[i]) + [Allocation(p.fdBase, p.fdSize)]
    else hobs
  }

  /** The HOB list, which MemoryPeim edits in place and appends to. */
  class HobList {
    var hobs: seq<Hob>

    constructor (hobs: seq<Hob>)
      ensures this.hobs == hobs
    {
      this.hobs := hobs;
    }

    method Build(h: Hob)
      modifies this
      ensures hobs == old(hobs) + [h]
    {
      hobs := hobs + [h];
    }

    method DeclareMain(p: Platform)
      modifies this
      ensures hobs == Declared(p, old(hobs))
    {
      var found := false;
      var i := 0;
      while i < |hobs|
        invariant 0 <= i <= |hobs| && hobs == old(hobs)
        invariant found ==> MainDeclared(p, hobs)
        invariant !found ==> forall j :: 0 <= j < i ==> !IsMain(p, hobs[j])
      {
        if hobs[i].Resource? {
          if hobs[i].kind.SystemMemory? && p.memBase >= hobs[i].start &&
             Add(hobs[i].start, hobs[i].length) <= Add(p.memBase, p.memSize) {
            found := true;
            assert hobs[i] in hobs && IsMain(p, hobs[i]);
            break;
          }
        }
        i := i + 1;
      }
      if !found {
        Build(Resource(SystemMemory, DEFAULT_ATTRIBUTES, p.memBase, p.memSize));
      }
    }

    /** The edits made once the descriptor that holds the FD is found. */
    method SplitAt(p: Platform, i: nat)
      requires p.Valid() && i < |hobs| && HoldsFd(p, hobs[i])
      modifies this
      ensures hobs == old(hobs)[i := Shrunk(p, old(hobs)[i])] + Cut(p, old(hobs)[i]) + [Allocation(p.fdBase, p.fdSize)]
    {
      var memTop, fdTop := Add(p.memBase, p.memSize), Add(p.fdBase, p.fdSize);
      var attributes := hobs[i].attr;
      var resourceLength := hobs[i].length;
      var resourceTop := Add(hobs[i].start, resourceLength);
      if p.fdBase == hobs[i].start {
        if memTop != fdTop {
          Build(Resource(SystemMemory, attributes, p.fdBase, p.fdSize));
          hobs := hobs[i := hobs[i].(start := Add(hobs[i].start, p.fdSize), length := Sub(hobs[i].length, p.fdSize))];
        }
      } else {
        Build(Resource(SystemMemory, attributes, p.fdBase, p.fdSize));
        hobs := hobs[i := hobs[i].(length := Sub(p.fdBase, hobs[i].start))];
        if fdTop < Add(hobs[i].start, resourceLength) {
          Build(Resource(SystemMemory, attributes, fdTop, Sub(resourceTop, fdTop)));
        }
      }
      Build(Allocation(p.fdBase, p.fdSize));
    }

    /** MemoryPeim. `asserted` is false when its ASSERT on the search fails. */
    method MemoryPeim(p: Platform) returns (asserted: bool)
      requires p.Valid()
      modifies this
      ensures hobs == Carved(p, Declared(p, old(hobs)))
      ensures asserted <==>
              p.FdInMemory() ==> !MainDeclared(p, old(hobs)) || exists h :: h in old(hobs) && HoldsFd(p, h)
    {
      DeclareMain(p);
      FdFoundExactly(p, old(hobs));
      ghost var declared := hobs;
      asserted := true;
      if p.fdBase >= p.memBase && Add(p.fdBase, p.fdSize) <= Add(p.memBase, p.memSize) {
        asserted := false;
        var i := 0;
        while i < |hobs|
          invariant 0 <= i <= |hobs| && hobs == declared && !asserted
          invariant forall j :: 0 <= j < i ==> !HoldsFd(p, hobs[j])
        {
          if hobs[i].Resource? {
            if hobs[i].kind.SystemMemory? && p.fdBase >= hobs[i].start &&
               Add(p.fdBase, p.fdSize) <= Add(hobs[i].start, hobs[i].length) {
              assert HoldsFd(p, hobs[i]) && hobs[i] in declared;
              FirstFdIs(p, hobs, i);
              SplitAt(p, i);
              asserted := true;
              return;
            }
          }
          i := i + 1;
        }
        FirstFdIs(p, hobs, |hobs|);
      }
    }
  }

  lemma FirstFdIs(p: Platform, hobs: seq<Hob>, i: nat)
    requires i <= |hobs| && (forall j :: 0 <= j < i ==> !HoldsFd(p, hobs[j])) && (i < |hobs| ==> HoldsFd(p, hobs[i]))
    ensures FirstFd(p, hobs) == i
  {
    hide FirstFd, HoldsFd;
    var k := FirstFd(p, hobs);
  }

  // ------------------------------------------------ conservation

  /** No system-memory descriptor runs past the top of the address space. */
  predicate Fits(h: Hob) { IsMemory(h) ==> h.start + h.length < TWO64 }

  /** Whether a descriptor makes address `a` system memory, under the attributes `attr`
      or under any (None). */
  function Covers(h: Hob, a: int, attr: Option<int>): nat {
    if IsMemory(h) && (attr.None? || attr.value == h.attr) && h.start <= a < h.start + h.length then 1 else 0
  }

  /** How many descriptors do. */
  function Covering(hobs: seq<Hob>, a: int, attr: Option<int>): nat {
    if hobs == [] then 0 else Covering(hobs[..|hobs| - 1], a, attr) + Covers(hobs[|hobs| - 1], a, attr)
  }

  lemma {:induction false} CoveringAppend(u: seq<Hob>, v: seq<Hob>, a: int, attr: Option<int>)
    ensures Covering(u + v, a, attr) == Covering(u, a, attr) + Covering(v, a, attr)
    decreases |v|
  {
    if v == [] {
      assert u + v == u;
    } else {
      assert (u + v)[..|u + v| - 1] == u + v[..|v| - 1];
      CoveringAppend(u, v[..|v| - 1], a, attr);
    }
  }

  lemma CoveringUpdate(hobs: seq<Hob>, i: nat, h: Hob, a: int, attr: Option<int>)
    requires i < |hobs|
    ensures Covering(hobs[i := h], a, attr) == Covering(hobs, a, attr) - Covers(hobs[i], a, attr) + Covers(h, a, attr)
  {
    hide Covers;
    var u, v := hobs[..i], hobs[i + 1..];
    assert hobs == (u + [hobs[i]]) + v && hobs[i := h] == (u + [h]) + v;
    CoveringAppend(u + [hobs[i]], v, a, attr);
    CoveringAppend(u + [h], v, a, attr);
    assert (u + [hobs[i]])[..|u|] == u && (u + [h])[..|u|] == u;
  }

  /** The pieces of one descriptor cover what it covered. */
  lemma PiecesCover(p: Platform, h: Hob, a: int, attr: Option<int>)
    requires p.Valid() && HoldsFd(p, h) && Fits(h)
    ensures Covers(h, a, attr) == Covers(Shrunk(p, h), a, attr) + Covering(Cut(p, h), a, attr)
  {
    var cut := Cut(p, h);
    if |cut| == 2 {
      assert cut[..1][..0] == [];
      assert Covering(cut[..1], a, attr) == Covers(cut[0], a, attr);
      assert Covering(cut, a, attr) == Covers(cut[0], a, attr) + Covers(cut[1], a, attr);
    } else if |cut| == 1 {
      assert cut[..0] == [];
      assert Covering(cut, a, attr) == Covers(cut[0], a, attr);
    }
  }

  /** The split conserves system memory: every address is covered by as many descriptors
      as before, with the same attributes. What was disjoint stays disjoint. */
  lemma SplitConserves(p: Platform, hobs: seq<Hob>, a: int, attr: Option<int>)
    requires p.Valid() && forall h :: h in hobs ==> Fits(h)
    ensures Covering(Carved(p, hobs), a, attr) == Covering(hobs, a, attr)
  {
    hide FirstFd, Shrunk, Cut, HoldsFd, Fits, Covers;
    var i := FirstFd(p, hobs);
    if p.FdInMemory() && i < |hobs| {
      var h := hobs[i];
      var alloc := [Allocation(p.fdBase, p.fdSize)];
      assert h in hobs;
      PiecesCover(p, h, a, attr);
      CoveringUpdate(hobs, i, Shrunk(p, h), a, attr);
      CoveringAppend(hobs[i := Shrunk(p, h)], Cut(p, h), a, attr);
      CoveringAppend(hobs[i := Shrunk(p, h)] + Cut(p, h), alloc, a, attr);
      AllocationCoversNothing(p, a, attr);
    }
  }

  lemma AllocationCoversNothing(p: Platform, a: int, attr: Option<int>)
    ensures Covering([Allocation(p.fdBase, p.fdSize)], a, attr) == 0
  {
  }

  // ------------------------------------------------ the two tests

  /** The test for the main descriptor, without wrap-around: the descriptor begins at or
      below system memory and ends within or below it. */
  lemma MainTestExact(p: Platform, h: Hob)
    requires p.Valid() && Fits(h)
    ensures IsMain(p, h) <==> IsMemory(h) && h.start <= p.memBase && h.start + h.length <= p.memBase + p.memSize
  {
  }

  /** A descriptor holds the FD exactly if it covers every address of it. */
  lemma HoldsFdExact(p: Platform, h: Hob)
    requires p.Valid() && Fits(h) && p.fdSize > 0
    ensures HoldsFd(p, h) <==> forall a :: p.fdBase <= a < p.FdTop() ==> Covers(h, a, None) == 1
  {
    if forall a :: p.fdBase <= a < p.FdTop() ==> Covers(h, a, None) == 1 {
      assert Covers(h, p.fdBase, None) == 1 && Covers(h, p.FdTop() - 1, None) == 1;
    }
  }

  /** The added descriptor passes the test, so a second run adds nothing. Its attributes
      are 1, 2 and 4 for present, initialized and tested, and 800h, 1000h and 2000h for the
      kinds of caching. */
  lemma DeclaredOnce(p: Platform, hobs: seq<Hob>)
    requires p.Valid()
    ensures Declared(p, Declared(p, hobs)) == Declared(p, hobs)
    ensures !MainDeclared(p, hobs) ==>
              Declared(p, hobs) == hobs + [Resource(SystemMemory, 0x3807, p.memBase, p.memSize)]
    ensures !MainDeclared(p, hobs) ==> exists h :: h in Declared(p, hobs) && Contains(h, p.memBase, p.MemTop())
  {
    hide IsMain;
    if !MainDeclared(p, hobs) {
      MainTestExact(p, MainHob(p));
      assert MainHob(p) in Declared(p, hobs) && Contains(MainHob(p), p.memBase, p.MemTop());
    }
  }

  // ------------------------------------------------ the firmware's own descriptor

  predicate IsFd(p: Platform, h: Hob) {
    IsMemory(h) && h.start == p.fdBase && h.length == p.fdSize
  }

  ghost predicate PairwiseDisjoint(hobs: seq<Hob>) {
    forall a :: Covering(hobs, a, None) <= 1
  }

  lemma {:induction false} CountedTwice(hobs: seq<Hob>, i: nat, j: nat, a: int)
    requires i < j < |hobs| && Covers(hobs[i], a, None) == 1 && Covers(hobs[j], a, None) == 1
    ensures Covering(hobs, a, None) >= 2
  {
    hide Covers;
    assert hobs == hobs[..j + 1] + hobs[j + 1..];
    CoveringAppend(hobs[..j + 1], hobs[j + 1..], a, None);
    assert hobs[..j + 1][..j] == hobs[..j];
    assert hobs[..j] == hobs[..i + 1] + hobs[i + 1..j];
    CoveringAppend(hobs[..i + 1], hobs[i + 1..j], a, None);
  }

  /** The one case in which the FD is left inside a larger descriptor: it starts that
      descriptor and ends with system memory, but the descriptor goes on. */
  predicate FdNotSplitOff(p: Platform, h: Hob)
    requires h.Resource?
  {
    p.fdBase == h.start && p.MemTop() == p.FdTop() && Top(h) != p.FdTop()
  }

  /** After the split of disjoint descriptors at most one is the FD's own, and one is,
      exactly unless the comparison with the top of system memory prevents it. */
  lemma FdIsolated(p: Platform, hobs: seq<Hob>)
    requires p.Valid() && p.fdSize > 0 && p.FdInMemory()
    requires (forall h :: h in hobs ==> Fits(h)) && PairwiseDisjoint(hobs)
    requires FirstFd(p, hobs) < |hobs|
    ensures var after := Carved(p, hobs);
            && Allocation(p.fdBase, p.fdSize) in after
            && (forall i, j :: 0 <= i < j < |after| ==> !(IsFd(p, after[i]) && IsFd(p, after[j])))
            && ((exists h :: h in after && IsFd(p, h)) <==> !FdNotSplitOff(p, hobs[FirstFd(p, hobs)]))
  {
    hide FirstFd, Covering;
    var after, i := Carved(p, hobs), FirstFd(p, hobs);
    var h := hobs[i];
    assert h in hobs;
    assert after[|after| - 1] == Allocation(p.fdBase, p.fdSize);
    SplitConserves(p, hobs, p.fdBase, None);
    forall j, k | 0 <= j < k < |after|
      ensures !(IsFd(p, after[j]) && IsFd(p, after[k]))
    {
      if IsFd(p, after[j]) && IsFd(p, after[k]) {
        CountedTwice(after, j, k, p.fdBase);
        assert false;
      }
    }
    if FdNotSplitOff(p, h) {
      assert after == hobs[i := h] + [] + [Allocation(p.fdBase, p.fdSize)];
      forall k | 0 <= k < |after| && IsFd(p, after[k])
        ensures false
      {
        assert Covers(after[i], p.fdBase, None) == 1;
        if k < i { CountedTwice(after, k, i, p.fdBase); } else { CountedTwice(after, i, k, p.fdBase); }
      }
    } else if p.fdBase == h.start && p.MemTop() == p.FdTop() {
      assert after[i] == h && IsFd(p, h);
    } else {
      assert after[|hobs|] == Cut(p, h)[0] && IsFd(p, Cut(p, h)[0]);
    }
  }

  /** Memory ends with the FD, but the descriptor that begins with it goes on: the FD gets
      no descriptor of its own. */
  lemma FdLeftInside()
    ensures var p := Platform(0x8000_0000, 0x1000_0000, 0x8f00_0000, 0x100_0000, 0x100_0000);
            var low := Resource(SystemMemory, DEFAULT_ATTRIBUTES, 0x8000_0000, 0xf00_0000);
            var high := Resource(SystemMemory, DEFAULT_ATTRIBUTES, 0x8f00_0000, 0x200_0000);
            && p.Valid() && p.FdInMemory() && Declared(p, [low, high]) == [low, high]
            && FirstFd(p, [low, high]) == 1 && FdNotSplitOff(p, high)
            && Carved(p, [low, high]) == [low, high, Allocation(p.fdBase, p.fdSize)]
            && !IsFd(p, low) && !IsFd(p, high)
  {
    var p := Platform(0x8000_0000, 0x1000_0000, 0x8f00_0000, 0x100_0000, 0x100_0000);
    var low := Resource(SystemMemory, DEFAULT_ATTRIBUTES, 0x8000_0000, 0xf00_0000);
    var high := Resource(SystemMemory, DEFAULT_ATTRIBUTES, 0x8f00_0000, 0x200_0000);
    var hobs := [low, high];
    assert low in hobs && IsMain(p, low);
    FirstFdIs(p, hobs, 1);
    assert hobs[1 := high] == hobs;
  }

  // ------------------------------------------------ placing and splitting together

  predicate Contains(h: Hob, base: int, top: int) {
    IsMemory(h) && h.start <= base && top <= h.start + h.length
  }

  /** The second search succeeds exactly if the main descriptor was added or a descriptor
      held the FD from the start. */
  lemma FdFoundExactly(p: Platform, hobs: seq<Hob>)
    requires p.Valid()
    ensures p.FdInMemory() ==>
              ((exists h :: h in Declared(p, hobs) && HoldsFd(p, h)) <==>
               !MainDeclared(p, hobs) || exists h :: h in hobs && HoldsFd(p, h))
  {
    hide HoldsFd, IsMain;
    if p.FdInMemory() && !MainDeclared(p, hobs) {
      MainHoldsFd(p);
      assert MainHob(p) in Declared(p, hobs);
    }
  }

  lemma MainHoldsFd(p: Platform)
    requires p.Valid() && p.FdInMemory()
    ensures HoldsFd(p, MainHob(p))
  {
  }

  /** The second search succeeds whenever the main descriptor was added. */
  lemma FdFound(p: Platform, hobs: seq<Hob>)
    requires p.Valid() && p.FdInMemory() && !MainDeclared(p, hobs)
    ensures FirstFd(p, Declared(p, hobs)) < |Declared(p, hobs)|
  {
    var all := Declared(p, hobs);
    assert all[|hobs|] == MainHob(p) && HoldsFd(p, MainHob(p));
  }

  /** It can fail otherwise: the test for the main descriptor is met by a descriptor
      that ends below system memory. */
  lemma MainTestTooWeak()
    ensures var p := Platform(0x8000_0000, 0x4000_0000, 0x8000_0000, 0x10_0000, 0x100_0000);
            var hobs := [Resource(SystemMemory, DEFAULT_ATTRIBUTES, 0, 0x1000)];
            && p.Valid() && p.FdInMemory() && Declared(p, hobs) == hobs
            && forall h :: h in hobs ==> !HoldsFd(p, h)
  {
    var p := Platform(0x8000_0000, 0x4000_0000, 0x8000_0000, 0x10_0000, 0x100_0000);
    var hobs := [Resource(SystemMemory, DEFAULT_ATTRIBUTES, 0, 0x1000)];
    assert hobs[0] in hobs && IsMain(p, hobs[0]);
  }

  /** The region in the pieces of the main descriptor. */
  lemma RegionInPieces(p: Platform)
    requires p.Valid() && Placement(p).Some? && 0 < p.region <= p.Clamped() - p.memBase
    requires p.FdInMemory()
    ensures var base := Placement(p).value;
            && HoldsFd(p, MainHob(p))
            && var pieces := [Shrunk(p, MainHob(p))] + Cut(p, MainHob(p));
               exists h :: h in pieces && Contains(h, base, base + p.region)
                           && Disjoint(h.start, h.start + h.length, p.fdBase, p.FdTop())
  {
    var h, base := MainHob(p), Placement(p).value;
    assert HoldsFd(p, h);
    var pieces := [Shrunk(p, h)] + Cut(p, h);
    PlacementSound(p);
    assert pieces[0] == Shrunk(p, h) && pieces[0] in pieces;
    if base >= p.FdTop() && p.fdBase != h.start {
      assert pieces[2] in pieces && Contains(pieces[2], base, base + p.region);
    } else {
      assert Contains(pieces[0], base, base + p.region);
    }
  }

  /** When MemoryPeim adds the main descriptor, the region given to PEI lies inside one
      descriptor of the final list, clear of the FD; and where the FD lies in system
      memory and no earlier descriptor holds it, that whole descriptor is clear of it. */
  lemma RegionUsable(p: Platform, hobs: seq<Hob>)
    requires p.Valid() && Placement(p).Some? && 0 < p.region <= p.Clamped() - p.memBase
    requires !FdSwallowsMemory(p) && !MainDeclared(p, hobs)
    ensures var base, final := Placement(p).value, Carved(p, Declared(p, hobs));
            && Disjoint(base, base + p.region, p.fdBase, p.FdTop())
            && (exists h :: h in final && Contains(h, base, base + p.region))
            && (p.FdInMemory() && (forall h :: h in hobs ==> !HoldsFd(p, h)) ==>
                  exists h :: h in final && Contains(h, base, base + p.region)
                              && Disjoint(h.start, h.start + h.length, p.fdBase, p.FdTop()))
  {
    hide FirstFd;
    PlacementSound(p);
    var base, all := Placement(p).value, Declared(p, hobs);
    var main, i := MainHob(p), FirstFd(p, all);
    var final := Carved(p, all);
    assert all[|hobs|] == main && Contains(main, base, base + p.region);
    if !p.FdInMemory() {
      assert main in final;
    } else {
      FdFound(p, hobs);
      if i < |hobs| {
        assert hobs[i] in hobs && HoldsFd(p, hobs[i]);
        assert final[|hobs|] == main;
        assert main in final;
      } else {
        RegionInPieces(p);
        assert final == all[i := Shrunk(p, main)] + Cut(p, main) + [Allocation(p.fdBase, p.fdSize)];
        assert forall h :: h in [Shrunk(p, main)] + Cut(p, main) ==> h in final by {
          assert final[i] == Shrunk(p, main);
        }
      }
    }
  }
}
