/** The temporary RAM of the primary core: how PrimaryMain divides it, and how it is
    moved to permanent memory. */
module TemporaryRam {
  import opened Bytes
  import opened Words

  /** ALIGN_VALUE for an alignment that is a power of two: (a - v) & (a - 1) is then the
      remainder of a - v. */
  function AlignValue(v: nat, a: nat): (r: nat)
    requires a > 0
    ensures v <= r < v + a && r % a == 0
  {
    Rounded(v, a);
    v + (a - v) % a
  }

  lemma Rounded(v: nat, a: nat)
    requires a > 0
    ensures (v + (a - v) % a) % a == 0
  {
    var q := (a - v) / a;
    assert a - v == a * q + (a - v) % a;
    assert v + (a - v) % a == a * (1 - q);
    MultipleOf(a, 1 - q);
  }

  lemma MultipleOf(a: nat, k: int)
    requires a > 0
    ensures (a * k) % a == 0
  {
    assert (a * k) % a == (a * k + 0) % a;
    DivModUnique(a * k, a, k, 0);
  }

  lemma DivModUnique(n: int, a: int, q: int, r: int)
    requires a > 0 && 0 <= r < a && n == a * q + r
    ensures n / a == q && n % a == r
  {
    var q', r' := n / a, n % a;
    assert n == a * q' + r' && 0 <= r' < a;
    NoMultipleBetween(a, q, q', r, r');
  }

  lemma NoMultipleBetween(a: int, q: int, q': int, r: int, r': int)
    requires a > 0 && 0 <= r < a && 0 <= r' < a && a * q + r == a * q' + r'
    ensures q == q' && r == r'
  {
    if q < q' {
      Steps(a, q, q');
    } else if q' < q {
      Steps(a, q', q);
    }
  }

  lemma Steps(a: int, q: int, q': int)
    requires a > 0 && q < q'
    ensures a * q + a <= a * q'
  {
    assert a * (q' - q - 1) >= 0;
    assert a * (q' - q - 1) == a * q' - a * q - a;
  }

  /** The heap's share of `size` bytes of temporary RAM. */
  function HeapSize(size: nat, a: nat): (heap: nat)
    requires a > 0
    ensures size / 2 <= heap < size / 2 + a && heap % a == 0
  {
    AlignValue(size / 2, a)
  }

  /** The aligned half fits into the whole exactly for fewer than two bytes or at least
      one alignment unit. */
  lemma HeapFits(size: nat, a: nat)
    requires a > 0
    ensures HeapSize(size, a) <= size <==> size < 2 || size >= a
  {
    var h := size / 2;
    if size < 2 {
      assert h == 0;
      DivModUnique(a - 0, a, 1, 0);
    } else if h <= a {
      // one unit
      if h == a {
        DivModUnique(0, a, 0, 0);
      } else {
        DivModUnique(a - h, a, 0, a - h);
      }
      assert HeapSize(size, a) == a;
    }
  }

  /** Eight bytes of temporary RAM aligned to sixteen: the heap alone is twice as large. */
  lemma HeapOutgrowsRam()
    ensures HeapSize(8, 16) == 16
  {
    DivModUnique(16 - 4, 16, 0, 12);
  }

  // ------------------------------------------------ dividing it

  datatype HandOff = HandOff(ramBase: nat, ramSize: nat, heapBase: nat, heapSize: nat, stackBase: nat, stackSize: int)

  /** The PPI list, padded, then heap, then stack fill the primary stack area without
      gap or overlap. */
  predicate Tiles(h: HandOff, areaBase: nat, areaSize: nat, ppiSize: nat) {
    && areaBase + ppiSize <= h.ramBase == h.heapBase
    && h.heapBase + h.heapSize == h.stackBase
    && h.stackSize >= 0 && h.stackBase + h.stackSize == areaBase + areaSize
  }

  /** PrimaryMain up to the jump to the PEI core: the pieces tile the area exactly when
      what the PPI list leaves is less than two bytes or at least one alignment unit. */
  method PrimaryMain(areaBase: nat, areaSize: nat, ppiListSize: nat, a: nat) returns (h: HandOff)
    requires a > 0 && AlignValue(ppiListSize, a) <= areaSize && areaBase + areaSize + a < TWO64
    ensures h.ramBase == areaBase + AlignValue(ppiListSize, a) && h.ramSize == areaBase + areaSize - h.ramBase
    ensures h.heapSize == HeapSize(h.ramSize, a)
    ensures Tiles(h, areaBase, areaSize, ppiListSize) <==> h.ramSize < 2 || h.ramSize >= a
  {
    var size := AlignValue(ppiListSize, a);
    var temporaryRamBase := areaBase + size;
    var temporaryRamSize := areaSize - size;
    var heapSize := AlignValue(temporaryRamSize / 2, a);
    var stackBase := temporaryRamBase + heapSize;
    var stackSize := Sub(temporaryRamBase + temporaryRamSize, stackBase);
    h := HandOff(temporaryRamBase, temporaryRamSize, temporaryRamBase, heapSize, stackBase, stackSize);
    HeapFits(temporaryRamSize, a);
  }

  // ------------------------------------------------ moving it

  /** CopyMem, which copes with overlap. */
  function Copied(mem: seq<byte>, to: nat, from: nat, n: nat): (r: seq<byte>)
    requires to + n <= |mem| && from + n <= |mem|
    ensures |r| == |mem|
    ensures forall i :: 0 <= i < |mem| ==> r[i] == if to <= i < to + n then mem[from + (i - to)] else mem[i]
  {
    mem[..to] + mem[from..from + n] + mem[to + n..]
  }

  method CopyMem(mem: array<byte>, to: nat, from: nat, n: nat)
    requires to + n <= mem.Length && from + n <= mem.Length
    modifies mem
    ensures mem[..] == Copied(old(mem[..]), to, from, n)
  {
    forall i | 0 <= i < n {
      mem[to + i] := mem[from + i];
    }
  }

  /** Memory after the stack and then the heap have been copied. */
  function Migrated(mem: seq<byte>, temporary: nat, permanent: nat, size: nat, a: nat): (r: seq<byte>)
    requires a > 0 && HeapSize(size, a) <= size && temporary + size <= |mem| && permanent + size <= |mem|
    ensures |r| == |mem|
  {
    var heap := HeapSize(size, a);
    Copied(Copied(mem, permanent, temporary + heap, size - heap), permanent + (size - heap), temporary, heap)
  }

  /** PrePeiCoreTemporaryRamSupport; `delta` goes to SecSwitchStack. */
  method TemporaryRamSupport(mem: array<byte>, temporary: nat, permanent: nat, copySize: nat, a: nat) returns (delta: int)
    requires a > 0 && (copySize < 2 || copySize >= a)
    requires temporary + copySize <= mem.Length && permanent + copySize <= mem.Length
    modifies mem
    ensures HeapSize(copySize, a) <= copySize
    ensures mem[..] == Migrated(old(mem[..]), temporary, permanent, copySize, a)
    ensures delta == permanent - (temporary + HeapSize(copySize, a))
    ensures forall s :: temporary + HeapSize(copySize, a) <= s < temporary + copySize ==> mem[s + delta] == old(mem[s])
  {
    hide HeapSize, Copied, Migrated;
    HeapFits(copySize, a);
    var heapSize := HeapSize(copySize, a);
    var oldHeap, newHeap := temporary, permanent + (copySize - heapSize);
    var oldStack, newStack := temporary + heapSize, permanent;
    CopyMem(mem, newStack, oldStack, copySize - heapSize);
    CopyMem(mem, newHeap, oldHeap, heapSize);
    delta := newStack - oldStack;
    ghost var was, now := old(mem[..]), mem[..];
    MigratedIs(was, temporary, permanent, copySize, a, heapSize);
    assert now == Migrated(was, temporary, permanent, copySize, a);
    forall s | oldStack <= s < temporary + copySize
      ensures mem[s + delta] == old(mem[s])
    {
      StackMoved(was, temporary, permanent, copySize, a, s);
      assert now[s + delta] == was[s];
    }
  }

  lemma MigratedIs(mem: seq<byte>, temporary: nat, permanent: nat, size: nat, a: nat, heap: nat)
    requires a > 0 && heap == HeapSize(size, a) <= size && temporary + size <= |mem| && permanent + size <= |mem|
    ensures Migrated(mem, temporary, permanent, size, a) ==
            Copied(Copied(mem, permanent, temporary + heap, size - heap), permanent + (size - heap), temporary, heap)
  {
    hide HeapSize, Copied;
  }

  /** Every byte of the old stack is found at its address plus the delta, however the two
      areas lie to each other, and nothing outside the new area changes. */
  lemma StackMoved(mem: seq<byte>, temporary: nat, permanent: nat, size: nat, a: nat, s: nat)
    requires a > 0 && HeapSize(size, a) <= size && temporary + size <= |mem| && permanent + size <= |mem|
    requires s < |mem|
    ensures var after, stack := Migrated(mem, temporary, permanent, size, a), temporary + HeapSize(size, a);
            && (stack <= s < temporary + size ==> after[s + (permanent - stack)] == mem[s])
            && (s < permanent || permanent + size <= s ==> after[s] == mem[s])
  {
  }

  predicate Overlap(b: int, top: int, b': int, top': int) {
    b < top && b' < top' && b < top' && b' < top
  }

  predicate HeapKept(mem: seq<byte>, temporary: nat, permanent: nat, size: nat, a: nat)
    requires a > 0 && HeapSize(size, a) <= size && temporary + size <= |mem| && permanent + size <= |mem|
  {
    var after, heap := Migrated(mem, temporary, permanent, size, a), HeapSize(size, a);
    forall x :: temporary <= x < temporary + heap ==> mem[x] == after[permanent + (size - heap) + (x - temporary)]
  }

  lemma HeapMoves(mem: seq<byte>, temporary: nat, permanent: nat, size: nat, a: nat)
    requires a > 0 && HeapSize(size, a) <= size && temporary + size <= |mem| && permanent + size <= |mem|
    requires !Overlap(permanent, permanent + (size - HeapSize(size, a)), temporary, temporary + HeapSize(size, a))
    ensures HeapKept(mem, temporary, permanent, size, a)
  {
    hide HeapSize;
  }

  /** A new stack that overlaps the old heap spoils some heap. */
  lemma HeapLost(n: nat, temporary: nat, permanent: nat, size: nat, a: nat) returns (mem: seq<byte>)
    requires a > 0 && HeapSize(size, a) <= size && temporary + size <= n && permanent + size <= n
    requires Overlap(permanent, permanent + (size - HeapSize(size, a)), temporary, temporary + HeapSize(size, a))
    ensures |mem| == n && !HeapKept(mem, temporary, permanent, size, a)
  {
    hide HeapSize, Copied;
    var heap := HeapSize(size, a);
    var stack := size - heap;
    var x := if permanent < temporary then temporary else permanent;
    mem := seq(n, i => if i == x then 1 else 0);
    var first := Copied(mem, permanent, temporary + heap, stack);
    assert first[x] == mem[temporary + heap + (x - permanent)] == 0;
    var after := Copied(first, permanent + stack, temporary, heap);
    assert after[permanent + stack + (x - temporary)] == first[x];
    assert mem[x] == 1;
  }

  /** The heap arrives whole, whatever it holds, exactly when the new stack does not
      overlap the old heap: the stack is copied first. */
  lemma HeapMovedExactly(n: nat, temporary: nat, permanent: nat, size: nat, a: nat)
    requires a > 0 && HeapSize(size, a) <= size && temporary + size <= n && permanent + size <= n
    ensures (forall mem: seq<byte> | |mem| == n :: HeapKept(mem, temporary, permanent, size, a)) <==>
            !Overlap(permanent, permanent + (size - HeapSize(size, a)), temporary, temporary + HeapSize(size, a))
  {
    hide HeapKept;
    if Overlap(permanent, permanent + (size - HeapSize(size, a)), temporary, temporary + HeapSize(size, a)) {
      var mem := HeapLost(n, temporary, permanent, size, a);
    } else {
      forall mem: seq<byte> | |mem| == n
        ensures HeapKept(mem, temporary, permanent, size, a)
      {
        HeapMoves(mem, temporary, permanent, size, a);
      }
    }
  }

  /** Given the temporary RAM of the hand-off, the move takes exactly its stack for the
      stack and exactly its heap for the heap. */
  lemma SameSplit(h: HandOff, mem: seq<byte>, permanent: nat, a: nat, areaBase: nat, areaSize: nat, ppiSize: nat, i: nat)
    requires a > 0 && h.heapSize == HeapSize(h.ramSize, a) && h.ramSize == areaBase + areaSize - h.ramBase
    requires Tiles(h, areaBase, areaSize, ppiSize)
    requires h.ramBase + h.ramSize <= |mem| && permanent + h.ramSize <= |mem|
    requires !Overlap(permanent, permanent + h.stackSize, h.heapBase, h.heapBase + h.heapSize)
    ensures var after := Migrated(mem, h.ramBase, permanent, h.ramSize, a);
            && (i < h.stackSize ==> after[permanent + i] == mem[h.stackBase + i])
            && (i < h.heapSize ==> after[permanent + h.stackSize + i] == mem[h.heapBase + i])
  {
    hide HeapSize, Migrated;
    if i < h.stackSize {
      StackMoved(mem, h.ramBase, permanent, h.ramSize, a, h.stackBase + i);
    }
    if i < h.heapSize {
      HeapMoves(mem, h.ramBase, permanent, h.ramSize, a);
      assert mem[h.heapBase + i] == mem[h.ramBase + i];
    }
  }
}
