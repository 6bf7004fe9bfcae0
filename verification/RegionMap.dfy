/** The abstract view of an address space of src/kernel/mm/mmap.c: a sorted list of closed
    intervals, read as a partial map from address to region flags. */
module RegionMap {

  import opened Kernel
  import opened Seals

  /** The VM_* bits of a region. */
  datatype Flags = Flags(read: bool, write: bool, exec: bool, zero: bool, shared: bool, growsdown: bool, dontexpand: bool)

  datatype Region = Region(start: int, end: int, flags: Flags)

  const LIMIT: int := 0x7FFF_FFFF_FFFF

  predicate Has(r: Region, a: int) {
    r.start <= a <= r.end
  }

  /** Every region is non-empty and within the limit. */
  ghost predicate Bounded(rs: seq<Region>) {
    forall i | 0 <= i < |rs| :: 0 <= rs[i].start <= rs[i].end <= LIMIT
  }

  /** The regions are sorted by address and pairwise disjoint. */
  ghost predicate Sorted(rs: seq<Region>) {
    forall i, j | 0 <= i < j < |rs| :: rs[i].end < rs[j].start
  }

  ghost predicate Ordered(rs: seq<Region>) {
    Bounded(rs) && Sorted(rs)
  }

  /** The flags under which an address is mapped, if it is: those of the first region that holds it. */
  ghost function At(rs: seq<Region>, a: int): Option<Flags> {
    if rs == [] then None
    else if Has(rs[0], a) then Some(rs[0].flags)
    else At(rs[1..], a)
  }

  ghost predicate Covered(rs: seq<Region>, a: int) {
    At(rs, a).Some?
  }

  lemma {:induction false} AtFirst(rs: seq<Region>, a: int, i: int)
    requires 0 <= i < |rs| && Has(rs[i], a)
    requires forall j | 0 <= j < i :: !Has(rs[j], a)
    ensures At(rs, a) == Some(rs[i].flags)
    decreases i
  {
    if i > 0 {
      AtFirst(rs[1..], a, i - 1);
    }
  }

  lemma {:induction false} AtNone(rs: seq<Region>, a: int)
    requires forall j | 0 <= j < |rs| :: !Has(rs[j], a)
    ensures At(rs, a) == None
  {
    if rs != [] {
      AtNone(rs[1..], a);
    }
  }

  lemma {:induction false} AtWitness(rs: seq<Region>, a: int) returns (i: int)
    requires Covered(rs, a)
    ensures 0 <= i < |rs| && Has(rs[i], a) && At(rs, a) == Some(rs[i].flags)
  {
    if Has(rs[0], a) {
      i := 0;
    } else {
      i := AtWitness(rs[1..], a);
      i := i + 1;
    }
  }

  /** In an ordered list the region that holds an address decides its flags. */
  lemma AtIndex(rs: seq<Region>, a: int, i: int)
    requires Ordered(rs) && 0 <= i < |rs| && Has(rs[i], a)
    ensures At(rs, a) == Some(rs[i].flags)
  {
    AtFirst(rs, a, i);
  }

  lemma {:induction false} AtConcat(xs: seq<Region>, ys: seq<Region>, a: int)
    ensures At(xs + ys, a) == if Covered(xs, a) then At(xs, a) else At(ys, a)
  {
    if xs == [] {
      assert xs + ys == ys;
    } else {
      assert (xs + ys)[1..] == xs[1..] + ys;
      AtConcat(xs[1..], ys, a);
    }
  }

  /** Two lists that map every address alike, except those in [lo, hi), which the second leaves free. */
  ghost predicate Cleared(rs: seq<Region>, rs': seq<Region>, lo: int, hi: int) {
    forall a :: At(rs', a) == if lo <= a < hi then None else At(rs, a)
  }

  /** The list with region i replaced by the regions of mid. */
  function Replace(rs: seq<Region>, i: int, mid: seq<Region>): seq<Region>
    requires 0 <= i < |rs|
  {
    rs[..i] + mid + rs[i + 1..]
  }

  /** What an address maps to after region i gave way to others inside it. */
  lemma AtReplace(rs: seq<Region>, i: int, mid: seq<Region>, a: int)
    requires Ordered(rs) && 0 <= i < |rs|
    requires forall k | 0 <= k < |mid| :: rs[i].start <= mid[k].start && mid[k].end <= rs[i].end
    ensures At(Replace(rs, i, mid), a) == if Has(rs[i], a) then At(mid, a) else At(rs, a)
  {
    var xs, ys := rs[..i], rs[i + 1..];
    assert rs == xs + [rs[i]] + ys;
    AtConcat(xs + mid, ys, a);
    AtConcat(xs, mid, a);
    AtConcat(xs + [rs[i]], ys, a);
    AtConcat(xs, [rs[i]], a);
    if Has(rs[i], a) {
      AtNone(xs, a);
      AtNone(ys, a);
    } else {
      AtNone(mid, a);
    }
  }

  /** Where a region starting at start goes: before the first region that starts later. */
  ghost predicate InsertIndex(rs: seq<Region>, start: int, k: int) {
    && 0 <= k <= |rs|
    && (forall i | 0 <= i < k :: rs[i].start <= start)
    && (k < |rs| ==> start < rs[k].start)
  }

  function Insert(rs: seq<Region>, k: int, r: Region): seq<Region>
    requires 0 <= k <= |rs|
  {
    rs[..k] + [r] + rs[k..]
  }

  /** No address of [lo, hi] is mapped. */
  ghost predicate Free(rs: seq<Region>, lo: int, hi: int) {
    forall i | 0 <= i < |rs| :: rs[i].end < lo || hi < rs[i].start
  }

  lemma FreeIffUncovered(rs: seq<Region>, lo: int, hi: int)
    requires Bounded(rs) && lo <= hi
    ensures Free(rs, lo, hi) <==> forall a | lo <= a <= hi :: !Covered(rs, a)
  {
    if Free(rs, lo, hi) {
      forall a | lo <= a <= hi
        ensures !Covered(rs, a)
      {
        AtNone(rs, a);
      }
    } else {
      var i :| 0 <= i < |rs| && !(rs[i].end < lo || hi < rs[i].start);
      var a := if rs[i].start < lo then lo else rs[i].start;
      var j := HolderExists(rs, a, i);
      assert Covered(rs, a);
    }
  }

  lemma HolderExists(rs: seq<Region>, a: int, i: int) returns (j: int)
    requires 0 <= i < |rs| && Has(rs[i], a)
    ensures 0 <= j <= i && Has(rs[j], a) && At(rs, a) == Some(rs[j].flags)
  {
    j := 0;
    while !Has(rs[j], a)
      invariant 0 <= j <= i
      invariant forall k | 0 <= k < j :: !Has(rs[k], a)
      decreases i - j
    {
      j := j + 1;
    }
    AtFirst(rs, a, j);
  }

  /** The list with r placed before the first region that starts later. */
  function InsertSorted(rs: seq<Region>, r: Region): seq<Region> {
    if rs == [] then [r]
    else if r.start < rs[0].start then [r] + rs
    else [rs[0]] + InsertSorted(rs[1..], r)
  }

  lemma {:induction false} InsertSortedAt(rs: seq<Region>, k: int, r: Region)
    requires InsertIndex(rs, r.start, k)
    ensures InsertSorted(rs, r) == Insert(rs, k, r)
  {
    if k == 0 {
      assert rs == [] ==> Insert(rs, 0, r) == [r];
      assert Insert(rs, 0, r) == [r] + rs;
    } else {
      InsertSortedAt(rs[1..], k - 1, r);
      assert Insert(rs, k, r) == [rs[0]] + Insert(rs[1..], k - 1, r);
    }
  }

  lemma InsertIndexExists(rs: seq<Region>, start: int) returns (k: int)
    ensures InsertIndex(rs, start, k)
  {
    k := 0;
    while k < |rs| && rs[k].start <= start
      invariant 0 <= k <= |rs|
      invariant forall i | 0 <= i < k :: rs[i].start <= start
    {
      k := k + 1;
    }
  }

  lemma OrderedInsert(rs: seq<Region>, k: int, r: Region)
    requires Ordered(rs) && InsertIndex(rs, r.start, k)
    requires 0 <= r.start <= r.end <= LIMIT && Free(rs, r.start, r.end)
    ensures Ordered(Insert(rs, k, r))
  {
  }

  /** Mapping a region in where nothing is mapped keeps the order. */
  lemma InsertOrdered(rs: seq<Region>, r: Region)
    requires Ordered(rs)
    requires 0 <= r.start <= r.end <= LIMIT && Free(rs, r.start, r.end)
    ensures Ordered(InsertSorted(rs, r))
  {
    var k := InsertIndexExists(rs, r.start);
    InsertSortedAt(rs, k, r);
    OrderedInsert(rs, k, r);
  }

  /** It maps exactly the region's addresses. */
  lemma InsertMaps(rs: seq<Region>, r: Region, a: int)
    requires Ordered(rs) && Free(rs, r.start, r.end)
    ensures At(InsertSorted(rs, r), a) == if Has(r, a) then Some(r.flags) else At(rs, a)
  {
  }

  /** Where the free stretch that starts at addr ends: at the next region, or past the limit. */
  ghost function HoleEnd(rs: seq<Region>, k: int): int
    requires 0 <= k <= |rs|
  {
    if k < |rs| then rs[k].start else LIMIT + 1
  }

  lemma HoleIsFree(rs: seq<Region>, addr: int, k: int)
    requires Ordered(rs) && InsertIndex(rs, addr, k) && addr <= LIMIT
    requires forall i | 0 <= i < |rs| :: !Has(rs[i], addr)
    ensures addr < HoleEnd(rs, k)
    ensures Free(rs, addr, HoleEnd(rs, k) - 1)
  {
  }

  /** The outcome of mmap_mapin for a region [start, end], before it is linked. */
  ghost predicate Overlaps(rs: seq<Region>, start: int, end: int) {
    start <= end && !Free(rs, start, end)
  }

  lemma FreeJoin(rs: seq<Region>, lo: int, mid: int, hi: int)
    requires Bounded(rs) && lo <= mid && Free(rs, mid, hi)
    requires lo < mid ==> Free(rs, lo, mid - 1)
    ensures Free(rs, lo, hi)
  {
  }

  function Delete(rs: seq<Region>, k: int): seq<Region>
    requires 0 <= k < |rs|
  {
    rs[..k] + rs[k + 1..]
  }

  /** Region k with new bounds. */
  function SetBoundsAt(rs: seq<Region>, k: int, start: int, end: int): seq<Region>
    requires 0 <= k < |rs|
  {
    rs[k := Region(start, end, rs[k].flags)]
  }

  /** Region k cut in two before addr. */
  function SplitAt(rs: seq<Region>, k: int, addr: int): seq<Region>
    requires 0 <= k < |rs|
  {
    InsertSorted(SetBoundsAt(rs, k, rs[k].start, addr - 1), Region(addr, rs[k].end, rs[k].flags))
  }

  /** Deleting region k keeps the order and frees exactly its addresses. */
  lemma DeleteOrdered(rs: seq<Region>, k: int)
    requires Ordered(rs) && 0 <= k < |rs|
    ensures Ordered(Delete(rs, k))
  {
  }

  lemma DeleteFrees(rs: seq<Region>, k: int, a: int)
    requires Ordered(rs) && 0 <= k < |rs|
    ensures At(Delete(rs, k), a) == if Has(rs[k], a) then None else At(rs, a)
  {
    assert Delete(rs, k) == Replace(rs, k, []);
    AtReplace(rs, k, [], a);
  }

  lemma ShrinkFrees(rs: seq<Region>, k: int, start: int, end: int, a: int)
    requires Ordered(rs) && 0 <= k < |rs|
    requires rs[k].start <= start <= end <= rs[k].end
    ensures At(SetBoundsAt(rs, k, start, end), a) ==
      if Has(rs[k], a) && !(start <= a <= end) then None else At(rs, a)
  {
    var mid := [Region(start, end, rs[k].flags)];
    assert SetBoundsAt(rs, k, start, end) == Replace(rs, k, mid);
    AtReplace(rs, k, mid, a);
    if Has(rs[k], a) {
      AtIndex(rs, a, k);
    }
  }

  lemma SplitKeeps(rs: seq<Region>, k: int, addr: int, a: int)
    requires Ordered(rs) && 0 <= k < |rs|
    requires rs[k].start < addr <= rs[k].end
    ensures At(SplitAt(rs, k, addr), a) == At(rs, a)
  {
    ShrinkFrees(rs, k, rs[k].start, addr - 1, a);
    InsertMaps(SetBoundsAt(rs, k, rs[k].start, addr - 1), Region(addr, rs[k].end, rs[k].flags), a);
    if Has(rs[k], a) {
      AtIndex(rs, a, k);
    }
  }

  // ----- unmapping a range step by step

  /** From rs to rs' nothing changes outside [lo, hi). */
  ghost predicate SameOutside(rs: seq<Region>, rs': seq<Region>, lo: int, hi: int) {
    forall a | a < lo || hi <= a :: At(rs', a) == At(rs, a)
  }

  /** Nothing in [lo, hi) is mapped. */
  ghost predicate Unmapped(rs: seq<Region>, lo: int, hi: int) {
    forall a | lo <= a < hi :: At(rs, a) == None
  }

  /** How many steps away the address is from being free: a region's first address needs one, an inner one two. */
  ghost function StepsToFree(rs: seq<Region>, a: int): nat {
    if exists i | 0 <= i < |rs| :: rs[i].start == a then 1
    else if exists i | 0 <= i < |rs| :: Has(rs[i], a) then 2
    else 0
  }

  /** A region holds a with addresses of its own on both sides. */
  ghost predicate Inner(rs: seq<Region>, a: int) {
    exists i | 0 <= i < |rs| :: rs[i].start < a < rs[i].end
  }

  lemma InnerAt(rs: seq<Region>, k: int, a: int)
    requires Ordered(rs) && 0 <= k < |rs| && Has(rs[k], a)
    ensures Inner(rs, a) <==> rs[k].start < a < rs[k].end
  {
  }

  /** One turn of the unmap loop, from (start, len) to (start', len'): what it passes is free, nothing outside the
      range changes, the next turn does not start inside a region, and there is progress. */
  ghost predicate IsUnmapTurn(rs: seq<Region>, rs': seq<Region>, start: int, len: int, start': int, len': int) {
    && start <= start' && 0 <= len' && start' + len' == start + len
    && SameOutside(rs, rs', start, start + len)
    && Unmapped(rs', start, start')
    && !Inner(rs', start')
    && (len' < len || (len' == len && StepsToFree(rs', start) < StepsToFree(rs, start)))
  }

  /** The same, a few recursive steps away, so that only proofs that ask for it look inside. */
  ghost predicate UnmapTurn(rs: seq<Region>, rs': seq<Region>, start: int, len: int, start': int, len': int,
                            seal: Seal := SEALED)
  {
    match seal
    case Open => IsUnmapTurn(rs, rs', start, len, start', len')
    case Shut(inner) => UnmapTurn(rs, rs', start, len, start', len', inner)
  }

  lemma UnmapTurnIs(rs: seq<Region>, rs': seq<Region>, start: int, len: int, start': int, len': int)
    ensures UnmapTurn(rs, rs', start, len, start', len') <==> IsUnmapTurn(rs, rs', start, len, start', len')
  {
    assert UnmapTurn(rs, rs', start, len, start', len', Shut(Shut(Open)))
        == UnmapTurn(rs, rs', start, len, start', len', Shut(Open)) == UnmapTurn(rs, rs', start, len, start', len', Open);
  }

  /** Region k starts the range and ends inside it: it is removed, and the loop goes on at next. */
  lemma DeleteTurn(rs: seq<Region>, k: int, start: int, len: int, next: int)
    requires Ordered(rs) && 0 <= k < |rs|
    requires rs[k].start == start && rs[k].end < start + len
    requires start <= next <= rs[k].end + 1
    ensures Ordered(Delete(rs, k))
    ensures UnmapTurn(rs, Delete(rs, k), start, len, next, start + len - next)
  {
    DeleteOrdered(rs, k);
    forall a
      ensures At(Delete(rs, k), a) == if Has(rs[k], a) then None else At(rs, a)
    {
      DeleteFrees(rs, k, a);
    }
    assert StepsToFree(rs, start) == 1 && StepsToFree(Delete(rs, k), start) == 0;
    UnmapTurnIs(rs, Delete(rs, k), start, len, next, start + len - next);
  }

  /** Region k starts the range and reaches past it: its front is cut off. */
  lemma TrimFrontTurn(rs: seq<Region>, k: int, start: int, len: int)
    requires Ordered(rs) && 0 <= k < |rs|
    requires rs[k].start == start < start + len <= rs[k].end
    ensures Ordered(SetBoundsAt(rs, k, start + len, rs[k].end))
    ensures UnmapTurn(rs, SetBoundsAt(rs, k, start + len, rs[k].end), start, len, start + len, 0)
  {
    var rs' := SetBoundsAt(rs, k, start + len, rs[k].end);
    forall a
      ensures a < start || start + len <= a ==> At(rs', a) == At(rs, a)
      ensures start <= a < start + len ==> At(rs', a) == None
    {
      ShrinkFrees(rs, k, start + len, rs[k].end, a);
    }
    UnmapTurnIs(rs, rs', start, len, start + len, 0);
  }

  /** Region k ends where the range starts: it loses its last address. */
  lemma TrimBackTurn(rs: seq<Region>, k: int, start: int, len: int)
    requires Ordered(rs) && 0 <= k < |rs|
    requires rs[k].start < start == rs[k].end && 0 < len
    ensures Ordered(SetBoundsAt(rs, k, rs[k].start, start - 1))
    ensures UnmapTurn(rs, SetBoundsAt(rs, k, rs[k].start, start - 1), start, len, start, len)
  {
    forall a | a < start || start + len <= a
      ensures At(SetBoundsAt(rs, k, rs[k].start, start - 1), a) == At(rs, a)
    {
      ShrinkFrees(rs, k, rs[k].start, start - 1, a);
    }
    assert StepsToFree(rs, start) == 2 && StepsToFree(SetBoundsAt(rs, k, rs[k].start, start - 1), start) == 0;
    UnmapTurnIs(rs, SetBoundsAt(rs, k, rs[k].start, start - 1), start, len, start, len);
  }

  /** The range starts strictly inside region k: the region is split there. */
  lemma SplitTurn(rs: seq<Region>, k: int, start: int, len: int)
    requires Ordered(rs) && 0 <= k < |rs|
    requires rs[k].start < start < rs[k].end && 0 < len
    ensures UnmapTurn(rs, SplitAt(rs, k, start), start, len, start, len)
  {
    forall a
      ensures At(SplitAt(rs, k, start), a) == At(rs, a)
    {
      SplitKeeps(rs, k, start, a);
    }
    var kept, cut := SetBoundsAt(rs, k, rs[k].start, start - 1), Region(start, rs[k].end, rs[k].flags);
    var j := InsertIndexExists(kept, start);
    InsertSortedAt(kept, j, cut);
    assert SplitAt(rs, k, start)[j].start == start;
    assert StepsToFree(rs, start) == 2 && StepsToFree(SplitAt(rs, k, start), start) == 1;
    UnmapTurnIs(rs, SplitAt(rs, k, start), start, len, start, len);
  }

  /** The range starts in a hole of at least n addresses: the loop skips them. */
  lemma HoleTurn(rs: seq<Region>, start: int, len: int, n: int)
    requires 0 < n <= len && Free(rs, start, start + n - 1)
    ensures UnmapTurn(rs, rs, start, len, start + n, len - n)
  {
    forall a | start <= a < start + n
      ensures At(rs, a) == None
    {
      AtNone(rs, a);
    }
    UnmapTurnIs(rs, rs, start, len, start + n, len - n);
  }

  /** Where the unmap loop stands. */
  datatype Turning = Turning(rs: seq<Region>, start: int, len: int, stop: bool)

  /** One turn of the loop as it is written: it stops when the range has left the address space, and it changes nothing
      when it has to split a region and canAlloc says that it cannot. */
  ghost predicate Turns(t: Turning, canAlloc: bool, t': Turning) {
    && t.len != 0 && !t.stop
    && if !canAlloc && Inner(t.rs, t.start) then t' == t
       else if t'.stop then LIMIT < t.start && t' == t.(stop := true)
       else UnmapTurn(t.rs, t'.rs, t.start, t.len, t'.start, t'.len)
  }

  /** A run of the loop, where no split finds memory. */
  ghost predicate StarvedRun(ts: seq<Turning>) {
    forall i, j | 0 <= i < |ts| && 0 <= j < |ts| && j == i + 1 :: Turns(ts[i], false, ts[j])
  }

  /** The runs of the loop from the inside of a region without memory are exactly those in which nothing ever changes:
      whatever their length, the loop has not ended. */
  lemma {:induction false} UnmapNeverEnds(t: Turning, ts: seq<Turning>)
    requires t.len != 0 && !t.stop && Inner(t.rs, t.start) && ts != [] && ts[0] == t
    ensures StarvedRun(ts) <==> forall i | 0 <= i < |ts| :: ts[i] == t
    decreases |ts|
  {
    if |ts| > 1 {
      var n := |ts| - 1;
      UnmapNeverEnds(t, ts[..n]);
      if StarvedRun(ts) {
        assert StarvedRun(ts[..n]);
        assert ts[n - 1] == ts[..n][n - 1] == t && Turns(ts[n - 1], false, ts[n]);
        forall i | 0 <= i < |ts|
          ensures ts[i] == t
        {
          assert i < n ==> ts[..n][i] == ts[i];
        }
      }
    }
  }

  /** What the turns of the unmap loop over [lo, hi) have done by the time it stands at mid. Only at lo can it have to
      split a region; as long as that fails, nothing has happened. */
  ghost predicate UnmapSoFar(rs0: seq<Region>, rs: seq<Region>, lo: int, mid: int, hi: int, seal: Seal := SEALED) {
    match seal
    case Open =>
      SameOutside(rs0, rs, lo, hi) && Unmapped(rs, lo, mid) && (!Inner(rs, mid) || (mid == lo && rs == rs0))
    case Shut(inner) => UnmapSoFar(rs0, rs, lo, mid, hi, inner)
  }

  lemma UnmapSoFarIs(rs0: seq<Region>, rs: seq<Region>, lo: int, mid: int, hi: int)
    ensures UnmapSoFar(rs0, rs, lo, mid, hi) <==> UnmapSoFar(rs0, rs, lo, mid, hi, Open)
  {
    assert UnmapSoFar(rs0, rs, lo, mid, hi, Shut(Shut(Open))) == UnmapSoFar(rs0, rs, lo, mid, hi, Shut(Open));
  }

  lemma UnmapStarts(rs: seq<Region>, lo: int, hi: int)
    ensures UnmapSoFar(rs, rs, lo, lo, hi)
  {
    UnmapSoFarIs(rs, rs, lo, lo, hi);
  }

  /** A turn that has to split its region is at the start. */
  lemma UnmapSticks(rs0: seq<Region>, rs: seq<Region>, lo: int, mid: int, hi: int)
    requires UnmapSoFar(rs0, rs, lo, mid, hi) && Inner(rs, mid)
    ensures rs == rs0 && mid == lo
  {
    UnmapSoFarIs(rs0, rs, lo, mid, hi);
  }

  /** Turns add up. */
  lemma UnmapGoesOn(rs0: seq<Region>, rs: seq<Region>, rs': seq<Region>, lo: int, mid: int, len: int, mid': int, len': int,
                    hi: int)
    requires lo <= mid && mid + len == hi && UnmapSoFar(rs0, rs, lo, mid, hi)
    requires UnmapTurn(rs, rs', mid, len, mid', len')
    ensures UnmapSoFar(rs0, rs', lo, mid', hi)
    ensures mid <= mid' && 0 <= len' && mid' + len' == hi
    ensures len' < len || (len' == len && StepsToFree(rs', mid') < StepsToFree(rs, mid))
  {
    UnmapSoFarIs(rs0, rs, lo, mid, hi);
    UnmapSoFarIs(rs0, rs', lo, mid', hi);
    UnmapTurnIs(rs, rs', mid, len, mid', len');
  }

  lemma NothingPastLimit(rs: seq<Region>, lo: int, hi: int)
    requires Bounded(rs) && LIMIT < lo
    ensures Unmapped(rs, lo, hi)
  {
    forall a | lo <= a < hi
      ensures At(rs, a) == None
    {
      AtNone(rs, a);
    }
  }

  /** When the loop has come to the end, or past all regions, exactly the range is free. */
  lemma RangeCleared(rs: seq<Region>, rs': seq<Region>, lo: int, mid: int, hi: int)
    requires UnmapSoFar(rs, rs', lo, mid, hi)
    requires mid == hi || (LIMIT < mid && Bounded(rs'))
    ensures Cleared(rs, rs', lo, hi)
  {
    UnmapSoFarIs(rs, rs', lo, mid, hi);
    if mid != hi {
      NothingPastLimit(rs', mid, hi);
    }
  }

  // ----- holes

  /** size addresses from addr on are free and within the limit. */
  ghost predicate Fits(rs: seq<Region>, addr: int, size: int) {
    0 <= addr && addr + size - 1 <= LIMIT && Free(rs, addr, addr + size - 1)
  }

  /** Where the hole before region i starts; hole |rs| is the one after the last region. */
  ghost function GapStart(rs: seq<Region>, i: int): int
    requires 0 <= i <= |rs|
  {
    if i == 0 then 0 else rs[i - 1].end + 1
  }

  ghost function GapSize(rs: seq<Region>, i: int): int
    requires 0 <= i <= |rs|
  {
    HoleEnd(rs, i) - GapStart(rs, i)
  }

  /** Any place inside one of the holes fits. */
  lemma GapFits(rs: seq<Region>, i: int, addr: int, size: int)
    requires Ordered(rs) && 0 <= i <= |rs| && 1 <= size
    requires GapStart(rs, i) <= addr && addr + size <= HoleEnd(rs, i)
    ensures Fits(rs, addr, size)
  {
  }

  /** And whatever fits lies inside one of the holes. */
  lemma FitsGap(rs: seq<Region>, addr: int, size: int) returns (i: int)
    requires Ordered(rs) && 1 <= size && Fits(rs, addr, size)
    ensures 0 <= i <= |rs| && GapStart(rs, i) <= addr && addr + size <= HoleEnd(rs, i) && size <= GapSize(rs, i)
  {
    i := InsertIndexExists(rs, addr);
  }

  /** The first hole that is large enough gives the lowest place. */
  lemma FirstGapLowest(rs: seq<Region>, i: int, size: int)
    requires Ordered(rs) && 1 <= size && 0 <= i <= |rs| && size <= GapSize(rs, i)
    requires forall j | 0 <= j < i :: GapSize(rs, j) < size
    ensures Fits(rs, GapStart(rs, i), size)
    ensures forall b | b < GapStart(rs, i) :: !Fits(rs, b, size)
  {
    GapFits(rs, i, GapStart(rs, i), size);
    forall b | b < GapStart(rs, i)
      ensures !Fits(rs, b, size)
    {
      if Fits(rs, b, size) {
        var j := FitsGap(rs, b, size);
      }
    }
  }

  /** The last hole that is large enough gives the highest place. */
  lemma LastGapHighest(rs: seq<Region>, i: int, size: int)
    requires Ordered(rs) && 1 <= size && 0 <= i <= |rs| && size <= GapSize(rs, i)
    requires forall j | i < j <= |rs| :: GapSize(rs, j) < size
    ensures Fits(rs, HoleEnd(rs, i) - size, size)
    ensures forall b | HoleEnd(rs, i) - size < b :: !Fits(rs, b, size)
  {
    GapFits(rs, i, HoleEnd(rs, i) - size, size);
    forall b | HoleEnd(rs, i) - size < b
      ensures !Fits(rs, b, size)
    {
      if Fits(rs, b, size) {
        var j := FitsGap(rs, b, size);
      }
    }
  }

  lemma NoGapNoFit(rs: seq<Region>, size: int)
    requires Ordered(rs) && 1 <= size
    requires forall j | 0 <= j <= |rs| :: GapSize(rs, j) < size
    ensures forall b :: !Fits(rs, b, size)
  {
    forall b
      ensures !Fits(rs, b, size)
    {
      if Fits(rs, b, size) {
        var j := FitsGap(rs, b, size);
      }
    }
  }

  /** The one hole that the search from the end overlooks: a single free address below a first region that starts at 1. */
  ghost predicate Overlooked(rs: seq<Region>, addr: int, size: int) {
    size == 1 && addr == 0 && rs != [] && rs[0].start == 1
  }

  lemma OnlyOverlooked(rs: seq<Region>, size: int)
    requires Ordered(rs) && 1 <= size
    requires forall j | 0 < j <= |rs| :: GapSize(rs, j) < size
    requires GapSize(rs, 0) < size || (rs != [] && rs[0].start == 1)
    ensures forall b | Fits(rs, b, size) :: Overlooked(rs, b, size)
  {
    forall b | Fits(rs, b, size)
      ensures Overlooked(rs, b, size)
    {
      var j := FitsGap(rs, b, size);
    }
  }

  // ----- mapping over, protecting, resizing

  /** From rs to rs' exactly the addresses of [lo, hi] come to map to flags. */
  ghost predicate MappedOver(rs: seq<Region>, rs': seq<Region>, lo: int, hi: int, flags: Flags) {
    forall a :: At(rs', a) == if lo <= a <= hi then Some(flags) else At(rs, a)
  }

  /** No address changes. */
  ghost predicate SameMap(rs: seq<Region>, rs': seq<Region>) {
    forall a :: At(rs', a) == At(rs, a)
  }

  lemma ClearedIsFree(rs: seq<Region>, rs': seq<Region>, lo: int, hi: int)
    requires Cleared(rs, rs', lo, hi) && Bounded(rs') && lo < hi
    ensures Free(rs', lo, hi - 1)
  {
    FreeIffUncovered(rs', lo, hi - 1);
  }

  /** Clearing a range and mapping a region there maps over it. */
  lemma ClearThenInsert(rs: seq<Region>, rs': seq<Region>, r: Region)
    requires Ordered(rs') && r.start <= r.end
    requires Cleared(rs, rs', r.start, r.end + 1)
    ensures MappedOver(rs, InsertSorted(rs', r), r.start, r.end, r.flags)
  {
    ClearedIsFree(rs, rs', r.start, r.end + 1);
    forall a
      ensures At(InsertSorted(rs', r), a) == if r.start <= a <= r.end then Some(r.flags) else At(rs, a)
    {
      InsertMaps(rs', r, a);
    }
  }

  lemma InsertMapsOver(rs: seq<Region>, r: Region)
    requires Ordered(rs) && Free(rs, r.start, r.end)
    ensures MappedOver(rs, InsertSorted(rs, r), r.start, r.end, r.flags)
  {
  }

  function SetFlagsAt(rs: seq<Region>, k: int, flags: Flags): seq<Region>
    requires 0 <= k < |rs|
  {
    rs[k := Region(rs[k].start, rs[k].end, flags)]
  }

  lemma SetFlagsMaps(rs: seq<Region>, k: int, flags: Flags)
    requires Ordered(rs) && 0 <= k < |rs|
    ensures Ordered(SetFlagsAt(rs, k, flags))
    ensures MappedOver(rs, SetFlagsAt(rs, k, flags), rs[k].start, rs[k].end, flags)
  {
    var mid := [Region(rs[k].start, rs[k].end, flags)];
    assert SetFlagsAt(rs, k, flags) == Replace(rs, k, mid);
    forall a
      ensures At(SetFlagsAt(rs, k, flags), a) == if rs[k].start <= a <= rs[k].end then Some(flags) else At(rs, a)
    {
      AtReplace(rs, k, mid, a);
    }
  }

  /** The region at k after its bounds moved to [start, end]: it maps its new addresses and gives up the others. */
  ghost predicate Resized(rs: seq<Region>, rs': seq<Region>, r: Region, start: int, end: int) {
    forall a :: At(rs', a) == if start <= a <= end then Some(r.flags) else if Has(r, a) then None else At(rs, a)
  }

  /** A region may grow over free addresses, or shrink. */
  lemma ResizeRegion(rs: seq<Region>, k: int, start: int, end: int)
    requires Ordered(rs) && 0 <= k < |rs|
    requires 0 <= start <= end <= LIMIT
    requires start < rs[k].start ==> Free(rs, start, rs[k].start - 1)
    requires rs[k].end < end ==> Free(rs, rs[k].end + 1, end)
    ensures Ordered(SetBoundsAt(rs, k, start, end))
    ensures Resized(rs, SetBoundsAt(rs, k, start, end), rs[k], start, end)
  {
    var rs' := SetBoundsAt(rs, k, start, end);
    forall a
      ensures At(rs', a) == if start <= a <= end then Some(rs[k].flags) else if Has(rs[k], a) then None else At(rs, a)
    {
      ResizeAt(rs, k, start, end, a);
    }
  }

  lemma ResizeAt(rs: seq<Region>, k: int, start: int, end: int, a: int)
    requires Ordered(rs) && 0 <= k < |rs|
    requires Ordered(SetBoundsAt(rs, k, start, end))
    ensures At(SetBoundsAt(rs, k, start, end), a) ==
      if start <= a <= end then Some(rs[k].flags) else if Has(rs[k], a) then None else At(rs, a)
  {
    var rs' := SetBoundsAt(rs, k, start, end);
    if start <= a <= end {
      AtIndex(rs', a, k);
    } else if Has(rs[k], a) {
      assert forall j | 0 <= j < |rs'| :: !Has(rs'[j], a);
      AtNone(rs', a);
    } else if Covered(rs, a) {
      var i := AtWitness(rs, a);
      AtIndex(rs', a, i);
    } else {
      if Covered(rs', a) {
        var i := AtWitness(rs', a);
        AtIndex(rs, a, i);
      }
    }
  }

  /** A removed region is one resized to nothing. */
  lemma DeleteResizes(rs: seq<Region>, k: int, start: int)
    requires Ordered(rs) && 0 <= k < |rs|
    ensures Resized(rs, Delete(rs, k), rs[k], start, start - 1)
  {
    forall a
      ensures At(Delete(rs, k), a) == if Has(rs[k], a) then None else At(rs, a)
    {
      DeleteFrees(rs, k, a);
    }
  }

  lemma UnchangedResizes(rs: seq<Region>, k: int)
    requires Ordered(rs) && 0 <= k < |rs|
    ensures Resized(rs, rs, rs[k], rs[k].start, rs[k].end)
  {
    forall a | Has(rs[k], a)
      ensures At(rs, a) == Some(rs[k].flags)
    {
      AtIndex(rs, a, k);
    }
  }

  /** Where nothing is mapped after [start, end] was cut out of region k. */
  lemma CarveOrdered(rs: seq<Region>, k: int, start: int, end: int)
    requires Ordered(rs) && 0 <= k < |rs|
    requires rs[k].start <= start <= end <= rs[k].end
    ensures Ordered(SetBoundsAt(rs, k, start, end))
    ensures rs[k].start < start ==> Free(SetBoundsAt(rs, k, start, end), rs[k].start, start - 1)
    ensures end < rs[k].end ==> Free(SetBoundsAt(rs, k, start, end), end + 1, rs[k].end)
  {
  }

  /** Mapping in one region leaves other free addresses free. */
  lemma InsertLeavesFree(rs: seq<Region>, r: Region, lo: int, hi: int)
    requires Ordered(rs) && 0 <= r.start <= r.end <= LIMIT && Free(rs, r.start, r.end)
    requires lo <= hi && Free(rs, lo, hi) && (hi < r.start || r.end < lo)
    ensures Free(InsertSorted(rs, r), lo, hi)
  {
    var k := InsertIndexExists(rs, r.start);
    InsertSortedAt(rs, k, r);
  }

  /** A cut-out region and the pieces on either side of it map what the region did. */
  lemma PiecesKeep(rs: seq<Region>, k: int, start: int, end: int, rs': seq<Region>)
    requires Ordered(rs) && 0 <= k < |rs|
    requires rs[k].start <= start <= end <= rs[k].end
    requires forall a :: At(rs', a) == if rs[k].start <= a < start || end < a <= rs[k].end then Some(rs[k].flags)
                                       else At(SetBoundsAt(rs, k, start, end), a)
    ensures SameMap(rs, rs')
  {
    forall a
      ensures At(rs', a) == At(rs, a)
    {
      ShrinkFrees(rs, k, start, end, a);
      if Has(rs[k], a) {
        AtIndex(rs, a, k);
      }
    }
  }

  /** The region list after the front of region k became a region of its own. */
  function FrontOff(rs: seq<Region>, k: int, start: int, end: int): seq<Region>
    requires 0 <= k < |rs|
  {
    InsertSorted(SetBoundsAt(rs, k, start, end), Region(rs[k].start, start - 1, rs[k].flags))
  }

  lemma FrontOffKeeps(rs: seq<Region>, k: int, start: int)
    requires Ordered(rs) && 0 <= k < |rs|
    requires rs[k].start < start <= rs[k].end
    ensures SameMap(rs, FrontOff(rs, k, start, rs[k].end))
  {
    CarveOrdered(rs, k, start, rs[k].end);
    InsertMapsOver(SetBoundsAt(rs, k, start, rs[k].end), Region(rs[k].start, start - 1, rs[k].flags));
    PiecesKeep(rs, k, start, rs[k].end, FrontOff(rs, k, start, rs[k].end));
  }

  /** The region list after region k was cut in three. */
  function ThreeWay(rs: seq<Region>, k: int, start: int, end: int): seq<Region>
    requires 0 <= k < |rs|
  {
    InsertSorted(FrontOff(rs, k, start, end), Region(end + 1, rs[k].end, rs[k].flags))
  }

  lemma ThreeWayFits(rs: seq<Region>, k: int, start: int, end: int)
    requires Ordered(rs) && 0 <= k < |rs|
    requires rs[k].start < start <= end < rs[k].end
    ensures Ordered(FrontOff(rs, k, start, end))
    ensures Free(FrontOff(rs, k, start, end), end + 1, rs[k].end)
  {
    var cut, front := SetBoundsAt(rs, k, start, end), Region(rs[k].start, start - 1, rs[k].flags);
    CarveOrdered(rs, k, start, end);
    InsertOrdered(cut, front);
    InsertLeavesFree(cut, front, end + 1, rs[k].end);
  }

  lemma ThreeWayKeeps(rs: seq<Region>, k: int, start: int, end: int)
    requires Ordered(rs) && 0 <= k < |rs|
    requires rs[k].start < start <= end < rs[k].end
    ensures SameMap(rs, ThreeWay(rs, k, start, end))
  {
    var cut, front := SetBoundsAt(rs, k, start, end), Region(rs[k].start, start - 1, rs[k].flags);
    CarveOrdered(rs, k, start, end);
    ThreeWayFits(rs, k, start, end);
    InsertMapsOver(cut, front);
    InsertMapsOver(FrontOff(rs, k, start, end), Region(end + 1, rs[k].end, rs[k].flags));
    PiecesKeep(rs, k, start, end, ThreeWay(rs, k, start, end));
  }

  lemma SplitSameMap(rs: seq<Region>, k: int, addr: int)
    requires Ordered(rs) && 0 <= k < |rs|
    requires rs[k].start < addr <= rs[k].end
    ensures SameMap(rs, SplitAt(rs, k, addr))
  {
    forall a
      ensures At(SplitAt(rs, k, addr), a) == At(rs, a)
    {
      SplitKeeps(rs, k, addr, a);
    }
  }

  /** Mapping over addresses that one region already covers keeps coverage. */
  lemma CoverageKept(rs: seq<Region>, rs': seq<Region>, k: int, lo: int, hi: int, flags: Flags)
    requires Ordered(rs) && 0 <= k < |rs| && rs[k].start <= lo && hi <= rs[k].end
    requires MappedOver(rs, rs', lo, hi, flags)
    ensures forall a :: Covered(rs', a) <==> Covered(rs, a)
  {
    forall a | lo <= a <= hi
      ensures Covered(rs, a)
    {
      AtIndex(rs, a, k);
    }
  }

  lemma MappedOverSame(rs: seq<Region>, rs': seq<Region>, rs'': seq<Region>, lo: int, hi: int, flags: Flags)
    requires SameMap(rs, rs') && MappedOver(rs', rs'', lo, hi, flags)
    ensures MappedOver(rs, rs'', lo, hi, flags)
  {
  }
}
