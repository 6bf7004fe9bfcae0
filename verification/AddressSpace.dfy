/** The region list of src/kernel/mm/mmap.c: doubly linked nodes relinked and trimmed in place. */
module AddressSpace {

  import opened Kernel
  import opened RegionMap
  import opened Seals

  /** vmr_t, without reference counts, backing files and page-table flags. */
  class Vmr {
    var start: int
    var end: int
    var flags: Flags
    var next: Vmr?
    var prev: Vmr?

    ghost function View(): Region
      reads `start, `end, `flags
    {
      Region(start, end, flags)
    }

    constructor (start: int, end: int, flags: Flags)
      ensures View() == Region(start, end, flags) && next == null && prev == null
    {
      this.start, this.end, this.flags := start, end, flags;
      next, prev := null, null;
    }
  }

  /** __vmr_size in 64-bit arithmetic. */
  function Size(start: int, end: int): int {
    (end - start + 1) % WRAP
  }

  /** The nodes hold these regions, in order. */
  ghost predicate Mirrors(rs: seq<Region>, ns: seq<Vmr>)
    reads ns`start, ns`end, ns`flags
  {
    |rs| == |ns| && forall i | 0 <= i < |ns| :: rs[i] == ns[i].View()
  }

  class Mmap {
    var head: Vmr?
    var tail: Vmr?
    ghost var nodes: seq<Vmr>
    ghost var regions: seq<Region>

    ghost function Repr(): set<Vmr>
      reads `nodes
    {
      set n | n in nodes
    }

    /** The node at position i, or NULL off either end. */
    ghost function NodeAt(i: int): Vmr?
      reads this
    {
      if 0 <= i < |nodes| then nodes[i] else null
    }

    /** head, tail, next and prev describe the sequence of nodes. */
    ghost predicate Links()
      reads `head, `tail, `nodes, nodes`next, nodes`prev
    {
      && (forall i, j | 0 <= i < j < |nodes| :: nodes[i] != nodes[j])
      && (nodes == [] ==> head == null && tail == null)
      && (nodes != [] ==> head == nodes[0] && tail == nodes[|nodes| - 1] && head.prev == null && tail.next == null)
      && (forall i, j | 0 <= i < j < |nodes| && j == i + 1 :: nodes[i].next == nodes[j] && nodes[j].prev == nodes[i])
    }

    /** The same, a few recursive steps away, so that only proofs that ask for the links look at them. */
    ghost predicate Chain(seal: Seal := SEALED)
      reads `head, `tail, `nodes, nodes`next, nodes`prev
      decreases seal
    {
      match seal
      case Open => Links()
      case Shut(inner) => Chain(inner)
    }

    lemma ChainIsLinks()
      ensures Chain() <==> Links()
    {
      assert Chain(Shut(Shut(Open))) == Chain(Shut(Open)) == Chain(Open);
    }

    lemma Ends()
      requires Chain()
      ensures head == NodeAt(0) && tail == NodeAt(|nodes| - 1)
    {
      ChainIsLinks();
    }

    lemma Neighbours(k: int)
      requires Chain() && 0 <= k < |nodes|
      ensures nodes[k].next == NodeAt(k + 1) && nodes[k].prev == NodeAt(k - 1)
    {
      ChainIsLinks();
      assert k + 1 < |nodes| ==> nodes[k].next == nodes[k + 1];
      assert 0 < k ==> nodes[k].prev == nodes[k - 1];
    }

    /** The nodes are linked, and regions is what they hold. */
    ghost predicate Linked()
      reads this, nodes
    {
      Chain() && Mirrors(regions, nodes)
    }

    ghost predicate Valid()
      reads this, nodes
    {
      Linked() && Ordered(regions)
    }

    constructor ()
      ensures Valid() && regions == []
    {
      head, tail, nodes, regions := null, null, [], [];
      new;
      ChainIsLinks();
    }

    method Contains(r: Vmr) returns (found: bool)
      requires Chain()
      ensures found <==> r in nodes
    {
      ChainIsLinks();
      var t := head;
      ghost var i := 0;
      while t != null
        invariant 0 <= i <= |nodes| && t == NodeAt(i)
        invariant r !in nodes[..i]
        decreases |nodes| - i
      {
        if t == r {
          return true;
        }
        t := t.next;
        i := i + 1;
      }
      return false;
    }

    /** mmap_find: the first region that holds addr. */
    method Find(addr: int) returns (r: Vmr?, ghost i: int)
      requires Linked()
      ensures r == null ==> !Covered(regions, addr) && forall j | 0 <= j < |nodes| :: !Has(regions[j], addr)
      ensures r != null ==> 0 <= i < |nodes| && r == nodes[i] && Has(regions[i], addr)
    {
      ChainIsLinks();
      r, i := head, 0;
      while r != null
        invariant 0 <= i <= |nodes| && r == NodeAt(i)
        invariant forall j | 0 <= j < i :: !Has(regions[j], addr)
        decreases |nodes| - i
      {
        if addr >= r.start && addr <= r.end {
          return;
        }
        r := r.next;
        i := i + 1;
      }
      AtNone(regions, addr);
    }

    /** mmap_find_vmr_next: the region that holds addr, and the first one that starts after it. */
    method FindNext(addr: int) returns (r: Vmr?, next: Vmr?, ghost k: int)
      requires Valid()
      ensures r == null <==> !Covered(regions, addr)
      ensures r != null ==> r in nodes && Has(r.View(), addr)
      ensures 0 <= k <= |nodes| && next == NodeAt(k)
      ensures InsertIndex(regions, addr, k)
    {
      ChainIsLinks();
      next := null;
      ghost var i;
      r, i := Find(addr);
      if r != null {
        next, k := r.next, i + 1;
        AtIndex(regions, addr, i);
        return;
      }
      next, k := head, 0;
      while next != null && !(addr < next.start)
        invariant 0 <= k <= |nodes| && next == NodeAt(k)
        invariant forall j | 0 <= j < k :: regions[j].start <= addr
        decreases |nodes| - k
      {
        next := next.next;
        k := k + 1;
      }
    }

    /** mmap_find_vmr_prev: the region that holds addr, and the last one that ends before it. */
    method FindPrev(addr: int) returns (r: Vmr?, prev: Vmr?, ghost k: int)
      requires Valid()
      ensures r == null <==> !Covered(regions, addr)
      ensures r != null ==> r in nodes && Has(r.View(), addr)
      ensures 0 <= k <= |nodes| && prev == NodeAt(k - 1)
      ensures forall j | 0 <= j < |nodes| :: j < k <==> regions[j].end < addr
    {
      ChainIsLinks();
      prev := null;
      ghost var i;
      r, i := Find(addr);
      if r != null {
        prev, k := r.prev, i;
        AtIndex(regions, addr, i);
        return;
      }
      prev, k := tail, |nodes|;
      while prev != null && !(prev.end < addr)
        invariant 0 <= k <= |nodes| && prev == NodeAt(k - 1)
        invariant forall j | k <= j < |nodes| :: addr <= regions[j].end
        decreases k
      {
        prev := prev.prev;
        k := k - 1;
      }
    }

    /** mmap_getholesize: how far the free stretch that starts at addr reaches. */
    method GetHoleSize(addr: int) returns (err: Errno, len: int, ghost k: int)
      requires Valid()
      requires 0 <= addr < WRAP
      ensures err == Ok <==> addr <= LIMIT && !Covered(regions, addr)
      ensures err != Ok ==> err == EINVAL && len == 0
      ensures err == Ok ==> InsertIndex(regions, addr, k) && addr + len == HoleEnd(regions, k)
      ensures err == Ok ==> len >= 1 && Free(regions, addr, addr + len - 1)
    {
      len, k := 0, 0;
      if addr > LIMIT {
        return EINVAL, 0, 0;
      }
      var r, i := Find(addr);
      if r != null {
        AtIndex(regions, addr, i);
        return EINVAL, 0, 0;
      }
      var next;
      r, next, k := FindNext(addr);
      err := Ok;
      HoleIsFree(regions, addr, k);
      if next == null {
        len := LIMIT + 1 - addr;
      } else {
        len := next.start - addr;
      }
    }

    // ----- linking and unlinking

    /** Inserts r before node, which is at position k. */
    method LinkBefore(node: Vmr, r: Vmr, ghost k: int)
      requires Chain() && r !in nodes && 0 <= k < |nodes| && node == nodes[k]
      modifies `head, `tail, `nodes, Repr()`next, Repr()`prev, r`next, r`prev
      ensures Chain() && nodes == old(nodes)[..k] + [r] + old(nodes)[k..]
    {
      ChainIsLinks();
      ghost var ns := nodes;
      assert 0 < k ==> ns[k - 1].next == ns[k] && ns[k].prev == ns[k - 1];
      r.next := node;
      r.prev := node.prev;
      if node.prev != null {
        node.prev.next := r;
      } else {
        head := r;
      }
      node.prev := r;
      nodes := nodes[..k] + [r] + nodes[k..];
      forall i, j | 0 <= i < j < |nodes| && j == i + 1
        ensures nodes[i].next == nodes[j] && nodes[j].prev == nodes[i]
      {
        assert j < k ==> ns[i].next == ns[j] && ns[j].prev == ns[i];
        assert k < i ==> ns[i - 1].next == ns[j - 1] && ns[j - 1].prev == ns[i - 1];
      }
      ChainIsLinks();
    }

    /** Appends r. */
    method LinkTail(r: Vmr)
      requires Chain() && r !in nodes
      modifies `head, `tail, `nodes, Repr()`next, Repr()`prev, r`next, r`prev
      ensures Chain() && nodes == old(nodes) + [r]
    {
      ChainIsLinks();
      r.next := null;
      r.prev := tail;
      if tail != null {
        tail.next := r;
      } else {
        head := r;
      }
      tail := r;
      nodes := nodes + [r];
      ChainIsLinks();
    }

    /** Inserts r before node, or at the end when node is NULL. */
    method LinkAt(node: Vmr?, r: Vmr, ghost k: int)
      requires Chain() && r !in nodes && 0 <= k <= |nodes| && node == NodeAt(k)
      modifies `head, `tail, `nodes, Repr()`next, Repr()`prev, r`next, r`prev
      ensures Chain() && nodes == old(nodes)[..k] + [r] + old(nodes)[k..]
    {
      if node != null {
        LinkBefore(node, r, k);
      } else {
        LinkTail(r);
      }
    }

    /** Takes out r, which is at position k. */
    method Unlink(r: Vmr, ghost k: int)
      requires Chain() && 0 <= k < |nodes| && r == nodes[k]
      modifies `head, `tail, `nodes, Repr()`next, Repr()`prev
      ensures Chain() && nodes == old(nodes)[..k] + old(nodes)[k + 1..]
    {
      ChainIsLinks();
      ghost var ns := nodes;
      assert 0 < k ==> ns[k - 1].next == ns[k] && ns[k].prev == ns[k - 1];
      assert k + 1 < |ns| ==> ns[k].next == ns[k + 1] && ns[k + 1].prev == ns[k];
      if r.prev != null {
        r.prev.next := r.next;
      }
      if r.next != null {
        r.next.prev := r.prev;
      }
      if head == r {
        head := r.next;
        if head != null {
          head.prev := null;
        }
      }
      if tail == r {
        tail := r.prev;
        if tail != null {
          tail.next := null;
        }
      }
      nodes := nodes[..k] + nodes[k + 1..];
      forall i, j | 0 <= i < j < |nodes| && j == i + 1
        ensures nodes[i].next == nodes[j] && nodes[j].prev == nodes[i]
      {
        assert j < k ==> ns[i].next == ns[j] && ns[j].prev == ns[i];
        assert k <= i ==> ns[i + 1].next == ns[j + 1] && ns[j + 1].prev == ns[i + 1];
      }
      assert Links();
      ChainIsLinks();
    }

    // ----- mmap_mapin, mmap_remove, vmr_split

    /** The overlap check of mmap_mapin: hops from hole to hole over [start, end]. */
    method CheckFree(start: int, end: int) returns (err: Errno)
      requires Valid() && 0 <= start < WRAP && end <= LIMIT
      ensures err == if Overlaps(regions, start, end) then EEXIST else Ok
    {
      var addr := start;
      while addr <= end
        invariant start <= addr && (start < addr ==> Free(regions, start, addr - 1))
        decreases LIMIT + 1 - addr
      {
        var r, i := Find(addr);
        if r != null {
          return EEXIST;
        }
        var hole;
        ghost var k;
        err, hole, k := GetHoleSize(addr);
        FreeJoin(regions, start, addr, addr + hole - 1);
        addr := addr + hole;
      }
      return Ok;
    }

    /** The checks of mmap_mapin. A region whose end wrapped below its start passes the overlap check unseen. */
    method CheckMapIn(r: Vmr) returns (err: Errno)
      requires Valid()
      requires 0 <= r.start < WRAP && 0 <= r.end < WRAP
      ensures err == MapInResult(regions, r.start, r.end, r in nodes)
    {
      var present := Contains(r);
      if present {
        return EEXIST;
      }
      if Size(r.start, r.end) == 0 || r.end > LIMIT {
        return EINVAL;
      }
      err := CheckFree(r.start, r.end);
    }

    /** mmap_mapin. */
    method MapIn(r: Vmr) returns (err: Errno)
      requires Valid()
      requires 0 <= r.start < WRAP && 0 <= r.end < WRAP
      modifies this, Repr()`next, Repr()`prev, r`next, r`prev
      ensures err == MapInResult(old(regions), r.start, r.end, r in old(nodes))
      ensures err != Ok ==> Valid() && nodes == old(nodes) && regions == old(regions)
      ensures err == Ok ==> Linked() && regions == InsertSorted(old(regions), r.View())
      ensures err == Ok && r.start <= r.end ==> Valid()
      ensures Repr() == if err == Ok then old(Repr()) + {r} else old(Repr())
    {
      err := CheckMapIn(r);
      if err == Ok {
        if r.start <= r.end {
          InsertOrdered(regions, r.View());
        }
        LinkSorted(r);
      }
    }

    /** The first node that starts after start, or NULL. */
    method InsertPoint(start: int) returns (node: Vmr?, ghost k: int)
      requires Linked()
      ensures InsertIndex(regions, start, k) && node == NodeAt(k)
    {
      ChainIsLinks();
      node, k := head, 0;
      while node != null && !(start < node.start)
        invariant 0 <= k <= |nodes| && node == NodeAt(k)
        invariant forall j | 0 <= j < k :: regions[j].start <= start
        decreases |nodes| - k
      {
        node := node.next;
        k := k + 1;
      }
    }

    /** Inserts r at position k, before node. */
    method LinkIn(node: Vmr?, r: Vmr, ghost k: int)
      requires Linked() && r !in nodes && 0 <= k <= |nodes| && node == NodeAt(k)
      modifies this, Repr()`next, Repr()`prev, r`next, r`prev
      ensures Linked() && regions == Insert(old(regions), k, r.View())
      ensures Repr() == old(Repr()) + {r}
    {
      ghost var rs, ns := regions, nodes;
      LinkAt(node, r, k);
      regions := Insert(rs, k, r.View());
      forall i | 0 <= i < |nodes|
        ensures regions[i] == nodes[i].View()
      {
        assert i < k ==> nodes[i] == ns[i] && regions[i] == rs[i];
        assert k < i ==> nodes[i] == ns[i - 1] && regions[i] == rs[i - 1];
      }
    }

    /** Inserts r before the first node that starts after it, or at the end. */
    method LinkSorted(r: Vmr)
      requires Linked() && r !in nodes
      modifies this, Repr()`next, Repr()`prev, r`next, r`prev
      ensures Linked() && regions == InsertSorted(old(regions), r.View())
      ensures Repr() == old(Repr()) + {r}
    {
      var node, k := InsertPoint(r.start);
      InsertSortedAt(regions, k, r.View());
      LinkIn(node, r, k);
    }

    /** Unlinks r, which is at position k, and forgets its region. */
    method Drop(r: Vmr, ghost k: int)
      requires Linked() && 0 <= k < |nodes| && r == nodes[k]
      modifies this, Repr()`next, Repr()`prev
      ensures Linked() && nodes == old(nodes)[..k] + old(nodes)[k + 1..]
      ensures regions == Delete(old(regions), k)
    {
      regions := Delete(regions, k);
      Unlink(r, k);
    }

    /** mmap_remove. */
    method Remove(r: Vmr) returns (err: Errno, ghost k: int)
      requires Valid()
      modifies this, Repr()`next, Repr()`prev
      ensures err == if r in old(nodes) then Ok else ENOENT
      ensures err != Ok ==> nodes == old(nodes) && regions == old(regions)
      ensures err == Ok ==> 0 <= k < |old(nodes)| && r == old(nodes)[k] && regions == Delete(old(regions), k)
      ensures err == Ok ==> forall i | 0 <= i < |old(nodes)| && old(nodes)[i] == r :: i == k
      ensures Repr() <= old(Repr())
      ensures Valid()
    {
      ChainIsLinks();
      k := 0;
      err := ENOENT;
      var present := Contains(r);
      if present {
        k :| 0 <= k < |nodes| && r == nodes[k];
        DeleteOrdered(regions, k);
        Drop(r, k);
        err := Ok;
      }
    }

    /** Moves the bounds of r, which is at position k. */
    method SetBounds(r: Vmr, start: int, end: int, ghost k: int)
      requires Linked() && 0 <= k < |nodes| && r == nodes[k]
      modifies `regions, r`start, r`end
      ensures Linked() && regions == SetBoundsAt(old(regions), k, start, end)
    {
      ChainIsLinks();
      r.start, r.end := start, end;
      regions := SetBoundsAt(regions, k, start, end);
    }

    /** The same where the new bounds keep the regions in order. */
    method Trim(r: Vmr, start: int, end: int, ghost k: int)
      requires Valid() && 0 <= k < |nodes| && r == nodes[k] && Ordered(SetBoundsAt(regions, k, start, end))
      modifies `regions, r`start, r`end
      ensures Valid() && regions == SetBoundsAt(old(regions), k, start, end) && r.start == start && r.end == end
    {
      SetBounds(r, start, end, k);
      assert regions[k] == nodes[k].View();
    }

    /** mmap_mapin of a region whose place is known to be free. */
    method MapInPiece(piece: Vmr) returns (err: Errno)
      requires Valid() && piece !in nodes
      requires 0 <= piece.start <= piece.end <= LIMIT && Free(regions, piece.start, piece.end)
      modifies this, Repr()`next, Repr()`prev, piece`next, piece`prev
      ensures err == Ok && Valid()
      ensures regions == InsertSorted(old(regions), piece.View()) && Repr() == old(Repr()) + {piece}
    {
      err := MapIn(piece);
    }

    /** Moves the bounds of r, which is at position k, to [start, end] and maps in piece beside it. */
    method Place(r: Vmr, piece: Vmr, start: int, end: int, ghost k: int) returns (err: Errno)
      requires Valid() && 0 <= k < |nodes| && r == nodes[k] && piece !in nodes
      requires Ordered(SetBoundsAt(regions, k, start, end)) && 0 <= piece.start <= piece.end <= LIMIT
      requires Free(SetBoundsAt(regions, k, start, end), piece.start, piece.end)
      modifies this, Repr()`next, Repr()`prev, r`start, r`end, piece`next, piece`prev
      ensures err == Ok && Valid() && regions == InsertSorted(SetBoundsAt(old(regions), k, start, end), piece.View())
      ensures Repr() == old(Repr()) + {piece} && r.start == start && r.end == end
    {
      Trim(r, start, end, k);
      err := MapInPiece(piece);
    }

    /** Trims r, which is at position k, to end before addr and links rest in after it. */
    method CutOff(r: Vmr, rest: Vmr, addr: int, ghost k: int) returns (err: Errno)
      requires Valid() && 0 <= k < |nodes| && r == nodes[k] && rest !in nodes
      requires r.start < addr <= r.end && rest.View() == Region(addr, r.end, r.flags)
      modifies this, Repr()`next, Repr()`prev, r`start, r`end, rest`next, rest`prev
      ensures err == Ok && Valid() && regions == SplitAt(old(regions), k, addr)
      ensures Repr() == old(Repr()) + {rest} && r.start == old(r.start) && r.end == addr - 1
    {
      assert regions[k] == r.View();
      err := Place(r, rest, r.start, addr - 1, k);
    }

    /** vmr_split: r keeps [start, addr) and a new region takes the rest. canAlloc says whether vmr_alloc succeeds. */
    method Split(r: Vmr, addr: int, canAlloc: bool, ghost k: int) returns (err: Errno)
      requires Valid() && 0 <= k < |nodes| && r == nodes[k]
      modifies this, Repr()
      ensures err == if !(old(r.start) < addr < old(r.end)) then EINVAL else if canAlloc then Ok else ENOMEM
      ensures err != Ok ==> nodes == old(nodes) && regions == old(regions)
      ensures err == Ok ==> regions == SplitAt(old(regions), k, addr)
      ensures fresh(Repr() - old(Repr()))
      ensures Valid()
    {
      if !(r.start < addr && addr < r.end) {
        return EINVAL;
      }
      if !canAlloc {
        return ENOMEM;
      }
      var rest := new Vmr(addr, r.end, r.flags);
      err := CutOff(r, rest, addr, k);
    }

    // ----- mmap_unmap

    /** mmap_find_exact. */
    method FindExact(start: int, end: int) returns (r: Vmr?, ghost k: int)
      requires Valid()
      ensures r != null ==> 0 <= k < |nodes| && r == nodes[k] && r.start == start && r.end == end
      ensures r == null ==> forall i | 0 <= i < |nodes| :: !(regions[i].start == start && regions[i].end == end)
    {
      r, k := Find(start);
      if r == null || start != r.start || end != r.end {
        r := null;
      }
    }

    /** A turn on a region that starts where the range does. */
    method UnmapFromStart(r: Vmr, start0: int, len0: int, ghost k: int) returns (start: int, len: int)
      requires Valid() && 0 <= k < |nodes| && r == nodes[k]
      requires r.start == start0 && 0 < len0 < WRAP && r.end != start0 + len0 - 1
      modifies this, Repr()
      ensures Valid() && start0 <= start <= LIMIT + 1 && UnmapTurn(old(regions), regions, start0, len0, start, len)
      ensures Repr() <= old(Repr())
    {
      ghost var rs := regions;
      if Size(r.start, r.end) > len0 {
        TrimFrontTurn(rs, k, start0, len0);
        SetBounds(r, r.start + len0, r.end, k);
        assert regions == SetBoundsAt(rs, k, start0 + len0, rs[k].end);
        start, len := start0 + len0, 0;
      } else {
        start, len := r.end + 1, len0 - Size(r.start, r.end);
        DeleteTurn(rs, k, start0, len0, start);
        var err, i := Remove(r);
        assert i == k;
        assert len == start0 + len0 - start;
      }
    }

    /** A turn on a region that starts below the range: it gives up its last address or is split. err is
        what the split returns, which the loop drops. */
    method UnmapInside(r: Vmr, start: int, canAlloc: bool, ghost len: int, ghost k: int) returns (err: Errno)
      requires Valid() && 0 <= k < |nodes| && r == nodes[k]
      requires r.start < start <= r.end && 0 < len
      modifies this, Repr()
      ensures err == if canAlloc || old(r.end) == start then Ok else ENOMEM
      ensures err == Ok ==> UnmapTurn(old(regions), regions, start, len, start, len)
      ensures err != Ok ==> regions == old(regions)
      ensures Valid() && fresh(Repr() - old(Repr()))
    {
      ghost var rs := regions;
      if r.end == start {
        TrimBackTurn(rs, k, start, len);
        SetBounds(r, r.start, r.end - 1, k);
        assert regions == SetBoundsAt(rs, k, rs[k].start, start - 1);
        err := Ok;
      } else {
        SplitTurn(rs, k, start, len);
        err := Split(r, start, canAlloc, k);
      }
    }

    /** A turn on a region that holds start. */
    method UnmapHeld(r: Vmr, start0: int, len0: int, canAlloc: bool, ghost k: int)
      returns (start: int, len: int, err: Errno)
      requires Valid() && 0 <= k < |nodes| && r == nodes[k] && Has(regions[k], start0)
      requires 0 <= start0 && 0 < len0 < WRAP && !(r.start == start0 && r.end == start0 + len0 - 1)
      modifies this, Repr()
      ensures 0 <= start <= LIMIT + 1
      ensures err == Ok <==> canAlloc || !Inner(old(regions), start0)
      ensures err == Ok ==> UnmapTurn(old(regions), regions, start0, len0, start, len)
      ensures err != Ok ==> regions == old(regions) && start == start0 && len == len0
      ensures Valid() && fresh(Repr() - old(Repr()))
    {
      InnerAt(regions, k, start0);
      assert regions[k] == r.View();
      start, len, err := start0, len0, Ok;
      if r.start == start {
        start, len := UnmapFromStart(r, start, len, k);
      } else {
        err := UnmapInside(r, start, canAlloc, len, k);
      }
    }

    /** A turn on a region with the bounds of the range: its last address is left for another turn. */
    method UnmapExact(r: Vmr, start0: int, len0: int, end: int, ghost k: int) returns (start: int, len: int)
      requires Valid() && 0 <= k < |nodes| && r == nodes[k] && r.start == start0 && r.end == end
      requires 0 <= start0 && 0 < len0 < WRAP && end == (start0 + len0 - 1) % WRAP
      modifies this, Repr()
      ensures Valid() && 0 <= start <= LIMIT && UnmapTurn(old(regions), regions, start0, len0, start, len)
      ensures !Inner(old(regions), start0) && Repr() <= old(Repr())
    {
      assert regions[k] == r.View();
      InnerAt(regions, k, start0);
      DeleteTurn(regions, k, start0, len0, end);
      len, start := len0 - (end - start0), start0 + (end - start0);
      var err, i := Remove(r);
      assert i == k;
    }

    /** One turn of mmap_unmap's loop; err is what the split returns, which the loop drops. */
    method UnmapOnce(start0: int, len0: int, canAlloc: bool) returns (start: int, len: int, stop: bool, err: Errno)
      requires Valid() && 0 <= start0 < WRAP && 0 < len0 < WRAP
      modifies this, Repr()
      ensures Turns(Turning(old(regions), start0, len0, false), canAlloc, Turning(regions, start, len, stop))
      ensures err == Ok <==> canAlloc || !Inner(old(regions), start0)
      ensures 0 <= start < WRAP && (err == Ok && !stop ==> start <= LIMIT + 1)
      ensures Valid() && fresh(Repr() - old(Repr()))
    {
      start, len, stop, err := start0, len0, false, Ok;
      var end := (start + len - 1) % WRAP;
      ghost var k;
      var r;
      r, k := FindExact(start, end);
      if r != null {
        start, len := UnmapExact(r, start, len, end, k);
        return;
      }
      r, k := Find(start);
      if r != null {
        start, len, err := UnmapHeld(r, start, len, canAlloc, k);
        return;
      }
      var none, hole;
      none, hole, k := GetHoleSize(start);
      if hole == 0 {
        stop := true;
        return;
      }
      hole := if hole > len then len else hole;
      HoleTurn(regions, start, len, hole);
      start, len := start + hole, len - hole;
    }

    /** The same turn in a loop over [lo, hi) that began with the regions rs. */
    method UnmapNext(start0: int, len0: int, canAlloc: bool, ghost rs: seq<Region>, ghost lo: int, ghost hi: int)
      returns (start: int, len: int, stop: bool, err: Errno)
      requires Valid() && 0 <= lo <= start0 < WRAP && 0 < len0 < WRAP && start0 + len0 == hi
      requires UnmapSoFar(rs, regions, lo, start0, hi)
      modifies this, Repr()
      ensures err == Ok <==> canAlloc || !Inner(old(regions), start0)
      ensures err != Ok ==> regions == old(regions) == rs && start == start0 == lo && len == len0 && !stop
      ensures err == Ok && stop ==> Cleared(rs, regions, lo, hi)
      ensures err == Ok && !stop ==> lo <= start < WRAP && 0 <= len <= len0 && start + len == hi
      ensures err == Ok && !stop ==> UnmapSoFar(rs, regions, lo, start, hi)
      ensures err == Ok && !stop ==>
        len < len0 || (len == len0 && StepsToFree(regions, start) < StepsToFree(old(regions), start0))
      ensures Valid() && fresh(Repr() - old(Repr()))
    {
      start, len, stop, err := UnmapOnce(start0, len0, canAlloc);
      if err != Ok {
        UnmapSticks(rs, regions, lo, start, hi);
      } else if stop {
        RangeCleared(rs, regions, lo, start, hi);
      } else {
        UnmapGoesOn(rs, old(regions), regions, lo, start0, len0, start, len, hi);
      }
    }

    /** The loop of mmap_unmap. tries says how many calls of vmr_alloc fail before one succeeds, or that none ever does.
        Only the turns at the start can have to split a region. If none of them ever can, the loop makes that turn for
        ever (UnmapNeverEnds) and the result is false; otherwise it ends and exactly the range is free. */
    method UnmapLoop(start0: int, len0: int, tries: Option<nat>) returns (ended: bool)
      requires Valid() && 0 <= start0 < WRAP && 0 < len0 < WRAP
      modifies this, Repr()
      ensures ended <==> tries.Some? || !Inner(old(regions), start0)
      ensures !ended ==> regions == old(regions)
      ensures ended ==> Cleared(old(regions), regions, start0, start0 + len0)
      ensures Valid() && fresh(Repr() - old(Repr()))
    {
      var start, len, left := start0, len0, tries;
      ghost var hi := start0 + len0;
      UnmapStarts(regions, start0, hi);
      while len != 0
        invariant Valid() && fresh(Repr() - old(Repr()))
        invariant start0 <= start < WRAP && 0 <= len < WRAP && start + len == hi && left.Some? == tries.Some?
        invariant UnmapSoFar(old(regions), regions, start0, start, hi)
        invariant tries == None ==> (start == start0 && regions == old(regions)) || !Inner(old(regions), start0)
        decreases len, StepsToFree(regions, start), if left.Some? then left.value else 0
      {
        var stop, split;
        start, len, stop, split := UnmapNext(start, len, left == Some(0), old(regions), start0, hi);
        if split != Ok {
          if left == None {
            return false;
          }
          left := Some(left.value - 1);
        }
        if stop {
          return true;
        }
      }
      RangeCleared(old(regions), regions, start0, start, hi);
      ended := true;
    }

    /** mmap_unmap, with the result None where it does not return. The check on the end of the range is made on the
        wrapped sum. */
    method Unmap(start: int, len: int, tries: Option<nat>) returns (err: Option<Errno>)
      requires Valid() && 0 <= start < WRAP && 0 <= len < WRAP
      modifies this, Repr()
      ensures err == UnmapResult(old(regions), start, len, tries)
      ensures err != Some(Ok) ==> regions == old(regions)
      ensures err == Some(Ok) ==> Cleared(old(regions), regions, start, start + len)
      ensures Valid() && fresh(Repr() - old(Repr()))
    {
      if len == 0 {
        return Some(EINVAL);
      }
      if (start + len - 1) % WRAP > LIMIT {
        return Some(EINVAL);
      }
      var ended := UnmapLoop(start, len, tries);
      err := if ended then Some(Ok) else None;
    }

    // ----- mmap_find_hole, mmap_find_holeat

    /** The hole after node t, which is at position k. */
    method HoleAfter(t: Vmr, ghost k: int) returns (hole: int)
      requires Valid() && 0 <= k < |nodes| && t == nodes[k]
      ensures hole == GapSize(regions, k + 1)
    {
      Neighbours(k);
      if t.next != null {
        hole := t.next.start - (t.end + 1);
      } else {
        ghost var i;
        var err;
        err, hole, i := GetHoleSize(t.end + 1);
        HoleAfterLast(regions, t.end + 1);
      }
    }

    /** The upward loop: the first hole above node t, which is at position k, that is large enough. */
    method ScanUp(t0: Vmr?, size: int, ghost k: int) returns (addr: Option<int>, ghost i: int)
      requires Valid() && 0 <= k <= |nodes| && t0 == NodeAt(k) && 1 <= size
      ensures addr.Some? ==> k < i <= |nodes| && size <= GapSize(regions, i) && addr.value == GapStart(regions, i)
      ensures addr.Some? ==> forall j | k < j < i :: GapSize(regions, j) < size
      ensures addr.None? ==> forall j | k < j <= |nodes| :: GapSize(regions, j) < size
    {
      var t := t0;
      i := k;
      while t != null
        invariant k <= i <= |nodes| && t == NodeAt(i)
        invariant forall j | k < j <= i :: GapSize(regions, j) < size
        decreases |nodes| - i
      {
        var hole := HoleAfter(t, i);
        if hole >= size {
          return Some(t.end + 1), i + 1;
        }
        Neighbours(i);
        t := t.next;
        i := i + 1;
      }
      addr := None;
    }

    /** The hole below node t, which is at position k. Only mmap_find_hole looks at the hole below the first region,
        and takes it for empty when that region starts at 1. */
    method HoleBefore(t: Vmr, front: bool, ghost k: int) returns (hole: int)
      requires Valid() && 0 <= k < |nodes| && t == nodes[k]
      ensures hole == if 0 < k || (front && regions[0].start != 1) then GapSize(regions, k) else 0
    {
      Neighbours(k);
      if t.prev != null {
        hole := t.start - (t.prev.end + 1);
      } else if front && (t.start - 1) % WRAP > 0 {
        hole := t.start;
      } else {
        hole := 0;
      }
    }

    /** The downward loop: the last hole below node t, which is at position k - 1, that is large enough. */
    method ScanDown(t0: Vmr?, size: int, front: bool, ghost k: int) returns (addr: Option<int>, ghost i: int)
      requires Valid() && 0 <= k <= |nodes| && t0 == NodeAt(k - 1) && 1 <= size
      ensures addr.Some? ==> 0 <= i < k && size <= GapSize(regions, i) && addr.value == HoleEnd(regions, i) - size
      ensures addr.Some? && i == 0 ==> front && regions[0].start != 1
      ensures addr.Some? ==> forall j | i < j < k :: GapSize(regions, j) < size
      ensures addr.None? ==> forall j | 0 < j < k :: GapSize(regions, j) < size
      ensures addr.None? && front && 0 < k ==> GapSize(regions, 0) < size || regions[0].start == 1
    {
      var t := t0;
      i := k - 1;
      while t != null
        invariant -1 <= i < k && t == NodeAt(i)
        invariant forall j | i < j < k && 0 < j :: GapSize(regions, j) < size
        invariant i < 0 && front && 0 < k ==> GapSize(regions, 0) < size || regions[0].start == 1
        decreases i
      {
        var hole := HoleBefore(t, front, i);
        if hole >= size {
          return Some(t.start - size), i;
        }
        Neighbours(i);
        t := t.prev;
        i := i - 1;
      }
      addr := None;
    }

    /** mmap_find_hole from the start gives the lowest place that fits. */
    method FindHoleUp(size: int) returns (err: Errno, addr: int)
      requires Valid() && 0 <= size < WRAP
      ensures size == 0 ==> err == EINVAL
      ensures err == Ok ==> Fits(regions, addr, size) && forall b | b < addr :: !Fits(regions, b, size)
      ensures 0 < size && err != Ok ==> err == ENOMEM && forall b :: !Fits(regions, b, size)
    {
      if size == 0 {
        return EINVAL, 0;
      }
      var e, hole, k := GetHoleSize(0);
      FirstHole(regions, hole, e == Ok, k);
      if hole >= size {
        FirstGapLowest(regions, 0, size);
        return Ok, 0;
      }
      Ends();
      var found, i := ScanUp(head, size, 0);
      if found.Some? {
        FirstGapLowest(regions, i, size);
        return Ok, found.value;
      }
      NoGapNoFit(regions, size);
      return ENOMEM, 0;
    }

    /** The first test of the search from the end: size addresses right below the limit. */
    method TopHole(size: int) returns (hole: int, top: int)
      requires Valid() && 1 <= size < WRAP
      ensures size <= hole <==> size <= GapSize(regions, |regions|)
      ensures size <= hole ==> top == LIMIT + 1 - size
    {
      top := (LIMIT + 1 - size) % WRAP;
      var e;
      ghost var k;
      e, hole, k := GetHoleSize(top);
      LastHole(regions, top, size, hole, e == Ok, k);
    }

    /** mmap_find_hole from the end gives the highest place that fits, and overlooks at most one. */
    method FindHoleDown(size: int) returns (err: Errno, addr: int)
      requires Valid() && 0 <= size < WRAP
      ensures size == 0 ==> err == EINVAL
      ensures err == Ok ==> Fits(regions, addr, size) && !Overlooked(regions, addr, size)
      ensures err == Ok ==> forall b | addr < b :: !Fits(regions, b, size)
      ensures 0 < size && err != Ok ==> err == ENOMEM && forall b | Fits(regions, b, size) :: Overlooked(regions, b, size)
    {
      if size == 0 {
        return EINVAL, 0;
      }
      var hole, top := TopHole(size);
      if hole >= size {
        DownFound(regions, |regions|, size, top);
        return Ok, top;
      }
      Ends();
      var found, i := ScanDown(tail, size, true, |regions|);
      if found.Some? {
        DownFound(regions, i, size, found.value);
        return Ok, found.value;
      }
      OnlyOverlooked(regions, size);
      return ENOMEM, 0;
    }

    /** Where mmap_find_holeat starts to look upward: the region after the hint, or the first one. */
    method NearUp(hint: int) returns (near: Vmr?, ghost k: int)
      requires Valid()
      ensures 0 <= k <= |nodes| && near == NodeAt(k) && (hint == 0 ==> k == 0)
    {
      var r;
      near, k := null, 0;
      if hint != 0 {
        r, near, k := FindNext(hint);
      }
      if near == null {
        Ends();
        near, k := head, 0;
      }
    }

    /** The hole below near and the holes above it. */
    method SearchUpFrom(near: Vmr?, size: int, ghost k: int) returns (addr: Option<int>)
      requires Valid() && 0 <= k <= |nodes| && near == NodeAt(k) && 1 <= size
      ensures addr.Some? ==> Fits(regions, addr.value, size)
      ensures addr.Some? && k == 0 && GapSize(regions, 0) < size ==> forall b | b < addr.value :: !Fits(regions, b, size)
    {
      if near != null {
        Neighbours(k);
        if near.prev != null {
          var hole := HoleBefore(near, false, k);
          if hole >= size {
            GapFits(regions, k, GapStart(regions, k), size);
            return Some(near.prev.end + 1);
          }
        }
      }
      ghost var i;
      addr, i := ScanUp(near, size, k);
      if addr.Some? {
        GapFits(regions, i, addr.value, size);
        if k == 0 && GapSize(regions, 0) < size {
          FirstGapLowest(regions, i, size);
        }
      }
    }

    /** mmap_find_holeat from the start: the hint itself if it fits, else some place that fits if there is one, and
        without a hint the lowest. */
    method FindHoleAtUp(hint: int, size: int) returns (err: Errno, addr: int)
      requires Valid() && 0 <= hint < WRAP && 0 <= size < WRAP
      ensures size == 0 ==> err == EINVAL
      ensures err == Ok ==> Fits(regions, addr, size)
      ensures err == Ok && Fits(regions, hint, size) ==> addr == hint
      ensures err == Ok && hint == 0 ==> forall b | b < addr :: !Fits(regions, b, size)
      ensures 0 < size && err != Ok ==> err == ENOMEM && forall b :: !Fits(regions, b, size)
    {
      if size == 0 {
        return EINVAL, 0;
      }
      var near, k := NearUp(hint);
      var e, hole, i := GetHoleSize(hint);
      HintFits(regions, hint, size, hole, e == Ok, i);
      if hole >= size {
        return Ok, hint;
      }
      if hint == 0 {
        FirstHole(regions, hole, e == Ok, i);
      }
      var found := SearchUpFrom(near, size, k);
      if found.Some? {
        return Ok, found.value;
      }
      err, addr := FindHoleUp(size);
    }

    /** Where mmap_find_holeat starts to look downward: the region before the hint, or the last one. */
    method NearDown(hint: int) returns (near: Vmr?, ghost k: int)
      requires Valid()
      ensures 0 <= k <= |nodes| && near == NodeAt(k - 1) && (hint == 0 ==> k == |nodes|)
      ensures near == null ==> nodes == []
    {
      var r;
      near, k := null, 0;
      if hint != 0 {
        r, near, k := FindPrev(hint);
      }
      if near == null {
        Ends();
        near, k := tail, |nodes|;
      }
    }

    /** The hole above near, or the top of an empty address space, and the holes below near. */
    method SearchDownFrom(near: Vmr?, size: int, ghost k: int) returns (addr: Option<int>)
      requires Valid() && 0 <= k <= |nodes| && near == NodeAt(k - 1) && 1 <= size < WRAP
      requires near == null ==> nodes == []
      ensures addr.Some? ==> Fits(regions, addr.value, size)
      ensures addr.Some? && k == |nodes| ==> forall b | addr.value < b :: !Fits(regions, b, size)
    {
      var hole;
      if near != null {
        hole := HoleAfter(near, k - 1);
        if hole >= size {
          GapFits(regions, k, HoleEnd(regions, k) - size, size);
          if k == |nodes| {
            LastGapHighest(regions, k, size);
          }
          return Some(near.end + 1 + hole - size);
        }
      } else {
        var top;
        hole, top := TopHole(size);
        if hole >= size {
          LastGapHighest(regions, |regions|, size);
          return Some(top);
        }
      }
      ghost var i;
      addr, i := ScanDown(near, size, false, k);
      if addr.Some? {
        GapFits(regions, i, addr.value, size);
        if k == |nodes| {
          LastGapHighest(regions, i, size);
        }
      }
    }

    /** mmap_find_holeat from the end: some place that fits if there is one that the search sees, and without a hint the
        highest. */
    method FindHoleAtDown(hint: int, size: int) returns (err: Errno, addr: int)
      requires Valid() && 0 <= hint < WRAP && 0 <= size < WRAP
      ensures size == 0 ==> err == EINVAL
      ensures err == Ok ==> Fits(regions, addr, size)
      ensures err == Ok && hint == 0 ==> forall b | addr < b :: !Fits(regions, b, size)
      ensures 0 < size && err != Ok ==> err == ENOMEM && forall b | Fits(regions, b, size) :: Overlooked(regions, b, size)
    {
      if size == 0 {
        return EINVAL, 0;
      }
      var near, k := NearDown(hint);
      var found := SearchDownFrom(near, size, k);
      if found.Some? {
        return Ok, found.value;
      }
      err, addr := FindHoleDown(size);
    }

    // ----- mmap_map_region

    /** mmap_mapin into the range that mmap_forced_mapin cleared of what rs maps there. */
    method MapInCleared(r: Vmr, ghost rs: seq<Region>) returns (err: Errno)
      requires Valid() && r !in nodes && 0 <= r.start < WRAP && 0 <= r.end <= LIMIT && Size(r.start, r.end) != 0
      requires Cleared(rs, regions, r.start, r.start + Size(r.start, r.end))
      modifies this, Repr()`next, Repr()`prev, r`next, r`prev
      ensures err == Ok
      ensures r.start <= r.end ==> Valid() && MappedOver(rs, regions, r.start, r.end, r.flags)
      ensures r.end < r.start ==> Linked() && !Ordered(regions)
      ensures Repr() == old(Repr()) + {r}
    {
      SizeEnd(r.start, r.end);
      if r.start <= r.end {
        ClearedIsFree(rs, regions, r.start, r.end + 1);
        ClearThenInsert(rs, regions, r.View());
        err := MapInPiece(r);
      } else {
        WrappedUnordered(regions, r.View());
        err := MapIn(r);
      }
    }

    /** mmap_forced_mapin: unmap first whatever is in the way. */
    method ForcedMapIn(r: Vmr, tries: Option<nat>) returns (err: Option<Errno>)
      requires Valid() && r !in nodes && 0 <= r.start < WRAP && 0 <= r.end < WRAP
      modifies this, Repr(), r`next, r`prev
      ensures err == UnmapResult(old(regions), r.start, Size(r.start, r.end), tries)
      ensures err != Some(Ok) ==> Valid() && regions == old(regions)
      ensures err == Some(Ok) && r.start <= r.end ==> Valid() && MappedOver(old(regions), regions, r.start, r.end, r.flags)
      ensures err == Some(Ok) && r.end < r.start ==> Linked() && !Ordered(regions)
      ensures err == Some(Ok) ==> r in Repr()
      ensures fresh(Repr() - old(Repr()) - {r})
    {
      SizeEnd(r.start, r.end);
      err := Unmap(r.start, Size(r.start, r.end), tries);
      if err == Some(Ok) {
        var mapped := MapInCleared(r, old(regions));
        err := Some(mapped);
      }
    }

    /** A fixed mapping: whatever was mapped there gives way. canAlloc says whether vmr_alloc succeeds for the region,
        and tries when it does for the split inside mmap_unmap. */
    method MapFixed(addr: int, size: int, flags: Flags, canAlloc: bool, tries: Option<nat>)
      returns (err: Option<Errno>, r: Vmr?)
      requires Valid() && 0 <= addr <= LIMIT && 0 <= size < WRAP
      modifies this, Repr()
      ensures err == FixedResult(old(regions), addr, size, canAlloc, tries)
      ensures err != Some(Ok) ==> Valid() && regions == old(regions) && r == null
      ensures err == Some(Ok) ==> r in Repr() && r.View() == Region(addr, (addr + size - 1) % WRAP, flags)
      ensures err == Some(Ok) && addr + size <= WRAP ==>
        Valid() && MappedOver(old(regions), regions, addr, addr + size - 1, flags)
      ensures err == Some(Ok) && WRAP < addr + size ==> Linked() && !Ordered(regions)
      ensures fresh(Repr() - old(Repr()))
    {
      r := null;
      if !canAlloc {
        return Some(ENOMEM), null;
      }
      FixedBounds(addr, size);
      var region := new Vmr(addr, (addr + size - 1) % WRAP, flags);
      err := ForcedMapIn(region, tries);
      if err == Some(Ok) {
        r := region;
      }
    }

    /** A mapping at a place that a hole search found. */
    method MapFree(addr: int, size: int, flags: Flags, canAlloc: bool) returns (err: Errno, r: Vmr?)
      requires Valid() && 1 <= size && Fits(regions, addr, size)
      modifies this, Repr()
      ensures err == if canAlloc then Ok else ENOMEM
      ensures err != Ok ==> regions == old(regions) && r == null
      ensures err == Ok ==> r in Repr() && r.View() == Region(addr, addr + size - 1, flags)
      ensures err == Ok ==> MappedOver(old(regions), regions, addr, addr + size - 1, flags)
      ensures Valid() && fresh(Repr() - old(Repr()))
    {
      if !canAlloc {
        return ENOMEM, null;
      }
      r := new Vmr(addr, addr + size - 1, flags);
      InsertMapsOver(regions, r.View());
      err := MapInPiece(r);
    }

    /** The place of a mapping that is not fixed: stacks are placed from the end. */
    method FindPlace(hint: int, size: int, stack: bool) returns (err: Errno, addr: int)
      requires Valid() && 0 <= hint < WRAP && 0 <= size < WRAP
      requires stack ==> size != 1
      ensures size == 0 ==> err == EINVAL
      ensures err == Ok ==> 1 <= size && Placed(regions, hint, size, stack, addr)
      ensures 0 < size && err != Ok ==> err == ENOMEM && NothingFits(regions, size)
    {
      if stack {
        err, addr := FindHoleAtDown(hint, size);
      } else {
        err, addr := FindHoleAtUp(hint, size);
      }
      PlacedIs(regions, hint, size, stack, addr);
    }

    /** mmap_map_region, with the result None where it does not return. canAlloc says whether vmr_alloc
        succeeds for the region, and tries when it does for the split inside mmap_unmap. */
    method MapRegion(addr: int, len: int, prot: Prot, how: MapFlags, canAlloc: bool, tries: Option<nat>)
      returns (err: Option<Errno>, r: Vmr?)
      requires Valid() && 0 <= addr < WRAP && 0 <= len < WRAP
      modifies this, Repr()
      ensures err == MapResult(old(regions), addr, len, prot, how, canAlloc, tries)
      ensures err != Some(Ok) ==> Valid() && regions == old(regions) && r == null
      ensures err == Some(Ok) ==> r in Repr() && FlagsAsked(r.flags, prot, how) && (how.fixed ==> r.start == addr)
      ensures err == Some(Ok) && WrapsAround(addr, len, how) ==> Linked() && !Ordered(regions)
      ensures err == Some(Ok) && !WrapsAround(addr, len, how) ==>
        Valid() && r.end == r.start + MapLength(len, how) - 1 && MappedOver(old(regions), regions, r.start, r.end, r.flags)
      ensures err == Some(Ok) && !how.fixed ==> Placed(old(regions), addr, MapLength(len, how), how.stack, r.start)
      ensures fresh(Repr() - old(Repr()))
    {
      r := null;
      var bad := MapArgumentsBad(addr, len, prot, how);
      if bad {
        return Some(EINVAL), null;
      }
      if how.stack {
        StackSize(len);
      }
      var size := if how.stack then (len + PAGESZ) % WRAP else len;
      var flags := Flags(prot.read, prot.write, prot.exec, how.zero, how.shared, how.stack, how.dontexpand);
      err, r := MapChecked(addr, size, flags, how, canAlloc, tries);
    }

    /** The checks of mmap_map_region. */
    method MapArgumentsBad(addr: int, len: int, prot: Prot, how: MapFlags) returns (bad: bool)
      ensures bad == BadMapArguments(addr, len, prot, how)
    {
      if len == 0 {
        return true;
      }
      if how.fixed && addr % PAGESZ != 0 {
        return true;
      }
      if how.fixed && addr > LIMIT {
        return true;
      }
      if how.stack && (addr % PAGESZ != 0 || len % PAGESZ != 0) {
        return true;
      }
      if (how.private && how.shared) || (!how.private && !how.shared) {
        return true;
      }
      if how.stack && !(prot.read && prot.write) {
        return true;
      }
      bad := false;
    }

    /** The same after the checks, for size addresses. */
    method MapChecked(addr: int, size: int, flags: Flags, how: MapFlags, canAlloc: bool, tries: Option<nat>)
      returns (err: Option<Errno>, r: Vmr?)
      requires Valid() && 0 <= addr < WRAP && 0 <= size < WRAP
      requires (how.fixed ==> addr <= LIMIT) && (how.stack ==> size != 1)
      modifies this, Repr()
      ensures err == if how.fixed then FixedResult(old(regions), addr, size, canAlloc, tries)
                     else Some(PlacedResult(old(regions), size, canAlloc))
      ensures err != Some(Ok) ==> Valid() && regions == old(regions) && r == null
      ensures err == Some(Ok) ==> r in Repr() && r.flags == flags && (how.fixed ==> r.start == addr)
      ensures err == Some(Ok) && how.fixed && WRAP < addr + size ==> Linked() && !Ordered(regions)
      ensures err == Some(Ok) && !(how.fixed && WRAP < addr + size) ==>
        Valid() && r.end == r.start + size - 1 && MappedOver(old(regions), regions, r.start, r.end, r.flags)
      ensures err == Some(Ok) && !how.fixed ==> Placed(old(regions), addr, size, how.stack, r.start)
      ensures fresh(Repr() - old(Repr()))
    {
      r := null;
      if how.fixed {
        FixedBounds(addr, size);
        err, r := MapFixed(addr, size, flags, canAlloc, tries);
        return;
      }
      var place, found;
      found, place := FindPlace(addr, size, how.stack);
      if found == Ok {
        PlacedIs(regions, addr, size, how.stack, place);
        found, r := MapFree(place, size, flags, canAlloc);
      }
      err := Some(found);
    }

    // ----- mmap_vmr_expand

    /** Growth into the hole of incr addresses that starts at addr: the result of the checks. */
    method GrowthFits(addr: int, incr: int) returns (err: Errno)
      requires Valid() && 0 <= addr < WRAP && 1 <= incr
      ensures err == GrowthResult(regions, addr, incr)
    {
      var hole;
      ghost var i;
      err, hole, i := GetHoleSize(addr);
      HintFits(regions, addr, incr, hole, err == Ok, i);
      if err == Ok && hole < incr {
        err := ENOMEM;
      }
    }

    /** Moves the bounds of r, which is at position k if it is in the list at all. */
    method Reshape(r: Vmr, start: int, end: int, ghost k: int)
      requires Valid() && (r in nodes ==> 0 <= k < |nodes| && r == nodes[k] && MayMove(regions, k, start, end))
      modifies `regions, r`start, r`end
      ensures Valid() && Reshaped(old(regions), regions, r in nodes, old(r.View()), start, end)
      ensures r.start == start && r.end == end
    {
      ChainIsLinks();
      if r in nodes {
        regions := SetBoundsAt(regions, k, start, end);
      }
      r.start, r.end := start, end;
    }

    /** Growth that the checks allow. */
    method GrowTo(r: Vmr, start: int, end: int, ghost incr: int, ghost k: int)
      requires Valid() && (r in nodes ==> 0 <= k < |nodes| && r == nodes[k])
      requires 0 <= r.start <= LIMIT && 1 <= incr < WRAP / 2
      requires GrowthResult(regions, GrowthAddress(r.View(), incr), incr) == Ok
      requires start == (if r.flags.growsdown then GrowthAddress(r.View(), incr) else r.start) && end == NewEnd(r.View(), incr)
      modifies `regions, r`start, r`end
      ensures Valid() && Moved(old(regions), regions, r in nodes, old(r.View()), r.View(), incr)
    {
      ghost var v := r.View();
      if r.flags.growsdown {
        GrowsDownTo(regions, v, incr);
      }
      assert start == NewStart(v, incr);
      if r in nodes {
        assert regions[k] == v;
        GrowRegion(regions, k, incr);
      }
      Reshape(r, start, end, k);
    }

    method Grow(r: Vmr, incr: int, ghost k: int) returns (err: Errno)
      requires Valid() && (r in nodes ==> 0 <= k < |nodes| && r == nodes[k])
      requires 0 <= r.start <= r.end <= LIMIT && 1 <= incr < WRAP / 2
      modifies `regions, r`start, r`end
      ensures err == GrowthResult(old(regions), GrowthAddress(old(r.View()), incr), incr)
      ensures Valid() && (err != Ok ==> regions == old(regions) && r.View() == old(r.View()))
      ensures err == Ok ==> Moved(old(regions), regions, r in nodes, old(r.View()), r.View(), incr)
    {
      var addr := if r.flags.growsdown then (r.start - incr) % WRAP else r.end + 1;
      err := GrowthFits(addr, incr);
      if err == Ok {
        if !r.flags.growsdown {
          GrowTo(r, r.start, r.end + incr, incr, k);
        } else {
          GrowTo(r, addr, r.end, incr, k);
        }
      }
    }

    /** Shrinking by less than the size. */
    method Shrink(r: Vmr, decr: int, ghost k: int)
      requires Valid() && (r in nodes ==> 0 <= k < |nodes| && r == nodes[k])
      requires 0 <= r.start <= r.end <= LIMIT && 1 <= decr <= r.end - r.start
      modifies `regions, r`start, r`end
      ensures Valid() && Moved(old(regions), regions, r in nodes, old(r.View()), r.View(), -decr)
    {
      ghost var v := r.View();
      assert r in nodes ==> regions[k] == v;
      if r in nodes {
        ResizeRegion(regions, k, NewStart(v, -decr), NewEnd(v, -decr));
      }
      if !r.flags.growsdown {
        Reshape(r, r.start, r.end - decr, k);
      } else {
        Reshape(r, r.start + decr, r.end, k);
      }
    }

    /** mmap_vmr_expand: moves the growing edge of a region by incr, down to removing it. The region need not be in the
        list: then only its own bounds move. */
    method Expand(r: Vmr, incr: int) returns (err: Errno)
      requires Valid() && 0 <= r.start <= r.end <= LIMIT
      requires -WRAP / 2 <= incr < WRAP / 2
      modifies this, Repr(), r`start, r`end
      ensures err == ExpandResult(old(regions), old(r.View()), incr, r in old(nodes))
      ensures err != Ok ==> regions == old(regions) && r.View() == old(r.View())
      ensures err == Ok ==> Reshaped(old(regions), regions, r in old(nodes), old(r.View()),
                                     NewStart(old(r.View()), incr), NewEnd(old(r.View()), incr))
      ensures err == Ok && -incr != Size(old(r.start), old(r.end)) ==>
        r.View() == Region(NewStart(old(r.View()), incr), NewEnd(old(r.View()), incr), old(r.flags))
      ensures err == Ok && old(r.start) - old(r.end) - 1 < incr ==> r.end - r.start == old(r.end) - old(r.start) + incr
      ensures if r.flags.growsdown then r.end == old(r.end) else r.start == old(r.start)
      ensures Valid() && Repr() <= old(Repr())
    {
      ghost var k := 0;
      if r in nodes {
        k :| 0 <= k < |nodes| && r == nodes[k];
      }
      assert r in nodes ==> regions[k] == r.View();
      if incr == 0 {
        if r in nodes {
          UnchangedResizes(regions, k);
        }
        return Ok;
      }
      if r.flags.dontexpand {
        return EINVAL;
      }
      var oldsz := r.end - r.start + 1;
      var newsz := Signed(oldsz + incr);
      if newsz > oldsz {
        err := Grow(r, incr, k);
      } else if newsz < 0 {
        err := EINVAL;
      } else if newsz == 0 {
        err := Collapse(r, incr, k);
      } else {
        Shrink(r, -incr, k);
        err := Ok;
      }
    }

    /** Nothing is left of the region. */
    method Collapse(r: Vmr, ghost incr: int, ghost k: int) returns (err: Errno)
      requires Valid() && (r in nodes ==> 0 <= k < |nodes| && r == nodes[k])
      requires -incr == r.end - r.start + 1
      modifies this, Repr()`next, Repr()`prev
      ensures err == if r in old(nodes) then Ok else ENOENT
      ensures err != Ok ==> regions == old(regions)
      ensures err == Ok ==> Resized(old(regions), regions, r.View(), NewStart(r.View(), incr), NewEnd(r.View(), incr))
      ensures Valid() && Repr() <= old(Repr())
    {
      ghost var rs := regions;
      assert r in nodes ==> regions[k] == r.View();
      if r in nodes {
        DeleteResizes(rs, k, NewStart(rs[k], incr));
      }
      ghost var i;
      err, i := Remove(r);
      assert err == Ok ==> i == k;
    }

    // ----- mmap_protect

    /** Replaces the flags of r, which is at position k. */
    method SetFlags(r: Vmr, flags: Flags, ghost k: int)
      requires Valid() && 0 <= k < |nodes| && r == nodes[k]
      modifies `regions, r`flags
      ensures Valid() && MappedOver(old(regions), regions, old(regions)[k].start, old(regions)[k].end, flags)
    {
      ChainIsLinks();
      SetFlagsMaps(regions, k, flags);
      r.flags := flags;
      regions := SetFlagsAt(regions, k, flags);
    }

    method SetFlagsOf(r: Vmr, flags: Flags)
      requires Valid() && r in Repr()
      modifies `regions, r`flags
      ensures Valid() && MappedOver(old(regions), regions, r.start, r.end, flags)
    {
      ghost var k :| 0 <= k < |nodes| && r == nodes[k];
      assert regions[k] == r.View();
      SetFlags(r, flags, k);
    }

    /** Moves r, which is at position k, up to [start, end] and maps the front it gives up as a region of its own. */
    method CutFront(r: Vmr, front: Vmr, start: int, end: int, ghost k: int) returns (err: Errno)
      requires Valid() && 0 <= k < |nodes| && r == nodes[k] && front !in nodes
      requires r.start < start <= end <= r.end && front.View() == Region(r.start, start - 1, r.flags)
      modifies this, Repr()`next, Repr()`prev, r`start, r`end, front`next, front`prev
      ensures err == Ok && Valid() && regions == FrontOff(old(regions), k, start, end)
      ensures Repr() == old(Repr()) + {front} && r.start == start && r.end == end
    {
      CarveOrdered(regions, k, start, end);
      assert regions[k] == r.View();
      err := Place(r, front, start, end, k);
    }

    /** The three-way split of mmap_protect. */
    method CutMiddle(r: Vmr, front: Vmr, back: Vmr, start: int, end: int, ghost k: int) returns (err: Errno)
      requires Valid() && 0 <= k < |nodes| && r == nodes[k] && front !in nodes && back !in nodes && front != back
      requires r.start < start <= end < r.end
      requires front.View() == Region(r.start, start - 1, r.flags) && back.View() == Region(end + 1, r.end, r.flags)
      modifies this, Repr()`next, Repr()`prev, r`start, r`end, front`next, front`prev, back`next, back`prev
      ensures err == Ok && Valid() && SameMap(old(regions), regions)
      ensures Repr() == old(Repr()) + {front, back} && r.start == start && r.end == end
    {
      ghost var rs := regions;
      assert back.View() == Region(end + 1, rs[k].end, rs[k].flags);
      ThreeWayFits(rs, k, start, end);
      ThreeWayKeeps(rs, k, start, end);
      err := CutFront(r, front, start, end, k);
      assert back.View() == Region(end + 1, rs[k].end, rs[k].flags);
      err := MapInPiece(back);
    }

    method CarveBack(r: Vmr, end: int, ghost k: int) returns (err: Errno)
      requires Valid() && 0 <= k < |nodes| && r == nodes[k] && r.start <= end < r.end
      modifies this, Repr()`next, Repr()`prev, r`start, r`end
      ensures err == Ok && SameMap(old(regions), regions) && r in Repr() && r.start == old(r.start) && r.end == end
      ensures Valid() && fresh(Repr() - old(Repr()))
    {
      var rest := new Vmr(end + 1, r.end, r.flags);
      SplitSameMap(regions, k, end + 1);
      err := CutOff(r, rest, end + 1, k);
    }

    method CarveFront(r: Vmr, start: int, ghost k: int) returns (err: Errno)
      requires Valid() && 0 <= k < |nodes| && r == nodes[k] && r.start < start <= r.end
      modifies this, Repr()`next, Repr()`prev, r`start, r`end
      ensures err == Ok && SameMap(old(regions), regions) && r in Repr() && r.start == start && r.end == old(r.end)
      ensures Valid() && fresh(Repr() - old(Repr()))
    {
      var front := new Vmr(r.start, start - 1, r.flags);
      FrontOffKeeps(regions, k, start);
      assert r.end == regions[k].end;
      err := CutFront(r, front, start, r.end, k);
    }

    method CarveMiddle(r: Vmr, start: int, end: int, ghost k: int) returns (err: Errno)
      requires Valid() && 0 <= k < |nodes| && r == nodes[k] && r.start < start <= end < r.end
      modifies this, Repr()`next, Repr()`prev, r`start, r`end
      ensures err == Ok && SameMap(old(regions), regions) && r in Repr() && r.start == start && r.end == end
      ensures Valid() && fresh(Repr() - old(Repr()))
    {
      var front := new Vmr(r.start, start - 1, r.flags);
      var back := new Vmr(end + 1, r.end, r.flags);
      err := CutMiddle(r, front, back, start, end, k);
    }

    /** Cuts r, which is at position k, down to [start, end], keeping what every address maps to.
        canAlloc0 and canAlloc1 say whether the two calls of vmr_alloc succeed. */
    method Carve(r: Vmr, start: int, end: int, canAlloc0: bool, canAlloc1: bool, ghost k: int) returns (err: Errno)
      requires Valid() && 0 <= k < |nodes| && r == nodes[k]
      requires r.start <= start <= end <= r.end && (r.start < start || end < r.end)
      modifies this, Repr()`next, Repr()`prev, r`start, r`end
      ensures err == if canAlloc0 && (canAlloc1 || old(r.start) == start || old(r.end) == end) then Ok else ENOMEM
      ensures err != Ok ==> regions == old(regions) && nodes == old(nodes)
      ensures err == Ok ==> SameMap(old(regions), regions) && r in Repr() && r.start == start && r.end == end
      ensures Valid() && fresh(Repr() - old(Repr()))
    {
      if !canAlloc0 {
        return ENOMEM;
      }
      if r.start == start {
        err := CarveBack(r, end, k);
      } else if r.end == end {
        err := CarveFront(r, start, k);
      } else {
        if !canAlloc1 {
          return ENOMEM;
        }
        err := CarveMiddle(r, start, end, k);
      }
    }

    /** The last part of mmap_protect: gives r, or the part [addr, addr + len) of it, exactly the bits of prot. */
    method Reprotect(r: Vmr, addr: int, len: int, prot: Prot, canAlloc0: bool, canAlloc1: bool, ghost k: int) returns (ok: bool)
      requires Valid() && 0 <= k < |nodes| && r == nodes[k] && Has(regions[k], addr) && 0 < len < WRAP
      requires ProtectEnd(addr, len) <= r.end
      modifies this, Repr()
      ensures ok == Carvable(old(regions)[k], addr, len, canAlloc0, canAlloc1)
      ensures !ok ==> regions == old(regions)
      ensures ok ==> MappedOver(old(regions), regions, ProtectedFrom(old(regions)[k], addr, len),
                                ProtectedTo(old(regions)[k], addr, len), ProtFlags(prot))
      ensures Valid() && fresh(Repr() - old(Repr()))
    {
      ghost var rs := regions;
      assert regions[k] == r.View();
      if len < r.end - r.start + 1 {
        var err := Carve(r, addr, addr + len - 1, canAlloc0, canAlloc1, k);
        if err != Ok {
          return false;
        }
      }
      ghost var rs' := regions;
      SetFlagsOf(r, ProtFlags(prot));
      MappedOverSame(rs, rs', regions, r.start, r.end, ProtFlags(prot));
      ok := true;
    }

    /** mmap_protect. changed says whether a region was given new flags; arch is what arch_mprotect then returns. */
    method Protect(addr: int, len: int, prot: Prot, canAlloc0: bool, canAlloc1: bool, arch: Errno)
      returns (err: Errno, changed: bool, ghost k: int)
      requires Valid() && 0 <= addr < WRAP && 0 <= len < WRAP
      modifies this, Repr()
      ensures BadProtectArguments(addr, len) ==> err == EINVAL && !changed
      ensures !BadProtectArguments(addr, len) && !Covered(old(regions), addr) ==> err == ENOMEM && !changed
      ensures !BadProtectArguments(addr, len) && Covered(old(regions), addr) ==>
        && 0 <= k < |old(regions)| && Has(old(regions)[k], addr)
        && changed == ProtectChanges(old(regions)[k], addr, len, prot, canAlloc0, canAlloc1)
        && err == if changed then arch else ProtectRefusal(old(regions)[k], addr, len, prot)
      ensures !changed ==> regions == old(regions)
      ensures changed ==> MappedOver(old(regions), regions, ProtectedFrom(old(regions)[k], addr, len),
                                     ProtectedTo(old(regions)[k], addr, len), ProtFlags(prot))
      ensures changed ==> ProtectedAs(regions, ProtectedFrom(old(regions)[k], addr, len), ProtectedTo(old(regions)[k], addr, len), prot)
      ensures Valid() && fresh(Repr() - old(Repr()))
    {
      changed, k := false, 0;
      if len == 0 {
        return EINVAL, false, 0;
      }
      if addr % PAGESZ != 0 || len % PAGESZ != 0 {
        return EINVAL, false, 0;
      }
      if addr > LIMIT {
        AtNone(regions, addr);
        return ENOMEM, false, 0;
      }
      var r, i := Find(addr);
      if r == null {
        return ENOMEM, false, 0;
      }
      k := i;
      AtIndex(regions, addr, k);
      assert regions[k] == r.View();
      err, changed := ProtectFound(r, addr, len, prot, canAlloc0, canAlloc1, arch, k);
      if changed {
        BitsProtected(old(regions), regions, ProtectedFrom(old(regions)[k], addr, len), ProtectedTo(old(regions)[k], addr, len), prot);
      }
    }

    /** The same once the region r at position k that holds addr is found. */
    method ProtectFound(r: Vmr, addr: int, len: int, prot: Prot, canAlloc0: bool, canAlloc1: bool, arch: Errno, ghost k: int)
      returns (err: Errno, changed: bool)
      requires Valid() && 0 <= k < |nodes| && r == nodes[k] && Has(regions[k], addr) && 0 < len < WRAP
      modifies this, Repr()
      ensures changed == ProtectChanges(old(regions)[k], addr, len, prot, canAlloc0, canAlloc1)
      ensures err == if changed then arch else ProtectRefusal(old(regions)[k], addr, len, prot)
      ensures !changed ==> regions == old(regions)
      ensures changed ==> MappedOver(old(regions), regions, ProtectedFrom(old(regions)[k], addr, len),
                                     ProtectedTo(old(regions)[k], addr, len), ProtFlags(prot))
      ensures Valid() && fresh(Repr() - old(Repr()))
    {
      assert regions[k] == r.View();
      if (addr + len - 1) % WRAP > r.end {
        return ENOMEM, false;
      }
      if r.flags.growsdown {
        return EACCES, false;
      }
      var now := Prot(r.flags.read, r.flags.write, r.flags.exec);
      if now == prot {
        return Ok, false;
      }
      if prot.write && prot.exec {
        return EACCES, false;
      }
      if prot.write && now.exec {
        return EACCES, false;
      }
      if prot.exec && now.write {
        return EACCES, false;
      }
      changed := Reprotect(r, addr, len, prot, canAlloc0, canAlloc1, k);
      err := if changed then arch else ENOMEM;
    }

    // ----- runs

    /** One call of the interface does what CallDoes says. The list stays linked, and in order exactly unless a fixed
        mapping wraps. */
    method Step(op: Op) returns (err: Option<Errno>)
      requires Valid() && InRange(op)
      modifies this, Repr()
      ensures CallDoes(old(regions), op, err, regions)
      ensures Linked() && (Ordered(regions) <==> !(err == Some(Ok) && Wraps(op)))
      ensures fresh(Repr() - old(Repr()))
    {
      var e;
      match op {
        case MapOp(addr, len, prot, how, canAlloc, tries) =>
          var r;
          err, r := MapRegion(addr, len, prot, how, canAlloc, tries);
          assert err == Some(Ok) && !Wraps(op) ==> MapsAt(old(regions), regions, op, r.start, r.flags);
        case UnmapOp(addr, len, tries) =>
          err := Unmap(addr, len, tries);
        case RemoveOp(addr) =>
          e := RemoveAt(addr);
          err := Some(e);
        case ExpandOp(addr, incr) =>
          e := ExpandAt(addr, incr);
          err := Some(e);
        case ProtectOp(_, _, _, _, _, _) =>
          err := StepProtect(op);
      }
      CallDoesIs(old(regions), op, err, regions);
    }

    method StepProtect(op: Op) returns (err: Option<Errno>)
      requires Valid() && InRange(op) && op.ProtectOp?
      modifies this, Repr()
      ensures CallEffect(old(regions), op, err, regions)
      ensures Valid() && fresh(Repr() - old(Repr()))
    {
      var e, changed, k := Protect(op.addr, op.len, op.prot, op.canAlloc0, op.canAlloc1, op.arch);
      assert changed ==> ProtectsAt(old(regions), regions, op, k);
      err := Some(e);
    }

    /** mmap_remove of the region that holds addr. */
    method RemoveAt(addr: int) returns (err: Errno)
      requires Valid()
      modifies this, Repr()
      ensures err == if Covered(old(regions), addr) then Ok else EINVAL
      ensures err != Ok ==> regions == old(regions)
      ensures err == Ok ==> RemovesAt(old(regions), regions, addr)
      ensures Valid() && Repr() <= old(Repr())
    {
      var r, k := Find(addr);
      if r == null {
        return EINVAL;
      }
      AtIndex(regions, addr, k);
      ghost var i;
      err, i := Remove(r);
      assert i == k;
      DeleteResizes(old(regions), k, old(regions)[k].start);
    }

    /** mmap_vmr_expand of the region that holds addr. */
    method ExpandAt(addr: int, incr: int) returns (err: Errno)
      requires Valid() && -WRAP / 2 <= incr < WRAP / 2
      modifies this, Repr()
      ensures !Covered(old(regions), addr) ==> err == EINVAL
      ensures err != Ok ==> regions == old(regions)
      ensures Covered(old(regions), addr) ==> ExpandsAt(old(regions), regions, addr, incr, err)
      ensures Valid() && Repr() <= old(Repr())
    {
      var r, k := Find(addr);
      if r == null {
        return EINVAL;
      }
      AtIndex(regions, addr, k);
      assert regions[k] == r.View();
      err := Expand(r, incr);
    }

    /** Every run of calls keeps the list linked, ordered, disjoint and within the limit, and each call does what CallDoes
        says to the list that the calls before it left. The run goes on until a call does not return or a fixed mapping
        that wraps succeeds. As long as no mapping asks for both, no address becomes writable and executable. */
    method Run(ops: seq<Op>) returns (errs: seq<Option<Errno>>, ghost lists: seq<seq<Region>>)
      requires Valid() && forall i | 0 <= i < |ops| :: InRange(ops[i])
      modifies this, Repr()
      ensures Linked() && fresh(Repr() - old(Repr()))
      ensures |errs| <= |ops| && |lists| == |errs| + 1 && lists[0] == old(regions) && lists[|errs|] == regions
      ensures CallsDo(lists, ops, errs)
      ensures Ordered(regions) <==> !EndsWrapped(ops, errs)
      ensures |errs| == |ops| || EndsWrapped(ops, errs) || (errs != [] && errs[|errs| - 1] == None)
      ensures Ordered(regions) && old(Exclusive(regions)) && (forall i | 0 <= i < |errs| :: !AsksBoth(ops[i])) ==>
        Exclusive(regions)
    {
      errs, lists := [], [regions];
      while |errs| < |ops|
        invariant Valid() && fresh(Repr() - old(Repr()))
        invariant |errs| <= |ops| && |lists| == |errs| + 1 && lists[0] == old(regions) && lists[|errs|] == regions
        invariant CallsDo(lists, ops, errs) && !EndsWrapped(ops, errs)
        invariant old(Exclusive(regions)) && (forall i | 0 <= i < |errs| :: !AsksBoth(ops[i])) ==> Exclusive(regions)
        decreases |ops| - |errs|
      {
        ghost var rs := regions;
        var op := ops[|errs|];
        var err := Step(op);
        if Exclusive(rs) && !AsksBoth(op) && !(Wraps(op) && err == Some(Ok)) {
          CallExclusive(rs, op, err, regions);
        }
        errs, lists := errs + [err], lists + [regions];
        if err == None || (err == Some(Ok) && Wraps(op)) {
          return;
        }
      }
    }
  }

  // ----- the failing cases happen

  const PRIVATE_FIXED: MapFlags := MapFlags(true, false, true, false, false, false)

  const WRAPPING: Op := MapOp(0x2000, WRAP - 0x1000, Prot(true, true, false), PRIVATE_FIXED, true, Some(0))

  /** A fixed mapping of all but one page of the 64-bit addresses succeeds and leaves the list out of order. */
  method WrappingMap() returns (m: Mmap)
    ensures fresh(m) && m.Linked() && CallDoes([], WRAPPING, Some(Ok), m.regions) && !Ordered(m.regions)
  {
    m := new Mmap();
    assert !Inner([], 0x2000);
    var err := m.Step(WRAPPING);
    CallDoesIs([], WRAPPING, err, m.regions);
  }

  /** Unmapping the middle of a mapping never returns when no region can be allocated. */
  method StuckUnmap() returns (m: Mmap)
    ensures fresh(m) && m.Valid() && Inner(m.regions, 0x2000) && CallDoes(m.regions, UnmapOp(0x2000, 0x1000, None), None, m.regions)
  {
    m := new Mmap();
    var err, r := m.MapRegion(0x1000, 0x3000, Prot(true, true, false), PRIVATE_FIXED, true, Some(0));
    assert exists i | 0 <= i < |m.nodes| :: m.nodes[i] == r && m.regions[i] == r.View();
    CallDoesIs(m.regions, UnmapOp(0x2000, 0x1000, None), None, m.regions);
  }

  /** The result of mmap_mapin for a region [start, end]. */
  ghost function MapInResult(rs: seq<Region>, start: int, end: int, present: bool): Errno {
    if present then EEXIST
    else if Size(start, end) == 0 || end > LIMIT then EINVAL
    else if Overlaps(rs, start, end) then EEXIST
    else Ok
  }

  /** mmap_getholesize right after the last region sees the last hole, or nothing at the limit. */
  lemma HoleAfterLast(rs: seq<Region>, addr: int)
    requires Ordered(rs) && rs != [] && addr == rs[|rs| - 1].end + 1
    ensures !Covered(rs, addr)
    ensures forall k | InsertIndex(rs, addr, k) :: k == |rs|
    ensures GapSize(rs, |rs|) == LIMIT + 1 - addr
  {
    AtNone(rs, addr);
  }

  /** mmap_getholesize at address 0 sees the first hole. */
  lemma FirstHole(rs: seq<Region>, len: int, ok: bool, k: int)
    requires Ordered(rs)
    requires ok <==> !Covered(rs, 0)
    requires if ok then InsertIndex(rs, 0, k) && len == HoleEnd(rs, k) else len == 0
    ensures len == GapSize(rs, 0)
  {
    if !ok {
      var i := AtWitness(rs, 0);
    } else if 0 < k {
      AtIndex(rs, 0, 0);
    }
  }

  /** mmap_getholesize size addresses below the limit tells whether the last hole is large enough. */
  lemma LastHole(rs: seq<Region>, top: int, size: int, len: int, ok: bool, k: int)
    requires Ordered(rs) && 1 <= size < WRAP && top == (LIMIT + 1 - size) % WRAP
    requires ok <==> top <= LIMIT && !Covered(rs, top)
    requires if ok then InsertIndex(rs, top, k) && top + len == HoleEnd(rs, k) && 1 <= len else len == 0
    requires ok ==> Free(rs, top, top + len - 1)
    ensures size <= len <==> size <= GapSize(rs, |rs|)
    ensures size <= len ==> top == LIMIT + 1 - size
  {
    var n := |rs|;
    if size <= LIMIT + 1 {
      assert top == LIMIT + 1 - size;
    } else {
      assert top == LIMIT + 1 - size + WRAP;
    }
    if size <= GapSize(rs, n) {
      AtNone(rs, top);
    }
  }

  lemma DownFound(rs: seq<Region>, i: int, size: int, addr: int)
    requires Ordered(rs) && 1 <= size && 0 <= i <= |rs| && size <= GapSize(rs, i)
    requires forall j | i < j < |rs| :: GapSize(rs, j) < size
    requires i < |rs| ==> GapSize(rs, |rs|) < size
    requires addr == HoleEnd(rs, i) - size
    requires i == 0 && rs != [] ==> rs[0].start != 1
    ensures Fits(rs, addr, size) && !Overlooked(rs, addr, size)
    ensures forall b | addr < b :: !Fits(rs, b, size)
  {
    LastGapHighest(rs, i, size);
  }

  /** mmap_getholesize at a hint tells whether the hint fits. */
  lemma HintFits(rs: seq<Region>, hint: int, size: int, len: int, ok: bool, k: int)
    requires Ordered(rs) && 0 <= hint && 1 <= size
    requires ok <==> hint <= LIMIT && !Covered(rs, hint)
    requires if ok then InsertIndex(rs, hint, k) && hint + len == HoleEnd(rs, k) else len == 0
    requires ok ==> Free(rs, hint, hint + len - 1)
    ensures size <= len <==> Fits(rs, hint, size)
  {
    if Fits(rs, hint, size) {
      AtNone(rs, hint);
    }
  }

  /** The wrapped end of the range that mmap_forced_mapin unmaps is the region's own end. */
  lemma SizeEnd(start: int, end: int)
    requires 0 <= start < WRAP && 0 <= end < WRAP
    ensures end <= LIMIT ==> Size(start, end) == if start <= end + 1 then end + 1 - start else end + 1 - start + WRAP
    ensures Size(start, end) != 0 ==> (start + Size(start, end) - 1) % WRAP == end
    ensures Size(start, end) < WRAP
  {
  }

  /** A region whose end wrapped below its start passes mmap_mapin and ruins the list. */
  lemma WrappedUnordered(rs: seq<Region>, r: Region)
    requires Ordered(rs) && r.end < r.start
    ensures !Ordered(InsertSorted(rs, r))
    ensures Size(r.start, r.end) != 0 && r.end <= LIMIT ==> MapInResult(rs, r.start, r.end, false) == Ok
  {
    var k := InsertIndexExists(rs, r.start);
    InsertSortedAt(rs, k, r);
    assert Insert(rs, k, r)[k] == r;
  }

  /** The PROT_* bits. */
  datatype Prot = Prot(read: bool, write: bool, exec: bool)

  /** The MAP_* bits that mmap_map_region looks at. */
  datatype MapFlags = MapFlags(fixed: bool, stack: bool, private: bool, shared: bool, zero: bool, dontexpand: bool)

  /** The argument checks of mmap_map_region. */
  predicate BadMapArguments(addr: int, len: int, prot: Prot, how: MapFlags) {
    || len == 0
    || (how.fixed && addr % PAGESZ != 0)
    || (how.fixed && addr > LIMIT)
    || (how.stack && (addr % PAGESZ != 0 || len % PAGESZ != 0))
    || (how.private == how.shared)
    || (how.stack && !(prot.read && prot.write))
  }

  /** The length with a stack's guard page, in 64-bit arithmetic. */
  function MapLength(len: int, how: MapFlags): int {
    if how.stack then (len + PAGESZ) % WRAP else len
  }

  lemma StackSize(len: int)
    requires 0 <= len < WRAP && len % PAGESZ == 0
    ensures (len + PAGESZ) % WRAP == (if len + PAGESZ < WRAP then len + PAGESZ else len + PAGESZ - WRAP) != 1
  {
  }

  /** The flags of a new region, one by one. */
  predicate FlagsAsked(flags: Flags, prot: Prot, how: MapFlags) {
    flags == Flags(read := prot.read, write := prot.write, exec := prot.exec, zero := how.zero, shared := how.shared,
                   growsdown := how.stack, dontexpand := how.dontexpand)
  }

  /** The calls that change an address space, with what vmr_alloc and arch_mprotect will answer. Regions are named by an
      address they hold. */
  datatype Op =
    | MapOp(addr: int, len: int, prot: Prot, how: MapFlags, canAlloc: bool, tries: Option<nat>)
    | UnmapOp(addr: int, len: int, tries: Option<nat>)
    | RemoveOp(addr: int)
    | ExpandOp(addr: int, incr: int)
    | ProtectOp(addr: int, len: int, prot: Prot, canAlloc0: bool, canAlloc1: bool, arch: Errno)

  /** The arguments are 64-bit values. */
  predicate InRange(op: Op) {
    match op
    case RemoveOp(addr) => 0 <= addr < WRAP
    case ExpandOp(addr, incr) => 0 <= addr < WRAP && -WRAP / 2 <= incr < WRAP / 2
    case _ => 0 <= op.addr < WRAP && 0 <= op.len < WRAP
  }

  predicate Wraps(op: Op) {
    op.MapOp? && WrapsAround(op.addr, op.len, op.how)
  }

  // ----- what the calls do to what addresses map to

  /** Where a mapping that is not fixed may lie: at the hint if that fits, and without a hint at the lowest place, or for
      a stack at the highest. */
  ghost predicate IsPlace(rs: seq<Region>, hint: int, size: int, stack: bool, addr: int) {
    && Fits(rs, addr, size)
    && (!stack && Fits(rs, hint, size) ==> addr == hint)
    && (!stack && hint == 0 ==> forall b | b < addr :: !Fits(rs, b, size))
    && (stack && hint == 0 ==> forall b | addr < b :: !Fits(rs, b, size))
  }

  /** The same, a few recursive steps away. */
  ghost predicate Placed(rs: seq<Region>, hint: int, size: int, stack: bool, addr: int, seal: Seal := SEALED) {
    match seal
    case Open => IsPlace(rs, hint, size, stack, addr)
    case Shut(inner) => Placed(rs, hint, size, stack, addr, inner)
  }

  lemma PlacedIs(rs: seq<Region>, hint: int, size: int, stack: bool, addr: int)
    ensures Placed(rs, hint, size, stack, addr) <==> IsPlace(rs, hint, size, stack, addr)
  {
    assert Placed(rs, hint, size, stack, addr, Shut(Shut(Open))) == Placed(rs, hint, size, stack, addr, Shut(Open))
        == Placed(rs, hint, size, stack, addr, Open);
  }

  /** The mapping lies at start. */
  ghost predicate MapsAt(rs: seq<Region>, rs': seq<Region>, op: Op, start: int, flags: Flags)
    requires op.MapOp?
  {
    var size := MapLength(op.len, op.how);
    && (if op.how.fixed then start == op.addr else Placed(rs, op.addr, size, op.how.stack, start))
    && MappedOver(rs, rs', start, start + size - 1, flags) && FlagsAsked(flags, op.prot, op.how)
  }

  /** The region that holds addr is gone. */
  ghost predicate RemovesAt(rs: seq<Region>, rs': seq<Region>, addr: int) {
    exists k | 0 <= k < |rs| && Has(rs[k], addr) :: Resized(rs, rs', rs[k], rs[k].start, rs[k].start - 1)
  }

  /** The growing edge of the region that holds addr moves by incr. */
  ghost predicate ExpandsAt(rs: seq<Region>, rs': seq<Region>, addr: int, incr: int, err: Errno) {
    exists k | 0 <= k < |rs| && Has(rs[k], addr) ::
      && err == ExpandResult(rs, rs[k], incr, true)
      && (err == Ok ==> Resized(rs, rs', rs[k], NewStart(rs[k], incr), NewEnd(rs[k], incr)))
  }

  /** Every address from lo to hi has exactly the bits of prot. */
  ghost predicate ProtectedAs(rs: seq<Region>, lo: int, hi: int, prot: Prot) {
    forall a | lo <= a <= hi ::
      && At(rs, a).Some?
      && At(rs, a).value.read == prot.read && At(rs, a).value.write == prot.write && At(rs, a).value.exec == prot.exec
      && !At(rs, a).value.zero && !At(rs, a).value.shared && !At(rs, a).value.growsdown && !At(rs, a).value.dontexpand
  }

  lemma BitsProtected(rs: seq<Region>, rs': seq<Region>, lo: int, hi: int, prot: Prot)
    requires MappedOver(rs, rs', lo, hi, ProtFlags(prot))
    ensures ProtectedAs(rs', lo, hi, prot)
  {
  }

  /** The range, which starts in region k, gets the new flags. */
  ghost predicate ProtectsAt(rs: seq<Region>, rs': seq<Region>, op: Op, k: int)
    requires op.ProtectOp?
  {
    && 0 <= k < |rs| && Has(rs[k], op.addr)
    && ProtectChanges(rs[k], op.addr, op.len, op.prot, op.canAlloc0, op.canAlloc1)
    && MappedOver(rs, rs', ProtectedFrom(rs[k], op.addr, op.len), ProtectedTo(rs[k], op.addr, op.len), ProtFlags(op.prot))
    && ProtectedAs(rs', ProtectedFrom(rs[k], op.addr, op.len), ProtectedTo(rs[k], op.addr, op.len), op.prot)
  }

  /** The range keeps its flags, and the call says why. */
  ghost predicate ProtectRefused(rs: seq<Region>, op: Op, err: Errno)
    requires op.ProtectOp?
  {
    if BadProtectArguments(op.addr, op.len) then err == EINVAL
    else if !Covered(rs, op.addr) then err == ENOMEM
    else exists k | 0 <= k < |rs| && Has(rs[k], op.addr) ::
      && !ProtectChanges(rs[k], op.addr, op.len, op.prot, op.canAlloc0, op.canAlloc1)
      && err == ProtectRefusal(rs[k], op.addr, op.len, op.prot)
  }

  /** The result of a call, and what every address maps to after it. A call that fails or does not return changes nothing,
      except that mmap_protect keeps what it did when only the page tables refuse. */
  ghost predicate CallEffect(rs: seq<Region>, op: Op, err: Option<Errno>, rs': seq<Region>) {
    match op
    case MapOp(addr, len, prot, how, canAlloc, tries) =>
      && err == MapResult(rs, addr, len, prot, how, canAlloc, tries)
      && (err == Some(Ok) && !Wraps(op) ==> exists start, flags :: MapsAt(rs, rs', op, start, flags))
      && (err != Some(Ok) ==> rs' == rs)
    case UnmapOp(addr, len, tries) =>
      && err == UnmapResult(rs, addr, len, tries)
      && (if err == Some(Ok) then Cleared(rs, rs', addr, addr + len) else rs' == rs)
    case RemoveOp(addr) =>
      && err == Some(if Covered(rs, addr) then Ok else EINVAL)
      && (if err == Some(Ok) then RemovesAt(rs, rs', addr) else rs' == rs)
    case ExpandOp(addr, incr) =>
      && err.Some? && (err != Some(Ok) ==> rs' == rs)
      && (if Covered(rs, addr) then ExpandsAt(rs, rs', addr, incr, err.value) else err == Some(EINVAL))
    case ProtectOp(addr, len, prot, canAlloc0, canAlloc1, arch) =>
      || (err == Some(arch) && exists k :: ProtectsAt(rs, rs', op, k))
      || (err.Some? && rs' == rs && ProtectRefused(rs, op, err.value))
  }

  /** The same, a few recursive steps away. */
  ghost predicate CallDoes(rs: seq<Region>, op: Op, err: Option<Errno>, rs': seq<Region>, seal: Seal := SEALED) {
    match seal
    case Open => CallEffect(rs, op, err, rs')
    case Shut(inner) => CallDoes(rs, op, err, rs', inner)
  }

  lemma CallDoesIs(rs: seq<Region>, op: Op, err: Option<Errno>, rs': seq<Region>)
    ensures CallDoes(rs, op, err, rs') <==> CallEffect(rs, op, err, rs')
  {
    assert CallDoes(rs, op, err, rs', Shut(Shut(Open))) == CallDoes(rs, op, err, rs', Shut(Open))
        == CallDoes(rs, op, err, rs', Open);
  }

  /** Every call did its part on the list that the calls before it left. */
  ghost predicate CallsDo(lists: seq<seq<Region>>, ops: seq<Op>, errs: seq<Option<Errno>>)
    requires |errs| <= |ops| && |lists| == |errs| + 1
  {
    forall i, j | 0 <= i < |errs| && j == i + 1 :: CallDoes(lists[i], ops[i], errs[i], lists[j])
  }

  /** The last call is a fixed mapping that wraps and succeeds. */
  predicate EndsWrapped(ops: seq<Op>, errs: seq<Option<Errno>>)
    requires |errs| <= |ops|
  {
    errs != [] && errs[|errs| - 1] == Some(Ok) && Wraps(ops[|errs| - 1])
  }

  /** A call that does not ask for both makes no address writable and executable. */
  lemma CallExclusive(rs: seq<Region>, op: Op, err: Option<Errno>, rs': seq<Region>)
    requires Ordered(rs) && Exclusive(rs) && CallDoes(rs, op, err, rs') && !AsksBoth(op) && !(Wraps(op) && err == Some(Ok))
    ensures Exclusive(rs')
  {
    CallDoesIs(rs, op, err, rs');
    if rs' != rs {
      match op
      case MapOp(_, _, _, _, _, _) =>
        var start, flags :| MapsAt(rs, rs', op, start, flags);
      case ExpandOp(addr, _) =>
        ResizedExclusive(rs, rs', addr);
      case ProtectOp(_, _, _, _, _, _) =>
        var k :| ProtectsAt(rs, rs', op, k);
      case _ =>
    }
  }

  lemma ResizedExclusive(rs: seq<Region>, rs': seq<Region>, addr: int)
    requires Ordered(rs) && Exclusive(rs)
    requires exists k, start, end | 0 <= k < |rs| && Has(rs[k], addr) :: Resized(rs, rs', rs[k], start, end)
    ensures Exclusive(rs')
  {
    var k, start, end :| 0 <= k < |rs| && Has(rs[k], addr) && Resized(rs, rs', rs[k], start, end);
    AtIndex(rs, addr, k);
    assert At(rs, addr) == Some(rs[k].flags);
  }

  predicate AsksBoth(op: Op) {
    op.MapOp? && op.prot.write && op.prot.exec
  }

  /** No address is both writable and executable. */
  ghost predicate Exclusive(rs: seq<Region>) {
    forall a :: At(rs, a).Some? ==> !(At(rs, a).value.write && At(rs, a).value.exec)
  }

  predicate BadProtectArguments(addr: int, len: int) {
    len == 0 || addr % PAGESZ != 0 || len % PAGESZ != 0
  }

  /** The last address of the range in 64-bit arithmetic. */
  function ProtectEnd(addr: int, len: int): int {
    (addr + len - 1) % WRAP
  }

  /** mmap_protect leaves a region with the three protection bits and no others. */
  function ProtFlags(prot: Prot): Flags {
    Flags(prot.read, prot.write, prot.exec, false, false, false, false)
  }

  predicate SameProt(flags: Flags, prot: Prot) {
    prot == Prot(flags.read, flags.write, flags.exec)
  }

  /** Stacks keep their protection, and nothing becomes writable and executable, at once or one after the other. */
  predicate ProtectForbidden(flags: Flags, prot: Prot) {
    || flags.growsdown
    || (!SameProt(flags, prot)
        && ((prot.write && prot.exec) || (prot.write && flags.exec) || (prot.exec && flags.write)))
  }

  /** The same in single bits: the region is no stack, something changes, and write and execute never meet. */
  predicate AllowsProtection(flags: Flags, prot: Prot) {
    && !flags.growsdown && !(prot.read == flags.read && prot.write == flags.write && prot.exec == flags.exec)
    && !(prot.write && prot.exec) && !(prot.write && flags.exec) && !(prot.exec && flags.write)
  }

  /** A range inside one region is refused exactly unless that holds or nothing is asked for. */
  lemma ProtectExactly(r: Region, addr: int, len: int, prot: Prot, canAlloc0: bool, canAlloc1: bool)
    requires 0 <= r.start <= addr && addr + len - 1 <= r.end <= LIMIT && 0 < len
    ensures ProtectedFrom(r, addr, len) == addr && ProtectedTo(r, addr, len) == addr + len - 1
    ensures canAlloc0 && canAlloc1 ==> (ProtectChanges(r, addr, len, prot, canAlloc0, canAlloc1) <==> AllowsProtection(r.flags, prot))
    ensures addr == r.start && addr + len - 1 == r.end ==>
      (ProtectChanges(r, addr, len, prot, canAlloc0, canAlloc1) <==> AllowsProtection(r.flags, prot))
    ensures !ProtectChanges(r, addr, len, prot, canAlloc0, canAlloc1) ==>
      ProtectRefusal(r, addr, len, prot) ==
        if r.flags.growsdown then EACCES
        else if prot == Prot(r.flags.read, r.flags.write, r.flags.exec) then Ok
        else if AllowsProtection(r.flags, prot) then ENOMEM else EACCES
  {
    assert ProtectEnd(addr, len) == addr + len - 1;
  }

  /** What mmap_protect returns for a range that starts in r when it changes nothing. */
  function ProtectRefusal(r: Region, addr: int, len: int, prot: Prot): Errno {
    if ProtectEnd(addr, len) > r.end then ENOMEM
    else if ProtectForbidden(r.flags, prot) then EACCES
    else if SameProt(r.flags, prot) then Ok
    else ENOMEM
  }

  /** The allocations that splitting r around the range takes succeed. */
  predicate Carvable(r: Region, addr: int, len: int, canAlloc0: bool, canAlloc1: bool) {
    || len > r.end - r.start
    || (canAlloc0 && (canAlloc1 || addr == r.start || addr + len - 1 == r.end))
  }

  predicate ProtectChanges(r: Region, addr: int, len: int, prot: Prot, canAlloc0: bool, canAlloc1: bool) {
    && ProtectEnd(addr, len) <= r.end && !ProtectForbidden(r.flags, prot) && !SameProt(r.flags, prot)
    && Carvable(r, addr, len, canAlloc0, canAlloc1)
  }

  /** The addresses that get the new flags: the range, or all of r when the range wraps past the end of memory. */
  function ProtectedFrom(r: Region, addr: int, len: int): int {
    if addr + len <= WRAP then addr else r.start
  }

  function ProtectedTo(r: Region, addr: int, len: int): int {
    if addr + len <= WRAP then addr + len - 1 else r.end
  }

  /** Protection never maps or unmaps an address. */
  lemma ProtectKeepsCoverage(rs: seq<Region>, rs': seq<Region>, k: int, addr: int, len: int, prot: Prot)
    requires Ordered(rs) && 0 <= k < |rs| && Has(rs[k], addr) && 0 < len < WRAP && ProtectEnd(addr, len) <= rs[k].end
    requires MappedOver(rs, rs', ProtectedFrom(rs[k], addr, len), ProtectedTo(rs[k], addr, len), ProtFlags(prot))
    ensures forall a :: Covered(rs', a) <==> Covered(rs, a)
  {
    CoverageKept(rs, rs', k, ProtectedFrom(rs[k], addr, len), ProtectedTo(rs[k], addr, len), ProtFlags(prot));
  }

  /** The result of mmap_unmap: only the wrapped end is checked against the limit, and the call does not return when it
      has to split a region and never can. */
  ghost function UnmapResult(rs: seq<Region>, start: int, len: int, tries: Option<nat>): Option<Errno> {
    if len == 0 || (start + len - 1) % WRAP > LIMIT then Some(EINVAL)
    else if tries.Some? || !Inner(rs, start) then Some(Ok)
    else None
  }

  /** The result of a fixed mapping. */
  ghost function FixedResult(rs: seq<Region>, addr: int, size: int, canAlloc: bool, tries: Option<nat>): Option<Errno> {
    if canAlloc then UnmapResult(rs, addr, size, tries) else Some(ENOMEM)
  }

  ghost function MapResult(rs: seq<Region>, addr: int, len: int, prot: Prot, how: MapFlags, canAlloc: bool, tries: Option<nat>):
    Option<Errno>
  {
    if BadMapArguments(addr, len, prot, how) then Some(EINVAL)
    else if how.fixed then FixedResult(rs, addr, MapLength(len, how), canAlloc, tries)
    else Some(PlacedResult(rs, MapLength(len, how), canAlloc))
  }

  /** What a mapping needs, in single conditions. */
  lemma MapExactly(rs: seq<Region>, addr: int, len: int, prot: Prot, how: MapFlags, canAlloc: bool, tries: Option<nat>)
    requires 0 <= addr < WRAP && 0 <= len < WRAP
    ensures MapLength(len, how) == if !how.stack then len else if len + 0x1000 < WRAP then len + 0x1000 else len + 0x1000 - WRAP
    ensures var err := MapResult(rs, addr, len, prot, how, canAlloc, tries); err == Some(Ok) ==>
      && len != 0 && how.private != how.shared && canAlloc
      && (how.fixed ==> addr % PAGESZ == 0 && addr <= LIMIT)
      && (how.stack ==> addr % PAGESZ == 0 && len % PAGESZ == 0 && prot.read && prot.write)
    ensures len == 0 || how.private == how.shared || (how.fixed && (addr % PAGESZ != 0 || LIMIT < addr)) ==>
      MapResult(rs, addr, len, prot, how, canAlloc, tries) == Some(EINVAL)
    ensures len != 0 && how.private != how.shared && !how.stack && !how.fixed && canAlloc ==>
      (MapResult(rs, addr, len, prot, how, canAlloc, tries) == Some(Ok) <==> exists b :: Fits(rs, b, len))
    ensures len != 0 && how.private != how.shared && !how.stack && how.fixed && canAlloc && addr % PAGESZ == 0 && addr + len - 1 <= LIMIT ==>
      MapResult(rs, addr, len, prot, how, canAlloc, tries) == (if tries.Some? || !Inner(rs, addr) then Some(Ok) else None)
  {
  }

  /** A fixed range that runs over the end of the 64-bit address space. */
  predicate WrapsAround(addr: int, len: int, how: MapFlags) {
    how.fixed && WRAP < addr + MapLength(len, how)
  }

  lemma FixedBounds(addr: int, size: int)
    requires 0 <= addr <= LIMIT && 0 <= size < WRAP
    ensures addr + size <= WRAP && 0 < size ==> (addr + size - 1) % WRAP == addr + size - 1
    ensures WRAP < addr + size ==> (addr + size - 1) % WRAP == addr + size - 1 - WRAP < addr
    ensures Size(addr, (addr + size - 1) % WRAP) == size
  {
  }

  /** The result of a mapping that is not fixed: the overlap check never fails it. */
  ghost function PlacedResult(rs: seq<Region>, size: int, canAlloc: bool): Errno {
    if size == 0 then EINVAL
    else if NothingFits(rs, size) then ENOMEM
    else if canAlloc then Ok
    else ENOMEM
  }

  ghost predicate NothingFits(rs: seq<Region>, size: int) {
    forall b :: !Fits(rs, b, size)
  }

  /** A 64-bit sum of signed numbers. */
  function Signed(x: int): int {
    if x >= WRAP / 2 then x - WRAP else x
  }

  /** The bounds of a region whose growing edge moves by incr. */
  function NewStart(r: Region, incr: int): int {
    if r.flags.growsdown then r.start - incr else r.start
  }

  function NewEnd(r: Region, incr: int): int {
    if r.flags.growsdown then r.end else r.end + incr
  }

  /** Where the addresses that a growing region takes begin. */
  function GrowthAddress(r: Region, incr: int): int {
    if r.flags.growsdown then (r.start - incr) % WRAP else r.end + 1
  }

  ghost function GrowthResult(rs: seq<Region>, addr: int, incr: int): Errno {
    if addr > LIMIT || Covered(rs, addr) then EINVAL
    else if Fits(rs, addr, incr) then Ok
    else ENOMEM
  }

  ghost function ExpandResult(rs: seq<Region>, r: Region, incr: int, listed: bool): Errno {
    var size := r.end - r.start + 1;
    if incr == 0 then Ok
    else if r.flags.dontexpand then EINVAL
    else if incr < 0 then (if -incr > size then EINVAL else if -incr == size && !listed then ENOENT else Ok)
    else if size + incr < WRAP / 2 then GrowthResult(rs, GrowthAddress(r, incr), incr)
    else EINVAL
  }

  /** The incr addresses beyond the growing edge are free and within the limit. */
  ghost predicate Growable(rs: seq<Region>, r: Region, incr: int) {
    if r.flags.growsdown then incr <= r.start && forall a | r.start - incr <= a < r.start :: !Covered(rs, a)
    else r.end + incr <= LIMIT && forall a | r.end < a <= r.end + incr :: !Covered(rs, a)
  }

  /** A region that may expand grows exactly when there is room beyond its edge, and shrinks by up to its size. */
  lemma ExpandExactly(rs: seq<Region>, r: Region, incr: int, listed: bool)
    requires Ordered(rs) && 0 <= r.start <= r.end <= LIMIT && -WRAP / 2 <= incr < WRAP / 2 && incr != 0
    ensures r.flags.dontexpand ==> ExpandResult(rs, r, incr, listed) == EINVAL
    ensures !r.flags.dontexpand && incr < 0 ==>
      (ExpandResult(rs, r, incr, listed) == EINVAL <==> r.end - r.start + 1 < -incr)
    ensures !r.flags.dontexpand && 0 < incr <= LIMIT ==> (ExpandResult(rs, r, incr, listed) == Ok <==> Growable(rs, r, incr))
    ensures 0 < incr && LIMIT < incr ==> ExpandResult(rs, r, incr, listed) != Ok
  {
    if 0 < incr && !r.flags.dontexpand {
      var lo := if r.flags.growsdown then r.start - incr else r.end + 1;
      if 0 <= lo {
        FreeIffUncovered(rs, lo, lo + incr - 1);
        assert GrowthAddress(r, incr) == lo;
      } else {
        assert GrowthAddress(r, incr) == lo + WRAP;
      }
    }
  }

  /** Region k may take these bounds. */
  ghost predicate MayMove(rs: seq<Region>, k: int, start: int, end: int)
    requires 0 <= k < |rs|
  {
    Ordered(SetBoundsAt(rs, k, start, end)) && Resized(rs, SetBoundsAt(rs, k, start, end), rs[k], start, end)
  }

  /** Moving the bounds of r shows in the list exactly when r is in it. */
  ghost predicate Reshaped(rs: seq<Region>, rs': seq<Region>, listed: bool, r: Region, start: int, end: int) {
    if listed then Resized(rs, rs', r, start, end) else rs' == rs
  }

  /** The growing edge of r moved by incr. */
  ghost predicate Moved(rs: seq<Region>, rs': seq<Region>, listed: bool, r: Region, r': Region, incr: int) {
    && r' == Region(NewStart(r, incr), NewEnd(r, incr), r.flags)
    && Reshaped(rs, rs', listed, r, NewStart(r, incr), NewEnd(r, incr))
  }

  /** A region that may grow downwards does not pass address 0. */
  lemma GrowsDownTo(rs: seq<Region>, r: Region, incr: int)
    requires 0 <= r.start <= LIMIT && 1 <= incr < WRAP / 2 && r.flags.growsdown
    requires GrowthResult(rs, GrowthAddress(r, incr), incr) == Ok
    ensures (r.start - incr) % WRAP == r.start - incr
  {
  }

  /** A region that may grow keeps the order and takes exactly the new addresses. */
  lemma GrowRegion(rs: seq<Region>, k: int, incr: int)
    requires Ordered(rs) && 0 <= k < |rs| && 1 <= incr < WRAP / 2
    requires GrowthResult(rs, GrowthAddress(rs[k], incr), incr) == Ok
    ensures MayMove(rs, k, NewStart(rs[k], incr), NewEnd(rs[k], incr))
  {
    if rs[k].flags.growsdown {
      GrowsDownTo(rs, rs[k], incr);
    }
    ResizeRegion(rs, k, NewStart(rs[k], incr), NewEnd(rs[k], incr));
  }
}
