/** x86_64_lazycpy on real tables and counted frames: what the nested loops of TableCopy do to tables and references is
    what the fork of ForkedMemory does to pages and what programs see. */
module ForkedTables {

  import opened Kernel
  import opened FiniteSets
  import opened Seals
  import opened CopyOnWrite
  import opened PageTables
  import M = ForkedMemory
  import T = TableCopy

  // ----- lending and taking back a list of pages

  function Closed(pte: Pte): Pte {
    pte.(writable := false)
  }

  /** A page of d that was copied from s. */
  ghost predicate CopiedKey(keys: set<Key>, k: Key, s: int, d: int, ps: seq<int>) {
    k.space == d && k.page in ps && Key(s, k.page) in keys
  }

  /** The pages of ps lost PTE_W in s and appear in d. */
  ghost predicate LentPages(old_: Ptes, ptes: Ptes, s: int, d: int, ps: seq<int>) {
    && (forall k :: k in ptes <==> k in old_ || CopiedKey(old_.Keys, k, s, d, ps))
    && (forall k | k in ptes ::
          ptes[k] == if k !in old_ then Closed(old_[Key(s, k.page)])
                     else if k.space == s && k.page in ps then Closed(old_[k]) else old_[k])
  }

  /** Programs see them copied. */
  ghost predicate CopiedPages(v: View, v': View, s: int, d: int, ps: seq<int>) {
    && v'.objects == v.objects
    && (forall k :: k in v'.pages <==> k in v.pages || CopiedKey(v.pages.Keys, k, s, d, ps))
    && (forall k | k in v'.pages :: v'.pages[k] == if k in v.pages then v.pages[k] else v.pages[Key(s, k.page)])
  }

  /** What is kept while pages are lent. */
  ghost predicate Lending(frames0: Frames, ptes0: Ptes, frames: Frames, ptes: Ptes, s: int, d: int, ps: seq<int>) {
    && Named(frames0, ptes0) && Good(frames, ptes)
    && LentPages(ptes0, ptes, s, d, ps) && CopiedPages(ViewOf(frames0, ptes0), ViewOf(frames, ptes), s, d, ps)
  }

  lemma LendStart(frames: Frames, ptes: Ptes, s: int, d: int)
    requires Good(frames, ptes)
    ensures Lending(frames, ptes, frames, ptes, s, d, [])
  {
  }

  lemma LendPage(frames0: Frames, ptes0: Ptes, frames: Frames, ptes: Ptes, s: int, d: int, ps: seq<int>, p: int)
    requires Lending(frames0, ptes0, frames, ptes, s, d, ps) && s != d && M.NoPages(ptes0.Keys, d)
    requires Key(s, p) in ptes0 && p !in ps
    ensures Key(s, p) in ptes && Key(d, p) !in ptes
    ensures ptes[Key(s, p)].frame == ptes0[Key(s, p)].frame && ptes[Key(s, p)].frame in frames
    ensures Lending(frames0, ptes0, Get(frames, ptes[Key(s, p)].frame), Lent(ptes, Key(s, p), Key(d, p)), s, d, ps + [p])
  {
    var k, k' := Key(s, p), Key(d, p);
    LendGood(frames, ptes, k, k');
    LendView(frames, ptes, k, k');
    LentMore(ptes0, ptes, s, d, ps, p);
    CopiedMore(ViewOf(frames0, ptes0), ViewOf(frames, ptes), s, d, ps, p);
  }

  lemma CopiedKeyMore(keys: set<Key>, k: Key, s: int, d: int, ps: seq<int>, p: int)
    requires Key(s, p) in keys
    ensures CopiedKey(keys, k, s, d, ps + [p]) <==> CopiedKey(keys, k, s, d, ps) || k == Key(d, p)
  {
  }

  lemma LentMore(old_: Ptes, ptes: Ptes, s: int, d: int, ps: seq<int>, p: int)
    requires LentPages(old_, ptes, s, d, ps) && s != d && M.NoPages(old_.Keys, d) && Key(s, p) in old_ && p !in ps
    ensures Key(s, p) in ptes && LentPages(old_, Lent(ptes, Key(s, p), Key(d, p)), s, d, ps + [p])
  {
    forall k
      ensures CopiedKey(old_.Keys, k, s, d, ps + [p]) <==> CopiedKey(old_.Keys, k, s, d, ps) || k == Key(d, p)
    {
      CopiedKeyMore(old_.Keys, k, s, d, ps, p);
    }
  }

  lemma CopiedMore(v: View, w: View, s: int, d: int, ps: seq<int>, p: int)
    requires CopiedPages(v, w, s, d, ps) && s != d && M.NoPages(v.pages.Keys, d) && Key(s, p) in v.pages && p !in ps
    ensures Key(s, p) in w.pages && CopiedPages(v, WithPage(w, Key(d, p), w.pages[Key(s, p)]), s, d, ps + [p])
  {
    forall k
      ensures CopiedKey(v.pages.Keys, k, s, d, ps + [p]) <==> CopiedKey(v.pages.Keys, k, s, d, ps) || k == Key(d, p)
    {
      CopiedKeyMore(v.pages.Keys, k, s, d, ps, p);
    }
  }

  predicate GoneKey(k: Key, d: int, gone: seq<int>) {
    k.space == d && k.page in gone
  }

  /** The pages of gone are no longer in d. */
  ghost predicate DroppedPages<T>(old_: map<Key, T>, now: map<Key, T>, d: int, gone: seq<int>) {
    && (forall k :: k in now <==> k in old_ && !GoneKey(k, d, gone))
    && (forall k | k in now :: now[k] == old_[k])
  }

  /** What is kept while pages are given back. */
  ghost predicate GivingBack(frames0: Frames, ptes0: Ptes, frames: Frames, ptes: Ptes, d: int, gone: seq<int>) {
    && Named(frames0, ptes0) && Good(frames, ptes) && DroppedPages(ptes0, ptes, d, gone)
    && DroppedPages(ViewOf(frames0, ptes0).pages, ViewOf(frames, ptes).pages, d, gone)
    && ViewOf(frames, ptes).objects == ViewOf(frames0, ptes0).objects
  }

  lemma GiveStart(frames: Frames, ptes: Ptes, d: int)
    requires Good(frames, ptes)
    ensures GivingBack(frames, ptes, frames, ptes, d, [])
  {
  }

  /** x86_64_unmap of one page of d. */
  lemma GivePage(frames0: Frames, ptes0: Ptes, frames: Frames, ptes: Ptes, d: int, gone: seq<int>, p: int)
    requires GivingBack(frames0, ptes0, frames, ptes, d, gone) && Key(d, p) in ptes
    ensures GivingBack(frames0, ptes0, Unmapped(frames, ptes, Key(d, p)), ptes - {Key(d, p)}, d, gone + [p])
  {
    UnmapGood(frames, ptes, Key(d, p));
    forall k
      ensures GoneKey(k, d, gone + [p]) <==> GoneKey(k, d, gone) || k == Key(d, p)
    {
    }
  }

  /** Entries without PTE_ALLOC go without a reference. */
  lemma {:induction false} GiveRest(frames0: Frames, ptes0: Ptes, frames: Frames, ptes: Ptes, d: int, gone: seq<int>, rest: seq<int>)
    returns (ptes': Ptes)
    requires GivingBack(frames0, ptes0, frames, ptes, d, gone)
    requires forall p | p in rest && Key(d, p) in ptes :: !ptes[Key(d, p)].alloc
    ensures GivingBack(frames0, ptes0, frames, ptes', d, gone + rest)
    decreases |rest|
  {
    if rest == [] {
      assert gone + rest == gone;
      return ptes;
    }
    var p := rest[0];
    assert p in rest;
    assert gone + [p] + rest[1..] == gone + rest;
    if Key(d, p) in ptes {
      GivePage(frames0, ptes0, frames, ptes, d, gone, p);
      ptes' := GiveRest(frames0, ptes0, frames, ptes - {Key(d, p)}, d, gone + [p], rest[1..]);
    } else {
      forall k
        ensures GoneKey(k, d, gone + [p]) <==> GoneKey(k, d, gone) || k == Key(d, p)
      {
      }
      ptes' := GiveRest(frames0, ptes0, frames, ptes, d, gone + [p], rest[1..]);
    }
  }

  /** Giving back all that was lent leaves PTE_W off and is invisible. */
  lemma Undone(frames0: Frames, ptes0: Ptes, frames1: Frames, ptes1: Ptes, frames2: Frames, ptes2: Ptes, s: int, d: int,
               ps: seq<int>, gone: seq<int>)
    requires Lending(frames0, ptes0, frames1, ptes1, s, d, ps) && GivingBack(frames1, ptes1, frames2, ptes2, d, gone)
    requires s != d && M.NoPages(ptes0.Keys, d) && forall p | p in ps :: p in gone
    ensures ptes2.Keys == ptes0.Keys && ViewOf(frames2, ptes2) == ViewOf(frames0, ptes0)
    ensures forall k | k in ptes2 :: ptes2[k] == if k.space == s && k.page in ps then Closed(ptes0[k]) else ptes0[k]
  {
    assert forall k | k in ptes0 :: k.space != d;
    assert forall k :: k in ptes2 <==> k in ptes0;
    assert ViewOf(frames2, ptes2).pages == ViewOf(frames0, ptes0).pages;
  }

  // ----- tables as pages

  predicate UserIndex(ix: Index) {
    ValidIndex(ix) && ix.i4 < USERHALF
  }

  predicate UserNo(p: int) {
    0 <= p < M.USERPAGES
  }

  /** The number of the page at these indices, a few recursive steps away. */
  ghost function PageNo(ix: Index, seal: Seal := SEALED): int {
    match seal
    case Open => AddressOf(ix) / 0x1000
    case Shut(inner) => PageNo(ix, inner)
  }

  ghost function IndexAt(p: int, seal: Seal := SEALED): Index {
    match seal
    case Open => IndexOf(p * 0x1000)
    case Shut(inner) => IndexAt(p, inner)
  }

  lemma PageNoIs(ix: Index)
    ensures PageNo(ix) == AddressOf(ix) / 0x1000
  {
    assert PageNo(ix, Shut(Shut(Open))) == PageNo(ix, Shut(Open)) == PageNo(ix, Open);
  }

  lemma IndexAtIs(p: int)
    ensures IndexAt(p) == IndexOf(p * 0x1000)
  {
    assert IndexAt(p, Shut(Shut(Open))) == IndexAt(p, Shut(Open)) == IndexAt(p, Open);
  }

  /** User pages and their indices are one to one. */
  lemma Numbered(ix: Index)
    requires UserIndex(ix)
    ensures UserNo(PageNo(ix)) && IndexAt(PageNo(ix)) == ix
  {
    PageNoIs(ix);
    var p := ((ix.i4 * 512 + ix.i3) * 512 + ix.i2) * 512 + ix.i1;
    assert AddressOf(ix) == p * 0x1000;
    IndexAtIs(p);
    IndexRoundTrip(ix, 0);
  }

  lemma Indexed(p: int)
    requires UserNo(p)
    ensures UserIndex(IndexAt(p)) && PageNo(IndexAt(p)) == p
  {
    IndexAtIs(p);
    PageNoIs(IndexAt(p));
    AddressRoundTrip(p * 0x1000);
    TopIndex(p * 0x1000);
  }

  lemma TopIndex(addr: int)
    requires 0 <= addr < 0x8000_0000_0000
    ensures IndexOf(addr).i4 < USERHALF
  {
  }

  function FrameOf(e: Entry): FrameId {
    if e.alloc then Phys(e.frame) else CachePage(e.frame)
  }

  function PteOf(e: Entry): Pte {
    Pte(FrameOf(e), e.writable, e.alloc)
  }

  ghost predicate FlatAt(ptes: Ptes, k: Key, e: Entry) {
    (k in ptes <==> e.present) && (e.present ==> ptes[k] == PteOf(e))
  }

  /** The entries of an address space are what its tables translate. */
  ghost predicate Flat(ptes: Ptes, space: int, root: int, tables: Tables) {
    forall ix | UserIndex(ix) :: FlatAt(ptes, Key(space, PageNo(ix)), Lookup(root, tables, ix))
  }

  ghost function PagesOf(ixs: seq<Index>): seq<int> {
    seq(|ixs|, i requires 0 <= i < |ixs| => PageNo(ixs[i]))
  }

  ghost predicate AllUser(ixs: seq<Index>) {
    forall i | 0 <= i < |ixs| :: UserIndex(ixs[i])
  }

  lemma PagesIn(ixs: seq<Index>, p: int)
    requires AllUser(ixs)
    ensures p in PagesOf(ixs) <==> UserNo(p) && IndexAt(p) in ixs
  {
    if p in PagesOf(ixs) {
      var i :| 0 <= i < |ixs| && PagesOf(ixs)[i] == p;
      Numbered(ixs[i]);
    }
    if UserNo(p) && IndexAt(p) in ixs {
      Indexed(p);
      var i :| 0 <= i < |ixs| && ixs[i] == IndexAt(p);
      assert PagesOf(ixs)[i] == p;
    }
  }

  lemma PagesMore(ixs: seq<Index>, i: int)
    requires AllUser(ixs) && NoDup(ixs) && 0 <= i < |ixs|
    ensures PagesOf(ixs[..i + 1]) == PagesOf(ixs[..i]) + [PageNo(ixs[i])] && PageNo(ixs[i]) !in PagesOf(ixs[..i])
  {
    assert ixs[..i + 1] == ixs[..i] + [ixs[i]];
    PagesIn(ixs[..i], PageNo(ixs[i]));
    Numbered(ixs[i]);
  }

  // ----- references

  /** The entries at these indices name these frames. */
  ghost predicate Names(ptes: Ptes, space: int, root: int, tables: Tables, ixs: seq<Index>)
    requires AllUser(ixs)
  {
    forall i | 0 <= i < |ixs| ::
      var k := Key(space, PageNo(ixs[i])); k in ptes && ptes[k].frame == FrameOf(Lookup(root, tables, ixs[i]))
  }

  /** __page_get of every leaf of gets. */
  method GetAll(root: int, tables: Tables, gets: seq<Index>, frames0: Frames, ghost ptes0: Ptes, ghost s: int, ghost d: int)
    returns (frames: Frames, ghost ptes: Ptes)
    requires Good(frames0, ptes0) && s != d && M.NoPages(ptes0.Keys, d)
    requires AllUser(gets) && NoDup(gets) && Names(ptes0, s, root, tables, gets)
    ensures Lending(frames0, ptes0, frames, ptes, s, d, PagesOf(gets))
  {
    frames, ptes := frames0, ptes0;
    LendStart(frames, ptes, s, d);
    assert PagesOf(gets[..0]) == [];
    for i := 0 to |gets|
      invariant Lending(frames0, ptes0, frames, ptes, s, d, PagesOf(gets[..i]))
    {
      ghost var p := PageNo(gets[i]);
      PagesMore(gets, i);
      LendPage(frames0, ptes0, frames, ptes, s, d, PagesOf(gets[..i]), p);
      assert ptes0[Key(s, p)].frame == FrameOf(Lookup(root, tables, gets[i]));
      frames := Get(frames, FrameOf(Lookup(root, tables, gets[i])));
      ptes := Lent(ptes, Key(s, p), Key(d, p));
    }
    assert gets[..|gets|] == gets;
  }

  /** __page_put of every leaf of puts. */
  method PutAll(root: int, tables: Tables, puts: seq<Index>, frames0: Frames, ghost ptes0: Ptes, ghost d: int)
    returns (frames: Frames, ghost ptes: Ptes)
    requires Good(frames0, ptes0)
    requires AllUser(puts) && NoDup(puts) && Names(ptes0, d, root, tables, puts)
    requires forall i | 0 <= i < |puts| :: ptes0[Key(d, PageNo(puts[i]))].alloc
    ensures GivingBack(frames0, ptes0, frames, ptes, d, PagesOf(puts))
  {
    frames, ptes := frames0, ptes0;
    GiveStart(frames, ptes, d);
    assert PagesOf(puts[..0]) == [];
    for i := 0 to |puts|
      invariant GivingBack(frames0, ptes0, frames, ptes, d, PagesOf(puts[..i]))
    {
      ghost var p := PageNo(puts[i]);
      PagesMore(puts, i);
      assert Key(d, p) in ptes0 && ptes0[Key(d, p)].frame == FrameOf(Lookup(root, tables, puts[i]));
      assert !GoneKey(Key(d, p), d, PagesOf(puts[..i]));
      assert Key(d, p) in ptes && ptes[Key(d, p)] == ptes0[Key(d, p)];
      GivePage(frames0, ptes0, frames, ptes, d, PagesOf(puts[..i]), p);
      frames := Put(frames, FrameOf(Lookup(root, tables, puts[i])));
      ptes := ptes - {Key(d, p)};
    }
    assert puts[..|puts|] == puts;
  }

  // ----- fork

  /** Other address spaces keep their entries. */
  ghost predicate Elsewhere(ptes: Ptes, ptes': Ptes, s: int, d: int) {
    forall k: Key | k.space != s && k.space != d :: (k in ptes' <==> k in ptes) && (k in ptes ==> ptes'[k] == ptes[k])
  }

  /** The leaves that were copied are entries of the source. */
  lemma GetsNamed(ptes: Ptes, s: int, rs: int, tables: Tables, tables': Tables, gets: seq<Index>)
    requires Flat(ptes, s, rs, tables) && T.Protected(rs, tables, tables', gets)
    ensures AllUser(gets) && Names(ptes, s, rs, tables', gets)
  {
    forall i | 0 <= i < |gets|
      ensures UserIndex(gets[i]) && FlatAt(ptes, Key(s, PageNo(gets[i])), Lookup(rs, tables, gets[i]))
      ensures Lookup(rs, tables, gets[i]).present
      ensures Lookup(rs, tables', gets[i]) == T.ReadOnly(Lookup(rs, tables, gets[i]))
    {
      assert gets[i] in gets;
    }
  }

  /** The pages that were copied are those below USERPAGES. */
  lemma CopiedIsAll(ptes: Ptes, s: int, d: int, rs: int, tables: Tables, gets: seq<Index>, k: Key)
    requires Flat(ptes, s, rs, tables) && AllUser(gets)
    requires forall ix | T.UserPage(rs, tables, ix) :: ix in gets
    ensures CopiedKey(ptes.Keys, k, s, d, PagesOf(gets)) <==> M.CopyOf(ptes.Keys, k, s, d, M.USERPAGES)
    ensures k in ptes && k.space == s ==> (k.page in PagesOf(gets) <==> 0 <= k.page < M.USERPAGES)
  {
    PagesIn(gets, k.page);
    if UserNo(k.page) && Key(s, k.page) in ptes {
      Indexed(k.page);
      assert FlatAt(ptes, Key(s, PageNo(IndexAt(k.page))), Lookup(rs, tables, IndexAt(k.page)));
      assert T.UserPage(rs, tables, IndexAt(k.page));
    }
  }

  lemma LentIsFork(ptes: Ptes, ptes': Ptes, v: View, v': View, s: int, d: int, rs: int, tables: Tables, gets: seq<Index>)
    requires Flat(ptes, s, rs, tables) && AllUser(gets) && forall ix | T.UserPage(rs, tables, ix) :: ix in gets
    requires LentPages(ptes, ptes', s, d, PagesOf(gets)) && CopiedPages(v, v', s, d, PagesOf(gets)) && v.pages.Keys == ptes.Keys
    ensures M.IsLent(ptes, ptes', s, d, M.USERPAGES) && M.IsFork(v, v', s, d, M.USERPAGES)
  {
    forall k: Key
      ensures CopiedKey(ptes.Keys, k, s, d, PagesOf(gets)) <==> M.CopyOf(ptes.Keys, k, s, d, M.USERPAGES)
      ensures k in ptes && k.space == s ==> (k.page in PagesOf(gets) <==> 0 <= k.page < M.USERPAGES)
    {
      CopiedIsAll(ptes, s, d, rs, tables, gets, k);
    }
  }

  /** The source's tables after the loops say what its entries do. */
  lemma SourceFlat(ptes: Ptes, ptes': Ptes, s: int, rs: int, tables: Tables, tables': Tables, gets: seq<Index>)
    requires Flat(ptes, s, rs, tables) && T.Protected(rs, tables, tables', gets) && AllUser(gets)
    requires forall k: Key | k.space == s :: k in ptes' <==> k in ptes
    requires forall k: Key | k.space == s && k in ptes :: ptes'[k] == if k.page in PagesOf(gets) then Closed(ptes[k]) else ptes[k]
    ensures Flat(ptes', s, rs, tables')
  {
    forall ix | UserIndex(ix)
      ensures FlatAt(ptes', Key(s, PageNo(ix)), Lookup(rs, tables', ix))
    {
      assert FlatAt(ptes, Key(s, PageNo(ix)), Lookup(rs, tables, ix));
      PagesIn(gets, PageNo(ix));
      Numbered(ix);
    }
  }

  /** And so do the destination's. */
  lemma CopyFlat(ptes: Ptes, ptes': Ptes, s: int, d: int, rs: int, tables: Tables, rd: int, tables': Tables, gets: seq<Index>)
    requires Flat(ptes, s, rs, tables) && M.NoPages(ptes.Keys, d) && AllUser(gets)
    requires LentPages(ptes, ptes', s, d, PagesOf(gets)) && T.IsCopy(rs, tables, rd, tables', gets)
    ensures Flat(ptes', d, rd, tables')
  {
    forall ix | UserIndex(ix)
      ensures FlatAt(ptes', Key(d, PageNo(ix)), Lookup(rd, tables', ix))
    {
      assert FlatAt(ptes, Key(s, PageNo(ix)), Lookup(rs, tables, ix));
      PagesIn(gets, PageNo(ix));
      Numbered(ix);
      assert Lookup(rs, tables, ix).present ==> T.UserPage(rs, tables, ix);
      assert Key(d, PageNo(ix)) in ptes' <==> CopiedKey(ptes.Keys, Key(d, PageNo(ix)), s, d, PagesOf(gets));
    }
  }

  /** x86_64_lazycpy with its page references: a success is the fork of the machine with flat pages, and programs see a
      full copy; after a failure programs see what they saw, and the destination is empty. The counts are exact in both
      cases, and the tables say what the entries do. */
  method Fork(src: PageMap, dst: PageMap, s: int, d: int, frames: Frames, ghost ptes: Ptes, avail: nat, noMount: set<Node>)
    returns (err: Errno, frames': Frames, ghost ptes': Ptes)
    requires src != dst && src.Valid() && dst.Valid() && T.OnlyKernel(dst.at)
    requires Good(frames, ptes) && s != d && M.NoPages(ptes.Keys, d) && Flat(ptes, s, src.root, src.tables)
    modifies src`tables, dst
    ensures src.Valid() && dst.Valid() && Good(frames', ptes') && Elsewhere(ptes, ptes', s, d)
    ensures Flat(ptes', s, src.root, src.tables) && Flat(ptes', d, dst.root, dst.tables)
    ensures err == if Root !in noMount && T.Copyable(src.at, avail, noMount) then Ok else ENOMEM
    ensures err == Ok ==> M.IsLent(ptes, ptes', s, d, M.USERPAGES)
    ensures err == Ok ==> M.IsFork(ViewOf(frames, ptes), ViewOf(frames', ptes'), s, d, M.USERPAGES)
    ensures err != Ok ==> ViewOf(frames', ptes') == ViewOf(frames, ptes) && ptes'.Keys == ptes.Keys
  {
    var gets, puts;
    ghost var tables := src.tables;
    err, gets, puts := T.LazyCopy(src, dst, avail, noMount);
    GetsNamed(ptes, s, src.root, tables, src.tables, gets);
    frames', ptes' := GetAll(src.root, src.tables, gets, frames, ptes, s, d);
    if err == Ok {
      LentIsFork(ptes, ptes', ViewOf(frames, ptes), ViewOf(frames', ptes'), s, d, src.root, tables, gets);
      CopyFlat(ptes, ptes', s, d, src.root, tables, dst.root, dst.tables, gets);
    } else {
      frames', ptes' := Unwind(src.root, src.tables, gets, puts, frames, ptes, frames', ptes', s, d);
    }
    SourceFlat(ptes, ptes', s, src.root, tables, src.tables, gets);
  }

  /** The way back: the references of puts go, and every entry of the destination. */
  method Unwind(root: int, tables: Tables, gets: seq<Index>, puts: seq<Index>, ghost frames0: Frames, ghost ptes0: Ptes,
                frames1: Frames, ghost ptes1: Ptes, ghost s: int, ghost d: int)
    returns (frames: Frames, ghost ptes: Ptes)
    requires AllUser(gets) && Lending(frames0, ptes0, frames1, ptes1, s, d, PagesOf(gets)) && s != d && M.NoPages(ptes0.Keys, d)
    requires Names(ptes0, s, root, tables, gets) && T.GivenBack(root, tables, gets, puts)
    requires forall i | 0 <= i < |gets| :: Lookup(root, tables, gets[i]).alloc == ptes0[Key(s, PageNo(gets[i]))].alloc
    ensures Good(frames, ptes) && ptes.Keys == ptes0.Keys && ViewOf(frames, ptes) == ViewOf(frames0, ptes0)
    ensures forall k | k in ptes :: ptes[k] == if k.space == s && k.page in PagesOf(gets) then Closed(ptes0[k]) else ptes0[k]
  {
    forall i | 0 <= i < |puts|
      ensures UserIndex(puts[i])
    {
      assert puts[i] in puts;
    }
    PutsNamed(ptes0, ptes1, s, d, root, tables, gets, puts);
    frames, ptes := PutAll(root, tables, puts, frames1, ptes1, d);
    RestUnallocated(ptes0, ptes1, ptes, s, d, root, tables, gets, puts);
    ptes := GiveRest(frames1, ptes1, frames, ptes, d, PagesOf(puts), PagesOf(gets));
    Undone(frames0, ptes0, frames1, ptes1, frames, ptes, s, d, PagesOf(gets), PagesOf(puts) + PagesOf(gets));
  }

  lemma PutsNamed(ptes0: Ptes, ptes1: Ptes, s: int, d: int, root: int, tables: Tables, gets: seq<Index>, puts: seq<Index>)
    requires AllUser(gets) && AllUser(puts) && LentPages(ptes0, ptes1, s, d, PagesOf(gets)) && M.NoPages(ptes0.Keys, d)
    requires Names(ptes0, s, root, tables, gets) && T.GivenBack(root, tables, gets, puts)
    requires forall i | 0 <= i < |gets| :: Lookup(root, tables, gets[i]).alloc == ptes0[Key(s, PageNo(gets[i]))].alloc
    ensures Names(ptes1, d, root, tables, puts)
    ensures forall i | 0 <= i < |puts| :: ptes1[Key(d, PageNo(puts[i]))].alloc
  {
    forall i | 0 <= i < |puts|
      ensures var k := Key(d, PageNo(puts[i]));
        k in ptes1 && ptes1[k].alloc && ptes1[k].frame == FrameOf(Lookup(root, tables, puts[i]))
    {
      assert puts[i] in puts;
      var j :| 0 <= j < |gets| && gets[j] == puts[i];
      assert PagesOf(gets)[j] == PageNo(puts[i]);
      assert CopiedKey(ptes0.Keys, Key(d, PageNo(puts[i])), s, d, PagesOf(gets));
    }
  }

  /** What is left of the destination has no PTE_ALLOC. */
  lemma RestUnallocated(ptes0: Ptes, ptes1: Ptes, ptes: Ptes, s: int, d: int, root: int, tables: Tables,
                        gets: seq<Index>, puts: seq<Index>)
    requires AllUser(gets) && AllUser(puts) && LentPages(ptes0, ptes1, s, d, PagesOf(gets)) && M.NoPages(ptes0.Keys, d)
    requires Names(ptes0, s, root, tables, gets) && T.GivenBack(root, tables, gets, puts)
    requires forall i | 0 <= i < |gets| :: Lookup(root, tables, gets[i]).alloc == ptes0[Key(s, PageNo(gets[i]))].alloc
    requires DroppedPages(ptes1, ptes, d, PagesOf(puts))
    ensures forall p | p in PagesOf(gets) && Key(d, p) in ptes :: !ptes[Key(d, p)].alloc
  {
    forall p | p in PagesOf(gets) && Key(d, p) in ptes
      ensures !ptes[Key(d, p)].alloc
    {
      PagesIn(gets, p);
      PagesIn(puts, p);
      Indexed(p);
      var j :| 0 <= j < |gets| && gets[j] == IndexAt(p);
      assert !GoneKey(Key(d, p), d, PagesOf(puts)) && gets[j] !in puts;
    }
  }

  // ----- exit

  /** The pages of an address space, listed. */
  lemma {:induction false} ListPages(keys: set<Key>, space: int) returns (ps: seq<int>)
    ensures forall p :: p in ps <==> Key(space, p) in keys && UserNo(p)
    decreases |keys|
  {
    ps := [];
    if k :| k in keys && k.space == space {
      ps := ListPages(keys - {k}, space);
      if UserNo(k.page) {
        ps := ps + [k.page];
      }
    }
  }

  lemma LeavesNamed(ptes: Ptes, space: int, root: int, tables: Tables, leaves: seq<Index>)
    requires Flat(ptes, space, root, tables) && AllUser(leaves)
    requires forall i | 0 <= i < |leaves| :: Allocated(root, tables, leaves[i])
    ensures Names(ptes, space, root, tables, leaves)
    ensures forall i | 0 <= i < |leaves| :: ptes[Key(space, PageNo(leaves[i]))].alloc
  {
    forall i | 0 <= i < |leaves|
      ensures FlatAt(ptes, Key(space, PageNo(leaves[i])), Lookup(root, tables, leaves[i]))
    {
    }
  }

  /** What the leaves with PTE_ALLOC leave over. */
  lemma LeftOver(ptes: Ptes, ptes': Ptes, space: int, root: int, tables: Tables, leaves: seq<Index>, p: int)
    requires Flat(ptes, space, root, tables) && AllUser(leaves) && DroppedPages(ptes, ptes', space, PagesOf(leaves))
    requires forall ix | UserIndex(ix) && Allocated(root, tables, ix) :: ix in leaves
    requires UserNo(p) && Key(space, p) in ptes'
    ensures !ptes'[Key(space, p)].alloc
  {
    PagesIn(leaves, p);
    Indexed(p);
    assert !GoneKey(Key(space, p), space, PagesOf(leaves));
    assert FlatAt(ptes, Key(space, PageNo(IndexAt(p))), Lookup(root, tables, IndexAt(p)));
  }

  /** x86_64_unmap_full with its page references: exactly the user pages of the address space go, the counts stay exact,
      and the tables say what the entries do. */
  method Exit(pm: PageMap, space: int, frames: Frames, ghost ptes: Ptes) returns (frames': Frames, ghost ptes': Ptes)
    requires pm.Valid() && Good(frames, ptes) && Flat(ptes, space, pm.root, pm.tables)
    modifies pm
    ensures pm.Valid() && T.OnlyKernel(pm.at) && Good(frames', ptes') && Flat(ptes', space, pm.root, pm.tables)
    ensures M.IsEmptied(ViewOf(frames, ptes), ViewOf(frames', ptes'), space, M.USERPAGES) && Elsewhere(ptes, ptes', space, space)
  {
    var tables := pm.tables;
    var leaves, freed := pm.UnmapFull();
    forall i | 0 <= i < |leaves|
      ensures UserIndex(leaves[i]) && Allocated(pm.root, tables, leaves[i])
    {
      assert leaves[i] in leaves;
    }
    LeavesNamed(ptes, space, pm.root, tables, leaves);
    frames', ptes' := PutAll(pm.root, tables, leaves, frames, ptes, space);
    ghost var rest := ListPages(ptes.Keys, space);
    forall p | p in rest && Key(space, p) in ptes'
      ensures !ptes'[Key(space, p)].alloc
    {
      LeftOver(ptes, ptes', space, pm.root, tables, leaves, p);
    }
    ptes' := GiveRest(frames, ptes, frames', ptes', space, PagesOf(leaves), rest);
    Emptied(frames, ptes, frames', ptes', space, pm.root, pm.tables, leaves, rest);
  }

  lemma Emptied(frames: Frames, ptes: Ptes, frames': Frames, ptes': Ptes, space: int, root: int, tables: Tables,
                leaves: seq<Index>, rest: seq<int>)
    requires GivingBack(frames, ptes, frames', ptes', space, PagesOf(leaves) + rest) && AllUser(leaves)
    requires forall p :: p in rest <==> Key(space, p) in ptes.Keys && UserNo(p)
    requires T.NoUser(root, tables)
    ensures M.IsEmptied(ViewOf(frames, ptes), ViewOf(frames', ptes'), space, M.USERPAGES) && Elsewhere(ptes, ptes', space, space)
    ensures Flat(ptes', space, root, tables)
  {
    forall k | k in ptes
      ensures GoneKey(k, space, PagesOf(leaves) + rest) <==> k.space == space && 0 <= k.page < M.USERPAGES
    {
      PagesIn(leaves, k.page);
    }
    forall ix | UserIndex(ix)
      ensures Key(space, PageNo(ix)) !in ptes'
    {
      Numbered(ix);
    }
  }
}
