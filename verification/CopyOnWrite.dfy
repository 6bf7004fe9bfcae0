/** Physical frames, page-table entries and the copy-on-write protocol of src/kernel/arch/x86_64/paging.c and
    src/kernel/arch/pagefault.c, against a machine that copies every page when an address space is forked. */
module CopyOnWrite {

  import opened WordBits

  /** A page of an address space. */
  datatype Key = Key(space: int, page: int)

  /** A frame allocated for a page, named by its number, or a frame of the page cache, named by the page of the file
      that it holds. */
  datatype FrameId = Phys(n: int) | CachePage(filePage: int)

  /** A physical frame: its bytes and its reference count. */
  datatype Frame = Frame(bytes: seq<Byte>, refs: int)

  /** A present entry: the frame, PTE_W and PTE_ALLOC. */
  datatype Pte = Pte(frame: FrameId, writable: bool, alloc: bool)

  type Frames = map<FrameId, Frame>
  type Ptes = map<Key, Pte>

  /** What the page tables of all address spaces say: the entries that name frame f. */
  ghost function Users(ptes: Ptes, f: FrameId): set<Key> {
    set k | k in ptes && ptes[k].frame == f
  }

  ghost predicate Named(frames: Frames, ptes: Ptes) {
    forall k | k in ptes :: ptes[k].frame in frames && (ptes[k].alloc <==> ptes[k].frame.Phys?)
  }

  /** A private frame is counted once for each entry that names it; the page cache holds one reference more. */
  ghost predicate FrameCounted(frames: Frames, ptes: Ptes, f: FrameId)
    requires f in frames
  {
    if f.CachePage? then |Users(ptes, f)| < frames[f].refs else |Users(ptes, f)| == frames[f].refs > 0
  }

  ghost predicate Counted(frames: Frames, ptes: Ptes) {
    Named(frames, ptes) && forall f {:trigger FrameCounted(frames, ptes, f)} | f in frames :: FrameCounted(frames, ptes, f)
  }

  /** A private page that can be written without a fault is not shared. */
  ghost predicate Isolated(frames: Frames, ptes: Ptes)
    requires Named(frames, ptes)
  {
    forall k | k in ptes && ptes[k].writable && ptes[k].alloc :: frames[ptes[k].frame].refs == 1
  }

  ghost predicate Good(frames: Frames, ptes: Ptes) {
    Counted(frames, ptes) && Isolated(frames, ptes)
  }

  // ----- what programs see

  /** A page of its own, or a page of the page cache. */
  datatype Page = Own(bytes: seq<Byte>) | Cached(source: FrameId)

  datatype View = View(pages: map<Key, Page>, objects: map<FrameId, seq<Byte>>)

  ghost function PageOf(frames: Frames, pte: Pte): Page
    requires pte.frame in frames
  {
    if pte.alloc then Own(frames[pte.frame].bytes) else Cached(pte.frame)
  }

  ghost function Objects(frames: Frames): map<FrameId, seq<Byte>> {
    map f | f in frames && f.CachePage? :: frames[f].bytes
  }

  ghost function ViewOf(frames: Frames, ptes: Ptes): View
    requires Named(frames, ptes)
  {
    View(map k | k in ptes :: PageOf(frames, ptes[k]), Objects(frames))
  }

  /** Views are equal when they agree page by page. */
  lemma ViewIs(frames: Frames, ptes: Ptes, v: View)
    requires Named(frames, ptes)
    requires forall k :: k in ptes <==> k in v.pages
    requires forall k | k in ptes :: PageOf(frames, ptes[k]) == v.pages[k]
    requires Objects(frames) == v.objects
    ensures ViewOf(frames, ptes) == v
  {
    assert ViewOf(frames, ptes).pages == v.pages;
  }

  // ----- the machine that copies at once

  ghost predicate Bound(v: View) {
    forall k | k in v.pages && v.pages[k].Cached? :: v.pages[k].source in v.objects
  }

  ghost function BytesAt(v: View, k: Key): seq<Byte>
    requires Bound(v) && k in v.pages
  {
    if v.pages[k].Own? then v.pages[k].bytes else v.objects[v.pages[k].source]
  }

  ghost function WithPage(v: View, k: Key, p: Page): View {
    v.(pages := v.pages[k := p])
  }

  ghost function WithoutPage(v: View, k: Key): View {
    v.(pages := v.pages - {k})
  }

  ghost function WithObject(v: View, f: FrameId, bytes: seq<Byte>): View {
    v.(objects := v.objects[f := bytes])
  }

  ghost function WithByte(v: View, k: Key, off: nat, b: Byte): View
    requires Bound(v) && k in v.pages && off < |BytesAt(v, k)|
  {
    var bytes := BytesAt(v, k)[off := b];
    if v.pages[k].Own? then WithPage(v, k, Own(bytes)) else WithObject(v, v.pages[k].source, bytes)
  }

  // ----- counting

  lemma UsersSet(ptes: Ptes, k: Key, p: Pte, f: FrameId)
    ensures Users(ptes[k := p], f) == if p.frame == f then Users(ptes, f) + {k} else Users(ptes, f) - {k}
  {
  }

  lemma UsersDrop(ptes: Ptes, k: Key, f: FrameId)
    ensures Users(ptes - {k}, f) == Users(ptes, f) - {k}
  {
  }

  /** The only entry that names a frame. */
  lemma OnlyUser(ptes: Ptes, f: FrameId, k: Key, k': Key)
    requires |Users(ptes, f)| == 1 && k in Users(ptes, f) && k' in Users(ptes, f)
    ensures k == k'
  {
    assert |Users(ptes, f) - {k}| == 0;
  }

  /** __page_put. */
  function Put(frames: Frames, f: FrameId): Frames
    requires f in frames
  {
    if frames[f].refs == 1 then frames - {f} else frames[f := frames[f].(refs := frames[f].refs - 1)]
  }

  /** __page_get. */
  function Get(frames: Frames, f: FrameId): Frames
    requires f in frames
  {
    frames[f := frames[f].(refs := frames[f].refs + 1)]
  }

  // ----- the steps, on values

  /** Dropping an entry together with the reference it holds. */
  lemma DropCounted(frames: Frames, ptes: Ptes, k: Key)
    requires Counted(frames, ptes) && k in ptes
    ensures Counted(Put(frames, ptes[k].frame), ptes - {k})
  {
    var f := ptes[k].frame;
    var frames', ptes' := Put(frames, f), ptes - {k};
    assert FrameCounted(frames, ptes, f) && k in Users(ptes, f);
    forall k' | k' in ptes'
      ensures ptes'[k'].frame in frames'
    {
      if ptes[k'].frame == f && frames[f].refs == 1 {
        OnlyUser(ptes, f, k, k');
      }
    }
    forall g | g in frames'
      ensures FrameCounted(frames', ptes', g)
    {
      UsersDrop(ptes, k, g);
      assert FrameCounted(frames, ptes, g);
    }
  }

  lemma DropIsolated(frames: Frames, ptes: Ptes, k: Key)
    requires Good(frames, ptes) && k in ptes
    ensures Good(Put(frames, ptes[k].frame), ptes - {k})
  {
    DropCounted(frames, ptes, k);
    var f := ptes[k].frame;
    forall k' | k' in ptes && k' != k && ptes[k'].writable && ptes[k'].alloc
      ensures ptes[k'].frame != f
    {
      if ptes[k'].frame == f {
        assert FrameCounted(frames, ptes, f);
        OnlyUser(ptes, f, k, k');
      }
    }
  }

  lemma DropView(frames: Frames, ptes: Ptes, k: Key)
    requires Counted(frames, ptes) && k in ptes
    ensures Named(Put(frames, ptes[k].frame), ptes - {k})
    ensures ViewOf(Put(frames, ptes[k].frame), ptes - {k}) == WithoutPage(ViewOf(frames, ptes), k)
  {
    DropCounted(frames, ptes, k);
    var f := ptes[k].frame;
    assert FrameCounted(frames, ptes, f) && k in Users(ptes, f);
    assert Objects(Put(frames, f)) == Objects(frames);
    ViewIs(Put(frames, f), ptes - {k}, WithoutPage(ViewOf(frames, ptes), k));
  }

  /** x86_64_unmap: the reference goes only when the entry says the frame was allocated for it. */
  function Unmapped(frames: Frames, ptes: Ptes, k: Key): Frames
    requires k in ptes && ptes[k].frame in frames
  {
    if ptes[k].alloc then Put(frames, ptes[k].frame) else frames
  }

  lemma UnmapGood(frames: Frames, ptes: Ptes, k: Key)
    requires Good(frames, ptes) && k in ptes
    ensures Good(Unmapped(frames, ptes, k), ptes - {k})
    ensures ViewOf(Unmapped(frames, ptes, k), ptes - {k}) == WithoutPage(ViewOf(frames, ptes), k)
  {
    if ptes[k].alloc {
      DropIsolated(frames, ptes, k);
      DropView(frames, ptes, k);
    } else {
      forall g | g in frames
        ensures FrameCounted(frames, ptes - {k}, g)
      {
        UsersDrop(ptes, k, g);
        assert FrameCounted(frames, ptes, g);
      }
      ViewIs(frames, ptes - {k}, WithoutPage(ViewOf(frames, ptes), k));
    }
  }

  /** A fresh frame for a page that is not present. */
  lemma MapNewGood(frames: Frames, ptes: Ptes, k: Key, f: FrameId, bytes: seq<Byte>, writable: bool)
    requires Good(frames, ptes) && k !in ptes && f.Phys? && f !in frames
    ensures Good(frames[f := Frame(bytes, 1)], ptes[k := Pte(f, writable, true)])
    ensures ViewOf(frames[f := Frame(bytes, 1)], ptes[k := Pte(f, writable, true)])
         == WithPage(ViewOf(frames, ptes), k, Own(bytes))
  {
    var frames', ptes' := frames[f := Frame(bytes, 1)], ptes[k := Pte(f, writable, true)];
    assert Users(ptes, f) == {};
    forall g | g in frames'
      ensures FrameCounted(frames', ptes', g)
    {
      UsersSet(ptes, k, Pte(f, writable, true), g);
      assert g in frames ==> FrameCounted(frames, ptes, g);
    }
    assert Objects(frames') == Objects(frames);
    ViewIs(frames', ptes', WithPage(ViewOf(frames, ptes), k, Own(bytes)));
  }

  /** A page of the page cache for a page that is not present. */
  lemma MapCachedGood(frames: Frames, ptes: Ptes, k: Key, f: FrameId, writable: bool)
    requires Good(frames, ptes) && k !in ptes && f in frames && f.CachePage?
    ensures Good(Get(frames, f), ptes[k := Pte(f, writable, false)])
    ensures ViewOf(Get(frames, f), ptes[k := Pte(f, writable, false)]) == WithPage(ViewOf(frames, ptes), k, Cached(f))
  {
    var frames', ptes' := Get(frames, f), ptes[k := Pte(f, writable, false)];
    forall g | g in frames'
      ensures FrameCounted(frames', ptes', g)
    {
      UsersSet(ptes, k, Pte(f, writable, false), g);
      assert FrameCounted(frames, ptes, g);
    }
    assert Objects(frames') == Objects(frames);
    ViewIs(frames', ptes', WithPage(ViewOf(frames, ptes), k, Cached(f)));
  }

  /** A reference to a page of the page cache that no entry holds. */
  lemma GetCachedGood(frames: Frames, ptes: Ptes, f: FrameId)
    requires Good(frames, ptes) && f in frames && f.CachePage?
    ensures Good(Get(frames, f), ptes) && ViewOf(Get(frames, f), ptes) == ViewOf(frames, ptes)
  {
    forall g | g in frames
      ensures FrameCounted(Get(frames, f), ptes, g)
    {
      assert FrameCounted(frames, ptes, g);
    }
    assert Objects(Get(frames, f)) == Objects(frames);
    ViewIs(Get(frames, f), ptes, ViewOf(frames, ptes));
  }

  /** A page read into the page cache. */
  lemma LoadCachedGood(frames: Frames, ptes: Ptes, f: FrameId, bytes: seq<Byte>)
    requires Good(frames, ptes) && f.CachePage? && f !in frames
    ensures Good(frames[f := Frame(bytes, 1)], ptes)
    ensures ViewOf(frames[f := Frame(bytes, 1)], ptes) == WithObject(ViewOf(frames, ptes), f, bytes)
  {
    var frames' := frames[f := Frame(bytes, 1)];
    assert Users(ptes, f) == {};
    forall g | g in frames'
      ensures FrameCounted(frames', ptes, g)
    {
      assert g in frames ==> FrameCounted(frames, ptes, g);
    }
    assert Objects(frames') == Objects(frames)[f := bytes];
    ViewIs(frames', ptes, WithObject(ViewOf(frames, ptes), f, bytes));
  }

  /** One page of x86_64_lazycpy: k loses PTE_W, d gets the same entry, and the frame one more reference. */
  function Lent(ptes: Ptes, k: Key, d: Key): Ptes
    requires k in ptes
  {
    ptes[k := ptes[k].(writable := false)][d := ptes[k].(writable := false)]
  }

  lemma LendUsers(ptes: Ptes, k: Key, d: Key, f: FrameId)
    requires k in ptes && d !in ptes
    ensures Users(Lent(ptes, k, d), f) == if ptes[k].frame == f then Users(ptes, f) + {d} else Users(ptes, f)
  {
  }

  lemma LendGood(frames: Frames, ptes: Ptes, k: Key, d: Key)
    requires Good(frames, ptes) && k in ptes && d !in ptes
    ensures Good(Get(frames, ptes[k].frame), Lent(ptes, k, d))
  {
    var f := ptes[k].frame;
    var frames', ptes' := Get(frames, f), Lent(ptes, k, d);
    forall g | g in frames'
      ensures FrameCounted(frames', ptes', g)
    {
      LendUsers(ptes, k, d, g);
      assert FrameCounted(frames, ptes, g);
    }
    forall k' | k' in ptes' && ptes'[k'].writable && ptes'[k'].alloc
      ensures frames'[ptes'[k'].frame].refs == 1
    {
      if ptes[k'].frame == f {
        assert FrameCounted(frames, ptes, f);
        OnlyUser(ptes, f, k, k');
      }
    }
  }

  lemma LendView(frames: Frames, ptes: Ptes, k: Key, d: Key)
    requires Named(frames, ptes) && k in ptes && d !in ptes
    ensures Named(Get(frames, ptes[k].frame), Lent(ptes, k, d))
    ensures ViewOf(Get(frames, ptes[k].frame), Lent(ptes, k, d))
         == WithPage(ViewOf(frames, ptes), d, ViewOf(frames, ptes).pages[k])
  {
    assert Objects(Get(frames, ptes[k].frame)) == Objects(frames);
    ViewIs(Get(frames, ptes[k].frame), Lent(ptes, k, d), WithPage(ViewOf(frames, ptes), d, ViewOf(frames, ptes).pages[k]));
  }

  /** Changing PTE_W alone never changes what a program sees, and keeps private pages apart exactly when the page is
      not made writable while its frame is shared. */
  lemma SetWritable(frames: Frames, ptes: Ptes, k: Key, w: bool)
    requires Good(frames, ptes) && k in ptes
    ensures Counted(frames, ptes[k := ptes[k].(writable := w)])
    ensures ViewOf(frames, ptes[k := ptes[k].(writable := w)]) == ViewOf(frames, ptes)
    ensures Isolated(frames, ptes[k := ptes[k].(writable := w)]) <==> !w || !ptes[k].alloc || frames[ptes[k].frame].refs == 1
  {
    var ptes' := ptes[k := ptes[k].(writable := w)];
    forall g | g in frames
      ensures FrameCounted(frames, ptes', g)
    {
      assert Users(ptes', g) == Users(ptes, g);
      assert FrameCounted(frames, ptes, g);
    }
    if w && ptes[k].alloc {
      assert ptes'[k].writable && ptes'[k].alloc;
    }
  }

  /** The frame of entry k after a byte was stored. */
  function Stored(frames: Frames, f: FrameId, off: nat, b: Byte): Frames
    requires f in frames && off < |frames[f].bytes|
  {
    frames[f := frames[f].(bytes := frames[f].bytes[off := b])]
  }

  lemma StoreGood(frames: Frames, ptes: Ptes, k: Key, off: nat, b: Byte)
    requires Good(frames, ptes) && k in ptes && off < |frames[ptes[k].frame].bytes|
    ensures Good(Stored(frames, ptes[k].frame, off, b), ptes)
  {
    forall g | g in frames
      ensures FrameCounted(Stored(frames, ptes[k].frame, off, b), ptes, g)
    {
      assert FrameCounted(frames, ptes, g);
    }
  }

  /** A store that needs no fault changes one private page, or one object of the page cache. */
  lemma StoreView(frames: Frames, ptes: Ptes, k: Key, off: nat, b: Byte)
    requires Good(frames, ptes) && k in ptes && ptes[k].writable && off < |frames[ptes[k].frame].bytes|
    ensures Good(Stored(frames, ptes[k].frame, off, b), ptes)
    ensures ViewOf(Stored(frames, ptes[k].frame, off, b), ptes) == WithByte(ViewOf(frames, ptes), k, off, b)
  {
    StoreGood(frames, ptes, k, off, b);
    var f := ptes[k].frame;
    var frames' := Stored(frames, f, off, b);
    if ptes[k].alloc {
      forall k' | k' in ptes && k' != k
        ensures ptes[k'].frame != f
      {
        if ptes[k'].frame == f {
          assert FrameCounted(frames, ptes, f);
          OnlyUser(ptes, f, k, k');
        }
      }
    }
    assert Objects(frames') == if ptes[k].alloc then Objects(frames) else Objects(frames)[f := frames'[f].bytes];
    ViewIs(frames', ptes, WithByte(ViewOf(frames, ptes), k, off, b));
  }
}
