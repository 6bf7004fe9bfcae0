/** The memory of forked address spaces: x86_64_lazycpy, x86_64_unmap_full and the page-fault handler at work on
    shared frames. Every method says what it does to the view of the machine that copies at once. */
module ForkedMemory {

  import opened Kernel
  import opened WordBits
  import opened CopyOnWrite
  import opened FiniteSets
  import opened Seals

  /** The pages below USTACK: 256 top-level entries of 512 * 512 * 512 pages. */
  const USERPAGES: int := 0x8_0000_0000

  /** What a page holds when it is first touched: bytes of its own, or a page of a file in the page cache. */
  datatype Source = Fill(bytes: seq<Byte>) | PageCache(filePage: int, bytes: seq<Byte>)

  /** The region that holds a page, and whether the file behind it is empty. */
  datatype Region = Region(read: bool, write: bool, exec: bool, shared: bool, source: Source, emptyFile: bool)

  /** What the frame allocator, the page tables on the way to a new entry, the temporary mount of a page, __page_put and
      the file system answer. */
  datatype Env = Env(canAlloc: bool, canMap: bool, canMount: bool, canPut: bool, canRead: bool)

  ghost predicate Sized(frames: Frames) {
    forall f | f in frames :: |frames[f].bytes| == PAGESZ
  }

  // ----- forks of a view

  /** The pages of src below n also appear in dst. */
  ghost predicate IsFork(v: View, v': View, src: int, dst: int, n: int) {
    && v'.objects == v.objects
    && (forall k :: k in v'.pages <==> k in v.pages || CopyOf(v.pages.Keys, k, src, dst, n))
    && (forall k | k in v'.pages :: v'.pages[k] == if k in v.pages then v.pages[k] else v.pages[Key(src, k.page)])
  }

  ghost predicate CopyOf(keys: set<Key>, k: Key, src: int, dst: int, n: int) {
    k.space == dst && 0 <= k.page < n && Key(src, k.page) in keys
  }

  /** The pages of space below n are gone. */
  ghost predicate IsEmptied(v: View, v': View, space: int, n: int) {
    && v'.objects == v.objects
    && (forall k :: k in v'.pages <==> k in v.pages && !(k.space == space && 0 <= k.page < n))
    && (forall k | k in v'.pages :: v'.pages[k] == v.pages[k])
  }

  predicate NoPages(keys: set<Key>, space: int) {
    forall k | k in keys :: k.space != space
  }

  lemma ForkStep(v: View, w: View, src: int, dst: int, p: int)
    requires IsFork(v, w, src, dst, p) && 0 <= p && src != dst && NoPages(v.pages.Keys, dst)
    ensures Key(src, p) in w.pages <==> Key(src, p) in v.pages
    ensures Key(dst, p) !in w.pages
    ensures Key(src, p) in w.pages ==> IsFork(v, WithPage(w, Key(dst, p), w.pages[Key(src, p)]), src, dst, p + 1)
    ensures Key(src, p) !in w.pages ==> IsFork(v, w, src, dst, p + 1)
  {
    forall k
      ensures CopyOf(v.pages.Keys, k, src, dst, p + 1) <==>
        CopyOf(v.pages.Keys, k, src, dst, p) || (k == Key(dst, p) && Key(src, p) in v.pages)
    {
    }
  }

  lemma EmptyStep(v: View, w: View, space: int, p: int)
    requires IsEmptied(v, w, space, p) && 0 <= p
    ensures IsEmptied(v, WithoutPage(w, Key(space, p)), space, p + 1)
  {
  }

  /** Emptying a fork undoes it. */
  lemma ForkUndone(v: View, w: View, v': View, src: int, dst: int, n: int, m: int)
    requires IsFork(v, w, src, dst, n) && NoPages(v.pages.Keys, dst) && src != dst
    requires IsEmptied(w, v', dst, m) && n <= m
    ensures v' == v
  {
    assert v'.pages == v.pages;
  }

  // ----- page faults of a view

  ghost function FaultedIn(v: View, k: Key, source: Source): View {
    match source
    case Fill(bytes) => WithPage(v, k, Own(bytes))
    case PageCache(o, bytes) =>
      var f := CachePage(o);
      WithPage(if f in v.objects then v else WithObject(v, f, bytes), k, Cached(f))
  }

  /** The view when the entry for a page of a file finds no table: the page is in the page cache all the same. */
  ghost function CachedIn(v: View, source: Source, env: Env): View {
    match source
    case Fill(_) => v
    case PageCache(o, bytes) =>
      if !env.canMap && env.canRead && CachePage(o) !in v.objects then WithObject(v, CachePage(o), bytes) else v
  }

  /** The page with its own copy of the bytes it shows. */
  ghost function Detached(v: View, k: Key): View
    requires Bound(v) && k in v.pages
  {
    WithPage(v, k, Own(BytesAt(v, k)))
  }

  lemma OwnDetached(v: View, k: Key)
    requires Bound(v) && k in v.pages && v.pages[k].Own?
    ensures Detached(v, k) == v
  {
    assert v.pages[k := v.pages[k]] == v.pages;
  }

  /** The view once page k is there. */
  ghost function Touched(v: View, k: Key, region: Region): View {
    if k in v.pages then v else FaultedIn(v, k, region.source)
  }

  ghost predicate EagerLoad(v: View, v': View, k: Key, off: nat, region: Region, b: Byte) {
    && v' == Touched(v, k, region)
    && Bound(v') && k in v'.pages && off < |BytesAt(v', k)| && b == BytesAt(v', k)[off]
  }

  /** The store goes to the page itself or to its object in the page cache; a private region may take a copy of the
      object first. */
  ghost predicate EagerStore(v: View, v': View, k: Key, off: nat, b: Byte, region: Region) {
    var w := Touched(v, k, region);
    && Bound(w) && k in w.pages && off < |BytesAt(w, k)|
    && (|| v' == WithByte(w, k, off, b)
        || (w.pages[k].Cached? && !region.shared && v' == WithByte(Detached(w, k), k, off, b)))
  }

  lemma StoredEagerly(v: View, w: View, k: Key, off: nat, b: Byte, region: Region)
    requires Bound(v) && Bound(w) && k in w.pages && off < |BytesAt(w, k)|
    requires w == Touched(v, k, region) || (k in v.pages && !region.shared && w == Detached(v, k))
    ensures EagerStore(v, WithByte(w, k, off, b), k, off, b, region)
  {
    if k in v.pages && v.pages[k].Own? {
      OwnDetached(v, k);
    }
  }

  ghost predicate EagerFork(v: View, v': View, src: int, dst: int) {
    src != dst && NoPages(v.pages.Keys, dst) && IsFork(v, v', src, dst, USERPAGES)
  }

  /** The pages that x86_64_mprotect of n pages from page on goes over. */
  predicate Covers(space: int, page: int, n: int, k: Key) {
    k.space == space && page <= k.page < page + n
  }

  /** A page gets PTE_W while its frame is shared. */
  predicate MakesSharedWritable(frames: Frames, ptes: Ptes, space: int, page: int, n: int, w: bool) {
    w && exists k | k in ptes :: Covers(space, page, n, k) && SharedAt(frames, ptes, k)
  }

  predicate SharedAt(frames: Frames, ptes: Ptes, k: Key)
    requires k in ptes
  {
    ptes[k].alloc && ptes[k].frame in frames && frames[ptes[k].frame].refs != 1
  }

  /** Address 0 is refused, and so are flags without PTE_P. */
  function ProtectResult(page: int, n: int, present: bool): Errno {
    if !present || (page == 0 && 0 < n) then EINVAL else Ok
  }

  /** What programs and the kernel do to memory, with the region of the page and what the environment will answer. */
  datatype Op =
    | LoadOp(key: Key, off: int, region: Region, env: Env)
    | StoreOp(key: Key, off: int, byte: Byte, region: Region, env: Env)
    | ForkOp(src: int, failAt: int)
    | UnmapOp(key: Key)
    | ExitOp(space: int)
    | ProtectOp(space: int, page: int, n: int, present: bool, writable: bool)

  datatype Outcome = Loaded(byte: Byte) | Done | Forked(dst: int) | Failed(err: Errno)

  predicate InRange(op: Op) {
    match op
    case LoadOp(_, off, region, _) => |region.source.bytes| == PAGESZ && 0 <= off < PAGESZ
    case StoreOp(_, off, _, region, _) => |region.source.bytes| == PAGESZ && 0 <= off < PAGESZ
    case ProtectOp(_, page, n, _, _) => 0 <= page && 0 <= n
    case _ => true
  }

  /** The step makes a shared frame writable. */
  predicate Exposes(frames: Frames, ptes: Ptes, op: Op) {
    && op.ProtectOp? && ProtectResult(op.page, op.n, op.present) == Ok
    && MakesSharedWritable(frames, ptes, op.space, op.page, op.n, op.writable)
  }

  /** One step of the machine that copies at once, and when it fails. */
  ghost predicate EagerStep(v: View, op: Op, out: Outcome, v': View)
    requires InRange(op)
  {
    match op
    case LoadOp(k, off, region, env) =>
      if LoadResult(v, k, region, env) == Ok then out.Loaded? && EagerLoad(v, v', k, off, region, out.byte)
      else out == Failed(LoadResult(v, k, region, env)) && v' == if Loadable(region) then CachedIn(v, region.source, env) else v
    case StoreOp(k, off, b, region, env) =>
      if out == Done then (k in v.pages || TouchResult(v, region, env) == Ok) && EagerStore(v, v', k, off, b, region)
      else out.Failed? && StoreRefused(v, k, off, region, env, out.err) && v' == FailedStore(v, k, region, env)
    case ForkOp(src, failAt) =>
      if 0 <= failAt < USERPAGES then out == Failed(ENOMEM) && v' == v
      else out.Forked? && EagerFork(v, v', src, out.dst)
    case UnmapOp(k) => out == Done && v' == WithoutPage(v, k)
    case ExitOp(space) => out == Done && IsEmptied(v, v', space, USERPAGES)
    case ProtectOp(_, page, n, present, _) =>
      v' == v && out == if ProtectResult(page, n, present) == Ok then Done else Failed(ProtectResult(page, n, present))
  }

  /** Where an entry was made writable while its frame is shared, a store shows up on another page. */
  lemma SharedStoreLeaks(frames: Frames, ptes: Ptes, k: Key, off: nat, b: Byte) returns (k': Key)
    requires Counted(frames, ptes) && Sized(frames) && k in ptes && SharedAt(frames, ptes, k)
    requires off < PAGESZ && b != frames[ptes[k].frame].bytes[off]
    ensures k' in ptes && k' != k && Named(Stored(frames, ptes[k].frame, off, b), ptes)
    ensures ViewOf(Stored(frames, ptes[k].frame, off, b), ptes).pages[k'] != ViewOf(frames, ptes).pages[k']
  {
    var f := ptes[k].frame;
    assert FrameCounted(frames, ptes, f) && k in Users(ptes, f);
    assert |Users(ptes, f) - {k}| > 0;
    k' :| k' in Users(ptes, f) - {k};
    var frames' := Stored(frames, f, off, b);
    assert frames'[f].bytes[off] != frames[f].bytes[off];
  }

  /** The result of a fault on a page that is not present. */
  ghost function PageInResult(v: View, source: Source, env: Env): Errno {
    match source
    case Fill(_) => if !env.canAlloc || !env.canMap then ENOMEM else if !env.canRead then EIO else Ok
    case PageCache(o, _) =>
      if CachePage(o) !in v.objects && !env.canRead then EIO else if !env.canMap then ENOMEM else Ok
  }

  /** A load may bring a page in. */
  predicate Loadable(region: Region) {
    (region.read || region.exec) && !region.emptyFile
  }

  ghost function LoadResult(v: View, k: Key, region: Region, env: Env): Errno {
    if k in v.pages then Ok
    else if !region.read && !region.exec then EACCES
    else if region.emptyFile then EFAULT
    else PageInResult(v, region.source, env)
  }

  /** The result of a store to a page that is not present. */
  ghost function TouchResult(v: View, region: Region, env: Env): Errno {
    if !region.write then EACCES else PageInResult(v, region.source, env)
  }

  /** The result of copy_page_on_write. */
  function CopyResult(env: Env): Errno {
    if !env.canAlloc || !env.canMount then ENOMEM else if !env.canPut then EINVAL else Ok
  }

  /** Where a store to a page without PTE_W is never made good: in a shared region, and at address 0, whose entry the
      fault handler does not find. */
  predicate NoCopy(k: Key, off: int, region: Region) {
    region.shared || (k.page == 0 && off == 0)
  }

  /** Why the machine that copies at once may refuse a store: the region forbids it, the page cannot be brought in, the
      page is there and the region shared or the address 0, or there is no room for a copy. */
  ghost predicate StoreRefused(v: View, k: Key, off: int, region: Region, env: Env, err: Errno) {
    if k !in v.pages then err == TouchResult(v, region, env) != Ok
    else if !region.write then err == EACCES
    else if NoCopy(k, off, region) then err == EFAULT
    else err == CopyResult(env) != Ok
  }

  /** A store through a writable entry always succeeds. Otherwise the region must be writable, a shared region and address
      0 keep the write protection that a fork gave them, and a private page needs memory only while its frame is shared. */
  ghost function StoreResult(frames: Frames, ptes: Ptes, k: Key, off: int, region: Region, env: Env): Errno
    requires Named(frames, ptes)
  {
    if k !in ptes then TouchResult(ViewOf(frames, ptes), region, env)
    else if ptes[k].writable then Ok
    else if !region.write then EACCES
    else if NoCopy(k, off, region) then EFAULT
    else if frames[ptes[k].frame].refs == 1 then Ok
    else CopyResult(env)
  }

  function StoreOutcome(err: Errno): Outcome {
    if err == Ok then Done else Failed(err)
  }

  /** PTE_W is gone from the entries of src below n. */
  function Guarded(pte: Pte, k: Key, src: int, n: int): Pte {
    if k.space == src && 0 <= k.page < n then pte.(writable := false) else pte
  }

  ghost predicate IsGuarded(old_: Ptes, ptes: Ptes, src: int, n: int) {
    && (forall k :: k in ptes <==> k in old_)
    && (forall k | k in ptes :: ptes[k] == Guarded(old_[k], k, src, n))
  }

  /** The entries of src below n are also entries of dst, and none of the two has PTE_W. */
  ghost predicate IsLent(old_: Ptes, ptes: Ptes, src: int, dst: int, n: int) {
    && (forall k :: k in ptes <==> k in old_ || CopyOf(old_.Keys, k, src, dst, n))
    && (forall k | k in ptes ::
          ptes[k] == if k in old_ then Guarded(old_[k], k, src, n) else old_[Key(src, k.page)].(writable := false))
  }

  /** A fork takes PTE_W from every user page of both sides. */
  lemma ForkCloses(old_: Ptes, ptes: Ptes, src: int, dst: int, page: int)
    requires IsLent(old_, ptes, src, dst, USERPAGES) && NoPages(old_.Keys, dst) && 0 <= page < USERPAGES
    requires Key(src, page) in old_
    ensures Closed(ptes, Key(src, page)) && Closed(ptes, Key(dst, page))
    ensures ptes[Key(src, page)] == ptes[Key(dst, page)] == old_[Key(src, page)].(writable := false)
  {
    assert CopyOf(old_.Keys, Key(dst, page), src, dst, USERPAGES);
  }

  /** The step makes an entry without PTE_W writable, or takes it away. */
  predicate Reopens(op: Op, out: Outcome, k: Key) {
    match op
    case StoreOp(k', _, _, _, _) => k' == k && out == Done
    case UnmapOp(k') => k' == k
    case ExitOp(space) => k.space == space && 0 <= k.page < USERPAGES
    case ProtectOp(space, page, n, _, w) => Covers(space, page, n, k) && w && out == Done
    case _ => false
  }

  /** An entry that is still there and still without PTE_W. */
  predicate Closed(ptes: Ptes, k: Key) {
    k in ptes && !ptes[k].writable
  }

  /** Entries without PTE_W stay what they are exactly when the step does not reopen them. */
  ghost predicate Reopened(old_: Ptes, ptes: Ptes, op: Op, out: Outcome) {
    forall k | Closed(old_, k) :: Closed(ptes, k) <==> !Reopens(op, out, k)
  }

  ghost predicate Kept(old_: Ptes, ptes: Ptes) {
    forall k | k in old_ :: k in ptes && ptes[k] == old_[k]
  }

  /** The entries that x86_64_mprotect leaves. */
  ghost predicate IsProtected(old_: Ptes, ptes: Ptes, space: int, page: int, n: int, w: bool) {
    && (forall k :: k in ptes <==> k in old_)
    && (forall k | k in ptes :: ptes[k] == if Covers(space, page, n, k) then old_[k].(writable := w) else old_[k])
  }

  /** Protection is invisible, keeps the counts, and keeps private pages apart exactly when it does not make an entry
      writable while the frame is shared. */
  lemma ProtectKeeps(frames: Frames, ptes: Ptes, ptes': Ptes, space: int, page: int, n: int, w: bool)
    requires Good(frames, ptes) && IsProtected(ptes, ptes', space, page, n, w)
    ensures Counted(frames, ptes') && ViewOf(frames, ptes') == ViewOf(frames, ptes)
    ensures Isolated(frames, ptes') <==> !MakesSharedWritable(frames, ptes, space, page, n, w)
  {
    forall f | f in frames
      ensures FrameCounted(frames, ptes', f)
    {
      assert Users(ptes', f) == Users(ptes, f);
      assert FrameCounted(frames, ptes, f);
    }
    ViewIs(frames, ptes', ViewOf(frames, ptes));
    if MakesSharedWritable(frames, ptes, space, page, n, w) {
      var k :| k in ptes && Covers(space, page, n, k) && SharedAt(frames, ptes, k);
      assert ptes'[k].writable && ptes'[k].alloc && frames[ptes'[k].frame].refs != 1;
    }
  }

  /** What page tables do not account for of a frame's references. */
  ghost function Surplus(frames: Frames, ptes: Ptes, f: FrameId): int
    requires f in frames
  {
    frames[f].refs - |Users(ptes, f)|
  }

  /** No page of the page cache among the pages of src below n. */
  ghost predicate OnlyOwn(ptes: Ptes, src: int, n: int) {
    forall p | 0 <= p < n && Key(src, p) in ptes :: ptes[Key(src, p)].alloc
  }

  /** The frames of two memories, but for reference counts. */
  ghost predicate SameFrames(frames: Frames, frames': Frames) {
    frames'.Keys == frames.Keys && forall f | f in frames :: frames'[f].bytes == frames[f].bytes
  }

  /** A private frame is there exactly while an entry names it, with the bytes that the entry shows. */
  lemma OwnFrame(frames: Frames, ptes: Ptes, f: FrameId) returns (k: Key)
    requires Counted(frames, ptes) && f in frames && f.Phys?
    ensures k in ptes && ptes[k].frame == f && ViewOf(frames, ptes).pages[k] == Own(frames[f].bytes)
  {
    assert FrameCounted(frames, ptes, f);
    assert Users(ptes, f) != {};
    k :| k in Users(ptes, f);
  }

  /** Memories with the same entries, up to PTE_W, and the same view have the same private frames. */
  lemma OwnFramesFixed(frames: Frames, ptes: Ptes, frames': Frames, ptes': Ptes, f: FrameId)
    requires Counted(frames, ptes) && Counted(frames', ptes') && ViewOf(frames, ptes) == ViewOf(frames', ptes')
    requires ptes.Keys == ptes'.Keys && forall k | k in ptes :: ptes[k].frame == ptes'[k].frame
    requires f in frames && f.Phys?
    ensures f in frames' && frames'[f] == frames[f]
  {
    var k := OwnFrame(frames, ptes, f);
    assert PageOf(frames', ptes'[k]) == PageOf(frames, ptes[k]);
    assert Users(ptes, f) == Users(ptes', f);
    assert FrameCounted(frames, ptes, f) && FrameCounted(frames', ptes', f);
  }

  /** A lent frame has more users exactly when an entry of src below n names it. */
  lemma LentUsers(ptes: Ptes, ptes': Ptes, src: int, dst: int, n: int, f: FrameId)
    requires IsLent(ptes, ptes', src, dst, n) && NoPages(ptes.Keys, dst) && src != dst
    ensures |Users(ptes', f)| >= |Users(ptes, f)|
    ensures |Users(ptes', f)| == |Users(ptes, f)| <==>
      forall p | 0 <= p < n && Key(src, p) in ptes :: ptes[Key(src, p)].frame != f
  {
    var users, users' := Users(ptes, f), Users(ptes', f);
    forall k | k in users
      ensures k in users'
    {
    }
    SubsetSize(users, users');
    if p :| 0 <= p < n && Key(src, p) in ptes && ptes[Key(src, p)].frame == f {
      assert CopyOf(ptes.Keys, Key(dst, p), src, dst, n);
      assert ptes'[Key(dst, p)].frame == f;
      assert Key(dst, p) in users' && Key(dst, p) !in users;
    } else {
      forall k | k in users'
        ensures k in users
      {
      }
      assert users' == users;
    }
  }

  lemma LentStep(ptes: Ptes, ptes': Ptes, src: int, dst: int, p: int)
    requires IsLent(ptes, ptes', src, dst, p) && 0 <= p && src != dst && NoPages(ptes.Keys, dst)
    ensures Key(src, p) in ptes' <==> Key(src, p) in ptes
    ensures Key(dst, p) !in ptes'
    ensures Key(src, p) in ptes' ==> IsLent(ptes, Lent(ptes', Key(src, p), Key(dst, p)), src, dst, p + 1)
    ensures Key(src, p) !in ptes' ==> IsLent(ptes, ptes', src, dst, p + 1)
  {
    forall k
      ensures CopyOf(ptes.Keys, k, src, dst, p + 1) <==>
        CopyOf(ptes.Keys, k, src, dst, p) || (k == Key(dst, p) && Key(src, p) in ptes)
    {
    }
  }

  lemma ForkGuards(ptes: Ptes, ptes1: Ptes, ptes2: Ptes, src: int, dst: int, n: int)
    requires IsLent(ptes, ptes1, src, dst, n) && NoPages(ptes.Keys, dst) && src != dst && n <= USERPAGES
    requires forall k :: k in ptes2 <==> k in ptes1 && !(k.space == dst && 0 <= k.page < USERPAGES)
    requires forall k | k in ptes2 :: ptes2[k] == ptes1[k]
    ensures IsGuarded(ptes, ptes2, src, n) && ptes2.Keys == ptes.Keys
  {
  }

  lemma FramesFixed(frames: Frames, ptes: Ptes, frames': Frames, ptes': Ptes)
    requires Counted(frames, ptes) && Counted(frames', ptes') && ViewOf(frames, ptes) == ViewOf(frames', ptes')
    requires ptes.Keys == ptes'.Keys && forall k | k in ptes :: ptes[k].frame == ptes'[k].frame
    ensures forall f :: f in frames' <==> f in frames
    ensures forall f | f in frames && f.Phys? :: frames'[f] == frames[f]
  {
    forall f
      ensures f in frames' <==> f in frames
      ensures f in frames && f.Phys? ==> frames'[f] == frames[f]
    {
      if f in frames && f.Phys? {
        OwnFramesFixed(frames, ptes, frames', ptes', f);
      } else if f in frames' && f.Phys? {
        OwnFramesFixed(frames', ptes', frames, ptes, f);
      } else {
        assert f in Objects(frames) <==> f in Objects(frames');
      }
    }
  }

  /** After a failed fork every frame is as before exactly when no page of the page cache had been copied: the entries
      of those lack PTE_ALLOC, so that unmapping them keeps the reference that copying took. */
  lemma FailedForkBalance(frames: Frames, ptes: Ptes, frames1: Frames, ptes1: Ptes, frames2: Frames, ptes2: Ptes,
                          src: int, dst: int, n: int)
    requires Counted(frames, ptes) && Counted(frames2, ptes2) && ViewOf(frames2, ptes2) == ViewOf(frames, ptes)
    requires IsLent(ptes, ptes1, src, dst, n) && NoPages(ptes.Keys, dst) && src != dst && n <= USERPAGES
    requires SameFrames(frames, frames1)
    requires forall f | f in frames1 :: Surplus(frames1, ptes1, f) == Surplus(frames, ptes, f)
    requires forall k :: k in ptes2 <==> k in ptes1 && !(k.space == dst && 0 <= k.page < USERPAGES)
    requires forall k | k in ptes2 :: ptes2[k] == ptes1[k]
    requires forall f | f in frames1 && f.CachePage? :: f in frames2 && frames2[f] == frames1[f]
    ensures IsGuarded(ptes, ptes2, src, n)
    ensures frames2 == frames <==> OnlyOwn(ptes, src, n)
  {
    ForkGuards(ptes, ptes1, ptes2, src, dst, n);
    FramesFixed(frames, ptes, frames2, ptes2);
    forall f | f in frames && f.CachePage?
      ensures frames2[f] == frames[f] <==> forall p | 0 <= p < n && Key(src, p) in ptes :: ptes[Key(src, p)].frame != f
    {
      LentUsers(ptes, ptes1, src, dst, n, f);
      assert Surplus(frames1, ptes1, f) == Surplus(frames, ptes, f);
    }
    if OnlyOwn(ptes, src, n) {
      assert frames2 == frames;
    }
  }

  lemma PageReplaced(v: View, k: Key, p: Page)
    ensures WithPage(WithoutPage(v, k), k, p) == WithPage(v, k, p)
    ensures k !in v.pages ==> WithoutPage(WithPage(v, k, p), k) == v
  {
    assert (v.pages - {k})[k := p] == v.pages[k := p];
    assert k !in v.pages ==> v.pages[k := p] - {k} == v.pages;
  }

  /** The frames after copy_page_on_write moved entry k to frame f. */
  ghost function Copied(frames: Frames, ptes: Ptes, k: Key, f: FrameId): Frames
    requires k in ptes && ptes[k].frame in frames
  {
    Put(frames, ptes[k].frame)[f := Frame(frames[ptes[k].frame].bytes, 1)]
  }

  /** Remapping and then dropping the old reference gives those frames, and dropping the new frame undoes the remap. */
  lemma CopySteps(frames: Frames, ptes: Ptes, k: Key, f: FrameId)
    requires k in ptes && ptes[k].frame in frames && f.Phys? && f !in frames
    ensures Put(frames[f := Frame(frames[ptes[k].frame].bytes, 1)], ptes[k].frame) == Copied(frames, ptes, k, f)
    ensures Put(frames[f := Frame(frames[ptes[k].frame].bytes, 1)], f) == frames
    ensures ptes[k := Pte(f, true, true)][k := ptes[k]] == ptes
  {
  }

  lemma CopyGood(frames: Frames, ptes: Ptes, k: Key, f: FrameId)
    requires Good(frames, ptes) && k in ptes && f.Phys? && f !in frames
    ensures Good(Copied(frames, ptes, k, f), ptes[k := Pte(f, true, true)])
    ensures ViewOf(Copied(frames, ptes, k, f), ptes[k := Pte(f, true, true)]) == Detached(ViewOf(frames, ptes), k)
  {
    var frames', ptes' := Put(frames, ptes[k].frame), ptes - {k};
    DropIsolated(frames, ptes, k);
    DropView(frames, ptes, k);
    RemapGood(frames', ptes', ViewOf(frames, ptes), k, f, frames[ptes[k].frame].bytes);
    assert ptes'[k := Pte(f, true, true)] == ptes[k := Pte(f, true, true)];
  }

  lemma RemapGood(frames: Frames, ptes: Ptes, v: View, k: Key, f: FrameId, bytes: seq<Byte>)
    requires Good(frames, ptes) && k !in ptes && f.Phys? && f !in frames && ViewOf(frames, ptes) == WithoutPage(v, k)
    ensures Good(frames[f := Frame(bytes, 1)], ptes[k := Pte(f, true, true)])
    ensures ViewOf(frames[f := Frame(bytes, 1)], ptes[k := Pte(f, true, true)]) == WithPage(v, k, Own(bytes))
  {
    MapNewGood(frames, ptes, k, f, bytes, true);
    PageReplaced(v, k, Own(bytes));
  }

  // ----- what failures lose

  /** The frames once a page of a file is in the page cache. */
  function Filled(frames: Frames, f: FrameId, bytes: seq<Byte>): Frames {
    if f in frames then frames else frames[f := Frame(bytes, 1)]
  }

  /** The frames after a page could not be brought in: when only the tables are wanting, a page of a file keeps the
      reference that was taken for the entry. */
  ghost function FailedFrames(frames: Frames, source: Source, env: Env): Frames {
    match source
    case Fill(_) => frames
    case PageCache(o, bytes) =>
      var f := CachePage(o);
      if !env.canMap && (f in frames || env.canRead) then Get(Filled(frames, f, bytes), f) else frames
  }

  /** And a frame that was taken for the page is lost. */
  predicate LosesFrame(source: Source, env: Env) {
    source.Fill? && env.canAlloc && !env.canMap
  }

  ghost predicate LostOne(frames: Frames, lost: set<FrameId>, lost': set<FrameId>) {
    exists f :: f !in lost && f !in frames && lost' == lost + {f}
  }

  /** Lost frames are taken, and no entry will ever name them. */
  ghost predicate Apart(frames: Frames, lost: set<FrameId>) {
    forall f | f in lost :: f.Phys? && f !in frames
  }

  // ----- runs

  /** Frames, entries, and the frames that were lost. */
  datatype Mem = Mem(frames: Frames, ptes: Ptes, lost: set<FrameId>)

  ghost predicate Fine(m: Mem) {
    Good(m.frames, m.ptes) && Sized(m.frames) && Apart(m.frames, m.lost)
  }

  /** The view after a store failed. */
  ghost function FailedStore(v: View, k: Key, region: Region, env: Env): View {
    if k !in v.pages && region.write then CachedIn(v, region.source, env) else v
  }

  /** What a load or store of page k loses. */
  ghost predicate Lost(m: Mem, k: Key, region: Region, may: bool, env: Env, err: Errno, m': Mem) {
    if k !in m.ptes && may && err != Ok then
      && m'.ptes == m.ptes && m'.frames == FailedFrames(m.frames, region.source, env)
      && if LosesFrame(region.source, env) then LostOne(m.frames, m.lost, m'.lost) else m'.lost == m.lost
    else m'.lost == m.lost
  }

  /** What a step loses: nothing, but for a page that could not be brought in. */
  ghost predicate Loses(m: Mem, op: Op, out: Outcome, m': Mem) {
    match op
    case LoadOp(k, _, region, env) => Lost(m, k, region, Loadable(region), env, if out.Failed? then out.err else Ok, m')
    case StoreOp(k, _, _, region, env) => Lost(m, k, region, region.write, env, if out.Failed? then out.err else Ok, m')
    case _ => m'.lost == m.lost
  }

  /** What a fork does to the entries, and when a failed one gives back every reference. */
  ghost predicate Forks(m: Mem, op: Op, out: Outcome, m': Mem)
    requires op.ForkOp?
  {
    if out.Forked? then IsLent(m.ptes, m'.ptes, op.src, out.dst, USERPAGES) && NoPages(m.ptes.Keys, out.dst)
    else IsGuarded(m.ptes, m'.ptes, op.src, op.failAt) && (m'.frames == m.frames <==> OnlyOwn(m.ptes, op.src, op.failAt))
  }

  /** What a load, a store or an unmapping does to the entries that were there: a store through a writable entry leaves it
      as it is, and any other store that succeeds to a page that is there gives the page a frame of its own. */
  ghost predicate Enters(m: Mem, op: Op, out: Outcome, m': Mem) {
    match op
    case LoadOp(_, _, _, _) => Kept(m.ptes, m'.ptes)
    case StoreOp(k, _, _, _, _) =>
      && Kept(m.ptes - {k}, m'.ptes)
      && (out == Done ==> k in m'.ptes && m'.ptes[k].writable && (Closed(m.ptes, k) ==> m'.ptes[k].alloc))
      && (k in m.ptes && m.ptes[k].writable ==> m'.ptes == m.ptes)
    case UnmapOp(_) => Kept(m'.ptes, m.ptes)
    case ExitOp(_) => Kept(m'.ptes, m.ptes)
    case _ => true
  }

  /** A protection gives PTE_W to the pages of its range that are there or takes it away, and changes nothing else. */
  ghost predicate Protects(m: Mem, op: Op, m': Mem)
    requires op.ProtectOp?
  {
    && m'.frames == m.frames && (forall k :: k in m'.ptes <==> k in m.ptes)
    && forall k | k in m.ptes ::
      if k.space == op.space && op.page <= k.page < op.page + op.n
      then m'.ptes[k].writable == op.writable && m'.ptes[k].frame == m.ptes[k].frame && m'.ptes[k].alloc == m.ptes[k].alloc
      else m'.ptes[k] == m.ptes[k]
  }

  /** One step: a step of the machine that copies at once, an entry without PTE_W stays one exactly when the step does
      not reopen it, and the results of stores and forks and the losses are exact. */
  ghost predicate IsMove(m: Mem, op: Op, out: Outcome, m': Mem) {
    && InRange(op) && Fine(m) && Fine(m')
    && EagerStep(ViewOf(m.frames, m.ptes), op, out, ViewOf(m'.frames, m'.ptes)) && Reopened(m.ptes, m'.ptes, op, out)
    && (op.StoreOp? ==> out == StoreOutcome(StoreResult(m.frames, m.ptes, op.key, op.off, op.region, op.env)))
    && (op.ForkOp? ==> Forks(m, op, out, m')) && (op.ProtectOp? ==> if out == Done then Protects(m, op, m') else m' == m)
    && Loses(m, op, out, m') && Enters(m, op, out, m')
  }

  /** The same, a few recursive steps away. */
  ghost predicate Moves(m: Mem, op: Op, out: Outcome, m': Mem, seal: Seal := SEALED) {
    match seal
    case Open => IsMove(m, op, out, m')
    case Shut(inner) => Moves(m, op, out, m', inner)
  }

  lemma MovesIs(m: Mem, op: Op, out: Outcome, m': Mem)
    ensures Moves(m, op, out, m') <==> IsMove(m, op, out, m')
  {
    assert Moves(m, op, out, m', Shut(Shut(Open))) == Moves(m, op, out, m', Shut(Open)) == Moves(m, op, out, m', Open);
  }

  /** A run, state by state. */
  ghost predicate Traced(ms: seq<Mem>, ops: seq<Op>, outs: seq<Outcome>) {
    && |ms| == |outs| + 1 && |outs| <= |ops|
    && forall i, j | 0 <= i < |outs| && j == i + 1 :: Moves(ms[i], ops[i], outs[i], ms[j])
  }

  /** Over every run a page without PTE_W stays one as long as no step reopens it. */
  lemma {:induction false} StaysClosed(ms: seq<Mem>, ops: seq<Op>, outs: seq<Outcome>, a: int, b: int, k: Key)
    requires Traced(ms, ops, outs) && 0 <= a <= b <= |outs| && Closed(ms[a].ptes, k)
    requires forall i | a <= i < b :: !Reopens(ops[i], outs[i], k)
    ensures Closed(ms[b].ptes, k)
    decreases b - a
  {
    if a < b {
      MovesIs(ms[a], ops[a], outs[a], ms[a + 1]);
      StaysClosed(ms, ops, outs, a + 1, b, k);
    }
  }

  lemma ForkMove(m: Mem, op: Op, out: Outcome, m': Mem, page: int)
    requires Moves(m, op, out, m') && op.ForkOp?
    ensures out.Forked? <==> !(0 <= op.failAt < USERPAGES)
    ensures out.Forked? && 0 <= page < USERPAGES && Key(op.src, page) in m.ptes ==>
      Closed(m'.ptes, Key(op.src, page)) && Closed(m'.ptes, Key(out.dst, page))
    ensures !out.Forked? ==> out == Failed(ENOMEM) && m'.ptes.Keys == m.ptes.Keys
    ensures !out.Forked? ==> (m'.frames == m.frames <==>
      forall p | 0 <= p < op.failAt && Key(op.src, p) in m.ptes :: m.ptes[Key(op.src, p)].alloc)
    ensures !out.Forked? ==> forall k | k in m.ptes ::
      k in m'.ptes && m'.ptes[k].frame == m.ptes[k].frame && m'.ptes[k].alloc == m.ptes[k].alloc
    ensures !out.Forked? ==> forall k | k in m.ptes ::
      k in m'.ptes && (m'.ptes[k].writable <==> m.ptes[k].writable && !(k.space == op.src && 0 <= k.page < op.failAt))
  {
    MovesIs(m, op, out, m');
    if out.Forked? && 0 <= page < USERPAGES && Key(op.src, page) in m.ptes {
      ForkCloses(m.ptes, m'.ptes, op.src, out.dst, page);
    }
  }

  /** A store to a page that is there: it succeeds through a writable entry, and otherwise where the region is writable
      and private, the address is not 0, and the frame is not shared or can be copied. */
  lemma StoreMove(m: Mem, op: Op, out: Outcome, m': Mem)
    requires Moves(m, op, out, m') && op.StoreOp? && op.key in m.ptes
    ensures Fine(m) && forall k | k in m.ptes && k != op.key :: k in m'.ptes && m'.ptes[k] == m.ptes[k]
    ensures m.ptes[op.key].writable ==> out == Done && m'.ptes == m.ptes
    ensures out == Done ==> op.key in m'.ptes && m'.ptes[op.key].writable && (Closed(m.ptes, op.key) ==> m'.ptes[op.key].alloc)
    ensures Closed(m.ptes, op.key) && !op.region.write ==> out == Failed(EACCES)
    ensures Closed(m.ptes, op.key) && op.region.write && (op.region.shared || (op.key.page == 0 && op.off == 0)) ==>
      out == Failed(EFAULT)
    ensures Closed(m.ptes, op.key) && op.region.write && !op.region.shared && !(op.key.page == 0 && op.off == 0) ==>
      (out == Done <==> m.frames[m.ptes[op.key].frame].refs == 1 || (op.env.canAlloc && op.env.canMount && op.env.canPut))
    ensures out != Done && op.region.write && !op.region.shared && !(op.key.page == 0 && op.off == 0) ==>
      out == Failed(if op.env.canAlloc && op.env.canMount then EINVAL else ENOMEM)
  {
    MovesIs(m, op, out, m');
  }

  /** A protection: address 0 is refused, and so are flags without PTE_P. Otherwise exactly the pages of the range get
      PTE_W or lose it, no byte moves, and a private page that is writable afterwards is the only user of its frame. */
  lemma ProtectMove(m: Mem, op: Op, out: Outcome, m': Mem, k: Key)
    requires Moves(m, op, out, m') && op.ProtectOp?
    ensures out == if !op.present || (op.page == 0 && op.n > 0) then Failed(EINVAL) else Done
    ensures out != Done ==> m' == m
    ensures m'.frames == m.frames && (k in m'.ptes <==> k in m.ptes)
    ensures k in m.ptes ==> m'.ptes[k].frame == m.ptes[k].frame && m'.ptes[k].alloc == m.ptes[k].alloc
    ensures out == Done && k in m.ptes ==> (m'.ptes[k].writable <==>
      if k.space == op.space && op.page <= k.page < op.page + op.n then op.writable else m.ptes[k].writable)
    ensures k in m.ptes && m'.ptes[k].writable && m.ptes[k].alloc ==>
      m.ptes[k].frame in m.frames && m.frames[m.ptes[k].frame].refs == 1
  {
    MovesIs(m, op, out, m');
  }

  /** What brings a page in: memory and a successful read for a page of its own, and the page cache or a successful read
      for a page of a file; and the tables in both cases. */
  predicate CanBring(frames: Frames, region: Region, env: Env) {
    env.canMap && match region.source
                  case Fill(_) => env.canAlloc && env.canRead
                  case PageCache(o, _) => CachePage(o) in frames || env.canRead
  }

  /** The first access to a page, its error, and the byte that a load then returns. */
  lemma TouchMove(m: Mem, op: Op, out: Outcome, m': Mem)
    requires Moves(m, op, out, m') && (op.LoadOp? || op.StoreOp?) && op.key !in m.ptes
    ensures op.StoreOp? ==> (out.Failed? <==> !(op.region.write && CanBring(m.frames, op.region, op.env)))
    ensures op.LoadOp? ==> (out.Failed? <==>
      !((op.region.read || op.region.exec) && !op.region.emptyFile && CanBring(m.frames, op.region, op.env)))
    ensures op.StoreOp? && !op.region.write ==> out == Failed(EACCES)
    ensures op.LoadOp? && !op.region.read && !op.region.exec ==> out == Failed(EACCES)
    ensures op.LoadOp? && (op.region.read || op.region.exec) && op.region.emptyFile ==> out == Failed(EFAULT)
    ensures out == Failed(EIO) ==> !op.env.canRead
    ensures out == Failed(ENOMEM) ==> !op.env.canMap || (op.region.source.Fill? && !op.env.canAlloc)
    ensures op.LoadOp? && !out.Failed? && InRange(op) ==>
      match op.region.source
      case Fill(bytes) => out == Loaded(bytes[op.off])
      case PageCache(o, bytes) =>
        Fine(m) && out == Loaded(if CachePage(o) in m.frames then m.frames[CachePage(o)].bytes[op.off] else bytes[op.off])
  {
    MovesIs(m, op, out, m');
    assert forall o :: CachePage(o) in ViewOf(m.frames, m.ptes).objects <==> CachePage(o) in m.frames;
  }

  ghost function ByteAt(m: Mem, k: Key, off: int): Byte
    requires Fine(m) && k in m.ptes && 0 <= off < PAGESZ
  {
    m.frames[m.ptes[k].frame].bytes[off]
  }

  /** A load of a page that is there returns its byte, and changes nothing that programs see. */
  lemma LoadMove(m: Mem, op: Op, out: Outcome, m': Mem)
    requires Moves(m, op, out, m') && op.LoadOp? && op.key in m.ptes
    ensures Fine(m) && InRange(op) && out == Loaded(ByteAt(m, op.key, op.off))
  {
    MovesIs(m, op, out, m');
    assert PageOf(m.frames, m.ptes[op.key]) == ViewOf(m.frames, m.ptes).pages[op.key];
  }

  /** What programs see of a page is the bytes of its frame. */
  lemma SeenBytes(m: Mem, k: Key)
    requires Fine(m) && k in m.ptes
    ensures Bound(ViewOf(m.frames, m.ptes)) && BytesAt(ViewOf(m.frames, m.ptes), k) == m.frames[m.ptes[k].frame].bytes
  {
  }

  /** What a store does to the bytes that programs see. */
  lemma EagerStoreWrites(v: View, v': View, k0: Key, off0: nat, b: Byte, region: Region, k: Key)
    requires Bound(v) && EagerStore(v, v', k0, off0, b, region) && k in v.pages
    ensures Bound(v') && k0 in v'.pages && k in v'.pages && off0 < |BytesAt(v', k0)| && BytesAt(v', k0)[off0] == b
    ensures k == k0 ==> off0 < |BytesAt(v, k)| && BytesAt(v', k) == BytesAt(v, k)[off0 := b]
    ensures k != k0 ==> v'.pages[k] == v.pages[k]
    ensures k != k0 && v.pages[k].Cached? && v'.pages[k0] == v.pages[k] ==>
      off0 < |BytesAt(v, k)| && BytesAt(v', k) == BytesAt(v, k)[off0 := b]
    ensures k != k0 && !(v.pages[k].Cached? && v'.pages[k0] == v.pages[k]) ==> BytesAt(v', k) == BytesAt(v, k)
  {
  }

  /** A store writes its byte and leaves the rest of its page, every other page of its own, and every page of another file
      page as they were; a page of the same file page sees it exactly when it is stored there. */
  lemma StoreWrites(m: Mem, op: Op, m': Mem, k: Key, off: int)
    requires Moves(m, op, Done, m') && op.StoreOp? && k in m.ptes && 0 <= off < PAGESZ
    ensures Fine(m) && Fine(m') && op.key in m'.ptes && k in m'.ptes && InRange(op)
    ensures ByteAt(m', op.key, op.off) == op.byte
    ensures k == op.key && off != op.off ==> ByteAt(m', k, off) == ByteAt(m, k, off)
    ensures k != op.key && m.ptes[k].alloc ==> ByteAt(m', k, off) == ByteAt(m, k, off)
    ensures k != op.key && !m.ptes[k].alloc ==>
      ByteAt(m', k, off) == if off == op.off && m'.ptes[op.key].frame == m.ptes[k].frame then op.byte else ByteAt(m, k, off)
  {
    MovesIs(m, op, Done, m');
    var v, v' := ViewOf(m.frames, m.ptes), ViewOf(m'.frames, m'.ptes);
    assert Bound(v);
    EagerStoreWrites(v, v', op.key, op.off, op.byte, op.region, k);
    assert forall x :: x in v'.pages <==> x in m'.ptes;
    SeenBytes(m, k);
    SeenBytes(m', op.key);
    SeenBytes(m', k);
    assert v.pages[k] == PageOf(m.frames, m.ptes[k]) && v'.pages[op.key] == PageOf(m'.frames, m'.ptes[op.key]);
  }

  /** After a fork each side has every user page of the source with its bytes. */
  lemma ForkCopies(m: Mem, op: Op, out: Outcome, m': Mem, page: int, off: int)
    requires Moves(m, op, out, m') && op.ForkOp? && out.Forked? && 0 <= page < USERPAGES && 0 <= off < PAGESZ
    ensures Fine(m) && Fine(m') && Key(out.dst, page) !in m.ptes
    ensures Key(out.dst, page) in m'.ptes <==> Key(op.src, page) in m.ptes
    ensures Key(op.src, page) in m.ptes ==> Key(op.src, page) in m'.ptes
    ensures Key(op.src, page) in m.ptes ==>
      ByteAt(m', Key(out.dst, page), off) == ByteAt(m', Key(op.src, page), off) == ByteAt(m, Key(op.src, page), off)
  {
    MovesIs(m, op, out, m');
    var k, d := Key(op.src, page), Key(out.dst, page);
    assert d in ViewOf(m'.frames, m'.ptes).pages <==> d in m'.ptes;
    if k in m.ptes {
      assert CopyOf(m.ptes.Keys, d, op.src, out.dst, USERPAGES);
      SeenBytes(m, k);
      SeenBytes(m', k);
      SeenBytes(m', d);
    }
  }

  /** Unmapping takes one page away, and an exit the user pages of one address space. */
  lemma UnmapMove(m: Mem, op: Op, out: Outcome, m': Mem, k: Key, off: int)
    requires Moves(m, op, out, m') && (op.UnmapOp? || op.ExitOp?) && 0 <= off < PAGESZ
    ensures Fine(m) && Fine(m') && out == Done
    ensures op.UnmapOp? ==> (k in m'.ptes <==> k in m.ptes && k != op.key)
    ensures op.ExitOp? ==> (k in m'.ptes <==> k in m.ptes && !(k.space == op.space && 0 <= k.page < USERPAGES))
    ensures k in m'.ptes ==> ByteAt(m', k, off) == ByteAt(m, k, off)
  {
    MovesIs(m, op, out, m');
    assert k in ViewOf(m'.frames, m'.ptes).pages <==> k in m'.ptes;
    if k in m'.ptes {
      SeenBytes(m, k);
      SeenBytes(m', k);
    }
  }

  /** In every run, a store to a page that was there before a fork, by either side, in a writable region that is shared or
      at address 0, fails with EFAULT exactly when the page has no PTE_W, which is so unless a step since the fork reopened
      it. */
  lemma StoreAfterFork(ms: seq<Mem>, ops: seq<Op>, outs: seq<Outcome>, f: int, n: int)
    requires Traced(ms, ops, outs) && 0 <= f < n < |outs| && ops[f].ForkOp? && outs[f].Forked? && ops[n].StoreOp?
    requires ops[n].key.space == ops[f].src || ops[n].key.space == outs[f].dst
    requires 0 <= ops[n].key.page < USERPAGES && Key(ops[f].src, ops[n].key.page) in ms[f].ptes
    requires ops[n].region.write && (ops[n].region.shared || (ops[n].key.page == 0 && ops[n].off == 0))
    ensures outs[n] == Failed(EFAULT) <==> Closed(ms[n].ptes, ops[n].key)
    ensures outs[n] == Failed(EFAULT) || exists i | f < i < n :: Reopens(ops[i], outs[i], ops[n].key)
  {
    var k := ops[n].key;
    assert Moves(ms[f], ops[f], outs[f], ms[f + 1]) && Moves(ms[n], ops[n], outs[n], ms[n + 1]);
    ForkMove(ms[f], ops[f], outs[f], ms[f + 1], k.page);
    if k in ms[n].ptes {
      StoreMove(ms[n], ops[n], outs[n], ms[n + 1]);
    } else {
      MovesIs(ms[n], ops[n], outs[n], ms[n + 1]);
    }
    if forall i | f < i < n :: !Reopens(ops[i], outs[i], k) {
      StaysClosed(ms, ops, outs, f + 1, n, k);
    }
  }

  /** In every run, a store in a region without write permission to a page that a protection made read-only fails with
      EACCES unless a step since then reopened the page; and right after a protection that gives PTE_W, a store succeeds. */
  lemma StoreAfterProtect(ms: seq<Mem>, ops: seq<Op>, outs: seq<Outcome>, f: int, n: int)
    requires Traced(ms, ops, outs) && 0 <= f < n < |outs| && ops[f].ProtectOp? && outs[f] == Done && ops[n].StoreOp?
    requires ops[n].key.space == ops[f].space && ops[f].page <= ops[n].key.page < ops[f].page + ops[f].n
    requires ops[n].key in ms[f].ptes
    ensures !ops[f].writable && !ops[n].region.write ==>
      outs[n] == Failed(EACCES) || exists i | f < i < n :: Reopens(ops[i], outs[i], ops[n].key)
    ensures ops[f].writable && n == f + 1 ==> outs[n] == Done
  {
    var k := ops[n].key;
    assert Moves(ms[f], ops[f], outs[f], ms[f + 1]) && Moves(ms[n], ops[n], outs[n], ms[n + 1]);
    MovesIs(ms[f], ops[f], outs[f], ms[f + 1]);
    if !ops[f].writable && forall i | f < i < n :: !Reopens(ops[i], outs[i], k) {
      StaysClosed(ms, ops, outs, f + 1, n, k);
    }
    if k in ms[n].ptes {
      StoreMove(ms[n], ops[n], outs[n], ms[n + 1]);
    }
  }

  class Memory {
    var frames: Frames
    var ptes: Ptes
    var lost: set<FrameId>

    ghost predicate Valid()
      reads this
    {
      Good(frames, ptes) && Sized(frames) && Apart(frames, lost)
    }

    ghost function Now(): Mem
      reads this
    {
      Mem(frames, ptes, lost)
    }

    ghost function Seen(): View
      requires Named(frames, ptes)
      reads this
    {
      ViewOf(frames, ptes)
    }

    constructor ()
      ensures Valid() && Now() == Mem(map[], map[], {})
    {
      frames, ptes, lost := map[], map[], {};
    }

    /** pmman.get_page, when a frame is left. */
    method FreshFrame() returns (f: FrameId)
      ensures f.Phys? && f !in frames && f !in lost
    {
      ghost var taken := set g | g in frames.Keys + lost && g.Phys? :: g.n;
      ghost var x := AboveAll(taken);
      assert forall n | Phys(n) in frames.Keys + lost :: Phys(n).n in taken;
      assert Phys(x) !in frames.Keys + lost;
      var n :| Phys(n) !in frames.Keys + lost;
      f := Phys(n);
    }

    /** x86_64_unmap. */
    method Unmap(k: Key)
      requires Valid()
      modifies `frames, `ptes
      ensures Valid() && Seen() == WithoutPage(old(Seen()), k) && ptes == old(ptes) - {k}
      ensures frames == if k in old(ptes) then Unmapped(old(frames), old(ptes), k) else old(frames)
      ensures forall f | f in old(frames) && f.CachePage? :: f in frames && frames[f] == old(frames)[f]
    {
      if k in ptes {
        UnmapGood(frames, ptes, k);
        frames, ptes := if ptes[k].alloc then Put(frames, ptes[k].frame) else frames, ptes - {k};
      } else {
        assert ptes == ptes - {k};
        assert Seen().pages == Seen().pages - {k};
      }
    }

    /** x86_64_unmap_full, for the leaf entries. */
    method UnmapFull(space: int)
      requires Valid()
      modifies `frames, `ptes
      ensures Valid() && IsEmptied(old(Seen()), Seen(), space, USERPAGES)
      ensures forall k :: k in ptes <==> k in old(ptes) && !(k.space == space && 0 <= k.page < USERPAGES)
      ensures forall k | k in ptes :: ptes[k] == old(ptes)[k]
      ensures forall f | f in old(frames) && f.CachePage? :: f in frames && frames[f] == old(frames)[f]
    {
      for p := 0 to USERPAGES
        invariant Valid() && IsEmptied(old(Seen()), Seen(), space, p)
        invariant forall k :: k in ptes <==> k in old(ptes) && !(k.space == space && 0 <= k.page < p)
        invariant forall k | k in ptes :: ptes[k] == old(ptes)[k]
        invariant forall f | f in old(frames) && f.CachePage? :: f in frames && frames[f] == old(frames)[f]
      {
        EmptyStep(old(Seen()), Seen(), space, p);
        Unmap(Key(space, p));
      }
    }

    /** One page of the copy loop of x86_64_lazycpy. */
    method Lend(k: Key, d: Key)
      requires Valid() && k in ptes && d !in ptes
      modifies `frames, `ptes
      ensures Valid() && Seen() == WithPage(old(Seen()), d, old(Seen()).pages[k])
      ensures ptes == Lent(old(ptes), k, d) && frames.Keys == old(frames).Keys
      ensures forall f | f in frames :: Surplus(frames, ptes, f) == Surplus(old(frames), old(ptes), f)
      ensures forall f | f in frames :: frames[f].bytes == old(frames)[f].bytes
    {
      LendGood(frames, ptes, k, d);
      LendView(frames, ptes, k, d);
      forall f | f in frames
        ensures |Users(Lent(ptes, k, d), f)| == |Users(ptes, f)| + if ptes[k].frame == f then 1 else 0
      {
        LendUsers(ptes, k, d, f);
      }
      frames, ptes := Get(frames, ptes[k].frame), Lent(ptes, k, d);
    }

    /** The copy loop of x86_64_lazycpy up to page n. */
    method CopyPages(src: int, dst: int, n: int)
      requires Valid() && src != dst && NoPages(ptes.Keys, dst) && 0 <= n <= USERPAGES
      modifies `frames, `ptes
      ensures Valid() && IsFork(old(Seen()), Seen(), src, dst, n) && IsLent(old(ptes), ptes, src, dst, n)
      ensures SameFrames(old(frames), frames)
      ensures forall f | f in frames :: Surplus(frames, ptes, f) == Surplus(old(frames), old(ptes), f)
    {
      assert old(Seen()).pages.Keys == old(ptes).Keys;
      for p := 0 to n
        invariant Valid() && IsFork(old(Seen()), Seen(), src, dst, p) && IsLent(old(ptes), ptes, src, dst, p)
        invariant SameFrames(old(frames), frames)
        invariant forall f | f in frames :: Surplus(frames, ptes, f) == Surplus(old(frames), old(ptes), f)
      {
        ForkStep(old(Seen()), Seen(), src, dst, p);
        LentStep(old(ptes), ptes, src, dst, p);
        if Key(src, p) in ptes {
          Lend(Key(src, p), Key(dst, p));
        }
      }
    }

    /** x86_64_lazycpy. When a table or a mount fails on the way to page failAt, the destination is emptied again. */
    method LazyCopy(src: int, dst: int, failAt: int) returns (err: Errno)
      requires Valid() && src != dst && NoPages(ptes.Keys, dst)
      modifies `frames, `ptes
      ensures Valid() && err == if 0 <= failAt < USERPAGES then ENOMEM else Ok
      ensures err == Ok ==> IsFork(old(Seen()), Seen(), src, dst, USERPAGES) && IsLent(old(ptes), ptes, src, dst, USERPAGES)
      ensures err != Ok ==> Seen() == old(Seen()) && IsGuarded(old(ptes), ptes, src, failAt)
      ensures err != Ok ==> (frames == old(frames) <==> OnlyOwn(old(ptes), src, failAt))
    {
      if !(0 <= failAt < USERPAGES) {
        CopyPages(src, dst, USERPAGES);
        return Ok;
      }
      assert old(Seen()).pages.Keys == old(ptes).Keys;
      CopyPages(src, dst, failAt);
      ghost var frames1, ptes1, v1 := frames, ptes, Seen();
      UnmapFull(dst);
      ForkUndone(old(Seen()), v1, Seen(), src, dst, failAt, USERPAGES);
      FailedForkBalance(old(frames), old(ptes), frames1, ptes1, frames, ptes, src, dst, failAt);
      err := ENOMEM;
    }

    // ----- page faults

    /** x86_64_map_n of one page that is not present. */
    method MapFresh(k: Key, bytes: seq<Byte>, writable: bool)
      requires Valid() && k !in ptes && |bytes| == PAGESZ
      modifies `frames, `ptes
      ensures Valid() && Seen() == WithPage(old(Seen()), k, Own(bytes))
      ensures k in ptes && ptes[k].writable == writable && ptes - {k} == old(ptes) && Kept(old(ptes), ptes)
      ensures ptes[k].alloc && ptes[k].frame !in old(frames) && frames == old(frames)[ptes[k].frame := Frame(bytes, 1)]
    {
      var f := FreshFrame();
      MapNewGood(frames, ptes, k, f, bytes, writable);
      frames, ptes := frames[f := Frame(bytes, 1)], ptes[k := Pte(f, writable, true)];
    }

    /** map_anonymous_page and the private branch of load_page_from_file. The frame is lost when the tables on the way
        to its entry cannot be had. */
    method MapOwn(k: Key, bytes: seq<Byte>, writable: bool, env: Env) returns (err: Errno)
      requires Valid() && k !in ptes && |bytes| == PAGESZ
      modifies this
      ensures Valid() && err == PageInResult(old(Seen()), Fill(bytes), env)
      ensures err != Ok ==> Seen() == old(Seen()) && ptes == old(ptes) && frames == old(frames)
      ensures err == Ok ==> Seen() == WithPage(old(Seen()), k, Own(bytes)) && k in ptes && ptes[k].writable == writable
      ensures if LosesFrame(Fill(bytes), env) then LostOne(old(frames), old(lost), lost) else lost == old(lost)
      ensures Kept(old(ptes), ptes)
    {
      if !env.canAlloc {
        return ENOMEM;
      }
      if !env.canMap {
        var f := FreshFrame();
        lost := lost + {f};
        return ENOMEM;
      }
      MapFresh(k, bytes, writable);
      if !env.canRead {
        UndoFresh(k, bytes, old(Now()));
        return EIO;
      }
      err := Ok;
    }

    /** arch_unmap_n of the page that was just mapped. */
    method UndoFresh(k: Key, bytes: seq<Byte>, ghost m: Mem)
      requires Valid() && k in ptes && ptes[k].alloc && Fine(m) && k !in m.ptes
      requires frames == m.frames[ptes[k].frame := Frame(bytes, 1)] && ptes[k].frame !in m.frames && ptes - {k} == m.ptes
      modifies `frames, `ptes
      ensures Valid() && frames == m.frames && ptes == m.ptes
    {
      Unmap(k);
      assert frames == m.frames;
    }

    /** The shared branch of load_page_from_file. The reference for the entry is taken before the tables are, and kept
        when these cannot be had. */
    method MapCached(k: Key, filePage: int, bytes: seq<Byte>, writable: bool, env: Env) returns (err: Errno)
      requires Valid() && k !in ptes && |bytes| == PAGESZ
      modifies `frames, `ptes
      ensures Valid() && err == PageInResult(old(Seen()), PageCache(filePage, bytes), env)
      ensures err != Ok ==> Seen() == CachedIn(old(Seen()), PageCache(filePage, bytes), env) && ptes == old(ptes)
      ensures err != Ok ==> frames == FailedFrames(old(frames), PageCache(filePage, bytes), env)
      ensures err == Ok ==>
        Seen() == FaultedIn(old(Seen()), k, PageCache(filePage, bytes)) && k in ptes && ptes[k].writable == writable
      ensures Kept(old(ptes), ptes)
    {
      var f := CachePage(filePage);
      if f !in frames {
        if !env.canRead {
          return EIO;
        }
        LoadCachedGood(frames, ptes, f, bytes);
        frames := frames[f := Frame(bytes, 1)];
      }
      if !env.canMap {
        GetCachedGood(frames, ptes, f);
        frames := Get(frames, f);
        return ENOMEM;
      }
      MapCachedGood(frames, ptes, k, f, writable);
      frames, ptes := Get(frames, f), ptes[k := Pte(f, writable, false)];
      err := Ok;
    }

    /** The fault on a page that is not present. */
    method MapPage(k: Key, region: Region, env: Env) returns (err: Errno)
      requires Valid() && k !in ptes && |region.source.bytes| == PAGESZ
      modifies this
      ensures Valid() && err == PageInResult(old(Seen()), region.source, env)
      ensures err != Ok ==> Seen() == CachedIn(old(Seen()), region.source, env) && ptes == old(ptes)
      ensures err != Ok ==> frames == FailedFrames(old(frames), region.source, env)
      ensures err == Ok ==> Seen() == FaultedIn(old(Seen()), k, region.source) && k in ptes && ptes[k].writable == region.write
      ensures if LosesFrame(region.source, env) then LostOne(old(frames), old(lost), lost) else lost == old(lost)
      ensures Kept(old(ptes), ptes)
    {
      match region.source
      case Fill(bytes) => err := MapOwn(k, bytes, region.write, env);
      case PageCache(filePage, bytes) => err := MapCached(k, filePage, bytes, region.write, env);
    }

    /** copy_page_on_write: a fresh writable frame with the old bytes takes the place of the shared one. */
    method CopyPage(k: Key, env: Env) returns (err: Errno)
      requires Valid() && k in ptes && frames[ptes[k].frame].refs > 1
      modifies `frames, `ptes
      ensures Valid() && err == CopyResult(env)
      ensures err != Ok ==> frames == old(frames) && ptes == old(ptes)
      ensures err == Ok ==> Seen() == Detached(old(Seen()), k) && k in ptes && ptes[k].writable && ptes[k].alloc
      ensures Kept(old(ptes) - {k}, ptes)
    {
      if !env.canAlloc {
        return ENOMEM;
      }
      var f := FreshFrame();
      var cow := ptes[k];
      var bytes := frames[cow.frame].bytes;
      CopyGood(frames, ptes, k, f);
      CopySteps(frames, ptes, k, f);
      frames, ptes := frames[f := Frame(bytes, 1)], ptes[k := Pte(f, true, true)];
      if !env.canMount {
        frames, ptes := Put(frames, f), ptes[k := cow];
        return ENOMEM;
      }
      if !env.canPut {
        frames, ptes := Put(frames, f), ptes[k := cow];
        return EINVAL;
      }
      frames := Put(frames, cow.frame);
      err := Ok;
    }

    /** enable_write_access: PTE_W alone changes. */
    method EnableWrite(k: Key)
      requires Valid() && k in ptes && frames[ptes[k].frame].refs == 1
      modifies `ptes
      ensures Valid() && Seen() == old(Seen()) && ptes == old(ptes)[k := old(ptes)[k].(writable := true)]
    {
      SetWritable(frames, ptes, k, true);
      ptes := ptes[k := ptes[k].(writable := true)];
    }

    /** handle_cow_fault. The count is never zero, so the last branch is not taken. */
    method CowFault(k: Key, env: Env) returns (err: Errno)
      requires Valid() && k in ptes
      modifies `frames, `ptes
      ensures Valid() && (err != Ok ==> frames == old(frames) && ptes == old(ptes))
      ensures err == if old(frames[ptes[k].frame]).refs == 1 then Ok else CopyResult(env)
      ensures err == Ok ==> Seen() == Detached(old(Seen()), k) && k in ptes && ptes[k].writable && ptes[k].alloc
      ensures old(frames[ptes[k].frame]).refs == 1 ==> frames == old(frames)
      ensures Kept(old(ptes) - {k}, ptes)
    {
      assert FrameCounted(frames, ptes, ptes[k].frame) && k in Users(ptes, ptes[k].frame);
      var pgref := frames[ptes[k].frame].refs;
      if pgref > 1 {
        err := CopyPage(k, env);
      } else if pgref == 1 {
        OwnDetached(Seen(), k);
        EnableWrite(k);
        err := Ok;
      } else {
        err := EFAULT;
      }
    }

    /** handle_write_fault of a store at offset off: after success the store can go on. The entry of address 0 is not
        found. */
    method WriteFault(k: Key, off: nat, region: Region, env: Env) returns (err: Errno)
      requires Valid() && |region.source.bytes| == PAGESZ && (k in ptes ==> !ptes[k].writable)
      modifies this
      ensures Valid() && err == StoreResult(old(frames), old(ptes), k, off, region, env)
      ensures k in old(ptes) && !region.write ==> err == EACCES
      ensures k in old(ptes) && region.write && (region.shared || (k.page == 0 && off == 0)) ==> err == EFAULT
      ensures k in old(ptes) && region.write && !region.shared && !(k.page == 0 && off == 0) ==>
        (err == Ok <==> old(frames)[old(ptes)[k].frame].refs == 1 || (env.canAlloc && env.canMount && env.canPut))
      ensures err != Ok ==> ptes == old(ptes) && Seen() == FailedStore(old(Seen()), k, region, env)
      ensures err == Ok ==> k in ptes && ptes[k].writable && Kept(old(ptes) - {k}, ptes)
      ensures err == Ok && k in old(ptes) ==> ptes[k].alloc
      ensures err == Ok ==>
        Seen() == if k in old(ptes) then Detached(old(Seen()), k) else FaultedIn(old(Seen()), k, region.source)
      ensures Lost(old(Now()), k, region, region.write, env, err, Now())
    {
      if !region.write {
        return EACCES;
      }
      var cow := k in ptes && !(k.page == 0 && off == 0);
      if cow && !region.shared {
        err := CowFault(k, env);
      } else if k in ptes {
        err := EFAULT;
      } else {
        err := MapPage(k, region, env);
      }
    }

    /** handle_read_exec_fault. */
    method ReadFault(k: Key, region: Region, env: Env) returns (err: Errno)
      requires Valid() && |region.source.bytes| == PAGESZ
      modifies this
      ensures Valid() && Kept(old(ptes), ptes)
      ensures k in old(ptes) ==> err == if !region.read && !region.exec then EACCES else EFAULT
      ensures k !in old(ptes) ==> err == LoadResult(old(Seen()), k, region, env)
      ensures err == Ok ==> k !in old(ptes) && k in ptes && Seen() == FaultedIn(old(Seen()), k, region.source)
      ensures err != Ok ==>
        Seen() == if k !in old(ptes) && Loadable(region) then CachedIn(old(Seen()), region.source, env) else old(Seen())
      ensures Lost(old(Now()), k, region, Loadable(region), env, err, Now())
    {
      if !region.read && !region.exec {
        return EACCES;
      }
      if k in ptes {
        return EFAULT;
      }
      if region.emptyFile {
        return EFAULT;
      }
      err := MapPage(k, region, env);
    }

    // ----- what programs do

    method Load(k: Key, off: nat, region: Region, env: Env) returns (err: Errno, b: Byte)
      requires Valid() && |region.source.bytes| == PAGESZ && off < PAGESZ
      modifies this
      ensures Valid() && err == LoadResult(old(Seen()), k, region, env)
      ensures err != Ok ==> Seen() == if Loadable(region) then CachedIn(old(Seen()), region.source, env) else old(Seen())
      ensures err == Ok ==> EagerLoad(old(Seen()), Seen(), k, off, region, b)
      ensures Kept(old(ptes), ptes) && Lost(old(Now()), k, region, Loadable(region), env, err, Now())
    {
      err, b := Ok, 0;
      if k !in ptes {
        err := ReadFault(k, region, env);
        if err != Ok {
          return;
        }
      }
      b := frames[ptes[k].frame].bytes[off];
    }

    /** The store itself, through a writable entry. */
    method StoreByte(k: Key, off: nat, b: Byte)
      requires Valid() && k in ptes && ptes[k].writable && off < PAGESZ
      modifies `frames
      ensures Valid() && Seen() == WithByte(old(Seen()), k, off, b)
    {
      StoreView(frames, ptes, k, off, b);
      frames := Stored(frames, ptes[k].frame, off, b);
    }

    method Store(k: Key, off: nat, b: Byte, region: Region, env: Env) returns (err: Errno)
      requires Valid() && |region.source.bytes| == PAGESZ && off < PAGESZ
      modifies this
      ensures Valid() && err == StoreResult(old(frames), old(ptes), k, off, region, env)
      ensures Closed(old(ptes), k) && !region.write ==> err == EACCES
      ensures Closed(old(ptes), k) && region.write && (region.shared || (k.page == 0 && off == 0)) ==> err == EFAULT
      ensures Closed(old(ptes), k) && region.write && !region.shared && !(k.page == 0 && off == 0) ==>
        (err == Ok <==> old(frames)[old(ptes)[k].frame].refs == 1 || (env.canAlloc && env.canMount && env.canPut))
      ensures err != Ok ==> ptes == old(ptes) && Seen() == FailedStore(old(Seen()), k, region, env)
      ensures err == Ok ==> EagerStore(old(Seen()), Seen(), k, off, b, region)
      ensures err == Ok ==> k in ptes && ptes[k].writable && Kept(old(ptes) - {k}, ptes)
      ensures err == Ok && Closed(old(ptes), k) ==> ptes[k].alloc
      ensures k in old(ptes) && old(ptes)[k].writable ==> ptes == old(ptes)
      ensures Lost(old(Now()), k, region, region.write, env, err, Now())
    {
      err := Ok;
      if k !in ptes || !ptes[k].writable {
        err := WriteFault(k, off, region, env);
        if err != Ok {
          return;
        }
      }
      StoredEagerly(old(Seen()), Seen(), k, off, b, region);
      StoreByte(k, off, b);
    }

    /** x86_64_mprotect of n pages from page on: the entries that are there get PTE_W or lose it. That keeps private
        pages apart exactly when no entry is made writable while its frame is shared. */
    method Protect(space: int, page: int, n: int, present: bool, w: bool) returns (err: Errno)
      requires Valid() && 0 <= page && 0 <= n
      modifies `ptes
      ensures err == ProtectResult(page, n, present)
      ensures err != Ok ==> ptes == old(ptes)
      ensures err == Ok ==> IsProtected(old(ptes), ptes, space, page, n, w)
      ensures err == Ok ==> (Isolated(frames, ptes) <==> !MakesSharedWritable(frames, old(ptes), space, page, n, w))
      ensures Counted(frames, ptes) && Seen() == old(Seen())
    {
      if !present {
        return EINVAL;
      }
      err := ProtectPages(space, page, n, w);
      if err == Ok {
        ProtectKeeps(frames, old(ptes), ptes, space, page, n, w);
      }
    }

    /** The loop of x86_64_mprotect. */
    method ProtectPages(space: int, page: int, n: int, w: bool) returns (err: Errno)
      requires 0 <= page && 0 <= n
      modifies `ptes
      ensures err == ProtectResult(page, n, true)
      ensures err != Ok ==> ptes == old(ptes)
      ensures err == Ok ==> IsProtected(old(ptes), ptes, space, page, n, w)
    {
      for i := 0 to n
        invariant page == 0 ==> i == 0 && ptes == old(ptes)
        invariant IsProtected(old(ptes), ptes, space, page, i, w)
      {
        var k := Key(space, page + i);
        if page + i == 0 {
          return EINVAL;
        }
        if k in ptes {
          ptes := ptes[k := ptes[k].(writable := w)];
        }
      }
      err := Ok;
    }

    /** A new address space with the pages of src. */
    method Fork(src: int, failAt: int) returns (err: Errno, dst: int)
      requires Valid()
      modifies `frames, `ptes
      ensures Valid() && err == if 0 <= failAt < USERPAGES then ENOMEM else Ok
      ensures err == Ok ==> EagerFork(old(Seen()), Seen(), src, dst) && IsLent(old(ptes), ptes, src, dst, USERPAGES)
      ensures err != Ok ==> Seen() == old(Seen()) && IsGuarded(old(ptes), ptes, src, failAt)
      ensures err != Ok ==> (frames == old(frames) <==> OnlyOwn(old(ptes), src, failAt))
    {
      ghost var spaces := set k | k in ptes :: k.space;
      ghost var x := AboveAll(spaces + {src});
      assert src in spaces + {src} && forall k | k in ptes :: k.space in spaces + {src};
      assert src != x && NoPages(ptes.Keys, x);
      dst :| src != dst && NoPages(ptes.Keys, dst);
      assert Seen().pages.Keys == ptes.Keys;
      err := LazyCopy(src, dst, failAt);
    }

    // ----- runs

    method Step(op: Op) returns (out: Outcome)
      requires Valid() && InRange(op) && !Exposes(frames, ptes, op)
      modifies this
      ensures Valid() && Moves(old(Now()), op, out, Now())
    {
      match op {
        case LoadOp(_, _, _, _) => out := StepLoad(op);
        case StoreOp(_, _, _, _, _) => out := StepStore(op);
        case ForkOp(_, _) => out := StepFork(op);
        case UnmapOp(_) => out := StepUnmap(op);
        case ExitOp(_) => out := StepUnmap(op);
        case ProtectOp(_, _, _, _, _) => out := StepProtect(op);
      }
    }

    method StepLoad(op: Op) returns (out: Outcome)
      requires Valid() && InRange(op) && op.LoadOp?
      modifies this
      ensures Valid() && Moves(old(Now()), op, out, Now())
    {
      var err, b := Load(op.key, op.off, op.region, op.env);
      out := if err == Ok then Loaded(b) else Failed(err);
      MovesIs(old(Now()), op, out, Now());
    }

    method StepStore(op: Op) returns (out: Outcome)
      requires Valid() && InRange(op) && op.StoreOp?
      modifies this
      ensures Valid() && Moves(old(Now()), op, out, Now())
    {
      var err := Store(op.key, op.off, op.byte, op.region, op.env);
      out := StoreOutcome(err);
      MovesIs(old(Now()), op, out, Now());
    }

    method StepFork(op: Op) returns (out: Outcome)
      requires Valid() && op.ForkOp?
      modifies `frames, `ptes
      ensures Valid() && Moves(old(Now()), op, out, Now())
    {
      var err, dst := Fork(op.src, op.failAt);
      out := if err == Ok then Forked(dst) else Failed(err);
      MovesIs(old(Now()), op, out, Now());
    }

    method StepUnmap(op: Op) returns (out: Outcome)
      requires Valid() && (op.UnmapOp? || op.ExitOp?)
      modifies `frames, `ptes
      ensures Valid() && Moves(old(Now()), op, out, Now())
    {
      if op.UnmapOp? {
        Unmap(op.key);
      } else {
        UnmapFull(op.space);
      }
      out := Done;
      MovesIs(old(Now()), op, out, Now());
    }

    method StepProtect(op: Op) returns (out: Outcome)
      requires Valid() && InRange(op) && op.ProtectOp? && !Exposes(frames, ptes, op)
      modifies `ptes
      ensures Valid() && Moves(old(Now()), op, out, Now())
    {
      var err := Protect(op.space, op.page, op.n, op.present, op.writable);
      out := if err == Ok then Done else Failed(err);
      MovesIs(old(Now()), op, out, Now());
    }

    /** Every run of loads, stores, forks, unmaps, exits and protections is a run of the machine that copies at once, up
        to a protection that would make a shared frame writable: each load returns the same byte, each step fails as that
        machine may, what failures lose is exact, and so are the reference counts of private pages. */
    method Run(ops: seq<Op>) returns (outs: seq<Outcome>, ghost ms: seq<Mem>)
      requires Valid() && forall i | 0 <= i < |ops| :: InRange(ops[i])
      modifies this
      ensures Valid() && Traced(ms, ops, outs) && ms[0] == old(Now()) && ms[|outs|] == Now()
      ensures |outs| == |ops| || (|outs| < |ops| && Exposes(frames, ptes, ops[|outs|]))
      ensures |outs| < |ops| ==> ops[|outs|].ProtectOp? && ops[|outs|].present && ops[|outs|].writable
      ensures |outs| < |ops| ==> exists k | k in ptes ::
        k.space == ops[|outs|].space && ops[|outs|].page <= k.page < ops[|outs|].page + ops[|outs|].n
        && ptes[k].alloc && ptes[k].frame in frames && frames[ptes[k].frame].refs != 1
    {
      outs, ms := [], [Now()];
      while |outs| < |ops|
        invariant Valid() && Traced(ms, ops, outs) && ms[0] == old(Now()) && ms[|outs|] == Now()
        decreases |ops| - |outs|
      {
        if Exposes(frames, ptes, ops[|outs|]) {
          return;
        }
        var out := Step(ops[|outs|]);
        outs, ms := outs + [out], ms + [Now()];
      }
    }
  }

  // ----- the failing cases happen

  /** Two entries that name one private frame share it. */
  lemma TwoUsers(frames: Frames, ptes: Ptes, k: Key, k': Key)
    requires Counted(frames, ptes) && k in ptes && k' in ptes && k != k' && ptes[k].frame == ptes[k'].frame && ptes[k].alloc
    ensures SharedAt(frames, ptes, k)
  {
    var f := ptes[k].frame;
    assert FrameCounted(frames, ptes, f);
    SubsetSize({k, k'}, Users(ptes, f));
  }

  /** The run of the witnesses: pages of one byte value, and an environment that grants everything. */
  const PLENTY: Env := Env(true, true, true, true, true)

  function PrivateRegion(): Region {
    Region(true, true, false, false, Fill(seq(PAGESZ, _ => 0)), false)
  }

  function FileRegion(): Region {
    Region(true, true, false, true, PageCache(0, seq(PAGESZ, _ => 0)), false)
  }

  /** A store, a fork and two stores to page 0: the one at address 0 fails although there is room for a copy, and the one
      at address 1 succeeds. */
  method ZeroStore() returns (ops: seq<Op>, outs: seq<Outcome>, ghost ms: seq<Mem>)
    ensures ops == [StoreOp(Key(0, 0), 0, 0, PrivateRegion(), PLENTY), ForkOp(0, USERPAGES),
                    StoreOp(Key(0, 0), 0, 1, PrivateRegion(), PLENTY), StoreOp(Key(0, 0), 1, 1, PrivateRegion(), PLENTY)]
    ensures Traced(ms, ops, outs) && ms[0] == Mem(map[], map[], {})
    ensures |outs| == 4 && outs[0] == Done && outs[1].Forked? && outs[2] == Failed(EFAULT) && outs[3] == Done
  {
    ops := [StoreOp(Key(0, 0), 0, 0, PrivateRegion(), PLENTY), ForkOp(0, USERPAGES),
            StoreOp(Key(0, 0), 0, 1, PrivateRegion(), PLENTY), StoreOp(Key(0, 0), 1, 1, PrivateRegion(), PLENTY)];
    var m := new Memory();
    outs, ms := m.Run(ops);
    FirstStore(ms[0], ops[0], outs[0], ms[1]);
    assert Moves(ms[1], ops[1], outs[1], ms[2]) && Moves(ms[3], ops[3], outs[3], ms[4]);
    ForkMove(ms[1], ops[1], outs[1], ms[2], 0);
    StoreAfterFork(ms, ops, outs, 1, 2);
    StaysClosed(ms, ops, outs, 2, 3, Key(0, 0));
    StoreMove(ms[3], ops[3], outs[3], ms[4]);
  }

  /** The first store of a run brings its page in. */
  lemma FirstStore(m: Mem, op: Op, out: Outcome, m': Mem)
    requires Moves(m, op, out, m') && op.StoreOp? && op.key !in m.ptes && op.region == PrivateRegion() && op.env == PLENTY
    requires op.off == 0
    ensures out == Done && Fine(m') && op.key in m'.ptes && m'.ptes[op.key].alloc
    ensures m'.frames[m'.ptes[op.key].frame].bytes[0] == op.byte
  {
    MovesIs(m, op, out, m');
    assert ViewOf(m'.frames, m'.ptes).pages[op.key] == PageOf(m'.frames, m'.ptes[op.key]);
  }

  /** A store and a fork: from here a protection makes the page writable while its frame is shared, and a store through it
      changes the page of the other address space. */
  method LeakingStore(b: Byte) returns (ops: seq<Op>, outs: seq<Outcome>, ghost ms: seq<Mem>)
    requires b != 0
    ensures ops == [StoreOp(Key(0, 1), 0, 0, PrivateRegion(), PLENTY), ForkOp(0, USERPAGES)]
    ensures Traced(ms, ops, outs) && ms[0] == Mem(map[], map[], {}) && |outs| == 2 && outs[1].Forked?
    ensures Fine(ms[2]) && Exposes(ms[2].frames, ms[2].ptes, ProtectOp(0, 1, 1, true, true))
    ensures Leaks(ms[2], Key(0, 1), Key(outs[1].dst, 1), b)
  {
    ops := [StoreOp(Key(0, 1), 0, 0, PrivateRegion(), PLENTY), ForkOp(0, USERPAGES)];
    var m := new Memory();
    outs, ms := m.Run(ops);
    FirstStore(ms[0], ops[0], outs[0], ms[1]);
    assert Moves(ms[1], ops[1], outs[1], ms[2]);
    ForkLeaks(ms[1], ops[1], outs[1], ms[2], b);
  }

  /** A store of b to the first byte of page k changes what programs see of page k'. */
  ghost predicate Leaks(m: Mem, k: Key, k': Key, b: Byte)
    requires Fine(m)
  {
    && k in m.ptes && k' in m.ptes && k != k' && Named(Stored(m.frames, m.ptes[k].frame, 0, b), m.ptes)
    && ViewOf(Stored(m.frames, m.ptes[k].frame, 0, b), m.ptes).pages[k'] != ViewOf(m.frames, m.ptes).pages[k']
  }

  lemma ForkLeaks(m: Mem, op: Op, out: Outcome, m': Mem, b: Byte)
    requires Moves(m, op, out, m') && op == ForkOp(0, USERPAGES) && b != 0 && Fine(m)
    requires Key(0, 1) in m.ptes && m.ptes[Key(0, 1)].alloc && m.frames[m.ptes[Key(0, 1)].frame].bytes[0] == 0
    ensures out.Forked? && Fine(m') && Exposes(m'.frames, m'.ptes, ProtectOp(0, 1, 1, true, true))
    ensures Leaks(m', Key(0, 1), Key(out.dst, 1), b)
  {
    MovesIs(m, op, out, m');
    ForkCloses(m.ptes, m'.ptes, 0, out.dst, 1);
    TwoUsers(m'.frames, m'.ptes, Key(0, 1), Key(out.dst, 1));
    assert Covers(0, 1, 1, Key(0, 1));
    var f := m'.ptes[Key(0, 1)].frame;
    assert PageOf(m'.frames, m'.ptes[Key(0, 1)]) == ViewOf(m'.frames, m'.ptes).pages[Key(0, 1)]
        == ViewOf(m.frames, m.ptes).pages[Key(0, 1)] == PageOf(m.frames, m.ptes[Key(0, 1)]);
    assert Stored(m'.frames, f, 0, b)[f].bytes[0] != m'.frames[f].bytes[0];
  }

  /** A page of a file and a fork that fails behind it: a reference is not given back. */
  method LostReference() returns (ops: seq<Op>, outs: seq<Outcome>, ghost ms: seq<Mem>)
    ensures ops == [LoadOp(Key(0, 1), 0, FileRegion(), PLENTY), ForkOp(0, 2)]
    ensures Traced(ms, ops, outs) && ms[0] == Mem(map[], map[], {}) && |outs| == 2
    ensures outs[1] == Failed(ENOMEM) && ms[2].frames != ms[1].frames
  {
    ops := [LoadOp(Key(0, 1), 0, FileRegion(), PLENTY), ForkOp(0, 2)];
    var m := new Memory();
    outs, ms := m.Run(ops);
    assert Moves(ms[0], ops[0], outs[0], ms[1]) && Moves(ms[1], ops[1], outs[1], ms[2]);
    MovesIs(ms[0], ops[0], outs[0], ms[1]);
    MovesIs(ms[1], ops[1], outs[1], ms[2]);
    assert ViewOf(ms[1].frames, ms[1].ptes).pages[Key(0, 1)] == PageOf(ms[1].frames, ms[1].ptes[Key(0, 1)]);
    assert !ms[1].ptes[Key(0, 1)].alloc;
  }

  /** Two first touches without room for a table: the one of a file keeps a reference too many, and the other loses a
      frame. */
  method LostFrame() returns (ops: seq<Op>, outs: seq<Outcome>, ghost ms: seq<Mem>)
    ensures ops == [LoadOp(Key(0, 1), 0, FileRegion(), PLENTY.(canMap := false)),
                    StoreOp(Key(0, 1), 0, 0, PrivateRegion(), PLENTY.(canMap := false))]
    ensures Traced(ms, ops, outs) && ms[0] == Mem(map[], map[], {}) && outs == [Failed(ENOMEM), Failed(ENOMEM)]
    ensures ms[2].ptes == map[] && CachePage(0) in ms[2].frames && ms[2].frames[CachePage(0)].refs == 2 && |ms[2].lost| == 1
  {
    ops := [LoadOp(Key(0, 1), 0, FileRegion(), PLENTY.(canMap := false)),
            StoreOp(Key(0, 1), 0, 0, PrivateRegion(), PLENTY.(canMap := false))];
    var m := new Memory();
    outs, ms := m.Run(ops);
    assert Moves(ms[0], ops[0], outs[0], ms[1]) && Moves(ms[1], ops[1], outs[1], ms[2]);
    MovesIs(ms[0], ops[0], outs[0], ms[1]);
    MovesIs(ms[1], ops[1], outs[1], ms[2]);
  }
}
