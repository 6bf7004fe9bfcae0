/** The four-level page tables of src/kernel/arch/x86_64/paging.c: frames of 512 entries, rewritten in place. */
module PageTables {

  import opened Arithmetic
  import opened Kernel
  import opened FiniteSets
  import opened Seals

  /** A raw entry: the frame, PTE_P, PTE_W, PTE_ALLOC and the remaining bits. */
  datatype Entry = Entry(frame: int, present: bool, writable: bool, alloc: bool, bits: bv12)

  const ZERO: Entry := Entry(0, false, false, false, 0)
  const NPTE: int := 512

  /** PML4I(USTACK): the top-level entries below it are the user half. */
  const USERHALF: int := 256

  type Tables = map<int, seq<Entry>>

  /** Where a table hangs: the top-level table, or the indices that lead to it. */
  datatype Node = Root | L3(i4: int) | L2(i4: int, i3: int) | L1(i4: int, i3: int, i2: int)

  datatype Index = Index(i4: int, i3: int, i2: int, i1: int)

  predicate InRange(i: int) {
    0 <= i < NPTE
  }

  predicate ValidIndex(ix: Index) {
    InRange(ix.i4) && InRange(ix.i3) && InRange(ix.i2) && InRange(ix.i1)
  }

  /** PML4I, PDPTI, PDI and PTI of an address. */
  function IndexOf(addr: int): Index {
    Index((addr / 0x80_0000_0000) % NPTE, (addr / 0x4000_0000) % NPTE, (addr / 0x20_0000) % NPTE, (addr / 0x1000) % NPTE)
  }

  /** i2v: the upper half is sign-extended. */
  function AddressOf(ix: Index): int {
    (if ix.i4 >= 256 then 0xFFFF_0000_0000_0000 else 0)
      + ix.i4 * 0x80_0000_0000 + ix.i3 * 0x4000_0000 + ix.i2 * 0x20_0000 + ix.i1 * 0x1000
  }

  /** The 16 bits above those that are translated repeat the topmost of them. */
  predicate Canonical(addr: int) {
    0 <= addr < 0x8000_0000_0000 || 0xFFFF_8000_0000_0000 <= addr < WRAP
  }

  /** An address in digits: the quotient by a top-level entry, three indices and the offset. */
  lemma Digits(addr: int) returns (q: int, ix: Index)
    requires 0 <= addr
    ensures ix == IndexOf(addr) && ix.i4 == q % NPTE && ValidIndex(ix)
    ensures addr == q * 0x80_0000_0000 + ix.i3 * 0x4000_0000 + ix.i2 * 0x20_0000 + ix.i1 * 0x1000 + addr % 0x1000
  {
    var q1, off := addr / 0x1000, addr % 0x1000;
    var q2, i1 := q1 / NPTE, q1 % NPTE;
    Unique(0x20_0000, addr, q2, i1 * 0x1000 + off);
    var q3, i2 := q2 / NPTE, q2 % NPTE;
    Unique(0x4000_0000, addr, q3, i2 * 0x20_0000 + i1 * 0x1000 + off);
    var q4, i3 := q3 / NPTE, q3 % NPTE;
    Unique(0x80_0000_0000, addr, q4, i3 * 0x4000_0000 + i2 * 0x20_0000 + i1 * 0x1000 + off);
    q, ix := q4, IndexOf(addr);
  }

  /** The quotient of a canonical address is its top-level index, sign-extended. */
  lemma TopDigit(addr: int, q: int, low: int)
    requires Canonical(addr) && addr == q * 0x80_0000_0000 + low && 0 <= low < 0x80_0000_0000
    ensures q == (if q % NPTE >= 256 then 0xFFFF * NPTE else 0) + q % NPTE
  {
  }

  /** The address of the indices of an address is that of its page. */
  lemma AddressRoundTrip(addr: int)
    requires Canonical(addr)
    ensures ValidIndex(IndexOf(addr)) && AddressOf(IndexOf(addr)) == addr - addr % 0x1000
  {
    var q, ix := Digits(addr);
    TopDigit(addr, q, ix.i3 * 0x4000_0000 + ix.i2 * 0x20_0000 + ix.i1 * 0x1000 + addr % 0x1000);
  }

  /** And the indices of every address of a page are those of the page. */
  lemma IndexRoundTrip(ix: Index, off: int)
    requires ValidIndex(ix) && 0 <= off < 0x1000
    ensures IndexOf(AddressOf(ix) + off) == ix && Canonical(AddressOf(ix) + off)
  {
    var top := if ix.i4 >= 256 then 0xFFFF else 0;
    var q4 := top * 512 + ix.i4;
    var q3 := q4 * 512 + ix.i3;
    var q2 := q3 * 512 + ix.i2;
    var q1 := q2 * 512 + ix.i1;
    var addr := AddressOf(ix) + off;
    assert addr == q1 * 0x1000 + off;
    Unique(0x1000, addr, q1, off);
    Unique(0x20_0000, addr, q2, ix.i1 * 0x1000 + off);
    Unique(0x4000_0000, addr, q3, ix.i2 * 0x20_0000 + ix.i1 * 0x1000 + off);
    Unique(0x80_0000_0000, addr, q4, ix.i3 * 0x4000_0000 + ix.i2 * 0x20_0000 + ix.i1 * 0x1000 + off);
    Unique(NPTE, q1, q2, ix.i1);
    Unique(NPTE, q2, q3, ix.i2);
    Unique(NPTE, q3, q4, ix.i3);
    Unique(NPTE, q4, top, ix.i4);
  }

  /** One step of each index, in bytes. */
  lemma IndexSteps(ix: Index)
    requires ValidIndex(ix)
    ensures ix.i1 + 1 < 512 ==> AddressOf(ix.(i1 := ix.i1 + 1)) == AddressOf(ix) + 0x1000
    ensures ix.i2 + 1 < 512 ==> AddressOf(ix.(i2 := ix.i2 + 1)) == AddressOf(ix) + 512 * 0x1000
    ensures ix.i3 + 1 < 512 ==> AddressOf(ix.(i3 := ix.i3 + 1)) == AddressOf(ix) + 512 * 512 * 0x1000
    ensures ix.i4 + 1 < 256 ==> AddressOf(ix.(i4 := ix.i4 + 1)) == AddressOf(ix) + 512 * 512 * 512 * 0x1000
    ensures AddressOf(Index(0, 0, 0, 0)) == 0 && AddressOf(Index(511, 511, 511, 511)) == WRAP - 0x1000
  {
  }

  function Child(n: Node, i: int): Node
    requires !n.L1?
  {
    match n
    case Root => L3(i)
    case L3(i4) => L2(i4, i)
    case L2(i4, i3) => L1(i4, i3, i)
  }

  function Parent(n: Node): Node
    requires !n.Root?
  {
    match n
    case L3(_) => Root
    case L2(i4, _) => L3(i4)
    case L1(i4, i3, _) => L2(i4, i3)
  }

  function Slot(n: Node): int
    requires !n.Root?
  {
    match n
    case L3(i4) => i4
    case L2(_, i3) => i3
    case L1(_, _, i2) => i2
  }

  /** Frame at[n] holds the table at n, and every table frame is one of these. */
  ghost predicate Placed(tables: Tables, at: map<Node, int>, spot: map<int, Node>) {
    && Sized(tables, at)
    && (forall n | n in at :: at[n] in spot && spot[at[n]] == n)
    && (forall f | f in spot :: spot[f] in at && at[spot[f]] == f)
    && (forall f :: f in tables <==> f in spot)
  }

  ghost predicate Sized(tables: Tables, at: map<Node, int>) {
    forall n | n in at :: at[n] in tables && |tables[at[n]]| == NPTE
  }

  /** Each table but the top one hangs in its slot of the table above. */
  ghost predicate Hung(tables: Tables, at: map<Node, int>)
    requires Sized(tables, at)
  {
    forall n | n in at && !n.Root? ::
      && Parent(n) in at && InRange(Slot(n))
      && tables[at[Parent(n)]][Slot(n)].present && tables[at[Parent(n)]][Slot(n)].frame == at[n]
  }

  /** Above the last level a slot holds a table or zero. */
  ghost predicate Closed(tables: Tables, at: map<Node, int>)
    requires Sized(tables, at)
  {
    forall n, i | n in at && !n.L1? && InRange(i) :: Child(n, i) in at || tables[at[n]][i] == ZERO
  }

  ghost predicate Shape(root: int, tables: Tables, at: map<Node, int>, spot: map<int, Node>) {
    && Placed(tables, at, spot)
    && Root in at && at[Root] == root
    && Hung(tables, at) && Closed(tables, at)
  }

  // ----- translation

  /** The walk of x86_64_getmapping: the leaf entry, or zero when a table is missing. */
  function Lookup(root: int, tables: Tables, ix: Index): Entry
    requires ValidIndex(ix)
  {
    var e3 := EntryOf(tables, root, ix.i4);
    if !e3.present then ZERO else
    var e2 := EntryOf(tables, e3.frame, ix.i3);
    if !e2.present then ZERO else
    var e1 := EntryOf(tables, e2.frame, ix.i2);
    if !e1.present then ZERO else EntryOf(tables, e1.frame, ix.i1)
  }

  function EntryOf(tables: Tables, f: int, i: int): Entry {
    if f in tables && 0 <= i < |tables[f]| then tables[f][i] else ZERO
  }

  /** The walk finds the table at its place. */
  lemma LookupAt(root: int, tables: Tables, at: map<Node, int>, spot: map<int, Node>, ix: Index)
    requires Shape(root, tables, at, spot) && ValidIndex(ix)
    ensures Lookup(root, tables, ix) ==
      if L1(ix.i4, ix.i3, ix.i2) in at then tables[at[L1(ix.i4, ix.i3, ix.i2)]][ix.i1] else ZERO
  {
    var n3, n2, n1 := L3(ix.i4), L2(ix.i4, ix.i3), L1(ix.i4, ix.i3, ix.i2);
    assert Child(Root, ix.i4) == n3 && Child(n3, ix.i3) == n2 && Child(n2, ix.i2) == n1;
    assert Parent(n3) == Root && Parent(n2) == n3 && Parent(n1) == n2;
  }

  // ----- hanging a table, taking one away, writing a leaf

  function Zeros(): seq<Entry> {
    seq(NPTE, _ => ZERO)
  }

  function WithEntry(tables: Tables, f: int, i: int, e: Entry): Tables
    requires f in tables && 0 <= i < |tables[f]|
  {
    tables[f := tables[f][i := e]]
  }

  lemma HangShape(root: int, tables: Tables, at: map<Node, int>, spot: map<int, Node>, n: Node, i: int, f: int, e: Entry)
    requires Shape(root, tables, at, spot) && n in at && !n.L1? && InRange(i) && Child(n, i) !in at
    requires f !in tables && e.present && e.frame == f
    ensures Shape(root, WithEntry(tables[f := Zeros()], at[n], i, e), at[Child(n, i) := f], spot[f := Child(n, i)])
  {
  }

  /** A slot holds a present entry exactly when its table is there, and is empty otherwise. */
  lemma SlotTaken(root: int, tables: Tables, at: map<Node, int>, spot: map<int, Node>, n: Node, i: int)
    requires Shape(root, tables, at, spot) && n in at && !n.L1? && InRange(i)
    ensures at[n] in tables && |tables[at[n]]| == NPTE && (tables[at[n]][i].present <==> Child(n, i) in at)
    ensures Child(n, i) in at ==> at[Child(n, i)] == tables[at[n]][i].frame
    ensures Child(n, i) !in at ==> tables[at[n]][i] == ZERO
  {
    assert Child(n, i) in at ==> Parent(Child(n, i)) == n && Slot(Child(n, i)) == i;
  }

  /** No table hangs below c. */
  ghost predicate Childless(at: map<Node, int>, c: Node) {
    forall m | m in at && !m.Root? :: Parent(m) != c
  }

  lemma TakeShape(root: int, tables: Tables, at: map<Node, int>, spot: map<int, Node>, c: Node)
    requires Shape(root, tables, at, spot) && c in at && !c.Root? && Childless(at, c)
    ensures Shape(root, WithEntry(tables, at[Parent(c)], Slot(c), ZERO) - {at[c]}, at - {c}, spot - {at[c]})
  {
  }

  /** Hanging an empty table and taking it away again restores every frame. */
  lemma HangTake(tables: Tables, t: int, i: int, f: int, e: Entry)
    requires t in tables && 0 <= i < |tables[t]| && tables[t][i] == ZERO && f !in tables
    ensures WithEntry(WithEntry(tables[f := Zeros()], t, i, e), t, i, ZERO) - {f} == tables
  {
    assert tables[t][i := e][i := ZERO] == tables[t];
  }

  lemma LeafShape(root: int, tables: Tables, at: map<Node, int>, spot: map<int, Node>, n: Node, i: int, e: Entry)
    requires Shape(root, tables, at, spot) && n in at && n.L1? && InRange(i)
    ensures Shape(root, WithEntry(tables, at[n], i, e), at, spot)
  {
  }

  // ----- what the three changes do to translation

  ghost predicate SameLookups(root: int, tables: Tables, tables': Tables) {
    forall ix | ValidIndex(ix) :: Lookup(root, tables', ix) == Lookup(root, tables, ix)
  }

  lemma HangLookup(root: int, tables: Tables, at: map<Node, int>, spot: map<int, Node>, n: Node, i: int, f: int, e: Entry)
    requires Shape(root, tables, at, spot) && n in at && !n.L1? && InRange(i) && Child(n, i) !in at
    requires f !in tables && e.present && e.frame == f
    ensures SameLookups(root, tables, WithEntry(tables[f := Zeros()], at[n], i, e))
  {
    HangShape(root, tables, at, spot, n, i, f, e);
    forall ix | ValidIndex(ix)
      ensures Lookup(root, WithEntry(tables[f := Zeros()], at[n], i, e), ix) == Lookup(root, tables, ix)
    {
      LookupAt(root, tables, at, spot, ix);
      LookupAt(root, WithEntry(tables[f := Zeros()], at[n], i, e), at[Child(n, i) := f], spot[f := Child(n, i)], ix);
    }
  }

  lemma LeafLookup(root: int, tables: Tables, at: map<Node, int>, spot: map<int, Node>, ix: Index, e: Entry, jx: Index)
    requires Shape(root, tables, at, spot) && ValidIndex(ix) && L1(ix.i4, ix.i3, ix.i2) in at && ValidIndex(jx)
    ensures Lookup(root, WithEntry(tables, at[L1(ix.i4, ix.i3, ix.i2)], ix.i1, e), jx) ==
      if jx == ix then e else Lookup(root, tables, jx)
  {
    LeafShape(root, tables, at, spot, L1(ix.i4, ix.i3, ix.i2), ix.i1, e);
    LookupAt(root, tables, at, spot, jx);
    LookupAt(root, WithEntry(tables, at[L1(ix.i4, ix.i3, ix.i2)], ix.i1, e), at, spot, jx);
  }

  /** The flag bits of a mapping request. */
  datatype Flags = Flags(present: bool, writable: bool, alloc: bool, remap: bool, huge: bool, bits: bv12)

  const PTE_WT: bv12 := 8

  /** The entry for a table: always present, writable and written through. */
  function TableEntry(f: int, flags: Flags): Entry {
    Entry(f, true, true, flags.alloc, flags.bits | PTE_WT)
  }

  function LeafEntry(pa: int, flags: Flags): Entry {
    Entry(pa, flags.present, flags.writable, flags.alloc, flags.bits)
  }

  /** A table of its own, with the flags of the request. */
  predicate HangsAs(e: Entry, f: int, flags: Flags) {
    e.frame == f && e.present && e.writable && e.alloc == flags.alloc && e.bits == flags.bits | 0x008
  }

  lemma HangEntry(tables: Tables, t: int, i: int, f: int, flags: Flags)
    requires t in tables && |tables[t]| == NPTE && InRange(i) && f !in tables
    ensures var tables' := WithEntry(tables[f := Zeros()], t, i, TableEntry(f, flags));
      t in tables' && |tables'[t]| == NPTE && HangsAs(tables'[t][i], f, flags)
  {
  }

  /** A leaf with exactly the flags of the request. */
  predicate StoredAs(e: Entry, pa: int, flags: Flags) {
    e.frame == pa && e.present == flags.present && e.writable == flags.writable && e.alloc == flags.alloc && e.bits == flags.bits
  }

  /** The tables that a translation of ix still lacks. */
  ghost function Missing(nodes: set<Node>, ix: Index): int {
    if L1(ix.i4, ix.i3, ix.i2) in nodes then 0
    else if L2(ix.i4, ix.i3) in nodes then 1
    else if L3(ix.i4) in nodes then 2
    else 3
  }

  /** That is their number. */
  lemma MissingCount(nodes: set<Node>, ix: Index)
    requires L1(ix.i4, ix.i3, ix.i2) in nodes ==> L2(ix.i4, ix.i3) in nodes
    requires L2(ix.i4, ix.i3) in nodes ==> L3(ix.i4) in nodes
    ensures Missing(nodes, ix) == |PathTo(ix) - nodes|
  {
    var n3, n2, n1 := L3(ix.i4), L2(ix.i4, ix.i3), L1(ix.i4, ix.i3, ix.i2);
    if n1 in nodes {
      assert PathTo(ix) - nodes == {};
    } else if n2 in nodes {
      assert PathTo(ix) - nodes == {n1};
    } else if n3 in nodes {
      assert PathTo(ix) - nodes == {n1, n2};
    } else {
      assert PathTo(ix) - nodes == {n1, n2, n3};
    }
  }

  /** The result of x86_64_map_pt, which has no last index to look at. */
  ghost function MapPtResult(nodes: set<Node>, ix: Index, flags: Flags, avail: nat): Errno {
    if !(InRange(ix.i4) && InRange(ix.i3) && InRange(ix.i2)) then EINVAL
    else if flags.huge then ENOTSUP
    else if Missing(nodes, ix) <= avail then Ok
    else ENOMEM
  }

  ghost function MapResult(nodes: set<Node>, ix: Index, flags: Flags, avail: nat): Errno {
    if !ValidIndex(ix) then EINVAL
    else if flags.huge then ENOTSUP
    else if Missing(nodes, ix) <= avail then Ok
    else ENOMEM
  }

  /** The tables that a translation of ix goes through, below the top one. */
  ghost function PathTo(ix: Index): set<Node> {
    {L3(ix.i4), L2(ix.i4, ix.i3), L1(ix.i4, ix.i3, ix.i2)}
  }

  /** Only ix is translated anew, and not even ix when it was present and no remap is asked for. */
  ghost predicate Mapped(root: int, tables: Tables, tables': Tables, ix: Index, e: Entry, remap: bool)
    requires ValidIndex(ix)
  {
    var old_ := Lookup(root, tables, ix);
    forall jx | ValidIndex(jx) ::
      Lookup(root, tables', jx) == if jx == ix then (if remap || !old_.present then e else old_) else Lookup(root, tables, jx)
  }

  /** The entry of ix holds a frame that was allocated for it. */
  ghost predicate Allocated(root: int, tables: Tables, ix: Index)
    requires ValidIndex(ix)
  {
    Lookup(root, tables, ix).present && Lookup(root, tables, ix).alloc
  }

  // ----- clearing a subtree

  datatype State = State(tables: Tables, at: map<Node, int>, spot: map<int, Node>)

  ghost predicate ShapeOf(root: int, s: State) {
    Shape(root, s.tables, s.at, s.spot)
  }

  /** The same, a few recursive steps away. */
  ghost predicate Sound(root: int, s: State, seal: Seal := SEALED)
  {
    match seal
    case Open => ShapeOf(root, s)
    case Shut(inner) => Sound(root, s, inner)
  }

  lemma SoundIs(root: int, s: State)
    ensures Sound(root, s) <==> ShapeOf(root, s)
  {
    assert Sound(root, s, Shut(Shut(Open))) == Sound(root, s, Shut(Open)) == Sound(root, s, Open);
  }

  function Level(n: Node): nat {
    match n
    case Root => 3
    case L3(_) => 2
    case L2(_, _) => 1
    case L1(_, _, _) => 0
  }

  /** The table at m hangs below a slot of n from lo on and before hi. */
  predicate Via(m: Node, n: Node, lo: int, hi: int) {
    match n
    case Root => !m.Root? && lo <= m.i4 < hi
    case L3(i4) => (m.L2? || m.L1?) && m.i4 == i4 && lo <= m.i3 < hi
    case L2(i4, i3) => m.L1? && m.i4 == i4 && m.i3 == i3 && lo <= m.i2 < hi
    case L1(_, _, _) => false
  }

  /** The translation of ix goes through such a slot. */
  predicate LeafVia(ix: Index, n: Node, lo: int, hi: int) {
    match n
    case Root => lo <= ix.i4 < hi
    case L3(i4) => ix.i4 == i4 && lo <= ix.i3 < hi
    case L2(i4, i3) => ix.i4 == i4 && ix.i3 == i3 && lo <= ix.i2 < hi
    case L1(i4, i3, i2) => ix.i4 == i4 && ix.i3 == i3 && ix.i2 == i2 && lo <= ix.i1 < hi
  }

  /** The tables below those slots are gone, and the others are where they were. */
  ghost predicate PrunedNodes(s: State, s': State, n: Node, lo: int, hi: int) {
    && (forall m :: m in s'.at <==> m in s.at && !Via(m, n, lo, hi))
    && (forall m | m in s'.at :: s'.at[m] == s.at[m])
  }

  /** Every entry of theirs is as before, but for those slots. */
  ghost predicate PrunedEntries(s: State, s': State, n: Node, lo: int, hi: int) {
    && (forall m, i | m in s'.at && InRange(i) && !(m == n && lo <= i < hi) ::
          EntryOf(s'.tables, s'.at[m], i) == EntryOf(s.tables, s'.at[m], i))
    && (n.L1? && n in s'.at ==> forall i | lo <= i < hi :: !EntryOf(s'.tables, s'.at[n], i).present)
  }

  ghost predicate Pruned(s: State, s': State, n: Node, lo: int, hi: int) {
    PrunedNodes(s, s', n, lo, hi) && PrunedEntries(s, s', n, lo, hi)
  }

  /** Exactly the allocated leaves below those slots, each once. */
  ghost predicate FreedLeaves(root: int, s: State, n: Node, lo: int, hi: int, leaves: seq<Index>) {
    && NoDup(leaves)
    && (forall ix :: ix in leaves <==> ValidIndex(ix) && LeafVia(ix, n, lo, hi) && Allocated(root, s.tables, ix))
  }

  /** Exactly the tables below those slots, each once. */
  ghost predicate FreedFrames(s: State, n: Node, lo: int, hi: int, frames: seq<int>) {
    && NoDup(frames)
    && (forall f :: f in frames <==> f in s.spot && Via(s.spot[f], n, lo, hi))
  }

  ghost predicate Freed(root: int, s: State, n: Node, lo: int, hi: int, leaves: seq<Index>, frames: seq<int>) {
    FreedLeaves(root, s, n, lo, hi, leaves) && FreedFrames(s, n, lo, hi, frames)
  }

  /** The walk in a sealed shape. */
  lemma LookupSound(root: int, s: State, ix: Index)
    requires Sound(root, s) && ValidIndex(ix)
    ensures Lookup(root, s.tables, ix) ==
      if L1(ix.i4, ix.i3, ix.i2) in s.at then EntryOf(s.tables, s.at[L1(ix.i4, ix.i3, ix.i2)], ix.i1) else ZERO
  {
    SoundIs(root, s);
    LookupAt(root, s.tables, s.at, s.spot, ix);
  }

  lemma PrunedLookup(root: int, s: State, s': State, n: Node, lo: int, hi: int, ix: Index)
    requires Sound(root, s) && Sound(root, s') && n in s.at && Pruned(s, s', n, lo, hi) && ValidIndex(ix)
    ensures !LeafVia(ix, n, lo, hi) ==> Lookup(root, s'.tables, ix) == Lookup(root, s.tables, ix)
    ensures LeafVia(ix, n, lo, hi) ==> !Lookup(root, s'.tables, ix).present
  {
    LookupSound(root, s, ix);
    LookupSound(root, s', ix);
    var m := L1(ix.i4, ix.i3, ix.i2);
    if m in s'.at {
      assert s'.at[m] == s.at[m];
      assert !(m == n && lo <= ix.i1 < hi) ==> EntryOf(s'.tables, s'.at[m], ix.i1) == EntryOf(s.tables, s'.at[m], ix.i1);
    }
  }

  lemma PrunedJoin(s0: State, s1: State, s2: State, n: Node, i: int)
    requires n in s2.at && InRange(i) && Pruned(s0, s1, n, 0, i) && Pruned(s1, s2, n, i, i + 1)
    ensures Pruned(s0, s2, n, 0, i + 1)
  {
    forall m
      ensures Via(m, n, 0, i + 1) <==> Via(m, n, 0, i) || Via(m, n, i, i + 1)
    {
      ViaSplit(m, n, i);
    }
    forall m, j | m in s2.at && InRange(j) && !(m == n && 0 <= j < i + 1)
      ensures EntryOf(s2.tables, s2.at[m], j) == EntryOf(s0.tables, s2.at[m], j)
    {
      assert m in s1.at && s1.at[m] == s2.at[m];
      assert EntryOf(s1.tables, s1.at[m], j) == EntryOf(s0.tables, s1.at[m], j);
    }
    if n.L1? {
      forall j | 0 <= j < i + 1
        ensures !EntryOf(s2.tables, s2.at[n], j).present
      {
        assert InRange(j) && j < i ==> EntryOf(s2.tables, s2.at[n], j) == EntryOf(s1.tables, s2.at[n], j);
      }
    }
  }

  lemma LeavesJoin(root: int, s0: State, s1: State, n: Node, i: int, leaves: seq<Index>, leaves': seq<Index>)
    requires Sound(root, s0) && Sound(root, s1) && n in s0.at && 0 <= i && Pruned(s0, s1, n, 0, i)
    requires FreedLeaves(root, s0, n, 0, i, leaves) && FreedLeaves(root, s1, n, i, i + 1, leaves')
    ensures FreedLeaves(root, s0, n, 0, i + 1, leaves + leaves')
  {
    NoDupJoin(leaves, leaves');
    forall ix | ValidIndex(ix) && LeafVia(ix, n, i, i + 1)
      ensures Allocated(root, s1.tables, ix) <==> Allocated(root, s0.tables, ix)
    {
      PrunedLookup(root, s0, s1, n, 0, i, ix);
    }
  }

  lemma ViaSplit(m: Node, n: Node, i: int)
    requires 0 <= i
    ensures Via(m, n, 0, i + 1) <==> Via(m, n, 0, i) || Via(m, n, i, i + 1)
    ensures !(Via(m, n, 0, i) && Via(m, n, i, i + 1))
  {
  }

  lemma FramesJoin(s0: State, s1: State, n: Node, i: int, frames: seq<int>, frames': seq<int>)
    requires Placed(s0.tables, s0.at, s0.spot) && Placed(s1.tables, s1.at, s1.spot) && 0 <= i
    requires PrunedNodes(s0, s1, n, 0, i)
    requires FreedFrames(s0, n, 0, i, frames) && FreedFrames(s1, n, i, i + 1, frames')
    ensures FreedFrames(s0, n, 0, i + 1, frames + frames')
  {
    forall f
      ensures f in frames' <==> f in s0.spot && Via(s0.spot[f], n, i, i + 1)
      ensures f in frames ==> f !in frames'
    {
      if f in s1.spot {
        assert s1.at[s1.spot[f]] == s0.at[s1.spot[f]] == f;
      }
      if f in s0.spot {
        ViaSplit(s0.spot[f], n, i);
        assert s0.spot[f] in s0.at;
      }
    }
    NoDupJoin(frames, frames');
    forall f
      ensures f in frames + frames' <==> f in s0.spot && Via(s0.spot[f], n, 0, i + 1)
    {
      if f in s0.spot {
        ViaSplit(s0.spot[f], n, i);
      }
    }
  }

  /** All of it, a few recursive steps away, so that only proofs that ask for it look inside. */
  ghost predicate Cleared(root: int, s: State, s': State, n: Node, lo: int, hi: int,
                          leaves: seq<Index>, frames: seq<int>, seal: Seal := SEALED)
  {
    match seal
    case Open => Pruned(s, s', n, lo, hi) && Freed(root, s, n, lo, hi, leaves, frames)
    case Shut(inner) => Cleared(root, s, s', n, lo, hi, leaves, frames, inner)
  }

  lemma ClearedIs(root: int, s: State, s': State, n: Node, lo: int, hi: int, leaves: seq<Index>, frames: seq<int>)
    ensures Cleared(root, s, s', n, lo, hi, leaves, frames) <==>
      Pruned(s, s', n, lo, hi) && Freed(root, s, n, lo, hi, leaves, frames)
  {
    assert Cleared(root, s, s', n, lo, hi, leaves, frames, Shut(Shut(Open)))
        == Cleared(root, s, s', n, lo, hi, leaves, frames, Shut(Open)) == Cleared(root, s, s', n, lo, hi, leaves, frames, Open);
  }

  /** Nothing is cleared before the first slot. */
  lemma ClearedNone(root: int, s: State, n: Node)
    ensures Cleared(root, s, s, n, 0, 0, [], [])
  {
    ClearedIs(root, s, s, n, 0, 0, [], []);
  }

  /** The slots before i, and then slot i. */
  lemma ClearedJoin(root: int, s0: State, s1: State, s2: State, n: Node, i: int,
                    leaves: seq<Index>, frames: seq<int>, leaves': seq<Index>, frames': seq<int>)
    requires Sound(root, s0) && Sound(root, s1) && n in s0.at && n in s2.at && InRange(i)
    requires Cleared(root, s0, s1, n, 0, i, leaves, frames) && Cleared(root, s1, s2, n, i, i + 1, leaves', frames')
    ensures Cleared(root, s0, s2, n, 0, i + 1, leaves + leaves', frames + frames')
  {
    SoundIs(root, s0);
    SoundIs(root, s1);
    ClearedIs(root, s0, s1, n, 0, i, leaves, frames);
    ClearedIs(root, s1, s2, n, i, i + 1, leaves', frames');
    PrunedJoin(s0, s1, s2, n, i);
    LeavesJoin(root, s0, s1, n, i, leaves, leaves');
    FramesJoin(s0, s1, n, i, frames, frames');
    ClearedIs(root, s0, s2, n, 0, i + 1, leaves + leaves', frames + frames');
  }

  /** A slot that holds nothing. */
  lemma NothingThere(root: int, s: State, n: Node, i: int)
    requires Sound(root, s) && n in s.at && InRange(i) && !EntryOf(s.tables, s.at[n], i).present
    ensures Cleared(root, s, s, n, i, i + 1, [], [])
  {
    ClearedIs(root, s, s, n, i, i + 1, [], []);
    forall m | m in s.at
      ensures !Via(m, n, i, i + 1)
    {
      SoundIs(root, s);
      NotBelow(root, s, m, n, i);
    }
    NoFrames(root, s, n, i);
    forall ix | ValidIndex(ix) && LeafVia(ix, n, i, i + 1)
      ensures !Allocated(root, s.tables, ix)
    {
      NothingBelow(root, s, n, i, ix);
    }
  }

  lemma NoFrames(root: int, s: State, n: Node, i: int)
    requires Sound(root, s) && forall m | m in s.at :: !Via(m, n, i, i + 1)
    ensures FreedFrames(s, n, i, i + 1, [])
  {
    SoundIs(root, s);
  }

  /** No translation goes through an empty slot. */
  lemma NothingBelow(root: int, s: State, n: Node, i: int, ix: Index)
    requires Sound(root, s) && n in s.at && InRange(i) && !EntryOf(s.tables, s.at[n], i).present
    requires ValidIndex(ix) && LeafVia(ix, n, i, i + 1)
    ensures !Lookup(root, s.tables, ix).present
  {
    SoundIs(root, s);
    LookupAt(root, s.tables, s.at, s.spot, ix);
    if !n.L1? && L1(ix.i4, ix.i3, ix.i2) in s.at {
      NotBelow(root, s, L1(ix.i4, ix.i3, ix.i2), n, i);
    }
  }

  /** Nothing hangs below an empty slot. */
  lemma NotBelow(root: int, s: State, m: Node, n: Node, i: int)
    requires ShapeOf(root, s) && n in s.at && InRange(i) && !EntryOf(s.tables, s.at[n], i).present && m in s.at
    ensures !Via(m, n, i, i + 1)
    decreases 3 - Level(m)
  {
  }

  /** The indices of a table are in range. */
  lemma NodeInRange(root: int, s: State, m: Node)
    requires ShapeOf(root, s) && m in s.at
    ensures !m.Root? ==> InRange(m.i4)
    ensures m.L2? || m.L1? ==> InRange(m.i3)
    ensures m.L1? ==> InRange(m.i2)
    decreases 3 - Level(m)
  {
  }

  /** Unmapping one leaf. */
  lemma SlotLeaf(root: int, s: State, n: Node, i: int, leaves: seq<Index>)
    requires ShapeOf(root, s) && n in s.at && n.L1? && InRange(i) && s.tables[s.at[n]][i].present
    requires leaves == if s.tables[s.at[n]][i].alloc then [Index(n.i4, n.i3, n.i2, i)] else []
    ensures Cleared(root, s, s.(tables := WithEntry(s.tables, s.at[n], i, ZERO)), n, i, i + 1, leaves, [])
  {
    LeafPruned(s, n, i);
    LeafFreed(root, s, n, i, leaves);
    ClearedIs(root, s, s.(tables := WithEntry(s.tables, s.at[n], i, ZERO)), n, i, i + 1, leaves, []);
  }

  lemma LeafPruned(s: State, n: Node, i: int)
    requires Placed(s.tables, s.at, s.spot) && n in s.at && n.L1? && InRange(i)
    ensures Pruned(s, s.(tables := WithEntry(s.tables, s.at[n], i, ZERO)), n, i, i + 1)
  {
  }

  lemma LeafFreed(root: int, s: State, n: Node, i: int, leaves: seq<Index>)
    requires ShapeOf(root, s) && n in s.at && n.L1? && InRange(i) && s.tables[s.at[n]][i].present
    requires leaves == if s.tables[s.at[n]][i].alloc then [Index(n.i4, n.i3, n.i2, i)] else []
    ensures Freed(root, s, n, i, i + 1, leaves, [])
  {
  }

  /** The tables below slot i are the one in it and those below that one. */
  lemma ViaChild(root: int, s: State, m: Node, n: Node, i: int)
    requires ShapeOf(root, s) && m in s.at && !n.L1?
    ensures Via(m, n, i, i + 1) <==> m == Child(n, i) || Via(m, Child(n, i), 0, NPTE)
  {
  }

  /** Taking away a table that was cleared clears its slot. */
  lemma ClearedUp(root: int, s0: State, s1: State, n: Node, i: int, leaves: seq<Index>, frames: seq<int>)
    requires ShapeOf(root, s0) && ShapeOf(root, s1) && n in s0.at && !n.L1? && InRange(i) && Child(n, i) in s0.at
    requires Cleared(root, s0, s1, Child(n, i), 0, NPTE, leaves, frames)
    ensures Childless(s1.at, Child(n, i)) && n in s1.at && s1.at[n] == s0.at[n]
    ensures Child(n, i) in s1.at && s1.at[Child(n, i)] == s0.at[Child(n, i)]
    ensures Cleared(root, s0, Taken(s1, n, i), n, i, i + 1, leaves, frames + [s0.at[Child(n, i)]])
  {
    var c, frames' := Child(n, i), frames + [s0.at[Child(n, i)]];
    ClearedIs(root, s0, s1, c, 0, NPTE, leaves, frames);
    forall m | m in s1.at && !m.Root?
      ensures Parent(m) != c
    {
      NodeInRange(root, s1, m);
    }
    forall m | m in s0.at
      ensures Via(m, n, i, i + 1) <==> m == c || Via(m, c, 0, NPTE)
    {
      ViaChild(root, s0, m, n, i);
    }
    PrunedUp(s0, s1, n, i);
    FreedUp(root, s0, n, i, leaves, frames);
    ClearedIs(root, s0, Taken(s1, n, i), n, i, i + 1, leaves, frames');
  }

  lemma PrunedUp(s0: State, s1: State, n: Node, i: int)
    requires Placed(s0.tables, s0.at, s0.spot) && Placed(s1.tables, s1.at, s1.spot) && !n.L1? && InRange(i)
    requires n in s0.at && n in s1.at && Child(n, i) in s1.at && Pruned(s0, s1, Child(n, i), 0, NPTE)
    requires forall m | m in s0.at :: Via(m, n, i, i + 1) <==> m == Child(n, i) || Via(m, Child(n, i), 0, NPTE)
    ensures Pruned(s0, Taken(s1, n, i), n, i, i + 1)
  {
    var c, s2 := Child(n, i), Taken(s1, n, i);
    forall m, j | m in s2.at && InRange(j) && !(m == n && i <= j < i + 1)
      ensures EntryOf(s2.tables, s2.at[m], j) == EntryOf(s0.tables, s2.at[m], j)
    {
      assert m != n ==> s1.at[m] != s1.at[n];
      assert EntryOf(s1.tables, s1.at[m], j) == EntryOf(s0.tables, s1.at[m], j);
    }
  }

  lemma FreedUp(root: int, s0: State, n: Node, i: int, leaves: seq<Index>, frames: seq<int>)
    requires ShapeOf(root, s0) && n in s0.at && !n.L1? && InRange(i) && Child(n, i) in s0.at
    requires Freed(root, s0, Child(n, i), 0, NPTE, leaves, frames)
    ensures Freed(root, s0, n, i, i + 1, leaves, frames + [s0.at[Child(n, i)]])
  {
  }

  /** The table in slot i of n taken away. */
  ghost function Taken(s: State, n: Node, i: int): State
    requires !n.L1? && n in s.at && s.at[n] in s.tables && 0 <= i < |s.tables[s.at[n]]| && Child(n, i) in s.at
  {
    var f := s.at[Child(n, i)];
    State(WithEntry(s.tables, s.at[n], i, ZERO) - {f}, s.at - {Child(n, i)}, s.spot - {f})
  }

  /** What clearing the user half from the top amounts to. */
  lemma FullyCleared(root: int, s: State, s': State)
    requires ShapeOf(root, s) && ShapeOf(root, s') && Pruned(s, s', Root, 0, USERHALF)
    ensures forall ix | ValidIndex(ix) :: if ix.i4 < USERHALF then !Lookup(root, s'.tables, ix).present
                                          else Lookup(root, s'.tables, ix) == Lookup(root, s.tables, ix)
    ensures forall n :: n in s'.at <==> n in s.at && (n.Root? || n.i4 >= USERHALF)
    ensures forall n | n in s'.at && !n.Root? :: s'.at[n] == s.at[n] && s'.tables[s.at[n]] == s.tables[s.at[n]]
    ensures forall f :: f in s.tables && f !in s'.tables <==> f in s.spot && Via(s.spot[f], Root, 0, USERHALF)
  {
    SoundIs(root, s);
    SoundIs(root, s');
    forall ix | ValidIndex(ix)
      ensures if ix.i4 < USERHALF then !Lookup(root, s'.tables, ix).present
              else Lookup(root, s'.tables, ix) == Lookup(root, s.tables, ix)
    {
      PrunedLookup(root, s, s', Root, 0, USERHALF, ix);
    }
    forall n | n in s.at
      ensures !n.Root? ==> n.i4 >= 0
    {
      NodeInRange(root, s, n);
    }
    forall n | n in s'.at && !n.Root?
      ensures s'.tables[s.at[n]] == s.tables[s.at[n]]
    {
      forall i | InRange(i)
        ensures s'.tables[s.at[n]][i] == s.tables[s.at[n]][i]
      {
        assert EntryOf(s'.tables, s.at[n], i) == EntryOf(s.tables, s.at[n], i);
      }
    }
  }

  class PageMap {
    const root: int
    var tables: Tables
    ghost var at: map<Node, int>
    ghost var spot: map<int, Node>

    ghost predicate Valid()
      reads this
    {
      Shape(root, tables, at, spot)
    }

    ghost function Now(): State
      reads this
    {
      State(tables, at, spot)
    }

    constructor (root: int)
      ensures Valid() && this.root == root && at == map[Root := root]
    {
      this.root := root;
      tables, at, spot := map[root := Zeros()], map[Root := root], map[root := Root];
    }

    /** pmman.get_page, when a frame is left. */
    method FreshFrame() returns (f: int)
      ensures f !in tables
    {
      ghost var x := AboveAll(tables.Keys);
      assert x !in tables;
      f :| f !in tables;
    }

    /** The table in slot i of the table t, which is at n; a missing one is taken from the avail free frames. */
    method Ensure(t: int, i: int, flags: Flags, avail: nat, ghost n: Node) returns (err: Errno, f: int, taken: bool)
      requires Valid() && n in at && !n.L1? && at[n] == t && InRange(i)
      modifies this
      ensures Valid() && SameLookups(root, old(tables), tables)
      ensures err == if Child(n, i) in old(at) || avail > 0 then Ok else ENOMEM
      ensures taken <==> err == Ok && Child(n, i) !in old(at)
      ensures err == Ok ==> Child(n, i) in at && at[Child(n, i)] == f
      ensures !taken ==> tables == old(tables) && at == old(at) && spot == old(spot)
      ensures taken ==> f !in old(tables) && old(tables)[t][i] == ZERO
                        && tables == WithEntry(old(tables)[f := Zeros()], t, i, TableEntry(f, flags))
                        && at == old(at)[Child(n, i) := f] && spot == old(spot)[f := Child(n, i)]
      ensures taken ==> t in tables && |tables[t]| == NPTE && HangsAs(tables[t][i], f, flags)
    {
      err, f, taken := Ok, 0, false;
      SlotTaken(root, tables, at, spot, n, i);
      if tables[t][i].present {
        f := tables[t][i].frame;
        return;
      }
      if avail == 0 {
        return ENOMEM, 0, false;
      }
      f := FreshFrame();
      taken := true;
      HangEntry(tables, t, i, f, flags);
      Hang(t, i, f, flags, n);
    }

    /** Hangs the new table f in the empty slot i of the table t, which is at n. */
    method Hang(t: int, i: int, f: int, flags: Flags, ghost n: Node)
      requires Valid() && n in at && !n.L1? && at[n] == t && InRange(i) && Child(n, i) !in at && f !in tables
      requires t in tables && |tables[t]| == NPTE
      modifies this
      ensures Valid() && SameLookups(root, old(tables), tables)
      ensures tables == WithEntry(old(tables)[f := Zeros()], t, i, TableEntry(f, flags))
      ensures at == old(at)[Child(n, i) := f] && spot == old(spot)[f := Child(n, i)]
    {
      HangShape(root, tables, at, spot, n, i, f, TableEntry(f, flags));
      HangLookup(root, tables, at, spot, n, i, f, TableEntry(f, flags));
      tables := WithEntry(tables[f := Zeros()], t, i, TableEntry(f, flags));
      at, spot := at[Child(n, i) := f], spot[f := Child(n, i)];
    }

    /** Takes the childless table f out of slot i of the table t, which is at n. */
    method Take(t: int, i: int, f: int, ghost n: Node)
      requires Valid() && n in at && !n.L1? && at[n] == t && InRange(i)
      requires Child(n, i) in at && at[Child(n, i)] == f && Childless(at, Child(n, i))
      modifies this
      ensures Valid() && tables == WithEntry(old(tables), t, i, ZERO) - {f}
      ensures at == old(at) - {Child(n, i)} && spot == old(spot) - {f}
    {
      assert Parent(Child(n, i)) == n && Slot(Child(n, i)) == i;
      TakeShape(root, tables, at, spot, Child(n, i));
      tables := WithEntry(tables, t, i, ZERO) - {f};
      at, spot := at - {Child(n, i)}, spot - {f};
    }

    /** The error path of x86_64_map and x86_64_map_pt: a table that was taken goes back. */
    method Undo(t: int, i: int, f: int, taken: bool, flags: Flags, ghost n: Node,
                ghost tables0: Tables, ghost at0: map<Node, int>, ghost spot0: map<int, Node>)
      requires Valid() && Shape(root, tables0, at0, spot0) && n in at0 && !n.L1? && at0[n] == t && InRange(i)
      requires taken <==> Child(n, i) !in at0
      requires !taken ==> tables == tables0 && at == at0 && spot == spot0
      requires taken ==> f !in tables0 && tables0[t][i] == ZERO
                         && tables == WithEntry(tables0[f := Zeros()], t, i, TableEntry(f, flags))
                         && at == at0[Child(n, i) := f] && spot == spot0[f := Child(n, i)]
      modifies this
      ensures tables == tables0 && at == at0 && spot == spot0
    {
      if taken {
        assert Childless(at, Child(n, i));
        HangTake(tables0, t, i, f, TableEntry(f, flags));
        Take(t, i, f, n);
        assert at == at0 && spot == spot0;
      }
    }

    /** x86_64_map_pt: every table on the way to ix, or no change at all. */
    method MapPt(ix: Index, flags: Flags, avail: nat) returns (err: Errno, l1: int)
      requires Valid()
      modifies this
      ensures Valid() && SameLookups(root, old(tables), tables)
      ensures err == MapPtResult(old(at).Keys, ix, flags, avail)
      ensures err != Ok ==> tables == old(tables) && at == old(at)
      ensures err == Ok ==> L1(ix.i4, ix.i3, ix.i2) in at && at[L1(ix.i4, ix.i3, ix.i2)] == l1
      ensures err == Ok ==> forall n :: n in at <==> n in old(at) || n in PathTo(ix)
    {
      if !(InRange(ix.i4) && InRange(ix.i3) && InRange(ix.i2)) {
        return EINVAL, 0;
      }
      if flags.huge {
        return ENOTSUP, 0;
      }
      err, l1 := MapTables(ix, flags, avail);
    }

    /** The tables on the way to ix, or none of them. */
    method MapTables(ix: Index, flags: Flags, avail: nat) returns (err: Errno, l1: int)
      requires Valid() && InRange(ix.i4) && InRange(ix.i3) && InRange(ix.i2)
      modifies this
      ensures Valid() && SameLookups(root, old(tables), tables)
      ensures err == if Missing(old(at).Keys, ix) <= avail then Ok else ENOMEM
      ensures err != Ok ==> tables == old(tables) && at == old(at)
      ensures err == Ok ==> L1(ix.i4, ix.i3, ix.i2) in at && at[L1(ix.i4, ix.i3, ix.i2)] == l1
      ensures err == Ok ==> forall n :: n in at <==> n in old(at) || n in PathTo(ix)
    {
      var l3, l2, taken3, taken2, taken1;
      l1 := 0;
      err, l3, taken3 := Ensure(root, ix.i4, flags, avail, Root);
      if err != Ok {
        return;
      }
      var left: nat := if taken3 then avail - 1 else avail;
      ghost var tables1, at1, spot1 := tables, at, spot;
      err, l2, taken2 := Ensure(l3, ix.i3, flags, left, L3(ix.i4));
      if err != Ok {
        Undo(root, ix.i4, l3, taken3, flags, Root, old(tables), old(at), old(spot));
        return;
      }
      left := if taken2 then left - 1 else left;
      err, l1, taken1 := Ensure(l2, ix.i2, flags, left, L2(ix.i4, ix.i3));
      if err != Ok {
        Undo(l3, ix.i3, l2, taken2, flags, L3(ix.i4), tables1, at1, spot1);
        Undo(root, ix.i4, l3, taken3, flags, Root, old(tables), old(at), old(spot));
      }
    }

    /** x86_64_map. */
    method Map(pa: int, ix: Index, flags: Flags, avail: nat) returns (err: Errno)
      requires Valid()
      modifies this
      ensures Valid() && err == MapResult(old(at).Keys, ix, flags, avail)
      ensures err != Ok ==> tables == old(tables)
      ensures err == Ok ==> ValidIndex(ix) && Mapped(root, old(tables), tables, ix, LeafEntry(pa, flags), flags.remap)
      ensures err == Ok && (flags.remap || !Lookup(root, old(tables), ix).present) ==> StoredAs(Lookup(root, tables, ix), pa, flags)
      ensures err == Ok && !flags.remap && Lookup(root, old(tables), ix).present ==>
        Lookup(root, tables, ix) == Lookup(root, old(tables), ix)
      ensures err == Ok ==> forall n :: n in at <==> n in old(at) || n in PathTo(ix)
    {
      if !ValidIndex(ix) {
        return EINVAL;
      }
      if flags.huge {
        return ENOTSUP;
      }
      var l1;
      err, l1 := MapPt(ix, flags, avail);
      if err != Ok {
        return;
      }
      LookupAt(root, tables, at, spot, ix);
      if !tables[l1][ix.i1].present || flags.remap {
        SetLeaf(l1, ix, LeafEntry(pa, flags));
      }
    }

    /** Overwrites the entry of ix in its last-level table. */
    method SetLeaf(l1: int, ix: Index, e: Entry)
      requires Valid() && ValidIndex(ix) && L1(ix.i4, ix.i3, ix.i2) in at && at[L1(ix.i4, ix.i3, ix.i2)] == l1
      modifies `tables
      ensures Valid() && tables == WithEntry(old(tables), l1, ix.i1, e)
      ensures forall jx | ValidIndex(jx) ::
        Lookup(root, tables, jx) == if jx == ix then e else Lookup(root, old(tables), jx)
    {
      LeafShape(root, tables, at, spot, L1(ix.i4, ix.i3, ix.i2), ix.i1, e);
      forall jx | ValidIndex(jx)
        ensures Lookup(root, WithEntry(tables, l1, ix.i1, e), jx) == if jx == ix then e else Lookup(root, tables, jx)
      {
        LeafLookup(root, tables, at, spot, ix, e, jx);
      }
      tables := WithEntry(tables, l1, ix.i1, e);
    }

    /** x86_64_getmapping. */
    method GetMapping(addr: int) returns (err: Errno, e: Entry)
      requires Valid() && 0 <= addr
      ensures err == if addr == 0 then EINVAL else if Lookup(root, tables, IndexOf(addr)).present then Ok else ENOENT
      ensures err == Ok ==> e == Lookup(root, tables, IndexOf(addr))
    {
      if addr == 0 {
        return EINVAL, ZERO;
      }
      err, e := Walk(IndexOf(addr));
    }

    /** The four tests on the way to an entry. */
    method Walk(ix: Index) returns (err: Errno, e: Entry)
      requires Valid() && ValidIndex(ix)
      ensures err == if Lookup(root, tables, ix).present then Ok else ENOENT
      ensures err == Ok ==> e == Lookup(root, tables, ix)
    {
      e := tables[root][ix.i4];
      LookupAt(root, tables, at, spot, ix);
      if !e.present {
        return ENOENT, e;
      }
      e := EntryOf(tables, e.frame, ix.i3);
      if !e.present {
        return ENOENT, e;
      }
      e := EntryOf(tables, e.frame, ix.i2);
      if !e.present {
        return ENOENT, e;
      }
      e := EntryOf(tables, e.frame, ix.i1);
      err := if e.present then Ok else ENOENT;
    }

    /** x86_64_unmap: free says whether the frame of the entry goes back. */
    method Unmap(ix: Index) returns (free: bool, frame: int)
      requires Valid() && ValidIndex(ix)
      modifies `tables
      ensures Valid() && (free <==> Allocated(root, old(tables), ix))
      ensures free ==> frame == Lookup(root, old(tables), ix).frame
      ensures forall jx | ValidIndex(jx) ::
        Lookup(root, tables, jx) == if jx == ix && Lookup(root, old(tables), ix).present then Entry(0, false, false, false, 0)
                                    else Lookup(root, old(tables), jx)
    {
      free, frame := false, 0;
      var err, e := Walk(ix);
      if err != Ok {
        return;
      }
      LookupAt(root, tables, at, spot, ix);
      assert Child(Root, ix.i4) == L3(ix.i4) && Child(L3(ix.i4), ix.i3) == L2(ix.i4, ix.i3);
      var l2 := tables[tables[root][ix.i4].frame][ix.i3].frame;
      SetLeaf(tables[l2][ix.i2].frame, ix, ZERO);
      free, frame := e.alloc, e.frame;
    }

    /** Mapping a page that is not there and unmapping it again leaves every other translation as it was, and gives back
        exactly the frame that was mapped, exactly when it was mapped as present and allocated. */
    method MapThenUnmap(pa: int, ix: Index, flags: Flags, avail: nat) returns (err: Errno, free: bool, frame: int)
      requires Valid() && ValidIndex(ix) && !Lookup(root, tables, ix).present
      modifies this
      ensures Valid() && err == MapResult(old(at).Keys, ix, flags, avail)
      ensures (free <==> err == Ok && flags.present && flags.alloc) && (free ==> frame == pa)
      ensures !Lookup(root, tables, ix).present
      ensures forall jx | ValidIndex(jx) && jx != ix :: Lookup(root, tables, jx) == Lookup(root, old(tables), jx)
    {
      free, frame := false, 0;
      err := Map(pa, ix, flags, avail);
      if err == Ok {
        free, frame := Unmap(ix);
      }
    }

    /** The loops of x86_64_unmap_full below slot hi of the table t, which is at n: leaves are unmapped, and each table
        goes back once it is empty. leaves and frames list what was freed, in order. */
    method Clear(n: Node, t: int, hi: int) returns (leaves: seq<Index>, frames: seq<int>)
      requires Sound(root, Now()) && n in at && at[n] == t && 0 <= hi <= NPTE
      modifies this
      ensures Sound(root, Now()) && Cleared(root, old(Now()), Now(), n, 0, hi, leaves, frames) && n in at && at[n] == t
      decreases Level(n)
    {
      leaves, frames := [], [];
      ClearedNone(root, Now(), n);
      for i := 0 to hi
        invariant Sound(root, Now()) && Cleared(root, old(Now()), Now(), n, 0, i, leaves, frames) && n in at && at[n] == t
      {
        ghost var s := Now();
        var leaves', frames' := ClearSlot(n, t, i);
        ClearedJoin(root, old(Now()), s, Now(), n, i, leaves, frames, leaves', frames');
        leaves, frames := leaves + leaves', frames + frames';
      }
    }

    /** One slot: a leaf is unmapped; a table is cleared and taken away. */
    method ClearSlot(n: Node, t: int, i: int) returns (leaves: seq<Index>, frames: seq<int>)
      requires Sound(root, Now()) && n in at && at[n] == t && InRange(i)
      modifies this
      ensures Sound(root, Now()) && Cleared(root, old(Now()), Now(), n, i, i + 1, leaves, frames) && n in at && at[n] == t
      decreases Level(n), 0
    {
      leaves, frames := [], [];
      SoundIs(root, Now());
      if !tables[t][i].present {
        NothingThere(root, Now(), n, i);
        return;
      }
      if n.L1? {
        leaves := if tables[t][i].alloc then [Index(n.i4, n.i3, n.i2, i)] else [];
        SlotLeaf(root, Now(), n, i, leaves);
        LeafShape(root, tables, at, spot, n, i, ZERO);
        tables := WithEntry(tables, t, i, ZERO);
        SoundIs(root, Now());
        return;
      }
      var f := tables[t][i].frame;
      leaves, frames := Clear(Child(n, i), f, NPTE);
      SoundIs(root, Now());
      ClearedUp(root, old(Now()), Now(), n, i, leaves, frames);
      Take(t, i, f, n);
      SoundIs(root, Now());
      frames := frames + [f];
    }

    /** x86_64_unmap_full: no user translation is left, the kernel half is as before, and every allocated leaf and every
        table of the user half is freed exactly once. */
    method UnmapFull() returns (leaves: seq<Index>, frames: seq<int>)
      requires Valid()
      modifies this
      ensures Valid() && NoDup(leaves) && NoDup(frames)
      ensures forall ix | ValidIndex(ix) :: if ix.i4 < USERHALF then !Lookup(root, tables, ix).present
                                            else Lookup(root, tables, ix) == Lookup(root, old(tables), ix)
      ensures forall ix :: ix in leaves <==> ValidIndex(ix) && ix.i4 < USERHALF && Allocated(root, old(tables), ix)
      ensures forall f :: f in frames <==> f in old(tables) && f !in tables
      ensures forall n :: n in at <==> n in old(at) && (n.Root? || n.i4 >= USERHALF)
      ensures forall n | n in at && !n.Root? :: at[n] == old(at)[n] && tables[at[n]] == old(tables)[at[n]]
    {
      SoundIs(root, Now());
      leaves, frames := Clear(Root, root, USERHALF);
      SoundIs(root, Now());
      ClearedIs(root, old(Now()), Now(), Root, 0, USERHALF, leaves, frames);
      FullyCleared(root, old(Now()), Now());
    }
  }
}
