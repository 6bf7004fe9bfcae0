/** x86_64_lazycpy on the four-level tables: the nested loops, the tables they take and the way back. */
module TableCopy {

  import opened FiniteSets
  import opened Kernel
  import opened PageTables
  import opened Seals

  /** The entry without PTE_W. */
  function ReadOnly(e: Entry): Entry {
    e.(writable := false)
  }

  // ----- what the loops have copied

  /** The entries of gets, and no others, lost PTE_W in the source and appear in the destination. */
  ghost predicate Lent(rs: int, s: Tables, s': Tables, rd: int, d: Tables, d': Tables, gets: seq<Index>) {
    && NoDup(gets)
    && (forall ix | ix in gets :: ValidIndex(ix) && Lookup(rs, s, ix).present)
    && (forall ix | ValidIndex(ix) :: Lookup(rs, s', ix) == if ix in gets then ReadOnly(Lookup(rs, s, ix)) else Lookup(rs, s, ix))
    && (forall ix | ValidIndex(ix) :: Lookup(rd, d', ix) == if ix in gets then ReadOnly(Lookup(rs, s, ix)) else Lookup(rd, d, ix))
  }

  /** They lie below the slots of n before hi, from lo on; with all, they are all that is present there. */
  ghost predicate Covers(rs: int, s: Tables, n: Node, lo: int, hi: int, gets: seq<Index>, all: bool) {
    && (forall ix | ix in gets :: LeafVia(ix, n, lo, hi))
    && (all ==> forall ix | ValidIndex(ix) && LeafVia(ix, n, lo, hi) && Lookup(rs, s, ix).present :: ix in gets)
  }

  /** Both, sealed. */
  ghost predicate Copied(rs: int, s: Tables, s': Tables, rd: int, d: Tables, d': Tables, n: Node, lo: int, hi: int,
                         gets: seq<Index>, all: bool, seal: Seal := SEALED)
  {
    match seal
    case Open => Lent(rs, s, s', rd, d, d', gets) && Covers(rs, s, n, lo, hi, gets, all)
    case Shut(inner) => Copied(rs, s, s', rd, d, d', n, lo, hi, gets, all, inner)
  }

  lemma CopiedIs(rs: int, s: Tables, s': Tables, rd: int, d: Tables, d': Tables, n: Node, lo: int, hi: int,
                 gets: seq<Index>, all: bool)
    ensures Copied(rs, s, s', rd, d, d', n, lo, hi, gets, all) <==>
      Lent(rs, s, s', rd, d, d', gets) && Covers(rs, s, n, lo, hi, gets, all)
  {
    assert Copied(rs, s, s', rd, d, d', n, lo, hi, gets, all, Shut(Shut(Open)))
        == Copied(rs, s, s', rd, d, d', n, lo, hi, gets, all, Shut(Open))
        == Copied(rs, s, s', rd, d, d', n, lo, hi, gets, all, Open);
  }

  lemma LentJoin(rs: int, s0: Tables, s1: Tables, s2: Tables, rd: int, d0: Tables, d1: Tables, d2: Tables,
                 gets: seq<Index>, gets': seq<Index>)
    requires Lent(rs, s0, s1, rd, d0, d1, gets) && Lent(rs, s1, s2, rd, d1, d2, gets')
    requires forall ix | ix in gets :: ix !in gets'
    ensures Lent(rs, s0, s2, rd, d0, d2, gets + gets')
  {
    NoDupJoin(gets, gets');
  }

  /** The slots before i, and then slot i. */
  lemma CopiedJoin(rs: int, s0: Tables, s1: Tables, s2: Tables, rd: int, d0: Tables, d1: Tables, d2: Tables,
                   n: Node, i: int, gets: seq<Index>, gets': seq<Index>, all: bool)
    requires 0 <= i && Copied(rs, s0, s1, rd, d0, d1, n, 0, i, gets, true)
    requires Copied(rs, s1, s2, rd, d1, d2, n, i, i + 1, gets', all)
    ensures Copied(rs, s0, s2, rd, d0, d2, n, 0, i + 1, gets + gets', all)
  {
    CopiedIs(rs, s0, s1, rd, d0, d1, n, 0, i, gets, true);
    CopiedIs(rs, s1, s2, rd, d1, d2, n, i, i + 1, gets', all);
    CopiedIs(rs, s0, s2, rd, d0, d2, n, 0, i + 1, gets + gets', all);
    forall ix
      ensures LeafVia(ix, n, 0, i + 1) <==> LeafVia(ix, n, 0, i) || LeafVia(ix, n, i, i + 1)
      ensures !(LeafVia(ix, n, 0, i) && LeafVia(ix, n, i, i + 1))
    {
    }
    LentJoin(rs, s0, s1, s2, rd, d0, d1, d2, gets, gets');
  }

  /** Tables that translate alike, and nothing present to copy. */
  lemma CopiedNone(rs: int, s: Tables, rd: int, d: Tables, d': Tables, n: Node, lo: int, hi: int, all: bool)
    requires SameLookups(rd, d, d')
    requires all ==> forall ix | ValidIndex(ix) && LeafVia(ix, n, lo, hi) :: !Lookup(rs, s, ix).present
    ensures Copied(rs, s, s, rd, d, d', n, lo, hi, [], all)
  {
    CopiedIs(rs, s, s, rd, d, d', n, lo, hi, [], all);
  }

  /** All slots of the table in slot i are slot i. */
  lemma CopiedUp(rs: int, s: Tables, s': Tables, rd: int, d: Tables, d1: Tables, d2: Tables, n: Node, i: int,
                 gets: seq<Index>, all: bool)
    requires !n.L1? && InRange(i) && SameLookups(rd, d, d1)
    requires Copied(rs, s, s', rd, d1, d2, Child(n, i), 0, NPTE, gets, all)
    ensures Copied(rs, s, s', rd, d, d2, n, i, i + 1, gets, all)
  {
    CopiedIs(rs, s, s', rd, d1, d2, Child(n, i), 0, NPTE, gets, all);
    CopiedIs(rs, s, s', rd, d, d2, n, i, i + 1, gets, all);
    forall ix | ValidIndex(ix)
      ensures LeafVia(ix, n, i, i + 1) <==> LeafVia(ix, Child(n, i), 0, NPTE)
    {
    }
  }

  /** One leaf. */
  lemma CopiedLeaf(rs: int, s: Tables, s': Tables, rd: int, d: Tables, d': Tables, n: Node, i: int, ix: Index)
    requires n.L1? && ix == Index(n.i4, n.i3, n.i2, i) && ValidIndex(ix) && Lookup(rs, s, ix).present
    requires forall jx | ValidIndex(jx) ::
      Lookup(rs, s', jx) == if jx == ix then ReadOnly(Lookup(rs, s, ix)) else Lookup(rs, s, jx)
    requires forall jx | ValidIndex(jx) ::
      Lookup(rd, d', jx) == if jx == ix then ReadOnly(Lookup(rs, s, ix)) else Lookup(rd, d, jx)
    ensures Copied(rs, s, s', rd, d, d', n, i, i + 1, [ix], true)
  {
    CopiedIs(rs, s, s', rd, d, d', n, i, i + 1, [ix], true);
  }

  /** A present leaf of the user half. */
  ghost predicate UserPage(root: int, tables: Tables, ix: Index) {
    ValidIndex(ix) && ix.i4 < USERHALF && Lookup(root, tables, ix).present
  }

  // ----- the tables that the loops take

  /** The tables of the source below the slots of n before hi, from lo on. */
  ghost function Below(at: map<Node, int>, n: Node, lo: int, hi: int): set<Node> {
    set m | m in at && Via(m, n, lo, hi)
  }

  /** How the tables of one place were taken: used of them, with left frames over; all of them, or stopped by one that
      found no frame or could not be mounted. */
  datatype Taking = Taking(used: int, left: int, all: bool, noMount: set<Node>)

  ghost predicate Took(sat: map<Node, int>, dat: map<Node, int>, dat': map<Node, int>, n: Node, lo: int, hi: int, t: Taking) {
    TookFrom(Below(sat, n, lo, hi), dat.Keys, dat'.Keys, t)
  }

  /** Of what is offered, t.used new members joined the set. */
  ghost predicate Joined(offered: set<Node>, d: set<Node>, d': set<Node>, t: Taking) {
    && d <= d' <= d + offered && |d'| == |d| + t.used
    && (if t.all then offered <= d' && offered !! t.noMount
        else exists x :: x in offered && (x in t.noMount || (x !in d' && t.left == 0)))
  }

  /** The same, sealed. */
  ghost predicate TookFrom(offered: set<Node>, d: set<Node>, d': set<Node>, t: Taking, seal: Seal := SEALED) {
    match seal
    case Open => Joined(offered, d, d', t)
    case Shut(inner) => TookFrom(offered, d, d', t, inner)
  }

  lemma TookFromIs(offered: set<Node>, d: set<Node>, d': set<Node>, t: Taking)
    ensures TookFrom(offered, d, d', t) <==> Joined(offered, d, d', t)
  {
    assert TookFrom(offered, d, d', t, Shut(Shut(Open))) == TookFrom(offered, d, d', t, Shut(Open))
        == TookFrom(offered, d, d', t, Open);
  }

  /** t' goes on where t, which took everything, ended. */
  function Then(t: Taking, t': Taking): Taking {
    t'.(used := t.used + t'.used)
  }

  lemma TookFromJoin(a: set<Node>, b: set<Node>, d: set<Node>, d1: set<Node>, d2: set<Node>, t: Taking, t': Taking)
    requires t.all && t.noMount == t'.noMount && TookFrom(a, d, d1, t) && TookFrom(b, d1, d2, t')
    ensures TookFrom(a + b, d, d2, Then(t, t'))
  {
    TookFromIs(a, d, d1, t);
    TookFromIs(b, d1, d2, t');
    TookFromIs(a + b, d, d2, Then(t, t'));
    if !t'.all {
      var x :| x in b && (x in t'.noMount || (x !in d2 && t'.left == 0));
      assert x in a + b;
    }
  }

  lemma TookFromUp(a: set<Node>, c: Node, d: set<Node>, d1: set<Node>, d2: set<Node>, taken: bool, t: Taking)
    requires c in d1 && (if taken then c !in d && d1 == d + {c} else d1 == d) && c !in t.noMount
    requires TookFrom(a, d1, d2, t)
    ensures TookFrom(a + {c}, d, d2, t.(used := t.used + (if taken then 1 else 0)))
  {
    TookFromIs(a, d1, d2, t);
    TookFromIs(a + {c}, d, d2, t.(used := t.used + (if taken then 1 else 0)));
    if !t.all {
      var x :| x in a && (x in t.noMount || (x !in d2 && t.left == 0));
      assert x in a + {c};
    }
  }

  lemma BelowSplit(at: map<Node, int>, n: Node, i: int)
    requires 0 <= i
    ensures Below(at, n, 0, i + 1) == Below(at, n, 0, i) + Below(at, n, i, i + 1)
  {
  }

  lemma TookJoin(sat: map<Node, int>, dat: map<Node, int>, dat1: map<Node, int>, dat2: map<Node, int>, n: Node, i: int,
                 t: Taking, t': Taking)
    requires t.all && t.noMount == t'.noMount
    requires 0 <= i && Took(sat, dat, dat1, n, 0, i, t) && Took(sat, dat1, dat2, n, i, i + 1, t')
    ensures Took(sat, dat, dat2, n, 0, i + 1, Then(t, t'))
  {
    BelowSplit(sat, n, i);
    TookFromJoin(Below(sat, n, 0, i), Below(sat, n, i, i + 1), dat.Keys, dat1.Keys, dat2.Keys, t, t');
  }

  lemma TookNone(sat: map<Node, int>, dat: map<Node, int>, n: Node, lo: int, hi: int, t: Taking)
    requires t.used == 0 && t.all && forall m | m in sat :: !Via(m, n, lo, hi)
    ensures Took(sat, dat, dat, n, lo, hi, t)
  {
    TookFromIs(Below(sat, n, lo, hi), dat.Keys, dat.Keys, t);
    assert Below(sat, n, lo, hi) == {};
  }

  /** The table in slot i finds no frame. */
  lemma TookFails(sat: map<Node, int>, dat: map<Node, int>, n: Node, i: int, t: Taking)
    requires !n.L1? && InRange(i) && Child(n, i) in sat && Child(n, i) !in dat
    requires t.used == 0 && t.left == 0 && !t.all
    ensures Took(sat, dat, dat, n, i, i + 1, t)
  {
    TookFromIs(Below(sat, n, i, i + 1), dat.Keys, dat.Keys, t);
    assert Child(n, i) in Below(sat, n, i, i + 1);
  }

  /** The table in slot i cannot be mounted. */
  lemma TookUnmounted(sat: map<Node, int>, dat: map<Node, int>, dat': map<Node, int>, n: Node, i: int, taken: bool, t: Taking)
    requires !n.L1? && InRange(i) && Child(n, i) in sat && Child(n, i) in t.noMount && Child(n, i) in dat'
    requires if taken then Child(n, i) !in dat && dat'.Keys == dat.Keys + {Child(n, i)} else dat' == dat
    requires t.used == (if taken then 1 else 0) && !t.all
    ensures Took(sat, dat, dat', n, i, i + 1, t)
  {
    TookFromIs(Below(sat, n, i, i + 1), dat.Keys, dat'.Keys, t);
    assert Child(n, i) in Below(sat, n, i, i + 1);
  }

  lemma BelowChild(rs: int, s: State, n: Node, i: int)
    requires Sound(rs, s) && !n.L1? && Child(n, i) in s.at
    ensures Below(s.at, n, i, i + 1) == Below(s.at, Child(n, i), 0, NPTE) + {Child(n, i)}
  {
    SoundIs(rs, s);
    forall m | m in s.at
      ensures Via(m, n, i, i + 1) <==> m == Child(n, i) || Via(m, Child(n, i), 0, NPTE)
    {
      ViaChild(rs, s, m, n, i);
    }
  }

  /** The table in slot i, and then those below it. */
  lemma TookUp(rs: int, s: State, dat: map<Node, int>, dat1: map<Node, int>, dat2: map<Node, int>, n: Node, i: int,
               taken: bool, t: Taking)
    requires Sound(rs, s) && !n.L1? && InRange(i) && Child(n, i) in s.at && Child(n, i) in dat1
    requires if taken then Child(n, i) !in dat && dat1.Keys == dat.Keys + {Child(n, i)} else dat1 == dat
    requires Child(n, i) !in t.noMount && Took(s.at, dat1, dat2, Child(n, i), 0, NPTE, t)
    ensures Took(s.at, dat, dat2, n, i, i + 1, t.(used := t.used + (if taken then 1 else 0)))
  {
    BelowChild(rs, s, n, i);
    TookFromUp(Below(s.at, Child(n, i), 0, NPTE), Child(n, i), dat.Keys, dat1.Keys, dat2.Keys, taken, t);
  }

  lemma TookWiden(sat: map<Node, int>, dat: map<Node, int>, dat': map<Node, int>, n: Node, i: int, hi: int, t: Taking)
    requires 0 <= i <= hi && !t.all && Took(sat, dat, dat', n, 0, i, t)
    ensures Took(sat, dat, dat', n, 0, hi, t)
  {
    TookFromIs(Below(sat, n, 0, i), dat.Keys, dat'.Keys, t);
    TookFromIs(Below(sat, n, 0, hi), dat.Keys, dat'.Keys, t);
    assert Below(sat, n, 0, i) <= Below(sat, n, 0, hi);
    var m :| m in Below(sat, n, 0, i) && (m in t.noMount || (m !in dat' && t.left == 0));
    assert m in Below(sat, n, 0, hi);
  }

  // ----- the entries of the tables that the loops take

  /** The entry of a table in the copy: writable and written through, and otherwise as in the source. */
  predicate TableLike(e: Entry, e': Entry) {
    e'.present && e'.writable && e'.alloc == e.alloc && e'.bits == e.bits | 0x008
  }

  /** Every table that both sides have, and that the destination did not have at first, hangs alike in both; a few
      recursive steps away. */
  ghost predicate Alike(s: State, d: State, first: map<Node, int>, seal: Seal := SEALED) {
    match seal
    case Open =>
      forall m | m in s.at && m in d.at && m !in first && !m.Root? && Parent(m) in s.at && Parent(m) in d.at ::
        TableLike(EntryOf(s.tables, s.at[Parent(m)], Slot(m)), EntryOf(d.tables, d.at[Parent(m)], Slot(m)))
    case Shut(inner) => Alike(s, d, first, inner)
  }

  lemma AlikeIs(s: State, d: State, first: map<Node, int>)
    ensures Alike(s, d, first) <==> Alike(s, d, first, Open)
  {
    assert Alike(s, d, first, Shut(Shut(Open))) == Alike(s, d, first, Shut(Open));
  }

  /** A leaf hangs nothing. */
  lemma AlikeLeaf(rs: int, s: State, rd: int, d: State, first: map<Node, int>, n: Node, i: int, e: Entry, e': Entry)
    requires Alike(s, d, first) && Sound(rs, s) && Sound(rd, d) && n.L1? && n in s.at && n in d.at && InRange(i)
    requires s.at[n] in s.tables && i < |s.tables[s.at[n]]| && d.at[n] in d.tables && i < |d.tables[d.at[n]]|
    ensures Alike(s.(tables := WithEntry(s.tables, s.at[n], i, e)), d.(tables := WithEntry(d.tables, d.at[n], i, e')), first)
  {
    SoundIs(rs, s);
    SoundIs(rd, d);
    AlikeIs(s, d, first);
    AlikeIs(s.(tables := WithEntry(s.tables, s.at[n], i, e)), d.(tables := WithEntry(d.tables, d.at[n], i, e')), first);
    forall m | m in s.at && m in d.at && !m.Root? && Parent(m) in s.at && Parent(m) in d.at
      ensures s.at[Parent(m)] != s.at[n] && d.at[Parent(m)] != d.at[n]
    {
      assert Parent(m) != n;
    }
  }

  /** The new table f hangs below n, its entry as the flags say. */
  ghost predicate Hung(d: State, d': State, n: Node, i: int, f: int, flags: Flags) {
    && n in d.at && !n.L1? && InRange(i) && Child(n, i) !in d.at && f !in d.tables && d.at[n] in d.tables && i < |d.tables[d.at[n]]|
    && HangsAs(EntryOf(d'.tables, d.at[n], i), f, flags)
    && d' == State(WithEntry(d.tables[f := Zeros()], d.at[n], i, EntryOf(d'.tables, d.at[n], i)), d.at[Child(n, i) := f],
                   d.spot[f := Child(n, i)])
  }

  /** The entries of the tables that were there stay. */
  ghost predicate EntriesStay(d: State, d': State) {
    forall m | m in d.at && !m.Root? ::
      Parent(m) in d.at && Parent(m) in d'.at
      && EntryOf(d'.tables, d'.at[Parent(m)], Slot(m)) == EntryOf(d.tables, d.at[Parent(m)], Slot(m))
  }

  lemma HungKeeps(rd: int, d: State, d': State, n: Node, i: int, f: int, flags: Flags)
    requires Sound(rd, d) && Hung(d, d', n, i, f, flags)
    ensures EntriesStay(d, d')
  {
    SoundIs(rd, d);
    forall m | m in d.at && !m.Root?
      ensures Parent(m) in d.at && Parent(m) in d'.at
      ensures EntryOf(d'.tables, d'.at[Parent(m)], Slot(m)) == EntryOf(d.tables, d.at[Parent(m)], Slot(m))
    {
      assert Parent(m) == n ==> Slot(m) != i;
    }
  }

  /** A new table hangs like its model. */
  lemma AlikeHang(s: State, d: State, d': State, first: map<Node, int>, n: Node, i: int, f: int)
    requires Alike(s, d, first) && n in s.at && !n.L1? && InRange(i) && n in d.at && EntriesStay(d, d')
    requires d'.at == d.at[Child(n, i) := f] && TableLike(EntryOf(s.tables, s.at[n], i), EntryOf(d'.tables, d.at[n], i))
    ensures Alike(s, d', first)
  {
    AlikeIs(s, d, first);
    AlikeIs(s, d', first);
    assert Parent(Child(n, i)) == n && Slot(Child(n, i)) == i && n != Child(n, i);
  }

  // ----- the loops

  ghost predicate Grown(at: map<Node, int>, at': map<Node, int>) {
    forall m | m in at :: m in at' && at'[m] == at[m]
  }

  /** The flags that a table of the destination takes over. */
  function FlagsOf(e: Entry): Flags {
    Flags(true, e.writable, e.alloc, false, false, e.bits)
  }

  /** A leaf: write-protected in the source, copied, and counted by a page reference. */
  method CopyLeaf(src: PageMap, dst: PageMap, n: Node, ts: int, td: int, i: int, ghost first: map<Node, int>)
    returns (gets: seq<Index>)
    requires src != dst && Sound(src.root, src.Now()) && Sound(dst.root, dst.Now()) && n.L1? && InRange(i)
    requires n in src.at && src.at[n] == ts && n in dst.at && dst.at[n] == td && EntryOf(src.tables, ts, i).present
    requires Alike(src.Now(), dst.Now(), first)
    modifies src`tables, dst`tables
    ensures Sound(src.root, src.Now()) && Sound(dst.root, dst.Now()) && Alike(src.Now(), dst.Now(), first)
    ensures Copied(src.root, old(src.tables), src.tables, dst.root, old(dst.tables), dst.tables, n, i, i + 1, gets, true)
  {
    SoundIs(src.root, src.Now());
    SoundIs(dst.root, dst.Now());
    var ix := Index(n.i4, n.i3, n.i2, i);
    LookupAt(src.root, src.tables, src.at, src.spot, ix);
    var e := src.tables[ts][i];
    AlikeLeaf(src.root, src.Now(), dst.root, dst.Now(), first, n, i, ReadOnly(e), ReadOnly(e));
    src.SetLeaf(ts, ix, ReadOnly(e));
    dst.SetLeaf(td, ix, ReadOnly(e));
    gets := [ix];
    CopiedLeaf(src.root, old(src.tables), src.tables, dst.root, old(dst.tables), dst.tables, n, i, ix);
    SoundIs(src.root, src.Now());
    SoundIs(dst.root, dst.Now());
  }

  lemma ChildFrame(rs: int, s: State, n: Node, i: int)
    requires Sound(rs, s) && n in s.at && !n.L1? && InRange(i) && EntryOf(s.tables, s.at[n], i).present
    ensures Child(n, i) in s.at && s.at[Child(n, i)] == EntryOf(s.tables, s.at[n], i).frame
  {
    SoundIs(rs, s);
    assert Parent(Child(n, i)) == n && Slot(Child(n, i)) == i;
  }

  /** x86_64_map_pdpt, x86_64_map_pdt and x86_64_map_pt where the tables above are there. */
  method EnsureSound(dst: PageMap, td: int, i: int, flags: Flags, avail: nat, ghost n: Node)
    returns (err: Errno, f: int, left: nat)
    requires Sound(dst.root, dst.Now()) && n in dst.at && !n.L1? && dst.at[n] == td && InRange(i)
    modifies dst
    ensures Sound(dst.root, dst.Now()) && SameLookups(dst.root, old(dst.tables), dst.tables) && left <= avail
    ensures err == (if Child(n, i) in old(dst.at) || avail > 0 then Ok else ENOMEM)
    ensures err == Ok ==> Child(n, i) in dst.at && dst.at[Child(n, i)] == f
    ensures if err == Ok && Child(n, i) !in old(dst.at) then left == avail - 1 && Hung(old(dst.Now()), dst.Now(), n, i, f, flags)
            else dst.Now() == old(dst.Now()) && left == avail
  {
    SoundIs(dst.root, dst.Now());
    var taken;
    err, f, taken := dst.Ensure(td, i, flags, avail, n);
    SoundIs(dst.root, dst.Now());
    left := if taken then avail - 1 else avail;
  }

  /** The table in slot i of the destination, with the flags of the source's. */
  method EnsureLike(dst: PageMap, td: int, i: int, e: Entry, avail: nat, ghost n: Node, ghost s: State,
                    ghost first: map<Node, int>)
    returns (err: Errno, f: int, left: nat)
    requires Sound(dst.root, dst.Now()) && n in dst.at && !n.L1? && dst.at[n] == td && InRange(i)
    requires Alike(s, dst.Now(), first) && n in s.at && e == EntryOf(s.tables, s.at[n], i)
    modifies dst
    ensures Sound(dst.root, dst.Now()) && SameLookups(dst.root, old(dst.tables), dst.tables) && left <= avail
    ensures err == (if Child(n, i) in old(dst.at) || avail > 0 then Ok else ENOMEM) && Grown(old(dst.at), dst.at)
    ensures Alike(s, dst.Now(), first) && (err == Ok ==> Child(n, i) in dst.at && dst.at[Child(n, i)] == f)
    ensures if err == Ok && Child(n, i) !in old(dst.at) then dst.at.Keys == old(dst.at).Keys + {Child(n, i)} && left == avail - 1
            else dst.at == old(dst.at) && left == avail
  {
    err, f, left := EnsureSound(dst, td, i, FlagsOf(e), avail, n);
    if err == Ok && Child(n, i) !in old(dst.at) {
      HungKeeps(dst.root, old(dst.Now()), dst.Now(), n, i, f, FlagsOf(e));
      AlikeHang(s, old(dst.Now()), dst.Now(), first, n, i, f);
    }
  }

  lemma SlotEmpty(rs: int, s: State, rd: int, d: State, n: Node, i: int, t: Taking)
    requires Sound(rs, s) && n in s.at && InRange(i) && !EntryOf(s.tables, s.at[n], i).present
    ensures Copied(rs, s.tables, s.tables, rd, d.tables, d.tables, n, i, i + 1, [], true)
    ensures t.used == 0 && t.all ==> Took(s.at, d.at, d.at, n, i, i + 1, t)
  {
    forall ix | ValidIndex(ix) && LeafVia(ix, n, i, i + 1)
      ensures !Lookup(rs, s.tables, ix).present
    {
      NothingBelow(rs, s, n, i, ix);
    }
    CopiedNone(rs, s.tables, rd, d.tables, d.tables, n, i, i + 1, true);
    SoundIs(rs, s);
    forall m | m in s.at
      ensures !Via(m, n, i, i + 1)
    {
    }
    if t.used == 0 && t.all {
      TookNone(s.at, d.at, n, i, i + 1, t);
    }
  }

  /** One slot: nothing, a leaf, or a table that the destination gets as well. The tables of noMount are those of the
      source whose temporary mount fails. */
  method CopySlot(src: PageMap, dst: PageMap, n: Node, ts: int, td: int, i: int, avail: nat, noMount: set<Node>,
                  ghost first: map<Node, int>)
    returns (err: Errno, left: nat, gets: seq<Index>)
    requires src != dst && Sound(src.root, src.Now()) && Sound(dst.root, dst.Now()) && InRange(i)
    requires n in src.at && src.at[n] == ts && n in dst.at && dst.at[n] == td && Alike(src.Now(), dst.Now(), first)
    modifies src`tables, dst
    ensures Sound(src.root, src.Now()) && Sound(dst.root, dst.Now()) && Grown(old(dst.at), dst.at) && left <= avail
    ensures (err == Ok || err == ENOMEM) && Alike(src.Now(), dst.Now(), first)
    ensures Copied(src.root, old(src.tables), src.tables, dst.root, old(dst.tables), dst.tables, n, i, i + 1, gets, err == Ok)
    ensures Took(src.at, old(dst.at), dst.at, n, i, i + 1, Taking(avail - left, left, err == Ok, noMount))
    decreases Level(n), 0
  {
    err, left, gets := Ok, avail, [];
    var e := EntryOf(src.tables, ts, i);
    if !e.present {
      SlotEmpty(src.root, src.Now(), dst.root, dst.Now(), n, i, Taking(0, left, true, noMount));
      return;
    }
    if n.L1? {
      gets := CopyLeaf(src, dst, n, ts, td, i, first);
      TookNone(src.at, dst.at, n, i, i + 1, Taking(0, left, true, noMount));
      return;
    }
    ChildFrame(src.root, src.Now(), n, i);
    var f;
    err, f, left := EnsureLike(dst, td, i, e, avail, n, src.Now(), first);
    if err != Ok {
      CopiedNone(src.root, src.tables, dst.root, old(dst.tables), dst.tables, n, i, i + 1, false);
      TookFails(src.at, dst.at, n, i, Taking(0, left, false, noMount));
      return;
    }
    err, left, gets := CopyChild(src, dst, n, e.frame, f, i, left, noMount, avail, old(dst.tables), old(dst.at), first);
  }

  /** The table in slot i once the destination has it: mounted, and copied slot by slot. */
  method CopyChild(src: PageMap, dst: PageMap, n: Node, ts: int, td: int, i: int, avail: nat, noMount: set<Node>,
                   ghost avail0: nat, ghost d0: Tables, ghost dat0: map<Node, int>, ghost first: map<Node, int>)
    returns (err: Errno, left: nat, gets: seq<Index>)
    requires src != dst && Sound(src.root, src.Now()) && Sound(dst.root, dst.Now()) && !n.L1? && InRange(i)
    requires Child(n, i) in src.at && src.at[Child(n, i)] == ts && Child(n, i) in dst.at && dst.at[Child(n, i)] == td
    requires SameLookups(dst.root, d0, dst.tables) && Grown(dat0, dst.at) && avail <= avail0
    requires Alike(src.Now(), dst.Now(), first)
    requires if Child(n, i) in dat0 then dst.at == dat0 && avail == avail0
             else dst.at.Keys == dat0.Keys + {Child(n, i)} && avail == avail0 - 1
    modifies src`tables, dst
    ensures Sound(src.root, src.Now()) && Sound(dst.root, dst.Now()) && Grown(dat0, dst.at) && left <= avail0
    ensures (err == Ok || err == ENOMEM) && Alike(src.Now(), dst.Now(), first)
    ensures Copied(src.root, old(src.tables), src.tables, dst.root, d0, dst.tables, n, i, i + 1, gets, err == Ok)
    ensures Took(src.at, dat0, dst.at, n, i, i + 1, Taking(avail0 - left, left, err == Ok, noMount))
    decreases Level(n), -1
  {
    var c := Child(n, i);
    if c in noMount {
      err, left, gets := ENOMEM, avail, [];
      CopiedNone(src.root, src.tables, dst.root, d0, dst.tables, n, i, i + 1, false);
      TookUnmounted(src.at, dat0, dst.at, n, i, c !in dat0, Taking(avail0 - left, left, false, noMount));
      return;
    }
    err, left, gets := CopyNode(src, dst, c, ts, td, NPTE, avail, noMount, first);
    TookUp(src.root, src.Now(), dat0, old(dst.at), dst.at, n, i, c !in dat0, Taking(avail - left, left, err == Ok, noMount));
    CopiedUp(src.root, old(src.tables), src.tables, dst.root, d0, old(dst.tables), dst.tables, n, i, gets, err == Ok);
  }

  /** The slots of a table, one after the other, until one fails. */
  method CopyNode(src: PageMap, dst: PageMap, n: Node, ts: int, td: int, hi: int, avail: nat, noMount: set<Node>,
                  ghost first: map<Node, int>)
    returns (err: Errno, left: nat, gets: seq<Index>)
    requires src != dst && Sound(src.root, src.Now()) && Sound(dst.root, dst.Now()) && 0 <= hi <= NPTE
    requires n in src.at && src.at[n] == ts && n in dst.at && dst.at[n] == td && Alike(src.Now(), dst.Now(), first)
    modifies src`tables, dst
    ensures Sound(src.root, src.Now()) && Sound(dst.root, dst.Now()) && Grown(old(dst.at), dst.at) && left <= avail
    ensures (err == Ok || err == ENOMEM) && Alike(src.Now(), dst.Now(), first)
    ensures Copied(src.root, old(src.tables), src.tables, dst.root, old(dst.tables), dst.tables, n, 0, hi, gets, err == Ok)
    ensures Took(src.at, old(dst.at), dst.at, n, 0, hi, Taking(avail - left, left, err == Ok, noMount))
    decreases Level(n)
  {
    err, left, gets := Ok, avail, [];
    CopiedNone(src.root, src.tables, dst.root, dst.tables, dst.tables, n, 0, 0, true);
    TookNone(src.at, dst.at, n, 0, 0, Taking(0, left, true, noMount));
    var i := 0;
    while i < hi
      invariant 0 <= i <= hi && err == Ok && left <= avail && Sound(src.root, src.Now()) && Sound(dst.root, dst.Now())
      invariant Grown(old(dst.at), dst.at) && Alike(src.Now(), dst.Now(), first)
      invariant Took(src.at, old(dst.at), dst.at, n, 0, i, Taking(avail - left, left, true, noMount))
      invariant Copied(src.root, old(src.tables), src.tables, dst.root, old(dst.tables), dst.tables, n, 0, i, gets, true)
    {
      ghost var s1, d1, dat1, left1 := src.tables, dst.tables, dst.at, left;
      var gets';
      err, left, gets' := CopySlot(src, dst, n, ts, td, i, left, noMount, first);
      CopiedJoin(src.root, old(src.tables), s1, src.tables, dst.root, old(dst.tables), d1, dst.tables, n, i, gets, gets', err == Ok);
      TookJoin(src.at, old(dst.at), dat1, dst.at, n, i, Taking(avail - left1, left1, true, noMount),
               Taking(left1 - left, left, err == Ok, noMount));
      gets, i := gets + gets', i + 1;
      if err != Ok {
        TookWiden(src.at, old(dst.at), dst.at, n, i, hi, Taking(avail - left, left, false, noMount));
        CopiedWiden(src.root, old(src.tables), src.tables, dst.root, old(dst.tables), dst.tables, n, i, hi, gets);
        return;
      }
    }
  }

  lemma CopiedWiden(rs: int, s: Tables, s': Tables, rd: int, d: Tables, d': Tables, n: Node, i: int, hi: int, gets: seq<Index>)
    requires 0 <= i <= hi && Copied(rs, s, s', rd, d, d', n, 0, i, gets, false)
    ensures Copied(rs, s, s', rd, d, d', n, 0, hi, gets, false)
  {
    CopiedIs(rs, s, s', rd, d, d', n, 0, i, gets, false);
    CopiedIs(rs, s, s', rd, d, d', n, 0, hi, gets, false);
  }

  // ----- the whole copy

  /** All that is on offer is taken exactly when it fits into what was available and all of it can be mounted. */
  lemma TookCount(offered: set<Node>, d: set<Node>, d': set<Node>, avail: int, t: Taking)
    requires TookFrom(offered, d, d', t) && d !! offered && t.used == avail - t.left && 0 <= t.left
    ensures t.all <==> |offered| <= avail && offered !! t.noMount
  {
    TookFromIs(offered, d, d', t);
    if t.all {
      assert d' == d + offered;
    } else {
      var x :| x in offered && (x in t.noMount || (x !in d' && t.left == 0));
      if x !in t.noMount {
        assert d' <= d + (offered - {x});
        SubsetSize(d', d + (offered - {x}));
      }
    }
  }

  /** The user leaves of gets, and nothing else, lost PTE_W in the source. */
  ghost predicate Protected(rs: int, s: Tables, s': Tables, gets: seq<Index>) {
    && NoDup(gets) && (forall ix | ix in gets :: UserPage(rs, s, ix))
    && forall ix | ValidIndex(ix) :: Lookup(rs, s', ix) == if ix in gets then ReadOnly(Lookup(rs, s, ix)) else Lookup(rs, s, ix)
  }

  ghost predicate SameKernel(rd: int, d: Tables, d': Tables) {
    forall ix | ValidIndex(ix) && ix.i4 >= USERHALF :: Lookup(rd, d', ix) == Lookup(rd, d, ix)
  }

  /** The user half of d' is that of s, read-only, and gets lists all of it. */
  ghost predicate IsCopy(rs: int, s: Tables, rd: int, d': Tables, gets: seq<Index>) {
    && (forall ix | UserPage(rs, s, ix) :: ix in gets && Lookup(rd, d', ix) == ReadOnly(Lookup(rs, s, ix)))
    && (forall ix | ValidIndex(ix) && ix.i4 < USERHALF && !Lookup(rs, s, ix).present :: !Lookup(rd, d', ix).present)
  }

  /** The references of gets went back, but for entries without PTE_ALLOC. */
  ghost predicate GivenBack(rs: int, s: Tables, gets: seq<Index>, puts: seq<Index>) {
    NoDup(puts) && forall ix :: ix in puts <==> ix in gets && ValidIndex(ix) && Lookup(rs, s, ix).alloc
  }

  ghost predicate NoUser(rd: int, d: Tables) {
    forall ix | ValidIndex(ix) && ix.i4 < USERHALF :: !Lookup(rd, d, ix).present
  }

  ghost predicate OnlyKernel(at: map<Node, int>) {
    forall n | n in at :: n.Root? || n.i4 >= USERHALF
  }

  lemma FreshUser(rd: int, d: State)
    requires Sound(rd, d) && OnlyKernel(d.at)
    ensures NoUser(rd, d.tables)
  {
    forall ix | ValidIndex(ix) && ix.i4 < USERHALF
      ensures !Lookup(rd, d.tables, ix).present
    {
      LookupSound(rd, d, ix);
    }
  }

  lemma CopyResult(rs: int, s: Tables, s': Tables, rd: int, d: Tables, d': Tables, gets: seq<Index>, all: bool)
    requires Copied(rs, s, s', rd, d, d', Root, 0, USERHALF, gets, all) && NoUser(rd, d)
    ensures Protected(rs, s, s', gets) && SameKernel(rd, d, d')
    ensures all ==> IsCopy(rs, s, rd, d', gets)
    ensures forall ix | ValidIndex(ix) && ix.i4 < USERHALF :: Allocated(rd, d', ix) <==> ix in gets && Lookup(rs, s, ix).alloc
  {
    CopiedIs(rs, s, s', rd, d, d', Root, 0, USERHALF, gets, all);
  }

  /** The tables of the source that the loops go through can all be taken and mounted. */
  ghost predicate Copyable(sat: map<Node, int>, avail: int, noMount: set<Node>) {
    |Below(sat, Root, 0, USERHALF)| <= avail && Below(sat, Root, 0, USERHALF) !! noMount
  }

  lemma UserTook(sat: map<Node, int>, dat: map<Node, int>, dat': map<Node, int>, avail: int, t: Taking)
    requires OnlyKernel(dat) && Took(sat, dat, dat', Root, 0, USERHALF, t) && t.used == avail - t.left && 0 <= t.left
    ensures t.all <==> Copyable(sat, avail, t.noMount)
  {
    TookCount(Below(sat, Root, 0, USERHALF), dat.Keys, dat'.Keys, avail, t);
  }

  /** The user tables of the two sides are at the same places, and they hang alike. */
  ghost predicate SameTables(s: State, d: State) {
    && (forall m | m in s.at && !m.Root? && m.i4 < 256 ::
          m in d.at && Parent(m) in s.at && Parent(m) in d.at
          && TableLike(EntryOf(s.tables, s.at[Parent(m)], Slot(m)), EntryOf(d.tables, d.at[Parent(m)], Slot(m))))
    && (forall m | m in d.at && !m.Root? && m.i4 < 256 :: m in s.at)
  }

  lemma TablesCopied(rs: int, s: State, rd: int, d: State, first: map<Node, int>, t: Taking)
    requires Sound(rs, s) && Sound(rd, d) && Alike(s, d, first) && OnlyKernel(first) && t.all
    requires Took(s.at, first, d.at, Root, 0, USERHALF, t)
    ensures SameTables(s, d)
  {
    SoundIs(rs, s);
    SoundIs(rd, d);
    AlikeIs(s, d, first);
    var offered := Below(s.at, Root, 0, USERHALF);
    TookFromIs(offered, first.Keys, d.at.Keys, t);
    forall m | m in s.at && !m.Root? && m.i4 < 256
      ensures m in d.at
    {
      assert m in offered;
    }
  }

  /** The loops of x86_64_lazycpy. */
  method CopyUser(src: PageMap, dst: PageMap, avail: nat, noMount: set<Node>) returns (err: Errno, gets: seq<Index>)
    requires src != dst && src.Valid() && dst.Valid() && OnlyKernel(dst.at)
    modifies src`tables, dst
    ensures src.Valid() && dst.Valid() && Grown(old(dst.at), dst.at) && (err == Ok ==> SameTables(src.Now(), dst.Now()))
    ensures Protected(src.root, old(src.tables), src.tables, gets) && SameKernel(dst.root, old(dst.tables), dst.tables)
    ensures err == Ok ==> IsCopy(src.root, old(src.tables), dst.root, dst.tables, gets)
    ensures err == if Copyable(src.at, avail, noMount) then Ok else ENOMEM
    ensures forall ix | ValidIndex(ix) && ix.i4 < USERHALF ::
      Allocated(dst.root, dst.tables, ix) <==> ix in gets && Lookup(src.root, old(src.tables), ix).alloc
  {
    SoundIs(src.root, src.Now());
    SoundIs(dst.root, dst.Now());
    FreshUser(dst.root, dst.Now());
    AlikeIs(src.Now(), dst.Now(), dst.at);
    var left;
    err, left, gets := CopyNode(src, dst, Root, src.root, dst.root, USERHALF, avail, noMount, dst.at);
    UserTook(src.at, old(dst.at), dst.at, avail, Taking(avail - left, left, err == Ok, noMount));
    if err == Ok {
      TablesCopied(src.root, src.Now(), dst.root, dst.Now(), old(dst.at), Taking(avail - left, left, true, noMount));
    }
    CopyResult(src.root, old(src.tables), src.tables, dst.root, old(dst.tables), dst.tables, gets, err == Ok);
    SoundIs(src.root, src.Now());
    SoundIs(dst.root, dst.Now());
  }

  /** x86_64_lazycpy: the destination translates what the source does, without PTE_W in either; or, when frames run out
      or a table of the source cannot be mounted, it is empty again, and the references that were taken are given back
      except for entries without PTE_ALLOC. gets and puts list the leaves whose frames gained and lost a reference. */
  method LazyCopy(src: PageMap, dst: PageMap, avail: nat, noMount: set<Node>)
    returns (err: Errno, gets: seq<Index>, puts: seq<Index>)
    requires src != dst && src.Valid() && dst.Valid() && OnlyKernel(dst.at)
    modifies src`tables, dst
    ensures src.Valid() && dst.Valid() && err == if Root !in noMount && Copyable(src.at, avail, noMount) then Ok else ENOMEM
    ensures Protected(src.root, old(src.tables), src.tables, gets) && SameKernel(dst.root, old(dst.tables), dst.tables)
    ensures err == Ok ==> IsCopy(src.root, old(src.tables), dst.root, dst.tables, gets) && puts == []
    ensures err == Ok ==> SameTables(src.Now(), dst.Now())
    ensures err != Ok ==> OnlyKernel(dst.at) && NoUser(dst.root, dst.tables)
    ensures err != Ok ==> GivenBack(src.root, old(src.tables), gets, puts)
  {
    gets, puts := [], [];
    if Root in noMount {
      SoundIs(dst.root, dst.Now());
      FreshUser(dst.root, dst.Now());
      return ENOMEM, gets, puts;
    }
    err, gets := CopyUser(src, dst, avail, noMount);
    if err != Ok {
      var frames;
      puts, frames := dst.UnmapFull();
    }
  }
}
