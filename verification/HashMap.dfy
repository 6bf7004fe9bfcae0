/** The hash map of src/kernel/ds/hashMap.c: chains of entries in memory, found through the search tree by hash. */
module HashMap {

  import opened Kernel
  import opened FiniteSets
  import opened SearchTree
  import opened BinaryTree
  import opened HashChains
  import opened Seals

  /** hashEntry at its address. */
  datatype Ent = Ent(key: int, value: int, next: int)

  type Entries = map<int, Ent>
  type Chains = map<int, seq<int>>

  /** The addresses of c are linked by next, in order. */
  ghost predicate Strung(entries: Entries, c: seq<int>) {
    && (forall i | 0 <= i < |c| :: c[i] != NULL && c[i] in entries)
    && (forall i, j | 0 <= i < j < |c| :: c[i] != c[j])
    && (forall i, j | 0 <= i < j < |c| && j == i + 1 :: entries[c[i]].next == c[j])
    && (c != [] ==> entries[c[|c| - 1]].next == NULL)
  }

  ghost predicate ChainOk(hash: int -> int, entries: Entries, h: int, c: seq<int>) {
    c != [] && Strung(entries, c) && forall i | 0 <= i < |c| :: hash(entries[c[i]].key) == h
  }

  /** Every entry is in the chain of its hash, and the chains hold nothing else. */
  ghost predicate Chained(hash: int -> int, entries: Entries, chains: Chains) {
    && (forall h | h in chains :: ChainOk(hash, entries, h, chains[h]))
    && (forall a | a in entries :: hash(entries[a].key) in chains && a in chains[hash(entries[a].key)])
  }

  ghost function ItemsOf(entries: Entries, c: seq<int>): seq<Item> {
    seq(|c|, i requires 0 <= i < |c| => if c[i] in entries then Item(entries[c[i]].key, entries[c[i]].value) else Item(0, 0))
  }

  ghost function Bucket(chains: Chains, h: int): seq<int> {
    if h in chains then chains[h] else []
  }

  /** What the map holds for hash h, oldest first. */
  ghost function Items(entries: Entries, chains: Chains, h: int): seq<Item> {
    ItemsOf(entries, Bucket(chains, h))
  }

  // ----- changing one chain

  /** The chains with c for hash h; an empty chain is not kept. */
  ghost function WithChain(chains: Chains, h: int, c: seq<int>): Chains {
    if c == [] then chains - {h} else chains[h := c]
  }

  /** Only entries of hash h differ, and those are the ones in c. */
  ghost predicate ChangesOnly(hash: int -> int, entries: Entries, entries': Entries, h: int, c: seq<int>) {
    && (forall a | a in entries && hash(entries[a].key) != h :: a in entries' && entries'[a] == entries[a])
    && (forall a | a in entries' :: if hash(entries'[a].key) == h then a in c else a in entries && entries'[a] == entries[a])
  }

  lemma ChainReplaced(hash: int -> int, entries: Entries, entries': Entries, chains: Chains, h: int, c: seq<int>)
    requires Chained(hash, entries, chains) && ChangesOnly(hash, entries, entries', h, c)
    requires c == [] || ChainOk(hash, entries', h, c)
    ensures Chained(hash, entries', WithChain(chains, h, c))
  {
  }

  lemma ItemsReplaced(hash: int -> int, entries: Entries, entries': Entries, chains: Chains, h: int, c: seq<int>, g: int)
    requires Chained(hash, entries, chains) && ChangesOnly(hash, entries, entries', h, c)
    ensures Items(entries', WithChain(chains, h, c), g) == if g == h then ItemsOf(entries', c) else Items(entries, chains, g)
  {
  }

  // ----- appending

  /** The entries with n at the end of the chain c. */
  ghost function Appended(entries: Entries, c: seq<int>, n: int, k: int, v: int): Entries
    requires c != [] ==> c[|c| - 1] in entries
  {
    if c == [] then entries[n := Ent(k, v, NULL)]
    else entries[n := Ent(k, v, NULL)][c[|c| - 1] := entries[c[|c| - 1]].(next := n)]
  }

  lemma AppendChanges(hash: int -> int, entries: Entries, chains: Chains, n: int, k: int, v: int)
    requires Chained(hash, entries, chains) && n !in entries
    ensures Strung(entries, Bucket(chains, hash(k)))
    ensures ChangesOnly(hash, entries, Appended(entries, Bucket(chains, hash(k)), n, k, v), hash(k), Bucket(chains, hash(k)) + [n])
  {
  }

  lemma AppendOk(hash: int -> int, entries: Entries, c: seq<int>, n: int, k: int, v: int)
    requires c == [] || ChainOk(hash, entries, hash(k), c)
    requires n !in entries && n != NULL
    ensures ChainOk(hash, Appended(entries, c, n, k, v), hash(k), c + [n])
  {
  }

  // ----- dropping

  /** The entries without the one at position i of the chain c, whose predecessor now skips it. */
  ghost function Dropped(entries: Entries, c: seq<int>, i: int): Entries
    requires 0 <= i < |c| && c[i] in entries && (i > 0 ==> c[i - 1] in entries)
  {
    if i == 0 then entries - {c[0]}
    else entries[c[i - 1] := entries[c[i - 1]].(next := entries[c[i]].next)] - {c[i]}
  }

  lemma DropOk(hash: int -> int, entries: Entries, h: int, c: seq<int>, i: int)
    requires ChainOk(hash, entries, h, c) && 0 <= i < |c|
    ensures DropAt(c, i) == [] || ChainOk(hash, Dropped(entries, c, i), h, DropAt(c, i))
  {
  }

  lemma DropItems(entries: Entries, c: seq<int>, i: int)
    requires Strung(entries, c) && 0 <= i < |c|
    ensures ItemsOf(Dropped(entries, c, i), DropAt(c, i)) == DropAt(ItemsOf(entries, c), i)
    ensures |Dropped(entries, c, i)| == |entries| - 1
  {
  }

  lemma DropChanges(hash: int -> int, entries: Entries, chains: Chains, h: int, i: int)
    requires Chained(hash, entries, chains) && h in chains && 0 <= i < |chains[h]|
    ensures ChainOk(hash, entries, h, chains[h])
    ensures ChangesOnly(hash, entries, Dropped(entries, chains[h], i), h, DropAt(chains[h], i))
  {
  }

  /** The same, a few recursive steps away, so that only proofs that ask for it look inside. */
  ghost predicate Kept(hash: int -> int, entries: Entries, chains: Chains, seal: Seal := SEALED) {
    match seal
    case Open => Chained(hash, entries, chains)
    case Shut(inner) => Kept(hash, entries, chains, inner)
  }

  lemma KeptIs(hash: int -> int, entries: Entries, chains: Chains)
    ensures Kept(hash, entries, chains) <==> Chained(hash, entries, chains)
  {
    assert Kept(hash, entries, chains, Shut(Shut(Open))) == Kept(hash, entries, chains, Shut(Open))
        == Kept(hash, entries, chains, Open);
  }

  /** The chain of a hash. */
  lemma KeptChain(hash: int -> int, entries: Entries, chains: Chains, h: int)
    requires Kept(hash, entries, chains)
    ensures h in chains ==> ChainOk(hash, entries, h, chains[h])
    ensures Strung(entries, Bucket(chains, h))
  {
    KeptIs(hash, entries, chains);
    assert h in chains ==> ChainOk(hash, entries, h, chains[h]);
  }

  // ----- what the map holds

  /** The values of key k, oldest first. */
  ghost function Values(hash: int -> int, entries: Entries, chains: Chains, k: int): seq<int> {
    Queue(Items(entries, chains, hash(k)), k)
  }

  ghost function Head(chains: Chains, h: int): Option<int> {
    if h in chains && chains[h] != [] then Some(chains[h][0]) else None
  }

  lemma AppendBag(hash: int -> int, entries: Entries, chains: Chains, n: int, key: int, value: int, g: int)
    requires Kept(hash, entries, chains) && n !in entries && n != NULL && Strung(entries, Bucket(chains, hash(key)))
    ensures var c := Bucket(chains, hash(key));
      Items(Appended(entries, c, n, key, value), WithChain(chains, hash(key), c + [n]), g)
      == Items(entries, chains, g) + if g == hash(key) then [Item(key, value)] else []
  {
    var c := Bucket(chains, hash(key));
    KeptIs(hash, entries, chains);
    AppendChanges(hash, entries, chains, n, key, value);
    ItemsReplaced(hash, entries, Appended(entries, c, n, key, value), chains, hash(key), c + [n], g);
  }

  lemma AppendChained(hash: int -> int, entries: Entries, chains: Chains, n: int, key: int, value: int)
    requires Kept(hash, entries, chains) && n !in entries && n != NULL
    ensures Strung(entries, Bucket(chains, hash(key)))
    ensures |Appended(entries, Bucket(chains, hash(key)), n, key, value)| == |entries| + 1
    ensures Kept(hash, Appended(entries, Bucket(chains, hash(key)), n, key, value),
                    WithChain(chains, hash(key), Bucket(chains, hash(key)) + [n]))
  {
    var c := Bucket(chains, hash(key));
    KeptIs(hash, entries, chains);
    assert c != [] ==> ChainOk(hash, entries, hash(key), c);
    AppendChanges(hash, entries, chains, n, key, value);
    AppendOk(hash, entries, c, n, key, value);
    ChainReplaced(hash, entries, Appended(entries, c, n, key, value), chains, hash(key), c + [n]);
    KeptIs(hash, Appended(entries, c, n, key, value), WithChain(chains, hash(key), c + [n]));
  }

  /** Position i holds the first entry of its key. */
  lemma FirstValue(hash: int -> int, entries: Entries, chains: Chains, key: int, i: int)
    requires 0 <= i < |Bucket(chains, hash(key))| && Bucket(chains, hash(key))[i] in entries
    requires var s := Items(entries, chains, hash(key)); NoneBefore(s, key, i) && s[i].key == key
    ensures Values(hash, entries, chains, key) != []
    ensures Values(hash, entries, chains, key)[0] == entries[Bucket(chains, hash(key))[i]].value
  {
    QueueFirst(Items(entries, chains, hash(key)), key, i);
  }

  lemma UpdateKept(hash: int -> int, entries: Entries, chains: Chains, a: int, v: int)
    requires Kept(hash, entries, chains) && a in entries
    ensures Kept(hash, entries[a := entries[a].(value := v)], chains) && |entries[a := entries[a].(value := v)]| == |entries|
  {
    var entries' := entries[a := entries[a].(value := v)];
    KeptIs(hash, entries, chains);
    KeptIs(hash, entries', chains);
    assert entries'.Keys == entries.Keys;
    forall h | h in chains
      ensures ChainOk(hash, entries', h, chains[h])
    {
      assert ChainOk(hash, entries, h, chains[h]);
    }
  }

  lemma UpdateValues(hash: int -> int, entries: Entries, chains: Chains, key: int, i: int, v: int, k: int)
    requires Kept(hash, entries, chains) && 0 <= i < |Bucket(chains, hash(key))| && Bucket(chains, hash(key))[i] in entries
    requires var s := Items(entries, chains, hash(key)); NoneBefore(s, key, i) && s[i].key == key
    ensures var a := Bucket(chains, hash(key))[i]; var old_ := Values(hash, entries, chains, k);
      && (k == key ==> old_ != [])
      && Values(hash, entries[a := entries[a].(value := v)], chains, k) == if k == key then [v] + old_[1..] else old_
  {
    var c := Bucket(chains, hash(key));
    var entries' := entries[c[i] := entries[c[i]].(value := v)];
    KeptChain(hash, entries, chains, hash(k));
    KeptChain(hash, entries, chains, hash(key));
    if hash(k) == hash(key) {
      assert ItemsOf(entries', c) == ItemsOf(entries, c)[i := Item(key, v)];
      QueueUpdate(ItemsOf(entries, c), i, v, k);
    } else {
      assert Items(entries', chains, hash(k)) == Items(entries, chains, hash(k));
    }
  }

  lemma DropKept(hash: int -> int, entries: Entries, chains: Chains, h: int, i: int)
    requires Kept(hash, entries, chains) && 0 <= i < |Bucket(chains, h)|
    ensures ChainOk(hash, entries, h, Bucket(chains, h))
    ensures Kept(hash, Dropped(entries, Bucket(chains, h), i), WithChain(chains, h, DropAt(Bucket(chains, h), i)))
    ensures |Dropped(entries, Bucket(chains, h), i)| == |entries| - 1
  {
    var c := chains[h];
    KeptIs(hash, entries, chains);
    DropChanges(hash, entries, chains, h, i);
    DropOk(hash, entries, h, c, i);
    DropItems(entries, c, i);
    ChainReplaced(hash, entries, Dropped(entries, c, i), chains, h, DropAt(c, i));
    KeptIs(hash, Dropped(entries, c, i), WithChain(chains, h, DropAt(c, i)));
  }

  lemma DropValues(hash: int -> int, entries: Entries, chains: Chains, key: int, i: int, k: int)
    requires Kept(hash, entries, chains) && 0 <= i < |Bucket(chains, hash(key))|
    requires var s := Items(entries, chains, hash(key)); NoneBefore(s, key, i) && s[i].key == key
    ensures ChainOk(hash, entries, hash(key), Bucket(chains, hash(key)))
    ensures var c := Bucket(chains, hash(key)); var old_ := Values(hash, entries, chains, k);
      && (k == key ==> old_ != [])
      && Values(hash, Dropped(entries, c, i), WithChain(chains, hash(key), DropAt(c, i)), k) == if k == key then old_[1..] else old_
  {
    var h := hash(key);
    var c := chains[h];
    KeptIs(hash, entries, chains);
    DropChanges(hash, entries, chains, h, i);
    DropOk(hash, entries, h, c, i);
    DropItems(entries, c, i);
    ItemsReplaced(hash, entries, Dropped(entries, c, i), chains, h, DropAt(c, i), hash(k));
    QueueDrop(ItemsOf(entries, c), i, k);
  }

  /** hashMap_match_by_key and hashMap_match_by_ptr. */
  predicate Matches(entries: Entries, byKey: bool, arg: int, a: int) {
    if byKey then a in entries && entries[a].key == arg else a == arg
  }

  /** The search tree once position i of the chain c, whose node is at p, is gone. */
  ghost function TreeAfter(t: Tree, p: Path, c: seq<int>, i: int): Tree
    requires Leads(t, p) && At(t, p).Bin? && |c| > 0
  {
    if |c| == 1 then Without(t, p) else if i == 0 then Put(t, p, At(t, p).(data := c[1])) else t
  }

  // ----- the size

  /** The lengths of the chains below t, added up. */
  ghost function Sum(t: Tree, chains: Chains): int {
    match t
    case Nil => 0
    case Bin(l, _, h, _, r) => Sum(l, chains) + |Bucket(chains, h)| + Sum(r, chains)
  }

  /** The entries of the chains below t, in order. */
  ghost function Listed(t: Tree, chains: Chains): seq<int> {
    match t
    case Nil => []
    case Bin(l, _, h, _, r) => Listed(l, chains) + Bucket(chains, h) + Listed(r, chains)
  }

  lemma {:induction false} ListedCount(t: Tree, chains: Chains)
    ensures |Listed(t, chains)| == Sum(t, chains)
  {
    if t.Bin? {
      ListedCount(t.left, chains);
      ListedCount(t.right, chains);
    }
  }

  /** An entry is listed below t exactly when its hash has a node there. */
  lemma {:induction false} ListedIn(hash: int -> int, entries: Entries, chains: Chains, t: Tree, a: int)
    requires Kept(hash, entries, chains)
    ensures a in Listed(t, chains) <==> a in entries && Has(t, hash(entries[a].key))
  {
    if t.Bin? {
      ListedIn(hash, entries, chains, t.left, a);
      ListedIn(hash, entries, chains, t.right, a);
      KeptIs(hash, entries, chains);
      KeptChain(hash, entries, chains, t.key);
    }
  }

  lemma {:induction false} ListedOnce(hash: int -> int, entries: Entries, chains: Chains, t: Tree)
    requires Kept(hash, entries, chains) && Sorted(t)
    ensures NoDup(Listed(t, chains))
  {
    if t.Bin? {
      var l, c, r := Listed(t.left, chains), Bucket(chains, t.key), Listed(t.right, chains);
      ListedOnce(hash, entries, chains, t.left);
      ListedOnce(hash, entries, chains, t.right);
      KeptChain(hash, entries, chains, t.key);
      forall a
        ensures a in l ==> a !in c && a !in r
        ensures a in c ==> a !in r
      {
        ListedIn(hash, entries, chains, t.left, a);
        ListedIn(hash, entries, chains, t.right, a);
      }
      NoDupJoin(l, c);
      NoDupJoin(l + c, r);
    }
  }

  lemma {:induction false} ChainCount(c: seq<int>, s: set<int>)
    requires NoDup(c) && forall a :: a in s <==> a in c
    ensures |s| == |c|
  {
    if c == [] {
      NoElements(s);
    } else {
      RemoveOne(s, c[0]);
      forall a
        ensures a in s - {c[0]} <==> a in c[1..]
      {
        if a in c && a != c[0] {
          var i :| 0 <= i < |c| && c[i] == a;
          assert c[1..][i - 1] == a;
        }
      }
      ChainCount(c[1..], s - {c[0]});
    }
  }

  /** The entries of key k in the chain c. */
  ghost function OfKey(entries: Entries, c: seq<int>, k: int): seq<int> {
    if c == [] then []
    else if c[0] in entries && entries[c[0]].key == k then [c[0]] + OfKey(entries, c[1..], k)
    else OfKey(entries, c[1..], k)
  }

  lemma {:induction false} OfKeyIn(entries: Entries, c: seq<int>, k: int, a: int)
    ensures a in OfKey(entries, c, k) <==> a in c && a in entries && entries[a].key == k
  {
    if c != [] {
      OfKeyIn(entries, c[1..], k, a);
    }
  }

  /** They are as many as the values of the key, each once. */
  lemma {:induction false} OfKeyCount(entries: Entries, c: seq<int>, k: int)
    requires NoDup(c) && forall i | 0 <= i < |c| :: c[i] in entries
    ensures |OfKey(entries, c, k)| == |Queue(ItemsOf(entries, c), k)| && NoDup(OfKey(entries, c, k))
  {
    if c != [] {
      OfKeyCount(entries, c[1..], k);
      OfKeyIn(entries, c[1..], k, c[0]);
      assert ItemsOf(entries, c)[1..] == ItemsOf(entries, c[1..]);
    }
  }

  /** The entries of the keys of ks, key by key. */
  ghost function OfKeys(hash: int -> int, entries: Entries, chains: Chains, ks: seq<int>): seq<int> {
    if ks == [] then []
    else OfKeys(hash, entries, chains, ks[1..]) + OfKey(entries, Bucket(chains, hash(ks[0])), ks[0])
  }

  /** The lengths of the queues of the keys of ks, added up. */
  ghost function Total(hash: int -> int, entries: Entries, chains: Chains, ks: seq<int>): int {
    if ks == [] then 0 else Total(hash, entries, chains, ks[1..]) + |Values(hash, entries, chains, ks[0])|
  }

  lemma {:induction false} OfKeysIn(hash: int -> int, entries: Entries, chains: Chains, ks: seq<int>, a: int)
    requires Kept(hash, entries, chains)
    ensures a in OfKeys(hash, entries, chains, ks) <==> a in entries && entries[a].key in ks
  {
    if ks != [] {
      OfKeysIn(hash, entries, chains, ks[1..], a);
      OfKeyIn(entries, Bucket(chains, hash(ks[0])), ks[0], a);
      KeptIs(hash, entries, chains);
    }
  }

  lemma {:induction false} OfKeysCount(hash: int -> int, entries: Entries, chains: Chains, ks: seq<int>)
    requires Kept(hash, entries, chains) && NoDup(ks)
    ensures |OfKeys(hash, entries, chains, ks)| == Total(hash, entries, chains, ks) && NoDup(OfKeys(hash, entries, chains, ks))
  {
    if ks != [] {
      var k, c := ks[0], Bucket(chains, hash(ks[0]));
      OfKeysCount(hash, entries, chains, ks[1..]);
      KeptChain(hash, entries, chains, hash(k));
      OfKeyCount(entries, c, k);
      forall a | a in OfKeys(hash, entries, chains, ks[1..])
        ensures a !in OfKey(entries, c, k)
      {
        OfKeysIn(hash, entries, chains, ks[1..], a);
        OfKeyIn(entries, c, k, a);
      }
      NoDupJoin(OfKeys(hash, entries, chains, ks[1..]), OfKey(entries, c, k));
    }
  }

  class HashTable {
    const hash: int -> int
    const buckets: Btree
    var entries: Entries
    var size: int
    ghost var chains: Chains

    ghost predicate Valid()
      reads this, buckets
    {
      && buckets.Valid() && Kept(hash, entries, chains) && size == |entries|
      && forall h :: Find(buckets.tree, h) == Head(chains, h)
    }

    ghost function Bag(h: int): seq<Item>
      reads this
    {
      Items(entries, chains, h)
    }

    ghost function ValuesOf(k: int): seq<int>
      reads this
    {
      Values(hash, entries, chains, k)
    }

    constructor (hash: int -> int)
      ensures Valid() && fresh(buckets) && this.hash == hash && entries == map[] && chains == map[]
    {
      this.hash := hash;
      buckets := new Btree();
      entries, size, chains := map[], 0, map[];
      new;
      KeptIs(hash, entries, chains);
    }

    /** The last entry of the chain that starts at head. */
    method TailOf(head: int, ghost c: seq<int>) returns (tail: int)
      requires Strung(entries, c) && c != [] && c[0] == head
      ensures tail == c[|c| - 1]
    {
      var node := head;
      ghost var i := 0;
      tail := NULL;
      while node != NULL
        invariant 0 <= i <= |c| && node == (if i < |c| then c[i] else NULL) && (i > 0 ==> tail == c[i - 1])
        decreases |c| - i
      {
        tail := node;
        assert i + 1 < |c| ==> entries[c[i]].next == c[i + 1];
        node := entries[node].next;
        i := i + 1;
      }
    }

    /** Links entry n behind the chain of its hash that starts at head. */
    method LinkTail(n: int, key: int, value: int, head: int)
      requires Valid() && n != NULL && n !in entries && Head(chains, hash(key)) == Some(head)
      requires Strung(entries, Bucket(chains, hash(key)))
      modifies this
      ensures Valid() && entries == Appended(old(entries), Bucket(old(chains), hash(key)), n, key, value)
      ensures chains == WithChain(old(chains), hash(key), Bucket(old(chains), hash(key)) + [n])
    {
      ghost var c := Bucket(chains, hash(key));
      AppendChained(hash, entries, chains, n, key, value);
      var tail := TailOf(head, c);
      entries := entries[n := Ent(key, value, NULL)];
      entries := entries[tail := entries[tail].(next := n)];
      chains := WithChain(chains, hash(key), c + [n]);
      size := size + 1;
    }

    /** Makes entry n a chain of its own. */
    method LinkAlone(n: int, key: int, value: int, canAllocNode: bool) returns (err: Errno)
      requires Valid() && n != NULL && n !in entries && Bucket(chains, hash(key)) == []
      modifies this, buckets
      ensures Valid() && err == if canAllocNode then Ok else ENOMEM
      ensures err != Ok ==> entries == old(entries) && chains == old(chains)
      ensures err == Ok ==> entries == Appended(old(entries), Bucket(old(chains), hash(key)), n, key, value)
      ensures err == Ok ==> chains == WithChain(old(chains), hash(key), Bucket(old(chains), hash(key)) + [n])
    {
      AppendChained(hash, entries, chains, n, key, value);
      FindHas(buckets.tree, hash(key));
      err := buckets.Insert(hash(key), n, canAllocNode);
      if err == Ok {
        entries := entries[n := Ent(key, value, NULL)];
        chains := WithChain(chains, hash(key), Bucket(chains, hash(key)) + [n]);
        size := size + 1;
      }
    }

    /** hashMap_insert_entry, for an entry n that is in no chain yet. */
    method InsertEntry(n: int, key: int, value: int, canAllocNode: bool) returns (err: Errno)
      requires Valid() && n != NULL && n !in entries
      modifies this, buckets
      ensures Strung(old(entries), Bucket(old(chains), hash(key)))
      ensures Valid() && err == if canAllocNode || Bucket(old(chains), hash(key)) != [] then Ok else ENOMEM
      ensures err != Ok ==> entries == old(entries) && chains == old(chains)
      ensures err == Ok ==> entries == Appended(old(entries), Bucket(old(chains), hash(key)), n, key, value)
      ensures err == Ok ==> chains == WithChain(old(chains), hash(key), Bucket(old(chains), hash(key)) + [n])
    {
      KeptChain(hash, entries, chains, hash(key));
      var head;
      err, head := buckets.Search(hash(key));
      if err == Ok {
        LinkTail(n, key, value, head);
      } else {
        err := LinkAlone(n, key, value, canAllocNode);
      }
    }

    /** A new entry, allocated and put in its chain. */
    method Add(key: int, value: int, canAllocEntry: bool, canAllocNode: bool) returns (err: Errno)
      requires Valid()
      modifies this, buckets
      ensures Valid() && err == if canAllocEntry && (canAllocNode || Bucket(old(chains), hash(key)) != []) then Ok else ENOMEM
      ensures err != Ok ==> entries == old(entries) && chains == old(chains)
      ensures err == Ok ==> size == old(size) + 1
      ensures err == Ok ==> forall g :: Bag(g) == old(Bag(g)) + if g == hash(key) then [Item(key, value)] else []
    {
      if !canAllocEntry {
        return ENOMEM;
      }
      ghost var above := AboveAll(entries.Keys + {NULL});
      assert above != NULL && above !in entries;
      var n :| n != NULL && n !in entries;
      AppendChained(hash, entries, chains, n, key, value);
      err := InsertEntry(n, key, value, canAllocNode);
      if err == Ok {
        forall g
          ensures Bag(g) == old(Bag(g)) + if g == hash(key) then [Item(key, value)] else []
        {
          AppendBag(hash, old(entries), old(chains), n, key, value, g);
        }
      }
    }

    /** hashMap_insert: the value joins the end of its key's queue. */
    method Insert(key: int, value: int, canAllocEntry: bool, canAllocNode: bool) returns (err: Errno)
      requires Valid()
      modifies this, buckets
      ensures Valid() && err == if key == NULL then EINVAL
                                else if canAllocEntry && (canAllocNode || Bucket(old(chains), hash(key)) != []) then Ok else ENOMEM
      ensures err != Ok ==> entries == old(entries) && chains == old(chains)
      ensures err == Ok ==> size == old(size) + 1
      ensures err == Ok ==> forall k :: ValuesOf(k) == old(ValuesOf(k)) + if k == key then [value] else []
    {
      if key == NULL {
        return EINVAL;
      }
      err := Add(key, value, canAllocEntry, canAllocNode);
      if err == Ok {
        forall k
          ensures ValuesOf(k) == old(ValuesOf(k)) + if k == key then [value] else []
        {
          QueueAppend(old(Bag(hash(k))), Item(key, value), k);
          assert hash(k) != hash(key) ==> Bag(hash(k)) == old(Bag(hash(k)));
        }
      }
    }

    /** hashMap_lookup_entry: the first entry of the key in its chain. */
    method LookupEntry(key: int) returns (err: Errno, entry: int, ghost i: int)
      requires Valid()
      ensures err == if key == NULL then EINVAL else if ValuesOf(key) == [] then ENOENT else Ok
      ensures err == Ok ==> 0 <= i < |Bucket(chains, hash(key))| && Bucket(chains, hash(key))[i] == entry && entry in entries
      ensures err == Ok ==> var s := Items(entries, chains, hash(key)); NoneBefore(s, key, i) && s[i].key == key
    {
      ghost var c := Bucket(chains, hash(key));
      KeptChain(hash, entries, chains, hash(key));
      i := 0;
      if key == NULL {
        return EINVAL, NULL, 0;
      }
      err, entry := buckets.Search(hash(key));
      if err == Ok {
        while entry != NULL
          invariant 0 <= i <= |c| && entry == (if i < |c| then c[i] else NULL) && NoneBefore(ItemsOf(entries, c), key, i)
          decreases |c| - i
        {
          if entries[entry].key == key {
            FirstValue(hash, entries, chains, key, i);
            return;
          }
          assert i + 1 < |c| ==> entries[c[i]].next == c[i + 1];
          entry := entries[entry].next;
          i := i + 1;
        }
      }
      QueueEmpty(ItemsOf(entries, c), key);
      err := ENOENT;
    }

    /** hashMap_lookup: the oldest value. */
    method Lookup(key: int) returns (err: Errno, value: int)
      requires Valid()
      ensures err == if key == NULL then EINVAL else if ValuesOf(key) == [] then ENOENT else Ok
      ensures err == Ok ==> value == ValuesOf(key)[0]
    {
      var entry;
      ghost var i;
      value := 0;
      if key == NULL {
        return EINVAL, 0;
      }
      err, entry, i := LookupEntry(key);
      if err == Ok {
        FirstValue(hash, entries, chains, key, i);
        value := entries[entry].value;
      }
    }

    /** hashMap_update: the oldest value is replaced. */
    method Update(key: int, value: int) returns (err: Errno)
      requires Valid()
      modifies this
      ensures Valid() && size == old(size)
      ensures err == if key == NULL || value == NULL then EINVAL else if old(ValuesOf(key)) == [] then ENOENT else Ok
      ensures err != Ok ==> entries == old(entries) && chains == old(chains)
      ensures err == Ok ==> ValuesOf(key) == [value] + old(ValuesOf(key))[1..]
      ensures err == Ok ==> forall k | k != key :: ValuesOf(k) == old(ValuesOf(k))
    {
      if key == NULL || value == NULL {
        return EINVAL;
      }
      var entry;
      ghost var i;
      err, entry, i := LookupEntry(key);
      if err == Ok {
        UpdateKept(hash, entries, chains, entry, value);
        forall k
          ensures (k == key ==> Values(hash, entries, chains, k) != [])
          ensures Values(hash, entries[entry := entries[entry].(value := value)], chains, k)
               == if k == key then [value] + Values(hash, entries, chains, k)[1..] else Values(hash, entries, chains, k)
        {
          UpdateValues(hash, entries, chains, key, i, value, k);
        }
        entries := entries[entry := entries[entry].(value := value)];
      }
    }

    /** The node at p gets another chain head, or goes when the chain is empty. */
    method Retarget(node: int, head: int, ghost p: Path, ghost c: seq<int>)
      requires buckets.Valid() && Leads(buckets.tree, p) && At(buckets.tree, p).Bin? && At(buckets.tree, p).addr == node
      requires head == if c == [] then NULL else c[0]
      requires c != [] ==> c[0] != NULL
      modifies buckets
      ensures buckets.Valid()
      ensures buckets.tree == if c == [] then Without(old(buckets.tree), p)
                              else Put(old(buckets.tree), p, At(old(buckets.tree), p).(data := head))
      ensures forall x | x != At(old(buckets.tree), p).key :: Find(buckets.tree, x) == Find(old(buckets.tree), x)
      ensures Find(buckets.tree, At(old(buckets.tree), p).key) == if c == [] then None else Some(c[0])
    {
      ghost var t := buckets.tree;
      if head == NULL {
        forall x
          ensures Find(Without(t, p), x) == if x == At(t, p).key then None else Find(t, x)
        {
          DeleteFind(t, p, x);
        }
        buckets.DeleteNode(node, p);
      } else {
        buckets.SetData(node, head, p);
      }
    }

    /** The head of a chain goes: the tree node with it, or only the node's data. */
    method RemoveHead(h: int, node: int, ghost p: Path)
      requires Valid() && Bucket(chains, h) != [] && Leads(buckets.tree, p) && At(buckets.tree, p).Bin?
      requires At(buckets.tree, p).addr == node && At(buckets.tree, p).key == h
      modifies this, buckets
      ensures ChainOk(hash, old(entries), h, Bucket(old(chains), h))
      ensures Valid() && entries == Dropped(old(entries), Bucket(old(chains), h), 0)
      ensures chains == WithChain(old(chains), h, DropAt(Bucket(old(chains), h), 0))
      ensures buckets.tree == TreeAfter(old(buckets.tree), p, Bucket(old(chains), h), 0)
    {
      ghost var c, t := Bucket(chains, h), buckets.tree;
      DropKept(hash, entries, chains, h, 0);
      HeldAt(buckets.nodes, t, NULL, p);
      FindAt(t, p);
      var head := buckets.nodes[node].data;
      assert head == c[0] && (1 < |c| ==> entries[c[0]].next == c[1]);
      var next := entries[head].next;
      assert DropAt(c, 0) == c[1..];
      Retarget(node, next, p, DropAt(c, 0));
      entries := entries - {head};
      chains := WithChain(chains, h, DropAt(c, 0));
      size := size - 1;
    }

    /** The entry node, at position i behind prev, goes. */
    method RemoveInner(h: int, prev: int, node: int, ghost i: int)
      requires Valid() && 0 < i < |Bucket(chains, h)| && Bucket(chains, h)[i] == node && Bucket(chains, h)[i - 1] == prev
      modifies this
      ensures ChainOk(hash, old(entries), h, Bucket(old(chains), h))
      ensures Valid() && entries == Dropped(old(entries), Bucket(old(chains), h), i)
      ensures chains == WithChain(old(chains), h, DropAt(Bucket(old(chains), h), i))
    {
      DropKept(hash, entries, chains, h, i);
      entries := entries[prev := entries[prev].(next := entries[node].next)] - {node};
      chains := WithChain(chains, h, DropAt(Bucket(chains, h), i));
      size := size - 1;
    }

    /** hashMap_remove_internal_entry: the first match in the chain of h goes. */
    method RemoveMatch(h: int, byKey: bool, arg: int) returns (err: Errno, ghost i: int, ghost p: Path)
      requires Valid()
      modifies this, buckets
      ensures Strung(old(entries), Bucket(old(chains), h))
      ensures Valid() && (err == Ok || err == ENOENT)
      ensures err != Ok ==> entries == old(entries) && chains == old(chains) && buckets.tree == old(buckets.tree)
      ensures err != Ok ==>
        forall j | 0 <= j < |Bucket(old(chains), h)| :: !Matches(old(entries), byKey, arg, Bucket(old(chains), h)[j])
      ensures err == Ok ==> 0 <= i < |Bucket(old(chains), h)| && Matches(old(entries), byKey, arg, Bucket(old(chains), h)[i])
      ensures err == Ok ==> forall j | 0 <= j < i :: !Matches(old(entries), byKey, arg, Bucket(old(chains), h)[j])
      ensures err == Ok ==> entries == Dropped(old(entries), Bucket(old(chains), h), i)
      ensures err == Ok ==> chains == WithChain(old(chains), h, DropAt(Bucket(old(chains), h), i))
      ensures err == Ok ==> Leads(old(buckets.tree), p) && At(old(buckets.tree), p).Bin? && At(old(buckets.tree), p).key == h
      ensures err == Ok ==> buckets.tree == TreeAfter(old(buckets.tree), p, Bucket(old(chains), h), i)
    {
      ghost var c := Bucket(chains, h);
      KeptChain(hash, entries, chains, h);
      var btnode;
      btnode, p := buckets.Lookup(h);
      FindHas(buckets.tree, h);
      i := 0;
      if btnode == NULL {
        return ENOENT, 0, p;
      }
      var head := buckets.nodes[btnode].data;
      if Matches(entries, byKey, arg, head) {
        RemoveHead(h, btnode, p);
        return Ok, 0, p;
      }
      var prev, node := head, entries[head].next;
      i := 1;
      assert 1 < |c| ==> entries[c[0]].next == c[1];
      while node != NULL
        invariant 1 <= i <= |c| && prev == c[i - 1] && node == (if i < |c| then c[i] else NULL)
        invariant forall j | 0 <= j < i :: !Matches(entries, byKey, arg, c[j])
        decreases |c| - i
      {
        if Matches(entries, byKey, arg, node) {
          RemoveInner(h, prev, node, i);
          return Ok, i, p;
        }
        assert i + 1 < |c| ==> entries[c[i]].next == c[i + 1];
        prev, node := node, entries[node].next;
        i := i + 1;
      }
      err := ENOENT;
    }

    /** hashMap_remove: the oldest value of the key goes. */
    method Remove(key: int) returns (err: Errno)
      requires Valid()
      modifies this, buckets
      ensures Valid() && err == if key == NULL then EINVAL else if old(ValuesOf(key)) == [] then ENOENT else Ok
      ensures err != Ok ==> entries == old(entries) && chains == old(chains)
      ensures err == Ok ==> size == old(size) - 1 && ValuesOf(key) == old(ValuesOf(key))[1..]
      ensures err == Ok ==> forall k | k != key :: ValuesOf(k) == old(ValuesOf(k))
    {
      ghost var i, p;
      if key == NULL {
        return EINVAL;
      }
      KeptChain(hash, entries, chains, hash(key));
      err, i, p := RemoveMatch(hash(key), true, key);
      ghost var s := old(Bag(hash(key)));
      if err == Ok {
        assert NoneBefore(s, key, i) && s[i].key == key;
        DropKept(hash, old(entries), old(chains), hash(key), i);
        forall k
          ensures k == key ==> old(ValuesOf(k)) != []
          ensures ValuesOf(k) == if k == key then old(ValuesOf(k))[1..] else old(ValuesOf(k))
        {
          DropValues(hash, old(entries), old(chains), key, i, k);
        }
      } else {
        QueueEmpty(s, key);
      }
    }

    // ----- flushing

    /** hashMap_remove_entry of the head of the chain whose node is at p. */
    method RemoveFirst(entry: int, ghost h: int, ghost p: Path)
      requires Valid() && Bucket(chains, h) != [] && Bucket(chains, h)[0] == entry
      requires Leads(buckets.tree, p) && At(buckets.tree, p).Bin? && At(buckets.tree, p).key == h
      modifies this, buckets
      ensures Valid() && Bucket(chains, h) == Bucket(old(chains), h)[1..]
      ensures buckets.tree == TreeAfter(old(buckets.tree), p, Bucket(old(chains), h), 0)
    {
      ghost var i, q;
      var err;
      KeptChain(hash, entries, chains, h);
      ghost var t := buckets.tree;
      assert Matches(entries, false, entry, Bucket(chains, h)[0]);
      err, i, q := RemoveMatch(hash(entries[entry].key), false, entry);
      OnePath(t, p, q);
    }

    /** The loop of hashMap_into_iter_internal over one chain, with the callback of hashMap_flush. */
    method FlushChain(head: int, ghost p: Path, ghost c: seq<int>)
      requires Valid() && Leads(buckets.tree, p) && At(buckets.tree, p).Bin? && At(buckets.tree, p).left == Nil
      requires Bucket(chains, At(buckets.tree, p).key) == c && c != [] && c[0] == head
      modifies this, buckets
      ensures Valid() && buckets.tree == Put(old(buckets.tree), p, At(old(buckets.tree), p).right)
    {
      ghost var t, b, h := buckets.tree, At(buckets.tree, p), At(buckets.tree, p).key;
      FindAt(t, p);
      PutSame(t, p);
      assert b.(data := c[0]) == b;
      KeptChain(hash, entries, chains, h);
      var entry := head;
      ghost var i := 0;
      while entry != NULL
        invariant Valid() && 0 <= i <= |c| && entry == (if i < |c| then c[i] else NULL) && Bucket(chains, h) == c[i..]
        invariant buckets.tree == Put(t, p, if i < |c| then b.(data := c[i]) else b.right)
        decreases |c| - i
      {
        KeptChain(hash, entries, chains, h);
        PutPut(t, p, b.(data := c[i]), if i + 1 < |c| then b.(data := c[i + 1]) else b.right);
        assert i + 1 < |c| ==> c[i..][1] == c[i + 1] && entries[c[i..][0]].next == c[i..][1];
        var next := entries[entry].next;
        RemoveFirst(entry, h, p);
        entry := next;
        i := i + 1;
      }
    }

    /** hashMap_into_iter_internal with the callback of hashMap_flush: the subtree at p goes with all its entries. */
    method FlushNode(node: int, ghost p: Path, ghost s: Tree)
      requires Valid() && Leads(buckets.tree, p) && At(buckets.tree, p) == s && node == Ptr(s)
      modifies this, buckets
      ensures Valid() && buckets.tree == Put(old(buckets.tree), p, Nil)
      decreases s
    {
      ghost var t := buckets.tree;
      HeldAt(buckets.nodes, t, NULL, p);
      PutSame(t, p);
      if node != NULL {
        PathStep(t, p, true, Nil);
        FlushNode(buckets.nodes[node].left, p + [true], s.left);
        PutPut(t, p, s.(left := Nil), s.right);
        PutPut(t, p, s.right, Nil);
        HeldAt(buckets.nodes, buckets.tree, NULL, p);
        FindAt(buckets.tree, p);
        var head, right := buckets.nodes[node].data, buckets.nodes[node].right;
        FlushChain(head, p, Bucket(chains, s.key));
        FlushNode(right, p, s.right);
      }
    }

    /** hashMap_flush: nothing is left, although the callback deletes the node that is being visited. */
    method Flush()
      requires Valid()
      modifies this, buckets
      ensures Valid() && size == 0 && buckets.tree == Nil && buckets.size == 0
      ensures (forall a :: a !in entries) && forall k :: ValuesOf(k) == []
    {
      FlushNode(buckets.root, [], buckets.tree);
      KeptIs(hash, entries, chains);
      forall h
        ensures h !in chains
      {
        assert Find(buckets.tree, h) == Head(chains, h);
        assert h in chains ==> ChainOk(hash, entries, h, chains[h]);
      }
      NoElements(entries.Keys);
    }

    /** The size field is the number of values in all queues, added up over the keys that have any. */
    lemma SizeIsTotal(ks: seq<int>)
      requires Valid() && NoDup(ks) && forall k :: ValuesOf(k) != [] ==> k in ks
      ensures size == Total(hash, entries, chains, ks)
    {
      OfKeysCount(hash, entries, chains, ks);
      forall a
        ensures a in entries.Keys <==> a in OfKeys(hash, entries, chains, ks)
      {
        OfKeysIn(hash, entries, chains, ks, a);
        if a in entries {
          HasValue(a);
        }
      }
      ChainCount(OfKeys(hash, entries, chains, ks), entries.Keys);
    }

    lemma HasValue(a: int)
      requires Valid() && a in entries
      ensures ValuesOf(entries[a].key) != []
    {
      var k := entries[a].key;
      var c := Bucket(chains, hash(k));
      KeptIs(hash, entries, chains);
      KeptChain(hash, entries, chains, hash(k));
      OfKeyCount(entries, c, k);
      OfKeyIn(entries, c, k, a);
    }

    /** It is also the lengths of the chains of all nodes, added up. */
    lemma SizeIsSum()
      requires Valid()
      ensures size == Sum(buckets.tree, chains)
    {
      ListedCount(buckets.tree, chains);
      ListedOnce(hash, entries, chains, buckets.tree);
      KeptIs(hash, entries, chains);
      forall a
        ensures a in entries.Keys <==> a in Listed(buckets.tree, chains)
      {
        ListedIn(hash, entries, chains, buckets.tree, a);
        if a in entries {
          var h := hash(entries[a].key);
          assert Find(buckets.tree, h) == Head(chains, h);
          FindHas(buckets.tree, h);
        }
      }
      ChainCount(Listed(buckets.tree, chains), entries.Keys);
    }

    /** A hash without a node has no values. */
    lemma NoNode(h: int)
      requires Valid()
      ensures !Has(buckets.tree, h) ==> Bag(h) == []
    {
      assert Find(buckets.tree, h) == Head(chains, h);
      FindHas(buckets.tree, h);
      KeptChain(hash, entries, chains, h);
    }

    // ----- cloning

    /** hashMap_clone_iter: the entry at position i of the chain of h, duplicated. */
    method CloneEntry(dst: HashTable, entry: int, ghost h: int, ghost i: int)
      requires Valid() && dst.Valid() && dst != this && dst.buckets != buckets && dst.hash == hash
      requires 0 <= i < |Bucket(chains, h)| && Bucket(chains, h)[i] == entry && dst.Bag(h) == Bag(h)[..i]
      modifies dst, dst.buckets
      ensures dst.Valid() && dst.size == old(dst.size) + 1 && dst.Bag(h) == Bag(h)[..i + 1]
      ensures forall g | g != h :: dst.Bag(g) == old(dst.Bag(g))
    {
      KeptChain(hash, entries, chains, h);
      assert Bag(h)[i] == Item(entries[entry].key, entries[entry].value) && hash(entries[entry].key) == h;
      assert Bag(h)[..i] + [Bag(h)[i]] == Bag(h)[..i + 1];
      var err := dst.Add(entries[entry].key, entries[entry].value, true, true);
    }

    /** The same for a whole chain. */
    method CloneChain(dst: HashTable, head: int, ghost h: int)
      requires Valid() && dst.Valid() && dst != this && dst.buckets != buckets && dst.hash == hash
      requires Bucket(chains, h) != [] && Bucket(chains, h)[0] == head && dst.Bag(h) == []
      modifies dst, dst.buckets
      ensures dst.Valid() && dst.size == old(dst.size) + |Bucket(chains, h)|
      ensures forall g :: dst.Bag(g) == if g == h then Bag(g) else old(dst.Bag(g))
    {
      ghost var c, i := Bucket(chains, h), 0;
      KeptChain(hash, entries, chains, h);
      var entry := head;
      while entry != NULL
        invariant dst.Valid() && 0 <= i <= |c| && entry == (if i < |c| then c[i] else NULL) && dst.size == old(dst.size) + i
        invariant dst.Bag(h) == Bag(h)[..i] && forall g | g != h :: dst.Bag(g) == old(dst.Bag(g))
        decreases |c| - i
      {
        assert i + 1 < |c| ==> entries[c[i]].next == c[i + 1];
        CloneEntry(dst, entry, h, i);
        entry := entries[entry].next;
        i := i + 1;
      }
    }

    /** hashMap_into_iter_internal with the callback of hashMap_clone. */
    method CloneNode(dst: HashTable, node: int, ghost p: Path, ghost s: Tree)
      requires Valid() && dst.Valid() && dst != this && dst.buckets != buckets && dst.hash == hash
      requires Leads(buckets.tree, p) && At(buckets.tree, p) == s && node == Ptr(s)
      requires forall h | Has(s, h) :: dst.Bag(h) == []
      modifies dst, dst.buckets
      ensures dst.Valid() && dst.size == old(dst.size) + Sum(s, chains)
      ensures forall g :: dst.Bag(g) == if Has(s, g) then Bag(g) else old(dst.Bag(g))
      decreases s
    {
      HeldAt(buckets.nodes, buckets.tree, NULL, p);
      if node != NULL {
        AtSorted(buckets.tree, p);
        FindAt(buckets.tree, p);
        PathStep(buckets.tree, p, true, Nil);
        PathStep(buckets.tree, p, false, Nil);
        CloneNode(dst, buckets.nodes[node].left, p + [true], s.left);
        CloneChain(dst, buckets.nodes[node].data, s.key);
        CloneNode(dst, buckets.nodes[node].right, p + [false], s.right);
      }
    }

    /** hashMap_clone, when every allocation succeeds: the same queues, and the same size. */
    method Clone() returns (dst: HashTable)
      requires Valid()
      ensures fresh(dst) && fresh(dst.buckets) && dst.Valid() && dst.hash == hash
      ensures dst.size == size && forall k :: dst.ValuesOf(k) == ValuesOf(k)
    {
      dst := new HashTable(hash);
      assert forall h :: dst.Bag(h) == [];
      CloneNode(dst, buckets.root, [], buckets.tree);
      SizeIsSum();
      forall k
        ensures dst.ValuesOf(k) == ValuesOf(k)
      {
        NoNode(hash(k));
        assert dst.Bag(hash(k)) == Bag(hash(k));
      }
    }
  }
}
