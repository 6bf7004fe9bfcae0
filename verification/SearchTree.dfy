/** Search trees as values: what grafting a subtree from the root does. */
module SearchTree {

  import opened Kernel

  /** A node with its address, key and data. */
  datatype Tree = Nil | Bin(left: Tree, addr: int, key: int, data: int, right: Tree)

  ghost predicate Has(t: Tree, x: int) {
    match t
    case Nil => false
    case Bin(l, _, k, _, r) => x == k || Has(l, x) || Has(r, x)
  }

  ghost function Size(t: Tree): nat {
    match t
    case Nil => 0
    case Bin(l, _, _, _, r) => Size(l) + 1 + Size(r)
  }

  ghost predicate AllBelow(t: Tree, k: int) {
    forall x | Has(t, x) :: x < k
  }

  ghost predicate AllAbove(t: Tree, k: int) {
    forall x | Has(t, x) :: k < x
  }

  ghost predicate Sorted(t: Tree) {
    match t
    case Nil => true
    case Bin(l, _, k, _, r) => Sorted(l) && Sorted(r) && AllBelow(l, k) && AllAbove(r, k)
  }

  /** The data that a search for x finds. */
  ghost function Find(t: Tree, x: int): Option<int> {
    match t
    case Nil => None
    case Bin(l, _, k, d, r) => if x == k then Some(d) else if x < k then Find(l, x) else Find(r, x)
  }

  /** In a sorted tree the search finds every key. */
  lemma {:induction false} FindHas(t: Tree, x: int)
    requires Sorted(t)
    ensures Find(t, x).Some? <==> Has(t, x)
  {
    if t.Bin? {
      FindHas(t.left, x);
      FindHas(t.right, x);
    }
  }

  // ----- subtrees

  /** The directions from the root; true is left. */
  type Path = seq<bool>

  ghost predicate Leads(t: Tree, p: Path) {
    p == [] || (t.Bin? && Leads(if p[0] then t.left else t.right, p[1..]))
  }

  ghost function At(t: Tree, p: Path): Tree
    requires Leads(t, p)
  {
    if p == [] then t else At(if p[0] then t.left else t.right, p[1..])
  }

  ghost function Put(t: Tree, p: Path, s: Tree): Tree
    requires Leads(t, p)
  {
    if p == [] then s
    else if p[0] then t.(left := Put(t.left, p[1..], s))
    else t.(right := Put(t.right, p[1..], s))
  }

  /** The tree with s hung where a search for its key ends. */
  ghost function Graft(t: Tree, s: Tree): Tree
    requires s.Bin?
  {
    match t
    case Nil => s
    case Bin(l, _, k, _, r) =>
      if s.key < k then t.(left := Graft(l, s)) else if k < s.key then t.(right := Graft(r, s)) else t
  }

  /** What btree_delete_node leaves of a node: the left subtree grafted onto the right one. */
  ghost function Join(l: Tree, r: Tree): Tree {
    if l == Nil then r else Graft(r, l)
  }

  // ----- subtrees of sorted trees

  lemma {:induction false} AtSorted(t: Tree, p: Path)
    requires Leads(t, p) && Sorted(t)
    ensures Sorted(At(t, p)) && forall x | Has(At(t, p), x) :: Has(t, x)
  {
    if p != [] {
      AtSorted(if p[0] then t.left else t.right, p[1..]);
    }
  }

  /** A key of a subtree leads from the root to that subtree, whatever hangs there now. */
  lemma {:induction false} GraftReturns(t: Tree, p: Path, x: Tree, s: Tree)
    requires Leads(t, p) && Sorted(t) && s.Bin? && Has(At(t, p), s.key)
    ensures Graft(Put(t, p, x), s) == Put(t, p, Graft(x, s))
  {
    if p != [] {
      var c := if p[0] then t.left else t.right;
      AtSorted(c, p[1..]);
      GraftReturns(c, p[1..], x, s);
    }
  }

  /** A key is at one place only. */
  lemma {:induction false} OnePath(t: Tree, p: Path, q: Path)
    requires Sorted(t) && Leads(t, p) && Leads(t, q) && At(t, p).Bin? && At(t, q).Bin? && At(t, p).key == At(t, q).key
    ensures p == q
  {
    assert Has(At(t, p), At(t, p).key) && Has(At(t, q), At(t, q).key);
    if p != [] {
      AtSorted(if p[0] then t.left else t.right, p[1..]);
    }
    if q != [] {
      AtSorted(if q[0] then t.left else t.right, q[1..]);
    }
    if p != [] && q != [] && p[0] == q[0] {
      OnePath(if p[0] then t.left else t.right, p[1..], q[1..]);
    }
  }

  lemma {:induction false} FindAt(t: Tree, p: Path)
    requires Sorted(t) && Leads(t, p) && At(t, p).Bin?
    ensures Find(t, At(t, p).key) == Some(At(t, p).data)
  {
    if p != [] {
      var c := if p[0] then t.left else t.right;
      assert Has(At(t, p), At(t, p).key);
      AtSorted(c, p[1..]);
      FindAt(c, p[1..]);
    }
  }

  lemma {:induction false} PutPut(t: Tree, p: Path, s: Tree, s': Tree)
    requires Leads(t, p)
    ensures Leads(Put(t, p, s), p) && At(Put(t, p, s), p) == s && Put(Put(t, p, s), p, s') == Put(t, p, s')
  {
    if p != [] {
      PutPut(if p[0] then t.left else t.right, p[1..], s, s');
    }
  }

  lemma {:induction false} PutSame(t: Tree, p: Path)
    requires Leads(t, p)
    ensures Put(t, p, At(t, p)) == t
  {
    if p != [] {
      PutSame(if p[0] then t.left else t.right, p[1..]);
    }
  }

  /** One step further down. */
  lemma {:induction false} PathStep(t: Tree, p: Path, left: bool, s: Tree)
    requires Leads(t, p) && At(t, p).Bin?
    ensures Leads(t, p + [left]) && At(t, p + [left]) == if left then At(t, p).left else At(t, p).right
    ensures Put(t, p + [left], s) == Put(t, p, if left then At(t, p).(left := s) else At(t, p).(right := s))
  {
    if p != [] {
      assert (p + [left])[1..] == p[1..] + [left];
      PathStep(if p[0] then t.left else t.right, p[1..], left, s);
    }
  }

  // ----- what grafting keeps

  /** The keys of s all lie in one gap between the keys of t. */
  ghost predicate Fits(t: Tree, s: Tree)
    requires s.Bin?
  {
    forall k, x | Has(t, k) && Has(s, x) :: x != k && (x < k <==> s.key < k)
  }

  lemma FitsBelow(t: Tree, s: Tree)
    requires t.Bin? && s.Bin? && Fits(t, s)
    ensures Fits(t.left, s) && Fits(t.right, s)
    ensures forall x | Has(s, x) :: x != t.key && (x < t.key <==> s.key < t.key)
    ensures s.key != t.key
  {
    assert Has(t, t.key) && Has(s, s.key);
    forall k, x | (Has(t.left, k) || Has(t.right, k)) && Has(s, x)
      ensures x != k && (x < k <==> s.key < k)
    {
      assert Has(t, k);
    }
  }

  lemma {:induction false} GraftHas(t: Tree, s: Tree, x: int)
    requires s.Bin? && Fits(t, s)
    ensures Has(Graft(t, s), x) <==> Has(t, x) || Has(s, x)
  {
    if t.Bin? {
      FitsBelow(t, s);
      GraftHas(if s.key < t.key then t.left else t.right, s, x);
    }
  }

  lemma {:induction false} GraftSize(t: Tree, s: Tree)
    requires s.Bin? && Fits(t, s)
    ensures Size(Graft(t, s)) == Size(t) + Size(s)
  {
    if t.Bin? {
      FitsBelow(t, s);
      GraftSize(if s.key < t.key then t.left else t.right, s);
    }
  }

  lemma {:induction false} GraftSorted(t: Tree, s: Tree)
    requires s.Bin? && Fits(t, s) && Sorted(t) && Sorted(s)
    ensures Sorted(Graft(t, s))
  {
    if t.Bin? {
      FitsBelow(t, s);
      var c := if s.key < t.key then t.left else t.right;
      GraftSorted(c, s);
      forall x | Has(Graft(c, s), x)
        ensures x < t.key <==> s.key < t.key
        ensures x != t.key
      {
        GraftHas(c, s, x);
      }
    }
  }

  lemma {:induction false} GraftFind(t: Tree, s: Tree, x: int)
    requires s.Bin? && Fits(t, s) && Sorted(t) && Sorted(s)
    ensures Find(Graft(t, s), x) == if Has(s, x) then Find(s, x) else Find(t, x)
  {
    if t.Bin? {
      FitsBelow(t, s);
      GraftFind(if s.key < t.key then t.left else t.right, s, x);
    } else {
      FindHas(s, x);
    }
  }

  // ----- deletion

  /** The tree without the node at p. */
  ghost function Without(t: Tree, p: Path): Tree
    requires Leads(t, p) && At(t, p).Bin?
  {
    Put(t, p, Join(At(t, p).left, At(t, p).right))
  }

  lemma JoinFits(b: Tree)
    requires b.Bin? && Sorted(b) && b.left.Bin?
    ensures Fits(b.right, b.left)
  {
    assert Has(b.left, b.left.key);
  }

  lemma JoinKeeps(b: Tree)
    requires b.Bin? && Sorted(b)
    ensures Sorted(Join(b.left, b.right)) && Size(Join(b.left, b.right)) == Size(b) - 1
  {
    if b.left.Bin? {
      JoinFits(b);
      GraftSorted(b.right, b.left);
      GraftSize(b.right, b.left);
    }
  }

  lemma JoinFind(b: Tree, x: int)
    requires b.Bin? && Sorted(b)
    ensures Has(Join(b.left, b.right), x) <==> Has(b, x) && x != b.key
    ensures Find(Join(b.left, b.right), x) == if x == b.key then None else Find(b, x)
  {
    FindHas(b.left, x);
    FindHas(b.right, x);
    if b.left.Bin? {
      JoinFits(b);
      GraftHas(b.right, b.left, x);
      GraftFind(b.right, b.left, x);
    }
  }

  lemma {:induction false} DeleteFind(t: Tree, p: Path, x: int)
    requires Leads(t, p) && Sorted(t) && At(t, p).Bin?
    ensures Has(Without(t, p), x) <==> Has(t, x) && x != At(t, p).key
    ensures Find(Without(t, p), x) == if x == At(t, p).key then None else Find(t, x)
  {
    if p == [] {
      JoinFind(t, x);
    } else {
      var c := if p[0] then t.left else t.right;
      AtSorted(c, p[1..]);
      assert Has(At(t, p), At(t, p).key);
      DeleteFind(c, p[1..], x);
    }
  }

  /** Deleting the node at p removes its key and nothing else, and keeps the order. */
  lemma {:induction false} DeleteKeeps(t: Tree, p: Path)
    requires Leads(t, p) && Sorted(t) && At(t, p).Bin?
    ensures Sorted(Without(t, p)) && Size(Without(t, p)) == Size(t) - 1
  {
    if p == [] {
      JoinKeeps(t);
    } else {
      var c := if p[0] then t.left else t.right;
      DeleteKeeps(c, p[1..]);
      forall x | Has(Without(c, p[1..]), x)
        ensures Has(c, x)
      {
        DeleteFind(c, p[1..], x);
      }
    }
  }

  // ----- replacing a subtree by part of it

  lemma {:induction false} PutHas(t: Tree, p: Path, s: Tree, x: int)
    requires Leads(t, p) && Sorted(t)
    ensures Has(Put(t, p, s), x) <==> Has(s, x) || (Has(t, x) && !Has(At(t, p), x))
  {
    if p != [] {
      var c := if p[0] then t.left else t.right;
      AtSorted(c, p[1..]);
      PutHas(c, p[1..], s, x);
    }
  }

  lemma {:induction false} PutSorted(t: Tree, p: Path, s: Tree)
    requires Leads(t, p) && Sorted(t) && Sorted(s) && forall x | Has(s, x) :: Has(At(t, p), x)
    ensures Sorted(Put(t, p, s)) && Size(Put(t, p, s)) == Size(t) - Size(At(t, p)) + Size(s)
  {
    if p != [] {
      var c := if p[0] then t.left else t.right;
      PutSorted(c, p[1..], s);
      AtSorted(c, p[1..]);
      forall x | Has(Put(c, p[1..], s), x)
        ensures Has(c, x)
      {
        PutHas(c, p[1..], s, x);
      }
    }
  }
}
