/** The search tree of src/kernel/ds/btree/btree.c: nodes in memory, relinked in place. */
module BinaryTree {

  import opened Kernel
  import opened FiniteSets
  import opened SearchTree

  const NULL: int := 0

  /** btree_node_t at its address. */
  datatype Rec = Rec(key: int, data: int, left: int, right: int, parent: int)

  type Nodes = map<int, Rec>

  function Ptr(t: Tree): int {
    if t.Nil? then NULL else t.addr
  }

  /** The nodes hold the tree t, with every child and parent link in place. */
  ghost predicate Held(nodes: Nodes, t: Tree, parent: int) {
    match t
    case Nil => true
    case Bin(l, a, k, d, r) =>
      && a != NULL && a in nodes && nodes[a] == Rec(k, d, Ptr(l), Ptr(r), parent)
      && Held(nodes, l, a) && Held(nodes, r, a)
  }

  ghost predicate Owns(t: Tree, a: int) {
    match t
    case Nil => false
    case Bin(l, b, _, _, r) => a == b || Owns(l, a) || Owns(r, a)
  }

  /** A node holds its own key, so that in a sorted tree no node hangs twice. */
  lemma {:induction false} OwnsKey(nodes: Nodes, t: Tree, parent: int, a: int)
    requires Held(nodes, t, parent) && Owns(t, a)
    ensures a in nodes && a != NULL && Has(t, nodes[a].key)
  {
    if t.addr != a {
      if Owns(t.left, a) {
        OwnsKey(nodes, t.left, t.addr, a);
      } else {
        OwnsKey(nodes, t.right, t.addr, a);
      }
    }
  }

  lemma {:induction false} HeldFrame(nodes: Nodes, nodes': Nodes, t: Tree, parent: int)
    requires Held(nodes, t, parent)
    requires forall a | Owns(t, a) && a in nodes :: a in nodes' && nodes'[a] == nodes[a]
    ensures Held(nodes', t, parent)
  {
    if t.Bin? {
      assert Owns(t, t.addr);
      HeldFrame(nodes, nodes', t.left, t.addr);
      HeldFrame(nodes, nodes', t.right, t.addr);
    }
  }

  /** A node hangs in one place of a sorted tree only. */
  lemma OneHome(nodes: Nodes, t: Tree, parent: int, a: int)
    requires Held(nodes, t, parent) && Sorted(t) && t.Bin?
    ensures !(Owns(t.left, a) && Owns(t.right, a)) && !Owns(t.left, t.addr) && !Owns(t.right, t.addr)
  {
    if Owns(t.left, a) {
      OwnsKey(nodes, t.left, t.addr, a);
    }
    if Owns(t.right, a) {
      OwnsKey(nodes, t.right, t.addr, a);
    }
    if Owns(t.left, t.addr) {
      OwnsKey(nodes, t.left, t.addr, t.addr);
    }
    if Owns(t.right, t.addr) {
      OwnsKey(nodes, t.right, t.addr, t.addr);
    }
  }

  lemma {:induction false} AtOwned(t: Tree, p: Path, a: int)
    requires Leads(t, p) && Owns(At(t, p), a)
    ensures Owns(t, a)
  {
    if p != [] {
      AtOwned(if p[0] then t.left else t.right, p[1..], a);
    }
  }

  /** The node with another child. */
  function WithChild(r: Rec, left: bool, q: int): Rec {
    if left then r.(left := q) else r.(right := q)
  }

  /** Storing one child link replaces one subtree. */
  lemma {:induction false} ChildSet(nodes: Nodes, nodes': Nodes, t: Tree, parent: int, p: Path, left: bool, s: Tree)
    requires Held(nodes, t, parent) && Sorted(t) && Leads(t, p) && At(t, p).Bin?
    requires Held(nodes', s, At(t, p).addr)
    requires forall a | Owns(t, a) && a in nodes ::
      a in nodes' && nodes'[a] == if a == At(t, p).addr then WithChild(nodes[a], left, Ptr(s)) else nodes[a]
    ensures Leads(t, p + [left]) && Held(nodes', Put(t, p + [left], s), parent)
  {
    PathStep(t, p, left, s);
    var b := At(t, p);
    OneHome(nodes, t, parent, b.addr);
    assert Owns(t, t.addr);
    var toLeft := if p == [] then left else p[0];
    var c, other := if toLeft then t.left else t.right, if toLeft then t.right else t.left;
    if p == [] {
      assert p + [left] == [left];
    } else {
      assert (p + [left])[1..] == p[1..] + [left];
      AtOwned(c, p[1..], b.addr);
      ChildSet(nodes, nodes', c, t.addr, p[1..], left, s);
    }
    forall a | Owns(other, a)
      ensures a in nodes' && a in nodes && nodes'[a] == nodes[a]
    {
      OwnsKey(nodes, other, t.addr, a);
      assert Owns(t, a);
    }
    HeldFrame(nodes, nodes', other, t.addr);
  }

  /** The address of the node above p. */
  ghost function Above(t: Tree, p: Path, parent: int): int
    requires Leads(t, p)
  {
    if p == [] then parent
    else if |p| == 1 then t.addr
    else Above(if p[0] then t.left else t.right, p[1..], t.addr)
  }

  lemma {:induction false} HeldAt(nodes: Nodes, t: Tree, parent: int, p: Path)
    requires Held(nodes, t, parent) && Leads(t, p)
    ensures Held(nodes, At(t, p), Above(t, p, parent))
  {
    if p != [] {
      HeldAt(nodes, if p[0] then t.left else t.right, t.addr, p[1..]);
    }
  }

  /** The node above p hangs at the path without its last step. */
  lemma {:induction false} AboveAt(t: Tree, p: Path, parent: int)
    requires Leads(t, p) && p != []
    ensures Leads(t, p[..|p| - 1]) && At(t, p[..|p| - 1]).Bin? && At(t, p[..|p| - 1]).addr == Above(t, p, parent)
    ensures At(t, p) == if p[|p| - 1] then At(t, p[..|p| - 1]).left else At(t, p[..|p| - 1]).right
  {
    if |p| > 1 {
      AboveAt(if p[0] then t.left else t.right, p[1..], t.addr);
      assert p[1..][..|p| - 2] == p[..|p| - 1][1..];
    }
  }

  /** A subtree moves below another node by its root's parent link alone. */
  lemma Reparent(nodes: Nodes, nodes': Nodes, s: Tree, parent: int, parent': int)
    requires s.Bin? && Sorted(s) && Held(nodes, s, parent)
    requires forall a | Owns(s, a) && a in nodes ::
      a in nodes' && nodes'[a] == if a == s.addr then nodes[a].(parent := parent') else nodes[a]
    ensures Held(nodes', s, parent')
  {
    OneHome(nodes, s, parent, s.addr);
    assert Owns(s, s.addr);
    forall a | Owns(s.left, a) || Owns(s.right, a)
      ensures a in nodes && a in nodes' && nodes'[a] == nodes[a]
    {
      assert Owns(s, a);
      OwnsKey(nodes, s, parent, a);
    }
    HeldFrame(nodes, nodes', s.left, s.addr);
    HeldFrame(nodes, nodes', s.right, s.addr);
  }

  /** The search for key goes on in the subtree at p. */
  ghost predicate Searching(t: Tree, p: Path, key: int) {
    Leads(t, p) && Find(t, key) == Find(At(t, p), key)
  }

  lemma SearchStep(t: Tree, p: Path, key: int)
    requires Searching(t, p, key) && At(t, p).Bin? && key != At(t, p).key
    ensures Searching(t, p + [key < At(t, p).key], key)
    ensures At(t, p + [key < At(t, p).key]) == if key < At(t, p).key then At(t, p).left else At(t, p).right
  {
    PathStep(t, p, key < At(t, p).key, Nil);
  }

  ghost predicate Apart(t: Tree, s: Tree) {
    forall a :: !(Owns(t, a) && Owns(s, a))
  }

  /** Only n and the nodes of t may differ, and no node comes or goes. */
  ghost predicate Touches(nodes: Nodes, nodes': Nodes, t: Tree, n: int) {
    && (forall a :: a in nodes' <==> a in nodes)
    && (forall a | a in nodes && a != n && !Owns(t, a) :: nodes'[a] == nodes[a])
  }

  lemma {:induction false} GraftOwns(t: Tree, s: Tree, a: int)
    requires s.Bin? && Fits(t, s)
    ensures Owns(Graft(t, s), a) <==> Owns(t, a) || Owns(s, a)
  {
    if t.Bin? {
      FitsBelow(t, s);
      GraftOwns(if s.key < t.key then t.left else t.right, s, a);
    }
  }

  /** Only the empty path leads to the root. */
  lemma RootPath(nodes: Nodes, t: Tree, p: Path)
    requires Held(nodes, t, NULL) && Sorted(t) && Leads(t, p) && t.Bin? && At(t, p).Bin? && At(t, p).addr == t.addr
    ensures p == []
  {
    if p != [] {
      AtOwned(if p[0] then t.left else t.right, p[1..], t.addr);
      OneHome(nodes, t, NULL, t.addr);
    }
  }

  lemma {:induction false} PutOwns(nodes: Nodes, t: Tree, parent: int, p: Path, s: Tree, a: int)
    requires Held(nodes, t, parent) && Sorted(t) && Leads(t, p)
    ensures Owns(Put(t, p, s), a) <==> Owns(s, a) || (Owns(t, a) && !Owns(At(t, p), a))
  {
    if p != [] {
      var c := if p[0] then t.left else t.right;
      PutOwns(nodes, c, t.addr, p[1..], s, a);
      OneHome(nodes, t, parent, a);
      if Owns(At(t, p), a) {
        AtOwned(c, p[1..], a);
      }
    }
  }

  /** The subtrees of a node that was cut out are still held. */
  lemma LoosePart(nodes: Nodes, nodes': Nodes, t: Tree, p: Path, c: Tree, node: int)
    requires Held(nodes, t, NULL) && Sorted(t) && Leads(t, p) && At(t, p).Bin? && At(t, p).addr == node
    requires c == At(t, p).left || c == At(t, p).right
    requires forall a :: a in nodes' <==> a in nodes && a != node
    requires forall a | Owns(At(t, p), a) && a in nodes' :: nodes'[a] == nodes[a]
    ensures Held(nodes', c, node) && Sorted(c)
  {
    HeldAt(nodes, t, NULL, p);
    AtSorted(t, p);
    OneHome(nodes, At(t, p), Above(t, p, NULL), node);
    forall a | Owns(c, a)
      ensures a != node && Owns(At(t, p), a)
    {
    }
    HeldFrame(nodes, nodes', c, node);
  }

  /** The subtrees share no node with what stays, nor with each other. */
  lemma LooseApart(nodes: Nodes, t: Tree, p: Path)
    requires Held(nodes, t, NULL) && Sorted(t) && Leads(t, p) && At(t, p).Bin?
    ensures var b := At(t, p);
      && Apart(Put(t, p, Nil), b.left) && Apart(Put(t, p, Nil), b.right) && Apart(Put(t, p, b.right), b.left)
      && (b.right.Bin? ==> !Owns(b.left, b.right.addr))
  {
    var b := At(t, p);
    HeldAt(nodes, t, NULL, p);
    AtSorted(t, p);
    forall a
      ensures !(Owns(b.left, a) && Owns(b.right, a))
    {
      OneHome(nodes, b, Above(t, p, NULL), a);
    }
    ApartFrom(nodes, t, p, Nil, b.left);
    ApartFrom(nodes, t, p, Nil, b.right);
    ApartFrom(nodes, t, p, b.right, b.left);
  }

  /** The right subtree, and then the left one, belong where the node was. */
  lemma LooseFits(t: Tree, p: Path)
    requires Sorted(t) && Leads(t, p) && At(t, p).Bin?
    ensures var b := At(t, p);
      && (b.right.Bin? ==> Has(b, b.right.key) && Sorted(Put(t, p, b.right)))
      && (b.left.Bin? ==> Has(b, b.left.key) && !Has(b.right, b.left.key))
      && Sorted(Without(t, p)) && Size(Without(t, p)) == Size(t) - 1
  {
    var b := At(t, p);
    AtSorted(t, p);
    assert b.left.Bin? ==> Has(b.left, b.left.key);
    assert b.right.Bin? ==> Has(b.right, b.right.key);
    PutSorted(t, p, b.right);
    DeleteKeeps(t, p);
  }

  lemma WithoutOwns(nodes: Nodes, t: Tree, p: Path, a: int)
    requires Held(nodes, t, NULL) && Sorted(t) && Leads(t, p) && At(t, p).Bin?
    ensures Owns(Without(t, p), a) <==> Owns(t, a) && a != At(t, p).addr
  {
    var b := At(t, p);
    HeldAt(nodes, t, NULL, p);
    AtSorted(t, p);
    OneHome(nodes, b, Above(t, p, NULL), a);
    PutOwns(nodes, t, NULL, p, Join(b.left, b.right), a);
    if b.left.Bin? {
      JoinFits(b);
      GraftOwns(b.right, b.left, a);
    }
    if Owns(b, a) {
      AtOwned(t, p, a);
    }
  }

  /** They share no node with what hangs elsewhere. */
  lemma ApartFrom(nodes: Nodes, t: Tree, p: Path, s: Tree, c: Tree)
    requires Held(nodes, t, NULL) && Sorted(t) && Leads(t, p) && Apart(s, c) && forall a | Owns(c, a) :: Owns(At(t, p), a)
    ensures Apart(Put(t, p, s), c)
  {
    forall a | Owns(c, a)
      ensures !Owns(Put(t, p, s), a)
    {
      PutOwns(nodes, t, NULL, p, s, a);
    }
  }

  lemma {:induction false} DataHeld(nodes: Nodes, nodes': Nodes, t: Tree, parent: int, p: Path, data: int)
    requires Held(nodes, t, parent) && Sorted(t) && Leads(t, p) && At(t, p).Bin?
    requires forall a | Owns(t, a) && a in nodes ::
      a in nodes' && nodes'[a] == if a == At(t, p).addr then nodes[a].(data := data) else nodes[a]
    ensures Held(nodes', Put(t, p, At(t, p).(data := data)), parent)
  {
    var b := At(t, p);
    OneHome(nodes, t, parent, b.addr);
    assert Owns(t, t.addr);
    if p == [] {
      HeldFrame(nodes, nodes', t.left, t.addr);
      HeldFrame(nodes, nodes', t.right, t.addr);
    } else {
      var c, other := if p[0] then t.left else t.right, if p[0] then t.right else t.left;
      AtOwned(c, p[1..], b.addr);
      DataHeld(nodes, nodes', c, t.addr, p[1..], data);
      HeldFrame(nodes, nodes', other, t.addr);
    }
  }

  lemma {:induction false} DataFind(t: Tree, p: Path, data: int, x: int)
    requires Sorted(t) && Leads(t, p) && At(t, p).Bin?
    ensures Find(Put(t, p, At(t, p).(data := data)), x) == if x == At(t, p).key then Some(data) else Find(t, x)
    ensures Owns(Put(t, p, At(t, p).(data := data)), x) <==> Owns(t, x)
  {
    if p != [] {
      var c := if p[0] then t.left else t.right;
      assert Has(At(t, p), At(t, p).key);
      AtSorted(c, p[1..]);
      DataFind(c, p[1..], data, x);
    }
  }

  class Btree {
    var nodes: Nodes
    var root: int
    var size: int
    ghost var tree: Tree

    /** The tree is linked and sorted; other nodes may be around. */
    ghost predicate Linked()
      reads this
    {
      Held(nodes, tree, NULL) && Sorted(tree) && root == Ptr(tree)
    }

    ghost predicate Valid()
      reads this
    {
      Linked() && size == Size(tree) && forall a :: a in nodes <==> Owns(tree, a)
    }

    constructor ()
      ensures Valid() && tree == Nil
    {
      nodes, root, size, tree := map[], NULL, 0, Nil;
    }

    /** btree_lookup. */
    method Lookup(key: int) returns (node: int, ghost p: Path)
      requires Linked()
      ensures node == NULL <==> !Has(tree, key)
      ensures node != NULL ==> Leads(tree, p) && At(tree, p).Bin? && At(tree, p).addr == node && At(tree, p).key == key
      ensures node != NULL ==> node in nodes && Find(tree, key) == Some(nodes[node].data)
    {
      node, p := root, [];
      FindHas(tree, key);
      while node != NULL
        invariant Searching(tree, p, key) && node == Ptr(At(tree, p))
        decreases At(tree, p)
      {
        HeldAt(nodes, tree, NULL, p);
        AtSorted(tree, p);
        if nodes[node].key == key {
          return;
        }
        SearchStep(tree, p, key);
        p := p + [key < nodes[node].key];
        if key < nodes[node].key {
          node := nodes[node].left;
        } else {
          node := nodes[node].right;
        }
      }
      HeldAt(nodes, tree, NULL, p);
    }

    /** btree_search. */
    method Search(key: int) returns (err: Errno, data: int)
      requires Valid()
      ensures if err == Ok then Find(tree, key) == Some(data) else err == ENOENT && Find(tree, key) == None
    {
      var node, p := Lookup(key);
      FindHas(tree, key);
      if node == NULL {
        return ENOENT, 0;
      }
      return Ok, nodes[node].data;
    }

    /** Hangs the subtree s, whose root is n, below the node at p, where no child is. */
    method Hang(n: int, parent: int, left: bool, ghost s: Tree, ghost p: Path)
      requires Linked() && Leads(tree, p) && At(tree, p).Bin? && At(tree, p).addr == parent
      requires (if left then At(tree, p).left else At(tree, p).right) == Nil
      requires s.Bin? && s.addr == n && Sorted(s) && Held(nodes, s, NULL) && Apart(tree, s)
      modifies `nodes, `tree
      ensures Leads(old(tree), p + [left]) && tree == Put(old(tree), p + [left], s) && Held(nodes, tree, NULL)
      ensures Touches(old(nodes), nodes, old(tree), n)
    {
      ghost var t := tree;
      HeldAt(nodes, t, NULL, p);
      AtOwned(t, p, parent);
      nodes := nodes[n := nodes[n].(parent := parent)];
      nodes := nodes[parent := WithChild(nodes[parent], left, n)];
      Reparent(old(nodes), nodes, s, NULL, parent);
      ChildSet(old(nodes), nodes, t, NULL, p, left, s);
      tree := Put(t, p + [left], s);
    }

    /** btree_insert_node: hangs the subtree s, whose root is n, where a search for its key ends. */
    method InsertNode(n: int, ghost s: Tree) returns (err: Errno)
      requires Linked() && s.Bin? && s.addr == n && n in nodes && Sorted(s) && Apart(tree, s)
      requires Held(nodes, s, nodes[n].parent)
      modifies this
      ensures err == if Has(old(tree), s.key) then EEXIST else Ok
      ensures tree == (if err == Ok then Graft(old(tree), s) else old(tree)) && size == old(size) + if err == Ok then 1 else 0
      ensures Held(nodes, tree, NULL) && root == Ptr(tree) && Touches(old(nodes), nodes, old(tree), n)
    {
      ghost var t := tree;
      nodes := nodes[n := nodes[n].(parent := NULL)];
      Reparent(old(nodes), nodes, s, old(nodes)[n].parent, NULL);
      assert Owns(s, n);
      HeldFrame(old(nodes), nodes, t, NULL);
      FindHas(t, s.key);
      if root == NULL {
        root, tree, size := n, s, size + 1;
        return Ok;
      }
      var key, parent := nodes[n].key, root;
      ghost var p: Path := [];
      while true
        invariant Linked() && tree == t && size == old(size) && root == old(root)
        invariant nodes == old(nodes)[n := old(nodes)[n].(parent := NULL)] && Held(nodes, s, NULL)
        invariant Searching(t, p, key) && At(t, p).Bin? && parent == At(t, p).addr
        invariant Graft(t, s) == Put(t, p, Graft(At(t, p), s))
        decreases At(t, p)
      {
        HeldAt(nodes, t, NULL, p);
        var iter;
        if key < nodes[parent].key {
          iter := nodes[parent].left;
        } else if key > nodes[parent].key {
          iter := nodes[parent].right;
        } else {
          return EEXIST;
        }
        SearchStep(t, p, key);
        var left := key < nodes[parent].key;
        PathStep(t, p, left, Graft(if left then At(t, p).left else At(t, p).right, s));
        HeldAt(nodes, t, NULL, p + [left]);
        if iter == NULL {
          Hang(n, parent, left, s, p);
          size := size + 1;
          return Ok;
        }
        p, parent := p + [left], iter;
      }
    }

    /** btree_insert. */
    method Insert(key: int, data: int, canAlloc: bool) returns (err: Errno)
      requires Valid()
      modifies this
      ensures Valid() && err == if !canAlloc then ENOMEM else if Has(old(tree), key) then EEXIST else Ok
      ensures err != Ok ==> tree == old(tree)
      ensures err == Ok ==> forall x :: Find(tree, x) == if x == key then Some(data) else Find(old(tree), x)
    {
      if !canAlloc {
        return ENOMEM;
      }
      ghost var above := AboveAll(nodes.Keys + {NULL});
      assert above != NULL && above !in nodes;
      var n :| n != NULL && n !in nodes;
      ghost var s := Bin(Nil, n, key, data, Nil);
      nodes := nodes[n := Rec(key, data, NULL, NULL, NULL)];
      HeldFrame(old(nodes), nodes, tree, NULL);
      err := InsertNode(n, s);
      if err != Ok {
        HeldFrame(nodes, nodes - {n}, tree, NULL);
        nodes := nodes - {n};
        return;
      }
      GraftSorted(old(tree), s);
      GraftSize(old(tree), s);
      forall x
        ensures Find(tree, x) == if x == key then Some(data) else Find(old(tree), x)
      {
        GraftFind(old(tree), s, x);
      }
      forall a
        ensures Owns(tree, a) <==> Owns(old(tree), a) || a == n
      {
        GraftOwns(old(tree), s, a);
      }
    }

    /** Clears the link to the node at p, which is not the root, and frees the node. */
    method CutLink(node: int, ghost p: Path)
      requires Linked() && Leads(tree, p) && p != [] && At(tree, p).Bin? && At(tree, p).addr == node
      modifies `nodes
      ensures Held(nodes, Put(tree, p, Nil), NULL) && forall a :: a in nodes <==> a in old(nodes) && a != node
      ensures forall a | Owns(At(tree, p), a) && a in nodes :: nodes[a] == old(nodes)[a]
    {
      ghost var q, last := p[..|p| - 1], p[|p| - 1];
      AboveAt(tree, p, NULL);
      ghost var b := At(tree, q);
      HeldAt(nodes, tree, NULL, p);
      HeldAt(nodes, tree, NULL, q);
      AtSorted(tree, q);
      OneHome(nodes, b, Above(tree, q, NULL), node);
      var parent := nodes[node].parent;
      assert q + [last] == p;
      var isRight := nodes[parent].right == node;
      assert isRight == !last && (!isRight ==> nodes[parent].left == node);
      nodes := nodes[parent := WithChild(nodes[parent], !isRight, NULL)];
      ChildSet(old(nodes), nodes, tree, NULL, q, last, Nil);
      assert !Owns(At(tree, p), parent);
      forall a | Owns(Put(tree, p, Nil), a)
        ensures a != node
      {
        PutOwns(old(nodes), tree, NULL, p, Nil, a);
      }
      HeldFrame(nodes, nodes - {node}, Put(tree, p, Nil), NULL);
      nodes := nodes - {node};
    }

    /** The first half of btree_delete_node: the node at p is cut out of the tree and freed, its subtrees hang loose. */
    method Cut(node: int, ghost p: Path)
      requires Linked() && Leads(tree, p) && At(tree, p).Bin? && At(tree, p).addr == node
      modifies this
      ensures tree == Put(old(tree), p, Nil) && Linked() && size == old(size) - 1
      ensures forall a :: a in nodes <==> a in old(nodes) && a != node
      ensures forall a | Owns(At(old(tree), p), a) && a in nodes :: nodes[a] == old(nodes)[a]
    {
      PutSorted(tree, p, Nil);
      HeldAt(nodes, tree, NULL, p);
      if node == root {
        RootPath(nodes, tree, p);
        root, nodes := NULL, nodes - {node};
      } else {
        CutLink(node, p);
      }
      tree := Put(tree, p, Nil);
      size := size - 1;
    }

    /** Puts the loose subtree c, whose root is n, back from the top; it ends up at p, below x. */
    method Rehang(n: int, ghost t: Tree, ghost p: Path, ghost x: Tree, ghost c: Tree, ghost parent: int)
      requires Linked() && Sorted(t) && Leads(t, p) && tree == Put(t, p, x) && Apart(tree, c)
      requires n == Ptr(c) && Sorted(c) && Held(nodes, c, parent)
      requires c.Bin? ==> Has(At(t, p), c.key) && !Has(x, c.key) && Sorted(Put(t, p, Graft(x, c)))
      modifies this
      ensures Linked() && size == old(size) && Touches(old(nodes), nodes, old(tree), n)
      ensures n == NULL ==> nodes == old(nodes)
      ensures tree == if c == Nil then Put(t, p, x) else Put(t, p, Graft(x, c))
    {
      if n != NULL {
        PutHas(t, p, x, c.key);
        GraftReturns(t, p, x, c);
        size := size - 1;
        var err := InsertNode(n, c);
      }
    }

    /** btree_delete_node, for the node at p. */
    method DeleteNode(node: int, ghost p: Path)
      requires Valid() && Leads(tree, p) && At(tree, p).Bin? && At(tree, p).addr == node
      modifies this
      ensures Valid() && tree == Without(old(tree), p)
    {
      ghost var t, b := tree, At(tree, p);
      HeldAt(nodes, t, NULL, p);
      var left, right := nodes[node].left, nodes[node].right;
      Cut(node, p);
      LoosePart(old(nodes), nodes, t, p, b.left, node);
      LoosePart(old(nodes), nodes, t, p, b.right, node);
      LooseApart(old(nodes), t, p);
      LooseFits(t, p);
      ghost var nodes1 := nodes;
      Rehang(right, t, p, Nil, b.right, node);
      HeldFrame(nodes1, nodes, b.left, node);
      Rehang(left, t, p, b.right, b.left, node);
      forall a
        ensures Owns(tree, a) <==> Owns(t, a) && a != node
      {
        WithoutOwns(old(nodes), t, p, a);
      }
    }

    /** Stores other data in the node at p, as hashMap_remove_internal_entry does. */
    method SetData(node: int, data: int, ghost p: Path)
      requires Valid() && Leads(tree, p) && At(tree, p).Bin? && At(tree, p).addr == node
      modifies this
      ensures Valid() && tree == Put(old(tree), p, At(old(tree), p).(data := data)) && size == old(size)
      ensures forall x :: Find(tree, x) == if x == At(old(tree), p).key then Some(data) else Find(old(tree), x)
    {
      ghost var t, b := tree, At(tree, p);
      HeldAt(nodes, t, NULL, p);
      AtSorted(t, p);
      assert b.(data := data).key == b.key && forall x :: Has(b.(data := data), x) <==> Has(b, x);
      PutSorted(t, p, b.(data := data));
      nodes := nodes[node := nodes[node].(data := data)];
      tree := Put(t, p, b.(data := data));
      DataHeld(old(nodes), nodes, t, NULL, p, data);
      forall x
        ensures Find(tree, x) == if x == b.key then Some(data) else Find(t, x)
        ensures Owns(tree, x) <==> Owns(t, x)
      {
        DataFind(t, p, data, x);
      }
    }

    /** btree_delete: exactly one key goes, and every other key keeps its data. */
    method Delete(key: int)
      requires Valid()
      modifies this
      ensures Valid() && size == old(size) - if Has(old(tree), key) then 1 else 0
      ensures forall x :: Find(tree, x) == if x == key then None else Find(old(tree), x)
    {
      var node, p := Lookup(key);
      if node == NULL {
        FindHas(tree, key);
        return;
      }
      DeleteKeeps(tree, p);
      forall x
        ensures Find(Without(tree, p), x) == if x == key then None else Find(tree, x)
      {
        DeleteFind(tree, p, x);
      }
      DeleteNode(node, p);
    }

    /** btree_flush_node: exactly the subtree at p goes, although every deletion relinks nodes. */
    method FlushNode(node: int, ghost p: Path, ghost s: Tree)
      requires Valid() && Leads(tree, p) && At(tree, p) == s && node == Ptr(s)
      modifies this
      ensures Valid() && tree == Put(old(tree), p, Nil)
      decreases s
    {
      ghost var t := tree;
      HeldAt(nodes, t, NULL, p);
      if node != NULL {
        PathStep(t, p, true, Nil);
        FlushNode(nodes[node].left, p + [true], s.left);
        PutPut(t, p, s.(left := Nil), s.right);
        HeldAt(nodes, tree, NULL, p);
        var right := nodes[node].right;
        DeleteNode(node, p);
        PutPut(t, p, s.right, Nil);
        FlushNode(right, p, s.right);
      } else {
        PutSame(t, p);
      }
    }

    /** btree_flush. */
    method Flush()
      requires Valid()
      modifies this
      ensures Valid() && tree == Nil && root == NULL && size == 0 && forall a :: a !in nodes
    {
      FlushNode(root, [], tree);
    }
  }
}
