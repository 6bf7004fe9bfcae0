/** Collision chains as values: a bucket is a sequence of items, and the items of one key form a queue. */
module HashChains {

  datatype Item = Item(key: int, value: int)

  /** The values of key k, oldest first. */
  ghost function Queue(s: seq<Item>, k: int): seq<int> {
    if s == [] then [] else if s[0].key == k then [s[0].value] + Queue(s[1..], k) else Queue(s[1..], k)
  }

  function DropAt<T>(s: seq<T>, i: int): seq<T>
    requires 0 <= i < |s|
  {
    s[..i] + s[i + 1..]
  }

  /** No item of key k before i. */
  predicate NoneBefore(s: seq<Item>, k: int, i: int)
    requires 0 <= i <= |s|
  {
    forall j | 0 <= j < i :: s[j].key != k
  }

  lemma {:induction false} QueueJoin(s: seq<Item>, s': seq<Item>, k: int)
    ensures Queue(s + s', k) == Queue(s, k) + Queue(s', k)
  {
    if s == [] {
      assert s + s' == s';
    } else {
      assert (s + s')[1..] == s[1..] + s';
      QueueJoin(s[1..], s', k);
      assert [s[0].value] + (Queue(s[1..], k) + Queue(s', k)) == ([s[0].value] + Queue(s[1..], k)) + Queue(s', k);
    }
  }

  lemma {:induction false} QueueEmpty(s: seq<Item>, k: int)
    requires NoneBefore(s, k, |s|)
    ensures Queue(s, k) == []
  {
    if s != [] {
      QueueEmpty(s[1..], k);
    }
  }

  /** The queue starts with the first item of the key. */
  lemma QueueFirst(s: seq<Item>, k: int, i: int)
    requires 0 <= i < |s| && NoneBefore(s, k, i) && s[i].key == k
    ensures Queue(s, k) == [s[i].value] + Queue(s[i + 1..], k)
  {
    assert s == s[..i] + s[i..];
    QueueJoin(s[..i], s[i..], k);
    QueueEmpty(s[..i], k);
    assert s[i..][1..] == s[i + 1..];
  }

  lemma QueueAppend(s: seq<Item>, x: Item, k: int)
    ensures Queue(s + [x], k) == if x.key == k then Queue(s, k) + [x.value] else Queue(s, k)
  {
    QueueJoin(s, [x], k);
    assert Queue([x], k) == if x.key == k then [x.value] else [];
  }

  /** Dropping an item takes it out of its own queue: from the front when it is the first of its key. */
  lemma QueueDrop(s: seq<Item>, i: int, k: int)
    requires 0 <= i < |s|
    ensures s[i].key != k ==> Queue(DropAt(s, i), k) == Queue(s, k)
    ensures s[i].key == k && NoneBefore(s, k, i) ==> Queue(s, k) == [s[i].value] + Queue(DropAt(s, i), k)
  {
    assert s == s[..i] + ([s[i]] + s[i + 1..]);
    QueueJoin(s[..i], s[i + 1..], k);
    QueueJoin(s[..i], [s[i]] + s[i + 1..], k);
    QueueJoin([s[i]], s[i + 1..], k);
    assert Queue([s[i]], k) == if s[i].key == k then [s[i].value] else [];
    if NoneBefore(s, k, i) {
      QueueEmpty(s[..i], k);
    }
  }

  lemma QueueUpdate(s: seq<Item>, i: int, v: int, k: int)
    requires 0 <= i < |s| && NoneBefore(s, s[i].key, i)
    ensures s[i].key == k ==> Queue(s, k) != []
    ensures Queue(s[i := Item(s[i].key, v)], k) == if s[i].key == k then [v] + Queue(s, k)[1..] else Queue(s, k)
  {
    var s' := s[i := Item(s[i].key, v)];
    assert DropAt(s', i) == DropAt(s, i);
    QueueDrop(s, i, k);
    QueueDrop(s', i, k);
  }
}
