/** memmove of src/kernel/lib/string.c, in place on a memory of bytes; a pointer is an index, aligned when a multiple of
    the word size. */
module MemMove {

  import opened Seals
  import opened WordBits

  ghost predicate Inside(m: seq<Byte>, d: int, s: int, n: int) {
    0 <= d <= d + n <= |m| && 0 <= s <= s + n <= |m|
  }

  ghost function Block(m: seq<Byte>, d: int, s: int, n: int): seq<Byte>
    requires Inside(m, d, s, n)
  {
    seq(|m|, i requires 0 <= i < |m| => if d <= i < d + n then m[s + (i - d)] else m[i])
  }

  /** The n bytes at s, copied to d through a snapshot. */
  ghost function Snapshot(m: seq<Byte>, d: int, s: int, n: int, seal: Seal := SEALED): seq<Byte>
    requires Inside(m, d, s, n)
  {
    match seal
    case Open => Block(m, d, s, n)
    case Shut(inner) => Snapshot(m, d, s, n, inner)
  }

  lemma SnapshotIs(m: seq<Byte>, d: int, s: int, n: int)
    requires Inside(m, d, s, n)
    ensures Snapshot(m, d, s, n) == Block(m, d, s, n)
  {
    assert Snapshot(m, d, s, n, Shut(Shut(Open))) == Snapshot(m, d, s, n, Shut(Open)) == Snapshot(m, d, s, n, Open);
  }

  /** In terms of slices. */
  lemma SnapshotSlices(m: seq<Byte>, d: int, s: int, n: int)
    requires Inside(m, d, s, n)
    ensures Snapshot(m, d, s, n) == m[..d] + m[s..s + n] + m[d + n..]
  {
    SnapshotIs(m, d, s, n);
  }

  /** Nothing copied, or copied in place. */
  lemma SnapshotNone(m: seq<Byte>, d: int, s: int, n: int)
    requires Inside(m, d, s, n) && (n == 0 || d == s)
    ensures Snapshot(m, d, s, n) == m
  {
    SnapshotIs(m, d, s, n);
  }

  /** Upwards: the next w bytes after the first k. */
  lemma NextUp(m: seq<Byte>, d: int, s: int, k: int, w: int)
    requires Inside(m, d, s, k + w) && 0 <= k && 0 <= w && (d <= s || s + k + w <= d)
    ensures Inside(Snapshot(m, d, s, k), d + k, s + k, w)
    ensures Snapshot(Snapshot(m, d, s, k), d + k, s + k, w) == Snapshot(m, d, s, k + w)
  {
    SnapshotIs(m, d, s, k);
    SnapshotIs(m, d, s, k + w);
    SnapshotIs(Snapshot(m, d, s, k), d + k, s + k, w);
  }

  /** Downwards: the w bytes before those from k on. */
  lemma NextDown(m: seq<Byte>, d: int, s: int, n: int, k: int, w: int)
    requires Inside(m, d, s, n) && 0 <= w <= k <= n && s <= d
    ensures Inside(Snapshot(m, d + k, s + k, n - k), d + (k - w), s + (k - w), w)
    ensures Snapshot(Snapshot(m, d + k, s + k, n - k), d + (k - w), s + (k - w), w)
         == Snapshot(m, d + (k - w), s + (k - w), n - (k - w))
  {
    SnapshotIs(m, d + k, s + k, n - k);
    SnapshotIs(m, d + (k - w), s + (k - w), n - (k - w));
    SnapshotIs(Snapshot(m, d + k, s + k, n - k), d + (k - w), s + (k - w), w);
  }

  /** One byte, or one word that is loaded before it is stored. */
  method Transfer(mem: array<Byte>, d: int, s: int, w: int, ghost m: seq<Byte>)
    requires mem[..] == m && Inside(m, d, s, w) && (w == 1 || w == ALIGN)
    modifies mem
    ensures mem[..] == Snapshot(m, d, s, w)
  {
    SnapshotIs(m, d, s, w);
    forall i | d <= i < d + w {
      mem[i] := mem[s + (i - d)];
    }
  }

  /** memcpy. */
  method Memcpy(mem: array<Byte>, d: int, s: int, n: int)
    requires Inside(mem[..], d, s, n) && (s + n <= d || d + n <= s)
    modifies mem
    ensures mem[..] == Snapshot(old(mem[..]), d, s, n)
  {
    ghost var m := mem[..];
    SnapshotNone(m, d, s, 0);
    for i := 0 to n
      invariant mem[..] == Snapshot(m, d, s, i)
    {
      NextUp(m, d, s, i, 1);
      Transfer(mem, d + i, s + i, 1, Snapshot(m, d, s, i));
    }
  }

  method StepUp(mem: array<Byte>, d: int, s: int, k: int, w: int, ghost m: seq<Byte>)
    requires Inside(m, d, s, k + w) && 0 <= k && Inside(m, d, s, k) && (w == 1 || w == ALIGN) && d < s
    requires mem[..] == Snapshot(m, d, s, k)
    modifies mem
    ensures mem[..] == Snapshot(m, d, s, k + w)
  {
    NextUp(m, d, s, k, w);
    Transfer(mem, d + k, s + k, w, Snapshot(m, d, s, k));
  }

  /** The byte loop that brings the destination to a word boundary. */
  method AlignUp(mem: array<Byte>, d: int, s: int, n: int) returns (k: int)
    requires Inside(mem[..], d, s, n) && d < s
    modifies mem
    ensures 0 <= k <= n && ((d + k) % ALIGN == 0 || k == n) && mem[..] == Snapshot(old(mem[..]), d, s, k)
  {
    ghost var m := mem[..];
    SnapshotNone(m, d, s, 0);
    k := 0;
    while (d + k) % ALIGN != 0
      invariant 0 <= k <= n && mem[..] == Snapshot(m, d, s, k)
      decreases n - k
    {
      if k == n {
        return;
      }
      StepUp(mem, d, s, k, 1, m);
      k := k + 1;
    }
  }

  /** A loop of whole steps of w bytes, from k on. */
  method FillUp(mem: array<Byte>, d: int, s: int, n: int, k0: int, w: int, ghost m: seq<Byte>) returns (k: int)
    requires Inside(m, d, s, n) && d < s && 0 <= k0 <= n && (w == 1 || w == ALIGN) && mem[..] == Snapshot(m, d, s, k0)
    modifies mem
    ensures k0 <= k <= n && n - k < w && mem[..] == Snapshot(m, d, s, k)
  {
    k := k0;
    while n - k >= w
      invariant k0 <= k <= n && mem[..] == Snapshot(m, d, s, k)
    {
      StepUp(mem, d, s, k, w, m);
      k := k + w;
    }
  }

  /** The branch for a destination below the source: upwards, by words when both are aligned alike. */
  method MoveDown(mem: array<Byte>, d: int, s: int, n: int)
    requires Inside(mem[..], d, s, n) && d < s
    modifies mem
    ensures mem[..] == Snapshot(old(mem[..]), d, s, n)
  {
    ghost var m := mem[..];
    SnapshotNone(m, d, s, 0);
    var k := 0;
    if s % ALIGN == d % ALIGN {
      k := AlignUp(mem, d, s, n);
      k := FillUp(mem, d, s, n, k, ALIGN, m);
    }
    k := FillUp(mem, d, s, n, k, 1, m);
  }

  method StepDown(mem: array<Byte>, d: int, s: int, n: int, k: int, w: int, ghost m: seq<Byte>)
    requires Inside(m, d, s, n) && w <= k <= n && (w == 1 || w == ALIGN) && s < d && mem[..] == Snapshot(m, d + k, s + k, n - k)
    modifies mem
    ensures mem[..] == Snapshot(m, d + (k - w), s + (k - w), n - (k - w))
  {
    NextDown(m, d, s, n, k, w);
    Transfer(mem, d + (k - w), s + (k - w), w, Snapshot(m, d + k, s + k, n - k));
  }

  method AlignDown(mem: array<Byte>, d: int, s: int, n: int) returns (k: int)
    requires Inside(mem[..], d, s, n) && s < d
    modifies mem
    ensures 0 <= k <= n && ((d + k) % ALIGN == 0 || k == 0)
    ensures mem[..] == Snapshot(old(mem[..]), d + k, s + k, n - k)
  {
    ghost var m := mem[..];
    SnapshotNone(m, d + n, s + n, 0);
    k := n;
    while (d + k) % ALIGN != 0
      invariant 0 <= k <= n && mem[..] == Snapshot(m, d + k, s + k, n - k)
      decreases k
    {
      if k == 0 {
        return;
      }
      StepDown(mem, d, s, n, k, 1, m);
      k := k - 1;
    }
  }

  method FillDown(mem: array<Byte>, d: int, s: int, n: int, k0: int, w: int, ghost m: seq<Byte>) returns (k: int)
    requires Inside(m, d, s, n) && s < d && 0 <= k0 <= n && (w == 1 || w == ALIGN)
    requires mem[..] == Snapshot(m, d + k0, s + k0, n - k0)
    modifies mem
    ensures 0 <= k <= k0 && k < w && mem[..] == Snapshot(m, d + k, s + k, n - k)
  {
    k := k0;
    while k >= w
      invariant 0 <= k <= k0 && mem[..] == Snapshot(m, d + k, s + k, n - k)
    {
      StepDown(mem, d, s, n, k, w, m);
      k := k - w;
    }
  }

  /** The branch for a destination above the source: downwards. */
  method MoveUp(mem: array<Byte>, d: int, s: int, n: int)
    requires Inside(mem[..], d, s, n) && s < d
    modifies mem
    ensures mem[..] == Snapshot(old(mem[..]), d, s, n)
  {
    ghost var m := mem[..];
    SnapshotNone(m, d + n, s + n, 0);
    var k := n;
    if s % ALIGN == d % ALIGN {
      k := AlignDown(mem, d, s, n);
      k := FillDown(mem, d, s, n, k, ALIGN, m);
    }
    k := FillDown(mem, d, s, n, k, 1, m);
  }

  /** memmove: for every overlap, what copying through a snapshot gives. */
  method Memmove(mem: array<Byte>, d: int, s: int, n: int)
    requires Inside(mem[..], d, s, n)
    modifies mem
    ensures mem[..] == Snapshot(old(mem[..]), d, s, n)
  {
    if d == s {
      SnapshotNone(mem[..], d, s, n);
      return;
    }
    if s + n <= d || d + n <= s {
      Memcpy(mem, d, s, n);
    } else if d < s {
      MoveDown(mem, d, s, n);
    } else {
      MoveUp(mem, d, s, n);
    }
  }
}
