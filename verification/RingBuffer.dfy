/** The byte ring of src/kernel/ds/ringbuf.c: an array with free-running 64-bit indices. */
module RingBuffer {

  import opened Arithmetic
  import opened Kernel
  import opened Seals
  import opened WordBits

  /** The remainder, a few recursive steps away, so that proofs reason about it by name. */
  ghost function Mod(x: int, s: int, seal: Seal := SEALED): int
    requires s > 0
  {
    match seal
    case Open => x % s
    case Shut(inner) => Mod(x, s, inner)
  }

  lemma ModIs(x: int, s: int)
    requires s > 0
    ensures Mod(x, s) == x % s && 0 <= Mod(x, s) < s
  {
    assert Mod(x, s, Shut(Shut(Open))) == Mod(x, s, Shut(Open)) == Mod(x, s, Open);
  }

  // ----- slots and indices

  /** The slot of the i-th byte from head on, where indices wrap to 64 bits. */
  ghost function Slot(s: int, head: int, i: int): int
    requires s > 0
  {
    Mod(Mod(head + i, WRAP), s)
  }

  /** The next byte goes to a slot that is in use: the write index has wrapped, the read index has not, and the slots
      do not line up across the wrap. */
  ghost predicate Clash(s: int, head: int, count: int)
    requires s > 0
  {
    WRAP <= head + count < WRAP + Mod(WRAP, s) && Mod(WRAP, s) <= count
  }

  /** Indices less than s apart name different slots. */
  lemma Apart(s: int, x: int, y: int)
    requires s > 0 && (x < y < x + s || y < x < y + s)
    ensures Mod(x, s) != Mod(y, s)
  {
    ModIs(x, s);
    ModIs(y, s);
    if x < y {
      Different(x, y, s);
    } else {
      Different(y, x, s);
    }
  }

  /** Going over the wrap moves the slots by the remainder of 2^64. */
  lemma AcrossWrap(s: int, y: int)
    requires s > 0
    ensures Mod(WRAP + y, s) == Mod(Mod(WRAP, s) + y, s)
  {
    var q, r := WRAP / s, WRAP % s;
    ModIs(WRAP, s);
    ModIs(WRAP + y, s);
    ModIs(r + y, s);
    assert WRAP == s * q + r;
    AddMultiple(s, q, r + y);
  }

  lemma WrapOnce(x: int)
    requires 0 <= x < 2 * WRAP
    ensures Mod(x, WRAP) == if x < WRAP then x else x - WRAP
  {
    ModIs(x, WRAP);
  }

  /** Between indices that have both wrapped, or both not, slots differ. */
  lemma SlotsApart(s: int, head: int, count: int, i: int)
    requires 0 <= head < WRAP && 0 <= i < count < s < WRAP && (head + count < WRAP || WRAP <= head + i)
    ensures Slot(s, head, i) != Slot(s, head, count) && !(Clash(s, head, count) && i == count - Mod(WRAP, s))
  {
    WrapOnce(head + i);
    WrapOnce(head + count);
    Apart(s, Mod(head + i, WRAP), Mod(head + count, WRAP));
  }

  /** Only in a clash is the slot of the next byte in use, and then by exactly one byte. */
  lemma SameSlot(s: int, head: int, count: int, i: int)
    requires 0 <= head < WRAP && 0 <= i < count < s < WRAP
    ensures Slot(s, head, i) == Slot(s, head, count) <==> Clash(s, head, count) && i == count - Mod(WRAP, s)
  {
    if head + count < WRAP || WRAP <= head + i {
      SlotsApart(s, head, count, i);
    } else {
      var r, y := Mod(WRAP, s), head + i - WRAP;
      ModIs(WRAP, s);
      WrapOnce(head + i);
      WrapOnce(head + count);
      AcrossWrap(s, y);
      assert Slot(s, head, i) == Mod(r + y, s) && Slot(s, head, count) == Mod(head + count - WRAP, s);
      if r + i != count {
        Apart(s, r + y, head + count - WRAP);
      }
    }
  }

  /** No ring of this size ever loses a byte exactly when the size divides 2^64. */
  lemma NeverClashes(s: int)
    requires 0 < s < WRAP
    ensures (forall head, count | 0 <= head < WRAP && 0 <= count < s :: !Clash(s, head, count)) <==> Mod(WRAP, s) == 0
  {
    ModIs(WRAP, s);
    var r := Mod(WRAP, s);
    if r != 0 {
      assert Clash(s, WRAP - r, r);
    }
  }

  // ----- the bytes in the ring

  ghost predicate Fits(buf: seq<Byte>, head: int, count: int) {
    0 < |buf| < WRAP && 0 <= head < WRAP && 0 <= count <= |buf|
  }

  /** The bytes that reading delivers, in order. */
  ghost predicate Holds(buf: seq<Byte>, head: int, count: int, bytes: seq<Byte>)
    requires Fits(buf, head, count)
  {
    |bytes| == count && forall i | 0 <= i < count :: ByteIn(buf, Slot(|buf|, head, i)) == bytes[i]
  }

  ghost function ByteIn(buf: seq<Byte>, slot: int): Byte {
    if 0 <= slot < |buf| then buf[slot] else 0
  }

  /** A byte stored in a slot. */
  ghost function Stored(buf: seq<Byte>, slot: int, b: Byte): seq<Byte> {
    if 0 <= slot < |buf| then buf[slot := b] else buf
  }

  /** What a ring of size s delivers after b is written: in a clash b also replaces an older byte. */
  ghost function Pushed(s: int, head: int, bytes: seq<Byte>, b: Byte): seq<Byte>
    requires 0 < s
  {
    var i := |bytes| - Mod(WRAP, s);
    (if Clash(s, head, |bytes|) && 0 <= i < |bytes| then bytes[i := b] else bytes) + [b]
  }

  /** First in, first out, exactly unless a clash replaces another byte. */
  lemma PushedInOrder(s: int, head: int, bytes: seq<Byte>, b: Byte)
    requires 0 < s < WRAP && 0 <= head < WRAP && |bytes| < s
    ensures Clash(s, head, |bytes|) ==> 0 <= |bytes| - Mod(WRAP, s) < |bytes|
    ensures Pushed(s, head, bytes, b) == bytes + [b] <==>
      !Clash(s, head, |bytes|) || bytes[|bytes| - Mod(WRAP, s)] == b
  {
    ModIs(WRAP, s);
    if Clash(s, head, |bytes|) {
      var i := |bytes| - Mod(WRAP, s);
      assert Pushed(s, head, bytes, b)[i] == b && (bytes + [b])[i] == bytes[i];
    }
  }

  /** The same for a run of bytes. */
  ghost function Written(s: int, head: int, bytes: seq<Byte>, data: seq<Byte>): seq<Byte>
    requires 0 < s
  {
    if data == [] then bytes
    else Pushed(s, head, Written(s, head, bytes, data[..|data| - 1]), data[|data| - 1])
  }

  /** The bytes written after count others meet no clash. */
  ghost predicate Clean(s: int, head: int, count: int, n: int)
    requires 0 < s
  {
    forall j | count <= j < count + n :: !Clash(s, head, j)
  }

  lemma {:induction false} WrittenClean(s: int, head: int, bytes: seq<Byte>, data: seq<Byte>)
    requires 0 < s && Clean(s, head, |bytes|, |data|)
    ensures Written(s, head, bytes, data) == bytes + data
    decreases |data|
  {
    if data != [] {
      var init := data[..|data| - 1];
      WrittenClean(s, head, bytes, init);
      assert |bytes + init| == |bytes| + |init|;
      assert bytes + init + [data[|data| - 1]] == bytes + data;
    }
  }

  lemma WrittenMore(s: int, head: int, bytes: seq<Byte>, data: seq<Byte>, b: Byte)
    requires 0 < s
    ensures Written(s, head, bytes, data + [b]) == Pushed(s, head, Written(s, head, bytes, data), b)
  {
    assert (data + [b])[..|data|] == data;
  }

  lemma PopBytes(buf: seq<Byte>, head: int, count: int, bytes: seq<Byte>)
    requires Fits(buf, head, count) && count > 0 && Holds(buf, head, count, bytes)
    ensures bytes[0] == ByteIn(buf, Mod(head, |buf|)) && Holds(buf, (head + 1) % WRAP, count - 1, bytes[1..])
  {
    ModIs(head, WRAP);
    assert ByteIn(buf, Slot(|buf|, head, 0)) == bytes[0];
    forall i | 0 <= i < count - 1
      ensures ByteIn(buf, Slot(|buf|, (head + 1) % WRAP, i)) == bytes[1..][i]
    {
      NextIndex(head, 1, i);
      assert ByteIn(buf, Slot(|buf|, head, 1 + i)) == bytes[1 + i];
    }
  }

  /** Indices may be wrapped at any time. */
  lemma NextIndex(head: int, n: int, i: int)
    ensures Mod((head + n) % WRAP + i, WRAP) == Mod(head + (n + i), WRAP)
  {
    ModIs((head + n) % WRAP + i, WRAP);
    ModIs(head + (n + i), WRAP);
  }

  lemma PushBytes(buf: seq<Byte>, head: int, count: int, bytes: seq<Byte>, b: Byte)
    requires Fits(buf, head, count) && count < |buf| && Holds(buf, head, count, bytes)
    ensures Fits(Stored(buf, Slot(|buf|, head, count), b), head, count + 1)
    ensures Holds(Stored(buf, Slot(|buf|, head, count), b), head, count + 1, Pushed(|buf|, head, bytes, b))
  {
    var s := |buf|;
    var bytes' := Pushed(s, head, bytes, b);
    PushedInOrder(s, head, bytes, b);
    ModIs(Mod(head + count, WRAP), s);
    forall i | 0 <= i < count + 1
      ensures ByteIn(Stored(buf, Slot(s, head, count), b), Slot(s, head, i)) == bytes'[i]
    {
      if i < count {
        SameSlot(s, head, count, i);
        ModIs(Mod(head + i, WRAP), s);
        assert ByteIn(buf, Slot(s, head, i)) == bytes[i];
      }
    }
  }

  class Ring {
    const buf: array<Byte>
    var head: int
    var tail: int
    var count: int
    ghost var contents: seq<Byte>

    /** contents is what reading will deliver. */
    ghost predicate Valid()
      reads this, buf
    {
      Fits(buf[..], head, count) && tail == Mod(head + count, WRAP) && Holds(buf[..], head, count, contents)
    }

    constructor (size: int)
      requires 0 < size < WRAP
      ensures Valid() && fresh(buf) && buf.Length == size && contents == []
    {
      buf := new Byte[size](_ => 0);
      head, tail, count, contents := 0, 0, 0, [];
      new;
      ModIs(0, WRAP);
    }

    /** The byte in the slot RINGBUF_INDEX(ring, x). */
    method Peek(x: int) returns (b: Byte)
      requires 0 < buf.Length
      ensures b == ByteIn(buf[..], Mod(x, buf.Length))
    {
      ModIs(x, buf.Length);
      b := buf[x % buf.Length];
    }

    method Poke(x: int, b: Byte)
      requires 0 < buf.Length
      modifies buf
      ensures buf[..] == Stored(old(buf[..]), Mod(x, buf.Length), b)
    {
      ModIs(x, buf.Length);
      buf[x % buf.Length] := b;
    }

    /** One turn of the loop of ringbuf_read. */
    method Pop() returns (b: Byte)
      requires Valid() && count > 0
      modifies `head, `count, `contents
      ensures Valid() && old(contents) == [b] + contents
    {
      PopBytes(buf[..], head, count, contents);
      NextIndex(head, 1, count - 1);
      b := Peek(head);
      head := (head + 1) % WRAP;
      count := count - 1;
      contents := contents[1..];
    }

    /** One turn of the loop of ringbuf_write. */
    method Push(b: Byte)
      requires Valid() && count < buf.Length
      modifies `tail, `count, `contents, buf
      ensures Valid() && contents == Pushed(buf.Length, head, old(contents), b)
    {
      PushBytes(buf[..], head, count, contents, b);
      ModIs(head + count, WRAP);
      ModIs(head + (count + 1), WRAP);
      contents := Pushed(buf.Length, head, contents, b);
      Poke(tail, b);
      tail := (tail + 1) % WRAP;
      count := count + 1;
    }

    /** ringbuf_read: up to n bytes from the front. */
    method Read(n: nat) returns (out: seq<Byte>)
      requires Valid()
      modifies `head, `count, `contents
      ensures Valid() && old(contents) == out + contents
      ensures |out| == if n <= |old(contents)| then n else |old(contents)|
    {
      out := [];
      while |out| < n && count != 0
        invariant Valid() && old(contents) == out + contents && |out| <= n
        decreases n - |out|
      {
        var b := Pop();
        out := out + [b];
      }
    }

    /** ringbuf_write: as many bytes of data as fit, at the back, and in order unless a clash is met on the way. */
    method Write(data: seq<Byte>) returns (n: nat)
      requires Valid()
      modifies `tail, `count, `contents, buf
      ensures n == if |data| <= buf.Length - |old(contents)| then |data| else buf.Length - |old(contents)|
      ensures Valid() && contents == Written(buf.Length, head, old(contents), data[..n])
      ensures Clean(buf.Length, head, |old(contents)|, n) ==> contents == old(contents) + data[..n]
    {
      n := 0;
      while n < |data| && count != buf.Length
        invariant Valid() && n <= |data| && |contents| == |old(contents)| + n
        invariant contents == Written(buf.Length, head, old(contents), data[..n])
        decreases |data| - n
      {
        WrittenMore(buf.Length, head, old(contents), data[..n], data[n]);
        Push(data[n]);
        assert data[..n] + [data[n]] == data[..n + 1];
        n := n + 1;
      }
      if Clean(buf.Length, head, |old(contents)|, n) {
        WrittenClean(buf.Length, head, old(contents), data[..n]);
      }
    }

    /** ringbuf_available gives the number of buffered bytes exactly while the write index has not wrapped past the read
        index. */
    method Available() returns (n: int)
      requires Valid()
      ensures n == |contents| <==> tail >= head
    {
      ModIs(head + count, WRAP);
      if tail >= head {
        n := tail - head;
      } else {
        n := (tail + buf.Length - head) % WRAP;
      }
    }
  }
}
