/** strstr of src/kernel/lib/string.c: the short-needle searches and two-way string matching. */
module StringSearch {

  import opened Kernel
  import opened WordBits
  import opened Periodicity
  import opened CString
  import opened MaxSuffix

  /** Bytes lo to hi of w are the bytes at the same offsets from h. */
  ghost predicate MatchRange(m: Memory, h: nat, w: seq<Byte>, lo: nat, hi: nat) {
    && lo <= hi <= |w|
    && h + hi <= |m|
    && forall i, j | lo <= i < hi && j == h + i :: m[j] == w[i]
  }

  /** w occurs at address h of a text that ends at address e. */
  ghost predicate OccursAt(m: Memory, e: nat, h: nat, w: seq<Byte>) {
    h + |w| <= e && MatchRange(m, h, w, 0, |w|)
  }

  /** No occurrence of w starts in [lo, hi). */
  ghost predicate NoneIn(m: Memory, e: nat, lo: nat, hi: nat, w: seq<Byte>) {
    forall a | lo <= a < hi :: !OccursAt(m, e, a, w)
  }

  // ----- the byte set and the shift table

  /** BITOP's word index, c / 64. */
  function WordOf(c: Byte): (i: nat)
    ensures i < 4
  {
    if c < 64 then 0 else if c < 128 then 1 else if c < 192 then 2 else 3
  }

  /** BITOP's bit, 1 << c % 64. */
  function BitOf(c: Byte): bv64 {
    (1 as bv64) << (c & 63)
  }

  predicate InSet(bits: seq<bv64>, c: Byte)
    requires |bits| == 4
  {
    bits[WordOf(c)] & BitOf(c) != 0
  }

  /** Setting the bit of c adds c to the set and nothing else. */
  lemma SetByte(bits: seq<bv64>, bits': seq<bv64>, c: Byte)
    requires |bits| == 4
    requires bits' == bits[WordOf(c) := bits[WordOf(c)] | BitOf(c)]
    ensures forall d: Byte :: InSet(bits', d) <==> c == d || InSet(bits, d)
  {
  }

  lemma ByteIndex(c: Byte, d: Byte)
    ensures 0 <= c as int < 256
    ensures c as int == d as int <==> c == d
  {
  }

  /** s - 1 is the last position of c in w. */
  ghost predicate LastPosition(w: seq<Byte>, c: Byte, s: nat) {
    1 <= s <= |w| && w[s - 1] == c && forall i | s <= i < |w| :: w[i] != c
  }

  /** The byte set holds exactly the bytes of w, and the table their last positions. */
  ghost predicate Tables(w: seq<Byte>, bits: seq<bv64>, shift: seq<nat>) {
    && |bits| == 4
    && |shift| == 256
    && (forall c: Byte :: InSet(bits, c) <==> c in w)
    && (forall c: Byte | InSet(bits, c) :: 0 <= c as int < 256 && LastPosition(w, c, shift[c as int]))
  }

  lemma RecordByte(w: seq<Byte>, bits: seq<bv64>, shift: seq<nat>, bits': seq<bv64>, shift': seq<nat>, c: Byte)
    requires Tables(w, bits, shift)
    requires bits' == bits[WordOf(c) := bits[WordOf(c)] | BitOf(c)]
    requires 0 <= c as int < 256 && shift' == shift[c as int := |w| + 1]
    ensures Tables(w + [c], bits', shift')
  {
    SetByte(bits, bits', c);
    forall d: Byte
      ensures InSet(bits', d) <==> d in w + [c]
      ensures InSet(bits', d) ==> 0 <= d as int < 256 && LastPosition(w + [c], d, shift'[d as int])
    {
      ByteIndex(c, d);
    }
  }

  lemma EmptyTables(bits: seq<bv64>, shift: seq<nat>)
    requires bits == [0, 0, 0, 0] && |shift| == 256
    ensures Tables([], bits, shift)
  {
  }

  /** BITOP(byteset, c, |=) and shift[c] = l + 1. */
  method RecordInTables(byteset: array<bv64>, shift: array<nat>, ghost w: seq<Byte>, c: Byte, l: nat)
    requires l == |w|
    requires byteset.Length == 4 && shift.Length == 256
    requires Tables(w, byteset[..], shift[..])
    modifies byteset, shift
    ensures Tables(w + [c], byteset[..], shift[..])
  {
    ByteIndex(c, c);
    ghost var bits, last := byteset[..], shift[..];
    byteset[WordOf(c)] := byteset[WordOf(c)] | BitOf(c);
    shift[c as int] := l + 1;
    RecordByte(w, bits, last, byteset[..], shift[..], c);
  }

  /** The needle's length, byte set and last positions, unless the haystack ends first. */
  method FillTables(m: Memory, h: nat, n: nat) returns (l: nat, byteset: array<bv64>, shift: array<nat>)
    requires IsString(m, h) && IsString(m, n)
    ensures n + l <= StrEnd(m, n) && h + l <= StrEnd(m, h)
    ensures n + l == StrEnd(m, n) || h + l == StrEnd(m, h)
    ensures Tables(m[n..n + l], byteset[..], shift[..])
  {
    byteset := new bv64[4] [0, 0, 0, 0];
    shift := new nat[256];
    l := 0;
    EmptyTables(byteset[..], shift[..]);
    assert m[n..n] == [];
    while m[n + l] != 0 && m[h + l] != 0
      invariant n + l <= StrEnd(m, n) && h + l <= StrEnd(m, h)
      invariant fresh(byteset) && fresh(shift) && byteset.Length == 4 && shift.Length == 256
      invariant Tables(m[n..n + l], byteset[..], shift[..])
      decreases |m| - l
    {
      var c := m[n + l];
      RecordInTables(byteset, shift, m[n..n + l], c, l);
      assert m[n..n + l] + [c] == m[n..n + (l + 1)];
      l := l + 1;
    }
  }

  // ----- shifts that skip no occurrence

  /** Moving the needle s bytes on from a place where [x, k) matched repeats it around x. */
  lemma ShiftRepeats(m: Memory, e: nat, h: nat, w: seq<Byte>, x: nat, k: nat, s: nat)
    requires MatchRange(m, h, w, x, k)
    requires x + s <= k || k == |w|
    requires OccursAt(m, e, h + s, w)
    ensures Repetition(w, x, s)
  {
    forall i, j | x <= i < x + s && i < |w| && 0 <= j == i - s
      ensures w[i] == w[j]
    {
      var a := h + i;
      assert m[a] == w[i];
      assert m[a] == w[j];
    }
  }

  /** After a mismatch at k right of the critical position the needle moves on by k - ms. */
  lemma RightShiftSafe(m: Memory, e: nat, h: nat, w: seq<Byte>, x: nat, p: nat, mem0: nat, k: nat)
    requires SearchPlan(w, x, p, mem0)
    requires MatchRange(m, h, w, x, k) && k < |w| && h + k < |m| && m[h + k] != w[k]
    ensures NoneIn(m, e, h, h + k - x + 1, w)
  {
    forall a | h <= a < h + k - x + 1
      ensures !OccursAt(m, e, a, w)
    {
      var s: nat := a - h;
      assert OccursAt(m, e, a, w) ==> m[a + (k - s)] == w[k - s];
      if 1 <= s && OccursAt(m, e, a, w) {
        ShiftRepeats(m, e, h, w, x, k, s);
      }
    }
  }

  /** After the right part matched and the left did not, the needle moves on by p. */
  lemma LeftShiftSafe(m: Memory, e: nat, h: nat, w: seq<Byte>, x: nat, p: nat, mem0: nat, k: nat)
    requires SearchPlan(w, x, p, mem0)
    requires MatchRange(m, h, w, x, |w|)
    requires k < x && m[h + k] != w[k]
    ensures NoneIn(m, e, h, h + p, w)
  {
    forall a | h <= a < h + p
      ensures !OccursAt(m, e, a, w)
    {
      if h < a && OccursAt(m, e, a, w) {
        ShiftRepeats(m, e, h, w, x, |w|, a - h);
      }
    }
  }

  /** The bytes known to match after a shift of a periodic needle. */
  lemma Remembered(m: Memory, h: nat, w: seq<Byte>, x: nat, p: nat, mem0: nat)
    requires SearchPlan(w, x, p, mem0) && mem0 != 0
    requires MatchRange(m, h, w, x, |w|)
    ensures MatchRange(m, h + p, w, 0, mem0)
  {
    forall i, j | 0 <= i < mem0 && j == h + p + i
      ensures m[j] == w[i]
    {
      assert m[j] == w[i + p];
      assert w[i] == w[i + p];
    }
  }

  /** The shift table: the needle moves on until its last byte meets the text byte. */
  lemma TableShiftSafe(m: Memory, e: nat, h: nat, w: seq<Byte>, t: nat)
    requires 1 <= |w| && h + |w| <= |m|
    requires t == 0 || LastPosition(w, m[h + |w| - 1], t)
    requires t == 0 ==> m[h + |w| - 1] !in w
    ensures NoneIn(m, e, h, h + |w| - t, w)
  {
    forall a | h <= a < h + |w| - t
      ensures !OccursAt(m, e, a, w)
    {
      var i: nat := h + |w| - 1 - a;
      assert w[i] != m[h + |w| - 1];
    }
  }

  /** With remembered bytes the shift may be at least that many: the mismatched last byte breaks the period. */
  lemma MemoryShiftSafe(m: Memory, e: nat, h: nat, w: seq<Byte>, p: nat)
    requires 1 <= p < |w| && Period(w, p) && h + |w| <= |m|
    requires MatchRange(m, h, w, 0, |w| - p)
    requires m[h + |w| - 1] != w[|w| - 1]
    ensures NoneIn(m, e, h, h + |w| - p, w)
  {
    var l := |w|;
    forall a | h <= a < h + l - p
      ensures !OccursAt(m, e, a, w)
    {
      var i: nat := h + l - 1 - a;
      assert w[i - p] == w[i];
      assert m[h + (l - 1 - p)] == w[l - 1 - p] == w[l - 1];
      assert m[h + l - 1 - p] != m[h + l - 1];
    }
  }

  lemma NoneInJoin(m: Memory, e: nat, lo: nat, mid: nat, hi: nat, w: seq<Byte>)
    requires NoneIn(m, e, lo, mid, w) && NoneIn(m, e, mid, hi, w)
    ensures NoneIn(m, e, lo, hi, w)
  {
  }

  // ----- the search loop

  /** Extends the known NUL-free stretch [h, z) to at least l bytes; false when the text ends before that. */
  method Refill(m: Memory, h: nat, z0: nat, l: nat) returns (z: nat, enough: bool)
    requires IsString(m, z0)
    requires h <= z0
    ensures z0 <= z <= StrEnd(m, z0)
    ensures enough ==> h + l <= z
    ensures !enough ==> z == StrEnd(m, z0) < h + l
  {
    z, enough := z0, true;
    if z - h < l {
      var grow := l - l % 64 + 63;  // l | 63
      var z2 := Memchr(m, z, 0, grow);
      match z2
      case Some(found) =>
        z := found;
        enough := z - h >= l;
      case None =>
        z := z + grow;
    }
  }

  /** Compares the right part from k on; stops at the first mismatch or at the needle's NUL. */
  method CompareRight(m: Memory, h: nat, n: nat, l: nat, k0: nat, ghost x: nat) returns (k: nat)
    requires n + l < |m| && m[n + l] == 0 && (forall i | n <= i < n + l :: m[i] != 0)
    requires h + l <= |m| && x <= k0 <= l
    requires MatchRange(m, h, m[n..n + l], x, k0)
    ensures k0 <= k <= l && MatchRange(m, h, m[n..n + l], x, k)
    ensures k < l ==> m[n + k] != 0 && m[h + k] != m[n + k]
    ensures k == l ==> m[n + k] == 0
  {
    k := k0;
    while m[n + k] != 0 && m[n + k] == m[h + k]
      invariant k0 <= k <= l && MatchRange(m, h, m[n..n + l], x, k)
      decreases l - k
    {
      k := k + 1;
    }
  }

  /** Compares the left part down to mem; the needle is found when k reaches mem. */
  method CompareLeft(m: Memory, h: nat, n: nat, l: nat, x: nat, mem: nat) returns (k: nat)
    requires n + l <= |m| && h + l <= |m| && x <= l && mem <= l
    ensures k <= x && MatchRange(m, h, m[n..n + l], k, x)
    ensures k > mem ==> m[h + k - 1] != m[n + k - 1]
  {
    k := x;
    while k > mem && m[n + k - 1] == m[h + k - 1]
      invariant k <= x && MatchRange(m, h, m[n..n + l], k, x)
    {
      k := k - 1;
    }
  }

  /** The first mem bytes are known to match; only a periodic needle remembers any. */
  ghost predicate Remembers(m: Memory, h: nat, w: seq<Byte>, mem0: nat, mem: nat) {
    mem == 0 || (mem == mem0 && MatchRange(m, h, w, 0, mem))
  }

  /** The test of the last byte first: how far to move on, or zero when that byte matches. */
  method LastByteShift(m: Memory, ghost e: nat, h: nat, n: nat, l: nat, bits: seq<bv64>, shift: seq<nat>,
                       p: nat, mem0: nat, mem: nat) returns (k: nat)
    requires 1 <= l && n + l <= |m| && h + l <= |m|
    requires Tables(m[n..n + l], bits, shift)
    requires 1 <= p <= l
    requires mem0 != 0 ==> Period(m[n..n + l], p) && mem0 == l - p
    requires Remembers(m, h, m[n..n + l], mem0, mem)
    ensures k <= l
    ensures NoneIn(m, e, h, h + k, m[n..n + l])
    ensures k == 0 ==> m[h + l - 1] == m[n + l - 1]
  {
    ghost var w := m[n..n + l];
    var c := m[h + l - 1];
    if InSet(bits, c) {
      k := l - shift[c as int];
      TableShiftSafe(m, e, h, w, shift[c as int]);
      if k != 0 && mem0 != 0 && mem != 0 && k < p {
        MemoryShiftSafe(m, e, h, w, p);
        k := l - p;
      }
    } else {
      TableShiftSafe(m, e, h, w, 0);
      k := l;
    }
  }

  /** Compares both parts of the needle at h. Unless it is found there, gives how far to move on
      and how much is then known to match. */
  method CompareAt(m: Memory, ghost e: nat, h: nat, n: nat, l: nat, ms: int, p: nat, mem0: nat, mem: nat)
    returns (found: bool, k: nat, mem': nat)
    requires n + l < |m| && m[n + l] == 0 && (forall i | n <= i < n + l :: m[i] != 0)
    requires -1 <= ms && SearchPlan(m[n..n + l], ms + 1, p, mem0)
    requires h + l <= |m| && Remembers(m, h, m[n..n + l], mem0, mem)
    ensures found ==> MatchRange(m, h, m[n..n + l], 0, l)
    ensures !found ==> 1 <= k <= l && NoneIn(m, e, h, h + k, m[n..n + l])
    ensures !found ==> Remembers(m, h + k, m[n..n + l], mem0, mem')
  {
    ghost var w := m[n..n + l];
    k := CompareRight(m, h, n, l, if ms + 1 > mem then ms + 1 else mem, ms + 1);
    if m[n + k] != 0 {
      RightShiftSafe(m, e, h, w, ms + 1, p, mem0, k);
      return false, k - ms, 0;
    }
    k := CompareLeft(m, h, n, l, ms + 1, mem);
    if k <= mem {
      return true, 0, mem;
    }
    LeftShiftSafe(m, e, h, w, ms + 1, p, mem0, k - 1);
    if mem0 != 0 {
      Remembered(m, h, w, ms + 1, p, mem0);
    }
    return false, p, mem0;
  }

  /** The search loop over a text that ends at e. */
  method TwowayLoop(m: Memory, h0: nat, n: nat, l: nat, bits: seq<bv64>, shift: seq<nat>, ms: int, p: nat, mem0: nat)
    returns (r: Option<nat>)
    requires IsString(m, h0)
    requires 1 <= l && n + l < |m| && m[n + l] == 0 && (forall i | n <= i < n + l :: m[i] != 0)
    requires Tables(m[n..n + l], bits, shift)
    requires -1 <= ms && SearchPlan(m[n..n + l], ms + 1, p, mem0)
    ensures r.Some? ==> h0 <= r.value && OccursAt(m, StrEnd(m, h0), r.value, m[n..n + l])
    ensures r.Some? ==> NoneIn(m, StrEnd(m, h0), h0, r.value, m[n..n + l])
    ensures r.None? ==> NoneIn(m, StrEnd(m, h0), h0, |m|, m[n..n + l])
  {
    ghost var e, w := StrEnd(m, h0), m[n..n + l];
    var mem: nat, h: nat, z: nat := 0, h0, h0;
    while true
      invariant h0 <= h <= z <= e
      invariant NoneIn(m, e, h0, h, w)
      invariant Remembers(m, h, w, mem0, mem)
      decreases e - h
    {
      StrEndUnique(m, z, e);
      var enough;
      z, enough := Refill(m, h, z, l);
      if !enough {
        NoneAfter(m, e, h0, h, w);
        return None;
      }
      var k := LastByteShift(m, e, h, n, l, bits, shift, p, mem0, mem);
      if k != 0 {
        mem := 0;
      } else {
        var found;
        found, k, mem := CompareAt(m, e, h, n, l, ms, p, mem0, mem);
        if found {
          return Some(h);
        }
      }
      NoneInJoin(m, e, h0, h, h + k, w);
      h := h + k;
    }
  }

  /** When less than a needle of text is left, nothing further occurs. */
  lemma NoneAfter(m: Memory, e: nat, h0: nat, h: nat, w: seq<Byte>)
    requires NoneIn(m, e, h0, h, w) && e < h + |w|
    ensures NoneIn(m, e, h0, |m|, w)
  {
  }

  /** Two-way string matching: the leftmost occurrence of the needle, if there is one. */
  method StrstrTwoway(m: Memory, h: nat, n: nat) returns (r: Option<nat>)
    requires IsString(m, h) && IsString(m, n) && m[n] != 0
    ensures r.Some? ==> h <= r.value && OccursAt(m, StrEnd(m, h), r.value, Str(m, n))
    ensures r.Some? ==> NoneIn(m, StrEnd(m, h), h, r.value, Str(m, n))
    ensures r.None? ==> NoneIn(m, StrEnd(m, h), h, |m|, Str(m, n))
  {
    var l, byteset, shift := FillTables(m, h, n);
    if m[n + l] != 0 {
      NoneAfter(m, StrEnd(m, h), h, h, Str(m, n));
      return None;
    }
    assert m[n..n + l] == Str(m, n);
    var ms, p, mem0 := Factorise(m, n, l);
    r := TwowayLoop(m, h, n, l, byteset[..], shift[..], ms, p, mem0);
  }

  // ----- short needles: a rolling window of the last two, three or four bytes

  function Window2(a: Byte, b: Byte): bv16 {
    ((a as bv16) << 8) | (b as bv16)
  }

  function Window3(a: Byte, b: Byte, c: Byte): bv32 {
    ((a as bv32) << 24) | ((b as bv32) << 16) | ((c as bv32) << 8)
  }

  function Window4(a: Byte, b: Byte, c: Byte, d: Byte): bv32 {
    ((a as bv32) << 24) | ((b as bv32) << 16) | ((c as bv32) << 8) | (d as bv32)
  }

  lemma Roll2(a: Byte, b: Byte, c: Byte)
    ensures (Window2(a, b) << 8) | (c as bv16) == Window2(b, c)
  {
  }

  lemma Roll3(a: Byte, b: Byte, c: Byte, d: Byte)
    ensures (Window3(a, b, c) | (d as bv32)) << 8 == Window3(b, c, d)
  {
  }

  lemma Roll4(a: Byte, b: Byte, c: Byte, d: Byte, e: Byte)
    ensures (Window4(a, b, c, d) << 8) | (e as bv32) == Window4(b, c, d, e)
  {
  }

  /** x is the window of the two bytes at address a. */
  predicate WindowAt2(x: bv16, m: Memory, a: nat) {
    a + 2 <= |m| && x == Window2(m[a], m[a + 1])
  }

  lemma WindowTest2(x: bv16, y: bv16, m: Memory, e: nat, a: nat, w: seq<Byte>)
    requires |w| == 2 && a + 2 <= e <= |m|
    requires WindowAt2(x, m, a) && y == Window2(w[0], w[1])
    ensures x == y <==> OccursAt(m, e, a, w)
  {
  }

  method Shift2(x: bv16, m: Memory, a: nat) returns (x': bv16)
    requires WindowAt2(x, m, a) && a + 2 < |m|
    ensures WindowAt2(x', m, a + 1)
  {
    x' := (x << 8) | (m[a + 2] as bv16);
    Roll2(m[a], m[a + 1], m[a + 2]);
  }

  /** x is the window of the three bytes at address a. */
  predicate WindowAt3(x: bv32, m: Memory, a: nat) {
    a + 3 <= |m| && x == Window3(m[a], m[a + 1], m[a + 2])
  }

  lemma WindowTest3(x: bv32, y: bv32, m: Memory, e: nat, a: nat, w: seq<Byte>)
    requires |w| == 3 && a + 3 <= e <= |m|
    requires WindowAt3(x, m, a) && y == Window3(w[0], w[1], w[2])
    ensures x == y <==> OccursAt(m, e, a, w)
  {
  }

  method Shift3(x: bv32, m: Memory, a: nat) returns (x': bv32)
    requires WindowAt3(x, m, a) && a + 3 < |m|
    ensures WindowAt3(x', m, a + 1)
  {
    x' := (x | (m[a + 3] as bv32)) << 8;
    Roll3(m[a], m[a + 1], m[a + 2], m[a + 3]);
  }

  /** x is the window of the four bytes at address a. */
  predicate WindowAt4(x: bv32, m: Memory, a: nat) {
    a + 4 <= |m| && x == Window4(m[a], m[a + 1], m[a + 2], m[a + 3])
  }

  lemma WindowTest4(x: bv32, y: bv32, m: Memory, e: nat, a: nat, w: seq<Byte>)
    requires |w| == 4 && a + 4 <= e <= |m|
    requires WindowAt4(x, m, a) && y == Window4(w[0], w[1], w[2], w[3])
    ensures x == y <==> OccursAt(m, e, a, w)
  {
  }

  method Shift4(x: bv32, m: Memory, a: nat) returns (x': bv32)
    requires WindowAt4(x, m, a) && a + 4 < |m|
    ensures WindowAt4(x', m, a + 1)
  {
    x' := (x << 8) | (m[a + 4] as bv32);
    Roll4(m[a], m[a + 1], m[a + 2], m[a + 3], m[a + 4]);
  }

  method Strstr2b(m: Memory, h0: nat, n: nat) returns (r: Option<nat>)
    requires IsString(m, h0) && IsString(m, n)
    requires StrEnd(m, n) == n + 2 && h0 + 2 <= StrEnd(m, h0)
    ensures r.Some? ==> h0 <= r.value && OccursAt(m, StrEnd(m, h0), r.value, Str(m, n))
    ensures r.Some? ==> NoneIn(m, StrEnd(m, h0), h0, r.value, Str(m, n))
    ensures r.None? ==> NoneIn(m, StrEnd(m, h0), h0, |m|, Str(m, n))
  {
    ghost var e, w := StrEnd(m, h0), Str(m, n);
    var nw, hw := Window2(m[n], m[n + 1]), Window2(m[h0], m[h0 + 1]);
    var h: nat := h0 + 1;
    while m[h] != 0 && hw != nw
      invariant h0 + 1 <= h <= e
      invariant WindowAt2(hw, m, h - 1)
      invariant NoneIn(m, e, h0, h - 1, w)
      decreases e - h
    {
      WindowTest2(hw, nw, m, e, h - 1, w);
      hw := Shift2(hw, m, h - 1);
      h := h + 1;
    }
    if m[h] != 0 {
      WindowTest2(hw, nw, m, e, h - 1, w);
      r := Some(h - 1);
    } else {
      r := None;
    }
  }

  method Strstr3b(m: Memory, h0: nat, n: nat) returns (r: Option<nat>)
    requires IsString(m, h0) && IsString(m, n)
    requires StrEnd(m, n) == n + 3 && h0 + 3 <= StrEnd(m, h0)
    ensures r.Some? ==> h0 <= r.value && OccursAt(m, StrEnd(m, h0), r.value, Str(m, n))
    ensures r.Some? ==> NoneIn(m, StrEnd(m, h0), h0, r.value, Str(m, n))
    ensures r.None? ==> NoneIn(m, StrEnd(m, h0), h0, |m|, Str(m, n))
  {
    ghost var e, w := StrEnd(m, h0), Str(m, n);
    var nw := Window3(m[n], m[n + 1], m[n + 2]);
    var hw := Window3(m[h0], m[h0 + 1], m[h0 + 2]);
    var h: nat := h0 + 2;
    while m[h] != 0 && hw != nw
      invariant h0 + 2 <= h <= e
      invariant WindowAt3(hw, m, h - 2)
      invariant NoneIn(m, e, h0, h - 2, w)
      decreases e - h
    {
      WindowTest3(hw, nw, m, e, h - 2, w);
      hw := Shift3(hw, m, h - 2);
      h := h + 1;
    }
    if m[h] != 0 {
      WindowTest3(hw, nw, m, e, h - 2, w);
      r := Some(h - 2);
    } else {
      r := None;
    }
  }

  method Strstr4b(m: Memory, h0: nat, n: nat) returns (r: Option<nat>)
    requires IsString(m, h0) && IsString(m, n)
    requires StrEnd(m, n) == n + 4 && h0 + 4 <= StrEnd(m, h0)
    ensures r.Some? ==> h0 <= r.value && OccursAt(m, StrEnd(m, h0), r.value, Str(m, n))
    ensures r.Some? ==> NoneIn(m, StrEnd(m, h0), h0, r.value, Str(m, n))
    ensures r.None? ==> NoneIn(m, StrEnd(m, h0), h0, |m|, Str(m, n))
  {
    ghost var e, w := StrEnd(m, h0), Str(m, n);
    var nw := Window4(m[n], m[n + 1], m[n + 2], m[n + 3]);
    var hw := Window4(m[h0], m[h0 + 1], m[h0 + 2], m[h0 + 3]);
    var h: nat := h0 + 3;
    while m[h] != 0 && hw != nw
      invariant h0 + 3 <= h <= e
      invariant WindowAt4(hw, m, h - 3)
      invariant NoneIn(m, e, h0, h - 3, w)
      decreases e - h
    {
      WindowTest4(hw, nw, m, e, h - 3, w);
      hw := Shift4(hw, m, h - 3);
      h := h + 1;
    }
    if m[h] != 0 {
      WindowTest4(hw, nw, m, e, h - 3, w);
      r := Some(h - 3);
    } else {
      r := None;
    }
  }

  // ----- strstr

  /** needle occurs in text at offset s. */
  ghost predicate Occurs(text: seq<Byte>, needle: seq<Byte>, s: nat) {
    s + |needle| <= |text| && text[s..s + |needle|] == needle
  }

  lemma OccursIsOccursAt(m: Memory, p: nat, a: nat, w: seq<Byte>)
    requires IsString(m, p) && p <= a
    ensures Occurs(Str(m, p), w, a - p) <==> OccursAt(m, StrEnd(m, p), a, w)
  {
    var text, s: nat := Str(m, p), a - p;
    if s + |w| <= |text| {
      assert forall k | s <= k < s + |w| :: text[k] == m[p + k];
      assert text[s..s + |w|] == m[a..a + |w|];
    }
  }

  /** An occurrence starts with the needle's first byte, so none starts before that byte's first occurrence. */
  lemma FirstByteBound(m: Memory, p: nat, q: nat, w: seq<Byte>)
    requires IsString(m, p) && p <= q <= StrEnd(m, p) + 1 && 1 <= |w|
    requires forall j | p <= j < q :: m[j] != w[0]
    ensures NoneIn(m, StrEnd(m, p), p, q, w)
  {
    forall a | p <= a < q
      ensures !OccursAt(m, StrEnd(m, p), a, w)
    {
      assert m[a] != w[0];
    }
  }

  /** strstr returns the leftmost occurrence of the needle, or NULL exactly when there is none. */
  method Strstr(m: Memory, h: nat, n: nat) returns (r: Option<nat>)
    requires IsString(m, h) && IsString(m, n)
    ensures r.Some? ==> h <= r.value && Occurs(Str(m, h), Str(m, n), r.value - h)
    ensures r.Some? ==> forall s: nat | s < r.value - h :: !Occurs(Str(m, h), Str(m, n), s)
    ensures r.None? ==> forall s: nat :: !Occurs(Str(m, h), Str(m, n), s)
  {
    ghost var e, w := StrEnd(m, h), Str(m, n);
    r := StrstrFrom(m, h, n);
    forall s: nat
      ensures Occurs(Str(m, h), w, s) <==> OccursAt(m, e, h + s, w)
    {
      OccursIsOccursAt(m, h, h + s, w);
    }
  }

  /** The dispatch of strstr on the needle's length, stated on addresses. */
  method StrstrFrom(m: Memory, h0: nat, n: nat) returns (r: Option<nat>)
    requires IsString(m, h0) && IsString(m, n)
    ensures r.Some? ==> h0 <= r.value && OccursAt(m, StrEnd(m, h0), r.value, Str(m, n))
    ensures r.Some? ==> NoneIn(m, StrEnd(m, h0), h0, r.value, Str(m, n))
    ensures r.None? ==> NoneIn(m, StrEnd(m, h0), h0, |m|, Str(m, n))
  {
    ghost var e, w := StrEnd(m, h0), Str(m, n);
    if m[n] == 0 {
      return Some(h0);
    }
    var first := Strchr(m, h0, m[n]);
    if first.None? {
      FirstByteBound(m, h0, e + 1, w);
      NoneAfter(m, e, h0, e + 1, w);
      return None;
    }
    var h := first.value;
    FirstByteBound(m, h0, h, w);
    StrEndUnique(m, h, e);
    if m[n + 1] == 0 {
      assert w == [m[n]];
      return Some(h);
    }
    if m[h + 1] == 0 {
      NoneAfter(m, e, h0, h, w);
      return None;
    }
    if m[n + 2] == 0 {
      r := Strstr2b(m, h, n);
    } else if m[h + 2] == 0 {
      NoneAfter(m, e, h0, h, w);
      return None;
    } else if m[n + 3] == 0 {
      r := Strstr3b(m, h, n);
    } else if m[h + 3] == 0 {
      NoneAfter(m, e, h0, h, w);
      return None;
    } else if m[n + 4] == 0 {
      r := Strstr4b(m, h, n);
    } else {
      r := StrstrTwoway(m, h, n);
    }
    NoneInJoin(m, e, h0, h, if r.Some? then r.value else |m|, w);
  }
}
