/** The word-at-a-time tricks of src/kernel/lib/string.c on 64-bit little-endian words. */
module WordBits {

  type Byte = bv8

  const ONES: bv64 := 0x0101_0101_0101_0101
  const HIGHS: bv64 := 0x8080_8080_8080_8080
  const ALIGN: nat := 8

  function HasZero(x: bv64): bv64 {
    (x - ONES) & !x & HIGHS
  }

  /** The eight bytes of a word, least significant first. */
  predicate Lanes(x: bv64, b0: Byte, b1: Byte, b2: Byte, b3: Byte, b4: Byte, b5: Byte, b6: Byte, b7: Byte) {
    && x & 0xff == (b0 as bv64) << 0
    && x & 0xff00 == (b1 as bv64) << 8
    && x & 0xff0000 == (b2 as bv64) << 16
    && x & 0xff000000 == (b3 as bv64) << 24
    && x & 0xff00000000 == (b4 as bv64) << 32
    && x & 0xff0000000000 == (b5 as bv64) << 40
    && x & 0xff000000000000 == (b6 as bv64) << 48
    && x & 0xff00000000000000 == (b7 as bv64) << 56
  }

  /** x is what a little-endian load of the eight bytes at address a gives. */
  predicate Loaded(x: bv64, m: seq<Byte>, a: nat)
    requires a + ALIGN <= |m|
  {
    Lanes(x, m[a], m[a + 1], m[a + 2], m[a + 3], m[a + 4], m[a + 5], m[a + 6], m[a + 7])
  }

  /** k holds the byte c in every lane. */
  predicate Broadcast(k: bv64, c: Byte) {
    Lanes(k, c, c, c, c, c, c, c, c)
  }

  method Load(m: seq<Byte>, a: nat) returns (x: bv64)
    requires a + ALIGN <= |m|
    ensures Loaded(x, m, a)
  {
    x := (m[a] as bv64) | (m[a + 1] as bv64 << 8) | (m[a + 2] as bv64 << 16) | (m[a + 3] as bv64 << 24) |
         (m[a + 4] as bv64 << 32) | (m[a + 5] as bv64 << 40) | (m[a + 6] as bv64 << 48) | (m[a + 7] as bv64 << 56);
  }

  /** Multiplying by ONES copies a byte to every lane. */
  method Spread(c: Byte) returns (k: bv64)
    ensures Broadcast(k, c)
  {
    k := ONES * (c as bv64);
  }

  lemma HasZeroLanes(x: bv64, b0: Byte, b1: Byte, b2: Byte, b3: Byte, b4: Byte, b5: Byte, b6: Byte, b7: Byte)
    requires Lanes(x, b0, b1, b2, b3, b4, b5, b6, b7)
    ensures HasZero(x) != 0 <==>
      b0 == 0 || b1 == 0 || b2 == 0 || b3 == 0 || b4 == 0 || b5 == 0 || b6 == 0 || b7 == 0
  {
  }

  lemma XorHasZeroLanes(x: bv64, k: bv64, b0: Byte, b1: Byte, b2: Byte, b3: Byte, b4: Byte, b5: Byte, b6: Byte, b7: Byte, c: Byte)
    requires Lanes(x, b0, b1, b2, b3, b4, b5, b6, b7)
    requires Broadcast(k, c)
    ensures HasZero(x ^ k) != 0 <==>
      b0 == c || b1 == c || b2 == c || b3 == c || b4 == c || b5 == c || b6 == c || b7 == c
  {
  }

  /** HASZERO is non-zero exactly when one of the eight bytes of the word is zero. */
  lemma ZeroTest(x: bv64, m: seq<Byte>, a: nat)
    requires a + ALIGN <= |m|
    requires Loaded(x, m, a)
    ensures HasZero(x) != 0 <==> exists i | a <= i < a + ALIGN :: m[i] == 0
  {
    HasZeroLanes(x, m[a], m[a + 1], m[a + 2], m[a + 3], m[a + 4], m[a + 5], m[a + 6], m[a + 7]);
  }

  /** After the exclusive or with a spread c it is non-zero exactly when one of the bytes is c. */
  lemma ByteTest(x: bv64, k: bv64, m: seq<Byte>, a: nat, c: Byte)
    requires a + ALIGN <= |m|
    requires Loaded(x, m, a)
    requires Broadcast(k, c)
    ensures HasZero(x ^ k) != 0 <==> exists i | a <= i < a + ALIGN :: m[i] == c
  {
    XorHasZeroLanes(x, k, m[a], m[a + 1], m[a + 2], m[a + 3], m[a + 4], m[a + 5], m[a + 6], m[a + 7], c);
  }
}
