/** Combinatorics on byte strings behind the two-way search of src/kernel/lib/string.c:
    periods, maximal suffixes under an order and its reverse, and the critical
    factorisation theorem that makes the shifts of the search safe. */
module Periodicity {

  import opened WordBits

  /** The order of the first maximal-suffix loop, or its reverse for the second. */
  predicate Less(rev: bool, a: Byte, b: Byte) {
    if rev then b < a else a < b
  }

  /** The suffixes of w at s and t agree on d bytes and then the one at s is smaller. */
  ghost predicate BelowAt(rev: bool, w: seq<Byte>, s: nat, t: nat, d: nat) {
    && s + d < |w|
    && t + d < |w|
    && (forall i, j | s <= i < s + d && j == i - s + t :: w[i] == w[j])
    && Less(rev, w[s + d], w[t + d])
  }

  /** The suffix at s is smaller than the suffix at t by a byte of s before position bound. */
  ghost predicate Below(rev: bool, w: seq<Byte>, s: nat, t: nat, bound: nat) {
    exists d: nat :: s + d < bound && BelowAt(rev, w, s, t, d)
  }

  /** Every suffix that starts in [lo, hi) is below the one at x, by a byte before position bound. */
  ghost predicate AllBelow(rev: bool, w: seq<Byte>, lo: nat, hi: nat, x: nat, bound: nat) {
    forall t: nat | lo <= t < hi :: Below(rev, w, t, x, bound)
  }

  /** w has period p from position a on. */
  ghost predicate PeriodFrom(w: seq<Byte>, a: nat, p: nat) {
    forall i, j | a <= i && j == i + p < |w| :: w[i] == w[j]
  }

  ghost predicate Period(w: seq<Byte>, p: nat) {
    PeriodFrom(w, 0, p)
  }

  /** Position x of w is the centre of a repetition of length s, which may run over either end of w. */
  ghost predicate Repetition(w: seq<Byte>, x: nat, s: nat) {
    forall i, j | x <= i < x + s && i < |w| && 0 <= j == i - s :: w[i] == w[j]
  }

  /** The suffix of w at x is its maximal suffix and p is that suffix's smallest period. */
  ghost predicate MaximalSuffix(rev: bool, w: seq<Byte>, x: nat, p: nat) {
    && 1 <= p
    && x + p <= |w|
    && AllBelow(rev, w, 0, x, x, |w|)
    && AllBelow(rev, w, x + 1, x + p, x, x + p)
    && PeriodFrom(w, x, p)
  }

  /** Two starting positions, one maximal for each order; the later one is the critical position. */
  ghost predicate Critical(w: seq<Byte>, x: nat, p: nat) {
    exists rev: bool, rev': bool, y: nat, q: nat ::
      rev != rev' && y <= x && MaximalSuffix(rev, w, x, p) && MaximalSuffix(rev', w, y, q)
  }

  lemma PeriodMultiple(w: seq<Byte>, a: nat, p: nat, i: nat, m: nat)
    requires PeriodFrom(w, a, p)
    requires a <= i
    requires i + m * p < |w|
    ensures w[i] == w[i + m * p]
    decreases m
  {
    if m > 0 {
      assert (m - 1) * p + p == m * p;
      PeriodMultiple(w, a, p, i, m - 1);
    }
  }

  /** Inside the maximal suffix, the bytes from t on repeat those from some offset of its first period on. */
  lemma FoldIntoPeriod(w: seq<Byte>, x: nat, p: nat, t: nat) returns (r: nat, a: nat)
    requires 1 <= p && PeriodFrom(w, x, p)
    requires x <= t < |w|
    ensures r < p && t == x + r + a * p && x + r <= t
    ensures forall i, j | t <= i < |w| && j == i - t + x + r :: w[i] == w[j]
  {
    r, a := (t - x) % p, (t - x) / p;
    assert t == x + r + a * p;
    forall i, j | t <= i < |w| && j == i - t + x + r
      ensures w[i] == w[j]
    {
      PeriodMultiple(w, x, p, j, a);
    }
  }

  /** If the bytes from t on repeat those from u on, and u is below x early enough, then t is not above x. */
  lemma NotAbove(rev: bool, w: seq<Byte>, x: nat, u: nat, e: nat, t: nat, d: nat)
    requires x < u <= t
    requires BelowAt(rev, w, u, x, e)
    requires forall i, j | t <= i < |w| && j == i - t + u :: w[i] == w[j]
    ensures !BelowAt(rev, w, x, t, d)
  {
    if t + d < |w| {
      var f := if d < e then d else e;
      assert w[t + f] == w[u + f];
      assert f < e ==> w[u + f] == w[x + f];
    }
  }

  /** No later suffix is above a maximal one. */
  lemma NothingAboveLater(rev: bool, w: seq<Byte>, x: nat, p: nat, t: nat, d: nat)
    requires MaximalSuffix(rev, w, x, p)
    requires x < t < |w|
    ensures !BelowAt(rev, w, x, t, d)
  {
    var r, a := FoldIntoPeriod(w, x, p, t);
    if r == 0 {
      assert t + d < |w| ==> w[t + d] == w[x + d];
    } else {
      assert Below(rev, w, x + r, x, x + p);
      var e: nat :| x + r + e < x + p && BelowAt(rev, w, x + r, x, e);
      NotAbove(rev, w, x, x + r, e, t, d);
    }
  }

  /** A repetition at a maximal suffix's start is longer than everything to its left. */
  lemma NoShortRepetition(rev: bool, w: seq<Byte>, x: nat, p: nat, s: nat)
    requires MaximalSuffix(rev, w, x, p)
    requires 1 <= s <= x
    ensures !Repetition(w, x, s)
  {
    var t: nat := x - s;
    assert Below(rev, w, t, x, |w|);
    var d: nat :| t + d < |w| && BelowAt(rev, w, t, x, d);
    if d < s {
      assert w[x + d] != w[x + d - s];
    } else {
      ShiftBelow(rev, w, t, x, d, s);
      NothingAboveLater(rev, w, x, p, x + s, d - s);
    }
  }

  /** Dropping s bytes from both of two suffixes that lie s apart. */
  lemma ShiftBelow(rev: bool, w: seq<Byte>, t: nat, x: nat, d: nat, s: nat)
    requires BelowAt(rev, w, t, x, d)
    requires s <= d && x == t + s
    ensures BelowAt(rev, w, x, x + s, d - s)
  {
    forall i, j | x <= i < x + (d - s) && j == i - x + (x + s)
      ensures w[i] == w[j]
    {
      assert t <= i < t + d && j == i - t + x;
    }
  }

  /** The repetition at x, and e further agreeing bytes, seen from an earlier position y. */
  lemma RepetitionFrom(w: seq<Byte>, x: nat, y: nat, s: nat, e: nat)
    requires y <= x < s && x + s + e <= |w|
    requires Repetition(w, x, s)
    requires forall i, j | x <= i < x + e && j == i + s :: w[i] == w[j]
    ensures forall i, j | y <= i < x + e && j == i + s :: w[i] == w[j]
  {
  }

  /** Past the repetition, byte e of the shifted suffix agrees with the suffix itself. */
  lemma {:induction false} RepetitionExtends(rev: bool, w: seq<Byte>, x: nat, p: nat, y: nat, q: nat, s: nat, e: nat)
    requires y <= x < s
    requires MaximalSuffix(rev, w, x, p) && MaximalSuffix(!rev, w, y, q)
    requires Repetition(w, x, s)
    requires x + s + e < |w|
    ensures w[x + s + e] == w[x + e]
    decreases e
  {
    forall i, j | x <= i < x + e && j == i + s
      ensures w[i] == w[j]
    {
      RepetitionExtends(rev, w, x, p, y, q, s, i - x);
    }
    RepetitionFrom(w, x, y, s, e);
    NothingAboveLater(rev, w, x, p, x + s, e);
    NothingAboveLater(!rev, w, y, q, y + s, x - y + e);
    NeitherAbove(rev, w, x, y, s, e);
  }

  lemma NeitherAbove(rev: bool, w: seq<Byte>, x: nat, y: nat, s: nat, e: nat)
    requires y <= x && x + s + e < |w|
    requires forall i, j | y <= i < x + e && j == i + s :: w[i] == w[j]
    requires !BelowAt(rev, w, x, x + s, e)
    requires !BelowAt(!rev, w, y, y + s, x - y + e)
    ensures w[x + s + e] == w[x + e]
  {
  }

  /** The critical factorisation theorem: every repetition at the critical position is a period of the
      whole string, and is longer than the part of the string to its left. */
  lemma CriticalFactorisation(w: seq<Byte>, x: nat, p: nat, s: nat)
    requires Critical(w, x, p)
    requires 1 <= s
    requires Repetition(w, x, s)
    ensures x < s
    ensures Period(w, s)
  {
    var rev: bool, rev': bool, y: nat, q: nat :|
      rev != rev' && y <= x && MaximalSuffix(rev, w, x, p) && MaximalSuffix(rev', w, y, q);
    if s <= x {
      NoShortRepetition(rev, w, x, p, s);
    }
    forall i, j | 0 <= i && j == i + s < |w|
      ensures w[i] == w[j]
    {
      if x <= i {
        RepetitionExtends(rev, w, x, p, y, q, s, i - x);
      }
    }
  }

  /** The period of the maximal suffix bounds every period of the string from below. */
  lemma NoSmallerPeriod(w: seq<Byte>, x: nat, p: nat, s: nat)
    requires Critical(w, x, p)
    requires 1 <= s < p
    ensures !Period(w, s)
  {
    var rev: bool, rev': bool, y: nat, q: nat :|
      rev != rev' && y <= x && MaximalSuffix(rev, w, x, p) && MaximalSuffix(rev', w, y, q);
    assert Below(rev, w, x + s, x, x + p);
    var d: nat :| x + s + d < x + p && BelowAt(rev, w, x + s, x, d);
    assert w[x + d] != w[x + d + s];
  }

  lemma RemainderRepeats(w: seq<Byte>, x: nat, p: nat, s: nat, r: nat, a: nat)
    requires 1 <= p && PeriodFrom(w, x, p)
    requires Period(w, s)
    requires x + s <= |w|
    requires s == a * p + r
    ensures Repetition(w, x, r)
  {
    forall i, j | x <= i < x + r && i < |w| && 0 <= j == i - r
      ensures w[i] == w[j]
    {
      assert j + s == i + a * p;
      assert w[j] == w[j + s];
      PeriodMultiple(w, x, p, i, a);
    }
  }

  /** A period of the string that fits right of the critical position makes the maximal suffix's
      period a period of the whole string. */
  lemma ShortPeriodIsSuffixPeriod(w: seq<Byte>, x: nat, p: nat, s: nat)
    requires Critical(w, x, p)
    requires 1 <= s && x + s <= |w|
    requires Period(w, s)
    ensures Period(w, p)
  {
    assert 1 <= p && PeriodFrom(w, x, p);
    if s < p {
      NoSmallerPeriod(w, x, p, s);
    } else {
      var a: nat, r: nat := s / p, s % p;
      assert s == a * p + r;
      RemainderRepeats(w, x, p, s, r, a);
      if r != 0 {
        CriticalFactorisation(w, x, p, r);
        NoSmallerPeriod(w, x, p, r);
      } else {
        assert s == (a - 1) * p + p;
        RemainderRepeats(w, x, p, s, p, a - 1);
        CriticalFactorisation(w, x, p, p);
      }
    }
  }
}
