/** The two maximal-suffix loops of strstr_twoway and the factorisation they give the search. */
module MaxSuffix {

  import opened WordBits
  import opened Periodicity
  import opened CString

  /** d is a positive multiple of p. */
  ghost predicate WholePeriods(d: nat, p: nat)
    requires 1 <= p
  {
    d == p || (p < d && WholePeriods(d - p, p))
  }

  lemma {:induction false} WholePeriodsCount(d: nat, p: nat) returns (a: nat)
    requires 1 <= p && WholePeriods(d, p)
    ensures d == a * p
  {
    if d == p {
      a := 1;
    } else {
      a := WholePeriodsCount(d - p, p);
      assert (a + 1) * p == a * p + p;
      a := a + 1;
    }
  }

  /** One comparison of the scan. The suffix at x has been read as a whole number of periods, up to q,
      and k - 1 further bytes; the byte at q + k - 1 is compared with its counterpart in the first period. */
  ghost predicate Scanned(rev: bool, w: seq<Byte>, x: nat, p: nat, q: nat, k: nat) {
    && 1 <= k <= p
    && x + p <= q
    && q + k - 1 <= |w|
    && WholePeriods(q - x, p)
    && PeriodFrom(w[..q + k - 1], x, p)
    && AllBelow(rev, w, 0, x, x, |w|)
    && AllBelow(rev, w, x + 1, x + p, x, x + p)
  }

  /** Repeating the counterpart byte keeps the period. */
  lemma ExtendPeriod(w: seq<Byte>, x: nat, p: nat, q: nat, k: nat, a: nat)
    requires 1 <= k <= p && x + p <= q && q + k - 1 <= |w| && q == x + a * p
    requires PeriodFrom(w[..q + k - 1], x, p)
    ensures PeriodFrom(w[..q + k - 1] + [w[x + k - 1]], x, p)
  {
    var c: nat := q + k - 1;
    var v := w[..c] + [w[x + k - 1]];
    forall i, j | x <= i && j == i + p < |v|
      ensures v[i] == v[j]
    {
      if j < c {
        assert v[i] == w[..c][i] && v[j] == w[..c][j];
      } else {
        assert i == x + k - 1 + (a - 1) * p;
        PeriodMultiple(w[..c], x, p, x + k - 1, a - 1);
      }
    }
  }

  lemma MulMonotone(a: nat, b: nat, p: nat)
    requires a <= b
    ensures a * p <= b * p
  {
  }

  /** A whole period lies between a position before a multiple of the period and that multiple. */
  lemma MultipleBefore(p: nat, a: nat, b: nat)
    requires b * p < a * p
    ensures b * p + p <= a * p
  {
    if a <= b {
      MulMonotone(a, b, p);
    } else {
      MulMonotone(b + 1, a, p);
    }
  }

  lemma BelowAtTransitive(rev: bool, w: seq<Byte>, s: nat, t: nat, u: nat, e: nat, d: nat)
    requires BelowAt(rev, w, s, t, e)
    requires BelowAt(rev, w, t, u, d)
    ensures BelowAt(rev, w, s, u, if e < d then e else d)
  {
    var f := if e < d then e else d;
    forall i, j | s <= i < s + f && j == i - s + u
      ensures w[i] == w[j]
    {
      var g := i - s + t;
      assert w[i] == w[g] && w[g] == w[j];
    }
    assert w[s + f] == w[t + f] || f == e;
    assert w[t + f] == w[u + f] || f == d;
  }

  lemma BelowTransitive(rev: bool, w: seq<Byte>, s: nat, t: nat, u: nat, d: nat)
    requires Below(rev, w, s, t, |w|)
    requires BelowAt(rev, w, t, u, d)
    ensures Below(rev, w, s, u, |w|)
  {
    var e: nat :| s + e < |w| && BelowAt(rev, w, s, t, e);
    BelowAtTransitive(rev, w, s, t, u, e, d);
  }

  /** A smaller byte ends the period: everything read so far becomes the new period. */
  lemma SmallerByte(rev: bool, w: seq<Byte>, x: nat, p: nat, q: nat, k: nat, t: nat)
    requires Scanned(rev, w, x, p, q, k)
    requires q + k - 1 < |w| && Less(rev, w[q + k - 1], w[x + k - 1])
    requires x < t < q + k
    ensures Below(rev, w, t, x, q + k)
  {
    var c: nat := q + k - 1;
    var v, r := FoldExtended(w, x, p, q, k, t);
    if r == 0 {
      SmallerAligned(rev, w, x, v, c, t);
    } else {
      assert Below(rev, w, x + r, x, x + p);
      var e: nat :| x + r + e < x + p && BelowAt(rev, w, x + r, x, e);
      SmallerInside(rev, w, x, v, c, t, x + r, e);
    }
  }

  /** What was read, with the counterpart byte in place of the smaller one, folded into the first period. */
  lemma FoldExtended(w: seq<Byte>, x: nat, p: nat, q: nat, k: nat, t: nat) returns (v: seq<Byte>, r: nat)
    requires 1 <= k <= p && x + p <= q && q + k - 1 <= |w|
    requires WholePeriods(q - x, p)
    requires PeriodFrom(w[..q + k - 1], x, p)
    requires x <= t < q + k
    ensures v == w[..q + k - 1] + [w[x + k - 1]]
    ensures r < p && x + r <= t
    ensures forall i, j | t <= i < |v| && j == i - t + x + r :: v[i] == v[j]
  {
    var a := WholePeriodsCount(q - x, p);
    ExtendPeriod(w, x, p, q, k, a);
    v := w[..q + k - 1] + [w[x + k - 1]];
    var b: nat;
    r, b := FoldIntoPeriod(v, x, p, t);
  }

  lemma SmallerAligned(rev: bool, w: seq<Byte>, x: nat, v: seq<Byte>, c: nat, t: nat)
    requires x < t <= c < |w|
    requires |v| == c + 1 && v[..c] == w[..c] && Less(rev, w[c], v[c])
    requires forall i, j | t <= i < |v| && j == i - t + x :: v[i] == v[j]
    ensures Below(rev, w, t, x, c + 1)
  {
    var d: nat := c - t;
    forall i | 0 <= i < c
      ensures v[i] == w[i]
    {
      assert v[i] == v[..c][i];
    }
    assert v[c] == v[x + d];
    assert BelowAt(rev, w, t, x, d);
  }

  lemma SmallerInside(rev: bool, w: seq<Byte>, x: nat, v: seq<Byte>, c: nat, t: nat, u: nat, e: nat)
    requires x < u <= t <= c < |w|
    requires |v| == c + 1 && v[..c] == w[..c] && Less(rev, w[c], v[c])
    requires u + e < c && BelowAt(rev, w, u, x, e)
    requires forall i, j | t <= i < |v| && j == i - t + u :: v[i] == v[j]
    ensures Below(rev, w, t, x, c + 1)
  {
    forall i | 0 <= i < c
      ensures v[i] == w[i]
    {
      assert v[i] == v[..c][i];
    }
    if t + e < c {
      InsidePeriod(rev, w, x, c, w[..c], t, u, e);
    } else {
      var d: nat := c - t;
      assert v[c] == v[u + d];
      CutShort(rev, w, x, v, c, t, u);
    }
  }

  lemma CutShort(rev: bool, w: seq<Byte>, x: nat, v: seq<Byte>, c: nat, t: nat, u: nat)
    requires x < u <= t <= c < |w| && |v| == c + 1
    requires forall i | 0 <= i < c :: v[i] == w[i]
    requires forall i, j | t <= i < |v| && j == i - t + u :: v[i] == v[j]
    requires u + (c - t) < c && v[c] == w[u + (c - t)] && Less(rev, w[c], v[c])
    requires forall i, j | u <= i < u + (c - t) && j == i - u + x :: w[i] == w[j]
    requires w[u + (c - t)] == w[x + (c - t)] || Less(rev, w[u + (c - t)], w[x + (c - t)])
    ensures Below(rev, w, t, x, c + 1)
  {
    forall i, j | t <= i < c && j == i - t + x
      ensures w[i] == w[j]
    {
      var g := i - t + u;
      assert v[i] == v[g] && w[g] == w[j];
    }
    assert BelowAt(rev, w, t, x, c - t);
  }

  /** The suffix at x loses against the one at q, a whole number of periods later. */
  lemma HeadLoses(rev: bool, w: seq<Byte>, x: nat, p: nat, q: nat, k: nat, a: nat)
    requires 1 <= k && q == x + a * p && q + k - 1 < |w|
    requires PeriodFrom(w[..q + k - 1], x, p)
    requires Less(rev, w[x + k - 1], w[q + k - 1])
    ensures BelowAt(rev, w, x, q, k - 1)
  {
    var v := w[..q + k - 1];
    forall i, j | x <= i < x + (k - 1) && j == i - x + q
      ensures w[i] == w[j]
    {
      PeriodMultiple(v, x, p, i, a);
      assert v[i] == v[j];
    }
  }

  /** A larger byte makes the suffix at q win over every earlier one. */
  lemma LargerByte(rev: bool, w: seq<Byte>, x: nat, p: nat, q: nat, k: nat, t: nat)
    requires Scanned(rev, w, x, p, q, k)
    requires q + k - 1 < |w| && Less(rev, w[x + k - 1], w[q + k - 1])
    requires t < q
    ensures Below(rev, w, t, q, |w|)
  {
    var a := WholePeriodsCount(q - x, p);
    HeadLoses(rev, w, x, p, q, k, a);
    if t < x {
      assert Below(rev, w, t, x, |w|);
      BelowTransitive(rev, w, t, x, q, k - 1);
    } else if x < t {
      LargerLater(rev, w, x, p, q, k - 1, t, a);
    }
  }

  lemma LargerLater(rev: bool, w: seq<Byte>, x: nat, p: nat, q: nat, d: nat, t: nat, a: nat)
    requires 1 <= p && q == x + a * p && q + d < |w|
    requires PeriodFrom(w[..q + d], x, p)
    requires AllBelow(rev, w, x + 1, x + p, x, x + p)
    requires BelowAt(rev, w, x, q, d)
    requires x < t < q
    ensures Below(rev, w, t, q, |w|)
  {
    var v := w[..q + d];
    var r, b := FoldIntoPeriod(v, x, p, t);
    if r == 0 {
      LargerAligned(rev, w, x, q, d, v, t);
    } else {
      var e := LargerOffset(rev, w, x, p, q, t, a, r, b);
      InsidePeriod(rev, w, x, q, v, t, x + r, e);
      BelowTransitive(rev, w, t, x, q, d);
    }
  }

  lemma LargerOffset(rev: bool, w: seq<Byte>, x: nat, p: nat, q: nat, t: nat, a: nat, r: nat, b: nat) returns (e: nat)
    requires 1 <= r < p && q == x + a * p && t == x + r + b * p && t < q
    requires AllBelow(rev, w, x + 1, x + p, x, x + p)
    ensures t + e < q && BelowAt(rev, w, x + r, x, e)
  {
    assert Below(rev, w, x + r, x, x + p);
    e :| x + r + e < x + p && BelowAt(rev, w, x + r, x, e);
    MultipleBefore(p, a, b);
  }

  lemma LargerAligned(rev: bool, w: seq<Byte>, x: nat, q: nat, d: nat, v: seq<Byte>, t: nat)
    requires x < t < q && q + d < |w|
    requires v == w[..q + d]
    requires BelowAt(rev, w, x, q, d)
    requires forall i, j | t <= i < |v| && j == i - t + x :: v[i] == v[j]
    ensures Below(rev, w, t, q, |w|)
  {
    forall i, j | t <= i < t + d && j == i - t + q
      ensures w[i] == w[j]
    {
      var g := i - t + x;
      assert v[i] == v[g] && w[g] == w[j];
    }
    assert v[t + d] == v[x + d];
    assert BelowAt(rev, w, t, q, d);
  }

  /** A later position inside the period loses by the same byte as its counterpart in the first period. */
  lemma InsidePeriod(rev: bool, w: seq<Byte>, x: nat, q: nat, v: seq<Byte>, t: nat, u: nat, e: nat)
    requires x < u <= t && t + e < q <= |v| <= |w|
    requires v == w[..|v|]
    requires BelowAt(rev, w, u, x, e)
    requires forall i, j | t <= i < |v| && j == i - t + u :: v[i] == v[j]
    ensures BelowAt(rev, w, t, x, e)
  {
    forall i, j | t <= i < t + e && j == i - t + x
      ensures w[i] == w[j]
    {
      var g := i - t + u;
      assert v[i] == v[g] && w[g] == w[j];
    }
    assert v[t + e] == v[u + e];
  }

  /** The same in terms of the source's variables: the suffix starts after ip, and jp ends its whole periods. */
  ghost predicate ScanState(rev: bool, w: seq<Byte>, ip: int, jp: nat, k: nat, p: nat) {
    -1 <= ip && Scanned(rev, w, ip + 1, p, jp + 1, k)
  }

  lemma ScanEqual(rev: bool, w: seq<Byte>, ip: int, jp: nat, k: nat, p: nat)
    requires ScanState(rev, w, ip, jp, k, p)
    requires jp + k < |w| && w[jp + k] == w[ip + k]
    ensures if k == p then ScanState(rev, w, ip, jp + p, 1, p) else ScanState(rev, w, ip, jp, k + 1, p)
  {
    var x: nat, q: nat := ip + 1, jp + 1;
    var a := WholePeriodsCount(q - x, p);
    ExtendPeriod(w, x, p, q, k, a);
    assert w[..q + k] == w[..q + k - 1] + [w[x + k - 1]];
  }

  lemma ScanSmaller(rev: bool, w: seq<Byte>, ip: int, jp: nat, k: nat, p: nat)
    requires ScanState(rev, w, ip, jp, k, p)
    requires jp + k < |w| && Less(rev, w[jp + k], w[ip + k])
    ensures ScanState(rev, w, ip, jp + k, 1, jp + k - ip)
  {
    var x: nat, bound: nat := ip + 1, jp + 1 + k;
    forall t: nat | x + 1 <= t < bound
      ensures Below(rev, w, t, x, bound)
    {
      SmallerByte(rev, w, x, p, jp + 1, k, t);
    }
    assert x + (jp + k - ip) == bound;
  }

  lemma ScanLarger(rev: bool, w: seq<Byte>, ip: int, jp: nat, k: nat, p: nat)
    requires ScanState(rev, w, ip, jp, k, p)
    requires jp + k < |w| && Less(rev, w[ip + k], w[jp + k])
    ensures ScanState(rev, w, jp, jp + 1, 1, 1)
  {
    var q: nat := jp + 1;
    forall t: nat | t < q
      ensures Below(rev, w, t, q, |w|)
    {
      LargerByte(rev, w, ip + 1, p, q, k, t);
    }
  }

  /** The maximal-suffix loop; rev selects the second loop, with the opposite comparison.
      The source starts ip at (size_t)-1, so ip + 1 is where the suffix starts. */
  method MaximalSuffixScan(m: Memory, n: nat, l: nat, rev: bool) returns (ip: int, p: nat)
    requires 1 <= l && n + l <= |m|
    ensures -1 <= ip && MaximalSuffix(rev, m[n..n + l], ip + 1, p)
  {
    var jp: nat, k: nat;
    ip, jp, k, p := -1, 0, 1, 1;
    ghost var w := m[n..n + l];
    while jp + k < l
      invariant -1 <= ip < jp && 1 <= k <= p
      invariant ScanState(rev, w, ip, jp, k, p)
      decreases l - ip, l - (jp + k)
    {
      var a, b := m[n + ip + k], m[n + jp + k];
      assert a == w[ip + k] && b == w[jp + k];
      if a == b {
        ScanEqual(rev, w, ip, jp, k, p);
        if k == p {
          jp, k := jp + p, 1;
        } else {
          k := k + 1;
        }
      } else if Less(rev, b, a) {
        ScanSmaller(rev, w, ip, jp, k, p);
        jp, k := jp + k, 1;
        p := jp - ip;
      } else {
        ScanLarger(rev, w, ip, jp, k, p);
        ip, jp := jp, jp + 1;
        k, p := 1, 1;
      }
    }
  }

  /** What the search relies on: x is a critical position, p a safe shift once the right part has
      matched, and mem0 the length known to match after such a shift of a periodic needle. */
  ghost predicate SearchPlan(w: seq<Byte>, x: nat, p: nat, mem0: nat) {
    && x < |w|
    && 1 <= p <= |w|
    && (forall s: nat | 1 <= s && Repetition(w, x, s) :: Period(w, s) && p <= s)
    && (mem0 != 0 ==> Period(w, p) && mem0 == |w| - p && x < p)
  }

  /** A needle whose left part repeats one suffix period later has that period everywhere. */
  lemma PeriodicPlan(w: seq<Byte>, x: nat, p: nat)
    requires Critical(w, x, p)
    requires x + p <= |w|
    requires forall i, j | 0 <= i < x && j == i + p :: w[i] == w[j]
    ensures SearchPlan(w, x, p, |w| - p)
  {
    assert PeriodFrom(w, x, p);
    assert Period(w, p);
    assert Repetition(w, x, p);
    CriticalFactorisation(w, x, p, p);
    forall s: nat | 1 <= s && Repetition(w, x, s)
      ensures Period(w, s) && p <= s
    {
      CriticalFactorisation(w, x, p, s);
      if s < p {
        NoSmallerPeriod(w, x, p, s);
      }
    }
  }

  /** Otherwise every period of the needle is longer than both of its parts. */
  lemma AperiodicPlan(w: seq<Byte>, x: nat, p: nat, q: nat)
    requires Critical(w, x, p)
    requires x + p <= |w|
    requires !forall i, j | 0 <= i < x && j == i + p :: w[i] == w[j]
    requires q <= x || q <= |w| - x + 1
    requires 1 <= q <= |w|
    ensures SearchPlan(w, x, q, 0)
  {
    forall s: nat | 1 <= s && Repetition(w, x, s)
      ensures Period(w, s) && q <= s
    {
      CriticalFactorisation(w, x, p, s);
      if x + s <= |w| {
        ShortPeriodIsSuffixPeriod(w, x, p, s);
      }
    }
  }

  /** The later of the two maximal suffixes starts at a critical position. */
  method CriticalPosition(m: Memory, n: nat, l: nat) returns (ms: int, p: nat)
    requires 1 <= l && n + l <= |m|
    ensures -1 <= ms && ms + 1 + p <= l && Critical(m[n..n + l], ms + 1, p)
  {
    var p0: nat, ip: int;
    ms, p0 := MaximalSuffixScan(m, n, l, false);
    ip, p := MaximalSuffixScan(m, n, l, true);
    if ip + 1 > ms + 1 {
      ms := ip;
    } else {
      p := p0;
    }
  }

  lemma LeftPartRepeats(m: Memory, n: nat, l: nat, x: nat, p: nat)
    requires x + p <= l && n + l <= |m|
    ensures var w := m[n..n + l];
      Agree(m, n, n + p, x) <==> forall i, j | 0 <= i < x && j == i + p :: w[i] == w[j]
  {
    var w := m[n..n + l];
    if Agree(m, n, n + p, x) {
      forall i, j | 0 <= i < x && j == i + p
        ensures w[i] == w[j]
      {
        assert m[n + i] == m[n + p + i];
      }
    } else {
      var i, j :| n <= i < n + x && j == i - n + (n + p) && m[i] != m[j];
      assert w[i - n] != w[j - n];
    }
  }

  /** The critical position, the shift and the memory length that strstr_twoway derives from the needle. */
  method Factorise(m: Memory, n: nat, l: nat) returns (ms: int, p: nat, mem0: nat)
    requires 1 <= l && n + l <= |m|
    ensures -1 <= ms && SearchPlan(m[n..n + l], ms + 1, p, mem0)
  {
    ghost var w := m[n..n + l];
    ms, p := CriticalPosition(m, n, l);
    ghost var x: nat := ms + 1;
    var d := Memcmp(m, n, n + p, ms + 1);
    LeftPartRepeats(m, n, l, x, p);
    if d != 0 {
      ghost var q := p;
      mem0, p := 0, (if ms > l - ms - 1 then ms else l - ms - 1) + 1;
      AperiodicPlan(w, x, q, p);
    } else {
      PeriodicPlan(w, x, p);
      mem0 := l - p;
    }
  }
}
