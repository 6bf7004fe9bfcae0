/** Byte and word scans of src/kernel/lib/string.c over a memory of whole 64-bit words.
    A pointer is an index into the memory, so its alignment is the index modulo eight. */
module CString {

  import opened Kernel
  import opened WordBits

  type Memory = m: seq<Byte> | |m| % ALIGN == 0

  /** A NUL byte follows p: the pointer designates a string. */
  ghost predicate IsString(m: Memory, p: nat) {
    exists k: nat | p <= k < |m| :: m[k] == 0
  }

  /** The address of the first byte equal to c at or after p. */
  ghost function FirstAt(m: Memory, p: nat, c: Byte): (k: nat)
    requires exists k: nat | p <= k < |m| :: m[k] == c
    ensures p <= k < |m| && m[k] == c
    ensures forall j | p <= j < k :: m[j] != c
    decreases |m| - p
  {
    if m[p] == c then p else FirstAt(m, p + 1, c)
  }

  /** The address of the terminating NUL. */
  ghost function StrEnd(m: Memory, p: nat): (k: nat)
    requires IsString(m, p)
    ensures p <= k < |m| && m[k] == 0
    ensures forall j | p <= j < k :: m[j] != 0
  {
    FirstAt(m, p, 0)
  }

  /** The string's bytes, without the NUL. */
  ghost function Str(m: Memory, p: nat): seq<Byte>
    requires IsString(m, p)
  {
    m[p..StrEnd(m, p)]
  }

  lemma StrEndUnique(m: Memory, p: nat, e: nat)
    requires p <= e < |m| && m[e] == 0
    requires forall j | p <= j < e :: m[j] != 0
    ensures IsString(m, p) && StrEnd(m, p) == e
  {
  }

  /** The n bytes at l are the n bytes at r. */
  ghost predicate Agree(m: Memory, l: nat, r: nat, n: nat) {
    && l + n <= |m|
    && r + n <= |m|
    && forall i, j | l <= i < l + n && j == i - l + r :: m[i] == m[j]
  }

  method Memcmp(m: Memory, l0: nat, r0: nat, n0: nat) returns (d: int)
    requires l0 + n0 <= |m| && r0 + n0 <= |m|
    ensures d == 0 <==> Agree(m, l0, r0, n0)
    ensures forall k: nat | k < n0 && Agree(m, l0, r0, k) && m[l0 + k] != m[r0 + k] ::
      d == m[l0 + k] as int - m[r0 + k] as int
  {
    var l: nat, r: nat, n: nat := l0, r0, n0;
    while n != 0 && m[l] == m[r]
      invariant n <= n0 && l == l0 + (n0 - n) && r == r0 + (n0 - n)
      invariant Agree(m, l0, r0, n0 - n)
    {
      n, l, r := n - 1, l + 1, r + 1;
    }
    d := if n != 0 then m[l] as int - m[r] as int else 0;
  }

  /** A scan of n bytes from s for c stays inside the memory, perhaps because it finds c in time. */
  ghost predicate InReach(m: Memory, s: nat, c: Byte, n: nat) {
    s + n <= |m| || exists k: nat | s <= k < |m| :: m[k] == c
  }

  /** The word loop of memchr: it stops at the word that holds c or when less than a word is left. */
  method SkipWords(m: Memory, s0: nat, c: Byte, n0: nat) returns (s: nat, n: nat)
    requires s0 % ALIGN == 0
    requires InReach(m, s0, c, n0)
    ensures s0 <= s && s + n == s0 + n0
    ensures forall j | s0 <= j < s :: j < |m| && m[j] != c
    ensures InReach(m, s, c, n)
  {
    s, n := s0, n0;
    var k := Spread(c);
    while n >= ALIGN
      invariant s0 <= s && s + n == s0 + n0
      invariant s % ALIGN == 0
      invariant InReach(m, s, c, n)
      invariant forall j | s0 <= j < s :: j < |m| && m[j] != c
    {
      var w := Load(m, s);
      ByteTest(w, k, m, s, c);
      if HasZero(w ^ k) != 0 {
        break;
      }
      s, n := s + ALIGN, n - ALIGN;
    }
  }

  /** The scan may be told to look further than the memory reaches, as long as the byte occurs before that. */
  method Memchr(m: Memory, src: nat, c: Byte, n0: nat) returns (r: Option<nat>)
    requires InReach(m, src, c, n0)
    ensures r.Some? ==> src <= r.value < src + n0 && r.value < |m| && m[r.value] == c
    ensures r.Some? ==> forall j | src <= j < r.value :: m[j] != c
    ensures r.None? ==> src + n0 <= |m| && forall j | src <= j < src + n0 :: m[j] != c
  {
    var s: nat, n: nat := src, n0;
    while s % ALIGN != 0 && n != 0 && m[s] != c
      invariant src <= s && s + n == src + n0
      invariant InReach(m, s, c, n)
      invariant forall j | src <= j < s :: j < |m| && m[j] != c
      decreases n
    {
      s, n := s + 1, n - 1;
    }
    if n != 0 && m[s] != c {
      s, n := SkipWords(m, s, c, n);
      while n != 0 && m[s] != c
        invariant src <= s && s + n == src + n0
        invariant InReach(m, s, c, n)
        invariant forall j | src <= j < s :: j < |m| && m[j] != c
        decreases n
      {
        s, n := s + 1, n - 1;
      }
    }
    r := if n != 0 then Some(s) else None;
  }

  /** The word loop of strlen: it stops at the word that holds the NUL at e. */
  method ZeroWord(m: Memory, s0: nat, ghost e: nat) returns (s: nat)
    requires s0 % ALIGN == 0 && s0 <= e < |m| && m[e] == 0 && forall j | s0 <= j < e :: m[j] != 0
    ensures s0 <= s <= e
  {
    s := s0;
    while true
      invariant s0 <= s <= e && s % ALIGN == 0
      decreases |m| - s
    {
      var w := Load(m, s);
      ZeroTest(w, m, s);
      if HasZero(w) != 0 {
        break;
      }
      s := s + ALIGN;
    }
  }

  method Strlen(m: Memory, a: nat) returns (len: nat)
    requires IsString(m, a)
    ensures len == |Str(m, a)|
  {
    var s: nat := a;
    while s % ALIGN != 0
      invariant a <= s <= StrEnd(m, a)
      decreases |m| - s
    {
      if m[s] == 0 {
        return s - a;
      }
      s := s + 1;
    }
    s := ZeroWord(m, s, StrEnd(m, a));
    while m[s] != 0
      invariant a <= s <= StrEnd(m, a)
      decreases |m| - s
    {
      s := s + 1;
    }
    return s - a;
  }

  /** The word loop of strchrnul: it stops at the first word that holds a NUL or c. */
  method StopWord(m: Memory, s0: nat, c: Byte, ghost e: nat) returns (s: nat)
    requires s0 % ALIGN == 0 && s0 <= e < |m| && m[e] == 0 && forall j | s0 <= j < e :: m[j] != 0
    ensures s0 <= s <= e && forall j | s0 <= j < s :: m[j] != c
  {
    s := s0;
    var k := Spread(c);
    while true
      invariant s0 <= s <= e && s % ALIGN == 0 && forall j | s0 <= j < s :: m[j] != c
      decreases |m| - s
    {
      var w := Load(m, s);
      ZeroTest(w, m, s);
      ByteTest(w, k, m, s, c);
      if HasZero(w) != 0 || HasZero(w ^ k) != 0 {
        break;
      }
      s := s + ALIGN;
    }
  }

  /** The first occurrence of c in the string, or its NUL. */
  method Strchrnul(m: Memory, p: nat, c: Byte) returns (r: nat)
    requires IsString(m, p)
    ensures p <= r <= StrEnd(m, p)
    ensures r == StrEnd(m, p) || m[r] == c
    ensures forall j | p <= j < r :: m[j] != c
  {
    var s: nat := p;
    if c == 0 {
      var len := Strlen(m, s);
      return s + len;
    }
    while s % ALIGN != 0
      invariant p <= s <= StrEnd(m, p)
      invariant forall j | p <= j < s :: m[j] != c
      decreases |m| - s
    {
      if m[s] == 0 || m[s] == c {
        return s;
      }
      s := s + 1;
    }
    s := StopWord(m, s, c, StrEnd(m, p));
    while m[s] != 0 && m[s] != c
      invariant p <= s <= StrEnd(m, p)
      invariant forall j | p <= j < s :: m[j] != c
      decreases |m| - s
    {
      s := s + 1;
    }
    return s;
  }

  /** Finds c in the string or, for c == 0, its terminator. */
  method Strchr(m: Memory, p: nat, c: Byte) returns (r: Option<nat>)
    requires IsString(m, p)
    ensures r.Some? ==> p <= r.value <= StrEnd(m, p) && m[r.value] == c && forall j | p <= j < r.value :: m[j] != c
    ensures r.None? ==> forall j | p <= j <= StrEnd(m, p) :: m[j] != c
  {
    var q := Strchrnul(m, p, c);
    r := if m[q] == c then Some(q) else None;
  }
}
