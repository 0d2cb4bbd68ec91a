/**
 * Substring search with a rolling hash (bytes/bytes.go).
 *
 * The hash of a window is the value of its bytes as digits in base primeRK, modulo 2^32:
 * Digits for the search from the left, DigitsRev for the search from the right.  The step from
 * one window to the next is exact on the unreduced values (Roll, RollBack), and 32-bit
 * arithmetic commutes with the reduction (Rolled, RolledBack).
 *
 * A match needs equal hashes, so comparing the bytes only then misses nothing: the results are
 * the least and the greatest match position.
 *
 * Everything the architecture chooses, from the length limits to how long the byte scan goes
 * on, is a parameter.
 */
module Search {
  import opened Prelude

  const PRIME_RK := 16777619
  const M := 0x1_0000_0000

  type uint32 = x: int | 0 <= x < 0x1_0000_0000

  function Add(a: uint32, b: uint32): uint32 { (a + b) % M }

  function Sub(a: uint32, b: uint32): uint32 { (a - b) % M }

  function Mul(a: uint32, b: uint32): uint32 { (a * b) % M }

  // ------------------------------------------------------------- what is sought

  predicate MatchAt(s: seq<byte>, sep: seq<byte>, i: int) {
    0 <= i <= |s| - |sep| && s[i..i + |sep|] == sep
  }

  /** `r` is the least match position, or -1 when there is none. */
  ghost predicate IsFirst(s: seq<byte>, sep: seq<byte>, r: int) {
    && (r >= 0 ==> MatchAt(s, sep, r)) && r >= -1
    && (forall j :: 0 <= j && (r == -1 || j < r) ==> !MatchAt(s, sep, j))
  }

  /** `r` is the greatest match position, or -1 when there is none. */
  ghost predicate IsLast(s: seq<byte>, sep: seq<byte>, r: int) {
    && (r >= 0 ==> MatchAt(s, sep, r)) && r >= -1
    && (forall j :: j > r ==> !MatchAt(s, sep, j))
  }

  // ---------------------------------------------------------- modular arithmetic

  lemma MulMod(x: int, y: int)
    ensures (x % M) * y % M == x * y % M
  {
    var q, r := x / M, x % M;
    assert x * y == (q * y) * M + r * y;
  }

  lemma MulMod2(x: int, y: int)
    ensures (x % M) * (y % M) % M == x * y % M
  {
    MulMod(x, y % M);
    MulMod(y, x);
    assert x * (y % M) == (y % M) * x && y * x == x * y;
  }

  /** One step of the rolling hash modulo 2^32. */
  lemma RollMod(h: int, c: int, pow: int, d: int)
    ensures (((h % M) * PRIME_RK % M + c) % M - (pow % M) * d % M) % M == (h * PRIME_RK + c - pow * d) % M
  {
    MulMod(h, PRIME_RK);
    MulMod(pow, d);
    SumMod(h * PRIME_RK, c, pow * d);
  }

  lemma SumMod(a: int, c: int, b: int)
    ensures ((a % M + c) % M - b % M) % M == (a + c - b) % M
  {
  }

  function Pow(b: int, e: nat): int {
    if e == 0 then 1 else b * Pow(b, e - 1)
  }

  lemma {:induction false} PowSquare(b: int, e: nat)
    ensures Pow(b * b, e) == Pow(b, 2 * e)
  {
    if e > 0 {
      PowSquare(b, e - 1);
      assert Pow(b, 2 * e) == b * (b * Pow(b, 2 * e - 2));
      Assoc(b, Pow(b, 2 * e - 2));
    }
  }

  lemma Assoc(b: int, x: int)
    ensures b * (b * x) == (b * b) * x
  {
  }

  lemma Congruent(x: int, y: int, p: int, q: int)
    requires x % M == y % M && p % M == q % M
    ensures x * p % M == y * q % M
  {
    MulMod2(x, p);
    MulMod2(y, q);
  }

  lemma {:induction false} PowMod(b: int, e: nat)
    ensures Pow(b % M, e) % M == Pow(b, e) % M
  {
    if e > 0 {
      PowMod(b, e - 1);
      Congruent(b % M, b, Pow(b % M, e - 1), Pow(b, e - 1));
    }
  }

  // ------------------------------------------------------------------- hashes

  /** The hash of a window before reduction: its bytes as digits in base PRIME_RK. */
  function Digits(p: seq<byte>): int {
    if p == [] then 0 else Digits(p[..|p| - 1]) * PRIME_RK + p[|p| - 1]
  }

  /** The same with the last byte as the most significant digit. */
  function DigitsRev(p: seq<byte>): int {
    if p == [] then 0 else DigitsRev(p[1..]) * PRIME_RK + p[0]
  }

  lemma {:induction false} DropFirst(p: seq<byte>)
    requires p != []
    ensures Digits(p) == Pow(PRIME_RK, |p| - 1) * p[0] + Digits(p[1..])
  {
    if |p| > 1 {
      var front := p[..|p| - 1];
      DropFirst(front);
      assert p[1..][..|p| - 2] == front[1..];
      Distribute(Pow(PRIME_RK, |p| - 2), p[0], Digits(front[1..]));
    }
  }

  lemma {:induction false} DropLast(p: seq<byte>)
    requires p != []
    ensures DigitsRev(p) == Pow(PRIME_RK, |p| - 1) * p[|p| - 1] + DigitsRev(p[..|p| - 1])
  {
    if |p| > 1 {
      var back := p[1..];
      DropLast(back);
      assert p[..|p| - 1][1..] == back[..|p| - 2];
      Distribute(Pow(PRIME_RK, |p| - 2), p[|p| - 1], DigitsRev(back[..|p| - 2]));
    }
  }

  lemma Distribute(w: int, c: int, d: int)
    ensures (w * c + d) * PRIME_RK == (PRIME_RK * w) * c + d * PRIME_RK
  {
    assert w * c * PRIME_RK == PRIME_RK * w * c;
  }

  /** Moving the window one byte to the right. */
  lemma Roll(s: seq<byte>, i: nat, n: nat)
    requires 0 < n && i + n < |s|
    ensures Digits(s[i + 1..i + 1 + n]) == Digits(s[i..i + n]) * PRIME_RK + s[i + n] - Pow(PRIME_RK, n) * s[i]
  {
    var wide := s[i..i + n + 1];
    assert wide[..n] == s[i..i + n] && wide[1..] == s[i + 1..i + 1 + n];
    DropFirst(wide);
  }

  /** Moving the window one byte to the left. */
  lemma RollBack(s: seq<byte>, i: nat, n: nat)
    requires 0 < n && i + n < |s|
    ensures DigitsRev(s[i..i + n]) == DigitsRev(s[i + 1..i + 1 + n]) * PRIME_RK + s[i] - Pow(PRIME_RK, n) * s[i + n]
  {
    var wide := s[i..i + n + 1];
    assert wide[..n] == s[i..i + n] && wide[1..] == s[i + 1..i + 1 + n];
    DropLast(wide);
  }

  /** The rolling hash is the window's hash modulo 2^32, in either direction. */
  lemma Rolled(s: seq<byte>, i: nat, n: nat)
    requires 0 < n && i + n < |s|
    ensures Sub(Add(Mul(Digits(s[i..i + n]) % M, PRIME_RK), s[i + n]), Mul(Pow(PRIME_RK, n) % M, s[i])) ==
            Digits(s[i + 1..i + 1 + n]) % M
  {
    Roll(s, i, n);
    RollMod(Digits(s[i..i + n]), s[i + n], Pow(PRIME_RK, n), s[i]);
  }

  lemma RolledBack(s: seq<byte>, i: nat, n: nat)
    requires 0 < n && i + n < |s|
    ensures Sub(Add(Mul(DigitsRev(s[i + 1..i + 1 + n]) % M, PRIME_RK), s[i]), Mul(Pow(PRIME_RK, n) % M, s[i + n])) ==
            DigitsRev(s[i..i + n]) % M
  {
    RollBack(s, i, n);
    RollMod(DigitsRev(s[i + 1..i + 1 + n]), s[i], Pow(PRIME_RK, n), s[i + n]);
  }

  /** Appending a byte to the hashed window, modulo 2^32. */
  lemma HashStep(p: seq<byte>, c: byte)
    ensures Add(Mul(Digits(p) % M, PRIME_RK), c) == Digits(p + [c]) % M
  {
    assert (p + [c])[..|p|] == p;
    MulMod(Digits(p), PRIME_RK);
    SumMod(Digits(p) * PRIME_RK, c, 0);
  }

  /** The repeated squaring that hashStr and hashStrRev share. */
  method Power(n: nat) returns (pow: uint32)
    ensures pow == Pow(PRIME_RK, n) % M
  {
    pow := 1;
    var sq: uint32 := PRIME_RK;
    var i := n;
    assert Pow(sq, n) * 1 == Pow(sq, n);
    while i > 0
      invariant pow * Pow(sq, i) % M == Pow(PRIME_RK, n) % M
    {
      PowerStep(pow, sq, i / 2, i % 2 != 0);
      if i % 2 != 0 {
        pow := Mul(pow, sq);
      }
      sq := Mul(sq, sq);
      i := i / 2;
    }
  }

  lemma PowerStep(pow: uint32, sq: uint32, half: nat, odd: bool)
    ensures (if odd then Mul(pow, sq) else pow) * Pow(Mul(sq, sq), half) % M ==
            pow * Pow(sq, 2 * half + if odd then 1 else 0) % M
  {
    PowSquare(sq, half);
    PowMod(sq * sq, half);
    var p, even := Pow(Mul(sq, sq), half), Pow(sq, 2 * half);
    if odd {
      OddStep(pow, sq, p, even);
    } else {
      EvenStep(pow, p, even);
    }
  }

  lemma EvenStep(pow: int, p: int, even: int)
    requires p % M == even % M
    ensures pow * p % M == pow * even % M
  {
    MulMod2(pow, p);
    MulMod2(pow, even);
  }

  lemma OddStep(pow: int, sq: int, p: int, even: int)
    requires p % M == even % M
    ensures (pow * sq % M) * p % M == pow * (sq * even) % M
  {
    MulMod(pow * sq, p);
    EvenStep(pow * sq, p, even);
    assert pow * sq * even == pow * (sq * even);
  }

  method HashStr(sep: seq<byte>) returns (hash: uint32, pow: uint32)
    ensures hash == Digits(sep) % M && pow == Pow(PRIME_RK, |sep|) % M
  {
    hash := HashOf(sep, 0, |sep|);
    assert sep[0..|sep|] == sep;
    pow := Power(|sep|);
  }

  method HashOf(s: seq<byte>, lo: nat, hi: nat) returns (hash: uint32)
    requires lo <= hi <= |s|
    ensures hash == Digits(s[lo..hi]) % M
  {
    hash := 0;
    for i := lo to hi
      invariant hash == Digits(s[lo..i]) % M
    {
      HashStep(s[lo..i], s[i]);
      assert s[lo..i + 1] == s[lo..i] + [s[i]];
      hash := Add(Mul(hash, PRIME_RK), s[i]);
    }
  }

  method IndexRabinKarp(s: seq<byte>, sep: seq<byte>) returns (r: int)
    requires 0 < |sep| <= |s|
    ensures IsFirst(s, sep, r)
  {
    var hashsep, pow := HashStr(sep);
    var n := |sep|;
    var h := HashOf(s, 0, n);
    if h == hashsep && s[..n] == sep {
      return 0;
    }
    assert !MatchAt(s, sep, 0) by {
      assert s[0..n] == s[..n];
    }
    var i := n;
    while i < |s|
      invariant n <= i <= |s| && h == Digits(s[i - n..i]) % M
      invariant forall j :: 0 <= j <= i - n ==> !MatchAt(s, sep, j)
    {
      Rolled(s, i - n, n);
      h := Sub(Add(Mul(h, PRIME_RK), s[i]), Mul(pow, s[i - n]));
      i := i + 1;
      if h == hashsep && s[i - n..i] == sep {
        return i - n;
      }
    }
    return -1;
  }

  // ------------------------------------------------------------ IndexByte, Index

  method IndexByte(s: seq<byte>, from: nat, to: nat, c: byte) returns (r: int)
    requires from <= to <= |s|
    ensures r == -1 || (from <= r < to && s[r] == c)
    ensures forall j :: from <= j < (if r == -1 then to else r) ==> s[j] != c
  {
    r := from;
    while r < to
      invariant from <= r <= to && (forall j :: from <= j < r ==> s[j] != c)
    {
      if s[r] == c {
        return;
      }
      r := r + 1;
    }
    return -1;
  }

  /** bytealg.Index, the assembly search, by its specification: the first match from `from` on. */
  method BruteIndex(s: seq<byte>, sep: seq<byte>, from: nat) returns (r: int)
    requires from <= |s|
    ensures r == -1 || (from <= r && MatchAt(s, sep, r))
    ensures forall j :: from <= j && (r == -1 || j < r) ==> !MatchAt(s, sep, j)
  {
    r := from;
    while r <= |s| - |sep|
      invariant from <= r && (forall j :: from <= j < r ==> !MatchAt(s, sep, j))
    {
      if s[r..r + |sep|] == sep {
        return;
      }
      r := r + 1;
    }
    return -1;
  }

  /** A match starts with the first byte of sep. */
  lemma FirstByte(s: seq<byte>, sep: seq<byte>, i: int)
    requires MatchAt(s, sep, i) && sep != []
    ensures s[i] == sep[0] && (|sep| > 1 ==> s[i + 1] == sep[1])
  {
    assert s[i] == s[i..i + |sep|][0];
    assert |sep| > 1 ==> s[i + 1] == s[i..i + |sep|][1];
  }

  /** A match of the suffix s[i..] is a match of s. */
  lemma MatchInSuffix(s: seq<byte>, sep: seq<byte>, i: nat, j: nat)
    requires i <= |s|
    ensures MatchAt(s[i..], sep, j) <==> MatchAt(s, sep, i + j)
  {
    if j + |sep| <= |s| - i {
      assert s[i..][j..j + |sep|] == s[i + j..i + j + |sep|];
    }
  }

  /** bytes of s[i..t] that differ from sep[0] start no match. */
  lemma NoStart(s: seq<byte>, sep: seq<byte>, lo: nat, hi: nat)
    requires sep != [] && hi <= |s| && (forall j :: lo <= j < hi ==> s[j] != sep[0])
    ensures forall j :: lo <= j < hi ==> !MatchAt(s, sep, j)
  {
    forall j | lo <= j < hi ensures !MatchAt(s, sep, j) {
      if MatchAt(s, sep, j) {
        FirstByte(s, sep, j);
      }
    }
  }

  lemma NotHere(s: seq<byte>, sep: seq<byte>, i: nat)
    requires 2 <= |sep| && i + |sep| <= |s| && !(s[i + 1] == sep[1] && s[i..i + |sep|] == sep)
    ensures !MatchAt(s, sep, i)
  {
    assert s[i..i + |sep|][1] == s[i + 1];
  }

  /**
   The scan that Index does before it gives up on IndexByte: look for the first byte of sep,
   then compare, until `patience(i, fails)` runs out.  Ends with -2 and the position reached
   when it gives up, otherwise with the answer.
   */
  method ScanFirst(s: seq<byte>, sep: seq<byte>, patience: (nat, nat) -> bool) returns (r: int, i: nat)
    requires 2 <= |sep| <= |s|
    ensures r >= -2 && i <= |s| && (r != -2 ==> IsFirst(s, sep, r))
    ensures r == -2 ==> i <= |s| - |sep| + 1 && forall j :: 0 <= j < i ==> !MatchAt(s, sep, j)
  {
    var c0, c1, n := sep[0], sep[1], |sep|;
    var t := |s| - n + 1;
    var fails: nat := 0;
    i := 0;
    while i < t
      invariant i <= t && (forall j :: 0 <= j < i ==> !MatchAt(s, sep, j))
      decreases t - i
    {
      if s[i] != c0 {
        var o := IndexByte(s, i, t, c0);
        NoStart(s, sep, i, if o < 0 then t else o);
        if o < 0 {
          return -1, i;
        }
        i := o;
      }
      if s[i + 1] == c1 && s[i..i + n] == sep {
        return i, i;
      }
      NotHere(s, sep, i);
      i := i + 1;
      fails := fails + 1;
      if !patience(i, fails) {
        return -2, i;
      }
    }
    return -1, i;
  }

  /**
   Index.  `maxLen`, `maxBrute` and `cutover` are the architecture's bytealg.MaxLen,
   bytealg.MaxBruteForce and bytealg.Cutover.
   */
  method Index(s: seq<byte>, sep: seq<byte>, maxLen: nat, maxBrute: nat, cutover: nat -> nat) returns (r: int)
    ensures IsFirst(s, sep, r)
  {
    var n := |sep|;
    if n == 0 {
      return 0;
    } else if n == 1 {
      r := IndexByte(s, 0, |s|, sep[0]);
      NoStart(s, sep, 0, if r < 0 then |s| else r);
      assert r >= 0 ==> s[r..r + 1] == sep;
      return;
    } else if n == |s| {
      assert s[0..n] == s;
      return if sep == s then 0 else -1;
    } else if n > |s| {
      return -1;
    }
    var i;
    if n <= maxLen {
      if |s| <= maxBrute {
        r := BruteIndex(s, sep, 0);
        return;
      }
      r, i := ScanFirst(s, sep, (i: nat, fails: nat) => fails <= cutover(i));
      if r == -2 {
        r := BruteIndex(s, sep, i);
      }
      return;
    }
    r, i := ScanFirst(s, sep, (i: nat, fails: nat) => !(fails >= 4 + i / 16 && i < |s| - n + 1));
    if r == -2 {
      assert i <= |s| - n + 1;
      if i == |s| - n + 1 {
        return -1;
      }
      r := IndexRabinKarp(s[i..], sep);
      SuffixFirst(s, sep, i, r);
      r := if r < 0 then -1 else i + r;
    }
  }

  lemma SuffixFirst(s: seq<byte>, sep: seq<byte>, i: nat, r: int)
    requires i <= |s| && IsFirst(s[i..], sep, r) && (forall j :: 0 <= j < i ==> !MatchAt(s, sep, j))
    ensures IsFirst(s, sep, if r < 0 then -1 else i + r)
  {
    forall j: nat | i <= j && (r == -1 || j < i + r) ensures !MatchAt(s, sep, j) {
      MatchInSuffix(s, sep, i, j - i);
    }
    if r >= 0 {
      MatchInSuffix(s, sep, i, r);
    }
  }

  // ------------------------------------------------------------------ LastIndex

  method HashStrRev(s: seq<byte>, lo: nat, hi: nat) returns (hash: uint32)
    requires lo <= hi <= |s|
    ensures hash == DigitsRev(s[lo..hi]) % M
  {
    hash := 0;
    var i := hi;
    while i > lo
      invariant lo <= i <= hi && hash == DigitsRev(s[i..hi]) % M
    {
      i := i - 1;
      assert s[i..hi][1..] == s[i + 1..hi];
      MulMod(DigitsRev(s[i + 1..hi]), PRIME_RK);
      SumMod(DigitsRev(s[i + 1..hi]) * PRIME_RK, s[i], 0);
      hash := Add(Mul(hash, PRIME_RK), s[i]);
    }
  }

  method LastIndex(s: seq<byte>, sep: seq<byte>) returns (r: int)
    ensures IsLast(s, sep, r)
  {
    var n := |sep|;
    if n == 0 {
      return |s|;
    } else if n == 1 {
      r := LastIndexByte(s, sep[0]);
      NoStart(s, sep, r + 1, |s|);
      assert r >= 0 ==> s[r..r + 1] == sep;
      return;
    } else if n == |s| {
      assert s[0..n] == s;
      return if s == sep then 0 else -1;
    } else if n > |s| {
      return -1;
    }
    r := LastRabinKarp(s, sep);
  }

  /** The rolling-hash part of LastIndex. */
  method LastRabinKarp(s: seq<byte>, sep: seq<byte>) returns (r: int)
    requires 0 < |sep| < |s|
    ensures IsLast(s, sep, r)
  {
    var n := |sep|;
    var hashss := HashStrRev(sep, 0, n);
    assert sep[0..n] == sep;
    var pow := Power(n);
    var last := |s| - n;
    var h := HashStrRev(s, last, |s|);
    assert s[last..last + n] == s[last..];
    if h == hashss && s[last..] == sep {
      return last;
    }
    var i := last;
    while i > 0
      invariant 0 <= i <= last && h == DigitsRev(s[i..i + n]) % M
      invariant forall j :: i <= j ==> !MatchAt(s, sep, j)
    {
      i := i - 1;
      h := RollDown(s, i, n, pow, h);
      if h == hashss && s[i..i + n] == sep {
        return i;
      }
    }
    return -1;
  }

  /** One step of the hash to the left. */
  method RollDown(s: seq<byte>, i: nat, n: nat, pow: uint32, h: uint32) returns (h': uint32)
    requires 0 < n && i + n < |s| && pow == Pow(PRIME_RK, n) % M && h == DigitsRev(s[i + 1..i + 1 + n]) % M
    ensures h' == DigitsRev(s[i..i + n]) % M
  {
    RolledBack(s, i, n);
    h' := Sub(Add(Mul(h, PRIME_RK), s[i]), Mul(pow, s[i + n]));
  }

  method LastIndexByte(s: seq<byte>, c: byte) returns (r: int)
    ensures -1 <= r < |s| && (r >= 0 ==> s[r] == c) && (forall j :: r < j < |s| ==> s[j] != c)
  {
    r := |s| - 1;
    while r >= 0
      invariant -1 <= r < |s| && (forall j :: r < j < |s| ==> s[j] != c)
    {
      if s[r] == c {
        return;
      }
      r := r - 1;
    }
  }
}
