/** The UTF-8 codec, sections 3 and 4 of RFC 3629, with Go's treatment of ill-formed input. */
module Utf8 {
  import opened Prelude

  const RUNE_ERROR := 0xFFFD
  const RUNE_SELF := 0x80
  const UTF_MAX := 4

  type rune = r: int | 0 <= r <= 0x10FFFF

  /** How many bytes a sequence starting with `b` has; 1 for a byte that starts none. */
  function Need(b: byte): (n: nat)
    ensures 1 <= n <= 4
  {
    if 0xC2 <= b <= 0xDF then 2 else if 0xE0 <= b <= 0xEF then 3 else if 0xF0 <= b <= 0xF4 then 4 else 1
  }

  predicate Continues(b: byte) {
    0x80 <= b <= 0xBF
  }

  /** Whether `c` may follow `b` as the second byte. */
  predicate Accepts(b: byte, c: byte) {
    && Continues(c)
    && (b == 0xE0 ==> 0xA0 <= c) && (b == 0xED ==> c <= 0x9F) && (b == 0xF0 ==> 0x90 <= c) && (b == 0xF4 ==> c <= 0x8F)
  }

  predicate FullRune(p: seq<byte>) {
    p != [] && (
      || |p| >= Need(p[0])
      || (|p| > 1 && !Accepts(p[0], p[1]))
      || (|p| > 2 && !Continues(p[2])))
  }

  /** Six more bits, from a continuation byte. */
  function Join(high: int, c: int): int {
    high * 64 + (c - 0x80)
  }

  /** The first rune of `p` and its width; RUNE_ERROR and 1 when `p` starts with no well-formed rune. */
  function DecodeRune(p: seq<byte>): (r: (rune, nat))
    ensures p == [] <==> r.1 == 0
    ensures r.1 <= |p| && r.1 <= UTF_MAX
    ensures r.1 > 1 ==> r.1 == Need(p[0])
  {
    if p == [] then (RUNE_ERROR, 0)
    else if p[0] < RUNE_SELF then (p[0], 1)
    else
      var n := Need(p[0]);
      if n == 1 || |p| < n || !Accepts(p[0], p[1]) then (RUNE_ERROR, 1)
      else if n == 2 then (Join(p[0] - 0xC0, p[1]), 2)
      else if !Continues(p[2]) then (RUNE_ERROR, 1)
      else if n == 3 then (Join(Join(p[0] - 0xE0, p[1]), p[2]), 3)
      else if !Continues(p[3]) then (RUNE_ERROR, 1)
      else (Join(Join(Join(p[0] - 0xF0, p[1]), p[2]), p[3]), 4)
  }

  predicate Surrogate(r: int) {
    0xD800 <= r <= 0xDFFF
  }

  /** EncodeRune: anything that is no code point is written as U+FFFD. */
  function EncodeRune(r: int): (p: seq<byte>)
    ensures 1 <= |p| <= UTF_MAX
  {
    if 0 <= r <= 0x7F then [r]
    else if 0 <= r <= 0x7FF then [0xC0 + r / 64, 0x80 + r % 64]
    else if r < 0 || r > 0x10FFFF || Surrogate(r) then [0xEF, 0xBF, 0xBD]
    else if r <= 0xFFFF then [0xE0 + r / 64 / 64, 0x80 + r / 64 % 64, 0x80 + r % 64]
    else [0xF0 + r / 64 / 64 / 64, 0x80 + r / 64 / 64 % 64, 0x80 + r / 64 % 64, 0x80 + r % 64]
  }

  /** RuneLen, -1 for what cannot be encoded. */
  function RuneLen(r: int): int {
    if r < 0 || r > 0x10FFFF || Surrogate(r) then -1 else |EncodeRune(r)|
  }

  /** Decoding undoes encoding, whatever follows. */
  lemma EncodeDecode(r: rune, tail: seq<byte>)
    requires !Surrogate(r)
    ensures DecodeRune(EncodeRune(r) + tail) == (r, |EncodeRune(r)|)
  {
    var p, q := EncodeRune(r) + tail, r / 64;
    assert r == Join(q, 0x80 + r % 64) && q == Join(q / 64, 0x80 + q % 64);
    assert q / 64 == Join(q / 64 / 64, 0x80 + q / 64 % 64);
    assert p[0] == EncodeRune(r)[0];
    if 0x80 <= r < 0x800 {
      assert p[1] == 0x80 + r % 64;
    } else if 0x800 <= r < 0x10000 {
      assert p[1] == 0x80 + q % 64 && p[2] == 0x80 + r % 64;
    } else if 0x10000 <= r {
      assert p[1] == 0x80 + q / 64 % 64 && p[2] == 0x80 + q % 64 && p[3] == 0x80 + r % 64;
    }
  }

  /** What decodes to more than an ill-formed byte is the encoding of the rune: no other spelling is accepted. */
  lemma DecodeEncode(p: seq<byte>)
    requires p != [] && (p[0] < RUNE_SELF || DecodeRune(p).1 > 1)
    ensures !Surrogate(DecodeRune(p).0) && EncodeRune(DecodeRune(p).0) == p[..DecodeRune(p).1]
  {
    var (r, n) := DecodeRune(p);
    if n == 2 {
      JoinApart(p[0] - 0xC0, p[1]);
    } else if n >= 3 {
      var lead := if n == 3 then p[0] - 0xE0 else p[0] - 0xF0;
      JoinApart(lead, p[1]);
      JoinApart(Join(lead, p[1]), p[2]);
      if n == 4 { JoinApart(Join(Join(lead, p[1]), p[2]), p[3]); }
    }
  }

  lemma JoinApart(high: int, c: byte)
    requires high >= 0 && Continues(c)
    ensures Join(high, c) / 64 == high && Join(high, c) % 64 == c - 0x80
  {
  }

  /** A full rune decodes the same whatever follows it. */
  lemma FullIsEnough(p: seq<byte>, tail: seq<byte>)
    requires FullRune(p)
    ensures DecodeRune(p + tail) == DecodeRune(p) && FullRune(p + tail)
  {
  }

  /** A rune decodes alike when what follows it is cut off. */
  lemma CutAfterRune(s: seq<byte>, m: nat)
    requires s != [] && DecodeRune(s).1 <= m <= |s|
    ensures DecodeRune(s[..m]) == DecodeRune(s)
  {
  }

  /** While a rune is not full, everything after its first byte continues it. */
  lemma NotFullContinues(p: seq<byte>)
    requires p != [] && !FullRune(p)
    ensures |p| < Need(p[0]) <= 4 && RUNE_SELF <= p[0] && !Continues(p[0]) && DecodeRune(p).1 == 1
    ensures forall i :: 1 <= i < |p| ==> Continues(p[i])
  {
  }

  /** The runes of a byte string, one ill-formed byte at a time. */
  function DecodeAll(p: seq<byte>): seq<rune> {
    if p == [] then [] else [DecodeRune(p).0] + DecodeAll(p[DecodeRune(p).1..])
  }

  function EncodeAll(rs: seq<rune>): seq<byte> {
    if rs == [] then [] else EncodeRune(rs[0]) + EncodeAll(rs[1..])
  }

  lemma {:induction false} EncodeDecodeAll(rs: seq<rune>)
    requires forall i :: 0 <= i < |rs| ==> !Surrogate(rs[i])
    ensures DecodeAll(EncodeAll(rs)) == rs
  {
    if rs != [] {
      var head, tail := EncodeRune(rs[0]), EncodeAll(rs[1..]);
      EncodeDecode(rs[0], tail);
      EncodeDecodeAll(rs[1..]);
      assert (head + tail)[|head|..] == tail;
    }
  }
}
