/**
 Escaping and unescaping of html/escape.go.  UnescapeString rewrites one byte buffer in
 place; it is proved to agree with a left-to-right unescape of the immutable input.
 */
module Html {
  import opened Prelude
  import opened Utf8

  const AMP: byte := '&' as int
  const SEMI: byte := ';' as int
  const HASH: byte := '#' as int
  const LONGEST_WITHOUT_SEMICOLON := 6

  /** The named references: one or two runes for a name, which includes any final semicolon. */
  datatype Tables = Tables(entity: map<seq<byte>, int>, entity2: map<seq<byte>, (int, int)>)

  /** A missing name looks up as rune 0. */
  function Lookup(t: Tables, name: seq<byte>): int {
    if name in t.entity then t.entity[name] else 0
  }

  function Lookup2(t: Tables, name: seq<byte>): (int, int) {
    if name in t.entity2 then t.entity2[name] else (0, 0)
  }

  /** No replacement is longer than the "&name" it replaces. */
  ghost predicate Compact(t: Tables) {
    && (forall name :: name in t.entity && t.entity[name] != 0 ==> |EncodeRune(t.entity[name])| <= |name| + 1)
    && (forall name :: name in t.entity2 && t.entity2[name].0 != 0 ==>
          |EncodeRune(t.entity2[name].0)| + |EncodeRune(t.entity2[name].1)| <= |name| + 1)
  }

  /** The Windows-1252 replacements for the numeric references 0x80 to 0x9F. */
  function Replacement(x: int): int {
    match x
    case 0x80 => 0x20AC case 0x81 => 0x81 case 0x82 => 0x201A case 0x83 => 0x192
    case 0x84 => 0x201E case 0x85 => 0x2026 case 0x86 => 0x2020 case 0x87 => 0x2021
    case 0x88 => 0x2C6 case 0x89 => 0x2030 case 0x8A => 0x160 case 0x8B => 0x2039
    case 0x8C => 0x152 case 0x8D => 0x8D case 0x8E => 0x17D case 0x8F => 0x8F
    case 0x90 => 0x90 case 0x91 => 0x2018 case 0x92 => 0x2019 case 0x93 => 0x201C
    case 0x94 => 0x201D case 0x95 => 0x2022 case 0x96 => 0x2013 case 0x97 => 0x2014
    case 0x98 => 0x2DC case 0x99 => 0x2122 case 0x9A => 0x161 case 0x9B => 0x203A
    case 0x9C => 0x153 case 0x9D => 0x9D case 0x9E => 0x17E case 0x9F => 0x178
    case _ => x
  }

  // ---------------------------------------------------------- the pure meaning

  /** int32 arithmetic wraps. */
  function Wrap32(x: int): int {
    (x + 0x8000_0000) % 0x1_0000_0000 - 0x8000_0000
  }

  /** The digit value of `c`, or -1. */
  function Digit(c: int, hex: bool): int {
    if '0' as int <= c <= '9' as int then c - '0' as int
    else if hex && 'a' as int <= c <= 'f' as int then c - 'a' as int + 10
    else if hex && 'A' as int <= c <= 'F' as int then c - 'A' as int + 10
    else -1
  }

  /** Where the digits from index `i` end, a final semicolon included, and their value after `x`. */
  function Number(s: seq<byte>, i: nat, hex: bool, x: int): (r: (nat, int))
    requires i <= |s|
    ensures i <= r.0 <= |s|
    decreases |s| - i
  {
    if i == |s| then (i, x)
    else if Digit(s[i], hex) >= 0 then Number(s, i + 1, hex, Wrap32((if hex then 16 else 10) * x + Digit(s[i], hex)))
    else if s[i] == SEMI then (i + 1, x)
    else (i, x)
  }

  predicate Alphanumeric(c: int) {
    'a' as int <= c <= 'z' as int || 'A' as int <= c <= 'Z' as int || '0' as int <= c <= '9' as int
  }

  /** Where the name from index `i` ends, a final semicolon included. */
  function NameEnd(s: seq<byte>, i: nat): (r: nat)
    requires i <= |s|
    ensures i <= r <= |s|
    decreases |s| - i
  {
    if i == |s| then i
    else if Alphanumeric(s[i]) then NameEnd(s, i + 1)
    else if s[i] == SEMI then i + 1
    else i
  }

  /** The rune a numeric reference stands for. */
  function Numeric(x: int): int {
    if 0x80 <= x <= 0x9F then Replacement(x)
    else if x == 0 || Surrogate(x) || x > 0x10FFFF then RUNE_ERROR
    else x
  }

  /** The longest proper prefix of `name`, of length at most j and more than one, that is an entity; 0 if none. */
  function PrefixLen(t: Tables, name: seq<byte>, j: int): (r: int)
    requires j <= |name|
    ensures 0 <= r <= Max(j, 0) && r != 1
    ensures r > 0 ==> Lookup(t, name[..r]) != 0
    decreases j
  {
    if j <= 1 then 0 else if Lookup(t, name[..j]) != 0 then j else PrefixLen(t, name, j - 1)
  }

  /** What the reference at the start of `s` becomes, and how many bytes it is. */
  function Entity(t: Tables, s: seq<byte>): (r: (seq<byte>, nat))
    requires s != []
    ensures 1 <= r.1 <= |s|
  {
    if |s| == 1 then ([s[0]], 1)
    else if s[1] == HASH then
      if |s| <= 3 then ([s[0]], 1)
      else
        var hex := s[2] == 'x' as int || s[2] == 'X' as int;
        var (i, x) := Number(s, if hex then 3 else 2, hex, 0);
        if i <= 3 then ([s[0]], 1) else (EncodeRune(Numeric(x)), i)
    else
      var i := NameEnd(s, 1);
      var name := s[1..i];
      var (x, y) := (Lookup(t, name), Lookup2(t, name));
      if name == [] then (s[..i], i)
      else if x != 0 then (EncodeRune(x), i)
      else if y.0 != 0 then (EncodeRune(y.0) + EncodeRune(y.1), i)
      else
        var j := PrefixLen(t, name, Min(|name| - 1, LONGEST_WITHOUT_SEMICOLON));
        if j > 0 then (EncodeRune(Lookup(t, name[..j])), j + 1) else (s[..i], i)
  }

  /** What to write for the text from an index on, and how many bytes to go on by. */
  type Rule = (seq<byte>, nat) -> (seq<byte>, nat)

  /** Where a rule goes on; always ahead. */
  function Next(f: Rule, s: seq<byte>, i: nat): (r: nat)
    requires i < |s|
    ensures i < r <= |s|
  {
    if 1 <= f(s, i).1 <= |s| - i then i + f(s, i).1 else i + 1
  }

  /** The text from index i rewritten from left to right. */
  function Rewrite(f: Rule, s: seq<byte>, i: nat): seq<byte>
    requires i <= |s|
    decreases |s| - i
  {
    if i == |s| then [] else f(s, i).0 + Rewrite(f, s, Next(f, s, i))
  }

  function UnescapeRule(t: Tables): Rule {
    (s: seq<byte>, i: nat) => if i >= |s| then ([], 0) else if s[i] != AMP then ([s[i]], 1) else Entity(t, s[i..])
  }

  /** Every reference replaced, from left to right. */
  function Unescape(t: Tables, s: seq<byte>): seq<byte> {
    Rewrite(UnescapeRule(t), s, 0)
  }

  /** A reference is never shorter than what replaces it. */
  lemma EntityShrinks(t: Tables, s: seq<byte>)
    requires Compact(t) && s != []
    ensures |Entity(t, s).0| <= Entity(t, s).1
  {
  }

  // ------------------------------------------------------------ the round trip

  function EscapeByte(c: byte): seq<byte> {
    if c == AMP then Ascii("&amp;")
    else if c == '\'' as int then Ascii("&#39;")
    else if c == '<' as int then Ascii("&lt;")
    else if c == '>' as int then Ascii("&gt;")
    else if c == '"' as int then Ascii("&#34;")
    else [c]
  }

  /** Per-byte replacement, as strings.NewReplacer does it for one-byte patterns. */
  function Spread(esc: byte -> seq<byte>, s: seq<byte>): seq<byte> {
    if s == [] then [] else esc(s[0]) + Spread(esc, s[1..])
  }

  function Escape(s: seq<byte>): seq<byte> {
    Spread(EscapeByte, s)
  }

  /** The three names that Escape relies on. */
  ghost predicate Basic(t: Tables) {
    Lookup(t, Ascii("amp;")) == AMP && Lookup(t, Ascii("lt;")) == '<' as int && Lookup(t, Ascii("gt;")) == '>' as int
  }

  lemma NamedBack(t: Tables, name: seq<byte>, c: byte, tail: seq<byte>)
    requires 3 <= |name| <= 4 && name[|name| - 1] == SEMI && Lookup(t, name) == c && 0 < c < 128
    requires forall i :: 0 <= i < |name| - 1 ==> Alphanumeric(name[i])
    ensures Entity(t, [AMP] + name + tail) == ([c], |name| + 1)
  {
    var s := [AMP] + name + tail;
    assert forall i :: 0 <= i < |name| ==> s[i + 1] == name[i];
    assert NameEnd(s, |name|) == |name| + 1;
    assert NameEnd(s, |name| - 1) == |name| + 1;
    assert NameEnd(s, |name| - 2) == |name| + 1;
    assert NameEnd(s, 1) == |name| + 1;
    assert s[1..|name| + 1] == name;
  }

  lemma NumericBack(t: Tables, c: byte, tail: seq<byte>)
    requires 30 <= c < 40
    ensures Entity(t, [AMP, HASH, '3' as int, '0' as int + c - 30, SEMI] + tail) == ([c], 5)
  {
    var s := [AMP, HASH, '3' as int, '0' as int + c - 30, SEMI] + tail;
    assert s[2] == '3' as int && s[3] == '0' as int + c - 30 && s[4] == SEMI;
    assert Number(s, 4, false, c) == (5, c);
    assert Number(s, 3, false, 3) == (5, c);
    assert Number(s, 2, false, 0) == (5, c);
  }

  lemma ByteBack(t: Tables, c: byte, tail: seq<byte>)
    requires Basic(t) && EscapeByte(c) != [c]
    ensures Entity(t, EscapeByte(c) + tail) == ([c], |EscapeByte(c)|) && EscapeByte(c)[0] == AMP
  {
    var e := EscapeByte(c);
    if c == '"' as int || c == '\'' as int {
      assert e == [AMP, HASH, '3' as int, '0' as int + c - 30, SEMI];
      NumericBack(t, c, tail);
    } else {
      assert e == [AMP] + e[1..];
      assert e[1..] == if c == AMP then Ascii("amp;") else if c == '<' as int then Ascii("lt;") else Ascii("gt;");
      NamedBack(t, e[1..], c, tail);
    }
  }

  lemma RuleBack(t: Tables, pre: seq<byte>, c: byte, tail: seq<byte>)
    requires Basic(t)
    ensures UnescapeRule(t)(pre + (EscapeByte(c) + tail), |pre|) == ([c], |EscapeByte(c)|)
  {
    var s := pre + (EscapeByte(c) + tail);
    assert s[|pre|..] == EscapeByte(c) + tail && s[|pre|] == EscapeByte(c)[0];
    if EscapeByte(c) != [c] {
      ByteBack(t, c, tail);
    }
  }

  lemma RewriteHead(f: Rule, whole: seq<byte>, i: nat, c: byte, n: nat, rest: seq<byte>)
    requires i < |whole| && 0 < n <= |whole| - i && f(whole, i) == ([c], n) && Rewrite(f, whole, i + n) == rest
    ensures Rewrite(f, whole, i) == [c] + rest
  {
  }

  /** The rule turns the replacement of `c` back into `c`. */
  ghost predicate UndoesAt(f: Rule, esc: byte -> seq<byte>, pre: seq<byte>, c: byte, tail: seq<byte>) {
    esc(c) != [] && f(pre + (esc(c) + tail), |pre|) == ([c], |esc(c)|)
  }

  /** It does so for every byte, wherever it stands. */
  ghost predicate Undoes(f: Rule, esc: byte -> seq<byte>) {
    forall pre: seq<byte>, c: byte, tail: seq<byte> {:trigger UndoesAt(f, esc, pre, c, tail)} :: UndoesAt(f, esc, pre, c, tail)
  }

  lemma {:induction false} BackFrom(f: Rule, esc: byte -> seq<byte>, pre: seq<byte>, s: seq<byte>)
    requires Undoes(f, esc)
    ensures Rewrite(f, pre + Spread(esc, s), |pre|) == s
    decreases |s|
  {
    if s != [] {
      var e, tail := esc(s[0]), Spread(esc, s[1..]);
      var whole := pre + (e + tail);
      assert UndoesAt(f, esc, pre, s[0], tail);
      assert whole == (pre + e) + tail;
      BackFrom(f, esc, pre + e, s[1..]);
      RewriteHead(f, whole, |pre|, s[0], |e|, s[1..]);
    }
  }

  /** UnescapeString(EscapeString(s)) == s. */
  lemma EscapeThenUnescape(t: Tables, s: seq<byte>)
    requires Basic(t)
    ensures Unescape(t, Escape(s)) == s
  {
    var f, esc := UnescapeRule(t), EscapeByte;
    forall pre: seq<byte>, c: byte, tail: seq<byte>
      ensures UndoesAt(f, esc, pre, c, tail)
    {
      RuleBack(t, pre, c, tail);
    }
    BackFrom(f, esc, [], s);
    assert [] + Escape(s) == Escape(s);
  }

  // ------------------------------------------------------------------ in place

  /** copy(b[dst:], p) */
  method Put(b: array<byte>, dst: nat, p: seq<byte>)
    requires dst + |p| <= b.Length
    modifies b
    ensures b[dst..dst + |p|] == p && b[..dst] == old(b[..dst])
    ensures forall k :: dst + |p| <= k < b.Length ==> b[k] == old(b[k])
  {
    forall i | 0 <= i < |p| {
      b[dst + i] := p[i];
    }
  }

  /** The digit loop of unescapeEntity. */
  method ReadNumber(s: seq<byte>, from: nat, hex: bool) returns (i: nat, x: int)
    requires from <= |s|
    ensures (i, x) == Number(s, from, hex, 0)
  {
    i, x := from, 0;
    while i < |s|
      invariant from <= i <= |s| && Number(s, i, hex, x) == Number(s, from, hex, 0)
    {
      var c := s[i];
      i := i + 1;
      if Digit(c, hex) >= 0 {
        x := Wrap32((if hex then 16 else 10) * x + Digit(c, hex));
        continue;
      }
      if c != SEMI {
        i := i - 1;
      }
      break;
    }
  }

  /** The name loop of unescapeEntity. */
  method ReadName(s: seq<byte>) returns (i: nat)
    requires |s| > 1
    ensures i == NameEnd(s, 1)
  {
    i := 1;
    while i < |s|
      invariant 1 <= i <= |s| && NameEnd(s, i) == NameEnd(s, 1)
    {
      var c := s[i];
      i := i + 1;
      if Alphanumeric(c) {
        continue;
      }
      if c != SEMI {
        i := i - 1;
      }
      break;
    }
  }

  /** The search for an entity that is a proper prefix of the name. */
  method FindPrefix(t: Tables, name: seq<byte>) returns (j: int)
    requires name != []
    ensures j == PrefixLen(t, name, Min(|name| - 1, LONGEST_WITHOUT_SEMICOLON))
  {
    j := Min(|name| - 1, LONGEST_WITHOUT_SEMICOLON);
    while j > 1
      invariant -1 <= j <= |name| && PrefixLen(t, name, j) == PrefixLen(t, name, Min(|name| - 1, LONGEST_WITHOUT_SEMICOLON))
    {
      if Lookup(t, name[..j]) != 0 {
        return;
      }
      j := j - 1;
    }
    j := 0;
  }

  /** The decision of unescapeEntity: what to write for the reference at the start of `s`, and how much to skip. */
  method Decide(t: Tables, s: seq<byte>) returns (out: seq<byte>, n: nat)
    requires s != []
    ensures (out, n) == Entity(t, s)
  {
    if |s| <= 1 {
      return [s[0]], 1;
    }
    if s[1] == HASH {
      if |s| <= 3 {
        return [s[0]], 1;
      }
      var hex := s[2] == 'x' as int || s[2] == 'X' as int;
      var i, x := ReadNumber(s, if hex then 3 else 2, hex);
      if i <= 3 {
        return [s[0]], 1;
      }
      return EncodeRune(Numeric(x)), i;
    }
    var i := ReadName(s);
    var name := s[1..i];
    if name != [] {
      if Lookup(t, name) != 0 {
        return EncodeRune(Lookup(t, name)), i;
      } else if Lookup2(t, name).0 != 0 {
        return EncodeRune(Lookup2(t, name).0) + EncodeRune(Lookup2(t, name).1), i;
      }
      var j := FindPrefix(t, name);
      if j > 0 {
        return EncodeRune(Lookup(t, name[..j])), j + 1;
      }
    }
    return s[..i], i;
  }

  /**
   unescapeEntity reads the reference at b[src..] and writes its replacement at b[dst..].
   The write stays behind the read: nothing from the new src on is touched.
   */
  method UnescapeEntity(t: Tables, b: array<byte>, dst: nat, src: nat) returns (dst1: nat, src1: nat)
    requires Compact(t) && dst <= src < b.Length && b[src] == AMP
    modifies b
    ensures dst1 <= src1 <= b.Length && src < src1
    ensures var (out, n) := Entity(t, old(b[src..])); src1 == src + n && b[..dst1] == old(b[..dst]) + out
    ensures forall k :: src1 <= k < b.Length ==> b[k] == old(b[k])
  {
    ghost var s := b[src..];
    var out, n := Decide(t, b[src..]);
    EntityShrinks(t, s);
    Put(b, dst, out);
    dst1, src1 := dst + |out|, src + n;
    assert b[..dst1] == b[..dst] + b[dst..dst1];
  }

  /** strings.IndexByte(s[from:], '&'), as an index into s; |s| when there is none. */
  method NextAmp(s: seq<byte>, from: nat) returns (i: nat)
    requires from <= |s|
    ensures from <= i <= |s| && (i < |s| ==> s[i] == AMP) && AMP !in s[from..i]
  {
    i := from;
    while i < |s| && s[i] != AMP
      invariant from <= i <= |s| && AMP !in s[from..i]
    {
      i := i + 1;
    }
  }

  lemma RewriteOne(f: Rule, s: seq<byte>, src: nat)
    requires src < |s| && f(s, src) == ([s[src]], 1)
    ensures Rewrite(f, s, src) == [s[src]] + Rewrite(f, s, src + 1)
  {
  }

  lemma HeadFirst(s: seq<byte>, src: nat, i: nat, tail: seq<byte>)
    requires src < i <= |s|
    ensures [s[src]] + (s[src + 1..i] + tail) == s[src..i] + tail
  {
  }

  lemma {:induction false} PlainPrefix(f: Rule, s: seq<byte>, src: nat, i: nat)
    requires src <= i <= |s| && (forall k {:trigger f(s, k)} :: src <= k < i ==> f(s, k) == ([s[k]], 1))
    ensures Rewrite(f, s, src) == s[src..i] + Rewrite(f, s, i)
    decreases i - src
  {
    if src < i {
      PlainPrefix(f, s, src + 1, i);
      RewriteOne(f, s, src);
      HeadFirst(s, src, i, Rewrite(f, s, i));
    }
  }

  /** The part of the buffer not yet read is still the input. */
  ghost predicate Intact(s: seq<byte>, b: array<byte>, src: nat)
    reads b
  {
    b.Length == |s| && src <= |s| && (forall k :: src <= k < |s| ==> b[k] == s[k])
  }

  /** The bytes `head` and the rewritten form of s[src..] make up `want`. */
  ghost predicate DoneTo(f: Rule, s: seq<byte>, head: seq<byte>, src: nat, want: seq<byte>) {
    src <= |s| && head + Rewrite(f, s, src) == want
  }

  /** Bytes other than '&' stand for themselves. */
  lemma PlainBytes(t: Tables, s: seq<byte>, src: nat, i: nat)
    requires src <= i <= |s| && AMP !in s[src..i]
    ensures forall k {:trigger UnescapeRule(t)(s, k)} :: src <= k < i ==> UnescapeRule(t)(s, k) == ([s[k]], 1)
  {
    forall k | src <= k < i ensures UnescapeRule(t)(s, k) == ([s[k]], 1) {
      assert s[src..i][k - src] == s[k];
    }
  }

  lemma PlainRun(f: Rule, s: seq<byte>, head: seq<byte>, src: nat, i: nat, want: seq<byte>)
    requires DoneTo(f, s, head, src, want) && src <= i <= |s|
    requires forall k {:trigger f(s, k)} :: src <= k < i ==> f(s, k) == ([s[k]], 1)
    ensures DoneTo(f, s, head + s[src..i], i, want)
  {
    PlainPrefix(f, s, src, i);
  }

  lemma PlainStep(t: Tables, s: seq<byte>, head: seq<byte>, src: nat, i: nat, want: seq<byte>)
    requires DoneTo(UnescapeRule(t), s, head, src, want) && src <= i <= |s| && AMP !in s[src..i]
    ensures DoneTo(UnescapeRule(t), s, head + s[src..i], i, want)
  {
    PlainBytes(t, s, src, i);
    PlainRun(UnescapeRule(t), s, head, src, i, want);
  }

  lemma Advance(f: Rule, s: seq<byte>, head: seq<byte>, src: nat, want: seq<byte>)
    requires DoneTo(f, s, head, src, want) && src < |s|
    ensures DoneTo(f, s, head + f(s, src).0, Next(f, s, src), want)
  {
  }

  /** What holds between rounds: b[..dst] is done, and from src on the buffer is still the input. */
  ghost predicate Between(t: Tables, s: seq<byte>, b: array<byte>, dst: nat, src: nat, want: seq<byte>)
    reads b
  {
    Intact(s, b, src) && dst <= src && DoneTo(UnescapeRule(t), s, b[..dst], src, want)
  }

  /** One reference. */
  method Round(t: Tables, s: seq<byte>, b: array<byte>, dst: nat, src: nat, ghost want: seq<byte>) returns (dst1: nat, src1: nat)
    requires Compact(t) && Between(t, s, b, dst, src, want) && src < |s| && s[src] == AMP
    modifies b
    ensures Between(t, s, b, dst1, src1, want) && src < src1
  {
    ghost var f := UnescapeRule(t);
    assert f(s, src) == Entity(t, s[src..]);
    dst1, src1 := Replace(t, f, s, b, dst, src, want);
  }

  /** unescapeEntity, in terms of the input. */
  method Replace(t: Tables, ghost f: Rule, s: seq<byte>, b: array<byte>, dst: nat, src: nat, ghost want: seq<byte>)
    returns (dst1: nat, src1: nat)
    requires Compact(t) && Intact(s, b, src) && dst <= src < |s| && s[src] == AMP
    requires f(s, src) == Entity(t, s[src..]) && DoneTo(f, s, b[..dst], src, want)
    modifies b
    ensures dst1 <= src1 && src < src1 && Intact(s, b, src1) && DoneTo(f, s, b[..dst1], src1, want)
  {
    ghost var head, out, n := b[..dst], f(s, src).0, f(s, src).1;
    assert b[src..] == s[src..];
    dst1, src1 := UnescapeEntity(t, b, dst, src);
    assert src1 == src + n && b[..dst1] == head + out;
    Advance(f, s, head, src, want);
  }

  /** The text before the next reference. */
  method Plain(t: Tables, s: seq<byte>, b: array<byte>, dst: nat, src: nat, i: nat, ghost want: seq<byte>) returns (dst1: nat)
    requires Between(t, s, b, dst, src, want) && src <= i <= |s| && AMP !in s[src..i]
    modifies b
    ensures Between(t, s, b, dst1, i, want)
  {
    PlainStep(t, s, b[..dst], src, i, want);
    dst1 := Copy(s, b, dst, src, i);
  }

  /** copy(b[dst:], s[src:i]) */
  method Copy(s: seq<byte>, b: array<byte>, dst: nat, src: nat, i: nat) returns (dst1: nat)
    requires Intact(s, b, src) && dst <= src <= i <= |s|
    modifies b
    ensures dst1 <= i && Intact(s, b, i) && b[..dst1] == old(b[..dst]) + s[src..i]
  {
    Put(b, dst, s[src..i]);
    dst1 := dst + (i - src);
    assert b[..dst1] == b[..dst] + b[dst..dst1];
  }

  lemma FirstPart(t: Tables, s: seq<byte>, i: nat)
    requires i <= |s| && AMP !in s[0..i]
    ensures DoneTo(UnescapeRule(t), s, s[..i], i, Unescape(t, s))
    ensures i == |s| ==> Unescape(t, s) == s
  {
    PlainStep(t, s, [], 0, i, Unescape(t, s));
    assert [] + s[0..i] == s[..i];
  }

  /** The in-place UnescapeString computes the left-to-right unescape of its input. */
  method UnescapeString(t: Tables, s: seq<byte>) returns (r: seq<byte>)
    requires Compact(t)
    ensures r == Unescape(t, s)
  {
    var i := NextAmp(s, 0);
    FirstPart(t, s, i);
    if i == |s| {
      return s;
    }
    var b := new byte[|s|](k requires 0 <= k < |s| => s[k]);
    assert b[..i] == s[..i];
    var dst, src := Round(t, s, b, i, i, Unescape(t, s));
    dst := Rest(t, s, b, dst, src, Unescape(t, s));
    return b[..dst];
  }

  /** The loop of UnescapeString. */
  method Rest(t: Tables, s: seq<byte>, b: array<byte>, dst0: nat, src0: nat, ghost want: seq<byte>) returns (dst: nat)
    requires Compact(t) && Between(t, s, b, dst0, src0, want)
    modifies b
    ensures dst <= b.Length && b[..dst] == want
  {
    dst := dst0;
    var src := src0;
    while src < |s|
      invariant src <= |s| && Between(t, s, b, dst, src, want)
    {
      var i := NextAmp(s, src);
      dst := Plain(t, s, b, dst, src, i, want);
      if i == |s| {
        src := i;
        break;
      }
      dst, src := Round(t, s, b, dst, i, want);
    }
  }
}
