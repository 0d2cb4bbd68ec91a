/** What UnescapeString of html/escape.go makes of references as others write them. */
module HtmlReferences {
  import opened Prelude
  import opened Utf8
  import opened Html

  // EscapeString writes five references.  Here references are built from their parts, digits in
  // either base and either case, names of any length, and their meaning is read off the parts.

  // ----- numbers ------------------------------------------------------------

  /** A digit and, for a letter, whether it is in upper case. */
  datatype Figure = Figure(d: nat, upper: bool)

  predicate Figures(ds: seq<Figure>, hex: bool) {
    forall i :: 0 <= i < |ds| ==> ds[i].d < if hex then 16 else 10
  }

  function FigureSent(g: Figure): byte
    requires g.d < 16
  {
    (if g.d < 10 then '0' as int + g.d else (if g.upper then 'A' as int else 'a' as int) + (g.d - 10))
  }

  function Sent(ds: seq<Figure>): seq<byte>
    requires Figures(ds, true)
  {
    if ds == [] then [] else [FigureSent(ds[0])] + Sent(ds[1..])
  }

  /** The number the digits denote after those that make `x`. */
  function Denoted(ds: seq<Figure>, base: nat, x: int): int {
    if ds == [] then x else Denoted(ds[1..], base, base * x + ds[0].d)
  }

  /** The runes that the numbers 0x80 to 0x9F stand for in Windows-1252. */
  const WINDOWS_1252 :=
    "\U{20AC}\U{81}\U{201A}\U{192}\U{201E}\U{2026}\U{2020}\U{2021}\U{2C6}\U{2030}\U{160}\U{2039}\U{152}\U{8D}\U{17D}\U{8F}" +
    "\U{90}\U{2018}\U{2019}\U{201C}\U{201D}\U{2022}\U{2013}\U{2014}\U{2DC}\U{2122}\U{161}\U{203A}\U{153}\U{9D}\U{17E}\U{178}"

  /** What a numeric reference stands for: its Windows-1252 replacement, U+FFFD for no rune, or the rune of that number. */
  function Standing(x: int): int {
    if 0x80 <= x <= 0x9F then WINDOWS_1252[x - 0x80] as int
    else if x == 0 || 0xD800 <= x <= 0xDFFF || x > 0x10FFFF then 0xFFFD
    else x
  }

  lemma StandingIs(x: int)
    ensures Numeric(x) == Standing(x)
  {
  }

  lemma FigureReads(g: Figure, hex: bool)
    requires g.d < if hex then 16 else 10
    ensures Digit(FigureSent(g), hex) == g.d
  {
  }

  /** 32-bit arithmetic commutes with the next digit. */
  lemma WrapStep(x: int, d: nat, hex: bool)
    ensures Wrap32((if hex then 16 else 10) * Wrap32(x) + d) == Wrap32((if hex then 16 else 10) * x + d)
  {
    var k := (x + 0x8000_0000) / 0x1_0000_0000;
    assert Wrap32(x) == x - k * 0x1_0000_0000;
    if hex { WrapShift(16 * x + d, 16 * k); } else { WrapShift(10 * x + d, 10 * k); }
  }

  lemma WrapShift(n: int, k: int)
    ensures Wrap32(n - k * 0x1_0000_0000) == Wrap32(n)
  {
  }

  /** The loop reads all the digits. */
  lemma {:induction false} DigitsRead(s: seq<byte>, i: nat, ds: seq<Figure>, hex: bool, x: int, tail: seq<byte>)
    requires Figures(ds, hex) && Figures(ds, true) && i <= |s| && s[i..] == Sent(ds) + tail
    ensures i + |ds| <= |s| && s[i + |ds|..] == tail
    ensures Number(s, i, hex, Wrap32(x)) == Number(s, i + |ds|, hex, Wrap32(Denoted(ds, if hex then 16 else 10, x)))
    decreases |ds|
  {
    if ds == [] {
      assert Sent(ds) + tail == tail;
    } else {
      Apart(s, i, FigureSent(ds[0]), Sent(ds[1..]), tail);
      FigureReads(ds[0], hex);
      WrapStep(x, ds[0].d, hex);
      DigitsRead(s, i + 1, ds[1..], hex, (if hex then 16 else 10) * x + ds[0].d, tail);
    }
  }

  function Prefix(hex: bool, capital: bool): seq<byte> {
    [AMP, HASH] + if hex then [if capital then 'X' as int else 'x' as int] else []
  }

  /** A reference in which a semicolon follows the digits: its bytes, and the rune of its number in 32 bits. */
  lemma NumericReference(t: Tables, hex: bool, capital: bool, ds: seq<Figure>, tail: seq<byte>)
    requires ds != [] && Figures(ds, hex) && Figures(ds, true)
    ensures var v := Wrap32(Denoted(ds, if hex then 16 else 10, 0));
            Entity(t, Prefix(hex, capital) + (Sent(ds) + ([SEMI] + tail))) == (EncodeRune(Standing(v)), |Prefix(hex, capital)| + |ds| + 1)
  {
    var p := Prefix(hex, capital);
    var s := p + (Sent(ds) + ([SEMI] + tail));
    NumberOf(t, hex, capital, ds, [SEMI] + tail, s);
    NumberStops(s, |p| + |ds|, hex, Wrap32(Denoted(ds, if hex then 16 else 10, 0)), tail);
  }

  lemma NumberStops(s: seq<byte>, k: nat, hex: bool, x: int, tail: seq<byte>)
    requires k <= |s| && s[k..] == [SEMI] + tail
    ensures k < |s| && Number(s, k, hex, x) == (k + 1, x)
  {
    assert s[k] == s[k..][0] == SEMI;
  }

  /** A reference that ends before anything that is neither a digit nor a semicolon; a single decimal digit is none. */
  lemma OpenReference(t: Tables, hex: bool, capital: bool, ds: seq<Figure>, tail: seq<byte>)
    requires Figures(ds, hex) && Figures(ds, true) && (if hex then |ds| >= 1 else |ds| >= 2)
    requires tail == [] || (Digit(tail[0], hex) < 0 && tail[0] != SEMI)
    ensures var v := Wrap32(Denoted(ds, if hex then 16 else 10, 0));
            Entity(t, Prefix(hex, capital) + (Sent(ds) + tail)) == (EncodeRune(Standing(v)), |Prefix(hex, capital)| + |ds|)
  {
    var p := Prefix(hex, capital);
    var s := p + (Sent(ds) + tail);
    NumberOf(t, hex, capital, ds, tail, s);
    var k := |p| + |ds|;
    if tail != [] { assert s[k] == s[k..][0]; }
  }

  /** What Entity does with a number is decided by what follows its digits. */
  lemma NumberOf(t: Tables, hex: bool, capital: bool, ds: seq<Figure>, tail: seq<byte>, s: seq<byte>)
    requires ds != [] && Figures(ds, hex) && Figures(ds, true) && s == Prefix(hex, capital) + (Sent(ds) + tail)
    ensures var k := |Prefix(hex, capital)| + |ds|;
            && k <= |s| && s[k..] == tail
            && (|s| > 3 ==>
                  var (i, x) := Number(s, k, hex, Wrap32(Denoted(ds, if hex then 16 else 10, 0)));
                  Entity(t, s) == if i <= 3 then ([s[0]], 1) else (EncodeRune(Standing(x)), i))
  {
    var p := Prefix(hex, capital);
    assert s[|p|..] == Sent(ds) + tail;
    DigitsRead(s, |p|, ds, hex, 0, tail);
    PrefixStands(hex, capital, ds, tail, s);
    if |s| > 3 { EntityNumber(t, s, hex); }
  }

  lemma PrefixStands(hex: bool, capital: bool, ds: seq<Figure>, tail: seq<byte>, s: seq<byte>)
    requires ds != [] && Figures(ds, hex) && Figures(ds, true) && s == Prefix(hex, capital) + (Sent(ds) + tail)
    ensures |s| >= 3 && s[1] == HASH && (hex <==> s[2] == 'x' as int || s[2] == 'X' as int)
  {
    if !hex {
      assert s[2..] == Sent(ds) + tail;
      Apart(s, 2, FigureSent(ds[0]), Sent(ds[1..]), tail);
    }
  }

  lemma EntityNumber(t: Tables, s: seq<byte>, hex: bool)
    requires |s| > 3 && s[1] == HASH && (hex <==> s[2] == 'x' as int || s[2] == 'X' as int)
    ensures var (i, x) := Number(s, if hex then 3 else 2, hex, Wrap32(0));
            Entity(t, s) == if i <= 3 then ([s[0]], 1) else (EncodeRune(Standing(x)), i)
  {
    assert Wrap32(0) == 0;
    StandingIs(Number(s, if hex then 3 else 2, hex, 0).1);
  }

  /** Below 2^31 the number is as written. */
  lemma SmallNumber(ds: seq<Figure>, base: nat)
    requires Denoted(ds, base, 0) < 0x8000_0000 && base >= 0
    ensures Denoted(ds, base, 0) >= 0 && Wrap32(Denoted(ds, base, 0)) == Denoted(ds, base, 0)
  {
    NotNegative(ds, base, 0);
  }

  lemma {:induction false} NotNegative(ds: seq<Figure>, base: nat, x: nat)
    ensures Denoted(ds, base, x) >= 0
    decreases |ds|
  {
    if ds != [] {
      assert base * x >= 0;
      NotNegative(ds[1..], base, base * x + ds[0].d);
    }
  }

  // ----- names ------------------------------------------------------------------

  predicate Letters(name: seq<byte>) {
    forall i :: 0 <= i < |name| ==> Alphanumeric(name[i])
  }

  lemma {:induction false} NameEnds(s: seq<byte>, i: nat, name: seq<byte>, tail: seq<byte>)
    requires i <= |s| && s[i..] == name + tail && Letters(name)
    ensures i + |name| <= |s| && s[i + |name|..] == tail && NameEnd(s, i) == NameEnd(s, i + |name|)
    decreases |name|
  {
    if name == [] {
      assert name + tail == tail;
    } else {
      assert [name[0]] + name[1..] == name;
      Apart(s, i, name[0], name[1..], tail);
      NameEnds(s, i + 1, name[1..], tail);
    }
  }

  /** What a name with its semicolon, if it has one, is replaced with. */
  function NameMeant(t: Tables, name: seq<byte>): seq<byte> {
    if Lookup(t, name) != 0 then EncodeRune(Lookup(t, name))
    else EncodeRune(Lookup2(t, name).0) + EncodeRune(Lookup2(t, name).1)
  }

  predicate NameKnown(t: Tables, name: seq<byte>) {
    Lookup(t, name) != 0 || Lookup2(t, name).0 != 0
  }

  /** `j` letters of the name are a reference without a semicolon, and no more letters, up to six, are. */
  predicate LongestKnown(t: Tables, name: seq<byte>, j: nat) {
    && 2 <= j <= 6 && j < |name| && Lookup(t, name[..j]) != 0
    && (forall k :: j < k <= 6 && k < |name| ==> Lookup(t, name[..k]) == 0)
  }

  lemma {:induction false} PrefixIs(t: Tables, name: seq<byte>, m: int)
    requires m <= 6 && m < |name|
    ensures var j := PrefixLen(t, name, m);
            && (j > 0 ==> 2 <= j <= m && Lookup(t, name[..j]) != 0)
            && (forall k :: j < k <= m && 2 <= k ==> Lookup(t, name[..k]) == 0)
    decreases m
  {
    if m > 1 && Lookup(t, name[..m]) == 0 { PrefixIs(t, name, m - 1); }
  }

  /**
   A named reference: the letters after the ampersand, with the semicolon that follows them if
   one does, when there is such a name; otherwise its longest beginning of two to six letters
   that is one; otherwise it stands for itself.
   */
  lemma NamedReference(t: Tables, letters: seq<byte>, semicolon: bool, tail: seq<byte>)
    requires letters != [] && Letters(letters)
    requires !semicolon ==> tail == [] || (!Alphanumeric(tail[0]) && tail[0] != SEMI)
    ensures var name := letters + if semicolon then [SEMI] else [];
            var s := [AMP] + (name + tail);
            && (NameKnown(t, name) ==> Entity(t, s) == (NameMeant(t, name), 1 + |name|))
            && (!NameKnown(t, name) ==>
                  && (forall j: nat :: LongestKnown(t, name, j) ==> Entity(t, s) == (EncodeRune(Lookup(t, name[..j])), 1 + j))
                  && ((forall j: nat :: !LongestKnown(t, name, j)) ==> Entity(t, s) == ([AMP] + name, 1 + |name|)))
  {
    var name := letters + if semicolon then [SEMI] else [];
    var s := [AMP] + (name + tail);
    NameStands(letters, semicolon, tail, s);
    var m := Min(|name| - 1, LONGEST_WITHOUT_SEMICOLON);
    PrefixIs(t, name, m);
    var j := PrefixLen(t, name, m);
    if j > 0 { assert LongestKnown(t, name, j); }
    assert s[..1 + |name|] == [AMP] + name;
  }

  lemma NameStands(letters: seq<byte>, semicolon: bool, tail: seq<byte>, s: seq<byte>)
    requires letters != [] && Letters(letters)
    requires !semicolon ==> tail == [] || (!Alphanumeric(tail[0]) && tail[0] != SEMI)
    requires s == [AMP] + ((letters + if semicolon then [SEMI] else []) + tail)
    ensures var name := letters + if semicolon then [SEMI] else [];
            |s| > 1 && s[0] == AMP && s[1] != HASH && NameEnd(s, 1) == 1 + |name| && s[1..1 + |name|] == name
  {
    var after := if semicolon then [SEMI] + tail else tail;
    assert s[1..] == letters + after;
    assert s[1] == letters[0] && Alphanumeric(letters[0]);
    NameEnds(s, 1, letters, after);
    if after != [] { assert s[1 + |letters|] == s[1 + |letters|..][0]; }
  }

  // ----- the whole text ---------------------------------------------------------

  /** Text without an ampersand stands for itself. */
  lemma {:induction false} PlainFrom(t: Tables, s: seq<byte>, i: nat)
    requires i <= |s| && AMP !in s[i..]
    ensures Rewrite(UnescapeRule(t), s, i) == s[i..]
    decreases |s| - i
  {
    if i < |s| {
      assert s[i] in s[i..] && s[i + 1..] == s[i..][1..] && s[i..] == [s[i]] + s[i + 1..];
      PlainFrom(t, s, i + 1);
    }
  }

  lemma PlainStays(t: Tables, s: seq<byte>)
    requires AMP !in s
    ensures Unescape(t, s) == s
  {
    assert s[0..] == s;
    PlainFrom(t, s, 0);
  }

  /** Escaped text holds none of the bytes that end text or an attribute. */
  lemma {:induction false} EscapedIsSafe(s: seq<byte>)
    ensures forall c :: c in Escape(s) ==> c != '<' as int && c != '>' as int && c != '"' as int && c != '\'' as int
    decreases |s|
  {
    if s != [] {
      EscapedIsSafe(s[1..]);
      EscapedByteIsSafe(s[0]);
      assert Escape(s) == EscapeByte(s[0]) + Escape(s[1..]);
    }
  }

  lemma EscapedByteIsSafe(b: byte)
    ensures forall c :: c in EscapeByte(b) ==> c != '<' as int && c != '>' as int && c != '"' as int && c != '\'' as int
  {
  }
}
