/**
 * Integer formatting into a fixed buffer, filled from the right (fmt/format.go).
 *
 * Text is what the digits, the zeros of a precision, the marks "0b", "0", "0o" and "0x" and
 * the sign come to; Formatted adds the padding.  The formatter writes the text with a cursor
 * that moves left through a buffer of 68 bytes, or of 3 + width + precision bytes when that
 * is more.
 *
 * The lemmas about Text say what a reader of the output needs: the digits denote the number,
 * the sign tells its sign, nothing is written outside the buffer, and the output is as wide
 * as asked.
 */
module FmtInteger {
  import opened Prelude
  import opened Utf8

  /** The bases the printer asks for. */
  type Base = b: nat | b == 2 || b == 8 || b == 10 || b == 16 witness 10

  datatype Flags = Flags(widPresent: bool, precPresent: bool, minus: bool, plus: bool, sharp: bool, space: bool, zero: bool)

  /** What one formatting call is asked for. */
  datatype Spec = Spec(flags: Flags, wid: nat, prec: nat, base: Base, octal: bool, upper: bool)

  /** The verb 'O' comes with base 8 only. */
  predicate Legal(p: Spec) {
    p.octal ==> p.base == 8
  }

  // ----- digits -------------------------------------------------------

  function DigitChar(d: nat, upper: bool): (c: byte)
    requires d < 16
    ensures 0x30 <= c < 0x80
  {
    if d < 10 then 0x30 + d else if upper then 0x41 + d - 10 else 0x61 + d - 10
  }

  function DigitVal(c: byte): (d: nat)
  {
    if 0x30 <= c <= 0x39 then c - 0x30 else if 0x41 <= c <= 0x46 then c - 0x41 + 10
    else if 0x61 <= c <= 0x66 then c - 0x61 + 10 else 0
  }

  /** The last digit of `u`. */
  function Last(u: nat, base: Base): (d: nat)
    ensures d < 16
  {
    if base == 2 then u % 2 else if base == 8 then u % 8 else if base == 10 then u % 10 else u % 16
  }

  /** `u` without its last digit. */
  function Rest(u: nat, base: Base): (q: nat)
    ensures u >= base ==> 0 < q < u
  {
    if base == 2 then u / 2 else if base == 8 then u / 8 else if base == 10 then u / 10 else u / 16
  }

  lemma LastRest(u: nat, base: Base)
    ensures Rest(u, base) * base + Last(u, base) == u && Last(u, base) < base
  {
    if base == 2 {} else if base == 8 {} else if base == 10 {} else {}
  }

  function Digits(u: nat, base: Base, upper: bool): (s: seq<byte>)
    ensures |s| >= 1
    decreases u
  {
    if u < base then [DigitChar(u, upper)]
    else Digits(Rest(u, base), base, upper) + [DigitChar(Last(u, base), upper)]
  }

  /** The number a digit string denotes. */
  function Value(s: seq<byte>, base: nat): nat {
    if s == [] then 0 else Value(s[..|s| - 1], base) * base + DigitVal(s[|s| - 1])
  }

  lemma ValueSnoc(s: seq<byte>, c: byte, base: nat)
    ensures Value(s + [c], base) == Value(s, base) * base + DigitVal(c)
  {
    assert (s + [c])[..|s|] == s;
  }

  lemma {:induction false} DigitsDenote(u: nat, base: Base, upper: bool)
    ensures Value(Digits(u, base, upper), base) == u
    decreases u
  {
    if u < base {
      ValueSnoc([], DigitChar(u, upper), base);
      assert [] + [DigitChar(u, upper)] == [DigitChar(u, upper)];
    } else {
      DigitsDenote(Rest(u, base), base, upper);
      ValueSnoc(Digits(Rest(u, base), base, upper), DigitChar(Last(u, base), upper), base);
      LastRest(u, base);
    }
  }

  lemma DivisionIsUnique(q: nat, d: nat, u: nat, base: Base)
    requires d < base && q * base + d == u
    ensures q == Rest(u, base) && d == Last(u, base)
  {
    if base == 2 {} else if base == 8 {} else if base == 10 {} else {}
  }

  /** No other numeral for `u` in the base, in letters of either case, has fewer digits. */
  lemma {:induction false} DigitsAreShortest(s: seq<byte>, u: nat, base: Base, upper: bool)
    requires s != [] && (forall i :: 0 <= i < |s| ==> DigitVal(s[i]) < base)
    requires Value(s, base) == u
    ensures |Digits(u, base, upper)| <= |s|
    decreases |s|
  {
    if u >= base {
      var init, d := s[..|s| - 1], DigitVal(s[|s| - 1]);
      DivisionIsUnique(Value(init, base), d, u, base);
      DigitsAreShortest(init, Rest(u, base), base, upper);
    }
  }

  /** No leading zero, except for zero itself. */
  lemma {:induction false} NoLeadingZero(u: nat, base: Base, upper: bool)
    ensures u > 0 ==> Digits(u, base, upper)[0] != 0x30
    ensures u == 0 ==> Digits(u, base, upper) == [0x30]
    decreases u
  {
    if u >= base { NoLeadingZero(Rest(u, base), base, upper); }
  }

  /** A ceiling for numbers of `k` digits, computed one digit at a time. */
  function Pow(base: Base, k: nat): nat {
    if k == 0 then 1
    else if base == 2 then 2 * Pow(base, k - 1) else if base == 8 then 8 * Pow(base, k - 1)
    else if base == 10 then 10 * Pow(base, k - 1) else 16 * Pow(base, k - 1)
  }

  lemma {:induction false} DigitsAreFew(u: nat, base: Base, upper: bool, k: nat)
    requires k > 0 && u < Pow(base, k)
    ensures |Digits(u, base, upper)| <= k
    decreases k
  {
    if u >= base {
      assert Rest(u, base) < Pow(base, k - 1);
      DigitsAreFew(Rest(u, base), base, upper, k - 1);
    }
  }

  const WORD := 0x1_0000_0000_0000_0000

  function MaxDigits(base: Base): nat {
    if base == 2 then 64 else if base == 8 then 22 else if base == 10 then 20 else 16
  }

  lemma {:induction false} Raise(base: Base, k: nat, x: nat)
    requires Pow(base, k) >= x
    ensures base == 2 ==> Pow(base, k + 4) >= 16 * x
    ensures base == 8 ==> Pow(base, k + 2) >= 64 * x
    ensures base == 10 ==> Pow(base, k + 2) >= 100 * x
    ensures base == 16 ==> Pow(base, k + 2) >= 256 * x
  {
    assert base == 2 ==> Pow(base, k + 2) >= 4 * x;
    assert base == 2 ==> Pow(base, k + 3) >= 8 * x;
  }

  lemma BinaryFits()
    ensures Pow(2, 64) >= WORD
  {
    Raise(2, 0, 1); Raise(2, 4, 0x10); Raise(2, 8, 0x100); Raise(2, 12, 0x1000);
    Raise(2, 16, 0x1_0000); Raise(2, 20, 0x10_0000); Raise(2, 24, 0x100_0000); Raise(2, 28, 0x1000_0000);
    Raise(2, 32, 0x1_0000_0000); Raise(2, 36, 0x10_0000_0000); Raise(2, 40, 0x100_0000_0000); Raise(2, 44, 0x1000_0000_0000);
    Raise(2, 48, 0x1_0000_0000_0000); Raise(2, 52, 0x10_0000_0000_0000);
    Raise(2, 56, 0x100_0000_0000_0000); Raise(2, 60, 0x1000_0000_0000_0000);
  }

  lemma OctalFits()
    ensures Pow(8, 22) >= WORD
  {
    Raise(8, 0, 1); Raise(8, 2, 0x40); Raise(8, 4, 0x1000); Raise(8, 6, 0x4_0000); Raise(8, 8, 0x100_0000);
    Raise(8, 10, 0x4000_0000); Raise(8, 12, 0x10_0000_0000); Raise(8, 14, 0x400_0000_0000);
    Raise(8, 16, 0x1_0000_0000_0000); Raise(8, 18, 0x40_0000_0000_0000); Raise(8, 20, 0x1000_0000_0000_0000);
  }

  lemma DecimalFits()
    ensures Pow(10, 20) >= WORD
  {
    Raise(10, 0, 1); Raise(10, 2, 100); Raise(10, 4, 1_0000); Raise(10, 6, 100_0000); Raise(10, 8, 1_0000_0000);
    Raise(10, 10, 100_0000_0000); Raise(10, 12, 1_0000_0000_0000); Raise(10, 14, 100_0000_0000_0000);
    Raise(10, 16, 1_0000_0000_0000_0000); Raise(10, 18, 100_0000_0000_0000_0000);
  }

  lemma HexFits()
    ensures Pow(16, 16) >= WORD
  {
    Raise(16, 0, 1); Raise(16, 2, 0x100); Raise(16, 4, 0x1_0000); Raise(16, 6, 0x100_0000); Raise(16, 8, 0x1_0000_0000);
    Raise(16, 10, 0x100_0000_0000); Raise(16, 12, 0x1_0000_0000_0000); Raise(16, 14, 0x100_0000_0000_0000);
  }

  lemma WordFits(u: nat, base: Base, upper: bool)
    requires u < WORD
    ensures |Digits(u, base, upper)| <= MaxDigits(base)
  {
    if base == 2 { BinaryFits(); } else if base == 8 { OctalFits(); } else if base == 10 { DecimalFits(); } else { HexFits(); }
    DigitsAreFew(u, base, upper, MaxDigits(base));
  }

  // ----- what is printed ----------------------------------------------

  function Fill(c: byte, n: int): (s: seq<byte>)
    ensures |s| == Max(n, 0)
  {
    if n <= 0 then [] else [c] + Fill(c, n - 1)
  }

  predicate Negative(u: nat, signed: bool) {
    signed && u >= WORD / 2
  }

  /** The absolute value of the 64-bit word read as signed or unsigned. */
  function Magnitude(u: nat, signed: bool): nat
    requires u < WORD
  {
    if Negative(u, signed) then WORD - u else u
  }

  /** How many digits the precision or the zero flag asks for. */
  function Wanted(p: Spec, negative: bool): int {
    if p.flags.precPresent then p.prec
    else if p.flags.zero && p.flags.widPresent then
      p.wid - (if negative || p.flags.plus || p.flags.space then 1 else 0)
    else 0
  }

  function Numeral(p: Spec, m: nat, negative: bool): (s: seq<byte>)
    requires Legal(p)
    ensures |s| >= 1
  {
    var d := Digits(m, p.base, p.upper);
    Fill(0x30, Wanted(p, negative) - |d|) + d
  }

  function Mark(p: Spec, numeral: seq<byte>): seq<byte>
    requires numeral != []
  {
    if !p.flags.sharp then []
    else if p.base == 2 then [0x30, 0x62]
    else if p.base == 8 then (if numeral[0] != 0x30 then [0x30] else [])
    else if p.base == 16 then [0x30, if p.upper then 0x58 else 0x78]
    else []
  }

  function OctalMark(p: Spec): seq<byte> {
    if p.octal then [0x30, 0x6F] else []
  }

  function Sign(p: Spec, negative: bool): seq<byte> {
    if negative then [0x2D] else if p.flags.plus then [0x2B] else if p.flags.space then [0x20] else []
  }

  function Text(p: Spec, u: nat, signed: bool): seq<byte>
    requires Legal(p) && u < WORD
  {
    var neg := Negative(u, signed);
    var numeral := Numeral(p, Magnitude(u, signed), neg);
    Sign(p, neg) + (OctalMark(p) + (Mark(p, numeral) + numeral))
  }

  function RuneCount(b: seq<byte>): nat {
    |DecodeAll(b)|
  }

  function Padded(f: Flags, wid: nat, b: seq<byte>): seq<byte> {
    if !f.widPresent || wid == 0 then b
    else
      var padding := Fill(if f.zero then 0x30 else 0x20, wid - RuneCount(b));
      if f.minus then b + padding else padding + b
  }

  /** Everything fmtInteger appends. */
  function Formatted(p: Spec, u: nat, signed: bool): seq<byte>
    requires Legal(p) && u < WORD
  {
    if p.flags.precPresent && p.prec == 0 && u == 0 then Fill(0x20, p.wid)
    else Padded(p.flags.(zero := false), p.wid, Text(p, u, signed))
  }

  // ----- what the text means ------------------------------------------

  lemma {:induction false} LeadingZeros(n: int, s: seq<byte>, base: nat)
    ensures Value(Fill(0x30, n) + s, base) == Value(s, base)
    decreases |s|, n
  {
    var z := Fill(0x30, n);
    if s != [] {
      assert (z + s)[..|z + s| - 1] == z + s[..|s| - 1];
      LeadingZeros(n, s[..|s| - 1], base);
    } else if n > 0 {
      FillEnd(0x30, n);
      assert z + s == z && z[..|z| - 1] == Fill(0x30, n - 1) + [];
      LeadingZeros(n - 1, [], base);
    } else {
      assert z + s == s;
    }
  }

  lemma {:induction false} FillEnd(c: byte, n: int)
    requires n > 0
    ensures Fill(c, n) == Fill(c, n - 1) + [c]
  {
    if n > 1 { FillEnd(c, n - 1); }
  }

  /** Where the digits start in the text: after the sign and a two-byte mark. */
  function Lead(p: Spec, u: nat, signed: bool): nat {
    |Sign(p, Negative(u, signed))| + (if p.octal then 2 else 0)
    + (if p.flags.sharp && (p.base == 2 || p.base == 16) then 2 else 0)
  }

  lemma NumeralDenotes(p: Spec, m: nat, neg: bool)
    requires Legal(p)
    ensures Value(Numeral(p, m, neg), p.base) == m
    ensures Value([0x30] + Numeral(p, m, neg), p.base) == m
  {
    var d := Digits(m, p.base, p.upper);
    DigitsDenote(m, p.base, p.upper);
    LeadingZeros(Wanted(p, neg) - |d|, d, p.base);
    assert Fill(0x30, 1) == [0x30];
    LeadingZeros(1, Numeral(p, m, neg), p.base);
  }

  lemma DropPrefix(a: seq<byte>, b: seq<byte>, c: seq<byte>, k: nat)
    requires k == |a| + |b|
    ensures (a + (b + c))[k..] == c
  {
  }

  /** The part of the text from the first digit on. */
  lemma TextFromLead(p: Spec, u: nat, signed: bool, numeral: seq<byte>)
    requires Legal(p) && u < WORD && numeral == Numeral(p, Magnitude(u, signed), Negative(u, signed))
    ensures Lead(p, u, signed) < |Text(p, u, signed)|
    ensures Text(p, u, signed)[Lead(p, u, signed)..] == numeral || Text(p, u, signed)[Lead(p, u, signed)..] == [0x30] + numeral
  {
    var sign, octal, mark := Sign(p, Negative(u, signed)), OctalMark(p), Mark(p, numeral);
    if p.base == 8 {
      DropPrefix(sign, octal, mark + numeral, Lead(p, u, signed));
      assert mark == [] ==> mark + numeral == numeral;
    } else {
      DropPrefix(sign, mark, numeral, Lead(p, u, signed));
      assert octal == [] && octal + (mark + numeral) == mark + numeral;
    }
  }

  /** '-' comes first exactly when the number is negative. */
  lemma MinusTells(p: Spec, u: nat, signed: bool)
    requires Legal(p) && u < WORD
    ensures |Text(p, u, signed)| > 0
    ensures Text(p, u, signed)[0] == 0x2D <==> Negative(u, signed)
  {
    NumeralStart(p, Magnitude(u, signed), Negative(u, signed));
  }

  /** The digits after the sign and the mark denote the absolute value; '-' tells the sign. */
  lemma TextDenotes(p: Spec, u: nat, signed: bool)
    requires Legal(p) && u < WORD
    ensures Lead(p, u, signed) < |Text(p, u, signed)|
    ensures Value(Text(p, u, signed)[Lead(p, u, signed)..], p.base) == Magnitude(u, signed)
    ensures Text(p, u, signed)[0] == 0x2D <==> Negative(u, signed)
  {
    var neg, m := Negative(u, signed), Magnitude(u, signed);
    NumeralDenotes(p, m, neg);
    MinusTells(p, u, signed);
    TextFromLead(p, u, signed, Numeral(p, m, neg));
  }

  lemma NumeralStart(p: Spec, m: nat, neg: bool)
    requires Legal(p)
    ensures Numeral(p, m, neg)[0] >= 0x30
  {
    var d := Digits(m, p.base, p.upper);
    AllAscii(p, m);
    if Wanted(p, neg) - |d| > 0 {
      assert Numeral(p, m, neg)[0] == 0x30;
    } else {
      assert Numeral(p, m, neg) == d;
    }
  }

  lemma {:induction false} AllAscii(p: Spec, m: nat)
    ensures forall i :: 0 <= i < |Digits(m, p.base, p.upper)| ==> 0x30 <= Digits(m, p.base, p.upper)[i] < 0x80
    decreases m
  {
    if m >= p.base {
      AllAscii(p, Rest(m, p.base));
    }
  }

  /** Decimal digits are digits. */
  lemma {:induction false} DigitBytes(n: nat)
    ensures forall i :: 0 <= i < |Digits(n, 10, false)| ==> 0x30 <= Digits(n, 10, false)[i] <= 0x39
    decreases n
  {
    LastRest(n, 10);
    if n >= 10 { DigitBytes(Rest(n, 10)); }
  }

  /** Different numbers never print alike. */
  lemma TextIsInjective(p: Spec, u: nat, v: nat, signed: bool)
    requires Legal(p) && u < WORD && v < WORD && Text(p, u, signed) == Text(p, v, signed)
    ensures u == v
  {
    TextDenotes(p, u, signed);
    TextDenotes(p, v, signed);
  }

  lemma {:induction false} FillIs(c: byte, n: int)
    ensures forall i :: 0 <= i < |Fill(c, n)| ==> Fill(c, n)[i] == c
  {
    if n > 0 { FillIs(c, n - 1); }
  }

  ghost predicate InAscii(b: seq<byte>) {
    forall i :: 0 <= i < |b| ==> b[i] < RUNE_SELF
  }

  lemma {:induction false} AsciiCount(b: seq<byte>)
    requires InAscii(b)
    ensures RuneCount(b) == |b|
  {
    if b != [] { AsciiCount(b[1..]); }
  }

  lemma NumeralIsAscii(p: Spec, m: nat, neg: bool)
    requires Legal(p)
    ensures InAscii(Numeral(p, m, neg))
  {
    AllAscii(p, m);
    FillIs(0x30, Wanted(p, neg) - |Digits(m, p.base, p.upper)|);
  }

  lemma TextIsAscii(p: Spec, u: nat, signed: bool)
    requires Legal(p) && u < WORD
    ensures InAscii(Text(p, u, signed))
  {
    var neg, m := Negative(u, signed), Magnitude(u, signed);
    NumeralIsAscii(p, m, neg);
    var numeral := Numeral(p, m, neg);
    AsciiConcat(Mark(p, numeral), numeral);
    AsciiConcat(OctalMark(p), Mark(p, numeral) + numeral);
    AsciiConcat(Sign(p, neg), OctalMark(p) + (Mark(p, numeral) + numeral));
  }

  lemma {:induction false} AsciiConcat(a: seq<byte>, b: seq<byte>)
    requires InAscii(a) && InAscii(b)
    ensures InAscii(a + b)
  {
  }

  /** The output is at least as wide as asked, and no wider than the width or the text. */
  lemma FormattedWidth(p: Spec, u: nat, signed: bool)
    requires Legal(p) && u < WORD
    ensures p.flags.widPresent ==> RuneCount(Formatted(p, u, signed)) >= p.wid
    ensures p.flags.widPresent && !(p.flags.precPresent && p.prec == 0 && u == 0) ==>
              RuneCount(Formatted(p, u, signed)) == Max(p.wid, |Text(p, u, signed)|)
  {
    var out, text := Formatted(p, u, signed), Text(p, u, signed);
    TextIsAscii(p, u, signed);
    AsciiCount(text);
    FillIs(0x20, p.wid);
    FillIs(0x20, p.wid - |text|);
    assert InAscii(out);
    AsciiCount(out);
  }

  /** The text fits the buffer fmtInteger chooses. */
  lemma TextFits(p: Spec, u: nat, signed: bool)
    requires Legal(p) && u < WORD
    ensures |Text(p, u, signed)| <= 68 ||
            ((p.flags.widPresent || p.flags.precPresent) && |Text(p, u, signed)| <= 3 + p.wid + p.prec)
  {
    var m, neg := Magnitude(u, signed), Negative(u, signed);
    var d := Digits(m, p.base, p.upper);
    WordFits(m, p.base, p.upper);
    if Wanted(p, neg) > |d| {
      assert Numeral(p, m, neg)[0] == 0x30;
    }
  }

  // ----- the layout ---------------------------------------------------

  /** The digits and letters themselves. */
  lemma FigureIs(d: nat, upper: bool)
    requires d < 16
    ensures DigitChar(d, upper) as char == (if upper then "0123456789ABCDEF" else "0123456789abcdef")[d]
  {
  }

  /** '-' for a negative number, otherwise '+' or a space by their flags. */
  function SignText(f: Flags, negative: bool): string {
    if negative then "-" else if f.plus then "+" else if f.space then " " else ""
  }

  /** The mark of the base before the zeros and the digits. */
  function MarkText(p: Spec, zeros: bool, first: byte): string {
    if !p.flags.sharp then ""
    else if p.base == 2 then "0b"
    else if p.base == 16 then (if p.upper then "0X" else "0x")
    else if p.base == 8 && !zeros && first != '0' as int then "0"
    else ""
  }

  lemma SignIs(p: Spec, negative: bool)
    ensures Sign(p, negative) == Ascii(SignText(p.flags, negative)) && OctalMark(p) == Ascii(if p.octal then "0o" else "")
  {
  }

  lemma MarkIs(p: Spec, z: seq<byte>, d: seq<byte>)
    requires d != [] && (z != [] ==> z[0] == 0x30)
    ensures Mark(p, z + d) == Ascii(MarkText(p, z != [], d[0]))
  {
    assert (z + d)[0] == if z == [] then d[0] else z[0];
  }

  /** How many digits there are at least: the precision, or with the zero flag the width less one for a sign. */
  function Least(p: Spec, negative: bool): int {
    if p.flags.precPresent then p.prec
    else if p.flags.zero && p.flags.widPresent then p.wid - |SignText(p.flags, negative)|
    else 0
  }

  /** The text is a sign, "0o", the mark of the base, zeros, and the digits of the absolute value. */
  lemma TextLayout(p: Spec, u: nat, signed: bool)
    requires Legal(p) && u < 0x1_0000_0000_0000_0000
    ensures var neg := signed && u >= 0x8000_0000_0000_0000;
            var d := Digits(if neg then 0x1_0000_0000_0000_0000 - u else u, p.base, p.upper);
            var z := Fill('0' as int, Least(p, neg) - |d|);
            Text(p, u, signed) ==
              Ascii(SignText(p.flags, neg)) + (Ascii(if p.octal then "0o" else "") + (Ascii(MarkText(p, z != [], d[0])) + (z + d)))
  {
    var neg := Negative(u, signed);
    var d := Digits(Magnitude(u, signed), p.base, p.upper);
    var z := Fill(0x30, Wanted(p, neg) - |d|);
    SignIs(p, neg);
    MarkIs(p, z, d);
    assert Wanted(p, neg) == Least(p, neg);
    NumeralIs(p, Magnitude(u, signed), neg, z, d);
  }

  lemma NumeralIs(p: Spec, m: nat, neg: bool, z: seq<byte>, d: seq<byte>)
    requires Legal(p) && d == Digits(m, p.base, p.upper) && z == Fill(0x30, Wanted(p, neg) - |d|)
    ensures Numeral(p, m, neg) == z + d
  {
  }

  /**
   Spaces up to the width stand before the text, or after it with the minus flag; zero with the
   precision zero has no text.
   */
  lemma FormattedLayout(p: Spec, u: nat, signed: bool)
    requires Legal(p) && u < WORD
    ensures var text := if p.flags.precPresent && p.prec == 0 && u == 0 then [] else Text(p, u, signed);
            var spaces := Fill(' ' as int, if p.flags.widPresent || text == [] then p.wid - |text| else 0);
            Formatted(p, u, signed) == if p.flags.minus then text + spaces else spaces + text
  {
    TextIsAscii(p, u, signed);
    AsciiCount(Text(p, u, signed));
  }

  // ----- the formatter ------------------------------------------------

  /** i--; buf[i] = c */
  method Put(buf: array<byte>, i: nat, c: byte) returns (j: nat)
    requires 0 < i <= buf.Length
    modifies buf
    ensures j == i - 1 && buf[j..] == [c] + old(buf[i..])
  {
    j := i - 1;
    buf[j] := c;
  }

  /** Fills `n` bytes from `start` on. */
  method FillRange(a: array<byte>, start: nat, n: nat, c: byte)
    requires start + n <= a.Length
    modifies a
    ensures a[..start] == old(a[..start])
    ensures a[start..start + n] == Fill(c, n)
  {
    for i := 0 to n
      invariant a[..start] == old(a[..start])
      invariant a[start..start + i] == Fill(c, i)
    {
      FillEnd(c, i + 1);
      a[start + i] := c;
      assert a[start..start + i + 1] == a[start..start + i] + [c];
    }
  }

  /** Copies `b` to `start`. */
  method CopyInto(a: array<byte>, start: nat, b: seq<byte>)
    requires start + |b| <= a.Length
    modifies a
    ensures a[..start] == old(a[..start])
    ensures a[start..start + |b|] == b
  {
    for i := 0 to |b|
      invariant a[..start] == old(a[..start])
      invariant a[start..start + i] == b[..i]
    {
      a[start + i] := b[i];
    }
  }

  lemma TwoParts(a: seq<byte>, m: nat, n: nat)
    requires m <= n <= |a|
    ensures a[..n] == a[..m] + a[m..n]
  {
  }

  class Formatter {
    var store: array<byte>
    var len: nat
    var flags: Flags
    var wid: nat
    var prec: nat
    const intbuf: array<byte>

    ghost predicate Valid()
      reads this
    {
      len <= store.Length && intbuf.Length == 68 && intbuf != store
    }

    ghost function Contents(): seq<byte>
      requires len <= store.Length
      reads this, store
    {
      store[..len]
    }

    constructor (flags: Flags, wid: nat, prec: nat)
      ensures Valid() && fresh(store) && fresh(intbuf) && Contents() == []
      ensures this.flags == flags && this.wid == wid && this.prec == prec
    {
      store := new byte[0];
      intbuf := new byte[68];
      len := 0;
      this.flags, this.wid, this.prec := flags, wid, prec;
    }

    /** A buffer of the given capacity holding the same contents. */
    method Grow(capacity: nat)
      requires Valid() && capacity >= len
      modifies this
      ensures Valid() && fresh(store) && store.Length == capacity && len == old(len)
      ensures flags == old(flags) && wid == old(wid) && prec == old(prec)
      ensures Contents() == old(Contents())
    {
      var bigger := new byte[capacity];
      for i := 0 to len
        invariant len == old(len) && store == old(store) && fresh(bigger) && bigger.Length == capacity
        invariant flags == old(flags) && wid == old(wid) && prec == old(prec)
        invariant bigger[..i] == store[..i]
      {
        bigger[i] := store[i];
      }
      store := bigger;
    }

    /** buffer.write: appends, growing when the capacity does not suffice. */
    method Write(b: seq<byte>)
      requires Valid()
      modifies this, store
      ensures Valid() && (store == old(store) || fresh(store))
      ensures flags == old(flags) && wid == old(wid) && prec == old(prec)
      ensures Contents() == old(Contents()) + b
    {
      if len + |b| > store.Length {
        Grow(store.Length * 2 + |b|);
      }
      CopyInto(store, len, b);
      TwoParts(store[..], len, len + |b|);
      len := len + |b|;
    }

    /** writePadding. */
    method WritePadding(n: int)
      requires Valid()
      modifies this, store
      ensures Valid() && (store == old(store) || fresh(store))
      ensures flags == old(flags) && wid == old(wid) && prec == old(prec)
      ensures Contents() == old(Contents()) + Fill(if old(flags).zero then 0x30 else 0x20, n)
    {
      if n <= 0 { return; }
      if len + n > store.Length {
        Grow(store.Length * 2 + n);
      }
      FillRange(store, len, n, if flags.zero then 0x30 else 0x20);
      TwoParts(store[..], len, len + n);
      len := len + n;
    }

    /** pad. */
    method Pad(b: seq<byte>)
      requires Valid()
      modifies this, store
      ensures Valid() && (store == old(store) || fresh(store))
      ensures flags == old(flags) && wid == old(wid) && prec == old(prec)
      ensures Contents() == old(Contents()) + Padded(old(flags), old(wid), b)
    {
      if !flags.widPresent || wid == 0 {
        Write(b);
        return;
      }
      var width := wid - RuneCount(b);
      if !flags.minus {
        WritePadding(width);
        Write(b);
      } else {
        Write(b);
        WritePadding(width);
      }
    }

    /** Runs of output with the zero flag cleared, then restored. */
    method PadPlain(b: seq<byte>)
      requires Valid()
      modifies this, store
      ensures Valid() && (store == old(store) || fresh(store))
      ensures flags == old(flags) && wid == old(wid) && prec == old(prec)
      ensures Contents() == old(Contents()) + Padded(old(flags).(zero := false), old(wid), b)
    {
      var oldZero := flags.zero;
      flags := flags.(zero := false);
      Pad(b);
      flags := flags.(zero := oldZero);
    }

    /** fmtInteger: the cursor stays inside the chosen buffer, and the output is exactly as specified. */
    method FmtInteger(u: nat, base: Base, signed: bool, octal: bool, upper: bool)
      requires Valid() && u < WORD && (octal ==> base == 8)
      modifies this, store, intbuf
      ensures Valid() && (store == old(store) || fresh(store))
      ensures flags == old(flags) && wid == old(wid) && prec == old(prec)
      ensures Contents() == old(Contents()) + Formatted(Spec(old(flags), old(wid), old(prec), base, octal, upper), u, signed)
    {
      var p := Spec(flags, wid, prec, base, octal, upper);
      var negative := signed && u >= WORD / 2;
      var m := if negative then WORD - u else u;
      if flags.precPresent && prec == 0 && m == 0 {
        Blank();
        return;
      }
      var buf := intbuf;
      if (flags.widPresent || flags.precPresent) && 3 + wid + prec > buf.Length {
        buf := new byte[3 + wid + prec];
      }
      TextFits(p, u, signed);
      var i := Render(buf, u, m, negative, base, octal, upper, p, signed);
      PadPlain(buf[i..]);
    }

    method Blank()
      requires Valid()
      modifies this, store
      ensures Valid() && (store == old(store) || fresh(store))
      ensures flags == old(flags) && wid == old(wid) && prec == old(prec)
      ensures Contents() == old(Contents()) + Fill(0x20, old(wid))
    {
      var oldZero := flags.zero;
      flags := flags.(zero := false);
      WritePadding(wid);
      flags := flags.(zero := oldZero);
    }

    /** Writes the text right to left; `i` is where it starts. */
    method Render(buf: array<byte>, u: nat, m: nat, negative: bool, base: Base, octal: bool, upper: bool, p: Spec, ghost signed: bool)
      returns (i: nat)
      requires Valid() && u < WORD && buf != store
      requires p == Spec(flags, wid, prec, base, octal, upper) && Legal(p)
      requires negative == Negative(u, signed) && m == Magnitude(u, signed)
      requires |Text(p, u, signed)| <= buf.Length
      modifies buf
      ensures i <= buf.Length && buf[i..] == Text(p, u, signed)
    {
      ghost var numeral := Numeral(p, m, negative);
      i := RenderDigits(buf, m, base, upper);
      i := RenderZeros(buf, i, negative, p, Digits(m, base, upper));
      i := RenderMark(buf, i, p, numeral);
      i := RenderOctal(buf, i, p, Mark(p, numeral) + numeral);
      i := RenderSign(buf, i, negative, p, OctalMark(p) + (Mark(p, numeral) + numeral));
    }

    method RenderOctal(buf: array<byte>, start: nat, p: Spec, ghost body: seq<byte>) returns (i: nat)
      requires start <= buf.Length && buf[start..] == body && |OctalMark(p)| <= start
      modifies buf
      ensures i <= buf.Length && buf[i..] == OctalMark(p) + body
    {
      i := start;
      if p.octal {
        i := Put(buf, i, 0x6F);
        i := Put(buf, i, 0x30);
      }
    }

    /** The sharp flag's mark before the numeral. */
    method RenderMark(buf: array<byte>, start: nat, p: Spec, ghost numeral: seq<byte>) returns (i: nat)
      requires start < buf.Length && buf[start..] == numeral && numeral != [] && |Mark(p, numeral)| <= start
      modifies buf
      ensures i <= buf.Length && buf[i..] == Mark(p, numeral) + numeral
    {
      i := start;
      if p.flags.sharp {
        if p.base == 2 {
          i := Put(buf, i, 0x62);
          i := Put(buf, i, 0x30);
        } else if p.base == 8 {
          if buf[i] != 0x30 { i := Put(buf, i, 0x30); }
        } else if p.base == 16 {
          i := Put(buf, i, if p.upper then 0x58 else 0x78);
          i := Put(buf, i, 0x30);
        }
      }
    }

    method RenderSign(buf: array<byte>, start: nat, negative: bool, p: Spec, ghost body: seq<byte>) returns (i: nat)
      requires start <= buf.Length && buf[start..] == body && |Sign(p, negative)| <= start
      modifies buf
      ensures i <= buf.Length && buf[i..] == Sign(p, negative) + body
    {
      i := start;
      if negative {
        i := Put(buf, i, 0x2D);
      } else if p.flags.plus {
        i := Put(buf, i, 0x2B);
      } else if p.flags.space {
        i := Put(buf, i, 0x20);
      }
    }

    /** The digits of `m`, last first. */
    method RenderDigits(buf: array<byte>, m: nat, base: Base, upper: bool) returns (i: nat)
      requires |Digits(m, base, upper)| <= buf.Length
      modifies buf
      ensures i <= buf.Length && buf[i..] == Digits(m, base, upper)
    {
      var u: nat := m;
      i := buf.Length;
      while u >= base
        invariant i <= buf.Length && |Digits(u, base, upper)| <= i
        invariant Digits(u, base, upper) + buf[i..] == Digits(m, base, upper)
        decreases u
      {
        Snoc(Digits(Rest(u, base), base, upper), DigitChar(Last(u, base), upper), buf[i..]);
        i := Put(buf, i, DigitChar(Last(u, base), upper));
        u := Rest(u, base);
      }
      i := Put(buf, i, DigitChar(u, upper));
    }

    /** Leading zeros up to the precision. */
    method RenderZeros(buf: array<byte>, start: nat, negative: bool, p: Spec, ghost d: seq<byte>) returns (i: nat)
      requires start < buf.Length && buf[start..] == d && Wanted(p, negative) <= buf.Length
      modifies buf
      ensures i < buf.Length && buf[i..] == Fill(0x30, Wanted(p, negative) - |d|) + d
    {
      var want: int := 0;
      if p.flags.precPresent {
        want := p.prec;
      } else if p.flags.zero && p.flags.widPresent {
        want := p.wid;
        if negative || p.flags.plus || p.flags.space { want := want - 1; }
      }
      i := ZeroFill(buf, start, want, d);
    }

    method ZeroFill(buf: array<byte>, start: nat, want: int, ghost d: seq<byte>) returns (i: nat)
      requires start < buf.Length && buf[start..] == d && want <= buf.Length
      modifies buf
      ensures i < buf.Length && buf[i..] == Fill(0x30, want - |d|) + d
    {
      i := start;
      ghost var done := d;
      while i > 0 && want > buf.Length - i
        invariant i <= start && buf[i..] == done && done == Fill(0x30, start - i) + d
        invariant i < start ==> want >= buf.Length - i
      {
        FillCons(start - i, d);
        done := [0x30] + done;
        i := Put(buf, i, 0x30);
      }
      if i == start {
        assert Fill(0x30, want - |d|) == [];
      } else {
        assert start - i == want - |d|;
      }
    }
  }

  lemma FillCons(n: nat, d: seq<byte>)
    ensures Fill(0x30, n + 1) + d == [0x30] + (Fill(0x30, n) + d)
  {
  }

  lemma Snoc(a: seq<byte>, c: byte, b: seq<byte>)
    ensures (a + [c]) + b == a + ([c] + b)
  {
  }
}
