/**
 * Media types with parameters (mime/mediatype.go, mime/grammar.go): section 5.1 of
 * RFC 2045 and sections 4 and 7 of RFC 2231.
 */
module MediaType {
  import opened Prelude
  import opened Utf8
  import EncodedWord
  import FmtInteger

  type bytes = seq<byte>

  const SLASH: byte := 0x2F
  const SEMI: byte := 0x3B
  const STAR: byte := 0x2A
  const EQUALS: byte := 0x3D
  const QUOTE: byte := 0x22
  const BACKSLASH: byte := 0x5C
  const TICK: byte := 0x27
  const PERCENT: byte := 0x25
  const SPACE: byte := 0x20

  // ----- grammar ------------------------------------------------------

  /** ( ) < > @ , ; : \ " / [ ] ? = */
  predicate TSpecial(c: byte) {
    c == 0x28 || c == 0x29 || c == 0x3C || c == 0x3E || c == 0x40 || c == 0x2C || c == 0x3B || c == 0x3A
    || c == 0x5C || c == 0x22 || c == 0x2F || c == 0x5B || c == 0x5D || c == 0x3F || c == 0x3D
  }

  predicate TokenChar(c: byte) {
    0x20 < c < 0x7F && !TSpecial(c)
  }

  ghost predicate TokenChars(s: bytes) {
    forall i :: 0 <= i < |s| ==> TokenChar(s[i])
  }

  predicate IsToken(s: bytes) {
    s != [] && forall i :: 0 <= i < |s| ==> TokenChar(s[i])
  }

  function Lower(s: bytes): (r: bytes)
    ensures |r| == |s| && forall i :: 0 <= i < |s| ==> r[i] == EncodedWord.Lower(s[i])
  {
    seq(|s|, i requires 0 <= i < |s| => EncodedWord.Lower(s[i]))
  }

  predicate IsSpace(c: byte) {
    0x09 <= c <= 0x0D || c == 0x20
  }

  function TrimLeft(s: bytes): (r: bytes)
    ensures |r| <= |s|
  {
    if s == [] || !IsSpace(s[0]) then s else TrimLeft(s[1..])
  }

  function TrimRight(s: bytes): (r: bytes)
    ensures |r| <= |s|
  {
    if s == [] || !IsSpace(s[|s| - 1]) then s else TrimRight(s[..|s| - 1])
  }

  function TrimSpace(s: bytes): bytes {
    TrimRight(TrimLeft(s))
  }

  function NeedsEncoding(s: bytes): bool {
    EncodedWord.NeedsEncoding(s)
  }

  // ----- formatting ---------------------------------------------------

  /** attribute-char of RFC 2231, written as it is. */
  predicate AttributeChar(c: byte) {
    !(c <= 0x20 || c >= 0x7F || c == STAR || c == TICK || c == PERCENT || TSpecial(c))
  }

  function PercentByte(c: byte): bytes {
    if AttributeChar(c) then [c] else [PERCENT, EncodedWord.UpperHex(c / 16), EncodedWord.UpperHex(c % 16)]
  }

  function Percent(s: bytes): bytes {
    if s == [] then [] else PercentByte(s[0]) + Percent(s[1..])
  }

  function EscapeByte(c: byte): bytes {
    if c == QUOTE || c == BACKSLASH then [BACKSLASH, c] else [c]
  }

  function Escaped(s: bytes): bytes {
    if s == [] then [] else EscapeByte(s[0]) + Escaped(s[1..])
  }

  /** utf-8'' */
  const CHARSET: bytes := [0x75, 0x74, 0x66, 0x2D, 0x38, TICK, TICK]

  /** What stands before the equals sign; `star` for a value that needs encoding. */
  function KeyText(k: bytes, star: bool): bytes {
    if star then Lower(k) + [STAR] else Lower(k)
  }

  /** What stands after it. */
  function ValueText(v: bytes, star: bool): bytes {
    if star then CHARSET + Percent(v)
    else if IsToken(v) then v
    else [QUOTE] + (Escaped(v) + [QUOTE])
  }

  function ParamText(k: bytes, v: bytes, star: bool): bytes {
    [SEMI, SPACE] + (KeyText(k, star) + ([EQUALS] + ValueText(v, star)))
  }

  /** The text of one parameter of m. */
  function Printer(m: map<bytes, bytes>): bytes -> bytes {
    k => if k in m then ParamText(k, m[k], NeedsEncoding(m[k])) else []
  }

  function Joined(printed: bytes -> bytes, keys: seq<bytes>): bytes {
    if keys == [] then [] else printed(keys[0]) + Joined(printed, keys[1..])
  }

  function Params(m: map<bytes, bytes>, keys: seq<bytes>): bytes {
    Joined(Printer(m), keys)
  }

  /** The index of the first c in s, or -1. */
  function IndexByte(s: bytes, c: byte): (i: int)
    ensures -1 <= i < |s|
    ensures i >= 0 ==> s[i] == c && c !in s[..i]
    ensures i < 0 ==> c !in s
  {
    if s == [] then -1 else if s[0] == c then 0
    else
      var i := IndexByte(s[1..], c);
      if i < 0 then -1 else assert s[..i + 1] == [s[0]] + s[1..][..i]; i + 1
  }

  /** A token, or two with a slash between them. */
  predicate TypeOk(t: bytes) {
    var slash := IndexByte(t, SLASH);
    if slash < 0 then IsToken(t) else IsToken(t[..slash]) && IsToken(t[slash + 1..])
  }

  /** The parameters in the given order. */
  function Format(t: bytes, m: map<bytes, bytes>, keys: seq<bytes>): bytes {
    if !TypeOk(t) || (exists k :: k in keys && !IsToken(k)) then [] else Lower(t) + Params(m, keys)
  }

  // ----- parsing ------------------------------------------------------

  /** consumeToken: the longest prefix of token characters, and the rest. */
  function ConsumeToken(v: bytes): (r: (bytes, bytes))
    ensures r.0 + r.1 == v && TokenChars(r.0)
  {
    if v == [] || !TokenChar(v[0]) then ([], v)
    else var (t, rest) := ConsumeToken(v[1..]); ([v[0]] + t, rest)
  }

  /** The quoted string whose content starts at v[i]; None without an end quote. */
  function Unquote(v: bytes, i: nat, acc: bytes): Option<(bytes, bytes)>
    requires i <= |v|
    decreases |v| - i
  {
    if i == |v| then None
    else if v[i] == QUOTE then Some((acc, v[i + 1..]))
    else if v[i] == BACKSLASH && i + 1 < |v| && TSpecial(v[i + 1]) then Unquote(v, i + 2, acc + [v[i + 1]])
    else if v[i] == 0x0D || v[i] == 0x0A then None
    else Unquote(v, i + 1, acc + [v[i]])
  }

  function ConsumeValue(v: bytes): (bytes, bytes) {
    if v == [] then ([], [])
    else if v[0] != QUOTE then ConsumeToken(v)
    else match Unquote(v, 1, []) case None => ([], v) case Some(r) => r
  }

  /** consumeMediaParam: name, value and rest; an empty name is failure. */
  function ConsumeParam(v: bytes): (bytes, bytes, bytes) {
    var fail := ([], [], v);
    var a := TrimLeft(v);
    if a == [] || a[0] != SEMI then fail
    else
      var (name, b) := ConsumeToken(TrimLeft(a[1..]));
      var c := TrimLeft(b);
      if name == [] || c == [] || c[0] != EQUALS then fail
      else
        var d := TrimLeft(c[1..]);
        var (value, rest) := ConsumeValue(d);
        if value == [] && rest == d then fail else (Lower(name), value, rest)
  }

  lemma {:induction false} UnquoteShorter(v: bytes, i: nat, acc: bytes)
    requires i <= |v|
    ensures Unquote(v, i, acc).Some? ==> |Unquote(v, i, acc).value.1| < |v| - i
    decreases |v| - i
  {
    if i < |v| && v[i] != QUOTE {
      if v[i] == BACKSLASH && i + 1 < |v| && TSpecial(v[i + 1]) {
        UnquoteShorter(v, i + 2, acc + [v[i + 1]]);
      } else if v[i] != 0x0D && v[i] != 0x0A {
        UnquoteShorter(v, i + 1, acc + [v[i]]);
      }
    }
  }

  lemma ConsumeShorter(v: bytes)
    ensures ConsumeParam(v).0 != [] ==> |ConsumeParam(v).2| < |v|
  {
    var a := TrimLeft(v);
    if a != [] && a[0] == SEMI {
      var (name, b) := ConsumeToken(TrimLeft(a[1..]));
      var c := TrimLeft(b);
      if name != [] && c != [] && c[0] == EQUALS {
        var d := TrimLeft(c[1..]);
        if d != [] { UnquoteShorter(d, 1, []); }
        assert |ConsumeValue(d).1| <= |d|;
      }
    }
  }

  /** percentHexUnescape; None for a percent sign without two hexadecimal digits. */
  function Unescape(s: bytes): Option<bytes> {
    if s == [] then Some([])
    else if s[0] != PERCENT then EncodedWord.Prepend([s[0]], Unescape(s[1..]))
    else if |s| < 3 then None
    else
      match EncodedWord.ReadHexByte(s[1], s[2])
      case None => None
      case Some(b) => EncodedWord.Prepend([b], Unescape(s[3..]))
  }

  /** decode2231Enc: charset'language'text. */
  function Decode2231(v: bytes): Option<bytes> {
    var a := IndexByte(v, TICK);
    if a < 0 then None
    else
      var rest := v[a + 1..];
      var b := IndexByte(rest, TICK);
      var charset := Lower(v[..a]);
      if b < 0 || (charset != EncodedWord.ASCII && charset != EncodedWord.UTF8) then None else Unescape(rest[b + 1..])
  }

  function Text(r: Option<bytes>): bytes {
    match r case Some(s) => s case None => []
  }

  /** The name of part n of a value in several parts. */
  function PartName(key: bytes, n: nat): bytes {
    key + ([STAR] + FmtInteger.Digits(n, 10, false))
  }

  lemma PartNamesDiffer(key: bytes, m: nat, n: nat)
    requires PartName(key, m) == PartName(key, n)
    ensures m == n
  {
    SameTail(key, FmtInteger.Digits(m, 10, false), FmtInteger.Digits(n, 10, false));
    FmtInteger.DigitsDenote(m, 10, false);
    FmtInteger.DigitsDenote(n, 10, false);
  }

  lemma SameTail(key: bytes, a: bytes, b: bytes)
    requires key + ([STAR] + a) == key + ([STAR] + b)
    ensures a == b
  {
    assert (key + ([STAR] + a))[|key| + 1..] == a;
    assert (key + ([STAR] + b))[|key| + 1..] == b;
  }

  /** The parts from n on, one after the other; `left` holds those not used yet. */
  function Parts(key: bytes, left: map<bytes, bytes>, n: nat): bytes
    decreases |left|
  {
    var simple := PartName(key, n);
    var encoded := simple + [STAR];
    if simple in left then left[simple] + Parts(key, left - {simple}, n + 1)
    else if encoded in left then
      Text(if n == 0 then Decode2231(left[encoded]) else Unescape(left[encoded])) + Parts(key, left - {encoded}, n + 1)
    else []
  }

  /** The value stitched together from the starred parameters of one name; None for no valid one. */
  function Stitch(key: bytes, pieces: map<bytes, bytes>): Option<bytes> {
    if key + [STAR] in pieces then Decode2231(pieces[key + [STAR]])
    else if PartName(key, 0) in pieces || PartName(key, 0) + [STAR] in pieces then Some(Parts(key, pieces, 0))
    else None
  }

  type Table = map<bytes, map<bytes, bytes>>

  /** The parameters without a star, overridden by the stitched ones. */
  function Stitched(params: map<bytes, bytes>, cont: Table): map<bytes, bytes> {
    params + map k | k in cont && Stitch(k, cont[k]).Some? :: Stitch(k, cont[k]).value
  }

  datatype Parsed = Ok(mediatype: bytes, params: map<bytes, bytes>) | BadType | BadParam(mediatype: bytes) | Duplicate

  /** The loop over the parameters. */
  function ParseParams(t: bytes, text: bytes, params: map<bytes, bytes>, cont: Table): Parsed
    decreases |text|
  {
    var v := TrimLeft(text);
    if v == [] then Ok(t, Stitched(params, cont))
    else
      ConsumeShorter(v);
      var (key, value, rest) := ConsumeParam(v);
      if key == [] then (if TrimSpace(rest) == [SEMI] then Ok(t, params) else BadParam(t))
      else if STAR !in key then
        if key in params then Duplicate else ParseParams(t, rest, params[key := value], cont)
      else
        var base := key[..IndexByte(key, STAR)];
        var pieces := if base in cont then cont[base] else map[];
        if key in pieces then Duplicate else ParseParams(t, rest, params, cont[base := pieces[key := value]])
  }

  /** checkMediaTypeDisposition. */
  predicate CheckType(s: bytes) {
    var (typ, rest) := ConsumeToken(s);
    typ != [] && (rest == [] || (rest[0] == SLASH &&
      var (sub, end) := ConsumeToken(rest[1..]); sub != [] && end == []))
  }

  /** The type a text names, and the text of its parameters. */
  function Head(v: bytes): (bytes, bytes) {
    var semi := IndexByte(v, SEMI);
    var i := if semi < 0 then |v| else semi;
    (TrimSpace(Lower(v[..i])), v[i..])
  }

  function Parse(v: bytes): Parsed {
    if !CheckType(Head(v).0) then BadType else ParseParams(Head(v).0, Head(v).1, map[], map[])
  }

  // ----- one parameter there and back ---------------------------------

  /** Where a token ends. */
  predicate Ends(tail: bytes) {
    tail == [] || !TokenChar(tail[0])
  }

  lemma {:induction false} TokenBack(s: bytes, tail: bytes)
    requires TokenChars(s) && Ends(tail)
    ensures ConsumeToken(s + tail) == (s, tail)
  {
    if s == [] {
      assert s + tail == tail;
    } else {
      TokenBack(s[1..], tail);
      assert (s + tail)[1..] == s[1..] + tail && [s[0]] + s[1..] == s;
    }
  }

  lemma {:induction false} PercentIsToken(s: bytes)
    ensures TokenChars(Percent(s))
  {
    if s != [] { PercentIsToken(s[1..]); }
  }

  lemma UnescapeByte(c: byte, rest: bytes)
    ensures Unescape(PercentByte(c) + rest) == EncodedWord.Prepend([c], Unescape(rest))
  {
    var s := PercentByte(c) + rest;
    assert s[|PercentByte(c)|..] == rest;
    if !AttributeChar(c) {
      assert EncodedWord.FromHex(EncodedWord.UpperHex(c / 16)) == Some(c / 16);
      assert EncodedWord.FromHex(EncodedWord.UpperHex(c % 16)) == Some(c % 16);
    }
  }

  /** Percent-encoding is undone, whatever the bytes. */
  lemma {:induction false} PercentBack(s: bytes)
    ensures Unescape(Percent(s)) == Some(s)
  {
    if s != [] {
      UnescapeByte(s[0], Percent(s[1..]));
      PercentBack(s[1..]);
      assert [s[0]] + s[1..] == s;
    }
  }

  lemma IndexIs(s: bytes, c: byte, i: nat)
    requires i < |s| && s[i] == c && c !in s[..i]
    ensures IndexByte(s, c) == i
  {
  }

  lemma EncodedBack(v: bytes)
    ensures Decode2231(CHARSET + Percent(v)) == Some(v)
  {
    var s := CHARSET + Percent(v);
    assert s[..5] == EncodedWord.UTF8 && s[5] == TICK;
    IndexIs(s, TICK, 5);
    var rest := s[6..];
    assert rest[0] == TICK && rest[..0] == [];
    IndexIs(rest, TICK, 0);
    assert rest[1..] == Percent(v);
    assert Lower(EncodedWord.UTF8) == EncodedWord.UTF8;
    PercentBack(v);
  }

  /** No byte that ends a quoted string early. */
  ghost predicate OneLine(v: bytes) {
    forall i :: 0 <= i < |v| ==> v[i] != 0x0D && v[i] != 0x0A
  }

  lemma After(s: bytes, i: nat, p: bytes, more: bytes)
    requires i <= |s| && s[i..] == p + more
    ensures i + |p| <= |s| && s[i + |p|..] == more
    ensures forall x :: 0 <= x < |p| ==> s[i + x] == p[x]
  {
    assert |s[i..]| == |p| + |more|;
    assert s[i + |p|..] == s[i..][|p|..];
    assert forall x :: 0 <= x < |p| ==> s[i + x] == s[i..][x];
  }

  lemma EscapedFirst(v: bytes, tail: bytes)
    requires v != []
    ensures Escaped(v) + tail == EscapeByte(v[0]) + (Escaped(v[1..]) + tail)
  {
  }

  lemma {:induction false} QuotedFrom(s: bytes, i: nat, v: bytes, tail: bytes, acc: bytes)
    requires i <= |s| && s[i..] == Escaped(v) + ([QUOTE] + tail) && OneLine(v)
    ensures Unquote(s, i, acc) == Some((acc + v, tail))
    decreases |v|
  {
    if v == [] {
      assert s[i..] == [QUOTE] + tail;
      After(s, i, [QUOTE], tail);
      assert acc + v == acc;
    } else {
      var c, k := v[0], |EscapeByte(v[0])|;
      EscapedFirst(v, [QUOTE] + tail);
      After(s, i, EscapeByte(c), Escaped(v[1..]) + ([QUOTE] + tail));
      QuotedFrom(s, i + k, v[1..], tail, acc + [c]);
      assert (acc + [c]) + v[1..] == acc + v;
    }
  }

  lemma QuotedBack(v: bytes, tail: bytes)
    requires OneLine(v)
    ensures ConsumeValue([QUOTE] + (Escaped(v) + [QUOTE]) + tail) == (v, tail)
  {
    var s := [QUOTE] + (Escaped(v) + [QUOTE]) + tail;
    assert s[1..] == Escaped(v) + ([QUOTE] + tail);
    QuotedFrom(s, 1, v, tail, []);
    assert [] + v == v;
  }

  lemma SmallRune(s: bytes)
    requires s != [] && DecodeRune(s).0 < 0x80
    ensures DecodeRune(s) == (s[0], 1)
  {
  }

  predicate Calm(r: rune) {
    0x20 <= r <= 0x7E || r == 0x09
  }

  lemma {:induction false} PlainIsOneLine(v: bytes)
    requires forall i :: 0 <= i < |DecodeAll(v)| ==> Calm(DecodeAll(v)[i])
    ensures OneLine(v)
  {
    if v != [] {
      var all, rest := DecodeAll(v), v[1..];
      assert Calm(all[0]);
      SmallRune(v);
      assert all == [DecodeRune(v).0] + DecodeAll(rest);
      forall i | 0 <= i < |DecodeAll(rest)|
        ensures Calm(DecodeAll(rest)[i])
      {
        assert DecodeAll(rest)[i] == all[i + 1];
      }
      PlainIsOneLine(rest);
      assert v == [v[0]] + rest;
    }
  }

  /** A string that needs no encoding is on one line. */
  lemma PlainValue(v: bytes)
    requires !NeedsEncoding(v)
    ensures OneLine(v)
  {
    forall i | 0 <= i < |DecodeAll(v)|
      ensures Calm(DecodeAll(v)[i])
    {
      assert DecodeAll(v)[i] in DecodeAll(v);
    }
    PlainIsOneLine(v);
  }

  /** The value as the parser first sees it. */
  function Raw(v: bytes, star: bool): bytes {
    if star then CHARSET + Percent(v) else v
  }

  lemma EncodedValueBack(v: bytes, tail: bytes)
    requires tail == [] || tail[0] == SEMI
    ensures ConsumeValue(CHARSET + Percent(v) + tail) == (CHARSET + Percent(v), tail)
  {
    PercentIsToken(v);
    var s := CHARSET + Percent(v);
    assert TokenChars(s);
    TokenBack(s, tail);
    assert (s + tail)[0] == CHARSET[0];
  }

  lemma TokenValueBack(v: bytes, tail: bytes)
    requires IsToken(v) && (tail == [] || tail[0] == SEMI)
    ensures ConsumeValue(v + tail) == (v, tail)
  {
    TokenBack(v, tail);
    assert (v + tail)[0] == v[0];
  }

  /** Each of the three forms of a value reads back, up to the next semicolon or the end. */
  lemma ValueBack(v: bytes, star: bool, tail: bytes)
    requires (!star ==> OneLine(v)) && (tail == [] || tail[0] == SEMI)
    ensures ConsumeValue(ValueText(v, star) + tail) == (Raw(v, star), tail)
    ensures ValueText(v, star) != [] && !IsSpace(ValueText(v, star)[0])
  {
    if star {
      EncodedValueBack(v, tail);
      assert ValueText(v, star)[0] == CHARSET[0];
    } else if IsToken(v) {
      TokenValueBack(v, tail);
    } else {
      QuotedBack(v, tail);
    }
  }

  lemma NoTrim(s: bytes)
    requires s == [] || !IsSpace(s[0])
    ensures TrimLeft(s) == s
  {
  }

  /** The steps of consumeMediaParam on a text of the printed shape. */
  lemma ParamSteps(v: bytes, name: bytes, value: bytes, text: bytes, tail: bytes)
    requires IsToken(name) && text != [] && !IsSpace(text[0])
    requires v == [SEMI, SPACE] + (name + ([EQUALS] + (text + tail)))
    requires ConsumeValue(text + tail) == (value, tail)
    ensures ConsumeParam(v) == (Lower(name), value, tail)
  {
    var d := text + tail;
    var b := [EQUALS] + d;
    NoTrim(v);
    assert v[1..] == [SPACE] + (name + b);
    assert v[1..][1..] == name + b;
    NoTrim(name + b);
    TokenBack(name, b);
    NoTrim(b);
    assert b[1..] == d;
    NoTrim(d);
    assert |d| > |tail|;
  }

  lemma ParamBack(k: bytes, v: bytes, star: bool, tail: bytes)
    requires IsToken(k) && Lower(k) == k && (!star ==> OneLine(v)) && (tail == [] || tail[0] == SEMI)
    ensures ConsumeParam(ParamText(k, v, star) + tail) == (if star then k + [STAR] else k, Raw(v, star), tail)
  {
    var name, text := KeyText(k, star), ValueText(v, star);
    ValueBack(v, star, tail);
    ParamLayout(name, text, tail);
    KeyIsToken(k, star);
    ParamSteps(ParamText(k, v, star) + tail, name, Raw(v, star), text, tail);
  }

  lemma ParamLayout(name: bytes, text: bytes, tail: bytes)
    ensures ([SEMI, SPACE] + (name + ([EQUALS] + text))) + tail == [SEMI, SPACE] + (name + ([EQUALS] + (text + tail)))
  {
  }

  lemma KeyIsToken(k: bytes, star: bool)
    requires IsToken(k) && Lower(k) == k
    ensures IsToken(KeyText(k, star)) && Lower(KeyText(k, star)) == KeyText(k, star)
    ensures KeyText(k, star) == if star then k + [STAR] else k
  {
    if star {
      var s := k + [STAR];
      assert forall i :: 0 <= i < |k| ==> s[i] == k[i] && Lower(k)[i] == k[i];
      assert Lower(s) == s;
    }
  }

  // ----- all parameters there and back --------------------------------

  /** The keys the law is about: lower-case tokens without a star. */
  predicate GoodKey(k: bytes) {
    IsToken(k) && Lower(k) == k && STAR !in k
  }

  /** What the loop has collected after the parameters `done`, without stars and with. */
  ghost function Plain(m: map<bytes, bytes>, enc: bytes -> bool, done: set<bytes>): map<bytes, bytes> {
    map k | k in m && k in done && !enc(m[k]) :: m[k]
  }

  ghost function Starred(m: map<bytes, bytes>, enc: bytes -> bool, done: set<bytes>): Table {
    map k | k in m && k in done && enc(m[k]) :: map[k + [STAR] := Raw(m[k], true)]
  }

  lemma PlainStep(t: bytes, text: bytes, params: map<bytes, bytes>, cont: Table, k: bytes, v: bytes, rest: bytes)
    requires text != [] && !IsSpace(text[0]) && ConsumeParam(text) == (k, v, rest)
    requires k != [] && STAR !in k && k !in params
    ensures ParseParams(t, text, params, cont) == ParseParams(t, rest, params[k := v], cont)
  {
    NoTrim(text);
    ConsumeShorter(text);
  }

  lemma StarredStep(t: bytes, text: bytes, params: map<bytes, bytes>, cont: Table, k: bytes, v: bytes, rest: bytes)
    requires text != [] && !IsSpace(text[0]) && ConsumeParam(text) == (k + [STAR], v, rest)
    requires STAR !in k && k !in cont
    ensures ParseParams(t, text, params, cont) == ParseParams(t, rest, params, cont[k := map[k + [STAR] := v]])
  {
    NoTrim(text);
    ConsumeShorter(text);
    var key := k + [STAR];
    assert key[|k|] == STAR && key[..|k|] == k;
    IndexIs(key, STAR, |k|);
  }

  lemma ParamsStart(m: map<bytes, bytes>, keys: seq<bytes>)
    requires forall k :: k in keys ==> k in m
    ensures Params(m, keys) == [] || Params(m, keys)[0] == SEMI
  {
  }

  lemma OneParam(t: bytes, k: bytes, v: bytes, star: bool, tail: bytes, params: map<bytes, bytes>, cont: Table)
    requires GoodKey(k) && (!star ==> OneLine(v)) && (tail == [] || tail[0] == SEMI)
    requires k !in params && k !in cont
    ensures ParseParams(t, ParamText(k, v, star) + tail, params, cont) ==
              if star then ParseParams(t, tail, params, cont[k := map[k + [STAR] := Raw(v, true)]])
              else ParseParams(t, tail, params[k := v], cont)
  {
    var text := ParamText(k, v, star) + tail;
    ParamBack(k, v, star, tail);
    assert text[0] == SEMI;
    if star {
      StarredStep(t, text, params, cont, k, Raw(v, true), tail);
    } else {
      PlainStep(t, text, params, cont, k, v, tail);
    }
  }

  ghost predicate Distinct(keys: seq<bytes>) {
    forall i, j :: 0 <= i < j < |keys| ==> keys[i] != keys[j]
  }

  ghost predicate Lists(keys: seq<bytes>, m: map<bytes, bytes>) {
    Distinct(keys) && (forall k :: k in keys <==> k in m)
  }

  ghost function SetOf(keys: seq<bytes>): set<bytes> {
    set k | k in keys
  }

  ghost predicate Faithful(enc: bytes -> bool) {
    forall v {:trigger enc(v)} :: enc(v) == NeedsEncoding(v)
  }

  lemma PlainAdds(m: map<bytes, bytes>, enc: bytes -> bool, done: set<bytes>, k: bytes)
    requires k in m && k !in done
    ensures !enc(m[k]) ==> Plain(m, enc, done + {k}) == Plain(m, enc, done)[k := m[k]]
    ensures !enc(m[k]) ==> Starred(m, enc, done + {k}) == Starred(m, enc, done)
    ensures enc(m[k]) ==> Plain(m, enc, done + {k}) == Plain(m, enc, done)
    ensures enc(m[k]) ==> Starred(m, enc, done + {k}) == Starred(m, enc, done)[k := map[k + [STAR] := Raw(m[k], true)]]
  {
  }

  lemma ParamsStep(t: bytes, m: map<bytes, bytes>, enc: bytes -> bool, k: bytes, v: bytes, tail: bytes, done: set<bytes>)
    requires k in m && k !in done && m[k] == v && GoodKey(k) && (!enc(v) ==> OneLine(v)) && (tail == [] || tail[0] == SEMI)
    ensures ParseParams(t, ParamText(k, v, enc(v)) + tail, Plain(m, enc, done), Starred(m, enc, done)) ==
            ParseParams(t, tail, Plain(m, enc, done + {k}), Starred(m, enc, done + {k}))
  {
    OneParam(t, k, v, enc(v), tail, Plain(m, enc, done), Starred(m, enc, done));
    PlainAdds(m, enc, done, k);
  }

  /** `g` takes the printed parameter k off the text and adds k to the keys done. */
  ghost predicate Advances(g: (bytes, set<bytes>) -> Parsed, printed: bytes -> bytes, k: bytes, tail: bytes, done: set<bytes>) {
    k !in done && (tail == [] || tail[0] == SEMI) ==> g(printed(k) + tail, done) == g(tail, done + {k})
  }

  ghost predicate AdvancesOn(g: (bytes, set<bytes>) -> Parsed, printed: bytes -> bytes, keys: seq<bytes>) {
    forall k, tail, done {:trigger Advances(g, printed, k, tail, done)} :: k in keys ==> Advances(g, printed, k, tail, done)
  }

  ghost predicate StartsAll(printed: bytes -> bytes, keys: seq<bytes>) {
    forall k :: k in keys ==> printed(k) != [] && printed(k)[0] == SEMI
  }

  lemma {:induction false} AdvancesAll(g: (bytes, set<bytes>) -> Parsed, printed: bytes -> bytes, keys: seq<bytes>, end: bytes, done: set<bytes>)
    requires AdvancesOn(g, printed, keys) && StartsAll(printed, keys) && (end == [] || end[0] == SEMI)
    requires Distinct(keys) && (forall k :: k in keys ==> k !in done)
    ensures g(Joined(printed, keys) + end, done) == g(end, done + SetOf(keys))
    decreases |keys|
  {
    if keys == [] {
      assert done + SetOf(keys) == done && [] + end == end;
    } else {
      var k, rest := keys[0], keys[1..];
      var tail := Joined(printed, rest) + end;
      assert Advances(g, printed, k, tail, done);
      Regroup(printed(k), Joined(printed, rest), end);
      JoinedStart(printed, rest);
      AdvancesAll(g, printed, rest, end, done + {k});
      assert (done + {k}) + SetOf(rest) == done + SetOf(keys);
    }
  }

  lemma JoinedStart(printed: bytes -> bytes, keys: seq<bytes>)
    requires StartsAll(printed, keys)
    ensures Joined(printed, keys) == [] || Joined(printed, keys)[0] == SEMI
  {
  }

  lemma Prints(m: map<bytes, bytes>, k: bytes)
    requires k in m
    ensures Printer(m)(k) == ParamText(k, m[k], NeedsEncoding(m[k]))
    ensures Printer(m)(k) != [] && Printer(m)(k)[0] == SEMI
    ensures !NeedsEncoding(m[k]) ==> OneLine(m[k])
  {
    if !NeedsEncoding(m[k]) { PlainValue(m[k]); }
  }

  /** The loop on printed parameters collects them one by one, whatever `end` follows. */
  lemma ParamsBack(t: bytes, m: map<bytes, bytes>, enc: bytes -> bool, keys: seq<bytes>, end: bytes)
    requires Faithful(enc) && (forall k :: k in m ==> GoodKey(k)) && (end == [] || end[0] == SEMI) && Lists(keys, m)
    ensures ParseParams(t, Params(m, keys) + end, Plain(m, enc, {}), Starred(m, enc, {})) ==
            ParseParams(t, end, Plain(m, enc, m.Keys), Starred(m, enc, m.Keys))
  {
    var g: (bytes, set<bytes>) -> Parsed := (text, done) => ParseParams(t, text, Plain(m, enc, done), Starred(m, enc, done));
    var printed := Printer(m);
    forall k | k in keys
      ensures printed(k) != [] && printed(k)[0] == SEMI
    {
      Prints(m, k);
    }
    forall k, tail, done | k in keys
      ensures Advances(g, printed, k, tail, done)
    {
      Prints(m, k);
      assert enc(m[k]) == NeedsEncoding(m[k]);
      if k !in done && (tail == [] || tail[0] == SEMI) {
        ParamsStep(t, m, enc, k, m[k], tail, done);
      }
    }
    AdvancesAll(g, printed, keys, end, {});
    assert {} + SetOf(keys) == m.Keys;
  }

  lemma EndOfParams(t: bytes, params: map<bytes, bytes>, cont: Table)
    ensures ParseParams(t, [], params, cont) == Ok(t, Stitched(params, cont))
  {
  }

  /** Stitching gives back every value. */
  lemma StitchedBack(m: map<bytes, bytes>, enc: bytes -> bool)
    ensures Stitched(Plain(m, enc, m.Keys), Starred(m, enc, m.Keys)) == m
  {
    var plain, starred := Plain(m, enc, m.Keys), Starred(m, enc, m.Keys);
    forall k | k in starred
      ensures Stitch(k, starred[k]) == Some(m[k])
    {
      EncodedBack(m[k]);
    }
    var r := Stitched(plain, starred);
    assert forall k :: k in m <==> k in r;
    assert forall k :: k in m ==> r[k] == m[k];
  }

  // ----- the media type -----------------------------------------------

  lemma LowerToken(s: bytes)
    requires IsToken(s)
    ensures IsToken(Lower(s)) && Lower(Lower(s)) == Lower(s)
  {
    forall i | 0 <= i < |s|
      ensures TokenChar(Lower(s)[i])
    {
      assert TokenChar(s[i]);
    }
  }

  lemma LowerTwice(s: bytes)
    ensures Lower(Lower(s)) == Lower(s)
  {
  }

  /** Neither space nor semicolon. */
  predicate TypeChar(c: byte) {
    TokenChar(c) || c == SLASH
  }

  lemma TypeChars(t: bytes)
    requires TypeOk(t)
    ensures Lower(t) != [] && forall i :: 0 <= i < |t| ==> TypeChar(Lower(t)[i])
  {
    var slash := IndexByte(t, SLASH);
    forall i | 0 <= i < |t|
      ensures TypeChar(Lower(t)[i])
    {
      if slash >= 0 && i != slash {
        var part, j := if i < slash then t[..slash] else t[slash + 1..], if i < slash then i else i - slash - 1;
        assert TokenChar(part[j]) && part[j] == t[i];
      } else if slash < 0 {
        assert TokenChar(t[i]);
      }
    }
  }

  lemma TypeIsTrim(t: bytes)
    requires TypeOk(t)
    ensures TrimSpace(Lower(Lower(t))) == Lower(t) && SEMI !in Lower(t)
  {
    TypeChars(t);
    LowerTwice(t);
    var s := Lower(t);
    assert TypeChar(s[0]) && TypeChar(s[|s| - 1]);
    NoTrim(s);
  }

  lemma TypeChecks(t: bytes)
    requires TypeOk(t)
    ensures CheckType(Lower(t))
  {
    var slash, s := IndexByte(t, SLASH), Lower(t);
    if slash < 0 {
      LowerToken(t);
      TokenBack(s, []);
      assert s + [] == s;
    } else {
      var a, b := Lower(t[..slash]), Lower(t[slash + 1..]);
      LowerToken(t[..slash]);
      LowerToken(t[slash + 1..]);
      assert s == a + ([SLASH] + b);
      TokenBack(a, [SLASH] + b);
      TokenBack(b, []);
      assert b + [] == b && ([SLASH] + b)[1..] == b;
    }
  }

  lemma SplitAtSemi(t: bytes, rest: bytes)
    requires SEMI !in t && (rest == [] || rest[0] == SEMI)
    ensures var v := t + rest;
            var semi := IndexByte(v, SEMI);
            var i := if semi < 0 then |v| else semi;
            v[..i] == t && v[i..] == rest
  {
    var v := t + rest;
    if rest != [] {
      assert v[|t|] == SEMI && v[..|t|] == t;
      IndexIs(v, SEMI, |t|);
    } else {
      assert v == t;
    }
  }

  /** Parsing a printed type and parameter text leaves the parameters to the loop. */
  lemma ParseSplits(t: bytes, rest: bytes)
    requires TypeOk(t) && (rest == [] || rest[0] == SEMI)
    ensures Parse(Lower(t) + rest) == ParseParams(Lower(t), rest, map[], map[])
  {
    TypeIsTrim(t);
    TypeChecks(t);
    SplitAtSemi(Lower(t), rest);
  }

  // ----- the law and its limits ---------------------------------------

  predicate NeedsIt(v: bytes) {
    NeedsEncoding(v)
  }

  lemma NothingDone(m: map<bytes, bytes>, enc: bytes -> bool)
    ensures Plain(m, enc, {}) == map[] && Starred(m, enc, {}) == map[]
  {
  }

  /** The printed text, perhaps with more after it, up to the end of its parameters. */
  lemma FormatThen(t: bytes, m: map<bytes, bytes>, keys: seq<bytes>, end: bytes)
    requires TypeOk(t) && Lists(keys, m) && (forall k :: k in m ==> GoodKey(k)) && (end == [] || end[0] == SEMI)
    ensures Parse(Format(t, m, keys) + end) ==
            ParseParams(Lower(t), end, Plain(m, NeedsIt, m.Keys), Starred(m, NeedsIt, m.Keys))
  {
    ParamsStart(m, keys);
    Regroup(Lower(t), Params(m, keys), end);
    ParseSplits(t, Params(m, keys) + end);
    NothingDone(m, NeedsIt);
    ParamsBack(Lower(t), m, NeedsIt, keys, end);
  }

  /** ParseMediaType undoes FormatMediaType, in whatever order the parameters are written. */
  lemma FormatBack(t: bytes, m: map<bytes, bytes>, keys: seq<bytes>)
    requires TypeOk(t) && Lists(keys, m) && (forall k :: k in m ==> GoodKey(k))
    ensures Parse(Format(t, m, keys)) == Ok(Lower(t), m)
  {
    FormatThen(t, m, keys, []);
    assert Format(t, m, keys) + [] == Format(t, m, keys);
    EndOfParams(Lower(t), Plain(m, NeedsIt, m.Keys), Starred(m, NeedsIt, m.Keys));
    StitchedBack(m, NeedsIt);
  }

  lemma EndsWithSemi(t: bytes, params: map<bytes, bytes>, cont: Table)
    ensures ParseParams(t, [SEMI], params, cont) == Ok(t, params)
  {
    var v := [SEMI];
    NoTrim(v);
    assert v[1..] == [] && TrimLeft([]) == [];
    assert ConsumeToken([]) == ([], []);
    assert ConsumeParam(v) == ([], [], v);
    assert TrimSpace(v) == v;
  }

  /** What the loop has collected when it has used up the text; None when it stops before. */
  function Collect(text: bytes, params: map<bytes, bytes>, cont: Table): Option<(map<bytes, bytes>, Table)>
    decreases |text|
  {
    var v := TrimLeft(text);
    if v == [] then Some((params, cont))
    else
      ConsumeShorter(v);
      var (key, value, rest) := ConsumeParam(v);
      if key == [] then None
      else if STAR !in key then
        if key in params then None else Collect(rest, params[key := value], cont)
      else
        var base := key[..IndexByte(key, STAR)];
        var pieces := if base in cont then cont[base] else map[];
        if key in pieces then None else Collect(rest, params, cont[base := pieces[key := value]])
  }

  lemma {:induction false} TrimThen(s: bytes, tail: bytes)
    requires tail != [] && !IsSpace(tail[0])
    ensures TrimLeft(s + tail) == TrimLeft(s) + tail
  {
    if s == [] {
      assert s + tail == tail;
    } else if IsSpace(s[0]) {
      TrimThen(s[1..], tail);
      assert (s + tail)[1..] == s[1..] + tail;
    }
  }

  lemma {:induction false} TokenThen(s: bytes, tail: bytes)
    requires tail != [] && !TokenChar(tail[0])
    ensures ConsumeToken(s + tail) == (ConsumeToken(s).0, ConsumeToken(s).1 + tail)
  {
    if s == [] {
      assert s + tail == tail;
    } else if TokenChar(s[0]) {
      TokenThen(s[1..], tail);
      assert (s + tail)[1..] == s[1..] + tail;
    }
  }

  lemma {:induction false} UnquoteThen(v: bytes, i: nat, acc: bytes, tail: bytes)
    requires i <= |v| && Unquote(v, i, acc).Some?
    ensures Unquote(v + tail, i, acc) == Some((Unquote(v, i, acc).value.0, Unquote(v, i, acc).value.1 + tail))
    decreases |v| - i
  {
    var s := v + tail;
    if v[i] == QUOTE {
      assert s[i + 1..] == v[i + 1..] + tail;
    } else if v[i] == BACKSLASH && i + 1 < |v| && TSpecial(v[i + 1]) {
      UnquoteThen(v, i + 2, acc + [v[i + 1]], tail);
    } else {
      UnquoteThen(v, i + 1, acc + [v[i]], tail);
    }
  }

  /** A value that was read is read the same with a semicolon and more behind the text. */
  lemma ValueThen(d: bytes, tail: bytes)
    requires tail != [] && tail[0] == SEMI && ConsumeValue(d) != ([], d)
    ensures ConsumeValue(d + tail) == (ConsumeValue(d).0, ConsumeValue(d).1 + tail)
  {
    assert (d + tail)[0] == d[0];
    if d[0] != QUOTE {
      TokenThen(d, tail);
    } else {
      UnquoteThen(d, 1, [], tail);
    }
  }

  lemma Behind(x: byte, s: bytes, tail: bytes)
    requires s != [] && s[0] == x
    ensures (s + tail)[0] == x && (s + tail)[1..] == s[1..] + tail
  {
  }

  lemma ParamThen(v: bytes, tail: bytes)
    requires tail != [] && tail[0] == SEMI && ConsumeParam(v).0 != []
    ensures ConsumeParam(v + tail) == (ConsumeParam(v).0, ConsumeParam(v).1, ConsumeParam(v).2 + tail)
  {
    TrimThen(v, tail);
    var a := TrimLeft(v);
    Behind(SEMI, a, tail);
    TrimThen(a[1..], tail);
    TokenThen(TrimLeft(a[1..]), tail);
    var (name, b) := ConsumeToken(TrimLeft(a[1..]));
    TrimThen(b, tail);
    var c := TrimLeft(b);
    Behind(EQUALS, c, tail);
    TrimThen(c[1..], tail);
    var d := TrimLeft(c[1..]);
    ValueThen(d, tail);
    Cancel(ConsumeValue(d).1, d, tail);
  }

  lemma Cancel(a: bytes, b: bytes, tail: bytes)
    ensures a + tail == b + tail <==> a == b
  {
    assert (a + tail)[..|a|] == a;
    if |a| == |b| { assert (b + tail)[..|b|] == b; }
  }

  /** Collecting goes on behind the text as if it stood alone there. */
  lemma {:induction false} CollectThen(t: bytes, text: bytes, tail: bytes, params: map<bytes, bytes>, cont: Table)
    requires Collect(text, params, cont).Some? && tail != [] && tail[0] == SEMI
    ensures ParseParams(t, text + tail, params, cont) ==
              ParseParams(t, tail, Collect(text, params, cont).value.0, Collect(text, params, cont).value.1)
    decreases |text|
  {
    TrimThen(text, tail);
    var v := TrimLeft(text);
    if v == [] {
      NoTrim(tail);
      assert [] + tail == tail;
      SameTrim(t, text + tail, tail, params, cont);
    } else {
      ConsumeShorter(v);
      ParamThen(v, tail);
      StepThen(t, text, v, tail, params, cont);
      var (key, value, rest) := ConsumeParam(v);
      if STAR !in key {
        CollectThen(t, rest, tail, params[key := value], cont);
      } else {
        var base := key[..IndexByte(key, STAR)];
        var pieces := if base in cont then cont[base] else map[];
        CollectThen(t, rest, tail, params, cont[base := pieces[key := value]]);
      }
    }
  }

  lemma SameTrim(t: bytes, a: bytes, b: bytes, params: map<bytes, bytes>, cont: Table)
    requires TrimLeft(a) == TrimLeft(b)
    ensures ParseParams(t, a, params, cont) == ParseParams(t, b, params, cont)
  {
  }

  /** One parameter of the longer text. */
  lemma StepThen(t: bytes, text: bytes, v: bytes, tail: bytes, params: map<bytes, bytes>, cont: Table)
    requires v == TrimLeft(text) && v != [] && TrimLeft(text + tail) == v + tail && Collect(text, params, cont).Some?
    requires ConsumeParam(v + tail) == (ConsumeParam(v).0, ConsumeParam(v).1, ConsumeParam(v).2 + tail)
    ensures var (key, value, rest) := ConsumeParam(v);
            key != [] && ParseParams(t, text + tail, params, cont) ==
              if STAR !in key then ParseParams(t, rest + tail, params[key := value], cont)
              else
                var base := key[..IndexByte(key, STAR)];
                var pieces := if base in cont then cont[base] else map[];
                ParseParams(t, rest + tail, params, cont[base := pieces[key := value]])
  {
    ConsumeShorter(v + tail);
  }

  lemma {:induction false} CollectParses(t: bytes, text: bytes, params: map<bytes, bytes>, cont: Table)
    requires Collect(text, params, cont).Some?
    ensures ParseParams(t, text, params, cont) ==
              Ok(t, Stitched(Collect(text, params, cont).value.0, Collect(text, params, cont).value.1))
    decreases |text|
  {
    var v := TrimLeft(text);
    if v != [] {
      ConsumeShorter(v);
      var (key, value, rest) := ConsumeParam(v);
      if STAR !in key {
        CollectParses(t, rest, params[key := value], cont);
      } else {
        var base := key[..IndexByte(key, STAR)];
        var pieces := if base in cont then cont[base] else map[];
        CollectParses(t, rest, params, cont[base := pieces[key := value]]);
      }
    }
  }

  lemma TwoSemicolons(t: bytes, params: map<bytes, bytes>, cont: Table)
    ensures ParseParams(t, [SEMI, SEMI], params, cont) == BadParam(t)
  {
    var v := [SEMI, SEMI];
    NoTrim(v);
    assert v[1..] == [SEMI] && TrimLeft([SEMI]) == [SEMI];
    assert ConsumeToken([SEMI]) == ([], [SEMI]);
    assert ConsumeParam(v) == ([], [], v);
    assert TrimSpace(v) == v;
  }

  /** What ParseMediaType collects from a text it uses up. */
  function Collected(v: bytes): Option<(map<bytes, bytes>, Table)> {
    if CheckType(Head(v).0) then Collect(Head(v).1, map[], map[]) else None
  }

  lemma HeadThen(v: bytes, tail: bytes)
    requires tail != [] && tail[0] == SEMI
    ensures Head(v + tail) == (Head(v).0, Head(v).1 + tail)
  {
    var s, semi := v + tail, IndexByte(v, SEMI);
    var i := if semi < 0 then |v| else semi;
    assert s[..i] == v[..i] && s[i..] == v[i..] + tail;
    assert s[i] == SEMI;
    IndexIs(s, SEMI, i);
  }

  lemma ParseThen(v: bytes, tail: bytes)
    requires Collected(v).Some? && tail != [] && tail[0] == SEMI
    ensures Parse(v + tail) == ParseParams(Head(v).0, tail, Collected(v).value.0, Collected(v).value.1)
  {
    HeadThen(v, tail);
    CollectThen(Head(v).0, Head(v).1, tail, map[], map[]);
  }

  /** Putting the starred parameters together adds nothing when each gives what is there already. */
  lemma AddsNothing(params: map<bytes, bytes>, cont: Table)
    ensures Stitched(params, cont) == params <==>
              forall k :: k in cont && Stitch(k, cont[k]).Some? ==> k in params && params[k] == Stitch(k, cont[k]).value
    ensures cont == map[] ==> Stitched(params, cont) == params
  {
    var s := Stitched(params, cont);
    assert forall k :: k in cont && Stitch(k, cont[k]).Some? ==> k in s && s[k] == Stitch(k, cont[k]).value;
    assert forall k :: k in s ==> (k in cont && Stitch(k, cont[k]).Some?) || (k in params && s[k] == params[k]);
  }

  /**
   A trailing semicolon is no error, but returns before the starred parameters are put together.
   It makes no difference exactly when each of these that can be put together is a parameter
   already, with that value, and none without starred parameters.  A second one is an error.
   All this for every text that is otherwise parsed to its end.
   */
  lemma TrailingSemicolon(v: bytes)
    requires Collected(v).Some?
    ensures var (t, p, c) := (Head(v).0, Collected(v).value.0, Collected(v).value.1);
            && Parse(v) == Ok(t, Stitched(p, c))
            && Parse(v + [SEMI]) == Ok(t, p)
            && (Parse(v + [SEMI]) == Parse(v) <==>
                  forall k :: k in c && Stitch(k, c[k]).Some? ==> k in p && p[k] == Stitch(k, c[k]).value)
            && (c == map[] ==> Parse(v + [SEMI]) == Parse(v))
            && Parse(v + [SEMI, SEMI]) == BadParam(t)
  {
    var (t, p, c) := (Head(v).0, Collected(v).value.0, Collected(v).value.1);
    CollectParses(t, Head(v).1, map[], map[]);
    ParseThen(v, [SEMI]);
    EndsWithSemi(t, p, c);
    ParseThen(v, [SEMI, SEMI]);
    TwoSemicolons(t, p, c);
    AddsNothing(p, c);
  }

  /** Of a text that FormatMediaType wrote, exactly those values survive that need no encoding. */
  lemma FormattedSemicolon(t: bytes, m: map<bytes, bytes>, keys: seq<bytes>)
    requires TypeOk(t) && Lists(keys, m) && (forall k :: k in m ==> GoodKey(k))
    ensures Parse(Format(t, m, keys) + [SEMI]) == Ok(Lower(t), map k | k in m && !NeedsEncoding(m[k]) :: m[k])
    ensures Parse(Format(t, m, keys) + [SEMI]) == Ok(Lower(t), m) <==> (forall k :: k in m ==> !NeedsEncoding(m[k]))
  {
    FormatThen(t, m, keys, [SEMI]);
    EndsWithSemi(Lower(t), Plain(m, NeedsIt, m.Keys), Starred(m, NeedsIt, m.Keys));
    Survivors(m);
  }

  lemma Survivors(m: map<bytes, bytes>)
    ensures Plain(m, NeedsIt, m.Keys) == map k | k in m && !NeedsEncoding(m[k]) :: m[k]
    ensures Plain(m, NeedsIt, m.Keys) == m <==> (forall k :: k in m ==> !NeedsEncoding(m[k]))
  {
    var p := Plain(m, NeedsIt, m.Keys);
    assert forall k :: k in p <==> k in m && !NeedsIt(m[k]);
    if forall k :: k in m ==> !NeedsEncoding(m[k]) {
      assert forall k :: k in m ==> k in p && p[k] == m[k];
      assert p == m;
    }
  }

  /** Keys the parser returns are lower-case and free of stars, whatever it parses. */
  predicate ParsedKey(k: bytes) {
    Lower(k) == k && STAR !in k
  }

  lemma KeyIsLower(v: bytes)
    ensures Lower(ConsumeParam(v).0) == ConsumeParam(v).0
  {
    var a := TrimLeft(v);
    if a != [] && a[0] == SEMI {
      LowerTwice(ConsumeToken(TrimLeft(a[1..])).0);
    }
  }

  lemma BaseIsParsedKey(key: bytes, i: nat)
    requires Lower(key) == key && i <= |key| && STAR !in key[..i]
    ensures ParsedKey(key[..i])
  {
    var base := key[..i];
    forall x | 0 <= x < i
      ensures Lower(base)[x] == base[x]
    {
      assert Lower(key)[x] == key[x] == base[x];
    }
    assert Lower(base) == base;
  }

  lemma {:induction false} ParsedKeys(t: bytes, text: bytes, params: map<bytes, bytes>, cont: Table)
    requires (forall k :: k in params ==> ParsedKey(k)) && (forall k :: k in cont ==> ParsedKey(k))
    ensures var r := ParseParams(t, text, params, cont); r.Ok? ==> forall k :: k in r.params ==> ParsedKey(k)
    decreases |text|
  {
    var v := TrimLeft(text);
    if v != [] {
      ConsumeShorter(v);
      KeyIsLower(v);
      var (key, value, rest) := ConsumeParam(v);
      if key != [] && STAR !in key && key !in params {
        ParsedKeys(t, rest, params[key := value], cont);
      } else if key != [] && STAR in key {
        var i := IndexByte(key, STAR);
        BaseIsParsedKey(key, i);
        var base := key[..i];
        var pieces := if base in cont then cont[base] else map[];
        if key !in pieces { ParsedKeys(t, rest, params, cont[base := pieces[key := value]]); }
      }
    }
  }

  lemma ParseKeys(v: bytes)
    ensures Parse(v).Ok? ==> forall k :: k in Parse(v).params ==> ParsedKey(k)
  {
    ParsedKeys(Head(v).0, Head(v).1, map[], map[]);
  }

  lemma NothingParses()
    ensures Parse([]) == BadType
  {
  }

  lemma FormatBackOnly(t: bytes, m: map<bytes, bytes>, keys: seq<bytes>, v: bytes)
    requires Lists(keys, m) && v == Format(t, m, keys) && Parse(v) == Ok(Lower(t), m)
    ensures v != [] && forall k :: k in m ==> ParsedKey(k)
  {
    NothingParses();
    ParseKeys(v);
  }

  /** The round trip holds exactly for token types and lower-case, star-free token keys. */
  lemma FormatBackIff(t: bytes, m: map<bytes, bytes>, keys: seq<bytes>)
    requires Lists(keys, m)
    ensures Parse(Format(t, m, keys)) == Ok(Lower(t), m) <==> TypeOk(t) && (forall k :: k in m ==> GoodKey(k))
  {
    var v := Format(t, m, keys);
    if TypeOk(t) && (forall k :: k in m ==> GoodKey(k)) {
      FormatBack(t, m, keys);
    } else if Parse(v) == Ok(Lower(t), m) {
      FormatBackOnly(t, m, keys, v);
      assert false;
    }
  }

  // ----- the loops ----------------------------------------------------

  lemma {:induction false} PercentConcat(a: bytes, b: bytes)
    ensures Percent(a + b) == Percent(a) + Percent(b)
  {
    if a == [] {
      assert a + b == b && [] + Percent(b) == Percent(b);
    } else {
      PercentConcat(a[1..], b);
      assert (a + b)[1..] == a[1..] + b;
      Regroup(PercentByte(a[0]), Percent(a[1..]), Percent(b));
    }
  }

  lemma PercentSnoc(s: bytes, i: nat)
    requires i < |s|
    ensures Percent(s[..i + 1]) == Percent(s[..i]) + PercentByte(s[i])
  {
    PercentConcat(s[..i], [s[i]]);
    assert s[..i + 1] == s[..i] + [s[i]];
    assert [s[i]][1..] == [] && PercentByte(s[i]) + Percent([]) == PercentByte(s[i]);
  }

  lemma SliceSnoc(b: bytes, s: bytes, offset: nat, i: nat)
    requires offset <= i < |s|
    ensures b + s[offset..i + 1] == (b + s[offset..i]) + [s[i]]
  {
  }

  /** The percent-encoding loop of FormatMediaType, copying runs of plain characters at once. */
  method PercentLoop(start: bytes, value: bytes) returns (b: bytes)
    ensures b == start + Percent(value)
  {
    b := start;
    var offset := 0;
    assert value[..0] == [] && start + [] == start;
    for index := 0 to |value|
      invariant offset <= index
      invariant b + value[offset..index] == start + Percent(value[..index])
    {
      var ch := value[index];
      PercentSnoc(value, index);
      Regroup(start, Percent(value[..index]), PercentByte(ch));
      if ch <= SPACE || ch >= 0x7F || ch == STAR || ch == TICK || ch == PERCENT || TSpecial(ch) {
        b := b + value[offset..index];
        offset := index + 1;
        b := b + [PERCENT, EncodedWord.UpperHex(ch / 16), EncodedWord.UpperHex(ch % 16)];
        assert value[offset..index + 1] == [];
      } else {
        SliceSnoc(b, value, offset, index);
      }
    }
    assert value[..|value|] == value && value[offset..|value|] == value[offset..];
    b := b + value[offset..];
  }

  lemma {:induction false} EscapedConcat(a: bytes, b: bytes)
    ensures Escaped(a + b) == Escaped(a) + Escaped(b)
  {
    if a == [] {
      assert a + b == b && [] + Escaped(b) == Escaped(b);
    } else {
      EscapedConcat(a[1..], b);
      assert (a + b)[1..] == a[1..] + b;
      Regroup(EscapeByte(a[0]), Escaped(a[1..]), Escaped(b));
    }
  }

  lemma EscapedSnoc(s: bytes, i: nat)
    requires i < |s|
    ensures Escaped(s[..i + 1]) == Escaped(s[..i]) + EscapeByte(s[i])
  {
    EscapedConcat(s[..i], [s[i]]);
    assert s[..i + 1] == s[..i] + [s[i]];
    assert [s[i]][1..] == [] && EscapeByte(s[i]) + Escaped([]) == EscapeByte(s[i]);
  }

  /** The quoting loop of FormatMediaType; the escaped character is copied with the run after it. */
  method EscapeLoop(start: bytes, value: bytes) returns (b: bytes)
    ensures b == start + Escaped(value)
  {
    b := start;
    var offset := 0;
    assert value[..0] == [] && start + [] == start;
    for index := 0 to |value|
      invariant offset <= index
      invariant b + value[offset..index] == start + Escaped(value[..index])
    {
      var ch := value[index];
      EscapedSnoc(value, index);
      Regroup(start, Escaped(value[..index]), EscapeByte(ch));
      SliceSnoc(b, value, offset, index);
      if ch == QUOTE || ch == BACKSLASH {
        b := b + value[offset..index];
        offset := index;
        assert value[offset..index + 1] == [ch];
        Regroup(b, [BACKSLASH], [ch]);
        assert [BACKSLASH] + [ch] == [BACKSLASH, ch];
        b := b + [BACKSLASH];
      }
    }
    assert value[..|value|] == value && value[offset..|value|] == value[offset..];
    b := b + value[offset..];
  }

  /** FormatMediaType; `keys` are the sorted parameter names. */
  method FormatLoop(t: bytes, m: map<bytes, bytes>, keys: seq<bytes>) returns (r: bytes)
    requires forall k :: k in keys ==> k in m
    ensures r == Format(t, m, keys)
  {
    var slash := IndexByte(t, SLASH);
    var b: bytes;
    if slash == -1 {
      if !IsToken(t) { return []; }
      b := Lower(t);
    } else {
      var major, sub := t[..slash], t[slash + 1..];
      if !IsToken(major) || !IsToken(sub) { return []; }
      b := Lower(major) + [SLASH] + Lower(sub);
      assert b == Lower(t);
    }
    var ok;
    b, ok := FormatParams(b, m, keys, Printer(m));
    return if ok then b else [];
  }

  /** The loop over the parameters; fails on a name that is no token. */
  method FormatParams(start: bytes, m: map<bytes, bytes>, keys: seq<bytes>, ghost printed: bytes -> bytes) returns (b: bytes, ok: bool)
    requires printed == Printer(m) && forall k :: k in keys ==> k in m
    ensures ok <==> forall k :: k in keys ==> IsToken(k)
    ensures ok ==> b == start + Joined(printed, keys)
  {
    b := start;
    ghost var all := start + Joined(printed, keys);
    assert keys[0..] == keys;
    for i := 0 to |keys|
      invariant forall j :: 0 <= j < i ==> IsToken(keys[j])
      invariant LeftToJoin(all, b, printed, keys, i)
    {
      var k := keys[i];
      if !IsToken(k) {
        assert k in keys;
        return b, false;
      }
      var text := PrintKey(m, k, printed);
      JoinNext(all, b, printed, keys, i);
      b := b + text;
    }
    JoinEnd(all, b, printed, keys);
    ok := true;
  }

  /** What is printed so far and the keys from i on make up `all`. */
  ghost predicate LeftToJoin(all: bytes, b: bytes, printed: bytes -> bytes, keys: seq<bytes>, i: nat) {
    i <= |keys| && all == b + Joined(printed, keys[i..])
  }

  lemma JoinNext(all: bytes, b: bytes, printed: bytes -> bytes, keys: seq<bytes>, i: nat)
    requires i < |keys| && LeftToJoin(all, b, printed, keys, i)
    ensures LeftToJoin(all, b + printed(keys[i]), printed, keys, i + 1)
  {
    assert keys[i..][1..] == keys[i + 1..];
    Regroup(b, printed(keys[i]), Joined(printed, keys[i + 1..]));
  }

  lemma JoinEnd(all: bytes, b: bytes, printed: bytes -> bytes, keys: seq<bytes>)
    requires LeftToJoin(all, b, printed, keys, |keys|)
    ensures all == b
  {
  }

  method PrintKey(m: map<bytes, bytes>, k: bytes, ghost printed: bytes -> bytes) returns (b: bytes)
    requires k in m && printed == Printer(m)
    ensures b == printed(k)
  {
    b := PrintParam(k, m[k]);
  }

  /** One parameter as FormatMediaType writes it. */
  method PrintParam(k: bytes, v: bytes) returns (b: bytes)
    ensures b == ParamText(k, v, NeedsEncoding(v))
  {
    var star := EncodedWord.NeedsEncoding(v);
    b := [SEMI, SPACE] + Lower(k);
    if star { b := b + [STAR]; }
    b := b + [EQUALS];
    assert b == [SEMI, SPACE] + (KeyText(k, star) + [EQUALS]);
    ghost var head, key := b, KeyText(k, star);
    if star {
      b := PercentLoop(b + CHARSET, v);
      Regroup(head, CHARSET, Percent(v));
    } else if IsToken(v) {
      b := b + v;
    } else {
      b := EscapeLoop(b + [QUOTE], v);
      Regroup(head, [QUOTE], Escaped(v));
      Regroup(head, [QUOTE] + Escaped(v), [QUOTE]);
      Regroup([QUOTE], Escaped(v), [QUOTE]);
      b := b + [QUOTE];
    }
    assert b == head + ValueText(v, star);
    ParamLayout(key, [], ValueText(v, star));
    assert [EQUALS] + [] == [EQUALS] && [] + ValueText(v, star) == ValueText(v, star);
  }

  /** One step of Unescape at the head of s: how many bytes it reads, and the byte it gives. */
  lemma UnescapeStep(s: bytes)
    requires s != []
    ensures s[0] != PERCENT ==> Unescape(s) == EncodedWord.Prepend([s[0]], Unescape(s[1..]))
    ensures s[0] == PERCENT && (|s| < 3 || EncodedWord.ReadHexByte(s[1], s[2]).None?) ==> Unescape(s) == None
    ensures s[0] == PERCENT && |s| >= 3 && EncodedWord.ReadHexByte(s[1], s[2]).Some? ==>
              Unescape(s) == EncodedWord.Prepend([EncodedWord.ReadHexByte(s[1], s[2]).value], Unescape(s[3..]))
  {
  }

  /** After reading `i` bytes with `k` percent signs among them, the result has `i - 2k` bytes and the rest's. */
  ghost predicate Counted(whole: Option<bytes>, rest: Option<bytes>, n: int) {
    (whole.Some? <==> rest.Some?) && (whole.Some? ==> |whole.value| == n + |rest.value|)
  }

  /** The first pass of percentHexUnescape: counts the percent signs, -1 when one is malformed. */
  method CountPercents(s: bytes) returns (percents: int)
    ensures percents == -1 <==> Unescape(s) == None
    ensures percents >= 0 ==> |Unescape(s).value| == |s| - 2 * percents
    ensures percents == 0 ==> Unescape(s) == Some(s)
    ensures percents >= -1
  {
    percents := 0;
    var i := 0;
    assert s[0..] == s && s[..0] == [];
    EncodedWord.PrependNothing(Unescape(s));
    while i < |s|
      invariant 0 <= i <= |s| && percents >= 0
      invariant Counted(Unescape(s), Unescape(s[i..]), i - 2 * percents)
      invariant percents == 0 ==> Unescape(s) == EncodedWord.Prepend(s[..i], Unescape(s[i..]))
    {
      ghost var tail := s[i..];
      UnescapeStep(tail);
      assert tail[1..] == s[i + 1..];
      if s[i] != PERCENT {
        EncodedWord.PrependTwice(s[..i], [s[i]], Unescape(tail[1..]));
        assert s[..i] + [s[i]] == s[..i + 1];
        i := i + 1;
      } else {
        percents := percents + 1;
        if i + 2 >= |s| || EncodedWord.ReadHexByte(s[i + 1], s[i + 2]).None? {
          return -1;
        }
        assert tail[3..] == s[i + 3..];
        i := i + 3;
      }
    }
    assert s[i..] == [] && s[..i] == s && s + [] == s;
  }

  /** The second pass, into a slice of exactly the right length. */
  method UnescapeLoop(s: bytes) returns (r: Option<bytes>)
    ensures r == Unescape(s)
  {
    var percents := CountPercents(s);
    if percents == -1 { return None; }
    if percents == 0 { return Some(s); }
    var t := new byte[|s| - 2 * percents];
    var i, j := 0, 0;
    assert s[0..] == s && t[..0] == [];
    EncodedWord.PrependNothing(Unescape(s));
    while i < |s|
      invariant 0 <= i <= |s| && 0 <= j <= t.Length
      invariant Unescape(s[i..]).Some? && j + |Unescape(s[i..]).value| == t.Length
      invariant Unescape(s) == EncodedWord.Prepend(t[..j], Unescape(s[i..]))
    {
      ghost var tail, done := s[i..], t[..j];
      UnescapeStep(tail);
      var k, b := 1, s[i];
      if s[i] == PERCENT {
        k, b := 3, EncodedWord.ReadHexByte(s[i + 1], s[i + 2]).value;
      }
      assert tail[k..] == s[i + k..];
      EncodedWord.PrependTwice(done, [b], Unescape(tail[k..]));
      t[j] := b;
      assert t[..j + 1] == done + [b];
      i, j := i + k, j + 1;
    }
    assert s[i..] == [] && t[..j] == t[..] && t[..] + [] == t[..];
    return Some(t[..]);
  }

  /** consumeValue. */
  method ConsumeValueLoop(v: bytes) returns (value: bytes, rest: bytes)
    ensures (value, rest) == ConsumeValue(v)
  {
    if v == [] { return [], []; }
    if v[0] != QUOTE { return ConsumeToken(v).0, ConsumeToken(v).1; }
    var buffer: bytes := [];
    var i := 1;
    while i < |v|
      invariant 1 <= i <= |v| && Unquote(v, 1, []) == Unquote(v, i, buffer)
    {
      var r := v[i];
      if r == QUOTE { return buffer, v[i + 1..]; }
      if r == BACKSLASH && i + 1 < |v| && TSpecial(v[i + 1]) {
        buffer := buffer + [v[i + 1]];
        i := i + 2;
        continue;
      }
      if r == 0x0D || r == 0x0A { return [], v; }
      buffer := buffer + [v[i]];
      i := i + 1;
    }
    return [], v;
  }

  lemma NamesDiffer(key: bytes, m: nat, n: nat)
    ensures PartName(key, m) + [STAR] != PartName(key, n)
    ensures m != n ==> PartName(key, m) != PartName(key, n) && PartName(key, m) + [STAR] != PartName(key, n) + [STAR]
  {
    var a, b := PartName(key, m), PartName(key, n);
    var d := FmtInteger.Digits(n, 10, false);
    FmtInteger.DigitBytes(n);
    assert b[|b| - 1] == d[|d| - 1];
    assert (a + [STAR])[|a|] == STAR;
    if a == b { PartNamesDiffer(key, m, n); }
    if a + [STAR] == b + [STAR] {
      assert (a + [STAR])[..|a|] == a && (b + [STAR])[..|b|] == b;
      PartNamesDiffer(key, m, n);
    }
  }

  /** A part of a value, sent as it is or percent-encoded. */
  datatype Part = Part(encoded: bool, text: bytes)

  /** The name of a part, and how its text is sent: the first encoded one names the charset. */
  function SentName(key: bytes, n: nat, part: Part): bytes {
    if part.encoded then PartName(key, n) + [STAR] else PartName(key, n)
  }

  function SentText(n: nat, part: Part): bytes {
    if !part.encoded then part.text else if n == 0 then CHARSET + Percent(part.text) else Percent(part.text)
  }

  /** The parameters key*n, key*(n+1), ... holding the parts. */
  function PartMap(key: bytes, parts: seq<Part>, n: nat): map<bytes, bytes> {
    if parts == [] then map[] else PartMap(key, parts[1..], n + 1)[SentName(key, n, parts[0]) := SentText(n, parts[0])]
  }

  function Texts(parts: seq<Part>): bytes {
    if parts == [] then [] else parts[0].text + Texts(parts[1..])
  }

  lemma {:induction false} PartMapKeys(key: bytes, parts: seq<Part>, n: nat, x: bytes)
    requires x in PartMap(key, parts, n)
    ensures exists i: nat :: i >= n && (x == PartName(key, i) || x == PartName(key, i) + [STAR])
    decreases |parts|
  {
    if x != SentName(key, n, parts[0]) {
      PartMapKeys(key, parts[1..], n + 1, x);
    }
  }

  /** Later parts do not answer to the names of part n. */
  lemma LaterParts(key: bytes, parts: seq<Part>, n: nat)
    ensures PartName(key, n) !in PartMap(key, parts, n + 1) && PartName(key, n) + [STAR] !in PartMap(key, parts, n + 1)
  {
    NotLater(key, parts, n, PartName(key, n));
    NotLater(key, parts, n, PartName(key, n) + [STAR]);
  }

  lemma NotLater(key: bytes, parts: seq<Part>, n: nat, x: bytes)
    requires x == PartName(key, n) || x == PartName(key, n) + [STAR]
    ensures x !in PartMap(key, parts, n + 1)
  {
    if x in PartMap(key, parts, n + 1) {
      PartMapKeys(key, parts, n + 1, x);
      var i: nat :| i >= n + 1 && (x == PartName(key, i) || x == PartName(key, i) + [STAR]);
      NamesDiffer(key, i, n);
      NamesDiffer(key, n, i);
      assert false;
    }
  }

  lemma {:induction false} PartsJoin(key: bytes, parts: seq<Part>, n: nat)
    ensures Parts(key, PartMap(key, parts, n), n) == Texts(parts)
    decreases |parts|
  {
    var all := PartMap(key, parts, n);
    if parts == [] {
      assert all == map[];
    } else {
      var rest, part := PartMap(key, parts[1..], n + 1), parts[0];
      LaterParts(key, parts[1..], n);
      NamesDiffer(key, n, n);
      assert all - {SentName(key, n, part)} == rest;
      if part.encoded {
        EncodedBack(part.text);
        PercentBack(part.text);
      }
      PartsJoin(key, parts[1..], n + 1);
    }
  }

  /**
   A value sent in parts, plain ones key*n and percent-encoded ones key*n* in any mixture, is
   put together in order (sections 3 and 4.1 of RFC 2231).
   */
  lemma StitchJoins(key: bytes, parts: seq<Part>)
    requires parts != []
    ensures Stitch(key, PartMap(key, parts, 0)) == Some(Texts(parts))
  {
    var pieces := PartMap(key, parts, 0);
    if key + [STAR] in pieces {
      PartMapKeys(key, parts, 0, key + [STAR]);
      assert false;
    }
    assert SentName(key, 0, parts[0]) in pieces;
    PartsJoin(key, parts, 0);
  }

  /** What is left of the pieces once the parts below n are used. */
  ghost predicate Unused(key: bytes, pieces: map<bytes, bytes>, left: map<bytes, bytes>, n: nat) {
    && (forall x :: x in left ==> x in pieces && left[x] == pieces[x])
    && (forall i: nat {:trigger PartName(key, i)} :: i >= n ==>
          (PartName(key, i) in left <==> PartName(key, i) in pieces)
          && (PartName(key, i) + [STAR] in left <==> PartName(key, i) + [STAR] in pieces))
  }

  lemma StillUnused(key: bytes, pieces: map<bytes, bytes>, left: map<bytes, bytes>, n: nat, used: bytes)
    requires Unused(key, pieces, left, n) && (used == PartName(key, n) || used == PartName(key, n) + [STAR])
    ensures Unused(key, pieces, left - {used}, n + 1)
  {
    forall i: nat | i >= n + 1
      ensures PartName(key, i) != used && PartName(key, i) + [STAR] != used
    {
      NamesDiffer(key, n, i);
      NamesDiffer(key, i, n);
    }
  }

  /** The stitching of one name's pieces, always looking in the whole map. */
  method StitchLoop(key: bytes, pieces: map<bytes, bytes>) returns (r: Option<bytes>)
    ensures r == Stitch(key, pieces)
  {
    if key + [STAR] in pieces { return Decode2231(pieces[key + [STAR]]); }
    var buf: bytes, valid, n: nat := [], false, 0;
    ghost var left := pieces;
    assert [] + Parts(key, pieces, 0) == Parts(key, pieces, 0);
    while true
      invariant Unused(key, pieces, left, n)
      invariant buf + Parts(key, left, n) == Parts(key, pieces, 0)
      invariant valid <==> n > 0
      invariant n > 0 ==> PartName(key, 0) in pieces || PartName(key, 0) + [STAR] in pieces
      decreases |left|
    {
      var simple := PartName(key, n);
      var encoded := simple + [STAR];
      if simple in pieces {
        Regroup(buf, pieces[simple], Parts(key, left - {simple}, n + 1));
        buf := buf + pieces[simple];
        StillUnused(key, pieces, left, n, simple);
        left := left - {simple};
      } else if encoded in pieces {
        var text := Text(if n == 0 then Decode2231(pieces[encoded]) else Unescape(pieces[encoded]));
        Regroup(buf, text, Parts(key, left - {encoded}, n + 1));
        buf := buf + text;
        StillUnused(key, pieces, left, n, encoded);
        left := left - {encoded};
      } else {
        break;
      }
      valid, n := true, n + 1;
    }
    assert buf + [] == buf;
    return if valid then Some(buf) else None;
  }

  /** params overridden by those entries of `full` whose keys are in `done`. */
  ghost function Overlay(params: map<bytes, bytes>, full: map<bytes, bytes>, done: set<bytes>): map<bytes, bytes> {
    params + map k | k in full && k in done :: full[k]
  }

  lemma OverlayOne(params: map<bytes, bytes>, full: map<bytes, bytes>, done: set<bytes>, k: bytes)
    ensures Overlay(params, full, done + {k}) ==
            if k in full then Overlay(params, full, done)[k := full[k]] else Overlay(params, full, done)
  {
  }

  ghost function Stitches(cont: Table): map<bytes, bytes> {
    map k | k in cont && Stitch(k, cont[k]).Some? :: Stitch(k, cont[k]).value
  }

  lemma OverlayEnds(params: map<bytes, bytes>, cont: Table)
    ensures Overlay(params, Stitches(cont), {}) == params
    ensures Overlay(params, Stitches(cont), cont.Keys) == Stitched(params, cont)
  {
    var full := Stitches(cont);
    assert (map k | k in full && k in cont.Keys :: full[k]) == full;
  }

  /** The value to store for one starred name, if any. */
  method StitchInto(cont: Table, key: bytes, ghost full: map<bytes, bytes>) returns (v: Option<bytes>)
    requires key in cont && full == Stitches(cont)
    ensures if key in full then v == Some(full[key]) else v == None
  {
    v := StitchLoop(key, cont[key]);
  }

  /** The loop over the starred names, in any order. */
  method StitchAll(params: map<bytes, bytes>, cont: Table) returns (out: map<bytes, bytes>)
    ensures out == Stitched(params, cont)
  {
    OverlayEnds(params, cont);
    ghost var full := Stitches(cont);
    out := StitchEach(params, cont, full);
  }

  method StitchEach(params: map<bytes, bytes>, cont: Table, ghost full: map<bytes, bytes>) returns (out: map<bytes, bytes>)
    requires full == Stitches(cont) && Overlay(params, full, {}) == params
    ensures out == Overlay(params, full, cont.Keys)
  {
    out := params;
    var todo := cont.Keys;
    ghost var done: set<bytes> := {};
    while todo != {}
      invariant done + todo == cont.Keys
      invariant out == Overlay(params, full, done)
      decreases |todo|
    {
      var key :| key in todo;
      var v := StitchInto(cont, key, full);
      OverlayOne(params, full, done, key);
      if v.Some? { out := out[key := v.value]; }
      todo, done := todo - {key}, done + {key};
    }
    assert done == cont.Keys;
  }

  /** ParseMediaType. */
  method ParseLoop(text: bytes) returns (r: Parsed)
    ensures r == Parse(text)
  {
    var semi := IndexByte(text, SEMI);
    var i := if semi == -1 then |text| else semi;
    var mediatype := TrimSpace(Lower(text[..i]));
    if !CheckType(mediatype) { return BadType; }
    var params: map<bytes, bytes>, cont: Table, v := map[], map[], text[i..];
    ghost var target := ParseParams(mediatype, v, params, cont);
    while |v| > 0
      invariant target == ParseParams(mediatype, v, params, cont)
      decreases |v|
    {
      var w := TrimLeft(v);
      if |w| == 0 {
        EndOfParams(mediatype, params, cont);
        v := [];
        break;
      }
      ConsumeShorter(w);
      var (key, value, rest) := ConsumeParam(w);
      if key == [] {
        return if TrimSpace(rest) == [SEMI] then Ok(mediatype, params) else BadParam(mediatype);
      }
      if STAR !in key {
        if key in params { return Duplicate; }
        params := params[key := value];
      } else {
        var base := key[..IndexByte(key, STAR)];
        var pieces := if base in cont then cont[base] else map[];
        if key in pieces { return Duplicate; }
        cont := cont[base := pieces[key := value]];
      }
      v := rest;
    }
    EndOfParams(mediatype, params, cont);
    params := StitchAll(params, cont);
    return Ok(mediatype, params);
  }
}
