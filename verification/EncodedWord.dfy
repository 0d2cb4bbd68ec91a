/** Q encoded-words, sections 2, 4.2 and 5 of RFC 2047 (mime/encodedword.go). */
module EncodedWord {
  import opened Prelude
  import opened Utf8

  type bytes = seq<byte>

  const SPACE: byte := 0x20
  const EQUALS: byte := 0x3D
  const QUESTION: byte := 0x3F
  const UNDERSCORE: byte := 0x5F
  const LOWER_Q: byte := 0x71
  const MAX_WORD := 75
  const MAX_CONTENT := 63

  // ----- charsets -----------------------------------------------------

  function Lower(c: byte): byte {
    if 0x41 <= c <= 0x5A then c + 0x20 else c
  }

  predicate EqualFold(a: bytes, b: bytes) {
    |a| == |b| && forall i :: 0 <= i < |a| ==> Lower(a[i]) == Lower(b[i])
  }

  const UTF8: bytes := [0x75, 0x74, 0x66, 0x2D, 0x38]
  const LATIN1: bytes := [0x69, 0x73, 0x6F, 0x2D, 0x38, 0x38, 0x35, 0x39, 0x2D, 0x31]
  const ASCII: bytes := [0x75, 0x73, 0x2D, 0x61, 0x73, 0x63, 0x69, 0x69]

  predicate IsUTF8(charset: bytes) {
    EqualFold(charset, UTF8)
  }

  // ----- encoding -----------------------------------------------------

  /** Printable and with no meaning of its own in an encoded-word. */
  predicate PlainByte(b: byte) {
    SPACE <= b <= 0x7E && b != EQUALS && b != QUESTION && b != UNDERSCORE
  }

  function UpperHex(d: nat): byte
    requires d < 16
  {
    if d < 10 then 0x30 + d else 0x41 + d - 10
  }

  function QByte(b: byte): (q: bytes)
    ensures |q| == if PlainByte(b) then 1 else 3
  {
    if b == SPACE then [UNDERSCORE] else if PlainByte(b) then [b] else [EQUALS, UpperHex(b / 16), UpperHex(b % 16)]
  }

  /** What writeQString writes. */
  function Q(s: bytes): bytes {
    if s == [] then [] else QByte(s[0]) + Q(s[1..])
  }

  function Open(charset: bytes): bytes {
    [EQUALS, QUESTION] + charset + [QUESTION, LOWER_Q, QUESTION]
  }

  const CLOSE: bytes := [QUESTION, EQUALS]

  /** The rune at the head of s as qEncode steps over it: its width and the length of its encoding. */
  function Width(s: bytes): (n: nat)
    requires s != []
    ensures 1 <= n <= |s|
  {
    if PlainByte(s[0]) then 1 else DecodeRune(s).1
  }

  function Cost(s: bytes): nat
    requires s != []
  {
    if PlainByte(s[0]) then 1 else 3 * Width(s)
  }

  /** The content of each word: `done` is in the current word already, and takes `cur` bytes there. */
  function Pieces(s: bytes, done: bytes, cur: nat): (r: seq<bytes>)
    ensures r != []
    decreases |s|
  {
    if s == [] then [done]
    else
      var k, e := Width(s), Cost(s);
      if cur + e > MAX_CONTENT then [done] + Pieces(s[k..], s[..k], e)
      else Pieces(s[k..], done + s[..k], cur + e)
  }

  function Word(charset: bytes, piece: bytes): bytes {
    Open(charset) + (Q(piece) + CLOSE)
  }

  function Worded(charset: bytes): bytes -> bytes {
    p => Word(charset, p)
  }

  /** Words separated by single spaces. */
  function Spaced(word: bytes -> bytes, pieces: seq<bytes>): bytes
    requires pieces != []
  {
    if |pieces| == 1 then word(pieces[0])
    else word(pieces[0]) + ([SPACE] + Spaced(word, pieces[1..]))
  }

  function Words(charset: bytes, pieces: seq<bytes>): bytes
    requires pieces != []
  {
    Spaced(Worded(charset), pieces)
  }

  predicate NeedsEncoding(s: bytes) {
    exists r :: r in DecodeAll(s) && (r < 0x20 || r > 0x7E) && r != 0x09
  }

  /** encodeWord for the Q encoding. */
  function EncodeWord(charset: bytes, s: bytes): bytes {
    if IsUTF8(charset) then Words(charset, Pieces(s, [], 0)) else Word(charset, s)
  }

  function Encode(charset: bytes, s: bytes): bytes {
    if NeedsEncoding(s) then EncodeWord(charset, s) else s
  }

  // ----- properties of the pieces -------------------------------------

  function Concat(pieces: seq<bytes>): bytes {
    if pieces == [] then [] else pieces[0] + Concat(pieces[1..])
  }

  lemma ConcatCons(p: bytes, rest: seq<bytes>)
    ensures Concat([p] + rest) == p + Concat(rest)
  {
    assert ([p] + rest)[1..] == rest;
  }

  /** The pieces make up the string. */
  lemma {:induction false} PiecesConcat(s: bytes, done: bytes, cur: nat)
    ensures Concat(Pieces(s, done, cur)) == done + s
    decreases |s|
  {
    if s == [] {
      ConcatCons(done, []);
      assert [done] + [] == [done] && done + Concat([]) == done;
    } else {
      var k, e := Width(s), Cost(s);
      var tail := s[k..];
      Split(done, s, k);
      if cur + e > MAX_CONTENT {
        PiecesConcat(tail, s[..k], e);
        ConcatCons(done, Pieces(tail, s[..k], e));
      } else {
        PiecesConcat(tail, done + s[..k], cur + e);
      }
    }
  }

  lemma Split(done: bytes, s: bytes, k: nat)
    requires k <= |s|
    ensures s[..k] + s[k..] == s && (done + s[..k]) + s[k..] == done + s
  {
  }

  lemma {:induction false} QConcat(a: bytes, b: bytes)
    ensures Q(a + b) == Q(a) + Q(b)
  {
    if a == [] {
      assert a + b == b;
      assert Q(a) + Q(b) == Q(b);
    } else {
      QConcat(a[1..], b);
      QCons(a[0], a[1..] + b);
      assert [a[0]] + (a[1..] + b) == a + b;
      Regroup(QByte(a[0]), Q(a[1..]), Q(b));
    }
  }

  lemma QCons(c: byte, p: bytes)
    ensures Q([c] + p) == QByte(c) + Q(p)
  {
    assert ([c] + p)[1..] == p;
  }

  lemma {:induction false} QTriples(p: bytes)
    requires forall i :: 0 <= i < |p| ==> !PlainByte(p[i])
    ensures |Q(p)| == 3 * |p|
  {
    if p != [] { QTriples(p[1..]); }
  }

  /** Every byte of a multi-byte rune is beyond ASCII. */
  lemma CostIsLength(s: bytes)
    requires s != []
    ensures |Q(s[..Width(s)])| == Cost(s) <= 12
  {
    var p := s[..Width(s)];
    if PlainByte(s[0]) {
      assert p == [s[0]] && p[1..] == [];
      assert Q(p[1..]) == [];
    } else {
      forall i | 0 <= i < |p|
        ensures !PlainByte(p[i])
      {
        if |p| > 1 { MultiByte(s, i); }
      }
      QTriples(p);
    }
  }

  lemma MultiByte(s: bytes, i: nat)
    requires s != [] && i < DecodeRune(s).1 && DecodeRune(s).1 > 1
    ensures s[i] >= 0x80
  {
  }

  /** No piece takes more than MAX_CONTENT bytes in its word. */
  lemma {:induction false} PiecesFit(s: bytes, done: bytes, cur: nat)
    requires |Q(done)| == cur <= MAX_CONTENT
    ensures forall i :: 0 <= i < |Pieces(s, done, cur)| ==> |Q(Pieces(s, done, cur)[i])| <= MAX_CONTENT
    decreases |s|
  {
    if s != [] {
      var k, e := Width(s), Cost(s);
      CostIsLength(s);
      if cur + e > MAX_CONTENT {
        PiecesFit(s[k..], s[..k], e);
      } else {
        QConcat(done, s[..k]);
        PiecesFit(s[k..], done + s[..k], cur + e);
      }
    }
  }

  /** Every word of the output is at most 75 bytes long. */
  lemma WordsFit(charset: bytes, s: bytes, i: nat)
    requires IsUTF8(charset) && i < |Pieces(s, [], 0)|
    ensures |Word(charset, Pieces(s, [], 0)[i])| <= MAX_WORD
  {
    PiecesFit(s, [], 0);
  }

  // ----- no rune is split ---------------------------------------------

  function RuneWidth(s: bytes): nat {
    DecodeRune(s).1
  }

  /** Stepping through p + rest by the widths `w` passes through the end of p. */
  ghost predicate Walks(w: bytes -> nat, p: bytes, rest: bytes)
    decreases |p|
  {
    p == [] || (0 < w(p + rest) <= |p| && Walks(w, p[w(p + rest)..], rest))
  }

  lemma {:induction false} WalksDecode(p: bytes, rest: bytes)
    requires Walks(RuneWidth, p, rest)
    ensures DecodeAll(p + rest) == DecodeAll(p) + DecodeAll(rest)
    decreases |p|
  {
    if p == [] {
      assert p + rest == rest;
    } else {
      var k := RuneWidth(p + rest);
      var c := DecodeStep(p, rest, k);
      WalksDecode(p[k..], rest);
      Cons(c, DecodeAll(p[k..]), DecodeAll(rest));
    }
  }

  lemma Cons(c: rune, a: seq<rune>, b: seq<rune>)
    ensures [c] + (a + b) == ([c] + a) + b
  {
  }

  lemma DecodeStep(p: bytes, rest: bytes, k: nat) returns (c: rune)
    requires p != [] && k == RuneWidth(p + rest) && 0 < k <= |p|
    ensures DecodeAll(p + rest) == [c] + DecodeAll(p[k..] + rest) && DecodeAll(p) == [c] + DecodeAll(p[k..])
  {
    var s := p + rest;
    CutAfterRune(s, |p|);
    assert s[..|p|] == p;
    assert s[k..] == p[k..] + rest;
    c := DecodeRune(s).0;
  }

  lemma {:induction false} WalksMore(w: bytes -> nat, p: bytes, s: bytes, k: nat)
    requires 0 < k <= |s| && k == w(s) && Walks(w, p, s)
    ensures Walks(w, p + s[..k], s[k..])
    decreases |p|
  {
    var q := p + s[..k];
    assert q + s[k..] == p + s;
    if p == [] {
      assert p + s == s;
      assert q[k..] == [];
      assert Walks(w, q[k..], s[k..]);
    } else {
      var n := w(p + s);
      WalksMore(w, p[n..], s, k);
      assert q[n..] == p[n..] + s[..k];
    }
  }

  function RunesOf(pieces: seq<bytes>): seq<rune> {
    if pieces == [] then [] else DecodeAll(pieces[0]) + RunesOf(pieces[1..])
  }

  lemma RunesCons(p: bytes, rest: seq<bytes>)
    ensures RunesOf([p] + rest) == DecodeAll(p) + RunesOf(rest)
  {
    assert ([p] + rest)[1..] == rest;
  }

  lemma WidthIsRune(s: bytes)
    requires s != []
    ensures Width(s) == RuneWidth(s)
  {
  }

  lemma KeepSplit(done: bytes, s: bytes, rest: seq<bytes>)
    requires Walks(RuneWidth, done, s) && RunesOf(rest) == DecodeAll(s)
    ensures RunesOf([done] + rest) == DecodeAll(done + s)
  {
    RunesCons(done, rest);
    WalksDecode(done, s);
  }

  lemma KeepLast(done: bytes)
    ensures RunesOf([done]) == DecodeAll(done + [])
  {
    RunesCons(done, []);
    assert [done] + [] == [done] && done + [] == done;
  }

  lemma PiecesStep(s: bytes, done: bytes, cur: nat, k: nat, e: nat)
    requires s != [] && k == Width(s) && e == Cost(s)
    ensures Pieces(s, done, cur) ==
            if cur + e > MAX_CONTENT then [done] + Pieces(s[k..], s[..k], e) else Pieces(s[k..], done + s[..k], cur + e)
  {
  }

  /** Decoding each piece alone gives the runes of the whole: no rune is split across words. */
  lemma {:induction false} PiecesKeepRunes(s: bytes, done: bytes, cur: nat)
    requires Walks(RuneWidth, done, s)
    ensures RunesOf(Pieces(s, done, cur)) == DecodeAll(done + s)
    decreases |s|
  {
    if s == [] {
      KeepLast(done);
    } else {
      var k, e := Width(s), Cost(s);
      PiecesStep(s, done, cur, k, e);
      WidthIsRune(s);
      Split(done, s, k);
      if cur + e > MAX_CONTENT {
        OneRune(s, k);
        PiecesKeepRunes(s[k..], s[..k], e);
        KeepSplit(done, s, Pieces(s[k..], s[..k], e));
      } else {
        WalksMore(RuneWidth, done, s, k);
        PiecesKeepRunes(s[k..], done + s[..k], cur + e);
      }
    }
  }

  lemma OneRune(s: bytes, k: nat)
    requires s != [] && k == RuneWidth(s)
    ensures Walks(RuneWidth, s[..k], s[k..])
  {
    WalksMore(RuneWidth, [], s, k);
    assert [] + s[..k] == s[..k];
  }

  // ----- decoding -----------------------------------------------------

  function FromHex(b: byte): Option<byte> {
    if 0x30 <= b <= 0x39 then Some(b - 0x30)
    else if 0x41 <= b <= 0x46 then Some(b - 0x41 + 10)
    else if 0x61 <= b <= 0x66 then Some(b - 0x61 + 10)
    else None
  }

  function ReadHexByte(a: byte, b: byte): (r: Option<byte>) {
    if FromHex(a).None? || FromHex(b).None? then None
    else HexPair(a, b); Some(FromHex(a).value * 16 + FromHex(b).value)
  }

  lemma HexPair(a: byte, b: byte)
    requires FromHex(a).Some? && FromHex(b).Some?
    ensures FromHex(a).value < 16 && FromHex(b).value < 16
  {
  }

  predicate Literal(c: byte) {
    0x20 <= c <= 0x7E || c == 0x0A || c == 0x0D || c == 0x09
  }

  function QDecode(s: bytes): (r: Option<bytes>)
  {
    if s == [] then Some([])
    else if s[0] == EQUALS then
      if |s| < 3 then None
      else
        match ReadHexByte(s[1], s[2])
        case None => None
        case Some(b) => Prepend([b], QDecode(s[3..]))
    else if s[0] == UNDERSCORE then Prepend([SPACE], QDecode(s[1..]))
    else if Literal(s[0]) then Prepend([s[0]], QDecode(s[1..]))
    else None
  }

  function Prepend(p: bytes, r: Option<bytes>): Option<bytes> {
    match r case None => None case Some(q) => Some(p + q)
  }

  lemma QByteBack(b: byte, rest: bytes)
    ensures QDecode(QByte(b) + rest) == Prepend([b], QDecode(rest))
  {
    var s := QByte(b) + rest;
    assert s[|QByte(b)|..] == rest;
    if !PlainByte(b) {
      assert FromHex(UpperHex(b / 16)) == Some(b / 16) && FromHex(UpperHex(b % 16)) == Some(b % 16);
    }
  }

  /** Decoding undoes the Q encoding of any bytes. */
  lemma {:induction false} QBack(s: bytes)
    ensures QDecode(Q(s)) == Some(s)
  {
    if s != [] {
      QByteBack(s[0], Q(s[1..]));
      QBack(s[1..]);
      assert [s[0]] + s[1..] == s;
    }
  }

  /** Where `a` first stands at index k or later, or -1. */
  function IndexOf(s: bytes, k: nat, a: byte): (i: int)
    requires k <= |s|
    ensures i == -1 || k <= i < |s|
    decreases |s| - k
  {
    if k == |s| then -1 else if s[k] == a then k else IndexOf(s, k + 1, a)
  }

  /** Where `a` and `b` first stand side by side at index k or later, or -1. */
  function IndexPair(s: bytes, k: nat, a: byte, b: byte): (i: int)
    requires k <= |s|
    ensures i == -1 || k <= i <= |s| - 2
    decreases |s| - k
  {
    if |s| < k + 2 then -1 else if s[k] == a && s[k + 1] == b then k else IndexPair(s, k + 1, a, b)
  }

  /** A candidate encoded-word inside a header. */
  datatype Found = Found(start: nat, charset: bytes, encoding: byte, text: bytes, end: nat)

  function FindWord(h: bytes): (r: Option<Found>)
    ensures r.Some? ==> r.value.start + 2 < r.value.end <= |h|
  {
    var start := IndexPair(h, 0, EQUALS, QUESTION);
    if start < 0 then None
    else
      var i := IndexOf(h, start + 2, QUESTION);
      if i < 0 || |h| < i + 5 || h[i + 2] != QUESTION then None
      else
        var j := IndexPair(h, i + 3, QUESTION, EQUALS);
        if j < 0 then None else Some(Found(start, h[start + 2..i], h[i + 1], h[i + 3..j], j + 2))
  }

  /** The base64 codec and the caller's CharsetReader. */
  datatype Env = Env(base64: bytes -> Option<bytes>, reader: (bytes, bytes) -> Option<bytes>)

  function DecodeText(env: Env, encoding: byte, text: bytes): Option<bytes> {
    if encoding == 0x42 || encoding == 0x62 then env.base64(text)
    else if encoding == 0x51 || encoding == LOWER_Q then QDecode(text)
    else None
  }

  function Latin1(content: bytes): bytes {
    if content == [] then [] else EncodeRune(content[0]) + Latin1(content[1..])
  }

  function UsAscii(content: bytes): bytes {
    if content == [] then []
    else (if content[0] >= RUNE_SELF then EncodeRune(RUNE_ERROR) else [content[0]]) + UsAscii(content[1..])
  }

  /** convert; None is the error of an unhandled charset. */
  function Convert(env: Env, charset: bytes, content: bytes): Option<bytes> {
    if EqualFold(UTF8, charset) then Some(content)
    else if EqualFold(LATIN1, charset) then Some(Latin1(content))
    else if EqualFold(ASCII, charset) then Some(UsAscii(content))
    else env.reader(charset, content)
  }

  predicate IsWhite(b: byte) {
    b == 0x20 || b == 0x09 || b == 0x0A || b == 0x0D
  }

  predicate HasNonWhite(s: bytes) {
    exists i :: 0 <= i < |s| && !IsWhite(s[i])
  }

  /** The text before a word that is kept: not the white space between two words. */
  function Kept(before: bytes, between: bool): bytes {
    if !between || HasNonWhite(before) then before else []
  }

  /** The loop of DecodeHeader. */
  function DecodeFrom(env: Env, h: bytes, between: bool): Option<bytes>
    decreases |h|
  {
    match FindWord(h)
    case None => Some(h)
    case Some(w) =>
      match DecodeText(env, w.encoding, w.text)
      case None => Prepend(h[..w.start + 2], DecodeFrom(env, h[w.start + 2..], false))
      case Some(content) =>
        match Convert(env, w.charset, content)
        case None => None
        case Some(out) => Prepend(Kept(h[..w.start], between) + out, DecodeFrom(env, h[w.end..], true))
  }

  function DecodeHeader(env: Env, h: bytes): Option<bytes> {
    var i := IndexPair(h, 0, EQUALS, QUESTION);
    if i < 0 then Some(h) else Prepend(h[..i], DecodeFrom(env, h[i..], false))
  }

  // ----- the round trip -----------------------------------------------

  lemma {:induction false} IndexOfIs(s: bytes, k: nat, a: byte, i: nat)
    requires k <= i < |s| && s[i] == a && forall x :: k <= x < i ==> s[x] != a
    ensures IndexOf(s, k, a) == i
    decreases i - k
  {
    if k < i { IndexOfIs(s, k + 1, a, i); }
  }

  lemma {:induction false} IndexPairIs(s: bytes, k: nat, a: byte, b: byte, i: nat)
    requires k <= i <= |s| - 2 && s[i] == a && s[i + 1] == b && forall x :: k <= x < i ==> s[x] != a
    ensures IndexPair(s, k, a, b) == i
    decreases i - k
  {
    if k < i { IndexPairIs(s, k + 1, a, b, i); }
  }

  lemma {:induction false} QHasNoQuestion(p: bytes)
    ensures QUESTION !in Q(p)
  {
    if p != [] {
      QHasNoQuestion(p[1..]);
      assert QUESTION !in QByte(p[0]);
    }
  }

  lemma CharsetHasNoQuestion(charset: bytes)
    requires IsUTF8(charset)
    ensures QUESTION !in charset && |charset| == 5
  {
    assert forall i :: 0 <= i < 5 ==> Lower(UTF8[i]) != QUESTION && Lower(charset[i]) == Lower(UTF8[i]);
  }

  lemma WordIsFound(lead: bytes, cs: bytes, q: bytes, rest: bytes, h: bytes)
    requires EQUALS !in lead && QUESTION !in cs && QUESTION !in q
    requires h == lead + (Open(cs) + (q + CLOSE)) + rest
    ensures FindWord(h) == Some(Found(|lead|, cs, LOWER_Q, q, |h| - |rest|))
  {
    var i := |lead| + 2 + |cs|;
    var j := i + 3 + |q|;
    Layout(lead, cs, q, rest, h, i, j);
    IndexPairIs(h, 0, EQUALS, QUESTION, |lead|);
    IndexOfIs(h, |lead| + 2, QUESTION, i);
    IndexPairIs(h, i + 3, QUESTION, EQUALS, j);
    FindSteps(h, |lead|, i, j);
  }

  lemma FindSteps(h: bytes, start: nat, i: nat, j: nat)
    requires IndexPair(h, 0, EQUALS, QUESTION) == start && start + 2 <= |h| && IndexOf(h, start + 2, QUESTION) == i
    requires |h| >= i + 5 && h[i + 2] == QUESTION && IndexPair(h, i + 3, QUESTION, EQUALS) == j
    ensures FindWord(h) == Some(Found(start, h[start + 2..i], h[i + 1], h[i + 3..j], j + 2))
  {
  }

  /** Where the parts of a word stand in a header. */
  lemma Layout(lead: bytes, cs: bytes, q: bytes, rest: bytes, h: bytes, i: nat, j: nat)
    requires h == lead + (Open(cs) + (q + CLOSE)) + rest && i == |lead| + 2 + |cs| && j == i + 3 + |q|
    ensures |h| == j + 2 + |rest| && forall x :: 0 <= x < |lead| ==> h[x] == lead[x]
    ensures h[|lead|] == EQUALS && h[|lead| + 1] == QUESTION && h[|lead| + 2..i] == cs
    ensures h[i] == QUESTION && h[i + 1] == LOWER_Q && h[i + 2] == QUESTION && h[i + 3..j] == q
    ensures h[j] == QUESTION && h[j + 1] == EQUALS
    ensures forall x :: |lead| + 2 <= x < i ==> h[x] == cs[x - |lead| - 2]
    ensures forall x :: i + 3 <= x < j ==> h[x] == q[x - i - 3]
  {
  }

  /** What DecodeFrom does with a word it finds in UTF-8. */
  lemma DecodeFound(env: Env, h: bytes, w: Found, p: bytes, between: bool)
    requires FindWord(h) == Some(w) && IsUTF8(w.charset) && w.encoding == LOWER_Q && QDecode(w.text) == Some(p)
    ensures DecodeFrom(env, h, between) == Prepend(Kept(h[..w.start], between) + p, DecodeFrom(env, h[w.end..], true))
  {
  }

  /** The white space before a word: none, or a space after another word. */
  predicate Separates(lead: bytes, between: bool) {
    lead == [] || (lead == [SPACE] && between)
  }

  lemma StripWord(env: Env, lead: bytes, word: bytes, rest: bytes, h: bytes, w: Found, p: bytes, between: bool)
    requires h == lead + word + rest && Separates(lead, between)
    requires w.start == |lead| && w.end == |lead| + |word| <= |h|
    requires DecodeFrom(env, h, between) == Prepend(Kept(h[..w.start], between) + p, DecodeFrom(env, h[w.end..], true))
    ensures DecodeFrom(env, h, between) == Prepend(p, DecodeFrom(env, rest, true))
  {
    Parts(lead, word, rest);
    assert Kept(lead, between) == [];
    assert [] + p == p;
  }

  /** One word at the head of a header, perhaps after the space that separates it from another. */
  lemma WordBack(env: Env, cs: bytes, lead: bytes, p: bytes, rest: bytes, between: bool)
    requires IsUTF8(cs) && Separates(lead, between)
    ensures DecodeFrom(env, lead + Word(cs, p) + rest, between) == Prepend(p, DecodeFrom(env, rest, true))
  {
    CharsetHasNoQuestion(cs);
    QHasNoQuestion(p);
    QBack(p);
    TextBack(env, lead, cs, Q(p), p, rest, lead + Word(cs, p) + rest, between);
  }

  lemma TextBack(env: Env, lead: bytes, cs: bytes, q: bytes, p: bytes, rest: bytes, h: bytes, between: bool)
    requires QUESTION !in cs && QUESTION !in q && IsUTF8(cs) && QDecode(q) == Some(p) && Separates(lead, between)
    requires h == lead + (Open(cs) + (q + CLOSE)) + rest
    ensures DecodeFrom(env, h, between) == Prepend(p, DecodeFrom(env, rest, true))
  {
    var word := Open(cs) + (q + CLOSE);
    var w := Found(|lead|, cs, LOWER_Q, q, |lead| + |word|);
    WordIsFound(lead, cs, q, rest, h);
    DecodeFound(env, h, w, p, between);
    StripWord(env, lead, word, rest, h, w, p, between);
  }

  lemma Parts(a: bytes, b: bytes, c: bytes)
    ensures (a + b + c)[..|a|] == a && (a + b + c)[|a| + |b|..] == c
  {
  }

  /** `f` strips one word and hands on the rest. */
  ghost predicate Strips(f: (bytes, bool) -> Option<bytes>, word: bytes -> bytes, lead: bytes, p: bytes, rest: bytes, between: bool) {
    Separates(lead, between) ==> f(lead + word(p) + rest, between) == Prepend(p, f(rest, true))
  }

  ghost predicate StripsAll(f: (bytes, bool) -> Option<bytes>, word: bytes -> bytes) {
    forall lead, p, rest, between {:trigger Strips(f, word, lead, p, rest, between)} :: Strips(f, word, lead, p, rest, between)
  }

  lemma {:induction false} SpacedBack(f: (bytes, bool) -> Option<bytes>, word: bytes -> bytes, lead: bytes, pieces: seq<bytes>, between: bool)
    requires StripsAll(f, word) && f([], true) == Some([]) && pieces != [] && Separates(lead, between)
    ensures f(lead + Spaced(word, pieces), between) == Some(Concat(pieces))
    decreases |pieces|
  {
    var p := pieces[0];
    if |pieces| == 1 {
      assert Strips(f, word, lead, p, [], between);
      assert lead + word(p) + [] == lead + word(p);
      assert pieces == [p] + [];
      ConcatCons(p, []);
    } else {
      var more := [SPACE] + Spaced(word, pieces[1..]);
      assert Strips(f, word, lead, p, more, between);
      assert lead + (word(p) + more) == lead + word(p) + more;
      SpacedBack(f, word, [SPACE], pieces[1..], true);
    }
  }

  lemma WordsBack(env: Env, cs: bytes, pieces: seq<bytes>)
    requires IsUTF8(cs) && pieces != []
    ensures DecodeFrom(env, Words(cs, pieces), false) == Some(Concat(pieces))
  {
    var f, word := (h, between) => DecodeFrom(env, h, between), Worded(cs);
    forall lead, p, rest, between
      ensures Strips(f, word, lead, p, rest, between)
    {
      if Separates(lead, between) { WordBack(env, cs, lead, p, rest, between); }
    }
    SpacedBack(f, word, [], pieces, false);
    assert [] + Words(cs, pieces) == Words(cs, pieces);
  }

  lemma WordsStart(word: bytes -> bytes, pieces: seq<bytes>)
    requires pieces != [] && |word(pieces[0])| >= 2 && word(pieces[0])[0] == EQUALS && word(pieces[0])[1] == QUESTION
    ensures |Spaced(word, pieces)| >= 2 && Spaced(word, pieces)[0] == EQUALS && Spaced(word, pieces)[1] == QUESTION
  {
  }

  lemma HeaderFrom(env: Env, h: bytes)
    requires |h| >= 2 && h[0] == EQUALS && h[1] == QUESTION
    ensures DecodeHeader(env, h) == DecodeFrom(env, h, false)
  {
    assert h[..0] == [] && h[0..] == h;
    var r := DecodeFrom(env, h, false);
    assert r.Some? ==> [] + r.value == r.value;
  }

  /** A header of words decodes to what the words hold, without the spaces between them. */
  lemma HeaderBack(env: Env, cs: bytes, pieces: seq<bytes>)
    requires IsUTF8(cs) && pieces != []
    ensures DecodeHeader(env, Words(cs, pieces)) == Some(Concat(pieces))
  {
    WordsBack(env, cs, pieces);
    WordsStart(Worded(cs), pieces);
    HeaderFrom(env, Words(cs, pieces));
  }

  /** DecodeHeader undoes the Q encoding in UTF-8, spaces between words included. */
  lemma EncodedBack(env: Env, charset: bytes, s: bytes)
    requires IsUTF8(charset)
    ensures DecodeHeader(env, EncodeWord(charset, s)) == Some(s)
  {
    HeaderBack(env, charset, Pieces(s, [], 0));
    PiecesConcat(s, [], 0);
    assert [] + s == s;
  }

  /** For every string that needs encoding. */
  lemma EncodeBack(env: Env, charset: bytes, s: bytes)
    requires IsUTF8(charset) && NeedsEncoding(s)
    ensures DecodeHeader(env, Encode(charset, s)) == Some(s)
  {
    EncodedBack(env, charset, s);
  }

  /** No word of the text, as the decoder steps through it, holds anything that decodes. */
  predicate Idle(env: Env, h: bytes)
    decreases |h|
  {
    match FindWord(h)
    case None => true
    case Some(w) => DecodeText(env, w.encoding, w.text).None? && Idle(env, h[w.start + 2..])
  }

  /** The same of a whole header, which the decoder enters at the first "=?". */
  predicate IdleHeader(env: Env, h: bytes) {
    var i := IndexPair(h, 0, EQUALS, QUESTION);
    i >= 0 ==> Idle(env, h[i..])
  }

  lemma Rejoin(h: bytes, k: nat)
    requires k <= |h|
    ensures Prepend(h[..k], Some(h[k..])) == Some(h)
  {
    assert h[..k] + h[k..] == h;
  }

  lemma {:induction false} IdleFrom(env: Env, h: bytes, between: bool)
    requires Idle(env, h)
    ensures DecodeFrom(env, h, between) == Some(h)
    decreases |h|
  {
    if FindWord(h).Some? {
      var k := FindWord(h).value.start + 2;
      IdleFrom(env, h[k..], false);
      Rejoin(h, k);
    }
  }

  /** An idle header comes back as it is, in every environment. */
  lemma IdleBack(env: Env, h: bytes)
    requires IdleHeader(env, h)
    ensures DecodeHeader(env, h) == Some(h)
  {
    var i := IndexPair(h, 0, EQUALS, QUESTION);
    if i >= 0 {
      IdleFrom(env, h[i..], false);
      Rejoin(h, i);
    }
  }

  /** No base64 codec and no CharsetReader: only Q words in the built-in charsets decode. */
  ghost predicate QOnly(env: Env) {
    (forall t :: env.base64(t) == None) && (forall c, t :: env.reader(c, t) == None)
  }

  /** Bytes that a charset may write longer than they are: three for those beyond ASCII. */
  function Breadth(content: bytes): nat {
    if content == [] then 0 else (if content[0] < RUNE_SELF then 1 else 3) + Breadth(content[1..])
  }

  lemma BreadthCons(b: byte, content: bytes)
    ensures Breadth([b] + content) == (if b < RUNE_SELF then 1 else 3) + Breadth(content)
  {
    assert ([b] + content)[1..] == content;
  }

  /** A byte beyond ASCII takes three bytes to write in Q. */
  lemma {:induction false} QDecodeShrinks(s: bytes)
    ensures QDecode(s).Some? ==> Breadth(QDecode(s).value) <= |s|
    decreases |s|
  {
    if QDecode(s).Some? && s != [] {
      var k := if s[0] == EQUALS then 3 else 1;
      QDecodeShrinks(s[k..]);
      var b := if s[0] == EQUALS then ReadHexByte(s[1], s[2]).value else if s[0] == UNDERSCORE then SPACE else s[0];
      BreadthCons(b, QDecode(s[k..]).value);
    }
  }

  lemma {:induction false} CharsetShrinks(content: bytes)
    ensures |content| <= Breadth(content) && |Latin1(content)| <= Breadth(content) && |UsAscii(content)| <= Breadth(content)
  {
    if content != [] { CharsetShrinks(content[1..]); }
  }

  /** What a word decodes to is no longer than its text. */
  lemma WordShrinks(env: Env, encoding: byte, text: bytes, charset: bytes)
    requires QOnly(env) && DecodeText(env, encoding, text).Some?
    ensures var out := Convert(env, charset, DecodeText(env, encoding, text).value); out.Some? ==> |out.value| <= |text|
  {
    QDecodeShrinks(text);
    CharsetShrinks(DecodeText(env, encoding, text).value);
  }

  /** Where a word stands: its text lies well inside it. */
  lemma FoundIsLonger(h: bytes)
    requires FindWord(h).Some?
    ensures var w := FindWord(h).value; w.start + |w.text| < w.end
  {
  }

  lemma {:induction false} DecodingShrinks(env: Env, h: bytes, between: bool)
    requires QOnly(env) && DecodeFrom(env, h, between).Some?
    ensures |DecodeFrom(env, h, between).value| <= |h|
    ensures !Idle(env, h) ==> |DecodeFrom(env, h, between).value| < |h|
    decreases |h|
  {
    if FindWord(h).Some? {
      var w := FindWord(h).value;
      FoundIsLonger(h);
      if DecodeText(env, w.encoding, w.text).None? {
        DecodingShrinks(env, h[w.start + 2..], false);
      } else {
        WordShrinks(env, w.encoding, w.text, w.charset);
        DecodingShrinks(env, h[w.end..], true);
      }
    }
  }

  /** With only Q words to decode, a header comes back as it is exactly when it is idle. */
  lemma IdleIff(env: Env, h: bytes)
    requires QOnly(env)
    ensures DecodeHeader(env, h) == Some(h) <==> IdleHeader(env, h)
  {
    if IdleHeader(env, h) {
      IdleBack(env, h);
    } else {
      var i := IndexPair(h, 0, EQUALS, QUESTION);
      if DecodeFrom(env, h[i..], false).Some? { DecodingShrinks(env, h[i..], false); }
    }
  }

  /**
   When DecodeHeader undoes Encode: always for a string that needs encoding, and for one that
   is passed on exactly when nothing in it decodes.
   */
  lemma EncodeBackIff(env: Env, charset: bytes, s: bytes)
    requires IsUTF8(charset) && QOnly(env)
    ensures DecodeHeader(env, Encode(charset, s)) == Some(s) <==> NeedsEncoding(s) || IdleHeader(env, s)
  {
    if NeedsEncoding(s) {
      EncodeBack(env, charset, s);
    } else {
      IdleIff(env, s);
    }
  }

  ghost predicate Printable(s: bytes) {
    forall i :: 0 <= i < |s| ==> 0x20 <= s[i] <= 0x7E
  }

  lemma {:induction false} QIsPrintable(p: bytes)
    ensures Printable(Q(p)) && |p| <= |Q(p)|
  {
    if p != [] {
      QIsPrintable(p[1..]);
      assert Printable(QByte(p[0]));
    }
  }

  lemma WordIsPrintable(cs: bytes, p: bytes)
    requires IsUTF8(cs)
    ensures Printable(Word(cs, p)) && |p| < |Word(cs, p)|
  {
    QIsPrintable(p);
    assert forall i :: 0 <= i < 5 ==> 0x20 <= Lower(UTF8[i]) <= 0x7E && Lower(cs[i]) == Lower(UTF8[i]);
    assert Printable(cs);
    assert Printable(Open(cs)) && Printable(Q(p) + CLOSE);
  }

  /** Why the law is about strings that need encoding: any word is passed on as it is, and decodes to its content. */
  lemma PassedOnDecodes(env: Env, charset: bytes, cs: bytes, p: bytes)
    requires IsUTF8(cs)
    ensures Encode(charset, Word(cs, p)) == Word(cs, p)
    ensures DecodeHeader(env, Word(cs, p)) == Some(p) && p != Word(cs, p)
  {
    WordIsPrintable(cs, p);
    AsciiDecodes(Word(cs, p));
    HeaderBack(env, cs, [p]);
    ConcatCons(p, []);
    assert [p] + [] == [p] && p + [] == p;
  }

  lemma {:induction false} AsciiDecodes(s: bytes)
    requires Printable(s)
    ensures forall r :: r in DecodeAll(s) ==> 0x20 <= r <= 0x7E
  {
    if s != [] { AsciiDecodes(s[1..]); }
  }

  // ----- the loops ----------------------------------------------------

  /** writeQString. */
  method WriteQString(buf: bytes, s: bytes) returns (r: bytes)
    ensures r == buf + Q(s)
  {
    r := buf;
    assert s[..0] == [];
    for i := 0 to |s|
      invariant r == buf + Q(s[..i])
    {
      var b := s[i];
      QSnoc(s, i);
      Regroup(buf, Q(s[..i]), QByte(b));
      if b == SPACE {
        r := r + [UNDERSCORE];
      } else if 0x21 <= b <= 0x7E && b != EQUALS && b != QUESTION && b != UNDERSCORE {
        r := r + [b];
      } else {
        r := r + [EQUALS, UpperHex(b / 16), UpperHex(b % 16)];
      }
    }
    assert s[..|s|] == s;
  }

  lemma QSnoc(s: bytes, i: nat)
    requires i < |s|
    ensures Q(s[..i + 1]) == Q(s[..i]) + QByte(s[i])
  {
    QConcat(s[..i], [s[i]]);
    QCons(s[i], []);
    assert s[..i + 1] == s[..i] + [s[i]] && [s[i]] + [] == [s[i]];
  }

  /** The output so far is `before` and an open word holding `done`; closing it and going on makes up `all`. */
  ghost predicate Written(cs: bytes, buf: bytes, before: bytes, done: bytes, rest: bytes, cur: nat, all: bytes) {
    buf == before + (Open(cs) + Q(done)) && all == before + Words(cs, Pieces(rest, done, cur))
  }

  lemma SplitKeeps(cs: bytes, buf: bytes, before: bytes, done: bytes, rest: bytes, cur: nat, all: bytes, k: nat, e: nat)
    requires Written(cs, buf, before, done, rest, cur, all) && rest != [] && k == Width(rest) && e == Cost(rest)
    requires cur + e > MAX_CONTENT && e <= 12
    ensures var before' := before + (Word(cs, done) + [SPACE]);
            Written(cs, buf + (CLOSE + [SPACE] + Open(cs)), before', [], rest, 0, all)
  {
    PiecesStep(rest, done, cur, k, e);
    PiecesStep(rest, [], 0, k, e);
    var more := Pieces(rest[k..], rest[..k], e);
    assert [] + rest[..k] == rest[..k];
    WordsCons(cs, done, more);
    Reassociate(before, Open(cs), Q(done), CLOSE, [SPACE], Words(cs, more));
    assert Q([]) == [] && Open(cs) + [] == Open(cs);
  }

  lemma WordsCons(cs: bytes, p: bytes, more: seq<bytes>)
    requires more != []
    ensures Words(cs, [p] + more) == Word(cs, p) + ([SPACE] + Words(cs, more))
  {
    assert ([p] + more)[1..] == more;
  }

  lemma Reassociate(before: bytes, open: bytes, q: bytes, close: bytes, space: bytes, more: bytes)
    ensures before + ((open + (q + close)) + (space + more)) == (before + ((open + (q + close)) + space)) + more
    ensures (before + (open + q)) + (close + space + open) == (before + ((open + (q + close)) + space)) + open
  {
  }

  lemma WriteKeeps(cs: bytes, buf: bytes, before: bytes, done: bytes, rest: bytes, cur: nat, all: bytes, k: nat, e: nat)
    requires Written(cs, buf, before, done, rest, cur, all) && rest != [] && k == Width(rest) && e == Cost(rest)
    requires cur + e <= MAX_CONTENT
    ensures Written(cs, buf + Q(rest[..k]), before, done + rest[..k], rest[k..], cur + e, all)
  {
    PiecesStep(rest, done, cur, k, e);
    QConcat(done, rest[..k]);
    Regroup(before, Open(cs) + Q(done), Q(rest[..k]));
    Regroup(Open(cs), Q(done), Q(rest[..k]));
  }

  /** One rune of qEncode, in a new word if it does not fit. */
  method WriteRune(charset: bytes, buf: bytes, rest: bytes, cur: nat, ghost before: bytes, ghost done: bytes, ghost all: bytes)
    returns (buf': bytes, k: nat, cur': nat, ghost before': bytes, ghost done': bytes)
    requires Written(charset, buf, before, done, rest, cur, all) && rest != []
    ensures 0 < k <= |rest| && Written(charset, buf', before', done', rest[k..], cur', all)
  {
    buf', k, cur', before', done' := buf, Width(rest), cur, before, done;
    var encLen := Cost(rest);
    CostIsLength(rest);
    if cur + encLen > MAX_CONTENT {
      SplitKeeps(charset, buf, before, done, rest, cur, all, k, encLen);
      before', done' := before + (Word(charset, done) + [SPACE]), [];
      buf' := buf + (CLOSE + [SPACE] + Open(charset));
      cur' := 0;
    }
    WriteKeeps(charset, buf', before', done', rest, cur', all, k, encLen);
    done' := done' + rest[..k];
    buf' := WriteQString(buf', rest[..k]);
    cur' := cur' + encLen;
  }

  /** qEncode with charset UTF-8, between openWord and closeWord. */
  method QEncode(charset: bytes, s: bytes) returns (buf: bytes)
    ensures buf + CLOSE == Words(charset, Pieces(s, [], 0))
  {
    buf := Open(charset);
    var rest, currentLen: nat := s, 0;
    ghost var all, before, done: bytes := Words(charset, Pieces(s, [], 0)), [], [];
    assert [] + (buf + []) == buf && [] + all == all;
    while rest != []
      invariant Written(charset, buf, before, done, rest, currentLen, all)
      decreases |rest|
    {
      var runeLen;
      buf, runeLen, currentLen, before, done := WriteRune(charset, buf, rest, currentLen, before, done, all);
      rest := rest[runeLen..];
    }
    Regroup(before, Open(charset) + Q(done), CLOSE);
    Regroup(Open(charset), Q(done), CLOSE);
  }

  /** encodeWord for the Q encoding. */
  method EncodeWordLoop(charset: bytes, s: bytes) returns (r: bytes)
    ensures r == EncodeWord(charset, s)
  {
    if IsUTF8(charset) {
      r := QEncode(charset, s);
      return r + CLOSE;
    }
    r := WriteQString(Open(charset), s);
    Regroup(Open(charset), Q(s), CLOSE);
    return r + CLOSE;
  }

  /** qDecode: the decoded bytes overtake nothing, since no byte decodes to more than one. */
  method QDecodeLoop(s: bytes) returns (r: Option<bytes>)
    ensures r == QDecode(s)
  {
    var dec := new byte[|s|];
    var i, n := 0, 0;
    assert dec[..0] == [] && s[0..] == s;
    PrependNothing(QDecode(s));
    while i < |s|
      invariant n <= i <= |s|
      invariant QDecode(s) == Prepend(dec[..n], QDecode(s[i..]))
    {
      ghost var head, tail := dec[..n], s[i..];
      var c, b, k := s[i], 0, 1;
      if c == UNDERSCORE {
        b := SPACE;
      } else if c == EQUALS {
        if i + 2 >= |s| { return None; }
        var x := ReadHexByte(s[i + 1], s[i + 2]);
        if x.None? { return None; }
        b, k := x.value, 3;
      } else if Literal(c) {
        b := c;
      } else {
        return None;
      }
      DecodeOne(tail, b, k, head);
      assert tail[k..] == s[i + k..];
      dec[n] := b;
      assert dec[..n + 1] == head + [b];
      n, i := n + 1, i + k;
    }
    assert s[i..] == [] && dec[..n] + [] == dec[..n];
    return Some(dec[..n]);
  }

  lemma DecodeOne(s: bytes, b: byte, k: nat, head: bytes)
    requires k <= |s| && s != [] && QDecode(s) == Prepend([b], QDecode(s[k..]))
    ensures Prepend(head, QDecode(s)) == Prepend(head + [b], QDecode(s[k..]))
  {
    var r := QDecode(s[k..]);
    if r.Some? { Regroup(head, [b], r.value); }
  }

  lemma PrependNothing(r: Option<bytes>)
    ensures Prepend([], r) == r
  {
    if r.Some? { assert [] + r.value == r.value; }
  }

  lemma PrependTwice(a: bytes, b: bytes, r: Option<bytes>)
    ensures Prepend(a, Prepend(b, r)) == Prepend(a + b, r)
  {
    if r.Some? { Regroup(a, b, r.value); }
  }

  /** The loop of DecodeHeader. */
  method DecodeHeaderLoop(env: Env, header: bytes) returns (r: Option<bytes>)
    ensures r == DecodeHeader(env, header)
  {
    var i := IndexPair(header, 0, EQUALS, QUESTION);
    if i == -1 { return Some(header); }
    var buf, h, between := header[..i], header[i..], false;
    while true
      invariant DecodeHeader(env, header) == Prepend(buf, DecodeFrom(env, h, between))
      decreases |h|
    {
      var found := FindWord(h);
      if found.None? { break; }
      var w := found.value;
      var content := DecodeText(env, w.encoding, w.text);
      if content.None? {
        PrependTwice(buf, h[..w.start + 2], DecodeFrom(env, h[w.start + 2..], false));
        buf, h, between := buf + h[..w.start + 2], h[w.start + 2..], false;
        continue;
      }
      var out := Convert(env, w.charset, content.value);
      if out.None? { return None; }
      var piece := Kept(h[..w.start], between) + out.value;
      PrependTwice(buf, piece, DecodeFrom(env, h[w.end..], true));
      buf, h, between := buf + piece, h[w.end..], true;
    }
    return Some(buf + h);
  }
}
