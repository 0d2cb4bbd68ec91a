/** What DecodeHeader of mime/encodedword.go makes of headers as others write them. */
module HeaderWords {
  import opened Prelude
  import opened Utf8
  import opened EncodedWord

  // Encode writes one spelling: UTF-8, upper-case digits, single spaces.  Here headers are built
  // from parts, words in each charset with text before, between and after them, and what a
  // header means is read off its parts.

  // ----- Q text -----------------------------------------------------------

  /** A byte as it is, an underscore, or an equals sign and two hexadecimal digits in either case. */
  datatype Item = Raw(c: byte) | Under | Hex(hi: nat, upperHi: bool, lo: nat, upperLo: bool)

  function HexDigit(d: nat, upper: bool): byte
    requires d < 16
  {
    if d < 10 then 0x30 + d else (if upper then 0x41 else 0x61) + (d - 10)
  }

  predicate Legal(o: Item) {
    match o
    case Raw(c) => (0x20 <= c <= 0x7E && c != 0x3D && c != 0x5F) || c == 0x09 || c == 0x0A || c == 0x0D
    case Under => true
    case Hex(hi, _, lo, _) => hi < 16 && lo < 16
  }

  predicate AllLegal(os: seq<Item>) {
    forall i :: 0 <= i < |os| ==> Legal(os[i])
  }

  function ItemSent(o: Item): bytes
    requires Legal(o)
  {
    match o
    case Raw(c) => [c]
    case Under => [0x5F]
    case Hex(hi, u, lo, v) => [0x3D, HexDigit(hi, u), HexDigit(lo, v)]
  }

  function ItemMeant(o: Item): byte
    requires Legal(o)
  {
    match o case Raw(c) => c case Under => 0x20 case Hex(hi, _, lo, _) => 16 * hi + lo
  }

  function Sent(os: seq<Item>): bytes
    requires AllLegal(os)
  {
    if os == [] then [] else ItemSent(os[0]) + Sent(os[1..])
  }

  function Meant(os: seq<Item>): bytes
    requires AllLegal(os)
  {
    if os == [] then [] else [ItemMeant(os[0])] + Meant(os[1..])
  }

  lemma HexReads(hi: nat, u: bool, lo: nat, v: bool)
    requires hi < 16 && lo < 16
    ensures ReadHexByte(HexDigit(hi, u), HexDigit(lo, v)) == Some(16 * hi + lo)
  {
    assert FromHex(HexDigit(hi, u)) == Some(hi);
    assert FromHex(HexDigit(lo, v)) == Some(lo);
  }

  lemma ItemReads(o: Item, rest: bytes)
    requires Legal(o)
    ensures QDecode(ItemSent(o) + rest) == Prepend([ItemMeant(o)], QDecode(rest))
  {
    var s := ItemSent(o) + rest;
    assert s[|ItemSent(o)|..] == rest;
    if o.Hex? { HexReads(o.hi, o.upperHi, o.lo, o.upperLo); }
  }

  /** Q text reads item by item. */
  lemma {:induction false} QReads(os: seq<Item>)
    requires AllLegal(os)
    ensures QDecode(Sent(os)) == Some(Meant(os))
    decreases |os|
  {
    if os != [] {
      ItemReads(os[0], Sent(os[1..]));
      QReads(os[1..]);
    }
  }

  function HexOf(c: byte): (r: (nat, bool))
    ensures FromHex(c).Some? ==> r.0 < 16 && HexDigit(r.0, r.1) == c
  {
    if 0x30 <= c <= 0x39 then (c - 0x30, true) else if 0x41 <= c <= 0x46 then (c - 0x41 + 10, true)
    else if 0x61 <= c <= 0x66 then (c - 0x61 + 10, false) else (0, true)
  }

  /** Nothing else is Q text. */
  lemma {:induction false} QSplits(s: bytes) returns (os: seq<Item>)
    requires QDecode(s).Some?
    ensures AllLegal(os) && Sent(os) == s
    decreases |s|
  {
    if s == [] { return []; }
    var k := if s[0] == EQUALS then 3 else 1;
    var more := QSplits(s[k..]);
    if s[0] == EQUALS {
      var a, b := HexOf(s[1]), HexOf(s[2]);
      os := [Hex(a.0, a.1, b.0, b.1)] + more;
      assert s == [s[0], s[1], s[2]] + s[3..];
    } else {
      os := [if s[0] == UNDERSCORE then Under else Raw(s[0])] + more;
      assert s == [s[0]] + s[1..];
    }
    assert os[1..] == more;
  }

  // ----- charsets -----------------------------------------------------------

  /** The name in letters of either case. */
  predicate Named(charset: bytes, name: string) {
    |charset| == |name| && forall i :: 0 <= i < |name| ==>
      charset[i] == name[i] as int || ('a' <= name[i] <= 'z' && charset[i] == name[i] as int - 32)
  }

  /** A byte of iso-8859-1 is the rune of that number, in one byte of UTF-8 or two. */
  function FromLatin1(content: bytes): bytes {
    if content == [] then []
    else (if content[0] < 0x80 then [content[0]] else [0xC0 + content[0] / 64, 0x80 + content[0] % 64]) + FromLatin1(content[1..])
  }

  /** A byte that is not ASCII becomes U+FFFD. */
  function FromAscii(content: bytes): bytes {
    if content == [] then []
    else (if content[0] < 0x80 then [content[0]] else [0xEF, 0xBF, 0xBD]) + FromAscii(content[1..])
  }

  predicate Known(charset: bytes) {
    Named(charset, "utf-8") || Named(charset, "iso-8859-1") || Named(charset, "us-ascii")
  }

  function InUTF8(charset: bytes, content: bytes): bytes {
    if Named(charset, "utf-8") then content
    else if Named(charset, "iso-8859-1") then FromLatin1(content)
    else FromAscii(content)
  }

  lemma {:induction false} Latin1Is(content: bytes)
    ensures Latin1(content) == FromLatin1(content)
  {
    if content != [] { Latin1Is(content[1..]); }
  }

  lemma {:induction false} AsciiIs(content: bytes)
    ensures UsAscii(content) == FromAscii(content)
  {
    if content != [] {
      AsciiIs(content[1..]);
      assert EncodeRune(RUNE_ERROR) == [0xEF, 0xBF, 0xBD];
    }
  }

  lemma NamedFolds(charset: bytes, name: string)
    requires name == "utf-8" || name == "iso-8859-1" || name == "us-ascii"
    ensures EqualFold(Ascii(name), charset) <==> Named(charset, name)
    ensures Named(charset, name) ==> QUESTION !in charset
  {
  }

  lemma NamesAre()
    ensures Ascii("utf-8") == UTF8 && Ascii("iso-8859-1") == LATIN1 && Ascii("us-ascii") == ASCII
  {
  }

  lemma ConvertIs(env: Env, charset: bytes, content: bytes)
    requires Known(charset)
    ensures Convert(env, charset, content) == Some(InUTF8(charset, content)) && QUESTION !in charset
  {
    NamesAre();
    if Named(charset, "utf-8") {
      NamedFolds(charset, "utf-8");
    } else if Named(charset, "iso-8859-1") {
      NamedFolds(charset, "iso-8859-1");
      Latin1Is(content);
    } else {
      NamedFolds(charset, "us-ascii");
      AsciiIs(content);
    }
  }

  // ----- words in a header ----------------------------------------------------

  /** An encoded-word in a known charset, its encoding written as Q or q. */
  datatype QWord = QWord(charset: bytes, upper: bool, items: seq<Item>)

  predicate Well(w: QWord) {
    Known(w.charset) && AllLegal(w.items) && Raw(0x3F) !in w.items
  }

  function Opening(w: QWord): bytes {
    [0x3D, 0x3F] + (w.charset + [0x3F, if w.upper then 0x51 else 0x71, 0x3F])
  }

  function WordSent(w: QWord): bytes
    requires AllLegal(w.items)
  {
    Opening(w) + (Sent(w.items) + [0x3F, 0x3D])
  }

  function WordMeant(w: QWord): bytes
    requires AllLegal(w.items)
  {
    InUTF8(w.charset, Meant(w.items))
  }

  /** No word begins in the text. */
  predicate NoOpening(t: bytes) {
    forall i :: 0 <= i < |t| - 1 ==> !(t[i] == 0x3D && t[i + 1] == 0x3F)
  }

  predicate White(t: bytes) {
    forall i :: 0 <= i < |t| ==> t[i] == 0x20 || t[i] == 0x09 || t[i] == 0x0A || t[i] == 0x0D
  }

  lemma {:induction false} PairAt(s: bytes, k: nat, a: byte, b: byte, i: nat)
    requires k <= i <= |s| - 2 && s[i] == a && s[i + 1] == b && forall x :: k <= x < i ==> !(s[x] == a && s[x + 1] == b)
    ensures IndexPair(s, k, a, b) == i
    decreases i - k
  {
    if k < i { PairAt(s, k + 1, a, b, i); }
  }

  lemma {:induction false} NoPair(s: bytes, k: nat, a: byte, b: byte)
    requires k <= |s| && forall x :: k <= x < |s| - 1 ==> !(s[x] == a && s[x + 1] == b)
    ensures IndexPair(s, k, a, b) == -1
    decreases |s| - k
  {
    if k < |s| { NoPair(s, k + 1, a, b); }
  }

  lemma {:induction false} SentHasNoQuestion(os: seq<Item>)
    requires AllLegal(os) && Raw(0x3F) !in os
    ensures QUESTION !in Sent(os)
  {
    if os != [] {
      SentHasNoQuestion(os[1..]);
      assert os[0] in os && QUESTION !in ItemSent(os[0]);
    }
  }

  /** Where the parts of a word stand. */
  lemma Places(h: bytes, lead: bytes, cs: bytes, e: byte, q: bytes, rest: bytes, i: nat, j: nat)
    requires h == lead + ([EQUALS, QUESTION] + (cs + [QUESTION, e, QUESTION]) + (q + [QUESTION, EQUALS])) + rest
    requires i == |lead| + 2 + |cs| && j == i + 3 + |q|
    ensures |h| == j + 2 + |rest| && forall x :: 0 <= x < |lead| ==> h[x] == lead[x]
    ensures h[|lead|] == EQUALS && h[|lead| + 1] == QUESTION && h[|lead| + 2..i] == cs
    ensures h[i] == QUESTION && h[i + 1] == e && h[i + 2] == QUESTION && h[i + 3..j] == q
    ensures h[j] == QUESTION && h[j + 1] == EQUALS && h[j + 2..] == rest && h[..|lead|] == lead
    ensures forall x :: |lead| + 2 <= x < i ==> h[x] == cs[x - |lead| - 2]
    ensures forall x :: i + 3 <= x < j ==> h[x] == q[x - i - 3]
  {
  }

  lemma WordFound(h: bytes, lead: bytes, cs: bytes, e: byte, q: bytes, rest: bytes)
    requires h == lead + ([EQUALS, QUESTION] + (cs + [QUESTION, e, QUESTION]) + (q + [QUESTION, EQUALS])) + rest
    requires NoOpening(lead) && QUESTION !in cs && QUESTION !in q
    ensures |rest| <= |h| && h[..|lead|] == lead && h[|h| - |rest|..] == rest
    ensures FindWord(h) == Some(Found(|lead|, cs, e, q, |h| - |rest|))
  {
    var i := |lead| + 2 + |cs|;
    var j := i + 3 + |q|;
    Places(h, lead, cs, e, q, rest, i, j);
    PairAt(h, 0, EQUALS, QUESTION, |lead|);
    IndexOfIs(h, |lead| + 2, QUESTION, i);
    PairAt(h, i + 3, QUESTION, EQUALS, j);
    FindSteps(h, |lead|, i, j);
  }

  /** DecodeFrom with the first word found. */
  lemma FoundTaken(env: Env, h: bytes, f: Found, content: bytes, out: bytes, between: bool)
    requires FindWord(h) == Some(f) && (f.encoding == 0x51 || f.encoding == 0x71) && QDecode(f.text) == Some(content)
    requires Convert(env, f.charset, content) == Some(out)
    ensures DecodeFrom(env, h, between) ==
              Prepend((if between && White(h[..f.start]) then [] else h[..f.start]) + out, DecodeFrom(env, h[f.end..], true))
  {
    assert HasNonWhite(h[..f.start]) <==> !White(h[..f.start]);
  }

  /** One word with the text before it. */
  lemma WordTaken(env: Env, lead: bytes, w: QWord, rest: bytes, between: bool)
    requires NoOpening(lead) && Well(w)
    ensures DecodeFrom(env, lead + WordSent(w) + rest, between) ==
              Prepend((if between && White(lead) then [] else lead) + WordMeant(w), DecodeFrom(env, rest, true))
  {
    var h, e := lead + WordSent(w) + rest, if w.upper then 0x51 else 0x71;
    SentHasNoQuestion(w.items);
    QReads(w.items);
    ConvertIs(env, w.charset, Meant(w.items));
    WordFound(h, lead, w.charset, e, Sent(w.items), rest);
    FoundTaken(env, h, Found(|lead|, w.charset, e, Sent(w.items), |h| - |rest|), Meant(w.items), WordMeant(w), between);
  }

  // ----- the whole header -------------------------------------------------------

  /** Text and the word after it. */
  datatype Part = Part(text: bytes, word: QWord)

  predicate AllWell(ps: seq<Part>) {
    forall i :: 0 <= i < |ps| ==> NoOpening(ps[i].text) && Well(ps[i].word)
  }

  function Header(ps: seq<Part>, last: bytes): bytes
    requires AllWell(ps)
  {
    if ps == [] then last else ps[0].text + WordSent(ps[0].word) + Header(ps[1..], last)
  }

  /** The texts and what the words mean, without white space that only separates two words. */
  function Reading(ps: seq<Part>, last: bytes, between: bool): bytes
    requires AllWell(ps)
  {
    if ps == [] then last
    else (if between && White(ps[0].text) then [] else ps[0].text) + WordMeant(ps[0].word) + Reading(ps[1..], last, true)
  }

  lemma {:induction false} PartsRead(env: Env, ps: seq<Part>, last: bytes, between: bool)
    requires AllWell(ps) && NoOpening(last)
    ensures DecodeFrom(env, Header(ps, last), between) == Some(Reading(ps, last, between))
    decreases |ps|
  {
    if ps == [] {
      NoPair(last, 0, EQUALS, QUESTION);
    } else {
      WordTaken(env, ps[0].text, ps[0].word, Header(ps[1..], last), between);
      PartsRead(env, ps[1..], last, true);
    }
  }

  /** In front of the first word nothing is dropped. */
  lemma FirstText(env: Env, h: bytes, t: bytes, word: bytes, rest: bytes)
    requires h == t + word + rest && NoOpening(t) && |word| >= 2 && word[0] == EQUALS && word[1] == QUESTION
    ensures DecodeHeader(env, h) == Prepend(t, DecodeFrom(env, word + rest, false))
  {
    assert h[|t|] == EQUALS && h[|t| + 1] == QUESTION && h[|t|..] == word + rest && h[..|t|] == t;
    assert forall x :: 0 <= x < |t| ==> h[x] == t[x];
    PairAt(h, 0, EQUALS, QUESTION, |t|);
  }

  lemma WordOpens(w: QWord)
    requires AllLegal(w.items)
    ensures |WordSent(w)| >= 2 && WordSent(w)[0] == EQUALS && WordSent(w)[1] == QUESTION
  {
  }

  /** A word with no text before it. */
  lemma WordFirst(env: Env, word: bytes, w: QWord, rest: bytes)
    requires Well(w) && word == WordSent(w)
    ensures DecodeFrom(env, word + rest, false) == Prepend(WordMeant(w), DecodeFrom(env, rest, true))
  {
    var none: bytes := [];
    WordTaken(env, none, w, rest, false);
    assert none + word == word && none + WordMeant(w) == WordMeant(w);
  }

  lemma FirstTaken(env: Env, t: bytes, w: QWord, rest: bytes)
    requires NoOpening(t) && Well(w)
    ensures DecodeHeader(env, t + WordSent(w) + rest) == Prepend(t + WordMeant(w), DecodeFrom(env, rest, true))
  {
    var word := WordSent(w);
    WordOpens(w);
    FirstText(env, t + word + rest, t, word, rest);
    WordFirst(env, word, w, rest);
    PrependTwice(t, WordMeant(w), DecodeFrom(env, rest, true));
  }

  /**
   DecodeHeader of any list of words in the three known charsets, with any text before, between
   and after them in which no word begins: the words are read and all the text is kept, but for
   white space between two words.
   */
  lemma HeaderReads(env: Env, ps: seq<Part>, last: bytes)
    requires AllWell(ps) && NoOpening(last)
    ensures DecodeHeader(env, Header(ps, last)) == Some(Reading(ps, last, false))
  {
    if ps == [] {
      NoPair(last, 0, EQUALS, QUESTION);
    } else {
      FirstTaken(env, ps[0].text, ps[0].word, Header(ps[1..], last));
      PartsRead(env, ps[1..], last, true);
    }
  }

  /** Two words and the text between them: it is kept when it holds a byte other than space, tab, CR or LF. */
  lemma TextBetween(env: Env, v: QWord, t: bytes, w: QWord)
    requires Well(v) && Well(w) && NoOpening(t)
    ensures DecodeHeader(env, WordSent(v) + (t + WordSent(w))) ==
              Some(WordMeant(v) + ((if White(t) then [] else t) + WordMeant(w)))
  {
    var kept := if White(t) then [] else t;
    FirstTaken(env, [], v, t + WordSent(w));
    WordTaken(env, t, w, [], true);
    NoPair([], 0, EQUALS, QUESTION);
    assert [] + WordSent(v) == WordSent(v) && [] + WordMeant(v) == WordMeant(v);
    assert t + WordSent(w) + [] == t + WordSent(w) && kept + WordMeant(w) + [] == kept + WordMeant(w);
  }

  /** One word keeps the text on both sides. */
  lemma TextAround(env: Env, t: bytes, w: QWord, u: bytes)
    requires Well(w) && NoOpening(t) && NoOpening(u)
    ensures DecodeHeader(env, t + WordSent(w) + u) == Some(t + WordMeant(w) + u)
  {
    FirstTaken(env, t, w, u);
    NoPair(u, 0, EQUALS, QUESTION);
  }

  /** In any other charset the reader decides: its error is the error of the header. */
  lemma OtherCharset(env: Env, t: bytes, w: QWord, rest: bytes)
    requires NoOpening(t) && !Known(w.charset) && QUESTION !in w.charset && AllLegal(w.items) && Raw(0x3F) !in w.items
    ensures DecodeHeader(env, t + WordSent(w) + rest) ==
              match env.reader(w.charset, Meant(w.items))
              case None => None
              case Some(out) => Prepend(t + out, DecodeFrom(env, rest, true))
  {
    var word := WordSent(w);
    WordOpens(w);
    FirstText(env, t + word + rest, t, word, rest);
    FirstByReader(env, word, w, rest);
    var out := env.reader(w.charset, Meant(w.items));
    if out.Some? { PrependTwice(t, out.value, DecodeFrom(env, rest, true)); }
  }

  lemma FirstByReader(env: Env, word: bytes, w: QWord, rest: bytes)
    requires !Known(w.charset) && QUESTION !in w.charset && AllLegal(w.items) && Raw(0x3F) !in w.items && word == WordSent(w)
    ensures DecodeFrom(env, word + rest, false) ==
              match env.reader(w.charset, Meant(w.items))
              case None => None
              case Some(out) => Prepend(out, DecodeFrom(env, rest, true))
  {
    var none: bytes := [];
    var h, e := word + rest, if w.upper then 0x51 else 0x71;
    SentHasNoQuestion(w.items);
    QReads(w.items);
    ReaderConverts(env, w.charset, Meant(w.items));
    assert none + word + rest == h;
    WordFound(h, none, w.charset, e, Sent(w.items), rest);
    FoundByReader(env, h, Found(0, w.charset, e, Sent(w.items), |h| - |rest|), Meant(w.items), rest);
  }

  lemma ReaderConverts(env: Env, charset: bytes, content: bytes)
    requires !Known(charset)
    ensures Convert(env, charset, content) == env.reader(charset, content)
  {
    NamesAre();
    NamedFolds(charset, "utf-8");
    NamedFolds(charset, "iso-8859-1");
    NamedFolds(charset, "us-ascii");
  }

  lemma FoundByReader(env: Env, h: bytes, f: Found, content: bytes, rest: bytes)
    requires FindWord(h) == Some(f) && f.start == 0 && (f.encoding == 0x51 || f.encoding == 0x71) && QDecode(f.text) == Some(content)
    requires h[f.end..] == rest && Convert(env, f.charset, content) == env.reader(f.charset, content)
    ensures DecodeFrom(env, h, false) ==
              match env.reader(f.charset, content)
              case None => None
              case Some(out) => Prepend(out, DecodeFrom(env, rest, true))
  {
    var r := env.reader(f.charset, content);
    if r.Some? {
      FoundTaken(env, h, f, content, r.value, false);
      assert h[..0] + r.value == r.value;
    }
  }

  predicate Unprintable(r: int) {
    (r < 0x20 || r > 0x7E) && r != 0x09
  }

  /** Encode passes on exactly the texts of printable ASCII and tabs. */
  lemma {:induction false} NeedsEncodingIs(s: bytes)
    ensures NeedsEncoding(s) <==> exists b :: b in s && Unprintable(b)
    decreases |s|
  {
    assert NeedsEncoding(s) <==> exists r :: r in DecodeAll(s) && Unprintable(r);
    if s != [] {
      var (r, k) := DecodeRune(s);
      var all, rest := DecodeAll(s), s[1..];
      assert s == [s[0]] + rest;
      if s[0] < 0x80 {
        assert r == s[0] && k == 1;
        NeedsEncodingIs(rest);
        assert NeedsEncoding(rest) <==> exists x :: x in DecodeAll(rest) && Unprintable(x);
        assert all == [r] + DecodeAll(rest);
      } else {
        assert all[0] == r && r in all && Unprintable(r) && Unprintable(s[0]);
      }
    }
  }
}
