/** What ParseMediaType of mime/mediatype.go makes of texts as others write them. */
module MediaSyntax {
  import opened Prelude
  import opened MediaType
  import EncodedWord
  import HeaderWords

  // FormatMediaType writes one spelling of a media type.  Here texts are built from the grammar:
  // quoted strings byte by byte, parameters with white space in every place it may stand.  What
  // such a text means is read off its parts.

  const CR: byte := 0x0D
  const LF: byte := 0x0A

  /** The tspecials of section 5.1 of RFC 2045. */
  predicate Special(c: byte) {
    (c as char) in "()<>@,;:\\\"/[]?="
  }

  lemma SpecialIs(c: byte)
    ensures Special(c) <==> TSpecial(c)
  {
  }

  // ----- quoted strings -------------------------------------------------

  /** A backslash and a special character, or a byte that stands for itself. */
  datatype Piece = Escape(c: byte) | Itself(c: byte)

  function Sent(ps: seq<Piece>): bytes {
    if ps == [] then [] else (if ps[0].Escape? then [BACKSLASH, ps[0].c] else [ps[0].c]) + Sent(ps[1..])
  }

  function Meant(ps: seq<Piece>): bytes {
    if ps == [] then [] else [ps[0].c] + Meant(ps[1..])
  }

  /**
   The pieces can stand before `end`: no quote and no line break stands for itself, and a
   backslash does only before a byte that is not special, or at the very end.
   */
  predicate Fit(ps: seq<Piece>, end: bytes) {
    ps == []
    || (Fit(ps[1..], end)
        && match ps[0]
           case Escape(c) => Special(c)
           case Itself(c) =>
             && c != QUOTE && c != CR && c != LF
             && (c == BACKSLASH ==> var next := Sent(ps[1..]) + end; next == [] || !Special(next[0])))
  }

  lemma PieceApart(p: Piece, rest: seq<Piece>, end: bytes)
    ensures Sent([p] + rest) + end == (if p.Escape? then [BACKSLASH, p.c] else [p.c]) + (Sent(rest) + end)
  {
    assert ([p] + rest)[1..] == rest;
  }

  lemma At(v: bytes, i: nat, head: bytes, more: bytes)
    requires i <= |v| && v[i..] == head + more
    ensures i + |head| <= |v| && v[i + |head|..] == more
    ensures forall x :: 0 <= x < |head| ==> v[i + x] == head[x]
    ensures more != [] ==> i + |head| < |v| && v[i + |head|] == more[0]
    ensures more == [] ==> i + |head| == |v|
  {
    assert |v[i..]| == |head| + |more|;
    assert v[i + |head|..] == v[i..][|head|..];
    assert forall x :: 0 <= x < |head| ==> v[i + x] == v[i..][x];
    if more != [] { assert v[i + |head|] == v[i..][|head|]; }
  }

  /** Unquote takes one piece. */
  lemma UnquotePiece(v: bytes, i: nat, p: Piece, more: bytes, acc: bytes)
    requires i <= |v| && v[i..] == (if p.Escape? then [BACKSLASH, p.c] else [p.c]) + more
    requires if p.Escape? then Special(p.c) else p.c != QUOTE && p.c != CR && p.c != LF
    requires p == Itself(BACKSLASH) ==> more == [] || !Special(more[0])
    ensures var k := i + if p.Escape? then 2 else 1;
            k <= |v| && v[k..] == more && Unquote(v, i, acc) == Unquote(v, k, acc + [p.c])
  {
    At(v, i, if p.Escape? then [BACKSLASH, p.c] else [p.c], more);
    SpecialIs(p.c);
    if more != [] { SpecialIs(more[0]); }
    assert v[i] == if p.Escape? then BACKSLASH else p.c;
    if p.Escape? { assert v[i + 1] == p.c; }
  }

  lemma UnquoteFirst(v: bytes, i: nat, ps: seq<Piece>, end: bytes, acc: bytes)
    requires ps != [] && i <= |v| && v[i..] == Sent(ps) + end && Fit(ps, end)
    ensures var k := i + if ps[0].Escape? then 2 else 1;
            k <= |v| && v[k..] == Sent(ps[1..]) + end && Unquote(v, i, acc) == Unquote(v, k, acc + [ps[0].c])
  {
    assert ps == [ps[0]] + ps[1..];
    PieceApart(ps[0], ps[1..], end);
    UnquotePiece(v, i, ps[0], Sent(ps[1..]) + end, acc);
  }

  lemma {:induction false} UnquotePieces(v: bytes, i: nat, ps: seq<Piece>, end: bytes, acc: bytes)
    requires i <= |v| && v[i..] == Sent(ps) + end && Fit(ps, end)
    ensures i + |Sent(ps)| <= |v| && v[i + |Sent(ps)|..] == end
    ensures Unquote(v, i, acc) == Unquote(v, i + |Sent(ps)|, acc + Meant(ps))
    decreases |ps|
  {
    if ps == [] {
      assert Sent(ps) + end == end && acc + [] == acc;
    } else {
      UnquoteFirst(v, i, ps, end, acc);
      UnquotePieces(v, i + if ps[0].Escape? then 2 else 1, ps[1..], end, acc + [ps[0].c]);
      Regroup(acc, [ps[0].c], Meant(ps[1..]));
    }
  }

  /** A quoted string reads as the bytes its pieces stand for, and what follows the end quote is left. */
  lemma QuotedReads(ps: seq<Piece>, tail: bytes)
    requires Fit(ps, [QUOTE] + tail)
    ensures ConsumeValue([QUOTE] + (Sent(ps) + ([QUOTE] + tail))) == (Meant(ps), tail)
  {
    var v := [QUOTE] + (Sent(ps) + ([QUOTE] + tail));
    assert v[1..] == Sent(ps) + ([QUOTE] + tail);
    UnquotePieces(v, 1, ps, [QUOTE] + tail, []);
    At(v, 1 + |Sent(ps)|, [QUOTE], tail);
    assert [] + Meant(ps) == Meant(ps);
  }

  /** A line break in a quoted string, or no end quote, is failure. */
  lemma QuotedFails(ps: seq<Piece>, end: bytes)
    requires Fit(ps, end) && (end == [] || end[0] == CR || end[0] == LF)
    ensures var v := [QUOTE] + (Sent(ps) + end); ConsumeValue(v) == ([], v)
  {
    var v := [QUOTE] + (Sent(ps) + end);
    assert v[1..] == Sent(ps) + end;
    UnquotePieces(v, 1, ps, end, []);
    if end != [] { assert v[1 + |Sent(ps)|] == v[1 + |Sent(ps)|..][0]; }
  }

  /** Every text after a quote is pieces up to an end quote, a line break or the end of the text: nothing else is left to read. */
  lemma {:induction false} QuotedSplits(s: bytes) returns (ps: seq<Piece>, end: bytes)
    ensures s == Sent(ps) + end && Fit(ps, end)
    ensures end == [] || end[0] == QUOTE || end[0] == CR || end[0] == LF
    decreases |s|
  {
    if s == [] || s[0] == QUOTE || s[0] == CR || s[0] == LF {
      return [], s;
    }
    var p := if s[0] == BACKSLASH && |s| > 1 && Special(s[1]) then Escape(s[1]) else Itself(s[0]);
    var k := if p.Escape? then 2 else 1;
    var more;
    more, end := QuotedSplits(s[k..]);
    ps := [p] + more;
    PieceApart(p, more, end);
    assert ps[1..] == more && s == (if p.Escape? then [BACKSLASH, p.c] else [p.c]) + s[k..];
  }

  /** No special character follows s[i] in `s` and then `end`. */
  predicate BeforeOrdinary(s: bytes, i: nat, end: bytes)
    requires i < |s|
  {
    if i + 1 < |s| then !Special(s[i + 1]) else end == [] || !Special(end[0])
  }

  /** A path as some browsers send it: backslashes before ordinary characters stand for themselves. */
  lemma {:induction false} PathIsPlain(s: bytes, end: bytes) returns (ps: seq<Piece>)
    requires QUOTE !in s && CR !in s && LF !in s
    requires forall i :: 0 <= i < |s| && s[i] == BACKSLASH ==> BeforeOrdinary(s, i, end)
    ensures Sent(ps) == Meant(ps) == s && Fit(ps, end)
    decreases |s|
  {
    if s == [] { return []; }
    var rest := s[1..];
    forall i | 0 <= i < |rest| && rest[i] == BACKSLASH ensures BeforeOrdinary(rest, i, end) {
      assert s[i + 1] == BACKSLASH && BeforeOrdinary(s, i + 1, end);
    }
    var more := PathIsPlain(rest, end);
    ps := [Itself(s[0])] + more;
    assert ps[1..] == more && [s[0]] + rest == s;
    if s[0] == BACKSLASH {
      assert BeforeOrdinary(s, 0, end);
      if |s| > 1 { assert (rest + end)[0] == s[1]; } else { assert rest + end == end; }
    }
  }

  lemma PathReads(s: bytes, tail: bytes)
    requires QUOTE !in s && CR !in s && LF !in s
    requires forall i :: 0 <= i < |s| && s[i] == BACKSLASH ==> i + 1 < |s| && !Special(s[i + 1])
    ensures ConsumeValue([QUOTE] + (s + ([QUOTE] + tail))) == (s, tail)
  {
    forall i | 0 <= i < |s| && s[i] == BACKSLASH ensures BeforeOrdinary(s, i, [QUOTE] + tail) {
    }
    var ps := PathIsPlain(s, [QUOTE] + tail);
    QuotedReads(ps, tail);
  }

  // ----- parameters -------------------------------------------------------

  /** White space of ASCII: tab, line feed, vertical tab, form feed, carriage return and space. */
  predicate Blank(s: bytes) {
    forall i :: 0 <= i < |s| ==> s[i] == 0x09 || s[i] == 0x0A || s[i] == 0x0B || s[i] == 0x0C || s[i] == 0x0D || s[i] == 0x20
  }

  lemma {:induction false} TrimBlank(w: bytes, rest: bytes)
    requires Blank(w) && (rest == [] || !IsSpace(rest[0]))
    ensures TrimLeft(w + rest) == rest
  {
    if w == [] {
      assert w + rest == rest;
    } else {
      assert (w + rest)[1..] == w[1..] + rest;
      TrimBlank(w[1..], rest);
    }
  }

  datatype Value = Bare(token: bytes) | Quoted(pieces: seq<Piece>)

  /** A parameter as it may be written: white space before and after the semicolon and the equals sign. */
  datatype Param = Param(w0: bytes, w1: bytes, name: bytes, w2: bytes, w3: bytes, value: Value)

  function ValueSent(v: Value): bytes {
    match v
    case Bare(token) => token
    case Quoted(ps) => [QUOTE] + (Sent(ps) + [QUOTE])
  }

  function ValueMeant(v: Value): bytes {
    match v
    case Bare(token) => token
    case Quoted(ps) => Meant(ps)
  }

  /** From the semicolon on. */
  function Body(p: Param): bytes {
    [SEMI] + (p.w1 + (p.name + (p.w2 + ([EQUALS] + (p.w3 + ValueSent(p.value))))))
  }

  predicate Token(s: bytes) {
    s != [] && forall i :: 0 <= i < |s| ==> 0x20 < s[i] < 0x7F && !Special(s[i])
  }

  predicate Well(p: Param) {
    && Blank(p.w0) && Blank(p.w1) && Blank(p.w2) && Blank(p.w3) && Token(p.name)
    && match p.value
       case Bare(token) => Token(token)
       case Quoted(ps) => Fit(ps, [QUOTE])
  }

  /** What may follow a parameter: white space, a semicolon, or nothing. */
  predicate Follows(next: bytes) {
    next == [] || next[0] == SEMI || Blank([next[0]])
  }

  lemma TokenIs(s: bytes)
    ensures Token(s) <==> IsToken(s)
    ensures Token(s) ==> !IsSpace(s[0])
  {
    forall i | 0 <= i < |s| ensures Special(s[i]) <==> TSpecial(s[i]) {
      SpecialIs(s[i]);
    }
  }

  lemma FollowsEnds(next: bytes)
    requires Follows(next)
    ensures Ends(next)
  {
    if next != [] && next[0] != SEMI { assert Blank([next[0]]) && [next[0]][0] == next[0]; }
  }

  /** The end of a quoted string is the first thing that follows it. */
  lemma {:induction false} FitThen(ps: seq<Piece>, tail: bytes)
    requires Fit(ps, [QUOTE])
    ensures Fit(ps, [QUOTE] + tail)
  {
    if ps != [] {
      FitThen(ps[1..], tail);
      assert Sent(ps[1..]) + ([QUOTE] + tail) == (Sent(ps[1..]) + [QUOTE]) + tail;
    }
  }

  lemma ValueReads(v: Value, next: bytes)
    requires (match v case Bare(token) => Token(token) case Quoted(ps) => Fit(ps, [QUOTE])) && Follows(next)
    ensures ConsumeValue(ValueSent(v) + next) == (ValueMeant(v), next)
    ensures ValueSent(v) != [] && !IsSpace(ValueSent(v)[0])
  {
    match v
    case Bare(token) =>
      TokenIs(token);
      FollowsEnds(next);
      TokenBack(token, next);
      assert (token + next)[0] == token[0] != QUOTE;
    case Quoted(ps) =>
      FitThen(ps, next);
      QuotedReads(ps, next);
      assert ValueSent(v) + next == [QUOTE] + (Sent(ps) + ([QUOTE] + next));
  }

  /** From the name on. */
  function AfterSemi(p: Param, next: bytes): bytes {
    p.name + (p.w2 + ([EQUALS] + (p.w3 + (ValueSent(p.value) + next))))
  }

  lemma BodyThen(p: Param, next: bytes)
    ensures Body(p) + next == [SEMI] + (p.w1 + AfterSemi(p, next))
  {
    var v := ValueSent(p.value);
    Regroup(p.w3, v, next);
    Regroup([EQUALS], p.w3 + v, next);
    Regroup(p.w2, [EQUALS] + (p.w3 + v), next);
    Regroup(p.name, p.w2 + ([EQUALS] + (p.w3 + v)), next);
    Regroup(p.w1, p.name + (p.w2 + ([EQUALS] + (p.w3 + v))), next);
    Regroup([SEMI], p.w1 + (p.name + (p.w2 + ([EQUALS] + (p.w3 + v)))), next);
  }

  /** The steps of consumeMediaParam on a text of that shape. */
  lemma ParamShape(v: bytes, p: Param, next: bytes)
    requires v == [SEMI] + (p.w1 + AfterSemi(p, next)) && Token(p.name) && Blank(p.w1) && Blank(p.w2) && Blank(p.w3)
    requires ValueSent(p.value) != [] && !IsSpace(ValueSent(p.value)[0])
    ensures var (value, rest) := ConsumeValue(ValueSent(p.value) + next);
            ConsumeParam(v) ==
              if value == [] && rest == ValueSent(p.value) + next then ([], [], v) else (Lower(p.name), value, rest)
  {
    TokenIs(p.name);
    var d := ValueSent(p.value) + next;
    var b := p.w2 + ([EQUALS] + (p.w3 + d));
    NoTrim(v);
    assert v[1..] == p.w1 + (p.name + b);
    assert (p.name + b)[0] == p.name[0];
    TrimBlank(p.w1, p.name + b);
    assert Ends(b) by { if p.w2 != [] { assert b[0] == p.w2[0]; } else { assert b[0] == EQUALS; } }
    TokenBack(p.name, b);
    TrimBlank(p.w2, [EQUALS] + (p.w3 + d));
    assert ([EQUALS] + (p.w3 + d))[1..] == p.w3 + d && d[0] == ValueSent(p.value)[0];
    TrimBlank(p.w3, d);
  }

  /** A well-formed parameter reads as its name in lower case and what its value stands for. */
  lemma ParamReads(p: Param, next: bytes)
    requires Well(p) && Follows(next)
    ensures ConsumeParam(Body(p) + next) == (Lower(p.name), ValueMeant(p.value), next)
    ensures (Body(p) + next)[0] == SEMI
  {
    BodyThen(p, next);
    ValueReads(p.value, next);
    ParamShape(Body(p) + next, p, next);
    assert |ValueSent(p.value) + next| > |next|;
  }

  function Written(ps: seq<Param>, end: bytes): bytes {
    if ps == [] then end else ps[0].w0 + (Body(ps[0]) + Written(ps[1..], end))
  }

  lemma WrittenFollows(ps: seq<Param>, end: bytes)
    requires AllWell(ps) && Follows(end)
    ensures Follows(Written(ps, end))
  {
    if ps != [] {
      var s, more := Written(ps, end), Body(ps[0]) + Written(ps[1..], end);
      assert more[0] == SEMI;
      if ps[0].w0 != [] {
        assert s[0] == ps[0].w0[0] && Well(ps[0]);
        assert [s[0]][0] == ps[0].w0[0];
      } else {
        assert s[0] == more[0];
      }
    }
  }

  predicate AllWell(ps: seq<Param>) {
    forall i :: 0 <= i < |ps| ==> Well(ps[i])
  }

  /** The parameter of that name is there already. */
  predicate Taken(params: map<bytes, bytes>, cont: Table, key: bytes) {
    if STAR !in key then key in params
    else var base := key[..IndexByte(key, STAR)]; base in cont && key in cont[base]
  }

  /** The loop takes one parameter. */
  lemma TakeParam(t: bytes, p: Param, next: bytes, params: map<bytes, bytes>, cont: Table)
    requires Well(p) && Follows(next)
    ensures var key, value := Lower(p.name), ValueMeant(p.value);
            ParseParams(t, p.w0 + (Body(p) + next), params, cont) ==
              if Taken(params, cont, key) then Duplicate
              else if STAR !in key then ParseParams(t, next, params[key := value], cont)
              else
                var base := key[..IndexByte(key, STAR)];
                var pieces := if base in cont then cont[base] else map[];
                ParseParams(t, next, params, cont[base := pieces[key := value]])
  {
    ParamReads(p, next);
    TrimBlank(p.w0, Body(p) + next);
    assert Lower(p.name) != [];
    ParseStep(t, p.w0 + (Body(p) + next), Body(p) + next, params, cont);
  }

  lemma ParseStep(t: bytes, text: bytes, v: bytes, params: map<bytes, bytes>, cont: Table)
    requires TrimLeft(text) == v && v != [] && ConsumeParam(v).0 != []
    ensures |ConsumeParam(v).2| < |text|
    ensures var (key, value, rest) := ConsumeParam(v);
            ParseParams(t, text, params, cont) ==
              if Taken(params, cont, key) then Duplicate
              else if STAR !in key then ParseParams(t, rest, params[key := value], cont)
              else
                var base := key[..IndexByte(key, STAR)];
                var pieces := if base in cont then cont[base] else map[];
                ParseParams(t, rest, params, cont[base := pieces[key := value]])
  {
    ConsumeShorter(v);
  }

  lemma BlankFollows(end: bytes)
    requires Blank(end)
    ensures Follows(end)
  {
    if end != [] { assert [end[0]][0] == end[0]; }
  }

  lemma Rest(ps: seq<Param>, end: bytes)
    requires ps != [] && AllWell(ps) && Follows(end)
    ensures AllWell(ps[1..]) && Follows(Written(ps[1..], end))
  {
    WrittenFollows(ps[1..], end);
  }

  /** The names in lower case. */
  function Keys(ps: seq<Param>): (ks: seq<bytes>)
    ensures |ks| == |ps|
  {
    if ps == [] then [] else [Lower(ps[0].name)] + Keys(ps[1..])
  }

  function Values(ps: seq<Param>): (vs: seq<bytes>)
    ensures |vs| == |ps|
  {
    if ps == [] then [] else [ValueMeant(ps[0].value)] + Values(ps[1..])
  }

  /** The map from the keys to the values, one for one. */
  ghost predicate Pairs(m: map<bytes, bytes>, keys: seq<bytes>, values: seq<bytes>) {
    && |keys| == |values|
    && (forall i :: 0 <= i < |keys| ==> keys[i] in m && m[keys[i]] == values[i])
    && (forall k :: k in m ==> k in keys)
  }

  /** No stars, and no name that is there already. */
  predicate New(keys: seq<bytes>, params: map<bytes, bytes>) {
    forall i :: 0 <= i < |keys| ==> STAR !in keys[i] && keys[i] !in params
  }

  predicate Differ(keys: seq<bytes>) {
    forall i, j :: 0 <= i < j < |keys| ==> keys[i] != keys[j]
  }

  lemma RestIsNew(key: bytes, keys: seq<bytes>, params: map<bytes, bytes>, value: bytes)
    requires New([key] + keys, params) && Differ([key] + keys)
    ensures New(keys, params[key := value]) && Differ(keys) && key !in keys && STAR !in key && key !in params
  {
    var all := [key] + keys;
    assert all[0] == key && forall i :: 0 <= i < |keys| ==> all[i + 1] == keys[i];
  }

  lemma PairsMore(m: map<bytes, bytes>, key: bytes, value: bytes, keys: seq<bytes>, values: seq<bytes>)
    requires Pairs(m, keys, values) && key !in keys
    ensures Pairs(m[key := value], [key] + keys, [value] + values) && key !in m
  {
  }

  /** The loop takes a new parameter. */
  lemma TakeNew(t: bytes, ps: seq<Param>, end: bytes, params: map<bytes, bytes>, cont: Table)
    requires ps != [] && AllWell(ps) && Follows(end) && New(Keys(ps), params)
    ensures ParseParams(t, Written(ps, end), params, cont) ==
              ParseParams(t, Written(ps[1..], end), params[Lower(ps[0].name) := ValueMeant(ps[0].value)], cont)
  {
    Rest(ps, end);
    assert Keys(ps)[0] == Lower(ps[0].name);
    TakeParam(t, ps[0], Written(ps[1..], end), params, cont);
  }

  /**
   Parameters without stars whose names differ, in letters of either case, are read as they stand,
   whatever white space is around them.
   */
  lemma {:induction false} ParamsRead(t: bytes, ps: seq<Param>, end: bytes, params: map<bytes, bytes>, cont: Table) returns (m: map<bytes, bytes>)
    requires AllWell(ps) && Blank(end) && New(Keys(ps), params) && Differ(Keys(ps))
    ensures Pairs(m, Keys(ps), Values(ps)) && ParseParams(t, Written(ps, end), params, cont) == Ok(t, Stitched(params + m, cont))
    decreases |ps|
  {
    if ps == [] {
      TrimBlank(end, []);
      assert end + [] == end && params + map[] == params;
      m := map[];
    } else {
      var key, value := Lower(ps[0].name), ValueMeant(ps[0].value);
      BlankFollows(end);
      TakeNew(t, ps, end, params, cont);
      RestIsNew(key, Keys(ps[1..]), params, value);
      var more := ParamsRead(t, ps[1..], end, params[key := value], cont);
      m := more[key := value];
      PairsMore(more, key, value, Keys(ps[1..]), Values(ps[1..]));
      AddFirst(params, key, value, more);
    }
  }

  lemma AddFirst(params: map<bytes, bytes>, key: bytes, value: bytes, more: map<bytes, bytes>)
    requires key !in more
    ensures params[key := value] + more == params + more[key := value]
  {
  }

  /** The j-th name was there before, or comes before. */
  predicate Repeats(keys: seq<bytes>, j: nat, params: map<bytes, bytes>, cont: Table)
    requires j < |keys|
  {
    Taken(params, cont, keys[j]) || exists i :: 0 <= i < j && keys[i] == keys[j]
  }

  /** Taking a parameter leaves its name and all the others taken. */
  ghost predicate Added(params: map<bytes, bytes>, cont: Table, params': map<bytes, bytes>, cont': Table, key: bytes) {
    Taken(params', cont', key) && forall k :: Taken(params, cont, k) ==> Taken(params', cont', k)
  }

  lemma RestRepeats(key: bytes, keys: seq<bytes>, j: nat, params: map<bytes, bytes>, cont: Table, params': map<bytes, bytes>, cont': Table)
    requires j <= |keys| && Repeats([key] + keys, j, params, cont) && !Taken(params, cont, key)
    requires Added(params, cont, params', cont', key)
    ensures j > 0 && Repeats(keys, j - 1, params', cont')
  {
    var all := [key] + keys;
    assert all[0] == key && forall i :: 0 <= i < |keys| ==> all[i + 1] == keys[i];
    if !Taken(params, cont, all[j]) {
      var i :| 0 <= i < j && all[i] == all[j];
      if i > 0 { assert keys[i - 1] == keys[j - 1]; }
    }
  }

  lemma AddPlain(params: map<bytes, bytes>, cont: Table, key: bytes, value: bytes)
    requires STAR !in key
    ensures Added(params, cont, params[key := value], cont, key)
  {
  }

  lemma AddStarred(params: map<bytes, bytes>, cont: Table, key: bytes, value: bytes)
    requires STAR in key
    ensures var base := key[..IndexByte(key, STAR)];
            var pieces := if base in cont then cont[base] else map[];
            Added(params, cont, params, cont[base := pieces[key := value]], key)
  {
  }

  /** A name that comes twice, in letters of either case and with or without stars, is an error whatever follows it. */
  lemma {:induction false} RepeatedName(t: bytes, ps: seq<Param>, j: nat, end: bytes, params: map<bytes, bytes>, cont: Table)
    requires AllWell(ps) && Follows(end) && j < |ps| && Repeats(Keys(ps), j, params, cont)
    ensures ParseParams(t, Written(ps, end), params, cont) == Duplicate
    decreases |ps|
  {
    var key, value, keys := Lower(ps[0].name), ValueMeant(ps[0].value), Keys(ps[1..]);
    Rest(ps, end);
    TakeParam(t, ps[0], Written(ps[1..], end), params, cont);
    if !Taken(params, cont, key) {
      if STAR !in key {
        AddPlain(params, cont, key, value);
        RestRepeats(key, keys, j, params, cont, params[key := value], cont);
        RepeatedName(t, ps[1..], j - 1, end, params[key := value], cont);
      } else {
        AddStarred(params, cont, key, value);
        var base := key[..IndexByte(key, STAR)];
        var pieces := if base in cont then cont[base] else map[];
        var cont' := cont[base := pieces[key := value]];
        RestRepeats(key, keys, j, params, cont, params, cont');
        RepeatedName(t, ps[1..], j - 1, end, params, cont');
      }
    }
  }

  // ----- what is no parameter ---------------------------------------------

  /** No semicolon, no name, no equals sign or no value: the text is left as it was. */
  lemma NoSemicolon(v: bytes, w: bytes, rest: bytes)
    requires v == w + rest && Blank(w) && (rest == [] || (!IsSpace(rest[0]) && rest[0] != SEMI))
    ensures ConsumeParam(v) == ([], [], v)
  {
    TrimBlank(w, rest);
  }

  lemma NoName(v: bytes, w: bytes, w1: bytes, rest: bytes)
    requires v == w + ([SEMI] + (w1 + rest)) && Blank(w) && Blank(w1)
    requires rest == [] || (!IsSpace(rest[0]) && !TokenChar(rest[0]))
    ensures ConsumeParam(v) == ([], [], v)
  {
    TrimBlank(w, [SEMI] + (w1 + rest));
    assert ([SEMI] + (w1 + rest))[1..] == w1 + rest;
    TrimBlank(w1, rest);
  }

  lemma NoEquals(v: bytes, w: bytes, w1: bytes, name: bytes, w2: bytes, rest: bytes)
    requires v == w + ([SEMI] + (w1 + (name + (w2 + rest)))) && Blank(w) && Blank(w1) && Blank(w2) && Token(name)
    requires rest == [] || (!IsSpace(rest[0]) && rest[0] != EQUALS && (w2 == [] ==> !TokenChar(rest[0])))
    ensures ConsumeParam(v) == ([], [], v)
  {
    NameThen(v, w, w1, name, w2 + rest);
    assert Ends(w2 + rest) by { if w2 != [] { assert (w2 + rest)[0] == w2[0]; } else { assert w2 + rest == rest; } }
    TokenIs(name);
    TokenBack(name, w2 + rest);
    TrimBlank(w2, rest);
  }

  lemma NoValue(v: bytes, w: bytes, w1: bytes, name: bytes, w2: bytes, w3: bytes, rest: bytes)
    requires v == w + ([SEMI] + (w1 + (name + (w2 + ([EQUALS] + (w3 + rest))))))
    requires Blank(w) && Blank(w1) && Blank(w2) && Blank(w3) && Token(name)
    requires (rest == [] || !IsSpace(rest[0])) && ConsumeValue(rest) == ([], rest)
    ensures ConsumeParam(v) == ([], [], v)
  {
    var b := w2 + ([EQUALS] + (w3 + rest));
    NameThen(v, w, w1, name, b);
    assert Ends(b) by { if w2 != [] { assert b[0] == w2[0]; } else { assert b[0] == EQUALS; } }
    TokenIs(name);
    TokenBack(name, b);
    TrimBlank(w2, [EQUALS] + (w3 + rest));
    assert ([EQUALS] + (w3 + rest))[1..] == w3 + rest;
    TrimBlank(w3, rest);
  }

  lemma NameThen(v: bytes, w: bytes, w1: bytes, name: bytes, b: bytes)
    requires v == w + ([SEMI] + (w1 + (name + b))) && Blank(w) && Blank(w1) && Token(name)
    ensures TrimLeft(v) == [SEMI] + (w1 + (name + b)) && TrimLeft(TrimLeft(v)[1..]) == name + b
  {
    TrimBlank(w, [SEMI] + (w1 + (name + b)));
    assert ([SEMI] + (w1 + (name + b)))[1..] == w1 + (name + b);
    TokenIs(name);
    assert (name + b)[0] == name[0];
    TrimBlank(w1, name + b);
  }

  /** A value is empty, with nothing read, exactly for a text that starts with neither a token nor a closed quoted string. */
  lemma NoValueIff(rest: bytes)
    ensures ConsumeValue(rest) == ([], rest) <==>
              rest == [] || (!TokenChar(rest[0]) && rest[0] != QUOTE) || (rest[0] == QUOTE && !Closed(rest[1..]))
  {
    if rest != [] && rest[0] == QUOTE {
      var ps, end := QuotedSplits(rest[1..]);
      assert rest == [QUOTE] + (Sent(ps) + end);
      if end != [] && end[0] == QUOTE {
        assert end == [QUOTE] + end[1..];
        QuotedReads(ps, end[1..]);
      } else {
        QuotedFails(ps, end);
        if Closed(rest[1..]) {
          var qs, tail :| rest[1..] == Sent(qs) + ([QUOTE] + tail) && Fit(qs, [QUOTE] + tail);
          assert |rest| > |tail|;
          QuotedReads(qs, tail);
        }
      }
    }
  }

  /** The text after a quote is pieces, an end quote and more. */
  ghost predicate Closed(s: bytes) {
    exists ps, tail :: s == Sent(ps) + ([QUOTE] + tail) && Fit(ps, [QUOTE] + tail)
  }

  /** Text that is no parameter and no lone semicolon ends the parameters with an error. */
  lemma {:induction false} BadParameter(t: bytes, ps: seq<Param>, bad: bytes, params: map<bytes, bytes>, cont: Table)
    requires AllWell(ps) && Follows(bad) && New(Keys(ps), params) && Differ(Keys(ps))
    requires TrimLeft(bad) != [] && ConsumeParam(TrimLeft(bad)).0 == [] && TrimSpace(TrimLeft(bad)) != [SEMI]
    ensures ParseParams(t, Written(ps, bad), params, cont) == BadParam(t)
    decreases |ps|
  {
    if ps == [] {
      BadRest(t, bad, params, cont);
    } else {
      var value := ValueMeant(ps[0].value);
      TakeNew(t, ps, bad, params, cont);
      RestIsNew(Lower(ps[0].name), Keys(ps[1..]), params, value);
      BadParameter(t, ps[1..], bad, params[Lower(ps[0].name) := value], cont);
    }
  }

  lemma BadRest(t: bytes, bad: bytes, params: map<bytes, bytes>, cont: Table)
    requires TrimLeft(bad) != [] && ConsumeParam(TrimLeft(bad)).0 == [] && TrimSpace(TrimLeft(bad)) != [SEMI]
    ensures ParseParams(t, bad, params, cont) == BadParam(t)
  {
    FailLeaves(TrimLeft(bad));
  }

  /** A failing parameter leaves its text. */
  lemma FailLeaves(v: bytes)
    requires ConsumeParam(v).0 == []
    ensures ConsumeParam(v) == ([], [], v)
  {
  }

  // ----- the whole text ------------------------------------------------------

  /** A token, or two with a slash between them. */
  ghost predicate TypeName(s: bytes) {
    Token(s) || exists a, b :: Token(a) && Token(b) && s == a + ([SLASH] + b)
  }

  /** ConsumeToken takes all there is of a token. */
  lemma {:induction false} TokenIsLongest(v: bytes)
    ensures var (token, rest) := ConsumeToken(v); v == token + rest && TokenChars(token) && Ends(rest)
  {
    if v != [] && TokenChar(v[0]) { TokenIsLongest(v[1..]); }
  }

  lemma CheckIff(s: bytes)
    ensures CheckType(s) <==> TypeName(s)
  {
    if CheckType(s) {
      var (a, rest) := ConsumeToken(s);
      TokenIs(a);
      if rest == [] {
        assert s == a;
      } else {
        var (b, end) := ConsumeToken(rest[1..]);
        TokenIs(b);
        assert rest == [SLASH] + b;
      }
    }
    if Token(s) {
      TokenIs(s);
      TokenBack(s, []);
      assert s + [] == s;
    } else if a, b :| Token(a) && Token(b) && s == a + ([SLASH] + b) {
      TokenIs(a);
      TokenIs(b);
      TokenBack(a, [SLASH] + b);
      TokenBack(b, []);
      assert b + [] == b && ([SLASH] + b)[1..] == b;
    }
  }

  lemma {:induction false} TrimRightBlank(s: bytes, w: bytes)
    requires Blank(w) && (s == [] || !IsSpace(s[|s| - 1]))
    ensures TrimRight(s + w) == s
    decreases |w|
  {
    if w == [] {
      assert s + w == s;
    } else {
      var n := |w| - 1;
      assert (s + w)[..|s + w| - 1] == s + w[..n] && (s + w)[|s + w| - 1] == w[n];
      TrimRightBlank(s, w[..n]);
    }
  }

  /** White space does not start or end it. */
  predicate Core(c: bytes) {
    c == [] || (!IsSpace(c[0]) && !IsSpace(c[|c| - 1]))
  }

  lemma LowerParts(a: bytes, b: bytes)
    ensures Lower(a + b) == Lower(a) + Lower(b)
  {
  }

  lemma LowerBlank(w: bytes)
    requires Blank(w)
    ensures Lower(w) == w
  {
  }

  lemma TrimCore(w: bytes, c: bytes, w': bytes)
    requires Blank(w) && Blank(w') && Core(c)
    ensures TrimSpace(Lower(w + (c + w'))) == Lower(c)
  {
    LowerParts(w, c + w');
    LowerParts(c, w');
    LowerBlank(w);
    LowerBlank(w');
    var s := Lower(c);
    if c == [] {
      assert s + w' == w' && w' + [] == w';
      TrimBlank(w, []);
      BlankTrims(w, w');
    } else {
      assert !IsSpace(s[0]) && (s + w')[0] == s[0];
      TrimBlank(w, s + w');
      TrimRightBlank(s, w');
    }
  }

  lemma BlankTrims(w: bytes, w': bytes)
    requires Blank(w) && Blank(w')
    ensures TrimSpace(w + w') == []
  {
    TrimBlank(w + w', []);
    assert (w + w') + [] == w + w';
  }

  /** The text of a media type: white space, the type, and the parameters. */
  function Whole(w: bytes, c: bytes, ps: seq<Param>, end: bytes): bytes {
    w + (c + Written(ps, end))
  }

  /** The parameters from the first semicolon on. */
  function FromSemi(ps: seq<Param>, end: bytes): bytes {
    if ps == [] then [] else Body(ps[0]) + Written(ps[1..], end)
  }

  lemma HeadIs(w: bytes, c: bytes, ps: seq<Param>, end: bytes)
    requires Blank(w) && Core(c) && SEMI !in c && AllWell(ps) && Blank(end)
    ensures Head(Whole(w, c, ps, end)) == (Lower(c), FromSemi(ps, end))
  {
    var w' := if ps == [] then end else ps[0].w0;
    var rest := FromSemi(ps, end);
    assert Blank(w') by { if ps != [] { assert Well(ps[0]); } }
    assert Whole(w, c, ps, end) == (w + (c + w')) + rest;
    assert SEMI !in w && SEMI !in w';
    SplitAtSemi(w + (c + w'), rest);
    TrimCore(w, c, w');
  }

  lemma FromSemiIs(ps: seq<Param>, end: bytes)
    requires ps != [] && AllWell(ps)
    ensures FromSemi(ps, end) == Written([ps[0].(w0 := [])] + ps[1..], end)
    ensures AllWell([ps[0].(w0 := [])] + ps[1..]) && Keys([ps[0].(w0 := [])] + ps[1..]) == Keys(ps)
    ensures Values([ps[0].(w0 := [])] + ps[1..]) == Values(ps)
  {
    var qs := [ps[0].(w0 := [])] + ps[1..];
    assert qs[1..] == ps[1..] && Body(qs[0]) == Body(ps[0]);
    assert [] + (Body(ps[0]) + Written(ps[1..], end)) == Body(ps[0]) + Written(ps[1..], end);
    assert Well(ps[0]) && Well(qs[0]);
  }

  /**
   ParseMediaType of a well-formed text: the type in lower case without the white space around
   it, and the parameters, when no name is starred or comes twice.
   */
  lemma MediaTypeReads(w: bytes, c: bytes, ps: seq<Param>, end: bytes) returns (m: map<bytes, bytes>)
    requires Blank(w) && Core(c) && SEMI !in c && AllWell(ps) && Blank(end)
    requires TypeName(Lower(c)) && New(Keys(ps), map[]) && Differ(Keys(ps))
    ensures Pairs(m, Keys(ps), Values(ps)) && Parse(Whole(w, c, ps, end)) == Ok(Lower(c), m)
  {
    HeadIs(w, c, ps, end);
    CheckIff(Lower(c));
    m := SemiReads(Lower(c), ps, end);
  }

  lemma SemiReads(t: bytes, ps: seq<Param>, end: bytes) returns (m: map<bytes, bytes>)
    requires AllWell(ps) && Blank(end) && New(Keys(ps), map[]) && Differ(Keys(ps))
    ensures Pairs(m, Keys(ps), Values(ps)) && ParseParams(t, FromSemi(ps, end), map[], map[]) == Ok(t, m)
  {
    if ps == [] {
      m := ParamsRead(t, [], [], map[], map[]);
    } else {
      FromSemiIs(ps, end);
      m := ParamsRead(t, [ps[0].(w0 := [])] + ps[1..], end, map[], map[]);
    }
    NothingStitched(m);
  }

  lemma NothingStitched(m: map<bytes, bytes>)
    ensures Stitched(map[] + m, map[]) == m
  {
    AddsNothing(map[] + m, map[]);
    assert map[] + m == m;
  }

  /** A type that is no token and no two tokens with a slash between them is an error whatever the parameters are. */
  lemma BadTypeIff(w: bytes, c: bytes, ps: seq<Param>, end: bytes)
    requires Blank(w) && Core(c) && SEMI !in c && AllWell(ps) && Blank(end)
    ensures Parse(Whole(w, c, ps, end)) == BadType <==> !TypeName(Lower(c))
  {
    HeadIs(w, c, ps, end);
    CheckIff(Lower(c));
    if TypeName(Lower(c)) { LoopIsNoBadType(Lower(c), FromSemi(ps, end), map[], map[]); }
  }

  lemma {:induction false} LoopIsNoBadType(t: bytes, text: bytes, params: map<bytes, bytes>, cont: Table)
    ensures ParseParams(t, text, params, cont) != BadType
    decreases |text|
  {
    var v := TrimLeft(text);
    if v != [] && ConsumeParam(v).0 != [] {
      ParseStep(t, text, v, params, cont);
      var (key, value, rest) := ConsumeParam(v);
      var base := if STAR in key then key[..IndexByte(key, STAR)] else [];
      var pieces := if base in cont then cont[base] else map[];
      LoopIsNoBadType(t, rest, params[key := value], cont);
      LoopIsNoBadType(t, rest, params, cont[base := pieces[key := value]]);
    }
  }

  // ----- values of RFC 2231 ----------------------------------------------------

  /** A byte as it is, or a percent sign and two hexadecimal digits in either case. */
  datatype Octet = Raw(c: byte) | Hex(hi: nat, upperHi: bool, lo: nat, upperLo: bool)

  predicate Legal(o: Octet) {
    match o case Raw(c) => c != PERCENT case Hex(hi, _, lo, _) => hi < 16 && lo < 16
  }

  predicate AllLegal(os: seq<Octet>) {
    forall i :: 0 <= i < |os| ==> Legal(os[i])
  }

  function OctetSent(o: Octet): bytes
    requires Legal(o)
  {
    match o
    case Raw(c) => [c]
    case Hex(hi, u, lo, v) => [PERCENT, HeaderWords.HexDigit(hi, u), HeaderWords.HexDigit(lo, v)]
  }

  function OctetMeant(o: Octet): byte
    requires Legal(o)
  {
    match o case Raw(c) => c case Hex(hi, _, lo, _) => 16 * hi + lo
  }

  function OctetsSent(os: seq<Octet>): bytes
    requires AllLegal(os)
  {
    if os == [] then [] else OctetSent(os[0]) + OctetsSent(os[1..])
  }

  function OctetsMeant(os: seq<Octet>): bytes
    requires AllLegal(os)
  {
    if os == [] then [] else [OctetMeant(os[0])] + OctetsMeant(os[1..])
  }

  lemma OctetReads(o: Octet, rest: bytes)
    requires Legal(o)
    ensures Unescape(OctetSent(o) + rest) == EncodedWord.Prepend([OctetMeant(o)], Unescape(rest))
  {
    var s := OctetSent(o) + rest;
    assert s[|OctetSent(o)|..] == rest;
    if o.Hex? { HeaderWords.HexReads(o.hi, o.upperHi, o.lo, o.upperLo); }
  }

  lemma {:induction false} OctetsRead(os: seq<Octet>)
    requires AllLegal(os)
    ensures Unescape(OctetsSent(os)) == Some(OctetsMeant(os))
    decreases |os|
  {
    if os != [] {
      OctetReads(os[0], OctetsSent(os[1..]));
      OctetsRead(os[1..]);
    }
  }

  /** Whatever is unescaped is a list of octets: nothing else is. */
  lemma {:induction false} UnescapedSplits(s: bytes) returns (os: seq<Octet>)
    requires Unescape(s).Some?
    ensures AllLegal(os) && OctetsSent(os) == s
    decreases |s|
  {
    if s == [] { return []; }
    if s[0] != PERCENT {
      var more := UnescapedSplits(s[1..]);
      os := [Raw(s[0])] + more;
      assert os[1..] == more && [s[0]] + s[1..] == s;
    } else {
      var more := UnescapedSplits(s[3..]);
      var a, b := HeaderWords.HexOf(s[1]), HeaderWords.HexOf(s[2]);
      os := [Hex(a.0, a.1, b.0, b.1)] + more;
      assert os[1..] == more && [s[0], s[1], s[2]] + s[3..] == s;
    }
  }

  /** charset'language'text: the charset must be utf-8 or us-ascii in letters of either case, the language is ignored. */
  lemma CharsetReads(charset: bytes, language: bytes, text: bytes)
    requires TICK !in charset && TICK !in language
    ensures Decode2231(charset + ([TICK] + (language + ([TICK] + text)))) ==
              if Lower(charset) == Ascii("utf-8") || Lower(charset) == Ascii("us-ascii") then Unescape(text) else None
  {
    var rest := language + ([TICK] + text);
    TickSplits(charset, rest);
    TickSplits(language, text);
    assert Ascii("utf-8") == EncodedWord.UTF8 && Ascii("us-ascii") == EncodedWord.ASCII;
  }

  lemma TickSplits(a: bytes, b: bytes)
    requires TICK !in a
    ensures var v := a + ([TICK] + b); IndexByte(v, TICK) == |a| && v[..|a|] == a && v[|a| + 1..] == b
  {
    var v := a + ([TICK] + b);
    assert v[|a|] == TICK && v[..|a|] == a;
    IndexIs(v, TICK, |a|);
  }
}
