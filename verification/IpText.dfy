/** Textual IP addresses (net/ip.go, net/parse.go): printing and parsing undo each other. */
module IpText {
  import opened Prelude

  const LIMIT := 0xFFFFFF

  // ----- hexadecimal --------------------------------------------------

  function HexChar(d: nat): char
    requires d < 16
  {
    if d < 10 then ('0' as int + d) as char else ('a' as int + d - 10) as char
  }

  /** The value of a hexadecimal digit, or -1. */
  function HexVal(c: char): (d: int)
    ensures -1 <= d < 16
  {
    if '0' <= c <= '9' then c as int - '0' as int
    else if 'a' <= c <= 'f' then c as int - 'a' as int + 10
    else if 'A' <= c <= 'F' then c as int - 'A' as int + 10
    else -1
  }

  lemma HexBack(d: nat)
    requires d < 16
    ensures HexVal(HexChar(d)) == d && HexChar(d) != ':' && HexChar(d) != '.'
  {
  }

  /** Hexadecimal without leading zeros. */
  function Hex(v: nat): (s: string)
    ensures s != []
  {
    if v < 16 then [HexChar(v)] else Hex(v / 16) + [HexChar(v % 16)]
  }

  /** What a number parser returns: the number, the characters read and success. */
  type Scan = (int, nat, bool)

  /** xtoi from index i, with n read so far. */
  function XtoiFrom(s: string, i: nat, n: int): Scan
    requires i <= |s|
    decreases |s| - i
  {
    if i == |s| || HexVal(s[i]) < 0 then (if i == 0 then (0, 0, false) else (n, i, true))
    else
      var m := n * 16 + HexVal(s[i]);
      if m >= LIMIT then (0, i, false) else XtoiFrom(s, i + 1, m)
  }

  function Xtoi(s: string): (r: Scan)
    ensures r.1 <= |s| && r.0 >= 0
  {
    XtoiBound(s, 0, 0);
    XtoiFrom(s, 0, 0)
  }

  lemma {:induction false} XtoiBound(s: string, i: nat, n: int)
    requires i <= |s| && n >= 0
    ensures XtoiFrom(s, i, n).1 <= |s| && XtoiFrom(s, i, n).0 >= 0
    decreases |s| - i
  {
    if i < |s| && HexVal(s[i]) >= 0 && n * 16 + HexVal(s[i]) < LIMIT { XtoiBound(s, i + 1, n * 16 + HexVal(s[i])); }
  }

  /** No character that would continue a number. */
  predicate Stops(rest: string) {
    rest == [] || HexVal(rest[0]) < 0
  }

  /** Reading digits written from v, after k of them remain to be read. */
  lemma {:induction false} XtoiReads(s: string, v: nat, i: nat)
    requires v < 0x10000 && i == |Hex(v)| <= |s| && s[..i] == Hex(v)
    ensures XtoiFrom(s, 0, 0) == XtoiFrom(s, i, v)
    decreases v
  {
    if v < 16 {
      HexBack(v);
      assert s[0] == Hex(v)[0];
    } else {
      var h := Hex(v / 16);
      assert s[..|h|] == h by { assert s[..|h|] == s[..i][..|h|]; }
      XtoiReads(s, v / 16, |h|);
      HexBack(v % 16);
      assert s[|h|] == s[..i][|h|];
    }
  }

  lemma XtoiBack(v: nat, rest: string)
    requires v < 0x10000 && Stops(rest)
    ensures Xtoi(Hex(v) + rest) == (v, |Hex(v)|, true)
  {
    var s := Hex(v) + rest;
    assert s[..|Hex(v)|] == Hex(v);
    XtoiReads(s, v, |Hex(v)|);
    assert rest != [] ==> s[|Hex(v)|] == rest[0];
  }

  // ----- decimal ------------------------------------------------------

  function DecChar(d: nat): char
    requires d < 10
  {
    ('0' as int + d) as char
  }

  function Dec(v: byte): string {
    if v < 10 then [DecChar(v)]
    else if v < 100 then [DecChar(v / 10), DecChar(v % 10)]
    else [DecChar(v / 100), DecChar(v / 10 % 10), DecChar(v % 10)]
  }

  function DtoiFrom(s: string, i: nat, n: int): Scan
    requires i <= |s|
    decreases |s| - i
  {
    if i == |s| || !('0' <= s[i] <= '9') then (if i == 0 then (0, 0, false) else (n, i, true))
    else
      var m := n * 10 + (s[i] as int - '0' as int);
      if m >= LIMIT then (LIMIT, i, false) else DtoiFrom(s, i + 1, m)
  }

  function Dtoi(s: string): (r: Scan)
    ensures r.1 <= |s|
  {
    DtoiBound(s, 0, 0);
    DtoiFrom(s, 0, 0)
  }

  lemma {:induction false} DtoiBound(s: string, i: nat, n: int)
    requires i <= |s|
    ensures DtoiFrom(s, i, n).1 <= |s|
    decreases |s| - i
  {
    if i < |s| && '0' <= s[i] <= '9' && n * 10 + (s[i] as int - '0' as int) < LIMIT {
      DtoiBound(s, i + 1, n * 10 + (s[i] as int - '0' as int));
    }
  }

  lemma DtoiStep(s: string, i: nat, n: int, d: nat)
    requires i < |s| && d < 10 && s[i] == DecChar(d) && n * 10 + d < LIMIT
    ensures DtoiFrom(s, i, n) == DtoiFrom(s, i + 1, n * 10 + d)
  {
  }

  lemma DtoiBack(v: byte, rest: string)
    requires rest == [] || !('0' <= rest[0] <= '9')
    ensures Dtoi(Dec(v) + rest) == (v as int, |Dec(v)|, true)
  {
    DtoiDigits(Dec(v) + rest, v, rest);
  }

  lemma DtoiDigits(s: string, v: byte, rest: string)
    requires s == Dec(v) + rest && (rest == [] || !('0' <= rest[0] <= '9'))
    ensures DtoiFrom(s, 0, 0) == (v as int, |Dec(v)|, true)
  {
    var k := |Dec(v)|;
    assert rest != [] ==> s[k] == rest[0];
    assert DtoiFrom(s, k, v) == (v as int, k, true);
    if v < 10 {
      DtoiStep(s, 0, 0, v);
    } else if v < 100 {
      DtoiStep(s, 0, 0, v / 10);
      DtoiStep(s, 1, v / 10, v % 10);
    } else {
      DtoiStep(s, 0, 0, v / 100);
      DtoiStep(s, 1, v / 100, v / 10 % 10);
      DtoiStep(s, 2, v / 10, v % 10);
    }
  }

  // ----- dotted decimal -----------------------------------------------

  const MAPPED: seq<byte> := [0, 0, 0, 0, 0, 0, 0, 0, 0, 0, 0xff, 0xff]

  /** To4. */
  function To4(ip: seq<byte>): Option<seq<byte>> {
    FourBytes(ip, MAPPED)
  }

  /** The rest of parseIPv4 after i octets. */
  function Octets(s: string, p: seq<byte>): (r: Option<seq<byte>>)
    requires |p| <= 4
    ensures r.Some? ==> |r.value| == 4
    decreases 4 - |p|
  {
    if |p| == 4 then (if s == [] then Some(p) else None)
    else if s == [] || (|p| > 0 && s[0] != '.') then None
    else
      var t := if |p| > 0 then s[1..] else s;
      var (n, c, ok) := Dtoi(t);
      if !ok || n < 0 || n > 0xFF then None else Octets(t[c..], p + [n])
  }

  /** parseIPv4, as the 16-byte form that IPv4 builds. */
  function ParseIPv4(s: string): (r: Option<seq<byte>>)
    ensures r.Some? ==> |r.value| == 16
  {
    match Octets(s, []) case Some(p) => Some(MAPPED + p) case None => None
  }

  /** The octets of p from index i on, each after a dot. */
  function Dotted(p: seq<byte>): string {
    if p == [] then [] else ['.'] + (Dec(p[0]) + Dotted(p[1..]))
  }

  lemma {:induction false} OctetsBack(q: seq<byte>, p: seq<byte>)
    requires 0 < |p| && |p| + |q| == 4
    ensures Octets(Dotted(q), p) == Some(p + q)
    decreases |q|
  {
    if q != [] {
      var t := Dec(q[0]) + Dotted(q[1..]);
      assert Dotted(q)[1..] == t;
      DtoiBack(q[0], Dotted(q[1..]));
      assert t[|Dec(q[0])|..] == Dotted(q[1..]);
      OctetsBack(q[1..], p + [q[0]]);
      assert (p + [q[0]]) + q[1..] == p + q;
    } else {
      assert p + q == p;
    }
  }

  function Text4(p: seq<byte>): string
    requires |p| == 4
  {
    Dec(p[0]) + Dotted(p[1..])
  }

  lemma Text4Back(p: seq<byte>)
    requires |p| == 4
    ensures ParseIPv4(Text4(p)) == Some(MAPPED + p)
  {
    var s := Text4(p);
    DtoiBack(p[0], Dotted(p[1..]));
    assert s[|Dec(p[0])|..] == Dotted(p[1..]);
    OctetsBack(p[1..], [p[0]]);
    assert [p[0]] + p[1..] == p;
    assert [] + [p[0]] == [p[0]];
  }

  // ----- colons -------------------------------------------------------

  function Zeros(n: nat): (z: seq<byte>)
    ensures |z| == n && forall i :: 0 <= i < n ==> z[i] == 0
  {
    seq(n, (i: nat) => 0)
  }

  /** The bytes read, the place of the ellipsis or -1, and the unread text. */
  type Read6 = (seq<byte>, int, string)

  /** The loop of parseIPv6, with `acc` read so far. */
  function Groups(s: string, acc: seq<byte>, ell: int): (r: Option<Read6>)
    requires |acc| <= 16 && |acc| % 2 == 0 && ell <= |acc|
    ensures r.Some? ==> |r.value.0| <= 16 && r.value.1 <= |r.value.0|
    decreases 16 - |acc|, 0
  {
    if |acc| == 16 then Some((acc, ell, s))
    else
      var (n, c, ok) := Xtoi(s);
      if !ok || n > 0xFFFF then None
      else if c < |s| && s[c] == '.' then
        if (ell < 0 && |acc| != 12) || |acc| + 4 > 16 then None
        else match ParseIPv4(s) case Some(q) => Some((acc + q[12..], ell, [])) case None => None
      else AfterGroup(s[c..], acc + [n / 256, n % 256], ell)
  }

  /** What follows one 16-bit group. */
  function AfterGroup(s: string, acc: seq<byte>, ell: int): (r: Option<Read6>)
    requires |acc| <= 16 && |acc| % 2 == 0 && ell <= |acc|
    ensures r.Some? ==> |r.value.0| <= 16 && r.value.1 <= |r.value.0|
    decreases 16 - |acc|, 1
  {
    if s == [] then Some((acc, ell, []))
    else if s[0] != ':' || |s| == 1 then None
    else if s[1] != ':' then Groups(s[1..], acc, ell)
    else if ell >= 0 then None
    else if |s| == 2 then Some((acc, |acc|, []))
    else Groups(s[2..], acc, |acc|)
  }

  /** The address with the ellipsis expanded. */
  function Expand(acc: seq<byte>, ell: int): Option<seq<byte>>
    requires |acc| <= 16 && ell <= |acc|
  {
    if |acc| < 16 then (if ell < 0 then None else Some(acc[..ell] + Zeros(16 - |acc|) + acc[ell..]))
    else if ell >= 0 then None else Some(acc)
  }

  predicate Leading(s: string) {
    |s| >= 2 && s[0] == ':' && s[1] == ':'
  }

  function ParseIPv6(s: string): Option<seq<byte>> {
    if Leading(s) && |s| == 2 then Some(Zeros(16))
    else
      match (if Leading(s) then Groups(s[2..], [], 0) else Groups(s, [], -1))
      case None => None
      case Some((acc, ell, rest)) => if rest != [] then None else Expand(acc, ell)
  }

  /** The first '.' or ':' decides. */
  function FirstMark(s: string): char {
    if s == [] then ' ' else if s[0] == '.' || s[0] == ':' then s[0] else FirstMark(s[1..])
  }

  function ParseIP(s: string): Option<seq<byte>> {
    if FirstMark(s) == '.' then ParseIPv4(s) else if FirstMark(s) == ':' then ParseIPv6(s) else None
  }

  /** The 16-bit group at p[i]. */
  function GroupAt(p: seq<byte>, i: nat): (v: nat)
    requires i + 2 <= |p|
    ensures v < 0x10000 && v / 256 == p[i] && v % 256 == p[i + 1]
  {
    p[i] as int * 256 + p[i + 1] as int
  }

  /** The groups of p[i..hi], colons between them. */
  function Body(p: seq<byte>, i: nat, hi: nat): string
    requires i <= hi <= |p| && i % 2 == 0 && hi % 2 == 0
    decreases hi - i
  {
    if i == hi then []
    else if i + 2 == hi then Hex(GroupAt(p, i))
    else Hex(GroupAt(p, i)) + ([':'] + Body(p, i + 2, hi))
  }

  lemma OneGroup(v: nat, rest: string, acc: seq<byte>, ell: int)
    requires v < 0x10000 && |acc| < 16 && |acc| % 2 == 0 && ell <= |acc|
    requires rest == [] || rest[0] == ':'
    ensures Groups(Hex(v) + rest, acc, ell) == AfterGroup(rest, acc + [v / 256, v % 256], ell)
  {
    var s, c := Hex(v) + rest, |Hex(v)|;
    XtoiBack(v, rest);
    assert s[c..] == rest;
    assert c < |s| ==> s[c] == rest[0];
  }

  lemma GroupThenColon(v: nat, more: string, acc: seq<byte>, ell: int)
    requires v < 0x10000 && |acc| < 16 && |acc| % 2 == 0 && ell <= |acc| && more != [] && more[0] != ':'
    ensures Groups(Hex(v) + ([':'] + more), acc, ell) == Groups(more, acc + [v / 256, v % 256], ell)
  {
    OneGroup(v, [':'] + more, acc, ell);
    OneColon(more, acc + [v / 256, v % 256], ell);
  }

  lemma GroupBytes(p: seq<byte>, i: nat)
    requires i + 2 <= |p|
    ensures [GroupAt(p, i) / 256, GroupAt(p, i) % 256] == p[i..i + 2]
  {
  }

  lemma BodyCons(p: seq<byte>, i: nat, hi: nat, rest: string)
    requires i + 2 < hi <= |p| && i % 2 == 0 && hi % 2 == 0
    ensures Body(p, i, hi) + rest == Hex(GroupAt(p, i)) + ([':'] + (Body(p, i + 2, hi) + rest))
  {
    Cons(Hex(GroupAt(p, i)), Body(p, i + 2, hi), rest);
  }

  lemma Cons(h: string, body: string, rest: string)
    ensures (h + ([':'] + body)) + rest == h + ([':'] + (body + rest))
  {
  }

  lemma OneColon(more: string, acc: seq<byte>, ell: int)
    requires more != [] && more[0] != ':' && |acc| <= 16 && |acc| % 2 == 0 && ell <= |acc|
    ensures AfterGroup([':'] + more, acc, ell) == Groups(more, acc, ell)
  {
    var s := [':'] + more;
    assert s[1] == more[0] && s[1..] == more;
  }

  lemma {:induction false} BodyBack(p: seq<byte>, i: nat, hi: nat, rest: string, acc: seq<byte>, ell: int)
    requires i < hi <= |p| && i % 2 == 0 && hi % 2 == 0
    requires |acc| + (hi - i) <= 16 && |acc| % 2 == 0 && ell <= |acc|
    requires rest == [] || rest[0] == ':'
    ensures Groups(Body(p, i, hi) + rest, acc, ell) == AfterGroup(rest, acc + p[i..hi], ell)
    decreases hi - i
  {
    var v := GroupAt(p, i);
    GroupBytes(p, i);
    if i + 2 == hi {
      OneGroup(v, rest, acc, ell);
    } else {
      BodyCons(p, i, hi, rest);
      BodyStart(p, i + 2, hi);
      GroupThenColon(v, Body(p, i + 2, hi) + rest, acc, ell);
      BodyBack(p, i + 2, hi, rest, acc + p[i..i + 2], ell);
      TwoSlices(acc, p, i, hi);
    }
  }

  lemma TwoSlices(acc: seq<byte>, p: seq<byte>, i: nat, hi: nat)
    requires i + 2 <= hi <= |p|
    ensures (acc + p[i..i + 2]) + p[i + 2..hi] == acc + p[i..hi]
  {
  }

  predicate Mark(c: char) {
    c == '.' || c == ':'
  }

  lemma {:induction false} HexHasNoMark(v: nat)
    ensures forall k :: 0 <= k < |Hex(v)| ==> !Mark(Hex(v)[k])
  {
    if v >= 16 { HexHasNoMark(v / 16); }
  }

  lemma BodyStart(p: seq<byte>, i: nat, hi: nat)
    requires i < hi <= |p| && i % 2 == 0 && hi % 2 == 0
    ensures Body(p, i, hi) != [] && !Mark(Body(p, i, hi)[0])
  {
    HexHasNoMark(GroupAt(p, i));
  }

  /** The text with p[e0..e1] left out. */
  function Elided(p: seq<byte>, e0: nat, e1: nat): string
    requires |p| == 16 && e0 < e1 <= 16 && e0 % 2 == 0 && e1 % 2 == 0
  {
    Body(p, 0, e0) + ("::" + Body(p, e1, 16))
  }

  ghost predicate ZeroRun(p: seq<byte>, i: nat, j: nat)
    requires j <= |p|
  {
    forall k :: i <= k < j ==> p[k] == 0
  }

  lemma ElidedBack(p: seq<byte>, e0: nat, e1: nat)
    requires |p| == 16 && e0 < e1 <= 16 && e0 % 2 == 0 && e1 % 2 == 0 && ZeroRun(p, e0, e1)
    ensures ParseIPv6(Elided(p, e0, e1)) == Some(p)
  {
    if e0 == 0 {
      LeadingBack(p, e1);
    } else {
      InnerBack(p, e0, e1);
    }
  }

  lemma LeadingBack(p: seq<byte>, e1: nat)
    requires |p| == 16 && 0 < e1 <= 16 && e1 % 2 == 0 && ZeroRun(p, 0, e1)
    ensures ParseIPv6(Elided(p, 0, e1)) == Some(p)
  {
    var tail, s := Body(p, e1, 16), Elided(p, 0, e1);
    assert s == "::" + tail;
    assert s[2..] == tail;
    if e1 < 16 {
      BodyStart(p, e1, 16);
      TailBack(p, e1, [], 0);
      assert [] + p[e1..] == p[e1..];
      ExpandsTo(p, [], p[e1..]);
    } else {
      assert p == Zeros(16);
    }
  }

  lemma InnerBack(p: seq<byte>, e0: nat, e1: nat)
    requires |p| == 16 && 0 < e0 < e1 <= 16 && e0 % 2 == 0 && e1 % 2 == 0 && ZeroRun(p, e0, e1)
    ensures ParseIPv6(Elided(p, e0, e1)) == Some(p)
  {
    var tail, s := Body(p, e1, 16), Elided(p, e0, e1);
    var rest := "::" + tail;
    BodyStart(p, 0, e0);
    assert !Leading(s);
    BodyBack(p, 0, e0, rest, [], -1);
    assert [] + p[0..e0] == p[..e0];
    EllipsisBack(p, e0, e1, tail, rest);
    ExpandsTo(p, p[..e0], p[e1..]);
  }

  lemma EllipsisBack(p: seq<byte>, e0: nat, e1: nat, tail: string, rest: string)
    requires |p| == 16 && 0 < e0 < e1 <= 16 && e0 % 2 == 0 && e1 % 2 == 0
    requires tail == Body(p, e1, 16) && rest == "::" + tail
    ensures AfterGroup(rest, p[..e0], -1) == Some((p[..e0] + p[e1..], e0 as int, []))
  {
    assert rest[2..] == tail;
    if e1 < 16 {
      BodyStart(p, e1, 16);
      TailBack(p, e1, p[..e0], e0);
    } else {
      assert p[..e0] + p[e1..] == p[..e0];
    }
  }

  lemma ExpandsTo(p: seq<byte>, a: seq<byte>, b: seq<byte>)
    requires |p| == 16 && |a| + |b| < 16 && a == p[..|a|] && b == p[16 - |b|..] && ZeroRun(p, |a|, 16 - |b|)
    ensures Expand(a + b, |a|) == Some(p)
  {
    assert (a + b)[..|a|] == a && (a + b)[|a|..] == b;
    assert p == a + Zeros(16 - |a| - |b|) + b;
  }

  /** The groups after the ellipsis. */
  lemma TailBack(p: seq<byte>, e1: nat, acc: seq<byte>, ell: int)
    requires |p| == 16 && e1 < 16 && e1 % 2 == 0 && |acc| < e1 && |acc| % 2 == 0 && ell <= |acc|
    ensures Groups(Body(p, e1, 16), acc, ell) == Some((acc + p[e1..], ell, []))
  {
    BodyBack(p, e1, 16, [], acc, ell);
    assert Body(p, e1, 16) + [] == Body(p, e1, 16) && p[e1..16] == p[e1..];
  }

  lemma FullBack(p: seq<byte>)
    requires |p| == 16
    ensures ParseIPv6(Body(p, 0, 16)) == Some(p)
  {
    BodyStart(p, 0, 16);
    BodyBack(p, 0, 16, [], [], -1);
    assert Body(p, 0, 16) + [] == Body(p, 0, 16) && [] + p[0..16] == p;
  }

  // ----- String -------------------------------------------------------

  predicate ZeroGroup(p: seq<byte>, g: nat)
    requires 2 * g + 1 < |p|
  {
    p[2 * g] == 0 && p[2 * g + 1] == 0
  }

  /** The groups a, ..., b-1 are all zero. */
  ghost predicate Run(p: seq<byte>, a: nat, b: nat)
    requires |p| == 16 && b <= 8
  {
    forall g: nat {:trigger ZeroGroup(p, g)} :: a <= g < b ==> ZeroGroup(p, g)
  }

  /** Among the runs that start before group `limit`, a..b is the first of the longest ones. */
  ghost predicate Best(p: seq<byte>, limit: nat, a: int, len: nat)
    requires |p| == 16
  {
    && (len > 0 ==> 0 <= a < limit && a + len <= 8 && Run(p, a, a + len))
    && (forall c: nat, d: nat {:trigger Run(p, c, d)} ::
          c < d <= 8 && c < limit && Run(p, c, d) ==> d - c <= len && (d - c == len ==> a <= c))
  }

  /** "::" stands for the first longest run of at least two groups, or for nothing when there is none. */
  ghost predicate Shortens(p: seq<byte>, e0: int, e1: int)
    requires |p| == 16
  {
    if e0 == -1 then e1 == -1 && (forall c: nat, d: nat {:trigger Run(p, c, d)} :: c < d <= 8 && Run(p, c, d) ==> d - c < 2)
    else 0 <= e0 < e1 <= 16 && e0 % 2 == 0 && e1 % 2 == 0 && e1 - e0 >= 4 && Best(p, 8, e0 / 2, (e1 - e0) / 2)
  }

  /** The run that starts at group a ends at b. */
  lemma RunEnds(p: seq<byte>, a: nat, b: nat, c: nat, d: nat)
    requires |p| == 16 && a <= c <= b <= 8 && c < d <= 8 && (b < 8 ==> !ZeroGroup(p, b)) && Run(p, c, d)
    ensures d <= b
  {
  }

  lemma Skipped(p: seq<byte>, a: nat, b: nat, limit: nat, best: int, len: nat)
    requires |p| == 16 && a <= b <= 8 && (b < 8 ==> !ZeroGroup(p, b)) && Run(p, a, b) && Best(p, a, best, len)
    requires if b > a && b - a > len then limit == b + 1 else limit == a + 1
    ensures if b > a && b - a > len then Best(p, limit, a, b - a) else Best(p, limit, best, len)
  {
    forall c: nat, d: nat | a <= c < limit && c < d <= 8 && Run(p, c, d)
      ensures d <= b
    {
      RunEnds(p, a, b, c, d);
    }
  }

  /** Where the zeros that start at i end. */
  method RunEnd(p: seq<byte>, i: nat) returns (j: nat)
    requires |p| == 16 && i % 2 == 0 && i < 16
    ensures i <= j <= 16 && j % 2 == 0 && Run(p, i / 2, j / 2) && (j < 16 ==> !ZeroGroup(p, j / 2))
  {
    j := i;
    while j < 16 && p[j] == 0 && p[j + 1] == 0
      invariant i <= j <= 16 && j % 2 == 0
      invariant Run(p, i / 2, j / 2)
    {
      assert ZeroGroup(p, j / 2);
      j := j + 2;
    }
    assert j < 16 ==> 2 * (j / 2) == j;
  }

  /** e0 and e1 describe the run of `len` groups at group `best`; both are -1 for none. */
  predicate Tracks(e0: int, e1: int, best: int, len: nat) {
    if len == 0 then e0 == e1 == best == -1 else best >= 0 && e0 == 2 * best && e1 == e0 + 2 * len
  }

  lemma Concludes(p: seq<byte>, g: nat, best: int, len: nat, e0: int, e1: int)
    requires |p| == 16 && g >= 8 && Best(p, g, best, len) && Tracks(e0, e1, best, len)
    ensures if e1 - e0 <= 2 then Shortens(p, -1, -1) else Shortens(p, e0, e1)
  {
  }

  /** The search for the longest run of zero groups. */
  method FindRun(p: seq<byte>) returns (e0: int, e1: int)
    requires |p| == 16
    ensures Shortens(p, e0, e1)
  {
    e0, e1 := -1, -1;
    var i: nat := 0;
    ghost var g: nat, best: int, len: nat := 0, -1, 0;
    while i < 16
      invariant i == 2 * g
      invariant Tracks(e0, e1, best, len) && Best(p, g, best, len)
    {
      var j := RunEnd(p, i);
      if j > i && j - i > e1 - e0 {
        Skipped(p, g, j / 2, j / 2 + 1, best, len);
        best, len, g := g, j / 2 - g, j / 2;
        e0, e1, i := i, j, j;
      } else {
        Skipped(p, g, j / 2, g + 1, best, len);
      }
      i, g := i + 2, g + 1;
    }
    Concludes(p, g, best, len, e0, e1);
    if e1 - e0 <= 2 {
      e0, e1 := -1, -1;
    }
  }

  /** The printing loop from index i on. */
  function PrintFrom(p: seq<byte>, e0: int, e1: int, i: nat): string
    requires |p| == 16 && i % 2 == 0 && (e0 >= 0 ==> e0 < e1 && e1 % 2 == 0)
    decreases 16 - i
  {
    if i >= 16 then []
    else if i == e0 then
      (if e1 >= 16 then "::" else "::" + (Hex(GroupAt(p, e1)) + PrintFrom(p, e0, e1, e1 + 2)))
    else (if i > 0 then ":" else "") + (Hex(GroupAt(p, i)) + PrintFrom(p, e0, e1, i + 2))
  }

  lemma {:induction false} PrintTail(p: seq<byte>, e0: int, e1: int, i: nat)
    requires |p| == 16 && i % 2 == 0 && (e0 >= 0 ==> e0 < e1 && e1 % 2 == 0) && e0 < i <= 16 && 0 < i
    ensures PrintFrom(p, e0, e1, i) == if i == 16 then [] else ":" + Body(p, i, 16)
    decreases 16 - i
  {
    if i < 16 {
      PrintTail(p, e0, e1, i + 2);
      if i + 2 == 16 {
        assert PrintFrom(p, e0, e1, 16) == [];
        assert Hex(GroupAt(p, i)) + [] == Hex(GroupAt(p, i));
      }
    }
  }

  lemma PrintAll(p: seq<byte>)
    requires |p| == 16
    ensures PrintFrom(p, -1, -1, 0) == Body(p, 0, 16)
  {
    PrintTail(p, -1, -1, 2);
  }

  lemma {:induction false} PrintHead(p: seq<byte>, e0: nat, e1: nat, i: nat)
    requires |p| == 16 && i % 2 == 0 && e0 % 2 == 0 && e1 % 2 == 0 && i <= e0 < e1 <= 16
    ensures PrintFrom(p, e0, e1, i) == (if 0 < i < e0 then ":" else "") + (Body(p, i, e0) + ("::" + Body(p, e1, 16)))
    decreases e0 - i
  {
    if i == e0 {
      PrintEllipsis(p, e0, e1);
    } else {
      PrintHead(p, e0, e1, i + 2);
      var h, colon := Hex(GroupAt(p, i)), if i + 2 < e0 then ":" else "";
      HeadText(h, colon, Body(p, i + 2, e0), "::" + Body(p, e1, 16));
      assert i + 2 == e0 ==> h + (colon + Body(p, i + 2, e0)) == h;
      assert Body(p, i, e0) == h + (colon + Body(p, i + 2, e0));
    }
  }

  lemma PrintEllipsis(p: seq<byte>, e0: nat, e1: nat)
    requires |p| == 16 && e0 % 2 == 0 && e1 % 2 == 0 && e0 < e1 <= 16
    ensures PrintFrom(p, e0, e1, e0) == "" + ([] + ("::" + Body(p, e1, 16)))
  {
    if e1 < 16 {
      PrintTail(p, e0, e1, e1 + 2);
      TailText(p, e1);
    }
  }

  lemma TailText(p: seq<byte>, e1: nat)
    requires |p| == 16 && e1 < 16 && e1 % 2 == 0
    ensures Body(p, e1, 16) == Hex(GroupAt(p, e1)) + (if e1 + 2 == 16 then [] else ":" + Body(p, e1 + 2, 16))
  {
    assert Hex(GroupAt(p, e1)) + [] == Hex(GroupAt(p, e1));
  }

  lemma HeadText(h: string, colon: string, body: string, rest: string)
    ensures h + (colon + (body + rest)) == (h + (colon + body)) + rest
  {
  }

  /** hexString: two digits a byte. */
  function HexPairs(b: seq<byte>): string {
    if b == [] then [] else [HexChar(b[0] / 16), HexChar(b[0] % 16)] + HexPairs(b[1..])
  }

  /** `s` is what String returns for `ip`. */
  ghost predicate IsText(ip: seq<byte>, s: string) {
    if ip == [] then s == "<nil>"
    else if To4(ip).Some? then s == Text4(To4(ip).value)
    else if |ip| != 16 then s == "?" + HexPairs(ip)
    else exists e0: int, e1: int :: IsText6(ip, e0, e1, s)
  }

  ghost predicate IsText6(p: seq<byte>, e0: int, e1: int, s: string)
    requires |p| == 16
  {
    Shortens(p, e0, e1) && s == if e0 < 0 then Body(p, 0, 16) else Elided(p, e0, e1)
  }

  // ----- the round trip -----------------------------------------------

  ghost predicate NoMark(s: string) {
    forall k :: 0 <= k < |s| ==> !Mark(s[k])
  }

  lemma {:induction false} MarkAfter(a: string, b: string)
    requires NoMark(a)
    ensures FirstMark(a + b) == FirstMark(b)
  {
    if a == [] {
      assert a + b == b;
    } else {
      MarkAfter(a[1..], b);
      assert (a + b)[1..] == a[1..] + b;
    }
  }

  lemma {:induction false} PairsHaveNoMark(b: seq<byte>)
    ensures NoMark(HexPairs(b))
  {
    if b != [] {
      PairsHaveNoMark(b[1..]);
      HexBack(b[0] / 16);
      HexBack(b[0] % 16);
    }
  }

  lemma BodyMark(p: seq<byte>, i: nat, hi: nat, rest: string)
    requires i < hi <= |p| && i % 2 == 0 && hi % 2 == 0 && (i + 2 == hi ==> rest != [] && rest[0] == ':')
    ensures FirstMark(Body(p, i, hi) + rest) == ':'
  {
    var h := Hex(GroupAt(p, i));
    HexHasNoMark(GroupAt(p, i));
    if i + 2 == hi {
      MarkAfter(h, rest);
    } else {
      BodyCons(p, i, hi, rest);
      MarkAfter(h, [':'] + (Body(p, i + 2, hi) + rest));
    }
  }

  lemma Text6Back(p: seq<byte>, e0: int, e1: int, s: string)
    requires |p| == 16 && IsText6(p, e0, e1, s)
    ensures ParseIP(s) == Some(p)
  {
    if e0 < 0 {
      FullBack(p);
      BodyMark(p, 0, 16, []);
      assert Body(p, 0, 16) + [] == Body(p, 0, 16);
    } else {
      assert ZeroRun(p, e0, e1) by { RunIsZero(p, e0 / 2, e1 / 2); }
      ElidedBack(p, e0, e1);
      if e0 == 0 {
        assert s[0] == ':';
      } else {
        BodyMark(p, 0, e0, "::" + Body(p, e1, 16));
      }
    }
  }

  lemma RunIsZero(p: seq<byte>, a: nat, b: nat)
    requires |p| == 16 && a <= b <= 8 && Run(p, a, b)
    ensures ZeroRun(p, 2 * a, 2 * b)
  {
    forall k | 2 * a <= k < 2 * b
      ensures p[k] == 0
    {
      assert ZeroGroup(p, k / 2);
    }
  }

  lemma MappedBack(ip: seq<byte>)
    ensures |ip| == 16 && ip[..12] == MAPPED ==> MAPPED + ip[12..] == ip
  {
    if |ip| == 16 { assert ip == ip[..12] + ip[12..]; }
  }

  lemma Text4Mark(q: seq<byte>)
    requires |q| == 4
    ensures FirstMark(Text4(q)) == '.'
  {
    MarkAfter(Dec(q[0]), Dotted(q[1..]));
  }

  /**
   ParseIP undoes String: a 16-byte address comes back as it was, a 4-byte one in its
   16-byte form, and the text of anything else is no address.
   */
  lemma TextBack(ip: seq<byte>, s: string)
    requires IsText(ip, s)
    ensures |ip| == 16 ==> ParseIP(s) == Some(ip)
    ensures |ip| == 4 ==> ParseIP(s) == Some(MAPPED + ip)
    ensures |ip| != 4 && |ip| != 16 ==> ParseIP(s) == None
  {
    if ip == [] {
      MarkAfter("<nil>", []);
      assert "<nil>" + [] == "<nil>";
    } else if To4(ip).Some? {
      var q := To4(ip).value;
      Text4Back(q);
      Text4Mark(q);
      MappedBack(ip);
    } else if |ip| != 16 {
      PairsHaveNoMark(ip);
      MarkAfter("?" + HexPairs(ip), []);
      assert ("?" + HexPairs(ip)) + [] == "?" + HexPairs(ip);
    } else {
      var e0: int, e1: int :| IsText6(ip, e0, e1, s);
      Text6Back(ip, e0, e1, s);
    }
  }

  /** There is one such text: the first longest run is unique. */
  lemma TextIsUnique(ip: seq<byte>, s: string, t: string)
    requires IsText(ip, s) && IsText(ip, t)
    ensures s == t
  {
    if |ip| == 16 && To4(ip).None? {
      var a: int, b: int :| IsText6(ip, a, b, s);
      var c: int, d: int :| IsText6(ip, c, d, t);
      ShortensIsUnique(ip, a, b, c, d);
    }
  }

  lemma ShortensIsUnique(p: seq<byte>, a: int, b: int, c: int, d: int)
    requires |p| == 16 && Shortens(p, a, b) && Shortens(p, c, d)
    ensures a == c && b == d
  {
    if a != -1 { assert Run(p, a / 2, a / 2 + (b - a) / 2); }
    if c != -1 { assert Run(p, c / 2, c / 2 + (d - c) / 2); }
  }

  // ----- the loops ----------------------------------------------------

  /** ubtoa: decimal into dst[start..]. */
  method Ubtoa(dst: array<char>, start: nat, v: byte) returns (n: nat)
    requires start + |Dec(v)| <= dst.Length
    modifies dst
    ensures n == |Dec(v)| && dst[start..start + n] == Dec(v) && dst[..start] == old(dst[..start])
  {
    if v < 10 {
      dst[start] := DecChar(v);
      return 1;
    } else if v < 100 {
      dst[start + 1] := DecChar(v % 10);
      dst[start] := DecChar(v / 10);
      return 2;
    }
    dst[start + 2] := DecChar(v % 10);
    dst[start + 1] := DecChar(v / 10 % 10);
    dst[start] := DecChar(v / 100);
    return 3;
  }

  /** A dot and an octet after b[..n]. */
  method PutOctet(b: array<char>, n: nat, v: byte) returns (m: nat)
    requires n + 4 <= b.Length
    modifies b
    ensures n < m <= n + 4 && b[..m] == old(b[..n]) + (['.'] + Dec(v))
  {
    b[n] := '.';
    ghost var head := b[..n];
    var k := Ubtoa(b, n + 1, v);
    m := n + 1 + k;
    assert b[..n + 1] == head + ['.'];
    assert b[..m] == b[..n + 1] + b[n + 1..m];
  }

  /** The dotted form, written into a buffer of 15 bytes. */
  method PrintIPv4(p: seq<byte>) returns (s: string)
    requires |p| == 4
    ensures s == Text4(p)
  {
    var b := new char[15];
    var n := Ubtoa(b, 0, p[0]);
    assert b[..n] == b[0..n];
    n := PutOctet(b, n, p[1]);
    n := PutOctet(b, n, p[2]);
    n := PutOctet(b, n, p[3]);
    FourOctets(p);
    return b[..n];
  }

  lemma FourOctets(p: seq<byte>)
    requires |p| == 4
    ensures Text4(p) == ((Dec(p[0]) + (['.'] + Dec(p[1]))) + (['.'] + Dec(p[2]))) + (['.'] + Dec(p[3]))
  {
    var q, r, t := p[1..], p[2..], p[3..];
    assert q[1..] == r && r[1..] == t && t[1..] == [];
    assert Dotted(t) == ['.'] + (Dec(p[3]) + []);
    assert Dotted(r) == ['.'] + (Dec(p[2]) + Dotted(t));
    assert Dotted(q) == ['.'] + (Dec(p[1]) + Dotted(r));
  }

  /** v shifted right by 4*j bits. */
  function Shr(v: nat, j: nat): nat {
    if j == 0 then v else Shr(v, j - 1) / 16
  }

  /** appendHex: digits from the most significant on, skipping leading zeros. */
  method AppendHex(dst: string, v: nat) returns (r: string)
    requires v < 0x1_0000_0000
    ensures r == dst + Hex(v)
  {
    if v == 0 {
      return dst + ['0'];
    }
    r := dst;
    ShiftedOut(v);
    var j := 8;
    while j > 0
      invariant 0 <= j <= 8
      invariant r == dst + (if Shr(v, j) == 0 then [] else Hex(Shr(v, j)))
    {
      j := j - 1;
      var w := Shr(v, j);
      if w > 0 {
        Snoc(dst, w);
        r := r + [HexChar(w % 16)];
      }
    }
  }

  lemma Snoc(dst: string, w: nat)
    requires w > 0
    ensures (dst + (if w / 16 == 0 then [] else Hex(w / 16))) + [HexChar(w % 16)] == dst + Hex(w)
  {
  }

  lemma ShiftedOut(v: nat)
    requires v < 0x1_0000_0000
    ensures Shr(v, 8) == 0
  {
    assert Shr(v, 2) == Shr(v, 1) / 16 == v / 16 / 16 < 0x100_0000;
    assert Shr(v, 4) == Shr(v, 3) / 16 == Shr(v, 2) / 16 / 16 < 0x1_0000;
    assert Shr(v, 6) == Shr(v, 5) / 16 == Shr(v, 4) / 16 / 16 < 0x100;
    assert Shr(v, 8) == Shr(v, 7) / 16 == Shr(v, 6) / 16 / 16;
  }

  /** `b` and what is still to be printed from index i make up `all`. */
  ghost predicate Printed(p: seq<byte>, e0: int, e1: int, i: nat, b: string, all: string) {
    |p| == 16 && i % 2 == 0 && (e0 >= 0 ==> e0 < e1 && e1 % 2 == 0) && b + PrintFrom(p, e0, e1, i) == all
  }

  /** One turn of the printing loop: what it appends, and where it goes on. */
  lemma PrintStep(p: seq<byte>, e0: int, e1: int, i: nat, at: nat, c: string, b: string, all: string)
    requires Printed(p, e0, e1, i, b, all) && i < 16
    requires at == (if i == e0 then e1 else i) && c == (if i == e0 then "::" else if i > 0 then ":" else "")
    ensures at >= 16 ==> all == b + c
    ensures at < 16 ==> Printed(p, e0, e1, at + 2, (b + c) + Hex(GroupAt(p, at)), all)
  {
    if at < 16 {
      Join4(b, c, Hex(GroupAt(p, at)), PrintFrom(p, e0, e1, at + 2));
    }
  }

  lemma Join4(b: string, c: string, h: string, rest: string)
    ensures b + (c + (h + rest)) == ((b + c) + h) + rest
  {
  }

  /** One turn of the printing loop; i is 16 or more after the last one. */
  method PrintGroup(p: seq<byte>, e0: int, e1: int, i: nat, b: string, ghost all: string) returns (next: nat, b': string)
    requires Printed(p, e0, e1, i, b, all) && i < 16 && (e0 >= 0 ==> e1 <= 16)
    ensures i < next && Printed(p, e0, e1, next, b', all)
  {
    var at: nat, c := i, if i > 0 then ":" else "";
    if i == e0 {
      at, c := e1, "::";
    }
    PrintStep(p, e0, e1, i, at, c, b, all);
    if at >= 16 {
      assert (b + c) + [] == b + c;
      return at, b + c;
    }
    b' := AppendHex(b + c, GroupAt(p, at));
    next := at + 2;
  }

  /** The printing loop of String. */
  method PrintGroups(p: seq<byte>, e0: int, e1: int) returns (b: string)
    requires |p| == 16 && (e0 >= 0 ==> e0 < e1 <= 16 && e1 % 2 == 0)
    ensures b == PrintFrom(p, e0, e1, 0)
  {
    b := [];
    var i: nat := 0;
    ghost var all := PrintFrom(p, e0, e1, 0);
    assert [] + all == all;
    while i < 16
      invariant Printed(p, e0, e1, i, b, all)
      decreases 16 - i
    {
      i, b := PrintGroup(p, e0, e1, i, b, all);
    }
    assert b + [] == b;
  }

  method PrintIPv6(p: seq<byte>, e0: int, e1: int) returns (b: string)
    requires |p| == 16 && (e0 >= 0 ==> e0 < e1 <= 16 && e0 % 2 == 0 && e1 % 2 == 0) && (e0 < 0 ==> e0 == e1 == -1)
    ensures b == if e0 < 0 then Body(p, 0, 16) else Elided(p, e0, e1)
  {
    b := PrintGroups(p, e0, e1);
    if e0 < 0 {
      PrintAll(p);
    } else {
      PrintHead(p, e0, e1, 0);
    }
  }

  /** IP.String. */
  method String(ip: seq<byte>) returns (s: string)
    ensures IsText(ip, s)
  {
    if |ip| == 0 {
      return "<nil>";
    }
    if To4(ip).Some? {
      s := PrintIPv4(To4(ip).value);
      return;
    }
    if |ip| != 16 {
      return "?" + HexPairs(ip);
    }
    var e0, e1 := FindRun(ip);
    s := PrintIPv6(ip, e0, e1);
    assert IsText6(ip, e0, e1, s);
  }

  // ----- the parsers --------------------------------------------------

  method DtoiLoop(s: string) returns (n: int, i: nat, ok: bool)
    ensures (n, i, ok) == Dtoi(s)
  {
    n, i := 0, 0;
    while i < |s| && '0' <= s[i] <= '9'
      invariant i <= |s| && DtoiFrom(s, 0, 0) == DtoiFrom(s, i, n)
    {
      n := n * 10 + (s[i] as int - '0' as int);
      if n >= LIMIT { return LIMIT, i, false; }
      i := i + 1;
    }
    if i == 0 { return 0, 0, false; }
    return n, i, true;
  }

  method XtoiLoop(s: string) returns (n: int, i: nat, ok: bool)
    ensures (n, i, ok) == Xtoi(s)
  {
    n, i := 0, 0;
    while i < |s|
      invariant i <= |s| && XtoiFrom(s, 0, 0) == XtoiFrom(s, i, n)
    {
      if '0' <= s[i] <= '9' {
        n := n * 16 + (s[i] as int - '0' as int);
      } else if 'a' <= s[i] <= 'f' {
        n := n * 16 + (s[i] as int - 'a' as int) + 10;
      } else if 'A' <= s[i] <= 'F' {
        n := n * 16 + (s[i] as int - 'A' as int) + 10;
      } else {
        break;
      }
      if n >= LIMIT { return 0, i, false; }
      i := i + 1;
    }
    if i == 0 { return 0, 0, false; }
    return n, i, true;
  }

  /** parseIPv4, octet by octet into an array. */
  method ParseIPv4Loop(text: string) returns (r: Option<seq<byte>>)
    ensures r == ParseIPv4(text)
  {
    var p := new byte[4];
    var s := text;
    assert p[..0] == [];
    for i := 0 to 4
      invariant Octets(text, []) == Octets(s, p[..i])
    {
      if |s| == 0 { return None; }
      ghost var t := if i > 0 then s[1..] else s;
      if i > 0 {
        if s[0] != '.' { return None; }
        s := s[1..];
      }
      var n, c, ok := DtoiLoop(s);
      if !ok || n < 0 || n > 0xFF { return None; }
      ghost var before := p[..i];
      s := s[c..];
      p[i] := n;
      assert p[..i + 1] == before + [n];
    }
    if |s| != 0 { return None; }
    assert p[..4] == p[..];
    return Some(MAPPED + p[..]);
  }

  /** Moves ip[ell..i] up by n places, the last byte first. */
  method MoveUp(ip: array<byte>, i: nat, ell: nat, n: nat)
    requires ell <= i && i + n <= ip.Length
    modifies ip
    ensures ip[..ell] == old(ip[..ell]) && ip[ell + n..i + n] == old(ip[ell..i])
  {
    ghost var was := ip[..];
    var j: int := i - 1;
    while j >= ell
      invariant ell - 1 <= j <= i - 1
      invariant forall k :: 0 <= k <= j + n ==> ip[k] == was[k]
      invariant forall k :: j + n < k < i + n ==> ip[k] == was[k - n]
    {
      ip[j + n] := ip[j];
      j := j - 1;
    }
    assert ip[ell + n..i + n] == was[ell..i];
  }

  method ZeroOut(ip: array<byte>, ell: nat, n: nat)
    requires ell + n <= ip.Length
    modifies ip
    ensures ip[..ell] == old(ip[..ell]) && ip[ell..ell + n] == Zeros(n) && ip[ell + n..] == old(ip[ell + n..])
  {
    var j: int := ell + n - 1;
    while j >= ell
      invariant ell - 1 <= j <= ell + n - 1
      invariant forall k :: 0 <= k < ell ==> ip[k] == old(ip[k])
      invariant forall k :: j < k < ell + n ==> ip[k] == 0
      invariant forall k :: ell + n <= k < ip.Length ==> ip[k] == old(ip[k])
    {
      ip[j] := 0;
      j := j - 1;
    }
  }

  /** Moves the bytes after the ellipsis to the end and zeroes the gap, in place. */
  method ExpandInPlace(ip: array<byte>, i: nat, ell: nat)
    requires ip.Length == 16 && ell <= i < 16
    modifies ip
    ensures ip[..] == old(ip[..ell]) + Zeros(16 - i) + old(ip[ell..i])
  {
    var n := 16 - i;
    MoveUp(ip, i, ell, n);
    assert ip[ell + n..i + n] == ip[ell + n..];
    ZeroOut(ip, ell, n);
    assert ip[..] == ip[..ell] + ip[ell..ell + n] + ip[ell + n..];
  }

  /** Two bytes after ip[..i]. */
  method PutGroup(ip: array<byte>, i: nat, n: nat)
    requires ip.Length == 16 && i + 2 <= 16 && n <= 0xFFFF
    modifies ip
    ensures ip[..i + 2] == old(ip[..i]) + [n / 256, n % 256]
  {
    ip[i] := n / 256;
    ip[i + 1] := n % 256;
  }

  /** The trailing dotted form after ip[..i]. */
  method PutIPv4(ip: array<byte>, i: nat, q: seq<byte>)
    requires ip.Length == 16 && i + 4 <= 16 && |q| == 16
    modifies ip
    ensures ip[..i + 4] == old(ip[..i]) + q[12..]
  {
    ip[i] := q[12];
    ip[i + 1] := q[13];
    ip[i + 2] := q[14];
    ip[i + 3] := q[15];
  }

  /** Where a turn of the parser's loop leads: failure, the end of the loop, or the next turn. */
  datatype Turn = Fails | Ends | Goes

  /** What the loop returns from here. */
  ghost predicate LeadsTo(turn: Turn, s: string, acc: seq<byte>, ell: int, target: Option<Read6>) {
    match turn
    case Fails => target == None
    case Ends => target == Some((acc, ell, s))
    case Goes => |acc| <= 16 && |acc| % 2 == 0 && ell <= |acc| && target == Groups(s, acc, ell)
  }

  /** What follows a group. */
  method Separator(s: string, ghost acc: seq<byte>, i: nat, ell: int) returns (turn: Turn, s': string, ell': int)
    requires |acc| == i <= 16 && i % 2 == 0 && ell <= i
    ensures LeadsTo(turn, s', acc, ell', AfterGroup(s, acc, ell)) && ell' <= i
  {
    if |s| == 0 { return Ends, s, ell; }
    if s[0] != ':' || |s| == 1 { return Fails, s, ell; }
    s' := s[1..];
    if s'[0] == ':' {
      if ell >= 0 { return Fails, s', ell; }
      s' := s'[1..];
      assert s' == s[2..];
      if |s'| == 0 { return Ends, s', i; }
      return Goes, s', i;
    }
    return Goes, s', ell;
  }

  /** One turn of the loop of parseIPv6. */
  method ReadGroup(ip: array<byte>, s: string, i: nat, ell: int) returns (turn: Turn, s': string, i': nat, ell': int)
    requires ip.Length == 16 && i < 16 && i % 2 == 0 && ell <= i
    modifies ip
    ensures i' <= 16 && ell' <= i' && LeadsTo(turn, s', ip[..i'], ell', old(Groups(s, ip[..i], ell)))
    ensures turn.Goes? ==> i < i' && i' % 2 == 0
  {
    ghost var acc := ip[..i];
    s', i', ell' := s, i, ell;
    var n, c, ok := XtoiLoop(s);
    if !ok || n > 0xFFFF { return Fails, s, i, ell; }
    if c < |s| && s[c] == '.' {
      if ell < 0 && i != 12 { return Fails, s, i, ell; }
      if i + 4 > 16 { return Fails, s, i, ell; }
      var q := ParseIPv4Loop(s);
      if q.None? { return Fails, s, i, ell; }
      PutIPv4(ip, i, q.value);
      return Ends, [], i + 4, ell;
    }
    PutGroup(ip, i, n);
    i' := i + 2;
    turn, s', ell' := Separator(s[c..], ip[..i'], i', ell);
  }

  /** The loop of parseIPv6 and the expansion after it. */
  method ReadGroups(text: string, leading: int) returns (r: Option<seq<byte>>)
    requires leading == 0 || leading == -1
    ensures r == match Groups(text, [], leading)
                 case None => None
                 case Some((acc, ell, rest)) => if rest != [] then None else Expand(acc, ell)
  {
    var ip := new byte[16];
    var s, i: nat, ell := text, 0, leading;
    ghost var target := Groups(text, [], leading);
    assert ip[..0] == [];
    var turn := Goes;
    while i < 16 && turn.Goes?
      invariant turn.Goes? ==> i % 2 == 0
      invariant i <= 16 && ell <= i && LeadsTo(turn, s, ip[..i], ell, target)
      decreases turn.Goes?, 16 - i
    {
      turn, s, i, ell := ReadGroup(ip, s, i, ell);
    }
    if turn.Fails? || |s| != 0 { return None; }
    if i < 16 {
      if ell < 0 { return None; }
      ghost var acc := ip[..i];
      assert acc[..ell] == ip[..ell] && acc[ell..] == ip[ell..i];
      ExpandInPlace(ip, i, ell);
      return Some(ip[..]);
    }
    assert ip[..16] == ip[..];
    return if ell >= 0 then None else Some(ip[..]);
  }

  /** parseIPv6. */
  method ParseIPv6Loop(text: string) returns (r: Option<seq<byte>>)
    ensures r == ParseIPv6(text)
  {
    if |text| >= 2 && text[0] == ':' && text[1] == ':' {
      if |text| == 2 { return Some(Zeros(16)); }
      r := ReadGroups(text[2..], 0);
    } else {
      r := ReadGroups(text, -1);
    }
  }

  /** ParseIP. */
  method ParseIPScan(s: string) returns (r: Option<seq<byte>>)
    ensures r == ParseIP(s)
  {
    assert s[0..] == s;
    for i := 0 to |s|
      invariant FirstMark(s) == FirstMark(s[i..])
    {
      if s[i] == '.' {
        r := ParseIPv4Loop(s);
        return;
      } else if s[i] == ':' {
        r := ParseIPv6Loop(s);
        return;
      }
      assert s[i..][1..] == s[i + 1..];
    }
    return None;
  }
}
