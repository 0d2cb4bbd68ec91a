/** What ParseIP of net/ip.go makes of addresses as others write them. */
module IpSyntax {
  import opened Prelude
  import opened IpText

  // String prints one spelling of an address.  Here addresses are built from the grammar of
  // section 2.2 of RFC 4291, numerals with digits in either case and with leading zeros, and
  // their bytes are read off the parts.

  // ----- numerals -------------------------------------------------------------

  /** A digit and, for a letter, whether it is in upper case. */
  datatype Digit = Digit(d: nat, upper: bool)

  type Numeral = seq<Digit>

  predicate InBase(ds: Numeral, base: nat) {
    ds != [] && forall i :: 0 <= i < |ds| ==> ds[i].d < base
  }

  function DigitSent(g: Digit): char
    requires g.d < 16
  {
    (if g.d < 10 then '0' as int + g.d else (if g.upper then 'A' as int else 'a' as int) + (g.d - 10)) as char
  }

  predicate Legal(ds: Numeral) {
    forall i :: 0 <= i < |ds| ==> ds[i].d < 16
  }

  function Sent(ds: Numeral): string
    requires Legal(ds)
  {
    if ds == [] then [] else [DigitSent(ds[0])] + Sent(ds[1..])
  }

  /** The number that the digits denote after those that make `x`. */
  function Denoted(ds: Numeral, base: nat, x: nat): nat {
    if ds == [] then x else Denoted(ds[1..], base, base * x + ds[0].d)
  }

  predicate Group(ds: Numeral) {
    InBase(ds, 16) && Denoted(ds, 16, 0) <= 0xFFFF
  }

  predicate Octet(ds: Numeral) {
    InBase(ds, 10) && Denoted(ds, 10, 0) <= 0xFF
  }

  lemma {:induction false} DenotedGrows(ds: Numeral, base: nat, x: nat)
    requires base >= 1
    ensures Denoted(ds, base, x) >= x
    decreases |ds|
  {
    if ds != [] {
      assert base * x >= x;
      DenotedGrows(ds[1..], base, base * x + ds[0].d);
    }
  }

  /** xtoi reads the digits of a number below its limit. */
  lemma {:induction false} HexRead(s: string, i: nat, ds: Numeral, x: nat, rest: string)
    requires Legal(ds) && Denoted(ds, 16, x) < 0xFFFFFF && i <= |s| && s[i..] == Sent(ds) + rest
    ensures i + |ds| <= |s| && s[i + |ds|..] == rest
    ensures XtoiFrom(s, i, x) == XtoiFrom(s, i + |ds|, Denoted(ds, 16, x))
    decreases |ds|
  {
    if ds == [] {
      assert Sent(ds) + rest == rest;
    } else {
      Apart(s, i, DigitSent(ds[0]), Sent(ds[1..]), rest);
      assert HexVal(DigitSent(ds[0])) == ds[0].d;
      DenotedGrows(ds[1..], 16, 16 * x + ds[0].d);
      HexRead(s, i + 1, ds[1..], 16 * x + ds[0].d, rest);
    }
  }

  lemma XtoiReadsGroup(ds: Numeral, rest: string)
    requires InBase(ds, 16) && Denoted(ds, 16, 0) < 0xFFFFFF && Stops(rest)
    ensures Xtoi(Sent(ds) + rest) == (Denoted(ds, 16, 0), |ds|, true) && (Sent(ds) + rest)[|ds|..] == rest
  {
    var s := Sent(ds) + rest;
    assert s[0..] == s;
    HexRead(s, 0, ds, 0, rest);
    if rest != [] { assert s[|ds|] == s[|ds|..][0]; } else { assert |s[|ds|..]| == 0; }
  }

  lemma {:induction false} DecRead(s: string, i: nat, ds: Numeral, x: nat, rest: string)
    requires Legal(ds) && (forall k :: 0 <= k < |ds| ==> ds[k].d < 10) && Denoted(ds, 10, x) < 0xFFFFFF
    requires i <= |s| && s[i..] == Sent(ds) + rest
    ensures i + |ds| <= |s| && s[i + |ds|..] == rest
    ensures DtoiFrom(s, i, x) == DtoiFrom(s, i + |ds|, Denoted(ds, 10, x))
    decreases |ds|
  {
    if ds == [] {
      assert Sent(ds) + rest == rest;
    } else {
      Apart(s, i, DigitSent(ds[0]), Sent(ds[1..]), rest);
      DenotedGrows(ds[1..], 10, 10 * x + ds[0].d);
      DecRead(s, i + 1, ds[1..], 10 * x + ds[0].d, rest);
    }
  }

  lemma DtoiReadsOctet(ds: Numeral, rest: string)
    requires Octet(ds) && Legal(ds) && (rest == [] || rest[0] == '.')
    ensures Dtoi(Sent(ds) + rest) == (Denoted(ds, 10, 0) as int, |ds|, true) && (Sent(ds) + rest)[|ds|..] == rest
  {
    var s := Sent(ds) + rest;
    assert s[0..] == s;
    DecRead(s, 0, ds, 0, rest);
    if rest != [] { assert s[|ds|] == s[|ds|..][0]; } else { assert |s[|ds|..]| == 0; }
  }

  /** Decimal digits of a number below 1000, read as hexadecimal, stay below 0x1000. */
  lemma {:induction false} HexOfDecimal(ds: Numeral, x: nat, y: nat)
    requires forall i :: 0 <= i < |ds| ==> ds[i].d < 10
    requires (x == 0 ==> y == 0) && (x < 10 ==> y < 16) && (x < 100 ==> y < 256) && (x < 1000 ==> y < 4096)
    ensures Denoted(ds, 10, x) < 1000 ==> Denoted(ds, 16, y) < 4096
    decreases |ds|
  {
    if ds != [] { HexOfDecimal(ds[1..], 10 * x + ds[0].d, 16 * y + ds[0].d); }
  }

  // ----- dotted decimals ----------------------------------------------------------

  predicate Octets4(os: seq<Numeral>) {
    forall i :: 0 <= i < |os| ==> Octet(os[i]) && Legal(os[i])
  }

  /** The octets with dots between them, and one in front unless they are the first. */
  function Dots(os: seq<Numeral>, first: bool): string
    requires Octets4(os)
  {
    if os == [] then [] else (if first then [] else ['.']) + (Sent(os[0]) + Dots(os[1..], false))
  }

  function OctetBytes(os: seq<Numeral>): (b: seq<byte>)
    requires Octets4(os)
    ensures |b| == |os|
  {
    if os == [] then [] else [Denoted(os[0], 10, 0)] + OctetBytes(os[1..])
  }

  lemma {:induction false} OctetsRead(os: seq<Numeral>, p: seq<byte>)
    requires Octets4(os) && |p| + |os| == 4
    ensures Octets(Dots(os, p == []), p) == Some(p + OctetBytes(os))
    decreases |os|
  {
    if os == [] {
      assert p + OctetBytes(os) == p;
    } else {
      var s, t := Dots(os, p == []), Sent(os[0]) + Dots(os[1..], false);
      assert t == if p == [] then s else s[1..];
      assert os[1..] != [] ==> Dots(os[1..], false)[0] == '.';
      DtoiReadsOctet(os[0], Dots(os[1..], false));
      OctetsRead(os[1..], p + [Denoted(os[0], 10, 0)]);
      Regroup(p, [Denoted(os[0], 10, 0)], OctetBytes(os[1..]));
    }
  }

  lemma QuadReads(os: seq<Numeral>)
    requires Octets4(os) && |os| == 4
    ensures ParseIPv4(Dots(os, true)) == Some(MAPPED + OctetBytes(os))
  {
    OctetsRead(os, []);
    assert [] + OctetBytes(os) == OctetBytes(os);
  }

  // ----- groups -----------------------------------------------------------------

  predicate Groups16(gs: seq<Numeral>) {
    forall i :: 0 <= i < |gs| ==> Group(gs[i]) && Legal(gs[i])
  }

  /** Groups with colons between them. */
  function Join(gs: seq<Numeral>): string
    requires Groups16(gs)
  {
    if gs == [] then [] else if |gs| == 1 then Sent(gs[0]) else Sent(gs[0]) + ([':'] + Join(gs[1..]))
  }

  function GroupBytes2(gs: seq<Numeral>): (b: seq<byte>)
    requires Groups16(gs)
    ensures |b| == 2 * |gs| && |b| % 2 == 0
  {
    if gs == [] then [] else [Denoted(gs[0], 16, 0) / 256, Denoted(gs[0], 16, 0) % 256] + GroupBytes2(gs[1..])
  }

  lemma GroupRead(g: Numeral, rest: string, acc: seq<byte>, ell: int)
    requires Group(g) && Legal(g) && |acc| < 16 && |acc| % 2 == 0 && ell <= |acc| && (rest == [] || rest[0] == ':')
    ensures var v := Denoted(g, 16, 0); Groups(Sent(g) + rest, acc, ell) == AfterGroup(rest, acc + [v / 256, v % 256], ell)
  {
    XtoiReadsGroup(g, rest);
    var s := Sent(g) + rest;
    if rest != [] { assert s[|g|] == s[|g|..][0]; } else { assert |s[|g|..]| == 0; }
  }

  lemma SentStart(g: Numeral, rest: string)
    requires g != [] && Legal(g)
    ensures (Sent(g) + rest) != [] && !Mark((Sent(g) + rest)[0])
  {
    assert (Sent(g) + rest)[0] == DigitSent(g[0]);
  }

  lemma JoinStart(gs: seq<Numeral>, rest: string)
    requires Groups16(gs) && gs != []
    ensures Join(gs) + rest != [] && !Mark((Join(gs) + rest)[0])
  {
    SentStart(gs[0], []);
    assert Sent(gs[0]) + [] == Sent(gs[0]);
    assert (Join(gs) + rest)[0] == Sent(gs[0])[0];
  }

  lemma {:induction false} JoinRead(gs: seq<Numeral>, rest: string, acc: seq<byte>, ell: int)
    requires Groups16(gs) && gs != [] && |acc| + 2 * |gs| <= 16 && |acc| % 2 == 0 && ell <= |acc| && (rest == [] || rest[0] == ':')
    ensures Groups(Join(gs) + rest, acc, ell) == AfterGroup(rest, acc + GroupBytes2(gs), ell)
    decreases |gs|
  {
    var v := Denoted(gs[0], 16, 0);
    var b := [v / 256, v % 256];
    if |gs| == 1 {
      GroupRead(gs[0], rest, acc, ell);
      assert GroupBytes2(gs[1..]) == [] && b + [] == b;
    } else {
      var more := Join(gs[1..]) + rest;
      Cons(Sent(gs[0]), Join(gs[1..]), rest);
      GroupRead(gs[0], [':'] + more, acc, ell);
      JoinStart(gs[1..], rest);
      OneColon(more, acc + b, ell);
      JoinRead(gs[1..], rest, acc + b, ell);
      Regroup(acc, b, GroupBytes2(gs[1..]));
    }
  }

  // ----- addresses -----------------------------------------------------------------

  /** No octets, or four. */
  predicate QuadOk(os: seq<Numeral>) {
    Octets4(os) && (os == [] || |os| == 4)
  }

  /** Groups, and dotted octets at the end if there are any. */
  function Tail(gs: seq<Numeral>, os: seq<Numeral>): string
    requires Groups16(gs) && QuadOk(os)
  {
    if os == [] then Join(gs) else if gs == [] then Dots(os, true) else Join(gs) + ([':'] + Dots(os, true))
  }

  lemma DotsStart(os: seq<Numeral>)
    requires Octets4(os) && |os| == 4
    ensures Dots(os, true) == Sent(os[0]) + (['.'] + (Sent(os[1]) + Dots(os[2..], false))) && !Mark(Dots(os, true)[0])
  {
    assert os[1..][1..] == os[2..] && os[1..][0] == os[1];
    SentStart(os[0], Dots(os[1..], false));
  }

  /** Dotted octets end an address that has room for them; without an ellipsis they must end it exactly. */
  lemma QuadRead(os: seq<Numeral>, acc: seq<byte>, ell: int)
    requires Octets4(os) && |os| == 4 && |acc| <= 12 && |acc| % 2 == 0 && ell <= |acc|
    ensures Groups(Dots(os, true), acc, ell) == if ell < 0 && |acc| != 12 then None else Some((acc + OctetBytes(os), ell, []))
  {
    var s := Dots(os, true);
    var rest := ['.'] + (Sent(os[1]) + Dots(os[2..], false));
    DotsStart(os);
    HexOfDecimal(os[0], 0, 0);
    XtoiReadsGroup(os[0], rest);
    assert s[|os[0]|] == s[|os[0]|..][0] == '.';
    QuadReads(os);
    assert (MAPPED + OctetBytes(os))[12..] == OctetBytes(os);
  }

  lemma GroupsAlone(gs: seq<Numeral>, acc: seq<byte>, ell: int)
    requires Groups16(gs) && gs != [] && |acc| + 2 * |gs| <= 16 && |acc| % 2 == 0 && ell <= |acc|
    ensures Groups(Join(gs), acc, ell) == Some((acc + GroupBytes2(gs), ell, []))
  {
    var none: string := [];
    assert Join(gs) + none == Join(gs);
    JoinRead(gs, none, acc, ell);
  }

  lemma EvenSum(a: seq<byte>, b: seq<byte>)
    requires |a| % 2 == 0 && |b| % 2 == 0
    ensures |a + b| % 2 == 0
  {
  }

  lemma GroupsThenQuad(gs: seq<Numeral>, os: seq<Numeral>, quad: string, acc: seq<byte>, ell: int, mid: seq<byte>)
    requires Groups16(gs) && gs != [] && Octets4(os) && |os| == 4 && quad == Dots(os, true)
    requires |acc| + 2 * |gs| <= 12 && |acc| % 2 == 0 && ell <= |acc| && mid == acc + GroupBytes2(gs) && |mid| % 2 == 0
    ensures Groups(Join(gs) + ([':'] + quad), acc, ell) ==
              if ell < 0 && |mid| != 12 then None else Some((mid + OctetBytes(os), ell, []))
  {
    DotsStart(os);
    JoinRead(gs, [':'] + quad, acc, ell);
    OneColon(quad, mid, ell);
    QuadRead(os, mid, ell);
  }

  lemma TailRead(gs: seq<Numeral>, os: seq<Numeral>, acc: seq<byte>, ell: int)
    requires Groups16(gs) && QuadOk(os) && (gs != [] || os != [])
    requires |acc| + 2 * |gs| + |os| <= 16 && |acc| % 2 == 0 && ell <= |acc|
    ensures Groups(Tail(gs, os), acc, ell) ==
              if os != [] && ell < 0 && |acc| + 2 * |gs| != 12 then None
              else Some((acc + (GroupBytes2(gs) + OctetBytes(os)), ell, []))
  {
    Regroup(acc, GroupBytes2(gs), OctetBytes(os));
    if os == [] {
      GroupsAlone(gs, acc, ell);
      assert GroupBytes2(gs) + [] == GroupBytes2(gs);
    } else if gs == [] {
      QuadRead(os, acc, ell);
      assert [] + OctetBytes(os) == OctetBytes(os);
    } else {
      EvenSum(acc, GroupBytes2(gs));
      GroupsThenQuad(gs, os, Dots(os, true), acc, ell, acc + GroupBytes2(gs));
    }
  }

  /** A double colon between the groups before it and what follows. */
  function Elided(front: seq<Numeral>, back: seq<Numeral>, os: seq<Numeral>): string
    requires Groups16(front) && Groups16(back) && QuadOk(os)
  {
    Join(front) + ([':', ':'] + Tail(back, os))
  }

  lemma TailStart(gs: seq<Numeral>, os: seq<Numeral>)
    requires Groups16(gs) && QuadOk(os)
    ensures gs == [] && os == [] ==> Tail(gs, os) == []
    ensures gs != [] || os != [] ==> Tail(gs, os) != [] && !Mark(Tail(gs, os)[0])
  {
    if gs != [] {
      JoinStart(gs, if os == [] then [] else [':'] + Dots(os, true));
      assert Join(gs) + [] == Join(gs);
    } else if os != [] {
      DotsStart(os);
    }
  }

  /** What follows a double colon. */
  lemma BackRead(back: seq<Numeral>, os: seq<Numeral>, f: seq<byte>, b: seq<byte>)
    requires Groups16(back) && QuadOk(os) && |f| % 2 == 0 && |f| + |b| <= 16 && b == GroupBytes2(back) + OctetBytes(os)
    ensures var tail := Tail(back, os);
            if tail == [] then f + b == f else Groups(tail, f, |f|) == Some((f + b, |f|, []))
  {
    TailStart(back, os);
    if back != [] || os != [] {
      TailRead(back, os, f, |f|);
    } else {
      assert b == [];
    }
  }

  lemma FrontRead(front: seq<Numeral>, s: string, t: string, tail: string, f: seq<byte>, all: seq<byte>)
    requires Groups16(front) && front != [] && |f| <= |all| <= 16 && f == GroupBytes2(front)
    requires t == [':', ':'] + tail && s == Join(front) + t
    requires if tail == [] then all == f else Groups(tail, f, |f|) == Some((all, |f|, []))
    ensures ParseIPv6(s) == Expand(all, |f|)
  {
    JoinStart(front, t);
    JoinRead(front, t, [], -1);
    assert [] + f == f;
    InnerRead(s, tail, f, all);
  }

  lemma NoFront(s: string, front: seq<Numeral>, tail: string, f: seq<byte>, all: seq<byte>)
    requires front == [] && Groups16(front) && |f| == 0 && |all| <= 16 && s == Join(front) + ([':', ':'] + tail)
    requires if tail == [] then all == f else Groups(tail, f, |f|) == Some((all, |f|, []))
    ensures ParseIPv6(s) == Expand(all, |f|)
  {
    assert f == [] && s == [':', ':'] + tail;
    LeadingRead(tail, all);
  }

  /** The groups before a double colon, the double colon, and the rest. */
  lemma ElidedRead(front: seq<Numeral>, back: seq<Numeral>, os: seq<Numeral>, s: string)
    requires Groups16(front) && Groups16(back) && QuadOk(os) && 2 * |front| + 2 * |back| + |os| <= 16
    requires s == Elided(front, back, os)
    ensures ParseIPv6(s) == ElidedMeant(GroupBytes2(front), GroupBytes2(back) + OctetBytes(os))
  {
    BackRead(back, os, GroupBytes2(front), GroupBytes2(back) + OctetBytes(os));
    ElidedFrom(front, s, Tail(back, os), GroupBytes2(front), GroupBytes2(back) + OctetBytes(os));
  }

  /** The bytes before, zeros, and the bytes after; there must be room for a zero group. */
  function ElidedMeant(f: seq<byte>, b: seq<byte>): Option<seq<byte>> {
    if |f| + |b| >= 16 then None else Some(f + (Zeros(16 - |f| - |b|) + b))
  }

  lemma ElidedFrom(front: seq<Numeral>, s: string, tail: string, f: seq<byte>, b: seq<byte>)
    requires Groups16(front) && f == GroupBytes2(front) && |f| + |b| <= 16 && s == Join(front) + ([':', ':'] + tail)
    requires if tail == [] then f + b == f else Groups(tail, f, |f|) == Some((f + b, |f|, []))
    ensures ParseIPv6(s) == ElidedMeant(f, b)
  {
    ExpandIs(f, b);
    if front == [] {
      NoFront(s, front, tail, f, f + b);
    } else {
      FrontRead(front, s, [':', ':'] + tail, tail, f, f + b);
    }
  }

  lemma ExpandIs(f: seq<byte>, b: seq<byte>)
    requires |f| + |b| <= 16
    ensures Expand(f + b, |f|) == if |f| + |b| == 16 then None else Some(f + (Zeros(16 - |f| - |b|) + b))
  {
    assert (f + b)[..|f|] == f && (f + b)[|f|..] == b;
    if |f| + |b| < 16 { Regroup(f, Zeros(16 - |f| - |b|), b); }
  }

  lemma LeadingRead(tail: string, all: seq<byte>)
    requires |all| <= 16 && (if tail == [] then all == [] else Groups(tail, [], 0) == Some((all, 0, [])))
    ensures ParseIPv6([':', ':'] + tail) == Expand(all, 0)
  {
    var s := [':', ':'] + tail;
    assert s[0] == ':' && s[1] == ':' && s[2..] == tail;
    if tail == [] { assert all[..0] + Zeros(16) + all[0..] == Zeros(16); }
  }

  lemma InnerRead(s: string, tail: string, f: seq<byte>, all: seq<byte>)
    requires s != [] && s[0] != ':' && |f| <= 16 && |f| % 2 == 0 && |f| <= |all| <= 16
    requires Groups(s, [], -1) == AfterGroup([':', ':'] + tail, f, -1)
    requires if tail == [] then all == f else Groups(tail, f, |f|) == Some((all, |f|, []))
    ensures ParseIPv6(s) == Expand(all, |f|)
  {
    var t := [':', ':'] + tail;
    assert t[0] == ':' && t[1] == ':' && t[2..] == tail;
  }

  /** No double colon: the groups and the octets must make up the whole address. */
  lemma FullRead(gs: seq<Numeral>, os: seq<Numeral>)
    requires Groups16(gs) && QuadOk(os) && gs != [] && 2 * |gs| + |os| <= 16
    ensures ParseIPv6(Tail(gs, os)) == if 2 * |gs| + |os| == 16 then Some(GroupBytes2(gs) + OctetBytes(os)) else None
  {
    TailStart(gs, os);
    TailRead(gs, os, [], -1);
    assert [] + (GroupBytes2(gs) + OctetBytes(os)) == GroupBytes2(gs) + OctetBytes(os);
  }

  // ----- which parser -------------------------------------------------------------

  lemma {:induction false} SentHasNoMark(ds: Numeral)
    requires Legal(ds)
    ensures NoMark(Sent(ds))
    decreases |ds|
  {
    if ds != [] {
      SentHasNoMark(ds[1..]);
      assert !Mark(DigitSent(ds[0]));
    }
  }

  lemma MarkAfterDigits(ds: Numeral, rest: string)
    requires Legal(ds)
    ensures FirstMark(Sent(ds) + rest) == FirstMark(rest)
  {
    SentHasNoMark(ds);
    MarkAfter(Sent(ds), rest);
  }

  lemma ColonFirst(gs: seq<Numeral>, rest: string)
    requires Groups16(gs) && gs != [] && (rest == [] || rest[0] == ':')
    ensures FirstMark(Join(gs) + rest) == if |gs| == 1 && rest == [] then ' ' else ':'
  {
    if |gs| == 1 {
      MarkAfterDigits(gs[0], rest);
    } else {
      Cons(Sent(gs[0]), Join(gs[1..]), rest);
      MarkAfterDigits(gs[0], [':'] + (Join(gs[1..]) + rest));
    }
  }

  /**
   ParseIP of an address with a double colon: the groups before it, zeros, and what follows it,
   the last four bytes perhaps as dotted octets; there must be room for a zero group.
   */
  lemma ElidedReads(front: seq<Numeral>, back: seq<Numeral>, os: seq<Numeral>)
    requires Groups16(front) && Groups16(back) && QuadOk(os) && 2 * |front| + 2 * |back| + |os| <= 16
    ensures ParseIP(Elided(front, back, os)) == ElidedMeant(GroupBytes2(front), GroupBytes2(back) + OctetBytes(os))
  {
    ElidedRead(front, back, os, Elided(front, back, os));
    var t := [':', ':'] + Tail(back, os);
    if front == [] {
      assert Join(front) + t == t;
    } else {
      ColonFirst(front, t);
    }
  }

  /** ParseIP of an address without one: sixteen bytes in groups, or twelve and four dotted octets. */
  lemma FullReads(gs: seq<Numeral>, os: seq<Numeral>)
    requires Groups16(gs) && QuadOk(os) && gs != [] && 2 * |gs| + |os| <= 16
    ensures ParseIP(Tail(gs, os)) == if 2 * |gs| + |os| == 16 then Some(GroupBytes2(gs) + OctetBytes(os)) else None
  {
    FullRead(gs, os);
    ColonFirst(gs, if os == [] then [] else [':'] + Dots(os, true));
    assert Join(gs) + [] == Join(gs);
  }

  /** ParseIP of four dotted octets, in the 16-byte form. */
  lemma DottedReads(os: seq<Numeral>)
    requires Octets4(os) && |os| == 4
    ensures ParseIP(Dots(os, true)) == Some([0, 0, 0, 0, 0, 0, 0, 0, 0, 0, 0xFF, 0xFF] + OctetBytes(os))
  {
    QuadReads(os);
    DotsStart(os);
    MarkAfterDigits(os[0], ['.'] + (Sent(os[1]) + Dots(os[2..], false)));
  }

  /** String prints lower-case digits. */
  lemma HexCharIs(d: nat)
    requires d < 16
    ensures HexChar(d) == "0123456789abcdef"[d]
  {
  }
}
