/** The policy of net/addrselect.go read off the bits of an address. */
module AddrPolicy {
  import opened Prelude
  import opened AddrOrder

  // AddrOrder proves what any such table and any such attributes give.  Here the attributes
  // themselves are pinned: for every address the entry that classifies it, its precedence, its
  // label and its scope follow from its leading bytes, and so the order does.

  predicate Six(ip: Ip) {
    |ip| == 16 && To4(ip).None?
  }

  // ----- ranges ---------------------------------------------------------------

  /** The range of the entry with that label; the label tells the entries of section 2.1 of RFC 6724 apart. */
  predicate InRange(tag: nat, ip: Ip)
    requires |ip| == 16
  {
    match tag
    case 0 => (forall i :: 0 <= i < 15 ==> ip[i] == 0) && ip[15] == 1        // ::1
    case 3 => forall i :: 0 <= i < 12 ==> ip[i] == 0                         // ::/96
    case 5 => ip[0] == 0x20 && ip[1] == 0x01 && ip[2] == 0 && ip[3] == 0     // 2001::/32
    case 2 => ip[0] == 0x20 && ip[1] == 0x02                                 // 2002::/16
    case 12 => ip[0] == 0x3f && ip[1] == 0xfe                                // 3ffe::/16
    case 11 => ip[0] == 0xfe && 0xc0 <= ip[1]                                // fec0::/10
    case 13 => 0xfc <= ip[0] <= 0xfd                                         // fc00::/7
    case _ => true
  }

  /** The label of an IPv6 address: the longest range that holds it. */
  function LabelOfSix(ip: Ip): nat
    requires |ip| == 16
  {
    if InRange(0, ip) then 0 else if InRange(3, ip) then 3 else if InRange(5, ip) then 5
    else if InRange(2, ip) then 2 else if InRange(12, ip) then 12 else if InRange(11, ip) then 11
    else if InRange(13, ip) then 13 else 1
  }

  function PrecedenceOf(tag: nat): nat {
    if tag == 0 then 50 else if tag == 1 then 40 else if tag == 4 then 35 else if tag == 2 then 30
    else if tag == 5 then 5 else if tag == 13 then 3 else 1
  }

  lemma UnderFull(x: bv8, y: bv8)
    ensures Same(x, y, 0xff) <==> x == y
    ensures Same(x, y, 0)
  {
  }

  lemma UnderSeven(y: bv8)
    ensures Same(0xfc, y, 0xfe) <==> 0xfc <= y <= 0xfd
  {
  }

  lemma UnderTwo(y: bv8)
    ensures Same(0xc0, y, 0xc0) <==> 0xc0 <= y
  {
  }

  /** Whole bytes of a prefix are equal, and the rest of it agrees under the last mask byte. */
  lemma PrefixBytes(net: Ip, ip: Ip, k: nat, r: nat)
    requires |net| == |ip| == 16 && r < 8 && 8 * k + r <= 128
    ensures SameUnder(net, ip, Mask(8 * k + r)) <==> Starts(net, ip, k, r)
  {
    var m := Mask(8 * k + r);
    forall i | 0 <= i < 16
      ensures Same(net[i], ip[i], m[i]) <==>
                if i < k then net[i] == ip[i] else i == k && r > 0 ==> Same(net[k], ip[k], MaskByte(r))
    {
      UnderFull(net[i], ip[i]);
    }
  }

  lemma ContainsSix(net: Ip, n: nat, ip: Ip)
    requires Six(net) && Six(ip)
    ensures Contains(Net(net, Mask(n)), ip) <==> SameUnder(net, ip, Mask(n))
  {
  }

  /** An entry's network in bytes. */
  function NetOfTag(tag: nat): Ip {
    if tag == 0 then LOOPBACK
    else if tag == 2 then V6(0x20, 0x02) else if tag == 5 then V6(0x20, 0x01) else if tag == 13 then V6(0xfc, 0x00)
    else if tag == 11 then V6(0xfe, 0xc0) else if tag == 12 then V6(0x3f, 0xfe) else V6(0, 0)
  }

  predicate SixTag(tag: nat) {
    tag in {0, 1, 2, 3, 5, 11, 12, 13}
  }

  lemma EntryIs(tag: nat)
    requires SixTag(tag)
    ensures EntryOfTag(tag) == Entry(Net(NetOfTag(tag), Mask(LengthOfTag(tag))), PrecedenceOf(tag), tag)
    ensures EntryOfTag(tag) in Policy() && Six(NetOfTag(tag))
  {
    NotMapped(NetOfTag(tag));
    var p := Policy();
    assert p[0] in p && p[1] in p && p[3] in p && p[4] in p && p[5] in p && p[6] in p && p[7] in p && p[8] in p;
  }

  /** Membership in a prefix of k bytes and r bits. */
  ghost predicate Starts(net: Ip, ip: Ip, k: nat, r: nat)
    requires |net| == |ip| == 16 && r < 8 && 8 * k + r <= 128
  {
    (forall i :: 0 <= i < k ==> net[i] == ip[i]) && (r > 0 ==> Same(net[k], ip[k], MaskByte(r)))
  }

  lemma LongRange(ip: Ip)
    requires |ip| == 16
    ensures Starts(LOOPBACK, ip, 16, 0) <==> InRange(0, ip)
    ensures Starts(V6(0, 0), ip, 12, 0) <==> InRange(3, ip)
  {
    if InRange(0, ip) {
      assert forall i :: 0 <= i < 16 ==> LOOPBACK[i] == ip[i];
    }
    if Starts(LOOPBACK, ip, 16, 0) {
      assert forall i :: 0 <= i < 15 ==> LOOPBACK[i] == 0;
    }
    assert forall i :: 0 <= i < 12 ==> V6(0, 0)[i] == 0;
  }

  lemma WholeRange(a: bv8, b: bv8, ip: Ip)
    requires |ip| == 16
    ensures Starts(V6(a, b), ip, 2, 0) <==> ip[0] == a && ip[1] == b
    ensures Starts(V6(a, b), ip, 4, 0) <==> ip[0] == a && ip[1] == b && ip[2] == 0 && ip[3] == 0
    ensures Starts(V6(a, b), ip, 0, 0)
  {
    var n := V6(a, b);
    assert n[2] == 0 && n[3] == 0;
  }

  lemma BitRange(ip: Ip)
    requires |ip| == 16
    ensures Starts(V6(0xfe, 0xc0), ip, 1, 2) <==> InRange(11, ip)
    ensures Starts(V6(0xfc, 0x00), ip, 0, 7) <==> InRange(13, ip)
  {
    UnderSeven(ip[0]);
    UnderTwo(ip[1]);
  }

  lemma StartsInRange(tag: nat, ip: Ip)
    requires SixTag(tag) && |ip| == 16
    ensures Starts(NetOfTag(tag), ip, LengthOfTag(tag) / 8, LengthOfTag(tag) % 8) <==> InRange(tag, ip)
  {
    if tag == 0 || tag == 3 {
      LongRange(ip);
    } else if tag == 11 || tag == 13 {
      BitRange(ip);
    } else {
      WholeRange(NetOfTag(tag)[0], NetOfTag(tag)[1], ip);
    }
  }

  lemma HoldsStarts(net: Ip, n: nat, k: nat, r: nat, ip: Ip)
    requires Six(net) && Six(ip) && n == 8 * k + r <= 128 && r < 8
    ensures Contains(Net(net, Mask(n)), ip) <==> Starts(net, ip, k, r)
  {
    ContainsSix(net, n, ip);
    PrefixBytes(net, ip, k, r);
  }

  /** An entry holds exactly the IPv6 addresses of its range. */
  lemma RangeIs(tag: nat, p: Net, ip: Ip)
    requires SixTag(tag) && Six(ip) && Six(NetOfTag(tag)) && p == Net(NetOfTag(tag), Mask(LengthOfTag(tag)))
    ensures Contains(p, ip) <==> InRange(tag, ip)
  {
    HoldsStarts(NetOfTag(tag), LengthOfTag(tag), LengthOfTag(tag) / 8, LengthOfTag(tag) % 8, ip);
    StartsInRange(tag, ip);
  }

  // ----- the entry ------------------------------------------------------------------

  /** No range at least as long as the longest one, but that one, holds the address. */
  lemma LongestRange(tag: nat, ip: Ip)
    requires SixTag(tag) && Six(ip) && InRange(tag, ip)
    requires LengthOfTag(tag) >= LengthOfTag(LabelOfSix(ip))
    ensures tag == LabelOfSix(ip)
  {
  }

  lemma LabelHolds(ip: Ip)
    requires |ip| == 16
    ensures SixTag(LabelOfSix(ip)) && InRange(LabelOfSix(ip), ip)
  {
  }

  /** The entry that classifies an IPv6 address. */
  lemma ClassifiesSix(t: seq<Entry>, ip: Ip)
    requires Table(t) && Six(ip)
    ensures FirstMatch(t, ip).precedence == PrecedenceOf(LabelOfSix(ip)) && FirstMatch(t, ip).tag == LabelOfSix(ip)
  {
    var x := BestEntry(t, ip);
    var e := FirstMatch(t, ip);
    FirstMatchIsMember(t, ip);
    FirstMatchIsLongest(t, ip, x);
    InTable(t, e);
    EntryHolds(e, ip);
    LongestRange(e.tag, ip);
  }

  /** The entry of the longest range is in the table and holds the address. */
  lemma BestEntry(t: seq<Entry>, ip: Ip) returns (x: Entry)
    requires Table(t) && Six(ip)
    ensures x in t && Contains(x.prefix, ip) && Ones(x) == LengthOfTag(LabelOfSix(ip))
  {
    var tag := LabelOfSix(ip);
    x := EntryOfTag(tag);
    LabelHolds(ip);
    EntryIs(tag);
    RangeIs(tag, x.prefix, ip);
    InTable(t, x);
    OnesOf(x, LengthOfTag(tag));
  }

  /** An entry of the policy that holds an IPv6 address. */
  lemma EntryHolds(e: Entry, ip: Ip)
    requires e in Policy() && Contains(e.prefix, ip) && Six(ip)
    ensures SixTag(e.tag) && InRange(e.tag, ip) && Ones(e) == LengthOfTag(e.tag) && e.precedence == PrecedenceOf(e.tag)
  {
    SixEntry(e, ip);
    EntryIs(e.tag);
    RangeIs(e.tag, e.prefix, ip);
    OnesOf(e, LengthOfTag(e.tag));
  }

  /** An entry that holds an IPv6 address is one of the eight. */
  lemma SixEntry(e: Entry, ip: Ip)
    requires e in Policy() && Contains(e.prefix, ip) && Six(ip)
    ensures SixTag(e.tag) && e == EntryOfTag(e.tag)
  {
    KnowByTag(e);
    FamilyOfEntry(e, ip);
  }

  /** IPv4 addresses have precedence 35 and label 4. */
  lemma ClassifiesFour(t: seq<Entry>, ip: Ip)
    requires Table(t) && To4(ip).Some?
    ensures FirstMatch(t, ip).precedence == 35 && FirstMatch(t, ip).tag == 4
  {
    PrecedenceTellsFamily(t, ip);
    FirstMatchIsMember(t, ip);
    var e := FirstMatch(t, ip);
    assert e != NO_ENTRY;
    InTable(t, e);
    KnowByTag(e);
  }

  /** What is no address has the zero entry. */
  lemma ClassifiesNone(t: seq<Entry>, ip: Ip)
    requires Table(t) && To4(ip).None? && |ip| != 16
    ensures FirstMatch(t, ip) == NO_ENTRY
  {
    FirstMatchIsMember(t, ip);
    if x :| x in t && Contains(x.prefix, ip) {
      InTable(t, x);
      NoEntryHolds(x, ip);
    }
  }

  lemma NoEntryHolds(x: Entry, ip: Ip)
    requires x in Policy() && To4(ip).None? && |ip| != 16
    ensures !Contains(x.prefix, ip)
  {
    if Contains(x.prefix, ip) {
      FamilyOfEntry(x, ip);
      SixPrefix(x);
      NotMapped(x.prefix.ip);
    }
  }

  // ----- scopes -----------------------------------------------------------------------

  /** The scope of section 3.1 of RFC 6724, without multicast scopes for IPv4. */
  function ScopeByBits(ip: Ip): int {
    if To4(ip).Some? then
      var q := To4(ip).value;
      if |q| == 4 && (q[0] == 127 || (q[0] == 169 && q[1] == 254)) then 2 else 14
    else if |ip| != 16 then 14
    else if InRange(0, ip) then 2
    else if ip[0] == 0xfe && 0x80 <= ip[1] < 0xc0 then 2
    else if ip[0] == 0xff then (ip[1] % 16) as int
    else if ip[0] == 0xfe && 0xc0 <= ip[1] then 5
    else 14
  }

  lemma ScopeBits(y: bv8)
    ensures y & 0xc0 == 0x80 <==> 0x80 <= y < 0xc0
    ensures y & 0xc0 == 0xc0 <==> 0xc0 <= y
    ensures y & 0xf == y % 16
  {
  }

  lemma ScopeIs(ip: Ip)
    ensures ClassifyScope(ip) == ScopeByBits(ip)
  {
    if Six(ip) {
      ScopeBits(ip[1]);
      assert InRange(0, ip) <==> ip == LOOPBACK by { LoopbackIs(ip); }
    }
  }

  lemma LoopbackIs(ip: Ip)
    requires |ip| == 16
    ensures InRange(0, ip) <==> ip == LOOPBACK
  {
    if InRange(0, ip) {
      assert forall i :: 0 <= i < 16 ==> ip[i] == LOOPBACK[i];
    }
  }

  // ----- the order --------------------------------------------------------------------

  /** All the attributes of an address by its bytes. */
  function AttrByBits(ip: Option<Ip>): Attr {
    match ip
    case None => Attr(0, 0, 0)
    case Some(x) =>
      var (p, l) := if To4(x).Some? then (35, 4) else if |x| != 16 then (0, 0) else (PrecedenceOf(LabelOfSix(x)), LabelOfSix(x));
      Attr(ScopeByBits(x), p, l)
  }

  lemma AttrIs(t: seq<Entry>, ip: Option<Ip>)
    requires Table(t)
    ensures AttrOf(t, ip) == AttrByBits(ip)
  {
    if ip.Some? {
      var x := ip.value;
      ScopeIs(x);
      if To4(x).Some? {
        ClassifiesFour(t, x);
      } else if |x| != 16 {
        ClassifiesNone(t, x);
      } else {
        ClassifiesSix(t, x);
      }
    }
  }

  /** A rated row has the attributes of its bytes. */
  lemma RatedByBits(t: seq<Entry>, c: Cand)
    requires Table(t) && Rated(t, c)
    ensures c.addrAttr == AttrByBits(c.addr) && c.srcAttr == AttrByBits(c.src)
  {
    AttrIs(t, c.addr);
    AttrIs(t, c.src);
  }

  /** Both rows match their sources in scope, or both do not. */
  predicate SameScopes(a: Cand, b: Cand) {
    (a.addrAttr.scope == a.srcAttr.scope) <==> (b.addrAttr.scope == b.srcAttr.scope)
  }

  /** Rules 2 and 5 do not decide: both rows match their sources in scope and label, or both do not. */
  predicate Alike(a: Cand, b: Cand) {
    && SameScopes(a, b)
    && ((a.addrAttr.tag == a.srcAttr.tag) <==> (b.addrAttr.tag == b.srcAttr.tag))
  }

  /**
   Between reachable destinations that rules 2 and 5 do not tell apart, IPv6 comes before IPv4
   for the loopback address and for all addresses outside the special ranges, and after it for
   6to4, Teredo, unique local, site-local, IPv4-compatible and 6bone addresses.
   */
  lemma SixAgainstFour(t: seq<Entry>, a: Cand, b: Cand)
    requires Table(t) && Rated(t, a) && Rated(t, b) && a.src.Some? && b.src.Some? && Alike(a, b)
    requires a.addr.Some? && Six(a.addr.value) && b.addr.Some? && To4(b.addr.value).Some?
    ensures var tag := LabelOfSix(a.addr.value);
            && (Less(a, b) <==> tag == 0 || tag == 1)
            && (Less(b, a) <==> tag == 2 || tag == 3 || tag == 5 || tag == 11 || tag == 12 || tag == 13)
  {
    RatedByBits(t, a);
    RatedByBits(t, b);
    LabelHolds(a.addr.value);
  }

  /**
   Between two such IPv6 destinations the higher precedence of their ranges decides, then the
   smaller scope, then the longer common prefix with the source.
   */
  lemma SixAgainstSix(t: seq<Entry>, a: Cand, b: Cand)
    requires Table(t) && Rated(t, a) && Rated(t, b) && a.src.Some? && b.src.Some? && Alike(a, b)
    requires a.addr.Some? && Six(a.addr.value) && b.addr.Some? && Six(b.addr.value)
    ensures var x, y := a.addr.value, b.addr.value;
            var p, q := PrecedenceOf(LabelOfSix(x)), PrecedenceOf(LabelOfSix(y));
            Less(a, b) <==>
              || p > q
              || (p == q && ScopeByBits(x) < ScopeByBits(y))
              || (p == q && ScopeByBits(x) == ScopeByBits(y) && CommonPrefix(a.src.value, x) > CommonPrefix(b.src.value, y))
  {
    RatedByBits(t, a);
    RatedByBits(t, b);
  }

  /**
   The first three rules: a reachable destination comes before an unreachable one, then one
   whose source has its scope, then one whose source has its label.
   */
  lemma FirstRules(a: Cand, b: Cand)
    ensures a.src.Some? && b.src.None? ==> Less(a, b) && !Less(b, a)
    ensures a.src.None? && b.src.None? ==> !Less(a, b)
    ensures a.src.Some? && b.src.Some? && a.addrAttr.scope == a.srcAttr.scope && b.addrAttr.scope != b.srcAttr.scope ==>
              Less(a, b) && !Less(b, a)
    ensures a.src.Some? && b.src.Some? && SameScopes(a, b) && a.addrAttr.tag == a.srcAttr.tag && b.addrAttr.tag != b.srcAttr.tag ==>
              Less(a, b) && !Less(b, a)
  {
  }
}
