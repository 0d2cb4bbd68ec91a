/**
 * Ordering of destination addresses by the rules of RFC 6724
 * (net/addrselect.go), over the address predicates of net/ip.go.
 */
module AddrOrder {
  import opened Prelude

  /** An address as the program holds it: any byte slice, normally of 4 or 16 bytes. */
  type Ip = seq<bv8>

  datatype Net = Net(ip: Ip, mask: seq<bv8>)
  datatype Entry = Entry(prefix: Net, precedence: nat, tag: nat)
  datatype Attr = Attr(scope: int, precedence: nat, tag: nat)

  // ----- bits ---------------------------------------------------------

  function TopBit(k: nat): bv8
    requires k < 8
  {
    if k == 0 then 0x80 else if k == 1 then 0x40 else if k == 2 then 0x20 else if k == 3 then 0x10
    else if k == 4 then 0x08 else if k == 5 then 0x04 else if k == 6 then 0x02 else 0x01
  }

  /** Bit `k` of a byte, the most significant first. */
  predicate Bit(x: bv8, k: nat)
    requires k < 8
  {
    x & TopBit(k) != 0
  }

  /** Bit `k` of an address, the leftmost first. */
  predicate BitOf(ip: Ip, k: nat)
    requires k < 8 * |ip|
  {
    Bit(ip[k / 8], k % 8)
  }

  /** The first `n` bits of the two addresses are the same. */
  ghost predicate Agree(a: Ip, b: Ip, n: nat)
    requires n <= 8 * |a| && n <= 8 * |b|
  {
    forall k: nat {:trigger BitOf(a, k)} {:trigger BitOf(b, k)} :: k < n ==> BitOf(a, k) == BitOf(b, k)
  }

  function MaskByte(n: int): bv8 {
    if n <= 0 then 0 else if n == 1 then 0x80 else if n == 2 then 0xc0 else if n == 3 then 0xe0
    else if n == 4 then 0xf0 else if n == 5 then 0xf8 else if n == 6 then 0xfc else if n == 7 then 0xfe
    else 0xff
  }

  /** The mask of `ones` one bits over 16 bytes. */
  function Mask(ones: nat): (m: seq<bv8>)
    ensures |m| == 16
    ensures forall i :: 0 <= i < 16 ==> m[i] == MaskByte(ones - 8 * i)
  {
    seq(16, (i: nat) => MaskByte(ones - 8 * i))
  }

  /** CIDRMask: `ones` one bits and then zeros, for the two lengths of addresses; None is nil. */
  method CidrMask(ones: int, bits: int) returns (m: Option<seq<bv8>>)
    ensures m == None <==> (bits != 32 && bits != 128) || ones < 0 || ones > bits
    ensures m.Some? ==> 8 * |m.value| == bits && (forall k: nat :: k < 8 * |m.value| ==> (BitOf(m.value, k) <==> k < ones))
    ensures m.Some? && bits == 128 ==> m.value == Mask(ones)
  {
    if bits != 32 && bits != 128 { return None; }
    if ones < 0 || ones > bits { return None; }
    var l := bits / 8;
    var b: seq<bv8> := [];
    var n := ones;
    for i := 0 to l
      invariant |b| == i
      invariant n == Max(0, ones - 8 * i)
      invariant forall j :: 0 <= j < i ==> b[j] == MaskByte(ones - 8 * j)
    {
      if n >= 8 {
        b := b + [0xff];
        n := n - 8;
      } else {
        ShiftedMask(n);
        b := b + [!((0xff as bv8) >> n)];
        n := 0;
      }
    }
    forall k: nat | k < 8 * l ensures BitOf(b, k) <==> k < ones {
      MaskByteBits(ones - 8 * (k / 8), k % 8);
    }
    return Some(b);
  }

  lemma MaskByteBits(n: int, j: nat)
    requires j < 8
    ensures Bit(MaskByte(n), j) <==> j < n
  {
    if n > 0 && n < 8 {
      if j == 0 {} else if j == 1 {} else if j == 2 {} else if j == 3 {} else if j == 4 {} else if j == 5 {} else if j == 6 {} else {}
    }
  }

  lemma ShiftedMask(n: nat)
    requires n < 8
    ensures !((0xff as bv8) >> n) == MaskByte(n)
  {
    if n == 0 {} else if n == 1 {} else if n == 2 {} else if n == 3 {} else if n == 4 {} else if n == 5 {} else if n == 6 {} else { assert n == 7; }
  }

  /** The two bytes agree under the mask. */
  predicate Same(x: bv8, y: bv8, m: bv8) {
    x & m == y & m
  }

  /** Bytes agree under the mask of `n` ones exactly when their first `n` bits do. */
  lemma MaskedBits(x: bv8, y: bv8, n: int)
    ensures Same(x, y, MaskByte(n)) <==> (forall j: nat {:trigger Bit(x, j)} :: j < 8 && j < n ==> Bit(x, j) == Bit(y, j))
  {
    if forall j: nat {:trigger Bit(x, j)} :: j < 8 && j < n ==> Bit(x, j) == Bit(y, j) {
      forall j: nat | j < 8 && j < n
        ensures Same(x, y, TopBit(j))
      {
        assert Bit(x, j) == Bit(y, j);
        SameBit(x, y, j);
      }
      SameUnderMask(x, y, n);
    }
    if Same(x, y, MaskByte(n)) {
      forall j: nat | j < 8 && j < n
        ensures Bit(x, j) == Bit(y, j)
      {
        UnderMask(x, y, n, j);
      }
    }
  }

  lemma SameBit(x: bv8, y: bv8, j: nat)
    requires j < 8 && Bit(x, j) == Bit(y, j)
    ensures Same(x, y, TopBit(j))
  {
    if j == 0 {} else if j == 1 {} else if j == 2 {} else if j == 3 {} else if j == 4 {} else if j == 5 {} else if j == 6 {} else {}
  }

  lemma {:induction false} SameUnderMask(x: bv8, y: bv8, n: int)
    requires forall j: nat {:trigger TopBit(j)} :: j < 8 && j < n ==> Same(x, y, TopBit(j))
    ensures Same(x, y, MaskByte(n))
  {
    if n > 8 {
      SameUnderMask(x, y, 8);
    } else if n > 0 {
      SameUnderMask(x, y, n - 1);
      assert Same(x, y, TopBit(n - 1));
      AddBit(x, y, n);
    }
  }

  lemma AddBit(x: bv8, y: bv8, n: int)
    requires 0 < n <= 8 && Same(x, y, MaskByte(n - 1)) && Same(x, y, TopBit(n - 1))
    ensures Same(x, y, MaskByte(n))
  {
    AndOr(x, y, MaskByte(n - 1), TopBit(n - 1));
    MaskGrows(n);
  }

  lemma MaskGrows(n: int)
    requires 0 < n <= 8
    ensures MaskByte(n) == MaskByte(n - 1) | TopBit(n - 1)
  {
  }

  lemma AndOr(x: bv8, y: bv8, a: bv8, b: bv8)
    requires Same(x, y, a) && Same(x, y, b)
    ensures Same(x, y, a | b)
  {
    assert x & (a | b) == (x & a) | (x & b);
  }

  lemma UnderMask(x: bv8, y: bv8, n: int, j: nat)
    requires j < 8 && j < n && Same(x, y, MaskByte(n))
    ensures Bit(x, j) == Bit(y, j)
  {
    assert MaskByte(n) & TopBit(j) == TopBit(j);
    AndAssoc(x, MaskByte(n), TopBit(j));
    AndAssoc(y, MaskByte(n), TopBit(j));
  }

  lemma AndAssoc(x: bv8, y: bv8, z: bv8)
    ensures (x & y) & z == x & (y & z)
  {
  }

  // ----- addresses ----------------------------------------------------

  const MAPPED: seq<bv8> := [0, 0, 0, 0, 0, 0, 0, 0, 0, 0, 0xff, 0xff]

  function To4(ip: Ip): (r: Option<Ip>)
    ensures r.Some? ==> |r.value| == 4
  {
    FourBytes(ip, MAPPED)
  }

  function Unmap(ip: Ip): Ip {
    match To4(ip) case Some(x) => x case None => ip
  }

  function NumberAndMask(n: Net): (r: (Ip, seq<bv8>))
    ensures |r.0| == |r.1|
  {
    var ip := Unmap(n.ip);
    if To4(n.ip).None? && |ip| != 16 then ([], [])
    else if |n.mask| == 4 then (if |ip| != 4 then ([], []) else (ip, n.mask))
    else if |n.mask| == 16 then (ip, if |ip| == 4 then n.mask[12..] else n.mask)
    else ([], [])
  }

  predicate SameUnder(a: Ip, b: Ip, m: seq<bv8>)
    requires |a| == |m|
  {
    |a| == |b| && forall i :: 0 <= i < |a| ==> Same(a[i], b[i], m[i])
  }

  predicate Contains(n: Net, ip: Ip) {
    var (nn, m) := NumberAndMask(n);
    SameUnder(nn, Unmap(ip), m)
  }

  /** IPNet.Contains. */
  method NetContains(n: Net, ip: Ip) returns (r: bool)
    ensures r <==> Contains(n, ip)
  {
    var (nn, m) := NumberAndMask(n);
    var x := Unmap(ip);
    if |x| != |nn| { return false; }
    for i := 0 to |x|
      invariant forall j :: 0 <= j < i ==> Same(nn[j], x[j], m[j])
    {
      if !Same(nn[i], x[i], m[i]) { return false; }
    }
    return true;
  }

  lemma SameUnderMaskIsAgree(a: Ip, b: Ip, ones: nat)
    requires |a| == |b| == 16 && ones <= 128
    ensures SameUnder(a, b, Mask(ones)) <==> Agree(a, b, ones)
  {
    if Agree(a, b, ones) {
      forall i | 0 <= i < 16
        ensures Same(a[i], b[i], Mask(ones)[i])
      {
        AgreeOnByte(a, b, ones, i);
      }
    }
    if SameUnder(a, b, Mask(ones)) {
      forall k: nat | k < ones
        ensures BitOf(a, k) == BitOf(b, k)
      {
        assert Same(a[k / 8], b[k / 8], Mask(ones)[k / 8]);
        AgreeOnBit(a, b, ones, k);
      }
    }
  }

  lemma AgreeOnBit(a: Ip, b: Ip, ones: nat, k: nat)
    requires |a| == |b| == 16 && k < ones <= 128 && Same(a[k / 8], b[k / 8], MaskByte(ones - 8 * (k / 8)))
    ensures BitOf(a, k) == BitOf(b, k)
  {
    MaskedBits(a[k / 8], b[k / 8], ones - 8 * (k / 8));
    assert Bit(a[k / 8], k % 8) == Bit(b[k / 8], k % 8);
  }

  lemma AgreeOnByte(a: Ip, b: Ip, ones: nat, i: nat)
    requires |a| == |b| == 16 && ones <= 128 && i < 16 && Agree(a, b, ones)
    ensures Same(a[i], b[i], MaskByte(ones - 8 * i))
  {
    forall j: nat | j < 8 && j < ones - 8 * i
      ensures Bit(a[i], j) == Bit(b[i], j)
    {
      assert BitOf(a, 8 * i + j) == BitOf(b, 8 * i + j);
    }
    MaskedBits(a[i], b[i], ones - 8 * i);
  }

  /** A 16-byte network that is not IPv4 contains exactly the IPv6 addresses sharing its first bits. */
  lemma ContainsIsPrefix(net: Ip, ones: nat, ip: Ip)
    requires |net| == 16 && To4(net).None? && ones <= 128
    ensures Contains(Net(net, Mask(ones)), ip) <==> |ip| == 16 && To4(ip).None? && Agree(net, ip, ones)
  {
    if |ip| == 16 && To4(ip).None? {
      SameUnderMaskIsAgree(net, ip, ones);
    }
  }

  // ----- the policy table ---------------------------------------------


  function V6(a: bv8, b: bv8): (r: Ip)
    ensures |r| == 16 && r[0] == a && r[1] == b
  {
    [a, b, 0, 0, 0, 0, 0, 0, 0, 0, 0, 0, 0, 0, 0, 0]
  }

  const LOOPBACK: Ip := [0, 0, 0, 0, 0, 0, 0, 0, 0, 0, 0, 0, 0, 0, 0, 1]
  const MAPPED_ZERO: Ip := [0, 0, 0, 0, 0, 0, 0, 0, 0, 0, 0xff, 0xff, 0, 0, 0, 0]

  /** The entries of section 2.1 of RFC 6724, in the order the program lists them. */
  function Policy(): (p: seq<Entry>)
    ensures |p| == 9
  {
    [ Entry(Net(LOOPBACK, Mask(128)), 50, 0),
      Entry(Net(V6(0, 0), Mask(0)), 40, 1),
      Entry(Net(MAPPED_ZERO, Mask(96)), 35, 4),
      Entry(Net(V6(0x20, 0x02), Mask(16)), 30, 2),
      Entry(Net(V6(0x20, 0x01), Mask(32)), 5, 5),
      Entry(Net(V6(0xfc, 0x00), Mask(7)), 3, 13),
      Entry(Net(V6(0, 0), Mask(96)), 1, 3),
      Entry(Net(V6(0xfe, 0xc0), Mask(10)), 1, 11),
      Entry(Net(V6(0x3f, 0xfe), Mask(16)), 1, 12) ]
  }

  const NO_ENTRY := Entry(Net([], []), 0, 0)

  /** The number of leading ones of a canonical mask. */
  ghost function Ones(e: Entry): nat {
    if exists n: nat :: n <= 128 && e.prefix.mask == Mask(n)
    then var n: nat :| n <= 128 && e.prefix.mask == Mask(n); n
    else 0
  }

  lemma MaskIsInjective(m: nat, n: nat)
    requires m <= 128 && n <= 128 && Mask(m) == Mask(n)
    ensures m == n
  {
    if m < n {
      MaskDiffers(m, n);
    } else if n < m {
      MaskDiffers(n, m);
    }
  }

  lemma MaskDiffers(m: nat, n: nat)
    requires m < n <= 128
    ensures Mask(m) != Mask(n)
  {
    var i := m / 8;
    assert Mask(m)[i] == MaskByte(m - 8 * i);
    assert Mask(n)[i] == MaskByte(n - 8 * i);
  }

  lemma OnesOf(e: Entry, n: nat)
    requires n <= 128 && e.prefix.mask == Mask(n)
    ensures Ones(e) == n
  {
    MaskIsInjective(Ones(e), n);
  }

  ghost predicate LongestFirst(t: seq<Entry>) {
    forall i, j :: 0 <= i < j < |t| ==> Ones(t[i]) >= Ones(t[j])
  }

  /** What the unstable sort at start-up may leave: the policy's entries, longest masks first. */
  ghost predicate Table(t: seq<Entry>) {
    LongestFirst(t) && forall x :: x in t <==> x in Policy()
  }

  function FirstMatch(t: seq<Entry>, ip: Ip): Entry {
    if t == [] then NO_ENTRY
    else if Contains(t[0].prefix, ip) then t[0]
    else FirstMatch(t[1..], ip)
  }

  /** `e` is an entry of `t` that holds `ip`, or the zero entry when no entry does. */
  ghost predicate Matches(t: seq<Entry>, ip: Ip, e: Entry) {
    if exists x :: x in t && Contains(x.prefix, ip) then e in t && Contains(e.prefix, ip)
    else e == NO_ENTRY
  }

  /** policyTable.Classify: the longest matching prefix, or the zero entry. */
  method Classify(t: seq<Entry>, ip: Ip) returns (e: Entry)
    requires LongestFirst(t)
    ensures e == FirstMatch(t, ip)
    ensures Matches(t, ip, e)
    ensures forall x :: x in t && Contains(x.prefix, ip) ==> Ones(x) <= Ones(e)
  {
    assert t[0..] == t;
    for i := 0 to |t|
      invariant forall j :: 0 <= j < i ==> !Contains(t[j].prefix, ip)
      invariant FirstMatch(t, ip) == FirstMatch(t[i..], ip)
    {
      var hit := NetContains(t[i].prefix, ip);
      if hit { return t[i]; }
      assert t[i..][1..] == t[i + 1..];
    }
    return NO_ENTRY;
  }

  lemma {:induction false} FirstMatchIsMember(t: seq<Entry>, ip: Ip)
    ensures Matches(t, ip, FirstMatch(t, ip))
  {
    if t != [] && !Contains(t[0].prefix, ip) {
      FirstMatchIsMember(t[1..], ip);
      assert t == [t[0]] + t[1..];
    }
  }

  lemma {:induction false} FirstMatchIsLongest(t: seq<Entry>, ip: Ip, x: Entry)
    requires LongestFirst(t) && x in t && Contains(x.prefix, ip)
    ensures Ones(x) <= Ones(FirstMatch(t, ip))
  {
    if !Contains(t[0].prefix, ip) {
      assert t == [t[0]] + t[1..];
      FirstMatchIsLongest(t[1..], ip, x);
    }
  }

  lemma InTable(t: seq<Entry>, x: Entry)
    requires Table(t)
    ensures x in t <==> x in Policy()
  {
  }

  lemma MappedContains(ip: Ip)
    ensures Contains(Net(MAPPED_ZERO, Mask(96)), ip) <==> To4(ip).Some?
  {
    var n := Net(MAPPED_ZERO, Mask(96));
    assert To4(n.ip).Some?;
    var (nn, m) := NumberAndMask(n);
    assert |nn| == 4 && forall i :: 0 <= i < 4 ==> m[i] == 0;
  }

  lemma NotMapped(ip: Ip)
    requires |ip| == 16 && ip[11] != 0xff
    ensures To4(ip).None?
  {
    assert ip[..12][11] != MAPPED[11];
  }

  lemma SixHoldsSix(n: Net, ip: Ip)
    requires |n.ip| == 16 && To4(n.ip).None? && |n.mask| == 16 && Contains(n, ip)
    ensures To4(ip).None?
  {
  }

  lemma SixPrefix(x: Entry)
    requires x in Policy() && x.precedence != 35
    ensures |x.prefix.ip| == 16 && x.prefix.ip[11] != 0xff && |x.prefix.mask| == 16
  {
  }

  /** Only the IPv4-mapped entry holds IPv4 addresses, and it holds nothing else. */
  lemma FamilyOfEntry(x: Entry, ip: Ip)
    requires x in Policy() && Contains(x.prefix, ip)
    ensures x.precedence == 35 <==> To4(ip).Some?
  {
    MappedContains(ip);
    if x.precedence != 35 {
      SixPrefix(x);
      NotMapped(x.prefix.ip);
      SixHoldsSix(x.prefix, ip);
    }
  }

  /** Precedence 35 is exactly IPv4: no IPv6 address and no malformed one gets it. */
  lemma PrecedenceTellsFamily(t: seq<Entry>, ip: Ip)
    requires Table(t)
    ensures FirstMatch(t, ip).precedence == 35 <==> To4(ip).Some?
  {
    FirstMatchIsMember(t, ip);
    var e := FirstMatch(t, ip);
    if e in t {
      InTable(t, e);
      if Contains(e.prefix, ip) { FamilyOfEntry(e, ip); }
    }
    MappedContains(ip);
    InTable(t, EntryOfTag(4));
  }

  /** Each entry's mask length, by its label. */
  function LengthOfTag(tag: nat): nat {
    if tag == 0 then 128 else if tag == 1 then 0 else if tag == 4 || tag == 3 then 96
    else if tag == 2 || tag == 12 then 16 else if tag == 5 then 32 else if tag == 13 then 7 else 10
  }

  function EntryOfTag(tag: nat): Entry {
    if tag == 0 then Policy()[0] else if tag == 1 then Policy()[1] else if tag == 4 then Policy()[2]
    else if tag == 2 then Policy()[3] else if tag == 5 then Policy()[4] else if tag == 13 then Policy()[5]
    else if tag == 3 then Policy()[6] else if tag == 11 then Policy()[7] else Policy()[8]
  }

  lemma KnowByTag(x: Entry)
    requires x in Policy()
    ensures x == EntryOfTag(x.tag) && x.tag in {0, 1, 2, 3, 4, 5, 11, 12, 13}
    ensures x.precedence == 35 <==> x.tag == 4
    ensures x.prefix.mask == Mask(LengthOfTag(x.tag))
  {
    var i :| 0 <= i < |Policy()| && x == Policy()[i];
    if i == 0 {} else if i == 1 {} else if i == 2 {} else if i == 3 {} else if i == 4 {}
    else if i == 5 {} else if i == 6 {} else if i == 7 {} else {}
  }

  lemma SameOnes(x: Entry, y: Entry)
    requires x.prefix.mask == Mask(LengthOfTag(x.tag)) && y.prefix.mask == Mask(LengthOfTag(y.tag))
    requires Ones(x) == Ones(y)
    ensures LengthOfTag(x.tag) == LengthOfTag(y.tag)
  {
    OnesOf(x, LengthOfTag(x.tag));
    OnesOf(y, LengthOfTag(y.tag));
  }

  lemma SixToFourEntries(x: Entry)
    requires x == EntryOfTag(x.tag)
    ensures x.tag == 2 ==> x.prefix == Net(V6(0x20, 0x02), Mask(16))
    ensures x.tag == 12 ==> x.prefix == Net(V6(0x3f, 0xfe), Mask(16))
  {
  }

  lemma TagsThatTie(a: nat, b: nat)
    requires a in {0, 1, 2, 3, 4, 5, 11, 12, 13} && b in {0, 1, 2, 3, 4, 5, 11, 12, 13}
    requires LengthOfTag(a) == LengthOfTag(b)
    ensures a == b || (a == 4) != (b == 4) || (a == 2 && b == 12) || (a == 12 && b == 2)
  {
  }

  /** Entries of equal mask length are disjoint. */
  lemma TiesAreDisjoint(x: Entry, y: Entry, ip: Ip)
    requires x in Policy() && y in Policy() && Ones(x) == Ones(y)
    requires Contains(x.prefix, ip) && Contains(y.prefix, ip)
    ensures x == y
  {
    KnowByTag(x);
    KnowByTag(y);
    SameOnes(x, y);
    TagsThatTie(x.tag, y.tag);
    FamilyOfEntry(x, ip);
    FamilyOfEntry(y, ip);
    SixToFourEntries(x);
    SixToFourEntries(y);
    SixToFourIsNot6bone(ip);
  }

  lemma SixToFourIsNot6bone(ip: Ip)
    ensures !Contains(Net(V6(0x20, 0x02), Mask(16)), ip) || !Contains(Net(V6(0x3f, 0xfe), Mask(16)), ip)
  {
    var m := Mask(16);
    var a, b, x := V6(0x20, 0x02), V6(0x3f, 0xfe), Unmap(ip);
    assert m[0] == 0xff;
    if |x| == 16 {
      assert !Same(a[0], x[0], m[0]) || !Same(b[0], x[0], m[0]);
    }
  }

  /** One such table. */
  lemma SortedPolicy() returns (t: seq<Entry>)
    ensures Table(t)
  {
    var p := Policy();
    t := [p[0], p[2], p[6], p[4], p[3], p[8], p[7], p[5], p[1]];
    OnesOf(p[0], 128);
    OnesOf(p[2], 96);
    OnesOf(p[6], 96);
    OnesOf(p[4], 32);
    OnesOf(p[3], 16);
    OnesOf(p[8], 16);
    OnesOf(p[7], 10);
    OnesOf(p[5], 7);
    OnesOf(p[1], 0);
    SortedIsLongestFirst(t, [128, 96, 96, 32, 16, 16, 10, 7, 0]);
  }

  lemma SortedIsLongestFirst(t: seq<Entry>, ones: seq<int>)
    requires |t| == |ones| && (forall i :: 0 <= i < |t| ==> Ones(t[i]) == ones[i])
    requires forall i, j :: 0 <= i < j < |ones| ==> ones[i] >= ones[j]
    ensures LongestFirst(t)
  {
  }

  ghost predicate Disjoint(t: seq<Entry>) {
    forall x, y, ip :: x in t && y in t && Ones(x) == Ones(y) && Contains(x.prefix, ip) && Contains(y.prefix, ip) ==> x == y
  }

  lemma TableIsDisjoint(t: seq<Entry>)
    requires Table(t)
    ensures Disjoint(t)
  {
    forall x, y, ip | x in t && y in t && Ones(x) == Ones(y) && Contains(x.prefix, ip) && Contains(y.prefix, ip)
      ensures x == y
    {
      InTable(t, x);
      InTable(t, y);
      TiesAreDisjoint(x, y, ip);
    }
  }

  lemma FirstMatchIsDeterminate(t: seq<Entry>, u: seq<Entry>, ip: Ip)
    requires LongestFirst(t) && LongestFirst(u) && Disjoint(t)
    requires forall x :: x in t <==> x in u
    ensures FirstMatch(t, ip) == FirstMatch(u, ip)
  {
    FirstMatchIsMember(t, ip);
    FirstMatchIsMember(u, ip);
    if x :| x in t && Contains(x.prefix, ip) {
      var a, b := FirstMatch(t, ip), FirstMatch(u, ip);
      assert a in u && b in t;
      FirstMatchIsLongest(u, ip, a);
      FirstMatchIsLongest(t, ip, b);
    }
  }

  /** The classification does not depend on how the unstable sort breaks ties. */
  lemma ClassifyIsDeterminate(t: seq<Entry>, u: seq<Entry>, ip: Ip)
    requires Table(t) && Table(u)
    ensures FirstMatch(t, ip) == FirstMatch(u, ip)
  {
    TableIsDisjoint(t);
    forall x
      ensures x in t <==> x in u
    {
      InTable(t, x);
      InTable(u, x);
    }
    FirstMatchIsDeterminate(t, u, ip);
  }

  // ----- attributes ---------------------------------------------------

  predicate IsLoopback(ip: Ip) {
    match To4(ip) case Some(x) => x[0] == 127 case None => ip == LOOPBACK
  }

  predicate IsLinkLocalUnicast(ip: Ip) {
    match To4(ip)
    case Some(x) => x[0] == 169 && x[1] == 254
    case None => |ip| == 16 && ip[0] == 0xfe && ip[1] & 0xc0 == 0x80
  }

  predicate IsMulticast(ip: Ip) {
    match To4(ip)
    case Some(x) => x[0] & 0xf0 == 0xe0
    case None => |ip| == 16 && ip[0] == 0xff
  }

  function ClassifyScope(ip: Ip): int {
    var six := |ip| == 16 && To4(ip).None?;
    if IsLoopback(ip) || IsLinkLocalUnicast(ip) then 2
    else if six && IsMulticast(ip) then (ip[1] & 0xf) as int
    else if six && ip[0] == 0xfe && ip[1] & 0xc0 == 0xc0 then 5
    else 14
  }

  /** ipAttrOf; no address at all has the zero attributes. */
  function AttrOf(t: seq<Entry>, ip: Option<Ip>): Attr {
    match ip
    case None => Attr(0, 0, 0)
    case Some(x) => var e := FirstMatch(t, x); Attr(ClassifyScope(x), e.precedence, e.tag)
  }

  /** An absent address behaves as an empty slice. */
  function Bytes(ip: Option<Ip>): Ip {
    match ip case Some(x) => x case None => []
  }

  // ----- common prefixes ----------------------------------------------

  /** How many bits commonPrefixLen compares: none across families, no interface part. */
  function Span(a: Ip, b: Ip): (n: nat)
    ensures n <= 8 * |Unmap(a)| && n <= 8 * |Unmap(b)|
  {
    if |Unmap(a)| != |Unmap(b)| then 0 else 8 * Min(|Unmap(a)|, 8)
  }

  /** `n` is the length of the longest common prefix of `a` and `b` of at most `span` bits. */
  ghost predicate IsCommon(a: Ip, b: Ip, span: nat, n: nat)
    requires span <= 8 * |a| && span <= 8 * |b|
  {
    n <= span && Agree(a, b, n) && (n < span ==> BitOf(a, n) != BitOf(b, n))
  }

  ghost function CommonPrefix(a: Ip, b: Ip): (n: nat)
    ensures IsCommon(Unmap(a), Unmap(b), Span(a, b), n)
  {
    LeadingBits(Unmap(a), Unmap(b), Span(a, b), 0)
  }

  ghost function LeadingBits(a: Ip, b: Ip, span: nat, k: nat): (n: nat)
    requires span <= 8 * |a| && span <= 8 * |b| && k <= span && Agree(a, b, k)
    ensures IsCommon(a, b, span, n)
    decreases span - k
  {
    if k < span && BitOf(a, k) == BitOf(b, k) then LeadingBits(a, b, span, k + 1) else k
  }

  lemma CommonIsUnique(a: Ip, b: Ip, span: nat, m: nat, n: nat)
    requires span <= 8 * |a| && span <= 8 * |b|
    requires IsCommon(a, b, span, m) && IsCommon(a, b, span, n)
    ensures m == n
  {
  }

  function Shifted(x: bv8, k: nat): bv8 {
    if k == 0 then x else Shifted(x, k - 1) >> 1
  }

  lemma ShiftedBits(x: bv8, y: bv8, k: nat)
    requires k <= 8
    ensures Shifted(x, k) == Shifted(y, k) <==> Same(x, y, MaskByte(8 - k))
  {
    ShiftedBy(x, k);
    ShiftedBy(y, k);
    if k == 0 {} else if k == 1 {} else if k == 2 {} else if k == 3 {} else if k == 4 {} else if k == 5 {} else if k == 6 {} else if k == 7 {} else {}
  }

  lemma ShiftedBy(x: bv8, k: nat)
    requires k <= 8
    ensures k == 0 ==> Shifted(x, k) == x
    ensures k == 1 ==> Shifted(x, k) == x >> 1
    ensures k == 2 ==> Shifted(x, k) == x >> 2
    ensures k == 3 ==> Shifted(x, k) == x >> 3
    ensures k == 4 ==> Shifted(x, k) == x >> 4
    ensures k == 5 ==> Shifted(x, k) == x >> 5
    ensures k == 6 ==> Shifted(x, k) == x >> 6
    ensures k == 7 ==> Shifted(x, k) == x >> 7
    ensures k == 8 ==> Shifted(x, k) == 0
  {
    if k > 0 { ShiftedBy(x, k - 1); }
  }

  ghost predicate DifferAt(x: bv8, y: bv8, n: nat)
    requires n < 8
  {
    Bit(x, n) != Bit(y, n) && forall j: nat {:trigger Bit(x, j)} :: j < n ==> Bit(x, j) == Bit(y, j)
  }

  lemma LastEqualShift(x: bv8, y: bv8, bits: nat)
    requires bits < 8
    requires Shifted(x, 8 - bits) == Shifted(y, 8 - bits) && Shifted(x, 7 - bits) != Shifted(y, 7 - bits)
    ensures DifferAt(x, y, bits)
  {
    ShiftedBits(x, y, 8 - bits);
    ShiftedBits(x, y, 7 - bits);
    MaskedBits(x, y, bits);
    MaskedBits(x, y, bits + 1);
  }

  /** Where two different bytes first differ. */
  method FirstDifference(x: bv8, y: bv8) returns (bits: nat)
    requires x != y
    ensures bits < 8 && DifferAt(x, y, bits)
  {
    bits := 8;
    var ab, bb := x, y;
    while true
      invariant 1 <= bits <= 8
      invariant ab == Shifted(x, 8 - bits) && bb == Shifted(y, 8 - bits) && ab != bb
      decreases bits
    {
      Halves(x, 8 - bits);
      Halves(y, 8 - bits);
      ab, bb, bits := ab >> 1, bb >> 1, bits - 1;
      if ab == bb {
        LastEqualShift(x, y, bits);
        return;
      }
    }
  }

  lemma Halves(x: bv8, k: nat)
    requires k < 8
    ensures Shifted(x, k + 1) == Shifted(x, k) >> 1
    ensures k == 7 ==> Shifted(x, 8) == 0
  {
    ShiftedBy(x, 8);
  }

  lemma NextByte(a: Ip, b: Ip, i: nat)
    requires i < |a| && i < |b| && Agree(a, b, 8 * i) && a[i] == b[i]
    ensures Agree(a, b, 8 * i + 8)
  {
    assert forall k: nat :: 8 * i <= k < 8 * i + 8 ==> k / 8 == i;
  }

  lemma LastByte(a: Ip, b: Ip, i: nat, n: nat)
    requires i < |a| && i < |b| && Agree(a, b, 8 * i) && n < 8 && DifferAt(a[i], b[i], n)
    ensures Agree(a, b, 8 * i + n) && BitOf(a, 8 * i + n) != BitOf(b, 8 * i + n)
  {
    assert forall k: nat :: 8 * i <= k < 8 * i + 8 ==> k / 8 == i && k % 8 == k - 8 * i;
  }

  lemma Clip(a: Ip, b: Ip, l: nat, n: nat)
    requires l <= |a| && l <= |b| && IsCommon(a[..l], b[..l], 8 * l, n)
    ensures IsCommon(a, b, 8 * l, n)
  {
    forall k: nat | k < 8 * l
      ensures BitOf(a, k) == BitOf(a[..l], k) && BitOf(b, k) == BitOf(b[..l], k)
    {
    }
  }

  /** commonPrefixLen. */
  method CommonPrefixLen(a: Ip, b: Ip) returns (cpl: nat)
    ensures cpl == CommonPrefix(a, b)
  {
    var x, y := Unmap(a), Unmap(b);
    if |x| != |y| { return 0; }
    var l := Min(|x|, 8);
    if |x| > 8 { x, y := x[..8], y[..8]; }
    assert x == Unmap(a)[..l] && y == Unmap(b)[..l];
    cpl := 0;
    var i := 0;
    while i < |x|
      invariant i <= |x| && cpl == 8 * i
      invariant Agree(x, y, cpl)
    {
      if x[i] == y[i] {
        NextByte(x, y, i);
        cpl, i := cpl + 8, i + 1;
      } else {
        var bits := FirstDifference(x[i], y[i]);
        LastByte(x, y, i, bits);
        cpl := cpl + bits;
        break;
      }
    }
    Clip(Unmap(a), Unmap(b), l, cpl);
    CommonIsUnique(Unmap(a), Unmap(b), 8 * l, cpl, CommonPrefix(a, b));
  }

  // ----- the order ----------------------------------------------------

  /** One row of the four parallel slices being sorted. */
  datatype Cand = Cand(addr: Option<Ip>, src: Option<Ip>, addrAttr: Attr, srcAttr: Attr)

  /** A row whose attributes are those computed before the sort. */
  ghost predicate Rated(t: seq<Entry>, c: Cand) {
    c.addrAttr == AttrOf(t, c.addr) && c.srcAttr == AttrOf(t, c.src)
  }

  /** Less, rule by rule. */
  ghost predicate Less(a: Cand, b: Cand) {
    if a.src.None? && b.src.None? then false
    else if b.src.None? then true
    else if a.src.None? then false
    else if a.addrAttr.scope == a.srcAttr.scope && b.addrAttr.scope != b.srcAttr.scope then true
    else if a.addrAttr.scope != a.srcAttr.scope && b.addrAttr.scope == b.srcAttr.scope then false
    else if a.srcAttr.tag == a.addrAttr.tag && b.srcAttr.tag != b.addrAttr.tag then true
    else if a.srcAttr.tag != a.addrAttr.tag && b.srcAttr.tag == b.addrAttr.tag then false
    else if a.addrAttr.precedence > b.addrAttr.precedence then true
    else if a.addrAttr.precedence < b.addrAttr.precedence then false
    else if a.addrAttr.scope < b.addrAttr.scope then true
    else if a.addrAttr.scope > b.addrAttr.scope then false
    else if To4(Bytes(a.addr)).None? && To4(Bytes(b.addr)).None? then
      CommonPrefix(Bytes(a.src), Bytes(a.addr)) > CommonPrefix(Bytes(b.src), Bytes(b.addr))
    else false
  }

  ghost predicate LexLess(a: seq<int>, b: seq<int>)
    requires |a| == |b|
  {
    |a| > 0 && (a[0] < b[0] || (a[0] == b[0] && LexLess(a[1..], b[1..])))
  }

  /** The quality of one destination alone, best first in lexicographic order. */
  ghost function Key(c: Cand): (k: seq<int>)
    ensures |k| == 6
  {
    if c.src.None? then [1, 0, 0, 0, 0, 0]
    else [ 0,
           if c.addrAttr.scope == c.srcAttr.scope then 0 else 1,
           if c.addrAttr.tag == c.srcAttr.tag then 0 else 1,
           0 - c.addrAttr.precedence,
           c.addrAttr.scope,
           if To4(Bytes(c.addr)).None? then 0 - CommonPrefix(Bytes(c.src), Bytes(c.addr)) else 0 ]
  }

  lemma LexOfSix(a: seq<int>, b: seq<int>)
    requires |a| == |b| == 6
    ensures LexLess(a, b) <==>
            a[0] < b[0] || (a[0] == b[0] && (a[1] < b[1] || (a[1] == b[1] && (a[2] < b[2] || (a[2] == b[2] &&
            (a[3] < b[3] || (a[3] == b[3] && (a[4] < b[4] || (a[4] == b[4] && a[5] < b[5])))))))))
  {
    var a1, b1 := a[1..], b[1..];
    var a2, b2 := a1[1..], b1[1..];
    var a3, b3 := a2[1..], b2[1..];
    var a4, b4 := a3[1..], b3[1..];
    var a5, b5 := a4[1..], b4[1..];
    assert LexLess(a5, b5) <==> a[5] < b[5];
    assert LexLess(a4, b4) <==> a[4] < b[4] || (a[4] == b[4] && LexLess(a5, b5));
    assert LexLess(a3, b3) <==> a[3] < b[3] || (a[3] == b[3] && LexLess(a4, b4));
    assert LexLess(a2, b2) <==> a[2] < b[2] || (a[2] == b[2] && LexLess(a3, b3));
    assert LexLess(a1, b1) <==> a[1] < b[1] || (a[1] == b[1] && LexLess(a2, b2));
  }

  /** Equal precedence means the same family. */
  lemma FamiliesByPrecedence(t: seq<Entry>, a: Cand, b: Cand)
    requires Table(t) && Rated(t, a) && Rated(t, b) && a.addrAttr.precedence == b.addrAttr.precedence
    ensures To4(Bytes(a.addr)).Some? <==> To4(Bytes(b.addr)).Some?
  {
    PrecedenceTellsFamily(t, Bytes(a.addr));
    PrecedenceTellsFamily(t, Bytes(b.addr));
  }

  lemma RulesAreKeyOrder(a: Cand, b: Cand)
    requires a.addrAttr.precedence == b.addrAttr.precedence ==> (To4(Bytes(a.addr)).Some? <==> To4(Bytes(b.addr)).Some?)
    ensures Less(a, b) <==> LexLess(Key(a), Key(b))
  {
    LexOfSix(Key(a), Key(b));
  }

  /** The pairwise rules are a comparison of one key per destination. */
  lemma LessIsKeyOrder(t: seq<Entry>, a: Cand, b: Cand)
    requires Table(t) && Rated(t, a) && Rated(t, b)
    ensures Less(a, b) <==> LexLess(Key(a), Key(b))
  {
    if a.addrAttr.precedence == b.addrAttr.precedence {
      FamiliesByPrecedence(t, a, b);
    }
    RulesAreKeyOrder(a, b);
  }

  lemma {:induction false} LexIsTotal(a: seq<int>, b: seq<int>)
    requires |a| == |b|
    ensures !LexLess(a, a)
    ensures LexLess(a, b) || LexLess(b, a) || a == b
    ensures !(LexLess(a, b) && LexLess(b, a))
  {
    if |a| > 0 {
      LexIsTotal(a[1..], b[1..]);
      assert a == [a[0]] + a[1..] && b == [b[0]] + b[1..];
    }
  }

  lemma {:induction false} LexIsTransitive(a: seq<int>, b: seq<int>, c: seq<int>)
    requires |a| == |b| == |c| && LexLess(a, b) && LexLess(b, c)
    ensures LexLess(a, c)
  {
    if a[0] == b[0] == c[0] { LexIsTransitive(a[1..], b[1..], c[1..]); }
  }

  ghost predicate Tied(a: Cand, b: Cand) {
    !Less(a, b) && !Less(b, a)
  }

  /** A strict weak order: irreflexive, asymmetric and transitive, and ties are an equivalence. */
  lemma LessIsStrictWeakOrder(t: seq<Entry>, a: Cand, b: Cand, c: Cand)
    requires Table(t) && Rated(t, a) && Rated(t, b) && Rated(t, c)
    ensures !Less(a, a)
    ensures Less(a, b) ==> !Less(b, a)
    ensures Less(a, b) && Less(b, c) ==> Less(a, c)
    ensures Tied(a, b) && Tied(b, c) ==> Tied(a, c)
    ensures Less(a, b) && Tied(b, c) ==> Less(a, c)
  {
    var x, y, z := Key(a), Key(b), Key(c);
    LessIsKeyOrder(t, a, a); LessIsKeyOrder(t, a, b); LessIsKeyOrder(t, b, a);
    LessIsKeyOrder(t, b, c); LessIsKeyOrder(t, c, b); LessIsKeyOrder(t, a, c); LessIsKeyOrder(t, c, a);
    LexIsTotal(x, y); LexIsTotal(y, z); LexIsTotal(x, z);
    if LexLess(x, y) && LexLess(y, z) { LexIsTransitive(x, y, z); }
  }

  /** Rule 9 alone would not be an order: with equal attributes an IPv4 row ties with both of two ordered IPv6 rows. */
  lemma RulesNeedThePolicy(a: Cand, b: Cand, c: Cand, r: Attr)
    requires a == Cand(Some(V6(0x20, 0)), Some(V6(0x20, 0)), r, r)
    requires b == Cand(Some([10, 0, 0, 1]), Some([10, 0, 0, 2]), r, r)
    requires c == Cand(Some(V6(0x20, 0)), Some(V6(0x80, 0)), r, r)
    ensures Tied(a, b) && Tied(b, c) && !Tied(a, c)
  {
    var x, y := V6(0x20, 0), V6(0x80, 0);
    assert To4(x).None? && To4(y).None?;
    assert CommonPrefix(x, x) == 64;
    assert BitOf(x, 0) != BitOf(y, 0);
    assert CommonPrefix(y, x) == 0;
  }

  /** A row whose attributes are given by `rate`. */
  ghost predicate RatedBy(rate: Option<Ip> -> Attr, c: Cand) {
    c.addrAttr == rate(c.addr) && c.srcAttr == rate(c.src)
  }

  /** `rate` is ipAttrOf over the table. */
  ghost predicate Rating(t: seq<Entry>, rate: Option<Ip> -> Attr) {
    forall ip {:trigger rate(ip)} :: rate(ip) == AttrOf(t, ip)
  }

  /** The slices that sort.Stable rearranges. */
  class ByRfc6724 {
    var addrs: seq<Option<Ip>>
    var addrAttr: seq<Attr>
    var srcs: seq<Option<Ip>>
    var srcAttr: seq<Attr>
    ghost const table: seq<Entry>
    ghost const rate: Option<Ip> -> Attr

    ghost predicate Valid()
      reads this
    {
      |addrs| == |addrAttr| == |srcs| == |srcAttr|
      && (forall i :: 0 <= i < |addrs| ==> RatedBy(rate, Row(i)))
    }

    /** The rating is the one of ipAttrOf over the policy table. */
    ghost predicate Sound() {
      Table(table) && Rating(table, rate)
    }

    function Row(i: nat): Cand
      requires i < |addrs| && |addrs| == |addrAttr| == |srcs| == |srcAttr|
      reads this
    {
      Cand(addrs[i], srcs[i], addrAttr[i], srcAttr[i])
    }

    /** sortByRFC6724withSrcs, up to the call of the sort. */
    constructor (t: seq<Entry>, ghost rating: Option<Ip> -> Attr, addrs: seq<Option<Ip>>, srcs: seq<Option<Ip>>)
      requires LongestFirst(t) && Rating(t, rating) && |addrs| == |srcs|
      ensures Valid() && this.addrs == addrs && this.srcs == srcs && table == t && rate == rating
    {
      var a := RateAll(t, rating, addrs);
      var b := RateAll(t, rating, srcs);
      this.addrs, this.srcs, addrAttr, srcAttr, table, rate := addrs, srcs, a, b, t, rating;
    }

    /** Swaps two rows in all four slices. */
    method Swap(i: nat, j: nat)
      requires Valid() && i < |addrs| && j < |addrs|
      modifies this
      ensures Valid() && |addrs| == old(|addrs|)
      ensures forall k :: 0 <= k < |addrs| ==>
                Row(k) == if k == i then old(Row(j)) else if k == j then old(Row(i)) else old(Row(k))
    {
      addrs := addrs[i := addrs[j]][j := addrs[i]];
      srcs := srcs[i := srcs[j]][j := srcs[i]];
      addrAttr := addrAttr[i := addrAttr[j]][j := addrAttr[i]];
      srcAttr := srcAttr[i := srcAttr[j]][j := srcAttr[i]];
      forall k | 0 <= k < |addrs|
        ensures RatedBy(rate, Row(k))
      {
        var o := if k == i then j else if k == j then i else k;
        assert Row(k) == old(Row(o)) && old(RatedBy(rate, Row(o)));
      }
    }

    method LessAt(i: nat, j: nat) returns (r: bool)
      requires Valid() && i < |addrs| && j < |addrs|
      ensures r <==> Less(Row(i), Row(j))
      ensures Sound() ==> (r <==> LexLess(Key(Row(i)), Key(Row(j))))
    {
      if Sound() { LessIsKeyOrder(table, Row(i), Row(j)); }
      var a, b, s, u := addrAttr[i], addrAttr[j], srcAttr[i], srcAttr[j];
      if srcs[i].None? && srcs[j].None? { return false; }
      if srcs[j].None? { return true; }
      if srcs[i].None? { return false; }
      if a.scope == s.scope && b.scope != u.scope { return true; }
      if a.scope != s.scope && b.scope == u.scope { return false; }
      if s.tag == a.tag && u.tag != b.tag { return true; }
      if s.tag != a.tag && u.tag == b.tag { return false; }
      if a.precedence > b.precedence { return true; }
      if a.precedence < b.precedence { return false; }
      if a.scope < b.scope { return true; }
      if a.scope > b.scope { return false; }
      if To4(Bytes(addrs[i])).None? && To4(Bytes(addrs[j])).None? {
        var m := CommonPrefixLen(Bytes(srcs[i]), Bytes(addrs[i]));
        var n := CommonPrefixLen(Bytes(srcs[j]), Bytes(addrs[j]));
        return m > n;
      }
      return false;
    }
  }

  method RateAll(t: seq<Entry>, ghost rate: Option<Ip> -> Attr, ips: seq<Option<Ip>>) returns (r: seq<Attr>)
    requires LongestFirst(t) && Rating(t, rate)
    ensures |r| == |ips| && forall i :: 0 <= i < |r| ==> r[i] == rate(ips[i])
  {
    r := [];
    for i := 0 to |ips|
      invariant |r| == i && forall j :: 0 <= j < i ==> r[j] == rate(ips[j])
    {
      var a := Rate(t, rate, ips[i]);
      r := r + [a];
    }
  }

  /** ipAttrOf. */
  method Rate(t: seq<Entry>, ghost rate: Option<Ip> -> Attr, ip: Option<Ip>) returns (r: Attr)
    requires LongestFirst(t) && Rating(t, rate)
    ensures r == rate(ip)
  {
    match ip
    case None =>
      assert rate(ip) == AttrOf(t, ip);
      return Attr(0, 0, 0);
    case Some(x) =>
      assert rate(ip) == AttrOf(t, ip);
      var e := Classify(t, x);
      return Attr(ClassifyScope(x), e.precedence, e.tag);
  }
}
