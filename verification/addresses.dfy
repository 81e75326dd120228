/**
 * IP addresses, prefixes, the allocation rule and the capacity figure.
 *
 * An address is a family and a number; a prefix keeps the address it was parsed
 * with, so it need not be masked.
 */
module Addresses {
  datatype Family = V4 | V6

  datatype Addr = Addr(family: Family, value: nat)

  datatype Prefix = Prefix(addr: Addr, bits: nat)

  function Width(family: Family): nat {
    if family.V4? then 32 else 128
  }

  function Pow2(n: nat): (p: nat)
    ensures p > 0
  {
    if n == 0 then 1 else 2 * Pow2(n - 1)
  }

  lemma {:induction false} Pow2Add(m: nat, n: nat)
    ensures Pow2(m + n) == Pow2(m) * Pow2(n)
  {
    if m > 0 {
      Pow2Add(m - 1, n);
    }
  }

  lemma Pow2Mono(m: nat, n: nat)
    requires m <= n
    ensures Pow2(m) <= Pow2(n)
  {
    Pow2Add(n - m, m);
    assert Pow2(n) == Pow2(n - m) * Pow2(m);
  }

  predicate IsAddr(a: Addr) {
    a.value < Pow2(Width(a.family))
  }

  predicate IsPrefix(p: Prefix) {
    IsAddr(p.addr) && p.bits <= Width(p.addr.family)
  }

  type IpAddr = a: Addr | IsAddr(a) witness Addr(V4, 0)

  type Cidr = p: Prefix | IsPrefix(p) witness Prefix(Addr(V4, 0), 0)

  function HostBits(p: Cidr): nat {
    Width(p.addr.family) - p.bits
  }

  /** The number of addresses under the prefix, usable or not. */
  function Size(p: Cidr): nat {
    Pow2(HostBits(p))
  }

  /** The largest multiple of s not above v. */
  function Align(v: nat, s: nat): (r: nat)
    requires s > 0
    ensures r <= v < r + s
  {
    v - v % s
  }

  /** The first and the last address of the prefix, as a range. */
  function RangeFrom(p: Cidr): nat {
    Align(p.addr.value, Size(p))
  }

  function RangeTo(p: Cidr): nat {
    RangeFrom(p) + Size(p) - 1
  }

  /** Clears the host bits, as the import and the CIDR column do. */
  function Masked(p: Cidr): Cidr {
    Prefix(Addr(p.addr.family, RangeFrom(p)), p.bits)
  }

  predicate IsMasked(p: Cidr) {
    p.addr.value % Size(p) == 0
  }

  /** Membership compares the family and the leading bits. */
  predicate Contains(p: Cidr, a: IpAddr) {
    p.addr.family == a.family && p.addr.value / Size(p) == a.value / Size(p)
  }

  datatype Verdict = Usable | NotInSubnet | NetworkOrBroadcast

  function ValidateIPInSubnet(p: Cidr, a: IpAddr): Verdict {
    if !Contains(p, a) then NotInSubnet
    else if a.family.V4? && p.bits != 31 && (RangeFrom(p) == a.value || RangeTo(p) == a.value) then NetworkOrBroadcast
    else Usable
  }

  predicate Accepts(p: Cidr, a: IpAddr) {
    ValidateIPInSubnet(p, a).Usable?
  }

  /** The capacity shown to users: a signed 64-bit figure, 0 where it would not fit. */
  function SubnetCapacity(p: Cidr): int {
    if p.addr.family.V4? then
      if p.bits == 31 then 2
      else if p.bits == 32 then 1
      else Pow2(32 - p.bits) - 2
    else if HostBits(p) >= 63 then 0
    else Pow2(HostBits(p))
  }

  // ----- the range form of membership

  lemma DivRange(a: nat, b: nat, d: nat)
    requires d > 0
    ensures a / d == b / d <==> Align(a, d) <= b < Align(a, d) + d
  {
    assert a == a / d * d + a % d && b == b / d * d + b % d;
    var qa, qb := a / d, b / d;
    if qb > qa { MulStep(qa, qb, d); }
    if qa > qb { MulStep(qb, qa, d); }
  }

  lemma {:induction false} MulStep(x: nat, y: nat, d: nat)
    requires x < y
    ensures x * d + d <= y * d
  {
    assert x * d + d == (x + 1) * d;
    if x + 1 < y {
      MulStep(x, y - 1, d);
      assert y * d == (y - 1) * d + d;
    }
  }

  lemma MulMono(x: nat, y: nat, d: nat)
    requires x <= y
    ensures x * d <= y * d
  {
    if x < y { MulStep(x, y, d); }
  }

  /** Membership is exactly the closed range from the network to the last address. */
  lemma ContainsIsRange(p: Cidr, a: IpAddr)
    ensures Contains(p, a) <==> p.addr.family == a.family && RangeFrom(p) <= a.value <= RangeTo(p)
  {
    DivRange(p.addr.value, a.value, Size(p));
  }

  /** Some multiple of the prefix's size begins a block that holds both addresses. */
  ghost predicate SameBlock(p: Cidr, a: IpAddr, low: nat) {
    var s := Pow2((if p.addr.family.V4? then 32 else 128) - p.bits);
    a.family == p.addr.family && low % s == 0 && low <= p.addr.value < low + s && low <= a.value < low + s
  }

  /** The address begins or ends its block. */
  ghost predicate AtAnEnd(p: Cidr, a: IpAddr, low: nat) {
    a.value == low || a.value + 1 == low + Pow2((if p.addr.family.V4? then 32 else 128) - p.bits)
  }

  /**
   * The three verdicts from the numbers alone: an address is outside unless it shares the
   * prefix's block; inside, exactly the first and the last address of an IPv4 block are
   * reserved, except for a /31.
   */
  lemma VerdictExactly(p: Cidr, a: IpAddr)
    ensures ValidateIPInSubnet(p, a) == NotInSubnet <==> forall low: nat :: !SameBlock(p, a, low)
    ensures ValidateIPInSubnet(p, a) == NetworkOrBroadcast <==>
            a.family.V4? && p.bits != 31 && exists low: nat :: SameBlock(p, a, low) && AtAnEnd(p, a, low)
  {
    ContainsIsRange(p, a);
    AlignAligned(p.addr.value, Size(p));
    if Contains(p, a) {
      assert SameBlock(p, a, RangeFrom(p));
    }
    forall low: nat | SameBlock(p, a, low)
      ensures low == RangeFrom(p)
    {
      BlockIsUnique(low, p.addr.value, Size(p));
    }
  }

  lemma BlockIsUnique(low: nat, v: nat, s: nat)
    requires s > 0 && low % s == 0 && low <= v < low + s
    ensures low == Align(v, s)
  {
    DivUnique(v, low / s, v - low, s);
  }

  lemma AlignBelow(v: nat, k: nat, s: nat)
    requires s > 0 && v < k * s
    ensures Align(v, s) + s <= k * s
  {
    var q := v / s;
    assert v == q * s + v % s;
    if q >= k {
      MulMono(k, q, s);
      assert false;
    }
    MulStep(q, k, s);
  }

  /** The range ends inside the address space. */
  lemma RangeInSpace(p: Cidr)
    ensures RangeTo(p) < Pow2(Width(p.addr.family))
  {
    Pow2Add(p.bits, HostBits(p));
    AlignBelow(p.addr.value, Pow2(p.bits), Size(p));
  }

  lemma AlignAligned(v: nat, s: nat)
    requires s > 0
    ensures Align(v, s) % s == 0 && Align(Align(v, s), s) == Align(v, s)
  {
    DivUnique(Align(v, s), v / s, 0, s);
  }

  lemma DivUnique(x: nat, q: nat, r: nat, s: nat)
    requires 0 <= r < s && x == q * s + r
    ensures x / s == q && x % s == r
  {
    var q', r' := x / s, x % s;
    assert x == q' * s + r';
    if q' < q { MulStep(q', q, s); }
    if q < q' { MulStep(q, q', s); }
  }

  /** Masking changes neither the range nor any verdict. */
  lemma MaskedSameVerdicts(p: Cidr, a: IpAddr)
    ensures IsMasked(Masked(p)) && Masked(Masked(p)) == Masked(p)
    ensures ValidateIPInSubnet(Masked(p), a) == ValidateIPInSubnet(p, a)
  {
    AlignAligned(p.addr.value, Size(p));
    ContainsIsRange(p, a);
    ContainsIsRange(Masked(p), a);
  }

  // ----- counting

  /** The numbers of the addresses that the allocation rule accepts. */
  function AcceptedValues(p: Cidr): set<nat> {
    set v: nat | v < Pow2(Width(p.addr.family)) && Accepts(p, Addr(p.addr.family, v))
  }

  function Interval(lo: nat, hi: nat): (r: set<nat>)
    requires lo <= hi
    ensures forall v: nat :: v in r <==> lo <= v < hi
    ensures |r| == hi - lo
    decreases hi
  {
    if lo == hi then {} else Interval(lo, hi - 1) + {hi - 1}
  }

  /** How many addresses are held back at each end of the range. */
  function Reserved(p: Cidr): nat {
    if p.addr.family.V4? && p.bits != 31 then 1 else 0
  }

  lemma AcceptedIsInterval(p: Cidr)
    ensures AcceptedValues(p) ==
            if p.addr.family.V4? && p.bits == 32 then {}
            else Interval(RangeFrom(p) + Reserved(p), RangeTo(p) + 1 - Reserved(p))
  {
    RangeInSpace(p);
    forall v: nat | v < Pow2(Width(p.addr.family))
      ensures v in AcceptedValues(p) <==>
              RangeFrom(p) + Reserved(p) <= v <= RangeTo(p) - Reserved(p)
    {
      ContainsIsRange(p, Addr(p.addr.family, v));
    }
    if p.addr.family.V4? && p.bits == 32 {
      assert Size(p) == 1;
      assert AcceptedValues(p) == {};
    } else {
      assert AcceptedValues(p) == Interval(RangeFrom(p) + Reserved(p), RangeTo(p) + 1 - Reserved(p));
    }
  }

  /** How many addresses the allocation rule accepts, for every prefix of either family. */
  lemma AcceptedCount(p: Cidr)
    ensures |AcceptedValues(p)| ==
            if p.addr.family.V4? then
              if p.bits == 31 then 2 else if p.bits == 32 then 0 else Pow2(32 - p.bits) - 2
            else Pow2(128 - p.bits)
  {
    AcceptedIsInterval(p);
    if p.addr.family.V4? && p.bits == 32 {
    } else {
      if p.addr.family.V4? {
        Pow2Mono(1, HostBits(p));
      }
      assert Pow2(1) == 2;
    }
  }

  /**
   * The capacity figure is the number of accepted addresses exactly when the prefix is
   * neither an IPv4 /32 (capacity 1, none accepted) nor an IPv6 prefix of 63 or more host bits
   * (capacity 0).
   */
  lemma CapacityCountsAccepted(p: Cidr)
    ensures |AcceptedValues(p)| == SubnetCapacity(p) <==>
            !(p.addr.family.V4? && p.bits == 32) && !(p.addr.family.V6? && 128 - p.bits >= 63)
    ensures p.addr.family.V4? && p.bits == 32 ==> SubnetCapacity(p) == 1
    ensures p.addr.family.V6? && 128 - p.bits >= 63 ==> SubnetCapacity(p) == 0
  {
    AcceptedCount(p);
  }

  /** The lone address of every /32 is refused as a network address, against a capacity of 1. */
  lemma HostPrefixAcceptsNothing(p: Cidr, a: IpAddr)
    requires p.addr.family.V4? && p.bits == 32
    ensures SubnetCapacity(p) == 1
    ensures ValidateIPInSubnet(p, a) == if a == p.addr then NetworkOrBroadcast else NotInSubnet
  {
    assert Size(p) == 1;
    ContainsIsRange(p, a);
  }

  /** Both ends of a point-to-point /31 are accepted. */
  lemma PointToPointAcceptsBoth(p: Cidr)
    requires p.addr.family.V4? && p.bits == 31
    ensures AcceptedValues(p) == {RangeFrom(p), RangeFrom(p) + 1}
  {
    AcceptedIsInterval(p);
    assert Size(p) == 2 * Pow2(0) == 2;
  }

  /**
   * The pigeonhole step: distinct accepted addresses cannot outnumber the capacity,
   * wherever the capacity is a count at all.
   */
  lemma AcceptedNeverExceedCapacity(p: Cidr, used: set<nat>)
    requires used <= AcceptedValues(p)
    requires p.addr.family.V6? ==> HostBits(p) < 63
    ensures |used| <= SubnetCapacity(p)
  {
    AcceptedCount(p);
    SubsetSize(used, AcceptedValues(p));
  }

  lemma {:induction false} SubsetSize<T>(a: set<T>, b: set<T>)
    requires a <= b
    ensures |a| <= |b|
  {
    if a != {} {
      var x :| x in a;
      SubsetSize(a - {x}, b - {x});
    }
  }
}
