/**
 * The browser's enumeration of a subnet: JavaScript's 32-bit operators on numbers, the
 * CIDR arithmetic built from them, and the windows of the subnet page.
 */
module SubnetView {
  import opened Addresses

  // ----- the 32-bit operators

  const TWO32: nat := 0x1_0000_0000

  function ToUint32(x: int): (r: nat)
    ensures r < TWO32
  {
    x % 0x1_0000_0000
  }

  function ToInt32(x: int): (r: int)
    ensures -0x8000_0000 <= r < 0x8000_0000 && ToUint32(r) == ToUint32(x)
  {
    var u := ToUint32(x);
    if u < 0x8000_0000 then u else u - 0x1_0000_0000
  }

  function BitAnd(a: nat, b: nat): nat {
    if a == 0 || b == 0 then 0
    else 2 * BitAnd(a / 2, b / 2) + if a % 2 == 1 && b % 2 == 1 then 1 else 0
  }

  function BitOr(a: nat, b: nat): nat {
    if a == 0 then b
    else if b == 0 then a
    else 2 * BitOr(a / 2, b / 2) + if a % 2 == 1 || b % 2 == 1 then 1 else 0
  }

  /** a & b */
  function And(a: int, b: int): int {
    ToInt32(BitAnd(ToUint32(a), ToUint32(b)))
  }

  /** a | b */
  function Or(a: int, b: int): int {
    ToInt32(BitOr(ToUint32(a), ToUint32(b)))
  }

  /** a << s */
  function Shl(a: int, s: nat): int {
    ToInt32(ToUint32(a) * Pow2(s % 32))
  }

  /** a >>> s */
  function Shr(a: int, s: nat): int {
    ToUint32(a) / Pow2(s % 32)
  }

  // ----- bits and division

  lemma AndStep(v: nat, m: nat, bit: nat)
    requires bit <= 1
    ensures BitAnd(v, 2 * m + bit) == 2 * BitAnd(v / 2, m) + if bit == 1 then v % 2 else 0
  {
    if v != 0 && 2 * m + bit != 0 {
      assert (2 * m + bit) / 2 == m && (2 * m + bit) % 2 == bit;
    }
  }

  lemma OrStep(m: nat, y: nat)
    ensures BitOr(2 * m, y) == 2 * BitOr(m, y / 2) + y % 2
  {
    if m != 0 && y != 0 {
      assert 2 * m / 2 == m && 2 * m % 2 == 0;
    }
  }

  lemma {:induction false} AndLow(v: nat, k: nat)
    ensures BitAnd(v, Pow2(k) - 1) == v % Pow2(k)
    decreases k
  {
    if k > 0 {
      var h := Pow2(k - 1);
      AndLow(v / 2, k - 1);
      ModHalf(v, h);
      AndStep(v, h - 1, 1);
      assert Pow2(k) - 1 == 2 * (h - 1) + 1;
    }
  }

  lemma ModHalf(v: nat, h: nat)
    requires h > 0
    ensures v % (2 * h) == 2 * (v / 2 % h) + v % 2
  {
    var q, r := v / 2 / h, v / 2 % h;
    assert v / 2 == q * h + r;
    assert v == q * (2 * h) + (2 * r + v % 2) by {
      assert 2 * (q * h) == q * (2 * h);
    }
    DivUnique(v, q, 2 * r + v % 2, 2 * h);
  }

  lemma AndAll(v: nat, n: nat)
    requires v < Pow2(n)
    ensures BitAnd(v, Pow2(n) - 1) == v
  {
    AndLow(v, n);
    DivUnique(v, 0, v, Pow2(n));
  }

  /** A mask of leading ones clears the low bits. */
  lemma {:induction false} AndHigh(v: nat, n: nat, k: nat)
    requires k <= n && v < Pow2(n)
    ensures Pow2(k) <= Pow2(n)
    ensures BitAnd(v, Pow2(n) - Pow2(k)) == Align(v, Pow2(k))
    decreases k
  {
    if k == 0 {
      AndAll(v, n);
      HostAligned(v);
    } else {
      AndHigh(v / 2, n - 1, k - 1);
      ModHalf(v, Pow2(k - 1));
      AndStep(v, Pow2(n - 1) - Pow2(k - 1), 0);
    }
  }

  lemma HostAligned(v: nat)
    ensures Align(v, Pow2(0)) == v
  {
    DivUnique(v, v, 0, 1);
  }

  /** Or is addition where the bits do not overlap. */
  lemma {:induction false} OrDisjoint(x: nat, y: nat, k: nat)
    requires y < Pow2(k)
    ensures BitOr(x * Pow2(k), y) == x * Pow2(k) + y
    decreases k
  {
    if k == 0 {
      OrStep(0, 0);
    } else {
      var p := Pow2(k - 1);
      OrDisjoint(x, y / 2, k - 1);
      OrStep(x * p, y);
      ScaleTwice(x, p);
    }
  }

  lemma ScaleTwice(x: nat, p: nat)
    ensures x * (2 * p) == 2 * (x * p)
  {
  }

  lemma PowersOfTwo()
    ensures Pow2(8) == 0x100 && Pow2(16) == 0x1_0000 && Pow2(24) == 0x100_0000 && Pow2(32) == TWO32
  {
    assert Pow2(8) == 0x100;
    Pow2Add(8, 8);
    Pow2Add(8, 16);
    Pow2Add(16, 16);
  }

  // ----- the operators as arithmetic

  lemma ShrZero(x: int)
    ensures Shr(x, 0) == ToUint32(x)
  {
    assert Pow2(0) == 1;
  }

  lemma SmallIsSame(x: nat)
    requires x < TWO32
    ensures ToUint32(x) == x
  {
  }

  lemma ShlScales(x: nat, s: nat)
    requires s < 32 && x * Pow2(s) < TWO32
    ensures ToUint32(Shl(x, s)) == x * Pow2(s)
  {
    MulMono(1, Pow2(s), x);
    SmallIsSame(x);
    SmallIsSame(x * Pow2(s));
  }

  lemma OrAdds(a: int, b: int, x: nat, k: nat)
    requires ToUint32(a) == x * Pow2(k) && ToUint32(b) < Pow2(k) && x * Pow2(k) + ToUint32(b) < TWO32
    ensures ToUint32(Or(a, b)) == x * Pow2(k) + ToUint32(b)
  {
    OrDisjoint(x, ToUint32(b), k);
    SmallIsSame(x * Pow2(k) + ToUint32(b));
  }

  lemma AndAligns(a: int, b: int, k: nat)
    requires k < 32 && ToUint32(b) == TWO32 - Pow2(k)
    ensures ToUint32(And(a, b)) == Align(ToUint32(a), Pow2(k))
  {
    PowersOfTwo();
    AndHigh(ToUint32(a), 32, k);
    SmallIsSame(Align(ToUint32(a), Pow2(k)));
  }

  // ----- the CIDR arithmetic

  type Octet = x: int | 0 <= x < 256

  datatype Quad = Quad(a: Octet, b: Octet, c: Octet, d: Octet)

  function Value(q: Quad): nat {
    q.a * 0x100_0000 + q.b * 0x1_0000 + q.c * 0x100 + q.d
  }

  function Pack(q: Quad): int {
    Shr(Or(Or(Or(Shl(q.a, 24), Shl(q.b, 16)), Shl(q.c, 8)), q.d), 0)
  }

  function Netmask(bits: nat): int
    requires bits <= 32
  {
    if bits == 0 then 0 else Shr(Shl(0xffff_ffff, 32 - bits), 0)
  }

  datatype Span = Span(first: int, count: int)

  function Network(q: Quad, bits: nat): int
    requires bits <= 32
  {
    Shr(And(Pack(q), Netmask(bits)), 0)
  }

  function SpanFrom(network: int, bits: nat): Span
    requires bits <= 32
  {
    var addressCount := if bits == 32 then 1 else Pow2(32 - bits);
    var reservedCount := if bits < 31 then 2 else 0;
    Span(Shr(network + (if reservedCount != 0 then 1 else 0), 0), addressCount - reservedCount)
  }

  function UsableRange(q: Quad, bits: nat): Span
    requires bits <= 32
  {
    SpanFrom(Network(q, bits), bits)
  }

  lemma PackIsValue(q: Quad)
    ensures Pack(q) == Value(q)
  {
    PowersOfTwo();
    ShlScales(q.a, 24);
    ShlScales(q.b, 16);
    ShlScales(q.c, 8);
    var a, b, c := Shl(q.a, 24), Shl(q.b, 16), Shl(q.c, 8);
    OrAdds(a, b, q.a, 24);
    OrAdds(Or(a, b), c, q.a * 0x100 + q.b, 16);
    SmallIsSame(q.d);
    OrAdds(Or(Or(a, b), c), q.d, q.a * 0x1_0000 + q.b * 0x100 + q.c, 8);
    ShrZero(Or(Or(Or(a, b), c), q.d));
  }

  lemma NetmaskIsHigh(bits: nat)
    requires 0 < bits <= 32
    ensures Pow2(32 - bits) < TWO32 && Netmask(bits) == TWO32 - Pow2(32 - bits)
  {
    BelowTwo32(32 - bits);
    ShlOnes(32 - bits);
    ShrZero(Shl(0xffff_ffff, 32 - bits));
  }

  lemma {:induction false} ShlOnes(k: nat)
    requires k < 32 && Pow2(k) < TWO32
    ensures ToUint32(Shl(0xffff_ffff, k)) == TWO32 - Pow2(k)
  {
    OnesShifted(Pow2(k));
  }

  lemma BelowTwo32(k: nat)
    requires k < 32
    ensures Pow2(k) < TWO32
  {
    PowersOfTwo();
    Pow2Mono(k + 1, 32);
  }

  lemma OnesShifted(s: nat)
    requires 0 < s < TWO32
    ensures ToUint32(0xffff_ffff * s) == TWO32 - s
  {
    assert 0xffff_ffff * s == (s - 1) * TWO32 + (TWO32 - s);
    DivUnique(0xffff_ffff * s, s - 1, TWO32 - s, TWO32);
  }

  function PrefixOf(q: Quad, bits: nat): Cidr
    requires bits <= 32
  {
    PowersOfTwo();
    Prefix(Addr(V4, Value(q)), bits)
  }

  lemma NetworkIsRangeFrom(q: Quad, bits: nat)
    requires bits <= 32
    ensures Network(q, bits) == RangeFrom(PrefixOf(q, bits))
  {
    ShrZero(And(Pack(q), Netmask(bits)));
    PackIsValue(q);
    SmallIsSame(Value(q));
    if bits == 0 {
      ZeroMask(Pack(q));
      PowersOfTwo();
      AlignSmall(Value(q), Pow2(32));
    } else {
      NetmaskIsHigh(bits);
      SmallIsSame(Netmask(bits));
      AndAligns(Pack(q), Netmask(bits), 32 - bits);
    }
  }

  lemma ZeroMask(a: int)
    ensures ToUint32(And(a, 0)) == 0
  {
    assert BitAnd(ToUint32(a), 0) == 0;
  }

  lemma AlignSmall(v: nat, s: nat)
    requires v < s
    ensures Align(v, s) == 0
  {
    DivUnique(v, 0, v, s);
  }

  /**
   * The page lists an unbroken run of addresses without a 32-bit wrap. The run is exactly the
   * addresses that the backend accepts if and only if the prefix is not a /32; there it is
   * the one address that the backend refuses.
   */
  lemma EnumerationIsAccepted(q: Quad, bits: nat)
    requires bits <= 32
    ensures var u, p := UsableRange(q, bits), PrefixOf(q, bits);
            && u.count >= 1 && 0 <= u.first && u.first + u.count <= TWO32
            && (Interval(u.first, u.first + u.count) == AcceptedValues(p) <==> bits != 32)
            && (bits == 32 ==> u == Span(Value(q), 1) && ValidateIPInSubnet(p, p.addr) == NetworkOrBroadcast)
  {
    RangeIsSpan(q, bits);
    var u, p := UsableRange(q, bits), PrefixOf(q, bits);
    AcceptedIsInterval(p);
    if bits == 32 {
      HostAligned(Value(q));
      HostPrefixAcceptsNothing(p, p.addr);
      assert u.first in Interval(u.first, u.first + u.count);
    }
  }

  function HeldBack(bits: nat): nat {
    if bits < 31 then 1 else 0
  }

  /** The run does not wrap, and is exactly what the backend accepts if and only if the prefix is no /32. */
  ghost predicate Agrees(u: Span, p: Cidr) {
    && u.count >= 1 && 0 <= u.first && u.first + u.count <= TWO32
    && (Interval(u.first, u.first + u.count) == AcceptedValues(p) <==> p.bits != 32)
  }

  lemma UsableRangeAgrees(q: Quad, bits: nat)
    requires bits <= 32
    ensures Agrees(UsableRange(q, bits), PrefixOf(q, bits))
  {
    EnumerationIsAccepted(q, bits);
  }

  /** The run is the prefix less the held-back ends, and stays in the space. */
  lemma RangeIsSpan(q: Quad, bits: nat)
    requires bits <= 32
    ensures var u, p, r := UsableRange(q, bits), PrefixOf(q, bits), HeldBack(bits);
            u == Span(RangeFrom(p) + r, Size(p) - 2 * r) && u.count >= 1 && RangeFrom(p) + Size(p) <= TWO32
  {
    NetworkFits(PrefixOf(q, bits));
    UsableRangeIs(q, bits);
  }

  lemma NetworkFits(p: Cidr)
    requires p.addr.family.V4?
    ensures RangeFrom(p) + Pow2(32 - p.bits) <= TWO32
  {
    RangeInSpace(p);
    PowersOfTwo();
  }

  lemma UsableRangeIs(q: Quad, bits: nat)
    requires bits <= 32 && RangeFrom(PrefixOf(q, bits)) + Pow2(32 - bits) <= TWO32
    ensures var r := HeldBack(bits);
            && UsableRange(q, bits) == Span(RangeFrom(PrefixOf(q, bits)) + r, Pow2(32 - bits) - 2 * r)
            && Pow2(32 - bits) - 2 * r >= 1
  {
    NetworkIsRangeFrom(q, bits);
    SpanFromIs(Network(q, bits), bits);
  }

  lemma SpanFromIs(network: nat, bits: nat)
    requires bits <= 32 && network + Pow2(32 - bits) <= TWO32
    ensures var r := HeldBack(bits);
            SpanFrom(network, bits) == Span(network + r, Pow2(32 - bits) - 2 * r) && Pow2(32 - bits) - 2 * r >= 1
  {
    assert Pow2(0) == 1 && Pow2(1) == 2 && Pow2(2) == 4;
    if bits < 31 { Pow2Mono(2, 32 - bits); }
    ShrZero(network + HeldBack(bits));
    SmallIsSame(network + HeldBack(bits));
  }

  // ----- formatting

  function LowByte(x: int): (r: int)
    ensures 0 <= r < 256 && r == ToUint32(x) % 256
  {
    PowersOfTwo();
    AndLow(ToUint32(x), 8);
    SmallIsSame(255);
    And(x, 255)
  }

  function FormatIPv4(value: int): Quad {
    Quad(LowByte(Shr(value, 24)), LowByte(Shr(value, 16)), LowByte(Shr(value, 8)), LowByte(value))
  }

  lemma FormatBytes(value: int)
    ensures var u := ToUint32(value);
            FormatIPv4(value) == Quad(u / 0x100_0000 % 256, u / 0x1_0000 % 256, u / 0x100 % 256, u % 256)
  {
    PowersOfTwo();
    var u := ToUint32(value);
    SmallIsSame(u / 0x100_0000);
    SmallIsSame(u / 0x1_0000);
    SmallIsSame(u / 0x100);
  }

  lemma BytesOfValue(u: nat)
    requires u < TWO32
    ensures Value(Quad(u / 0x100_0000 % 256, u / 0x1_0000 % 256, u / 0x100 % 256, u % 256)) == u
  {
    var abc, d := u / 0x100, u % 0x100;
    var ab, c := abc / 0x100, abc % 0x100;
    var a, b := ab / 0x100, ab % 0x100;
    DivUnique(u, ab, c * 0x100 + d, 0x1_0000);
    DivUnique(u, a, b * 0x1_0000 + c * 0x100 + d, 0x100_0000);
    DivUnique(a, 0, a, 0x100);
  }

  lemma ValueOfBytes(q: Quad)
    ensures var u := Value(q);
            u < TWO32 && q == Quad(u / 0x100_0000 % 256, u / 0x1_0000 % 256, u / 0x100 % 256, u % 256)
  {
    var u := Value(q);
    DivUnique(u, q.a, q.b * 0x1_0000 + q.c * 0x100 + q.d, 0x100_0000);
    DivUnique(u, q.a * 0x100 + q.b, q.c * 0x100 + q.d, 0x1_0000);
    DivUnique(u, q.a * 0x1_0000 + q.b * 0x100 + q.c, q.d, 0x100);
    DivUnique(q.a * 0x100 + q.b, q.a, q.b, 0x100);
    DivUnique(q.a * 0x1_0000 + q.b * 0x100 + q.c, q.a * 0x100 + q.b, q.c, 0x100);
    DivUnique(q.a, 0, q.a, 0x100);
  }

  /** Formatting and packing are inverse to each other on all 32-bit values and all octets. */
  lemma FormatInvertsPack(value: int, q: Quad)
    ensures Pack(FormatIPv4(value)) == ToUint32(value)
    ensures FormatIPv4(Pack(q)) == q
  {
    FormatBytes(value);
    BytesOfValue(ToUint32(value));
    PackIsValue(FormatIPv4(value));
    PackIsValue(q);
    ValueOfBytes(q);
    SmallIsSame(Value(q));
    FormatBytes(Value(q));
  }

  lemma FormatShows(v: nat)
    requires v < TWO32
    ensures Value(FormatIPv4(Shr(v, 0))) == v
  {
    ShrZero(v);
    SmallIsSame(v);
    FormatBytes(v);
    BytesOfValue(v);
  }

  // ----- the windows

  const WINDOW: nat := 256

  function MaxStart(count: nat): nat {
    if count > WINDOW then (count - 1) / WINDOW * WINDOW else 0
  }

  function Start(windowStart: nat, count: nat): nat {
    if windowStart < MaxStart(count) then windowStart else MaxStart(count)
  }

  function End(windowStart: nat, count: nat): nat {
    var start := Start(windowStart, count);
    if start + WINDOW < count then start + WINDOW else count
  }

  datatype Click = Previous | Next

  /** A disabled button does nothing; both are hidden when there is one window only. */
  function OnClick(windowStart: nat, count: nat, c: Click): nat {
    var max, start := MaxStart(count), Start(windowStart, count);
    match c
    case Previous =>
      if max == 0 || start == 0 then windowStart
      else if windowStart < WINDOW then 0 else windowStart - WINDOW
    case Next =>
      if max == 0 || start >= max then windowStart
      else if windowStart + WINDOW < max then windowStart + WINDOW else max
  }

  /** The page is opened at window 0. */
  function Clicked(count: nat, clicks: seq<Click>): nat
    decreases |clicks|
  {
    if clicks == [] then 0 else OnClick(Clicked(count, clicks[..|clicks| - 1]), count, clicks[|clicks| - 1])
  }

  predicate IsWindowStart(count: nat, s: nat) {
    s % WINDOW == 0 && s <= MaxStart(count)
  }

  lemma ClickAligned(windowStart: nat, count: nat, c: Click)
    requires IsWindowStart(count, windowStart)
    ensures IsWindowStart(count, OnClick(windowStart, count, c))
  {
    assert MaxStart(count) % 256 == 0;
  }

  lemma {:induction false} ClickedAligned(count: nat, clicks: seq<Click>)
    ensures IsWindowStart(count, Clicked(count, clicks))
    decreases |clicks|
  {
    if clicks != [] {
      ClickedAligned(count, clicks[..|clicks| - 1]);
      ClickAligned(Clicked(count, clicks[..|clicks| - 1]), count, clicks[|clicks| - 1]);
    }
  }

  lemma {:induction false} NextReaches(count: nat, k: nat)
    requires k * WINDOW <= MaxStart(count)
    ensures Clicked(count, seq(k, _ => Next)) == k * WINDOW
    decreases k
  {
    if k > 0 {
      NextReaches(count, k - 1);
      assert seq(k, _ => Next)[..k - 1] == seq(k - 1, _ => Next);
    }
  }

  /** The starts that clicking can reach are exactly the multiples of 256 up to the last window. */
  lemma ReachableStarts(count: nat, s: nat)
    ensures (exists clicks :: Start(Clicked(count, clicks), count) == s) <==> IsWindowStart(count, s)
  {
    if clicks :| Start(Clicked(count, clicks), count) == s {
      ClickedAligned(count, clicks);
    }
    if IsWindowStart(count, s) {
      NextReaches(count, s / WINDOW);
      assert Start(Clicked(count, seq(s / WINDOW, _ => Next)), count) == s;
    }
  }

  /** The reachable windows tile the usable addresses: every position lies in exactly one. */
  lemma WindowsTile(count: nat, position: nat)
    requires position < count
    ensures var home := position / WINDOW * WINDOW;
            && IsWindowStart(count, home) && home <= position < End(home, count)
            && (forall s: nat :: IsWindowStart(count, s) && s <= position < End(s, count) ==> s == home)
  {
    assert (position / WINDOW) <= (count - 1) / WINDOW;
  }

  /** A window has 256 addresses, or the rest if that is less; none is empty. */
  lemma WindowsInside(count: nat, s: nat)
    requires count > 0 && IsWindowStart(count, s)
    ensures Start(s, count) == s && s < End(s, count) <= count
            && (End(s, count) == s + 256 || (End(s, count) == count && count <= s + 256))
  {
  }

  /**
   * From a window that can be reached, Next goes 256 addresses on and no further than the last
   * window, and Previous goes 256 back and no further than the first.
   */
  lemma ClicksMove(count: nat, s: nat)
    requires IsWindowStart(count, s)
    ensures OnClick(s, count, Next) == if s + 256 < count then s + 256 else s
    ensures OnClick(s, count, Previous) == if s >= 256 then s - 256 else s
  {
    if s < MaxStart(count) {
      assert s / 256 < (count - 1) / 256;
    }
  }

  /** What f makes of n consecutive numbers. */
  function Rendered(f: int -> Quad, base: int, n: nat): seq<Quad> {
    seq(n, i => f(base + i))
  }

  lemma RenderedValues(f: int -> Quad, base: nat, n: nat)
    requires base + n <= TWO32
    requires forall v :: 0 <= v < TWO32 ==> Value(f(v)) == v
    ensures forall i :: 0 <= i < n ==> Value(Rendered(f, base, n)[i]) == base + i
  {
  }

  function AddressText(v: int): Quad {
    FormatIPv4(Shr(v, 0))
  }

  lemma AllFormatted()
    ensures forall v :: 0 <= v < TWO32 ==> Value(AddressText(v)) == v
  {
    forall v | 0 <= v < TWO32
      ensures Value(AddressText(v)) == v
    {
      FormatShows(v);
    }
  }

  /** The addresses rendered for a window. */
  function Page(u: Span, windowStart: nat): seq<Quad>
    requires u.count >= 1
  {
    var start := Start(windowStart, u.count);
    Rendered(AddressText, u.first + start, End(windowStart, u.count) - start)
  }

  lemma PageValues(u: Span, s: nat)
    requires u.count >= 1 && 0 <= u.first && u.first + u.count <= TWO32 && IsWindowStart(u.count, s)
    ensures var page := Page(u, s);
            |page| == End(s, u.count) - s && forall i :: 0 <= i < |page| ==> Value(page[i]) == u.first + s + i
  {
    WindowsInside(u.count, s);
    AllFormatted();
    RenderedValues(AddressText, u.first + s, End(s, u.count) - s);
  }

  ghost predicate PageShows(page: seq<Quad>, v: nat) {
    exists i :: 0 <= i < |page| && Value(page[i]) == v
  }

  lemma PageShowsRange(u: Span, s: nat, v: nat)
    requires u.count >= 1 && 0 <= u.first && u.first + u.count <= TWO32 && IsWindowStart(u.count, s)
    ensures PageShows(Page(u, s), v) <==> s <= v - u.first < End(s, u.count)
  {
    PageValues(u, s);
    if s <= v - u.first < End(s, u.count) {
      assert Value(Page(u, s)[v - u.first - s]) == v;
    }
  }

  /** The reachable windows show the number exactly once. */
  ghost predicate OnOnePage(u: Span, v: nat) {
    && u.count >= 1 && u.first <= v
    && var home := (v - u.first) / WINDOW * WINDOW; IsWindowStart(u.count, home) && OnlyPage(u, home, v)
  }

  /** Every address that the backend accepts is shown on exactly one of the reachable windows. */
  lemma EveryAddressOnOnePage(q: Quad, bits: nat, a: IpAddr)
    requires bits < 32 && Accepts(PrefixOf(q, bits), a)
    ensures OnOnePage(UsableRange(q, bits), a.value)
  {
    AcceptedInSpan(q, bits, a);
    SpanOnOnePage(UsableRange(q, bits), a.value);
  }

  lemma SpanOnOnePage(u: Span, v: nat)
    requires u.count >= 1 && 0 <= u.first <= v < u.first + u.count <= TWO32
    ensures OnOnePage(u, v)
  {
    PositionOnOnePage(u, v);
  }

  lemma AcceptedInSpan(q: Quad, bits: nat, a: IpAddr)
    requires bits < 32 && Accepts(PrefixOf(q, bits), a)
    ensures var u := UsableRange(q, bits);
            u.count >= 1 && 0 <= u.first <= a.value < u.first + u.count <= TWO32
  {
    EnumerationIsAccepted(q, bits);
    var u := UsableRange(q, bits);
    assert a.value in AcceptedValues(PrefixOf(q, bits));
    assert a.value in Interval(u.first, u.first + u.count);
  }

  ghost predicate OnlyPage(u: Span, home: nat, v: nat)
    requires u.count >= 1
  {
    forall s: nat :: IsWindowStart(u.count, s) ==> (PageShows(Page(u, s), v) <==> s == home)
  }

  lemma PositionOnOnePage(u: Span, v: nat)
    requires u.count >= 1 && 0 <= u.first <= v < u.first + u.count <= TWO32
    ensures IsWindowStart(u.count, (v - u.first) / WINDOW * WINDOW) && OnlyPage(u, (v - u.first) / WINDOW * WINDOW, v)
  {
    var home := (v - u.first) / WINDOW * WINDOW;
    WindowsTile(u.count, v - u.first);
    forall s: nat | IsWindowStart(u.count, s)
      ensures PageShows(Page(u, s), v) <==> s == home
    {
      PageShowsRange(u, s, v);
    }
  }
}
