/**
 * Reading a CIDR text in the browser: splitting, Number(), and which texts render a list.
 * Number() is modelled on texts of decimal digits, the empty text included, which reads as 0;
 * on every other text (signs, blanks, exponents) it is a parameter.
 */
module BrowserText {
  import opened Wrappers
  import opened SubnetView

  // ----- split

  function Split(s: string, c: char): (r: seq<string>)
    ensures |r| >= 1
    decreases |s|
  {
    if s == "" then [""]
    else
      var rest := Split(s[1..], c);
      if s[0] == c then [""] + rest else [[s[0]] + rest[0]] + rest[1..]
  }

  /** The pieces with the separator between them. */
  function Join(pieces: seq<string>, c: char): string
    requires |pieces| >= 1
    decreases |pieces|
  {
    if |pieces| == 1 then pieces[0] else pieces[0] + [c] + Join(pieces[1..], c)
  }

  /** Splitting loses nothing, and no piece holds the separator. */
  lemma {:induction false} SplitIsWhole(s: string, c: char)
    ensures Join(Split(s, c), c) == s
    ensures forall i :: 0 <= i < |Split(s, c)| ==> c !in Split(s, c)[i]
    decreases |s|
  {
    if s != "" {
      SplitIsWhole(s[1..], c);
      var rest, r := Split(s[1..], c), Split(s, c);
      assert s == [s[0]] + s[1..];
      if s[0] == c {
        assert r[1..] == rest;
      } else {
        assert r[1..] == rest[1..];
      }
    }
  }

  lemma {:induction false} SplitNone(x: string, c: char)
    requires c !in x
    ensures Split(x, c) == [x]
    decreases |x|
  {
    if x != "" {
      assert x[0] in x && forall d :: d in x[1..] ==> d in x;
      SplitNone(x[1..], c);
      assert x == [x[0]] + x[1..];
    }
  }

  lemma {:induction false} SplitFirst(x: string, c: char, rest: string)
    requires c !in x
    ensures Split(x + [c] + rest, c) == [x] + Split(rest, c)
    decreases |x|
  {
    var s := x + [c] + rest;
    if x == "" {
      assert s[1..] == rest;
    } else {
      assert x[0] in x && forall d :: d in x[1..] ==> d in x;
      assert s[1..] == x[1..] + [c] + rest;
      SplitFirst(x[1..], c, rest);
      assert x == [x[0]] + x[1..];
    }
  }

  // ----- Number()

  predicate Digits(s: string) {
    forall i :: 0 <= i < |s| ==> '0' <= s[i] <= '9'
  }

  function Decimal(s: string): nat
    requires Digits(s)
    decreases |s|
  {
    if s == "" then 0 else 10 * Decimal(s[..|s| - 1]) + (s[|s| - 1] - '0') as nat
  }

  function Number(other: string -> Option<int>, s: string): Option<int> {
    if Digits(s) then Some(Decimal(s)) else other(s)
  }

  // ----- the parser

  predicate InRange(n: Option<int>, max: nat) {
    n.Some? && 0 <= n.value <= max
  }

  function ParseUsableIPv4Cidr(other: string -> Option<int>, cidr: string): Option<Span> {
    var parts := Split(cidr, '/');
    var address := parts[0];
    var mask := if |parts| > 1 then Number(other, parts[1]) else None;
    var octets := Split(address, '.');
    if address == "" || !InRange(mask, 32) || |octets| != 4
       || !InRange(Number(other, octets[0]), 255) || !InRange(Number(other, octets[1]), 255)
       || !InRange(Number(other, octets[2]), 255) || !InRange(Number(other, octets[3]), 255)
    then None
    else Some(UsableRange(Quad(Number(other, octets[0]).value, Number(other, octets[1]).value,
                               Number(other, octets[2]).value, Number(other, octets[3]).value), mask.value))
  }

  // ----- which texts render

  datatype Pieces = Pieces(a: string, b: string, c: string, d: string, mask: string, tail: string)

  function AddressText(p: Pieces): string {
    p.a + ['.'] + (p.b + ['.'] + (p.c + ['.'] + p.d))
  }

  function TextOf(p: Pieces): string {
    AddressText(p) + ['/'] + (p.mask + p.tail)
  }

  /** No piece holds a separator of its own; anything after a second slash is the tail. */
  predicate Clean(p: Pieces) {
    && '.' !in p.a && '.' !in p.b && '.' !in p.c && '.' !in p.d
    && '/' !in p.a && '/' !in p.b && '/' !in p.c && '/' !in p.d && '/' !in p.mask
    && (p.tail == "" || p.tail[0] == '/')
  }

  /** The pieces read as the numbers of a prefix. */
  predicate ReadAs(other: string -> Option<int>, p: Pieces, q: Quad, bits: nat) {
    && Number(other, p.a) == Some(q.a) && Number(other, p.b) == Some(q.b)
    && Number(other, p.c) == Some(q.c) && Number(other, p.d) == Some(q.d)
    && Number(other, p.mask) == Some(bits) && bits <= 32
  }

  ghost predicate Renders(other: string -> Option<int>, cidr: string, u: Span) {
    exists p, q, bits :: RendersAs(other, cidr, u, p, q, bits)
  }

  ghost predicate RendersAs(other: string -> Option<int>, cidr: string, u: Span, p: Pieces, q: Quad, bits: nat) {
    Clean(p) && cidr == TextOf(p) && ReadAs(other, p, q, bits) && u == UsableRange(q, bits)
  }

  lemma SplitAddress(p: Pieces)
    requires Clean(p)
    ensures Split(AddressText(p), '.') == [p.a, p.b, p.c, p.d]
  {
    SplitFirst(p.a, '.', p.b + ['.'] + (p.c + ['.'] + p.d));
    SplitFirst(p.b, '.', p.c + ['.'] + p.d);
    SplitFirst(p.c, '.', p.d);
    SplitNone(p.d, '.');
  }

  lemma SplitText(p: Pieces)
    requires Clean(p)
    ensures var parts := Split(TextOf(p), '/'); |parts| >= 2 && parts[0] == AddressText(p) && parts[1] == p.mask
  {
    SplitFirst(AddressText(p), '/', p.mask + p.tail);
    if p.tail == "" {
      SplitNone(p.mask, '/');
      assert p.mask + p.tail == p.mask;
    } else {
      SplitFirst(p.mask, '/', p.tail[1..]);
      assert p.mask + p.tail == p.mask + ['/'] + p.tail[1..];
    }
  }

  lemma CleanTextParses(other: string -> Option<int>, p: Pieces, q: Quad, bits: nat)
    requires Clean(p) && ReadAs(other, p, q, bits)
    ensures ParseUsableIPv4Cidr(other, TextOf(p)) == Some(UsableRange(q, bits))
  {
    SplitText(p);
    SplitAddress(p);
    assert AddressText(p)[|p.a|] == '.';
  }

  lemma JoinFour(s: string, pieces: seq<string>)
    requires |pieces| == 4 && s == Join(pieces, '.')
    ensures s == pieces[0] + ['.'] + (pieces[1] + ['.'] + (pieces[2] + ['.'] + pieces[3]))
  {
    var bcd, cd := [pieces[1], pieces[2], pieces[3]], [pieces[2], pieces[3]];
    assert pieces[1..] == bcd && bcd[1..] == cd && cd[1..] == [pieces[3]];
    assert Join(cd, '.') == pieces[2] + ['.'] + pieces[3];
    assert Join(bcd, '.') == pieces[1] + ['.'] + Join(cd, '.');
  }

  lemma JoinTail(s: string, parts: seq<string>) returns (tail: string)
    requires |parts| >= 2 && s == Join(parts, '/')
    ensures s == parts[0] + ['/'] + (parts[1] + tail) && (tail == "" || tail[0] == '/')
  {
    if |parts| == 2 {
      tail := "";
      assert parts[1..] == [parts[1]];
    } else {
      tail := ['/'] + Join(parts[1..][1..], '/');
    }
  }

  lemma ParsedIsClean(other: string -> Option<int>, cidr: string, u: Span)
    requires ParseUsableIPv4Cidr(other, cidr) == Some(u)
    ensures Renders(other, cidr, u)
  {
    var parts := Split(cidr, '/');
    var octets := Split(parts[0], '.');
    SplitIsWhole(cidr, '/');
    SplitIsWhole(parts[0], '.');
    var tail := JoinTail(cidr, parts);
    JoinFour(parts[0], octets);
    var p := Pieces(octets[0], octets[1], octets[2], octets[3], parts[1], tail);
    assert parts[0] == AddressText(p) && cidr == TextOf(p);
    PiecesInside(p);
    var q := Quad(Number(other, p.a).value, Number(other, p.b).value, Number(other, p.c).value,
                  Number(other, p.d).value);
    assert RendersAs(other, cidr, u, p, q, Number(other, p.mask).value);
  }

  /** A character that is not in the address is in none of its pieces. */
  lemma PiecesInside(p: Pieces)
    ensures '/' !in AddressText(p) ==> '/' !in p.a && '/' !in p.b && '/' !in p.c && '/' !in p.d
  {
  }

  /**
   * A text renders a list exactly when it is four pieces, a slash, a mask and possibly a tail
   * after another slash, and the pieces read as numbers in range; the list is that prefix's.
   */
  lemma RendersExactly(other: string -> Option<int>, cidr: string, u: Span)
    ensures ParseUsableIPv4Cidr(other, cidr) == Some(u) <==> Renders(other, cidr, u)
  {
    if ParseUsableIPv4Cidr(other, cidr) == Some(u) {
      ParsedIsClean(other, cidr, u);
    }
    if Renders(other, cidr, u) {
      var p, q, bits :| RendersAs(other, cidr, u, p, q, bits);
      CleanTextParses(other, p, q, bits);
    }
  }

  // ----- the texts that the backend sends

  /** Decimal notation without leading zeros. */
  function Dec(n: nat): (s: string)
    ensures s != "" && Digits(s) && Decimal(s) == n
  {
    if n < 10 then
      var s := ['0' + n as char];
      assert s[..0] == "";
      s
    else
      var front := Dec(n / 10);
      var s := front + ['0' + (n % 10) as char];
      assert s[..|s| - 1] == front;
      s
  }

  function PlainPieces(q: Quad, bits: nat): Pieces {
    Pieces(Dec(q.a), Dec(q.b), Dec(q.c), Dec(q.d), Dec(bits), "")
  }

  function CidrText(q: Quad, bits: nat): string {
    TextOf(PlainPieces(q, bits))
  }

  /** The text of one address, as the page prints it and the backend sends it. */
  function Dotted(q: Quad): string {
    AddressText(PlainPieces(q, 0))
  }

  lemma DigitsAreClean(s: string)
    requires Digits(s)
    ensures '.' !in s && '/' !in s
  {
  }

  lemma PlainIsClean(q: Quad, bits: nat)
    ensures Clean(PlainPieces(q, bits))
  {
    DigitsAreClean(Dec(q.a));
    DigitsAreClean(Dec(q.b));
    DigitsAreClean(Dec(q.c));
    DigitsAreClean(Dec(q.d));
    DigitsAreClean(Dec(bits));
  }

  /**
   * Every IPv4 CIDR in decimal notation, which is what the backend sends, renders; the list is
   * the set of addresses the backend accepts exactly when the mask is not 32.
   */
  lemma BackendTextRenders(other: string -> Option<int>, q: Quad, bits: nat)
    requires bits <= 32
    ensures ParseUsableIPv4Cidr(other, CidrText(q, bits)) == Some(UsableRange(q, bits))
    ensures Agrees(UsableRange(q, bits), PrefixOf(q, bits))
  {
    PlainIsClean(q, bits);
    CleanTextParses(other, PlainPieces(q, bits), q, bits);
    UsableRangeAgrees(q, bits);
  }

  /** Two addresses print alike only if they are equal, so looking a record up by its text finds the right one. */
  lemma DottedInjective(q: Quad, q': Quad)
    requires Dotted(q) == Dotted(q')
    ensures q == q'
  {
    PlainIsClean(q, 0);
    PlainIsClean(q', 0);
    SplitAddress(PlainPieces(q, 0));
    SplitAddress(PlainPieces(q', 0));
    assert Decimal(Dec(q.a)) == Decimal(Dec(q'.a)) && Decimal(Dec(q.b)) == Decimal(Dec(q'.b));
    assert Decimal(Dec(q.c)) == Decimal(Dec(q'.c)) && Decimal(Dec(q.d)) == Decimal(Dec(q'.d));
  }

  // ----- texts that render although they are no CIDR

  lemma SmallNumbers()
    ensures Decimal("") == 0 && Decimal("0") == 0 && Decimal("1") == 1 && Decimal("2") == 2 && Decimal("3") == 3
    ensures Decimal("10") == 10 && Decimal("24") == 24
  {
    assert "0"[..0] == "" && "1"[..0] == "" && "2"[..0] == "" && "3"[..0] == "";
    assert "10"[..1] == "1" && "24"[..1] == "2";
  }

  /** A missing mask reads as 0. */
  lemma MissingMaskRenders(other: string -> Option<int>)
    ensures ParseUsableIPv4Cidr(other, "10.0.0.0/") == Some(UsableRange(Quad(10, 0, 0, 0), 0))
  {
    var p := Pieces("10", "0", "0", "0", "", "");
    SmallNumbers();
    assert TextOf(p) == "10.0.0.0/";
    CleanTextParses(other, p, Quad(10, 0, 0, 0), 0);
  }

  /** So does a missing octet. */
  lemma MissingOctetRenders(other: string -> Option<int>)
    ensures ParseUsableIPv4Cidr(other, "1..2.3/24") == Some(UsableRange(Quad(1, 0, 2, 3), 24))
  {
    var p := Pieces("1", "", "2", "3", "24", "");
    SmallNumbers();
    assert TextOf(p) == "1..2.3/24";
    CleanTextParses(other, p, Quad(1, 0, 2, 3), 24);
  }

  /** A third part is ignored. */
  lemma ThirdPartRenders(other: string -> Option<int>)
    ensures ParseUsableIPv4Cidr(other, "10.0.0.0/24/x") == Some(UsableRange(Quad(10, 0, 0, 0), 24))
  {
    var p := Pieces("10", "0", "0", "0", "24", "/x");
    SmallNumbers();
    assert TextOf(p) == "10.0.0.0/24/x";
    CleanTextParses(other, p, Quad(10, 0, 0, 0), 24);
  }
}
