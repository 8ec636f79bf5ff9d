/** Addresses as text splits them, and what parseInt makes of each piece. */
module IpAddress {
  import opened Bytes
  import opened Text

  datatype V4 = V4(a: byte, b: byte, c: byte, d: byte)

  /** What stands between two colons: up to four hex digits, or a dotted quad in the last place. */
  datatype Piece = Group(digits: Octets) | Dotted(v4: V4)

  /** IPv6 text without a zone: pieces between single colons, or two runs around "::". */
  datatype Ipv6 = Full(pieces: seq<Piece>) | Elided(left: seq<Piece>, right: seq<Piece>)

  predicate IsDigit(c: byte) { 0x30 <= c <= 0x39 }

  predicate IsHexDigit(c: byte) { IsDigit(c) || 0x41 <= c <= 0x46 || 0x61 <= c <= 0x66 }

  function DigitValue(c: byte): (v: nat)
    requires IsHexDigit(c)
    ensures v < 16
  {
    if IsDigit(c) then c - 0x30 else LowerChar(c) - 0x57
  }

  predicate AllHex(ds: Octets)
  {
    forall i :: 0 <= i < |ds| ==> IsHexDigit(ds[i])
  }

  /** parseInt(text, 16) on hex digits */
  function HexValue(ds: Octets): nat
    requires AllHex(ds)
  {
    if ds == [] then 0 else HexValue(ds[..|ds| - 1]) * 16 + DigitValue(ds[|ds| - 1])
  }

  predicate IsGroup(p: Piece)
  {
    p.Group? && 1 <= |p.digits| <= 4 && AllHex(p.digits)
  }

  /** Hex groups, with a dotted quad allowed in the last place. */
  predicate Pieces(ps: seq<Piece>)
  {
    forall i :: 0 <= i < |ps| ==> IsGroup(ps[i]) || (ps[i].Dotted? && i == |ps| - 1)
  }

  predicate EndsDotted(ps: seq<Piece>)
  {
    ps != [] && ps[|ps| - 1].Dotted?
  }

  /** The sixteen-bit words a run of pieces stands for. */
  function Width(ps: seq<Piece>): nat
  {
    |ps| + if EndsDotted(ps) then 1 else 0
  }

  /** net.isIPv6 */
  predicate IsIpv6(a: Ipv6)
  {
    match a
    case Full(pieces) => Pieces(pieces) && Width(pieces) == 8
    case Elided(left, right) => Pieces(left) && !EndsDotted(left) && Pieces(right) && |left| + Width(right) <= 7
  }

  lemma {:induction false} HexBound(ds: Octets)
    requires AllHex(ds) && |ds| <= 4
    ensures HexValue(ds) < 0x1_0000
    ensures |ds| == 4 ==>
              HexValue(ds)
              == DigitValue(ds[0]) * 0x1000 + DigitValue(ds[1]) * 0x100 + DigitValue(ds[2]) * 0x10 + DigitValue(ds[3])
    ensures |ds| < 4 ==> HexValue(ds) < 0x1000
    ensures |ds| == 3 ==> HexValue(ds) == DigitValue(ds[0]) * 0x100 + DigitValue(ds[1]) * 0x10 + DigitValue(ds[2])
    ensures |ds| == 2 ==> HexValue(ds) == DigitValue(ds[0]) * 0x10 + DigitValue(ds[1])
    ensures |ds| == 1 ==> HexValue(ds) == DigitValue(ds[0])
  {
    if ds != [] {
      HexBound(ds[..|ds| - 1]);
    }
  }

  // ---------------------------------------------------------------- meaning

  /** The value of one group. */
  function Word(p: Piece): u16
    requires IsGroup(p)
  {
    HexBound(p.digits);
    HexValue(p.digits)
  }

  /** The words that pieces denote: a dotted quad is two words. */
  function Words(ps: seq<Piece>): (w: seq<u16>)
    requires Pieces(ps)
    ensures |w| == Width(ps)
  {
    if ps == [] then []
    else
      assert Pieces(ps[1..]);
      match ps[0]
      case Group(_) => [Word(ps[0])] + Words(ps[1..])
      case Dotted(v4) => [(v4.a as int) * 256 + v4.b, (v4.c as int) * 256 + v4.d]
  }

  function Zeros(n: nat): (r: seq<u16>)
    ensures |r| == n
  {
    seq(n, _ => 0)
  }

  /** The address that text denotes (section 2.2 of RFC 4291). */
  function Value(a: Ipv6): (w: seq<u16>)
    requires IsIpv6(a)
    ensures |w| == 8
  {
    match a
    case Full(pieces) => Words(pieces)
    case Elided(left, right) => Words(left) + Zeros(8 - |left| - Width(right)) + Words(right)
  }

  // ---------------------------------------------------------------- reading each piece with parseInt

  function Decimal(n: byte): (ds: Octets)
    ensures 1 <= |ds| <= 3 && AllHex(ds)
  {
    if n >= 100 then [0x30 + n / 100, 0x30 + n / 10 % 10, 0x30 + n % 10]
    else if n >= 10 then [0x30 + n / 10, 0x30 + n % 10]
    else [0x30 + n]
  }

  /** parseInt(piece, 16): of a dotted quad it reads the first number, taking its decimal digits for hex ones. */
  function ParseHex(p: Piece): u16
    requires IsGroup(p) || p.Dotted?
  {
    var ds := if p.Dotted? then Decimal(p.v4.a) else p.digits;
    HexBound(ds);
    HexValue(ds)
  }

  /** One word for every piece. */
  function Parsed(ps: seq<Piece>): (w: seq<u16>)
    requires Pieces(ps)
    ensures |w| == |ps|
  {
    if ps == [] then [] else
      assert Pieces(ps[1..]);
      [ParseHex(ps[0])] + Parsed(ps[1..])
  }

  lemma {:induction false} ParsedGroups(ps: seq<Piece>)
    requires Pieces(ps) && !EndsDotted(ps)
    ensures Parsed(ps) == Words(ps)
  {
    if ps != [] { ParsedGroups(ps[1..]); }
  }

  lemma FirstGroup(p: Piece, rest: seq<Piece>)
    requires IsGroup(p) && Pieces(rest)
    ensures Pieces([p] + rest)
    ensures Parsed([p] + rest) == [Word(p)] + Parsed(rest) && Words([p] + rest) == [Word(p)] + Words(rest)
  {
    assert ([p] + rest)[1..] == rest;
  }

  lemma GroupsSplit(gs: seq<Piece>)
    requires Pieces(gs) && !EndsDotted(gs) && gs != []
    ensures IsGroup(gs[0]) && Pieces(gs[1..]) && !EndsDotted(gs[1..])
  {
  }

  lemma Associate<T>(x: T, a: seq<T>, b: seq<T>)
    ensures [x] + (a + b) == ([x] + a) + b
  {
  }

  lemma {:induction false} PiecesAppend(gs: seq<Piece>, ps: seq<Piece>)
    requires Pieces(gs) && !EndsDotted(gs) && Pieces(ps)
    ensures Pieces(gs + ps) && Parsed(gs + ps) == Words(gs) + Parsed(ps) && Words(gs + ps) == Words(gs) + Words(ps)
  {
    if gs == [] {
      assert gs + ps == ps;
    } else {
      GroupsSplit(gs);
      PiecesAppend(gs[1..], ps);
      AppendStep(gs[0], gs[1..], ps);
      hide *;
      assert gs == [gs[0]] + gs[1..];
    }
  }

  lemma AppendStep(p: Piece, rest: seq<Piece>, ps: seq<Piece>)
    requires IsGroup(p) && Pieces(rest) && Pieces(ps) && Pieces(rest + ps)
    requires Parsed(rest + ps) == Words(rest) + Parsed(ps) && Words(rest + ps) == Words(rest) + Words(ps)
    ensures var gs := [p] + rest;
            && Pieces(gs) && Pieces(gs + ps)
            && Parsed(gs + ps) == Words(gs) + Parsed(ps) && Words(gs + ps) == Words(gs) + Words(ps)
  {
    hide *;
    FirstGroup(p, rest);
    FirstGroup(p, rest + ps);
    Associate(p, rest, ps);
    Associate(Word(p), Words(rest), Parsed(ps));
    Associate(Word(p), Words(rest), Words(ps));
  }

  /** What is read of pieces that end in a dotted quad, and what is meant. */
  lemma DottedEnd(ps: seq<Piece>)
    requires Pieces(ps) && EndsDotted(ps)
    ensures var gs, v4 := ps[..|ps| - 1], ps[|ps| - 1].v4;
            && Pieces(gs) && !EndsDotted(gs)
            && Parsed(ps) == Words(gs) + [ParseHex(Dotted(v4))]
            && Words(ps) == Words(gs) + [(v4.a as int) * 256 + v4.b, (v4.c as int) * 256 + v4.d]
  {
    hide ParseHex, Word;
    var gs, last := ps[..|ps| - 1], ps[|ps| - 1..];
    PiecesAppend(gs, last);
    assert gs + last == ps && last[1..] == [];
  }

  predicate AllZero(w: seq<u16>)
  {
    forall i :: 0 <= i < |w| ==> w[i] == 0
  }

  lemma {:induction false} ShiftedEqual(s: seq<u16>, x: u16, y: u16, z: u16)
    ensures [0] + s + [x] == s + [y, z] <==> AllZero(s) && y == 0 && x == z
    decreases |s|
  {
    var a, b: seq<u16> := [0] + s + [x], s + [y, z];
    assert a[|s| + 1] == x && b[|s| + 1] == z && b[|s|] == y;
    if a == b {
      ZerosSpread(s, x, y, z, |s|);
    }
  }

  lemma {:induction false} ZerosSpread(s: seq<u16>, x: u16, y: u16, z: u16, n: nat)
    requires [0] + s + [x] == s + [y, z] && n <= |s|
    ensures (s + [y, z])[n] == 0
    ensures forall i :: 0 <= i < n ==> s[i] == 0
  {
    var a, b: seq<u16> := [0] + s + [x], s + [y, z];
    assert a[n] == b[n];
    if n > 0 {
      ZerosSpread(s, x, y, z, n - 1);
      assert a[n] == s[n - 1] == b[n - 1];
    }
  }

  lemma DecimalZero(n: byte)
    ensures HexValue(Decimal(n)) == 0 <==> n == 0
  {
    var ds := Decimal(n);
    assert ds[..|ds| - 1] == [] || ds[0] > 0x30;
    if n == 0 {
      assert ds == [0x30] && ds[..0] == [];
    } else if n < 10 {
      assert HexValue(ds[..0]) == 0;
    } else {
      HexPositive(ds);
    }
  }

  lemma {:induction false} HexPositive(ds: Octets)
    requires AllHex(ds) && ds != [] && DigitValue(ds[0]) > 0
    ensures HexValue(ds) > 0
  {
    if |ds| > 1 { HexPositive(ds[..|ds| - 1]); }
  }

  // ---------------------------------------------------------------- canonical text

  function HexDigit(v: nat): (c: byte)
    requires v < 16
    ensures IsHexDigit(c) && DigitValue(c) == v
  {
    if v < 10 then 0x30 + v else 0x57 + v
  }

  /** A word as four hex digits. */
  function Spelled(v: u16): (p: Piece)
    ensures IsGroup(p) && Word(p) == v
  {
    var a, b, c := v / 16, v / 16 / 16, v / 16 / 16 / 16;
    var ds := [HexDigit(c), HexDigit(b % 16), HexDigit(a % 16), HexDigit(v % 16)];
    HexBound(ds);
    Group(ds)
  }

  function SpelledAll(ws: seq<u16>): (ps: seq<Piece>)
    ensures |ps| == |ws| && Pieces(ps) && !EndsDotted(ps)
  {
    if ws == [] then [] else [Spelled(ws[0])] + SpelledAll(ws[1..])
  }

  lemma {:induction false} SpelledMeans(ws: seq<u16>)
    ensures Words(SpelledAll(ws)) == ws
  {
    if ws != [] {
      hide Spelled;
      SpelledMeans(ws[1..]);
      FirstGroup(Spelled(ws[0]), SpelledAll(ws[1..]));
    }
  }
}
