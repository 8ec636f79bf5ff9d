/** The IP half of the firewall: masks, restricted ranges and lists. */
module IpPolicy {
  import opened Bytes
  import opened IpAddress
  import opened Text

  // ---------------------------------------------------------------- JavaScript's 32-bit operators

  /** x >>> 0 */
  function ToUint32(x: int): u32 { x % 0x1_0000_0000 }

  /** x << 8 */
  function ShiftLeft8(x: int): int { ToInt32(ToInt32(x) * 256) }

  /** ~x */
  function Not32(x: int): int { -1 - ToInt32(x) }

  /** x & y */
  function And32(x: int, y: int): int { ToInt32(BitAnd(ToUint32(x), ToUint32(y))) }

  /** What parseInt returns, None for NaN. */
  type Number = Option<int>

  /** The distance between neighbouring doubles around an integer: they have 53 significant bits. */
  function Spacing(x: nat): (r: nat)
    ensures r >= 1
  {
    if x < 0x20_0000_0000_0000 then 1 else 2 * Spacing(x / 2)
  }

  /** The nearest double, of two equally near ones the one with the even significand. */
  function Rounded(x: nat): nat
  {
    var u := Spacing(x);
    var q, r := x / u, x % u;
    if 2 * r < u || (2 * r == u && q % 2 == 0) then q * u else (q + 1) * u
  }

  function ToDouble(x: int): int
  {
    if x < 0 then 0 - Rounded(-x) else Rounded(x)
  }

  /** One step of the reduction in ipToInt: NaN shifts to zero, and the sum is a double. */
  function AddOctet(acc: Number, octet: Number): Number
  {
    var shifted := if acc.None? then 0 else ShiftLeft8(acc.value);
    if octet.None? then None else Some(ToDouble(shifted + octet.value))
  }

  lemma SmallIsDouble(x: int)
    requires -0x20_0000_0000_0000 < x < 0x20_0000_0000_0000
    ensures ToDouble(x) == x
  {
  }

  function Reduce(octets: seq<Number>, acc: Number): Number
  {
    if octets == [] then acc else Reduce(octets[1..], AddOctet(acc, octets[0]))
  }

  /** ipToInt on the numbers between the dots */
  function IpToInt(octets: seq<Number>): u32
  {
    var n := Reduce(octets, Some(0));
    if n.None? then 0 else ToUint32(n.value)
  }

  lemma {:induction false} ReduceAppend(a: seq<Number>, b: seq<Number>, acc: Number)
    ensures Reduce(a + b, acc) == Reduce(b, Reduce(a, acc))
    decreases |a|
  {
    if a == [] {
      assert a + b == b;
    } else {
      assert (a + b)[1..] == a[1..] + b;
      ReduceAppend(a[1..], b, AddOctet(acc, a[0]));
    }
  }

  /** A piece that is no number makes the address forget all before it, and makes it zero in the last place. */
  lemma {:induction false} NoNumberForgets(before: seq<Number>, after: seq<Number>)
    ensures IpToInt(before + [None] + after) == IpToInt(after)
  {
    ReduceAppend(before + [None], after, Some(0));
    ReduceAppend(before, [None], Some(0));
    assert Reduce([None], Reduce(before, Some(0))) == None;
    if after != [] {
      assert AddOctet(None, after[0]) == AddOctet(Some(0), after[0]);
    }
  }

  /** The double is a nearest multiple of the spacing, the even one of two, and the spacing leaves 53 bits. */
  lemma {:induction false} RoundedIsNearest(x: nat)
    ensures var u, d := Spacing(x), Rounded(x);
            && d % u == 0 && 2 * (d - x) <= u && 2 * (x - d) <= u
            && (2 * (d - x) == u || 2 * (x - d) == u ==> d / u % 2 == 0)
            && (u == 1 || 0x10_0000_0000_0000 <= x / u) && x / u < 0x20_0000_0000_0000
  {
    SpacingLeavesBits(x);
    var u := Spacing(x);
    hide Spacing;
    var q, r := x / u, x % u;
    assert x == q * u + r;
    MultipleOf(q, u);
    MultipleOf(q + 1, u);
  }

  lemma MultipleOf(q: nat, u: nat)
    requires u > 0
    ensures (q * u) % u == 0 && (q * u) / u == q
  {
    DivideUnique(q * u, u, q, 0);
  }

  lemma {:induction false} SpacingLeavesBits(x: nat)
    ensures var u := Spacing(x);
            (u == 1 || 0x10_0000_0000_0000 <= x / u) && x / u < 0x20_0000_0000_0000
  {
    if x >= 0x20_0000_0000_0000 {
      SpacingLeavesBits(x / 2);
      var u := Spacing(x / 2);
      HalvesDivide(x, u);
    }
  }

  lemma HalvesDivide(x: nat, u: nat)
    requires u > 0
    ensures x / (2 * u) == x / 2 / u
  {
    var h := x / 2;
    var q, r := h / u, h % u;
    assert h == q * u + r && x == 2 * q * u + (2 * r + x % 2) && 0 <= 2 * r + x % 2 < 2 * u;
    DivideUnique(x, 2 * u, q, 2 * r + x % 2);
  }

  lemma DivideUnique(x: nat, d: nat, q: nat, r: nat)
    requires 0 <= r < d && x == q * d + r
    ensures x / d == q && x % d == r
  {
    var p, s := x / d, x % d;
    assert x == p * d + s;
    MoreIsFar(p, q, d);
    MoreIsFar(q, p, d);
  }

  lemma MoreIsFar(p: nat, q: nat, d: nat)
    ensures p > q ==> p * d >= q * d + d
  {
    if p > q { assert p * d == (q + 1) * d + (p - q - 1) * d; }
  }

  function Octets4(ip: V4): seq<Number>
  {
    [Some(ip.a as int), Some(ip.b as int), Some(ip.c as int), Some(ip.d as int)]
  }

  /** The octets of an address in network order. */
  function ToInt(ip: V4): u32
  {
    ((((ip.a as int) * 256 + ip.b) * 256 + ip.c) * 256) + ip.d
  }

  lemma AddSmall(acc: int, octet: byte)
    requires 0 <= acc < 0x100_0000
    ensures AddOctet(Some(acc), Some(octet as int)) == Some(ShiftLeft8(acc) + octet)
    ensures acc < 0x80_0000 ==> ShiftLeft8(acc) == acc * 256
    ensures ToUint32(ShiftLeft8(acc) + octet) == acc * 256 + octet
  {
    ShiftWraps(acc, octet);
    SmallIsDouble(ShiftLeft8(acc) + octet);
    hide ToDouble, ShiftLeft8, ToUint32;
  }

  lemma ShiftWraps(acc: int, octet: byte)
    requires 0 <= acc < 0x100_0000
    ensures -0x8000_0000 <= ShiftLeft8(acc) < 0x8000_0000
    ensures acc < 0x80_0000 ==> ShiftLeft8(acc) == acc * 256
    ensures ToUint32(ShiftLeft8(acc) + octet) == acc * 256 + octet
  {
    assert ToInt32(acc) == acc;
    var x := acc * 256;
    assert ShiftLeft8(acc) == if x >= 0x8000_0000 then x - 0x1_0000_0000 else x;
    hide ShiftLeft8, ToInt32;
    WrapsBack(x + octet);
  }

  lemma WrapsBack(x: int)
    requires 0 <= x < 0x1_0000_0000
    ensures ToUint32(x) == x && ToUint32(x - 0x1_0000_0000) == x
  {
  }

  /** Shifting past the sign bit does not matter in the end. */
  lemma IpToIntIsBigEndian(ip: V4)
    ensures IpToInt(Octets4(ip)) == ToInt(ip)
  {
    ReduceOctets(ip.a, ip.b, ip.c, ip.d);
    hide Reduce, ToUint32;
  }

  lemma ReduceOctets(a: byte, b: byte, c: byte, d: byte)
    ensures var n := Reduce([Some(a as int), Some(b as int), Some(c as int), Some(d as int)], Some(0));
            n.Some? && ToUint32(n.value) == (((a as int) * 256 + b) * 256 + c) * 256 + d
  {
    hide *;
    var x: int := (a as int) * 256 + b;
    var y: int := x * 256 + c;
    ReduceFour(Some(a as int), Some(b as int), Some(c as int), Some(d as int), Some(0));
    AddSmall(0, a);
    assert AddOctet(Some(0), Some(a as int)) == Some(a as int);
    AddSmall(a as int, b);
    assert AddOctet(Some(a as int), Some(b as int)) == Some(x);
    AddSmall(x, c);
    assert AddOctet(Some(x), Some(c as int)) == Some(y);
    AddSmall(y, d);
  }

  lemma ReduceFour(a: Number, b: Number, c: Number, d: Number, acc: Number)
    ensures Reduce([a, b, c, d], acc) == AddOctet(AddOctet(AddOctet(AddOctet(acc, a), b), c), d)
  {
    hide AddOctet;
    assert [a, b, c, d][1..] == [b, c, d] && [b, c, d][1..] == [c, d] && [c, d][1..] == [d] && [d][1..] == [];
    var x := AddOctet(acc, a);
    var y := AddOctet(x, b);
    var z := AddOctet(y, c);
    assert Reduce([d], z) == AddOctet(z, d);
    assert Reduce([c, d], y) == Reduce([d], z);
    assert Reduce([b, c, d], x) == Reduce([c, d], y);
  }

  function Pow2(k: nat): (p: nat)
    ensures p >= 1
  {
    if k == 0 then 1 else 2 * Pow2(k - 1)
  }

  /** Bitwise and, bit by bit from the low end. */
  function BitAnd(x: nat, y: nat): nat
  {
    if x == 0 || y == 0 then 0 else (if x % 2 == 1 && y % 2 == 1 then 1 else 0) + 2 * BitAnd(x / 2, y / 2)
  }

  /** The numbers in a range's address, and the one behind "/": None when it is missing, empty or NaN. */
  datatype Cidr = Cidr(base: seq<Number>, bits: Number)

  /** Math.pow(2, k) - 1 in double precision, cut to an integer: below 2^-53 the power is lost in rounding, a larger
      fraction is cut to zero, and from 54 bits on it is the one that is lost. */
  function PowerLessOne(k: int): int
  {
    if k < -53 then -1 else if k < 0 then 0 else if k < 54 then Pow2(k) - 1 else Pow2(k)
  }

  function Mask(bits: Number): int
  {
    if bits.None? then 0xffff_ffff else Not32(PowerLessOne(32 - bits.value))
  }

  /** matchCidr: masked integers compare equal. */
  predicate MatchCidr(ip: V4, c: Cidr)
  {
    And32(IpToInt(Octets4(ip)), Mask(c.bits)) == And32(IpToInt(c.base), Mask(c.bits))
  }

  // ---------------------------------------------------------------- the prefix specification

  /** x >> k */
  function Shift(x: nat, k: nat): nat
  {
    if k == 0 then x else Shift(x / 2, k - 1)
  }

  /** The first n of the 32 bits of an address. */
  function Prefix(x: u32, n: nat): nat
    requires n <= 32
  {
    Shift(x, 32 - n)
  }

  /** The number of leading bits a range compares; outside 0 to 32 the mask is all ones or all zeros. */
  function PrefixLength(bits: Number): (n: nat)
    ensures n <= 32
  {
    match bits
    case None => 32
    case Some(n) => if n > 85 then 0 else if n > 32 then 32 else if n >= 0 then n else if n >= -21 then 0 else 32
  }

  lemma {:induction false} PowerBound(k: nat, w: nat)
    requires k <= w
    ensures Pow2(k) <= Pow2(w)
    ensures Pow2(32) == 0x1_0000_0000
    decreases w - k
  {
    assert Pow2(8) == 256 && Pow2(16) == 0x1_0000 && Pow2(24) == 0x100_0000 && Pow2(32) == 0x1_0000_0000;
    if k < w { PowerBound(k, w - 1); }
  }

  lemma AndOdd(x: nat, y: nat)
    ensures BitAnd(x, 2 * y + 1) == x % 2 + 2 * BitAnd(x / 2, y)
  {
  }

  lemma {:induction false} AndAllOnes(x: nat, w: nat)
    requires x < Pow2(w)
    ensures BitAnd(x, Pow2(w) - 1) == x
  {
    if w > 0 {
      AndAllOnes(x / 2, w - 1);
      AndOdd(x, Pow2(w - 1) - 1);
    }
  }

  /** Comparing under a mask of w - k high ones compares everything above the k low bits. */
  lemma {:induction false} AndHighMask(x: nat, y: nat, w: nat, k: nat)
    requires x < Pow2(w) && y < Pow2(w) && k <= w
    ensures Pow2(k) <= Pow2(w)
    ensures BitAnd(x, Pow2(w) - Pow2(k)) == BitAnd(y, Pow2(w) - Pow2(k)) <==> Shift(x, k) == Shift(y, k)
    decreases w
  {
    hide BitAnd;
    PowerBound(k, w);
    if k == 0 {
      AndAllOnes(x, w);
      AndAllOnes(y, w);
    } else {
      PowerBound(k - 1, w - 1);
      AndHighMask(x / 2, y / 2, w - 1, k - 1);
      AndEven(x, Pow2(w - 1) - Pow2(k - 1));
      AndEven(y, Pow2(w - 1) - Pow2(k - 1));
    }
  }

  lemma AndEven(x: nat, m: nat)
    ensures BitAnd(x, 2 * m) == 2 * BitAnd(x / 2, m)
  {
  }

  lemma {:induction false} AndBound(x: nat, y: nat)
    ensures BitAnd(x, y) <= x
  {
    if x != 0 && y != 0 { AndBound(x / 2, y / 2); }
  }

  lemma {:induction false} PowerDivides(k: nat)
    requires k >= 32
    ensures Pow2(k) % 0x1_0000_0000 == 0
  {
    PowerBound(32, 32);
    if k > 32 { PowerDivides(k - 1); }
  }

  lemma NotWraps(x: int)
    ensures ToUint32(Not32(x)) == 0xffff_ffff - x % 0x1_0000_0000
  {
  }

  lemma SignedIsInjective(x: u32, y: u32)
    ensures ToInt32(x) == ToInt32(y) <==> x == y
  {
  }

  lemma {:induction false} LessOneWraps(k: int)
    requires k >= 32
    ensures PowerLessOne(k) % 0x1_0000_0000 == if k < 54 then 0xffff_ffff else 0
  {
    PowerDivides(k);
    hide Pow2;
    var p := Pow2(k);
    assert p == p / 0x1_0000_0000 * 0x1_0000_0000;
    assert p - 1 == (p / 0x1_0000_0000 - 1) * 0x1_0000_0000 + 0xffff_ffff;
  }

  /** The mask as an unsigned integer has its high bits set. */
  /** The power less one, cut to 32 bits, for every distance of the number behind the slash from 32. */
  lemma {:induction false} LowBits(bits: int)
    ensures PowerLessOne(32 - bits) % 0x1_0000_0000 == Pow2(32 - PrefixLength(Some(bits))) - 1
    ensures Pow2(32) == 0x1_0000_0000
  {
    var k := 32 - bits;
    PowerBound(0, 32);
    if k >= 33 {
      LessOneWraps(k);
    } else if k >= 0 {
      PowerBound(k, 32);
      SmallPower(k);
    }
    assert Pow2(0) == 1;
    hide Pow2, PowerLessOne;
  }

  lemma SmallPower(k: int)
    requires 0 <= k <= 32 && Pow2(k) <= 0x1_0000_0000
    ensures PowerLessOne(k) % 0x1_0000_0000 == Pow2(k) - 1
  {
    hide Pow2;
  }

  lemma {:induction false} MaskBits(bits: Number)
    ensures Pow2(32 - PrefixLength(bits)) <= Pow2(32) == 0x1_0000_0000
    ensures ToUint32(Mask(bits)) == Pow2(32) - Pow2(32 - PrefixLength(bits))
  {
    PowerBound(32 - PrefixLength(bits), 32);
    assert Pow2(0) == 1 && ToUint32(0xffff_ffff) == 0xffff_ffff;
    if bits.Some? {
      LowBits(bits.value);
      NotWraps(PowerLessOne(32 - bits.value));
    }
    hide Pow2, Not32, ToUint32, PowerLessOne, PrefixLength;
  }

  lemma SameAnd(x: u32, y: u32, m: int)
    ensures And32(x, m) == And32(y, m) <==> BitAnd(x, ToUint32(m)) == BitAnd(y, ToUint32(m))
  {
    assert ToUint32(x) == x && ToUint32(y) == y;
    hide BitAnd, ToInt32, ToUint32;
    AndBound(x, ToUint32(m));
    AndBound(y, ToUint32(m));
    SignedIsInjective(BitAnd(x, ToUint32(m)), BitAnd(y, ToUint32(m)));
  }

  lemma MatchMeans(ip: V4, c: Cidr)
    ensures MatchCidr(ip, c) <==> And32(ToInt(ip), Mask(c.bits)) == And32(IpToInt(c.base), Mask(c.bits))
  {
    IpToIntIsBigEndian(ip);
    hide And32, Mask, IpToInt, ToInt, Octets4;
  }

  /** The masked comparison is equality of the leading bits, for every text a range may have. */
  lemma {:induction false} MaskIsPrefix(ip: V4, c: Cidr)
    ensures var n := PrefixLength(c.bits);
            MatchCidr(ip, c) <==> Prefix(ToInt(ip), n) == Prefix(IpToInt(c.base), n)
  {
    hide And32, Mask, IpToInt, ToInt, MatchCidr, ToUint32, BitAnd, Shift, Pow2, PrefixLength;
    var n, x, y := PrefixLength(c.bits), ToInt(ip), IpToInt(c.base);
    MatchMeans(ip, c);
    MaskBits(c.bits);
    SameAnd(x, y, Mask(c.bits));
    AndHighMask(x, y, 32, 32 - n);
  }

  lemma {:induction false} ShiftAdd(x: nat, m: nat, n: nat)
    ensures Shift(x, m + n) == Shift(Shift(x, m), n)
    decreases m
  {
    if m > 0 { ShiftAdd(x / 2, m - 1, n); }
  }

  lemma ShiftBy2(x: nat)
    ensures Shift(x, 2) == x / 4
  {
    assert Shift(x, 2) == Shift(x / 2, 1) == Shift(x / 2 / 2, 0);
  }

  lemma ShiftBy4(x: nat)
    ensures Shift(x, 4) == x / 16 && Shift(x, 6) == x / 64
  {
    ShiftBy2(x);
    ShiftBy2(x / 4);
    ShiftBy2(x / 16);
    ShiftAdd(x, 2, 2);
    ShiftAdd(x, 4, 2);
  }

  lemma ShiftBy8(x: nat)
    ensures Shift(x, 8) == x / 0x100
  {
    ShiftBy4(x);
    ShiftBy4(x / 16);
    ShiftAdd(x, 4, 4);
  }

  lemma ShiftBy16(x: nat)
    ensures Shift(x, 16) == x / 0x1_0000 && Shift(x, 24) == x / 0x100_0000
  {
    ShiftBy8(x);
    ShiftBy8(x / 0x100);
    ShiftBy8(x / 0x1_0000);
    ShiftAdd(x, 8, 8);
    ShiftAdd(x, 16, 8);
  }

  /** Leading bits of an address in terms of its octets. */
  lemma OctetPrefixes(ip: V4)
    ensures var x := ToInt(ip);
            && Prefix(x, 4) == ip.a / 16 && Prefix(x, 8) == ip.a
            && Prefix(x, 10) == (ip.a as int) * 4 + ip.b / 64
            && Prefix(x, 12) == (ip.a as int) * 16 + ip.b / 16
            && Prefix(x, 16) == (ip.a as int) * 256 + ip.b
  {
    var x := ToInt(ip);
    ShiftBy16(x);
    assert x / 0x100_0000 == ip.a && x / 0x1_0000 == (ip.a as int) * 256 + ip.b;
    hide ToInt;
    ShiftAdd(x, 24, 4);
    ShiftBy4(x / 0x100_0000);
    ShiftAdd(x, 16, 4);
    ShiftAdd(x, 16, 6);
    ShiftBy4(x / 0x1_0000);
    hide Shift;
  }

  lemma {:induction false} ShiftPositive(x: nat, k: nat)
    requires x >= Pow2(k)
    ensures Shift(x, k) >= 1
  {
    if k > 0 { ShiftPositive(x / 2, k - 1); }
  }

  lemma {:induction false} ShiftZero(k: nat)
    ensures Shift(0, k) == 0
  {
    if k > 0 { ShiftZero(k - 1); }
  }

  /** A range matches every address exactly when the number behind "/" is more than 85 or from -21 to 0. */
  lemma {:induction false} MatchesEverything(c: Cidr)
    ensures (forall ip :: MatchCidr(ip, c)) <==> c.bits.Some? && (c.bits.value > 85 || -21 <= c.bits.value <= 0)
  {
    var n := PrefixLength(c.bits);
    if n == 0 {
      forall ip ensures MatchCidr(ip, c) {
        MaskIsPrefix(ip, c);
        NoBits(ToInt(ip));
        NoBits(IpToInt(c.base));
      }
    } else {
      var low, high := V4(0, 0, 0, 0), V4(255, 255, 255, 255);
      ExtremesDiffer(n);
      MaskIsPrefix(low, c);
      MaskIsPrefix(high, c);
      hide *;
      assert !(MatchCidr(low, c) && MatchCidr(high, c));
    }
  }

  lemma ExtremesDiffer(n: nat)
    requires 0 < n <= 32
    ensures Prefix(ToInt(V4(0, 0, 0, 0)), n) != Prefix(ToInt(V4(255, 255, 255, 255)), n)
  {
    PowerBound(32 - n, 31);
    ShiftPositive(0xffff_ffff, 32 - n);
    ShiftZero(32 - n);
    hide Shift, Pow2;
  }

  lemma NoBits(x: u32)
    ensures Prefix(x, 0) == 0
  {
    ShiftBy16(x);
    ShiftBy16(x / 0x1_0000);
    ShiftAdd(x, 16, 16);
  }

  // ---------------------------------------------------------------- restricted ranges

  /** isRestrictedOutbound on an IPv4 address. */
  predicate RestrictedV4(ip: V4)
  {
    || ip.a == 0 || ip.a == 10 || ip.a == 127
    || (ip.a == 100 && 64 <= ip.b <= 127)
    || (ip.a == 169 && ip.b == 254)
    || (ip.a == 172 && 16 <= ip.b <= 31)
    || (ip.a == 192 && ip.b == 168)
    || 224 <= ip.a <= 239
    || 240 <= ip.a
  }

  function Block(a: byte, b: byte, bits: nat): Cidr { Cidr(Octets4(V4(a, b, 0, 0)), Some(bits)) }

  const BLOCKS: seq<Cidr> := [
    Block(0, 0, 8), Block(10, 0, 8), Block(127, 0, 8), Block(100, 64, 10), Block(169, 254, 16), Block(172, 16, 12),
    Block(192, 168, 16), Block(224, 0, 4), Block(240, 0, 4)]

  lemma {:induction false} BlockPrefix(ip: V4, c: Cidr, bits: nat, a: byte, b: byte)
    requires bits in {4, 8, 10, 12, 16} && c == Block(a, b, bits)
    ensures MatchCidr(ip, c) <==>
            match bits
            case 4 => ip.a / 16 == a / 16
            case 8 => ip.a == a
            case 10 => (ip.a as int) * 4 + ip.b / 64 == (a as int) * 4 + b / 64
            case 12 => (ip.a as int) * 16 + ip.b / 16 == (a as int) * 16 + b / 16
            case _ => (ip.a as int) * 256 + ip.b == (a as int) * 256 + b
  {
    hide MatchCidr, Prefix, IpToInt, Octets4, ToInt;
    var base := V4(a, b, 0, 0);
    MaskIsPrefix(ip, Block(a, b, bits));
    IpToIntIsBigEndian(base);
    OctetPrefixes(ip);
    OctetPrefixes(base);
  }

  /** The octet tests are membership in the union of the nine blocks. */
  lemma {:induction false} RestrictedIsNineBlocks(ip: V4)
    ensures RestrictedV4(ip) <==> exists i :: 0 <= i < 9 && MatchCidr(ip, BLOCKS[i])
  {
    hide MatchCidr, Octets4;
    BlockPrefix(ip, BLOCKS[0], 8, 0, 0);
    BlockPrefix(ip, BLOCKS[1], 8, 10, 0);
    BlockPrefix(ip, BLOCKS[2], 8, 127, 0);
    BlockPrefix(ip, BLOCKS[3], 10, 100, 64);
    BlockPrefix(ip, BLOCKS[4], 16, 169, 254);
    BlockPrefix(ip, BLOCKS[5], 12, 172, 16);
    BlockPrefix(ip, BLOCKS[6], 16, 192, 168);
    BlockPrefix(ip, BLOCKS[7], 4, 224, 0);
    BlockPrefix(ip, BLOCKS[8], 4, 240, 0);
    assert MatchCidr(ip, BLOCKS[3]) <==> ip.a == 100 && 64 <= ip.b <= 127;
    assert MatchCidr(ip, BLOCKS[4]) <==> ip.a == 169 && ip.b == 254;
    assert MatchCidr(ip, BLOCKS[5]) <==> ip.a == 172 && 16 <= ip.b <= 31;
    assert MatchCidr(ip, BLOCKS[6]) <==> ip.a == 192 && ip.b == 168;
    assert MatchCidr(ip, BLOCKS[7]) <==> 224 <= ip.a <= 239;
  }

  // ---------------------------------------------------------------- addresses as text

  /** A dotted quad, IPv6 text without a zone, or text that is neither. */
  datatype IpText = Quad(v4: V4) | V6(address: Ipv6) | NoIp(text: Octets)

  predicate ValidText(ip: IpText)
  {
    ip.V6? ==> IsIpv6(ip.address)
  }

  const FFFF: Octets := [0x66, 0x66, 0x66, 0x66]

  /** The text starts with "::ffff:". */
  predicate HasMappedPrefix(a: Ipv6)
  {
    a.Elided? && a.left == [] && |a.right| > 1 && a.right[0].Group? && Lower(a.right[0].digits) == FFFF
  }

  function FromWords(hi: u16, lo: u16): V4
  {
    V4(hi / 256, hi % 256, lo / 256, lo % 256)
  }

  /** normalizeIp */
  function Normalize(ip: IpText): (r: IpText)
    requires ValidText(ip)
    ensures ValidText(r) && r.NoIp? == ip.NoIp?
  {
    if ip.V6? && HasMappedPrefix(ip.address) then
      var rest := ip.address.right[1..];
      if |rest| == 1 && rest[0].Dotted? then Quad(rest[0].v4)
      else if |rest| == 2 then
        assert rest[0] == ip.address.right[1] && rest[1] == ip.address.right[2];
        Quad(FromWords(ParseHex(rest[0]), ParseHex(rest[1])))
      else ip
    else ip
  }

  /** The text's first group, in lower case; None for text that starts with "::". */
  function FirstGroupOf(a: Ipv6): Option<Octets>
  {
    var ps := if a.Full? then a.pieces else a.left;
    if ps != [] && ps[0].Group? then Some(Lower(ps[0].digits)) else None
  }

  /** isRestrictedOutbound on IPv6 text: "::1", "::", "fe80:", "fc00:" or "fd" in front. */
  predicate RestrictedV6(a: Ipv6)
  {
    || a == Elided([], [Group([0x31])])
    || a == Elided([], [])
    || FirstGroupOf(a) == Some([0x66, 0x65, 0x38, 0x30])
    || FirstGroupOf(a) == Some([0x66, 0x63, 0x30, 0x30])
    || (FirstGroupOf(a).Some? && [0x66, 0x64] <= FirstGroupOf(a).value)
  }

  /** isRestrictedOutbound */
  predicate Restricted(ip: IpText)
    requires ValidText(ip)
  {
    match Normalize(ip)
    case Quad(v4) => RestrictedV4(v4)
    case V6(a) => RestrictedV6(a)
    case NoIp(_) => true
  }

  // ---------------------------------------------------------------- lists

  datatype Policy = Policy(allowIps: seq<IpText>, allowRanges: seq<Cidr>, blockIps: seq<IpText>,
                           blockRanges: seq<Cidr>, defaultAllow: bool)

  predicate InRanges(ip: IpText, ranges: seq<Cidr>)
  {
    ip.Quad? && exists i :: 0 <= i < |ranges| && MatchCidr(ip.v4, ranges[i])
  }

  predicate Blocked(ip: IpText, p: Policy) { ip in p.blockIps || InRanges(ip, p.blockRanges) }

  predicate Allowed(ip: IpText, p: Policy) { ip in p.allowIps || InRanges(ip, p.allowRanges) }

  /** Blocking wins over allowing, and allowing over the default. */
  predicate IpVerdict(ip: IpText, policy: Option<Policy>)
    requires ValidText(ip)
  {
    var n := Normalize(ip);
    policy.Some? ==>
      !n.NoIp? && !Blocked(n, policy.value) && (Allowed(n, policy.value) || policy.value.defaultAllow)
  }

  /** Allowing wins over the restricted ranges. */
  predicate OutboundVerdict(ip: IpText, policy: Option<Policy>)
    requires ValidText(ip)
  {
    var n := Normalize(ip);
    (policy.Some? && Allowed(n, policy.value)) || !Restricted(n)
  }

  /** true is ALLOW */
  method EvaluateIp(ip: IpText, fw: Option<Policy>) returns (allow: bool)
    requires ValidText(ip)
    ensures allow == IpVerdict(ip, fw)
  {
    hide MatchCidr, Normalize;
    if fw.None? { return true; }
    var n, p := Normalize(ip), fw.value;
    if n.NoIp? { return false; }
    if n in p.blockIps { return false; }
    if n.Quad? {
      for i := 0 to |p.blockRanges|
        invariant forall j :: 0 <= j < i ==> !MatchCidr(n.v4, p.blockRanges[j])
      {
        if MatchCidr(n.v4, p.blockRanges[i]) { return false; }
      }
    }
    assert !Blocked(n, p);
    if n in p.allowIps { return true; }
    if n.Quad? {
      for i := 0 to |p.allowRanges|
        invariant forall j :: 0 <= j < i ==> !MatchCidr(n.v4, p.allowRanges[j])
      {
        if MatchCidr(n.v4, p.allowRanges[i]) { return true; }
      }
    }
    return p.defaultAllow;
  }

  method EvaluateOutbound(ip: IpText, fw: Option<Policy>) returns (allow: bool)
    requires ValidText(ip)
    ensures allow == OutboundVerdict(ip, fw)
  {
    hide MatchCidr, Normalize, Restricted;
    var n := Normalize(ip);
    if fw.Some? {
      if n in fw.value.allowIps { return true; }
      if n.Quad? {
        for i := 0 to |fw.value.allowRanges|
          invariant forall j :: 0 <= j < i ==> !MatchCidr(n.v4, fw.value.allowRanges[j])
        {
          if MatchCidr(n.v4, fw.value.allowRanges[i]) { return true; }
        }
      }
    }
    return !Restricted(n);
  }

  // ---------------------------------------------------------------- spellings of one address

  /** The address is in ::ffff:0:0/96 (section 2.5.5.2 of RFC 4291). */
  predicate IsMapped(a: Ipv6)
    requires IsIpv6(a)
  {
    Value(a)[..6] == [0, 0, 0, 0, 0, 0xffff]
  }

  function Embedded(a: Ipv6): V4
    requires IsIpv6(a)
  {
    FromWords(Value(a)[6], Value(a)[7])
  }

  /** "::ffff:" with one group and a dotted quad behind it: 128 bits that are not a mapped address. */
  predicate MixedTail(a: Ipv6)
  {
    HasMappedPrefix(a) && |a.right| == 3 && a.right[2].Dotted?
  }

  /** normalizeIp turns a mapped address into its IPv4 address exactly when the text starts with "::ffff:", and of all
      other addresses it changes exactly those with a mixed tail. */
  lemma {:induction false} NormalizeExactly(a: Ipv6)
    requires IsIpv6(a)
    ensures IsMapped(a) ==> Normalize(V6(a)) == if HasMappedPrefix(a) then Quad(Embedded(a)) else V6(a)
    ensures !IsMapped(a) ==> (Normalize(V6(a)) == V6(a) <==> !MixedTail(a))
  {
    if HasMappedPrefix(a) {
      PrefixValue(a.right);
      var v, n := Value(a), Width(a.right);
      hide Value, Lower, IsGroup, ParseHex;
      assert IsMapped(a) ==> v[..6][5] == v[5] == 0xffff && v[..6][8 - n] == v[8 - n];
      assert n == 3 ==> v[..6] == [0, 0, 0, 0, 0, 0xffff];
      assert IsMapped(a) <==> n == 3;
    }
  }

  lemma FfffValue(p: Piece)
    requires IsGroup(p) && Lower(p.digits) == FFFF
    ensures Word(p) == 0xffff
  {
    HexBound(p.digits);
    assert forall i :: 0 <= i < 4 ==> LowerChar(p.digits[i]) == Lower(p.digits)[i] == 0x66;
  }

  /** The words behind "::ffff:", and what is read of them. */
  lemma PrefixValue(right: seq<Piece>)
    requires IsIpv6(Elided([], right)) && HasMappedPrefix(Elided([], right))
    ensures var v, n := Value(Elided([], right)), Width(right);
            && n <= 7 && v[8 - n] == 0xffff && (forall i :: 0 <= i < 8 - n ==> v[i] == 0)
            && (n == 3 && |right| == 3 ==> v[6] == ParseHex(right[1]) && v[7] == ParseHex(right[2]))
            && (|right| == 2 && right[1].Dotted? ==> FromWords(v[6], v[7]) == right[1].v4)
  {
    var n, rest := Width(right), right[1..];
    assert right == [right[0]] + rest && Pieces(rest) && IsGroup(right[0]);
    FirstGroup(right[0], rest);
    FfffValue(right[0]);
    hide Word, HexValue, IsGroup, Lower;
    assert Words(right) == [0xffff] + Words(rest);
    assert Value(Elided([], right)) == Zeros(8 - n) + ([0xffff] + Words(rest));
    if n == 3 && |right| == 3 {
      ParsedGroups(rest);
      assert Parsed(rest)[0] == ParseHex(rest[0]) && Parsed(rest)[1] == ParseHex(rest[1]);
    }
  }

  /** The spellings of a mapped address for which every policy treats it as its IPv4 address are those that start with
      "::ffff:". The others also escape the restricted ranges: without a policy the outbound verdict differs exactly
      when the IPv4 address is restricted. */
  lemma {:induction false} MappedFormSameVerdict(a: Ipv6)
    requires IsIpv6(a) && IsMapped(a)
    ensures (forall p :: IpVerdict(V6(a), Some(p)) == IpVerdict(Quad(Embedded(a)), Some(p))) <==> HasMappedPrefix(a)
    ensures OutboundVerdict(V6(a), None) == OutboundVerdict(Quad(Embedded(a)), None)
       <==> HasMappedPrefix(a) || !RestrictedV4(Embedded(a))
    ensures HasMappedPrefix(a) ==>
              forall p :: OutboundVerdict(V6(a), p) == OutboundVerdict(Quad(Embedded(a)), p)
  {
    NormalizeExactly(a);
    MappedIsNotRestricted(a);
    hide MatchCidr, RestrictedV4, RestrictedV6, IsMapped, Embedded, HasMappedPrefix;
    var v4 := Embedded(a);
    if !HasMappedPrefix(a) {
      var p := Policy([], [], [Quad(v4)], [], true);
      assert IpVerdict(V6(a), Some(p)) && !IpVerdict(Quad(v4), Some(p));
    }
  }

  lemma MappedIsNotRestricted(a: Ipv6)
    requires IsIpv6(a) && IsMapped(a)
    ensures !RestrictedV6(a)
  {
    var v := Value(a);
    assert v[0] == v[..6][0] == 0 && v[5] == v[..6][5] == 0xffff;
    match a
    case Full(pieces) => LeadingZero(pieces);
    case Elided(left, right) =>
      if left != [] { LeadingZero(left); } else if Width(right) < 3 { ShortIsZero(right); }
  }

  lemma ShortIsZero(right: seq<Piece>)
    requires IsIpv6(Elided([], right)) && Width(right) < 3
    ensures Value(Elided([], right))[5] == 0
  {
  }

  /** Text whose first word is zero does not start with a letter. */
  lemma LeadingZero(ps: seq<Piece>)
    requires Pieces(ps) && ps != [] && (|ps| > 1 || !EndsDotted(ps)) && Words(ps)[0] == 0
    ensures ps[0].Group? && !IsLetter(ps[0].digits[0])
  {
    var ds := ps[0].digits;
    assert Words(ps)[0] == Word(ps[0]);
    if DigitValue(ds[0]) > 0 { HexPositive(ds); }
  }

  /** The unspecified and the loopback address. */
  predicate IsLocal(w: seq<u16>)
  {
    |w| == 8 && w[..7] == Zeros(7) && w[7] <= 1
  }

  /** Unspecified, loopback, link-local (fe80::/10) and unique local (fc00::/7) addresses (section 2.4 of RFC 4291 and
      section 3.1 of RFC 4193). */
  predicate IsInternal(w: seq<u16>)
  {
    IsLocal(w) || (w != [] && (0xfe80 <= w[0] <= 0xfebf || 0xfc00 <= w[0] <= 0xfdff))
  }

  /** "::1" or "::" to the letter. */
  predicate IsLocalText(a: Ipv6)
  {
    a == Elided([], [Group([0x31])]) || a == Elided([], [])
  }

  /** The first group is "fd" or "fd" and one digit: not a unique local address. */
  predicate StartsWithShortFd(a: Ipv6)
  {
    FirstGroupOf(a).Some? && [0x66, 0x64] <= FirstGroupOf(a).value && |FirstGroupOf(a).value| < 4
  }

  /** The IPv6 tests by value: of the internal addresses they miss exactly the local ones that are spelled otherwise,
      link-local ones behind fe80: and unique local ones between fc00: and fd00:, and of the others they restrict
      exactly those whose text starts with a short group "fd". */
  lemma {:induction false} RestrictedV6Exactly(a: Ipv6)
    requires IsIpv6(a)
    ensures var w := Value(a);
            && (IsInternal(w) && !RestrictedV6(a)
                <==> (IsLocal(w) && !IsLocalText(a)) || 0xfe81 <= w[0] <= 0xfebf || 0xfc01 <= w[0] <= 0xfcff)
            && (!IsInternal(w) && RestrictedV6(a) <==> StartsWithShortFd(a))
  {
    var w := Value(a);
    FirstWord(a);
    LocalTexts();
    assert IsLocal(w) ==> w[0] == w[..7][0] == 0;
    hide Value, IsLocal, IsIpv6;
    if FirstGroupOf(a).Some? {
      FirstGroupValue(a);
    }
  }

  lemma LocalTexts()
    ensures IsIpv6(Elided([], [])) && IsLocal(Value(Elided([], [])))
    ensures IsIpv6(Elided([], [Group([0x31])])) && IsLocal(Value(Elided([], [Group([0x31])])))
  {
    var one := Group([0x31]);
    HexBound(one.digits);
    assert Words([one]) == [1];
  }

  lemma FirstWord(a: Ipv6)
    requires IsIpv6(a)
    ensures FirstGroupOf(a).None? ==> Value(a)[0] == 0
    ensures FirstGroupOf(a).Some? ==>
              var ps := if a.Full? then a.pieces else a.left;
              IsGroup(ps[0]) && Value(a)[0] == Word(ps[0])
  {
    hide Word;
  }

  /** What the letters of the first group say about its value. */
  lemma FirstGroupValue(a: Ipv6)
    requires IsIpv6(a) && FirstGroupOf(a).Some?
    ensures GroupValue(FirstGroupOf(a).value, Value(a)[0])
  {
    FirstWord(a);
    hide Value, IsIpv6, GroupValue, Word;
    WordOfText(if a.Full? then a.pieces[0] else a.left[0]);
  }

  predicate GroupValue(t: Octets, v: u16)
  {
    && (t == [0x66, 0x65, 0x38, 0x30] <==> v == 0xfe80)
    && (t == [0x66, 0x63, 0x30, 0x30] <==> v == 0xfc00)
    && ([0x66, 0x64] <= t && |t| == 4 <==> 0xfd00 <= v <= 0xfdff)
    && ([0x66, 0x64] <= t ==> 2 <= |t| <= 4 && v != 0) && (|t| < 4 ==> v < 0x1000)
  }

  lemma WordOfText(p: Piece)
    requires IsGroup(p)
    ensures GroupValue(Lower(p.digits), Word(p))
  {
    var ds, t := p.digits, Lower(p.digits);
    HexBound(ds);
    if [0x66, 0x64] <= t {
      LowerDigit(ds, 0);
      HexPositive(ds);
    }
    if |ds| == 4 {
      LowerDigit(ds, 0);
      LowerDigit(ds, 1);
      LowerDigit(ds, 2);
      LowerDigit(ds, 3);
      FourDigits(DigitValue(ds[0]), DigitValue(ds[1]), DigitValue(ds[2]), DigitValue(ds[3]));
      hide HexValue, DigitValue, Lower;
      assert t == [t[0], t[1], t[2], t[3]];
    }
  }

  lemma FourDigits(a: nat, b: nat, c: nat, d: nat)
    requires a < 16 && b < 16 && c < 16 && d < 16
    ensures var v := a * 0x1000 + b * 0x100 + c * 0x10 + d;
            && (v == 0xfe80 <==> a == 15 && b == 14 && c == 8 && d == 0)
            && (v == 0xfc00 <==> a == 15 && b == 12 && c == 0 && d == 0)
            && (0xfd00 <= v <= 0xfdff <==> a == 15 && b == 13)
  {
  }

  lemma LowerDigit(ds: Octets, i: nat)
    requires AllHex(ds) && i < |ds|
    ensures var c, v := Lower(ds)[i], DigitValue(ds[i]);
            && (c == 0x66 <==> v == 15) && (c == 0x65 <==> v == 14) && (c == 0x64 <==> v == 13)
            && (c == 0x63 <==> v == 12) && (c == 0x38 <==> v == 8) && (c == 0x30 <==> v == 0)
  {
  }

  /** 0:0:0:0:0:ffff:7f00:1, the mapped form of 127.0.0.1 written out */
  const LOOPBACK: Ipv6 := Full(SpelledAll([0, 0, 0, 0, 0, 0xffff, 0x7f00, 1]))

  lemma LoopbackValue()
    ensures IsIpv6(LOOPBACK) && IsMapped(LOOPBACK) && Embedded(LOOPBACK) == V4(127, 0, 0, 1)
  {
    var ws: seq<u16> := [0, 0, 0, 0, 0, 0xffff, 0x7f00, 1];
    SpelledMeans(ws);
    hide SpelledAll, Words;
    assert Value(LOOPBACK) == ws;
    assert ws[..6] == [0, 0, 0, 0, 0, 0xffff];
  }

  lemma {:induction false} LongSpellingIsAllowed()
    ensures IsIpv6(LOOPBACK) && IsMapped(LOOPBACK) && Embedded(LOOPBACK) == V4(127, 0, 0, 1)
    ensures OutboundVerdict(V6(LOOPBACK), None) && !OutboundVerdict(Quad(V4(127, 0, 0, 1)), None)
  {
    LoopbackValue();
    hide IsMapped, Embedded, SpelledAll, IsIpv6;
    MappedFormSameVerdict(LOOPBACK);
    hide RestrictedV6;
  }

  ghost predicate SameElements<T(!new)>(a: seq<T>, b: seq<T>)
  {
    forall x :: x in a <==> x in b
  }

  lemma {:induction false} RangesByMembership(ip: IpText, a: seq<Cidr>, b: seq<Cidr>)
    requires forall x :: x in a ==> x in b
    ensures InRanges(ip, a) ==> InRanges(ip, b)
  {
    if InRanges(ip, a) {
      var i :| 0 <= i < |a| && MatchCidr(ip.v4, a[i]);
      assert a[i] in b;
      var j :| 0 <= j < |b| && b[j] == a[i];
      assert MatchCidr(ip.v4, b[j]);
    }
  }

  /** The address shares the leading bits that some range fixes. */
  ghost predicate InSomeBlock(ip: IpText, ranges: seq<Cidr>)
  {
    ip.Quad? && exists i :: 0 <= i < |ranges| && SharesPrefix(ip.v4, ranges[i])
  }

  predicate SharesPrefix(ip: V4, c: Cidr)
  {
    Prefix(ToInt(ip), PrefixLength(c.bits)) == Prefix(IpToInt(c.base), PrefixLength(c.bits))
  }

  ghost predicate IsListed(ip: IpText, ips: seq<IpText>, ranges: seq<Cidr>)
  {
    ip in ips || InSomeBlock(ip, ranges)
  }

  lemma {:induction false} RangesArePrefixes(ip: IpText, ranges: seq<Cidr>)
    ensures InRanges(ip, ranges) <==> InSomeBlock(ip, ranges)
  {
    hide MatchCidr, Prefix, PrefixLength, IpToInt, ToInt;
    if ip.Quad? {
      forall i | 0 <= i < |ranges| ensures MatchCidr(ip.v4, ranges[i]) <==> SharesPrefix(ip.v4, ranges[i]) {
        MaskIsPrefix(ip.v4, ranges[i]);
      }
    }
  }

  /** The laws of evaluateIp, by leading bits: a blocked address is denied whatever else the policy says, an allowed one
      that is not blocked is permitted whatever the default, any other gets the default; text that is no address is
      denied, and no policy permits all. */
  lemma {:induction false} IpLaws(ip: IpText, p: Policy)
    requires ValidText(ip)
    ensures var n := Normalize(ip);
            && (IsListed(n, p.blockIps, p.blockRanges) ==> !IpVerdict(ip, Some(p)))
            && (!IsListed(n, p.blockIps, p.blockRanges) && !ip.NoIp? ==>
                  IpVerdict(ip, Some(p)) == (IsListed(n, p.allowIps, p.allowRanges) || p.defaultAllow))
            && (ip.NoIp? ==> !IpVerdict(ip, Some(p)))
            && IpVerdict(ip, None)
  {
    RangesArePrefixes(Normalize(ip), p.blockRanges);
    RangesArePrefixes(Normalize(ip), p.allowRanges);
    hide Normalize, InRanges, InSomeBlock;
  }

  /** The laws of evaluateOutbound: an allowed address is permitted even in a restricted range, any other exactly
      outside of them, and the blocklists and the default do not matter. */
  lemma {:induction false} OutboundLaws(ip: IpText, p: Policy)
    requires ValidText(ip)
    ensures var n := Normalize(ip);
            && (IsListed(n, p.allowIps, p.allowRanges) ==> OutboundVerdict(ip, Some(p)))
            && (!IsListed(n, p.allowIps, p.allowRanges) ==> OutboundVerdict(ip, Some(p)) == OutboundVerdict(ip, None))
            && (OutboundVerdict(ip, None) <==>
                  match n
                  case Quad(v4) => !exists i :: 0 <= i < 9 && SharesPrefix(v4, BLOCKS[i])
                  case V6(a) => !RestrictedV6(a)
                  case NoIp(_) => false)
  {
    var n := Normalize(ip);
    RangesArePrefixes(n, p.allowRanges);
    NormalizeTwice(ip);
    if n.Quad? {
      RestrictedIsNineBlocks(n.v4);
      forall i | 0 <= i < 9 ensures MatchCidr(n.v4, BLOCKS[i]) <==> SharesPrefix(n.v4, BLOCKS[i]) {
        MaskIsPrefix(n.v4, BLOCKS[i]);
      }
    }
    hide Normalize, InRanges, InSomeBlock, RestrictedV4, RestrictedV6, MatchCidr, SharesPrefix, BLOCKS;
  }

  lemma NormalizeTwice(ip: IpText)
    requires ValidText(ip)
    ensures Normalize(Normalize(ip)) == Normalize(ip)
  {
  }

  /** The verdict depends on the lists as sets: order and repetition do not matter. */
  lemma {:induction false} VerdictIgnoresOrder(ip: IpText, p: Policy, q: Policy)
    requires ValidText(ip) && p.defaultAllow == q.defaultAllow
    requires SameElements(p.allowIps, q.allowIps) && SameElements(p.blockIps, q.blockIps)
    requires SameElements(p.allowRanges, q.allowRanges) && SameElements(p.blockRanges, q.blockRanges)
    ensures IpVerdict(ip, Some(p)) == IpVerdict(ip, Some(q))
  {
    var n := Normalize(ip);
    RangesByMembership(n, p.allowRanges, q.allowRanges);
    RangesByMembership(n, q.allowRanges, p.allowRanges);
    RangesByMembership(n, p.blockRanges, q.blockRanges);
    RangesByMembership(n, q.blockRanges, p.blockRanges);
  }

  /** Allowing more or blocking less never turns permission into denial, in either check. */
  lemma {:induction false} VerdictIsMonotone(ip: IpText, p: Policy, q: Policy)
    requires ValidText(ip) && (p.defaultAllow ==> q.defaultAllow)
    requires forall x :: x in p.allowIps ==> x in q.allowIps
    requires forall x :: x in p.allowRanges ==> x in q.allowRanges
    requires forall x :: x in q.blockIps ==> x in p.blockIps
    requires forall x :: x in q.blockRanges ==> x in p.blockRanges
    ensures IpVerdict(ip, Some(p)) ==> IpVerdict(ip, Some(q))
    ensures OutboundVerdict(ip, Some(p)) ==> OutboundVerdict(ip, Some(q))
  {
    RangesByMembership(Normalize(ip), p.allowRanges, q.allowRanges);
    RangesByMembership(Normalize(ip), q.blockRanges, p.blockRanges);
    hide Normalize, InRanges;
  }
}
