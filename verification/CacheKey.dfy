/** The cache key before hashing: hex name, colon, decimal type, bars. */
module CacheKey {
  import opened Bytes
  import opened Text
  import opened Questions

  const COLON: byte := 0x3a
  const BAR: byte := 0x7c

  function HexDigit(d: nat): byte
    requires d < 16
  {
    if d < 10 then 0x30 + d else 0x61 + d - 10
  }

  /** toString("hex") */
  function Hex(s: Octets): Octets
  {
    if s == [] then [] else [HexDigit(s[0] / 16), HexDigit(s[0] % 16)] + Hex(s[1..])
  }

  function Decimal(n: nat): Octets
  {
    if n < 10 then [0x30 + n] else Decimal(n / 10) + [0x30 + n % 10]
  }

  function Item(q: Question): Octets
  {
    Hex(q.name) + [COLON] + Decimal(q.qtype)
  }

  function RawKey(qs: seq<Question>): Octets
  {
    if qs == [] then []
    else if |qs| == 1 then Item(qs[0])
    else Item(qs[0]) + [BAR] + RawKey(qs[1..])
  }

  /** Two question lists ask the same: equal names and types in the same order. */
  predicate SameQuestions(a: seq<Question>, b: seq<Question>)
  {
    |a| == |b| && forall i :: 0 <= i < |a| ==> a[i].name == b[i].name && a[i].qtype == b[i].qtype
  }

  // ---------------------------------------------------------------- injectivity

  predicate Plain(s: Octets)
  {
    forall c :: c in s ==> c != BAR && c != COLON
  }

  lemma {:induction false} HexIsPlain(s: Octets)
    ensures Plain(Hex(s))
  {
    if s != [] { HexIsPlain(s[1..]); }
  }

  lemma {:induction false} DecimalIsPlain(n: nat)
    ensures Plain(Decimal(n)) && Decimal(n) != []
  {
    if n >= 10 { DecimalIsPlain(n / 10); }
  }

  lemma {:induction false} HexInjective(a: Octets, b: Octets)
    requires Hex(a) == Hex(b)
    ensures a == b
  {
    if a != [] && b != [] {
      var x, y := Hex(a), Hex(b);
      assert x[0] == y[0] && x[1] == y[1] && x[2..] == Hex(a[1..]) && y[2..] == Hex(b[1..]);
      assert a[0] == b[0];
      HexInjective(a[1..], b[1..]);
      assert a == [a[0]] + a[1..] && b == [b[0]] + b[1..];
    }
  }

  lemma {:induction false} DecimalInjective(m: nat, n: nat)
    requires Decimal(m) == Decimal(n)
    ensures m == n
    decreases m + n
  {
    var x, y := Decimal(m), Decimal(n);
    assert x[|x| - 1] == 0x30 + m % 10 && y[|y| - 1] == 0x30 + n % 10;
    if m >= 10 { DecimalIsPlain(m / 10); }
    if n >= 10 { DecimalIsPlain(n / 10); }
    if m >= 10 && n >= 10 {
      assert x[..|x| - 1] == Decimal(m / 10) && y[..|y| - 1] == Decimal(n / 10);
      DecimalInjective(m / 10, n / 10);
    }
  }

  /** A separator that occurs in neither head cuts equal strings at the same place. */
  lemma {:induction false} UniqueCut(a: Octets, s: Octets, b: Octets, t: Octets, c: byte)
    requires c !in a && c !in b
    requires a + [c] + s == b + [c] + t
    ensures a == b && s == t
    decreases |a|
  {
    var x, y := a + [c] + s, b + [c] + t;
    if a == [] || b == [] {
      assert x[0] == y[0];
      assert a == b;
      assert x[1..] == s && y[1..] == t;
    } else {
      assert x[0] == a[0] && y[0] == b[0];
      assert x[1..] == a[1..] + [c] + s && y[1..] == b[1..] + [c] + t;
      UniqueCut(a[1..], s, b[1..], t, c);
      assert a == [a[0]] + a[1..] && b == [b[0]] + b[1..];
    }
  }

  lemma ItemInjective(p: Question, q: Question)
    requires Item(p) == Item(q)
    ensures p.name == q.name && p.qtype == q.qtype
  {
    HexIsPlain(p.name);
    HexIsPlain(q.name);
    UniqueCut(Hex(p.name), Decimal(p.qtype), Hex(q.name), Decimal(q.qtype), COLON);
    HexInjective(p.name, q.name);
    DecimalInjective(p.qtype, q.qtype);
  }

  lemma ItemHasNoBar(q: Question)
    ensures BAR !in Item(q) && Item(q) != []
  {
    HexIsPlain(q.name);
    DecimalIsPlain(q.qtype);
  }

  lemma KeyHead(qs: seq<Question>)
    requires |qs| > 1
    ensures BAR in RawKey(qs)
  {
    assert RawKey(qs)[|Item(qs[0])|] == BAR;
  }

  /** The key tells question lists apart: equal keys mean equal names and types, in order. */
  lemma {:induction false} RawKeyInjective(a: seq<Question>, b: seq<Question>)
    requires RawKey(a) == RawKey(b)
    ensures SameQuestions(a, b)
    decreases |a|
  {
    hide Item;
    if a != [] { ItemHasNoBar(a[0]); }
    if b != [] { ItemHasNoBar(b[0]); }
    if |a| > 1 && |b| > 1 {
      UniqueCut(Item(a[0]), RawKey(a[1..]), Item(b[0]), RawKey(b[1..]), BAR);
      ItemInjective(a[0], b[0]);
      RawKeyInjective(a[1..], b[1..]);
    } else if |a| == 1 && |b| == 1 {
      ItemInjective(a[0], b[0]);
    } else {
      if |a| > 1 { KeyHead(a); }
      if |b| > 1 { KeyHead(b); }
    }
  }

  /** And it depends on nothing else. */
  lemma {:induction false} RawKeySame(a: seq<Question>, b: seq<Question>)
    requires SameQuestions(a, b)
    ensures RawKey(a) == RawKey(b)
    decreases |a|
  {
    if a != [] {
      RawKeySame(a[1..], b[1..]);
    }
  }
}
