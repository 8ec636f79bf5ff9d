/** The string operations the server uses, on ASCII text held as octets. */
module Text {
  import opened Bytes

  type Name = Octets

  const DOT: byte := 0x2e
  const STAR: byte := 0x2a

  predicate IsUpper(c: byte) { 0x41 <= c <= 0x5a }
  predicate IsLower(c: byte) { 0x61 <= c <= 0x7a }
  predicate IsLetter(c: byte) { IsUpper(c) || IsLower(c) }

  function LowerChar(c: byte): byte { if IsUpper(c) then c + 32 else c }

  /** toLowerCase */
  function Lower(s: Name): (r: Name)
    ensures |r| == |s|
    ensures forall i :: 0 <= i < |s| ==> r[i] == LowerChar(s[i])
  {
    seq(|s|, i requires 0 <= i < |s| => LowerChar(s[i]))
  }

  /** Equal octet for octet but for the case of ASCII letters. */
  predicate SameButCase(a: Name, b: Name)
  {
    |a| == |b| && forall i :: 0 <= i < |a| ==> SameLetter(a[i], b[i])
  }

  predicate SameLetter(c: byte, d: byte)
  {
    c == d || (c % 32 == d % 32 && AsciiLetter(c) && AsciiLetter(d))
  }

  predicate AsciiLetter(c: byte) { 65 <= c <= 90 || 97 <= c <= 122 }

  /** Two texts have the same lower-case form exactly when they differ in the case of letters only, and that form has no
      upper-case letter. */
  lemma {:induction false} LowerExactly(a: Name, b: Name)
    ensures Lower(a) == Lower(b) <==> SameButCase(a, b)
    ensures SameButCase(Lower(a), a) && forall i :: 0 <= i < |a| ==> !(65 <= Lower(a)[i] <= 90)
  {
    if Lower(a) == Lower(b) {
      forall i | 0 <= i < |a| ensures SameLetter(a[i], b[i]) {
        assert LowerChar(a[i]) == Lower(a)[i] == Lower(b)[i] == LowerChar(b[i]);
      }
    }
  }

  /** split(".") : never empty, "" gives [""] */
  function Split(s: Name): (r: seq<Name>)
    ensures |r| > 0
  {
    if s == [] then [[]]
    else
      var rest := Split(s[1..]);
      if s[0] == DOT then [[]] + rest
      else [[s[0]] + rest[0]] + rest[1..]
  }

  /** join(".") */
  function Join(labels: seq<Name>): Name
  {
    if labels == [] then []
    else if |labels| == 1 then labels[0]
    else labels[0] + [DOT] + Join(labels[1..])
  }

  predicate NoDot(s: Name) { DOT !in s }

  predicate Dotless(labels: seq<Name>)
  {
    forall i :: 0 <= i < |labels| ==> NoDot(labels[i])
  }

  predicate LabelsFit(labels: seq<Name>, max: nat)
  {
    forall i :: 0 <= i < |labels| ==> |labels[i]| <= max
  }

  /** The pieces writeDomainName keeps: it skips empty ones. */
  function NonEmpty(labels: seq<Name>): (r: seq<Name>)
    ensures |r| <= |labels|
    ensures forall i :: 0 <= i < |r| ==> r[i] in labels && r[i] != []
  {
    if labels == [] then []
    else if labels[0] == [] then NonEmpty(labels[1..])
    else [labels[0]] + NonEmpty(labels[1..])
  }

  lemma {:induction false} SplitPrefix(a: Name, t: Name)
    requires NoDot(a)
    ensures Split(a + [DOT] + t) == [a] + Split(t)
  {
    var s := a + [DOT] + t;
    if a == [] {
      assert s[1..] == t;
    } else {
      assert s[1..] == a[1..] + [DOT] + t;
      assert a[0] in a;
      SplitPrefix(a[1..], t);
      assert [a[0]] + a[1..] == a && ([a[1..]] + Split(t))[1..] == Split(t);
    }
  }

  lemma {:induction false} SplitAtomic(a: Name)
    requires NoDot(a)
    ensures Split(a) == [a]
  {
    if a != [] {
      assert a[0] in a;
      SplitAtomic(a[1..]);
      assert [a[0]] + a[1..] == a;
    }
  }

  lemma {:induction false} SplitJoin(labels: seq<Name>)
    requires labels != [] && Dotless(labels)
    ensures Split(Join(labels)) == labels
  {
    if |labels| == 1 {
      SplitAtomic(labels[0]);
    } else {
      SplitPrefix(labels[0], Join(labels[1..]));
      SplitJoin(labels[1..]);
    }
  }

  lemma {:induction false} JoinSplit(s: Name)
    ensures Join(Split(s)) == s
    ensures Dotless(Split(s))
  {
    if s != [] {
      JoinSplit(s[1..]);
      var rest := Split(s[1..]);
      if s[0] == DOT {
        assert ([[]] + rest)[1..] == rest;
        assert Join([[]] + rest) == [] + [DOT] + Join(rest);
      } else {
        var r := [[s[0]] + rest[0]] + rest[1..];
        assert r[1..] == rest[1..];
        assert Join(r) == [s[0]] + Join(rest);
      }
    }
  }

  predicate AreLower(low: seq<Name>, labels: seq<Name>)
  {
    |low| == |labels| && forall i :: 0 <= i < |labels| ==> low[i] == Lower(labels[i])
  }

  lemma LowerHead(low: seq<Name>, labels: seq<Name>, c: byte)
    requires AreLower(low, labels) && labels != []
    ensures AreLower([[LowerChar(c)] + low[0]] + low[1..], [[c] + labels[0]] + labels[1..])
    ensures AreLower([[]] + low, [[]] + labels)
  {
    assert [LowerChar(c)] + low[0] == Lower([c] + labels[0]);
    assert Lower([]) == [];
  }

  lemma {:induction false} LowerSplit(s: Name)
    ensures |Split(Lower(s))| == |Split(s)|
    ensures forall i :: 0 <= i < |Split(s)| ==> Split(Lower(s))[i] == Lower(Split(s)[i])
  {
    LowerSplits(s);
    hide Split;
  }

  lemma {:induction false} LowerSplits(s: Name)
    ensures AreLower(Split(Lower(s)), Split(s))
  {
    if s == [] {
      assert Lower([]) == [];
    } else {
      LowerSplits(s[1..]);
      assert Lower(s)[1..] == Lower(s[1..]) && Lower(s)[0] == LowerChar(s[0]);
      LowerHead(Split(Lower(s[1..])), Split(s[1..]), s[0]);
      hide AreLower, Lower;
    }
  }

  lemma {:induction false} LowerJoin(labels: seq<Name>)
    ensures Lower(Join(labels)) == Join(LowerAll(labels))
  {
    if |labels| > 1 {
      LowerJoin(labels[1..]);
      assert LowerAll(labels)[1..] == LowerAll(labels[1..]);
    }
  }

  function LowerAll(labels: seq<Name>): (r: seq<Name>)
    ensures |r| == |labels|
    ensures forall i :: 0 <= i < |r| ==> r[i] == Lower(labels[i])
  {
    seq(|labels|, i requires 0 <= i < |labels| => Lower(labels[i]))
  }

  /** Cutting at dots never makes a piece longer than the labels that were joined. */
  lemma {:induction false} SplitJoinFit(labels: seq<Name>, max: nat)
    requires LabelsFit(labels, max)
    ensures LabelsFit(Split(Join(labels)), max)
  {
    if labels == [] {
    } else if |labels| == 1 {
      SplitLength(labels[0]);
    } else {
      SplitJoinFit(labels[1..], max);
      SplitLength(labels[0]);
      SplitAppend(labels[0], Join(labels[1..]));
    }
  }

  lemma {:induction false} SplitLength(s: Name)
    ensures LabelsFit(Split(s), |s|)
  {
    if s != [] {
      SplitLength(s[1..]);
    }
  }

  lemma {:induction false} SplitAppend(a: Name, t: Name)
    ensures Split(a + [DOT] + t) == Split(a) + Split(t)
  {
    var s := a + [DOT] + t;
    if a == [] {
      assert s[1..] == t;
    } else {
      assert s[1..] == a[1..] + [DOT] + t;
      SplitAppend(a[1..], t);
    }
  }

  lemma {:induction false} NonEmptyId(labels: seq<Name>)
    requires forall i :: 0 <= i < |labels| ==> labels[i] != []
    ensures NonEmpty(labels) == labels
  {
    if labels != [] {
      NonEmptyId(labels[1..]);
    }
  }

  lemma {:induction false} NonEmptyLower(labels: seq<Name>)
    ensures NonEmpty(LowerAll(labels)) == LowerAll(NonEmpty(labels))
  {
    if labels != [] {
      var low, rest := LowerAll(labels), NonEmpty(labels[1..]);
      assert low[1..] == LowerAll(labels[1..]);
      NonEmptyLower(labels[1..]);
      if labels[0] != [] {
        assert LowerAll([labels[0]] + rest) == [low[0]] + LowerAll(rest);
      }
    }
  }

  function EndsWith(s: Name, t: Name): bool
  {
    |t| <= |s| && s[|s| - |t|..] == t
  }
}
