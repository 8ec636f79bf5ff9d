/** The canonical order, signed payload and key tag of DNSSEC (RFC 4034). */
module Dnssec {
  import opened Bytes
  import opened Text
  import opened WireFormat

  datatype RR = RR(name: Name, rtype: u16, dclass: u16, rdlength: u16, rdata: Octets)

  // ---------------------------------------------------------------- the comparator

  /** The sign of the comparator decides the order: first differing octet, then length. */
  function Compare(x: Octets, y: Octets): int
  {
    if x == [] || y == [] then |x| - |y|
    else if x[0] != y[0] then x[0] as int - y[0]
    else Compare(x[1..], y[1..])
  }

  method CompareRdata(x: Octets, y: Octets) returns (r: int)
    ensures r == Compare(x, y)
  {
    var len := if |x| < |y| then |x| else |y|;
    var i := 0;
    while i < len
      invariant 0 <= i <= len
      invariant Compare(x[i..], y[i..]) == Compare(x, y)
    {
      if x[i] != y[i] { return x[i] as int - y[i]; }
      assert x[i..][1..] == x[i + 1..] && y[i..][1..] == y[i + 1..];
      i := i + 1;
    }
    return |x| - |y|;
  }

  /** A total order: antisymmetric, and zero only on equal octets. */
  lemma {:induction false} CompareAntisymmetric(x: Octets, y: Octets)
    ensures Compare(x, y) == -Compare(y, x)
    ensures Compare(x, y) == 0 <==> x == y
    decreases |x|
  {
    if x != [] && y != [] && x[0] == y[0] {
      CompareAntisymmetric(x[1..], y[1..]);
      assert x == [x[0]] + x[1..] && y == [y[0]] + y[1..];
    }
  }

  lemma {:induction false} CompareTransitive(x: Octets, y: Octets, z: Octets)
    requires Compare(x, y) <= 0 && Compare(y, z) <= 0
    ensures Compare(x, z) <= 0
    decreases |x|
  {
    if x != [] && y != [] && z != [] && x[0] == y[0] == z[0] {
      CompareTransitive(x[1..], y[1..], z[1..]);
    }
  }

  // ---------------------------------------------------------------- the stable sort

  predicate Sorted(rs: seq<RR>)
  {
    forall i, j :: 0 <= i < j < |rs| ==> Compare(rs[i].rdata, rs[j].rdata) <= 0
  }

  function Insert(r: RR, rs: seq<RR>): seq<RR>
  {
    if rs == [] || Compare(r.rdata, rs[0].rdata) <= 0 then [r] + rs
    else [rs[0]] + Insert(r, rs[1..])
  }

  /** Array.prototype.sort with this comparator: the stable sorted order, see StableSortIsUnique. */
  function Sort(rs: seq<RR>): seq<RR>
  {
    if rs == [] then [] else Insert(rs[0], Sort(rs[1..]))
  }

  /** The records with one rdata, in order. */
  function Ties(rs: seq<RR>, x: Octets): seq<RR>
  {
    if rs == [] then []
    else (if rs[0].rdata == x then [rs[0]] else []) + Ties(rs[1..], x)
  }

  lemma {:induction false} InsertElements(r: RR, rs: seq<RR>)
    ensures multiset(Insert(r, rs)) == multiset{r} + multiset(rs)
    ensures |Insert(r, rs)| == |rs| + 1
  {
    if rs != [] && Compare(r.rdata, rs[0].rdata) > 0 {
      InsertElements(r, rs[1..]);
      assert rs == [rs[0]] + rs[1..];
    }
  }

  lemma {:induction false} InsertSorted(r: RR, rs: seq<RR>)
    requires Sorted(rs)
    ensures Sorted(Insert(r, rs))
  {
    if rs != [] {
      if Compare(r.rdata, rs[0].rdata) <= 0 {
        forall j | 0 <= j < |rs| ensures Compare(r.rdata, rs[j].rdata) <= 0 {
          if j > 0 { CompareTransitive(r.rdata, rs[0].rdata, rs[j].rdata); }
        }
      } else {
        InsertSorted(r, rs[1..]);
        InsertElements(r, rs[1..]);
        CompareAntisymmetric(r.rdata, rs[0].rdata);
        var rest := Insert(r, rs[1..]);
        assert Insert(r, rs) == [rs[0]] + rest;
        assert forall j :: 0 <= j < |rs[1..]| ==> Compare(rs[0].rdata, rs[1..][j].rdata) <= 0;
        hide Compare, Insert;
        forall j | 0 <= j < |rest| ensures Compare(rs[0].rdata, rest[j].rdata) <= 0 {
          assert rest[j] in multiset(rest);
          if rest[j] != r {
            assert rest[j] in rs[1..];
          }
        }
      }
    }
  }

  lemma {:induction false} SortIsSorted(rs: seq<RR>)
    ensures Sorted(Sort(rs)) && multiset(Sort(rs)) == multiset(rs) && |Sort(rs)| == |rs|
  {
    if rs != [] {
      SortIsSorted(rs[1..]);
      InsertSorted(rs[0], Sort(rs[1..]));
      InsertElements(rs[0], Sort(rs[1..]));
      assert rs == [rs[0]] + rs[1..];
    }
  }

  lemma {:induction false} InsertTies(r: RR, rs: seq<RR>, x: Octets)
    ensures Ties(Insert(r, rs), x) == (if r.rdata == x then [r] else []) + Ties(rs, x)
  {
    if rs != [] && Compare(r.rdata, rs[0].rdata) > 0 {
      InsertTies(r, rs[1..], x);
      CompareAntisymmetric(r.rdata, rs[0].rdata);
      assert Insert(r, rs) == [rs[0]] + Insert(r, rs[1..]) && rs == [rs[0]] + rs[1..];
      TiesHead(rs[0], Insert(r, rs[1..]), x);
      TiesHead(rs[0], rs[1..], x);
      hide *;
    } else {
      TiesHead(r, rs, x);
    }
  }

  lemma TiesHead(r: RR, rs: seq<RR>, x: Octets)
    ensures Ties([r] + rs, x) == (if r.rdata == x then [r] else []) + Ties(rs, x)
  {
    assert ([r] + rs)[0] == r && ([r] + rs)[1..] == rs;
  }

  lemma {:induction false} SortIsStable(rs: seq<RR>, x: Octets)
    ensures Ties(Sort(rs), x) == Ties(rs, x)
  {
    if rs != [] {
      SortIsStable(rs[1..], x);
      InsertTies(rs[0], Sort(rs[1..]), x);
    }
  }

  lemma {:induction false} TiesOccur(rs: seq<RR>, x: Octets)
    requires Ties(rs, x) != []
    ensures exists i :: 0 <= i < |rs| && rs[i].rdata == x
  {
    if rs[0].rdata != x {
      TiesOccur(rs[1..], x);
      var i :| 0 <= i < |rs[1..]| && rs[1..][i].rdata == x;
      assert rs[i + 1].rdata == x;
    }
  }

  lemma FirstNotAfter(rs: seq<RR>, x: Octets)
    requires Sorted(rs) && Ties(rs, x) != []
    ensures rs != [] && Compare(rs[0].rdata, x) <= 0
  {
    TiesOccur(rs, x);
    var i :| 0 <= i < |rs| && rs[i].rdata == x;
    CompareAntisymmetric(x, x);
    if i > 0 { assert Compare(rs[0].rdata, rs[i].rdata) <= 0; }
  }

  /** Being sorted and keeping the order of ties determines the result, so any stable sort builds this one. */
  lemma {:induction false} StableSortIsUnique(a: seq<RR>, b: seq<RR>)
    requires Sorted(a) && Sorted(b) && forall x :: Ties(a, x) == Ties(b, x)
    ensures a == b
    decreases |a|
  {
    if a == [] {
      assert b == [] || Ties(b, b[0].rdata) != [];
    } else {
      var x := a[0].rdata;
      assert Ties(a, x)[0] == a[0];
      FirstNotAfter(b, x);
      var y := b[0].rdata;
      assert Ties(b, y)[0] == b[0];
      FirstNotAfter(a, y);
      CompareAntisymmetric(x, y);
      assert x == y && a[0] == b[0];
      forall z ensures Ties(a[1..], z) == Ties(b[1..], z) { TiesTail(a, b, z); }
      StableSortIsUnique(a[1..], b[1..]);
      assert a == [a[0]] + a[1..] && b == [b[0]] + b[1..];
    }
  }

  lemma TiesTail(a: seq<RR>, b: seq<RR>, z: Octets)
    requires a != [] && b != [] && a[0] == b[0] && Ties(a, z) == Ties(b, z)
    ensures Ties(a[1..], z) == Ties(b[1..], z)
  {
    var head := if a[0].rdata == z then [a[0]] else [];
    assert Ties(a, z)[|head|..] == Ties(a[1..], z) && Ties(b, z)[|head|..] == Ties(b[1..], z);
  }

  // ---------------------------------------------------------------- the signed payload

  /** encodeCanonicalName writes into a fresh buffer of the default size and throws when the name does not fit. */
  predicate Canonical(name: Name)
  {
    Encodable(name) && |EncodeName(name)| <= PACKET_SIZE
  }

  /** Owner in canonical form, then type, class, the signature's original TTL, rdlength and rdata. */
  function Piece(r: RR, originalTtl: u32): Octets
    requires Canonical(r.name)
  {
    EncodeName(r.name) + (Be16(r.rtype) + Be16(r.dclass) + Be32(originalTtl) + Be16(r.rdlength)) + r.rdata
  }

  predicate AllOwnersEncode(rs: seq<RR>)
  {
    forall i :: 0 <= i < |rs| ==> Canonical(rs[i].name)
  }

  function Pieces(rs: seq<RR>, originalTtl: u32): Octets
    requires AllOwnersEncode(rs)
  {
    if rs == [] then [] else Piece(rs[0], originalTtl) + Pieces(rs[1..], originalTtl)
  }

  /** The octets verifySignature checks: the RRSIG prefix, the signer, the sorted records. */
  function Payload(prefix: Octets, signer: Name, rs: seq<RR>, originalTtl: u32): Octets
    requires Canonical(signer) && AllOwnersEncode(rs)
  {
    SortKeepsOwners(rs);
    prefix + EncodeName(signer) + Pieces(Sort(rs), originalTtl)
  }

  lemma SortKeepsOwners(rs: seq<RR>)
    requires AllOwnersEncode(rs)
    ensures AllOwnersEncode(Sort(rs))
  {
    SortIsSorted(rs);
    forall i | 0 <= i < |Sort(rs)| ensures Canonical(Sort(rs)[i].name) {
      assert Sort(rs)[i] in multiset(rs);
    }
  }

  method EncodeCanonicalName(name: Name) returns (r: Option<Octets>)
    ensures r == if Canonical(name) then Some(EncodeName(name)) else None
  {
    var encoder := new DnsWireFormat.Alloc(PACKET_SIZE);
    var ok := encoder.WriteDomainName(name);
    if !ok { return None; }
    assert [] + EncodeName(name) == EncodeName(name);
    var octets := encoder.Finish();
    return Some(octets);
  }

  /** The chunks pushed for one record. */
  method EncodeRecord(rr: RR, originalTtl: u32) returns (r: Option<Octets>)
    ensures r == if Canonical(rr.name) then Some(Piece(rr, originalTtl)) else None
  {
    var ownerCanonical := EncodeCanonicalName(rr.name);
    if ownerCanonical.None? { return None; }
    var header := Be16(rr.rtype) + Be16(rr.dclass) + Be32(originalTtl) + Be16(rr.rdlength);
    return Some(ownerCanonical.value + header + rr.rdata);
  }

  /** The payload part of verifySignature; None is the exception of a name too long to write. */
  method BuildPayload(prefix: Octets, signer: Name, rrset: seq<RR>, originalTtl: u32) returns (r: Option<Octets>)
    ensures r.Some? <==> Canonical(signer) && AllOwnersEncode(rrset)
    ensures r.Some? ==> r.value == Payload(prefix, signer, rrset, originalTtl)
  {
    hide Sort, Canonical, EncodeName, Piece;
    var signerNameCanonical := EncodeCanonicalName(signer);
    if signerNameCanonical.None? { return None; }
    OwnersOfSorted(rrset);
    var sorted := Sort(rrset);
    var chunks := prefix + signerNameCanonical.value;
    ghost var start := chunks;
    var i := 0;
    while i < |sorted|
      invariant 0 <= i <= |sorted|
      invariant forall k :: 0 <= k < i ==> Canonical(sorted[k].name)
      invariant chunks == Appended(start, sorted, i, originalTtl)
    {
      var piece := EncodeRecord(sorted[i], originalTtl);
      if piece.None? { return None; }
      chunks := chunks + piece.value;
      i := i + 1;
    }
    AppendedAll(start, sorted, originalTtl);
    r := Some(chunks);
  }

  /** The first n pieces after `start`, the way the loop appends them. */
  ghost function Appended(start: Octets, rs: seq<RR>, n: nat, originalTtl: u32): Octets
    requires n <= |rs| && forall k :: 0 <= k < n ==> Canonical(rs[k].name)
  {
    if n == 0 then start else Appended(start, rs, n - 1, originalTtl) + Piece(rs[n - 1], originalTtl)
  }

  lemma {:induction false} AppendedStep(start: Octets, rs: seq<RR>, n: nat, originalTtl: u32)
    requires n < |rs| && AllOwnersEncode(rs)
    ensures Appended(start, rs, n + 1, originalTtl)
         == Appended(start + Piece(rs[0], originalTtl), rs[1..], n, originalTtl)
  {
    hide Canonical, Piece;
    if n > 0 {
      AppendedStep(start, rs, n - 1, originalTtl);
      assert rs[1..][n - 1] == rs[n];
    }
  }

  lemma {:induction false} AppendedAll(start: Octets, rs: seq<RR>, originalTtl: u32)
    requires AllOwnersEncode(rs)
    ensures Appended(start, rs, |rs|, originalTtl) == start + Pieces(rs, originalTtl)
    decreases |rs|
  {
    hide Canonical, Piece;
    if rs != [] {
      AppendedStep(start, rs, |rs| - 1, originalTtl);
      AppendedAll(start + Piece(rs[0], originalTtl), rs[1..], originalTtl);
    }
  }

  lemma OwnersOfSorted(rs: seq<RR>)
    ensures AllOwnersEncode(Sort(rs)) <==> AllOwnersEncode(rs)
  {
    SortIsSorted(rs);
    hide Canonical, Sort;
    PermutationKeepsSet(rs, Sort(rs));
    PermutationKeepsSet(Sort(rs), rs);
  }

  // ---------------------------------------------------------------- order independence

  /** The records filtered for one signature: same owner and type. */
  predicate OneSet(rs: seq<RR>)
  {
    forall i, j :: 0 <= i < |rs| && 0 <= j < |rs| ==> rs[i].name == rs[j].name && rs[i].rtype == rs[j].rtype
  }

  /** Records with equal rdata also have equal class and rdlength fields. */
  predicate TiesAgree(rs: seq<RR>)
  {
    forall i, j :: 0 <= i < |rs| && 0 <= j < |rs| && rs[i].rdata == rs[j].rdata ==>
      rs[i].dclass == rs[j].dclass && rs[i].rdlength == rs[j].rdlength
  }

  lemma {:induction false} SortedPermutationsAreEqual(a: seq<RR>, b: seq<RR>)
    requires Sorted(a) && Sorted(b) && multiset(a) == multiset(b)
    requires OneSet(a) && TiesAgree(a)
    ensures a == b
    decreases |a|
  {
    assert |multiset(a)| == |multiset(b)|;
    if a != [] {
      SortedHeadsAreEqual(a, b);
      TailKeepsOrder(a);
      TailKeepsOrder(b);
      hide *;
      SameTails(a, b);
      SortedPermutationsAreEqual(a[1..], b[1..]);
    }
  }

  lemma SameTails<T>(a: seq<T>, b: seq<T>)
    requires a != [] && b != [] && multiset(a) == multiset(b) && a[0] == b[0]
    ensures multiset(a[1..]) == multiset(b[1..])
    ensures a == [a[0]] + a[1..] && b == [b[0]] + b[1..]
  {
    assert a == [a[0]] + a[1..] && b == [b[0]] + b[1..];
    assert multiset(a[1..]) == multiset(a) - multiset{a[0]} == multiset(b[1..]);
  }

  lemma TailKeepsOrder(a: seq<RR>)
    requires a != []
    ensures Sorted(a) ==> Sorted(a[1..])
    ensures OneSet(a) ==> OneSet(a[1..])
    ensures TiesAgree(a) ==> TiesAgree(a[1..])
  {
    hide Compare;
    var t := a[1..];
    assert forall i :: 0 <= i < |t| ==> t[i] == a[i + 1];
  }

  lemma SortedHeadsAreEqual(a: seq<RR>, b: seq<RR>)
    requires Sorted(a) && Sorted(b) && multiset(a) == multiset(b)
    requires OneSet(a) && TiesAgree(a) && a != [] && b != []
    ensures a[0] == b[0]
  {
    hide Compare;
    assert a[0] in multiset(b) && b[0] in multiset(a);
    var i :| 0 <= i < |b| && b[i] == a[0];
    var j :| 0 <= j < |a| && a[j] == b[0];
    CompareAntisymmetric(a[0].rdata, a[0].rdata);
    CompareAntisymmetric(a[0].rdata, b[0].rdata);
    assert Compare(b[0].rdata, b[i].rdata) <= 0 || i == 0;
    assert Compare(a[0].rdata, a[j].rdata) <= 0 || j == 0;
    assert a[0].rdata == a[j].rdata;
  }

  lemma PermutationKeepsSet(rs: seq<RR>, qs: seq<RR>)
    requires multiset(rs) == multiset(qs)
    ensures OneSet(rs) ==> OneSet(qs)
    ensures TiesAgree(rs) ==> TiesAgree(qs)
    ensures AllOwnersEncode(rs) ==> AllOwnersEncode(qs)
  {
    forall i | 0 <= i < |qs| ensures exists k :: 0 <= k < |rs| && rs[k] == qs[i] {
      assert qs[i] in multiset(rs);
    }
  }

  /** Every permutation of the set gives the identical payload when records with equal rdata agree. */
  lemma {:induction false} PayloadIgnoresOrder(prefix: Octets, signer: Name, rs: seq<RR>, qs: seq<RR>, originalTtl: u32)
    requires Canonical(signer) && OneSet(rs) && TiesAgree(rs) && AllOwnersEncode(rs) && multiset(rs) == multiset(qs)
    ensures AllOwnersEncode(qs)
    ensures Payload(prefix, signer, rs, originalTtl) == Payload(prefix, signer, qs, originalTtl)
  {
    SortIsSorted(rs);
    SortIsSorted(qs);
    PermutationKeepsSet(rs, qs);
    PermutationKeepsSet(rs, Sort(rs));
    SortedPermutationsAreEqual(Sort(rs), Sort(qs));
  }

  /** Inserting two records of equal rdata one after the other: the later insertion comes first. */
  lemma {:induction false} InsertTwo(r: RR, s: RR, rs: seq<RR>, originalTtl: u32)
    requires r.rdata == s.rdata && Canonical(r.name) && Canonical(s.name) && AllOwnersEncode(rs)
    requires |Piece(r, originalTtl)| == |Piece(s, originalTtl)| && Piece(r, originalTtl) != Piece(s, originalTtl)
    ensures AllOwnersEncode(Insert(r, Insert(s, rs))) && AllOwnersEncode(Insert(s, Insert(r, rs)))
    ensures Pieces(Insert(r, Insert(s, rs)), originalTtl) != Pieces(Insert(s, Insert(r, rs)), originalTtl)
  {
    hide Canonical, EncodeName;
    var a, b := Insert(r, Insert(s, rs)), Insert(s, Insert(r, rs));
    CompareAntisymmetric(r.rdata, s.rdata);
    if rs == [] || Compare(r.rdata, rs[0].rdata) <= 0 {
      assert Insert(s, rs) == [s] + rs && Insert(r, rs) == [r] + rs;
      assert a == [r] + ([s] + rs) && b == [s] + ([r] + rs);
      assert a[1..] == [s] + rs && b[1..] == [r] + rs;
      var p, q := Piece(r, originalTtl), Piece(s, originalTtl);
      hide Piece;
      assert Pieces(a, originalTtl)[..|p|] == p && Pieces(b, originalTtl)[..|q|] == q;
    } else {
      InsertTwo(r, s, rs[1..], originalTtl);
      var head, a1, b1 := rs[0], Insert(r, Insert(s, rs[1..])), Insert(s, Insert(r, rs[1..]));
      assert Insert(s, rs)[1..] == Insert(s, rs[1..]) && Insert(r, rs)[1..] == Insert(r, rs[1..]);
      assert a == [head] + a1 && b == [head] + b1;
      assert a[1..] == a1 && b[1..] == b1;
      var n := |Piece(head, originalTtl)|;
      hide Piece;
      assert Pieces(a, originalTtl)[n..] == Pieces(a1, originalTtl);
      assert Pieces(b, originalTtl)[n..] == Pieces(b1, originalTtl);
    }
  }

  lemma DifferentPieces(r: RR, s: RR, originalTtl: u32)
    requires Canonical(r.name) && r.name == s.name && r.rtype == s.rtype && r.rdata == s.rdata
    requires r.dclass != s.dclass || r.rdlength != s.rdlength
    ensures |Piece(r, originalTtl)| == |Piece(s, originalTtl)| && Piece(r, originalTtl) != Piece(s, originalTtl)
  {
    hide EncodeName, Encodable, Be32;
    var n := |EncodeName(r.name)|;
    var p, q := Piece(r, originalTtl), Piece(s, originalTtl);
    assert p[n + 2..n + 4] == Be16(r.dclass) && q[n + 2..n + 4] == Be16(s.dclass);
    assert p[n + 8..n + 10] == Be16(r.rdlength) && q[n + 8..n + 10] == Be16(s.rdlength);
    Be16TellsApart(r.dclass, s.dclass);
    Be16TellsApart(r.rdlength, s.rdlength);
  }

  lemma Be16TellsApart(u: u16, v: u16)
    ensures Be16(u) == Be16(v) <==> u == v
  {
    assert U16(Be16(u), 0) == u && U16(Be16(v), 0) == v;
  }

  /** The payload is independent of the order of the records if and only if
      records with equal rdata agree on class and rdlength. */
  lemma {:induction false} OrderIndependenceExact(prefix: Octets, signer: Name, rs: seq<RR>, originalTtl: u32)
    requires Canonical(signer) && OneSet(rs) && AllOwnersEncode(rs)
    ensures TiesAgree(rs) <==>
            (forall qs | multiset(qs) == multiset(rs) ::
               && AllOwnersEncode(qs)
               && Payload(prefix, signer, qs, originalTtl) == Payload(prefix, signer, rs, originalTtl))
  {
    hide Payload, OneSet, Canonical;
    if TiesAgree(rs) {
      forall qs | multiset(qs) == multiset(rs)
        ensures AllOwnersEncode(qs)
        ensures Payload(prefix, signer, qs, originalTtl) == Payload(prefix, signer, rs, originalTtl)
      {
        PayloadIgnoresOrder(prefix, signer, rs, qs, originalTtl);
      }
    } else {
      var a, b := Disagreement(prefix, signer, rs, originalTtl);
    }
  }

  /** Two orders of the same records with different payloads. */
  lemma Disagreement(prefix: Octets, signer: Name, rs: seq<RR>, originalTtl: u32) returns (a: seq<RR>, b: seq<RR>)
    requires Canonical(signer) && OneSet(rs) && AllOwnersEncode(rs) && !TiesAgree(rs)
    ensures multiset(a) == multiset(rs) == multiset(b)
    ensures AllOwnersEncode(a) && AllOwnersEncode(b)
    ensures Payload(prefix, signer, a, originalTtl) != Payload(prefix, signer, b, originalTtl)
  {
    hide Canonical, EncodeName, Piece, OneSet, Compare;
    var i, j :| 0 <= i < j < |rs| && rs[i].rdata == rs[j].rdata
                && (rs[i].dclass != rs[j].dclass || rs[i].rdlength != rs[j].rdlength);
    var r, s, rest := rs[i], rs[j], rs[..i] + rs[i + 1..j] + rs[j + 1..];
    a, b := [r, s] + rest, [s, r] + rest;
    assert multiset(a) == multiset(rs) == multiset(b) by { TwoInFront(rs, i, j); }
    PermutationKeepsSet(rs, a);
    PermutationKeepsSet(rs, b);
    assert r.name == s.name && r.rtype == s.rtype by { SameOwnerAndType(rs, i, j); }
    SwappedPairDiffers(prefix, signer, r, s, rest, originalTtl);
  }

  lemma SameOwnerAndType(rs: seq<RR>, i: nat, j: nat)
    requires OneSet(rs) && i < |rs| && j < |rs|
    ensures rs[i].name == rs[j].name && rs[i].rtype == rs[j].rtype
  {
  }

  lemma TwoInFront(rs: seq<RR>, i: nat, j: nat)
    requires i < j < |rs|
    ensures multiset([rs[i], rs[j]] + (rs[..i] + rs[i + 1..j] + rs[j + 1..])) == multiset(rs)
    ensures multiset([rs[j], rs[i]] + (rs[..i] + rs[i + 1..j] + rs[j + 1..])) == multiset(rs)
  {
    assert rs == rs[..i] + [rs[i]] + rs[i + 1..j] + [rs[j]] + rs[j + 1..];
  }

  lemma SortTwo(r: RR, s: RR, rest: seq<RR>)
    ensures Sort([r, s] + rest) == Insert(r, Insert(s, Sort(rest)))
  {
    hide Insert;
    assert ([r, s] + rest)[1..] == [s] + rest && ([s] + rest)[1..] == rest;
    assert Sort([s] + rest) == Insert(s, Sort(rest));
  }

  lemma SwappedPairDiffers(prefix: Octets, signer: Name, r: RR, s: RR, rest: seq<RR>, originalTtl: u32)
    requires Canonical(signer) && AllOwnersEncode([r, s] + rest) && AllOwnersEncode([s, r] + rest)
    requires r.name == s.name && r.rtype == s.rtype && r.rdata == s.rdata
    requires r.dclass != s.dclass || r.rdlength != s.rdlength
    ensures Payload(prefix, signer, [r, s] + rest, originalTtl) != Payload(prefix, signer, [s, r] + rest, originalTtl)
  {
    hide EncodeName, Piece, Compare, Insert, Pieces, Encodable;
    var a, b := [r, s] + rest, [s, r] + rest;
    assert a[0] == r && a[1] == s && forall k :: 0 <= k < |rest| ==> rest[k] == a[k + 2];
    DifferentPieces(r, s, originalTtl);
    SortKeepsOwners(rest);
    InsertTwo(r, s, Sort(rest), originalTtl);
    SortTwo(r, s, rest);
    SortTwo(s, r, rest);
    var n := |prefix + EncodeName(signer)|;
    hide Sort;
    assert Payload(prefix, signer, a, originalTtl)[n..] == Pieces(Sort(a), originalTtl);
    assert Payload(prefix, signer, b, originalTtl)[n..] == Pieces(Sort(b), originalTtl);
  }

  /** Records read whole, of one class, always agree. */
  lemma {:induction false} WholeRecordsAgree(rs: seq<RR>)
    requires forall i :: 0 <= i < |rs| ==> rs[i].rdlength == |rs[i].rdata|
    requires forall i, j :: 0 <= i < |rs| && 0 <= j < |rs| ==> rs[i].dclass == rs[j].dclass
    ensures TiesAgree(rs)
  {
  }

  // ---------------------------------------------------------------- the key tag

  /** The loop's accumulator over the first n octets: even positions count 256-fold. */
  function Accumulated(b: Octets, n: nat): nat
    requires n <= |b|
  {
    if n == 0 then 0 else Accumulated(b, n - 1) + (if (n - 1) % 2 == 1 then b[n - 1] as int else b[n - 1] as int * 256)
  }

  /** ac += (ac >> 16) & 0xffff; ac & 0xffff: the shift keeps the sign, and both masks keep the low sixteen bits. */
  function FoldTag(ac: int): int
  {
    var folded := ac + ToInt32(ac) / 0x1_0000 % 0x1_0000;
    ToInt32(folded) % 0x1_0000
  }

  method KeyTag(rdata: Octets) returns (tag: int)
    ensures tag == FoldTag(Accumulated(rdata, |rdata|))
  {
    var ac := 0;
    for i := 0 to |rdata|
      invariant ac == Accumulated(rdata, i)
    {
      ac := ac + if i % 2 == 1 then rdata[i] as int else rdata[i] as int * 256;
    }
    var folded := ac + ToInt32(ac) / 0x1_0000 % 0x1_0000;
    tag := ToInt32(folded) % 0x1_0000;
  }

  /** The sum of the rdata's sixteen-bit words, an odd last octet counting as a high one. */
  function WordSum(b: Octets): nat
  {
    if b == [] then 0
    else if |b| == 1 then b[0] as int * 256
    else U16(b, 0) + WordSum(b[2..])
  }

  /** RFC 4034 appendix B on exact integers: the carry is added once, the result cut to sixteen bits. */
  function RfcTag(b: Octets): nat
  {
    var s := WordSum(b);
    (s + s / 0x1_0000 % 0x1_0000) % 0x1_0000
  }

  lemma {:induction false} AccumulatedSplits(b: Octets, n: nat)
    requires |b| >= 2 && n <= |b| - 2
    ensures Accumulated(b, n + 2) == U16(b, 0) + Accumulated(b[2..], n)
    decreases n
  {
    if n == 0 {
      assert Accumulated(b, 2) == Accumulated(b, 1) + b[1] as int;
      assert Accumulated(b, 1) == b[0] as int * 256;
    } else {
      AccumulatedSplits(b, n - 1);
      assert b[2..][n - 1] == b[n + 1];
    }
  }

  lemma {:induction false} AccumulatorIsWordSum(b: Octets)
    ensures Accumulated(b, |b|) == WordSum(b)
    decreases |b|
  {
    if |b| == 1 {
      assert Accumulated(b, 1) == b[0] as int * 256;
    } else if |b| >= 2 {
      AccumulatedSplits(b, |b| - 2);
      AccumulatorIsWordSum(b[2..]);
    }
  }

  lemma {:induction false} AccumulatorBound(b: Octets, n: nat)
    requires n <= |b|
    ensures Accumulated(b, n) <= (n + 1) / 2 * 65280 + n / 2 * 255
  {
    if n > 0 { AccumulatorBound(b, n - 1); }
  }

  /** Up to the longest rdata the sum stays below 2^31, even with the carry, so the signed 32-bit steps are exact. */
  lemma {:induction false} KeyTagIsRfc(b: Octets)
    requires |b| <= 65535
    ensures forall n: nat :: n <= |b| ==> Accumulated(b, n) < 0x8000_0000 - 0x8000
    ensures FoldTag(Accumulated(b, |b|)) == RfcTag(b)
  {
    forall n: nat | n <= |b| ensures Accumulated(b, n) < 0x8000_0000 - 0x8000 {
      AccumulatorBound(b, n);
    }
    AccumulatorIsWordSum(b);
    FoldIsExact(WordSum(b));
  }

  lemma FoldIsExact(s: nat)
    requires s < 0x8000_0000 - 0x8000
    ensures FoldTag(s) == (s + s / 0x1_0000 % 0x1_0000) % 0x1_0000
  {
    hide ToInt32;
    var carry := s / 0x1_0000;
    assert carry % 0x1_0000 == carry < 0x8000;
    SmallIsUnchanged(s);
    SmallIsUnchanged(s + carry);
  }

  lemma SmallIsUnchanged(x: int)
    requires 0 <= x < 0x8000_0000
    ensures ToInt32(x) == x
  {
  }
}
