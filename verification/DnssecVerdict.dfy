/** What a DNSSEC signature is checked against, from the octets as sent. */
module DnssecVerdict {
  import opened Bytes
  import opened Text
  import opened WireFormat
  import opened Questions
  import opened Dnssec
  import opened DnssecMessage

  // ---------------------------------------------------------------- the order of the records

  /** The order of RFC 4034 section 6.3: at the first difference the smaller octet, or the end, comes first. */
  ghost predicate Before(x: Octets, y: Octets)
  {
    exists k: nat :: FirstDifference(x, y, k)
  }

  predicate FirstDifference(x: Octets, y: Octets, k: nat)
  {
    k <= |x| && k < |y| && x[..k] == y[..k] && (k == |x| || x[k] < y[k])
  }

  lemma {:induction false} NegativeIsBefore(x: Octets, y: Octets) returns (k: nat)
    requires Compare(x, y) < 0
    ensures FirstDifference(x, y, k)
    decreases |x|
  {
    if x == [] || y == [] || x[0] != y[0] {
      k := 0;
    } else {
      k := NegativeIsBefore(x[1..], y[1..]);
      assert x[..k + 1] == [x[0]] + x[1..][..k] && y[..k + 1] == [y[0]] + y[1..][..k];
      k := k + 1;
    }
  }

  lemma {:induction false} BeforeIsNegative(x: Octets, y: Octets, k: nat)
    requires FirstDifference(x, y, k)
    ensures Compare(x, y) < 0
    decreases k
  {
    if k > 0 {
      assert x[0] == x[..k][0] == y[..k][0] == y[0];
      assert x[1..][..k - 1] == x[..k][1..] && y[1..][..k - 1] == y[..k][1..];
      BeforeIsNegative(x[1..], y[1..], k - 1);
    }
  }

  /** The comparator is negative exactly on rdata that come first, positive exactly on rdata that come later. */
  lemma {:induction false} CompareIsCanonicalOrder(x: Octets, y: Octets)
    ensures Compare(x, y) < 0 <==> Before(x, y)
    ensures Compare(x, y) > 0 <==> Before(y, x)
  {
    CompareAntisymmetric(x, y);
    hide Compare, FirstDifference;
    if Compare(x, y) < 0 { var k := NegativeIsBefore(x, y); }
    if Compare(y, x) < 0 { var k := NegativeIsBefore(y, x); }
    if k :| FirstDifference(x, y, k) { BeforeIsNegative(x, y, k); }
    if k :| FirstDifference(y, x, k) { BeforeIsNegative(y, x, k); }
  }

  ghost predicate InOrder(ws: seq<WireRecord>)
  {
    forall i, j :: 0 <= i < j < |ws| ==> !Before(ws[j].rdata, ws[i].rdata)
  }

  // ---------------------------------------------------------------- RRSIG and DNSKEY as sent

  /** The fields in front of the signer's name (section 3.1 of RFC 4034). */
  datatype Fields = Fields(covered: u16, algorithm: byte, labels: byte, ttl: u32, expiration: u32, inception: u32,
                           tag: u16)

  function FieldsOctets(f: Fields): (r: Octets)
    ensures |r| == 18
  {
    Be16(f.covered) + [f.algorithm] + [f.labels] + Be32(f.ttl) + Be32(f.expiration) + Be32(f.inception) + Be16(f.tag)
  }

  lemma {:induction false} FieldsReadBack(b: Octets, f: Fields)
    requires At(b, 0, FieldsOctets(f))
    ensures |b| >= 18 && b[..18] == FieldsOctets(f)
    ensures U16(b, 0) == f.covered && b[2] == f.algorithm && b[3] == f.labels && U32(b, 4) == f.ttl
    ensures U32(b, 8) == f.expiration && U32(b, 12) == f.inception && U16(b, 16) == f.tag
  {
    hide Be16, Be32, U16, U32;
    var x := FieldsOctets(f);
    assert b[..18] == b[0..18] == x;
    assert b[0..2] == x[0..2] == Be16(f.covered) && b[2] == x[2] && b[3] == x[3];
    assert b[4..8] == x[4..8] == Be32(f.ttl) && b[8..12] == x[8..12] == Be32(f.expiration);
    assert b[12..16] == x[12..16] == Be32(f.inception) && b[16..18] == x[16..18] == Be16(f.tag);
    ReadBe16(b, 0, f.covered);
    ReadBe32(b, 4, f.ttl);
    ReadBe32(b, 8, f.expiration);
    ReadBe32(b, 12, f.inception);
    ReadBe16(b, 16, f.tag);
  }

  function SignatureOctets(f: Fields, signer: seq<Name>, signature: Octets): Octets
    requires WireLabels(signer)
  {
    FieldsOctets(f) + EncodeLabels(signer) + signature
  }

  /** An RRSIG reads back field by field, the signer's name in lower case. */
  lemma {:induction false} RrsigReadsBack(f: Fields, signer: seq<Name>, signature: Octets)
    requires WireLabels(signer)
    ensures var rdata := SignatureOctets(f, signer, signature);
            && RrsigOf(rdata) == Some(Rrsig(f.covered, f.algorithm, f.labels, f.ttl, f.expiration, f.inception, f.tag,
                                            Lower(Join(signer)), signature, rdata))
            && rdata[..18] == FieldsOctets(f)
  {
    var name, rdata := EncodeLabels(signer), SignatureOctets(f, signer, signature);
    assert rdata[0..18] == FieldsOctets(f) && rdata[18..18 + |name|] == name && rdata[18 + |name|..] == signature;
    hide FieldsOctets, EncodeLabels;
    FieldsReadBack(rdata, f);
    UncompressedReadsBack(rdata, 18, signer, 0);
    hide NameEnd, LabelsAt, Join, At, U16, U32;
  }

  /** The key tag of RFC 4034 appendix B: for algorithm 1 the two octets before the last one of the key, where a key of
      two octets lacks the first; for any other the sum of the words of the rdata. */
  predicate HasTag(rdata: Octets, tag: u16)
  {
    && |rdata| >= 4
    && if rdata[3] == 1 then
         && |rdata| >= 6
         && (if |rdata| == 6 then 0 else rdata[|rdata| - 3] as int * 256) + rdata[|rdata| - 2] as int == tag as int
       else RfcTag(rdata) == tag as int
  }

  lemma {:induction false} MatchesIsTag(k: RR, tag: u16)
    requires |k.rdata| <= 65535
    ensures Matches(k, tag) <==> HasTag(k.rdata, tag)
  {
    KeyTagIsRfc(k.rdata);
    hide FoldTag, Accumulated, RfcTag, U16;
  }

  /** The records as the extraction yields them. */
  function AsRRs(ws: seq<WireRecord>): (r: seq<RR>)
    requires AllShort(ws)
    ensures |r| == |ws| && forall i :: 0 <= i < |r| ==> r[i] == AsRR(ws[i])
  {
    seq(|ws|, i requires 0 <= i < |ws| => AsRR(ws[i]))
  }

  predicate AllShort(ws: seq<WireRecord>)
  {
    forall i :: 0 <= i < |ws| ==> |ws[i].rdata| < 0x1_0000
  }

  predicate FirstWithTag(keys: seq<WireRecord>, tag: u16, i: nat)
  {
    i < |keys| && HasTag(keys[i].rdata, tag) && forall j :: 0 <= j < i ==> !HasTag(keys[j].rdata, tag)
  }

  lemma {:induction false} FirstKeyExactly(keys: seq<WireRecord>, tag: u16)
    requires AllShort(keys)
    ensures var k := FirstKey(AsRRs(keys), tag);
            && (k.None? <==> forall i :: 0 <= i < |keys| ==> !HasTag(keys[i].rdata, tag))
            && (k.Some? ==> exists i: nat :: FirstWithTag(keys, tag, i) && k.value == AsRR(keys[i]))
  {
    hide HasTag, Matches, AsRR;
    if keys != [] {
      RdataOf(keys[0]);
      MatchesIsTag(AsRR(keys[0]), tag);
      assert AsRRs(keys)[1..] == AsRRs(keys[1..]);
      FirstKeyExactly(keys[1..], tag);
      var rest := keys[1..];
      assert forall j :: 0 < j < |keys| ==> keys[j] == rest[j - 1];
      if HasTag(keys[0].rdata, tag) {
        assert FirstWithTag(keys, tag, 0);
      } else if FirstKey(AsRRs(rest), tag).Some? {
        var i: nat :| FirstWithTag(rest, tag, i) && FirstKey(AsRRs(rest), tag).value == AsRR(rest[i]);
        assert FirstWithTag(keys, tag, i + 1);
      }
    }
  }

  lemma RdataOf(w: WireRecord)
    requires |w.rdata| < 0x1_0000
    ensures AsRR(w).rdata == w.rdata
  {
  }

  lemma FirstIsUnique(keys: seq<WireRecord>, tag: u16, i: nat, j: nat)
    requires FirstWithTag(keys, tag, i) && FirstWithTag(keys, tag, j)
    ensures i == j
  {
    hide HasTag;
  }

  // ---------------------------------------------------------------- the signed octets

  /** Owners in full on the wire, without a dot inside a label. */
  predicate AllPlain(ws: seq<WireRecord>)
  {
    AllShort(ws) && forall i :: 0 <= i < |ws| ==> WireLabels(ws[i].labels) && Dotless(ws[i].labels)
  }

  /** The answers a signature covers: its owner up to letter case, and the type it names. */
  function CoveredBy(owner: Name, rtype: u16, ws: seq<WireRecord>): (r: seq<WireRecord>)
    ensures AllShort(ws) ==> AllShort(r)
    ensures AllPlain(ws) ==> AllPlain(r)
  {
    if ws == [] then []
    else
      (if SameButCase(Join(ws[0].labels), owner) && ws[0].rtype == rtype then [ws[0]] else [])
      + CoveredBy(owner, rtype, ws[1..])
  }

  lemma {:induction false} CoveredByIsCovered(owner: Name, rtype: u16, ws: seq<WireRecord>)
    requires AllShort(ws)
    ensures Covered(AsRRs(ws), Lower(owner), rtype) == AsRRs(CoveredBy(owner, rtype, ws))
  {
    hide Join, SameButCase, WireLabels, Dotless, Lower;
    if ws != [] {
      var rest := ws[1..];
      LowerExactly(Join(ws[0].labels), owner);
      assert ws == [ws[0]] + rest && AllShort(rest);
      assert AsRR(ws[0]).rtype == ws[0].rtype && AsRR(ws[0]).name == Lower(Join(ws[0].labels));
      CoveredByIsCovered(owner, rtype, rest);
      ConsRRs(ws[0], rest);
      ConsRRs(ws[0], CoveredBy(owner, rtype, rest));
      assert AsRRs(ws)[1..] == AsRRs(rest);
      hide AsRRs, AsRR, AllShort, AllPlain;
    }
  }

  /** A record as section 3.1.8.1 of RFC 4034 signs it, one after the other. */
  function SignedForms(ws: seq<WireRecord>, ttl: u32): Octets
    requires AllPlain(ws)
  {
    if ws == [] then [] else SignedForm(ws[0], ttl) + SignedForms(ws[1..], ttl)
  }

  /** The encoder's buffer has room for every owner. */
  predicate AllFit(ws: seq<WireRecord>)
    requires AllPlain(ws)
  {
    forall i :: 0 <= i < |ws| ==> |EncodeLabels(LowerAll(ws[i].labels))| <= 4096
  }

  lemma {:induction false} OwnersFit(ws: seq<WireRecord>)
    requires AllPlain(ws)
    ensures AllOwnersEncode(AsRRs(ws)) <==> AllFit(ws)
  {
    hide Canonical, EncodeLabels;
    forall i | 0 <= i < |ws|
      ensures Canonical(AsRRs(ws)[i].name) <==> |EncodeLabels(LowerAll(ws[i].labels))| <= 4096
    {
      OwnerFits(ws[i].labels);
    }
  }

  lemma OwnerFits(labels: seq<Name>)
    requires WireLabels(labels) && Dotless(labels)
    ensures Canonical(Lower(Join(labels))) <==> |EncodeLabels(LowerAll(labels))| <= 4096
  {
    CanonicalOwner(labels);
    hide EncodeLabels, Encodable, EncodeName, Join;
  }

  lemma {:induction false} PiecesAreSigned(ws: seq<WireRecord>, ttl: u32)
    requires AllPlain(ws) && AllOwnersEncode(AsRRs(ws))
    ensures Pieces(AsRRs(ws), ttl) == SignedForms(ws, ttl)
  {
    hide Canonical, Piece, SignedForm;
    if ws != [] {
      assert AsRRs(ws)[1..] == AsRRs(ws[1..]) && AsRRs(ws)[0] == AsRR(ws[0]);
      PieceIsSigned(ws[0], ttl);
      PiecesAreSigned(ws[1..], ttl);
    }
  }

  lemma PieceIsSigned(w: WireRecord, ttl: u32)
    requires WireLabels(w.labels) && Dotless(w.labels) && |w.rdata| < 0x1_0000 && Canonical(AsRR(w).name)
    ensures Piece(AsRR(w), ttl) == SignedForm(w, ttl)
  {
    CanonicalOwner(w.labels);
    hide EncodeName, EncodeLabels, Join;
  }

  /** The same records in canonical order, those with equal rdata in the order they came. */
  ghost predicate IsSortedForm(sorted: seq<WireRecord>, ws: seq<WireRecord>)
    requires AllShort(sorted) && AllShort(ws)
  {
    InOrder(sorted) && forall x :: Ties(AsRRs(sorted), x) == Ties(AsRRs(ws), x)
  }

  lemma {:induction false} SortIsSortedForm(sorted: seq<WireRecord>, ws: seq<WireRecord>)
    requires AllShort(sorted) && AllShort(ws) && IsSortedForm(sorted, ws)
    ensures Sort(AsRRs(ws)) == AsRRs(sorted) && |sorted| == |ws|
  {
    hide Compare, Sort, Ties, AsRR, Before;
    var rs, qs := AsRRs(ws), AsRRs(sorted);
    SortIsSorted(rs);
    forall i, j | 0 <= i < j < |qs| ensures Compare(qs[i].rdata, qs[j].rdata) <= 0 {
      RdataOf(sorted[i]);
      RdataOf(sorted[j]);
      CompareIsCanonicalOrder(qs[i].rdata, qs[j].rdata);
    }
    forall x ensures Ties(Sort(rs), x) == Ties(qs, x) { SortIsStable(rs, x); }
    StableSortIsUnique(Sort(rs), qs);
  }

  /** What the primitive is given to verify (section 3.1.8.1 of RFC 4034): the fields and the signer in canonical form,
      then the covered records in canonical form and order under the original TTL. */
  function SignedData(f: Fields, signer: seq<Name>, sorted: seq<WireRecord>): Octets
    requires WireLabels(signer) && AllPlain(sorted)
  {
    FieldsOctets(f) + EncodeLabels(LowerAll(signer)) + SignedForms(sorted, f.ttl)
  }

  lemma {:induction false} PayloadIsSignedData(f: Fields, signer: seq<Name>, ws: seq<WireRecord>,
                                               sorted: seq<WireRecord>)
    requires WireLabels(signer) && Dotless(signer) && AllPlain(ws) && AllPlain(sorted) && IsSortedForm(sorted, ws)
    requires Canonical(Lower(Join(signer))) && AllOwnersEncode(AsRRs(ws))
    ensures Payload(FieldsOctets(f), Lower(Join(signer)), AsRRs(ws), f.ttl) == SignedData(f, signer, sorted)
  {
    hide Canonical, FieldsOctets, EncodeLabels, EncodeName, AsRRs, IsSortedForm, Pieces, SignedForms, Join, Dotless;
    SortIsSortedForm(sorted, ws);
    OwnersOfSorted(AsRRs(ws));
    PiecesAreSigned(sorted, f.ttl);
    CanonicalOwner(signer);
  }

  // ---------------------------------------------------------------- the verdict

  /** RSA keys of any length, P-256 keys of 64 octets behind the four fixed ones, and no other algorithm. */
  predicate Supported(algorithm: byte, key: Octets)
  {
    algorithm == 8 || (algorithm == 13 && |key| == 68)
  }

  ghost predicate SomeKey(keys: seq<WireRecord>, tag: u16)
  {
    exists i :: 0 <= i < |keys| && HasTag(keys[i].rdata, tag)
  }

  predicate NamesFit(signer: seq<Name>, sorted: seq<WireRecord>)
    requires WireLabels(signer) && AllPlain(sorted)
  {
    |EncodeLabels(LowerAll(signer))| <= 4096 && AllFit(sorted)
  }

  /** The first key with the tag is of a supported kind, and the primitive accepts the signed data under it. */
  ghost predicate KeyAccepts(f: Fields, signer: seq<Name>, signature: Octets, sorted: seq<WireRecord>,
                             keys: seq<WireRecord>, verify: Verifier)
    requires WireLabels(signer) && AllPlain(sorted)
  {
    exists i: nat :: FirstWithTag(keys, f.tag, i) && Accepts(f, signer, signature, sorted, keys[i].rdata, verify)
  }

  predicate Accepts(f: Fields, signer: seq<Name>, signature: Octets, sorted: seq<WireRecord>, key: Octets,
                    verify: Verifier)
    requires WireLabels(signer) && AllPlain(sorted)
  {
    && |key| >= 4 && Supported(f.algorithm, key)
    && verify(f.algorithm, key[4..], SignedData(f, signer, sorted), signature)
  }

  lemma {:induction false} JudgeExactly(f: Fields, signer: seq<Name>, signature: Octets, ws: seq<WireRecord>,
                                        sorted: seq<WireRecord>, key: Octets, now: int, verify: Verifier)
    requires WireLabels(signer) && Dotless(signer) && AllPlain(ws) && AllPlain(sorted) && IsSortedForm(sorted, ws)
    requires |key| >= 4 && RrsigOf(SignatureOctets(f, signer, signature)).Some? && DnskeyOf(key).Some?
    ensures var s := RrsigOf(SignatureOctets(f, signer, signature)).value;
            && |s.rawRdata| >= 18
            && var v := Judge(s, AsRRs(ws), DnskeyOf(key).value, now, verify);
               && v != Skipped
               && (v == Valid <==> && f.inception as int <= now <= f.expiration as int && NamesFit(signer, sorted)
                                   && Accepts(f, signer, signature, sorted, key, verify))
               && (v == Thrown <==> f.inception as int <= now <= f.expiration as int && !NamesFit(signer, sorted))
  {
    RrsigReadsBack(f, signer, signature);
    OwnerFits(signer);
    OwnersFit(ws);
    SameOwners(sorted, ws);
    if Canonical(Lower(Join(signer))) && AllOwnersEncode(AsRRs(ws)) { PayloadIsSignedData(f, signer, ws, sorted); }
    hide RrsigOf, Canonical, AllOwnersEncode, Payload, SignedData, IsSortedForm, AllPlain, AllFit, AsRRs, EncodeLabels;
    hide SignatureOctets, FieldsOctets, Join, WireLabels, Dotless, LowerAll;
  }

  lemma {:induction false} SameOwners(sorted: seq<WireRecord>, ws: seq<WireRecord>)
    requires AllPlain(ws) && AllPlain(sorted) && IsSortedForm(sorted, ws)
    ensures AllFit(sorted) <==> AllFit(ws)
  {
    hide AllFit, IsSortedForm, AsRRs, AllOwnersEncode;
    SortIsSortedForm(sorted, ws);
    OwnersOfSorted(AsRRs(ws));
    OwnersFit(sorted);
    OwnersFit(ws);
  }

  /** What becomes of a signature. It is skipped exactly when it covers no answer or no key has its tag; it is valid
      exactly when it covers some, the time lies in its window, the names fit the encoder, and the primitive accepts the
      signed data of RFC 4034 under the first key with the tag, of a supported kind; there is an exception exactly when
      it is not skipped, the time lies in the window and some name does not fit. */
  lemma {:induction false} VerdictExactly(
    sig: WireRecord, f: Fields, signer: seq<Name>, signature: Octets, answers: seq<WireRecord>,
    sorted: seq<WireRecord>, keys: seq<WireRecord>, now: int, verify: Verifier)
    requires WireLabels(signer) && Dotless(signer) && AllPlain(answers) && AllPlain(sorted) && AllShort(keys)
    requires |sig.rdata| < 0x1_0000 && sig.rdata == SignatureOctets(f, signer, signature)
    requires IsSortedForm(sorted, CoveredBy(Join(sig.labels), f.covered, answers))
    ensures var v := VerdictOn(AsRR(sig), AsRRs(answers), AsRRs(keys), now, verify);
            && (v == Skipped <==> sorted == [] || !SomeKey(keys, f.tag))
            && (v == Valid <==> && sorted != [] && f.inception as int <= now <= f.expiration as int
                                && NamesFit(signer, sorted)
                                && KeyAccepts(f, signer, signature, sorted, keys, verify))
            && (v == Thrown <==> && sorted != [] && SomeKey(keys, f.tag)
                                 && f.inception as int <= now <= f.expiration as int && !NamesFit(signer, sorted))
  {
    var ws := CoveredBy(Join(sig.labels), f.covered, answers);
    RrsigReadsBack(f, signer, signature);
    CoveredByIsCovered(Join(sig.labels), f.covered, answers);
    SortIsSortedForm(sorted, ws);
    FirstKeyExactly(keys, f.tag);
    assert sig.rdata == AsRR(sig).rdata && AsRR(sig).name == Lower(Join(sig.labels));
    var k := FirstKey(AsRRs(keys), f.tag);
    if k.Some? {
      var i: nat :| FirstWithTag(keys, f.tag, i) && k.value == AsRR(keys[i]);
      FirstHasFour(keys, f.tag, i);
      RdataOf(keys[i]);
      assert DnskeyOf(keys[i].rdata).Some?;
      JudgeExactly(f, signer, signature, ws, sorted, keys[i].rdata, now, verify);
      OnlyFirstAccepts(f, signer, signature, sorted, keys, i, verify);
    } else {
      NoneAccepts(f, signer, signature, sorted, keys, verify);
    }
    hide RrsigOf, DnskeyOf, Judge, Covered, FirstKey, IsSortedForm, AsRRs, AsRR, SignatureOctets, NamesFit, KeyAccepts;
    hide Accepts, AllPlain, AllShort, FirstWithTag, HasTag, CoveredBy, Join, WireLabels, Dotless, Sort;
  }

  lemma FirstHasFour(keys: seq<WireRecord>, tag: u16, i: nat)
    requires FirstWithTag(keys, tag, i)
    ensures |keys[i].rdata| >= 4 && SomeKey(keys, tag)
  {
  }

  lemma OnlyFirstAccepts(f: Fields, signer: seq<Name>, signature: Octets, sorted: seq<WireRecord>,
                         keys: seq<WireRecord>, i: nat, verify: Verifier)
    requires WireLabels(signer) && AllPlain(sorted) && FirstWithTag(keys, f.tag, i)
    ensures KeyAccepts(f, signer, signature, sorted, keys, verify)
       <==> Accepts(f, signer, signature, sorted, keys[i].rdata, verify)
  {
    hide Accepts, HasTag;
  }

  lemma NoneAccepts(f: Fields, signer: seq<Name>, signature: Octets, sorted: seq<WireRecord>,
                    keys: seq<WireRecord>, verify: Verifier)
    requires WireLabels(signer) && AllPlain(sorted) && !SomeKey(keys, f.tag)
    ensures !KeyAccepts(f, signer, signature, sorted, keys, verify)
  {
    hide Accepts, HasTag;
  }

  // ---------------------------------------------------------------- the whole response

  ghost predicate FirstFailure(sigs: seq<RR>, answers: seq<RR>, keys: seq<RR>, now: int, verify: Verifier, i: nat)
  {
    && i < |sigs|
    && VerdictOn(sigs[i], answers, keys, now, verify) in {Invalid, Thrown}
    && forall j :: 0 <= j < i ==> VerdictOn(sigs[j], answers, keys, now, verify) in {Skipped, Valid}
  }

  /** The first signature that fails decides how: an invalid one rejects, an exception is passed on. */
  lemma {:induction false} FirstFailureDecides(
    sigs: seq<RR>, answers: seq<RR>, keys: seq<RR>, now: int, verify: Verifier, i: nat)
    requires FirstFailure(sigs, answers, keys, now, verify, i)
    ensures OutcomeOf(sigs, answers, keys, now, verify)
         == if VerdictOn(sigs[i], answers, keys, now, verify) == Invalid then Some(false) else None
    decreases i
  {
    hide VerdictOn;
    if i > 0 {
      var rest := sigs[1..];
      assert forall j :: 0 <= j < i ==> rest[j] == sigs[j + 1];
      assert VerdictOn(sigs[0], answers, keys, now, verify) in {Skipped, Valid};
      FirstFailureDecides(rest, answers, keys, now, verify, i - 1);
    }
  }

  function Typed(ws: seq<WireRecord>, rtype: u16): (r: seq<WireRecord>)
    ensures AllShort(ws) ==> AllShort(r)
    ensures forall w :: w in r <==> w in ws && w.rtype == rtype
  {
    if ws == [] then [] else (if ws[0].rtype == rtype then [ws[0]] else []) + Typed(ws[1..], rtype)
  }

  lemma {:induction false} OfTypeIsTyped(ws: seq<WireRecord>, rtype: u16)
    requires AllShort(ws)
    ensures OfType(AsRRs(ws), rtype) == AsRRs(Typed(ws, rtype))
  {
    if ws != [] {
      var rest := ws[1..];
      assert ws == [ws[0]] + rest && AllShort(rest) && AsRR(ws[0]).rtype == ws[0].rtype;
      var more := Typed(rest, rtype);
      OfTypeIsTyped(rest, rtype);
      ConsRRs(ws[0], rest);
      ConsRRs(ws[0], more);
      assert AsRRs(ws)[1..] == AsRRs(rest);
      hide AsRRs, AsRR, AllShort;
    }
  }

  lemma ConsRRs(w: WireRecord, rest: seq<WireRecord>)
    requires |w.rdata| < 0x1_0000 && AllShort(rest)
    ensures AllShort([w] + rest) && AsRRs([w] + rest) == [AsRR(w)] + AsRRs(rest)
  {
    hide AsRR;
  }

  lemma FoundIsShort(rs: seq<ParsedRecord>, ws: seq<WireRecord>)
    requires Found(rs, ws)
    ensures AllShort(ws) && RRs(rs) == AsRRs(ws)
  {
    hide AsRR;
  }

  lemma AsRRsAppend(a: seq<WireRecord>, b: seq<WireRecord>)
    requires AllShort(a) && AllShort(b)
    ensures AllShort(a + b) && AsRRs(a + b) == AsRRs(a) + AsRRs(b)
  {
    hide AsRR;
  }

  lemma {:induction false} FoundIsJudged(s: Sections, answers: seq<WireRecord>, authorities: seq<WireRecord>,
                                         additionals: seq<WireRecord>, now: int, verify: Verifier)
    requires Found(s.answers, answers) && Found(s.authorities, authorities) && Found(s.additionals, additionals)
    ensures var all := answers + authorities + additionals;
            && AllShort(all) && AllShort(answers)
            && ResponseOutcome(RRs(s.answers), RRs(s.authorities) + RRs(s.additionals), now, verify)
            == OutcomeOf(AsRRs(Typed(all, 46)), AsRRs(answers), AsRRs(Typed(all, 48)), now, verify)
  {
    hide *;
    var all, more := answers + authorities + additionals, authorities + additionals;
    FoundIsShort(s.answers, answers);
    FoundIsShort(s.authorities, authorities);
    FoundIsShort(s.additionals, additionals);
    AsRRsAppend(authorities, additionals);
    AsRRsAppend(answers, more);
    assert all == answers + more;
    OfTypeIsTyped(all, 46);
    OfTypeIsTyped(all, 48);
    ResponseIs(AsRRs(answers), AsRRs(more), now, verify);
  }

  /** What a whole response comes to, records in full or with compressed owners behind any question section: the
      signatures are the records of type 46 of all three sections, the keys those of type 48, and what the signatures
      cover is found among the answers. */
  lemma {:induction false} ResponseIsJudged(
    b: Octets, qs: seq<WireQuestion>, answers: seq<WireRecord>, ptrs: seq<nat>, authorities: seq<WireRecord>,
    ptrs2: seq<nat>, additionals: seq<WireRecord>, ptrs3: seq<nat>, now: int, verify: Verifier)
    requires LaidOut(b, qs, answers, ptrs, authorities, ptrs2, additionals, ptrs3)
    ensures var all, s := answers + authorities + additionals, SectionsOf(b);
            && AllShort(all) && AllShort(answers)
            && ResponseOutcome(RRs(s.answers), RRs(s.authorities) + RRs(s.additionals), now, verify)
            == OutcomeOf(AsRRs(Typed(all, 46)), AsRRs(answers), AsRRs(Typed(all, 48)), now, verify)
  {
    hide *;
    LaidIsLong(b, qs, answers, ptrs, authorities, ptrs2, additionals, ptrs3);
    LaidOutReadsBack(b, qs, answers, ptrs, authorities, ptrs2, additionals, ptrs3);
    FoundIsJudged(SectionsOf(b), answers, authorities, additionals, now, verify);
  }

  lemma LaidIsLong(b: Octets, qs: seq<WireQuestion>, answers: seq<WireRecord>, ptrs: seq<nat>,
                   authorities: seq<WireRecord>, ptrs2: seq<nat>, additionals: seq<WireRecord>, ptrs3: seq<nat>)
    requires LaidOut(b, qs, answers, ptrs, authorities, ptrs2, additionals, ptrs3)
    ensures |b| >= 12
  {
  }

  lemma ResponseIs(answers: seq<RR>, others: seq<RR>, now: int, verify: Verifier)
    ensures ResponseOutcome(answers, others, now, verify)
         == OutcomeOf(OfType(answers + others, 46), answers, OfType(answers + others, 48), now, verify)
  {
  }
}
