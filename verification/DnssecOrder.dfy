/** When the acceptance of a response depends on the order of its records. */
module DnssecOrder {
  import opened Bytes
  import opened Text
  import opened WireFormat
  import opened Dnssec
  import opened DnssecMessage

  predicate Accepted(sigs: seq<RR>, answers: seq<RR>, keys: seq<RR>, now: int, verify: Verifier)
  {
    OutcomeOf(sigs, answers, keys, now, verify) == Some(true)
  }

  /** Every order of the signatures, the answers and the keys leads to the same acceptance, whatever the primitive
      accepts. */
  ghost predicate AcceptanceFree(sigs: seq<RR>, a: seq<RR>, keys: seq<RR>, now: int)
  {
    forall sigsB: seq<RR>, b: seq<RR>, keysB: seq<RR>, verify: Verifier
      | multiset(sigsB) == multiset(sigs) && multiset(b) == multiset(a) && multiset(keysB) == multiset(keys)
      :: Accepted(sigsB, b, keysB, now, verify) == Accepted(sigs, a, keys, now, verify)
  }

  ghost predicate AllSettled(sigs: seq<RR>, a: seq<RR>, keys: seq<RR>, now: int)
  {
    forall sig :: sig in sigs ==> Settled(sig, a, keys, now)
  }

  predicate HasKey(keys: seq<RR>, tag: u16)
  {
    exists i :: 0 <= i < |keys| && Matches(keys[i], tag)
  }

  /** The signature covers records and has a key, but nothing reaches the primitive: it is outside its validity window,
      a name cannot be written, the algorithm is unknown, or no ECDSA key with its tag has the right length. */
  predicate Doomed(sig: RR, a: seq<RR>, keys: seq<RR>, now: int)
  {
    match RrsigOf(sig.rdata)
    case None => false
    case Some(s) =>
      Covered(a, sig.name, s.typeCovered) != [] && HasKey(keys, s.keyTag) && !Decisive(sig, a, keys, now)
  }

  // ---------------------------------------------------------------- settled or doomed

  lemma {:induction false} DoomedFails(
    sig: RR, a: seq<RR>, b: seq<RR>, keys: seq<RR>, keysB: seq<RR>, now: int, verify: Verifier)
    requires multiset(a) == multiset(b) && multiset(keys) == multiset(keysB) && Doomed(sig, a, keys, now)
    ensures VerdictOn(sig, b, keysB, now, verify) in {Invalid, Thrown}
  {
    var s := RrsigOf(sig.rdata).value;
    hide Canonical, AllOwnersEncode, Covered, TagOf, Payload, FirstKey;
    if Checkable(sig, a, now) {
      CheckableSurvives(sig, a, b, now);
      VerdictOfCheckable(sig, b, keysB, now, verify);
      MatchSurvives(keys, keysB, s.keyTag);
      FirstKeyMatches(keys, s.keyTag);
      hide Checkable, VerdictOn, KeyFor;
      assert FirstKey(keysB, s.keyTag).Some?;
    } else {
      UncheckableIgnoresOrder(sig, a, b, keys, keysB, now, verify);
      FirstKeyMatches(keys, s.keyTag);
    }
  }

  lemma {:induction false} SettledIsFree(sigs: seq<RR>, a: seq<RR>, keys: seq<RR>, now: int)
    requires AllSettled(sigs, a, keys, now)
    ensures AcceptanceFree(sigs, a, keys, now)
  {
    hide Settled, VerdictOn, OutcomeOf;
    forall sigsB: seq<RR>, b: seq<RR>, keysB: seq<RR>, verify: Verifier
      | multiset(sigsB) == multiset(sigs) && multiset(b) == multiset(a) && multiset(keysB) == multiset(keys)
      ensures Accepted(sigsB, b, keysB, now, verify) == Accepted(sigs, a, keys, now, verify)
    {
      forall sig | sig in sigs ensures VerdictOn(sig, a, keys, now, verify) == VerdictOn(sig, b, keysB, now, verify) {
        SettledIgnoresOrder(sig, a, b, keys, keysB, now, verify);
      }
      SameElements(sigs, sigsB);
      AcceptedUnlessOneFails(sigs, a, keys, now, verify);
      AcceptedUnlessOneFails(sigsB, b, keysB, now, verify);
    }
  }

  lemma SameElements(a: seq<RR>, b: seq<RR>)
    requires multiset(a) == multiset(b)
    ensures forall x :: x in a <==> x in b
  {
    assert forall x :: x in a <==> x in multiset(a);
    assert forall x :: x in b <==> x in multiset(b);
  }

  lemma {:induction false} DoomedIsRefused(
    sigs: seq<RR>, sig: RR, a: seq<RR>, b: seq<RR>, keys: seq<RR>, keysB: seq<RR>, now: int, verify: Verifier)
    requires sig in sigs && Doomed(sig, a, keys, now)
    requires multiset(a) == multiset(b) && multiset(keys) == multiset(keysB)
    ensures !Accepted(sigs, b, keysB, now, verify)
  {
    hide Doomed, VerdictOn, OutcomeOf;
    DoomedFails(sig, a, b, keys, keysB, now, verify);
    AcceptedUnlessOneFails(sigs, b, keysB, now, verify);
  }

  lemma {:induction false} DoomedIsFree(sigs: seq<RR>, sig: RR, a: seq<RR>, keys: seq<RR>, now: int)
    requires sig in sigs && Doomed(sig, a, keys, now)
    ensures AcceptanceFree(sigs, a, keys, now)
  {
    hide Doomed, Accepted;
    forall sigsB: seq<RR>, b: seq<RR>, keysB: seq<RR>, verify: Verifier
      | multiset(sigsB) == multiset(sigs) && multiset(b) == multiset(a) && multiset(keysB) == multiset(keys)
      ensures Accepted(sigsB, b, keysB, now, verify) == Accepted(sigs, a, keys, now, verify)
    {
      SameElements(sigs, sigsB);
      DoomedIsRefused(sigs, sig, a, a, keys, keys, now, verify);
      DoomedIsRefused(sigsB, sig, a, b, keys, keysB, now, verify);
    }
  }

  // ---------------------------------------------------------------- an order in which all others pass

  /** The keys with 64 octets of key material, or the others. */
  function Sized(keys: seq<RR>, long: bool): (r: seq<RR>)
    ensures forall k :: k in r ==> k in keys && (|k.rdata| == 68 <==> long)
  {
    if keys == [] then []
    else (if (|keys[0].rdata| == 68) == long then [keys[0]] else []) + Sized(keys[1..], long)
  }

  /** The keys in an order that suits every algorithm. */
  function Preferred(keys: seq<RR>): seq<RR>
  {
    Sized(keys, true) + Sized(keys, false)
  }

  lemma {:induction false} SizedCounts(keys: seq<RR>)
    ensures multiset(Sized(keys, true)) + multiset(Sized(keys, false)) == multiset(keys)
  {
    if keys != [] {
      SizedCounts(keys[1..]);
      assert keys == [keys[0]] + keys[1..];
    }
  }

  lemma PreferredIsPermutation(keys: seq<RR>)
    ensures multiset(Preferred(keys)) == multiset(keys)
  {
    SizedCounts(keys);
  }

  lemma {:induction false} FirstOfTwo(x: seq<RR>, y: seq<RR>, tag: u16)
    ensures FirstKey(x + y, tag) == if FirstKey(x, tag).Some? then FirstKey(x, tag) else FirstKey(y, tag)
  {
    hide Matches;
    if x == [] {
      assert x + y == y;
    } else {
      assert (x + y)[1..] == x[1..] + y && (x + y)[0] == x[0];
      FirstOfTwo(x[1..], y, tag);
    }
  }

  lemma {:induction false} PreferredKey(keys: seq<RR>, algorithm: byte, tag: u16)
    requires exists i :: 0 <= i < |keys| && Matches(keys[i], tag) && KeyFor(algorithm, keys[i]).Some?
    ensures var k := FirstKey(Preferred(keys), tag);
            && k.Some? && k.value in keys && Matches(k.value, tag) && KeyFor(algorithm, k.value).Some?
  {
    var i :| 0 <= i < |keys| && Matches(keys[i], tag) && KeyFor(algorithm, keys[i]).Some?;
    var x, y := Sized(keys, true), Sized(keys, false);
    hide TagOf, FirstKey, Sized;
    FirstOfTwo(x, y, tag);
    FirstKeyMatches(x, tag);
    FirstKeyMatches(y, tag);
    PreferredIsPermutation(keys);
    SameElements(keys, x + y);
    assert keys[i] in keys && keys[i] in x + y;
    assert keys[i] in x || keys[i] in y;
  }

  /** What the signature primitive is asked. */
  datatype Request = Request(algorithm: byte, key: Octets, payload: Octets, signature: Octets)

  ghost function RequestOf(sig: RR, a: seq<RR>, keys: seq<RR>, now: int): Option<Request>
  {
    if !Checkable(sig, a, now) then None
    else
      var s := RrsigOf(sig.rdata).value;
      var key := FirstKey(keys, s.keyTag);
      if key.None? || |key.value.rdata| < 4 || KeyFor(s.algorithm, key.value).None? then None
      else Some(Request(s.algorithm, KeyFor(s.algorithm, key.value).value, SignedBy(sig, a, now), s.signature))
  }

  ghost function SignedBy(sig: RR, a: seq<RR>, now: int): Octets
    requires Checkable(sig, a, now)
  {
    var s := RrsigOf(sig.rdata).value;
    Payload(s.rawRdata[..18], s.signerName, Covered(a, sig.name, s.typeCovered), s.originalTtl)
  }

  predicate Grants(verify: Verifier, r: Request)
  {
    verify(r.algorithm, r.key, r.payload, r.signature)
  }

  lemma {:induction false} VerdictOfRequest(sig: RR, a: seq<RR>, keys: seq<RR>, now: int, verify: Verifier)
    requires RequestOf(sig, a, keys, now).Some?
    ensures VerdictOn(sig, a, keys, now, verify)
         == if Grants(verify, RequestOf(sig, a, keys, now).value) then Valid else Invalid
  {
    VerdictOfCheckable(sig, a, keys, now, verify);
    hide Checkable, Covered, FirstKey, VerdictOn, Payload;
  }

  lemma {:induction false} SkippedOrAsked(sig: RR, a: seq<RR>, keys: seq<RR>, now: int, verify: Verifier)
    requires !Doomed(sig, a, keys, now)
    ensures || VerdictOn(sig, a, Preferred(keys), now, verify) == Skipped
            || RequestOf(sig, a, Preferred(keys), now).Some?
  {
    hide Canonical, AllOwnersEncode, Covered, TagOf, Payload, FirstKey, Preferred;
    if Decisive(sig, a, keys, now) {
      var s := RrsigOf(sig.rdata).value;
      PreferredKey(keys, s.algorithm, s.keyTag);
    } else if |sig.rdata| >= 18 {
      var s := RrsigOf(sig.rdata).value;
      PreferredIsPermutation(keys);
      SameElements(keys, Preferred(keys));
      FirstKeyMatches(Preferred(keys), s.keyTag);
    }
  }

  /** The primitive that accepts just what is asked in this order. */
  ghost function Accepting(sigs: seq<RR>, a: seq<RR>, keys: seq<RR>, now: int): Verifier
  {
    (algorithm: byte, key: Octets, payload: Octets, signature: Octets) =>
      Asked(sigs, a, keys, now, Request(algorithm, key, payload, signature))
  }

  ghost predicate Asked(sigs: seq<RR>, a: seq<RR>, keys: seq<RR>, now: int, r: Request)
  {
    exists t :: t in sigs && RequestOf(t, a, keys, now) == Some(r)
  }

  lemma {:induction false} AllPass(sigs: seq<RR>, a: seq<RR>, keys: seq<RR>, now: int)
    requires forall sig :: sig in sigs ==> !Doomed(sig, a, keys, now)
    ensures Accepted(sigs, a, Preferred(keys), now, Accepting(sigs, a, Preferred(keys), now))
  {
    hide Doomed, VerdictOn, RequestOf, OutcomeOf, Preferred;
    var first := Preferred(keys);
    var verify := Accepting(sigs, a, first, now);
    forall sig | sig in sigs ensures VerdictOn(sig, a, first, now, verify) in {Skipped, Valid} {
      SkippedOrAsked(sig, a, keys, now, verify);
      if RequestOf(sig, a, first, now).Some? {
        var r := RequestOf(sig, a, first, now).value;
        VerdictOfRequest(sig, a, first, now, verify);
        assert Asked(sigs, a, first, now, r);
      }
    }
    AcceptedUnlessOneFails(sigs, a, first, now, verify);
  }

  // ---------------------------------------------------------------- what a payload tells

  /** Encoded names mark their own end. */
  lemma {:induction false} NamesEndThemselves(x: seq<Name>, y: seq<Name>, r: Octets, t: Octets)
    requires LabelsFit(x, 255) && LabelsFit(y, 255)
    requires (forall i :: 0 <= i < |x| ==> x[i] != []) && (forall i :: 0 <= i < |y| ==> y[i] != [])
    requires EncodeLabels(x) + r == EncodeLabels(y) + t
    ensures x == y && r == t
    decreases |x|
  {
    EncodedHead(x, r);
    EncodedHead(y, t);
    if x != [] {
      var n := |x[0]|;
      assert (EncodeLabels(x) + r)[1..1 + n] == (EncodeLabels(y) + t)[1..1 + n];
      NamesEndThemselves(x[1..], y[1..], r, t);
      assert x == [x[0]] + x[1..] && y == [y[0]] + y[1..];
    }
  }

  lemma EncodedHead(x: seq<Name>, r: Octets)
    requires LabelsFit(x, 255)
    ensures var b := EncodeLabels(x) + r;
            && (x == [] ==> b[0] == 0 && b[1..] == r)
            && (x != [] ==>
                  && b[0] == |x[0]| && 1 + |x[0]| <= |b| && b[1..1 + |x[0]|] == x[0]
                  && b[1 + |x[0]|..] == EncodeLabels(x[1..]) + r)
  {
    if x != [] {
      var tail := EncodeLabels(x[1..]);
      assert EncodeLabels(x) == [|x[0]|] + x[0] + tail;
      hide *;
      PartsOf(|x[0]|, x[0], tail, r);
    }
  }

  lemma PartsOf(n: byte, piece: Name, tail: Octets, r: Octets)
    requires n == |piece|
    ensures var b := [n] + piece + tail + r; b[0] == n && b[1..1 + n] == piece && b[1 + n..] == tail + r
  {
  }

  lemma EncodedNamesEndThemselves(x: Name, y: Name, r: Octets, t: Octets)
    requires Encodable(x) && Encodable(y) && EncodeName(x) + r == EncodeName(y) + t
    ensures EncodeName(x) == EncodeName(y) && r == t
  {
    hide Split, Lower, EncodeLabels;
    NamesEndThemselves(Written(x), Written(y), r, t);
  }

  /** The payload's parts, for records of one owner. */
  lemma PayloadParts(prefix: Octets, signer: Name, rs: seq<RR>, ttl: u32, owner: Name) returns (rest: Octets)
    requires |prefix| == 18 && Canonical(signer) && AllOwnersEncode(rs) && rs != []
    requires forall r :: r in rs ==> r.name == owner
    ensures Canonical(owner)
    ensures Payload(prefix, signer, rs, ttl)[..18] == prefix
    ensures |Payload(prefix, signer, rs, ttl)| >= 18
    ensures Payload(prefix, signer, rs, ttl)[18..] == EncodeName(signer) + (EncodeName(owner) + rest)
  {
    SortKeepsOwners(rs);
    SortIsSorted(rs);
    var sorted := Sort(rs);
    assert sorted[0] in multiset(sorted) && sorted[0] in rs;
    hide Canonical, Sort, EncodeName;
    rest := FirstPiece(sorted, ttl);
    hide Pieces;
    var tail := EncodeName(signer) + Pieces(sorted, ttl);
    assert Payload(prefix, signer, rs, ttl) == prefix + tail;
    hide Payload;
    assert (prefix + tail)[..18] == prefix && (prefix + tail)[18..] == tail;
  }

  lemma FirstPiece(rs: seq<RR>, ttl: u32) returns (rest: Octets)
    requires AllOwnersEncode(rs) && rs != []
    ensures Pieces(rs, ttl) == EncodeName(rs[0].name) + rest
  {
    var r := rs[0];
    var owner := EncodeName(r.name);
    hide Canonical, EncodeName;
    var fields := Be16(r.rtype) + Be16(r.dclass) + Be32(ttl) + Be16(r.rdlength);
    var more := Pieces(rs[1..], ttl);
    assert Pieces(rs, ttl) == owner + fields + r.rdata + more;
    rest := fields + r.rdata + more;
    hide *;
    assert owner + fields + r.rdata + more == owner + (fields + r.rdata + more);
  }

  lemma CoveredParts(sig: RR, a: seq<RR>, now: int) returns (rest: Octets)
    requires Checkable(sig, a, now)
    ensures var s := RrsigOf(sig.rdata).value;
            && Canonical(sig.name) && Canonical(s.signerName)
            && |SignedBy(sig, a, now)| >= 18 && SignedBy(sig, a, now)[..18] == sig.rdata[..18]
            && SignedBy(sig, a, now)[18..] == EncodeName(s.signerName) + (EncodeName(sig.name) + rest)
  {
    var s := RrsigOf(sig.rdata).value;
    var rs := Covered(a, sig.name, s.typeCovered);
    CoveredIsOneSet(a, sig.name, s.typeCovered);
    hide Covered, Canonical, AllOwnersEncode, OneSet, EncodeName, Payload;
    rest := PayloadParts(s.rawRdata[..18], s.signerName, rs, s.originalTtl, sig.name);
  }

  /** Equal payloads come from equal fields, and from signers and owners that are written alike. */
  lemma {:induction false} SamePayloadSameSource(s: RR, t: RR, a: seq<RR>, b: seq<RR>, now: int)
    requires Checkable(s, a, now) && Checkable(t, b, now) && SignedBy(s, a, now) == SignedBy(t, b, now)
    ensures Canonical(s.name) && Canonical(t.name) && EncodeName(s.name) == EncodeName(t.name)
    ensures var x, y := RrsigOf(s.rdata).value, RrsigOf(t.rdata).value;
            && x.rawRdata[..18] == y.rawRdata[..18]
            && x.typeCovered == y.typeCovered && x.algorithm == y.algorithm && x.originalTtl == y.originalTtl
            && x.keyTag == y.keyTag
            && Canonical(x.signerName) && Canonical(y.signerName)
            && EncodeName(x.signerName) == EncodeName(y.signerName)
  {
    var x, y := RrsigOf(s.rdata).value, RrsigOf(t.rdata).value;
    assert |s.rdata| >= 18 && |t.rdata| >= 18;
    var restX := CoveredParts(s, a, now);
    var restY := CoveredParts(t, b, now);
    FieldsFromPrefix(s.rdata, t.rdata);
    hide Checkable, SignedBy, EncodeName;
    assert Encodable(s.name) && Encodable(t.name) && Encodable(x.signerName) && Encodable(y.signerName);
    EncodedNamesEndThemselves(x.signerName, y.signerName, EncodeName(s.name) + restX, EncodeName(t.name) + restY);
    EncodedNamesEndThemselves(s.name, t.name, restX, restY);
  }

  lemma FieldsFromPrefix(x: Octets, y: Octets)
    requires |x| >= 18 && |y| >= 18 && x[..18] == y[..18]
    ensures var r, q := RrsigOf(x).value, RrsigOf(y).value;
            && r.rawRdata[..18] == q.rawRdata[..18] && r.typeCovered == q.typeCovered && r.algorithm == q.algorithm
            && r.originalTtl == q.originalTtl && r.keyTag == q.keyTag
  {
    hide NameAt, NameEnd, Lower;
    assert forall i :: 0 <= i < 18 ==> x[i] == x[..18][i] == y[..18][i] == y[i];
  }

  // ---------------------------------------------------------------- an order that is refused

  predicate WrittenAlike(x: Name, y: Name)
  {
    Canonical(x) && Canonical(y) && EncodeName(x) == EncodeName(y)
  }

  /** Owners that are written alike are alike: no two of them differ in empty pieces only. */
  ghost predicate OwnersDiffer(sigs: seq<RR>)
  {
    forall s, t :: s in sigs && t in sigs && WrittenAlike(s.name, t.name) ==> s.name == t.name
  }

  lemma {:induction false} NotAcceptedWhen(
    sigs: seq<RR>, sig: RR, a: seq<RR>, keys: seq<RR>, now: int, verify: Verifier)
    requires sig in sigs && VerdictOn(sig, a, keys, now, verify) == Invalid
    ensures !Accepted(sigs, a, keys, now, verify)
  {
    hide VerdictOn, OutcomeOf;
    AcceptedUnlessOneFails(sigs, a, keys, now, verify);
  }

  /** A key that gives the primitive something else, put first, is refused by the primitive that knows one order. */
  lemma {:induction false} OtherKeyIsRefused(
    sigs: seq<RR>, sig: RR, a: seq<RR>, keys: seq<RR>, now: int, j: nat)
    requires sig in sigs && Checkable(sig, a, now) && j < |keys|
    requires var s := RrsigOf(sig.rdata).value;
             && Matches(keys[j], s.keyTag) && FirstKey(keys, s.keyTag).Some?
             && |FirstKey(keys, s.keyTag).value.rdata| >= 4
             && KeyFor(s.algorithm, keys[j]) != KeyFor(s.algorithm, FirstKey(keys, s.keyTag).value)
    ensures multiset(Front(keys, j)) == multiset(keys)
    ensures VerdictOn(sig, a, Front(keys, j), now, Accepting(sigs, a, keys, now)) == Invalid
  {
    var s := RrsigOf(sig.rdata).value;
    var verify := Accepting(sigs, a, keys, now);
    FrontIsPermutation(keys, j, s.keyTag);
    VerdictOfCheckable(sig, a, Front(keys, j), now, verify);
    hide Checkable, Covered, FirstKey, TagOf, VerdictOn, Payload, Front, Canonical, AllOwnersEncode;
    if KeyFor(s.algorithm, keys[j]).Some? {
      var r := Request(s.algorithm, KeyFor(s.algorithm, keys[j]).value, SignedBy(sig, a, now), s.signature);
      if Asked(sigs, a, keys, now, r) {
        var t :| t in sigs && RequestOf(t, a, keys, now) == Some(r);
        SamePayloadSameSource(sig, t, a, a, now);
      }
    }
  }

  /** Covered records in another order with another payload are refused by the primitive that knows one order. */
  lemma {:induction false} OtherPayloadIsRefused(
    sigs: seq<RR>, sig: RR, a: seq<RR>, b: seq<RR>, keys: seq<RR>, now: int)
    requires OwnersDiffer(sigs) && sig in sigs && multiset(a) == multiset(b)
    requires Checkable(sig, a, now) && Checkable(sig, b, now) && SignedBy(sig, a, now) != SignedBy(sig, b, now)
    requires RequestOf(sig, b, keys, now).Some?
    ensures VerdictOn(sig, b, keys, now, Accepting(sigs, a, keys, now)) == Invalid
  {
    var verify, r := Accepting(sigs, a, keys, now), RequestOf(sig, b, keys, now).value;
    VerdictOfRequest(sig, b, keys, now, verify);
    hide VerdictOn, Checkable;
    if Asked(sigs, a, keys, now, r) {
      var t :| t in sigs && RequestOf(t, a, keys, now) == Some(r);
      SamePayloadSameSource(sig, t, b, a, now);
      SameSourceSamePayload(sig, t, a, now);
    }
  }

  lemma SameSourceSamePayload(s: RR, t: RR, a: seq<RR>, now: int)
    requires Checkable(s, a, now) && Checkable(t, a, now) && s.name == t.name
    requires var x, y := RrsigOf(s.rdata).value, RrsigOf(t.rdata).value;
             && x.rawRdata[..18] == y.rawRdata[..18] && x.typeCovered == y.typeCovered && x.originalTtl == y.originalTtl
             && Canonical(x.signerName) && Canonical(y.signerName)
             && EncodeName(x.signerName) == EncodeName(y.signerName)
    ensures SignedBy(s, a, now) == SignedBy(t, a, now)
  {
    hide Covered, Canonical, AllOwnersEncode, EncodeName, Pieces, Sort, RrsigOf;
  }

  // ---------------------------------------------------------------- the condition

  /** Two orders with different acceptance. */
  lemma NotFree(sigs: seq<RR>, a: seq<RR>, b: seq<RR>, c: seq<RR>, keys: seq<RR>, keysB: seq<RR>, keysC: seq<RR>,
                now: int, verify: Verifier)
    requires multiset(b) == multiset(a) == multiset(c) && multiset(keysB) == multiset(keys) == multiset(keysC)
    requires Accepted(sigs, b, keysB, now, verify) && !Accepted(sigs, c, keysC, now, verify)
    ensures !AcceptanceFree(sigs, a, keys, now)
  {
    hide Accepted;
  }

  lemma {:induction false} UnsettledKeys(sigs: seq<RR>, sig: RR, a: seq<RR>, keys: seq<RR>, now: int)
    requires sig in sigs && Decisive(sig, a, keys, now) && !KeysAgree(sig, keys)
    requires forall t :: t in sigs ==> !Doomed(t, a, keys, now)
    ensures !AcceptanceFree(sigs, a, keys, now)
  {
    var s, first := RrsigOf(sig.rdata).value, Preferred(keys);
    hide Checkable, TagOf, KeyFor, Doomed, FirstKey, Preferred;
    PreferredKey(keys, s.algorithm, s.keyTag);
    PreferredIsPermutation(keys);
    SameElements(keys, first);
    var k := FirstKey(first, s.keyTag).value;
    var i :| 0 <= i < |keys| && Matches(keys[i], s.keyTag) && KeyFor(s.algorithm, keys[i]) != KeyFor(s.algorithm, k);
    assert keys[i] in first;
    var j :| 0 <= j < |first| && first[j] == keys[i];
    var verify := Accepting(sigs, a, first, now);
    hide RrsigOf, Matches, KeysAgree, Accepting, AcceptanceFree, Front;
    AllPass(sigs, a, keys, now);
    OtherKeyIsRefused(sigs, sig, a, first, now, j);
    NotAcceptedWhen(sigs, sig, a, Front(first, j), now, verify);
    NotFree(sigs, a, a, a, keys, first, Front(first, j), now, verify);
  }

  lemma {:induction false} UnsettledTies(sigs: seq<RR>, sig: RR, a: seq<RR>, keys: seq<RR>, now: int)
    requires OwnersDiffer(sigs) && sig in sigs && Decisive(sig, a, keys, now)
    requires !TiesAgree(Covered(a, sig.name, RrsigOf(sig.rdata).value.typeCovered))
    requires forall t :: t in sigs ==> !Doomed(t, a, keys, now)
    ensures !AcceptanceFree(sigs, a, keys, now)
  {
    var s, first := RrsigOf(sig.rdata).value, Preferred(keys);
    var rs := Covered(a, sig.name, s.typeCovered);
    CoveredIsOneSet(a, sig.name, s.typeCovered);
    PreferredKey(keys, s.algorithm, s.keyTag);
    PreferredIsPermutation(keys);
    hide Covered, Canonical, AllOwnersEncode, TiesAgree, OneSet, Payload, Others, FirstKey, KeyFor, TagOf;
    hide Doomed, OwnersDiffer, Preferred, AcceptanceFree, Accepting;
    var qs := OtherPayload(s, rs);
    var b := qs + Others(a, sig.name, s.typeCovered);
    CoveredPermuted(a, qs, sig.name, s.typeCovered);
    CheckableSurvives(sig, a, b, now);
    assert SignedBy(sig, a, now) != SignedBy(sig, b, now) && RequestOf(sig, b, first, now).Some?;
    var verify := Accepting(sigs, a, first, now);
    hide Checkable, RequestOf, SignedBy;
    AllPass(sigs, a, keys, now);
    OtherPayloadIsRefused(sigs, sig, a, b, first, now);
    NotAcceptedWhen(sigs, sig, b, first, now, verify);
    NotFree(sigs, a, a, b, keys, first, first, now, verify);
  }

  /** Acceptance is the same for every order of signatures, answers and keys, whatever the primitive accepts, when all
      signatures are settled or one is doomed; and only then, unless two signatures' owner names differ but are written
      alike. */
  lemma {:induction false} AcceptanceFreeExactly(sigs: seq<RR>, a: seq<RR>, keys: seq<RR>, now: int)
    ensures AllSettled(sigs, a, keys, now) || (exists sig :: sig in sigs && Doomed(sig, a, keys, now)) ==>
              AcceptanceFree(sigs, a, keys, now)
    ensures OwnersDiffer(sigs) && AcceptanceFree(sigs, a, keys, now) ==>
              AllSettled(sigs, a, keys, now) || exists sig :: sig in sigs && Doomed(sig, a, keys, now)
  {
    hide Settled, Doomed, AcceptanceFree, OwnersDiffer;
    if AllSettled(sigs, a, keys, now) {
      SettledIsFree(sigs, a, keys, now);
    } else if sig :| sig in sigs && Doomed(sig, a, keys, now) {
      DoomedIsFree(sigs, sig, a, keys, now);
    } else {
      var sig :| sig in sigs && !Settled(sig, a, keys, now);
      Unsettled(sigs, sig, a, keys, now);
    }
  }

  lemma {:induction false} Unsettled(sigs: seq<RR>, sig: RR, a: seq<RR>, keys: seq<RR>, now: int)
    requires sig in sigs && !Settled(sig, a, keys, now)
    requires forall t :: t in sigs ==> !Doomed(t, a, keys, now)
    ensures OwnersDiffer(sigs) ==> !AcceptanceFree(sigs, a, keys, now)
  {
    assert |sig.rdata| >= 18;
    hide Checkable, Covered, KeyFor, TagOf, TiesAgree, KeysAgree, Doomed, AcceptanceFree, OwnersDiffer;
    if !KeysAgree(sig, keys) {
      UnsettledKeys(sigs, sig, a, keys, now);
    } else if OwnersDiffer(sigs) {
      UnsettledTies(sigs, sig, a, keys, now);
    }
  }

  /** Whether a response is accepted does not depend on the order of its records, in any section, when each of its
      signatures is settled or one of them is doomed. */
  lemma {:induction false} AcceptanceIgnoresOrder(
    a: seq<RR>, othersA: seq<RR>, b: seq<RR>, othersB: seq<RR>, now: int, verify: Verifier)
    requires multiset(a) == multiset(b) && multiset(othersA) == multiset(othersB)
    requires var sigs, keys := OfType(a + othersA, TYPE_RRSIG), OfType(a + othersA, TYPE_DNSKEY);
             AllSettled(sigs, a, keys, now) || exists sig :: sig in sigs && Doomed(sig, a, keys, now)
    ensures ResponseOutcome(a, othersA, now, verify) == Some(true)
       <==> ResponseOutcome(b, othersB, now, verify) == Some(true)
  {
    var allA, allB := a + othersA, b + othersB;
    assert multiset(allA) == multiset(allB);
    OfTypeOfPermutation(allA, allB, TYPE_RRSIG);
    OfTypeOfPermutation(allA, allB, TYPE_DNSKEY);
    hide OfType, Settled, Doomed, OutcomeOf;
    var sigsA, sigsB := OfType(allA, TYPE_RRSIG), OfType(allB, TYPE_RRSIG);
    var keysA, keysB := OfType(allA, TYPE_DNSKEY), OfType(allB, TYPE_DNSKEY);
    AcceptanceFreeExactly(sigsA, a, keysA, now);
    assert Accepted(sigsB, b, keysB, now, verify) == Accepted(sigsA, a, keysA, now, verify);
  }
}
