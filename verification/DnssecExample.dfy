/** Two messages of equal records: the order of two keys decides. */
module DnssecExample {
  import opened Bytes
  import opened Text
  import opened WireFormat
  import opened Questions
  import opened Dnssec
  import opened DnssecMessage
  import Examples

  const OWNER: Name := [0x61]

  /** An address, and its RSA signature by the root with the key tag 1035, valid from 0 to 100. */
  const ADDRESS: WireRecord := WireRecord([OWNER], 1, 1, 300, [192, 0, 2, 1])
  const SIGNATURE: WireRecord :=
    WireRecord([OWNER], 46, 1, 300, [0, 1, 8, 1, 0, 0, 1, 44, 0, 0, 0, 100, 0, 0, 0, 0, 4, 11, 0])

  /** Two keys of the root that differ in their octets and share the tag. */
  const FIRST_KEY: WireRecord := WireRecord([], 48, 1, 300, [1, 0, 3, 8, 0, 1, 0, 2])
  const SECOND_KEY: WireRecord := WireRecord([], 48, 1, 300, [1, 0, 3, 8, 0, 2, 0, 1])

  /** A response to a question for the address. */
  const HEAD: Octets := [0, 7, 0x81, 0x80]
  const QUESTION: WireQuestion := WireQuestion([OWNER], 1, 1)

  /** A primitive that knows the first key only. */
  const KNOWS_FIRST: Verifier :=
    (algorithm: byte, publicKey: Octets, payload: Octets, signature: Octets) => publicKey == [0, 1, 0, 2]

  lemma {:induction false} SharedTag()
    ensures Matches(AsRR(FIRST_KEY), 1035) && Matches(AsRR(SECOND_KEY), 1035)
  {
    var k, l: Octets := [1, 0, 3, 8, 0, 1, 0, 2], [1, 0, 3, 8, 0, 2, 0, 1];
    assert AsRR(FIRST_KEY).rdata == k && AsRR(SECOND_KEY).rdata == l;
    assert U16(k, 0) == 256 && U16(k, 2) == 776 && U16(k, 4) == 1 && U16(k, 6) == 2;
    assert U16(l, 0) == 256 && U16(l, 2) == 776 && U16(l, 4) == 2 && U16(l, 6) == 1;
    hide AsRR, U16;
    TagFromWords(k);
    TagFromWords(l);
  }

  lemma {:induction false} TagFromWords(b: Octets)
    requires |b| == 8 && b[3] != 1 && U16(b, 0) + U16(b, 2) + U16(b, 4) + U16(b, 6) == 1035
    ensures TagOf(b) == Some(1035)
  {
    hide *;
    WordsOf(b);
    SmallSum(b);
    KeyTagIsRfc(b);
    TagOfOther(b);
  }

  lemma SmallSum(b: Octets)
    requires WordSum(b) == 1035
    ensures RfcTag(b) == 1035
  {
    hide WordSum;
  }

  lemma TagOfOther(b: Octets)
    requires |b| >= 4 && b[3] != 1
    ensures TagOf(b) == Some(FoldTag(Accumulated(b, |b|)))
  {
    hide FoldTag, Accumulated, U16;
  }

  lemma {:induction false} WordsOf(b: Octets)
    requires |b| == 8
    ensures WordSum(b) == U16(b, 0) + U16(b, 2) + U16(b, 4) + U16(b, 6)
  {
    hide *;
    WordStep(b, 0);
    WordStep(b, 2);
    WordStep(b, 4);
    WordStep(b, 6);
    assert b[0..] == b;
    NoWords(b);
  }

  lemma WordStep(b: Octets, i: nat)
    requires i + 2 <= |b|
    ensures WordSum(b[i..]) == U16(b, i) + WordSum(b[i + 2..])
  {
    assert b[i..][2..] == b[i + 2..];
    hide WordSum;
    WordHead(b[i..]);
  }

  lemma WordHead(b: Octets)
    requires |b| >= 2
    ensures WordSum(b) == U16(b, 0) + WordSum(b[2..])
  {
  }

  lemma NoWords(b: Octets)
    requires |b| == 8
    ensures WordSum(b[8..]) == 0
  {
    assert b[8..] == [];
  }

  lemma {:induction false} OwnersAreCanonical()
    ensures Canonical([]) && Canonical(OWNER) && Lower(Join([OWNER])) == OWNER && Lower(Join([])) == []
  {
    Examples.LetterName(0x61);
    assert Lower(OWNER) == OWNER && Join([OWNER]) == OWNER;
    assert Lower([]) == [] && Split([]) == [[]] && NonEmpty([[]]) == NonEmpty([[]][1..]) == [];
    assert Written([]) == [] && EncodeLabels([]) == [0];
  }

  lemma {:induction false} SignatureIsCheckable()
    ensures AsRR(SIGNATURE).name == OWNER && |AsRR(SIGNATURE).rdata| == 19
    ensures RrsigOf(AsRR(SIGNATURE).rdata).value.keyTag == 1035 && RrsigOf(AsRR(SIGNATURE).rdata).value.algorithm == 8
    ensures Checkable(AsRR(SIGNATURE), [AsRR(ADDRESS), AsRR(SIGNATURE)], 50)
  {
    var a, sig := AsRR(ADDRESS), AsRR(SIGNATURE);
    OwnersAreCanonical();
    SignatureFields();
    assert a.name == OWNER == sig.name && a.rtype == 1 && sig.rtype == 46 && sig.rdata == SIGNATURE.rdata;
    hide Canonical, Join, RrsigOf, AsRR;
    CoveredByType(a, sig, OWNER, 1);
    hide Covered, SIGNATURE, ADDRESS, OWNER;
    assert [a][0] == a;
  }

  lemma SignatureFields()
    ensures |SIGNATURE.rdata| == 19
    ensures var s := RrsigOf(SIGNATURE.rdata);
            && s.Some? && s.value.typeCovered == 1 && s.value.algorithm == 8 && s.value.keyTag == 1035
            && s.value.inception == 0 && s.value.expiration == 100 && s.value.signerName == []
  {
    var r := SIGNATURE.rdata;
    assert StepAt(r, 18) == Stop(19) && LabelsAt(r, 18, 0) == [];
    OwnersAreCanonical();
  }

  lemma CoveredByType(a: RR, sig: RR, name: Name, rtype: u16)
    requires a.name == name && a.rtype == rtype != sig.rtype
    ensures Covered([a, sig], name, rtype) == [a]
  {
    assert [a, sig][1..] == [sig] && [sig][1..] == [];
    assert Covered([], name, rtype) == [];
    assert Covered([sig], name, rtype) == [] + Covered([], name, rtype);
    assert Covered([a, sig], name, rtype) == [a] + Covered([sig], name, rtype);
  }

  lemma {:induction false} AllAreSendable()
    ensures AllSendable([ADDRESS, SIGNATURE]) && AllSendable([FIRST_KEY, SECOND_KEY])
    ensures AllSendable([SECOND_KEY, FIRST_KEY]) && AllSendable([])
    ensures |HEAD| == 4 && AllLegal([QUESTION])
  {
  }

  /** The outcome for one order of the keys. */
  lemma {:induction false} OutcomeInOrder(first: RR, second: RR)
    requires Matches(first, 1035) && first.rtype == 48 && second.rtype == 48
    ensures ResponseOutcome([AsRR(ADDRESS), AsRR(SIGNATURE)], [first, second], 50, KNOWS_FIRST)
         == Some(first.rdata[4..] == [0, 1, 0, 2])
  {
    var a, sig := AsRR(ADDRESS), AsRR(SIGNATURE);
    var answers, keys := [a, sig], [first, second];
    SignatureIsCheckable();
    VerdictOfCheckable(sig, answers, keys, 50, KNOWS_FIRST);
    hide Checkable, Covered, VerdictOn, Matches, AsRR, Payload;
    assert FirstKey(keys, 1035) == Some(first);
    SortedByType(a, sig, first, second);
    assert [sig][1..] == [];
    assert OutcomeOf([], answers, keys, 50, KNOWS_FIRST) == Some(true);
  }

  lemma {:induction false} SortedByType(a: RR, sig: RR, k: RR, l: RR)
    requires a.rtype == 1 && sig.rtype == 46 && k.rtype == 48 && l.rtype == 48
    ensures OfType([a, sig] + [k, l], TYPE_RRSIG) == [sig] && OfType([a, sig] + [k, l], TYPE_DNSKEY) == [k, l]
  {
    hide OfType;
    assert TYPE_RRSIG == 46 && TYPE_DNSKEY == 48;
    assert [a, sig] + [k, l] == [a] + ([sig] + ([k] + ([l] + [])));
    TypeHead(l, [], TYPE_RRSIG);
    TypeHead(k, [l] + [], TYPE_RRSIG);
    TypeHead(sig, [k] + ([l] + []), TYPE_RRSIG);
    TypeHead(a, [sig] + ([k] + ([l] + [])), TYPE_RRSIG);
    TypeHead(l, [], TYPE_DNSKEY);
    TypeHead(k, [l] + [], TYPE_DNSKEY);
    TypeHead(sig, [k] + ([l] + []), TYPE_DNSKEY);
    TypeHead(a, [sig] + ([k] + ([l] + [])), TYPE_DNSKEY);
    hide *;
    assert [sig] + [] == [sig] && [k] + ([l] + []) == [k, l];
  }

  lemma {:induction false} TypeHead(r: RR, rest: seq<RR>, rtype: u16)
    ensures OfType([r] + rest, rtype) == if r.rtype == rtype then [r] + OfType(rest, rtype) else OfType(rest, rtype)
    ensures rest == [] ==> OfType(rest, rtype) == []
  {
    assert ([r] + rest)[1..] == rest && [] + OfType(rest, rtype) == OfType(rest, rtype);
  }

  /** The same four records in two messages that differ in the order of the keys: the first response is accepted, the
      second rejected. */
  lemma {:induction false} KeyOrderMatters()
    ensures AllSendable([ADDRESS, SIGNATURE]) && AllSendable([FIRST_KEY, SECOND_KEY])
    ensures AllSendable([SECOND_KEY, FIRST_KEY]) && AllSendable([]) && |HEAD| == 4 && AllLegal([QUESTION])
    ensures var s := SectionsOf(Message(HEAD, [QUESTION], [ADDRESS, SIGNATURE], [], [FIRST_KEY, SECOND_KEY]));
            ResponseOutcome(RRs(s.answers), RRs(s.authorities) + RRs(s.additionals), 50, KNOWS_FIRST) == Some(true)
    ensures var s := SectionsOf(Message(HEAD, [QUESTION], [ADDRESS, SIGNATURE], [], [SECOND_KEY, FIRST_KEY]));
            ResponseOutcome(RRs(s.answers), RRs(s.authorities) + RRs(s.additionals), 50, KNOWS_FIRST) == Some(false)
  {
    AllAreSendable();
    SharedTag();
    assert AsRR(FIRST_KEY).rdata[4..] == [0, 1, 0, 2] && AsRR(SECOND_KEY).rdata[4..] == [0, 2, 0, 1];
    assert AsRR(FIRST_KEY).rtype == 48 == AsRR(SECOND_KEY).rtype && [0, 2, 0, 1][1] != [0, 1, 0, 2][1];
    hide *;
    OutcomeOfMessage(FIRST_KEY, SECOND_KEY);
    OutcomeOfMessage(SECOND_KEY, FIRST_KEY);
  }

  lemma {:induction false} OutcomeOfMessage(first: WireRecord, second: WireRecord)
    requires AllSendable([ADDRESS, SIGNATURE]) && AllSendable([first, second]) && AllSendable([])
    requires |HEAD| == 4 && AllLegal([QUESTION])
    requires |first.rdata| < 0x1_0000 && |second.rdata| < 0x1_0000
    requires Matches(AsRR(first), 1035) && AsRR(first).rtype == 48 == AsRR(second).rtype
    ensures var s := SectionsOf(Message(HEAD, [QUESTION], [ADDRESS, SIGNATURE], [], [first, second]));
            ResponseOutcome(RRs(s.answers), RRs(s.authorities) + RRs(s.additionals), 50, KNOWS_FIRST)
            == Some(AsRR(first).rdata[4..] == [0, 1, 0, 2])
  {
    hide *;
    TwoRRs(ADDRESS, SIGNATURE);
    TwoRRs(first, second);
    MessageReadsBack(HEAD, [QUESTION], [ADDRESS, SIGNATURE], [], [first, second]);
    OutcomeInOrder(AsRR(first), AsRR(second));
    assert [] + [AsRR(first), AsRR(second)] == [AsRR(first), AsRR(second)];
  }

  lemma {:induction false} TwoRRs(v: WireRecord, w: WireRecord)
    requires AllSendable([v, w])
    ensures Sendable(v) && Sendable(w) && AsRRs([v, w]) == [AsRR(v), AsRR(w)]
    ensures AllSendable([]) && AsRRs([]) == []
  {
    hide AsRR;
    assert [v, w][0] == v && [v, w][1] == w;
    assert [v, w][1..] == [w] && [w][1..] == [];
    assert AsRRs([w]) == [AsRR(w)] + [];
  }
}
