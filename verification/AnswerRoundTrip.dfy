/** From a query to the records a client decodes out of the response. */
module AnswerRoundTrip {
  import opened Bytes
  import opened Text
  import opened WireFormat
  import opened Questions
  import opened Records
  import opened Responses
  import opened ResponseReading
  import opened Resolver

  /** The configured records that match the questions: question order, then configuration order. */
  function Matched(cfg: Config, qs: seq<Question>): seq<Record>
  {
    if qs == [] then []
    else
      (match HostOf(cfg, qs[0])
       case None => []
       case Some(records) => OfType(records, qs[0].qtype)) + Matched(cfg, qs[1..])
  }

  /** Records whose entry the builder keeps: rdata of two octets or more. PTR never is. */
  predicate Sendable(r: Record)
    requires ValidRecord(r)
  {
    RData(r).Some? && |RData(r).value| >= 2
  }

  function Sent(records: seq<Record>): (s: seq<Record>)
    requires ValidRecords(records)
    ensures ValidRecords(s)
    ensures forall i :: 0 <= i < |s| ==> Sendable(s[i])
  {
    if records == [] then []
    else (if Sendable(records[0]) then [records[0]] else []) + Sent(records[1..])
  }

  lemma {:induction false} MatchedIsValid(cfg: Config, qs: seq<Question>)
    requires ValidConfig(cfg)
    ensures ValidRecords(Matched(cfg, qs))
  {
    hide HostOf, ValidRecord, OfType;
    if qs != [] {
      HostIsValid(cfg, qs[0]);
      MatchedIsValid(cfg, qs[1..]);
    }
  }

  lemma {:induction false} EntriesAppend(a: seq<Record>, b: seq<Record>)
    requires ValidRecords(a) && ValidRecords(b)
    ensures ValidRecords(a + b)
    ensures EntriesOf(a + b) ==
            if EntriesOf(a).None? || EntriesOf(b).None? then None
            else Some(EntriesOf(a).value + EntriesOf(b).value)
  {
    hide EntryOf, ValidRecord;
    if a == [] {
      assert a + b == b;
      assert EntriesOf(b).Some? ==> [] + EntriesOf(b).value == EntriesOf(b).value;
    } else {
      assert (a + b)[1..] == a[1..] + b;
      EntriesAppend(a[1..], b);
      assert forall x: seq<Octets>, y: seq<Octets>, e: Octets :: [e] + (x + y) == [e] + x + y;
    }
  }

  lemma {:induction false} CollectIsMatched(cfg: Config, qs: seq<Question>, acc: seq<Octets>)
    requires ValidConfig(cfg)
    ensures ValidRecords(Matched(cfg, qs))
    ensures Collect(cfg, qs, acc) ==
            var es := EntriesOf(Matched(cfg, qs));
            if es.None? then None else Some(acc + es.value)
    decreases |qs|
  {
    hide HostOf, ValidRecord, OfType, EntriesOf;
    MatchedIsValid(cfg, qs);
    if qs == [] {
      NoEntries();
      assert acc + [] == acc;
    } else {
      MatchedIsValid(cfg, qs[1..]);
      HostIsValid(cfg, qs[0]);
      var rest := Matched(cfg, qs[1..]);
      match HostOf(cfg, qs[0])
      case None =>
        assert [] + rest == rest;
        CollectIsMatched(cfg, qs[1..], acc);
      case Some(records) =>
        var mine := OfType(records, qs[0].qtype);
        EntriesAppend(mine, rest);
        var es := EntriesOf(mine);
        if es.Some? {
          CollectIsMatched(cfg, qs[1..], acc + es.value);
          var more := EntriesOf(rest);
          assert more.Some? ==> acc + es.value + more.value == acc + (es.value + more.value);
        }
    }
  }

  lemma NoEntries()
    ensures EntriesOf([]) == Some([])
  {
  }

  /** What the builder keeps of the entries is the entries of the records it can send. */
  lemma {:induction false} KeptAreSent(records: seq<Record>)
    requires ValidRecords(records) && EntriesOf(records).Some?
    ensures EntriesOf(Sent(records)) == Some(Kept(EntriesOf(records).value))
    ensures |Kept(EntriesOf(records).value)| == |Sent(records)|
  {
    hide ValidRecord, RData;
    if records != [] {
      KeptAreSent(records[1..]);
      RDataIsShort(records[0]);
      var e, rest := EntryOf(records[0]).value, EntriesOf(records[1..]).value;
      assert EntriesOf(records).value == [e] + rest;
      assert |e| == 10 + |RData(records[0]).value|;
      hide EntryOf;
      assert ([e] + rest)[1..] == rest;
      if Sendable(records[0]) {
        assert Sent(records)[1..] == Sent(records[1..]);
      } else {
        assert [] + Sent(records[1..]) == Sent(records[1..]);
      }
    }
  }

  /** The resource record a client sees for one configured record. */
  function Wire(owner: Name, r: Record): ResourceRecord
    requires ValidRecord(r) && Sendable(r)
  {
    ResourceRecord(owner, TypeNumber(r), 1, 300, RData(r).value)
  }

  lemma EntryFieldsOf(owner: Name, r: Record)
    requires ValidRecord(r) && Sendable(r)
    ensures EntryOf(r).Some? && IsEntry(EntryOf(r).value)
    ensures AsRecord(owner, EntryOf(r).value) == Wire(owner, r)
  {
    EntryIsEntry(r);
    RDataIsShort(r);
    var rdata := RData(r).value;
    var e := EntryOf(r).value;
    EntryReads(TypeNumber(r), DEFAULT_TTL, rdata);
  }

  lemma EntryReads(qtype: u16, ttl: u32, rdata: Octets)
    requires |rdata| < 0x1_0000
    ensures var e := Entry(qtype, ttl, rdata);
            U16(e, 0) == qtype && U16(e, 2) == 1 && U32(e, 4) == ttl && e[10..] == rdata
  {
    var e := Entry(qtype, ttl, rdata);
    assert At(e, 0, Be16(qtype)) && At(e, 2, Be16(1)) && At(e, 4, Be32(ttl));
    ReadBe16(e, 0, qtype);
    ReadBe16(e, 2, 1);
    ReadBe32(e, 4, ttl);
  }

  lemma {:induction false} SentOnTheWire(owner: Name, records: seq<Record>)
    requires ValidRecords(records) && (forall i :: 0 <= i < |records| ==> Sendable(records[i]))
    ensures EntriesOf(records).Some? && AllEntries(EntriesOf(records).value)
    ensures var es := EntriesOf(records).value;
            && |es| == |records|
            && (forall i :: 0 <= i < |es| ==> |es[i]| >= 12)
            && Carries(AsRecords(owner, es), owner, records)
  {
    hide ValidRecord, RData, EntryOf, IsEntry, AsRecord;
    if records != [] {
      assert Sendable(records[0]);
      EntryFieldsOf(owner, records[0]);
      EntryIsLong(records[0]);
      SentOnTheWire(owner, records[1..]);
    }
  }

  lemma EntryIsLong(r: Record)
    requires ValidRecord(r) && Sendable(r)
    ensures EntryOf(r).Some? && |EntryOf(r).value| == 10 + |RData(r).value| && |EntryOf(r).value| >= 12
  {
    RDataIsShort(r);
  }

  // ---------------------------------------------------------------- A records

  function IpOf(octets: Octets): Ip
    requires |octets| == 4
  {
    [Some(octets[0]), Some(octets[1]), Some(octets[2]), Some(octets[3])]
  }

  /** The addresses configured in the A records of a list. */
  function AddressesIn(records: seq<Record>): seq<Ip>
    requires ValidRecords(records)
  {
    if records == [] then []
    else (if records[0].A? then [IpOf(records[0].octets)] else []) + AddressesIn(records[1..])
  }

  /** The addresses configured for the A questions: question order, then configuration order. */
  function ConfiguredIps(cfg: Config, qs: seq<Question>): seq<Ip>
    requires forall i :: 0 <= i < |qs| ==> (HostOf(cfg, qs[i]).Some? ==> ValidRecords(HostOf(cfg, qs[i]).value))
  {
    if qs == [] then []
    else
      (match HostOf(cfg, qs[0])
       case None => []
       case Some(records) => if qs[0].qtype == 1 then AddressesIn(records) else []) + ConfiguredIps(cfg, qs[1..])
  }

  lemma {:induction false} EntryAddresses(records: seq<Record>)
    requires ValidRecords(records) && (forall i :: 0 <= i < |records| ==> Sendable(records[i]))
    requires EntriesOf(records).Some? && AllEntries(EntriesOf(records).value)
    ensures Addresses(EntriesOf(records).value) == AddressesIn(records)
  {
    hide IsEntry;
    if records != [] {
      var r := records[0];
      assert Sendable(r);
      EntryFieldsOf([], r);
      EntryIsLong(r);
      var e, rest := EntryOf(r).value, EntriesOf(records[1..]).value;
      assert EntriesOf(records).value == [e] + rest;
      assert forall i :: 0 <= i < |rest| ==> IsEntry(rest[i]) by {
        forall i | 0 <= i < |rest| ensures IsEntry(rest[i]) { assert IsEntry(([e] + rest)[i + 1]); }
      }
      hide EntryOf, RData, ValidRecord;
      EntryAddresses(records[1..]);
      if r.A? {
        AEntry(r);
      }
    }
  }

  lemma AEntry(r: Record)
    requires ValidRecord(r) && r.A?
    ensures EntryOf(r).Some? && |EntryOf(r).value| == 14 && IpAt(EntryOf(r).value, 10) == IpOf(r.octets)
  {
    var e := EntryOf(r).value;
    EntryReads(1, DEFAULT_TTL, r.octets);
    assert e[10..] == r.octets;
    assert e[10] == e[10..][0] && e[11] == e[10..][1] && e[12] == e[10..][2] && e[13] == e[10..][3];
  }

  lemma {:induction false} AddressesAppend(a: seq<Record>, b: seq<Record>)
    requires ValidRecords(a) && ValidRecords(b)
    ensures ValidRecords(a + b) && AddressesIn(a + b) == AddressesIn(a) + AddressesIn(b)
  {
    hide IpOf;
    if a == [] {
      assert a + b == b;
    } else {
      assert (a + b)[1..] == a[1..] + b && (a + b)[0] == a[0];
      AddressesAppend(a[1..], b);
      assert ValidRecord(a[0]);
      var head := if a[0].A? then [IpOf(a[0].octets)] else [];
      assert AddressesIn(a + b) == head + AddressesIn(a[1..] + b);
      assert AddressesIn(a) == head + AddressesIn(a[1..]);
    }
  }

  lemma {:induction false} AddressesOfType(records: seq<Record>, qtype: u16)
    requires ValidRecords(records)
    ensures AddressesIn(OfType(records, qtype)) == if qtype == 1 then AddressesIn(records) else []
  {
    hide IpOf;
    if records != [] {
      AddressesOfType(records[1..], qtype);
      var r, rest := records[0], OfType(records[1..], qtype);
      if TypeNumber(r) == qtype {
        assert ([r] + rest)[1..] == rest;
      } else {
        assert [] + rest == rest;
      }
    }
  }

  lemma {:induction false} AddressesSent(records: seq<Record>)
    requires ValidRecords(records) && EntriesOf(records).Some?
    ensures AddressesIn(Sent(records)) == AddressesIn(records)
  {
    hide IpOf, EntryOf;
    if records != [] {
      AddressesSent(records[1..]);
      var r, rest := records[0], Sent(records[1..]);
      if Sendable(r) {
        assert ([r] + rest)[1..] == rest;
      } else {
        assert [] + rest == rest;
      }
    }
  }

  lemma {:induction false} MatchedAddresses(cfg: Config, qs: seq<Question>)
    requires ValidConfig(cfg)
    ensures forall i :: 0 <= i < |qs| ==> (HostOf(cfg, qs[i]).Some? ==> ValidRecords(HostOf(cfg, qs[i]).value))
    ensures ValidRecords(Matched(cfg, qs))
    ensures AddressesIn(Matched(cfg, qs)) == ConfiguredIps(cfg, qs)
  {
    hide HostOf, ValidRecord, OfType, IpOf;
    forall i | 0 <= i < |qs| { HostIsValid(cfg, qs[i]); }
    MatchedIsValid(cfg, qs);
    if qs != [] {
      MatchedAddresses(cfg, qs[1..]);
      MatchedIsValid(cfg, qs[1..]);
      match HostOf(cfg, qs[0])
      case None => assert [] + Matched(cfg, qs[1..]) == Matched(cfg, qs[1..]);
      case Some(records) =>
        AddressesOfType(records, qs[0].qtype);
        AddressesAppend(OfType(records, qs[0].qtype), Matched(cfg, qs[1..]));
    }
  }

  // ---------------------------------------------------------------- the theorem

  lemma {:induction false} ExtractedAreWritable(b: Octets, pos: nat, n: nat)
    ensures Writable(QuestionsFrom(b, pos, n))
    decreases n
  {
    hide QuestionAt;
    if n > 0 && QuestionAt(b, pos).Some? {
      var q := QuestionAt(b, pos).value;
      QuestionNameIsRead(b, pos);
      ReadNamesAreWritable(b, pos);
      ExtractedAreWritable(b, q.next, n - 1);
    }
  }

  lemma QuestionNameIsRead(b: Octets, pos: nat)
    requires QuestionAt(b, pos).Some?
    ensures QuestionAt(b, pos).value.name == NameAt(b, pos)
  {
  }

  /** What a client decodes from a response to `qs` carrying `records`. */
  ghost predicate Answers(r: Octets, qs: seq<Question>, records: seq<Record>)
    requires qs != [] && ValidRecords(records) && (forall i :: 0 <= i < |records| ==> Sendable(records[i]))
  {
    && |r| >= 12
    && U16(r, 4) == |qs| && U16(r, 6) == |records|
    && AsksAgain(QuestionsOf(r), qs)
    && Carries(RecordsFrom(r, SkipQuestions(r, 12, |qs|), |records|), Join(Written(qs[0].name)), records)
    && IpsOf(r) == AddressesIn(records)
  }

  ghost predicate AsksAgain(read: seq<Question>, qs: seq<Question>)
  {
    && |read| == |qs|
    && forall i :: 0 <= i < |qs| ==> read[i].name == Join(Written(qs[i].name)) && read[i].qtype == qs[i].qtype
  }

  ghost predicate Carries(rrs: seq<ResourceRecord>, owner: Name, records: seq<Record>)
    requires ValidRecords(records) && (forall i :: 0 <= i < |records| ==> Sendable(records[i]))
  {
    |rrs| == |records| && forall i :: 0 <= i < |rrs| ==> rrs[i] == Wire(owner, records[i])
  }

  lemma {:induction false} PacketAnswers(id: u16, flags: u16, qs: seq<Question>, records: seq<Record>)
    requires Writable(qs) && 0 < |qs| < 0x1_0000
    requires ValidRecords(records) && (forall i :: 0 <= i < |records| ==> Sendable(records[i])) && |records| < 0x1_0000
    ensures AllEncodable(qs) && EntriesOf(records).Some? && |EntriesOf(records).value| == |records|
    ensures Answers(Packet(id, flags, qs, EntriesOf(records).value), qs, records)
  {
    hide Sendable, ValidRecord, EntriesOf, U16, QuestionsFrom, RecordsFrom, AsRecords, IpsFrom, Addresses, AddressesIn;
    hide Section, Written, Join, Carries, SkipQuestions, QuestionsOctets, AnswersOctets, Packet, At, IsEntry;
    var owner := Join(Written(qs[0].name));
    WritableIsEncodable(qs);
    SentOnTheWire(owner, records);
    EntryAddresses(records);
    var es := EntriesOf(records).value;
    PacketLayout(id, flags, qs, es);
    var b := Packet(id, flags, qs, es);
    LayoutReadsBack(b, qs, es);
    assert AsksAgain(QuestionsOf(b), qs);
    assert IpsOf(b) == AddressesIn(records);
  }

  /** The response to a positive plan before the buffer cuts it. */
  ghost function Whole(cfg: Config, b: Octets): Octets
    requires ValidConfig(cfg) && Positive(cfg, b)
  {
    var qs, es := QuestionsOf(b), Kept(PlanFor(cfg, QuestionsOf(b)).entries);
    AnswersFitBound(12 + |QuestionsOctets(qs)|, es);
    Packet(U16(b, 0), ResponseFlags(U16(b, 2), NOERROR), qs, es)
  }

  /** The query has answers and the builder does not throw. */
  ghost predicate Positive(cfg: Config, b: Octets)
    requires ValidConfig(cfg)
  {
    && Accepts(b)
    && PlanFor(cfg, QuestionsOf(b)).Respond? && PlanFor(cfg, QuestionsOf(b)).entries != []
    && Builds(QuestionsOf(b), Kept(PlanFor(cfg, QuestionsOf(b)).entries))
  }

  lemma {:induction false} PositivePlan(cfg: Config, b: Octets)
    requires ValidConfig(cfg) && Positive(cfg, b)
    ensures var qs := QuestionsOf(b);
            && qs != [] && PlanFor(cfg, qs).rcode == NOERROR
            && Collect(cfg, qs, []) == Some(PlanFor(cfg, qs).entries)
            && AllEncodable(qs) && Writable(qs) && |qs| < 0x1_0000
            && Builds(qs, Kept(PlanFor(cfg, qs).entries))
            && |Kept(PlanFor(cfg, qs).entries)| < 0x1_0000
    ensures Uncached(cfg, b) == Reply(Clip(Whole(cfg, b), PACKET_SIZE))
  {
    hide QuestionsOctets, AnswersOctets, ResponseFlags, Header, Kept, AnswersFit, Collect;
    ExtractedAreWritable(b, 12, U16(b, 4));
    AnswersFitBound(12 + |QuestionsOctets(QuestionsOf(b))|, Kept(PlanFor(cfg, QuestionsOf(b)).entries));
  }

  lemma {:induction false} PlanEntries(cfg: Config, qs: seq<Question>, entries: seq<Octets>)
    requires ValidConfig(cfg) && Collect(cfg, qs, []) == Some(entries)
    ensures ValidRecords(Matched(cfg, qs)) && EntriesOf(Matched(cfg, qs)) == Some(entries)
    ensures EntriesOf(Sent(Matched(cfg, qs))) == Some(Kept(entries))
    ensures |Sent(Matched(cfg, qs))| == |Kept(entries)|
  {
    hide Collect, Matched, Sent, Kept, EntriesOf, ValidRecords;
    CollectIsMatched(cfg, qs, []);
    assert [] + EntriesOf(Matched(cfg, qs)).value == EntriesOf(Matched(cfg, qs)).value;
    KeptAreSent(Matched(cfg, qs));
  }

  /** For every query with answers whose response fits the packet buffer, the client decodes: the questions in lower
      case, an exact answer count, exactly the configured records that match, in order, and for the address
      extraction exactly the A addresses configured for the A questions. */
  lemma {:induction false} ResolvedAnswersReadBack(cfg: Config, b: Octets)
    requires ValidConfig(cfg) && Positive(cfg, b) && |Whole(cfg, b)| <= PACKET_SIZE
    ensures var qs := QuestionsOf(b);
            && Uncached(cfg, b) == Reply(Whole(cfg, b))
            && qs != [] && ValidRecords(Matched(cfg, qs))
            && Answers(Whole(cfg, b), qs, Sent(Matched(cfg, qs)))
            && |Whole(cfg, b)| >= 12
            && (forall i :: 0 <= i < |qs| ==> (HostOf(cfg, qs[i]).Some? ==> ValidRecords(HostOf(cfg, qs[i]).value)))
            && IpsOf(Whole(cfg, b)) == ConfiguredIps(cfg, qs)
  {
    var qs := QuestionsOf(b);
    PositivePlan(cfg, b);
    var entries := PlanFor(cfg, qs).entries;
    PlanEntries(cfg, qs, entries);
    MatchedAddresses(cfg, qs);
    SentAreSendable(Matched(cfg, qs));
    AddressesSent(Matched(cfg, qs));
    hide *;
    PacketAnswers(U16(b, 0), ResponseFlags(U16(b, 2), NOERROR), qs, Sent(Matched(cfg, qs)));
    WholeIs(cfg, b);
    AnswersGiveIps(Whole(cfg, b), qs, Sent(Matched(cfg, qs)));
    NotClipped(Whole(cfg, b));
  }

  lemma {:induction false} WholeIs(cfg: Config, b: Octets)
    requires ValidConfig(cfg) && Positive(cfg, b)
    ensures var qs, es := QuestionsOf(b), Kept(PlanFor(cfg, QuestionsOf(b)).entries);
            && AllEncodable(qs) && |qs| < 0x1_0000 && |es| < 0x1_0000
            && Whole(cfg, b) == Packet(U16(b, 0), ResponseFlags(U16(b, 2), NOERROR), qs, es)
  {
    AnswersFitBound(12 + |QuestionsOctets(QuestionsOf(b))|, Kept(PlanFor(cfg, QuestionsOf(b)).entries));
  }

  lemma NotClipped(s: Octets)
    ensures |s| <= PACKET_SIZE ==> Clip(s, PACKET_SIZE) == s
  {
  }

  lemma SentAreSendable(records: seq<Record>)
    requires ValidRecords(records)
    ensures ValidRecords(Sent(records)) && forall i :: 0 <= i < |Sent(records)| ==> Sendable(Sent(records)[i])
  {
  }

  lemma {:induction false} AnswersGiveIps(r: Octets, qs: seq<Question>, records: seq<Record>)
    requires qs != [] && ValidRecords(records) && (forall i :: 0 <= i < |records| ==> Sendable(records[i]))
    requires Answers(r, qs, records)
    ensures |r| >= 12 && IpsOf(r) == AddressesIn(records)
  {
  }

  /** The name a client reads back is the query's name in lower case whenever no label contains a dot. */
  lemma {:induction false} WrittenNameIsLowerCase(labels: seq<Name>)
    requires WireLabels(labels) && Dotless(labels)
    ensures Join(Written(Join(labels))) == Lower(Join(labels))
  {
    RewriteLowersCase(labels);
    LowerJoin(labels);
  }

  /** Each record sent whole decodes to the configured record, names in lower case and IPv6 groups written out, if and
      only if it is faithful: not an AAAA address that ends in a dotted quad. */
  lemma {:induction false} SentRecordDecodes(r: Record, owner: Name)
    requires ValidRecord(r) && Sendable(r) && |RData(r).value| < PACKET_SIZE
    ensures Decode(Wire(owner, r).qtype, Wire(owner, r).rdata) == Some(Canonical(r)) <==> Faithful(r)
    ensures !r.PTR?
  {
    if r.TXT? {
      TxtExactly(r.data, []);
      assert [] + TxtOctets(r.data) == TxtOctets(r.data);
    }
    RDataReadsBack(r);
  }

  /** What happens to each record the schema admits: PTR and TXT of fewer than two octets are dropped, TXT whose length
      octets find no room is refused by an exception, and every other record is sent. TXT is sent whole exactly when
      its rdata fits the encoder's buffer. */
  lemma {:induction false} NeverSent(r: Record)
    requires ValidRecord(r)
    ensures RData(r).None? <==> r.TXT? && !TxtEncodes(r.data)
    ensures Sendable(r) <==> !r.PTR? && (r.TXT? ==> TxtEncodes(r.data) && |TxtOctets(r.data)| >= 2)
    ensures r.TXT? && TxtEncodes(r.data) ==>
              (RData(r).value == TxtOctets(r.data) <==> |TxtOctets(r.data)| <= PACKET_SIZE)
  {
    if r.TXT? {
      TxtExactly(r.data, []);
      assert [] + TxtOctets(r.data) == TxtOctets(r.data);
    } else if !r.PTR? {
      RDataReadsBack(r);
    }
  }

  /** The composition: the client decodes exactly the records sent, in order, each as it was configured if and only if
      it is faithful. */
  lemma {:induction false} ResolvedRecordsDecode(cfg: Config, b: Octets)
    requires ValidConfig(cfg) && Positive(cfg, b) && |Whole(cfg, b)| <= PACKET_SIZE
    ensures var qs := QuestionsOf(b);
            && ValidRecords(Matched(cfg, qs))
            && var sent := Sent(Matched(cfg, qs));
               var rrs := RecordsFrom(Whole(cfg, b), SkipQuestions(Whole(cfg, b), 12, |qs|), |sent|);
               && |rrs| == |sent|
               && forall i :: 0 <= i < |sent| ==>
                    (Decode(rrs[i].qtype, rrs[i].rdata) == Some(Canonical(sent[i])) <==> Faithful(sent[i]))
  {
    var qs := QuestionsOf(b);
    ResolvedAnswersReadBack(cfg, b);
    PositivePlan(cfg, b);
    PlanEntries(cfg, qs, PlanFor(cfg, qs).entries);
    WholeIs(cfg, b);
    var sent, entries := Sent(Matched(cfg, qs)), Kept(PlanFor(cfg, qs).entries);
    var whole, owner := Whole(cfg, b), Join(Written(qs[0].name));
    var rrs := RecordsFrom(whole, SkipQuestions(whole, 12, |qs|), |sent|);
    hide Sendable, ValidRecord, RData, Matched, Sent, RecordsFrom, QuestionsOf, Positive, PlanFor, Kept, Whole, IpsOf;
    hide SkipQuestions, QuestionsOctets, AnswersOctets, Header, Wire, Decode, Canonical, ConfiguredIps, HostOf, Join;
    assert Carries(rrs, owner, sent);
    assert |AnswersOctets(entries)| + 12 <= |whole|;
    hide Faithful;
    forall i | 0 <= i < |sent|
      ensures Decode(rrs[i].qtype, rrs[i].rdata) == Some(Canonical(sent[i])) <==> Faithful(sent[i])
    {
      SentIsShort(sent, entries, i);
      SentRecordDecodes(sent[i], owner);
    }
  }

  lemma {:induction false} SentIsShort(records: seq<Record>, es: seq<Octets>, i: nat)
    requires ValidRecords(records) && EntriesOf(records) == Some(es) && i < |records|
    ensures RData(records[i]).Some? && 12 + |RData(records[i]).value| <= |AnswersOctets(es)|
    decreases |records|
  {
    hide ValidRecord, RData;
    var e, rest := EntryOf(records[0]).value, EntriesOf(records[1..]).value;
    assert es == [e] + rest && es[1..] == rest;
    RDataIsShort(records[0]);
    if i == 0 {
      assert |e| == 10 + |RData(records[0]).value|;
    } else {
      SentIsShort(records[1..], rest, i - 1);
    }
  }

  // ---------------------------------------------------------------- exceptions

  lemma {:induction false} EntriesFailExactly(records: seq<Record>)
    requires ValidRecords(records)
    ensures EntriesOf(records).None? <==> exists i :: 0 <= i < |records| && EntryOf(records[i]).None?
  {
    hide EntryOf, ValidRecord;
    if records != [] {
      EntriesFailExactly(records[1..]);
      if EntriesOf(records[1..]).None? {
        var i :| 0 <= i < |records[1..]| && EntryOf(records[1..][i]).None?;
        assert records[i + 1] == records[1..][i];
      }
      if i :| 0 <= i < |records| && EntryOf(records[i]).None? {
        assert i > 0 ==> records[1..][i - 1] == records[i];
      }
    }
  }

  /** One record is enough to lose the whole reply: collecting the answers throws exactly when some record that
      matches a question is TXT whose length octets find no room. */
  lemma {:induction false} OneRecordFailsTheReply(cfg: Config, b: Octets)
    requires ValidConfig(cfg) && Accepts(b)
    ensures var rs := Matched(cfg, QuestionsOf(b));
            && ValidRecords(rs)
            && (PlanFor(cfg, QuestionsOf(b)).Fail?
                <==> exists i :: 0 <= i < |rs| && rs[i].TXT? && !TxtEncodes(rs[i].data))
    ensures PlanFor(cfg, QuestionsOf(b)).Fail? ==> Uncached(cfg, b) == Thrown
  {
    var qs := QuestionsOf(b);
    var rs := Matched(cfg, qs);
    CollectIsMatched(cfg, qs, []);
    EntriesFailExactly(rs);
    hide QuestionsOf, Accepts, Collect, Matched, EntriesOf, Known, Denied, Sendable;
    forall i | 0 <= i < |rs| ensures EntryOf(rs[i]).None? <==> rs[i].TXT? && !TxtEncodes(rs[i].data) {
      assert ValidRecord(rs[i]);
      NeverSent(rs[i]);
    }
    hide EntryOf;
  }

  /** The resolver throws exactly on an accepted query that one matching record fails, or whose planned response does
      not fit 4096 octets even without its last rdata. */
  lemma {:induction false} ThrownExactly(cfg: Config, b: Octets)
    requires ValidConfig(cfg)
    ensures Accepts(b) ==> ValidRecords(Matched(cfg, QuestionsOf(b))) && AllEncodable(QuestionsOf(b))
    ensures Uncached(cfg, b) == Thrown
       <==> && Accepts(b)
            && var qs, plan, rs := QuestionsOf(b), PlanFor(cfg, QuestionsOf(b)), Matched(cfg, QuestionsOf(b));
               || (exists i :: 0 <= i < |rs| && rs[i].TXT? && !TxtEncodes(rs[i].data))
               || (plan.Respond? && WholeSize(qs, Kept(plan.entries)) - LastRdata(Kept(plan.entries)) > PACKET_SIZE)
  {
    if Accepts(b) {
      var qs, plan := QuestionsOf(b), PlanFor(cfg, QuestionsOf(b));
      OneRecordFailsTheReply(cfg, b);
      ExtractedAreWritable(b, 12, U16(b, 4));
      hide Accepts, QuestionsOf, PlanFor, Matched, Kept, WholeSize, AllEncodable, TxtEncodes, Assemble, LastRdata;
      if plan.Respond? {
        AssembleExact(U16(b, 0), U16(b, 2), plan.rcode, qs, plan.entries);
      }
    }
  }

  // ---------------------------------------------------------------- owners

  function Repeat(name: Name, n: nat): (r: seq<Name>)
    ensures |r| == n && forall i :: 0 <= i < n ==> r[i] == name
  {
    seq(n, _ => name)
  }

  /** The records sent in answer to one question. */
  function SentFor(cfg: Config, q: Question): seq<Record>
    requires HostOf(cfg, q).Some? ==> ValidRecords(HostOf(cfg, q).value)
  {
    match HostOf(cfg, q) case None => [] case Some(records) => Sent(OfType(records, q.qtype))
  }

  /** For each record sent, the name the question it answers asked for, as it is written. */
  ghost function Askers(cfg: Config, qs: seq<Question>): seq<Name>
    requires ValidConfig(cfg)
  {
    if qs == [] then []
    else
      HostIsValid(cfg, qs[0]);
      Repeat(Join(Written(qs[0].name)), |SentFor(cfg, qs[0])|) + Askers(cfg, qs[1..])
  }

  ghost predicate Contributes(cfg: Config, q: Question)
    requires ValidConfig(cfg)
  {
    HostIsValid(cfg, q);
    SentFor(cfg, q) != []
  }

  lemma {:induction false} SentAppend(a: seq<Record>, b: seq<Record>)
    requires ValidRecords(a) && ValidRecords(b)
    ensures ValidRecords(a + b) && Sent(a + b) == Sent(a) + Sent(b)
  {
    hide ValidRecord, Sendable;
    if a == [] {
      assert a + b == b;
    } else {
      assert (a + b)[1..] == a[1..] + b && (a + b)[0] == a[0];
      SentAppend(a[1..], b);
    }
  }

  lemma {:induction false} AskersCount(cfg: Config, qs: seq<Question>)
    requires ValidConfig(cfg)
    ensures ValidRecords(Matched(cfg, qs)) && |Askers(cfg, qs)| == |Sent(Matched(cfg, qs))|
  {
    hide HostOf, ValidRecord, OfType, Sent;
    MatchedIsValid(cfg, qs);
    if qs == [] {
      assert Sent([]) == [] by { SentNothing(); }
    } else {
      AskersCount(cfg, qs[1..]);
      HostIsValid(cfg, qs[0]);
      var rest := Matched(cfg, qs[1..]);
      match HostOf(cfg, qs[0])
      case None => assert [] + rest == rest;
      case Some(records) => SentAppend(OfType(records, qs[0].qtype), rest);
    }
  }

  lemma SentNothing()
    ensures Sent([]) == []
  {
  }

  lemma {:induction false} AllAskers(cfg: Config, qs: seq<Question>, name: Name)
    requires ValidConfig(cfg)
    ensures (forall i :: 0 <= i < |Askers(cfg, qs)| ==> Askers(cfg, qs)[i] == name)
       <==> (forall j :: 0 <= j < |qs| && Contributes(cfg, qs[j]) ==> Join(Written(qs[j].name)) == name)
  {
    hide SentFor, Written, Join;
    if qs != [] {
      AllAskers(cfg, qs[1..], name);
      HostIsValid(cfg, qs[0]);
      var own, rest := Repeat(Join(Written(qs[0].name)), |SentFor(cfg, qs[0])|), Askers(cfg, qs[1..]);
      assert Askers(cfg, qs) == own + rest;
      assert (forall i :: 0 <= i < |own + rest| ==> (own + rest)[i] == name)
        <==> (forall i :: 0 <= i < |own| ==> own[i] == name) && (forall i :: 0 <= i < |rest| ==> rest[i] == name) by {
        assert forall i :: 0 <= i < |own| ==> (own + rest)[i] == own[i];
        assert forall i :: 0 <= i < |rest| ==> (own + rest)[|own| + i] == rest[i];
      }
      assert (forall i :: 0 <= i < |own| ==> own[i] == name)
        <==> (Contributes(cfg, qs[0]) ==> Join(Written(qs[0].name)) == name) by {
        assert own != [] ==> own[0] == Join(Written(qs[0].name));
      }
      assert forall j :: 0 < j < |qs| ==> qs[j] == qs[1..][j - 1];
    }
  }

  lemma AllOwners(cfg: Config, b: Octets)
    requires ValidConfig(cfg) && Positive(cfg, b) && |Whole(cfg, b)| <= PACKET_SIZE
    ensures var qs, whole := QuestionsOf(b), Whole(cfg, b);
            var rrs := RecordsFrom(whole, SkipQuestions(whole, 12, |qs|), |Askers(cfg, qs)|);
            && qs != [] && |rrs| == |Askers(cfg, qs)|
            && forall i :: 0 <= i < |rrs| ==> rrs[i].owner == Join(Written(qs[0].name))
  {
    var qs, whole := QuestionsOf(b), Whole(cfg, b);
    ResolvedAnswersReadBack(cfg, b);
    AskersCount(cfg, qs);
    var sent := Sent(Matched(cfg, qs));
    var rrs := RecordsFrom(whole, SkipQuestions(whole, 12, |qs|), |sent|);
    hide Askers, RecordsFrom, SkipQuestions, Matched, Sent, QuestionsOf, Whole, Positive, Sendable, IpsOf;
    hide ConfiguredIps, HostOf, Join, Written, RData, ValidRecord, U16, AsksAgain;
    assert Carries(rrs, Join(Written(qs[0].name)), sent);
  }

  /** Every record sent carries the name its own question asked for if and only if all the questions that contribute a
      record ask for the name of the first. */
  lemma {:induction false} OwnersExactly(cfg: Config, b: Octets)
    requires ValidConfig(cfg) && Positive(cfg, b) && |Whole(cfg, b)| <= PACKET_SIZE
    ensures var qs, whole := QuestionsOf(b), Whole(cfg, b);
            var rrs := RecordsFrom(whole, SkipQuestions(whole, 12, |qs|), |Askers(cfg, qs)|);
            && qs != [] && |rrs| == |Askers(cfg, qs)|
            && ((forall i :: 0 <= i < |rrs| ==> rrs[i].owner == Askers(cfg, qs)[i])
                <==> (forall j :: 0 <= j < |qs| && Contributes(cfg, qs[j]) ==>
                        Join(Written(qs[j].name)) == Join(Written(qs[0].name))))
  {
    var qs := QuestionsOf(b);
    AllOwners(cfg, b);
    AllAskers(cfg, qs, Join(Written(qs[0].name)));
    hide *;
  }
}
