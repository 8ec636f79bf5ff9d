/** What a query comes to, by its octets and by the names it asks for. */
module ResolverOutcomes {
  import opened Bytes
  import opened Text
  import opened WireFormat
  import opened Questions
  import opened Records
  import opened Responses
  import opened ResponseReading
  import opened HostLookup
  import opened Resolver
  import opened AnswerRoundTrip

  // ---------------------------------------------------------------- the three questions about a query

  /** A standard query: QR clear, RD set, some question, no answer and no authority records. */
  predicate IsQuery(b: Octets)
  {
    && |b| >= 12
    && b[2] < 128 && b[2] % 2 == 1
    && !(b[4] == 0 && b[5] == 0)
    && b[6] == 0 && b[7] == 0 && b[8] == 0 && b[9] == 0
  }

  /** Some configured key covers the name. */
  ghost predicate IsCovered(cfg: Config, name: Name)
  {
    exists k :: k in cfg.hosts && Covers(k, NormalizeHost(name))
  }

  ghost predicate SomeCovered(cfg: Config, qs: seq<Question>)
  {
    exists i :: 0 <= i < |qs| && IsCovered(cfg, qs[i].name)
  }

  /** The policy names the name as blocked, or does not name it and blocks by default. */
  ghost predicate IsBlocked(cfg: Config, name: Name)
  {
    && cfg.firewall.Some?
    && var p := cfg.firewall.value;
       || SomeMatches(name, p.block)
       || (!SomeMatches(name, p.allow) && !p.defaultAllow)
  }

  ghost predicate SomeBlocked(cfg: Config, qs: seq<Question>)
  {
    exists i :: 0 <= i < |qs| && IsBlocked(cfg, qs[i].name)
  }

  /** Nobody here knows the names and nothing forbids to ask elsewhere. */
  ghost predicate AsksElsewhere(cfg: Config, qs: seq<Question>)
  {
    qs != [] && !SomeCovered(cfg, qs) && !SomeBlocked(cfg, qs) && cfg.fallback
  }

  lemma AcceptsExactly(b: Octets)
    ensures Accepts(b) <==> IsQuery(b)
  {
  }

  lemma HostIsCovered(cfg: Config, q: Question)
    ensures HostOf(cfg, q).Some? <==> IsCovered(cfg, q.name)
  {
    hide NormalizeHost, Covers;
    FindKeyIsMostSpecific(cfg.hosts, NormalizeHost(q.name));
  }

  lemma VerdictIsBlocked(cfg: Config, name: Name)
    ensures !DomainVerdict(name, cfg.firewall) <==> IsBlocked(cfg, name)
  {
    if cfg.firewall.Some? { DomainLaws(name, cfg.firewall.value); }
    hide DomainVerdict, SomeMatches;
    DomainLaws(name, DomainPolicy([], [], true));
  }

  lemma {:induction false} KnownIsCovered(cfg: Config, qs: seq<Question>)
    ensures Known(cfg, qs) <==> SomeCovered(cfg, qs)
    ensures Denied(cfg, qs) <==> SomeBlocked(cfg, qs)
  {
    hide HostOf, IsCovered, DomainVerdict, IsBlocked;
    forall i | 0 <= i < |qs|
      ensures HostOf(cfg, qs[i]).Some? <==> IsCovered(cfg, qs[i].name)
      ensures !DomainVerdict(qs[i].name, cfg.firewall) <==> IsBlocked(cfg, qs[i].name)
    {
      HostIsCovered(cfg, qs[i]);
      VerdictIsBlocked(cfg, qs[i].name);
    }
  }

  lemma {:induction false} UnknownMatchesNothing(cfg: Config, qs: seq<Question>)
    requires !Known(cfg, qs)
    ensures Matched(cfg, qs) == []
  {
    hide HostOf;
    if qs != [] {
      assert HostOf(cfg, qs[0]).None?;
      assert forall i :: 0 <= i < |qs[1..]| ==> qs[1..][i] == qs[i + 1];
      UnknownMatchesNothing(cfg, qs[1..]);
    }
  }

  /** The plan in terms of what matches, is covered and is blocked. */
  lemma {:induction false} PlanIs(cfg: Config, qs: seq<Question>)
    requires ValidConfig(cfg)
    ensures ValidRecords(Matched(cfg, qs))
    ensures !SomeCovered(cfg, qs) ==> EntriesOf(Matched(cfg, qs)) == Some([])
    ensures var es := EntriesOf(Matched(cfg, qs));
            PlanFor(cfg, qs) ==
              if es.None? then Fail
              else if SomeCovered(cfg, qs) then Respond(0, es.value, true)
              else if SomeBlocked(cfg, qs) then Respond(5, [], false)
              else if AsksElsewhere(cfg, qs) then Forward
              else Respond(3, [], qs != [])
  {
    hide SomeCovered, SomeBlocked, Known, Denied, Collect, Matched, EntriesOf, ValidConfig, ValidRecords;
    KnownIsCovered(cfg, qs);
    CollectIsMatched(cfg, qs, []);
    NoEntries();
    if !Known(cfg, qs) { UnknownMatchesNothing(cfg, qs); }
    if qs == [] { NothingIsKnown(cfg); }
    var es := EntriesOf(Matched(cfg, qs));
    assert es.Some? ==> [] + es.value == es.value;
  }

  lemma NothingIsKnown(cfg: Config)
    ensures !Known(cfg, []) && !Denied(cfg, [])
  {
  }

  // ---------------------------------------------------------------- the outcome of every query

  /** No reply at all, not even an error, goes to exactly those datagrams that are no query. */
  lemma {:induction false} IgnoredExactly(cfg: Config, b: Octets)
    requires ValidConfig(cfg)
    ensures Uncached(cfg, b) == Reply([]) <==> !IsQuery(b)
  {
    AcceptsExactly(b);
    if Accepts(b) && Uncached(cfg, b).Reply? { ReplyHeader(cfg, b); }
    hide Accepts, IsQuery, PlanFor, QuestionsOf, Assemble;
  }

  /** A query is forwarded exactly when it has a question that parses, no configured key covers any of the names, the
      policy blocks none of them, and there is a fallback. */
  lemma {:induction false} ForwardedExactly(cfg: Config, b: Octets)
    requires ValidConfig(cfg)
    ensures Uncached(cfg, b) == Null <==> IsQuery(b) && AsksElsewhere(cfg, QuestionsOf(b))
  {
    AcceptsExactly(b);
    if Accepts(b) {
      AcceptedIsLong(b);
      PlanIs(cfg, QuestionsOf(b));
      NothingUnknown(cfg, QuestionsOf(b));
      hide PlanFor, QuestionsOf, Assemble, AsksElsewhere, SomeCovered, SomeBlocked, Accepts, IsQuery, U16, EntriesOf;
    }
  }

  lemma NothingUnknown(cfg: Config, qs: seq<Question>)
    ensures AsksElsewhere(cfg, qs) ==> !SomeCovered(cfg, qs) && !SomeBlocked(cfg, qs)
  {
  }

  lemma AcceptedIsLong(b: Octets)
    requires Accepts(b)
    ensures |b| >= 12
  {
  }

  /** NOERROR for covered names, REFUSED for blocked ones, NXDOMAIN for the others and for a query without questions. */
  ghost function CodeOf(cfg: Config, qs: seq<Question>): u16
  {
    if SomeCovered(cfg, qs) then 0 else if SomeBlocked(cfg, qs) then 5 else 3
  }

  predicate CarriesCode(flags: bv16, reply: bv16, code: bv16)
  {
    reply & 0xf == (flags & 0xf) | code
  }

  predicate CodeIs(flags: u16, reply: u16, code: u16)
  {
    CarriesCode(flags as bv16, reply as bv16, code as bv16)
  }

  lemma CodeIsOred(flags: bv16, code: bv16)
    requires code < 16
    ensures CarriesCode(flags, FlagBits(flags, code), code)
  {
  }

  lemma FlagsCarryCode(flags: u16, code: u16)
    requires code in {0, 3, 5}
    ensures CodeIs(flags, ResponseFlags(flags, code), code)
  {
    hide CarriesCode, FlagBits;
    assert code as bv16 < 16;
    CodeIsOred(flags as bv16, code as bv16);
    FlagBitsBack(flags as bv16, code as bv16);
  }

  /** The code of every reply: the low four bits of its flags are those of the query or-ed with 0 exactly when some name
      is covered, with 5 exactly when none is and some name is blocked, and with 3 otherwise. */
  lemma {:induction false} CodeExactly(cfg: Config, b: Octets)
    requires ValidConfig(cfg) && IsQuery(b) && Uncached(cfg, b).Reply?
    ensures var out := Uncached(cfg, b).bytes;
            |out| >= 12 && out[..2] == b[..2] && CodeIs(U16(b, 2), U16(out, 2), CodeOf(cfg, QuestionsOf(b)))
  {
    AcceptsExactly(b);
    AcceptedIsLong(b);
    hide *;
    ReplyHeader(cfg, b);
    PlannedCodeOf(cfg, QuestionsOf(b));
    SameId(Uncached(cfg, b).bytes, b);
    FlagsCarryCode(U16(b, 2), PlanFor(cfg, QuestionsOf(b)).rcode);
  }

  lemma PlannedCodeOf(cfg: Config, qs: seq<Question>)
    requires ValidConfig(cfg) && PlanFor(cfg, qs).Respond?
    ensures PlanFor(cfg, qs).rcode in {0, 3, 5} && PlanFor(cfg, qs).rcode == CodeOf(cfg, qs)
  {
    PlanIs(cfg, qs);
    hide PlanFor, AsksElsewhere, SomeCovered, SomeBlocked, EntriesOf;
  }

  lemma SameId(x: Octets, y: Octets)
    requires |x| >= 12 && |y| >= 12
    ensures U16(x, 0) == U16(y, 0) ==> x[..2] == y[..2]
  {
  }

  /** A reply is kept exactly when it answers a question about a covered name or about names nothing blocks. */
  lemma {:induction false} CacheableExactly(cfg: Config, b: Octets)
    requires ValidConfig(cfg)
    ensures Cacheable(cfg, b)
       <==> && IsQuery(b) && Uncached(cfg, b).Reply?
            && var qs := QuestionsOf(b); qs != [] && (SomeCovered(cfg, qs) || !SomeBlocked(cfg, qs))
  {
    AcceptsExactly(b);
    if Accepts(b) {
      AcceptedIsLong(b);
      PlanIs(cfg, QuestionsOf(b));
      NothingCovered(cfg);
      if Uncached(cfg, b).Reply? { ReplyHeader(cfg, b); }
      hide PlanFor, QuestionsOf, Uncached, AsksElsewhere, SomeCovered, SomeBlocked, Accepts, IsQuery, EntriesOf, U16;
    }
  }

  lemma NothingCovered(cfg: Config)
    ensures !SomeCovered(cfg, []) && !SomeBlocked(cfg, [])
  {
  }

  // ---------------------------------------------------------------- which entry answers

  /** The key of the name itself when there is one and the name is no wildcard, else a longest key that covers it. */
  ghost predicate IsMostSpecific(cfg: Config, key: Name, name: Name)
  {
    && key in cfg.hosts && Covers(key, name)
    && if name in cfg.hosts && !IsWild(name) then key == name
       else forall k :: k in cfg.hosts && Covers(k, name) ==> |k| <= |key|
  }

  /** The records of a question's name are those of a most specific key. */
  lemma {:induction false} HostIsMostSpecific(cfg: Config, q: Question)
    requires HostOf(cfg, q).Some?
    ensures exists key :: IsMostSpecific(cfg, key, NormalizeHost(q.name)) && HostOf(cfg, q).value == cfg.hosts[key]
  {
    hide NormalizeHost, Covers, IsWild;
    var name := NormalizeHost(q.name);
    FindKeyIsMostSpecific(cfg.hosts, name);
    assert IsMostSpecific(cfg, FindKey(cfg.hosts, name).value, name);
  }

  // ---------------------------------------------------------------- the size of a reply, and when there is none

  function NameSize(labels: seq<Name>): nat
  {
    if labels == [] then 1 else 1 + |labels[0]| + NameSize(labels[1..])
  }

  function QuestionsSize(qs: seq<Question>): nat
  {
    if qs == [] then 0 else NameSize(Written(qs[0].name)) + 4 + QuestionsSize(qs[1..])
  }

  function RecordsSize(rs: seq<Record>): nat
    requires ValidRecords(rs) && forall i :: 0 <= i < |rs| ==> Sendable(rs[i])
  {
    if rs == [] then 0
    else
      assert Sendable(rs[0]);
      12 + |RData(rs[0]).value| + RecordsSize(rs[1..])
  }

  /** The header, the questions and the records sent. */
  ghost function ReplySize(cfg: Config, qs: seq<Question>): nat
    requires ValidConfig(cfg)
  {
    MatchedIsValid(cfg, qs);
    12 + QuestionsSize(qs) + RecordsSize(Sent(Matched(cfg, qs)))
  }

  /** The same without the rdata of the last record. */
  ghost function CoreSize(cfg: Config, qs: seq<Question>): int
    requires ValidConfig(cfg)
  {
    MatchedIsValid(cfg, qs);
    var rs := Sent(Matched(cfg, qs));
    ReplySize(cfg, qs) - if rs == [] then 0 else |RData(rs[|rs| - 1]).value|
  }

  lemma {:induction false} LabelsSize(labels: seq<Name>)
    requires LabelsFit(labels, 255)
    ensures |EncodeLabels(labels)| == NameSize(labels)
  {
    if labels != [] { LabelsSize(labels[1..]); }
  }

  lemma {:induction false} QuestionsHaveSize(qs: seq<Question>)
    requires AllEncodable(qs)
    ensures |QuestionsOctets(qs)| == QuestionsSize(qs)
  {
    if qs != [] {
      QuestionsHaveSize(qs[1..]);
      LabelsSize(Written(qs[0].name));
    }
  }

  lemma {:induction false} RecordsHaveSize(rs: seq<Record>)
    requires ValidRecords(rs) && forall i :: 0 <= i < |rs| ==> Sendable(rs[i])
    ensures EntriesOf(rs).Some?
    ensures var es := EntriesOf(rs).value;
            && |es| == |rs| && (forall i :: 0 <= i < |es| ==> |es[i]| >= 12)
            && |AnswersOctets(es)| == RecordsSize(rs)
            && LastRdata(es) == if rs == [] then 0 else |RData(rs[|rs| - 1]).value|
  {
    hide EntryOf, ValidRecord, RData;
    if rs != [] {
      var rest := rs[1..];
      RecordsHaveSize(rest);
      EntryIsLong(rs[0]);
      var e, es := EntryOf(rs[0]).value, EntriesOf(rest).value;
      assert EntriesOf(rs).value == [e] + es && ([e] + es)[1..] == es;
      assert rest != [] ==> rest[|rest| - 1] == rs[|rs| - 1];
    }
  }

  /** The entries the builder keeps are those of the records sent, and take as much room. */
  lemma {:induction false} KeptHaveSize(qs: seq<Question>, rs: seq<Record>, es: seq<Octets>)
    requires AllEncodable(qs) && ValidRecords(rs) && EntriesOf(rs) == Some(es)
    ensures EntriesOf(Sent(rs)) == Some(Kept(es))
    ensures WholeSize(qs, Kept(es)) == 12 + QuestionsSize(qs) + RecordsSize(Sent(rs))
    ensures LastRdata(Kept(es)) == if Sent(rs) == [] then 0 else |RData(Sent(rs)[|Sent(rs)| - 1]).value|
  {
    hide EntriesOf, Sent, ValidRecords, Kept, LastRdata, QuestionsSize, RecordsSize, RData, Sendable;
    hide QuestionsOctets, AnswersOctets, AllEncodable;
    KeptAreSent(rs);
    QuestionsHaveSize(qs);
    RecordsHaveSize(Sent(rs));
  }

  lemma PlannedEntries(cfg: Config, qs: seq<Question>)
    requires ValidConfig(cfg) && PlanFor(cfg, qs).Respond?
    ensures ValidRecords(Matched(cfg, qs)) && EntriesOf(Matched(cfg, qs)) == Some(PlanFor(cfg, qs).entries)
  {
    PlanIs(cfg, qs);
    hide PlanFor, SomeCovered, SomeBlocked, AsksElsewhere, Matched, EntriesOf;
  }

  lemma {:induction false} AskedAreWritable(b: Octets)
    requires |b| >= 12
    ensures Writable(QuestionsOf(b)) && AllEncodable(QuestionsOf(b)) && |QuestionsOf(b)| < 0x1_0000
  {
    ExtractedAreWritable(b, 12, U16(b, 4));
    WritableIsEncodable(QuestionsOf(b));
  }

  /** Whatever is planned, the builder is given the questions of the query and keeps the entries of the records sent. */
  lemma {:induction false} PlannedSize(cfg: Config, b: Octets)
    requires ValidConfig(cfg) && Accepts(b) && |b| >= 12 && PlanFor(cfg, QuestionsOf(b)).Respond?
    ensures var qs, es := QuestionsOf(b), PlanFor(cfg, QuestionsOf(b)).entries;
            && ValidRecords(Matched(cfg, qs)) && AllEncodable(qs) && Writable(qs) && |qs| < 0x1_0000
            && EntriesOf(Sent(Matched(cfg, qs))) == Some(Kept(es))
            && WholeSize(qs, Kept(es)) == ReplySize(cfg, qs)
            && WholeSize(qs, Kept(es)) - LastRdata(Kept(es)) == CoreSize(cfg, qs)
  {
    var qs := QuestionsOf(b);
    AskedAreWritable(b);
    PlannedEntries(cfg, qs);
    KeptHaveSize(qs, Matched(cfg, qs), PlanFor(cfg, qs).entries);
    hide QuestionsOf, PlanFor, Matched, EntriesOf, Accepts, Sent, ValidRecords, Kept, LastRdata, QuestionsSize;
    hide RecordsSize, RData, Sendable, WholeSize, ValidConfig;
  }

  lemma {:induction false} RespondThrows(cfg: Config, b: Octets)
    requires ValidConfig(cfg) && Accepts(b) && |b| >= 12 && PlanFor(cfg, QuestionsOf(b)).Respond?
    ensures Uncached(cfg, b) == Thrown <==> CoreSize(cfg, QuestionsOf(b)) > 4096
  {
    var qs, plan := QuestionsOf(b), PlanFor(cfg, QuestionsOf(b));
    PlannedSize(cfg, b);
    AssembleExact(U16(b, 0), U16(b, 2), plan.rcode, qs, plan.entries);
    hide QuestionsOf, PlanFor, Matched, EntriesOf, Assemble, CoreSize, ReplySize, WholeSize, Kept, U16, LastRdata;
    hide AllEncodable, Writable, Sent, ValidConfig, ValidRecords;
  }

  lemma ForwardPlan(cfg: Config, b: Octets)
    requires ValidConfig(cfg) && Accepts(b) && |b| >= 12
    ensures var plan := PlanFor(cfg, QuestionsOf(b));
            && (!plan.Fail? ==> (plan.Forward? <==> AsksElsewhere(cfg, QuestionsOf(b))))
            && (plan.Forward? ==> Uncached(cfg, b) == Null)
  {
    PlanIs(cfg, QuestionsOf(b));
    NothingUnknown(cfg, QuestionsOf(b));
    hide PlanFor, QuestionsOf, Assemble, AsksElsewhere, SomeCovered, SomeBlocked, Accepts, U16, EntriesOf, Matched;
  }

  lemma NoException(cfg: Config, b: Octets)
    requires ValidConfig(cfg) && !Accepts(b)
    ensures Uncached(cfg, b) != Thrown
  {
  }

  /** There is an exception exactly when a record that matches is TXT whose length octets find no room, or when the
      query is not forwarded and the reply does not fit 4096 octets even without its last rdata. */
  lemma {:induction false} ThrowsExactly(cfg: Config, b: Octets)
    requires ValidConfig(cfg)
    ensures IsQuery(b) ==> ValidRecords(Matched(cfg, QuestionsOf(b)))
    ensures Uncached(cfg, b) == Thrown
       <==> && IsQuery(b)
            && var qs, rs := QuestionsOf(b), Matched(cfg, QuestionsOf(b));
               || (exists i :: 0 <= i < |rs| && rs[i].TXT? && !TxtEncodes(rs[i].data))
               || (!AsksElsewhere(cfg, qs) && CoreSize(cfg, qs) > 4096)
  {
    hide *;
    AcceptsExactly(b);
    if Accepts(b) {
      AcceptedIsLong(b);
      OneRecordFailsTheReply(cfg, b);
      ForwardPlan(cfg, b);
      if PlanFor(cfg, QuestionsOf(b)).Respond? { RespondThrows(cfg, b); }
    } else {
      NoException(cfg, b);
    }
  }

  // ---------------------------------------------------------------- what every reply says

  /** What a client decodes: the questions in lower case and of class IN, no authority and no additional records,
      exactly the records, each under the first question's name, and their addresses. */
  ghost predicate Says(out: Octets, qs: seq<Question>, records: seq<Record>)
    requires ValidRecords(records) && forall i :: 0 <= i < |records| ==> Sendable(records[i])
  {
    && |out| >= 12
    && U16(out, 4) == |qs| && U16(out, 6) == |records| && U16(out, 8) == 0 && U16(out, 10) == 0
    && AsksAgain(QuestionsOf(out), qs) && AllOfClassIn(out)
    && Carries(RecordsFrom(out, SkipQuestions(out, 12, |qs|), |records|),
               if qs == [] then [] else Join(Written(qs[0].name)), records)
    && IpsOf(out) == AddressesIn(records)
  }

  ghost predicate AllOfClassIn(b: Octets)
    requires |b| >= 12
  {
    var qs := QuestionsOf(b);
    forall i :: 0 <= i < |qs| ==> 2 <= qs[i].next <= |b| && U16(b, qs[i].next - 2) == 1
  }

  lemma {:induction false} PacketClasses(b: Octets, qs: seq<Question>)
    requires |b| >= 12 && Writable(qs) && AllEncodable(qs) && U16(b, 4) == |qs| && At(b, 12, QuestionsOctets(qs))
    ensures AllOfClassIn(b)
  {
    hide At, Section, QuestionsOctets, U16, Writable, AllEncodable, QuestionsFrom, ReadBack;
    QuestionsOctetsAreSection(qs);
    SectionReadsBack(b, 12, Rewritten(qs));
    ClassesStand(b, 12, Rewritten(qs));
  }

  lemma {:induction false} PacketSays(id: u16, flags: u16, qs: seq<Question>, records: seq<Record>)
    requires Writable(qs) && |qs| < 0x1_0000
    requires ValidRecords(records) && (forall i :: 0 <= i < |records| ==> Sendable(records[i])) && |records| < 0x1_0000
    requires qs == [] ==> records == []
    ensures AllEncodable(qs) && EntriesOf(records).Some? && |EntriesOf(records).value| == |records|
    ensures Says(Packet(id, flags, qs, EntriesOf(records).value), qs, records)
    ensures U16(Packet(id, flags, qs, EntriesOf(records).value), 0) == id
  {
    hide Sendable, ValidRecord, EntriesOf, U16, QuestionsFrom, RecordsFrom, IpsFrom, Written, Join, Carries;
    hide SkipQuestions, QuestionsOctets, AnswersOctets, Packet, At, Writable, AsksAgain, AddressesIn, AllOfClassIn;
    WritableIsEncodable(qs);
    SentOnTheWire([], records);
    PacketLayout(id, flags, qs, EntriesOf(records).value);
    PacketClasses(Packet(id, flags, qs, EntriesOf(records).value), qs);
    if qs != [] {
      PacketAnswers(id, flags, qs, records);
    } else {
      NothingSaid(Packet(id, flags, qs, EntriesOf(records).value));
    }
  }

  lemma NothingSaid(out: Octets)
    requires |out| >= 12 && U16(out, 4) == 0 && U16(out, 6) == 0
    ensures AsksAgain(QuestionsOf(out), []) && IpsOf(out) == AddressesIn([])
    ensures Carries(RecordsFrom(out, SkipQuestions(out, 12, 0), 0), [], [])
  {
  }

  lemma ReplyIsAssembled(cfg: Config, b: Octets)
    requires ValidConfig(cfg) && Accepts(b) && |b| >= 12 && Uncached(cfg, b).Reply?
    ensures var qs, plan := QuestionsOf(b), PlanFor(cfg, QuestionsOf(b));
            && plan.Respond?
            && Assemble(U16(b, 0), U16(b, 2), plan.rcode, qs, plan.entries) == Some(Uncached(cfg, b).bytes)
  {
    hide PlanFor, QuestionsOf, Assemble, U16;
  }

  lemma {:induction false} AssembledWhole(id: u16, flags: u16, rcode: u16, qs: seq<Question>, es: seq<Octets>,
                                          out: Octets)
    requires |qs| < 0x1_0000 && AllEncodable(qs) && WholeSize(qs, Kept(es)) <= 4096
    requires Assemble(id, flags, rcode, qs, es) == Some(out)
    ensures |Kept(es)| < 0x1_0000 && out == Packet(id, ResponseFlags(flags, rcode), qs, Kept(es))
    ensures |out| == WholeSize(qs, Kept(es))
  {
    AssembleExact(id, flags, rcode, qs, es);
    hide Assemble, WholeSize, Kept, Packet, ResponseFlags, AllEncodable, LastRdata;
  }

  /** Every reply that fits the buffer, with or without answers and whatever its code, is the header, the questions and
      the records sent, nothing more, and says exactly that. */
  lemma {:induction false} RepliesReadBack(cfg: Config, b: Octets)
    requires ValidConfig(cfg) && IsQuery(b) && Uncached(cfg, b).Reply? && ReplySize(cfg, QuestionsOf(b)) <= 4096
    ensures ValidRecords(Matched(cfg, QuestionsOf(b)))
    ensures Says(Uncached(cfg, b).bytes, QuestionsOf(b), Sent(Matched(cfg, QuestionsOf(b))))
    ensures |Uncached(cfg, b).bytes| == ReplySize(cfg, QuestionsOf(b))
  {
    hide *;
    AcceptsExactly(b);
    AcceptedIsLong(b);
    ReplyIsAssembled(cfg, b);
    PlannedSize(cfg, b);
    var qs, plan := QuestionsOf(b), PlanFor(cfg, QuestionsOf(b));
    AssembledWhole(U16(b, 0), U16(b, 2), plan.rcode, qs, plan.entries, Uncached(cfg, b).bytes);
    PlannedEntries(cfg, qs);
    KeptAreSent(Matched(cfg, qs));
    NoQuestionsNoRecords(cfg, qs);
    SentAreSendable(Matched(cfg, qs));
    PacketSays(U16(b, 0), ResponseFlags(U16(b, 2), plan.rcode), qs, Sent(Matched(cfg, qs)));
  }

  lemma NoQuestionsNoRecords(cfg: Config, qs: seq<Question>)
    requires ValidRecords(Matched(cfg, qs))
    ensures qs == [] ==> Sent(Matched(cfg, qs)) == []
  {
  }
}
