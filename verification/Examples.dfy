/** Concrete configurations and queries that show the exact conditions. */
module Examples {
  import opened Bytes
  import opened IpAddress
  import opened Text
  import opened WireFormat
  import opened Questions
  import opened Records
  import opened Responses
  import opened ResponseReading
  import HostLookup
  import opened Resolver
  import opened AnswerRoundTrip
  import OrderedMap
  import CacheKey
  import TtlRewrite
  import opened CacheRuns

  const LETTER_A: byte := 0x61
  const LETTER_B: byte := 0x62

  // ---------------------------------------------------------------- queries for names of one letter

  /** A question for the one-letter name, class IN. */
  function Asked(letter: byte, qtype: byte): Octets
  {
    [1, letter, 0, 0, qtype, 0, 1]
  }

  function QueryHeader(id: byte, count: byte): Octets
  {
    [0, id, 1, 0, 0, count, 0, 0, 0, 0, 0, 0]
  }

  function Query(id: byte, letter: byte, qtype: byte): Octets
  {
    QueryHeader(id, 1) + Asked(letter, qtype)
  }

  /** Two questions for addresses. */
  const TWO_QUESTIONS: Octets := QueryHeader(7, 2) + Asked(LETTER_A, 1) + Asked(LETTER_B, 1)

  lemma AskedParses(b: Octets, pos: nat, letter: byte, qtype: byte)
    requires pos + 7 <= |b| && b[pos..pos + 7] == Asked(letter, qtype)
    ensures QuestionAt(b, pos) == Some(Question([letter], qtype, pos + 7))
  {
    var q := WireQuestion([[letter]], qtype, CLASS_IN);
    assert [[letter]][1..] == [] && EncodeLabels([]) == [0];
    assert EncodeLabels([[letter]]) == [1, letter, 0];
    assert EncodeQuestion(q) == Asked(letter, qtype);
    hide QuestionAt, EncodeLabels, EncodeQuestion;
    QuestionReadsBack(b, pos, q);
  }

  lemma QueryParses(id: byte, letter: byte, qtype: byte)
    ensures var b := Query(id, letter, qtype);
            Accepts(b) && U16(b, 0) == id && QuestionsOf(b) == [Question([letter], qtype, 19)]
  {
    var b := Query(id, letter, qtype);
    assert b[12..19] == Asked(letter, qtype);
    AskedParses(b, 12, letter, qtype);
    hide QuestionAt;
    assert QuestionsFrom(b, 19, 0) == [];
  }

  lemma TwoQuestionsParse()
    ensures Accepts(TWO_QUESTIONS)
    ensures QuestionsOf(TWO_QUESTIONS) == [Question([LETTER_A], 1, 19), Question([LETTER_B], 1, 26)]
  {
    var b := TWO_QUESTIONS;
    assert b[12..19] == Asked(LETTER_A, 1) && b[19..26] == Asked(LETTER_B, 1);
    AskedParses(b, 12, LETTER_A, 1);
    AskedParses(b, 19, LETTER_B, 1);
    hide QuestionAt;
    assert QuestionsFrom(b, 26, 0) == [];
  }

  lemma LetterName(letter: byte)
    requires IsLower(letter)
    ensures Encodable([letter]) && |EncodeName([letter])| == 3 && Written([letter]) == [[letter]]
    ensures Join(Written([letter])) == [letter]
  {
    assert Lower([letter]) == [letter] && NoDot([letter]);
    SplitAtomic([letter]);
    NonEmptyId([[letter]]);
    assert EncodeLabels([[letter]]) == [1] + [letter] + EncodeLabels([[letter]][1..]);
  }

  lemma LetterHost(cfg: Config, q: Question, letter: byte)
    requires IsLower(letter) && q.name == [letter] && [letter] in cfg.hosts
    ensures HostOf(cfg, q) == Some(cfg.hosts[[letter]])
  {
    assert Lower([letter]) == [letter];
    assert !HostLookup.IsWild([letter]);
  }

  // ---------------------------------------------------------------- configurations

  function OneHost(records: seq<Record>, ttlMs: nat): Config
  {
    Config(map[[LETTER_A] := records], false, None, 1, ttlMs)
  }

  const ADDRESS: Record := A([192, 0, 2, 1])

  const TWO_HOSTS: Config := Config(map[[LETTER_A] := [ADDRESS], [LETTER_B] := [A([192, 0, 2, 2])]], false, None, 1, 0)

  lemma OneHostIsValid(records: seq<Record>, ttlMs: nat)
    requires ValidRecords(records) && ttlMs <= 3600000
    ensures ValidConfig(OneHost(records, ttlMs))
  {
    assert Lower([LETTER_A]) == [LETTER_A];
  }

  // ---------------------------------------------------------------- one record, one question

  lemma OneMatch(cfg: Config, q: Question, r: Record)
    requires HostOf(cfg, q) == Some([r]) && q.qtype == TypeNumber(r) && ValidRecord(r)
    ensures Matched(cfg, [q]) == [r]
    ensures EntriesOf([r]) == if EntryOf(r).Some? then Some([EntryOf(r).value]) else None
  {
    hide HostOf, EntryOf, TypeNumber;
    assert [r][1..] == [] && [q][1..] == [];
    assert OfType([r], q.qtype) == [r];
    NoEntries();
    assert EntryOf(r).Some? ==> [EntryOf(r).value] + [] == [EntryOf(r).value];
  }

  lemma OnePlan(cfg: Config, q: Question, r: Record)
    requires ValidConfig(cfg) && HostOf(cfg, q) == Some([r]) && q.qtype == TypeNumber(r) && ValidRecord(r)
    requires EntryOf(r).Some?
    ensures PlanFor(cfg, [q]) == Respond(NOERROR, [EntryOf(r).value], true)
  {
    OneMatch(cfg, q, r);
    hide HostOf, EntryOf, TypeNumber, Matched, Known, Denied;
    CollectIsMatched(cfg, [q], []);
    assert [] + [EntryOf(r).value] == [EntryOf(r).value];
  }

  lemma OneAnswerSize(q: Question, e: Octets)
    requires IsLower(LETTER_A) && q.name == [LETTER_A] && |e| >= 12
    ensures Kept([e]) == [e] && AllEncodable([q]) && WholeSize([q], [e]) == 21 + |e| && LastRdata([e]) == |e| - 10
  {
    LetterName(LETTER_A);
    hide EncodeName, Encodable;
    assert [e][1..] == [] && [q][1..] == [];
    assert QuestionsOctets([q]) == QuestionOctets(q) + QuestionsOctets([]);
    assert AnswersOctets([e]) == [0xc0, 0x0c] + e + AnswersOctets([]);
  }

  /** The reply to one question with one matching record. */
  lemma OneReply(cfg: Config, id: byte, r: Record)
    requires ValidConfig(cfg) && [LETTER_A] in cfg.hosts && cfg.hosts[[LETTER_A]] == [r]
    requires TypeNumber(r) < 256 && ValidRecord(r) && Sendable(r)
    ensures var b := Query(id, LETTER_A, TypeNumber(r));
            && Accepts(b) && QuestionsOf(b) == [Question([LETTER_A], TypeNumber(r), 19)]
            && PlanFor(cfg, QuestionsOf(b)).Respond? && PlanFor(cfg, QuestionsOf(b)).cacheable
            && Positive(cfg, b) && |Whole(cfg, b)| == 31 + |RData(r).value|
  {
    var b, q := Query(id, LETTER_A, TypeNumber(r)), Question([LETTER_A], TypeNumber(r), 19);
    QueryParses(id, LETTER_A, TypeNumber(r));
    LetterHost(cfg, q, LETTER_A);
    RDataIsShort(r);
    var e := EntryOf(r).value;
    assert |e| == 10 + |RData(r).value|;
    OnePlan(cfg, q, r);
    OneAnswerSize(q, e);
    AssembleExact(U16(b, 0), U16(b, 2), NOERROR, [q], [e]);
    hide HostOf, EntryOf, PlanFor, QuestionsOf, Accepts, Kept, QuestionsOctets, AnswersOctets, AllEncodable, AnswersFit;
    WholeIs(cfg, b);
  }

  lemma AddressIsSendable()
    ensures ValidRecord(ADDRESS) && Sendable(ADDRESS) && RData(ADDRESS) == Some([192, 0, 2, 1])
  {
  }

  /** The conditions of the round trip can be met: this query is answered, and the address extraction finds the
      configured address. */
  lemma {:induction false} QueryIsAnswered()
    ensures var cfg, b := OneHost([ADDRESS], 0), Query(7, LETTER_A, 1);
            && ValidConfig(cfg) && Positive(cfg, b) && |Whole(cfg, b)| == 35
            && IpsOf(Whole(cfg, b)) == [IpOf([192, 0, 2, 1])]
  {
    var cfg, b := OneHost([ADDRESS], 0), Query(7, LETTER_A, 1);
    AddressIsSendable();
    OneHostIsValid([ADDRESS], 0);
    OneReply(cfg, 7, ADDRESS);
    ResolvedAnswersReadBack(cfg, b);
    var q := Question([LETTER_A], 1, 19);
    LetterHost(cfg, q, LETTER_A);
    hide IpOf, IpsOf, Positive, Whole, QuestionsOf, HostOf;
    assert [q][1..] == [] && [ADDRESS][1..] == [];
    assert AddressesIn([ADDRESS]) == [IpOf([192, 0, 2, 1])];
    assert ConfiguredIps(cfg, [q]) == AddressesIn([ADDRESS]) + [];
  }

  // ---------------------------------------------------------------- TXT records over the packet size

  const LONG_TEXT: Octets := seq(255, _ => 0x78)

  function LongTxt(n: nat): Record
  {
    TXT(seq(n, _ => LONG_TEXT))
  }

  lemma {:induction false} LongTxtSize(n: nat)
    ensures ValidRecord(LongTxt(n)) && |TxtOctets(LongTxt(n).data)| == 256 * n
  {
    if n > 0 {
      LongTxtSize(n - 1);
      assert LongTxt(n).data[1..] == LongTxt(n - 1).data;
    }
  }

  /** Seventeen strings of 255 octets, which the schema admits: the reply to a TXT question is an exception. */
  lemma {:induction false} SeventeenStringsThrow()
    ensures ValidRecord(LongTxt(17)) && RData(LongTxt(17)).None? && !Sendable(LongTxt(17))
    ensures var cfg, b := OneHost([LongTxt(17)], 0), Query(7, LETTER_A, 16);
            ValidConfig(cfg) && Accepts(b) && Uncached(cfg, b) == Thrown
  {
    var r, cfg, b := LongTxt(17), OneHost([LongTxt(17)], 0), Query(7, LETTER_A, 16);
    LongTxtSize(17);
    OneHostIsValid([r], 0);
    NeverSent(r);
    QueryParses(7, LETTER_A, 16);
    var q := Question([LETTER_A], 16, 19);
    LetterHost(cfg, q, LETTER_A);
    OneMatch(cfg, q, r);
    hide Accepts, QuestionsOf, HostOf, LongTxt, RData, EntriesOf, Matched, Uncached, PlanFor;
    assert Matched(cfg, [q])[0] == r;
    OneRecordFailsTheReply(cfg, b);
  }

  /** Sixteen such strings: the rdata is encoded whole, but the reply is cut at 4096 of its 4127 octets. */
  lemma {:induction false} SixteenStringsAreCut()
    ensures var cfg, b := OneHost([LongTxt(16)], 0), Query(7, LETTER_A, 16);
            && ValidConfig(cfg) && Positive(cfg, b) && |Whole(cfg, b)| == 4127
            && Uncached(cfg, b) == Reply(Whole(cfg, b)[..4096])
  {
    var r, cfg, b := LongTxt(16), OneHost([LongTxt(16)], 0), Query(7, LETTER_A, 16);
    LongTxtSize(16);
    OneHostIsValid([r], 0);
    NeverSent(r);
    assert TypeNumber(r) == 16 && |RData(r).value| == 4096;
    hide LongTxt, TxtOctets, RData, Positive, Whole, Uncached, PlanFor, QuestionsOf;
    OneReply(cfg, 7, r);
    PositivePlan(cfg, b);
    hide *;
    ClipCuts(Whole(cfg, b), PACKET_SIZE);
  }

  lemma ClipCuts(s: Octets, cap: nat)
    requires |s| > cap
    ensures Clip(s, cap) == s[..cap]
  {
  }

  // ---------------------------------------------------------------- two questions

  const OTHER_ADDRESS: Record := A([192, 0, 2, 2])

  lemma TwoHostsFound()
    ensures ValidConfig(TWO_HOSTS)
    ensures HostOf(TWO_HOSTS, Question([LETTER_A], 1, 19)) == Some([ADDRESS])
    ensures HostOf(TWO_HOSTS, Question([LETTER_B], 1, 26)) == Some([OTHER_ADDRESS])
  {
    assert Lower([LETTER_A]) == [LETTER_A] && Lower([LETTER_B]) == [LETTER_B];
    LetterHost(TWO_HOSTS, Question([LETTER_A], 1, 19), LETTER_A);
    LetterHost(TWO_HOSTS, Question([LETTER_B], 1, 26), LETTER_B);
  }

  lemma TwoLetters()
    ensures Join(Written([LETTER_A])) == [LETTER_A] && Join(Written([LETTER_B])) == [LETTER_B]
  {
    LetterName(LETTER_A);
    LetterName(LETTER_B);
  }

  lemma TwoSendable()
    ensures ValidRecord(ADDRESS) && Sendable(ADDRESS) && TypeNumber(ADDRESS) == 1
    ensures ValidRecord(OTHER_ADDRESS) && Sendable(OTHER_ADDRESS) && TypeNumber(OTHER_ADDRESS) == 1
  {
  }

  lemma TwoMatched()
    ensures var qs := [Question([LETTER_A], 1, 19), Question([LETTER_B], 1, 26)];
            && ValidConfig(TWO_HOSTS)
            && Matched(TWO_HOSTS, qs) == [ADDRESS, OTHER_ADDRESS]
            && Askers(TWO_HOSTS, qs) == [[LETTER_A], [LETTER_B]]
  {
    hide *;
    var p, q := Question([LETTER_A], 1, 19), Question([LETTER_B], 1, 26);
    TwoHostsFound();
    TwoLetters();
    TwoSendable();
    AskersStep(TWO_HOSTS, q, OTHER_ADDRESS, []);
    AskersStep(TWO_HOSTS, p, ADDRESS, [q]);
    assert [p] + [q] == [p, q] && [q] + [] == [q];
    assert [[LETTER_A]] + ([[LETTER_B]] + []) == [[LETTER_A], [LETTER_B]];
    assert [ADDRESS] + ([OTHER_ADDRESS] + []) == [ADDRESS, OTHER_ADDRESS];
  }

  lemma AskersStep(cfg: Config, q: Question, r: Record, rest: seq<Question>)
    requires ValidConfig(cfg) && HostOf(cfg, q) == Some([r]) && q.qtype == TypeNumber(r)
    requires ValidRecord(r) && Sendable(r) && Join(Written(q.name)) == q.name
    ensures Askers(cfg, [q] + rest) == [q.name] + Askers(cfg, rest)
    ensures Matched(cfg, [q] + rest) == [r] + Matched(cfg, rest)
    ensures rest == [] ==> Askers(cfg, rest) == [] && Matched(cfg, rest) == []
  {
    OneSentFor(cfg, q, r);
    hide HostOf, Written, Join, Sendable, TypeNumber, ValidRecord, SentFor, OfType;
    assert ([q] + rest)[0] == q && ([q] + rest)[1..] == rest;
    assert Repeat(q.name, 1) == [q.name];
  }

  lemma OneSentFor(cfg: Config, q: Question, r: Record)
    requires HostOf(cfg, q) == Some([r]) && q.qtype == TypeNumber(r) && ValidRecord(r) && Sendable(r)
    ensures OfType([r], q.qtype) == [r] && SentFor(cfg, q) == [r]
  {
    hide HostOf, Sendable, TypeNumber, ValidRecord;
    assert [r][1..] == [];
    assert OfType([r], q.qtype) == [r];
    assert Sent([r]) == [r] + Sent([]);
  }

  lemma TwoEntries()
    ensures ValidRecord(ADDRESS) && ValidRecord(OTHER_ADDRESS) && ValidRecords([ADDRESS, OTHER_ADDRESS])
    ensures EntryOf(ADDRESS).Some? && EntryOf(OTHER_ADDRESS).Some?
    ensures EntriesOf([ADDRESS, OTHER_ADDRESS]) == Some([EntryOf(ADDRESS).value, EntryOf(OTHER_ADDRESS).value])
    ensures |EntryOf(ADDRESS).value| == 14 == |EntryOf(OTHER_ADDRESS).value|
  {
    var a, b := EntryOf(ADDRESS).value, EntryOf(OTHER_ADDRESS).value;
    hide EntryOf;
    assert [ADDRESS, OTHER_ADDRESS][1..] == [OTHER_ADDRESS] && [OTHER_ADDRESS][1..] == [];
    NoEntries();
    assert EntriesOf([OTHER_ADDRESS]) == Some([b] + []);
    assert [a] + ([b] + []) == [a, b];
  }

  lemma TwoAnswersFit(a: Octets, b: Octets)
    requires |a| == 14 && |b| == 14
    ensures var qs := [Question([LETTER_A], 1, 19), Question([LETTER_B], 1, 26)];
            Kept([a, b]) == [a, b] && AllEncodable(qs) && WholeSize(qs, [a, b]) == 58
  {
    var p, q := Question([LETTER_A], 1, 19), Question([LETTER_B], 1, 26);
    LetterName(LETTER_A);
    LetterName(LETTER_B);
    hide EncodeName, Encodable;
    assert [a, b][1..] == [b] && [b][1..] == [] && [p, q][1..] == [q] && [q][1..] == [];
    assert QuestionsOctets([q]) == QuestionOctets(q) + QuestionsOctets([]);
    assert QuestionsOctets([p, q]) == QuestionOctets(p) + QuestionsOctets([q]);
    assert |QuestionsOctets([q])| == 7 && |QuestionsOctets([p, q])| == 14;
    assert AllEncodable([p, q]);
    hide QuestionsOctets, AllEncodable, QuestionOctets;
    assert AnswersOctets([b]) == [0xc0, 0x0c] + b + AnswersOctets([]);
    assert AnswersOctets([a, b]) == [0xc0, 0x0c] + a + AnswersOctets([b]);
    assert |AnswersOctets([a, b])| == 32;
    assert Kept([b]) == [b] + Kept([]);
    assert Kept([a, b]) == [a] + Kept([b]);
  }

  lemma TwoAnswers()
    ensures ValidConfig(TWO_HOSTS) && Positive(TWO_HOSTS, TWO_QUESTIONS) && |Whole(TWO_HOSTS, TWO_QUESTIONS)| == 58
  {
    assert 58 <= PACKET_SIZE;
    hide *;
    TwoQuestionsParse();
    TwoMatched();
    TwoSendable();
    TwoEntries();
    TwoAnswersFit(EntryOf(ADDRESS).value, EntryOf(OTHER_ADDRESS).value);
    MatchesMakeReply(TWO_HOSTS, TWO_QUESTIONS, [EntryOf(ADDRESS).value, EntryOf(OTHER_ADDRESS).value], 58);
  }

  /** Matching records whose entries fit make a positive reply. */
  lemma MatchesMakeReply(cfg: Config, b: Octets, es: seq<Octets>, size: nat)
    requires ValidConfig(cfg) && |b| >= 12 && Accepts(b) && es != [] && size <= PACKET_SIZE
    requires |QuestionsOf(b)| < 0x1_0000
    requires ValidRecords(Matched(cfg, QuestionsOf(b))) && EntriesOf(Matched(cfg, QuestionsOf(b))) == Some(es)
    requires QuestionsOf(b) != [] && AllEncodable(QuestionsOf(b)) && Kept(es) == es
    requires WholeSize(QuestionsOf(b), es) == size
    ensures Positive(cfg, b) && |Whole(cfg, b)| == size
  {
    hide *;
    var qs := QuestionsOf(b);
    MatchesArePlanned(cfg, qs, es);
    FittingBuilds(qs, es);
    PlannedIsPositive(cfg, b, es);
    WholeIs(cfg, b);
    SizeOfPacket(U16(b, 0), ResponseFlags(U16(b, 2), NOERROR), qs, es);
  }

  lemma MatchesArePlanned(cfg: Config, qs: seq<Question>, es: seq<Octets>)
    requires ValidConfig(cfg) && qs != [] && es != [] && ValidRecords(Matched(cfg, qs))
    requires EntriesOf(Matched(cfg, qs)) == Some(es)
    ensures PlanFor(cfg, qs) == Respond(NOERROR, es, true)
  {
    CollectIsMatched(cfg, qs, []);
    assert [] + es == es;
    hide Matched, Collect, EntriesOf, Known, Denied;
  }

  lemma FittingBuilds(qs: seq<Question>, es: seq<Octets>)
    requires AllEncodable(qs) && WholeSize(qs, es) <= PACKET_SIZE && Kept(es) == es
    ensures Builds(qs, Kept(es))
  {
    hide QuestionsOctets, AnswersOctets, AllEncodable, Kept;
    AnswersFitExactly(12 + |QuestionsOctets(qs)|, es);
  }

  lemma PlannedIsPositive(cfg: Config, b: Octets, es: seq<Octets>)
    requires ValidConfig(cfg) && Accepts(b) && |b| >= 12 && PlanFor(cfg, QuestionsOf(b)) == Respond(NOERROR, es, true)
    requires es != [] && Builds(QuestionsOf(b), Kept(es))
    ensures Positive(cfg, b)
  {
    hide PlanFor, QuestionsOf, Builds, Kept;
  }

  lemma SizeOfPacket(id: u16, flags: u16, qs: seq<Question>, es: seq<Octets>)
    requires AllEncodable(qs) && |qs| < 0x1_0000 && |es| < 0x1_0000
    ensures |Packet(id, flags, qs, es)| == WholeSize(qs, es)
  {
    hide QuestionsOctets, AnswersOctets, AllEncodable;
  }

  /** Two questions, for "a" and for "b": both addresses are sent, and both are said to belong to "a". */
  lemma {:induction false} SecondAnswerIsMisnamed()
    ensures var cfg, b := TWO_HOSTS, TWO_QUESTIONS;
            && ValidConfig(cfg) && Positive(cfg, b) && |Whole(cfg, b)| <= PACKET_SIZE
            && Askers(cfg, QuestionsOf(b)) == [[LETTER_A], [LETTER_B]]
            && var rrs := RecordsFrom(Whole(cfg, b), SkipQuestions(Whole(cfg, b), 12, 2), 2);
               |rrs| == 2 && rrs[0].owner == [LETTER_A] && rrs[1].owner == [LETTER_A]
  {
    TwoAnswers();
    TwoMatched();
    TwoQuestionsParse();
    LetterName(LETTER_A);
    AllOwners(TWO_HOSTS, TWO_QUESTIONS);
    hide *;
  }

  // ---------------------------------------------------------------- two calls

  lemma FirstCallFills(cfg: Config, b: Octets, clock: Clock)
    requires ValidConfig(cfg) && cfg.ttlMs > 0 && Cacheable(cfg, b)
    ensures Accepts(b) && Uncached(cfg, b).Reply?
    ensures CacheAfter(cfg, [Call(b, clock)])
         == [(KeyOf(b), CacheEntry(TtlRewrite.Rewrite(Uncached(cfg, b).bytes, StoredTtl(cfg.ttlMs)), clock.insert,
                                   cfg.ttlMs))]
  {
    hide Uncached, QuestionsOf, TtlRewrite.Rewrite, PlanFor;
    var c := Call(b, clock);
    assert [c][..0] == [] && CacheAfter(cfg, []) == [];
    CacheableIsAccepted(cfg, b);
    AcceptedIsLong(b);
    hide Cacheable, CacheKey.RawKey, Accepts;
    var none: Cache := [];
    assert Lookup(none, KeyOf(b), cfg.ttlMs, clock) == (None, none);
    assert EvictTo(none, cfg.maxSize) == none;
    assert OrderedMap.Delete(none, KeyOf(b)) == none;
    assert CacheAfter(cfg, [c]) == ResolveStep(cfg, none, b, clock).1;
  }

  /** Two clients ask for "a" one after the other, with the ids 7 and 8: the second reply carries the id 7. */
  lemma {:induction false} SecondClientGetsFirstId()
    ensures var cfg := OneHost([ADDRESS], 1000);
            var first := Call(Query(7, LETTER_A, 1), Clock(0, 0, 0));
            var second := Call(Query(8, LETTER_A, 1), Clock(1, 1, 1));
            && ValidConfig(cfg) && Hits(cfg, [first], second)
            && U16(second.query, 0) == 8
            && Cached(cfg, [first], second).Reply? && |Cached(cfg, [first], second).bytes| >= 12
            && U16(Cached(cfg, [first], second).bytes, 0) == 7
  {
    hide *;
    FirstIsStored();
    SecondHits();
    OutOfFirst(OneHost([ADDRESS], 1000), Call(Query(7, LETTER_A, 1), Clock(0, 0, 0)),
               Call(Query(8, LETTER_A, 1), Clock(1, 1, 1)));
  }

  /** A hit right after one call is answered by that call's reply. */
  lemma OutOfFirst(cfg: Config, first: Call, second: Call)
    requires ValidConfig(cfg) && Cacheable(cfg, first.query) && Hits(cfg, [first], second)
    ensures |first.query| >= 12 && Cached(cfg, [first], second).Reply? && |Cached(cfg, [first], second).bytes| >= 12
    ensures U16(Cached(cfg, [first], second).bytes, 0) == U16(first.query, 0)
  {
    hide Cacheable, Hits, Cached, Uncached, CacheAfter, FilledBy;
    HitRepeatsEarlierReply(cfg, [first], second);
    var out := Cached(cfg, [first], second);
    var i :| 0 <= i < |[first]| && FilledBy(cfg, [first][i].query, second.query, out);
    CachedReplyKeepsHeader(cfg, first.query, second.query, out);
    ReplyKeepsId(cfg, first.query);
    var was := Uncached(cfg, first.query).bytes;
    assert out.bytes[0] == out.bytes[..4][0] == was[..4][0] && out.bytes[1] == out.bytes[..4][1] == was[..4][1];
  }

  lemma FirstIsStored()
    ensures var cfg, first, second := OneHost([ADDRESS], 1000), Query(7, LETTER_A, 1), Query(8, LETTER_A, 1);
            && ValidConfig(cfg) && Cacheable(cfg, first) && Accepts(first) && Accepts(second)
            && |first| >= 12 && |second| >= 12 && U16(first, 0) == 7 && U16(second, 0) == 8
            && QuestionsOf(first) == QuestionsOf(second)
            && cfg.ttlMs == 1000
  {
    var cfg, b := OneHost([ADDRESS], 1000), Query(7, LETTER_A, 1);
    AddressIsSendable();
    OneHostIsValid([ADDRESS], 1000);
    OneReply(cfg, 7, ADDRESS);
    PositivePlan(cfg, b);
    QueryParses(7, LETTER_A, 1);
    QueryParses(8, LETTER_A, 1);
    AcceptedIsLong(b);
    AcceptedIsLong(Query(8, LETTER_A, 1));
    hide ADDRESS, Query, PlanFor, QuestionsOf, Positive, Whole, Accepts, U16, Uncached;
  }

  lemma SecondHits()
    ensures var cfg := OneHost([ADDRESS], 1000);
            var first := Call(Query(7, LETTER_A, 1), Clock(0, 0, 0));
            var second := Call(Query(8, LETTER_A, 1), Clock(1, 1, 1));
            ValidConfig(cfg) && Hits(cfg, [first], second)
  {
    FirstIsStored();
    var cfg, first := OneHost([ADDRESS], 1000), Call(Query(7, LETTER_A, 1), Clock(0, 0, 0));
    hide OneHost, Query, Uncached, Cacheable, Accepts, QuestionsOf, CacheAfter, ValidConfig, U16;
    FirstCallFills(cfg, first.query, first.clock);
  }

  // ---------------------------------------------------------------- a query with low flag bits

  /** A query for "b" with the flags 0x0104. */
  const LOW_BITS: Octets := [0, 7, 1, 4, 0, 1, 0, 0, 0, 0, 0, 0] + Asked(LETTER_B, 1)

  lemma LowBitsParses()
    ensures Accepts(LOW_BITS) && U16(LOW_BITS, 2) == 0x0104
    ensures QuestionsOf(LOW_BITS) == [Question([LETTER_B], 1, 19)]
  {
    var b := LOW_BITS;
    assert b[12..19] == Asked(LETTER_B, 1);
    AskedParses(b, 12, LETTER_B, 1);
    hide QuestionAt;
    assert QuestionsFrom(b, 19, 0) == [];
  }

  lemma UnknownName(cfg: Config, q: Question)
    requires cfg.hosts.Keys == {[LETTER_A]} && q.name == [LETTER_B]
    ensures HostOf(cfg, q) == None
  {
    assert HostLookup.NormalizeHost([LETTER_B]) == [LETTER_B];
    assert [LETTER_A][0] != [LETTER_B][0];
    HostLookup.FindKeyIn(cfg.hosts, [LETTER_B]);
    assert NoDot([LETTER_B]);
    SplitAtomic([LETTER_B]);
    assert HostLookup.Wild([[LETTER_B]])[0] == STAR && [STAR][0] == STAR && [LETTER_A][0] != STAR;
    assert HostLookup.SuffixKey(cfg.hosts, [[LETTER_B]], 1, 1) == None;
  }

  lemma UnknownPlan(cfg: Config, q: Question)
    requires ValidConfig(cfg) && HostOf(cfg, q) == None && cfg.firewall == None && !cfg.fallback
    ensures PlanFor(cfg, [q]) == Respond(NXDOMAIN, [], true)
  {
    hide HostOf;
    assert Collect(cfg, [q], []) == Collect(cfg, [q][1..], []) == Some([]);
  }

  /** "b" is unknown, but the reply says 7 instead of 3, a name error. */
  lemma {:induction false} CodeIsNotReplaced()
    ensures var cfg := OneHost([ADDRESS], 0);
            && ValidConfig(cfg) && Accepts(LOW_BITS) && U16(LOW_BITS, 2) == 0x0104
            && PlanFor(cfg, QuestionsOf(LOW_BITS)) == Respond(NXDOMAIN, [], true)
            && Uncached(cfg, LOW_BITS).Reply? && |Uncached(cfg, LOW_BITS).bytes| >= 12
            && U16(Uncached(cfg, LOW_BITS).bytes, 2) % 16 == 7
  {
    var cfg, q := OneHost([ADDRESS], 0), Question([LETTER_B], 1, 19);
    AddressIsSendable();
    OneHostIsValid([ADDRESS], 0);
    LowBitsParses();
    UnknownName(cfg, q);
    UnknownPlan(cfg, q);
    LowBitsReply(cfg, q);
    LowBitsOred();
    hide *;
    ReplyHeader(cfg, LOW_BITS);
  }

  lemma LowBitsOred()
    ensures ResponseFlags(0x0104, NXDOMAIN) % 16 == 7
  {
  }

  lemma LowBitsReply(cfg: Config, q: Question)
    requires ValidConfig(cfg) && Accepts(LOW_BITS) && U16(LOW_BITS, 2) == 0x0104 && QuestionsOf(LOW_BITS) == [q]
    requires PlanFor(cfg, [q]) == Respond(NXDOMAIN, [], true) && q.name == [LETTER_B]
    ensures Uncached(cfg, LOW_BITS).Reply?
  {
    QuestionSize(q);
    assert Kept([]) == [] && AnswersOctets([]) == [];
    hide LOW_BITS, PlanFor, QuestionsOf, Accepts, QuestionsOctets, AnswersOctets, AllEncodable, ResponseFlags, U16;
    AssembleExact(U16(LOW_BITS, 0), 0x0104, NXDOMAIN, [q], []);
    hide Assemble;
  }

  lemma QuestionSize(q: Question)
    requires q.name == [LETTER_B]
    ensures AllEncodable([q]) && |QuestionsOctets([q])| == 7
  {
    LetterName(LETTER_B);
    hide EncodeName, Encodable;
    assert QuestionsOctets([q]) == QuestionOctets(q) + QuestionsOctets([]);
  }

  // ---------------------------------------------------------------- an address with a dotted tail

  /** 64:ff9b::192.0.2.33, the IPv4-embedded address of section 2.4 of RFC 6052 */
  const EMBEDDED: Ipv6 := Elided([Group([0x36, 0x34]), Group([0x66, 0x66, 0x39, 0x62])], [Dotted(V4(192, 0, 2, 33))])

  lemma EmbeddedPieces()
    ensures Pieces(EMBEDDED.left) && !EndsDotted(EMBEDDED.left) && Words(EMBEDDED.left) == [0x64, 0xff9b]
  {
    var left := EMBEDDED.left;
    HexBound(left[0].digits);
    HexBound(left[1].digits);
    hide HexValue;
    assert Word(left[0]) == 0x64 && Word(left[1]) == 0xff9b;
    hide Word;
    assert left == [left[0]] + [left[1]];
    FirstGroup(left[1], []);
    FirstGroup(left[0], [left[1]]);
  }

  lemma EmbeddedTail()
    ensures Pieces(EMBEDDED.right) && EndsDotted(EMBEDDED.right) && |EMBEDDED.right| == 1
    ensures Words(EMBEDDED.right) == [0xc000, 0x221] && Parsed(EMBEDDED.right) == [0x192]
  {
    var right := EMBEDDED.right;
    HexBound(Decimal(192));
    hide HexValue;
    assert ParseHex(right[0]) == 0x192 && right[1..] == [];
    hide ParseHex;
  }

  lemma EmbeddedValue()
    ensures IsIpv6(EMBEDDED)
    ensures Value(EMBEDDED) == [0x64, 0xff9b, 0, 0, 0, 0, 0xc000, 0x221]
    ensures Groups(EMBEDDED) == [0x64, 0xff9b, 0, 0, 0, 0, 0, 0x192]
  {
    EmbeddedPieces();
    EmbeddedTail();
    hide Words, Parsed, Pieces, EndsDotted;
    assert EMBEDDED == Elided(EMBEDDED.left, EMBEDDED.right) && |EMBEDDED.left| == 2;
  }

  lemma {:induction false} DottedTailIsMisread()
    ensures ValidRecord(AAAA(EMBEDDED)) && Sendable(AAAA(EMBEDDED)) && !Faithful(AAAA(EMBEDDED))
    ensures Value(EMBEDDED) == [0x64, 0xff9b, 0, 0, 0, 0, 0xc000, 0x221]
    ensures Groups(EMBEDDED) == [0x64, 0xff9b, 0, 0, 0, 0, 0, 0x192]
    ensures Decode(28, RData(AAAA(EMBEDDED)).value) != Some(Canonical(AAAA(EMBEDDED)))
  {
    EmbeddedValue();
    NeverSent(AAAA(EMBEDDED));
    AaaaReadsBack(EMBEDDED);
    hide Groups, Value, TailIsHarmless, GroupOctets, IsIpv6, Decode, Sendable, Canonical;
    GroupsExactly(EMBEDDED);
    assert [0x64, 0xff9b, 0, 0, 0, 0, 0xc000, 0x221][6] != [0x64, 0xff9b, 0, 0, 0, 0, 0, 0x192][6];
  }
}
