/** DevDnsServer: what a query resolves to, and the cache in front of it. */
module Resolver {
  import opened Bytes
  import opened Text
  import opened WireFormat
  import opened Questions
  import opened Records
  import opened Responses
  import opened ResponseReading
  import opened TtlRewrite
  import opened HostLookup
  import opened OrderedMap
  import opened CacheKey

  /** The configuration the server reads; `maxSize` and `ttlMs` bound its cache. */
  datatype Config = Config(hosts: map<Name, seq<Record>>, fallback: bool, firewall: Option<DomainPolicy>,
                           maxSize: nat, ttlMs: nat)

  ghost predicate ValidConfig(cfg: Config)
  {
    && LowerKeys(cfg.hosts)
    && (forall k :: k in cfg.hosts ==> ValidRecords(cfg.hosts[k]))
    && cfg.maxSize >= 1
    && cfg.ttlMs <= 3600000
  }

  /** An exception, null (forward upstream), or the bytes to send; no bytes means the query is dropped. */
  datatype Outcome = Thrown | Null | Reply(bytes: Octets)

  // ---------------------------------------------------------------- the uncached resolver

  /** A query the resolver answers: QR clear, RD set, some question, no answers or authorities. */
  predicate Accepts(b: Octets)
  {
    && |b| >= 12
    && U16(b, 2) < 0x8000 && U16(b, 2) / 0x100 % 2 == 1
    && U16(b, 4) != 0 && U16(b, 6) == 0 && U16(b, 8) == 0
  }

  function HostOf(cfg: Config, q: Question): Option<seq<Record>>
  {
    FindHost(cfg.hosts, NormalizeHost(q.name))
  }

  lemma HostIsValid(cfg: Config, q: Question)
    requires ValidConfig(cfg)
    ensures HostOf(cfg, q).Some? ==> ValidRecords(HostOf(cfg, q).value)
  {
    FindKeyIn(cfg.hosts, NormalizeHost(q.name));
  }

  predicate Known(cfg: Config, qs: seq<Question>)
  {
    exists i :: 0 <= i < |qs| && HostOf(cfg, qs[i]).Some?
  }

  predicate Denied(cfg: Config, qs: seq<Question>)
  {
    exists i :: 0 <= i < |qs| && !DomainVerdict(qs[i].name, cfg.firewall)
  }

  /** The answer entries of the questions in order, after `acc`; None when an encoder throws. */
  ghost function Collect(cfg: Config, qs: seq<Question>, acc: seq<Octets>): Option<seq<Octets>>
    requires ValidConfig(cfg)
    decreases |qs|
  {
    if qs == [] then Some(acc)
    else match HostOf(cfg, qs[0])
      case None => Collect(cfg, qs[1..], acc)
      case Some(records) =>
        HostIsValid(cfg, qs[0]);
        match EntriesOf(OfType(records, qs[0].qtype))
        case None => None
        case Some(es) => Collect(cfg, qs[1..], acc + es)
  }

  /** What to do for a list of questions, before the header of the query matters. */
  datatype Plan = Fail | Forward | Respond(rcode: u16, entries: seq<Octets>, cacheable: bool)

  ghost function PlanFor(cfg: Config, qs: seq<Question>): Plan
    requires ValidConfig(cfg)
  {
    if qs == [] then Respond(NXDOMAIN, [], false)
    else match Collect(cfg, qs, [])
      case None => Fail
      case Some(es) =>
        if es != [] then Respond(NOERROR, es, true)
        else if Known(cfg, qs) then Respond(NOERROR, [], true)
        else if Denied(cfg, qs) then Respond(REFUSED, [], false)
        else if cfg.fallback then Forward
        else Respond(NXDOMAIN, [], true)
  }

  ghost function Uncached(cfg: Config, b: Octets): Outcome
    requires ValidConfig(cfg)
  {
    if !Accepts(b) then Reply([])
    else match PlanFor(cfg, QuestionsOf(b))
      case Fail => Thrown
      case Forward => Null
      case Respond(rcode, es, _) =>
        match Assemble(U16(b, 0), U16(b, 2), rcode, QuestionsOf(b), es)
        case None => Thrown
        case Some(r) => Reply(r)
  }

  lemma ReplyHeader(cfg: Config, b: Octets)
    requires ValidConfig(cfg) && Accepts(b) && Uncached(cfg, b).Reply?
    ensures PlanFor(cfg, QuestionsOf(b)).Respond?
    ensures var out := Uncached(cfg, b).bytes;
            && |out| >= 12 && U16(out, 0) == U16(b, 0)
            && U16(out, 2) == ResponseFlags(U16(b, 2), PlanFor(cfg, QuestionsOf(b)).rcode)
  {
    hide PlanFor, QuestionsOf, ResponseFlags, Assemble, U16;
    var qs, plan := QuestionsOf(b), PlanFor(cfg, QuestionsOf(b));
    if plan.Respond? { AssembleHeader(U16(b, 0), U16(b, 2), plan.rcode, qs, plan.entries); }
  }

  /** The flags of every reply: QR and AA set, the query's other bits kept, and in the low four bits the planned code if
      and only if the query's own low four bits lie within that code. */
  lemma {:induction false} ReplyCodeExactly(cfg: Config, b: Octets)
    requires ValidConfig(cfg) && Accepts(b) && Uncached(cfg, b).Reply?
    ensures |Uncached(cfg, b).bytes| >= 12 && PlanFor(cfg, QuestionsOf(b)).Respond?
    ensures FlagsMean(U16(b, 2), U16(Uncached(cfg, b).bytes, 2), PlanFor(cfg, QuestionsOf(b)).rcode)
  {
    assert |b| >= 12;
    hide *;
    ReplyHeader(cfg, b);
    PlannedCode(cfg, QuestionsOf(b));
    ResponseFlagsMean(U16(b, 2), PlanFor(cfg, QuestionsOf(b)).rcode);
  }

  lemma PlannedCode(cfg: Config, qs: seq<Question>)
    requires ValidConfig(cfg) && PlanFor(cfg, qs).Respond?
    ensures PlanFor(cfg, qs).rcode in {NOERROR, NXDOMAIN, REFUSED}
  {
    hide Collect, Known, Denied;
  }

  ghost predicate Cacheable(cfg: Config, b: Octets)
    requires ValidConfig(cfg)
  {
    && Accepts(b)
    && PlanFor(cfg, QuestionsOf(b)).Respond?
    && PlanFor(cfg, QuestionsOf(b)).cacheable
    && Uncached(cfg, b).Reply?
  }

  // ---------------------------------------------------------------- the cache

  datatype CacheEntry = CacheEntry(response: Octets, insertedAt: int, ttlMs: int)

  type Cache = OMap<CacheEntry>

  /** The three readings of the clock one call can make, in any relation to each other. */
  datatype Clock = Clock(check: int, remaining: int, insert: int)

  function KeyOf(b: Octets): Key
    requires |b| >= 12
  {
    RawKey(QuestionsOf(b))
  }

  /** getFromCache: an entry of age ttl or more is dropped, any other moves to the end. */
  function Lookup(m: Cache, key: Key, ttlMs: nat, clock: Clock): (Option<CacheEntry>, Cache)
  {
    match Find(m, key)
    case None => (None, m)
    case Some(e) =>
      if ttlMs > 0 && clock.check - e.insertedAt >= ttlMs then (None, Delete(m, key))
      else
        var left := ttlMs - (clock.remaining - e.insertedAt);
        var e' := e.(ttlMs := if left > 0 then left else 0);
        (Some(e'), Put(Delete(m, key), key, e'))
  }

  /** The oldest entries are dropped until fewer than `max` remain. */
  function EvictTo(m: Cache, max: nat): (r: Cache)
    requires max >= 1
    ensures |r| < max && |r| <= |m|
    ensures forall e :: e in r ==> e in m
    decreases |m|
  {
    if |m| >= max then EvictTo(m[1..], max) else m
  }

  function StoredTtl(ttlMs: nat): (s: u32)
    requires ttlMs <= 3600000
    ensures ttlMs < 1000 ==> s == 1
    ensures ttlMs >= 1000 ==> 1000 * s <= ttlMs < 1000 * (s + 1)
  {
    if ttlMs / 1000 > 1 then ttlMs / 1000 else 1
  }

  /** addToCache */
  function Store(m: Cache, key: Key, response: Octets, ttlMs: nat, max: nat, now: int): Cache
    requires max >= 1 && ttlMs <= 3600000
  {
    if ttlMs == 0 then m
    else Put(Delete(EvictTo(m, max), key), key, CacheEntry(Rewrite(response, StoredTtl(ttlMs)), now, ttlMs))
  }

  /** One call of resolve with its effect on the cache. */
  ghost function ResolveStep(cfg: Config, m: Cache, b: Octets, clock: Clock): (Outcome, Cache)
    requires ValidConfig(cfg)
  {
    if !Accepts(b) then (Reply([]), m)
    else
      var (hit, m1) := Lookup(m, KeyOf(b), cfg.ttlMs, clock);
      if hit.Some? then (Reply(hit.value.response), m1)
      else
        var out := Uncached(cfg, b);
        (out, if Cacheable(cfg, b) then Store(m1, KeyOf(b), out.bytes, cfg.ttlMs, cfg.maxSize, clock.insert) else m1)
  }

  // ---------------------------------------------------------------- entries are well-formed

  lemma EntryIsEntry(r: Record)
    requires ValidRecord(r)
    ensures EntryOf(r).Some? ==> IsEntry(EntryOf(r).value)
  {
    RDataIsShort(r);
    if EntryOf(r).Some? {
      var rdata := RData(r).value;
      var e := Entry(TypeNumber(r), DEFAULT_TTL, rdata);
      hide EntryOf, RData, ValidRecord;
      assert At(e, 8, Be16(|rdata|));
      ReadBe16(e, 8, |rdata|);
    }
  }

  lemma {:induction false} EntriesAreEntries(records: seq<Record>)
    requires ValidRecords(records)
    ensures EntriesOf(records).Some? ==> AllEntries(EntriesOf(records).value)
  {
    hide EntryOf, IsEntry;
    if records != [] {
      EntryIsEntry(records[0]);
      EntriesAreEntries(records[1..]);
    }
  }

  lemma {:induction false} CollectedAreEntries(cfg: Config, qs: seq<Question>, acc: seq<Octets>)
    requires ValidConfig(cfg) && AllEntries(acc)
    ensures Collect(cfg, qs, acc).Some? ==> AllEntries(Collect(cfg, qs, acc).value)
    decreases |qs|
  {
    hide EntriesOf, OfType, IsEntry, HostOf;
    if qs != [] {
      match HostOf(cfg, qs[0])
      case None => CollectedAreEntries(cfg, qs[1..], acc);
      case Some(records) =>
        HostIsValid(cfg, qs[0]);
        var es := EntriesOf(OfType(records, qs[0].qtype));
        EntriesAreEntries(OfType(records, qs[0].qtype));
        if es.Some? { CollectedAreEntries(cfg, qs[1..], acc + es.value); }
    }
  }

  // ---------------------------------------------------------------- the server

  class DevDnsServer {
    const config: Config
    var cacheMap: Cache

    ghost predicate Valid()
      reads this
    {
      ValidConfig(config) && Distinct(Keys(cacheMap))
    }

    constructor (config: Config)
      requires ValidConfig(config)
      ensures Valid() && this.config == config && cacheMap == []
    {
      this.config := config;
      cacheMap := [];
    }

    method GetFromCache(key: Key, clock: Clock) returns (entry: Option<CacheEntry>)
      requires Valid()
      modifies this`cacheMap
      ensures Valid()
      ensures (entry, cacheMap) == Lookup(old(cacheMap), key, config.ttlMs, clock)
      ensures entry.Some? && config.ttlMs > 0 ==> clock.check - entry.value.insertedAt < config.ttlMs
      ensures entry.Some? ==>
                var age := clock.remaining - entry.value.insertedAt;
                if age <= config.ttlMs then entry.value.ttlMs + age == config.ttlMs else entry.value.ttlMs == 0
    {
      DeleteKeepsDistinct(cacheMap, key);
      var found := Find(cacheMap, key);
      if found.None? { return None; }
      var e := found.value;
      if config.ttlMs > 0 && clock.check - e.insertedAt >= config.ttlMs {
        cacheMap := Delete(cacheMap, key);
        return None;
      }
      var left := config.ttlMs - (clock.remaining - e.insertedAt);
      e := e.(ttlMs := if left > 0 then left else 0);
      cacheMap := Delete(cacheMap, key);
      PutKeepsDistinct(cacheMap, key, e);
      cacheMap := Put(cacheMap, key, e);
      return Some(e);
    }

    method EvictCacheEntry()
      requires Valid()
      modifies this`cacheMap
      ensures Valid()
      ensures cacheMap == if old(cacheMap) == [] then [] else old(cacheMap)[1..]
    {
      if cacheMap != [] {
        DeleteFirst(cacheMap);
        DeleteKeepsDistinct(cacheMap, cacheMap[0].0);
        cacheMap := Delete(cacheMap, cacheMap[0].0);
      }
    }

    method AddToCache(key: Key, response: Octets, now: int)
      requires Valid()
      modifies this`cacheMap
      ensures Valid()
      ensures cacheMap == Store(old(cacheMap), key, response, config.ttlMs, config.maxSize, now)
    {
      if config.ttlMs == 0 { return; }
      while |cacheMap| >= config.maxSize
        invariant Valid()
        invariant EvictTo(cacheMap, config.maxSize) == EvictTo(old(cacheMap), config.maxSize)
        decreases |cacheMap|
      {
        EvictCacheEntry();
      }
      var modified := RewriteResponseTtl(response, StoredTtl(config.ttlMs));
      var entry := CacheEntry(modified, now, config.ttlMs);
      DeleteKeepsDistinct(cacheMap, key);
      cacheMap := Delete(cacheMap, key);
      PutKeepsDistinct(cacheMap, key, entry);
      cacheMap := Put(cacheMap, key, entry);
    }

    /** The loop over the questions: answers so far, and whether any name is configured. */
    method CollectAnswers(questions: seq<Question>) returns (answers: Option<seq<Octets>>, known: bool)
      requires Valid()
      ensures answers == Collect(config, questions, [])
      ensures answers.Some? ==> known == Known(config, questions) && AllEntries(answers.value)
    {
      hide EntriesOf, OfType, IsEntry, HostOf;
      CollectedAreEntries(config, questions, []);
      var acc: seq<Octets> := [];
      known := false;
      var i := 0;
      while i < |questions|
        invariant 0 <= i <= |questions|
        invariant Collect(config, questions[i..], acc) == Collect(config, questions, [])
        invariant known <==> exists j :: 0 <= j < i && HostOf(config, questions[j]).Some?
      {
        assert questions[i..][1..] == questions[i + 1..];
        HostIsValid(config, questions[i]);
        var host := LookupHost(questions[i]);
        if host.Some? {
          known := true;
          var es := BuildAnswers(host.value, questions[i].qtype);
          if es.None? { return None, known; }
          acc := acc + es.value;
        }
        i := i + 1;
      }
      answers := Some(acc);
    }

    method LookupHost(q: Question) returns (host: Option<seq<Record>>)
      requires Valid()
      ensures host == HostOf(config, q)
    {
      host := FindHostConfig(config.hosts, NormalizeHost(q.name));
    }

    method GenerateErrorResponse(query: array<byte>, rcode: u16) returns (r: Option<Octets>)
      ensures query.Length < 12 ==> r == Some([])
      ensures query.Length >= 12 ==>
                r == Assemble(U16(query[..], 0), U16(query[..], 2), rcode, QuestionsOf(query[..]), [])
    {
      if query.Length < 12 { return Some([]); }
      var id, flags := U16(query[..], 0), U16(query[..], 2);
      var questions := ExtractQuestions(query);
      r := BuildResponsePacket(id, flags, rcode, questions, []);
    }

    method IsDenied(questions: seq<Question>) returns (denied: bool)
      ensures denied == Denied(config, questions)
    {
      hide DomainVerdict;
      for i := 0 to |questions|
        invariant forall j :: 0 <= j < i ==> DomainVerdict(questions[j].name, config.firewall)
      {
        var allowed := EvaluateDomain(questions[i].name, config.firewall);
        if !allowed { return true; }
      }
      return false;
    }

    method Finish(key: Key, response: Option<Octets>, now: int) returns (out: Outcome)
      requires Valid()
      modifies this`cacheMap
      ensures Valid()
      ensures response.None? ==> out == Thrown && cacheMap == old(cacheMap)
      ensures response.Some? ==>
                && out == Reply(response.value)
                && cacheMap == Store(old(cacheMap), key, response.value, config.ttlMs, config.maxSize, now)
    {
      if response.None? { return Thrown; }
      AddToCache(key, response.value, now);
      return Reply(response.value);
    }

    /** The part of resolve behind the cache. */
    method ResolveMiss(query: array<byte>, questions: seq<Question>, key: Key, now: int) returns (out: Outcome)
      requires Valid() && Accepts(query[..])
      requires questions == QuestionsOf(query[..])
      modifies this`cacheMap
      ensures Valid()
      ensures out == Uncached(config, query[..])
      ensures cacheMap == if Cacheable(config, query[..])
                          then Store(old(cacheMap), key, out.bytes, config.ttlMs, config.maxSize, now)
                          else old(cacheMap)
    {
      hide Collect, Known, Denied, Assemble, QuestionsOf, Store, U16, Distinct;
      var id, flags := U16(query[..], 0), U16(query[..], 2);
      var r;
      if |questions| == 0 {
        r := GenerateErrorResponse(query, NXDOMAIN);
        return if r.None? then Thrown else Reply(r.value);
      }
      var answers, known := CollectAnswers(questions);
      if answers.None? { return Thrown; }
      if |answers.value| == 0 && !known {
        var denied := IsDenied(questions);
        if denied {
          r := GenerateErrorResponse(query, REFUSED);
          return if r.None? then Thrown else Reply(r.value);
        }
        if config.fallback { return Null; }
        r := GenerateErrorResponse(query, NXDOMAIN);
        out := Finish(key, r, now);
        return;
      }
      r := BuildResponsePacket(id, flags, NOERROR, questions, answers.value);
      out := Finish(key, r, now);
    }

    method Resolve(query: array<byte>, clock: Clock) returns (out: Outcome)
      requires Valid()
      modifies this`cacheMap
      ensures Valid()
      ensures (out, cacheMap) == ResolveStep(config, old(cacheMap), query[..], clock)
    {
      hide Uncached, Cacheable, Lookup, Store, QuestionsOf, RawKey, Distinct;
      if query.Length < 12 { return Reply([]); }
      var flags, b := U16(query[..], 2), query[..];
      if flags >= 0x8000 { return Reply([]); }
      if flags / 0x100 % 2 == 0 { return Reply([]); }
      if U16(b, 4) == 0 || U16(b, 6) > 0 || U16(b, 8) > 0 { return Reply([]); }
      var questions := ExtractQuestions(query);
      var key := RawKey(questions);
      var cached := GetFromCache(key, clock);
      if cached.Some? { return Reply(cached.value.response); }
      out := ResolveMiss(query, questions, key, clock.insert);
    }
  }

  lemma DeleteKeepsDistinct(m: Cache, key: Key)
    requires Distinct(Keys(m))
    ensures Distinct(Keys(Delete(m, key)))
    ensures key !in Keys(Delete(m, key))
  {
    DeleteKeys(m, key);
    WithoutDistinct(Keys(m), key);
  }

  lemma PutKeepsDistinct(m: Cache, key: Key, e: CacheEntry)
    requires Distinct(Keys(m))
    ensures Distinct(Keys(Put(m, key, e)))
  {
    PutKeys(m, key, e);
  }

  lemma {:induction false} DeleteFirst(m: Cache)
    requires m != [] && Distinct(Keys(m))
    ensures Delete(m, m[0].0) == m[1..]
  {
    DeleteAbsent(m[1..], m[0].0);
  }

  lemma {:induction false} DeleteAbsent(m: Cache, key: Key)
    requires forall i :: 0 <= i < |m| ==> m[i].0 != key
    ensures Delete(m, key) == m
  {
    if m != [] { DeleteAbsent(m[1..], key); }
  }
}
