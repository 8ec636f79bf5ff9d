/** The cached resolver over whole runs: transparency and the LRU order. */
module CacheRuns {
  import opened Bytes
  import opened Text
  import opened WireFormat
  import opened Questions
  import opened Records
  import opened Responses
  import opened TtlRewrite
  import opened HostLookup
  import opened OrderedMap
  import opened CacheKey
  import opened Resolver

  /** One call of resolve: the query and what the clock said during it. */
  datatype Call = Call(query: Octets, clock: Clock)

  /** The cache after a run of calls on a fresh server. */
  ghost function CacheAfter(cfg: Config, calls: seq<Call>): Cache
    requires ValidConfig(cfg)
  {
    if calls == [] then []
    else
      var n := |calls| - 1;
      ResolveStep(cfg, CacheAfter(cfg, calls[..n]), calls[n].query, calls[n].clock).1
  }

  /** The result of one more call after a run. */
  ghost function Cached(cfg: Config, calls: seq<Call>, call: Call): Outcome
    requires ValidConfig(cfg)
  {
    ResolveStep(cfg, CacheAfter(cfg, calls), call.query, call.clock).0
  }

  // ---------------------------------------------------------------- resolve depends only on the questions

  /** Two question lists ask the same but for the case of letters and one trailing dot of each name. */
  predicate Alike(a: seq<Question>, b: seq<Question>)
  {
    && |a| == |b|
    && forall i :: 0 <= i < |a| ==> AlikeQuestion(a[i], b[i])
  }

  predicate AlikeQuestion(p: Question, q: Question)
  {
    SameButCase(WithoutDot(p.name), WithoutDot(q.name)) && p.qtype == q.qtype
  }

  lemma SameIsAlike(a: seq<Question>, b: seq<Question>)
    requires SameQuestions(a, b)
    ensures Alike(a, b)
  {
  }

  /** A trailing dot is one more empty piece, which the writer skips. */
  lemma {:induction false} WrittenNormal(name: Name)
    ensures Written(name) == NonEmpty(Split(NormalizeHost(name)))
    ensures Encodable(name) <==> LabelsFit(Split(NormalizeHost(name)), 255)
  {
    var low := Lower(name);
    if low != [] && low[|low| - 1] == DOT {
      var front := low[..|low| - 1];
      assert low == front + [DOT] + [];
      SplitAppend(front, []);
      EmptyPieceIsSkipped(Split(front));
      assert Split([]) == [[]];
      hide Split, NonEmpty;
    }
  }

  lemma {:induction false} EmptyPieceIsSkipped(labels: seq<Name>)
    ensures NonEmpty(labels + [[]]) == NonEmpty(labels)
    ensures LabelsFit(labels + [[]], 255) <==> LabelsFit(labels, 255)
  {
    assert forall i :: 0 <= i < |labels| ==> (labels + [[]])[i] == labels[i];
    if labels != [] {
      assert (labels + [[]])[1..] == labels[1..] + [[]];
      EmptyPieceIsSkipped(labels[1..]);
    }
  }

  /** Alike questions find the same entry, get the same verdict and are written alike. */
  lemma {:induction false} AlikeMeans(cfg: Config, p: Question, q: Question)
    requires AlikeQuestion(p, q)
    ensures HostOf(cfg, p) == HostOf(cfg, q)
    ensures DomainVerdict(p.name, cfg.firewall) == DomainVerdict(q.name, cfg.firewall)
    ensures Encodable(p.name) == Encodable(q.name)
    ensures Encodable(p.name) ==> QuestionOctets(p) == QuestionOctets(q)
  {
    hide SameButCase, WithoutDot, DomainVerdict;
    NormalizeExactly(p.name, q.name);
    SameNormalSameVerdict(p.name, q.name, cfg.firewall);
    WrittenNormal(p.name);
    WrittenNormal(q.name);
    hide NormalizeHost, Split, NonEmpty, FindHost;
  }

  lemma {:induction false} SameCollect(cfg: Config, a: seq<Question>, b: seq<Question>, acc: seq<Octets>)
    requires ValidConfig(cfg) && Alike(a, b)
    ensures Collect(cfg, a, acc) == Collect(cfg, b, acc)
    decreases |a|
  {
    hide EntriesOf, OfType, AlikeQuestion, HostOf;
    if a != [] {
      AlikeMeans(cfg, a[0], b[0]);
      assert a[0].qtype == b[0].qtype by { AlikeTypes(a[0], b[0]); }
      match HostOf(cfg, a[0])
      case None => SameCollect(cfg, a[1..], b[1..], acc);
      case Some(records) =>
        HostIsValid(cfg, a[0]);
        var es := EntriesOf(OfType(records, a[0].qtype));
        if es.Some? { SameCollect(cfg, a[1..], b[1..], acc + es.value); }
    }
  }

  lemma AlikeTypes(p: Question, q: Question)
    requires AlikeQuestion(p, q)
    ensures p.qtype == q.qtype
  {
  }

  lemma SamePlan(cfg: Config, a: seq<Question>, b: seq<Question>)
    requires ValidConfig(cfg) && Alike(a, b)
    ensures PlanFor(cfg, a) == PlanFor(cfg, b)
  {
    hide AlikeQuestion, HostOf, DomainVerdict;
    SameCollect(cfg, a, b, []);
    forall i | 0 <= i < |a|
      ensures HostOf(cfg, a[i]) == HostOf(cfg, b[i])
      ensures DomainVerdict(a[i].name, cfg.firewall) == DomainVerdict(b[i].name, cfg.firewall)
    {
      AlikeMeans(cfg, a[i], b[i]);
    }
    assert Known(cfg, a) == Known(cfg, b);
    assert Denied(cfg, a) == Denied(cfg, b);
  }

  lemma {:induction false} SameQuestionsOctets(cfg: Config, a: seq<Question>, b: seq<Question>)
    requires Alike(a, b)
    ensures AllEncodable(a) <==> AllEncodable(b)
    ensures AllEncodable(a) ==> QuestionsOctets(a) == QuestionsOctets(b)
    decreases |a|
  {
    hide Encodable, QuestionOctets, AlikeQuestion;
    forall i | 0 <= i < |a| ensures Encodable(a[i].name) == Encodable(b[i].name) { AlikeMeans(cfg, a[i], b[i]); }
    if a != [] {
      AlikeMeans(cfg, a[0], b[0]);
      SameQuestionsOctets(cfg, a[1..], b[1..]);
    }
  }

  /** Equal from the fifth octet on. */
  predicate SameBody(x: Octets, y: Octets)
  {
    |x| == |y| && |x| >= 12 && x[4..] == y[4..]
  }

  lemma SameAssembly(cfg: Config, a: Octets, b: Octets, rcode: u16, es: seq<Octets>)
    requires Accepts(a) && Accepts(b) && Alike(QuestionsOf(a), QuestionsOf(b))
    ensures var x := Assemble(U16(a, 0), U16(a, 2), rcode, QuestionsOf(a), es);
            var y := Assemble(U16(b, 0), U16(b, 2), rcode, QuestionsOf(b), es);
            && (x.None? <==> y.None?)
            && (x.Some? ==> SameBody(x.value, y.value))
  {
    hide Accepts, QuestionsOf, ResponseFlags, QuestionsOctets, AllEncodable, U16, Kept;
    hide AnswersFit, AnswersOctets, Header, SameBody, Clip, Alike;
    AcceptedIsLong(a);
    AcceptedIsLong(b);
    var qa, qb := QuestionsOf(a), QuestionsOf(b);
    SameQuestionsOctets(cfg, qa, qb);
    SameLength(qa, qb);
    if Builds(qa, Kept(es)) {
      AnswersFitBound(12 + |QuestionsOctets(qa)|, Kept(es));
      SameTail(U16(a, 0), ResponseFlags(U16(a, 2), rcode), U16(b, 0), ResponseFlags(U16(b, 2), rcode), |qa|, |Kept(es)|,
               QuestionsOctets(qa), AnswersOctets(Kept(es)));
    }
  }

  lemma SameLength(a: seq<Question>, b: seq<Question>)
    requires Alike(a, b)
    ensures |a| == |b|
  {
  }

  lemma SameTail(id: u16, flags: u16, id': u16, flags': u16, qd: u16, an: u16, q: Octets, t: Octets)
    ensures SameBody(Clip(Header(id, flags, qd, an) + q + t, PACKET_SIZE),
                     Clip(Header(id', flags', qd, an) + q + t, PACKET_SIZE))
  {
    var x, y := Header(id, flags, qd, an) + q + t, Header(id', flags', qd, an) + q + t;
    assert Header(id, flags, qd, an)[4..] == Header(id', flags', qd, an)[4..];
    assert x == Header(id, flags, qd, an)[..4] + Header(id, flags, qd, an)[4..] + q + t;
    assert x[4..] == y[4..];
    assert Clip(x, PACKET_SIZE)[4..] == Clip(x[4..], 4092) && Clip(y, PACKET_SIZE)[4..] == Clip(y[4..], 4092);
  }

  /** Two queries with the same questions, but for letter case and a trailing dot of the names, get the same kind of
      outcome, with the same octets after the flags. */
  lemma {:induction false} SameQuestionsSameOutcome(cfg: Config, a: Octets, b: Octets)
    requires ValidConfig(cfg) && Accepts(a) && Accepts(b) && Alike(QuestionsOf(a), QuestionsOf(b))
    ensures Cacheable(cfg, a) <==> Cacheable(cfg, b)
    ensures var x, y := Uncached(cfg, a), Uncached(cfg, b);
            && (x.Thrown? <==> y.Thrown?) && (x.Null? <==> y.Null?)
            && (x.Reply? && y.Reply? ==> SameBody(x.bytes, y.bytes))
  {
    hide PlanFor, Accepts, QuestionsOf, Assemble, SameBody, U16;
    AcceptedIsLong(a);
    AcceptedIsLong(b);
    SamePlan(cfg, QuestionsOf(a), QuestionsOf(b));
    var plan := PlanFor(cfg, QuestionsOf(a));
    if plan.Respond? {
      SameAssembly(cfg, a, b, plan.rcode, plan.entries);
    }
  }

  // ---------------------------------------------------------------- what the cache holds

  /** An entry holds the uncached reply to some earlier query with that key, with the stored TTL and the time of that
      call. */
  ghost predicate Justified(cfg: Config, calls: seq<Call>, k: Key, e: CacheEntry)
    requires ValidConfig(cfg)
  {
    exists i :: 0 <= i < |calls| && Stored(cfg, calls[i], k, e)
  }

  ghost predicate Stored(cfg: Config, call: Call, k: Key, e: CacheEntry)
    requires ValidConfig(cfg)
  {
    Fills(cfg, call.query, k, e.response) && e.insertedAt == call.clock.insert
  }

  ghost predicate Fills(cfg: Config, query: Octets, k: Key, response: Octets)
    requires ValidConfig(cfg)
  {
    && Cacheable(cfg, query)
    && KeyOf(query) == k
    && response == Rewrite(Uncached(cfg, query).bytes, StoredTtl(cfg.ttlMs))
  }

  ghost predicate CacheInv(cfg: Config, calls: seq<Call>, m: Cache)
    requires ValidConfig(cfg)
  {
    && |m| <= cfg.maxSize
    && Distinct(Keys(m))
    && (forall x :: x in m ==> Justified(cfg, calls, x.0, x.1))
    && (cfg.ttlMs == 0 ==> m == [])
  }

  lemma {:induction false} PutAbsent(m: Cache, key: Key, e: CacheEntry)
    requires key !in Keys(m)
    ensures OrderedMap.Put(m, key, e) == m + [(key, e)]
  {
    if m != [] {
      assert Keys(m)[0] == m[0].0 && Keys(m)[1..] == Keys(m[1..]);
      PutAbsent(m[1..], key, e);
    }
  }

  lemma {:induction false} JustifiedLater(cfg: Config, calls: seq<Call>, call: Call, k: Key, e: CacheEntry)
    requires ValidConfig(cfg) && Justified(cfg, calls, k, e)
    ensures Justified(cfg, calls + [call], k, e)
  {
    hide Stored;
    var i :| 0 <= i < |calls| && Stored(cfg, calls[i], k, e);
    assert (calls + [call])[i] == calls[i];
  }

  /** Equal but for the remaining TTL. */
  predicate SameStored(e: CacheEntry, f: CacheEntry)
  {
    e.response == f.response && e.insertedAt == f.insertedAt
  }

  /** What Lookup and Store leave: a deletion, or a deletion and one entry at the end. */
  lemma {:induction false} LookupShape(m: Cache, key: Key, ttlMs: nat, clock: Clock)
    requires Distinct(Keys(m))
    ensures var (hit, m1) := Lookup(m, key, ttlMs, clock);
            && (hit.None? ==> m1 == Delete(m, key))
            && (hit.Some? ==>
                  && m1 == Delete(m, key) + [(key, hit.value)]
                  && Find(m, key).Some? && SameStored(hit.value, Find(m, key).value)
                  && (ttlMs > 0 ==> clock.check - hit.value.insertedAt < ttlMs))
    ensures Keys(Delete(m, key)) == Without(Keys(m), key)
    ensures Distinct(Keys(Delete(m, key))) && key !in Keys(Delete(m, key))
  {
    DeleteKeepsDistinct(m, key);
    DeleteKeys(m, key);
    FindMeansEntry(m, key);
    if Find(m, key).None? {
      assert forall i :: 0 <= i < |m| ==> m[i].0 == Keys(m)[i];
      DeleteAbsent(m, key);
    } else {
      var (hit, m1) := Lookup(m, key, ttlMs, clock);
      if hit.Some? { PutAbsent(Delete(m, key), key, hit.value); }
    }
  }

  /** Eviction leaves the last entries. */
  lemma {:induction false} EvictIsSuffix(m: Cache, max: nat)
    requires max >= 1
    ensures EvictTo(m, max) == if |m| < max then m else m[|m| - (max - 1)..]
    decreases |m|
  {
    if |m| >= max {
      EvictIsSuffix(m[1..], max);
      assert EvictTo(m, max) == EvictTo(m[1..], max);
      hide EvictTo;
      var n := |m| - (max - 1);
      assert m[1..][n - 1..] == m[n..];
    }
  }

  lemma {:induction false} EvictKeys(m: Cache, max: nat)
    requires max >= 1
    ensures Keys(EvictTo(m, max)) == TakeLast(Keys(m), max - 1) || |m| < max
    ensures |m| < max ==> EvictTo(m, max) == m
    ensures Distinct(Keys(m)) ==> Distinct(Keys(EvictTo(m, max)))
  {
    EvictIsSuffix(m, max);
    hide EvictTo;
    if |m| >= max {
      var n := |m| - (max - 1);
      assert Keys(m[n..]) == Keys(m)[n..];
      hide Keys;
      if Distinct(Keys(m)) { DistinctSuffix(Keys(m), n); }
      hide Distinct;
    }
  }

  lemma {:induction false} StoreShape(m: Cache, key: Key, response: Octets, ttlMs: nat, max: nat, now: int)
    requires max >= 1 && 0 < ttlMs <= 3600000 && Distinct(Keys(m)) && key !in Keys(m)
    ensures Store(m, key, response, ttlMs, max, now)
         == EvictTo(m, max) + [(key, CacheEntry(Rewrite(response, StoredTtl(ttlMs)), now, ttlMs))]
    ensures Distinct(Keys(EvictTo(m, max))) && key !in Keys(EvictTo(m, max))
  {
    var rest := EvictTo(m, max);
    EvictKeys(m, max);
    hide EvictTo, Distinct, TakeLast;
    EvictedKeys(m, max, key);
    hide Rewrite;
    DeleteAbsent(rest, key);
    PutAbsent(rest, key, CacheEntry(Rewrite(response, StoredTtl(ttlMs)), now, ttlMs));
  }

  lemma EvictedKeys(m: Cache, max: nat, key: Key)
    requires max >= 1 && key !in Keys(m)
    ensures key !in Keys(EvictTo(m, max)) && forall i :: 0 <= i < |EvictTo(m, max)| ==> EvictTo(m, max)[i].0 != key
  {
    var rest := EvictTo(m, max);
    assert forall i :: 0 <= i < |rest| ==> rest[i].0 == Keys(rest)[i] && rest[i] in m;
    forall i | 0 <= i < |rest| ensures rest[i].0 != key {
      var j :| 0 <= j < |m| && m[j] == rest[i];
      assert Keys(m)[j] == rest[i].0;
    }
  }

  lemma AppendDistinct(m: Cache, key: Key, e: CacheEntry)
    requires Distinct(Keys(m)) && key !in Keys(m)
    ensures Distinct(Keys(m + [(key, e)])) && Keys(m + [(key, e)]) == Keys(m) + [key]
  {
    var ks := Keys(m);
    assert Keys(m + [(key, e)]) == ks + [key];
    forall i | 0 <= i < |ks| ensures (ks + [key])[i] != key { assert ks[i] in ks; }
  }

  /** A query that is not cacheable has no entry under its key. */
  lemma {:induction false} UncacheableIsAbsent(cfg: Config, calls: seq<Call>, m: Cache, b: Octets)
    requires ValidConfig(cfg) && CacheInv(cfg, calls, m) && Accepts(b)
    ensures Find(m, KeyOf(b)).Some? ==> Cacheable(cfg, b)
  {
    hide Cacheable, Accepts, QuestionsOf, Rewrite, Uncached;
    AcceptedIsLong(b);
    FindMeansEntry(m, KeyOf(b));
    if Find(m, KeyOf(b)).Some? {
      var e := Find(m, KeyOf(b)).value;
      assert (KeyOf(b), e) in m;
      var i :| 0 <= i < |calls| && Stored(cfg, calls[i], KeyOf(b), e);
      CacheableIsAccepted(cfg, calls[i].query);
      RawKeyInjective(QuestionsOf(calls[i].query), QuestionsOf(b));
      SameIsAlike(QuestionsOf(calls[i].query), QuestionsOf(b));
      SameQuestionsSameOutcome(cfg, calls[i].query, b);
    }
  }

  lemma {:induction false} CacheableIsAccepted(cfg: Config, b: Octets)
    requires ValidConfig(cfg) && Cacheable(cfg, b)
    ensures Accepts(b) && |b| >= 12 && Uncached(cfg, b).Reply?
  {
  }

  /** Every call keeps the invariant. */
  lemma {:induction false} StepKeepsInvariant(cfg: Config, calls: seq<Call>, m: Cache, call: Call)
    requires ValidConfig(cfg) && CacheInv(cfg, calls, m)
    ensures CacheInv(cfg, calls + [call], ResolveStep(cfg, m, call.query, call.clock).1)
  {
    hide Cacheable, Uncached, QuestionsOf, RawKey, Rewrite, Justified, Distinct, Lookup, Store, Accepts;
    var b, later := call.query, calls + [call];
    forall x | x in m ensures Justified(cfg, later, x.0, x.1) { JustifiedLater(cfg, calls, call, x.0, x.1); }
    if Accepts(b) {
      AcceptedIsLong(b);
      var key := KeyOf(b);
      var (hit, m1) := Lookup(m, key, cfg.ttlMs, call.clock);
      LookupShape(m, key, cfg.ttlMs, call.clock);
      if hit.Some? {
        FindMeansEntry(m, key);
        var e := Find(m, key).value;
        assert Justified(cfg, later, key, e);
        SameResponseJustified(cfg, later, key, e, hit.value);
        AppendDistinct(Delete(m, key), key, hit.value);
        WithoutDistinct(Keys(m), key);
        assert |m1| == |Without(Keys(m), key)| + 1;
      } else if Cacheable(cfg, b) && cfg.ttlMs > 0 {
        CacheableIsAccepted(cfg, b);
        StoreShape(m1, key, Uncached(cfg, b).bytes, cfg.ttlMs, cfg.maxSize, call.clock.insert);
        var e := CacheEntry(Rewrite(Uncached(cfg, b).bytes, StoredTtl(cfg.ttlMs)), call.clock.insert, cfg.ttlMs);
        assert later[|calls|] == call && Stored(cfg, later[|calls|], key, e);
        NewEntryJustified(cfg, later, key, e);
        AppendDistinct(EvictTo(m1, cfg.maxSize), key, e);
      } else if Cacheable(cfg, b) {
        CacheableIsAccepted(cfg, b);
        StoreNothing(m1, key, Uncached(cfg, b).bytes, cfg.maxSize, call.clock.insert);
      }
    }
  }

  lemma AcceptedIsLong(b: Octets)
    requires Accepts(b)
    ensures |b| >= 12
  {
  }

  lemma StoreNothing(m: Cache, key: Key, response: Octets, max: nat, now: int)
    requires max >= 1
    ensures Store(m, key, response, 0, max, now) == m
  {
  }

  lemma {:induction false} SameResponseJustified(cfg: Config, calls: seq<Call>, k: Key, e: CacheEntry, f: CacheEntry)
    requires ValidConfig(cfg) && Justified(cfg, calls, k, e) && SameStored(f, e)
    ensures Justified(cfg, calls, k, f)
  {
  }

  lemma {:induction false} NewEntryJustified(cfg: Config, calls: seq<Call>, k: Key, e: CacheEntry)
    requires ValidConfig(cfg) && calls != [] && Stored(cfg, calls[|calls| - 1], k, e)
    ensures Justified(cfg, calls, k, e)
  {
  }

  lemma {:induction false} RunKeepsInvariant(cfg: Config, calls: seq<Call>)
    requires ValidConfig(cfg)
    ensures CacheInv(cfg, calls, CacheAfter(cfg, calls))
  {
    hide ResolveStep;
    if calls != [] {
      var n := |calls| - 1;
      RunKeepsInvariant(cfg, calls[..n]);
      hide CacheInv;
      StepKeepsInvariant(cfg, calls[..n], CacheAfter(cfg, calls[..n]), calls[n]);
      assert calls[..n] + [calls[n]] == calls;
    }
  }

  function TakeLast(ks: seq<Key>, n: nat): (r: seq<Key>)
    ensures |r| <= n
  {
    if |ks| <= n then ks else ks[|ks| - n..]
  }

  // ---------------------------------------------------------------- transparency

  /** Equal outcomes, or replies equal outside the id, the flags and the answer TTLs, which hold `ttl`. */
  ghost predicate SameUpToTtl(x: Outcome, y: Outcome, ttl: u32)
  {
    || x == y
    || (&& x.Reply? && y.Reply? && |x.bytes| == |y.bytes| && |y.bytes| >= 12
        && (forall i :: 4 <= i < |y.bytes| && !InField(FieldsOf(y.bytes), i) ==> x.bytes[i] == y.bytes[i])
        && (forall j :: 0 <= j < |FieldsOf(y.bytes)| ==> At(x.bytes, FieldsOf(y.bytes)[j], Be32(ttl))))
  }

  lemma SameU16(x: Octets, y: Octets, i: nat)
    requires SameBody(x, y) && 4 <= i && i + 2 <= |x|
    ensures U16(x, i) == U16(y, i)
  {
    assert x[i] == x[4..][i - 4] && x[i + 1] == x[4..][i - 3];
  }

  lemma {:induction false} SameTtlFields(x: Octets, y: Octets, pos: nat, n: nat)
    requires SameBody(x, y) && pos >= 12
    ensures TtlFields(x, pos, n) == TtlFields(y, pos, n)
    decreases n
  {
    hide U16;
    if n > 0 && pos + 12 <= |x| {
      SameU16(x, y, pos + 10);
      SameTtlFields(x, y, pos + 12 + U16(x, pos + 10), n - 1);
    }
  }

  lemma {:induction false} SameNameSkip(x: Octets, y: Octets, pos: nat)
    requires SameBody(x, y) && pos >= 12
    ensures NameSkip(x, pos) == NameSkip(y, pos)
    ensures NameSkip(x, pos).Some? ==> NameSkip(x, pos).value >= pos
    decreases |x| - pos
  {
    if pos < |x| {
      assert x[pos] == x[4..][pos - 4];
      if 0 < x[pos] < 192 && pos + 1 + x[pos] <= |x| { SameNameSkip(x, y, pos + 1 + x[pos]); }
    }
  }

  lemma {:induction false} SameAnswersStart(x: Octets, y: Octets, pos: nat, n: nat)
    requires SameBody(x, y) && pos >= 12
    ensures AnswersStart(x, pos, n) == AnswersStart(y, pos, n) >= 12
    decreases n
  {
    SameNameSkip(x, y, pos);
    hide NameSkip;
    if n > 0 && SkipQuestion(x, pos) != pos { SameAnswersStart(x, y, SkipQuestion(x, pos), n - 1); }
  }

  lemma SameFields(x: Octets, y: Octets)
    requires SameBody(x, y)
    ensures FieldsOf(x) == FieldsOf(y)
  {
    SameU16(x, y, 4);
    SameU16(x, y, 6);
    hide U16, TtlFields, AnswersStart;
    SameAnswersStart(x, y, 12, U16(x, 4));
    SameTtlFields(x, y, AnswersStart(x, 12, U16(x, 4)), U16(x, 6));
  }

  lemma RewrittenBody(x: Octets, y: Octets, ttl: u32)
    requires SameBody(x, y)
    ensures SameUpToTtl(Reply(Rewrite(x, ttl)), Reply(y), ttl)
  {
    SameFields(x, y);
    RewriteTouchesOnlyTtls(x, ttl);
    hide Rewrite, FieldsOf;
    forall i | 4 <= i < |y| ensures x[i] == y[i] {
      assert x[i] == x[4..][i - 4];
    }
  }

  /** The call finds a live entry for its questions. */
  ghost predicate Hits(cfg: Config, calls: seq<Call>, call: Call)
    requires ValidConfig(cfg)
  {
    && Accepts(call.query)
    && Lookup(CacheAfter(cfg, calls), KeyOf(call.query), cfg.ttlMs, call.clock).0.Some?
  }

  /** The outcome is the rewritten uncached reply to `filler`, which asks what `asker` asks. */
  ghost predicate FilledBy(cfg: Config, filler: Octets, asker: Octets, out: Outcome)
    requires ValidConfig(cfg)
  {
    && AskSame(filler, asker)
    && Cacheable(cfg, filler)
    && out == Reply(Rewrite(Uncached(cfg, filler).bytes, StoredTtl(cfg.ttlMs)))
  }

  /** Where a reply comes from: on a hit, the uncached reply to an earlier query of the run with the same questions, put
      into the cache less than the TTL ago; otherwise the resolver. */
  lemma {:induction false} HitRepeatsEarlierReply(cfg: Config, calls: seq<Call>, call: Call)
    requires ValidConfig(cfg)
    ensures var out := Cached(cfg, calls, call);
            if Hits(cfg, calls, call) then
              exists i :: 0 <= i < |calls| && FilledBy(cfg, calls[i].query, call.query, out)
                          && call.clock.check - calls[i].clock.insert < cfg.ttlMs
            else out == Uncached(cfg, call.query)
  {
    hide Cacheable, Uncached, QuestionsOf, RawKey, Rewrite, Distinct, Accepts;
    var m, b := CacheAfter(cfg, calls), call.query;
    RunKeepsInvariant(cfg, calls);
    hide CacheAfter;
    if Accepts(b) {
      AcceptedIsLong(b);
      var key := KeyOf(b);
      var (hit, m1) := Lookup(m, key, cfg.ttlMs, call.clock);
      LookupShape(m, key, cfg.ttlMs, call.clock);
      if hit.Some? {
        FindMeansEntry(m, key);
        var e := Find(m, key).value;
        var i :| 0 <= i < |calls| && Stored(cfg, calls[i], key, e);
        CacheableIsAccepted(cfg, calls[i].query);
        RawKeyInjective(QuestionsOf(calls[i].query), QuestionsOf(b));
        assert FilledBy(cfg, calls[i].query, b, Cached(cfg, calls, call));
      }
    } else {
      Ignored(cfg, b);
    }
  }

  lemma FieldsFollowHeader(b: Octets)
    requires |b| >= 12
    ensures forall j :: 0 <= j < |FieldsOf(b)| ==> FieldsOf(b)[j] >= 18
  {
    assert SameBody(b, b);
    SameAnswersStart(b, b, 12, U16(b, 4));
    FieldsAreInside(b, AnswersStart(b, 12, U16(b, 4)), U16(b, 6));
  }

  lemma ReplyKeepsId(cfg: Config, b: Octets)
    requires ValidConfig(cfg) && Cacheable(cfg, b)
    ensures |b| >= 12 && Uncached(cfg, b).Reply? && |Uncached(cfg, b).bytes| >= 12
    ensures U16(Uncached(cfg, b).bytes, 0) == U16(b, 0)
  {
    hide PlanFor, QuestionsOf, ResponseFlags, Uncached, U16;
    ReplyHeader(cfg, b);
  }

  /** A cached reply keeps the first four octets, id and flags, of the reply to the query that filled the entry: it
      carries the asker's id exactly when the two queries have the same one. */
  lemma {:induction false} CachedReplyKeepsHeader(cfg: Config, filler: Octets, asker: Octets, out: Outcome)
    requires ValidConfig(cfg) && FilledBy(cfg, filler, asker, out)
    ensures |filler| >= 12 && |asker| >= 12 && out.Reply? && |out.bytes| >= 12
    ensures out.bytes[..4] == Uncached(cfg, filler).bytes[..4]
    ensures U16(out.bytes, 0) == U16(asker, 0) <==> U16(filler, 0) == U16(asker, 0)
  {
    CacheableIsAccepted(cfg, filler);
    hide Cacheable, QuestionsOf, Rewrite, PlanFor;
    AcceptedIsLong(filler);
    AcceptedIsLong(asker);
    ReplyKeepsId(cfg, filler);
    var was := Uncached(cfg, filler).bytes;
    hide Uncached;
    FieldsFollowHeader(was);
    RewriteTouchesOnlyTtls(was, StoredTtl(cfg.ttlMs));
    assert forall i :: 0 <= i < 4 ==> out.bytes[i] == was[i];
  }

  lemma Ignored(cfg: Config, b: Octets)
    requires ValidConfig(cfg) && !Accepts(b)
    ensures Uncached(cfg, b) == Reply([])
  {
  }

  /** Two accepted queries that ask the same. */
  predicate AskSame(a: Octets, b: Octets)
  {
    Accepts(a) && Accepts(b) && SameQuestions(QuestionsOf(a), QuestionsOf(b))
  }

  lemma AskAlike(a: Octets, b: Octets)
    requires AskSame(a, b)
    ensures Accepts(a) && Accepts(b) && Alike(QuestionsOf(a), QuestionsOf(b))
  {
    AcceptedIsLong(a);
    AcceptedIsLong(b);
    hide QuestionsOf;
    SameIsAlike(QuestionsOf(a), QuestionsOf(b));
  }

  /** After every run, at any times, the cached server answers as the uncached one does: the same exception, null or
      empty outcome, and the same octets but for the first four and the answer TTLs. */
  lemma {:induction false} CacheIsTransparent(cfg: Config, calls: seq<Call>, call: Call)
    requires ValidConfig(cfg)
    ensures SameUpToTtl(Cached(cfg, calls, call), Uncached(cfg, call.query), StoredTtl(cfg.ttlMs))
  {
    HitRepeatsEarlierReply(cfg, calls, call);
    hide Cached, Cacheable, Uncached, QuestionsOf, Rewrite, Accepts, SameUpToTtl, SameQuestions, Hits;
    if Hits(cfg, calls, call) {
      var i :| 0 <= i < |calls| && FilledBy(cfg, calls[i].query, call.query, Cached(cfg, calls, call));
      CacheableIsAccepted(cfg, calls[i].query);
      AskAlike(calls[i].query, call.query);
      SameQuestionsSameOutcome(cfg, calls[i].query, call.query);
      RewrittenBody(Uncached(cfg, calls[i].query).bytes, Uncached(cfg, call.query).bytes, StoredTtl(cfg.ttlMs));
    } else {
      SameUpToTtlReflexive(Uncached(cfg, call.query), StoredTtl(cfg.ttlMs));
    }
  }

  lemma SameUpToTtlReflexive(x: Outcome, ttl: u32)
    ensures SameUpToTtl(x, x, ttl)
  {
  }

  // ---------------------------------------------------------------- least recently used

  function Touch(ks: seq<Key>, k: Key): seq<Key>
  {
    Without(ks, k) + [k]
  }

  /** The cacheable keys of a run, each once, in order of last use. No clock appears in it. */
  ghost function Recent(cfg: Config, calls: seq<Call>): seq<Key>
    requires ValidConfig(cfg)
  {
    if calls == [] then []
    else
      var n := |calls| - 1;
      if Cacheable(cfg, calls[n].query)
      then CacheableIsAccepted(cfg, calls[n].query); Touch(Recent(cfg, calls[..n]), KeyOf(calls[n].query))
      else Recent(cfg, calls[..n])
  }

  lemma TakeLastAppend(a: seq<Key>, b: seq<Key>, n: nat)
    requires |b| == n
    ensures TakeLast(a + b, n) == b
  {
  }

  lemma TouchKept(a: seq<Key>, b: seq<Key>, k: Key)
    requires k in b && k !in a && Distinct(b)
    ensures TakeLast(Touch(b, k), |b|) == TakeLast(Touch(a + b, k), |b|)
  {
    WithoutAppend(a, b, k);
    WithoutAbsent(a, k);
    WithoutDistinct(b, k);
    hide Without, TakeLast;
    var last := Without(b, k) + [k];
    assert Touch(a + b, k) == a + last;
    assert Touch(b, k) == [] + last;
    TakeLastAppend(a, last, |b|);
    TakeLastAppend([], last, |b|);
  }

  lemma TouchNew(a: seq<Key>, b: seq<Key>, k: Key)
    requires k !in b && b != []
    ensures TakeLast(Touch(b, k), |b|) == TakeLast(Touch(a + b, k), |b|)
  {
    WithoutAppend(a, b, k);
    WithoutAbsent(b, k);
    hide Without, TakeLast;
    var last := b[1..] + [k];
    assert Touch(a + b, k) == (Without(a, k) + [b[0]]) + last;
    assert Touch(b, k) == [b[0]] + last;
    TakeLastAppend(Without(a, k) + [b[0]], last, |b|);
    TakeLastAppend([b[0]], last, |b|);
  }

  lemma TakeLastTouch(ks: seq<Key>, n: nat, k: Key)
    requires n >= 1 && Distinct(ks)
    ensures TakeLast(Touch(TakeLast(ks, n), k), n) == TakeLast(Touch(ks, k), n)
  {
    if |ks| > n {
      hide Without, Touch, Distinct;
      var i := |ks| - n;
      assert ks == ks[..i] + ks[i..] && TakeLast(ks, n) == ks[i..] && |ks[i..]| == n;
      hide TakeLast;
      if k in ks[i..] {
        DisjointHalves(ks, i, k);
        DistinctSuffix(ks, i);
        TouchKept(ks[..i], ks[i..], k);
      } else {
        TouchNew(ks[..i], ks[i..], k);
      }
    }
  }

  lemma DisjointHalves(ks: seq<Key>, i: nat, k: Key)
    requires Distinct(ks) && i <= |ks| && k in ks[i..]
    ensures k !in ks[..i]
  {
  }

  lemma DistinctSuffix(ks: seq<Key>, i: nat)
    requires Distinct(ks) && i <= |ks|
    ensures Distinct(ks[i..])
  {
  }

  lemma TouchDistinct(ks: seq<Key>, k: Key)
    requires Distinct(ks)
    ensures Distinct(Touch(ks, k))
  {
    WithoutDistinct(ks, k);
    var r := Without(ks, k);
    forall i | 0 <= i < |r| ensures r[i] != k { assert r[i] in r; }
  }

  lemma {:induction false} RecentDistinct(cfg: Config, calls: seq<Call>)
    requires ValidConfig(cfg)
    ensures Distinct(Recent(cfg, calls))
  {
    hide Cacheable;
    if calls != [] {
      var n := |calls| - 1;
      RecentDistinct(cfg, calls[..n]);
      if Cacheable(cfg, calls[n].query) {
        CacheableIsAccepted(cfg, calls[n].query);
        TouchDistinct(Recent(cfg, calls[..n]), KeyOf(calls[n].query));
      }
    }
  }

  /** The effect of one call on the order of the keys. */
  lemma {:induction false} StepTouches(cfg: Config, calls: seq<Call>, m: Cache, call: Call)
    requires ValidConfig(cfg) && CacheInv(cfg, calls, m) && cfg.ttlMs > 0
    ensures var ks := Keys(ResolveStep(cfg, m, call.query, call.clock).1);
            if Cacheable(cfg, call.query)
            then |call.query| >= 12 && ks == TakeLast(Touch(Keys(m), KeyOf(call.query)), cfg.maxSize)
            else ks == Keys(m)
  {
    hide Cacheable, Uncached, QuestionsOf, RawKey, Rewrite, Justified, Distinct;
    hide Lookup, Store, Accepts, Without, TakeLast, Touch;
    var b := call.query;
    if Accepts(b) {
      AcceptedIsLong(b);
      var key := KeyOf(b);
      var (hit, m1) := Lookup(m, key, cfg.ttlMs, call.clock);
      LookupShape(m, key, cfg.ttlMs, call.clock);
      FindMeansEntry(m, key);
      UncacheableIsAbsent(cfg, calls, m, b);
      if hit.Some? {
        HitTouches(m, key, hit.value, cfg.maxSize);
      } else if Cacheable(cfg, b) {
        CacheableIsAccepted(cfg, b);
        MissTouches(m, key, Uncached(cfg, b).bytes, cfg.ttlMs, cfg.maxSize, call.clock.insert);
      } else {
        WithoutAbsent(Keys(m), key);
      }
    } else {
      NotCacheable(cfg, b);
    }
  }

  lemma {:induction false} HitTouches(m: Cache, key: Key, e: CacheEntry, n: nat)
    requires Distinct(Keys(m)) && key in Keys(m) && n >= 1 && |m| <= n
    ensures Keys(Delete(m, key) + [(key, e)]) == TakeLast(Touch(Keys(m), key), n)
  {
    hide Without, TakeLast, Distinct;
    DeleteKeys(m, key);
    DeleteKeepsDistinct(m, key);
    AppendDistinct(Delete(m, key), key, e);
    KeyTouched(Keys(m), key, n);
  }

  lemma {:induction false} MissTouches(m: Cache, key: Key, response: Octets, ttlMs: nat, max: nat, now: int)
    requires Distinct(Keys(m)) && 1 <= max && |m| <= max && 0 < ttlMs <= 3600000
    ensures Keys(Store(Delete(m, key), key, response, ttlMs, max, now)) == TakeLast(Touch(Keys(m), key), max)
  {
    hide Without, TakeLast, Distinct, Store, EvictTo, Rewrite;
    DeleteKeys(m, key);
    DeleteKeepsDistinct(m, key);
    var m1 := Delete(m, key);
    StoreShape(m1, key, response, ttlMs, max, now);
    AppendDistinct(EvictTo(m1, max), key, CacheEntry(Rewrite(response, StoredTtl(ttlMs)), now, ttlMs));
    EvictKeys(m1, max);
    KeyTouched(Keys(m), key, max);
  }

  /** Touching a key of at most `n` keys: the others stay, but the oldest goes when the key is new and they are n. */
  lemma KeyTouched(ks: seq<Key>, k: Key, n: nat)
    requires n >= 1 && |ks| <= n && Distinct(ks)
    ensures var rest := Without(ks, k);
            && (k !in ks ==> rest == ks)
            && (k in ks ==> |rest| < n)
            && TakeLast(Touch(ks, k), n) == (if |rest| < n then rest else TakeLast(rest, n - 1)) + [k]
  {
    if k in ks { WithoutDistinct(ks, k); } else { WithoutAbsent(ks, k); }
    hide Without, Distinct;
    var rest := Without(ks, k);
    if |rest| == n { assert (rest + [k])[1..] == rest[1..] + [k]; }
  }

  lemma NotCacheable(cfg: Config, b: Octets)
    requires ValidConfig(cfg) && !Accepts(b)
    ensures !Cacheable(cfg, b)
  {
  }

  /** With a positive TTL the cache holds exactly the `maxSize` most recently used cacheable keys, in that order,
      whatever the clock did. */
  lemma {:induction false} CacheIsLeastRecentlyUsed(cfg: Config, calls: seq<Call>)
    requires ValidConfig(cfg) && cfg.ttlMs > 0
    ensures Keys(CacheAfter(cfg, calls)) == TakeLast(Recent(cfg, calls), cfg.maxSize)
  {
    hide ResolveStep, Cacheable, Touch;
    if calls != [] {
      var n := |calls| - 1;
      CacheIsLeastRecentlyUsed(cfg, calls[..n]);
      RunKeepsInvariant(cfg, calls[..n]);
      RecentDistinct(cfg, calls[..n]);
      hide CacheInv, TakeLast;
      StepTouches(cfg, calls[..n], CacheAfter(cfg, calls[..n]), calls[n]);
      if Cacheable(cfg, calls[n].query) {
        TakeLastTouch(Recent(cfg, calls[..n]), cfg.maxSize, KeyOf(calls[n].query));
      }
    }
  }

  // ---------------------------------------------------------------- when a call hits

  /** The call puts a reply under the key: it is cacheable and finds nothing live. */
  ghost predicate StoresUnder(cfg: Config, calls: seq<Call>, call: Call, k: Key)
    requires ValidConfig(cfg)
  {
    && Cacheable(cfg, call.query)
    && !Hits(cfg, calls, call)
    && (CacheableIsAccepted(cfg, call.query); KeyOf(call.query) == k)
  }

  /** The last call of the run that put a reply under the key. */
  ghost function LastStore(cfg: Config, calls: seq<Call>, k: Key): (i: Option<nat>)
    requires ValidConfig(cfg)
    ensures i.Some? ==> i.value < |calls|
  {
    if calls == [] then None
    else
      var n := |calls| - 1;
      if StoresUnder(cfg, calls[..n], calls[n], k) then Some(n) else LastStore(cfg, calls[..n], k)
  }

  /** The entry is what the last call that stored under its key left. */
  ghost predicate IsLastStore(cfg: Config, calls: seq<Call>, k: Key, e: CacheEntry)
    requires ValidConfig(cfg)
  {
    var i := LastStore(cfg, calls, k);
    i.Some? && Stored(cfg, calls[i.value], k, e)
  }

  lemma {:induction false} DeleteKeeps(m: Cache, key: Key)
    ensures forall x :: x in Delete(m, key) ==> x in m
  {
    if m != [] { DeleteKeeps(m[1..], key); }
  }

  /** What one call leaves in the cache: old entries under other keys, and under its own key the entry it found or the
      one it stores. */
  lemma {:induction false} EntriesAfterStep(cfg: Config, calls: seq<Call>, call: Call, x: (Key, CacheEntry))
    requires ValidConfig(cfg) && cfg.ttlMs > 0 && x in CacheAfter(cfg, calls + [call])
    ensures || (StoresUnder(cfg, calls, call, x.0) && Stored(cfg, call, x.0, x.1))
            || (!StoresUnder(cfg, calls, call, x.0)
                && exists y :: y in CacheAfter(cfg, calls) && y.0 == x.0 && SameStored(y.1, x.1))
  {
    hide Cacheable, Uncached, QuestionsOf, RawKey, Rewrite, Distinct, Lookup, Store, Accepts, Fills, CacheInv;
    var m, b := CacheAfter(cfg, calls), call.query;
    assert (calls + [call])[..|calls|] == calls;
    RunDistinct(cfg, calls);
    hide CacheAfter;
    if Accepts(b) {
      AcceptedIsLong(b);
      var key := KeyOf(b);
      var (hit, m1) := Lookup(m, key, cfg.ttlMs, call.clock);
      LookupShape(m, key, cfg.ttlMs, call.clock);
      DeleteKeeps(m, key);
      if hit.Some? {
        FindMeansEntry(m, key);
        assert x.0 == key && x.1 == hit.value ==> (key, Find(m, key).value) in m;
      } else if Cacheable(cfg, b) {
        CacheableIsAccepted(cfg, b);
        NewStored(cfg, m1, call, x);
      }
    } else {
      NotCacheable(cfg, b);
    }
  }

  lemma {:induction false} RunDistinct(cfg: Config, calls: seq<Call>)
    requires ValidConfig(cfg)
    ensures Distinct(Keys(CacheAfter(cfg, calls)))
  {
    RunKeepsInvariant(cfg, calls);
  }

  lemma {:induction false} NewStored(cfg: Config, m: Cache, call: Call, x: (Key, CacheEntry))
    requires ValidConfig(cfg) && cfg.ttlMs > 0 && Cacheable(cfg, call.query) && Distinct(Keys(m)) && |call.query| >= 12
    requires KeyOf(call.query) !in Keys(m) && Uncached(cfg, call.query).Reply?
    requires x in Store(m, KeyOf(call.query), Uncached(cfg, call.query).bytes, cfg.ttlMs, cfg.maxSize,
                        call.clock.insert)
    ensures if x.0 == KeyOf(call.query) then Stored(cfg, call, x.0, x.1) else x in m
  {
    hide Cacheable, Uncached, QuestionsOf, RawKey, Rewrite, Store, Keys;
    var key := KeyOf(call.query);
    StoreShape(m, key, Uncached(cfg, call.query).bytes, cfg.ttlMs, cfg.maxSize, call.clock.insert);
    var rest := EvictTo(m, cfg.maxSize);
    if x in rest {
      KeyOfEntry(rest, x);
    }
  }

  lemma KeyOfEntry(m: Cache, x: (Key, CacheEntry))
    requires x in m
    ensures x.0 in Keys(m)
  {
    var i :| 0 <= i < |m| && m[i] == x;
    assert Keys(m)[i] == x.0;
  }

  /** Every entry is what the last call that stored under its key left. */
  lemma {:induction false} EntriesAreLastStores(cfg: Config, calls: seq<Call>, x: (Key, CacheEntry))
    requires ValidConfig(cfg) && cfg.ttlMs > 0 && x in CacheAfter(cfg, calls)
    ensures IsLastStore(cfg, calls, x.0, x.1)
    decreases |calls|
  {
    if calls != [] {
      hide *;
      var n := |calls| - 1;
      assert calls == calls[..n] + [calls[n]];
      EntriesAfterStep(cfg, calls[..n], calls[n], x);
      if StoresUnder(cfg, calls[..n], calls[n], x.0) {
        NewestStore(cfg, calls, x.0, x.1);
      } else {
        var y :| y in CacheAfter(cfg, calls[..n]) && y.0 == x.0 && SameStored(y.1, x.1);
        EntriesAreLastStores(cfg, calls[..n], y);
        OlderStore(cfg, calls, x.0, y.1, x.1);
      }
    }
  }

  lemma NewestStore(cfg: Config, calls: seq<Call>, k: Key, e: CacheEntry)
    requires ValidConfig(cfg) && calls != []
    requires StoresUnder(cfg, calls[..|calls| - 1], calls[|calls| - 1], k) && Stored(cfg, calls[|calls| - 1], k, e)
    ensures IsLastStore(cfg, calls, k, e)
  {
    hide StoresUnder, Stored;
  }

  lemma OlderStore(cfg: Config, calls: seq<Call>, k: Key, e: CacheEntry, f: CacheEntry)
    requires ValidConfig(cfg) && calls != [] && !StoresUnder(cfg, calls[..|calls| - 1], calls[|calls| - 1], k)
    requires IsLastStore(cfg, calls[..|calls| - 1], k, e) && SameStored(e, f)
    ensures IsLastStore(cfg, calls, k, f)
  {
    hide StoresUnder, Fills;
    var before := calls[..|calls| - 1];
    assert LastStore(cfg, calls, k) == LastStore(cfg, before, k);
    hide LastStore;
    assert calls[LastStore(cfg, before, k).value] == before[LastStore(cfg, before, k).value];
  }

  /** A call hits exactly when its questions are among the `maxSize` most recently used cacheable ones and the last call
      that stored a reply to them did so less than the TTL ago. */
  lemma {:induction false} HitsExactly(cfg: Config, calls: seq<Call>, call: Call)
    requires ValidConfig(cfg)
    ensures Hits(cfg, calls, call)
       <==> && cfg.ttlMs > 0 && Accepts(call.query) && |call.query| >= 12
            && KeyOf(call.query) in TakeLast(Recent(cfg, calls), cfg.maxSize)
            && LastStore(cfg, calls, KeyOf(call.query)).Some?
            && call.clock.check - calls[LastStore(cfg, calls, KeyOf(call.query)).value].clock.insert < cfg.ttlMs
  {
    hide Cacheable, QuestionsOf, RawKey, Accepts, TakeLast, Recent, Distinct, LastStore, Fills;
    RunKeepsInvariant(cfg, calls);
    var m, b := CacheAfter(cfg, calls), call.query;
    if cfg.ttlMs > 0 { CacheIsLeastRecentlyUsed(cfg, calls); }
    hide CacheAfter, Justified;
    if Accepts(b) {
      AcceptedIsLong(b);
      var key := KeyOf(b);
      FindMeansEntry(m, key);
      if Find(m, key).Some? {
        assert (key, Find(m, key).value) in m;
        EntriesAreLastStores(cfg, calls, (key, Find(m, key).value));
      }
    }
  }

  lemma {:induction false} CollectIgnoresSize(cfg: Config, size: nat, qs: seq<Question>, acc: seq<Octets>)
    requires ValidConfig(cfg) && size >= 1
    ensures Collect(cfg.(maxSize := size), qs, acc) == Collect(cfg, qs, acc)
    decreases |qs|
  {
    hide EntriesOf, OfType;
    if qs != [] {
      assert HostOf(cfg.(maxSize := size), qs[0]) == HostOf(cfg, qs[0]);
      hide HostOf;
      match HostOf(cfg, qs[0])
      case None => CollectIgnoresSize(cfg, size, qs[1..], acc);
      case Some(records) =>
        HostIsValid(cfg, qs[0]);
        var es := EntriesOf(OfType(records, qs[0].qtype));
        if es.Some? { CollectIgnoresSize(cfg, size, qs[1..], acc + es.value); }
    }
  }

  lemma PlanIgnoresSize(cfg: Config, size: nat, qs: seq<Question>)
    requires ValidConfig(cfg) && size >= 1
    ensures PlanFor(cfg.(maxSize := size), qs) == PlanFor(cfg, qs)
  {
    CollectIgnoresSize(cfg, size, qs, []);
    var cfg' := cfg.(maxSize := size);
    assert forall q :: HostOf(cfg', q) == HostOf(cfg, q);
    hide HostOf, Collect;
    assert Known(cfg', qs) == Known(cfg, qs);
    assert Denied(cfg', qs) == Denied(cfg, qs);
    hide Known, Denied;
  }

  lemma {:induction false} CacheableIgnoresSize(cfg: Config, size: nat, b: Octets)
    requires ValidConfig(cfg) && size >= 1
    ensures Cacheable(cfg.(maxSize := size), b) <==> Cacheable(cfg, b)
  {
    if Accepts(b) {
      hide Accepts, U16, QuestionsOf, PlanFor, Assemble;
      AcceptedIsLong(b);
      PlanIgnoresSize(cfg, size, QuestionsOf(b));
    }
  }

  lemma {:induction false} RecentIgnoresSize(cfg: Config, size: nat, calls: seq<Call>)
    requires ValidConfig(cfg) && size >= 1
    ensures Recent(cfg.(maxSize := size), calls) == Recent(cfg, calls)
  {
    hide Cacheable;
    if calls != [] {
      RecentIgnoresSize(cfg, size, calls[..|calls| - 1]);
      CacheableIgnoresSize(cfg, size, calls[|calls| - 1].query);
    }
  }

  /** On the same run a smaller cache holds a subset of what a larger one holds. */
  lemma {:induction false} SmallerCacheIsIncluded(cfg: Config, larger: nat, calls: seq<Call>)
    requires ValidConfig(cfg) && cfg.ttlMs > 0 && cfg.maxSize <= larger
    ensures forall k :: k in Keys(CacheAfter(cfg, calls)) ==> k in Keys(CacheAfter(cfg.(maxSize := larger), calls))
  {
    CacheIsLeastRecentlyUsed(cfg, calls);
    CacheIsLeastRecentlyUsed(cfg.(maxSize := larger), calls);
    RecentIgnoresSize(cfg, larger, calls);
    hide CacheAfter, Recent;
    TakeLastGrows(Recent(cfg, calls), cfg.maxSize, larger);
  }

  lemma TakeLastGrows(ks: seq<Key>, n: nat, m: nat)
    requires n <= m
    ensures forall k :: k in TakeLast(ks, n) ==> k in TakeLast(ks, m)
  {
    var a, b := TakeLast(ks, n), TakeLast(ks, m);
    assert a == b[|b| - |a|..];
  }
}
