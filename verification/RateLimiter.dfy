/** The fixed-window rate limiter over timed runs. */
module RateLimiter {
  import opened Bytes
  import opened OrderedMap

  type Time = int

  /** An IpBucket: the requests allowed in the window that ends at resetTime. */
  datatype Bucket = Bucket(count: nat, resetTime: Time)

  datatype Limits = Limits(maxRequests: nat, windowMs: nat, maxTrackedIps: nat)

  type Table = OMap<Bucket>

  /** A limit of zero still lets the request through that opens a window. */
  function Effective(limits: Limits): nat
  {
    if limits.maxRequests == 0 then 1 else limits.maxRequests
  }

  // ---------------------------------------------------------------- the three operations

  predicate Expired(b: Option<Bucket>, now: Time)
  {
    b.None? || now >= b.value.resetTime
  }

  /** A full table loses its oldest entry, whoever's it is. */
  function Evicted(limits: Limits, m: Table): Table
  {
    if |m| >= limits.maxTrackedIps && m != [] then Delete(m, m[0].0) else m
  }

  function AllowTable(limits: Limits, m: Table, ip: Key, now: Time): Table
  {
    var b := Find(m, ip);
    if Expired(b, now) then Put(Evicted(limits, m), ip, Bucket(1, now + limits.windowMs))
    else if b.value.count >= limits.maxRequests then m
    else Put(m, ip, Bucket(b.value.count + 1, b.value.resetTime))
  }

  predicate Admits(limits: Limits, b: Option<Bucket>, now: Time)
  {
    Expired(b, now) || b.value.count < limits.maxRequests
  }

  predicate Allows(limits: Limits, m: Table, ip: Key, now: Time)
  {
    Admits(limits, Find(m, ip), now)
  }

  function Collected(m: Table, now: Time): Table
  {
    if m == [] then []
    else if now >= m[0].1.resetTime then Collected(m[1..], now)
    else [m[0]] + Collected(m[1..], now)
  }

  function RequestCount(m: Table, ip: Key, now: Time): nat
  {
    var b := Find(m, ip);
    if Expired(b, now) then 0 else b.value.count
  }

  class RateLimiter {
    const limits: Limits
    var buckets: Table

    constructor (options: Limits)
      ensures limits == options && buckets == []
    {
      limits, buckets := options, [];
    }

    method Allow(ip: Key, now: Time) returns (allowed: bool)
      modifies this
      ensures buckets == AllowTable(limits, old(buckets), ip, now)
      ensures allowed == Allows(limits, old(buckets), ip, now)
    {
      var bucket := Find(buckets, ip);
      if bucket.None? || now >= bucket.value.resetTime {
        if |buckets| >= limits.maxTrackedIps {
          if |buckets| > 0 {
            var oldestKey := buckets[0].0;
            buckets := Delete(buckets, oldestKey);
          }
        }
        buckets := Put(buckets, ip, Bucket(1, now + limits.windowMs));
        return true;
      }
      if bucket.value.count >= limits.maxRequests { return false; }
      buckets := Put(buckets, ip, Bucket(bucket.value.count + 1, bucket.value.resetTime));
      return true;
    }

    /** Deleting while iterating: the entries before `i` stay, the rest are still to be visited. */
    method GarbageCollect(now: Time)
      requires Distinct(Keys(buckets))
      modifies this
      ensures buckets == Collected(old(buckets), now)
    {
      var i := 0;
      while i < |buckets|
        invariant 0 <= i <= |buckets|
        invariant Distinct(Keys(buckets))
        invariant buckets[..i] + Collected(buckets[i..], now) == Collected(old(buckets), now)
        decreases |buckets| - i
      {
        hide *;
        var entry := buckets[i];
        CollectStep(buckets, i, now);
        DeleteAt(buckets, i);
        if now >= entry.1.resetTime {
          buckets := Delete(buckets, entry.0);
        } else {
          i := i + 1;
        }
      }
      assert buckets[..i] == buckets && buckets[i..] == [] && Collected([], now) == [];
    }

    method GetRequestCount(ip: Key, now: Time) returns (count: nat)
      ensures count == RequestCount(buckets, ip, now)
    {
      var bucket := Find(buckets, ip);
      if bucket.None? || now >= bucket.value.resetTime { return 0; }
      return bucket.value.count;
    }

    method Destroy()
      modifies this
      ensures buckets == []
    {
      buckets := [];
    }
  }

  lemma {:induction false} DeleteAbsent(m: Table, k: Key)
    requires forall j :: 0 <= j < |m| ==> m[j].0 != k
    ensures Delete(m, k) == m
  {
    if m != [] {
      DeleteAbsent(m[1..], k);
    }
  }

  lemma {:induction false} DeleteOnly(m: Table, i: nat)
    requires i < |m| && forall j :: 0 <= j < |m| && j != i ==> m[j].0 != m[i].0
    ensures Delete(m, m[i].0) == m[..i] + m[i + 1..]
  {
    if i == 0 {
      DeleteAbsent(m[1..], m[0].0);
    } else {
      DeleteOnly(m[1..], i - 1);
      assert m[..i] + m[i + 1..] == [m[0]] + (m[1..][..i - 1] + m[1..][i..]);
    }
  }

  lemma {:induction false} DeleteAt(m: Table, i: nat)
    requires Distinct(Keys(m)) && i < |m|
    ensures Delete(m, m[i].0) == m[..i] + m[i + 1..]
    ensures Distinct(Keys(Delete(m, m[i].0)))
  {
    forall j | 0 <= j < |m| && j != i ensures m[j].0 != m[i].0 {
      assert Keys(m)[j] == m[j].0 && Keys(m)[i] == m[i].0;
    }
    hide Delete, Without;
    DeleteOnly(m, i);
    DeleteKeys(m, m[i].0);
    WithoutDistinct(Keys(m), m[i].0);
  }

  /** One turn of the collecting loop leaves the outcome the same, whether entry `i` goes or stays. */
  lemma CollectStep(m: Table, i: nat, now: Time)
    requires i < |m|
    ensures now >= m[i].1.resetTime ==>
              var d := m[..i] + m[i + 1..];
              |d| == |m| - 1 && d[..i] + Collected(d[i..], now) == m[..i] + Collected(m[i..], now)
    ensures now < m[i].1.resetTime ==>
              m[..i + 1] + Collected(m[i + 1..], now) == m[..i] + Collected(m[i..], now)
  {
    Cut(m, i);
    CollectHead(m[i..], now);
    hide *;
    assert m[i..][0] == m[i] && m[i..][1..] == m[i + 1..];
    if now < m[i].1.resetTime {
      assert m[..i + 1] + Collected(m[i + 1..], now) == m[..i] + ([m[i]] + Collected(m[i + 1..], now));
    }
  }

  lemma CollectHead(m: Table, now: Time)
    requires m != []
    ensures Collected(m, now) == (if now >= m[0].1.resetTime then [] else [m[0]]) + Collected(m[1..], now)
  {
  }

  lemma Cut(m: Table, i: nat)
    requires i < |m|
    ensures var d := m[..i] + m[i + 1..]; |d| == |m| - 1 && d[..i] == m[..i] && d[i..] == m[i + 1..]
  {
  }

  // ---------------------------------------------------------------- runs

  datatype Event = Allow(ip: Key, now: Time) | Collect(now: Time) | Count(ip: Key, now: Time)

  function Next(limits: Limits, m: Table, e: Event): Table
  {
    match e
    case Allow(ip, now) => AllowTable(limits, m, ip, now)
    case Collect(now) => Collected(m, now)
    case Count(_, _) => m
  }

  function Run(limits: Limits, m: Table, es: seq<Event>): Table
    decreases |es|
  {
    if es == [] then m else Run(limits, Next(limits, m, es[0]), es[1..])
  }

  /** A clock that never goes back. */
  predicate Monotone(es: seq<Event>)
  {
    forall i, j :: 0 <= i < j < |es| ==> es[i].now <= es[j].now
  }

  lemma {:induction false} CollectedKeys(m: Table, now: Time)
    ensures forall k :: k in Keys(Collected(m, now)) ==> k in Keys(m)
    ensures Distinct(Keys(m)) ==> Distinct(Keys(Collected(m, now)))
    ensures |Collected(m, now)| <= |m|
  {
    if m != [] {
      CollectedKeys(m[1..], now);
      var ks, rest := Keys(m), Collected(m[1..], now);
      assert ks[1..] == Keys(m[1..]);
      assert forall k :: k in ks[1..] ==> k in ks;
      if now < m[0].1.resetTime {
        assert Keys([m[0]] + rest) == [m[0].0] + Keys(rest);
        if Distinct(ks) {
          assert ks[0] !in ks[1..];
          ConsDistinct(m[0].0, Keys(rest));
        }
      }
    }
  }

  lemma ConsDistinct(k: Key, ks: seq<Key>)
    requires Distinct(ks) && k !in ks
    ensures Distinct([k] + ks)
  {
  }

  lemma AppendDistinct(ks: seq<Key>, k: Key)
    requires Distinct(ks) && k !in ks
    ensures Distinct(ks + [k])
  {
  }

  lemma AllowKeepsTable(limits: Limits, m: Table, ip: Key, now: Time)
    requires Distinct(Keys(m)) && limits.maxTrackedIps >= 1 && |m| <= limits.maxTrackedIps
    ensures Distinct(Keys(AllowTable(limits, m, ip, now))) && |AllowTable(limits, m, ip, now)| <= limits.maxTrackedIps
  {
    hide Distinct, Without, Find, Put, Delete;
    FindMeansEntry(m, ip);
    var e := Evicted(limits, m);
    assert Distinct(Keys(e)) && (|e| < limits.maxTrackedIps || ip in Keys(e)) by {
      if m != [] {
        assert m[0].0 == Keys(m)[0];
        DeleteKeys(m, m[0].0);
        WithoutDistinct(Keys(m), m[0].0);
      }
    }
    PutGrows(e, ip, Bucket(1, now + limits.windowMs));
    if !Expired(Find(m, ip), now) {
      PutGrows(m, ip, Bucket(Find(m, ip).value.count + 1, Find(m, ip).value.resetTime));
    }
  }

  lemma PutGrows(m: Table, ip: Key, b: Bucket)
    requires Distinct(Keys(m))
    ensures Distinct(Keys(Put(m, ip, b)))
    ensures |Put(m, ip, b)| == if ip in Keys(m) then |m| else |m| + 1
  {
    PutKeys(m, ip, b);
    hide Put;
    assert |Keys(Put(m, ip, b))| == |Put(m, ip, b)|;
    if ip !in Keys(m) { AppendDistinct(Keys(m), ip); }
  }

  /** The table never outgrows maxTrackedIps, whatever the clock does. */
  lemma {:induction false} TableIsBounded(limits: Limits, m: Table, es: seq<Event>)
    requires limits.maxTrackedIps >= 1 && Distinct(Keys(m)) && |m| <= limits.maxTrackedIps
    ensures Distinct(Keys(Run(limits, m, es))) && |Run(limits, m, es)| <= limits.maxTrackedIps
    decreases |es|
  {
    hide Distinct, AllowTable, Collected;
    if es != [] {
      match es[0] {
        case Allow(ip, now) => AllowKeepsTable(limits, m, ip, now);
        case Collect(now) => CollectedKeys(m, now);
        case Count(_, _) =>
      }
      TableIsBounded(limits, Next(limits, m, es[0]), es[1..]);
    }
  }

  // ---------------------------------------------------------------- the rate bound

  /** An allowed request and the start of the window that let it through. */
  datatype Entry = Entry(time: Time, start: Time)

  /** The requests of one address that a run allows, in order. */
  function LogStep(limits: Limits, m: Table, e: Event, x: Key): seq<Entry>
  {
    if e.Allow? && e.ip == x then Logged(limits, Find(m, x), e.now) else []
  }

  function Logged(limits: Limits, b: Option<Bucket>, now: Time): seq<Entry>
  {
    if !Admits(limits, b, now) then []
    else [Entry(now, if Expired(b, now) then now else b.value.resetTime - limits.windowMs)]
  }

  /** What a request of its own does to the bucket of an address. */
  function Requested(limits: Limits, b: Option<Bucket>, now: Time): Option<Bucket>
  {
    if Expired(b, now) then Some(Bucket(1, now + limits.windowMs))
    else if b.value.count >= limits.maxRequests then b
    else Some(Bucket(b.value.count + 1, b.value.resetTime))
  }

  function Log(limits: Limits, m: Table, es: seq<Event>, x: Key): seq<Entry>
    decreases |es|
  {
    if es == [] then []
    else LogStep(limits, m, es[0], x) + Log(limits, Next(limits, m, es[0]), es[1..], x)
  }

  /** Some step of the run evicts the live bucket of `x` to make room for another address. */
  predicate EvictsLive(limits: Limits, m: Table, e: Event, x: Key)
  {
    && e.Allow? && Expired(Find(m, e.ip), e.now)
    && |m| >= limits.maxTrackedIps && m != [] && m[0].0 == x
    && !Expired(Find(m, x), e.now)
  }

  predicate NeverEvicted(limits: Limits, m: Table, es: seq<Event>, x: Key)
    decreases |es|
  {
    es != [] ==> !EvictsLive(limits, m, es[0], x) && NeverEvicted(limits, Next(limits, m, es[0]), es[1..], x)
  }

  function InInterval(log: seq<Entry>, from: Time, until: Time): nat
  {
    if log == [] then 0
    else InInterval(log[..|log| - 1], from, until) + (if from <= log[|log| - 1].time < until then 1 else 0)
  }

  function InWindow(log: seq<Entry>, start: Time): nat
  {
    if log == [] then 0
    else InWindow(log[..|log| - 1], start) + (if log[|log| - 1].start == start then 1 else 0)
  }

  predicate InsideWindow(e: Entry, w: nat)
  {
    e.start <= e.time < e.start + w
  }

  predicate Spaced(d: Entry, e: Entry, w: nat)
  {
    d.start == e.start || d.start + w <= e.start
  }

  /** Windows do not overlap, each is opened by an allowed request and holds at most `most` of them. */
  predicate WellLogged(limits: Limits, log: seq<Entry>)
  {
    && (forall i :: 0 <= i < |log| ==> InsideWindow(log[i], limits.windowMs))
    && (forall i, j :: 0 <= i < j < |log| ==> Spaced(log[i], log[j], limits.windowMs))
    && (forall i :: 0 <= i < |log| ==> Entry(log[i].start, log[i].start) in log)
  }

  ghost predicate AtMost(limits: Limits, log: seq<Entry>)
  {
    forall s: Time :: InWindow(log, s) <= Effective(limits)
  }

  /** How the bucket of an address continues its log: a live bucket counts the last window, and otherwise that
      window is over. */
  predicate Continues(limits: Limits, b: Option<Bucket>, log: seq<Entry>, now: Time)
  {
    if Expired(b, now) then log != [] ==> log[|log| - 1].start + limits.windowMs <= now
    else
      && log != [] && log[|log| - 1].start == b.value.resetTime - limits.windowMs <= now
      && b.value.count == InWindow(log, log[|log| - 1].start)
  }

  ghost predicate LogInv(limits: Limits, b: Option<Bucket>, log: seq<Entry>, now: Time)
  {
    WellLogged(limits, log) && AtMost(limits, log) && Continues(limits, b, log, now)
  }

  lemma InWindowSnoc(log: seq<Entry>, e: Entry, s: Time)
    ensures InWindow(log + [e], s) == InWindow(log, s) + (if e.start == s then 1 else 0)
  {
    assert (log + [e])[..|log|] == log;
  }

  lemma {:induction false} FreshWindowIsEmpty(log: seq<Entry>, s: Time)
    requires forall i :: 0 <= i < |log| ==> log[i].start != s
    ensures InWindow(log, s) == 0
  {
    if log != [] { FreshWindowIsEmpty(log[..|log| - 1], s); }
  }

  /** The first request of a new window. */
  lemma OpenWindow(limits: Limits, log: seq<Entry>, now: Time)
    requires WellLogged(limits, log) && AtMost(limits, log)
    requires limits.windowMs >= 1
    requires log != [] ==> log[|log| - 1].start + limits.windowMs <= now
    ensures var t := log + [Entry(now, now)];
            WellLogged(limits, t) && AtMost(limits, t) && InWindow(t, now) == 1
  {
    var e, t := Entry(now, now), log + [Entry(now, now)];
    forall i | 0 <= i < |log| ensures Spaced(log[i], e, limits.windowMs) && log[i].start != now {
      assert i == |log| - 1 || Spaced(log[i], log[|log| - 1], limits.windowMs);
    }
    FreshWindowIsEmpty(log, now);
    forall s: Time ensures InWindow(t, s) <= Effective(limits) { InWindowSnoc(log, e, s); }
    InWindowSnoc(log, e, now);
    assert t[|log|] == e && e in t;
  }

  /** One more request of the last window. */
  lemma StayInWindow(limits: Limits, log: seq<Entry>, now: Time)
    requires WellLogged(limits, log) && AtMost(limits, log) && log != []
    requires var s := log[|log| - 1].start; s <= now < s + limits.windowMs && InWindow(log, s) < limits.maxRequests
    ensures var s := log[|log| - 1].start;
            var t := log + [Entry(now, s)];
            WellLogged(limits, t) && AtMost(limits, t) && InWindow(t, s) == InWindow(log, s) + 1
  {
    var last := log[|log| - 1].start;
    var e, t := Entry(now, last), log + [Entry(now, last)];
    forall i | 0 <= i < |log| ensures Spaced(log[i], e, limits.windowMs) {
      assert i == |log| - 1 || Spaced(log[i], log[|log| - 1], limits.windowMs);
    }
    forall s: Time ensures InWindow(t, s) <= Effective(limits) { InWindowSnoc(log, e, s); }
    InWindowSnoc(log, e, last);
    assert Entry(last, last) in log;
  }

  lemma {:induction false} FindAfterCollect(m: Table, now: Time, x: Key)
    requires Distinct(Keys(m))
    ensures Find(Collected(m, now), x) == if Expired(Find(m, x), now) then None else Find(m, x)
  {
    if m != [] {
      assert Keys(m)[1..] == Keys(m[1..]) && Keys(m)[0] == m[0].0;
      FindAfterCollect(m[1..], now, x);
      if m[0].0 == x {
        FindMeansEntry(m[1..], x);
      }
    }
  }

  /** The bucket of `x` after a step that does not evict it: only its own requests and its expiry change it. */
  lemma BucketAfter(limits: Limits, m: Table, e: Event, x: Key)
    requires Distinct(Keys(m)) && !EvictsLive(limits, m, e, x)
    ensures var b, b' := Find(m, x), Find(Next(limits, m, e), x);
            if e.Allow? && e.ip == x then b' == Requested(limits, b, e.now)
            else b' == b || (Expired(b, e.now) && b'.None?)
  {
    hide Put, Delete, Distinct, Find, Collected;
    match e {
      case Count(_, _) =>
      case Collect(now) => FindAfterCollect(m, now, x);
      case Allow(ip, now) =>
        var b := Find(m, ip);
        if Expired(b, now) {
          FindAfterPut(Evicted(limits, m), ip, Bucket(1, now + limits.windowMs), x);
          if m != [] { FindAfterDelete(m, m[0].0, x); }
        } else {
          FindAfterPut(m, ip, Bucket(b.value.count + 1, b.value.resetTime), x);
        }
    }
  }

  lemma OpenKeepsLog(limits: Limits, b: Option<Bucket>, log: seq<Entry>, before: Time, now: Time)
    requires limits.windowMs >= 1 && before <= now && LogInv(limits, b, log, before) && Expired(b, now)
    ensures LogInv(limits, Some(Bucket(1, now + limits.windowMs)), log + [Entry(now, now)], now)
  {
    hide WellLogged, AtMost, InWindow;
    OpenWindow(limits, log, now);
  }

  lemma StayKeepsLog(limits: Limits, b: Bucket, log: seq<Entry>, before: Time, now: Time)
    requires before <= now < b.resetTime && LogInv(limits, Some(b), log, before) && b.count < limits.maxRequests
    ensures LogInv(limits, Some(Bucket(b.count + 1, b.resetTime)),
                   log + [Entry(now, b.resetTime - limits.windowMs)], now)
  {
    hide WellLogged, AtMost, InWindow;
    StayInWindow(limits, log, now);
  }

  lemma OwnRequestKeepsLog(limits: Limits, b: Option<Bucket>, log: seq<Entry>, before: Time, now: Time)
    requires limits.windowMs >= 1 && before <= now && LogInv(limits, b, log, before)
    ensures LogInv(limits, Requested(limits, b, now), log + Logged(limits, b, now), now)
  {
    if Expired(b, now) {
      hide LogInv;
      OpenKeepsLog(limits, b, log, before, now);
    } else if b.value.count < limits.maxRequests {
      hide LogInv;
      StayKeepsLog(limits, b.value, log, before, now);
    } else {
      assert log + [] == log;
      hide WellLogged, AtMost, InWindow;
    }
  }

  lemma OtherStepKeepsLog(
    limits: Limits, b: Option<Bucket>, b': Option<Bucket>, log: seq<Entry>, before: Time, now: Time)
    requires before <= now && LogInv(limits, b, log, before)
    requires b' == b || (Expired(b, now) && b'.None?)
    ensures LogInv(limits, b', log, now)
  {
  }

  lemma StepKeepsLog(limits: Limits, m: Table, log: seq<Entry>, e: Event, x: Key, now: Time)
    requires limits.windowMs >= 1 && Distinct(Keys(m)) && now <= e.now
    requires LogInv(limits, Find(m, x), log, now) && !EvictsLive(limits, m, e, x)
    ensures LogInv(limits, Find(Next(limits, m, e), x), log + LogStep(limits, m, e, x), e.now)
  {
    BucketAfter(limits, m, e, x);
    hide Find, Next, EvictsLive, Distinct, LogInv, Logged, Requested, Keys;
    var b := Find(m, x);
    assert log + [] == log;
    if e.Allow? && e.ip == x {
      OwnRequestKeepsLog(limits, b, log, now, e.now);
    } else {
      OtherStepKeepsLog(limits, b, Find(Next(limits, m, e), x), log, now, e.now);
    }
  }

  lemma NextKeepsDistinct(limits: Limits, m: Table, e: Event)
    requires Distinct(Keys(m))
    ensures Distinct(Keys(Next(limits, m, e)))
  {
    hide Distinct, Without, Find, Put, Delete, Collected;
    match e {
      case Count(_, _) =>
      case Collect(now) => CollectedKeys(m, now);
      case Allow(ip, now) =>
        if m != [] {
          DeleteKeys(m, m[0].0);
          WithoutDistinct(Keys(m), m[0].0);
        }
        PutGrows(Evicted(limits, m), ip, Bucket(1, now + limits.windowMs));
        if !Expired(Find(m, ip), now) {
          PutGrows(m, ip, Bucket(Find(m, ip).value.count + 1, Find(m, ip).value.resetTime));
        }
    }
  }

  predicate From(es: seq<Event>, now: Time)
  {
    es != [] ==> now <= es[0].now
  }

  lemma {:induction false} RunKeepsLog(limits: Limits, m: Table, log: seq<Entry>, es: seq<Event>, x: Key, now: Time)
    requires limits.windowMs >= 1 && Distinct(Keys(m))
    requires Monotone(es) && From(es, now) && NeverEvicted(limits, m, es, x)
    requires LogInv(limits, Find(m, x), log, now)
    ensures var end := if es == [] then now else es[|es| - 1].now;
            LogInv(limits, Find(Run(limits, m, es), x), log + Log(limits, m, es, x), end)
    decreases |es|
  {
    hide Find, LogInv, LogStep, Next, EvictsLive, Distinct;
    if es == [] {
      assert log + [] == log;
    } else {
      StepKeepsLog(limits, m, log, es[0], x, now);
      NextKeepsDistinct(limits, m, es[0]);
      var head := LogStep(limits, m, es[0], x);
      var m', rest := Next(limits, m, es[0]), es[1..];
      RunKeepsLog(limits, m', log + head, rest, x, es[0].now);
      assert log + head + Log(limits, m', rest, x) == log + (head + Log(limits, m', rest, x));
    }
  }

  /** A full run from the empty table. */
  lemma LogOfRun(limits: Limits, es: seq<Event>, x: Key)
    requires limits.windowMs >= 1
    requires Monotone(es) && NeverEvicted(limits, [], es, x)
    ensures var log := Log(limits, [], es, x); WellLogged(limits, log) && AtMost(limits, log)
    ensures es != [] ==> Continues(limits, Find(Run(limits, [], es), x), Log(limits, [], es, x), es[|es| - 1].now)
  {
    var now := if es == [] then 0 else es[0].now;
    hide Log, Run, NeverEvicted, WellLogged, AtMost, Continues;
    EmptyLog(limits, x, now);
    RunKeepsLog(limits, [], [], es, x, now);
    assert [] + Log(limits, [], es, x) == Log(limits, [], es, x);
  }

  lemma EmptyLog(limits: Limits, x: Key, now: Time)
    requires limits.windowMs >= 1
    ensures LogInv(limits, Find([], x), [], now)
  {
    forall s: Time ensures InWindow([], s) == 0 {}
  }

  /** A count over the entries with one of two starts. */
  lemma {:induction false} TwoWindowsCover(log: seq<Entry>, from: Time, until: Time, a: Time, b: Time)
    requires forall i :: 0 <= i < |log| && from <= log[i].time < until ==> log[i].start == a || log[i].start == b
    ensures InInterval(log, from, until) <= InWindow(log, a) + InWindow(log, b)
    ensures a == b ==> InInterval(log, from, until) <= InWindow(log, a)
    ensures (exists i :: 0 <= i < |log| && log[i].start == a && !(from <= log[i].time < until)) ==>
              InInterval(log, from, until) + 1 <= InWindow(log, a) + InWindow(log, b)
  {
    if log != [] {
      var n := |log| - 1;
      TwoWindowsCover(log[..n], from, until, a, b);
      if i :| 0 <= i < |log| && log[i].start == a && !(from <= log[i].time < until) {
        assert i == n || log[..n][i] == log[i];
      }
    }
  }

  lemma {:induction false} NothingInInterval(log: seq<Entry>, from: Time, until: Time)
    requires forall i :: 0 <= i < |log| ==> !(from <= log[i].time < until)
    ensures InInterval(log, from, until) == 0
  {
    if log != [] { NothingInInterval(log[..|log| - 1], from, until); }
  }

  function FirstIn(log: seq<Entry>, from: Time, until: Time): (r: nat)
    ensures r <= |log|
    ensures r < |log| ==> from <= log[r].time < until
    ensures forall i :: 0 <= i < r ==> !(from <= log[i].time < until)
  {
    if log == [] then 0
    else
      var r := FirstIn(log[..|log| - 1], from, until);
      if r < |log| - 1 || from <= log[|log| - 1].time < until then r else |log|
  }

  function LastIn(log: seq<Entry>, from: Time, until: Time, first: nat): (r: nat)
    requires first < |log| && from <= log[first].time < until
    ensures first <= r < |log| && from <= log[r].time < until
    ensures forall i :: r < i < |log| ==> !(from <= log[i].time < until)
  {
    if from <= log[|log| - 1].time < until then |log| - 1 else LastIn(log[..|log| - 1], from, until, first)
  }

  /** An interval as long as a window touches at most two of them, and never the request that opened the first. */
  lemma IntervalBound(limits: Limits, log: seq<Entry>, from: Time)
    requires WellLogged(limits, log) && AtMost(limits, log)
    ensures InInterval(log, from, from + limits.windowMs) <= 2 * Effective(limits) - 1
  {
    var w := limits.windowMs;
    var until := from + w;
    var first := FirstIn(log, from, until);
    if first == |log| {
      NothingInInterval(log, from, until);
    } else {
      var last := LastIn(log, from, until, first);
      var a, b := log[first].start, log[last].start;
      assert InsideWindow(log[first], w) && InsideWindow(log[last], w);
      forall i | 0 <= i < |log| && from <= log[i].time < until ensures log[i].start == a || log[i].start == b {
        assert InsideWindow(log[i], w);
        assert i == first || Spaced(log[first], log[i], w);
        assert i == last || Spaced(log[i], log[last], w);
      }
      assert InWindow(log, a) <= Effective(limits) && InWindow(log, b) <= Effective(limits);
      if a != b {
        assert first == last || Spaced(log[first], log[last], w);
        var opener := Entry(a, a);
        assert opener in log;
        var i :| 0 <= i < |log| && log[i] == opener;
      }
      hide InInterval, InWindow, WellLogged, AtMost;
      TwoWindowsCover(log, from, until, a, b);
    }
  }

  /** In every run with a clock that never goes back and no eviction of the address: any half-open interval of one
      window's length holds at most 2 * maxRequests - 1 allowed requests of it. */
  lemma {:induction false} AnyIntervalIsBounded(limits: Limits, es: seq<Event>, x: Key, from: Time)
    requires limits.windowMs >= 1
    requires Monotone(es) && NeverEvicted(limits, [], es, x)
    ensures InInterval(Log(limits, [], es, x), from, from + limits.windowMs) <= 2 * Effective(limits) - 1
  {
    LogOfRun(limits, es, x);
    IntervalBound(limits, Log(limits, [], es, x), from);
  }

  /** Each window opened by a request holds at most maxRequests. */
  lemma {:induction false} EachWindowIsBounded(limits: Limits, es: seq<Event>, x: Key, start: Time)
    requires limits.windowMs >= 1
    requires Monotone(es) && NeverEvicted(limits, [], es, x)
    requires Entry(start, start) in Log(limits, [], es, x)
    ensures InInterval(Log(limits, [], es, x), start, start + limits.windowMs) <= Effective(limits)
  {
    LogOfRun(limits, es, x);
    OneWindowBound(limits, Log(limits, [], es, x), start);
  }

  lemma OneWindowBound(limits: Limits, log: seq<Entry>, start: Time)
    requires WellLogged(limits, log) && AtMost(limits, log) && Entry(start, start) in log
    ensures InInterval(log, start, start + limits.windowMs) <= Effective(limits)
  {
    hide InInterval, InWindow;
    var w := limits.windowMs;
    var k :| 0 <= k < |log| && log[k] == Entry(start, start);
    forall i | 0 <= i < |log| && start <= log[i].time < start + w ensures log[i].start == start {
      assert InsideWindow(log[i], w) && (i == k || Spaced(log[i], log[k], w) || Spaced(log[k], log[i], w));
    }
    TwoWindowsCover(log, start, start + w, start, start);
    assert InWindow(log, start) <= Effective(limits);
  }

  lemma {:induction false} WindowInInterval(log: seq<Entry>, s: Time, from: Time, until: Time)
    requires forall i :: 0 <= i < |log| && log[i].start == s ==> from <= log[i].time < until
    ensures InWindow(log, s) <= InInterval(log, from, until)
  {
    if log != [] { WindowInInterval(log[..|log| - 1], s, from, until); }
  }

  lemma {:induction false} LogTimes(limits: Limits, m: Table, es: seq<Event>, x: Key, now: Time)
    requires Monotone(es) && forall i :: 0 <= i < |es| ==> es[i].now <= now
    ensures forall i :: 0 <= i < |Log(limits, m, es, x)| ==> Log(limits, m, es, x)[i].time <= now
    decreases |es|
  {
    hide Next, Allows;
    if es != [] { LogTimes(limits, Next(limits, m, es[0]), es[1..], x, now); }
  }

  /** A refusal is never spurious: maxRequests requests were allowed less than windowMs ago. */
  lemma {:induction false} RefusedOnlyWhenFull(limits: Limits, es: seq<Event>, x: Key, now: Time)
    requires limits.windowMs >= 1 && es != []
    requires Monotone(es) && NeverEvicted(limits, [], es, x) && es[|es| - 1].now <= now
    requires !Allows(limits, Run(limits, [], es), x, now)
    ensures InInterval(Log(limits, [], es, x), now - limits.windowMs + 1, now + 1) >= limits.maxRequests
  {
    LogOfRun(limits, es, x);
    LogTimes(limits, [], es, x, now);
    var log := Log(limits, [], es, x);
    var s := log[|log| - 1].start;
    var b := Find(Run(limits, [], es), x);
    hide Log, NeverEvicted, Monotone, Run, Find;
    assert !Expired(b, now) && !Expired(b, es[|es| - 1].now);
    assert s == b.value.resetTime - limits.windowMs && InWindow(log, s) >= limits.maxRequests;
    forall i | 0 <= i < |log| && log[i].start == s ensures now - limits.windowMs + 1 <= log[i].time < now + 1 {
      assert InsideWindow(log[i], limits.windowMs);
    }
    WindowInInterval(log, s, now - limits.windowMs + 1, now + 1);
  }

  /** The count reported at any later time: the requests allowed since the last window opened, as long as that window
      lasts, and nothing after it or before any request. */
  lemma {:induction false} CountExactly(limits: Limits, es: seq<Event>, x: Key, now: Time)
    requires limits.windowMs >= 1
    requires Monotone(es) && NeverEvicted(limits, [], es, x) && (es != [] ==> es[|es| - 1].now <= now)
    ensures var log := Log(limits, [], es, x);
            RequestCount(Run(limits, [], es), x, now)
            == if log == [] || log[|log| - 1].start + limits.windowMs <= now then 0
               else InInterval(log, log[|log| - 1].start, now + 1)
  {
    if es != [] {
      LogOfRun(limits, es, x);
      MonotoneEnds(es, now);
      LogTimes(limits, [], es, x, now);
      var log, b := Log(limits, [], es, x), Find(Run(limits, [], es), x);
      hide Log, NeverEvicted, Monotone, Run, Find;
      if !Expired(b, now) {
        assert !Expired(b, es[|es| - 1].now);
        LastWindowCounts(limits, log, now);
      }
    }
  }

  lemma {:induction false} MonotoneEnds(es: seq<Event>, now: Time)
    requires Monotone(es) && es != [] && es[|es| - 1].now <= now
    ensures forall i :: 0 <= i < |es| ==> es[i].now <= now
  {
  }

  lemma LastWindowCounts(limits: Limits, log: seq<Entry>, now: Time)
    requires WellLogged(limits, log) && log != [] && forall i :: 0 <= i < |log| ==> log[i].time <= now
    ensures InWindow(log, log[|log| - 1].start) == InInterval(log, log[|log| - 1].start, now + 1)
  {
    var n := |log| - 1;
    var s := log[n].start;
    assert InsideWindow(log[n], limits.windowMs);
    forall i | 0 <= i < |log|
      ensures log[i].start == s ==> s <= log[i].time < now + 1
      ensures s <= log[i].time < now + 1 ==> log[i].start == s
    {
      assert InsideWindow(log[i], limits.windowMs) && (i == n || Spaced(log[i], log[n], limits.windowMs));
    }
    hide InInterval, InWindow, WellLogged;
    WindowInInterval(log, s, s, now + 1);
    TwoWindowsCover(log, s, now + 1, s, s);
  }

  // ---------------------------------------------------------------- the bound is attained

  function Burst(x: Key, now: Time, n: nat, rest: seq<Event>): seq<Event>
  {
    if n == 0 then rest else [Allow(x, now)] + Burst(x, now, n - 1, rest)
  }

  function Copies(e: Entry, n: nat): seq<Entry>
  {
    if n == 0 then [] else [e] + Copies(e, n - 1)
  }

  lemma {:induction false} BurstRuns(limits: Limits, m: Table, b: Bucket, x: Key, now: Time, n: nat, rest: seq<Event>)
    returns (t: Table)
    requires Find(m, x) == Some(b) && now < b.resetTime && (n == 0 || b.count + n <= limits.maxRequests)
    ensures Find(t, x) == Some(Bucket(b.count + n, b.resetTime))
    ensures Log(limits, m, Burst(x, now, n, rest), x)
            == Copies(Entry(now, b.resetTime - limits.windowMs), n) + Log(limits, t, rest, x)
    ensures NeverEvicted(limits, t, rest, x) ==> NeverEvicted(limits, m, Burst(x, now, n, rest), x)
    decreases n
  {
    hide Find, Put;
    if n == 0 {
      t := m;
    } else {
      var es := Burst(x, now, n, rest);
      assert es[0] == Allow(x, now) && es[1..] == Burst(x, now, n - 1, rest);
      var b' := Bucket(b.count + 1, b.resetTime);
      var m' := Put(m, x, b');
      FindAfterPut(m, x, b', x);
      assert Next(limits, m, es[0]) == m';
      t := BurstRuns(limits, m', b', x, now, n - 1, rest);
      var e := Entry(now, b.resetTime - limits.windowMs);
      assert LogStep(limits, m, es[0], x) == [e];
      assert [e] + (Copies(e, n - 1) + Log(limits, t, rest, x)) == Copies(e, n) + Log(limits, t, rest, x);
    }
  }

  /** A request that opens a window, then `n` more in it. */
  lemma OpenAndBurst(limits: Limits, m: Table, x: Key, open: Time, now: Time, n: nat, rest: seq<Event>)
    returns (t: Table)
    requires Expired(Find(m, x), open) && now < open + limits.windowMs && (n == 0 || 1 + n <= limits.maxRequests)
    ensures Find(t, x) == Some(Bucket(1 + n, open + limits.windowMs))
    ensures Log(limits, m, [Allow(x, open)] + Burst(x, now, n, rest), x)
            == [Entry(open, open)] + Copies(Entry(now, open), n) + Log(limits, t, rest, x)
    ensures NeverEvicted(limits, t, rest, x) ==> NeverEvicted(limits, m, [Allow(x, open)] + Burst(x, now, n, rest), x)
  {
    hide Find, Put, Copies;
    var b := Bucket(1, open + limits.windowMs);
    var m' := Put(Evicted(limits, m), x, b);
    FindAfterPut(Evicted(limits, m), x, b, x);
    t := BurstRuns(limits, m', b, x, now, n, rest);
    var es := [Allow(x, open)] + Burst(x, now, n, rest);
    assert es[0] == Allow(x, open) && es[1..] == Burst(x, now, n, rest) && Next(limits, m, es[0]) == m';
    assert LogStep(limits, m, es[0], x) == [Entry(open, open)];
  }

  lemma {:induction false} BurstIsMonotone(x: Key, now: Time, n: nat, rest: seq<Event>)
    requires Monotone(rest) && From(rest, now)
    ensures Monotone(Burst(x, now, n, rest)) && From(Burst(x, now, n, rest), now)
  {
    if n > 0 { BurstIsMonotone(x, now, n - 1, rest); }
  }

  lemma {:induction false} CountAppend(a: seq<Entry>, b: seq<Entry>, from: Time, until: Time)
    ensures InInterval(a + b, from, until) == InInterval(a, from, until) + InInterval(b, from, until)
    decreases |b|
  {
    if b == [] {
      assert a + b == a;
    } else {
      var n := |b| - 1;
      CountAppend(a, b[..n], from, until);
      assert (a + b)[..|a| + n] == a + b[..n];
    }
  }

  lemma {:induction false} CountCopies(e: Entry, n: nat, from: Time, until: Time)
    requires from <= e.time < until
    ensures InInterval(Copies(e, n), from, until) == n
  {
    if n > 0 {
      CountCopies(e, n - 1, from, until);
      CountAppend([e], Copies(e, n - 1), from, until);
      assert [e][..0] == [];
    }
  }

  /** Windows of two milliseconds or more have a run that fills an interval of one window's length to the bound: the
      end of one window, then the start of the next. */
  lemma {:induction false} BoundIsAttained(limits: Limits, x: Key) returns (es: seq<Event>)
    requires limits.windowMs >= 2
    ensures Monotone(es) && NeverEvicted(limits, [], es, x)
    ensures var from := limits.windowMs - 1;
            InInterval(Log(limits, [], es, x), from, from + limits.windowMs) == 2 * Effective(limits) - 1
  {
    hide Find, Put, Delete, Log, NeverEvicted, Burst, Copies, Monotone;
    var w, k: nat := limits.windowMs, Effective(limits) - 1;
    var second := [Allow(x, w)] + Burst(x, w, k, []);
    es := [Allow(x, 0)] + Burst(x, w - 1, k, second);
    SecondFollows(second, x, w, k);
    BurstIsMonotone(x, w - 1, k, second);
    FirstIsMonotone(x, 0, Burst(x, w - 1, k, second));
    var none: Table := [];
    FindMeansEntry(none, x);
    var t := OpenAndBurst(limits, none, x, 0, w - 1, k, second);
    var u := OpenAndBurst(limits, t, x, w, w, k, []);
    EmptyRun(limits, u, x);
    var a, b := [Entry(0, 0)] + Copies(Entry(w - 1, 0), k), [Entry(w, w)] + Copies(Entry(w, w), k);
    hide *;
    assert Log(limits, t, second, x) == b + [] == b;
    assert Log(limits, [], es, x) == a + b;
    TwoBurstsCount(w, k);
  }

  lemma EmptyRun(limits: Limits, m: Table, x: Key)
    ensures Log(limits, m, [], x) == [] && NeverEvicted(limits, m, [], x)
  {
  }

  lemma FirstIsMonotone(x: Key, open: Time, rest: seq<Event>)
    requires Monotone(rest) && (rest == [] || open <= rest[0].now)
    ensures Monotone([Allow(x, open)] + rest)
  {
  }

  lemma SecondFollows(second: seq<Event>, x: Key, w: nat, k: nat)
    requires w >= 2 && second == [Allow(x, w)] + Burst(x, w, k, [])
    ensures Monotone(second) && From(second, w - 1)
  {
    BurstIsMonotone(x, w, k, []);
    FirstIsMonotone(x, w, Burst(x, w, k, []));
  }

  lemma TwoBurstsCount(w: nat, k: nat)
    requires w >= 2
    ensures InInterval([Entry(0, 0)] + Copies(Entry(w - 1, 0), k) + ([Entry(w, w)] + Copies(Entry(w, w), k)),
                       w - 1, w - 1 + w) == 2 * k + 1
  {
    var from, until := w - 1, w - 1 + w;
    var first, second := Copies(Entry(w - 1, 0), k), Copies(Entry(w, w), k);
    CountAppend([Entry(0, 0)] + first, [Entry(w, w)] + second, from, until);
    CountAppend([Entry(0, 0)], first, from, until);
    CountAppend([Entry(w, w)], second, from, until);
    CountCopies(Entry(w - 1, 0), k, from, until);
    CountCopies(Entry(w, w), k, from, until);
    hide Copies;
    assert [Entry(0, 0)][..0] == [] && [Entry(w, w)][..0] == [];
  }

  // ---------------------------------------------------------------- garbage collection

  datatype Output = Allowed(bool) | Counted(nat) | Silent

  function OutputOf(limits: Limits, m: Table, e: Event): Output
  {
    match e
    case Allow(ip, now) => Allowed(Allows(limits, m, ip, now))
    case Count(ip, now) => Counted(RequestCount(m, ip, now))
    case Collect(_) => Silent
  }

  /** The answers of a run, with or without its garbage collections. */
  function Answers(limits: Limits, m: Table, es: seq<Event>, collecting: bool): seq<Output>
    decreases |es|
  {
    if es == [] then []
    else
      [OutputOf(limits, m, es[0])]
      + Answers(limits, if es[0].Collect? && !collecting then m else Next(limits, m, es[0]), es[1..], collecting)
  }

  /** Without collections, no request that opens a window finds the table full. */
  predicate BelowCapacity(limits: Limits, m: Table, es: seq<Event>)
    decreases |es|
  {
    es != [] ==>
      && (es[0].Allow? && Expired(Find(m, es[0].ip), es[0].now) ==> |m| < limits.maxTrackedIps)
      && BelowCapacity(limits, if es[0].Collect? then m else Next(limits, m, es[0]), es[1..])
  }

  predicate SameLive(m: Table, n: Table, now: Time, x: Key)
  {
    Find(m, x) == Find(n, x) || (Expired(Find(m, x), now) && Expired(Find(n, x), now))
  }

  /** `n` is `m` without some expired buckets. */
  ghost predicate Thinned(m: Table, n: Table, now: Time)
  {
    && Distinct(Keys(m)) && Distinct(Keys(n))
    && (forall k :: k in Keys(n) ==> k in Keys(m))
    && (forall x :: SameLive(m, n, now, x))
  }

  lemma {:induction false} DistinctSize(ks: seq<Key>)
    requires Distinct(ks)
    ensures |set k | k in ks| == |ks|
  {
    if ks != [] {
      DistinctSize(ks[1..]);
      assert ks[0] !in ks[1..];
      assert (set k | k in ks) == {ks[0]} + (set k | k in ks[1..]);
    } else {
      assert (set k | k in ks) == {};
    }
  }

  lemma SubsetSize(a: set<Key>, b: set<Key>)
    requires a <= b
    ensures |a| <= |b|
  {
    assert b == a + (b - a);
  }

  lemma ThinnedIsSmaller(m: Table, n: Table, now: Time)
    requires Thinned(m, n, now)
    ensures |n| <= |m|
  {
    hide Distinct, SameLive;
    DistinctSize(Keys(m));
    DistinctSize(Keys(n));
    SubsetSize(set k | k in Keys(n), set k | k in Keys(m));
  }

  lemma PutStaysThinned(m: Table, n: Table, ip: Key, b: Bucket, now: Time)
    requires Thinned(m, n, now)
    ensures Thinned(Put(m, ip, b), Put(n, ip, b), now)
  {
    hide Distinct, Find, Put;
    PutKeys(m, ip, b);
    PutKeys(n, ip, b);
    PutGrows(m, ip, b);
    PutGrows(n, ip, b);
    forall x ensures SameLive(Put(m, ip, b), Put(n, ip, b), now, x) {
      FindAfterPut(m, ip, b, x);
      FindAfterPut(n, ip, b, x);
      assert SameLive(m, n, now, x);
    }
  }

  lemma ThinnedLater(m: Table, n: Table, now: Time, later: Time)
    requires Thinned(m, n, now) && now <= later
    ensures Thinned(m, n, later)
  {
    hide Distinct, Find;
    forall x ensures SameLive(m, n, later, x) { assert SameLive(m, n, now, x); }
  }

  lemma CollectThins(m: Table, n: Table, now: Time)
    requires Thinned(m, n, now)
    ensures Thinned(m, Collected(n, now), now)
  {
    hide Distinct, Find, Collected;
    CollectedKeys(n, now);
    forall x ensures SameLive(m, Collected(n, now), now, x) {
      assert SameLive(m, n, now, x);
      FindAfterCollect(n, now, x);
    }
  }

  lemma {:induction false} ThinnedAllow(limits: Limits, m: Table, n: Table, ip: Key, now: Time)
    requires Thinned(m, n, now)
    requires Expired(Find(m, ip), now) ==> |m| < limits.maxTrackedIps
    ensures Allows(limits, m, ip, now) == Allows(limits, n, ip, now)
    ensures Thinned(AllowTable(limits, m, ip, now), AllowTable(limits, n, ip, now), now)
  {
    hide Distinct, Put, Delete, Find;
    ThinnedIsSmaller(m, n, now);
    var b := Find(m, ip);
    assert SameLive(m, n, now, ip);
    hide Thinned;
    if Expired(b, now) {
      assert Evicted(limits, m) == m && Evicted(limits, n) == n;
      PutStaysThinned(m, n, ip, Bucket(1, now + limits.windowMs), now);
    } else {
      PutStaysThinned(m, n, ip, Bucket(b.value.count + 1, b.value.resetTime), now);
    }
  }

  lemma ThinnedCount(m: Table, n: Table, ip: Key, now: Time)
    requires Thinned(m, n, now)
    ensures RequestCount(m, ip, now) == RequestCount(n, ip, now)
  {
    hide Distinct, Find;
    assert SameLive(m, n, now, ip);
  }

  lemma ThinnedStep(limits: Limits, m: Table, n: Table, e: Event)
    requires Thinned(m, n, e.now)
    requires e.Allow? && Expired(Find(m, e.ip), e.now) ==> |m| < limits.maxTrackedIps
    ensures OutputOf(limits, m, e) == OutputOf(limits, n, e)
    ensures Thinned(if e.Collect? then m else Next(limits, m, e), Next(limits, n, e), e.now)
  {
    hide Thinned, AllowTable, Collected, Allows, RequestCount, Find;
    match e {
      case Count(ip, now) => ThinnedCount(m, n, ip, now);
      case Collect(now) => CollectThins(m, n, now);
      case Allow(ip, now) => ThinnedAllow(limits, m, n, ip, now);
    }
  }

  lemma {:induction false} ThinnedRun(limits: Limits, m: Table, n: Table, es: seq<Event>, now: Time)
    requires Thinned(m, n, now) && Monotone(es) && From(es, now) && BelowCapacity(limits, m, es)
    ensures Answers(limits, n, es, true) == Answers(limits, m, es, false)
    decreases |es|
  {
    hide Thinned, Next, OutputOf;
    if es != [] {
      ThinnedLater(m, n, now, es[0].now);
      ThinnedStep(limits, m, n, es[0]);
      var m' := if es[0].Collect? then m else Next(limits, m, es[0]);
      ThinnedRun(limits, m', Next(limits, n, es[0]), es[1..], es[0].now);
    }
  }

  /** Below capacity, garbage collection at any moments changes no answer of allow or getRequestCount. */
  lemma {:induction false} CollectionIsInvisible(limits: Limits, es: seq<Event>)
    requires Monotone(es) && BelowCapacity(limits, [], es)
    ensures Answers(limits, [], es, true) == Answers(limits, [], es, false)
  {
    var now := if es == [] then 0 else es[0].now;
    var none: Table := [];
    forall x ensures SameLive(none, none, now, x) {}
    ThinnedRun(limits, [], [], es, now);
  }

  // ---------------------------------------------------------------- when nothing is evicted

  ghost predicate Among(m: Table, ips: set<Key>)
  {
    forall k :: k in Keys(m) ==> k in ips
  }

  lemma PutAmong(m: Table, ip: Key, b: Bucket, ips: set<Key>)
    requires Among(m, ips) && ip in ips
    ensures Among(Put(m, ip, b), ips)
  {
    hide Put;
    PutKeys(m, ip, b);
  }

  lemma EvictedAmong(limits: Limits, m: Table, ips: set<Key>)
    requires Among(m, ips)
    ensures Among(Evicted(limits, m), ips)
  {
    hide Delete;
    if m != [] { DeleteKeys(m, m[0].0); }
  }

  lemma NextAmong(limits: Limits, m: Table, e: Event, ips: set<Key>)
    requires Among(m, ips) && (!e.Collect? ==> e.ip in ips)
    ensures Among(Next(limits, m, e), ips)
  {
    match e {
      case Count(_, _) =>
      case Collect(now) => CollectedKeys(m, now);
      case Allow(ip, now) =>
        EvictedAmong(limits, m, ips);
        hide Find, Put, Evicted, Among;
        PutAmong(Evicted(limits, m), ip, Bucket(1, now + limits.windowMs), ips);
        if !Expired(Find(m, ip), now) {
          PutAmong(m, ip, Bucket(Find(m, ip).value.count + 1, Find(m, ip).value.resetTime), ips);
        }
    }
  }

  lemma AmongIsSmall(m: Table, ips: set<Key>)
    requires Distinct(Keys(m)) && Among(m, ips)
    ensures |m| <= |ips|
  {
    hide Distinct;
    DistinctSize(Keys(m));
    SubsetSize((set k | k in Keys(m)), ips);
  }

  /** A run over fewer addresses than the table holds evicts no live bucket. */
  lemma {:induction false} FewAddressesAreNeverEvicted(limits: Limits, m: Table, es: seq<Event>, ips: set<Key>, x: Key)
    requires Distinct(Keys(m)) && Among(m, ips) && |ips| < limits.maxTrackedIps
    requires forall i :: 0 <= i < |es| && !es[i].Collect? ==> es[i].ip in ips
    ensures NeverEvicted(limits, m, es, x)
    decreases |es|
  {
    hide Distinct, Among, Next;
    if es != [] {
      AmongIsSmall(m, ips);
      NextAmong(limits, m, es[0], ips);
      NextKeepsDistinct(limits, m, es[0]);
      FewAddressesAreNeverEvicted(limits, Next(limits, m, es[0]), es[1..], ips, x);
    }
  }
}
