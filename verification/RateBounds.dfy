/** When the rate bounds hold: exact conditions on limits and addresses. */
module RateBounds {
  import opened Bytes
  import opened OrderedMap
  import opened RateLimiter

  /** The allowed requests of `x` in the window-long interval from `from`. */
  function Requests(limits: Limits, es: seq<Event>, x: Key, from: Time): nat
  {
    InInterval(Log(limits, [], es, x), from, from + limits.windowMs)
  }

  // ---------------------------------------------------------------- the sliding window

  /** What a sliding window would promise: no interval of one window's length holds more than the limit. */
  ghost predicate Slides(limits: Limits)
  {
    forall es: seq<Event>, x: Key, from: Time :: Monotone(es) && NeverEvicted(limits, [], es, x) ==>
      Requests(limits, es, x, from) <= Effective(limits)
  }

  lemma {:induction false} OneMillisecondSlides(limits: Limits, es: seq<Event>, x: Key, from: Time)
    requires limits.windowMs == 1 && Monotone(es) && NeverEvicted(limits, [], es, x)
    ensures InInterval(Log(limits, [], es, x), from, from + 1) <= Effective(limits)
  {
    LogOfRun(limits, es, x);
    var log := Log(limits, [], es, x);
    hide Log, NeverEvicted, Monotone;
    forall i | 0 <= i < |log| && from <= log[i].time < from + 1 ensures log[i].start == from {
      assert InsideWindow(log[i], 1);
    }
    TwoWindowsCover(log, from, from + 1, from, from);
    assert InWindow(log, from) <= Effective(limits);
  }

  /** The limiter keeps the promise of a sliding window if and only if the limit is one request (or zero, which lets
      one through) or the window one millisecond. */
  lemma {:induction false} SlidesExactly(limits: Limits)
    requires limits.windowMs >= 1
    ensures Slides(limits) <==> Effective(limits) == 1 || limits.windowMs == 1
  {
    if Effective(limits) == 1 || limits.windowMs == 1 {
      forall es: seq<Event>, x: Key, from: Time | Monotone(es) && NeverEvicted(limits, [], es, x)
        ensures Requests(limits, es, x, from) <= Effective(limits)
      {
        if limits.windowMs == 1 {
          OneMillisecondSlides(limits, es, x, from);
        } else {
          AnyIntervalIsBounded(limits, es, x, from);
        }
      }
    } else {
      var es := BoundIsAttained(limits, []);
      hide Log, NeverEvicted, Monotone, InInterval;
      assert Requests(limits, es, [], limits.windowMs - 1) > Effective(limits);
    }
  }

  // ---------------------------------------------------------------- eviction

  ghost predicate Over(es: seq<Event>, ips: set<Key>)
  {
    forall i :: 0 <= i < |es| && !es[i].Collect? ==> es[i].ip in ips
  }

  /** The rate bound, for every run over these addresses with a clock that never goes back. */
  ghost predicate BoundHolds(limits: Limits, ips: set<Key>)
  {
    forall es: seq<Event>, x: Key, from: Time :: Monotone(es) && Over(es, ips) ==>
      Requests(limits, es, x, from) <= 2 * Effective(limits) - 1
  }

  // ---------------------------------------------------------------- one or two places, as many addresses

  predicate Ordered(m: Table)
  {
    forall i, j :: 0 <= i < j < |m| ==> m[i].1.resetTime <= m[j].1.resetTime
  }

  ghost predicate Tight(limits: Limits, m: Table, ips: set<Key>, now: Time)
  {
    && |m| <= limits.maxTrackedIps
    && (|m| == 2 ==> m[0].0 != m[1].0)
    && (forall i :: 0 <= i < |m| ==> m[i].0 in ips && m[i].1.resetTime <= now + limits.windowMs)
    && Ordered(m)
  }

  lemma {:induction false} TwoElements(ips: set<Key>, a: Key, b: Key, c: Key)
    requires |ips| <= 2 && a in ips && b in ips && c in ips && a != b
    ensures c == a || c == b
  {
    SubsetSize({a, b, c}, ips);
  }

  lemma {:induction false} OneElement(ips: set<Key>, a: Key, b: Key)
    requires |ips| <= 1 && a in ips && b in ips
    ensures a == b
  {
    SubsetSize({a, b}, ips);
  }

  // Tables of one and of two entries.

  lemma OneEntry(p: (Key, Bucket), k: Key, b: Bucket)
    ensures Find([p], k) == if p.0 == k then Some(p.1) else None
    ensures Put([p], k, b) == if p.0 == k then [(k, b)] else [p, (k, b)]
    ensures Delete([p], p.0) == []
  {
    assert [p][1..] == [];
    assert Put([], k, b) == [(k, b)] && Find<Bucket>([], k) == None && Delete<Bucket>([], p.0) == [];
  }

  lemma TwoEntries(p: (Key, Bucket), q: (Key, Bucket), k: Key, b: Bucket)
    requires p.0 != q.0
    ensures Find([p, q], k) == if p.0 == k then Some(p.1) else Find([q], k)
    ensures Put([p, q], k, b) == if p.0 == k then [(k, b), q] else [p] + Put([q], k, b)
    ensures Delete([p, q], p.0) == [q]
  {
    assert [p, q][1..] == [q] && [q][1..] == [];
    assert Delete<Bucket>([], p.0) == [];
    assert Delete([q], p.0) == [q] + Delete([], p.0);
    hide Find, Put, Delete;
  }

  function Fresh(limits: Limits, ip: Key, now: Time): (Key, Bucket)
  {
    (ip, Bucket(1, now + limits.windowMs))
  }

  lemma AllowOnNone(limits: Limits, ip: Key, now: Time)
    ensures AllowTable(limits, [], ip, now) == [Fresh(limits, ip, now)]
  {
  }

  lemma AllowOnOne(limits: Limits, p: (Key, Bucket), ip: Key, now: Time)
    requires limits.maxTrackedIps >= 1 && (p.0 != ip ==> limits.maxTrackedIps == 2)
    ensures AllowTable(limits, [p], ip, now)
         == if p.0 == ip then [(ip, Requested(limits, Some(p.1), now).value)] else [p, Fresh(limits, ip, now)]
  {
    var b := Requested(limits, Some(p.1), now).value;
    OneEntry(p, ip, b);
    OneEntry(p, ip, Bucket(1, now + limits.windowMs));
    assert Put([], ip, b) == [(ip, b)];
    hide Find, Put, Delete;
  }

  lemma AllowOnTwo(limits: Limits, p: (Key, Bucket), q: (Key, Bucket), ip: Key, now: Time)
    requires limits.maxTrackedIps == 2 && p.0 != q.0 && ip in {p.0, q.0}
    ensures AllowTable(limits, [p, q], ip, now)
         == var b := Requested(limits, Some(if ip == p.0 then p.1 else q.1), now).value;
            if ip == p.0 then (if now >= p.1.resetTime then [q, (ip, b)] else [(ip, b), q])
            else if now >= q.1.resetTime then [(ip, b)] else [p, (ip, b)]
  {
    var b := Requested(limits, Some(if ip == p.0 then p.1 else q.1), now).value;
    TwoEntries(p, q, ip, b);
    OneEntry(q, ip, b);
    hide Find, Put, Delete;
    assert [p] + [(ip, b)] == [p, (ip, b)] && [p] + [q] == [p, q];
    TwoAfter(limits, [p, q], ip, now);
  }

  /** A request in terms of the table's own bucket. */
  lemma TwoAfter(limits: Limits, m: Table, ip: Key, now: Time)
    requires Find(m, ip).Some?
    ensures var was, b := Find(m, ip), Requested(limits, Find(m, ip), now).value;
            AllowTable(limits, m, ip, now)
            == if Expired(was, now) then Put(Evicted(limits, m), ip, b)
               else if was.value.count >= limits.maxRequests then m else Put(m, ip, b)
  {
    hide Find, Put, Delete;
  }

  lemma {:induction false} SmallCollected(m: Table, now: Time)
    requires |m| <= 2
    ensures |m| <= 1 ==> Collected(m, now) == m || Collected(m, now) == []
    ensures |m| == 2 ==>
              var c := Collected(m, now);
              c == m || c == [m[0]] || c == [m[1]] || c == []
  {
    if |m| == 2 {
      var t: Table := [m[1]];
      assert m[1..] == t && t[1..] == [];
      assert Collected([m[1]], now) == [m[1]] || Collected([m[1]], now) == [];
      assert m == [m[0]] + [m[1]];
    } else if |m| == 1 {
      assert m == [m[0]] && m[1..] == [];
    }
  }

  lemma TightOne(limits: Limits, p: (Key, Bucket), ips: set<Key>, now: Time)
    requires limits.maxTrackedIps >= 1 && p.0 in ips && p.1.resetTime <= now + limits.windowMs
    ensures Tight(limits, [p], ips, now)
  {
  }

  lemma TightTwo(limits: Limits, p: (Key, Bucket), q: (Key, Bucket), ips: set<Key>, now: Time)
    requires limits.maxTrackedIps >= 2 && p.0 in ips && q.0 in ips && p.0 != q.0
    requires p.1.resetTime <= q.1.resetTime <= now + limits.windowMs
    ensures Tight(limits, [p, q], ips, now)
  {
  }

  lemma TightParts(limits: Limits, m: Table, ips: set<Key>, now: Time)
    requires Tight(limits, m, ips, now)
    ensures |m| <= limits.maxTrackedIps
    ensures forall i :: 0 <= i < |m| ==> m[i].0 in ips && m[i].1.resetTime <= now + limits.windowMs
    ensures |m| == 2 ==> m[0].0 != m[1].0 && m[0].1.resetTime <= m[1].1.resetTime
  {
  }

  lemma RequestedReset(limits: Limits, b: Bucket, now: Time)
    ensures Requested(limits, Some(b), now).Some?
    ensures Requested(limits, Some(b), now).value.resetTime
         == if now >= b.resetTime then now + limits.windowMs else b.resetTime
  {
  }

  lemma TightAllowOne(limits: Limits, p: (Key, Bucket), ip: Key, t: Time, ips: set<Key>, now: Time, x: Key)
    requires 1 <= limits.maxTrackedIps <= 2 && |ips| == limits.maxTrackedIps && Tight(limits, [p], ips, now)
    requires now <= t && ip in ips
    ensures !EvictsLive(limits, [p], Allow(ip, t), x)
    ensures Tight(limits, AllowTable(limits, [p], ip, t), ips, t)
  {
    TightParts(limits, [p], ips, now);
    assert [p][0] == p;
    if p.0 != ip && limits.maxTrackedIps == 1 { OneElement(ips, p.0, ip); }
    AllowOnOne(limits, p, ip, t);
    RequestedReset(limits, p.1, t);
    OneEntry(p, ip, p.1);
    OneEntry(p, x, p.1);
    hide Find, Put, Delete, Tight, AllowTable, Requested;
    if p.0 == ip {
      TightOne(limits, (ip, Requested(limits, Some(p.1), t).value), ips, t);
    } else {
      TightTwo(limits, p, Fresh(limits, ip, t), ips, t);
    }
  }

  lemma TightAllowTwo(limits: Limits, p: (Key, Bucket), q: (Key, Bucket), ip: Key, t: Time, ips: set<Key>, now: Time,
                      x: Key)
    requires limits.maxTrackedIps == 2 == |ips| && Tight(limits, [p, q], ips, now)
    requires now <= t && ip in ips
    ensures !EvictsLive(limits, [p, q], Allow(ip, t), x)
    ensures Tight(limits, AllowTable(limits, [p, q], ip, t), ips, t)
  {
    TightParts(limits, [p, q], ips, now);
    assert [p, q][0] == p && [p, q][1] == q;
    TwoElements(ips, p.0, q.0, ip);
    AllowOnTwo(limits, p, q, ip, t);
    RequestedReset(limits, p.1, t);
    RequestedReset(limits, q.1, t);
    NoLiveEviction(limits, p, q, ip, t, x);
    hide Find, Put, Delete, Tight, AllowTable, Requested, EvictsLive;
    var b := Requested(limits, Some(if ip == p.0 then p.1 else q.1), t).value;
    if ip == p.0 && t >= p.1.resetTime {
      TightTwo(limits, q, (ip, b), ips, t);
    } else if ip == p.0 {
      TightTwo(limits, (ip, b), q, ips, t);
    } else if t >= q.1.resetTime {
      TightOne(limits, (ip, b), ips, t);
    } else {
      TightTwo(limits, p, (ip, b), ips, t);
    }
  }

  lemma NoLiveEviction(limits: Limits, p: (Key, Bucket), q: (Key, Bucket), ip: Key, t: Time, x: Key)
    requires p.0 != q.0 && ip in {p.0, q.0} && p.1.resetTime <= q.1.resetTime
    ensures !EvictsLive(limits, [p, q], Allow(ip, t), x)
  {
    TwoEntries(p, q, ip, p.1);
    TwoEntries(p, q, x, p.1);
    OneEntry(q, ip, p.1);
    hide Find, Put, Delete;
  }

  lemma TightCollected(limits: Limits, m: Table, t: Time, ips: set<Key>, now: Time)
    requires limits.maxTrackedIps <= 2 && Tight(limits, m, ips, now) && now <= t
    ensures Tight(limits, Collected(m, t), ips, t)
  {
    SmallCollected(m, t);
    hide Collected;
  }

  /** Nothing live is evicted, and the table stays ordered by expiry. */
  lemma {:induction false} TightStep(limits: Limits, m: Table, e: Event, ips: set<Key>, now: Time, x: Key)
    requires limits.maxTrackedIps <= 2 && |ips| == limits.maxTrackedIps && Tight(limits, m, ips, now)
    requires now <= e.now && (!e.Collect? ==> e.ip in ips)
    ensures !EvictsLive(limits, m, e, x)
    ensures Tight(limits, Next(limits, m, e), ips, e.now)
  {
    match e {
      case Count(_, _) =>
      case Collect(t) =>
        TightCollected(limits, m, t, ips, now);
      case Allow(ip, t) =>
        TightParts(limits, m, ips, now);
        hide Tight, AllowTable, Find, Ordered;
        if |m| == 0 {
          AllowOnNone(limits, ip, t);
          assert ips != {};
          TightOne(limits, Fresh(limits, ip, t), ips, t);
        } else if |m| == 1 {
          assert m == [m[0]];
          TightAllowOne(limits, m[0], ip, t, ips, now, x);
        } else {
          assert m == [m[0], m[1]];
          TightAllowTwo(limits, m[0], m[1], ip, t, ips, now, x);
        }
    }
  }

  lemma {:induction false} TightRun(limits: Limits, m: Table, es: seq<Event>, ips: set<Key>, now: Time, x: Key)
    requires limits.maxTrackedIps <= 2 && |ips| == limits.maxTrackedIps && Tight(limits, m, ips, now)
    requires Monotone(es) && From(es, now) && Over(es, ips)
    ensures NeverEvicted(limits, m, es, x)
    decreases |es|
  {
    hide Tight, Next, EvictsLive;
    if es != [] {
      TightStep(limits, m, es[0], ips, now, x);
      TightRun(limits, Next(limits, m, es[0]), es[1..], ips, es[0].now, x);
    }
  }

  lemma {:induction false} FewAddressesKeepTheBound(limits: Limits, ips: set<Key>)
    requires limits.windowMs >= 1
    requires |ips| < limits.maxTrackedIps || |ips| == limits.maxTrackedIps <= 2
    ensures BoundHolds(limits, ips)
  {
    forall es: seq<Event>, x: Key, from: Time | Monotone(es) && Over(es, ips)
      ensures Requests(limits, es, x, from) <= 2 * Effective(limits) - 1
    {
      if |ips| < limits.maxTrackedIps {
        FewAddressesAreNeverEvicted(limits, [], es, ips, x);
      } else {
        TightRun(limits, [], es, ips, if es == [] then 0 else es[0].now, x);
      }
      AnyIntervalIsBounded(limits, es, x, from);
    }
  }

  // ---------------------------------------------------------------- runs that break the bound

  function Visits(ys: seq<Key>, now: Time): seq<Event>
  {
    if ys == [] then [] else [Allow(ys[0], now)] + Visits(ys[1..], now)
  }

  function Opened(limits: Limits, ys: seq<Key>, now: Time): Table
  {
    if ys == [] then [] else [(ys[0], Bucket(1, now + limits.windowMs))] + Opened(limits, ys[1..], now)
  }

  predicate Apart(m: Table, ys: seq<Key>)
  {
    forall i, j :: 0 <= i < |m| && 0 <= j < |ys| ==> m[i].0 != ys[j]
  }

  lemma {:induction false} RunAppend(limits: Limits, m: Table, a: seq<Event>, b: seq<Event>, x: Key)
    ensures Run(limits, m, a + b) == Run(limits, Run(limits, m, a), b)
    ensures Log(limits, m, a + b, x) == Log(limits, m, a, x) + Log(limits, Run(limits, m, a), b, x)
    decreases |a|
  {
    hide Next, LogStep;
    if a == [] {
      assert a + b == b;
      assert [] + Log(limits, m, b, x) == Log(limits, m, b, x);
    } else {
      assert (a + b)[1..] == a[1..] + b && (a + b)[0] == a[0];
      RunAppend(limits, Next(limits, m, a[0]), a[1..], b, x);
    }
  }

  /** New addresses go to the end of a table with room for them. */
  lemma {:induction false} FillRuns(limits: Limits, m: Table, ys: seq<Key>, now: Time, x: Key)
    requires Distinct(ys) && Apart(m, ys) && x !in ys && |m| + |ys| <= limits.maxTrackedIps
    ensures Run(limits, m, Visits(ys, now)) == m + Opened(limits, ys, now)
    ensures Log(limits, m, Visits(ys, now), x) == []
    decreases |ys|
  {
    if ys == [] {
      assert m + [] == m;
    } else {
      hide *;
      var b := Bucket(1, now + limits.windowMs);
      var y, rest, next := ys[0], ys[1..], m + [(ys[0], b)];
      FillOne(limits, m, ys, now);
      OneVisit(limits, m, y, now, x);
      FillRuns(limits, next, rest, now, x);
      RunAppend(limits, m, [Allow(y, now)], Visits(rest, now), x);
      AppendAssociates(m, [(y, b)], Opened(limits, rest, now));
    }
  }

  lemma {:induction false} AppendAssociates(a: Table, b: Table, c: Table)
    ensures a + b + c == a + (b + c)
  {
  }

  lemma {:induction false} FillOne(limits: Limits, m: Table, ys: seq<Key>, now: Time)
    requires Distinct(ys) && Apart(m, ys) && ys != []
    ensures forall x :: x !in ys ==> x != ys[0] && x !in ys[1..]
    ensures var b := Bucket(1, now + limits.windowMs);
            && (|m| < limits.maxTrackedIps ==> Next(limits, m, Allow(ys[0], now)) == m + [(ys[0], b)])
            && Distinct(ys[1..]) && Apart(m + [(ys[0], b)], ys[1..])
            && Opened(limits, ys, now) == [(ys[0], b)] + Opened(limits, ys[1..], now)
    ensures Visits(ys, now) == [Allow(ys[0], now)] + Visits(ys[1..], now)
  {
    PutNew(m, ys[0], Bucket(1, now + limits.windowMs));
    hide Put, Find, Delete;
  }

  lemma {:induction false} PutNew(m: Table, k: Key, b: Bucket)
    requires forall j :: 0 <= j < |m| ==> m[j].0 != k
    ensures Find(m, k).None? && Put(m, k, b) == m + [(k, b)]
  {
    if m != [] {
      PutNew(m[1..], k, b);
      assert [m[0]] + (m[1..] + [(k, b)]) == m + [(k, b)];
    }
  }

  lemma {:induction false} PutHead(x: Key, b: Bucket, c: Bucket, rest: Table)
    ensures Find([(x, b)] + rest, x) == Some(b) && Put([(x, b)] + rest, x, c) == [(x, c)] + rest
  {
    assert ([(x, b)] + rest)[1..] == rest;
  }

  /** Requests of the address at the head of the table change its count only. */
  lemma {:induction false} HeadBurst(limits: Limits, x: Key, b: Bucket, rest: Table, now: Time, n: nat)
    requires now < b.resetTime && (n == 0 || b.count + n <= limits.maxRequests)
    ensures Run(limits, [(x, b)] + rest, Burst(x, now, n, [])) == [(x, Bucket(b.count + n, b.resetTime))] + rest
    decreases n
  {
    if n > 0 {
      var c := Bucket(b.count + 1, b.resetTime);
      PutHead(x, b, c, rest);
      hide Put, Find;
      assert Burst(x, now, n, [])[1..] == Burst(x, now, n - 1, []);
      assert Next(limits, [(x, b)] + rest, Allow(x, now)) == [(x, c)] + rest;
      HeadBurst(limits, x, c, rest, now, n - 1);
    }
  }

  /** As many requests as the limit allows, the first of which opens a window. */
  function Full(limits: Limits, x: Key, now: Time): seq<Event>
  {
    [Allow(x, now)] + Burst(x, now, Effective(limits) - 1, [])
  }

  lemma {:induction false} FullIsLogged(limits: Limits, m: Table, x: Key, now: Time)
    requires limits.windowMs >= 1 && Expired(Find(m, x), now)
    ensures Log(limits, m, Full(limits, x, now), x) == Copies(Entry(now, now), Effective(limits))
  {
    var n: nat := Effective(limits) - 1;
    var t := OpenAndBurst(limits, m, x, now, now, n, []);
    assert Log(limits, t, [], x) == [];
    hide Log, Burst;
    assert [Entry(now, now)] + Copies(Entry(now, now), n) + [] == Copies(Entry(now, now), n + 1);
  }

  /** The address at the head of a table that is not full, or alone in it, opens its window in place. */
  lemma {:induction false} FullAtHead(limits: Limits, m: Table, rest: Table, x: Key, now: Time)
    requires limits.windowMs >= 1 && |m| < limits.maxTrackedIps
    requires (m == [] && rest == []) || (m != [] && m[0].0 == x && m[1..] == rest && now >= m[0].1.resetTime)
    ensures Run(limits, m, Full(limits, x, now)) == [(x, Bucket(Effective(limits), now + limits.windowMs))] + rest
    ensures Expired(Find(m, x), now)
  {
    var b, n: nat := Bucket(1, now + limits.windowMs), Effective(limits) - 1;
    if m == [] {
      PutNew(m, x, b);
      assert m + [(x, b)] == [(x, b)] + rest;
    } else {
      assert m == [(x, m[0].1)] + rest;
      PutHead(x, m[0].1, b, rest);
    }
    hide Put, Find;
    assert Next(limits, m, Allow(x, now)) == [(x, b)] + rest;
    HeadBurst(limits, x, b, rest, now, n);
    RunAppend(limits, m, [Allow(x, now)], Burst(x, now, n, []), x);
    assert [Allow(x, now)][1..] == [] && Run(limits, m, [Allow(x, now)]) == Next(limits, m, Allow(x, now));
  }

  predicate AllAt(es: seq<Event>, t: Time)
  {
    forall i :: 0 <= i < |es| ==> es[i].now == t
  }

  lemma {:induction false} BurstAt(x: Key, now: Time, n: nat)
    ensures AllAt(Burst(x, now, n, []), now)
  {
    if n > 0 { BurstAt(x, now, n - 1); }
  }

  lemma {:induction false} VisitsAt(ys: seq<Key>, now: Time)
    ensures AllAt(Visits(ys, now), now)
  {
    if ys != [] { VisitsAt(ys[1..], now); }
  }

  lemma {:induction false} BurstOver(x: Key, now: Time, n: nat, ips: set<Key>)
    requires x in ips
    ensures Over(Burst(x, now, n, []), ips)
  {
    if n > 0 { BurstOver(x, now, n - 1, ips); }
  }

  lemma {:induction false} VisitsOver(ys: seq<Key>, now: Time, ips: set<Key>)
    requires forall y :: y in ys ==> y in ips
    ensures Over(Visits(ys, now), ips)
  {
    if ys != [] { VisitsOver(ys[1..], now, ips); }
  }

  /** x uses its window up, the table is filled, y's request evicts x, and x starts again at once. */
  function Siege(limits: Limits, x: Key, y: Key, zs: seq<Key>, t: Time): seq<Event>
  {
    Full(limits, x, t) + (Visits(zs, t) + ([Allow(y, t)] + Full(limits, x, t)))
  }

  lemma {:induction false} SiegeAt(limits: Limits, x: Key, y: Key, zs: seq<Key>, t: Time, ips: set<Key>)
    requires x in ips && y in ips && forall z :: z in zs ==> z in ips
    ensures AllAt(Siege(limits, x, y, zs, t), t) && Over(Siege(limits, x, y, zs, t), ips)
  {
    BurstAt(x, t, Effective(limits) - 1);
    VisitsAt(zs, t);
    BurstOver(x, t, Effective(limits) - 1, ips);
    VisitsOver(zs, t, ips);
    hide Burst, Visits;
  }

  lemma {:induction false} EvictedHead(limits: Limits, m: Table, x: Key, y: Key, t: Time)
    requires m != [] && m[0].0 == x && |m| >= limits.maxTrackedIps && x != y && Expired(Find(m, y), t)
    ensures Find(Next(limits, m, Allow(y, t)), x).None?
  {
    FindAfterDelete(m, x, x);
    FindAfterPut(Delete(m, x), y, Bucket(1, t + limits.windowMs), x);
  }

  lemma {:induction false} SiegeLog(limits: Limits, m: Table, rest: Table, x: Key, y: Key, zs: seq<Key>, t: Time)
    requires limits.windowMs >= 1 && |m| < limits.maxTrackedIps
    requires (m == [] && rest == []) || (m != [] && m[0].0 == x && m[1..] == rest && t >= m[0].1.resetTime)
    requires Distinct(zs) && x !in zs && Apart(rest, zs) && x != y && 1 + |rest| + |zs| == limits.maxTrackedIps
    requires Expired(Find(rest + Opened(limits, zs, t), y), t)
    ensures var c := Copies(Entry(t, t), Effective(limits)); Log(limits, m, Siege(limits, x, y, zs, t), x) == c + c
  {
    var c := Copies(Entry(t, t), Effective(limits));
    var full, visits := Full(limits, x, t), Visits(zs, t);
    var m1 := [(x, Bucket(Effective(limits), t + limits.windowMs))] + rest;
    var m2 := m1 + Opened(limits, zs, t);
    assert Apart(m1, zs);
    OpenedSize(limits, zs, t);
    FindBehind(x, m1[0].1, rest + Opened(limits, zs, t), y);
    assert m2 == [m1[0]] + (rest + Opened(limits, zs, t));
    hide *;
    FullAtHead(limits, m, rest, x, t);
    FullIsLogged(limits, m, x, t);
    FillRuns(limits, m1, zs, t, x);
    EvictedHead(limits, m2, x, y, t);
    var m3 := Next(limits, m2, Allow(y, t));
    NoneIsExpired(Find(m3, x), t);
    FullIsLogged(limits, m3, x, t);
    OneVisit(limits, m2, y, t, x);
    SiegeIs(limits, x, y, zs, t);
    FourStretches(limits, m, full, visits, [Allow(y, t)], x, c);
  }

  lemma {:induction false} FourStretches(
    limits: Limits, m: Table, full: seq<Event>, visits: seq<Event>, visit: seq<Event>, x: Key, c: seq<Entry>)
    requires Log(limits, m, full, x) == c && Log(limits, Run(limits, m, full), visits, x) == []
    requires Log(limits, Run(limits, Run(limits, m, full), visits), visit, x) == []
    requires Log(limits, Run(limits, Run(limits, Run(limits, m, full), visits), visit), full, x) == c
    ensures Log(limits, m, full + (visits + (visit + full)), x) == c + c
  {
    var m1 := Run(limits, m, full);
    RunAppend(limits, m, full, visits + (visit + full), x);
    RunAppend(limits, m1, visits, visit + full, x);
    RunAppend(limits, Run(limits, m1, visits), visit, full, x);
    hide *;
    assert c + ([] + ([] + c)) == c + c;
  }

  lemma {:induction false} NoneIsExpired(b: Option<Bucket>, now: Time)
    requires b.None?
    ensures Expired(b, now)
  {
  }

  lemma {:induction false} SiegeIs(limits: Limits, x: Key, y: Key, zs: seq<Key>, t: Time)
    ensures Siege(limits, x, y, zs, t)
         == Full(limits, x, t) + (Visits(zs, t) + ([Allow(y, t)] + Full(limits, x, t)))
  {
  }

  lemma {:induction false} OneVisit(limits: Limits, m: Table, y: Key, t: Time, x: Key)
    requires x != y
    ensures Run(limits, m, [Allow(y, t)]) == Next(limits, m, Allow(y, t)) && Log(limits, m, [Allow(y, t)], x) == []
  {
    hide Next;
    assert [Allow(y, t)][1..] == [];
  }

  lemma {:induction false} OpenedSize(limits: Limits, ys: seq<Key>, now: Time)
    ensures |Opened(limits, ys, now)| == |ys|
  {
    if ys != [] { OpenedSize(limits, ys[1..], now); }
  }

  lemma {:induction false} FindBehind(x: Key, b: Bucket, rest: Table, y: Key)
    requires x != y
    ensures Find([(x, b)] + rest, y) == Find(rest, y)
  {
    assert ([(x, b)] + rest)[1..] == rest;
  }

  lemma {:induction false} NotOpened(limits: Limits, ys: seq<Key>, now: Time, y: Key)
    requires y !in ys
    ensures Find(Opened(limits, ys, now), y).None?
  {
    if ys != [] {
      NotOpened(limits, ys[1..], now, y);
      assert Opened(limits, ys, now)[1..] == Opened(limits, ys[1..], now);
    }
  }

  lemma {:induction false} TwiceTheLimit(limits: Limits, log: seq<Entry>, t: Time)
    requires limits.windowMs >= 1
    ensures var c := Copies(Entry(t, t), Effective(limits));
            InInterval(log + (c + c), t, t + limits.windowMs) >= 2 * Effective(limits)
  {
    var c := Copies(Entry(t, t), Effective(limits));
    CountCopies(Entry(t, t), Effective(limits), t, t + limits.windowMs);
    CountAppend(c, c, t, t + limits.windowMs);
    CountAppend(log, c + c, t, t + limits.windowMs);
  }

  /** More addresses than places. */
  lemma {:induction false} ManyAddressesBreak(limits: Limits, ks: seq<Key>, ips: set<Key>)
    requires limits.windowMs >= 1 && limits.maxTrackedIps >= 1
    requires Distinct(ks) && |ks| > limits.maxTrackedIps && forall k :: k in ks ==> k in ips
    ensures !BoundHolds(limits, ips)
  {
    var x, y, zs := ks[0], ks[1], ks[2..limits.maxTrackedIps + 1];
    FirstTwoAndRest(ks, zs);
    hide *;
    SiegeFromNothing(limits, x, y, zs, ips);
  }

  lemma {:induction false} SiegeFromNothing(limits: Limits, x: Key, y: Key, zs: seq<Key>, ips: set<Key>)
    requires limits.windowMs >= 1 && 1 + |zs| == limits.maxTrackedIps
    requires x != y && Distinct(zs) && x !in zs && y !in zs
    requires x in ips && y in ips && forall z :: z in zs ==> z in ips
    ensures !BoundHolds(limits, ips)
  {
    var none: Table := [];
    assert none + Opened(limits, zs, 0) == Opened(limits, zs, 0);
    NotOpened(limits, zs, 0, y);
    NoneIsExpired(Find(Opened(limits, zs, 0), y), 0);
    assert Apart(none, zs);
    hide *;
    SiegeLog(limits, none, none, x, y, zs, 0);
    SiegeAt(limits, x, y, zs, 0, ips);
    SameTimeIsMonotone(Siege(limits, x, y, zs, 0), 0);
    TwiceRefutes(limits, Siege(limits, x, y, zs, 0), x, 0, [], ips);
  }

  lemma {:induction false} TwiceRefutes(
    limits: Limits, es: seq<Event>, x: Key, t: Time, log: seq<Entry>, ips: set<Key>)
    requires limits.windowMs >= 1 && Monotone(es) && Over(es, ips)
    requires var c := Copies(Entry(t, t), Effective(limits)); Log(limits, [], es, x) == log + (c + c)
    ensures !BoundHolds(limits, ips)
  {
    hide *;
    TwiceTheLimit(limits, log, t);
    RefutesBound(limits, es, x, t, ips);
  }

  lemma {:induction false} SameTimeIsMonotone(es: seq<Event>, t: Time)
    requires AllAt(es, t)
    ensures Monotone(es)
  {
  }

  lemma {:induction false} AfterTwo(limits: Limits, x: Key, y: Key)
    requires limits.maxTrackedIps >= 3 && x != y
    ensures Run(limits, [], [Allow(x, 0), Allow(y, 0)])
         == [(x, Bucket(1, limits.windowMs)), (y, Bucket(1, limits.windowMs))]
  {
    var b := Bucket(1, limits.windowMs);
    var a, c := Allow(x, 0), Allow(y, 0);
    PutNew([], x, b);
    PutNew([(x, b)], y, b);
    hide Put, Find;
    assert [a, c][1..] == [c] && [c][1..] == [];
    assert Next(limits, [], a) == [(x, b)] && Next(limits, [(x, b)], c) == [(x, b), (y, b)];
    hide Next;
    assert Run(limits, [], [a, c]) == Run(limits, [(x, b)], [c]) == Run(limits, [(x, b), (y, b)], []);
  }

  lemma {:induction false} FirstTwoAndRest(ks: seq<Key>, zs: seq<Key>)
    requires Distinct(ks) && |ks| >= 2 && zs <= ks[2..]
    ensures ks[0] != ks[1] && Distinct(zs) && ks[0] !in zs && ks[1] !in zs && forall z :: z in zs ==> z in ks
  {
    assert forall j :: 0 <= j < |zs| ==> zs[j] == ks[j + 2];
  }

  /** As many addresses as places, of which there are three or more. */
  lemma {:induction false} FullTableBreaks(limits: Limits, ks: seq<Key>, ips: set<Key>)
    requires limits.windowMs >= 1 && limits.maxTrackedIps >= 3
    requires Distinct(ks) && |ks| == limits.maxTrackedIps && forall k :: k in ks ==> k in ips
    ensures !BoundHolds(limits, ips)
  {
    var x, y, zs, t := ks[0], ks[1], ks[2..], limits.windowMs;
    var b := Bucket(1, t);
    var m, rest: Table := [(x, b), (y, b)], [(y, b)];
    var start, siege := [Allow(x, 0), Allow(y, 0)], Siege(limits, x, y, zs, t);
    FirstTwoAndRest(ks, zs);
    AfterTwo(limits, x, y);
    FindBehindHead(y, b, Opened(limits, zs, t));
    hide Find, Siege, Opened;
    assert m[1..] == rest && Apart(rest, zs);
    SiegeLog(limits, m, rest, x, y, zs, t);
    SiegeAt(limits, x, y, zs, t, ips);
    var log := Log(limits, [], start, x);
    RunAppend(limits, [], start, siege, x);
    assert Monotone(start + siege) && Over(start + siege, ips);
    hide *;
    TwiceRefutes(limits, start + siege, x, t, log, ips);
  }

  lemma {:induction false} FindBehindHead(y: Key, b: Bucket, rest: Table)
    ensures Find([(y, b)] + rest, y) == Some(b)
  {
  }

  lemma {:induction false} RefutesBound(limits: Limits, es: seq<Event>, x: Key, from: Time, ips: set<Key>)
    requires Monotone(es) && Over(es, ips)
    requires InInterval(Log(limits, [], es, x), from, from + limits.windowMs) >= 2 * Effective(limits)
    ensures !BoundHolds(limits, ips)
  {
    hide Log, InInterval, Monotone, Over;
    assert Requests(limits, es, x, from) >= 2 * Effective(limits);
  }

  lemma {:induction false} Enumerate(ips: set<Key>) returns (ks: seq<Key>)
    ensures Distinct(ks) && |ks| == |ips| && forall k :: k in ks <==> k in ips
    decreases |ips|
  {
    if ips == {} {
      ks := [];
    } else {
      var k :| k in ips;
      var rest := Enumerate(ips - {k});
      ks := rest + [k];
    }
  }

  /** The rate bound holds for every run over a set of addresses if and only if they are fewer than the places of the
      table, or as many and no more than two. */
  lemma {:induction false} BoundHoldsExactly(limits: Limits, ips: set<Key>)
    requires limits.windowMs >= 1 && limits.maxTrackedIps >= 1
    ensures BoundHolds(limits, ips)
       <==> |ips| < limits.maxTrackedIps || |ips| == limits.maxTrackedIps <= 2
  {
    hide BoundHolds;
    if |ips| < limits.maxTrackedIps || |ips| == limits.maxTrackedIps <= 2 {
      FewAddressesKeepTheBound(limits, ips);
    } else {
      var ks := Enumerate(ips);
      if |ips| > limits.maxTrackedIps {
        ManyAddressesBreak(limits, ks, ips);
      } else {
        FullTableBreaks(limits, ks, ips);
      }
    }
  }
}
