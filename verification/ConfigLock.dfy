/** The FIFO lock and the configuration update under it, step by step. */
module ConfigLock {
  import opened Bytes

  /** A call of updateConfig, numbered in the order in which the calls ask for the lock. */
  type Id = nat

  // ---------------------------------------------------------------- the lock

  /** A queued call stands for the resolve function of the promise it waits on. */
  class PessimisticLock {
    var locked: bool
    var queue: seq<Id>

    constructor ()
      ensures !locked && queue == []
    {
      locked, queue := false, [];
    }

    method Acquire(id: Id) returns (resolved: bool)
      modifies this
      ensures locked && resolved == !old(locked)
      ensures queue == if resolved then old(queue) else old(queue) + [id]
    {
      if !locked {
        locked := true;
        return true;
      }
      queue := queue + [id];
      return false;
    }

    /** Hands the lock, still locked, to the longest waiter. */
    method Release() returns (next: Option<Id>)
      modifies this
      ensures next == if old(queue) == [] then None else Some(old(queue)[0])
      ensures queue == if old(queue) == [] then [] else old(queue)[1..]
      ensures locked == (old(locked) && next.Some?)
    {
      if |queue| > 0 {
        next := Some(queue[0]);
        queue := queue[1..];
      } else {
        next := None;
        locked := false;
      }
    }
  }

  // ---------------------------------------------------------------- the steps of all calls

  /** Where a call that holds the lock stands: resumed, writing the temporary file, renaming it, renamed. */
  datatype Phase<C> = Granted | Writing(next: C) | Renaming(next: C) | Renamed(next: C)

  datatype State<C> = State(
    locked: bool,
    queue: seq<Id>,
    active: map<Id, Phase<C>>,
    file: C,
    config: C,
    // histories
    arrivals: seq<Id>,
    entries: seq<Id>,
    outcomes: seq<Option<C>>)

  /** What happens between two awaits. A validation outcome is the validated and encrypted configuration. */
  datatype Event<C> =
    | Call(tenant: bool)
    | Validated(id: Id, result: Option<C>)
    | Written(id: Id, ok: bool)
    | RenameEnded(id: Id, ok: bool)
    | Commit(id: Id)

  predicate Enabled<C(!new)>(s: State<C>, e: Event<C>)
  {
    match e
    case Call(_) => true
    case Validated(id, _) => id in s.active && s.active[id].Granted?
    case Written(id, _) => id in s.active && s.active[id].Writing?
    case RenameEnded(id, _) => id in s.active && s.active[id].Renaming?
    case Commit(id) => id in s.active && s.active[id].Renamed?
  }

  /** The finally block: the call ends and releases the lock. */
  function End<C(!new)>(s: State<C>, id: Id, outcome: Option<C>): State<C>
  {
    var t := s.(active := s.active - {id}, outcomes := s.outcomes + [outcome]);
    if s.queue == [] then t.(locked := false)
    else t.(queue := s.queue[1..], entries := s.entries + [s.queue[0]], active := t.active[s.queue[0] := Granted])
  }

  function Arrive<C(!new)>(s: State<C>): State<C>
  {
    var id := |s.arrivals|;
    var t := s.(arrivals := s.arrivals + [id]);
    if s.locked then t.(queue := s.queue + [id])
    else t.(locked := true, entries := s.entries + [id], active := s.active[id := Granted])
  }

  function Step<C(!new)>(s: State<C>, e: Event<C>): State<C>
    requires Enabled(s, e)
  {
    match e
    case Call(tenant) => if tenant then Arrive(s) else s
    case Validated(id, None) => End(s, id, None)
    case Validated(id, Some(c)) => s.(active := s.active[id := Writing(c)])
    case Written(id, ok) => if ok then s.(active := s.active[id := Renaming(s.active[id].next)]) else End(s, id, None)
    case RenameEnded(id, ok) =>
      if ok then s.(file := s.active[id].next, active := s.active[id := Renamed(s.active[id].next)])
      else End(s, id, None)
    case Commit(id) => End(s.(config := s.active[id].next), id, Some(s.active[id].next))
  }

  /** The state after a run, None when some step of it is not possible. */
  function After<C(!new)>(s: State<C>, es: seq<Event<C>>): Option<State<C>>
    decreases |es|
  {
    if es == [] then Some(s)
    else if !Enabled(s, es[0]) then None
    else After(Step(s, es[0]), es[1..])
  }

  function Start<C>(config: C, file: C): State<C>
  {
    State(false, [], map[], file, config, [], [], [])
  }

  // ---------------------------------------------------------------- the service

  class ConfigService<C(!new)> {
    var config: C
    var file: C
    const lock: PessimisticLock
    var active: map<Id, Phase<C>>
    ghost var arrivals: seq<Id>
    ghost var entries: seq<Id>
    ghost var outcomes: seq<Option<C>>
    var calls: nat

    ghost function Model(): State<C>
      reads this, lock
    {
      State(lock.locked, lock.queue, active, file, config, arrivals, entries, outcomes)
    }

    ghost predicate Valid()
      reads this
    {
      calls == |arrivals|
    }

    constructor (initial: C, stored: C)
      ensures Valid() && fresh(lock)
      ensures Model() == Start(initial, stored)
    {
      config, file, active, calls := initial, stored, map[], 0;
      arrivals, entries, outcomes := [], [], [];
      lock := new PessimisticLock();
    }

    /** updateConfig up to its first await: a call without a tenant never reaches the lock. */
    method Begin(tenant: bool) returns (accepted: bool)
      requires Valid()
      modifies this, lock
      ensures Valid() && accepted == tenant
      ensures Model() == Step(old(Model()), Call(tenant))
    {
      if !tenant { return false; }
      var id := calls;
      calls := calls + 1;
      arrivals := arrivals + [id];
      var resolved := lock.Acquire(id);
      if resolved {
        active := active[id := Granted];
        entries := entries + [id];
      }
      return true;
    }

    method Finish(id: Id, ghost outcome: Option<C>)
      requires Valid() && id in active
      modifies this, lock
      ensures Valid()
      ensures Model() == End(old(Model()), id, outcome)
    {
      active := active - {id};
      outcomes := outcomes + [outcome];
      var next := lock.Release();
      match next {
        case Some(waiter) =>
          active := active[waiter := Granted];
          entries := entries + [waiter];
        case None =>
      }
    }

    /** After acquire: validation throws, or the write begins. */
    method Resume(id: Id, validated: Option<C>)
      requires Valid() && Enabled(Model(), Validated(id, validated))
      modifies this, lock
      ensures Valid()
      ensures Model() == Step(old(Model()), Validated(id, validated))
    {
      match validated {
        case None => Finish(id, None);
        case Some(c) => active := active[id := Writing(c)];
      }
    }

    method OnWritten(id: Id, ok: bool)
      requires Valid() && Enabled(Model(), Written(id, ok))
      modifies this, lock
      ensures Valid()
      ensures Model() == Step(old(Model()), Written(id, ok))
    {
      if ok { active := active[id := Renaming(active[id].next)]; } else { Finish(id, None); }
    }

    method OnRenameEnded(id: Id, ok: bool)
      requires Valid() && Enabled(Model(), RenameEnded(id, ok))
      modifies this, lock
      ensures Valid()
      ensures Model() == Step(old(Model()), RenameEnded(id, ok))
    {
      if ok {
        file := active[id].next;
        active := active[id := Renamed(active[id].next)];
      } else {
        Finish(id, None);
      }
    }

    /** The last stretch: the new configuration is published and the lock released without an await between. */
    method Publish(id: Id)
      requires Valid() && Enabled(Model(), Commit(id))
      modifies this, lock
      ensures Valid()
      ensures Model() == Step(old(Model()), Commit(id))
    {
      config := active[id].next;
      Finish(id, Some(config));
    }
  }

  // ---------------------------------------------------------------- what every interleaving keeps

  /** The updates that ended, replayed one after the other: a failed one leaves the configuration alone. */
  function Replay<C(!new)>(outcomes: seq<Option<C>>, initial: C): C
  {
    if outcomes == [] then initial
    else match outcomes[|outcomes| - 1]
      case Some(c) => c
      case None => Replay(outcomes[..|outcomes| - 1], initial)
  }

  function Last(ids: seq<Id>): Id
    requires ids != []
  {
    ids[|ids| - 1]
  }

  /** Between rename and publication the file is one update ahead of the configuration. */
  predicate FileAhead<C(!new)>(s: State<C>)
  {
    s.entries != [] && Last(s.entries) in s.active && s.active[Last(s.entries)].Renamed?
  }

  ghost predicate Inv<C(!new)>(s: State<C>, config: C, file: C)
  {
    && (forall i :: 0 <= i < |s.arrivals| ==> s.arrivals[i] == i)
    && s.arrivals == s.entries + s.queue
    && |s.entries| == |s.outcomes| + (if s.locked then 1 else 0)
    && (s.locked ==> s.active.Keys == {Last(s.entries)})
    && (!s.locked ==> s.active == map[] && s.queue == [])
    && s.config == Replay(s.outcomes, config)
    && s.file == if FileAhead(s) then s.active[Last(s.entries)].next else Replay(s.outcomes, file)
  }

  lemma ReplayEnd<C(!new)>(outcomes: seq<Option<C>>, outcome: Option<C>, initial: C)
    ensures Replay(outcomes + [outcome], initial) == if outcome.Some? then outcome.value else Replay(outcomes, initial)
  {
    assert (outcomes + [outcome])[..|outcomes|] == outcomes;
  }

  lemma ArriveKeepsInv<C(!new)>(s: State<C>, config: C, file: C)
    requires Inv(s, config, file)
    ensures Inv(Arrive(s), config, file)
  {
    hide Replay;
    var t := Arrive(s);
    assert Last(s.entries + [|s.arrivals|]) == |s.arrivals|;
    if !s.locked {
      assert t.active.Keys == {|s.arrivals|};
    }
  }

  lemma EndKeepsInv<C(!new)>(s: State<C>, id: Id, outcome: Option<C>, config: C, file: C)
    requires Inv(s, config, file) && id in s.active
    requires outcome.None? ==> !s.active[id].Renamed?
    requires outcome.Some? ==> s.active[id] == Renamed(outcome.value)
    ensures Inv(End(s.(config := if outcome.Some? then outcome.value else s.config), id, outcome), config, file)
  {
    ReplayEnd(s.outcomes, outcome, config);
    ReplayEnd(s.outcomes, outcome, file);
    hide Replay;
    assert s.active - {id} == map[];
    if s.queue != [] {
      assert Last(s.entries + [s.queue[0]]) == s.queue[0];
      assert s.entries + s.queue == s.entries + [s.queue[0]] + s.queue[1..];
    }
  }

  lemma StepKeepsInv<C(!new)>(s: State<C>, e: Event<C>, config: C, file: C)
    requires Inv(s, config, file) && Enabled(s, e)
    ensures Inv(Step(s, e), config, file)
  {
    hide Replay;
    match e
    case Call(tenant) => ArriveKeepsInv(s, config, file);
    case Validated(id, None) => EndKeepsInv(s, id, None, config, file);
    case Validated(id, Some(c)) =>
    case Written(id, ok) => if !ok { EndKeepsInv(s, id, None, config, file); }
    case RenameEnded(id, ok) => if !ok { EndKeepsInv(s, id, None, config, file); }
    case Commit(id) => EndKeepsInv(s, id, Some(s.active[id].next), config, file);
  }

  lemma {:induction false} RunKeepsInv<C(!new)>(s: State<C>, es: seq<Event<C>>, config: C, file: C)
    requires Inv(s, config, file) && After(s, es).Some?
    ensures Inv(After(s, es).value, config, file)
    decreases |es|
  {
    hide Inv;
    if es != [] {
      StepKeepsInv(s, es[0], config, file);
      RunKeepsInv(Step(s, es[0]), es[1..], config, file);
    }
  }

  /** In every interleaving: at most one call is inside the critical section, calls enter in the order in which
      they arrived, and a waiter is never left behind a free lock. */
  lemma {:induction false} LockIsFairAndExclusive<C(!new)>(config: C, file: C, es: seq<Event<C>>)
    requires After(Start(config, file), es).Some?
    ensures var s := After(Start(config, file), es).value;
            && (forall i, j :: i in s.active && j in s.active ==> i == j)
            && s.arrivals == s.entries + s.queue
            && (s.queue != [] ==> s.locked)
            && (s.locked <==> exists i :: i in s.active)
  {
    RunKeepsInv(Start(config, file), es, config, file);
    var s := After(Start(config, file), es).value;
    hide Replay, After;
    if s.locked { assert Last(s.entries) in s.active; }
  }

  /** In every interleaving the configuration is what the ended updates leave when run one at a time in arrival
      order; so is the file, except while the holder has renamed but not yet published. */
  lemma {:induction false} UpdatesAreSerial<C(!new)>(config: C, file: C, es: seq<Event<C>>)
    requires After(Start(config, file), es).Some?
    ensures var s := After(Start(config, file), es).value;
            && |s.outcomes| <= |s.entries| <= |s.outcomes| + 1
            && s.config == Replay(s.outcomes, config)
            && (FileAhead(s) <==> exists i :: i in s.active && s.active[i].Renamed?)
            && (!FileAhead(s) ==> s.file == Replay(s.outcomes, file))
  {
    RunKeepsInv(Start(config, file), es, config, file);
  }

  lemma {:induction false} ReplayForgets<C(!new)>(outcomes: seq<Option<C>>, a: C, b: C)
    requires exists i :: 0 <= i < |outcomes| && outcomes[i].Some?
    ensures Replay(outcomes, a) == Replay(outcomes, b)
    ensures IsLastSuccess(outcomes, Replay(outcomes, a))
    decreases |outcomes|
  {
    var n := |outcomes| - 1;
    var before := outcomes[..n];
    assert outcomes == before + [outcomes[n]];
    if outcomes[n].None? {
      var i :| 0 <= i < |outcomes| && outcomes[i].Some?;
      assert before[i].Some?;
      ReplayForgets(before, a, b);
      hide Replay, IsLastSuccess;
      LaterFailure(before, outcomes[n], Replay(before, a));
    }
  }

  lemma {:induction false} LaterFailure<C(!new)>(outcomes: seq<Option<C>>, failed: Option<C>, c: C)
    requires IsLastSuccess(outcomes, c) && failed.None?
    ensures IsLastSuccess(outcomes + [failed], c)
  {
    var k :| 0 <= k < |outcomes| && outcomes[k] == Some(c) && forall j :: k < j < |outcomes| ==> outcomes[j].None?;
    assert (outcomes + [failed])[k] == Some(c);
  }

  /** `c` is the outcome of the last update that succeeded. */
  ghost predicate IsLastSuccess<C(!new)>(outcomes: seq<Option<C>>, c: C)
  {
    exists k :: 0 <= k < |outcomes| && outcomes[k] == Some(c) && forall j :: k < j < |outcomes| ==> outcomes[j].None?
  }

  /** Once an update has succeeded, file and configuration are both the last successful update whenever no rename
      awaits its publication. */
  lemma {:induction false} FileMatchesConfig<C(!new)>(config: C, file: C, es: seq<Event<C>>)
    requires After(Start(config, file), es).Some?
    ensures var s := After(Start(config, file), es).value;
            (exists i :: 0 <= i < |s.outcomes| && s.outcomes[i].Some?) && !FileAhead(s) ==>
              s.file == s.config && IsLastSuccess(s.outcomes, s.config)
  {
    UpdatesAreSerial(config, file, es);
    var s := After(Start(config, file), es).value;
    if exists i :: 0 <= i < |s.outcomes| && s.outcomes[i].Some? {
      ReplayForgets(s.outcomes, config, file);
    }
  }

  /** A failed update, from the moment it is granted the lock to its end, changes neither file nor configuration,
      whatever other calls did meanwhile. */
  lemma {:induction false} FailedUpdateChangesNothing<C(!new)>(
    config: C, file: C, before: seq<Event<C>>, during: seq<Event<C>>)
    requires After(Start(config, file), before).Some?
    requires After(After(Start(config, file), before).value, during).Some?
    requires var s := After(Start(config, file), before).value;
             var t := After(s, during).value;
             t.outcomes == s.outcomes + [None] && !FileAhead(s) && !FileAhead(t)
    ensures var s := After(Start(config, file), before).value;
            var t := After(s, during).value;
            t.config == s.config && t.file == s.file
  {
    var s := After(Start(config, file), before).value;
    RunKeepsInv(Start(config, file), before, config, file);
    RunKeepsInv(s, during, config, file);
    ReplayEnd(s.outcomes, None, config);
    ReplayEnd(s.outcomes, None, file);
  }

  // ---------------------------------------------------------------- what a success takes

  /** The events a call in this phase has behind it, in this order. */
  ghost predicate Earned<C(!new)>(done: seq<Event<C>>, id: Id, phase: Phase<C>)
  {
    match phase
    case Granted => true
    case Writing(c) => exists j :: 0 <= j < |done| && done[j] == Validated(id, Some(c))
    case Renaming(c) =>
      exists j, k :: 0 <= j < k < |done| && done[j] == Validated(id, Some(c)) && done[k] == Written(id, true)
    case Renamed(c) =>
      exists j, k, l :: 0 <= j < k < l < |done| && done[j] == Validated(id, Some(c)) && done[k] == Written(id, true)
                        && done[l] == RenameEnded(id, true)
  }

  ghost predicate AllEarned<C(!new)>(done: seq<Event<C>>, s: State<C>)
  {
    forall id :: id in s.active ==> Earned(done, id, s.active[id])
  }

  lemma EarnedLater<C(!new)>(done: seq<Event<C>>, e: Event<C>, id: Id, phase: Phase<C>)
    requires Earned(done, id, phase)
    ensures Earned(done + [e], id, phase)
  {
    assert forall j :: 0 <= j < |done| ==> (done + [e])[j] == done[j];
  }

  lemma NextPhaseEarned<C(!new)>(done: seq<Event<C>>, id: Id, phase: Phase<C>)
    requires Earned(done, id, phase) && !phase.Granted?
    ensures phase.Writing? ==> Earned(done + [Written(id, true)], id, Renaming(phase.next))
    ensures phase.Renaming? ==> Earned(done + [RenameEnded(id, true)], id, Renamed(phase.next))
  {
    if phase.Writing? {
      var t := done + [Written(id, true)];
      var j :| 0 <= j < |done| && done[j] == Validated(id, Some(phase.next));
      assert t[j] == done[j] && t[|done|] == Written(id, true);
    } else if phase.Renaming? {
      var t := done + [RenameEnded(id, true)];
      var j, k :| 0 <= j < k < |done| && done[j] == Validated(id, Some(phase.next)) && done[k] == Written(id, true);
      assert t[j] == done[j] && t[k] == done[k] && t[|done|] == RenameEnded(id, true);
    }
  }

  lemma StepEarns<C(!new)>(done: seq<Event<C>>, s: State<C>, e: Event<C>)
    requires AllEarned(done, s) && Enabled(s, e)
    ensures AllEarned(done + [e], Step(s, e))
  {
    var t, later := Step(s, e), done + [e];
    forall id | id in t.active ensures Earned(later, id, t.active[id]) {
      if id in s.active {
        EarnedLater(done, e, id, s.active[id]);
        if !s.active[id].Granted? { NextPhaseEarned(done, id, s.active[id]); }
      }
      assert later[|done|] == e;
    }
  }

  lemma {:induction false} RunEarns<C(!new)>(done: seq<Event<C>>, s: State<C>, es: seq<Event<C>>)
    requires AllEarned(done, s) && After(s, es).Some?
    ensures AllEarned(done + es, After(s, es).value)
    decreases |es|
  {
    hide AllEarned, Step, Enabled;
    if es == [] {
      assert done + [] == done;
    } else {
      StepEarns(done, s, es[0]);
      RunEarns(done + [es[0]], Step(s, es[0]), es[1..]);
      assert done + [es[0]] + es[1..] == done + es;
    }
  }

  /** In every interleaving a call replaces the file only after its validation and its write succeeded, and changes the
      configuration only after its rename did too, in this order and with the validated configuration. */
  lemma {:induction false} SuccessIsEarned<C(!new)>(config: C, file: C, es: seq<Event<C>>, e: Event<C>)
    requires After(Start(config, file), es).Some? && Enabled(After(Start(config, file), es).value, e)
    ensures var s := After(Start(config, file), es).value;
            var t := Step(s, e);
            && (t.file != s.file ==>
                  && e.RenameEnded? && e.ok
                  && exists j, k :: 0 <= j < k < |es| && es[j] == Validated(e.id, Some(t.file))
                                    && es[k] == Written(e.id, true))
            && (t.config != s.config ==>
                  && e.Commit?
                  && exists j, k, l :: 0 <= j < k < l < |es| && es[j] == Validated(e.id, Some(t.config))
                                       && es[k] == Written(e.id, true) && es[l] == RenameEnded(e.id, true))
  {
    var s := After(Start(config, file), es).value;
    RunEarns([], Start(config, file), es);
    assert [] + es == es;
    hide After, Step, Enabled;
    StepChanges(s, e);
    if e.RenameEnded? || e.Commit? { assert Earned(es, e.id, s.active[e.id]); }
  }

  lemma StepChanges<C(!new)>(s: State<C>, e: Event<C>)
    requires Enabled(s, e)
    ensures e.RenameEnded? || e.Commit? ==> e.id in s.active
    ensures Step(s, e).file != s.file ==> e.RenameEnded? && e.ok && s.active[e.id] == Renaming(Step(s, e).file)
    ensures Step(s, e).config != s.config ==> e.Commit? && s.active[e.id] == Renamed(Step(s, e).config)
  {
  }

  /** A call that holds the lock and whose steps all succeed ends with its configuration published and in the file. */
  lemma {:induction false} UpdateCommits<C(!new)>(s: State<C>, id: Id, c: C)
    requires id in s.active && s.active[id].Granted?
    ensures var t := After(s, [Validated(id, Some(c)), Written(id, true), RenameEnded(id, true), Commit(id)]);
            t.Some? && t.value.config == c && t.value.file == c && t.value.outcomes == s.outcomes + [Some(c)]
  {
    var v, w, r, e: Event<C> := Validated(id, Some(c)), Written(id, true), RenameEnded(id, true), Commit(id);
    var s1 := Step(s, v);
    var s2 := Step(s1, w);
    var s3 := Step(s2, r);
    assert s3.file == c && s3.active[id] == Renamed(c);
    assert [v, w, r, e][1..] == [w, r, e] && [w, r, e][1..] == [r, e] && [r, e][1..] == [e] && [e][1..] == [];
    hide Step, Enabled;
    CommitPublishes(s3, id, c);
    assert After(Step(s3, e), []) == Some(Step(s3, e));
    assert Enabled(s, v) && Enabled(s1, w) && Enabled(s2, r) by { UpdateIsEnabled(s, id, c); }
    assert After(s3, [e]) == After(Step(s3, e), []);
    assert After(s2, [r, e]) == After(s3, [e]);
    assert After(s1, [w, r, e]) == After(s2, [r, e]);
  }

  lemma UpdateIsEnabled<C(!new)>(s: State<C>, id: Id, c: C)
    requires id in s.active && s.active[id].Granted?
    ensures Enabled(s, Validated(id, Some(c))) && Enabled(Step(s, Validated(id, Some(c))), Written(id, true))
    ensures Enabled(Step(Step(s, Validated(id, Some(c))), Written(id, true)), RenameEnded(id, true))
  {
  }

  lemma CommitPublishes<C(!new)>(s: State<C>, id: Id, c: C)
    requires id in s.active && s.active[id] == Renamed(c)
    ensures Enabled(s, Commit(id))
    ensures var t := Step(s, Commit(id)); t.config == c && t.file == s.file && t.outcomes == s.outcomes + [Some(c)]
  {
  }

  /** A call with a tenant gets the next number; it holds the lock at once when that is free and waits behind all others
      otherwise. A call without one changes nothing. */
  lemma {:induction false} CallArrives<C(!new)>(config: C, file: C, es: seq<Event<C>>)
    requires After(Start(config, file), es).Some?
    ensures var s := After(Start(config, file), es).value;
            var t, id := Step(s, Call(true)), |s.arrivals|;
            && Step(s, Call(false)) == s
            && t.arrivals == s.arrivals + [id] && t.locked && id !in s.active && id !in s.queue
            && (!s.locked ==> id in t.active && t.active[id] == Granted && t.queue == s.queue)
            && (s.locked ==> t.active == s.active && t.queue == s.queue + [id])
            && t.config == s.config && t.file == s.file && t.outcomes == s.outcomes
  {
    RunKeepsInv(Start(config, file), es, config, file);
    var s := After(Start(config, file), es).value;
    hide After, Replay;
    NumbersAreSmall(s, config, file);
  }

  lemma NumbersAreSmall<C(!new)>(s: State<C>, config: C, file: C)
    requires Inv(s, config, file)
    ensures |s.arrivals| !in s.active && |s.arrivals| !in s.queue
  {
    hide Replay;
    assert forall i :: 0 <= i < |s.queue| ==> s.queue[i] == s.arrivals[|s.entries| + i];
    if s.locked { assert Last(s.entries) == s.arrivals[|s.entries| - 1]; }
  }

  /** A validation, a write or a rename that fails ends the call at once and changes neither configuration nor file. */
  lemma {:induction false} FailureEnds<C(!new)>(config: C, file: C, es: seq<Event<C>>, id: Id, e: Event<C>)
    requires After(Start(config, file), es).Some? && Enabled(After(Start(config, file), es).value, e)
    requires e == Validated(id, None) || e == Written(id, false) || e == RenameEnded(id, false)
    ensures var s := After(Start(config, file), es).value;
            var t := Step(s, e);
            && t.config == s.config && t.file == s.file && t.outcomes == s.outcomes + [None]
            && id !in t.active && (s.queue == [] ==> !t.locked) && (s.queue != [] ==> s.queue[0] in t.active)
  {
    RunKeepsInv(Start(config, file), es, config, file);
    var s := After(Start(config, file), es).value;
    hide After, Replay;
    if s.queue != [] { QueuedIsIdle(s, config, file); }
  }

  lemma QueuedIsIdle<C(!new)>(s: State<C>, config: C, file: C)
    requires Inv(s, config, file) && s.queue != []
    ensures s.queue[0] !in s.active
  {
    hide Replay;
    assert (s.entries + s.queue)[|s.entries|] == s.queue[0];
    if s.entries != [] { assert (s.entries + s.queue)[|s.entries| - 1] == Last(s.entries); }
  }

  // ---------------------------------------------------------------- every waiter gets in

  function Remaining<C(!new)>(p: Phase<C>): nat
  {
    match p case Granted => 4 case Writing(_) => 3 case Renaming(_) => 2 case Renamed(_) => 1
  }

  predicate HolderAt<C(!new)>(s: State<C>)
  {
    s.locked && s.entries != [] && Last(s.entries) in s.active
  }

  /** Steps of lock holders after which the waiter at place `place` has entered at the latest. */
  function Distance<C(!new)>(s: State<C>, place: nat): nat
    requires HolderAt(s)
  {
    Remaining(s.active[Last(s.entries)]) + 4 * place
  }

  function HolderSteps<C(!new)>(es: seq<Event<C>>): nat
  {
    if es == [] then 0 else (if es[0].Call? then 0 else 1) + HolderSteps(es[1..])
  }

  /** A step of the holder is possible whenever the lock is held, with either outcome. */
  lemma HolderCanStep<C(!new)>(s: State<C>, config: C, file: C, c: C, ok: bool)
    requires Inv(s, config, file) && s.locked
    ensures var id := Last(s.entries);
            && (Enabled(s, Validated(id, Some(c))) || Enabled(s, Written(id, ok))
                || Enabled(s, RenameEnded(id, ok)) || Enabled(s, Commit(id)))
  {
    hide Replay;
    assert Last(s.entries) in s.active;
  }

  /** The waiter `who` has entered, or waits behind a holder at a distance of at most `limit`. */
  ghost predicate Within<C(!new)>(t: State<C>, who: Id, limit: int)
  {
    || who in t.entries
    || (exists p: nat :: p < |t.queue| && t.queue[p] == who && HolderAt(t) && Distance(t, p) <= limit)
  }

  lemma ArrivalKeepsDistance<C(!new)>(s: State<C>, place: nat)
    requires HolderAt(s) && place < |s.queue|
    ensures Within(Arrive(s), s.queue[place], Distance(s, place))
  {
    var t := Arrive(s);
    assert t.queue[place] == s.queue[place] && Distance(t, place) == Distance(s, place);
  }

  lemma EndMovesUp<C(!new)>(s: State<C>, id: Id, outcome: Option<C>, place: nat)
    requires HolderAt(s) && place < |s.queue|
    ensures Within(End(s, id, outcome), s.queue[place], Distance(s, place) - 1)
  {
    var t := End(s, id, outcome);
    assert Last(t.entries) == s.queue[0] && t.active[s.queue[0]] == Granted;
    if place == 0 {
      assert t.entries[|s.entries|] == s.queue[0];
    } else {
      assert t.queue[place - 1] == s.queue[place];
      assert Distance(t, place - 1) == 4 * place <= Distance(s, place) - 1;
    }
  }

  lemma NextPhaseIsCloser<C(!new)>(s: State<C>, t: State<C>, place: nat)
    requires HolderAt(s) && place < |s.queue| && HolderAt(t)
    requires t.queue == s.queue && t.entries == s.entries
    requires Remaining(t.active[Last(t.entries)]) == Remaining(s.active[Last(s.entries)]) - 1
    ensures Within(t, s.queue[place], Distance(s, place) - 1)
  {
    assert t.queue[place] == s.queue[place] && Distance(t, place) == Distance(s, place) - 1;
  }

  /** One step brings the waiter one place or one phase closer, or lets it in; arrivals do not delay it. */
  lemma StepBringsCloser<C(!new)>(s: State<C>, e: Event<C>, place: nat, config: C, file: C)
    requires Inv(s, config, file) && Enabled(s, e) && place < |s.queue|
    ensures HolderAt(s)
    ensures Within(Step(s, e), s.queue[place], Distance(s, place) - (if e.Call? then 0 else 1))
  {
    Shape(s, config, file);
    assert Last(s.entries) in s.active;
    hide Inv, Within, End, Arrive;
    match e
    case Call(tenant) =>
      if tenant { ArrivalKeepsDistance(s, place); } else { WithinItself(s, place); }
    case Validated(id, None) => EndMovesUp(s, id, None, place);
    case Validated(id, Some(c)) => NextPhaseIsCloser(s, Step(s, e), place);
    case Written(id, ok) =>
      if ok { NextPhaseIsCloser(s, Step(s, e), place); } else { EndMovesUp(s, id, None, place); }
    case RenameEnded(id, ok) =>
      if ok { NextPhaseIsCloser(s, Step(s, e), place); } else { EndMovesUp(s, id, None, place); }
    case Commit(id) => EndMovesUp(s.(config := s.active[id].next), id, Some(s.active[id].next), place);
  }

  lemma WithinItself<C(!new)>(s: State<C>, place: nat)
    requires HolderAt(s) && place < |s.queue|
    ensures Within(s, s.queue[place], Distance(s, place))
  {
  }

  lemma Shape<C(!new)>(s: State<C>, config: C, file: C)
    requires Inv(s, config, file)
    ensures s.locked ==> s.entries != [] && s.active.Keys == {Last(s.entries)}
    ensures s.queue != [] ==> s.locked
  {
  }

  lemma {:induction false} EntriesGrow<C(!new)>(s: State<C>, es: seq<Event<C>>)
    requires After(s, es).Some?
    ensures s.entries <= After(s, es).value.entries
    decreases |es|
  {
    if es != [] {
      EntriesGrow(Step(s, es[0]), es[1..]);
    }
  }

  lemma {:induction false} WaiterEnters<C(!new)>(s: State<C>, es: seq<Event<C>>, place: nat, config: C, file: C)
    requires Inv(s, config, file) && After(s, es).Some? && place < |s.queue|
    requires HolderAt(s)
    requires HolderSteps(es) >= Distance(s, place)
    ensures s.queue[place] in After(s, es).value.entries
    decreases |es|
  {
    var t := Step(s, es[0]);
    StepBringsCloser(s, es[0], place, config, file);
    StepKeepsInv(s, es[0], config, file);
    EntriesGrow(t, es[1..]);
    hide Inv, Step, Distance;
    if s.queue[place] !in t.entries {
      var p: nat :| && p < |t.queue| && t.queue[p] == s.queue[place] && HolderAt(t)
                    && Distance(t, p) <= Distance(s, place) - (if es[0].Call? then 0 else 1);
      WaiterEnters(t, es[1..], p, config, file);
    }
  }

  /** In every interleaving, whatever arrives and whatever fails: a waiter enters within four holder steps for
      itself and each waiter before it, and a holder step is always possible. */
  lemma {:induction false} EveryWaiterEnters<C(!new)>(
    config: C, file: C, before: seq<Event<C>>, es: seq<Event<C>>, place: nat, c: C, ok: bool)
    requires After(Start(config, file), before).Some?
    requires After(After(Start(config, file), before).value, es).Some?
    requires place < |After(Start(config, file), before).value.queue|
    ensures var s := After(Start(config, file), before).value;
            && s.entries != []
            && (HolderSteps(es) >= 4 * (place + 1) ==> s.queue[place] in After(s, es).value.entries)
            && (|| Enabled(s, Validated(Last(s.entries), Some(c))) || Enabled(s, Written(Last(s.entries), ok))
                || Enabled(s, RenameEnded(Last(s.entries), ok)) || Enabled(s, Commit(Last(s.entries))))
  {
    var s := After(Start(config, file), before).value;
    RunKeepsInv(Start(config, file), before, config, file);
    Shape(s, config, file);
    HolderCanStep(s, config, file, c, ok);
    hide Inv, After;
    assert Last(s.entries) in s.active;
    if HolderSteps(es) >= 4 * (place + 1) {
      WaiterEnters(s, es, place, config, file);
    }
  }
}
