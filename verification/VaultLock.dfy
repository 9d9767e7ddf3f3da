// Exchange interleaved with vault lock and unlock (internal/broker/broker.go,
// internal/broker/vault_lock.go, internal/broker/cache.go): a transition system whose steps
// are the points where a call reads the flag or takes the cache's mutex.
module VaultLock {
  import opened Basics

  type CallId = nat
  type Key = nat

  /** Where a call to Exchange stands. */
  datatype Stage =
    | Begun
    | PastLock      // read locked == false
    | PastReady     // the audit log is ready
    | Stale         // found its entry expired, and has yet to delete it
    | Missed        // no usable entry: calls the strategy
    | Minted        // has a token to store
    | Auditing      // has a result, and its event to emit
    | Refused       // read locked == true
    | Failed
    | Returned

  /** startedAt and readAt are steps of the run; readAt counts once the call is past the lock. */
  datatype Call = Call(key: Key, stage: Stage, startedAt: nat, readAt: nat, touched: bool)

  /** A cached entry, with when the call that stored it read the flag, and when it stored it. */
  datatype Cached = Cached(caller: CallId, readAt: nat, storedAt: nat)

  /** clock counts steps; lockedAt and flushedAt are the latest store of true and the latest flush after it. */
  datatype State = State(
    clock: nat, locked: bool, lockedAt: nat, flushedAt: Option<nat>, flushes: nat,
    calls: map<CallId, Call>, cache: map<Key, Cached>)

  datatype Step =
    | Begin(c: CallId, key: Key)
    | ReadLock(c: CallId)
    | CheckReady(c: CallId, ok: bool)
    | Get(c: CallId, expired: bool)
    | DeleteStale(c: CallId)
    | CallStrategy(c: CallId, ok: bool)
    | Set(c: CallId, victim: Option<Key>)
    | EmitEvent(c: CallId, ok: bool)
    | StoreLocked
    | Flush
    | StoreUnlocked
    | Remove(keys: set<Key>)

  const Init: State := State(0, false, 0, None, 0, map[], map[])

  predicate At(s: State, c: CallId, stage: Stage) {
    c in s.calls && s.calls[c].stage == stage
  }

  predicate Enabled(s: State, step: Step) {
    match step
    case Begin(c, _) => c !in s.calls
    case ReadLock(c) => At(s, c, Begun)
    case CheckReady(c, _) => At(s, c, PastLock)
    case Get(c, expired) => At(s, c, PastReady)
    case DeleteStale(c) => At(s, c, Stale)
    case CallStrategy(c, _) => At(s, c, Missed)
    case Set(c, _) => At(s, c, Minted)
    case EmitEvent(c, _) => At(s, c, Auditing)
    case StoreLocked => true
    case Flush => s.flushes > 0
    case StoreUnlocked => true
    case Remove(_) => true
  }

  function MoveTo(s: State, c: CallId, stage: Stage): (t: State)
    requires c in s.calls
  {
    s.(calls := s.calls[c := s.calls[c].(stage := stage)])
  }

  function Touch(s: State, c: CallId, stage: Stage): (t: State)
    requires c in s.calls
  {
    s.(calls := s.calls[c := s.calls[c].(stage := stage, touched := true)])
  }

  /** What a step does, the clock aside. */
  function Effect(s: State, step: Step): (t: State)
    requires Enabled(s, step)
  {
    match step
    case Begin(c, key) => s.(calls := s.calls[c := Call(key, Begun, s.clock, 0, false)])
    case ReadLock(c) =>
      if s.locked then MoveTo(s, c, Refused)
      else s.(calls := s.calls[c := s.calls[c].(stage := PastLock, readAt := s.clock)])
    case CheckReady(c, ok) => MoveTo(s, c, if ok then PastReady else Failed)
    case Get(c, expired) =>
      Touch(s, c, if s.calls[c].key !in s.cache then Missed else if expired then Stale else Auditing)
    case DeleteStale(c) => Touch(s, c, Missed).(cache := s.cache - {s.calls[c].key})
    case CallStrategy(c, ok) => MoveTo(s, c, if ok then Minted else Failed)
    case Set(c, victim) =>
      var kept := if victim.Some? then s.cache - {victim.value} else s.cache;
      Touch(s, c, Auditing).(cache := kept[s.calls[c].key := Cached(c, s.calls[c].readAt, s.clock)])
    case EmitEvent(c, ok) => MoveTo(s, c, if ok then Returned else Failed)
    case StoreLocked => s.(locked := true, lockedAt := s.clock, flushedAt := None, flushes := s.flushes + 1)
    case Flush => s.(cache := map[], flushedAt := Some(s.clock), flushes := s.flushes - 1)
    case StoreUnlocked => s.(locked := false)
    case Remove(keys) => s.(cache := s.cache - keys)
  }

  function Next(s: State, step: Step): (t: State)
    requires Enabled(s, step)
  {
    Effect(s, step).(clock := s.clock + 1)
  }

  /** The steps can be taken in this order. */
  predicate Legal(s: State, steps: seq<Step>)
    decreases |steps|
  {
    steps == [] || (Enabled(s, steps[0]) && Legal(Next(s, steps[0]), steps[1..]))
  }

  function Run(s: State, steps: seq<Step>): (t: State)
    requires Legal(s, steps)
    decreases |steps|
  {
    if steps == [] then s else Run(Next(s, steps[0]), steps[1..])
  }

  // ---- one call with nothing in between ----

  /** How everything a call does not decide itself turns out. */
  datatype Luck = Luck(ready: bool, expired: bool, minted: bool, victim: Option<Key>, recorded: bool)

  /** The steps of a call that has missed. */
  function AfterMiss(c: CallId, luck: Luck): (steps: seq<Step>)
  {
    if luck.minted then [CallStrategy(c, true), Set(c, luck.victim), EmitEvent(c, luck.recorded)]
    else [CallStrategy(c, false)]
  }

  /** The steps of a call that looks into the cache. */
  function FromCache(c: CallId, cached: bool, luck: Luck): (steps: seq<Step>)
  {
    if cached && !luck.expired then [Get(c, false), EmitEvent(c, luck.recorded)]
    else ToMiss(c, cached, luck) + AfterMiss(c, luck)
  }

  /** All the steps of a call. */
  function Alone(s: State, c: CallId, luck: Luck): (steps: seq<Step>)
    requires c in s.calls
  {
    if s.locked then [ReadLock(c)]
    else if !luck.ready then [ReadLock(c), CheckReady(c, false)]
    else [ReadLock(c), CheckReady(c, true)] + FromCache(c, s.calls[c].key in s.cache, luck)
  }

  /** The call ended like this, and every other call stands where it stood. */
  ghost predicate Ended(s: State, t: State, c: CallId, stage: Stage) {
    && t.locked == s.locked && t.calls.Keys == s.calls.Keys && c in s.calls
    && t.calls[c].stage == stage && t.calls[c].key == s.calls[c].key
    && forall d :: d in s.calls && d != c ==> t.calls[d] == s.calls[d]
  }

  /** What was minted is cached under the call's key, and only the victim had to go for it. */
  ghost predicate Stored(s: State, t: State, c: CallId, victim: Option<Key>)
    requires c in s.calls
  {
    var key := s.calls[c].key;
    && key in t.cache && t.cache[key].caller == c
    && forall k :: k != key ==>
         && (k in t.cache <==> k in s.cache && victim != Some(k))
         && (k in t.cache ==> t.cache[k] == s.cache[k])
  }

  lemma {:induction false} RunAppend(s: State, first: seq<Step>, second: seq<Step>)
    requires Legal(s, first) && Legal(Run(s, first), second)
    ensures Legal(s, first + second) && Run(s, first + second) == Run(Run(s, first), second)
    decreases |first|
  {
    if first == [] {
      assert first + second == second;
    } else {
      assert (first + second)[0] == first[0] && (first + second)[1..] == first[1..] + second;
      RunAppend(Next(s, first[0]), first[1..], second);
    }
  }

  lemma RunOne(s: State, step: Step)
    requires Enabled(s, step)
    ensures Legal(s, [step]) && Run(s, [step]) == Next(s, step)
  {
    assert [step][1..] == [];
  }

  lemma RunTwo(s: State, first: Step, second: Step)
    requires Enabled(s, first) && Enabled(Next(s, first), second)
    ensures Legal(s, [first, second]) && Run(s, [first, second]) == Next(Next(s, first), second)
  {
    RunOne(s, first);
    RunOne(Next(s, first), second);
    RunAppend(s, [first], [second]);
    assert [first] + [second] == [first, second];
  }

  /** Nothing a call did before changes how it ends. */
  lemma EndedTrans(s: State, between: State, t: State, c: CallId, earlier: Stage, stage: Stage)
    requires Ended(s, between, c, earlier) && Ended(between, t, c, stage)
    ensures Ended(s, t, c, stage)
  {
  }

  lemma StoreAlone(s: State, c: CallId, luck: Luck)
    requires At(s, c, Minted)
    ensures var steps := [Set(c, luck.victim), EmitEvent(c, luck.recorded)];
            && Legal(s, steps)
            && var t := Run(s, steps);
               Ended(s, t, c, if luck.recorded then Returned else Failed) && Stored(s, t, c, luck.victim)
  {
    RunTwo(s, Set(c, luck.victim), EmitEvent(c, luck.recorded));
  }

  lemma MissAlone(s: State, c: CallId, luck: Luck)
    requires At(s, c, Missed)
    ensures var steps := AfterMiss(c, luck);
            && Legal(s, steps)
            && var t := Run(s, steps);
               if !luck.minted then Ended(s, t, c, Failed) && t.cache == s.cache
               else Ended(s, t, c, if luck.recorded then Returned else Failed) && Stored(s, t, c, luck.victim)
  {
    RunOne(s, CallStrategy(c, luck.minted));
    if luck.minted {
      var first, rest := [CallStrategy(c, true)], [Set(c, luck.victim), EmitEvent(c, luck.recorded)];
      var minted := Run(s, first);
      StoreAlone(minted, c, luck);
      RunAppend(s, first, rest);
      EndedTrans(s, minted, Run(minted, rest), c, Minted, if luck.recorded then Returned else Failed);
      assert first + rest == AfterMiss(c, luck);
    }
  }

  /** The steps that end in a miss: an expired entry is deleted on the way. */
  function ToMiss(c: CallId, cached: bool, luck: Luck): (steps: seq<Step>)
  {
    if cached then [Get(c, true), DeleteStale(c)] else [Get(c, luck.expired)]
  }

  lemma ReachMiss(s: State, c: CallId, luck: Luck)
    requires At(s, c, PastReady)
    ensures var steps := ToMiss(c, s.calls[c].key in s.cache, luck);
            && Legal(s, steps)
            && Ended(s, Run(s, steps), c, Missed) && Run(s, steps).cache == s.cache - {s.calls[c].key}
  {
    if s.calls[c].key in s.cache {
      RunTwo(s, Get(c, true), DeleteStale(c));
    } else {
      RunOne(s, Get(c, luck.expired));
      assert s.cache - {s.calls[c].key} == s.cache;
    }
  }

  /** How a call that reads the cache ends: with a hit, or with what the strategy mints. */
  ghost predicate AnsweredAlone(s: State, t: State, c: CallId, luck: Luck)
    requires c in s.calls
  {
    if s.calls[c].key in s.cache && !luck.expired then
      Ended(s, t, c, if luck.recorded then Returned else Failed) && t.cache == s.cache
    else if !luck.minted then
      Ended(s, t, c, Failed) && t.cache == s.cache - {s.calls[c].key}
    else
      Ended(s, t, c, if luck.recorded then Returned else Failed) && Stored(s, t, c, luck.victim)
  }

  lemma CacheAlone(s: State, c: CallId, luck: Luck)
    requires At(s, c, PastReady)
    ensures var steps := FromCache(c, s.calls[c].key in s.cache, luck);
            Legal(s, steps) && AnsweredAlone(s, Run(s, steps), c, luck)
  {
    var cached := s.calls[c].key in s.cache;
    if cached && !luck.expired {
      RunTwo(s, Get(c, false), EmitEvent(c, luck.recorded));
    } else {
      ReachMiss(s, c, luck);
      var missed := Run(s, ToMiss(c, cached, luck));
      MissAlone(missed, c, luck);
      RunAppend(s, ToMiss(c, cached, luck), AfterMiss(c, luck));
      var t := Run(missed, AfterMiss(c, luck));
      EndedTrans(s, missed, t, c, Missed, t.calls[c].stage);
    }
  }

  /** A call that nothing comes between does what Exchange does. */
  lemma CallAlone(s: State, c: CallId, luck: Luck)
    requires At(s, c, Begun)
    ensures Legal(s, Alone(s, c, luck))
    ensures var t := Run(s, Alone(s, c, luck));
            if s.locked then Ended(s, t, c, Refused) && t.cache == s.cache
            else if !luck.ready then Ended(s, t, c, Failed) && t.cache == s.cache
            else AnsweredAlone(s, t, c, luck)
  {
    if s.locked {
      RunOne(s, ReadLock(c));
    } else {
      RunTwo(s, ReadLock(c), CheckReady(c, luck.ready));
      if luck.ready {
        var checks := [ReadLock(c), CheckReady(c, true)];
        CacheAlone(Run(s, checks), c, luck);
        RunAppend(s, checks, FromCache(c, s.calls[c].key in s.cache, luck));
      }
    }
  }

  /** Locking, unlocking and evicting are possible at any time, and change no call. */
  lemma VaultAlone(s: State, keys: set<Key>)
    ensures Legal(s, [StoreLocked, Flush]) && Legal(s, [StoreUnlocked]) && Legal(s, [Remove(keys)])
    ensures var t := Run(s, [StoreLocked, Flush]);
            t.locked && t.cache == map[] && t.flushes == s.flushes && t.calls == s.calls
    ensures var t := Run(s, [StoreUnlocked]); !t.locked && t.cache == s.cache && t.calls == s.calls
    ensures var t := Run(s, [Remove(keys)]);
            t.locked == s.locked && t.cache == s.cache - keys && t.calls == s.calls
  {
    RunTwo(s, StoreLocked, Flush);
    RunOne(s, StoreUnlocked);
    RunOne(s, Remove(keys));
  }

  // ---- calls in flight ----

  /** Past the lock check and not yet past the store. */
  predicate Armed(call: Call) {
    call.stage in {PastLock, PastReady, Stale, Missed, Minted}
  }

  predicate PassedLock(call: Call) {
    Armed(call) || call.stage in {Auditing, Failed, Returned}
  }

  /** Times lie in the past, and only a call past the lock check has touched the cache. */
  ghost predicate WellTimed(s: State) {
    && (s.flushedAt.Some? ==> s.lockedAt < s.flushedAt.value < s.clock)
    && (s.locked || s.flushes > 0 ==> s.lockedAt < s.clock)
    && (forall c :: c in s.calls ==>
          && s.calls[c].startedAt < s.clock
          && (s.calls[c].touched ==> PassedLock(s.calls[c]))
          && (PassedLock(s.calls[c]) ==> s.calls[c].startedAt <= s.calls[c].readAt < s.clock))
    && (forall k :: k in s.cache ==> s.cache[k].readAt <= s.cache[k].storedAt < s.clock)
  }

  /** While the vault is locked, whoever is past the lock check read the flag before the latest lock. */
  ghost predicate ReadersPrecedeLock(s: State) {
    s.locked ==> forall c :: c in s.calls && PassedLock(s.calls[c]) ==> s.calls[c].readAt < s.lockedAt
  }

  /** While it is locked, so did whoever stored an entry, and what is there after the flush was stored after it. */
  ghost predicate EntriesPrecedeLock(s: State) {
    s.locked ==> forall k :: k in s.cache ==>
      && s.cache[k].readAt < s.lockedAt
      && (s.flushedAt.Some? ==> s.flushedAt.value < s.cache[k].storedAt)
  }

  ghost predicate Inv(s: State) {
    WellTimed(s) && ReadersPrecedeLock(s) && EntriesPrecedeLock(s)
  }

  lemma TimesStep(s: State, step: Step)
    requires WellTimed(s) && Enabled(s, step)
    ensures WellTimed(Next(s, step))
  {
    var t := Next(s, step);
    forall c | c in t.calls
      ensures t.calls[c].startedAt < t.clock && (t.calls[c].touched ==> PassedLock(t.calls[c]))
      ensures PassedLock(t.calls[c]) ==> t.calls[c].startedAt <= t.calls[c].readAt < t.clock
    {
      assert c in s.calls ==> s.calls[c].startedAt < s.clock;
    }
  }

  lemma ReadersStep(s: State, step: Step)
    requires WellTimed(s) && ReadersPrecedeLock(s) && Enabled(s, step)
    ensures ReadersPrecedeLock(Next(s, step))
  {
    var t := Next(s, step);
    forall c | t.locked && c in t.calls && PassedLock(t.calls[c]) ensures t.calls[c].readAt < t.lockedAt {
      assert c in s.calls;
    }
  }

  lemma EntriesStep(s: State, step: Step)
    requires Inv(s) && Enabled(s, step)
    ensures EntriesPrecedeLock(Next(s, step))
  {
  }

  lemma InvStep(s: State, step: Step)
    requires Inv(s) && Enabled(s, step)
    ensures Inv(Next(s, step))
  {
    TimesStep(s, step);
    ReadersStep(s, step);
    EntriesStep(s, step);
  }

  /** Every reachable state keeps the invariant. */
  lemma {:induction false} InvRun(s: State, steps: seq<Step>)
    requires Inv(s) && Legal(s, steps)
    ensures Inv(Run(s, steps))
    decreases |steps|
  {
    if steps != [] {
      InvStep(s, steps[0]);
      InvRun(Next(s, steps[0]), steps[1..]);
    }
  }

  /** What the invariant says of any state a run can reach. */
  lemma LockedEntries(steps: seq<Step>)
    requires Legal(Init, steps)
    ensures var s := Run(Init, steps);
            && (forall k :: s.locked && k in s.cache ==>
                  && s.cache[k].readAt < s.lockedAt
                  && (s.flushedAt.Some? ==> s.flushedAt.value < s.cache[k].storedAt))
            && (forall c :: s.locked && c in s.calls && s.calls[c].startedAt >= s.lockedAt ==>
                  s.calls[c].stage in {Begun, Refused} && !s.calls[c].touched)
  {
    InvRun(Init, steps);
    var s := Run(Init, steps);
    forall c | s.locked && c in s.calls && s.calls[c].startedAt >= s.lockedAt
      ensures s.calls[c].stage in {Begun, Refused} && !s.calls[c].touched
    {
      assert !PassedLock(s.calls[c]);
      assert s.calls[c].stage.Begun? || s.calls[c].stage.Refused?;
    }
  }

  /** No unlock among these steps. */
  predicate NoUnlock(steps: seq<Step>) {
    forall i :: 0 <= i < |steps| ==> !steps[i].StoreUnlocked?
  }

  ghost predicate AnyArmed(s: State) {
    exists c :: c in s.calls && Armed(s.calls[c])
  }

  /** Locked, with nothing cached and nobody who could store. */
  ghost predicate Quiet(s: State) {
    s.locked && s.cache == map[] && !AnyArmed(s)
  }

  lemma QuietStep(s: State, step: Step)
    requires Quiet(s) && Enabled(s, step) && !step.StoreUnlocked?
    ensures Quiet(Next(s, step))
  {
  }

  lemma {:induction false} QuietRun(s: State, steps: seq<Step>)
    requires Quiet(s) && Legal(s, steps) && NoUnlock(steps)
    ensures Quiet(Run(s, steps))
    decreases |steps|
  {
    if steps != [] {
      QuietStep(s, steps[0]);
      QuietRun(Next(s, steps[0]), steps[1..]);
    }
  }

  /** The steps that take an armed call to its store. */
  function ToStore(s: State, c: CallId): (steps: seq<Step>)
    requires c in s.calls && Armed(s.calls[c])
  {
    match s.calls[c].stage
    case PastLock => [CheckReady(c, true), Get(c, true), CallStrategy(c, true), Set(c, None)]
    case PastReady => [Get(c, true), CallStrategy(c, true), Set(c, None)]
    case Stale => [DeleteStale(c), CallStrategy(c, true), Set(c, None)]
    case Missed => [CallStrategy(c, true), Set(c, None)]
    case _ => [Set(c, None)]
  }

  /** One step of an armed call other than its store keeps it armed, the vault locked and the cache empty. */
  lemma {:induction false} ArmedCallStores(s: State, c: CallId)
    requires s.locked && s.cache == map[] && c in s.calls && Armed(s.calls[c])
    ensures NoUnlock(ToStore(s, c)) && Legal(s, ToStore(s, c))
    ensures Run(s, ToStore(s, c)).locked && Run(s, ToStore(s, c)).cache != map[]
    decreases |ToStore(s, c)|
  {
    var steps := ToStore(s, c);
    var t := Next(s, steps[0]);
    if s.calls[c].stage == Minted {
      assert s.calls[c].key in t.cache;
      assert Run(t, steps[1..]) == t;
    } else {
      assert ToStore(t, c) == steps[1..];
      ArmedCallStores(t, c);
    }
  }

  /** After a flush of a locked vault the cache stays empty until unlock exactly when no call is armed. */
  lemma StaysEmptyIff(s: State)
    requires s.locked && s.cache == map[]
    ensures (forall steps :: Legal(s, steps) && NoUnlock(steps) ==> Run(s, steps).cache == map[]) <==> !AnyArmed(s)
  {
    if AnyArmed(s) {
      var c :| c in s.calls && Armed(s.calls[c]);
      ArmedCallStores(s, c);
    } else {
      forall steps | Legal(s, steps) && NoUnlock(steps) ensures Run(s, steps).cache == map[] {
        QuietRun(s, steps);
      }
    }
  }

  /** Some run of the system ends here. */
  ghost predicate Reachable(s: State) {
    exists steps :: Legal(Init, steps) && Run(Init, steps) == s
  }

  lemma {:induction false} RunSnoc(s: State, steps: seq<Step>, step: Step)
    requires Legal(s, steps) && Enabled(Run(s, steps), step)
    ensures Legal(s, steps + [step]) && Run(s, steps + [step]) == Next(Run(s, steps), step)
    decreases |steps|
  {
    if steps == [] {
      assert steps + [step] == [step] && [step][1..] == [];
    } else {
      assert (steps + [step])[0] == steps[0] && (steps + [step])[1..] == steps[1..] + [step];
      RunSnoc(Next(s, steps[0]), steps[1..], step);
    }
  }

  lemma ReachNext(s: State, step: Step, t: State)
    requires Reachable(s) && Enabled(s, step) && t == Next(s, step)
    ensures Reachable(t)
  {
    var steps :| Legal(Init, steps) && Run(Init, steps) == s;
    RunSnoc(Init, steps, step);
  }

  /** One call, in flight since the first step, that read the flag in the second. */
  function OneCall(clock: nat, stage: Stage, readAt: nat, touched: bool): (s: State)
  {
    State(clock, false, 0, None, 0, map[0 := Call(7, stage, 0, readAt, touched)], map[])
  }

  lemma MissIsReachable()
    ensures Reachable(OneCall(4, Missed, 1, true))
  {
    assert Legal(Init, []) && Run(Init, []) == Init;
    ReachNext(Init, Begin(0, 7), OneCall(1, Begun, 0, false));
    ReachNext(OneCall(1, Begun, 0, false), ReadLock(0), OneCall(2, PastLock, 1, false));
    ReachNext(OneCall(2, PastLock, 1, false), CheckReady(0, true), OneCall(3, PastReady, 1, false));
    ReachNext(OneCall(3, PastReady, 1, false), Get(0, false), OneCall(4, Missed, 1, true));
  }

  /** The same call, after OnVaultLock has run from its first line to its last. */
  function Overtaken(clock: nat, stage: Stage): (s: State)
  {
    State(clock, true, 4, Some(5), 0, map[0 := Call(7, stage, 0, 1, true)], map[])
  }

  lemma OvertakenIsReachable()
    ensures Reachable(Overtaken(6, Missed))
  {
    var missed := OneCall(4, Missed, 1, true);
    MissIsReachable();
    var locking := missed.(clock := 5, locked := true, lockedAt := 4, flushes := 1);
    ReachNext(missed, StoreLocked, locking);
    ReachNext(locking, Flush, Overtaken(6, Missed));
  }

  /** The lock protocol does not keep the cache empty: a call that has missed can store after OnVaultLock returned. */
  lemma CachedAfterLock()
    ensures exists s :: Reachable(s) && s.locked && s.flushes == 0 && s.flushedAt.Some? && s.cache != map[]
  {
    OvertakenIsReachable();
    ReachNext(Overtaken(6, Missed), CallStrategy(0, true), Overtaken(7, Minted));
    var stored := Next(Overtaken(7, Minted), Set(0, None));
    ReachNext(Overtaken(7, Minted), Set(0, None), stored);
    assert 7 in stored.cache;
  }
}
