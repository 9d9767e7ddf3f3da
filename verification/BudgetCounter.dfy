// The stateful budget counter (internal/budget/counter.go), proved against the histories of Budget:
// what it decides depends on what was recorded, never on which expired windows were evicted.
module BudgetCounter {
  import opened Basics
  import opened Budget

  /** The position of a limit type in LIMIT_TYPES. */
  function Rank(t: LimitType): (i: nat)
    ensures i < |LIMIT_TYPES| && LIMIT_TYPES[i] == t
  {
    match t
    case SpendPerHour => 0
    case SpendPerDay => 1
    case EmailSendsPerHour => 2
    case SlackMessagesPerHour => 3
    case DnsMutationsPerDay => 4
    case AwsActionCount => 5
    case StripeRefundAmount => 6
    case DownloadBytes => 7
  }

  ghost predicate Lists(keys: seq<RelevantKey>, t: LimitType) {
    exists n :: 0 <= n < |keys| && keys[n].key.limitType == t
  }

  function KeyFor(p: Policy, who: Who, t: LimitType): (k: RelevantKey)
  {
    RelevantKey(BudgetKey(who, t), Limit(p, t), WindowOf(t))
  }

  /** Of the first i limit types: one key per configured limit, with its own limit and window, and no other. */
  ghost predicate Complete(p: Policy, who: Who, keys: seq<RelevantKey>, i: nat) {
    && (forall n :: 0 <= n < |keys| ==>
          var t := keys[n].key.limitType;
          Rank(t) < i && keys[n].limit > 0.0 && keys[n] == KeyFor(p, who, t))
    && (forall m, n :: 0 <= m < n < |keys| ==> keys[m].key != keys[n].key)
    && (forall t :: Rank(t) < i && Limit(p, t) > 0.0 ==> Lists(keys, t))
  }

  /** The keys to look at for an actor and capability. */
  ghost predicate Relevant(p: Policy, who: Who, keys: seq<RelevantKey>) {
    Complete(p, who, keys, |LIMIT_TYPES|)
  }

  lemma CompleteSnoc(p: Policy, who: Who, keys: seq<RelevantKey>, t: LimitType)
    requires Complete(p, who, keys, Rank(t)) && Limit(p, t) > 0.0
    ensures Complete(p, who, keys + [KeyFor(p, who, t)], Rank(t) + 1)
  {
    var next := keys + [KeyFor(p, who, t)];
    forall n | 0 <= n < |next|
      ensures Rank(next[n].key.limitType) < Rank(t) + 1 && next[n].limit > 0.0
      ensures next[n] == KeyFor(p, who, next[n].key.limitType)
    {
      assert next[n] == if n < |keys| then keys[n] else KeyFor(p, who, t);
    }
    forall m, n | 0 <= m < n < |next| ensures next[m].key != next[n].key {
      assert next[m] == keys[m];
      assert next[n] == if n < |keys| then keys[n] else KeyFor(p, who, t);
    }
    forall u | Rank(u) < Rank(t) + 1 && Limit(p, u) > 0.0 ensures Lists(next, u) {
      if Rank(u) == Rank(t) {
        assert next[|keys|].key.limitType == u;
      } else {
        var n :| 0 <= n < |keys| && keys[n].key.limitType == u;
        assert next[n] == keys[n];
      }
    }
  }

  lemma CompleteSkip(p: Policy, who: Who, keys: seq<RelevantKey>, t: LimitType)
    requires Complete(p, who, keys, Rank(t)) && !(Limit(p, t) > 0.0)
    ensures Complete(p, who, keys, Rank(t) + 1)
  {
  }

  /** relevantKeys. */
  method RelevantKeys(p: Policy, who: Who) returns (keys: seq<RelevantKey>)
    ensures Relevant(p, who, keys)
    // They are exactly the limits the policy sets.
    ensures forall n :: 0 <= n < |keys| ==> keys[n].key.who == who && Configured(p, keys[n].limit, keys[n].window)
    ensures forall limit, window :: Configured(p, limit, window) ==> HasLimit(keys, limit, window)
  {
    keys := [];
    for i := 0 to |LIMIT_TYPES|
      invariant Complete(p, who, keys, i)
    {
      var t := LIMIT_TYPES[i];
      assert Rank(t) == i;
      if Limit(p, t) > 0.0 {
        CompleteSnoc(p, who, keys, t);
        keys := keys + [KeyFor(p, who, t)];
      } else {
        CompleteSkip(p, who, keys, t);
      }
    }
    KeysAreConfigured(p, who, keys);
  }

  ghost predicate HasLimit(keys: seq<RelevantKey>, limit: real, window: int) {
    exists n :: 0 <= n < |keys| && keys[n].limit == limit && keys[n].window == window
  }

  lemma KeysAreConfigured(p: Policy, who: Who, keys: seq<RelevantKey>)
    requires Relevant(p, who, keys)
    ensures forall n :: 0 <= n < |keys| ==> keys[n].key.who == who && Configured(p, keys[n].limit, keys[n].window)
    ensures forall limit, window :: Configured(p, limit, window) ==> HasLimit(keys, limit, window)
  {
    forall n | 0 <= n < |keys| ensures keys[n].key.who == who && Configured(p, keys[n].limit, keys[n].window) {
      ConfiguredLimit(p, keys[n].key.limitType);
    }
    forall limit, window | Configured(p, limit, window) ensures HasLimit(keys, limit, window) {
      var t := LimitConfigured(p, limit, window);
      assert Lists(keys, t);
      var n :| 0 <= n < |keys| && keys[n].key.limitType == t;
      assert keys[n] == KeyFor(p, who, t);
    }
  }

  type Histories = map<Who, seq<Entry>>

  function HistoryOf(all: Histories, who: Who): (h: seq<Entry>)
  {
    if who in all then all[who] else []
  }

  function Appended(all: Histories, who: Who, e: Entry): (after: Histories)
  {
    all[who := HistoryOf(all, who) + [e]]
  }

  function WindowAt(windows: map<BudgetKey, Bucket>, k: BudgetKey): (b: Option<Bucket>)
  {
    if k in windows then Some(windows[k]) else None
  }

  function Tracked(p: Policy, h: seq<Entry>, t: LimitType): (b: Option<Bucket>)
  {
    Track(h, Limit(p, t), WindowOf(t))
  }

  /** The stored window is the tracked one, or that one has expired and was evicted. */
  ghost predicate Agrees(stored: Option<Bucket>, tracked: Option<Bucket>, clock: int) {
    stored == tracked || (stored.None? && Fresh(tracked, clock))
  }

  ghost predicate Consistent(p: Policy, windows: map<BudgetKey, Bucket>, all: Histories, clock: int) {
    forall k: BudgetKey :: Limit(p, k.limitType) > 0.0 ==>
      Agrees(WindowAt(windows, k), Tracked(p, HistoryOf(all, k.who), k.limitType), clock)
  }

  /** Every configured limit allows the amount, judging by what was recorded. */
  ghost predicate Allowed(p: Policy, h: seq<Entry>, now: int, amount: real) {
    forall t :: Limit(p, t) > 0.0 ==> Fits(Tracked(p, h, t), Limit(p, t), now, amount)
  }

  ghost predicate AllFit(windows: map<BudgetKey, Bucket>, keys: seq<RelevantKey>, now: int, amount: real) {
    forall n :: 0 <= n < |keys| ==> Fits(WindowAt(windows, keys[n].key), keys[n].limit, now, amount)
  }

  /** The stored windows decide as the histories do. */
  lemma DecisionFromHistory(
    p: Policy, windows: map<BudgetKey, Bucket>, all: Histories, clock: int,
    who: Who, keys: seq<RelevantKey>, now: int, amount: real)
    requires Consistent(p, windows, all, clock) && now >= clock && Relevant(p, who, keys)
    ensures AllFit(windows, keys, now, amount) <==> Allowed(p, HistoryOf(all, who), now, amount)
  {
  }

  /** The first n keys have been bumped; every other window is as it was. */
  ghost predicate Bumped(
    before: map<BudgetKey, Bucket>, after: map<BudgetKey, Bucket>,
    keys: seq<RelevantKey>, n: nat, now: int, amount: real)
    requires n <= |keys|
  {
    && (forall i :: 0 <= i < n ==>
          WindowAt(after, keys[i].key) ==
          Some(Bump(WindowAt(before, keys[i].key), keys[i].limit, keys[i].window, now, amount)))
    && (forall k :: (forall i :: 0 <= i < n ==> keys[i].key != k) ==> WindowAt(after, k) == WindowAt(before, k))
  }

  lemma TrackSnoc(p: Policy, h: seq<Entry>, e: Entry, t: LimitType)
    ensures Tracked(p, h + [e], t) == Some(Bump(Tracked(p, h, t), Limit(p, t), WindowOf(t), e.at, e.amount))
  {
  }

  lemma RecordConsistent(
    p: Policy, before: map<BudgetKey, Bucket>, after: map<BudgetKey, Bucket>, all: Histories, clock: int,
    who: Who, keys: seq<RelevantKey>, now: int, amount: real)
    requires Consistent(p, before, all, clock) && now >= clock && Relevant(p, who, keys)
    requires Bumped(before, after, keys, |keys|, now, amount)
    ensures Consistent(p, after, Appended(all, who, Entry(now, amount)), now)
  {
    var all' := Appended(all, who, Entry(now, amount));
    forall k: BudgetKey | Limit(p, k.limitType) > 0.0
      ensures Agrees(WindowAt(after, k), Tracked(p, HistoryOf(all', k.who), k.limitType), now)
    {
      assert Agrees(WindowAt(before, k), Tracked(p, HistoryOf(all, k.who), k.limitType), clock);
      if k.who == who {
        assert Lists(keys, k.limitType);
        var n :| 0 <= n < |keys| && keys[n].key.limitType == k.limitType;
        assert keys[n] == KeyFor(p, who, k.limitType);
        TrackSnoc(p, HistoryOf(all, who), Entry(now, amount), k.limitType);
      } else {
        assert forall i :: 0 <= i < |keys| ==> keys[i].key != k;
      }
    }
  }

  datatype Call =
    | CheckAndRecord(who: Who, amount: real, at: int)
    | Check(who: Who, amount: real, at: int)
    | Record(who: Who, amount: real, at: int)
    | EvictExpired(at: int)

  /** What a run has recorded, and its answer to each call; an eviction has none. */
  datatype Account = Account(all: Histories, answers: seq<Option<bool>>)

  /** One call, as it would be if windows were never evicted. */
  ghost function After(p: Policy, a: Account, c: Call): (b: Account)
  {
    match c
    case CheckAndRecord(who, amount, at) =>
      if Allowed(p, HistoryOf(a.all, who), at, amount)
      then Account(Appended(a.all, who, Entry(at, amount)), a.answers + [Some(true)])
      else a.(answers := a.answers + [Some(false)])
    case Check(who, amount, at) =>
      a.(answers := a.answers + [Some(Allowed(p, HistoryOf(a.all, who), at, amount))])
    case Record(who, amount, at) => Account(Appended(a.all, who, Entry(at, amount)), a.answers + [Some(true)])
    case EvictExpired(_) => a.(answers := a.answers + [None])
  }

  ghost function Simulate(p: Policy, calls: seq<Call>): (a: Account)
  {
    if calls == [] then Account(map[], [])
    else After(p, Simulate(p, calls[..|calls| - 1]), calls[|calls| - 1])
  }

  ghost predicate ClockOrder(calls: seq<Call>) {
    forall i, j :: 0 <= i < j < |calls| ==> calls[i].at <= calls[j].at
  }

  /** A checked recording of this actor and capability, made between the two times and answered without an error. */
  predicate AcceptedIn(c: Call, answer: Option<bool>, who: Who, from: int, to: int) {
    c.CheckAndRecord? && c.who == who && answer == Some(true) && from <= c.at <= to
  }

  /** The amounts accepted between the two times, by the answers given. */
  function AcceptedSum(calls: seq<Call>, answers: seq<Option<bool>>, who: Who, from: int, to: int): (sum: real)
    requires |answers| == |calls|
  {
    if calls == [] then 0.0
    else
      var n := |calls| - 1;
      AcceptedSum(calls[..n], answers[..n], who, from, to)
      + if AcceptedIn(calls[n], answers[n], who, from, to) then calls[n].amount else 0.0
  }

  // ---- what a run's answers mean, by the policy's own fields ----

  /** The call put its amount on record for this actor and capability. */
  predicate Recorded(c: Call, answer: Option<bool>, who: Who) {
    (c.Record? || (c.CheckAndRecord? && answer == Some(true))) && c.who == who
  }

  /** The call that opened the latest window: one on record when no window was open. */
  ghost function Opener(calls: seq<Call>, answers: seq<Option<bool>>, who: Who, window: int): (o: Option<nat>)
    requires |answers| == |calls|
    ensures o.Some? ==> o.value < |calls| && Recorded(calls[o.value], answers[o.value], who)
  {
    if calls == [] then None
    else
      var n := |calls| - 1;
      var o := Opener(calls[..n], answers[..n], who, window);
      if !Recorded(calls[n], answers[n], who) then o
      else if o.Some? && calls[n].at <= calls[o.value].at + window then o
      else Some(n)
  }

  /** The amounts put on record from call number `first` on. */
  ghost function RecordedSince(calls: seq<Call>, answers: seq<Option<bool>>, who: Who, first: nat): (sum: real)
    requires |answers| == |calls|
  {
    if |calls| <= first then 0.0
    else
      var n := |calls| - 1;
      RecordedSince(calls[..n], answers[..n], who, first)
      + if Recorded(calls[n], answers[n], who) then calls[n].amount else 0.0
  }

  /** After these calls a window is open at this time, and the amount would take what is on record in it past the limit. */
  ghost predicate Refuses(
    calls: seq<Call>, answers: seq<Option<bool>>, who: Who, amount: real, at: int, limit: real, window: int)
    requires |answers| == |calls|
  {
    var o := Opener(calls, answers, who, window);
    o.Some? && at <= calls[o.value].at + window && RecordedSince(calls, answers, who, o.value) + amount > limit
  }

  /** Some limit of the policy refuses the amount. */
  ghost predicate Refused(
    p: Policy, calls: seq<Call>, answers: seq<Option<bool>>, who: Who, amount: real, at: int)
    requires |answers| == |calls|
  {
    exists limit, window :: Configured(p, limit, window) && Refuses(calls, answers, who, amount, at, limit, window)
  }

  /** The answer to a call, by the calls before it and their answers. */
  ghost function Decision(p: Policy, calls: seq<Call>, answers: seq<Option<bool>>, c: Call): (answer: Option<bool>)
    requires |answers| == |calls|
  {
    match c
    case CheckAndRecord(who, amount, at) => Some(!Refused(p, calls, answers, who, amount, at))
    case Check(who, amount, at) => Some(!Refused(p, calls, answers, who, amount, at))
    case Record(_, _, _) => Some(true)
    case EvictExpired(_) => None
  }

  /** The window a history leaves behind is the one its opening call opened, with all that is on record since. */
  ghost predicate TracksCalls(
    b: Option<Bucket>, calls: seq<Call>, answers: seq<Option<bool>>, who: Who, limit: real, window: int)
    requires |answers| == |calls|
  {
    var o := Opener(calls, answers, who, window);
    && (b.Some? <==> o.Some?)
    && (o.Some? ==>
          b.value.total == RecordedSince(calls, answers, who, o.value) && b.value.windowEnd == calls[o.value].at + window)
  }

  lemma TracksNext(
    b: Option<Bucket>, calls: seq<Call>, answers: seq<Option<bool>>, who: Who, limit: real, window: int,
    c: Call, answer: Option<bool>)
    requires |answers| == |calls| && TracksCalls(b, calls, answers, who, limit, window)
    ensures TracksCalls(if Recorded(c, answer, who) then Some(Bump(b, limit, window, c.at, c.amount)) else b,
                        calls + [c], answers + [answer], who, limit, window)
  {
    assert (calls + [c])[..|calls|] == calls && (answers + [answer])[..|calls|] == answers;
    assert (calls + [c])[|calls|] == c && (answers + [answer])[|calls|] == answer;
  }

  /** What a call puts on record, and for whom. */
  lemma HistoryNext(p: Policy, a: Account, c: Call, who: Who)
    ensures |After(p, a, c).answers| == |a.answers| + 1 && After(p, a, c).answers[..|a.answers|] == a.answers
    ensures HistoryOf(After(p, a, c).all, who) ==
            if Recorded(c, After(p, a, c).answers[|a.answers|], who)
            then HistoryOf(a.all, who) + [Entry(c.at, c.amount)] else HistoryOf(a.all, who)
  {
  }

  lemma {:induction false} HistoryTracksCalls(p: Policy, calls: seq<Call>, who: Who, t: LimitType)
    ensures var a := Simulate(p, calls);
            && |a.answers| == |calls|
            && TracksCalls(Tracked(p, HistoryOf(a.all, who), t), calls, a.answers, who, Limit(p, t), WindowOf(t))
  {
    if calls != [] {
      var n := |calls| - 1;
      HistoryTracksCalls(p, calls[..n], who, t);
      var a := Simulate(p, calls[..n]);
      HistoryNext(p, a, calls[n], who);
      var answer := After(p, a, calls[n]).answers[n];
      if Recorded(calls[n], answer, who) {
        TrackSnoc(p, HistoryOf(a.all, who), Entry(calls[n].at, calls[n].amount), t);
      }
      TracksNext(Tracked(p, HistoryOf(a.all, who), t), calls[..n], a.answers, who, Limit(p, t), WindowOf(t),
                 calls[n], answer);
      assert calls[..n] + [calls[n]] == calls && a.answers + [answer] == Simulate(p, calls).answers;
    }
  }

  /** A limit refuses an amount by the calls made exactly when it does by the history. */
  lemma RefusesIff(p: Policy, calls: seq<Call>, who: Who, amount: real, at: int, t: LimitType)
    ensures |Simulate(p, calls).answers| == |calls|
    ensures Refuses(calls, Simulate(p, calls).answers, who, amount, at, Limit(p, t), WindowOf(t)) <==>
            !Fits(Tracked(p, HistoryOf(Simulate(p, calls).all, who), t), Limit(p, t), at, amount)
  {
    HistoryTracksCalls(p, calls, who, t);
  }

  lemma AllowedIffNotRefused(p: Policy, calls: seq<Call>, who: Who, amount: real, at: int)
    ensures |Simulate(p, calls).answers| == |calls|
    ensures Allowed(p, HistoryOf(Simulate(p, calls).all, who), at, amount) <==>
            !Refused(p, calls, Simulate(p, calls).answers, who, amount, at)
  {
    var a := Simulate(p, calls);
    OneAnswerPerCall(p, calls);
    if Refused(p, calls, a.answers, who, amount, at) {
      var limit, window :| Configured(p, limit, window) && Refuses(calls, a.answers, who, amount, at, limit, window);
      var t := LimitConfigured(p, limit, window);
      RefusesIff(p, calls, who, amount, at, t);
    }
    if !Allowed(p, HistoryOf(a.all, who), at, amount) {
      var t :| Limit(p, t) > 0.0 && !Fits(Tracked(p, HistoryOf(a.all, who), t), Limit(p, t), at, amount);
      ConfiguredLimit(p, t);
      RefusesIff(p, calls, who, amount, at, t);
    }
  }

  /** Each call of a run is answered as the calls before it, by the policy's own fields, demand. */
  lemma AnsweredByPolicy(p: Policy, calls: seq<Call>, c: Call)
    ensures |Simulate(p, calls).answers| == |calls|
    ensures After(p, Simulate(p, calls), c).answers ==
            Simulate(p, calls).answers + [Decision(p, calls, Simulate(p, calls).answers, c)]
  {
    OneAnswerPerCall(p, calls);
    if c.CheckAndRecord? || c.Check? {
      AllowedIffNotRefused(p, calls, c.who, c.amount, c.at);
    }
  }

  class Counter {
    const policy: Policy
    var windows: map<BudgetKey, Bucket>

    constructor (policy: Policy)
      ensures this.policy == policy && windows == map[]
      ensures Consistent(policy, windows, map[], 0)
    {
      this.policy, windows := policy, map[];
    }

    /** The check loop: a limit with a live window must hold the amount. */
    method CheckAll(keys: seq<RelevantKey>, amount: real, now: int) returns (ok: bool)
      ensures ok <==> AllFit(windows, keys, now, amount)
    {
      for i := 0 to |keys|
        invariant forall n :: 0 <= n < i ==> Fits(WindowAt(windows, keys[n].key), keys[n].limit, now, amount)
      {
        var b := WindowAt(windows, keys[i].key);
        if b.None? || b.value.IsExpired(now) {
          continue;
        }
        if b.value.total + amount > keys[i].limit {
          return false;
        }
      }
      return true;
    }

    /** recordLocked. */
    method RecordLocked(keys: seq<RelevantKey>, amount: real, now: int)
      requires forall m, n :: 0 <= m < n < |keys| ==> keys[m].key != keys[n].key
      modifies this
      ensures Bumped(old(windows), windows, keys, |keys|, now, amount)
    {
      for i := 0 to |keys|
        invariant Bumped(old(windows), windows, keys, i, now, amount)
      {
        var k := keys[i];
        var b := WindowAt(windows, k.key);
        var bucket :=
          if b.None? || b.value.IsExpired(now) then Bucket(0.0, now + k.window, k.window, k.limit) else b.value;
        windows := windows[k.key := bucket.(total := bucket.total + amount)];
      }
    }

    /** evictExpired: drops exactly the windows that have elapsed. */
    method EvictExpired(now: int)
      modifies this
      ensures forall k :: WindowAt(windows, k) ==
                if Fresh(WindowAt(old(windows), k), now) then None else WindowAt(old(windows), k)
    {
      var todo := windows.Keys;
      while todo != {}
        invariant forall k :: WindowAt(windows, k) ==
                    if k !in todo && Fresh(WindowAt(old(windows), k), now) then None else WindowAt(old(windows), k)
        decreases todo
      {
        var k :| k in todo;
        todo := todo - {k};
        if k in windows && windows[k].IsExpired(now) {
          windows := windows - {k};
        }
      }
    }

    /** One call, answered and recorded as if windows were never evicted. */
    method Perform(c: Call, ghost a: Account, ghost clock: int) returns (answer: Option<bool>)
      requires Consistent(policy, windows, a.all, clock) && c.at >= clock
      modifies this
      ensures Consistent(policy, windows, After(policy, a, c).all, c.at)
      ensures After(policy, a, c).answers == a.answers + [answer]
      ensures c.EvictExpired? ==>
                forall k :: WindowAt(windows, k) ==
                  if k in old(windows) && c.at <= old(windows)[k].windowEnd then Some(old(windows)[k]) else None
    {
      match c
      case CheckAndRecord(who, amount, now) =>
        var keys := RelevantKeys(policy, who);
        DecisionFromHistory(policy, windows, a.all, clock, who, keys, now, amount);
        var ok := CheckAll(keys, amount, now);
        if ok {
          RecordLocked(keys, amount, now);
          RecordConsistent(policy, old(windows), windows, a.all, clock, who, keys, now, amount);
        }
        return Some(ok);
      case Check(who, amount, now) =>
        var keys := RelevantKeys(policy, who);
        DecisionFromHistory(policy, windows, a.all, clock, who, keys, now, amount);
        var ok := CheckAll(keys, amount, now);
        return Some(ok);
      case Record(who, amount, now) =>
        var keys := RelevantKeys(policy, who);
        RecordLocked(keys, amount, now);
        RecordConsistent(policy, old(windows), windows, a.all, clock, who, keys, now, amount);
        return Some(true);
      case EvictExpired(now) =>
        EvictExpired(now);
        return None;
    }

    /**
     * A run from an empty counter, in clock order. A call is answered with an error exactly when a window that one of
     * the policy's limits opened is still open and the amount would take what is on record in it past that limit.
     * What is accepted of an actor and capability whose own amounts are checked and within a limit of the policy
     * comes to at most twice that limit in any closed interval of one window length.
     */
    method Run(calls: seq<Call>) returns (answers: seq<Option<bool>>)
      requires windows == map[] && ClockOrder(calls)
      modifies this
      ensures |answers| == |calls| && answers == Simulate(policy, calls).answers
      ensures forall i :: 0 <= i < |calls| ==> answers[i] == Decision(policy, calls[..i], answers[..i], calls[i])
      ensures forall who, limit, window, from ::
                Configured(policy, limit, window) && CheckedOnly(calls, who, limit) ==>
                  WithinBudget(calls, answers, who, from, limit, window)
    {
      answers := [];
      ghost var clock := if calls == [] then 0 else calls[0].at;
      for i := 0 to |calls|
        invariant Consistent(policy, windows, Simulate(policy, calls[..i]).all, clock)
        invariant i < |calls| ==> clock <= calls[i].at
        invariant |answers| == i && answers == Simulate(policy, calls[..i]).answers
        invariant forall k :: 0 <= k < i ==> answers[k] == Decision(policy, calls[..k], answers[..k], calls[k])
      {
        assert calls[..i + 1][..i] == calls[..i];
        var answer := Perform(calls[i], Simulate(policy, calls[..i]), clock);
        AnsweredByPolicy(policy, calls[..i], calls[i]);
        assert forall k :: 0 <= k <= i ==> (answers + [answer])[..k] == answers[..k];
        answers := answers + [answer];
        clock := calls[i].at;
      }
      assert calls[..|calls|] == calls;
      forall who, limit, window, from | Configured(policy, limit, window) && CheckedOnly(calls, who, limit)
        ensures WithinBudget(calls, answers, who, from, limit, window)
      {
        BudgetHolds(policy, calls, who, limit, window, from);
      }
    }
  }

  /** This actor and capability only recorded with a check, and amounts within the limit. */
  ghost predicate CheckedOnly(calls: seq<Call>, who: Who, limit: real) {
    forall i :: 0 <= i < |calls| ==>
      && !(calls[i].Record? && calls[i].who == who)
      && (calls[i].CheckAndRecord? && calls[i].who == who ==> 0.0 <= calls[i].amount <= limit)
  }

  /** What the answers accepted within one window length is at most twice the limit. */
  ghost predicate WithinBudget(
    calls: seq<Call>, answers: seq<Option<bool>>, who: Who, from: int, limit: real, window: int)
    requires |answers| == |calls|
  {
    AcceptedSum(calls, answers, who, from, from + window) <= 2.0 * limit
  }

  /** Checked records in clock order, up to a time, each within the limit. */
  ghost predicate Proper(h: seq<Entry>, limit: real, window: int, clock: int) {
    && Lawful(h, limit, window) && InOrder(h) && AmountsWithin(h, limit)
    && forall i :: 0 <= i < |h| ==> h[i].at <= clock
  }

  lemma ProperSnoc(h: seq<Entry>, e: Entry, limit: real, window: int, clock: int)
    requires Proper(h, limit, window, clock) && clock <= e.at && 0.0 <= e.amount <= limit
    requires Fits(Track(h, limit, window), limit, e.at, e.amount)
    ensures Proper(h + [e], limit, window, e.at)
  {
  }

  lemma ProperAfter(p: Policy, a: Account, c: Call, who: Who, t: LimitType, clock: int)
    requires Limit(p, t) > 0.0 && CheckedOnly([c], who, Limit(p, t)) && clock <= c.at
    requires Proper(HistoryOf(a.all, who), Limit(p, t), WindowOf(t), clock)
    ensures Proper(HistoryOf(After(p, a, c).all, who), Limit(p, t), WindowOf(t), c.at)
  {
    assert [c][0] == c;
    if c.CheckAndRecord? && c.who == who && Allowed(p, HistoryOf(a.all, who), c.at, c.amount) {
      assert Fits(Tracked(p, HistoryOf(a.all, who), t), Limit(p, t), c.at, c.amount);
      ProperSnoc(HistoryOf(a.all, who), Entry(c.at, c.amount), Limit(p, t), WindowOf(t), clock);
    }
  }

  /** What such a run leaves on record for an actor and capability. */
  lemma {:induction false} RecordedProperly(p: Policy, calls: seq<Call>, who: Who, t: LimitType, clock: int)
    requires Limit(p, t) > 0.0 && ClockOrder(calls) && CheckedOnly(calls, who, Limit(p, t))
    requires forall i :: 0 <= i < |calls| ==> calls[i].at <= clock
    ensures Proper(HistoryOf(Simulate(p, calls).all, who), Limit(p, t), WindowOf(t), clock)
  {
    if calls != [] {
      var n := |calls| - 1;
      RecordedProperly(p, calls[..n], who, t, calls[n].at);
      ProperAfter(p, Simulate(p, calls[..n]), calls[n], who, t, calls[n].at);
    }
  }

  lemma SumSnoc(h: seq<Entry>, e: Entry, from: int, to: int)
    ensures SumIn(h + [e], from, to) == SumIn(h, from, to) + if from <= e.at <= to then e.amount else 0.0
  {
    assert (h + [e])[..|h|] == h;
  }

  lemma {:induction false} OneAnswerPerCall(p: Policy, calls: seq<Call>)
    ensures |Simulate(p, calls).answers| == |calls|
  {
    if calls != [] {
      OneAnswerPerCall(p, calls[..|calls| - 1]);
    }
  }

  /** What is on record for an actor and capability is what the answers accepted. */
  lemma {:induction false} RecordedIsAccepted(p: Policy, calls: seq<Call>, who: Who, from: int, to: int)
    requires forall i :: 0 <= i < |calls| ==> !(calls[i].Record? && calls[i].who == who)
    ensures |Simulate(p, calls).answers| == |calls|
    ensures SumIn(HistoryOf(Simulate(p, calls).all, who), from, to) ==
            AcceptedSum(calls, Simulate(p, calls).answers, who, from, to)
  {
    OneAnswerPerCall(p, calls);
    if calls != [] {
      var n := |calls| - 1;
      OneAnswerPerCall(p, calls[..n]);
      RecordedIsAccepted(p, calls[..n], who, from, to);
      var a := Simulate(p, calls[..n]);
      HistoryNext(p, a, calls[n], who);
      if calls[n].CheckAndRecord? {
        SumSnoc(HistoryOf(a.all, who), Entry(calls[n].at, calls[n].amount), from, to);
      }
    }
  }

  /**
   * Over every run, what is accepted of an actor and capability whose own amounts are checked and within a
   * configured limit is at most twice that limit in any closed interval of one window length.
   */
  lemma BudgetHolds(p: Policy, calls: seq<Call>, who: Who, limit: real, window: int, from: int)
    requires ClockOrder(calls) && Configured(p, limit, window) && CheckedOnly(calls, who, limit)
    ensures |Simulate(p, calls).answers| == |calls|
    ensures WithinBudget(calls, Simulate(p, calls).answers, who, from, limit, window)
  {
    var t := LimitConfigured(p, limit, window);
    RecordedProperly(p, calls, who, t, if calls == [] then 0 else calls[|calls| - 1].at);
    TwiceTheLimit(HistoryOf(Simulate(p, calls).all, who), limit, window, from);
    RecordedIsAccepted(p, calls, who, from, from + window);
  }

  function WithoutEvictions(calls: seq<Call>): (rest: seq<Call>)
  {
    if calls == [] then []
    else
      var n := |calls| - 1;
      if calls[n].EvictExpired? then WithoutEvictions(calls[..n]) else WithoutEvictions(calls[..n]) + [calls[n]]
  }

  /** The answers given, in order. */
  function Given(answers: seq<Option<bool>>): (given: seq<bool>)
  {
    if answers == [] then []
    else
      var n := |answers| - 1;
      Given(answers[..n]) + if answers[n].Some? then [answers[n].value] else []
  }

  lemma GivenSnoc(answers: seq<Option<bool>>, answer: Option<bool>)
    ensures Given(answers + [answer]) == Given(answers) + if answer.Some? then [answer.value] else []
  {
    assert (answers + [answer])[..|answers|] == answers;
  }

  /** Same histories and same answers given. */
  ghost predicate Alike(a: Account, b: Account) {
    a.all == b.all && Given(a.answers) == Given(b.answers)
  }

  /** A call keeps two accounts alike, and an eviction changes neither. */
  lemma AlikeAfter(p: Policy, a: Account, b: Account, c: Call)
    requires Alike(a, b)
    ensures Alike(After(p, a, c), After(p, b, c))
    ensures c.EvictExpired? ==> Alike(After(p, a, c), b)
  {
    GivenSnoc(a.answers, After(p, a, c).answers[|a.answers|]);
    GivenSnoc(b.answers, After(p, b, c).answers[|b.answers|]);
  }

  lemma {:induction false} EvictionUnseen(p: Policy, calls: seq<Call>)
    ensures Alike(Simulate(p, calls), Simulate(p, WithoutEvictions(calls)))
  {
    if calls != [] {
      var n := |calls| - 1;
      EvictionUnseen(p, calls[..n]);
      var rest := WithoutEvictions(calls[..n]);
      AlikeAfter(p, Simulate(p, calls[..n]), Simulate(p, rest), calls[n]);
      assert (rest + [calls[n]])[..|rest|] == rest;
    }
  }

  /** Two counters that get the same calls, with evictions at whatever times in between, give the same answers. */
  method EvictionChangesNothing(p: Policy, calls: seq<Call>, others: seq<Call>)
    returns (answers: seq<Option<bool>>, otherAnswers: seq<Option<bool>>)
    requires ClockOrder(calls) && ClockOrder(others) && WithoutEvictions(calls) == WithoutEvictions(others)
    ensures Given(answers) == Given(otherAnswers)
    ensures answers == Simulate(p, calls).answers && otherAnswers == Simulate(p, others).answers
  {
    var counter := new Counter(p);
    answers := counter.Run(calls);
    var other := new Counter(p);
    otherAnswers := other.Run(others);
    EvictionUnseen(p, calls);
    EvictionUnseen(p, others);
  }
}
