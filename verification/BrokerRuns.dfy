// Whole runs of the broker with a caller that keeps, and may zero, the results it is handed.
module BrokerRuns {
  import opened Basics
  import opened CacheKeys
  import opened TokenCache
  import opened Broker
  import opened Revocation

  datatype Call =
    | Exchange(fields: Fields, times: Readings)
    | ZeroResult(index: nat)
    | RevokeSession(session: string)
    | RevokeToken(tokenId: string, at: int)
    | RevokeActor(actor: string, at: int)
    | EvictExpired(at: int)
    | Lock
    | Unlock

  /** Whether the vault is locked after a call. */
  function LockedBy(locked: bool, call: Call): (after: bool)
  {
    match call
    case Lock => true
    case Unlock => false
    case _ => locked
  }

  function LockedAfter(locked: bool, calls: seq<Call>): (after: bool)
  {
    if calls == [] then locked else LockedBy(LockedAfter(locked, calls[..|calls| - 1]), calls[|calls| - 1])
  }

  /** The calls that hand nothing out: they only shrink the cache, and record no delivery. */
  method Perform(b: BrokerImpl, call: Call)
    requires b.Valid() && CanIdentify(b.hasher) && !call.Exchange? && !call.ZeroResult?
    modifies b`audit, b`faults, b`locked, b.cache`entries, b.cache`fired, b.cache.Tokens()
    ensures b.Valid() && b.cache.Tokens() <= old(b.cache.Tokens())
    ensures AllZero(old(b.cache.Tokens()) - b.cache.Tokens())
    ensures Deliveries(b.audit) == Deliveries(old(b.audit))
    ensures b.locked == LockedBy(old(b.locked), call) && b.faults >= old(b.faults)
  {
    match call
    case RevokeSession(session) => b.Revoke(session);
    case RevokeToken(id, at) => var r, victim := RevokeByTokenID(b, id, at);
    case RevokeActor(actor, at) => var count, targets, removed := RevokeAll(b, actor, at);
    case EvictExpired(at) => b.EvictionTick(at);
    case Lock => b.OnVaultLock();
    case Unlock => b.OnVaultUnlock();
  }

  /** A request made of the broker, and when. */
  datatype Request = Request(fields: Fields, at: Readings)

  /**
   * No request is served while the vault is locked. Unlocked, with an emitter and a strategy for the provider, only a
   * failure keeps one from being served.
   */
  ghost predicate Answerable(b: BrokerImpl, f: Fields, r: Result<ExchangeResult, BrokerError>, faultsBefore: nat)
    reads b`locked, b`faults
  {
    && b.faults >= faultsBefore && (b.locked ==> r.Err?)
    && (!b.locked && b.hasEmitter && f.provider in b.strategies && b.faults == faultsBefore ==> r.Ok?)
  }

  /** The one call that hands something out: at most one delivery, and a token of the broker's own making. */
  method Serve(b: BrokerImpl, q: Request) returns (r: Result<ExchangeResult, BrokerError>, ghost stored: Option<Stored>)
    requires b.Valid()
    modifies b`audit, b`ideal, b`strategyCalls, b`faults, b.cache, b.cache.Tokens()
    ensures Answerable(b, q.fields, r, old(b.faults))
    ensures b.Valid() && AllZero(old(b.cache.Tokens()) - b.cache.Tokens())
    ensures forall t :: t in b.cache.Tokens() ==> t in old(b.cache.Tokens()) || fresh(t)
    ensures b.ideal == Remember(old(b.ideal), CacheKey(q.fields), stored)
    ensures r.Ok? ==>
              && fresh(r.value.token) && r.value.token !in b.cache.Tokens()
              && r.value.provider == q.fields.provider && r.value.capability == q.fields.capability
              && Deliveries(b.audit) ==
                   Deliveries(old(b.audit)) + [DeliveryEvent(b.hasher, q.fields, r.value.exchangeType)]
              && Justified(r.value.exchangeType, r.value.token[..], r.value.ttlRemaining,
                           old(b.ideal), CacheKey(q.fields), stored, q.at)
    ensures r.Err? ==> Deliveries(b.audit) == Deliveries(old(b.audit))
  {
    ghost var withheld, gone;
    r, withheld, stored, gone := b.Exchange(q.fields, q.at);
    if r.Ok? {
      DeliveriesSnoc(old(b.audit), DeliveryEvent(b.hasher, q.fields, r.value.exchangeType));
    }
  }

  /** Something stored in the cache under a key. */
  datatype Storing = Storing(key: string, stored: Stored)

  /** The bytes a result showed when it was handed out, after so many storings. */
  datatype Given = Given(bytes: Bytes, since: nat)

  /** What is last stored under each key. */
  ghost function Replay(init: map<string, Stored>, stores: seq<Storing>): (ideal: map<string, Stored>)
  {
    if stores == [] then init
    else Replay(init, stores[..|stores| - 1])[stores[|stores| - 1].key := stores[|stores| - 1].stored]
  }

  lemma ReplaySnoc(init: map<string, Stored>, stores: seq<Storing>, key: string, stored: Stored)
    ensures Replay(init, stores + [Storing(key, stored)]) == Replay(init, stores)[key := stored]
  {
    assert (stores + [Storing(key, stored)])[..|stores|] == stores;
  }

  /** A hit showed what was last stored for its fields when it was made, in time; a fresh result what it then stored. */
  ghost predicate Sourced(
    init: map<string, Stored>, stores: seq<Storing>, kind: ExchangeType, ttl: int, q: Request, g: Given)
  {
    var key := CacheKey(q.fields);
    && g.since <= |stores|
    && match kind
       case CacheHit => Justified(kind, g.bytes, ttl, Replay(init, stores[..g.since]), key, None, q.at)
       case FreshExchange =>
         && g.since < |stores| && stores[g.since].key == key
         && Justified(kind, g.bytes, ttl, init, key, Some(stores[g.since].stored), q.at)
  }

  ghost predicate AllSourced(
    init: map<string, Stored>, stores: seq<Storing>, held: seq<ExchangeResult>, asked: seq<Request>, given: seq<Given>)
  {
    && |held| == |asked| == |given|
    && forall i :: 0 <= i < |held| ==>
         Sourced(init, stores, held[i].exchangeType, held[i].ttlRemaining, asked[i], given[i])
  }

  /** Later storings do not change where an earlier result came from. */
  lemma SourcedLater(
    init: map<string, Stored>, stores: seq<Storing>, more: seq<Storing>,
    held: seq<ExchangeResult>, asked: seq<Request>, given: seq<Given>)
    requires AllSourced(init, stores, held, asked, given)
    ensures AllSourced(init, stores + more, held, asked, given)
  {
    forall i | 0 <= i < |held|
      ensures Sourced(init, stores + more, held[i].exchangeType, held[i].ttlRemaining, asked[i], given[i])
    {
      assert Sourced(init, stores, held[i].exchangeType, held[i].ttlRemaining, asked[i], given[i]);
      assert (stores + more)[..given[i].since] == stores[..given[i].since];
    }
  }

  lemma AllSourcedSnoc(
    init: map<string, Stored>, stores: seq<Storing>, held: seq<ExchangeResult>, asked: seq<Request>, given: seq<Given>,
    r: ExchangeResult, q: Request, g: Given)
    requires AllSourced(init, stores, held, asked, given)
    requires Sourced(init, stores, r.exchangeType, r.ttlRemaining, q, g)
    ensures AllSourced(init, stores, held + [r], asked + [q], given + [g])
  {
  }

  /** The event owed for each result is that of its own request, and so are its provider and capability. */
  ghost predicate Accounted(h: Hasher, held: seq<ExchangeResult>, asked: seq<Request>, owed: seq<AuditEvent>) {
    && |held| == |asked| == |owed|
    && forall i :: 0 <= i < |held| ==>
         && owed[i] == DeliveryEvent(h, asked[i].fields, held[i].exchangeType)
         && asked[i].fields.provider == held[i].provider && asked[i].fields.capability == held[i].capability
  }

  lemma AccountedSnoc(
    h: Hasher, held: seq<ExchangeResult>, asked: seq<Request>, owed: seq<AuditEvent>, r: ExchangeResult, q: Request)
    requires Accounted(h, held, asked, owed)
    requires q.fields.provider == r.provider && q.fields.capability == r.capability
    ensures Accounted(h, held + [r], asked + [q], owed + [DeliveryEvent(h, q.fields, r.exchangeType)])
  {
  }

  /** The requests of those Exchange calls that were served, in order. */
  ghost function Requests(calls: seq<Call>, served: seq<bool>): (requests: seq<Request>)
    requires |served| == |calls|
  {
    if calls == [] then []
    else
      var n := |calls| - 1;
      Requests(calls[..n], served[..n]) + RequestOf(calls[n], served[n])
  }

  ghost function RequestOf(call: Call, served: bool): (requests: seq<Request>)
  {
    if call.Exchange? && served then [Request(call.fields, call.times)] else []
  }

  lemma RequestsNext(calls: seq<Call>, n: nat, served: seq<bool>, hit: bool, before: seq<Request>)
    requires n < |calls| && |served| == n
    ensures before + Requests(calls[..n + 1], served + [hit]) ==
            before + Requests(calls[..n], served) + RequestOf(calls[n], hit)
  {
    assert calls[..n + 1][..n] == calls[..n] && (served + [hit])[..n] == served;
  }

  /** Nothing but a failure can keep this call from being served. */
  predicate MustServe(strategies: set<string>, hasEmitter: bool, call: Call, locked: bool) {
    call.Exchange? && !locked && hasEmitter && call.fields.provider in strategies
  }

  /** Only Exchange calls on an unlocked vault are served and, if nothing fails, all that must be. */
  ghost predicate ServedAsDue(
    strategies: set<string>, hasEmitter: bool, smooth: bool, locked: bool, calls: seq<Call>, served: seq<bool>)
  {
    && |served| == |calls|
    && forall i :: 0 <= i < |calls| ==>
         var lockedThen := LockedAfter(locked, calls[..i]);
         && (served[i] ==> calls[i].Exchange? && !lockedThen)
         && (smooth && MustServe(strategies, hasEmitter, calls[i], lockedThen) ==> served[i])
  }

  lemma ServedNext(
    strategies: set<string>, hasEmitter: bool, smooth: bool, locked: bool, calls: seq<Call>, n: nat,
    served: seq<bool>, hit: bool, stillSmooth: bool)
    requires n < |calls| && ServedAsDue(strategies, hasEmitter, smooth, locked, calls[..n], served)
    requires stillSmooth ==> smooth
    requires hit ==> calls[n].Exchange? && !LockedAfter(locked, calls[..n])
    requires stillSmooth && MustServe(strategies, hasEmitter, calls[n], LockedAfter(locked, calls[..n])) ==> hit
    ensures ServedAsDue(strategies, hasEmitter, stillSmooth, locked, calls[..n + 1], served + [hit])
    ensures LockedAfter(locked, calls[..n + 1]) == LockedBy(LockedAfter(locked, calls[..n]), calls[n])
  {
    var sofar, answers := calls[..n + 1], served + [hit];
    assert sofar[..n] == calls[..n];
    forall i | 0 <= i < |sofar|
      ensures var lockedThen := LockedAfter(locked, sofar[..i]);
              && (answers[i] ==> sofar[i].Exchange? && !lockedThen)
              && (stillSmooth && MustServe(strategies, hasEmitter, sofar[i], lockedThen) ==> answers[i])
    {
      assert sofar[..i] == calls[..n][..i];
      if i < n {
        assert sofar[i] == calls[..n][i] && answers[i] == served[i];
      }
    }
  }

  ghost function CallSet(calls: seq<Call>): (s: set<Call>)
  {
    set call | call in calls
  }

  /** What the caller has on its books: its results, what they show and showed at first, events owed and storings. */
  datatype Books = Books(
    held: seq<ExchangeResult>, shown: seq<Bytes>, given: seq<Given>, owed: seq<AuditEvent>, stores: seq<Storing>)

  /** Results that none of these calls zeroes show what they did, or if new what they were handed out with. */
  ghost predicate Untouched(calls: set<Call>, before: seq<Bytes>, after: seq<Bytes>, given: seq<Given>) {
    && |before| <= |after| == |given|
    && forall i :: 0 <= i < |after| && ZeroResult(i) !in calls ==>
         after[i] == if i < |before| then before[i] else given[i].bytes
  }

  ghost predicate Zeroes(bytes: Bytes) {
    forall j :: 0 <= j < |bytes| ==> bytes[j] == 0
  }

  /** Each result shows what it did, or if new what it was handed out with, or it is zeroed. */
  ghost predicate WholeOrZeroed(before: seq<Bytes>, after: seq<Bytes>, given: seq<Given>) {
    && |before| <= |after| == |given|
    && forall i :: 0 <= i < |after| ==>
         after[i] == (if i < |before| then before[i] else given[i].bytes) || Zeroes(after[i])
  }

  /** How many results are held before call n, if `first` were at the start. */
  ghost function HeldBefore(first: nat, calls: seq<Call>, served: seq<bool>, n: nat): (count: nat)
    requires n <= |calls| && n <= |served|
  {
    first + |Requests(calls[..n], served[..n])|
  }

  /** Each of these calls that zeroes a result held by then has zeroed it. */
  ghost predicate AllZeroed(first: nat, calls: seq<Call>, served: seq<bool>, shown: seq<Bytes>)
    requires |calls| == |served|
  {
    forall n :: 0 <= n < |calls| && calls[n].ZeroResult? && calls[n].index < HeldBefore(first, calls, served, n) ==>
                  calls[n].index < |shown| && Zeroes(shown[calls[n].index])
  }

  lemma AllZeroedNext(
    first: nat, calls: seq<Call>, n: nat, served: seq<bool>, hit: bool, before: seq<Bytes>, after: seq<Bytes>,
    given: seq<Given>)
    requires n < |calls| && |served| == n && AllZeroed(first, calls[..n], served, before)
    requires WholeOrZeroed(before, after, given)
    requires calls[n].ZeroResult? && calls[n].index < HeldBefore(first, calls, served, n) ==>
               calls[n].index < |after| && Zeroes(after[calls[n].index])
    ensures AllZeroed(first, calls[..n + 1], served + [hit], after)
  {
    var sofar, answers := calls[..n + 1], served + [hit];
    forall m | 0 <= m <= n && sofar[m].ZeroResult? && sofar[m].index < HeldBefore(first, sofar, answers, m)
      ensures sofar[m].index < |after| && Zeroes(after[sofar[m].index])
    {
      assert sofar[..m] == calls[..m] && answers[..m] == served[..m];
      if m < n {
        assert calls[..n][m] == sofar[m] && calls[..n][..m] == calls[..m];
      } else {
        assert served[..m] == served;
      }
    }
  }

  /** What some calls may do to the books: they are only added to, but for results that are zeroed. */
  ghost predicate Kept(calls: set<Call>, before: Books, after: Books) {
    && before.held <= after.held && before.given <= after.given
    && before.owed <= after.owed && before.stores <= after.stores
    && Untouched(calls, before.shown, after.shown, after.given)
    && WholeOrZeroed(before.shown, after.shown, after.given)
  }

  lemma KeptMore(calls: set<Call>, before: Books, after: Books)
    requires Kept({}, before, after)
    ensures Kept(calls, before, after)
  {
  }

  lemma KeptTrans(calls: seq<Call>, n: nat, first: Books, second: Books, third: Books)
    requires n < |calls| && Kept(CallSet(calls), first, second) && Kept({calls[n]}, second, third)
    ensures Kept(CallSet(calls), first, third)
  {
  }

  /** The broker as a run finds it. */
  datatype Setting = Setting(strategies: set<string>, hasEmitter: bool, locked: bool)

  /** What the first n calls have come to. */
  ghost predicate Accomplished(
    w: Setting, smooth: bool, calls: seq<Call>, n: nat, served: seq<bool>,
    askedBefore: seq<Request>, asked: seq<Request>, before: Books, after: Books)
  {
    && n <= |calls| && |served| == n && asked == askedBefore + Requests(calls[..n], served)
    && ServedAsDue(w.strategies, w.hasEmitter, smooth, w.locked, calls[..n], served)
    && Kept(CallSet(calls), before, after) && AllZeroed(|before.held|, calls[..n], served, after.shown)
  }

  lemma AccomplishedNext(
    w: Setting, smooth: bool, calls: seq<Call>, n: nat, served: seq<bool>,
    askedBefore: seq<Request>, asked: seq<Request>, before: Books, between: Books,
    hit: bool, stillSmooth: bool, after: Books)
    requires n < |calls| && Accomplished(w, smooth, calls, n, served, askedBefore, asked, before, between)
    requires Kept({calls[n]}, between, after) && (stillSmooth ==> smooth)
    requires var lockedThen := LockedAfter(w.locked, calls[..n]);
             && (hit ==> calls[n].Exchange? && !lockedThen)
             && (stillSmooth && MustServe(w.strategies, w.hasEmitter, calls[n], lockedThen) ==> hit)
    requires calls[n].ZeroResult? && calls[n].index < HeldBefore(|before.held|, calls, served, n) ==>
               calls[n].index < |after.shown| && Zeroes(after.shown[calls[n].index])
    ensures Accomplished(w, stillSmooth, calls, n + 1, served + [hit],
                         askedBefore, asked + RequestOf(calls[n], hit), before, after)
    ensures LockedAfter(w.locked, calls[..n + 1]) == LockedBy(LockedAfter(w.locked, calls[..n]), calls[n])
  {
    ServedNext(w.strategies, w.hasEmitter, smooth, w.locked, calls, n, served, hit, stillSmooth);
    KeptTrans(calls, n, before, between, after);
    RequestsNext(calls, n, served, hit, askedBefore);
    AllZeroedNext(|before.held|, calls, n, served, hit, between.shown, after.shown, after.given);
  }

  class Client {
    const broker: BrokerImpl
    /** Every result handed out, in order. */
    var held: seq<ExchangeResult>
    /** The bytes each held result must show. */
    ghost var expected: seq<Bytes>
    /** The audit event each held result was handed out with. */
    ghost var owed: seq<AuditEvent>
    /** The request each held result answers, and what it showed when handed out. */
    ghost var asked: seq<Request>
    ghost var given: seq<Given>
    /** What was stored at first, and every storing since. */
    ghost const init: map<string, Stored>
    ghost var stores: seq<Storing>
    /** Every array that was ever in the cache. */
    ghost var everCached: set<array<byte>>
    /** Which result an array belongs to. */
    ghost var slot: map<array<byte>, nat>

    ghost function HeldTokens(): (tokens: set<array<byte>>)
      reads this`held
    {
      set i | 0 <= i < |held| :: held[i].token
    }

    ghost function Ledger(): (books: Books)
      reads this`held, this`expected, this`given, this`owed, this`stores
    {
      Books(held, expected, given, owed, stores)
    }

    /** No held array was ever cached or is held twice, and each shows the bytes it should. */
    ghost predicate Holdings()
      reads this`held, this`expected, this`slot, this`everCached, HeldTokens()
    {
      && |held| == |expected|
      && forall i :: 0 <= i < |held| ==>
           && held[i].token !in everCached
           && held[i].token in slot && slot[held[i].token] == i
           && held[i].token[..] == expected[i]
    }

    /** Every array that has left the cache is zero. */
    ghost predicate Wiped()
      reads this`everCached, broker.cache, everCached
    {
      broker.cache.Tokens() <= everCached && AllZero(everCached - broker.cache.Tokens())
    }

    /** What is stored is what the storings leave, and every result came from one of them. */
    ghost predicate Traced()
      reads this`held, this`asked, this`given, this`stores, broker`ideal
    {
      broker.ideal == Replay(init, stores) && AllSourced(init, stores, held, asked, given)
    }

    /** And the deliveries on record are those of the held results, one for one. */
    ghost predicate Valid()
      reads this, broker, broker.cache, broker.cache.Tokens(), HeldTokens(), everCached
    {
      && broker.Valid() && CanIdentify(broker.hasher)
      && Holdings() && Wiped() && Traced()
      && Accounted(broker.hasher, held, asked, owed) && Deliveries(broker.audit) == owed
    }

    constructor (broker: BrokerImpl)
      requires broker.Valid() && CanIdentify(broker.hasher) && Deliveries(broker.audit) == []
      ensures Valid() && this.broker == broker && held == [] && everCached == broker.cache.Tokens()
    {
      this.broker := broker;
      held, expected, owed, asked, given, slot := [], [], [], [], [], map[];
      init, stores := broker.ideal, [];
      everCached := broker.cache.Tokens();
    }

    /** Takes hold of a new result's bytes. */
    method Hold(r: ExchangeResult)
      requires Holdings() && r.token !in everCached && r.token !in HeldTokens()
      modifies this`held, this`expected, this`slot
      ensures Holdings()
      ensures held == old(held) + [r] && expected == old(expected) + [r.token[..]]
    {
      forall i | 0 <= i < |held| ensures held[i].token != r.token {
        assert held[i].token in HeldTokens();
      }
      slot := slot[r.token := |held|];
      held, expected := held + [r], expected + [r.token[..]];
    }

    /** Books the request of a new result, what it shows and the event owed for it. */
    ghost method Book(r: ExchangeResult, q: Request, g: Given)
      requires AllSourced(init, stores, held, asked, given) && Accounted(broker.hasher, held, asked, owed)
      requires q.fields.provider == r.provider && q.fields.capability == r.capability
      requires Sourced(init, stores, r.exchangeType, r.ttlRemaining, q, g)
      modifies this`asked, this`given, this`owed
      ensures asked == old(asked) + [q] && given == old(given) + [g]
      ensures owed == old(owed) + [DeliveryEvent(broker.hasher, q.fields, r.exchangeType)]
      ensures AllSourced(init, stores, held + [r], asked, given) && Accounted(broker.hasher, held + [r], asked, owed)
    {
      AccountedSnoc(broker.hasher, held, asked, owed, r, q);
      AllSourcedSnoc(init, stores, held, asked, given, r, q, g);
      asked, given := asked + [q], given + [g];
      owed := owed + [DeliveryEvent(broker.hasher, q.fields, r.exchangeType)];
    }

    /** Takes hold of a new result, whose event is the latest delivery on record. */
    method Keep(r: ExchangeResult, ghost q: Request, ghost since: nat)
      requires broker.Valid() && CanIdentify(broker.hasher) && Holdings() && Wiped() && Traced()
      requires Accounted(broker.hasher, held, asked, owed)
      requires Deliveries(broker.audit) == owed + [DeliveryEvent(broker.hasher, q.fields, r.exchangeType)]
      requires r.token !in everCached && r.token !in HeldTokens()
      requires q.fields.provider == r.provider && q.fields.capability == r.capability
      requires Sourced(init, stores, r.exchangeType, r.ttlRemaining, q, Given(r.token[..], since))
      modifies this`held, this`expected, this`slot, this`asked, this`given, this`owed
      ensures Valid()
      ensures held == old(held) + [r] && expected == old(expected) + [r.token[..]]
      ensures asked == old(asked) + [q] && given == old(given) + [Given(r.token[..], since)]
      ensures owed == old(owed) + [DeliveryEvent(broker.hasher, q.fields, r.exchangeType)]
    {
      Book(r, q, Given(r.token[..], since));
      Hold(r);
    }

    /** Enters what an exchange stored; its result came from that, or from what was stored before. */
    ghost method Enter(
      q: Request, r: Result<ExchangeResult, BrokerError>, stored: Option<Stored>, before: map<string, Stored>)
      requires before == Replay(init, stores) && AllSourced(init, stores, held, asked, given)
      requires broker.ideal == Remember(before, CacheKey(q.fields), stored)
      requires r.Ok? ==> Justified(r.value.exchangeType, r.value.token[..], r.value.ttlRemaining,
                                   before, CacheKey(q.fields), stored, q.at)
      modifies this`stores
      ensures Traced() && old(stores) <= stores
      ensures r.Ok? ==> Sourced(init, stores, r.value.exchangeType, r.value.ttlRemaining, q,
                                Given(r.value.token[..], |old(stores)|))
    {
      assert stores[..|stores|] == stores;
      if stored.Some? {
        ReplaySnoc(init, stores, CacheKey(q.fields), stored.value);
        SourcedLater(init, stores, [Storing(CacheKey(q.fields), stored.value)], held, asked, given);
        stores := stores + [Storing(CacheKey(q.fields), stored.value)];
      }
    }

    /** The call itself, before what it stored is entered. */
    method CallBroker(q: Request) returns (r: Result<ExchangeResult, BrokerError>, ghost stored: Option<Stored>)
      requires Valid()
      modifies this`everCached, broker`audit, broker`ideal, broker`strategyCalls, broker`faults
      modifies broker.cache, broker.cache.Tokens()
      ensures Answerable(broker, q.fields, r, old(broker.faults))
      ensures broker.Valid() && Holdings() && Wiped() && everCached == old(everCached) + broker.cache.Tokens()
      ensures forall t :: t in broker.cache.Tokens() ==> t in old(broker.cache.Tokens()) || fresh(t)
      ensures broker.ideal == Remember(old(broker.ideal), CacheKey(q.fields), stored)
      ensures r.Ok? ==>
                && fresh(r.value.token) && r.value.token !in everCached
                && r.value.provider == q.fields.provider && r.value.capability == q.fields.capability
                && Deliveries(broker.audit) == owed + [DeliveryEvent(broker.hasher, q.fields, r.value.exchangeType)]
                && Justified(r.value.exchangeType, r.value.token[..], r.value.ttlRemaining,
                             old(broker.ideal), CacheKey(q.fields), stored, q.at)
      ensures r.Err? ==> Deliveries(broker.audit) == owed
    {
      r, stored := Serve(broker, q);
      everCached := everCached + broker.cache.Tokens();
    }

    /** And with it entered, before the result is taken hold of. */
    method Ask(q: Request) returns (r: Result<ExchangeResult, BrokerError>, ghost since: nat)
      requires Valid()
      modifies this`everCached, this`stores, broker`audit, broker`ideal, broker`strategyCalls, broker`faults
      modifies broker.cache, broker.cache.Tokens()
      ensures Answerable(broker, q.fields, r, old(broker.faults))
      ensures broker.Valid() && Holdings() && Wiped() && everCached == old(everCached) + broker.cache.Tokens()
      ensures Traced() && old(stores) <= stores
      ensures forall t :: t in broker.cache.Tokens() ==> t in old(broker.cache.Tokens()) || fresh(t)
      ensures r.Ok? ==>
                && fresh(r.value.token) && r.value.token !in everCached
                && r.value.provider == q.fields.provider && r.value.capability == q.fields.capability
                && Deliveries(broker.audit) == owed + [DeliveryEvent(broker.hasher, q.fields, r.value.exchangeType)]
                && Sourced(init, stores, r.value.exchangeType, r.value.ttlRemaining, q, Given(r.value.token[..], since))
      ensures r.Err? ==> Deliveries(broker.audit) == owed
    {
      ghost var stored;
      since := |stores|;
      r, stored := CallBroker(q);
      Enter(q, r, stored, old(broker.ideal));
    }

    /** A result handed out joins the held ones, with its event on record; an error changes nothing held. */
    method DoExchange(q: Request) returns (r: Result<ExchangeResult, BrokerError>)
      requires Valid()
      modifies this, broker`audit, broker`ideal, broker`strategyCalls, broker`faults
      modifies broker.cache, broker.cache.Tokens()
      ensures Answerable(broker, q.fields, r, old(broker.faults))
      ensures Valid() && everCached == old(everCached) + broker.cache.Tokens() && old(stores) <= stores
      ensures forall t :: t in broker.cache.Tokens() ==> t in old(broker.cache.Tokens()) || fresh(t)
      ensures r.Ok? ==>
                && fresh(r.value.token) && held == old(held) + [r.value]
                && expected == old(expected) + [r.value.token[..]] && asked == old(asked) + [q]
                && owed == old(owed) + [DeliveryEvent(broker.hasher, q.fields, r.value.exchangeType)]
                && old(given) <= given && |given| == |held| && given[|old(held)|].bytes == r.value.token[..]
      ensures Kept({}, old(Ledger()), Ledger())
      ensures r.Err? ==>
                && held == old(held) && expected == old(expected) && owed == old(owed)
                && asked == old(asked) && given == old(given)
    {
      ghost var since;
      r, since := Ask(q);
      if r.Ok? {
        Keep(r.value, q, since);
      }
    }

    /** The caller zeroes a result: that result changes, no other and nothing that is or was cached. */
    method DoZero(i: nat)
      requires Valid() && i < |held|
      modifies this`expected, held[i].token
      ensures Valid()
      ensures expected == old(expected)[i := seq(|old(expected)[i]|, _ => 0)]
      ensures IsZero(held[i].token)
    {
      ghost var was := held[i].token[..];
      ZeroBytes(held[i].token);
      expected := expected[i := seq(|was|, _ => 0)];
      assert held[i].token[..] == expected[i];
    }

    /** Zeroing a result that does not exist does nothing. */
    method ZeroAny(i: nat)
      requires Valid()
      modifies this`expected, HeldTokens()
      ensures Valid() && Kept({ZeroResult(i)}, old(Ledger()), Ledger())
      ensures i < |held| ==> Zeroes(expected[i])
    {
      if i < |held| {
        assert held[i].token in HeldTokens();
        DoZero(i);
      }
    }

    /** Every other call leaves what is held, and what is on record about it, alone. */
    method DoOther(call: Call)
      requires Valid() && !call.Exchange? && !call.ZeroResult?
      modifies broker`audit, broker`faults, broker`locked
      modifies broker.cache`entries, broker.cache`fired, broker.cache.Tokens()
      ensures Valid() && broker.cache.Tokens() <= old(broker.cache.Tokens())
      ensures broker.locked == LockedBy(old(broker.locked), call) && broker.faults >= old(broker.faults)
    {
      Perform(broker, call);
    }

    /** One call. `served` says that it handed a result out. */
    method Do(call: Call) returns (served: bool)
      requires Valid()
      modifies this, broker, broker.cache, broker.cache.Tokens(), HeldTokens()
      ensures Valid() && old(everCached) <= everCached
      ensures forall t :: t in broker.cache.Tokens() ==> t in old(broker.cache.Tokens()) || fresh(t)
      ensures forall t :: t in HeldTokens() ==> t in old(HeldTokens()) || fresh(t)
      ensures asked == old(asked) + RequestOf(call, served) && Kept({call}, old(Ledger()), Ledger())
      ensures broker.locked == LockedBy(old(broker.locked), call) && broker.faults >= old(broker.faults)
      ensures served ==> call.Exchange? && !old(broker.locked)
      ensures MustServe(broker.strategies, broker.hasEmitter, call, old(broker.locked)) ==>
                served || broker.faults > old(broker.faults)
      ensures call.ZeroResult? && call.index < |old(held)| ==>
                call.index < |expected| && Zeroes(expected[call.index])
    {
      if call.Exchange? {
        var r := DoExchange(Request(call.fields, call.times));
        KeptMore({call}, old(Ledger()), Ledger());
        return r.Ok?;
      }
      assert asked + [] == asked;
      if call.ZeroResult? {
        ZeroAny(call.index);
      } else {
        DoOther(call);
      }
      return false;
    }

    /** Every call in turn. */
    method DoAll(calls: seq<Call>) returns (served: seq<bool>)
      requires Valid()
      modifies this, broker, broker.cache, broker.cache.Tokens(), HeldTokens()
      ensures Valid() && old(everCached) <= everCached
      ensures |served| == |calls| && asked == old(asked) + Requests(calls, served)
      ensures Kept(CallSet(calls), old(Ledger()), Ledger())
      ensures AllZeroed(|old(held)|, calls, served, expected)
      ensures broker.faults >= old(broker.faults)
      ensures ServedAsDue(broker.strategies, broker.hasEmitter, broker.faults == old(broker.faults), old(broker.locked),
                          calls, served)
    {
      served := [];
      assert asked + [] == asked;
      ghost var w := Setting(broker.strategies, broker.hasEmitter, broker.locked);
      ghost var smooth, before := true, Ledger();
      for n := 0 to |calls|
        invariant Valid() && old(everCached) <= everCached
        invariant broker.faults >= old(broker.faults) && smooth == (broker.faults == old(broker.faults))
        invariant Accomplished(w, smooth, calls, n, served, old(asked), asked, before, Ledger())
        invariant broker.locked == LockedAfter(old(broker.locked), calls[..n])
        invariant forall t :: t in broker.cache.Tokens() ==> t in old(broker.cache.Tokens()) || fresh(t)
        invariant forall t :: t in HeldTokens() ==> t in old(HeldTokens()) || fresh(t)
      {
        ghost var requests, books, stillSmooth := asked, Ledger(), smooth;
        assert served[..n] == served;
        var hit := Do(calls[n]);
        smooth := broker.faults == old(broker.faults);
        AccomplishedNext(
          w, stillSmooth, calls, n, served, old(asked), requests, before, books, hit, smooth, Ledger());
        served := served + [hit];
      }
      assert calls[..|calls|] == calls;
    }

    /** What the results show is what they must. */
    lemma UntouchedNow(calls: seq<Call>, before: seq<Bytes>)
      requires Holdings() && |given| == |held| && Untouched(CallSet(calls), before, expected, given)
      ensures forall i :: 0 <= i < |held| && ZeroResult(i) !in calls ==>
                held[i].token[..] == if i < |before| then before[i] else given[i].bytes
      ensures WholeOrZeroed(before, expected, given) ==>
                forall i :: 0 <= i < |held| ==>
                  || held[i].token[..] == (if i < |before| then before[i] else given[i].bytes)
                  || IsZero(held[i].token)
    {
    }

    /**
     * Any run of calls. The results handed out answer, in order, the Exchange calls that were served, and the
     * deliveries on record are theirs. No call is served while the vault is locked; with an emitter and a strategy for
     * the provider, and neither failing, every other one is. A hit showed what was last stored for its fields, a
     * fresh result what it then stored. No array a result holds was ever cached; a held result shows what it did until
     * the caller zeroes it, and zeroes from then on; every array that was ever cached and no longer is, is zero.
     */
    method Run(calls: seq<Call>) returns (served: seq<bool>)
      requires Valid()
      modifies this, broker, broker.cache, broker.cache.Tokens(), HeldTokens()
      ensures Valid() && old(held) <= held && |served| == |calls|
      ensures broker.faults >= old(broker.faults)
      ensures ServedAsDue(broker.strategies, broker.hasEmitter, broker.faults == old(broker.faults), old(broker.locked),
                          calls, served)
      ensures forall i :: 0 <= i < |old(held)| && ZeroResult(i) !in calls ==>
                held[i].token[..] == old(held[i].token[..])
      ensures forall i :: |old(held)| <= i < |held| && ZeroResult(i) !in calls ==> held[i].token[..] == given[i].bytes
      ensures forall n :: 0 <= n < |calls| && calls[n].ZeroResult?
                          && calls[n].index < HeldBefore(|old(held)|, calls, served, n) ==>
                            calls[n].index < |held| && IsZero(held[calls[n].index].token)
      ensures asked == old(asked) + Requests(calls, served)
      ensures old(owed) <= owed && old(given) <= given && old(stores) <= stores
      ensures Deliveries(broker.audit) == owed && Accounted(broker.hasher, held, asked, owed)
      ensures broker.ideal == Replay(init, stores) && AllSourced(init, stores, held, asked, given)
      ensures old(everCached) <= everCached && AllZero(everCached - broker.cache.Tokens())
    {
      served := DoAll(calls);
      UntouchedNow(calls, old(expected));
    }
  }
}
