// The token broker (internal/broker/broker.go, internal/broker/vault_lock.go): exchange
// through the cache, fail-closed auditing, revocation by session and the vault lock.
module Broker {
  import opened Basics
  import opened CacheKeys
  import opened TokenCache

  /** hashID under the broker's key; the HMAC is an arbitrary table. */
  datatype Hasher = Hasher(key: Bytes, table: imap<string, string>)
  {
    /** HMAC-SHA256 truncated to 16 bytes is 32 hex digits. */
    ghost predicate Valid() {
      forall id :: id in table && |table[id]| == 32
    }

    function HashID(id: string): (h: string)
    {
      if |key| == 0 then "no-hmac-key" else if id in table then table[id] else ""
    }
  }

  /** Without a key all IDs hash to one placeholder, which tells nothing of them. */
  lemma NoKeyTellsNothing(h: Hasher, id: string, other: string)
    requires h.key == []
    ensures h.HashID(id) == h.HashID(other) == "no-hmac-key"
  {
  }

  datatype ExchangeType = FreshExchange | CacheHit

  datatype ExchangeResult = ExchangeResult(
    provider: string, capability: string, ttlRemaining: int, exchangeType: ExchangeType, token: array<byte>)

  datatype BrokerError = VaultLocked | AuditFailed | UnsupportedExchange | StrategyFailed | TokenNotFound

  datatype AuditEvent =
    | ExchangeEvent(provider: string, capability: string, actorHmac: string, sessionHmac: string, namespace: string)
    | CacheHitEvent(provider: string, capability: string, actorHmac: string, sessionHmac: string)
    | RevokedEvent(tokenId: string, provider: string, actorHmac: string)

  /** The event that must be on record before a result of this kind is handed out. */
  function DeliveryEvent(h: Hasher, f: Fields, kind: ExchangeType): (e: AuditEvent)
  {
    match kind
    case FreshExchange =>
      ExchangeEvent(f.provider, f.capability, h.HashID(f.actor), h.HashID(f.session), f.namespace)
    case CacheHit =>
      CacheHitEvent(f.provider, f.capability, h.HashID(f.actor), h.HashID(f.session))
  }

  /** The events on record that stand for a result handed out. */
  function Deliveries(audit: seq<AuditEvent>): (events: seq<AuditEvent>)
  {
    if audit == [] then []
    else Deliveries(audit[..|audit| - 1]) + if audit[|audit| - 1].RevokedEvent? then [] else [audit[|audit| - 1]]
  }

  lemma DeliveriesSnoc(audit: seq<AuditEvent>, e: AuditEvent)
    ensures Deliveries(audit + [e]) == if e.RevokedEvent? then Deliveries(audit) else Deliveries(audit) + [e]
  {
  }

  function Remember(ideal: map<string, Stored>, key: string, stored: Option<Stored>): (after: map<string, Stored>)
  {
    if stored.Some? then ideal[key := stored.value] else ideal
  }

  /** What an exchange reads off the clock: to look a token up, to count its time to live, to stamp a new entry. */
  datatype Readings = Readings(lookup: int, stamp: int, inserted: int)

  /** A hit is what was last stored under the key, not past its deadline; a miss is what is stored now. */
  ghost predicate Justified(
    kind: ExchangeType, token: Bytes, ttl: int,
    ideal: map<string, Stored>, key: string, stored: Option<Stored>, at: Readings)
  {
    match kind
    case CacheHit =>
      && stored.None? && key in ideal && token == ideal[key].token
      && at.lookup <= ideal[key].deadline && at.stamp + ttl == ideal[key].deadline
    case FreshExchange => stored == Some(Stored(token, at.stamp + ttl))
  }

  /** A token a provider strategy minted, and for how long it lives. */
  datatype Minted = Minted(token: Bytes, ttl: int)

  /** A call of a provider strategy, and what it returned, if it did not fail. */
  datatype StrategyCall = StrategyCall(fields: Fields, minted: Option<Minted>)

  /** An entry of the cache is there under the key, and its deadline has not passed. */
  ghost predicate Live(m: map<string, Entry>, key: string, at: int) {
    key in m && at <= m[key].deadline
  }

  /** An event tells which kind of result it stands for, for what, and the hashes of who asked; nothing else of them. */
  lemma DeliveryEventTells(h: Hasher, f: Fields, kind: ExchangeType, g: Fields, other: ExchangeType)
    ensures DeliveryEvent(h, f, kind) == DeliveryEvent(h, g, other) <==>
              && kind == other && f.provider == g.provider && f.capability == g.capability
              && h.HashID(f.actor) == h.HashID(g.actor) && h.HashID(f.session) == h.HashID(g.session)
              && (kind.FreshExchange? ==> f.namespace == g.namespace)
  {
  }

  /** The event is the one for this kind of result, and names who asked by their hashes. */
  ghost predicate EventFor(h: Hasher, f: Fields, kind: ExchangeType, e: AuditEvent) {
    && (e.CacheHitEvent? <==> kind == CacheHit) && (e.ExchangeEvent? <==> kind == FreshExchange)
    && !e.RevokedEvent? && e.provider == f.provider && e.capability == f.capability
    && e.actorHmac == h.HashID(f.actor) && e.sessionHmac == h.HashID(f.session)
  }

  /** Storing under one request's fields leaves what is stored under any other fields. */
  lemma RememberOthers(ideal: map<string, Stored>, f: Fields, stored: Option<Stored>, g: Fields)
    requires FieldsNulFree(f) && FieldsNulFree(g) && f != g
    ensures CacheKey(g) in Remember(ideal, CacheKey(f), stored) <==> CacheKey(g) in ideal
    ensures CacheKey(g) in ideal ==> Remember(ideal, CacheKey(f), stored)[CacheKey(g)] == ideal[CacheKey(g)]
  {
    KeyRoundTrip(f);
    KeyRoundTrip(g);
  }

  /** NewExchangeResult: an owned copy of src, which is then cleared. */
  method NewExchangeResult(src: array<byte>) returns (owned: array<byte>)
    modifies src
    ensures fresh(owned) && owned[..] == old(src[..])
    ensures IsZero(src)
  {
    owned := Clone(src);
    ZeroBytes(src);
  }

  /** Some token. */
  method Mint() returns (owned: array<byte>)
    ensures fresh(owned)
  {
    var n: nat :| true;
    var minted := new byte[n](_ => 0);
    for i := 0 to n {
      minted[i] := *;
    }
    owned := NewExchangeResult(minted);
  }

  class BrokerImpl {
    const cache: Cache<string>
    const strategies: set<string>
    const hasEmitter: bool
    const hasher: Hasher
    var locked: bool
    /** The events emitted successfully. */
    var audit: seq<AuditEvent>
    /** For every key, what was last stored under it, kept or not. */
    ghost var ideal: map<string, Stored>
    /** Every call of a provider strategy so far. */
    ghost var strategyCalls: seq<StrategyCall>
    /** How often the audit emitter or a strategy has failed so far. */
    ghost var faults: nat

    ghost predicate Valid()
      reads this`ideal, cache, cache.Tokens()
    {
      cache.Holds(ideal) && "" !in ideal
    }

    constructor (strategies: set<string>, hasEmitter: bool, hasher: Hasher, limit: int)
      ensures Valid() && fresh(cache) && cache.entries == map[] && !locked && audit == []
      ensures this.strategies == strategies && this.hasEmitter == hasEmitter && this.hasher == hasher
    {
      this.strategies, this.hasEmitter, this.hasher := strategies, hasEmitter, hasher;
      cache := new Cache(limit);
      locked, audit, ideal, strategyCalls, faults := false, [], map[], [], 0;
    }

    /** Emit on the audit emitter: recorded, or an error. A nil emitter always errs. */
    method Emit(e: AuditEvent) returns (ok: bool)
      modifies this`audit, this`faults
      ensures audit == if ok then old(audit) + [e] else old(audit)
      ensures !hasEmitter ==> !ok
      ensures faults == old(faults) + if hasEmitter && !ok then 1 else 0
    {
      ok := Ready();
      if ok {
        audit := audit + [e];
      }
    }

    /** audit.Ready on the emitter: an error for a nil one. */
    method Ready() returns (ok: bool)
      modifies this`faults
      ensures !hasEmitter ==> !ok
      ensures faults == old(faults) + if hasEmitter && !ok then 1 else 0
    {
      if !hasEmitter {
        return false;
      }
      ok := *;
      if !ok {
        faults := faults + 1;
      }
    }

    /** A provider strategy: fails, or mints some token with some time to live, in an array of its own. */
    method CallStrategy(f: Fields) returns (r: Option<(array<byte>, int)>)
      modifies this`strategyCalls, this`faults
      ensures r.Some? ==> fresh(r.value.0)
      ensures strategyCalls ==
              old(strategyCalls)
              + [StrategyCall(f, if r.Some? then Some(Minted(r.value.0[..], r.value.1)) else None)]
      ensures faults == old(faults) + if r.Some? then 0 else 1
    {
      var ok: bool := *;
      if !ok {
        strategyCalls, faults := strategyCalls + [StrategyCall(f, None)], faults + 1;
        return None;
      }
      var owned := Mint();
      var ttl: int := *;
      strategyCalls := strategyCalls + [StrategyCall(f, Some(Minted(owned[..], ttl)))];
      return Some((owned, ttl));
    }

    /** A cache hit: the snapshot is handed out once its event is on record, else zeroed. */
    method DeliverHit(f: Fields, entry: Entry, stamp: int)
      returns (r: Result<ExchangeResult, BrokerError>, ghost withheld: Option<array<byte>>)
      modifies this`audit, this`faults, entry.token
      ensures r.Ok? ==>
                && withheld.None?
                && audit == old(audit) + [DeliveryEvent(hasher, f, CacheHit)]
                && r.value == ExchangeResult(f.provider, f.capability, entry.deadline - stamp, CacheHit, entry.token)
                && r.value.token[..] == old(entry.token[..])
      ensures r.Err? ==>
                r.error == AuditFailed && audit == old(audit) && withheld == Some(entry.token) && IsZero(entry.token)
      ensures faults == old(faults) + if hasEmitter && r.Err? then 1 else 0
    {
      withheld := None;
      var ttl := entry.deadline - stamp;
      var ok := Emit(DeliveryEvent(hasher, f, CacheHit));
      if !ok {
        ZeroBytes(entry.token);
        return Err(AuditFailed), Some(entry.token);
      }
      return Ok(ExchangeResult(f.provider, f.capability, ttl, CacheHit, entry.token)), None;
    }

    /** A minted token: handed out once its event is on record, else zeroed. */
    method DeliverFresh(f: Fields, token: array<byte>, ttl: int)
      returns (r: Result<ExchangeResult, BrokerError>, ghost withheld: Option<array<byte>>)
      modifies this`audit, this`faults, token
      ensures r.Ok? ==>
                && withheld.None?
                && audit == old(audit) + [DeliveryEvent(hasher, f, FreshExchange)]
                && r.value == ExchangeResult(f.provider, f.capability, ttl, FreshExchange, token)
                && r.value.token[..] == old(token[..])
      ensures r.Err? ==>
                r.error == AuditFailed && audit == old(audit) && withheld == Some(token) && IsZero(token)
      ensures faults == old(faults) + if hasEmitter && r.Err? then 1 else 0
    {
      withheld := None;
      var ok := Emit(DeliveryEvent(hasher, f, FreshExchange));
      if !ok {
        ZeroBytes(token);
        return Err(AuditFailed), Some(token);
      }
      return Ok(ExchangeResult(f.provider, f.capability, ttl, FreshExchange, token)), None;
    }

    /** What a cache miss is answered with: what the provider's strategy mints, if it has one. */
    method Dispatch(key: string, f: Fields, at: Readings)
      returns (
        r: Result<ExchangeResult, BrokerError>, ghost withheld: Option<array<byte>>, ghost stored: Option<Stored>,
        ghost gone: Option<string>)
      requires Valid() && key != ""
      modifies this`audit, this`ideal, this`strategyCalls, this`faults, cache, cache.Tokens()
      ensures Valid()
      ensures forall t :: t in cache.Tokens() ==> t in old(cache.Tokens()) || fresh(t)
      ensures AllZero(old(cache.Tokens()) - cache.Tokens())
      ensures ideal == Remember(old(ideal), key, stored)
      ensures r.Ok? ==>
                && withheld.None?
                && fresh(r.value.token) && r.value.token !in cache.Tokens()
                && r.value ==
                   ExchangeResult(f.provider, f.capability, r.value.ttlRemaining, FreshExchange, r.value.token)
                && audit == old(audit) + [DeliveryEvent(hasher, f, FreshExchange)]
                && stored == Some(Stored(r.value.token[..], at.stamp + r.value.ttlRemaining))
      ensures r.Err? ==> audit == old(audit) && r.error != VaultLocked
      ensures r == Err(AuditFailed) <==> withheld.Some?
      ensures stored.Some? && r.Err? ==> r.error == AuditFailed
      ensures withheld.Some? ==> IsZero(withheld.value)
      ensures MadeRoom(old(cache.entries), cache.entries, cache.maxEntries, key, gone, old(cache.fired), cache.fired)
      ensures Dispatched(f, key, at, stored, old(strategyCalls), old(cache.entries))
      ensures faults >= old(faults) && (r.Ok? ==> faults == old(faults))
      ensures r.Err? && hasEmitter && f.provider in strategies ==> faults > old(faults)
      ensures r == Err(UnsupportedExchange) <==> f.provider !in strategies
    {
      if f.provider in strategies {
        r, withheld, stored, gone := ExchangeFresh(key, f, at);
      } else {
        r, withheld, stored, gone := Err(UnsupportedExchange), None, None, None;
        NoRoomMade(cache.entries, cache.maxEntries, key, cache.fired);
      }
    }

    /**
     * A cache miss for a provider with a strategy: call it, cache a copy, hand the result out once audited.
     * `stored` is what the cache was given, also when the result was then withheld.
     */
    method ExchangeFresh(key: string, f: Fields, at: Readings)
      returns (
        r: Result<ExchangeResult, BrokerError>, ghost withheld: Option<array<byte>>, ghost stored: Option<Stored>,
        ghost gone: Option<string>)
      requires Valid() && key != "" && f.provider in strategies
      modifies this`audit, this`ideal, this`strategyCalls, this`faults, cache, cache.Tokens()
      ensures Valid()
      ensures forall t :: t in cache.Tokens() ==> t in old(cache.Tokens()) || fresh(t)
      ensures AllZero(old(cache.Tokens()) - cache.Tokens())
      ensures ideal == Remember(old(ideal), key, stored)
      ensures r.Ok? ==>
                && withheld.None?
                && fresh(r.value.token) && r.value.token !in cache.Tokens()
                && r.value ==
                   ExchangeResult(f.provider, f.capability, r.value.ttlRemaining, FreshExchange, r.value.token)
                && audit == old(audit) + [DeliveryEvent(hasher, f, FreshExchange)]
                && stored == Some(Stored(r.value.token[..], at.stamp + r.value.ttlRemaining))
      ensures r.Err? ==> audit == old(audit) && r.error in {StrategyFailed, AuditFailed}
      ensures r == Err(AuditFailed) <==> withheld.Some?
      ensures stored.Some? && r.Err? ==> r.error == AuditFailed
      ensures withheld.Some? ==> IsZero(withheld.value)
      ensures MadeRoom(old(cache.entries), cache.entries, cache.maxEntries, key, gone, old(cache.fired), cache.fired)
      ensures Dispatched(f, key, at, stored, old(strategyCalls), old(cache.entries))
      ensures faults >= old(faults) && (r.Ok? ==> faults == old(faults))
      ensures r.Err? && hasEmitter ==> faults > old(faults)
    {
      withheld, stored, gone := None, None, None;
      var minted := CallStrategy(f);
      if minted.None? {
        return Err(StrategyFailed), None, None, None;
      }
      var token, ttl := minted.value.0, minted.value.1;
      assert Valid() && cache.Tokens() == old(cache.Tokens());
      r, withheld, stored, gone := StoreAndDeliver(key, f, token, ttl, at);
    }

    /** A token just minted: a copy is cached, and then it is handed out. */
    method StoreAndDeliver(key: string, f: Fields, token: array<byte>, ttl: int, at: Readings)
      returns (
        r: Result<ExchangeResult, BrokerError>, ghost withheld: Option<array<byte>>, ghost stored: Option<Stored>,
        ghost gone: Option<string>)
      requires Valid() && key != "" && token !in cache.Tokens()
      modifies this`audit, this`ideal, this`faults, cache, cache.Tokens(), token
      ensures Valid()
      ensures forall t :: t in cache.Tokens() ==> t in old(cache.Tokens()) || fresh(t)
      ensures AllZero(old(cache.Tokens()) - cache.Tokens())
      ensures ideal == Remember(old(ideal), key, stored)
      ensures stored == Some(Stored(old(token[..]), at.stamp + ttl))
      ensures r.Ok? ==>
                && withheld.None? && token !in cache.Tokens()
                && r.value == ExchangeResult(f.provider, f.capability, ttl, FreshExchange, token)
                && audit == old(audit) + [DeliveryEvent(hasher, f, FreshExchange)]
                && token[..] == old(token[..])
      ensures r.Err? ==> audit == old(audit) && r.error == AuditFailed && withheld == Some(token) && IsZero(token)
      ensures key in cache.entries && cache.entries[key].deadline == stored.value.deadline
      ensures cache.entries[key].insertedAt == at.inserted && cache.entries[key].onEvict.None?
      ensures MadeRoom(old(cache.entries), cache.entries, cache.maxEntries, key, gone, old(cache.fired), cache.fired)
      ensures faults == old(faults) + if hasEmitter && r.Err? then 1 else 0
    {
      ghost var kept;
      kept, gone := StoreMinted(key, token, ttl, at);
      stored := Some(kept);
      ghost var left := old(cache.Tokens()) - cache.Tokens();
      r, withheld := DeliverFresh(f, token, ttl);
      assert AllZero(left) && Valid();
    }

    /**
     * What a miss asked of the strategy: nothing if the provider has none, else one token for these fields, which is
     * then cached as it was minted.
     */
    ghost predicate Dispatched(
      f: Fields, key: string, at: Readings, stored: Option<Stored>,
      callsBefore: seq<StrategyCall>, before: map<string, Entry>)
      reads this`strategyCalls, cache`entries
    {
      if f.provider !in strategies then
        strategyCalls == callsBefore && stored.None? && cache.entries == before
      else
        && |strategyCalls| == |callsBefore| + 1 && callsBefore <= strategyCalls
        && var call := strategyCalls[|callsBefore|];
           && call.fields == f && (call.minted.Some? <==> stored.Some?)
           && (stored.None? ==> cache.entries == before)
           && (stored.Some? ==>
                 && stored.value == Stored(call.minted.value.token, at.stamp + call.minted.value.ttl)
                 && key in cache.entries && cache.entries[key].deadline == stored.value.deadline
                 && cache.entries[key].insertedAt == at.inserted && cache.entries[key].onEvict.None?)
    }

    /** The cache keeps its own copy of a minted token. */
    method StoreMinted(key: string, token: array<byte>, ttl: int, at: Readings)
      returns (ghost kept: Stored, ghost victim: Option<string>)
      requires Valid() && key != "" && token !in cache.Tokens()
      modifies this`ideal, cache, cache.Tokens()
      ensures Valid() && token !in cache.Tokens()
      ensures forall t :: t in cache.Tokens() ==> t in old(cache.Tokens()) || fresh(t)
      ensures AllZero(old(cache.Tokens()) - cache.Tokens())
      ensures ideal == old(ideal)[key := kept]
      ensures token[..] == old(token[..]) && kept == Stored(token[..], at.stamp + ttl)
      ensures key in cache.entries && cache.entries[key].deadline == kept.deadline
      ensures cache.entries[key].insertedAt == at.inserted && cache.entries[key].onEvict.None?
      ensures MadeRoom(old(cache.entries), cache.entries, cache.maxEntries, key, victim, old(cache.fired), cache.fired)
    {
      ghost var copy;
      copy, kept, victim := cache.StoreCopy(key, token, ttl, at.stamp, at.inserted, ideal);
      ideal := ideal[key := kept];
    }

    /** Steps 3 on: the cache under this key first, then the strategy. */
    method ExchangeUnder(key: string, f: Fields, at: Readings)
      returns (
        r: Result<ExchangeResult, BrokerError>, ghost withheld: Option<array<byte>>, ghost stored: Option<Stored>,
        ghost gone: Option<string>)
      requires Valid() && key != ""
      modifies this`audit, this`ideal, this`strategyCalls, this`faults, cache, cache.Tokens()
      ensures Valid()
      ensures forall t :: t in cache.Tokens() ==> t in old(cache.Tokens()) || fresh(t)
      ensures AllZero(old(cache.Tokens()) - cache.Tokens())
      ensures ideal == Remember(old(ideal), key, stored)
      ensures r.Ok? ==>
                && fresh(r.value.token) && r.value.token !in cache.Tokens()
                && r.value.provider == f.provider && r.value.capability == f.capability
                && audit == old(audit) + [DeliveryEvent(hasher, f, r.value.exchangeType)]
                && Justified(r.value.exchangeType, r.value.token[..], r.value.ttlRemaining,
                             old(ideal), key, stored, at)
      ensures r.Err? ==> audit == old(audit) && r.error != VaultLocked
      ensures r == Err(AuditFailed) <==> withheld.Some?
      ensures stored.Some? && r.Err? ==> r.error == AuditFailed
      ensures withheld.Some? ==> IsZero(withheld.value)
      ensures Turned(old(cache.entries), cache.entries, cache.maxEntries, key, gone, at.lookup,
                     old(cache.fired), cache.fired)
      ensures Answered(r, f, key, at, stored, old(strategyCalls), old(cache.entries), old(cache.fired))
      ensures faults >= old(faults) && (r.Ok? ==> faults == old(faults))
      ensures r.Err? && hasEmitter && (Live(old(cache.entries), key, at.lookup) || f.provider in strategies) ==>
                faults > old(faults)
    {
      ghost var was, fired, tokens := cache.entries, cache.fired, cache.Tokens();
      var entry := cache.Lookup(key, at.lookup, ideal);
      if entry.None? {
        r, withheld, stored, gone := ExchangeMiss(key, f, at, was, fired, tokens);
        return;
      }
      stored, gone := None, None;
      NotTurned(cache.entries, cache.maxEntries, key, at.lookup, cache.fired);
      r, withheld := ExchangeHit(key, f, entry.value, at);
    }

    /**
     * How a request past its checks is answered. From the cache, without calling the provider, exactly when an entry
     * is there under the key and in time; else by what the strategy mints.
     */
    ghost predicate Answered(
      r: Result<ExchangeResult, BrokerError>, f: Fields, key: string, at: Readings, stored: Option<Stored>,
      callsBefore: seq<StrategyCall>, before: map<string, Entry>, firedBefore: multiset<array<byte>>)
      reads this`strategyCalls, cache`entries, cache`fired
    {
      if key in before && at.lookup <= before[key].deadline then
        && stored.None? && strategyCalls == callsBefore
        && cache.entries == before && cache.fired == firedBefore
        && (r.Ok? ==> r.value.exchangeType == CacheHit)
        && (r.Err? ==> r.error == AuditFailed)
      else
        && Dispatched(f, key, at, stored, callsBefore, before - {key})
        && (r.Ok? ==> r.value.exchangeType == FreshExchange && stored.Some?)
        && (r == Err(UnsupportedExchange) <==> f.provider !in strategies)
    }

    /** A hit leaves the cache alone, whether it is handed out or not. */
    method ExchangeHit(key: string, f: Fields, entry: Entry, at: Readings)
      returns (r: Result<ExchangeResult, BrokerError>, ghost withheld: Option<array<byte>>)
      requires Valid() && entry.token !in cache.Tokens()
      requires key in ideal && ideal[key] == Stored(entry.token[..], entry.deadline) && at.lookup <= entry.deadline
      modifies this`audit, this`faults, entry.token
      ensures Valid()
      ensures r.Ok? ==>
                && r.value.token == entry.token && r.value.exchangeType == CacheHit
                && r.value.provider == f.provider && r.value.capability == f.capability
                && audit == old(audit) + [DeliveryEvent(hasher, f, r.value.exchangeType)]
                && Justified(r.value.exchangeType, r.value.token[..], r.value.ttlRemaining, ideal, key, None, at)
      ensures r.Err? ==> audit == old(audit) && r.error == AuditFailed
      ensures r == Err(AuditFailed) <==> withheld.Some?
      ensures withheld.Some? ==> IsZero(withheld.value)
      ensures faults == old(faults) + if hasEmitter && r.Err? then 1 else 0
    {
      r, withheld := DeliverHit(f, entry, at.stamp);
    }

    /** A miss, with what the lookup of the key did to the cache taken into account. */
    method ExchangeMiss(
      key: string, f: Fields, at: Readings, ghost was: map<string, Entry>, ghost firedBefore: multiset<array<byte>>,
      ghost tokens: set<array<byte>>)
      returns (
        r: Result<ExchangeResult, BrokerError>, ghost withheld: Option<array<byte>>, ghost stored: Option<Stored>,
        ghost gone: Option<string>)
      requires Valid() && key != ""
      requires Missed(was, cache.entries, cache.maxEntries, key, at.lookup, firedBefore, cache.fired)
      requires cache.Tokens() <= tokens && AllZero(tokens - cache.Tokens())
      modifies this`audit, this`ideal, this`strategyCalls, this`faults, cache, cache.Tokens()
      ensures Valid()
      ensures forall t :: t in cache.Tokens() ==> t in tokens || fresh(t)
      ensures AllZero(tokens - cache.Tokens())
      ensures ideal == Remember(old(ideal), key, stored)
      ensures r.Ok? ==>
                && fresh(r.value.token) && r.value.token !in cache.Tokens() && r.value.exchangeType == FreshExchange
                && r.value.provider == f.provider && r.value.capability == f.capability
                && audit == old(audit) + [DeliveryEvent(hasher, f, r.value.exchangeType)]
                && Justified(r.value.exchangeType, r.value.token[..], r.value.ttlRemaining,
                             old(ideal), key, stored, at)
      ensures r.Err? ==> audit == old(audit) && r.error != VaultLocked
      ensures r == Err(AuditFailed) <==> withheld.Some?
      ensures stored.Some? && r.Err? ==> r.error == AuditFailed
      ensures withheld.Some? ==> IsZero(withheld.value)
      ensures Turned(was, cache.entries, cache.maxEntries, key, gone, at.lookup, firedBefore, cache.fired)
      ensures Dispatched(f, key, at, stored, old(strategyCalls), old(cache.entries))
      ensures faults >= old(faults) && (r.Ok? ==> faults == old(faults))
      ensures r.Err? && hasEmitter && f.provider in strategies ==> faults > old(faults)
      ensures r == Err(UnsupportedExchange) <==> f.provider !in strategies
    {
      ghost var mid, fired, victim := cache.entries, cache.fired, None;
      ghost var before, wiped := cache.Tokens(), tokens - cache.Tokens();
      r, withheld, stored, victim := Dispatch(key, f, at);
      assert AllZero(wiped) && tokens - cache.Tokens() <= wiped + (before - cache.Tokens());
      MissThenStore(was, mid, cache.entries, key, victim, cache.maxEntries, at.lookup, firedBefore, fired, cache.fired);
      gone := if key in was then Some(key) else victim;
    }

    /**
     * Exchange. `withheld` is a token obtained but not handed out; `stored` is what the cache was given; `gone` is
     * the entry it dismissed.
     */
    method Exchange(f: Fields, at: Readings)
      returns (
        r: Result<ExchangeResult, BrokerError>, ghost withheld: Option<array<byte>>, ghost stored: Option<Stored>,
        ghost gone: Option<string>)
      requires Valid()
      modifies this`audit, this`ideal, this`strategyCalls, this`faults, cache, cache.Tokens()
      ensures Valid()
      ensures forall t :: t in cache.Tokens() ==> t in old(cache.Tokens()) || fresh(t)
      ensures AllZero(old(cache.Tokens()) - cache.Tokens())
      ensures ideal == Remember(old(ideal), CacheKey(f), stored)
      // Locked: nothing is read from or written to the cache, and nothing is audited.
      ensures locked <==> r == Err(VaultLocked)
      ensures locked ==> stored.None? && cache.entries == old(cache.entries) && strategyCalls == old(strategyCalls)
      // Unlocked: a hit, which leaves the cache and the provider alone, exactly when an entry is there and in time.
      ensures !locked && CacheKey(f) in old(cache.entries) && at.lookup <= old(cache.entries)[CacheKey(f)].deadline ==>
                && stored.None? && cache.entries == old(cache.entries) && cache.fired == old(cache.fired)
                && strategyCalls == old(strategyCalls)
                && (r.Ok? ==> r.value.exchangeType == CacheHit)
      ensures !(CacheKey(f) in old(cache.entries) && at.lookup <= old(cache.entries)[CacheKey(f)].deadline) && r.Ok? ==>
                r.value.exchangeType == FreshExchange && stored.Some?
      // What is stored is what the strategy minted for these fields, with the deadline and stamp read off the clock.
      ensures stored.Some? ==>
                && f.provider in strategies
                && Dispatched(f, CacheKey(f), at, stored, old(strategyCalls), old(cache.entries) - {CacheKey(f)})
      ensures stored.None? ==> forall k :: k in cache.entries ==> k in old(cache.entries)
      // An error has a cause.
      ensures faults >= old(faults) && (r.Ok? ==> faults == old(faults))
      ensures r == Err(UnsupportedExchange) ==> f.provider !in strategies
      ensures r.Err? && hasEmitter && !locked ==>
                || faults > old(faults)
                || (!Live(old(cache.entries), CacheKey(f), at.lookup) && f.provider !in strategies)
      // One event on record for each result handed out, and none for an error.
      ensures r.Ok? ==> audit == old(audit) + [DeliveryEvent(hasher, f, r.value.exchangeType)]
      ensures r.Ok? ==> EventFor(hasher, f, r.value.exchangeType, audit[|old(audit)|])
      ensures r.Err? ==> audit == old(audit)
      // A token that was obtained but not audited is zeroed, even though its copy may stay cached.
      ensures withheld.Some? ==> r == Err(AuditFailed) && IsZero(withheld.value)
      ensures stored.Some? && r.Err? ==> withheld.Some?
      // The result owns its bytes, and they are the right ones.
      ensures r.Ok? ==>
                && fresh(r.value.token) && r.value.token !in cache.Tokens()
                && r.value.provider == f.provider && r.value.capability == f.capability
                && Justified(r.value.exchangeType, r.value.token[..], r.value.ttlRemaining,
                             old(ideal), CacheKey(f), stored, at)
      // Every other entry stays, but for an oldest one if the cache was full; callbacks run for what left.
      ensures Turned(old(cache.entries), cache.entries, cache.maxEntries, CacheKey(f), gone, at.lookup,
                     old(cache.fired), cache.fired)
    {
      withheld, stored, gone := None, None, None;
      NotTurned(cache.entries, cache.maxEntries, CacheKey(f), at.lookup, cache.fired);
      if locked {
        return Err(VaultLocked), None, None, None;
      }
      var ready := Ready();
      if !ready {
        return Err(AuditFailed), None, None, None;
      }
      r, withheld, stored, gone := ExchangeUnder(CacheKey(f), f, at);
    }

    /** Revoke: drops every cached entry of the session. */
    method Revoke(sessionID: string)
      requires Valid()
      modifies cache`entries, cache`fired, cache.Tokens()
      ensures Valid() && cache.Tokens() <= old(cache.Tokens()) && AllZero(old(cache.Tokens()) - cache.Tokens())
      ensures cache.entries == old(cache.entries) - SessionKeys(old(cache.entries), sessionID)
      ensures cache.fired ==
              old(cache.fired) + multiset(CallbacksOf(old(cache.entries), SessionKeys(old(cache.entries), sessionID)))
      ensures forall k :: k in SessionKeys(old(cache.entries), sessionID) ==> IsZero(old(cache.entries)[k].token)
    {
      cache.DropAll(SessionKeys(cache.entries, sessionID), ideal);
    }

    /** One tick of the cache's eviction loop. */
    method EvictionTick(now: int)
      requires Valid()
      modifies cache`entries, cache`fired, cache.Tokens()
      ensures Valid() && cache.Tokens() <= old(cache.Tokens()) && AllZero(old(cache.Tokens()) - cache.Tokens())
      ensures cache.entries == old(cache.entries) - ExpiredKeys(old(cache.entries), now)
      ensures cache.fired ==
              old(cache.fired) + multiset(CallbacksOf(old(cache.entries), ExpiredKeys(old(cache.entries), now)))
      ensures forall k :: k in ExpiredKeys(old(cache.entries), now) ==> IsZero(old(cache.entries)[k].token)
    {
      cache.DropAll(ExpiredKeys(cache.entries, now), ideal);
    }

    /** OnVaultLock, when no exchange is in flight. */
    method OnVaultLock()
      requires Valid()
      modifies this`locked, cache`entries, cache`fired, cache.Tokens()
      ensures Valid() && cache.Tokens() <= old(cache.Tokens()) && AllZero(old(cache.Tokens()) - cache.Tokens())
      ensures locked && cache.entries == map[]
      ensures cache.fired == old(cache.fired) + multiset(CallbacksOf(old(cache.entries), old(cache.entries).Keys))
      ensures forall k :: k in old(cache.entries) ==> IsZero(old(cache.entries)[k].token)
    {
      locked := true;
      cache.DropAll(cache.entries.Keys, ideal);
    }

    /** OnVaultUnlock. */
    method OnVaultUnlock()
      modifies this`locked
      ensures !locked
    {
      locked := false;
    }
  }

  /** The entries deleteBySession picks: their key contains the ID between separators. */
  function SessionKeys(m: map<string, Entry>, id: string): (keys: set<string>)
  {
    set k | k in m && Contains(k, Marker(id))
  }

  /** Among keys built from NUL-free fields, those are the ones whose capability, actor or session is the ID. */
  lemma SessionKeysAreTheSession(m: map<string, Entry>, f: Fields, id: string)
    requires FieldsNulFree(f) && NulFree(id) && CacheKey(f) in m
    ensures CacheKey(f) in SessionKeys(m, id) <==> id in {f.capability, f.actor, f.session}
  {
    SessionMatch(f, id);
  }
}
