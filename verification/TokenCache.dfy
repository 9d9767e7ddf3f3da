// The broker's in-process token cache (internal/broker/cache.go): a bounded, expiring map
// of secret byte arrays, with every removal zeroing the array on the heap.
module TokenCache {
  import opened Basics

  const DEFAULT_MAX_ENTRIES: nat := 1000

  /** cacheEntry. onEvict names the callback to run when the entry is evicted, if it has one. */
  datatype Entry = Entry(token: array<byte>, deadline: int, insertedAt: int, onEvict: Option<int>)

  ghost predicate IsZero(a: array<byte>)
    reads a
  {
    forall i :: 0 <= i < a.Length ==> a[i] == 0
  }

  ghost predicate AllZero(arrays: set<array<byte>>)
    reads arrays
  {
    forall a :: a in arrays ==> IsZero(a)
  }

  ghost function TokensOf<K>(m: map<K, Entry>): (tokens: set<array<byte>>)
  {
    set k | k in m :: m[k].token
  }

  /** Every array belongs to the one key it is owned by, so no two entries share one. */
  ghost predicate Owned<K>(m: map<K, Entry>, owner: map<array<byte>, K>) {
    forall k :: k in m ==> m[k].token in owner && owner[m[k].token] == k
  }

  /** Of these entries, those whose removal must run a callback, each identified by its array. */
  ghost function CallbacksOf<K>(m: map<K, Entry>, keys: set<K>): (tokens: set<array<byte>>)
  {
    set k | k in keys && k in m && m[k].onEvict.Some? :: m[k].token
  }

  lemma CallbacksOfOne<K>(m: map<K, Entry>, k: K)
    requires k in m
    ensures CallbacksOf(m, {k}) == if m[k].onEvict.Some? then {m[k].token} else {}
  {
  }

  /** `left` is what remains of `was`. */
  ghost predicate RemainsOf<K>(left: map<K, Entry>, was: map<K, Entry>) {
    forall k :: k in left ==> k in was && left[k] == was[k]
  }

  /** The keys of `was` that are no longer in `left`. */
  ghost function Gone<K>(was: map<K, Entry>, left: map<K, Entry>): (keys: set<K>)
  {
    set k | k in was && k !in left
  }

  /** Removing one more entry: the callback it may need is a new one. */
  lemma GoneStep<K>(was: map<K, Entry>, owner: map<array<byte>, K>, left: map<K, Entry>, k: K)
    requires Owned(was, owner) && k in left && RemainsOf(left, was)
    ensures multiset(CallbacksOf(was, Gone(was, left - {k}))) ==
            multiset(CallbacksOf(was, Gone(was, left))) + multiset(CallbacksOf(left, {k}))
  {
  }

  lemma AllGone<K>(was: map<K, Entry>, left: map<K, Entry>, victims: set<K>)
    requires RemainsOf(left, was) && victims <= was.Keys
    requires forall k :: k in was ==> (k in left <==> k !in victims)
    ensures left == was - victims && Gone(was, left) == victims
  {
  }

  lemma RemoveSize<K>(m: map<K, Entry>, k: K)
    requires k in m
    ensures |m - {k}| == |m| - 1
  {
  }

  lemma UpdateSize<K>(m: map<K, Entry>, k: K, e: Entry)
    ensures |m[k := e]| == if k in m then |m| else |m| + 1
  {
  }

  /** No operation brings in an array beyond those it is given. */
  lemma TokensShrink<K>(left: map<K, Entry>, was: map<K, Entry>)
    requires RemainsOf(left, was)
    ensures TokensOf(left) <= TokensOf(was)
  {
  }

  lemma TokensUpdate<K>(m: map<K, Entry>, was: map<K, Entry>, k: K, e: Entry)
    requires RemainsOf(m, was)
    ensures TokensOf(m[k := e]) <= TokensOf(was) + {e.token}
  {
  }

  /** The array of a removed entry is nobody else's. */
  lemma RemovedTokenGone<K>(was: map<K, Entry>, owner: map<array<byte>, K>, left: map<K, Entry>, k: K)
    requires Owned(was, owner) && RemainsOf(left, was) && k in was && k !in left
    ensures was[k].token in TokensOf(was) - TokensOf(left)
  {
  }

  /** When only these keys were removed or replaced, only their arrays can have left. */
  lemma DepartedTokens<K>(was: map<K, Entry>, m: map<K, Entry>, keys: set<K>)
    requires forall k :: k in was && k !in keys ==> k in m && m[k] == was[k]
    ensures forall t :: t in TokensOf(was) - TokensOf(m) ==> exists k :: k in keys && k in was && was[k].token == t
  {
    forall t | t in TokensOf(was) - TokensOf(m) ensures exists k :: k in keys && k in was && was[k].token == t {
      var k :| k in was && was[k].token == t;
      assert k !in keys ==> m[k].token in TokensOf(m);
    }
  }

  /** time.Time.After(deadline). */
  predicate Expired(e: Entry, now: int) {
    now > e.deadline
  }

  function ExpiredKeys<K>(m: map<K, Entry>, now: int): (keys: set<K>)
  {
    set k | k in m && now > m[k].deadline
  }

  /** No entry was inserted before this one. */
  predicate IsOldest<K>(m: map<K, Entry>, k: K) {
    k in m && forall j :: j in m ==> m[k].insertedAt <= m[j].insertedAt
  }

  /** The callbacks run once this entry, if any, is dismissed. */
  ghost function WithCallback<K>(fired: multiset<array<byte>>, m: map<K, Entry>, gone: Option<K>)
    : (after: multiset<array<byte>>)
  {
    if gone.Some? && gone.value in m && m[gone.value].onEvict.Some? then fired + multiset{m[gone.value].token}
    else fired
  }

  lemma CallbackOfOne<K>(fired: multiset<array<byte>>, m: map<K, Entry>, k: K)
    ensures fired + multiset(CallbacksOf(m, {k})) == WithCallback(fired, m, Some(k))
  {
    if k in m {
      CallbacksOfOne(m, k);
    } else {
      assert CallbacksOf(m, {k}) == {};
    }
  }

  /** Every entry stays as it is, but for that of the key and the one dismissed. */
  ghost predicate Turnover<K>(was: map<K, Entry>, now: map<K, Entry>, key: K, gone: Option<K>) {
    && (forall k :: k in was && k != key && gone != Some(k) ==> k in now && now[k] == was[k])
    && (forall k :: k in now ==> k in was || k == key)
    && (gone.Some? ==> gone.value in was && (gone.value == key || gone.value !in now))
  }

  /** The entry of a key goes because it has expired, another because the cache is full and it is an oldest one. */
  ghost predicate Dismissed<K>(m: map<K, Entry>, limit: nat, key: K, k: K, at: int) {
    k in m && if k == key then at > m[k].deadline else key !in m && |m| >= limit && IsOldest(m, k)
  }

  /** Only a new key in a full cache costs another entry, an oldest one. */
  ghost predicate CrowdedOut<K>(m: map<K, Entry>, limit: nat, key: K, victim: Option<K>) {
    victim.Some? ==> key !in m && |m| >= limit && IsOldest(m, victim.value)
  }

  /** What storing under a key did to the cache: at most an oldest entry left, with its callback run. */
  ghost predicate MadeRoom<K>(
    was: map<K, Entry>, now: map<K, Entry>, limit: nat, key: K, victim: Option<K>,
    firedBefore: multiset<array<byte>>, fired: multiset<array<byte>>)
  {
    && Turnover(was, now, key, victim) && CrowdedOut(was, limit, key, victim)
    && fired == WithCallback(firedBefore, was, victim)
  }

  lemma NoRoomMade<K>(m: map<K, Entry>, limit: nat, key: K, fired: multiset<array<byte>>)
    ensures MadeRoom(m, m, limit, key, None, fired, fired)
  {
  }

  /** What an exchange did to the cache: who left and why, what stayed, and the callbacks run. */
  ghost predicate Turned<K>(
    was: map<K, Entry>, now: map<K, Entry>, limit: nat, key: K, gone: Option<K>, at: int,
    firedBefore: multiset<array<byte>>, fired: multiset<array<byte>>)
  {
    && Turnover(was, now, key, gone)
    && (gone.Some? ==> Dismissed(was, limit, key, gone.value, at))
    && fired == WithCallback(firedBefore, was, gone)
  }

  lemma NotTurned<K>(m: map<K, Entry>, limit: nat, key: K, at: int, fired: multiset<array<byte>>)
    ensures Turned(m, m, limit, key, None, at, fired, fired)
  {
  }

  /** What a miss did: it removed the entry of the key, if there was one, because that had expired. */
  ghost predicate Missed<K>(
    was: map<K, Entry>, now: map<K, Entry>, limit: nat, key: K, at: int,
    firedBefore: multiset<array<byte>>, fired: multiset<array<byte>>)
  {
    && now == was - {key} && (key in was ==> at > was[key].deadline) && |was| <= limit
    && fired == WithCallback(firedBefore, was, Some(key))
  }

  /** A miss, and then what storing did. */
  lemma MissThenStore<K>(
    was: map<K, Entry>, mid: map<K, Entry>, now: map<K, Entry>, key: K, victim: Option<K>, limit: nat, at: int,
    firedBefore: multiset<array<byte>>, firedBetween: multiset<array<byte>>, fired: multiset<array<byte>>)
    requires Missed(was, mid, limit, key, at, firedBefore, firedBetween)
    requires MadeRoom(mid, now, limit, key, victim, firedBetween, fired)
    ensures Turned(was, now, limit, key, if key in was then Some(key) else victim, at, firedBefore, fired)
  {
    if key in was {
      RemoveSize(was, key);
    } else {
      assert mid == was;
    }
  }

  /** What was last stored under a key. */
  datatype Stored = Stored(token: Bytes, deadline: int)

  /** zeroBytes. */
  method ZeroBytes(a: array<byte>)
    modifies a
    ensures IsZero(a)
  {
    for i := 0 to a.Length
      invariant forall j :: 0 <= j < i ==> a[j] == 0
    {
      a[i] := 0;
    }
  }

  /** bytes.Clone. */
  method Clone(a: array<byte>) returns (b: array<byte>)
    ensures fresh(b) && b[..] == a[..]
  {
    b := new byte[a.Length](i requires 0 <= i < a.Length reads a => a[i]);
    assert forall i :: 0 <= i < a.Length ==> b[i] == a[i];
  }

  class Cache<K(==, !new)> {
    var entries: map<K, Entry>
    const maxEntries: nat
    /** The onEvict callbacks run so far. */
    ghost var fired: multiset<array<byte>>
    /** The key each array was stored under. */
    ghost var owner: map<array<byte>, K>

    ghost predicate Valid()
      reads this
    {
      0 < maxEntries && |entries| <= maxEntries && Owned(entries, owner)
    }

    ghost function Tokens(): (tokens: set<array<byte>>)
      reads this
    {
      TokensOf(entries)
    }

    /** NewTokenCacheWithLimit. */
    constructor (limit: int)
      ensures Valid() && entries == map[]
      ensures maxEntries == if limit <= 0 then DEFAULT_MAX_ENTRIES else limit
    {
      entries, fired, owner := map[], multiset{}, map[];
      maxEntries := if limit <= 0 then DEFAULT_MAX_ENTRIES else limit;
    }

    /** Zero the bytes, run the callback, delete the entry: what every removal does. */
    method Evict(k: K)
      requires Valid() && k in entries
      modifies this`entries, this`fired, entries[k].token
      ensures Valid() && entries == old(entries) - {k}
      ensures IsZero(old(entries)[k].token)
      ensures fired == old(fired) + multiset(CallbacksOf(old(entries), {k}))
    {
      var e := entries[k];
      CallbacksOfOne(entries, k);
      ZeroBytes(e.token);
      if e.onEvict.Some? {
        fired := fired + multiset{e.token};
      }
      RemoveSize(entries, k);
      entries := entries - {k};
    }

    /** Everything gone from `was` has been zeroed, and its callbacks are the ones run since. */
    ghost predicate Evicted(was: map<K, Entry>, firedBefore: multiset<array<byte>>)
      reads this, TokensOf(was)
    {
      && RemainsOf(entries, was)
      && (forall k :: k in was && k !in entries ==> IsZero(was[k].token))
      && fired == firedBefore + multiset(CallbacksOf(was, Gone(was, entries)))
    }

    /** One turn of the loop below. */
    method EvictNext(k: K, ghost was: map<K, Entry>, ghost firedBefore: multiset<array<byte>>)
      requires Valid() && Owned(was, owner) && k in entries && Evicted(was, firedBefore)
      modifies this`entries, this`fired, entries[k].token
      ensures Valid() && entries == old(entries) - {k} && Evicted(was, firedBefore)
    {
      GoneStep(was, owner, entries, k);
      Evict(k);
    }

    /** The loop over entries that evictExpired, flush and deleteBySession share; the order is arbitrary. */
    method EvictAll(victims: set<K>)
      requires Valid() && victims <= entries.Keys
      modifies this`entries, this`fired, set k | k in victims :: entries[k].token
      ensures Valid() && entries == old(entries) - victims
      ensures forall k :: k in victims ==> IsZero(old(entries)[k].token)
      ensures fired == old(fired) + multiset(CallbacksOf(old(entries), victims))
    {
      ghost var was := entries;
      var todo := victims;
      AllGone(was, entries, {});
      while todo != {}
        invariant Valid() && Evicted(was, old(fired))
        invariant forall k :: k in todo ==> k in victims && k in entries
        invariant forall k :: k in was && k !in todo ==> (k in entries <==> k !in victims)
        decreases todo
      {
        var k :| k in todo;
        EvictNext(k, was, old(fired));
        todo := todo - {k};
      }
      AllGone(was, entries, victims);
    }

    /** evictExpired. */
    method EvictExpired(now: int)
      requires Valid()
      modifies this`entries, this`fired, set k | k in ExpiredKeys(entries, now) :: entries[k].token
      ensures Valid() && entries == old(entries) - ExpiredKeys(old(entries), now)
      ensures forall k :: k in entries <==> k in old(entries) && now <= old(entries)[k].deadline
      ensures forall k :: k in ExpiredKeys(old(entries), now) ==> IsZero(old(entries)[k].token)
      ensures fired == old(fired) + multiset(CallbacksOf(old(entries), ExpiredKeys(old(entries), now)))
    {
      EvictAll(ExpiredKeys(entries, now));
    }

    /** flush. */
    method Flush()
      requires Valid()
      modifies this`entries, this`fired, Tokens()
      ensures Valid() && entries == map[]
      ensures forall k :: k in old(entries) ==> IsZero(old(entries)[k].token)
      ensures fired == old(fired) + multiset(CallbacksOf(old(entries), old(entries).Keys))
    {
      EvictAll(entries.Keys);
    }

    /** delete. */
    method Delete(key: K)
      requires Valid()
      modifies this`entries, this`fired, set k | k in entries && k == key :: entries[k].token
      ensures Valid() && entries == old(entries) - {key}
      ensures key in old(entries) ==> IsZero(old(entries)[key].token)
      ensures fired == old(fired) + multiset(CallbacksOf(old(entries), {key}))
    {
      if key in entries {
        Evict(key);
      } else {
        assert CallbacksOf(entries, {key}) == {};
      }
    }

    /** The scan of evictOldestLocked: a key with the least insertedAt. */
    method FindOldest() returns (oldest: K)
      requires entries != map[]
      ensures IsOldest(entries, oldest)
    {
      var todo := entries.Keys;
      oldest :| oldest in todo;
      todo := todo - {oldest};
      while todo != {}
        invariant oldest in entries && todo <= entries.Keys
        invariant forall j :: j in entries && j !in todo ==> entries[oldest].insertedAt <= entries[j].insertedAt
        decreases todo
      {
        var k :| k in todo;
        if entries[k].insertedAt < entries[oldest].insertedAt {
          oldest := k;
        }
        todo := todo - {k};
      }
    }

    /** evictOldestLocked. */
    method EvictOldest() returns (ghost victim: K)
      requires Valid() && entries != map[]
      modifies this`entries, this`fired, Tokens()
      ensures Valid() && IsOldest(old(entries), victim) && entries == old(entries) - {victim}
      ensures |entries| == |old(entries)| - 1
      ensures IsZero(old(entries)[victim].token)
      ensures forall k :: k in entries ==> entries[k].token[..] == old(entries[k].token[..])
      ensures fired == old(fired) + multiset(CallbacksOf(old(entries), {victim}))
    {
      var oldest := FindOldest();
      victim := oldest;
      RemoveSize(entries, oldest);
      Evict(oldest);
    }

    /** set on a key that is present: zeroes the old bytes and runs no callback. */
    method Overwrite(key: K, entry: Entry)
      requires Valid() && key in entries && entry.token !in Tokens()
      modifies this`entries, this`owner, entries[key].token
      ensures Valid() && entries == old(entries)[key := entry]
      ensures IsZero(old(entries)[key].token)
    {
      ZeroBytes(entries[key].token);
      UpdateSize(entries, key, entry);
      entries, owner := entries[key := entry], owner[entry.token := key];
    }

    method Insert(key: K, entry: Entry)
      requires Valid() && key !in entries && |entries| < maxEntries && entry.token !in Tokens()
      modifies this`entries, this`owner
      ensures Valid() && entries == old(entries)[key := entry]
    {
      UpdateSize(entries, key, entry);
      entries, owner := entries[key := entry], owner[entry.token := key];
    }

    /**
     * set. A new key in a full cache first evicts an entry with the least insertedAt; `victim` is the
     * key evicted, if any. The entry count never passes maxEntries (part of Valid).
     */
    method Set(key: K, entry: Entry) returns (ghost victim: Option<K>)
      requires Valid() && entry.token !in Tokens()
      modifies this`entries, this`fired, this`owner, Tokens()
      ensures Valid()
      ensures victim.Some? <==> key !in old(entries) && |old(entries)| >= maxEntries
      ensures victim.None? ==> entries == old(entries)[key := entry] && fired == old(fired)
      ensures victim.Some? ==>
                && IsOldest(old(entries), victim.value) && IsZero(old(entries)[victim.value].token)
                && entries == (old(entries) - {victim.value})[key := entry]
                && fired == old(fired) + multiset(CallbacksOf(old(entries), {victim.value}))
      ensures key in old(entries) ==> IsZero(old(entries)[key].token)
      ensures key in entries && entries[key] == entry
      ensures forall k :: k in entries && k != key ==>
                k in old(entries) && entries[k] == old(entries)[k] && entries[k].token[..] == old(entries[k].token[..])
      ensures Tokens() <= old(Tokens()) + {entry.token} && AllZero(old(Tokens()) - Tokens())
    {
      victim := None;
      if key in entries {
        ghost var was := entries;
        TokensUpdate(entries, was, key, entry);
        Overwrite(key, entry);
        DepartedTokens(was, entries, {key});
        return;
      }
      victim := SetNew(key, entry);
    }

    /** set on a key that is not present. */
    method SetNew(key: K, entry: Entry) returns (ghost victim: Option<K>)
      requires Valid() && key !in entries && entry.token !in Tokens()
      modifies this`entries, this`fired, this`owner, Tokens()
      ensures Valid() && (victim.Some? <==> |old(entries)| >= maxEntries)
      ensures victim.None? ==> entries == old(entries)[key := entry] && fired == old(fired)
      ensures victim.Some? ==>
                && IsOldest(old(entries), victim.value) && IsZero(old(entries)[victim.value].token)
                && entries == (old(entries) - {victim.value})[key := entry]
                && fired == old(fired) + multiset(CallbacksOf(old(entries), {victim.value}))
      ensures forall k :: k in entries && k != key ==> entries[k].token[..] == old(entries[k].token[..])
      ensures Tokens() <= old(Tokens()) + {entry.token} && AllZero(old(Tokens()) - Tokens())
    {
      victim := None;
      ghost var was := entries;
      if |entries| >= maxEntries {
        ghost var oldest := EvictOldest();
        victim := Some(oldest);
      }
      TokensUpdate(entries, was, key, entry);
      Insert(key, entry);
      DepartedTokens(was, entries, if victim.Some? then {victim.value} else {});
    }

    /** get: a snapshot with its own copy of the bytes; an expired entry is deleted instead. */
    method Get(key: K, now: int) returns (r: Option<Entry>)
      requires Valid()
      modifies this`entries, this`fired, set k | k in entries && k == key :: entries[k].token
      ensures Valid()
      ensures r.Some? <==> key in old(entries) && now <= old(entries)[key].deadline
      ensures r.Some? ==>
                && entries == old(entries) && fired == old(fired)
                && fresh(r.value.token) && r.value == entries[key].(token := r.value.token)
                && r.value.token[..] == entries[key].token[..] == old(entries[key].token[..])
      ensures r.None? ==> entries == old(entries) - {key}
      ensures r.None? && key in old(entries) ==> IsZero(old(entries)[key].token)
      ensures r.None? ==> fired == old(fired) + multiset(CallbacksOf(old(entries), {key}))
      ensures AllZero(old(Tokens()) - Tokens())
    {
      ghost var was := entries;
      if key !in entries {
        assert CallbacksOf(entries, {key}) == {};
        return None;
      }
      var e := entries[key];
      if Expired(e, now) {
        Delete(key);
        DepartedTokens(was, entries, {key});
        return None;
      }
      var copy := Clone(e.token);
      return Some(e.(token := copy));
    }

    /** Everything cached is what was last stored under its key. */
    ghost predicate Holds(ideal: map<K, Stored>)
      reads this, Tokens()
    {
      && Valid()
      && forall k :: k in entries ==>
           k in ideal && ideal[k] == Stored(entries[k].token[..], entries[k].deadline)
    }

    /** One eviction, as a caller that knows what is stored sees it. */
    method Drop(k: K, ghost ideal: map<K, Stored>)
      requires Holds(ideal) && k in entries
      modifies this`entries, this`fired, Tokens()
      ensures Holds(ideal) && Tokens() <= old(Tokens())
      ensures entries == old(entries) - {k} && IsZero(old(entries)[k].token)
      ensures old(entries)[k].token !in Tokens() && AllZero(old(Tokens()) - Tokens())
      ensures fired == old(fired) + multiset(CallbacksOf(old(entries), {k}))
    {
      ghost var was := entries;
      Evict(k);
      TokensShrink(entries, was);
      DepartedTokens(was, entries, {k});
    }

    /** Many evictions, likewise. */
    method DropAll(victims: set<K>, ghost ideal: map<K, Stored>)
      requires Holds(ideal) && victims <= entries.Keys
      modifies this`entries, this`fired, Tokens()
      ensures Holds(ideal) && Tokens() <= old(Tokens())
      ensures entries == old(entries) - victims
      ensures forall k :: k in victims ==> IsZero(old(entries)[k].token)
      ensures AllZero(old(Tokens()) - Tokens())
      ensures fired == old(fired) + multiset(CallbacksOf(old(entries), victims))
    {
      ghost var was := entries;
      EvictAll(victims);
      TokensShrink(entries, was);
      DepartedTokens(was, entries, victims);
    }

    /** get, as its caller sees it: what was last stored under the key, before its deadline. */
    method Lookup(key: K, now: int, ghost ideal: map<K, Stored>) returns (r: Option<Entry>)
      requires Holds(ideal)
      modifies this`entries, this`fired, Tokens()
      ensures Holds(ideal) && Tokens() <= old(Tokens()) && AllZero(old(Tokens()) - Tokens())
      ensures r.Some? <==> key in old(entries) && now <= old(entries)[key].deadline
      ensures r.Some? ==> entries == old(entries) && fired == old(fired)
      ensures r.None? ==> Missed(old(entries), entries, maxEntries, key, now, old(fired), fired)
      ensures r.Some? ==>
                && fresh(r.value.token) && key in ideal && now <= r.value.deadline
                && ideal[key] == Stored(r.value.token[..], r.value.deadline)
    {
      ghost var was := entries;
      CallbackOfOne(fired, entries, key);
      r := Get(key, now);
      TokensShrink(entries, was);
    }

    /** set, likewise. */
    method Keep(key: K, entry: Entry, ghost ideal: map<K, Stored>) returns (ghost victim: Option<K>)
      requires Holds(ideal) && entry.token !in Tokens()
      modifies this`entries, this`fired, this`owner, Tokens()
      ensures Holds(ideal[key := Stored(old(entry.token[..]), entry.deadline)])
      ensures key in entries && entries[key] == entry
      ensures Tokens() <= old(Tokens()) + {entry.token} && AllZero(old(Tokens()) - Tokens())
      ensures Turnover(old(entries), entries, key, victim)
      ensures CrowdedOut(old(entries), maxEntries, key, victim)
      ensures fired == WithCallback(old(fired), old(entries), victim)
    {
      ghost var kept := ideal[key := Stored(entry.token[..], entry.deadline)];
      victim := Set(key, entry);
      if victim.Some? {
        CallbackOfOne(old(fired), old(entries), victim.value);
      }
      forall k | k in entries ensures k in kept && kept[k] == Stored(entries[k].token[..], entries[k].deadline) {
        if k != key {
          assert ideal[k] == Stored(old(entries[k].token[..]), old(entries[k].deadline));
        }
      }
    }

    /** set, of a copy of the token, whose deadline is counted from one clock reading; another stamps the entry. */
    method StoreCopy(key: K, token: array<byte>, ttl: int, stamp: int, inserted: int, ghost ideal: map<K, Stored>)
      returns (ghost copy: array<byte>, ghost stored: Stored, ghost victim: Option<K>)
      requires Holds(ideal) && token !in Tokens()
      modifies this`entries, this`fired, this`owner, Tokens()
      ensures Holds(ideal[key := stored])
      ensures fresh(copy) && Tokens() <= old(Tokens()) + {copy} && token !in Tokens()
      ensures token[..] == old(token[..]) && stored == Stored(token[..], stamp + ttl)
      ensures key in entries && entries[key] == Entry(copy, stamp + ttl, inserted, None)
      ensures AllZero(old(Tokens()) - Tokens())
      ensures Turnover(old(entries), entries, key, victim)
      ensures CrowdedOut(old(entries), maxEntries, key, victim)
      ensures fired == WithCallback(old(fired), old(entries), victim)
    {
      var kept := Clone(token);
      copy, stored := kept, Stored(token[..], stamp + ttl);
      victim := Keep(key, Entry(kept, stamp + ttl, inserted, None), ideal);
    }
  }
}
