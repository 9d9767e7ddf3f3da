// Listing and revoking cached tokens by truncated token ID and by actor
// (internal/broker/revoke.go, internal/broker/client.go).
module Revocation {
  import opened Basics
  import opened CacheKeys
  import opened TokenCache
  import opened Broker

  datatype Grant = Grant(provider: string, actorHmac: string, tokenId: string, expiresAt: int, insertedAt: int)

  const TOKEN_ID_LENGTH: nat := 12

  /** hashID can be cut to a token ID: an empty key gives an 11-character constant instead. */
  ghost predicate CanIdentify(h: Hasher) {
    h.Valid() && |h.key| > 0
  }

  /** deriveScopedTokenID. */
  function TokenID(h: Hasher, key: string): (id: string)
    requires CanIdentify(h)
  {
    h.HashID(key)[..TOKEN_ID_LENGTH]
  }

  function LiveKeys(m: map<string, Entry>, now: int): (keys: set<string>)
  {
    set k | k in m && now <= m[k].deadline
  }

  function GrantOf(h: Hasher, key: string, e: Entry): (g: Grant)
    requires CanIdentify(h)
  {
    Grant(Split(key)[0], h.HashID(ActorOf(key)), TokenID(h, key), e.deadline, e.insertedAt)
  }

  ghost predicate Distinct(s: seq<string>) {
    forall i, j :: 0 <= i < j < |s| ==> s[i] != s[j]
  }

  ghost function KeysOf(s: seq<string>): (keys: set<string>)
  {
    set i | 0 <= i < |s| :: s[i]
  }

  lemma {:induction false} DistinctSize(s: seq<string>)
    requires Distinct(s)
    ensures |KeysOf(s)| == |s|
  {
    if s == [] {
      assert KeysOf(s) == {};
    } else {
      var n := |s| - 1;
      DistinctSize(s[..n]);
      assert KeysOf(s) == KeysOf(s[..n]) + {s[n]} by {
        forall k | k in KeysOf(s) ensures k in KeysOf(s[..n]) + {s[n]} {
          var i :| 0 <= i < |s| && s[i] == k;
          assert i < n ==> s[..n][i] == k;
        }
      }
      assert s[n] !in KeysOf(s[..n]);
    }
  }

  lemma SubsetOfSameSize(small: set<string>, big: set<string>)
    requires small <= big && |small| == |big|
    ensures small == big
  {
    if k :| k in big && k !in small {
      SubsetSize(small + {k}, big);
    }
  }

  /** One grant per live entry. */
  ghost predicate Lists(grants: seq<Grant>, keys: seq<string>, m: map<string, Entry>, h: Hasher)
    requires CanIdentify(h)
  {
    && |grants| == |keys| && Distinct(keys)
    && forall i :: 0 <= i < |keys| ==> keys[i] in m && grants[i] == GrantOf(h, keys[i], m[keys[i]])
  }

  /** Then there is a grant for every live entry, and no more of them than that. */
  lemma ListsAll(grants: seq<Grant>, keys: seq<string>, m: map<string, Entry>, h: Hasher, now: int)
    requires CanIdentify(h) && Lists(grants, keys, m, h) && KeysOf(keys) == LiveKeys(m, now)
    ensures |grants| == |LiveKeys(m, now)|
    ensures forall k :: k in LiveKeys(m, now) ==> GrantOf(h, k, m[k]) in grants
    ensures forall g :: g in grants ==> exists k :: k in LiveKeys(m, now) && g == GrantOf(h, k, m[k])
  {
    DistinctSize(keys);
    forall k | k in LiveKeys(m, now) ensures GrantOf(h, k, m[k]) in grants {
      assert k in KeysOf(keys);
      var i :| 0 <= i < |keys| && keys[i] == k;
      assert grants[i] in grants;
    }
    forall g | g in grants ensures exists k :: k in LiveKeys(m, now) && g == GrantOf(h, k, m[k]) {
      var i :| 0 <= i < |grants| && grants[i] == g;
      assert keys[i] in KeysOf(keys);
    }
  }

  /**
   * What a grant tells about the entry of a request: its provider, the hash of its actor and the entry's two times as
   * they are, and for an ID the first 12 digits of the hash of the whole key, by which it can be revoked.
   */
  lemma GrantTells(h: Hasher, f: Fields, e: Entry)
    requires CanIdentify(h) && FieldsNulFree(f)
    ensures var g := GrantOf(h, CacheKey(f), e);
            && g.provider == f.provider && g.actorHmac == h.HashID(f.actor)
            && g.expiresAt == e.deadline && g.insertedAt == e.insertedAt
            && g.tokenId <= h.HashID(CacheKey(f)) && |g.tokenId| == 12
  {
    KeyRoundTrip(f);
  }

  /** ListGrants: a grant for every live entry and for no other, in arbitrary order. */
  method ListGrants(b: BrokerImpl, now: int) returns (grants: seq<Grant>)
    requires CanIdentify(b.hasher)
    ensures |grants| == |LiveKeys(b.cache.entries, now)|
    ensures forall k :: k in LiveKeys(b.cache.entries, now) ==> GrantOf(b.hasher, k, b.cache.entries[k]) in grants
    ensures forall g :: g in grants ==>
              exists k :: k in LiveKeys(b.cache.entries, now) && g == GrantOf(b.hasher, k, b.cache.entries[k])
  {
    ghost var keys;
    grants, keys := ScanGrants(b, now);
    ListsAll(grants, keys, b.cache.entries, b.hasher, now);
  }

  /** Its loop, with the key each grant is for. */
  method ScanGrants(b: BrokerImpl, now: int) returns (grants: seq<Grant>, ghost keys: seq<string>)
    requires CanIdentify(b.hasher)
    ensures Lists(grants, keys, b.cache.entries, b.hasher)
    ensures KeysOf(keys) == LiveKeys(b.cache.entries, now)
  {
    grants, keys := [], [];
    var m := b.cache.entries;
    var todo := m.Keys;
    while todo != {}
      invariant todo <= m.Keys
      invariant Lists(grants, keys, m, b.hasher)
      invariant KeysOf(keys) == LiveKeys(m, now) - todo
      decreases todo
    {
      var k :| k in todo;
      todo := todo - {k};
      if !Expired(m[k], now) {
        var g := MakeGrant(b.hasher, k, m[k]);
        KeysOfSnoc(keys, k);
        keys, grants := keys + [k], grants + [g];
      }
    }
  }

  method MakeGrant(h: Hasher, key: string, e: Entry) returns (g: Grant)
    requires CanIdentify(h)
    ensures g == GrantOf(h, key, e)
  {
    var provider := ExtractProviderFromKey(key);
    var parts := SplitKey(key);
    var actor := if |parts| >= 3 then parts[2] else "";
    return Grant(provider, h.HashID(actor), TokenID(h, key), e.deadline, e.insertedAt);
  }

  lemma KeysOfSnoc(keys: seq<string>, k: string)
    ensures KeysOf(keys + [k]) == KeysOf(keys) + {k}
    ensures Distinct(keys) && k !in KeysOf(keys) ==> Distinct(keys + [k])
  {
    forall x | x in KeysOf(keys) + {k} ensures x in KeysOf(keys + [k]) {
      if x == k {
        assert (keys + [k])[|keys|] == k;
      } else {
        var i :| 0 <= i < |keys| && keys[i] == x;
        assert (keys + [k])[i] == x;
      }
    }
    if Distinct(keys) && k !in KeysOf(keys) {
      forall i, j | 0 <= i < j < |keys + [k]| ensures (keys + [k])[i] != (keys + [k])[j] {
        assert keys[i] in KeysOf(keys);
      }
    }
  }

  /** The scan of revokeByTokenID: some live key with this ID, if there is one. */
  method FindToken(b: BrokerImpl, tokenID: string, now: int) returns (hit: Option<string>)
    requires CanIdentify(b.hasher)
    ensures hit.None? ==> forall k :: k in LiveKeys(b.cache.entries, now) ==> TokenID(b.hasher, k) != tokenID
    ensures hit.Some? ==>
              hit.value in LiveKeys(b.cache.entries, now) && TokenID(b.hasher, hit.value) == tokenID
  {
    var m := b.cache.entries;
    var todo := m.Keys;
    while todo != {}
      invariant todo <= m.Keys
      invariant forall k :: k in LiveKeys(m, now) && k !in todo ==> TokenID(b.hasher, k) != tokenID
      decreases todo
    {
      var k :| k in todo;
      todo := todo - {k};
      if !Expired(m[k], now) && TokenID(b.hasher, k) == tokenID {
        return Some(k);
      }
    }
    return None;
  }

  /** What is left after one token is revoked, and what is on record about it. */
  ghost predicate RevokedOne(h: Hasher, key: string, tokenID: string, before: seq<AuditEvent>, after: seq<AuditEvent>) {
    after == before || after == before + [RevokedEvent(tokenID, Split(key)[0], h.HashID(ActorOf(key)))]
  }

  /** revokeByTokenID: removes one live entry with this ID, if there is one; the event is best effort. */
  method RevokeByTokenID(b: BrokerImpl, tokenID: string, now: int)
    returns (r: Option<BrokerError>, ghost victim: string)
    requires b.Valid() && CanIdentify(b.hasher)
    modifies b`audit, b`faults, b.cache`entries, b.cache`fired, b.cache.Tokens()
    ensures b.Valid() && b.cache.Tokens() <= old(b.cache.Tokens())
    ensures AllZero(old(b.cache.Tokens()) - b.cache.Tokens())
    ensures Deliveries(b.audit) == Deliveries(old(b.audit))
    ensures r.Some? ==>
              && r.value == TokenNotFound && b.cache.entries == old(b.cache.entries) && b.audit == old(b.audit)
              && b.cache.fired == old(b.cache.fired)
              && forall k :: k in LiveKeys(b.cache.entries, now) ==> TokenID(b.hasher, k) != tokenID
    ensures r.None? ==>
              && victim in LiveKeys(old(b.cache.entries), now) && TokenID(b.hasher, victim) == tokenID
              && b.cache.entries == old(b.cache.entries) - {victim}
              && IsZero(old(b.cache.entries)[victim].token)
              && old(b.cache.entries)[victim].token !in b.cache.Tokens()
              && b.cache.fired == old(b.cache.fired) + multiset(CallbacksOf(old(b.cache.entries), {victim}))
              && RevokedOne(b.hasher, victim, tokenID, old(b.audit), b.audit)
              && (b.hasEmitter && b.faults == old(b.faults) <==> b.audit != old(b.audit))
    ensures b.faults >= old(b.faults)
  {
    var hit := FindToken(b, tokenID, now);
    if hit.None? || hit.value == "" {
      return Some(TokenNotFound), "";
    }
    victim := hit.value;
    b.cache.Drop(hit.value, b.ideal);
    RecordRevocation(b, tokenID, hit.value);
    return None, victim;
  }

  /** The audit event of a revocation, best effort. */
  method RecordRevocation(b: BrokerImpl, tokenID: string, key: string)
    modifies b`audit, b`faults
    ensures RevokedOne(b.hasher, key, tokenID, old(b.audit), b.audit)
    ensures b.faults >= old(b.faults) && (b.hasEmitter && b.faults == old(b.faults) <==> b.audit != old(b.audit))
    ensures Deliveries(b.audit) == Deliveries(old(b.audit))
  {
    var parts := SplitKey(key);
    var provider := if |parts| >= 1 then parts[0] else "";
    var actor := if |parts| >= 3 then parts[2] else "";
    if b.hasEmitter {
      DeliveriesSnoc(b.audit, RevokedEvent(tokenID, provider, b.hasher.HashID(actor)));
      var ok := b.Emit(RevokedEvent(tokenID, provider, b.hasher.HashID(actor)));
    }
  }

  /** The live entries whose actor hashes like this one; all of them for the empty actor. */
  function Targets(h: Hasher, m: map<string, Entry>, actor: string, now: int): (keys: set<string>)
  {
    set k | k in LiveKeys(m, now) && (actor == "" || h.HashID(ActorOf(k)) == h.HashID(actor))
  }

  /** `removed` are distinct live entries with, in turn, these token IDs. */
  ghost predicate Matches(h: Hasher, removed: seq<string>, ids: seq<string>, live: set<string>)
    requires CanIdentify(h)
  {
    && Distinct(removed) && KeysOf(removed) <= live && |removed| == |ids|
    && forall i :: 0 <= i < |ids| ==> TokenID(h, removed[i]) == ids[i]
  }

  ghost function WithoutFirst(s: seq<string>, k: string): (rest: seq<string>)
    requires s != []
  {
    seq(|s| - 1, i requires 0 <= i < |s| - 1 => if s[i + 1] == k then s[0] else s[i + 1])
  }

  /**
   * The entries still owed can be renamed as tokens are removed: if a removed entry was owed to a later
   * ID, the entry owed to this one, which shares its ID, takes its place.
   */
  lemma StillOwed(h: Hasher, owed: seq<string>, ids: seq<string>, live: set<string>, k: string)
    requires CanIdentify(h) && ids != [] && Matches(h, owed, ids, live) && k in live && TokenID(h, k) == ids[0]
    ensures Matches(h, WithoutFirst(owed, k), ids[1..], live - {k})
  {
  }

  method SelectIDs(b: BrokerImpl, actor: string, now: int) returns (ids: seq<string>, ghost targets: seq<string>)
    requires CanIdentify(b.hasher)
    ensures KeysOf(targets) == Targets(b.hasher, b.cache.entries, actor, now)
    ensures Matches(b.hasher, targets, ids, LiveKeys(b.cache.entries, now))
  {
    ghost var keys;
    var grants;
    grants, keys := ScanGrants(b, now);
    ids, targets := [], [];
    for i := 0 to |grants|
      invariant KeysOf(targets) == set k | k in KeysOf(keys[..i]) && k in Targets(b.hasher, b.cache.entries, actor, now)
      invariant Matches(b.hasher, targets, ids, LiveKeys(b.cache.entries, now))
    {
      KeysOfSnoc(keys[..i], keys[i]);
      assert keys[..i + 1] == keys[..i] + [keys[i]];
      assert keys[i] in KeysOf(keys);
      if actor == "" || grants[i].actorHmac == b.hasher.HashID(actor) {
        KeysOfSnoc(targets, keys[i]);
        ids, targets := ids + [grants[i].tokenId], targets + [keys[i]];
      }
    }
    assert keys[..|grants|] == keys;
  }

  /**
   * revokeAllForActor: as many live entries are removed as there are targets, and their IDs are the targets'
   * IDs; nothing else changes.
   */
  method RevokeAll(b: BrokerImpl, actor: string, now: int)
    returns (count: nat, ghost targets: seq<string>, ghost removed: seq<string>)
    requires b.Valid() && CanIdentify(b.hasher)
    modifies b`audit, b`faults, b.cache`entries, b.cache`fired, b.cache.Tokens()
    ensures b.Valid() && b.cache.Tokens() <= old(b.cache.Tokens())
    ensures AllZero(old(b.cache.Tokens()) - b.cache.Tokens())
    ensures Deliveries(b.audit) == Deliveries(old(b.audit))
    ensures KeysOf(targets) == Targets(b.hasher, old(b.cache.entries), actor, now) && Distinct(targets)
    ensures Picks(b.hasher, LiveKeys(old(b.cache.entries), now), IDsOf(b.hasher, targets), removed)
    ensures b.cache.entries == old(b.cache.entries) - KeysOf(removed)
    ensures forall k :: k in KeysOf(removed) ==> k in old(b.cache.entries) && IsZero(old(b.cache.entries)[k].token)
    ensures count == |targets|
    ensures b.faults >= old(b.faults)
  {
    var ids;
    ids, targets := SelectIDs(b, actor, now);
    assert ids == IDsOf(b.hasher, targets);
    ghost var live := LiveKeys(b.cache.entries, now);
    ghost var was, owner := b.cache.entries, b.cache.owner;
    count, removed := RevokeIDs(b, ids, now, targets);
    PicksAreMatches(b.hasher, live, ids, targets, removed);
    forall k | k in KeysOf(removed) ensures k in was && IsZero(was[k].token) {
      RemovedTokenGone(was, owner, b.cache.entries, k);
    }
  }

  /** The loop of revokeAllForActor. */
  method RevokeIDs(b: BrokerImpl, ids: seq<string>, now: int, ghost targets: seq<string>)
    returns (count: nat, ghost removed: seq<string>)
    requires b.Valid() && CanIdentify(b.hasher)
    requires Matches(b.hasher, targets, ids, LiveKeys(b.cache.entries, now))
    modifies b`audit, b`faults, b.cache`entries, b.cache`fired, b.cache.Tokens()
    ensures b.Valid() && b.cache.Tokens() <= old(b.cache.Tokens())
    ensures AllZero(old(b.cache.Tokens()) - b.cache.Tokens())
    ensures Deliveries(b.audit) == Deliveries(old(b.audit))
    ensures Matches(b.hasher, removed, ids, LiveKeys(old(b.cache.entries), now))
    ensures b.cache.entries == old(b.cache.entries) - KeysOf(removed)
    ensures count == |ids|
    ensures b.faults >= old(b.faults)
  {
    count, removed := 0, [];
    ghost var was, owed, delivered := b.cache.entries, targets, Deliveries(b.audit);
    ghost var start := b.cache.Tokens();
    for i := 0 to |ids|
      invariant b.Valid() && b.cache.Tokens() <= start && AllZero(start - b.cache.Tokens())
      invariant count == i && Deliveries(b.audit) == delivered && b.faults >= old(b.faults)
      invariant Progress(b.hasher, was, b.cache.entries, removed, owed, ids, i, now)
    {
      assert owed[0] in KeysOf(owed) && TokenID(b.hasher, owed[0]) == ids[i];
      ghost var m := b.cache.entries;
      var err;
      ghost var victim;
      err, victim := RevokeNext(b, ids[i], now, start);
      if err.None? {
        count := count + 1;
      }
      ProgressStep(b.hasher, was, m, removed, owed, ids, i, now, victim);
      owed, removed := WithoutFirst(owed, victim), removed + [victim];
    }
    assert ids[..|ids|] == ids;
  }

  /** One turn of the loop: nothing zeroed before is touched again. */
  method RevokeNext(b: BrokerImpl, tokenID: string, now: int, ghost start: set<array<byte>>)
    returns (r: Option<BrokerError>, ghost victim: string)
    requires b.Valid() && CanIdentify(b.hasher) && b.cache.Tokens() <= start && AllZero(start - b.cache.Tokens())
    requires exists k :: k in LiveKeys(b.cache.entries, now) && TokenID(b.hasher, k) == tokenID
    modifies b`audit, b`faults, b.cache`entries, b.cache`fired, b.cache.Tokens()
    ensures b.Valid() && b.cache.Tokens() <= start && AllZero(start - b.cache.Tokens())
    ensures Deliveries(b.audit) == Deliveries(old(b.audit))
    ensures r.None? && victim in LiveKeys(old(b.cache.entries), now) && TokenID(b.hasher, victim) == tokenID
    ensures b.cache.entries == old(b.cache.entries) - {victim} && b.cache.Tokens() <= old(b.cache.Tokens())
    ensures b.faults >= old(b.faults)
  {
    r, victim := RevokeByTokenID(b, tokenID, now);
  }

  /** After i IDs: what was removed, and an entry still owed to each remaining ID. */
  ghost predicate Progress(
    h: Hasher, was: map<string, Entry>, m: map<string, Entry>,
    removed: seq<string>, owed: seq<string>, ids: seq<string>, i: nat, now: int)
    requires CanIdentify(h) && i <= |ids|
  {
    && m == was - KeysOf(removed)
    && Matches(h, removed, ids[..i], LiveKeys(was, now))
    && Matches(h, owed, ids[i..], LiveKeys(m, now))
  }

  lemma ProgressStep(
    h: Hasher, was: map<string, Entry>, m: map<string, Entry>,
    removed: seq<string>, owed: seq<string>, ids: seq<string>, i: nat, now: int, k: string)
    requires CanIdentify(h) && i < |ids| && Progress(h, was, m, removed, owed, ids, i, now)
    requires k in LiveKeys(m, now) && TokenID(h, k) == ids[i]
    ensures Progress(h, was, m - {k}, removed + [k], WithoutFirst(owed, k), ids, i + 1, now)
  {
    var live := LiveKeys(m, now);
    StillOwed(h, owed, ids[i..], live, k);
    KeysOfSnoc(removed, k);
    assert ids[i..][1..] == ids[i + 1..];
    assert LiveKeys(m - {k}, now) == live - {k};
    assert ids[..i + 1] == ids[..i] + [ids[i]];
  }

  function IDsOf(h: Hasher, keys: seq<string>): (ids: seq<string>)
    requires CanIdentify(h)
    ensures |ids| == |keys| && forall i :: 0 <= i < |keys| ==> ids[i] == TokenID(h, keys[i])
  {
    seq(|keys|, i requires 0 <= i < |keys| => TokenID(h, keys[i]))
  }

  /** A run of revokeByTokenID over these IDs: each removes any live entry with its ID, or nothing if there is none. */
  ghost predicate Picks(h: Hasher, live: set<string>, ids: seq<string>, removed: seq<string>)
    requires CanIdentify(h)
    decreases |ids|
  {
    if ids == [] then removed == []
    else if forall k :: k in live ==> TokenID(h, k) != ids[0] then Picks(h, live, ids[1..], removed)
    else
      && removed != [] && removed[0] in live && TokenID(h, removed[0]) == ids[0]
      && Picks(h, live - {removed[0]}, ids[1..], removed[1..])
  }

  lemma MatchesTail(h: Hasher, removed: seq<string>, ids: seq<string>, live: set<string>)
    requires CanIdentify(h) && ids != [] && Matches(h, removed, ids, live)
    ensures removed[0] in live && TokenID(h, removed[0]) == ids[0]
    ensures Matches(h, removed[1..], ids[1..], live - {removed[0]})
  {
    var rest := removed[1..];
    assert removed[0] in KeysOf(removed);
    forall x | x in KeysOf(rest) ensures x in live - {removed[0]} {
      var i :| 0 <= i < |rest| && rest[i] == x;
      assert removed[i + 1] == x && x in KeysOf(removed);
    }
  }

  lemma MatchesCons(h: Hasher, first: string, rest: seq<string>, ids: seq<string>, live: set<string>)
    requires CanIdentify(h) && ids != [] && first in live && TokenID(h, first) == ids[0]
    requires Matches(h, rest, ids[1..], live - {first})
    ensures Matches(h, [first] + rest, ids, live)
  {
    var removed := [first] + rest;
    forall i, j | 0 <= i < j < |removed| ensures removed[i] != removed[j] {
      assert rest[j - 1] in KeysOf(rest);
      assert i > 0 ==> rest[i - 1] != rest[j - 1];
    }
    forall x | x in KeysOf(removed) ensures x in live {
      var i :| 0 <= i < |removed| && removed[i] == x;
      assert i > 0 ==> rest[i - 1] in KeysOf(rest);
    }
    forall i | 0 <= i < |ids| ensures TokenID(h, removed[i]) == ids[i] {
      assert i > 0 ==> ids[i] == ids[1..][i - 1] && removed[i] == rest[i - 1];
    }
  }

  /** With an entry owed to every ID no scan comes up empty, and the runs are exactly the matching removals. */
  lemma {:induction false} PicksAreMatches(
    h: Hasher, live: set<string>, ids: seq<string>, owed: seq<string>, removed: seq<string>)
    requires CanIdentify(h) && Matches(h, owed, ids, live)
    ensures Picks(h, live, ids, removed) <==> Matches(h, removed, ids, live)
    decreases |ids|
  {
    if ids != [] {
      assert owed[0] in KeysOf(owed);
      if Matches(h, removed, ids, live) {
        MatchesTail(h, removed, ids, live);
      }
      if removed != [] && removed[0] in live && TokenID(h, removed[0]) == ids[0] {
        var k := removed[0];
        StillOwed(h, owed, ids, live, k);
        PicksAreMatches(h, live - {k}, ids[1..], WithoutFirst(owed, k), removed[1..]);
        if Picks(h, live, ids, removed) {
          MatchesCons(h, k, removed[1..], ids, live);
          assert removed == [k] + removed[1..];
        }
      }
    }
  }

  /** No live entry outside the targets shares a token ID with one of them. */
  ghost predicate NoForeignCollision(h: Hasher, targets: set<string>, live: set<string>)
    requires CanIdentify(h)
  {
    forall t, k :: t in targets && k in live && k !in targets ==> TokenID(h, t) != TokenID(h, k)
  }

  /** The targets are live entries, each listed once. */
  ghost predicate Selected(targets: seq<string>, live: set<string>) {
    Distinct(targets) && KeysOf(targets) <= live
  }

  lemma SelectedMatch(h: Hasher, targets: seq<string>, live: set<string>)
    requires CanIdentify(h) && Selected(targets, live)
    ensures Matches(h, targets, IDsOf(h, targets), live)
    ensures forall removed ::
              Picks(h, live, IDsOf(h, targets), removed) <==> Matches(h, removed, IDsOf(h, targets), live)
  {
    forall removed
      ensures Picks(h, live, IDsOf(h, targets), removed) <==> Matches(h, removed, IDsOf(h, targets), live)
    {
      PicksAreMatches(h, live, IDsOf(h, targets), targets, removed);
    }
  }

  /** Every run removes exactly the targets. */
  ghost predicate AlwaysRemoves(h: Hasher, live: set<string>, targets: seq<string>, keys: set<string>)
    requires CanIdentify(h)
  {
    forall removed :: Picks(h, live, IDsOf(h, targets), removed) ==> KeysOf(removed) == keys
  }

  /** Every run removes the targets, whichever entry each scan meets first, exactly when no ID collides. */
  lemma RemovesTheTargetsIff(h: Hasher, live: set<string>, targets: seq<string>)
    requires CanIdentify(h) && Selected(targets, live)
    ensures AlwaysRemoves(h, live, targets, KeysOf(targets)) <==> NoForeignCollision(h, KeysOf(targets), live)
  {
    SelectedMatch(h, targets, live);
    if NoForeignCollision(h, KeysOf(targets), live) {
      forall removed | Picks(h, live, IDsOf(h, targets), removed) ensures KeysOf(removed) == KeysOf(targets) {
        NoCollisionNoLoss(h, removed, targets, live);
      }
    } else {
      var t, k :| t in KeysOf(targets) && k in live && k !in KeysOf(targets) && TokenID(h, t) == TokenID(h, k);
      var removed := WrongPick(h, live, targets, t, k);
    }
  }

  /** A run that removes an outsider in the place of a target with the same ID. */
  lemma WrongPick(h: Hasher, live: set<string>, targets: seq<string>, t: string, k: string)
    returns (removed: seq<string>)
    requires CanIdentify(h) && Selected(targets, live)
    requires t in KeysOf(targets) && k in live && k !in KeysOf(targets) && TokenID(h, t) == TokenID(h, k)
    ensures Picks(h, live, IDsOf(h, targets), removed) && k in KeysOf(removed)
  {
    var i :| 0 <= i < |targets| && targets[i] == t;
    removed := targets[i := k];
    assert removed[i] == k;
    forall x | x in KeysOf(removed) ensures x in live {
      var j :| 0 <= j < |removed| && removed[j] == x;
      assert j != i ==> targets[j] in KeysOf(targets);
    }
    forall j | 0 <= j < |targets| ensures targets[j] != k {
      assert targets[j] in KeysOf(targets);
    }
    SelectedMatch(h, targets, live);
  }

  lemma NoCollisionNoLoss(h: Hasher, removed: seq<string>, targets: seq<string>, live: set<string>)
    requires CanIdentify(h) && Selected(targets, live)
    requires Matches(h, removed, IDsOf(h, targets), live) && NoForeignCollision(h, KeysOf(targets), live)
    ensures KeysOf(removed) == KeysOf(targets)
  {
    forall x | x in KeysOf(removed) ensures x in KeysOf(targets) {
      var i :| 0 <= i < |removed| && removed[i] == x;
      assert targets[i] in KeysOf(targets);
    }
    DistinctSize(removed);
    DistinctSize(targets);
    SubsetOfSameSize(KeysOf(removed), KeysOf(targets));
  }

  /** RevokeAll("") has every live entry for a target, so it removes them all even when IDs collide. */
  lemma EveryoneIsTargeted(h: Hasher, m: map<string, Entry>, removed: seq<string>, targets: seq<string>, now: int)
    requires CanIdentify(h) && Distinct(targets) && KeysOf(targets) == Targets(h, m, "", now)
    requires Picks(h, LiveKeys(m, now), IDsOf(h, targets), removed)
    ensures KeysOf(removed) == LiveKeys(m, now) && |targets| == |LiveKeys(m, now)|
  {
    assert Targets(h, m, "", now) == LiveKeys(m, now);
    SelectedMatch(h, targets, LiveKeys(m, now));
    NoCollisionNoLoss(h, removed, targets, LiveKeys(m, now));
    DistinctSize(targets);
  }

  /** The actor's own live entries. */
  ghost function EntriesOf(m: map<string, Entry>, actor: string, now: int): (keys: set<string>)
  {
    set k | k in LiveKeys(m, now) && ActorOf(k) == actor
  }

  /** No other actor with a live entry hashes like this one. */
  ghost predicate HashesApart(h: Hasher, m: map<string, Entry>, actor: string, now: int) {
    forall k :: k in LiveKeys(m, now) && h.HashID(ActorOf(k)) == h.HashID(actor) ==> ActorOf(k) == actor
  }

  /**
   * RevokeAll(actor) removes exactly the actor's live entries, whichever entry each scan meets first, exactly when
   * no other live actor hashes alike and no other actor's live entry shares a token ID with one of them.
   */
  lemma ActorIsRevokedIff(h: Hasher, m: map<string, Entry>, actor: string, targets: seq<string>, now: int)
    requires CanIdentify(h) && actor != ""
    requires Distinct(targets) && KeysOf(targets) == Targets(h, m, actor, now)
    ensures AlwaysRemoves(h, LiveKeys(m, now), targets, EntriesOf(m, actor, now)) <==>
            HashesApart(h, m, actor, now) && NoForeignCollision(h, EntriesOf(m, actor, now), LiveKeys(m, now))
  {
    var live := LiveKeys(m, now);
    SelectedMatch(h, targets, live);
    RemovesTheTargetsIff(h, live, targets);
    assert HashesApart(h, m, actor, now) <==> Targets(h, m, actor, now) == EntriesOf(m, actor, now) by {
      if Targets(h, m, actor, now) == EntriesOf(m, actor, now) {
        forall k | k in live && h.HashID(ActorOf(k)) == h.HashID(actor) ensures ActorOf(k) == actor {
          assert k in Targets(h, m, actor, now);
        }
      }
    }
    if AlwaysRemoves(h, live, targets, EntriesOf(m, actor, now)) {
      assert Picks(h, live, IDsOf(h, targets), targets);
    }
  }

  /** With two live entries whose IDs collide, RevokeAll for the actor of one can remove the other's. */
  lemma OtherActorRevoked(h: Hasher, f: Fields, g: Fields, token: array<byte>, other: array<byte>)
    requires CanIdentify(h) && FieldsNulFree(f) && FieldsNulFree(g) && f.actor != "" && f.actor != g.actor
    requires h.HashID(f.actor) != h.HashID(g.actor) && TokenID(h, CacheKey(f)) == TokenID(h, CacheKey(g))
    ensures var mine, theirs := CacheKey(f), CacheKey(g);
            var m := map[mine := Entry(token, 1, 0, None), theirs := Entry(other, 1, 0, None)];
            && ActorOf(theirs) != f.actor && KeysOf([mine]) == Targets(h, m, f.actor, 0)
            && Picks(h, LiveKeys(m, 0), IDsOf(h, [mine]), [theirs])
  {
    KeyRoundTrip(f);
    KeyRoundTrip(g);
    var mine, theirs := CacheKey(f), CacheKey(g);
    assert FieldsOf(mine) == f && FieldsOf(theirs) == g;
    assert ActorOf(mine) == f.actor && ActorOf(theirs) == g.actor;
    var m := map[mine := Entry(token, 1, 0, None), theirs := Entry(other, 1, 0, None)];
    assert LiveKeys(m, 0) == {mine, theirs};
    assert [mine][0] in KeysOf([mine]) && KeysOf([mine]) == {mine};
    PickOne(h, {mine, theirs}, mine, theirs);
  }

  lemma PickOne(h: Hasher, live: set<string>, target: string, k: string)
    requires CanIdentify(h) && k in live && TokenID(h, k) == TokenID(h, target)
    ensures Picks(h, live, IDsOf(h, [target]), [k])
  {
    assert IDsOf(h, [target])[1..] == [] && [k][1..] == [];
  }

  const ZEROS: string := "00000000000000000000000000000000"
  const ONES: string := "11111111111111111111111111111111"

  /** A hash that tells the actor "a" from all else, and so gives every cache key the same ID. */
  ghost const Colliding: Hasher := Hasher([1], imap id: string | true :: if id == "a" then ZEROS else ONES)

  /** Under this table the condition of OtherActorRevoked holds. */
  lemma CollisionExists()
    ensures CanIdentify(Colliding)
    ensures var f, g := Fields("p", "c", "a", "s", "n"), Fields("p", "c", "b", "s", "n");
            && FieldsNulFree(f) && FieldsNulFree(g) && Colliding.HashID(f.actor) != Colliding.HashID(g.actor)
            && TokenID(Colliding, CacheKey(f)) == TokenID(Colliding, CacheKey(g))
  {
    var f, g := Fields("p", "c", "a", "s", "n"), Fields("p", "c", "b", "s", "n");
    assert ZEROS[0] != ONES[0];
    KeyIsLong(f);
    KeyIsLong(g);
  }

  lemma KeyIsLong(f: Fields)
    ensures |CacheKey(f)| > 1
  {
    var parts := PartsOf(f);
    assert parts[1..][1..] == parts[2..];
    assert Join(parts) == parts[0] + [NUL] + Join(parts[1..]);
    assert Join(parts[1..]) == parts[1] + [NUL] + Join(parts[2..]);
  }
}
