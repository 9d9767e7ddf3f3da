// The composite cache key of the token broker: five fields joined by NUL
// (internal/broker/broker.go, internal/broker/client.go, internal/broker/cache.go).
module CacheKeys {
  import opened Basics

  const NUL: char := '\0'

  datatype Fields = Fields(provider: string, capability: string, actor: string, session: string, namespace: string)

  predicate NulFree(s: string) {
    forall i :: 0 <= i < |s| ==> s[i] != NUL
  }

  predicate AllNulFree(parts: seq<string>) {
    forall i :: 0 <= i < |parts| ==> NulFree(parts[i])
  }

  function PartsOf(f: Fields): (parts: seq<string>)
  {
    [f.provider, f.capability, f.actor, f.session, f.namespace]
  }

  predicate FieldsNulFree(f: Fields) {
    AllNulFree(PartsOf(f))
  }

  /** strings.Join(parts, "\x00"). */
  function Join(parts: seq<string>): (key: string)
    requires parts != []
  {
    if |parts| == 1 then parts[0] else parts[0] + [NUL] + Join(parts[1..])
  }

  function CacheKey(f: Fields): (key: string)
  {
    Join(PartsOf(f))
  }

  /** Index of the first NUL, or |key| when there is none. */
  function FirstNul(key: string): (i: nat)
    ensures i <= |key|
    ensures forall k :: 0 <= k < i ==> key[k] != NUL
    ensures i < |key| ==> key[i] == NUL
  {
    if key == "" || key[0] == NUL then 0 else 1 + FirstNul(key[1..])
  }

  /** The parts between NULs; always at least one. */
  function Split(key: string): (parts: seq<string>)
    ensures parts != []
    decreases |key|
  {
    var i := FirstNul(key);
    if i == |key| then [key] else [key[..i]] + Split(key[i + 1..])
  }

  lemma FirstNulIs(key: string, i: nat)
    requires i <= |key| && (forall k :: 0 <= k < i ==> key[k] != NUL) && (i < |key| ==> key[i] == NUL)
    ensures FirstNul(key) == i
  {
  }

  lemma FirstNulUnique(head: string, rest: string)
    requires NulFree(head) && (rest == "" || rest[0] == NUL)
    ensures FirstNul(head + rest) == |head|
  {
    FirstNulIs(head + rest, |head|);
  }

  /** Cutting a key at its first NUL. */
  lemma SplitCons(head: string, rest: string)
    requires NulFree(head)
    ensures Split(head + [NUL] + rest) == [head] + Split(rest)
  {
    var key := head + [NUL] + rest;
    FirstNulIs(key, |head|);
    assert key[..|head|] == head && key[|head| + 1..] == rest;
  }

  lemma SplitWhole(key: string)
    requires NulFree(key)
    ensures Split(key) == [key]
  {
  }

  /** Round trip: splitting a key gives back NUL-free parts. */
  lemma {:induction false} SplitJoin(parts: seq<string>)
    requires parts != [] && AllNulFree(parts)
    ensures Split(Join(parts)) == parts
  {
    if |parts| == 1 {
      SplitWhole(parts[0]);
    } else {
      SplitCons(parts[0], Join(parts[1..]));
      SplitJoin(parts[1..]);
    }
  }

  /** Round trip the other way: any key is the join of its parts, and the parts are NUL-free. */
  lemma {:induction false} JoinSplit(key: string)
    ensures Join(Split(key)) == key && AllNulFree(Split(key))
    decreases |key|
  {
    var i := FirstNul(key);
    if i == |key| {
      assert key[..i] == key;
    } else {
      JoinSplit(key[i + 1..]);
      assert key == key[..i] + [NUL] + key[i + 1..];
      assert Split(key)[1..] == Split(key[i + 1..]);
    }
  }

  /** The fields a five-part key was built from. */
  function FieldsOf(key: string): (f: Fields)
    requires |Split(key)| == 5
  {
    var p := Split(key);
    Fields(p[0], p[1], p[2], p[3], p[4])
  }

  /** splitKey inverts cacheKey on NUL-free fields, so distinct fields get distinct keys. */
  lemma KeyRoundTrip(f: Fields)
    requires FieldsNulFree(f)
    ensures Split(CacheKey(f)) == PartsOf(f) && FieldsOf(CacheKey(f)) == f
  {
    SplitJoin(PartsOf(f));
  }

  /** With NULs in the fields two requests can share a key. */
  lemma KeysCollideWithNul()
    ensures exists f, g :: f != g && CacheKey(f) == CacheKey(g)
  {
    var f := Fields([NUL], "", "", "", "");
    var g := Fields("", [NUL], "", "", "");
    assert Join(["", ""]) == [NUL];
    assert Join(["", "", ""]) == [NUL, NUL];
    assert Join(["", "", "", ""]) == [NUL, NUL, NUL];
    assert Join([[NUL], "", "", ""]) == [NUL, NUL, NUL, NUL];
    assert CacheKey(f) == [NUL, NUL, NUL, NUL, NUL];
    assert CacheKey(g) == [NUL, NUL, NUL, NUL, NUL];
  }

  /** A NUL inside the last part is a separator. */
  lemma {:induction false} JoinLast(parts: seq<string>, x: string, y: string)
    ensures Join(parts + [x + [NUL] + y]) == Join(parts + [x, y])
  {
    if parts == [] {
      assert [x, y][1..] == [y];
      assert parts + [x + [NUL] + y] == [x + [NUL] + y] && parts + [x, y] == [x, y];
    } else {
      assert (parts + [x + [NUL] + y])[1..] == parts[1..] + [x + [NUL] + y];
      assert (parts + [x, y])[1..] == parts[1..] + [x, y];
      JoinLast(parts[1..], x, y);
    }
  }

  /** The parts found so far and the rest of the key, unsplit, still join to the key. */
  ghost predicate SplitUpTo(key: string, parts: seq<string>, start: nat) {
    start <= |key| && AllNulFree(parts) && Join(parts + [key[start..]]) == key
  }

  lemma SplitKeyStep(key: string, parts: seq<string>, start: nat, i: nat)
    requires start <= i < |key| && key[i] == NUL && forall k :: start <= k < i ==> key[k] != NUL
    requires SplitUpTo(key, parts, start)
    ensures SplitUpTo(key, parts + [key[start..i]], i + 1)
  {
    assert key[start..] == key[start..i] + [NUL] + key[i + 1..];
    JoinLast(parts, key[start..i], key[i + 1..]);
    assert parts + [key[start..i], key[i + 1..]] == parts + [key[start..i]] + [key[i + 1..]];
  }

  lemma SplitKeyEnd(key: string, parts: seq<string>, start: nat)
    requires SplitUpTo(key, parts, start) && forall k :: start <= k < |key| ==> key[k] != NUL
    ensures parts + [key[start..]] == Split(key)
  {
    SplitJoin(parts + [key[start..]]);
  }

  /** splitKey. */
  method SplitKey(key: string) returns (parts: seq<string>)
    ensures parts == Split(key)
  {
    parts := [];
    var start := 0;
    assert [] + [key[0..]] == [key];
    for i := 0 to |key|
      invariant 0 <= start <= i
      invariant forall k :: start <= k < i ==> key[k] != NUL
      invariant SplitUpTo(key, parts, start)
    {
      if key[i] == NUL {
        SplitKeyStep(key, parts, start, i);
        parts := parts + [key[start..i]];
        start := i + 1;
      }
    }
    SplitKeyEnd(key, parts, start);
    parts := parts + [key[start..]];
  }

  /** extractProviderFromKey. */
  method ExtractProviderFromKey(key: string) returns (provider: string)
    ensures provider == Split(key)[0]
  {
    for i := 0 to |key|
      invariant NulFree(key[..i])
    {
      if key[i] == NUL {
        assert key == key[..i] + [NUL] + key[i + 1..];
        SplitCons(key[..i], key[i + 1..]);
        return key[..i];
      }
    }
    assert key[..|key|] == key;
    SplitWhole(key);
    return key;
  }

  /** extractActorFromKey. */
  function ActorOf(key: string): (actor: string)
  {
    var parts := Split(key);
    if |parts| >= 3 then parts[2] else ""
  }

  /** What deleteBySession looks for: the ID between two separators. */
  function Marker(id: string): (m: string)
  {
    [NUL] + id + [NUL]
  }

  predicate IsMiddlePart(parts: seq<string>, id: string) {
    exists j :: 0 < j < |parts| - 1 && parts[j] == id
  }

  /** id followed by a separator starts the join exactly when id is the first of several parts. */
  lemma PrefixIsFirstPart(parts: seq<string>, id: string)
    requires parts != [] && AllNulFree(parts) && NulFree(id)
    ensures id + [NUL] <= Join(parts) <==> |parts| > 1 && parts[0] == id
  {
    var key := Join(parts);
    if id + [NUL] <= key {
      assert key[|id|] == NUL;
      assert key == id + key[|id|..];
      FirstNulUnique(id, key[|id|..]);
      SplitJoin(parts);
      assert Split(key)[0] == key[..|id|] == id;
    }
  }

  lemma OccurrenceBeyond(head: string, rest: string, id: string, i: nat)
    requires NulFree(head)
    ensures OccursAt(head + [NUL] + rest, Marker(id), i) <==>
              (i == |head| && id + [NUL] <= rest) || (i > |head| && OccursAt(rest, Marker(id), i - |head| - 1))
  {
    var text := head + [NUL] + rest;
    var m := Marker(id);
    if i + |m| <= |text| {
      var piece := text[i..i + |m|];
      if i < |head| {
        assert piece[0] == head[i] && m[0] == NUL;
        assert piece != m;
      } else if i == |head| {
        assert piece == [NUL] + rest[..|m| - 1];
        assert m == [NUL] + (id + [NUL]);
        assert piece[1..] == rest[..|m| - 1] && m[1..] == id + [NUL];
      } else {
        var k := i - |head| - 1;
        assert piece == rest[k..k + |m|];
      }
    }
  }

  /** The marker occurs in a key exactly when the ID is one of its inner parts. */
  lemma {:induction false} MarkerMeansMiddlePart(parts: seq<string>, id: string)
    requires parts != [] && AllNulFree(parts) && NulFree(id)
    ensures Contains(Join(parts), Marker(id)) <==> IsMiddlePart(parts, id)
  {
    var key, m := Join(parts), Marker(id);
    if |parts| == 1 {
      assert m[0] == NUL;
      assert forall i: nat :: i + |m| <= |key| ==> key[i..i + |m|][0] == key[i];
    } else {
      var rest := Join(parts[1..]);
      MarkerMeansMiddlePart(parts[1..], id);
      PrefixIsFirstPart(parts[1..], id);
      forall i: nat
        ensures OccursAt(key, m, i) <==>
                  (i == |parts[0]| && id + [NUL] <= rest) || (i > |parts[0]| && OccursAt(rest, m, i - |parts[0]| - 1))
      {
        OccurrenceBeyond(parts[0], rest, id, i);
      }
      if Contains(rest, m) {
        var k: nat :| k <= |rest| && OccursAt(rest, m, k);
        assert OccursAt(key, m, |parts[0]| + 1 + k);
        var j :| 0 < j < |parts[1..]| - 1 && parts[1..][j] == id;
        assert parts[j + 1] == id;
      }
      if id + [NUL] <= rest {
        assert OccursAt(key, m, |parts[0]|);
        assert parts[1] == id;
      }
      if IsMiddlePart(parts, id) {
        var j :| 0 < j < |parts| - 1 && parts[j] == id;
        if j > 1 {
          assert parts[1..][j - 1] == id;
        }
      }
    }
  }

  /** deleteBySession's test on a cache key: the ID equals the capability, the actor or the session. */
  lemma SessionMatch(f: Fields, id: string)
    requires FieldsNulFree(f) && NulFree(id)
    ensures Contains(CacheKey(f), Marker(id)) <==> id == f.capability || id == f.actor || id == f.session
  {
    var parts := PartsOf(f);
    MarkerMeansMiddlePart(parts, id);
    assert parts[1] == f.capability && parts[2] == f.actor && parts[3] == f.session;
  }
}
