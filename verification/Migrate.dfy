// The cipher migration (internal/cli/migrate_cmd.go): every stored version is re-encrypted under a
// new term and algorithm, with backups and a rollback; any read, write or metadata update may fail.
module Migrate {
  import opened Basics
  import opened Vault

  const XCHACHA: string := "xchacha20-poly1305"
  const AESGCM: string := "aes-256-gcm"

  /** storedVersion, naming its metadata by index. */
  datatype Item = Item(mi: nat, vi: nat, slot: Slot, binding: Binding, plaintext: Bytes)

  datatype Outcome = AlreadyDone | NoValues | Migrated(count: nat)

  /** `unrestored` is what rollback counts; it is 0 when nothing had to be rolled back. */
  datatype Failure = Failure(unrestored: nat)

  /** The records ListMeta returns: each path once, and each version once per record. */
  ghost predicate WellFormed(metas: seq<Meta>) {
    && PathsDistinct(metas)
    && (forall i :: 0 <= i < |metas| ==> VersionsDistinct(metas[i].versions))
  }

  ghost predicate VersionsDistinct(versions: seq<VersionMeta>) {
    forall i, j :: 0 <= i < j < |versions| ==> versions[i].version != versions[j].version
  }

  ghost predicate InRange(metas: seq<Meta>, mi: int, vi: int) {
    0 <= mi < |metas| && 0 <= vi < |metas[mi].versions|
  }

  function SlotAt(metas: seq<Meta>, mi: nat, vi: nat): (s: Slot)
    requires mi < |metas| && vi < |metas[mi].versions|
  {
    Slot(metas[mi].path, metas[mi].versions[vi].version)
  }

  /** Not destroyed, and its ciphertext is on disk. */
  ghost predicate IsStored(metas: seq<Meta>, files: Files, mi: nat, vi: nat)
    requires InRange(metas, mi, vi)
  {
    !metas[mi].versions[vi].destroyed && Ciphertext(SlotAt(metas, mi, vi)) in files
  }

  /** The item is a stored version, with its binding and its plaintext. */
  ghost predicate ItemOk(tables: Tables, terms: map<int, Dek>, files: Files, metas: seq<Meta>, it: Item) {
    && InRange(metas, it.mi, it.vi) && IsStored(metas, files, it.mi, it.vi)
    && it.slot == SlotAt(metas, it.mi, it.vi)
    && BindingOf(tables, files, it.slot, metas[it.mi].versions[it.vi].binding) == Some(it.binding)
    && Plaintext(tables, terms, files, it.slot, metas[it.mi].versions[it.vi].binding) == Some(it.plaintext)
  }

  predicate Before(mi: nat, vi: nat, mj: nat, vj: nat) {
    mi < mj || (mi == mj && vi < vj)
  }

  ghost predicate Has(items: seq<Item>, mi: nat, vi: nat) {
    exists n :: 0 <= n < |items| && items[n].mi == mi && items[n].vi == vi
  }

  /** The stored versions before this position, each once and in order. */
  ghost predicate ItemsUpTo(
    tables: Tables, terms: map<int, Dek>, files: Files, metas: seq<Meta>, items: seq<Item>, mi: nat, vi: nat)
  {
    && (forall n :: 0 <= n < |items| ==>
          ItemOk(tables, terms, files, metas, items[n]) && Before(items[n].mi, items[n].vi, mi, vi))
    && (forall m, n :: 0 <= m < n < |items| ==> Before(items[m].mi, items[m].vi, items[n].mi, items[n].vi))
    && (forall a: nat, b: nat :: InRange(metas, a, b) && Before(a, b, mi, vi) && IsStored(metas, files, a, b) ==>
          Has(items, a, b))
  }

  lemma HasSnoc(items: seq<Item>, it: Item, mi: nat, vi: nat)
    ensures Has(items + [it], mi, vi) <==> Has(items, mi, vi) || (it.mi == mi && it.vi == vi)
  {
    if Has(items, mi, vi) {
      var n :| 0 <= n < |items| && items[n].mi == mi && items[n].vi == vi;
      assert (items + [it])[n] == items[n];
    }
    assert (items + [it])[|items|] == it;
  }

  lemma ItemsNext(
    tables: Tables, terms: map<int, Dek>, files: Files, metas: seq<Meta>, items: seq<Item>, mi: nat, vi: nat,
    it: Option<Item>)
    requires InRange(metas, mi, vi) && ItemsUpTo(tables, terms, files, metas, items, mi, vi)
    requires it.None? ==> !IsStored(metas, files, mi, vi)
    requires it.Some? ==> ItemOk(tables, terms, files, metas, it.value) && it.value.mi == mi && it.value.vi == vi
    ensures ItemsUpTo(tables, terms, files, metas, if it.Some? then items + [it.value] else items, mi, vi + 1)
  {
    if it.Some? {
      var next := items + [it.value];
      forall n | 0 <= n < |next|
        ensures ItemOk(tables, terms, files, metas, next[n]) && Before(next[n].mi, next[n].vi, mi, vi + 1)
      {
        assert next[n] == if n < |items| then items[n] else it.value;
      }
      forall m, n | 0 <= m < n < |next| ensures Before(next[m].mi, next[m].vi, next[n].mi, next[n].vi) {
        assert next[m] == items[m];
        assert next[n] == if n < |items| then items[n] else it.value;
      }
      forall a: nat, b: nat | InRange(metas, a, b) && Before(a, b, mi, vi + 1) && IsStored(metas, files, a, b)
        ensures Has(next, a, b)
      {
        HasSnoc(items, it.value, a, b);
      }
    }
  }

  lemma ItemsEndOfRecord(
    tables: Tables, terms: map<int, Dek>, files: Files, metas: seq<Meta>, items: seq<Item>, mi: nat)
    requires mi < |metas| && ItemsUpTo(tables, terms, files, metas, items, mi, |metas[mi].versions|)
    ensures ItemsUpTo(tables, terms, files, metas, items, mi + 1, 0)
  {
  }

  function NewBinding(b: Binding, term: int, alg: string): (nb: Binding)
  {
    b.(keyTerm := term, algorithm := alg)
  }

  /** The slot holds this plaintext under this binding, which its sidecar also states. */
  ghost predicate Rewritten(
    tables: Tables, terms: map<int, Dek>, files: Files, slot: Slot, nb: Binding, plaintext: Bytes)
  {
    && Ciphertext(slot) in files && Nonce(slot) in files && Sidecar(slot) in files
    && nb in tables.json && files[Sidecar(slot)] == tables.json[nb]
    && Unseal(tables, terms, nb, files[Ciphertext(slot)], files[Nonce(slot)]) == Some(plaintext)
  }

  /** it.meta.Versions[it.index].AAD = nb. */
  function Rebind(list: seq<Meta>, mi: nat, vi: nat, nb: Binding): (after: seq<Meta>)
    requires mi < |list| && vi < |list[mi].versions|
  {
    list[mi := list[mi].(versions := list[mi].versions[vi := list[mi].versions[vi].(binding := nb)])]
  }

  /** The records differ from the listed ones only in the bindings of the first n items. */
  ghost predicate Rebound(list: seq<Meta>, after: seq<Meta>, items: seq<Item>, n: nat, term: int, alg: string)
    requires n <= |items|
  {
    && |after| == |list|
    && (forall i :: 0 <= i < |list| ==>
          && after[i].path == list[i].path && after[i].updatedAt == list[i].updatedAt
          && |after[i].versions| == |list[i].versions|)
    && (forall i, j :: InRange(list, i, j) ==>
          after[i].versions[j] == list[i].versions[j].(binding := after[i].versions[j].binding))
    && (forall i, j :: InRange(list, i, j) && !Has(items[..n], i, j) ==> after[i].versions[j] == list[i].versions[j])
    && (forall k :: 0 <= k < n ==>
          && InRange(list, items[k].mi, items[k].vi)
          && after[items[k].mi].versions[items[k].vi].binding == NewBinding(items[k].binding, term, alg))
  }

  lemma RebindNext(list: seq<Meta>, after: seq<Meta>, items: seq<Item>, n: nat, term: int, alg: string)
    requires n < |items| && Rebound(list, after, items, n, term, alg)
    requires InRange(list, items[n].mi, items[n].vi)
    requires forall k :: 0 <= k < n ==> Before(items[k].mi, items[k].vi, items[n].mi, items[n].vi)
    ensures var next := Rebind(after, items[n].mi, items[n].vi, NewBinding(items[n].binding, term, alg));
            Rebound(list, next, items, n + 1, term, alg)
  {
  }

  /** After n items: the way back, and what has been rewritten. */
  ghost predicate Progress(
    tables: Tables, terms: map<int, Dek>, original: Files, files: Files, items: seq<Item>, n: nat,
    backups: seq<Backup>, term: int, alg: string)
    requires n <= |items|
  {
    && |backups| == n && (forall k :: 0 <= k < n ==> backups[k].slot == items[k].slot)
    && Restore(files, backups) == original
    && forall k :: 0 <= k < n ==>
         Rewritten(tables, terms, files, items[k].slot, NewBinding(items[k].binding, term, alg), items[k].plaintext)
  }

  /** Backing up the next slot, then changing its files in any way, keeps the way back. */
  lemma WayBack(original: Files, before: Files, after: Files, backups: seq<Backup>, b: Backup)
    requires Restore(before, backups) == original && Snapshots(b, before) && !Covers(backups, b.slot)
    requires DifferOnly(before, after, b.slot)
    ensures Restore(after, backups + [b]) == original
  {
    BackupKeepsWayBack(before, backups, b);
    assert (backups + [b])[|backups|].slot == b.slot;
    WriteKeepsWayBack(before, after, b.slot, backups + [b]);
  }

  lemma ProgressNext(
    tables: Tables, terms: map<int, Dek>, original: Files, before: Files, after: Files, items: seq<Item>, n: nat,
    backups: seq<Backup>, b: Backup, term: int, alg: string)
    requires n < |items| && Progress(tables, terms, original, before, items, n, backups, term, alg)
    requires b.slot == items[n].slot && Snapshots(b, before) && DifferOnly(before, after, b.slot)
    requires forall k :: 0 <= k < n ==> items[k].slot != items[n].slot
    requires Rewritten(tables, terms, after, items[n].slot, NewBinding(items[n].binding, term, alg), items[n].plaintext)
    ensures Progress(tables, terms, original, after, items, n + 1, backups + [b], term, alg)
  {
    WayBack(original, before, after, backups, b);
    forall k | 0 <= k < n
      ensures Rewritten(tables, terms, after,
                        items[k].slot, NewBinding(items[k].binding, term, alg), items[k].plaintext)
    {
      var slot := items[k].slot;
      assert Rewritten(tables, terms, before, slot, NewBinding(items[k].binding, term, alg), items[k].plaintext);
      assert Ciphertext(slot).slot != b.slot && Nonce(slot).slot != b.slot && Sidecar(slot).slot != b.slot;
    }
  }

  /** A record is filed under its own path, with each version once. */
  ghost predicate Filed(metas: map<string, Meta>) {
    forall p :: p in metas ==> metas[p].path == p && VersionsDistinct(metas[p].versions)
  }

  ghost predicate PathsDistinct(list: seq<Meta>) {
    forall i, j :: 0 <= i < j < |list| ==> list[i].path != list[j].path
  }

  ghost predicate Names(list: seq<Meta>, path: string) {
    exists i :: 0 <= i < |list| && list[i].path == path
  }

  /** The list holds every record once. */
  ghost predicate Lists(metas: map<string, Meta>, list: seq<Meta>) {
    && PathsDistinct(list)
    && (forall i :: 0 <= i < |list| ==> list[i].path in metas && metas[list[i].path] == list[i])
    && (forall p :: p in metas ==> Names(list, p))
  }

  lemma ListedWellFormed(metas: map<string, Meta>, list: seq<Meta>)
    requires Filed(metas) && Lists(metas, list)
    ensures WellFormed(list)
  {
  }

  lemma NamesSnoc(list: seq<Meta>, m: Meta, path: string)
    ensures Names(list + [m], path) <==> Names(list, path) || m.path == path
  {
    if Names(list, path) {
      var i :| 0 <= i < |list| && list[i].path == path;
      assert (list + [m])[i] == list[i];
    }
    assert (list + [m])[|list|] == m;
  }

  /** The first n of these records are in place, with their new time; every other record is as it was. */
  ghost predicate Updated(before: map<string, Meta>, after: map<string, Meta>, list: seq<Meta>, n: nat, now: int)
    requires n <= |list|
  {
    && after.Keys == before.Keys
    && (forall i :: 0 <= i < n ==> list[i].path in after && after[list[i].path] == list[i].(updatedAt := now))
    && (forall p :: p in before && !Names(list[..n], p) ==> after[p] == before[p])
  }

  lemma MetaWayBack(metas: map<string, Meta>, path: string, m: Meta, backups: seq<Meta>)
    requires path in metas && metas[path].path == path && forall k :: 0 <= k < |backups| ==> backups[k].path != path
    ensures RestoreMetas(metas[path := m], backups + [metas[path]]) == RestoreMetas(metas, backups)
  {
    RestoreMetasSnoc(metas[path := m], backups, metas[path]);
    RestoreMetasWrite(metas, path, m, backups);
    RestoreMetasWrite(metas, path, metas[path], backups);
    assert metas[path := metas[path]] == metas;
  }

  lemma UpdatedNext(before: map<string, Meta>, metas: map<string, Meta>, list: seq<Meta>, n: nat, now: int)
    requires n < |list| && PathsDistinct(list) && list[n].path in before
    requires Updated(before, metas, list, n, now)
    ensures metas[list[n].path] == before[list[n].path]
    ensures Updated(before, metas[list[n].path := list[n].(updatedAt := now)], list, n + 1, now)
  {
  }

  class Store {
    const tables: Tables
    var files: Files
    var metas: map<string, Meta>
    /** The keyring: the key of every term, and the algorithm. */
    var terms: map<int, Dek>
    var algorithm: string
    /** How many operations have failed so far. */
    ghost var faults: nat

    constructor (tables: Tables, files: Files, metas: map<string, Meta>, terms: map<int, Dek>, algorithm: string)
      ensures this.tables == tables && this.files == files && this.metas == metas
      ensures this.terms == terms && this.algorithm == algorithm
    {
      this.tables, this.files, this.metas, this.terms, this.algorithm := tables, files, metas, terms, algorithm;
      faults := 0;
    }

    /** The outcome of an operation that may fail. */
    method Attempt() returns (ok: bool)
      modifies this`faults
      ensures faults == old(faults) + if ok then 0 else 1
    {
      ok := *;
      if !ok {
        faults := faults + 1;
      }
    }

    /** os.ReadFile: Ok(None) is fs.ErrNotExist, Err any other error. */
    method ReadFile(name: FileName) returns (r: Result<Option<Bytes>, ()>)
      modifies this`faults
      ensures faults == old(faults) + if r.Ok? then 0 else 1
      ensures r.Ok? ==> r.value == if name in files then Some(files[name]) else None
    {
      var ok := Attempt();
      if !ok {
        return Err(());
      }
      return Ok(if name in files then Some(files[name]) else None);
    }

    /** atomicWriteCLI: the whole file is replaced, or nothing is. */
    method WriteFile(name: FileName, data: Bytes) returns (ok: bool)
      modifies this`files, this`faults
      ensures files == if ok then old(files)[name := data] else old(files)
      ensures faults == old(faults) + if ok then 0 else 1
    {
      ok := Attempt();
      if ok {
        files := files[name := data];
      }
    }

    /** os.Remove, a missing file being no error. */
    method RemoveFile(name: FileName) returns (ok: bool)
      modifies this`files, this`faults
      ensures files == if ok then old(files) - {name} else old(files)
      ensures faults == old(faults) + if ok then 0 else 1
    {
      ok := Attempt();
      if ok {
        files := files - {name};
      }
    }

    method SetMeta(path: string, m: Meta) returns (ok: bool)
      modifies this`metas, this`faults
      ensures metas == if ok then old(metas)[path := m] else old(metas)
      ensures faults == old(faults) + if ok then 0 else 1
    {
      ok := Attempt();
      if ok {
        metas := metas[path := m];
      }
    }

    method GetMeta(path: string) returns (m: Option<Meta>)
      modifies this`faults
      ensures faults >= old(faults) && (m.Some? ==> faults == old(faults))
      ensures m.Some? ==> path in metas && m.value == metas[path]
      ensures m.None? ==> path !in metas || faults > old(faults)
    {
      var ok := Attempt();
      if !ok || path !in metas {
        return None;
      }
      return Some(metas[path]);
    }

    /** readVersionBinding. */
    method ReadVersionBinding(slot: Slot, fallback: Binding) returns (b: Option<Binding>)
      modifies this`faults
      ensures faults >= old(faults) && (b.Some? ==> faults == old(faults))
      ensures b.Some? || faults == old(faults) ==> b == BindingOf(tables, files, slot, fallback)
    {
      var data := ReadFile(Sidecar(slot));
      if data.Err? {
        return None;
      }
      if data.value.None? {
        return Some(fallback);
      }
      return if data.value.value in tables.parse then Some(tables.parse[data.value.value]) else None;
    }

    /** One turn of readStoredVersions: nothing to migrate, a decrypted version, or an error. */
    method ReadVersion(list: seq<Meta>, mi: nat, vi: nat) returns (r: Result<Option<Item>, ()>)
      requires InRange(list, mi, vi)
      modifies this`faults
      ensures faults >= old(faults) && (r.Ok? ==> faults == old(faults))
      ensures r.Err? ==> faults > old(faults) || Unreadable(tables, terms, files, list, mi, vi)
      ensures r.Ok? && r.value.None? ==> !IsStored(list, files, mi, vi)
      ensures r.Ok? && r.value.Some? ==>
                ItemOk(tables, terms, files, list, r.value.value) && r.value.value.mi == mi && r.value.value.vi == vi
    {
      var vm := list[mi].versions[vi];
      if vm.destroyed {
        return Ok(None);
      }
      var slot := SlotAt(list, mi, vi);
      var ct := ReadFile(Ciphertext(slot));
      if ct.Err? {
        return Err(());
      }
      if ct.value.None? {
        return Ok(None);
      }
      var nonce := ReadFile(Nonce(slot));
      if nonce.Err? || nonce.value.None? {
        return Err(());
      }
      var binding := ReadVersionBinding(slot, vm.binding);
      if binding.None? {
        return Err(());
      }
      var plaintext := Unseal(tables, terms, binding.value, ct.value.value, nonce.value.value);
      if plaintext.None? {
        return Err(());
      }
      return Ok(Some(Item(mi, vi, slot, binding.value, plaintext.value)));
    }

    /** readStoredVersions: all the stored versions; an error if something fails or one of them cannot be decrypted. */
    method ReadStoredVersions(list: seq<Meta>) returns (r: Result<seq<Item>, ()>)
      modifies this`faults
      ensures faults >= old(faults) && (r.Ok? ==> faults == old(faults))
      ensures r.Ok? ==> ItemsUpTo(tables, terms, files, list, r.value, |list|, 0)
      ensures r.Err? ==> faults > old(faults) || SomeUnreadable(tables, terms, files, list)
    {
      var items: seq<Item> := [];
      for mi := 0 to |list|
        invariant ItemsUpTo(tables, terms, files, list, items, mi, 0) && faults == old(faults)
      {
        for vi := 0 to |list[mi].versions|
          invariant ItemsUpTo(tables, terms, files, list, items, mi, vi) && faults == old(faults)
        {
          var it := ReadVersion(list, mi, vi);
          if it.Err? {
            return Err(());
          }
          ItemsNext(tables, terms, files, list, items, mi, vi, it.value);
          if it.value.Some? {
            items := items + [it.value.value];
          }
        }
        ItemsEndOfRecord(tables, terms, files, list, items, mi);
      }
      return Ok(items);
    }

    /** snapshotVersion. */
    method SnapshotVersion(slot: Slot) returns (b: Option<Backup>)
      modifies this`faults
      ensures faults >= old(faults) && (b.Some? ==> faults == old(faults))
      ensures b.None? ==> faults > old(faults) || Ciphertext(slot) !in files || Nonce(slot) !in files
      ensures b.Some? ==> b.value.slot == slot && Snapshots(b.value, files)
    {
      var ct := ReadFile(Ciphertext(slot));
      if ct.Err? || ct.value.None? {
        return None;
      }
      var nonce := ReadFile(Nonce(slot));
      if nonce.Err? || nonce.value.None? {
        return None;
      }
      var binding := ReadFile(Sidecar(slot));
      if binding.Err? {
        return None;
      }
      return Some(Backup(slot, ct.value.value, nonce.value.value, binding.value));
    }

    /** Sealing under the new key: fails, or gives a ciphertext and nonce that open to the plaintext. */
    method Seal(nb: Binding, plaintext: Bytes) returns (r: Option<(Bytes, Bytes)>)
      modifies this`faults
      ensures faults == old(faults) + if r.Some? then 0 else 1
      ensures r.Some? ==> Unseal(tables, terms, nb, r.value.0, r.value.1) == Some(plaintext)
    {
      var ct: Bytes, nonce: Bytes := *, *;
      if Unseal(tables, terms, nb, ct, nonce) == Some(plaintext) {
        return Some((ct, nonce));
      }
      faults := faults + 1;
      return None;
    }

    /** The three writes of one version; any of them may be the one that fails. */
    method WriteVersion(slot: Slot, ct: Bytes, nonce: Bytes, binding: Bytes) returns (ok: bool)
      modifies this`files, this`faults
      ensures faults == old(faults) + if ok then 0 else 1
      ensures DifferOnly(old(files), files, slot)
      ensures ok ==>
                && Ciphertext(slot) in files && files[Ciphertext(slot)] == ct
                && Nonce(slot) in files && files[Nonce(slot)] == nonce
                && Sidecar(slot) in files && files[Sidecar(slot)] == binding
    {
      ok := WriteFile(Ciphertext(slot), ct);
      if !ok {
        return;
      }
      ok := WriteFile(Nonce(slot), nonce);
      if !ok {
        return;
      }
      ok := WriteFile(Sidecar(slot), binding);
    }

    /** One turn of the re-encryption loop, the backup being taken before anything is written. */
    method MigrateItem(it: Item, term: int, alg: string) returns (ok: bool, backup: Option<Backup>)
      modifies this`files, this`faults
      ensures faults >= old(faults) && (ok ==> faults == old(faults))
      ensures !ok && Encodable(tables, alg) && Ciphertext(it.slot) in old(files) && Nonce(it.slot) in old(files) ==>
                faults > old(faults)
      ensures backup.None? ==> !ok && files == old(files)
      ensures backup.Some? ==>
                && backup.value.slot == it.slot && Snapshots(backup.value, old(files))
                && DifferOnly(old(files), files, it.slot)
      ensures ok ==> Rewritten(tables, terms, files, it.slot, NewBinding(it.binding, term, alg), it.plaintext)
    {
      backup := SnapshotVersion(it.slot);
      if backup.None? {
        return false, None;
      }
      var nb := NewBinding(it.binding, term, alg);
      if nb !in tables.aad {
        return false, backup;
      }
      var sealed := Seal(nb, it.plaintext);
      if sealed.None? || nb !in tables.json {
        return false, backup;
      }
      ok := WriteVersion(it.slot, sealed.value.0, sealed.value.1, tables.json[nb]);
    }

    /** The re-encryption loop. Whether or not it ends early, the backups lead back to the original files. */
    method Reencrypt(list: seq<Meta>, items: seq<Item>, term: int, alg: string, ghost oldTerms: map<int, Dek>)
      returns (ok: bool, backups: seq<Backup>, rebound: seq<Meta>)
      requires WellFormed(list) && ItemsUpTo(tables, oldTerms, files, list, items, |list|, 0)
      modifies this`files, this`faults
      ensures faults >= old(faults) && (!ok && Encodable(tables, alg) ==> faults > old(faults))
      ensures ok ==> faults == old(faults)
      ensures Restore(files, backups) == old(files)
      ensures ok ==>
                && Progress(tables, terms, old(files), files, items, |items|, backups, term, alg)
                && Rebound(list, rebound, items, |items|, term, alg)
    {
      backups, rebound := [], list;
      for n := 0 to |items|
        invariant Progress(tables, terms, old(files), files, items, n, backups, term, alg)
        invariant Rebound(list, rebound, items, n, term, alg) && faults == old(faults)
      {
        ghost var before := files;
        SlotsBefore(tables, oldTerms, old(files), list, items, n, backups);
        RestoreElsewhere(files, backups, items[n].slot);
        assert ItemOk(tables, oldTerms, old(files), list, items[n]);
        var backup;
        ok, backup := MigrateItem(items[n], term, alg);
        if backup.None? {
          return;
        }
        WayBack(old(files), before, files, backups, backup.value);
        if !ok {
          backups := backups + [backup.value];
          return;
        }
        ProgressNext(tables, terms, old(files), before, files, items, n, backups, backup.value, term, alg);
        RebindNext(list, rebound, items, n, term, alg);
        backups := backups + [backup.value];
        rebound := Rebind(rebound, items[n].mi, items[n].vi, NewBinding(items[n].binding, term, alg));
      }
      ok := true;
    }

    /** One turn of rollback's file loop. */
    method RestoreVersion(b: Backup) returns (ok: bool)
      modifies this`files, this`faults
      ensures faults == old(faults) + if ok then 0 else 1
      ensures ok ==> files == RestoreOne(old(files), b)
      ensures DifferOnly(old(files), files, b.slot)
    {
      ok := WriteFile(Ciphertext(b.slot), b.ct);
      if ok {
        ok := WriteFile(Nonce(b.slot), b.nonce);
      }
      if !ok {
        return;
      }
      if b.binding.None? {
        ok := RemoveFile(Sidecar(b.slot));
      } else {
        ok := WriteFile(Sidecar(b.slot), b.binding.value);
      }
    }

    /** rollback's loop over the version files, and the slots it could not restore. */
    method RollbackFiles(backups: seq<Backup>) returns (failed: nat, ghost slots: set<Slot>)
      modifies this`files, this`faults
      ensures faults == old(faults) + failed
      ensures DifferWithin(files, Restore(old(files), backups), slots) && |slots| <= failed
    {
      failed, slots := 0, {};
      for i := 0 to |backups|
        invariant DifferWithin(files, Restore(old(files), backups[..i]), slots) && |slots| <= failed
        invariant faults == old(faults) + failed
      {
        ghost var before, target := files, Restore(old(files), backups[..i]);
        RestoreSnoc(old(files), backups[..i], backups[i]);
        assert backups[..i + 1] == backups[..i] + [backups[i]];
        RestoreBoth(before, target, slots, backups[i]);
        var ok := RestoreVersion(backups[i]);
        if !ok {
          RestoreHalf(before, files, target, slots, backups[i]);
          failed, slots := failed + 1, slots + {backups[i].slot};
        }
      }
      assert backups[..|backups|] == backups;
    }

    /** rollback's loop over the metadata records, and the paths it could not restore. */
    method RollbackMetas(metaBackups: seq<Meta>) returns (failed: nat, ghost paths: set<string>)
      modifies this`metas, this`faults
      ensures faults == old(faults) + failed
      ensures RecordsDifferWithin(metas, RestoreMetas(old(metas), metaBackups), paths) && |paths| <= failed
    {
      failed, paths := 0, {};
      for i := 0 to |metaBackups|
        invariant RecordsDifferWithin(metas, RestoreMetas(old(metas), metaBackups[..i]), paths) && |paths| <= failed
        invariant faults == old(faults) + failed
      {
        RestoreMetasSnoc(old(metas), metaBackups[..i], metaBackups[i]);
        assert metaBackups[..i + 1] == metaBackups[..i] + [metaBackups[i]];
        var ok := SetMeta(metaBackups[i].path, metaBackups[i]);
        if !ok {
          failed, paths := failed + 1, paths + {metaBackups[i].path};
        }
      }
      assert metaBackups[..|metaBackups|] == metaBackups;
    }

    /**
     * rollback, with its count of failures: everything is back in place but for `slots` and `paths`, no more of them
     * than it counts.
     */
    method Rollback(backups: seq<Backup>, metaBackups: seq<Meta>)
      returns (failed: nat, ghost slots: set<Slot>, ghost paths: set<string>)
      modifies this`files, this`metas, this`faults
      ensures faults == old(faults) + failed
      ensures DifferWithin(files, Restore(old(files), backups), slots)
      ensures RecordsDifferWithin(metas, RestoreMetas(old(metas), metaBackups), paths)
      ensures |slots| + |paths| <= failed
      ensures failed == 0 ==> files == Restore(old(files), backups)
      ensures failed == 0 ==> metas == RestoreMetas(old(metas), metaBackups)
    {
      var failedFiles, failedMetas;
      failedFiles, slots := RollbackFiles(backups);
      failedMetas, paths := RollbackMetas(metaBackups);
      failed := failedFiles + failedMetas;
      if failed == 0 {
        assert slots == {} && paths == {};
        DifferNowhere(files, Restore(old(files), backups));
        RecordsDifferNowhere(metas, RestoreMetas(old(metas), metaBackups));
      }
    }

    /** The metadata loop. Whether or not it ends early, the backups lead back to the original records. */
    method UpdateMetas(list: seq<Meta>, now: int) returns (ok: bool, backups: seq<Meta>)
      requires PathsDistinct(list) && Filed(metas) && forall i :: 0 <= i < |list| ==> list[i].path in metas
      modifies this`metas, this`faults
      ensures faults >= old(faults) && (!ok ==> faults > old(faults))
      ensures ok ==> faults == old(faults)
      ensures RestoreMetas(metas, backups) == old(metas)
      ensures ok ==> Updated(old(metas), metas, list, |list|, now)
    {
      backups := [];
      for i := 0 to |list|
        invariant RestoreMetas(metas, backups) == old(metas)
        invariant |backups| == i && forall k :: 0 <= k < i ==> backups[k].path == list[k].path
        invariant Updated(old(metas), metas, list, i, now) && faults == old(faults)
      {
        var path := list[i].path;
        var original := GetMeta(path);
        if original.None? {
          return false, backups;
        }
        UpdatedNext(old(metas), metas, list, i, now);
        MetaWayBack(metas, path, list[i].(updatedAt := now), backups);
        ok := SetMeta(path, list[i].(updatedAt := now));
        if !ok {
          return;
        }
        backups := backups + [original.value];
      }
      ok := true;
    }

    /** ListMeta: every record, in some order, or an error. */
    method ListMeta() returns (list: Option<seq<Meta>>)
      requires Filed(metas)
      modifies this`faults
      ensures faults == old(faults) + if list.Some? then 0 else 1
      ensures list.Some? ==> Lists(metas, list.value)
    {
      var ok := Attempt();
      if !ok {
        return None;
      }
      var all: seq<Meta> := [];
      var todo := metas.Keys;
      while todo != {}
        invariant todo <= metas.Keys && PathsDistinct(all)
        invariant forall i :: 0 <= i < |all| ==>
                    all[i].path in metas && all[i].path !in todo && metas[all[i].path] == all[i]
        invariant forall p :: p in metas && p !in todo ==> Names(all, p)
        decreases todo
      {
        var p :| p in todo;
        todo := todo - {p};
        forall q ensures Names(all + [metas[p]], q) <==> Names(all, q) || q == p {
          NamesSnoc(all, metas[p], q);
        }
        all := all + [metas[p]];
      }
      return Some(all);
    }

    /** kr.RotateTerm: a term not in use gets a key; the old terms keep theirs. */
    method RotateTerm() returns (term: Option<int>)
      modifies this`terms, this`faults
      ensures faults == old(faults) + if term.Some? then 0 else 1
      ensures term.None? ==> terms == old(terms)
      ensures term.Some? ==>
                && term.value !in old(terms) && term.value in terms
                && terms == old(terms)[term.value := terms[term.value]]
    {
      var t: int, dek: Dek := *, *;
      if t in terms {
        faults := faults + 1;
        return None;
      }
      terms := terms[t := dek];
      return Some(t);
    }

    method UpdateKeyringAlgorithm(alg: string) returns (ok: bool)
      modifies this`algorithm, this`faults
      ensures algorithm == if ok then alg else old(algorithm)
      ensures faults == old(faults) + if ok then 0 else 1
    {
      ok := Attempt();
      if ok {
        algorithm := alg;
      }
    }

    /** Re-encrypts, updates the records and switches the algorithm; wherever it stops, the backups lead back. */
    method RewriteAll(
      list: seq<Meta>, items: seq<Item>, term: int, toAlg: string, now: int, ghost oldTerms: map<int, Dek>)
      returns (ok: bool, backups: seq<Backup>, metaBackups: seq<Meta>)
      requires Filed(metas) && Lists(metas, list) && ItemsUpTo(tables, oldTerms, files, list, items, |list|, 0)
      modifies this`files, this`metas, this`algorithm, this`faults
      ensures faults >= old(faults) && (!ok && Encodable(tables, toAlg) ==> faults > old(faults))
      ensures ok ==> faults == old(faults)
      ensures Restore(files, backups) == old(files) && RestoreMetas(metas, metaBackups) == old(metas)
      ensures algorithm == if ok then toAlg else old(algorithm)
      ensures ok ==> MigratedFrom(tables, oldTerms, old(files), old(metas), terms, files, metas, term, toAlg, now)
    {
      metaBackups := [];
      ListedWellFormed(metas, list);
      var rebound;
      ok, backups, rebound := Reencrypt(list, items, term, toAlg, oldTerms);
      if !ok {
        return;
      }
      ReboundPaths(metas, list, rebound, items, term, toAlg);
      ok, metaBackups := UpdateMetas(rebound, now);
      if ok {
        Complete(tables, oldTerms, old(files), old(metas), terms, files, metas,
                 list, items, backups, rebound, term, toAlg, now);
        ok := UpdateKeyringAlgorithm(toAlg);
      }
    }

    /** Everything after the new term exists: rewrite, or roll back. */
    method Rewrite(list: seq<Meta>, items: seq<Item>, term: int, toAlg: string, now: int, ghost oldTerms: map<int, Dek>)
      returns (r: Result<Outcome, Failure>, ghost slots: set<Slot>, ghost paths: set<string>)
      requires Filed(metas) && Lists(metas, list) && ItemsUpTo(tables, oldTerms, files, list, items, |list|, 0)
      modifies this`files, this`metas, this`algorithm, this`faults
      ensures faults >= old(faults) && (r.Err? && Encodable(tables, toAlg) ==> faults > old(faults))
      ensures r.Ok? ==> faults == old(faults)
      ensures r.Err? ==> r.error.unrestored <= faults - old(faults)
      ensures r.Ok? ==>
                && r.value == Migrated(|items|) && algorithm == toAlg
                && MigratedFrom(tables, oldTerms, old(files), old(metas), terms, files, metas, term, toAlg, now)
      ensures r.Err? ==> algorithm == old(algorithm)
      ensures r.Err? && r.error.unrestored == 0 ==> files == old(files) && metas == old(metas)
      ensures r.Err? ==>
                && DifferWithin(files, old(files), slots) && RecordsDifferWithin(metas, old(metas), paths)
                && |slots| + |paths| <= r.error.unrestored
    {
      var ok, backups, metaBackups := RewriteAll(list, items, term, toAlg, now, oldTerms);
      if !ok {
        var failed;
        failed, slots, paths := Rollback(backups, metaBackups);
        return Err(Failure(failed)), slots, paths;
      }
      return Ok(Migrated(|items|)), {}, {};
    }

    /**
     * runMigrateCipher. On success the vault is migrated; on failure, if rollback counts no failures,
     * the version files and the metadata records are the original ones, and otherwise all but as many as it counts.
     */
    method MigrateCipher(toAlg: string, now: int)
      returns (r: Result<Outcome, Failure>, ghost term: int, ghost slots: set<Slot>, ghost paths: set<string>)
      requires Filed(metas)
      modifies this
      // Which outcome: nothing is reported as done, or as not there to do, unless that is so.
      ensures r == Ok(AlreadyDone) <==> Supported(toAlg) && old(algorithm) == toAlg
      ensures r == Ok(NoValues) ==> old(metas) == map[]
      ensures r.Ok? && r.value.Migrated? ==>
                && old(metas) != map[] && r.value.count == |StoredSlots(old(metas), old(files))|
                && term !in old(terms) && term in terms
      ensures r.Ok? ==> algorithm == toAlg && Supported(toAlg)
      // What is left behind.
      ensures r.Ok? && r.value.Migrated? ==>
                MigratedFrom(tables, old(terms), old(files), old(metas), terms, files, metas, term, toAlg, now)
      ensures r.Ok? && !r.value.Migrated? ==> files == old(files) && metas == old(metas) && terms == old(terms)
      ensures r.Err? && r.error.unrestored == 0 ==> files == old(files) && metas == old(metas)
      ensures r.Err? ==>
                && DifferWithin(files, old(files), slots) && RecordsDifferWithin(metas, old(metas), paths)
                && |slots| + |paths| <= r.error.unrestored <= faults - old(faults)
      ensures r.Err? ==> algorithm == old(algorithm)
      ensures forall t :: t in old(terms) ==> t in terms && terms[t] == old(terms)[t]
      // A version that cannot be decrypted stops the migration before anything is written.
      ensures old(algorithm) != toAlg && !AllReadable(tables, old(terms), old(files), old(metas)) ==>
                r == Err(Failure(0)) && files == old(files) && metas == old(metas) && terms == old(terms)
      // Without that, and unless an operation fails, it succeeds; and it succeeds only then.
      ensures r.Ok? ==> faults == old(faults)
      ensures r.Err? && Supported(toAlg) && Encodable(tables, toAlg) ==>
                faults > old(faults) || !AllReadable(tables, old(terms), old(files), old(metas))
    {
      term, slots, paths := 0, {}, {};
      if toAlg != XCHACHA && toAlg != AESGCM {
        return Err(Failure(0)), 0, {}, {};
      }
      if algorithm == toAlg {
        return Ok(AlreadyDone), 0, {}, {};
      }
      var list := ListMeta();
      if list.None? {
        return Err(Failure(0)), 0, {}, {};
      }
      ReadableAsListed(tables, terms, files, metas, list.value);
      if list.value == [] {
        var ok := UpdateKeyringAlgorithm(toAlg);
        return if ok then Ok(NoValues) else Err(Failure(0)), 0, {}, {};
      }
      assert list.value[0].path in metas;
      var items := ReadStoredVersions(list.value);
      if items.Err? {
        return Err(Failure(0)), 0, {}, {};
      }
      ReadMeansReadable(tables, terms, files, list.value, items.value);
      ItemsAreStored(tables, terms, files, metas, list.value, items.value);
      r, term, slots, paths := MigrateItems(list.value, items.value, toAlg, now);
    }

    /** The rest of it, from the new term on. */
    method MigrateItems(list: seq<Meta>, items: seq<Item>, toAlg: string, now: int)
      returns (r: Result<Outcome, Failure>, ghost term: int, ghost slots: set<Slot>, ghost paths: set<string>)
      requires Filed(metas) && Lists(metas, list) && ItemsUpTo(tables, terms, files, list, items, |list|, 0)
      modifies this
      ensures faults >= old(faults) && (r.Err? && Encodable(tables, toAlg) ==> faults > old(faults))
      ensures r.Ok? ==> faults == old(faults)
      ensures r.Ok? ==>
                && r.value == Migrated(|items|) && algorithm == toAlg && term !in old(terms) && term in terms
                && MigratedFrom(tables, old(terms), old(files), old(metas), terms, files, metas, term, toAlg, now)
      ensures r.Err? ==> algorithm == old(algorithm)
      ensures r.Err? && r.error.unrestored == 0 ==> files == old(files) && metas == old(metas)
      ensures r.Err? ==>
                && DifferWithin(files, old(files), slots) && RecordsDifferWithin(metas, old(metas), paths)
                && |slots| + |paths| <= r.error.unrestored <= faults - old(faults)
      ensures forall t :: t in old(terms) ==> t in terms && terms[t] == old(terms)[t]
    {
      term, slots, paths := 0, {}, {};
      ghost var oldTerms := terms;
      var rotated := RotateTerm();
      if rotated.None? {
        return Err(Failure(0)), 0, {}, {};
      }
      var reopened := Attempt();
      if !reopened {
        return Err(Failure(0)), 0, {}, {};
      }
      term := rotated.value;
      r, slots, paths := Rewrite(list, items, rotated.value, toAlg, now, oldTerms);
    }
  }

  /** The algorithms a vault can be migrated to. */
  ghost predicate Supported(alg: string) {
    alg == "xchacha20-poly1305" || alg == "aes-256-gcm"
  }

  /** Every binding that names this algorithm can be marshalled. */
  ghost predicate Encodable(tables: Tables, alg: string) {
    forall nb: Binding :: nb.algorithm == alg ==> nb in tables.aad && nb in tables.json
  }

  /** This record's version is not destroyed, and its ciphertext is on disk. */
  ghost predicate StoredAt(files: Files, metas: map<string, Meta>, p: string, j: int)
    requires p in metas && 0 <= j < |metas[p].versions|
  {
    !metas[p].versions[j].destroyed && Ciphertext(Slot(p, metas[p].versions[j].version)) in files
  }

  /** The stored versions of all records. */
  ghost function StoredSlots(metas: map<string, Meta>, files: Files): (slots: set<Slot>)
  {
    set p, j | p in metas && 0 <= j < |metas[p].versions| && StoredAt(files, metas, p, j) ::
      Slot(p, metas[p].versions[j].version)
  }

  /** Every stored version decrypts. */
  ghost predicate AllReadable(tables: Tables, terms: map<int, Dek>, files: Files, metas: map<string, Meta>) {
    forall p, j :: p in metas && 0 <= j < |metas[p].versions| && StoredAt(files, metas, p, j) ==>
      Plaintext(tables, terms, files, Slot(p, metas[p].versions[j].version), metas[p].versions[j].binding).Some?
  }

  ghost predicate Unreadable(
    tables: Tables, terms: map<int, Dek>, files: Files, list: seq<Meta>, mi: nat, vi: nat)
    requires InRange(list, mi, vi)
  {
    && IsStored(list, files, mi, vi)
    && Plaintext(tables, terms, files, SlotAt(list, mi, vi), list[mi].versions[vi].binding).None?
  }

  ghost predicate SomeUnreadable(tables: Tables, terms: map<int, Dek>, files: Files, list: seq<Meta>) {
    exists mi: nat, vi: nat :: InRange(list, mi, vi) && Unreadable(tables, terms, files, list, mi, vi)
  }

  /** What the list of the records holds is what the records hold. */
  lemma ReadableAsListed(
    tables: Tables, terms: map<int, Dek>, files: Files, metas: map<string, Meta>, list: seq<Meta>)
    requires Lists(metas, list)
    ensures AllReadable(tables, terms, files, metas) <==> !SomeUnreadable(tables, terms, files, list)
    ensures list == [] <==> metas == map[]
  {
    if list == [] {
      assert forall p :: p in metas ==> Names(list, p);
      assert metas == map[];
    } else {
      assert list[0].path in metas;
    }
    if !AllReadable(tables, terms, files, metas) {
      var p, j :| p in metas && 0 <= j < |metas[p].versions| && StoredAt(files, metas, p, j) &&
        Plaintext(tables, terms, files, Slot(p, metas[p].versions[j].version), metas[p].versions[j].binding).None?;
      assert Names(list, p);
      var mi: nat :| mi < |list| && list[mi].path == p;
      assert Unreadable(tables, terms, files, list, mi, j);
    }
    if SomeUnreadable(tables, terms, files, list) {
      var mi: nat, vi: nat :| InRange(list, mi, vi) && Unreadable(tables, terms, files, list, mi, vi);
      assert StoredAt(files, metas, list[mi].path, vi);
    }
  }

  /** Once every stored version has been read, none is unreadable. */
  lemma ReadMeansReadable(
    tables: Tables, terms: map<int, Dek>, files: Files, list: seq<Meta>, items: seq<Item>)
    requires ItemsUpTo(tables, terms, files, list, items, |list|, 0)
    ensures !SomeUnreadable(tables, terms, files, list)
  {
    forall mi: nat, vi: nat | InRange(list, mi, vi) ensures !Unreadable(tables, terms, files, list, mi, vi) {
      if IsStored(list, files, mi, vi) {
        assert Before(mi, vi, |list|, 0);
        assert Has(items, mi, vi);
        var n :| 0 <= n < |items| && items[n].mi == mi && items[n].vi == vi;
        assert ItemOk(tables, terms, files, list, items[n]);
      }
    }
  }

  ghost function SlotsOf(items: seq<Item>): (slots: set<Slot>)
  {
    set n | 0 <= n < |items| :: items[n].slot
  }

  lemma {:induction false} SlotCount(items: seq<Item>)
    requires forall m, n :: 0 <= m < n < |items| ==> items[m].slot != items[n].slot
    ensures |SlotsOf(items)| == |items|
  {
    if items == [] {
      assert SlotsOf(items) == {};
    } else {
      var n := |items| - 1;
      SlotCount(items[..n]);
      assert forall k :: 0 <= k < n ==> items[..n][k] == items[k];
      assert SlotsOf(items) == SlotsOf(items[..n]) + {items[n].slot};
      assert items[n].slot !in SlotsOf(items[..n]);
    }
  }

  /** There are as many items as stored versions. */
  lemma ItemsAreStored(
    tables: Tables, terms: map<int, Dek>, files: Files, metas: map<string, Meta>, list: seq<Meta>, items: seq<Item>)
    requires Filed(metas) && Lists(metas, list) && ItemsUpTo(tables, terms, files, list, items, |list|, 0)
    ensures |items| == |StoredSlots(metas, files)|
  {
    ListedWellFormed(metas, list);
    forall m, n | 0 <= m < n < |items| ensures items[m].slot != items[n].slot {
      assert ItemOk(tables, terms, files, list, items[m]) && ItemOk(tables, terms, files, list, items[n]);
      assert Before(items[m].mi, items[m].vi, items[n].mi, items[n].vi);
    }
    SlotCount(items);
    forall s | s in SlotsOf(items) ensures s in StoredSlots(metas, files) {
      var n :| 0 <= n < |items| && items[n].slot == s;
      assert ItemOk(tables, terms, files, list, items[n]);
      assert StoredAt(files, metas, list[items[n].mi].path, items[n].vi);
    }
    forall s | s in StoredSlots(metas, files) ensures s in SlotsOf(items) {
      var p, j :| p in metas && 0 <= j < |metas[p].versions| && StoredAt(files, metas, p, j) &&
        s == Slot(p, metas[p].versions[j].version);
      assert Names(list, p);
      var i: nat :| i < |list| && list[i].path == p;
      assert InRange(list, i, j) && Before(i, j, |list|, 0) && IsStored(list, files, i, j);
      assert Has(items, i, j);
      var n :| 0 <= n < |items| && items[n].mi == i && items[n].vi == j;
      assert ItemOk(tables, terms, files, list, items[n]);
    }
    assert SlotsOf(items) == StoredSlots(metas, files);
  }

  /** The next item's slot is not among those already backed up. */
  lemma SlotsBefore(
    tables: Tables, terms: map<int, Dek>, files: Files, list: seq<Meta>, items: seq<Item>, n: nat, backups: seq<Backup>)
    requires WellFormed(list) && ItemsUpTo(tables, terms, files, list, items, |list|, 0) && n < |items|
    requires |backups| == n && forall k :: 0 <= k < n ==> backups[k].slot == items[k].slot
    ensures !Covers(backups, items[n].slot)
    ensures InRange(list, items[n].mi, items[n].vi)
    ensures forall k :: 0 <= k < n ==> items[k].slot != items[n].slot
    ensures forall k :: 0 <= k < n ==> Before(items[k].mi, items[k].vi, items[n].mi, items[n].vi)
  {
  }

  lemma ReboundPaths(
    metas: map<string, Meta>, list: seq<Meta>, rebound: seq<Meta>, items: seq<Item>, term: int, alg: string)
    requires Lists(metas, list) && Rebound(list, rebound, items, |items|, term, alg)
    ensures PathsDistinct(rebound) && forall i :: 0 <= i < |rebound| ==> rebound[i].path in metas
  {
  }

  /** What became of one version: re-encrypted if it was stored, left alone if not. */
  ghost predicate VersionMigrated(
    tables: Tables, oldTerms: map<int, Dek>, before: Files, terms: map<int, Dek>, after: Files,
    slot: Slot, was: VersionMeta, vm: VersionMeta, term: int, alg: string)
  {
    if !was.destroyed && Ciphertext(slot) in before then
      var b := BindingOf(tables, before, slot, was.binding);
      var p := Plaintext(tables, oldTerms, before, slot, was.binding);
      && b.Some? && p.Some?
      && vm == was.(binding := NewBinding(b.value, term, alg))
      && Rewritten(tables, terms, after, slot, vm.binding, p.value)
    else
      vm == was && SameAt(before, after, slot)
  }

  /** The slot is a version of some record. */
  ghost predicate Known(metas: map<string, Meta>, slot: Slot) {
    && slot.path in metas
    && exists j :: 0 <= j < |metas[slot.path].versions| && metas[slot.path].versions[j].version == slot.version
  }

  /** What became of the whole vault. */
  ghost predicate MigratedFrom(
    tables: Tables, oldTerms: map<int, Dek>, before: Files, was: map<string, Meta>,
    terms: map<int, Dek>, after: Files, metas: map<string, Meta>, term: int, alg: string, now: int)
  {
    && metas.Keys == was.Keys
    && (forall slot :: !Known(was, slot) ==> SameAt(before, after, slot))
    && forall p :: p in was ==>
         && metas[p] == was[p].(versions := metas[p].versions, updatedAt := now)
         && |metas[p].versions| == |was[p].versions|
         && forall j :: 0 <= j < |was[p].versions| ==>
              VersionMigrated(tables, oldTerms, before, terms, after,
                              Slot(p, was[p].versions[j].version), was[p].versions[j], metas[p].versions[j], term, alg)
  }

  lemma CompleteVersion(
    tables: Tables, oldTerms: map<int, Dek>, before: Files, terms: map<int, Dek>, after: Files,
    list: seq<Meta>, items: seq<Item>, backups: seq<Backup>, rebound: seq<Meta>, term: int, alg: string, i: nat, j: nat)
    requires WellFormed(list) && ItemsUpTo(tables, oldTerms, before, list, items, |list|, 0)
    requires Progress(tables, terms, before, after, items, |items|, backups, term, alg)
    requires Rebound(list, rebound, items, |items|, term, alg) && InRange(list, i, j)
    ensures VersionMigrated(tables, oldTerms, before, terms, after,
                            SlotAt(list, i, j), list[i].versions[j], rebound[i].versions[j], term, alg)
  {
    var slot := SlotAt(list, i, j);
    assert items[..|items|] == items;
    if IsStored(list, before, i, j) {
      assert Before(i, j, |list|, 0);
      assert Has(items, i, j);
      var n :| 0 <= n < |items| && items[n].mi == i && items[n].vi == j;
      assert ItemOk(tables, oldTerms, before, list, items[n]);
    } else {
      forall k | 0 <= k < |items| ensures items[k].slot != slot && !(items[k].mi == i && items[k].vi == j) {
        assert ItemOk(tables, oldTerms, before, list, items[k]);
      }
      RestoreElsewhere(after, backups, slot);
    }
  }

  lemma CompleteElsewhere(
    tables: Tables, oldTerms: map<int, Dek>, before: Files, was: map<string, Meta>, terms: map<int, Dek>, after: Files,
    list: seq<Meta>, items: seq<Item>, backups: seq<Backup>, term: int, alg: string, slot: Slot)
    requires Lists(was, list) && ItemsUpTo(tables, oldTerms, before, list, items, |list|, 0)
    requires Progress(tables, terms, before, after, items, |items|, backups, term, alg) && !Known(was, slot)
    ensures SameAt(before, after, slot)
  {
    forall k | 0 <= k < |items| ensures items[k].slot != slot {
      assert ItemOk(tables, oldTerms, before, list, items[k]);
    }
    RestoreElsewhere(after, backups, slot);
  }

  lemma Complete(
    tables: Tables, oldTerms: map<int, Dek>, before: Files, was: map<string, Meta>,
    terms: map<int, Dek>, after: Files, metas: map<string, Meta>,
    list: seq<Meta>, items: seq<Item>, backups: seq<Backup>, rebound: seq<Meta>, term: int, alg: string, now: int)
    requires Filed(was) && Lists(was, list) && ItemsUpTo(tables, oldTerms, before, list, items, |list|, 0)
    requires Progress(tables, terms, before, after, items, |items|, backups, term, alg)
    requires Rebound(list, rebound, items, |items|, term, alg)
    requires Updated(was, metas, rebound, |rebound|, now)
    ensures MigratedFrom(tables, oldTerms, before, was, terms, after, metas, term, alg, now)
  {
    forall slot | !Known(was, slot) ensures SameAt(before, after, slot) {
      CompleteElsewhere(tables, oldTerms, before, was, terms, after, list, items, backups, term, alg, slot);
    }
    forall p | p in was
      ensures metas[p] == was[p].(versions := metas[p].versions, updatedAt := now)
      ensures |metas[p].versions| == |was[p].versions|
      ensures forall j :: 0 <= j < |was[p].versions| ==>
                VersionMigrated(tables, oldTerms, before, terms, after,
                                Slot(p, was[p].versions[j].version),
                                was[p].versions[j], metas[p].versions[j], term, alg)
    {
      assert Names(list, p);
      var i :| 0 <= i < |list| && list[i].path == p;
      assert metas[p] == rebound[i].(updatedAt := now);
      forall j | 0 <= j < |was[p].versions|
        ensures VersionMigrated(tables, oldTerms, before, terms, after,
                                Slot(p, was[p].versions[j].version),
                                was[p].versions[j], metas[p].versions[j], term, alg)
      {
        CompleteVersion(tables, oldTerms, before, terms, after, list, items, backups, rebound, term, alg, i, j);
      }
    }
  }

  /**
   * A reader of the migrated vault gets the same plaintext from every version that was readable, and a stored
   * version is decrypted under the new term and algorithm with a sidecar and a metadata copy that agree.
   */
  lemma MeaningPreserved(
    tables: Tables, oldTerms: map<int, Dek>, before: Files, was: map<string, Meta>,
    terms: map<int, Dek>, after: Files, metas: map<string, Meta>, term: int, alg: string, now: int, p: string, j: nat)
    requires tables.Sound() && (forall t :: t in oldTerms ==> t in terms && terms[t] == oldTerms[t])
    requires MigratedFrom(tables, oldTerms, before, was, terms, after, metas, term, alg, now)
    requires p in was && j < |was[p].versions|
    ensures var slot := Slot(p, was[p].versions[j].version);
            var old_, new_ := was[p].versions[j], metas[p].versions[j];
            var plain := Plaintext(tables, oldTerms, before, slot, old_.binding);
            && (plain.Some? ==> Plaintext(tables, terms, after, slot, new_.binding) == plain)
            && (!old_.destroyed && Ciphertext(slot) in before ==>
                  && plain.Some?
                  && BindingOf(tables, after, slot, new_.binding) == Some(new_.binding)
                  && Sidecar(slot) in after
                  && new_.binding.keyTerm == term && new_.binding.algorithm == alg
                  && new_.binding.rest == BindingOf(tables, before, slot, old_.binding).value.rest)
  {
  }
}
