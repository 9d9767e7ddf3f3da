// The vault a cipher migration rewrites (internal/cli/migrate_cmd.go): version files,
// metadata records, and what reading a stored version means.
module Vault {
  import opened Basics

  /** One stored version; valuePath gives each its own ciphertext path. */
  datatype Slot = Slot(path: string, version: int)

  datatype FileName = Ciphertext(slot: Slot) | Nonce(slot: Slot) | Sidecar(slot: Slot)

  type Files = map<FileName, Bytes>

  /** AADBinding: the key term and algorithm, and the fields a migration carries over. */
  datatype Binding = Binding(keyTerm: int, algorithm: string, rest: string)

  datatype VersionMeta = VersionMeta(version: int, destroyed: bool, binding: Binding)

  datatype Meta = Meta(path: string, versions: seq<VersionMeta>, updatedAt: int)

  type Dek = Bytes

  datatype Sealed = Sealed(algorithm: string, dek: Dek, ct: Bytes, nonce: Bytes, aad: Bytes)

  /**
   * JSON, AAD encoding and envelope decryption as arbitrary partial tables; a missing entry is an error.
   */
  datatype Tables = Tables(
    json: imap<Binding, Bytes>, parse: imap<Bytes, Binding>, aad: imap<Binding, Bytes>, unseal: imap<Sealed, Bytes>)
  {
    /** Unmarshal gives back what Marshal was given. */
    ghost predicate Sound() {
      forall b :: b in json ==> json[b] in parse && parse[json[b]] == b
    }
  }

  /** The binding a version is decrypted with: its sidecar, or the metadata copy when there is none. */
  function BindingOf(tables: Tables, files: Files, slot: Slot, fallback: Binding): (b: Option<Binding>)
  {
    if Sidecar(slot) !in files then Some(fallback)
    else if files[Sidecar(slot)] in tables.parse then Some(tables.parse[files[Sidecar(slot)]])
    else None
  }

  /** Decryption needs the key of the binding's term and the binding as it was encoded when the version was sealed. */
  function Unseal(tables: Tables, terms: map<int, Dek>, b: Binding, ct: Bytes, nonce: Bytes): (plaintext: Option<Bytes>)
    ensures plaintext.Some? <==>
              && b in tables.aad && b.keyTerm in terms
              && Sealed(b.algorithm, terms[b.keyTerm], ct, nonce, tables.aad[b]) in tables.unseal
    ensures plaintext.Some? ==>
              plaintext.value == tables.unseal[Sealed(b.algorithm, terms[b.keyTerm], ct, nonce, tables.aad[b])]
  {
    if b !in tables.aad || b.keyTerm !in terms then None
    else
      var sealed := Sealed(b.algorithm, terms[b.keyTerm], ct, nonce, tables.aad[b]);
      if sealed in tables.unseal then Some(tables.unseal[sealed]) else None
  }

  /** What a reader of this version gets. */
  function Plaintext(tables: Tables, terms: map<int, Dek>, files: Files, slot: Slot, fallback: Binding)
    : (p: Option<Bytes>)
  {
    if Ciphertext(slot) !in files || Nonce(slot) !in files then None
    else
      var b := BindingOf(tables, files, slot, fallback);
      if b.None? then None else Unseal(tables, terms, b.value, files[Ciphertext(slot)], files[Nonce(slot)])
  }

  /** These two file systems hold the same files for a slot. */
  ghost predicate SameAt(f: Files, g: Files, slot: Slot) {
    && (Ciphertext(slot) in f <==> Ciphertext(slot) in g)
    && (Nonce(slot) in f <==> Nonce(slot) in g)
    && (Sidecar(slot) in f <==> Sidecar(slot) in g)
    && (Ciphertext(slot) in f ==> f[Ciphertext(slot)] == g[Ciphertext(slot)])
    && (Nonce(slot) in f ==> f[Nonce(slot)] == g[Nonce(slot)])
    && (Sidecar(slot) in f ==> f[Sidecar(slot)] == g[Sidecar(slot)])
  }

  /** migrateBackup: the original files of one version; no binding means there was no sidecar. */
  datatype Backup = Backup(slot: Slot, ct: Bytes, nonce: Bytes, binding: Option<Bytes>)

  function RestoreSidecar(files: Files, b: Backup): (after: Files)
  {
    if b.binding.Some? then files[Sidecar(b.slot) := b.binding.value] else files - {Sidecar(b.slot)}
  }

  function RestoreOne(files: Files, b: Backup): (after: Files)
  {
    RestoreSidecar(files[Ciphertext(b.slot) := b.ct][Nonce(b.slot) := b.nonce], b)
  }

  /** Every backup put back, in order. */
  function Restore(files: Files, backups: seq<Backup>): (after: Files)
  {
    if backups == [] then files
    else RestoreOne(Restore(files, backups[..|backups| - 1]), backups[|backups| - 1])
  }

  function RestoreMetas(metas: map<string, Meta>, backups: seq<Meta>): (after: map<string, Meta>)
  {
    if backups == [] then metas
    else RestoreMetas(metas, backups[..|backups| - 1])[backups[|backups| - 1].path := backups[|backups| - 1]]
  }

  predicate Covers(backups: seq<Backup>, slot: Slot) {
    exists i :: 0 <= i < |backups| && backups[i].slot == slot
  }

  lemma RestoreSnoc(files: Files, backups: seq<Backup>, b: Backup)
    ensures Restore(files, backups + [b]) == RestoreOne(Restore(files, backups), b)
  {
  }

  /** Putting backups back touches only their own slots. */
  lemma {:induction false} RestoreElsewhere(files: Files, backups: seq<Backup>, slot: Slot)
    requires !Covers(backups, slot)
    ensures SameAt(Restore(files, backups), files, slot)
  {
    if backups != [] {
      var n := |backups| - 1;
      assert backups[n].slot != slot;
      assert forall i :: 0 <= i < n ==> backups[..n][i] == backups[i];
      RestoreElsewhere(files, backups[..n], slot);
    }
  }

  /** The backup holds what the slot holds. */
  predicate Snapshots(b: Backup, files: Files) {
    && Ciphertext(b.slot) in files && files[Ciphertext(b.slot)] == b.ct
    && Nonce(b.slot) in files && files[Nonce(b.slot)] == b.nonce
    && b.binding == if Sidecar(b.slot) in files then Some(files[Sidecar(b.slot)]) else None
  }

  /** Taking one more backup of an untouched slot keeps the way back. */
  lemma BackupKeepsWayBack(files: Files, backups: seq<Backup>, b: Backup)
    requires Snapshots(b, files) && !Covers(backups, b.slot)
    ensures Restore(files, backups + [b]) == Restore(files, backups)
  {
    RestoreSnoc(files, backups, b);
    RestoreElsewhere(files, backups, b.slot);
  }

  /** Two file systems that differ only in the files of one slot. */
  ghost predicate DifferOnly(f: Files, g: Files, slot: Slot) {
    forall x: FileName :: x.slot != slot ==> (x in f <==> x in g) && (x in f ==> f[x] == g[x])
  }

  /** Rewriting the files of a slot that is backed up keeps the way back. */
  lemma {:induction false} WriteKeepsWayBack(f: Files, g: Files, slot: Slot, backups: seq<Backup>)
    requires DifferOnly(f, g, slot)
    ensures DifferOnly(Restore(f, backups), Restore(g, backups), slot)
    ensures Covers(backups, slot) ==> Restore(f, backups) == Restore(g, backups)
  {
    if backups != [] {
      var n := |backups| - 1;
      WriteKeepsWayBack(f, g, slot, backups[..n]);
      if Covers(backups, slot) {
        var i :| 0 <= i < |backups| && backups[i].slot == slot;
        if i < n {
          assert backups[..n][i].slot == slot;
        } else {
          RestoreOneForgets(Restore(f, backups[..n]), Restore(g, backups[..n]), backups[n]);
        }
      }
    }
  }

  lemma RestoreOneForgets(f: Files, g: Files, b: Backup)
    requires DifferOnly(f, g, b.slot)
    ensures RestoreOne(f, b) == RestoreOne(g, b)
  {
  }

  /** The same for metadata records, of which only overwritten ones are backed up. */
  lemma RestoreMetasSnoc(metas: map<string, Meta>, backups: seq<Meta>, m: Meta)
    ensures RestoreMetas(metas, backups + [m]) == RestoreMetas(metas, backups)[m.path := m]
  {
  }

  lemma {:induction false} RestoreMetasWrite(metas: map<string, Meta>, path: string, m: Meta, backups: seq<Meta>)
    requires forall i :: 0 <= i < |backups| ==> backups[i].path != path
    ensures RestoreMetas(metas[path := m], backups) == RestoreMetas(metas, backups)[path := m]
  {
    if backups != [] {
      var n := |backups| - 1;
      assert backups[n].path != path;
      RestoreMetasWrite(metas, path, m, backups[..n]);
      var r := RestoreMetas(metas, backups[..n]);
      assert r[path := m][backups[n].path := backups[n]] == r[backups[n].path := backups[n]][path := m];
    }
  }

  /** Two file systems that differ only in the files of these slots. */
  ghost predicate DifferWithin(f: Files, g: Files, slots: set<Slot>) {
    forall x: FileName :: x.slot !in slots ==> (x in f <==> x in g) && (x in f ==> f[x] == g[x])
  }

  ghost predicate RecordsDifferWithin(a: map<string, Meta>, b: map<string, Meta>, paths: set<string>) {
    forall p :: p !in paths ==> (p in a <==> p in b) && (p in a ==> a[p] == b[p])
  }

  /** A slot put back in both is no new difference. */
  lemma RestoreBoth(f: Files, g: Files, slots: set<Slot>, b: Backup)
    requires DifferWithin(f, g, slots)
    ensures DifferWithin(RestoreOne(f, b), RestoreOne(g, b), slots)
  {
  }

  /** A slot put back in one, and changed in whatever way in the other, is the one new difference. */
  lemma RestoreHalf(f: Files, after: Files, g: Files, slots: set<Slot>, b: Backup)
    requires DifferWithin(f, g, slots) && DifferOnly(f, after, b.slot)
    ensures DifferWithin(after, RestoreOne(g, b), slots + {b.slot})
  {
  }

  lemma DifferNowhere(f: Files, g: Files)
    requires DifferWithin(f, g, {})
    ensures f == g
  {
    forall x ensures (x in f <==> x in g) && (x in f ==> f[x] == g[x]) {
      assert x.slot !in {};
    }
  }

  lemma RecordsDifferNowhere(a: map<string, Meta>, b: map<string, Meta>)
    requires RecordsDifferWithin(a, b, {})
    ensures a == b
  {
    forall p ensures (p in a <==> p in b) && (p in a ==> a[p] == b[p]) {
      assert p !in {};
    }
  }
}
