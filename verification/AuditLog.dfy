// The audit logger (internal/audit/log.go, internal/audit/audit.go) over a disk whose
// opens, renames, removals, writes and fsyncs may each fail.
module AuditLog {
  import opened Basics
  import opened Lines
  import opened ChainFormat
  import opened Chain
  import opened ChainFacts
  import opened Archive
  import opened ArchiveRuns

  datatype FsResult = Done | NotExist | Failed

  /** The log directory. Every operation may fail, and a failed one changes nothing but the count of failures. */
  class Disk {
    var files: Files
    /** The outcome of the fsync of every written line, in order. */
    var syncs: seq<bool>
    /** How many operations have failed, those on open files and in memory included. */
    ghost var faults: nat

    /** os.Rename. The model only renames to a name that is free. */
    method Rename(from: Name, to: Name) returns (r: FsResult)
      requires to !in files && from != to
      modifies this`files, this`faults
      ensures r == Done ==> from in old(files) && files == Moved(old(files), from, to)
      ensures r != Done ==> files == old(files)
      ensures r == NotExist ==> from !in files
      ensures faults == old(faults) + if r == Failed then 1 else 0
    {
      var ok := Attempt();
      if !ok {
        return Failed;
      }
      if from !in files {
        return NotExist;
      }
      files := Moved(files, from, to);
      return Done;
    }

    method Remove(name: Name) returns (r: FsResult)
      modifies this`files, this`faults
      ensures r == Done ==> name in old(files) && files == old(files) - {name}
      ensures r != Done ==> files == old(files)
      ensures r == NotExist ==> name !in files
      ensures faults == old(faults) + if r == Failed then 1 else 0
    {
      var ok := Attempt();
      if !ok {
        return Failed;
      }
      if name !in files {
        return NotExist;
      }
      files := files - {name};
      return Done;
    }

    /** openLogFile on the live path: O_CREATE | O_RDWR | O_APPEND. */
    method OpenAppend() returns (ok: bool)
      modifies this`files, this`faults
      ensures files == if ok && Live !in old(files) then old(files)[Live := []] else old(files)
      ensures faults == old(faults) + if ok then 0 else 1
    {
      ok := Attempt();
      if ok && Live !in files {
        files := files[Live := []];
      }
    }

    /** One Write of a line and its newline; a failed write leaves no bytes. */
    method Append(line: Bytes) returns (ok: bool)
      requires Live in files
      modifies this`files, this`faults
      ensures files == if ok then old(files)[Live := old(files)[Live] + [line]] else old(files)
      ensures faults == old(faults) + if ok then 0 else 1
    {
      ok := Attempt();
      if ok {
        files := files[Live := files[Live] + [line]];
      }
    }

    /** The fsync after a Write. */
    method Sync() returns (ok: bool)
      modifies this`syncs, this`faults
      ensures syncs == old(syncs) + [ok]
      ensures faults == old(faults) + if ok then 0 else 1
    {
      ok := Attempt();
      syncs := syncs + [ok];
    }

    /** Renaming a finished temporary file over the live one. */
    method ReplaceLive(lines: seq<Bytes>) returns (ok: bool)
      modifies this`files, this`faults
      ensures files == if ok then old(files)[Live := lines] else old(files)
      ensures faults == old(faults) + if ok then 0 else 1
    {
      ok := Attempt();
      if ok {
        files := files[Live := lines];
      }
    }

    /** Anything else that may fail: a Stat, a seek, sealing a line, closing a file, writing a temporary one. */
    method Attempt() returns (ok: bool)
      modifies this`faults
      ensures faults == old(faults) + if ok then 0 else 1
    {
      ok := *;
      if !ok {
        faults := faults + 1;
      }
    }

    /** A read has failed. */
    ghost method ReadFailed()
      modifies this`faults
      ensures faults == old(faults) + 1
    {
      faults := faults + 1;
    }
  }

  lemma SelectLinesOk(lines: seq<Bytes>, keep: seq<nat>)
    requires LinesOk(lines) && IsSelection(keep, |lines|)
    ensures LinesOk(Select(lines, keep))
  {
  }

  /** l.file: absent, usable, or left non-nil after its descriptor was closed. */
  datatype Handle = NoFile | Open | Dead

  datatype LogError =
    | LogClosed | Unavailable | LogCorrupt | SealFailed | WriteFailed | FsyncFailed | RotateFailed | ReseedFailed

  const ROTATE_RETRY: int := 60_000_000_000

  /** The place in the chain the next written header will claim. */
  function NextHeader(seqNo: int, prevHmac: Mac): (link: (int, Mac))
  {
    (seqNo + 1, if prevHmac.Unset? && seqNo + 1 == 1 then ZERO_MAC else prevHmac)
  }

  function HeaderFor(seqNo: int, prevHmac: Mac, e: Event): (h: Header)
  {
    Header(NextHeader(seqNo, prevHmac).0, NextHeader(seqNo, prevHmac).1, e.ts)
  }

  /** A logger in this chain state claims the place the lines ask for. */
  ghost predicate Synced(c: Codec, seqNo: int, prevHmac: Mac, lines: seq<Bytes>) {
    NextHeader(seqNo, prevHmac) == NextLink(c, lines)
  }

  /** A chain state that one more line completed fits no longer once that line is in the file. */
  lemma NotSyncedAnyMore(c: Codec, lines: seq<Bytes>, seqNo: int, prevHmac: Mac, line: Bytes)
    requires Synced(c, seqNo + 1, c.Hmac(line), lines)
    ensures !Synced(c, seqNo, prevHmac, lines)
  {
  }

  lemma SeededInSync(c: Codec, lines: seq<Bytes>)
    requires c.Sound() && lines != [] && ParseHeader(c, LastOf(lines)).Ok?
    ensures Synced(c, ParseHeader(c, LastOf(lines)).value.seqNo, c.Hmac(LastOf(lines)), lines)
  {
    SeedFromLastLine(c, lines);
  }

  lemma SyncedAfter(c: Codec, lines: seq<Bytes>, seqNo: int, line: Bytes)
    requires c.Hmac(line).Hex? && NextLink(c, lines + [line]) == (seqNo + 1, c.Hmac(line))
    ensures Synced(c, seqNo, c.Hmac(line), lines + [line])
  {
  }

  /** The last non-blank line of a file of any bytes. */
  function LastLine(data: Bytes): (line: Bytes)
  {
    TrimNewlines(LastLineSuffix(data))
  }

  /** seedChainState on a file of any bytes: its last line's sequence number and MAC, or why it has none. */
  method ReadChainTail(c: Codec, data: Bytes, failing: set<nat>) returns (r: Result<(int, Mac), LogError>)
    ensures r.Ok? ==>
              && ParseHeader(c, LastLine(data)).Ok?
              && r.value == (ParseHeader(c, LastLine(data)).value.seqNo, c.Hmac(LastLine(data)))
    ensures r.Err? ==> r.error == Unavailable || (r.error == LogCorrupt && ParseHeader(c, LastLine(data)).Err?)
    ensures failing == {} ==> (r == Err(LogCorrupt) <==> ParseHeader(c, LastLine(data)).Err?)
    ensures r == Err(Unavailable) <==> ReadFails(data, 4096, failing, |data|)
  {
    var lastLine := ReadLastLine(data, 4096, failing);
    if lastLine.None? {
      return Err(Unavailable);
    }
    var line := TrimNewlines(lastLine.value);
    match ParseHeader(c, line) {
      case Err(_) => return Err(LogCorrupt);
      case Ok(hdr) => return Ok((hdr.seqNo, c.Hmac(line)));
    }
  }

  /** The chain can be continued from these lines: there are none, or the last one's header parses. */
  predicate Continuable(c: Codec, lines: seq<Bytes>) {
    lines == [] || ParseHeader(c, LastOf(lines)).Ok?
  }

  /** Prune drops a line when it decodes to an event before the cutoff. */
  predicate Expired(c: Codec, keys: seq<Key>, cutoff: int, line: Bytes) {
    var e := DecodeLine(c, keys, line);
    e.Some? && e.value.ts < cutoff
  }

  /** keep lists exactly the positions of the lines Prune does not drop. */
  ghost predicate KeepsUnexpired(c: Codec, keys: seq<Key>, cutoff: int, lines: seq<Bytes>, keep: seq<nat>) {
    && IsSelection(keep, |lines|)
    && forall i: nat :: i in keep <==>
         && i < |lines|
         && !(DecodeLine(c, keys, lines[i]).Some? && DecodeLine(c, keys, lines[i]).value.ts < cutoff)
  }

  /** A line the logger wrote is one Prune drops exactly when its event is older than the cutoff. */
  lemma WrittenLineExpires(
    c: Codec, key: Key, readKeys: seq<Key>, nonce: Bytes, h: Header, e: Event, cutoff: int)
    requires c.Sound() && |nonce| == NONCE_LEN
    ensures Expired(c, [key] + readKeys, cutoff, Render(c, key, nonce, h, e)) <==> e.ts < cutoff
  {
    RenderDecodes(c, key, readKeys, nonce, h, e);
  }

  /** Keeping as many positions as there are lines is keeping each where it is. */
  lemma {:induction false} AllKept(keep: seq<nat>)
    requires IsSelection(keep, |keep|)
    ensures forall j :: 0 <= j < |keep| ==> keep[j] == j
  {
    if keep != [] {
      var front := keep[..|keep| - 1];
      assert forall j :: 0 <= j < |front| ==> front[j] < keep[|keep| - 1];
      AllKept(front);
      assert forall j :: 0 <= j < |front| ==> keep[j] == front[j];
      assert |front| > 0 ==> keep[|keep| - 2] == |keep| - 2;
    }
  }

  lemma SelectAll(lines: seq<Bytes>, keep: seq<nat>)
    requires IsSelection(keep, |lines|) && |keep| == |lines|
    ensures Select(lines, keep) == lines
  {
    AllKept(keep);
  }

  /** Prune's scan (the logger's files have no blank lines to skip). */
  method SelectKept(c: Codec, keys: seq<Key>, cutoff: int, lines: seq<Bytes>)
    returns (kept: seq<Bytes>, pruned: nat, ghost keep: seq<nat>)
    ensures KeepsUnexpired(c, keys, cutoff, lines, keep)
    ensures kept == Select(lines, keep) && pruned == |lines| - |kept|
  {
    kept, pruned, keep := [], 0, [];
    for i := 0 to |lines|
      invariant IsSelection(keep, i) && kept == Select(lines, keep)
      invariant forall j: nat :: j in keep <==> j < i && !Expired(c, keys, cutoff, lines[j])
      invariant pruned == i - |kept|
    {
      if Expired(c, keys, cutoff, lines[i]) {
        pruned := pruned + 1;
      } else {
        assert Select(lines, keep + [i]) == Select(lines, keep) + [lines[i]];
        kept := kept + [lines[i]];
        keep := keep + [i];
      }
    }
  }

  /** After pruning: exactly the unexpired lines are left in the live file, and the other files are as they were. */
  ghost predicate PrunedTo(
    c: Codec, keys: seq<Key>, cutoff: int, before: Files, after: Files, keep: seq<nat>)
  {
    && Live in before && Live in after && SameGenerations(before, after)
    && KeepsUnexpired(c, keys, cutoff, before[Live], keep)
    && after[Live] == Select(before[Live], keep)
  }

  lemma PrunedToKept(
    c: Codec, keys: seq<Key>, cutoff: int, before: Files, keep: seq<nat>)
    requires Live in before && KeepsUnexpired(c, keys, cutoff, before[Live], keep)
    ensures PrunedTo(c, keys, cutoff, before, before[Live := Select(before[Live], keep)], keep)
    ensures |keep| == |before[Live]| ==> PrunedTo(c, keys, cutoff, before, before, keep)
  {
    if |keep| == |before[Live]| {
      SelectAll(before[Live], keep);
    }
  }

  /** The dropped file, if any, is generation `retain`. */
  ghost predicate OldestOrNone(cfg: Config, files: Files, dropped: seq<seq<Bytes>>) {
    dropped == [] || (Gen(cfg.Retain()) in files && dropped == [files[Gen(cfg.Retain())]])
  }

  /**
   * One fsync per added line. What the next line will meet is decided by the last of them: the logger is left stale
   * exactly when it failed, and as it was when nothing was added.
   */
  ghost predicate FsyncsOf(before: seq<bool>, after: seq<bool>, added: seq<Bytes>, wasStale: bool, stale: bool) {
    && before <= after && |after| == |before| + |added|
    && stale == if added == [] then wasStale else !after[|after| - 1]
  }

  lemma FsyncsTrans(
    a: seq<bool>, b: seq<bool>, c: seq<bool>, x: seq<Bytes>, y: seq<Bytes>, first: bool, second: bool, third: bool)
    requires FsyncsOf(a, b, x, first, second) && FsyncsOf(b, c, y, second, third)
    ensures FsyncsOf(a, c, x + y, first, third)
  {
    if y == [] {
      assert c == b && x + y == x;
    }
  }

  /** Writing to the live file does not change which file is the oldest generation. */
  lemma SameOldest(cfg: Config, before: Files, after: Files, dropped: seq<seq<Bytes>>, landed: seq<Bytes>)
    requires Grew(before, after, landed) && OldestOrNone(cfg, after, dropped)
    ensures OldestOrNone(cfg, before, dropped)
  {
  }

  /** The newest file is the live one, if there is one. */
  lemma NewestIsLive(cfg: Config, files: Files)
    requires Live in files
    ensures ArchiveOf(cfg, files) != [] && LastFile(ArchiveOf(cfg, files)) == LiveLines(files)
  {
  }

  /** shiftGenerations down to slot g: the slots above have moved up by one, the others are as they were. */
  ghost predicate Shifted(before: Files, after: Files, g: nat, retain: nat) {
    && (Live in before <==> Live in after) && LiveLines(before) == LiveLines(after)
    && (forall h: nat :: 1 <= h <= g && Gen(h) in before ==> Gen(h) in after && after[Gen(h)] == before[Gen(h)])
    && (forall h: nat :: g < h < retain && Gen(h) in before ==>
          Gen(h + 1) in after && after[Gen(h + 1)] == before[Gen(h)])
  }

  lemma ShiftedNext(start: Files, files: Files, after: Files, g: nat, retain: nat)
    requires Shifted(start, files, g, retain) && 1 <= g < retain && Gen(g + 1) !in files
    requires after == if Gen(g) in files then Moved(files, Gen(g), Gen(g + 1)) else files
    ensures Shifted(start, after, g - 1, retain)
  {
  }

  lemma ShiftedAges(cfg: Config, before: Files, after: Files, g: nat)
    requires FilesOk(cfg, before) && Shifted(before, after, g, cfg.Retain())
    ensures Aged(cfg, before, after, 1)
  {
    forall n | n in before && Slot(n) + 1 <= cfg.Retain() ensures Survives(before[n], after, Slot(n) + 1) {
      var m := if n.Live? then Live else if n.g <= g then Gen(n.g) else Gen(n.g + 1);
      assert n == if n.Live? then Live else Gen(n.g);
      assert m in after && after[m] == before[n];
    }
  }

  /** After the live file, too, has moved up by one, and perhaps a new one been created. */
  lemma SwappedAges(cfg: Config, before: Files, shifted: Files, after: Files)
    requires FilesOk(cfg, before) && Live in before && Shifted(before, shifted, 0, cfg.Retain())
    requires after == Moved(shifted, Live, Gen(1)) || after == Moved(shifted, Live, Gen(1))[Live := []]
    ensures Aged(cfg, before, after, 1)
  {
    forall n | n in before && Slot(n) + 1 <= cfg.Retain() ensures Survives(before[n], after, Slot(n) + 1) {
      var m := if n.Live? then Gen(1) else Gen(n.g + 1);
      assert n == if n.Live? then Live else Gen(n.g);
      assert m in after && after[m] == before[n];
    }
  }

  /** The first sentinel of a rotation, where it landed. */
  ghost predicate Ended(cfg: Config, before: Files, ended: Files, ts: int, added: seq<Bytes>, wasStale: bool) {
    var archive := ArchiveOf(cfg, before);
    && SameGenerations(before, ended) && |added| <= 1 && SentinelsOf(cfg, ts, added) && Aged(cfg, before, ended, 0)
    && (added == [] ==> ended == before)
    && (added != [] ==>
          && archive != [] && ArchiveOf(cfg, ended) == Extended(archive, added[0])
          && Fault(cfg, LastFile(archive), added[0]) == if wasStale then 1 else 0)
  }

  /** The oldest file of the archive, generation `retain`, is the one that goes, if any. */
  ghost predicate DropsOldest(cfg: Config, files: Files, dropped: bool) {
    dropped ==>
      && Gen(cfg.Retain()) in files && |ArchiveOf(cfg, files)| > 1
      && ArchiveOf(cfg, files)[0] == files[Gen(cfg.Retain())]
  }

  /** All of a rotation: the shape it leaves, what it wrote, and how far files moved. */
  ghost predicate Rotated(
    cfg: Config, before: Files, after: Files, ts: int, added: seq<Bytes>, dropped: bool, wasStale: bool)
  {
    var archive := ArchiveOf(cfg, before);
    && RotateShape(archive, ArchiveOf(cfg, after), added, dropped) && DropsOldest(cfg, before, dropped)
    && SentinelsOf(cfg, ts, added) && (|added| == 2 ==> Accepted(cfg.c, cfg.mode, [added[1]]))
    && (added != [] ==> archive != [] && Fault(cfg, LastFile(archive), added[0]) == if wasStale then 1 else 0)
    && (added == [] ==> after == before)
    && Aged(cfg, before, after, if added == [] then 0 else 1)
  }

  lemma DropsOldestBefore(
    cfg: Config, before: Files, ended: Files, ts: int, added: seq<Bytes>, wasStale: bool, dropped: bool)
    requires Ended(cfg, before, ended, ts, added, wasStale) && DropsOldest(cfg, ended, dropped)
    ensures DropsOldest(cfg, before, dropped)
  {
  }

  lemma RotatedShort(cfg: Config, before: Files, ended: Files, ts: int, added: seq<Bytes>, wasStale: bool)
    requires Ended(cfg, before, ended, ts, added, wasStale)
    ensures Rotated(cfg, before, ended, ts, added, false, wasStale)
  {
    if added != [] {
      RotateShapeKept(ArchiveOf(cfg, before), added, false);
      AgedMore(cfg, before, ended, 0, 1);
    }
  }

  lemma RotatedKept(
    cfg: Config, before: Files, ended: Files, after: Files, ts: int, added: seq<Bytes>, wasStale: bool, dropped: bool)
    requires Ended(cfg, before, ended, ts, added, wasStale) && added != [] && DropsOldest(cfg, ended, dropped)
    requires ArchiveOf(cfg, after) == WithoutOldest(ArchiveOf(cfg, ended), dropped) && Aged(cfg, ended, after, 1)
    ensures Rotated(cfg, before, after, ts, added, dropped, wasStale)
  {
    DropsOldestBefore(cfg, before, ended, ts, added, wasStale, dropped);
    RotateShapeKept(ArchiveOf(cfg, before), added, dropped);
    AgedTrans(cfg, before, ended, after, 0, 1);
  }

  lemma RotatedOn(
    cfg: Config, before: Files, ended: Files, swapped: Files, after: Files, ts: int,
    added: seq<Bytes>, more: seq<Bytes>, wasStale: bool, dropped: bool)
    requires Ended(cfg, before, ended, ts, added, wasStale) && added != [] && DropsOldest(cfg, ended, dropped)
    requires Aged(cfg, ended, swapped, 1) && Aged(cfg, swapped, after, 0) && |more| <= 1
    requires Generations(swapped, 1, cfg.Retain()) == WithoutOldest(ArchiveOf(cfg, ended), dropped)
    requires ArchiveOf(cfg, after) == Generations(swapped, 1, cfg.Retain()) + [more]
    requires more != [] ==>
               && DecodeLine(cfg.c, [cfg.key], more[0]) == Some(Event(ts, Continued(cfg.c.Hmac(added[0]))))
               && Accepted(cfg.c, cfg.mode, [more[0]])
    ensures Rotated(cfg, before, after, ts, added + more, dropped, wasStale)
  {
    DropsOldestBefore(cfg, before, ended, ts, added, wasStale, dropped);
    RotateShapeNewFile(ArchiveOf(cfg, before), added, more, dropped);
    JoinSentinels(cfg, ts, added, more);
    assert (added + more)[0] == added[0];
    AgedTrans(cfg, before, ended, swapped, 0, 1);
    AgedTrans(cfg, before, swapped, after, 1, 0);
  }

  /** What a call did to the archive: `added` landed, of which the first line is bad if the logger was stale. */
  ghost predicate Went(
    cfg: Config, before: Files, after: Files, added: seq<Bytes>, dropped: seq<seq<Bytes>>, wasStale: bool)
  {
    && Advanced(cfg, before, after, added, dropped, if added != [] && wasStale then 1 else 0)
    && OldestOrNone(cfg, before, dropped) && Markers(cfg, added) <= 1
  }

  lemma WentNowhere(cfg: Config, files: Files, wasStale: bool)
    ensures Went(cfg, files, files, [], [], wasStale)
  {
    AdvancedSame(cfg, files);
  }

  /** What logging an event did: its line first, good behind whatever the file held unless the logger was stale. */
  ghost predicate Logged(
    cfg: Config, before: Files, after: Files, e: Event, added: seq<Bytes>, dropped: seq<seq<Bytes>>, wasStale: bool)
  {
    && Went(cfg, before, after, added, dropped, wasStale)
    && Payloads(cfg.c, cfg.key, added) == (if added == [] then [] else [e])
    && (added != [] ==>
          && DecodeLine(cfg.c, [cfg.key], added[0]) == Some(e)
          && (Verdict(cfg.c, cfg.mode, LiveLines(before), added[0]).None? <==> !wasStale)
          && Held(after, added[0], Markers(cfg, added)))
    && (Markers(cfg, added) == 0 ==> Grew(before, after, added) && |added| <= 1)
  }

  /** One event written, nothing else. */
  lemma LoggedAlone(cfg: Config, before: Files, after: Files, e: Event, added: seq<Bytes>, wasStale: bool)
    requires Grew(before, after, added) && |added| <= 1 && e.body.Payload?
    requires added != [] ==>
               && DecodeLine(cfg.c, [cfg.key], added[0]) == Some(e)
               && (Verdict(cfg.c, cfg.mode, LiveLines(before), added[0]).None? <==> !wasStale)
    ensures Logged(cfg, before, after, e, added, [], wasStale) && Markers(cfg, added) == 0
  {
    PayloadAdvances(cfg, before, after, e, added);
    if added != [] {
      assert LiveLines(after)[|LiveLines(before)|] == added[0];
      assert added[0] in after[Live];
    }
  }

  /** And then a rotation attempt. */
  lemma LoggedThenRotated(
    cfg: Config, before: Files, written: Files, after: Files, e: Event, added: seq<Bytes>, more: seq<Bytes>,
    dropped: seq<seq<Bytes>>, wasStale: bool)
    requires Logged(cfg, before, written, e, added, [], wasStale) && |added| == 1 && Markers(cfg, added) == 0
    requires Went(cfg, written, after, more, dropped, false) && Payloads(cfg.c, cfg.key, more) == []
    requires if more == [] then after == written else Markers(cfg, more) == 1
    ensures Logged(cfg, before, after, e, added + more, dropped, wasStale)
  {
    WriteThenRotate(cfg, before, written, after, added, if wasStale then 1 else 0, more, dropped, 0);
    HeldAges(cfg, written, after, added[0], 0, Markers(cfg, more));
    SameOldest(cfg, before, written, dropped, added);
    if more == [] {
      assert added + more == added;
    }
    assert (added + more)[0] == added[0];
  }

  /**
   * What became of the rotation behind an event. It was due exactly when Stat succeeded, the file had passed the size
   * cap and the retry time had come; it then completed, with both sentinels in sync, or was put off. Otherwise
   * nothing more landed. Only a failing operation keeps a rotation that is due from completing.
   */
  ghost predicate RotatedIfDue(
    statFails: bool, size: int, maxSize: int, now: int, retryAt: int, more: seq<Bytes>, stale: bool, nextRetry: int,
    failed: bool)
  {
    if !statFails && size > maxSize && now >= retryAt then
      && nextRetry == (if |more| == 2 && !stale then retryAt else now + ROTATE_RETRY)
      && (!failed ==> |more| == 2 && !stale)
    else
      more == [] && nextRetry == retryAt
  }

  class Logger {
    const cfg: Config
    const disk: Disk
    const maxSize: int
    var handle: Handle
    var seqNo: int
    var prevHmac: Mac
    var closed: bool
    var nextRotate: int
    /** The last line written was not synced, and its place in the chain is about to be claimed again. */
    ghost var stale: bool

    /** The in-memory chain state is the one the live file asks for. */
    ghost predicate InSync()
      reads this`seqNo, this`prevHmac, disk`files
    {
      Synced(cfg.c, seqNo, prevHmac, LiveLines(disk.files))
    }

    ghost predicate Valid()
      reads this`handle, this`seqNo, this`prevHmac, this`closed, this`stale, disk`files
    {
      && cfg.Valid()
      && FilesOk(cfg, disk.files)
      && (handle.Open? ==> Live in disk.files && !closed && (InSync() <==> !stale))
    }

    /** The next line written will be a bad one. */
    ghost predicate StaleNow()
      reads this`handle, this`stale
    {
      handle.Open? && stale
    }

    /** Not closed, and the file is open or can be opened: only a failing operation can make a call fail. */
    ghost predicate Usable()
      reads this`handle, this`closed, disk`files
    {
      && !closed && !handle.Dead?
      && (handle.NoFile? ==> Continuable(cfg.c, LiveLines(disk.files)))
    }

    ghost function Files(): (archive: seq<seq<Bytes>>)
      reads disk`files
    {
      ArchiveOf(cfg, disk.files)
    }

    constructor (cfg: Config, disk: Disk, maxSize: int)
      ensures this.cfg == cfg && this.disk == disk && this.maxSize == maxSize
      ensures handle == NoFile && !closed && !stale
    {
      this.cfg, this.disk, this.maxSize := cfg, disk, maxSize;
      handle, seqNo, prevHmac, closed, nextRotate, stale := NoFile, 0, Unset, false, 0, false;
    }

    /** The state that the last line of the file leaves, and whether reading it failed. */
    method ReadTail(lines: seq<Bytes>) returns (r: Result<(int, Mac), LogError>)
      requires LinesOk(lines) && lines != []
      modifies disk`faults
      ensures r.Ok? ==>
                && ParseHeader(cfg.c, LastOf(lines)).Ok?
                && r.value == (ParseHeader(cfg.c, LastOf(lines)).value.seqNo, cfg.c.Hmac(LastOf(lines)))
      ensures r.Err? ==> r.error == Unavailable || (r.error == LogCorrupt && !Continuable(cfg.c, lines))
      ensures disk.faults == old(disk.faults) + if r == Err(Unavailable) then 1 else 0
    {
      LastLineOfFile(lines);
      var failing: set<nat> := *;
      r := ReadChainTail(cfg.c, Unlines(lines), failing);
      if r == Err(Unavailable) {
        disk.ReadFailed();
      }
    }

    /** seedChainState: restores seq and prevHMAC from the last line of the file, which may be corrupt. */
    method SeedChainState() returns (r: Option<LogError>)
      requires cfg.Valid() && FilesOk(cfg, disk.files) && Live in disk.files
      modifies this`seqNo, this`prevHmac, this`stale, disk`faults
      ensures r.None? ==> InSync() && !stale && Continuable(cfg.c, disk.files[Live])
      ensures r.Some? ==> seqNo == old(seqNo) && prevHmac == old(prevHmac) && stale == old(stale)
      ensures r.Some? ==>
                r.value == Unavailable || (r.value == LogCorrupt && !Continuable(cfg.c, disk.files[Live]))
      ensures disk.faults >= old(disk.faults)
      ensures r.None? <==> disk.faults == old(disk.faults) && Continuable(cfg.c, disk.files[Live])
    {
      var statted := disk.Attempt();
      if !statted {
        return Some(Unavailable);
      }
      var lines := disk.files[Live];
      assert LinesOk(lines);
      if |lines| == 0 {
        seqNo, prevHmac, stale := 0, Unset, false;
        return None;
      }
      var tail := ReadTail(lines);
      if tail.Err? {
        return Some(tail.error);
      }
      seqNo, prevHmac, stale := tail.value.0, tail.value.1, false;
      SeededInSync(cfg.c, lines);
      return None;
    }

    /** ensureFile: reopens the log after a failed rotation. */
    method EnsureFile() returns (r: Option<LogError>)
      requires Valid()
      modifies this`handle, this`seqNo, this`prevHmac, this`stale, disk`files, disk`faults
      ensures Valid() && Grew(old(disk.files), disk.files, [])
      ensures r.None? ==> !closed && !handle.NoFile?
      ensures old(handle) != NoFile || closed ==>
                && disk.files == old(disk.files) && handle == old(handle)
                && seqNo == old(seqNo) && prevHmac == old(prevHmac)
      ensures if old(handle).NoFile? && handle.Open? then !stale else handle == old(handle) && stale == old(stale)
      ensures closed ==> r == Some(LogClosed)
      ensures r.None? || r == Some(LogClosed) || r == Some(Unavailable)
      ensures disk.faults >= old(disk.faults)
      ensures old(Usable()) ==> (r.None? <==> disk.faults == old(disk.faults))
    {
      assert LiveLines(disk.files) + [] == LiveLines(disk.files);
      if closed {
        return Some(LogClosed);
      }
      if handle != NoFile {
        return None;
      }
      var ok := disk.OpenAppend();
      if !ok {
        return Some(Unavailable);
      }
      var seeded := SeedChainState();
      if seeded.Some? {
        return Some(Unavailable);
      }
      handle := Open;
      return None;
    }

    /** Steps 1 to 6 of writeEvent: the header, then marshal, seal under a nonce and encode. */
    method SealLine(e: Event) returns (line: Bytes)
      requires Valid() && handle.Open?
      ensures LineOk(line) && DecodeLine(cfg.c, [cfg.key], line) == Some(e)
      ensures ParseHeader(cfg.c, line).Ok?
      ensures var hdr := ParseHeader(cfg.c, line).value;
              && hdr.seqNo == seqNo + 1 && hdr.ts == e.ts
              && hdr.prevHmac == if prevHmac.Unset? && seqNo == 0 then ZERO_MAC else prevHmac
      ensures Synced(cfg.c, seqNo + 1, cfg.c.Hmac(line), disk.files[Live] + [line])
      ensures Verdict(cfg.c, cfg.mode, disk.files[Live], line).None? <==> !stale
    {
      var hdr := HeaderFor(seqNo, prevHmac, e);
      assert |seq(NONCE_LEN, _ => 0 as byte)| == NONCE_LEN;
      var nonce: Bytes :| |nonce| == NONCE_LEN;
      RenderRoundTrip(cfg.c, cfg.key, nonce, hdr, e);
      RenderedLineLands(cfg, disk.files[Live], nonce, hdr, e);
      line := Render(cfg.c, cfg.key, nonce, hdr, e);
      SyncedAfter(cfg.c, disk.files[Live], hdr.seqNo, line);
    }

    /**
     * writeEvent from step 1 on: seals the event and appends it to the open file. A failed fsync leaves the line in
     * the file but the chain state as it was, and so the logger stale.
     */
    method AppendLine(e: Event) returns (r: Option<LogError>, ghost landed: Option<Bytes>)
      requires Valid() && handle.Open?
      modifies this`seqNo, this`prevHmac, this`stale, disk`files, disk`syncs, disk`faults
      ensures Valid()
      ensures r.None? ==> landed.Some? && !stale && prevHmac == cfg.c.Hmac(landed.value)
      ensures r.Some? ==> seqNo == old(seqNo) && prevHmac == old(prevHmac)
      ensures landed.Some? && r.Some? <==> r == Some(FsyncFailed)
      ensures r == Some(FsyncFailed) ==> stale
      ensures disk.faults >= old(disk.faults) && (r.None? <==> disk.faults == old(disk.faults))
      ensures landed.None? ==> disk.files == old(disk.files) && stale == old(stale)
      ensures disk.syncs == if landed.Some? then old(disk.syncs) + [r.None?] else old(disk.syncs)
      ensures landed.Some? ==>
                && disk.files == old(disk.files)[Live := old(disk.files)[Live] + [landed.value]]
                && LineOk(landed.value) && DecodeLine(cfg.c, [cfg.key], landed.value) == Some(e)
                && (Verdict(cfg.c, cfg.mode, old(disk.files)[Live], landed.value).None? <==> !old(stale))
                && ParseHeader(cfg.c, landed.value).Ok? && ParseHeader(cfg.c, landed.value).value.seqNo == old(seqNo) + 1
                && ParseHeader(cfg.c, landed.value).value.ts == e.ts
      ensures r.None? ==> seqNo == old(seqNo) + 1
    {
      var canSeal := disk.Attempt();
      if !canSeal {
        return Some(SealFailed), None;
      }
      var line := SealLine(e);
      AppendKeepsFilesOk(cfg, disk.files, line);
      var ok := disk.Append(line);
      if !ok {
        return Some(WriteFailed), None;
      }
      landed := Some(line);
      assert LiveLines(disk.files) == old(disk.files)[Live] + [line];
      r := SyncLine(line);
    }

    /** Steps 8 and 9: fsync, and only then the new chain state. */
    method SyncLine(line: Bytes) returns (r: Option<LogError>)
      requires cfg.Valid() && FilesOk(cfg, disk.files) && handle.Open? && !closed && Live in disk.files
      requires Synced(cfg.c, seqNo + 1, cfg.c.Hmac(line), LiveLines(disk.files))
      modifies this`seqNo, this`prevHmac, this`stale, disk`syncs, disk`faults
      ensures Valid() && (r.None? || r == Some(FsyncFailed))
      ensures r.None? ==> !stale && prevHmac == cfg.c.Hmac(line) && seqNo == old(seqNo) + 1
      ensures r.Some? ==> stale && seqNo == old(seqNo) && prevHmac == old(prevHmac)
      ensures disk.syncs == old(disk.syncs) + [r.None?]
      ensures disk.faults == old(disk.faults) + if r.None? then 0 else 1
    {
      NotSyncedAnyMore(cfg.c, disk.files[Live], seqNo, prevHmac, line);
      var synced := disk.Sync();
      if !synced {
        stale := true;
        return Some(FsyncFailed);
      }
      seqNo, prevHmac, stale := seqNo + 1, cfg.c.Hmac(line), false;
      return None;
    }

    /** writeEvent: one event, reopening the file first if need be, without the size check. */
    method WriteEvent(e: Event) returns (r: Option<LogError>, ghost landed: seq<Bytes>)
      requires Valid()
      modifies this`handle, this`seqNo, this`prevHmac, this`stale, disk`files, disk`syncs, disk`faults
      ensures Valid() && Grew(old(disk.files), disk.files, landed)
      ensures landed == [] || r.None? || r == Some(FsyncFailed)
      ensures r.None? ==> handle.Open? && |landed| == 1 && !stale && prevHmac == cfg.c.Hmac(landed[0])
      // A failed fsync leaves the line in the file but the chain out of sync: the next line will be bad.
      ensures r == Some(FsyncFailed) ==> handle.Open? && |landed| == 1 && stale
      ensures FsyncsOf(old(disk.syncs), disk.syncs, landed, old(StaleNow()), StaleNow())
      ensures landed != [] ==> |landed| == 1 && DecodeLine(cfg.c, [cfg.key], landed[0]) == Some(e)
      // The line is good where it landed exactly when the last write on this handle did not fail to sync.
      ensures landed != [] ==>
                (Verdict(cfg.c, cfg.mode, LiveLines(old(disk.files)), landed[0]).None? <==> !old(StaleNow()))
      ensures landed == [] ==>
                if old(handle).NoFile? && handle.Open? then !stale else handle == old(handle) && stale == old(stale)
      ensures closed ==>
                r == Some(LogClosed) && landed == [] && disk.files == old(disk.files) && handle == old(handle)
      ensures old(handle) != NoFile ==> handle == old(handle)
      ensures old(handle) != NoFile && landed == [] ==> disk.files == old(disk.files)
      ensures old(handle).Dead? ==> r.Some? && landed == []
      ensures disk.faults >= old(disk.faults)
      ensures old(Usable()) ==> (r.None? <==> disk.faults == old(disk.faults))
    {
      r := EnsureFile();
      assert LiveLines(old(disk.files)) + [] == LiveLines(old(disk.files));
      landed := [];
      if r.Some? {
        return;
      }
      if handle.Dead? {
        return Some(WriteFailed), [];
      }
      ghost var line;
      ghost var reopened := disk.files;
      r, line := AppendLine(e);
      if line.Some? {
        AppendKeepsFilesOk(cfg, reopened, line.value);
      }
      landed := if line.Some? then [line.value] else [];
    }

    /** shiftGenerations: drops generation `retain` and renames the others up by one. */
    method ShiftGenerations() returns (r: Option<LogError>, ghost dropped: bool)
      requires FilesOk(cfg, disk.files)
      modifies disk`files, disk`faults
      ensures FilesOk(cfg, disk.files) && LivePart(disk.files) == LivePart(old(disk.files))
      ensures r.None? ==> Gen(1) !in disk.files && (dropped <==> Gen(cfg.Retain()) in old(disk.files))
      ensures disk.faults >= old(disk.faults) && (r.None? <==> disk.faults == old(disk.faults))
      ensures dropped ==> Gen(cfg.Retain()) in old(disk.files)
      // Only the oldest generation can go; the others keep their order and move up by at most one slot.
      ensures var gens := Generations(old(disk.files), 1, cfg.Retain());
              && (dropped ==> gens != [] && gens[0] == old(disk.files)[Gen(cfg.Retain())])
              && Generations(disk.files, 1, cfg.Retain()) == if dropped && gens != [] then gens[1..] else gens
      ensures exists g: nat :: Shifted(old(disk.files), disk.files, g, cfg.Retain())
      ensures r.None? ==> Shifted(old(disk.files), disk.files, 0, cfg.Retain())
    {
      dropped := false;
      var retain := cfg.Retain();
      assert Shifted(disk.files, disk.files, retain, retain);
      var removed := disk.Remove(Gen(retain));
      if removed == Failed {
        return Some(RotateFailed), false;
      }
      if removed == Done {
        dropped := true;
        RemoveOldestGeneration(old(disk.files), 1, retain);
      }
      ghost var kept := Generations(disk.files, 1, retain);
      var g := retain - 1;
      while g >= 1
        invariant 0 <= g < retain && disk.faults == old(disk.faults)
        invariant Gen(g + 1) !in disk.files
        invariant FilesOk(cfg, disk.files) && LivePart(disk.files) == LivePart(old(disk.files))
        invariant Generations(disk.files, 1, retain) == kept
        invariant Shifted(old(disk.files), disk.files, g, retain)
      {
        var moved := ShiftOne(g, old(disk.files));
        if !moved {
          return Some(RotateFailed), dropped;
        }
        g := g - 1;
      }
      return None, dropped;
    }

    /** One rename of the loop, to the slot the one before left free. */
    method ShiftOne(g: nat, ghost start: Archive.Files) returns (ok: bool)
      requires 1 <= g < cfg.Retain() && Gen(g + 1) !in disk.files
      requires FilesOk(cfg, disk.files) && Shifted(start, disk.files, g, cfg.Retain())
      modifies disk`files, disk`faults
      ensures FilesOk(cfg, disk.files) && LivePart(disk.files) == LivePart(old(disk.files))
      ensures Generations(disk.files, 1, cfg.Retain()) == Generations(old(disk.files), 1, cfg.Retain())
      ensures if ok then Gen(g) !in disk.files && Shifted(start, disk.files, g - 1, cfg.Retain())
              else disk.files == old(disk.files)
      ensures disk.faults == old(disk.faults) + if ok then 0 else 1
    {
      ghost var before := disk.files;
      var moved := disk.Rename(Gen(g), Gen(g + 1));
      if moved == Failed {
        return false;
      }
      ShiftedNext(start, before, disk.files, g, cfg.Retain());
      if moved == Done {
        MoveKeepsFilesOk(cfg, before, Gen(g), Gen(g + 1));
        ShiftKeepsGenerations(before, 1, g, cfg.Retain());
      }
      return true;
    }

    /** keepCurrent: reopens the current file after a failed rotation, keeping the chain state. */
    method KeepCurrent() returns (r: LogError)
      requires Valid() && handle.NoFile? && !closed && Live in disk.files && InSync() && !stale
      modifies this`handle, disk`files, disk`faults
      ensures Valid() && disk.files == old(disk.files)
      ensures (r == Unavailable && handle.NoFile?) || (r == RotateFailed && handle.Open?)
      ensures disk.faults == old(disk.faults) + if handle.Open? then 0 else 1
    {
      var ok := disk.OpenAppend();
      if !ok {
        return Unavailable;
      }
      handle := Open;
      return RotateFailed;
    }

    /** The part of rotate between closing the full file and having a new one open. */
    method SwapInNewFile() returns (r: Option<LogError>, ghost dropped: bool)
      requires Valid() && handle.NoFile? && !closed && Live in disk.files && InSync() && !stale
      modifies this`handle, disk`files, disk`faults
      ensures cfg.Valid() && FilesOk(cfg, disk.files) && !handle.Dead?
      ensures DropsOldest(cfg, old(disk.files), dropped)
      ensures r.None? ==> handle.Open? && Live in disk.files && disk.files[Live] == [] && Gen(1) in disk.files
      ensures r.Some? ==> Valid() && r.value == if handle.Open? then RotateFailed else Unavailable
      ensures r.Some? ==> Files() == WithoutOldest(old(Files()), dropped)
      ensures r.None? ==> Generations(disk.files, 1, cfg.Retain()) == WithoutOldest(old(Files()), dropped)
      ensures disk.faults >= old(disk.faults) && (r.None? <==> disk.faults == old(disk.faults))
      ensures r == Some(Unavailable) ==> disk.faults >= old(disk.faults) + 2
      ensures Aged(cfg, old(disk.files), disk.files, 1)
    {
      ghost var live := old(LivePart(disk.files));
      r, dropped := ShiftGenerations();
      ghost var g: nat :| Shifted(old(disk.files), disk.files, g, cfg.Retain());
      ShiftedAges(cfg, old(disk.files), disk.files, g);
      assert Files() == WithoutOldest(old(Files()), dropped) by {
        if dropped {
          assert old(Files())[1..] == Generations(old(disk.files), 1, cfg.Retain())[1..] + live;
        }
      }
      assert LivePart(disk.files) == LivePart(old(disk.files));
      if r.Some? {
        var kept := KeepCurrent();
        return Some(kept), dropped;
      }
      r := SwapFiles(old(disk.files));
    }

    /** Once the generations have moved up: the live file becomes generation 1, or is put back. */
    method SwapFiles(ghost start: Archive.Files) returns (r: Option<LogError>)
      requires Valid() && handle.NoFile? && !closed && Live in disk.files && InSync() && !stale
      requires Gen(1) !in disk.files
      requires FilesOk(cfg, start) && Live in start && Shifted(start, disk.files, 0, cfg.Retain())
      requires Aged(cfg, start, disk.files, 1)
      modifies this`handle, disk`files, disk`faults
      ensures cfg.Valid() && FilesOk(cfg, disk.files) && !handle.Dead?
      ensures r.None? ==> handle.Open? && Live in disk.files && disk.files[Live] == [] && Gen(1) in disk.files
      ensures r.Some? ==> Valid() && r.value == if handle.Open? then RotateFailed else Unavailable
      ensures r.Some? ==> Files() == old(Files())
      ensures r.None? ==> Generations(disk.files, 1, cfg.Retain()) == old(Files())
      ensures disk.faults >= old(disk.faults) && (r.None? <==> disk.faults == old(disk.faults))
      ensures r == Some(Unavailable) ==> disk.faults >= old(disk.faults) + 2
      ensures Aged(cfg, start, disk.files, 1)
    {
      ghost var shifted := disk.files;
      RotateInKeepsArchive(cfg, shifted);
      MoveKeepsFilesOk(cfg, shifted, Live, Gen(1));
      var renamed := disk.Rename(Live, Gen(1));
      if renamed != Done {
        var kept := KeepCurrent();
        return Some(kept);
      }
      SwappedAges(cfg, start, shifted, disk.files);
      var ok := disk.OpenAppend();
      if !ok {
        assert Moved(disk.files, Gen(1), Live) == shifted;
        var restored := disk.Rename(Gen(1), Live);
        if restored != Done {
          return Some(Unavailable);
        }
        var kept := KeepCurrent();
        return Some(kept);
      }
      handle := Open;
      SwappedAges(cfg, start, shifted, disk.files);
      NewLiveFile(cfg, Moved(shifted, Live, Gen(1)));
      return None;
    }

    /** rotate's first sentinel, at the end of the current file. */
    method EndCurrentFile(ts: int) returns (r: Option<LogError>, ghost added: seq<Bytes>)
      requires Valid() && !handle.NoFile?
      modifies this`handle, this`seqNo, this`prevHmac, this`stale, disk`files, disk`syncs, disk`faults
      ensures Valid() && handle == old(handle) && (added == [] ==> stale == old(stale))
      ensures r.None? ==> added != [] && handle.Open? && !stale && prevHmac == cfg.c.Hmac(added[0])
      ensures added != [] && r.Some? ==> stale
      ensures FsyncsOf(old(disk.syncs), disk.syncs, added, old(StaleNow()), StaleNow())
      ensures Ended(cfg, old(disk.files), disk.files, ts, added, old(StaleNow()))
      ensures disk.faults >= old(disk.faults)
      ensures handle.Open? ==> (r.None? <==> disk.faults == old(disk.faults))
    {
      r, added := WriteEvent(Event(ts, RotatedTo));
      GrewAges(cfg, old(disk.files), disk.files, added);
      if added != [] {
        assert added == [added[0]];
        NewestIsLive(cfg, old(disk.files));
        GrewExtends(cfg, old(disk.files), disk.files, added[0]);
      }
    }

    /** rotate's second sentinel, at the start of the new file. */
    method StartNewFile(ts: int, prevFileHmac: Mac) returns (r: Option<LogError>, ghost added: seq<Bytes>)
      requires cfg.Valid() && FilesOk(cfg, disk.files) && handle.Open? && !closed
      requires Live in disk.files && disk.files[Live] == []
      modifies this`handle, this`seqNo, this`prevHmac, this`stale, disk`files, disk`syncs, disk`faults
      ensures Valid() && handle.Open? && SameGenerations(old(disk.files), disk.files)
      ensures |added| <= 1 && (r.None? <==> added != [] && !stale)
      ensures disk.faults >= old(disk.faults) && (r.None? <==> disk.faults == old(disk.faults))
      ensures FsyncsOf(old(disk.syncs), disk.syncs, added, false, StaleNow())
      ensures Files() == Generations(old(disk.files), 1, cfg.Retain()) + [added]
      ensures Aged(cfg, old(disk.files), disk.files, 0)
      ensures added != [] ==>
                && DecodeLine(cfg.c, [cfg.key], added[0]) == Some(Event(ts, Continued(prevFileHmac)))
                && Accepted(cfg.c, cfg.mode, [added[0]])
    {
      seqNo, prevHmac, stale := 0, Unset, false;
      assert InSync();
      r, added := WriteEvent(Event(ts, Continued(prevFileHmac)));
      GrewAges(cfg, old(disk.files), disk.files, added);
      GenerationsFrame(old(disk.files), disk.files, 1, cfg.Retain());
      assert [] + added == added;
      if added != [] {
        assert added == [added[0]];
        AcceptedSnoc(cfg.c, cfg.mode, [], added[0]);
      }
    }

    /** rotate: moves the current file to generation 1 and starts a new one. */
    method RotateLocked(ts: int) returns (r: Option<LogError>, ghost added: seq<Bytes>, ghost dropped: bool)
      requires Valid()
      modifies this`handle, this`seqNo, this`prevHmac, this`stale, disk`files, disk`syncs, disk`faults
      ensures Valid()
      ensures Rotated(cfg, old(disk.files), disk.files, ts, added, dropped, old(StaleNow()))
      ensures r.None? <==> |added| == 2 && !stale
      ensures r.None? ==> handle.Open?
      ensures disk.faults >= old(disk.faults)
      ensures old(handle).Open? ==> (r.None? <==> disk.faults == old(disk.faults))
      // One failure may spoil a rotation, but it takes two to leave no file.
      ensures old(handle).Open? ==> !handle.Dead? && (handle.NoFile? ==> disk.faults >= old(disk.faults) + 2)
      ensures FsyncsOf(old(disk.syncs), disk.syncs, added, old(StaleNow()), StaleNow())
      ensures added == [] ==> handle == old(handle)
      ensures old(handle).NoFile? ==> r == Some(LogClosed) && added == []
      ensures !old(handle).NoFile? && handle.NoFile? ==> r == Some(Unavailable)
    {
      dropped := false;
      if handle.NoFile? {
        AgedSame(cfg, disk.files);
        return Some(LogClosed), [], false;
      }
      r, added := EndCurrentFile(ts);
      if r.Some? {
        RotatedShort(cfg, old(disk.files), disk.files, ts, added, old(StaleNow()));
        return;
      }
      ghost var first, synced := added, disk.syncs;
      r, added, dropped := RotateOn(ts, old(disk.files), first, old(StaleNow()));
      FsyncsTrans(old(disk.syncs), synced, disk.syncs, first, added[|first|..], old(StaleNow()), false, StaleNow());
      assert added == first + added[|first|..];
    }

    /** The rest of rotate, once its first sentinel is in the file. */
    method RotateOn(ts: int, ghost before: Archive.Files, ghost first: seq<Bytes>, ghost wasStale: bool)
      returns (r: Option<LogError>, ghost added: seq<Bytes>, ghost dropped: bool)
      requires Valid() && handle.Open? && !stale && first != [] && prevHmac == cfg.c.Hmac(first[0])
      requires Ended(cfg, before, disk.files, ts, first, wasStale)
      modifies this`handle, this`seqNo, this`prevHmac, this`stale, disk`files, disk`syncs, disk`faults
      ensures Valid()
      ensures Rotated(cfg, before, disk.files, ts, added, dropped, wasStale)
      ensures added != [] && (r.None? <==> |added| == 2 && !stale)
      ensures !handle.Dead? && (handle.NoFile? <==> r == Some(Unavailable))
      ensures disk.faults >= old(disk.faults) && (r.None? <==> disk.faults == old(disk.faults))
      ensures r == Some(Unavailable) ==> disk.faults >= old(disk.faults) + 2
      ensures r.None? || r == Some(RotateFailed) ==> handle.Open?
      ensures r.None? || r == Some(RotateFailed) || r == Some(Unavailable)
      ensures first <= added && FsyncsOf(old(disk.syncs), disk.syncs, added[|first|..], false, StaleNow())
    {
      added := first;
      var prevForNewFile := prevHmac;
      handle := NoFile;
      r, dropped := SwapInNewFile();
      if r.Some? {
        RotatedKept(cfg, before, old(disk.files), disk.files, ts, first, wasStale, dropped);
        return;
      }
      ghost var more;
      ghost var swapped := disk.files;
      r, more := StartNewFile(ts, prevForNewFile);
      RotatedOn(cfg, before, old(disk.files), swapped, disk.files, ts, first, more, wasStale, dropped);
      added := first + more;
      if r.Some? {
        r := Some(RotateFailed);
      }
    }

    /** Rotate. */
    method Rotate(ts: int) returns (r: Option<LogError>, ghost added: seq<Bytes>, ghost dropped: seq<seq<Bytes>>)
      requires Valid()
      modifies this`handle, this`seqNo, this`prevHmac, this`stale, disk`files, disk`syncs, disk`faults
      ensures Valid()
      ensures Went(cfg, old(disk.files), disk.files, added, dropped, old(StaleNow()))
      ensures FsyncsOf(old(disk.syncs), disk.syncs, added, old(StaleNow()), StaleNow())
      ensures Payloads(cfg.c, cfg.key, added) == [] && |added| <= 2
      ensures r.None? <==> |added| == 2 && !stale
      ensures r.None? ==> handle.Open? && Live in disk.files
      ensures disk.faults >= old(disk.faults)
      ensures old(handle).Open? ==> (r.None? <==> disk.faults == old(disk.faults))
      // One failure may spoil a rotation, but it takes two to leave no file.
      ensures old(handle).Open? ==> !handle.Dead? && (handle.NoFile? ==> disk.faults >= old(disk.faults) + 2)
      ensures if added == [] then disk.files == old(disk.files) else Markers(cfg, added) == 1
      ensures added == [] ==> handle == old(handle)
      ensures old(handle).NoFile? ==> r == Some(LogClosed) && added == []
      ensures !old(handle).NoFile? && handle.NoFile? ==> r == Some(Unavailable)
    {
      ghost var drop;
      r, added, drop := RotateLocked(ts);
      RotateAdvances(cfg, old(disk.files), disk.files, ts, added, drop);
      RotateAddsNoPayload(cfg, ts, added);
      dropped := DroppedFile(old(Files()), drop);
    }

    /** writeEvent for an ordinary event. */
    method WritePayload(e: Event) returns (r: Option<LogError>, ghost added: seq<Bytes>)
      requires Valid() && e.body.Payload?
      modifies this`handle, this`seqNo, this`prevHmac, this`stale, disk`files, disk`syncs, disk`faults
      ensures Valid()
      ensures Logged(cfg, old(disk.files), disk.files, e, added, [], old(StaleNow()))
      ensures |added| <= 1 && Markers(cfg, added) == 0
      ensures r.None? ==> handle.Open? && added != [] && !stale
      ensures r.Some? && added != [] ==> r == Some(FsyncFailed)
      ensures r == Some(FsyncFailed) ==> added != [] && handle.Open? && stale
      ensures FsyncsOf(old(disk.syncs), disk.syncs, added, old(StaleNow()), StaleNow())
      ensures closed ==> r == Some(LogClosed) && disk.files == old(disk.files) && handle == old(handle)
      ensures disk.faults >= old(disk.faults)
      ensures old(Usable()) ==> (r.None? <==> disk.faults == old(disk.faults))
      ensures added != [] ==> LiveLines(disk.files) == LiveLines(old(disk.files)) + [added[0]]
    {
      r, added := WriteEvent(e);
      LoggedAlone(cfg, old(disk.files), disk.files, e, added, old(StaleNow()));
    }

    /** After a failed rotation the next attempt waits for rotateRetryInterval. */
    method HoldBackRotation(now: int)
      modifies this`nextRotate
      ensures nextRotate == now + ROTATE_RETRY
    {
      nextRotate := now + ROTATE_RETRY;
    }

    /** The second half of appendEvent: rotates once the file passes the size cap. */
    method RotateIfDue(ts: int, now: int, statFails: bool)
      returns (r: Option<LogError>, ghost added: seq<Bytes>, ghost dropped: seq<seq<Bytes>>)
      requires Valid() && handle.Open? && !stale
      modifies this`handle, this`seqNo, this`prevHmac, this`stale, this`nextRotate, disk`files, disk`syncs, disk`faults
      ensures Valid()
      ensures Went(cfg, old(disk.files), disk.files, added, dropped, false)
      ensures Payloads(cfg.c, cfg.key, added) == []
      ensures if added == [] then disk.files == old(disk.files) else Markers(cfg, added) == 1
      ensures r.Some? ==> handle.NoFile? && r == Some(Unavailable)
      ensures FsyncsOf(old(disk.syncs), disk.syncs, added, false, StaleNow())
      ensures added == [] ==> handle.Open? && !stale
      // When not due nothing happens; when due and not completed, the next attempt is put off.
      ensures RotatedIfDue(statFails, |Unlines(LiveLines(old(disk.files)))|, maxSize, now, old(nextRotate),
                           added, stale, nextRotate, disk.faults > old(disk.faults))
      ensures disk.faults == old(disk.faults) ==> !stale
      ensures disk.faults >= old(disk.faults)
      ensures if r.None? then handle.Open? else handle.NoFile? && disk.faults >= old(disk.faults) + 2
    {
      if statFails || |Unlines(disk.files[Live])| <= maxSize || now < nextRotate {
        WentNowhere(cfg, disk.files, false);
        return None, [], [];
      }
      r, added, dropped := RotateOrWait(ts, now);
    }

    /** A rotation that is due; if it does not complete, events go on to the current file and it is retried later. */
    method RotateOrWait(ts: int, now: int)
      returns (r: Option<LogError>, ghost added: seq<Bytes>, ghost dropped: seq<seq<Bytes>>)
      requires Valid() && handle.Open? && !stale
      modifies this`handle, this`seqNo, this`prevHmac, this`stale, this`nextRotate, disk`files, disk`syncs, disk`faults
      ensures Valid()
      ensures Went(cfg, old(disk.files), disk.files, added, dropped, false)
      ensures Payloads(cfg.c, cfg.key, added) == []
      ensures if added == [] then disk.files == old(disk.files) else Markers(cfg, added) == 1
      ensures r.None? || r == Some(Unavailable)
      ensures FsyncsOf(old(disk.syncs), disk.syncs, added, false, StaleNow())
      ensures added == [] ==> handle.Open? && !stale
      ensures nextRotate == if |added| == 2 && !stale then old(nextRotate) else now + ROTATE_RETRY
      ensures disk.faults >= old(disk.faults)
      ensures disk.faults == old(disk.faults) ==> |added| == 2 && !stale
      ensures if r.None? then handle.Open? else handle.NoFile? && disk.faults >= old(disk.faults) + 2
    {
      r, added, dropped := Rotate(ts);
      if r.Some? {
        HoldBackRotation(now);
        if !handle.NoFile? {
          r := None;
        }
      }
    }

    /**
     * Log (appendEvent): writes the event, then rotates once the file passes the size cap. `statFails` says how the
     * Stat of the file behind the event will go.
     */
    method Log(bytes: Bytes, ts: int, now: int, statFails: bool)
      returns (r: Option<LogError>, ghost added: seq<Bytes>, ghost dropped: seq<seq<Bytes>>)
      requires Valid()
      modifies this`handle, this`seqNo, this`prevHmac, this`stale, this`nextRotate
      modifies disk`files, disk`syncs, disk`faults
      ensures Valid()
      ensures Logged(cfg, old(disk.files), disk.files, Event(ts, Payload(bytes)), added, dropped, old(StaleNow()))
      ensures FsyncsOf(old(disk.syncs), disk.syncs, added, old(StaleNow()), StaleNow())
      ensures r.None? ==> added != [] && handle.Open? && (|added| == 1 ==> !stale)
      ensures r == Some(FsyncFailed) ==> |added| == 1 && handle.Open? && stale
      // An error after the event landed means that the fsync failed or that the rotation left no file to write to,
      // which takes two failures.
      ensures r.Some? && added != [] ==>
                r == Some(FsyncFailed) || (handle.NoFile? && disk.faults >= old(disk.faults) + 2)
      ensures closed ==> r == Some(LogClosed) && disk.files == old(disk.files) && handle == old(handle)
      // What follows the event's line is the rotation, if one is due. Without a written and synced event none is.
      ensures if added != [] && r != Some(FsyncFailed) then
                RotatedIfDue(statFails, |Unlines(LiveLines(old(disk.files)) + [added[0]])|, maxSize, now,
                             old(nextRotate), added[1..], stale, nextRotate, disk.faults > old(disk.faults))
              else |added| <= 1 && nextRotate == old(nextRotate)
      // Only a failing operation keeps an event from being written.
      ensures disk.faults >= old(disk.faults)
      ensures old(Usable()) && disk.faults == old(disk.faults) ==> r.None? && !stale
    {
      r, added := WritePayload(Event(ts, Payload(bytes)));
      dropped := [];
      if r.None? {
        r, added, dropped := RotateAfter(
          Event(ts, Payload(bytes)), now, statFails, old(disk.files), added, old(disk.syncs), old(StaleNow()));
      }
    }

    /** The size check and rotation behind an event just written. */
    method RotateAfter(
      e: Event, now: int, statFails: bool,
      ghost before: Archive.Files, ghost first: seq<Bytes>, ghost syncsBefore: seq<bool>, ghost wasStale: bool)
      returns (r: Option<LogError>, ghost added: seq<Bytes>, ghost dropped: seq<seq<Bytes>>)
      requires Valid() && handle.Open? && !stale && |first| == 1 && Markers(cfg, first) == 0
      requires Logged(cfg, before, disk.files, e, first, [], wasStale)
      requires FsyncsOf(syncsBefore, disk.syncs, first, wasStale, false)
      modifies this`handle, this`seqNo, this`prevHmac, this`stale, this`nextRotate
      modifies disk`files, disk`syncs, disk`faults
      ensures Valid()
      ensures Logged(cfg, before, disk.files, e, added, dropped, wasStale)
      ensures FsyncsOf(syncsBefore, disk.syncs, added, wasStale, StaleNow())
      ensures added != [] && (|added| == 1 ==> handle.Open? && !stale)
      ensures r.Some? ==> handle.NoFile? && r == Some(Unavailable)
      ensures RotatedIfDue(statFails, |Unlines(LiveLines(before) + [added[0]])|, maxSize, now, old(nextRotate),
                           added[1..], stale, nextRotate, disk.faults > old(disk.faults))
      ensures disk.faults >= old(disk.faults)
      ensures if r.None? then handle.Open? else handle.NoFile? && disk.faults >= old(disk.faults) + 2
      ensures disk.faults == old(disk.faults) ==> !stale
    {
      assert first == [first[0]];
      ghost var synced, more := disk.syncs, [];
      r, more, dropped := RotateIfDue(e.ts, now, statFails);
      LoggedThenRotated(cfg, before, old(disk.files), disk.files, e, first, more, dropped, wasStale);
      FsyncsTrans(syncsBefore, synced, disk.syncs, first, more, wasStale, false, StaleNow());
      added := first + more;
      assert added[1..] == more;
    }

    /**
     * Prune: rewrites the live file without the lines older than cutoff. It fails only if no file is open, an
     * operation fails, or the chain cannot be continued from the last line kept.
     */
    method Prune(cutoff: int, readKeys: seq<Key>) returns (r: Result<nat, LogError>, ghost keep: seq<nat>)
      requires Valid()
      modifies this`handle, this`seqNo, this`prevHmac, this`stale, disk`files, disk`faults
      ensures Valid() && disk.faults >= old(disk.faults)
      ensures disk.files == old(disk.files) ||
              PrunedTo(cfg.c, [cfg.key] + readKeys, cutoff, old(disk.files), disk.files, keep)
      ensures r.Ok? ==>
                && PrunedTo(cfg.c, [cfg.key] + readKeys, cutoff, old(disk.files), disk.files, keep)
                && r.value == |old(disk.files)[Live]| - |keep|
                && handle.Open? && stale == (old(stale) && r.value == 0) && disk.faults == old(disk.faults)
      ensures r.Err? && old(handle).Open? && disk.faults == old(disk.faults) ==>
                && PrunedTo(cfg.c, [cfg.key] + readKeys, cutoff, old(disk.files), disk.files, keep)
                && !Continuable(cfg.c, disk.files[Live])
      ensures !old(handle).Open? ==> r == Err(Unavailable) && disk.files == old(disk.files)
    {
      keep := [];
      if !handle.Open? {
        return Err(Unavailable), keep;
      }
      var rewound := disk.Attempt();
      if !rewound {
        return Err(Unavailable), keep;
      }
      var kept, pruned;
      kept, pruned, keep := SelectKept(cfg.c, [cfg.key] + readKeys, cutoff, disk.files[Live]);
      PrunedToKept(cfg.c, [cfg.key] + readKeys, cutoff, disk.files, keep);
      SelectLinesOk(disk.files[Live], keep);
      if pruned == 0 {
        return Ok(0), keep;
      }
      var failed := ReplaceWith(kept);
      return if failed.Some? then Err(failed.value) else Ok(pruned), keep;
    }

    /** The rest of Prune: the kept lines go to a temporary file, which is then swapped in. */
    method ReplaceWith(kept: seq<Bytes>) returns (r: Option<LogError>)
      requires Valid() && handle.Open? && LinesOk(kept)
      modifies this`handle, this`seqNo, this`prevHmac, this`stale, disk`files, disk`faults
      ensures Valid() && disk.faults >= old(disk.faults)
      ensures disk.files == old(disk.files) || disk.files == old(disk.files)[Live := kept]
      ensures r.None? ==> disk.files == old(disk.files)[Live := kept] && handle.Open? && !stale
      ensures r.None? ==> disk.faults == old(disk.faults)
      ensures r.Some? && disk.faults == old(disk.faults) ==>
                disk.files == old(disk.files)[Live := kept] && !Continuable(cfg.c, kept)
    {
      var written := disk.Attempt();
      if !written {
        return Some(WriteFailed);
      }
      handle := Dead;
      var closed := disk.Attempt();
      if !closed {
        return Some(WriteFailed);
      }
      r := InstallPruned(kept);
    }

    /** The end of Prune: swaps the rewritten file in, reopens it and reseeds the chain state from it. */
    method InstallPruned(kept: seq<Bytes>) returns (r: Option<LogError>)
      requires Valid() && handle.Dead? && !closed && Live in disk.files && (InSync() <==> !stale)
      requires LinesOk(kept)
      modifies this`handle, this`seqNo, this`prevHmac, this`stale, disk`files, disk`faults
      ensures Valid() && disk.faults >= old(disk.faults)
      ensures disk.files == old(disk.files) || disk.files == old(disk.files)[Live := kept]
      ensures r.None? ==> disk.files == old(disk.files)[Live := kept] && handle.Open? && !stale
      ensures r.None? ==> disk.faults == old(disk.faults)
      ensures r.None? || r.value in {WriteFailed, Unavailable, ReseedFailed}
      // A file that could not be replaced is open again, unless reopening failed as well.
      ensures r == Some(WriteFailed) ==> (handle.Open? <==> disk.faults == old(disk.faults) + 1)
      ensures r.Some? && disk.faults == old(disk.faults) ==>
                disk.files == old(disk.files)[Live := kept] && !Continuable(cfg.c, kept)
    {
      var replaced := disk.ReplaceLive(kept);
      var ok := disk.OpenAppend();
      if !replaced {
        handle := if ok then Open else Dead;
        return Some(WriteFailed);
      }
      if !ok {
        return Some(Unavailable);
      }
      var ready := Reseed();
      return if ready then None else Some(ReseedFailed);
    }

    /** A file just opened: the chain state starts afresh, or from its last line. */
    method Reseed() returns (ok: bool)
      requires Valid() && !closed && Live in disk.files
      modifies this`handle, this`seqNo, this`prevHmac, this`stale, disk`faults
      ensures Valid() && handle.Open? && (ok ==> !stale) && disk.faults >= old(disk.faults)
      ensures ok <==> disk.faults == old(disk.faults) && Continuable(cfg.c, disk.files[Live])
    {
      handle, seqNo, prevHmac := Open, 0, Unset;
      stale := !InSync();
      var seeded := SeedChainState();
      return seeded.None?;
    }

    /** Ready: success means that a file is open, one just reopened being in sync. */
    method Ready() returns (r: Option<LogError>)
      requires Valid()
      modifies this`handle, this`seqNo, this`prevHmac, this`stale, disk`files, disk`faults
      ensures Valid() && Grew(old(disk.files), disk.files, [])
      ensures r.None? ==> !closed && !handle.NoFile? && (old(handle).NoFile? ==> handle.Open? && !stale)
      ensures StaleNow() == old(StaleNow())
      ensures closed ==> r == Some(LogClosed) && handle == old(handle)
      ensures old(handle) != NoFile ==> handle == old(handle)
      ensures disk.faults >= old(disk.faults)
      ensures old(Usable()) ==> (r.None? <==> disk.faults == old(disk.faults))
    {
      r := EnsureFile();
    }

    /** Close: closed and without a file in any case; reports whether closing the file succeeded. */
    method Close() returns (ok: bool)
      requires Valid()
      modifies this`handle, this`closed, disk`faults
      ensures Valid() && closed && handle.NoFile?
      ensures disk.faults >= old(disk.faults)
      ensures if old(handle).Dead? then !ok else ok <==> disk.faults == old(disk.faults)
    {
      var was := handle;
      closed, handle, ok := true, NoFile, true;
      if was.Open? {
        ok := disk.Attempt();
      } else if was.Dead? {
        ok := false;
      }
    }
  }

  /** Open: opens or creates the log and seeds the chain state from its last line, which may be corrupt. */
  method OpenLog(cfg: Config, disk: Disk, maxSize: int) returns (r: Result<Logger, LogError>)
    requires cfg.Valid() && FilesOk(cfg, disk.files)
    modifies disk`files, disk`faults
    ensures FilesOk(cfg, disk.files) && Grew(old(disk.files), disk.files, [])
    ensures r.Ok? ==>
              && fresh(r.value) && r.value.cfg == cfg && r.value.disk == disk && r.value.maxSize == maxSize
              && r.value.Valid() && r.value.handle.Open? && !r.value.stale
    ensures !Continuable(cfg.c, LiveLines(old(disk.files))) ==> r.Err?
    ensures r == Err(LogCorrupt) ==> !Continuable(cfg.c, LiveLines(old(disk.files)))
    ensures disk.faults >= old(disk.faults)
    ensures r.Ok? <==> disk.faults == old(disk.faults) && Continuable(cfg.c, LiveLines(old(disk.files)))
  {
    assert LiveLines(disk.files) + [] == LiveLines(disk.files);
    var ok := disk.OpenAppend();
    if !ok {
      return Err(Unavailable);
    }
    var l := new Logger(cfg, disk, maxSize);
    var seeded := l.SeedChainState();
    if seeded.Some? {
      return Err(seeded.value);
    }
    l.handle := Open;
    return Ok(l);
  }
}
