// Whole runs of the audit logger (internal/audit/log.go, internal/audit/audit.go, internal/audit/tail.go): any
// sequence of calls, whatever fails on the way.
module AuditRuns {
  import opened Basics
  import opened Lines
  import opened ChainFormat
  import opened Chain
  import opened ChainFacts
  import opened Archive
  import opened ArchiveRuns
  import opened AuditLog

  datatype Op =
    | OpOpen(maxSize: int)
    | OpLog(bytes: Bytes, ts: int, now: int, statFails: bool)
    | OpRotate(ts: int)
    | OpReady
    | OpClose

  /** One call: what was on disk before and after, whether it reported success, what it did, and how its fsyncs went. */
  datatype Record = Record(
    op: Op, before: Files, after: Files, acked: bool, wasStale: bool,
    added: seq<Bytes>, dropped: seq<seq<Bytes>>, syncs: seq<bool>)

  function EventOf(op: Op): (e: Event)
    requires op.OpLog?
  {
    Event(op.ts, Payload(op.bytes))
  }

  /** A call adds lines only if it logs or rotates; an acknowledged Log has written its event. */
  ghost predicate StepOk(cfg: Config, r: Record) {
    if r.op.OpLog? then
      && Logged(cfg, r.before, r.after, EventOf(r.op), r.added, r.dropped, r.wasStale)
      && (r.acked ==> r.added != [])
    else
      && Went(cfg, r.before, r.after, r.added, r.dropped, r.wasStale)
      && Payloads(cfg.c, cfg.key, r.added) == []
      && (r.op.OpRotate? || r.added == [])
      && (Markers(cfg, r.added) == 0 ==> r.added == [] && Grew(r.before, r.after, []))
  }

  /** The calls of a run, each on what the one before it left. */
  ghost predicate History(cfg: Config, start: Files, now: Files, h: seq<Record>)
    decreases |h|
  {
    if h == [] then start == now
    else
      var n := |h| - 1;
      h[n].after == now && StepOk(cfg, h[n]) && History(cfg, start, h[n].before, h[..n])
  }

  lemma HistoryLast(cfg: Config, start: Files, now: Files, h: seq<Record>)
    requires History(cfg, start, now, h) && h != []
    ensures h[|h| - 1].after == now && StepOk(cfg, h[|h| - 1])
    ensures History(cfg, start, h[|h| - 1].before, h[..|h| - 1])
  {
  }

  lemma HistorySnoc(cfg: Config, start: Files, h: seq<Record>, r: Record)
    requires History(cfg, start, r.before, h) && StepOk(cfg, r)
    ensures History(cfg, start, r.after, h + [r])
  {
    assert (h + [r])[..|h|] == h;
  }

  // ---- what a history adds up to ----

  ghost function AddedBy(h: seq<Record>): (lines: seq<Bytes>)
  {
    if h == [] then [] else AddedBy(h[..|h| - 1]) + h[|h| - 1].added
  }

  ghost function DroppedBy(h: seq<Record>): (files: seq<seq<Bytes>>)
  {
    if h == [] then [] else DroppedBy(h[..|h| - 1]) + h[|h| - 1].dropped
  }

  /** The outcomes of all fsyncs, one for each added line. */
  ghost function SyncsBy(h: seq<Record>): (syncs: seq<bool>)
  {
    if h == [] then [] else SyncsBy(h[..|h| - 1]) + h[|h| - 1].syncs
  }

  ghost function Failures(syncs: seq<bool>): (n: nat)
  {
    if syncs == [] then 0 else Failures(syncs[..|syncs| - 1]) + if syncs[|syncs| - 1] then 0 else 1
  }

  /**
   * Did the last line written through the logger that is open now fail to sync? Opening and closing start afresh;
   * `initially` speaks of the lines before these calls.
   */
  ghost function LastUnsynced(initially: bool, h: seq<Record>): (unsynced: bool)
  {
    if h == [] then initially
    else
      var r := h[|h| - 1];
      if r.op.OpOpen? || r.op.OpClose? then false
      else if r.syncs != [] then !r.syncs[|r.syncs| - 1]
      else LastUnsynced(initially, h[..|h| - 1])
  }

  /** How many calls added a line behind one that had failed to sync. */
  ghost function UnsyncedLandings(initially: bool, h: seq<Record>): (n: nat)
  {
    if h == [] then 0
    else
      var front := h[..|h| - 1];
      UnsyncedLandings(initially, front) + if h[|h| - 1].added != [] && LastUnsynced(initially, front) then 1 else 0
  }

  /** Each call found the logger stale exactly when the line before had failed to sync; one fsync per added line. */
  ghost predicate FsyncHistory(initially: bool, h: seq<Record>) {
    h == [] ||
    (var n := |h| - 1;
     && FsyncHistory(initially, h[..n])
     && h[n].wasStale == LastUnsynced(initially, h[..n]) && |h[n].syncs| == |h[n].added|)
  }

  lemma FsyncHistorySnoc(initially: bool, h: seq<Record>, r: Record)
    requires FsyncHistory(initially, h) && r.wasStale == LastUnsynced(initially, h) && |r.syncs| == |r.added|
    ensures FsyncHistory(initially, h + [r]) && SyncsBy(h + [r]) == SyncsBy(h) + r.syncs
    ensures LastUnsynced(initially, h + [r]) == StaleAfter(r)
  {
    assert (h + [r])[..|h|] == h;
  }

  /** What a call leaves behind for the next line. */
  ghost function StaleAfter(r: Record): (stale: bool)
  {
    if r.op.OpOpen? || r.op.OpClose? then false
    else if r.syncs != [] then !r.syncs[|r.syncs| - 1]
    else r.wasStale
  }

  lemma {:induction false} FailuresAppend(a: seq<bool>, b: seq<bool>)
    ensures Failures(a + b) == Failures(a) + Failures(b)
  {
    if b == [] {
      assert a + b == a;
    } else {
      assert (a + b)[..|a + b| - 1] == a + b[..|b| - 1];
      FailuresAppend(a, b[..|b| - 1]);
    }
  }

  /** Lines landed stale are exactly those behind an unsynced one, and there are no more of them than failed fsyncs. */
  lemma {:induction false} LandingsBounded(initially: bool, h: seq<Record>)
    requires FsyncHistory(initially, h)
    ensures StaleLandings(h) == UnsyncedLandings(initially, h)
    ensures UnsyncedLandings(initially, h) + (if LastUnsynced(initially, h) then 1 else 0) <=
            Failures(SyncsBy(h)) + if initially then 1 else 0
  {
    if h != [] {
      var n := |h| - 1;
      LandingsBounded(initially, h[..n]);
      FailuresAppend(SyncsBy(h[..n]), h[n].syncs);
    }
  }

  /** How many calls had a line land while the logger was stale. */
  ghost function StaleLandings(h: seq<Record>): (n: nat)
  {
    if h == [] then 0
    else
      var r := h[|h| - 1];
      StaleLandings(h[..|h| - 1]) + if r.added != [] && r.wasStale then 1 else 0
  }

  /** The events of those Log calls whose line reached the file. */
  ghost function Recorded(h: seq<Record>): (events: seq<Event>)
  {
    if h == [] then []
    else
      var r := h[|h| - 1];
      Recorded(h[..|h| - 1]) + if r.op.OpLog? && r.added != [] then [EventOf(r.op)] else []
  }

  /** The rotation markers written since call i. */
  ghost function MarkersSince(cfg: Config, h: seq<Record>, i: nat): (n: nat)
  {
    if i >= |h| then 0 else MarkersSince(cfg, h[..|h| - 1], i) + Markers(cfg, h[|h| - 1].added)
  }

  /** Everything written is in the dropped files and the archive, in order; each stale landing is one bad line. */
  lemma {:induction false} HistoryAdvances(cfg: Config, start: Files, now: Files, h: seq<Record>)
    requires History(cfg, start, now, h)
    ensures Advanced(cfg, start, now, AddedBy(h), DroppedBy(h), StaleLandings(h))
    ensures Payloads(cfg.c, cfg.key, AddedBy(h)) == Recorded(h)
    decreases |h|
  {
    if h == [] {
      AdvancedSame(cfg, start);
    } else {
      var n := |h| - 1;
      var r := h[n];
      HistoryAdvances(cfg, start, r.before, h[..n]);
      AdvancedTrans(cfg, start, r.before, now, AddedBy(h[..n]), DroppedBy(h[..n]), StaleLandings(h[..n]),
                    r.added, r.dropped, if r.added != [] && r.wasStale then 1 else 0);
      PayloadsAppend(cfg.c, cfg.key, AddedBy(h[..n]), r.added);
    }
  }

  /**
   * Every file, dropped ones included, passes exactly when all did at the start and no line was added behind one
   * whose fsync had failed.
   */
  lemma IntactIffNoneUnsynced(cfg: Config, start: Files, now: Files, initially: bool, h: seq<Record>)
    requires History(cfg, start, now, h) && FsyncHistory(initially, h)
    ensures Intact(cfg, DroppedBy(h) + ArchiveOf(cfg, now)) <==>
            Intact(cfg, ArchiveOf(cfg, start)) && UnsyncedLandings(initially, h) == 0
    ensures UnsyncedLandings(initially, h) <= Failures(SyncsBy(h)) + if initially then 1 else 0
  {
    HistoryAdvances(cfg, start, now, h);
    LandingsBounded(initially, h);
    IntactIffNoneBad(cfg, DroppedBy(h) + ArchiveOf(cfg, now));
    IntactIffNoneBad(cfg, ArchiveOf(cfg, start));
  }

  /** Each call drops generation `retain` of what it found, or nothing. */
  ghost predicate EachDropsOldest(cfg: Config, h: seq<Record>) {
    forall i :: 0 <= i < |h| ==> OldestOrNone(cfg, h[i].before, h[i].dropped)
  }

  lemma {:induction false} HistoryDrops(cfg: Config, start: Files, now: Files, h: seq<Record>)
    requires History(cfg, start, now, h)
    ensures EachDropsOldest(cfg, h)
    decreases |h|
  {
    if h != [] {
      var n := |h| - 1;
      HistoryDrops(cfg, start, h[n].before, h[..n]);
      forall i | 0 <= i < |h| ensures OldestOrNone(cfg, h[i].before, h[i].dropped) {
        assert i < n ==> h[..n][i] == h[i];
      }
    }
  }

  /** Every dropped file was generation `retain` when it went. */
  ghost predicate OldestDropped(cfg: Config, h: seq<Record>) {
    forall f :: f in DroppedBy(h) ==>
      exists i :: 0 <= i < |h| && Gen(cfg.Retain()) in h[i].before && h[i].before[Gen(cfg.Retain())] == f
  }

  lemma {:induction false} DroppedAtRetain(cfg: Config, h: seq<Record>)
    requires EachDropsOldest(cfg, h)
    ensures OldestDropped(cfg, h)
  {
    if h != [] {
      var n := |h| - 1;
      assert forall i :: 0 <= i < n ==> h[..n][i] == h[i];
      DroppedAtRetain(cfg, h[..n]);
      forall f | f in DroppedBy(h)
        ensures exists i :: 0 <= i < |h| && Gen(cfg.Retain()) in h[i].before && h[i].before[Gen(cfg.Retain())] == f
      {
        if f in h[n].dropped {
          assert h[n].before[Gen(cfg.Retain())] == f;
        } else {
          var front := h[..n];
          assert f in DroppedBy(front);
          var i :| 0 <= i < |front| && Gen(cfg.Retain()) in front[i].before && front[i].before[Gen(cfg.Retain())] == f;
          assert h[i] == front[i];
        }
      }
    }
  }

  /** Each call moves files up by at most the rotation markers it wrote, and leaves a line it logged on disk. */
  ghost predicate Ageing(cfg: Config, start: Files, now: Files, h: seq<Record>)
    decreases |h|
  {
    if h == [] then start == now
    else
      var n := |h| - 1;
      var k := Markers(cfg, h[n].added);
      && k <= 1 && Aged(cfg, h[n].before, now, k)
      && (h[n].op.OpLog? && h[n].added != [] ==> Held(now, h[n].added[0], k))
      && Ageing(cfg, start, h[n].before, h[..n])
  }

  lemma {:induction false} HistoryAges(cfg: Config, start: Files, now: Files, h: seq<Record>)
    requires History(cfg, start, now, h)
    ensures Ageing(cfg, start, now, h)
    decreases |h|
  {
    if h != [] {
      HistoryLast(cfg, start, now, h);
      HistoryAges(cfg, start, h[|h| - 1].before, h[..|h| - 1]);
    }
  }

  /** A logged line stays in the archive as long as no more than `retain` rotation markers follow it. */
  lemma {:induction false} Retained(cfg: Config, start: Files, now: Files, h: seq<Record>, i: nat)
    requires Ageing(cfg, start, now, h) && i < |h| && h[i].op.OpLog? && h[i].added != []
    requires MarkersSince(cfg, h, i) <= cfg.Retain()
    ensures Held(now, h[i].added[0], MarkersSince(cfg, h, i))
    decreases |h|
  {
    var n := |h| - 1;
    if i == n {
      assert MarkersSince(cfg, h[..n], i) == 0;
    } else {
      assert h[..n][i] == h[i];
      Retained(cfg, start, h[n].before, h[..n], i);
      HeldAges(cfg, h[n].before, now, h[i].added[0], MarkersSince(cfg, h[..n], i), Markers(cfg, h[n].added));
    }
  }

  lemma {:induction false} FewMarkers(cfg: Config, start: Files, now: Files, h: seq<Record>, i: nat)
    requires Ageing(cfg, start, now, h) && i <= |h|
    ensures MarkersSince(cfg, h, i) <= |h| - i
    decreases |h|
  {
    if i < |h| {
      FewMarkers(cfg, start, h[|h| - 1].before, h[..|h| - 1], i);
    }
  }

  /** Some file on disk holds the event. */
  ghost predicate OnDisk(cfg: Config, files: Files, e: Event) {
    exists n, k :: n in files && 0 <= k < |files[n]| && DecodeLine(cfg.c, [cfg.key], files[n][k]) == Some(e)
  }

  /** An acknowledged Log has written a line, and a line written is that of its event. */
  ghost predicate Wrote(cfg: Config, r: Record) {
    r.op.OpLog? ==>
      && (r.acked ==> r.added != [])
      && (r.added != [] ==> DecodeLine(cfg.c, [cfg.key], r.added[0]) == Some(EventOf(r.op)))
  }

  lemma StepWrote(cfg: Config, r: Record)
    requires StepOk(cfg, r)
    ensures Wrote(cfg, r)
  {
  }

  lemma {:induction false} HistoryWrote(cfg: Config, start: Files, now: Files, h: seq<Record>, i: nat)
    requires History(cfg, start, now, h) && i < |h|
    ensures Wrote(cfg, h[i])
    decreases |h|
  {
    var n := |h| - 1;
    HistoryLast(cfg, start, now, h);
    if i == n {
      StepWrote(cfg, h[n]);
    } else {
      assert h[..n][i] == h[i];
      HistoryWrote(cfg, start, h[n].before, h[..n], i);
    }
  }

  lemma HeldOnDisk(cfg: Config, files: Files, line: Bytes, slot: nat, e: Event)
    requires Held(files, line, slot) && DecodeLine(cfg.c, [cfg.key], line) == Some(e)
    ensures OnDisk(cfg, files, e)
  {
    var n :| n in files && Slot(n) <= slot && line in files[n];
    var k :| 0 <= k < |files[n]| && files[n][k] == line;
  }

  /** An event whose Log call succeeded is on disk as long as no more than `retain` rotation markers follow it. */
  lemma AcknowledgedOnDisk(cfg: Config, start: Files, now: Files, h: seq<Record>, i: nat)
    requires Ageing(cfg, start, now, h) && i < |h| && Wrote(cfg, h[i]) && h[i].op.OpLog? && h[i].acked
    requires MarkersSince(cfg, h, i) <= cfg.Retain()
    ensures OnDisk(cfg, now, EventOf(h[i].op))
  {
    Retained(cfg, start, now, h, i);
    HeldOnDisk(cfg, now, h[i].added[0], MarkersSince(cfg, h, i), EventOf(h[i].op));
  }

  // ---- the runs themselves ----

  /** The logger last opened, if any, is one of this log. */
  ghost predicate Ours(cfg: Config, disk: Disk, l: Logger?)
    reads disk`files, l
  {
    && cfg.Valid() && FilesOk(cfg, disk.files)
    && (l != null ==> l.cfg == cfg && l.disk == disk && l.Valid())
  }

  lemma IdleStep(cfg: Config, files: Files, op: Op, acked: bool, wasStale: bool)
    requires !op.OpLog?
    ensures StepOk(cfg, Record(op, files, files, acked, wasStale, [], [], []))
  {
    WentNowhere(cfg, files, wasStale);
    assert LiveLines(files) + [] == LiveLines(files);
  }

  lemma ReopenStep(cfg: Config, before: Files, after: Files, op: Op, acked: bool, wasStale: bool)
    requires !op.OpLog? && Grew(before, after, [])
    ensures StepOk(cfg, Record(op, before, after, acked, wasStale, [], [], []))
  {
    ReopenAdvances(cfg, before, after);
  }

  /** The fsyncs of one call, as its record has them. */
  lemma NewSyncs(before: seq<bool>, after: seq<bool>, r: Record, stale: bool)
    requires FsyncsOf(before, after, r.added, r.wasStale, stale) && r.syncs == after[|before|..]
    requires !r.op.OpOpen? && !r.op.OpClose?
    ensures |r.syncs| == |r.added| && after == before + r.syncs && stale == StaleAfter(r)
  {
  }

  // ---- when a call is acknowledged ----

  /** No logger, or a closed one. */
  ghost predicate Shut(l: Logger?)
    reads l
  {
    l == null || (l.closed && l.handle.NoFile?)
  }

  /** An open logger in sync with its file. */
  ghost predicate InUse(l: Logger?)
    reads l
  {
    l != null && l.handle.Open? && !l.stale
  }

  /** A call other than Open is refused by a logger that is shut, and succeeds on one in use if no operation fails. */
  ghost predicate Answers(
    wasShut: bool, wasInUse: bool, noFault: bool, op: Op, acked: bool, shut: bool, inUse: bool)
  {
    && (op.OpClose? ==> shut)
    && (wasShut && !op.OpOpen? ==> shut && (acked ==> op.OpClose?))
    && (wasInUse && noFault && !op.OpOpen? ==> acked && (op.OpClose? || inUse))
  }

  /** Was the last call to Open or Close one to Open? `open` speaks of what went before these calls. */
  ghost function OpenAfter(open: bool, ops: seq<Op>): (stillOpen: bool)
  {
    if ops == [] then open else OpenedBy(OpenAfter(open, ops[..|ops| - 1]), ops[|ops| - 1])
  }

  ghost function OpenedBy(open: bool, op: Op): (stillOpen: bool)
  {
    op.OpOpen? || (open && !op.OpClose?)
  }

  /**
   * Log, Rotate and Ready succeed only between an Open and a Close. If all goes well, every Open succeeds, and so
   * does every call behind it.
   */
  ghost predicate AnsweredAsDue(open: bool, smooth: bool, ops: seq<Op>, acked: seq<bool>) {
    && |acked| == |ops|
    && forall i :: 0 <= i < |ops| ==>
         && (acked[i] && !ops[i].OpClose? ==> ops[i].OpOpen? || OpenAfter(open, ops[..i]))
         && (smooth && (ops[i].OpOpen? || OpenAfter(open, ops[..i])) ==> acked[i])
  }

  lemma AnsweredNext(
    open: bool, smooth: bool, ops: seq<Op>, n: nat, acked: seq<bool>, ack: bool, stillSmooth: bool)
    requires n < |ops| && AnsweredAsDue(open, smooth, ops[..n], acked) && (stillSmooth ==> smooth)
    requires AnsweredAsDue(OpenAfter(open, ops[..n]), stillSmooth, [ops[n]], [ack])
    ensures AnsweredAsDue(open, stillSmooth, ops[..n + 1], acked + [ack])
    ensures OpenAfter(open, ops[..n + 1]) == OpenedBy(OpenAfter(open, ops[..n]), ops[n])
  {
    assert ops[..n + 1][..n] == ops[..n];
    assert OpenAfter(OpenAfter(open, ops[..n]), [ops[n]][..0]) == OpenAfter(open, ops[..n]);
    assert [ops[n]][0] == ops[n] && [ack][0] == ack;
    forall i | 0 <= i < n ensures ops[..n + 1][..i] == ops[..n][..i] && ops[..n + 1][i] == ops[..n][i] {
    }
  }

  /** Where a logger stands after the last Open or Close; if all went well, one that was opened is in use. */
  ghost predicate Standing(l: Logger?, open: bool, smooth: bool)
    reads l
  {
    (!open ==> Shut(l)) && (smooth && open ==> InUse(l))
  }

  /** As long as no line landed behind an unsynced one, good files can be continued. */
  lemma StaysContinuable(cfg: Config, start: Files, now: Files, h: seq<Record>)
    requires History(cfg, start, now, h) && StaleLandings(h) == 0 && Intact(cfg, ArchiveOf(cfg, start))
    ensures Continuable(cfg.c, LiveLines(now))
  {
    HistoryAdvances(cfg, start, now, h);
    IntactIffNoneBad(cfg, DroppedBy(h) + ArchiveOf(cfg, now));
    IntactIffNoneBad(cfg, ArchiveOf(cfg, start));
    if LiveLines(now) != [] {
      var all := DroppedBy(h) + ArchiveOf(cfg, now);
      NewestIsLive(cfg, now);
      assert all[|all| - 1] == LiveLines(now);
      AcceptedHeaders(cfg.c, cfg.mode, LiveLines(now), |LiveLines(now)| - 1);
    }
  }

  method CallLog(l: Logger, op: Op) returns (acked: bool, ghost rec: Record)
    requires l.Valid() && op.OpLog?
    modifies l, l.disk
    ensures l.Valid()
    ensures rec.op == op && rec.acked == acked && rec.before == old(l.disk.files) && rec.after == l.disk.files
    ensures rec.wasStale == old(l.StaleNow()) && StepOk(l.cfg, rec)
    ensures |rec.syncs| == |rec.added| && l.disk.syncs == old(l.disk.syncs) + rec.syncs
    ensures l.StaleNow() == StaleAfter(rec)
    ensures Answers(old(Shut(l)), old(InUse(l)), old(l.disk.faults) == l.disk.faults, op, acked, Shut(l), InUse(l))
    ensures l.disk.faults >= old(l.disk.faults)
  {
    ghost var before, syncs, wasStale, added, dropped := l.disk.files, l.disk.syncs, l.StaleNow(), [], [];
    var r;
    r, added, dropped := l.Log(op.bytes, op.ts, op.now, op.statFails);
    acked := r.None?;
    rec := Record(op, before, l.disk.files, acked, wasStale, added, dropped, l.disk.syncs[|syncs|..]);
    NewSyncs(syncs, l.disk.syncs, rec, l.StaleNow());
  }

  method CallRotate(l: Logger, op: Op) returns (acked: bool, ghost rec: Record)
    requires l.Valid() && op.OpRotate?
    modifies l, l.disk
    ensures l.Valid()
    ensures rec.op == op && rec.acked == acked && rec.before == old(l.disk.files) && rec.after == l.disk.files
    ensures rec.wasStale == old(l.StaleNow()) && StepOk(l.cfg, rec)
    ensures |rec.syncs| == |rec.added| && l.disk.syncs == old(l.disk.syncs) + rec.syncs
    ensures l.StaleNow() == StaleAfter(rec)
    ensures Answers(old(Shut(l)), old(InUse(l)), old(l.disk.faults) == l.disk.faults, op, acked, Shut(l), InUse(l))
    ensures l.disk.faults >= old(l.disk.faults)
  {
    ghost var before, syncs, wasStale, added, dropped := l.disk.files, l.disk.syncs, l.StaleNow(), [], [];
    assert LiveLines(before) + [] == LiveLines(before);
    var r;
    r, added, dropped := l.Rotate(op.ts);
    acked := r.None?;
    rec := Record(op, before, l.disk.files, acked, wasStale, added, dropped, l.disk.syncs[|syncs|..]);
    NewSyncs(syncs, l.disk.syncs, rec, l.StaleNow());
  }

  /** The calls that write no line. */
  method CallIdle(l: Logger, op: Op) returns (acked: bool, ghost rec: Record)
    requires l.Valid() && (op.OpReady? || op.OpClose?)
    modifies l, l.disk
    ensures l.Valid()
    ensures rec.op == op && rec.acked == acked && rec.before == old(l.disk.files) && rec.after == l.disk.files
    ensures rec.wasStale == old(l.StaleNow()) && StepOk(l.cfg, rec)
    ensures |rec.syncs| == |rec.added| && l.disk.syncs == old(l.disk.syncs) + rec.syncs
    ensures l.StaleNow() == StaleAfter(rec)
    ensures Answers(old(Shut(l)), old(InUse(l)), old(l.disk.faults) == l.disk.faults, op, acked, Shut(l), InUse(l))
    ensures l.disk.faults >= old(l.disk.faults)
  {
    ghost var before, wasStale := l.disk.files, l.StaleNow();
    if op.OpReady? {
      var r := l.Ready();
      acked := r.None?;
      ReopenStep(l.cfg, before, l.disk.files, op, acked, wasStale);
    } else {
      acked := l.Close();
      IdleStep(l.cfg, l.disk.files, op, acked, wasStale);
    }
    rec := Record(op, before, l.disk.files, acked, wasStale, [], [], []);
  }

  /** A call other than Open on a logger that there is. */
  method Call(l: Logger, op: Op) returns (acked: bool, ghost rec: Record)
    requires l.Valid() && !op.OpOpen?
    modifies l, l.disk
    ensures l.Valid()
    ensures rec.op == op && rec.acked == acked && rec.before == old(l.disk.files) && rec.after == l.disk.files
    ensures rec.wasStale == old(l.StaleNow()) && StepOk(l.cfg, rec)
    ensures |rec.syncs| == |rec.added| && l.disk.syncs == old(l.disk.syncs) + rec.syncs
    ensures l.StaleNow() == StaleAfter(rec)
    ensures Answers(old(Shut(l)), old(InUse(l)), old(l.disk.faults) == l.disk.faults, op, acked, Shut(l), InUse(l))
    ensures l.disk.faults >= old(l.disk.faults)
  {
    if op.OpLog? {
      acked, rec := CallLog(l, op);
    } else if op.OpRotate? {
      acked, rec := CallRotate(l, op);
    } else {
      acked, rec := CallIdle(l, op);
    }
  }

  /** The last line written through this logger failed to sync, and the next one will be bad. */
  ghost predicate StaleOf(l: Logger?)
    reads l
  {
    l != null && l.StaleNow()
  }

  /** One call in a run; `l` is the logger last opened, if any. Without one every call but Open fails. */
  method Step(cfg: Config, disk: Disk, l: Logger?, op: Op) returns (next: Logger?, acked: bool, ghost rec: Record)
    requires Ours(cfg, disk, l)
    modifies disk, l
    ensures Ours(cfg, disk, next) && (next != null ==> next == l || fresh(next))
    ensures rec.op == op && rec.acked == acked && rec.before == old(disk.files) && rec.after == disk.files
    ensures StepOk(cfg, rec) && rec.wasStale == old(StaleOf(l))
    ensures |rec.syncs| == |rec.added| && disk.syncs == old(disk.syncs) + rec.syncs
    ensures StaleOf(next) == StaleAfter(rec)
    ensures Answers(old(Shut(l)), old(InUse(l)), old(disk.faults) == disk.faults, op, acked, Shut(next), InUse(next))
    ensures disk.faults >= old(disk.faults)
    ensures op.OpOpen? && Continuable(cfg.c, LiveLines(old(disk.files))) && disk.faults == old(disk.faults) ==>
              acked && InUse(next)
  {
    next := l;
    if op.OpOpen? {
      var r := OpenLog(cfg, disk, op.maxSize);
      acked := r.Ok?;
      ghost var wasStale := StaleOf(l);
      next := if r.Ok? then r.value else null;
      ReopenStep(cfg, old(disk.files), disk.files, op, acked, wasStale);
      rec := Record(op, old(disk.files), disk.files, acked, wasStale, [], [], []);
    } else if l == null {
      acked := false;
      rec := Record(op, disk.files, disk.files, acked, false, [], [], []);
      if op.OpLog? {
        LoggedNothing(cfg, disk.files, EventOf(op));
      } else {
        IdleStep(cfg, disk.files, op, acked, false);
      }
    } else {
      acked, rec := Call(l, op);
    }
  }

  lemma LoggedNothing(cfg: Config, files: Files, e: Event)
    requires e.body.Payload?
    ensures Logged(cfg, files, files, e, [], [], false)
  {
    assert LiveLines(files) + [] == LiveLines(files);
    LoggedAlone(cfg, files, files, e, [], false);
  }

  /** The records are of these calls, with these answers. */
  ghost predicate RecordsOf(h: seq<Record>, ops: seq<Op>, acked: seq<bool>) {
    |h| == |ops| == |acked| && forall i :: 0 <= i < |h| ==> h[i].op == ops[i] && h[i].acked == acked[i]
  }

  lemma RecordsSnoc(h: seq<Record>, ops: seq<Op>, acked: seq<bool>, r: Record, i: nat)
    requires i < |ops| && RecordsOf(h, ops[..i], acked) && r.op == ops[i]
    ensures RecordsOf(h + [r], ops[..i + 1], acked + [r.acked])
  {
    forall k | 0 <= k < i + 1
      ensures (h + [r])[k].op == ops[..i + 1][k] && (h + [r])[k].acked == (acked + [r.acked])[k]
    {
      assert k < i ==> (h + [r])[k] == h[k] && ops[..i + 1][k] == ops[..i][k];
    }
  }

  /** The calls so far, what they left on disk, and how their fsyncs went. */
  ghost predicate RunSoFar(
    cfg: Config, start: Files, now: Files, initially: bool, syncsBefore: seq<bool>, syncs: seq<bool>, h: seq<Record>)
  {
    History(cfg, start, now, h) && FsyncHistory(initially, h) && syncs == syncsBefore + SyncsBy(h)
  }

  lemma RunSnoc(
    cfg: Config, start: Files, initially: bool, syncsBefore: seq<bool>, syncs: seq<bool>, h: seq<Record>, r: Record)
    requires RunSoFar(cfg, start, r.before, initially, syncsBefore, syncs, h) && StepOk(cfg, r)
    requires r.wasStale == LastUnsynced(initially, h) && |r.syncs| == |r.added|
    ensures RunSoFar(cfg, start, r.after, initially, syncsBefore, syncs + r.syncs, h + [r])
    ensures LastUnsynced(initially, h + [r]) == StaleAfter(r)
  {
    HistorySnoc(cfg, start, h, r);
    FsyncHistorySnoc(initially, h, r);
    ConcatAssoc(syncsBefore, SyncsBy(h), r.syncs);
  }

  /** One more call of a run. */
  method NextCall(
    cfg: Config, disk: Disk, l: Logger?, op: Op,
    ghost start: Files, ghost initially: bool, ghost syncsBefore: seq<bool>, ghost h: seq<Record>,
    ghost open: bool, ghost smooth: bool)
    returns (next: Logger?, ack: bool, ghost rec: Record)
    requires Ours(cfg, disk, l) && RunSoFar(cfg, start, disk.files, initially, syncsBefore, disk.syncs, h)
    requires StaleOf(l) == LastUnsynced(initially, h) && Standing(l, open, smooth)
    requires smooth ==> StaleLandings(h) == 0 && Intact(cfg, ArchiveOf(cfg, start))
    modifies disk, l
    ensures Ours(cfg, disk, next) && (next != null ==> next == l || fresh(next))
    ensures RunSoFar(cfg, start, disk.files, initially, syncsBefore, disk.syncs, h + [rec])
    ensures StaleOf(next) == LastUnsynced(initially, h + [rec])
    ensures rec.op == op && rec.acked == ack && disk.faults >= old(disk.faults)
    ensures var stillSmooth := smooth && disk.faults == old(disk.faults);
            && Standing(next, OpenedBy(open, op), stillSmooth) && AnsweredAsDue(open, stillSmooth, [op], [ack])
            && (stillSmooth ==> StaleLandings(h + [rec]) == 0)
  {
    if smooth {
      StaysContinuable(cfg, start, disk.files, h);
    }
    next, ack, rec := Step(cfg, disk, l, op);
    assert (h + [rec])[..|h|] == h;
    RunSnoc(cfg, start, initially, syncsBefore, old(disk.syncs), h, rec);
  }

  /**
   * Any sequence of calls, whatever fails on the way, from a logger or none. `open` and `smooth` say how things stand
   * at the start: whether a logger is meant to be open, and whether it then is and all files are good.
   */
  method RunCalls(cfg: Config, disk: Disk, first: Logger?, ops: seq<Op>, ghost open: bool, ghost smooth: bool)
    returns (last: Logger?, acked: seq<bool>, ghost h: seq<Record>)
    requires Ours(cfg, disk, first) && Standing(first, open, smooth)
    requires smooth ==> Intact(cfg, ArchiveOf(cfg, disk.files))
    modifies disk, first
    ensures Ours(cfg, disk, last) && RecordsOf(h, ops, acked) && disk.faults >= old(disk.faults)
    ensures RunSoFar(cfg, old(disk.files), disk.files, old(StaleOf(first)), old(disk.syncs), disk.syncs, h)
    ensures AnsweredAsDue(open, smooth && disk.faults == old(disk.faults), ops, acked)
  {
    last, acked, h := first, [], [];
    assert disk.syncs + [] == disk.syncs;
    ghost var isOpen, goesWell := open, smooth;
    for i := 0 to |ops|
      invariant Ours(cfg, disk, last) && (last != null ==> last == first || fresh(last))
      invariant RunSoFar(cfg, old(disk.files), disk.files, old(StaleOf(first)), old(disk.syncs), disk.syncs, h)
      invariant StaleOf(last) == LastUnsynced(old(StaleOf(first)), h) && RecordsOf(h, ops[..i], acked)
      invariant disk.faults >= old(disk.faults) && goesWell == (smooth && disk.faults == old(disk.faults))
      invariant isOpen == OpenAfter(open, ops[..i]) && Standing(last, isOpen, goesWell)
      invariant AnsweredAsDue(open, goesWell, ops[..i], acked) && (goesWell ==> StaleLandings(h) == 0)
    {
      var ack;
      ghost var rec;
      last, ack, rec :=
        NextCall(cfg, disk, last, ops[i], old(disk.files), old(StaleOf(first)), old(disk.syncs), h, isOpen, goesWell);
      RecordsSnoc(h, ops, acked, rec, i);
      ghost var stillWell := smooth && disk.faults == old(disk.faults);
      AnsweredNext(open, goesWell, ops, i, acked, ack, stillWell);
      isOpen, goesWell := OpenedBy(isOpen, ops[i]), stillWell;
      h, acked := h + [rec], acked + [ack];
    }
    assert ops[..|ops|] == ops;
  }

  /**
   * Every run, whatever opens, renames, removals, writes and fsyncs fail on the way.
   * What was written is, in order, in the dropped files and the archive, and each file dropped was generation
   * `retain`. Every opening sentinel names the next older surviving file. All files pass VerifyChain exactly when
   * they did at the start and no line was added behind one whose fsync had failed; there are no more such lines than
   * failed fsyncs. An event whose Log call succeeded is on disk unless more than `retain` rotation markers were
   * written since, and in any case if no more than `retain` calls have been made since. Calls succeed only on an
   * open log, and, if the files were good at the start and no operation fails, always on one.
   */
  method Run(cfg: Config, disk: Disk, ops: seq<Op>) returns (acked: seq<bool>, ghost h: seq<Record>)
    requires cfg.Valid() && FilesOk(cfg, disk.files)
    modifies disk
    ensures RecordsOf(h, ops, acked) && disk.faults >= old(disk.faults)
    ensures AnsweredAsDue(
              false, Intact(cfg, ArchiveOf(cfg, old(disk.files))) && disk.faults == old(disk.faults), ops, acked)
    ensures RunSoFar(cfg, old(disk.files), disk.files, false, old(disk.syncs), disk.syncs, h)
    ensures Flatten(ArchiveOf(cfg, old(disk.files))) + AddedBy(h) ==
            Flatten(DroppedBy(h) + ArchiveOf(cfg, disk.files))
    ensures Payloads(cfg.c, cfg.key, AddedBy(h)) == Recorded(h) && OldestDropped(cfg, h)
    ensures Linked(cfg, ArchiveOf(cfg, old(disk.files))) ==> Linked(cfg, ArchiveOf(cfg, disk.files))
    ensures Intact(cfg, DroppedBy(h) + ArchiveOf(cfg, disk.files)) <==>
            Intact(cfg, ArchiveOf(cfg, old(disk.files))) && UnsyncedLandings(false, h) == 0
    ensures UnsyncedLandings(false, h) <= Failures(disk.syncs[|old(disk.syncs)|..])
    ensures Intact(cfg, ArchiveOf(cfg, old(disk.files))) && Failures(disk.syncs[|old(disk.syncs)|..]) == 0 ==>
              forall n :: n in disk.files ==> VerifiesFully(cfg, disk.files[n])
    ensures forall i :: 0 <= i < |ops| && ops[i].OpLog? && acked[i] && MarkersSince(cfg, h, i) <= cfg.Retain() ==>
              OnDisk(cfg, disk.files, EventOf(ops[i]))
    ensures forall i :: 0 <= i < |ops| && ops[i].OpLog? && acked[i] && |ops| - i <= cfg.Retain() ==>
              OnDisk(cfg, disk.files, EventOf(ops[i]))
  {
    var last;
    last, acked, h := RunCalls(cfg, disk, null, ops, false, Intact(cfg, ArchiveOf(cfg, disk.files)));
    ghost var start, now := old(disk.files), disk.files;
    HistoryAdvances(cfg, start, now, h);
    IntactIffNoneUnsynced(cfg, start, now, false, h);
    assert SyncsBy(h) == disk.syncs[|old(disk.syncs)|..];
    HistoryDrops(cfg, start, now, h);
    DroppedAtRetain(cfg, h);
    if Intact(cfg, DroppedBy(h) + ArchiveOf(cfg, now)) {
      AllVerify(cfg, now, DroppedBy(h));
    }
    AllRetained(cfg, start, now, h, ops, acked);
  }

  /** The events acknowledged that are on disk, by markers written since and by calls made since. */
  lemma AllRetained(cfg: Config, start: Files, now: Files, h: seq<Record>, ops: seq<Op>, acked: seq<bool>)
    requires History(cfg, start, now, h) && RecordsOf(h, ops, acked)
    ensures forall i :: 0 <= i < |ops| && ops[i].OpLog? && acked[i] && MarkersSince(cfg, h, i) <= cfg.Retain() ==>
              OnDisk(cfg, now, EventOf(ops[i]))
    ensures forall i :: 0 <= i < |ops| ==> MarkersSince(cfg, h, i) <= |ops| - i
  {
    HistoryAges(cfg, start, now, h);
    forall i | 0 <= i < |ops| && ops[i].OpLog? && acked[i] && MarkersSince(cfg, h, i) <= cfg.Retain()
      ensures OnDisk(cfg, now, EventOf(ops[i]))
    {
      HistoryWrote(cfg, start, now, h, i);
      AcknowledgedOnDisk(cfg, start, now, h, i);
    }
    forall i | 0 <= i < |ops| ensures MarkersSince(cfg, h, i) <= |ops| - i {
      FewMarkers(cfg, start, now, h, i);
    }
  }

  // ---- pruning, then logging on ----

  /** The lines a call added, if none was a rotation marker, extend the live file, and are good unless stale. */
  ghost predicate Extends(cfg: Config, r: Record) {
    Markers(cfg, r.added) == 0 ==>
      && Grew(r.before, r.after, r.added) && |r.added| <= 1
      && (r.added != [] && !r.wasStale ==>
            Verdict(cfg.c, cfg.mode, LiveLines(r.before), r.added[0]).None?)
  }

  lemma StepExtends(cfg: Config, r: Record)
    requires StepOk(cfg, r)
    ensures Extends(cfg, r)
  {
  }

  lemma ExtendsOne(cfg: Config, base: seq<Bytes>, more: seq<Bytes>, r: Record)
    requires Extends(cfg, r) && Markers(cfg, r.added) == 0 && (r.added != [] ==> !r.wasStale)
    requires GoodExtension(cfg.c, cfg.mode, base, more) && LiveLines(r.before) == base + more
    ensures GoodExtension(cfg.c, cfg.mode, base, more + r.added) && LiveLines(r.after) == base + (more + r.added)
  {
    ConcatAssoc(base, more, r.added);
    if r.added == [] {
      assert more + [] == more;
    } else {
      assert r.added == [r.added[0]];
      assert (more + r.added)[..|more|] == more;
    }
  }

  /** Without rotations and stale landings, a run extends the live file by good lines only. */
  lemma {:induction false} HistoryExtends(cfg: Config, start: Files, now: Files, h: seq<Record>)
    requires History(cfg, start, now, h) && StaleLandings(h) == 0 && Markers(cfg, AddedBy(h)) == 0
    ensures LiveLines(now) == LiveLines(start) + AddedBy(h)
    ensures GoodExtension(cfg.c, cfg.mode, LiveLines(start), AddedBy(h))
    decreases |h|
  {
    if h == [] {
      assert LiveLines(start) + [] == LiveLines(start);
    } else {
      var n := |h| - 1;
      HistoryLast(cfg, start, now, h);
      MarkersAppend(cfg, AddedBy(h[..n]), h[n].added);
      HistoryExtends(cfg, start, h[n].before, h[..n]);
      StepExtends(cfg, h[n]);
      ExtendsOne(cfg, LiveLines(start), AddedBy(h[..n]), h[n]);
    }
  }

  /** What verification says of the files when calls follow a prune of an accepted file. */
  ghost predicate VerifiedAfterPrune(cfg: Config, original: Files, keep: seq<nat>, now: Files, h: seq<Record>) {
    && IsSelection(keep, |LiveLines(original)|)
    // The bad lines are kept ones that lost their predecessor and those added behind a failed fsync, wherever now.
    && BadLines(cfg, DroppedBy(h) + ArchiveOf(cfg, now)) + CountLinked(keep) ==
         BadLines(cfg, Generations(original, 1, cfg.Retain())) + |keep| + UnsyncedLandings(false, h)
    // As long as the file is not rotated, it verifies its still-linked lines and every line added.
    && (Markers(cfg, AddedBy(h)) == 0 && UnsyncedLandings(false, h) == 0 ==>
          && LiveLines(now) == Select(LiveLines(original), keep) + AddedBy(h)
          && ReportOf(cfg.c, cfg.mode, LiveLines(now)).verified == CountLinked(keep) + |AddedBy(h)|
          && (keep == [] ==> Accepted(cfg.c, cfg.mode, LiveLines(now))))
  }

  lemma BadAfterPrune(cfg: Config, original: Files, pruned: Files, keep: seq<nat>)
    requires Accepted(cfg.c, cfg.mode, LiveLines(original)) && IsSelection(keep, |LiveLines(original)|)
    requires SameGenerations(original, pruned) && LiveLines(pruned) == Select(LiveLines(original), keep)
    ensures BadLines(cfg, ArchiveOf(cfg, pruned)) + CountLinked(keep) ==
            BadLines(cfg, Generations(original, 1, cfg.Retain())) + |keep|
  {
    GenerationsFrame(original, pruned, 1, cfg.Retain());
    BadArchive(cfg, pruned);
    SelectionVerified(cfg.c, cfg.mode, LiveLines(original), keep);
  }

  lemma AfterPrune(cfg: Config, original: Files, pruned: Files, keep: seq<nat>, now: Files, h: seq<Record>)
    requires Accepted(cfg.c, cfg.mode, LiveLines(original)) && IsSelection(keep, |LiveLines(original)|)
    requires SameGenerations(original, pruned) && LiveLines(pruned) == Select(LiveLines(original), keep)
    requires History(cfg, pruned, now, h) && FsyncHistory(false, h)
    ensures VerifiedAfterPrune(cfg, original, keep, now, h)
  {
    BadAfterPrune(cfg, original, pruned, keep);
    HistoryAdvances(cfg, pruned, now, h);
    LandingsBounded(false, h);
    if Markers(cfg, AddedBy(h)) == 0 && UnsyncedLandings(false, h) == 0 {
      HistoryExtends(cfg, pruned, now, h);
      PruneThenLog(cfg.c, cfg.mode, LiveLines(original), keep, AddedBy(h));
      if keep == [] {
        assert Select(LiveLines(original), keep) + AddedBy(h) == AddedBy(h);
      }
    }
  }

  /**
   * Prune on an accepted live file, then any calls, closing and reopening included: if the prune succeeded, the only
   * bad lines are kept ones whose predecessor was removed and, no more than failed fsyncs, lines added behind one.
   */
  method PruneThenCalls(l: Logger, cutoff: int, readKeys: seq<Key>, ops: seq<Op>)
    returns (r: Result<nat, LogError>, acked: seq<bool>, ghost keep: seq<nat>, ghost h: seq<Record>)
    requires l.Valid() && Accepted(l.cfg.c, l.cfg.mode, LiveLines(l.disk.files))
    modifies l, l.disk
    ensures RecordsOf(h, ops, acked) && old(l.disk.syncs) <= l.disk.syncs
    ensures r.Ok? && (r.value > 0 || !old(l.stale)) ==>
              && Live in old(l.disk.files)
              && KeepsUnexpired(l.cfg.c, [l.cfg.key] + readKeys, cutoff, old(l.disk.files)[Live], keep)
              && VerifiedAfterPrune(l.cfg, old(l.disk.files), keep, l.disk.files, h)
              && UnsyncedLandings(false, h) <= Failures(l.disk.syncs[|old(l.disk.syncs)|..])
  {
    r, keep := l.Prune(cutoff, readKeys);
    ghost var pruned, stale := l.disk.files, StaleOf(l);
    var last;
    last, acked, h := RunCalls(l.cfg, l.disk, l, ops, true, false);
    if r.Ok? && (r.value > 0 || !old(l.stale)) {
      AfterPrune(l.cfg, old(l.disk.files), pruned, keep, l.disk.files, h);
      LandingsBounded(false, h);
      assert SyncsBy(h) == l.disk.syncs[|old(l.disk.syncs)|..];
    }
  }

  // ---- a failed fsync ----

  /** Two writes on an open file: after a failed fsync the second line is bad, and the file with it. */
  method WriteTwice(l: Logger, first: Event, second: Event)
    returns (r: Option<LogError>, s: Option<LogError>, ghost landed: seq<Bytes>)
    requires l.Valid() && l.handle.Open?
    modifies l, l.disk
    ensures l.Valid() && LiveLines(l.disk.files) == LiveLines(old(l.disk.files)) + landed
    ensures r == Some(FsyncFailed) && (s.None? || s == Some(FsyncFailed)) ==>
              !Accepted(l.cfg.c, l.cfg.mode, LiveLines(l.disk.files))
    ensures r.None? && (s.None? || s == Some(FsyncFailed)) && !old(l.stale) ==>
              (Accepted(l.cfg.c, l.cfg.mode, LiveLines(l.disk.files)) <==>
               Accepted(l.cfg.c, l.cfg.mode, LiveLines(old(l.disk.files))))
  {
    ghost var more;
    r, landed := l.WriteEvent(first);
    ghost var between := LiveLines(l.disk.files);
    if landed != [] {
      AcceptedSnoc(l.cfg.c, l.cfg.mode, LiveLines(old(l.disk.files)), landed[0]);
      assert landed == [landed[0]];
    }
    s, more := l.WriteEvent(second);
    if more != [] {
      AcceptedSnoc(l.cfg.c, l.cfg.mode, between, more[0]);
      assert more == [more[0]];
    }
    ConcatAssoc(LiveLines(old(l.disk.files)), landed, more);
    landed := landed + more;
  }

  /** Two lines with the same header, which a rolled back chain state leads to: the first is good, the second not. */
  lemma SameHeaderTwice(
    cfg: Config, lines: seq<Bytes>, h: Header, nonce: Bytes, first: Event, other: Bytes, second: Event)
    requires cfg.Valid() && Accepted(cfg.c, cfg.mode, lines) && |nonce| == |other| == NONCE_LEN
    requires (h.seqNo, h.prevHmac) == NextLink(cfg.c, lines)
    ensures var line := Render(cfg.c, cfg.key, nonce, h, first);
            var again := Render(cfg.c, cfg.key, other, h, second);
            && Accepted(cfg.c, cfg.mode, lines + [line])
            && Verdict(cfg.c, cfg.mode, lines + [line], again) == Some(SeqGap)
            && !Accepted(cfg.c, cfg.mode, lines + [line] + [again])
  {
    var line := Render(cfg.c, cfg.key, nonce, h, first);
    var again := Render(cfg.c, cfg.key, other, h, second);
    RenderedLineLands(cfg, lines, nonce, h, first);
    AcceptedSnoc(cfg.c, cfg.mode, lines, line);
    RenderedLineLands(cfg, lines + [line], other, h, second);
    RenderRoundTrip(cfg.c, cfg.key, other, h, second);
    AcceptedSnoc(cfg.c, cfg.mode, lines + [line], again);
  }

  lemma AllVerify(cfg: Config, files: Files, dropped: seq<seq<Bytes>>)
    requires FilesOk(cfg, files) && Intact(cfg, dropped + ArchiveOf(cfg, files))
    ensures forall n :: n in files ==> VerifiesFully(cfg, files[n])
  {
    var archive := ArchiveOf(cfg, files);
    forall i | 0 <= i < |archive| ensures Accepted(cfg.c, cfg.mode, archive[i]) {
      assert (dropped + archive)[|dropped| + i] == archive[i];
    }
    forall n | n in files ensures VerifiesFully(cfg, files[n]) {
      IntactFilesVerify(cfg, files, n);
    }
  }
}
