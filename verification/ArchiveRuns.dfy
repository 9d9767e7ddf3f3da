// What the calls of a run add up to (internal/audit/log.go): which lines the archive holds, how many of
// them verification finds bad, and how long a file survives rotations.
module ArchiveRuns {
  import opened Basics
  import opened Lines
  import opened ChainFormat
  import opened Chain
  import opened ChainFacts
  import opened Archive

  // ---- how many lines are bad ----

  /** The lines VerifyChain does not count as verified. */
  ghost function BadIn(cfg: Config, lines: seq<Bytes>): (n: nat)
  {
    |lines| - CountGood(cfg.c, cfg.mode, lines)
  }

  ghost function BadLines(cfg: Config, archive: seq<seq<Bytes>>): (n: nat)
  {
    if archive == [] then 0 else BadIn(cfg, archive[0]) + BadLines(cfg, archive[1..])
  }

  lemma {:induction false} BadLinesAppend(cfg: Config, a: seq<seq<Bytes>>, b: seq<seq<Bytes>>)
    ensures BadLines(cfg, a + b) == BadLines(cfg, a) + BadLines(cfg, b)
  {
    if a == [] {
      assert a + b == b;
    } else {
      assert (a + b)[1..] == a[1..] + b;
      BadLinesAppend(cfg, a[1..], b);
    }
  }

  lemma BadLinesOne(cfg: Config, file: seq<Bytes>)
    ensures BadLines(cfg, [file]) == BadIn(cfg, file)
  {
    assert [file][1..] == [];
  }

  /** Every file passes exactly when no line is bad. */
  lemma {:induction false} IntactIffNoneBad(cfg: Config, archive: seq<seq<Bytes>>)
    ensures Intact(cfg, archive) <==> BadLines(cfg, archive) == 0
  {
    if archive != [] {
      AcceptedIffAllCounted(cfg.c, cfg.mode, archive[0]);
      IntactIffNoneBad(cfg, archive[1..]);
      assert forall i :: 0 <= i < |archive[1..]| ==> archive[1..][i] == archive[i + 1];
      if Intact(cfg, archive[1..]) && Accepted(cfg.c, cfg.mode, archive[0]) {
        forall i | 0 <= i < |archive| ensures Accepted(cfg.c, cfg.mode, archive[i]) {
          assert i > 0 ==> archive[i] == archive[1..][i - 1];
        }
      }
    }
  }

  /** 1 for a line that is bad behind these lines, 0 for a good one. */
  ghost function Fault(cfg: Config, lines: seq<Bytes>, line: Bytes): (n: nat)
  {
    if Verdict(cfg.c, cfg.mode, lines, line).None? then 0 else 1
  }

  lemma BadInSnoc(cfg: Config, lines: seq<Bytes>, line: Bytes)
    ensures BadIn(cfg, lines + [line]) == BadIn(cfg, lines) + Fault(cfg, lines, line)
  {
    CountGoodSnoc(cfg.c, cfg.mode, lines, line);
  }

  lemma ExtendedBad(cfg: Config, archive: seq<seq<Bytes>>, line: Bytes)
    requires archive != []
    ensures BadLines(cfg, Extended(archive, line)) == BadLines(cfg, archive) + Fault(cfg, LastFile(archive), line)
  {
    var older, newest := archive[..|archive| - 1], LastFile(archive);
    assert archive == older + [newest];
    BadLinesAppend(cfg, older, [newest]);
    BadLinesAppend(cfg, older, [newest + [line]]);
    BadLinesOne(cfg, newest);
    BadLinesOne(cfg, newest + [line]);
    BadInSnoc(cfg, newest, line);
  }

  /** A rotation adds to the bad lines at most its first sentinel, if that is bad where it lands. */
  lemma RotateBad(cfg: Config, before: seq<seq<Bytes>>, after: seq<seq<Bytes>>, added: seq<Bytes>, dropped: bool)
    requires RotateShape(before, after, added, dropped) && (dropped ==> before != [])
    requires |added| == 2 ==> Accepted(cfg.c, cfg.mode, [added[1]])
    ensures added != [] ==> before != []
    ensures BadLines(cfg, DroppedFile(before, dropped) + after) ==
            BadLines(cfg, before) + if added == [] then 0 else Fault(cfg, LastFile(before), added[0])
  {
    if added == [] {
      assert [] + after == before;
    } else {
      RotateParts(before, after, added, dropped);
      ExtendedBad(cfg, before, added[0]);
      var more := added[1..];
      assert more == if |added| == 1 then [] else [added[1]];
      BadLinesAppend(cfg, Extended(before, added[0]), [more]);
      BadLinesOne(cfg, more);
      AcceptedIffAllCounted(cfg.c, cfg.mode, more);
      assert |more| == 0 || more == [added[1]];
    }
  }

  // ---- how long a file survives ----

  /** How many rotations a file is from the live one. */
  function Slot(n: Name): (s: nat)
  {
    if n.Live? then 0 else n.g
  }

  /** The file is still there, in a slot no later than this, with at most lines added. */
  ghost predicate Survives(lines: seq<Bytes>, files: Files, slot: nat) {
    exists n :: n in files && Slot(n) <= slot && lines <= files[n]
  }

  /** Up to k rotations have passed: every file moved up by at most k slots, if that leaves it a slot. */
  ghost predicate Aged(cfg: Config, before: Files, after: Files, k: nat) {
    forall n :: n in before && Slot(n) + k <= cfg.Retain() ==> Survives(before[n], after, Slot(n) + k)
  }

  lemma AgedMore(cfg: Config, before: Files, after: Files, j: nat, k: nat)
    requires Aged(cfg, before, after, j) && j <= k
    ensures Aged(cfg, before, after, k)
  {
    forall n | n in before && Slot(n) + k <= cfg.Retain() ensures Survives(before[n], after, Slot(n) + k) {
      assert Survives(before[n], after, Slot(n) + j);
    }
  }

  lemma AgedTrans(cfg: Config, a: Files, b: Files, c: Files, j: nat, k: nat)
    requires Aged(cfg, a, b, j) && Aged(cfg, b, c, k)
    ensures Aged(cfg, a, c, j + k)
  {
    forall n | n in a && Slot(n) + j + k <= cfg.Retain() ensures Survives(a[n], c, Slot(n) + j + k) {
      assert Survives(a[n], b, Slot(n) + j);
      var m :| m in b && Slot(m) <= Slot(n) + j && a[n] <= b[m];
      assert Survives(b[m], c, Slot(m) + k);
      var l :| l in c && Slot(l) <= Slot(m) + k && b[m] <= c[l];
      assert a[n] <= c[l];
    }
  }

  lemma GrewAges(cfg: Config, before: Files, after: Files, landed: seq<Bytes>)
    requires Grew(before, after, landed)
    ensures Aged(cfg, before, after, 0)
  {
    forall n | n in before ensures Survives(before[n], after, Slot(n)) {
      assert n == if n.Live? then Live else Gen(n.g);
      assert n in after && before[n] <= after[n];
    }
  }

  lemma AgedSame(cfg: Config, files: Files)
    ensures Aged(cfg, files, files, 0)
  {
    forall n | n in files ensures Survives(files[n], files, Slot(n)) {
      assert files[n] <= files[n];
    }
  }

  /** A line is in some file no later than this slot. */
  ghost predicate Held(files: Files, line: Bytes, slot: nat) {
    exists n :: n in files && Slot(n) <= slot && line in files[n]
  }

  lemma HeldAges(cfg: Config, before: Files, after: Files, line: Bytes, s: nat, k: nat)
    requires Held(before, line, s) && Aged(cfg, before, after, k) && s + k <= cfg.Retain()
    ensures Held(after, line, s + k)
  {
    var n :| n in before && Slot(n) <= s && line in before[n];
    assert Survives(before[n], after, Slot(n) + k);
  }

  // ---- the events among the lines ----

  ghost function PayloadOf(c: Codec, key: Key, line: Bytes): (events: seq<Event>)
  {
    match DecodeLine(c, [key], line)
    case Some(Event(ts, Payload(bytes))) => [Event(ts, Payload(bytes))]
    case _ => []
  }

  /** The ordinary events among these lines, in order. */
  ghost function Payloads(c: Codec, key: Key, lines: seq<Bytes>): (events: seq<Event>)
  {
    if lines == [] then [] else PayloadOf(c, key, lines[0]) + Payloads(c, key, lines[1..])
  }

  lemma {:induction false} PayloadsAppend(c: Codec, key: Key, lines: seq<Bytes>, more: seq<Bytes>)
    ensures Payloads(c, key, lines + more) == Payloads(c, key, lines) + Payloads(c, key, more)
  {
    if lines == [] {
      assert lines + more == more;
    } else {
      assert (lines + more)[1..] == lines[1..] + more;
      PayloadsAppend(c, key, lines[1..], more);
    }
  }

  lemma PayloadsOne(c: Codec, key: Key, line: Bytes)
    ensures Payloads(c, key, [line]) == PayloadOf(c, key, line)
  {
    assert [line][1..] == [];
  }

  /** rotate's sentinels hold no ordinary event. */
  lemma RotateAddsNoPayload(cfg: Config, ts: int, added: seq<Bytes>)
    requires SentinelsOf(cfg, ts, added)
    ensures Payloads(cfg.c, cfg.key, added) == []
  {
    if added != [] {
      PayloadsOne(cfg.c, cfg.key, added[0]);
      if |added| == 2 {
        PayloadsOne(cfg.c, cfg.key, added[1]);
        PayloadsAppend(cfg.c, cfg.key, [added[0]], [added[1]]);
        assert added == [added[0]] + [added[1]];
      } else {
        assert added == [added[0]];
      }
    }
  }

  /** 1 for a marker that ends a rotated file. */
  ghost function MarkerOf(cfg: Config, line: Bytes): (n: nat)
  {
    match DecodeLine(cfg.c, [cfg.key], line)
    case Some(Event(_, RotatedTo)) => 1
    case _ => 0
  }

  /** How many rotations these lines speak of. */
  ghost function Markers(cfg: Config, lines: seq<Bytes>): (n: nat)
  {
    if lines == [] then 0 else MarkerOf(cfg, lines[0]) + Markers(cfg, lines[1..])
  }

  lemma {:induction false} MarkersAppend(cfg: Config, lines: seq<Bytes>, more: seq<Bytes>)
    ensures Markers(cfg, lines + more) == Markers(cfg, lines) + Markers(cfg, more)
  {
    if lines == [] {
      assert lines + more == more;
    } else {
      assert (lines + more)[1..] == lines[1..] + more;
      MarkersAppend(cfg, lines[1..], more);
    }
  }

  lemma MarkersOne(cfg: Config, line: Bytes)
    ensures Markers(cfg, [line]) == MarkerOf(cfg, line)
  {
    assert [line][1..] == [];
  }

  lemma SentinelMarkers(cfg: Config, ts: int, added: seq<Bytes>)
    requires SentinelsOf(cfg, ts, added)
    ensures Markers(cfg, added) == if added == [] then 0 else 1
  {
    if |added| == 2 {
      assert added[1..] == [added[1]];
      MarkersOne(cfg, added[1]);
    } else if |added| == 1 {
      assert added == [added[0]];
      MarkersOne(cfg, added[0]);
    }
  }

  /** What rotate writes: a marker in the old file, then one in the new file that carries the first one's MAC. */
  ghost predicate SentinelsOf(cfg: Config, ts: int, added: seq<Bytes>) {
    && |added| <= 2
    && (added != [] ==> DecodeLine(cfg.c, [cfg.key], added[0]) == Some(Event(ts, RotatedTo)))
    && (|added| == 2 ==>
        DecodeLine(cfg.c, [cfg.key], added[1]) == Some(Event(ts, Continued(cfg.c.Hmac(added[0])))))
  }

  lemma JoinSentinels(cfg: Config, ts: int, first: seq<Bytes>, more: seq<Bytes>)
    requires |first| == 1 && SentinelsOf(cfg, ts, first) && |more| <= 1
    requires more != [] ==> DecodeLine(cfg.c, [cfg.key], more[0]) == Some(Event(ts, Continued(cfg.c.Hmac(first[0]))))
    ensures SentinelsOf(cfg, ts, first + more)
  {
  }

  // ---- one call's effect on the whole archive ----

  /**
   * The dropped files and the archive now hold, in order, what the archive held and the added lines; `bad` more
   * lines are bad; links stay right; and files age by the rotation markers among the added lines.
   */
  ghost predicate Advanced(
    cfg: Config, before: Files, after: Files, added: seq<Bytes>, dropped: seq<seq<Bytes>>, bad: nat)
  {
    var a, b := ArchiveOf(cfg, before), ArchiveOf(cfg, after);
    && Flatten(a) + added == Flatten(dropped + b)
    && BadLines(cfg, dropped + b) == BadLines(cfg, a) + bad
    && (Linked(cfg, a) ==> Linked(cfg, b))
    && Aged(cfg, before, after, Markers(cfg, added))
    && |dropped| <= Markers(cfg, added)
  }

  lemma AdvancedSame(cfg: Config, files: Files)
    ensures Advanced(cfg, files, files, [], [], 0)
  {
    var a := ArchiveOf(cfg, files);
    assert Flatten(a) + [] == Flatten(a) && [] + a == a;
    AgedSame(cfg, files);
  }

  lemma DroppedTwice(cfg: Config, d: seq<seq<Bytes>>, b: seq<seq<Bytes>>, e: seq<seq<Bytes>>, c: seq<seq<Bytes>>,
                     y: seq<Bytes>, n: nat)
    requires Flatten(b) + y == Flatten(e + c) && BadLines(cfg, e + c) == BadLines(cfg, b) + n
    ensures Flatten(d + b) + y == Flatten(d + e + c)
    ensures BadLines(cfg, d + e + c) == BadLines(cfg, d + b) + n
  {
    ConcatAssoc(d, e, c);
    FlattenAppend(d, b);
    FlattenAppend(d, e + c);
    ConcatAssoc(Flatten(d), Flatten(b), y);
    BadLinesAppend(cfg, d, b);
    BadLinesAppend(cfg, d, e + c);
  }

  lemma AdvancedTrans(
    cfg: Config, a: Files, b: Files, c: Files,
    x: seq<Bytes>, d: seq<seq<Bytes>>, m: nat, y: seq<Bytes>, e: seq<seq<Bytes>>, n: nat)
    requires Advanced(cfg, a, b, x, d, m) && Advanced(cfg, b, c, y, e, n)
    ensures Advanced(cfg, a, c, x + y, d + e, m + n)
  {
    DroppedTwice(cfg, d, ArchiveOf(cfg, b), e, ArchiveOf(cfg, c), y, n);
    ConcatAssoc(Flatten(ArchiveOf(cfg, a)), x, y);
    MarkersAppend(cfg, x, y);
    AgedTrans(cfg, a, b, c, Markers(cfg, x), Markers(cfg, y));
  }

  lemma FlattenArchive(cfg: Config, files: Files)
    ensures Flatten(ArchiveOf(cfg, files)) == Flatten(Generations(files, 1, cfg.Retain())) + LiveLines(files)
  {
    var gens := Generations(files, 1, cfg.Retain());
    FlattenAppend(gens, LivePart(files));
    FlattenOne(LiveLines(files));
  }

  lemma BadArchive(cfg: Config, files: Files)
    ensures BadLines(cfg, ArchiveOf(cfg, files)) ==
            BadLines(cfg, Generations(files, 1, cfg.Retain())) + BadIn(cfg, LiveLines(files))
  {
    BadLinesAppend(cfg, Generations(files, 1, cfg.Retain()), LivePart(files));
    BadLinesOne(cfg, LiveLines(files));
  }

  lemma WriteConserves(cfg: Config, before: Files, after: Files, landed: seq<Bytes>)
    requires Grew(before, after, landed)
    ensures Flatten(ArchiveOf(cfg, after)) == Flatten(ArchiveOf(cfg, before)) + landed
  {
    GenerationsFrame(before, after, 1, cfg.Retain());
    FlattenArchive(cfg, before);
    FlattenArchive(cfg, after);
    ConcatAssoc(Flatten(Generations(before, 1, cfg.Retain())), LiveLines(before), landed);
  }

  lemma WriteLinks(cfg: Config, before: Files, after: Files, landed: seq<Bytes>)
    requires Grew(before, after, landed) && |landed| <= 1
    requires OpeningHmac(cfg.c, cfg.key, landed).None?
    requires Linked(cfg, ArchiveOf(cfg, before))
    ensures Linked(cfg, ArchiveOf(cfg, after))
  {
    var gens := Generations(before, 1, cfg.Retain());
    GenerationsFrame(before, after, 1, cfg.Retain());
    if Live in before {
      if landed == [] {
        assert LiveLines(before) + [] == LiveLines(before);
      } else {
        assert landed == [landed[0]];
        LinkedAppend(cfg, gens, LiveLines(before), landed[0]);
      }
    } else {
      assert gens + [] == gens;
      assert [] + landed == landed;
      if Live in after {
        LinkedSnoc(cfg, gens, landed);
      }
    }
  }

  /** A written line is bad when it is bad behind the live file. */
  ghost function WriteFault(cfg: Config, lines: seq<Bytes>, landed: seq<Bytes>): (n: nat)
  {
    if landed == [] then 0 else Fault(cfg, lines, landed[0])
  }

  lemma LiveBad(cfg: Config, lines: seq<Bytes>, landed: seq<Bytes>)
    requires |landed| <= 1
    ensures BadIn(cfg, lines + landed) == BadIn(cfg, lines) + WriteFault(cfg, lines, landed)
  {
    if landed == [] {
      assert lines + [] == lines;
    } else {
      assert landed == [landed[0]];
      BadInSnoc(cfg, lines, landed[0]);
    }
  }

  lemma WriteBad(cfg: Config, before: Files, after: Files, landed: seq<Bytes>)
    requires Grew(before, after, landed) && |landed| <= 1
    ensures BadLines(cfg, ArchiveOf(cfg, after)) ==
            BadLines(cfg, ArchiveOf(cfg, before)) + WriteFault(cfg, LiveLines(before), landed)
  {
    GenerationsFrame(before, after, 1, cfg.Retain());
    BadArchive(cfg, before);
    BadArchive(cfg, after);
    LiveBad(cfg, LiveLines(before), landed);
  }

  /** One written event, other than a rotation marker. */
  lemma WriteAdvances(cfg: Config, before: Files, after: Files, landed: seq<Bytes>)
    requires Grew(before, after, landed) && |landed| <= 1
    requires OpeningHmac(cfg.c, cfg.key, landed).None? && Markers(cfg, landed) == 0
    ensures Advanced(cfg, before, after, landed, [], WriteFault(cfg, LiveLines(before), landed))
  {
    WriteConserves(cfg, before, after, landed);
    WriteBad(cfg, before, after, landed);
    GrewAges(cfg, before, after, landed);
    assert [] + ArchiveOf(cfg, after) == ArchiveOf(cfg, after);
    if Linked(cfg, ArchiveOf(cfg, before)) {
      WriteLinks(cfg, before, after, landed);
    }
  }

  /** Opening the live file adds no line. */
  lemma ReopenAdvances(cfg: Config, before: Files, after: Files)
    requires Grew(before, after, [])
    ensures Advanced(cfg, before, after, [], [], 0) && Payloads(cfg.c, cfg.key, []) == []
  {
    WriteAdvances(cfg, before, after, []);
  }

  lemma PayloadsOfEvent(cfg: Config, e: Event, landed: seq<Bytes>)
    requires |landed| <= 1 && e.body.Payload?
    requires landed != [] ==> DecodeLine(cfg.c, [cfg.key], landed[0]) == Some(e)
    ensures Payloads(cfg.c, cfg.key, landed) == if landed == [] then [] else [e]
  {
    if landed != [] {
      assert landed == [landed[0]];
      PayloadsOne(cfg.c, cfg.key, landed[0]);
    }
  }

  /** One ordinary event written. */
  lemma PayloadAdvances(cfg: Config, before: Files, after: Files, e: Event, landed: seq<Bytes>)
    requires Grew(before, after, landed) && |landed| <= 1 && e.body.Payload?
    requires landed != [] ==> DecodeLine(cfg.c, [cfg.key], landed[0]) == Some(e)
    ensures Advanced(cfg, before, after, landed, [], WriteFault(cfg, LiveLines(before), landed))
    ensures Payloads(cfg.c, cfg.key, landed) == if landed == [] then [] else [e]
    ensures Markers(cfg, landed) == 0
  {
    if landed != [] {
      assert landed == [landed[0]];
      MarkersOne(cfg, landed[0]);
    }
    WriteAdvances(cfg, before, after, landed);
    PayloadsOfEvent(cfg, e, landed);
  }

  /** One rotation attempt. */
  lemma RotateAdvances(cfg: Config, before: Files, after: Files, ts: int, added: seq<Bytes>, dropped: bool)
    requires RotateShape(ArchiveOf(cfg, before), ArchiveOf(cfg, after), added, dropped)
    requires SentinelsOf(cfg, ts, added) && (|added| == 2 ==> Accepted(cfg.c, cfg.mode, [added[1]]))
    requires Aged(cfg, before, after, if added == [] then 0 else 1)
    ensures dropped || added != [] ==> ArchiveOf(cfg, before) != []
    ensures Advanced(cfg, before, after, added, DroppedFile(ArchiveOf(cfg, before), dropped),
                     if added == [] then 0 else Fault(cfg, LastFile(ArchiveOf(cfg, before)), added[0]))
    ensures Markers(cfg, added) == if added == [] then 0 else 1
  {
    var a, b := ArchiveOf(cfg, before), ArchiveOf(cfg, after);
    RotateConserves(a, b, added, dropped);
    RotateBad(cfg, a, b, added, dropped);
    SentinelMarkers(cfg, ts, added);
    if Linked(cfg, a) {
      RotateLinks(cfg, a, b, added, dropped);
    }
  }

  /** An event written, then a rotation attempt that adds only sentinels. */
  lemma WriteThenRotate(
    cfg: Config, a: Files, b: Files, c: Files,
    first: seq<Bytes>, m: nat, more: seq<Bytes>, dropped: seq<seq<Bytes>>, n: nat)
    requires Advanced(cfg, a, b, first, [], m) && Advanced(cfg, b, c, more, dropped, n)
    requires Payloads(cfg.c, cfg.key, more) == [] && Markers(cfg, first) == 0
    ensures Advanced(cfg, a, c, first + more, dropped, m + n)
    ensures Payloads(cfg.c, cfg.key, first + more) == Payloads(cfg.c, cfg.key, first)
    ensures Markers(cfg, first + more) == Markers(cfg, more)
  {
    AdvancedTrans(cfg, a, b, c, first, [], m, more, dropped, n);
    assert [] + dropped == dropped;
    PayloadsAppend(cfg.c, cfg.key, first, more);
    MarkersAppend(cfg, first, more);
  }

  /** VerifyChain, given the bytes of a file with these lines, reports no bad line and every line verified. */
  ghost predicate VerifiesFully(cfg: Config, lines: seq<Bytes>) {
    var report := ReportOf(cfg.c, cfg.mode, NonBlank(SplitLines(Unlines(lines))));
    report.firstBadLine == 0 && report.verified == report.totalLines == |lines|
  }

  /** Every file on disk is somewhere in the archive. */
  lemma {:induction false} GenerationListed(files: Files, lo: nat, g: nat, hi: nat)
    requires lo <= g <= hi && Gen(g) in files
    ensures files[Gen(g)] in Generations(files, lo, hi)
    decreases g - lo
  {
    if lo < g {
      GenerationListed(files, lo + 1, g, hi);
    }
  }

  /** In an intact archive VerifyChain passes every file: no bad line, and every line verified. */
  lemma IntactFilesVerify(cfg: Config, files: Files, n: Name)
    requires FilesOk(cfg, files) && Intact(cfg, ArchiveOf(cfg, files)) && n in files
    ensures VerifiesFully(cfg, files[n])
  {
    var archive := ArchiveOf(cfg, files);
    if n.Gen? {
      GenerationListed(files, 1, n.g, cfg.Retain());
    } else {
      assert LivePart(files) == [files[Live]];
      assert files[Live] in LivePart(files);
    }
    assert files[n] in archive;
    var i :| 0 <= i < |archive| && archive[i] == files[n];
    ReportOnFile(cfg.c, cfg.mode, files[n]);
  }
}
