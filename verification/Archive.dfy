// The audit log as a set of files: the live file and its rotated generations
// (internal/audit/log.go), read oldest first as one archive.
module Archive {
  import opened Basics
  import opened Lines
  import opened ChainFormat
  import opened Chain
  import opened ChainFacts

  datatype Name = Live | Gen(g: nat)

  /** The lines of each file; on disk each line is followed by a newline (Unlines). */
  type Files = map<Name, seq<Bytes>>

  /**
   * What stays fixed over a run: the codec, the sealing key, the keys the auditor verifies with
   * (None for header-only) and how many generations are kept.
   */
  datatype Config = Config(c: Codec, key: Key, mode: Mode, retainFiles: int)
  {
    /** shiftGenerations keeps at least one generation. */
    function Retain(): (n: nat)
      ensures n >= 1
    {
      if retainFiles < 1 then 1 else retainFiles
    }

    ghost predicate Valid() {
      c.Sound() && (mode.Some? ==> key in mode.value)
    }
  }

  /** What can stand between two newlines of a log: not blank, and without a newline of its own. */
  ghost predicate LineOk(line: Bytes) {
    line != [] && NoNewline(line)
  }

  ghost predicate LinesOk(lines: seq<Bytes>) {
    forall i :: 0 <= i < |lines| ==> LineOk(lines[i])
  }

  ghost predicate FilesOk(cfg: Config, files: Files) {
    && (forall n :: n in files ==> LinesOk(files[n]))
    && (forall n :: n in files ==> n.Live? || 1 <= n.g <= cfg.Retain())
  }

  /** Every file of the archive passes VerifyChain. */
  ghost predicate Intact(cfg: Config, archive: seq<seq<Bytes>>) {
    forall i :: 0 <= i < |archive| ==> Accepted(cfg.c, cfg.mode, archive[i])
  }

  /** Generations hi, hi - 1, ..., lo that exist, oldest first, as line lists. */
  ghost function Generations(files: Files, lo: nat, hi: nat): (gens: seq<seq<Bytes>>)
    decreases hi + 1 - lo
  {
    if lo > hi then []
    else Generations(files, lo + 1, hi) + if Gen(lo) in files then [files[Gen(lo)]] else []
  }

  ghost function LivePart(files: Files): (live: seq<seq<Bytes>>)
  {
    if Live in files then [files[Live]] else []
  }

  /** All surviving files, oldest first. */
  ghost function ArchiveOf(cfg: Config, files: Files): (archive: seq<seq<Bytes>>)
  {
    Generations(files, 1, cfg.Retain()) + LivePart(files)
  }

  /** The prev_file_hmac a file opens with, if its first line is a rotation-continued sentinel. */
  function OpeningHmac(c: Codec, key: Key, lines: seq<Bytes>): (h: Option<Mac>)
  {
    if lines == [] then None
    else match DecodeLine(c, [key], lines[0])
      case Some(Event(_, Continued(h))) => Some(h)
      case _ => None
  }

  ghost predicate LinksTo(cfg: Config, older: seq<Bytes>, newer: seq<Bytes>) {
    var h := OpeningHmac(cfg.c, cfg.key, newer);
    h.Some? ==> older != [] && h.value == cfg.c.Hmac(LastOf(older))
  }

  /** Every opening sentinel names the MAC of the last line of the next older surviving file. */
  ghost predicate Linked(cfg: Config, archive: seq<seq<Bytes>>) {
    forall i :: 0 < i < |archive| ==> LinksTo(cfg, archive[i - 1], archive[i])
  }

  // ---- generations under the primitive file operations ----

  lemma {:induction false} GenerationsFrame(a: Files, b: Files, lo: nat, hi: nat)
    requires forall g :: lo <= g <= hi ==> (Gen(g) in a <==> Gen(g) in b)
    requires forall g :: lo <= g <= hi && Gen(g) in a && Gen(g) in b ==> a[Gen(g)] == b[Gen(g)]
    ensures Generations(a, lo, hi) == Generations(b, lo, hi)
    decreases hi + 1 - lo
  {
    if lo <= hi {
      GenerationsFrame(a, b, lo + 1, hi);
    }
  }

  function Moved(files: Files, from: Name, to: Name): (r: Files)
    requires from in files
  {
    (files - {from})[to := files[from]]
  }

  /** Renaming generation g to the empty slot g + 1 changes no file and not their order. */
  lemma {:induction false} ShiftKeepsGenerations(files: Files, lo: nat, g: nat, hi: nat)
    requires lo <= g < hi && Gen(g) in files && Gen(g + 1) !in files
    ensures Generations(Moved(files, Gen(g), Gen(g + 1)), lo, hi) == Generations(files, lo, hi)
    decreases g - lo
  {
    var after := Moved(files, Gen(g), Gen(g + 1));
    if lo < g {
      ShiftKeepsGenerations(files, lo + 1, g, hi);
    } else {
      GenerationsFrame(files, after, g + 2, hi);
      var older := Generations(files, g + 2, hi);
      var moved := [files[Gen(g)]];
      assert Generations(files, g + 1, hi) == older + [] == older;
      assert Generations(after, g + 1, hi) == older + moved;
      assert Generations(after, g, hi) == older + moved + [] == older + moved;
    }
  }

  /** Removing the oldest slot drops exactly the oldest file. */
  lemma {:induction false} RemoveOldestGeneration(files: Files, lo: nat, hi: nat)
    requires lo <= hi && Gen(hi) in files
    ensures Generations(files, lo, hi) ==
            [files[Gen(hi)]] + Generations(files - {Gen(hi)}, lo, hi)
    decreases hi - lo
  {
    if lo < hi {
      RemoveOldestGeneration(files, lo + 1, hi);
    } else {
      assert Generations(files, hi + 1, hi) == [];
    }
  }

  /** Renaming the live file to the empty slot 1 leaves the archive as it is. */
  lemma RotateInKeepsArchive(cfg: Config, files: Files)
    requires Live in files && Gen(1) !in files
    ensures ArchiveOf(cfg, Moved(files, Live, Gen(1))) == ArchiveOf(cfg, files)
  {
    var hi := cfg.Retain();
    var after := Moved(files, Live, Gen(1));
    GenerationsFrame(files, after, 2, hi);
    var older := Generations(files, 2, hi);
    assert Generations(files, 1, hi) == older + [] == older;
    assert Generations(after, 1, hi) == older + [files[Live]];
    assert ArchiveOf(cfg, after) == older + [files[Live]] + [] == older + [files[Live]];
  }

  /** Creating an empty live file puts it behind everything there was. */
  lemma NewLiveFile(cfg: Config, files: Files)
    requires Live !in files
    ensures Generations(files[Live := []], 1, cfg.Retain()) == ArchiveOf(cfg, files)
  {
    GenerationsFrame(files, files[Live := []], 1, cfg.Retain());
    assert Generations(files, 1, cfg.Retain()) + [] == Generations(files, 1, cfg.Retain());
  }

  ghost function LiveLines(files: Files): (lines: seq<Bytes>)
  {
    if Live in files then files[Live] else []
  }

  ghost predicate SameGenerations(before: Files, after: Files) {
    forall g: nat ::
      (Gen(g) in before <==> Gen(g) in after) && (Gen(g) in before ==> before[Gen(g)] == after[Gen(g)])
  }

  /** Nothing but the live file differs, and it only grew by the landed lines. */
  ghost predicate Grew(before: Files, after: Files, landed: seq<Bytes>) {
    && SameGenerations(before, after)
    && (Live in before || landed != [] ==> Live in after)
    && LiveLines(after) == LiveLines(before) + landed
  }

  // ---- appending one line ----

  lemma LinesOkSplit(lines: seq<Bytes>)
    requires LinesOk(lines)
    ensures SplitLines(Unlines(lines)) == lines && NonBlank(lines) == lines
  {
    assert forall i :: 0 <= i < |lines| ==> LineOk(lines[i]);
    SplitUnlines(lines);
    NonBlankIdentity(lines);
  }

  /** VerifyChain on the bytes of such a file reports on exactly these lines. */
  lemma ReportOnFile(c: Codec, mode: Mode, lines: seq<Bytes>)
    requires LinesOk(lines)
    ensures var report := ReportOf(c, mode, NonBlank(SplitLines(Unlines(lines))));
            && report == ReportOf(c, mode, lines)
            && (Accepted(c, mode, lines) <==> report.firstBadLine == 0)
            && (Accepted(c, mode, lines) <==> report.verified == report.totalLines)
  {
    LinesOkSplit(lines);
    AcceptedIffAllCounted(c, mode, lines);
  }

  /** The header the next line must carry to be accepted behind these lines. */
  function NextLink(c: Codec, lines: seq<Bytes>): (link: (int, Mac))
  {
    (PrevSeq(c, lines) + 1, if lines == [] then ZERO_MAC else c.Hmac(LastOf(lines)))
  }

  /** What a line for event e with header h says, and when it is good, if it lands behind these lines. */
  ghost predicate Lands(cfg: Config, lines: seq<Bytes>, h: Header, e: Event, line: Bytes) {
    && DecodeLine(cfg.c, [cfg.key], line) == Some(e)
    && (Verdict(cfg.c, cfg.mode, lines, line).None? <==> (h.seqNo, h.prevHmac) == NextLink(cfg.c, lines))
  }

  /** A landed line is good exactly when its header is the one the file asks for. */
  lemma RenderedLineLands(cfg: Config, lines: seq<Bytes>, nonce: Bytes, h: Header, e: Event)
    requires cfg.Valid() && |nonce| == NONCE_LEN
    ensures var line := Render(cfg.c, cfg.key, nonce, h, e);
            && LineOk(line)
            && cfg.c.Hmac(line).Hex?
            && NextLink(cfg.c, lines + [line]) == (h.seqNo + 1, cfg.c.Hmac(line))
            && Lands(cfg, lines, h, e, line)
  {
    RenderRoundTrip(cfg.c, cfg.key, nonce, h, e);
  }

  lemma AppendKeepsFilesOk(cfg: Config, files: Files, line: Bytes)
    requires FilesOk(cfg, files) && Live in files && LineOk(line)
    ensures var after := files[Live := files[Live] + [line]];
            FilesOk(cfg, after) && Grew(files, after, [line])
  {
  }

  lemma MoveKeepsFilesOk(cfg: Config, files: Files, from: Name, to: Name)
    requires FilesOk(cfg, files) && from in files && (to.Live? || 1 <= to.g <= cfg.Retain())
    ensures FilesOk(cfg, Moved(files, from, to))
  {
  }

  lemma LastLineOfFile(lines: seq<Bytes>)
    requires LinesOk(lines) && lines != []
    ensures Unlines(lines) != [] && TrimNewlines(LastLineSuffix(Unlines(lines))) == LastOf(lines)
  {
    LinesOkSplit(lines);
    LastLineIsLastNonBlank(Unlines(lines));
  }

  /** The last line's own header and MAC are all it takes to continue the chain. */
  lemma SeedFromLastLine(c: Codec, lines: seq<Bytes>)
    requires lines != [] && ParseHeader(c, LastOf(lines)).Ok?
    ensures NextLink(c, lines) == (ParseHeader(c, LastOf(lines)).value.seqNo + 1, c.Hmac(LastOf(lines)))
  {
  }

  // ---- links between files ----

  lemma LinkedDropOldest(cfg: Config, archive: seq<seq<Bytes>>)
    requires Linked(cfg, archive) && archive != []
    ensures Linked(cfg, archive[1..])
  {
  }

  lemma LinkedSnoc(cfg: Config, archive: seq<seq<Bytes>>, newest: seq<Bytes>)
    requires Linked(cfg, archive)
    requires archive != [] ==> LinksTo(cfg, LastFile(archive), newest)
    ensures Linked(cfg, archive + [newest])
  {
  }

  lemma LinkedWithoutNewest(cfg: Config, older: seq<seq<Bytes>>, newest: seq<Bytes>)
    requires Linked(cfg, older + [newest])
    ensures Linked(cfg, older)
    ensures older != [] ==> LinksTo(cfg, LastFile(older), newest)
  {
    var all := older + [newest];
    forall i | 0 < i < |older|
      ensures LinksTo(cfg, older[i - 1], older[i])
    {
      assert LinksTo(cfg, all[i - 1], all[i]);
    }
    if older != [] {
      assert LinksTo(cfg, all[|older| - 1], all[|older|]);
    }
  }

  /** Appending a line that is not itself a link keeps every link. */
  lemma LinkedAppend(cfg: Config, older: seq<seq<Bytes>>, newest: seq<Bytes>, line: Bytes)
    requires Linked(cfg, older + [newest])
    requires newest == [] && older != [] ==> LinksTo(cfg, LastFile(older), [line])
    ensures Linked(cfg, older + [newest + [line]])
  {
    LinkedWithoutNewest(cfg, older, newest);
    if newest == [] {
      assert newest + [line] == [line];
    } else {
      assert (newest + [line])[0] == newest[0];
    }
    LinkedSnoc(cfg, older, newest + [line]);
  }

  ghost function LastFile(archive: seq<seq<Bytes>>): (lines: seq<Bytes>)
    requires archive != []
  {
    archive[|archive| - 1]
  }

  /** The archive with one more line in its newest file. */
  ghost function Extended(archive: seq<seq<Bytes>>, line: Bytes): (r: seq<seq<Bytes>>)
    requires archive != []
  {
    archive[..|archive| - 1] + [LastFile(archive) + [line]]
  }

  ghost function WithoutOldest(archive: seq<seq<Bytes>>, dropped: bool): (r: seq<seq<Bytes>>)
    requires dropped ==> archive != []
  {
    if dropped then archive[1..] else archive
  }

  /**
   * What a rotation may do to the archive: nothing at all if its first sentinel did not land;
   * otherwise that sentinel ends the newest file, at most the oldest file goes, and at most one
   * new file follows, empty or holding just the second sentinel.
   */
  ghost predicate RotateShape(before: seq<seq<Bytes>>, after: seq<seq<Bytes>>, added: seq<Bytes>, dropped: bool) {
    if added == [] then after == before && !dropped
    else
      && before != [] && (dropped ==> |before| > 1)
      && var kept := WithoutOldest(Extended(before, added[0]), dropped);
         || (|added| == 1 && after == kept)
         || (|added| == 1 && after == kept + [[]])
         || (|added| == 2 && after == kept + [[added[1]]])
  }

  lemma RotateShapeKept(before: seq<seq<Bytes>>, first: seq<Bytes>, dropped: bool)
    requires before != [] && |first| == 1 && (dropped ==> |before| > 1)
    ensures RotateShape(before, WithoutOldest(Extended(before, first[0]), dropped), first, dropped)
  {
  }

  lemma RotateShapeNewFile(before: seq<seq<Bytes>>, first: seq<Bytes>, more: seq<Bytes>, dropped: bool)
    requires before != [] && |first| == 1 && |more| <= 1 && (dropped ==> |before| > 1)
    ensures RotateShape(before, WithoutOldest(Extended(before, first[0]), dropped) + [more], first + more, dropped)
  {
    assert more == if more == [] then [] else [more[0]];
    assert (first + more)[0] == first[0];
  }

  lemma GrewExtends(cfg: Config, before: Files, after: Files, line: Bytes)
    requires Grew(before, after, [line]) && Live in before
    ensures ArchiveOf(cfg, before) != [] && ArchiveOf(cfg, after) == Extended(ArchiveOf(cfg, before), line)
  {
    GenerationsFrame(before, after, 1, cfg.Retain());
  }

  lemma ExtendedFlatten(archive: seq<seq<Bytes>>, line: Bytes)
    requires archive != []
    ensures Flatten(Extended(archive, line)) == Flatten(archive) + [line]
  {
    var older, newest := archive[..|archive| - 1], LastFile(archive);
    assert archive == older + [newest];
    FlattenAppend(older, [newest]);
    FlattenAppend(older, [newest + [line]]);
    FlattenOne(newest);
    FlattenOne(newest + [line]);
  }

  /** The file a rotation drops. */
  ghost function DroppedFile(archive: seq<seq<Bytes>>, dropped: bool): (files: seq<seq<Bytes>>)
    requires dropped ==> archive != []
  {
    if dropped then [archive[0]] else []
  }

  /** With the dropped file put back in front, a rotation has only extended the newest file and added one. */
  lemma RotateParts(before: seq<seq<Bytes>>, after: seq<seq<Bytes>>, added: seq<Bytes>, dropped: bool)
    requires RotateShape(before, after, added, dropped) && added != []
    ensures before != [] && 1 <= |added| <= 2
    ensures var files := DroppedFile(before, dropped) + after;
            || (files == Extended(before, added[0]) && |added| == 1)
            || files == Extended(before, added[0]) + [added[1..]]
  {
    var extended := Extended(before, added[0]);
    var kept := WithoutOldest(extended, dropped);
    assert DroppedFile(before, dropped) + kept == extended;
    assert added[1..] == if |added| == 1 then [] else [added[1]];
    if after != kept {
      assert DroppedFile(before, dropped) + (kept + [added[1..]]) == extended + [added[1..]];
    }
  }

  lemma ExtendedThenFlatten(archive: seq<seq<Bytes>>, line: Bytes, more: seq<Bytes>)
    requires archive != []
    ensures Flatten(Extended(archive, line) + [more]) == Flatten(archive) + ([line] + more)
  {
    ExtendedFlatten(archive, line);
    FlattenAppend(Extended(archive, line), [more]);
    FlattenOne(more);
    ConcatAssoc(Flatten(archive), [line], more);
  }

  lemma ConcatAssoc<T>(a: seq<T>, b: seq<T>, c: seq<T>)
    ensures a + (b + c) == a + b + c
  {
  }

  /** A rotation loses no line but those of the dropped oldest file, and adds only its sentinels at the end. */
  lemma RotateConserves(before: seq<seq<Bytes>>, after: seq<seq<Bytes>>, added: seq<Bytes>, dropped: bool)
    requires RotateShape(before, after, added, dropped)
    ensures dropped ==> before != []
    ensures Flatten(before) + added == Flatten(DroppedFile(before, dropped) + after)
  {
    if added == [] {
      assert Flatten(before) + [] == Flatten(before) && [] + after == after;
    } else {
      RotateParts(before, after, added, dropped);
      assert added == [added[0]] + added[1..];
      if DroppedFile(before, dropped) + after == Extended(before, added[0]) {
        ExtendedFlatten(before, added[0]);
      } else {
        ExtendedThenFlatten(before, added[0], added[1..]);
      }
    }
  }

  lemma ExtendedLinked(cfg: Config, archive: seq<seq<Bytes>>, line: Bytes)
    requires archive != [] && Linked(cfg, archive)
    requires OpeningHmac(cfg.c, cfg.key, [line]).None?
    ensures Linked(cfg, Extended(archive, line))
  {
  }

  /** A rotation keeps the files linked, provided its second sentinel carries the MAC of its first. */
  lemma RotateLinks(cfg: Config, before: seq<seq<Bytes>>, after: seq<seq<Bytes>>, added: seq<Bytes>, dropped: bool)
    requires RotateShape(before, after, added, dropped) && Linked(cfg, before)
    requires added != [] ==> OpeningHmac(cfg.c, cfg.key, [added[0]]).None?
    requires |added| == 2 ==> OpeningHmac(cfg.c, cfg.key, [added[1]]) == Some(cfg.c.Hmac(added[0]))
    ensures Linked(cfg, after)
  {
    if added != [] {
      ExtendedLinked(cfg, before, added[0]);
      var extended := Extended(before, added[0]);
      if dropped {
        LinkedDropOldest(cfg, extended);
      }
      var kept := WithoutOldest(extended, dropped);
      assert LastOf(LastFile(kept)) == added[0];
      if after != kept {
        LinkedSnoc(cfg, kept, added[1..]);
      }
    }
  }
}
