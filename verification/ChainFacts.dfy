// What acceptance by VerifyChain means for whole files: a shared last line fixes
// the file, and what verification says about a file some lines were removed from.
module ChainFacts {
  import opened Basics
  import opened Lines
  import opened ChainFormat
  import opened Chain

  lemma AcceptedPrefix(c: Codec, mode: Mode, lines: seq<Bytes>, n: nat)
    requires Accepted(c, mode, lines) && n <= |lines|
    ensures Accepted(c, mode, lines[..n])
  {
    forall k | 0 <= k < n
      ensures VerdictAt(c, mode, lines[..n], k).None?
    {
      assert VerdictAt(c, mode, lines, k).None?;
      assert lines[..n][..k] == lines[..k];
    }
  }

  lemma AcceptedSnoc(c: Codec, mode: Mode, lines: seq<Bytes>, line: Bytes)
    ensures Accepted(c, mode, lines + [line]) <==> Accepted(c, mode, lines) && Verdict(c, mode, lines, line).None?
  {
    var all := lines + [line];
    assert all[..|lines|] == lines;
    if Accepted(c, mode, all) {
      AcceptedPrefix(c, mode, all, |lines|);
      assert VerdictAt(c, mode, all, |lines|).None?;
    }
    if Accepted(c, mode, lines) {
      forall k | 0 <= k < |lines|
        ensures VerdictAt(c, mode, all, k).None?
      {
        VerdictInPrefix(c, mode, lines, [line], k);
        assert VerdictAt(c, mode, lines, k).None?;
      }
    }
  }

  ghost predicate MacInjectiveOn(c: Codec, a: seq<Bytes>, b: seq<Bytes>) {
    forall i, j :: 0 <= i < |a| && 0 <= j < |b| && c.Hmac(a[i]) == c.Hmac(b[j]) ==> a[i] == b[j]
  }

  /**
   * Two accepted files with the same last line are the same file: its sequence number fixes
   * the length, and the MAC links fix every earlier line.
   */
  lemma {:induction false} SameLastLineSameChain(c: Codec, modeA: Mode, a: seq<Bytes>, modeB: Mode, b: seq<Bytes>)
    requires Accepted(c, modeA, a) && Accepted(c, modeB, b)
    requires a != [] && b != [] && LastOf(a) == LastOf(b)
    requires MacInjectiveOn(c, a, b)
    ensures a == b
    decreases |a|
  {
    var n := |a| - 1;
    AcceptedHeaders(c, modeA, a, n);
    AcceptedHeaders(c, modeB, b, |b| - 1);
    assert |b| == |a|;
    assert a == a[..n] + [a[n]] && b == b[..n] + [b[n]];
    if n > 0 {
      assert c.Hmac(a[n - 1]) == c.Hmac(b[n - 1]);
      AcceptedPrefix(c, modeA, a, n);
      AcceptedPrefix(c, modeB, b, n);
      SameLastLineSameChain(c, modeA, a[..n], modeB, b[..n]);
    }
  }

  /** Line numbers of a file, in any order and with repetitions. */
  predicate Positions(order: seq<nat>, size: nat) {
    forall j :: 0 <= j < |order| ==> order[j] < size
  }

  /** Line numbers in increasing order, so that lines are only removed. */
  predicate IsSelection(keep: seq<nat>, size: nat) {
    && Positions(keep, size)
    && (forall i, j :: 0 <= i < j < |keep| ==> keep[i] < keep[j])
  }

  /** The lines at these positions. */
  function Select(lines: seq<Bytes>, keep: seq<nat>): (kept: seq<Bytes>)
    requires Positions(keep, |lines|)
  {
    seq(|keep|, j requires 0 <= j < |keep| => lines[keep[j]])
  }

  /** Does kept line j still stand right behind the line it was written after? */
  predicate StillLinked(keep: seq<nat>, j: nat)
    requires j < |keep|
  {
    if j == 0 then keep[0] == 0 else keep[j] == keep[j - 1] + 1
  }

  function CountLinked(keep: seq<nat>): (n: nat)
  {
    if keep == [] then 0
    else CountLinked(keep[..|keep| - 1]) + if StillLinked(keep, |keep| - 1) then 1 else 0
  }

  /**
   * The verdict on one line of a rearrangement: good exactly when its original predecessor stands in front of it,
   * and otherwise a gap in the sequence numbers, or a first line that is not number 1.
   */
  lemma SelectionVerdict(c: Codec, mode: Mode, lines: seq<Bytes>, keep: seq<nat>)
    requires Accepted(c, mode, lines) && Positions(keep, |lines|) && keep != []
    ensures var j := |keep| - 1;
            Verdict(c, mode, Select(lines, keep[..j]), lines[keep[j]]) ==
            if StillLinked(keep, j) then None else if j == 0 then Some(FirstSeqNotOne) else Some(SeqGap)
  {
    var j := |keep| - 1;
    AcceptedHeaders(c, mode, lines, keep[j]);
    assert VerdictAt(c, mode, lines, keep[j]).None?;
    if j > 0 {
      AcceptedHeaders(c, mode, lines, keep[j - 1]);
      var prior := Select(lines, keep[..j]);
      assert prior[|prior| - 1] == lines[keep[j - 1]];
    }
  }

  /**
   * On lines of an accepted chain, removed, repeated or reordered, the Verified count is the number of those that
   * stand right behind their original predecessor (or that are line 1 and stand first).
   */
  lemma {:induction false} SelectionVerified(c: Codec, mode: Mode, lines: seq<Bytes>, keep: seq<nat>)
    requires Accepted(c, mode, lines) && Positions(keep, |lines|)
    ensures ReportOf(c, mode, Select(lines, keep)).verified == CountLinked(keep)
  {
    if keep != [] {
      var j := |keep| - 1;
      SelectionVerified(c, mode, lines, keep[..j]);
      SelectionVerdict(c, mode, lines, keep);
      assert Select(lines, keep) == Select(lines, keep[..j]) + [lines[keep[j]]];
      ReportSnoc(c, mode, Select(lines, keep[..j]), lines[keep[j]]);
    }
  }

  lemma {:induction false} CountLinkedFull(keep: seq<nat>)
    ensures CountLinked(keep) <= |keep|
    ensures CountLinked(keep) == |keep| <==> forall j :: 0 <= j < |keep| ==> keep[j] == j
  {
    if keep != [] {
      var n := |keep| - 1;
      CountLinkedFull(keep[..n]);
      assert forall j :: 0 <= j < n ==> keep[..n][j] == keep[j];
      if CountLinked(keep) == |keep| && n > 0 {
        assert keep[..n][n - 1] == n - 1;
      }
    }
  }

  /** Removing, repeating or reordering lines leaves an acceptable file exactly when only a tail was removed. */
  lemma SelectionAcceptedIffPrefix(c: Codec, mode: Mode, lines: seq<Bytes>, keep: seq<nat>)
    requires Accepted(c, mode, lines) && Positions(keep, |lines|)
    ensures Accepted(c, mode, Select(lines, keep)) <==> forall j :: 0 <= j < |keep| ==> keep[j] == j
  {
    SelectionVerified(c, mode, lines, keep);
    CountLinkedFull(keep);
    AcceptedIffAllCounted(c, mode, Select(lines, keep));
  }

  /** Line j is the first that is not where it was. */
  predicate FirstMoved(order: seq<nat>, j: nat) {
    j < |order| && order[j] != j && forall i :: 0 <= i < j ==> order[i] == i
  }

  lemma FirstBadIs(c: Codec, mode: Mode, lines: seq<Bytes>, j: nat)
    requires j < |lines| && VerdictAt(c, mode, lines, j).Some?
    requires forall i :: 0 <= i < j ==> VerdictAt(c, mode, lines, i).None?
    ensures FirstBad(c, mode, lines) == j + 1
  {
  }

  /** Any rearrangement is reported at the first line that is out of place, whatever follows it. */
  lemma RearrangementReported(c: Codec, mode: Mode, lines: seq<Bytes>, order: seq<nat>, j: nat)
    requires Accepted(c, mode, lines) && Positions(order, |lines|) && FirstMoved(order, j)
    ensures var report := ReportOf(c, mode, Select(lines, order));
            && report.firstBadLine == j + 1
            && report.firstBadReason == Some(if j == 0 then FirstSeqNotOne else SeqGap)
  {
    var moved := Select(lines, order);
    forall i | 0 <= i <= j
      ensures VerdictAt(c, mode, moved, i) ==
              if i < j then None else if j == 0 then Some(FirstSeqNotOne) else Some(SeqGap)
    {
      SelectionVerdict(c, mode, lines, order[..i + 1]);
      assert order[..i + 1][..i] == order[..i];
      assert moved[..i] == Select(lines, order[..i]);
      assert StillLinked(order[..i + 1], i) <==> i < j;
    }
    FirstBadIs(c, mode, moved, j);
  }

  /**
   * Replacing one line of an accepted file by one with another MAC is reported at that line, or, if it was made to
   * fit behind the line before, as a broken link at the next. Only the last line can be replaced unnoticed.
   */
  lemma AlterationReported(c: Codec, mode: Mode, lines: seq<Bytes>, k: nat, line: Bytes)
    requires Accepted(c, mode, lines) && k + 1 < |lines| && c.Hmac(line) != c.Hmac(lines[k])
    ensures var report := ReportOf(c, mode, lines[k := line]);
            if Verdict(c, mode, lines[..k], line).Some? then report.firstBadLine == k + 1
            else report.firstBadLine == k + 2 && report.firstBadReason == Some(HmacMismatch)
  {
    var altered := lines[k := line];
    forall i | 0 <= i < k ensures VerdictAt(c, mode, altered, i).None? {
      assert altered[..i] == lines[..i];
      assert VerdictAt(c, mode, lines, i).None?;
    }
    assert altered[..k] == lines[..k];
    AcceptedHeaders(c, mode, lines, k + 1);
    assert VerdictAt(c, mode, altered, k) == Verdict(c, mode, lines[..k], line);
    if Verdict(c, mode, lines[..k], line).None? {
      assert altered[..k + 1][k] == line && altered[..k + 1][..k] == lines[..k];
      if k > 0 {
        AcceptedHeaders(c, mode, lines, k - 1);
        assert lines[..k][k - 1] == lines[k - 1];
      }
      assert VerdictAt(c, mode, altered, k + 1) == Some(HmacMismatch);
    }
  }

  /** Each of these lines is good where it stands behind the base. */
  ghost predicate GoodExtension(c: Codec, mode: Mode, base: seq<Bytes>, more: seq<Bytes>) {
    more == [] ||
    (var n := |more| - 1;
     GoodExtension(c, mode, base, more[..n]) && Verdict(c, mode, base + more[..n], more[n]).None?)
  }

  lemma LastApart<T>(base: seq<T>, more: seq<T>)
    requires more != []
    ensures base + more == base + more[..|more| - 1] + [more[|more| - 1]]
  {
  }

  lemma CountGoodSnoc(c: Codec, mode: Mode, lines: seq<Bytes>, line: Bytes)
    ensures CountGood(c, mode, lines + [line]) ==
            CountGood(c, mode, lines) + if Verdict(c, mode, lines, line).None? then 1 else 0
  {
  }

  /** Lines that are good where they stand add themselves to the Verified count, whatever the base is like. */
  lemma {:induction false} ExtensionVerified(c: Codec, mode: Mode, base: seq<Bytes>, more: seq<Bytes>)
    requires GoodExtension(c, mode, base, more)
    ensures CountGood(c, mode, base + more) == CountGood(c, mode, base) + |more|
  {
    if more == [] {
      assert base + more == base;
    } else {
      var n := |more| - 1;
      ExtensionVerified(c, mode, base, more[..n]);
      CountGoodSnoc(c, mode, base + more[..n], more[n]);
      LastApart(base, more);
    }
  }

  /**
   * Pruning, then logging in sync: what is verified is the still-linked part of what was kept and
   * every line logged since. With nothing kept, the new lines are an accepted chain of their own.
   */
  lemma PruneThenLog(c: Codec, mode: Mode, lines: seq<Bytes>, keep: seq<nat>, more: seq<Bytes>)
    requires Accepted(c, mode, lines) && IsSelection(keep, |lines|)
    requires GoodExtension(c, mode, Select(lines, keep), more)
    ensures ReportOf(c, mode, Select(lines, keep) + more).verified == CountLinked(keep) + |more|
    ensures keep == [] ==> Accepted(c, mode, more)
  {
    var base := Select(lines, keep);
    SelectionVerified(c, mode, lines, keep);
    ExtensionVerified(c, mode, base, more);
    if keep == [] {
      assert base + more == more;
      AcceptedIffAllCounted(c, mode, more);
    }
  }
}
