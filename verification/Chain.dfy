// VerifyChain (internal/audit/chain.go), in header-only and full mode: the verdict on each line, the report,
// and what an accepted chain guarantees.
module Chain {
  import opened Basics
  import opened Lines
  import opened ChainFormat

  /** None: header-only mode. Some(keys): full mode with the current and the older keys. */
  type Mode = Option<seq<Key>>

  /** The sequence number of the latest line before this point whose header parsed, 0 if none did. */
  function PrevSeq(c: Codec, prior: seq<Bytes>): (n: int)
  {
    if prior == [] then 0
    else match ParseHeader(c, prior[|prior| - 1])
      case Ok(h) => h.seqNo
      case Err(_) => PrevSeq(c, prior[..|prior| - 1])
  }

  /** Why a line that follows `prior` is bad, or None when it is good. */
  function Verdict(c: Codec, mode: Mode, prior: seq<Bytes>, line: Bytes): (v: Option<Reason>)
  {
    match ParseHeader(c, line)
    case Err(e) => Some(e)
    case Ok(h) =>
      if prior == [] && h.seqNo != 1 then Some(FirstSeqNotOne)
      else if prior == [] && h.prevHmac != ZERO_MAC then Some(FirstPrevNotZero)
      else if prior != [] && h.seqNo != PrevSeq(c, prior) + 1 then Some(SeqGap)
      else if prior != [] && h.prevHmac != c.Hmac(prior[|prior| - 1]) then Some(HmacMismatch)
      else if mode.Some? && OpenBody(c, mode.value, line).Err? then Some(OpenBody(c, mode.value, line).error)
      else None
  }

  function VerdictAt(c: Codec, mode: Mode, lines: seq<Bytes>, k: nat): (v: Option<Reason>)
    requires k < |lines|
  {
    Verdict(c, mode, lines[..k], lines[k])
  }

  ghost predicate Accepted(c: Codec, mode: Mode, lines: seq<Bytes>) {
    forall k :: 0 <= k < |lines| ==> VerdictAt(c, mode, lines, k).None?
  }

  /** How many lines are good. */
  function CountGood(c: Codec, mode: Mode, lines: seq<Bytes>): (n: nat)
    ensures n <= |lines|
  {
    if lines == [] then 0
    else
      var k := |lines| - 1;
      CountGood(c, mode, lines[..k]) + if VerdictAt(c, mode, lines, k).None? then 1 else 0
  }

  /** 1-based number of the first bad line, 0 if there is none. */
  function FirstBad(c: Codec, mode: Mode, lines: seq<Bytes>): (n: nat)
    ensures n <= |lines|
    ensures n == 0 ==> forall k :: 0 <= k < |lines| ==> VerdictAt(c, mode, lines, k).None?
    ensures n > 0 ==> VerdictAt(c, mode, lines, n - 1).Some?
    ensures n > 0 ==> forall k :: 0 <= k < n - 1 ==> VerdictAt(c, mode, lines, k).None?
  {
    if lines == [] then 0
    else
      var last := |lines| - 1;
      var n := FirstBad(c, mode, lines[..last]);
      assert forall k :: 0 <= k < last ==> lines[..last][..k] == lines[..k];
      assert forall k :: 0 <= k < last ==> VerdictAt(c, mode, lines[..last], k) == VerdictAt(c, mode, lines, k);
      if n != 0 then n
      else if VerdictAt(c, mode, lines, last).Some? then |lines|
      else 0
  }

  datatype Report = Report(totalLines: nat, verified: nat, firstBadLine: nat, firstBadReason: Option<Reason>)

  function ReportOf(c: Codec, mode: Mode, lines: seq<Bytes>): (r: Report)
  {
    var bad := FirstBad(c, mode, lines);
    Report(|lines|, CountGood(c, mode, lines), bad,
           if bad == 0 then None else VerdictAt(c, mode, lines, bad - 1))
  }

  /** The report after one more line with this verdict. */
  function Tally(r: Report, v: Option<Reason>): (t: Report)
  {
    Report(r.totalLines + 1,
           r.verified + (if v.None? then 1 else 0),
           if r.firstBadLine != 0 then r.firstBadLine else if v.Some? then r.totalLines + 1 else 0,
           if r.firstBadLine != 0 then r.firstBadReason else v)
  }

  lemma VerdictInPrefix(c: Codec, mode: Mode, lines: seq<Bytes>, more: seq<Bytes>, k: nat)
    requires k < |lines|
    ensures VerdictAt(c, mode, lines + more, k) == VerdictAt(c, mode, lines, k)
  {
    assert (lines + more)[..k] == lines[..k];
  }

  /** Appending one line keeps every earlier verdict and adds exactly its own. */
  lemma ReportSnoc(c: Codec, mode: Mode, lines: seq<Bytes>, line: Bytes)
    ensures ReportOf(c, mode, lines + [line]) == Tally(ReportOf(c, mode, lines), Verdict(c, mode, lines, line))
  {
    var all := lines + [line];
    assert all[..|lines|] == lines;
    if FirstBad(c, mode, lines) != 0 {
      VerdictInPrefix(c, mode, lines, [line], FirstBad(c, mode, lines) - 1);
    }
  }

  /** Every line good, every line counted and no line reported bad are one and the same. */
  lemma {:induction false} AcceptedIffAllCounted(c: Codec, mode: Mode, lines: seq<Bytes>)
    ensures Accepted(c, mode, lines) <==> ReportOf(c, mode, lines).firstBadLine == 0
    ensures Accepted(c, mode, lines) <==> ReportOf(c, mode, lines).verified == |lines|
  {
    if lines != [] {
      var last := |lines| - 1;
      AcceptedIffAllCounted(c, mode, lines[..last]);
      assert forall k :: 0 <= k < last ==> lines[..last][..k] == lines[..k];
      assert forall k :: 0 <= k < last ==> VerdictAt(c, mode, lines[..last], k) == VerdictAt(c, mode, lines, k);
    }
  }

  /** In an accepted chain line k has sequence number k + 1 and names its predecessor's MAC. */
  lemma {:induction false} AcceptedHeaders(c: Codec, mode: Mode, lines: seq<Bytes>, k: nat)
    requires Accepted(c, mode, lines) && k < |lines|
    ensures ParseHeader(c, lines[k]).Ok?
    ensures ParseHeader(c, lines[k]).value.seqNo == k + 1
    ensures ParseHeader(c, lines[k]).value.prevHmac == if k == 0 then ZERO_MAC else c.Hmac(lines[k - 1])
  {
    assert VerdictAt(c, mode, lines, k).None?;
    if k > 0 {
      AcceptedHeaders(c, mode, lines, k - 1);
      assert lines[..k][k - 1] == lines[k - 1];
    }
  }

  // ---- what the verdicts mean ----

  /** Line k says that it is number k + 1 and names the MAC of the line before it, or 32 zeros if it is the first. */
  ghost predicate Placed(c: Codec, lines: seq<Bytes>, k: nat)
    requires k < |lines|
  {
    var i := FirstSpace(lines[k]);
    && i < |lines[k]| && c.Unb64(lines[k][..i]).Some?
    && var h := c.Unmarshal(c.Unb64(lines[k][..i]).value);
       && h.Some? && h.value.seqNo == k + 1
       && h.value.prevHmac == if k == 0 then Hex("00000000000000000000000000000000") else c.Hmac(lines[k - 1])
  }

  /** The line is in its place and, in full mode, opens under one of the keys. */
  ghost predicate InPlace(c: Codec, mode: Mode, lines: seq<Bytes>, k: nat)
    requires k < |lines|
  {
    Placed(c, lines, k) && (mode.Some? ==> Authentic(c, mode.value, lines[k]))
  }

  ghost predicate Genuine(c: Codec, mode: Mode, lines: seq<Bytes>) {
    forall k :: 0 <= k < |lines| ==> InPlace(c, mode, lines, k)
  }

  /** Full mode asks one thing more of a line than header-only mode: that its body opens. */
  lemma FullModeVerdict(c: Codec, keys: seq<Key>, prior: seq<Bytes>, line: Bytes)
    ensures Verdict(c, None, prior, line).Some? ==> Verdict(c, Some(keys), prior, line) == Verdict(c, None, prior, line)
    ensures Verdict(c, Some(keys), prior, line).None? <==>
              Verdict(c, None, prior, line).None? && Authentic(c, keys, line)
    ensures Verdict(c, None, prior, line).None? && !Authentic(c, keys, line) ==>
              var sealed := c.Unb64(line[FirstSpace(line) + 1..]);
              Verdict(c, Some(keys), prior, line) ==
              Some(if sealed.None? || |sealed.value| < 24 then BodyNotBase64 else BodyNotAuthentic)
  {
  }

  /** Why a line's header cannot be read. */
  lemma UnreadableHeader(c: Codec, mode: Mode, prior: seq<Bytes>, line: Bytes)
    ensures Verdict(c, mode, prior, line) == Some(NoSeparator) <==> SPACE !in line
    ensures Verdict(c, mode, prior, line) == Some(HeaderNotBase64) <==>
              SPACE in line && c.Unb64(line[..FirstSpace(line)]).None?
    ensures Verdict(c, mode, prior, line) == Some(HeaderNotJson) <==>
              && SPACE in line && c.Unb64(line[..FirstSpace(line)]).Some?
              && c.Unmarshal(c.Unb64(line[..FirstSpace(line)]).value).None?
  {
    if SPACE in line {
      var k :| 0 <= k < |line| && line[k] == SPACE;
      assert FirstSpace(line) <= k;
    }
  }

  lemma AcceptedInPlace(c: Codec, mode: Mode, lines: seq<Bytes>, k: nat)
    requires Accepted(c, mode, lines) && k < |lines|
    ensures InPlace(c, mode, lines, k)
  {
    AcceptedHeaders(c, mode, lines, k);
    assert VerdictAt(c, mode, lines, k).None?;
    if mode.Some? {
      FullModeVerdict(c, mode.value, lines[..k], lines[k]);
    }
  }

  lemma InPlaceIsGood(c: Codec, mode: Mode, lines: seq<Bytes>, k: nat)
    requires k < |lines| && InPlace(c, mode, lines, k) && (k > 0 ==> InPlace(c, mode, lines, k - 1))
    ensures VerdictAt(c, mode, lines, k).None?
  {
    if k > 0 {
      assert lines[..k][k - 1] == lines[k - 1];
    }
    if mode.Some? {
      FullModeVerdict(c, mode.value, lines[..k], lines[k]);
    }
  }

  /** A file is accepted exactly when every line is where it says it is and, in full mode, opens. */
  lemma AcceptedIffGenuine(c: Codec, mode: Mode, lines: seq<Bytes>)
    ensures Accepted(c, mode, lines) <==> Genuine(c, mode, lines)
  {
    if Accepted(c, mode, lines) {
      forall k | 0 <= k < |lines| ensures InPlace(c, mode, lines, k) {
        AcceptedInPlace(c, mode, lines, k);
      }
    }
    if Genuine(c, mode, lines) {
      forall k | 0 <= k < |lines| ensures VerdictAt(c, mode, lines, k).None? {
        assert k > 0 ==> InPlace(c, mode, lines, k - 1);
        InPlaceIsGood(c, mode, lines, k);
      }
    }
  }

  /** The good lines: those good by their headers and, in full mode, authentic. */
  ghost function GoodLines(c: Codec, mode: Mode, lines: seq<Bytes>): (good: set<nat>)
  {
    set k: nat | k < |lines| && VerdictAt(c, None, lines, k).None? && (mode.Some? ==> Authentic(c, mode.value, lines[k]))
  }

  lemma GoodLinesSnoc(c: Codec, mode: Mode, lines: seq<Bytes>)
    requires lines != []
    ensures var n := |lines| - 1;
            GoodLines(c, mode, lines) ==
            GoodLines(c, mode, lines[..n]) + if VerdictAt(c, mode, lines, n).None? then {n} else {}
  {
    var n := |lines| - 1;
    var front := lines[..n];
    forall k: nat | k < n
      ensures VerdictAt(c, None, front, k) == VerdictAt(c, None, lines, k) && front[k] == lines[k]
    {
      assert front[..k] == lines[..k];
    }
    if mode.Some? {
      FullModeVerdict(c, mode.value, front, lines[n]);
    }
  }

  lemma {:induction false} VerifiedIsCount(c: Codec, mode: Mode, lines: seq<Bytes>)
    ensures CountGood(c, mode, lines) == |GoodLines(c, mode, lines)|
  {
    if lines != [] {
      var n := |lines| - 1;
      VerifiedIsCount(c, mode, lines[..n]);
      GoodLinesSnoc(c, mode, lines);
      assert n !in GoodLines(c, mode, lines[..n]);
    }
  }

  /** The body of VerifyChain's loop: the checks on one line, given the running chain state. */
  method CheckLine(c: Codec, mode: Mode, lineNum: nat, prevSeq: int, prevComputedHmac: Mac, line: Bytes,
                   ghost seen: seq<Bytes>)
    returns (bad: Option<Reason>, nextSeq: int)
    requires lineNum == |seen| + 1 && prevSeq == PrevSeq(c, seen)
    requires seen != [] ==> prevComputedHmac == c.Hmac(LastOf(seen))
    ensures bad == Verdict(c, mode, seen, line)
    ensures nextSeq == PrevSeq(c, seen + [line])
  {
    assert (seen + [line])[..|seen|] == seen;
    bad, nextSeq := None, prevSeq;
    match ParseHeader(c, line) {
      case Err(reason) =>
        bad := Some(reason);
      case Ok(hdr) =>
        if lineNum == 1 {
          if hdr.seqNo != 1 {
            bad := Some(FirstSeqNotOne);
          } else if hdr.prevHmac != ZERO_MAC {
            bad := Some(FirstPrevNotZero);
          }
        } else if hdr.seqNo != prevSeq + 1 {
          bad := Some(SeqGap);
        } else if hdr.prevHmac != prevComputedHmac {
          bad := Some(HmacMismatch);
        }
        if bad.None? && mode.Some? {
          match OpenBody(c, mode.value, line) {
            case Err(reason) => bad := Some(reason);
            case Ok(_) =>
          }
        }
        nextSeq := hdr.seqNo;
    }
  }

  /** VerifyChain on whatever the reader of the file delivers. */
  method VerifyChain(c: Codec, mode: Mode, chunks: seq<Bytes>, errWithLast: bool) returns (report: Report)
    ensures report == ReportOf(c, mode, NonBlank(SplitLines(Flatten(chunks))))
    // Nothing is wrong exactly when every line is in its place and, in full mode, opens; the rest are counted out.
    ensures report.firstBadLine == 0 <==> Genuine(c, mode, NonBlank(SplitLines(Flatten(chunks))))
    ensures report.verified == |GoodLines(c, mode, NonBlank(SplitLines(Flatten(chunks))))|
  {
    report := Report(0, 0, 0, None);
    var prevComputedHmac: Mac, prevSeq, lineNum := Unset, 0, 0;
    var lines := ScanAll(chunks, errWithLast);
    for i := 0 to |lines|
      invariant lineNum == |NonBlank(lines[..i])|
      invariant report == ReportOf(c, mode, NonBlank(lines[..i]))
      invariant prevSeq == PrevSeq(c, NonBlank(lines[..i]))
      invariant lineNum > 0 ==> prevComputedHmac == c.Hmac(LastOf(NonBlank(lines[..i])))
    {
      ghost var seen := NonBlank(lines[..i]);
      NonBlankSnoc(lines, i);
      var line := lines[i];
      if line == [] {
        continue;
      }
      lineNum := lineNum + 1;
      var bad;
      bad, prevSeq := CheckLine(c, mode, lineNum, prevSeq, prevComputedHmac, line, seen);
      prevComputedHmac := c.Hmac(line);
      ReportSnoc(c, mode, seen, line);
      report := Tally(report, bad);
    }
    assert lines[..|lines|] == lines;
    AcceptedIffAllCounted(c, mode, NonBlank(lines));
    AcceptedIffGenuine(c, mode, NonBlank(lines));
    VerifiedIsCount(c, mode, NonBlank(lines));
  }
}
