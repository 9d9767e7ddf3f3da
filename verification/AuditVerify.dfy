// auditverify.Verify (internal/auditverify/verify.go): the standalone verifier, and
// its agreement with header-only VerifyChain.
module AuditVerify {
  import opened Basics
  import opened Lines
  import opened ChainFormat
  import opened Chain
  import opened ChainFacts

  datatype ChainError = ChainDeleted | ChainTruncated | ChainReordered | ChainCorrupted

  /** bufio.MaxScanTokenSize: a line this long, without its newline, stops the scanner with an error. */
  const MAX_TOKEN: nat := 65536

  /** bufio.ScanLines drops one trailing carriage return. */
  function DropCR(line: Bytes): (token: Bytes)
    ensures token == line || token + [13 as byte] == line
    ensures token == line ==> line == [] || line[|line| - 1] != 13 as byte
  {
    if line != [] && line[|line| - 1] == CARRIAGE_RETURN then line[..|line| - 1] else line
  }

  function DropCRs(lines: seq<Bytes>): (tokens: seq<Bytes>)
    ensures |tokens| == |lines|
    ensures forall i :: 0 <= i < |lines| ==> tokens[i] == DropCR(lines[i])
  {
    seq(|lines|, i requires 0 <= i < |lines| => DropCR(lines[i]))
  }

  /** How many lines bufio.Scanner delivers before one that is too long. */
  function Readable(lines: seq<Bytes>): (n: nat)
    ensures n <= |lines|
    ensures forall i :: 0 <= i < n ==> |lines[i]| < MAX_TOKEN
    ensures n < |lines| ==> |lines[n]| >= MAX_TOKEN
  {
    if lines == [] || |lines[0]| >= MAX_TOKEN then 0 else 1 + Readable(lines[1..])
  }

  /** The non-blank lines Verify looks at. */
  function Tokens(data: Bytes): (tokens: seq<Bytes>)
  {
    var raw := SplitLines(data);
    NonBlank(DropCRs(raw[..Readable(raw)]))
  }

  /** The sentinel error for a bad line: a sequence number that does not advance, one that skips, or a broken link. */
  function Sentinel(c: Codec, prior: seq<Bytes>, line: Bytes): (e: ChainError)
  {
    match ParseHeader(c, line)
    case Err(_) => ChainTruncated
    case Ok(h) =>
      if prior == [] then ChainCorrupted
      else if h.seqNo <= PrevSeq(c, prior) then ChainReordered
      else if h.seqNo > PrevSeq(c, prior) + 1 then ChainDeleted
      else ChainCorrupted
  }

  /** The sentinel of the first bad line, if any. */
  function FirstSentinel(c: Codec, tokens: seq<Bytes>): (e: Option<ChainError>)
  {
    var bad := FirstBad(c, None, tokens);
    if bad == 0 then None else Some(Sentinel(c, tokens[..bad - 1], tokens[bad - 1]))
  }

  /** The outcome Verify is to have: the first bad line's sentinel, else truncation if a line cannot be read. */
  function Expected(c: Codec, data: Bytes): (e: Option<ChainError>)
  {
    var first := FirstSentinel(c, Tokens(data));
    if first.Some? then first
    else if Readable(SplitLines(data)) < |SplitLines(data)| then Some(ChainTruncated)
    else None
  }

  /** The body of Verify's loop. */
  method CheckToken(c: Codec, lineNum: nat, prevSeq: int, prevComputedHmac: Mac, line: Bytes, ghost seen: seq<Bytes>)
    returns (r: Result<int, ChainError>)
    requires lineNum == |seen| + 1 && prevSeq == PrevSeq(c, seen)
    requires seen != [] ==> prevComputedHmac == c.Hmac(LastOf(seen))
    ensures r.Ok? <==> Verdict(c, None, seen, line).None?
    ensures r.Ok? ==> r.value == PrevSeq(c, seen + [line])
    ensures r.Err? ==> r.error == Sentinel(c, seen, line)
  {
    assert (seen + [line])[..|seen|] == seen;
    match ParseHeader(c, line) {
      case Err(_) => return Err(ChainTruncated);
      case Ok(hdr) =>
        if lineNum == 1 {
          if hdr.seqNo != 1 {
            return Err(ChainCorrupted);
          }
          if hdr.prevHmac != ZERO_MAC {
            return Err(ChainCorrupted);
          }
        } else if hdr.seqNo < prevSeq {
          return Err(ChainReordered);
        } else if hdr.seqNo == prevSeq {
          return Err(ChainReordered);
        } else if hdr.seqNo > prevSeq + 1 {
          return Err(ChainDeleted);
        } else if hdr.prevHmac != prevComputedHmac {
          return Err(ChainCorrupted);
        }
        return Ok(hdr.seqNo);
    }
  }

  /** The first bad line of a prefix is the first bad line of the whole. */
  lemma FirstBadInPrefix(c: Codec, mode: Mode, good: seq<Bytes>, line: Bytes, rest: seq<Bytes>)
    requires FirstBad(c, mode, good) == 0 && Verdict(c, mode, good, line).Some?
    ensures FirstBad(c, mode, good + [line] + rest) == |good| + 1
  {
    var all := good + [line] + rest;
    assert all == good + ([line] + rest);
    assert all[..|good|] == good && all[|good|] == line;
    assert VerdictAt(c, mode, all, |good|).Some?;
    forall k | 0 <= k < |good|
      ensures VerdictAt(c, mode, all, k).None?
    {
      VerdictInPrefix(c, mode, good, [line] + rest, k);
    }
  }

  lemma VerifyStopsAt(c: Codec, tokens: seq<Bytes>, i: nat)
    requires i < |tokens| && tokens[i] != []
    requires FirstBad(c, None, NonBlank(tokens[..i])) == 0
    requires Verdict(c, None, NonBlank(tokens[..i]), tokens[i]).Some?
    ensures FirstSentinel(c, NonBlank(tokens)) == Some(Sentinel(c, NonBlank(tokens[..i]), tokens[i]))
  {
    var good, rest := NonBlank(tokens[..i]), NonBlank(tokens[i + 1..]);
    NonBlankAround(tokens, i);
    FirstBadInPrefix(c, None, good, tokens[i], rest);
    assert (good + [tokens[i]] + rest)[..|good|] == good;
  }

  lemma NonBlankAround(tokens: seq<Bytes>, i: nat)
    requires i < |tokens| && tokens[i] != []
    ensures NonBlank(tokens) == NonBlank(tokens[..i]) + [tokens[i]] + NonBlank(tokens[i + 1..])
  {
    NonBlankSnoc(tokens, i);
    CutAfter(tokens, i);
    NonBlankAppend(tokens[..i + 1], tokens[i + 1..]);
  }

  lemma CutAfter<T>(s: seq<T>, i: nat)
    requires i < |s|
    ensures s[..i + 1] + s[i + 1..] == s
  {
  }

  /** Verify's loop over the tokens bufio.Scanner delivers. */
  method CheckTokens(c: Codec, tokens: seq<Bytes>) returns (err: Option<ChainError>)
    ensures err == FirstSentinel(c, NonBlank(tokens))
  {
    var prevComputedHmac: Mac, prevSeq, lineNum := Unset, 0, 0;
    for i := 0 to |tokens|
      invariant lineNum == |NonBlank(tokens[..i])|
      invariant FirstBad(c, None, NonBlank(tokens[..i])) == 0
      invariant prevSeq == PrevSeq(c, NonBlank(tokens[..i]))
      invariant lineNum > 0 ==> prevComputedHmac == c.Hmac(LastOf(NonBlank(tokens[..i])))
    {
      ghost var seen := NonBlank(tokens[..i]);
      NonBlankSnoc(tokens, i);
      var line := tokens[i];
      if line == [] {
        continue;
      }
      lineNum := lineNum + 1;
      var r := CheckToken(c, lineNum, prevSeq, prevComputedHmac, line, seen);
      if r.Err? {
        VerifyStopsAt(c, tokens, i);
        return Some(r.error);
      }
      ReportSnoc(c, None, seen, line);
      prevComputedHmac := c.Hmac(line);
      prevSeq := r.value;
    }
    assert tokens[..|tokens|] == tokens;
    return None;
  }

  method Verify(c: Codec, data: Bytes) returns (err: Option<ChainError>)
    ensures err == Expected(c, data)
  {
    var raw := SplitLines(data);
    var n := Readable(raw);
    err := CheckTokens(c, DropCRs(raw[..n]));
    if err.None? && n < |raw| {
      err := Some(ChainTruncated);
    }
  }

  /** No line ends in a carriage return and none is too long for bufio.Scanner. */
  predicate PlainLines(data: Bytes) {
    var raw := SplitLines(data);
    forall i :: 0 <= i < |raw| ==> DropCR(raw[i]) == raw[i] && |raw[i]| < MAX_TOKEN
  }

  lemma PlainTokens(data: Bytes)
    requires PlainLines(data)
    ensures Readable(SplitLines(data)) == |SplitLines(data)|
    ensures Tokens(data) == NonBlank(SplitLines(data))
  {
    var raw := SplitLines(data);
    var n := Readable(raw);
    assert raw[..n] == raw;
    assert DropCRs(raw) == raw;
  }

  /**
   * On plain lines the two verifiers agree: Verify passes exactly what header-only VerifyChain finds
   * nothing wrong with, and its truncation error is exactly VerifyChain's unparsable first bad line.
   */
  lemma VerifyAgreesWithVerifyChain(c: Codec, data: Bytes)
    requires PlainLines(data)
    ensures var report := ReportOf(c, None, NonBlank(SplitLines(data)));
            && (Expected(c, data).None? <==> report.firstBadLine == 0)
            && (Expected(c, data) == Some(ChainTruncated) <==>
                report.firstBadReason in {Some(NoSeparator), Some(HeaderNotBase64), Some(HeaderNotJson)})
  {
    PlainTokens(data);
    var tokens := NonBlank(SplitLines(data));
    var bad := FirstBad(c, None, tokens);
    if bad != 0 {
      SentinelMatchesReason(c, tokens[..bad - 1], tokens[bad - 1]);
    }
  }

  lemma SentinelMatchesReason(c: Codec, prior: seq<Bytes>, line: Bytes)
    requires Verdict(c, None, prior, line).Some?
    ensures Sentinel(c, prior, line) == ChainTruncated <==>
              Verdict(c, None, prior, line) in {Some(NoSeparator), Some(HeaderNotBase64), Some(HeaderNotJson)}
  {
  }

  /**
   * Of a rearrangement of an accepted file, Verify names what it meets first: a first line that is not number 1 is
   * corruption, a jump ahead is deletion, and a line that was there before, or should have been, is reordering.
   */
  lemma RearrangementNamed(c: Codec, lines: seq<Bytes>, order: seq<nat>, j: nat)
    requires Accepted(c, None, lines) && Positions(order, |lines|) && FirstMoved(order, j)
    ensures FirstSentinel(c, Select(lines, order)) ==
            Some(if j == 0 then ChainCorrupted else if order[j] > j then ChainDeleted else ChainReordered)
  {
    RearrangementReported(c, None, lines, order, j);
    AcceptedHeaders(c, None, lines, order[j]);
    var moved := Select(lines, order);
    if j > 0 {
      AcceptedHeaders(c, None, lines, j - 1);
      assert moved[..j][j - 1] == lines[j - 1];
    }
  }

  /** A line replaced by one that fits behind the line before it is corruption, found at the next line. */
  lemma AlterationNamed(c: Codec, lines: seq<Bytes>, k: nat, line: Bytes)
    requires Accepted(c, None, lines) && k + 1 < |lines| && c.Hmac(line) != c.Hmac(lines[k])
    ensures FirstSentinel(c, lines[k := line]).Some?
    ensures Verdict(c, None, lines[..k], line).None? ==> FirstSentinel(c, lines[k := line]) == Some(ChainCorrupted)
    ensures ParseHeader(c, line).Err? ==> FirstSentinel(c, lines[k := line]) == Some(ChainTruncated)
  {
    AlterationReported(c, None, lines, k, line);
    var altered := lines[k := line];
    assert altered[..k] == lines[..k];
    if Verdict(c, None, lines[..k], line).None? {
      assert altered[..k + 1][k] == line && altered[..k + 1][..k] == lines[..k];
      AcceptedHeaders(c, None, lines, k + 1);
      if k > 0 {
        AcceptedHeaders(c, None, lines, k - 1);
        assert lines[..k][k - 1] == lines[k - 1];
      }
    }
  }
}
