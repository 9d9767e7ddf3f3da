// Reading a log as lines: the chunked lineScanner and the backward readLastLine
// (internal/audit/log.go), both against one definition of the newline split.
module Lines {
  import opened Basics

  predicate NoNewline(line: Bytes) {
    NEWLINE !in line
  }

  /** Index of the first newline, or |data| when there is none. */
  function FirstNewline(data: Bytes): (i: nat)
    ensures i <= |data|
    ensures forall k :: 0 <= k < i ==> data[k] != NEWLINE
    ensures i < |data| ==> data[i] == NEWLINE
  {
    if data == [] || data[0] == NEWLINE then 0
    else 1 + FirstNewline(data[1..])
  }

  /** The newline split: every terminated line, then a non-empty unterminated tail. */
  function SplitLines(data: Bytes): (lines: seq<Bytes>)
    decreases |data|
  {
    var i := FirstNewline(data);
    if data == [] then []
    else if i == |data| then [data]
    else [data[..i]] + SplitLines(data[i + 1..])
  }

  /** The bytes of a file that holds exactly these lines, each terminated. */
  function Unlines(lines: seq<Bytes>): (data: Bytes)
  {
    if lines == [] then [] else lines[0] + [NEWLINE] + Unlines(lines[1..])
  }

  predicate AllNoNewline(lines: seq<Bytes>) {
    forall line :: line in lines ==> NoNewline(line)
  }

  lemma FirstNewlineUnique(data: Bytes, i: nat)
    requires i <= |data| && (forall k :: 0 <= k < i ==> data[k] != NEWLINE) && (i < |data| ==> data[i] == NEWLINE)
    ensures FirstNewline(data) == i
  {
  }

  lemma SplitFirstLine(line: Bytes, rest: Bytes)
    requires NoNewline(line)
    ensures SplitLines(line + [NEWLINE] + rest) == [line] + SplitLines(rest)
  {
    var data := line + [NEWLINE] + rest;
    assert data[..|line|] == line && data[|line| + 1..] == rest;
    FirstNewlineUnique(data, |line|);
  }

  /** A terminated line in front of any suffix, or a suffix behind any terminated lines, splits apart. */
  lemma {:induction false} SplitUnlinesAppend(lines: seq<Bytes>, rest: Bytes)
    requires AllNoNewline(lines)
    ensures SplitLines(Unlines(lines) + rest) == lines + SplitLines(rest)
  {
    if lines == [] {
      assert Unlines(lines) + rest == rest;
    } else {
      assert Unlines(lines) + rest == lines[0] + [NEWLINE] + (Unlines(lines[1..]) + rest);
      SplitFirstLine(lines[0], Unlines(lines[1..]) + rest);
      SplitUnlinesAppend(lines[1..], rest);
    }
  }

  /** Round trip: a file of terminated lines splits back into those lines. */
  lemma SplitUnlines(lines: seq<Bytes>)
    requires AllNoNewline(lines)
    ensures SplitLines(Unlines(lines)) == lines
  {
    SplitUnlinesAppend(lines, []);
    assert Unlines(lines) + [] == Unlines(lines);
  }

  lemma {:induction false} SplitHasNoNewline(data: Bytes)
    ensures AllNoNewline(SplitLines(data))
    decreases |data|
  {
    var i := FirstNewline(data);
    if 0 < |data| && i < |data| {
      SplitHasNoNewline(data[i + 1..]);
    }
  }

  predicate Terminated(data: Bytes) {
    data == [] || data[|data| - 1] == NEWLINE
  }

  lemma UnlinesCons(line: Bytes, lines: seq<Bytes>)
    ensures Unlines([line] + lines) == line + [NEWLINE] + Unlines(lines)
  {
  }

  lemma TakeFirstLine(data: Bytes) returns (line: Bytes, rest: Bytes)
    requires data != [] && Terminated(data)
    ensures data == line + [NEWLINE] + rest && Terminated(rest)
    ensures SplitLines(data) == [line] + SplitLines(rest)
  {
    var i := FirstNewline(data);
    line, rest := data[..i], data[i + 1..];
    assert rest != [] ==> rest[|rest| - 1] == data[|data| - 1];
  }

  /** Round trip the other way: joining the split of terminated data restores it. */
  lemma {:induction false} UnlinesSplit(data: Bytes)
    requires Terminated(data)
    ensures Unlines(SplitLines(data)) == data
    decreases |data|
  {
    if data != [] {
      var line, rest := TakeFirstLine(data);
      UnlinesSplit(rest);
      UnlinesCons(line, SplitLines(rest));
    }
  }

  /** The lines a reader that skips blank ones sees. */
  function NonBlank(lines: seq<Bytes>): (kept: seq<Bytes>)
    ensures forall line :: line in kept <==> line in lines && line != []
  {
    if lines == [] then []
    else (if lines[0] == [] then [] else [lines[0]]) + NonBlank(lines[1..])
  }

  lemma {:induction false} NonBlankAppend(lines: seq<Bytes>, more: seq<Bytes>)
    ensures NonBlank(lines + more) == NonBlank(lines) + NonBlank(more)
  {
    if lines == [] {
      assert lines + more == more;
    } else {
      assert (lines + more)[1..] == lines[1..] + more;
      NonBlankAppend(lines[1..], more);
    }
  }

  lemma NonBlankSnoc(lines: seq<Bytes>, i: nat)
    requires i < |lines|
    ensures NonBlank(lines[..i + 1]) ==
            if lines[i] == [] then NonBlank(lines[..i]) else NonBlank(lines[..i]) + [lines[i]]
  {
    assert lines[..i + 1] == lines[..i] + [lines[i]];
    NonBlankAppend(lines[..i], [lines[i]]);
  }

  lemma {:induction false} NonBlankIdentity(lines: seq<Bytes>)
    requires forall line :: line in lines ==> line != []
    ensures NonBlank(lines) == lines
  {
    if lines != [] {
      assert lines[0] in lines;
      assert forall line :: line in lines[1..] ==> line in lines;
      NonBlankIdentity(lines[1..]);
    }
  }

  /**
   * lineScanner. The reader is the list of chunks its Read calls still return;
   * `errWithLast` says whether the final chunk comes together with the error
   * (io.EOF or any other) or the error comes alone on the call after it.
   */
  class LineScanner {
    var chunks: seq<Bytes>
    var errWithLast: bool
    var buf: Bytes
    var err: bool
    var cur: Bytes

    /** Everything not yet handed out. */
    ghost function Remaining(): (data: Bytes)
      reads this
    {
      if err then buf else buf + Flatten(chunks)
    }

    constructor (chunks: seq<Bytes>, errWithLast: bool)
      ensures Remaining() == Flatten(chunks)
    {
      this.chunks, this.errWithLast := chunks, errWithLast;
      buf, err, cur := [], false, [];
    }

    /** One Read call; its bytes are appended to buf. */
    method Fill()
      requires !err
      modifies this
      ensures Remaining() == old(Remaining())
      ensures |chunks| < old(|chunks|) || err
    {
      if chunks == [] {
        err := true;
        assert buf == buf + Flatten([]);
      } else {
        var chunk := chunks[0];
        if errWithLast && |chunks| == 1 {
          err := true;
          assert Flatten(chunks) == chunk + Flatten([]);
        }
        assert buf + (chunk + Flatten(chunks[1..])) == (buf + chunk) + Flatten(chunks[1..]);
        buf := buf + chunk;
        chunks := chunks[1..];
      }
    }

    method Scan() returns (ok: bool)
      modifies this
      ensures ok <==> old(Remaining()) != []
      ensures ok ==> SplitLines(old(Remaining())) == [cur] + SplitLines(Remaining())
      ensures ok ==> |Remaining()| < old(|Remaining()|)
      ensures !ok ==> Remaining() == []
    {
      while true
        invariant Remaining() == old(Remaining())
        decreases !err, |chunks|
      {
        var idx := FirstNewline(buf);
        if idx < |buf| {
          cur := buf[..idx];
          ghost var rest := if err then [] else Flatten(chunks);
          assert Remaining() == cur + [NEWLINE] + (buf[idx + 1..] + rest);
          SplitFirstLine(cur, buf[idx + 1..] + rest);
          buf := buf[idx + 1..];
          assert Remaining() == buf + rest;
          return true;
        }
        if err {
          if |buf| > 0 {
            assert buf[..idx] == buf;
            cur := buf;
            buf := [];
            return true;
          }
          return false;
        }
        Fill();
      }
    }
  }

  /** Draining a lineScanner yields exactly the newline split, whatever the chunking. */
  method ScanAll(chunks: seq<Bytes>, errWithLast: bool) returns (lines: seq<Bytes>)
    ensures lines == SplitLines(Flatten(chunks))
  {
    var scanner := new LineScanner(chunks, errWithLast);
    lines := [];
    var more := scanner.Scan();
    ghost var data := Flatten(chunks);
    while more
      invariant more ==> SplitLines(data) == lines + [scanner.cur] + SplitLines(scanner.Remaining())
      invariant !more ==> SplitLines(data) == lines
      decreases more, |scanner.Remaining()|
    {
      lines := lines + [scanner.cur];
      ghost var before := scanner.Remaining();
      more := scanner.Scan();
    }
  }

  /** bytes.TrimRight(data, "\n"). */
  function TrimNewlines(data: Bytes): (content: Bytes)
    ensures content <= data
    ensures content == [] || content[|content| - 1] != NEWLINE
    ensures forall k :: |content| <= k < |data| ==> data[k] == NEWLINE
  {
    if data != [] && data[|data| - 1] == NEWLINE then TrimNewlines(data[..|data| - 1]) else data
  }

  /** bytes.LastIndexByte(content, '\n') + 1: where the last line of content starts. */
  function LastLineStart(content: Bytes): (start: nat)
    ensures start <= |content|
    ensures start > 0 ==> content[start - 1] == NEWLINE
    ensures forall k :: start <= k < |content| ==> content[k] != NEWLINE
  {
    if content == [] || content[|content| - 1] == NEWLINE then |content|
    else LastLineStart(content[..|content| - 1])
  }

  /** The suffix readLastLine is to return: from the start of the last non-empty line. */
  function LastLineSuffix(data: Bytes): (suffix: Bytes)
  {
    data[LastLineStart(TrimNewlines(data))..]
  }

  lemma TrimNewlinesUnique(data: Bytes, content: Bytes)
    requires content <= data && (content == [] || content[|content| - 1] != NEWLINE)
    requires forall k :: |content| <= k < |data| ==> data[k] == NEWLINE
    ensures TrimNewlines(data) == content
  {
  }

  /** Looking only at a tail that already holds a newline before its last non-empty line is enough. */
  lemma LastLineInTail(data: Bytes, pos: nat)
    requires pos <= |data|
    requires LastLineStart(TrimNewlines(data[pos..])) > 0
    ensures LastLineSuffix(data) == LastLineSuffix(data[pos..])
  {
  }

  /** A backward read in chunks from pos meets a failing offset before it holds the whole last non-empty line. */
  ghost predicate ReadFails(data: Bytes, chunkSize: nat, failing: set<nat>, pos: nat)
    requires chunkSize > 0 && pos <= |data|
    decreases pos
  {
    pos > 0 &&
    (var at := if pos < chunkSize then 0 else pos - chunkSize;
     at in failing || (LastLineStart(TrimNewlines(data[at..])) == 0 && ReadFails(data, chunkSize, failing, at)))
  }

  /** Puts one more chunk in front of what has been read, and looks for a newline that is not at the very end. */
  method Prepend(data: Bytes, pos: nat, readSize: nat, buf: Bytes) returns (grown: Bytes, start: nat)
    requires pos + readSize <= |data| && buf == data[pos + readSize..]
    ensures grown == data[pos..] && start == LastLineStart(TrimNewlines(grown)) && start <= |grown|
  {
    grown := data[pos..pos + readSize] + buf;
    start := LastLineStart(TrimNewlines(grown));
    assert grown == data[pos..];
  }

  /**
   * readLastLine: reads backwards in chunks of chunkSize (4096 in the source).
   * `failing` holds the offsets at which ReadAt returns an error other than EOF.
   */
  method ReadLastLine(data: Bytes, chunkSize: nat, failing: set<nat>) returns (r: Option<Bytes>)
    requires chunkSize > 0
    ensures r.Some? ==> r.value == LastLineSuffix(data)
    ensures r.None? <==> ReadFails(data, chunkSize, failing, |data|)
    ensures failing == {} ==> r.Some?
  {
    var size := |data|;
    if size == 0 {
      return Some([]);
    }
    var buf: Bytes := [];
    var pos := size;
    while pos > 0
      invariant 0 <= pos <= size
      invariant buf == data[pos..]
      invariant pos == 0 ==> LastLineStart(TrimNewlines(data)) == 0
      invariant pos == size ==> size > 0
      invariant ReadFails(data, chunkSize, failing, size) <==> ReadFails(data, chunkSize, failing, pos)
    {
      var readSize := if pos < chunkSize then pos else chunkSize;
      pos := pos - readSize;
      if pos in failing {
        return None;
      }
      var start: nat;
      buf, start := Prepend(data, pos, readSize, buf);
      if start > 0 {
        LastLineInTail(data, pos);
        return Some(buf[start..]);
      }
      if pos == 0 {
        assert data[0..] == data;
        return Some(buf);
      }
    }
    assert data[0..] == data;
    return Some(buf);
  }

  function LastOf(lines: seq<Bytes>): (line: Bytes)
    requires lines != []
  {
    lines[|lines| - 1]
  }

  lemma SplitAfterTerminated(head: Bytes, rest: Bytes)
    requires Terminated(head)
    ensures NonBlank(SplitLines(head + rest)) == NonBlank(SplitLines(head)) + NonBlank(SplitLines(rest))
  {
    var lines := SplitLines(head);
    SplitHasNoNewline(head);
    UnlinesSplit(head);
    assert Unlines(lines) == head;
    SplitUnlinesAppend(lines, rest);
    NonBlankAppend(lines, SplitLines(rest));
  }

  lemma CutInThree(data: Bytes, i: nat, j: nat)
    requires i <= j <= |data|
    ensures data[i..] == data[i..j] + data[j..]
    ensures data == data[..i] + (data[i..j] + data[j..])
  {
  }

  /** Cutting at the start of the last non-empty line and at the newlines that follow it. */
  lemma CutLastLine(data: Bytes, start: nat, n: nat)
    requires start <= n <= |data| && (start > 0 ==> data[start - 1] == NEWLINE)
    requires (forall k :: start <= k < n ==> data[k] != NEWLINE) && (n > 0 ==> data[n - 1] != NEWLINE)
    ensures Terminated(data[..start]) && NoNewline(data[start..n])
    ensures data[start..n] == [] ==> data[..start] == []
  {
    var last := data[start..n];
    forall k | 0 <= k < |last| ensures last[k] != NEWLINE {
      assert last[k] == data[start + k];
    }
    if start > 0 {
      assert data[..start][start - 1] == data[start - 1];
    }
  }

  /** The last non-empty line, what precedes it and the newlines that follow it. */
  lemma LastLineParts(data: Bytes) returns (head: Bytes, last: Bytes, trailing: Bytes)
    ensures data == head + (last + trailing)
    ensures Terminated(head) && NoNewline(last)
    ensures last == [] ==> head == []
    ensures forall k :: 0 <= k < |trailing| ==> trailing[k] == NEWLINE
    ensures LastLineSuffix(data) == last + trailing
  {
    var n := |TrimNewlines(data)|;
    var start := LastLineStart(TrimNewlines(data));
    head, last, trailing := data[..start], data[start..n], data[n..];
    CutLastLine(data, start, n);
    CutInThree(data, start, n);
  }

  lemma TrimTrailing(last: Bytes, trailing: Bytes)
    requires NoNewline(last) && forall k :: 0 <= k < |trailing| ==> trailing[k] == NEWLINE
    ensures TrimNewlines(last + trailing) == last
  {
    TrimNewlinesUnique(last + trailing, last);
  }

  /** What readLastLine returns, newlines trimmed, is the last non-blank line a forward scan would see. */
  lemma LastLineIsLastNonBlank(data: Bytes)
    ensures NonBlank(SplitLines(data)) != [] <==> TrimNewlines(LastLineSuffix(data)) != []
    ensures NonBlank(SplitLines(data)) != [] ==>
              TrimNewlines(LastLineSuffix(data)) == LastOf(NonBlank(SplitLines(data)))
  {
    var head, last, trailing := LastLineParts(data);
    TrimTrailing(last, trailing);
    SplitAfterTerminated(head, last + trailing);
    SplitLastAndBlanks(last, trailing);
  }

  lemma {:induction false} SplitLastAndBlanks(last: Bytes, trailing: Bytes)
    requires NoNewline(last) && forall k :: 0 <= k < |trailing| ==> trailing[k] == NEWLINE
    ensures NonBlank(SplitLines(last + trailing)) == if last == [] then [] else [last]
    decreases |trailing|
  {
    if trailing == [] {
      assert last + trailing == last;
      FirstNewlineUnique(last, |last|);
    } else {
      assert last + trailing == last + [NEWLINE] + trailing[1..];
      SplitFirstLine(last, trailing[1..]);
      SplitLastAndBlanks([], trailing[1..]);
      assert [] + trailing[1..] == trailing[1..];
      NonBlankAppend([last], SplitLines(trailing[1..]));
    }
  }
}
