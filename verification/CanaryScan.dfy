// The start-up memory scan (cmd/keylatchd/heapdump_check_linux.go): overlapping chunks read into one
// reused buffer, which must find what a search of the whole region finds.
module CanaryScan {
  import opened Basics

  const MAX_SCAN_BYTES: nat := 16 * 1024 * 1024
  const CHUNK_SIZE: nat := 4 * 1024 * 1024
  const MAX_INT64: nat := 0x7fff_ffff_ffff_ffff
  const TWO_64: nat := 0x1_0000_0000_0000_0000

  /** The canaries that occur in the text; in no bytes at all nothing is looked for. */
  ghost function FoundIn(canaries: seq<Bytes>, text: Bytes): (indices: set<nat>)
  {
    set i: nat | i < |canaries| && text != [] && Contains(text, canaries[i])
  }

  /** maxCanaryLen. */
  method MaxCanaryLen(canaries: seq<Bytes>) returns (max: nat)
    ensures forall i :: 0 <= i < |canaries| ==> |canaries[i]| <= max
    ensures max > 0 ==> exists i :: 0 <= i < |canaries| && |canaries[i]| == max
  {
    max := 0;
    for k := 0 to |canaries|
      invariant forall i :: 0 <= i < k ==> |canaries[i]| <= max
      invariant max > 0 ==> exists i :: 0 <= i < k && |canaries[i]| == max
    {
      if |canaries[k]| > max {
        max := |canaries[k]|;
      }
    }
  }

  /**
   * The memory behind the io.ReaderAt, from the start of the region. A read at an offset listed in `faults`
   * ends with an error, after at most that many bytes; any other read returns all that was asked for.
   */
  datatype Reader = Reader(region: Bytes, faults: map<nat, nat>)

  /** `address` is what the offset in the region comes to in the file; it is an int64. */
  method ReadAt(r: Reader, buf: array<byte>, want: nat, offset: nat, address: nat) returns (n: nat, err: bool)
    requires address <= MAX_INT64
    requires want <= buf.Length && offset + want <= |r.region|
    modifies buf
    ensures n <= want && buf[..n] == r.region[offset..offset + n]
    ensures offset !in r.faults ==> n == want && !err
    ensures offset in r.faults ==> err && n == if r.faults[offset] < want then r.faults[offset] else want
  {
    n, err := want, offset in r.faults;
    if err && r.faults[offset] < want {
      n := r.faults[offset];
    }
    for i := 0 to n
      invariant buf[..i] == r.region[offset..offset + i]
    {
      buf[i] := r.region[offset + i];
      assert buf[..i + 1] == buf[..i] + [buf[i]];
    }
  }

  lemma ContainsAt(text: Bytes, pattern: Bytes, i: nat)
    requires OccursAt(text, pattern, i)
    ensures Contains(text, pattern)
  {
  }

  lemma PieceOfPiece(region: Bytes, from: nat, to: nat, i: nat, j: nat)
    requires from <= to <= |region| && i <= j <= to - from
    ensures region[from..to][i..j] == region[from + i..from + j]
    ensures from == 0 ==> region[..to][i..j] == region[i..j]
  {
    var x, y := region[from..to][i..j], region[from + i..from + j];
    forall k | 0 <= k < |x| ensures x[k] == y[k] {
      assert region[from..to][i + k] == region[from + i + k];
    }
    assert from == 0 ==> region[..to] == region[from..to];
  }

  /** What occurs in a piece of the region occurs in the region up to the end of the piece. */
  lemma PieceInPrefix(region: Bytes, from: nat, to: nat, end: nat, pattern: Bytes)
    requires from <= to <= end <= |region| && Contains(region[from..to], pattern)
    ensures Contains(region[..end], pattern)
  {
    var i: nat :| i <= to - from && OccursAt(region[from..to], pattern, i);
    var at := from + i;
    PieceOfPiece(region, from, to, i, i + |pattern|);
    PieceOfPiece(region, 0, end, at, at + |pattern|);
    ContainsAt(region[..end], pattern, at);
  }

  /**
   * What occurs up to the end of the next piece occurs up to the end of the last, or in the next piece, when
   * the two overlap by all but one symbol of the pattern.
   */
  lemma PrefixOrPiece(region: Bytes, covered: nat, from: nat, to: nat, pattern: Bytes)
    requires from <= covered <= to <= |region| && (from == 0 || from + |pattern| <= covered + 1)
    requires Contains(region[..to], pattern)
    ensures Contains(region[..covered], pattern) || Contains(region[from..to], pattern)
  {
    var i: nat :| i <= to && OccursAt(region[..to], pattern, i);
    if i >= from {
      PieceOfPiece(region, from, to, i - from, i - from + |pattern|);
      PieceOfPiece(region, 0, to, i, i + |pattern|);
      ContainsAt(region[from..to], pattern, i - from);
    } else {
      PieceOfPiece(region, 0, covered, i, i + |pattern|);
      PieceOfPiece(region, 0, to, i, i + |pattern|);
      ContainsAt(region[..covered], pattern, i);
    }
  }

  /** The canaries of one chunk join those found before. */
  method LookInChunk(canaries: seq<Bytes>, chunk: Bytes, found: set<nat>) returns (now: set<nat>)
    requires chunk != []
    ensures now == found + FoundIn(canaries, chunk)
  {
    now := found;
    for k := 0 to |canaries|
      invariant now == found + set i: nat | i < k && i in FoundIn(canaries, chunk)
    {
      if k !in now && Contains(chunk, canaries[k]) {
        now := now + {k};
      }
    }
  }

  /** Whether the chunk read from `offset` continues what was covered without a gap for any canary. */
  ghost predicate Overlaps(covered: nat, offset: nat, overlap: nat, size: nat) {
    covered == size || offset == 0 == covered || offset + overlap == covered
  }

  lemma CoverNext(canaries: seq<Bytes>, region: Bytes, covered: nat, offset: nat, overlap: nat, n: nat, max: nat)
    requires covered <= |region| && n > 0 && offset + n <= |region|
    requires forall i :: 0 <= i < |canaries| ==> |canaries[i]| <= max
    requires overlap == if max > 0 then max - 1 else 0
    requires Overlaps(covered, offset, overlap, |region|)
    ensures var end := if covered > offset + n then covered else offset + n;
            FoundIn(canaries, region[..end]) ==
            FoundIn(canaries, region[..covered]) + FoundIn(canaries, region[offset..offset + n])
  {
    var end := if covered > offset + n then covered else offset + n;
    forall i: nat | i < |canaries|
      ensures i in FoundIn(canaries, region[..end]) <==>
              i in FoundIn(canaries, region[..covered]) || i in FoundIn(canaries, region[offset..offset + n])
    {
      var c := canaries[i];
      if Contains(region[offset..offset + n], c) {
        PieceInPrefix(region, offset, offset + n, end, c);
      }
      if covered > 0 && Contains(region[..covered], c) {
        PieceInPrefix(region, 0, covered, end, c);
      }
      if end == offset + n && end > covered && Contains(region[..end], c) {
        PrefixOrPiece(region, covered, offset, end, c);
      }
    }
  }

  /** Canaries found are among those that occur in the bytes covered, and fit into a chunk. */
  ghost predicate Sound(canaries: seq<Bytes>, found: set<nat>, text: Bytes) {
    found <= FoundIn(canaries, text) && forall i :: i in found ==> |canaries[i]| <= CHUNK_SIZE
  }

  lemma SoundNext(canaries: seq<Bytes>, region: Bytes, found: set<nat>, covered: nat, offset: nat, n: nat)
    requires covered <= |region| && 0 < n <= CHUNK_SIZE && offset + n <= |region|
    requires Sound(canaries, found, region[..covered])
    ensures Sound(canaries, found + FoundIn(canaries, region[offset..offset + n]),
                  region[..if covered > offset + n then covered else offset + n])
  {
    var end := if covered > offset + n then covered else offset + n;
    forall i | i in FoundIn(canaries, region[offset..offset + n])
      ensures i in FoundIn(canaries, region[..end]) && |canaries[i]| <= CHUNK_SIZE
    {
      PieceInPrefix(region, offset, offset + n, end, canaries[i]);
    }
    forall i | i in found ensures i in FoundIn(canaries, region[..end]) {
      PieceInPrefix(region, 0, covered, end, canaries[i]);
    }
  }

  /** Where the window moves: by chunkSize - overlap in uint64 arithmetic, or by a whole chunk if that is zero. */
  function NextOffset(offset: nat, overlap: nat): (next: nat)
    requires offset < MAX_SCAN_BYTES
    ensures overlap < CHUNK_SIZE ==> next == offset + CHUNK_SIZE - overlap
    ensures overlap == CHUNK_SIZE ==> next == offset + CHUNK_SIZE
    ensures offset == 0 && CHUNK_SIZE < overlap < MAX_INT64 ==> next > MAX_INT64
  {
    var step := (CHUNK_SIZE - overlap) % TWO_64;
    (offset + if step == 0 then CHUNK_SIZE else step) % TWO_64
  }

  ghost predicate AllFit(canaries: seq<Bytes>) {
    forall i :: 0 <= i < |canaries| ==> |canaries[i]| <= CHUNK_SIZE
  }

  /** What is left to scan under the cap. */
  function Capped(region: Bytes): (prefix: Bytes)
  {
    if |region| > MAX_SCAN_BYTES then region[..MAX_SCAN_BYTES] else region
  }

  /** No read fails, and every address up to the cap is below 2^63. */
  ghost predicate Readable(r: Reader, start: nat) {
    r.faults == map[] && start + |Capped(r.region)| <= MAX_INT64 + 1
  }

  lemma FoundGrows(canaries: seq<Bytes>, region: Bytes, covered: nat)
    requires covered <= |region|
    ensures FoundIn(canaries, region[..covered]) <= FoundIn(canaries, region)
  {
    forall i | i in FoundIn(canaries, region[..covered]) ensures i in FoundIn(canaries, region) {
      PieceInPrefix(region, 0, covered, |region|, canaries[i]);
      assert region[..|region|] == region;
    }
  }

  ghost predicate OutOfReach(start: nat, offset: nat) {
    (start + offset) % TWO_64 > MAX_INT64
  }

  /** Something kept the scan from going on: a read that failed, or an address that no read takes. */
  ghost predicate CutShort(r: Reader, start: nat, covered: nat) {
    exists offset: nat :: offset <= covered && (offset in r.faults || OutOfReach(start, offset))
  }

  /**
   * scanRegionForCanaries. Never counts a canary that does not occur under the cap; if every canary fits into
   * a chunk and everything is readable, counts all that do, across chunk boundaries included. In any case the
   * canaries found are in the bytes covered, all of those if they fit, and one longer than a chunk is not found.
   */
  method ScanRegionForCanaries(r: Reader, start: nat, canaries: seq<Bytes>)
    returns (count: nat, ghost indices: set<nat>, ghost covered: nat)
    requires start < TWO_64 && forall i :: 0 <= i < |canaries| ==> |canaries[i]| <= MAX_INT64
    ensures count <= |FoundIn(canaries, Capped(r.region))|
    ensures AllFit(canaries) && Readable(r, start) ==> count == |FoundIn(canaries, Capped(r.region))|
    ensures count == |indices| && covered <= |Capped(r.region)| && Sound(canaries, indices, r.region[..covered])
    ensures AllFit(canaries) ==> indices == FoundIn(canaries, r.region[..covered])
    ensures AllFit(canaries) && canaries != [] && covered < |Capped(r.region)| ==> CutShort(r, start, covered)
  {
    if |canaries| == 0 {
      return 0, {}, 0;
    }
    var size := |r.region|;
    if size > MAX_SCAN_BYTES {
      size := MAX_SCAN_BYTES;
    }
    var max := MaxCanaryLen(canaries);
    var found;
    found, covered := ScanChunks(r.(region := r.region[..size]), start, canaries, max);
    assert r.region[..size] == Capped(r.region);
    assert r.region[..size][..covered] == r.region[..covered];
    FoundGrows(canaries, r.region[..size], covered);
    SubsetSize(found, FoundIn(canaries, r.region[..size]));
    assert Capped(r.region)[..|Capped(r.region)|] == Capped(r.region);
    return |found|, found, covered;
  }

  /** The scan loop. */
  method ScanChunks(r: Reader, start: nat, canaries: seq<Bytes>, max: nat) returns (found: set<nat>, ghost covered: nat)
    requires |r.region| <= MAX_SCAN_BYTES && start < TWO_64 && max <= MAX_INT64
    requires forall i :: 0 <= i < |canaries| ==> |canaries[i]| <= max
    requires AllFit(canaries) ==> max <= CHUNK_SIZE
    ensures covered <= |r.region| && Sound(canaries, found, r.region[..covered])
    ensures AllFit(canaries) ==> found == FoundIn(canaries, r.region[..covered])
    ensures AllFit(canaries) && covered < |r.region| ==> CutShort(r, start, covered)
  {
    var size := |r.region|;
    var overlap := if max > 0 then max - 1 else 0;
    found := {};
    var buf := new byte[CHUNK_SIZE](_ => 0);
    var offset := 0;
    covered := 0;
    while offset < size
      invariant buf.Length == CHUNK_SIZE && fresh(buf)
      invariant overlap > CHUNK_SIZE ==> offset == 0 || offset > size
      invariant covered <= size && Sound(canaries, found, r.region[..covered])
      invariant max <= CHUNK_SIZE ==> Overlaps(covered, offset, overlap, size)
      invariant max <= CHUNK_SIZE ==> found == FoundIn(canaries, r.region[..covered])
      invariant max <= CHUNK_SIZE && offset >= size ==> covered == size
      decreases size - offset
    {
      var readSize := CHUNK_SIZE;
      if offset + readSize > size {
        readSize := size - offset;
      }
      if (start + offset) % TWO_64 > MAX_INT64 {
        assert OutOfReach(start, offset);
        break;
      }
      var n, err := ReadAt(r, buf, readSize, offset, (start + offset) % TWO_64);
      if n == 0 {
        break;
      }
      SoundNext(canaries, r.region, found, covered, offset, n);
      if max <= CHUNK_SIZE {
        CoverNext(canaries, r.region, covered, offset, overlap, n, max);
      }
      found := LookInChunk(canaries, buf[..n], found);
      covered := if covered > offset + n then covered else offset + n;
      if err {
        break;
      }
      offset := NextOffset(offset, overlap);
    }
  }
}
