// The on-disk form of one audit line, base64(header) ' ' base64(nonce||ciphertext)
// (internal/audit/log.go), over arbitrary MAC, AEAD, JSON and base64 functions.
module ChainFormat {
  import opened Basics
  import opened Lines

  type Digits = s: string | s != "" witness "0"

  /** A prev_hmac string: the empty string, or its text. */
  datatype Mac = Unset | Hex(digits: Digits)

  type Key = Bytes

  /** strings.Repeat("0", 32), the prev_hmac of a first line. */
  const ZERO_MAC: Mac := Hex("00000000000000000000000000000000")

  const NONCE_LEN: nat := 24

  datatype Header = Header(seqNo: int, prevHmac: Mac, ts: int)

  /** What an event says, as far as the chain cares: an ordinary event or one of rotate's sentinels. */
  datatype Body = Payload(bytes: Bytes) | RotatedTo | Continued(prevFileHmac: Mac)

  datatype Event = Event(ts: int, body: Body)

  /**
   * The cryptographic and encoding primitives, as arbitrary tables. A key missing from a decoding
   * table is an input that function reports an error for.
   */
  datatype Codec = Codec(
    mac: imap<Bytes, Mac>,
    b64: imap<Bytes, Bytes>,
    unb64: imap<Bytes, Bytes>,
    marshal: imap<Header, Bytes>,
    unmarshal: imap<Bytes, Header>,
    seal: imap<(Key, Bytes, Bytes, Bytes), Bytes>, // key, plaintext, nonce, associated data
    open: imap<(Key, Bytes, Bytes, Bytes), Bytes>, // key, ciphertext, nonce, associated data
    encode: imap<Event, Bytes>,
    decode: imap<Bytes, Event>)
  {
    /** audithmac.Of under the chain MAC key. */
    function Hmac(line: Bytes): (m: Mac) { if line in mac then mac[line] else Unset }

    function B64(x: Bytes): (r: Bytes) { if x in b64 then b64[x] else [] }

    function Unb64(x: Bytes): (r: Option<Bytes>) { if x in unb64 then Some(unb64[x]) else None }

    function Marshal(h: Header): (r: Bytes) { if h in marshal then marshal[h] else [] }

    function Unmarshal(x: Bytes): (r: Option<Header>) { if x in unmarshal then Some(unmarshal[x]) else None }

    function Seal(k: Key, plain: Bytes, nonce: Bytes, aad: Bytes): (r: Bytes)
    {
      if (k, plain, nonce, aad) in seal then seal[(k, plain, nonce, aad)] else []
    }

    function Open(k: Key, ct: Bytes, nonce: Bytes, aad: Bytes): (r: Option<Bytes>)
    {
      if (k, ct, nonce, aad) in open then Some(open[(k, ct, nonce, aad)]) else None
    }

    function Encode(e: Event): (r: Bytes) { if e in encode then encode[e] else [] }

    function Decode(x: Bytes): (r: Option<Event>) { if x in decode then Some(decode[x]) else None }

    /**
     * Decoding inverts encoding, base64 text has neither space nor newline, a key opens what it
     * sealed, and a MAC (32 hex digits) is not the empty string.
     */
    ghost predicate Sound() {
      && (forall x :: Hmac(x).Hex?)
      && (forall x :: Unb64(B64(x)) == Some(x) && SPACE !in B64(x) && NEWLINE !in B64(x))
      && (forall h :: Unmarshal(Marshal(h)) == Some(h))
      && (forall k, p, n, a :: Open(k, Seal(k, p, n, a), n, a) == Some(p))
      && (forall e :: Decode(Encode(e)) == Some(e))
    }
  }

  /** Index of the first space, or |line| when there is none. */
  function FirstSpace(line: Bytes): (i: nat)
    ensures i <= |line|
    ensures forall k :: 0 <= k < i ==> line[k] != SPACE
    ensures i < |line| ==> line[i] == SPACE
  {
    if line == [] || line[0] == SPACE then 0 else 1 + FirstSpace(line[1..])
  }

  datatype Reason =
    | NoSeparator | HeaderNotBase64 | HeaderNotJson
    | FirstSeqNotOne | FirstPrevNotZero | SeqGap | HmacMismatch
    | BodyNotBase64 | BodyNotAuthentic

  /** The header bytes before the first space. */
  function HeaderBytes(c: Codec, line: Bytes): (r: Result<Bytes, Reason>)
  {
    var i := FirstSpace(line);
    if i == |line| then Err(NoSeparator)
    else match c.Unb64(line[..i])
      case None => Err(HeaderNotBase64)
      case Some(bytes) => Ok(bytes)
  }

  function ParseHeader(c: Codec, line: Bytes): (r: Result<Header, Reason>)
  {
    match HeaderBytes(c, line)
    case Err(e) => Err(e)
    case Ok(bytes) =>
      match c.Unmarshal(bytes)
      case None => Err(HeaderNotJson)
      case Some(h) => Ok(h)
  }

  /** openSealed: the plaintext under the first key that opens the body. */
  function OpenSealed(c: Codec, keys: seq<Key>, ct: Bytes, nonce: Bytes, hdr: Bytes): (r: Option<Bytes>)
    ensures r.Some? <==> exists k :: k in keys && c.Open(k, ct, nonce, hdr).Some?
    ensures r.Some? ==> exists i :: 0 <= i < |keys| && c.Open(keys[i], ct, nonce, hdr) == r &&
                          forall j :: 0 <= j < i ==> c.Open(keys[j], ct, nonce, hdr).None?
  {
    if keys == [] then None
    else
      assert keys[0] in keys;
      var first := c.Open(keys[0], ct, nonce, hdr);
      if first.Some? then first
      else
        assert forall i :: 0 <= i < |keys| - 1 ==> keys[1..][i] == keys[i + 1];
        OpenSealed(c, keys[1..], ct, nonce, hdr)
  }

  /**
   * Some key opens the body: the text after the first space decodes to a 24-byte nonce and a ciphertext, sealed
   * together with the bytes the text before it decodes to.
   */
  ghost predicate Authentic(c: Codec, keys: seq<Key>, line: Bytes) {
    var i := FirstSpace(line);
    && i < |line|
    && var hdr, sealed := c.Unb64(line[..i]), c.Unb64(line[i + 1..]);
       && hdr.Some? && sealed.Some? && |sealed.value| >= 24
       && exists k :: k in keys && c.Open(k, sealed.value[24..], sealed.value[..24], hdr.value).Some?
  }

  /** The plaintext of a line's body, or why it cannot be had. */
  function OpenBody(c: Codec, keys: seq<Key>, line: Bytes): (r: Result<Bytes, Reason>)
  {
    match HeaderBytes(c, line)
    case Err(e) => Err(e)
    case Ok(hdr) =>
      var i := FirstSpace(line);
      if i == |line| then Err(NoSeparator) else
      match c.Unb64(line[i + 1..])
      case None => Err(BodyNotBase64)
      case Some(sealed) =>
        if |sealed| < NONCE_LEN then Err(BodyNotBase64)
        else match OpenSealed(c, keys, sealed[NONCE_LEN..], sealed[..NONCE_LEN], hdr)
          case None => Err(BodyNotAuthentic)
          case Some(plain) => Ok(plain)
  }

  /** decodeAuditLine. */
  function DecodeLine(c: Codec, keys: seq<Key>, line: Bytes): (r: Option<Event>)
  {
    match OpenBody(c, keys, line)
    case Err(_) => None
    case Ok(plain) => c.Decode(plain)
  }

  /** Steps 3 to 6 of writeEvent: the line for an event at a given place in the chain. */
  function Render(c: Codec, key: Key, nonce: Bytes, h: Header, e: Event): (line: Bytes)
  {
    var hdr := c.Marshal(h);
    c.B64(hdr) + [SPACE] + c.B64(nonce + c.Seal(key, c.Encode(e), nonce, hdr))
  }

  lemma FirstSpaceUnique(line: Bytes, i: nat)
    requires i <= |line| && (forall k :: 0 <= k < i ==> line[k] != SPACE) && (i < |line| ==> line[i] == SPACE)
    ensures FirstSpace(line) == i
  {
  }

  lemma RenderSplits(left: Bytes, right: Bytes)
    requires SPACE !in left
    ensures var line := left + [SPACE] + right;
            FirstSpace(line) == |left| && line[..|left|] == left && line[|left| + 1..] == right
  {
    FirstSpaceUnique(left + [SPACE] + right, |left|);
  }

  /** Round trip: a rendered line parses to its header and, under any key list holding its key, opens to its event. */
  lemma RenderRoundTrip(c: Codec, key: Key, nonce: Bytes, h: Header, e: Event)
    requires c.Sound() && |nonce| == NONCE_LEN
    ensures var line := Render(c, key, nonce, h, e);
            && NoNewline(line) && line != []
            && ParseHeader(c, line) == Ok(h)
            && DecodeLine(c, [key], line) == Some(e)
            && forall keys :: key in keys ==> OpenBody(c, keys, line).Ok?
  {
    var hdr := c.Marshal(h);
    var ct := c.Seal(key, c.Encode(e), nonce, hdr);
    var line := Render(c, key, nonce, h, e);
    RenderSplits(c.B64(hdr), c.B64(nonce + ct));
    assert (nonce + ct)[NONCE_LEN..] == ct && (nonce + ct)[..NONCE_LEN] == nonce;
    forall keys | key in keys
      ensures OpenBody(c, keys, line).Ok?
    {
      assert c.Open(key, ct, nonce, hdr).Some?;
    }
  }

  /** A line written under the first of the keys decodes to its event. */
  lemma RenderDecodes(c: Codec, key: Key, more: seq<Key>, nonce: Bytes, h: Header, e: Event)
    requires c.Sound() && |nonce| == NONCE_LEN
    ensures DecodeLine(c, [key] + more, Render(c, key, nonce, h, e)) == Some(e)
  {
    var hdr := c.Marshal(h);
    var ct := c.Seal(key, c.Encode(e), nonce, hdr);
    RenderSplits(c.B64(hdr), c.B64(nonce + ct));
    assert (nonce + ct)[NONCE_LEN..] == ct && (nonce + ct)[..NONCE_LEN] == nonce;
    assert ([key] + more)[0] == key;
  }
}
