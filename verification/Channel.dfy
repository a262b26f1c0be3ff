/** Encrypted requests and responses, as `client/main.c` and `server/main.c` build and open them. */
module Channel {
  import opened Octets
  import opened Crypto
  import opened Packet
  import opened Requests

  const GCM_OVERHEAD := 28

  /** A frame payload: IV, tag, ciphertext. The header, nonce and length, is authenticated with it. */
  function SealFrame(c: Suite, o: ByteOrder, key: Digest, nonce: Nonce, iv: Iv, pt: Bytes): (f: Frame)
    requires AeadIdeal(c) && GCM_OVERHEAD + |pt| <= UINT32_MAX
    ensures f.nonce == nonce && |f.payload| == GCM_OVERHEAD + |pt|
  {
    var sealed := c.seal(key, iv, Aad(HeaderFor(o, nonce, GCM_OVERHEAD + |pt|)), pt);
    Frame(nonce, iv + sealed.tag + sealed.text)
  }

  function OpenFrame(c: Suite, o: ByteOrder, key: Digest, f: Frame): Option<Bytes>
    requires |f.payload| <= UINT32_MAX
  {
    if |f.payload| < GCM_OVERHEAD then None
    else
      var aad := Aad(HeaderFor(o, f.nonce, |f.payload|));
      c.open(key, f.payload[..12], aad, Sealed(f.payload[28..], f.payload[12..28]))
  }

  lemma FrameOpens(c: Suite, o: ByteOrder, key: Digest, nonce: Nonce, iv: Iv, pt: Bytes)
    requires AeadIdeal(c) && GCM_OVERHEAD + |pt| <= UINT32_MAX
    ensures OpenFrame(c, o, key, SealFrame(c, o, key, nonce, iv, pt)) == Some(pt)
  {
    hide Aad, HeaderFor;
    var sealed := c.seal(key, iv, Aad(HeaderFor(o, nonce, GCM_OVERHEAD + |pt|)), pt);
    var p := SealFrame(c, o, key, nonce, iv, pt).payload;
    assert p[..12] == iv && p[12..28] == sealed.tag && p[28..] == sealed.text;
  }

  // ---------- responses ----------

  function StatusCode(s: Status): int {
    match s
    case Ok => 0
    case Err => 1
    case ErrAuth => 2
    case ErrDeleted => 3
    case ErrNotFound => 4
    case ErrBadReq => 5
    case ErrInternal => 6
  }

  function ResponsePlain(op: byte, s: Status, data: Bytes): (b: Bytes)
    requires |data| <= UINT16_MAX
    ensures |b| == 7 + |data|
  {
    [op] + Be16(StatusCode(s)) + Be32(|data|) + data
  }

  /** The status code and data the client takes from a decrypted response to a request with this opcode. */
  function ParseResponse(op: byte, pt: Bytes): Option<(int, Bytes)> {
    if |pt| < 7 || pt[0] != op then None
    else
      var n := FromBe32(pt[3..7]) as int;
      if |pt| != 7 + n then None else Some((FromBe16(pt[1..3]), pt[7..]))
  }

  lemma ResponseParses(op: byte, s: Status, data: Bytes)
    requires |data| <= UINT16_MAX
    ensures ParseResponse(op, ResponsePlain(op, s, data)) == Some((StatusCode(s), data))
  {
    var pt := ResponsePlain(op, s, data);
    Be32RoundTrip(|data|);
    assert pt[1..3] == Be16(StatusCode(s)) && pt[3..7] == Be32(|data|) && pt[7..] == data;
  }

  /** No two statuses share a code, so the client knows the server's status exactly. */
  lemma StatusCodesDistinct(s: Status, t: Status)
    ensures StatusCode(s) == StatusCode(t) ==> s == t
  {
  }

  /** A response is accepted exactly when it is well formed for the opcode that was sent. */
  lemma ResponseExactly(op: byte, pt: Bytes, s: Status, data: Bytes)
    requires |data| <= UINT16_MAX
    ensures ParseResponse(op, pt) == Some((StatusCode(s), data)) <==> pt == ResponsePlain(op, s, data)
  {
    ResponseParses(op, s, data);
    if ParseResponse(op, pt) == Some((StatusCode(s), data)) {
      Be32Onto(pt[3..7]);
      assert pt[1..3] == [pt[1], pt[2]];
      assert pt == [pt[0]] + pt[1..3] + pt[3..7] + pt[7..];
    }
  }

  /** The client's buffers: opcode and data encrypted into a payload whose header announces its length. */
  method SendRequest(
    c: Suite, s: Net.Socket, o: ByteOrder, key: Digest, nonce: Nonce, iv: Iv, op: byte, data: Bytes) returns (ok: bool)
    requires AeadIdeal(c)
    modifies s`script, s`sent
    ensures ok ==> GCM_OVERHEAD + 1 + |data| <= MAX_PAYLOAD
    ensures ok ==> s.sent == old(s.sent) + Encode(SealFrame(c, o, key, nonce, iv, [op] + data))
    ensures Net.Unbroken(old(s.script)) ==> (ok <==> GCM_OVERHEAD + 1 + |data| <= MAX_PAYLOAD) && Net.Unbroken(s.script)
    ensures !ok && MAX_PAYLOAD < GCM_OVERHEAD + 1 + |data| ==> s.sent == old(s.sent)
  {
    ok := SendSealed(c, s, o, key, nonce, iv, [op] + data);
  }

  method SendSealed(c: Suite, s: Net.Socket, o: ByteOrder, key: Digest, nonce: Nonce, iv: Iv, pt: Bytes)
    returns (ok: bool)
    requires AeadIdeal(c)
    modifies s`script, s`sent
    ensures ok ==> GCM_OVERHEAD + |pt| <= MAX_PAYLOAD
    ensures ok ==> s.sent == old(s.sent) + Encode(SealFrame(c, o, key, nonce, iv, pt))
    ensures Net.Unbroken(old(s.script)) ==> (ok <==> GCM_OVERHEAD + |pt| <= MAX_PAYLOAD) && Net.Unbroken(s.script)
    ensures !ok && MAX_PAYLOAD < GCM_OVERHEAD + |pt| ==> s.sent == old(s.sent)
  {
    if GCM_OVERHEAD + |pt| > UINT32_MAX {
      return false;
    }
    var h := HeaderFor(o, nonce, GCM_OVERHEAD + |pt|);
    var aad := BuildAad(h);
    var payload := new byte[GCM_OVERHEAD + |pt|](_ => 0);
    var sealed := c.seal(key, iv, aad[..], pt);
    CopyInto(payload, 0, iv);
    CopyInto(payload, 12, sealed.tag);
    assert payload[..28] == iv + sealed.tag;
    CopyInto(payload, GCM_OVERHEAD, sealed.text);
    assert payload[..] == payload[..GCM_OVERHEAD + |sealed.text|] == iv + sealed.tag + sealed.text;
    NetworkOrder(o, GCM_OVERHEAD + |pt|);
    ok := Packet.Send(s, o, h, payload[..]);
  }

  /** Receiving and opening one frame; anything malformed or unauthentic gives nothing. */
  method RecvSealed(c: Suite, s: Net.Socket, o: ByteOrder, key: Digest) returns (r: Option<(Nonce, Bytes)>)
    modifies s`script, s`incoming
    ensures r.Some? ==>
      && Decode(old(s.incoming)).Got?
      && OpenFrame(c, o, key, Decode(old(s.incoming)).frame) == Some(r.value.1)
      && r.value.0 == Decode(old(s.incoming)).frame.nonce && s.incoming == Decode(old(s.incoming)).rest
    ensures Net.Unbroken(old(s.script)) ==>
      (r.Some? <==> Decode(old(s.incoming)).Got? && OpenFrame(c, o, key, Decode(old(s.incoming)).frame).Some?)
  {
    var got, _ := Packet.Recv(s, o);
    if got == None {
      return None;
    }
    var (h, payload) := got.value;
    var pt := OpenPayload(c, o, key, h, payload);
    if pt == None {
      return None;
    }
    return Some((h.nonce, pt.value));
  }

  /** Slicing IV, tag and ciphertext out of a received payload. */
  method OpenPayload(c: Suite, o: ByteOrder, key: Digest, h: Header, payload: Bytes) returns (pt: Option<Bytes>)
    requires |payload| <= MAX_PAYLOAD && h == HeaderFor(o, h.nonce, |payload|)
    ensures pt == OpenFrame(c, o, key, Frame(h.nonce, payload))
  {
    if |payload| < GCM_OVERHEAD {
      return None;
    }
    var aad := BuildAad(h);
    pt := c.open(key, payload[..12], aad[..], Sealed(payload[28..], payload[12..28]));
  }

  /** `send_request_and_get_response`: the response must echo the opcode; its nonce is not compared. */
  method Exchange(
    c: Suite, s: Net.Socket, o: ByteOrder, c2s: Digest, s2c: Digest, nonce: Nonce, iv: Iv, op: byte, data: Bytes)
    returns (r: Option<(int, Bytes)>)
    requires AeadIdeal(c)
    modifies s`script, s`sent, s`incoming
    ensures r.Some? ==>
      && GCM_OVERHEAD + 1 + |data| <= MAX_PAYLOAD
      && s.sent == old(s.sent) + Encode(SealFrame(c, o, c2s, nonce, iv, [op] + data))
      && Answered(c, o, s2c, op, old(s.incoming)) == r && s.incoming == Decode(old(s.incoming)).rest
    ensures Net.Unbroken(old(s.script)) && GCM_OVERHEAD + 1 + |data| <= MAX_PAYLOAD ==>
      r == Answered(c, o, s2c, op, old(s.incoming))
  {
    hide Decode, Encode, SealFrame, OpenFrame, Net.Unbroken, AeadIdeal;
    var sent := SendRequest(c, s, o, c2s, nonce, iv, op, data);
    if !sent {
      return None;
    }
    var got := RecvSealed(c, s, o, s2c);
    if got == None {
      return None;
    }
    var pt := got.value.1;
    if |pt| < 7 || pt[0] != op {
      return None;
    }
    var length := FromBe32(pt[3..7]) as int;
    if |pt| != 7 + length {
      return None;
    }
    return Some((FromBe16(pt[1..3]), pt[7..]));
  }

  /** What the client makes of the bytes waiting for it. */
  function Answered(c: Suite, o: ByteOrder, s2c: Digest, op: byte, stream: Bytes): Option<(int, Bytes)> {
    match Decode(stream)
    case Got(f, _) =>
      (match OpenFrame(c, o, s2c, f)
       case Some(pt) => ParseResponse(op, pt)
       case None => None)
    case _ => None
  }

  /**
   * End to end: with the keys of one handshake and one byte order, for every opcode and every request that fits a
   * frame the server decodes exactly what the client sent, and for every status and data of at most 65535 bytes
   * the client decodes exactly what the server answered, leaving whatever follows on the stream untouched.
   */
  lemma EndToEnd(
    c: Suite, o: ByteOrder, c2s: Digest, s2c: Digest, nonce: Nonce, iv: Iv, op: byte, data: Bytes,
    answerIv: Iv, status: Status, answer: Bytes, rest: Bytes)
    requires AeadIdeal(c) && GCM_OVERHEAD + 1 + |data| <= MAX_PAYLOAD && |answer| <= UINT16_MAX
    ensures var request := SealFrame(c, o, c2s, nonce, iv, [op] + data);
      && Decode(Encode(request) + rest) == Got(request, rest)
      && OpenFrame(c, o, c2s, request) == Some([op] + data)
    ensures var response := SealFrame(c, o, s2c, nonce, answerIv, ResponsePlain(op, status, answer));
      && Decode(Encode(response) + rest) == Got(response, rest)
      && OpenFrame(c, o, s2c, response).Some?
      && ParseResponse(op, OpenFrame(c, o, s2c, response).value) == Some((StatusCode(status), answer))
  {
    hide OpenFrame, Decode, Encode, ParseResponse, ResponsePlain;
    FrameOpens(c, o, c2s, nonce, iv, [op] + data);
    DecodeExactly(Encode(SealFrame(c, o, c2s, nonce, iv, [op] + data)) + rest,
      SealFrame(c, o, c2s, nonce, iv, [op] + data), rest);
    FrameOpens(c, o, s2c, nonce, answerIv, ResponsePlain(op, status, answer));
    DecodeExactly(Encode(SealFrame(c, o, s2c, nonce, answerIv, ResponsePlain(op, status, answer))) + rest,
      SealFrame(c, o, s2c, nonce, answerIv, ResponsePlain(op, status, answer)), rest);
    ResponseParses(op, status, answer);
  }

  // ---------- the layouts in full ----------

  /** A payload is the IV, the tag and the ciphertext of the plaintext sealed with the header as associated data. */
  lemma SealedLayout(c: Suite, o: ByteOrder, key: Digest, nonce: Nonce, iv: Iv, pt: Bytes)
    requires AeadIdeal(c) && GCM_OVERHEAD + |pt| <= UINT32_MAX
    ensures var p := SealFrame(c, o, key, nonce, iv, pt).payload;
      var sealed := c.seal(key, iv, Aad(HeaderFor(o, nonce, 12 + 16 + |pt|)), pt);
      |p| == 12 + 16 + |pt| && p[..12] == iv && p[12..28] == sealed.tag && p[28..] == sealed.text
  {
    hide Aad, HeaderFor;
  }

  /** A response is the opcode, a 16-bit status, a 32-bit length and the data, with these status codes. */
  lemma ResponseLayout(op: byte, s: Status, data: Bytes)
    requires |data| <= UINT16_MAX
    ensures var r := ResponsePlain(op, s, data);
      && |r| == 1 + 2 + 4 + |data| && r[0] == op && BigEndian(r[3..7]) == |data| && r[7..] == data
      && BigEndian(r[1..3]) ==
           match s
           case Ok => 0
           case Err => 1
           case ErrAuth => 2
           case ErrDeleted => 3
           case ErrNotFound => 4
           case ErrBadReq => 5
           case ErrInternal => 6
  {
    hide Be32, Be16;
    NetworkOrder32(|data|);
    NetworkOrder16(StatusCode(s));
    var r := ResponsePlain(op, s, data);
    assert r[1..3] == Be16(StatusCode(s)) && r[3..7] == Be32(|data|);
  }
}
