/** The operations frames of `common/dsspacket.c`. */
module Packet {
  import opened Octets
  import opened Net

  type Nonce = n: Bytes | |n| == 16 witness seq(16, _ => 0)

  const HEADER_LENGTH := 20
  const MAX_PAYLOAD := 10 * 1024 * 1024

  datatype ByteOrder = Little | Big

  function Reversed(b: Bytes): Bytes
    requires |b| == 4
  {
    [b[3], b[2], b[1], b[0]]
  }

  /** How a host lays out a 32-bit value. */
  function InMemory(o: ByteOrder, v: u32): (b: Bytes)
    ensures |b| == 4
  {
    if o.Big? then Be32(v) else Reversed(Be32(v))
  }

  /** `htonl` and, being its own inverse, `ntohl`. */
  function Htonl(o: ByteOrder, v: u32): u32 {
    if o.Big? then v else FromBe32(Reversed(Be32(v)))
  }

  lemma NetworkOrder(o: ByteOrder, v: u32)
    ensures InMemory(o, Htonl(o, v)) == Be32(v)
    ensures Htonl(o, Htonl(o, v)) == v
  {
    Be32Onto(Reversed(Be32(v)));
    Be32RoundTrip(v);
  }

  lemma NetworkOrderBack(o: ByteOrder, v: u32)
    ensures Be32(Htonl(o, v)) == InMemory(o, v)
  {
    Be32Onto(Reversed(Be32(v)));
  }

  /** `dss_header_t`: the length field holds the integer that `htonl` gave. */
  datatype Header = Header(nonce: Nonce, lengthField: u32)

  function HeaderFor(o: ByteOrder, nonce: Nonce, length: u32): Header {
    Header(nonce, Htonl(o, length))
  }

  function HeaderBytes(o: ByteOrder, h: Header): (b: Bytes)
    ensures |b| == HEADER_LENGTH
  {
    h.nonce + InMemory(o, h.lengthField)
  }

  /** The associated data: the nonce, then the stored length field shifted out from its most significant byte. */
  function Aad(h: Header): (b: Bytes)
    ensures |b| == 20
  {
    h.nonce + Be32(h.lengthField)
  }

  method BuildAad(h: Header) returns (out: array<byte>)
    ensures fresh(out) && out[..] == Aad(h)
  {
    out := new byte[20](_ => 0);
    for i := 0 to 16
      invariant out[..i] == h.nonce[..i]
    {
      out[i] := h.nonce[i];
      assert out[..i + 1] == out[..i] + [h.nonce[i]];
      assert h.nonce[..i + 1] == h.nonce[..i] + [h.nonce[i]];
    }
    out[16] := h.lengthField / 0x100_0000 % 256;
    out[17] := h.lengthField / 0x1_0000 % 256;
    out[18] := h.lengthField / 0x100 % 256;
    out[19] := h.lengthField % 256;
    assert out[..] == out[..16] + [out[16], out[17], out[18], out[19]];
  }

  /** Different headers never share associated data. */
  lemma AadInjective(h: Header, g: Header)
    ensures Aad(h) == Aad(g) ==> h == g
  {
    if Aad(h) == Aad(g) {
      assert Aad(h)[..16] == h.nonce && Aad(g)[..16] == g.nonce;
      assert Aad(h)[16..] == Be32(h.lengthField) && Aad(g)[16..] == Be32(g.lengthField);
      Be32RoundTrip(h.lengthField);
      Be32RoundTrip(g.lengthField);
    }
  }

  /**
   * The length in the associated data is in network order exactly on a big-endian host, or when its four bytes
   * read the same backwards; so two hosts agree exactly when they share a byte order or the length is such.
   */
  lemma AadByteOrder(o: ByteOrder, p: ByteOrder, nonce: Nonce, length: u32)
    ensures Aad(HeaderFor(o, nonce, length)) == nonce + Be32(length) <==>
              o.Big? || Reversed(Be32(length)) == Be32(length)
    ensures Aad(HeaderFor(o, nonce, length)) == Aad(HeaderFor(p, nonce, length)) <==>
              o == p || Reversed(Be32(length)) == Be32(length)
  {
    NetworkOrderBack(o, length);
    NetworkOrderBack(p, length);
    var a, b := Aad(HeaderFor(o, nonce, length)), Aad(HeaderFor(p, nonce, length));
    assert a[16..] == InMemory(o, length) && b[16..] == InMemory(p, length);
    assert (nonce + Be32(length))[16..] == Be32(length);
  }

  // ---------- frames on the wire ----------

  datatype Frame = Frame(nonce: Nonce, payload: Bytes)

  predicate FrameOk(f: Frame) {
    |f.payload| <= MAX_PAYLOAD
  }

  function Encode(f: Frame): Bytes
    requires FrameOk(f)
  {
    Be32(HEADER_LENGTH + |f.payload|) + f.nonce + Be32(|f.payload|) + f.payload
  }

  datatype Decoded =
    | Got(frame: Frame, rest: Bytes)
    | Truncated
    | BadLength
    | BadProtocol

  /** The return code of `dsspacket_recv` for each. */
  function ReturnCode(d: Decoded): int {
    match d
    case Got(_, _) => 0
    case BadLength => -2
    case Truncated => -3
    case BadProtocol => -5
  }

  /** Receiving one frame from a byte stream, check by check. */
  function Decode(s: Bytes): Decoded {
    if |s| < 4 then Truncated
    else
      var total := FromBe32(s[..4]) as int;
      if total < HEADER_LENGTH then BadProtocol
      else if MAX_PAYLOAD < total - HEADER_LENGTH then BadLength
      else if |s| < 24 then Truncated
      else
        var length := FromBe32(s[20..24]) as int;
        if MAX_PAYLOAD < length then BadLength
        else if HEADER_LENGTH + length != total then BadProtocol
        else if |s| < 24 + length then Truncated
        else Got(Frame(s[4..20], s[24..24 + length]), s[24 + length..])
  }

  /** A frame is received from a stream exactly when its encoding begins the stream; nothing more is consumed. */
  lemma DecodeExactly(s: Bytes, f: Frame, rest: Bytes)
    ensures Decode(s) == Got(f, rest) <==> FrameOk(f) && s == Encode(f) + rest
  {
    if Decode(s) == Got(f, rest) {
      DecodedIsEncoding(s, f, rest);
    }
    if FrameOk(f) && s == Encode(f) + rest {
      EncodingDecodes(f, rest);
    }
  }

  lemma DecodedIsEncoding(s: Bytes, f: Frame, rest: Bytes)
    requires Decode(s) == Got(f, rest)
    ensures FrameOk(f) && s == Encode(f) + rest
  {
    Be32Onto(s[..4]);
    Be32Onto(s[20..24]);
    assert s == s[..4] + s[4..20] + s[20..24] + s[24..24 + |f.payload|] + s[24 + |f.payload|..];
  }

  lemma EncodingDecodes(f: Frame, rest: Bytes)
    requires FrameOk(f)
    ensures Decode(Encode(f) + rest) == Got(f, rest)
  {
    var s, n := Encode(f) + rest, |f.payload|;
    Be32RoundTrip(HEADER_LENGTH + n);
    Be32RoundTrip(n);
    assert s[..4] == Be32(HEADER_LENGTH + n) && s[4..20] == f.nonce && s[20..24] == Be32(n);
    assert s[24..24 + n] == f.payload && s[24 + n..] == rest;
  }

  function EncodeAll(fs: seq<Frame>): Bytes
    requires forall f | f in fs :: FrameOk(f)
  {
    if fs == [] then [] else Encode(fs[0]) + EncodeAll(fs[1..])
  }

  /** Receiving frames until the stream is used up; `None` when something else is found. */
  function DecodeAll(s: Bytes): Option<seq<Frame>>
    decreases |s|
  {
    if s == [] then Some([])
    else
      match Decode(s)
      case Got(f, rest) => if |rest| < |s| then Prepend(Some(f), DecodeAll(rest)) else None
      case _ => None
  }

  /** Any list of frames sent one after another is received as the same list, with nothing left over. */
  lemma {:induction false} StreamRoundTrip(fs: seq<Frame>)
    requires forall f | f in fs :: FrameOk(f)
    ensures DecodeAll(EncodeAll(fs)) == Some(fs)
  {
    hide Decode, Encode, FrameOk;
    if fs != [] {
      StreamRoundTrip(fs[1..]);
      EncodeNonempty(fs[0]);
      DecodeExactly(EncodeAll(fs), fs[0], EncodeAll(fs[1..]));
      assert fs == [fs[0]] + fs[1..];
    }
  }

  lemma EncodeNonempty(f: Frame)
    requires FrameOk(f)
    ensures 24 <= |Encode(f)|
  {
  }

  /** And a stream received as a list of frames is exactly what sending that list produces. */
  lemma {:induction false} StreamOnto(s: Bytes, fs: seq<Frame>)
    requires DecodeAll(s) == Some(fs)
    ensures (forall f | f in fs :: FrameOk(f)) && s == EncodeAll(fs)
    decreases |s|
  {
    hide Decode, Encode, FrameOk;
    if s != [] {
      var f, rest := Decode(s).frame, Decode(s).rest;
      StreamOnto(rest, fs[1..]);
      DecodeExactly(s, f, rest);
      assert fs == [f] + fs[1..];
    }
  }

  // ---------- over a socket ----------

  /**
   * `dsspacket_send`: length, header, payload. Too long a payload is refused before anything is sent; a failed
   * transfer has sent a prefix of the frame; and without failed transfers the splits do not matter.
   */
  method Send(s: Socket, o: ByteOrder, h: Header, payload: Bytes) returns (ok: bool)
    requires Htonl(o, h.lengthField) == |payload|
    modifies s`script, s`sent
    ensures var f := Frame(h.nonce, payload);
      if !FrameOk(f) then !ok && s.sent == old(s.sent) && s.script == old(s.script)
      else
        && (ok ==> s.sent == old(s.sent) + Encode(f))
        && old(s.sent) <= s.sent <= old(s.sent) + Encode(f)
        && (Unbroken(old(s.script)) ==> ok && Unbroken(s.script))
  {
    var length := Htonl(o, h.lengthField) as int;
    if length > MAX_PAYLOAD {
      return false;
    }
    var total := InMemory(o, Htonl(o, HEADER_LENGTH + length));
    FrameParts(o, h, payload);
    ghost var base, whole := s.sent, Encode(Frame(h.nonce, payload));
    ghost var n;
    hide Encode, InMemory, HeaderBytes, Htonl;
    ok, n := Put(s, total);
    Advance(base, whole, 0, total, n);
    if !ok {
      return false;
    }
    ok, n := Put(s, HeaderBytes(o, h));
    Advance(base, whole, 4, HeaderBytes(o, h), n);
    if !ok {
      return false;
    }
    if length > 0 {
      ok, n := Put(s, payload);
      Advance(base, whole, 24, payload, n);
    }
  }

  /** Sending part of the piece at position `at` of the whole. */
  lemma Advance(base: Bytes, whole: Bytes, at: nat, piece: Bytes, n: nat)
    requires at + |piece| <= |whole| && whole[at..at + |piece|] == piece && n <= |piece|
    ensures base + whole[..at] + piece[..n] == base + whole[..at + n] <= base + whole
    ensures at == 0 ==> base + piece[..n] == base + whole[..n]
    ensures at + n == |whole| ==> whole[..at + n] == whole
  {
    assert whole[..at] + piece[..n] == whole[..at + n];
    assert base + whole == base + whole[..at + n] + whole[at + n..];
  }

  lemma FrameParts(o: ByteOrder, h: Header, payload: Bytes)
    requires Htonl(o, h.lengthField) == |payload| && |payload| <= MAX_PAYLOAD
    ensures var whole := Encode(Frame(h.nonce, payload));
      && |whole| == 24 + |payload|
      && whole[..4] == InMemory(o, Htonl(o, HEADER_LENGTH + |payload|))
      && whole[4..24] == HeaderBytes(o, h) && whole[24..] == payload
  {
    NetworkOrder(o, HEADER_LENGTH + |payload|);
    NetworkOrder(o, |payload|);
    NetworkOrder(o, h.lengthField);
    hide InMemory, Htonl;
    var total := InMemory(o, Htonl(o, HEADER_LENGTH + |payload|));
    assert HeaderBytes(o, h) == h.nonce + Be32(|payload|);
    assert Encode(Frame(h.nonce, payload)) == total + HeaderBytes(o, h) + payload;
  }

  /** `dsspacket_recv`: on an unbroken socket the result is that of decoding the stream, whatever the splits. */
  method Recv(s: Socket, o: ByteOrder) returns (r: Option<(Header, Bytes)>, code: int)
    modifies s`script, s`incoming
    ensures r.Some? ==>
      && Decode(old(s.incoming)) == Got(Frame(r.value.0.nonce, r.value.1), s.incoming)
      && r.value.0 == HeaderFor(o, r.value.0.nonce, |r.value.1|)
    ensures r.Some? <==> code == 0
    ensures Unbroken(old(s.script)) ==> code == ReturnCode(Decode(old(s.incoming))) && Unbroken(s.script)
  {
    hide Htonl, FromBe32;
    ghost var stream := s.incoming;
    var ok, first := Take(s, 4);
    if !ok {
      return None, -3;
    }
    var total := FromBe32(first) as int;
    if total < HEADER_LENGTH {
      return None, -5;
    }
    if total - HEADER_LENGTH > MAX_PAYLOAD {
      return None, -2;
    }
    var raw;
    ok, raw := Take(s, HEADER_LENGTH);
    if !ok {
      return None, -3;
    }
    assert raw[..16] == stream[4..20] && raw[16..] == stream[20..24] && s.incoming == stream[24..];
    var h := FromWire(o, raw);
    var length := Htonl(o, h.lengthField) as int;
    if length > MAX_PAYLOAD {
      return None, -2;
    }
    if HEADER_LENGTH + length != total {
      return None, -5;
    }
    if length == 0 {
      assert stream[24..24] == [];
      return Some((h, [])), 0;
    }
    var payload;
    ok, payload := Take(s, length);
    if !ok {
      return None, -3;
    }
    assert payload == stream[24..24 + length] && s.incoming == stream[24 + length..];
    return Some((h, payload)), 0;
  }

  /** The header structure whose memory is these twenty bytes. */
  function FromWire(o: ByteOrder, raw: Bytes): (h: Header)
    requires |raw| == HEADER_LENGTH
    ensures h == HeaderFor(o, raw[..16], FromBe32(raw[16..])) && Htonl(o, h.lengthField) == FromBe32(raw[16..])
    ensures HeaderBytes(o, h) == raw
  {
    NetworkOrder(o, FromBe32(raw[16..]));
    Be32Onto(raw[16..]);
    HeaderFor(o, raw[..16], FromBe32(raw[16..]))
  }

  /** On the wire: the length of header and payload, the nonce, the length of the payload, the payload. */
  lemma FrameLayout(f: Frame)
    ensures FrameOk(f) <==> |f.payload| <= 10485760
    ensures FrameOk(f) ==>
      var w := Encode(f);
      && |w| == 4 + 16 + 4 + |f.payload|
      && BigEndian(w[..4]) == 20 + |f.payload| && w[4..20] == f.nonce
      && BigEndian(w[20..24]) == |f.payload| && w[24..] == f.payload
  {
    hide Be32;
    var n := |f.payload|;
    if FrameOk(f) {
      NetworkOrder32(20 + n);
      NetworkOrder32(n);
      assert Encode(f)[..4] == Be32(20 + n) && Encode(f)[20..24] == Be32(n);
    }
  }

  /**
   * What each failure of receiving means: -2 when a length announces more than 10 MiB of payload, -5 when the
   * first length does not even cover the header or the two lengths disagree, and -3 when the stream ends early.
   */
  lemma RefusalsExactly(s: Bytes)
    ensures ReturnCode(Decode(s)) == -2 <==>
      4 <= |s| && 20 <= BigEndian(s[..4])
        && (10485780 < BigEndian(s[..4]) || (24 <= |s| && 10485760 < BigEndian(s[20..24])))
    ensures ReturnCode(Decode(s)) == -5 <==>
      4 <= |s| && (BigEndian(s[..4]) < 20
        || (BigEndian(s[..4]) <= 10485780 && 24 <= |s| && BigEndian(s[20..24]) <= 10485760
            && BigEndian(s[..4]) != 20 + BigEndian(s[20..24])))
    ensures ReturnCode(Decode(s)) == 0 <==>
      24 <= |s| && BigEndian(s[20..24]) <= 10485760 && BigEndian(s[..4]) == 20 + BigEndian(s[20..24])
        && BigEndian(s[20..24]) <= |s| - 24
  {
    hide BigEndian, FromBe32;
    if 4 <= |s| {
      assert s[..4] == [s[0], s[1], s[2], s[3]];
      BigEndianOfFour(s[0], s[1], s[2], s[3]);
    }
    if 24 <= |s| {
      assert s[20..24] == [s[20], s[21], s[22], s[23]];
      BigEndianOfFour(s[20], s[21], s[22], s[23]);
    }
  }
}
