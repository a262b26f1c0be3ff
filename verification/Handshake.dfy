/** The handshake of `common/handshake.c` and its two sides in `client/main.c` and `server/main.c`. */
module Handshake {
  import opened Octets
  import opened Net

  const HS_CHLO: byte := 1
  const HS_SHLO: byte := 2
  const FRAME_HEADER := 5

  /** "c2s" and "s2c" */
  const LABEL_C2S: Bytes := [99, 50, 115]
  const LABEL_S2C: Bytes := [115, 50, 99]

  // ---------- frames: type, length, payload ----------

  function Encode(kind: byte, payload: Bytes): Bytes
    requires |payload| <= UINT32_MAX
  {
    [kind] + Be32(|payload|) + payload
  }

  /** `hs_recv_frame`: the payload of a frame of the expected type, and what follows it. */
  function Decode(s: Bytes, kind: byte): Option<(Bytes, Bytes)> {
    if |s| < FRAME_HEADER || s[0] != kind then None
    else
      var n := FromBe32(s[1..5]) as int;
      if |s| < FRAME_HEADER + n then None else Some((s[5..5 + n], s[5 + n..]))
  }

  lemma DecodeExactly(s: Bytes, kind: byte, payload: Bytes, rest: Bytes)
    ensures Decode(s, kind) == Some((payload, rest)) <==>
      |payload| <= UINT32_MAX && s == Encode(kind, payload) + rest
  {
    if Decode(s, kind) == Some((payload, rest)) {
      Be32Onto(s[1..5]);
      assert s == [s[0]] + s[1..5] + s[5..5 + |payload|] + s[5 + |payload|..];
    }
    if |payload| <= UINT32_MAX && s == Encode(kind, payload) + rest {
      Be32RoundTrip(|payload|);
      assert s[1..5] == Be32(|payload|) && s[5..5 + |payload|] == payload && s[5 + |payload|..] == rest;
    }
  }

  method SendFrame(s: Socket, kind: byte, payload: Bytes) returns (ok: bool)
    modifies s`script, s`sent
    ensures ok ==> |payload| <= UINT32_MAX && s.sent == old(s.sent) + Encode(kind, payload)
    ensures Unbroken(old(s.script)) ==> (ok <==> |payload| <= UINT32_MAX) && Unbroken(s.script)
  {
    if |payload| > UINT32_MAX {
      return false;
    }
    var header := [kind] + Be32(|payload|);
    ghost var n;
    ok, n := Put(s, header);
    if !ok {
      return false;
    }
    assert header[..|header|] == header && payload[..|payload|] == payload;
    if |payload| > 0 {
      ok, n := Put(s, payload);
    }
    assert old(s.sent) + header + payload == old(s.sent) + (header + payload);
  }

  method RecvFrame(s: Socket, kind: byte) returns (r: Option<Bytes>)
    modifies s`script, s`incoming
    ensures r.Some? ==> Decode(old(s.incoming), kind) == Some((r.value, s.incoming))
    ensures Unbroken(old(s.script)) ==> (r.Some? <==> Decode(old(s.incoming), kind).Some?) && Unbroken(s.script)
  {
    ghost var stream := s.incoming;
    var ok, header := Take(s, FRAME_HEADER);
    if !ok || header[0] != kind {
      return None;
    }
    assert header[1..] == stream[1..5];
    var n := FromBe32(header[1..]) as int;
    if n == 0 {
      assert stream[5..5] == [];
      return Some([]);
    }
    var payload;
    ok, payload := Take(s, n);
    if !ok {
      return None;
    }
    assert payload == stream[5..5 + n] && s.incoming == stream[5 + n..];
    return Some(payload);
  }

  // ---------- the server hello ----------

  function Shlo(pub: Bytes, sig: Bytes): Bytes
    requires |pub| <= UINT32_MAX && |sig| <= UINT32_MAX
  {
    Be32(|pub|) + pub + Be32(|sig|) + sig
  }

  /** Taking the payload apart as `hs_recv_shlo` does, check by check. */
  function ParseShlo(p: Bytes): Option<(Bytes, Bytes)> {
    if |p| < 8 then None
    else
      var n := FromBe32(p[..4]) as int;
      if |p| - 8 < n then None
      else
        var m := FromBe32(p[4 + n..8 + n]) as int;
        if m != |p| - 8 - n then None else Some((p[4..4 + n], p[8 + n..]))
  }

  /** A payload is accepted exactly when it is the encoding of a key and a signature, which it then yields. */
  lemma ShloExactly(p: Bytes, pub: Bytes, sig: Bytes)
    ensures ParseShlo(p) == Some((pub, sig)) <==>
      |pub| <= UINT32_MAX && |sig| <= UINT32_MAX && p == Shlo(pub, sig)
  {
    if ParseShlo(p) == Some((pub, sig)) {
      var n := |pub|;
      Be32Onto(p[..4]);
      Be32Onto(p[4 + n..8 + n]);
      assert p == p[..4] + p[4..4 + n] + p[4 + n..8 + n] + p[8 + n..];
    }
    if |pub| <= UINT32_MAX && |sig| <= UINT32_MAX && p == Shlo(pub, sig) {
      ShloParts(pub, sig);
    }
  }

  lemma ShloParts(pub: Bytes, sig: Bytes)
    requires |pub| <= UINT32_MAX && |sig| <= UINT32_MAX
    ensures ParseShlo(Shlo(pub, sig)) == Some((pub, sig))
  {
    var p, n := Shlo(pub, sig), |pub|;
    assert p[..4] == Be32(n) && p[4..4 + n] == pub && p[4 + n..8 + n] == Be32(|sig|) && p[8 + n..] == sig;
    Be32RoundTrip(n);
    Be32RoundTrip(|sig|);
  }

  /** The payload filled in behind a moving offset. */
  method FillShlo(pub: Bytes, sig: Bytes) returns (payload: array<byte>)
    requires |pub| <= UINT32_MAX && |sig| <= UINT32_MAX
    ensures fresh(payload) && payload[..] == Shlo(pub, sig)
  {
    payload := new byte[8 + |pub| + |sig|](_ => 0);
    var p := 0;
    CopyInto(payload, p, Be32(|pub|));
    p := p + 4;
    ghost var head := payload[..p];
    assert head == Be32(|pub|);
    CopyInto(payload, p, pub);
    p := p + |pub|;
    assert payload[..p] == head + pub;
    CopyInto(payload, p, Be32(|sig|));
    p := p + 4;
    assert payload[..p] == head + pub + Be32(|sig|);
    CopyInto(payload, p, sig);
    assert payload[..p + |sig|] == payload[..];
  }

  method SendShlo(s: Socket, pub: Bytes, sig: Bytes) returns (ok: bool)
    modifies s`script, s`sent
    ensures ok ==> |pub| <= UINT32_MAX && |sig| <= UINT32_MAX && 8 + |pub| + |sig| <= UINT32_MAX
    ensures ok ==> s.sent == old(s.sent) + Encode(HS_SHLO, Shlo(pub, sig))
    ensures Unbroken(old(s.script)) ==> (ok <==> 8 + |pub| + |sig| <= UINT32_MAX)
  {
    if |pub| > UINT32_MAX || |sig| > UINT32_MAX {
      return false;
    }
    var payload := FillShlo(pub, sig);
    ok := SendFrame(s, HS_SHLO, payload[..]);
  }

  method RecvShlo(s: Socket) returns (r: Option<(Bytes, Bytes)>)
    modifies s`script, s`incoming
    ensures r.Some? ==>
      Decode(old(s.incoming), HS_SHLO).Some? && r == ParseShlo(Decode(old(s.incoming), HS_SHLO).value.0)
    ensures Unbroken(old(s.script)) ==>
      (r.Some? <==> Decode(old(s.incoming), HS_SHLO).Some? && ParseShlo(Decode(old(s.incoming), HS_SHLO).value.0).Some?)
  {
    var frame := RecvFrame(s, HS_SHLO);
    if frame == None || |frame.value| < 8 {
      return None;
    }
    var payload := frame.value;
    var p := 0;
    var n := FromBe32(payload[p..p + 4]) as int;
    p := p + 4;
    if n > |payload| - 8 {
      return None;
    }
    var pub := payload[p..p + n];
    p := p + n;
    var m := FromBe32(payload[p..p + 4]) as int;
    p := p + 4;
    if m != |payload| - p {
      return None;
    }
    return Some((pub, payload[p..]));
  }

  /** Sending a server hello and receiving it is the identity whenever its length fits 32 bits. */
  lemma ShloRoundTrip(pub: Bytes, sig: Bytes, rest: Bytes)
    requires 8 + |pub| + |sig| <= UINT32_MAX
    ensures Decode(Encode(HS_SHLO, Shlo(pub, sig)) + rest, HS_SHLO) == Some((Shlo(pub, sig), rest))
    ensures ParseShlo(Shlo(pub, sig)) == Some((pub, sig))
  {
    DecodeExactly(Encode(HS_SHLO, Shlo(pub, sig)) + rest, HS_SHLO, Shlo(pub, sig), rest);
    ShloExactly(Shlo(pub, sig), pub, sig);
  }

  // ---------- key agreement ----------

  /**
   * ECDH over P-256, SHA-256, HKDF-SHA256 (RFC 5869 section 2) and the server's signature key, as parameters.
   */
  datatype Suite = Suite(
    ecdhPublic: nat -> Bytes,
    ecdh: (nat, Bytes) -> Option<Bytes>,
    sha256: Bytes -> Digest,
    hkdf: (Digest, Bytes, Bytes) -> Digest,
    signTranscript: (Bytes, nat) -> Bytes,
    verifyTranscript: (Bytes, Bytes) -> bool)

  /** Both sides compute one secret, and the client's copy of the public key accepts the server's signatures. */
  ghost predicate Ideal(h: Suite) {
    && (forall a, b {:trigger h.ecdh(a, h.ecdhPublic(b))} ::
         h.ecdh(a, h.ecdhPublic(b)).Some? && h.ecdh(a, h.ecdhPublic(b)) == h.ecdh(b, h.ecdhPublic(a)))
    && (forall a {:trigger h.ecdhPublic(a)} :: 0 < |h.ecdhPublic(a)| <= UINT16_MAX)
    && (forall t, r {:trigger h.signTranscript(t, r)} ::
         h.verifyTranscript(t, h.signTranscript(t, r)) && |h.signTranscript(t, r)| <= UINT16_MAX)
  }

  datatype Keys = Keys(c2s: Digest, s2c: Digest)

  /** `hs_derive_keys`: one HKDF output per direction, salted with the transcript hash. */
  function DeriveKeys(h: Suite, secret: Bytes, transcript: Bytes): Keys {
    Keys(h.hkdf(h.sha256(transcript), secret, LABEL_C2S), h.hkdf(h.sha256(transcript), secret, LABEL_S2C))
  }

  /** The server's side: its hello and the keys, from the client's bytes. */
  function ServerSide(h: Suite, b: nat, r: nat, stream: Bytes): Option<(Bytes, Keys)> {
    match Decode(stream, HS_CHLO)
    case None => None
    case Some((clientPub, _)) =>
      var pub := h.ecdhPublic(b);
      var transcript := clientPub + pub;
      var sig := h.signTranscript(transcript, r);
      if UINT32_MAX < 8 + |pub| + |sig| then None
      else
        var secret := if clientPub == [] then None else h.ecdh(b, clientPub);
        if secret.None? then None
        else Some((Encode(HS_SHLO, Shlo(pub, sig)), DeriveKeys(h, secret.value, transcript)))
  }

  /** The client's side after its hello: the keys, if the server's signature over both public keys verifies. */
  function ClientSide(h: Suite, a: nat, stream: Bytes): Option<Keys> {
    match Decode(stream, HS_SHLO)
    case None => None
    case Some((payload, _)) =>
      match ParseShlo(payload)
      case None => None
      case Some((serverPub, sig)) =>
        var transcript := h.ecdhPublic(a) + serverPub;
        if !h.verifyTranscript(transcript, sig) || serverPub == [] then None
        else
          match h.ecdh(a, serverPub)
          case None => None
          case Some(secret) => Some(DeriveKeys(h, secret, transcript))
  }

  method ServerHandshake(h: Suite, s: Socket, b: nat, r: nat) returns (keys: Option<Keys>)
    modifies s`script, s`sent, s`incoming
    ensures keys.Some? ==>
      var side := ServerSide(h, b, r, old(s.incoming));
      side.Some? && keys == Some(side.value.1) && s.sent == old(s.sent) + side.value.0
    ensures Unbroken(old(s.script)) ==> (keys.Some? <==> ServerSide(h, b, r, old(s.incoming)).Some?)
  {
    var clientPub := RecvFrame(s, HS_CHLO);
    if clientPub == None {
      return None;
    }
    var pub := h.ecdhPublic(b);
    var transcript := clientPub.value + pub;
    var sig := h.signTranscript(transcript, r);
    var sent := SendShlo(s, pub, sig);
    if !sent || clientPub.value == [] {
      return None;
    }
    var secret := h.ecdh(b, clientPub.value);
    if secret == None {
      return None;
    }
    return Some(DeriveKeys(h, secret.value, transcript));
  }

  method ClientHello(h: Suite, s: Socket, a: nat) returns (ok: bool)
    modifies s`script, s`sent
    ensures ok ==> |h.ecdhPublic(a)| <= UINT32_MAX && s.sent == old(s.sent) + Encode(HS_CHLO, h.ecdhPublic(a))
    ensures Unbroken(old(s.script)) && |h.ecdhPublic(a)| <= UINT32_MAX ==> ok
  {
    ok := SendFrame(s, HS_CHLO, h.ecdhPublic(a));
  }

  method ClientFinish(h: Suite, s: Socket, a: nat) returns (keys: Option<Keys>)
    modifies s`script, s`incoming
    ensures keys.Some? ==> keys == ClientSide(h, a, old(s.incoming))
    ensures Unbroken(old(s.script)) ==> keys == ClientSide(h, a, old(s.incoming))
  {
    var hello := RecvShlo(s);
    if hello == None {
      return None;
    }
    var (serverPub, sig) := hello.value;
    var transcript := h.ecdhPublic(a) + serverPub;
    if !h.verifyTranscript(transcript, sig) || serverPub == [] {
      return None;
    }
    var secret := h.ecdh(a, serverPub);
    if secret == None {
      return None;
    }
    return Some(DeriveKeys(h, secret.value, transcript));
  }

  /** An honest handshake completes on both sides with the same two directional keys. */
  lemma HonestHandshake(h: Suite, a: nat, b: nat, r: nat)
    requires Ideal(h)
    ensures var server := ServerSide(h, b, r, Encode(HS_CHLO, h.ecdhPublic(a)));
      server.Some? && ClientSide(h, a, server.value.0) == Some(server.value.1)
  {
    var clientPub, pub := h.ecdhPublic(a), h.ecdhPublic(b);
    var sig := h.signTranscript(clientPub + pub, r);
    assert Encode(HS_CHLO, clientPub) + [] == Encode(HS_CHLO, clientPub);
    DecodeExactly(Encode(HS_CHLO, clientPub), HS_CHLO, clientPub, []);
    var hello := Encode(HS_SHLO, Shlo(pub, sig));
    assert hello + [] == hello;
    ShloRoundTrip(pub, sig, []);
    assert h.ecdh(b, clientPub) == h.ecdh(a, pub);
  }

  // ---------- the layout on the wire, and who is refused ----------

  /** One type byte, the length in network order, the payload; a hello holds two such length-prefixed strings. */
  lemma WireLayout(kind: byte, payload: Bytes, pub: Bytes, sig: Bytes)
    requires |payload| <= UINT32_MAX && |pub| <= UINT32_MAX && |sig| <= UINT32_MAX
    ensures var f := Encode(kind, payload);
      f[0] == kind && BigEndian(f[1..5]) == |payload| && f[5..] == payload
    ensures var p, n := Shlo(pub, sig), |pub|;
      && BigEndian(p[..4]) == n && p[4..4 + n] == pub
      && BigEndian(p[4 + n..8 + n]) == |sig| && p[8 + n..] == sig
  {
    NetworkOrder32(|payload|);
    NetworkOrder32(|pub|);
    NetworkOrder32(|sig|);
    assert Encode(kind, payload)[1..5] == Be32(|payload|);
    var p, n := Shlo(pub, sig), |pub|;
    assert p[..4] == Be32(n) && p[4..4 + n] == pub && p[4 + n..8 + n] == Be32(|sig|) && p[8 + n..] == sig;
  }

  /** A server hello with this key and signature stands at the head of the stream. */
  ghost predicate Hello(stream: Bytes, pub: Bytes, sig: Bytes) {
    && |pub| <= UINT32_MAX && |sig| <= UINT32_MAX && |Shlo(pub, sig)| <= UINT32_MAX
    && exists rest :: stream == Encode(HS_SHLO, Shlo(pub, sig)) + rest
  }

  lemma HelloDecodes(stream: Bytes, pub: Bytes, sig: Bytes)
    ensures Hello(stream, pub, sig) <==>
      Decode(stream, HS_SHLO).Some? && ParseShlo(Decode(stream, HS_SHLO).value.0) == Some((pub, sig))
  {
    hide Encode, Shlo, Decode, ParseShlo;
    if Hello(stream, pub, sig) {
      var rest :| stream == Encode(HS_SHLO, Shlo(pub, sig)) + rest;
      DecodeExactly(stream, HS_SHLO, Shlo(pub, sig), rest);
      ShloExactly(Shlo(pub, sig), pub, sig);
    }
    if Decode(stream, HS_SHLO).Some? && ParseShlo(Decode(stream, HS_SHLO).value.0) == Some((pub, sig)) {
      var (payload, rest) := Decode(stream, HS_SHLO).value;
      DecodeExactly(stream, HS_SHLO, payload, rest);
      ShloExactly(payload, pub, sig);
    }
  }

  /**
   * The client ends with keys if and only if the stream begins with a server hello whose key is not empty, whose
   * signature over the client's key followed by the server's verifies, and with whose key an agreement succeeds.
   * A hello that the server's key did not sign gives no keys at all.
   */
  lemma ClientSideExactly(h: Suite, a: nat, stream: Bytes)
    ensures ClientSide(h, a, stream).Some? <==>
      exists pub, sig :: Hello(stream, pub, sig) && pub != []
        && h.verifyTranscript(h.ecdhPublic(a) + pub, sig) && h.ecdh(a, pub).Some?
    ensures forall pub, sig | Hello(stream, pub, sig) && ClientSide(h, a, stream).Some? ::
      h.verifyTranscript(h.ecdhPublic(a) + pub, sig) && h.ecdh(a, pub).Some?
      && ClientSide(h, a, stream) == Some(DeriveKeys(h, h.ecdh(a, pub).value, h.ecdhPublic(a) + pub))
  {
    hide Hello, Decode, ParseShlo, DeriveKeys;
    forall pub, sig | Hello(stream, pub, sig)
      ensures Decode(stream, HS_SHLO).Some? && ParseShlo(Decode(stream, HS_SHLO).value.0) == Some((pub, sig))
    {
      HelloDecodes(stream, pub, sig);
    }
    if ClientSide(h, a, stream).Some? {
      var (pub, sig) := ParseShlo(Decode(stream, HS_SHLO).value.0).value;
      HelloDecodes(stream, pub, sig);
    }
  }

  /** The server ends with keys if and only if a client hello with a usable key heads the stream. */
  lemma ServerSideExactly(h: Suite, b: nat, r: nat, stream: Bytes)
    requires forall t {:trigger h.signTranscript(t, r)} ::
               8 + |h.ecdhPublic(b)| + |h.signTranscript(t, r)| <= UINT32_MAX
    ensures ServerSide(h, b, r, stream).Some? <==>
      exists pub: Bytes, rest :: pub != [] && |pub| <= UINT32_MAX && stream == Encode(HS_CHLO, pub) + rest
        && h.ecdh(b, pub).Some?
    ensures forall pub: Bytes, rest | |pub| <= UINT32_MAX && stream == Encode(HS_CHLO, pub) + rest ::
      ServerSide(h, b, r, stream).Some? ==>
        var transcript := pub + h.ecdhPublic(b);
        && h.ecdh(b, pub).Some?
        && ServerSide(h, b, r, stream).value.0 ==
             Encode(HS_SHLO, Shlo(h.ecdhPublic(b), h.signTranscript(transcript, r)))
        && ServerSide(h, b, r, stream).value.1 == DeriveKeys(h, h.ecdh(b, pub).value, transcript)
  {
    hide Decode, DeriveKeys, Encode, Shlo;
    forall pub: Bytes, rest | |pub| <= UINT32_MAX && stream == Encode(HS_CHLO, pub) + rest
      ensures Decode(stream, HS_CHLO) == Some((pub, rest))
    {
      DecodeExactly(stream, HS_CHLO, pub, rest);
    }
    if ServerSide(h, b, r, stream).Some? {
      var (pub, rest) := Decode(stream, HS_CHLO).value;
      DecodeExactly(stream, HS_CHLO, pub, rest);
    }
  }

  /** HKDF keeps the labels "c2s" and "s2c" apart, and different salts apart. */
  ghost predicate Separates(h: Suite) {
    && (forall salt, secret {:trigger h.hkdf(salt, secret, [99, 50, 115])} ::
         h.hkdf(salt, secret, [99, 50, 115]) != h.hkdf(salt, secret, [115, 50, 99]))
    && (forall s, t, secret, l {:trigger h.hkdf(s, secret, l), h.hkdf(t, secret, l)} ::
         h.hkdf(s, secret, l) == h.hkdf(t, secret, l) ==> s == t)
  }

  /** The two directions never share a key, and both keys change with the hash of the two public keys. */
  lemma KeysSeparated(h: Suite, secret: Bytes, t: Bytes, u: Bytes)
    requires Separates(h)
    ensures DeriveKeys(h, secret, t).c2s != DeriveKeys(h, secret, t).s2c
    ensures h.sha256(t) != h.sha256(u) ==>
      DeriveKeys(h, secret, t).c2s != DeriveKeys(h, secret, u).c2s
      && DeriveKeys(h, secret, t).s2c != DeriveKeys(h, secret, u).s2c
  {
  }

  function Flipped(s: Digest): Digest {
    s[0 := 255 - s[0]]
  }

  lemma FlippedKeepsApart(s: Digest, t: Digest)
    ensures Flipped(s) != s
    ensures Flipped(s) == Flipped(t) ==> s == t
  {
    assert Flipped(s)[0] == 255 - s[0] && Flipped(t)[0] == 255 - t[0];
    if Flipped(s) == Flipped(t) {
      forall i | 0 <= i < 32 ensures s[i] == t[i] {
        assert i != 0 ==> Flipped(s)[i] == s[i] && Flipped(t)[i] == t[i];
      }
    }
  }

  /** One shared secret, signatures that always verify, and the salt as key, flipped for every label but "c2s". */
  function Simple(): Suite {
    Suite(
      (a: nat) => [4], (a: nat, p: Bytes) => Some([]), (b: Bytes) => seq(32, _ => 0),
      (s: Digest, k: Bytes, l: Bytes) => if l == [99, 50, 115] then s else Flipped(s),
      (t: Bytes, r: nat) => [], (t: Bytes, g: Bytes) => true)
  }

  /** The assumptions on key agreement, signatures and key derivation have a model. */
  lemma SimpleIsIdeal()
    ensures Ideal(Simple()) && Separates(Simple())
  {
    hide Flipped;
    var other: Bytes := [115, 50, 99];
    assert other[0] == 115;
    forall s: Digest, t: Digest ensures Flipped(s) != s && (Flipped(s) == Flipped(t) ==> s == t) {
      FlippedKeepsApart(s, t);
    }
  }
}
