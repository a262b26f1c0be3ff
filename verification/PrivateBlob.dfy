/** The encrypted private-key file of `server/storage.c`: a 53-byte header, then the ciphertext. */
module PrivateBlob {
  import opened Octets
  import opened Crypto

  /** "DSS1" */
  const MAGIC: Bytes := [68, 83, 83, 49]
  const HEADER_LENGTH := 53

  /** The file layout: magic, version, salt, IV, tag, ciphertext length, ciphertext. */
  function Layout(version: byte, salt: Salt, iv: Iv, s: Sealed): (b: Bytes)
    requires |s.text| <= UINT32_MAX
    ensures |b| == HEADER_LENGTH + |s.text|
  {
    MAGIC + [version] + salt + iv + s.tag + Be32(|s.text|) + s.text
  }

  lemma LayoutFields(version: byte, salt: Salt, iv: Iv, s: Sealed)
    requires |s.text| <= UINT32_MAX
    ensures var b := Layout(version, salt, iv, s);
      && b[..4] == MAGIC && b[4] == version && b[5..21] == salt && b[21..33] == iv && b[33..49] == s.tag
      && b[49..53] == Be32(|s.text|) && b[53..] == s.text
  {
  }

  /** Encrypting a PEM for the file; the library takes lengths as `int`, so longer inputs fail. */
  function SealBlob(c: Suite, key: Digest, salt: Salt, iv: Iv, plain: Bytes): (b: Option<Bytes>)
    requires AeadIdeal(c)
  {
    if INT_MAX < |plain| then None else Some(Layout(2, salt, iv, c.seal(key, iv, [], plain)))
  }

  function OpenBlob(c: Suite, key: Digest, blob: Bytes): Option<Bytes> {
    if |blob| < HEADER_LENGTH || blob[..4] != MAGIC then None
    else
      var length := FromBe32(blob[49..53]);
      if |blob| != HEADER_LENGTH + length || INT_MAX < length then None
      else c.open(key, blob[21..33], [], Sealed(blob[53..], blob[33..49]))
  }

  /** The bytes of a version-2 file, built in place as the source fills its buffer. */
  method SealInto(c: Suite, key: Digest, salt: Salt, iv: Iv, plain: Bytes) returns (out: Option<array<byte>>)
    requires AeadIdeal(c)
    ensures out.None? <==> SealBlob(c, key, salt, iv, plain).None?
    ensures out.Some? ==> fresh(out.value) && out.value[..] == SealBlob(c, key, salt, iv, plain).value
  {
    hide Be32;
    if INT_MAX < |plain| {
      return None;
    }
    var buf := new byte[HEADER_LENGTH + |plain|](_ => 0);
    CopyInto(buf, 0, MAGIC);
    buf[4] := 2;
    assert buf[..5] == MAGIC + [2];
    CopyInto(buf, 5, salt);
    CopyInto(buf, 21, iv);
    ghost var head := MAGIC + [2] + salt + iv;
    assert buf[..33] == head;
    var sealed := c.seal(key, iv, [], plain);
    CopyInto(buf, HEADER_LENGTH, sealed.text);
    assert buf[..33] == buf[..HEADER_LENGTH][..33] == head;
    assert buf[HEADER_LENGTH..] == buf[..HEADER_LENGTH + |plain|][HEADER_LENGTH..] == sealed.text;
    CopyInto(buf, 33, sealed.tag);
    assert buf[HEADER_LENGTH..] == buf[49..][4..] == sealed.text;
    PutLength(buf, |sealed.text|);
    assert buf[..HEADER_LENGTH] == head + sealed.tag + Be32(|sealed.text|);
    assert buf[..] == buf[..HEADER_LENGTH] + buf[HEADER_LENGTH..];
    out := Some(buf);
  }

  /** The big-endian ciphertext length at offset 49. */
  method PutLength(buf: array<byte>, length: u32)
    requires HEADER_LENGTH <= buf.Length
    modifies buf
    ensures buf[..HEADER_LENGTH] == old(buf[..49]) + Be32(length)
    ensures buf[HEADER_LENGTH..] == old(buf[HEADER_LENGTH..])
  {
    buf[49] := length / 0x100_0000;
    buf[50] := length / 0x1_0000 % 256;
    buf[51] := length / 0x100 % 256;
    buf[52] := length % 256;
  }

  /** Whatever was sealed under a key opens under it again, for every plaintext the library accepts. */
  lemma BlobRoundTrip(c: Suite, key: Digest, salt: Salt, iv: Iv, plain: Bytes)
    requires AeadIdeal(c) && |plain| <= INT_MAX
    ensures OpenBlob(c, key, SealBlob(c, key, salt, iv, plain).value) == Some(plain)
  {
    var s := c.seal(key, iv, [], plain);
    LayoutFields(2, salt, iv, s);
    Be32RoundTrip(|s.text|);
  }

  /** A file opens exactly when it is a layout (of any version byte and salt) whose ciphertext opens. */
  lemma OpensExactlyLayouts(c: Suite, key: Digest, blob: Bytes, plain: Bytes)
    ensures OpenBlob(c, key, blob) == Some(plain) <==>
      exists v: byte, salt: Salt, iv: Iv, s: Sealed ::
        |s.text| <= INT_MAX && blob == Layout(v, salt, iv, s) && c.open(key, iv, [], s) == Some(plain)
  {
    if OpenBlob(c, key, blob) == Some(plain) {
      var s := Sealed(blob[53..], blob[33..49]);
      Be32Onto(blob[49..53]);
      var salt: Salt := blob[5..21];
      var iv: Iv := blob[21..33];
      assert blob == Layout(blob[4], salt, iv, s);
    }
    forall v: byte, salt: Salt, iv: Iv, s: Sealed |
      |s.text| <= INT_MAX && blob == Layout(v, salt, iv, s) && c.open(key, iv, [], s) == Some(plain)
      ensures OpenBlob(c, key, blob) == Some(plain)
    {
      LayoutFields(v, salt, iv, s);
      Be32RoundTrip(|s.text|);
    }
  }

  /** The file begins with "DSS1" and version 2; salt, IV, tag and length follow, then the ciphertext. */
  lemma BlobFormat(c: Suite, key: Digest, salt: Salt, iv: Iv, plain: Bytes)
    requires AeadIdeal(c)
    ensures SealBlob(c, key, salt, iv, plain).Some? <==> |plain| <= 0x7FFF_FFFF
    ensures var b := SealBlob(c, key, salt, iv, plain);
      b.Some? ==>
        var sealed := c.seal(key, iv, [], plain);
        && |b.value| == 53 + |plain| && b.value[..5] == [68, 83, 83, 49, 2]
        && b.value[5..21] == salt && b.value[21..33] == iv && b.value[33..49] == sealed.tag
        && BigEndian(b.value[49..53]) == |plain| && b.value[53..] == sealed.text
  {
    hide Be32;
    if |plain| <= INT_MAX {
      var sealed := c.seal(key, iv, [], plain);
      LayoutFields(2, salt, iv, sealed);
      NetworkOrder32(|sealed.text|);
      var b := Layout(2, salt, iv, sealed);
      assert b[..5] == b[..4] + [b[4]];
    }
  }
}
