/** The per-user key files: `server/storage.c`. */
module Keystore {
  import opened Octets
  import opened Crypto
  import opened PrivateBlob
  import opened TableText
  import opened TableFile
  import opened Disk
  import opened Auth

  const SLASH: byte := 47

  /** "dss-session:" */
  const SALT_PREFIX: Bytes := [100, 115, 115, 45, 115, 101, 115, 115, 105, 111, 110, 58]
  const SALT_MAX := 256

  datatype DeriveEnv = DeriveEnv(hashOk: bool, readOk: bool, rehashOk: bool)
  datatype SealEnv = SealEnv(randOk: bool, sealOk: bool, salt: Salt, iv: Iv)
  datatype CreateEnv = CreateEnv(
    mkdirOk: bool, keygenOk: bool, seed: nat, pubWrite: Outcome, pemOk: bool, seal: SealEnv, encWrite: Outcome,
    cleanPubOk: bool, cleanEncOk: bool)
  datatype SignEnv = SignEnv(readOk: bool, signOk: bool, nonce: nat)
  datatype DeleteEnv = DeleteEnv(write: WriteEnv, unlinkPubOk: bool, unlinkEncOk: bool, rmdirOk: bool)
  datatype ReencryptEnv = ReencryptEnv(readOk: bool, seal: SealEnv, write: Outcome)

  /** `ks_build_user_paths` accepts the name. */
  predicate PathName(user: Bytes) {
    user != [] && SLASH !in user
  }

  /** The salt `snprintf` builds fits its buffer. */
  predicate ShortName(user: Bytes) {
    |SALT_PREFIX| + |user| < SALT_MAX
  }

  /** The key under which a user's private key is wrapped, derived from the password at login. */
  function WrapKey(c: Suite, user: Bytes, password: Bytes): Digest {
    c.pbkdf2(password, SALT_PREFIX + user)
  }

  function IsDeleted(users: seq<User>, user: Bytes): Option<bool> {
    match RecordOf(users, user) case Some(u) => Some(u.deleted) case None => None
  }

  /** `ks_derive_session_key`: the content of the key buffer afterwards, and success. */
  function DeriveKey(c: Suite, files: Files, user: Bytes, password: Bytes, e: DeriveEnv, buffer: Digest)
    : (Digest, bool)
  {
    if !ShortName(user) || !e.hashOk then (buffer, false)
    else
      var key := WrapKey(c, user, password);
      if !PathName(user) then (key, false)
      else if PrivateEnc(user) !in files || !e.readOk then (key, true)
      else
        var blob := files[PrivateEnc(user)];
        if HEADER_LENGTH <= |blob| && blob[..4] == MAGIC && blob[4] == 1 then
          if e.rehashOk then (c.pbkdf2(password, blob[5..21]), true) else (key, false)
        else (key, true)
  }

  function Sealing(c: Suite, key: Digest, e: SealEnv, plain: Bytes): Option<Bytes>
    requires AeadIdeal(c)
  {
    if e.randOk && e.sealOk then SealBlob(c, key, e.salt, e.iv, plain) else None
  }

  function CleanedUp(files: Files, user: Bytes, e: CreateEnv): Files {
    Removed(Removed(files, PublicPem(user), e.cleanPubOk), PrivateEnc(user), e.cleanEncOk)
  }

  /** `ks_create_keys_session`: public key first, then the wrapped private key; both removed on failure. */
  function CreateKeys(c: Suite, users: seq<User>, files: Files, user: Bytes, key: Digest, e: CreateEnv): (Files, bool)
    requires AeadIdeal(c)
  {
    if IsDeleted(users, user) != Some(false) || !PathName(user) then (files, false)
    else if PublicPem(user) in files && PrivateEnc(user) in files then (files, true)
    else if !e.mkdirOk then (files, false)
    else if !e.keygenOk then (CleanedUp(files, user, e), false)
    else
      var published := Written(files, PublicPem(user), c.publicPem(e.seed), e.pubWrite);
      var blob := Sealing(c, key, e.seal, c.privatePem(e.seed));
      if !e.pubWrite.Done? || !e.pemOk || blob.None? then (CleanedUp(published, user, e), false)
      else
        var stored := Written(published, PrivateEnc(user), blob.value, e.encWrite);
        if e.encWrite.Done? then (stored, true) else (CleanedUp(stored, user, e), false)
  }

  /** `ks_sign_doc_session`. */
  function SignDoc(c: Suite, users: seq<User>, files: Files, user: Bytes, key: Digest, doc: Bytes, e: SignEnv)
    : Option<Bytes>
  {
    if IsDeleted(users, user) != Some(false) || !PathName(user) || PrivateEnc(user) !in files || !e.readOk then None
    else
      var pem := OpenBlob(c, key, files[PrivateEnc(user)]);
      if pem.None? || !e.signOk then None else c.sign(pem.value, doc, e.nonce)
  }

  /** `ks_get_public`. */
  function GetPublic(files: Files, user: Bytes, readOk: bool): Option<Bytes> {
    if PathName(user) && PublicPem(user) in files && readOk then Some(files[PublicPem(user)]) else None
  }

  /** `ks_delete_keys`: tombstone first, then the two files, then the directory. */
  function DeleteKeys(users: seq<User>, files: Files, user: Bytes, e: DeleteEnv): Result {
    if !PathName(user) then Result(users, files, false)
    else
      var marked := SetDeleted(users, files, user, true, e.write);
      if !marked.ok then marked
      else
        var noPub := Removed(marked.files, PublicPem(user), e.unlinkPubOk);
        if PublicPem(user) in noPub then Result(marked.users, marked.files, false)
        else
          var noEnc := Removed(noPub, PrivateEnc(user), e.unlinkEncOk);
          Result(marked.users, noEnc, PrivateEnc(user) !in noEnc && e.rmdirOk)
  }

  /** `ks_reencrypt_private_for_new_session_key`: an unreadable file counts as absent. */
  function Reencrypt(c: Suite, files: Files, user: Bytes, key: Digest, newKey: Digest, e: ReencryptEnv): (Files, bool)
    requires AeadIdeal(c)
  {
    if !PathName(user) then (files, false)
    else if PrivateEnc(user) !in files || !e.readOk then (files, true)
    else
      var pem := OpenBlob(c, key, files[PrivateEnc(user)]);
      if pem.None? then (files, false)
      else
        var blob := Sealing(c, newKey, e.seal, pem.value);
        if blob.None? then (files, false)
        else (Written(files, PrivateEnc(user), blob.value, e.write), e.write.Done?)
  }

  // ---------- the same operations step by step ----------

  method DeriveSessionKey(c: Suite, fs: FileSystem, user: Bytes, password: Bytes, e: DeriveEnv, buffer: Digest)
    returns (key: Digest, ok: bool)
    ensures (key, ok) == DeriveKey(c, fs.files, user, password, e, buffer)
  {
    key := buffer;
    if SALT_MAX <= |SALT_PREFIX + user| || !e.hashOk {
      return key, false;
    }
    key := c.pbkdf2(password, SALT_PREFIX + user);
    if !PathName(user) {
      return key, false;
    }
    if PrivateEnc(user) !in fs.files || !e.readOk {
      return key, true;
    }
    var blob := fs.files[PrivateEnc(user)];
    if HEADER_LENGTH <= |blob| && blob[..4] == MAGIC && blob[4] == 1 {
      if !e.rehashOk {
        return key, false;
      }
      key := c.pbkdf2(password, blob[5..21]);
    }
    return key, true;
  }

  method SealPem(c: Suite, key: Digest, e: SealEnv, plain: Bytes) returns (blob: Option<Bytes>)
    requires AeadIdeal(c)
    ensures blob == Sealing(c, key, e, plain)
  {
    if !e.randOk || !e.sealOk {
      return None;
    }
    var out := SealInto(c, key, e.salt, e.iv, plain);
    return if out.None? then None else Some(out.value[..]);
  }

  method CleanUp(fs: FileSystem, user: Bytes, e: CreateEnv)
    modifies fs
    ensures fs.files == CleanedUp(old(fs.files), user, e)
  {
    fs.Unlink(PublicPem(user), e.cleanPubOk);
    fs.Unlink(PrivateEnc(user), e.cleanEncOk);
  }

  method CreateKeysSession(c: Suite, db: UserDb, user: Bytes, key: Digest, e: CreateEnv) returns (ok: bool)
    requires AeadIdeal(c)
    modifies db.fs
    ensures (db.fs.files, ok) == CreateKeys(c, db.users, old(db.fs.files), user, key, e)
  {
    var fs := db.fs;
    var deleted := db.GetDeleted(user);
    if deleted == None || deleted.value || !PathName(user) {
      return false;
    }
    if PublicPem(user) in fs.files && PrivateEnc(user) in fs.files {
      return true;
    }
    if !e.mkdirOk {
      return false;
    }
    if !e.keygenOk {
      CleanUp(fs, user, e);
      return false;
    }
    var published := fs.Write(PublicPem(user), c.publicPem(e.seed), e.pubWrite);
    if !published || !e.pemOk {
      CleanUp(fs, user, e);
      return false;
    }
    var blob := SealPem(c, key, e.seal, c.privatePem(e.seed));
    if blob == None {
      CleanUp(fs, user, e);
      return false;
    }
    var stored := fs.Write(PrivateEnc(user), blob.value, e.encWrite);
    if !stored {
      CleanUp(fs, user, e);
      return false;
    }
    return true;
  }

  method SignDocSession(c: Suite, db: UserDb, user: Bytes, key: Digest, doc: Bytes, e: SignEnv)
    returns (sig: Option<Bytes>)
    ensures sig == SignDoc(c, db.users, db.fs.files, user, key, doc, e)
  {
    var deleted := db.GetDeleted(user);
    if deleted == None || deleted.value || !PathName(user) || PrivateEnc(user) !in db.fs.files || !e.readOk {
      return None;
    }
    var pem := OpenBlob(c, key, db.fs.files[PrivateEnc(user)]);
    if pem == None || !e.signOk {
      return None;
    }
    return c.sign(pem.value, doc, e.nonce);
  }

  predicate SameKeyFiles(a: Files, b: Files, user: Bytes) {
    && (PublicPem(user) in a ==> PublicPem(user) in b && a[PublicPem(user)] == b[PublicPem(user)])
    && (PrivateEnc(user) in a ==> PrivateEnc(user) in b && a[PrivateEnc(user)] == b[PrivateEnc(user)])
  }

  /** The tombstone of a user is on disk. */
  predicate TombstoneOnDisk(files: Files, users: seq<User>, user: Bytes) {
    UserTable in files && files[UserTable] == Print(users) && IsDeleted(users, user) == Some(true)
  }

  /** Every state from position `from` on still has the key files, or already has the tombstone. */
  ghost predicate TombstoneFirst(states: seq<Files>, from: nat, start: Files, users: seq<User>, user: Bytes) {
    forall i | from <= i < |states| :: SameKeyFiles(start, states[i], user) || TombstoneOnDisk(states[i], users, user)
  }

  method MarkTombstone(db: UserDb, user: Bytes, w: WriteEnv) returns (ok: bool)
    requires db.loaded
    modifies db`users, db.fs
    ensures Result(db.users, db.fs.files, ok) == SetDeleted(old(db.users), old(db.fs.files), user, true, w)
    ensures ok ==> TombstoneOnDisk(db.fs.files, db.users, user)
    ensures old(db.fs.history) <= db.fs.history
    ensures TombstoneFirst(db.fs.history, |old(db.fs.history)|, old(db.fs.files), db.users, user)
  {
    ok := db.MarkDeleted(user, true, w);
    if ok {
      var i := Find(old(db.users), user).value;
      FindAfterUpdate(old(db.users), i, old(db.users)[i].(deleted := true), user);
    }
    assert SameKeyFiles(old(db.fs.files), db.fs.files, user);
    TableSwapKeepsKeys(old(db.fs.files), db.fs.files, db.fs.history, |old(db.fs.history)|, user);
  }

  method UnlinkKeyFiles(fs: FileSystem, user: Bytes, e: DeleteEnv) returns (ok: bool)
    modifies fs
    ensures var noPub := Removed(old(fs.files), PublicPem(user), e.unlinkPubOk);
      var noEnc := Removed(noPub, PrivateEnc(user), e.unlinkEncOk);
      if PublicPem(user) in noPub then !ok && fs.files == old(fs.files)
      else fs.files == noEnc && ok == (PrivateEnc(user) !in noEnc)
    ensures old(fs.history) <= fs.history
    ensures forall i | |old(fs.history)| <= i < |fs.history| ::
              UserTable in fs.history[i] <==> UserTable in old(fs.files)
    ensures forall i | |old(fs.history)| <= i < |fs.history| && UserTable in old(fs.files) ::
              fs.history[i][UserTable] == old(fs.files)[UserTable]
  {
    if PublicPem(user) in fs.files {
      fs.Unlink(PublicPem(user), e.unlinkPubOk);
      if PublicPem(user) in fs.files {
        return false;
      }
    }
    if PrivateEnc(user) in fs.files {
      fs.Unlink(PrivateEnc(user), e.unlinkEncOk);
    }
    return PrivateEnc(user) !in fs.files;
  }

  /** In every state a crash could leave, key files are missing or changed only if the tombstone is already on disk. */
  method DeleteKeyFiles(db: UserDb, user: Bytes, e: DeleteEnv) returns (ok: bool)
    requires db.loaded
    modifies db`users, db.fs
    ensures Result(db.users, db.fs.files, ok) == DeleteKeys(old(db.users), old(db.fs.files), user, e)
    ensures old(db.fs.history) <= db.fs.history
    ensures TombstoneFirst(db.fs.history, |old(db.fs.history)|, old(db.fs.files), db.users, user)
  {
    if !PathName(user) {
      return false;
    }
    var marked := MarkTombstone(db, user, e.write);
    if !marked {
      return false;
    }
    ghost var mid := db.fs.history;
    var removed := UnlinkKeyFiles(db.fs, user, e);
    assert forall i | |old(db.fs.history)| <= i < |mid| :: db.fs.history[i] == mid[i];
    return removed && e.rmdirOk;
  }

  lemma TableSwapKeepsKeys(start: Files, to: Files, states: seq<Files>, from: nat, user: Bytes)
    requires forall i | from <= i < |states| :: states[i] == to || states[i] - {UserTableTmp} == start - {UserTableTmp}
    ensures forall i | from <= i < |states| :: states[i] == to || SameKeyFiles(start, states[i], user)
  {
    forall i | from <= i < |states| && states[i] != to ensures SameKeyFiles(start, states[i], user) {
      var pub, enc := PublicPem(user), PrivateEnc(user);
      assert pub in start ==> pub in start - {UserTableTmp} && pub in states[i] - {UserTableTmp};
      assert enc in start ==> enc in start - {UserTableTmp} && enc in states[i] - {UserTableTmp};
    }
  }

  method ReencryptPrivate(c: Suite, fs: FileSystem, user: Bytes, key: Digest, newKey: Digest, e: ReencryptEnv)
    returns (ok: bool)
    requires AeadIdeal(c)
    modifies fs
    ensures (fs.files, ok) == Reencrypt(c, old(fs.files), user, key, newKey, e)
  {
    if !PathName(user) {
      return false;
    }
    if PrivateEnc(user) !in fs.files || !e.readOk {
      return true;
    }
    var pem := OpenBlob(c, key, fs.files[PrivateEnc(user)]);
    if pem == None {
      return false;
    }
    var blob := SealPem(c, newKey, e.seal, pem.value);
    if blob == None {
      return false;
    }
    ok := fs.Write(PrivateEnc(user), blob.value, e.write);
  }
}
