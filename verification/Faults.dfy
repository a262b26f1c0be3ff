/** Exactly which failures of a password change lose the private key, and which accounts can change their password. */
module Faults {
  import opened Octets
  import opened Crypto
  import opened PrivateBlob
  import opened TableText
  import opened TableFile
  import opened Disk
  import opened Auth
  import opened Keystore
  import opened Requests
  import opened Server
  import opened Coherence

  lemma OpenedFits(c: Suite, key: Digest, blob: Bytes)
    requires AeadIdeal(c) && OpenBlob(c, key, blob).Some?
    ensures |OpenBlob(c, key, blob).value| <= INT_MAX
  {
  }

  /**
   * With no failing call, a well-formed CHANGE_PASSWORD succeeds exactly when there is no private key file or it
   * opens under the session key. A file left over from before a re-registration therefore blocks the change.
   */
  lemma ChangeSucceedsExactly(c: Suite, s: State, pt: Bytes, e: Env)
    requires AeadIdeal(c) && RequestOk(s.users, e) && pt != [] && pt[0] == OP_CHANGE_PASSWORD
    requires s.session.authenticated && s.session.hasKey && !s.session.deleted && ParseChange(pt).Some?
    requires PathName(s.session.username) && ShortName(s.session.username)
    requires RecordOf(s.users, s.session.username).Some?
    ensures Handle(c, s, pt, e).status == Ok <==>
      (PrivateEnc(s.session.username) in s.files ==>
         OpenBlob(c, s.session.key, s.files[PrivateEnc(s.session.username)]).Some?)
  {
    hide Create, Sign, Delete, Authenticate, Lookup, OpenBlob, AeadIdeal, WrapKey, ParseChange;
    var user := s.session.username;
    if PrivateEnc(user) in s.files && OpenBlob(c, s.session.key, s.files[PrivateEnc(user)]).Some? {
      OpenedFits(c, s.session.key, s.files[PrivateEnc(user)]);
    }
  }

  /** The account a stale private key file leaves behind: no request but AUTH and LOGOUT changes anything. */
  lemma StaleBlobLocksAccount(c: Suite, s: State, pt: Bytes, e: Env)
    requires AeadIdeal(c) && pt != [] && pt[0] != OP_AUTH && pt[0] != OP_LOGOUT
    requires s.session.authenticated && s.session.mustChange && PrivateEnc(s.session.username) in s.files
    requires s.session.hasKey ==> OpenBlob(c, s.session.key, s.files[PrivateEnc(s.session.username)]).None?
    requires e.reencrypt.readOk
    ensures Handle(c, s, pt, e).state == s && Handle(c, s, pt, e).status != Ok
  {
    hide Create, Sign, Delete, Authenticate, Lookup, OpenBlob, AeadIdeal, DeriveKey, ParseChange;
  }

  /** The new key does not open the old blob, nor the old key the new blob or a torn file. */
  ghost predicate Apart(c: Suite, s: State, newKey: Digest, pem: Bytes, r: ReencryptEnv)
    requires AeadIdeal(c)
  {
    var before := Get(s.files, PrivateEnc(s.session.username));
    var rewrapped := SealBlob(c, newKey, r.seal.salt, r.seal.iv, pem);
    && (before.Some? ==> OpenBlob(c, newKey, before.value).None?)
    && (rewrapped.Some? ==> OpenBlob(c, s.session.key, rewrapped.value).None?)
    && (r.write.Torn? ==> OpenBlob(c, s.session.key, r.write.left).None?)
  }

  predicate Untouched(r: ReencryptEnv) {
    !r.readOk || !SealOk(r.seal) || r.write.NotOpened?
  }

  /** Whether the re-wrapping reports success, so that the change goes on to the table. */
  predicate Rewraps(r: ReencryptEnv) {
    if Untouched(r) then !r.readOk else r.write.Done?
  }

  /** The key files after the re-wrapping: as before, re-wrapped for the new password, or of no use to the old key. */
  lemma BlobAfter(c: Suite, s: State, newKey: Digest, v: User, e: ReencryptEnv, seed: nat)
    requires Ideal(c) && HoldsPair(c, s.files, s.users, s.session.username, seed) && PathName(s.session.username)
    requires KeyOf(c, RecordOf(s.users, s.session.username).value, s.session.key) && KeyOf(c, v, newKey)
    requires AeadIdeal(c) && Apart(c, s, newKey, c.privatePem(seed), e)
    ensures var user := s.session.username;
      var (after, ok) := Reencrypt(c, s.files, user, s.session.key, newKey, e);
      && Get(after, PublicPem(user)) == Get(s.files, PublicPem(user)) && PrivateEnc(user) in after
      && Get(after, UserTable) == Get(s.files, UserTable)
      && (ok <==> Rewraps(e))
      && (if Untouched(e) then after == s.files else OpenBlob(c, s.session.key, after[PrivateEnc(user)]).None?)
      && (ok && !Untouched(e) ==>
           HEADER_LENGTH <= |after[PrivateEnc(user)]| && after[PrivateEnc(user)][4] == 2
           && OpensFor(c, v, after[PrivateEnc(user)], c.privatePem(seed)))
  {
    hide HashIdeal, SignatureIdeal, SealBlob, OpenBlob, OpensFor, KeyOf;
    var user := s.session.username;
    OpensForKey(c, RecordOf(s.users, user).value, s.session.key, s.files[PrivateEnc(user)], c.privatePem(seed));
    PemFits(c, seed);
    SealedOpensFor(c, v, newKey, e.seal.salt, e.seal.iv, c.privatePem(seed));
  }

  /** With the pair's files as the re-wrapping left them, the key is kept for the record the table now holds. */
  lemma KeptFor(c: Suite, s: State, files: Files, t: seq<User>, key: Digest, seed: nat)
    requires PathName(s.session.username) && ShortName(s.session.username) && RecordOf(t, s.session.username).Some?
    requires var rec := RecordOf(t, s.session.username).value; !rec.deleted && KeyOf(c, rec, key)
    requires Get(files, PublicPem(s.session.username)) == Some(c.publicPem(seed))
    requires PrivateEnc(s.session.username) in files
    requires var enc := files[PrivateEnc(s.session.username)];
      OpenBlob(c, key, enc).Some? ==>
        HEADER_LENGTH <= |enc| && enc[4] == 2
        && OpensFor(c, RecordOf(t, s.session.username).value, enc, c.privatePem(seed))
    ensures KeyKept(c, files, t, s.session.username) <==> OpenBlob(c, key, files[PrivateEnc(s.session.username)]).Some?
  {
    hide OpenBlob, OpensFor, KeyOf, RecordOf, PathName, ShortName;
    var user := s.session.username;
    var enc := files[PrivateEnc(user)];
    if OpenBlob(c, key, enc).Some? {
      assert HoldsPair(c, files, t, user, seed);
    }
    if KeyKept(c, files, t, user) {
      var kept :| HoldsPair(c, files, t, user, kept);
      OpensForKey(c, RecordOf(t, user).value, key, enc, c.privatePem(kept));
    }
  }

  /** The failures after which the blob still matches a record, which changes under a condition if all else succeeds. */
  predicate Harmless(e: Env, recordChanges: bool) {
    if !e.derive.hashOk then true
    else if !e.reencrypt.readOk then !recordChanges
    else if Untouched(e.reencrypt) then true
    else e.reencrypt.write.Done? && recordChanges
  }

  /** What one password change meets: a coherent state with stored keys, and keys the AEAD keeps apart. */
  ghost predicate Changing(c: Suite, s: State, pt: Bytes, e: Env, seed: nat) {
    && Ideal(c) && StateCoherent(c, s) && s.session.authenticated && s.session.hasKey && !s.session.deleted
    && ParseChange(pt).Some? && HoldsPair(c, s.files, s.users, s.session.username, seed)
    && Apart(c, s, WrapKey(c, s.session.username, ParseChange(pt).value), c.privatePem(seed), e.reencrypt)
  }

  /** The table as a password change would leave it. */
  function Rewritten(c: Suite, s: State, password: Bytes, p: PasswordEnv): seq<User>
    requires Find(s.users, s.session.username).Some?
  {
    var i := Find(s.users, s.session.username).value;
    s.users[i := WithPassword(c, s.users[i], password, p.salt)]
  }

  /** Deriving the new key and re-wrapping report success, so that the change goes on to the table. */
  predicate GoesOn(e: Env) {
    e.derive.hashOk && Rewraps(e.reencrypt)
  }

  /** Without a new key nothing changes. */
  lemma UnderivedIdle(c: Suite, s: State, pt: Bytes, e: Env, seed: nat)
    requires Changing(c, s, pt, e, seed) && !e.derive.hashOk
    ensures Change(c, s, pt, e).state == s && KeyKept(c, s.files, s.users, s.session.username)
    ensures TableOn(s.files) == Some(s.users)
  {
    hide Records, WellFormed, Apart, Ideal, ParseChange, Holds;
  }

  /** A table that holds either the old record or the new one, against the key files a password change leaves. */
  lemma KeptExactly(c: Suite, s: State, pt: Bytes, e: Env, seed: nat, t: seq<User>, changed: bool)
    requires Changing(c, s, pt, e, seed) && e.derive.hashOk
    requires t == if changed && GoesOn(e) then Rewritten(c, s, ParseChange(pt).value, e.password) else s.users
    ensures KeyKept(c, Change(c, s, pt, e).state.files, t, s.session.username) <==> Harmless(e, changed)
  {
    hide Records, KeysKept, WellFormed, DeriveKey, Reencrypt, HashIdeal, SignatureIdeal, SealBlob, OpenBlob,
      ParseChange, WrapKey, OpensFor, KeyOf, WriteSucceeds, SealOk, PathName, ShortName,
      Find, AeadIdeal, Print;
    var user, a := s.session.username, Change(c, s, pt, e).state;
    var i := Find(s.users, user).value;
    var password := ParseChange(pt).value;
    var u := WithPassword(c, s.users[i], password, e.password.salt);
    var newKey := WrapKey(c, user, password);
    DerivedKey(c, s, user, password, e.derive);
    UpdatedTable(s.users, i, u);
    NewPasswordKey(c, s.users[i], password, e.password.salt);
    BlobAfter(c, s, newKey, u, e.reencrypt, seed);
    OpensForKey(c, s.users[i], s.session.key, s.files[PrivateEnc(user)], c.privatePem(seed));
    var enc := a.files[PrivateEnc(user)];
    if Rewraps(e.reencrypt) && !Untouched(e.reencrypt) {
      OpensForKey(c, u, newKey, enc, c.privatePem(seed));
    }
    KeptFor(c, s, a.files, t, if changed && Rewraps(e.reencrypt) then newKey else s.session.key, seed);
  }

  /**
   * From a coherent state, with any failures, a password change leaves the user's stored key coherent with the
   * record in memory exactly when the failures are harmless: once the new key is derived, reading the old file
   * must not fail, since an unreadable file counts as absent, and once that file has been opened for writing
   * everything up to the record in memory must succeed.
   */
  lemma ChangeKeepsKeyExactly(c: Suite, s: State, pt: Bytes, e: Env, seed: nat)
    requires Changing(c, s, pt, e, seed)
    ensures KeyKept(c, Change(c, s, pt, e).state.files, Change(c, s, pt, e).state.users, s.session.username) <==>
              Harmless(e, e.password.randOk && e.password.hashOk)
  {
    hide Change, KeyKept, StateCoherent, HoldsPair, Rewritten, TableOn;
    if e.derive.hashOk {
      ChangedTables(c, s, pt, e, seed);
      KeptExactly(c, s, pt, e, seed, Change(c, s, pt, e).state.users, e.password.randOk && e.password.hashOk);
    } else {
      UnderivedIdle(c, s, pt, e, seed);
    }
  }

  /**
   * For the record on disk, the one a restarted server reads, the table write must succeed as well: failing after
   * the key file was re-wrapped, it leaves a private key that no password of the old record opens.
   */
  lemma ChangeKeepsKeyOnDiskExactly(c: Suite, s: State, pt: Bytes, e: Env, seed: nat)
    requires Changing(c, s, pt, e, seed)
    ensures var a := Change(c, s, pt, e).state;
      var written := WriteSucceeds(Rewritten(c, s, ParseChange(pt).value, e.password), e.password.write);
      && TableOn(a.files).Some?
      && (KeyKept(c, a.files, TableOn(a.files).value, s.session.username) <==>
           Harmless(e, e.password.randOk && e.password.hashOk && written))
  {
    hide Change, KeyKept, HoldsPair, Rewritten, TableOn, WriteSucceeds;
    if e.derive.hashOk {
      ChangedTables(c, s, pt, e, seed);
      KeptExactly(c, s, pt, e, seed, TableOn(Change(c, s, pt, e).state.files).value,
        e.password.randOk && e.password.hashOk
          && WriteSucceeds(Rewritten(c, s, ParseChange(pt).value, e.password), e.password.write));
    } else {
      UnderivedIdle(c, s, pt, e, seed);
    }
  }

  function TableOn(files: Files): Option<seq<User>> {
    if UserTable in files then Records(files[UserTable]) else None
  }

  /** Which of the two tables memory and disk hold after the change. */
  lemma ChangedTables(c: Suite, s: State, pt: Bytes, e: Env, seed: nat)
    requires Changing(c, s, pt, e, seed) && e.derive.hashOk
    ensures var a := Change(c, s, pt, e).state;
      var stored := Rewritten(c, s, ParseChange(pt).value, e.password);
      var changed := e.password.randOk && e.password.hashOk;
      && a.users == (if changed && GoesOn(e) then stored else s.users)
      && TableOn(a.files) == Some(
           if changed && WriteSucceeds(stored, e.password.write) && GoesOn(e) then stored else s.users)
  {
    hide Records, KeysKept, Print, WellFormed, DeriveKey, Reencrypt, HashIdeal, SignatureIdeal, SealBlob, OpenBlob,
      ParseChange, WrapKey, OpensFor, KeyOf, WriteSucceeds, SealOk, PathName, ShortName;
    var user := s.session.username;
    var i := Find(s.users, user).value;
    var password := ParseChange(pt).value;
    var u := WithPassword(c, s.users[i], password, e.password.salt);
    DerivedKey(c, s, user, password, e.derive);
    UpdatedTable(s.users, i, u);
    NewPasswordKey(c, s.users[i], password, e.password.salt);
    BlobAfter(c, s, WrapKey(c, user, password), u, e.reencrypt, seed);
  }

  // ---------- a concrete loss ----------

  /** User "u" with password "a". */
  const EXAMPLE_USER: Bytes := [117]

  function ExampleRecord(): User {
    User(EXAMPLE_USER, false, false, seq(16, _ => 0), TransparentHash([97]))
  }

  function ExampleBlob(): Bytes {
    Layout(2, seq(16, _ => 0), seq(12, _ => 0), Sealed([1], TransparentHash([97])[..16]))
  }

  /** Logged in, with keys stored, and disk and memory alike. */
  function ExampleState(): State {
    State(
      [ExampleRecord()],
      map[
        UserTable := Print([ExampleRecord()]),
        PublicPem(EXAMPLE_USER) := [],
        PrivateEnc(EXAMPLE_USER) := ExampleBlob()],
      Session(true, EXAMPLE_USER, false, false, TransparentHash([97]), true))
  }

  /** Every call succeeds but the opening of the temporary table file. */
  function ExampleEnv(): Env {
    var failing := WriteEnv(false, 0, true, true, true, true, []);
    var seal := SealEnv(true, true, seq(16, _ => 0), seq(12, _ => 0));
    Env(true, DeriveEnv(true, true, true), PasswordEnv(true, true, seq(16, _ => 0), failing),
        ReencryptEnv(true, seal, Done), CreateEnv(true, true, 0, Done, true, seal, Done, true, true),
        SignEnv(true, true, 0), true, DeleteEnv(failing, true, true, true))
  }

  lemma ExampleBlobOpens(key: Digest)
    ensures ExampleBlob()[4] == 2 && HEADER_LENGTH <= |ExampleBlob()|
    ensures OpenBlob(Transparent(), key, ExampleBlob()) ==
      if key[..16] == TransparentHash([97])[..16] then Some([1]) else None
  {
    var s := Sealed([1], TransparentHash([97])[..16]);
    LayoutFields(2, seq(16, _ => 0), seq(12, _ => 0), s);
    Be32RoundTrip(1);
  }

  lemma ExampleCoherent()
    ensures StateCoherent(Transparent(), ExampleState())
    ensures HoldsPair(Transparent(), ExampleState().files, ExampleState().users, EXAMPLE_USER, 0)
  {
    hide Records, Print, Layout, OpenBlob;
    var c, s := Transparent(), ExampleState();
    RecordsOfPrint(s.users);
    var u := ExampleRecord();
    forall p | Accepts(c, u, p) ensures OpenBlob(c, WrapKey(c, EXAMPLE_USER, p), ExampleBlob()) == Some([1]) {
      ExampleBlobOpens(WrapKey(c, EXAMPLE_USER, p));
    }
    ExampleBlobOpens(s.session.key);
    assert Find(s.users, EXAMPLE_USER) == Some(0);
    assert HoldsPair(c, s.files, s.users, EXAMPLE_USER, 0);
    assert KeyKept(c, s.files, s.users, EXAMPLE_USER);
    assert Accepts(c, u, [97]) && s.session.key == WrapKey(c, u.name, [97]);
  }

  /**
   * The loss is real, and the theorems above are about states that exist: one failing table write, and the key
   * that the table on disk had before the password change is of no use to it afterwards.
   */
  lemma KeyCanBeLost()
    ensures var c, s, pt, e := Transparent(), ExampleState(), BuildChange([98]), ExampleEnv();
      && Changing(c, s, pt, e, 0)
      && KeyKept(c, s.files, s.users, EXAMPLE_USER)
      && TableOn(Change(c, s, pt, e).state.files) == Some(s.users)
      && !KeyKept(c, Change(c, s, pt, e).state.files, s.users, EXAMPLE_USER)
  {
    hide Records, Print, Layout, OpenBlob, BuildChange, ParseChange, StateCoherent, Change, HoldsPair;
    var c, s, pt, e := Transparent(), ExampleState(), BuildChange([98]), ExampleEnv();
    TransparentIsIdeal();
    ExampleCoherent();
    ExampleRequest();
    ExampleApart();
    ChangeKeepsKeyOnDiskExactly(c, s, pt, e, 0);
    ChangedTables(c, s, pt, e, 0);
    assert HoldsPair(c, s.files, s.users, EXAMPLE_USER, 0);
  }

  lemma ExampleRequest()
    ensures ParseChange(BuildChange([98])) == Some([98])
  {
    BuiltRequestsParse([98], [98]);
  }

  lemma ExampleApart()
    ensures AeadIdeal(Transparent())
    ensures var newKey := WrapKey(Transparent(), EXAMPLE_USER, [98]);
      Apart(Transparent(), ExampleState(), newKey, [1], ExampleEnv().reencrypt)
  {
    hide OpenBlob, Layout, Print;
    var newKey := WrapKey(Transparent(), EXAMPLE_USER, [98]);
    TransparentIsIdeal();
    ExampleBlobOpens(newKey);
    assert newKey[..16][0] == 98 && TransparentHash([97])[..16][0] == 97;
    NewBlobClosed();
  }

  /** The blob the password change writes does not open under the old key. */
  lemma NewBlobClosed()
    ensures var blob := Layout(2, seq(16, _ => 0), seq(12, _ => 0), Sealed([1], TransparentHash([98])[..16]));
      OpenBlob(Transparent(), TransparentHash([97]), blob).None?
  {
    var s := Sealed([1], TransparentHash([98])[..16]);
    LayoutFields(2, seq(16, _ => 0), seq(12, _ => 0), s);
    assert TransparentHash([98])[..16][0] == 98 && TransparentHash([97])[..16][0] == 97;
  }
}
