/** The answer to every request of `server/main.c`: which are refused and how, and exactly when the others succeed. */
module Answers {
  import opened Octets
  import opened Crypto
  import opened PrivateBlob
  import opened TableText
  import opened TableFile
  import opened Disk
  import opened Auth
  import opened Keystore
  import opened Requests
  import opened Server
  import opened Runs
  import opened Coherence
  import Bootstrap

  // ---------- refusals ----------

  /** Without a login only AUTH and lookups of a named user are served. */
  lemma RefusedWithoutLogin(c: Suite, s: State, pt: Bytes, e: Env)
    requires AeadIdeal(c) && pt != [] && !s.session.authenticated
    requires pt[0] != OP_AUTH && (pt[0] == OP_GET_PUBLIC_KEY ==> |pt| == 1)
    ensures Handle(c, s, pt, e) == Answer(s, ErrAuth, [])
  {
  }

  /** A deleted session may log in, log out and look up keys; everything else is answered with the tombstone. */
  lemma RefusedWhenDeleted(c: Suite, s: State, pt: Bytes, e: Env)
    requires AeadIdeal(c) && pt != [] && s.session.authenticated && s.session.deleted
    requires pt[0] != OP_AUTH && pt[0] != OP_GET_PUBLIC_KEY && pt[0] != OP_LOGOUT
    ensures Handle(c, s, pt, e) == Answer(s, ErrDeleted, [])
  {
  }

  /** A session with a pending password change may do that, log in or log out. */
  lemma RefusedUntilChanged(c: Suite, s: State, pt: Bytes, e: Env)
    requires AeadIdeal(c) && pt != [] && s.session.authenticated && s.session.mustChange
    requires pt[0] != OP_AUTH && pt[0] != OP_CHANGE_PASSWORD && pt[0] != OP_LOGOUT
    requires s.session.deleted ==> pt[0] == OP_GET_PUBLIC_KEY
    ensures Handle(c, s, pt, e) == Answer(s, ErrAuth, [])
  {
  }

  /** A session in which nothing stands in the way of the key operations but, perhaps, a missing key. */
  predicate Active(s: Session) {
    s.authenticated && !s.mustChange && !s.deleted
  }

  lemma RefusedWithoutKey(c: Suite, s: State, pt: Bytes, e: Env)
    requires AeadIdeal(c) && pt != [] && Active(s.session) && !s.session.hasKey
    requires pt[0] in {OP_CHANGE_PASSWORD, OP_CREATE_KEYS, OP_SIGN_DOC, OP_DELETE_KEYS}
    ensures Handle(c, s, pt, e) == Answer(s, ErrAuth, [])
  {
  }

  /** Malformed requests, documents over 65535 bytes and unknown opcodes are bad requests; they change nothing. */
  lemma BadRequests(c: Suite, s: State, pt: Bytes, e: Env)
    requires AeadIdeal(c) && pt != []
    requires
      || (pt[0] == OP_AUTH && ParseAuth(pt).None?)
      || (Active(s.session) && pt[0] == OP_GET_PUBLIC_KEY && ParseTarget(pt).Malformed?)
      || (Active(s.session) && s.session.hasKey && pt[0] == OP_CHANGE_PASSWORD && ParseChange(pt).None?)
      || (Active(s.session) && s.session.hasKey && pt[0] == OP_SIGN_DOC && 65535 < |pt| - 1)
      || (Active(s.session) && 6 < pt[0])
    ensures Handle(c, s, pt, e) == Answer(s, ErrBadReq, [])
  {
    hide ParseAuth, ParseChange, ParseTarget;
  }

  /** A well-formed login that fails is an authentication error; a lookup without a result is told so. */
  lemma OtherRefusals(c: Suite, s: State, pt: Bytes, e: Env)
    requires AeadIdeal(c) && pt != []
    ensures pt[0] == OP_AUTH && ParseAuth(pt).Some? && Handle(c, s, pt, e).status != Ok ==>
      Handle(c, s, pt, e) == Answer(s, ErrAuth, [])
    ensures pt[0] == OP_GET_PUBLIC_KEY && Active(s.session) && !ParseTarget(pt).Malformed? ==>
      Handle(c, s, pt, e).status == Ok || Handle(c, s, pt, e) == Answer(s, ErrNotFound, [])
    ensures s.session.authenticated && pt[0] == OP_LOGOUT ==>
      Handle(c, s, pt, e) == Answer(s.(session := CLEARED), Ok, [])
  {
    hide ParseAuth, ParseTarget, DeriveKey;
  }

  /** In a session that may, whatever else goes wrong is an internal error; a tombstone newly found is reported. */
  lemma InternalErrors(c: Suite, s: State, pt: Bytes, e: Env)
    requires AeadIdeal(c) && pt != [] && Active(s.session) && s.session.hasKey && Handle(c, s, pt, e).status != Ok
    ensures pt[0] == OP_DELETE_KEYS ==> Handle(c, s, pt, e).status == ErrInternal
    ensures pt[0] == OP_SIGN_DOC && |pt| <= 65536 ==> Handle(c, s, pt, e).status == ErrInternal
    ensures pt[0] == OP_CHANGE_PASSWORD && ParseChange(pt).Some? ==> Handle(c, s, pt, e).status == ErrInternal
    ensures pt[0] == OP_CREATE_KEYS ==>
      if IsDeleted(s.users, s.session.username) == Some(true) then
        Handle(c, s, pt, e) == Answer(s.(session := s.session.(deleted := true)), ErrDeleted, [])
      else Handle(c, s, pt, e).status == ErrInternal
  {
    hide ParseChange, DeriveKey, Reencrypt, ChangePassword, CreateKeys, DeleteKeys, SignDoc, AeadIdeal;
  }

  // ---------- AUTH ----------

  /** A granted login answers the must-change and deleted flags of the record, a byte each; the session has them too. */
  lemma LoginAnswer(c: Suite, s: State, pt: Bytes, e: Env)
    requires AeadIdeal(c) && pt != [] && pt[0] == OP_AUTH && Handle(c, s, pt, e).status == Ok
    ensures ParseAuth(pt).Some? && RecordOf(s.users, ParseAuth(pt).value.user).Some?
    ensures var a := Handle(c, s, pt, e);
      var u, now := RecordOf(s.users, ParseAuth(pt).value.user).value, a.state.session;
      && |a.data| == 2 && a.data[0] <= 1 && a.data[1] <= 1
      && (a.data[0] != 0 <==> u.mustChange) && (a.data[1] != 0 <==> u.deleted)
      && now.mustChange == u.mustChange && now.deleted == u.deleted && now.username == ParseAuth(pt).value.user
  {
    hide ParseAuth, DeriveKey;
  }

  /**
   * The session has its key exactly when the derivation works and the name is at most 243 bytes long, not empty
   * and without a slash; the key is then the one hashed with the salt "dss-session:" and the user name. A stored
   * version-1 file, which nothing writes, is the exception.
   */
  lemma LoginKeyExactly(c: Suite, s: State, pt: Bytes, e: Env)
    requires AeadIdeal(c) && pt != [] && pt[0] == OP_AUTH && Handle(c, s, pt, e).status == Ok
    requires var enc := Get(s.files, PrivateEnc(Handle(c, s, pt, e).state.session.username));
      enc.Some? && 4 < |enc.value| ==> enc.value[4] != 1
    ensures ParseAuth(pt).Some?
    ensures var now := Handle(c, s, pt, e).state.session;
      var prefix: Bytes := [100, 115, 115, 45, 115, 101, 115, 115, 105, 111, 110, 58];
      && (now.hasKey <==> e.derive.hashOk && 0 < |now.username| <= 243 && 47 !in now.username)
      && (now.hasKey ==> now.key == c.pbkdf2(ParseAuth(pt).value.password, prefix + now.username))
  {
    hide ParseAuth, Verify;
  }

  // ---------- CREATE_KEYS ----------

  predicate CreationOk(e: CreateEnv) {
    e.mkdirOk && e.keygenOk && e.pubWrite.Done? && e.pemOk && SealOk(e.seal) && e.encWrite.Done?
  }

  /** The user's record exists and is no tombstone. */
  predicate Alive(s: State) {
    RecordOf(s.users, s.session.username).Some? && !RecordOf(s.users, s.session.username).value.deleted
  }

  predicate HasPair(s: State) {
    PublicPem(s.session.username) in s.files && PrivateEnc(s.session.username) in s.files
  }

  predicate ProperName(user: Bytes) {
    user != [] && 47 !in user
  }

  /** In a session that may, key creation succeeds exactly when the pair exists already or nothing fails. */
  lemma CreateSucceedsExactly(c: Suite, s: State, e: Env)
    requires Ideal(c)
    ensures Handle(c, s, [OP_CREATE_KEYS], e).status == Ok <==>
      Active(s.session) && s.session.hasKey && Alive(s) && ProperName(s.session.username)
        && (HasPair(s) || CreationOk(e.create))
  {
    hide SealBlob, AeadIdeal, HashIdeal, OpenBlob;
    PemFits(c, e.create.seed);
    SealedShape(c, s.session.key, e.create.seal.salt, e.create.seal.iv, c.privatePem(e.create.seed));
  }

  /** A new pair is the two halves of one generated key, the private half wrapped under the session's key. */
  lemma CreateStoresPair(c: Suite, s: State, e: Env)
    requires Ideal(c) && Handle(c, s, [OP_CREATE_KEYS], e).status == Ok && !HasPair(s)
    ensures var a := Handle(c, s, [OP_CREATE_KEYS], e).state;
      && HasPair(a) && a.files[PublicPem(s.session.username)] == c.publicPem(e.create.seed)
      && OpenBlob(c, s.session.key, a.files[PrivateEnc(s.session.username)]) == Some(c.privatePem(e.create.seed))
      && a.users == s.users && a.session == s.session
  {
    hide SealBlob, AeadIdeal, HashIdeal, OpenBlob;
    SealedShape(c, s.session.key, e.create.seal.salt, e.create.seal.iv, c.privatePem(e.create.seed));
    PemFits(c, e.create.seed);
  }

  // ---------- SIGN_DOC ----------

  /** A document is signed exactly when the session may, it is short enough, and the stored key opens and signs. */
  lemma SignSucceedsExactly(c: Suite, s: State, doc: Bytes, e: Env)
    requires AeadIdeal(c)
    ensures var a := Handle(c, s, [OP_SIGN_DOC] + doc, e);
      var enc := Get(s.files, PrivateEnc(s.session.username));
      var pem := if enc.Some? then OpenBlob(c, s.session.key, enc.value) else None;
      && a.state == s
      && (a.status == Ok <==>
           Active(s.session) && s.session.hasKey && Alive(s) && ProperName(s.session.username) && |doc| <= 65535
           && e.sign.readOk && e.sign.signOk && pem.Some? && c.sign(pem.value, doc, e.sign.nonce).Some?)
      && (a.status == Ok ==> Some(a.data) == c.sign(pem.value, doc, e.sign.nonce))
  {
    hide OpenBlob, AeadIdeal;
    assert ([OP_SIGN_DOC] + doc)[1..] == doc;
  }

  // ---------- DELETE_KEYS ----------

  /** Deletion succeeds exactly when the tombstone is written and no unlink of an existing file fails. */
  lemma DeleteSucceedsExactly(c: Suite, s: State, e: Env)
    requires AeadIdeal(c)
    ensures Handle(c, s, [OP_DELETE_KEYS], e).status == Ok <==>
      Active(s.session) && s.session.hasKey && ProperName(s.session.username)
        && RecordOf(s.users, s.session.username).Some? && WriteSucceeds(s.users, e.delete.write)
        && (PublicPem(s.session.username) in s.files ==> e.delete.unlinkPubOk)
        && (PrivateEnc(s.session.username) in s.files ==> e.delete.unlinkEncOk) && e.delete.rmdirOk
  {
    hide Print, AeadIdeal;
  }

  lemma DeleteRemoves(c: Suite, s: State, e: Env)
    requires AeadIdeal(c) && Handle(c, s, [OP_DELETE_KEYS], e).status == Ok
    ensures var a := Handle(c, s, [OP_DELETE_KEYS], e).state;
      && PublicPem(s.session.username) !in a.files && PrivateEnc(s.session.username) !in a.files
      && a.session == s.session.(deleted := true)
  {
    hide Print, AeadIdeal;
  }

  // ---------- CHANGE_PASSWORD ----------

  /**
   * A password change succeeds exactly when the session has its key and no tombstone, the request is well formed,
   * the stored private key, if it can be read, opens and is re-wrapped, and the record is hashed and written.
   */
  lemma ChangeSucceedsExactlyWith(c: Suite, s: State, pt: Bytes, e: Env)
    requires AeadIdeal(c) && pt != [] && pt[0] == OP_CHANGE_PASSWORD
    requires var enc := Get(s.files, PrivateEnc(s.session.username)); enc.Some? && 4 < |enc.value| ==> enc.value[4] != 1
    ensures var enc := Get(s.files, PrivateEnc(s.session.username));
      Handle(c, s, pt, e).status == Ok <==>
        s.session.authenticated && !s.session.deleted && s.session.hasKey && ParseChange(pt).Some?
        && 0 < |s.session.username| <= 243 && 47 !in s.session.username && e.derive.hashOk
        && (enc.Some? && e.reencrypt.readOk ==>
              OpenBlob(c, s.session.key, enc.value).Some? && SealOk(e.reencrypt.seal) && e.reencrypt.write.Done?)
        && RecordOf(s.users, s.session.username).Some?
        && e.password.randOk && e.password.hashOk && WriteSucceeds(s.users, e.password.write)
  {
    hide OpenBlob, AeadIdeal, ParseChange, Print, SealBlob;
    var enc := Get(s.files, PrivateEnc(s.session.username));
    if enc.Some? && OpenBlob(c, s.session.key, enc.value).Some? {
      OpenedSeals(c, s.session.key, enc.value);
    }
  }

  lemma OpenedSeals(c: Suite, key: Digest, blob: Bytes)
    requires AeadIdeal(c) && OpenBlob(c, key, blob).Some?
    ensures forall k, salt, iv :: SealBlob(c, k, salt, iv, OpenBlob(c, key, blob).value).Some?
  {
  }

  // ---------- start-up ----------

  /** A server with a table comes up exactly when the table can be read and is well formed; no file changes. */
  lemma BootWithTable(c: Suite, files: Files, e: StartEnv)
    requires UserTable in files && e.first.allocOk && e.second.allocOk
    ensures Boot(c, files, e) == (files, if e.openOk && e.readOk then Load(files[UserTable]) else None)
  {
    hide Load, Bootstrap.SeedText;
  }

  /** A server without a table comes up exactly from a seed that parses to good names; without a seed it does not. */
  lemma FirstBoot(c: Suite, files: Files, e: StartEnv)
    requires UserTable !in files && Bootstrap.NothingFails(files, e.first) && e.second.allocOk && e.openOk && e.readOk
    ensures Boot(c, files, e).1.Some? <==>
      SeedFile in files && Bootstrap.ParseSeed(Lines(files[SeedFile])).Some?
        && Bootstrap.GoodNames(Bootstrap.ParseSeed(Lines(files[SeedFile])).value)
    ensures Boot(c, files, e).1.Some? ==>
      Boot(c, files, e).1.value ==
        Bootstrap.SeededTable(c, Bootstrap.ParseSeed(Lines(files[SeedFile])).value, e.first.salts, 0)
  {
    hide Load, Lines, Bootstrap.ParseSeed, Bootstrap.GoodNames, Bootstrap.SeededTable, Print, Bootstrap.SeedText;
    Bootstrap.BootstrapSucceedsExactly(c, files, e.first);
    var (seeded, ok) := Bootstrap.Run(c, files, e.first);
    if SeedFile in files && ok {
      Bootstrap.SuccessYieldsTable(c, files, e.first);
      assert UserTable in seeded;
    }
    Bootstrap.BootstrapSucceedsExactly(c, seeded, e.second);
    if ok {
      assert !(SeedFile in seeded) || UserTable in seeded;
    }
  }

  // ---------- in every run without failing calls ----------

  /** The session of the server a run ends with may use the key operations. */
  predicate Ready(w: World) {
    w.server.Some? && Active(w.server.value.session) && w.server.value.session.hasKey
  }

  lemma ReadyAlive(c: Suite, s: State)
    requires StateCoherent(c, s) && s.session.authenticated && s.session.hasKey && !s.session.deleted
    ensures Alive(s) && ProperName(s.session.username) && 0 < |s.session.username| <= 243
  {
    hide WellFormed, Records, KeysKept, KeyOf;
  }

  /**
   * CREATE_KEYS is granted: whenever such a run ends with a user logged in under a name that can have keys, with
   * no pending password change and no tombstone, the request answers OK, and the user then has a pair whose
   * private half opens for the current password.
   */
  lemma CreationGranted(c: Suite, w: World, es: seq<Event>, e: Env)
    requires Ideal(c) && Coherent(c, w) && AllOk(c, w, es) && Ready(Run(c, w, es))
    requires RequestOk(Run(c, w, es).server.value.users, e)
    ensures var user := Run(c, w, es).server.value.session.username;
      var (after, reply) := Step(c, Run(c, w, es), Request([OP_CREATE_KEYS], e));
      && reply == Some(Reply(Ok, [])) && after.server.Some?
      && PublicPem(user) in after.files && PrivateEnc(user) in after.files
      && KeyKept(c, after.files, after.server.value.users, user)
  {
    hide Run, AllOk, StateCoherent, Ideal, Create, KeyKept, Coherent;
    IdealAead(c);
    RunCoherent(c, w, es);
    var now := Run(c, w, es);
    var s := State(now.server.value.users, now.files, now.server.value.session);
    RunningCoherent(c, now);
    ReadyAlive(c, s);
    CreateSucceedsExactly(c, s, e);
    CreateAnswersNothing(c, s, e);
    HandleCoherent(c, s, [OP_CREATE_KEYS], e);
    PairIsKept(c, Handle(c, s, [OP_CREATE_KEYS], e).state, s.session.username);
  }

  lemma RunningCoherent(c: Suite, w: World)
    requires Coherent(c, w) && w.server.Some?
    ensures StateCoherent(c, State(w.server.value.users, w.files, w.server.value.session))
  {
  }

  lemma PairIsKept(c: Suite, s: State, user: Bytes)
    requires StateCoherent(c, s) && PrivateEnc(user) in s.files
    ensures KeyKept(c, s.files, s.users, user) && PublicPem(user) in s.files
  {
    hide KeyKept;
    KeptHasPublic(c, s.files, s.users, user);
  }

  lemma CreateAnswersNothing(c: Suite, s: State, e: Env)
    requires AeadIdeal(c)
    ensures var a := Handle(c, s, [OP_CREATE_KEYS], e);
      a.data == [] && (a.status == Ok ==> a.state.session == s.session && HasPair(a.state))
  {
    hide Sealing, AeadIdeal;
  }

  /** DELETE_KEYS is granted in the same sessions: it answers OK and leaves the tombstone and no key file. */
  lemma DeletionGranted(c: Suite, w: World, es: seq<Event>, e: Env)
    requires Ideal(c) && Coherent(c, w) && AllOk(c, w, es) && Ready(Run(c, w, es))
    requires RequestOk(Run(c, w, es).server.value.users, e)
    ensures var user := Run(c, w, es).server.value.session.username;
      var (after, reply) := Step(c, Run(c, w, es), Request([OP_DELETE_KEYS], e));
      && reply.Some? && reply.value.status == Ok && after.server.Some?
      && PublicPem(user) !in after.files && PrivateEnc(user) !in after.files
      && IsDeleted(after.server.value.users, user) == Some(true) && after.server.value.session.deleted
  {
    hide Run, AllOk, StateCoherent, Ideal, Handle, Coherent, WriteSucceeds;
    IdealAead(c);
    RunCoherent(c, w, es);
    var now := Run(c, w, es);
    var s := State(now.server.value.users, now.files, now.server.value.session);
    RunningCoherent(c, now);
    ReadyAlive(c, s);
    DeleteSucceedsExactly(c, s, e);
    DeleteRemoves(c, s, e);
    HandleCoherent(c, s, [OP_DELETE_KEYS], e);
    SessionTombstone(c, Handle(c, s, [OP_DELETE_KEYS], e).state);
  }

  lemma SessionTombstone(c: Suite, s: State)
    requires StateCoherent(c, s) && s.session.authenticated
    ensures IsDeleted(s.users, s.session.username) == Some(s.session.deleted)
  {
    hide WellFormed, Records, KeysKept, KeyOf;
  }

  /** CHANGE_PASSWORD is granted to every live session with its key, and lifts a pending change. */
  lemma ChangeGranted(c: Suite, w: World, es: seq<Event>, pt: Bytes, e: Env)
    requires Ideal(c) && Coherent(c, w) && AllOk(c, w, es) && Run(c, w, es).server.Some?
    requires var s := Run(c, w, es).server.value.session; s.authenticated && s.hasKey && !s.deleted
    requires pt != [] && pt[0] == OP_CHANGE_PASSWORD && ParseChange(pt).Some?
    requires RequestOk(Run(c, w, es).server.value.users, e)
    ensures var (after, reply) := Step(c, Run(c, w, es), Request(pt, e));
      && reply.Some? && reply.value.status == Ok && after.server.Some?
      && !after.server.value.session.mustChange && after.server.value.session.hasKey
  {
    hide Run, AllOk, StateCoherent, Ideal, Handle, Coherent, WriteSucceeds, ParseChange, OpenBlob;
    IdealAead(c);
    RunCoherent(c, w, es);
    var now := Run(c, w, es);
    var s := State(now.server.value.users, now.files, now.server.value.session);
    RunningCoherent(c, now);
    ReadyAlive(c, s);
    SessionOpensBlob(c, s);
    ChangeSucceedsExactlyWith(c, s, pt, e);
    ChangeKeepsSession(c, s, pt, e);
  }

  lemma ChangeKeepsSession(c: Suite, s: State, pt: Bytes, e: Env)
    requires AeadIdeal(c) && pt != [] && pt[0] == OP_CHANGE_PASSWORD && Handle(c, s, pt, e).status == Ok
    ensures var now := Handle(c, s, pt, e).state.session;
      now == s.session.(key := now.key, mustChange := false) && now.hasKey
  {
    hide ParseChange, DeriveKey, Reencrypt, ChangePassword, AeadIdeal;
  }

  lemma SessionOpensBlob(c: Suite, s: State)
    requires StateCoherent(c, s) && s.session.authenticated && s.session.hasKey
    ensures var enc := Get(s.files, PrivateEnc(s.session.username));
      enc.Some? ==> 4 < |enc.value| && enc.value[4] == 2 && OpenBlob(c, s.session.key, enc.value).Some?
  {
    hide WellFormed, Records, OpenBlob, KeyOf, OpensFor;
    var user := s.session.username;
    if PrivateEnc(user) in s.files {
      KeptHasPublic(c, s.files, s.users, user);
      var seed :| HoldsPair(c, s.files, s.users, user, seed);
      OpensForKey(c, RecordOf(s.users, user).value, s.session.key, s.files[PrivateEnc(user)], c.privatePem(seed));
    }
  }
}
