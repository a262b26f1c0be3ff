/** Session key, password table and wrapped private keys stay coherent in every run without failing calls. */
module Coherence {
  import opened Octets
  import opened Crypto
  import opened PrivateBlob
  import opened TableText
  import opened TableFile
  import opened Disk
  import opened Auth
  import opened Keystore
  import opened Requests
  import opened Server
  import opened Runs
  import opened Agreement
  import Bootstrap
  import Provision

  function Get(files: Files, p: Path): Option<Bytes> {
    if p in files then Some(files[p]) else None
  }

  /** Every password the server accepts for a record opens the blob, and yields this PEM. */
  ghost predicate OpensFor(c: Suite, u: User, blob: Bytes, pem: Bytes) {
    forall p :: Accepts(c, u, p) ==> OpenBlob(c, WrapKey(c, u.name, p), blob) == Some(pem)
  }

  /** The two key files hold the pair generated from a seed, the private half wrapped for the record's password. */
  ghost predicate Holds(c: Suite, pub: Option<Bytes>, enc: Option<Bytes>, u: User, seed: nat) {
    && pub == Some(c.publicPem(seed))
    && enc.Some? && HEADER_LENGTH <= |enc.value| && enc.value[4] == 2
    && OpensFor(c, u, enc.value, c.privatePem(seed))
  }

  ghost predicate HoldsPair(c: Suite, files: Files, t: seq<User>, user: Bytes, seed: nat) {
    && RecordOf(t, user).Some?
    && Holds(c, Get(files, PublicPem(user)), Get(files, PrivateEnc(user)), RecordOf(t, user).value, seed)
  }

  /** A stored private key belongs to a live record and is coherent with it. */
  ghost predicate KeyKept(c: Suite, files: Files, t: seq<User>, user: Bytes) {
    && PathName(user) && ShortName(user)
    && RecordOf(t, user).Some? && !RecordOf(t, user).value.deleted
    && exists seed :: HoldsPair(c, files, t, user, seed)
  }

  ghost predicate KeysKept(c: Suite, files: Files, t: seq<User>) {
    forall user | PrivateEnc(user) in files :: KeyKept(c, files, t, user)
  }

  /** The session key is the wrap key of an accepted password. */
  ghost predicate KeyOf(c: Suite, u: User, key: Digest) {
    exists p :: Accepts(c, u, p) && key == WrapKey(c, u.name, p)
  }

  ghost predicate SessionCoherent(c: Suite, t: seq<User>, s: Session) {
    && (!s.authenticated ==> s == CLEARED)
    && (s.authenticated ==>
         && RecordOf(t, s.username).Some?
         && var u := RecordOf(t, s.username).value;
            && s.mustChange == u.mustChange && s.deleted == u.deleted
            && (s.hasKey <==> PathName(s.username) && ShortName(s.username))
            && (s.hasKey ==> KeyOf(c, u, s.key)))
  }

  ghost predicate StateCoherent(c: Suite, s: State) {
    && WellFormed(s.users) && UserTable in s.files && Records(s.files[UserTable]) == Some(s.users)
    && KeysKept(c, s.files, s.users)
    && SessionCoherent(c, s.users, s.session)
  }

  ghost predicate Coherent(c: Suite, w: World) {
    match w.server
    case Some(r) => StateCoherent(c, State(r.users, w.files, r.session))
    case None =>
      if UserTable in w.files then
        Records(w.files[UserTable]).Some? ==> KeysKept(c, w.files, Records(w.files[UserTable]).value)
      else NoPrivateKeys(w.files)
  }

  predicate NoPrivateKeys(files: Files) {
    forall p | p in files :: !p.PrivateEnc?
  }

  // ---------- runs without failing calls ----------

  predicate SealOk(e: SealEnv) { e.randOk && e.sealOk }

  /** No file or library call of the request fails while the table has as many records as this one. */
  predicate RequestOk(users: seq<User>, e: Env) {
    && e.hashOk && e.derive.hashOk && e.derive.readOk && e.derive.rehashOk
    && e.password.randOk && e.password.hashOk && WriteSucceeds(users, e.password.write)
    && e.reencrypt.readOk && SealOk(e.reencrypt.seal) && e.reencrypt.write.Done?
    && e.create.mkdirOk && e.create.keygenOk && e.create.pubWrite.Done? && e.create.pemOk && SealOk(e.create.seal)
    && e.create.encWrite.Done?
    && e.sign.readOk && e.sign.signOk && e.readPublicOk
    && WriteSucceeds(users, e.delete.write) && e.delete.unlinkPubOk && e.delete.unlinkEncOk && e.delete.rmdirOk
  }

  /** Start-up and the tool may fail in any way: neither touches a key file. */
  predicate EventOk(w: World, e: Event) {
    && Admissible(e)
    && (e.Request? && w.server.Some? ==> RequestOk(w.server.value.users, e.env))
  }

  predicate AllOk(c: Suite, w: World, es: seq<Event>)
    requires AeadIdeal(c)
  {
    forall k | 0 <= k < |es| :: OkAt(c, w, es, k)
  }

  predicate OkAt(c: Suite, w: World, es: seq<Event>, k: nat)
    requires AeadIdeal(c) && k < |es|
  {
    EventOk(Before(c, w, es, k), es[k])
  }

  // ---------- the steps ----------

  lemma SameWrapKey(c: Suite, u: User, p: Bytes, q: Bytes)
    requires HashIdeal(c) && Accepts(c, u, p) && Accepts(c, u, q)
    ensures WrapKey(c, u.name, p) == WrapKey(c, u.name, q)
  {
    assert SameVerifier(c, p, q, u.salt);
  }

  /** A blob sealed under the wrap key of one accepted password opens for all of them. */
  lemma SealedOpensFor(c: Suite, u: User, key: Digest, salt: Salt, iv: Iv, pem: Bytes)
    requires Ideal(c) && KeyOf(c, u, key) && |pem| <= INT_MAX
    ensures var blob := SealBlob(c, key, salt, iv, pem);
      blob.Some? && HEADER_LENGTH <= |blob.value| && blob.value[4] == 2 && OpensFor(c, u, blob.value, pem)
  {
    hide OpenBlob, SealBlob, Ideal, HashIdeal, WrapKey;
    SealedShape(c, key, salt, iv, pem);
    var p :| Accepts(c, u, p) && key == WrapKey(c, u.name, p);
    forall q | Accepts(c, u, q)
      ensures OpenBlob(c, WrapKey(c, u.name, q), SealBlob(c, key, salt, iv, pem).value) == Some(pem)
    {
      SameWrapKeyIdeal(c, u, p, q);
    }
  }

  lemma SameWrapKeyIdeal(c: Suite, u: User, p: Bytes, q: Bytes)
    requires Ideal(c) && Accepts(c, u, p) && Accepts(c, u, q)
    ensures WrapKey(c, u.name, p) == WrapKey(c, u.name, q)
  {
    SameWrapKey(c, u, p, q);
  }

  lemma SealedShape(c: Suite, key: Digest, salt: Salt, iv: Iv, pem: Bytes)
    requires Ideal(c) && |pem| <= INT_MAX
    ensures AeadIdeal(c)
    ensures var blob := SealBlob(c, key, salt, iv, pem);
      blob.Some? && HEADER_LENGTH <= |blob.value| && blob.value[4] == 2 && OpenBlob(c, key, blob.value) == Some(pem)
  {
    BlobRoundTrip(c, key, salt, iv, pem);
    LayoutFields(2, salt, iv, c.seal(key, iv, [], pem));
  }

  /** Key files and records of everybody but one user unchanged. */
  ghost predicate OthersSame(s: State, files: Files, users: seq<User>, user: Bytes) {
    forall v | v != user ::
      && Get(files, PublicPem(v)) == Get(s.files, PublicPem(v))
      && Get(files, PrivateEnc(v)) == Get(s.files, PrivateEnc(v))
      && RecordOf(users, v) == RecordOf(s.users, v)
  }

  lemma KeysFrame(c: Suite, s: State, files: Files, users: seq<User>, user: Bytes)
    requires KeysKept(c, s.files, s.users) && OthersSame(s, files, users, user)
    requires PrivateEnc(user) in files ==> KeyKept(c, files, users, user)
    ensures KeysKept(c, files, users)
  {
    hide PathName, ShortName, Holds, RecordOf;
    forall v | PrivateEnc(v) in files ensures KeyKept(c, files, users, v) {
      if v != user {
        assert Get(s.files, PrivateEnc(v)).Some?;
        assert KeyKept(c, s.files, s.users, v);
        var seed :| HoldsPair(c, s.files, s.users, v, seed);
        assert HoldsPair(c, files, users, v, seed);
      }
    }
  }

  lemma DerivedKey(c: Suite, s: State, user: Bytes, password: Bytes, e: DeriveEnv)
    requires KeysKept(c, s.files, s.users) && e.hashOk
    ensures var (key, ok) := DeriveKey(c, s.files, user, password, e, ZERO_KEY);
      (ok <==> PathName(user) && ShortName(user)) && (ok ==> key == WrapKey(c, user, password))
  {
    if PrivateEnc(user) in s.files {
      assert KeyKept(c, s.files, s.users, user);
      var seed :| HoldsPair(c, s.files, s.users, user, seed);
    }
  }

  lemma AuthenticateCoherent(c: Suite, s: State, pt: Bytes, e: Env)
    requires StateCoherent(c, s) && RequestOk(s.users, e)
    ensures StateCoherent(c, Authenticate(c, s, pt, e).state)
  {
    hide DeriveKey, KeysKept, Records, WellFormed, ParseAuth, WrapKey;
    var login := ParseAuth(pt);
    if login.Some? && Verify(c, s.users, login.value.user, login.value.password, e.hashOk).Some? {
      var u := RecordOf(s.users, login.value.user).value;
      DerivedKey(c, s, login.value.user, login.value.password, e.derive);
      assert Accepts(c, u, login.value.password);
    }
  }

  lemma CreateCoherent(c: Suite, s: State, e: Env)
    requires Ideal(c) && StateCoherent(c, s) && RequestOk(s.users, e) && s.session.authenticated
    ensures StateCoherent(c, Create(c, s, e).state)
    ensures OthersSame(s, Create(c, s, e).state.files, Create(c, s, e).state.users, s.session.username)
    ensures Create(c, s, e).status == Ok ==> PrivateEnc(s.session.username) in Create(c, s, e).state.files
    ensures PrivateEnc(s.session.username) in s.files ==> Create(c, s, e).state.files == s.files
  {
    hide Records, WellFormed, KeysKept, SealBlob, OpensFor, KeyOf, HashIdeal, SignatureIdeal, OpenBlob;
    var user, a := s.session.username, Create(c, s, e);
    if PrivateEnc(user) in s.files {
      KeptHasPublic(c, s.files, s.users, user);
    }
    if a.state.files != s.files {
      var u := RecordOf(s.users, user).value;
      var pem := c.privatePem(e.create.seed);
      PemFits(c, e.create.seed);
      SealedOpensFor(c, u, s.session.key, e.create.seal.salt, e.create.seal.iv, pem);
      assert HoldsPair(c, a.state.files, s.users, user, e.create.seed);
      assert KeyKept(c, a.state.files, s.users, user);
      KeysFrame(c, s, a.state.files, s.users, user);
    }
  }

  lemma PemFits(c: Suite, seed: nat)
    requires Ideal(c)
    ensures |c.privatePem(seed)| <= INT_MAX
  {
  }

  lemma KeptHasPublic(c: Suite, files: Files, t: seq<User>, user: Bytes)
    requires KeysKept(c, files, t) && PrivateEnc(user) in files
    ensures PublicPem(user) in files && KeyKept(c, files, t, user)
  {
    assert KeyKept(c, files, t, user);
    var seed :| HoldsPair(c, files, t, user, seed);
  }

  lemma DeleteCoherent(c: Suite, s: State, e: Env)
    requires StateCoherent(c, s) && RequestOk(s.users, e) && s.session.authenticated
    ensures StateCoherent(c, Delete(s, e).state)
    ensures OthersSame(s, Delete(s, e).state.files, Delete(s, e).state.users, s.session.username)
    ensures Delete(s, e).state.users != s.users ==> Delete(s, e).status == Ok
    ensures Delete(s, e).status == Ok ==>
      PublicPem(s.session.username) !in Delete(s, e).state.files
      && PrivateEnc(s.session.username) !in Delete(s, e).state.files
  {
    hide Records, KeysKept, Print, WellFormed, KeyOf;
    var user, a := s.session.username, Delete(s, e);
    if s.session.hasKey && !s.session.deleted {
      var i := Find(s.users, user).value;
      var u := s.users[i].(deleted := true);
      UpdatedTable(s.users, i, u);
      KeysFrame(c, s, a.state.files, a.state.users, user);
      assert KeyOf(c, s.users[i], s.session.key) ==> KeyOf(c, u, s.session.key) by {
        KeyOfSameHash(c, s.users[i], u, s.session.key);
      }
    }
  }

  lemma KeyOfSameHash(c: Suite, u: User, v: User, key: Digest)
    requires u.name == v.name && u.salt == v.salt && u.hash == v.hash
    ensures KeyOf(c, u, key) ==> KeyOf(c, v, key)
  {
    if KeyOf(c, u, key) {
      var p :| Accepts(c, u, p) && key == WrapKey(c, u.name, p);
      assert Accepts(c, v, p);
    }
  }

  /** One record replaced under its own name, and the table written. */
  lemma UpdatedTable(t: seq<User>, i: nat, u: User)
    requires WellFormed(t) && i < |t| && u.name == t[i].name
    ensures var changed := t[i := u];
      && WellFormed(changed) && Records(Print(changed)) == Some(changed)
      && RecordOf(changed, u.name) == Some(u)
      && forall v | v != u.name :: RecordOf(changed, v) == RecordOf(t, v)
  {
    hide Records, Print;
    var changed := t[i := u];
    ReplacedWellFormed(t, i, u);
    RecordsOfPrint(changed);
    FindUnique(t, i);
    forall v ensures Find(changed, v) == Find(t, v) {
      FindAfterUpdate(t, i, u, v);
    }
  }

  lemma ChangeCoherent(c: Suite, s: State, pt: Bytes, e: Env)
    requires Ideal(c) && StateCoherent(c, s) && RequestOk(s.users, e) && s.session.authenticated
    ensures StateCoherent(c, Change(c, s, pt, e).state)
    ensures OthersSame(s, Change(c, s, pt, e).state.files, Change(c, s, pt, e).state.users, s.session.username)
    ensures forall seed | PrivateEnc(s.session.username) in s.files
              && HoldsPair(c, s.files, s.users, s.session.username, seed) ::
              HoldsPair(c, Change(c, s, pt, e).state.files, Change(c, s, pt, e).state.users, s.session.username, seed)
  {
    hide Records, KeysKept, Print, WellFormed, KeyOf, DeriveKey, HashIdeal, SignatureIdeal, SealBlob, OpenBlob,
      OpensFor, ParseChange, WrapKey;
    var user, a := s.session.username, Change(c, s, pt, e).state;
    var parsed := ParseChange(pt);
    if s.session.hasKey && !s.session.deleted && parsed.Some? {
      var i := Find(s.users, user).value;
      var u := WithPassword(c, s.users[i], parsed.value, e.password.salt);
      var newKey := WrapKey(c, user, parsed.value);
      DerivedKey(c, s, user, parsed.value, e.derive);
      UpdatedTable(s.users, i, u);
      NewPasswordKey(c, s.users[i], parsed.value, e.password.salt);
      if PrivateEnc(user) in s.files {
        KeptHasPublic(c, s.files, s.users, user);
        forall seed | HoldsPair(c, s.files, s.users, user, seed)
          ensures HoldsPair(c, a.files, a.users, user, seed)
        {
          OpensForKey(c, s.users[i], s.session.key, s.files[PrivateEnc(user)], c.privatePem(seed));
          PemFits(c, seed);
          SealedOpensFor(c, u, newKey, e.reencrypt.seal.salt, e.reencrypt.seal.iv, c.privatePem(seed));
        }
      }
      KeysFrame(c, s, a.files, a.users, user);
    }
  }

  lemma NewPasswordKey(c: Suite, u: User, password: Bytes, salt: Salt)
    ensures KeyOf(c, WithPassword(c, u, password, salt), WrapKey(c, u.name, password))
  {
    assert Accepts(c, WithPassword(c, u, password, salt), password);
  }

  lemma OpensForKey(c: Suite, u: User, key: Digest, blob: Bytes, pem: Bytes)
    requires KeyOf(c, u, key) && OpensFor(c, u, blob, pem)
    ensures OpenBlob(c, key, blob) == Some(pem)
  {
  }

  lemma HandleCoherent(c: Suite, s: State, pt: Bytes, e: Env)
    requires Ideal(c) && StateCoherent(c, s) && RequestOk(s.users, e) && pt != []
    ensures StateCoherent(c, Handle(c, s, pt, e).state)
  {
    hide Change, Create, Delete, Authenticate, Sign, Lookup, StateCoherent, RequestOk;
    ReadersStep(c, s, pt, e);
    AuthenticateCoherent(c, s, pt, e);
    ClearedCoherent(c, s);
    if s.session.authenticated {
      ChangeCoherent(c, s, pt, e);
      CreateCoherent(c, s, e);
      DeleteCoherent(c, s, e);
    }
  }

  lemma ClearedCoherent(c: Suite, s: State)
    requires StateCoherent(c, s)
    ensures StateCoherent(c, s.(session := CLEARED))
  {
  }

  lemma BootCoherent(c: Suite, files: Files, boot: StartEnv)
    requires boot.first.allocOk && boot.second.allocOk && Coherent(c, World(files, None))
    ensures var (after, users) := Boot(c, files, boot);
      Coherent(c, World(after, if users.Some? then Some(Running(users.value, CLEARED)) else None))
  {
    hide Records, Print, Bootstrap.SeedText;
    var (after, users) := Boot(c, files, boot);
    if users.Some? {
      TableIdempotence(after[UserTable]);
    }
    if UserTable !in files {
      assert NoPrivateKeys(after);
    }
  }

  lemma RegisterCoherent(c: Suite, files: Files, name: Bytes, password: Bytes, e: Provision.Env)
    requires Coherent(c, World(files, None))
    ensures Coherent(c, World(Provision.Register(c, files, name, password, e).0, None))
  {
    hide Records, Print, Holds, Provision.Registered;
    var after := Provision.Register(c, files, name, password, e).0;
    if UserTable in files && Records(files[UserTable]).Some? {
      var t := Records(files[UserTable]).value;
      Provision.RefusalKeepsTable(c, files, name, password, e);
      forall v | PrivateEnc(v) in after && Records(after[UserTable]).Some?
        ensures KeyKept(c, after, Records(after[UserTable]).value, v)
      {
        assert PrivateEnc(v) in files && KeyKept(c, files, t, v);
        Provision.RegisterKeepsRecord(c, files, name, password, e, v);
        var seed :| HoldsPair(c, files, t, v, seed);
        assert HoldsPair(c, after, Records(after[UserTable]).value, v, seed);
      }
    }
  }

  lemma StepCoherent(c: Suite, w: World, e: Event)
    requires Ideal(c) && Coherent(c, w) && EventOk(w, e)
    ensures Coherent(c, Step(c, w, e).0)
  {
    hide Handle, RequestOk, KeysKept, Records, SessionCoherent, Provision.Register, Boot;
    match e
    case Start(boot) =>
      if w.server.None? {
        BootCoherent(c, w.files, boot);
      }
    case Request(pt, env) =>
      if w.server.Some? && pt != [] {
        HandleCoherent(c, State(w.server.value.users, w.files, w.server.value.session), pt, env);
      }
    case Stop =>
    case Register(name, password, tool) =>
      if w.server.None? {
        RegisterCoherent(c, w.files, name, password, tool);
      }
  }

  lemma AllOkShorter(c: Suite, w: World, es: seq<Event>)
    requires AeadIdeal(c) && es != [] && AllOk(c, w, es)
    ensures AllOk(c, w, es[..|es| - 1]) && EventOk(Run(c, w, es[..|es| - 1]), es[|es| - 1])
  {
    hide EventOk, Step;
    var shorter := es[..|es| - 1];
    forall k | 0 <= k < |shorter| ensures OkAt(c, w, shorter, k) {
      BeforeShorter(c, w, es, k);
      assert OkAt(c, w, es, k);
    }
    assert OkAt(c, w, es, |es| - 1);
    assert Before(c, w, es, |es| - 1) == Run(c, w, es[..|es| - 1]);
  }

  lemma {:induction false} RunCoherent(c: Suite, w: World, es: seq<Event>)
    requires Ideal(c) && Coherent(c, w) && AllOk(c, w, es)
    ensures Coherent(c, Run(c, w, es))
  {
    hide Coherent, Step, AllOk, EventOk;
    if es != [] {
      AllOkShorter(c, w, es);
      RunCoherent(c, w, es[..|es| - 1]);
      StepCoherent(c, Run(c, w, es[..|es| - 1]), es[|es| - 1]);
    }
  }

  // ---------- the promises ----------

  /**
   * Wrap-key coherence: start with no private key files; then after any run of start-ups, logins, password
   * changes, key creations, signings, deletions, logouts, restarts and registrations in which no call of a
   * request fails, every stored blob opens under the key of every password its owner's record accepts, the
   * record is no tombstone, and a logged-in user's session key is that key.
   */
  lemma WrapKeyCoherence(c: Suite, w: World, es: seq<Event>, user: Bytes)
    requires Ideal(c) && w.server.None? && NoPrivateKeys(w.files) && AllOk(c, w, es)
    requires Run(c, w, es).server.Some? && PrivateEnc(user) in Run(c, w, es).files
    ensures var now := Run(c, w, es);
      var t, s := now.server.value.users, now.server.value.session;
      && PublicPem(user) in now.files
      && RecordOf(t, user).Some? && !RecordOf(t, user).value.deleted
      && (exists seed ::
           && now.files[PublicPem(user)] == c.publicPem(seed)
           && forall p :: Accepts(c, RecordOf(t, user).value, p) ==>
                OpenBlob(c, WrapKey(c, user, p), now.files[PrivateEnc(user)]) == Some(c.privatePem(seed)))
      && (s.authenticated && s.username == user ==>
           s.hasKey && forall p :: Accepts(c, RecordOf(t, user).value, p) ==> s.key == WrapKey(c, user, p))
  {
    hide OpenBlob, WrapKey, Records, WellFormed, Accepts;
    var now := Run(c, w, es);
    RunCoherent(c, w, es);
    var t, s := now.server.value.users, now.server.value.session;
    KeptHasPublic(c, now.files, t, user);
    var seed :| HoldsPair(c, now.files, t, user, seed);
    var u := RecordOf(t, user).value;
    assert u.name == user;
    if s.authenticated && s.username == user {
      var q :| Accepts(c, u, q) && s.key == WrapKey(c, u.name, q);
      forall p | Accepts(c, u, p) ensures s.key == WrapKey(c, user, p) {
        SameWrapKeyIdeal(c, u, p, q);
      }
    }
  }

  /** A signature handed out in a coherent state verifies under the stored public key of the session's user. */
  lemma SignatureVerifies(c: Suite, s: State, pt: Bytes, e: Env)
    requires Ideal(c) && StateCoherent(c, s) && pt != [] && pt[0] == OP_SIGN_DOC && Handle(c, s, pt, e).status == Ok
    ensures PublicPem(s.session.username) in s.files && PrivateEnc(s.session.username) in s.files
    ensures c.verify(s.files[PublicPem(s.session.username)], pt[1..], Handle(c, s, pt, e).data)
  {
    hide Change, Create, Delete, Authenticate, Lookup, OpenBlob, WrapKey, Records, WellFormed, HashIdeal;
    var user := s.session.username;
    KeptHasPublic(c, s.files, s.users, user);
    var seed :| HoldsPair(c, s.files, s.users, user, seed);
    OpensForKey(c, RecordOf(s.users, user).value, s.session.key, s.files[PrivateEnc(user)], c.privatePem(seed));
  }

  lemma LoginGranted(c: Suite, s: State, user: Bytes, password: Bytes, e: Env)
    requires AeadIdeal(c) && StateCoherent(c, s) && PrivateEnc(user) in s.files && RequestOk(s.users, e)
    requires Short(password) && 0 !in password && Accepts(c, RecordOf(s.users, user).value, password)
    ensures Short(user)
    ensures var u := RecordOf(s.users, user).value;
      var a := Handle(c, s, BuildAuth(user, password), e);
      && a.status == Ok && a.data == Flags(u.mustChange, false)
      && a.state == s.(session := Session(true, user, u.mustChange, false, WrapKey(c, user, password), true))
  {
    hide Change, Create, Delete, Lookup, Sign, DeriveKey, ParseAuth, BuildAuth, WrapKey, KeysKept, Records;
    KeptHasPublic(c, s.files, s.users, user);
    var u := RecordOf(s.users, user).value;
    assert u in s.users;
    BuiltRequestsParse(user, password);
    AuthOpcode(user, password);
    DerivedKey(c, s, user, password, e.derive);
  }

  lemma AuthOpcode(user: Bytes, password: Bytes)
    requires Short(user) && Short(password)
    ensures BuildAuth(user, password) != [] && BuildAuth(user, password)[0] == OP_AUTH
  {
  }

  lemma SigningGranted(c: Suite, s: State, doc: Bytes, e: Env)
    requires Ideal(c) && StateCoherent(c, s) && RequestOk(s.users, e)
    requires s.session.authenticated && !s.session.mustChange && PrivateEnc(s.session.username) in s.files
    requires |doc| <= UINT16_MAX
    ensures var a := Handle(c, s, [OP_SIGN_DOC] + doc, e);
      a.status == Ok && a.state == s && |a.data| <= UINT16_MAX
  {
    hide Change, Create, Delete, Authenticate, Lookup, OpenBlob, WrapKey, Records, WellFormed, HashIdeal;
    var user, pt := s.session.username, [OP_SIGN_DOC] + doc;
    KeptHasPublic(c, s.files, s.users, user);
    var seed :| HoldsPair(c, s.files, s.users, user, seed);
    OpensForKey(c, RecordOf(s.users, user).value, s.session.key, s.files[PrivateEnc(user)], c.privatePem(seed));
    assert pt[1..] == doc;
  }

  /**
   * A user with stored keys and no pending password change can always log in with any accepted password and
   * have any document of at most 65535 bytes signed, and the signature verifies under the stored public key.
   */
  lemma SigningAlwaysSucceeds(
    c: Suite, w: World, es: seq<Event>, user: Bytes, password: Bytes, loginEnv: Env, doc: Bytes, signEnv: Env)
    requires Ideal(c) && w.server.None? && NoPrivateKeys(w.files) && AllOk(c, w, es)
    requires Run(c, w, es).server.Some? && PrivateEnc(user) in Run(c, w, es).files
    requires RecordOf(Run(c, w, es).server.value.users, user).Some?
    requires !RecordOf(Run(c, w, es).server.value.users, user).value.mustChange
    requires Accepts(c, RecordOf(Run(c, w, es).server.value.users, user).value, password)
    requires Short(password) && 0 !in password && |doc| <= UINT16_MAX
    requires RequestOk(Run(c, w, es).server.value.users, loginEnv)
    requires RequestOk(Run(c, w, es).server.value.users, signEnv)
    ensures Short(user)
    ensures var now := Run(c, w, es);
      var (middle, first) := Step(c, now, Request(BuildAuth(user, password), loginEnv));
      var (last, second) := Step(c, middle, Request([OP_SIGN_DOC] + doc, signEnv));
      && first == Some(Reply(Ok, [0, 0]))
      && second.Some? && second.value.status == Ok
      && PublicPem(user) in last.files && c.verify(last.files[PublicPem(user)], doc, second.value.data)
  {
    hide Handle, Run, AllOk, StateCoherent, RequestOk, Accepts, BuildAuth, Ideal, WrapKey;
    IdealAead(c);
    var now := Run(c, w, es);
    RunCoherent(c, w, es);
    var s := State(now.server.value.users, now.files, now.server.value.session);
    LoginGranted(c, s, user, password, loginEnv);
    AuthOpcode(user, password);
    HandleCoherent(c, s, BuildAuth(user, password), loginEnv);
    var mid := Handle(c, s, BuildAuth(user, password), loginEnv).state;
    SigningGranted(c, mid, doc, signEnv);
    SignatureVerifies(c, mid, [OP_SIGN_DOC] + doc, signEnv);
    assert ([OP_SIGN_DOC] + doc)[1..] == doc;
  }

  /**
   * The same for a session already open: whenever a run without failing calls ends with a user logged in, no
   * pending password change and stored keys, any document of at most 65535 bytes is signed.
   */
  lemma OpenSessionSigns(c: Suite, w: World, es: seq<Event>, doc: Bytes, signEnv: Env)
    requires Ideal(c) && Coherent(c, w) && AllOk(c, w, es) && |doc| <= UINT16_MAX
    requires var now := Run(c, w, es);
      && now.server.Some? && now.server.value.session.authenticated && !now.server.value.session.mustChange
      && PrivateEnc(now.server.value.session.username) in now.files && RequestOk(now.server.value.users, signEnv)
    ensures var now := Run(c, w, es);
      var pub := PublicPem(now.server.value.session.username);
      var (after, reply) := Step(c, now, Request([OP_SIGN_DOC] + doc, signEnv));
      && after == now && reply.Some? && reply.value.status == Ok && |reply.value.data| <= UINT16_MAX
      && pub in now.files && c.verify(now.files[pub], doc, reply.value.data)
  {
    hide Handle, Run, AllOk, StateCoherent, RequestOk, Ideal;
    IdealAead(c);
    var now := Run(c, w, es);
    RunCoherent(c, w, es);
    var s := State(now.server.value.users, now.files, now.server.value.session);
    SigningGranted(c, s, doc, signEnv);
    SignatureVerifies(c, s, [OP_SIGN_DOC] + doc, signEnv);
    assert ([OP_SIGN_DOC] + doc)[1..] == doc;
  }

  /** Event `k` is a SIGN_DOC that was answered with a signature. */
  predicate Signs(c: Suite, w: World, es: seq<Event>, k: nat)
    requires AeadIdeal(c) && k < |es|
  {
    && es[k].Request? && es[k].pt != [] && es[k].pt[0] == OP_SIGN_DOC
    && Before(c, w, es, k).server.Some? && ReplyTo(c, w, es, k).value.status == Ok
  }

  /**
   * Every signature handed out in such a run, even by a request that meets failures itself, verifies for the
   * document sent under the public key stored for the session's user.
   */
  lemma SignaturesVerify(c: Suite, w: World, es: seq<Event>, k: nat)
    requires Ideal(c) && Coherent(c, w) && k < |es| && AllOk(c, w, es[..k]) && Signs(c, w, es, k)
    ensures var at := Before(c, w, es, k);
      var pub := PublicPem(at.server.value.session.username);
      && pub in at.files && PrivateEnc(at.server.value.session.username) in at.files
      && c.verify(at.files[pub], es[k].pt[1..], ReplyTo(c, w, es, k).value.data)
  {
    hide Handle, AllOk, StateCoherent, Ideal;
    IdealAead(c);
    var at := Before(c, w, es, k);
    RunCoherent(c, w, es[..k]);
    SignatureVerifies(c, State(at.server.value.users, at.files, at.server.value.session), es[k].pt, es[k].env);
  }

  lemma IdealAead(c: Suite)
    requires Ideal(c)
    ensures AeadIdeal(c)
  {
  }

  // ---------- stability of the key pair ----------

  /** The request is a DELETE_KEYS of this user that succeeds. */
  predicate Deletes(c: Suite, s: State, pt: Bytes, e: Env, user: Bytes)
    requires AeadIdeal(c) && pt != []
  {
    pt[0] == OP_DELETE_KEYS && s.session.username == user && Handle(c, s, pt, e).status == Ok
  }

  lemma PairFrame(c: Suite, s: State, a: State, user: Bytes, seed: nat)
    requires HoldsPair(c, s.files, s.users, user, seed)
    requires OthersSame(s, a.files, a.users, s.session.username) && user != s.session.username
    ensures HoldsPair(c, a.files, a.users, user, seed)
  {
    hide Holds, RecordOf;
  }

  lemma OperationKeepsPair(c: Suite, s: State, pt: Bytes, e: Env, user: Bytes, seed: nat)
    requires Ideal(c) && StateCoherent(c, s) && RequestOk(s.users, e) && s.session.authenticated
    requires HoldsPair(c, s.files, s.users, user, seed)
    ensures HoldsPair(c, Create(c, s, e).state.files, Create(c, s, e).state.users, user, seed)
    ensures HoldsPair(c, Change(c, s, pt, e).state.files, Change(c, s, pt, e).state.users, user, seed)
    ensures Delete(s, e).status != Ok || s.session.username != user ==>
      HoldsPair(c, Delete(s, e).state.files, Delete(s, e).state.users, user, seed)
  {
    hide Change, StateCoherent, RequestOk, OthersSame, Holds, HashIdeal, SignatureIdeal;
    CreateCoherent(c, s, e);
    ChangeCoherent(c, s, pt, e);
    DeleteCoherent(c, s, e);
    PairPresent(c, s, user, seed);
    if user != s.session.username {
      PairFrame(c, s, Create(c, s, e).state, user, seed);
      PairFrame(c, s, Change(c, s, pt, e).state, user, seed);
      PairFrame(c, s, Delete(s, e).state, user, seed);
    } else if Delete(s, e).status != Ok {
      FailedDeletionIdle(c, s, e);
    }
  }

  lemma PairPresent(c: Suite, s: State, user: Bytes, seed: nat)
    requires HoldsPair(c, s.files, s.users, user, seed)
    ensures PrivateEnc(user) in s.files
  {
  }

  lemma FailedDeletionIdle(c: Suite, s: State, e: Env)
    requires StateCoherent(c, s) && RequestOk(s.users, e) && s.session.authenticated && Delete(s, e).status != Ok
    ensures Delete(s, e).state == s
  {
    hide Print, KeysKept, Records, WellFormed, KeyOf;
  }

  lemma HandleKeepsPair(c: Suite, s: State, pt: Bytes, e: Env, user: Bytes, seed: nat)
    requires Ideal(c) && StateCoherent(c, s) && RequestOk(s.users, e) && pt != []
    requires HoldsPair(c, s.files, s.users, user, seed) && !Deletes(c, s, pt, e, user)
    ensures var a := Handle(c, s, pt, e).state;
      HoldsPair(c, a.files, a.users, user, seed)
  {
    hide Change, Create, Delete, Authenticate, Sign, Lookup, StateCoherent, RequestOk, HoldsPair;
    ReadersStep(c, s, pt, e);
    if s.session.authenticated {
      OperationKeepsPair(c, s, pt, e, user, seed);
    }
  }

  /** The table the next reader of the world would use. */
  function TableOf(w: World): Option<seq<User>> {
    if w.server.Some? then Some(w.server.value.users)
    else if UserTable in w.files then Records(w.files[UserTable])
    else None
  }

  ghost predicate WorldHolds(c: Suite, w: World, user: Bytes, seed: nat) {
    && Get(w.files, PublicPem(user)) == Some(c.publicPem(seed)) && PrivateEnc(user) in w.files
    && (TableOf(w).Some? ==> HoldsPair(c, w.files, TableOf(w).value, user, seed))
  }

  predicate DeletesAt(c: Suite, w: World, e: Event, user: Bytes)
    requires AeadIdeal(c)
  {
    e.Request? && e.pt != [] && w.server.Some?
      && Deletes(c, State(w.server.value.users, w.files, w.server.value.session), e.pt, e.env, user)
  }

  lemma StepKeepsPair(c: Suite, w: World, e: Event, user: Bytes, seed: nat)
    requires Ideal(c) && Coherent(c, w) && EventOk(w, e) && WorldHolds(c, w, user, seed) && !DeletesAt(c, w, e, user)
    ensures WorldHolds(c, Step(c, w, e).0, user, seed)
  {
    hide Handle, RequestOk, KeysKept, Records, SessionCoherent, Holds, HashIdeal, SignatureIdeal, RecordOf, Print;
    match e
    case Start(boot) =>
      if w.server.None? && Boot(c, w.files, boot).1.Some? {
        TableIdempotence(w.files[UserTable]);
        Provision.ReadersAgree(w.files[UserTable], Load(w.files[UserTable]).value);
      }
    case Request(pt, env) =>
      if w.server.Some? && pt != [] {
        var s := State(w.server.value.users, w.files, w.server.value.session);
        HandleKeepsPair(c, s, pt, env, user, seed);
        var a := Handle(c, s, pt, env).state;
        PairFiles(c, a.files, a.users, user, seed);
      }
    case Stop =>
    case Register(name, password, tool) =>
      if w.server.None? && UserTable in w.files {
        RegisterKeepsPair(c, w, name, password, tool, user, seed);
      }
  }

  lemma PairFiles(c: Suite, files: Files, t: seq<User>, user: Bytes, seed: nat)
    requires HoldsPair(c, files, t, user, seed)
    ensures Get(files, PublicPem(user)) == Some(c.publicPem(seed)) && PrivateEnc(user) in files
  {
  }

  lemma RegisterKeepsPair(c: Suite, w: World, name: Bytes, password: Bytes, e: Provision.Env, user: Bytes, seed: nat)
    requires w.server.None? && UserTable in w.files && Coherent(c, w) && WorldHolds(c, w, user, seed)
    ensures WorldHolds(c, w.(files := Provision.Register(c, w.files, name, password, e).0), user, seed)
  {
    hide Records, Print, Holds, Provision.Registered;
    Provision.RefusalKeepsTable(c, w.files, name, password, e);
    if Records(w.files[UserTable]).Some? {
      assert KeyKept(c, w.files, Records(w.files[UserTable]).value, user);
      Provision.RegisterKeepsRecord(c, w.files, name, password, e, user);
    }
  }

  /**
   * Key-pair stability: in the same runs, a stored pair stays the same pair -- the public file unchanged, the
   * private half still opening for the current password -- through repeated key creation, any number of
   * password changes, restarts and registrations, until that user deletes it.
   */
  lemma {:induction false} KeyPairStability(c: Suite, w: World, es: seq<Event>, user: Bytes, seed: nat)
    requires Ideal(c) && Coherent(c, w) && AllOk(c, w, es) && WorldHolds(c, w, user, seed)
    requires forall k | 0 <= k < |es| :: !DeletesAt(c, Before(c, w, es, k), es[k], user)
    ensures WorldHolds(c, Run(c, w, es), user, seed)
    ensures Get(Run(c, w, es).files, PublicPem(user)) == Get(w.files, PublicPem(user))
  {
    hide Coherent, Step, AllOk, EventOk, DeletesAt, Holds, Ideal;
    IdealAead(c);
    if es != [] {
      var n := |es| - 1;
      var shorter := es[..n];
      AllOkShorter(c, w, es);
      forall k | 0 <= k < |shorter| ensures !DeletesAt(c, Before(c, w, shorter, k), shorter[k], user) {
        BeforeShorter(c, w, es, k);
      }
      KeyPairStability(c, w, shorter, user, seed);
      RunCoherent(c, w, shorter);
      assert Before(c, w, es, n) == Run(c, w, shorter);
      StepKeepsPair(c, Run(c, w, shorter), es[n], user, seed);
    }
  }

  lemma AllOkSuffix(c: Suite, w: World, es: seq<Event>, k: nat)
    requires AeadIdeal(c) && k <= |es| && AllOk(c, w, es)
    ensures AllOk(c, w, es[..k]) && AllOk(c, Before(c, w, es, k), es[k..])
  {
    hide EventOk, Step, Run;
    forall i | 0 <= i < k ensures OkAt(c, w, es[..k], i) {
      assert OkAt(c, w, es, i) && es[..k][..i] == es[..i];
    }
    forall i | 0 <= i < |es| - k ensures OkAt(c, Before(c, w, es, k), es[k..], i) {
      BeforeSuffix(c, w, es, k, i);
      assert OkAt(c, w, es, k + i);
    }
  }

  lemma StoredPair(c: Suite, w: World, user: Bytes) returns (seed: nat)
    requires Coherent(c, w) && w.server.Some? && PrivateEnc(user) in w.files
    ensures WorldHolds(c, w, user, seed)
  {
    hide Holds, SessionCoherent, Records;
    KeptHasPublic(c, w.files, w.server.value.users, user);
    seed :| HoldsPair(c, w.files, w.server.value.users, user, seed);
    PairFiles(c, w.files, w.server.value.users, user, seed);
  }

  /** A signature keeps verifying under its user's stored public key until that user deletes the pair. */
  lemma SignaturesStayValid(c: Suite, w: World, es: seq<Event>, k: nat)
    requires Ideal(c) && Coherent(c, w) && AllOk(c, w, es) && k < |es| && Signs(c, w, es, k)
    requires var user := Before(c, w, es, k).server.value.session.username;
      forall i | k <= i < |es| :: !DeletesAt(c, Before(c, w, es, i), es[i], user)
    ensures var pub := PublicPem(Before(c, w, es, k).server.value.session.username);
      var now := Run(c, w, es);
      pub in now.files && c.verify(now.files[pub], es[k].pt[1..], ReplyTo(c, w, es, k).value.data)
  {
    hide Step, Run, AllOk, DeletesAt, Coherent, WorldHolds, Ideal;
    IdealAead(c);
    var at, rest := Before(c, w, es, k), es[k..];
    var user := at.server.value.session.username;
    AllOkSuffix(c, w, es, k);
    RunCoherent(c, w, es[..k]);
    SignaturesVerify(c, w, es, k);
    var seed := StoredPair(c, at, user);
    forall i | 0 <= i < |rest| ensures !DeletesAt(c, Before(c, at, rest, i), rest[i], user) {
      BeforeSuffix(c, w, es, k, i);
      assert rest[i] == es[k + i];
    }
    KeyPairStability(c, at, rest, user, seed);
    RunSplit(c, w, es, k);
  }
}
