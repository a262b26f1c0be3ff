/** How a deletion that cannot remove the private key file locks its user out for good, once re-registered. */
module Lockout {
  import opened Octets
  import opened Crypto
  import opened PrivateBlob
  import opened TableText
  import opened TableFile
  import opened Disk
  import opened Auth
  import opened Keystore
  import opened Requests
  import opened Server
  import opened Runs
  import opened Agreement
  import opened Coherence
  import opened Faults
  import opened Tombstones
  import Bootstrap
  import Provision

  /** A private key file that no password of the record opens. */
  ghost predicate Useless(c: Suite, u: User, blob: Bytes) {
    && HEADER_LENGTH <= |blob| && blob[4] == 2
    && forall p :: Accepts(c, u, p) ==> OpenBlob(c, WrapKey(c, u.name, p), blob).None?
  }

  /** If the table file can be read at all, the user's first record is this one. */
  predicate DiskRecord(files: Files, u: User) {
    && UserTable in files
    && (Records(files[UserTable]).Some? ==> RecordOf(Records(files[UserTable]).value, u.name) == Some(u))
  }

  /** A session of the user has yet to change its password, and holds at most the key of an accepted one. */
  ghost predicate SessionStuck(c: Suite, u: User, s: Session) {
    && (!s.authenticated ==> s == CLEARED)
    && (s.authenticated && s.username == u.name ==> s.mustChange && (s.hasKey ==> KeyOf(c, u, s.key)))
  }

  ghost predicate StateStuck(c: Suite, s: State, u: User, blob: Bytes) {
    && WellFormed(s.users) && RecordOf(s.users, u.name) == Some(u) && DiskRecord(s.files, u)
    && Get(s.files, PrivateEnc(u.name)) == Some(blob) && SessionStuck(c, u, s.session)
  }

  /** A live account with a pending password change and a private key file that is of no use to it. */
  ghost predicate Stuck(c: Suite, w: World, u: User, blob: Bytes) {
    && u.mustChange && !u.deleted && Useless(c, u, blob)
    && DiskRecord(w.files, u) && Get(w.files, PrivateEnc(u.name)) == Some(blob)
    && (w.server.Some? ==> StateStuck(c, State(w.server.value.users, w.files, w.server.value.session), u, blob))
  }

  // ---------- what requests leave alone ----------

  lemma OtherRecord(t: seq<User>, changed: seq<User>, name: Bytes, user: Bytes)
    requires Patched(t, changed, name) && name != user
    ensures RecordOf(changed, user) == RecordOf(t, user)
  {
    var i := Find(t, name).value;
    FindAfterUpdate(t, i, changed[i], user);
  }

  /** Whatever fails, a request touches no private key file but that of the session's user. */
  lemma OtherKeyFile(c: Suite, s: State, pt: Bytes, e: Env, user: Bytes)
    requires AeadIdeal(c) && pt != [] && s.session.username != user
    ensures Get(Handle(c, s, pt, e).state.files, PrivateEnc(user)) == Get(s.files, PrivateEnc(user))
  {
    hide Change, Create, Sign, Delete, Authenticate, Lookup;
    ReadersStep(c, s, pt, e);
    OtherKeyFileChange(c, s, pt, e, user);
    OtherKeyFileCreate(c, s, e, user);
    OtherKeyFileDelete(s, e, user);
  }

  lemma OtherKeyFileChange(c: Suite, s: State, pt: Bytes, e: Env, user: Bytes)
    requires AeadIdeal(c) && s.session.username != user
    ensures Get(Change(c, s, pt, e).state.files, PrivateEnc(user)) == Get(s.files, PrivateEnc(user))
  {
    hide DeriveKey, OpenBlob, Sealing, ParseChange, AeadIdeal, PathName;
  }

  lemma OtherKeyFileCreate(c: Suite, s: State, e: Env, user: Bytes)
    requires AeadIdeal(c) && s.session.username != user
    ensures Get(Create(c, s, e).state.files, PrivateEnc(user)) == Get(s.files, PrivateEnc(user))
  {
    hide Sealing, AeadIdeal, PathName;
  }

  lemma OtherKeyFileDelete(s: State, e: Env, user: Bytes)
    requires s.session.username != user
    ensures Get(Delete(s, e).state.files, PrivateEnc(user)) == Get(s.files, PrivateEnc(user))
  {
    hide PathName, SetDeleted;
    TombstoneKeyFile(s.users, s.files, s.session.username, e.delete.write, user);
  }

  lemma TombstoneKeyFile(users: seq<User>, files: Files, name: Bytes, w: WriteEnv, user: Bytes)
    ensures Get(SetDeleted(users, files, name, true, w).files, PrivateEnc(user)) == Get(files, PrivateEnc(user))
    ensures Get(SetDeleted(users, files, name, true, w).files, PublicPem(user)) == Get(files, PublicPem(user))
  {
    hide Print;
  }

  // ---------- the lock ----------

  lemma KeyUseless(c: Suite, u: User, key: Digest, blob: Bytes)
    requires KeyOf(c, u, key) && Useless(c, u, blob)
    ensures OpenBlob(c, key, blob).None?
  {
  }

  /** Every request of a stuck user but AUTH and LOGOUT fails and changes nothing. */
  lemma StuckUserRefused(c: Suite, s: State, pt: Bytes, e: Env, u: User, blob: Bytes)
    requires AeadIdeal(c) && pt != [] && pt[0] != OP_AUTH && pt[0] != OP_LOGOUT && e.reencrypt.readOk
    requires Useless(c, u, blob) && StateStuck(c, s, u, blob)
    requires s.session.authenticated && s.session.username == u.name
    ensures Handle(c, s, pt, e).state == s && Handle(c, s, pt, e).status != Ok
  {
    hide Handle, WellFormed, Records, OpenBlob, WrapKey;
    if s.session.hasKey {
      KeyUseless(c, u, s.session.key, blob);
    }
    StaleBlobLocksAccount(c, s, pt, e);
  }

  lemma LoginStuck(c: Suite, s: State, pt: Bytes, e: Env, u: User, blob: Bytes)
    requires u.mustChange && Useless(c, u, blob) && StateStuck(c, s, u, blob)
    ensures var a := Authenticate(c, s, pt, e).state;
      a.users == s.users && a.files == s.files && SessionStuck(c, u, a.session)
  {
    hide WellFormed, Records, OpenBlob, ParseAuth, WrapKey;
  }

  lemma HandleKeepsStuck(c: Suite, s: State, pt: Bytes, e: Env, u: User, blob: Bytes)
    requires AeadIdeal(c) && pt != [] && e.reencrypt.readOk
    requires u.mustChange && Useless(c, u, blob) && StateStuck(c, s, u, blob)
    ensures StateStuck(c, Handle(c, s, pt, e).state, u, blob)
  {
    hide Change, Create, Sign, Delete, Authenticate, Lookup, WellFormed, Records, Useless, Print, RecordOf;
    var a := Handle(c, s, pt, e).state;
    if pt[0] == OP_AUTH {
      LoginStuck(c, s, pt, e, u, blob);
    } else if !s.session.authenticated {
      ReadersStep(c, s, pt, e);
    } else if s.session.username == u.name {
      if pt[0] != OP_LOGOUT {
        StuckUserRefused(c, s, pt, e, u, blob);
      }
    } else {
      OthersKeepStuck(c, s, pt, e, u, blob);
    }
  }

  lemma OthersKeepStuck(c: Suite, s: State, pt: Bytes, e: Env, u: User, blob: Bytes)
    requires AeadIdeal(c) && pt != [] && pt[0] != OP_AUTH
    requires StateStuck(c, s, u, blob) && s.session.authenticated && s.session.username != u.name
    ensures StateStuck(c, Handle(c, s, pt, e).state, u, blob)
  {
    hide Handle, Records, Print, RecordOf, KeyOf;
    var a := Handle(c, s, pt, e).state;
    HandleStep(c, s, pt, e);
    OtherKeyFile(c, s, pt, e, u.name);
    HandleSession(c, s, pt, e);
    if pt[0] == OP_LOGOUT {
      LoggedOutCleared(c, s, pt, e);
    }
    if !Idle(s, a) {
      PatchedWellFormed(s.users, a.users, s.session.username);
      OtherRecord(s.users, a.users, s.session.username, u.name);
      RecordsOfPrint(a.users);
    }
  }

  lemma LoggedOutCleared(c: Suite, s: State, pt: Bytes, e: Env)
    requires AeadIdeal(c) && pt != [] && pt[0] == OP_LOGOUT && s.session.authenticated
    ensures Handle(c, s, pt, e) == Answer(s.(session := CLEARED), Ok, [])
  {
  }

  lemma RegisterKeepsStuck(c: Suite, w: World, name: Bytes, password: Bytes, e: Provision.Env, u: User, blob: Bytes)
    requires w.server.None? && Stuck(c, w, u, blob)
    ensures Stuck(c, w.(files := Provision.Register(c, w.files, name, password, e).0), u, blob)
  {
    hide Records, Print, Useless, RecordOf, Provision.Registered;
    Provision.RefusalKeepsTable(c, w.files, name, password, e);
    if Records(w.files[UserTable]).Some? {
      Provision.RegisterKeepsRecord(c, w.files, name, password, e, u.name);
    }
  }

  lemma StepKeepsStuck(c: Suite, w: World, e: Event, u: User, blob: Bytes)
    requires AeadIdeal(c) && Admissible(e) && Stuck(c, w, u, blob)
    requires e.Request? ==> e.env.reencrypt.readOk
    ensures Stuck(c, Step(c, w, e).0, u, blob)
  {
    hide Handle, Records, Useless, RecordOf, Provision.Register;
    match e
    case Start(boot) =>
      if w.server.None? && Boot(c, w.files, boot).1.Some? {
        TableIdempotence(w.files[UserTable]);
        Provision.ReadersAgree(w.files[UserTable], Load(w.files[UserTable]).value);
      }
    case Request(pt, env) =>
      if w.server.Some? && pt != [] {
        HandleKeepsStuck(c, State(w.server.value.users, w.files, w.server.value.session), pt, env, u, blob);
      }
    case Stop =>
    case Register(name, password, tool) =>
      if w.server.None? {
        RegisterKeepsStuck(c, w, name, password, tool, u, blob);
      }
  }

  /** The run reads the old key file whenever it re-wraps: an unreadable file would count as absent. */
  predicate Readable(es: seq<Event>) {
    forall k | 0 <= k < |es| :: Admissible(es[k]) && (es[k].Request? ==> es[k].env.reencrypt.readOk)
  }

  lemma {:induction false} RunKeepsStuck(c: Suite, w: World, es: seq<Event>, u: User, blob: Bytes)
    requires AeadIdeal(c) && Readable(es) && Stuck(c, w, u, blob)
    ensures Stuck(c, Run(c, w, es), u, blob)
  {
    hide Stuck, Step, Admissible;
    if es != [] {
      RunKeepsStuck(c, w, es[..|es| - 1], u, blob);
      StepKeepsStuck(c, Run(c, w, es[..|es| - 1]), es[|es| - 1], u, blob);
    }
  }

  /**
   * Locked out for good: once an account is stuck, in any run that can read the old key file -- with logins,
   * restarts, registrations and any other failures -- no request of that user but AUTH and LOGOUT succeeds or
   * changes anything. The tool does not help, since it refuses active accounts.
   */
  lemma LockedOutForGood(c: Suite, w: World, es: seq<Event>, k: nat, u: User, blob: Bytes)
    requires AeadIdeal(c) && Readable(es) && Stuck(c, w, u, blob) && k < |es|
    requires es[k].Request? && es[k].pt != [] && es[k].pt[0] != OP_AUTH && es[k].pt[0] != OP_LOGOUT
    requires var at := Before(c, w, es, k);
      at.server.Some? && at.server.value.session.authenticated && at.server.value.session.username == u.name
    ensures ReplyTo(c, w, es, k).Some? && ReplyTo(c, w, es, k).value.status != Ok
    ensures Before(c, w, es, k + 1) == Before(c, w, es, k)
  {
    hide Handle, Useless, StateStuck, Run;
    var at := Before(c, w, es, k);
    BeforeNext(c, w, es, k);
    RunKeepsStuck(c, w, es[..k], u, blob);
    StuckUserRefused(c, State(at.server.value.users, at.files, at.server.value.session), es[k].pt, es[k].env, u, blob);
  }

  /** The login itself is granted, with the flag that demands the password change which then always fails. */
  lemma StuckLogin(c: Suite, w: World, u: User, blob: Bytes, password: Bytes, e: Env)
    requires AeadIdeal(c) && Stuck(c, w, u, blob) && w.server.Some? && PathName(u.name) && ShortName(u.name)
    requires Short(password) && 0 !in password && Accepts(c, u, password) && e.hashOk && e.derive.hashOk
    ensures Short(u.name)
    ensures var (after, reply) := Step(c, w, Request(BuildAuth(u.name, password), e));
      && reply == Some(Reply(Ok, [1, 0])) && after.server.Some? && after.files == w.files
      && after.server.value.session ==
           Session(true, u.name, true, false, WrapKey(c, u.name, password), true)
  {
    hide Change, Create, Delete, Lookup, Sign, ParseAuth, BuildAuth, WrapKey, Records, OpenBlob, Accepts;
    var users := w.server.value.users;
    assert users[Find(users, u.name).value] in users;
    BuiltRequestsParse(u.name, password);
    AuthOpcode(u.name, password);
  }

  // ---------- how an account gets stuck ----------

  /**
   * The deletion, the end of that server and the re-registration. From any coherent state of a running server
   * with the user logged in and keys stored: when the tombstone is written but one of the unlinks fails, the
   * client sees an internal error and the private key file stays; a registration without failures, under a
   * password whose key does not open that file, then succeeds and leaves a table the server accepts and an
   * account that is stuck.
   */
  lemma FailedUnlinkSticks(c: Suite, w: World, e: Env, password: Bytes, tool: Provision.Env)
    requires Ideal(c) && Coherent(c, w) && w.server.Some?
    requires var s := State(w.server.value.users, w.files, w.server.value.session);
      && Tombstoning(s, e) && !(e.delete.unlinkPubOk && e.delete.unlinkEncOk)
      && PrivateEnc(s.session.username) in s.files
      && OpenBlob(c, WrapKey(c, s.session.username, password), s.files[PrivateEnc(s.session.username)]).None?
    requires Provision.AllOk(w.server.value.users, tool)
    ensures var user := w.server.value.session.username;
      var (deleted, reply) := Step(c, w, Request([OP_DELETE_KEYS], e));
      var stopped := Step(c, deleted, Stop).0;
      var registered := Step(c, stopped, Register(user, password, tool)).0;
      && reply == Some(Reply(ErrInternal, []))
      && Provision.Register(c, stopped.files, user, password, tool).1
      && Stuck(c, registered, Provision.FreshAccount(c, user, password, tool.salt), w.files[PrivateEnc(user)])
      && Load(registered.files[UserTable]).Some?
  {
    hide OpenBlob, WrapKey, Records, Print, WellFormed, KeysKept, SessionCoherent, HashIdeal, SignatureIdeal;
    var s := State(w.server.value.users, w.files, w.server.value.session);
    var user, blob := s.session.username, w.files[PrivateEnc(s.session.username)];
    var u := Provision.FreshAccount(c, user, password, tool.salt);
    DeletionLeavesBlob(c, s, e);
    NewRecordUseless(c, s, u, password, blob);
    var after := Step(c, w, Request([OP_DELETE_KEYS], e)).0.files;
    RegisteredRecord(c, after, Handle(c, s, [OP_DELETE_KEYS], e).state.users, user, password, tool);
  }

  lemma DeletionLeavesBlob(c: Suite, s: State, e: Env)
    requires Ideal(c) && StateCoherent(c, s) && Tombstoning(s, e) && PrivateEnc(s.session.username) in s.files
    requires !(e.delete.unlinkPubOk && e.delete.unlinkEncOk)
    ensures var a := Handle(c, s, [OP_DELETE_KEYS], e);
      && a.status == ErrInternal && a.data == []
      && Get(a.state.files, PrivateEnc(s.session.username)) == Get(s.files, PrivateEnc(s.session.username))
      && UserTable in a.state.files && a.state.files[UserTable] == Print(a.state.users)
      && WellFormed(a.state.users) && |a.state.users| == |s.users|
      && RecordOf(a.state.users, s.session.username).Some?
      && RecordOf(a.state.users, s.session.username).value.deleted
  {
    hide Print, Records, KeysKept, SessionCoherent, PathName, SetDeleted, WellFormed, Ideal;
    var user := s.session.username;
    KeptHasPublic(c, s.files, s.users, user);
    TombstoneKeyFile(s.users, s.files, user, e.delete.write, user);
    TombstoneWritten(s.users, s.files, user, e.delete.write);
    DeletionAfterTombstone(s.users, s.files, user, e.delete);
    var i := Find(s.users, user).value;
    FindAfterUpdate(s.users, i, s.users[i].(deleted := true), user);
    ReplacedWellFormed(s.users, i, s.users[i].(deleted := true));
  }

  lemma NewRecordUseless(c: Suite, s: State, u: User, password: Bytes, blob: Bytes)
    requires Ideal(c) && StateCoherent(c, s) && Get(s.files, PrivateEnc(s.session.username)) == Some(blob)
    requires u.name == s.session.username && Accepts(c, u, password)
    requires OpenBlob(c, WrapKey(c, s.session.username, password), blob).None?
    ensures Useless(c, u, blob)
  {
    hide OpenBlob, WrapKey, Records, WellFormed, SessionCoherent, HashIdeal, SignatureIdeal;
    KeptHasPublic(c, s.files, s.users, s.session.username);
    forall p | Accepts(c, u, p) ensures OpenBlob(c, WrapKey(c, u.name, p), blob).None? {
      SameWrapKeyIdeal(c, u, p, password);
    }
  }

  /** Registering a tombstone revives it: the account is then the first record of its name for every reader. */
  lemma RegisteredRecord(c: Suite, files: Files, t: seq<User>, user: Bytes, password: Bytes, e: Provision.Env)
    requires UserTable in files && files[UserTable] == Print(t) && WellFormed(t) && Provision.AllOk(t, e)
    requires RecordOf(t, user).Some? && RecordOf(t, user).value.deleted
    ensures var (after, ok) := Provision.Register(c, files, user, password, e);
      && ok && UserTable in after && Load(after[UserTable]).Some?
      && DiskRecord(after, Provision.FreshAccount(c, user, password, e.salt))
      && Get(after, PrivateEnc(user)) == Get(files, PrivateEnc(user))
  {
    hide Records, Print, Load;
    RecordsOfPrint(t);
    var i := Find(t, user).value;
    var account := Provision.FreshAccount(c, user, password, e.salt);
    assert t[i] in t;
    FindAfterUpdate(t, i, account, user);
    ReplacedWellFormed(t, i, account);
    RecordsOfPrint(t[i := account]);
    LoadOfPrint(t[i := account]);
  }

  // ---------- a concrete run ----------

  function ExampleWrite(): WriteEnv {
    WriteEnv(true, 1, true, true, true, true, [])
  }

  /** The private key file cannot be removed. */
  function ExampleDeletion(): Env {
    ExampleEnv().(delete := DeleteEnv(ExampleWrite(), true, false, true))
  }

  function ExampleTool(): Provision.Env {
    Provision.Env(true, true, true, seq(16, _ => 0), ExampleWrite())
  }

  function ExampleBoot(): StartEnv {
    var e := Bootstrap.Env(true, true, true, 0, n => seq(16, _ => 0), true, true, true, true, true, []);
    StartEnv(e, e, true, true)
  }

  /**
   * User "u" deletes the keys, which fails half way, is registered again with password "b", and logs in to a new
   * server: all that remains is a password change that cannot succeed.
   */
  lemma ExampleLockedOut()
    ensures var c, s := Transparent(), ExampleState();
      AeadIdeal(c) &&
      var (deleted, reply) := Step(c, World(s.files, Some(Running(s.users, s.session))),
        Request([OP_DELETE_KEYS], ExampleDeletion()));
      var registered := Step(c, Step(c, deleted, Stop).0, Register(EXAMPLE_USER, [98], ExampleTool())).0;
      var started := Step(c, registered, Start(ExampleBoot())).0;
      var (last, login) := Step(c, started, Request(BuildAuth(EXAMPLE_USER, [98]), ExampleEnv()));
      && reply == Some(Reply(ErrInternal, [])) && login == Some(Reply(Ok, [1, 0]))
      && last.server.Some? && last.server.value.session.authenticated
      && last.server.value.session.username == EXAMPLE_USER
      && Stuck(c, last, Provision.FreshAccount(c, EXAMPLE_USER, [98], seq(16, _ => 0)), ExampleBlob())
  {
    hide Handle, Records, Print, Load, Stuck, Tombstoning, StateCoherent, BuildAuth, Provision.Register, WrapKey;
    TransparentIsIdeal();
    var c, s := Transparent(), ExampleState();
    var w := World(s.files, Some(Running(s.users, s.session)));
    var u := Provision.FreshAccount(c, EXAMPLE_USER, [98], seq(16, _ => 0));
    ExampleCoherent();
    ExampleTombstoning();
    ExampleKeysApart();
    FailedUnlinkSticks(c, w, ExampleDeletion(), [98], ExampleTool());
    var deleted := Step(c, w, Request([OP_DELETE_KEYS], ExampleDeletion())).0;
    var registered := Step(c, Step(c, deleted, Stop).0, Register(EXAMPLE_USER, [98], ExampleTool())).0;
    StuckHasTable(c, registered, u, ExampleBlob());
    StepKeepsStuck(c, registered, Start(ExampleBoot()), u, ExampleBlob());
    var started := Step(c, registered, Start(ExampleBoot())).0;
    StuckLogin(c, started, u, ExampleBlob(), [98], ExampleEnv());
    StepKeepsStuck(c, started, Request(BuildAuth(EXAMPLE_USER, [98]), ExampleEnv()), u, ExampleBlob());
  }

  lemma StuckHasTable(c: Suite, w: World, u: User, blob: Bytes)
    requires Stuck(c, w, u, blob)
    ensures UserTable in w.files
  {
  }

  lemma ExampleTombstoning()
    ensures Tombstoning(ExampleState(), ExampleDeletion())
  {
    hide Print, ExampleBlob;
    assert Find(ExampleState().users, EXAMPLE_USER) == Some(0);
  }

  lemma ExampleKeysApart()
    ensures OpenBlob(Transparent(), WrapKey(Transparent(), EXAMPLE_USER, [98]), ExampleBlob()).None?
  {
    hide OpenBlob, Layout;
    var key := WrapKey(Transparent(), EXAMPLE_USER, [98]);
    ExampleBlobOpens(key);
    assert key[..16][0] == 98 && TransparentHash([97])[..16][0] == 97;
  }
}
