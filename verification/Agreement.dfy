/** What every reachable server state keeps, whatever fails: memory against disk, session against table. */
module Agreement {
  import opened Octets
  import opened Crypto
  import opened TableText
  import opened TableFile
  import opened Disk
  import opened Auth
  import opened Keystore
  import opened Requests
  import opened Server
  import opened Runs
  import Provision

  /** Two tables with the same names and tombstones in the same order. */
  predicate SameShape(d: seq<User>, t: seq<User>) {
    |d| == |t| && forall i | 0 <= i < |d| :: d[i].name == t[i].name && d[i].deleted == t[i].deleted
  }

  /** Memory holds a well-formed table and the file on disk loads to one of the same shape. */
  predicate TableKept(users: seq<User>, files: Files) {
    && WellFormed(users)
    && UserTable in files
    && Load(files[UserTable]).Some?
    && SameShape(Load(files[UserTable]).value, users)
  }

  predicate InSync(users: seq<User>, files: Files) {
    UserTable in files && Load(files[UserTable]) == Some(users)
  }

  /** An unauthenticated session is all zero; an authenticated one is no freer than its table record. */
  predicate SessionKept(users: seq<User>, s: Session) {
    if !s.authenticated then s == CLEARED
    else
      var i := Find(users, s.username);
      i.Some? && (!s.mustChange ==> !users[i.value].mustChange)
  }

  predicate Kept(w: World) {
    w.server.Some? ==>
      TableKept(w.server.value.users, w.files) && SessionKept(w.server.value.users, w.server.value.session)
  }

  // ---------- what one request does to the table ----------

  /** One record changed under its own name; a current password stays current, and a tombstone stays. */
  predicate Patched(t: seq<User>, changed: seq<User>, name: Bytes) {
    var i := Find(t, name);
    && i.Some? && |changed| == |t| && changed == t[i.value := changed[i.value]]
    && changed[i.value].name == name
    && (t[i.value].deleted ==> changed[i.value].deleted)
    && (changed[i.value].mustChange ==> t[i.value].mustChange)
  }

  predicate SameTombstones(t: seq<User>, changed: seq<User>) {
    |changed| == |t| && forall i | 0 <= i < |t| :: changed[i].deleted == t[i].deleted
  }

  /** Nothing happened to the table. */
  predicate Idle(s: State, a: State) {
    UserTable in s.files && UserTable in a.files && a.users == s.users && a.files[UserTable] == s.files[UserTable]
  }

  /** A patched table was written. */
  predicate Stored(s: State, a: State) {
    && UserTable in a.files && a.files[UserTable] == Print(a.users)
    && Patched(s.users, a.users, s.session.username)
  }

  /** Only the table in memory was patched, and no tombstone. */
  predicate MemoryOnly(s: State, a: State) {
    && UserTable in s.files && UserTable in a.files && a.files[UserTable] == s.files[UserTable]
    && Patched(s.users, a.users, s.session.username) && SameTombstones(s.users, a.users)
  }

  /** A CHANGE_PASSWORD request whose table write failed after the record in memory had changed. */
  predicate PasswordWriteFailed(c: Suite, s: State, pt: Bytes, e: Env)
    requires AeadIdeal(c) && pt != []
  {
    var a := Handle(c, s, pt, e);
    && pt[0] == OP_CHANGE_PASSWORD && a.status == ErrInternal && !WriteSucceeds(a.state.users, e.password.write)
    && MemoryOnly(s, a.state)
  }

  lemma PasswordStep(c: Suite, s: State, files: Files, session: Session, password: Bytes, e: PasswordEnv)
    requires UserTable in s.files && UserTable in files && files[UserTable] == s.files[UserTable]
    ensures var r := ChangePassword(c, s.users, files, s.session.username, password, e);
      var a := State(r.users, r.files, session);
      var i := Find(s.users, s.session.username);
      if r.ok then Stored(s, a) && !a.users[i.value].mustChange
      else Idle(s, a) || (MemoryOnly(s, a) && !WriteSucceeds(r.users, e.write))
  {
  }

  lemma ReencryptKeepsTable(c: Suite, files: Files, user: Bytes, key: Digest, newKey: Digest, e: ReencryptEnv)
    requires AeadIdeal(c) && UserTable in files
    ensures var after := Reencrypt(c, files, user, key, newKey, e).0;
      UserTable in after && after[UserTable] == files[UserTable]
  {
  }

  lemma ChangeStep(c: Suite, s: State, pt: Bytes, e: Env)
    requires AeadIdeal(c) && UserTable in s.files
    ensures var a := Change(c, s, pt, e);
      var i := Find(s.users, s.session.username);
      if a.status == Ok then
        Stored(s, a.state) && !a.state.users[i.value].mustChange
        && a.state.session == s.session.(key := a.state.session.key, mustChange := false)
      else
        && a.state.session == s.session
        && (Idle(s, a.state) ||
             (MemoryOnly(s, a.state) && a.status == ErrInternal && !WriteSucceeds(a.state.users, e.password.write)))
  {
    var parsed := ParseChange(pt);
    if s.session.hasKey && !s.session.deleted && parsed.Some? {
      var user := s.session.username;
      var newKey := DeriveKey(c, s.files, user, parsed.value, e.derive, ZERO_KEY).0;
      var rewrapped := Reencrypt(c, s.files, user, s.session.key, newKey, e.reencrypt).0;
      ReencryptKeepsTable(c, s.files, user, s.session.key, newKey, e.reencrypt);
      PasswordStep(c, s, rewrapped, s.session, parsed.value, e.password);
      PasswordStep(c, s, rewrapped, s.session.(key := newKey, mustChange := false), parsed.value, e.password);
    }
  }

  lemma TombstoneStep(s: State, session: Session, w: WriteEnv)
    requires UserTable in s.files
    ensures var r := SetDeleted(s.users, s.files, s.session.username, true, w);
      var a := State(r.users, r.files, session);
      if r.ok then Stored(s, a) else Idle(s, a)
  {
    hide Print;
  }

  /** Once the tombstone is written, a deletion leaves the table alone. */
  lemma DeletionAfterTombstone(users: seq<User>, files: Files, user: Bytes, e: DeleteEnv)
    requires PathName(user)
    ensures var marked, r := SetDeleted(users, files, user, true, e.write), DeleteKeys(users, files, user, e);
      && r.users == marked.users
      && (UserTable in r.files <==> UserTable in marked.files)
      && (UserTable in r.files ==> r.files[UserTable] == marked.files[UserTable])
      && (r.ok ==> marked.ok) && (!marked.ok ==> r == marked)
  {
    hide SetDeleted, PathName;
  }

  lemma DeleteStep(s: State, e: Env)
    requires UserTable in s.files
    ensures var a := Delete(s, e);
      && (Idle(s, a.state) || Stored(s, a.state))
      && a.state.session == s.session.(deleted := a.state.session.deleted)
  {
    hide SetDeleted, Print;
    TombstoneStep(s, Delete(s, e).state.session, e.delete.write);
    if PathName(s.session.username) {
      DeletionAfterTombstone(s.users, s.files, s.session.username, e.delete);
      hide DeleteKeys;
    }
  }

  lemma CreateStep(c: Suite, s: State, e: Env)
    requires AeadIdeal(c) && UserTable in s.files
    ensures var a := Create(c, s, e);
      && Idle(s, a.state) && a.state.session == s.session.(deleted := a.state.session.deleted)
  {
    hide Sealing, CreateKeys;
    CreationKeepsTable(c, s.users, s.files, s.session.username, s.session.key, e.create);
  }

  lemma CreationKeepsTable(c: Suite, users: seq<User>, files: Files, user: Bytes, key: Digest, e: CreateEnv)
    requires AeadIdeal(c) && UserTable in files
    ensures var after := CreateKeys(c, users, files, user, key, e).0;
      UserTable in after && after[UserTable] == files[UserTable]
  {
    hide Sealing, IsDeleted, PathName, AeadIdeal;
  }

  lemma ReadersStep(c: Suite, s: State, pt: Bytes, e: Env)
    requires pt != []
    ensures Sign(c, s, pt, e).state == s && Lookup(s, pt, e).state == s
    ensures var a := Authenticate(c, s, pt, e).state;
      a.users == s.users && a.files == s.files && (SessionKept(s.users, s.session) ==> SessionKept(a.users, a.session))
  {
  }

  /** The table effect of any request. */
  lemma HandleStep(c: Suite, s: State, pt: Bytes, e: Env)
    requires AeadIdeal(c) && pt != [] && UserTable in s.files
    ensures var a := Handle(c, s, pt, e).state;
      Idle(s, a) || Stored(s, a) || PasswordWriteFailed(c, s, pt, e)
  {
    hide Change, Create, Sign, Delete, Authenticate, Lookup, Find, Print, Patched, SameTombstones, WriteSucceeds;
    ReadersStep(c, s, pt, e);
    ChangeStep(c, s, pt, e);
    DeleteStep(s, e);
    CreateStep(c, s, e);
  }

  lemma PatchedFind(t: seq<User>, changed: seq<User>, name: Bytes)
    requires Patched(t, changed, name)
    ensures Find(changed, name) == Find(t, name)
  {
    var i := Find(t, name).value;
    FindAfterUpdate(t, i, changed[i], name);
  }

  /** The session invariant survives any request. */
  lemma HandleSessionKept(c: Suite, s: State, pt: Bytes, e: Env)
    requires AeadIdeal(c) && pt != [] && UserTable in s.files && SessionKept(s.users, s.session)
    ensures var a := Handle(c, s, pt, e).state;
      SessionKept(a.users, a.session)
  {
    hide Change, Create, Sign, Delete, Authenticate, Lookup, Find, Print;
    ReadersStep(c, s, pt, e);
    ChangeStep(c, s, pt, e);
    DeleteStep(s, e);
    CreateStep(c, s, e);
    var name := s.session.username;
    if pt[0] == OP_CHANGE_PASSWORD {
      var a := Change(c, s, pt, e).state;
      if Patched(s.users, a.users, name) {
        PatchedFind(s.users, a.users, name);
      }
    } else if pt[0] == OP_DELETE_KEYS {
      var a := Delete(s, e).state;
      if Patched(s.users, a.users, name) {
        PatchedFind(s.users, a.users, name);
      }
    }
  }

  lemma PatchedWellFormed(t: seq<User>, changed: seq<User>, name: Bytes)
    requires WellFormed(t) && Patched(t, changed, name)
    ensures WellFormed(changed) && forall i | 0 <= i < |t| :: changed[i].name == t[i].name
  {
    var i := Find(t, name).value;
    ReplacedWellFormed(t, i, changed[i]);
  }

  lemma StepKeepsTable(s: State, a: State)
    requires TableKept(s.users, s.files)
    requires Idle(s, a) || Stored(s, a) || MemoryOnly(s, a)
    ensures TableKept(a.users, a.files)
    ensures Stored(s, a) ==> InSync(a.users, a.files)
  {
    if Stored(s, a) {
      PatchedWellFormed(s.users, a.users, s.session.username);
      LoadOfPrint(a.users);
    } else if MemoryOnly(s, a) {
      PatchedWellFormed(s.users, a.users, s.session.username);
      var d := Load(s.files[UserTable]).value;
      assert SameShape(d, a.users);
    }
  }

  lemma HandleKeeps(c: Suite, s: State, pt: Bytes, e: Env)
    requires AeadIdeal(c) && pt != [] && TableKept(s.users, s.files) && SessionKept(s.users, s.session)
    ensures var a := Handle(c, s, pt, e).state;
      && TableKept(a.users, a.files) && SessionKept(a.users, a.session)
      && (InSync(a.users, a.files) || a.files[UserTable] == s.files[UserTable])
      && (InSync(s.users, s.files) && !InSync(a.users, a.files) ==> PasswordWriteFailed(c, s, pt, e))
  {
    HandleStep(c, s, pt, e);
    HandleSessionKept(c, s, pt, e);
    StepKeepsTable(s, Handle(c, s, pt, e).state);
  }

  lemma BootKeeps(c: Suite, files: Files, boot: StartEnv)
    ensures var (after, users) := Boot(c, files, boot);
      users.Some? ==> TableKept(users.value, after) && InSync(users.value, after)
  {
    var (after, users) := Boot(c, files, boot);
    if users.Some? {
      TableIdempotence(after[UserTable]);
    }
  }

  lemma StepKeeps(c: Suite, w: World, e: Event)
    requires AeadIdeal(c) && Kept(w)
    ensures Kept(Step(c, w, e).0)
  {
    match e
    case Start(boot) => BootKeeps(c, w.files, boot);
    case Request(pt, env) =>
      if w.server.Some? && pt != [] {
        HandleKeeps(c, State(w.server.value.users, w.files, w.server.value.session), pt, env);
      }
    case Stop =>
    case Register(_, _, _) =>
  }

  lemma {:induction false} RunKeeps(c: Suite, w: World, es: seq<Event>)
    requires AeadIdeal(c) && Kept(w)
    ensures Kept(Run(c, w, es))
  {
    if es != [] {
      RunKeeps(c, w, es[..|es| - 1]);
      StepKeeps(c, Run(c, w, es[..|es| - 1]), es[|es| - 1]);
    }
  }

  // ---------- memory against disk ----------

  /** A DELETE_KEYS request in this state gets its tombstone written, whatever becomes of the key files. */
  predicate Tombstoning(s: State, e: Env) {
    && s.session.authenticated && s.session.hasKey && !s.session.deleted && !s.session.mustChange
    && PathName(s.session.username)
    && SetDeleted(s.users, s.files, s.session.username, true, e.delete.write).ok
  }

  /** The requests that write the table file: successful password changes and deletions that write their tombstone. */
  predicate StoresTable(c: Suite, w: World, e: Event)
    requires AeadIdeal(c)
  {
    && e.Request? && e.pt != [] && w.server.Some?
    && var s := State(w.server.value.users, w.files, w.server.value.session);
       || (e.pt[0] == OP_CHANGE_PASSWORD && Handle(c, s, e.pt, e.env).status == Ok)
       || (e.pt[0] == OP_DELETE_KEYS && Tombstoning(s, e.env))
  }

  lemma StoringStep(c: Suite, w: World, e: Event)
    requires AeadIdeal(c) && StoresTable(c, w, e) && UserTable in w.files
    ensures var s := State(w.server.value.users, w.files, w.server.value.session);
      Stored(s, Handle(c, s, e.pt, e.env).state)
  {
    hide Change, DeleteKeys, SetDeleted, Print, PathName;
    var s := State(w.server.value.users, w.files, w.server.value.session);
    if e.pt[0] == OP_CHANGE_PASSWORD {
      ChangeStep(c, s, e.pt, e.env);
    } else {
      TombstoneStep(s, s.session, e.env.delete.write);
      DeletionAfterTombstone(s.users, s.files, s.session.username, e.env.delete);
    }
  }

  /** Event `k` is a password change whose table write failed, and no request since has written the table. */
  predicate FailedAndUnwritten(c: Suite, w: World, es: seq<Event>, k: nat)
    requires AeadIdeal(c) && k < |es|
  {
    var at, now := Before(c, w, es, k), Run(c, w, es);
    && es[k].Request? && es[k].pt != [] && at.server.Some?
    && PasswordWriteFailed(c, State(at.server.value.users, at.files, at.server.value.session), es[k].pt, es[k].env)
    && UserTable in at.files && UserTable in now.files && now.files[UserTable] == at.files[UserTable]
    && forall i | k < i < |es| :: !StoresTable(c, Before(c, w, es, i), es[i])
  }

  lemma StillUnwritten(c: Suite, w: World, es: seq<Event>, k: nat)
    requires AeadIdeal(c) && k < |es| - 1 && FailedAndUnwritten(c, w, es[..|es| - 1], k)
    requires var before, now := Run(c, w, es[..|es| - 1]), Run(c, w, es);
      UserTable in now.files && now.files[UserTable] == before.files[UserTable]
    requires !StoresTable(c, Run(c, w, es[..|es| - 1]), es[|es| - 1])
    ensures FailedAndUnwritten(c, w, es, k)
  {
    hide StoresTable, Step, PasswordWriteFailed;
    var n := |es| - 1;
    var shorter := es[..n];
    BeforeShorter(c, w, es, k);
    forall i | k < i < |es| ensures !StoresTable(c, Before(c, w, es, i), es[i]) {
      if i < n {
        BeforeShorter(c, w, es, i);
        assert !StoresTable(c, Before(c, w, shorter, i), shorter[i]);
      }
    }
  }

  /** An event after which memory and disk differ has not written the table. */
  lemma OutOfSyncUnwritten(c: Suite, w: World, es: seq<Event>)
    requires AeadIdeal(c) && es != [] && Kept(Run(c, w, es[..|es| - 1]))
    requires var now := Run(c, w, es); now.server.Some? && !InSync(now.server.value.users, now.files)
    ensures var at := Run(c, w, es[..|es| - 1]); !StoresTable(c, at, es[|es| - 1])
  {
    hide Handle, Boot, TableKept, InSync, Stored, Tombstoning;
    var at, e := Run(c, w, es[..|es| - 1]), es[|es| - 1];
    if StoresTable(c, at, e) {
      var s := State(at.server.value.users, at.files, at.server.value.session);
      KeptHasTable(s);
      StoringStep(c, at, e);
      StepKeepsTable(s, Handle(c, s, e.pt, e.env).state);
    }
  }

  lemma KeptHasTable(s: State)
    requires TableKept(s.users, s.files)
    ensures UserTable in s.files
  {
  }

  /** The event that puts memory and disk out of step is a password change whose write failed. */
  lemma JustFailed(c: Suite, w: World, es: seq<Event>)
    requires AeadIdeal(c) && es != [] && Kept(Run(c, w, es[..|es| - 1]))
    requires var at, now := Run(c, w, es[..|es| - 1]), Run(c, w, es);
      at.server.Some? && InSync(at.server.value.users, at.files)
      && now.server.Some? && !InSync(now.server.value.users, now.files)
    ensures FailedAndUnwritten(c, w, es, |es| - 1)
  {
    hide Handle, Boot, TableKept, StoresTable, PasswordWriteFailed;
    var n := |es| - 1;
    var at, e := Run(c, w, es[..n]), es[n];
    assert Before(c, w, es, n) == at;
    if e.Request? && e.pt != [] {
      var s := State(at.server.value.users, at.files, at.server.value.session);
      HandleKeeps(c, s, e.pt, e.env);
      KeptHasTable(s);
      KeptHasTable(Handle(c, s, e.pt, e.env).state);
    }
  }

  /**
   * In every state a server reaches, memory and disk agree on names and tombstones; they agree on everything
   * unless some password change failed to write and no request has written the table since.
   */
  lemma {:induction false} MemoryMatchesDisk(c: Suite, w: World, es: seq<Event>)
    requires AeadIdeal(c) && w.server.None?
    ensures var now := Run(c, w, es);
      now.server.Some? ==>
        && TableKept(now.server.value.users, now.files)
        && (InSync(now.server.value.users, now.files)
            || exists k | 0 <= k < |es| :: FailedAndUnwritten(c, w, es, k))
  {
    hide Handle, Boot, TableKept, InSync, StoresTable, FailedAndUnwritten;
    RunKeeps(c, w, es);
    if es != [] {
      var n := |es| - 1;
      var shorter, e := es[..n], es[n];
      var at, now := Run(c, w, shorter), Run(c, w, es);
      MemoryMatchesDisk(c, w, shorter);
      RunKeeps(c, w, shorter);
      if e.Start? && at.server.None? {
        BootKeeps(c, at.files, e.boot);
      } else if now.server.Some? && !InSync(now.server.value.users, now.files) {
        var s := State(at.server.value.users, at.files, at.server.value.session);
        if e.Request? {
          HandleKeeps(c, s, e.pt, e.env);
        }
        if InSync(s.users, s.files) {
          JustFailed(c, w, es);
        } else {
          var k :| 0 <= k < n && FailedAndUnwritten(c, w, shorter, k);
          OutOfSyncUnwritten(c, w, es);
          KeptHasTable(s);
          KeptHasTable(State(now.server.value.users, now.files, now.server.value.session));
          StillUnwritten(c, w, es, k);
        }
      }
    }
  }

  // ---------- who a session belongs to ----------

  /** The user last logged in on the live connection, judged from requests and replies alone. */
  function LoggedIn(c: Suite, w: World, es: seq<Event>): Option<Bytes>
    requires AeadIdeal(c)
  {
    if es == [] then None
    else
      var n := |es| - 1;
      var before := LoggedIn(c, w, es[..n]);
      match es[n]
      case Start(_) => before
      case Register(_, _, _) => before
      case Stop => None
      case Request(pt, _) =>
        if pt == [] then None
        else
          var r := ReplyTo(c, w, es, n);
          if r.Some? && r.value.status == Ok && pt[0] == OP_AUTH && ParseAuth(pt).Some? then
            Some(ParseAuth(pt).value.user)
          else if r.Some? && r.value.status == Ok && pt[0] == OP_LOGOUT then None
          else before
  }

  lemma {:induction false} SessionIsLastLogin(c: Suite, w: World, es: seq<Event>)
    requires AeadIdeal(c) && w.server.None?
    ensures var now := Run(c, w, es);
      LoggedIn(c, w, es) ==
        if now.server.Some? && now.server.value.session.authenticated
        then Some(now.server.value.session.username) else None
  {
    hide Handle, Boot, Kept, ParseAuth, Provision.Register;
    if es != [] {
      var n := |es| - 1;
      SessionIsLastLogin(c, w, es[..n]);
      RunKeeps(c, w, es[..n]);
      assert Before(c, w, es, n) == Run(c, w, es[..n]);
      if es[n].Request? && es[n].pt != [] && Run(c, w, es[..n]).server.Some? {
        var r := Run(c, w, es[..n]).server.value;
        HandleSession(c, State(r.users, Run(c, w, es[..n]).files, r.session), es[n].pt, es[n].env);
      }
    }
  }

  /** Only a successful AUTH or LOGOUT changes whom the session belongs to. */
  lemma HandleSession(c: Suite, s: State, pt: Bytes, e: Env)
    requires AeadIdeal(c) && pt != []
    ensures var a := Handle(c, s, pt, e);
      if a.status == Ok && pt[0] == OP_AUTH then
        ParseAuth(pt).Some? && a.state.session.authenticated && a.state.session.username == ParseAuth(pt).value.user
      else if a.status == Ok && pt[0] == OP_LOGOUT then !a.state.session.authenticated
      else a.state.session.authenticated == s.session.authenticated && a.state.session.username == s.session.username
  {
    hide ParseAuth, DeriveKey, Reencrypt, ChangePassword, CreateKeys, DeleteKeys, SignDoc, GetPublic;
  }

  /** Event `j` logged `user` in, and no event strictly between `j` and `k` logged in or out or ended the connection. */
  predicate LoginGoverns(c: Suite, w: World, es: seq<Event>, j: nat, k: nat, user: Bytes)
    requires AeadIdeal(c) && j < k <= |es|
  {
    && IsLogin(c, w, es, j) && ParseAuth(es[j].pt).value.user == user
    && forall i | j < i < k :: !IsLogin(c, w, es, i) && !EndsSession(c, w, es, i)
  }

  predicate IsLogin(c: Suite, w: World, es: seq<Event>, j: nat)
    requires AeadIdeal(c) && j < |es|
  {
    var r := ReplyTo(c, w, es, j);
    es[j].Request? && es[j].pt != [] && es[j].pt[0] == OP_AUTH && ParseAuth(es[j].pt).Some?
      && r.Some? && r.value.status == Ok
  }

  predicate EndsSession(c: Suite, w: World, es: seq<Event>, j: nat)
    requires AeadIdeal(c) && j < |es|
  {
    var r := ReplyTo(c, w, es, j);
    es[j].Stop? || (es[j].Request? && es[j].pt == [])
      || (es[j].Request? && es[j].pt != [] && es[j].pt[0] == OP_LOGOUT && r.Some? && r.value.status == Ok)
  }

  lemma LoginSurvives(c: Suite, w: World, es: seq<Event>, j: nat, user: Bytes)
    requires AeadIdeal(c) && j < |es| - 1 && LoginGoverns(c, w, es[..|es| - 1], j, |es| - 1, user)
    requires !IsLogin(c, w, es, |es| - 1) && !EndsSession(c, w, es, |es| - 1)
    ensures LoginGoverns(c, w, es, j, |es|, user)
  {
    hide Step, ParseAuth;
    var n := |es| - 1;
    forall i | j <= i < n
      ensures IsLogin(c, w, es[..n], i) == IsLogin(c, w, es, i)
      ensures EndsSession(c, w, es[..n], i) == EndsSession(c, w, es, i)
    {
      BeforeShorter(c, w, es, i);
    }
  }

  lemma {:induction false} LoggedInHasLogin(c: Suite, w: World, es: seq<Event>)
    requires AeadIdeal(c) && LoggedIn(c, w, es).Some?
    ensures exists j | 0 <= j < |es| :: LoginGoverns(c, w, es, j, |es|, LoggedIn(c, w, es).value)
  {
    var n := |es| - 1;
    if IsLogin(c, w, es, n) {
      assert LoginGoverns(c, w, es, n, |es|, LoggedIn(c, w, es).value);
    } else {
      assert !EndsSession(c, w, es, n) && LoggedIn(c, w, es[..n]) == LoggedIn(c, w, es);
      LoggedInHasLogin(c, w, es[..n]);
      var user := LoggedIn(c, w, es).value;
      var j :| 0 <= j < n && LoginGoverns(c, w, es[..n], j, n, user);
      LoginSurvives(c, w, es, j, user);
    }
  }

  /** CREATE_KEYS and SIGN_DOC succeed only for an authenticated user with a current password and no tombstone. */
  lemma GrantedMeansAllowed(c: Suite, s: State, pt: Bytes, e: Env)
    requires AeadIdeal(c) && pt != [] && SessionKept(s.users, s.session)
    requires pt[0] == OP_CREATE_KEYS || pt[0] == OP_SIGN_DOC
    requires Handle(c, s, pt, e).status == Ok
    ensures s.session.authenticated && s.session.hasKey && Find(s.users, s.session.username).Some?
    ensures var u := s.users[Find(s.users, s.session.username).value];
      !u.mustChange && !u.deleted
  {
  }

  /**
   * Authorisation history: every success of CREATE_KEYS or SIGN_DOC, in any run from a stopped server and with
   * any failures, follows a successful AUTH of the same user with no later login, logout or disconnection, and
   * at that moment the user's record has no pending password change and no tombstone.
   */
  lemma AuthorisationHistory(c: Suite, w: World, es: seq<Event>, k: nat)
    requires AeadIdeal(c) && w.server.None? && k < |es|
    requires es[k].Request? && es[k].pt != [] && (es[k].pt[0] == OP_CREATE_KEYS || es[k].pt[0] == OP_SIGN_DOC)
    requires ReplyTo(c, w, es, k).Some? && ReplyTo(c, w, es, k).value.status == Ok
    ensures var at := Before(c, w, es, k);
      && at.server.Some?
      && Find(at.server.value.users, at.server.value.session.username).Some?
      && (var u := at.server.value.users[Find(at.server.value.users, at.server.value.session.username).value];
          !u.mustChange && !u.deleted)
      && exists j | 0 <= j < k :: LoginGoverns(c, w, es[..k], j, k, at.server.value.session.username)
  {
    var at := Before(c, w, es, k);
    RunKeeps(c, w, es[..k]);
    var r := at.server.value;
    GrantedMeansAllowed(c, State(r.users, at.files, r.session), es[k].pt, es[k].env);
    SessionIsLastLogin(c, w, es[..k]);
    LoggedInHasLogin(c, w, es[..k]);
  }
}
