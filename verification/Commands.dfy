/** What each command typed into `client/main.c` sends and achieves. */
module Commands {
  import opened Octets
  import opened Crypto
  import opened TableText
  import opened TableFile
  import opened PrivateBlob
  import opened Disk
  import opened Auth
  import opened Keystore
  import opened Packet
  import opened Requests
  import opened Channel
  import opened Server
  import opened Coherence
  import opened Answers
  import opened Client
  import Handshake
  import Outcomes
  import Provision

  /** The request of every command, byte by byte. */
  lemma CommandBytes(m: Mirror, user: Bytes, password: Bytes, document: Bytes)
    requires Short(user) && Short(password)
    ensures RequestFor(m, Command.Login(user, password)) == Some([0, |user|] + user + [|password|] + password)
    ensures m.loggedIn ==> RequestFor(m, ChangePassword(password)) == Some([1, |password|] + password)
    ensures RequestFor(m, CreateKeys) == Some([2])
    ensures RequestFor(m, SignDocument(document)) == Some([3] + document)
    ensures RequestFor(m, GetPublic(user)) == Some([4, |user|] + user) && RequestFor(m, GetPublic([])) == Some([4])
    ensures RequestFor(m, DeleteKeys) == Some([5]) && RequestFor(m, Logout) == Some([6])
  {
    assert [0] + ([|user|] + user) + ([|password|] + password) == [0, |user|] + user + [|password|] + password;
    assert [1] + ([|password|] + password) == [1, |password|] + password;
    assert [4] + ([|user|] + user) == [4, |user|] + user;
  }

  /** The commands the client refuses by itself, without sending anything. */
  lemma RefusedLocally(m: Mirror, cmd: Command)
    ensures RequestFor(m, cmd).None? <==>
      match cmd
      case Login(user, password) => |user| == 0 || 255 < |user| || |password| == 0 || 255 < |password|
      case ChangePassword(password) => !m.loggedIn || |password| == 0 || 255 < |password|
      case GetPublic(target) => 255 < |target|
      case _ => false
  {
  }

  /** The server's answer to a command. */
  function AnswerTo(c: Suite, j: Joint, cmd: Command, t: Trip): Answer
    requires AeadIdeal(c) && RequestFor(j.client, cmd).Some?
  {
    Handle(c, j.server, RequestFor(j.client, cmd).value, t.turn.env)
  }

  lemma PerformSmall(c: Suite, o: ByteOrder, k: Handshake.Keys, j: Joint, cmd: Command, t: Trip)
    requires AeadIdeal(c) && j.open && RequestFor(j.client, cmd).Some? && |RequestFor(j.client, cmd).value| <= 65536
    requires |AnswerTo(c, j, cmd, t).data| <= UINT16_MAX
    ensures var a := AnswerTo(c, j, cmd, t);
      Perform(c, o, k, j, cmd, t) == Joint(Learn(j.client, cmd, StatusCode(a.status), a.data), a.state, true)
  {
    hide Handle, Perform, RequestFor, Learn, StatusCode;
    PerformIsDirect(c, o, k, j, cmd, t);
  }

  /** A coherent connection without failing calls, with its client in step. */
  ghost predicate Sound(c: Suite, j: Joint, t: Trip) {
    && Ideal(c) && j.open && StateCoherent(c, j.server) && InStep(j.client, j.server.session)
    && RequestOk(j.server.users, t.turn.env)
  }

  /** `login` with an accepted password: the client ends with the record's two flags and the user name, exactly. */
  lemma LoginCommand(
    c: Suite, o: ByteOrder, k: Handshake.Keys, j: Joint, user: Bytes, password: Bytes, t: Trip)
    requires AeadIdeal(c) && j.open && t.turn.env.hashOk
    requires Short(user) && Short(password) && 0 !in user && 0 !in password && RecordOf(j.server.users, user).Some?
    ensures var u := RecordOf(j.server.users, user).value;
      var after := Perform(c, o, k, j, Command.Login(user, password), t);
      if Accepts(c, u, password) then
        after.client == Mirror(true, u.mustChange, u.deleted, user)
        && after.server.session.authenticated && after.server.session.username == user
      else after == j
  {
    hide Handle, ParseAuth, Perform, BuildAuth;
    var pt := BuildAuth(user, password);
    BuiltRequestsParse(user, password);
    LoginBytes(user, password);
    var a := Handle(c, j.server, pt, t.turn.env);
    Outcomes.LoginExactly(c, j.server, pt, t.turn.env);
    if Accepts(c, RecordOf(j.server.users, user).value, password) {
      LoginAnswer(c, j.server, pt, t.turn.env);
    }
    PerformSmall(c, o, k, j, Command.Login(user, password), t);
  }

  lemma LoginBytes(user: Bytes, password: Bytes)
    requires Short(user) && Short(password)
    ensures var pt := BuildAuth(user, password); 0 < |pt| <= 513 && pt[0] == OP_AUTH
  {
  }

  /** `createkeys` in a session that may leaves a pair, coherent with the user's record. */
  lemma CreateCommand(c: Suite, o: ByteOrder, k: Handshake.Keys, j: Joint, t: Trip)
    requires Sound(c, j, t) && Active(j.server.session) && j.server.session.hasKey && AeadIdeal(c)
    ensures AnswerTo(c, j, CreateKeys, t).status == Ok
    ensures var after := Perform(c, o, k, j, CreateKeys, t);
      && HasPair(after.server) && after.client == j.client && after.server.session == j.server.session
      && KeyKept(c, after.server.files, after.server.users, j.server.session.username)
  {
    hide Handle, Perform, StateCoherent, RequestOk, KeyKept, Ideal, InStep;
    var s := j.server;
    ReadyAlive(c, s);
    CreationNeverFails(s.users, t.turn.env);
    CreateSucceedsExactly(c, s, t.turn.env);
    CreateAnswersNothing(c, s, t.turn.env);
    HandleCoherent(c, s, [OP_CREATE_KEYS], t.turn.env);
    PairIsKept(c, Handle(c, s, [OP_CREATE_KEYS], t.turn.env).state, s.session.username);
    PerformSmall(c, o, k, j, CreateKeys, t);
  }

  lemma CreationNeverFails(users: seq<User>, e: Env)
    requires RequestOk(users, e)
    ensures CreationOk(e.create)
  {
  }

  /** `signdoc` in a session that may, with keys: the answer is a signature of that document under the stored key. */
  lemma SignCommand(c: Suite, o: ByteOrder, k: Handshake.Keys, j: Joint, document: Bytes, t: Trip)
    requires Sound(c, j, t) && Active(j.server.session) && AeadIdeal(c) && |document| <= UINT16_MAX
    requires PrivateEnc(j.server.session.username) in j.server.files
    ensures var a := AnswerTo(c, j, SignDocument(document), t);
      var pub := PublicPem(j.server.session.username);
      a.status == Ok && pub in j.server.files && c.verify(j.server.files[pub], document, a.data)
    ensures Perform(c, o, k, j, SignDocument(document), t) == j
  {
    hide Handle, Perform, StateCoherent, RequestOk, Ideal, InStep;
    SigningGranted(c, j.server, document, t.turn.env);
    SignatureVerifies(c, j.server, [OP_SIGN_DOC] + document, t.turn.env);
    assert ([OP_SIGN_DOC] + document)[1..] == document;
    PerformSmall(c, o, k, j, SignDocument(document), t);
  }

  /** `deletekeys` in a session that may: tombstone in the table, no key files, and the client knows. */
  lemma DeleteCommand(c: Suite, o: ByteOrder, k: Handshake.Keys, j: Joint, t: Trip)
    requires Sound(c, j, t) && Active(j.server.session) && j.server.session.hasKey && AeadIdeal(c)
    ensures var after := Perform(c, o, k, j, DeleteKeys, t);
      var user := j.server.session.username;
      && after.client == j.client.(deleted := true) && after.server.session.deleted
      && IsDeleted(after.server.users, user) == Some(true)
      && PublicPem(user) !in after.server.files && PrivateEnc(user) !in after.server.files
  {
    hide Handle, Perform, StateCoherent, Ideal, InStep, WriteSucceeds;
    var s := j.server;
    ReadyAlive(c, s);
    DeleteSucceedsExactly(c, s, t.turn.env);
    DeleteRemoves(c, s, t.turn.env);
    HandleCoherent(c, s, [OP_DELETE_KEYS], t.turn.env);
    SessionTombstone(c, Handle(c, s, [OP_DELETE_KEYS], t.turn.env).state);
    DeleteAnswersNothing(c, s, t.turn.env);
    PerformSmall(c, o, k, j, DeleteKeys, t);
  }

  lemma DeleteAnswersNothing(c: Suite, s: State, e: Env)
    requires AeadIdeal(c)
    ensures Handle(c, s, [OP_DELETE_KEYS], e).data == []
  {
    hide Keystore.DeleteKeys, AeadIdeal;
  }

  /** `changepw` in a live session: the pending change is lifted on both sides, and the new password is accepted. */
  lemma ChangeCommand(
    c: Suite, o: ByteOrder, k: Handshake.Keys, j: Joint, password: Bytes, t: Trip)
    requires Sound(c, j, t) && AeadIdeal(c) && Short(password) && 0 !in password
    requires j.server.session.authenticated && j.server.session.hasKey && !j.server.session.deleted
    ensures RequestFor(j.client, ChangePassword(password)).Some?
    ensures var after := Perform(c, o, k, j, ChangePassword(password), t);
      var user := j.server.session.username;
      && !after.client.mustChange && !after.server.session.mustChange && after.server.session.hasKey
      && RecordOf(after.server.users, user).Some? && Accepts(c, RecordOf(after.server.users, user).value, password)
      && !RecordOf(after.server.users, user).value.mustChange
  {
    hide Handle, Perform, StateCoherent, Ideal, WriteSucceeds, ParseChange, OpenBlob, BuildChange;
    var s, pt := j.server, BuildChange(password);
    BuiltRequestsParse(password, password);
    ChangeBytes(password);
    ReadyAlive(c, s);
    SessionOpensBlob(c, s);
    ChangeSucceedsExactlyWith(c, s, pt, t.turn.env);
    ChangeKeepsSession(c, s, pt, t.turn.env);
    ChangeStoresPassword(c, s, pt, t.turn.env);
    PerformSmall(c, o, k, j, ChangePassword(password), t);
  }

  lemma ChangeBytes(password: Bytes)
    requires Short(password)
    ensures var pt := BuildChange(password); 0 < |pt| <= 257 && pt[0] == OP_CHANGE_PASSWORD
  {
  }

  lemma ChangeStoresPassword(c: Suite, s: State, pt: Bytes, e: Env)
    requires AeadIdeal(c) && pt != [] && pt[0] == OP_CHANGE_PASSWORD && Handle(c, s, pt, e).status == Ok
    ensures ParseChange(pt).Some?
    ensures var a := Handle(c, s, pt, e);
      var u := RecordOf(a.state.users, s.session.username);
      a.data == [] && u.Some? && Accepts(c, u.value, ParseChange(pt).value) && !u.value.mustChange
  {
    hide ParseChange, DeriveKey, Reencrypt, AeadIdeal, Print;
    if Find(s.users, s.session.username).Some? {
      var i := Find(s.users, s.session.username).value;
      var u := WithPassword(c, s.users[i], ParseChange(pt).value, e.password.salt);
      FindAfterUpdate(s.users, i, u, s.session.username);
    }
  }

  /** `getpub` shows the stored public key of the user asked for, or of the user logged in, and nothing else. */
  lemma GetPublicCommand(c: Suite, j: Joint, target: Bytes, t: Trip)
    requires AeadIdeal(c) && 0 !in target && |target| <= 255
    requires t.turn.env.readPublicOk && !j.server.session.mustChange
    requires target == [] ==> j.server.session.authenticated
    ensures RequestFor(j.client, GetPublic(target)).Some?
    ensures var a := AnswerTo(c, j, GetPublic(target), t);
      var owner := if target == [] then j.server.session.username else target;
      && a.state == j.server
      && a.status == (if ProperName(owner) && PublicPem(owner) in j.server.files then Ok else ErrNotFound)
      && (a.status == Ok ==> a.data == j.server.files[PublicPem(owner)])
  {
    hide ParseTarget, BuildTarget;
    if target != [] {
      BuiltRequestsParse(target, target);
      TargetBytes(target);
    } else {
      assert ParseTarget([OP_GET_PUBLIC_KEY]) == Own by {
        OwnTarget();
      }
    }
  }

  lemma OwnTarget()
    ensures ParseTarget([OP_GET_PUBLIC_KEY]) == Own
  {
  }

  lemma TargetBytes(target: Bytes)
    requires Short(target)
    ensures var pt := BuildTarget(target); 0 < |pt| <= 257 && pt[0] == OP_GET_PUBLIC_KEY
  {
  }

  /** `logout` forgets everything on both sides. */
  lemma LogoutCommand(c: Suite, o: ByteOrder, k: Handshake.Keys, j: Joint, t: Trip)
    requires AeadIdeal(c) && j.open && j.server.session.authenticated
    ensures Perform(c, o, k, j, Logout, t) == Joint(LOGGED_OUT, j.server.(session := CLEARED), true)
  {
    hide Perform, Handle;
    OtherRefusals(c, j.server, [OP_LOGOUT], t.turn.env);
    PerformSmall(c, o, k, j, Logout, t);
  }

  /**
   * From the registration tool to the login: on a table the server accepts, a registration without failures lets
   * the next server process accept exactly the registered password, up to hash collisions, and tells the user that
   * it must be changed.
   */
  lemma RegisterThenLogin(
    c: Suite, files: Files, t: seq<User>, name: Bytes, password: Bytes, tool: Provision.Env, boot: StartEnv,
    attempt: Bytes, e: Env)
    requires AeadIdeal(c) && UserTable in files && Load(files[UserTable]) == Some(t) && t != []
    requires NameOk(name) && Short(name) && (RecordOf(t, name).Some? ==> RecordOf(t, name).value.deleted)
    requires Provision.AllOk(Provision.Expected(c, t, name, password, tool.salt), tool)
    requires boot.first.allocOk && boot.second.allocOk && boot.openOk && boot.readOk
    requires Short(attempt) && 0 !in attempt
    ensures BuildAuth(name, attempt) != []
    ensures var (registered, ok) := Provision.Register(c, files, name, password, tool);
      var (started, users) := Boot(c, registered, boot);
      && ok && users.Some?
      && var a := Handle(c, State(users.value, started, CLEARED), BuildAuth(name, attempt), e);
         && (a.status == Ok <==> e.hashOk && c.pbkdf2(attempt, tool.salt) == c.pbkdf2(password, tool.salt))
         && (a.status == Ok ==> a.data == [1, 0])
  {
    hide Handle, ParseAuth, BuildAuth, Load, Boot, Provision.Register, Print;
    Provision.RegisterExact(c, files, t, name, password, tool);
    var registered := Provision.Register(c, files, name, password, tool).0;
    BootWithTable(c, registered, boot);
    var (started, users) := Boot(c, registered, boot);
    ExpectedRecord(c, t, name, password, tool.salt);
    BuiltRequestsParse(name, attempt);
    LoginBytes(name, attempt);
    var s := State(users.value, started, CLEARED);
    Outcomes.LoginAgainst(c, s, name, password, tool.salt, attempt, e);
    if Handle(c, s, BuildAuth(name, attempt), e).status == Ok {
      LoginAnswer(c, s, BuildAuth(name, attempt), e);
    }
  }

  lemma ExpectedRecord(c: Suite, t: seq<User>, name: Bytes, password: Bytes, salt: Salt)
    ensures RecordOf(Provision.Expected(c, t, name, password, salt), name)
         == Some(User(name, true, false, salt, c.pbkdf2(password, salt)))
  {
    var account := Provision.FreshAccount(c, name, password, salt);
    match Find(t, name)
    case Some(i) => FindAfterUpdate(t, i, account, name);
    case None =>
      NotFoundMeansAbsent(t, name);
      FindFirst(t + [account], name, |t|);
  }

  lemma NotFoundMeansAbsent(t: seq<User>, name: Bytes)
    requires Find(t, name).None?
    ensures forall i | 0 <= i < |t| :: t[i].name != name
  {
    if t != [] {
      NotFoundMeansAbsent(t[1..], name);
      assert forall i | 1 <= i < |t| :: t[i] == t[1..][i - 1];
    }
  }
}
