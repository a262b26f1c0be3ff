/** What answers mean for later requests: logins after a password change, key creation repeated or failed, lookups. */
module Outcomes {
  import opened Octets
  import opened Crypto
  import opened TableText
  import opened Disk
  import opened Auth
  import opened Keystore
  import opened Requests
  import opened Server
  import opened Agreement
  import opened Client

  /** AUTH succeeds exactly for a well-formed request whose password its record accepts; otherwise nothing changes. */
  lemma LoginExactly(c: Suite, s: State, pt: Bytes, e: Env)
    requires AeadIdeal(c) && pt != [] && pt[0] == OP_AUTH
    ensures var a := Handle(c, s, pt, e);
      && (a.status == Ok <==>
           && ParseAuth(pt).Some? && e.hashOk
           && RecordOf(s.users, ParseAuth(pt).value.user).Some?
           && Accepts(c, RecordOf(s.users, ParseAuth(pt).value.user).value, ParseAuth(pt).value.password))
      && (a.status != Ok ==> a.state == s && a.data == [])
      && (a.status == Ok ==> a.state == s.(session := a.state.session) && a.state.session.authenticated)
  {
    hide ParseAuth, DeriveKey;
  }

  /** A table in which this user has this salt and the hash of this password decides that user's logins. */
  lemma LoginAgainst(c: Suite, s: State, user: Bytes, password: Bytes, salt: Salt, attempt: Bytes, e: Env)
    requires AeadIdeal(c) && Short(user) && 0 !in user && Short(attempt) && 0 !in attempt
    requires RecordOf(s.users, user).Some?
    requires var u := RecordOf(s.users, user).value; u.salt == salt && u.hash == c.pbkdf2(password, salt)
    ensures BuildAuth(user, attempt) != []
    ensures Handle(c, s, BuildAuth(user, attempt), e).status == Ok <==>
      e.hashOk && c.pbkdf2(attempt, salt) == c.pbkdf2(password, salt)
  {
    hide Handle, ParseAuth;
    BuiltRequestsParse(user, attempt);
    LoginExactly(c, s, BuildAuth(user, attempt), e);
  }

  /**
   * After a successful password change exactly the new password logs its user in, up to collisions of the
   * password hash -- in the same server process and in any that is started on the files it leaves.
   */
  lemma ChangeGovernsLogins(
    c: Suite, s: State, pt: Bytes, e: Env, attempt: Bytes, later: Env, boot: StartEnv)
    requires AeadIdeal(c) && pt != [] && pt[0] == OP_CHANGE_PASSWORD && TableKept(s.users, s.files)
    requires Handle(c, s, pt, e).status == Ok && Short(attempt) && 0 !in attempt
    ensures ParseChange(pt).Some? && Short(s.session.username) && BuildAuth(s.session.username, attempt) != []
    ensures var a := Handle(c, s, pt, e).state;
      var login := BuildAuth(s.session.username, attempt);
      var matches := c.pbkdf2(attempt, e.password.salt) == c.pbkdf2(ParseChange(pt).value, e.password.salt);
      && (Handle(c, a, login, later).status == Ok <==> later.hashOk && matches)
      && var (files, users) := Boot(c, a.files, boot);
         users.Some? ==>
           (Handle(c, State(users.value, files, CLEARED), login, later).status == Ok <==> later.hashOk && matches)
  {
    hide Print, ParseChange, BuildAuth, TableKept, Load, Reencrypt, DeriveKey;
    hide Authenticate, Sign, Create, Delete, Lookup;
    var user, a := s.session.username, Handle(c, s, pt, e).state;
    ChangedRecord(c, s, pt, e);
    LoginAgainst(c, a, user, ParseChange(pt).value, e.password.salt, attempt, later);
    var (files, users) := Boot(c, a.files, boot);
    if users.Some? {
      LoginAgainst(c, State(users.value, files, CLEARED), user, ParseChange(pt).value, e.password.salt, attempt, later);
    }
  }

  lemma ChangedRecord(c: Suite, s: State, pt: Bytes, e: Env)
    requires AeadIdeal(c) && pt != [] && pt[0] == OP_CHANGE_PASSWORD && TableKept(s.users, s.files)
    requires Handle(c, s, pt, e).status == Ok
    ensures ParseChange(pt).Some? && Short(s.session.username) && 0 !in s.session.username
    ensures var a := Handle(c, s, pt, e).state;
      var u := RecordOf(a.users, s.session.username);
      && InSync(a.users, a.files)
      && u.Some? && u.value.salt == e.password.salt && u.value.hash == c.pbkdf2(ParseChange(pt).value, e.password.salt)
  {
    hide Print, ParseChange, Reencrypt, Authenticate, Sign, Create, Delete, Lookup, Load;
    var user, a := s.session.username, Handle(c, s, pt, e).state;
    HandleStep(c, s, pt, e);
    StepKeepsTable(s, a);
    PatchedFind(s.users, a.users, user);
  }

  /** A successful CREATE_KEYS can be repeated with any failures: it succeeds again and changes nothing. */
  lemma CreateIsIdempotent(c: Suite, s: State, e: Env, again: Env)
    requires AeadIdeal(c) && Handle(c, s, [OP_CREATE_KEYS], e).status == Ok
    ensures var a := Handle(c, s, [OP_CREATE_KEYS], e).state;
      && PublicPem(s.session.username) in a.files && PrivateEnc(s.session.username) in a.files
      && Handle(c, a, [OP_CREATE_KEYS], again) == Answer(a, Ok, [])
  {
    hide Sealing, Authenticate, Change, Sign, Delete, Lookup;
  }

  /** A CREATE_KEYS that fails and can clean up leaves the files as they were, if there were no key files before. */
  lemma FailedCreateLeavesNothing(c: Suite, s: State, e: Env)
    requires AeadIdeal(c) && Handle(c, s, [OP_CREATE_KEYS], e).status != Ok
    requires PublicPem(s.session.username) !in s.files && PrivateEnc(s.session.username) !in s.files
    requires e.create.cleanPubOk && e.create.cleanEncOk
    ensures Handle(c, s, [OP_CREATE_KEYS], e).state.files == s.files
  {
    hide Sealing, Authenticate, Change, Sign, Delete, Lookup;
  }

  /**
   * GET_PUBLIC_KEY answers with the stored public key and nothing else: to anybody for a named user, to the
   * session's user when no name is given -- unless that session still has to change its password.
   */
  lemma LookupExactly(c: Suite, s: State, pt: Bytes, e: Env, pem: Bytes)
    requires AeadIdeal(c) && pt != [] && pt[0] == OP_GET_PUBLIC_KEY
    ensures var a := Handle(c, s, pt, e);
      var owner := match ParseTarget(pt)
        case Own => if s.session.authenticated then Some(s.session.username) else None
        case Named(user) => Some(user)
        case Malformed => None;
      && a.state == s
      && ((a.status == Ok && a.data == pem) <==>
           && !s.session.mustChange && owner.Some? && PathName(owner.value) && e.readPublicOk
           && PublicPem(owner.value) in s.files && s.files[PublicPem(owner.value)] == pem)
  {
    hide Authenticate, Change, Sign, Delete, Create, ParseTarget;
  }

  /** Keys just created can be looked up by anybody, under the session's user name. */
  lemma CreatedKeysAreFound(c: Suite, s: State, e: Env, m: Mirror, later: Env, anybody: Session)
    requires AeadIdeal(c) && Handle(c, s, [OP_CREATE_KEYS], e).status == Ok && later.readPublicOk
    requires Short(s.session.username) && 0 !in s.session.username && !anybody.mustChange
    ensures RequestFor(m, GetPublic(s.session.username)).Some?
    ensures var a := Handle(c, s, [OP_CREATE_KEYS], e).state;
      PublicPem(s.session.username) in a.files
      && Handle(c, a.(session := anybody), RequestFor(m, GetPublic(s.session.username)).value, later)
           == Answer(a.(session := anybody), Ok, a.files[PublicPem(s.session.username)])
  {
    hide Handle, ParseTarget, BuildTarget;
    var user, a := s.session.username, Handle(c, s, [OP_CREATE_KEYS], e).state;
    CreateIsIdempotent(c, s, e, e);
    CreatedName(c, s, e);
    BuiltRequestsParse(user, user);
    var pt := RequestFor(m, GetPublic(user)).value;
    LookupExactly(c, a.(session := anybody), pt, later, a.files[PublicPem(user)]);
  }

  lemma CreatedName(c: Suite, s: State, e: Env)
    requires AeadIdeal(c) && Handle(c, s, [OP_CREATE_KEYS], e).status == Ok
    ensures PathName(s.session.username)
    ensures Short(s.session.username) ==> BuildTarget(s.session.username)[0] == OP_GET_PUBLIC_KEY
  {
    hide Sealing, Authenticate, Change, Sign, Delete, Lookup;
  }
}
