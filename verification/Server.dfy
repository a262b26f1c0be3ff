/** The session and the request dispatch of `server/main.c`. */
module Server {
  import opened Octets
  import opened Crypto
  import opened TableText
  import opened Disk
  import opened Auth
  import opened Keystore
  import opened Requests
  import Bootstrap

  const ZERO_KEY: Digest := [
    0, 0, 0, 0, 0, 0, 0, 0, 0, 0, 0, 0, 0, 0, 0, 0,
    0, 0, 0, 0, 0, 0, 0, 0, 0, 0, 0, 0, 0, 0, 0, 0]

  datatype Session = Session(
    authenticated: bool, username: Bytes, mustChange: bool, deleted: bool, key: Digest, hasKey: bool)

  const CLEARED := Session(false, [], false, false, ZERO_KEY, false)

  /** Everything one request may meet: failures and random values of each operation it can reach. */
  datatype Env = Env(
    hashOk: bool, derive: DeriveEnv, password: PasswordEnv, reencrypt: ReencryptEnv, create: CreateEnv,
    sign: SignEnv, readPublicOk: bool, delete: DeleteEnv)

  datatype State = State(users: seq<User>, files: Files, session: Session)

  datatype Answer = Answer(state: State, status: Status, data: Bytes)

  function Flags(mustChange: bool, deleted: bool): Bytes {
    [if mustChange then 1 else 0, if deleted then 1 else 0]
  }

  /** AUTH: a failed attempt leaves the session alone, a successful one replaces it. */
  function Authenticate(c: Suite, s: State, pt: Bytes, e: Env): Answer {
    match ParseAuth(pt)
    case None => Answer(s, ErrBadReq, [])
    case Some(login) =>
      match Verify(c, s.users, login.user, login.password, e.hashOk)
      case None => Answer(s, ErrAuth, [])
      case Some(u) =>
        var (key, derived) := DeriveKey(c, s.files, login.user, login.password, e.derive, ZERO_KEY);
        Answer(s.(session := Session(true, login.user, u.mustChange, u.deleted, key, derived)),
               Ok, Flags(u.mustChange, u.deleted))
  }

  /** CHANGE_PASSWORD: re-wrap the private key under the new password, then store the new hash. */
  function Change(c: Suite, s: State, pt: Bytes, e: Env): Answer
    requires AeadIdeal(c)
  {
    var parsed := ParseChange(pt);
    if !s.session.hasKey then Answer(s, ErrAuth, [])
    else if s.session.deleted then Answer(s, ErrDeleted, [])
    else if parsed.None? then Answer(s, ErrBadReq, [])
    else
      var user := s.session.username;
      var (newKey, derived) := DeriveKey(c, s.files, user, parsed.value, e.derive, ZERO_KEY);
      if !derived then Answer(s, ErrInternal, [])
      else
        var (rewrapped, ok) := Reencrypt(c, s.files, user, s.session.key, newKey, e.reencrypt);
        if !ok then Answer(s.(files := rewrapped), ErrInternal, [])
        else
          var r := ChangePassword(c, s.users, rewrapped, user, parsed.value, e.password);
          if !r.ok then Answer(State(r.users, r.files, s.session), ErrInternal, [])
          else Answer(State(r.users, r.files, s.session.(key := newKey, mustChange := false)), Ok, [])
  }

  /** CREATE_KEYS: the tombstone is looked up in the table as well as in the session. */
  function Create(c: Suite, s: State, e: Env): Answer
    requires AeadIdeal(c)
  {
    var tombstone := IsDeleted(s.users, s.session.username);
    if !s.session.hasKey then Answer(s, ErrAuth, [])
    else if s.session.deleted then Answer(s, ErrDeleted, [])
    else if tombstone.None? then Answer(s, ErrInternal, [])
    else if tombstone.value then Answer(s.(session := s.session.(deleted := true)), ErrDeleted, [])
    else
      var (files, ok) := CreateKeys(c, s.users, s.files, s.session.username, s.session.key, e.create);
      Answer(s.(files := files), if ok then Ok else ErrInternal, [])
  }

  function Sign(c: Suite, s: State, pt: Bytes, e: Env): Answer
    requires pt != []
  {
    if !s.session.hasKey then Answer(s, ErrAuth, [])
    else if s.session.deleted then Answer(s, ErrDeleted, [])
    else if UINT16_MAX < |pt| - 1 then Answer(s, ErrBadReq, [])
    else
      match SignDoc(c, s.users, s.files, s.session.username, s.session.key, pt[1..], e.sign)
      case None => Answer(s, ErrInternal, [])
      case Some(signature) => Answer(s, Ok, signature)
  }

  function Lookup(s: State, pt: Bytes, e: Env): Answer
    requires pt != []
  {
    var target := ParseTarget(pt);
    if target.Own? && !s.session.authenticated then Answer(s, ErrAuth, [])
    else if target.Malformed? then Answer(s, ErrBadReq, [])
    else
      match GetPublic(s.files, if target.Own? then s.session.username else target.user, e.readPublicOk)
      case None => Answer(s, ErrNotFound, [])
      case Some(pem) => Answer(s, Ok, pem)
  }

  function Delete(s: State, e: Env): Answer {
    if !s.session.hasKey then Answer(s, ErrAuth, [])
    else if s.session.deleted then Answer(s, ErrDeleted, [])
    else
      var r := DeleteKeys(s.users, s.files, s.session.username, e.delete);
      if r.ok then Answer(State(r.users, r.files, s.session.(deleted := true)), Ok, [])
      else Answer(State(r.users, r.files, s.session), ErrInternal, [])
  }

  /** The dispatch: who may ask for what, then the operation. */
  function Handle(c: Suite, s: State, pt: Bytes, e: Env): Answer
    requires pt != [] && AeadIdeal(c)
  {
    var op := pt[0];
    if op != OP_AUTH && op != OP_GET_PUBLIC_KEY && !s.session.authenticated then Answer(s, ErrAuth, [])
    else if s.session.authenticated && s.session.deleted
      && op != OP_AUTH && op != OP_GET_PUBLIC_KEY && op != OP_LOGOUT then Answer(s, ErrDeleted, [])
    else if op == OP_AUTH then Authenticate(c, s, pt, e)
    else if s.session.mustChange && op != OP_CHANGE_PASSWORD && op != OP_LOGOUT then Answer(s, ErrAuth, [])
    else if op == OP_CHANGE_PASSWORD then Change(c, s, pt, e)
    else if op == OP_CREATE_KEYS then Create(c, s, e)
    else if op == OP_SIGN_DOC then Sign(c, s, pt, e)
    else if op == OP_GET_PUBLIC_KEY then Lookup(s, pt, e)
    else if op == OP_DELETE_KEYS then Delete(s, e)
    else if op == OP_LOGOUT then Answer(s.(session := CLEARED), Ok, [])
    else Answer(s, ErrBadReq, [])
  }

  /** Start-up: `main` bootstraps, and `auth_load_db` bootstraps again before it reads the table. */
  datatype StartEnv = StartEnv(first: Bootstrap.Env, second: Bootstrap.Env, openOk: bool, readOk: bool)

  /** The files after start-up, and the table in memory if the server comes up. */
  function Boot(c: Suite, files: Files, e: StartEnv): (Files, Option<seq<User>>) {
    var (seeded, ok) := Bootstrap.Run(c, files, e.first);
    if !ok then (seeded, None) else LoadedTable(c, seeded, e.second, e.openOk, e.readOk)
  }

  method StartServer(c: Suite, fs: FileSystem, e: StartEnv) returns (conn: Connection?)
    modifies fs
    ensures fs.files == Boot(c, old(fs.files), e).0
    ensures conn == null <==> Boot(c, old(fs.files), e).1.None?
    ensures conn != null ==> fresh(conn) && fresh(conn.db) && conn.db.fs == fs && conn.db.loaded
    ensures conn != null ==> conn.Current() == State(Boot(c, old(fs.files), e).1.value, fs.files, CLEARED)
  {
    var seeded := Bootstrap.BootstrapFromSeed(c, fs, e.first);
    if !seeded {
      return null;
    }
    var db := new UserDb(fs);
    var loaded := db.LoadDb(c, e.second, e.openOk, e.readOk);
    if !loaded {
      return null;
    }
    conn := new Connection(db);
  }

  /** The running server: the session fields, the user table and the files. */
  class Connection {
    const db: UserDb
    var authenticated: bool
    var username: Bytes
    var mustChange: bool
    var deleted: bool
    var key: Digest
    var hasKey: bool

    constructor (db: UserDb)
      ensures this.db == db && Snapshot() == CLEARED
    {
      this.db := db;
      authenticated, username, mustChange, deleted, key, hasKey := false, [], false, false, ZERO_KEY, false;
    }

    function Snapshot(): Session
      reads this
    {
      Session(authenticated, username, mustChange, deleted, key, hasKey)
    }

    function Current(): State
      reads this, db, db.fs
    {
      State(db.users, db.fs.files, Snapshot())
    }

    method ClearSession()
      modifies this
      ensures Snapshot() == CLEARED
    {
      key := ZERO_KEY;
      authenticated, username, mustChange, deleted, hasKey := false, [], false, false, false;
    }

    method HandleAuth(c: Suite, pt: Bytes, e: Env) returns (status: Status, data: Bytes)
      modifies this
      ensures Answer(Current(), status, data) == Authenticate(c, old(Current()), pt, e)
    {
      hide CStr, DeriveKey, Verify;
      if |pt| < 3 {
        return ErrBadReq, [];
      }
      var ulen := pt[1] as int;
      if |pt| < 1 + 1 + ulen + 1 {
        return ErrBadReq, [];
      }
      var plen := pt[1 + 1 + ulen] as int;
      if |pt| != 1 + 2 + ulen + plen || ulen == 0 || plen == 0 {
        return ErrBadReq, [];
      }
      var user, password := CStr(pt[2..2 + ulen]), CStr(pt[3 + ulen..]);
      var u := db.VerifyPassword(c, user, password, e.hashOk);
      if u == None {
        return ErrAuth, [];
      }
      ClearSession();
      authenticated := true;
      mustChange := u.value.mustChange;
      deleted := u.value.deleted;
      username := user;
      var derived;
      key, derived := DeriveSessionKey(c, db.fs, username, password, e.derive, key);
      if derived {
        hasKey := true;
      }
      return Ok, Flags(mustChange, deleted);
    }

    method HandleChange(c: Suite, pt: Bytes, e: Env) returns (status: Status)
      requires AeadIdeal(c) && db.loaded && pt != []
      modifies this, db`users, db.fs
      ensures Answer(Current(), status, []) == Change(c, old(Current()), pt, e)
    {
      if !hasKey {
        return ErrAuth;
      }
      if deleted {
        return ErrDeleted;
      }
      if |pt| < 2 || |pt| != 1 + 1 + pt[1] as int || pt[1] == 0 {
        return ErrBadReq;
      }
      var password := CStr(pt[2..]);
      var newKey, derived := DeriveSessionKey(c, db.fs, username, password, e.derive, ZERO_KEY);
      if !derived {
        return ErrInternal;
      }
      var rewrapped := ReencryptPrivate(c, db.fs, username, key, newKey, e.reencrypt);
      if !rewrapped {
        return ErrInternal;
      }
      var changed := db.ChangePasswordAuthenticated(c, username, password, e.password);
      if !changed {
        return ErrInternal;
      }
      key := newKey;
      mustChange := false;
      return Ok;
    }

    method HandleCreate(c: Suite, e: Env) returns (status: Status)
      requires AeadIdeal(c)
      modifies this, db.fs
      ensures Answer(Current(), status, []) == Create(c, old(Current()), e)
    {
      if !hasKey {
        return ErrAuth;
      }
      if deleted {
        return ErrDeleted;
      }
      var tombstone := db.GetDeleted(username);
      if tombstone == None {
        return ErrInternal;
      }
      if tombstone.value {
        deleted := true;
        return ErrDeleted;
      }
      var created := CreateKeysSession(c, db, username, key, e.create);
      return if created then Ok else ErrInternal;
    }

    method HandleSign(c: Suite, pt: Bytes, e: Env) returns (status: Status, data: Bytes)
      requires pt != []
      ensures Answer(Current(), status, data) == Sign(c, Current(), pt, e)
    {
      if !hasKey {
        return ErrAuth, [];
      }
      if deleted {
        return ErrDeleted, [];
      }
      if |pt| - 1 > UINT16_MAX {
        return ErrBadReq, [];
      }
      var signature := SignDocSession(c, db, username, key, pt[1..], e.sign);
      if signature == None {
        return ErrInternal, [];
      }
      return Ok, signature.value;
    }

    method HandleLookup(pt: Bytes, e: Env) returns (status: Status, data: Bytes)
      requires pt != []
      ensures Answer(Current(), status, data) == Lookup(Current(), pt, e)
    {
      var target;
      if |pt| == 1 {
        if !authenticated {
          return ErrAuth, [];
        }
        target := username;
      } else {
        var ulen := pt[1] as int;
        if |pt| != 1 + 1 + ulen || ulen == 0 {
          return ErrBadReq, [];
        }
        target := CStr(pt[2..]);
      }
      var pem := GetPublic(db.fs.files, target, e.readPublicOk);
      if pem == None {
        return ErrNotFound, [];
      }
      return Ok, pem.value;
    }

    method HandleDelete(e: Env) returns (status: Status)
      requires db.loaded
      modifies this, db`users, db.fs
      ensures Answer(Current(), status, []) == Delete(old(Current()), e)
    {
      if !hasKey {
        return ErrAuth;
      }
      if deleted {
        return ErrDeleted;
      }
      var gone := DeleteKeyFiles(db, username, e.delete);
      if !gone {
        return ErrInternal;
      }
      deleted := true;
      return Ok;
    }

    /** One turn of the request loop, from decrypted plaintext to status and response data. */
    method HandleRequest(c: Suite, pt: Bytes, e: Env) returns (status: Status, data: Bytes)
      requires AeadIdeal(c) && db.loaded && pt != []
      modifies this, db`users, db.fs
      ensures Answer(Current(), status, data) == Handle(c, old(Current()), pt, e)
    {
      var op := pt[0];
      data := [];
      if op != OP_AUTH && op != OP_GET_PUBLIC_KEY && !authenticated {
        status := ErrAuth;
      } else if authenticated && deleted && op != OP_AUTH && op != OP_GET_PUBLIC_KEY && op != OP_LOGOUT {
        status := ErrDeleted;
      } else if op == OP_AUTH {
        status, data := HandleAuth(c, pt, e);
      } else if mustChange && op != OP_CHANGE_PASSWORD && op != OP_AUTH && op != OP_LOGOUT {
        status := ErrAuth;
      } else if op == OP_CHANGE_PASSWORD {
        status := HandleChange(c, pt, e);
      } else if op == OP_CREATE_KEYS {
        status := HandleCreate(c, e);
      } else if op == OP_SIGN_DOC {
        status, data := HandleSign(c, pt, e);
      } else if op == OP_GET_PUBLIC_KEY {
        status, data := HandleLookup(pt, e);
      } else if op == OP_DELETE_KEYS {
        status := HandleDelete(e);
      } else if op == OP_LOGOUT {
        ClearSession();
        status := Ok;
      } else {
        status := ErrBadReq;
      }
    }
  }
}
