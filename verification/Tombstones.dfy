/** A tombstone on disk lasts, whatever fails, until the provisioning tool re-registers the user. */
module Tombstones {
  import opened Octets
  import opened Crypto
  import opened TableText
  import opened TableFile
  import opened Disk
  import opened Auth
  import opened Keystore
  import opened Requests
  import opened Server
  import opened Runs
  import opened Agreement
  import Provision

  predicate Tombstone(t: seq<User>, user: Bytes) {
    RecordOf(t, user).Some? && RecordOf(t, user).value.deleted
  }

  /** If the table file can be read at all, the first record of the user is a tombstone. */
  predicate DiskTombstone(files: Files, user: Bytes) {
    UserTable in files &&
    match Records(files[UserTable])
    case None => true
    case Some(d) => Tombstone(d, user)
  }

  predicate Tombstoned(w: World, user: Bytes) {
    && DiskTombstone(w.files, user)
    && (w.server.Some? ==>
         WellFormed(w.server.value.users) && Tombstone(w.server.value.users, user))
  }

  /** The tool re-registers the user with this event. */
  predicate Reregisters(c: Suite, w: World, e: Event, user: Bytes) {
    e.Register? && e.name == user && w.server.None? && Provision.Register(c, w.files, e.name, e.password, e.tool).1
  }

  lemma PatchedKeepsTombstone(t: seq<User>, changed: seq<User>, name: Bytes, user: Bytes)
    requires Patched(t, changed, name) && Tombstone(t, user)
    ensures Tombstone(changed, user)
  {
    var i := Find(t, name).value;
    FindAfterUpdate(t, i, changed[i], user);
  }

  lemma HandleKeepsTombstone(c: Suite, s: State, pt: Bytes, e: Env, user: Bytes)
    requires AeadIdeal(c) && pt != [] && DiskTombstone(s.files, user)
    requires WellFormed(s.users) && Tombstone(s.users, user)
    ensures var a := Handle(c, s, pt, e).state;
      DiskTombstone(a.files, user) && WellFormed(a.users) && Tombstone(a.users, user)
  {
    hide Handle, Print, Records;
    var a := Handle(c, s, pt, e).state;
    HandleStep(c, s, pt, e);
    if !Idle(s, a) {
      PatchedWellFormed(s.users, a.users, s.session.username);
      PatchedKeepsTombstone(s.users, a.users, s.session.username, user);
      RecordsOfPrint(a.users);
    }
  }

  lemma StepKeepsTombstone(c: Suite, w: World, e: Event, user: Bytes)
    requires AeadIdeal(c) && Admissible(e) && Tombstoned(w, user) && !Reregisters(c, w, e, user)
    ensures Tombstoned(Step(c, w, e).0, user)
  {
    hide Handle, Records;
    match e
    case Start(boot) =>
      if w.server.None? && Boot(c, w.files, boot).1.Some? {
        TableIdempotence(w.files[UserTable]);
        Provision.ReadersAgree(w.files[UserTable], Load(w.files[UserTable]).value);
      }
    case Request(pt, env) =>
      if w.server.Some? && pt != [] {
        HandleKeepsTombstone(c, State(w.server.value.users, w.files, w.server.value.session), pt, env, user);
      }
    case Stop =>
    case Register(name, password, tool) =>
      if w.server.None? {
        if Records(w.files[UserTable]).Some? {
          Provision.RegisterKeepsRecord(c, w.files, name, password, tool, user);
        }
      }
  }

  lemma {:induction false} RunKeepsTombstone(c: Suite, w: World, es: seq<Event>, user: Bytes)
    requires AeadIdeal(c) && Tombstoned(w, user)
    requires forall k | 0 <= k < |es| :: Admissible(es[k]) && !Reregisters(c, Before(c, w, es, k), es[k], user)
    ensures Tombstoned(Run(c, w, es), user)
  {
    hide Tombstoned, Step, Reregisters, Admissible;
    if es != [] {
      var n := |es| - 1;
      forall k | 0 <= k < n
        ensures Admissible(es[..n][k]) && !Reregisters(c, Before(c, w, es[..n], k), es[..n][k], user)
      {
        BeforeShorter(c, w, es, k);
      }
      RunKeepsTombstone(c, w, es[..n], user);
      assert Before(c, w, es, n) == Run(c, w, es[..n]);
      StepKeepsTombstone(c, Run(c, w, es[..n]), es[n], user);
    }
  }

  lemma TombstoneRefuses(c: Suite, s: State, pt: Bytes, e: Env)
    requires AeadIdeal(c) && pt != [] && (pt[0] == OP_CREATE_KEYS || pt[0] == OP_SIGN_DOC)
    requires Tombstone(s.users, s.session.username)
    ensures Handle(c, s, pt, e).status != Ok
  {
    hide Change, Authenticate, Delete, Lookup;
  }

  /**
   * Tombstone permanence: from a state with the tombstone on disk, through any logins, restarts, failed writes,
   * failed unlinks and registrations of other names, no CREATE_KEYS or SIGN_DOC in a session of that user
   * succeeds until the tool has re-registered the user.
   */
  lemma TombstonePermanence(c: Suite, w: World, es: seq<Event>, user: Bytes, k: nat)
    requires AeadIdeal(c) && Tombstoned(w, user) && k < |es|
    requires forall j | 0 <= j < k :: Admissible(es[j]) && !Reregisters(c, Before(c, w, es, j), es[j], user)
    requires es[k].Request? && es[k].pt != [] && (es[k].pt[0] == OP_CREATE_KEYS || es[k].pt[0] == OP_SIGN_DOC)
    requires Before(c, w, es, k).server.Some? && Before(c, w, es, k).server.value.session.username == user
    ensures ReplyTo(c, w, es, k).Some? && ReplyTo(c, w, es, k).value.status != Ok
  {
    hide Handle, DiskTombstone, Reregisters, Admissible;
    forall j | 0 <= j < k
      ensures Admissible(es[..k][j]) && !Reregisters(c, Before(c, w, es[..k], j), es[..k][j], user)
    {
      assert es[..k][..j] == es[..j];
    }
    RunKeepsTombstone(c, w, es[..k], user);
    var at := Before(c, w, es, k);
    TombstoneRefuses(c, State(at.server.value.users, at.files, at.server.value.session), es[k].pt, es[k].env);
  }

  lemma TombstoneWritten(users: seq<User>, files: Files, user: Bytes, w: WriteEnv)
    ensures var marked := SetDeleted(users, files, user, true, w);
      if marked.ok then
        && Find(users, user).Some?
        && (var i := Find(users, user).value; marked.users == users[i := users[i].(deleted := true)])
        && UserTable in marked.files && marked.files[UserTable] == Print(marked.users)
      else marked.users == users && SameKeyFiles(files, marked.files, user)
  {
    hide Print;
  }

  /** Once its tombstone is written, a DELETE_KEYS request has it in memory and on disk, whatever the unlinks do. */
  lemma DeletionTombstones(c: Suite, s: State, pt: Bytes, e: Env)
    requires AeadIdeal(c) && pt != [] && pt[0] == OP_DELETE_KEYS && Tombstoning(s, e)
    requires WellFormed(s.users) && UserTable in s.files
    ensures var a := Handle(c, s, pt, e).state;
      var user := s.session.username;
      && DiskTombstone(a.files, user) && WellFormed(a.users) && Tombstone(a.users, user)
      && a.session.username == user
  {
    hide Print, Records, SetDeleted, PathName;
    var a, user := Delete(s, e), s.session.username;
    DeletionAfterTombstone(s.users, s.files, user, e.delete);
    TombstoneWritten(s.users, s.files, user, e.delete.write);
    hide DeleteKeys;
    var i := Find(s.users, user).value;
    FindAfterUpdate(s.users, i, s.users[i].(deleted := true), user);
    ReplacedWellFormed(s.users, i, s.users[i].(deleted := true));
    RecordsOfPrint(a.state.users);
  }

  /** A DELETE_KEYS request that reports success, or merely changes a key file, has its tombstone written. */
  lemma DeletionNeedsTombstone(c: Suite, s: State, pt: Bytes, e: Env)
    requires AeadIdeal(c) && pt != [] && pt[0] == OP_DELETE_KEYS
    ensures var a := Handle(c, s, pt, e);
      a.status == Ok || !SameKeyFiles(s.files, a.state.files, s.session.username) ==> Tombstoning(s, e)
  {
    hide Print, SetDeleted, PathName;
    var user := s.session.username;
    if PathName(user) {
      DeletionAfterTombstone(s.users, s.files, user, e.delete);
      TombstoneWritten(s.users, s.files, user, e.delete.write);
      hide DeleteKeys;
    }
  }

  /** A DELETE_KEYS request of this user that answers OK, or whose tombstone was written before something failed. */
  predicate Deletion(c: Suite, w: World, e: Event, user: Bytes)
    requires AeadIdeal(c)
  {
    && e.Request? && e.pt != [] && e.pt[0] == OP_DELETE_KEYS
    && w.server.Some? && w.server.value.session.username == user
    && var s := State(w.server.value.users, w.files, w.server.value.session);
       Handle(c, s, e.pt, e.env).status == Ok || Tombstoning(s, e.env)
  }

  lemma DeletionEntombs(c: Suite, w: World, e: Event, user: Bytes)
    requires AeadIdeal(c) && Kept(w) && Deletion(c, w, e, user)
    ensures Tombstoned(Step(c, w, e).0, user)
  {
    hide Handle, Records, Load, Tombstoning;
    var s := State(w.server.value.users, w.files, w.server.value.session);
    DeletionNeedsTombstone(c, s, e.pt, e.env);
    DeletionTombstones(c, s, e.pt, e.env);
  }

  /**
   * Deletions last: in any run from a stopped server and with any failures, once a DELETE_KEYS of a user has
   * written its tombstone -- even if it then failed to remove the key files -- no later CREATE_KEYS or SIGN_DOC
   * in a session of that user succeeds, in this server process or another, unless the tool re-registered the
   * user in between.
   */
  lemma DeletionIsPermanent(c: Suite, w: World, es: seq<Event>, j: nat, k: nat, user: Bytes)
    requires AeadIdeal(c) && w.server.None? && j < k < |es|
    requires Deletion(c, Before(c, w, es, j), es[j], user)
    requires forall i | j < i < k :: Admissible(es[i]) && !Reregisters(c, Before(c, w, es, i), es[i], user)
    requires es[k].Request? && es[k].pt != [] && (es[k].pt[0] == OP_CREATE_KEYS || es[k].pt[0] == OP_SIGN_DOC)
    requires Before(c, w, es, k).server.Some? && Before(c, w, es, k).server.value.session.username == user
    ensures ReplyTo(c, w, es, k).Some? && ReplyTo(c, w, es, k).value.status != Ok
  {
    hide Step, Run, Deletion, Reregisters, Admissible, Tombstoned, Kept;
    var at, rest := Before(c, w, es, j + 1), es[j + 1..];
    assert Tombstoned(at, user) by {
      RunKeeps(c, w, es[..j]);
      DeletionEntombs(c, Before(c, w, es, j), es[j], user);
      BeforeNext(c, w, es, j);
    }
    QuietSuffix(c, w, es, j + 1, k, user);
    BeforeSuffix(c, w, es, j + 1, k - j - 1);
    TombstonePermanence(c, at, rest, user, k - j - 1);
  }

  lemma QuietSuffix(c: Suite, w: World, es: seq<Event>, from: nat, to: nat, user: Bytes)
    requires AeadIdeal(c) && from <= to <= |es|
    requires forall i | from <= i < to :: Admissible(es[i]) && !Reregisters(c, Before(c, w, es, i), es[i], user)
    ensures var at, rest := Before(c, w, es, from), es[from..];
      forall i | 0 <= i < to - from :: Admissible(rest[i]) && !Reregisters(c, Before(c, at, rest, i), rest[i], user)
  {
    hide Step, Run, Reregisters, Admissible;
    forall i | 0 <= i < to - from
      ensures Admissible(es[from..][i])
      ensures !Reregisters(c, Before(c, Before(c, w, es, from), es[from..], i), es[from..][i], user)
    {
      BeforeSuffix(c, w, es, from, i);
      assert es[from..][i] == es[from + i] && Admissible(es[from + i]);
    }
  }
}
