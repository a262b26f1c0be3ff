/** The offline tool `tools/account_provision.c`, which revives or adds one account in the table file. */
module Provision {
  import opened Octets
  import opened Crypto
  import opened TableText
  import opened TableFile
  import opened Disk
  import opened Auth

  datatype Env = Env(readOk: bool, randOk: bool, hashOk: bool, salt: Salt, write: WriteEnv)

  predicate AllOk(t: seq<User>, e: Env) {
    e.readOk && e.randOk && e.hashOk && WriteSucceeds(t, e.write)
  }

  /** The record of an account fresh from the tool: active, with a password that must be changed. */
  function FreshAccount(c: Suite, name: Bytes, password: Bytes, salt: Salt): User {
    User(name, true, false, salt, c.pbkdf2(password, salt))
  }

  /** The table after registering: `None` when the account is active or the hash could not be made. */
  function Registered(c: Suite, t: seq<User>, name: Bytes, password: Bytes, e: Env): Option<seq<User>> {
    match Find(t, name)
    case Some(i) =>
      if !t[i].deleted || !e.randOk || !e.hashOk then None
      else Some(t[i := FreshAccount(c, t[i].name, password, e.salt)])
    case None =>
      if !e.randOk || !e.hashOk then None else Some(t + [FreshAccount(c, name, password, e.salt)])
  }

  /** The files after `register name password`, and whether the tool reports success. */
  function Register(c: Suite, files: Files, name: Bytes, password: Bytes, e: Env): (Files, bool) {
    if name == [] || COLON in name || UserTable !in files || !e.readOk then (files, false)
    else
      var t := Records(files[UserTable]);
      if t.None? || t.value == [] then (files, false)
      else
        var next := Registered(c, t.value, name, password, e);
        if next.None? then (files, false)
        else (WriteTable(files, ToolTmp, next.value, e.write), WriteSucceeds(next.value, e.write))
  }

  /** The loading loop: no check for repeated names, and a null table when there are no records. */
  method LoadRecords(text: Bytes) returns (ok: bool, users: array?<User>)
    ensures ok <==> Records(text).Some?
    ensures ok ==> (users == null <==> Records(text).value == [])
    ensures users != null ==> ok && fresh(users) && users[..] == Records(text).value
  {
    hide ChunkLength, LineOf, Lines, ParseLine, ParseAll;
    NoLines();
    var list: seq<User> := [];
    var pos := 0;
    ghost var done: seq<Bytes> := [];
    assert text[0..] == text && [] + Lines(text) == Lines(text);
    while pos < |text|
      invariant pos <= |text|
      invariant Lines(text) == done + Lines(text[pos..])
      invariant ParseAll(done) == Some(list)
    {
      var k := ChunkLength(text[pos..]);
      var line := LineOf(text[pos..][..k]);
      LinesStep(text, done, pos);
      pos := pos + k;
      if line != [] {
        var u := ParseRecord(line);
        ParseAllStep(done, list, line, Lines(text[pos..]));
        AppendNothing(u, None);
        if u == None {
          return false, null;
        }
        done, list := done + [line], list + [u.value];
      }
    }
    assert text[pos..] == [] && done + [] == done;
    if list == [] {
      return true, null;
    }
    users := new User[|list|](i requires 0 <= i < |list| => list[i]);
    assert users[..] == list;
    return true, users;
  }

  /** The search loop: the first record of that name is revived in place when it is a tombstone. */
  method UpdateRecord(c: Suite, users: array?<User>, name: Bytes, password: Bytes, e: Env)
    returns (ok: bool, found: bool, active: bool)
    modifies if users == null then {} else {users}
    ensures users == null ==> !ok
    ensures users != null ==>
      match Find(old(users[..]), name)
      case None => ok && !found && !active && users[..] == old(users[..])
      case Some(i) =>
        && found && active == !old(users[..])[i].deleted
        && ok == (active || (e.randOk && e.hashOk))
        && (active ==> users[..] == old(users[..]))
        && (ok && !active ==>
              Some(users[..]) == Registered(c, old(users[..]), name, password, e))
  {
    if users == null {
      return false, false, false;
    }
    for i := 0 to users.Length
      invariant users[..] == old(users[..])
      invariant forall j | 0 <= j < i :: users[j].name != name
    {
      if users[i].name == name {
        FindFirst(users[..], name, i);
        if !users[i].deleted {
          return true, true, true;
        }
        if !e.randOk {
          return false, true, false;
        }
        users[i] := users[i].(salt := e.salt);
        if !e.hashOk {
          return false, true, false;
        }
        users[i] := users[i].(hash := c.pbkdf2(password, e.salt), mustChange := true, deleted := false);
        assert users[..] == old(users[..])[i := FreshAccount(c, name, password, e.salt)];
        return true, true, false;
      }
    }
    return true, false, false;
  }

  method AppendUser(c: Suite, users: array<User>, name: Bytes, password: Bytes, e: Env) returns (grown: array?<User>)
    ensures grown == null <==> !e.randOk || !e.hashOk
    ensures grown != null ==> fresh(grown) && grown[..] == users[..] + [FreshAccount(c, name, password, e.salt)]
  {
    if !e.randOk || !e.hashOk {
      return null;
    }
    var u := FreshAccount(c, name, password, e.salt);
    grown := new User[users.Length + 1](i reads users requires 0 <= i <= users.Length =>
      if i < users.Length then users[i] else u);
    assert grown[..] == users[..] + [u];
  }

  /** The `register` command. */
  method RegisterAccount(c: Suite, fs: FileSystem, name: Bytes, password: Bytes, e: Env) returns (ok: bool)
    modifies fs
    ensures (fs.files, ok) == Register(c, old(fs.files), name, password, e)
  {
    if name == [] || COLON in name || UserTable !in fs.files || !e.readOk {
      return false;
    }
    var loaded, users := LoadRecords(fs.files[UserTable]);
    if !loaded {
      return false;
    }
    var found, active;
    ok, found, active := UpdateRecord(c, users, name, password, e);
    if !ok || active {
      return false;
    }
    if !found {
      users := AppendUser(c, users, name, password, e);
      if users == null {
        return false;
      }
    }
    ok := ReplaceTable(fs, ToolTmp, users[..], e.write);
  }

  // ---------- the two programs together ----------

  /** The server accepts exactly the tables the tool reads whose names are distinct, and then both read the same. */
  lemma ReadersAgree(text: Bytes, t: seq<User>)
    ensures Load(text) == Some(t) <==> Records(text) == Some(t) && Distinct(t)
  {
  }

  /** An active account is never touched, and any failure leaves the table as it was. */
  lemma RefusalKeepsTable(c: Suite, files: Files, name: Bytes, password: Bytes, e: Env)
    requires UserTable in files
    ensures var (after, ok) := Register(c, files, name, password, e);
      && (!ok ==> UserTable in after && after[UserTable] == files[UserTable])
      && (forall t: seq<User>, i | Load(files[UserTable]) == Some(t) && Find(t, name) == Some(i) && !t[i].deleted ::
            !ok && after == files)
  {
  }

  /** The table a successful registration must produce: one tombstone revived, or one account appended. */
  function Expected(c: Suite, t: seq<User>, name: Bytes, password: Bytes, salt: Salt): seq<User> {
    match Find(t, name)
    case Some(i) => t[i := FreshAccount(c, name, password, salt)]
    case None => t + [FreshAccount(c, name, password, salt)]
  }

  lemma RegisterWrites(c: Suite, files: Files, t: seq<User>, name: Bytes, password: Bytes, e: Env)
    requires UserTable in files && Load(files[UserTable]) == Some(t) && t != []
    requires name != [] && COLON !in name
    requires Find(t, name).Some? ==> t[Find(t, name).value].deleted
    requires AllOk(Expected(c, t, name, password, e.salt), e)
    ensures Register(c, files, name, password, e)
         == ((files - {ToolTmp})[UserTable := Print(Expected(c, t, name, password, e.salt))], true)
  {
    assert Registered(c, t, name, password, e) == Some(Expected(c, t, name, password, e.salt));
  }

  lemma ExpectedWellFormed(c: Suite, t: seq<User>, name: Bytes, password: Bytes, salt: Salt)
    requires WellFormed(t)
    ensures WellFormed(Expected(c, t, name, password, salt)) <==> NameOk(name)
  {
    var account := FreshAccount(c, name, password, salt);
    match Find(t, name)
    case Some(i) =>
      assert t[i] in t && t[i := account][i] in t[i := account];
      ReplacedWellFormed(t, i, account);
    case None =>
      assert (t + [account])[|t|] in t + [account];
      if NameOk(name) {
        AppendedWellFormed(t, account);
      }
  }

  /**
   * On a nonempty table the server accepts, with no failure, registering an inactive name always reports
   * success, and the server then loads exactly the old table with the tombstone revived or the account
   * appended -- if and only if the name fits the format. No other file changes.
   */
  lemma RegisterExact(c: Suite, files: Files, t: seq<User>, name: Bytes, password: Bytes, e: Env)
    requires UserTable in files && Load(files[UserTable]) == Some(t) && t != []
    requires name != [] && COLON !in name
    requires Find(t, name).Some? ==> t[Find(t, name).value].deleted
    requires AllOk(Expected(c, t, name, password, e.salt), e)
    ensures var (after, ok) := Register(c, files, name, password, e);
      var expected := Expected(c, t, name, password, e.salt);
      && ok && UserTable in after
      && (Load(after[UserTable]) == Some(expected) <==> NameOk(name))
      && after - {UserTable, ToolTmp} == files - {UserTable, ToolTmp}
  {
    RegisterWrites(c, files, t, name, password, e);
    SwapFrame(files, ToolTmp, Print(Expected(c, t, name, password, e.salt)));
    TableIdempotence(files[UserTable]);
    LoadOfPrint(Expected(c, t, name, password, e.salt));
    ExpectedWellFormed(c, t, name, password, e.salt);
  }

  /** A name too long for the reader is registered all the same, and the server then refuses the whole table. */
  lemma LongNameBreaksTable(c: Suite, files: Files, t: seq<User>, name: Bytes, password: Bytes, e: Env)
    requires UserTable in files && Load(files[UserTable]) == Some(t) && t != []
    requires CleanName(name) && NAME_MAX < |name|
    requires AllOk(Expected(c, t, name, password, e.salt), e)
    ensures var (after, ok) := Register(c, files, name, password, e);
      ok && UserTable in after && Load(after[UserTable]).None?
  {
    hide Load, Print;
    TableIdempotence(files[UserTable]);
    FoundNameFits(t, name);
    RegisterWrites(c, files, t, name, password, e);
    ExpectedWellFormed(c, t, name, password, e.salt);
    LoadsExactly(Expected(c, t, name, password, e.salt));
  }

  lemma FoundNameFits(t: seq<User>, name: Bytes)
    requires WellFormed(t)
    ensures Find(t, name).Some? ==> |name| <= NAME_MAX
  {
    if Find(t, name).Some? {
      assert t[Find(t, name).value] in t;
    }
  }

  /** Printing a readable table before some more text keeps its records in front. */
  lemma {:induction false} RecordsOfPrintThen(t: seq<User>, rest: Bytes)
    requires forall u | u in t :: NameOk(u.name)
    ensures Lines(Print(t) + rest) == Lines(Print(t)) + Lines(rest)
  {
    hide LineOf, ChunkLength, LineBody, NameOk;
    if t == [] {
      NoLines();
      assert Print(t) + rest == rest;
    } else {
      RecordsOfPrintThen(t[1..], rest);
      var body, more := LineBody(t[0]), Print(t[1..]);
      BodyFits(t[0]);
      LinesOfBody(body, more + rest);
      LinesOfBody(body, more);
      ConcatAssociative(body + [NEWLINE], more, rest);
      Regroup([body], Lines(more), Lines(rest));
    }
  }

  lemma BodyFits(u: User)
    requires NameOk(u.name)
    ensures 0 < |LineBody(u)| < LINE_MAX && NEWLINE !in LineBody(u) && 0 !in LineBody(u)
  {
    LineBodyClean(u);
  }

  lemma FindInFront(t: seq<User>, more: seq<User>, name: Bytes)
    requires Find(t, name).Some?
    ensures Find(t + more, name) == Find(t, name)
  {
    FindIsFirst(t, name);
    FindFirst(t + more, name, Find(t, name).value);
  }

  lemma FindIsFirst(t: seq<User>, name: Bytes)
    requires Find(t, name).Some?
    ensures forall j | 0 <= j < Find(t, name).value :: t[j].name != name
  {
    if t[0].name != name {
      FindIsFirst(t[1..], name);
      assert forall j | 1 <= j < Find(t, name).value :: t[j] == t[1..][j - 1];
    }
  }

  lemma AppendKeepsRecord(t: seq<User>, account: User, user: Bytes)
    requires (forall u | u in t :: NameOk(u.name)) && RecordOf(t, user).Some?
    ensures var r := Records(Print(t + [account]));
      r.Some? ==> RecordOf(r.value, user) == RecordOf(t, user)
  {
    hide Lines, ParseLine, Print, Line;
    PrintOne(t, account);
    RecordsOfPrintThen(t, Line(account));
    ParseAllSplit(Lines(Print(t)), Lines(Line(account)));
    RecordsOfPrint(t);
    if ParseAll(Lines(Line(account))).Some? {
      FindInFront(t, ParseAll(Lines(Line(account))).value, user);
    }
  }

  /** Whatever name is registered, no record but its own tombstone changes for a reader of the new file. */
  lemma RegisterKeepsRecord(c: Suite, files: Files, name: Bytes, password: Bytes, e: Env, user: Bytes)
    requires UserTable in files && Records(files[UserTable]).Some?
    requires RecordOf(Records(files[UserTable]).value, user).Some?
    requires name == user && Register(c, files, name, password, e).1 ==>
               !RecordOf(Records(files[UserTable]).value, user).value.deleted
    ensures var after := Register(c, files, name, password, e).0;
      && UserTable in after
      && (Records(after[UserTable]).Some? ==>
            RecordOf(Records(after[UserTable]).value, user) == RecordOf(Records(files[UserTable]).value, user))
  {
    hide Lines, ParseAll, Print;
    var (after, ok) := Register(c, files, name, password, e);
    RefusalKeepsTable(c, files, name, password, e);
    if ok {
      var t := Records(files[UserTable]).value;
      var account := FreshAccount(c, name, password, e.salt);
      LinesClean(files[UserTable]);
      ParsedNamesOk(Lines(files[UserTable]));
      match Find(t, name)
      case None => AppendKeepsRecord(t, account, user);
      case Some(i) =>
        FindAfterUpdate(t, i, account, user);
        var changed := t[i := account];
        assert t[i] in t;
        assert forall u | u in changed :: u == account || u in t;
        RecordsOfPrint(changed);
    }
  }

  /** An empty table refuses every registration: the tool takes its null table for an error. */
  lemma EmptyTableRefuses(c: Suite, files: Files, name: Bytes, password: Bytes, e: Env)
    requires UserTable in files && Records(files[UserTable]) == Some([])
    ensures Register(c, files, name, password, e) == (files, false)
  {
  }

  /** An empty name and a name with a colon are refused, and so is everything when there is no readable table. */
  lemma BadNameRefused(c: Suite, files: Files, name: Bytes, password: Bytes, e: Env)
    requires name == [] || 58 in name || UserTable !in files || !e.readOk || Records(files[UserTable]).None?
    ensures Register(c, files, name, password, e) == (files, false)
  {
  }

  /** The tool succeeds exactly for a proper name that is not active in a readable, nonempty table, if nothing fails. */
  lemma RegisterSucceedsExactly(c: Suite, files: Files, name: Bytes, password: Bytes, e: Env)
    ensures Register(c, files, name, password, e).1 <==>
      && name != [] && 58 !in name && UserTable in files && Records(files[UserTable]).Some?
      && (var t := Records(files[UserTable]).value;
          && t != [] && (RecordOf(t, name).Some? ==> RecordOf(t, name).value.deleted)
          && AllOk(Expected(c, t, name, password, e.salt), e))
  {
    hide Records, Print;
  }
}
