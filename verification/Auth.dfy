/** The server's user table in memory and on disk: `server/auth.c`. */
module Auth {
  import opened Octets
  import opened Crypto
  import opened TableText
  import opened Disk
  import opened TableFile
  import Bootstrap

  datatype PasswordEnv = PasswordEnv(randOk: bool, hashOk: bool, salt: Salt, write: WriteEnv)

  /** The server accepts a password for a record when its salted hash is the stored one. */
  predicate Accepts(c: Suite, u: User, password: Bytes) {
    c.pbkdf2(password, u.salt) == u.hash
  }

  /** Memory, files and return value of one operation on the table. */
  datatype Result = Result(users: seq<User>, files: Files, ok: bool)

  function WithPassword(c: Suite, u: User, password: Bytes, salt: Salt): User {
    u.(salt := salt, hash := c.pbkdf2(password, salt), mustChange := false)
  }

  /** `auth_change_password_authenticated`: a failed write leaves the new password in memory. */
  function ChangePassword(c: Suite, users: seq<User>, files: Files, name: Bytes, password: Bytes, e: PasswordEnv)
    : Result
  {
    match Find(users, name)
    case None => Result(users, files, false)
    case Some(i) =>
      if !e.randOk || !e.hashOk then Result(users, files, false)
      else
        var changed := users[i := WithPassword(c, users[i], password, e.salt)];
        Result(changed, WriteTable(files, UserTableTmp, changed, e.write), WriteSucceeds(changed, e.write))
  }

  /** `auth_set_deleted`: a failed write is rolled back in memory. */
  function SetDeleted(users: seq<User>, files: Files, name: Bytes, deleted: bool, w: WriteEnv): Result {
    match Find(users, name)
    case None => Result(users, files, false)
    case Some(i) =>
      var changed := users[i := users[i].(deleted := deleted)];
      var ok := WriteSucceeds(changed, w);
      Result(if ok then changed else users, WriteTable(files, UserTableTmp, changed, w), ok)
  }

  /** The record a name and password log in to. */
  function Verify(c: Suite, users: seq<User>, name: Bytes, password: Bytes, hashOk: bool): Option<User> {
    match Find(users, name)
    case None => None
    case Some(i) => if hashOk && Accepts(c, users[i], password) then Some(users[i]) else None
  }

  function LoadedTable(c: Suite, files: Files, e: Bootstrap.Env, openOk: bool, readOk: bool)
    : (Files, Option<seq<User>>)
  {
    var (after, ok) := Bootstrap.Run(c, files, e);
    if !ok || UserTable !in after || !openOk || !readOk then (after, None)
    else (after, Load(after[UserTable]))
  }

  /** The table globals of `server/auth.c`; `loaded` stands for a remembered database path. */
  class UserDb {
    const fs: FileSystem
    var users: seq<User>
    var loaded: bool

    constructor (fs: FileSystem)
      ensures this.fs == fs && users == [] && !loaded
    {
      this.fs := fs;
      users, loaded := [], false;
    }

    method FindUser(name: Bytes) returns (r: Option<nat>)
      ensures r == Find(users, name)
    {
      for i := 0 to |users|
        invariant forall j | 0 <= j < i :: users[j].name != name
      {
        if users[i].name == name {
          FindFirst(users, name, i);
          return Some(i);
        }
      }
      return None;
    }

    method WriteDb(w: WriteEnv) returns (ok: bool)
      modifies fs
      ensures ok == WriteSucceeds(users, w)
      ensures fs.files == WriteTable(old(fs.files), UserTableTmp, users, w)
      ensures OnlyTableSwapped(UserTableTmp, old(fs.history), old(fs.files), fs.history, fs.files)
    {
      ok := ReplaceTable(fs, UserTableTmp, users, w);
    }

    method VerifyPassword(c: Suite, name: Bytes, password: Bytes, hashOk: bool) returns (r: Option<User>)
      ensures r == Verify(c, users, name, password, hashOk)
    {
      var i := FindUser(name);
      if i == None || !hashOk || c.pbkdf2(password, users[i.value].salt) != users[i.value].hash {
        return None;
      }
      return Some(users[i.value]);
    }

    method ChangePasswordAuthenticated(c: Suite, name: Bytes, password: Bytes, e: PasswordEnv) returns (ok: bool)
      modifies this`users, fs
      ensures Result(users, fs.files, ok) ==
              if loaded then ChangePassword(c, old(users), old(fs.files), name, password, e)
              else Result(old(users), old(fs.files), false)
    {
      if !loaded {
        return false;
      }
      var i := FindUser(name);
      if i == None || !e.randOk || !e.hashOk {
        return false;
      }
      users := users[i.value := WithPassword(c, users[i.value], password, e.salt)];
      ok := WriteDb(e.write);
    }

    method MarkDeleted(name: Bytes, deleted: bool, w: WriteEnv) returns (ok: bool)
      modifies this`users, fs
      ensures Result(users, fs.files, ok) ==
              if loaded then SetDeleted(old(users), old(fs.files), name, deleted, w)
              else Result(old(users), old(fs.files), false)
      ensures OnlyTableSwapped(UserTableTmp, old(fs.history), old(fs.files), fs.history, fs.files)
    {
      if !loaded {
        return false;
      }
      var i := FindUser(name);
      if i == None {
        return false;
      }
      var before := users[i.value].deleted;
      users := users[i.value := users[i.value].(deleted := deleted)];
      ok := WriteDb(w);
      if !ok {
        users := users[i.value := users[i.value].(deleted := before)];
        assert users == old(users);
      }
    }

    method GetDeleted(name: Bytes) returns (r: Option<bool>)
      ensures r == match Find(users, name) case Some(i) => Some(users[i].deleted) case None => None
    {
      var i := FindUser(name);
      if i == None {
        return None;
      }
      return Some(users[i.value].deleted);
    }

    /** The `fgets` loop over an opened table, refusing a repeated name as soon as it appears. */
    method ReadTable(text: Bytes) returns (ok: bool)
      modifies this`users
      ensures ok <==> Load(text).Some?
      ensures users == if ok then Load(text).value else []
    {
      hide ChunkLength, LineOf, Lines, ParseLine, ParseAll;
      NoLines();
      users := [];
      var pos := 0;
      ghost var done: seq<Bytes> := [];
      assert text[0..] == text && [] + Lines(text) == Lines(text);
      while pos < |text|
        invariant pos <= |text| && Distinct(users)
        invariant Lines(text) == done + Lines(text[pos..])
        invariant ParseAll(done) == Some(users)
      {
        var k := ChunkLength(text[pos..]);
        var line := LineOf(text[pos..][..k]);
        LinesStep(text, done, pos);
        pos := pos + k;
        if line != [] {
          var u := ParseRecord(line);
          ParseAllStep(done, users, line, Lines(text[pos..]));
          AppendNothing(u, None);
          if u == None {
            users := [];
            return false;
          }
          var known := FindUser(u.value.name);
          if known != None {
            RepeatedName(users, u.value, ParseAll(Lines(text[pos..])));
            users := [];
            return false;
          }
          done, users := done + [line], users + [u.value];
        }
      }
      assert text[pos..] == [] && done + [] == done;
      return true;
    }

    /** `auth_load_db`: bootstrap first, then read; any failure after opening leaves no table in memory. */
    method LoadDb(c: Suite, e: Bootstrap.Env, openOk: bool, readOk: bool) returns (ok: bool)
      modifies this, fs
      ensures var (after, t) := LoadedTable(c, old(fs.files), e, openOk, readOk);
        fs.files == after && ok == t.Some? && (ok ==> loaded && users == t.value)
    {
      var seeded := Bootstrap.BootstrapFromSeed(c, fs, e);
      if !seeded || UserTable !in fs.files || !openOk {
        return false;
      }
      users, loaded := [], false;
      ok := ReadTable(fs.files[UserTable]);
      if !ok || !readOk {
        users := [];
        return false;
      }
      loaded := true;
    }
  }

  lemma NoLines()
    ensures Lines([]) == [] && ParseAll([]) == Some([])
  {
  }

  lemma FindFirst(t: seq<User>, name: Bytes, i: nat)
    requires i < |t| && t[i].name == name && forall j | 0 <= j < i :: t[j].name != name
    ensures Find(t, name) == Some(i)
  {
    if i != 0 {
      FindFirst(t[1..], name, i - 1);
    }
  }

  lemma {:induction false} ParseAllSplit(a: seq<Bytes>, b: seq<Bytes>)
    ensures ParseAll(a + b) == Append(ParseAll(a), ParseAll(b))
  {
    if a == [] {
      assert a + b == b;
      AppendNothing<User>(None, ParseAll(b));
    } else {
      hide ParseLine, ParseAll, Append, Prepend;
      var head, tail := a[0], a[1..];
      ParseAllSplit(tail, b);
      HeadFirst(a, b);
      ParseAllCons(head, tail);
      ParseAllCons(head, tail + b);
      PrependAppend(ParseLine(head), ParseAll(tail), ParseAll(b));
    }
  }

  lemma ParseAllCons(line: Bytes, lines: seq<Bytes>)
    ensures ParseAll([line] + lines) == Prepend(ParseLine(line), ParseAll(lines))
  {
    hide ParseLine, Prepend;
    assert ([line] + lines)[1..] == lines;
  }

  lemma ParseAllStep(done: seq<Bytes>, users: seq<User>, line: Bytes, rest: seq<Bytes>)
    requires ParseAll(done) == Some(users)
    ensures ParseAll(done + [line]) == Append(Some(users), Prepend(ParseLine(line), Some([])))
    ensures ParseAll(done + [line] + rest) == Append(ParseAll(done + [line]), ParseAll(rest))
  {
    hide ParseLine, Append, Prepend;
    ParseAllSplit(done, [line]);
    ParseAllSplit(done + [line], rest);
    var tail: seq<Bytes> := [];
    assert [line][1..] == tail;
  }

  lemma RepeatedName(users: seq<User>, u: User, rest: Option<seq<User>>)
    requires Find(users, u.name).Some?
    ensures var all := Append(Some(users + [u]), rest);
      all.Some? ==> !Distinct(all.value)
  {
    var i := Find(users, u.name).value;
    if rest.Some? {
      var t := users + [u] + rest.value;
      assert t[i].name == t[|users|].name;
    }
  }

  /** After a first start from good names exactly the seed passwords log the seed users in, up to collisions. */
  lemma SeedUsersVerify(c: Suite, files: Files, e: Bootstrap.Env, i: nat, attempt: Bytes)
    requires UserTable !in files && SeedFile in files && Bootstrap.Run(c, files, e).1
    requires Bootstrap.ParseSeed(Lines(files[SeedFile])).Some?
    requires Bootstrap.GoodNames(Bootstrap.ParseSeed(Lines(files[SeedFile])).value)
    requires i < |Bootstrap.ParseSeed(Lines(files[SeedFile])).value|
    ensures var x := Bootstrap.ParseSeed(Lines(files[SeedFile])).value[i];
      var t := Load(Bootstrap.Run(c, files, e).0[UserTable]);
      && t.Some?
      && (var r := Verify(c, t.value, x.name, attempt, true);
          && (r.Some? <==> c.pbkdf2(attempt, e.salts(i)) == c.pbkdf2(x.password, e.salts(i)))
          && (r.Some? ==> r.value.name == x.name && r.value.mustChange == x.mustChange && r.value.deleted == x.deleted))
  {
    hide Lines, Load, Print, Bootstrap.ParseSeed, Bootstrap.Run, Bootstrap.SeededTable, Find;
    var xs := Bootstrap.ParseSeed(Lines(files[SeedFile])).value;
    var t := Bootstrap.SeededTable(c, xs, e.salts, 0);
    Bootstrap.SuccessYieldsTable(c, files, e);
    assert forall k | 0 <= k < i :: t[k].name == xs[k].name != xs[i].name;
    FindFirst(t, xs[i].name, i);
  }
}
