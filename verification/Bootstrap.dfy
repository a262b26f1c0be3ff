/** First start of the server: `auth_bootstrap_from_seed_if_needed` turns a seed into a user table. */
module Bootstrap {
  import opened Octets
  import opened Crypto
  import opened TableText
  import opened Disk

  datatype SeedEntry = SeedEntry(name: Bytes, password: Bytes, mustChange: bool, deleted: bool)

  /** What may go wrong, and the random salts drawn; `lineStop` is the first line whose processing fails. */
  datatype Env = Env(
    allocOk: bool, openSeedOk: bool, openTableOk: bool, lineStop: nat, salts: nat -> Salt,
    readOk: bool, closeTableOk: bool, closeSeedOk: bool, renameOk: bool, unlinkOk: bool, torn: Bytes)

  predicate AllOk(e: Env) {
    e.allocOk && e.openSeedOk && e.openTableOk && e.readOk && e.closeTableOk && e.closeSeedOk && e.renameOk
  }

  function ParseSeedLine(line: Bytes): Option<SeedEntry> {
    var f := Tokens(line);
    if |f| != 4 then None
    else
      match (ParseFlag(f[2]), ParseFlag(f[3]))
      case (Some(m), Some(d)) => Some(SeedEntry(f[0], f[1], m, d))
      case _ => None
  }

  function ParseSeed(lines: seq<Bytes>): Option<seq<SeedEntry>> {
    if lines == [] then Some([]) else Prepend(ParseSeedLine(lines[0]), ParseSeed(lines[1..]))
  }

  function Seeded(c: Suite, x: SeedEntry, salt: Salt): User {
    User(x.name, x.mustChange, x.deleted, salt, c.pbkdf2(x.password, salt))
  }

  /** The records written for a seed, drawing salts from index `from`. */
  function SeededTable(c: Suite, xs: seq<SeedEntry>, salts: nat -> Salt, from: nat): (t: seq<User>)
    ensures |t| == |xs|
    ensures forall i | 0 <= i < |xs| :: t[i] == Seeded(c, xs[i], salts(from + i))
  {
    if xs == [] then [] else [Seeded(c, xs[0], salts(from))] + SeededTable(c, xs[1..], salts, from + 1)
  }

  /** The table text a seed becomes, unless a line is bad or its processing fails. */
  function SeedText(c: Suite, seed: Bytes, e: Env): Option<Bytes> {
    var entries := ParseSeed(Lines(seed));
    if entries.None? || e.lineStop < |Lines(seed)| then None
    else Some(Print(SeededTable(c, entries.value, e.salts, 0)))
  }

  /** The files and the return value of the bootstrap. */
  function Run(c: Suite, files: Files, e: Env): (r: (Files, bool)) {
    if !e.allocOk then (Removed(files, UserTable, e.unlinkOk), false)
    else if UserTable in files || SeedFile !in files then (files, true)
    else if !e.openSeedOk || !e.openTableOk then (files, false)
    else
      var text := SeedText(c, files[SeedFile], e);
      if text.None? || !e.readOk || !e.closeTableOk || !e.closeSeedOk || !e.renameOk then
        (if e.unlinkOk then files else files[UserTable := e.torn], false)
      else
        (Renamed(files[UserTable := text.value], SeedFile, SeedConsumed, true), true)
  }

  lemma {:induction false} ParseSeedSplit(a: seq<Bytes>, b: seq<Bytes>)
    ensures ParseSeed(a + b) == Append(ParseSeed(a), ParseSeed(b))
  {
    if a == [] {
      assert a + b == b;
      AppendNothing<SeedEntry>(None, ParseSeed(b));
    } else {
      hide ParseSeedLine, ParseSeed, Append, Prepend;
      var head, tail := a[0], a[1..];
      ParseSeedSplit(tail, b);
      HeadFirst(a, b);
      ParseSeedCons(head, tail);
      ParseSeedCons(head, tail + b);
      PrependAppend(ParseSeedLine(head), ParseSeed(tail), ParseSeed(b));
    }
  }

  lemma ParseSeedCons(line: Bytes, lines: seq<Bytes>)
    ensures ParseSeed([line] + lines) == Prepend(ParseSeedLine(line), ParseSeed(lines))
  {
    hide ParseSeedLine, Prepend;
    assert ([line] + lines)[1..] == lines;
  }

  lemma ParseSeedStep(done: seq<Bytes>, xs: seq<SeedEntry>, line: Bytes, rest: seq<Bytes>)
    requires ParseSeed(done) == Some(xs)
    ensures ParseSeed(done + [line]) == Append(Some(xs), Prepend(ParseSeedLine(line), Some([])))
    ensures ParseSeed(done + [line] + rest) == Append(ParseSeed(done + [line]), ParseSeed(rest))
  {
    hide ParseSeedLine, Append, Prepend;
    ParseSeedSplit(done, [line]);
    ParseSeedSplit(done + [line], rest);
    var tail: seq<Bytes> := [];
    assert [line][1..] == tail;
  }

  lemma SeededTableStep(c: Suite, xs: seq<SeedEntry>, x: SeedEntry, salts: nat -> Salt)
    ensures Print(SeededTable(c, xs + [x], salts, 0))
         == Print(SeededTable(c, xs, salts, 0)) + Line(Seeded(c, x, salts(|xs|)))
  {
    hide Print, Line, Seeded;
    var u := Seeded(c, x, salts(|xs|));
    assert SeededTable(c, xs + [x], salts, 0) == SeededTable(c, xs, salts, 0) + [u];
    PrintOne(SeededTable(c, xs, salts, 0), u);
  }

  lemma NoSeed(c: Suite, salts: nat -> Salt)
    ensures Lines([]) == [] && ParseSeed([]) == Some([]) && Print(SeededTable(c, [], salts, 0)) == []
  {
  }

  /** The `fgets` loop of the bootstrap: parse, hash and print one line at a time. */
  method ConvertSeed(c: Suite, seed: Bytes, e: Env) returns (r: Option<Bytes>)
    ensures r == SeedText(c, seed, e)
  {
    hide ChunkLength, LineOf, Lines, ParseSeedLine, ParseSeed, SeededTable, Print, Line, Seeded;
    NoSeed(c, e.salts);
    var pos, count := 0, 0;
    var text := [];
    ghost var done: seq<Bytes>, xs: seq<SeedEntry> := [], [];
    assert seed[0..] == seed;
    while pos < |seed|
      invariant pos <= |seed| && count == |done| == |xs| <= e.lineStop
      invariant Lines(seed) == done + Lines(seed[pos..])
      invariant ParseSeed(done) == Some(xs)
      invariant text == Print(SeededTable(c, xs, e.salts, 0))
    {
      var k := ChunkLength(seed[pos..]);
      var line := LineOf(seed[pos..][..k]);
      LinesStep(seed, done, pos);
      pos := pos + k;
      if line != [] {
        var entry := ParseSeedLine(line);
        ParseSeedStep(done, xs, line, Lines(seed[pos..]));
        AppendNothing(entry, None);
        if entry == None || count == e.lineStop {
          return None;
        }
        SeededTableStep(c, xs, entry.value, e.salts);
        text := text + Line(Seeded(c, entry.value, e.salts(count)));
        count, done, xs := count + 1, done + [line], xs + [entry.value];
      }
    }
    assert seed[pos..] == [] && done + [] == done;
    return Some(text);
  }

  method BootstrapFromSeed(c: Suite, fs: FileSystem, e: Env) returns (ok: bool)
    modifies fs
    ensures (fs.files, ok) == Run(c, old(fs.files), e)
  {
    if !e.allocOk {
      fs.Unlink(UserTable, e.unlinkOk);
      return false;
    }
    if UserTable in fs.files || SeedFile !in fs.files {
      return true;
    }
    if !e.openSeedOk || !e.openTableOk {
      return false;
    }
    var text := ConvertSeed(c, fs.files[SeedFile], e);
    if text == None || !e.readOk || !e.closeTableOk || !e.closeSeedOk || !e.renameOk {
      var _ := fs.Write(UserTable, [], Torn(e.torn));
      fs.Unlink(UserTable, e.unlinkOk);
      assert old(fs.files)[UserTable := e.torn] - {UserTable} == old(fs.files);
      return false;
    }
    var written := fs.Write(UserTable, text.value, Done);
    fs.Rename(SeedFile, SeedConsumed, true);
    return written;
  }

  // ---------- what the bootstrap promises ----------

  /** An existing table survives, with everything else, exactly when the one allocation succeeds or the unlink fails. */
  lemma ExistingTableUntouched(c: Suite, files: Files, e: Env)
    requires UserTable in files
    ensures Run(c, files, e).0 == files <==> e.allocOk || !e.unlinkOk
    ensures Run(c, files, e).1 <==> e.allocOk
  {
    if !e.allocOk && e.unlinkOk {
      assert UserTable !in Run(c, files, e).0;
    }
  }

  /** A failed first start leaves no table and the seed where it was. */
  lemma FailureLeavesSeed(c: Suite, files: Files, e: Env)
    requires UserTable !in files && e.unlinkOk && !Run(c, files, e).1
    ensures Run(c, files, e).0 == files
  {
    assert files - {UserTable} == files;
  }

  /**
   * A successful first start consumes the seed, and the table it writes holds every seed name, password and
   * flag. That table loads exactly when the seed names are distinct and at most 921 bytes long; otherwise the
   * server refuses it.
   */
  lemma SuccessYieldsTable(c: Suite, files: Files, e: Env)
    requires UserTable !in files && SeedFile in files && Run(c, files, e).1
    ensures ParseSeed(Lines(files[SeedFile])).Some?
    ensures var after := Run(c, files, e).0;
      var xs := ParseSeed(Lines(files[SeedFile])).value;
      var t := SeededTable(c, xs, e.salts, 0);
      && SeedFile !in after && UserTable in after && SeedConsumed in after && after[SeedConsumed] == files[SeedFile]
      && (Load(after[UserTable]).Some? <==> GoodNames(xs))
      && (GoodNames(xs) ==> Load(after[UserTable]) == Some(t))
      && forall i | 0 <= i < |xs| ::
           && t[i].name == xs[i].name && t[i].mustChange == xs[i].mustChange && t[i].deleted == xs[i].deleted
           && c.pbkdf2(xs[i].password, t[i].salt) == t[i].hash
  {
    hide Lines, Print, Load, WellFormed, GoodNames;
    var xs := ParseSeed(Lines(files[SeedFile])).value;
    LinesClean(files[SeedFile]);
    SeedNamesClean(Lines(files[SeedFile]));
    var t := SeededTable(c, xs, e.salts, 0);
    LoadOfPrint(t);
    SameNamesWellFormed(t, xs);
    LoadsExactly(t);
  }

  predicate GoodNames(xs: seq<SeedEntry>) {
    && (forall i, j | 0 <= i < j < |xs| :: xs[i].name != xs[j].name)
    && (forall i | 0 <= i < |xs| :: |xs[i].name| <= NAME_MAX)
  }

  lemma SameNamesWellFormed(t: seq<User>, xs: seq<SeedEntry>)
    requires |t| == |xs| && forall i | 0 <= i < |xs| :: t[i].name == xs[i].name && CleanName(xs[i].name)
    ensures WellFormed(t) <==> GoodNames(xs)
  {
    if WellFormed(t) {
      forall i | 0 <= i < |xs| ensures |xs[i].name| <= NAME_MAX {
        assert t[i] in t;
      }
    }
  }

  lemma {:induction false} SeedNamesClean(lines: seq<Bytes>)
    requires ParseSeed(lines).Some? && forall l | l in lines :: NEWLINE !in l && 0 !in l
    ensures forall i | 0 <= i < |ParseSeed(lines).value| :: CleanName(ParseSeed(lines).value[i].name)
  {
    if lines != [] {
      SeedNamesClean(lines[1..]);
      TokensFit(lines[0]);
      TokensDrawnFrom(lines[0]);
      assert Tokens(lines[0])[0] in Tokens(lines[0]);
    }
  }

  /** Running the bootstrap again after a success changes nothing. */
  lemma SecondRunIsIdle(c: Suite, files: Files, e: Env, again: Env)
    requires Run(c, files, e).1 && again.allocOk
    ensures Run(c, Run(c, files, e).0, again) == (Run(c, files, e).0, true)
  {
  }

  // ---------- what a seed says ----------

  /** A seed line is four fields: name, password, must-change flag, deleted flag. */
  lemma SeedLineExactly(line: Bytes, x: SeedEntry)
    ensures ParseSeedLine(line) == Some(x) <==>
      exists m, d :: Tokens(line) == [x.name, x.password, m, d]
        && ParseFlag(m) == Some(x.mustChange) && ParseFlag(d) == Some(x.deleted)
  {
    hide Tokens, ParseFlag;
    if ParseSeedLine(line) == Some(x) {
      var f := Tokens(line);
      assert f == [x.name, x.password, f[2], f[3]];
    }
  }

  /** The line an administrator writes for an account. */
  function SeedLine(x: SeedEntry): Bytes {
    x.name + [COLON] + (x.password + [COLON] + (FlagText(x.mustChange) + [COLON] + FlagText(x.deleted)))
  }

  lemma SeedLineParses(x: SeedEntry)
    requires IsField(x.name) && IsField(x.password)
    ensures ParseSeedLine(SeedLine(x)) == Some(x)
  {
    hide Tokens, ParseFlag;
    var m, d := FlagText(x.mustChange), FlagText(x.deleted);
    FlagRoundTrip(x.mustChange);
    FlagRoundTrip(x.deleted);
    TokensOfField(d, []);
    TokensOfField(m, d);
    TokensOfField(x.password, m + [COLON] + d);
    TokensOfField(x.name, x.password + [COLON] + (m + [COLON] + d));
    assert [x.name] + ([x.password] + ([m] + [d])) == [x.name, x.password, m, d];
  }

  /** A whole seed, a line for each account. */
  function SeedFileText(xs: seq<SeedEntry>): Bytes {
    if xs == [] then [] else SeedLine(xs[0]) + [NEWLINE] + SeedFileText(xs[1..])
  }

  predicate SeedFits(x: SeedEntry) {
    IsField(x.name) && IsField(x.password) && NEWLINE !in SeedLine(x) && 0 !in SeedLine(x) && |SeedLine(x)| < LINE_MAX
  }

  /** The accounts written into a seed are the accounts read from it, flags and all. */
  lemma {:induction false} SeedTextParses(xs: seq<SeedEntry>)
    requires forall i | 0 <= i < |xs| :: SeedFits(xs[i])
    ensures ParseSeed(Lines(SeedFileText(xs))) == Some(xs)
  {
    hide ParseSeedLine, SeedLine, Lines;
    if xs == [] {
      NoSeed(Transparent(), n => seq(16, _ => 0));
    } else {
      SeedTextParses(xs[1..]);
      SeedLineParses(xs[0]);
      SeedLineNonempty(xs[0]);
      LinesOfBody(SeedLine(xs[0]), SeedFileText(xs[1..]));
      ParseSeedCons(SeedLine(xs[0]), Lines(SeedFileText(xs[1..])));
      assert xs == [xs[0]] + xs[1..];
    }
  }

  lemma SeedLineNonempty(x: SeedEntry)
    ensures SeedLine(x) != []
  {
  }

  /** No line's processing and no other call of the bootstrap fails. */
  predicate NothingFails(files: Files, e: Env) {
    AllOk(e) && (SeedFile in files ==> |Lines(files[SeedFile])| <= e.lineStop)
  }

  /**
   * The bootstrap succeeds exactly when there is nothing to do -- a table, or no seed -- or every line of the seed
   * parses and no call fails; the allocation has to succeed in any case.
   */
  lemma BootstrapSucceedsExactly(c: Suite, files: Files, e: Env)
    ensures Run(c, files, e).1 <==>
      e.allocOk && (UserTable in files || SeedFile !in files
                    || (NothingFails(files, e) && ParseSeed(Lines(files[SeedFile])).Some?))
    ensures e.allocOk && (UserTable in files || SeedFile !in files) ==> Run(c, files, e).0 == files
  {
    hide Lines, ParseSeed, SeededTable, Print;
  }
}
