/** Replacing the table file, as `auth_write_db` and `ap_write_db_atomic` both do it. */
module TableFile {
  import opened Octets
  import opened TableText
  import opened Disk

  /** What may go wrong while writing the table; `printStop` is the first record whose `fprintf` fails. */
  datatype WriteEnv = WriteEnv(
    openOk: bool, printStop: nat, flushOk: bool, closeOk: bool, renameOk: bool, unlinkOk: bool, torn: Bytes)

  predicate WriteSucceeds(users: seq<User>, w: WriteEnv) {
    w.openOk && |users| <= w.printStop && w.flushOk && w.closeOk && w.renameOk
  }

  /** The files afterwards: the whole new table, or the old one with perhaps a stray temporary file. */
  function WriteTable(files: Files, tmp: Path, users: seq<User>, w: WriteEnv): Files {
    if WriteSucceeds(users, w) then (files - {tmp})[UserTable := Print(users)]
    else if !w.openOk then files
    else if w.unlinkOk then files - {tmp}
    else files[tmp := if |users| <= w.printStop && w.flushOk then Print(users) else w.torn]
  }

  /** Every state on the way differs from the old files in the temporary file only, or is the final one. */
  ghost predicate OnlyTableSwapped(tmp: Path, before: seq<Files>, from: Files, after: seq<Files>, to: Files) {
    && before <= after
    && forall i | |before| <= i < |after| :: after[i] == to || after[i] - {tmp} == from - {tmp}
  }

  lemma Scratch(files: Files, p: Path, x: Bytes, y: Bytes)
    ensures files[p := x][p := y] == files[p := y]
    ensures files[p := x] - {p} == files - {p}
  {
  }

  /** The `fprintf` loop over the table, into the stream buffer. */
  method PrintRecords(users: seq<User>, w: WriteEnv) returns (text: Option<Bytes>)
    ensures text == if |users| <= w.printStop then Some(Print(users)) else None
  {
    var buffer := [];
    for i := 0 to |users|
      invariant i <= w.printStop && buffer == Print(users[..i])
    {
      if i == w.printStop {
        return None;
      }
      assert users[..i + 1] == users[..i] + [users[i]];
      PrintOne(users[..i], users[i]);
      buffer := buffer + Line(users[i]);
    }
    assert users[..|users|] == users;
    return Some(buffer);
  }

  /** Opening, printing and flushing the temporary file. */
  method FillTemporary(fs: FileSystem, tmp: Path, users: seq<User>, w: WriteEnv) returns (ok: bool)
    modifies fs
    ensures ok == (w.openOk && |users| <= w.printStop && w.flushOk)
    ensures ok ==> fs.files == old(fs.files)[tmp := Print(users)]
    ensures !ok ==> fs.files == WriteTable(old(fs.files), tmp, users, w)
    ensures old(fs.history) <= fs.history
    ensures forall i | |old(fs.history)| <= i < |fs.history| :: fs.history[i] - {tmp} == old(fs.files) - {tmp}
  {
    if !w.openOk {
      return false;
    }
    Scratch(fs.files, tmp, [], w.torn);
    Scratch(fs.files, tmp, w.torn, []);
    var _ := fs.Write(tmp, [], Done);
    var text := PrintRecords(users, w);
    if text == None || !w.flushOk {
      var _ := fs.Write(tmp, [], Torn(w.torn));
      fs.Unlink(tmp, w.unlinkOk);
      return false;
    }
    Scratch(old(fs.files), tmp, [], text.value);
    Scratch(old(fs.files), tmp, text.value, []);
    ok := fs.Write(tmp, text.value, Done);
  }

  /** Printing to a temporary file that replaces the table only when it is complete. */
  method ReplaceTable(fs: FileSystem, tmp: Path, users: seq<User>, w: WriteEnv) returns (ok: bool)
    requires tmp != UserTable
    modifies fs
    ensures ok == WriteSucceeds(users, w)
    ensures fs.files == WriteTable(old(fs.files), tmp, users, w)
    ensures OnlyTableSwapped(tmp, old(fs.history), old(fs.files), fs.history, fs.files)
  {
    var filled := FillTemporary(fs, tmp, users, w);
    if !filled {
      return false;
    }
    Scratch(old(fs.files), tmp, Print(users), []);
    if !w.closeOk || !w.renameOk {
      fs.Unlink(tmp, w.unlinkOk);
      return false;
    }
    fs.Rename(tmp, UserTable, true);
    return true;
  }

  lemma SwapFrame(files: Files, tmp: Path, text: Bytes)
    ensures (files - {tmp})[UserTable := text] - {UserTable, tmp} == files - {UserTable, tmp}
  {
  }

  /** A failed write leaves the table, and every file but the temporary one, as it was. */
  lemma FailedWriteKeepsTable(files: Files, tmp: Path, users: seq<User>, w: WriteEnv, p: Path)
    requires !WriteSucceeds(users, w) && p != tmp
    ensures (p in WriteTable(files, tmp, users, w) <==> p in files)
    ensures p in files ==> WriteTable(files, tmp, users, w)[p] == files[p]
  {
  }

  /** The table file changes exactly when all five calls succeed: open, every print, flush, close and rename. */
  lemma TableWrittenExactly(files: Files, tmp: Path, users: seq<User>, w: WriteEnv)
    requires tmp != UserTable
    ensures var after := WriteTable(files, tmp, users, w);
      if w.openOk && |users| <= w.printStop && w.flushOk && w.closeOk && w.renameOk then
        after == (files - {tmp})[UserTable := Print(users)]
      else after - {tmp} == files - {tmp} && (w.openOk && w.unlinkOk ==> after == files - {tmp})
  {
    hide Print;
    Scratch(files, tmp, Print(users), []);
    Scratch(files, tmp, w.torn, []);
  }
}
