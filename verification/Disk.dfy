/** The files the programs share, with the failures the operating system may report. */
module Disk {
  import opened Octets

  /** Every file the system touches; the keystore is a pair of files per user name. */
  datatype Path =
    | UserTable
    | UserTableTmp
    | ToolTmp
    | SeedFile
    | SeedConsumed
    | PublicPem(user: Bytes)
    | PrivateEnc(user: Bytes)

  type Files = map<Path, Bytes>

  /** Outcome of opening a file for overwriting and writing it: the old content is gone as soon as it opens. */
  datatype Outcome = Done | NotOpened | Torn(left: Bytes)

  function Written(files: Files, p: Path, content: Bytes, o: Outcome): Files {
    match o
    case Done => files[p := content]
    case NotOpened => files
    case Torn(left) => files[p := left]
  }

  function Removed(files: Files, p: Path, ok: bool): Files {
    if ok then files - {p} else files
  }

  function Renamed(files: Files, from: Path, to: Path, ok: bool): Files
    requires from in files
  {
    if ok then (files - {from})[to := files[from]] else files
  }

  /** A mutable file system that remembers every state it went through, so that contracts can speak of crashes. */
  class FileSystem {
    var files: Files
    ghost var history: seq<Files>

    constructor (files: Files)
      ensures this.files == files && history == []
    {
      this.files := files;
      this.history := [];
    }

    method Write(p: Path, content: Bytes, o: Outcome) returns (ok: bool)
      modifies this
      ensures files == Written(old(files), p, content, o) && ok == o.Done?
      ensures history == old(history) + [files]
    {
      files := Written(files, p, content, o);
      history := history + [files];
      return o.Done?;
    }

    method Unlink(p: Path, ok: bool)
      modifies this
      ensures files == Removed(old(files), p, ok)
      ensures history == old(history) + [files]
    {
      files := Removed(files, p, ok);
      history := history + [files];
    }

    method Rename(from: Path, to: Path, ok: bool)
      requires from in files
      modifies this
      ensures files == Renamed(old(files), from, to, ok)
      ensures history == old(history) + [files]
    {
      files := Renamed(files, from, to, ok);
      history := history + [files];
    }
  }
}
