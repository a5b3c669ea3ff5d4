/** The cursor and its file (pkg/cursor.go, pkg/cursorreader.go). JSON is an
    abstract codec; file faults are answers of the outside world. */
module CursorStore {
  import opened Wrappers

  /** A nil entry and an entry with an empty identifier both read as unseen. */
  datatype RepoState = NilState | RepoState(lastEmitted: string)

  type Entries = map<string, RepoState>

  function Lookup(entries: Entries, key: string): string {
    if key in entries && entries[key].RepoState? then entries[key].lastEmitted else ""
  }

  datatype Codec = Codec(encode: Entries -> string, decode: string -> Option<Entries>)

  ghost predicate RoundTrips(c: Codec) {
    forall e: Entries :: c.decode(c.encode(e)) == Some(e)
  }

  datatype File = Missing | Data(content: string)

  datatype Disk = Disk(main: File, tmp: File, corrupt: File)

  /** What the file stands for: nothing when missing or corrupt. */
  function FileEntries(codec: Codec, f: File): Entries {
    if f.Missing? then map[]
    else match codec.decode(f.content)
      case Some(e) => e
      case None => map[]
  }

  /** `WriteUntouched`: the temp file could not be opened; `WriteCut(n)`: the write
      broke off after `n` bytes. */
  datatype WriteAnswer = WriteOk | WriteUntouched | WriteCut(n: nat)

  datatype SaveAnswer = SaveAnswer(write: WriteAnswer, renameOk: bool, removeOk: bool)

  function Cut(content: string, n: nat): string {
    if n <= |content| then content[..n] else content
  }

  function Load(codec: Codec, d: Disk, readFault: bool, preserveOk: bool): (Disk, Option<Entries>) {
    if readFault then (d, None)
    else if d.main.Missing? then (d, Some(map[]))
    else match codec.decode(d.main.content)
      case Some(e) => (d, Some(e))
      case None => (if preserveOk then Disk(Missing, d.tmp, d.main) else d, Some(map[]))
  }

  function Save(codec: Codec, d: Disk, entries: Entries, ans: SaveAnswer): (Disk, bool) {
    var content := codec.encode(entries);
    match ans.write
    case WriteUntouched => (d, false)
    case WriteCut(n) => (d.(tmp := Data(Cut(content, n))), false)
    case WriteOk =>
      if ans.renameOk then (d.(main := Data(content), tmp := Missing), true)
      else (d.(tmp := if ans.removeOk then Missing else Data(content)), false)
  }

  /** Loading never wedges on content: only an I/O fault fails; otherwise the result
      is what the file stands for, whether or not a corrupt file could be put aside,
      and a corrupt file that was put aside is kept whole. */
  lemma LoadMeansFile(codec: Codec, d: Disk, readFault: bool, preserveOk: bool)
    ensures var (d', r) := Load(codec, d, readFault, preserveOk);
            && (r.None? <==> readFault)
            && (r.Some? ==> r.value == FileEntries(codec, d.main))
            && FileEntries(codec, d'.main) == FileEntries(codec, d.main)
            && (d'.main != d.main ==> d'.corrupt == d.main)
  {}

  /** The four cases of a load: a fault changes nothing; a missing file reads as empty;
      a corrupt one reads as empty and is moved aside, if that works; a valid one reads
      as its content and stays. */
  lemma LoadCases(codec: Codec, d: Disk, readFault: bool, preserveOk: bool)
    ensures var (d', r) := Load(codec, d, readFault, preserveOk);
            && (readFault ==> (d', r) == (d, None))
            && (!readFault && d.main.Missing? ==> (d', r) == (d, Some(map[])))
            && (!readFault && d.main.Data? && codec.decode(d.main.content).Some? ==> (d', r) == (d, codec.decode(d.main.content)))
            && (!readFault && d.main.Data? && codec.decode(d.main.content).None? ==>
                  r == Some(map[]) && d' == if preserveOk then Disk(Missing, d.tmp, d.main) else d)
  {}

  /** What each fault of a save leaves behind: nothing if the temp file could not be
      opened, the first bytes if the write broke off, nothing or the temp file if the
      rename failed. */
  lemma SaveFaults(codec: Codec, d: Disk, entries: Entries, ans: SaveAnswer)
    ensures var (d', ok) := Save(codec, d, entries, ans);
            && !(ok && (ans.write.WriteUntouched? || ans.write.WriteCut? || !ans.renameOk))
            && (ans.write.WriteOk? && !ans.renameOk && ans.removeOk ==> d' == d.(tmp := Missing))
            && (ans.write.WriteUntouched? ==> d' == d)
            && (ans.write.WriteCut? ==> d'.tmp.Data? && d'.tmp.content <= codec.encode(entries))
            && (ans.write.WriteCut? && ans.write.n <= |codec.encode(entries)| ==> |d'.tmp.content| == ans.write.n)
            && (ans.write.WriteOk? && !ans.renameOk && !ans.removeOk ==> d' == d.(tmp := Data(codec.encode(entries))))
  {}

  /** A save leaves the old file or the complete new one, and says which. After a
      save that succeeded, loading gives back what was saved; no temp file is left. */
  lemma SaveThenLoad(codec: Codec, d: Disk, entries: Entries, ans: SaveAnswer, preserveOk: bool)
    requires RoundTrips(codec)
    ensures var (d', ok) := Save(codec, d, entries, ans);
            && (ok ==> Load(codec, d', false, preserveOk) == (d', Some(entries)) && d'.tmp == Missing)
            && (!ok ==> d'.main == d.main)
            && d'.corrupt == d.corrupt
            && (ok <==> ans.write.WriteOk? && ans.renameOk)
  {}

  /* ----- the same, as the code does it ----- */

  datatype ReadResult = NotExist | ReadError | Content(data: string)

  /** The directory of the cursor file. */
  class FileSystem {
    var disk: Disk

    constructor (disk: Disk)
      ensures this.disk == disk
    {
      this.disk := disk;
    }

    method ReadMain(fault: bool) returns (r: ReadResult)
      ensures r == if fault then ReadError else if disk.main.Missing? then NotExist else Content(disk.main.content)
    {
      if fault { return ReadError; }
      match disk.main
      case Missing => return NotExist;
      case Data(content) => return Content(content);
    }

    method RenameMainToCorrupt(ok: bool)
      requires disk.main.Data?
      modifies this
      ensures disk == if ok then Disk(Missing, old(disk).tmp, old(disk).main) else old(disk)
    {
      if ok { disk := Disk(Missing, disk.tmp, disk.main); }
    }

    /** Truncate, then write; on a fault the bytes written so far stay behind. */
    method WriteTmp(data: string, ans: WriteAnswer) returns (ok: bool)
      modifies this
      ensures ok == ans.WriteOk?
      ensures disk == match ans
                      case WriteOk => old(disk).(tmp := Data(data))
                      case WriteUntouched => old(disk)
                      case WriteCut(n) => old(disk).(tmp := Data(Cut(data, n)))
    {
      ok := ans.WriteOk?;
      match ans
      case WriteOk => disk := disk.(tmp := Data(data));
      case WriteUntouched =>
      case WriteCut(n) => disk := disk.(tmp := Data(Cut(data, n)));
    }

    method RenameTmpToMain(ok: bool)
      modifies this
      ensures disk == if ok then old(disk).(main := old(disk).tmp, tmp := Missing) else old(disk)
    {
      if ok { disk := disk.(main := disk.tmp, tmp := Missing); }
    }

    method RemoveTmp(ok: bool)
      modifies this
      ensures disk == if ok then old(disk).(tmp := Missing) else old(disk)
    {
      if ok { disk := disk.(tmp := Missing); }
    }
  }

  class Cursor {
    var repos: Entries

    constructor (repos: Entries)
      ensures this.repos == repos
    {
      this.repos := repos;
    }
  }

  /** A read view that aliases the cursor: it sees every later update. */
  class CursorReader {
    const c: Cursor

    constructor (c: Cursor)
      ensures this.c == c
    {
      this.c := c;
    }

    function LastEmittedTaskIdentifier(repoKey: string): (id: string)
      reads c
      ensures id == Lookup(c.repos, repoKey)
      ensures repoKey in c.repos && c.repos[repoKey] != NilState ==> c.repos[repoKey] == RepoState(id)
      ensures repoKey !in c.repos || c.repos[repoKey] == NilState ==> id == ""
    {
      if repoKey !in c.repos then ""
      else match c.repos[repoKey]
        case NilState => ""
        case RepoState(id) => id
    }
  }

  method LoadCursor(fs: FileSystem, codec: Codec, readFault: bool, preserveOk: bool) returns (c: Cursor?)
    modifies fs
    ensures fs.disk == Load(codec, old(fs.disk), readFault, preserveOk).0
    ensures c == null <==> Load(codec, old(fs.disk), readFault, preserveOk).1.None?
    ensures c != null ==> fresh(c) && Some(c.repos) == Load(codec, old(fs.disk), readFault, preserveOk).1
  {
    var data := fs.ReadMain(readFault);
    if data.NotExist? {
      c := new Cursor(map[]);
      return;
    }
    if data.ReadError? { return null; }
    match codec.decode(data.data)
    case None =>
      fs.RenameMainToCorrupt(preserveOk);
      c := new Cursor(map[]);
    case Some(e) =>
      c := new Cursor(e);
  }

  method SaveCursor(fs: FileSystem, codec: Codec, c: Cursor, ans: SaveAnswer) returns (ok: bool)
    modifies fs
    ensures (fs.disk, ok) == Save(codec, old(fs.disk), c.repos, ans)
  {
    var data := codec.encode(c.repos);
    ok := fs.WriteTmp(data, ans.write);
    if !ok { return; }
    if !ans.renameOk {
      fs.RemoveTmp(ans.removeOk);
      return false;
    }
    fs.RenameTmpToMain(ans.renameOk);
  }
}
