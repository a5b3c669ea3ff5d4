/** One poll cycle as small steps, so that a crash, a panic or another actor can
    come between any two effects that outlive the process. */
module Cycle {
  import opened Wrappers
  import opened CursorStore
  import opened PollSpec

  /** Where a cycle stands, with its in-memory cursor. `AtWrite(_, k)`: the temp
      file is open and holds the first `k` bytes. */
  datatype Pc =
    | AtLoad
    | AtList(entries: Entries)
    | AtVisit(entries: Entries, rest: seq<Visit>)
    | AtOpen(entries: Entries)
    | AtWrite(entries: Entries, written: nat)
    | AtRename(entries: Entries)
    | Done

  /** How far the write of the temp file gets. */
  function WriteLimit(content: string, w: WriteAnswer): nat {
    if w.WriteCut? && w.n < |content| then w.n else |content|
  }

  function Step(cfg: Config, call: Call, sh: Shared, pc: Pc): (Shared, Pc)
    requires !pc.Done?
  {
    var a := call.answers;
    match pc
    case AtLoad =>
      var (disk, loaded) := Load(cfg.codec, sh.disk, a.readFault, a.preserveOk);
      (match loaded
       case None => (Counted(sh.(disk := disk), "scan_error"), Done)
       case Some(entries) => (sh.(disk := disk), AtList(entries)))
    case AtList(entries) =>
      (match a.list
       case ListLimited => (Counted(sh, "rate_limited"), Done)
       case ListBroken => (Counted(sh, "github_error"), Done)
       case Listed(visits) =>
         var w := WalkStart(sh, entries, visits);
         (sh.(metrics := w.metrics), AtVisit(entries, visits)))
    case AtVisit(entries, rest) =>
      if rest == [] then (sh, AtOpen(entries))
      else
        (match Stops(rest[0])
         case Some(reason) => if reason == "" then (sh, AtOpen(entries)) else (Counted(sh, reason), Done)
         case None =>
           var w := Effect(cfg, call.force, Walk(entries, sh.sends, sh.metrics), rest[0]);
           (Shared(sh.disk, w.sends, w.metrics), AtVisit(w.entries, rest[1..])))
    case AtOpen(entries) =>
      if a.save.write.WriteUntouched? then (Counted(sh, "scan_error"), Done)
      else (sh.(disk := sh.disk.(tmp := Data(""))), AtWrite(entries, 0))
    case AtWrite(entries, k) =>
      var content := cfg.codec.encode(entries);
      if k < WriteLimit(content, a.save.write) then
        (sh.(disk := sh.disk.(tmp := Data(content[..k + 1]))), AtWrite(entries, k + 1))
      else if a.save.write.WriteCut? then (Counted(sh, "scan_error"), Done)
      else (sh, AtRename(entries))
    case AtRename(entries) =>
      if a.save.renameOk then
        (Counted(sh.(disk := sh.disk.(main := sh.disk.tmp, tmp := Missing)), "success"), Done)
      else
        (Counted(sh.(disk := sh.disk.(tmp := if a.save.removeOk then Missing else sh.disk.tmp)), "scan_error"), Done)
  }

  /** What the temp file holds while it is being written. */
  predicate TmpAgrees(cfg: Config, call: Call, disk: Disk, pc: Pc) {
    match pc
    case AtWrite(entries, k) =>
      var content := cfg.codec.encode(entries);
      !call.answers.save.write.WriteUntouched? && k <= WriteLimit(content, call.answers.save.write) && disk.tmp == Data(content[..k])
    case AtRename(entries) => call.answers.save.write.WriteOk? && disk.tmp == Data(cfg.codec.encode(entries))
    case _ => true
  }

  lemma StepKeepsTmp(cfg: Config, call: Call, sh: Shared, pc: Pc)
    requires !pc.Done? && TmpAgrees(cfg, call, sh.disk, pc)
    ensures var (sh', pc') := Step(cfg, call, sh, pc); TmpAgrees(cfg, call, sh'.disk, pc')
  {
    if pc.AtWrite? {
      var content := cfg.codec.encode(pc.entries);
      assert content[..|content|] == content;
    }
  }

  function Stage(pc: Pc): nat {
    match pc
    case AtLoad => 6
    case AtList(_) => 5
    case AtVisit(_, _) => 4
    case AtOpen(_) => 3
    case AtWrite(_, _) => 2
    case AtRename(_) => 1
    case Done => 0
  }

  /** Steps left within a stage. */
  function Left(cfg: Config, call: Call, pc: Pc): nat {
    match pc
    case AtVisit(_, rest) => |rest|
    case AtWrite(entries, k) =>
      var limit := WriteLimit(cfg.codec.encode(entries), call.answers.save.write);
      if k < limit then limit - k else 0
    case _ => 0
  }

  /** Runs a cycle to its end, undisturbed. */
  function Finish(cfg: Config, call: Call, sh: Shared, pc: Pc): Shared
    decreases Stage(pc), Left(cfg, call, pc)
  {
    if pc.Done? then sh
    else
      var (sh', pc') := Step(cfg, call, sh, pc);
      Finish(cfg, call, sh', pc')
  }

  lemma {:induction false} FinishWrite(cfg: Config, call: Call, sh: Shared, entries: Entries, k: nat)
    requires TmpAgrees(cfg, call, sh.disk, AtWrite(entries, k))
    ensures var (disk', saved) := Save(cfg.codec, sh.disk, entries, call.answers.save);
            Finish(cfg, call, sh, AtWrite(entries, k)) == Counted(sh.(disk := disk'), if saved then "success" else "scan_error")
    decreases WriteLimit(cfg.codec.encode(entries), call.answers.save.write) - k
  {
    var content := cfg.codec.encode(entries);
    if k < WriteLimit(content, call.answers.save.write) {
      FinishWrite(cfg, call, sh.(disk := sh.disk.(tmp := Data(content[..k + 1]))), entries, k + 1);
    } else {
      assert content[..|content|] == content;
      if call.answers.save.write.WriteOk? {
        var (sh', pc') := Step(cfg, call, sh, AtRename(entries));
        assert pc' == Done && Finish(cfg, call, sh', pc') == sh';
        assert Finish(cfg, call, sh, AtWrite(entries, k)) == Finish(cfg, call, sh, AtRename(entries));
      }
    }
  }

  lemma FinishOpen(cfg: Config, call: Call, sh: Shared, entries: Entries)
    ensures var (disk', saved) := Save(cfg.codec, sh.disk, entries, call.answers.save);
            Finish(cfg, call, sh, AtOpen(entries)) == Counted(sh.(disk := disk'), if saved then "success" else "scan_error")
  {
    if !call.answers.save.write.WriteUntouched? {
      var sh' := sh.(disk := sh.disk.(tmp := Data("")));
      assert Finish(cfg, call, sh, AtOpen(entries)) == Finish(cfg, call, sh', AtWrite(entries, 0));
      assert cfg.codec.encode(entries)[..0] == "";
      FinishWrite(cfg, call, sh', entries, 0);
      assert Save(cfg.codec, sh'.disk, entries, call.answers.save) == Save(cfg.codec, sh.disk, entries, call.answers.save);
    }
  }

  lemma {:induction false} FinishWalk(cfg: Config, call: Call, sh: Shared, entries: Entries, rest: seq<Visit>)
    ensures var (w, reason) := WalkFrom(cfg, call.force, rest, Walk(entries, sh.sends, sh.metrics));
            Finish(cfg, call, sh, AtVisit(entries, rest)) == Conclude(cfg, sh.disk, w, reason, call.answers.save)
    decreases |rest|
  {
    if rest == [] || Stops(rest[0]) == Some("") {
      assert Finish(cfg, call, sh, AtVisit(entries, rest)) == Finish(cfg, call, sh, AtOpen(entries));
      FinishOpen(cfg, call, sh, entries);
    } else if Stops(rest[0]).None? {
      var w := Effect(cfg, call.force, Walk(entries, sh.sends, sh.metrics), rest[0]);
      FinishWalk(cfg, call, Shared(sh.disk, w.sends, w.metrics), w.entries, rest[1..]);
    }
  }

  lemma FinishList(cfg: Config, call: Call, sh: Shared, entries: Entries)
    ensures Finish(cfg, call, sh, AtList(entries)) == Listing(cfg, sh, entries, call)
  {
    if call.answers.list.Listed? {
      var visits := call.answers.list.visits;
      var w := WalkStart(sh, entries, visits);
      FinishWalk(cfg, call, sh.(metrics := w.metrics), entries, visits);
    }
  }

  /** Undisturbed small steps do what `Poll` says: the temp-file writes byte by byte
      and the walk repo by repo add up to the one big step. */
  lemma StepsMakePoll(cfg: Config, call: Call, sh: Shared)
    ensures Finish(cfg, call, sh, AtLoad) == Poll(cfg, sh, call)
  {
    var (disk, loaded) := Load(cfg.codec, sh.disk, call.answers.readFault, call.answers.preserveOk);
    if loaded.Some? {
      var sh1 := sh.(disk := disk);
      assert Finish(cfg, call, sh, AtLoad) == Finish(cfg, call, sh1, AtList(loaded.value));
      FinishList(cfg, call, sh1, loaded.value);
    }
  }

  /** Crash anywhere: after every single step the file stands either for what it
      stood for before, or, at the rename alone, for the complete in-memory cursor.
      So the next load gets the old or the new cursor, never a mixture. */
  lemma StepIsAtomic(cfg: Config, call: Call, sh: Shared, pc: Pc)
    requires RoundTrips(cfg.codec) && !pc.Done? && TmpAgrees(cfg, call, sh.disk, pc)
    ensures var (sh', pc') := Step(cfg, call, sh, pc);
            if pc.AtRename? && call.answers.save.renameOk
            then forall preserveOk :: Load(cfg.codec, sh'.disk, false, preserveOk) == (sh'.disk, Some(pc.entries))
            else FileEntries(cfg.codec, sh'.disk.main) == FileEntries(cfg.codec, sh.disk.main)
  {
    if pc.AtLoad? {
      LoadMeansFile(cfg.codec, sh.disk, call.answers.readFault, call.answers.preserveOk);
    }
  }
}
