/** What holds after every run: any number of cycles, crashes, panics, losses of the
    cursor file, and any answers of the outside world. */
module Runs {
  import opened Wrappers
  import opened Domain
  import opened CursorStore
  import opened PollSpec
  import opened Cycle
  import opened History

  /** The cursor on disk is the fold of the successful sends made in the cycles that
      reached a successful save since the file was last lost, and nothing else. The
      history log is the topic, send by send. */
  lemma FileAfterRun(cfg: Config, disk: Disk, evs: seq<Event>)
    requires GoodConfig(cfg)
    ensures var s := Run(cfg, Start(cfg, disk), evs);
            && FileEntries(cfg.codec, s.m.sh.disk.main) == Fold(s.h.base, s.h.log, Kept(s.h.saved, s.h.mark))
            && |s.h.log| == |s.m.sh.sends|
            && forall i :: 0 <= i < |s.h.log| ==> s.h.log[i].send == s.m.sh.sends[i]
  {
    RunKeeps(cfg, disk, evs);
  }

  predicate Undisturbed(evs: seq<Event>) {
    forall i :: 0 <= i < |evs| ==> !evs[i].Replace?
  }

  ghost predicate NoLoss(base: Entries, h: Hist) {
    h.base == base && h.mark == 0
  }

  /** If nobody outside touches the file, every saved cycle counts, from the content
      found at the first start on. In particular crashes, aborts, cancellations and
      failed saves never lose a saved publish. */
  lemma FileAfterUndisturbedRun(cfg: Config, disk: Disk, evs: seq<Event>)
    requires GoodConfig(cfg) && Undisturbed(evs)
    ensures var s := Run(cfg, Start(cfg, disk), evs);
            FileEntries(cfg.codec, s.m.sh.disk.main) == Fold(FileEntries(cfg.codec, disk.main), s.h.log, s.h.saved)
  {
    FileAfterRun(cfg, disk, evs);
    UndisturbedKeepsBase(cfg, disk, evs);
    var h := Run(cfg, Start(cfg, disk), evs).h;
    assert Kept(h.saved, 0) == h.saved;
  }

  /** File and current cycle both go back to `base`, with no loss since. */
  ghost predicate BasedOn(base: Entries, s: State) {
    && NoLoss(base, s.h)
    && (s.m.cycle.Some? && !s.m.cycle.value.pc.AtLoad? && s.h.infos != [] ==>
          s.h.infos[|s.h.infos| - 1].base == base && s.h.infos[|s.h.infos| - 1].mark == 0)
  }

  lemma UndisturbedStep(cfg: Config, base: Entries, s: State, ev: Event)
    requires BasedOn(base, s) && !ev.Replace?
    ensures BasedOn(base, Advance(cfg, s, ev))
  {
    if ev.Tick? && s.m.cycle.Some? && !s.m.cycle.value.pc.Done? {
      StepForward(cfg, s.m.cycle.value.call, s.m.sh, s.m.cycle.value.pc);
    }
  }

  lemma {:induction false} UndisturbedKeepsBase(cfg: Config, disk: Disk, evs: seq<Event>)
    requires Undisturbed(evs)
    ensures BasedOn(FileEntries(cfg.codec, disk.main), Run(cfg, Start(cfg, disk), evs))
  {
    if evs != [] {
      var front := evs[..|evs| - 1];
      UndisturbedKeepsBase(cfg, disk, front);
      UndisturbedStep(cfg, FileEntries(cfg.codec, disk.main), Run(cfg, Start(cfg, disk), front), evs[|evs| - 1]);
    }
  }

  lemma StepForward(cfg: Config, call: Call, sh: Shared, pc: Pc)
    requires !pc.Done?
    ensures var (_, pc') := Step(cfg, call, sh, pc); !pc'.AtLoad? && (pc'.AtList? ==> pc.AtLoad?)
  {}

  /* ----- where an entry comes from ----- */

  /** `q` is the last counted send for the key. */
  predicate LastSend(log: seq<Logged>, cycles: set<nat>, key: string, q: nat) {
    && q < |log| && Counts(log[q], cycles) && KeyOf(log[q]) == key
    && forall r :: q < r < |log| && Counts(log[r], cycles) ==> KeyOf(log[r]) != key
  }

  lemma {:induction false} FoldOrigin(base: Entries, log: seq<Logged>, cycles: set<nat>, key: string)
    ensures forall q: nat | LastSend(log, cycles, key, q) :: Lookup(Fold(base, log, cycles), key) == IdOf(log[q])
    ensures (forall q: nat :: !LastSend(log, cycles, key, q)) ==> Lookup(Fold(base, log, cycles), key) == Lookup(base, key)
  {
    if log != [] {
      var n := |log| - 1;
      var front := log[..n];
      FoldOrigin(base, front, cycles, key);
      if Counts(log[n], cycles) && KeyOf(log[n]) == key {
        assert LastSend(log, cycles, key, n);
        assert forall q: nat :: LastSend(log, cycles, key, q) ==> q == n;
      } else {
        forall q: nat ensures LastSend(log, cycles, key, q) <==> LastSend(front, cycles, key, q) {
          assert forall r :: 0 <= r < n ==> front[r] == log[r];
        }
      }
    }
  }

  /** An identifier is in the cursor file only because a command with that very
      identifier was sent successfully for that repo, in a cycle that was saved, as
      the last such send; or because it was in the file when the file was last
      replaced from outside. */
  lemma EntryHasSend(cfg: Config, disk: Disk, evs: seq<Event>, key: string)
    requires GoodConfig(cfg)
    ensures var s := Run(cfg, Start(cfg, disk), evs);
            var id := Lookup(FileEntries(cfg.codec, s.m.sh.disk.main), key);
            || (id == Lookup(s.h.base, key) && forall q: nat :: !LastSend(s.h.log, Kept(s.h.saved, s.h.mark), key, q))
            || exists q: nat :: LastSend(s.h.log, Kept(s.h.saved, s.h.mark), key, q) && id == IdOf(s.h.log[q])
  {
    var s := Run(cfg, Start(cfg, disk), evs);
    FileAfterRun(cfg, disk, evs);
    FoldOrigin(s.h.base, s.h.log, Kept(s.h.saved, s.h.mark), key);
  }

  /* ----- repeats ----- */

  /** From a counted send on, the fold keeps its identifier while no counted send
      for the repo carries another. */
  lemma {:induction false} FoldHolds(base: Entries, log: seq<Logged>, cycles: set<nat>, p: nat, q: nat)
    requires p < q <= |log| && Counts(log[p], cycles)
    requires forall r :: p < r < q && Counts(log[r], cycles) && KeyOf(log[r]) == KeyOf(log[p]) ==> IdOf(log[r]) == IdOf(log[p])
    ensures Lookup(Fold(base, log[..q], cycles), KeyOf(log[p])) == IdOf(log[p])
    decreases q
  {
    assert log[..q][..q - 1] == log[..q - 1];
    if p < q - 1 {
      FoldHolds(base, log, cycles, p, q - 1);
    }
  }

  /** `q` repeats `p`: same repo, same identifier, and in between no successful send
      for the repo carried another one. */
  predicate Repeats(log: seq<Logged>, p: nat, q: nat) {
    && p < q < |log| && log[p].send.ok
    && KeyOf(log[q]) == KeyOf(log[p]) && IdOf(log[q]) == IdOf(log[p])
    && forall r :: p < r < q && log[r].send.ok && KeyOf(log[r]) == KeyOf(log[p]) ==> IdOf(log[r]) == IdOf(log[p])
  }

  /** The cycle of `q` could know of `p`: it is the same cycle, or one that was saved
      and whose save the file had not lost when the cycle of `q` loaded it. */
  predicate Remembered(h: Hist, p: nat, q: nat)
    requires p < |h.log| && q < |h.log| && h.log[q].cycle < |h.infos|
  {
    || h.log[p].cycle == h.log[q].cycle
    || (h.log[p].cycle in h.saved && h.log[p].cycle >= h.infos[h.log[q].cycle].mark)
  }

  /** An unchanged finding set is sent again only by a forced cycle. Cycles in
      between may crash, abort or fail to save. */
  lemma RepeatNeedsForce(cfg: Config, disk: Disk, evs: seq<Event>, p: nat, q: nat)
    requires GoodConfig(cfg)
    ensures var h := Run(cfg, Start(cfg, disk), evs).h;
            Repeats(h.log, p, q) ==>
              h.log[q].cycle < |h.infos| && (Remembered(h, p, q) ==> h.infos[h.log[q].cycle].force)
  {
    RunKeeps(cfg, disk, evs);
    var h := Run(cfg, Start(cfg, disk), evs).h;
    if Repeats(h.log, p, q) {
      assert h.log[q] in h.log;
      var c := h.log[q].cycle;
      assert News(h, q);
      if Remembered(h, p, q) {
        FoldHolds(h.infos[c].base, h.log, Seen(h, c), p, q);
      }
    }
  }

  /** The identifier is that of the last successful send for the repo that cycle `c`
      can know of, or, without one, what the file held when it was last lost. */
  ghost predicate Remembers(h: Hist, c: nat, key: string, id: string)
    requires c < |h.infos|
  {
    || (exists q: nat :: LastSend(h.log, Seen(h, c), key, q) && IdOf(h.log[q]) == id)
    || (Lookup(h.infos[c].base, key) == id && forall q: nat :: !LastSend(h.log, Seen(h, c), key, q))
  }

  /** Standing before finding `c`, the next step sends nothing exactly when the cycle
      is not forced and remembers this very identifier. */
  ghost predicate SkipsOnlyRemembered(cfg: Config, s: State, c: Candidate)
    requires s.m.cycle.Some? && !s.m.cycle.value.pc.Done?
  {
    var r := s.m.cycle.value;
    && s.h.infos != []
    && (Step(cfg, r.call, s.m.sh, r.pc).0.sends == s.m.sh.sends <==>
          !r.call.force && Remembers(s.h, |s.h.infos| - 1, Key(c.repo), TaskIdentifier(cfg.uuid5, c)))
  }

  /** No finding is passed over without cause, in any run. */
  lemma SkippedIffRemembered(cfg: Config, disk: Disk, evs: seq<Event>, c: Candidate)
    requires GoodConfig(cfg)
    ensures var s := Run(cfg, Start(cfg, disk), evs);
            s.m.cycle.Some? && AtFinding(cfg, s.m.cycle.value.pc, c) ==> SkipsOnlyRemembered(cfg, s, c)
  {
    var s := Run(cfg, Start(cfg, disk), evs);
    RunKeeps(cfg, disk, evs);
    if s.m.cycle.Some? && AtFinding(cfg, s.m.cycle.value.pc, c) {
      TrackedSkips(cfg, s, c);
    }
  }

  lemma TrackedSkips(cfg: Config, s: State, c: Candidate)
    requires GoodConfig(cfg) && CycleTracked(cfg, s.h, s.m.sh.disk, s.m.cycle)
    requires s.m.cycle.Some? && AtFinding(cfg, s.m.cycle.value.pc, c)
    ensures SkipsOnlyRemembered(cfg, s, c)
  {
    var r := s.m.cycle.value;
    RemembersIsFold(s.h, |s.h.infos| - 1, Key(c.repo), TaskIdentifier(cfg.uuid5, c));
    StepAtFinding(cfg, r.call, s.m.sh, r.pc, c);
  }

  lemma RemembersIsFold(h: Hist, c: nat, key: string, id: string)
    requires c < |h.infos|
    ensures Remembers(h, c, key, id) <==> Lookup(Fold(h.infos[c].base, h.log, Seen(h, c)), key) == id
  {
    FoldOrigin(h.infos[c].base, h.log, Seen(h, c), key);
  }

  lemma StepAtFinding(cfg: Config, call: Call, sh: Shared, pc: Pc, c: Candidate)
    requires GoodConfig(cfg) && AtFinding(cfg, pc, c)
    ensures Step(cfg, call, sh, pc).0.sends == sh.sends <==>
              !call.force && Lookup(pc.entries, Key(c.repo)) == TaskIdentifier(cfg.uuid5, c)
  {
    assert TaskIdentifier(cfg.uuid5, c) != "";
  }

  predicate AtFinding(cfg: Config, pc: Pc, c: Candidate) {
    pc.AtVisit? && pc.rest != [] && Stops(pc.rest[0]).None? && Finding(cfg, pc.rest[0]) == Some(c)
  }

  /** All sends for the repo in cycle `c` carry the same identifier. */
  predicate SameFindings(h: Hist, c: nat, key: string) {
    forall p, q :: 0 <= p < q < |h.log| && h.log[p].cycle == h.log[q].cycle == c && KeyOf(h.log[p]) == KeyOf(h.log[q]) == key ==>
      IdOf(h.log[p]) == IdOf(h.log[q])
  }

  /** Within one non-forced cycle a repo listed again and again with the same findings
      is sent successfully at most once, and never tried again after that: the dedup
      filter sees the entry that the first success wrote. */
  lemma OncePerCycle(cfg: Config, disk: Disk, evs: seq<Event>, c: nat, key: string, p: nat, q: nat)
    requires GoodConfig(cfg)
    ensures var h := Run(cfg, Start(cfg, disk), evs).h;
            (&& c < |h.infos| && !h.infos[c].force && SameFindings(h, c, key)
             && p < q < |h.log| && h.log[p].cycle == c && h.log[q].cycle == c && KeyOf(h.log[p]) == key && KeyOf(h.log[q]) == key)
            ==> !h.log[p].send.ok
  {
    RepeatNeedsForce(cfg, disk, evs, p, q);
    RunKeeps(cfg, disk, evs);
  }

  /** Corrupt content never wedges the service: whatever the file holds and whether
      or not it can be put aside, a cycle whose read works walks on from what the
      file stands for, and once it saves the file is valid and holds that walk's
      complete cursor. */
  lemma CorruptNeverWedges(cfg: Config, sh: Shared, call: Call, visits: seq<Visit>)
    requires GoodConfig(cfg) && !call.answers.readFault && call.answers.list == Listed(visits)
    requires forall v :: v in visits ==> Stops(v) != Some("rate_limited")
    requires call.answers.save.write.WriteOk? && call.answers.save.renameOk
    ensures var sh' := Poll(cfg, sh, call);
            var w := WalkFrom(cfg, call.force, visits, WalkStart(sh, FileEntries(cfg.codec, sh.disk.main), visits)).0;
            && Load(cfg.codec, sh'.disk, false, false) == (sh'.disk, Some(w.entries))
            && sh'.disk.tmp == Missing
            && sh'.sends == w.sends
            && sh'.metrics.pollCycle == sh.metrics.pollCycle + multiset{"success"}
  {
    var a := call.answers;
    LoadMeansFile(cfg.codec, sh.disk, false, a.preserveOk);
    var disk := Load(cfg.codec, sh.disk, false, a.preserveOk).0;
    var w0 := WalkStart(sh, FileEntries(cfg.codec, sh.disk.main), visits);
    assert WalkStart(sh.(disk := disk), FileEntries(cfg.codec, sh.disk.main), visits) == w0;
    WalkEnds(cfg, call.force, visits, w0);
    var w := WalkFrom(cfg, call.force, visits, w0).0;
    SaveThenLoad(cfg.codec, disk, w.entries, a.save, false);
  }

  lemma {:induction false} WalkEnds(cfg: Config, force: bool, visits: seq<Visit>, w: Walk)
    requires forall v :: v in visits ==> Stops(v) != Some("rate_limited")
    ensures var (w', reason) := WalkFrom(cfg, force, visits, w);
            reason == "" && w'.metrics.pollCycle == w.metrics.pollCycle
  {
    if visits != [] && Stops(visits[0]).None? {
      WalkEnds(cfg, force, visits[1..], Effect(cfg, force, w, visits[0]));
    }
  }
}
