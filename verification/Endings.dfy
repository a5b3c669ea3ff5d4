/** How a cycle ends and what it counts: the exact label of every ending, what an
    early ending keeps, and every handled repo counted under its own heading. */
module Endings {
  import opened Wrappers
  import opened Markers
  import opened Scanner
  import opened Domain
  import opened CursorStore
  import opened PollSpec
  import opened Laws

  /* ----- the label of a cycle ----- */

  /** Neither cancelled nor limited, neither on go.mod nor on the consent. */
  predicate GoesPast(v: Visit) {
    !v.cancelled && !v.goMod.GoModLimited? && !(v.goMod.GoMod? && v.consent.ConsentLimited?)
  }

  /** Repo `j` is the first one to be cancelled or limited, and it is limited. */
  predicate LimitAt(visits: seq<Visit>, j: nat) {
    && j < |visits|
    && !visits[j].cancelled
    && (visits[j].goMod.GoModLimited? || (visits[j].goMod.GoMod? && visits[j].consent.ConsentLimited?))
    && forall i :: 0 <= i < j ==> GoesPast(visits[i])
  }

  lemma StopsMeans(v: Visit)
    ensures Stops(v).None? <==> GoesPast(v)
    ensures Stops(v) == Some("") <==> v.cancelled
    ensures Stops(v) == Some("rate_limited") <==> !v.cancelled && !GoesPast(v)
  {}

  /** A rate limit comes before any cancellation. */
  predicate Limited(visits: seq<Visit>) {
    exists j: nat | j < |visits| :: LimitAt(visits, j)
  }

  /** The walk ends at repo `j`, and at no earlier one. */
  predicate FirstStop(visits: seq<Visit>, j: nat, reason: string) {
    j < |visits| && Stops(visits[j]) == Some(reason) && forall i :: 0 <= i < j ==> Stops(visits[i]).None?
  }

  lemma FirstLimit(visits: seq<Visit>, j: nat)
    ensures FirstStop(visits, j, "rate_limited") <==> LimitAt(visits, j)
  {
    forall i: nat | i < |visits|
      ensures Stops(visits[i]).None? <==> GoesPast(visits[i])
      ensures Stops(visits[i]) == Some("rate_limited") <==> !visits[i].cancelled && !GoesPast(visits[i])
    {
      StopsMeans(visits[i]);
    }
  }

  /** A walk that ends early has done what a walk over the repos before does. */
  lemma {:induction false} StoppedWalk(cfg: Config, force: bool, visits: seq<Visit>, w: Walk, j: nat, reason: string)
    requires FirstStop(visits, j, reason)
    ensures WalkFrom(cfg, force, visits, w) == (WalkFrom(cfg, force, visits[..j], w).0, reason)
    ensures WalkFrom(cfg, force, visits[..j], w).1 == ""
    decreases j
  {
    if j > 0 {
      StoppedWalk(cfg, force, visits[1..], Effect(cfg, force, w, visits[0]), j - 1, reason);
      assert visits[1..][..j - 1] == visits[..j][1..];
    }
  }

  lemma {:induction false} UnstoppedWalk(cfg: Config, force: bool, visits: seq<Visit>, w: Walk)
    requires forall j: nat | j < |visits| :: Stops(visits[j]).None?
    ensures WalkFrom(cfg, force, visits, w).1 == ""
  {
    if visits != [] {
      UnstoppedWalk(cfg, force, visits[1..], Effect(cfg, force, w, visits[0]));
    }
  }

  /** A walk with a stop has a first one. */
  lemma {:induction false} SomeFirstStop(visits: seq<Visit>, k: nat) returns (j: nat)
    requires k < |visits| && Stops(visits[k]).Some?
    ensures j < |visits| && Stops(visits[j]).Some? && FirstStop(visits, j, Stops(visits[j]).value)
    decreases k
  {
    if i: nat :| i < k && Stops(visits[i]).Some? {
      j := SomeFirstStop(visits, i);
    } else {
      j := k;
    }
  }

  lemma WalkVerdict(cfg: Config, force: bool, visits: seq<Visit>, w: Walk)
    ensures WalkFrom(cfg, force, visits, w).1 == if Limited(visits) then "rate_limited" else ""
  {
    forall j: nat ensures FirstStop(visits, j, "rate_limited") <==> LimitAt(visits, j) { FirstLimit(visits, j); }
    if k: nat :| k < |visits| && Stops(visits[k]).Some? {
      var j := SomeFirstStop(visits, k);
      StoppedWalk(cfg, force, visits, w, j, Stops(visits[j]).value);
      assert Limited(visits) <==> Stops(visits[j]).value == "rate_limited";
    } else {
      UnstoppedWalk(cfg, force, visits, w);
    }
  }

  /** Every cycle counts exactly one result, and this one. A cancelled cycle that
      saves counts "success"; a rate limit is counted as such wherever it strikes;
      faults of the cursor file count "scan_error". */
  lemma PollVerdict(cfg: Config, sh: Shared, call: Call)
    ensures var a := call.answers;
            var result :=
              if a.readFault then "scan_error"
              else if a.list.ListBroken? then "github_error"
              else if a.list.ListLimited? || Limited(a.list.visits) then "rate_limited"
              else if a.save.write.WriteOk? && a.save.renameOk then "success"
              else "scan_error";
            Poll(cfg, sh, call).metrics.pollCycle == sh.metrics.pollCycle + multiset{result}
  {
    var a := call.answers;
    LoadMeansFile(cfg.codec, sh.disk, a.readFault, a.preserveOk);
    var (disk, loaded) := Load(cfg.codec, sh.disk, a.readFault, a.preserveOk);
    if loaded.Some? && a.list.Listed? {
      var w := WalkStart(sh.(disk := disk), loaded.value, a.list.visits);
      WalkVerdict(cfg, call.force, a.list.visits, w);
      WalkKeepsPollCount(cfg, call.force, a.list.visits, w);
    }
  }

  /* ----- what an early ending keeps ----- */

  function Shortened(call: Call, visits: seq<Visit>): Call {
    call.(answers := call.answers.(list := Listed(visits)))
  }

  /** Cursor and sends of a walk do not depend on the counters. */
  lemma {:induction false} WalkIgnoresCounters(cfg: Config, force: bool, visits: seq<Visit>, w: Walk, u: Walk)
    requires w.entries == u.entries && w.sends == u.sends
    ensures var (w', r), (u', r') := WalkFrom(cfg, force, visits, w), WalkFrom(cfg, force, visits, u);
            w'.entries == u'.entries && w'.sends == u'.sends && r == r'
  {
    if visits != [] && Stops(visits[0]).None? {
      WalkIgnoresCounters(cfg, force, visits[1..], Effect(cfg, force, w, visits[0]), Effect(cfg, force, u, visits[0]));
    }
  }

  lemma {:induction false} CancelledWalk(cfg: Config, force: bool, visits: seq<Visit>, w: Walk, j: nat)
    requires j < |visits| && visits[j].cancelled
    ensures WalkFrom(cfg, force, visits, w) == WalkFrom(cfg, force, visits[..j], w)
    decreases j
  {
    if j > 0 && Stops(visits[0]).None? {
      CancelledWalk(cfg, force, visits[1..], Effect(cfg, force, w, visits[0]), j - 1);
      assert visits[1..][..j - 1] == visits[..j][1..];
    }
  }

  /** A cancelled visit ends the walk, whatever else is answered about it or after it,
      and the progress is saved: file and sends are those of a cycle whose listing
      ended before that repo. */
  lemma CancelSavesProgress(cfg: Config, sh: Shared, call: Call, visits: seq<Visit>, j: nat)
    requires call.answers.list == Listed(visits) && j < |visits| && visits[j].cancelled
    ensures var full, cut := Poll(cfg, sh, call), Poll(cfg, sh, Shortened(call, visits[..j]));
            full.disk == cut.disk && full.sends == cut.sends && full.metrics.pollCycle == cut.metrics.pollCycle
  {
    var a := call.answers;
    var (disk, loaded) := Load(cfg.codec, sh.disk, a.readFault, a.preserveOk);
    if loaded.Some? {
      var w := WalkStart(sh.(disk := disk), loaded.value, visits);
      var u := WalkStart(sh.(disk := disk), loaded.value, visits[..j]);
      CancelledWalk(cfg, call.force, visits, w, j);
      WalkIgnoresCounters(cfg, call.force, visits[..j], w, u);
      WalkKeepsPollCount(cfg, call.force, visits, w);
      WalkKeepsPollCount(cfg, call.force, visits[..j], u);
    }
  }

  /** A rate limit in mid-cycle sends what that shorter cycle sends, but forgets it:
      the file stands for what it stood for before. */
  lemma RateLimitForgetsProgress(cfg: Config, sh: Shared, call: Call, visits: seq<Visit>, j: nat)
    requires call.answers.list == Listed(visits) && LimitAt(visits, j)
    ensures var full, cut := Poll(cfg, sh, call), Poll(cfg, sh, Shortened(call, visits[..j]));
            && full.sends == cut.sends
            && FileEntries(cfg.codec, full.disk.main) == FileEntries(cfg.codec, sh.disk.main)
            && full.disk.tmp == sh.disk.tmp
  {
    LoadMeansFile(cfg.codec, sh.disk, call.answers.readFault, call.answers.preserveOk);
    LimitedWalk(cfg, sh, call, visits, j);
  }

  lemma LimitedWalk(cfg: Config, sh: Shared, call: Call, visits: seq<Visit>, j: nat)
    requires call.answers.list == Listed(visits) && LimitAt(visits, j)
    ensures var full, cut := Poll(cfg, sh, call), Poll(cfg, sh, Shortened(call, visits[..j]));
            var (disk, loaded) := Load(cfg.codec, sh.disk, call.answers.readFault, call.answers.preserveOk);
            full.sends == cut.sends && full.disk == disk
  {
    var a := call.answers;
    var (disk, loaded) := Load(cfg.codec, sh.disk, a.readFault, a.preserveOk);
    FirstLimit(visits, j);
    if loaded.Some? {
      var w := WalkStart(sh.(disk := disk), loaded.value, visits);
      var u := WalkStart(sh.(disk := disk), loaded.value, visits[..j]);
      StoppedWalk(cfg, call.force, visits, w, j, "rate_limited");
      WalkIgnoresCounters(cfg, call.force, visits[..j], w, u);
    }
  }

  /* ----- every handled repo under its own heading ----- */

  datatype Fate = Drop | Skip(reason: string) | Find

  function FateOf(cfg: Config, v: Visit): Fate
    requires Stops(v).None?
  {
    if Dropped(v) then Drop else if Finding(cfg, v).Some? then Find else Skip(EarlySkip(cfg, v))
  }

  /** Handled repos with the given fate. */
  function Tally(cfg: Config, visits: seq<Visit>, fate: Fate): nat {
    if visits == [] || Stops(visits[0]).Some? then 0
    else (if FateOf(cfg, visits[0]) == fate then 1 else 0) + Tally(cfg, visits[1..], fate)
  }

  const UNCHANGED := "finding_set_unchanged"

  /** Drops, skips by reason, and findings either skipped as unchanged or published. */
  ghost predicate CountedAs(m: Metrics, m': Metrics, drops: nat, reason: string, skips: nat, finds: nat, force: bool) {
    && m'.dropLines == m.dropLines + drops
    && (reason != UNCHANGED ==> m'.filterSkipped[reason] == m.filterSkipped[reason] + skips)
    && m'.filterSkipped[UNCHANGED] + |m'.published| == m.filterSkipped[UNCHANGED] + |m.published| + finds
    && (force ==> m'.filterSkipped[UNCHANGED] == m.filterSkipped[UNCHANGED])
  }

  lemma EffectByFate(cfg: Config, force: bool, w: Walk, v: Visit, reason: string)
    requires Stops(v).None?
    ensures var f := FateOf(cfg, v);
            CountedAs(w.metrics, Effect(cfg, force, w, v).metrics,
                      if f.Drop? then 1 else 0, reason, if f == Skip(reason) then 1 else 0, if f.Find? then 1 else 0, force)
  {
    if FateOf(cfg, v).Skip? { EarlySkipLabel(cfg, v); }
  }

  lemma {:induction false} WalkByFate(cfg: Config, force: bool, visits: seq<Visit>, w: Walk, reason: string)
    ensures CountedAs(w.metrics, WalkFrom(cfg, force, visits, w).0.metrics,
                      Tally(cfg, visits, Drop), reason, Tally(cfg, visits, Skip(reason)), Tally(cfg, visits, Find), force)
  {
    if visits != [] && Stops(visits[0]).None? {
      EffectByFate(cfg, force, w, visits[0], reason);
      WalkByFate(cfg, force, visits[1..], Effect(cfg, force, w, visits[0]), reason);
    }
  }

  /** One cycle counts every handled repo under its own heading: drops as drops, each
      skip under its reason, each finding as unchanged or as one publish; a forced
      cycle calls nothing unchanged. */
  lemma PollByFate(cfg: Config, sh: Shared, call: Call, reason: string)
    requires !call.answers.readFault && call.answers.list.Listed?
    ensures var visits := call.answers.list.visits;
            CountedAs(sh.metrics, Poll(cfg, sh, call).metrics,
                      Tally(cfg, visits, Drop), reason, Tally(cfg, visits, Skip(reason)), Tally(cfg, visits, Find), call.force)
  {
    var a := call.answers;
    LoadMeansFile(cfg.codec, sh.disk, false, a.preserveOk);
    var (disk, loaded) := Load(cfg.codec, sh.disk, false, a.preserveOk);
    var w := WalkStart(sh.(disk := disk), loaded.value, a.list.visits);
    WalkByFate(cfg, call.force, a.list.visits, w, reason);
    WalkReason(cfg, call.force, a.list.visits, w);
    var (w', r) := WalkFrom(cfg, call.force, a.list.visits, w);
    ConcludeCounts(cfg, disk, w', r, a.save);
  }

  /* ----- from the gates to the label ----- */

  /** What a scan's outcome is counted as; "" when it found something. */
  function ScanLabel(r: ScanOutcome): string {
    match r
    case Failed(err) => ClassifyScanError(err)
    case Scanned(_, ids) => if ids == [] then "already_clean" else ""
  }

  /** When a scanned repo is counted under which reason, in terms of what git and the
      gates did. A repo is clean only if every gate passed without a marker; markers
      count as findings even if gates failed. */
  lemma ScanLabels(tempOk: bool, clone: CloneAnswer, gates: seq<GateAnswer>, head: Option<string>, r: ScanOutcome)
    requires ScanMeets(tempOk, clone, gates, head, r)
    ensures var counted, cloned := ScanLabel(r), tempOk && clone.CloneOk?;
            && (counted == "clone_failed" <==> tempOk && clone == CloneBroken(false))
            && (counted == "gate_timeout" <==> tempOk && (clone == CloneBroken(true) || (cloned && TimedOut(gates))))
            && (counted == "already_clean" <==> cloned && !AnyFailed(gates) && !Marked(gates))
            && (counted == "" <==> cloned && !TimedOut(gates) && Marked(gates) && head.Some?)
            && (counted != "" && counted != "already_clean" && counted != "clone_failed" && counted != "gate_timeout" ==> counted == "scan_failed")
  {
    LabelOf(tempOk, clone, gates, head, r);
    assert TimedOut(gates) ==> AnyFailed(gates);
    LabelsApart(ScanLabel(r), tempOk, clone, TimedOut(gates), AnyFailed(gates), Marked(gates), head);
  }

  /** One gate after the other: a scan has timed out when a gate failed with the time
      used up, and has failed gates when any gate failed. */
  lemma GatesTellApart(gates: seq<GateAnswer>, last: GateAnswer)
    ensures !TimedOut([]) && !AnyFailed([])
    ensures TimedOut(gates + [last]) <==> TimedOut(gates) || (last.failed && last.ctxDone)
    ensures AnyFailed(gates + [last]) <==> AnyFailed(gates) || last.failed
  {
    var all := gates + [last];
    assert forall g :: g in all <==> g in gates || g == last;
    assert last in all;
  }

  lemma LabelsApart(counted: string, tempOk: bool, clone: CloneAnswer, timedOut: bool, failed: bool, marked: bool, head: Option<string>)
    requires timedOut ==> failed
    requires counted ==
               if !tempOk then "scan_failed"
               else if clone.CloneBroken? then (if clone.ctxDone then "gate_timeout" else "clone_failed")
               else if timedOut then "gate_timeout"
               else if marked then (if head.Some? then "" else "scan_failed")
               else if failed then "scan_failed"
               else "already_clean"
    ensures var cloned := tempOk && clone.CloneOk?;
            && (counted == "clone_failed" <==> tempOk && clone == CloneBroken(false))
            && (counted == "gate_timeout" <==> tempOk && (clone == CloneBroken(true) || (cloned && timedOut)))
            && (counted == "already_clean" <==> cloned && !failed && !marked)
            && (counted == "" <==> cloned && !timedOut && marked && head.Some?)
            && (counted != "" && counted != "already_clean" && counted != "clone_failed" && counted != "gate_timeout" ==> counted == "scan_failed")
  {}

  /** The same, decision by decision. */
  lemma LabelOf(tempOk: bool, clone: CloneAnswer, gates: seq<GateAnswer>, head: Option<string>, r: ScanOutcome)
    requires ScanMeets(tempOk, clone, gates, head, r)
    ensures ScanLabel(r) ==
              if !tempOk then "scan_failed"
              else if clone.CloneBroken? then (if clone.ctxDone then "gate_timeout" else "clone_failed")
              else if TimedOut(gates) then "gate_timeout"
              else if Marked(gates) then (if head.Some? then "" else "scan_failed")
              else if AnyFailed(gates) then "scan_failed"
              else "already_clean"
  {
    if tempOk && clone.CloneOk? && !TimedOut(gates) {
      MarksAreFindings(clone, gates, head, r);
    }
  }

  /** A scan that found something reports the commit and exactly the markers shown. */
  lemma ScanCarries(tempOk: bool, clone: CloneAnswer, gates: seq<GateAnswer>, head: Option<string>, r: ScanOutcome)
    requires ScanMeets(tempOk, clone, gates, head, r) && r.Scanned? && r.vulnIDs != []
    ensures head == Some(r.headSHA)
    ensures forall m :: m in r.vulnIDs <==> Contains(Flat(Captured(gates)), m)
  {
    MarksAreFindings(clone, gates, head, r);
  }

  ghost predicate Marked(gates: seq<GateAnswer>) {
    exists m :: Contains(Flat(Captured(gates)), m)
  }

  lemma MarksAreFindings(clone: CloneAnswer, gates: seq<GateAnswer>, head: Option<string>, r: ScanOutcome)
    requires ScanMeets(true, clone, gates, head, r) && clone.CloneOk? && !TimedOut(gates)
    ensures if !Marked(gates) then r == if AnyFailed(gates) then Failed(GateError) else Scanned("", [])
            else if head.None? then r == Failed(GateError)
            else r.Scanned? && r.vulnIDs != []
  {
    if m :| Contains(Flat(Captured(gates)), m) {
      assert r.Scanned? ==> m in r.vulnIDs;
    }
  }
}
