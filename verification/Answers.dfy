/** What a cycle does, told by the answers it was given: when a rate limit ends it,
    which visits make it send what, and which label every other visit counts. */
module Answers {
  import opened Wrappers
  import opened TaskId
  import opened Scanner
  import opened Domain
  import opened CursorStore
  import opened PollSpec
  import opened Laws
  import opened Endings

  /* ----- rate limits ----- */

  /** When a cycle counts "rate_limited": exactly when the listing was limited, or a
      go.mod or consent request of a repo that the walk got to. Then nothing is saved. */
  lemma RateLimitExactly(cfg: Config, sh: Shared, call: Call)
    ensures var a, sh' := call.answers, Poll(cfg, sh, call);
            && (sh'.metrics.pollCycle == sh.metrics.pollCycle + multiset{"rate_limited"} <==>
                  !a.readFault && (a.list.ListLimited? || (a.list.Listed? && exists j: nat :: LimitAt(a.list.visits, j))))
            && (sh'.metrics.pollCycle == sh.metrics.pollCycle + multiset{"rate_limited"} ==>
                  FileEntries(cfg.codec, sh'.disk.main) == FileEntries(cfg.codec, sh.disk.main) && sh'.disk.tmp == sh.disk.tmp)
  {
    var a := call.answers;
    PollVerdict(cfg, sh, call);
    forall l: string ensures sh.metrics.pollCycle + multiset{l} == sh.metrics.pollCycle + multiset{"rate_limited"} <==> l == "rate_limited" {
      OneLabel(sh.metrics.pollCycle, l);
    }
    LoadMeansFile(cfg.codec, sh.disk, a.readFault, a.preserveOk);
    if a.list.Listed? {
      if j: nat :| LimitAt(a.list.visits, j) {
        RateLimitForgetsProgress(cfg, sh, call, a.list.visits, j);
      }
    }
  }

  lemma OneLabel(before: multiset<string>, l: string)
    ensures before + multiset{l} == before + multiset{"rate_limited"} <==> l == "rate_limited"
  {
    assert (before + multiset{l})[l] == before[l] + 1;
    assert l != "rate_limited" ==> (before + multiset{"rate_limited"})[l] == before[l];
  }

  /* ----- who is sent what ----- */

  /** The repo is in the allowlist, consents, has a go.mod, and was scanned with findings. */
  predicate Served(cfg: Config, v: Visit) {
    && v.goMod == GoMod(true)
    && v.consent == Verdict(Granted)
    && cfg.allowed("github.com/" + v.repo.owner + "/" + v.repo.name)
    && v.scan.Scanned? && v.scan.vulnIDs != []
  }

  /** The send carries what the scan found. */
  predicate Carries(v: Visit, s: Send)
    requires v.scan.Scanned?
  {
    && s.repo == v.repo && s.ok == v.sendOk
    && s.cmd.repo == v.repo.owner + "/" + v.repo.name
    && s.cmd.ref == v.scan.headSHA && s.cmd.vulns == v.scan.vulnIDs && s.cmd.vulnCount == |v.scan.vulnIDs|
  }

  lemma FindingMeans(cfg: Config, v: Visit)
    requires Stops(v).None?
    ensures Finding(cfg, v) ==
              if Served(cfg, v) then Some(Candidate(v.repo, v.scan.headSHA, true, Granted, v.scan.vulnIDs)) else None
  {}

  /** One visit sends at most once: what was found, if the repo is served; a cycle that
      is not forced skips what the cursor records. */
  lemma VisitSends(cfg: Config, force: bool, w: Walk, v: Visit)
    requires GoodConfig(cfg) && GoesPast(v)
    ensures Stops(v).None?
    ensures var e := Effect(cfg, force, w, v);
            if Served(cfg, v) && (force || Lookup(w.entries, Key(v.repo)) != cfg.uuid5(Seed(v.repo.owner, v.repo.name, v.scan.vulnIDs)))
            then |e.sends| == |w.sends| + 1 && w.sends <= e.sends && Carries(v, e.sends[|w.sends|])
            else e.sends == w.sends
  {
    StopsMeans(v);
    FindingMeans(cfg, v);
  }

  /** Visit `k` is one the walk gets to, is served, and `s` carries what it found. */
  predicate SentAt(cfg: Config, visits: seq<Visit>, k: nat, s: Send) {
    && k < |visits| && Served(cfg, visits[k]) && Carries(visits[k], s)
    && forall i :: 0 <= i <= k ==> GoesPast(visits[i])
  }

  lemma {:induction false} WalkSendsComeFrom(cfg: Config, force: bool, visits: seq<Visit>, w: Walk, n: nat)
    requires GoodConfig(cfg)
    requires |w.sends| <= n < |WalkFrom(cfg, force, visits, w).0.sends|
    ensures exists k: nat :: SentAt(cfg, visits, k, WalkFrom(cfg, force, visits, w).0.sends[n])
  {
    var v, e, rest := visits[0], Effect(cfg, force, w, visits[0]), visits[1..];
    var s := WalkFrom(cfg, force, visits, w).0.sends[n];
    StopsMeans(v);
    VisitSends(cfg, force, w, v);
    if n < |e.sends| {
      WalkEntry(cfg, force, rest, e, "");
      assert SentAt(cfg, visits, 0, s);
    } else {
      WalkSendsComeFrom(cfg, force, rest, e, n);
      var k: nat :| SentAt(cfg, rest, k, s);
      SentLater(cfg, visits, k, s);
    }
  }

  lemma SentLater(cfg: Config, visits: seq<Visit>, k: nat, s: Send)
    requires visits != [] && GoesPast(visits[0]) && SentAt(cfg, visits[1..], k, s)
    ensures SentAt(cfg, visits, k + 1, s)
  {
    forall i | 0 <= i <= k + 1 ensures GoesPast(visits[i]) {
      if i > 0 { assert visits[i] == visits[1..][i - 1]; }
    }
  }

  /** Every send of every cycle comes from a visit whose answers call for it: no repo
      outside the allowlist, without consent, without go.mod or without findings is
      ever sent, and a command carries the commit and the findings of its own scan. */
  lemma SendsComeFrom(cfg: Config, sh: Shared, call: Call, n: nat)
    requires GoodConfig(cfg)
    requires |sh.sends| <= n < |Poll(cfg, sh, call).sends|
    ensures call.answers.list.Listed?
    ensures exists k: nat :: SentAt(cfg, call.answers.list.visits, k, Poll(cfg, sh, call).sends[n])
  {
    var a := call.answers;
    var (disk, loaded) := Load(cfg.codec, sh.disk, a.readFault, a.preserveOk);
    WalkSendsComeFrom(cfg, call.force, a.list.visits, WalkStart(sh.(disk := disk), loaded.value, a.list.visits), n);
  }

  /** The served visits that a walk gets to, in order. */
  function ServedVisits(cfg: Config, visits: seq<Visit>): (r: seq<Visit>)
    ensures forall i :: 0 <= i < |r| ==> Served(cfg, r[i])
  {
    if visits == [] || !GoesPast(visits[0]) then []
    else (if Served(cfg, visits[0]) then [visits[0]] else []) + ServedVisits(cfg, visits[1..])
  }

  /** From `n` on the sends are those of the visits, one for one and in order. */
  predicate OneForOne(visits: seq<Visit>, sends: seq<Send>, n: nat)
    requires forall i :: 0 <= i < |visits| ==> visits[i].scan.Scanned?
  {
    |sends| == n + |visits| && forall i :: 0 <= i < |visits| ==> Carries(visits[i], sends[n + i])
  }

  lemma OneMoreForOne(visits: seq<Visit>, v: Visit, a: seq<Send>, b: seq<Send>, n: nat)
    requires v.scan.Scanned? && forall i :: 0 <= i < |visits| ==> visits[i].scan.Scanned?
    requires |a| == n + 1 && a <= b && Carries(v, a[n]) && OneForOne(visits, b, n + 1)
    ensures OneForOne([v] + visits, b, n)
  {
    forall i | 0 <= i < |visits| + 1 ensures Carries(([v] + visits)[i], b[n + i]) {
      if i > 0 { assert Carries(visits[i - 1], b[n + 1 + (i - 1)]); }
    }
  }

  lemma {:induction false} ForcedWalkSends(cfg: Config, visits: seq<Visit>, w: Walk)
    requires GoodConfig(cfg)
    ensures OneForOne(ServedVisits(cfg, visits), WalkFrom(cfg, true, visits, w).0.sends, |w.sends|)
  {
    if visits != [] {
      StopsMeans(visits[0]);
      if GoesPast(visits[0]) {
        var e, rest := Effect(cfg, true, w, visits[0]), visits[1..];
        var sends := WalkFrom(cfg, true, rest, e).0.sends;
        VisitSends(cfg, true, w, visits[0]);
        ForcedWalkSends(cfg, rest, e);
        if Served(cfg, visits[0]) {
          WalkEntry(cfg, true, rest, e, "");
          OneMoreForOne(ServedVisits(cfg, rest), visits[0], e.sends, sends, |w.sends|);
        } else {
          assert [] + ServedVisits(cfg, rest) == ServedVisits(cfg, rest);
        }
      }
    }
  }

  /** A forced cycle sends exactly for the served visits it gets to, one for one and
      in order, whatever the cursor records. */
  lemma ForcedSendsExactly(cfg: Config, sh: Shared, call: Call, visits: seq<Visit>)
    requires GoodConfig(cfg) && call.force && !call.answers.readFault && call.answers.list == Listed(visits)
    ensures OneForOne(ServedVisits(cfg, visits), Poll(cfg, sh, call).sends, |sh.sends|)
  {
    var a := call.answers;
    LoadMeansFile(cfg.codec, sh.disk, false, a.preserveOk);
    var (disk, loaded) := Load(cfg.codec, sh.disk, false, a.preserveOk);
    ForcedWalkSends(cfg, visits, WalkStart(sh.(disk := disk), loaded.value, visits));
  }

  /* ----- who is skipped as what ----- */

  /** Allowlisted, consenting, with a go.mod: the repo gets scanned. */
  predicate Scannable(cfg: Config, v: Visit) {
    v.goMod == GoMod(true) && v.consent == Verdict(Granted) && cfg.allowed("github.com/" + v.repo.owner + "/" + v.repo.name)
  }

  /** Every visit that is not cut short, told by its answers: dropped, skipped under
      one label, or found. */
  lemma FateExactly(cfg: Config, v: Visit)
    requires GoesPast(v)
    ensures Stops(v).None?
    ensures var fate, key := FateOf(cfg, v), "github.com/" + v.repo.owner + "/" + v.repo.name;
            var asked := v.goMod.GoMod? && v.consent.Verdict?;
            && (fate == Drop <==> v.goMod.GoModBroken? || (v.goMod.GoMod? && v.consent.ConsentBroken?))
            && (fate == Skip("scope") <==> asked && !cfg.allowed(key))
            && (fate == Skip("auto_update_disabled") <==> asked && cfg.allowed(key) && v.consent.consent != Granted)
            && (fate == Skip("no_gomod") <==> asked && cfg.allowed(key) && v.consent.consent == Granted && !v.goMod.present)
            && (fate == Skip("clone_failed") <==> Scannable(cfg, v) && v.scan == Failed(CloneError))
            && (fate == Skip("gate_timeout") <==> Scannable(cfg, v) && v.scan == Failed(TimeoutError))
            && (fate == Skip("scan_failed") <==> Scannable(cfg, v) && (v.scan == Failed(TempDirError) || v.scan == Failed(GateError)))
            && (fate == Skip("already_clean") <==> Scannable(cfg, v) && v.scan.Scanned? && v.scan.vulnIDs == [])
            && (fate == Find <==> Served(cfg, v))
  {
    StopsMeans(v);
    FindingMeans(cfg, v);
  }

  /** A scanned repo counts the label of its scan. */
  lemma FateOfScan(cfg: Config, v: Visit)
    requires GoesPast(v) && Scannable(cfg, v)
    ensures Stops(v).None?
    ensures FateOf(cfg, v) == if ScanLabel(v.scan) == "" then Find else Skip(ScanLabel(v.scan))
  {
    FateExactly(cfg, v);
  }

  /** From what git and the gates did to what the repo counts. */
  lemma FateOfGates(cfg: Config, v: Visit, tempOk: bool, clone: CloneAnswer, gates: seq<GateAnswer>, head: Option<string>)
    requires GoesPast(v) && Scannable(cfg, v) && ScanMeets(tempOk, clone, gates, head, v.scan)
    ensures Stops(v).None?
    ensures var fate, cloned := FateOf(cfg, v), tempOk && clone.CloneOk?;
            && (fate == Skip("clone_failed") <==> tempOk && clone == CloneBroken(false))
            && (fate == Skip("gate_timeout") <==> tempOk && (clone == CloneBroken(true) || (cloned && TimedOut(gates))))
            && (fate == Skip("already_clean") <==> cloned && !AnyFailed(gates) && !Marked(gates))
            && (fate == Find <==> cloned && !TimedOut(gates) && Marked(gates) && head.Some?)
  {
    FateOfScan(cfg, v);
    ScanLabels(tempOk, clone, gates, head, v.scan);
  }
}
