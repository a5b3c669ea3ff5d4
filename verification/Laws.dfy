/** Laws of one cycle and of two cycles in a row. */
module Laws {
  import opened Wrappers
  import opened Domain
  import opened CursorStore
  import opened PollSpec

  /* ----- one visit sends at most once ----- */

  /** What one repo can do to the in-memory cursor and the topic: nothing, or one
      send; only a successful send writes its own identifier under its own key; a
      non-forced send never repeats what the cursor records. */
  ghost predicate OneSend(w: Walk, w': Walk, force: bool) {
    || (w'.sends == w.sends && w'.entries == w.entries)
    || exists s: Send :: SendsOne(w, w', force, s)
  }

  predicate SendsOne(w: Walk, w': Walk, force: bool, s: Send) {
    && w'.sends == w.sends + [s]
    && w'.entries == (if s.ok then w.entries[Key(s.repo) := RepoState(s.cmd.taskIdentifier)] else w.entries)
    && (!force ==> s.cmd.taskIdentifier != Lookup(w.entries, Key(s.repo)))
  }

  lemma EffectSendsOnce(cfg: Config, force: bool, w: Walk, v: Visit)
    requires GoodConfig(cfg) && Stops(v).None?
    ensures OneSend(w, Effect(cfg, force, w, v), force)
  {
    match Finding(cfg, v)
    case None =>
    case Some(c) =>
      var s := Send(c.repo, BuildCreateCommand(cfg.uuid5, c), v.sendOk);
      assert s.cmd.taskIdentifier == TaskIdentifier(cfg.uuid5, c) != "";
      var w' := Emit(cfg, force, w, c, v.sendOk);
      if w'.sends != w.sends { assert SendsOne(w, w', force, s); }
  }

  /* ----- forced against non-forced ----- */

  /** `a` is a subsequence of `b`. */
  predicate Subsequence(a: seq<Send>, b: seq<Send>) {
    if a == [] then true
    else if b == [] then false
    else
      var a', b' := a[..|a| - 1], b[..|b| - 1];
      (a[|a| - 1] == b[|b| - 1] && Subsequence(a', b')) || Subsequence(a, b')
  }

  lemma SubsequenceSnoc(a: seq<Send>, b: seq<Send>, s: Send)
    requires Subsequence(a, b)
    ensures Subsequence(a + [s], b + [s]) && Subsequence(a, b + [s])
  {
    assert (a + [s])[..|a|] == a && (b + [s])[..|b|] == b;
  }

  /** The same answers for both cycles, but for the sends of repos that the
      non-forced cycle finds unchanged: those may go either way. */
  predicate SameAnswers(cfg: Config, w: Walk, visits: seq<Visit>, forced: seq<Visit>)
    decreases |visits|
  {
    |visits| == |forced| &&
    (visits != [] ==>
       var v := visits[0];
       && (forced[0] == v || (SkippedUnchanged(cfg, w, v) && forced[0] == v.(sendOk := forced[0].sendOk)))
       && (Stops(v).None? ==> SameAnswers(cfg, Effect(cfg, false, w, v), visits[1..], forced[1..])))
  }

  predicate SkippedUnchanged(cfg: Config, w: Walk, v: Visit) {
    && Stops(v).None? && Finding(cfg, v).Some?
    && var c := Finding(cfg, v).value; Unchanged(false, TaskIdentifier(cfg.uuid5, c), Lookup(w.entries, Key(c.repo)))
  }

  lemma EmitForced(cfg: Config, w: Walk, c: Candidate, ok: bool, u: Walk, ok': bool)
    requires w.entries == u.entries && Subsequence(w.sends, u.sends)
    requires ok == ok' || Unchanged(false, TaskIdentifier(cfg.uuid5, c), Lookup(w.entries, Key(c.repo)))
    ensures var w', u' := Emit(cfg, false, w, c, ok), Emit(cfg, true, u, c, ok');
            w'.entries == u'.entries && Subsequence(w'.sends, u'.sends)
  {
    var id, key := TaskIdentifier(cfg.uuid5, c), Key(c.repo);
    SubsequenceSnoc(w.sends, u.sends, Send(c.repo, BuildCreateCommand(cfg.uuid5, c), ok'));
    if Unchanged(false, id, Lookup(w.entries, key)) {
      assert w.entries[key := RepoState(id)] == w.entries;
    }
  }

  lemma EffectForced(cfg: Config, w: Walk, v: Visit, u: Walk, v': Visit)
    requires Stops(v).None? && (v' == v || (SkippedUnchanged(cfg, w, v) && v' == v.(sendOk := v'.sendOk)))
    requires w.entries == u.entries && Subsequence(w.sends, u.sends)
    ensures Stops(v').None?
    ensures var w', u' := Effect(cfg, false, w, v), Effect(cfg, true, u, v');
            w'.entries == u'.entries && Subsequence(w'.sends, u'.sends)
  {
    assert Finding(cfg, v') == Finding(cfg, v);
    if Finding(cfg, v).Some? {
      EmitForced(cfg, w, Finding(cfg, v).value, v.sendOk, u, v'.sendOk);
    }
  }

  lemma {:induction false} WalkForced(cfg: Config, visits: seq<Visit>, forced: seq<Visit>, w: Walk, u: Walk)
    requires SameAnswers(cfg, w, visits, forced)
    requires w.entries == u.entries && Subsequence(w.sends, u.sends)
    ensures var (w', reason), (u', reason') := WalkFrom(cfg, false, visits, w), WalkFrom(cfg, true, forced, u);
            w'.entries == u'.entries && Subsequence(w'.sends, u'.sends) && reason == reason'
  {
    if visits != [] && Stops(visits[0]).None? {
      EffectForced(cfg, w, visits[0], u, forced[0]);
      WalkForced(cfg, visits[1..], forced[1..], Effect(cfg, false, w, visits[0]), Effect(cfg, true, u, forced[0]));
    }
  }

  lemma {:induction false} SubsequenceRefl(a: seq<Send>)
    ensures Subsequence(a, a)
  {
    if a != [] { SubsequenceRefl(a[..|a| - 1]); }
  }

  /** Forcing a cycle leaves the same cursor file behind, whatever the extra sends
      return, and only adds publish attempts. */
  lemma ForcedCycle(cfg: Config, sh: Shared, a: Answers, a': Answers, visits: seq<Visit>, forced: seq<Visit>)
    requires a.list == Listed(visits) && a' == a.(list := Listed(forced))
    requires var d := Load(cfg.codec, sh.disk, a.readFault, a.preserveOk);
             d.1.Some? ==> SameAnswers(cfg, WalkStart(sh.(disk := d.0), d.1.value, visits), visits, forced)
    ensures var plain, full := Poll(cfg, sh, Call(false, a)), Poll(cfg, sh, Call(true, a'));
            && plain.disk == full.disk
            && Subsequence(plain.sends, full.sends)
            && plain.metrics.pollCycle == full.metrics.pollCycle
  {
    SubsequenceRefl(sh.sends);
    var (disk, loaded) := Load(cfg.codec, sh.disk, a.readFault, a.preserveOk);
    if loaded.Some? {
      var w, u := WalkStart(sh.(disk := disk), loaded.value, visits), WalkStart(sh.(disk := disk), loaded.value, forced);
      WalkForced(cfg, visits, forced, w, u);
      WalkKeepsPollCount(cfg, false, visits, w);
      WalkKeepsPollCount(cfg, true, forced, u);
    }
  }

  lemma {:induction false} WalkKeepsPollCount(cfg: Config, force: bool, visits: seq<Visit>, w: Walk)
    ensures WalkFrom(cfg, force, visits, w).0.metrics.pollCycle == w.metrics.pollCycle
  {
    if visits != [] && Stops(visits[0]).None? {
      WalkKeepsPollCount(cfg, force, visits[1..], Effect(cfg, force, w, visits[0]));
    }
  }

  /* ----- no finding set is lost ----- */

  /** Sends only grow; an entry changes only through a successful send for its repo. */
  lemma {:induction false} WalkEntry(cfg: Config, force: bool, visits: seq<Visit>, w: Walk, key: string)
    ensures var w' := WalkFrom(cfg, force, visits, w).0;
            && w.sends <= w'.sends
            && ((forall n :: |w.sends| <= n < |w'.sends| && Key(w'.sends[n].repo) == key ==> !w'.sends[n].ok) ==>
                  Lookup(w'.entries, key) == Lookup(w.entries, key))
  {
    if visits != [] && Stops(visits[0]).None? {
      var e := Effect(cfg, force, w, visits[0]);
      WalkEntry(cfg, force, visits[1..], e, key);
      var w' := WalkFrom(cfg, force, visits[1..], e).0;
      if |e.sends| > |w.sends| {
        assert w'.sends[|w.sends|] == e.sends[|w.sends|];
      }
    }
  }

  /** A cycle in which every send for a repo failed leaves that repo's entry in the
      file as it was, saved or not. */
  lemma FailedSendsLeaveEntry(cfg: Config, sh: Shared, call: Call, key: string)
    requires RoundTrips(cfg.codec)
    ensures var sh' := Poll(cfg, sh, call);
            && sh.sends <= sh'.sends
            && ((forall n :: |sh.sends| <= n < |sh'.sends| && Key(sh'.sends[n].repo) == key ==> !sh'.sends[n].ok) ==>
                  Lookup(FileEntries(cfg.codec, sh'.disk.main), key) == Lookup(FileEntries(cfg.codec, sh.disk.main), key))
  {
    var a := call.answers;
    LoadMeansFile(cfg.codec, sh.disk, a.readFault, a.preserveOk);
    var (disk, loaded) := Load(cfg.codec, sh.disk, a.readFault, a.preserveOk);
    if loaded.Some? && a.list.Listed? {
      var w := WalkStart(sh.(disk := disk), loaded.value, a.list.visits);
      WalkEntry(cfg, call.force, a.list.visits, w, key);
      SaveThenLoad(cfg.codec, disk, WalkFrom(cfg, call.force, a.list.visits, w).0.entries, a.save, true);
    }
  }

  /** The walk after its first `n` visits, none of which ends it. */
  function After(cfg: Config, force: bool, visits: seq<Visit>, w: Walk, n: nat): Walk
    requires n <= |visits| && forall i :: 0 <= i < n ==> Stops(visits[i]).None?
    decreases n
  {
    if n == 0 then w else After(cfg, force, visits[1..], Effect(cfg, force, w, visits[0]), n - 1)
  }

  lemma {:induction false} WalkPassesThrough(cfg: Config, force: bool, visits: seq<Visit>, w: Walk, n: nat)
    requires n <= |visits| && forall i :: 0 <= i < n ==> Stops(visits[i]).None?
    ensures WalkFrom(cfg, force, visits, w) == WalkFrom(cfg, force, visits[n..], After(cfg, force, visits, w, n))
    decreases n
  {
    if n > 0 {
      WalkPassesThrough(cfg, force, visits[1..], Effect(cfg, force, w, visits[0]), n - 1);
      assert visits[1..][n - 1..] == visits[n..];
    } else {
      assert visits[0..] == visits;
    }
  }

  lemma EffectElsewhere(cfg: Config, force: bool, w: Walk, v: Visit, key: string)
    requires Stops(v).None?
    ensures var w' := Effect(cfg, force, w, v);
            w.sends <= w'.sends && (Key(v.repo) != key ==> Lookup(w'.entries, key) == Lookup(w.entries, key))
  {}

  lemma {:induction false} AfterElsewhere(cfg: Config, force: bool, visits: seq<Visit>, w: Walk, n: nat, key: string)
    requires n <= |visits| && forall i :: 0 <= i < n ==> Stops(visits[i]).None? && Key(visits[i].repo) != key
    ensures var w' := After(cfg, force, visits, w, n);
            w.sends <= w'.sends && Lookup(w'.entries, key) == Lookup(w.entries, key)
    decreases n
  {
    if n > 0 {
      EffectElsewhere(cfg, force, w, visits[0], key);
      AfterElsewhere(cfg, force, visits[1..], Effect(cfg, force, w, visits[0]), n - 1, key);
    }
  }

  /** The send of a candidate's command is among the sends from `n` on. */
  predicate Attempted(cfg: Config, c: Candidate, ok: bool, sends: seq<Send>, n: nat) {
    exists i :: n <= i < |sends| && sends[i] == Send(c.repo, BuildCreateCommand(cfg.uuid5, c), ok)
  }

  /** A non-forced cycle that reaches a repo for the first time and finds an
      identifier other than the recorded one attempts the publish. */
  lemma NewFindingIsSent(cfg: Config, sh: Shared, call: Call, visits: seq<Visit>, j: nat, c: Candidate)
    requires !call.answers.readFault && call.answers.list == Listed(visits)
    requires j < |visits| && forall i :: 0 <= i <= j ==> Stops(visits[i]).None?
    requires forall i :: 0 <= i < j ==> Key(visits[i].repo) != Key(visits[j].repo)
    requires Finding(cfg, visits[j]) == Some(c)
    requires Lookup(FileEntries(cfg.codec, sh.disk.main), Key(c.repo)) != TaskIdentifier(cfg.uuid5, c)
    ensures Attempted(cfg, c, visits[j].sendOk, Poll(cfg, sh, call).sends, |sh.sends|)
  {
    LoadMeansFile(cfg.codec, sh.disk, false, call.answers.preserveOk);
    var (disk, loaded) := Load(cfg.codec, sh.disk, false, call.answers.preserveOk);
    var key, w := Key(c.repo), WalkStart(sh.(disk := disk), loaded.value, visits);
    WalkPassesThrough(cfg, call.force, visits, w, j);
    AfterElsewhere(cfg, call.force, visits, w, j, key);
    var at := After(cfg, call.force, visits, w, j);
    var e := Effect(cfg, call.force, at, visits[j]);
    WalkEntry(cfg, call.force, visits[j + 1..], e, key);
    var end := WalkFrom(cfg, call.force, visits[j + 1..], e).0;
    assert visits[j..][0] == visits[j] && visits[j..][1..] == visits[j + 1..];
    assert end == WalkFrom(cfg, call.force, visits, w).0;
    assert end.sends[|at.sends|] == e.sends[|at.sends|];
    assert Poll(cfg, sh, call).sends == end.sends;
  }

  /** Every send for the repo in `sends` from `n` on failed. */
  predicate AllFailed(sends: seq<Send>, n: nat, key: string) {
    forall i :: n <= i < |sends| && Key(sends[i].repo) == key ==> !sends[i].ok
  }

  /** In a non-forced walk whose sends for a repo all fail, each of them carries an
      identifier other than the one recorded at the start. */
  lemma {:induction false} FailedSendsAreNews(cfg: Config, visits: seq<Visit>, w: Walk, key: string, n: nat)
    requires GoodConfig(cfg)
    requires var w' := WalkFrom(cfg, false, visits, w).0;
             AllFailed(w'.sends, |w.sends|, key) && |w.sends| <= n < |w'.sends| && Key(w'.sends[n].repo) == key
    ensures WalkFrom(cfg, false, visits, w).0.sends[n].cmd.taskIdentifier != Lookup(w.entries, key)
  {
    if visits != [] && Stops(visits[0]).None? {
      var e := Effect(cfg, false, w, visits[0]);
      EffectSendsOnce(cfg, false, w, visits[0]);
      WalkEntry(cfg, false, visits[1..], e, key);
      var w' := WalkFrom(cfg, false, visits[1..], e).0;
      if |e.sends| > |w.sends| { assert w'.sends[|w.sends|] == e.sends[|w.sends|]; }
      if n >= |e.sends| { FailedSendsAreNews(cfg, visits[1..], e, key, n); }
    }
  }

  /** No finding set is lost. If a non-forced cycle tried to publish a finding set
      and no send for that repo succeeded in it, then, whether or not that cycle was
      saved, the next non-forced cycle that loads the file and scans the same
      findings tries again. */
  lemma FailedSendIsRetried(cfg: Config, sh: Shared, first: Call, n: nat, second: Call, visits: seq<Visit>, j: nat, c: Candidate)
    requires GoodConfig(cfg) && !first.force
    requires var sends := Poll(cfg, sh, first).sends;
             && |sh.sends| <= n < |sends| && AllFailed(sends, |sh.sends|, Key(c.repo))
             && Key(sends[n].repo) == Key(c.repo) && sends[n].cmd.taskIdentifier == TaskIdentifier(cfg.uuid5, c)
    requires !second.force && !second.answers.readFault && second.answers.list == Listed(visits)
    requires j < |visits| && forall i :: 0 <= i <= j ==> Stops(visits[i]).None?
    requires forall i :: 0 <= i < j ==> Key(visits[i].repo) != Key(visits[j].repo)
    requires Finding(cfg, visits[j]) == Some(c)
    ensures var sh' := Poll(cfg, sh, first);
            Attempted(cfg, c, visits[j].sendOk, Poll(cfg, sh', second).sends, |sh'.sends|)
  {
    var a, key := first.answers, Key(c.repo);
    LoadMeansFile(cfg.codec, sh.disk, a.readFault, a.preserveOk);
    var (disk, loaded) := Load(cfg.codec, sh.disk, a.readFault, a.preserveOk);
    FailedSendsAreNews(cfg, a.list.visits, WalkStart(sh.(disk := disk), loaded.value, a.list.visits), key, n);
    FailedSendsLeaveEntry(cfg, sh, first, key);
    NewFindingIsSent(cfg, Poll(cfg, sh, first), second, visits, j, c);
  }

  lemma ConcludeFile(cfg: Config, disk: Disk, w: Walk, reason: string, save: SaveAnswer)
    requires RoundTrips(cfg.codec) && (reason == "" || reason == "rate_limited")
    ensures var sh := Conclude(cfg, disk, w, reason, save);
            if sh.metrics.pollCycle == w.metrics.pollCycle + multiset{"success"}
            then FileEntries(cfg.codec, sh.disk.main) == w.entries
            else FileEntries(cfg.codec, sh.disk.main) == FileEntries(cfg.codec, disk.main)
  {
    SaveThenLoad(cfg.codec, disk, w.entries, save, true);
    OneMore(w.metrics.pollCycle, "scan_error");
    OneMore(w.metrics.pollCycle, "rate_limited");
  }

  /** The file changes only by a cycle that counts "success", and then it stands for
      that walk's complete cursor; every other ending leaves what it stood for. */
  lemma FileChangesOnSuccessOnly(cfg: Config, sh: Shared, call: Call)
    requires RoundTrips(cfg.codec)
    ensures var sh' := Poll(cfg, sh, call);
            if sh'.metrics.pollCycle == sh.metrics.pollCycle + multiset{"success"} then
              && call.answers.list.Listed?
              && var visits := call.answers.list.visits;
                 FileEntries(cfg.codec, sh'.disk.main) ==
                   WalkFrom(cfg, call.force, visits, WalkStart(sh, FileEntries(cfg.codec, sh.disk.main), visits)).0.entries
            else FileEntries(cfg.codec, sh'.disk.main) == FileEntries(cfg.codec, sh.disk.main)
  {
    var a := call.answers;
    LoadMeansFile(cfg.codec, sh.disk, a.readFault, a.preserveOk);
    var (disk, loaded) := Load(cfg.codec, sh.disk, a.readFault, a.preserveOk);
    if loaded.Some? && a.list.Listed? {
      var w := WalkStart(sh, loaded.value, a.list.visits);
      assert WalkStart(sh.(disk := disk), loaded.value, a.list.visits) == w;
      WalkReason(cfg, call.force, a.list.visits, w);
      WalkKeepsPollCount(cfg, call.force, a.list.visits, w);
      var (w', reason) := WalkFrom(cfg, call.force, a.list.visits, w);
      ConcludeFile(cfg, disk, w', reason, a.save);
    } else {
      OneMore(sh.metrics.pollCycle, if loaded.None? then "scan_error" else if a.list.ListLimited? then "rate_limited" else "github_error");
    }
  }

  lemma OneMore(before: multiset<string>, l: string)
    requires l != "success"
    ensures before + multiset{l} != before + multiset{"success"}
  {
    assert (before + multiset{l})[l] == before[l] + 1;
    assert (before + multiset{"success"})[l] == before[l];
  }

  /* ----- conservation ----- */

  /** Repos handled before the walk ends. */
  function Handled(visits: seq<Visit>): nat {
    if visits == [] || Stops(visits[0]).Some? then 0 else 1 + Handled(visits[1..])
  }

  /** Sizes of the finding lists of the repos handled. */
  function Detected(cfg: Config, visits: seq<Visit>): nat {
    if visits == [] || Stops(visits[0]).Some? then 0
    else (match Finding(cfg, visits[0]) case None => 0 case Some(c) => |c.vulnIDs|) + Detected(cfg, visits[1..])
  }

  function OkSends(sends: seq<Send>): nat {
    if sends == [] then 0 else OkSends(sends[..|sends| - 1]) + if sends[|sends| - 1].ok then 1 else 0
  }

  lemma OkSendsSnoc(sends: seq<Send>, s: Send)
    ensures OkSends(sends + [s]) == OkSends(sends) + if s.ok then 1 else 0
  {
    assert (sends + [s])[..|sends|] == sends;
  }

  /** Every handled repo is counted once: as a drop line, a skip, or a publish. */
  function Accounted(m: Metrics): nat {
    m.dropLines + |m.filterSkipped| + |m.published|
  }

  ghost predicate PublishesMatch(sends: seq<Send>, m: Metrics) {
    && |m.published| == |sends|
    && m.published["create"] == OkSends(sends)
  }

  lemma EarlySkipLabel(cfg: Config, v: Visit)
    requires Stops(v).None? && !Dropped(v) && Finding(cfg, v).None?
    ensures EarlySkip(cfg, v) in FILTER_SKIP_REASONS
  {}

  lemma EffectCounts(cfg: Config, force: bool, w: Walk, v: Visit)
    requires Stops(v).None?
    ensures var w' := Effect(cfg, force, w, v);
            && Accounted(w'.metrics) == Accounted(w.metrics) + 1
            && w'.metrics.vulnsDetected == w.metrics.vulnsDetected + (match Finding(cfg, v) case None => 0 case Some(c) => |c.vulnIDs|)
            && w'.metrics.pollCycle == w.metrics.pollCycle
            && w'.metrics.reposScanned == w.metrics.reposScanned
            && (LabelsClosed(w.metrics) ==> LabelsClosed(w'.metrics))
  {
    match Finding(cfg, v)
    case Some(_) =>
    case None => if !Dropped(v) { EarlySkipLabel(cfg, v); }
  }

  lemma EffectPublishes(cfg: Config, force: bool, w: Walk, v: Visit)
    requires Stops(v).None? && PublishesMatch(w.sends, w.metrics)
    ensures var w' := Effect(cfg, force, w, v); PublishesMatch(w'.sends, w'.metrics)
  {
    match Finding(cfg, v)
    case None =>
    case Some(c) => OkSendsSnoc(w.sends, Send(c.repo, BuildCreateCommand(cfg.uuid5, c), v.sendOk));
  }

  lemma {:induction false} WalkCounts(cfg: Config, force: bool, visits: seq<Visit>, w: Walk)
    ensures var w' := WalkFrom(cfg, force, visits, w).0;
            && Accounted(w'.metrics) == Accounted(w.metrics) + Handled(visits)
            && w'.metrics.vulnsDetected == w.metrics.vulnsDetected + Detected(cfg, visits)
            && w'.metrics.pollCycle == w.metrics.pollCycle
            && w'.metrics.reposScanned == w.metrics.reposScanned
            && (LabelsClosed(w.metrics) ==> LabelsClosed(w'.metrics))
            && (PublishesMatch(w.sends, w.metrics) ==> PublishesMatch(w'.sends, w'.metrics))
  {
    if visits != [] && Stops(visits[0]).None? {
      EffectCounts(cfg, force, w, visits[0]);
      if PublishesMatch(w.sends, w.metrics) { EffectPublishes(cfg, force, w, visits[0]); }
      WalkCounts(cfg, force, visits[1..], Effect(cfg, force, w, visits[0]));
    }
  }

  lemma {:induction false} WalkReason(cfg: Config, force: bool, visits: seq<Visit>, w: Walk)
    ensures var reason := WalkFrom(cfg, force, visits, w).1; reason == "" || reason == "rate_limited"
  {
    if visits != [] && Stops(visits[0]).None? {
      WalkReason(cfg, force, visits[1..], Effect(cfg, force, w, visits[0]));
    }
  }

  function HandledIn(call: Call): nat {
    if call.answers.readFault || !call.answers.list.Listed? then 0 else Handled(call.answers.list.visits)
  }

  function DetectedIn(cfg: Config, call: Call): nat {
    if call.answers.readFault || !call.answers.list.Listed? then 0 else Detected(cfg, call.answers.list.visits)
  }

  function ListedIn(call: Call): nat {
    if call.answers.readFault || !call.answers.list.Listed? then 0 else |call.answers.list.visits|
  }

  lemma ConcludeCounts(cfg: Config, disk: Disk, w: Walk, reason: string, save: SaveAnswer)
    requires reason == "" || reason == "rate_limited"
    ensures var sh := Conclude(cfg, disk, w, reason, save);
            && sh.sends == w.sends
            && |sh.metrics.pollCycle| == |w.metrics.pollCycle| + 1
            && sh.metrics == w.metrics.(pollCycle := sh.metrics.pollCycle)
            && (LabelsClosed(w.metrics) ==> LabelsClosed(sh.metrics))
  {}

  lemma ListingConserves(cfg: Config, sh: Shared, entries: Entries, call: Call)
    requires !call.answers.readFault
    ensures Conserves(cfg, sh, call, Listing(cfg, sh, entries, call))
  {
    if call.answers.list.Listed? {
      var visits := call.answers.list.visits;
      var w := WalkStart(sh, entries, visits);
      WalkCounts(cfg, call.force, visits, w);
      WalkReason(cfg, call.force, visits, w);
      var (w', reason) := WalkFrom(cfg, call.force, visits, w);
      ConcludeCounts(cfg, sh.disk, w', reason, call.answers.save);
    }
  }

  /** Conservation over one cycle: one poll result; handled repos are dropped,
      skipped, created or failed, each exactly once; publishes counted are the sends
      made; detected vulnerabilities are the sizes of the lists found; and every
      label stays in its closed set. */
  ghost predicate Conserves(cfg: Config, sh: Shared, call: Call, sh': Shared) {
    && |sh'.metrics.pollCycle| == |sh.metrics.pollCycle| + 1
    && Accounted(sh'.metrics) == Accounted(sh.metrics) + HandledIn(call)
    && sh'.metrics.vulnsDetected == sh.metrics.vulnsDetected + DetectedIn(cfg, call)
    && sh'.metrics.reposScanned == sh.metrics.reposScanned + ListedIn(call)
    && (LabelsClosed(sh.metrics) ==> LabelsClosed(sh'.metrics))
    && (PublishesMatch(sh.sends, sh.metrics) ==> PublishesMatch(sh'.sends, sh'.metrics))
  }

  lemma PollConserves(cfg: Config, sh: Shared, call: Call)
    ensures Conserves(cfg, sh, call, Poll(cfg, sh, call))
  {
    LoadMeansFile(cfg.codec, sh.disk, call.answers.readFault, call.answers.preserveOk);
    var (disk, loaded) := Load(cfg.codec, sh.disk, call.answers.readFault, call.answers.preserveOk);
    if loaded.Some? {
      ListingConserves(cfg, sh.(disk := disk), loaded.value, call);
    }
  }
}
