/** When the next cycle sends a finding set again. The specification says that an
    unchanged finding set is emitted exactly once; here is when that is so. */
module Repeats {
  import opened Wrappers
  import opened Scanner
  import opened Domain
  import opened CursorStore
  import opened PollSpec
  import opened Laws

  /* ----- what a cycle leaves in the file ----- */

  /** `q` is the last successful send for the repo from `n` on. */
  predicate LastOk(sends: seq<Send>, n: nat, key: string, q: nat) {
    && n <= q < |sends| && sends[q].ok && Key(sends[q].repo) == key
    && forall r :: q < r < |sends| && sends[r].ok ==> Key(sends[r].repo) != key
  }

  /** A walk ends with the identifier of its last successful send for the repo. */
  lemma {:induction false} WalkRecords(cfg: Config, force: bool, visits: seq<Visit>, w: Walk, key: string, q: nat)
    requires LastOk(WalkFrom(cfg, force, visits, w).0.sends, |w.sends|, key, q)
    ensures var w' := WalkFrom(cfg, force, visits, w).0; Lookup(w'.entries, key) == w'.sends[q].cmd.taskIdentifier
  {
    if visits != [] && Stops(visits[0]).None? {
      var e := Effect(cfg, force, w, visits[0]);
      if q >= |e.sends| {
        WalkRecords(cfg, force, visits[1..], e, key, q);
      } else {
        WalkEntry(cfg, force, visits[1..], e, key);
        var w' := WalkFrom(cfg, force, visits[1..], e).0;
        assert w'.sends[q] == e.sends[q];
      }
    }
  }

  predicate Succeeded(sh: Shared, sh': Shared) {
    sh'.metrics.pollCycle == sh.metrics.pollCycle + multiset{"success"}
  }

  function Recorded(cfg: Config, sh: Shared, key: string): string {
    Lookup(FileEntries(cfg.codec, sh.disk.main), key)
  }

  /** What the file records for a repo after a cycle that sent for it. */
  lemma FileRecords(cfg: Config, sh: Shared, call: Call, key: string, q: nat)
    requires RoundTrips(cfg.codec) && LastOk(Poll(cfg, sh, call).sends, |sh.sends|, key, q)
    ensures var sh' := Poll(cfg, sh, call);
            Recorded(cfg, sh', key) == if Succeeded(sh, sh') then sh'.sends[q].cmd.taskIdentifier else Recorded(cfg, sh, key)
  {
    FileChangesOnSuccessOnly(cfg, sh, call);
    var a := call.answers;
    LoadMeansFile(cfg.codec, sh.disk, a.readFault, a.preserveOk);
    var (disk, loaded) := Load(cfg.codec, sh.disk, a.readFault, a.preserveOk);
    var w := WalkStart(sh, loaded.value, a.list.visits);
    assert WalkStart(sh.(disk := disk), loaded.value, a.list.visits) == w;
    WalkRecords(cfg, call.force, a.list.visits, w, key, q);
  }

  /* ----- what the next cycle sends ----- */

  /** Every visit to the repo finds this set or nothing. */
  predicate OnlyFinds(cfg: Config, visits: seq<Visit>, key: string, id: string) {
    forall i :: 0 <= i < |visits| && Key(visits[i].repo) == key && Stops(visits[i]).None? && Finding(cfg, visits[i]).Some? ==>
      TaskIdentifier(cfg.uuid5, Finding(cfg, visits[i]).value) == id
  }

  predicate SendFor(s: Send, key: string, id: string) {
    Key(s.repo) == key && s.cmd.taskIdentifier == id
  }

  /** A send for the repo with this identifier is among those from `n` on. */
  predicate SentFor(sends: seq<Send>, n: nat, key: string, id: string) {
    exists i :: n <= i < |sends| && SendFor(sends[i], key, id)
  }

  /** A visit that finds what is recorded, or is to another repo, sends nothing for
      the repo and leaves its entry. */
  lemma QuietVisit(cfg: Config, w: Walk, v: Visit, key: string, id: string)
    requires GoodConfig(cfg) && Stops(v).None? && Lookup(w.entries, key) == id && OnlyFinds(cfg, [v], key, id)
    ensures var e := Effect(cfg, false, w, v); Lookup(e.entries, key) == id && !SentFor(e.sends, |w.sends|, key, id)
  {
    assert [v][0] == v;
    EffectElsewhere(cfg, false, w, v, key);
    EffectSendsOnce(cfg, false, w, v);
  }

  /** A non-forced walk that only finds what is recorded sends nothing for the repo. */
  lemma {:induction false} KnownIsQuiet(cfg: Config, visits: seq<Visit>, w: Walk, key: string, id: string)
    requires GoodConfig(cfg) && Lookup(w.entries, key) == id && OnlyFinds(cfg, visits, key, id)
    ensures !SentFor(WalkFrom(cfg, false, visits, w).0.sends, |w.sends|, key, id)
  {
    if visits != [] && Stops(visits[0]).None? {
      var e, rest := Effect(cfg, false, w, visits[0]), visits[1..];
      QuietVisit(cfg, w, visits[0], key, id);
      assert forall i :: 0 <= i < |rest| ==> rest[i] == visits[i + 1];
      KnownIsQuiet(cfg, rest, e, key, id);
      WalkEntry(cfg, false, rest, e, key);
      StillNotSent(w.sends, e.sends, WalkFrom(cfg, false, rest, e).0.sends, key, id);
    }
  }

  lemma StillNotSent(a: seq<Send>, b: seq<Send>, c: seq<Send>, key: string, id: string)
    requires b <= c && !SentFor(b, |a|, key, id) && !SentFor(c, |b|, key, id)
    ensures !SentFor(c, |a|, key, id)
  {
    forall i | |a| <= i < |c| ensures !SendFor(c[i], key, id) {
      if i < |b| { assert c[i] == b[i]; }
    }
  }

  /** The next cycle comes to the repo, and finds set `c` in it whenever it finds any. */
  predicate Comes(cfg: Config, call: Call, c: Candidate, visits: seq<Visit>, j: nat) {
    && !call.answers.readFault && call.answers.list == Listed(visits)
    && j < |visits| && (forall i :: 0 <= i <= j ==> Stops(visits[i]).None?)
    && (forall i :: 0 <= i < j ==> Key(visits[i].repo) != Key(visits[j].repo))
    && Finding(cfg, visits[j]) == Some(c)
    && OnlyFinds(cfg, visits, Key(c.repo), TaskIdentifier(cfg.uuid5, c))
  }

  /** A non-forced cycle sends a finding set exactly when the file does not record it. */
  lemma SentIffNews(cfg: Config, sh: Shared, call: Call, c: Candidate, visits: seq<Visit>, j: nat)
    requires GoodConfig(cfg) && !call.force && Comes(cfg, call, c, visits, j)
    ensures var key, id := Key(c.repo), TaskIdentifier(cfg.uuid5, c);
            SentFor(Poll(cfg, sh, call).sends, |sh.sends|, key, id) <==> Recorded(cfg, sh, key) != id
  {
    var key, id, sends := Key(c.repo), TaskIdentifier(cfg.uuid5, c), Poll(cfg, sh, call).sends;
    if Recorded(cfg, sh, key) != id {
      NewFindingIsSent(cfg, sh, call, visits, j, c);
      var i :| |sh.sends| <= i < |sends| && sends[i] == Send(c.repo, BuildCreateCommand(cfg.uuid5, c), visits[j].sendOk);
      assert SendFor(sends[i], key, id);
    } else {
      LoadMeansFile(cfg.codec, sh.disk, false, call.answers.preserveOk);
      var (disk, loaded) := Load(cfg.codec, sh.disk, false, call.answers.preserveOk);
      KnownIsQuiet(cfg, visits, WalkStart(sh.(disk := disk), loaded.value, visits), key, id);
    }
  }

  /** Two cycles in a row, the first with a successful send `q` as its last for the
      repo: exactly when the second, non-forced one sends finding set `c`. */
  lemma NextCycleSends(cfg: Config, sh: Shared, first: Call, q: nat, second: Call, c: Candidate, visits: seq<Visit>, j: nat)
    requires GoodConfig(cfg) && LastOk(Poll(cfg, sh, first).sends, |sh.sends|, Key(c.repo), q)
    requires !second.force && Comes(cfg, second, c, visits, j)
    ensures var key, id, sh' := Key(c.repo), TaskIdentifier(cfg.uuid5, c), Poll(cfg, sh, first);
            SentFor(Poll(cfg, sh', second).sends, |sh'.sends|, key, id) <==>
              (if Succeeded(sh, sh') then sh'.sends[q].cmd.taskIdentifier != id else Recorded(cfg, sh, key) != id)
  {
    FileRecords(cfg, sh, first, Key(c.repo), q);
    SentIffNews(cfg, Poll(cfg, sh, first), second, c, visits, j);
  }

  /** Exactly once, exactly when: a finding set that was not in the file and was sent
      by one cycle is sent again by the next non-forced cycle if and only if the
      first cycle did not count "success". */
  lemma UnsavedSendRepeats(cfg: Config, sh: Shared, first: Call, q: nat, second: Call, c: Candidate, visits: seq<Visit>, j: nat)
    requires GoodConfig(cfg) && LastOk(Poll(cfg, sh, first).sends, |sh.sends|, Key(c.repo), q)
    requires Poll(cfg, sh, first).sends[q].cmd.taskIdentifier == TaskIdentifier(cfg.uuid5, c)
    requires Recorded(cfg, sh, Key(c.repo)) != TaskIdentifier(cfg.uuid5, c)
    requires !second.force && Comes(cfg, second, c, visits, j)
    ensures var key, id, sh' := Key(c.repo), TaskIdentifier(cfg.uuid5, c), Poll(cfg, sh, first);
            SentFor(Poll(cfg, sh', second).sends, |sh'.sends|, key, id) <==> !Succeeded(sh, sh')
  {
    NextCycleSends(cfg, sh, first, q, second, c, visits, j);
  }

  /** Findings A, B, A: with A in the file and B sent by one cycle, the next non-forced
      cycle that finds A sends it again if and only if the cycle of B was saved. */
  lemma FindingComesBack(cfg: Config, sh: Shared, first: Call, q: nat, second: Call, c: Candidate, visits: seq<Visit>, j: nat)
    requires GoodConfig(cfg) && LastOk(Poll(cfg, sh, first).sends, |sh.sends|, Key(c.repo), q)
    requires Recorded(cfg, sh, Key(c.repo)) == TaskIdentifier(cfg.uuid5, c)
    requires Poll(cfg, sh, first).sends[q].cmd.taskIdentifier != TaskIdentifier(cfg.uuid5, c)
    requires !second.force && Comes(cfg, second, c, visits, j)
    ensures var key, id, sh' := Key(c.repo), TaskIdentifier(cfg.uuid5, c), Poll(cfg, sh, first);
            SentFor(Poll(cfg, sh', second).sends, |sh'.sends|, key, id) <==> Succeeded(sh, sh')
  {
    NextCycleSends(cfg, sh, first, q, second, c, visits, j);
  }

  /* ----- a finding set that is emitted twice ----- */

  const REPO := Repo("owner", "repo", "main", "")
  const FOUND := Visit(REPO, false, GoMod(true), Verdict(Granted), Scanned("sha", ["GO-1-2"]), true)
  const LIMITED := Visit(Repo("owner", "other", "main", ""), false, GoModLimited, Verdict(Granted), Scanned("", []), true)
  const SAVE_OK := SaveAnswer(WriteOk, true, true)
  const FIRST := Call(false, Answers(false, true, Listed([FOUND, LIMITED]), SAVE_OK))
  const SECOND := Call(false, Answers(false, true, Listed([FOUND]), SAVE_OK))

  function FirstBoot(): Shared {
    Shared(Disk(Missing, Missing, Missing), [], NO_METRICS)
  }

  /** A first cycle sends for one repo and is then rate-limited; the second, not forced
      either, sends the same command again, successfully both times. */
  lemma EmittedTwice(cfg: Config)
    requires GoodConfig(cfg) && cfg.allowed(Key(REPO))
    ensures var sh1 := Poll(cfg, FirstBoot(), FIRST);
            var sh2 := Poll(cfg, sh1, SECOND);
            && !FIRST.force && !SECOND.force
            && |sh1.sends| == 1 && sh2.sends == sh1.sends + sh1.sends && sh1.sends[0].ok
            && sh1.metrics.pollCycle == multiset{"rate_limited"}
            && sh2.metrics.pollCycle == multiset{"rate_limited", "success"}
  {
    var c := Candidate(REPO, "sha", true, Granted, ["GO-1-2"]);
    assert Finding(cfg, FOUND) == Some(c);
    var sh := FirstBoot();
    var w := WalkStart(sh, map[], [FOUND, LIMITED]);
    var e := Effect(cfg, false, w, FOUND);
    assert [FOUND, LIMITED][1..] == [LIMITED];
    assert WalkFrom(cfg, false, [FOUND, LIMITED], w) == (e, "rate_limited");
    var sh1 := Poll(cfg, sh, FIRST);
    assert sh1 == Counted(Shared(sh.disk, e.sends, e.metrics), "rate_limited");
    var w1 := WalkStart(sh1, map[], [FOUND]);
    var e1 := Effect(cfg, false, w1, FOUND);
    assert WalkFrom(cfg, false, [FOUND], w1) == (e1, "");
    assert e1.sends == e.sends + e.sends;
  }
}
