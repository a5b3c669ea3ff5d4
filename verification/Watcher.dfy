/** The poll cycle in the source's own form: objects updated in place, loops over
    the listing, and a dedup filter that reads the cursor while it changes. */
module Watchers {
  import opened Domain
  import opened CursorStore
  import opened PollSpec

  class Registry {
    var m: Metrics

    constructor ()
      ensures m == NO_METRICS
    {
      m := NO_METRICS;
    }

    method IncPollCycle(result: string)
      modifies this
      ensures m == old(m).(pollCycle := old(m).pollCycle + multiset{result})
    {
      m := m.(pollCycle := m.pollCycle + multiset{result});
    }

    method IncPublished(status: string)
      modifies this
      ensures m == old(m).(published := old(m).published + multiset{status})
    {
      m := m.(published := m.published + multiset{status});
    }

    method IncFilterSkipped(reason: string)
      modifies this
      ensures m == old(m).(filterSkipped := old(m).filterSkipped + multiset{reason})
    {
      m := m.(filterSkipped := m.filterSkipped + multiset{reason});
    }

    method IncReposScanned(n: nat)
      modifies this
      ensures m == old(m).(reposScanned := old(m).reposScanned + n)
    {
      m := m.(reposScanned := m.reposScanned + n);
    }

    method IncVulnsDetected(n: nat)
      modifies this
      ensures m == old(m).(vulnsDetected := old(m).vulnsDetected + n)
    {
      m := m.(vulnsDetected := m.vulnsDetected + n);
    }

    method LogDrop()
      modifies this
      ensures m == old(m).(dropLines := old(m).dropLines + 1)
    {
      m := m.(dropLines := m.dropLines + 1);
    }
  }

  /** The command topic: every attempted send, in order. */
  class Topic {
    var sends: seq<Send>

    constructor ()
      ensures sends == []
    {
      sends := [];
    }
  }

  /** `NewFindingSetUnchangedFilter` over a live cursor view. */
  class FindingSetUnchangedFilter {
    const cursor: CursorReader

    constructor (cursor: CursorReader)
      ensures this.cursor == cursor
    {
      this.cursor := cursor;
    }

    function Skip(c: FilterCandidate): (reason: string)
      reads cursor.c
      ensures reason == "finding_set_unchanged" <==>
              c.taskIdentifier != "" && c.taskIdentifier == Lookup(cursor.c.repos, c.repoKey)
      ensures reason == "" || reason == "finding_set_unchanged"
    {
      if c.taskIdentifier != "" && c.taskIdentifier == cursor.LastEmittedTaskIdentifier(c.repoKey)
      then "finding_set_unchanged"
      else ""
    }
  }

  class TaskPublisher {
    const cfg: Config
    const topic: Topic
    const metrics: Registry

    constructor (cfg: Config, topic: Topic, metrics: Registry)
      ensures this.cfg == cfg && this.topic == topic && this.metrics == metrics
    {
      this.cfg, this.topic, this.metrics := cfg, topic, metrics;
    }

    /** True exactly when the send succeeded; either way one send and one count. */
    method PublishCreate(c: Candidate, sendOk: bool) returns (ok: bool)
      modifies topic, metrics
      ensures ok == sendOk
      ensures topic.sends == old(topic.sends) + [Send(c.repo, BuildCreateCommand(cfg.uuid5, c), sendOk)]
      ensures metrics.m == Published(old(metrics.m), sendOk)
    {
      var cmd := BuildCreateCommand(cfg.uuid5, c);
      topic.sends := topic.sends + [Send(c.repo, cmd, sendOk)];
      if !sendOk {
        metrics.IncPublished("error");
        return false;
      }
      metrics.IncPublished("create");
      return true;
    }
  }

  class Watcher {
    const cfg: Config
    const fs: FileSystem
    const topic: Topic
    const metrics: Registry
    const publisher: TaskPublisher

    constructor (cfg: Config, fs: FileSystem, topic: Topic, metrics: Registry)
      ensures this.cfg == cfg && this.fs == fs && this.topic == topic && this.metrics == metrics && Wired()
    {
      this.cfg, this.fs, this.topic, this.metrics := cfg, fs, topic, metrics;
      publisher := new TaskPublisher(cfg, topic, metrics);
    }

    ghost predicate Wired() {
      publisher.cfg == cfg && publisher.topic == topic && publisher.metrics == metrics
    }

    /** Everything a cycle shares with the rest of the world. */
    ghost function World(): Shared
      reads fs, topic, metrics
    {
      Shared(fs.disk, topic.sends, metrics.m)
    }

    ghost function WalkState(cursor: Cursor): Walk
      reads cursor, topic, metrics
    {
      Walk(cursor.repos, topic.sends, metrics.m)
    }

    /** One repo that neither stops the walk nor is dropped. `dedup` holds the
        finding-set filter, or nothing on a forced cycle. */
    method VisitRepo(cursor: Cursor, v: Visit, dedup: seq<FindingSetUnchangedFilter>)
      requires Wired() && Stops(v).None? && !Dropped(v)
      requires |dedup| <= 1 && forall f :: f in dedup ==> f.cursor.c == cursor
      modifies cursor, topic, metrics
      ensures WalkState(cursor) == Effect(cfg, dedup == [], old(WalkState(cursor)), v)
    {
      var candidate := Gathered(v);
      var forFilter := ForFilter(cfg.uuid5, candidate);
      var reason := SkipReason(StaticFilters(cfg.allowed), forFilter);
      StaticChain(cfg.allowed, forFilter, reason);
      if reason != "" {
        metrics.IncFilterSkipped(reason);
        return;
      }
      if v.scan.Failed? {
        metrics.IncFilterSkipped(ClassifyScanError(v.scan.err));
        return;
      }
      if |v.scan.vulnIDs| == 0 {
        metrics.IncFilterSkipped("already_clean");
        return;
      }
      candidate := candidate.(headSHA := v.scan.headSHA, vulnIDs := v.scan.vulnIDs);
      EmitFinding(cursor, candidate, dedup, v.sendOk);
    }

    method EmitFinding(cursor: Cursor, candidate: Candidate, dedup: seq<FindingSetUnchangedFilter>, sendOk: bool)
      requires Wired()
      requires |dedup| <= 1 && forall f :: f in dedup ==> f.cursor.c == cursor
      modifies cursor, topic, metrics
      ensures WalkState(cursor) == Emit(cfg, dedup == [], old(WalkState(cursor)), candidate, sendOk)
    {
      metrics.IncVulnsDetected(|candidate.vulnIDs|);
      var reason := "";
      if |dedup| == 1 {
        reason := dedup[0].Skip(ForFilter(cfg.uuid5, candidate));
      }
      if reason != "" {
        metrics.IncFilterSkipped(reason);
        return;
      }
      var ok := publisher.PublishCreate(candidate, sendOk);
      if ok {
        cursor.repos := cursor.repos[Key(candidate.repo) := RepoState(TaskIdentifier(cfg.uuid5, candidate))];
      }
    }

    method ProcessRepos(cursor: Cursor, visits: seq<Visit>, dedup: seq<FindingSetUnchangedFilter>) returns (abort: string)
      requires Wired()
      requires |dedup| <= 1 && forall f :: f in dedup ==> f.cursor.c == cursor
      modifies cursor, topic, metrics
      ensures (WalkState(cursor), abort) == WalkFrom(cfg, dedup == [], visits, old(WalkState(cursor)))
    {
      ghost var outcome := WalkFrom(cfg, dedup == [], visits, WalkState(cursor));
      for k := 0 to |visits|
        invariant WalkFrom(cfg, dedup == [], visits[k..], WalkState(cursor)) == outcome
      {
        var v := visits[k];
        assert visits[k..][0] == v && visits[k..][1..] == visits[k + 1..];
        if v.cancelled { return ""; }
        if v.goMod.GoModLimited? { return "rate_limited"; }
        if v.goMod.GoModBroken? { metrics.LogDrop(); continue; }
        if v.consent.ConsentLimited? { return "rate_limited"; }
        if v.consent.ConsentBroken? { metrics.LogDrop(); continue; }
        VisitRepo(cursor, v, dedup);
      }
      return "";
    }

    /** One cycle. It never fails towards its caller; what it did to the file, the
        topic and the counters is exactly `PollSpec.Poll`. */
    method Poll(call: Call)
      requires Wired()
      modifies fs, topic, metrics
      ensures World() == PollSpec.Poll(cfg, old(World()), call)
    {
      var cursor := LoadCursor(fs, cfg.codec, call.answers.readFault, call.answers.preserveOk);
      if cursor == null {
        metrics.IncPollCycle("scan_error");
        return;
      }
      ListAndProcess(cursor, call);
    }

    method ListAndProcess(cursor: Cursor, call: Call)
      requires Wired()
      modifies cursor, fs, topic, metrics
      ensures World() == Listing(cfg, old(World()), old(cursor.repos), call)
    {
      if call.answers.list.ListLimited? {
        metrics.IncPollCycle("rate_limited");
        return;
      }
      if call.answers.list.ListBroken? {
        metrics.IncPollCycle("github_error");
        return;
      }
      var visits := call.answers.list.visits;
      metrics.IncReposScanned(|visits|);
      var dedup: seq<FindingSetUnchangedFilter> := [];
      if !call.force {
        var reader := new CursorReader(cursor);
        var filter := new FindingSetUnchangedFilter(reader);
        dedup := [filter];
      }
      var abort := ProcessRepos(cursor, visits, dedup);
      SaveUnlessAborted(cursor, abort, call.answers.save);
    }

    method SaveUnlessAborted(cursor: Cursor, abort: string, save: SaveAnswer)
      modifies fs, metrics
      ensures World() == Conclude(cfg, old(fs.disk), old(WalkState(cursor)), abort, save)
    {
      if abort != "" {
        metrics.IncPollCycle(abort);
        return;
      }
      var ok := SaveCursor(fs, cfg.codec, cursor, save);
      if !ok {
        metrics.IncPollCycle("scan_error");
        return;
      }
      metrics.IncPollCycle("success");
    }
  }
}
