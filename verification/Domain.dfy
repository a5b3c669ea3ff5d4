/** Values the poll cycle works on: repos, candidates, the filter chain, the emitted
    command and the counters. */
module Domain {
  import opened StringOrder
  import opened Markers
  import opened Scanner
  import opened TaskId

  datatype Repo = Repo(owner: string, name: string, defaultBranch: string, cloneURL: string)

  function Key(r: Repo): string {
    "github.com/" + r.owner + "/" + r.name
  }

  datatype Consent = Granted | Refused | Undecided

  datatype Candidate = Candidate(repo: Repo, headSHA: string, goModPresent: bool, consent: Consent, vulnIDs: seq<string>)

  /** "" until the findings are known. */
  function TaskIdentifier(uuid5: string -> string, c: Candidate): string {
    if c.vulnIDs == [] then "" else DeriveVulnTaskID(uuid5, c.repo.owner, c.repo.name, c.vulnIDs)
  }

  datatype FilterCandidate = FilterCandidate(repoKey: string, headSHA: string, goModPresent: bool, consent: Consent, taskIdentifier: string)

  function ForFilter(uuid5: string -> string, c: Candidate): FilterCandidate {
    FilterCandidate(Key(c.repo), c.headSHA, c.goModPresent, c.consent, TaskIdentifier(uuid5, c))
  }

  /* ----- the filter chain ----- */

  /** A filter answers with the reason to skip, or "". */
  type Filter = FilterCandidate -> string

  /** The first non-empty reason, in list order. */
  method SkipReason(filters: seq<Filter>, c: FilterCandidate) returns (reason: string)
    ensures reason == "" <==> forall k :: 0 <= k < |filters| ==> filters[k](c) == ""
    ensures reason != "" ==> exists k :: 0 <= k < |filters| && filters[k](c) == reason && forall l :: 0 <= l < k ==> filters[l](c) == ""
  {
    for k := 0 to |filters|
      invariant forall l :: 0 <= l < k ==> filters[l](c) == ""
    {
      reason := filters[k](c);
      if reason != "" { return; }
    }
    reason := "";
  }

  /** The pre-scan chain in its frozen order: allowlist, consent, go.mod. */
  function StaticFilters(allowed: string -> bool): seq<Filter> {
    [ (c: FilterCandidate) => if allowed(c.repoKey) then "" else "scope",
      (c: FilterCandidate) => if c.consent == Granted then "" else "auto_update_disabled",
      (c: FilterCandidate) => if c.goModPresent then "" else "no_gomod" ]
  }

  /** What the pre-scan chain decides. */
  function StaticReason(allowed: string -> bool, c: FilterCandidate): string {
    if !allowed(c.repoKey) then "scope"
    else if c.consent != Granted then "auto_update_disabled"
    else if !c.goModPresent then "no_gomod"
    else ""
  }

  /** The chain's answer is the decision above. */
  lemma StaticChain(allowed: string -> bool, c: FilterCandidate, reason: string)
    requires var fs := StaticFilters(allowed);
             (reason == "" <==> forall k :: 0 <= k < |fs| ==> fs[k](c) == "")
    requires var fs := StaticFilters(allowed);
             reason != "" ==> exists k :: 0 <= k < |fs| && fs[k](c) == reason && forall l :: 0 <= l < k ==> fs[l](c) == ""
    ensures reason == StaticReason(allowed, c)
  {
    var fs := StaticFilters(allowed);
    assert fs[0](c) == "" && fs[1](c) == "" && fs[2](c) == "" <==> StaticReason(allowed, c) == "";
  }

  function ClassifyScanError(err: ScanError): string {
    match err
    case CloneError => "clone_failed"
    case TimeoutError => "gate_timeout"
    case _ => "scan_failed"
  }

  /* ----- the emitted command ----- */

  datatype CreateCommand = CreateCommand(taskIdentifier: string, repo: string, ref: string, vulnCount: nat, vulns: seq<string>)

  function BuildCreateCommand(uuid5: string -> string, c: Candidate): CreateCommand {
    CreateCommand(DeriveVulnTaskID(uuid5, c.repo.owner, c.repo.name, c.vulnIDs),
                  c.repo.owner + "/" + c.repo.name, c.headSHA, |c.vulnIDs|, c.vulnIDs)
  }

  /** For a candidate whose findings were extracted from some gate output, the
      payload list is exactly the list the identifier is hashed from, and the count
      is the size of the finding set; the command names the repo that the cursor key
      names, at the scanned commit. */
  lemma CommandDescribesOneSet(uuid5: string -> string, c: Candidate, text: string)
    requires c.vulnIDs != [] && Ascending(c.vulnIDs) && forall m :: m in c.vulnIDs <==> Contains(text, m)
    ensures var cmd := BuildCreateCommand(uuid5, c);
            && cmd.taskIdentifier == TaskIdentifier(uuid5, c)
            && Canonical(cmd.vulns) == cmd.vulns
            && cmd.vulnCount == |Elements(cmd.vulns)|
            && cmd.ref == c.headSHA && "github.com/" + cmd.repo == Key(c.repo)
            && cmd.taskIdentifier == uuid5("vuln-drift-" + (c.repo.owner + "-" + c.repo.name + "-" + Join(cmd.vulns, ",")))
  {
    ExtractedListIsHashedList(text, c.vulnIDs);
  }

  /* ----- counters ----- */

  /** Label counters as multisets of labels. `dropLines` counts the always-on
      "repo dropped from cycle" log lines; a drop bumps no counter. */
  datatype Metrics = Metrics(pollCycle: multiset<string>, published: multiset<string>, filterSkipped: multiset<string>,
                             reposScanned: nat, vulnsDetected: nat, dropLines: nat)

  const NO_METRICS := Metrics(multiset{}, multiset{}, multiset{}, 0, 0, 0)

  const POLL_CYCLE_RESULTS := {"success", "rate_limited", "github_error", "scan_error"}
  const PUBLISH_STATUSES := {"create", "error"}
  const FILTER_SKIP_REASONS := {"scope", "auto_update_disabled", "no_gomod", "clone_failed", "gate_timeout",
                                "scan_failed", "already_clean", "finding_set_unchanged"}

  /** Every label counted so far lies in its closed set. */
  ghost predicate LabelsClosed(m: Metrics) {
    && (forall l :: l in m.pollCycle ==> l in POLL_CYCLE_RESULTS)
    && (forall l :: l in m.published ==> l in PUBLISH_STATUSES)
    && (forall l :: l in m.filterSkipped ==> l in FILTER_SKIP_REASONS)
  }
}
