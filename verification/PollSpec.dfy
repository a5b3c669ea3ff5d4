/** What one poll cycle does, as functions (pkg/watcher.go). The answers of GitHub,
    the scanner, the sender and the file system are an arbitrary record; whatever is
    proved for every record holds for every behaviour of the outside world. */
module PollSpec {
  import opened Wrappers
  import opened Scanner
  import opened Domain
  import opened CursorStore

  datatype Config = Config(uuid5: string -> string, allowed: string -> bool, codec: Codec)

  /** A UUID text is never empty, and the cursor codec is a round trip. */
  ghost predicate GoodConfig(cfg: Config) {
    RoundTrips(cfg.codec) && forall s :: cfg.uuid5(s) != ""
  }

  datatype GoModAnswer = GoModLimited | GoModBroken | GoMod(present: bool)
  datatype ConsentAnswer = ConsentLimited | ConsentBroken | Verdict(consent: Consent)

  /** One repo of the listing with everything the outside world answers about it. */
  datatype Visit = Visit(repo: Repo, cancelled: bool, goMod: GoModAnswer, consent: ConsentAnswer, scan: ScanOutcome, sendOk: bool)

  datatype ListAnswer = ListLimited | ListBroken | Listed(visits: seq<Visit>)

  datatype Answers = Answers(readFault: bool, preserveOk: bool, list: ListAnswer, save: SaveAnswer)

  datatype Call = Call(force: bool, answers: Answers)

  /** One attempted send. */
  datatype Send = Send(repo: Repo, cmd: CreateCommand, ok: bool)

  datatype Shared = Shared(disk: Disk, sends: seq<Send>, metrics: Metrics)

  /** State of the walk over the repos: in-memory cursor, sends, counters. */
  datatype Walk = Walk(entries: Entries, sends: seq<Send>, metrics: Metrics)

  /** Why the walk ends at this repo: "" for a cancelled context, "rate_limited". */
  function Stops(v: Visit): Option<string> {
    if v.cancelled then Some("")
    else if v.goMod.GoModLimited? then Some("rate_limited")
    else if v.goMod.GoMod? && v.consent.ConsentLimited? then Some("rate_limited")
    else None
  }

  predicate Dropped(v: Visit) {
    v.goMod.GoModBroken? || (v.goMod.GoMod? && v.consent.ConsentBroken?)
  }

  function Gathered(v: Visit): Candidate
    requires Stops(v).None? && !Dropped(v)
  {
    Candidate(v.repo, "", v.goMod.present, v.consent.consent, [])
  }

  /** The candidate after a scan that found something. */
  function Finding(cfg: Config, v: Visit): Option<Candidate>
    requires Stops(v).None?
  {
    if Dropped(v) || StaticReason(cfg.allowed, ForFilter(cfg.uuid5, Gathered(v))) != "" then None
    else match v.scan
      case Failed(_) => None
      case Scanned(head, ids) =>
        if ids == [] then None else Some(Gathered(v).(headSHA := head, vulnIDs := ids))
  }

  /** Reason to skip before there is a finding; "" when dropped or found. */
  function EarlySkip(cfg: Config, v: Visit): string
    requires Stops(v).None?
  {
    if Dropped(v) then ""
    else
      var reason := StaticReason(cfg.allowed, ForFilter(cfg.uuid5, Gathered(v)));
      if reason != "" then reason
      else match v.scan
        case Failed(err) => ClassifyScanError(err)
        case Scanned(_, ids) => if ids == [] then "already_clean" else ""
  }

  function Skipped(m: Metrics, reason: string): Metrics {
    m.(filterSkipped := m.filterSkipped + multiset{reason})
  }

  function Published(m: Metrics, ok: bool): Metrics {
    m.(published := m.published + multiset{if ok then "create" else "error"})
  }

  predicate Unchanged(force: bool, id: string, recorded: string) {
    !force && id != "" && id == recorded
  }

  /** A repo with findings: dedup, send, and record the identifier if it was sent. */
  function Emit(cfg: Config, force: bool, w: Walk, c: Candidate, sendOk: bool): Walk {
    var id, key := TaskIdentifier(cfg.uuid5, c), Key(c.repo);
    var m := w.metrics.(vulnsDetected := w.metrics.vulnsDetected + |c.vulnIDs|);
    if Unchanged(force, id, Lookup(w.entries, key)) then
      w.(metrics := Skipped(m, "finding_set_unchanged"))
    else
      Walk(if sendOk then w.entries[key := RepoState(id)] else w.entries,
           w.sends + [Send(c.repo, BuildCreateCommand(cfg.uuid5, c), sendOk)],
           Published(m, sendOk))
  }

  function Effect(cfg: Config, force: bool, w: Walk, v: Visit): Walk
    requires Stops(v).None?
  {
    match Finding(cfg, v)
    case Some(c) => Emit(cfg, force, w, c, v.sendOk)
    case None =>
      if Dropped(v) then w.(metrics := w.metrics.(dropLines := w.metrics.dropLines + 1))
      else w.(metrics := Skipped(w.metrics, EarlySkip(cfg, v)))
  }

  function WalkFrom(cfg: Config, force: bool, visits: seq<Visit>, w: Walk): (Walk, string) {
    if visits == [] then (w, "")
    else match Stops(visits[0])
      case Some(reason) => (w, reason)
      case None => WalkFrom(cfg, force, visits[1..], Effect(cfg, force, w, visits[0]))
  }

  function Counted(sh: Shared, result: string): Shared {
    sh.(metrics := sh.metrics.(pollCycle := sh.metrics.pollCycle + multiset{result}))
  }

  /** The state in which the walk starts, when the cycle gets that far. */
  function WalkStart(sh: Shared, entries: Entries, visits: seq<Visit>): Walk {
    Walk(entries, sh.sends, sh.metrics.(reposScanned := sh.metrics.reposScanned + |visits|))
  }

  /** The cycle from the end of the walk on. */
  function Conclude(cfg: Config, disk: Disk, w: Walk, reason: string, save: SaveAnswer): Shared {
    if reason != "" then Counted(Shared(disk, w.sends, w.metrics), reason)
    else
      var (disk', saved) := Save(cfg.codec, disk, w.entries, save);
      Counted(Shared(disk', w.sends, w.metrics), if saved then "success" else "scan_error")
  }

  /** The cycle from the listing on, with the cursor loaded. */
  function Listing(cfg: Config, sh: Shared, entries: Entries, call: Call): Shared {
    match call.answers.list
    case ListLimited => Counted(sh, "rate_limited")
    case ListBroken => Counted(sh, "github_error")
    case Listed(visits) =>
      var (w, reason) := WalkFrom(cfg, call.force, visits, WalkStart(sh, entries, visits));
      Conclude(cfg, sh.disk, w, reason, call.answers.save)
  }

  function Poll(cfg: Config, sh: Shared, call: Call): Shared {
    var (disk, loaded) := Load(cfg.codec, sh.disk, call.answers.readFault, call.answers.preserveOk);
    match loaded
    case None => Counted(sh.(disk := disk), "scan_error")
    case Some(entries) => Listing(cfg, sh.(disk := disk), entries, call)
  }
}
