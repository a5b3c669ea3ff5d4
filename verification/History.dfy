/** Whole runs: cycles one after another, cut short by crashes and panics, and a
    cursor file that may be lost or replaced at any moment. History variables say
    which publishes the file stands for. */
module History {
  import opened Wrappers
  import opened Domain
  import opened CursorStore
  import opened PollSpec
  import opened Cycle
  import opened Laws

  datatype Running = Running(call: Call, pc: Pc)

  datatype Machine = Machine(sh: Shared, cycle: Option<Running>)

  /** `Crash` ends the process: memory and counters are gone, disk and topic stay.
      `Panic` ends the cycle only. `Replace` is anything outside the service that
      deletes, damages or overwrites the cursor file. */
  datatype Event = Begin(call: Call) | Tick | Crash | Panic | Replace(file: File)

  function Next(cfg: Config, m: Machine, ev: Event): Machine {
    match ev
    case Begin(call) => if m.cycle.None? then m.(cycle := Some(Running(call, AtLoad))) else m
    case Tick =>
      if m.cycle.None? || m.cycle.value.pc.Done? then m
      else
        var r := m.cycle.value;
        var (sh', pc') := Step(cfg, r.call, m.sh, r.pc);
        Machine(sh', if pc'.Done? then None else Some(Running(r.call, pc')))
    case Crash => Machine(m.sh.(metrics := NO_METRICS), None)
    case Panic => m.(cycle := None)
    case Replace(file) => m.(sh := m.sh.(disk := m.sh.disk.(main := file)))
  }

  /** A send, tagged with the number of its cycle. */
  datatype Logged = Logged(cycle: nat, send: Send)

  function KeyOf(l: Logged): string { Key(l.send.repo) }
  function IdOf(l: Logged): string { l.send.cmd.taskIdentifier }

  /** What a cycle knew when it loaded the cursor: `base` and `mark` of the file. */
  datatype Info = Info(force: bool, base: Entries, mark: nat)

  /** `saved`: cycles whose save succeeded. `base`: what the file stood for when it
      was last lost or replaced. `mark`: the first cycle whose load saw that file. */
  datatype Hist = Hist(log: seq<Logged>, saved: set<nat>, base: Entries, mark: nat, infos: seq<Info>)

  datatype State = State(m: Machine, h: Hist)

  function HistNext(cfg: Config, s: State, ev: Event): Hist {
    var m, h, c := s.m, s.h, |s.h.infos|;
    match ev
    case Begin(call) => if m.cycle.None? then h.(infos := h.infos + [Info(call.force, map[], 0)]) else h
    case Tick =>
      if m.cycle.None? || m.cycle.value.pc.Done? || c == 0 then h
      else
        var r := m.cycle.value;
        var (sh', pc') := Step(cfg, r.call, m.sh, r.pc);
        if pc'.AtList? then h.(infos := h.infos[c - 1 := Info(r.call.force, h.base, h.mark)])
        else if |sh'.sends| > |m.sh.sends| then h.(log := h.log + [Logged(c - 1, sh'.sends[|sh'.sends| - 1])])
        else if r.pc.AtRename? && r.call.answers.save.renameOk then
          h.(saved := h.saved + {c - 1}, base := h.infos[c - 1].base, mark := h.infos[c - 1].mark)
        else h
    case Crash => h
    case Panic => h
    case Replace(file) =>
      var first := if m.cycle.Some? && m.cycle.value.pc.AtLoad? && c > 0 then c - 1 else c;
      h.(base := FileEntries(cfg.codec, file), mark := first)
  }

  function Advance(cfg: Config, s: State, ev: Event): State {
    State(Next(cfg, s.m, ev), HistNext(cfg, s, ev))
  }

  function Run(cfg: Config, s: State, evs: seq<Event>): State {
    if evs == [] then s else Advance(cfg, Run(cfg, s, evs[..|evs| - 1]), evs[|evs| - 1])
  }

  /** The service comes up over some disk; nothing has been sent yet. */
  function Start(cfg: Config, disk: Disk): State {
    State(Machine(Shared(disk, [], NO_METRICS), None), Hist([], {}, FileEntries(cfg.codec, disk.main), 0, []))
  }

  /* ----- folding publishes ----- */

  predicate Counts(l: Logged, cycles: set<nat>) {
    l.send.ok && l.cycle in cycles
  }

  /** Last identifier per repo of the successful sends of the given cycles. */
  function Fold(base: Entries, log: seq<Logged>, cycles: set<nat>): Entries {
    if log == [] then base
    else
      var prev, l := Fold(base, log[..|log| - 1], cycles), log[|log| - 1];
      if Counts(l, cycles) then prev[KeyOf(l) := RepoState(IdOf(l))] else prev
  }

  /** Saved cycles since the file was last lost. */
  function Kept(saved: set<nat>, mark: nat): set<nat> {
    set c | c in saved && c >= mark
  }

  lemma {:induction false} FoldCongruent(base: Entries, log: seq<Logged>, s: set<nat>, t: set<nat>)
    requires forall l :: l in log ==> (l.cycle in s <==> l.cycle in t)
    ensures Fold(base, log, s) == Fold(base, log, t)
  {
    if log != [] {
      FoldCongruent(base, log[..|log| - 1], s, t);
      assert log[|log| - 1] in log;
    }
  }

  lemma {:induction false} FoldNothing(base: Entries, log: seq<Logged>, s: set<nat>)
    requires forall l :: l in log ==> l.cycle !in s
    ensures Fold(base, log, s) == base
  {
    if log != [] {
      FoldNothing(base, log[..|log| - 1], s);
      assert log[|log| - 1] in log;
    }
  }

  lemma FoldSnoc(base: Entries, log: seq<Logged>, l: Logged, s: set<nat>)
    ensures Fold(base, log + [l], s) ==
            if Counts(l, s) then Fold(base, log, s)[KeyOf(l) := RepoState(IdOf(l))] else Fold(base, log, s)
  {
    assert (log + [l])[..|log|] == log;
  }

  /* ----- the invariant ----- */

  /** The log is the topic, tagged with cycle numbers that never go back. */
  ghost predicate LogTagged(h: Hist, sends: seq<Send>) {
    && |h.log| == |sends|
    && (forall i :: 0 <= i < |h.log| ==> h.log[i].send == sends[i])
    && (forall l :: l in h.log ==> l.cycle < |h.infos|)
    && (forall i, j :: 0 <= i < j < |h.log| ==> h.log[i].cycle <= h.log[j].cycle)
  }

  ghost predicate Numbered(h: Hist) {
    && (forall c :: c in h.saved ==> c < |h.infos|)
    && h.mark <= |h.infos|
    && (forall c :: 0 <= c < |h.infos| ==> h.infos[c].mark <= c)
  }

  /** The file stands for the fold of the saved cycles since it was last lost. */
  ghost predicate FileIsFold(cfg: Config, h: Hist, main: File) {
    FileEntries(cfg.codec, main) == Fold(h.base, h.log, Kept(h.saved, h.mark))
  }

  /** The cycles whose publishes a cycle sees in its cursor: the kept ones and itself. */
  function Seen(h: Hist, c: nat): set<nat>
    requires c < |h.infos|
  {
    Kept(h.saved, h.infos[c].mark) + {c}
  }

  /** The cycle under way has the last number, and its memory is a fold. */
  ghost predicate CycleTracked(cfg: Config, h: Hist, disk: Disk, cycle: Option<Running>) {
    cycle.Some? ==>
      var r, c := cycle.value, |h.infos| - 1;
      && c >= 0 && c !in h.saved && !r.pc.Done?
      && h.infos[c].force == r.call.force
      && TmpAgrees(cfg, r.call, disk, r.pc)
      && (r.pc.AtLoad? ==> h.mark <= c && forall l :: l in h.log ==> l.cycle != c)
      && (!r.pc.AtLoad? ==> r.pc.entries == Fold(h.infos[c].base, h.log, Seen(h, c)))
  }

  /** Send `q` was not forced into repeating what its cycle's cursor recorded. */
  ghost predicate News(h: Hist, q: nat)
    requires q < |h.log|
  {
    var l := h.log[q];
    l.cycle < |h.infos| && !h.infos[l.cycle].force ==>
      IdOf(l) != Lookup(Fold(h.infos[l.cycle].base, h.log[..q], Seen(h, l.cycle)), KeyOf(l))
  }

  /** No non-forced cycle sent what its cursor already recorded. */
  ghost predicate NoIdleRepeat(h: Hist) {
    forall q: nat {:trigger News(h, q)} | q < |h.log| :: News(h, q)
  }

  ghost predicate Inv(cfg: Config, s: State) {
    && LogTagged(s.h, s.m.sh.sends)
    && Numbered(s.h)
    && FileIsFold(cfg, s.h, s.m.sh.disk.main)
    && CycleTracked(cfg, s.h, s.m.sh.disk, s.m.cycle)
    && NoIdleRepeat(s.h)
  }

  lemma InitInv(cfg: Config, disk: Disk)
    ensures Inv(cfg, Start(cfg, disk))
  {}

  /** Sends stay news as long as saved cycles and the infos of their cycles stay. */
  lemma NewsStays(h: Hist, h': Hist)
    requires NoIdleRepeat(h) && h'.saved == h.saved && h.log <= h'.log
    requires forall l :: l in h.log ==> l.cycle < |h.infos| && l.cycle < |h'.infos| && h'.infos[l.cycle] == h.infos[l.cycle]
    ensures forall q: nat {:trigger News(h', q)} | q < |h.log| :: News(h', q)
  {
    forall q: nat | q < |h.log| ensures News(h', q) {
      assert News(h, q);
      assert h.log[q] in h.log && h'.log[q] == h.log[q] && h'.log[..q] == h.log[..q];
    }
  }

  lemma BeginKeeps(cfg: Config, s: State, call: Call)
    requires Inv(cfg, s)
    ensures Inv(cfg, Advance(cfg, s, Begin(call)))
  {
    NewsStays(s.h, Advance(cfg, s, Begin(call)).h);
  }

  lemma ReplaceKeeps(cfg: Config, s: State, file: File)
    requires Inv(cfg, s)
    ensures Inv(cfg, Advance(cfg, s, Replace(file)))
  {
    var h := Advance(cfg, s, Replace(file)).h;
    FoldNothing(h.base, h.log, Kept(h.saved, h.mark)) by {
      forall l | l in h.log ensures l.cycle !in Kept(h.saved, h.mark) {
        assert l.cycle < |s.h.infos|;
      }
    }
    NewsStays(s.h, h);
  }

  lemma StopKeeps(cfg: Config, s: State, ev: Event)
    requires Inv(cfg, s) && (ev.Crash? || ev.Panic?)
    ensures Inv(cfg, Advance(cfg, s, ev))
  {}

  /** Loading: the file's history becomes the cycle's. */
  lemma LoadKeeps(cfg: Config, s: State)
    requires GoodConfig(cfg) && Inv(cfg, s) && s.m.cycle.Some? && s.m.cycle.value.pc.AtLoad?
    ensures Inv(cfg, Advance(cfg, s, Tick))
  {
    var h, c, call := s.h, |s.h.infos| - 1, s.m.cycle.value.call;
    var (disk, loaded) := Load(cfg.codec, s.m.sh.disk, call.answers.readFault, call.answers.preserveOk);
    LoadMeansFile(cfg.codec, s.m.sh.disk, call.answers.readFault, call.answers.preserveOk);
    match loaded
    case None =>
    case Some(entries) =>
      var h' := h.(infos := h.infos[c := Info(call.force, h.base, h.mark)]);
      assert Advance(cfg, s, Tick) == State(Machine(s.m.sh.(disk := disk), Some(Running(call, AtList(entries)))), h');
      FoldCongruent(h.base, h.log, Kept(h.saved, h.mark), Kept(h.saved, h.mark) + {c});
      assert Seen(h', c) == Kept(h.saved, h.mark) + {c};
      NewsStays(h, h');
  }

  /** A visit: one more send at most, under the current cycle's number. */
  lemma VisitKeeps(cfg: Config, s: State)
    requires GoodConfig(cfg) && Inv(cfg, s) && s.m.cycle.Some? && s.m.cycle.value.pc.AtVisit?
    ensures Inv(cfg, Advance(cfg, s, Tick))
  {
    var r := s.m.cycle.value;
    if r.pc.rest == [] || Stops(r.pc.rest[0]).Some? {
      StillKeeps(cfg, s, Advance(cfg, s, Tick));
    } else {
      HandledKeeps(cfg, s, r.pc.rest[0], r.pc.rest[1..]);
    }
  }

  lemma HandledKeeps(cfg: Config, s: State, v: Visit, rest: seq<Visit>)
    requires GoodConfig(cfg) && Inv(cfg, s) && s.m.cycle.Some? && s.m.cycle.value.pc.AtVisit?
    requires Stops(v).None? && s.m.cycle.value.pc.rest != [] && s.m.cycle.value.pc.rest[0] == v
    requires s.m.cycle.value.pc.rest[1..] == rest
    ensures Inv(cfg, Advance(cfg, s, Tick))
  {
    var r := s.m.cycle.value;
    var w := Walk(r.pc.entries, s.m.sh.sends, s.m.sh.metrics);
    var w' := Effect(cfg, r.call.force, w, v);
    EffectSendsOnce(cfg, r.call.force, w, v);
    var m' := Machine(Shared(s.m.sh.disk, w'.sends, w'.metrics), Some(Running(r.call, AtVisit(w'.entries, rest))));
    assert Next(cfg, s.m, Tick) == m';
    if w'.sends == w.sends && w'.entries == w.entries {
      assert Advance(cfg, s, Tick) == State(m', s.h);
      StillKeeps(cfg, s, State(m', s.h));
    } else {
      var send: Send :| SendsOne(w, w', r.call.force, send);
      assert Advance(cfg, s, Tick) == State(m', Sent(s.h, send));
      SendKeeps(cfg, s, send, w', rest);
    }
  }

  /** A step that leaves topic, file, history and in-memory cursor alone. */
  lemma StillKeeps(cfg: Config, s: State, t: State)
    requires Inv(cfg, s) && s.m.cycle.Some? && !s.m.cycle.value.pc.AtLoad?
    requires t.h == s.h && t.m.sh.sends == s.m.sh.sends && t.m.sh.disk.main == s.m.sh.disk.main
    requires t.m.cycle.Some? ==>
               var r, r' := s.m.cycle.value, t.m.cycle.value;
               && r'.call == r.call && !r'.pc.AtLoad? && !r'.pc.Done? && r'.pc.entries == r.pc.entries
               && TmpAgrees(cfg, r'.call, t.m.sh.disk, r'.pc)
    ensures Inv(cfg, t)
  {}

  /** The history after one more send of the current cycle. */
  function Sent(h: Hist, send: Send): Hist
    requires h.infos != []
  {
    h.(log := h.log + [Logged(|h.infos| - 1, send)])
  }

  lemma SendKeeps(cfg: Config, s: State, send: Send, w': Walk, rest: seq<Visit>)
    requires Inv(cfg, s) && s.m.cycle.Some? && s.m.cycle.value.pc.AtVisit?
    requires SendsOne(Walk(s.m.cycle.value.pc.entries, s.m.sh.sends, s.m.sh.metrics), w', s.m.cycle.value.call.force, send)
    ensures var m' := Machine(Shared(s.m.sh.disk, w'.sends, w'.metrics), Some(Running(s.m.cycle.value.call, AtVisit(w'.entries, rest))));
            Inv(cfg, State(m', Sent(s.h, send)))
  {
    var h, disk, r := s.h, s.m.sh.disk, s.m.cycle.value;
    assert CycleTracked(cfg, h, disk, Some(r));
    SendKeepsLog(h, s.m.sh.sends, send);
    SendKeepsFile(cfg, h, disk, r, send);
    SendKeepsMemory(cfg, h, disk, r, send, w'.entries, rest);
    SendKeepsNews(h, r, send);
  }

  lemma SendKeepsLog(h: Hist, sends: seq<Send>, send: Send)
    requires LogTagged(h, sends) && Numbered(h) && h.infos != []
    ensures LogTagged(Sent(h, send), sends + [send]) && Numbered(Sent(h, send))
  {
    var log' := Sent(h, send).log;
    forall x | x in log' ensures x.cycle < |h.infos| {
      if x != log'[|h.log|] { assert x in h.log; }
    }
    forall i, j | 0 <= i < j < |log'| ensures log'[i].cycle <= log'[j].cycle {
      assert log'[i] in h.log;
    }
  }

  /** The file does not move: the current cycle is not a saved one. */
  lemma SendKeepsFile(cfg: Config, h: Hist, disk: Disk, r: Running, send: Send)
    requires FileIsFold(cfg, h, disk.main) && CycleTracked(cfg, h, disk, Some(r))
    ensures FileIsFold(cfg, Sent(h, send), disk.main)
  {
    FoldSnoc(h.base, h.log, Logged(|h.infos| - 1, send), Kept(h.saved, h.mark));
  }

  /** The cycle's memory moves with its own send. */
  lemma SendKeepsMemory(cfg: Config, h: Hist, disk: Disk, r: Running, send: Send, entries: Entries, rest: seq<Visit>)
    requires CycleTracked(cfg, h, disk, Some(r)) && r.pc.AtVisit?
    requires entries == if send.ok then r.pc.entries[Key(send.repo) := RepoState(send.cmd.taskIdentifier)] else r.pc.entries
    ensures CycleTracked(cfg, Sent(h, send), disk, Some(Running(r.call, AtVisit(entries, rest))))
  {
    var c := |h.infos| - 1;
    FoldSnoc(h.infos[c].base, h.log, Logged(c, send), Seen(h, c));
    assert Seen(Sent(h, send), c) == Seen(h, c);
  }

  lemma SendKeepsNews(h: Hist, r: Running, send: Send)
    requires NoIdleRepeat(h) && h.infos != [] && forall l :: l in h.log ==> l.cycle < |h.infos|
    requires var c := |h.infos| - 1;
             && h.infos[c].force == r.call.force && r.pc.AtVisit?
             && r.pc.entries == Fold(h.infos[c].base, h.log, Seen(h, c))
    requires !r.call.force ==> send.cmd.taskIdentifier != Lookup(r.pc.entries, Key(send.repo))
    ensures NoIdleRepeat(Sent(h, send))
  {
    var h' := Sent(h, send);
    NewsStays(h, h');
    assert h'.log[..|h.log|] == h.log;
    assert Seen(h', |h.infos| - 1) == Seen(h, |h.infos| - 1);
    assert News(h', |h.log|);
  }

  /** The rename: the cycle's history becomes the file's. */
  lemma RenameKeeps(cfg: Config, s: State)
    requires GoodConfig(cfg) && Inv(cfg, s) && s.m.cycle.Some? && s.m.cycle.value.pc.AtRename?
    ensures Inv(cfg, Advance(cfg, s, Tick))
  {
    var t, c, r := Advance(cfg, s, Tick), |s.h.infos| - 1, s.m.cycle.value;
    if r.call.answers.save.renameOk {
      StepIsAtomic(cfg, r.call, s.m.sh, r.pc);
      assert Kept(t.h.saved, t.h.mark) == Seen(s.h, c);
      SavedKeepsNews(s.h, t.h, s.m.sh.sends, c);
    }
  }

  /** A finished save does not change what earlier sends were compared with. */
  lemma SavedKeepsNews(h: Hist, h': Hist, sends: seq<Send>, c: nat)
    requires LogTagged(h, sends) && NoIdleRepeat(h) && c == |h.infos| - 1
    requires h'.log == h.log && h'.infos == h.infos && h'.saved == h.saved + {c}
    ensures NoIdleRepeat(h')
  {
    forall q: nat | q < |h.log| ensures News(h', q) {
      assert News(h, q) && h.log[q] in h.log;
      var d := h.log[q].cycle;
      forall l | l in h.log[..q] ensures l.cycle in Seen(h, d) <==> l.cycle in Seen(h', d) {
        var i :| 0 <= i < q && h.log[i] == l;
        assert l.cycle <= d;
      }
      FoldCongruent(h.infos[d].base, h.log[..q], Seen(h, d), Seen(h', d));
    }
  }

  /** Every other step touches neither the topic nor what the file stands for. */
  lemma QuietKeeps(cfg: Config, s: State)
    requires GoodConfig(cfg) && Inv(cfg, s) && s.m.cycle.Some?
    requires IsQuiet(s.m.cycle.value.pc)
    ensures Inv(cfg, Advance(cfg, s, Tick))
  {
    var r := s.m.cycle.value;
    QuietStep(cfg, r.call, s.m.sh, r.pc);
    StillKeeps(cfg, s, Advance(cfg, s, Tick));
  }

  predicate IsQuiet(pc: Pc) {
    pc.AtList? || pc.AtOpen? || pc.AtWrite?
  }

  lemma QuietStep(cfg: Config, call: Call, sh: Shared, pc: Pc)
    requires IsQuiet(pc) && TmpAgrees(cfg, call, sh.disk, pc)
    ensures var (sh', pc') := Step(cfg, call, sh, pc);
            && sh'.sends == sh.sends && sh'.disk.main == sh.disk.main
            && !pc'.AtLoad? && !pc'.AtList? && (!pc'.Done? ==> pc'.entries == pc.entries)
            && TmpAgrees(cfg, call, sh'.disk, pc')
  {
    StepKeepsTmp(cfg, call, sh, pc);
  }

  lemma EventKeeps(cfg: Config, s: State, ev: Event)
    requires GoodConfig(cfg) && Inv(cfg, s)
    ensures Inv(cfg, Advance(cfg, s, ev))
  {
    match ev
    case Begin(call) => BeginKeeps(cfg, s, call);
    case Replace(file) => ReplaceKeeps(cfg, s, file);
    case Crash => StopKeeps(cfg, s, ev);
    case Panic => StopKeeps(cfg, s, ev);
    case Tick =>
      if s.m.cycle.Some? {
        match s.m.cycle.value.pc
        case AtLoad => LoadKeeps(cfg, s);
        case AtVisit(_, _) => VisitKeeps(cfg, s);
        case AtRename(_) => RenameKeeps(cfg, s);
        case _ => QuietKeeps(cfg, s);
      }
  }

  lemma {:induction false} RunKeeps(cfg: Config, disk: Disk, evs: seq<Event>)
    requires GoodConfig(cfg)
    ensures Inv(cfg, Run(cfg, Start(cfg, disk), evs))
  {
    if evs == [] {
      InitInv(cfg, disk);
    } else {
      RunKeeps(cfg, disk, evs[..|evs| - 1]);
      EventKeeps(cfg, Run(cfg, Start(cfg, disk), evs[..|evs| - 1]), evs[|evs| - 1]);
    }
  }
}
