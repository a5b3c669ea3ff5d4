/** The interval loop and any number of trigger requests, interleaved step by step
    over one disk, one topic and one slot. */
module Service {
  import opened Wrappers
  import opened Domain
  import opened CursorStore
  import opened PollSpec
  import opened Cycle
  import opened History
  import opened Laws

  /** `Entered`: holds the slot, cycle not yet begun. `Leaving`: its cycle is over,
      or could not be started; its release is still to come. */
  datatype Actor = Idle | Entered(call: Call) | Polling(call: Call, pc: Pc) | Leaving

  /** Actor 0 is the interval loop; every other number is one trigger request with
      its background cycle. `polls`: the calls of the cycles, in the order in which
      their actors acquired the slot. */
  datatype Service = Service(full: bool, actors: map<nat, Actor>, sh: Shared, polls: seq<Call>)

  const INTERVAL_LOOP: nat := 0

  function At(s: Service, a: nat): Actor {
    if a in s.actors then s.actors[a] else Idle
  }

  datatype Action =
    | Acquire(a: nat, call: Call)   // TryAcquire; a full slot turns the actor away
    | StartFails(a: nat)            // the background runner reports an error
    | StartPoll(a: nat)
    | PollStep(a: nat)
    | PanicIn(a: nat)               // the deferred release still runs
    | Release(a: nat)               // drains the slot, whoever holds it
    | CrashAll
    | ReplaceFile(file: File)

  /** The interval loop never forces. */
  function CallOf(a: nat, call: Call): Call {
    if a == INTERVAL_LOOP then call.(force := false) else call
  }

  function Act(cfg: Config, s: Service, act: Action): Service {
    match act
    case Acquire(a, call) =>
      if At(s, a).Idle? && !s.full then
        s.(full := true, actors := s.actors[a := Entered(CallOf(a, call))], polls := s.polls + [CallOf(a, call)])
      else s
    case StartFails(a) =>
      if At(s, a).Entered? && a != INTERVAL_LOOP && s.polls != [] then
        s.(actors := s.actors[a := Leaving], polls := s.polls[..|s.polls| - 1])
      else s
    case StartPoll(a) =>
      if At(s, a).Entered? then s.(actors := s.actors[a := Polling(At(s, a).call, AtLoad)]) else s
    case PollStep(a) =>
      if At(s, a).Polling? && !At(s, a).pc.Done? then
        var call := At(s, a).call;
        var (sh', pc') := Step(cfg, call, s.sh, At(s, a).pc);
        s.(sh := sh', actors := s.actors[a := if pc'.Done? then Leaving else Polling(call, pc')])
      else s
    case PanicIn(a) => if At(s, a).Polling? then s.(actors := s.actors[a := Leaving]) else s
    case Release(a) => if At(s, a).Leaving? then s.(full := false, actors := s.actors[a := Idle]) else s
    case CrashAll => s.(full := false, actors := map[], sh := s.sh.(metrics := NO_METRICS), polls := Settled(s))
    case ReplaceFile(file) => s.(sh := s.sh.(disk := s.sh.disk.(main := file)))
  }

  /** The cycles that were begun: a crash forgets one that was only acquired. */
  function Settled(s: Service): seq<Call> {
    if (exists a :: a in s.actors && s.actors[a].Entered?) && s.polls != [] then s.polls[..|s.polls| - 1] else s.polls
  }

  function RunAll(cfg: Config, s: Service, acts: seq<Action>): Service {
    if acts == [] then s else Act(cfg, RunAll(cfg, s, acts[..|acts| - 1]), acts[|acts| - 1])
  }

  function Boot(sh: Shared): Service {
    Service(false, map[], sh, [])
  }

  /* ----- mutual exclusion ----- */

  /** Between its acquire and its release. */
  predicate Holds(s: Service, a: nat) {
    !At(s, a).Idle?
  }

  /** `h` is the one actor that holds the slot, and the slot is full exactly when
      there is one. The slot itself does not know its holder. */
  ghost predicate HeldBy(s: Service, h: Option<nat>) {
    && s.full == h.Some?
    && forall a: nat :: At(s, a).Idle? <==> h != Some(a)
  }

  function NextHolder(s: Service, h: Option<nat>, act: Action): Option<nat> {
    match act
    case Acquire(a, _) => if At(s, a).Idle? && !s.full then Some(a) else h
    case Release(a) => if At(s, a).Leaving? then None else h
    case CrashAll => None
    case _ => h
  }

  lemma ActKeepsHolder(cfg: Config, s: Service, h: Option<nat>, act: Action)
    requires HeldBy(s, h)
    ensures HeldBy(Act(cfg, s, act), NextHolder(s, h, act))
  {
    var t := Act(cfg, s, act);
    match act
    case CrashAll => assert forall b: nat :: At(t, b).Idle?;
    case ReplaceFile(_) => assert forall b: nat :: At(t, b) == At(s, b);
    case _ => OthersUntouched(cfg, s, act, act.a);
  }

  lemma OthersUntouched(cfg: Config, s: Service, act: Action, a: nat)
    requires !act.CrashAll? && !act.ReplaceFile? && act.a == a
    ensures forall b: nat :: b != a ==> At(Act(cfg, s, act), b) == At(s, b)
  {}

  /** The slot is full exactly when one actor is between its acquire and its release;
      an actor about to release is that actor, so it gives back its own slot. */
  ghost predicate SlotOwned(s: Service) {
    && (s.full <==> exists a: nat :: Holds(s, a))
    && (forall a: nat, b: nat :: Holds(s, a) && Holds(s, b) ==> a == b)
    && (forall a: nat :: At(s, a).Leaving? ==> s.full && Holds(s, a))
  }

  lemma HeldByOwns(s: Service, h: Option<nat>)
    requires HeldBy(s, h)
    ensures SlotOwned(s)
  {
    forall a: nat ensures Holds(s, a) <==> h == Some(a) {}
    if s.full { assert Holds(s, h.value); }
  }

  /** The slot is owned in every reachable state. */
  lemma {:induction false} SlotAfterRun(cfg: Config, sh: Shared, acts: seq<Action>)
    ensures exists h :: HeldBy(RunAll(cfg, Boot(sh), acts), h)
    ensures SlotOwned(RunAll(cfg, Boot(sh), acts))
  {
    if acts == [] {
      assert HeldBy(RunAll(cfg, Boot(sh), acts), None);
    } else {
      var front := RunAll(cfg, Boot(sh), acts[..|acts| - 1]);
      SlotAfterRun(cfg, sh, acts[..|acts| - 1]);
      var h :| HeldBy(front, h);
      ActKeepsHolder(cfg, front, h, acts[|acts| - 1]);
    }
    var h :| HeldBy(RunAll(cfg, Boot(sh), acts), h);
    HeldByOwns(RunAll(cfg, Boot(sh), acts), h);
  }

  /* ----- one cycle after another ----- */

  /** What an action means for the sequential machine. */
  function EventOf(s: Service, act: Action): seq<Event> {
    match act
    case StartPoll(a) => if At(s, a).Entered? then [Begin(At(s, a).call)] else []
    case PollStep(a) => if At(s, a).Polling? && !At(s, a).pc.Done? then [Tick] else []
    case PanicIn(a) => if At(s, a).Polling? then [Panic] else []
    case CrashAll => [Crash]
    case ReplaceFile(file) => [Event.Replace(file)]
    case _ => []
  }

  function Trace(cfg: Config, s: Service, acts: seq<Action>): seq<Event> {
    if acts == [] then []
    else
      var front := acts[..|acts| - 1];
      Trace(cfg, s, front) + EventOf(RunAll(cfg, s, front), acts[|acts| - 1])
  }

  /** The calls a trace begins, in order. */
  function Begins(evs: seq<Event>): seq<Call> {
    if evs == [] then []
    else Begins(evs[..|evs| - 1]) + if evs[|evs| - 1].Begin? then [evs[|evs| - 1].call] else []
  }

  /** The service is in the state of the sequential machine `m`, which has begun
      exactly the cycles `begun`; only the holder of the slot can be in a cycle. */
  ghost predicate Mirrors(s: Service, h: Option<nat>, m: Machine, begun: seq<Call>) {
    && HeldBy(s, h)
    && s.sh == m.sh
    && match (if h.None? then Idle else At(s, h.value))
       case Entered(call) => m.cycle.None? && s.polls == begun + [call]
       case Polling(call, pc) => !pc.Done? && m.cycle == Some(Running(call, pc)) && s.polls == begun
       case _ => m.cycle.None? && s.polls == begun
  }

  lemma ActMirrors(cfg: Config, s: Service, h: Option<nat>, m: Machine, begun: seq<Call>, act: Action)
    requires Mirrors(s, h, m, begun)
    ensures var evs, t, h' := EventOf(s, act), Act(cfg, s, act), NextHolder(s, h, act);
            if evs == [] then Mirrors(t, h', m, begun)
            else Mirrors(t, h', Next(cfg, m, evs[0]), begun + Begins(evs)) && (evs[0].Begin? ==> m.cycle.None?)
  {
    ActKeepsHolder(cfg, s, h, act);
    var t, evs := Act(cfg, s, act), EventOf(s, act);
    if evs != [] {
      assert evs[..0] == [];
      if !evs[0].Begin? { assert begun + Begins(evs) == begun; }
    }
    if h.Some? && At(s, h.value).Entered? {
      assert s.polls[..|s.polls| - 1] == begun;
      if act.CrashAll? {
        assert h.value in s.actors && s.actors[h.value].Entered?;
      }
    } else if act.CrashAll? {
      forall a | a in s.actors ensures !s.actors[a].Entered? {
        assert At(s, a) == s.actors[a];
        assert At(s, a).Entered? ==> Holds(s, a);
      }
    }
    if !act.CrashAll? && !act.ReplaceFile? {
      assert h.Some? && h.value != act.a ==> At(s, act.a).Idle?;
    }
  }

  lemma RunSnocs(cfg: Config, st: State, evs: seq<Event>, more: seq<Event>)
    requires |more| <= 1
    ensures Run(cfg, st, evs + more) == if more == [] then Run(cfg, st, evs) else Advance(cfg, Run(cfg, st, evs), more[0])
    ensures Begins(evs + more) == Begins(evs) + Begins(more)
  {
    if more == [] {
      assert evs + more == evs;
    } else {
      assert (evs + more)[..|evs|] == evs;
      assert more[..0] == [];
    }
  }

  /** One action against the sequential machine that has run `evs`. */
  lemma SerialStep(cfg: Config, st: State, s: Service, h: Option<nat>, evs: seq<Event>, act: Action)
    requires Mirrors(s, h, Run(cfg, st, evs).m, Begins(evs))
    ensures var evs' := evs + EventOf(s, act);
            Mirrors(Act(cfg, s, act), NextHolder(s, h, act), Run(cfg, st, evs').m, Begins(evs'))
  {
    var more := EventOf(s, act);
    ActMirrors(cfg, s, h, Run(cfg, st, evs).m, Begins(evs), act);
    RunSnocs(cfg, st, evs, more);
    if more == [] { assert evs + more == evs; }
  }

  /** Disk, topic and counters are those of the sequential machine after `evs`. */
  ghost predicate IsSerial(s: Service, st: State, cfg: Config, evs: seq<Event>) {
    exists h :: Mirrors(s, h, Run(cfg, st, evs).m, Begins(evs))
  }

  /** Serialisability, crashes and all: however the actors interleave, disk, topic
      and counters are those of a machine that runs the same cycles strictly one
      after another, in the order in which the slot was acquired. */
  lemma {:induction false} ServiceIsSerial(cfg: Config, disk: Disk, acts: seq<Action>)
    ensures var st := Start(cfg, disk);
            IsSerial(RunAll(cfg, Boot(st.m.sh), acts), st, cfg, Trace(cfg, Boot(st.m.sh), acts))
  {
    var st := Start(cfg, disk);
    var b := Boot(st.m.sh);
    if acts == [] {
      assert Run(cfg, st, []) == st && Begins([]) == [];
      assert Mirrors(b, None, Run(cfg, st, []).m, Begins([]));
    } else {
      var front, act := acts[..|acts| - 1], acts[|acts| - 1];
      ServiceIsSerial(cfg, disk, front);
      var s, evs := RunAll(cfg, b, front), Trace(cfg, b, front);
      var h :| Mirrors(s, h, Run(cfg, st, evs).m, Begins(evs));
      SerialStep(cfg, st, s, h, evs, act);
    }
  }

  /* ----- without crash, panic or outside hands: plain `Poll` calls ----- */

  function PollAll(cfg: Config, sh: Shared, calls: seq<Call>): Shared {
    if calls == [] then sh else Poll(cfg, PollAll(cfg, sh, calls[..|calls| - 1]), calls[|calls| - 1])
  }

  predicate Smooth(acts: seq<Action>) {
    forall i :: 0 <= i < |acts| ==> !acts[i].CrashAll? && !acts[i].PanicIn? && !acts[i].ReplaceFile?
  }

  /** Where the service is on its way through `PollAll`. */
  ghost predicate OnTheWay(cfg: Config, sh0: Shared, s: Service, h: Option<nat>) {
    && HeldBy(s, h)
    && match (if h.None? then Idle else At(s, h.value))
       case Entered(call) =>
         s.polls != [] && s.polls[|s.polls| - 1] == call && s.sh == PollAll(cfg, sh0, s.polls[..|s.polls| - 1])
       case Polling(call, pc) => !pc.Done? && Finish(cfg, call, s.sh, pc) == PollAll(cfg, sh0, s.polls)
       case _ => s.sh == PollAll(cfg, sh0, s.polls)
  }

  lemma ActOnTheWay(cfg: Config, sh0: Shared, s: Service, h: Option<nat>, act: Action)
    requires OnTheWay(cfg, sh0, s, h) && !act.CrashAll? && !act.PanicIn? && !act.ReplaceFile?
    ensures OnTheWay(cfg, sh0, Act(cfg, s, act), NextHolder(s, h, act))
  {
    ActKeepsHolder(cfg, s, h, act);
    var t, a := Act(cfg, s, act), act.a;
    if h.Some? && h.value != a {
      assert At(s, a).Idle?;
    } else {
      match act
      case Acquire(_, call) => assert t != s ==> t.polls[..|s.polls|] == s.polls;
      case StartPoll(_) => if At(s, a).Entered? { StepsMakePoll(cfg, At(s, a).call, s.sh); }
      case PollStep(_) => if At(s, a).Polling? { FinishStep(cfg, At(s, a).call, s.sh, At(s, a).pc); }
      case _ =>
    }
  }

  lemma FinishStep(cfg: Config, call: Call, sh: Shared, pc: Pc)
    requires !pc.Done?
    ensures var (sh', pc') := Step(cfg, call, sh, pc);
            Finish(cfg, call, sh, pc) == if pc'.Done? then sh' else Finish(cfg, call, sh', pc')
  {}

  /** Smooth runs: whenever nobody holds the slot, file, topic and counters are
      exactly those of the same `Poll` calls made one after another in acquisition
      order; a cycle that is under way will complete that sequence. */
  lemma {:induction false} SmoothRunIsPollAll(cfg: Config, sh: Shared, acts: seq<Action>)
    requires Smooth(acts)
    ensures var s := RunAll(cfg, Boot(sh), acts);
            && (exists h :: OnTheWay(cfg, sh, s, h))
            && (!s.full ==> s.sh == PollAll(cfg, sh, s.polls))
  {
    if acts == [] {
      assert RunAll(cfg, Boot(sh), acts) == Boot(sh);
      assert OnTheWay(cfg, sh, Boot(sh), None);
    } else {
      var front := acts[..|acts| - 1];
      SmoothRunIsPollAll(cfg, sh, front);
      var h :| OnTheWay(cfg, sh, RunAll(cfg, Boot(sh), front), h);
      assert Smooth(front);
      ActOnTheWay(cfg, sh, RunAll(cfg, Boot(sh), front), h, acts[|acts| - 1]);
      assert RunAll(cfg, Boot(sh), acts) == Act(cfg, RunAll(cfg, Boot(sh), front), acts[|acts| - 1]);
    }
  }

  function HandledInAll(calls: seq<Call>): nat {
    if calls == [] then 0 else HandledInAll(calls[..|calls| - 1]) + HandledIn(calls[|calls| - 1])
  }

  function DetectedInAll(cfg: Config, calls: seq<Call>): nat {
    if calls == [] then 0 else DetectedInAll(cfg, calls[..|calls| - 1]) + DetectedIn(cfg, calls[|calls| - 1])
  }

  /** Conservation over a whole run: one result per cycle; every handled repo
      accounted for once; publishes counted are the sends made; every label ever
      counted lies in its closed set. */
  lemma {:induction false} PollAllCounts(cfg: Config, disk: Disk, calls: seq<Call>)
    ensures var sh := PollAll(cfg, Shared(disk, [], NO_METRICS), calls);
            && |sh.metrics.pollCycle| == |calls|
            && Accounted(sh.metrics) == HandledInAll(calls)
            && sh.metrics.vulnsDetected == DetectedInAll(cfg, calls)
            && PublishesMatch(sh.sends, sh.metrics)
            && LabelsClosed(sh.metrics)
  {
    if calls != [] {
      var front := calls[..|calls| - 1];
      PollAllCounts(cfg, disk, front);
      PollConserves(cfg, PollAll(cfg, Shared(disk, [], NO_METRICS), front), calls[|calls| - 1]);
    }
  }

  /** The cursor file of the concurrent service: the fold of the sends of the saved
      cycles since the file was last lost, after any interleaving. */
  lemma ServiceFile(cfg: Config, disk: Disk, acts: seq<Action>)
    requires GoodConfig(cfg)
    ensures var s := RunAll(cfg, Boot(Start(cfg, disk).m.sh), acts);
            var h := Run(cfg, Start(cfg, disk), Trace(cfg, Boot(Start(cfg, disk).m.sh), acts)).h;
            && FileEntries(cfg.codec, s.sh.disk.main) == Fold(h.base, h.log, Kept(h.saved, h.mark))
            && |h.log| == |s.sh.sends| && forall i :: 0 <= i < |h.log| ==> h.log[i].send == s.sh.sends[i]
  {
    ServiceIsSerial(cfg, disk, acts);
    var st := Start(cfg, disk);
    var h :| Mirrors(RunAll(cfg, Boot(st.m.sh), acts), h, Run(cfg, st, Trace(cfg, Boot(st.m.sh), acts)).m,
                     Begins(Trace(cfg, Boot(st.m.sh), acts)));
    RunKeeps(cfg, disk, Trace(cfg, Boot(Start(cfg, disk).m.sh), acts));
  }
}
