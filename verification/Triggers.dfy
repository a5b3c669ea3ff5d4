/** Which cycles of the interleaved service are forced, and that a free slot lets a
    cycle run to its end. */
module Triggers {
  import opened Wrappers
  import opened CursorStore
  import opened PollSpec
  import opened Cycle
  import opened History
  import opened Runs
  import opened Service

  /* ----- whose call a cycle runs ----- */

  /** With action `n` actor `a` got the free slot, and has not given it back since. */
  predicate GotSlotAt(cfg: Config, sh: Shared, acts: seq<Action>, a: nat, n: nat) {
    && n < |acts| && acts[n].Acquire? && acts[n].a == a
    && !RunAll(cfg, Boot(sh), acts[..n]).full && At(RunAll(cfg, Boot(sh), acts[..n]), a).Idle?
    && forall m :: n < m <= |acts| ==> !At(RunAll(cfg, Boot(sh), acts[..m]), a).Idle?
  }

  lemma GotSlotStays(cfg: Config, sh: Shared, acts: seq<Action>, act: Action, a: nat, n: nat)
    requires GotSlotAt(cfg, sh, acts, a, n) && !At(RunAll(cfg, Boot(sh), acts + [act]), a).Idle?
    ensures GotSlotAt(cfg, sh, acts + [act], a, n)
  {
    var all := acts + [act];
    assert all[..|all|] == all;
    assert forall m :: 0 <= m <= |acts| ==> all[..m] == acts[..m];
  }

  /** The call is the one the actor acquired the slot for; the interval loop, actor 0,
      never forces, and a trigger request runs its own call unchanged. */
  predicate OwnCall(a: nat, call: Call, asked: Call) {
    if a == 0 then call.answers == asked.answers && !call.force else call == asked
  }

  /** In every reachable state the cycle an actor is about to run or is running is the
      one it got the slot for. */
  lemma {:induction false} CallOfActor(cfg: Config, sh: Shared, acts: seq<Action>, a: nat)
    ensures var x := At(RunAll(cfg, Boot(sh), acts), a);
            && (x.Entered? || x.Polling? ==> exists n: nat :: GotSlotAt(cfg, sh, acts, a, n) && OwnCall(a, x.call, acts[n].call))
            && (x.Entered? || x.Polling? ==> a == 0 ==> !x.call.force)
  {
    if acts != [] {
      var front, act := acts[..|acts| - 1], acts[|acts| - 1];
      CallOfActor(cfg, sh, front, a);
      var s, t := RunAll(cfg, Boot(sh), front), RunAll(cfg, Boot(sh), acts);
      assert acts == front + [act] && acts[..|acts|] == acts;
      var x := At(t, a);
      if x.Entered? || x.Polling? {
        if At(s, a).Idle? {
          assert act.Acquire? && act.a == a;
          assert GotSlotAt(cfg, sh, acts, a, |acts| - 1);
        } else {
          var n: nat :| GotSlotAt(cfg, sh, front, a, n) && OwnCall(a, At(s, a).call, front[n].call);
          GotSlotStays(cfg, sh, front, act, a, n);
          assert acts[n] == front[n];
        }
      }
    }
  }

  /** The cycles counted as run, in order, are those of the acquires `ns`, in order,
      each made on a free slot. */
  predicate AskedInOrder(cfg: Config, sh: Shared, acts: seq<Action>, polls: seq<Call>, ns: seq<nat>) {
    && |ns| == |polls|
    && (forall i :: 0 <= i < |ns| ==> AskedAt(cfg, sh, acts, polls[i], ns[i]))
    && forall i, j :: 0 <= i < j < |ns| ==> ns[i] < ns[j]
  }

  predicate AskedAt(cfg: Config, sh: Shared, acts: seq<Action>, call: Call, n: nat) {
    && n < |acts| && acts[n].Acquire? && OwnCall(acts[n].a, call, acts[n].call)
    && !RunAll(cfg, Boot(sh), acts[..n]).full
  }

  lemma AskedStays(cfg: Config, sh: Shared, acts: seq<Action>, act: Action, call: Call, n: nat)
    requires AskedAt(cfg, sh, acts, call, n)
    ensures AskedAt(cfg, sh, acts + [act], call, n)
  {
    assert (acts + [act])[..n] == acts[..n];
  }

  /** In every reachable state: the cycles run so far were asked for, one acquire each
      and in that order. */
  lemma {:induction false} PollsWereAsked(cfg: Config, sh: Shared, acts: seq<Action>) returns (ns: seq<nat>)
    ensures AskedInOrder(cfg, sh, acts, RunAll(cfg, Boot(sh), acts).polls, ns)
  {
    ns := [];
    if acts != [] {
      var front, act := acts[..|acts| - 1], acts[|acts| - 1];
      assert acts == front + [act];
      var before := PollsWereAsked(cfg, sh, front);
      var old', new' := RunAll(cfg, Boot(sh), front).polls, RunAll(cfg, Boot(sh), acts).polls;
      forall i | 0 <= i < |before| ensures AskedAt(cfg, sh, acts, old'[i], before[i]) {
        AskedStays(cfg, sh, front, act, old'[i], before[i]);
      }
      if |new'| > |old'| {
        ns := before + [|front|];
        assert AskedAt(cfg, sh, acts, new'[|old'|], |front|);
      } else {
        ns := before[..|new'|];
      }
    }
  }

  /* ----- only a trigger forces ----- */

  /** Action `n` is a trigger request that asks for a forced cycle. */
  predicate ForcedTrigger(acts: seq<Action>, n: nat) {
    n < |acts| && acts[n].Acquire? && acts[n].a != 0 && acts[n].call.force
  }

  predicate NoneForced(calls: seq<Call>) {
    forall c :: c in calls ==> !c.force
  }

  lemma NoForceHere(cfg: Config, sh: Shared, front: seq<Action>, act: Action)
    requires forall n: nat :: !ForcedTrigger(front, n)
    ensures NoneForced(Begins(EventOf(RunAll(cfg, Boot(sh), front), act)))
  {
    var s := RunAll(cfg, Boot(sh), front);
    var more := EventOf(s, act);
    if more != [] { assert more[..0] == []; }
    if act.StartPoll? && At(s, act.a).Entered? {
      CallOfActor(cfg, sh, front, act.a);
      var n: nat :| GotSlotAt(cfg, sh, front, act.a, n) && OwnCall(act.a, At(s, act.a).call, front[n].call);
      assert !ForcedTrigger(front, n);
    }
  }

  /** Without a forced trigger request no forced cycle is ever begun. */
  lemma {:induction false} NoTriggerNoForce(cfg: Config, sh: Shared, acts: seq<Action>)
    requires forall n: nat :: !ForcedTrigger(acts, n)
    ensures NoneForced(Begins(Trace(cfg, Boot(sh), acts)))
  {
    if acts != [] {
      var front, act := acts[..|acts| - 1], acts[|acts| - 1];
      forall n: nat ensures !ForcedTrigger(front, n) {
        assert !ForcedTrigger(acts, n);
      }
      NoTriggerNoForce(cfg, sh, front);
      NoForceHere(cfg, sh, front, act);
      RunSnocs(cfg, Start(cfg, sh.disk), Trace(cfg, Boot(sh), front), EventOf(RunAll(cfg, Boot(sh), front), act));
    }
  }

  /** Cycles are as forced as their calls. */
  lemma {:induction false} CyclesAsCalled(cfg: Config, disk: Disk, evs: seq<Event>)
    requires NoneForced(Begins(evs))
    ensures var s := Run(cfg, Start(cfg, disk), evs);
            && (s.m.cycle.Some? ==> !s.m.cycle.value.call.force)
            && (forall c :: 0 <= c < |s.h.infos| ==> !s.h.infos[c].force)
  {
    if evs != [] {
      var front, ev := evs[..|evs| - 1], evs[|evs| - 1];
      assert Begins(evs) == Begins(front) + if ev.Begin? then [ev.call] else [];
      assert forall c :: c in Begins(front) ==> c in Begins(evs);
      assert ev.Begin? ==> ev.call in Begins(evs);
      CyclesAsCalled(cfg, disk, front);
    }
  }

  /** Only a trigger request can make the service repeat itself: in a run where a
      remembered identifier is sent again, somebody asks for a forced cycle. Ticks
      and plain triggers alone never send an unchanged finding set again. */
  lemma RepeatNeedsTrigger(cfg: Config, disk: Disk, acts: seq<Action>, p: nat, q: nat)
    requires GoodConfig(cfg)
    ensures var h := Run(cfg, Start(cfg, disk), Trace(cfg, Boot(Start(cfg, disk).m.sh), acts)).h;
            Repeats(h.log, p, q) ==>
              h.log[q].cycle < |h.infos| && (Remembered(h, p, q) ==> exists n: nat :: ForcedTrigger(acts, n))
  {
    var evs := Trace(cfg, Boot(Start(cfg, disk).m.sh), acts);
    RepeatNeedsForce(cfg, disk, evs, p, q);
    if forall n: nat :: !ForcedTrigger(acts, n) {
      NoTriggerNoForce(cfg, Start(cfg, disk).m.sh, acts);
      CyclesAsCalled(cfg, disk, evs);
    }
  }

  /* ----- a free slot lets a cycle run ----- */

  lemma {:induction false} RunAppend(cfg: Config, s: Service, a: seq<Action>, b: seq<Action>)
    ensures RunAll(cfg, s, a + b) == RunAll(cfg, RunAll(cfg, s, a), b)
  {
    if b == [] {
      assert a + b == a;
    } else {
      assert (a + b)[..|a + b| - 1] == a + b[..|b| - 1];
      RunAppend(cfg, s, a, b[..|b| - 1]);
    }
  }

  lemma RunOne(cfg: Config, s: Service, act: Action, rest: seq<Action>)
    ensures RunAll(cfg, s, [act] + rest) == RunAll(cfg, Act(cfg, s, act), rest)
  {
    RunAppend(cfg, s, [act], rest);
    assert [act][..0] == [];
  }

  /** An actor in its cycle can go on to the end of it. */
  lemma {:induction false} PollToEnd(cfg: Config, s: Service, a: nat) returns (acts: seq<Action>)
    requires At(s, a).Polling? && !At(s, a).pc.Done?
    ensures RunAll(cfg, s, acts) ==
            s.(sh := Finish(cfg, At(s, a).call, s.sh, At(s, a).pc), actors := s.actors[a := Leaving])
    decreases Stage(At(s, a).pc), Left(cfg, At(s, a).call, At(s, a).pc)
  {
    var call, pc := At(s, a).call, At(s, a).pc;
    var (sh', pc') := Step(cfg, call, s.sh, pc);
    var t := Act(cfg, s, PollStep(a));
    FinishStep(cfg, call, s.sh, pc);
    var rest := [];
    if !pc'.Done? {
      rest := PollToEnd(cfg, t, a);
      assert t.actors[a := Leaving] == s.actors[a := Leaving];
    }
    acts := [PollStep(a)] + rest;
    RunOne(cfg, s, PollStep(a), rest);
  }

  /** Whoever comes to a free slot gets it, can run its cycle, and leaves the slot free;
      the cycle is one `Poll`, forced only if a trigger request asked for it. */
  lemma CycleRuns(cfg: Config, s: Service, a: nat, asked: Call) returns (acts: seq<Action>, call: Call)
    requires HeldBy(s, None)
    ensures OwnCall(a, call, asked) && acts != [] && acts[0] == Acquire(a, asked)
    ensures var t := RunAll(cfg, s, acts);
            HeldBy(t, None) && t.sh == Poll(cfg, s.sh, call) && t.polls == s.polls + [call]
  {
    var s1 := Act(cfg, s, Acquire(a, asked));
    call := At(s1, a).call;
    var s2 := Act(cfg, s1, StartPoll(a));
    var steps := PollToEnd(cfg, s2, a);
    StepsMakePoll(cfg, call, s.sh);
    acts := [Acquire(a, asked)] + ([StartPoll(a)] + (steps + [Release(a)]));
    RunOne(cfg, s, Acquire(a, asked), [StartPoll(a)] + (steps + [Release(a)]));
    RunOne(cfg, s1, StartPoll(a), steps + [Release(a)]);
    RunAppend(cfg, s2, steps, [Release(a)]);
    assert [Release(a)][..0] == [];
    var t := RunAll(cfg, s, acts);
    forall b: nat ensures At(t, b).Idle? {
      assert At(s, b).Idle?;
    }
  }

  /** What one trigger request does before its background cycle begins. */
  function TriggerActions(s: Service, a: nat, asked: Call, accepts: bool): seq<Action> {
    if s.full || accepts then [Acquire(a, asked)] else [Acquire(a, asked), StartFails(a), Release(a)]
  }

  /** A trigger request on a taken slot changes nothing; on a free one it holds the slot
      for its own call if the runner takes it, and has given it back if not. */
  lemma TriggerAlone(cfg: Config, s: Service, h: Option<nat>, a: nat, asked: Call, accepts: bool)
    requires HeldBy(s, h) && At(s, a).Idle? && a != 0
    ensures var t := RunAll(cfg, s, TriggerActions(s, a, asked, accepts));
            && (s.full ==> t == s)
            && (!s.full && accepts ==> HeldBy(t, Some(a)) && At(t, a) == Entered(asked) && t.polls == s.polls + [asked])
            && (!s.full && !accepts ==> HeldBy(t, None) && t.polls == s.polls)
            && t.sh == s.sh
  {
    var acquire := Acquire(a, asked);
    var s1 := Act(cfg, s, acquire);
    assert [acquire] + [] == [acquire];
    RunOne(cfg, s, acquire, []);
    ActKeepsHolder(cfg, s, h, acquire);
    if !s.full && !accepts {
      assert [acquire, StartFails(a), Release(a)] == [acquire] + ([StartFails(a)] + ([Release(a)] + []));
      RunOne(cfg, s, acquire, [StartFails(a)] + ([Release(a)] + []));
      RunOne(cfg, s1, StartFails(a), [Release(a)] + []);
      var s2 := Act(cfg, s1, StartFails(a));
      RunOne(cfg, s2, Release(a), []);
      ActKeepsHolder(cfg, s1, Some(a), StartFails(a));
      ActKeepsHolder(cfg, s2, Some(a), Release(a));
      assert s1.polls[..|s.polls|] == s.polls;
    }
  }
}
