/** The single-cycle slot and its two users, as the code has them
    (pkg/cyclegate.go, pkg/handler/trigger_handler.go, main.go). */
module Gate {
  import opened Wrappers
  import opened PollSpec
  import opened Watchers

  /** A channel of capacity one. */
  class CycleGate {
    var full: bool

    constructor ()
      ensures !full
    {
      full := false;
    }

    method TryAcquire() returns (ok: bool)
      modifies this
      ensures ok == !old(full) && full
    {
      ok := !full;
      full := true;
    }

    /** Drains the slot, whoever filled it. */
    method Release()
      modifies this
      ensures !full
    {
      full := false;
    }
  }

  /** The interval loop's cycle: never forced; skipped when the slot is taken. */
  method PollOnTick(gate: CycleGate, w: Watcher, answers: Answers)
    requires w.Wired()
    modifies gate, w.fs, w.topic, w.metrics
    ensures gate.full == old(gate.full)
    ensures w.World() == if old(gate.full) then old(w.World()) else PollSpec.Poll(w.cfg, old(w.World()), Call(false, answers))
  {
    var ok := gate.TryAcquire();
    if !ok { return; }
    w.Poll(Call(false, answers));
    gate.Release();
  }

  const STATUS_ACCEPTED := 202
  const STATUS_CONFLICT := 409
  const STATUS_INTERNAL_SERVER_ERROR := 500

  class TriggerHandler {
    const gate: CycleGate
    const watcher: Watcher

    constructor (gate: CycleGate, watcher: Watcher)
      ensures this.gate == gate && this.watcher == watcher
    {
      this.gate, this.watcher := gate, watcher;
    }

    /** The background runner either starts the cycle exactly once and reports
        success, or reports an error and never starts it (`accepts`). `started` is
        the force flag of the cycle that was handed over. */
    method ServeHTTP(forceParam: string, accepts: bool) returns (status: int, started: Option<bool>)
      modifies gate
      ensures status == if old(gate.full) then STATUS_CONFLICT else if accepts then STATUS_ACCEPTED else STATUS_INTERNAL_SERVER_ERROR
      ensures started == if status == STATUS_ACCEPTED then Some(forceParam == "true" || forceParam == "1") else None
      ensures gate.full <==> old(gate.full) || started.Some?
    {
      var force := forceParam == "true" || forceParam == "1";
      var ok := gate.TryAcquire();
      if !ok { return STATUS_CONFLICT, None; }
      if !accepts {
        gate.Release();
        return STATUS_INTERNAL_SERVER_ERROR, None;
      }
      return STATUS_ACCEPTED, Some(force);
    }

    /** The body handed to the runner: one cycle, then the slot is given back. */
    method Background(call: Call)
      requires gate.full && watcher.Wired()
      modifies gate, watcher.fs, watcher.topic, watcher.metrics
      ensures !gate.full
      ensures watcher.World() == PollSpec.Poll(watcher.cfg, old(watcher.World()), call)
    {
      watcher.Poll(call);
      gate.Release();
    }
  }
}
