/**
 Starting and stopping the processes of a native graph. A started process waits at a gate until its identity
 is in the saved ledger; when the runner dies first, the gate closes and the process ends unreleased.
 */
module NativeRunner {
  datatype Status = Ok | Threw | Crashed {
    predicate IsFailure() {
      !Ok?
    }

    function PropagateFailure(): Status {
      this
    }
  }

  /** `ours` and `released`: forked by this graph's runner, and let through the gate. */
  datatype Process = Process(pid: nat, born: nat, executable: string, ours: bool, released: bool)

  datatype Entry = Entry(name: string, pid: nat, born: nat, executable: string)

  /**
   `undisturbed`: no process identifier of the ledger is reused. `calm`: nothing fails, nobody dies and every
   released child has become its program.
   */
  datatype Env = Env(undisturbed: bool, calm: bool)

  predicate Names(e: Entry, p: Process) {
    e.pid == p.pid && e.born == p.born && e.executable == p.executable
  }

  /** The process table: one process per identifier, and what a ledger may meet in it. */
  predicate TableOk(os: set<Process>) {
    forall a, b :: a in os && b in os && a.pid == b.pid ==> a == b
  }

  predicate CoveredBy(p: Process, l: seq<Entry>) {
    exists e :: e in l && Names(e, p)
  }

  /** Main safety property: every process let through the gate is in the ledger. */
  predicate Covered(os: set<Process>, l: seq<Entry>) {
    forall p :: p in os && p.ours && p.released ==> CoveredBy(p, l)
  }

  /** No identifier in the ledger belongs to another process. */
  predicate Harmless(os: set<Process>, l: seq<Entry>) {
    forall e, p :: e in l && p in os && e.pid == p.pid ==> Names(e, p)
  }

  /** Others' processes come and go; ours may end. */
  predicate Elsewhere(os: set<Process>, os': set<Process>) {
    forall p :: p in os' && p.ours ==> p in os
  }

  /** Some identifier in the ledger now belongs to somebody else's process. */
  predicate Contested(l: seq<Entry>, os: set<Process>) {
    exists e, p :: e in l && p in os && !p.ours && e.pid == p.pid && !Names(e, p)
  }

  /** Only processes of ours have ended. */
  predicate OnlyOursEnded(os: set<Process>, os': set<Process>) {
    os' <= os && forall p :: p in os && !p.ours ==> p in os'
  }

  predicate AllNamed(ps: set<Process>, l: seq<Entry>) {
    forall p :: p in ps ==> CoveredBy(p, l)
  }

  function AtGate(os: set<Process>): set<Process> {
    set p | p in os && p.ours && !p.released
  }

  lemma PushCovers(os: set<Process>, l: seq<Entry>, e: Entry)
    ensures Covered(os, l) ==> Covered(os, l + [e])
  {
    forall p | p in os && CoveredBy(p, l)
      ensures CoveredBy(p, l + [e])
    {
      var x :| x in l && Names(x, p);
      assert x in l + [e];
    }
  }

  /** Dropping the last entry uncovers only the process it names. */
  lemma PopCovers(os: set<Process>, l: seq<Entry>)
    requires l != [] && Covered(os, l) && forall p :: p in os ==> !Names(l[|l| - 1], p)
    ensures Covered(os, l[..|l| - 1])
  {
    forall p | p in os && p.ours && p.released
      ensures CoveredBy(p, l[..|l| - 1])
    {
      var e :| e in l && Names(e, p);
      assert l == l[..|l| - 1] + [l[|l| - 1]];
    }
  }

  class Runner {
    var os: set<Process>
    var saved: seq<Entry>
    var memory: seq<Entry>
    var starting: set<Process>  // let through the gate, but still showing the runner's executable
    ghost var signalled: set<Process>

    constructor (os: set<Process>)
      requires TableOk(os) && forall p :: p in os ==> !p.ours
      ensures Safe() && Quiet() && saved == memory == [] && AtGate(this.os) == {}
    {
      this.os, saved, memory := os, [], [];
      starting, signalled := {}, {};
    }

    predicate Safe()
      reads this
    {
      TableOk(os) && Covered(os, saved) && Covered(os, memory)
    }

    predicate Quiet()
      reads this
    {
      Harmless(os, saved) && Harmless(os, memory)
    }

    // ----- effects -----

    /** The runner dies: whatever waits at the gate reads its end and exits. */
    method Die()
      requires Safe()
      modifies this`os
      ensures Safe() && AtGate(os) == {} && os <= old(os)
    {
      os := os - AtGate(os);
    }

    method Save(env: Env) returns (status: Status)
      requires Safe()
      modifies this`saved, this`os
      ensures Safe() && (old(Quiet()) ==> Quiet())
      ensures saved == old(saved) || saved == memory
      ensures status.Ok? ==> saved == memory && os == old(os)
      ensures status.Threw? ==> os == old(os)
      ensures status.Crashed? ==> AtGate(os) == {}
      ensures env.calm ==> status.Ok?
    {
      var written: bool := *;
      var survives: bool := *;
      if written || env.calm {
        saved := memory;
      }
      if !env.calm && !survives {
        Die();
        return Crashed;
      }
      return if written || env.calm then Ok else Threw;
    }

    method Interfere(env: Env)
      requires Safe()
      modifies this`os, this`starting
      ensures Safe() && Elsewhere(old(os), os)
      ensures env.undisturbed && old(Quiet()) ==> Quiet()
      ensures env.undisturbed ==> OnlyOursEnded(old(os), os)
      ensures starting <= old(starting) && (env.calm ==> starting == {})
    {
      var still: set<Process> := *;
      starting := if env.calm then {} else starting * still;
      var table: set<Process> := *;
      if TableOk(table) && Elsewhere(os, table) && (!env.undisturbed || OnlyOursEnded(os, table)) {
        os := table;
      }
    }

    /** `native_process_status`: absence is only reported when the process is gone. */
    method Observe(e: Entry, env: Env) returns (status: Status, running: bool)
      requires Safe()
      modifies this`os, this`starting
      ensures Safe() && Elsewhere(old(os), os)
      ensures env.undisturbed && old(Quiet()) ==> Quiet()
      ensures env.undisturbed ==> OnlyOursEnded(old(os), os)
      ensures status.Ok? && !running ==> forall p :: p in os ==> p.pid != e.pid
      ensures status.Ok? && running ==> exists p :: p in os && Names(e, p) && p !in starting
      ensures (exists p :: p in os && Names(e, p) && p in starting) ==> status.Threw?
      ensures status != Crashed
      ensures env.calm && env.undisturbed && old(Quiet()) && (e in memory || e in saved) ==> status.Ok?
    {
      Interfere(env);
      var unavailable: bool := *;
      if unavailable && !env.calm {
        return Threw, false;
      }
      if p :| p in os && p.pid == e.pid {
        var identified := Names(e, p) && p !in starting;
        return if identified then Ok else Threw, identified;
      }
      return Ok, false;
    }

    /** A signal to the process that was just identified; it may end at once or later. */
    method Signal(e: Entry, env: Env)
      requires Safe() && exists p :: p in os && Names(e, p) && p !in starting
      modifies this`os, this`signalled
      ensures Safe() && OnlyNamedEnded(old(os), e) && (old(Quiet()) ==> Quiet())
      ensures AllNamed(signalled - old(signalled), [e]) && (signalled - old(signalled)) !! starting
      ensures env.calm ==> forall p :: p in os ==> !Names(e, p)
    {
      if p :| p in os && Names(e, p) && p !in starting {
        signalled := signalled + {p};
        assert e in [e];
        var ends: bool := *;
        if ends || env.calm {
          os := os - {p};
        }
      }
    }

    predicate OnlyNamedEnded(before: set<Process>, e: Entry)
      reads this
    {
      os <= before && forall p :: p in before && !Names(e, p) ==> p in os
    }

    method AwaitExit(e: Entry, env: Env, attempts: nat) returns (status: Status, gone: bool)
      requires Safe() && e in memory
      modifies this`os, this`starting
      ensures Safe() && Elsewhere(old(os), os) && status != Crashed
      ensures env.undisturbed && old(Quiet()) ==> Quiet()
      ensures status.Ok? && gone ==> forall p :: p in os ==> p.pid != e.pid
      ensures env.calm && env.undisturbed && old(Quiet()) && attempts > 0 ==> status.Ok?
      ensures env.calm && env.undisturbed && old(Quiet()) && attempts > 0 && (forall p :: p in old(os) ==> !Names(e, p)) ==> gone
    {
      for i := 0 to attempts
        invariant Safe() && Elsewhere(old(os), os)
        invariant env.undisturbed && old(Quiet()) ==> Quiet()
        invariant env.undisturbed ==> os <= old(os)
        invariant env.calm && env.undisturbed && old(Quiet()) && i > 0 ==> exists p :: p in os && Names(e, p)
      {
        var running;
        status, running := Observe(e, env);
        if status.Ok? && !running {
          return Ok, true;
        }
        var substituted: bool := *;
        if status.Threw? && (substituted || env.calm) {
          return Threw, false;
        }
      }
      return Ok, false;
    }

    /** `stop_native_process`: a signal goes only to a process that was identified; success means it is gone. */
    method StopProcess(e: Entry, env: Env) returns (status: Status)
      requires Safe() && e in memory
      modifies this`os, this`starting, this`signalled
      ensures Safe() && Elsewhere(old(os), os) && status != Crashed
      ensures env.undisturbed && old(Quiet()) ==> Quiet()
      ensures status.Ok? ==> forall p :: p in os ==> p.pid != e.pid
      ensures AllNamed(signalled - old(signalled), [e])
      ensures env.calm && env.undisturbed && old(Quiet()) ==> status.Ok?
    {
      var running, gone;
      status, running := Observe(e, env);
      if status.Threw? || !running {
        return;
      }
      Signal(e, env);
      status, gone := AwaitExit(e, env, 100);
      if status.Threw? || gone {
        return;
      }
      running :- Observe(e, env);
      if running {
        Signal(e, env);
      }
      status, gone := AwaitExit(e, env, 100);
      if status.Ok? && !gone {
        return Threw;
      }
    }

    /** The whole inventory is identified before the first signal, with a few attempts while programs start. */
    method CheckAll(env: Env, attempts: nat) returns (status: Status)
      requires Safe()
      modifies this`os, this`starting
      ensures Safe() && Elsewhere(old(os), os) && status != Crashed
      ensures env.undisturbed && old(Quiet()) ==> Quiet()
      ensures env.undisturbed && Contested(memory, old(os)) ==> !status.Ok? && OnlyOursEnded(old(os), os)
      ensures env.calm && env.undisturbed && old(Quiet()) ==> status.Ok?
    {
      status := CheckOnce(env);
      for i := 0 to attempts
        invariant Safe() && Elsewhere(old(os), os) && status != Crashed
        invariant env.undisturbed && old(Quiet()) ==> Quiet()
        invariant env.undisturbed ==> OnlyOursEnded(old(os), os)
        invariant env.undisturbed && Contested(memory, old(os)) ==> !status.Ok?
        invariant env.calm && env.undisturbed && old(Quiet()) ==> status.Ok?
      {
        if status.Ok? {
          return;
        }
        status := CheckOnce(env);
      }
    }

    method CheckOnce(env: Env) returns (status: Status)
      requires Safe()
      modifies this`os, this`starting
      ensures Safe() && Elsewhere(old(os), os) && status != Crashed
      ensures env.undisturbed && old(Quiet()) ==> Quiet()
      ensures env.undisturbed ==> OnlyOursEnded(old(os), os)
      ensures env.undisturbed && Contested(memory, old(os)) ==> !status.Ok?
      ensures env.calm && env.undisturbed && old(Quiet()) ==> status.Ok?
    {
      for i := 0 to |memory|
        invariant Safe() && Elsewhere(old(os), os)
        invariant env.undisturbed && old(Quiet()) ==> Quiet()
        invariant env.undisturbed ==> OnlyOursEnded(old(os), os)
        invariant env.undisturbed ==> forall j, p ::
          0 <= j < i && p in old(os) && !p.ours && memory[j].pid == p.pid ==> Names(memory[j], p)
      {
        var running :- Observe(memory[i], env);
      }
      return Ok;
    }

    /** Nothing of this graph's runner is left. */
    predicate Clean()
      reads this
    {
      forall p :: p in os ==> !p.ours
    }

    /**
     `stop`: signals go only to processes named by the ledger, and none is sent when an identifier has passed
     to another process. When it completes, the ledger is empty and no process of the graph is left.
     */
    method Stop(env: Env) returns (status: Status)
      requires Safe() && AtGate(os) == {}
      modifies this`os, this`starting, this`memory, this`saved, this`signalled
      ensures Safe() && AtGate(os) == {}
      ensures env.undisturbed && old(Quiet()) ==> Quiet()
      ensures status.Ok? ==> saved == memory == [] && Clean()
      ensures AllNamed(signalled - old(signalled), old(memory))
      ensures env.undisturbed && old(Contested(memory, os)) ==>
        !status.Ok? && signalled == old(signalled) && saved == old(saved)
      ensures env.calm && env.undisturbed && old(Quiet()) ==> status.Ok?
    {
      status := CheckAll(env, 25);
      if !status.Ok? {
        return;
      }
      :- Save(env);
      status := StopEach(env);
    }

    method StopEach(env: Env) returns (status: Status)
      requires Safe() && saved == memory && AtGate(os) == {}
      modifies this`os, this`starting, this`memory, this`saved, this`signalled
      ensures Safe() && AtGate(os) == {}
      ensures env.undisturbed && old(Quiet()) ==> Quiet()
      ensures status.Ok? ==> saved == memory == [] && Clean()
      ensures AllNamed(signalled - old(signalled), old(memory))
      ensures env.calm && env.undisturbed && old(Quiet()) ==> status.Ok?
    {
      while memory != []
        invariant Safe() && saved == memory && AtGate(os) == {} && memory <= old(memory)
        invariant env.undisturbed && old(Quiet()) ==> Quiet()
        invariant AllNamed(signalled - old(signalled), old(memory))
        decreases |memory|
      {
        var last := memory[|memory| - 1];
        ghost var before := signalled;
        status := StopProcess(last, env);
        assert last in old(memory);
        NamedStep(old(signalled), before, signalled, last, old(memory));
        if status.Threw? {
          return;
        }
        PopCovers(os, memory);
        memory := memory[..|memory| - 1];
        :- Save(env);
      }
      assert forall p :: p in os && p.ours && !p.released ==> p in AtGate(os);
      return Ok;
    }

    // ----- startup -----

    predicate Mentioned(pid: nat)
      reads this
    {
      exists e :: e in memory + saved && e.pid == pid
    }

    /** The forked child, which waits at the gate. */
    method Fork(executable: string, env: Env) returns (status: Status, child: Process)
      requires Safe()
      modifies this`os
      ensures Safe() && (env.undisturbed && old(Quiet()) ==> Quiet())
      ensures status != Crashed && (status.Threw? ==> os == old(os))
      ensures status.Ok? ==> os == old(os) + {child} && child.ours && !child.released && child.executable == executable
      ensures status.Ok? && env.undisturbed ==> !Mentioned(child.pid)
    {
      var pid: int := *;
      var born: int := *;
      child := Process(if pid < 0 then 0 else pid, if born < 0 then 0 else born, executable, true, false);
      if exists p :: p in os && p.pid == child.pid {
        return Threw, child;
      }
      if env.undisturbed && Mentioned(child.pid) {
        return Threw, child;
      }
      os := os + {child};
      return Ok, child;
    }

    method Kill(child: Process)
      requires Safe()
      modifies this`os
      ensures Safe() && (old(Quiet()) ==> Quiet()) && os == old(os) - {child}
    {
      os := os - {child};
    }

    /** The identity is saved; only then is the child let through. */
    method Register(name: string, child: Process, env: Env) returns (status: Status)
      requires Safe() && child in os
      modifies this`os, this`memory, this`saved
      ensures Safe()
      ensures old(Quiet() && !Mentioned(child.pid)) ==> Quiet()
      ensures status.Ok? ==> os == old(os) && saved == memory && CoveredBy(child, saved)
      ensures status.Threw? ==> os == old(os)
      ensures status.Crashed? ==> AtGate(os) == {}
    {
      var e := Entry(name, child.pid, child.born, child.executable);
      PushCovers(os, memory, e);
      ghost var before := memory;
      memory := memory + [e];
      assert e in memory && Names(e, child);
      status := Save(env);
    }

    method Release(child: Process)
      requires Safe() && child in os && CoveredBy(child, saved) && saved == memory
      modifies this`os, this`starting
      ensures Safe() && (old(Quiet()) ==> Quiet())
      ensures os == old(os) - {child} + {child.(released := true)}
      ensures starting == old(starting) + {child.(released := true)}
    {
      ghost var e :| e in saved && Names(e, child);
      os := os - {child} + {child.(released := true)};
      starting := starting + {child.(released := true)};
      assert Names(e, child.(released := true));
    }

    /**
     `start_native_process`: however it ends, no child stays at the gate and none is let through unrecorded. Unless
     the runner dies, no child is left that has not become its program.
     */
    method Start(name: string, executable: string, env: Env) returns (status: Status)
      requires Safe() && AtGate(os) == {}
      modifies this`os, this`starting, this`memory, this`saved
      ensures Safe() && AtGate(os) == {} && (env.undisturbed && old(Quiet()) ==> Quiet())
      ensures !status.Crashed? ==> starting * os <= old(starting)
    {
      var child :- Fork(executable, env);
      var fate: int := *;
      if fate == 0 {
        Die();
        return Crashed;
      } else if fate == 1 {
        Kill(child);
        return Threw;
      }
      status := Register(name, child, env);
      if status.Crashed? {
        return;
      }
      if status.Threw? || fate == 2 {
        Kill(child);
        return Threw;
      }
      if fate == 3 {
        Die();
        return Crashed;
      }
      Release(child);
      if fate == 4 {
        return Crashed;
      } else if fate == 5 {
        Kill(child.(released := true));
        return Threw;
      }
      // The exec confirmation has arrived.
      starting := starting - {child.(released := true)};
      return Ok;
    }

    method StartAll(plan: seq<(string, string)>, env: Env) returns (status: Status)
      requires Safe() && AtGate(os) == {}
      modifies this`os, this`starting, this`memory, this`saved
      ensures Safe() && AtGate(os) == {} && (env.undisturbed && old(Quiet()) ==> Quiet())
    {
      for i := 0 to |plan|
        invariant Safe() && AtGate(os) == {} && (env.undisturbed && old(Quiet()) ==> Quiet())
      {
        Interfere(env);
        :- Start(plan[i].0, plan[i].1, env);
      }
      var admitted: bool := *;
      return if admitted then Ok else Threw;
    }

    /** `up`: refused while the ledger names anything; a failed startup is stopped again. */
    method Up(plan: seq<(string, string)>, env: Env) returns (status: Status)
      requires Safe() && AtGate(os) == {}
      modifies this`os, this`starting, this`memory, this`saved, this`signalled
      ensures Safe() && AtGate(os) == {} && (env.undisturbed && old(Quiet()) ==> Quiet())
      ensures old(memory) != [] ==> status == Threw && os == old(os) && saved == old(saved)
    {
      if memory != [] {
        return Threw;
      }
      :- Save(env);
      status := StartAll(plan, env);
      if status.Threw? {
        var stopped := Stop(env);
        if stopped.Crashed? {
          return Crashed;
        }
      }
    }

    method Load()
      requires Safe()
      modifies this`memory
      ensures Safe() && memory == saved && (old(Quiet()) ==> Quiet())
    {
      memory := saved;
    }
  }

  lemma NamedStep(first: set<Process>, before: set<Process>, after: set<Process>, e: Entry, l: seq<Entry>)
    requires e in l && AllNamed(before - first, l) && AllNamed(after - before, [e])
    ensures AllNamed(after - first, l)
  {
    forall p | p in after - first
      ensures CoveredBy(p, l)
    {
      if p !in before {
        assert p in after - before;
      } else {
        assert p in before - first;
      }
    }
  }

  datatype Command = StartUp(plan: seq<(string, string)>, env: Env) | TearDown(env: Env)

  function EnvOf(c: Command): Env {
    c.env
  }

  /**
   Any sequence of runs of `up` and `down`, each of which may fail or die anywhere: every process that was let
   through the gate is in the saved ledger, and none is left waiting at it.
   */
  method Lifecycle(runner: Runner, commands: seq<Command>)
    requires runner.Safe() && runner.Quiet() && AtGate(runner.os) == {}
    modifies runner
    ensures runner.Safe() && AtGate(runner.os) == {} && Covered(runner.os, runner.saved)
    ensures (forall i :: 0 <= i < |commands| ==> EnvOf(commands[i]).undisturbed) ==> runner.Quiet()
  {
    for i := 0 to |commands|
      invariant runner.Safe() && AtGate(runner.os) == {}
      invariant (forall j :: 0 <= j < i ==> EnvOf(commands[j]).undisturbed) ==> runner.Quiet()
    {
      runner.Load();
      var status;
      match commands[i] {
        case StartUp(plan, env) => status := runner.Up(plan, env);
        case TearDown(env) => status := runner.Stop(env);
      }
    }
  }

  /** Cleanup is restartable: with no identifier reused, one calm `down` after any history leaves nothing. */
  method CleanupCompletes(runner: Runner, commands: seq<Command>)
    requires runner.Safe() && runner.Quiet() && AtGate(runner.os) == {}
    requires forall i :: 0 <= i < |commands| ==> EnvOf(commands[i]).undisturbed
    modifies runner
    ensures runner.Clean() && runner.saved == []
  {
    Lifecycle(runner, commands);
    runner.Load();
    var status := runner.Stop(Env(true, true));
  }
}
