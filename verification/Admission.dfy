/**
 Admission of applications in front of the release barrier, for containers and for native processes. What
 the runner sees of the outside world is arbitrary; a ghost record of it says what each verdict rests on.
 */
module Admission {
  import opened ReadyLog

  datatype Verdict = Ready | Exited | TimedOut

  /** How a stopped application ended; a native exit can also be unknown to the runner. */
  datatype Exit = Code(code: int) | Signalled | Lost

  datatype Sight = Sight(name: string, running: bool, exit: Exit, at: nat)

  /** A log that was read, and the moment that was compared with a deadline. */
  datatype LogRead = LogRead(name: string, log: string, at: nat, limit: nat)

  datatype Status = Ok | Threw {
    predicate IsFailure() {
      !Ok?
    }

    function PropagateFailure(): Status {
      this
    }
  }

  const PLATFORM := "platform"

  /** `unavailable_exit`: an end that means the peer is unavailable rather than broken. */
  predicate Classified(exit: Exit, container: bool) {
    match exit
    case Code(code) => code == 0 || code == 75 || (container && 128 < code <= 159)
    case Signalled => !container
    case Lost => false
  }

  class Gate {
    const container: bool  // containers, or native processes
    const available: bool  // the startup policy: available, or transactional
    const deadline: nat
    var now: nat
    var admissions: map<string, Verdict>
    ghost var sights: seq<Sight>
    ghost var logs: seq<LogRead>

    constructor (container: bool, available: bool, deadline: nat)
      ensures Inv() && admissions == map[]
      ensures this.container == container && this.available == available && this.deadline == deadline
    {
      this.container, this.available, this.deadline := container, available, deadline;
      now, admissions := 0, map[];
      sights, logs := [], [];
    }

    ghost predicate SeenRunning(name: string)
      reads this
    {
      exists s :: s in sights && s.name == name && s.running
    }

    /** A whole line of a log read in time was the application's marker. */
    ghost predicate SeenReady(name: string)
      reads this
    {
      exists l :: l in logs && l.name == name && l.at < l.limit && HasLine(l.log, Marker(name))
    }

    ghost predicate SeenUnavailable(name: string)
      reads this
    {
      exists s :: s in sights && s.name == name && !s.running && Classified(s.exit, container)
    }

    /** What a verdict rests on. */
    ghost predicate Justified(name: string, v: Verdict)
      reads this
    {
      match v
      case Ready => SeenReady(name) && SeenRunning(name)
      case Exited => SeenUnavailable(name)
      case TimedOut => now >= deadline && SeenRunning(name)
    }

    /** Every verdict is justified, and under transactional startup every verdict is ready. */
    ghost predicate Inv()
      reads this
    {
      forall n :: n in admissions ==> Justified(n, admissions[n]) && (available || admissions[n].Ready?)
    }

    /** Observations only accumulate and no admission is withdrawn. */
    twostate predicate Onward()
      reads this
    {
      && old(sights) <= sights && old(logs) <= logs && old(now) <= now
      && (forall n :: n in old(admissions) ==> n in admissions)
    }

    // ----- the outside world -----

    method Wait(least: nat)
      modifies this`now
      ensures now >= old(now) + least
    {
      var more: int := *;
      now := now + least + if more > 0 then more else 0;
    }

    method Look(name: string) returns (status: Status, sight: Sight)
      modifies this`now, this`sights
      ensures now >= old(now) && old(sights) <= sights
      ensures status.Ok? ==> sights == old(sights) + [sight] && sight.name == name && sight.at >= old(now)
      ensures status.Threw? ==> sights == old(sights)
    {
      var running: bool := *;
      var code: int := *;
      var fate: int := *;
      Wait(0);
      sight := Sight(name, running, if fate == 1 then Signalled else if fate == 2 then Lost else Code(code), now);
      if fate == 0 {
        return Threw, sight;
      }
      sights := sights + [sight];
      return Ok, sight;
    }

    method ReadLog(name: string) returns (status: Status, marked: bool, ghost log: string)
      modifies this`now
      ensures now >= old(now)
      ensures marked ==> HasLine(log, Marker(name))
    {
      var text: string := *;
      var fails: bool := *;
      log := text;
      Wait(0);
      if fails {
        return Threw, false, log;
      }
      marked := ApplicationReady(text, name);
      return Ok, marked, log;
    }

    ghost method Note(read: LogRead)
      modifies this`logs
      ensures logs == old(logs) + [read] && read in logs
    {
      logs := logs + [read];
    }

    method Effect() returns (status: Status)
    {
      var fails: bool := *;
      return if fails then Threw else Ok;
    }

    // ----- the admission loop -----

    method Record(name: string, v: Verdict)
      requires Inv() && Justified(name, v) && (available || v.Ready?)
      modifies this`admissions
      ensures Inv() && admissions == old(admissions)[name := v]
    {
      admissions := admissions[name := v];
    }

    /** Evidence is never lost. */
    twostate lemma StillJustified()
      requires old(sights) <= sights && old(logs) <= logs && old(now) <= now
      requires admissions == old(admissions) && old(Inv())
      ensures Inv()
    {
      forall n | n in admissions
        ensures Justified(n, admissions[n])
      {
        assert old(Justified(n, admissions[n]));
      }
    }

    /** Looks at an undecided application and settles it when it has stopped. */
    method SettleStopped(name: string) returns (status: Status, running: bool)
      requires Inv()
      modifies this`now, this`admissions, this`sights
      ensures Inv() && Onward()
      ensures status.Ok? && running ==> SeenRunning(name) && admissions == old(admissions)
      ensures status.Ok? && !running ==> name in admissions
    {
      var sight;
      status, sight := Look(name);
      running := sight.running;
      StillJustified();
      if status.Threw? || running {
        assert status.Ok? ==> sight in sights;
        return;
      }
      if !available || !Classified(sight.exit, container) {
        return Threw, false;
      }
      assert sight in sights && SeenUnavailable(name);
      Record(name, Exited);
    }

    /** Settles a running application when its log says so. */
    method SettleReady(name: string) returns (status: Status, ready: bool)
      requires Inv() && SeenRunning(name)
      modifies this`now, this`admissions, this`logs
      ensures Inv() && Onward() && SeenRunning(name)
      ensures status.Ok? && ready ==> name in admissions
      ensures old(now) >= deadline ==> !ready
    {
      var at := now;
      ghost var log;
      status, ready, log := ReadLog(name);
      if container {
        at := now;
      }
      ready := ready && at < deadline;
      if status.Ok? {
        Note(LogRead(name, log, at, deadline));
      }
      StillJustified();
      if status.Ok? && ready {
        Record(name, Ready);
      }
    }

    /** One undecided container: it exits, times out, becomes ready, or stays pending before the deadline. */
    method DecideContainer(name: string) returns (status: Status, pending: bool)
      requires Inv() && container
      modifies this`now, this`admissions, this`sights, this`logs
      ensures Inv() && Onward()
      ensures status.Ok? ==> (pending || name in admissions) && (pending ==> old(now) < deadline)
    {
      var running;
      status, running := SettleStopped(name);
      if status.Threw? || !running {
        return status, false;
      }
      if now >= deadline {
        if !available {
          return Threw, false;
        }
        Record(name, TimedOut);
        return Ok, false;
      }
      var ready;
      status, ready := SettleReady(name);
      pending := !ready;
    }

    /** One undecided native process; at the deadline it is stopped on the spot. */
    method DecideProcess(name: string) returns (status: Status, pending: bool)
      requires Inv() && !container && available
      modifies this`now, this`admissions, this`sights, this`logs
      ensures Inv() && Onward()
      ensures status.Ok? ==> (pending || name in admissions) && (pending ==> old(now) < deadline)
    {
      var running, ready;
      status, running := SettleStopped(name);
      if status.Threw? || !running {
        return status, false;
      }
      status, ready := SettleReady(name);
      if status.Threw? || ready {
        return status, false;
      }
      if now < deadline {
        return Ok, true;
      }
      status := Effect();
      if status.Ok? {
        Record(name, TimedOut);
      }
      return status, false;
    }

    /** One pass over the applications; afterwards each is admitted, unless something is still pending. */
    method Pass(names: seq<string>) returns (status: Status, pending: bool)
      requires Inv() && (container || available)
      modifies this`now, this`admissions, this`sights, this`logs
      ensures Inv() && Onward()
      ensures status.Ok? && !pending ==> Admitted(names)
      ensures status.Ok? && pending ==> old(now) < deadline
    {
      pending := false;
      for i := 0 to |names|
        invariant Inv() && Onward() && (pending ==> old(now) < deadline)
        invariant !pending ==> Admitted(names[..i])
      {
        assert names[..i + 1] == names[..i] + [names[i]];
        if !container && names[i] == PLATFORM {
          var sight;
          label Before:
          status, sight := Look(PLATFORM);
          StillJustified@Before();
          if status.Threw? || !sight.running {
            return Threw, pending;
          }
        } else if names[i] !in admissions {
          var open;
          if container {
            status, open := DecideContainer(names[i]);
          } else {
            status, open := DecideProcess(names[i]);
          }
          if status.Threw? {
            return;
          }
          pending := pending || open;
        }
      }
      assert names[..|names|] == names;
      status := Effect();
    }

    ghost predicate Admitted(names: seq<string>)
      reads this
    {
      forall n :: n in names && (container || n != PLATFORM) ==> n in admissions
    }

    /** The passes end: at the latest, the first one that starts after the deadline decides everything. */
    method AdmitAll(names: seq<string>) returns (status: Status)
      requires Inv() && (container || available)
      modifies this`now, this`admissions, this`sights, this`logs
      ensures Inv() && Onward()
      ensures status.Ok? ==> Admitted(names)
    {
      while true
        invariant Inv() && Onward()
        decreases if now < deadline then deadline - now else 0
      {
        var pending;
        status, pending := Pass(names);
        if status.Threw? || !pending {
          return;
        }
        label Before:
        Wait(20);
        StillJustified@Before();
      }
    }

    // ----- the last check and the release -----

    /** Timed-out containers are stopped before the last check. */
    method StopTimedOut(containers: seq<string>) returns (status: Status)
      requires Inv()
      modifies this`now, this`sights
      ensures Inv() && Onward()
    {
      for i := 0 to |containers|
        invariant Inv() && Onward()
      {
        if containers[i] in admissions && admissions[containers[i]].TimedOut? {
          var sight;
          label Before:
          status, sight := Look(containers[i]);
          StillJustified@Before();
          if status.Threw? {
            return;
          }
          :- Effect();
        }
      }
      return Ok;
    }

    /** Stopping is excused by the policy, the verdict, and for containers always by the way it ended. */
    ghost predicate Excused(s: Sight)
      reads this
    {
      && available && s.name in admissions && !admissions[s.name].Ready?
      && (Classified(s.exit, container) || (!container && s.name != PLATFORM))
    }

    /** In the last check this one was running, or its stop is excused and it is no longer called ready. */
    ghost predicate Passed(name: string, since: nat)
      reads this
    {
      exists k :: since <= k < |sights| && sights[k].name == name && (sights[k].running || Excused(sights[k]))
    }

    /** A stopped one passes only when the policy and its verdict excuse it; ready becomes exited. */
    method Excuse(sight: Sight) returns (status: Status)
      requires Inv() && sight in sights && !sight.running
      modifies this`admissions
      ensures Inv() && DowngradesOnly()
      ensures status.Ok? ==> Excused(sight)
    {
      var name := sight.name;
      if !available || name !in admissions || (!container && name == PLATFORM) {
        return Threw;
      }
      if (container || admissions[name].Ready?) && !Classified(sight.exit, container) {
        return Threw;
      }
      if admissions[name].Ready? {
        assert SeenUnavailable(name);
        Record(name, Exited);
      }
      return Ok;
    }

    method LastCheck(name: string, ghost since: nat) returns (status: Status)
      requires Inv() && since <= |sights|
      modifies this`now, this`sights, this`admissions
      ensures Inv() && Onward() && DowngradesOnly()
      ensures status.Ok? ==> Passed(name, since)
    {
      var sight;
      status, sight := Look(name);
      StillJustified();
      if status.Threw? {
        return;
      }
      assert sights[|sights| - 1] == sight;
      if !sight.running {
        status := Excuse(sight);
      }
    }

    /** Verdicts only change from ready to exited. */
    twostate predicate DowngradesOnly()
      reads this
    {
      && old(admissions).Keys == admissions.Keys
      && forall n :: n in admissions ==> admissions[n] == old(admissions)[n] || admissions[n].Exited?
    }

    method LastChecks(names: seq<string>, ghost since: nat) returns (status: Status)
      requires Inv() && since <= |sights|
      modifies this`now, this`sights, this`admissions
      ensures Inv() && Onward() && DowngradesOnly()
      ensures status.Ok? ==> forall n :: n in names ==> Passed(n, since)
    {
      for i := 0 to |names|
        invariant Inv() && Onward() && DowngradesOnly()
        invariant forall n :: n in names[..i] ==> Passed(n, since)
      {
        status := LastCheck(names[i], since);
        if !status.Ok? {
          return;
        }
        assert names[..i + 1] == names[..i] + [names[i]];
      }
      assert names[..|names|] == names;
      return Ok;
    }

    /** What the release file promises: see the two methods below. */
    ghost predicate Promised(applications: seq<string>, all: seq<string>, since: nat)
      reads this
    {
      && (forall n :: n in all ==> Passed(n, since))
      && (available ==> forall a :: a in applications ==> a in admissions && Justified(a, admissions[a]))
      && (!available ==> forall a :: a in applications ==> SeenReady(a))
      && (!available ==> forall n :: n in all ==> SeenRunningSince(n, since))
    }

    ghost predicate SeenRunningSince(name: string, since: nat)
      reads this
    {
      exists k :: since <= k < |sights| && sights[k].name == name && sights[k].running
    }

    lemma TransactionalRuns(all: seq<string>, since: nat)
      requires !available && forall n :: n in all ==> Passed(n, since)
      ensures forall n :: n in all ==> SeenRunningSince(n, since)
    {
      forall n | n in all
        ensures SeenRunningSince(n, since)
      {
        assert Passed(n, since);
      }
    }

    /**
     Containers: the release file appears only after every application has a justified verdict and, after
     that, every container was seen running or excusably stopped. Under transactional startup every
     application was ready in time and every container was seen running.
     */
    method OpenForContainers(applications: seq<string>, containers: seq<string>)
      returns (status: Status, released: bool, ghost since: nat)
      requires Inv() && container && admissions == map[]
      modifies this
      ensures Inv() && (status.Ok? ==> released)
      ensures released ==> Promised(applications, containers, since)
    {
      since, released := 0, false;
      :- AdmitAll(applications);
      :- StopTimedOut(containers);
      since := |sights|;
      :- LastChecks(containers, since);
      :- Effect();
      Promise(applications, containers, since);
      status := Effect();
      return status, true, since;
    }

    lemma Promise(applications: seq<string>, all: seq<string>, since: nat)
      requires Inv() && forall n :: n in all ==> Passed(n, since)
      requires available || container ==> forall a :: a in applications ==> a in admissions
      requires !available && !container ==> forall a :: a in applications ==> SeenReady(a)
      ensures Promised(applications, all, since)
    {
      if !available {
        TransactionalRuns(all, since);
        forall a | a in applications
          ensures SeenReady(a)
        {
          assert container ==> Justified(a, admissions[a]);
        }
      }
    }

    /** Transactional native startup waits for each process before starting the next one. */
    method AwaitReady(name: string, limit: nat) returns (status: Status)
      requires Inv()
      modifies this`now, this`sights, this`logs
      ensures Inv() && Onward()
      ensures status.Ok? && name != PLATFORM ==> SeenReady(name)
    {
      while true
        invariant Inv() && Onward()
        decreases if now < limit then limit - now else 0
      {
        if now >= limit {
          return Threw;
        }
        var sight, ready;
        var at := now;
        label Before:
        status, sight := Look(name);
        if status.Threw? || !sight.running {
          StillJustified@Before();
          return Threw;
        }
        var healthy: bool := *;
        ghost var log;
        status, ready, log := ReadLog(name);
        if status.Threw? {
          StillJustified@Before();
          return;
        }
        Note(LogRead(name, log, at, limit));
        StillJustified@Before();
        if (name == PLATFORM && healthy) || (name != PLATFORM && ready) {
          return Ok;
        }
        label Sleeping:
        Wait(20);
        StillJustified@Sleeping();
      }
    }

    method StartProcess(name: string, readiness: nat) returns (status: Status)
      requires Inv() && !container
      modifies this`now, this`sights, this`logs
      ensures Inv() && Onward() && admissions == old(admissions)
      ensures status.Ok? && !available && name != PLATFORM ==> SeenReady(name)
    {
      status := Effect();
      if status.Threw? || (available && name != PLATFORM) {
        return;
      }
      status := AwaitReady(name, now + if name == PLATFORM then 30000 else readiness);
    }

    method StartProcesses(names: seq<string>, readiness: nat) returns (status: Status)
      requires Inv() && !container
      modifies this`now, this`sights, this`logs
      ensures Inv() && Onward() && admissions == old(admissions)
      ensures status.Ok? && !available ==> forall n :: n in names && n != PLATFORM ==> SeenReady(n)
    {
      for i := 0 to |names|
        invariant Inv() && Onward() && admissions == old(admissions)
        invariant !available ==> forall n :: n in names[..i] && n != PLATFORM ==> SeenReady(n)
      {
        label Before:
        :- StartProcess(names[i], readiness);
        StillReady@Before();
        assert names[..i + 1] == names[..i] + [names[i]];
      }
      assert names[..|names|] == names;
      return Ok;
    }

    twostate lemma StillReady()
      requires old(logs) <= logs
      ensures forall n :: old(SeenReady(n)) ==> SeenReady(n)
    {
    }

    /**
     Native processes: the same promise. Here a process that ran into the deadline was stopped by the runner,
     so the way it ended is not asked.
     */
    method OpenForProcesses(names: seq<string>, readiness: nat)
      returns (status: Status, released: bool, ghost since: nat)
      requires Inv() && !container && admissions == map[]
      modifies this
      ensures Inv() && (status.Ok? ==> released)
      ensures released ==> Promised(Applications(names), names, since)
    {
      since, released := 0, false;
      :- StartProcesses(names, readiness);
      if available {
        status := AdmitAll(names);
        if !status.Ok? {
          return;
        }
      }
      since := |sights|;
      :- LastChecks(names, since);
      forall a | a in Applications(names)
        ensures available ==> a in admissions
        ensures !available ==> SeenReady(a)
      {
        ApplicationsMember(names, a);
      }
      Promise(Applications(names), names, since);
      status := Effect();
      return status, true, since;
    }
  }

  /** Everything but the platform process. */
  function Applications(names: seq<string>): seq<string> {
    if names == [] then []
    else (if names[0] == PLATFORM then [] else [names[0]]) + Applications(names[1..])
  }

  lemma {:induction false} ApplicationsMember(names: seq<string>, a: string)
    ensures a in Applications(names) <==> a in names && a != PLATFORM
  {
    if names != [] {
      ApplicationsMember(names[1..], a);
      assert names == [names[0]] + names[1..];
    }
  }
}
