/**
 Starting and stopping a Compose graph under its ownership ledger. The process may die between any two
 effects and at every call Docker may fail, another user may change other objects, and a failed lookup
 reads as absence. The ledger in memory is lost with the process; the saved one and Docker's objects stay.
 */
module ComposeRunner {
  import Bytes
  import opened Ledger

  datatype Status = Ok | Threw | Crashed {
    predicate IsFailure() {
      !Ok?
    }

    function PropagateFailure(): Status {
      this
    }
  }

  /**
   What is known about the surroundings of a run. `alone`: nobody else changes Docker. `reliable`: no lookup
   outside a stop reads as absence. `calm`: no command fails and the process survives. Nothing is assumed
   where a flag is false; which lookups of a stop are refused is an input of its own.
   */
  datatype Env = Env(alone: bool, reliable: bool, calm: bool)

  datatype Service = Service(name: string, image: string)

  datatype Plan = Plan(volumes: seq<string>, stage: Service, networks: seq<string>, services: seq<Service>)

  ghost predicate PlanOk(plan: Plan) {
    && (forall i, j :: 0 <= i < j < |plan.networks| ==> plan.networks[i] != plan.networks[j])
    && (forall i, j :: 0 <= i < j < |plan.services| ==> plan.services[i].name != plan.services[j].name)
  }

  class Runner {
    const w: Owner
    const credential: string
    var docker: set<Object>
    var used: set<string>
    var saved: seq<Entry>
    var memory: seq<Entry>

    constructor (w: Owner, credential: string, docker: set<Object>)
      requires World(docker, {}, w) && forall o :: o in docker ==> !Owned(o, w)
      ensures this.w == w && this.docker == docker && Base() && Safe() && Quiet() && memory == saved == []
    {
      this.w, this.credential, this.docker := w, credential, docker;
      used, saved, memory := {}, [], [];
    }

    /** A process that finds a ledger left by an earlier one. */
    constructor Resume(w: Owner, credential: string, docker: set<Object>, used: set<string>, ledger: seq<Entry>)
      requires World(docker, used, w) && LedgerOk(ledger, docker, used, w)
      ensures this.w == w && this.credential == credential && this.docker == docker && this.used == used
      ensures Base() && memory == saved == ledger
    {
      this.w, this.credential, this.docker, this.used := w, credential, docker, used;
      saved, memory := ledger, ledger;
    }

    ghost predicate Base()
      reads this
    {
      World(docker, used, w) && LedgerOk(saved, docker, used, w) && LedgerOk(memory, docker, used, w)
    }

    /** Every owned object is in the saved ledger, and in the one about to be saved. */
    ghost predicate Safe()
      reads this
    {
      Covered(docker, saved, w) && Covered(docker, memory, w)
    }

    /** No entry points at an object its checks would refuse. */
    ghost predicate Quiet()
      reads this
    {
      Harmless(docker, saved, w) && Harmless(docker, memory, w)
    }

    // ----- effects -----

    method Save(env: Env) returns (status: Status)
      modifies this`saved
      ensures saved == old(saved) || saved == memory
      ensures status.Ok? ==> saved == memory
      ensures env.calm ==> status.Ok?
    {
      var written: bool := *;
      if written || env.calm {
        saved := memory;
      }
      var survives: bool := *;
      if !env.calm && !survives {
        return Crashed;
      }
      return if saved == memory && (written || env.calm) then Ok else Threw;
    }

    /** Other users of the Docker daemon may act before any command of ours reaches it. */
    method Interfere(env: Env)
      requires Base()
      modifies this`docker
      ensures Base() && Interference(old(docker), docker, w)
      ensures env.alone ==> docker == old(docker)
      ensures old(Safe()) ==> Safe()
    {
      var d: set<Object> := *;
      if !env.alone && World(d, used, w) && Interference(docker, d, w) {
        InterferenceKeeps(saved, docker, d, used, w);
        InterferenceKeeps(memory, docker, d, used, w);
        docker := d;
      }
    }

    /** `inspect`: a refused command, one that fails other than by timeout or interrupt, reads as absence. */
    method Inspect(e: Entry, env: Env, refused: bool) returns (status: Status, found: Bytes.Option<Object>)
      requires Base()
      modifies this`docker
      ensures Base() && Interference(old(docker), docker, w)
      ensures env.alone ==> docker == old(docker)
      ensures old(Safe()) ==> Safe()
      ensures status.Ok? && found.Some? ==> !refused && found.value in docker && Resolves(e, found.value)
      ensures status.Ok? && found.None? && !refused ==> forall o :: o in docker ==> !Resolves(e, o)
      ensures env.calm ==> status.Ok?
    {
      Interfere(env);
      var reply: int := *;
      if !env.calm && reply == 0 {
        return Crashed, Bytes.None;
      } else if !env.calm && reply == 1 {
        return Threw, Bytes.None;
      } else if refused {
        return Ok, Bytes.None;
      }
      if o :| o in docker && Resolves(e, o) {
        return Ok, Bytes.Some(o);
      }
      return Ok, Bytes.None;
    }

    /** Whether some lookup of a startup is refused. */
    method Refusal(env: Env) returns (refused: bool)
      ensures env.reliable ==> !refused
    {
      refused := *;
      refused := refused && !env.reliable;
    }

    /** What `observe` may do: entry i is refined to the object it already pointed at. */
    ghost predicate Refined(before: seq<Entry>, i: nat, present: bool)
      reads this
    {
      && i < |before| == |memory|
      && memory[i].kind == before[i].kind && memory[i].name == before[i].name
      && memory == before[i := memory[i]]
      && (present ==> memory[i].stable.Known?)
      && (!present ==> memory == before)
      && (forall p :: p in docker && Owned(p, w) ==> (CoveredBy(p, memory) <==> CoveredBy(p, before)))
      && (forall p :: p in docker ==> (Resolves(memory[i], p) <==> Resolves(before[i], p)))
    }

    ghost predicate CoversOne(i: nat)
      requires i < |memory|
      reads this
    {
      exists o :: o in docker && Resolves(memory[i], o)
    }

    /** `observe` on entry i; it throws rather than touch an object that is not the entry's. */
    method Observe(i: nat, env: Env, refused: bool) returns (status: Status, present: bool)
      requires Base() && i < |memory|
      modifies this`docker, this`memory
      ensures Base() && Interference(old(docker), docker, w)
      ensures env.alone ==> docker == old(docker)
      ensures old(Safe()) ==> Safe()
      ensures env.alone && old(Quiet()) ==> Quiet()
      ensures Refined(old(memory), i, present)
      ensures status.Ok? ==> Checked(old(memory)[i], memory[i], refused, docker, w, true)
      ensures status.Ok? ==> (present <==> !refused && CoversOne(i))
      ensures status.Ok? && !refused ==> FitsIn(old(memory)[i], docker, w) && FitsIn(memory[i], docker, w)
      ensures env.calm && (refused || FitsIn(old(memory)[i], docker, w)) ==> status.Ok?
    {
      var found;
      present := false;
      status, found := Inspect(memory[i], env, refused);
      if !status.Ok? || found.None? {
        return;
      }
      var o := found.value;
      assert memory[i] in memory;
      if !Matches(memory[i], o, w) {
        return Threw, false;
      }
      ObserveKeeps(memory, i, o, docker, used, w);
      forall p | p in docker
        ensures Resolves(Observed(memory[i], o), p) <==> Resolves(memory[i], p)
        ensures Resolves(Observed(memory[i], o), p) ==> Matches(Observed(memory[i], o), p, w)
      {
        ObservedResolves(docker, used, w, memory[i], o, p);
      }
      memory := memory[i := Observed(memory[i], o)];
      return Ok, true;
    }

    ghost predicate SameCoverage(before: seq<Entry>)
      reads this
    {
      forall p :: p in docker && Owned(p, w) ==> (CoveredBy(p, memory) <==> CoveredBy(p, before))
    }

    /** Every entry is observed before anything is removed. */
    method ObserveAll(env: Env, checks: seq<bool>) returns (status: Status)
      requires Base()
      modifies this`docker, this`memory
      ensures Base() && Interference(old(docker), docker, w)
      ensures env.alone ==> docker == old(docker)
      ensures old(Safe()) ==> Safe()
      ensures env.alone && old(Quiet()) ==> Quiet()
      ensures |memory| == |old(memory)| && SameCoverage(old(memory))
      ensures status.Ok? ==> AllChecked(old(memory), memory, checks, docker, w, env.alone)
      ensures env.alone && status.Ok? ==> ChecksPass(old(memory), checks, docker, w) && ChecksPass(memory, checks, docker, w)
      ensures env.alone && env.calm && old(ChecksPass(memory, checks, docker, w)) ==> status.Ok?
    {
      for i := 0 to |memory|
        invariant Base() && Interference(old(docker), docker, w)
        invariant env.alone ==> docker == old(docker)
        invariant (old(Safe()) ==> Safe()) && (env.alone && old(Quiet()) ==> Quiet())
        invariant PassAccount(old(memory), checks, i, env.alone)
      {
        status := CheckNext(i, env, checks, old(memory));
        if !status.Ok? {
          return;
        }
      }
      return Ok;
    }

    /** The first pass has dealt with the entries of `l` below index n. */
    ghost predicate PassAccount(l: seq<Entry>, checks: seq<bool>, n: nat, alone: bool)
      reads this
    {
      && n <= |l| == |memory| && SameCoverage(l)
      && (forall j :: n <= j < |l| ==> memory[j] == l[j])
      && (forall j :: 0 <= j < n ==> Checked(l[j], memory[j], Refused(checks, j), docker, w, alone))
      && (alone ==> forall j :: 0 <= j < n && !Refused(checks, j) ==> FitsIn(l[j], docker, w) && FitsIn(memory[j], docker, w))
    }

    method CheckNext(i: nat, env: Env, checks: seq<bool>, ghost l: seq<Entry>) returns (status: Status)
      requires Base() && i < |memory| && PassAccount(l, checks, i, env.alone)
      modifies this`docker, this`memory
      ensures Base() && Interference(old(docker), docker, w)
      ensures env.alone ==> docker == old(docker)
      ensures (old(Safe()) ==> Safe()) && (env.alone && old(Quiet()) ==> Quiet())
      ensures |memory| == |l| && SameCoverage(l)
      ensures status.Ok? ==> PassAccount(l, checks, i + 1, env.alone)
      ensures env.calm && (Refused(checks, i) || FitsIn(l[i], docker, w)) ==> status.Ok?
      ensures env.alone && !Refused(checks, i) && !FitsIn(l[i], docker, w) ==> !status.Ok?
    {
      var present;
      status, present := Observe(i, env, Refused(checks, i));
    }

    /** `docker … rm`, which may also fail or be cut short after the object is gone. */
    method Remove(i: nat, env: Env) returns (status: Status)
      requires Base() && i < |memory|
      modifies this`docker
      ensures Base() && Interference(old(docker), docker, w)
      ensures env.alone ==> docker <= old(docker) && forall o :: o in old(docker) && !Resolves(memory[i], o) ==> o in docker
      ensures old(Safe()) ==> Safe()
      ensures env.alone && old(Quiet()) ==> Quiet()
      ensures status.Ok? ==> memory[i].stable.Known? && forall o :: o in docker ==> !Resolves(memory[i], o)
      ensures env.calm && env.alone && memory[i].stable.Known? && old(CoversOne(i)) ==> status.Ok?
    {
      Interfere(env);
      var reply: int := *;
      if !env.calm && reply == 0 {
        return Crashed;
      } else if (!env.calm && reply == 1) || memory[i].stable.Pending? {
        return Threw;
      }
      if o :| o in docker && Resolves(memory[i], o) {
        RemoveKeeps(saved, o, docker, used, w);
        RemoveKeeps(memory, o, docker, used, w);
        docker := docker - {o};
        if !env.calm && reply == 2 {
          return Crashed;
        } else if !env.calm && reply == 3 {
          return Threw;
        }
        return Ok;
      }
      return Threw;
    }

    /** An entry leaves the ledger; exactly the owned object it resolved to, if any, loses its cover. */
    method Erase(i: nat, env: Env) returns (status: Status)
      requires Base() && i < |memory|
      modifies this`memory, this`saved
      ensures Base() && memory == Without(old(memory), i)
      ensures saved == old(saved) || saved == memory
      ensures status.Ok? ==> saved == memory
      ensures forall p :: p in docker && Owned(p, w) ==>
        (CoveredBy(p, memory) <==> CoveredBy(p, old(memory)) && !Resolves(old(memory)[i], p))
      ensures old(Safe()) && (forall p :: p in docker && Owned(p, w) ==> !Resolves(old(memory)[i], p)) ==> Safe()
      ensures old(Quiet()) ==> Quiet()
      ensures env.calm ==> status.Ok?
    {
      EraseKeeps(memory, i, docker, used, w);
      forall p | p in docker && Owned(p, w)
        ensures CoveredBy(p, Without(memory, i)) <==> CoveredBy(p, memory) && !Resolves(memory[i], p)
      {
        EraseUncovers(memory, i, p, docker, used, w);
      }
      memory := Without(memory, i);
      status := Save(env);
    }

    /** Commands that change nothing the ledger speaks of: stopping, starting, reading logs. */
    method Run(env: Env) returns (status: Status)
      ensures env.calm ==> status.Ok?
    {
      var reply: int := *;
      return if env.calm then Ok else if reply == 0 then Crashed else if reply == 1 then Threw else Ok;
    }

    /** The object has an entry in the saved ledger and in the one about to be saved. */
    ghost predicate CoverLeft(p: Object)
      reads this
    {
      CoveredBy(p, saved) && CoveredBy(p, memory)
    }

    /**
     Removal of one entry in `stop`. The entry's object is gone afterwards, or the lookup was refused and the
     object stays without an entry.
     */
    method RemoveEntry(i: nat, env: Env, refused: bool) returns (status: Status)
      requires Base() && i < |memory|
      modifies this`docker, this`memory, this`saved
      ensures Base() && Interference(old(docker), docker, w)
      ensures env.alone && old(Quiet()) ==> Quiet()
      ensures status.Ok? ==> saved == memory == Without(old(memory), i)
      ensures status.Ok? && !refused ==>
        forall p :: p in docker && (env.alone || Owned(p, w)) ==> !Resolves(old(memory)[i], p)
      ensures status.Ok? ==> forall p :: p in docker && Owned(p, w) ==>
        (CoveredBy(p, memory) <==> CoveredBy(p, old(memory)) && !Resolves(old(memory)[i], p))
      ensures forall p :: p in docker && Owned(p, w) && old(CoverLeft(p)) ==>
        (refused && Resolves(old(memory)[i], p)) || CoverLeft(p)
      ensures env.alone ==> docker <= old(docker)
      ensures env.alone ==> forall o :: o in old(docker) && (refused || !Resolves(old(memory)[i], o)) ==> o in docker
      ensures env.alone && !old(FitsIn(memory[i], docker, w)) && !refused ==> !status.Ok? && docker == old(docker)
      ensures env.calm && env.alone && (refused || old(FitsIn(memory[i], docker, w))) ==> status.Ok?
    {
      var present :- Observe(i, env, refused);
      if present {
        status := Run(env);
        if !status.Ok? {
          return;
        }
        :- Remove(i, env);
      }
      status := Erase(i, env);
    }

    /** Coverage while the removal loop has dealt with the entries of `l` from index n on. */
    ghost predicate CoverAccount(l: seq<Entry>, removals: seq<bool>, n: nat)
      reads this
    {
      forall p :: p in docker && Owned(p, w) ==>
        (CoveredBy(p, memory) <==> CoveredBy(p, l) && !AbandonedFrom(p, l, removals, credential, n))
    }

    /** Docker meanwhile, when nobody else acts. */
    ghost predicate RemovalAccount(d: set<Object>, l: seq<Entry>, removals: seq<bool>, n: nat)
      reads this
    {
      docker <= d && forall o :: o in d ==> (o in docker <==> !RemovedFrom(o, l, removals, credential, n))
    }

    ghost predicate NoneBlocks(d: set<Object>, l: seq<Entry>, removals: seq<bool>, n: nat) {
      forall k :: n <= k < |l| ==> !Blocks(l, k, d, w, removals, credential)
    }

    ghost predicate Subset(after: seq<Entry>, before: seq<Entry>) {
      forall e :: e in after ==> e in before
    }

    /** One step of the removal loop; retained volumes are passed over. */
    method RemovalStep(i: nat, env: Env, removals: seq<bool>, ghost d: set<Object>, ghost l: seq<Entry>)
      returns (status: Status)
      requires Base() && saved == memory && i < |memory| && i < |l| && memory[..i + 1] == l[..i + 1]
      requires LedgerOk(l, d, used, w) && CoverAccount(l, removals, i + 1)
      requires env.alone ==> RemovalAccount(d, l, removals, i + 1) && NoneBlocks(d, l, removals, i + 1)
      modifies this`docker, this`memory, this`saved
      ensures Base() && Interference(old(docker), docker, w) && (env.alone && old(Quiet()) ==> Quiet())
      ensures status.Ok? ==> saved == memory && i <= |memory| && memory[..i] == l[..i] && Subset(memory, old(memory))
      ensures status.Ok? ==> memory[i..] == if Retained(l[i], credential) then old(memory)[i..] else old(memory)[i + 1..]
      ensures status.Ok? ==> CoverAccount(l, removals, i)
      ensures status.Ok? && env.alone ==> RemovalAccount(d, l, removals, i) && NoneBlocks(d, l, removals, i)
      ensures forall p :: p in docker && Owned(p, w) && old(CoverLeft(p)) ==>
        AbandonedFrom(p, l, removals, credential, i) || CoverLeft(p)
      ensures env.alone ==> docker <= old(docker)
      ensures env.alone ==> forall o :: o in old(docker) && !RemovedAt(o, l, removals, credential, i) ==> o in docker
      ensures env.alone && Blocks(l, i, d, w, removals, credential) ==> !status.Ok? && docker == old(docker)
      ensures env.alone && env.calm && !Blocks(l, i, d, w, removals, credential) ==> status.Ok?
    {
      FromStep(l, removals, credential, i);
      assert memory[i] == l[i];
      if Retained(memory[i], credential) {
        assert memory[..i] == l[..i];
        return Ok;
      }
      if env.alone {
        FitsAgain(l, i, d, docker, used, w, removals, credential);
      }
      status := RemoveEntry(i, env, Refused(removals, i));
    }

    /** The removal loop of `stop`, last entry first. */
    method RemoveAll(env: Env, removals: seq<bool>) returns (status: Status)
      requires Base() && saved == memory
      modifies this`docker, this`memory, this`saved
      ensures Base() && Interference(old(docker), docker, w) && (env.alone && old(Quiet()) ==> Quiet())
      ensures status.Ok? ==> saved == memory && (forall e :: e in memory ==> Retained(e, credential)) && Subset(memory, old(memory))
      ensures status.Ok? ==> CoverAccount(old(memory), removals, 0)
      ensures forall p :: p in docker && Owned(p, w) && old(CoverLeft(p)) ==>
        AbandonedFrom(p, old(memory), removals, credential, 0) || CoverLeft(p)
      ensures env.alone && status.Ok? ==> RemovalAccount(old(docker), old(memory), removals, 0)
      ensures env.alone ==> forall o :: o in old(docker) && !RemovedFrom(o, old(memory), removals, credential, 0) ==> o in docker
      ensures env.alone && env.calm ==>
        var floor := Floor(old(memory), |old(memory)|, old(docker), w, removals, credential);
        RemovalAccount(old(docker), old(memory), removals, floor) && (status.Ok? <==> floor == 0)
    {
      var index: nat := |memory|;
      assert memory[..index] == old(memory)[..index];
      while index > 0
        invariant index <= |memory| && index <= |old(memory)| && saved == memory && memory[..index] == old(memory)[..index]
        invariant Base() && Interference(old(docker), docker, w) && (env.alone && old(Quiet()) ==> Quiet())
        invariant LedgerOk(old(memory), old(docker), used, w)
        invariant forall j :: index <= j < |memory| ==> Retained(memory[j], credential)
        invariant Subset(memory, old(memory))
        invariant CoverAccount(old(memory), removals, index)
        invariant forall p :: p in docker && Owned(p, w) && old(CoverLeft(p)) ==>
          AbandonedFrom(p, old(memory), removals, credential, index) || CoverLeft(p)
        invariant env.alone ==> RemovalAccount(old(docker), old(memory), removals, index)
        invariant env.alone ==> NoneBlocks(old(docker), old(memory), removals, index)
      {
        index := index - 1;
        FromStep(old(memory), removals, credential, index);
        status := RemovalStep(index, env, removals, old(docker), old(memory));
        if !status.Ok? {
          return;
        }
      }
      return Ok;
    }

    /** Nothing of this owner is left but volumes other than the credential volume. */
    ghost predicate Clean()
      reads this
    {
      forall o :: o in docker && Owned(o, w) ==> o.kind.Volume? && o.name != credential
    }

    ghost predicate NamedIn(e: Entry, l: seq<Entry>) {
      exists j :: 0 <= j < |l| && l[j].kind == e.kind && l[j].name == e.name
    }

    /** No owned object in Docker is abandoned by a stop that starts from this ledger. */
    ghost predicate NoneAbandoned(d: set<Object>, l: seq<Entry>, lookups: Lookups) {
      forall p :: p in d && Owned(p, w) ==> !Abandoned(p, l, lookups, credential)
    }

    /** No entry stops the removal loop of a stop that starts from this ledger. */
    ghost predicate NoneBlocksLate(d: set<Object>, l: seq<Entry>, lookups: Lookups) {
      forall i :: 0 <= i < |l| ==> !BlocksLate(l, i, d, w, lookups, credential)
    }

    /**
     `stop`. Whether the ledger still covers every owned object afterwards is decided by which lookups are
     refused: exactly when no owned object's entry is due for removal with its lookup refused. Nothing is
     touched when an unrefused check finds another's object; otherwise, in a calm run, exactly the objects
     are removed that come before the first late surprise.
     */
    method Stop(env: Env, lookups: Lookups) returns (status: Status)
      requires Base()
      modifies this`docker, this`memory, this`saved
      ensures Base() && Interference(old(docker), docker, w) && (env.alone && old(Quiet()) ==> Quiet())
      ensures status.Ok? ==>
        saved == memory && forall e :: e in saved ==> Retained(e, credential) && NamedIn(e, old(memory))
      ensures status.Ok? ==> forall p :: p in docker && Owned(p, w) ==>
        (CoveredBy(p, saved) <==> CoveredBy(p, old(memory)) && !Abandoned(p, old(memory), lookups, credential))
      ensures forall p :: p in docker && Owned(p, w) && old(CoverLeft(p)) ==>
        Abandoned(p, old(memory), lookups, credential) || CoverLeft(p)
      ensures status.Ok? && env.alone && old(Safe()) ==>
        (Covered(docker, saved, w) <==> NoneAbandoned(old(docker), old(memory), lookups))
      ensures status.Ok? && Covered(docker, saved, w) ==> Clean()
      ensures env.alone && !old(ChecksPass(memory, lookups.checks, docker, w)) ==>
        !status.Ok? && docker == old(docker) && saved == old(saved)
      ensures env.alone && env.calm && old(ChecksPass(memory, lookups.checks, docker, w)) ==>
        && docker <= old(docker)
        && (forall o :: o in old(docker) ==>
              (o in docker <==> !TakenAway(o, old(memory), old(docker), w, lookups, credential)))
        && (status.Ok? <==> NoneBlocksLate(old(docker), old(memory), lookups))
    {
      status := ObserveAll(env, lookups.checks);
      if !status.Ok? {
        return;
      }
      status := Clear(env, lookups, old(memory));
    }

    /** `stop` after the first pass over the ledger `l`. */
    method Clear(env: Env, lookups: Lookups, ghost l: seq<Entry>) returns (status: Status)
      requires Base() && AllChecked(l, memory, lookups.checks, docker, w, env.alone) && LedgerOk(l, docker, used, w)
      requires SameCoverage(l)
      requires env.alone ==> ChecksPass(l, lookups.checks, docker, w) && ChecksPass(memory, lookups.checks, docker, w)
      modifies this`docker, this`memory, this`saved
      ensures Base() && Interference(old(docker), docker, w) && (env.alone && old(Quiet()) ==> Quiet())
      ensures status.Ok? ==> saved == memory && forall e :: e in saved ==> Retained(e, credential) && NamedIn(e, l)
      ensures status.Ok? ==> forall p :: p in docker && Owned(p, w) ==>
        (CoveredBy(p, saved) <==> CoveredBy(p, l) && !Abandoned(p, l, lookups, credential))
      ensures forall p :: p in docker && Owned(p, w) && old(CoverLeft(p)) ==>
        Abandoned(p, l, lookups, credential) || CoverLeft(p)
      ensures env.alone ==> forall p :: p in old(docker) && Owned(p, w) && Abandoned(p, l, lookups, credential) ==> p in docker
      ensures env.alone && env.calm ==>
        && docker <= old(docker)
        && (forall o :: o in old(docker) ==> (o in docker <==> !TakenAway(o, l, old(docker), w, lookups, credential)))
        && (status.Ok? <==> NoneBlocksLate(old(docker), l, lookups))
    {
      AllCheckedOwned(l, memory, lookups.checks, docker, w, env.alone);
      forall e | e in memory
        ensures NamedIn(e, l)
      {
        var j :| 0 <= j < |memory| && memory[j] == e;
        assert Checked(l[j], memory[j], Refused(lookups.checks, j), docker, w, env.alone);
      }
      forall p | p in docker && Owned(p, w)
        ensures AbandonedFrom(p, memory, lookups.removals, credential, 0) <==> Abandoned(p, l, lookups, credential)
        ensures Abandoned(p, l, lookups, credential) ==> !RemovedFrom(p, memory, lookups.removals, credential, 0)
      {
        AbandonedBefore(l, memory, p, docker, w, lookups, credential);
        if Abandoned(p, l, lookups, credential) {
          AbandonedStays(memory, p, docker, used, w, lookups.removals, credential);
        }
      }
      if env.alone {
        ClearedAlone(docker, l, memory, lookups);
      }
      :- Save(env);
      :- Run(env);
      :- Save(env);
      status := RemoveAll(env, lookups.removals);
    }

    lemma ClearedAlone(d: set<Object>, l: seq<Entry>, m: seq<Entry>, lookups: Lookups)
      requires LedgerOk(l, d, used, w) && AllChecked(l, m, lookups.checks, d, w, true)
      requires ChecksPass(l, lookups.checks, d, w) && ChecksPass(m, lookups.checks, d, w)
      ensures var floor := Floor(m, |m|, d, w, lookups.removals, credential);
        && (floor == 0 <==> NoneBlocksLate(d, l, lookups))
        && forall o :: o in d ==>
             (RemovedFrom(o, m, lookups.removals, credential, floor) <==> TakenAway(o, l, d, w, lookups, credential))
    {
      forall i | 0 <= i < |l|
        ensures Blocks(m, i, d, w, lookups.removals, credential) <==> BlocksLate(l, i, d, w, lookups, credential)
      {
        BlocksBefore(l, m, i, d, w, lookups, credential);
      }
      forall o | o in d
        ensures var floor := Floor(m, |m|, d, w, lookups.removals, credential);
          RemovedFrom(o, m, lookups.removals, credential, floor) <==> TakenAway(o, l, d, w, lookups, credential)
      {
        TakenBefore(l, m, o, d, used, w, lookups, credential);
      }
    }

    // ----- startup -----

    ghost predicate Vacant(kind: Kind, name: string)
      reads this
    {
      forall e :: e in memory ==> e.kind != kind || e.name != name
    }

    /** `own`: the entry is recorded and saved before its object may exist. */
    method Own(kind: Kind, name: string, expected: Expected, env: Env) returns (status: Status)
      requires Base() && Vacant(kind, name) && Expectable(kind, expected)
      modifies this`docker, this`memory, this`saved
      ensures Base() && (old(Safe()) ==> Safe()) && (env.alone && env.reliable && old(Quiet()) ==> Quiet())
      ensures status.Ok? ==> saved == memory == old(memory) + [Entry(kind, name, Pending, expected, w.token)]
    {
      var e := Entry(kind, name, Pending, expected, w.token);
      var refused := Refusal(env);
      var found :- Inspect(e, env, refused);
      if found.Some? {
        return Threw;
      }
      PushKeeps(memory, e, docker, used, w);
      memory := memory + [e];
      status := Save(env);
    }

    predicate Taken(kind: Kind, name: string, id: string)
      reads this
    {
      exists o :: o in docker && o.kind == kind && (o.name == name || o.id == id)
    }

    /** A creation command for pending entry i; it may take effect even when it fails. */
    method Create(i: nat, env: Env) returns (status: Status)
      requires Base() && saved == memory && i < |memory| && memory[i].stable.Pending?
      modifies this`docker, this`used
      ensures Base() && (old(Safe()) ==> Safe()) && (env.alone && env.reliable && old(Quiet()) ==> Quiet())
    {
      Interfere(env);
      var e := memory[i];
      assert e in memory;
      var id: string := *;
      var created: string := *;
      if e.kind.Volume? {
        id := e.name;
      }
      var reply: int := *;
      if reply == 0 {
        return Crashed;
      } else if reply == 1 {
        return Threw;
      }
      if Taken(e.kind, e.name, id) || (!e.kind.Volume? && id in used) {
        return if e.kind.Volume? then Ok else Threw;
      }
      var image := if e.expected.Exactly? then e.expected.text else "";
      var o := Object(e.kind, e.name, id, w.token, w.graph, image, created);
      assert Matches(e, o, w);
      CreateKeeps(memory, e, o, docker, used, w);
      docker, used := docker + {o}, used + {id};
      return if reply == 2 then Crashed else if reply == 3 then Threw else Ok;
    }

    ghost predicate OnlyVolumes()
      reads this
    {
      forall e :: e in memory ==> e.kind.Volume?
    }

    method FindVolume(name: string) returns (index: nat)
      ensures index <= |memory|
      ensures index < |memory| ==> memory[index].kind.Volume? && memory[index].name == name
      ensures index == |memory| ==> Vacant(Volume, name)
    {
      index := 0;
      while index < |memory|
        invariant index <= |memory|
        invariant forall j :: 0 <= j < index ==> !memory[j].kind.Volume? || memory[j].name != name
      {
        if memory[index].kind.Volume? && memory[index].name == name {
          return;
        }
        index := index + 1;
      }
    }

    /** Pending entry i is created, observed and saved. */
    method Realize(i: nat, env: Env) returns (status: Status)
      requires Base() && saved == memory && i < |memory| && memory[i].stable.Pending?
      modifies this`docker, this`used, this`memory, this`saved
      ensures Base() && (old(Safe()) ==> Safe()) && (env.alone && env.reliable && old(Quiet()) ==> Quiet())
      ensures |memory| == |old(memory)| && forall j :: 0 <= j < |memory| ==> memory[j].kind == old(memory)[j].kind
      ensures status.Ok? ==> saved == memory
    {
      status := Create(i, env);
      if !status.Ok? {
        return;
      }
      var refused := Refusal(env);
      var present :- Observe(i, env, refused);
      status := Save(env);
    }

    /** A retained volume must still be there; any other is recorded, created and observed. */
    method EnsureVolume(name: string, env: Env) returns (status: Status)
      requires Base() && OnlyVolumes()
      modifies this`docker, this`used, this`memory, this`saved
      ensures Base() && (old(Safe()) ==> Safe()) && (env.alone && env.reliable && old(Quiet()) ==> Quiet())
      ensures status.Ok? ==> OnlyVolumes()
    {
      var index := FindVolume(name);
      if index < |memory| {
        var refused := Refusal(env);
        var present;
        status, present := Observe(index, env, refused);
        if status.Ok? && !present {
          status := Threw;
        }
        return;
      }
      :- Own(Volume, name, Unknown, env);
      status := Realize(index, env);
    }

    method EnsureVolumes(names: seq<string>, env: Env) returns (status: Status)
      requires Base() && OnlyVolumes()
      modifies this`docker, this`used, this`memory, this`saved
      ensures Base() && (old(Safe()) ==> Safe()) && (env.alone && env.reliable && old(Quiet()) ==> Quiet())
      ensures status.Ok? ==> OnlyVolumes()
    {
      for i := 0 to |names|
        invariant Base() && OnlyVolumes()
        invariant (old(Safe()) ==> Safe()) && (env.alone && env.reliable && old(Quiet()) ==> Quiet())
      {
        status := EnsureVolume(names[i], env);
        if !status.Ok? {
          return;
        }
      }
      return Ok;
    }

    /** The credential staging container lives only during startup, under its own entry. */
    method StageCredentials(stage: Service, env: Env) returns (status: Status)
      requires Base() && OnlyVolumes()
      modifies this`docker, this`used, this`memory, this`saved
      ensures Base() && (old(Safe()) ==> Safe()) && (env.alone && env.reliable && old(Quiet()) ==> Quiet())
      ensures status.Ok? ==> OnlyVolumes() && saved == memory
    {
      var index := |memory|;
      :- Own(Container, stage.name, Exactly(stage.image), env);
      :- Realize(index, env);
      :- Run(env);
      :- Remove(index, env);
      status := Erase(index, env);
    }

    ghost predicate NamedBelow(networks: seq<string>, n: nat, services: seq<Service>, m: nat)
      requires n <= |networks| && m <= |services|
      reads this
    {
      && (forall e :: e in memory && e.kind.Network? ==> e.name in networks[..n])
      && (forall e :: e in memory && e.kind.Container? ==> exists k :: 0 <= k < m && services[k].name == e.name)
    }

    method OwnAll(plan: Plan, env: Env) returns (status: Status)
      requires Base() && OnlyVolumes() && PlanOk(plan) && saved == memory
      modifies this`docker, this`memory, this`saved
      ensures Base() && (old(Safe()) ==> Safe()) && (env.alone && env.reliable && old(Quiet()) ==> Quiet())
      ensures status.Ok? ==> saved == memory
    {
      for i := 0 to |plan.networks|
        invariant Base() && saved == memory && NamedBelow(plan.networks, i, [], 0)
        invariant (old(Safe()) ==> Safe()) && (env.alone && env.reliable && old(Quiet()) ==> Quiet())
      {
        status := Own(Network, plan.networks[i], Exactly(w.token), env);
        if !status.Ok? {
          return;
        }
      }
      for i := 0 to |plan.services|
        invariant Base() && saved == memory && NamedBelow(plan.networks, |plan.networks|, plan.services, i)
        invariant (old(Safe()) ==> Safe()) && (env.alone && env.reliable && old(Quiet()) ==> Quiet())
      {
        status := Own(Container, plan.services[i].name, Exactly(plan.services[i].image), env);
        if !status.Ok? {
          return;
        }
      }
      return Ok;
    }

    /** `docker compose create`: when it fails, any of the objects may have been created. */
    method ComposeCreate(env: Env) returns (status: Status)
      requires Base() && saved == memory
      modifies this`docker, this`used
      ensures Base() && (old(Safe()) ==> Safe()) && (env.alone && env.reliable && old(Quiet()) ==> Quiet())
    {
      status := Ok;
      for i := 0 to |memory|
        invariant Base() && saved == memory
        invariant (old(Safe()) ==> Safe()) && (env.alone && env.reliable && old(Quiet()) ==> Quiet())
      {
        if memory[i].stable.Pending? && !memory[i].kind.Volume? {
          var created := Create(i, env);
          if created.Crashed? {
            return Crashed;
          } else if created.Threw? {
            status := Threw;
          }
        }
      }
    }

    method Build(plan: Plan, env: Env) returns (status: Status)
      requires Base() && OnlyVolumes() && PlanOk(plan)
      modifies this`docker, this`used, this`memory, this`saved
      ensures Base() && (old(Safe()) ==> Safe()) && (env.alone && env.reliable && old(Quiet()) ==> Quiet())
    {
      status := EnsureVolumes(plan.volumes, env);
      if !status.Ok? {
        return;
      }
      :- StageCredentials(plan.stage, env);
      :- OwnAll(plan, env);
      :- ComposeCreate(env);
      var checks: seq<bool> := *;
      :- ObserveAll(env, checks);
      :- Save(env);
      status := Run(env);
    }

    predicate Active()
      reads this
    {
      exists e :: e in memory && (!e.kind.Volume? || e.name == credential)
    }

    /** `up`: refused while anything but retained volumes is recorded; a failed startup is stopped again. */
    method Up(plan: Plan, env: Env, lookups: Lookups) returns (status: Status)
      requires Base() && PlanOk(plan)
      modifies this`docker, this`used, this`memory, this`saved
      ensures Base() && (env.alone && env.reliable && old(Quiet()) ==> Quiet())
      ensures old(Safe()) && NothingRefused(lookups.removals) ==> Safe()
      ensures old(Active()) ==> status == Threw && docker == old(docker) && saved == old(saved)
    {
      if Active() {
        return Threw;
      }
      :- Save(env);
      status := Build(plan, env);
      if status.Threw? {
        var stopped := Stop(env, lookups);
        if stopped.Crashed? {
          return Crashed;
        }
      }
    }

    /** `down`: with no removal lookup refused, completing leaves nothing but recorded retained volumes. */
    method Down(env: Env, lookups: Lookups) returns (status: Status)
      requires Base()
      modifies this`docker, this`memory, this`saved
      ensures Base() && (env.alone && env.reliable && old(Quiet()) ==> Quiet())
      ensures old(Safe()) && NothingRefused(lookups.removals) ==> Safe()
      ensures old(Safe()) && NothingRefused(lookups.removals) && status.Ok? ==> Clean()
      ensures status.Ok? ==> forall e :: e in saved ==> Retained(e, credential)
      ensures env.calm && env.alone && old(Quiet()) ==> status.Ok?
    {
      status := Stop(env, lookups);
    }

    /**
     A creation whose command was given up lands between two runs, unless its name or identifier is taken. It
     leaves the ledger covering exactly when the ledger still has the entry that was recorded for it.
     */
    method Arrive(o: Object) returns (landed: bool)
      requires Base() && o.owner == w.token && o.graph == w.graph && (o.kind.Volume? ==> o.id == o.name)
      modifies this`docker, this`used
      ensures Base() && docker == if landed then old(docker) + {o} else old(docker)
      ensures landed <==> !old(Taken(o.kind, o.name, o.id)) && (o.kind.Volume? || o.id !in old(used))
      ensures landed ==>
        (Covered(docker, saved, w) <==> old(Covered(docker, saved, w)) && exists e :: e in saved && Awaits(e, o))
    {
      landed := !Taken(o.kind, o.name, o.id) && (o.kind.Volume? || o.id !in used);
      if landed {
        ArriveKeeps(saved, o, docker, used, w);
        ArriveKeeps(memory, o, docker, used, w);
        docker, used := docker + {o}, used + {o.id};
      }
    }

    /** A new process knows only what was saved. */
    method Load()
      requires Base()
      modifies this`memory
      ensures memory == saved && Base() && (old(Safe()) ==> Safe()) && (old(Quiet()) ==> Quiet())
    {
      memory := saved;
    }
  }

  ghost predicate NothingRefused(script: seq<bool>) {
    forall i :: 0 <= i < |script| ==> !script[i]
  }

  datatype Command = StartUp(plan: Plan, env: Env, lookups: Lookups) | TearDown(env: Env, lookups: Lookups)

  function EnvOf(c: Command): Env {
    c.env
  }

  function LookupsOf(c: Command): Lookups {
    c.lookups
  }

  /**
   Any sequence of runs of `up` and `down`, each of which may fail or die between any two effects, with any
   lookups refused: as long as none before a removal is, every owned object is in the saved ledger whenever a
   run ends, however it ends. With nobody else acting and no startup lookup refused, no entry ever points at a
   foreign object.
   */
  method Lifecycle(runner: Runner, commands: seq<Command>)
    requires runner.Base() && runner.Safe() && runner.Quiet()
    requires forall i :: 0 <= i < |commands| && commands[i].StartUp? ==> PlanOk(commands[i].plan)
    modifies runner
    ensures runner.Base()
    ensures (forall i :: 0 <= i < |commands| ==> NothingRefused(LookupsOf(commands[i]).removals)) ==> runner.Safe()
    ensures (forall i :: 0 <= i < |commands| ==> EnvOf(commands[i]).alone && EnvOf(commands[i]).reliable) ==> runner.Quiet()
  {
    for i := 0 to |commands|
      invariant runner.Base()
      invariant (forall j :: 0 <= j < i ==> NothingRefused(LookupsOf(commands[j]).removals)) ==> runner.Safe()
      invariant (forall j :: 0 <= j < i ==> EnvOf(commands[j]).alone && EnvOf(commands[j]).reliable) ==> runner.Quiet()
    {
      runner.Load();
      var status;
      match commands[i] {
        case StartUp(plan, env, lookups) => status := runner.Up(plan, env, lookups);
        case TearDown(env, lookups) => status := runner.Down(env, lookups);
      }
    }
  }

  /**
   Cleanup is restartable: after any history with crashes anywhere, in which nobody else acted and only checks
   of a stop were refused, one calm `down` completes and leaves nothing of the owner but retained volumes, all
   of them in the ledger.
   */
  method CleanupCompletes(runner: Runner, commands: seq<Command>, checks: seq<bool>)
    requires runner.Base() && runner.Safe() && runner.Quiet()
    requires forall i :: 0 <= i < |commands| ==> EnvOf(commands[i]).alone && EnvOf(commands[i]).reliable
    requires forall i :: 0 <= i < |commands| ==> NothingRefused(LookupsOf(commands[i]).removals)
    requires forall i :: 0 <= i < |commands| && commands[i].StartUp? ==> PlanOk(commands[i].plan)
    modifies runner
    ensures runner.Clean() && Covered(runner.docker, runner.saved, runner.w)
    ensures forall e :: e in runner.saved ==> Retained(e, runner.credential)
  {
    Lifecycle(runner, commands);
    runner.Load();
    var status := runner.Down(Env(true, true, true), Lookups(checks, []));
  }

  // ----- what refused lookups do -----

  const QUIET_HOST: Env := Env(true, true, true)

  function OwnNetwork(w: Owner): Object {
    Object(Network, "graphx-g-data", "4f2a", w.token, w.graph, "", "")
  }

  function OwnEntry(w: Owner): Entry {
    Entry(Network, "graphx-g-data", Known("4f2a"), Exactly(w.token), w.token)
  }

  /** A stop of one network whose removal lookup is refused completes and leaves the network unrecorded. */
  method RefusedRemovalLosesNetwork(w: Owner) returns (runner: Runner, status: Status)
    ensures Covered({OwnNetwork(w)}, [OwnEntry(w)], w)
    ensures status.Ok? && runner.docker == {OwnNetwork(w)} && runner.w == w
    ensures !Covered(runner.docker, runner.saved, w)
  {
    var o, e := OwnNetwork(w), OwnEntry(w);
    assert e in [e] && Resolves(e, o) && CoveredBy(o, [e]);
    runner := new Runner.Resume(w, "credentials", {o}, {"4f2a"}, [e]);
    status := runner.Stop(QUIET_HOST, Lookups([], [true]));
  }

  /** A stop takes the entry of a creation that was given up for absent and erases it; then the network lands. */
  method LateNetworkEscapes(w: Owner) returns (runner: Runner, status: Status, landed: bool)
    ensures status.Ok? && landed && runner.w == w && !Covered(runner.docker, runner.saved, w)
  {
    var e := PendingEntry(w);
    assert e in [e];
    runner := new Runner.Resume(w, "credentials", {}, {}, [e]);
    status := runner.Stop(QUIET_HOST, Lookups([], []));
    landed := runner.Arrive(Object(Network, e.name, "4f2a", w.token, w.graph, "", ""));
  }

  function ForeignNetwork(w: Owner): Object {
    Object(Network, "graphx-g-control", "77aa", w.token + "'", w.graph, "", "")
  }

  function PendingEntry(w: Owner): Entry {
    Entry(Network, "graphx-g-control", Pending, Exactly(w.token), w.token)
  }

  /** With the check of a contested entry refused, an own network is removed before the stop throws. */
  method RefusedCheckRemovesFirst(w: Owner) returns (runner: Runner, status: Status)
    ensures Contests(PendingEntry(w), {ForeignNetwork(w), OwnNetwork(w)}, w)
    ensures status != Ok && runner.docker == {ForeignNetwork(w)}
  {
    ContestedState(w);
    runner := new Runner.Resume(w, "credentials", {ForeignNetwork(w), OwnNetwork(w)}, {"4f2a"},
                                [PendingEntry(w), OwnEntry(w)]);
    status := runner.Stop(QUIET_HOST, Lookups([true], []));
  }

  lemma ContestedState(w: Owner)
    ensures var l, d, lookups := [PendingEntry(w), OwnEntry(w)], {ForeignNetwork(w), OwnNetwork(w)}, Lookups([true], []);
      && World(d, {"4f2a"}, w) && LedgerOk(l, d, {"4f2a"}, w) && ChecksPass(l, lookups.checks, d, w)
      && Contests(PendingEntry(w), d, w) && BlocksLate(l, 0, d, w, lookups, "credentials")
      && TakenAway(OwnNetwork(w), l, d, w, lookups, "credentials")
      && !TakenAway(ForeignNetwork(w), l, d, w, lookups, "credentials")
  {
    var l, d, lookups := [PendingEntry(w), OwnEntry(w)], {ForeignNetwork(w), OwnNetwork(w)}, Lookups([true], []);
    assert |w.token + "'"| == |w.token| + 1;
    assert ForeignNetwork(w) in d && Resolves(l[0], ForeignNetwork(w)) && !Matches(l[0], ForeignNetwork(w), w);
    assert TakenAt(OwnNetwork(w), l, lookups, "credentials", 1);
    assert "4f2a"[0] != "77aa"[0] && !Resolves(l[1], ForeignNetwork(w));
    assert BlocksLate(l, 0, d, w, lookups, "credentials");
  }
}
