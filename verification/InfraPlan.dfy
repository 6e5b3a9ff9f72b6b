/**
 Running an infrastructure plan command by command, and compensating in reverse order when one fails. The
 machine is a state that commands change and identity queries read.
 */
module InfraPlan {
  type Arguments = seq<string>

  datatype Command = Command(arguments: Arguments, ignoreFailure: bool, rollback: Arguments, identity: Arguments)

  datatype Completed = Completed(command: Command, identity: string)

  /** Exit status and next state of a command; exit status and output of a query. */
  datatype Machine<!S> = Machine(execute: (Arguments, S) -> (int, S), query: (Arguments, S) -> (int, string))

  // ----- going forward -----

  /** The state before command k when all earlier ones ran. */
  function StateBefore<S>(m: Machine<S>, commands: seq<Command>, k: nat, start: S): S
    requires k <= |commands|
  {
    if k == 0 then start else m.execute(commands[k - 1].arguments, StateBefore(m, commands, k - 1, start)).1
  }

  function StatusOf<S>(m: Machine<S>, commands: seq<Command>, k: nat, start: S): int
    requires k < |commands|
  {
    m.execute(commands[k].arguments, StateBefore(m, commands, k, start)).0
  }

  predicate Compensable(c: Command) {
    c.rollback != []
  }

  /** What the identity query answers right after command k. */
  function IdentityOf<S>(m: Machine<S>, commands: seq<Command>, k: nat, start: S): (int, string)
    requires k < |commands|
  {
    if commands[k].identity == [] then (0, "") else m.query(commands[k].identity, StateBefore(m, commands, k + 1, start))
  }

  predicate Registers<S>(m: Machine<S>, commands: seq<Command>, k: nat, start: S)
    requires k < |commands|
  {
    StatusOf(m, commands, k, start) == 0 && Compensable(commands[k])
  }

  /** The plan goes past command k. */
  predicate Passes<S>(m: Machine<S>, commands: seq<Command>, k: nat, start: S)
    requires k < |commands|
  {
    && (StatusOf(m, commands, k, start) == 0 || commands[k].ignoreFailure)
    && (Registers(m, commands, k, start) ==> IdentityOf(m, commands, k, start).0 == 0)
  }

  function CompletedBefore<S>(m: Machine<S>, commands: seq<Command>, k: nat, start: S): seq<Completed>
    requires k <= |commands|
  {
    if k == 0 then []
    else
      CompletedBefore(m, commands, k - 1, start)
      + if Registers(m, commands, k - 1, start)
        then [Completed(commands[k - 1], IdentityOf(m, commands, k - 1, start).1)]
        else []
  }

  function ArgumentsOf(commands: seq<Command>): (a: seq<Arguments>)
    ensures |a| == |commands|
  {
    seq(|commands|, i requires 0 <= i < |commands| => commands[i].arguments)
  }

  // ----- going back -----

  predicate Unchanged<S>(m: Machine<S>, c: Completed, s: S) {
    c.command.identity == [] || m.query(c.command.identity, s) == (0, c.identity)
  }

  function UndoOne<S>(m: Machine<S>, c: Completed, s: S): S {
    if Unchanged(m, c, s) then m.execute(c.command.rollback, s).1 else s
  }

  /** The state once everything from index i on has been compensated, last first. */
  function UndoFrom<S>(m: Machine<S>, completed: seq<Completed>, i: nat, s: S): S
    requires i <= |completed|
    decreases |completed| - i
  {
    if i == |completed| then s else UndoOne(m, completed[i], UndoFrom(m, completed, i + 1, s))
  }

  /** The compensations run for the entries from index i on, in the order they run. */
  function UndoTrace<S>(m: Machine<S>, completed: seq<Completed>, i: nat, s: S): seq<Arguments>
    requires i <= |completed|
    decreases |completed| - i
  {
    if i == |completed| then []
    else
      UndoTrace(m, completed, i + 1, s)
      + if Unchanged(m, completed[i], UndoFrom(m, completed, i + 1, s)) then [completed[i].command.rollback] else []
  }

  method RollbackCompleted<S>(m: Machine<S>, completed: seq<Completed>, s: S)
    returns (state: S, trace: seq<Arguments>)
    ensures state == UndoFrom(m, completed, 0, s) && trace == UndoTrace(m, completed, 0, s)
  {
    state, trace := s, [];
    var i := |completed|;
    while i > 0
      invariant 0 <= i <= |completed|
      invariant state == UndoFrom(m, completed, i, s) && trace == UndoTrace(m, completed, i, s)
    {
      i := i - 1;
      var c := completed[i];
      if c.command.identity != [] {
        var (status, identity) := m.query(c.command.identity, state);
        if status != 0 || identity != c.identity {
          continue;
        }
      }
      state, trace := m.execute(c.command.rollback, state).1, trace + [c.command.rollback];
    }
  }

  // ----- the plan -----

  /** How a stopped plan ends: the last command's own compensation when its identity is unknown, then the others. */
  function OwnRollback<S>(m: Machine<S>, commands: seq<Command>, k: nat, start: S): seq<Arguments>
    requires k < |commands|
  {
    if Registers(m, commands, k, start) then [commands[k].rollback] else []
  }

  function StateWhenStopped<S>(m: Machine<S>, commands: seq<Command>, k: nat, start: S): S
    requires k < |commands|
  {
    var after := StateBefore(m, commands, k + 1, start);
    if Registers(m, commands, k, start) then m.execute(commands[k].rollback, after).1 else after
  }

  ghost predicate StopsAt<S>(m: Machine<S>, commands: seq<Command>, k: nat, start: S)
    requires k <= |commands|
  {
    (forall j :: 0 <= j < k ==> Passes(m, commands, j, start)) && (k < |commands| ==> !Passes(m, commands, k, start))
  }

  lemma ArgumentsStep(commands: seq<Command>, k: nat)
    requires k < |commands|
    ensures ArgumentsOf(commands[..k]) + [commands[k].arguments] == ArgumentsOf(commands[..k + 1])
  {
  }

  /**
   The plan succeeds exactly when no command stops it. When command k stops it, the commands up to k ran,
   then k's own compensation if its identity could not be read, then the matching earlier ones in reverse.
   */
  method ExecutePlan<S>(m: Machine<S>, commands: seq<Command>, dryRun: bool, start: S)
    returns (status: int, state: S, trace: seq<Arguments>, ghost k: nat)
    ensures k <= |commands|
    ensures dryRun ==> status == 0 && state == start && trace == []
    ensures !dryRun ==> StopsAt(m, commands, k, start) && (status == 0 <==> k == |commands|)
    ensures !dryRun && k == |commands| ==> state == StateBefore(m, commands, k, start) && trace == ArgumentsOf(commands)
    ensures !dryRun && k < |commands| ==> var completed := CompletedBefore(m, commands, k, start);
      var stopped := StateWhenStopped(m, commands, k, start);
      && state == UndoFrom(m, completed, 0, stopped)
      && trace == ArgumentsOf(commands[..k + 1]) + OwnRollback(m, commands, k, start)
                  + UndoTrace(m, completed, 0, stopped)
  {
    var completed: seq<Completed> := [];
    state, trace, k := start, [], 0;
    for i := 0 to |commands|
      invariant dryRun ==> state == start && trace == []
      invariant !dryRun ==> && state == StateBefore(m, commands, i, start) && trace == ArgumentsOf(commands[..i])
                            && completed == CompletedBefore(m, commands, i, start)
                            && forall j :: 0 <= j < i ==> Passes(m, commands, j, start)
    {
      if dryRun {
        continue;
      }
      var command := commands[i];
      ArgumentsStep(commands, i);
      var result := m.execute(command.arguments, state);
      status, state, trace, k := result.0, result.1, trace + [command.arguments], i;
      var undone;
      if status != 0 && !command.ignoreFailure {
        state, undone := RollbackCompleted(m, completed, state);
        trace := trace + undone;
        assert OwnRollback(m, commands, i, start) == [];
        return;
      }
      if status == 0 && command.rollback != [] {
        var identity := "";
        if command.identity != [] {
          var answer := m.query(command.identity, state);
          identity := answer.1;
          if answer.0 != 0 {
            status, state, trace := answer.0, m.execute(command.rollback, state).1, trace + [command.rollback];
            state, undone := RollbackCompleted(m, completed, state);
            trace := trace + undone;
            return;
          }
        }
        completed := completed + [Completed(command, identity)];
      }
    }
    assert commands[..|commands|] == commands;
    return 0, state, trace, |commands|;
  }

  // ----- what the compensations achieve -----

  /**
   In the state the plan runs it in, the compensation of command i undoes it; without one, or when it fails, the
   command changes nothing.
   */
  ghost predicate Undoes<S>(m: Machine<S>, commands: seq<Command>, i: nat, start: S)
    requires i < |commands|
  {
    var s := StateBefore(m, commands, i, start);
    var r := m.execute(commands[i].arguments, s);
    if r.0 == 0 && Compensable(commands[i]) then m.execute(commands[i].rollback, r.1).1 == s else r.1 == s
  }

  ghost predicate Reversible<S>(m: Machine<S>, commands: seq<Command>, k: nat, start: S)
    requires k <= |commands|
  {
    forall i :: 0 <= i < k ==> Undoes(m, commands, i, start)
  }

  /** Compensating everything completed before command k leads from its state back to the start. */
  lemma {:induction false} UndoRestores<S>(m: Machine<S>, commands: seq<Command>, k: nat, start: S)
    requires k <= |commands| && Reversible(m, commands, k, start) && (forall j :: 0 <= j < k ==> Passes(m, commands, j, start))
    ensures UndoFrom(m, CompletedBefore(m, commands, k, start), 0, StateBefore(m, commands, k, start)) == start
  {
    if k > 0 {
      var before, s := CompletedBefore(m, commands, k - 1, start), StateBefore(m, commands, k - 1, start);
      UndoRestores(m, commands, k - 1, start);
      assert Passes(m, commands, k - 1, start) && Undoes(m, commands, k - 1, start);
      var r := m.execute(commands[k - 1].arguments, s);
      if Registers(m, commands, k - 1, start) {
        var c := Completed(commands[k - 1], IdentityOf(m, commands, k - 1, start).1);
        UndoLast(m, before, c, r.1, 0);
        assert Unchanged(m, c, r.1);
      } else {
        assert before + [] == before;
      }
    }
  }

  lemma {:induction false} UndoLast<S>(m: Machine<S>, completed: seq<Completed>, c: Completed, s: S, i: nat)
    requires i <= |completed|
    ensures UndoFrom(m, completed + [c], i, s) == UndoFrom(m, completed, i, UndoOne(m, c, s))
    decreases |completed| - i
  {
    if i < |completed| {
      UndoLast(m, completed, c, s, i + 1);
    } else {
      assert UndoFrom(m, completed + [c], i + 1, s) == s;
    }
  }

  /** Main result: a failing plan of reversible commands leaves the machine as it found it. */
  lemma FailureRestores<S>(m: Machine<S>, commands: seq<Command>, k: nat, start: S)
    requires k < |commands| && Reversible(m, commands, k + 1, start) && StopsAt(m, commands, k, start)
    ensures UndoFrom(m, CompletedBefore(m, commands, k, start), 0, StateWhenStopped(m, commands, k, start)) == start
  {
    UndoRestores(m, commands, k, start);
    assert Undoes(m, commands, k, start);
    assert StateWhenStopped(m, commands, k, start) == StateBefore(m, commands, k, start);
  }

  // ----- which compensations run -----

  /** The indices of the entries that are compensated, in the order that happens. */
  function UndoneIndices<S>(m: Machine<S>, completed: seq<Completed>, i: nat, s: S): seq<nat>
    requires i <= |completed|
    decreases |completed| - i
  {
    if i == |completed| then []
    else
      UndoneIndices(m, completed, i + 1, s)
      + if Unchanged(m, completed[i], UndoFrom(m, completed, i + 1, s)) then [i] else []
  }

  lemma {:induction false} UndoneMembers<S>(m: Machine<S>, completed: seq<Completed>, i: nat, s: S, j: nat)
    requires i <= |completed|
    ensures j in UndoneIndices(m, completed, i, s)
      <==> i <= j < |completed| && Unchanged(m, completed[j], UndoFrom(m, completed, j + 1, s))
    decreases |completed| - i
  {
    if i < |completed| {
      UndoneMembers(m, completed, i + 1, s, j);
    }
  }

  ghost predicate Decreasing(indices: seq<nat>) {
    forall a, b :: 0 <= a < b < |indices| ==> indices[a] > indices[b]
  }

  lemma {:induction false} UndoneDecreasing<S>(m: Machine<S>, completed: seq<Completed>, i: nat, s: S)
    requires i <= |completed|
    ensures Decreasing(UndoneIndices(m, completed, i, s))
    decreases |completed| - i
  {
    if i < |completed| {
      UndoneDecreasing(m, completed, i + 1, s);
      var rest := UndoneIndices(m, completed, i + 1, s);
      forall a | 0 <= a < |rest|
        ensures rest[a] > i
      {
        UndoneMembers(m, completed, i + 1, s, rest[a]);
      }
    }
  }

  ghost predicate RollbacksOf(trace: seq<Arguments>, completed: seq<Completed>, indices: seq<nat>) {
    && |trace| == |indices|
    && forall a :: 0 <= a < |indices| ==>
         indices[a] < |completed| && trace[a] == completed[indices[a]].command.rollback
  }

  lemma {:induction false} UndoneTrace<S>(m: Machine<S>, completed: seq<Completed>, i: nat, s: S)
    requires i <= |completed|
    ensures RollbacksOf(UndoTrace(m, completed, i, s), completed, UndoneIndices(m, completed, i, s))
    decreases |completed| - i
  {
    if i < |completed| {
      UndoneTrace(m, completed, i + 1, s);
    }
  }

  /**
   The compensations that run are those of exactly the completed commands whose identity still matches when
   their turn comes, each once, the last one first.
   */
  lemma UndoneExactly<S>(m: Machine<S>, completed: seq<Completed>, s: S)
    ensures var undone := UndoneIndices(m, completed, 0, s);
      && RollbacksOf(UndoTrace(m, completed, 0, s), completed, undone) && Decreasing(undone)
      && forall j: nat :: j in undone <==>
           j < |completed| && Unchanged(m, completed[j], UndoFrom(m, completed, j + 1, s))
  {
    UndoneTrace(m, completed, 0, s);
    UndoneDecreasing(m, completed, 0, s);
    forall j: nat
      ensures j in UndoneIndices(m, completed, 0, s) <==>
        j < |completed| && Unchanged(m, completed[j], UndoFrom(m, completed, j + 1, s))
    {
      UndoneMembers(m, completed, 0, s, j);
    }
  }
}
