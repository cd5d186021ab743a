/** database/pgsql/lock.go and the wrappers `lock` and `unlock` of notifier.go: named locks that
    expire, kept in a table with a unique name. All times are seconds of one clock. */
module LeaseLock {
  import opened VersionText

  datatype Lease = Lease(owner: string, until: int)

  type Table = map<string, Lease>

  const MINUTE := 60
  const UPDATER_REFRESH := 8 * MINUTE
  const UPDATER_DURATION := UPDATER_REFRESH + 2 * MINUTE
  const NOTIFIER_REFRESH := 2 * MINUTE
  const NOTIFIER_DURATION := 8 * MINUTE + NOTIFIER_REFRESH

  // ----- The wrappers as steps on the committed table

  /** `begun` is when the transaction began, the CURRENT_TIMESTAMP that expired locks are pruned
      by; `now` is the clock reading that `until` is computed from. */
  datatype Step =
    | Acquire(name: string, owner: string, duration: int, begun: int, now: int)
    | Renew(name: string, owner: string, duration: int, now: int)
    | Unlock(name: string, owner: string, now: int)

  function Prune(t: Table, begun: int): Table {
    map n | n in t && !(t[n].until < begun) :: t[n]
  }

  predicate ValidParameters(step: Step) {
    step.name != "" && step.owner != "" && (step.Unlock? || step.duration != 0)
  }

  predicate Owns(t: Table, name: string, owner: string) {
    name in t && t[name].owner == owner
  }

  /** The step is a call of `lock` that returns true. */
  predicate Granted(t: Table, step: Step) {
    && ValidParameters(step)
    && match step
       case Acquire(name, _, _, begun, _) => name !in Prune(t, begun)
       case Renew(name, owner, _, _) => Owns(t, name, owner)
       case Unlock(_, _, _) => false
  }

  /** Only a granted lock is committed: a refused one also rolls its pruning back. */
  function After(t: Table, step: Step): Table {
    match step
    case Acquire(name, owner, duration, begun, now) =>
      if Granted(t, step) then Prune(t, begun)[name := Lease(owner, now + duration)] else t
    case Renew(name, owner, duration, now) =>
      if Granted(t, step) then t[name := Lease(owner, now + duration)] else t
    case Unlock(name, owner, _) =>
      if ValidParameters(step) && Owns(t, name, owner) then t - {name} else t
  }

  class LockTable {
    var rows: Table

    constructor ()
      ensures rows == map[]
    {
      rows := map[];
    }

    /** `Lock` inside a transaction; `error` stands for the bad-request error. */
    method Lock(name: string, owner: string, duration: int, renew: bool, begun: int, now: int)
      returns (error: bool, locked: bool, until: int)
      modifies this
      ensures error <==> name == "" || owner == "" || duration == 0
      ensures !error ==> until == now + duration
      ensures var step := if renew then Renew(name, owner, duration, now) else Acquire(name, owner, duration, begun, now);
              && locked == Granted(old(rows), step)
              && (locked ==> rows == After(old(rows), step))
    {
      if name == "" || owner == "" || duration == 0 {
        return true, false, 0;
      }
      until := now + duration;
      if renew {
        if name in rows && rows[name].owner == owner {
          rows := rows[name := Lease(owner, until)];
          return false, true, until;
        }
        return false, false, until;
      }
      rows := Prune(rows, begun);
      if name in rows {
        return false, false, until;
      }
      rows := rows[name := Lease(owner, until)];
      return false, true, until;
    }

    /** The wrapper `lock`: commit when locked, roll back otherwise. */
    method LockAndCommit(name: string, owner: string, duration: int, renew: bool, begun: int, now: int)
      returns (locked: bool, until: int)
      modifies this
      ensures var step := if renew then Renew(name, owner, duration, now) else Acquire(name, owner, duration, begun, now);
              locked == Granted(old(rows), step) && rows == After(old(rows), step)
    {
      var backup := rows;
      var error;
      error, locked, until := Lock(name, owner, duration, renew, begun, now);
      if error {
        rows := backup;
        return false, 0;
      }
      if !locked {
        rows := backup;
      }
    }

    /** The wrapper `unlock`. */
    method UnlockAndCommit(name: string, owner: string, ghost now: int)
      modifies this
      ensures rows == After(old(rows), Unlock(name, owner, now))
    {
      if name == "" || owner == "" {
        return;
      }
      if name in rows && rows[name].owner == owner {
        rows := rows - {name};
      }
    }
  }

  // ----- Whole runs

  /** `held` is history: the expiration an owner was last given for a name, until it unlocks. */
  datatype State = State(table: Table, held: map<(string, string), int>, clock: int)

  function Next(s: State, step: Step): State {
    State(After(s.table, step),
          if Granted(s.table, step) then s.held[(step.name, step.owner) := step.now + step.duration]
          else if step.Unlock? && ValidParameters(step) then s.held - {(step.name, step.owner)}
          else s.held,
          step.now)
  }

  predicate OnTime(s: State, step: Step) {
    s.clock <= step.now && (step.Acquire? ==> step.begun <= step.now)
  }

  ghost predicate IsRun(states: seq<State>, steps: seq<Step>) {
    && |states| == |steps| + 1 && states[0].table == map[] && states[0].held == map[]
    && forall i :: 0 <= i < |steps| ==> OnTime(states[i], steps[i]) && states[i + 1] == Next(states[i], steps[i])
  }

  /** The owner was given the lock until a time that has not passed. */
  predicate Holds(s: State, name: string, owner: string) {
    (name, owner) in s.held && s.held[(name, owner)] >= s.clock
  }

  ghost predicate Invariant(s: State) {
    forall n, o :: Holds(s, n, o) ==> n in s.table && s.table[n] == Lease(o, s.held[(n, o)])
  }

  lemma StepKeepsInvariant(s: State, step: Step)
    requires Invariant(s) && OnTime(s, step)
    ensures Invariant(Next(s, step))
  {
  }

  lemma {:induction false} RunInvariant(states: seq<State>, steps: seq<Step>, i: nat)
    requires IsRun(states, steps) && i < |states|
    ensures Invariant(states[i])
  {
    if i > 0 {
      RunInvariant(states, steps, i - 1);
      StepKeepsInvariant(states[i - 1], steps[i - 1]);
    }
  }

  /** In every run, two different owners never both hold an unexpired lock of the same name. */
  lemma MutualExclusion(states: seq<State>, steps: seq<Step>, i: nat, name: string, o1: string, o2: string)
    requires IsRun(states, steps) && i < |states|
    requires Holds(states[i], name, o1) && Holds(states[i], name, o2)
    ensures o1 == o2
  {
    RunInvariant(states, steps, i);
  }

  /** What a stale owner does, and anything done under other names, leaves an unexpired lock of
      another owner alone; only the owner itself, or time, ends it. */
  lemma HolderIsUndisturbed(states: seq<State>, steps: seq<Step>, i: nat, name: string, owner: string)
    requires IsRun(states, steps) && i < |steps|
    requires Holds(states[i], name, owner) && states[i].held[(name, owner)] >= steps[i].now
    requires !(steps[i].name == name && steps[i].owner == owner)
    ensures Holds(states[i + 1], name, owner)
    ensures name in states[i].table && name in states[i + 1].table
    ensures states[i + 1].table[name] == states[i].table[name]
    ensures steps[i].name == name ==> !Granted(states[i].table, steps[i])
  {
    RunInvariant(states, steps, i);
    RunInvariant(states, steps, i + 1);
  }

  // ----- Renewing in time

  /** The table after some steps. */
  function Run(t: Table, steps: seq<Step>): Table {
    if steps == [] then t else After(Run(t, steps[..|steps| - 1]), steps[|steps| - 1])
  }

  /** When the owner last renewed, having been granted the lock at `last`. */
  function LastRenewal(steps: seq<Step>, name: string, owner: string, last: int): int {
    if steps == [] then last
    else
      var step := steps[|steps| - 1];
      if IsRenewal(step, name, owner) then step.now
      else LastRenewal(steps[..|steps| - 1], name, owner, last)
  }

  /** The owner renews, for `duration`, at gaps of at most `gap`, and does not unlock: no step
      comes later than `gap` after the last renewal before it. Others do as they please. */
  ghost predicate RenewsWithin(steps: seq<Step>, name: string, owner: string, last: int, duration: int, gap: int) {
    forall i :: 0 <= i < |steps| ==>
      && steps[i].now <= LastRenewal(steps[..i], name, owner, last) + gap
      && (steps[i].Acquire? ==> steps[i].begun <= steps[i].now)
      && (steps[i].name == name && steps[i].owner == owner ==>
            !steps[i].Unlock? && (steps[i].Renew? ==> steps[i].duration == duration))
  }

  predicate IsRenewal(step: Step, name: string, owner: string) {
    step.Renew? && step.name == name && step.owner == owner
  }

  lemma TimelyStep(t: Table, step: Step, name: string, owner: string, last: int, duration: int)
    requires name != "" && owner != "" && 0 < duration
    requires name in t && t[name] == Lease(owner, last + duration)
    requires step.now <= last + duration && (step.Acquire? ==> step.begun <= step.now)
    requires step.name == name && step.owner == owner ==> !step.Unlock? && (step.Renew? ==> step.duration == duration)
    ensures name in After(t, step)
    ensures After(t, step)[name] == Lease(owner, (if IsRenewal(step, name, owner) then step.now else last) + duration)
    ensures IsRenewal(step, name, owner) ==> Granted(t, step)
  {
  }

  lemma RenewsWithinPrefix(steps: seq<Step>, n: nat, name: string, owner: string, last: int, duration: int, gap: int)
    requires n <= |steps| && RenewsWithin(steps, name, owner, last, duration, gap)
    ensures RenewsWithin(steps[..n], name, owner, last, duration, gap)
  {
    var init := steps[..n];
    assert forall i :: 0 <= i < |init| ==> init[..i] == steps[..i];
  }

  /** The row of an owner that renews in time. */
  ghost predicate HasRow(t: Table, steps: seq<Step>, name: string, owner: string, last: int, duration: int) {
    var after := Run(t, steps);
    name in after && after[name] == Lease(owner, LastRenewal(steps, name, owner, last) + duration)
  }

  lemma {:induction false} RowIsKept(t: Table, steps: seq<Step>, name: string, owner: string, last: int, duration: int,
                                     gap: int)
    requires name != "" && owner != "" && 0 < gap <= duration
    requires name in t && t[name] == Lease(owner, last + duration)
    requires RenewsWithin(steps, name, owner, last, duration, gap)
    ensures HasRow(t, steps, name, owner, last, duration)
    decreases |steps|
  {
    if steps != [] {
      var n := |steps| - 1;
      RenewsWithinPrefix(steps, n, name, owner, last, duration, gap);
      RowIsKept(t, steps[..n], name, owner, last, duration, gap);
      TimelyStep(Run(t, steps[..n]), steps[n], name, owner, LastRenewal(steps[..n], name, owner, last), duration);
    }
  }

  /** An owner that renews within the lock duration never loses the lock, and every renewal is
      granted. */
  lemma RenewingKeepsTheLock(t: Table, steps: seq<Step>, name: string, owner: string, last: int, duration: int, gap: int)
    requires name != "" && owner != "" && 0 < gap <= duration
    requires name in t && t[name] == Lease(owner, last + duration)
    requires RenewsWithin(steps, name, owner, last, duration, gap)
    ensures name in Run(t, steps)
    ensures Run(t, steps)[name] == Lease(owner, LastRenewal(steps, name, owner, last) + duration)
    ensures forall i :: 0 <= i < |steps| && IsRenewal(steps[i], name, owner) ==> Granted(Run(t, steps[..i]), steps[i])
  {
    RowIsKept(t, steps, name, owner, last, duration, gap);
    forall i | 0 <= i < |steps| && IsRenewal(steps[i], name, owner) ensures Granted(Run(t, steps[..i]), steps[i]) {
      RenewsWithinPrefix(steps, i, name, owner, last, duration, gap);
      RowIsKept(t, steps[..i], name, owner, last, duration, gap);
      TimelyStep(Run(t, steps[..i]), steps[i], name, owner, LastRenewal(steps[..i], name, owner, last), duration);
    }
  }

  /** The refresh constants of the updater (8 minutes of 10) and the notifier (2 minutes of 10) are
      short enough. */
  lemma RefreshConstantsKeepTheLock(t: Table, steps: seq<Step>, name: string, owner: string, last: int, updater: bool)
    requires name != "" && owner != ""
    requires var duration := 10 * 60;
             var gap := if updater then 8 * 60 else 2 * 60;
             && name in t && t[name] == Lease(owner, last + duration)
             && RenewsWithin(steps, name, owner, last, duration, gap)
    ensures UPDATER_DURATION == NOTIFIER_DURATION == 10 * 60 && UPDATER_REFRESH == 8 * 60 && NOTIFIER_REFRESH == 2 * 60
    ensures name in Run(t, steps) && Run(t, steps)[name].owner == owner
  {
    var duration := if updater then UPDATER_DURATION else NOTIFIER_DURATION;
    var gap := if updater then UPDATER_REFRESH else NOTIFIER_REFRESH;
    RenewingKeepsTheLock(t, steps, name, owner, last, duration, gap);
  }

  /** A gap longer than the duration is too long: another owner can take the lock in between. */
  lemma LongerGapsLoseTheLock(t: Table, name: string, owner: string, thief: string, last: int, duration: int, gap: int)
    requires name != "" && owner != "" && thief != "" && thief != owner && 0 < duration < gap
    requires name in t && t[name] == Lease(owner, last + duration)
    ensures exists steps :: RenewsWithin(steps, name, owner, last, duration, gap) && Owns(Run(t, steps), name, thief)
  {
    var now := last + duration + 1;
    var step := Acquire(name, thief, duration, now, now);
    assert [step][..0] == [];
    assert RenewsWithin([step], name, owner, last, duration, gap);
    assert Run(t, [step]) == After(t, step);
    assert Owns(Run(t, [step]), name, thief);
  }

  // ----- Giving the lock up

  /** A name that is not in the table can be acquired by anyone, and is then theirs. */
  lemma FreeNameIsGranted(t: Table, name: string, owner: string, duration: int, begun: int, now: int)
    requires name !in t && name != "" && owner != "" && duration != 0
    ensures var step := Acquire(name, owner, duration, begun, now);
            Granted(t, step) && name in After(t, step) && After(t, step)[name] == Lease(owner, now + duration)
  {
  }

  /** The owner's unlock frees the name at once and touches no other: the next acquisition, whoever
      makes it, is granted. */
  lemma UnlockFrees(t: Table, name: string, owner: string, when: int, next: string, duration: int, begun: int, now: int)
    requires name in t && t[name].owner == owner && name != "" && owner != "" && next != "" && duration != 0
    ensures var unlocked := After(t, Unlock(name, owner, when));
            && unlocked == (map n | n in t && n != name :: t[n])
            && Granted(unlocked, Acquire(name, next, duration, begun, now))
            && Owns(After(unlocked, Acquire(name, next, duration, begun, now)), name, next)
  {
    var unlocked := After(t, Unlock(name, owner, when));
    FreeNameIsGranted(unlocked, name, next, duration, begun, now);
  }

  /** A lock is acquired exactly if there is none or it expired before the transaction began, and then
      all expired locks are gone. */
  lemma AcquireSpelledOut(t: Table, name: string, owner: string, duration: int, begun: int, now: int)
    requires name != "" && owner != "" && duration != 0
    ensures var step := Acquire(name, owner, duration, begun, now);
            && (Granted(t, step) <==> name !in t || t[name].until < begun)
            && (Granted(t, step) ==>
                  After(t, step) == (map n | n in t && t[n].until >= begun :: t[n])[name := Lease(owner, now + duration)])
            && (!Granted(t, step) ==> After(t, step) == t)
  {
  }

  /** A lock is renewed exactly if the owner has it, expired or not, and no other lock changes. */
  lemma RenewSpelledOut(t: Table, name: string, owner: string, duration: int, now: int)
    requires name != "" && owner != "" && duration != 0
    ensures var step := Renew(name, owner, duration, now);
            && (Granted(t, step) <==> name in t && t[name].owner == owner)
            && After(t, step) == if Granted(t, step) then t[name := Lease(owner, now + duration)] else t
  {
  }
}
