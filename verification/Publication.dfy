/**
  Publication of a staged bundle (`publish_staging` in evidence.rs) by any number of concurrent publishers: one atomic
  rename on Linux, elsewhere a lock-file protocol whose every step can be followed by a crash.  Its rename is taken to
  replace what it finds; its look at the destination can fail, and then counts as absence.
 */
module Publication {
  import opened Basics

  /** Where one publisher stands in the lock-file protocol. */
  datatype Phase =
    | Starting                    // about to create the lock file
    | Checking                    // lock created; about to look at the destination
    | Refusing                    // destination found; about to remove the lock
    | Renaming                    // destination absent; about to rename
    | Releasing(outcome: Outcome) // rename attempted; about to remove the lock
    | Finished(result: Outcome)
    | Crashed

  datatype Outcome = Published | DestinationExists | IoFailed

  /** The lock file: absent, left behind, or created by a publisher still at work. */
  datatype Lock = Absent | Abandoned | HeldBy(holder: nat)

  /** `destination` names whose content is at the final path, if anything is there. */
  datatype State = State(lock: Lock, destination: Option<Content>, phases: seq<Phase>)

  datatype Content = Preexisting | BundleOf(publisher: nat)

  datatype Step =
    | CreateLock
    | CreateLockFails
    | CheckDestination(works: bool)
    | RemoveLockAndRefuse(removed: bool)
    | Rename(succeeds: bool)
    | RemoveLock(removed: bool)
    | Crash

  ghost predicate Initial(s: State) {
    && !s.lock.HeldBy?
    && (s.destination.Some? ==> s.destination.value == Preexisting)
    && forall p :: 0 <= p < |s.phases| ==> s.phases[p] == Starting
  }

  function Move(s: State, p: nat, phase: Phase): State
    requires p < |s.phases|
  {
    s.(phases := s.phases[p := phase])
  }

  /** Whether publisher `p` can take `step` in `s`. */
  predicate Enabled(s: State, p: nat, step: Step) {
    p < |s.phases| &&
    match step
    case CreateLock => s.phases[p] == Starting
    case CreateLockFails => s.phases[p] == Starting
    case CheckDestination(_) => s.phases[p] == Checking
    case RemoveLockAndRefuse(_) => s.phases[p] == Refusing
    case Rename(_) => s.phases[p] == Renaming
    case RemoveLock(_) => s.phases[p].Releasing?
    case Crash => !s.phases[p].Finished? && !s.phases[p].Crashed?
  }

  /** The state after `step`; a crash abandons a lock the publisher holds. */
  function Take(s: State, p: nat, step: Step): State
    requires Enabled(s, p, step)
  {
    match step
    case CreateLock =>
      if s.lock.Absent? then Move(s, p, Checking).(lock := HeldBy(p))
      else Move(s, p, Finished(DestinationExists))
    case CreateLockFails =>
      Move(s, p, Finished(IoFailed))
    case CheckDestination(works) =>
      Move(s, p, if works && s.destination.Some? then Refusing else Renaming)
    case RemoveLockAndRefuse(removed) =>
      Move(s, p, Finished(DestinationExists)).(lock := if removed then Absent else Abandoned)
    case Rename(succeeds) =>
      if succeeds then Move(s, p, Releasing(Published)).(destination := Some(BundleOf(p)))
      else Move(s, p, Releasing(IoFailed))
    case RemoveLock(removed) =>
      Move(s, p, Finished(s.phases[p].outcome)).(lock := if removed then Absent else Abandoned)
    case Crash =>
      Move(s, p, Crashed).(lock := if s.lock == HeldBy(p) then Abandoned else s.lock)
  }

  /** A step is misled when the look at an existing destination fails. */
  predicate Misled(s: State, step: Step) {
    step == CheckDestination(false) && s.destination.Some?
  }

  ghost predicate Next(s: State, t: State) {
    exists p: nat, step :: Enabled(s, p, step) && t == Take(s, p, step)
  }

  /** A step that is not misled. */
  ghost predicate SoundNext(s: State, t: State) {
    exists p: nat, step :: Enabled(s, p, step) && t == Take(s, p, step) && !Misled(s, step)
  }

  ghost predicate Path(states: seq<State>) {
    states != [] && forall i :: 0 <= i < |states| - 1 ==> Next(states[i], states[i + 1])
  }

  ghost predicate SoundPath(states: seq<State>) {
    states != [] && forall i :: 0 <= i < |states| - 1 ==> SoundNext(states[i], states[i + 1])
  }

  /** A run from an initial state in which no look at an existing destination fails. */
  ghost predicate Run(states: seq<State>) {
    SoundPath(states) && Initial(states[0])
  }

  // ---- Mutual exclusion ----

  predicate AtWork(phase: Phase) {
    phase.Checking? || phase.Refusing? || phase.Renaming? || phase.Releasing?
  }

  predicate Succeeded(phase: Phase) {
    phase == Releasing(Published) || phase == Finished(Published)
  }

  /** Only the holder of the lock is at work, and whoever holds it is. */
  ghost predicate Exclusive(s: State) {
    && (forall p :: 0 <= p < |s.phases| && AtWork(s.phases[p]) ==> s.lock == HeldBy(p))
    && (s.lock.HeldBy? ==> s.lock.holder < |s.phases| && AtWork(s.phases[s.lock.holder]))
  }

  /** A publisher renames only while the destination is still absent and refuses only when
      it is not, and whoever succeeded is whose bundle is there. */
  ghost predicate Invariant(s: State) {
    && Exclusive(s)
    && (forall p :: 0 <= p < |s.phases| && s.phases[p] == Renaming ==> s.destination.None?)
    && (forall p :: 0 <= p < |s.phases| && s.phases[p] == Refusing ==> s.destination.Some?)
    && (forall p :: 0 <= p < |s.phases| && Succeeded(s.phases[p]) ==> s.destination == Some(BundleOf(p)))
  }

  /** Mutual exclusion survives every step, misled or not. */
  lemma StepKeepsExclusion(s: State, p: nat, step: Step)
    requires Exclusive(s) && Enabled(s, p, step)
    ensures Exclusive(Take(s, p, step))
    ensures Take(s, p, step).destination != s.destination ==> Take(s, p, step).destination == Some(BundleOf(p))
  {
    var t := Take(s, p, step);
    forall q | 0 <= q < |t.phases|
      ensures AtWork(t.phases[q]) ==> t.lock == HeldBy(q)
    {
      assert t.phases[q] == if q == p then t.phases[p] else s.phases[q];
    }
  }

  lemma StepKeepsInvariant(s: State, p: nat, step: Step)
    requires Invariant(s) && Enabled(s, p, step) && !Misled(s, step)
    ensures Invariant(Take(s, p, step))
    ensures s.destination.Some? ==> Take(s, p, step).destination == s.destination
    ensures Take(s, p, step).destination != s.destination ==> Take(s, p, step).destination == Some(BundleOf(p))
  {
    hide Exclusive;
    var t := Take(s, p, step);
    StepKeepsExclusion(s, p, step);
    HolderAlone(s, p);
    forall q | 0 <= q < |t.phases|
      ensures t.phases[q] == Renaming ==> t.destination.None?
      ensures t.phases[q] == Refusing ==> t.destination.Some?
      ensures Succeeded(t.phases[q]) ==> t.destination == Some(BundleOf(q))
    {
      assert t.phases[q] == if q == p then t.phases[p] else s.phases[q];
    }
  }

  /** Nobody else is at work next to a publisher that is. */
  lemma HolderAlone(s: State, p: nat)
    requires Exclusive(s) && p < |s.phases|
    ensures AtWork(s.phases[p]) ==> forall q :: 0 <= q < |s.phases| && q != p ==> !AtWork(s.phases[q])
  {
  }

  lemma {:induction false} RunKeepsInvariant(states: seq<State>, i: nat)
    requires Run(states) && i < |states|
    ensures Invariant(states[i]) && |states[i].phases| == |states[0].phases|
  {
    if i > 0 {
      RunKeepsInvariant(states, i - 1);
      assert SoundNext(states[i - 1], states[i]);
      var p: nat, step :| Enabled(states[i - 1], p, step) && states[i] == Take(states[i - 1], p, step)
                          && !Misled(states[i - 1], step);
      StepKeepsInvariant(states[i - 1], p, step);
    }
  }

  /** Once something is at the final path it is never replaced. */
  lemma {:induction false} DestinationNeverOverwritten(states: seq<State>, i: nat, j: nat)
    requires Run(states) && i <= j < |states|
    requires states[i].destination.Some?
    ensures states[j].destination == states[i].destination
    decreases j
  {
    if i < j {
      DestinationNeverOverwritten(states, i, j - 1);
      RunKeepsInvariant(states, j - 1);
      assert SoundNext(states[j - 1], states[j]);
      var p: nat, step :| Enabled(states[j - 1], p, step) && states[j] == Take(states[j - 1], p, step)
                          && !Misled(states[j - 1], step);
      StepKeepsInvariant(states[j - 1], p, step);
    }
  }

  ghost predicate HasSucceeded(s: State, p: nat) {
    p < |s.phases| && Succeeded(s.phases[p])
  }

  /** In every interleaving, with crashes anywhere, at most one publisher ever
      succeeds, at most one bundle is ever at the final path, and a publisher that
      succeeded finds its own bundle there. */
  lemma AtMostOnePublication(states: seq<State>, i: nat, j: nat, p: nat, q: nat)
    requires Run(states) && i < |states| && j < |states|
    ensures HasSucceeded(states[i], p) && HasSucceeded(states[j], q) ==> p == q
    ensures HasSucceeded(states[i], p) ==>
              states[i].destination == Some(BundleOf(p)) && states[0].destination.None?
    ensures states[i].destination.Some? && states[j].destination.Some? ==>
              states[i].destination == states[j].destination
  {
    RunKeepsInvariant(states, i);
    RunKeepsInvariant(states, j);
    if states[i].destination.Some? && i <= j {
      DestinationNeverOverwritten(states, i, j);
    }
    if states[j].destination.Some? && j <= i {
      DestinationNeverOverwritten(states, j, i);
    }
    if states[0].destination.Some? {
      DestinationNeverOverwritten(states, 0, i);
    }
  }

  // ---- When a failing look lets a bundle be overwritten ----

  /** A step overwrites an existing destination exactly when it is the successful rename of
      a publisher that did not see it. */
  lemma OverwritingStep(s: State, p: nat, step: Step)
    requires Enabled(s, p, step) && s.destination.Some?
    ensures Take(s, p, step).destination != s.destination
       <==> step == Rename(true) && s.phases[p] == Renaming && s.destination != Some(BundleOf(p))
  {
  }

  /** From a reachable state with something at the final path, one misled look of the
      lock's holder and a rename overwrite it. */
  lemma MisledLookOverwrites(s: State, p: nat) returns (path: seq<State>)
    requires Invariant(s) && p < |s.phases| && s.phases[p] == Checking
    requires s.destination.Some? && s.destination != Some(BundleOf(p))
    ensures Path(path) && path[0] == s
    ensures path[|path| - 1].destination == Some(BundleOf(p)) != s.destination
  {
    var looked := Take(s, p, CheckDestination(false));
    var renamed := Take(looked, p, Rename(true));
    path := [s, looked, renamed];
    assert Next(s, looked) && Next(looked, renamed);
    assert forall i :: 0 <= i < 2 ==> Next(path[i], path[i + 1]);
  }

  // ---- Refinement of the atomic rename ----

  /** Abstract publisher: one rename that refuses to replace, and then a result. */
  datatype Abstract = Abstract(destination: Option<Content>, results: seq<Option<Outcome>>)

  /** The result a publisher is already bound to return if it does not crash. */
  function Decided(phase: Phase): Option<Outcome> {
    match phase
    case Refusing => Some(DestinationExists)
    case Releasing(outcome) => Some(outcome)
    case Finished(result) => Some(result)
    case _ => None
  }

  function DecidedAll(phases: seq<Phase>): (r: seq<Option<Outcome>>)
    ensures |r| == |phases| && forall i :: 0 <= i < |r| ==> r[i] == Decided(phases[i])
  {
    if phases == [] then [] else [Decided(phases[0])] + DecidedAll(phases[1..])
  }

  function Abstraction(s: State): Abstract {
    Abstract(s.destination, DecidedAll(s.phases))
  }

  /** The atomic rename of publisher `p` in `a`, or its failure for another reason. */
  ghost predicate AtomicPublish(a: Abstract, b: Abstract, p: nat) {
    && p < |a.results| && a.results[p].None?
    && (|| (a.destination.None? && b == Abstract(Some(BundleOf(p)), a.results[p := Some(Published)]))
        || (a.destination.Some? && b == a.(results := a.results[p := Some(DestinationExists)]))
        || b == a.(results := a.results[p := Some(IoFailed)]))
  }

  /** What the lock adds: a refusal although the destination is absent. */
  ghost predicate SpuriousRefusal(a: Abstract, b: Abstract, p: nat) {
    p < |a.results| && a.results[p].None? && b == a.(results := a.results[p := Some(DestinationExists)])
  }

  ghost predicate Forgotten(a: Abstract, b: Abstract, p: nat) {
    p < |a.results| && b == a.(results := a.results[p := None])
  }

  lemma ResultsFollow(s: State, t: State, p: nat)
    requires p < |s.phases| && |t.phases| == |s.phases| && t.phases == s.phases[p := t.phases[p]]
    ensures Abstraction(t).results == Abstraction(s).results[p := Decided(t.phases[p])]
  {
    hide Decided;
  }

  /** Every step of the lock protocol is an atomic no-replace rename, a refusal while
      another lock file is present, a crash, or nothing at all. */
  lemma ProtocolRefinesAtomicRename(s: State, p: nat, step: Step)
    requires Invariant(s) && Enabled(s, p, step) && !Misled(s, step)
    ensures var a, b := Abstraction(s), Abstraction(Take(s, p, step));
            || a == b
            || AtomicPublish(a, b, p)
            || (step == CreateLock && !s.lock.Absent? && SpuriousRefusal(a, b, p))
            || (step == Crash && Forgotten(a, b, p))
  {
    hide Exclusive, DecidedAll;
    var t := Take(s, p, step);
    var a, b := Abstraction(s), Abstraction(t);
    ResultsFollow(s, t, p);
    if Decided(t.phases[p]) == Decided(s.phases[p]) {
      assert b.results == a.results;
    }
  }

  // ---- The price of the lock file ----

  /** What a step does to the lock: a publisher takes it only when it is absent; it becomes
      abandoned exactly when its holder crashes or cannot remove it, and absent exactly when
      its holder removes it. */
  lemma StepOnLock(s: State, p: nat, step: Step)
    requires Exclusive(s) && Enabled(s, p, step)
    ensures var t := Take(s, p, step);
            && (t.lock.HeldBy? && t.lock != s.lock <==> step == CreateLock && s.lock == Absent)
            && (t.lock == Abandoned && s.lock != Abandoned
                <==> s.lock == HeldBy(p)
                     && step in {Crash, RemoveLock(false), RemoveLockAndRefuse(false)})
            && (t.lock == Absent && s.lock != Absent
                <==> s.lock == HeldBy(p) && step in {RemoveLock(true), RemoveLockAndRefuse(true)})
  {
  }

  /** An abandoned lock is never removed, and nothing changes at the destination after it,
      whether steps are misled or not. */
  lemma {:induction false} AbandonedLockBlocks(path: seq<State>, i: nat, j: nat)
    requires Path(path) && Exclusive(path[0]) && i <= j < |path| && path[i].lock == Abandoned
    ensures path[j].lock == Abandoned && path[j].destination == path[i].destination
    decreases j
  {
    if i < j {
      AbandonedLockBlocks(path, i, j - 1);
      PathKeepsExclusion(path, j - 1);
      assert Next(path[j - 1], path[j]);
      var p: nat, step :| Enabled(path[j - 1], p, step) && path[j] == Take(path[j - 1], p, step);
      assert !AtWork(path[j - 1].phases[p]);
    }
  }

  lemma {:induction false} PathKeepsExclusion(path: seq<State>, i: nat)
    requires Path(path) && Exclusive(path[0]) && i < |path|
    ensures Exclusive(path[i])
  {
    if i > 0 {
      PathKeepsExclusion(path, i - 1);
      assert Next(path[i - 1], path[i]);
      var p: nat, step :| Enabled(path[i - 1], p, step) && path[i] == Take(path[i - 1], p, step);
      StepKeepsExclusion(path[i - 1], p, step);
    }
  }

  /** A publisher that crashes right after it created the lock file abandons it. */
  lemma AbandonedLockReachable(s: State) returns (run: seq<State>)
    requires Initial(s) && s.lock == Absent && s.phases != []
    ensures Run(run) && run[0] == s && run[|run| - 1].lock == Abandoned
  {
    var locked := Take(s, 0, CreateLock);
    var crashed := Take(locked, 0, Crash);
    run := [s, locked, crashed];
    assert Enabled(s, 0, CreateLock) && SoundNext(s, locked);
    assert Enabled(locked, 0, Crash) && SoundNext(locked, crashed);
    assert forall i :: 0 <= i < 2 ==> SoundNext(run[i], run[i + 1]);
  }

  // ---- When publication is still possible ----

  /** A publisher on its way to the rename. */
  predicate OnTheWay(phase: Phase) {
    phase.Starting? || phase.Checking? || phase.Renaming?
  }

  ghost predicate CanPublish(s: State) {
    s.lock != Abandoned && exists p :: 0 <= p < |s.phases| && OnTheWay(s.phases[p])
  }

  /** The path ends with the bundle of a publisher that succeeded at the destination. */
  ghost predicate Publishes(path: seq<State>, s: State) {
    && Path(path) && path[0] == s
    && var last := path[|path| - 1];
       exists p :: 0 <= p < |last.phases| && last.destination == Some(BundleOf(p)) && Succeeded(last.phases[p])
  }

  lemma StepStaysStuck(s: State, p: nat, step: Step)
    requires Exclusive(s) && Enabled(s, p, step) && s.destination.None? && !CanPublish(s)
    ensures Take(s, p, step).destination.None? && !CanPublish(Take(s, p, step))
  {
    var t := Take(s, p, step);
    if s.lock == Abandoned {
      assert !AtWork(s.phases[p]);
    } else {
      assert !OnTheWay(s.phases[p]);
      forall q | 0 <= q < |t.phases|
        ensures !OnTheWay(t.phases[q])
      {
        assert t.phases[q] == if q == p then t.phases[p] else s.phases[q];
      }
    }
  }

  lemma {:induction false} StuckForGood(path: seq<State>, i: nat)
    requires Path(path) && Exclusive(path[0]) && i < |path|
    requires path[0].destination.None? && !CanPublish(path[0])
    ensures path[i].destination.None? && !CanPublish(path[i])
  {
    if i > 0 {
      StuckForGood(path, i - 1);
      PathKeepsExclusion(path, i - 1);
      assert Next(path[i - 1], path[i]);
      var p: nat, step :| Enabled(path[i - 1], p, step) && path[i] == Take(path[i - 1], p, step);
      StepStaysStuck(path[i - 1], p, step);
    }
  }

  lemma Prepend(s: State, p: nat, step: Step, path: seq<State>)
    requires Enabled(s, p, step) && Publishes(path, Take(s, p, step))
    ensures Publishes([s] + path, s)
  {
    var longer := [s] + path;
    assert longer[|longer| - 1] == path[|path| - 1];
    forall i | 0 <= i < |longer| - 1
      ensures Next(longer[i], longer[i + 1])
    {
      if i == 0 {
        assert Next(s, Take(s, p, step));
      } else {
        assert Next(path[i - 1], path[i]);
      }
    }
  }

  /** A publisher that looks or renames can still publish. */
  lemma WorkerPublishes(s: State, p: nat) returns (path: seq<State>)
    requires p < |s.phases| && s.destination.None? && (s.phases[p] == Checking || s.phases[p] == Renaming)
    ensures Publishes(path, s)
    decreases s.phases[p] == Checking
  {
    if s.phases[p] == Renaming {
      path := [Take(s, p, Rename(true))];
      Prepend(s, p, Rename(true), path);
      path := [s] + path;
    } else {
      var looked := Take(s, p, CheckDestination(true));
      path := WorkerPublishes(looked, p);
      Prepend(s, p, CheckDestination(true), path);
      path := [s] + path;
    }
  }

  lemma StarterPublishes(s: State, p: nat) returns (path: seq<State>)
    requires p < |s.phases| && s.destination.None? && s.phases[p] == Starting && s.lock == Absent
    ensures Publishes(path, s)
  {
    path := WorkerPublishes(Take(s, p, CreateLock), p);
    Prepend(s, p, CreateLock, path);
    path := [s] + path;
  }

  /** While the destination is absent, some continuation publishes exactly when the lock is
      not abandoned and some publisher is still on its way. */
  lemma PublicationPossible(s: State)
    requires Invariant(s) && s.destination.None?
    ensures (exists path :: Publishes(path, s)) <==> CanPublish(s)
  {
    if CanPublish(s) {
      var p :| 0 <= p < |s.phases| && OnTheWay(s.phases[p]);
      var path: seq<State>;
      if s.phases[p] != Starting {
        path := WorkerPublishes(s, p);
      } else if s.lock == Absent {
        path := StarterPublishes(s, p);
      } else if !s.phases[s.lock.holder].Releasing? {
        path := WorkerPublishes(s, s.lock.holder);
      } else {
        var released := Take(s, s.lock.holder, RemoveLock(true));
        path := StarterPublishes(released, p);
        Prepend(s, s.lock.holder, RemoveLock(true), path);
        path := [s] + path;
      }
      assert Publishes(path, s);
    }
    if path :| Publishes(path, s) {
      if !CanPublish(s) {
        StuckForGood(path, |path| - 1);
      }
    }
  }
}
