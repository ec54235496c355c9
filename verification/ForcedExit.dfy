/** The forced-exit cleanup registry of `crates/glasshouse/src/shutdown.rs`.

    Threads register cleanups, drop the guards they got, and force the process down, in any interleaving. Taking an
    identifier, taking the registry's lock, the work done under it and each cleanup call are separate steps.
    `Registry` holds the same code as uninterrupted methods over the list itself. */
module ForcedExit {

  type Tid = nat

  /** A cleanup, by name: all that matters of it is that it was called. */
  type Work = nat

  datatype Entry = Entry(id: nat, work: Work)

  datatype Holder = Free | HeldBy(t: Tid)

  /** `snapshot` is the registry when a forced run took the lock, and `called` the entries it called, in order. */
  datatype ForcedRun = ForcedRun(snapshot: seq<Entry>, called: seq<Entry>)

  datatype Point =
    | Idle
    | Numbered(entry: Entry)      // has an identifier, waits for the lock
    | Pushing(entry: Entry)       // holds the lock
    | Dropping(id: nat)           // the guard is being dropped, waits for the lock
    | Retaining(id: nat)          // holds the lock
    | Forcing                     // about to try the lock
    | Calling(run: ForcedRun)     // holds the lock
    | Gone

  /** `guards` are the identifiers of the guards in existence; `pushed` and `removed` are histories. */
  datatype State = State(
    nextId: nat,
    entries: seq<Entry>,
    holder: Holder,
    guards: set<nat>,
    pushed: seq<Entry>,
    removed: set<nat>,
    runs: seq<ForcedRun>,
    threads: map<Tid, Point>)

  datatype Choice = Register(work: Work) | DropGuard(id: nat) | ForceDown | Proceed(panics: bool)

  // ---------------------------------------------------------------- the list

  /** `Vec::retain` with the guard's predicate. */
  function Retained(entries: seq<Entry>, id: nat): (kept: seq<Entry>)
    ensures |kept| <= |entries|
  {
    if entries == [] then []
    else
      var last := entries[|entries| - 1];
      Retained(entries[..|entries| - 1], id) + if last.id != id then [last] else []
  }

  /** The entries whose identifier is not in `removed`, in order. */
  function Live(pushed: seq<Entry>, removed: set<nat>): seq<Entry> {
    if pushed == [] then []
    else
      var last := pushed[|pushed| - 1];
      Live(pushed[..|pushed| - 1], removed) + if last.id !in removed then [last] else []
  }

  function Reversed(entries: seq<Entry>): (r: seq<Entry>)
    ensures |r| == |entries|
    ensures forall i :: 0 <= i < |r| ==> r[i] == entries[|entries| - 1 - i]
  {
    seq(|entries|, i requires 0 <= i < |entries| => entries[|entries| - 1 - i])
  }

  predicate DistinctIds(entries: seq<Entry>) {
    forall i, j :: 0 <= i < j < |entries| ==> entries[i].id != entries[j].id
  }

  function Ids(entries: seq<Entry>): set<nat> {
    set e | e in entries :: e.id
  }

  // ---------------------------------------------------------------- steps

  function Next(s: State, t: Tid, c: Choice): State {
    if t !in s.threads then s
    else
      match s.threads[t]
      case Idle =>
        (match c
         case Register(work) =>
           s.(nextId := s.nextId + 1, threads := s.threads[t := Numbered(Entry(s.nextId, work))])
         case DropGuard(id) =>
           if id in s.guards then s.(guards := s.guards - {id}, threads := s.threads[t := Dropping(id)]) else s
         case ForceDown => s.(threads := s.threads[t := Forcing])
         case Proceed(_) => s)
      case Numbered(entry) =>
        if s.holder.Free? then s.(holder := HeldBy(t), threads := s.threads[t := Pushing(entry)]) else s
      case Pushing(entry) =>
        s.(entries := s.entries + [entry], pushed := s.pushed + [entry], guards := s.guards + {entry.id},
           holder := Free, threads := s.threads[t := Idle])
      case Dropping(id) =>
        if s.holder.Free? then s.(holder := HeldBy(t), threads := s.threads[t := Retaining(id)]) else s
      case Retaining(id) =>
        s.(entries := Retained(s.entries, id), removed := s.removed + {id},
           holder := Free, threads := s.threads[t := Idle])
      case Forcing =>
        if s.holder.Free? then
          s.(holder := HeldBy(t), threads := s.threads[t := Calling(ForcedRun(s.entries, []))])
        else
          s.(threads := s.threads[t := Gone])
      case Calling(run) =>
        // A cleanup that panics is caught, so the outcome does not depend on `panics`.
        if |run.called| < |s.entries| then
          var entry := s.entries[|s.entries| - 1 - |run.called|];
          s.(threads := s.threads[t := Calling(run.(called := run.called + [entry]))])
        else
          s.(holder := Free, runs := s.runs + [run], threads := s.threads[t := Gone])
      case Gone => s
  }

  type Schedule = seq<(Tid, Choice)>

  function Run(s: State, schedule: Schedule): State
    decreases |schedule|
  {
    if schedule == [] then s else Run(Next(s, schedule[0].0, schedule[0].1), schedule[1..])
  }

  predicate Initial(s: State) {
    && s.nextId == 0 && s.entries == [] && s.holder == Free && s.guards == {}
    && s.pushed == [] && s.removed == {} && s.runs == []
    && forall t :: t in s.threads ==> s.threads[t] == Idle
  }

  // ---------------------------------------------------------------- the invariant

  predicate Locking(p: Point) {
    p.Pushing? || p.Retaining? || p.Calling?
  }

  predicate LockIsExclusive(s: State) {
    forall t :: t in s.threads && Locking(s.threads[t]) ==> s.holder == HeldBy(t)
  }

  /** A thread that holds an identifier which is not yet in the registry. */
  predicate Unpushed(p: Point) {
    p.Numbered? || p.Pushing?
  }

  predicate IdsAreFresh(s: State) {
    && DistinctIds(s.pushed)
    && (forall e :: e in s.pushed ==> e.id < s.nextId)
    && (forall t :: t in s.threads && Unpushed(s.threads[t]) ==>
          s.threads[t].entry.id < s.nextId && s.threads[t].entry.id !in Ids(s.pushed))
    && (forall t, u ::
          t in s.threads && u in s.threads && t != u && Unpushed(s.threads[t]) && Unpushed(s.threads[u]) ==>
          s.threads[t].entry.id != s.threads[u].entry.id)
  }

  /** A thread that is on its way to remove its guard's entry. */
  predicate Removing(p: Point) {
    p.Dropping? || p.Retaining?
  }

  predicate GuardsAreUnique(s: State) {
    && (forall t :: t in s.threads && Removing(s.threads[t]) ==> s.threads[t].id !in s.guards)
    && (forall t, u ::
          t in s.threads && u in s.threads && t != u && Removing(s.threads[t]) && Removing(s.threads[u]) ==>
          s.threads[t].id != s.threads[u].id)
  }

  /** `id` belongs to a guard that exists, or whose drop has not reached the list yet. */
  predicate Guarded(s: State, id: nat) {
    id in s.guards || exists t :: t in s.threads && Removing(s.threads[t]) && s.threads[t].id == id
  }

  ghost predicate RegistryIsLive(s: State) {
    && s.entries == Live(s.pushed, s.removed)
    && s.removed <= Ids(s.pushed)
    && forall id :: Guarded(s, id) <==> id in Ids(s.pushed) && id !in s.removed
  }

  predicate CalledInReverse(run: ForcedRun, entries: seq<Entry>) {
    && run.snapshot == entries
    && |run.called| <= |entries|
    && run.called == Reversed(entries)[..|run.called|]
  }

  predicate RunsAreComplete(s: State) {
    && (forall r :: r in s.runs ==> r.called == Reversed(r.snapshot) && DistinctIds(r.snapshot))
    && (forall t :: t in s.threads && s.threads[t].Calling? ==> CalledInReverse(s.threads[t].run, s.entries))
  }

  ghost predicate Inv(s: State) {
    LockIsExclusive(s) && IdsAreFresh(s) && GuardsAreUnique(s) && RegistryIsLive(s) && RunsAreComplete(s)
  }

  lemma LiveAppend(pushed: seq<Entry>, e: Entry, removed: set<nat>)
    ensures Live(pushed + [e], removed) == Live(pushed, removed) + if e.id !in removed then [e] else []
  {
    assert (pushed + [e])[..|pushed|] == pushed;
  }

  lemma RetainedAppend(entries: seq<Entry>, e: Entry, id: nat)
    ensures Retained(entries + [e], id) == Retained(entries, id) + if e.id != id then [e] else []
  {
    assert (entries + [e])[..|entries|] == entries;
  }

  /** Retaining is the same as counting one more identifier as removed. */
  lemma {:induction false} RetainedIsLive(pushed: seq<Entry>, removed: set<nat>, id: nat)
    ensures Retained(Live(pushed, removed), id) == Live(pushed, removed + {id})
  {
    if pushed != [] {
      var front, last := pushed[..|pushed| - 1], pushed[|pushed| - 1];
      RetainedIsLive(front, removed, id);
      if last.id !in removed {
        RetainedAppend(Live(front, removed), last, id);
      } else {
        assert Live(front, removed) + [] == Live(front, removed);
      }
    }
  }

  lemma {:induction false} LiveEntries(pushed: seq<Entry>, removed: set<nat>)
    ensures forall e :: e in Live(pushed, removed) <==> e in pushed && e.id !in removed
    ensures DistinctIds(pushed) ==> DistinctIds(Live(pushed, removed))
  {
    if pushed != [] {
      var front, last := pushed[..|pushed| - 1], pushed[|pushed| - 1];
      LiveEntries(front, removed);
      assert pushed == front + [last];
    }
  }

  lemma LockStep(s: State, t: Tid, c: Choice)
    requires LockIsExclusive(s)
    ensures LockIsExclusive(Next(s, t, c))
  {
    hide Retained;
  }

  /** What one step does to the identifiers, seen from its own thread. */
  lemma IdsEffect(s: State, t: Tid, c: Choice)
    ensures t !in s.threads ==> Next(s, t, c) == s
    ensures t in s.threads ==>
      var s', p, p' := Next(s, t, c), s.threads[t], Next(s, t, c).threads[t];
      && s'.threads == s.threads[t := p']
      && s'.nextId == s.nextId + (if p'.Numbered? && p.Idle? then 1 else 0)
      && s'.pushed == s.pushed + (if p.Pushing? then [p.entry] else [])
      && (Unpushed(p') ==> (Unpushed(p) && p'.entry == p.entry && !p.Pushing?) || (p.Idle? && p'.entry.id == s.nextId))
      && (p'.Pushing? ==> p.Numbered?)
  {
    hide Retained;
  }

  lemma IdsStep(s: State, t: Tid, c: Choice)
    requires IdsAreFresh(s)
    ensures IdsAreFresh(Next(s, t, c))
  {
    hide Next;
    IdsEffect(s, t, c);
    if t in s.threads {
      var s', p := Next(s, t, c), s.threads[t];
      assert forall i :: 0 <= i < |s.pushed| ==> s.pushed[i].id in Ids(s.pushed);
      assert DistinctIds(s'.pushed);
      assert forall e :: e in s'.pushed <==> e in s.pushed || (p.Pushing? && e == p.entry);
      assert Ids(s'.pushed) == Ids(s.pushed) + if p.Pushing? then {p.entry.id} else {};
    }
  }

  lemma GuardsStep(s: State, t: Tid, c: Choice)
    requires IdsAreFresh(s) && GuardsAreUnique(s) && RegistryIsLive(s)
    ensures GuardsAreUnique(Next(s, t, c))
  {
    hide Retained, Live;
    if t in s.threads && s.threads[t].Pushing? {
      var id := s.threads[t].entry.id;
      assert !Guarded(s, id);
    }
  }

  /** Which identifiers are guarded changes only when one is pushed or retained out. */
  lemma GuardedStep(s: State, t: Tid, c: Choice, id: nat)
    requires t in s.threads && GuardsAreUnique(s)
    ensures
      var s' := Next(s, t, c);
      Guarded(s', id) <==>
        match s.threads[t]
        case Pushing(entry) => id == entry.id || Guarded(s, id)
        case Retaining(gone) => id != gone && Guarded(s, id)
        case _ => Guarded(s, id)
  {
    hide Retained, Live;
    var s' := Next(s, t, c);
    if Guarded(s, id) && id !in s.guards {
      var u :| u in s.threads && Removing(s.threads[u]) && s.threads[u].id == id;
      if u != t {
        assert s'.threads[u] == s.threads[u];
      }
    }
    if Guarded(s', id) && id !in s'.guards {
      var u :| u in s'.threads && Removing(s'.threads[u]) && s'.threads[u].id == id;
      if u != t {
        assert s'.threads[u] == s.threads[u];
      }
    }
    if s.threads[t].Idle? && c.DropGuard? && c.id == id && id in s.guards {
      assert Removing(s'.threads[t]);
    }
    if s.threads[t].Dropping? && s.threads[t].id == id {
      assert Removing(s'.threads[t]);
    }
  }

  lemma RegistryStep(s: State, t: Tid, c: Choice)
    requires IdsAreFresh(s) && GuardsAreUnique(s) && RegistryIsLive(s)
    ensures RegistryIsLive(Next(s, t, c))
  {
    hide Guarded, Live, Retained;
    var s' := Next(s, t, c);
    if t in s.threads {
      forall id {
        GuardedStep(s, t, c, id);
      }
      match s.threads[t]
      case Pushing(entry) =>
        LiveAppend(s.pushed, entry, s.removed);
        assert entry.id !in Ids(s.pushed);
        assert Ids(s'.pushed) == Ids(s.pushed) + {entry.id} by {
          assert forall e :: e in s'.pushed <==> e in s.pushed || e == entry;
        }
      case Retaining(id) =>
        assert Guarded(s, id) by {
          RemovingIsGuarded(s, t);
        }
        RetainedIsLive(s.pushed, s.removed, id);
      case _ =>
    }
  }

  lemma RemovingIsGuarded(s: State, t: Tid)
    requires t in s.threads && Removing(s.threads[t])
    ensures Guarded(s, s.threads[t].id)
  {
  }

  lemma RunsStep(s: State, t: Tid, c: Choice)
    requires LockIsExclusive(s) && RunsAreComplete(s) && DistinctIds(s.entries)
    ensures RunsAreComplete(Next(s, t, c))
  {
    hide Retained;
    var s' := Next(s, t, c);
    if t in s.threads {
      assert Locking(s.threads[t]) ==> forall u :: u in s.threads && u != t ==> !Locking(s.threads[u]);
      match s.threads[t]
      case Calling(run) =>
        if |run.called| == |s.entries| {
          assert Reversed(s.entries)[..|s.entries|] == Reversed(s.entries);
        }
      case _ =>
    }
  }

  lemma InvStep(s: State, t: Tid, c: Choice)
    requires Inv(s)
    ensures Inv(Next(s, t, c))
  {
    hide Next, LockIsExclusive, IdsAreFresh, GuardsAreUnique, RegistryIsLive, RunsAreComplete;
    LockStep(s, t, c);
    IdsStep(s, t, c);
    GuardsStep(s, t, c);
    RegistryStep(s, t, c);
    assert DistinctIds(s.entries) by {
      EntriesAreDistinct(s);
    }
    RunsStep(s, t, c);
  }

  lemma EntriesAreDistinct(s: State)
    requires IdsAreFresh(s) && RegistryIsLive(s)
    ensures DistinctIds(s.entries)
  {
    hide Guarded, Live;
    LiveEntries(s.pushed, s.removed);
  }

  lemma {:induction false} InvAlways(s: State, schedule: Schedule)
    requires Inv(s)
    ensures Inv(Run(s, schedule))
    decreases |schedule|
  {
    hide Inv, Next;
    if schedule != [] {
      InvStep(s, schedule[0].0, schedule[0].1);
      InvAlways(Next(s, schedule[0].0, schedule[0].1), schedule[1..]);
    }
  }

  // ---------------------------------------------------------------- what every interleaving gives

  /** The registry is, at every step, the pushed entries whose guard exists or is still being dropped, in push order
      and under pairwise distinct identifiers below the counter. */
  lemma RegistryHoldsTheLive(s: State, schedule: Schedule)
    requires Initial(s)
    ensures
      var now := Run(s, schedule);
      && now.entries == Live(now.pushed, now.removed)
      && DistinctIds(now.entries)
      && (forall e :: e in now.entries ==> e.id < now.nextId)
      && (forall id :: id in Ids(now.entries) <==> Guarded(now, id))
  {
    hide Live, Guarded;
    InitialHolds(s);
    InvAlways(s, schedule);
    var now := Run(s, schedule);
    LiveEntries(now.pushed, now.removed);
  }

  lemma InitialHolds(s: State)
    requires Initial(s)
    ensures Inv(s)
  {
    assert forall id :: !Guarded(s, id);
  }

  /** Dropping a guard takes out its own entry, and no other: the rest keep their order. */
  lemma DropTakesItsOwn(s: State, schedule: Schedule, t: Tid, c: Choice) returns (i: nat)
    requires Initial(s)
    requires var now := Run(s, schedule); t in now.threads && now.threads[t].Retaining?
    ensures
      var now := Run(s, schedule);
      && i < |now.entries|
      && now.entries[i].id == now.threads[t].id
      && Next(now, t, c).entries == now.entries[..i] + now.entries[i + 1..]
  {
    hide Live, Retained;
    RegistryHoldsTheLive(s, schedule);
    var now := Run(s, schedule);
    var id := now.threads[t].id;
    RemovingIsGuarded(now, t);
    assert id in Ids(now.entries);
    var e :| e in now.entries && e.id == id;
    i :| 0 <= i < |now.entries| && now.entries[i] == e;
    RetainedCutsOne(now.entries, i);
  }

  lemma {:induction false} RetainedCutsOne(entries: seq<Entry>, i: nat)
    requires DistinctIds(entries) && i < |entries|
    ensures Retained(entries, entries[i].id) == entries[..i] + entries[i + 1..]
    decreases |entries|
  {
    var n := |entries| - 1;
    var front := entries[..n];
    if i < n {
      RetainedCutsOne(front, i);
      assert front[..i] == entries[..i] && front[i + 1..] + [entries[n]] == entries[i + 1..];
    } else {
      RetainedKeepsAll(front, entries[i].id);
      assert front + [] == entries[..i] + entries[i + 1..];
    }
  }

  lemma {:induction false} RetainedKeepsAll(entries: seq<Entry>, id: nat)
    requires forall i :: 0 <= i < |entries| ==> entries[i].id != id
    ensures Retained(entries, id) == entries
    decreases |entries|
  {
    if entries != [] {
      RetainedKeepsAll(entries[..|entries| - 1], id);
    }
  }

  /** A forced run that got the lock and comes to its end has called the whole registry as it stands, newest first: the
      entry of every live guard, and each once. */
  lemma ForcedRunCallsEachOnce(s: State, schedule: Schedule, t: Tid, c: Choice)
    requires Initial(s)
    requires Next(Run(s, schedule), t, c).runs != Run(s, schedule).runs
    ensures
      var now := Run(s, schedule);
      && Next(now, t, c).runs == now.runs + [ForcedRun(now.entries, Reversed(now.entries))]
      && DistinctIds(now.entries) && now.entries == Live(now.pushed, now.removed)
      && forall id :: id in Ids(now.entries) <==> Guarded(now, id)
  {
    hide Live, Guarded, Retained;
    InitialHolds(s);
    InvAlways(s, schedule);
    RegistryHoldsTheLive(s, schedule);
    var now := Run(s, schedule);
    assert CalledInReverse(now.threads[t].run, now.entries);
    assert Reversed(now.entries)[..|now.entries|] == Reversed(now.entries);
  }

  /** And so has every forced run that ever ended: no entry twice, newest first. */
  lemma ForcedRunsCalledNoneTwice(s: State, schedule: Schedule)
    requires Initial(s)
    ensures forall r :: r in Run(s, schedule).runs ==> r.called == Reversed(r.snapshot) && DistinctIds(r.called)
  {
    InitialHolds(s);
    InvAlways(s, schedule);
  }

  // ---------------------------------------------------------------- the code, uninterrupted

  /** How many of the called cleanups panic. */
  function Panics(called: seq<Entry>, panicking: set<Work>): nat {
    if called == [] then 0
    else Panics(called[..|called| - 1], panicking) + if called[|called| - 1].work in panicking then 1 else 0
  }

  /** The registry's list and its counter, and the three functions over them. */
  class Registry {
    var nextId: nat
    var entries: seq<Entry>

    constructor ()
      ensures nextId == 0 && entries == []
    {
      nextId, entries := 0, [];
    }

    method OnForcedExit(work: Work) returns (guard: nat)
      modifies this
      ensures guard == old(nextId) && nextId == old(nextId) + 1
      ensures entries == old(entries) + [Entry(guard, work)]
    {
      guard := nextId;
      nextId := nextId + 1;
      entries := entries + [Entry(guard, work)];
    }

    method Drop(guard: nat)
      modifies this`entries
      ensures entries == Retained(old(entries), guard)
    {
      var kept: seq<Entry> := [];
      for i := 0 to |entries|
        invariant entries == old(entries)
        invariant kept == Retained(entries[..i], guard)
      {
        assert entries[..i + 1] == entries[..i] + [entries[i]];
        RetainedAppend(entries[..i], entries[i], guard);
        if entries[i].id != guard {
          kept := kept + [entries[i]];
        }
      }
      assert entries[..|entries|] == entries;
      entries := kept;
    }

    /** `free` is whether `try_lock` succeeds, and `panicking` the cleanups that panic: a panic is caught and the
        walk goes on. */
    method RunForcedExitCleanup(free: bool, panicking: set<Work>) returns (called: seq<Entry>, caught: nat)
      ensures called == if free then Reversed(entries) else []
      ensures caught == Panics(called, panicking)
    {
      called, caught := [], 0;
      if !free {
        return;
      }
      var i := |entries|;
      while i > 0
        invariant 0 <= i <= |entries|
        invariant called == Reversed(entries)[..|entries| - i]
        invariant caught == Panics(called, panicking)
      {
        i := i - 1;
        assert (called + [entries[i]])[..|called|] == called;
        called := called + [entries[i]];
        if entries[i].work in panicking {
          caught := caught + 1;
        }
      }
      assert Reversed(entries)[..|entries|] == Reversed(entries);
    }
  }

  /** The steps of a registration that nothing interrupts are the method. */
  lemma RegistrationAlone(s: State, t: Tid, work: Work)
    requires t in s.threads && s.threads[t].Idle? && s.holder.Free?
    ensures
      var now := Next(Next(Next(s, t, Register(work)), t, Proceed(false)), t, Proceed(false));
      && now.nextId == s.nextId + 1
      && now.entries == s.entries + [Entry(s.nextId, work)]
      && now.guards == s.guards + {s.nextId}
      && now.threads == s.threads && now.holder == s.holder
  {
    var s1 := Next(s, t, Register(work));
    var s2 := Next(s1, t, Proceed(false));
    var s3 := Next(s2, t, Proceed(false));
    assert s3.threads[t] == s.threads[t];
    assert s3.threads == s.threads;
  }

  /** And so are the steps of a drop. */
  lemma DropAlone(s: State, t: Tid, guard: nat)
    requires t in s.threads && s.threads[t].Idle? && s.holder.Free? && guard in s.guards
    ensures
      var now := Next(Next(Next(s, t, DropGuard(guard)), t, Proceed(false)), t, Proceed(false));
      && now.nextId == s.nextId
      && now.entries == Retained(s.entries, guard)
      && now.guards == s.guards - {guard}
      && now.threads == s.threads && now.holder == s.holder
  {
    hide Retained;
    var s1 := Next(s, t, DropGuard(guard));
    var s2 := Next(s1, t, Proceed(false));
    var s3 := Next(s2, t, Proceed(false));
    assert s3.threads[t] == s.threads[t];
    assert s3.threads == s.threads;
  }

  /** Nothing but turns of one thread, whichever of the cleanups panic. */
  predicate TurnsOf(schedule: Schedule, t: Tid) {
    forall i :: 0 <= i < |schedule| ==> schedule[i].0 == t && schedule[i].1.Proceed?
  }

  lemma OneTurn(s: State, schedule: Schedule, t: Tid)
    requires schedule != [] && TurnsOf(schedule, t)
    ensures Run(s, schedule) == Run(Next(s, t, schedule[0].1), schedule[1..])
    ensures TurnsOf(schedule[1..], t) && schedule[0].1.Proceed?
  {
    hide Next;
  }

  lemma CallOne(s: State, t: Tid, c: Choice)
    requires t in s.threads && s.threads[t].Calling?
    ensures
      var run := s.threads[t].run;
      Next(s, t, c)
      == if |run.called| < |s.entries| then
           var entry := s.entries[|s.entries| - 1 - |run.called|];
           s.(threads := s.threads[t := Calling(run.(called := run.called + [entry]))])
         else
           s.(holder := Free, runs := s.runs + [run], threads := s.threads[t := Gone])
  {
    hide Retained;
  }

  lemma {:induction false} CallingAlone(s: State, t: Tid, schedule: Schedule)
    requires t in s.threads && s.threads[t].Calling? && CalledInReverse(s.threads[t].run, s.entries)
    requires TurnsOf(schedule, t) && |schedule| == |s.entries| - |s.threads[t].run.called| + 1
    ensures Run(s, schedule)
            == s.(holder := Free, runs := s.runs + [ForcedRun(s.entries, Reversed(s.entries))],
                  threads := s.threads[t := Gone])
    decreases |schedule|
  {
    hide Next, Run;
    var run := s.threads[t].run;
    var next := Next(s, t, schedule[0].1);
    OneTurn(s, schedule, t);
    CallOne(s, t, schedule[0].1);
    if |run.called| < |s.entries| {
      assert Reversed(s.entries)[..|run.called| + 1]
          == Reversed(s.entries)[..|run.called|] + [Reversed(s.entries)[|run.called|]];
      CallingAlone(next, t, schedule[1..]);
      assert next.threads[t := Gone] == s.threads[t := Gone];
    } else {
      assert Reversed(s.entries)[..|s.entries|] == Reversed(s.entries);
      RunNothing(next);
      assert schedule[1..] == [];
    }
  }

  lemma RunNothing(s: State)
    ensures Run(s, []) == s
  {
  }

  /** The steps of a forced run that finds the lock free and that nothing interrupts call every entry, newest first, and
      give the lock back; one that finds it held calls nothing and does not wait. */
  lemma ForcedAlone(s: State, t: Tid, schedule: Schedule)
    requires t in s.threads && s.threads[t].Idle? && TurnsOf(schedule, t)
    ensures s.holder.Free? && |schedule| == |s.entries| + 2 ==>
      Run(Next(s, t, ForceDown), schedule)
      == s.(runs := s.runs + [ForcedRun(s.entries, Reversed(s.entries))], threads := s.threads[t := Gone])
    ensures !s.holder.Free? && |schedule| == 1 ==>
      Run(Next(s, t, ForceDown), schedule) == s.(threads := s.threads[t := Gone])
  {
    hide Run, Retained;
    var s1 := Next(s, t, ForceDown);
    if |schedule| > 0 {
      OneTurn(s1, schedule, t);
      var s2 := Next(s1, t, schedule[0].1);
      if s.holder.Free? && |schedule| == |s.entries| + 2 {
        CallingAlone(s2, t, schedule[1..]);
        assert s2.threads[t := Gone] == s.threads[t := Gone];
      } else if |schedule| == 1 {
        RunNothing(s2);
        assert schedule[1..] == [];
        assert s1.threads[t := Gone] == s.threads[t := Gone];
      }
    }
  }
}
