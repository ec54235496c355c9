/** Terminal ownership and signals: `crates/glasshouse/src/shutdown.rs`.

    Any number of threads acquire the terminal, give it back, panic, answer signals and force the process down.
    Each access to a shared atomic, and each call on the terminal, is one step; a schedule picks the thread that
    takes the next step, so the theorems about all schedules are about all interleavings. Any thread may restore
    the terminal at any time, whether or not it holds a guard, so the runs include those of guard drops, of the
    panic hook, of the hangup detector and of `main`. `Process` holds the same code as uninterrupted methods, each
    proved equal to its own steps. */
module Shutdown {

  type Tid = nat

  /** What follows a call to `restore_terminal`. */
  datatype After =
    | Return     // a guard drop, the panic hook, the hangup detector, main
    | Cleanup    // the panic hook, run by a forced-exit cleanup that panicked
    | Exit       // force_exit

  /** Where a thread stands: the step it takes next. `engagedBefore` is no program variable; it remembers how many
      engages had completed when the thread swapped the flag. */
  datatype Point =
    | Idle
    | EnablingRaw(alternate: bool)
    | StoringEver(alternate: bool)
    | StoringEngaged(alternate: bool)
    | EnteringScreen
    | Swapping(after: After)
    | DisablingRaw(after: After, engagedBefore: nat)
    | WritingRestore(after: After, engagedBefore: nat)
    | LoadingEngaged
    | LoadingEver
    | Counting
    | Requesting
    | RunningCleanup
    | Exiting(engagedBefore: nat)

  datatype Meaning = LeaveImmediately | AskToStop | StopWaiting

  /** The shared state: the terminal's mode and screen, the atomics, and four histories: `entered`, whether an acquire
      of the alternate screen has completed since the flag was last taken down, `engages`, `restores` and `answers`. */
  datatype Shared = Shared(
    raw: bool,
    screen: bool,
    entered: bool,
    engaged: bool,
    everEngaged: bool,
    requested: bool,
    signalsSeen: nat,
    exited: bool,
    engages: nat,
    restores: nat,
    answers: seq<Meaning>)

  datatype State = State(shared: Shared, threads: map<Tid, Point>)

  /** What the scheduler and the environment decide: the operation an idle thread starts, and whether a fallible
      call, or a cleanup callback, fails; entering the alternate screen can fail after the screen was entered. */
  datatype Choice =
    | Acquire(alternate: bool)
    | Restore
    | Signal
    | RequestStop
    | Proceed
    | Fail
    | FailPartWay

  // ---------------------------------------------------------------- steps

  function Finished(after: After, engages: nat): Point {
    match after
    case Return => Idle
    case Cleanup => RunningCleanup
    case Exit => Exiting(engages)
  }

  function Start(c: Choice): Point {
    match c
    case Acquire(alternate) => EnablingRaw(alternate)
    case Restore => Swapping(Return)
    case Signal => LoadingEngaged
    case RequestStop => Requesting
    case _ => Idle
  }

  /** The step of a thread at `p`: its effect on the shared state, and where the thread stands after it. */
  function Stepped(s: Shared, p: Point, c: Choice): (Shared, Point) {
    match p
    case Idle => (s, Start(c))
    case EnablingRaw(alternate) =>
      if c.Fail? then (s, Idle) else (s.(raw := true), StoringEver(alternate))
    case StoringEver(alternate) => (s.(everEngaged := true), StoringEngaged(alternate))
    case StoringEngaged(alternate) =>
      (s.(engaged := true, engages := s.engages + 1), if alternate then EnteringScreen else Idle)
    case EnteringScreen =>
      if c.Fail? then (s, Swapping(Return))
      else if c.FailPartWay? then (s.(screen := true), Swapping(Return))
      else (s.(screen := true, entered := true), Idle)
    case Swapping(after) =>
      if s.engaged then (s.(engaged := false, entered := false), DisablingRaw(after, s.engages))
      else (s, Finished(after, s.engages))
    case DisablingRaw(after, before) => (s.(raw := false), WritingRestore(after, before))
    case WritingRestore(after, before) => (s.(screen := false, restores := s.restores + 1), Finished(after, before))
    case LoadingEngaged => (s, if s.engaged then Counting else LoadingEver)
    case LoadingEver =>
      if s.everEngaged then (s, Counting)
      else (s.(answers := s.answers + [LeaveImmediately]), RunningCleanup)
    case Counting =>
      if s.signalsSeen > 0 then
        (s.(signalsSeen := s.signalsSeen + 1, answers := s.answers + [StopWaiting]), RunningCleanup)
      else
        (s.(signalsSeen := s.signalsSeen + 1, answers := s.answers + [AskToStop]), Requesting)
    case Requesting => (s.(requested := true), Idle)
    case RunningCleanup => (s, if c.Fail? then Swapping(Cleanup) else Swapping(Exit))
    case Exiting(_) => (s.(exited := true), p)
  }

  /** No thread steps once the process has exited. */
  function Next(s: State, t: Tid, c: Choice): State {
    if t !in s.threads || s.shared.exited then s
    else
      var (shared, p) := Stepped(s.shared, s.threads[t], c);
      State(shared, s.threads[t := p])
  }

  type Schedule = seq<(Tid, Choice)>

  function Run(s: State, schedule: Schedule): State
    decreases |schedule|
  {
    if schedule == [] then s else Run(Next(s, schedule[0].0, schedule[0].1), schedule[1..])
  }

  const FRESH: Shared := Shared(false, false, false, false, false, false, 0, false, 0, 0, [])

  predicate Initial(s: State) {
    s.shared == FRESH && forall t :: t in s.threads ==> s.threads[t] == Idle
  }

  // ---------------------------------------------------------------- the invariant

  /** Between `enable_raw_mode` and the engaged store. */
  predicate Acquiring(p: Point) {
    p.StoringEver? || p.StoringEngaged?
  }

  /** Between a successful swap and the end of the restore sequence. */
  predicate Restoring(p: Point) {
    p.DisablingRaw? || p.WritingRestore?
  }

  /** Raw mode is on or going on while the flag does not say so yet, or off the flag while raw mode is still on. */
  predicate InWindow(p: Point) {
    Acquiring(p) || p.DisablingRaw?
  }

  predicate PastSwap(p: Point) {
    Restoring(p) || p.Exiting?
  }

  function RestoringThreads(threads: map<Tid, Point>): set<Tid> {
    set t | t in threads && Restoring(threads[t])
  }

  /** Raw mode is never left on without a claim to it: either the flag owns it, or a thread is in a window. */
  predicate RawIsOwned(s: State) {
    s.shared.raw && !s.shared.engaged ==> exists t | t in s.threads :: InWindow(s.threads[t])
  }

  predicate RestoresAreEarned(s: State) {
    s.shared.restores + |RestoringThreads(s.threads)| + (if s.shared.engaged then 1 else 0) <= s.shared.engages
  }

  predicate LatchHolds(s: State) {
    && (s.shared.engaged ==> s.shared.everEngaged)
    && (forall t | t in s.threads :: s.threads[t].StoringEngaged? ==> s.shared.everEngaged)
    && (s.shared.engages > 0 ==> s.shared.everEngaged)
  }

  predicate SwapsAreRemembered(s: State) {
    forall t | t in s.threads && PastSwap(s.threads[t]) ::
      && s.threads[t].engagedBefore <= s.shared.engages
      && (s.shared.engaged ==> s.threads[t].engagedBefore < s.shared.engages)
  }

  /** The answers given by counting, in order. */
  function Counted(answers: seq<Meaning>): seq<Meaning> {
    if answers == [] then []
    else
      var last := answers[|answers| - 1];
      Counted(answers[..|answers| - 1]) + if last == LeaveImmediately then [] else [last]
  }

  /** The counting rule: the first of `n` signals asks, and every later one forces. */
  function Asked(n: nat): seq<Meaning> {
    if n == 0 then [] else [AskToStop] + seq(n - 1, _ => StopWaiting)
  }

  predicate AnswersFollowTheCount(s: State) {
    Counted(s.shared.answers) == Asked(s.shared.signalsSeen)
  }

  predicate Inv(s: State) {
    RawIsOwned(s) && RestoresAreEarned(s) && LatchHolds(s) && SwapsAreRemembered(s) && AnswersFollowTheCount(s)
  }

  lemma InitialHolds(s: State)
    requires Initial(s)
    ensures Inv(s)
  {
    assert RestoringThreads(s.threads) == {};
  }

  function Ord(b: bool): nat { if b then 1 else 0 }

  /** What one step does to raw mode, the flag and the counts, seen from its own thread. */
  lemma StepOnTerminal(s: Shared, p: Point, c: Choice)
    ensures
      var (s', p') := Stepped(s, p, c);
      && (s'.raw && !s'.engaged ==> InWindow(p') || (s.raw && !s.engaged && !InWindow(p)))
      && s'.restores + Ord(Restoring(p')) + Ord(s'.engaged) + s.engages
         <= s.restores + Ord(Restoring(p)) + Ord(s.engaged) + s'.engages
  {
    match p
    case StoringEngaged(_) =>
    case Swapping(_) =>
    case DisablingRaw(_, _) =>
    case WritingRestore(_, _) =>
    case _ =>
  }

  /** What one step does to the latch and to the memory of the swap. */
  lemma StepOnLatch(s: Shared, p: Point, c: Choice)
    ensures
      var (s', p') := Stepped(s, p, c);
      && (s.everEngaged ==> s'.everEngaged)
      && (p'.StoringEngaged? ==> s'.everEngaged)
      && (s'.engaged ==> s.engaged || p.StoringEngaged?)
      && s.engages <= s'.engages <= s.engages + 1
      && (s'.engages > s.engages ==> p.StoringEngaged?)
      && (s'.engaged && !s.engaged ==> s'.engages > s.engages)
      && (PastSwap(p') ==>
            if PastSwap(p) then p'.engagedBefore == p.engagedBefore
            else p'.engagedBefore == s'.engages && !s'.engaged)
  {
    match p
    case StoringEver(_) =>
    case StoringEngaged(_) =>
    case Swapping(_) =>
    case _ =>
  }

  /** What one step does to the answers. */
  lemma StepOnAnswers(s: Shared, p: Point, c: Choice)
    ensures
      var (s', p') := Stepped(s, p, c);
      || (s'.answers == s.answers && s'.signalsSeen == s.signalsSeen)
      || (s'.answers == s.answers + [LeaveImmediately] && s'.signalsSeen == s.signalsSeen && !s.everEngaged)
      || (s'.answers == s.answers + [if s.signalsSeen > 0 then StopWaiting else AskToStop] &&
          s'.signalsSeen == s.signalsSeen + 1)
  {
    match p
    case LoadingEver =>
    case Counting =>
    case _ =>
  }

  lemma RawIsOwnedStep(s: State, t: Tid, c: Choice)
    requires RawIsOwned(s)
    ensures RawIsOwned(Next(s, t, c))
  {
    hide Stepped, InWindow;
    var s' := Next(s, t, c);
    if t in s.threads && s'.shared.raw && !s'.shared.engaged {
      StepOnTerminal(s.shared, s.threads[t], c);
      if !InWindow(s'.threads[t]) {
        var u :| u in s.threads && InWindow(s.threads[u]);
        assert u == t || s'.threads[u] == s.threads[u];
      }
    }
  }

  lemma RestoresAreEarnedStep(s: State, t: Tid, c: Choice)
    requires RestoresAreEarned(s)
    ensures RestoresAreEarned(Next(s, t, c))
  {
    hide Stepped, Restoring;
    var s' := Next(s, t, c);
    if t in s.threads {
      StepOnTerminal(s.shared, s.threads[t], c);
      var before, now := RestoringThreads(s.threads), RestoringThreads(s'.threads);
      assert now - {t} == before - {t};
      assert |now| == |now - {t}| + Ord(Restoring(s'.threads[t]));
      assert |before| == |before - {t}| + Ord(Restoring(s.threads[t]));
    }
  }

  lemma LatchStep(s: State, t: Tid, c: Choice)
    requires LatchHolds(s) && SwapsAreRemembered(s)
    ensures LatchHolds(Next(s, t, c)) && SwapsAreRemembered(Next(s, t, c))
  {
    hide Stepped, PastSwap;
    if t in s.threads {
      StepOnLatch(s.shared, s.threads[t], c);
    }
  }

  lemma CountedAppend(answers: seq<Meaning>, last: Meaning)
    ensures Counted(answers + [last]) == Counted(answers) + if last == LeaveImmediately then [] else [last]
  {
    assert (answers + [last])[..|answers|] == answers;
  }

  lemma AnswersStep(s: State, t: Tid, c: Choice)
    requires AnswersFollowTheCount(s)
    ensures AnswersFollowTheCount(Next(s, t, c))
  {
    hide Stepped, Counted;
    if t in s.threads {
      StepOnAnswers(s.shared, s.threads[t], c);
      CountedAppend(s.shared.answers, LeaveImmediately);
      CountedAppend(s.shared.answers, AskToStop);
      CountedAppend(s.shared.answers, StopWaiting);
      var n := s.shared.signalsSeen;
      assert Asked(n + 1) == Asked(n) + [if n > 0 then StopWaiting else AskToStop];
    }
  }

  lemma InvStep(s: State, t: Tid, c: Choice)
    requires Inv(s)
    ensures Inv(Next(s, t, c))
  {
    hide Next, RawIsOwned, RestoresAreEarned, LatchHolds, SwapsAreRemembered, AnswersFollowTheCount;
    RawIsOwnedStep(s, t, c);
    RestoresAreEarnedStep(s, t, c);
    LatchStep(s, t, c);
    AnswersStep(s, t, c);
  }

  /** Every state of every interleaving satisfies the invariant. */
  lemma {:induction false} InvAlways(s: State, schedule: Schedule)
    requires Inv(s)
    ensures Inv(Run(s, schedule))
    decreases |schedule|
  {
    hide Inv, Next;
    if schedule != [] {
      InvStep(s, schedule[0].0, schedule[0].1);
      InvAlways(Next(s, schedule[0].0, schedule[0].1), schedule[1..]);
    }
  }

  // ---------------------------------------------------------------- what every interleaving gives

  /** Raw mode left on without the flag is always some thread's unfinished business, and no restore sequence is
      written that an engage has not paid for. */
  lemma RawIsNeverStranded(s: State, schedule: Schedule)
    requires Initial(s)
    ensures RawIsOwned(Run(s, schedule))
    ensures Run(s, schedule).shared.restores <= Run(s, schedule).shared.engages
  {
    InitialHolds(s);
    InvAlways(s, schedule);
  }

  /** Of the signals that are counted the first asks and every later one forces, in every interleaving. */
  lemma OneSignalAsks(s: State, schedule: Schedule)
    requires Initial(s)
    ensures
      var now := Run(s, schedule).shared;
      && Counted(now.answers) == Asked(now.signalsSeen)
      && (now.signalsSeen > 0 ==> multiset(Counted(now.answers))[AskToStop] == 1)
  {
    InitialHolds(s);
    InvAlways(s, schedule);
    var n := Run(s, schedule).shared.signalsSeen;
    if n > 0 {
      var forced := seq(n - 1, _ => StopWaiting);
      assert multiset(Asked(n)) == multiset([AskToStop]) + multiset(forced);
      assert AskToStop !in forced;
    }
  }

  function Leaves(answers: seq<Meaning>): nat {
    multiset(answers)[LeaveImmediately]
  }

  lemma LeavesStep(s: State, t: Tid, c: Choice)
    requires LatchHolds(s) && (s.shared.engaged || s.shared.everEngaged)
    ensures Next(s, t, c).shared.everEngaged
    ensures Leaves(Next(s, t, c).shared.answers) == Leaves(s.shared.answers)
  {
    hide Stepped;
    if t in s.threads {
      StepOnLatch(s.shared, s.threads[t], c);
      StepOnAnswers(s.shared, s.threads[t], c);
    }
  }

  lemma {:induction false} NoLeavesOnceLatched(s: State, schedule: Schedule)
    requires Inv(s) && s.shared.everEngaged
    ensures Run(s, schedule).shared.everEngaged
    ensures Leaves(Run(s, schedule).shared.answers) == Leaves(s.shared.answers)
    decreases |schedule|
  {
    hide Next;
    if schedule != [] {
      LeavesStep(s, schedule[0].0, schedule[0].1);
      InvStep(s, schedule[0].0, schedule[0].1);
      NoLeavesOnceLatched(Next(s, schedule[0].0, schedule[0].1), schedule[1..]);
    }
  }

  /** Once an engage has begun, no signal is ever again answered as if the process had never held the terminal,
      not even after the terminal was given back. */
  lemma NoLeavesAfterAnEngage(s: State, before: Schedule, after: Schedule)
    requires Initial(s)
    requires Run(s, before).shared.engaged || Run(s, before).shared.everEngaged
    ensures Run(Run(s, before), after).shared.everEngaged
    ensures Leaves(Run(Run(s, before), after).shared.answers) == Leaves(Run(s, before).shared.answers)
  {
    InitialHolds(s);
    InvAlways(s, before);
    NoLeavesOnceLatched(Run(s, before), after);
  }

  // ---------------------------------------------------------------- what an answer leads to

  lemma {:induction false} RunThen(s: State, schedule: Schedule, t: Tid, c: Choice) returns (longer: Schedule)
    ensures longer == schedule + [(t, c)]
    ensures Run(s, longer) == Next(Run(s, schedule), t, c)
    decreases |schedule|
  {
    hide Next;
    longer := schedule + [(t, c)];
    if schedule != [] {
      var rest := RunThen(Next(s, schedule[0].0, schedule[0].1), schedule[1..], t, c);
      assert longer[1..] == rest;
    } else {
      assert longer[1..] == [];
    }
  }

  lemma {:induction false} RunConcat(s: State, first: Schedule, second: Schedule)
    ensures Run(s, first + second) == Run(Run(s, first), second)
    decreases |first|
  {
    hide Next;
    if first == [] {
      assert first + second == second;
    } else {
      assert (first + second)[1..] == first[1..] + second;
      RunConcat(Next(s, first[0].0, first[0].1), first[1..], second);
    }
  }

  /** Inside `force_exit`: from its first step to the end of the process. */
  predicate OnTheWay(p: Point) {
    || p.RunningCleanup? || p.Exiting?
    || ((p.Swapping? || Restoring(p)) && p.after != Return)
  }

  /** The next step answers a signal. */
  predicate Answers(p: Point) {
    p.LoadingEver? || p.Counting?
  }

  function Leaving(threads: map<Tid, Point>): set<Tid> {
    set t | t in threads && OnTheWay(threads[t])
  }

  function Forced(answers: seq<Meaning>): nat {
    multiset(answers)[LeaveImmediately] + multiset(answers)[StopWaiting]
  }

  /** Every answer that forces has its own thread on the way to the exit, and no other thread is. */
  predicate ForcedAreLeaving(s: State) {
    |Leaving(s.threads)| == Forced(s.shared.answers)
  }

  /** An asking answer has raised the request, or its thread is about to. */
  predicate AskIsHeard(s: State) {
    AskToStop in s.shared.answers ==>
      s.shared.requested || exists t | t in s.threads :: s.threads[t].Requesting?
  }

  predicate ExitHasItsThread(s: State) {
    s.shared.exited ==> exists t | t in s.threads :: s.threads[t].Exiting?
  }

  predicate CountsNeedAnEngage(s: State) {
    && (s.shared.signalsSeen > 0 ==> s.shared.everEngaged)
    && (forall t | t in s.threads :: s.threads[t].Counting? ==> s.shared.everEngaged)
  }

  /** Where a step leads that answers a signal, and what a step does to the request. */
  lemma StepOnAsks(s: Shared, p: Point, c: Choice)
    ensures
      var (s', p') := Stepped(s, p, c);
      && (s.requested ==> s'.requested)
      && (p.Requesting? ==> s'.requested)
      && (s'.requested ==> s.requested || p.Requesting?)
      && (AskToStop in s'.answers ==> AskToStop in s.answers || p'.Requesting?)
      && (AskToStop in s.answers ==> AskToStop in s'.answers)
      && (p'.Requesting? ==> (p.Idle? && c.RequestStop?) || AskToStop in s'.answers)
  {
    match p
    case LoadingEver =>
    case Counting =>
    case Requesting =>
    case _ =>
  }

  lemma StepOnTheWay(s: Shared, p: Point, c: Choice)
    ensures
      var (s', p') := Stepped(s, p, c);
      && (OnTheWay(p) ==> OnTheWay(p'))
      && (OnTheWay(p') ==> OnTheWay(p) || Answers(p))
  {
    match p
    case Swapping(_) =>
    case WritingRestore(_, _) =>
    case RunningCleanup =>
    case _ =>
  }

  lemma StepToTheEnd(s: Shared, p: Point, c: Choice)
    ensures
      var (s', p') := Stepped(s, p, c);
      && (s'.exited ==> s.exited || p'.Exiting?)
      && (p.Exiting? ==> p' == p)
      && (!Answers(p) ==> s'.answers == s.answers)
  {
    match p
    case Swapping(_) =>
    case _ =>
  }

  lemma StepOnForced(s: Shared, p: Point, c: Choice)
    ensures
      var (s', p') := Stepped(s, p, c);
      Forced(s'.answers) + Ord(OnTheWay(p)) == Forced(s.answers) + Ord(OnTheWay(p'))
  {
    hide Stepped, Forced, OnTheWay;
    StepOnTheWay(s, p, c);
    StepToTheEnd(s, p, c);
    if Answers(p) {
      AnswerLeads(s, p, c);
    }
  }

  lemma AnswerLeads(s: Shared, p: Point, c: Choice)
    requires Answers(p)
    ensures
      var (s', p') := Stepped(s, p, c);
      !OnTheWay(p) && Forced(s'.answers) == Forced(s.answers) + Ord(OnTheWay(p'))
  {
    hide Forced;
    ForcedAppend(s.answers);
    match p
    case LoadingEver =>
    case Counting =>
  }

  lemma ForcedAppend(answers: seq<Meaning>)
    ensures Forced(answers + [LeaveImmediately]) == Forced(answers) + 1
    ensures Forced(answers + [StopWaiting]) == Forced(answers) + 1
    ensures Forced(answers + [AskToStop]) == Forced(answers)
  {
  }

  lemma StepOnCounts(s: Shared, p: Point, c: Choice)
    ensures
      var (s', p') := Stepped(s, p, c);
      && (s.everEngaged ==> s'.everEngaged)
      && (s'.signalsSeen > s.signalsSeen ==> p.Counting?)
      && (p'.Counting? ==> s.engaged || s.everEngaged)
  {
    match p
    case LoadingEngaged =>
    case LoadingEver =>
    case Counting =>
    case _ =>
  }

  predicate Followed(s: State) {
    ForcedAreLeaving(s) && AskIsHeard(s) && ExitHasItsThread(s) && CountsNeedAnEngage(s) && LatchHolds(s)
  }

  lemma ForcedAreLeavingStep(s: State, t: Tid, c: Choice)
    requires ForcedAreLeaving(s)
    ensures ForcedAreLeaving(Next(s, t, c))
  {
    hide Stepped, OnTheWay, Forced;
    var s' := Next(s, t, c);
    if t in s.threads && !s.shared.exited {
      StepOnForced(s.shared, s.threads[t], c);
      var before, now := Leaving(s.threads), Leaving(s'.threads);
      assert now - {t} == before - {t};
      assert |now| == |now - {t}| + Ord(OnTheWay(s'.threads[t]));
      assert |before| == |before - {t}| + Ord(OnTheWay(s.threads[t]));
    }
  }

  lemma AskIsHeardStep(s: State, t: Tid, c: Choice)
    requires AskIsHeard(s)
    ensures AskIsHeard(Next(s, t, c))
    ensures s.shared.requested ==> Next(s, t, c).shared.requested
  {
    hide Stepped;
    var s' := Next(s, t, c);
    if t in s.threads && !s.shared.exited {
      StepOnAsks(s.shared, s.threads[t], c);
      if AskToStop in s'.shared.answers && !s'.shared.requested && !s'.threads[t].Requesting? {
        var u :| u in s.threads && s.threads[u].Requesting?;
        assert s'.threads[u] == s.threads[u];
      }
    }
  }

  lemma ExitHasItsThreadStep(s: State, t: Tid, c: Choice)
    requires ExitHasItsThread(s)
    ensures ExitHasItsThread(Next(s, t, c))
  {
    hide Stepped, OnTheWay;
    if t in s.threads && !s.shared.exited {
      StepToTheEnd(s.shared, s.threads[t], c);
      assert t in Next(s, t, c).threads;
    }
  }

  lemma CountsNeedAnEngageStep(s: State, t: Tid, c: Choice)
    requires CountsNeedAnEngage(s) && LatchHolds(s)
    ensures CountsNeedAnEngage(Next(s, t, c))
  {
    hide Stepped;
    if t in s.threads {
      StepOnCounts(s.shared, s.threads[t], c);
    }
  }

  lemma FollowedStep(s: State, t: Tid, c: Choice)
    requires Inv(s) && Followed(s)
    ensures Followed(Next(s, t, c))
  {
    hide Next, ForcedAreLeaving, AskIsHeard, ExitHasItsThread, CountsNeedAnEngage, LatchHolds, RawIsOwned,
      RestoresAreEarned, SwapsAreRemembered, AnswersFollowTheCount;
    ForcedAreLeavingStep(s, t, c);
    AskIsHeardStep(s, t, c);
    ExitHasItsThreadStep(s, t, c);
    CountsNeedAnEngageStep(s, t, c);
    LatchStep(s, t, c);
  }

  lemma {:induction false} FollowedAlways(s: State, schedule: Schedule)
    requires Inv(s) && Followed(s)
    ensures Followed(Run(s, schedule))
    decreases |schedule|
  {
    hide Inv, Followed, Next;
    if schedule != [] {
      InvStep(s, schedule[0].0, schedule[0].1);
      FollowedStep(s, schedule[0].0, schedule[0].1);
      FollowedAlways(Next(s, schedule[0].0, schedule[0].1), schedule[1..]);
    }
  }

  /** In every interleaving: once a signal was answered by asking, the request is up or its thread is about to raise
      it; as many threads are inside `force_exit` as signals were answered by forcing; only such a thread ends the
      process; and no signal is counted before the terminal was first held. */
  lemma AnswersAreFollowed(s: State, schedule: Schedule)
    requires Initial(s)
    ensures
      var now := Run(s, schedule);
      && (AskToStop in now.shared.answers ==>
            now.shared.requested || exists t | t in now.threads :: now.threads[t].Requesting?)
      && |Leaving(now.threads)|
         == multiset(now.shared.answers)[LeaveImmediately] + multiset(now.shared.answers)[StopWaiting]
      && (now.shared.exited ==> exists t | t in now.threads :: now.threads[t].Exiting?)
      && (now.shared.signalsSeen > 0 ==> now.shared.everEngaged)
  {
    InitialHolds(s);
    assert Leaving(s.threads) == {};
    FollowedAlways(s, schedule);
  }

  /** Once up the request never falls. */
  lemma {:induction false} RequestIsKept(s: State, schedule: Schedule)
    requires s.shared.requested
    ensures Run(s, schedule).shared.requested
    decreases |schedule|
  {
    hide Stepped;
    if schedule != [] {
      var (t, c) := schedule[0];
      if t in s.threads {
        StepOnAsks(s.shared, s.threads[t], c);
      }
      RequestIsKept(Next(s, t, c), schedule[1..]);
    }
  }

  predicate AsksAlone(schedule: Schedule) {
    forall i :: 0 <= i < |schedule| ==> !schedule[i].1.RequestStop?
  }

  /** The request, up or about to be raised, was asked for by a signal. */
  predicate RequestIsAsked(s: State) {
    s.shared.requested || (exists t | t in s.threads :: s.threads[t].Requesting?) ==> AskToStop in s.shared.answers
  }

  lemma {:induction false} RequestIsAskedAlways(s: State, schedule: Schedule)
    requires RequestIsAsked(s) && AsksAlone(schedule)
    ensures RequestIsAsked(Run(s, schedule))
    decreases |schedule|
  {
    hide Stepped;
    if schedule != [] {
      var (t, c) := schedule[0];
      assert !schedule[0].1.RequestStop?;
      var s' := Next(s, t, c);
      if t in s.threads && !s.shared.exited {
        StepOnAsks(s.shared, s.threads[t], c);
        assert forall u | u in s.threads && u != t :: s'.threads[u] == s.threads[u];
      }
      RequestIsAskedAlways(s', schedule[1..]);
    }
  }

  /** Where nothing but signals asks to stop, the request is up only after a signal was answered by asking. */
  lemma OnlyAsksRequest(s: State, schedule: Schedule)
    requires Initial(s) && AsksAlone(schedule)
    ensures Run(s, schedule).shared.requested ==> AskToStop in Run(s, schedule).shared.answers
  {
    RequestIsAskedAlways(s, schedule);
  }

  lemma {:induction false} StaysOnTheWay(s: State, t: Tid, schedule: Schedule)
    requires t in s.threads && OnTheWay(s.threads[t])
    ensures t in Run(s, schedule).threads && OnTheWay(Run(s, schedule).threads[t])
    decreases |schedule|
  {
    hide Stepped, OnTheWay;
    if schedule != [] {
      StepOnTheWay(s.shared, s.threads[t], schedule[0].1);
      StaysOnTheWay(Next(s, schedule[0].0, schedule[0].1), t, schedule[1..]);
    }
  }

  /** A thread whose signal was answered by forcing never does anything else again. */
  lemma ForcedGoesOn(s: State, t: Tid, c: Choice, after: Schedule)
    requires Forced(Next(s, t, c).shared.answers) > Forced(s.shared.answers)
    ensures
      var now := Run(Next(s, t, c), after);
      t in now.threads && OnTheWay(now.threads[t])
  {
    hide Stepped, OnTheWay, Forced;
    StepOnForced(s.shared, s.threads[t], c);
    StaysOnTheWay(Next(s, t, c), t, after);
  }

  function StepsToExit(p: Point): nat
    requires OnTheWay(p)
  {
    match p
    case Swapping(after) => if after.Exit? then 4 else 8
    case DisablingRaw(after, _) => if after.Exit? then 3 else 7
    case WritingRestore(after, _) => if after.Exit? then 2 else 6
    case RunningCleanup => 5
    case _ => 1
  }

  lemma StepToExit(s: Shared, p: Point)
    requires OnTheWay(p) && !s.exited
    ensures
      var (s', p') := Stepped(s, p, Proceed);
      if p.Exiting? then s'.exited else !s'.exited && OnTheWay(p') && StepsToExit(p') < StepsToExit(p)
  {
    match p
    case Swapping(_) =>
    case WritingRestore(_, _) =>
    case _ =>
  }

  /** Such a thread can always bring the process to its end by itself, in no more than eight steps. */
  lemma {:induction false} ForcedReachesTheExit(s: State, t: Tid) returns (schedule: Schedule)
    requires t in s.threads && OnTheWay(s.threads[t])
    ensures |schedule| <= 8 && forall i :: 0 <= i < |schedule| ==> schedule[i].0 == t
    ensures Run(s, schedule).shared.exited
  {
    if s.shared.exited {
      schedule := [];
    } else {
      schedule := StepsAlone(s, t);
    }
  }

  lemma {:induction false} StepsAlone(s: State, t: Tid) returns (schedule: Schedule)
    requires t in s.threads && OnTheWay(s.threads[t]) && !s.shared.exited
    ensures |schedule| <= StepsToExit(s.threads[t]) && forall i :: 0 <= i < |schedule| ==> schedule[i].0 == t
    ensures Run(s, schedule).shared.exited
    decreases StepsToExit(s.threads[t])
  {
    hide Stepped, OnTheWay;
    var next := Next(s, t, Proceed);
    StepToExit(s.shared, s.threads[t]);
    var rest: Schedule := [];
    if !s.threads[t].Exiting? {
      rest := StepsAlone(next, t);
    }
    schedule := [(t, Proceed)] + rest;
    assert schedule[1..] == rest;
    assert Run(s, schedule) == Run(next, rest);
  }

  // ---------------------------------------------------------------- where the claims stop

  const TWO_THREADS: State := State(FRESH, map[0 := Idle, 1 := Idle])

  /** An idle thread has acquired the terminal, alone. */
  lemma AcquireAlone(s: State, t: Tid) returns (schedule: Schedule)
    requires !s.shared.exited && t in s.threads && s.threads[t] == Idle
    ensures var later := Run(s, schedule);
            && later.shared.engaged && later.shared.raw && !later.shared.exited
            && later.shared.engages == s.shared.engages + 1 && later.threads == s.threads
  {
    schedule := RunThen(s, [], t, Acquire(false));
    schedule := RunThen(s, schedule, t, Proceed);
    schedule := RunThen(s, schedule, t, Proceed);
    schedule := RunThen(s, schedule, t, Proceed);
    assert Run(s, schedule).threads == s.threads;
  }

  /** A signal to a process that never held the terminal has brought its thread to the exit, alone. */
  lemma SignalToTheExit(s: State, t: Tid) returns (schedule: Schedule)
    requires !s.shared.exited && !s.shared.engaged && !s.shared.everEngaged && t in s.threads && s.threads[t] == Idle
    ensures var later := Run(s, schedule);
            !later.shared.exited && later.threads == s.threads[t := Exiting(s.shared.engages)]
  {
    schedule := RunThen(s, [], t, Signal);
    schedule := RunThen(s, schedule, t, Proceed);
    schedule := RunThen(s, schedule, t, Proceed);
    schedule := RunThen(s, schedule, t, Proceed);
    schedule := RunThen(s, schedule, t, Proceed);
    assert Run(s, schedule).threads == s.threads[t := Exiting(s.shared.engages)];
  }

  /** A forced exit with no thread in a window can still leave raw mode on: an acquire that begins after the exiting
      thread's swap, and completes before its exit, is undone by nobody. */
  lemma ForcedExitCanLeaveRawOn() returns (schedule: Schedule)
    ensures
      var now := Run(TWO_THREADS, schedule);
      && now.shared.exited && now.shared.raw
      && forall t :: t in now.threads ==> !InWindow(now.threads[t])
  {
    hide Stepped;
    schedule := SignalToTheExit(TWO_THREADS, 1);
    var acquire := AcquireAlone(Run(TWO_THREADS, schedule), 0);
    RunConcat(TWO_THREADS, schedule, acquire);
    schedule := schedule + acquire;
    var last := Run(TWO_THREADS, schedule);
    assert last.threads[1] == Exiting(0);
    ExitStep(last, 1);
    schedule := RunThen(TWO_THREADS, schedule, 1, Proceed);
  }

  lemma ExitStep(s: State, t: Tid)
    requires !s.shared.exited && t in s.threads && s.threads[t].Exiting?
    ensures Next(s, t, Proceed) == State(s.shared.(exited := true), s.threads)
  {
    assert s.threads[t := s.threads[t]] == s.threads;
  }

  /** `TERMINAL_ENGAGED` can be set with raw mode off: a restore that is between its swap and its
      `disable_raw_mode` undoes an acquire that completed in between. */
  lemma EngagedCanLoseRawMode() returns (schedule: Schedule)
    ensures
      var now := Run(TWO_THREADS, schedule);
      && now.shared.engaged && !now.shared.raw
      && now.threads == map[0 := Idle, 1 := Idle]
  {
    schedule := AcquireAlone(TWO_THREADS, 0);
    schedule := RunThen(TWO_THREADS, schedule, 0, Restore);
    schedule := RunThen(TWO_THREADS, schedule, 0, Proceed);
    var swapped := Run(TWO_THREADS, schedule);
    assert swapped.threads == map[0 := DisablingRaw(Return, 1), 1 := Idle];
    var acquire := AcquireAlone(swapped, 1);
    RunConcat(TWO_THREADS, schedule, acquire);
    schedule := schedule + acquire;
    schedule := RunThen(TWO_THREADS, schedule, 0, Proceed);
    schedule := RunThen(TWO_THREADS, schedule, 0, Proceed);
  }

  /** In a process still running, one thread is acquiring while another is between its swap and its
      `disable_raw_mode`. */
  predicate Overlaps(s: State) {
    && !s.shared.exited
    && (exists t | t in s.threads :: s.threads[t].DisablingRaw?)
    && (exists u | u in s.threads :: Acquiring(s.threads[u]))
  }

  predicate NeverOverlaps(s: State, schedule: Schedule)
    decreases |schedule|
  {
    && !Overlaps(s)
    && (schedule != [] ==> NeverOverlaps(Next(s, schedule[0].0, schedule[0].1), schedule[1..]))
  }

  /** Without such an overlap the flag means what its name says. */
  predicate FlagMeansRaw(s: State) {
    && (s.shared.engaged ==> s.shared.raw && forall t | t in s.threads :: !s.threads[t].DisablingRaw?)
    && (forall t | t in s.threads :: Acquiring(s.threads[t]) ==> s.shared.raw)
  }

  lemma StepOnRaw(s: Shared, p: Point, c: Choice)
    ensures
      var (s', p') := Stepped(s, p, c);
      && (s'.raw == s.raw || p.DisablingRaw? || (p.EnablingRaw? && s'.raw && p'.StoringEver?))
      && (Acquiring(p') ==> Acquiring(p) || s'.raw)
      && (s'.engaged ==> s.engaged || p.StoringEngaged?)
      && (p'.DisablingRaw? ==> s.engaged && !s'.engaged)
  {
    match p
    case EnablingRaw(_) =>
    case StoringEngaged(_) =>
    case Swapping(_) =>
    case _ =>
  }

  lemma FlagMeansRawStep(s: State, t: Tid, c: Choice)
    requires FlagMeansRaw(s) && !Overlaps(s)
    ensures FlagMeansRaw(Next(s, t, c))
  {
    hide Stepped, Acquiring;
    var s' := Next(s, t, c);
    if t in s.threads && s' != s {
      StepOnRaw(s.shared, s.threads[t], c);
      assert s.threads[t].StoringEngaged? ==> Acquiring(s.threads[t]) by {
        AcquiringPoints(s.threads[t]);
      }
      assert s'.threads[t].DisablingRaw? ==> !s'.shared.engaged;
      forall u | u in s'.threads && u != t
        ensures s'.threads[u] == s.threads[u]
      {
      }
    }
  }

  lemma AcquiringPoints(p: Point)
    ensures p.StoringEngaged? ==> Acquiring(p)
    ensures p.DisablingRaw? ==> !Acquiring(p)
  {
  }

  lemma {:induction false} FlagMeansRawAlways(s: State, schedule: Schedule)
    requires FlagMeansRaw(s) && NeverOverlaps(s, schedule)
    ensures FlagMeansRaw(Run(s, schedule))
    decreases |schedule|
  {
    hide Next, FlagMeansRaw, Overlaps;
    if schedule != [] {
      FlagMeansRawStep(s, schedule[0].0, schedule[0].1);
      FlagMeansRawAlways(Next(s, schedule[0].0, schedule[0].1), schedule[1..]);
    }
  }

  predicate Quiet(s: State) {
    forall t | t in s.threads :: !InWindow(s.threads[t])
  }

  /** In a run without such an overlap, whenever no thread is in a window the flag says exactly whether raw mode is
      on. */
  lemma FlagIsRawMode(s: State, schedule: Schedule)
    requires Initial(s) && NeverOverlaps(s, schedule)
    requires Quiet(Run(s, schedule))
    ensures Run(s, schedule).shared.engaged == Run(s, schedule).shared.raw
  {
    FlagMeansRawAlways(s, schedule);
    RawIsNeverStranded(s, schedule);
  }

  // ---------------------------------------------------------------- what an overlap does

  /** One thread leaves its window, alone. */
  lemma LeaveWindow(s: State, t: Tid) returns (schedule: Schedule)
    requires !s.shared.exited && t in s.threads && InWindow(s.threads[t])
    ensures
      var later := Run(s, schedule);
      && !later.shared.exited
      && t in later.threads && later.threads == s.threads[t := later.threads[t]] && !InWindow(later.threads[t])
      && (if Acquiring(s.threads[t]) then later.shared.engaged && later.shared.raw == s.shared.raw
          else later.shared.engaged == s.shared.engaged && !later.shared.raw)
  {
    schedule := RunThen(s, [], t, Proceed);
    if s.threads[t].StoringEver? {
      var once := Run(s, schedule);
      schedule := RunThen(s, schedule, t, Proceed);
      assert once.threads[t := Run(s, schedule).threads[t]] == s.threads[t := Run(s, schedule).threads[t]];
    }
  }

  /** `later` differs from `s` in no thread that `s` has outside a window. */
  predicate KeepsOthers(s: State, later: State) {
    && later.threads.Keys == s.threads.Keys
    && forall t | t in s.threads && !InWindow(s.threads[t]) :: later.threads[t] == s.threads[t]
  }

  /** With the flag up over a cooked terminal, every thread can leave its window and it stays that way. */
  lemma {:induction false} LeaveWindows(s: State, windows: set<Tid>) returns (schedule: Schedule)
    requires !s.shared.exited && s.shared.engaged && !s.shared.raw
    requires windows == set t | t in s.threads && InWindow(s.threads[t])
    ensures
      var later := Run(s, schedule);
      Quiet(later) && later.shared.engaged && !later.shared.raw && KeepsOthers(s, later)
    decreases windows
  {
    hide InWindow, Acquiring, Next;
    if windows == {} {
      schedule := [];
      assert forall t | t in s.threads :: !InWindow(s.threads[t]) by {
        assert forall t | t in s.threads && InWindow(s.threads[t]) :: t in windows;
      }
    } else {
      var t :| t in windows;
      var first := LeaveWindow(s, t);
      var middle := Run(s, first);
      var second := LeaveWindows(middle, windows - {t});
      RunConcat(s, first, second);
      schedule := first + second;
    }
  }

  /** From every overlap a continuation leads to the flag up over a cooked terminal with no thread in a window. */
  lemma OverlapBreaksTheFlag(s: State) returns (schedule: Schedule)
    requires Overlaps(s)
    ensures
      var later := Run(s, schedule);
      Quiet(later) && later.shared.engaged && !later.shared.raw && KeepsOthers(s, later)
  {
    var t :| t in s.threads && s.threads[t].DisablingRaw?;
    var u :| u in s.threads && Acquiring(s.threads[u]);
    var first := LeaveWindow(s, u);
    var middle := Run(s, first);
    var second := LeaveWindow(middle, t);
    var broken := Run(middle, second);
    var third := LeaveWindows(broken, set v | v in broken.threads && InWindow(broken.threads[v]));
    RunConcat(s, first, second);
    RunConcat(s, first + second, third);
    schedule := first + second + third;
    KeepsOthersTwice(s, middle, broken);
    KeepsOthersTwice(s, broken, Run(s, schedule));
  }

  lemma KeepsOthersTwice(s: State, middle: State, later: State)
    requires KeepsOthers(s, middle) && KeepsOthers(middle, later)
    ensures KeepsOthers(s, later)
  {
  }

  ghost predicate FlagStaysTrue(now: State) {
    forall after: Schedule :: Quiet(Run(now, after)) ==> Run(now, after).shared.engaged == Run(now, after).shared.raw
  }

  ghost predicate OverlapAhead(now: State) {
    exists after: Schedule :: Overlaps(Run(now, after))
  }

  lemma {:induction false} NoneAhead(now: State, after: Schedule)
    requires !OverlapAhead(now)
    ensures NeverOverlaps(now, after)
    decreases |after|
  {
    hide Overlaps, Next;
    assert Run(now, []) == now;
    if after != [] {
      var next := Next(now, after[0].0, after[0].1);
      forall rest: Schedule
        ensures !Overlaps(Run(next, rest))
      {
        assert ([after[0]] + rest)[1..] == rest;
        assert Run(now, [after[0]] + rest) == Run(next, rest);
      }
      NoneAhead(next, after[1..]);
    }
  }

  /** Exactly when the flag means what its name says: as long as no thread has acquired the terminal while another was
      giving it back, every continuation keeps the flag equal to raw mode outside the windows if and only if no
      continuation has such an overlap. */
  lemma FlagStaysTrueIff(s: State, before: Schedule)
    requires Initial(s) && NeverOverlaps(s, before)
    ensures FlagStaysTrue(Run(s, before)) <==> !OverlapAhead(Run(s, before))
  {
    hide Overlaps, NeverOverlaps, Next, Quiet;
    var now := Run(s, before);
    if after: Schedule :| Overlaps(Run(now, after)) {
      var more := OverlapBreaksTheFlag(Run(now, after));
      RunConcat(now, after, more);
      assert Quiet(Run(now, after + more));
    } else {
      forall after: Schedule | Quiet(Run(now, after))
        ensures Run(now, after).shared.engaged == Run(now, after).shared.raw
      {
        NoneAhead(now, after);
        FlagFollows(s, before, after);
      }
    }
  }

  lemma FlagFollows(s: State, before: Schedule, after: Schedule)
    requires Initial(s) && NeverOverlaps(s, before) && NeverOverlaps(Run(s, before), after)
    requires Quiet(Run(Run(s, before), after))
    ensures Run(Run(s, before), after).shared.engaged == Run(Run(s, before), after).shared.raw
  {
    hide Overlaps, NeverOverlaps, Next;
    FlagMeansRawAlways(s, before);
    FlagMeansRawAlways(Run(s, before), after);
    InitialHolds(s);
    InvAlways(s, before);
    InvAlways(Run(s, before), after);
  }

  // ---------------------------------------------------------------- when an overlap lies ahead

  /** A thread that can still acquire the terminal on its own: it is not on its way to the exit, and if it answers a
      signal it will be told to ask. */
  predicate CanAcquire(s: Shared, p: Point) {
    match p
    case Swapping(after) => after.Return?
    case DisablingRaw(after, _) => after.Return?
    case WritingRestore(after, _) => after.Return?
    case LoadingEngaged => (s.engaged || s.everEngaged) && s.signalsSeen == 0
    case LoadingEver => s.everEngaged && s.signalsSeen == 0
    case Counting => s.signalsSeen == 0
    case RunningCleanup => false
    case Exiting(_) => false
    case _ => true
  }

  /** A thread that can still swap the flag: it has not made its last restore. */
  predicate CanSwap(p: Point) {
    match p
    case WritingRestore(after, _) => !after.Exit?
    case Exiting(_) => false
    case _ => true
  }

  /** One thread can acquire and another can swap. */
  predicate CanOverlap(s: State) {
    && !s.shared.exited
    && exists t, u | t in s.threads && u in s.threads ::
         t != u && CanAcquire(s.shared, s.threads[u]) && CanSwap(s.threads[t])
  }

  lemma StepOnAcquireChance(s: Shared, p: Point, c: Choice)
    ensures var (s', p') := Stepped(s, p, c); CanAcquire(s', p') ==> CanAcquire(s, p)
  {
    match p
    case Swapping(_) =>
    case DisablingRaw(_, _) =>
    case WritingRestore(_, _) =>
    case LoadingEngaged =>
    case LoadingEver =>
    case Counting =>
    case RunningCleanup =>
    case _ =>
  }

  lemma StepOnSwapChance(s: Shared, p: Point, c: Choice)
    ensures CanSwap(Stepped(s, p, c).1) ==> CanSwap(p)
  {
    match p
    case WritingRestore(_, _) =>
    case _ =>
  }

  /** What gives a thread a chance to acquire by another's step is that the other acquires. */
  lemma StepOnFlags(s: Shared, p: Point, c: Choice)
    ensures
      var (s', p') := Stepped(s, p, c);
      && s.signalsSeen <= s'.signalsSeen
      && ((s'.engaged && !s.engaged) || (s'.everEngaged && !s.everEngaged) ==> CanAcquire(s, p))
  {
    match p
    case StoringEver(_) =>
    case StoringEngaged(_) =>
    case Counting =>
    case _ =>
  }

  lemma AcquirersCanSwap(s: Shared, p: Point)
    ensures CanAcquire(s, p) ==> CanSwap(p)
    ensures Acquiring(p) ==> CanAcquire(s, p)
    ensures p.DisablingRaw? ==> CanSwap(p)
  {
  }

  /** Another thread's step gives no thread a chance to acquire unless it had one itself. */
  lemma ChancesOfOthers(s: Shared, s': Shared, p: Point)
    requires s.signalsSeen <= s'.signalsSeen
    requires (s'.engaged ==> s.engaged) && (s'.everEngaged ==> s.everEngaged)
    ensures CanAcquire(s', p) ==> CanAcquire(s, p)
  {
  }

  lemma CanOverlapStep(s: State, t: Tid, c: Choice)
    requires CanOverlap(Next(s, t, c))
    ensures CanOverlap(s)
  {
    hide Stepped, CanAcquire, CanSwap;
    var later := Next(s, t, c);
    if later != s {
      StepOnAcquireChance(s.shared, s.threads[t], c);
      StepOnSwapChance(s.shared, s.threads[t], c);
      StepOnFlags(s.shared, s.threads[t], c);
      var swapper, acquirer :| swapper in later.threads && acquirer in later.threads && swapper != acquirer
        && CanAcquire(later.shared, later.threads[acquirer]) && CanSwap(later.threads[swapper]);
      assert later.threads[t] == Stepped(s.shared, s.threads[t], c).1;
      assert CanSwap(s.threads[swapper]);
      if acquirer != t {
        AcquirersCanSwap(later.shared, s.threads[acquirer]);
        if CanAcquire(s.shared, s.threads[t]) {
          assert t != acquirer && CanSwap(s.threads[acquirer]);
        } else {
          ChancesOfOthers(s.shared, later.shared, s.threads[acquirer]);
        }
      }
    }
  }

  lemma {:induction false} CanOverlapBefore(now: State, after: Schedule)
    requires CanOverlap(Run(now, after))
    ensures CanOverlap(now)
    decreases |after|
  {
    hide Next, CanOverlap;
    if after != [] {
      CanOverlapBefore(Next(now, after[0].0, after[0].1), after[1..]);
      CanOverlapStep(now, after[0].0, after[0].1);
    }
  }

  lemma OverlapsCan(s: State)
    requires Overlaps(s)
    ensures CanOverlap(s)
  {
    hide CanAcquire, CanSwap, Acquiring;
    var t :| t in s.threads && s.threads[t].DisablingRaw?;
    var u :| u in s.threads && Acquiring(s.threads[u]);
    AcquirersCanSwap(s.shared, s.threads[t]);
    AcquirersCanSwap(s.shared, s.threads[u]);
    AcquiringPoints(s.threads[t]);
    assert t != u;
  }

  function StepsToIdle(p: Point): nat {
    match p
    case LoadingEngaged => 5
    case EnablingRaw(_) => 4
    case LoadingEver => 4
    case StoringEver(_) => 3
    case Swapping(_) => 3
    case Counting => 3
    case StoringEngaged(_) => 2
    case DisablingRaw(_, _) => 2
    case Idle => 0
    case _ => 1
  }

  /** A thread that can acquire finishes what it is doing, alone. */
  lemma {:induction false} ToIdle(s: State, t: Tid) returns (schedule: Schedule)
    requires !s.shared.exited && t in s.threads && CanAcquire(s.shared, s.threads[t])
    ensures var later := Run(s, schedule); !later.shared.exited && later.threads == s.threads[t := Idle]
    decreases StepsToIdle(s.threads[t])
  {
    if s.threads[t].Idle? {
      schedule := [];
      assert s.threads[t := Idle] == s.threads;
    } else {
      StepToIdle(s.shared, s.threads[t]);
      var first := RunThen(s, [], t, Proceed);
      var middle := Run(s, first);
      var second := ToIdle(middle, t);
      RunConcat(s, first, second);
      assert middle.threads[t := Idle] == s.threads[t := Idle];
      schedule := first + second;
    }
  }

  lemma StepToIdle(s: Shared, p: Point)
    requires CanAcquire(s, p) && !p.Idle?
    ensures var (s', p') := Stepped(s, p, Proceed);
            CanAcquire(s', p') && StepsToIdle(p') < StepsToIdle(p) && s'.exited == s.exited
  {
  }

  function StepsToSwap(p: Point): nat {
    match p
    case LoadingEngaged => 6
    case EnablingRaw(_) => 6
    case LoadingEver => 5
    case StoringEver(_) => 5
    case Counting => 4
    case StoringEngaged(_) => 4
    case Requesting => 3
    case EnteringScreen => 3
    case WritingRestore(_, _) => 3
    case Idle => 2
    case RunningCleanup => 2
    case _ => 0
  }

  /** A thread that can swap comes to its swap, or just past it, alone. */
  lemma {:induction false} ToSwap(s: State, t: Tid) returns (schedule: Schedule)
    requires !s.shared.exited && t in s.threads && CanSwap(s.threads[t])
    ensures
      var later := Run(s, schedule);
      && !later.shared.exited && t in later.threads && later.threads == s.threads[t := later.threads[t]]
      && (later.threads[t].Swapping? || later.threads[t].DisablingRaw?)
    decreases StepsToSwap(s.threads[t])
  {
    if s.threads[t].Swapping? || s.threads[t].DisablingRaw? {
      schedule := [];
      assert s.threads[t := s.threads[t]] == s.threads;
    } else {
      var c := if s.threads[t].Idle? then Restore else Proceed;
      StepToSwap(s.shared, s.threads[t]);
      var first := RunThen(s, [], t, c);
      var middle := Run(s, first);
      var second := ToSwap(middle, t);
      RunConcat(s, first, second);
      schedule := first + second;
      assert middle.threads[t := Run(s, schedule).threads[t]] == s.threads[t := Run(s, schedule).threads[t]];
    }
  }

  lemma StepToSwap(s: Shared, p: Point)
    requires CanSwap(p) && !p.Swapping? && !p.DisablingRaw?
    ensures var (s', p') := Stepped(s, p, if p.Idle? then Restore else Proceed);
            CanSwap(p') && StepsToSwap(p') < StepsToSwap(p) && s'.exited == s.exited
  {
  }

  /** An idle thread is acquiring the terminal, alone. */
  lemma BeginAcquire(s: State, t: Tid) returns (schedule: Schedule)
    requires !s.shared.exited && t in s.threads && s.threads[t] == Idle
    ensures var later := Run(s, schedule);
            !later.shared.exited && later.threads == s.threads[t := StoringEver(false)]
  {
    schedule := RunThen(s, [], t, Acquire(false));
    schedule := RunThen(s, schedule, t, Proceed);
    assert Run(s, schedule).threads == s.threads[t := StoringEver(false)];
  }

  lemma CanOverlapDoes(s: State) returns (schedule: Schedule)
    requires CanOverlap(s)
    ensures Overlaps(Run(s, schedule))
  {
    hide CanAcquire, CanSwap, Next, Stepped;
    var t, u :| t in s.threads && u in s.threads && t != u
      && CanAcquire(s.shared, s.threads[u]) && CanSwap(s.threads[t]);
    schedule := ToIdle(s, u);
    var idle := Run(s, schedule);
    var more := ToSwap(idle, t);
    RunConcat(s, schedule, more);
    schedule := schedule + more;
    var ready := Run(idle, more);
    if ready.threads[t].Swapping? {
      more := AcquireAlone(ready, u);
      RunConcat(s, schedule, more);
      schedule := schedule + more;
      var engaged := Run(ready, more);
      more := RunThen(engaged, [], t, Proceed);
      SwapOfTheEngaged(engaged, t);
      RunConcat(s, schedule, more);
      schedule := schedule + more;
      ready := Run(engaged, more);
    }
    more := BeginAcquire(ready, u);
    RunConcat(s, schedule, more);
    schedule := schedule + more;
    assert Acquiring(Run(ready, more).threads[u]);
    assert Run(ready, more).threads[t].DisablingRaw?;
  }

  lemma SwapOfTheEngaged(s: State, t: Tid)
    requires !s.shared.exited && t in s.threads && s.threads[t].Swapping? && s.shared.engaged
    ensures var later := Next(s, t, Proceed);
            && !later.shared.exited && t in later.threads && later.threads == s.threads[t := later.threads[t]]
            && later.threads[t].DisablingRaw?
  {
  }

  /** An overlap lies ahead exactly when the process is running and, of two threads as they stand, one can still acquire
      the terminal and the other has not made its last restore. */
  lemma OverlapAheadIff(now: State)
    ensures OverlapAhead(now) <==> CanOverlap(now)
  {
    hide Overlaps, CanOverlap;
    if after: Schedule :| Overlaps(Run(now, after)) {
      OverlapsCan(Run(now, after));
      CanOverlapBefore(now, after);
    }
    if CanOverlap(now) {
      var after := CanOverlapDoes(now);
      assert Overlaps(Run(now, after));
    }
  }

  // ---------------------------------------------------------------- what a forced exit leaves behind

  /** A thread about to end the process leaves raw mode off when the flag is down, which it is unless an engage has
      completed since that thread's own swap; and without an overlap it leaves it off only then. */
  lemma ForcedExitLeavesRawOffIff(s: State, schedule: Schedule, t: Tid)
    requires Initial(s)
    requires
      var now := Run(s, schedule);
      t in now.threads && now.threads[t].Exiting? && Quiet(now)
    ensures
      var now := Run(s, schedule);
      && (!now.shared.engaged ==> !now.shared.raw)
      && (now.threads[t].engagedBefore == now.shared.engages ==> !now.shared.engaged)
      && (NeverOverlaps(s, schedule) ==> (!now.shared.raw <==> !now.shared.engaged))
  {
    hide NeverOverlaps, Next;
    InitialHolds(s);
    InvAlways(s, schedule);
    if NeverOverlaps(s, schedule) {
      FlagIsRawMode(s, schedule);
    }
  }

  ghost predicate ExitFollowsTheFlag(now: State, t: Tid)
    requires t in now.threads
  {
    forall after: Schedule ::
      var later := Run(now, after);
      Quiet(later) && t in later.threads && later.threads[t].Exiting? ==> (later.shared.raw <==> later.shared.engaged)
  }

  /** What overlaps do to it: while a thread waits to end the process, the flag decides what every exit leaves behind if
      and only if no overlap lies ahead; after one, raw mode can be off with the flag up. */
  lemma ExitFollowsTheFlagIff(s: State, before: Schedule, t: Tid)
    requires Initial(s) && NeverOverlaps(s, before)
    requires t in Run(s, before).threads && Run(s, before).threads[t].Exiting?
    ensures ExitFollowsTheFlag(Run(s, before), t) <==> !OverlapAhead(Run(s, before))
  {
    hide Overlaps, NeverOverlaps, Next, Quiet;
    var now := Run(s, before);
    if after: Schedule :| Overlaps(Run(now, after)) {
      var more := OverlapBreaksTheFlag(Run(now, after));
      RunConcat(now, after, more);
      ExitingStays(now, after, t);
      var later := Run(now, after + more);
      assert Quiet(later) && later.threads[t].Exiting?;
    } else {
      FlagStaysTrueIff(s, before);
    }
  }

  lemma {:induction false} ExitingStays(now: State, after: Schedule, t: Tid)
    requires t in now.threads && now.threads[t].Exiting?
    ensures t in Run(now, after).threads && Run(now, after).threads[t].Exiting?
    decreases |after|
  {
    if after != [] {
      ExitingStays(Next(now, after[0].0, after[0].1), after[1..], t);
    }
  }

  // ---------------------------------------------------------------- the alternate screen

  /** The alternate screen is up only under the flag, or while a restore that will leave it is under way. */
  predicate ScreenIsOwned(s: State) {
    s.shared.screen && !s.shared.engaged ==> exists t | t in s.threads :: Restoring(s.threads[t])
  }

  /** A thread is about to enter the alternate screen, and the flag it put up has been taken down. */
  predicate EntersUnowned(s: State) {
    && !s.shared.exited && !s.shared.engaged
    && exists t | t in s.threads :: s.threads[t].EnteringScreen?
  }

  lemma StepOnScreen(s: Shared, p: Point, c: Choice)
    ensures
      var (s', p') := Stepped(s, p, c);
      && (s'.screen && !s.screen ==> p.EnteringScreen? && s'.engaged == s.engaged)
      && (s.engaged && !s'.engaged ==> Restoring(p'))
      && (Restoring(p) && !Restoring(p') ==> !s'.screen)
  {
  }

  lemma ScreenIsOwnedStep(s: State, t: Tid, c: Choice)
    requires ScreenIsOwned(s) && !EntersUnowned(s)
    ensures ScreenIsOwned(Next(s, t, c))
  {
    hide Stepped, Restoring;
    var later := Next(s, t, c);
    if t in s.threads && later != s && later.shared.screen && !later.shared.engaged {
      StepOnScreen(s.shared, s.threads[t], c);
      assert later.threads[t] == Stepped(s.shared, s.threads[t], c).1;
      if s.shared.engaged {
        assert Restoring(later.threads[t]);
      } else {
        assert s.shared.screen;
        var u :| u in s.threads && Restoring(s.threads[u]);
        assert u == t || later.threads[u] == s.threads[u];
      }
    }
  }

  ghost predicate EntersUnownedAhead(now: State) {
    exists after: Schedule :: EntersUnowned(Run(now, after))
  }

  lemma {:induction false} ScreenStaysOwned(now: State, after: Schedule)
    requires ScreenIsOwned(now) && !EntersUnownedAhead(now)
    ensures ScreenIsOwned(Run(now, after))
    decreases |after|
  {
    hide EntersUnowned, ScreenIsOwned, Next;
    assert Run(now, []) == now;
    if after != [] {
      var next := Next(now, after[0].0, after[0].1);
      forall rest: Schedule
        ensures !EntersUnowned(Run(next, rest))
      {
        assert ([after[0]] + rest)[1..] == rest;
        assert Run(now, [after[0]] + rest) == Run(next, rest);
      }
      ScreenIsOwnedStep(now, after[0].0, after[0].1);
      ScreenStaysOwned(next, after[1..]);
    }
  }

  /** One restore is finished, alone. */
  lemma FinishRestore(s: State, t: Tid) returns (schedule: Schedule)
    requires !s.shared.exited && t in s.threads && Restoring(s.threads[t])
    ensures
      var later := Run(s, schedule);
      && !later.shared.exited && later.shared.engaged == s.shared.engaged
      && t in later.threads && later.threads == s.threads[t := later.threads[t]] && !Restoring(later.threads[t])
  {
    schedule := RunThen(s, [], t, Proceed);
    if s.threads[t].DisablingRaw? {
      var once := Run(s, schedule);
      schedule := RunThen(s, schedule, t, Proceed);
      assert once.threads[t := Run(s, schedule).threads[t]] == s.threads[t := Run(s, schedule).threads[t]];
    }
  }

  lemma {:induction false} FinishRestores(s: State, restoring: set<Tid>, keep: Tid) returns (schedule: Schedule)
    requires !s.shared.exited && keep in s.threads && !Restoring(s.threads[keep])
    requires restoring == RestoringThreads(s.threads)
    ensures
      var later := Run(s, schedule);
      && !later.shared.exited && later.shared.engaged == s.shared.engaged
      && RestoringThreads(later.threads) == {}
      && keep in later.threads && later.threads[keep] == s.threads[keep]
    decreases restoring
  {
    hide Restoring, Next;
    if restoring == {} {
      schedule := [];
    } else {
      var t :| t in restoring;
      var first := FinishRestore(s, t);
      var middle := Run(s, first);
      assert RestoringThreads(middle.threads) == restoring - {t};
      var second := FinishRestores(middle, restoring - {t}, keep);
      RunConcat(s, first, second);
      schedule := first + second;
    }
  }

  /** From such an entry a continuation leaves the alternate screen up with the flag down and no restore to come. */
  lemma EntryOutlivesTheFlag(s: State) returns (schedule: Schedule)
    requires EntersUnowned(s)
    ensures !ScreenIsOwned(Run(s, schedule))
  {
    var t :| t in s.threads && s.threads[t].EnteringScreen?;
    var first := FinishRestores(s, RestoringThreads(s.threads), t);
    schedule := RunThen(s, first, t, Proceed);
    var middle, later := Run(s, first), Run(s, schedule);
    assert later.shared.screen && !later.shared.engaged;
    forall u | u in later.threads
      ensures !Restoring(later.threads[u])
    {
      assert u !in RestoringThreads(middle.threads);
    }
  }

  /** Exactly when the alternate screen is always given back: while it is owned, it stays owned in every continuation if
      and only if in none of them a thread enters it after its flag was taken down. */
  lemma ScreenStaysOwnedIff(now: State)
    requires ScreenIsOwned(now)
    ensures (forall after: Schedule :: ScreenIsOwned(Run(now, after))) <==> !EntersUnownedAhead(now)
  {
    hide ScreenIsOwned, EntersUnowned, Next;
    if after: Schedule :| EntersUnowned(Run(now, after)) {
      var more := EntryOutlivesTheFlag(Run(now, after));
      RunConcat(now, after, more);
      assert !ScreenIsOwned(Run(now, after + more));
    } else {
      forall after: Schedule
        ensures ScreenIsOwned(Run(now, after))
      {
        ScreenStaysOwned(now, after);
      }
    }
  }

  /** While an acquired alternate screen has not been asked back it is up, and no restore that would leave it is under
      way. */
  predicate ScreenIsKept(s: State) {
    s.shared.entered ==> s.shared.screen && forall t | t in s.threads :: !Restoring(s.threads[t])
  }

  /** A thread is about to enter the alternate screen while another is past its swap and has yet to leave it. */
  predicate EntersUnderRestore(s: State) {
    && !s.shared.exited
    && (exists t | t in s.threads :: s.threads[t].EnteringScreen?)
    && (exists u | u in s.threads :: Restoring(s.threads[u]))
  }

  ghost predicate EntersUnderRestoreAhead(now: State) {
    exists after: Schedule :: EntersUnderRestore(Run(now, after))
  }

  lemma StepOnEntered(s: Shared, p: Point, c: Choice)
    ensures
      var (s', p') := Stepped(s, p, c);
      && (s'.entered ==> (s.entered && s'.screen == s.screen) || s'.screen || Restoring(p))
      && (s'.entered && !s.entered ==> p.EnteringScreen? && s'.screen)
      && (Restoring(p') ==> Restoring(p) || !s'.entered)
  {
  }

  lemma ScreenIsKeptStep(s: State, t: Tid, c: Choice)
    requires ScreenIsKept(s) && !EntersUnderRestore(s)
    ensures ScreenIsKept(Next(s, t, c))
  {
    hide Stepped, Restoring;
    var later := Next(s, t, c);
    if t in s.threads && later != s && later.shared.entered {
      StepOnEntered(s.shared, s.threads[t], c);
      assert later.threads[t] == Stepped(s.shared, s.threads[t], c).1;
      forall u | u in s.threads
        ensures !Restoring(s.threads[u])
      {
        assert !s.shared.entered ==> s.threads[t].EnteringScreen?;
      }
      assert forall u | u in later.threads && u != t :: later.threads[u] == s.threads[u];
    }
  }

  lemma {:induction false} ScreenStaysKept(now: State, after: Schedule)
    requires ScreenIsKept(now) && !EntersUnderRestoreAhead(now)
    ensures ScreenIsKept(Run(now, after))
    decreases |after|
  {
    hide EntersUnderRestore, ScreenIsKept, Next;
    assert Run(now, []) == now;
    if after != [] {
      var next := Next(now, after[0].0, after[0].1);
      forall rest: Schedule
        ensures !EntersUnderRestore(Run(next, rest))
      {
        assert ([after[0]] + rest)[1..] == rest;
        assert Run(now, [after[0]] + rest) == Run(next, rest);
      }
      ScreenIsKeptStep(now, after[0].0, after[0].1);
      ScreenStaysKept(next, after[1..]);
    }
  }

  /** From such an entry the restore takes the screen away under the thread that entered it. */
  lemma RestoreOutrunsTheEntry(s: State) returns (schedule: Schedule)
    requires EntersUnderRestore(s)
    ensures Run(s, schedule).shared.entered && !Run(s, schedule).shared.screen
  {
    var t :| t in s.threads && s.threads[t].EnteringScreen?;
    var u :| u in s.threads && Restoring(s.threads[u]);
    schedule := RunThen(s, [], t, Proceed);
    assert Run(s, schedule).threads[u] == s.threads[u];
    if s.threads[u].DisablingRaw? {
      schedule := RunThen(s, schedule, u, Proceed);
    }
    schedule := RunThen(s, schedule, u, Proceed);
  }

  /** Exactly when a thread that acquired the alternate screen keeps it until it is asked back: no continuation takes it
      away if and only if in none of them a thread enters it while a restore begun before is still under way. */
  lemma ScreenStaysKeptIff(now: State)
    requires ScreenIsKept(now)
    ensures (forall after: Schedule :: Run(now, after).shared.entered ==> Run(now, after).shared.screen)
            <==> !EntersUnderRestoreAhead(now)
  {
    hide ScreenIsKept, EntersUnderRestore, Next;
    if after: Schedule :| EntersUnderRestore(Run(now, after)) {
      var more := RestoreOutrunsTheEntry(Run(now, after));
      RunConcat(now, after, more);
    } else {
      forall after: Schedule
        ensures Run(now, after).shared.entered ==> Run(now, after).shared.screen
      {
        ScreenStaysKept(now, after);
        KeptIsUp(Run(now, after));
      }
    }
  }

  lemma KeptIsUp(s: State)
    requires ScreenIsKept(s)
    ensures s.shared.entered ==> s.shared.screen
  {
  }

  // ---------------------------------------------------------------- the code, uninterrupted

  /** A thread at `p` taking its steps with nothing in between, as `choices` decide them. */
  function Alone(s: Shared, p: Point, choices: seq<Choice>): (Shared, Point)
    decreases |choices|
  {
    if choices == [] then (s, p)
    else
      var (s', p') := Stepped(s, p, choices[0]);
      Alone(s', p', choices[1..])
  }

  function Turns(t: Tid, choices: seq<Choice>): (schedule: Schedule)
    ensures |schedule| == |choices| && forall i :: 0 <= i < |choices| ==> schedule[i] == (t, choices[i])
  {
    seq(|choices|, i requires 0 <= i < |choices| => (t, choices[i]))
  }

  /** Such a stretch is one of the interleavings. */
  lemma {:induction false} AloneIsARun(s: State, t: Tid, choices: seq<Choice>)
    requires t in s.threads && (s.shared.exited ==> s.threads[t].Exiting?)
    ensures
      var (shared, p) := Alone(s.shared, s.threads[t], choices);
      Run(s, Turns(t, choices)) == State(shared, s.threads[t := p])
    decreases |choices|
  {
    hide Stepped;
    if choices == [] {
      assert s.threads[t := s.threads[t]] == s.threads;
    } else {
      StepIsNext(s, t, choices[0]);
      var next := Next(s, t, choices[0]);
      AloneIsARun(next, t, choices[1..]);
      assert Turns(t, choices)[1..] == Turns(t, choices[1..]);
      var (shared, p) := Alone(s.shared, s.threads[t], choices);
      assert next.threads[t := p] == s.threads[t := p];
    }
  }

  lemma StepIsNext(s: State, t: Tid, c: Choice)
    requires t in s.threads && (s.shared.exited ==> s.threads[t].Exiting?)
    ensures
      var (shared, p) := Stepped(s.shared, s.threads[t], c);
      && Next(s, t, c) == State(shared, s.threads[t := p])
      && (shared.exited ==> p.Exiting?)
  {
    hide Stepped;
    StepToTheEnd(s.shared, s.threads[t], c);
    if s.shared.exited {
      ExitOnlyExits(s.shared, s.threads[t], c);
      assert s.threads[t := s.threads[t]] == s.threads;
    }
  }

  lemma ExitOnlyExits(s: Shared, p: Point, c: Choice)
    requires p.Exiting?
    ensures Stepped(s, p, c) == (s.(exited := true), p)
  {
  }

  lemma OneAlone(s: Shared, p: Point, c: Choice, rest: seq<Choice>)
    ensures Alone(s, p, [c] + rest) == var (s', p') := Stepped(s, p, c); Alone(s', p', rest)
  {
    hide Stepped;
    assert ([c] + rest)[1..] == rest;
  }

  lemma {:induction false} AloneOn(s: Shared, p: Point, first: seq<Choice>, second: seq<Choice>)
    ensures Alone(s, p, first + second) == var (s', p') := Alone(s, p, first); Alone(s', p', second)
    decreases |first|
  {
    hide Stepped;
    if first == [] {
      assert first + second == second;
    } else {
      var (s', p') := Stepped(s, p, first[0]);
      assert (first + second)[1..] == first[1..] + second;
      AloneOn(s', p', first[1..], second);
    }
  }

  /** The terminal given back once if it was held, and nothing else. */
  function Restored(s: Shared): Shared {
    if s.engaged then
      s.(engaged := false, entered := false, raw := false, screen := false, restores := s.restores + 1)
    else s
  }

  /** The flag and its latch put up once more, and nothing else. */
  function Engaged(s: Shared): Shared {
    s.(everEngaged := true, engaged := true, engages := s.engages + 1)
  }

  lemma TwoAlone(s: Shared, p: Point, c: Choice, d: Choice)
    ensures Alone(s, p, [c, d]) == var (s', p') := Stepped(s, p, c); Stepped(s', p', d)
  {
    hide Stepped;
    var (s', p') := Stepped(s, p, c);
    OneAlone(s, p, c, [d]);
    assert [c] + [d] == [c, d];
    OneAlone(s', p', d, []);
    assert [d] + [] == [d];
  }

  lemma JustAlone(s: Shared, p: Point, c: Choice)
    ensures Alone(s, p, [c]) == Stepped(s, p, c)
  {
    hide Stepped;
    OneAlone(s, p, c, []);
    assert [c] + [] == [c];
  }

  function AfterEngaging(alternate: bool): Point {
    if alternate then EnteringScreen else Idle
  }

  lemma EngagedAlone(s: Shared, alternate: bool)
    ensures Alone(s, StoringEver(alternate), [Proceed, Proceed]) == (Engaged(s), AfterEngaging(alternate))
  {
    hide Alone;
    TwoAlone(s, StoringEver(alternate), Proceed, Proceed);
  }

  lemma RawAlone(s: Shared, alternate: bool)
    ensures Alone(s, Idle, [Acquire(alternate), Proceed]) == (s.(raw := true), StoringEver(alternate))
    ensures Alone(s, Idle, [Acquire(alternate), Fail]) == (s, Idle)
  {
    hide Alone;
    TwoAlone(s, Idle, Acquire(alternate), Proceed);
    TwoAlone(s, Idle, Acquire(alternate), Fail);
  }

  lemma AcquiredAlone(s: Shared, alternate: bool)
    ensures Alone(s, Idle, [Acquire(alternate), Proceed, Proceed, Proceed])
            == (Engaged(s.(raw := true)), AfterEngaging(alternate))
  {
    hide Alone, Stepped, Engaged;
    RawAlone(s, alternate);
    EngagedAlone(s.(raw := true), alternate);
    AloneOn(s, Idle, [Acquire(alternate), Proceed], [Proceed, Proceed]);
    assert [Acquire(alternate), Proceed] + [Proceed, Proceed] == [Acquire(alternate), Proceed, Proceed, Proceed];
  }

  function RestoreSteps(engaged: bool): seq<Choice> {
    if engaged then [Proceed, Proceed, Proceed] else [Proceed]
  }

  lemma RestoredAlone(s: Shared, after: After)
    ensures Alone(s, Swapping(after), RestoreSteps(s.engaged)) == (Restored(s), Finished(after, s.engages))
  {
    hide Alone, Finished;
    if s.engaged {
      TwoAlone(s, Swapping(after), Proceed, Proceed);
      AloneOn(s, Swapping(after), [Proceed, Proceed], [Proceed]);
      assert [Proceed, Proceed] + [Proceed] == [Proceed, Proceed, Proceed];
      JustAlone(s.(engaged := false, entered := false, raw := false), WritingRestore(after, s.engages), Proceed);
    } else {
      JustAlone(s, Swapping(after), Proceed);
    }
  }

  lemma GivenBackAlone(s: Shared)
    ensures Alone(s, Idle, [Restore] + RestoreSteps(s.engaged)) == (Restored(s), Idle)
  {
    hide Alone;
    OneAlone(s, Idle, Restore, RestoreSteps(s.engaged));
    RestoredAlone(s, Return);
  }

  /** Whether entering the alternate screen goes wrong. */
  predicate EntryFails(entering: Choice) {
    entering.Fail? || entering.FailPartWay?
  }

  /** The steps of an acquire: `entering` decides how the alternate screen is entered. */
  function AcquireSteps(alternate: bool, entering: Choice): seq<Choice> {
    [Acquire(alternate), Proceed, Proceed, Proceed]
    + if !alternate then [] else [entering] + if EntryFails(entering) then [Proceed, Proceed, Proceed] else []
  }

  /** What an acquire comes to once raw mode is on. */
  function Acquired(s: Shared, alternate: bool, entering: Choice): Shared {
    var held := Engaged(s.(raw := true));
    if !alternate then held
    else if EntryFails(entering) then Restored(held)
    else held.(screen := true, entered := true)
  }

  lemma EnteredAlone(s: Shared, entering: Choice)
    requires s.engaged
    ensures Alone(s, EnteringScreen, [entering] + if EntryFails(entering) then [Proceed, Proceed, Proceed] else [])
            == (if EntryFails(entering) then Restored(s) else s.(screen := true, entered := true), Idle)
  {
    hide Alone;
    if EntryFails(entering) {
      var went := if entering.Fail? then s else s.(screen := true);
      OneAlone(s, EnteringScreen, entering, [Proceed, Proceed, Proceed]);
      RestoredAlone(went, Return);
    } else {
      JustAlone(s, EnteringScreen, entering);
      assert [entering] + [] == [entering];
    }
  }

  lemma AcquireAllAlone(s: Shared, alternate: bool, entering: Choice)
    ensures Alone(s, Idle, AcquireSteps(alternate, entering)) == (Acquired(s, alternate, entering), Idle)
  {
    hide Alone, Stepped, Restored, EntryFails;
    var first := [Acquire(alternate), Proceed, Proceed, Proceed];
    AcquiredAlone(s, alternate);
    if alternate {
      var more := [entering] + if EntryFails(entering) then [Proceed, Proceed, Proceed] else [];
      EnteredAlone(Engaged(s.(raw := true)), entering);
      AloneOn(s, Idle, first, more);
    } else {
      assert first + [] == first;
    }
  }

  function Answer(s: Shared): Meaning {
    if !s.engaged && !s.everEngaged then LeaveImmediately
    else if s.signalsSeen > 0 then StopWaiting
    else AskToStop
  }

  /** A signal answered, and counted unless the terminal was never held. */
  function Answered(s: Shared): Shared {
    s.(answers := s.answers + [Answer(s)], signalsSeen := s.signalsSeen + if Answer(s).LeaveImmediately? then 0 else 1)
  }

  function AfterAnswer(answer: Meaning): Point {
    if answer.AskToStop? then Requesting else RunningCleanup
  }

  function SignalSteps(s: Shared): seq<Choice> {
    [Signal, Proceed, Proceed] + if s.engaged || !s.everEngaged then [] else [Proceed]
  }

  lemma LoadedAlone(s: Shared)
    ensures Stepped(s, LoadingEngaged, Proceed) == (s, if s.engaged then Counting else LoadingEver)
    ensures s.everEngaged ==> Stepped(s, LoadingEver, Proceed) == (s, Counting)
    ensures !s.engaged && !s.everEngaged ==>
      Stepped(s, LoadingEver, Proceed) == (Answered(s), AfterAnswer(Answer(s)))
  {
  }

  lemma CountAlone(s: Shared)
    requires s.engaged || s.everEngaged
    ensures Stepped(s, Counting, Proceed) == (Answered(s), AfterAnswer(Answer(s)))
  {
  }

  lemma SignalAlone(s: Shared)
    ensures Alone(s, Idle, SignalSteps(s)) == (Answered(s), AfterAnswer(Answer(s)))
  {
    hide Alone, Stepped, Answer, Answered, AfterAnswer;
    StartAlone(s);
    LoadedAlone(s);
    TwoAlone(s, Idle, Signal, Proceed);
    if s.engaged || s.everEngaged {
      CountAlone(s);
    }
    if s.engaged || !s.everEngaged {
      JustAlone(s, if s.engaged then Counting else LoadingEver, Proceed);
      AloneOn(s, Idle, [Signal, Proceed], [Proceed]);
      assert [Signal, Proceed] + [Proceed] == SignalSteps(s);
    } else {
      TwoAlone(s, LoadingEver, Proceed, Proceed);
      AloneOn(s, Idle, [Signal, Proceed], [Proceed, Proceed]);
      assert [Signal, Proceed] + [Proceed, Proceed] == SignalSteps(s);
    }
  }

  lemma StartAlone(s: Shared)
    ensures Stepped(s, Idle, Signal) == (s, LoadingEngaged)
    ensures Stepped(s, Idle, RequestStop) == (s, Requesting)
    ensures Stepped(s, Requesting, Proceed) == (s.(requested := true), Idle)
  {
  }

  lemma RequestAlone(s: Shared)
    ensures Alone(s, Idle, [RequestStop, Proceed]) == (s.(requested := true), Idle)
  {
    hide Alone, Stepped;
    StartAlone(s);
    TwoAlone(s, Idle, RequestStop, Proceed);
  }

  /** The steps of `force_exit` when `panics` of the cleanups panic. */
  function ForceSteps(engaged: bool, panics: nat): seq<Choice> {
    if panics == 0 then [Proceed] + (RestoreSteps(engaged) + [Proceed])
    else [Fail] + (RestoreSteps(engaged) + ForceSteps(false, panics - 1))
  }

  lemma CleanupAlone(s: Shared)
    ensures Stepped(s, RunningCleanup, Proceed) == (s, Swapping(Exit))
    ensures Stepped(s, RunningCleanup, Fail) == (s, Swapping(Cleanup))
  {
  }

  lemma {:induction false} ForceAlone(s: Shared, panics: nat)
    ensures Alone(s, RunningCleanup, ForceSteps(s.engaged, panics))
            == (Restored(s).(exited := true), Exiting(s.engages))
    decreases panics
  {
    hide Alone, Stepped, RestoreSteps;
    CleanupAlone(s);
    if panics == 0 {
      OneAlone(s, RunningCleanup, Proceed, RestoreSteps(s.engaged) + [Proceed]);
      RestoredAlone(s, Exit);
      AloneOn(s, Swapping(Exit), RestoreSteps(s.engaged), [Proceed]);
      JustAlone(Restored(s), Exiting(s.engages), Proceed);
      ExitOnlyExits(Restored(s), Exiting(s.engages), Proceed);
    } else {
      var rest := ForceSteps(false, panics - 1);
      OneAlone(s, RunningCleanup, Fail, RestoreSteps(s.engaged) + rest);
      RestoredAlone(s, Cleanup);
      AloneOn(s, Swapping(Cleanup), RestoreSteps(s.engaged), rest);
      ForceAlone(Restored(s), panics - 1);
    }
  }

  /** The steps of the handler. */
  function HandlerSteps(s: Shared, panics: nat): seq<Choice> {
    SignalSteps(s) + if Answer(s).AskToStop? then [Proceed] else ForceSteps(s.engaged, panics)
  }

  /** What the handler comes to. */
  function Handled(s: Shared): (Shared, Point) {
    var answered := Answered(s);
    if Answer(s).AskToStop? then (answered.(requested := true), Idle)
    else (Restored(answered).(exited := true), Exiting(s.engages))
  }

  lemma HandlerAlone(s: Shared, panics: nat)
    ensures Alone(s, Idle, HandlerSteps(s, panics)) == Handled(s)
  {
    hide Alone, Stepped, SignalSteps, ForceSteps, Answer, Restored;
    SignalAlone(s);
    StartAlone(Answered(s));
    if Answer(s).AskToStop? {
      AloneOn(s, Idle, SignalSteps(s), [Proceed]);
      JustAlone(Answered(s), Requesting, Proceed);
    } else {
      AloneOn(s, Idle, SignalSteps(s), ForceSteps(s.engaged, panics));
      ForceAlone(Answered(s), panics);
    }
  }

  /** The process's statics, and the functions of the module over them. */
  class Process {
    var raw: bool
    var screen: bool
    var entered: bool
    var engaged: bool
    var everEngaged: bool
    var requested: bool
    var signalsSeen: nat
    var exited: bool
    var engages: nat
    var restores: nat
    var answers: seq<Meaning>

    function Now(): Shared
      reads this
    {
      Shared(raw, screen, entered, engaged, everEngaged, requested, signalsSeen, exited, engages, restores, answers)
    }

    constructor ()
      ensures Now() == FRESH
    {
      raw, screen, entered, engaged, everEngaged := false, false, false, false, false;
      requested, exited := false, false;
      signalsSeen, engages, restores, answers := 0, 0, 0, [];
    }

    method RestoreTerminal()
      modifies this
      ensures Alone(old(Now()), Idle, [Restore] + RestoreSteps(old(engaged))) == (Now(), Idle)
      ensures Now() == Restored(old(Now()))
      ensures !old(engaged) ==> Now() == old(Now())
      ensures old(engaged) ==> !engaged && !raw && !screen && restores == old(restores) + 1
    {
      hide Alone, Stepped, RestoreSteps;
      GivenBackAlone(Now());
      var was := engaged;
      engaged := false;
      if !was {
        return;
      }
      entered := false;
      raw := false;
      screen := false;
      restores := restores + 1;
    }

    method EngageTerminal()
      modifies this
      ensures Alone(old(Now()), StoringEver(false), [Proceed, Proceed]) == (Now(), Idle)
      ensures Now() == Engaged(old(Now()))
    {
      hide Alone, Stepped;
      EngagedAlone(Now(), false);
      everEngaged := true;
      engaged := true;
      engages := engages + 1;
    }

    /** `RawModeGuard::acquire`. */
    method AcquireRaw(rawFails: bool) returns (ok: bool)
      modifies this
      ensures ok <==> !rawFails
      ensures Alone(old(Now()), Idle,
                    if ok then AcquireSteps(false, Proceed) else [Acquire(false), Fail]) == (Now(), Idle)
      ensures ok ==> Now() == old(Now()).(raw := true, everEngaged := true, engaged := true,
                                          engages := old(engages) + 1)
      ensures !ok ==> Now() == old(Now())
    {
      hide Alone, Stepped, AcquireSteps;
      RawAlone(Now(), false);
      AcquireAllAlone(Now(), false, Proceed);
      if rawFails {
        return false;
      }
      raw := true;
      EngageTerminal();
      return true;
    }

    /** `TerminalGuard::acquire`. */
    method AcquireTerminal(rawFails: bool, entering: Choice) returns (ok: bool)
      modifies this
      ensures ok <==> !rawFails && !EntryFails(entering)
      ensures Alone(old(Now()), Idle,
                    if rawFails then [Acquire(true), Fail] else AcquireSteps(true, entering)) == (Now(), Idle)
      ensures rawFails ==> Now() == old(Now())
      ensures ok ==> engaged && raw && screen && engages == old(engages) + 1 && restores == old(restores)
      ensures !rawFails && !ok ==> !engaged && !raw && !screen && restores == old(restores) + 1
    {
      hide Alone, Stepped, AcquireSteps;
      RawAlone(Now(), true);
      AcquireAllAlone(Now(), true, entering);
      if rawFails {
        return false;
      }
      raw := true;
      EngageTerminal();
      ok := EnterScreen(entering);
    }

    /** The alternate screen, and the terminal given back when it cannot be entered. */
    method EnterScreen(entering: Choice) returns (ok: bool)
      requires engaged
      modifies this
      ensures ok <==> !EntryFails(entering)
      ensures Now() == if ok then old(Now()).(screen := true, entered := true) else Restored(old(Now()))
    {
      hide Alone, Stepped;
      if !entering.Fail? {
        screen := true;
      }
      if EntryFails(entering) {
        RestoreTerminal();
        return false;
      }
      entered := true;
      return true;
    }

    method RequestShutdown()
      modifies this
      ensures Alone(old(Now()), Idle, [RequestStop, Proceed]) == (Now(), Idle)
      ensures Now() == old(Now()).(requested := true)
    {
      hide Alone, Stepped;
      RequestAlone(Now());
      requested := true;
    }

    method InterpretSignal() returns (meaning: Meaning)
      modifies this
      ensures Alone(old(Now()), Idle, SignalSteps(old(Now())))
              == (Now(), if meaning == AskToStop then Requesting else RunningCleanup)
      ensures meaning == Answer(old(Now())) && Now() == Answered(old(Now()))
      ensures Now() == old(Now()).(answers := old(answers) + [meaning],
                                   signalsSeen := old(signalsSeen) + if meaning == LeaveImmediately then 0 else 1)
      ensures meaning == LeaveImmediately <==> !old(engaged) && !old(everEngaged)
      ensures meaning == StopWaiting <==> old(engaged || everEngaged) && old(signalsSeen) > 0
    {
      hide Alone, Stepped;
      SignalAlone(Now());
      if !engaged && !everEngaged {
        meaning := LeaveImmediately;
      } else {
        var seen := signalsSeen;
        signalsSeen := signalsSeen + 1;
        meaning := if seen > 0 then StopWaiting else AskToStop;
      }
      answers := answers + [meaning];
    }

    /** `force_exit`; `panics` of the registered cleanups panic, and the panic hook restores for each. */
    method ForceExit(panics: nat)
      modifies this
      ensures Alone(old(Now()), RunningCleanup, ForceSteps(old(engaged), panics)).0 == Now()
      ensures Now() == Restored(old(Now())).(exited := true)
      ensures old(raw ==> engaged) ==> !raw
    {
      hide Alone, Stepped, ForceSteps;
      ForceAlone(Now(), panics);
      for i := 0 to panics
        invariant Now() == if i == 0 then old(Now()) else Restored(old(Now()))
      {
        RestoreTerminal();
      }
      RestoreTerminal();
      exited := true;
    }

    /** The handler `install_signal_handler` installs. */
    method HandleSignal(panics: nat)
      modifies this
      ensures Alone(old(Now()), Idle, HandlerSteps(old(Now()), panics)).0 == Now()
      ensures var was, counted := old(Now()), old(engaged || everEngaged);
              var forced := !counted || was.signalsSeen > 0;
              && exited == (was.exited || forced)
              && requested == (was.requested || !forced)
              && signalsSeen == was.signalsSeen + (if counted then 1 else 0)
              && (raw, screen, engaged, restores)
                 == (if forced then var given := Restored(was); (given.raw, given.screen, false, given.restores)
                     else (was.raw, was.screen, was.engaged, was.restores))
    {
      hide Alone, Stepped, HandlerSteps, ForceSteps, SignalSteps;
      HandlerAlone(Now(), panics);
      var meaning := InterpretSignal();
      match meaning {
        case LeaveImmediately => ForceExit(panics);
        case StopWaiting => ForceExit(panics);
        case AskToStop => RequestShutdown();
      }
    }
  }
}
