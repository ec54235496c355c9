/** The environment half of `HarnessLaunch` (`crates/glasshouse/src/launch.rs`) and of the `TerminalCommand` it is
    replayed into (`crates/glasshouse/src/pty/mod.rs`).

    A launch keeps one operation per variable, the last; a command keeps two disjoint lists. Both are compressions
    of the history of calls, and both are proved to give the child the environment the whole history would. */
module LaunchEnv {
  import opened Text

  type Environment = map<string, string>

  datatype Change = Set(key: string, value: string) | Remove(key: string)

  /** What one operation means for a child's environment. */
  function Applied(env: Environment, change: Change): Environment {
    match change
    case Set(key, value) => env[key := value]
    case Remove(key) => env - {key}
  }

  /** The reference meaning: every call in order. */
  function Replayed(env: Environment, changes: seq<Change>): Environment {
    if changes == [] then env
    else Applied(Replayed(env, changes[..|changes| - 1]), changes[|changes| - 1])
  }

  // ---------------------------------------------------------------- the deduplicated list

  function Without(changes: seq<Change>, key: string): (kept: seq<Change>)
    ensures |kept| <= |changes|
    ensures forall c :: c in kept <==> c in changes && c.key != key
  {
    if changes == [] then []
    else
      var n := |changes| - 1;
      assert changes == changes[..n] + [changes[n]];
      Without(changes[..n], key) + if changes[n].key != key then [changes[n]] else []
  }

  /** The list after one more call. */
  function Recorded(changes: seq<Change>, change: Change): seq<Change> {
    Without(changes, change.key) + [change]
  }

  /** The list after a whole history. */
  function Compressed(history: seq<Change>): seq<Change> {
    if history == [] then []
    else Recorded(Compressed(history[..|history| - 1]), history[|history| - 1])
  }

  predicate OncePerKey(changes: seq<Change>) {
    forall i, j :: 0 <= i < j < |changes| ==> changes[i].key != changes[j].key
  }

  lemma {:induction false} WithoutOncePerKey(changes: seq<Change>, key: string)
    requires OncePerKey(changes)
    ensures OncePerKey(Without(changes, key))
  {
    if changes != [] {
      var n := |changes| - 1;
      WithoutOncePerKey(changes[..n], key);
      var kept := Without(changes[..n], key);
      assert forall i :: 0 <= i < |kept| ==> kept[i] in changes[..n];
    }
  }

  /** Dropping a variable's operations changes nothing but that variable. */
  lemma {:induction false} WithoutElsewhere(env: Environment, changes: seq<Change>, key: string)
    ensures Replayed(env, Without(changes, key)) - {key} == Replayed(env, changes) - {key}
  {
    if changes != [] {
      var n := |changes| - 1;
      var kept := Without(changes[..n], key);
      WithoutElsewhere(env, changes[..n], key);
      if changes[n].key != key {
        assert (kept + [changes[n]])[..|kept|] == kept;
        AppliedElsewhere(Replayed(env, kept), Replayed(env, changes[..n]), changes[n], key);
      } else {
        assert kept + [] == kept;
        AppliedAway(Replayed(env, changes[..n]), changes[n]);
      }
    }
  }

  lemma AppliedElsewhere(a: Environment, b: Environment, change: Change, key: string)
    requires a - {key} == b - {key} && change.key != key
    ensures Applied(a, change) - {key} == Applied(b, change) - {key}
  {
    assert Applied(a, change) - {key} == Applied(a - {key}, change);
    assert Applied(b, change) - {key} == Applied(b - {key}, change);
  }

  lemma AppliedAway(a: Environment, change: Change)
    ensures Applied(a, change) - {change.key} == a - {change.key}
    ensures Applied(a, change) == Applied(a - {change.key}, change)
  {
  }

  lemma ReplayedAppend(env: Environment, changes: seq<Change>, last: Change)
    ensures Replayed(env, changes + [last]) == Applied(Replayed(env, changes), last)
  {
    assert (changes + [last])[..|changes|] == changes;
  }

  /** One more call: the list stays free of repeats and means one more operation. */
  lemma RecordedIsApplied(env: Environment, changes: seq<Change>, change: Change)
    requires OncePerKey(changes)
    ensures OncePerKey(Recorded(changes, change))
    ensures Replayed(env, Recorded(changes, change)) == Applied(Replayed(env, changes), change)
  {
    hide Replayed, Applied;
    var kept := Without(changes, change.key);
    WithoutOncePerKey(changes, change.key);
    assert forall i :: 0 <= i < |kept| ==> kept[i] in kept;
    WithoutElsewhere(env, changes, change.key);
    ReplayedAppend(env, kept, change);
    AppliedAway(Replayed(env, kept), change);
    AppliedAway(Replayed(env, changes), change);
  }

  /** The list holds each variable once, and replaying it over any inherited environment is replaying every call
      that was ever made. */
  lemma {:induction false} CompressionIsFaithful(env: Environment, history: seq<Change>)
    ensures OncePerKey(Compressed(history))
    ensures Replayed(env, Compressed(history)) == Replayed(env, history)
  {
    hide Recorded, Applied;
    if history != [] {
      var front, last := history[..|history| - 1], history[|history| - 1];
      CompressionIsFaithful(env, front);
      RecordedIsApplied(env, Compressed(front), last);
    }
  }

  /** Which operations survive: each variable's last one. */
  lemma {:induction false} CompressedHoldsTheLast(history: seq<Change>, i: nat)
    requires i < |history|
    requires forall j :: i < j < |history| ==> history[j].key != history[i].key
    ensures history[i] in Compressed(history)
    decreases |history|
  {
    hide Without;
    var n := |history| - 1;
    if i < n {
      CompressedHoldsTheLast(history[..n], i);
    }
  }

  lemma {:induction false} RemovedStaysAway(env: Environment, history: seq<Change>, i: nat)
    requires i < |history| && history[i].Remove?
    requires forall j :: i < j < |history| && history[j].Set? ==> history[j].key != history[i].key
    ensures history[i].key !in Replayed(env, history)
    decreases |history|
  {
    var n := |history| - 1;
    if i < n {
      RemovedStaysAway(env, history[..n], i);
    }
  }

  /** A credential that was stripped and never set again is absent from the child, whatever it inherits. */
  lemma StrippedIsAbsent(env: Environment, history: seq<Change>, i: nat)
    requires i < |history| && history[i].Remove?
    requires forall j :: i < j < |history| && history[j].Set? ==> history[j].key != history[i].key
    ensures history[i].key !in Replayed(env, Compressed(history))
  {
    RemovedStaysAway(env, history, i);
    CompressionIsFaithful(env, history);
  }

  /** Call `i` is the last one on the variable. */
  predicate IsLast(history: seq<Change>, key: string, i: nat) {
    && i < |history| && history[i].key == key
    && forall j :: i < j < |history| ==> history[j].key != key
  }

  /** The child's environment, variable by variable: as the last call on it left it, and as inherited where there was
      none. */
  lemma LastCallDecides(env: Environment, history: seq<Change>, key: string)
    ensures var child := Replayed(env, Compressed(history));
            && (forall i: nat :: IsLast(history, key, i) ==>
                  if history[i].Set? then key in child && child[key] == history[i].value else key !in child)
            && ((forall i :: 0 <= i < |history| ==> history[i].key != key) ==>
                  if key in env then key in child && child[key] == env[key] else key !in child)
  {
    hide Compressed;
    CompressionIsFaithful(env, history);
    LastReplayed(env, history, key);
  }

  lemma AppliedAt(env: Environment, change: Change, key: string)
    ensures var now := Applied(env, change);
            if change.key == key then
              if change.Set? then key in now && now[key] == change.value else key !in now
            else if key in env then key in now && now[key] == env[key] else key !in now
  {
  }

  lemma {:induction false} LastReplayed(env: Environment, history: seq<Change>, key: string)
    ensures var child := Replayed(env, history);
            && (forall i: nat :: IsLast(history, key, i) ==>
                  if history[i].Set? then key in child && child[key] == history[i].value else key !in child)
            && ((forall i :: 0 <= i < |history| ==> history[i].key != key) ==>
                  if key in env then key in child && child[key] == env[key] else key !in child)
  {
    hide Applied;
    if history != [] {
      var n := |history| - 1;
      LastReplayed(env, history[..n], key);
      AppliedAt(Replayed(env, history[..n]), history[n], key);
      forall i: nat | IsLast(history, key, i) && i < n
        ensures IsLast(history[..n], key, i)
      {
      }
    }
  }

  // ---------------------------------------------------------------- the command's two lists

  datatype Command = Command(env: seq<Change>, removed: seq<string>) {

    /** Overrides only, each variable in at most one of the two lists and once. */
    predicate Valid() {
      && (forall c :: c in env ==> c.Set? && c.key !in removed)
      && OncePerKey(env)
      && Distinct(removed)
    }
  }

  predicate Distinct(keys: seq<string>) {
    forall i, j :: 0 <= i < j < |keys| ==> keys[i] != keys[j]
  }

  function WithoutKey(keys: seq<string>, key: string): (kept: seq<string>)
    ensures forall k :: k in kept <==> k in keys && k != key
  {
    if keys == [] then []
    else
      var n := |keys| - 1;
      assert keys == keys[..n] + [keys[n]];
      WithoutKey(keys[..n], key) + if keys[n] != key then [keys[n]] else []
  }

  lemma {:induction false} WithoutKeyOnce(keys: seq<string>, key: string)
    requires Distinct(keys)
    ensures Distinct(WithoutKey(keys, key))
  {
    if keys != [] {
      var n := |keys| - 1;
      var kept := WithoutKey(keys[..n], key);
      WithoutKeyOnce(keys[..n], key);
      forall i | 0 <= i < |kept|
        ensures kept[i] != keys[n]
      {
        assert kept[i] in kept;
      }
    }
  }

  function Ordered(command: Command, change: Change): Command {
    if change.Set? then
      Command(Without(command.env, change.key) + [change], WithoutKey(command.removed, change.key))
    else
      Command(Without(command.env, change.key), WithoutKey(command.removed, change.key) + [change.key])
  }

  /** The environment the child is started with: the inherited one, then the overrides, then the removals. */
  function ChildEnv(inherited: Environment, command: Command): Environment {
    Replayed(inherited, command.env) - Removed(command)
  }

  lemma OrderedIsValid(command: Command, change: Change)
    requires command.Valid()
    ensures Ordered(command, change).Valid()
  {
    var kept, names := Without(command.env, change.key), WithoutKey(command.removed, change.key);
    WithoutOncePerKey(command.env, change.key);
    WithoutKeyOnce(command.removed, change.key);
    assert forall i :: 0 <= i < |kept| ==> kept[i] in kept;
    assert forall i :: 0 <= i < |names| ==> names[i] in names;
  }

  function Removed(command: Command): set<string> {
    set k | k in command.removed
  }

  lemma RemovedAfter(command: Command, change: Change)
    ensures Removed(Ordered(command, change)) == if change.Set? then Removed(command) - {change.key}
                                                 else Removed(command) + {change.key}
  {
  }

  /** One more call on the command means one more operation on the child. */
  lemma OrderedIsApplied(inherited: Environment, command: Command, change: Change)
    ensures ChildEnv(inherited, Ordered(command, change)) == Applied(ChildEnv(inherited, command), change)
  {
    hide Replayed, Without, WithoutKey;
    var key := change.key;
    var kept := Without(command.env, key);
    WithoutElsewhere(inherited, command.env, key);
    RemovedAfter(command, change);
    var full, part := Replayed(inherited, command.env), Replayed(inherited, kept);
    assert part - {key} == full - {key};
    if change.Set? {
      ReplayedAppend(inherited, kept, change);
      assert part[key := change.value] == (part - {key})[key := change.value];
      assert full[key := change.value] == (full - {key})[key := change.value];
    } else {
      assert part - (Removed(command) + {key}) == (part - {key}) - Removed(command);
      assert full - (Removed(command) + {key}) == (full - {key}) - Removed(command);
    }
  }

  // ---------------------------------------------------------------- the classes

  /** A launch being prepared; `history` records every call made on it. */
  class HarnessLaunch {
    var envChanges: seq<Change>
    ghost var history: seq<Change>

    ghost predicate Valid()
      reads this
    {
      envChanges == Compressed(history)
    }

    constructor ()
      ensures Valid() && history == []
    {
      envChanges := [];
      history := [];
    }

    method Env(key: string, value: string)
      requires Valid()
      modifies this
      ensures Valid() && history == old(history) + [Set(key, value)]
    {
      envChanges := Without(envChanges, key) + [Set(key, value)];
      history := history + [Set(key, value)];
      assert history[..|history| - 1] == old(history);
    }

    method EnvRemove(key: string)
      requires Valid()
      modifies this
      ensures Valid() && history == old(history) + [Remove(key)]
    {
      envChanges := Without(envChanges, key) + [Remove(key)];
      history := history + [Remove(key)];
      assert history[..|history| - 1] == old(history);
    }

    /** `names` are the variables the configured providers read a credential from, sorted and without duplicates. */
    method WithoutProviderCredentials(names: seq<string>)
      requires Valid()
      modifies this
      ensures Valid() && history == old(history) + Removals(names)
    {
      hide Compressed;
      for i := 0 to |names|
        invariant Valid() && history == old(history) + Removals(names[..i])
      {
        RemovalsAppend(names[..i], names[i]);
        assert names[..i] + [names[i]] == names[..i + 1];
        EnvRemove(names[i]);
      }
      assert names[..|names|] == names;
    }

    method WithActiveEntitlement(entitlement: Option<string>)
      requires Valid()
      modifies this
      ensures Valid()
      ensures history == old(history) + [if entitlement.None? then Remove(ACTIVE_ENTITLEMENT_ENV)
                                         else Set(ACTIVE_ENTITLEMENT_ENV, entitlement.value)]
    {
      if entitlement.None? {
        EnvRemove(ACTIVE_ENTITLEMENT_ENV);
      } else {
        Env(ACTIVE_ENTITLEMENT_ENV, entitlement.value);
      }
    }

    /** The replay loop: the command's child gets exactly what the calls on the launch asked for. */
    method BuildCommand() returns (command: Command)
      requires Valid()
      ensures command.Valid()
      ensures forall inherited :: ChildEnv(inherited, command) == Replayed(inherited, history)
    {
      hide ChildEnv, Ordered, Applied;
      command := Command([], []);
      EmptyCommand();
      for i := 0 to |envChanges|
        invariant command.Valid()
        invariant forall inherited :: ChildEnv(inherited, command) == Replayed(inherited, envChanges[..i])
      {
        assert envChanges[..i + 1] == envChanges[..i] + [envChanges[i]];
        OrderedIsValid(command, envChanges[i]);
        forall inherited
          ensures ChildEnv(inherited, Ordered(command, envChanges[i])) == Replayed(inherited, envChanges[..i + 1])
        {
          OrderedIsApplied(inherited, command, envChanges[i]);
          ReplayedAppend(inherited, envChanges[..i], envChanges[i]);
        }
        command := Ordered(command, envChanges[i]);
      }
      assert envChanges[..|envChanges|] == envChanges;
      forall inherited
        ensures ChildEnv(inherited, command) == Replayed(inherited, history)
      {
        CompressionIsFaithful(inherited, history);
      }
    }
  }

  lemma EmptyCommand()
    ensures forall inherited :: ChildEnv(inherited, Command([], [])) == inherited
  {
    assert forall inherited: Environment :: inherited - Removed(Command([], [])) == inherited;
  }

  const ACTIVE_ENTITLEMENT_ENV: string := "GLASSHOUSE_ACTIVE_ENTITLEMENT"

  function Removals(names: seq<string>): (removals: seq<Change>)
    ensures |removals| == |names|
    ensures forall i :: 0 <= i < |names| ==> removals[i] == Remove(names[i])
  {
    seq(|names|, i requires 0 <= i < |names| => Remove(names[i]))
  }

  lemma RemovalsAppend(names: seq<string>, name: string)
    ensures Removals(names + [name]) == Removals(names) + [Remove(name)]
  {
  }

  /** No operation of `changes` sets `name`. */
  predicate NeverSets(changes: seq<Change>, name: string) {
    forall c :: c in changes && c.Set? ==> c.key != name
  }

  /** What the launch path promises: after the strip, any overlay, and the entitlement mark, the child sees no
      credential variable the overlay did not set. */
  lemma CredentialsStayHome(
      inherited: Environment, before: seq<Change>, names: seq<string>, overlay: seq<Change>, name: string)
    requires name in names && NeverSets(overlay, name)
    ensures name !in Replayed(inherited, Compressed(before + Removals(names) + overlay))
  {
    hide Compressed, Replayed;
    var history := before + Removals(names) + overlay;
    var k :| 0 <= k < |names| && names[k] == name;
    var i := |before| + k;
    assert history[i] == Remove(name);
    assert forall j :: 0 <= j < |names| ==> history[|before| + j] == Remove(names[j]);
    assert forall j :: 0 <= j < |overlay| ==> history[|before| + |names| + j] == overlay[j];
    forall j | i < j < |history| && history[j].Set?
      ensures history[j].key != name
    {
      assert history[j] in overlay by {
        assert history[j] == history[|before| + |names| + (j - |before| - |names|)];
      }
    }
    StrippedIsAbsent(inherited, history, i);
  }

  /** The entitlement mark is applied last, so the child carries exactly the selected one. */
  lemma EntitlementIsTheSelectedOne(inherited: Environment, before: seq<Change>, mark: Change)
    ensures
      var child := Replayed(inherited, Compressed(before + [mark]));
      if mark.Set? then mark.key in child && child[mark.key] == mark.value else mark.key !in child
  {
    CompressionIsFaithful(inherited, before + [mark]);
    ReplayedAppend(inherited, before, mark);
  }
}
