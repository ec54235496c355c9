/** Phase accounting of `scripts/progress.py`: which boxes of the capability map are counted for a phase, which are
    parked, and which are counted by neither. */
module Progress {
  import opened Text

  const TICKED: char := '\U{2611}'
  const UNTICKED: char := '\U{2610}'
  const DASH: char := '\U{2014}'
  const FILLED: char := '\U{2588}'
  const EMPTY: char := '\U{2591}'

  const SLICE_START_HEADING: string := "Implementation Order"
  const SLICE_END_HEADING: string := "Maybe / Experimental Capabilities"
  const GATE_MARKER: string := "deferred experiment gate"

  // ---------------------------------------------------------------- lines

  predicate AllSpace(s: string, i: int, j: int) {
    forall k :: i <= k < j ==> 0 <= k < |s| && IsSpace(s[k])
  }

  predicate NoSpace(s: string, i: int, j: int) {
    forall k :: i <= k < j ==> 0 <= k < |s| && !IsSpace(s[k])
  }

  /** `^Phase\s+\S+\s+-\s+.+$`, with an em dash. */
  predicate IsPhase(line: string) {
    StartsWith(line, "Phase") &&
    exists a, b, c | 5 < a < b < c < |line| - 2 ::
      && AllSpace(line, 5, a) && NoSpace(line, a, b) && AllSpace(line, b, c)
      && line[c] == DASH && IsSpace(line[c + 1])
  }

  /** `^Maybe [A-Z] - `, with an em dash. */
  predicate IsMaybe(line: string) {
    |line| >= 10 && StartsWith(line, "Maybe ") && 'A' <= line[6] <= 'Z' && line[7..10] == [' ', DASH, ' ']
  }

  predicate IsEnd(line: string) {
    IsHeading(line, SLICE_END_HEADING)
  }

  predicate IsTicked(line: string) {
    line != "" && line[0] == TICKED
  }

  predicate IsUnticked(line: string) {
    line != "" && line[0] == UNTICKED
  }

  predicate HasGate(line: string) {
    exists i | 0 <= i <= |line| :: StartsWith(line[i..], GATE_MARKER)
  }

  /** The heading of a phase, spelled out. */
  predicate PhaseSpelledBy(line: string, gap: string, word: string, gap2: string, space: char, text: string) {
    && line == "Phase" + gap + word + gap2 + [DASH, space] + text
    && gap != "" && AllSpace(gap, 0, |gap|) && word != "" && NoSpace(word, 0, |word|)
    && gap2 != "" && AllSpace(gap2, 0, |gap2|) && IsSpace(space) && text != ""
  }

  ghost predicate PhaseIsSpelled(line: string) {
    exists gap, word, gap2, space, text :: PhaseSpelledBy(line, gap, word, gap2, space, text)
  }

  /** A line is the heading of a phase exactly when it is spelled like one. */
  lemma PhaseIff(line: string)
    ensures IsPhase(line) <==> PhaseIsSpelled(line)
  {
    hide PhaseSpelledBy, AllSpace, NoSpace, IsSpace;
    if IsPhase(line) {
      var a, b, c :| 5 < a < b < c < |line| - 2
        && AllSpace(line, 5, a) && NoSpace(line, a, b) && AllSpace(line, b, c)
        && line[c] == DASH && IsSpace(line[c + 1]);
      PhaseSplits(line, a, b, c);
    }
    if gap, word, gap2, space, text :| PhaseSpelledBy(line, gap, word, gap2, space, text) {
      SpelledIsPhase(line, gap, word, gap2, space, text);
    }
  }

  lemma SpelledIsPhase(line: string, gap: string, word: string, gap2: string, space: char, text: string)
    requires PhaseSpelledBy(line, gap, word, gap2, space, text)
    ensures IsPhase(line)
  {
    hide IsSpace;
    var a := 5 + |gap|;
    var b := a + |word|;
    var c := b + |gap2|;
    assert line[..5] == "Phase" && line[c] == DASH && line[c + 1] == space;
    assert forall k :: 5 <= k < a ==> line[k] == gap[k - 5];
    assert forall k :: a <= k < b ==> line[k] == word[k - a];
    assert forall k :: b <= k < c ==> line[k] == gap2[k - b];
    assert AllSpace(line, 5, a) && NoSpace(line, a, b) && AllSpace(line, b, c);
  }

  lemma PhaseSplits(line: string, a: nat, b: nat, c: nat)
    requires 5 < a < b < c < |line| - 2 && StartsWith(line, "Phase")
    requires AllSpace(line, 5, a) && NoSpace(line, a, b) && AllSpace(line, b, c)
    requires line[c] == DASH && IsSpace(line[c + 1])
    ensures PhaseSpelledBy(line, line[5..a], line[a..b], line[b..c], line[c + 1], line[c + 2..])
  {
    hide AllSpace, NoSpace, IsSpace;
    SpacesOf(line, 5, a);
    WordOf(line, a, b);
    SpacesOf(line, b, c);
    CutInFive(line, a, b, c);
  }

  lemma SpacesOf(s: string, i: nat, j: nat)
    requires i <= j <= |s| && AllSpace(s, i, j)
    ensures AllSpace(s[i..j], 0, j - i)
  {
    hide IsSpace;
  }

  lemma WordOf(s: string, i: nat, j: nat)
    requires i <= j <= |s| && NoSpace(s, i, j)
    ensures NoSpace(s[i..j], 0, j - i)
  {
    hide IsSpace;
  }

  lemma CutInFive(s: string, a: nat, b: nat, c: nat)
    requires 5 < a < b < c < |s| - 2 && StartsWith(s, "Phase") && s[c] == DASH
    ensures s == "Phase" + s[5..a] + s[a..b] + s[b..c] + [DASH, s[c + 1]] + s[c + 2..]
  {
    assert "Phase" + s[5..a] == s[..a];
    assert s[..a] + s[a..b] == s[..b];
    assert s[..b] + s[b..c] == s[..c];
    assert s[..c] + [DASH, s[c + 1]] == s[..c + 2];
  }

  /** A gate is a line that says so anywhere. */
  lemma GateIff(line: string)
    ensures HasGate(line) <==> exists before, after :: line == before + ("deferred experiment gate" + after)
  {
    hide GATE_MARKER;
    if HasGate(line) {
      var i :| 0 <= i <= |line| && StartsWith(line[i..], GATE_MARKER);
      MarkerIsSpelled();
      assert line == line[..i] + (GATE_MARKER + line[i..][|GATE_MARKER|..]);
    }
    if before, after :| line == before + ("deferred experiment gate" + after) {
      MarkerIsSpelled();
      assert line[|before|..] == GATE_MARKER + after;
      assert StartsWith(line[|before|..], GATE_MARKER);
    }
  }

  lemma MarkerIsSpelled()
    ensures GATE_MARKER == "deferred experiment gate"
  {
  }

  lemma PhaseBegins(line: string)
    requires IsPhase(line)
    ensures line != "" && line[0] == 'P'
  {
    assert line[..5][0] == line[0];
  }

  lemma MaybeBegins(line: string)
    requires IsMaybe(line)
    ensures |line| > 6 && line[0] == 'M' && line[6] != '/'
  {
    assert line[..6][0] == line[0];
  }

  lemma EndBegins(line: string)
    requires IsEnd(line)
    ensures line != "" && (IsSpace(line[0]) || (|line| > 6 && line[0] == 'M' && line[6] == '/'))
  {
    hide Strip;
    if line == "" {
      assert Strip("") == "" by { TightIsStripped(""); }
    } else if !IsSpace(line[0]) {
      FirstIsKept(line);
      assert SLICE_END_HEADING[0] == 'M' && SLICE_END_HEADING[6] == '/';
    }
  }

  /** A box is no heading, and a heading is of one kind. */
  lemma KindsAreDisjoint(line: string)
    ensures IsUnticked(line) || IsTicked(line) ==> !IsPhase(line) && !IsMaybe(line) && !IsEnd(line)
    ensures IsEnd(line) ==> !IsPhase(line) && !IsMaybe(line)
    ensures IsPhase(line) ==> !IsMaybe(line)
  {
    hide IsPhase, IsMaybe, IsEnd;
    if IsPhase(line) { PhaseBegins(line); }
    if IsMaybe(line) { MaybeBegins(line); }
    if IsEnd(line) { EndBegins(line); }
  }

  lemma FirstIsKept(line: string)
    requires line != "" && !IsSpace(line[0])
    ensures 0 < |Strip(line)| <= |line| && forall i :: 0 <= i < |Strip(line)| ==> Strip(line)[i] == line[i]
  {
    hide IsSpace;
    RStripKeepsFirst(line);
    assert LStrip(RStrip(line)) == RStrip(line);
  }

  // ---------------------------------------------------------------- the two scans

  /** The first line from `i` on whose stripped text is `heading`, or the number of lines. */
  function FirstHeading(lines: seq<string>, heading: string, i: nat): (k: nat)
    requires i <= |lines|
    ensures i <= k <= |lines|
    decreases |lines| - i
  {
    if i == |lines| || IsHeading(lines[i], heading) then i else FirstHeading(lines, heading, i + 1)
  }

  predicate IsHeading(line: string, heading: string) {
    Strip(line) == heading
  }

  lemma {:induction false} FirstHeadingIsFirst(lines: seq<string>, heading: string, i: nat)
    requires i <= |lines|
    ensures var k := FirstHeading(lines, heading, i);
            && (k < |lines| ==> IsHeading(lines[k], heading))
            && forall j :: i <= j < k ==> !IsHeading(lines[j], heading)
    decreases |lines| - i
  {
    hide IsHeading;
    if i < |lines| && !IsHeading(lines[i], heading) {
      FirstHeadingIsFirst(lines, heading, i + 1);
    }
  }

  datatype Phase = Phase(title: string, done: nat, total: nat, gate: bool)

  /** The state of `parse_phases` between two lines; the current phase is the last. */
  datatype Parse = Parse(phases: seq<Phase>, experimental: bool)

  function ParseLine(p: Parse, line: string): Result<Parse> {
    var experimental := if IsPhase(line) then false
                        else if IsMaybe(line) || IsEnd(line) then true
                        else p.experimental;
    var q := p.(experimental := experimental);
    if experimental then Ok(q)
    else if IsPhase(line) then
      Ok(q.(phases := q.phases + [Phase(Strip(line), 0, 0, HasGate(line))]))
    else
      var gated := if q.phases != [] && HasGate(line)
                   then q.(phases := q.phases[|q.phases| - 1 := q.phases[|q.phases| - 1].(gate := true)])
                   else q;
      if !IsTicked(line) && !IsUnticked(line) then Ok(gated)
      else if gated.phases == [] then Error
      else
        var n := |gated.phases| - 1;
        var last := gated.phases[n];
        Ok(gated.(phases := gated.phases[n := last.(done := last.done + if IsTicked(line) then 1 else 0,
                                                    total := last.total + 1)]))
  }

  /** The parse of the lines after `start` and before `n`. */
  function ParseUpTo(lines: seq<string>, start: nat, n: nat): Result<Parse>
    requires n <= |lines|
  {
    if n <= start + 1 then Ok(Parse([], false))
    else
      match ParseUpTo(lines, start, n - 1)
      case Error => Error
      case Ok(p) => ParseLine(p, lines[n - 1])
  }

  method ParsePhases(lines: seq<string>) returns (phases: Result<seq<Phase>>)
    ensures
      var start := FirstHeading(lines, SLICE_START_HEADING, 0);
      if start == |lines| then phases == Error
      else
        match ParseUpTo(lines, start, |lines|)
        case Error => phases == Error
        case Ok(p) => phases == if p.phases == [] then Error else Ok(p.phases)
  {
    hide ParseLine, IsHeading;
    var start := 0;
    while start < |lines| && !IsHeading(lines[start], SLICE_START_HEADING)
      invariant 0 <= start <= |lines|
      invariant FirstHeading(lines, SLICE_START_HEADING, start) == FirstHeading(lines, SLICE_START_HEADING, 0)
    {
      start := start + 1;
    }
    if start == |lines| {
      return Error;
    }
    var p := Parse([], false);
    var n := start + 1;
    while n < |lines|
      invariant start < n <= |lines|
      invariant ParseUpTo(lines, start, n) == Ok(p)
    {
      var next := ParseOne(p, lines[n]);
      if next.Error? {
        ErrorPersists(lines, start, n + 1, |lines|);
        return Error;
      }
      p := next.value;
      n := n + 1;
    }
    return if p.phases == [] then Error else Ok(p.phases);
  }

  /** The loop's body, on the list of phases and the flag. */
  method ParseOne(p: Parse, line: string) returns (next: Result<Parse>)
    ensures next == ParseLine(p, line)
  {
    hide IsPhase, IsMaybe, IsEnd, HasGate, IsTicked, IsUnticked;
    KindsAreDisjoint(line);
    var phases, experimental := p.phases, p.experimental;
    if IsEnd(line) {
      experimental := true;
    }
    if IsPhase(line) {
      experimental := false;
    } else if IsMaybe(line) {
      experimental := true;
    }
    if experimental {
      return Ok(Parse(phases, experimental));
    }
    if IsPhase(line) {
      phases := phases + [Phase(Strip(line), 0, 0, HasGate(line))];
      return Ok(Parse(phases, experimental));
    }
    if phases != [] && HasGate(line) {
      phases := phases[|phases| - 1 := phases[|phases| - 1].(gate := true)];
    }
    if IsTicked(line) || IsUnticked(line) {
      if phases == [] {
        return Error;
      }
      var last := phases[|phases| - 1];
      last := last.(done := last.done + (if IsTicked(line) then 1 else 0), total := last.total + 1);
      phases := phases[|phases| - 1 := last];
    }
    return Ok(Parse(phases, experimental));
  }

  lemma {:induction false} ErrorPersists(lines: seq<string>, start: nat, n: nat, m: nat)
    requires start + 1 < n <= m <= |lines| && ParseUpTo(lines, start, n) == Error
    ensures ParseUpTo(lines, start, m) == Error
    decreases m
  {
    hide ParseLine;
    if n < m {
      ErrorPersists(lines, start, n, m - 1);
    }
  }

  /** Whether `count_parked`, which starts at line `end`, is counting once line `n - 1` has been read. */
  predicate Parking(lines: seq<string>, end: nat, n: nat)
    requires n <= |lines|
  {
    n > end &&
    if IsPhase(lines[n - 1]) then false
    else if IsMaybe(lines[n - 1]) || n - 1 == end then true
    else Parking(lines, end, n - 1)
  }

  function ParkedUpTo(lines: seq<string>, end: nat, n: nat): nat
    requires n <= |lines|
  {
    if n <= end then 0
    else ParkedUpTo(lines, end, n - 1) + if Parking(lines, end, n) && IsUnticked(lines[n - 1]) then 1 else 0
  }

  method CountParked(lines: seq<string>) returns (parked: nat)
    ensures parked == ParkedUpTo(lines, FirstHeading(lines, SLICE_END_HEADING, 0), |lines|)
  {
    hide IsHeading, IsPhase, IsMaybe;
    var end := 0;
    while end < |lines| && !IsHeading(lines[end], SLICE_END_HEADING)
      invariant 0 <= end <= |lines|
      invariant FirstHeading(lines, SLICE_END_HEADING, end) == FirstHeading(lines, SLICE_END_HEADING, 0)
    {
      end := end + 1;
    }
    parked := 0;
    if end == |lines| {
      return;
    }
    KindsAreDisjoint(lines[end]);
    var experimental := true;
    for n := end to |lines|
      invariant parked == ParkedUpTo(lines, end, n)
      invariant experimental == (n == end || Parking(lines, end, n))
    {
      if IsPhase(lines[n]) {
        experimental := false;
      } else if IsMaybe(lines[n]) {
        experimental := true;
      }
      if experimental && IsUnticked(lines[n]) {
        parked := parked + 1;
      }
    }
  }

  // ---------------------------------------------------------------- conservation

  /** Whether `parse_phases` is inside an experimental stretch once line `n - 1` has been read. */
  predicate Experimental(lines: seq<string>, start: nat, n: nat)
    requires n <= |lines|
  {
    n > start + 1 &&
    if IsPhase(lines[n - 1]) then false
    else if IsMaybe(lines[n - 1]) || IsEnd(lines[n - 1]) then true
    else Experimental(lines, start, n - 1)
  }

  /** The unticked boxes after `start` and before `n`. */
  function UntickedUpTo(lines: seq<string>, start: nat, n: nat): nat
    requires n <= |lines|
  {
    if n <= start + 1 then 0
    else UntickedUpTo(lines, start, n - 1) + if IsUnticked(lines[n - 1]) then 1 else 0
  }

  /** The box on line `i` is in a stretch that the phases leave out and that is not parked either. */
  predicate Lost(lines: seq<string>, start: nat, end: nat, i: nat)
    requires i < |lines|
  {
    start < i && IsUnticked(lines[i]) && Experimental(lines, start, i + 1) && !Parking(lines, end, i + 1)
  }

  function LostUpTo(lines: seq<string>, start: nat, end: nat, n: nat): nat
    requires n <= |lines|
  {
    if n <= start + 1 then 0
    else LostUpTo(lines, start, end, n - 1) + if Lost(lines, start, end, n - 1) then 1 else 0
  }

  /** What the phases still owe. */
  function Owed(phases: seq<Phase>): int {
    if phases == [] then 0
    else Owed(phases[..|phases| - 1]) + phases[|phases| - 1].total - phases[|phases| - 1].done
  }

  lemma ParseLineOwes(p: Parse, line: string)
    requires ParseLine(p, line).Ok?
    ensures
      var q := ParseLine(p, line).value;
      && Owed(q.phases) == Owed(p.phases) + (if IsUnticked(line) && !q.experimental then 1 else 0)
      && (IsUnticked(line) && !q.experimental ==> p.phases != [])
      && (q.phases != [] <==> p.phases != [] || IsPhase(line))
  {
    hide HasGate, Strip, IsPhase, IsMaybe, IsEnd;
    KindsAreDisjoint(line);
    var q := ParseLine(p, line).value;
    var n := |p.phases|;
    if |q.phases| > n {
      assert q.phases[..n] == p.phases;
    } else if n > 0 {
      assert q.phases[..n - 1] == p.phases[..n - 1];
    }
  }

  /** What `count_parked` adds before the phases begin, when the experimental heading stands above the start. */
  function ParkedAbove(lines: seq<string>, start: nat, end: nat): nat {
    if start < |lines| then ParkedUpTo(lines, end, start + 1) else ParkedUpTo(lines, end, |lines|)
  }

  /** Where a phase has begun, what is parked is experimental. */
  lemma ParkingIsExperimental(lines: seq<string>, start: nat, end: nat, n: nat, p: Parse)
    requires start + 1 < n <= |lines| && (end < |lines| ==> IsEnd(lines[end]))
    requires p.phases != [] && Parking(lines, end, n - 1) ==> Experimental(lines, start, n - 1)
    requires ParseLine(p, lines[n - 1]).Ok?
    ensures var q := ParseLine(p, lines[n - 1]).value;
            q.phases != [] && Parking(lines, end, n) ==> Experimental(lines, start, n)
  {
    hide IsPhase, IsMaybe, IsEnd, ParseLine;
    ParseLineOwes(p, lines[n - 1]);
    KindsAreDisjoint(lines[n - 1]);
  }

  /** Every unticked box after the start is counted once: for a phase, as parked, or as lost. What is parked above the
      start comes on top. */
  lemma {:induction false} BoxesAreAccountedFor(lines: seq<string>, start: nat, end: nat, n: nat)
    requires start < n <= |lines| && (end < |lines| ==> IsEnd(lines[end]))
    requires ParseUpTo(lines, start, n).Ok?
    ensures
      var p := ParseUpTo(lines, start, n).value;
      && p.experimental == Experimental(lines, start, n)
      && (p.phases != [] && Parking(lines, end, n) ==> Experimental(lines, start, n))
      && Owed(p.phases) + ParkedUpTo(lines, end, n) + LostUpTo(lines, start, end, n)
         == UntickedUpTo(lines, start, n) + ParkedAbove(lines, start, end)
  {
    hide ParseLine, IsPhase, IsMaybe, IsEnd, Experimental, Parking;
    if n == start + 1 {
      NotYetExperimental(lines, start, n);
    } else {
      var line := lines[n - 1];
      BoxesAreAccountedFor(lines, start, end, n - 1);
      var p := ParseUpTo(lines, start, n - 1).value;
      ParseLineOwes(p, line);
      ParseLineFlag(p, lines, start, n);
      ParkingIsExperimental(lines, start, end, n, p);
      assert n <= end ==> !Parking(lines, end, n) by { NotYetParking(lines, end, n); }
    }
  }

  lemma NotYetExperimental(lines: seq<string>, start: nat, n: nat)
    requires n <= |lines|
    ensures n <= start + 1 ==> !Experimental(lines, start, n)
  {
  }

  lemma NotYetParking(lines: seq<string>, end: nat, n: nat)
    requires n <= |lines|
    ensures n <= end ==> !Parking(lines, end, n)
  {
  }

  lemma ParseLineFlag(p: Parse, lines: seq<string>, start: nat, n: nat)
    requires start + 1 < n <= |lines|
    requires p.experimental == Experimental(lines, start, n - 1)
    requires ParseLine(p, lines[n - 1]).Ok?
    ensures ParseLine(p, lines[n - 1]).value.experimental == Experimental(lines, start, n)
  {
    hide IsPhase, IsMaybe, IsEnd, HasGate, IsTicked, IsUnticked;
  }

  /** The promise of the headline: what the phases owe and what is parked are together all unticked boxes. */
  predicate Conserved(lines: seq<string>, start: nat, end: nat)
    requires ParseUpTo(lines, start, |lines|).Ok?
  {
    Owed(ParseUpTo(lines, start, |lines|).value.phases) + ParkedUpTo(lines, end, |lines|)
    == UntickedUpTo(lines, start, |lines|)
  }

  /** It holds if and only if as many boxes are lost as are parked above the start: with the experimental heading below
      the start, if and only if no box is lost. */
  lemma ConservedIff(lines: seq<string>, start: nat, end: nat)
    requires end < |lines| ==> IsEnd(lines[end])
    requires ParseUpTo(lines, start, |lines|).Ok?
    ensures Conserved(lines, start, end) <==> LostUpTo(lines, start, end, |lines|) == ParkedAbove(lines, start, end)
    ensures start < end ==>
      (Conserved(lines, start, end) <==> forall i :: 0 <= i < |lines| ==> !Lost(lines, start, end, i))
  {
    hide Lost, ParseUpTo;
    if start < |lines| {
      BoxesAreAccountedFor(lines, start, end, |lines|);
    } else {
      NothingIsCounted(lines, start);
    }
    NoneLost(lines, start, end, |lines|);
  }

  lemma NothingIsCounted(lines: seq<string>, start: nat)
    requires |lines| <= start
    ensures ParseUpTo(lines, start, |lines|) == Ok(Parse([], false))
  {
  }

  predicate NoPhaseWithin(lines: seq<string>, h: nat, n: nat)
    requires n <= |lines|
  {
    forall j :: h < j < n ==> !IsPhase(lines[j])
  }

  predicate NoMaybeWithin(lines: seq<string>, h: nat, n: nat)
    requires n <= |lines|
  {
    forall j :: h < j < n ==> !IsMaybe(lines[j])
  }

  /** Line `i` is above the experimental section, under a `Maybe` heading that no phase has followed. */
  predicate UnderEarlyMaybe(lines: seq<string>, start: nat, end: nat, i: nat)
    requires i < |lines|
  {
    i < end && exists h :: start < h < i && IsMaybe(lines[h]) && NoPhaseWithin(lines, h, i)
  }

  /** Line `i` is under the experimental section's heading repeated below the start after a phase, with neither a phase
      nor a `Maybe` heading since that phase. */
  predicate UnderRepeat(lines: seq<string>, start: nat, end: nat, i: nat)
    requires i < |lines|
  {
    exists p, h :: end < p < h < i && start < h && IsPhase(lines[p]) && IsEnd(lines[h])
                   && NoPhaseWithin(lines, p, i) && NoMaybeWithin(lines, p, i)
  }

  lemma {:induction false} ExperimentalIff(lines: seq<string>, start: nat, n: nat)
    requires n <= |lines|
    ensures Experimental(lines, start, n)
            <==> exists h :: start < h < n && (IsMaybe(lines[h]) || IsEnd(lines[h])) && NoPhaseWithin(lines, h, n)
  {
    hide IsPhase, IsMaybe, IsEnd;
    if n > start + 1 {
      KindsAreDisjoint(lines[n - 1]);
      ExperimentalIff(lines, start, n - 1);
      assert forall h :: start < h < n - 1 && !IsPhase(lines[n - 1]) ==>
          (NoPhaseWithin(lines, h, n) <==> NoPhaseWithin(lines, h, n - 1));
      if IsPhase(lines[n - 1]) {
        assert forall h :: start < h < n - 1 ==> !NoPhaseWithin(lines, h, n);
      } else if IsMaybe(lines[n - 1]) || IsEnd(lines[n - 1]) {
        assert NoPhaseWithin(lines, n - 1, n);
      }
    }
  }

  /** The boxes after the experimental heading that are not parked: those whose last heading of either kind since then
      is a phase. */
  lemma {:induction false} NotParkingIff(lines: seq<string>, end: nat, n: nat)
    requires n <= |lines| && end < n && IsEnd(lines[end])
    ensures !Parking(lines, end, n)
            <==> exists p :: end < p < n && IsPhase(lines[p])
                             && NoPhaseWithin(lines, p, n) && NoMaybeWithin(lines, p, n)
  {
    hide IsPhase, IsMaybe, IsEnd;
    KindsAreDisjoint(lines[end]);
    KindsAreDisjoint(lines[n - 1]);
    if n - 1 > end {
      NotParkingIff(lines, end, n - 1);
      assert forall p :: end < p < n - 1 ==>
          (NoPhaseWithin(lines, p, n) <==> NoPhaseWithin(lines, p, n - 1) && !IsPhase(lines[n - 1]));
      assert forall p :: end < p < n - 1 ==>
          (NoMaybeWithin(lines, p, n) <==> NoMaybeWithin(lines, p, n - 1) && !IsMaybe(lines[n - 1]));
      if IsPhase(lines[n - 1]) {
        assert NoPhaseWithin(lines, n - 1, n) && NoMaybeWithin(lines, n - 1, n);
      }
    }
  }

  /** A box is lost exactly under a `Maybe` heading above the experimental section, or under that section's heading
      repeated below the start after a phase, before any other phase or `Maybe` heading. */
  lemma LostIff(lines: seq<string>, start: nat, end: nat, i: nat)
    requires i < |lines| && (end < |lines| ==> IsEnd(lines[end]))
    requires forall j :: start < j < end && j < |lines| ==> !IsEnd(lines[j])
    ensures Lost(lines, start, end, i)
            <==> (start < i && IsUnticked(lines[i])
                  && (UnderEarlyMaybe(lines, start, end, i) || UnderRepeat(lines, start, end, i)))
  {
    hide IsPhase, IsMaybe, IsEnd, IsTicked, Experimental, Parking, NoPhaseWithin, NoMaybeWithin, UnderRepeat;
    if start < i && IsUnticked(lines[i]) {
      KindsAreDisjoint(lines[i]);
      ExperimentalIff(lines, start, i + 1);
      NotAHeading(lines, i);
      if i < end {
        NotYetParking(lines, end, i + 1);
        NoRepeatYet(lines, start, end, i);
      } else if i > end {
        NotParkingIff(lines, end, i + 1);
        LostLaterIff(lines, start, end, i);
      }
    }
  }

  lemma NotAHeading(lines: seq<string>, i: nat)
    requires i < |lines| && !IsPhase(lines[i]) && !IsMaybe(lines[i])
    ensures forall h: nat :: NoPhaseWithin(lines, h, i + 1) <==> NoPhaseWithin(lines, h, i)
    ensures forall h: nat :: NoMaybeWithin(lines, h, i + 1) <==> NoMaybeWithin(lines, h, i)
  {
    hide IsPhase, IsMaybe;
  }

  lemma NoRepeatYet(lines: seq<string>, start: nat, end: nat, i: nat)
    requires i < |lines| && i <= end
    ensures !UnderRepeat(lines, start, end, i)
  {
    hide IsPhase, IsMaybe, IsEnd;
  }

  lemma LostLaterIff(lines: seq<string>, start: nat, end: nat, i: nat)
    requires end <= i < |lines| && start < i && IsEnd(lines[end])
    ensures UnderRepeat(lines, start, end, i)
            <==> && (exists h :: start < h < i && (IsMaybe(lines[h]) || IsEnd(lines[h])) && NoPhaseWithin(lines, h, i))
                 && (exists p :: end < p < i && IsPhase(lines[p])
                                 && NoPhaseWithin(lines, p, i) && NoMaybeWithin(lines, p, i))
  {
    hide IsPhase, IsMaybe, IsEnd;
    if UnderRepeat(lines, start, end, i) {
      var p, h :| end < p < h < i && start < h && IsPhase(lines[p]) && IsEnd(lines[h])
                  && NoPhaseWithin(lines, p, i) && NoMaybeWithin(lines, p, i);
      assert NoPhaseWithin(lines, h, i);
    }
    if h, p :|
      && start < h < i && (IsMaybe(lines[h]) || IsEnd(lines[h])) && NoPhaseWithin(lines, h, i)
      && end < p < i && IsPhase(lines[p]) && NoPhaseWithin(lines, p, i) && NoMaybeWithin(lines, p, i)
    {
      KindsAreDisjoint(lines[h]);
      assert h != p;
      assert h > p;
    }
  }

  lemma {:induction false} NoneLost(lines: seq<string>, start: nat, end: nat, n: nat)
    requires n <= |lines|
    ensures LostUpTo(lines, start, end, n) == 0 <==> forall i :: 0 <= i < n ==> !Lost(lines, start, end, i)
  {
    hide Experimental, Parking;
    if n > 0 {
      NoneLost(lines, start, end, n - 1);
    }
  }

  /** Where a box can be lost: under a `Maybe` heading above the experimental section, or after that section's heading
      is repeated. Without either, every box is counted. */
  lemma {:induction false} LostOnlyThere(lines: seq<string>, start: nat, end: nat, n: nat)
    requires n <= |lines| && start < end
    requires end < |lines| ==> IsEnd(lines[end])
    requires forall i :: start < i < end && i < |lines| ==> !IsMaybe(lines[i]) && !IsEnd(lines[i])
    requires forall i :: end < i < |lines| ==> !IsEnd(lines[i])
    ensures Experimental(lines, start, n) <==> Parking(lines, end, n)
  {
    hide IsPhase, IsMaybe, IsEnd;
    if n > 0 {
      KindsAreDisjoint(lines[n - 1]);
      LostOnlyThere(lines, start, end, n - 1);
    }
  }

  lemma OrdinaryMapsAreConserved(lines: seq<string>, start: nat, end: nat)
    requires start < end && (end < |lines| ==> IsEnd(lines[end]))
    requires forall i :: start < i < end && i < |lines| ==> !IsMaybe(lines[i]) && !IsEnd(lines[i])
    requires forall i :: end < i < |lines| ==> !IsEnd(lines[i])
    requires ParseUpTo(lines, start, |lines|).Ok?
    ensures Conserved(lines, start, end)
  {
    hide IsPhase, IsMaybe, IsEnd, Conserved, Lost, LostUpTo, ParkedUpTo, ParseUpTo;
    ConservedIff(lines, start, end);
    forall i | 0 <= i < |lines|
      ensures !Lost(lines, start, end, i)
    {
      NotLostThere(lines, start, end, i);
    }
  }

  lemma NotLostThere(lines: seq<string>, start: nat, end: nat, i: nat)
    requires start < end && (end < |lines| ==> IsEnd(lines[end]))
    requires forall i :: start < i < end && i < |lines| ==> !IsMaybe(lines[i]) && !IsEnd(lines[i])
    requires forall i :: end < i < |lines| ==> !IsEnd(lines[i])
    requires i < |lines|
    ensures !Lost(lines, start, end, i)
  {
    hide IsPhase, IsMaybe, IsEnd, Experimental, Parking;
    LostOnlyThere(lines, start, end, i + 1);
  }

  /** A box that is lost: under a `Maybe` heading, with no experimental section below it. */
  lemma BoxCanBeLost()
    ensures
      var lines := [SLICE_START_HEADING, "Maybe X \U{2014} y", [UNTICKED]];
      IsHeading(lines[0], SLICE_START_HEADING) && Lost(lines, 0, 3, 2)
  {
    hide Strip, IsPhase, IsEnd, Experimental, Parking;
    var maybe := "Maybe X \U{2014} y";
    var lines := [SLICE_START_HEADING, maybe, [UNTICKED]];
    TightIsStripped(SLICE_START_HEADING);
    assert IsMaybe(maybe) by {
      assert maybe[..6] == "Maybe " && maybe[7..10] == [' ', DASH, ' '];
    }
    KindsAreDisjoint(lines[2]);
    assert UnderEarlyMaybe(lines, 0, 3, 2) by {
      assert NoPhaseWithin(lines, 1, 2);
    }
    assert !IsEnd(lines[1]) by { KindsAreDisjoint(lines[1]); }
    LostIff(lines, 0, 3, 2);
  }

  // ---------------------------------------------------------------- what each phase is given

  /** Line `i` is not in an experimental stretch. */
  predicate Mandatory(lines: seq<string>, start: nat, i: nat)
    requires i < |lines|
  {
    !Experimental(lines, start, i + 1)
  }

  /** The boxes between two lines that are not experimental, and those of them that are ticked. */
  function BoxesIn(lines: seq<string>, start: nat, lo: nat, hi: nat): set<nat>
    requires hi <= |lines|
  {
    set i: nat | lo < i < hi && (IsTicked(lines[i]) || IsUnticked(lines[i])) && Mandatory(lines, start, i)
  }

  function TickedIn(lines: seq<string>, start: nat, lo: nat, hi: nat): set<nat>
    requires hi <= |lines|
  {
    set i: nat | lo < i < hi && IsTicked(lines[i]) && Mandatory(lines, start, i)
  }

  predicate GatedIn(lines: seq<string>, start: nat, lo: nat, hi: nat)
    requires hi <= |lines|
  {
    exists i: nat :: lo <= i < hi && HasGate(lines[i]) && Mandatory(lines, start, i)
  }

  /** The phase that the heading on line `h` and the lines below it, up to `e`, make. */
  function PhaseFrom(lines: seq<string>, start: nat, h: nat, e: nat): Phase
    requires h < e <= |lines|
  {
    Phase(Strip(lines[h]), |TickedIn(lines, start, h, e)|, |BoxesIn(lines, start, h, e)|, GatedIn(lines, start, h, e))
  }

  lemma TickedGrows(lines: seq<string>, start: nat, h: nat, e: nat)
    requires h < e < |lines|
    ensures |TickedIn(lines, start, h, e + 1)|
            == |TickedIn(lines, start, h, e)| + if IsTicked(lines[e]) && Mandatory(lines, start, e) then 1 else 0
  {
    hide Mandatory, IsTicked;
    var before, now := TickedIn(lines, start, h, e), TickedIn(lines, start, h, e + 1);
    if IsTicked(lines[e]) && Mandatory(lines, start, e) {
      assert now == before + {e};
    } else {
      assert now == before;
    }
  }

  lemma BoxesGrow(lines: seq<string>, start: nat, h: nat, e: nat)
    requires h < e < |lines|
    ensures |BoxesIn(lines, start, h, e + 1)|
            == |BoxesIn(lines, start, h, e)|
               + if (IsTicked(lines[e]) || IsUnticked(lines[e])) && Mandatory(lines, start, e) then 1 else 0
  {
    hide Mandatory, IsTicked, IsUnticked;
    var before, now := BoxesIn(lines, start, h, e), BoxesIn(lines, start, h, e + 1);
    if (IsTicked(lines[e]) || IsUnticked(lines[e])) && Mandatory(lines, start, e) {
      assert now == before + {e};
    } else {
      assert now == before;
    }
  }

  lemma GateGrows(lines: seq<string>, start: nat, h: nat, e: nat)
    requires h < e < |lines|
    ensures GatedIn(lines, start, h, e + 1)
            <==> GatedIn(lines, start, h, e) || (HasGate(lines[e]) && Mandatory(lines, start, e))
  {
    hide Mandatory, HasGate;
  }

  /** What line `e` adds to the phase above it. */
  function Grown(phase: Phase, line: string, experimental: bool): Phase {
    if experimental then phase
    else
      phase.(done := phase.done + (if IsTicked(line) then 1 else 0),
             total := phase.total + (if IsTicked(line) || IsUnticked(line) then 1 else 0),
             gate := phase.gate || HasGate(line))
  }

  lemma PhaseGrows(lines: seq<string>, start: nat, h: nat, e: nat)
    requires h < e < |lines|
    ensures PhaseFrom(lines, start, h, e + 1)
            == Grown(PhaseFrom(lines, start, h, e), lines[e], !Mandatory(lines, start, e))
  {
    hide Mandatory, HasGate, IsTicked, IsUnticked, TickedIn, BoxesIn, GatedIn, Strip;
    TickedGrows(lines, start, h, e);
    BoxesGrow(lines, start, h, e);
    GateGrows(lines, start, h, e);
  }

  lemma PhaseStarts(lines: seq<string>, start: nat, h: nat)
    requires start < h < |lines| && IsPhase(lines[h])
    ensures PhaseFrom(lines, start, h, h + 1) == Phase(Strip(lines[h]), 0, 0, HasGate(lines[h]))
  {
    hide HasGate, IsPhase, IsTicked, IsUnticked, Strip;
    assert TickedIn(lines, start, h, h + 1) == {} && BoxesIn(lines, start, h, h + 1) == {};
    assert !Experimental(lines, start, h + 1);
  }

  predicate LastGrew(phases: seq<Phase>, later: seq<Phase>, line: string, experimental: bool) {
    && |later| == |phases|
    && (forall k :: 0 <= k < |phases| - 1 ==> later[k] == phases[k])
    && (phases != [] ==> later[|phases| - 1] == Grown(phases[|phases| - 1], line, experimental))
  }

  /** What one line does to the phases, told apart from how it is read. */
  lemma ParseLineIs(p: Parse, line: string)
    requires ParseLine(p, line).Ok?
    ensures
      var q := ParseLine(p, line).value;
      if IsPhase(line) then q.phases == p.phases + [Phase(Strip(line), 0, 0, HasGate(line))]
      else LastGrew(p.phases, q.phases, line, q.experimental)
  {
    hide HasGate, Strip, IsPhase, IsMaybe, IsEnd, IsTicked, IsUnticked;
    KindsAreDisjoint(line);
  }

  /** `heads` are the phase headings after `start` and before `n`, in order. */
  predicate AreHeads(lines: seq<string>, start: nat, n: nat, heads: seq<nat>)
    requires n <= |lines|
  {
    && (forall k :: 0 <= k < |heads| ==> start < heads[k] < n && IsPhase(lines[heads[k]]))
    && (forall k, l :: 0 <= k < l < |heads| ==> heads[k] < heads[l])
    && (forall j: nat :: start < j < n && IsPhase(lines[j]) ==> j in heads)
  }

  /** Where the part of phase `k` ends. */
  function EndOf(heads: seq<nat>, k: nat, n: nat): nat
    requires k < |heads|
  {
    if k + 1 < |heads| then heads[k + 1] else n
  }

  /** Each phase is what its heading and the lines down to the next heading make. */
  predicate ArePhases(lines: seq<string>, start: nat, n: nat, heads: seq<nat>, phases: seq<Phase>) {
    |phases| == |heads|
    && forall k: nat :: k < |heads| ==>
         && heads[k] < EndOf(heads, k, n) <= |lines|
         && phases[k] == PhaseFrom(lines, start, heads[k], EndOf(heads, k, n))
  }

  /** One more line, a phase heading. */
  lemma HeadingAdds(lines: seq<string>, start: nat, n: nat, heads: seq<nat>, phases: seq<Phase>)
    requires start < n < |lines| && IsPhase(lines[n])
    requires AreHeads(lines, start, n, heads) && ArePhases(lines, start, n, heads, phases)
    ensures AreHeads(lines, start, n + 1, heads + [n])
    ensures ArePhases(lines, start, n + 1, heads + [n], phases + [Phase(Strip(lines[n]), 0, 0, HasGate(lines[n]))])
  {
    hide IsPhase, PhaseFrom, HasGate, Strip;
    PhaseStarts(lines, start, n);
    var more := heads + [n];
    forall j: nat | start < j < n + 1 && IsPhase(lines[j])
      ensures j in more
    {
      if j < n {
        assert j in heads;
      }
    }
  }

  /** One more line of another kind. */
  lemma LineAdds(lines: seq<string>, start: nat, n: nat, heads: seq<nat>, phases: seq<Phase>, later: seq<Phase>)
    requires start < n < |lines| && !IsPhase(lines[n])
    requires LastGrew(phases, later, lines[n], !Mandatory(lines, start, n))
    requires AreHeads(lines, start, n, heads) && ArePhases(lines, start, n, heads, phases)
    ensures AreHeads(lines, start, n + 1, heads)
    ensures ArePhases(lines, start, n + 1, heads, later)
  {
    hide IsPhase, PhaseFrom, Grown, Mandatory, AreHeads;
    HeadsStay(lines, start, n, heads);
    forall k: nat | k < |heads|
      ensures heads[k] < EndOf(heads, k, n + 1) <= |lines|
      ensures later[k] == PhaseFrom(lines, start, heads[k], EndOf(heads, k, n + 1))
    {
      if k == |heads| - 1 {
        PhaseGrows(lines, start, heads[k], n);
      }
    }
  }

  lemma HeadsStay(lines: seq<string>, start: nat, n: nat, heads: seq<nat>)
    requires start < n < |lines| && !IsPhase(lines[n]) && AreHeads(lines, start, n, heads)
    ensures AreHeads(lines, start, n + 1, heads)
  {
    hide IsPhase;
  }

  /** There is one phase for each phase heading after the start, in order, under that heading's text. It is given the
      boxes down to the next phase heading that are not experimental, of them the ticked ones as done, and it is a gate
      exactly when one of those lines, its heading included, says so. */
  lemma {:induction false} PhasesAre(lines: seq<string>, start: nat, n: nat) returns (heads: seq<nat>)
    requires start < n <= |lines| && ParseUpTo(lines, start, n).Ok?
    ensures AreHeads(lines, start, n, heads)
    ensures ArePhases(lines, start, n, heads, ParseUpTo(lines, start, n).value.phases)
    decreases n
  {
    hide ParseLine, IsPhase, PhaseFrom, Experimental, HasGate, Strip, LastGrew, ArePhases, AreHeads;
    if n == start + 1 {
      heads := [];
      NoPhases(lines, start, n);
    } else {
      var line := lines[n - 1];
      heads := PhasesAre(lines, start, n - 1);
      var p := ParseUpTo(lines, start, n - 1).value;
      ParseFlag(lines, start, n - 1);
      ParseLineFlag(p, lines, start, n);
      ParseLineIs(p, line);
      if IsPhase(line) {
        HeadingAdds(lines, start, n - 1, heads, p.phases);
        heads := heads + [n - 1];
      } else {
        LineAdds(lines, start, n - 1, heads, p.phases, ParseLine(p, line).value.phases);
      }
    }
  }

  lemma NoPhases(lines: seq<string>, start: nat, n: nat)
    requires n == start + 1 <= |lines|
    ensures AreHeads(lines, start, n, []) && ArePhases(lines, start, n, [], [])
  {
  }

  lemma {:induction false} ParseFlag(lines: seq<string>, start: nat, n: nat)
    requires start < n <= |lines| && ParseUpTo(lines, start, n).Ok?
    ensures ParseUpTo(lines, start, n).value.experimental == Experimental(lines, start, n)
    decreases n
  {
    hide ParseLine, Experimental;
    if n == start + 1 {
      NotYetExperimental(lines, start, n);
    } else {
      ParseFlag(lines, start, n - 1);
      ParseLineFlag(ParseUpTo(lines, start, n - 1).value, lines, start, n);
    }
  }

  /** A box that no phase heading precedes, and that is not experimental. */
  predicate Homeless(lines: seq<string>, start: nat, i: nat)
    requires i < |lines|
  {
    && start < i && (IsTicked(lines[i]) || IsUnticked(lines[i])) && Mandatory(lines, start, i)
    && NoPhaseWithin(lines, start, i)
  }

  /** The map is refused exactly when some box stands before the first phase heading. */
  lemma {:induction false} RefusedIff(lines: seq<string>, start: nat, n: nat)
    requires start < n <= |lines|
    ensures ParseUpTo(lines, start, n).Error? <==> exists i: nat :: i < n && Homeless(lines, start, i)
    decreases n
  {
    hide ParseLine, Homeless, IsPhase;
    if n == start + 1 {
      assert forall i: nat :: i < n ==> !Homeless(lines, start, i) by { NoneAtTheStart(lines, start); }
    } else {
      RefusedIff(lines, start, n - 1);
      if ParseUpTo(lines, start, n - 1).Ok? {
        RefusedHere(lines, start, n - 1);
      }
    }
  }

  lemma NoneAtTheStart(lines: seq<string>, start: nat)
    ensures forall i: nat :: i <= start && i < |lines| ==> !Homeless(lines, start, i)
  {
  }

  lemma RefusedHere(lines: seq<string>, start: nat, n: nat)
    requires start < n < |lines| && ParseUpTo(lines, start, n).Ok?
    ensures ParseLine(ParseUpTo(lines, start, n).value, lines[n]).Error? <==> Homeless(lines, start, n)
  {
    hide IsPhase, IsMaybe, IsEnd, HasGate, Strip, PhaseFrom, IsTicked, IsUnticked;
    var p := ParseUpTo(lines, start, n).value;
    ParseFlag(lines, start, n);
    KindsAreDisjoint(lines[n]);
    var heads := PhasesAre(lines, start, n);
    assert heads == [] <==> NoPhaseWithin(lines, start, n) by {
      assert heads != [] ==> IsPhase(lines[heads[0]]);
      assert forall j: nat :: start < j < n && IsPhase(lines[j]) ==> j in heads;
    }
  }

  // ---------------------------------------------------------------- the bar

  function Filled(done: nat, total: nat, width: nat): nat {
    if total > 0 then done * width / total else 0
  }

  /** `filled` is to `width` what `done` is to `total`, rounded down. */
  predicate IsShare(filled: nat, done: nat, total: nat, width: nat) {
    filled * total <= done * width < (filled + 1) * total
  }

  function Bar(done: nat, total: nat, width: nat): string {
    var filled := Filled(done, total, width);
    seq(filled, _ => FILLED) + seq(if filled <= width then width - filled else 0, _ => EMPTY)
  }

  /** Exactly `width` cells, filled from the left, and all of them only when everything is done. */
  lemma BarIsHonest(done: nat, total: nat, width: nat)
    requires done <= total && width > 0
    ensures |Bar(done, total, width)| == width
    ensures total == 0 ==> forall i :: 0 <= i < width ==> Bar(done, total, width)[i] == EMPTY
    ensures total > 0 ==> ((forall i :: 0 <= i < width ==> Bar(done, total, width)[i] == FILLED) <==> done == total)
    ensures
      forall i, j :: 0 <= i < j < width && Bar(done, total, width)[j] == FILLED ==> Bar(done, total, width)[i] == FILLED
    ensures total > 0 ==> exists filled: nat ::
      && IsShare(filled, done, total, width)
      && forall i :: 0 <= i < width ==> Bar(done, total, width)[i] == if i < filled then FILLED else EMPTY
  {
    hide Filled;
    FilledIsBounded(done, total, width);
    if total > 0 {
      FilledIsTheQuotient(done, total, width);
    }
    if 0 < total && done < total {
      assert Bar(done, total, width)[width - 1] == EMPTY;
    }
  }

  lemma FilledIsTheQuotient(done: nat, total: nat, width: nat)
    requires total > 0
    ensures IsShare(Filled(done, total, width), done, total, width)
  {
    Quotient(done * width, total);
  }

  lemma FilledIsBounded(done: nat, total: nat, width: nat)
    requires done <= total && width > 0
    ensures Filled(done, total, width) <= width
    ensures total == 0 ==> Filled(done, total, width) == 0
    ensures total > 0 ==> (Filled(done, total, width) == width <==> done == total)
  {
    if total > 0 {
      var filled := Filled(done, total, width);
      Quotient(done * width, total);
      Times(done, total, width);
      if done < total {
        Times(done + 1, total, width);
        assert (done + 1) * width == done * width + width;
        FactorBelow(filled, width, total);
      } else {
        FactorBelow(filled, width + 1, total);
        FactorBelow(width, filled + 1, total);
      }
    }
  }

  lemma Times(a: nat, b: nat, c: nat)
    requires a <= b
    ensures a * c <= b * c
  {
  }

  lemma FactorBelow(a: nat, b: nat, c: nat)
    requires a * c < b * c
    ensures a < b
  {
    if b <= a {
      Times(b, a, c);
    }
  }

  lemma Quotient(a: nat, b: nat)
    requires b > 0
    ensures a / b * b <= a < (a / b + 1) * b
  {
    assert a == a / b * b + a % b;
  }
}
