/** The partition gate of `scripts/validate_round.py`: no path may be claimed by two packets of a round, unless both
    declare it as a co-edit. `fnmatch` is a parameter wherever the code consults it. */
module Partition {
  import opened Text

  // ---------------------------------------------------------------- patterns

  datatype Kind = Exact | DirGlob | RootGlob | Glob

  function PatternKind(pattern: string): (k: (Kind, string)) {
    if EndsWith(pattern, "/**") then (DirGlob, pattern[..|pattern| - 3])
    else if '*' in pattern && '/' !in pattern then (RootGlob, pattern)
    else if '*' in pattern then (Glob, pattern)
    else (Exact, pattern)
  }

  type Fnmatch = (string, string) -> bool

  function PatternsOverlap(fnmatch: Fnmatch, a: string, b: string): bool {
    var (ka, pa) := PatternKind(a);
    var (kb, pb) := PatternKind(b);
    if ka == Exact && kb == Exact then
      pa == pb
    else if ka == DirGlob || kb == DirGlob then
      var (dir, other, kind) := if ka == DirGlob then (pa, pb, kb) else (pb, pa, ka);
      match kind
      case DirGlob => dir == other || StartsWith(dir, other + "/") || StartsWith(other, dir + "/")
      case RootGlob => false
      case Glob => StartsWith(other, dir + "/") || fnmatch(dir, other)
      case Exact => other == dir || StartsWith(other, dir + "/")
    else if ka == RootGlob || kb == RootGlob then
      var (root, other, kind) := if ka == RootGlob then (pa, pb, kb) else (pb, pa, ka);
      if kind != Exact || '/' in other then kind == RootGlob && pa == pb
      else fnmatch(other, root)
    else
      var (glob, other) := if ka == Glob then (pa, pb) else (pb, pa);
      fnmatch(other, glob) || other == glob
  }

  /** An exact path, or everything at and below a directory. */
  predicate IsSimple(pattern: string) {
    PatternKind(pattern).0.Exact? || PatternKind(pattern).0.DirGlob?
  }

  /** The paths a simple pattern claims. */
  predicate Claims(pattern: string, path: string)
    requires IsSimple(pattern)
  {
    var (kind, base) := PatternKind(pattern);
    path == base || (kind == DirGlob && StartsWith(path, base + "/"))
  }

  ghost predicate SharePath(a: string, b: string)
    requires IsSimple(a) && IsSimple(b)
  {
    exists path :: Claims(a, path) && Claims(b, path)
  }

  /** Two directories above one path are comparable. */
  lemma PrefixesCompare(path: string, d: string, e: string)
    requires StartsWith(path, d + "/") && StartsWith(path, e + "/")
    requires |d| <= |e|
    ensures d == e || StartsWith(e, d + "/")
  {
    assert path[..|d| + 1] == d + "/" && path[..|e| + 1] == e + "/";
    assert e == path[..|e|];
    if |d| < |e| {
      assert e[..|d| + 1] == path[..|d| + 1];
    } else {
      assert d == path[..|d|];
    }
  }

  /** The gate's overlap test is exact: it holds if and only if some path is claimed by both. */
  lemma OverlapIsASharedPath(fnmatch: Fnmatch, a: string, b: string)
    requires IsSimple(a) && IsSimple(b)
    ensures PatternsOverlap(fnmatch, a, b) <==> SharePath(a, b)
  {
    var (ka, pa) := PatternKind(a);
    var (kb, pb) := PatternKind(b);
    if PatternsOverlap(fnmatch, a, b) {
      var path := if |pa| >= |pb| then pa else pb;
      assert Claims(a, path) && Claims(b, path);
    }
    if SharePath(a, b) {
      var path :| Claims(a, path) && Claims(b, path);
      if path != pa && path != pb {
        if |pa| <= |pb| {
          PrefixesCompare(path, pa, pb);
        } else {
          PrefixesCompare(path, pb, pa);
        }
      }
    }
  }

  /** It is symmetric for all kinds of pattern but one: two different globs are each matched as a name against the
      other, in one direction only. */
  lemma OverlapIsSymmetric(fnmatch: Fnmatch, a: string, b: string)
    ensures
      PatternsOverlap(fnmatch, a, b) == PatternsOverlap(fnmatch, b, a)
      <==>
      !(PatternKind(a).0.Glob? && PatternKind(b).0.Glob? && a != b && fnmatch(a, b) != fnmatch(b, a))
  {
  }

  /** A directory pattern claims the directory and everything below it, and a pattern without a star itself alone. */
  lemma PatternClaims(pattern: string, path: string)
    ensures && IsSimple(pattern + "/**")
            && (Claims(pattern + "/**", path) <==> path == pattern || StartsWith(path, pattern + "/"))
    ensures '*' !in pattern ==> IsSimple(pattern) && (Claims(pattern, path) <==> path == pattern)
  {
    var whole := pattern + "/**";
    assert whole[|whole| - 3..] == "/**" && whole[..|whole| - 3] == pattern;
    if '*' !in pattern {
      StarlessIsExact(pattern);
    }
  }

  lemma DirectoryHasStar(pattern: string)
    requires EndsWith(pattern, "/**")
    ensures '*' in pattern && '/' in pattern
  {
    assert pattern[|pattern| - 1] == "/**"[2] && pattern[|pattern| - 3] == "/**"[0];
  }

  lemma StarlessIsExact(pattern: string)
    requires '*' !in pattern
    ensures PatternKind(pattern) == (Exact, pattern)
  {
    if EndsWith(pattern, "/**") {
      DirectoryHasStar(pattern);
    }
  }

  predicate IsRoot(pattern: string) {
    '*' in pattern && '/' !in pattern
  }

  predicate IsGeneral(pattern: string) {
    '*' in pattern && '/' in pattern && !EndsWith(pattern, "/**")
  }

  /** Globs are left to `fnmatch`: a root glob is matched with paths of the root alone, a general one with any path, and
      with a directory by what it is spelled below or by what it matches. */
  lemma GlobsOverlap(fnmatch: Fnmatch, g: string, other: string)
    requires IsRoot(g) || IsGeneral(g)
    ensures '*' !in other && IsRoot(g) ==> (PatternsOverlap(fnmatch, g, other) <==> '/' !in other && fnmatch(other, g))
    ensures '*' !in other && IsGeneral(g) ==> (PatternsOverlap(fnmatch, g, other) <==> fnmatch(other, g))
    ensures IsRoot(g) && IsRoot(other) ==> (PatternsOverlap(fnmatch, g, other) <==> g == other)
    ensures IsRoot(g) && IsGeneral(other) ==> !PatternsOverlap(fnmatch, g, other)
    ensures IsGeneral(g) && IsGeneral(other)
            ==> (PatternsOverlap(fnmatch, g, other) <==> fnmatch(other, g) || g == other)
  {
    KindsOf(g);
    if '*' !in other {
      StarlessIsExact(other);
      assert other != g;
    } else if IsRoot(other) || IsGeneral(other) {
      KindsOf(other);
    }
  }

  lemma KindsOf(g: string)
    requires IsRoot(g) || IsGeneral(g)
    ensures PatternKind(g) == (if IsRoot(g) then RootGlob else Glob, g)
  {
    if EndsWith(g, "/**") {
      DirectoryHasStar(g);
    }
  }

  lemma DirectoryOverlapsGlob(fnmatch: Fnmatch, d: string, g: string)
    requires IsRoot(g) || IsGeneral(g)
    ensures PatternsOverlap(fnmatch, d + "/**", g) <==> IsGeneral(g) && (StartsWith(g, d + "/") || fnmatch(d, g))
    ensures PatternsOverlap(fnmatch, g, d + "/**") <==> PatternsOverlap(fnmatch, d + "/**", g)
  {
    KindsOf(g);
    var whole := d + "/**";
    assert whole[|whole| - 3..] == "/**" && whole[..|whole| - 3] == d;
  }

  // ---------------------------------------------------------------- packets

  datatype Claim = Claim(line: nat, pattern: string, isNew: bool, exception: Option<string>)

  datatype Packet = Packet(path: string, lines: seq<string>, yours: seq<Claim>)

  predicate MatchesException(path: string, exc: string) {
    path == exc || EndsWith(path, "/" + exc) || EndsWith(exc, "/" + path)
  }

  predicate Excepts(claim: Claim, path: string) {
    claim.exception.Some? && MatchesException(path, claim.exception.value)
  }

  // ---------------------------------------------------------------- what an exception covers

  /** The segments of a path, between its slashes. */
  function Segments(path: string): (segments: seq<string>)
    ensures segments != []
  {
    if path == "" then [""]
    else
      var rest := Segments(path[1..]);
      if path[0] == '/' then [""] + rest else [[path[0]] + rest[0]] + rest[1..]
  }

  function Joined(segments: seq<string>): string
    requires segments != []
  {
    if |segments| == 1 then segments[0] else segments[0] + "/" + Joined(segments[1..])
  }

  lemma {:induction false} JoinedSegments(path: string)
    ensures Joined(Segments(path)) == path
  {
    if path != "" {
      JoinedSegments(path[1..]);
      var rest := Segments(path[1..]);
      var all := Segments(path);
      if path[0] == '/' {
        assert all[1..] == rest;
      } else {
        assert all[1..] == rest[1..];
      }
    }
  }

  lemma {:induction false} SegmentsBelow(directory: string, path: string)
    ensures Segments(directory + "/" + path) == Segments(directory) + Segments(path)
  {
    var whole := directory + "/" + path;
    if directory == "" {
      assert whole[1..] == path;
    } else {
      assert whole[1..] == directory[1..] + "/" + path;
      SegmentsBelow(directory[1..], path);
    }
  }

  lemma {:induction false} JoinedBelow(directory: seq<string>, path: seq<string>)
    requires directory != [] && path != []
    ensures Joined(directory + path) == Joined(directory) + "/" + Joined(path)
  {
    var whole := directory + path;
    assert whole[1..] == directory[1..] + path;
    if |directory| > 1 {
      JoinedBelow(directory[1..], path);
    } else {
      assert whole[1..] == path;
    }
  }

  /** `long` ends in the segments of `short`, after at least one more. */
  predicate EndsInSegments(long: string, short: string) {
    var (l, s) := (Segments(long), Segments(short));
    |s| < |l| && l[|l| - |s|..] == s
  }

  lemma EndsInSegmentsIff(long: string, short: string)
    ensures EndsInSegments(long, short) <==> EndsWith(long, "/" + short)
  {
    hide Segments, Joined;
    if EndsWith(long, "/" + short) {
      var directory := long[..|long| - |short| - 1];
      assert long == directory + "/" + short;
      SegmentsBelow(directory, short);
    }
    if EndsInSegments(long, short) {
      var (l, s) := (Segments(long), Segments(short));
      var directory := l[..|l| - |s|];
      assert l == directory + s;
      JoinedSegments(long);
      JoinedSegments(short);
      JoinedBelow(directory, s);
      assert long == Joined(directory) + ("/" + short);
    }
  }

  /** An exception covers a path exactly when the two are the same list of segments, or one is the end of the other. */
  lemma ExceptionCoversIff(path: string, exc: string)
    ensures MatchesException(path, exc)
            <==> Segments(path) == Segments(exc) || EndsInSegments(path, exc) || EndsInSegments(exc, path)
  {
    hide Segments, Joined, EndsInSegments;
    EndsInSegmentsIff(path, exc);
    EndsInSegmentsIff(exc, path);
    JoinedSegments(path);
    JoinedSegments(exc);
  }

  // ---------------------------------------------------------------- declarations

  function Token(s: string): string {
    if s == "" || IsSpace(s[0]) then "" else [s[0]] + Token(s[1..])
  }

  function Unquoted(s: string): string
    decreases |s|
  {
    if s != "" && s[0] == '`' then Unquoted(s[1..])
    else if s != "" && s[|s| - 1] == '`' then Unquoted(s[..|s| - 1])
    else s
  }

  const COEDIT: string := "COEDIT:"

  predicate HoldsText(line: string) {
    LStrip(line) != ""
  }

  /** The first line from `i` on that holds text. */
  function FirstText(lines: seq<string>, i: nat): (j: nat)
    requires i <= |lines|
    ensures i <= j <= |lines|
    ensures forall k :: i <= k < j ==> !HoldsText(lines[k])
    ensures j < |lines| ==> HoldsText(lines[j])
    decreases |lines| - i
  {
    hide HoldsText;
    if i < |lines| && !HoldsText(lines[i]) then FirstText(lines, i + 1) else i
  }

  /** The line starts a declaration. */
  predicate Opens(line: string) {
    StartsWith(LStrip(line), COEDIT)
  }

  /** What follows on the line that starts one. */
  function Rest(line: string): string
    requires Opens(line)
  {
    LStrip(LStrip(line)[|COEDIT|..])
  }

  function Named(text: string): string {
    Unquoted(Token(text))
  }

  /** The paths the lines declare. The expression runs over the whole text: a declaration that ends its line takes the
      first word of the next line with text, and that line starts no other. */
  function Coedits(lines: seq<string>, i: nat): seq<string>
    decreases |lines| - i
  {
    if i >= |lines| then []
    else if !Opens(lines[i]) then Coedits(lines, i + 1)
    else if Rest(lines[i]) != "" then [Named(Rest(lines[i]))] + Coedits(lines, i + 1)
    else
      var j := FirstText(lines, i + 1);
      if j == |lines| then [] else [Named(LStrip(lines[j]))] + Coedits(lines, j + 1)
  }

  predicate Declares(p: Packet, path: string) {
    path in Coedits(p.lines, 0)
  }

  predicate NoSpace(s: string) {
    forall i :: 0 <= i < |s| ==> !IsSpace(s[i])
  }

  predicate AllTicks(s: string) {
    forall i :: 0 <= i < |s| ==> s[i] == '`'
  }

  predicate Untick(s: string) {
    s == "" || (s[0] != '`' && s[|s| - 1] != '`')
  }

  lemma {:induction false} WordOf(word: string, tail: string)
    requires NoSpace(word) && (tail == "" || IsSpace(tail[0]))
    ensures Token(word + tail) == word
  {
    hide IsSpace;
    if word == "" {
      assert word + tail == tail;
    } else {
      assert (word + tail)[1..] == word[1..] + tail;
      WordOf(word[1..], tail);
    }
  }

  lemma {:induction false} UntickedOf(ticks: string, path: string, more: string)
    requires AllTicks(ticks) && AllTicks(more) && Untick(path)
    ensures Unquoted(ticks + path + more) == path
    decreases |ticks| + |more|
  {
    var whole := ticks + path + more;
    if ticks != "" {
      assert whole[1..] == ticks[1..] + path + more;
      UntickedOf(ticks[1..], path, more);
    } else if more != "" && path != "" {
      assert whole[..|whole| - 1] == ticks + path + more[..|more| - 1];
      UntickedOf(ticks, path, more[..|more| - 1]);
    } else if more != "" {
      assert whole[1..] == more[1..] + path + "";
      UntickedOf(more[1..], path, "");
    } else {
      assert whole == path;
    }
  }

  /** A line that declares a path: `COEDIT:` after whitespace at most, and after more whitespace at most the path, in
      any number of backticks, up to the next whitespace. */
  lemma LineDeclares(lead: string, gap: string, ticks: string, path: string, more: string, tail: string)
    requires AllSpace(lead) && AllSpace(gap) && AllTicks(ticks) && AllTicks(more)
    requires Untick(path) && NoSpace(path) && ticks + path + more != "" && (tail == "" || IsSpace(tail[0]))
    ensures var line := lead + (COEDIT + (gap + (ticks + path + more + tail)));
            Opens(line) && Rest(line) != "" && Named(Rest(line)) == path
  {
    hide IsSpace, Token, Unquoted, LStrip, AllSpace, AllTicks, NoSpace, Untick;
    var word := ticks + path + more;
    WordHasNoSpace(ticks, path, more);
    Declaration(lead, gap, word, tail);
    UntickedOf(ticks, path, more);
  }

  lemma Declaration(lead: string, gap: string, word: string, tail: string)
    requires AllSpace(lead) && AllSpace(gap) && NoSpace(word) && word != "" && (tail == "" || IsSpace(tail[0]))
    ensures var line := lead + (COEDIT + (gap + (word + tail)));
            Opens(line) && Rest(line) == word + tail && Token(Rest(line)) == word
  {
    hide IsSpace, Token, LStrip;
    var text := gap + (word + tail);
    var after := COEDIT + text;
    assert after[0] == 'C' && !IsSpace('C') by { TickIsNoSpace(); }
    LStripOf(lead, after);
    assert after[..|COEDIT|] == COEDIT && after[|COEDIT|..] == text;
    assert (word + tail)[0] == word[0];
    LStripOf(gap, word + tail);
    WordOf(word, tail);
  }

  lemma WordHasNoSpace(ticks: string, path: string, more: string)
    requires AllTicks(ticks) && AllTicks(more) && NoSpace(path)
    ensures NoSpace(ticks + path + more)
  {
    hide IsSpace;
    TickIsNoSpace();
  }

  lemma TickIsNoSpace()
    ensures !IsSpace('`') && !IsSpace('C')
  {
  }

  /** Where every declaration names its path on its own line, the declared paths are those the lines name, and no other
      line declares anything. */
  lemma {:induction false} DeclaredIff(lines: seq<string>, i: nat, path: string)
    requires forall k :: i <= k < |lines| && Opens(lines[k]) ==> Rest(lines[k]) != ""
    ensures path in Coedits(lines, i)
            <==> exists k :: i <= k < |lines| && Opens(lines[k]) && Named(Rest(lines[k])) == path
    decreases |lines| - i
  {
    hide Opens, Rest, Named;
    if i < |lines| {
      DeclaredIff(lines, i + 1, path);
    }
  }

  /** A declaration that ends its line takes its path from the next line with text. */
  lemma DeclaredAcross(lines: seq<string>, i: nat, j: nat)
    requires i < j < |lines| && Opens(lines[i]) && Rest(lines[i]) == ""
    requires HoldsText(lines[j]) && forall k :: i < k < j ==> !HoldsText(lines[k])
    ensures Coedits(lines, i) == [Named(LStrip(lines[j]))] + Coedits(lines, j + 1)
  {
    hide Opens, Rest, Named, LStrip, HoldsText;
    assert FirstText(lines, i + 1) == j;
  }

  datatype Declarer = Neither | OnlyFirst | OnlySecond

  /** Claim `x` of packet `i` collides with claim `y` of packet `j`. */
  datatype Finding = Finding(i: nat, j: nat, x: nat, y: nat, declared: Declarer)

  function Collision(fnmatch: Fnmatch, packets: seq<Packet>, i: nat, j: nat, x: nat, y: nat): (found: seq<Finding>)
    requires i < |packets| && j < |packets| && x < |packets[i].yours| && y < |packets[j].yours|
    ensures |found| <= 1
  {
    var a, b := packets[i], packets[j];
    var ca, cb := a.yours[x], b.yours[y];
    if Excepts(cb, ca.pattern) then []
    else if !PatternsOverlap(fnmatch, ca.pattern, cb.pattern) then []
    else if Declares(a, ca.pattern) && Declares(b, ca.pattern) then []
    else
      [Finding(i, j, x, y, if Declares(a, ca.pattern) then OnlyFirst
                           else if Declares(b, ca.pattern) then OnlySecond else Neither)]
  }

  function Row(fnmatch: Fnmatch, packets: seq<Packet>, i: nat, j: nat, x: nat, n: nat): seq<Finding>
    requires i < |packets| && j < |packets| && x < |packets[i].yours| && n <= |packets[j].yours|
  {
    if n == 0 then [] else Row(fnmatch, packets, i, j, x, n - 1) + Collision(fnmatch, packets, i, j, x, n - 1)
  }

  function Pair(fnmatch: Fnmatch, packets: seq<Packet>, i: nat, j: nat, n: nat): seq<Finding>
    requires i < |packets| && j < |packets| && n <= |packets[i].yours|
  {
    if n == 0 then []
    else Pair(fnmatch, packets, i, j, n - 1) + Row(fnmatch, packets, i, j, n - 1, |packets[j].yours|)
  }

  function Later(fnmatch: Fnmatch, packets: seq<Packet>, i: nat, n: nat): seq<Finding>
    requires i < |packets| && i < n <= |packets|
    decreases n
  {
    if n == i + 1 then []
    else Later(fnmatch, packets, i, n - 1) + Pair(fnmatch, packets, i, n - 1, |packets[i].yours|)
  }

  /** Every collision in the order the gate reports them, of the first `n` packets with the later ones. */
  function Collisions(fnmatch: Fnmatch, packets: seq<Packet>, n: nat): seq<Finding>
    requires n <= |packets|
  {
    if n == 0 then [] else Collisions(fnmatch, packets, n - 1) + Later(fnmatch, packets, n - 1, |packets|)
  }

  /** The innermost step of the gate: claim `x` of packet `i` against claim `y` of packet `j`. */
  method CheckClaims(fnmatch: Fnmatch, packets: seq<Packet>, i: nat, j: nat, x: nat, y: nat)
    returns (found: seq<Finding>)
    requires i < |packets| && j < |packets| && x < |packets[i].yours| && y < |packets[j].yours|
    ensures found == Collision(fnmatch, packets, i, j, x, y)
  {
    hide PatternsOverlap, MatchesException, Declares;
    found := [];
    var a, b := packets[i], packets[j];
    var ca, cb := a.yours[x], b.yours[y];
    if cb.exception.Some? && MatchesException(ca.pattern, cb.exception.value) {
      return;
    }
    if PatternsOverlap(fnmatch, ca.pattern, cb.pattern) {
      var byA, byB := Declares(a, ca.pattern), Declares(b, ca.pattern);
      if byA && byB {
        return;
      }
      var declared := Neither;
      if byA || byB {
        declared := if byA then OnlyFirst else OnlySecond;
      }
      found := [Finding(i, j, x, y, declared)];
    }
  }

  /** Two packets, claim against claim. */
  method CheckPair(fnmatch: Fnmatch, packets: seq<Packet>, i: nat, j: nat) returns (found: seq<Finding>)
    requires i < |packets| && j < |packets|
    ensures found == Pair(fnmatch, packets, i, j, |packets[i].yours|)
  {
    hide Collision;
    found := [];
    for x := 0 to |packets[i].yours|
      invariant found == Pair(fnmatch, packets, i, j, x)
    {
      ghost var row := found;
      for y := 0 to |packets[j].yours|
        invariant found == row + Row(fnmatch, packets, i, j, x, y)
      {
        var collision := CheckClaims(fnmatch, packets, i, j, x, y);
        found := found + collision;
      }
    }
  }

  /** The gate. */
  method CheckPartitionsDisjoint(fnmatch: Fnmatch, packets: seq<Packet>, findings: seq<Finding>)
    returns (all: seq<Finding>)
    ensures all == findings + Collisions(fnmatch, packets, |packets|)
  {
    hide Pair;
    all := findings;
    for i := 0 to |packets|
      invariant all == findings + Collisions(fnmatch, packets, i)
    {
      for j := i + 1 to |packets|
        invariant all == findings + Collisions(fnmatch, packets, i) + Later(fnmatch, packets, i, j)
      {
        var found := CheckPair(fnmatch, packets, i, j);
        all := all + found;
      }
    }
  }

  // ---------------------------------------------------------------- the gate's verdict

  lemma {:induction false} RowIsClean(fnmatch: Fnmatch, packets: seq<Packet>, i: nat, j: nat, x: nat, n: nat)
    requires i < |packets| && j < |packets| && x < |packets[i].yours| && n <= |packets[j].yours|
    ensures Row(fnmatch, packets, i, j, x, n) == [] <==>
      forall y :: 0 <= y < n ==> Collision(fnmatch, packets, i, j, x, y) == []
  {
    hide Collision;
    if n > 0 {
      RowIsClean(fnmatch, packets, i, j, x, n - 1);
    }
  }

  lemma {:induction false} PairIsClean(fnmatch: Fnmatch, packets: seq<Packet>, i: nat, j: nat, n: nat)
    requires i < |packets| && j < |packets| && n <= |packets[i].yours|
    ensures Pair(fnmatch, packets, i, j, n) == [] <==>
      forall x, y :: 0 <= x < n && 0 <= y < |packets[j].yours| ==> Collision(fnmatch, packets, i, j, x, y) == []
  {
    hide Collision, Row;
    if n > 0 {
      PairIsClean(fnmatch, packets, i, j, n - 1);
      RowIsClean(fnmatch, packets, i, j, n - 1, |packets[j].yours|);
    }
  }

  predicate PairClean(fnmatch: Fnmatch, packets: seq<Packet>, i: nat, j: nat)
    requires i < |packets| && j < |packets|
  {
    forall x, y :: 0 <= x < |packets[i].yours| && 0 <= y < |packets[j].yours| ==>
      Collision(fnmatch, packets, i, j, x, y) == []
  }

  lemma {:induction false} LaterIsClean(fnmatch: Fnmatch, packets: seq<Packet>, i: nat, n: nat)
    requires i < |packets| && i < n <= |packets|
    ensures Later(fnmatch, packets, i, n) == [] <==> forall j :: i < j < n ==> PairClean(fnmatch, packets, i, j)
    decreases n
  {
    hide Collision, Pair, PairClean;
    if n > i + 1 {
      LaterIsClean(fnmatch, packets, i, n - 1);
      WholePairIsClean(fnmatch, packets, i, n - 1);
    }
  }

  lemma WholePairIsClean(fnmatch: Fnmatch, packets: seq<Packet>, i: nat, j: nat)
    requires i < |packets| && j < |packets|
    ensures PairClean(fnmatch, packets, i, j) <==> Pair(fnmatch, packets, i, j, |packets[i].yours|) == []
  {
    hide Collision, Pair;
    PairIsClean(fnmatch, packets, i, j, |packets[i].yours|);
  }

  lemma {:induction false} CollisionsAreClean(fnmatch: Fnmatch, packets: seq<Packet>, n: nat)
    requires n <= |packets|
    ensures Collisions(fnmatch, packets, n) == [] <==>
      forall i, j :: 0 <= i < n && i < j < |packets| ==> PairClean(fnmatch, packets, i, j)
  {
    hide PairClean, Later;
    if n > 0 {
      CollisionsAreClean(fnmatch, packets, n - 1);
      LaterIsClean(fnmatch, packets, n - 1, |packets|);
    }
  }

  /** Findings in the order of their packets and claims, each once. */
  predicate Precedes(f: Finding, g: Finding) {
    || f.i < g.i
    || (f.i == g.i && (f.j < g.j || (f.j == g.j && (f.x < g.x || (f.x == g.x && f.y < g.y)))))
  }

  predicate Sorted(found: seq<Finding>) {
    forall k, l :: 0 <= k < l < |found| ==> Precedes(found[k], found[l])
  }

  /** A finding of claim `x` of packet `i` against claim `y` of packet `j`. */
  predicate IsFound(fnmatch: Fnmatch, packets: seq<Packet>, f: Finding) {
    && f.i < f.j < |packets| && f.x < |packets[f.i].yours| && f.y < |packets[f.j].yours|
    && Collision(fnmatch, packets, f.i, f.j, f.x, f.y) == [f]
  }

  lemma CollisionIsNamed(fnmatch: Fnmatch, packets: seq<Packet>, i: nat, j: nat, x: nat, y: nat, f: Finding)
    requires i < j < |packets| && x < |packets[i].yours| && y < |packets[j].yours|
    ensures f in Collision(fnmatch, packets, i, j, x, y)
            <==> IsFound(fnmatch, packets, f) && f.i == i && f.j == j && f.x == x && f.y == y
  {
    hide PatternsOverlap, Declares, Excepts;
  }

  lemma {:induction false} RowHolds(
      fnmatch: Fnmatch, packets: seq<Packet>, i: nat, j: nat, x: nat, n: nat, f: Finding)
    requires i < j < |packets| && x < |packets[i].yours| && n <= |packets[j].yours|
    ensures f in Row(fnmatch, packets, i, j, x, n)
            <==> IsFound(fnmatch, packets, f) && f.i == i && f.j == j && f.x == x && f.y < n
  {
    hide Collision, IsFound;
    if n > 0 {
      RowHolds(fnmatch, packets, i, j, x, n - 1, f);
      CollisionIsNamed(fnmatch, packets, i, j, x, n - 1, f);
    }
  }

  lemma {:induction false} PairHolds(fnmatch: Fnmatch, packets: seq<Packet>, i: nat, j: nat, n: nat, f: Finding)
    requires i < j < |packets| && n <= |packets[i].yours|
    ensures f in Pair(fnmatch, packets, i, j, n) <==> IsFound(fnmatch, packets, f) && f.i == i && f.j == j && f.x < n
  {
    hide Row, Collision;
    if n > 0 {
      PairHolds(fnmatch, packets, i, j, n - 1, f);
      RowHolds(fnmatch, packets, i, j, n - 1, |packets[j].yours|, f);
    }
  }

  lemma {:induction false} LaterHolds(fnmatch: Fnmatch, packets: seq<Packet>, i: nat, n: nat, f: Finding)
    requires i < n <= |packets|
    ensures f in Later(fnmatch, packets, i, n) <==> IsFound(fnmatch, packets, f) && f.i == i && f.j < n
    decreases n
  {
    hide Pair, Collision;
    if n > i + 1 {
      LaterHolds(fnmatch, packets, i, n - 1, f);
      PairHolds(fnmatch, packets, i, n - 1, |packets[i].yours|, f);
    }
  }

  /** The gate reports every collision of a claim with one of a later packet, and nothing else. */
  lemma {:induction false} CollisionsAreAll(fnmatch: Fnmatch, packets: seq<Packet>, n: nat, f: Finding)
    requires n <= |packets|
    ensures f in Collisions(fnmatch, packets, n) <==> f.i < n && IsFound(fnmatch, packets, f)
  {
    hide Later, Collision;
    if n > 0 {
      CollisionsAreAll(fnmatch, packets, n - 1, f);
      LaterHolds(fnmatch, packets, n - 1, |packets|, f);
    }
  }

  lemma SortedOn(first: seq<Finding>, second: seq<Finding>)
    requires Sorted(first) && Sorted(second)
    requires forall f, g :: f in first && g in second ==> Precedes(f, g)
    ensures Sorted(first + second)
  {
    hide Precedes;
    forall k, l | 0 <= k < l < |first + second|
      ensures Precedes((first + second)[k], (first + second)[l])
    {
      if k < |first| <= l {
        assert first[k] in first && second[l - |first|] in second;
      }
    }
  }

  lemma FewAreSorted(found: seq<Finding>)
    requires |found| <= 1
    ensures Sorted(found)
  {
  }

  lemma {:induction false} RowIsSorted(fnmatch: Fnmatch, packets: seq<Packet>, i: nat, j: nat, x: nat, n: nat)
    requires i < j < |packets| && x < |packets[i].yours| && n <= |packets[j].yours|
    ensures Sorted(Row(fnmatch, packets, i, j, x, n))
  {
    hide Collision, IsFound, Sorted;
    if n == 0 {
      FewAreSorted([]);
    } else {
      var front, last := Row(fnmatch, packets, i, j, x, n - 1), Collision(fnmatch, packets, i, j, x, n - 1);
      RowIsSorted(fnmatch, packets, i, j, x, n - 1);
      FewAreSorted(last);
      forall f, g | f in front && g in last
        ensures Precedes(f, g)
      {
        RowHolds(fnmatch, packets, i, j, x, n - 1, f);
        CollisionIsNamed(fnmatch, packets, i, j, x, n - 1, g);
      }
      SortedOn(front, last);
    }
  }

  lemma {:induction false} PairIsSorted(fnmatch: Fnmatch, packets: seq<Packet>, i: nat, j: nat, n: nat)
    requires i < j < |packets| && n <= |packets[i].yours|
    ensures Sorted(Pair(fnmatch, packets, i, j, n))
  {
    hide Row, IsFound, Sorted;
    if n == 0 {
      FewAreSorted([]);
    } else {
      var front, last := Pair(fnmatch, packets, i, j, n - 1), Row(fnmatch, packets, i, j, n - 1, |packets[j].yours|);
      PairIsSorted(fnmatch, packets, i, j, n - 1);
      RowIsSorted(fnmatch, packets, i, j, n - 1, |packets[j].yours|);
      forall f, g | f in front && g in last
        ensures Precedes(f, g)
      {
        PairHolds(fnmatch, packets, i, j, n - 1, f);
        RowHolds(fnmatch, packets, i, j, n - 1, |packets[j].yours|, g);
      }
      SortedOn(front, last);
    }
  }

  lemma {:induction false} LaterIsSorted(fnmatch: Fnmatch, packets: seq<Packet>, i: nat, n: nat)
    requires i < n <= |packets|
    ensures Sorted(Later(fnmatch, packets, i, n))
    decreases n
  {
    hide Pair, IsFound, Sorted;
    if n == i + 1 {
      FewAreSorted([]);
    } else {
      var front, last := Later(fnmatch, packets, i, n - 1), Pair(fnmatch, packets, i, n - 1, |packets[i].yours|);
      LaterIsSorted(fnmatch, packets, i, n - 1);
      PairIsSorted(fnmatch, packets, i, n - 1, |packets[i].yours|);
      forall f, g | f in front && g in last
        ensures Precedes(f, g)
      {
        LaterHolds(fnmatch, packets, i, n - 1, f);
        PairHolds(fnmatch, packets, i, n - 1, |packets[i].yours|, g);
      }
      SortedOn(front, last);
    }
  }

  /** The report is in order, packet by packet and claim by claim, and so holds each finding once. */
  lemma {:induction false} CollisionsAreSorted(fnmatch: Fnmatch, packets: seq<Packet>, n: nat)
    requires n <= |packets|
    ensures Sorted(Collisions(fnmatch, packets, n))
  {
    hide Later, IsFound, Sorted;
    if n == 0 {
      FewAreSorted([]);
    } else {
      var front, last := Collisions(fnmatch, packets, n - 1), Later(fnmatch, packets, n - 1, |packets|);
      CollisionsAreSorted(fnmatch, packets, n - 1);
      LaterIsSorted(fnmatch, packets, n - 1, |packets|);
      forall f, g | f in front && g in last
        ensures Precedes(f, g)
      {
        CollisionsAreAll(fnmatch, packets, n - 1, f);
        LaterHolds(fnmatch, packets, n - 1, |packets|, g);
      }
      SortedOn(front, last);
    }
  }

  /** What a finding says: two claims that overlap, the second not excepting the first, and which of the two packets
      declares the first one's pattern; never both. */
  lemma FoundIff(fnmatch: Fnmatch, packets: seq<Packet>, f: Finding)
    requires f.i < f.j < |packets| && f.x < |packets[f.i].yours| && f.y < |packets[f.j].yours|
    ensures
      var a, b := packets[f.i], packets[f.j];
      var p, q := a.yours[f.x].pattern, b.yours[f.y].pattern;
      IsFound(fnmatch, packets, f) <==>
        && PatternsOverlap(fnmatch, p, q) && !Covers(b.yours[f.y], p) && !(Declares(a, p) && Declares(b, p))
        && f.declared == if Declares(a, p) then OnlyFirst else if Declares(b, p) then OnlySecond else Neither
  {
    hide PatternsOverlap, Declares, Excepts, Covers;
    CoversIff(packets[f.j].yours[f.y], packets[f.i].yours[f.x].pattern);
  }

  /** Exact paths and whole directories only. */
  predicate SimplePacket(p: Packet) {
    forall c :: c in p.yours ==> IsSimple(c.pattern)
  }

  predicate AllSimple(packets: seq<Packet>) {
    forall i :: 0 <= i < |packets| ==> SimplePacket(packets[i])
  }

  /** The claim names an exception with the same segments as the path, or with some of them at the end of the other. */
  predicate Covers(claim: Claim, path: string) {
    claim.exception.Some? &&
    var exc := claim.exception.value;
    Segments(path) == Segments(exc) || EndsInSegments(path, exc) || EndsInSegments(exc, path)
  }

  lemma CoversIff(claim: Claim, path: string)
    ensures Covers(claim, path) <==> Excepts(claim, path)
  {
    hide Segments, EndsInSegments, MatchesException;
    if claim.exception.Some? {
      ExceptionCoversIff(path, claim.exception.value);
    }
  }

  /** Any two claims of the two packets that share a path are a co-edit that both packets declare, or the second one
      excepts the first one's pattern. */
  ghost predicate PairDisjoint(a: Packet, b: Packet)
    requires SimplePacket(a) && SimplePacket(b)
  {
    forall x, y :: 0 <= x < |a.yours| && 0 <= y < |b.yours| ==>
      SharePath(a.yours[x].pattern, b.yours[y].pattern) && !Covers(b.yours[y], a.yours[x].pattern) ==>
        Declares(a, a.yours[x].pattern) && Declares(b, a.yours[x].pattern)
  }

  /** The promise, for every two packets of the round. */
  ghost predicate Disjoint(packets: seq<Packet>)
    requires AllSimple(packets)
  {
    forall i, j :: 0 <= i < j < |packets| ==> PairDisjoint(packets[i], packets[j])
  }

  lemma PairCleanIsDisjoint(fnmatch: Fnmatch, packets: seq<Packet>, i: nat, j: nat)
    requires AllSimple(packets) && i < |packets| && j < |packets|
    ensures PairClean(fnmatch, packets, i, j) <==> PairDisjoint(packets[i], packets[j])
  {
    hide SharePath, Declares, PatternsOverlap, IsSimple, Excepts, Covers;
    var a, b := packets[i], packets[j];
    forall x, y | 0 <= x < |a.yours| && 0 <= y < |b.yours|
      ensures
        Collision(fnmatch, packets, i, j, x, y) == [] <==>
          (SharePath(a.yours[x].pattern, b.yours[y].pattern) && !Covers(b.yours[y], a.yours[x].pattern) ==>
             Declares(a, a.yours[x].pattern) && Declares(b, a.yours[x].pattern))
    {
      OverlapIsASharedPath(fnmatch, a.yours[x].pattern, b.yours[y].pattern);
      CoversIff(b.yours[y], a.yours[x].pattern);
    }
  }

  /** The gate adds no finding if and only if the round keeps the promise. */
  lemma GateIsExact(fnmatch: Fnmatch, packets: seq<Packet>)
    requires AllSimple(packets)
    ensures Collisions(fnmatch, packets, |packets|) == [] <==> Disjoint(packets)
  {
    hide PairClean, PairDisjoint, Collisions;
    CollisionsAreClean(fnmatch, packets, |packets|);
    forall i, j | 0 <= i < j < |packets|
      ensures PairClean(fnmatch, packets, i, j) <==> PairDisjoint(packets[i], packets[j])
    {
      PairCleanIsDisjoint(fnmatch, packets, i, j);
    }
  }

  /** Claims `x` of `a` and `y` of `b` share a path, `b` does not except it, and `a`'s own pattern is not declared in
      both packets. */
  ghost predicate Undeclared(a: Packet, b: Packet, x: nat, y: nat)
    requires SimplePacket(a) && SimplePacket(b) && x < |a.yours| && y < |b.yours|
  {
    && SharePath(a.yours[x].pattern, b.yours[y].pattern)
    && !Covers(b.yours[y], a.yours[x].pattern)
    && !(Declares(a, a.yours[x].pattern) && Declares(b, a.yours[x].pattern))
  }

  ghost predicate SomeUndeclared(a: Packet, b: Packet)
    requires SimplePacket(a) && SimplePacket(b)
  {
    exists x, y :: 0 <= x < |a.yours| && 0 <= y < |b.yours| && Undeclared(a, b, x, y)
  }

  /** Which of two packets comes first matters, because only the first one's pattern is looked up among the
      declarations, and only the second one's exceptions: the verdict is the same in both orders if and only if either
      both packets have a claim whose own pattern is neither declared in both nor excepted where it shares a path with
      the other's, or neither has. In particular it is when sharing claims are always spelled alike and excepted
      alike. */
  lemma OrderDoesNotMatterIff(fnmatch: Fnmatch, a: Packet, b: Packet)
    requires SimplePacket(a) && SimplePacket(b)
    ensures
      (Collisions(fnmatch, [a, b], 2) == [] <==> Collisions(fnmatch, [b, a], 2) == [])
      <==>
      (SomeUndeclared(a, b) <==> SomeUndeclared(b, a))
    ensures
      (forall x, y :: 0 <= x < |a.yours| && 0 <= y < |b.yours| && SharePath(a.yours[x].pattern, b.yours[y].pattern) ==>
         && a.yours[x].pattern == b.yours[y].pattern
         && Covers(b.yours[y], a.yours[x].pattern) == Covers(a.yours[x], b.yours[y].pattern))
      ==> (Collisions(fnmatch, [a, b], 2) == [] <==> Collisions(fnmatch, [b, a], 2) == [])
  {
    hide Collisions, SharePath, Declares, IsSimple, Covers;
    GateIsExact(fnmatch, [a, b]);
    GateIsExact(fnmatch, [b, a]);
    DisjointOfTwo(a, b);
    DisjointOfTwo(b, a);
    forall x, y | 0 <= x < |a.yours| && 0 <= y < |b.yours|
      ensures SharePath(a.yours[x].pattern, b.yours[y].pattern) <==> SharePath(b.yours[y].pattern, a.yours[x].pattern)
    {
      SharingIsSymmetric(a.yours[x].pattern, b.yours[y].pattern);
    }
    DisjointIff(a, b);
    DisjointIff(b, a);
    if forall x, y :: 0 <= x < |a.yours| && 0 <= y < |b.yours| && SharePath(a.yours[x].pattern, b.yours[y].pattern) ==>
         && a.yours[x].pattern == b.yours[y].pattern
         && Covers(b.yours[y], a.yours[x].pattern) == Covers(a.yours[x], b.yours[y].pattern)
    {
      forall x: nat, y: nat | x < |a.yours| && y < |b.yours|
        ensures Undeclared(a, b, x, y) <==> Undeclared(b, a, y, x)
      {
      }
    }
  }

  /** Two packets whose verdict depends on their order. */
  lemma OrderCanMatter(fnmatch: Fnmatch)
    ensures
      var a := Packet("a", ["COEDIT:s/**"], [Claim(1, "s/**", false, None)]);
      var b := Packet("b", ["COEDIT:s/**"], [Claim(1, "s/x", false, None)]);
      Collisions(fnmatch, [a, b], 2) == [] && Collisions(fnmatch, [b, a], 2) != []
  {
    hide Collisions, SharePath, Declares, IsSimple, Covers;
    var a := Packet("a", ["COEDIT:s/**"], [Claim(1, "s/**", false, None)]);
    var b := Packet("b", ["COEDIT:s/**"], [Claim(1, "s/x", false, None)]);
    TwoSpellings();
    DeclaredHere(a);
    DeclaredHere(b);
    GateIsExact(fnmatch, [a, b]);
    GateIsExact(fnmatch, [b, a]);
    DisjointOfTwo(a, b);
    DisjointOfTwo(b, a);
    DisjointIff(a, b);
    DisjointIff(b, a);
    assert !Covers(a.yours[0], "s/x") by { NothingIsExcepted(a.yours[0], "s/x"); }
    assert Undeclared(b, a, 0, 0);
  }

  lemma NothingIsExcepted(claim: Claim, path: string)
    requires claim.exception.None?
    ensures !Covers(claim, path)
  {
  }

  /** An exception for one file hides no collision over another. */
  lemma OtherExceptionsHideNothing(fnmatch: Fnmatch)
    ensures
      var a := Packet("a", [], [Claim(1, "s/x", false, None)]);
      var b := Packet("b", [], [Claim(1, "s/**", false, Some("s/y"))]);
      Collision(fnmatch, [a, b], 0, 1, 0, 0) == [Finding(0, 1, 0, 0, Neither)]
  {
    hide SharePath, IsSimple, PatternsOverlap;
    TwoSpellings();
    OverlapIsASharedPath(fnmatch, "s/x", "s/**");
    assert "s/x"[2] != "s/y"[2];
  }

  lemma TwoSpellings()
    ensures IsSimple("s/**") && IsSimple("s/x") && SharePath("s/x", "s/**")
  {
    hide PatternKind;
    DirectoryKind();
    FileKind();
    assert "s/x"[..2] == "s" + "/";
    assert Claims("s/x", "s/x") && Claims("s/**", "s/x");
  }

  lemma DirectoryKind()
    ensures PatternKind("s/**") == (DirGlob, "s")
  {
    assert "s/**"[1..] == "/**" && "s/**"[..1] == "s";
  }

  lemma FileKind()
    ensures PatternKind("s/x") == (Exact, "s/x")
  {
    assert "s/x"[0..] == "s/x" && "s/x"[2] != "/**"[2];
    assert '*' !in "s/x";
  }

  lemma DeclaredHere(p: Packet)
    requires p.lines == ["COEDIT:s/**"]
    ensures Declares(p, "s/**") && !Declares(p, "s/x")
  {
    hide Opens, Rest, Named, Coedits;
    DeclaredByLine();
    OneLineDeclares(p.lines);
    assert "s/**"[2] != "s/x"[2];
  }

  lemma OneLineDeclares(lines: seq<string>)
    requires |lines| == 1 && Opens(lines[0]) && Rest(lines[0]) != ""
    ensures Coedits(lines, 0) == [Named(Rest(lines[0]))]
  {
    hide Opens, Rest, Named;
    assert Coedits(lines, 1) == [];
  }

  lemma DeclaredByLine()
    ensures Opens("COEDIT:s/**") && Rest("COEDIT:s/**") == "s/**" && Named("s/**") == "s/**"
  {
    hide LStrip, Token, Unquoted;
    LineIsTight();
    PathIsAToken();
    var line := "COEDIT:s/**";
    assert line[..7] == COEDIT && line[7..] == "s/**";
  }

  lemma LineIsTight()
    ensures LStrip("COEDIT:s/**") == "COEDIT:s/**"
  {
    hide LStrip;
    NothingToLStrip("COEDIT:s/**");
  }

  lemma PathIsAToken()
    ensures LStrip("s/**") == "s/**" && Token("s/**") == "s/**" && Unquoted("s/**") == "s/**"
  {
    hide LStrip, Token, Unquoted;
    NothingToLStrip("s/**");
    TokenOf("s/**");
    NothingQuoted("s/**");
  }

  lemma NothingToLStrip(s: string)
    requires s != "" && !IsSpace(s[0])
    ensures LStrip(s) == s
  {
    hide IsSpace;
  }

  lemma NothingQuoted(s: string)
    requires s != "" && s[0] != '`' && s[|s| - 1] != '`'
    ensures Unquoted(s) == s
  {
  }

  lemma {:induction false} TokenOf(s: string)
    requires forall c :: c in s ==> !IsSpace(c)
    ensures Token(s) == s
  {
    hide IsSpace;
    if s != "" {
      TokenOf(s[1..]);
    }
  }

  lemma DisjointIff(a: Packet, b: Packet)
    requires SimplePacket(a) && SimplePacket(b)
    ensures PairDisjoint(a, b) <==> !SomeUndeclared(a, b)
  {
    hide SharePath, Declares, IsSimple, Covers;
    if !SomeUndeclared(a, b) {
      forall x, y | 0 <= x < |a.yours| && 0 <= y < |b.yours|
        ensures SharePath(a.yours[x].pattern, b.yours[y].pattern) && !Covers(b.yours[y], a.yours[x].pattern) ==>
          Declares(a, a.yours[x].pattern) && Declares(b, a.yours[x].pattern)
      {
        assert !Undeclared(a, b, x, y);
      }
    }
  }

  lemma DisjointOfTwo(a: Packet, b: Packet)
    requires SimplePacket(a) && SimplePacket(b)
    ensures Disjoint([a, b]) <==> PairDisjoint(a, b)
  {
    hide PairDisjoint;
    var packets := [a, b];
    assert packets[0] == a && packets[1] == b;
    if Disjoint(packets) {
      assert PairDisjoint(packets[0], packets[1]);
    }
  }

  lemma SharingIsSymmetric(a: string, b: string)
    requires IsSimple(a) && IsSimple(b)
    ensures SharePath(a, b) <==> SharePath(b, a)
  {
  }

  // ---------------------------------------------------------------- the block under a header

  predicate Blank(line: string) {
    Strip(line) == ""
  }

  predicate Indented(line: string) {
    StartsWith(line, " ") || StartsWith(line, "\t")
  }

  /** The meaning of the block: up to the first line that is neither blank nor indented, every line with text. */
  function BlockItems(lines: seq<string>, i: nat): seq<(nat, string)>
    decreases |lines| - i
  {
    hide Strip, Blank, Indented;
    if i >= |lines| then []
    else if Blank(lines[i]) then BlockItems(lines, i + 1)
    else if Indented(lines[i]) then [(i + 1, Strip(lines[i]))] + BlockItems(lines, i + 1)
    else []
  }

  lemma ItemsFrom(lines: seq<string>, i: nat)
    ensures i >= |lines| ==> BlockItems(lines, i) == []
    ensures i < |lines| && Blank(lines[i]) ==> BlockItems(lines, i) == BlockItems(lines, i + 1)
    ensures i < |lines| && !Blank(lines[i]) && !Indented(lines[i]) ==> BlockItems(lines, i) == []
    ensures i < |lines| && !Blank(lines[i]) && Indented(lines[i])
            ==> BlockItems(lines, i) == [(i + 1, Strip(lines[i]))] + BlockItems(lines, i + 1)
  {
    hide Strip, Blank, Indented;
  }

  /** The line goes on with a block: it is whitespace alone, or begins with a space or a TAB. */
  predicate GoesOn(line: string) {
    AllSpace(line) || line[0] == ' ' || line[0] == '\t'
  }

  lemma GoesOnIff(line: string)
    ensures Blank(line) <==> AllSpace(line)
    ensures Blank(line) || Indented(line) <==> GoesOn(line)
  {
    hide IsSpace;
    BlankIff(line);
    if line != "" {
      assert line[..1] == [line[0]];
    }
  }

  /** `end` is the first line from `i` on that does not go on with it. */
  predicate EndsAt(lines: seq<string>, i: nat, end: nat) {
    && i <= end <= |lines|
    && (forall k :: i <= k < end ==> GoesOn(lines[k]))
    && (end < |lines| ==> !GoesOn(lines[end]))
  }

  /** The item is a line with text of that stretch, stripped and numbered from one. */
  predicate IsItem(lines: seq<string>, i: nat, end: nat, item: (nat, string)) {
    i < item.0 <= end <= |lines| && !AllSpace(lines[item.0 - 1]) && item.1 == Strip(lines[item.0 - 1])
  }

  ghost predicate AreItems(lines: seq<string>, i: nat, end: nat, items: seq<(nat, string)>) {
    && (forall item :: item in items <==> IsItem(lines, i, end, item))
    && (forall m, n :: 0 <= m < n < |items| ==> items[m].0 < items[n].0)
  }

  lemma ItemOn(lines: seq<string>, i: nat, end: nat, item: (nat, string))
    requires i < end <= |lines|
    ensures IsItem(lines, i + 1, end, item) <==> IsItem(lines, i, end, item) && item.0 > i + 1
    ensures IsItem(lines, i, end, item) ==> item.0 > i && !AllSpace(lines[item.0 - 1])
  {
    hide Strip, AllSpace;
  }

  lemma OneItem(lines: seq<string>, i: nat, end: nat, a: (nat, string), b: (nat, string))
    requires IsItem(lines, i, end, a) && IsItem(lines, i, end, b) && a.0 == b.0
    ensures a == b
  {
    hide Strip, AllSpace;
  }

  lemma SpaceAddsNone(lines: seq<string>, i: nat, end: nat, items: seq<(nat, string)>)
    requires i < end <= |lines| && AreItems(lines, i + 1, end, items) && AllSpace(lines[i])
    ensures AreItems(lines, i, end, items)
  {
    hide AllSpace, IsItem;
    forall item
      ensures IsItem(lines, i, end, item) <==> IsItem(lines, i + 1, end, item)
    {
      ItemOn(lines, i, end, item);
    }
  }

  lemma TextAddsOne(lines: seq<string>, i: nat, end: nat, items: seq<(nat, string)>, first: (nat, string))
    requires i < end <= |lines| && AreItems(lines, i + 1, end, items)
    requires IsItem(lines, i, end, first) && first.0 == i + 1
    ensures AreItems(lines, i, end, [first] + items)
  {
    hide AllSpace, IsItem;
    forall item
      ensures IsItem(lines, i, end, item) <==> IsItem(lines, i + 1, end, item) || item == first
    {
      ItemOn(lines, i, end, item);
      if IsItem(lines, i, end, item) && item.0 == i + 1 {
        OneItem(lines, i, end, item, first);
      }
    }
    forall n | 0 <= n < |items|
      ensures items[n].0 > i + 1
    {
      assert items[n] in items;
      ItemOn(lines, i, end, items[n]);
    }
    assert forall item :: item in [first] + items <==> item == first || item in items;
  }

  /** The block ends at the first line that is neither blank nor indented, and its items are the lines with text before
      that, in order. */
  lemma {:induction false} ItemsAre(lines: seq<string>, i: nat) returns (end: nat)
    requires i <= |lines|
    ensures EndsAt(lines, i, end) && AreItems(lines, i, end, BlockItems(lines, i))
    decreases |lines| - i
  {
    hide Strip, Blank, Indented, BlockItems, AreItems, GoesOn, AllSpace;
    ItemsFrom(lines, i);
    if i < |lines| {
      GoesOnIff(lines[i]);
    }
    if i == |lines| || (!Blank(lines[i]) && !Indented(lines[i])) {
      end := i;
      NoItems(lines, i);
    } else {
      end := ItemsAre(lines, i + 1);
      if AllSpace(lines[i]) {
        SpaceAddsNone(lines, i, end, BlockItems(lines, i + 1));
      } else {
        TextAddsOne(lines, i, end, BlockItems(lines, i + 1), (i + 1, Strip(lines[i])));
      }
    }
  }

  lemma NoItems(lines: seq<string>, i: nat)
    ensures AreItems(lines, i, i, [])
  {
    hide Strip, AllSpace;
  }

  method SkipBlank(lines: seq<string>, start: nat) returns (i: nat)
    requires start <= |lines|
    ensures start <= i <= |lines|
    ensures i < |lines| ==> !Blank(lines[i])
    ensures BlockItems(lines, i) == BlockItems(lines, start)
  {
    hide Strip, Blank, Indented, BlockItems;
    i := start;
    while i < |lines| && Blank(lines[i])
      invariant start <= i <= |lines|
      invariant BlockItems(lines, i) == BlockItems(lines, start)
    {
      ItemsFrom(lines, i);
      i := i + 1;
    }
  }

  /** The reader looks ahead over blank lines before it goes on, and still collects exactly those lines. */
  method ParseIndentedBlock(lines: seq<string>, header: nat) returns (items: seq<(nat, string)>)
    requires header < |lines|
    ensures items == BlockItems(lines, header + 1)
  {
    hide Strip, Blank, Indented, BlockItems;
    items := [];
    var i := SkipBlank(lines, header + 1);
    while i < |lines|
      invariant header < i <= |lines|
      invariant items + BlockItems(lines, i) == BlockItems(lines, header + 1)
      decreases |lines| - i
    {
      var line := lines[i];
      ItemsFrom(lines, i);
      if Blank(line) {
        var j := SkipBlank(lines, i + 1);
        ItemsFrom(lines, j);
        if j < |lines| && Indented(lines[j]) {
          i := j;
          continue;
        }
        return;
      }
      if !Indented(line) {
        return;
      }
      items := items + [(i + 1, Strip(line))];
      i := i + 1;
    }
    ItemsFrom(lines, |lines|);
  }
}
