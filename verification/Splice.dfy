/** The marker block `scripts/progress.py` keeps in README.md: finding it, and writing a new one in its place. */
module Splice {
  import opened Text

  const START_MARKER: string := "<!-- progress:start -->"
  const END_MARKER: string := "<!-- progress:end -->"

  predicate OccursAt(s: string, pattern: string, i: int) {
    0 <= i && i + |pattern| <= |s| && s[i..i + |pattern|] == pattern
  }

  predicate Contains(s: string, pattern: string) {
    exists i | 0 <= i <= |s| :: OccursAt(s, pattern, i)
  }

  /** `str.find`, from `i` on. */
  function FindFrom(s: string, pattern: string, i: nat): (found: Option<nat>)
    requires i <= |s|
    ensures found.Some? ==> i <= found.value && OccursAt(s, pattern, found.value)
    ensures forall j :: i <= j < (if found.Some? then found.value else |s| + 1) ==> !OccursAt(s, pattern, j)
    decreases |s| - i
  {
    if OccursAt(s, pattern, i) then Some(i)
    else if i == |s| then None
    else FindFrom(s, pattern, i + 1)
  }

  /** The bounds of the block, or an error when a marker is missing or they are the wrong way round. */
  function FindBlock(text: string): Result<(nat, nat)> {
    match (FindFrom(text, START_MARKER, 0), FindFrom(text, END_MARKER, 0))
    case (Some(start), Some(end)) =>
      if end + |END_MARKER| <= start then Error else Ok((start, end + |END_MARKER|))
    case _ => Error
  }

  /** What the script writes. */
  function Updated(text: string, block: string): string
    requires FindBlock(text).Ok?
  {
    var (start, end) := FindBlock(text).value;
    if start <= end <= |text| then text[..start] + block + text[end..] else text
  }

  /** What `--check` asks. */
  predicate IsCurrent(text: string, block: string) {
    match FindBlock(text)
    case Error => false
    case Ok((start, end)) => start <= end <= |text| && text[start..end] == block
  }

  // ---------------------------------------------------------------- markers do not overlap

  predicate IsMarker(m: string) {
    m == START_MARKER || m == END_MARKER
  }

  lemma MarkerBegins(m: string)
    requires IsMarker(m)
    ensures |m| > 0 && m[0] == '<' && forall j :: 1 <= j < |m| ==> m[j] != '<'
  {
  }

  lemma CharactersOf(s: string, m: string, i: int, k: int)
    requires OccursAt(s, m, i) && i <= k < i + |m|
    ensures s[k] == m[k - i]
  {
    assert s[i..i + |m|][k - i] == s[k];
  }

  /** Two occurrences of markers that begin at different places do not share a character. */
  lemma MarkersDoNotOverlap(s: string, a: string, i: int, b: string, j: int)
    requires IsMarker(a) && IsMarker(b) && OccursAt(s, a, i) && OccursAt(s, b, j)
    requires i < j
    ensures i + |a| <= j
  {
    MarkerBegins(a);
    MarkerBegins(b);
    CharactersOf(s, b, j, j);
    if j < i + |a| {
      CharactersOf(s, a, i, j);
    }
  }

  lemma MarkersDiffer(s: string, i: int)
    requires OccursAt(s, START_MARKER, i)
    ensures !OccursAt(s, END_MARKER, i)
  {
    assert START_MARKER[14] == 's' && END_MARKER[14] == 'e';
    assert s[i..i + |START_MARKER|][14] == s[i + 14];
    assert s[i..i + |END_MARKER|][14] == s[i + 14];
  }

  /** In a text with valid markers the end marker stands wholly after the start marker. */
  lemma FoundInOrder(text: string)
    requires FindBlock(text).Ok?
    ensures
      var (start, end) := FindBlock(text).value;
      && OccursAt(text, START_MARKER, start)
      && OccursAt(text, END_MARKER, end - |END_MARKER|)
      && start + |START_MARKER| <= end - |END_MARKER|
      && end <= |text|
  {
    hide FindFrom;
    var (start, end) := FindBlock(text).value;
    var e := end - |END_MARKER|;
    MarkersDiffer(text, start);
    if e < start {
      MarkersDoNotOverlap(text, END_MARKER, e, START_MARKER, start);
    } else {
      MarkersDoNotOverlap(text, START_MARKER, start, END_MARKER, e);
    }
  }

  // ---------------------------------------------------------------- the fixpoint

  lemma OccursInPrefix(p: string, rest: string, m: string, i: int)
    ensures i + |m| <= |p| ==> (OccursAt(p + rest, m, i) <==> OccursAt(p, m, i))
  {
    if 0 <= i && i + |m| <= |p| {
      assert (p + rest)[i..i + |m|] == p[i..i + |m|];
    }
  }

  lemma OccursAfterPrefix(p: string, rest: string, m: string, i: int)
    ensures i >= |p| ==> (OccursAt(p + rest, m, i) <==> OccursAt(rest, m, i - |p|))
  {
    if |p| <= i && i + |m| <= |p + rest| {
      assert (p + rest)[i..i + |m|] == rest[i - |p|..i - |p| + |m|];
    }
  }

  /** The first place of `m` is `i`. */
  lemma FoundFirst(s: string, m: string, i: nat)
    requires OccursAt(s, m, i) && forall j :: 0 <= j < i ==> !OccursAt(s, m, j)
    ensures FindFrom(s, m, 0) == Some(i)
  {
  }

  /** A marker that follows `p` is the first of its kind there if `p` holds none. */
  lemma FirstAfter(p: string, m: string, rest: string)
    requires IsMarker(m) && !Contains(p, m)
    ensures FindFrom(p + m + rest, m, 0) == Some(|p|)
  {
    var s := p + m + rest;
    assert s[|p|..|p| + |m|] == m;
    forall j | 0 <= j < |p|
      ensures !OccursAt(s, m, j)
    {
      if OccursAt(s, m, j) {
        MarkersDoNotOverlap(s, m, j, m, |p|);
        assert s == p + (m + rest);
        OccursInPrefix(p, m + rest, m, j);
      }
    }
    FoundFirst(s, m, |p|);
  }

  /** Neither marker occurs before the block. */
  lemma BeforeTheBlock(text: string)
    requires FindBlock(text).Ok?
    ensures
      var prefix := text[..FindBlock(text).value.0];
      !Contains(prefix, START_MARKER) && !Contains(prefix, END_MARKER)
  {
    hide FindFrom;
    FoundInOrder(text);
    var (start, end) := FindBlock(text).value;
    var prefix := text[..start];
    assert text == prefix + text[start..];
    forall i, m | 0 <= i <= |prefix| && IsMarker(m)
      ensures !OccursAt(prefix, m, i)
    {
      OccursInPrefix(prefix, text[start..], m, i);
      MarkerBegins(m);
    }
  }

  /** Where `m` does not occur in `p`, and `q` begins with a marker, it occurs in `p + q` only inside `q`. */
  lemma ContainsAfter(p: string, q: string, m: string)
    requires IsMarker(m) && !Contains(p, m) && OccursAt(q, START_MARKER, 0)
    ensures Contains(p + q, m) <==> Contains(q, m)
  {
    if Contains(p + q, m) {
      var i :| 0 <= i <= |p + q| && OccursAt(p + q, m, i);
      OccursAfterPrefix(p, q, START_MARKER, |p|);
      if i < |p| {
        MarkersDoNotOverlap(p + q, m, i, START_MARKER, |p|);
        OccursInPrefix(p, q, m, i);
      }
      OccursAfterPrefix(p, q, m, i);
    }
    if Contains(q, m) {
      var i :| 0 <= i <= |q| && OccursAt(q, m, i);
      OccursAfterPrefix(p, q, m, |p| + i);
      assert OccursAt(p + q, m, |p| + i);
    }
  }

  /** The second run finds the block that was written if and only if nothing in it before its end contains the end
      marker. */
  lemma UpdateIsAFixpointIff(text: string, body: string)
    requires FindBlock(text).Ok?
    ensures
      var block := START_MARKER + body + END_MARKER;
      IsCurrent(Updated(text, block), block) <==> !Contains(START_MARKER + body, END_MARKER)
  {
    hide FindFrom, Contains, OccursAt;
    FoundInOrder(text);
    BeforeTheBlock(text);
    var (start, end) := FindBlock(text).value;
    var prefix, suffix, inner := text[..start], text[end..], START_MARKER + body;
    var block := inner + END_MARKER;
    var now := Updated(text, block);
    assert now == prefix + block + suffix;
    StartIsFound(prefix, body, suffix);
    if Contains(inner, END_MARKER) {
      EndIsFoundEarly(prefix, body, suffix);
    } else {
      EndIsFound(prefix, body, suffix);
      assert now[start..start + |block|] == block;
    }
  }

  lemma StartIsFound(prefix: string, body: string, suffix: string)
    requires !Contains(prefix, START_MARKER)
    ensures FindFrom(prefix + (START_MARKER + body + END_MARKER) + suffix, START_MARKER, 0) == Some(|prefix|)
  {
    hide FindFrom, Contains;
    FirstAfter(prefix, START_MARKER, body + END_MARKER + suffix);
    assert prefix + (START_MARKER + body + END_MARKER) + suffix
        == prefix + START_MARKER + (body + END_MARKER + suffix);
  }

  lemma EndIsFound(prefix: string, body: string, suffix: string)
    requires !Contains(prefix, END_MARKER) && !Contains(START_MARKER + body, END_MARKER)
    ensures FindFrom(prefix + (START_MARKER + body + END_MARKER) + suffix, END_MARKER, 0)
            == Some(|prefix + (START_MARKER + body)|)
  {
    hide FindFrom, Contains;
    var inner := START_MARKER + body;
    assert inner[0..|START_MARKER|] == START_MARKER;
    ContainsAfter(prefix, inner, END_MARKER);
    FirstAfter(prefix + inner, END_MARKER, suffix);
    assert prefix + (inner + END_MARKER) + suffix == (prefix + inner) + END_MARKER + suffix;
  }

  lemma EndIsFoundEarly(prefix: string, body: string, suffix: string)
    requires !Contains(prefix, END_MARKER) && Contains(START_MARKER + body, END_MARKER)
    ensures var found := FindFrom(prefix + (START_MARKER + body + END_MARKER) + suffix, END_MARKER, 0);
            found.Some? && found.value + |END_MARKER| <= |prefix + (START_MARKER + body)|
  {
    hide FindFrom, Contains;
    var inner := START_MARKER + body;
    assert inner[0..|START_MARKER|] == START_MARKER;
    ContainsAfter(prefix, inner, END_MARKER);
    EarlierThan(prefix + inner, END_MARKER, END_MARKER + suffix);
    assert prefix + (inner + END_MARKER) + suffix == (prefix + inner) + (END_MARKER + suffix);
  }

  lemma EarlierThan(p: string, m: string, rest: string)
    requires Contains(p, m)
    ensures var found := FindFrom(p + rest, m, 0); found.Some? && found.value + |m| <= |p|
  {
    var i :| 0 <= i <= |p| && OccursAt(p, m, i);
    OccursInPrefix(p, rest, m, i);
  }

  // ---------------------------------------------------------------- what a run leaves alone

  function Block(body: string): string {
    START_MARKER + body + END_MARKER
  }

  /** A README with a block: no marker before it, and no end marker in it before its own. What follows may hold any. */
  predicate LaidOut(text: string, before: string, body: string, rest: string) {
    && text == before + Block(body) + rest
    && !Contains(before, START_MARKER) && !Contains(before, END_MARKER)
    && !Contains(START_MARKER + body, END_MARKER)
  }

  lemma LaidOutIsFound(text: string, before: string, body: string, rest: string)
    requires LaidOut(text, before, body, rest)
    ensures FindBlock(text) == Ok((|before|, |before| + |Block(body)|))
  {
    hide FindFrom, Contains;
    StartIsFound(before, body, rest);
    EndIsFound(before, body, rest);
  }

  /** The markers are found exactly where there is such a block. */
  lemma FoundIsLaidOut(text: string) returns (before: string, body: string, rest: string)
    requires FindBlock(text).Ok?
    ensures LaidOut(text, before, body, rest)
  {
    hide FindFrom, Contains, OccursAt;
    FoundInOrder(text);
    BeforeTheBlock(text);
    var (start, end) := FindBlock(text).value;
    var e := end - |END_MARKER|;
    before, rest := text[..start], text[end..];
    body := text[start + |START_MARKER|..e];
    SliceOf(text, START_MARKER, start);
    SliceOf(text, END_MARKER, e);
    NoEndBefore(text, start, e);
    assert text[start..e] == text[start..start + |START_MARKER|] + body;
    assert text[start..end] == text[start..e] + text[e..end];
    assert text == before + text[start..end] + rest;
  }

  lemma SliceOf(s: string, m: string, i: nat)
    requires OccursAt(s, m, i)
    ensures i + |m| <= |s| && s[i..i + |m|] == m
  {
  }

  lemma OccursInSlice(s: string, lo: nat, hi: nat, m: string, i: nat)
    requires lo <= hi <= |s| && OccursAt(s[lo..hi], m, i)
    ensures OccursAt(s, m, lo + i) && lo + i + |m| <= hi
  {
    var inner, found := s[lo..hi], s[lo + i..lo + i + |m|];
    forall k | 0 <= k < |m|
      ensures found[k] == m[k]
    {
      assert inner[i..i + |m|][k] == inner[i + k];
    }
  }

  lemma NoEndBefore(text: string, start: nat, e: nat)
    requires start <= e <= |text| && FindFrom(text, END_MARKER, 0) == Some(e)
    ensures !Contains(text[start..e], END_MARKER)
  {
    hide OccursAt;
    var inner := text[start..e];
    forall i | 0 <= i <= |inner|
      ensures !OccursAt(inner, END_MARKER, i)
    {
      if OccursAt(inner, END_MARKER, i) {
        OccursInSlice(text, start, e, END_MARKER, i);
      }
    }
  }

  /** For every README laid out like that: the whole of it is kept but for the block. */
  lemma UpdateKeepsTheRest(text: string, before: string, body: string, rest: string, block: string)
    requires LaidOut(text, before, body, rest)
    ensures FindBlock(text).Ok? && Updated(text, block) == before + block + rest
    ensures IsCurrent(text, block) <==> block == Block(body)
  {
    hide FindFrom, Contains, FindBlock;
    LaidOutIsFound(text, before, body, rest);
    var end := |before| + |Block(body)|;
    assert text[..|before|] == before && text[end..] == rest && text[|before|..end] == Block(body);
  }

  /** A run of the script, with or without `--check`. */
  method Update(text: string, block: string, check: bool) returns (written: string, status: int)
    ensures forall before, body, rest :: LaidOut(text, before, body, rest) ==>
      && written == (if check then text else before + block + rest)
      && (status == 0 <==> !check || block == Block(body))
    ensures (forall before, body, rest :: !LaidOut(text, before, body, rest)) ==> written == text && status == 1
    ensures status == 0 || status == 1
  {
    hide FindFrom, FindBlock, LaidOut, Updated;
    var found := FindBlock(text);
    forall before, body, rest | LaidOut(text, before, body, rest)
      ensures found.Ok? && Updated(text, block) == before + block + rest
      ensures IsCurrent(text, block) <==> block == Block(body)
      ensures text == before + Block(body) + rest
    {
      UpdateKeepsTheRest(text, before, body, rest, block);
      LaidOutIsWhole(text, before, body, rest);
    }
    if found.Error? {
      return text, 1;
    }
    FoundInOrder(text);
    ghost var before, body, rest := FoundIsLaidOut(text);
    var (start, end) := found.value;
    if text[start..end] == block {
      return text, 0;
    }
    if check {
      return text, 1;
    }
    UpdatedIs(text, block);
    return text[..start] + block + text[end..], 0;
  }

  lemma LaidOutIsWhole(text: string, before: string, body: string, rest: string)
    requires LaidOut(text, before, body, rest)
    ensures text == before + Block(body) + rest
  {
  }

  lemma UpdatedIs(text: string, block: string)
    requires FindBlock(text).Ok?
    ensures var (start, end) := FindBlock(text).value;
            && start <= end <= |text|
            && Updated(text, block) == text[..start] + block + text[end..]
  {
    FoundInOrder(text);
  }

  // ---------------------------------------------------------------- the rendered lines

  /** The end marker holds no line feed, so it occurs among lines only inside one of them. */
  lemma {:induction false} ContainsInALine(lines: seq<string>)
    ensures Contains(Terminated(lines), END_MARKER) <==> exists l :: l in lines && Contains(l, END_MARKER)
  {
    hide Contains;
    if lines == [] {
      NothingContains();
    } else {
      ContainsInALine(lines[1..]);
      ContainsAcrossLine(lines[0], Terminated(lines[1..]));
      assert lines == [lines[0]] + lines[1..];
    }
  }

  lemma NothingContains()
    ensures !Contains("", END_MARKER)
  {
  }

  lemma ContainsAcrossLine(line: string, rest: string)
    ensures Contains(line + "\n" + rest, END_MARKER) <==> Contains(line, END_MARKER) || Contains(rest, END_MARKER)
  {
    hide Contains;
    assert forall k :: 0 <= k < |END_MARKER| ==> END_MARKER[k] != '\n';
    InOneOfTheTwo(line, rest, END_MARKER);
    InTheFirst(line, rest, END_MARKER);
    InTheSecond(line, rest, END_MARKER);
  }

  lemma InOneOfTheTwo(line: string, rest: string, m: string)
    requires forall k :: 0 <= k < |m| ==> m[k] != '\n'
    ensures Contains(line + "\n" + rest, m) ==> Contains(line, m) || Contains(rest, m)
  {
    hide OccursAt;
    var s := line + "\n" + rest;
    assert s == line + ("\n" + rest) && s == (line + "\n") + rest;
    if i :| 0 <= i <= |s| && OccursAt(s, m, i) {
      if i <= |line| < i + |m| {
        CharactersOf(s, m, i, |line|);
      } else if i <= |line| {
        OccursInPrefix(line, "\n" + rest, m, i);
      } else {
        OccursAfterPrefix(line + "\n", rest, m, i);
      }
    }
  }

  lemma InTheFirst(line: string, rest: string, m: string)
    ensures Contains(line, m) ==> Contains(line + "\n" + rest, m)
  {
    assert line + "\n" + rest == line + ("\n" + rest);
    if i :| 0 <= i <= |line| && OccursAt(line, m, i) {
      OccursInPrefix(line, "\n" + rest, m, i);
    }
  }

  lemma InTheSecond(line: string, rest: string, m: string)
    ensures Contains(rest, m) ==> Contains(line + "\n" + rest, m)
  {
    hide OccursAt;
    if i :| 0 <= i <= |rest| && OccursAt(rest, m, i) {
      OccursAfterPrefix(line + "\n", rest, m, |line| + 1 + i);
      assert OccursAt(line + "\n" + rest, m, |line| + 1 + i);
    }
  }

  /** The block as it is rendered: the start marker, the lines of the report, the end marker. */
  function Rendered(lines: seq<string>): string {
    Terminated([START_MARKER] + lines) + END_MARKER
  }

  /** So `--check` succeeds after an update, for every README with valid markers, if and only if no line of the report
      contains the end marker. */
  lemma CheckSucceedsAfterUpdateIff(text: string, lines: seq<string>)
    requires FindBlock(text).Ok?
    ensures IsCurrent(Updated(text, Rendered(lines)), Rendered(lines)) <==>
              forall l :: l in lines ==> !Contains(l, END_MARKER)
  {
    hide FindBlock, Updated, IsCurrent, Contains;
    var all := [START_MARKER] + lines;
    var body := "\n" + Terminated(lines);
    assert all[1..] == lines;
    assert Terminated(all) == START_MARKER + body;
    assert Rendered(lines) == START_MARKER + body + END_MARKER;
    UpdateIsAFixpointIff(text, body);
    ContainsInALine(all);
    StartHoldsNoEnd();
  }

  lemma StartHoldsNoEnd()
    ensures !Contains(START_MARKER, END_MARKER)
  {
    forall i | 0 <= i <= |START_MARKER|
      ensures !OccursAt(START_MARKER, END_MARKER, i)
    {
      if OccursAt(START_MARKER, END_MARKER, i) {
        assert OccursAt(START_MARKER, START_MARKER, 0);
        MarkersDiffer(START_MARKER, 0);
        MarkersDoNotOverlap(START_MARKER, START_MARKER, 0, END_MARKER, i);
      }
    }
  }
}
