/** Finding the lines of test code in a Rust file by counting braces, scripts/discover.py. */
module TestBlocks {
  import opened Text

  predicate IsAttribute(line: string) {
    Strip(line) == "#[cfg(test)]" || StartsWith(Strip(line), "#[test]")
  }

  predicate Opens(line: string) {
    '{' in line
  }

  function Count(line: string, c: char): nat {
    if line == "" then 0 else (if line[0] == c then 1 else 0) + Count(line[1..], c)
  }

  function Net(line: string): int {
    Count(line, '{') - Count(line, '}')
  }

  /** The braces left open by lines `o` to `m`, which may be negative. */
  function Depth(lines: seq<string>, o: nat, m: nat): int
    requires o <= m < |lines|
  {
    Net(lines[m]) + if m == o then 0 else Depth(lines, o, m - 1)
  }

  lemma {:induction false} OpensIsACount(line: string)
    ensures Opens(line) <==> Count(line, '{') > 0
  {
    if line != "" {
      OpensIsACount(line[1..]);
      assert Opens(line) <==> line[0] == '{' || Opens(line[1..]);
    }
  }

  /** Every brace counts, wherever on the line it stands. */
  lemma {:induction false} CountIs(line: string, c: char)
    ensures Count(line, c) == multiset(line)[c]
  {
    if line != "" {
      CountIs(line[1..], c);
      assert line == [line[0]] + line[1..];
    }
  }

  /** The lines that are attributes: one of the two alone on its line, the other at its beginning, indented or not. */
  lemma AttributeIs(lead: string, core: string, tail: string)
    requires AllSpace(lead) && AllSpace(tail) && Tight(core)
    ensures IsAttribute(lead + core + tail) <==> core == "#[cfg(test)]" || (|core| >= 7 && core[..7] == "#[test]")
  {
    hide Strip, AllSpace, Tight;
    StripIs(lead, core, tail);
  }

  // ---------------------------------------------------------------- blocks

  /** The first line at or after `i` that holds an opening brace. */
  function FirstOpen(lines: seq<string>, i: nat): (o: nat)
    requires i <= |lines|
    ensures i <= o <= |lines| && (o < |lines| ==> Opens(lines[o]))
    ensures forall m :: i <= m < o ==> !Opens(lines[m])
    decreases |lines| - i
  {
    if i == |lines| || Opens(lines[i]) then i else FirstOpen(lines, i + 1)
  }

  /** The first line at or after `k` that ends with every brace closed again, counting from line `o`. */
  function FirstClosed(lines: seq<string>, o: nat, k: nat): (e: nat)
    requires o <= k <= |lines|
    ensures k <= e <= |lines| && (e < |lines| ==> Depth(lines, o, e) <= 0)
    ensures forall m :: k <= m < e ==> Depth(lines, o, m) > 0
    decreases |lines| - k
  {
    if k == |lines| || Depth(lines, o, k) <= 0 then k else FirstClosed(lines, o, k + 1)
  }

  /** From an attribute to the line its braces are closed on; `last` is the number of lines when they never are. */
  datatype Block = Block(first: nat, last: nat)

  predicate Holds(b: Block, m: int) {
    b.first <= m <= b.last
  }

  predicate Covered(bs: seq<Block>, m: int) {
    exists x :: 0 <= x < |bs| && Holds(bs[x], m)
  }

  function Blocks(lines: seq<string>, i: nat): seq<Block>
    requires i <= |lines|
    decreases |lines| - i, 0
  {
    if i == |lines| then []
    else if IsAttribute(lines[i]) && FirstOpen(lines, i) < |lines| then
      var e := FirstClosed(lines, FirstOpen(lines, i), FirstOpen(lines, i));
      [Block(i, e)] + From(lines, e + 1)
    else Blocks(lines, i + 1)
  }

  function From(lines: seq<string>, i: nat): seq<Block>
    decreases |lines| - i, 1
  {
    if i <= |lines| then Blocks(lines, i) else []
  }

  lemma CoveredByTheRest(b: Block, rest: seq<Block>, m: int)
    ensures Covered([b] + rest, m) <==> Holds(b, m) || Covered(rest, m)
  {
    var bs := [b] + rest;
    if Holds(b, m) {
      assert Holds(bs[0], m);
    } else if Covered(rest, m) {
      var x :| 0 <= x < |rest| && Holds(rest[x], m);
      assert Holds(bs[x + 1], m);
    }
  }

  /** The line numbers some block covers. */
  function LinesOf(bs: seq<Block>, n: nat): set<int> {
    set m | 0 <= m < n && Covered(bs, m)
  }

  function Range(start: nat, end: nat): set<int> {
    if end <= start then {} else Range(start, end - 1) + {end - 1}
  }

  lemma {:induction false} InRange(start: nat, end: nat, m: int)
    ensures m in Range(start, end) <==> start <= m < end
    decreases end
  {
    if start < end {
      InRange(start, end - 1, m);
    }
  }

  lemma LinesOfTheRest(b: Block, rest: seq<Block>, n: nat)
    requires b.first < n
    ensures LinesOf([b] + rest, n) == Range(b.first, (if b.last < n - 1 then b.last else n - 1) + 1) + LinesOf(rest, n)
  {
    hide Covered;
    var end := (if b.last < n - 1 then b.last else n - 1) + 1;
    forall m
      ensures m in LinesOf([b] + rest, n) <==> m in Range(b.first, end) + LinesOf(rest, n)
    {
      CoveredByTheRest(b, rest, m);
      InRange(b.first, end, m);
    }
  }

  /** The three recursions, one step each. */
  lemma OpenFrom(lines: seq<string>, i: nat)
    requires i < |lines|
    ensures FirstOpen(lines, i) == if Opens(lines[i]) then i else FirstOpen(lines, i + 1)
  {
  }

  lemma ClosedFrom(lines: seq<string>, o: nat, k: nat)
    requires o <= k < |lines|
    ensures Depth(lines, o, k)
            == (if k == o then 0 else Depth(lines, o, k - 1)) + Count(lines[k], '{') - Count(lines[k], '}')
    ensures FirstClosed(lines, o, k) == if Depth(lines, o, k) <= 0 then k else FirstClosed(lines, o, k + 1)
  {
  }

  lemma BlocksFrom(lines: seq<string>, i: nat)
    requires i <= |lines|
    ensures i == |lines| ==> Blocks(lines, i) == []
    ensures i < |lines| && !(IsAttribute(lines[i]) && FirstOpen(lines, i) < |lines|)
            ==> Blocks(lines, i) == Blocks(lines, i + 1)
    ensures i < |lines| && IsAttribute(lines[i]) && FirstOpen(lines, i) < |lines|
            ==> var e := FirstClosed(lines, FirstOpen(lines, i), FirstOpen(lines, i));
                Blocks(lines, i) == [Block(i, e)] + From(lines, e + 1)
  {
    hide IsAttribute, Depth;
  }

  method OpenLine(lines: seq<string>, i: nat) returns (openLine: Option<nat>)
    requires i < |lines|
    ensures openLine == if FirstOpen(lines, i) < |lines| then Some(FirstOpen(lines, i)) else None
  {
    hide FirstOpen;
    var j := i;
    while j < |lines|
      invariant i <= j <= |lines|
      invariant FirstOpen(lines, i) == FirstOpen(lines, j)
    {
      OpenFrom(lines, j);
      if Opens(lines[j]) {
        return Some(j);
      }
      j := j + 1;
    }
    return None;
  }

  method CloseLine(lines: seq<string>, openLine: nat) returns (k: nat)
    requires openLine < |lines| && Opens(lines[openLine])
    ensures k == FirstClosed(lines, openLine, openLine)
  {
    hide FirstClosed, Count, Depth;
    var depth, entered := 0, false;
    k := openLine;
    while k < |lines|
      invariant openLine <= k <= |lines|
      invariant depth == if k == openLine then 0 else Depth(lines, openLine, k - 1)
      invariant entered <==> k > openLine
      invariant FirstClosed(lines, openLine, openLine) == FirstClosed(lines, openLine, k)
    {
      OpensIsACount(lines[k]);
      ClosedFrom(lines, openLine, k);
      depth := depth + Count(lines[k], '{');
      depth := depth - Count(lines[k], '}');
      if Count(lines[k], '{') > 0 {
        entered := true;
      }
      if entered && depth <= 0 {
        break;
      }
      k := k + 1;
    }
  }

  method TestBlockLineNumbers(lines: seq<string>) returns (skip: set<int>)
    ensures skip == LinesOf(Blocks(lines, 0), |lines|)
  {
    hide *;
    skip := {};
    var n := |lines|;
    var i := 0;
    FromIs(lines, 0);
    while i < n
      invariant 0 <= i <= n + 1
      invariant LinesOf(Blocks(lines, 0), n) == skip + LinesOf(From(lines, i), n)
    {
      FromIs(lines, i);
      if IsAttribute(lines[i]) {
        var openLine := OpenLine(lines, i);
        if openLine == None {
          i := i + 1;
          continue;
        }
        var k := CloseLine(lines, openLine.value);
        ghost var before := skip;
        RangeGrows(i, i);
        for m := i to (if k < n - 1 then k else n - 1) + 1
          invariant skip == before + Range(i, m)
        {
          RangeGrows(i, m);
          skip := skip + {m};
        }
        LinesOfTheRest(Block(i, k), From(lines, k + 1), n);
        i := k + 1;
        continue;
      }
      i := i + 1;
    }
    FromIs(lines, i);
  }

  lemma RangeGrows(start: nat, end: nat)
    requires start <= end
    ensures Range(start, start) == {}
    ensures Range(start, end + 1) == Range(start, end) + {end}
  {
  }

  lemma FromIs(lines: seq<string>, i: nat)
    requires i <= |lines| + 1
    ensures i >= |lines| ==> LinesOf(From(lines, i), |lines|) == {}
    ensures i == 0 ==> From(lines, i) == Blocks(lines, i)
    ensures i < |lines| && !(IsAttribute(lines[i]) && FirstOpen(lines, i) < |lines|)
            ==> From(lines, i) == From(lines, i + 1)
    ensures i < |lines| && IsAttribute(lines[i]) && FirstOpen(lines, i) < |lines|
            ==> var e := FirstClosed(lines, FirstOpen(lines, i), FirstOpen(lines, i));
                From(lines, i) == [Block(i, e)] + From(lines, e + 1)
  {
    hide IsAttribute, Depth;
  }

  // ---------------------------------------------------------------- what the blocks are

  ghost predicate IsBlock(lines: seq<string>, b: Block) {
    && b.first < |lines| && IsAttribute(lines[b.first])
    && exists o :: Spans(lines, b, o)
  }

  /** Line `o` is the first at or after `b.first` with an opening brace, and `b.last` the first line from there on that
      leaves nothing open, or the end of the file. */
  predicate Spans(lines: seq<string>, b: Block, o: nat) {
    && b.first <= o < |lines| && Opens(lines[o]) && o <= b.last <= |lines|
    && (forall m :: b.first <= m < o ==> !Opens(lines[m]))
    && (forall m :: o <= m < b.last ==> Depth(lines, o, m) > 0)
    && (b.last < |lines| ==> Depth(lines, o, b.last) <= 0)
  }

  /** An attribute that some brace follows. */
  predicate Guards(lines: seq<string>, i: nat) {
    i < |lines| && IsAttribute(lines[i]) && exists o :: i <= o < |lines| && Opens(lines[o])
  }

  /** Disjoint blocks in order from line `i` on that leave out no attribute that guards something. */
  ghost predicate Reading(lines: seq<string>, i: nat, bs: seq<Block>) {
    && (forall x :: 0 <= x < |bs| ==> IsBlock(lines, bs[x]) && bs[x].first >= i)
    && (forall x, y :: 0 <= x < y < |bs| ==> bs[x].last < bs[y].first)
    && (forall a :: i <= a && Guards(lines, a) ==> Covered(bs, a))
  }

  /** The scan finds such a reading of the file and there is no other. */
  lemma {:induction false} TheOnlyReading(lines: seq<string>, i: nat, bs: seq<Block>)
    requires i <= |lines|
    ensures Reading(lines, i, bs) <==> bs == Blocks(lines, i)
    decreases |lines| - i
  {
    hide IsAttribute, Depth, Opens, Reading, Blocks;
    BlocksFrom(lines, i);
    if i == |lines| {
      NothingAfterTheEnd(lines, i, bs);
    } else if !Guards(lines, i) {
      NothingGuarded(lines, i, bs);
      TheOnlyReading(lines, i + 1, bs);
    } else {
      var o := FirstOpen(lines, i);
      var b := Block(i, FirstClosed(lines, o, o));
      assert Spans(lines, b, o);
      var rest := From(lines, b.last + 1);
      assert Blocks(lines, i) == [b] + rest;
      if bs != [] && bs[0] == b {
        assert [b] + bs[1..] == bs;
        AfterTheFirst(lines, i, b, bs[1..]);
        if b.last < |lines| {
          TheOnlyReading(lines, b.last + 1, bs[1..]);
        } else {
          NothingAfterTheEnd(lines, b.last + 1, bs[1..]);
        }
        assert bs == Blocks(lines, i) <==> bs[1..] == rest;
      } else {
        StartsWithItOrIsNone(lines, i, b, bs);
      }
    }
  }

  lemma NothingAfterTheEnd(lines: seq<string>, i: nat, bs: seq<Block>)
    requires i >= |lines|
    ensures Reading(lines, i, bs) <==> bs == []
  {
    if bs != [] {
      assert !(IsBlock(lines, bs[0]) && bs[0].first >= i);
    }
  }

  lemma NothingGuarded(lines: seq<string>, i: nat, bs: seq<Block>)
    requires i < |lines| && !Guards(lines, i)
    ensures Reading(lines, i, bs) <==> Reading(lines, i + 1, bs)
  {
    hide IsAttribute, Depth, Opens;
    forall x | 0 <= x < |bs| && IsBlock(lines, bs[x])
      ensures bs[x].first != i
    {
      var o :| Spans(lines, bs[x], o);
    }
  }

  lemma OneSpan(lines: seq<string>, b: Block, o: nat, c: Block, p: nat)
    requires Spans(lines, b, o) && Spans(lines, c, p) && b.first == c.first
    ensures b == c
  {
    hide Depth;
  }

  lemma StartsWithItOrIsNone(lines: seq<string>, i: nat, b: Block, bs: seq<Block>)
    requires Guards(lines, i) && IsBlock(lines, b) && b.first == i
    ensures Reading(lines, i, bs) ==> bs != [] && bs[0] == b
  {
    hide IsAttribute, Depth, Opens, Spans, IsBlock, Reading;
    if Reading(lines, i, bs) {
      StartsWithIt(lines, i, b, bs);
    }
  }

  lemma StartsWithIt(lines: seq<string>, i: nat, b: Block, bs: seq<Block>)
    requires Guards(lines, i) && IsBlock(lines, b) && b.first == i && Reading(lines, i, bs)
    ensures bs != [] && bs[0] == b
  {
    hide IsAttribute, Depth, Opens, Spans;
    assert Covered(bs, i);
    var x :| 0 <= x < |bs| && Holds(bs[x], i);
    assert IsBlock(lines, bs[x]);
    FirstIsEarliest(lines, i, bs, x);
    var o :| Spans(lines, b, o);
    var p :| Spans(lines, bs[0], p);
    OneSpan(lines, b, o, bs[0], p);
  }

  lemma FirstIsEarliest(lines: seq<string>, i: nat, bs: seq<Block>, x: nat)
    requires x < |bs| && Reading(lines, i, bs)
    ensures IsBlock(lines, bs[0]) && i <= bs[0].first <= bs[x].first
  {
    hide IsBlock;
    BlockIsForward(lines, bs[0]);
  }

  lemma BlockIsForward(lines: seq<string>, b: Block)
    requires IsBlock(lines, b)
    ensures b.first <= b.last
  {
    hide IsAttribute, Depth, Opens;
  }

  lemma AfterTheFirst(lines: seq<string>, i: nat, b: Block, rest: seq<Block>)
    requires IsBlock(lines, b) && b.first == i
    ensures Reading(lines, i, [b] + rest) <==> Reading(lines, b.last + 1, rest)
  {
    hide IsAttribute, Depth, Opens, Spans, IsBlock;
    BlockIsForward(lines, b);
    var bs := [b] + rest;
    assert bs[0] == b && forall x :: 1 <= x < |bs| ==> bs[x] == rest[x - 1];
    if Reading(lines, i, bs) {
      forall x | 0 <= x < |rest|
        ensures IsBlock(lines, rest[x]) && rest[x].first > b.last
      {
        assert bs[0].last < bs[x + 1].first;
      }
      forall x, y | 0 <= x < y < |rest|
        ensures rest[x].last < rest[y].first
      {
        assert bs[x + 1].last < bs[y + 1].first;
      }
      forall a | b.last < a && Guards(lines, a)
        ensures Covered(rest, a)
      {
        assert Covered(bs, a);
        var x :| 0 <= x < |bs| && Holds(bs[x], a);
        assert Holds(rest[x - 1], a);
      }
    }
    if Reading(lines, b.last + 1, rest) {
      forall a | i <= a && Guards(lines, a)
        ensures Covered(bs, a)
      {
        if a <= b.last {
          assert Holds(bs[0], a);
        } else {
          var x :| 0 <= x < |rest| && Holds(rest[x], a);
          assert Holds(bs[x + 1], a);
        }
      }
    }
  }

  // ---------------------------------------------------------------- the matching brace

  /** The position just after the brace that closes what a line starts `depth` braces deep in. */
  function ClosesAt(line: string, depth: int): (q: Option<nat>)
    requires depth > 0
    ensures q.Some? ==> 0 < q.value <= |line|
    ensures q.None? ==> depth + Net(line) > 0
  {
    if line == "" then None
    else
      var d := depth + (if line[0] == '{' then 1 else if line[0] == '}' then -1 else 0);
      if d == 0 then Some(1)
      else
        var q := ClosesAt(line[1..], d);
        if q.Some? then Some(q.value + 1) else None
  }

  /** The text before and after a line's first opening brace. */
  function Before(line: string): (b: string)
    ensures |b| <= |line| && b == line[..|b|]
    ensures '{' !in b
    ensures Opens(line) ==> |b| < |line| && line[|b|] == '{'
  {
    if line == "" || line[0] == '{' then "" else [line[0]] + Before(line[1..])
  }

  function After(line: string): string
    requires Opens(line)
  {
    line[|Before(line)| + 1..]
  }

  /** Line `l` as far as it follows the first brace opened on line `o`. */
  function Following(lines: seq<string>, o: nat, l: nat): string
    requires o <= l < |lines| && Opens(lines[o])
  {
    if l == o then After(lines[o]) else lines[l]
  }

  /** How many braces are open where that text begins, counting from that first brace. */
  function OpenBefore(lines: seq<string>, o: nat, l: nat): (n: int)
    requires o <= l <= |lines| && o < |lines| && Opens(lines[o])
    ensures l == o ==> n == 1
  {
    if l == o then 1 else OpenBefore(lines, o, l - 1) + Net(Following(lines, o, l - 1))
  }

  /** The line of the brace that closes it, from line `l` on. */
  function MatchFrom(lines: seq<string>, o: nat, l: nat): (m: nat)
    requires o <= l <= |lines| && o < |lines| && Opens(lines[o])
    requires OpenBefore(lines, o, l) > 0
    ensures l <= m <= |lines|
    ensures OpenBefore(lines, o, m) > 0
    decreases |lines| - l
  {
    if l == |lines| || ClosesAt(Following(lines, o, l), OpenBefore(lines, o, l)).Some? then l
    else MatchFrom(lines, o, l + 1)
  }

  function Match(lines: seq<string>, o: nat): (m: nat)
    requires o < |lines| && Opens(lines[o])
    ensures o <= m <= |lines|
    ensures OpenBefore(lines, o, m) > 0
  {
    MatchFrom(lines, o, o)
  }

  lemma {:induction false} ClosedThere(lines: seq<string>, o: nat, l: nat)
    requires o <= l <= |lines| && o < |lines| && Opens(lines[o])
    requires OpenBefore(lines, o, l) > 0
    ensures var m := MatchFrom(lines, o, l);
            m < |lines| ==> ClosesAt(Following(lines, o, m), OpenBefore(lines, o, m)).Some?
    decreases |lines| - l
  {
    hide ClosesAt, OpenBefore, Following;
    if l < |lines| && ClosesAt(Following(lines, o, l), OpenBefore(lines, o, l)).None? {
      OneLineOn(lines, o, l);
      ClosedThere(lines, o, l + 1);
    }
  }

  lemma OneLineOn(lines: seq<string>, o: nat, l: nat)
    requires o <= l < |lines| && Opens(lines[o])
    ensures OpenBefore(lines, o, l + 1) == OpenBefore(lines, o, l) + Net(Following(lines, o, l))
  {
  }

  /** The position just after the matching brace, in the text that follows the first one on its line. */
  function MatchEnd(lines: seq<string>, o: nat): (q: nat)
    requires o < |lines| && Opens(lines[o]) && Match(lines, o) < |lines|
    ensures 0 < q <= |Following(lines, o, Match(lines, o))|
  {
    ClosedThere(lines, o, o);
    ClosesAt(Following(lines, o, Match(lines, o)), OpenBefore(lines, o, Match(lines, o))).value
  }

  /** What stands on the matching brace's line after it; nothing when the brace is never closed. */
  function AfterMatch(lines: seq<string>, o: nat): string
    requires o < |lines| && Opens(lines[o])
  {
    if Match(lines, o) == |lines| then "" else Following(lines, o, Match(lines, o))[MatchEnd(lines, o)..]
  }

  /** How many braces are open `p` characters into that text. */
  function OpenAt(lines: seq<string>, o: nat, l: nat, p: nat): int
    requires o <= l < |lines| && Opens(lines[o]) && p <= |Following(lines, o, l)|
  {
    OpenBefore(lines, o, l) + Net(Following(lines, o, l)[..p])
  }

  lemma {:induction false} CountSplit(a: string, b: string, c: char)
    ensures Count(a + b, c) == Count(a, c) + Count(b, c)
  {
    if a == "" {
      assert a + b == b;
    } else {
      assert (a + b)[1..] == a[1..] + b;
      CountSplit(a[1..], b, c);
    }
  }

  lemma NetSplit(line: string, q: nat)
    requires q <= |line|
    ensures Net(line) == Net(line[..q]) + Net(line[q..])
  {
    assert line == line[..q] + line[q..];
    CountSplit(line[..q], line[q..], '{');
    CountSplit(line[..q], line[q..], '}');
  }

  lemma NetOfFirst(line: string, p: nat)
    requires 0 < p <= |line|
    ensures Net(line[..p]) == (if line[0] == '{' then 1 else if line[0] == '}' then -1 else 0) + Net(line[1..][..p - 1])
  {
    assert line[..p][1..] == line[1..][..p - 1];
  }

  /** Up to the closing position something is open all along, and there, right after a closing brace, nothing is. */
  lemma {:induction false} ClosesExactly(line: string, depth: int, p: nat)
    requires depth > 0 && p <= |line|
    ensures match ClosesAt(line, depth)
            case None => depth + Net(line[..p]) > 0
            case Some(q) => && line[q - 1] == '}' && depth + Net(line[..q]) == 0
                            && (p < q ==> depth + Net(line[..p]) > 0)
  {
    hide Count;
    if p == 0 {
      NetOfNothing();
    }
    if line != "" {
      var d := depth + (if line[0] == '{' then 1 else if line[0] == '}' then -1 else 0);
      NetOfFirst(line, 1);
      NetOfNothing();
      if d > 0 {
        ClosesExactly(line[1..], d, if p > 0 then p - 1 else 0);
        if p > 0 {
          NetOfFirst(line, p);
        }
        var q := ClosesAt(line[1..], d);
        if q.Some? {
          NetOfFirst(line, q.value + 1);
        }
      }
    }
  }

  lemma NetOfNothing()
    ensures Net("") == 0
    ensures forall s: string :: Net(s[..0]) == 0
  {
  }

  lemma {:induction false} OpenUpTo(lines: seq<string>, o: nat, k: nat, l: nat, p: nat)
    requires o <= k <= l < |lines| && Opens(lines[o]) && p <= |Following(lines, o, l)|
    requires OpenBefore(lines, o, k) > 0
    requires l < MatchFrom(lines, o, k)
    ensures OpenAt(lines, o, l, p) > 0
    decreases l - k
  {
    hide ClosesAt, OpenBefore, Following, Net;
    if l > k {
      OneLineOn(lines, o, k);
      OpenUpTo(lines, o, k + 1, l, p);
    } else {
      ClosesExactly(Following(lines, o, l), OpenBefore(lines, o, l), p);
    }
  }

  /** The matching brace is the first place after the opening one where nothing is open. */
  lemma MatchIsTheBrace(lines: seq<string>, o: nat)
    requires o < |lines| && Opens(lines[o])
    ensures forall l, p :: o <= l < Match(lines, o) && 0 <= p <= |Following(lines, o, l)| ==> OpenAt(lines, o, l, p) > 0
    ensures var m := Match(lines, o);
            m < |lines| ==> var q := MatchEnd(lines, o);
                            && Following(lines, o, m)[q - 1] == '}' && OpenAt(lines, o, m, q) == 0
                            && forall p :: 0 <= p < q ==> OpenAt(lines, o, m, p) > 0
  {
    hide ClosesAt, OpenBefore, Following, Net, OpenAt;
    var m := Match(lines, o);
    forall l, p | o <= l < m && 0 <= p <= |Following(lines, o, l)|
      ensures OpenAt(lines, o, l, p) > 0
    {
      OpenUpTo(lines, o, o, l, p);
    }
    if m < |lines| {
      forall p | 0 <= p <= MatchEnd(lines, o)
        ensures Following(lines, o, m)[MatchEnd(lines, o) - 1] == '}' && OpenAt(lines, o, m, MatchEnd(lines, o)) == 0
        ensures p < MatchEnd(lines, o) ==> OpenAt(lines, o, m, p) > 0
      {
        OpenOnItsLine(lines, o, p);
      }
      OpenOnItsLine(lines, o, 0);
    }
  }

  lemma OpenOnItsLine(lines: seq<string>, o: nat, p: nat)
    requires o < |lines| && Opens(lines[o]) && Match(lines, o) < |lines| && p <= MatchEnd(lines, o)
    ensures var m, q := Match(lines, o), MatchEnd(lines, o);
            && Following(lines, o, m)[q - 1] == '}' && OpenAt(lines, o, m, q) == 0
            && (p < q ==> OpenAt(lines, o, m, p) > 0)
  {
    hide ClosesAt, OpenBefore, Following, Net;
    var m := Match(lines, o);
    ClosedThere(lines, o, o);
    ClosesExactly(Following(lines, o, m), OpenBefore(lines, o, m), p);
  }

  // ---------------------------------------------------------------- where a block ends

  /** What a line adds, told by what its first opening brace stands between. */
  lemma NetAroundTheBrace(line: string)
    requires Opens(line)
    ensures Net(line) == 1 + Net(After(line)) - Count(Before(line), '}')
  {
    var b, a := Before(line), After(line);
    assert line == b + "{" + a;
    OpensIsACount(b);
    forall c: char
      ensures Count(line, c) == Count(b, c) + Count("{", c) + Count(a, c)
    {
      CountSplit(b + "{", a, c);
      CountSplit(b, "{", c);
    }
  }

  /** The scan's depth is what is open, less what the opening line closes first. */
  lemma {:induction false} DepthIsOpen(lines: seq<string>, o: nat, l: nat)
    requires o <= l < |lines| && Opens(lines[o])
    ensures Depth(lines, o, l) == OpenBefore(lines, o, l + 1) - Count(Before(lines[o]), '}')
  {
    hide Net, Before, After;
    OneLineOn(lines, o, l);
    if l == o {
      NetAroundTheBrace(lines[o]);
    } else {
      DepthIsOpen(lines, o, l - 1);
    }
  }

  lemma OneEnd(lines: seq<string>, o: nat, e: nat, m: nat)
    requires o < |lines| && o <= e <= |lines| && o <= m <= |lines|
    requires forall l :: o <= l < e ==> Depth(lines, o, l) > 0
    requires e < |lines| ==> Depth(lines, o, e) <= 0
    ensures e == m <==> StaysDeep(lines, o, m) && (m < |lines| ==> Depth(lines, o, m) <= 0)
  {
    hide Depth;
  }

  /** On the match's line the braces open at its end are those of the text after the match. */
  lemma OpenAfterMatch(lines: seq<string>, o: nat)
    requires o < |lines| && Opens(lines[o]) && Match(lines, o) < |lines|
    ensures OpenBefore(lines, o, Match(lines, o) + 1) == Net(AfterMatch(lines, o))
  {
    hide ClosesAt, OpenBefore, Following, Net;
    OneLineOn(lines, o, Match(lines, o));
    OpenOnItsLine(lines, o, 0);
    NetSplit(Following(lines, o, Match(lines, o)), MatchEnd(lines, o));
  }

  /** Each line from `o` up to line `m` ends with more than `closed` braces open. */
  predicate KeepsOpen(lines: seq<string>, o: nat, m: nat, closed: nat)
    requires o < |lines| && Opens(lines[o]) && o <= m <= |lines|
  {
    forall l :: o < l <= m ==> OpenBefore(lines, o, l) > closed
  }

  /** Each line from `o` up to line `m` leaves the scan's depth positive. */
  predicate StaysDeep(lines: seq<string>, o: nat, m: nat)
    requires o <= m <= |lines|
  {
    forall l :: o <= l < m ==> Depth(lines, o, l) > 0
  }

  lemma LineEnds(lines: seq<string>, o: nat, m: nat)
    requires o < |lines| && Opens(lines[o]) && o <= m <= |lines|
    ensures StaysDeep(lines, o, m) <==> KeepsOpen(lines, o, m, Count(Before(lines[o]), '}'))
  {
    hide Net, Following, Before;
    var closed := Count(Before(lines[o]), '}');
    if StaysDeep(lines, o, m) {
      forall l | o < l <= m
        ensures OpenBefore(lines, o, l) > closed
      {
        DepthIsOpen(lines, o, l - 1);
      }
    }
    if KeepsOpen(lines, o, m, closed) {
      forall l | o <= l < m
        ensures Depth(lines, o, l) > 0
      {
        DepthIsOpen(lines, o, l);
        assert OpenBefore(lines, o, l + 1) > closed;
      }
    }
  }

  /** The block ends on the line of its matching brace if and only if every line before it ends with more braces open
      than the opening line closed first, and the text after the match opens no more than those. When the opening line
      closes nothing first, all that can go wrong is something left open after the match on its line. */
  lemma BlockEndsAtItsMatchIff(lines: seq<string>, o: nat)
    requires o < |lines| && Opens(lines[o])
    ensures var m, closed := Match(lines, o), Count(Before(lines[o]), '}');
            && (FirstClosed(lines, o, o) == m
                <==> KeepsOpen(lines, o, m, closed) && Net(AfterMatch(lines, o)) <= closed)
            && (closed == 0 ==> (FirstClosed(lines, o, o) == m <==> Net(AfterMatch(lines, o)) <= 0))
  {
    hide FirstClosed, Net, Following, Before, Match;
    var m, closed := Match(lines, o), Count(Before(lines[o]), '}');
    OneEnd(lines, o, FirstClosed(lines, o, o), m);
    LineEnds(lines, o, m);
    if m < |lines| {
      DepthIsOpen(lines, o, m);
      OpenAfterMatch(lines, o);
    } else {
      NetOfNothing();
    }
    forall l | o < l <= m
      ensures OpenBefore(lines, o, l) > 0
    {
      OpenAtLineEnds(lines, o, l);
    }
  }

  lemma OpenAtLineEnds(lines: seq<string>, o: nat, l: nat)
    requires o < |lines| && Opens(lines[o]) && o < l <= Match(lines, o)
    ensures OpenBefore(lines, o, l) > 0
  {
    hide OpenBefore, Net, Following, MatchFrom;
    var whole := Following(lines, o, l - 1);
    OpenUpTo(lines, o, o, l - 1, |whole|);
    OneLineOn(lines, o, l - 1);
    assert whole[..|whole|] == whole;
  }

  const CFG_TEST: string := "#[cfg(test)]"

  lemma CfgTestIsAttribute()
    ensures IsAttribute(CFG_TEST) && !Opens(CFG_TEST) && !IsAttribute("}")
  {
    hide Strip, RStrip, LStrip;
    TightIsStripped(CFG_TEST);
    TightIsStripped("}");
    assert |CFG_TEST| > |"}"|;
  }

  /** A closing line that opens something else is followed to the end of that. */
  lemma BlockCanOutrunItsMatch()
    ensures var lines := [CFG_TEST, "{}{", "}"]; Match(lines, 1) == 1 && Blocks(lines, 0) == [Block(0, 2)]
  {
    hide FirstClosed, IsAttribute;
    var lines := [CFG_TEST, "{}{", "}"];
    CfgTestIsAttribute();
    assert Match(lines, 1) == 1 by {
      assert Before("{}{") == "";
      assert After("{}{") == "}{";
    }
    assert Depth(lines, 1, 1) == 1 by {
      assert Count("{}{", '{') == 2 && Count("{}{", '}') == 1;
    }
    assert Depth(lines, 1, 2) == 0 by {
      assert Net("}") == -1;
    }
    OneEnd(lines, 1, FirstClosed(lines, 1, 1), 2);
    assert FirstOpen(lines, 0) == 1;
    BlocksFrom(lines, 0);
  }

  /** A brace closed before the first one opened ends the block at once. */
  lemma BlockCanStopShort()
    ensures var lines := [CFG_TEST, "}{", "}"]; Match(lines, 1) == 2 && Blocks(lines, 0) == [Block(0, 1)]
  {
    hide FirstClosed, IsAttribute;
    var lines := [CFG_TEST, "}{", "}"];
    CfgTestIsAttribute();
    assert Match(lines, 1) == 2 by {
      assert Before("}{") == "}";
      assert After("}{") == "";
      assert ClosesAt("", 1) == None;
      assert OpenBefore(lines, 1, 2) == 1;
      assert ClosesAt("}", 1) == Some(1);
    }
    assert Depth(lines, 1, 1) == 0 by {
      assert Count("}{", '{') == 1 && Count("}{", '}') == 1;
    }
    OneEnd(lines, 1, FirstClosed(lines, 1, 1), 1);
    assert FirstOpen(lines, 0) == 1;
    BlocksFrom(lines, 0);
    BlocksFrom(lines, 2);
    BlocksFrom(lines, 3);
  }
}
