/** The capability-ID drift check of `scripts/map-index.py`. A capability's identifier is its line number in the map,
    so an insertion silently renames every capability below it; the check is what notices. The digest is a parameter:
    all that is asked of it is stated where it is asked. */
module MapIndex {
  import opened Text

  const OPEN: char := '\U{2610}'
  const TICKED: char := '\U{2611}'

  const SEARCH: int := 400

  type Digest = string -> string

  predicate IsGlyph(c: char) {
    c == OPEN || c == TICKED
  }

  predicate IsBox(line: string) {
    line != "" && IsGlyph(line[0])
  }

  // ---------------------------------------------------------------- a box's identity

  /** `" ".join(s.split())`; `word` is the word being read. */
  function Collapsed(s: string, word: string): string
    decreases |s|
  {
    if s == "" then word
    else if !IsSpace(s[0]) then Collapsed(s[1..], word + [s[0]])
    else
      var rest := Collapsed(s[1..], "");
      if word == "" then rest else if rest == "" then word else word + " " + rest
  }

  function Normalised(line: string): string {
    var s := Strip(line);
    Collapsed(if IsBox(s) then Strip(s[1..]) else s, "")
  }

  /** Ticking or unticking a box keeps its identity. */
  lemma TickKeepsIdentity(a: char, b: char, rest: string)
    requires IsGlyph(a) && IsGlyph(b)
    ensures Normalised([a] + rest) == Normalised([b] + rest)
  {
    StripKeepsGlyph(a, rest);
    StripKeepsGlyph(b, rest);
  }

  lemma StripKeepsGlyph(g: char, rest: string)
    requires IsGlyph(g)
    ensures Strip([g] + rest) == [g] + RStrip(rest)
  {
    RStripAfterGlyph(g, rest);
    assert ([g] + RStrip(rest))[0] == g;
  }

  lemma {:induction false} RStripAfterGlyph(g: char, rest: string)
    requires IsGlyph(g)
    ensures RStrip([g] + rest) == [g] + RStrip(rest)
  {
    var n := |rest|;
    if n > 0 && IsSpace(rest[n - 1]) {
      assert ([g] + rest)[..n] == [g] + rest[..n - 1];
      RStripAfterGlyph(g, rest[..n - 1]);
    }
  }

  /** The words of a text, between its whitespace. */
  function Words(s: string): (words: seq<string>)
    ensures s != "" && !IsSpace(s[0]) ==> words != []
  {
    if s == "" then []
    else if IsSpace(s[0]) then Words(s[1..])
    else if |s| == 1 || IsSpace(s[1]) then [[s[0]]] + Words(s[1..])
    else
      var words := Words(s[1..]);
      [[s[0]] + words[0]] + words[1..]
  }

  predicate IsWord(w: string) {
    w != "" && forall i :: 0 <= i < |w| ==> !IsSpace(w[i])
  }

  function Spaced(words: seq<string>): string {
    if words == [] then ""
    else if |words| == 1 then words[0]
    else words[0] + " " + Spaced(words[1..])
  }

  /** The words of `s`, the first of which `word` begins. */
  function WordsAfter(word: string, s: string): seq<string> {
    if word == "" then Words(s)
    else if s == "" || IsSpace(s[0]) then [word] + Words(s)
    else [word + Words(s)[0]] + Words(s)[1..]
  }

  lemma {:induction false} WordsAreWords(s: string)
    ensures forall i :: 0 <= i < |Words(s)| ==> IsWord(Words(s)[i])
  {
    hide IsSpace;
    if s != "" {
      WordsAreWords(s[1..]);
    }
  }

  lemma WordsOnce(s: string)
    requires s != "" && !IsSpace(s[0])
    ensures var rest := s[1..];
            Words(s) == if rest == "" || IsSpace(rest[0]) then [[s[0]]] + Words(rest)
                        else [[s[0]] + Words(rest)[0]] + Words(rest)[1..]
  {
    hide IsSpace;
  }

  lemma WordsAfterOne(word: string, s: string)
    requires s != "" && !IsSpace(s[0])
    ensures WordsAfter(word + [s[0]], s[1..]) == WordsAfter(word, s)
  {
    hide IsSpace, Words;
    WordsOnce(s);
    var rest := s[1..];
    if rest != "" && !IsSpace(rest[0]) {
      var first := Words(rest)[0];
      assert word + [s[0]] + first == word + ([s[0]] + first);
    }
    assert word == "" ==> word + [s[0]] == [s[0]];
  }

  lemma {:induction false} CollapsedIs(s: string, word: string)
    ensures Collapsed(s, word) == Spaced(WordsAfter(word, s))
  {
    hide IsSpace;
    if s != "" {
      if !IsSpace(s[0]) {
        CollapsedIs(s[1..], word + [s[0]]);
        WordsAfterOne(word, s);
      } else {
        CollapsedIs(s[1..], "");
        var rest := Words(s[1..]);
        WordsAreWords(s[1..]);
        SpacedIsEmptyIff(rest);
        assert word != "" ==> ([word] + rest)[1..] == rest;
      }
    }
  }

  lemma SpacedIsEmptyIff(words: seq<string>)
    requires forall i :: 0 <= i < |words| ==> IsWord(words[i])
    ensures Spaced(words) == "" <==> words == []
  {
    hide IsSpace;
    if words != [] {
      assert IsWord(words[0]);
    }
  }

  lemma {:induction false} WordsOfSpaced(words: seq<string>)
    requires forall i :: 0 <= i < |words| ==> IsWord(words[i])
    ensures Words(Spaced(words)) == words
  {
    hide IsWord, IsSpace;
    if words != [] {
      WordsOfSpaced(words[1..]);
      if |words| == 1 {
        assert words[0] + "" == words[0];
        WordFirst(words[0], "");
      } else {
        assert words[0] + (" " + Spaced(words[1..])) == Spaced(words);
        BlankIsSpace();
        WordFirst(words[0], " " + Spaced(words[1..]));
        assert (" " + Spaced(words[1..]))[1..] == Spaced(words[1..]);
      }
    }
  }

  lemma BlankIsSpace()
    ensures IsSpace(' ')
  {
  }

  lemma {:induction false} WordFirst(w: string, rest: string)
    requires IsWord(w) && (rest == "" || IsSpace(rest[0]))
    ensures Words(w + rest) == [w] + Words(rest)
  {
    hide IsSpace;
    var s := w + rest;
    assert s[1..] == w[1..] + rest;
    if |w| == 1 {
      assert s[1..] == rest && w == [s[0]];
    } else {
      assert IsWord(w[1..]);
      WordFirst(w[1..], rest);
      assert [s[0]] + w[1..] == w;
    }
  }

  lemma {:induction false} WordsOfLStrip(s: string)
    ensures Words(LStrip(s)) == Words(s)
  {
    hide IsSpace;
    if s != "" && IsSpace(s[0]) {
      WordsOfLStrip(s[1..]);
    }
  }

  lemma {:induction false} WordsOfRStrip(s: string)
    ensures Words(RStrip(s)) == Words(s)
  {
    hide IsSpace;
    if s != "" && IsSpace(s[|s| - 1]) {
      WordsOfRStrip(s[..|s| - 1]);
      SpaceAfter(s[..|s| - 1], s[|s| - 1]);
      assert s[..|s| - 1] + [s[|s| - 1]] == s;
    }
  }

  lemma {:induction false} SpaceAfter(s: string, space: char)
    requires IsSpace(space)
    ensures Words(s + [space]) == Words(s)
  {
    hide IsSpace;
    var whole := s + [space];
    if s == "" {
      assert whole[1..] == "";
    } else {
      assert whole[1..] == s[1..] + [space];
      SpaceAfter(s[1..], space);
    }
  }

  lemma NormalisedOfBox(g: char, text: string)
    requires IsGlyph(g)
    ensures Normalised([g] + text) == Collapsed(Strip(RStrip(text)), "")
  {
    hide Collapsed, Strip, RStrip;
    StripKeepsGlyph(g, text);
    assert ([g] + RStrip(text))[1..] == RStrip(text);
  }

  lemma WordsOfStrip(s: string)
    ensures Words(Strip(s)) == Words(s)
  {
    hide Words, LStrip, RStrip;
    WordsOfRStrip(s);
    WordsOfLStrip(RStrip(s));
  }

  /** The identity of a box: the words after its glyph, one space apart. */
  lemma NormalisedIs(g: char, text: string)
    requires IsGlyph(g)
    ensures Normalised([g] + text) == Spaced(Words(text))
  {
    hide Words, Spaced, Collapsed, Normalised, Strip, RStrip, IsSpace, IsGlyph;
    NormalisedOfBox(g, text);
    CollapsedIs(Strip(RStrip(text)), "");
    WordsOfStrip(RStrip(text));
    WordsOfRStrip(text);
  }

  /** Two boxes are the same exactly when their words are, whether ticked or not and however spaced. */
  lemma SameBoxIff(a: string, b: string)
    requires IsBox(a) && IsBox(b)
    ensures Normalised(a) == Normalised(b) <==> Words(a[1..]) == Words(b[1..])
  {
    hide Words, Spaced, Normalised;
    assert a == [a[0]] + a[1..] && b == [b[0]] + b[1..];
    NormalisedIs(a[0], a[1..]);
    NormalisedIs(b[0], b[1..]);
    WordsAreWords(a[1..]);
    WordsAreWords(b[1..]);
    WordsOfSpaced(Words(a[1..]));
    WordsOfSpaced(Words(b[1..]));
  }

  // ---------------------------------------------------------------- the boxes of a map

  type Index = map<int, string>

  predicate BoxAt(lines: seq<string>, n: int) {
    1 <= n <= |lines| && IsBox(lines[n - 1])
  }

  /** Line number to digest, of every box. */
  function Digests(digest: Digest, lines: seq<string>): Index {
    map n: int | 1 <= n <= |lines| && BoxAt(lines, n) :: digest(Normalised(lines[n - 1]))
  }

  method Boxes(digest: Digest, lines: seq<string>) returns (current: Index)
    ensures current == Digests(digest, lines)
  {
    hide Normalised;
    current := map[];
    for i := 0 to |lines|
      invariant current == Digests(digest, lines[..i])
    {
      if IsBox(lines[i]) {
        current := current[i + 1 := digest(Normalised(lines[i]))];
      }
    }
    assert lines[..|lines|] == lines;
  }

  // ---------------------------------------------------------------- the recorded index

  /** The lines of the index file, of the entries numbered below `n`, in order. */
  function IndexLines(index: Index, n: nat): seq<string> {
    if n == 0 then []
    else IndexLines(index, n - 1) + if n - 1 in index then [Decimal(n - 1) + "\t" + index[n - 1]] else []
  }

  function TabAt(s: string): (k: nat)
    ensures k <= |s|
    ensures forall i :: 0 <= i < k ==> s[i] != '\t'
    ensures k < |s| ==> s[k] == '\t'
  {
    if s == "" || s[0] == '\t' then 0 else 1 + TabAt(s[1..])
  }

  /** `read_index`: comments and blank lines are passed over; any other line is a number, a tab and a digest. */
  function ReadLines(lines: seq<string>): Result<Index> {
    if lines == [] then Ok(map[])
    else
      var n := |lines| - 1;
      var line := lines[n];
      var k := TabAt(line);
      match ReadLines(lines[..n])
      case Error => Error
      case Ok(index) =>
        if StartsWith(line, "#") || Strip(line) == "" then Ok(index)
        else if k == 0 || k == |line| || '\t' in line[k + 1..] || !AllDigits(line[..k]) then Error
        else Ok(index[DigitsValue(line[..k]) := Strip(line[k + 1..])])
  }

  predicate IsDigest(h: string) {
    h != "" && forall i :: 0 <= i < |h| ==> !IsSpace(h[i])
  }

  lemma EntryIsRead(n: nat, h: string)
    requires IsDigest(h)
    ensures
      var line := Decimal(n) + "\t" + h;
      var k := TabAt(line);
      && k == |Decimal(n)| && line[..k] == Decimal(n) && line[k + 1..] == h
      && !StartsWith(line, "#") && Strip(line) != ""
    ensures Strip(h) == h && '\t' !in h
  {
    hide Decimal, LStrip, RStrip, Strip;
    TabAfter(Decimal(n), h);
    var line := Decimal(n) + "\t" + h;
    assert line[..1] == [Decimal(n)[0]];
    TightIsStripped(line);
    TightIsStripped(h);
  }

  lemma TabAfter(d: string, h: string)
    requires AllDigits(d)
    ensures
      var line := d + "\t" + h;
      TabAt(line) == |d| && line[..|d|] == d && line[|d| + 1..] == h
  {
    var line := d + "\t" + h;
    assert forall i :: 0 <= i < |d| ==> line[i] == d[i] && line[i] != '\t';
    assert line[|d|] == '\t';
  }

  /** The entries numbered below `n`. */
  function Below(index: Index, n: nat): Index {
    map k | k in index && 0 <= k < n :: index[k]
  }

  lemma BelowStep(index: Index, n: nat)
    ensures Below(index, 0) == map[]
    ensures Below(index, n + 1) == if n in index then Below(index, n)[n := index[n]] else Below(index, n)
  {
  }

  /** Reading what was written gives back the index, comments and all. */
  lemma {:induction false} IndexRoundTrip(comments: seq<string>, index: Index, n: nat)
    requires forall l :: l in comments ==> StartsWith(l, "#")
    requires forall k :: k in index ==> IsDigest(index[k])
    ensures ReadLines(comments + IndexLines(index, n)) == Ok(Below(index, n))
  {
    hide Strip, StartsWith, IsDigest, Decimal, ReadLines, Below;
    if n == 0 {
      assert comments + [] == comments;
      CommentsAreRead(comments);
      BelowStep(index, 0);
    } else {
      IndexRoundTrip(comments, index, n - 1);
      BelowStep(index, n - 1);
      var front := comments + IndexLines(index, n - 1);
      if n - 1 in index {
        assert comments + IndexLines(index, n) == front + [Decimal(n - 1) + "\t" + index[n - 1]];
        OneMoreIsRead(front, Below(index, n - 1), n - 1, index[n - 1]);
      } else {
        assert comments + IndexLines(index, n) == front;
      }
    }
  }

  lemma OneMoreIsRead(front: seq<string>, index: Index, n: nat, h: string)
    requires ReadLines(front) == Ok(index) && IsDigest(h)
    ensures ReadLines(front + [Decimal(n) + "\t" + h]) == Ok(index[n := h])
  {
    hide Strip, StartsWith, IsDigest, Decimal, TabAt;
    var line := Decimal(n) + "\t" + h;
    assert (front + [line])[..|front|] == front;
    EntryIsRead(n, h);
    DecimalValue(n);
    DecimalIsDigits(n);
  }

  lemma DecimalIsDigits(n: nat)
    ensures AllDigits(Decimal(n)) && Decimal(n) != ""
  {
  }

  lemma {:induction false} CommentsAreRead(comments: seq<string>)
    requires forall l :: l in comments ==> StartsWith(l, "#")
    ensures ReadLines(comments) == Ok(map[])
  {
    hide Strip, StartsWith;
    if comments != [] {
      CommentsAreRead(comments[..|comments| - 1]);
    }
  }

  // ---------------------------------------------------------------- the check

  predicate Holds(current: Index, n: int, h: string) {
    n in current && current[n] == h
  }

  /** Where the search for a box that was at `n` ends, from `delta` on: near before far, below before above. */
  function Search(current: Index, n: int, h: string, delta: int): Option<int>
    requires 1 <= delta <= SEARCH + 1
    decreases SEARCH + 1 - delta
  {
    if delta == SEARCH + 1 then None
    else if Holds(current, n + delta, h) then Some(n + delta)
    else if Holds(current, n - delta, h) then Some(n - delta)
    else Search(current, n, h, delta + 1)
  }

  datatype Drift = Drift(moved: seq<(int, int)>, gone: seq<int>)

  /** The report on the recorded lines up to `n`. */
  function Report(recorded: Index, current: Index, n: nat): Drift {
    if n == 0 then Drift([], [])
    else
      var d := Report(recorded, current, n - 1);
      if n !in recorded || Holds(current, n, recorded[n]) then d
      else
        match Search(current, n, recorded[n], 1)
        case Some(m) => d.(moved := d.moved + [(n, m)])
        case None => d.(gone := d.gone + [n])
  }

  lemma ReportOnce(recorded: Index, current: Index, n: nat)
    ensures n == 0 ==> Report(recorded, current, n) == Drift([], [])
    ensures n > 0 ==>
      var d := Report(recorded, current, n - 1);
      Report(recorded, current, n)
      == if n !in recorded || Holds(current, n, recorded[n]) then d
         else
           match Search(current, n, recorded[n], 1)
           case Some(m) => Drift(d.moved + [(n, m)], d.gone)
           case None => Drift(d.moved, d.gone + [n])
  {
    hide Search, Holds;
  }

  method Find(current: Index, n: int, h: string) returns (found: Option<int>)
    ensures found == Search(current, n, h, 1)
  {
    found := None;
    var delta := 1;
    while delta <= SEARCH
      invariant 1 <= delta <= SEARCH + 1
      invariant Search(current, n, h, delta) == Search(current, n, h, 1)
    {
      if Holds(current, n + delta, h) {
        return Some(n + delta);
      }
      if Holds(current, n - delta, h) {
        return Some(n - delta);
      }
      delta := delta + 1;
    }
  }

  /** `check`, over the recorded index of a map of `count` lines. */
  method Check(digest: Digest, recorded: Index, lines: seq<string>, count: nat) returns (drift: Drift, clean: bool)
    ensures drift == Report(recorded, Digests(digest, lines), count)
    ensures clean <==> drift == Drift([], [])
  {
    var current := Boxes(digest, lines);
    drift := Drift([], []);
    for n := 0 to count
      invariant drift == Report(recorded, current, n)
    {
      if n + 1 in recorded && !Holds(current, n + 1, recorded[n + 1]) {
        var found := Find(current, n + 1, recorded[n + 1]);
        match found {
          case Some(m) => drift := drift.(moved := drift.moved + [(n + 1, m)]);
          case None => drift := drift.(gone := drift.gone + [n + 1]);
        }
      }
    }
    clean := drift.moved == [] && drift.gone == [];
  }

  // ---------------------------------------------------------------- what the report means

  predicate Distinct(index: Index) {
    forall m, n :: m in index && n in index && index[m] == index[n] ==> m == n
  }

  /** With distinct digests the search finds the one place the box is at now, if that is within reach. */
  lemma {:induction false} SearchIsExact(current: Index, n: int, h: string, m: int, delta: int)
    requires Distinct(current) && 1 <= delta <= SEARCH + 1
    ensures Search(current, n, h, delta) == Some(m) <==>
      Holds(current, m, h) && (delta <= m - n <= 400 || delta <= n - m <= 400)
    decreases SEARCH + 1 - delta
  {
    hide Distinct;
    if delta <= SEARCH {
      SearchIsExact(current, n, h, m, delta + 1);
      OnePlace(current, n + delta, m, h);
      OnePlace(current, n - delta, m, h);
    }
  }

  function Away(m: int, n: int): nat {
    if m >= n then m - n else n - m
  }

  /** `p` is as near as can be to `n`, from `delta` on, of the places that hold `h`, and of two as near the lower one on
      the page. */
  ghost predicate IsNearest(current: Index, n: int, h: string, delta: nat, p: int) {
    && Holds(current, p, h) && delta <= Away(p, n) <= 400
    && forall q :: Holds(current, q, h) && delta <= Away(q, n) && q != p ==>
         Away(p, n) < Away(q, n) || (Away(p, n) == Away(q, n) && q < p)
  }

  /** Whatever the digests, the search answers with the nearest place within reach, and of two as near with the one
      below; it fails only where there is none. */
  lemma {:induction false} SearchIsNearest(current: Index, n: int, h: string, delta: nat)
    requires 1 <= delta <= SEARCH + 1
    ensures var found := Search(current, n, h, delta);
            if found.Some? then IsNearest(current, n, h, delta, found.value)
            else forall q :: Holds(current, q, h) && delta <= Away(q, n) ==> Away(q, n) > 400
    decreases SEARCH + 1 - delta
  {
    hide Holds;
    if delta <= SEARCH {
      SearchIsNearest(current, n, h, delta + 1);
      assert forall q :: Away(q, n) == delta <==> q == n + delta || q == n - delta;
    }
  }

  lemma OnePlace(current: Index, m: int, n: int, h: string)
    requires Distinct(current)
    ensures Holds(current, m, h) && Holds(current, n, h) ==> m == n
  {
  }

  lemma SearchFails(current: Index, n: int, h: string)
    requires Distinct(current)
    requires forall m :: Holds(current, m, h) ==> m - n > SEARCH || n - m > SEARCH
    ensures Search(current, n, h, 1) == None
  {
    if Search(current, n, h, 1).Some? {
      SearchIsExact(current, n, h, Search(current, n, h, 1).value, 1);
    }
  }

  function Inserted(lines: seq<string>, at: nat, added: seq<string>): seq<string>
    requires at <= |lines|
  {
    lines[..at] + added + lines[at..]
  }

  /** The numbers up to `n` of the boxes below line `at`. */
  function BoxesBelow(lines: seq<string>, at: nat, n: nat): seq<int>
    requires n <= |lines|
  {
    if n <= at then []
    else BoxesBelow(lines, at, n - 1) + if BoxAt(lines, n) then [n] else []
  }

  function Shifted(ids: seq<int>, distance: int): (pairs: seq<(int, int)>)
    ensures |pairs| == |ids|
  {
    seq(|ids|, i requires 0 <= i < |ids| => (ids[i], ids[i] + distance))
  }

  lemma LineAfterInsertion(lines: seq<string>, at: nat, added: seq<string>, n: int)
    requires at <= |lines| && 1 <= n <= |lines|
    ensures
      var now := if n <= at then n else n + |added|;
      1 <= now <= |Inserted(lines, at, added)| && Inserted(lines, at, added)[now - 1] == lines[n - 1]
  {
  }

  /** One recorded box, of digest `h`, after an insertion of `added` below line `at`. */
  lemma BoxAfterInsertion(
      digest: Digest, lines: seq<string>, at: nat, added: seq<string>, n: int, h: string, current: Index)
    requires at <= |lines| && added != []
    requires BoxAt(lines, n) && h == digest(Normalised(lines[n - 1]))
    requires current == Digests(digest, Inserted(lines, at, added)) && Distinct(current)
    ensures n <= at ==> Holds(current, n, h)
    ensures n > at ==> !Holds(current, n, h)
    ensures n > at ==> Search(current, n, h, 1) == if |added| <= SEARCH then Some(n + |added|) else None
  {
    hide Distinct, IsBox, Inserted, Search, Normalised;
    LineAfterInsertion(lines, at, added, n);
    var m := n + |added|;
    if n > at {
      assert BoxAt(Inserted(lines, at, added), m);
      assert Holds(current, m, h);
      OnePlace(current, m, n, h);
      SearchIsExact(current, n, h, m, 1);
      forall p | Holds(current, p, h)
        ensures p == m
      {
        OnePlace(current, p, m, h);
      }
      if |added| > SEARCH {
        SearchFails(current, n, h);
      }
    } else {
      assert BoxAt(Inserted(lines, at, added), n);
    }
  }

  /** The report on an insertion is exact: of the boxes recorded, those at or above it are stable, and those below are
      all reported as moved by its length, or all as gone when it is longer than the search reaches. */
  lemma {:induction false} InsertionReport(digest: Digest, lines: seq<string>, at: nat, added: seq<string>, n: nat)
    requires at <= |lines| && n <= |lines| && added != []
    requires Distinct(Digests(digest, Inserted(lines, at, added)))
    ensures
      Report(Digests(digest, lines), Digests(digest, Inserted(lines, at, added)), n)
      == if |added| <= 400 then Drift(Shifted(BoxesBelow(lines, at, n), |added|), [])
         else Drift([], BoxesBelow(lines, at, n))
  {
    hide Distinct, Inserted, Search, Normalised, Holds, Report;
    ReportOnce(Digests(digest, lines), Digests(digest, Inserted(lines, at, added)), n);
    if n > 0 {
      InsertionReport(digest, lines, at, added, n - 1);
      if BoxAt(lines, n) {
        BoxAfterInsertion(digest, lines, at, added, n, digest(Normalised(lines[n - 1])),
                          Digests(digest, Inserted(lines, at, added)));
        var below := BoxesBelow(lines, at, n - 1);
        assert Shifted(below + [n], |added|) == Shifted(below, |added|) + [(n as int, n + |added|)];
        BoxesAbove(lines, at, n - 1);
      }
    }
  }

  lemma BoxesAbove(lines: seq<string>, at: nat, n: nat)
    requires n <= |lines|
    ensures n <= at ==> BoxesBelow(lines, at, n) == []
  {
  }

  /** So the check is clean after an insertion if and only if no box is below it. */
  lemma InsertionIsNoticedIff(digest: Digest, lines: seq<string>, at: nat, added: seq<string>)
    requires at <= |lines| && added != []
    requires Distinct(Digests(digest, Inserted(lines, at, added)))
    ensures
      Report(Digests(digest, lines), Digests(digest, Inserted(lines, at, added)), |lines|) == Drift([], [])
      <==> forall n :: at <= n < |lines| ==> !StartsWith(lines[n], "\U{2610}") && !StartsWith(lines[n], "\U{2611}")
  {
    hide Report, Inserted, Distinct, StartsWith;
    InsertionReport(digest, lines, at, added, |lines|);
    BoxesBelowIsEmpty(lines, at, |lines|);
    NoBoxBelowIff(lines, at);
  }

  lemma NoBoxBelowIff(lines: seq<string>, at: nat)
    ensures (forall n :: at < n <= |lines| ==> !BoxAt(lines, n))
            <==> forall n ::
                   at <= n < |lines| ==> !StartsWith(lines[n], "\U{2610}") && !StartsWith(lines[n], "\U{2611}")
  {
    hide StartsWith, IsBox;
    forall n | 0 <= n < |lines|
      ensures BoxAt(lines, n + 1) <==> StartsWith(lines[n], "\U{2610}") || StartsWith(lines[n], "\U{2611}")
    {
      BoxIsSpelled(lines[n]);
    }
    if exists n :: at < n <= |lines| && BoxAt(lines, n) {
      var n :| at < n <= |lines| && BoxAt(lines, n);
      BoxIsSpelled(lines[n - 1]);
    }
    if exists n :: at <= n < |lines| && (StartsWith(lines[n], "\U{2610}") || StartsWith(lines[n], "\U{2611}")) {
      var n :| at <= n < |lines| && (StartsWith(lines[n], "\U{2610}") || StartsWith(lines[n], "\U{2611}"));
      assert BoxAt(lines, n + 1);
    }
  }

  lemma BoxIsSpelled(line: string)
    ensures IsBox(line) <==> StartsWith(line, "\U{2610}") || StartsWith(line, "\U{2611}")
  {
    assert line != "" ==> line[..1] == [line[0]];
  }

  lemma {:induction false} BoxesBelowIsEmpty(lines: seq<string>, at: nat, n: nat)
    requires n <= |lines|
    ensures BoxesBelow(lines, at, n) == [] <==> forall m :: at < m <= n ==> !BoxAt(lines, m)
  {
    hide BoxAt;
    if n > at {
      BoxesBelowIsEmpty(lines, at, n - 1);
    }
  }

  /** Nothing but ticks differs. */
  predicate OnlyTicks(before: seq<string>, after: seq<string>) {
    && |before| == |after|
    && forall i :: 0 <= i < |before| ==>
         before[i] == after[i] || (IsBox(before[i]) && IsBox(after[i]) && before[i][1..] == after[i][1..])
  }

  /** Ticking any set of boxes is silent. */
  lemma TicksAreSilent(digest: Digest, before: seq<string>, after: seq<string>, n: nat)
    requires OnlyTicks(before, after)
    ensures Report(Digests(digest, before), Digests(digest, after), n) == Drift([], [])
  {
    hide Normalised;
    var b, a := Digests(digest, before), Digests(digest, after);
    forall i | 0 <= i < |before|
      ensures IsBox(before[i]) == IsBox(after[i])
      ensures IsBox(before[i]) ==> Normalised(before[i]) == Normalised(after[i])
    {
      if before[i] != after[i] {
        var rest := before[i][1..];
        TickKeepsIdentity(before[i][0], after[i][0], rest);
        assert before[i] == [before[i][0]] + rest && after[i] == [after[i][0]] + rest;
      }
    }
    assert forall m :: BoxAt(before, m) <==> BoxAt(after, m);
    assert b == a;
    SameIsSilent(b, n);
  }

  lemma {:induction false} SameIsSilent(index: Index, n: nat)
    ensures Report(index, index, n) == Drift([], [])
  {
    if n > 0 {
      SameIsSilent(index, n - 1);
    }
  }

  lemma {:induction false} NowhereToFind(current: Index, n: int, h: string, delta: int)
    requires 1 <= delta <= SEARCH + 1 && forall m :: !Holds(current, m, h)
    ensures Search(current, n, h, delta) == None
    decreases SEARCH + 1 - delta
  {
    hide Holds;
    if delta <= SEARCH {
      NowhereToFind(current, n, h, delta + 1);
    }
  }

  /** A line in another's place keeps the box that was there. */
  predicate KeepsBox(before: string, after: string) {
    IsBox(before) && IsBox(after) && Words(after[1..]) == Words(before[1..])
  }

  lemma OtherLinesStay(digest: Digest, lines: seq<string>, k: nat, line: string, n: int)
    requires k < |lines| && n != k + 1
    ensures BoxAt(lines, n) <==> BoxAt(lines[k := line], n)
    ensures BoxAt(lines, n) ==> lines[k := line][n - 1] == lines[n - 1]
  {
  }

  /** Where one line of the map is replaced. */
  lemma RewordedBox(digest: Digest, lines: seq<string>, k: nat, line: string)
    requires k < |lines| && IsBox(lines[k]) && Distinct(Digests(digest, lines))
    requires digest(Normalised(line)) == digest(Normalised(lines[k])) ==> Normalised(line) == Normalised(lines[k])
    ensures var h, now := digest(Normalised(lines[k])), Digests(digest, lines[k := line]);
            if KeepsBox(lines[k], line) then Holds(now, k + 1, h) else forall m :: !Holds(now, m, h)
  {
    hide Distinct, Normalised, IsBox, Words;
    var h, was, now := digest(Normalised(lines[k])), Digests(digest, lines), Digests(digest, lines[k := line]);
    if IsBox(line) {
      SameBoxIff(line, lines[k]);
    }
    forall m | m != k + 1
      ensures !Holds(now, m, h)
    {
      OtherLinesStay(digest, lines, k, line, m);
      OnePlace(was, m, k + 1, h);
    }
  }

  /** Replacing the line of one box is silent when it keeps the box's words, and otherwise that box, and no other, is
      reported as gone: the digest has to tell the two apart. */
  lemma {:induction false} RewordingIsNoticedIff(digest: Digest, lines: seq<string>, k: nat, line: string, n: nat)
    requires k < |lines| && n <= |lines| && IsBox(lines[k]) && Distinct(Digests(digest, lines))
    requires digest(Normalised(line)) == digest(Normalised(lines[k])) ==> Normalised(line) == Normalised(lines[k])
    ensures KeepsBox(lines[k], line)
            ==> Report(Digests(digest, lines), Digests(digest, lines[k := line]), n) == Drift([], [])
    ensures !KeepsBox(lines[k], line)
            ==> Report(Digests(digest, lines), Digests(digest, lines[k := line]), n)
                == Drift([], if n <= k then [] else [k + 1])
  {
    hide Distinct, Normalised, IsBox, KeepsBox, Search;
    if n > 0 {
      RewordingIsNoticedIff(digest, lines, k, line, n - 1);
      if n == k + 1 {
        RewordedBox(digest, lines, k, line);
        if !KeepsBox(lines[k], line) {
          NowhereToFind(Digests(digest, lines[k := line]), n, digest(Normalised(lines[k])), 1);
        }
      } else {
        OtherLinesStay(digest, lines, k, line, n);
      }
    }
  }

  /** What is reported: a recorded box that is not at its number now, as moved to where the search finds it, and as gone
      where the search finds it nowhere; each once, in the order of the numbers. */
  lemma ReportIs(recorded: Index, current: Index, n: nat)
    ensures forall pair :: pair in Report(recorded, current, n).moved
              <==> 1 <= pair.0 <= n && IsAway(recorded, current, pair.0)
                   && Search(current, pair.0, recorded[pair.0], 1) == Some(pair.1)
    ensures forall i :: i in Report(recorded, current, n).gone
              <==> 1 <= i <= n && IsAway(recorded, current, i) && Search(current, i, recorded[i], 1) == None
    ensures var d := Report(recorded, current, n);
            && (forall i, j :: 0 <= i < j < |d.moved| ==> d.moved[i].0 < d.moved[j].0)
            && (forall i, j :: 0 <= i < j < |d.gone| ==> d.gone[i] < d.gone[j])
  {
    hide Report, Search, IsAway;
    MovedAre(recorded, current, n);
    GoneAre(recorded, current, n);
  }

  /** A recorded box that is not at its number. */
  predicate IsAway(recorded: Index, current: Index, n: int) {
    n in recorded && !Holds(current, n, recorded[n])
  }

  lemma {:induction false} MovedAre(recorded: Index, current: Index, n: nat)
    ensures forall pair :: pair in Report(recorded, current, n).moved
              <==> 1 <= pair.0 <= n && IsAway(recorded, current, pair.0)
                   && Search(current, pair.0, recorded[pair.0], 1) == Some(pair.1)
    ensures var moved := Report(recorded, current, n).moved;
            forall i, j :: 0 <= i < j < |moved| ==> moved[i].0 < moved[j].0
  {
    hide Report, Search, Holds;
    ReportOnce(recorded, current, n);
    if n > 0 {
      MovedAre(recorded, current, n - 1);
      var moved := Report(recorded, current, n - 1).moved;
      assert forall i :: 0 <= i < |moved| ==> moved[i] in moved;
    }
  }

  lemma {:induction false} GoneAre(recorded: Index, current: Index, n: nat)
    ensures forall i :: i in Report(recorded, current, n).gone
              <==> 1 <= i <= n && IsAway(recorded, current, i) && Search(current, i, recorded[i], 1) == None
    ensures var gone := Report(recorded, current, n).gone;
            forall i, j :: 0 <= i < j < |gone| ==> gone[i] < gone[j]
  {
    hide Report, Search, Holds;
    ReportOnce(recorded, current, n);
    if n > 0 {
      GoneAre(recorded, current, n - 1);
      var gone := Report(recorded, current, n - 1).gone;
      assert forall i :: 0 <= i < |gone| ==> gone[i] in gone;
    }
  }
}
