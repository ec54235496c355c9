/** The added-line numberer of `scripts/check-secrets.py`, against a printer of unified diffs.

    The secrets guard reports `path:line` for what a commit adds, so the numbers must be those of the new file. The
    printer lays out any number of files and hunks, with any amount of context, as `git diff` does. */
module DiffScan {
  import opened Text

  // ---------------------------------------------------------------- diffs

  datatype Line = Context(text: string) | Removed(text: string) | Added(text: string) | NoNewline

  datatype Hunk = Hunk(
    oldStart: nat, oldCount: Option<nat>, newStart: nat, newCount: Option<nat>, section: string, body: seq<Line>)

  /** A file's part of a diff. A renamed or binary file has extended headers only; a deleted one has no new path. */
  datatype FileDiff =
    | HeadersOnly(headers: seq<string>)
    | Changed(headers: seq<string>, oldPath: string, newPath: Option<string>, hunks: seq<Hunk>)

  /** An added line: the new file's path, its line number there, and its content. */
  datatype AddedLine = AddedLine(path: string, number: nat, content: string)

  const NO_NEWLINE: string := "\\ No newline at end of file"
  const DEV_NULL: string := "/dev/null"

  function Printed(line: Line): string {
    match line
    case Context(text) => " " + text
    case Removed(text) => "-" + text
    case Added(text) => "+" + text
    case NoNewline => NO_NEWLINE
  }

  function CountText(count: Option<nat>): string {
    if count.Some? then "," + Decimal(count.value) else ""
  }

  function FieldText(n: nat, count: Option<nat>, rest: string): string {
    Decimal(n) + (CountText(count) + rest)
  }

  function HunkHeader(h: Hunk): string {
    "@@ -" + FieldText(h.oldStart, h.oldCount, " +" + FieldText(h.newStart, h.newCount, " @@" + h.section))
  }

  function PrintedBody(body: seq<Line>): (lines: seq<string>)
    ensures |lines| == |body|
  {
    seq(|body|, i requires 0 <= i < |body| => Printed(body[i]))
  }

  function PrintedHunks(hunks: seq<Hunk>): seq<string> {
    if hunks == [] then []
    else [HunkHeader(hunks[0])] + PrintedBody(hunks[0].body) + PrintedHunks(hunks[1..])
  }

  // A path is quoted in the manner of C when it holds a character that needs it, as `git` does by default, and a TAB
  // follows a path that holds a space.

  /** A backslash and three octal digits. */
  function Octal(byte: nat): (e: string)
    requires byte < 256
    ensures |e| == 4
  {
    "\\" + [DigitChar(byte / 64), DigitChar(byte / 8 % 8), DigitChar(byte % 8)]
  }

  function EscapedChar(c: char): (e: string)
    ensures e != ""
  {
    var n := c as int;
    if c == '\"' || c == '\\' then ['\\', c]
    else if 7 <= n <= 13 then ['\\', "abtnvfr"[n - 7]]
    else if n < 0x20 || n == 0x7F then Octal(n)
    else if n < 0x80 then [c]
    else if n < 0x800 then Octal(0xC0 + n / 0x40) + Octal(0x80 + n % 0x40)
    else if n < 0x10000 then Octal(0xE0 + n / 0x1000) + Octal(0x80 + n / 0x40 % 0x40) + Octal(0x80 + n % 0x40)
    else
      Octal(0xF0 + n / 0x40000) + Octal(0x80 + n / 0x1000 % 0x40)
      + Octal(0x80 + n / 0x40 % 0x40) + Octal(0x80 + n % 0x40)
  }

  function Escaped(path: string): (e: string)
    ensures |e| >= |path|
  {
    if path == "" then "" else EscapedChar(path[0]) + Escaped(path[1..])
  }

  /** A quote, a TAB, and a letter outside ASCII, in the two bytes of its encoding. */
  lemma Escapes()
    ensures Escaped("\"") == "\\\"" && Escaped("\t") == "\\t" && Escaped("\U{E9}") == "\\303\\251"
  {
    hide EscapedChar;
    CharactersAreEscaped();
    EscapedOne('\"');
    EscapedOne('\t');
    EscapedOne('\U{E9}');
  }

  lemma EscapedOne(c: char)
    ensures Escaped([c]) == EscapedChar(c)
  {
    hide EscapedChar;
    assert [c][1..] == "";
    assert EscapedChar(c) + "" == EscapedChar(c);
  }

  lemma CharactersAreEscaped()
    ensures EscapedChar('\"') == "\\\"" && EscapedChar('\t') == "\\t" && EscapedChar('\U{E9}') == "\\303\\251"
  {
    assert Octal(195) == "\\303" && Octal(169) == "\\251";
  }

  predicate NeedsQuotes(path: string) {
    exists c :: c in path && (c == '\"' || c == '\\' || c < ' ' || c > '~')
  }

  function Tab(path: string): string {
    if ' ' in path then "\t" else ""
  }

  /** How a path in the new tree is spelled after `+++ `. */
  function Label(path: string): string {
    (if NeedsQuotes(path) then "\"b/" + Escaped(path) + "\"" else "b/" + path) + Tab(path)
  }

  function NewPathText(path: Option<string>): string {
    "+++ " + if path.Some? then Label(path.value) else DEV_NULL
  }

  function PrintedFile(f: FileDiff): seq<string> {
    match f
    case HeadersOnly(headers) => headers
    case Changed(headers, oldPath, newPath, hunks) =>
      headers + ["--- " + oldPath] + [NewPathText(newPath)] + PrintedHunks(hunks)
  }

  function PrintedDiff(files: seq<FileDiff>): seq<string> {
    if files == [] then [] else PrintedFile(files[0]) + PrintedDiff(files[1..])
  }

  /** The added lines of a hunk's body, when the next line of the new file is `n`. */
  function BodyAdds(path: string, n: nat, body: seq<Line>): seq<AddedLine>
    decreases |body|
  {
    if body == [] then []
    else
      match body[0]
      case Added(text) => [AddedLine(path, n, text)] + BodyAdds(path, n + 1, body[1..])
      case Context(_) => BodyAdds(path, n + 1, body[1..])
      case _ => BodyAdds(path, n, body[1..])
  }

  /** The part of the new file that a hunk shows. */
  function NewText(body: seq<Line>): seq<string> {
    if body == [] then []
    else
      var last := body[|body| - 1];
      NewText(body[..|body| - 1]) + if last.Added? || last.Context? then [last.text] else []
  }

  /** One more line in front. */
  lemma {:induction false} NewTextFront(l: Line, body: seq<Line>)
    ensures NewText([l] + body) == (if l.Added? || l.Context? then [l.text] else []) + NewText(body)
  {
    if body == [] {
      assert [l] + body == [l] && [l][..0] == [];
    } else {
      var n := |body| - 1;
      assert ([l] + body)[..n + 1] == [l] + body[..n];
      NewTextFront(l, body[..n]);
    }
  }

  /** Where line `i` of the body stands in the new file, if it does. */
  function NumberAt(n: nat, body: seq<Line>, i: nat): nat
    requires i <= |body|
  {
    n + |NewText(body[..i])|
  }

  lemma NumberLater(n: nat, body: seq<Line>, i: nat)
    requires 0 < i <= |body|
    ensures var first := body[0];
            NumberAt(n, body, i) == NumberAt(if first.Added? || first.Context? then n + 1 else n, body[1..], i - 1)
  {
    assert body[..i] == [body[0]] + body[1..][..i - 1];
    NewTextFront(body[0], body[1..][..i - 1]);
  }

  predicate Rising(adds: seq<AddedLine>) {
    forall k, l :: 0 <= k < l < |adds| ==> adds[k].number < adds[l].number
  }

  lemma NoneIsRising()
    ensures Rising([])
  {
  }

  lemma RisingOn(first: AddedLine, later: seq<AddedLine>, next: nat)
    requires Rising(later) && forall a :: a in later ==> a.number >= next
    ensures first.number < next ==> Rising([first] + later)
  {
    assert forall k :: 0 <= k < |later| ==> later[k] in later;
  }

  /** An added line's number is its place in the new file, and it is what stands there. */
  lemma {:induction false} AddsAreOfTheNewFile(path: string, n: nat, body: seq<Line>)
    ensures forall i :: 0 <= i < |body| && body[i].Added?
              ==> AddedLine(path, NumberAt(n, body, i), body[i].text) in BodyAdds(path, n, body)
    ensures forall a :: a in BodyAdds(path, n, body) ==>
              a.path == path && n <= a.number < n + |NewText(body)| && NewText(body)[a.number - n] == a.content
    ensures Rising(BodyAdds(path, n, body))
    decreases |body|
  {
    hide NewText, NumberAt, Rising;
    NoneIsRising();
    if body != [] {
      var first, rest := body[0], body[1..];
      var next := if first.Added? || first.Context? then n + 1 else n;
      AddsAreOfTheNewFile(path, next, rest);
      assert body == [first] + rest;
      NewTextFront(first, rest);
      var later := BodyAdds(path, next, rest);
      if first.Added? {
        RisingOn(AddedLine(path, n, first.text), later, next);
      }
      forall i | 0 <= i < |body| && body[i].Added?
        ensures AddedLine(path, NumberAt(n, body, i), body[i].text) in BodyAdds(path, n, body)
      {
        if i > 0 {
          NumberLater(n, body, i);
          assert rest[i - 1] == body[i];
        } else {
          NumberFirst(n, body);
        }
      }
    }
  }

  lemma NumberFirst(n: nat, body: seq<Line>)
    ensures NumberAt(n, body, 0) == n
  {
    assert body[..0] == [];
  }

  function HunksAdd(path: string, hunks: seq<Hunk>): seq<AddedLine> {
    if hunks == [] then []
    else BodyAdds(path, hunks[0].newStart, hunks[0].body) + HunksAdd(path, hunks[1..])
  }

  /** What the diff adds, in order. */
  function DiffAdds(files: seq<FileDiff>): seq<AddedLine> {
    if files == [] then []
    else
      (if files[0].Changed? && files[0].newPath.Some? then HunksAdd(files[0].newPath.value, files[0].hunks) else [])
      + DiffAdds(files[1..])
  }

  predicate PlainHeader(line: string) {
    !StartsWith(line, "+") && !StartsWith(line, "-") && !StartsWith(line, "@@")
  }

  /** What `git diff` prints: extended headers that look like no part of a hunk, relative new paths, and no added line
      in a deleted file. */
  predicate WellFormedFile(f: FileDiff) {
    && (forall h :: h in f.headers ==> PlainHeader(h))
    && (f.Changed? && f.newPath.Some? ==> f.newPath.value != DEV_NULL)
    && (f.Changed? && f.newPath.None? ==> forall h, l :: h in f.hunks && l in h.body ==> !l.Added?)
  }

  predicate WellFormed(files: seq<FileDiff>) {
    forall i :: 0 <= i < |files| ==> WellFormedFile(files[i])
  }

  // ---------------------------------------------------------------- the scanner

  /** Where the scanner stands: the path of the current file and the number of its next line. */
  datatype Place = Place(path: Option<string>, number: nat)

  /** What follows an optional `,<digits>`. */
  function AfterCount(s: string): string {
    if s != "" && s[0] == ',' && DigitRun(s[1..]) != "" then s[1 + |DigitRun(s[1..])|..] else s
  }

  /** The new file's first line number in a hunk header, `@@ -a[,b] +c[,d] @@`. */
  function HunkStart(raw: string): Option<nat> {
    if !StartsWith(raw, "@@ -") then None
    else
      var oldField := raw[4..];
      var middle := AfterCount(oldField[|DigitRun(oldField)|..]);
      if DigitRun(oldField) == "" || !StartsWith(middle, " +") then None
      else
        var newField := middle[2..];
        if DigitRun(newField) == "" || !StartsWith(AfterCount(newField[|DigitRun(newField)|..]), " @@") then None
        else Some(DigitsValue(DigitRun(newField)))
  }

  function Moved(at: Place, raw: string): Place {
    if StartsWith(raw, "+++ ") then
      var p := if StartsWith(raw[4..], "b/") then raw[6..] else raw[4..];
      at.(path := if p == DEV_NULL then None else Some(p))
    else if StartsWith(raw, "@@") then
      (match HunkStart(raw)
       case Some(n) => at.(number := n)
       case None => at)
    else if at.path.None? || StartsWith(raw, "+++") || StartsWith(raw, "---") then at
    else if StartsWith(raw, "+") then at.(number := at.number + 1)
    else if StartsWith(raw, "-") then at
    else at.(number := at.number + 1)
  }

  function Yielded(at: Place, raw: string): seq<AddedLine> {
    if StartsWith(raw, "@@") || at.path.None? || StartsWith(raw, "+++") || !StartsWith(raw, "+") then []
    else [AddedLine(at.path.value, at.number, raw[1..])]
  }

  function MovedAll(at: Place, lines: seq<string>): Place
    decreases |lines|
  {
    if lines == [] then at else MovedAll(Moved(at, lines[0]), lines[1..])
  }

  function YieldedAll(at: Place, lines: seq<string>): seq<AddedLine>
    decreases |lines|
  {
    if lines == [] then [] else Yielded(at, lines[0]) + YieldedAll(Moved(at, lines[0]), lines[1..])
  }

  method IterAddedLines(text: string) returns (added: seq<AddedLine>)
    ensures added == YieldedAll(Place(None, 0), SplitLines(text))
  {
    hide Moved, Yielded;
    added := [];
    var at := Place(None, 0);
    var lines := SplitLines(text);
    for i := 0 to |lines|
      invariant added + YieldedAll(at, lines[i..]) == YieldedAll(Place(None, 0), lines)
    {
      assert lines[i..][0] == lines[i] && lines[i..][1..] == lines[i + 1..];
      var found;
      at, found := ReadLine(at, lines[i]);
      added := added + found;
    }
  }

  /** The loop's body. */
  method ReadLine(at: Place, raw: string) returns (next: Place, found: seq<AddedLine>)
    ensures next == Moved(at, raw) && found == Yielded(at, raw)
  {
    hide HunkStart;
    PlusPrefixes(raw);
    next, found := at, [];
    if StartsWith(raw, "+++ ") {
      var p := raw[4..];
      if StartsWith(p, "b/") {
        p := raw[6..];
      }
      next := next.(path := if p == DEV_NULL then None else Some(p));
      return;
    }
    if StartsWith(raw, "@@") {
      var start := HunkStart(raw);
      if start.Some? {
        next := next.(number := start.value);
      }
      return;
    }
    if at.path.None? || StartsWith(raw, "+++") || StartsWith(raw, "---") {
      return;
    }
    if StartsWith(raw, "+") {
      found := [AddedLine(at.path.value, at.number, raw[1..])];
      next := next.(number := at.number + 1);
    } else if !StartsWith(raw, "-") {
      next := next.(number := at.number + 1);
    }
  }

  lemma PlusPrefixes(raw: string)
    ensures StartsWith(raw, "+++ ") ==> StartsWith(raw, "+++") && |raw| >= 4 && !StartsWith(raw, "@@")
    ensures StartsWith(raw, "+++ ") && StartsWith(raw[4..], "b/") ==> |raw| >= 6
    ensures StartsWith(raw, "+++") ==> StartsWith(raw, "+")
    ensures StartsWith(raw, "---") ==> !StartsWith(raw, "+")
    ensures StartsWith(raw, "+") ==> |raw| >= 1
  {
    if StartsWith(raw, "+++ ") {
      assert raw[..4][0] == '+' && raw[..4][1] == '+' && raw[..4][2] == '+';
      assert raw[..3] == "+++" && raw[0] == '+';
    }
    if StartsWith(raw, "+++") {
      assert raw[..3][0] == '+';
      assert raw[..1] == "+";
    }
    if StartsWith(raw, "---") {
      assert raw[..3][0] == '-';
    }
  }

  // ---------------------------------------------------------------- hunk headers

  lemma CountIsPassed(count: Option<nat>, rest: string)
    requires rest != "" && !IsDigit(rest[0]) && rest[0] != ','
    ensures AfterCount(CountText(count) + rest) == rest
    ensures !IsDigit((CountText(count) + rest)[0])
  {
    hide Decimal;
    if count.Some? {
      var d := Decimal(count.value);
      var s := CountText(count) + rest;
      assert s[1..] == d + rest;
      DigitRunOf(d, rest);
      assert s[1 + |d|..] == rest;
    } else {
      assert CountText(count) + rest == rest;
    }
  }

  /** A number and its optional count are passed over whole. */
  lemma FieldIsPassed(n: nat, count: Option<nat>, rest: string)
    requires rest != "" && !IsDigit(rest[0]) && rest[0] != ','
    ensures
      var s := FieldText(n, count, rest);
      DigitRun(s) == Decimal(n) && AfterCount(s[|Decimal(n)|..]) == rest
  {
    hide Decimal, CountText, AfterCount;
    CountIsPassed(count, rest);
    DigitRunOf(Decimal(n), CountText(count) + rest);
    assert FieldText(n, count, rest)[|Decimal(n)|..] == CountText(count) + rest;
  }

  lemma HunkHeaderIsRead(h: Hunk)
    ensures StartsWith(HunkHeader(h), "@@") && HunkStart(HunkHeader(h)) == Some(h.newStart)
  {
    hide Decimal, AfterCount, FieldText, DigitRun;
    var raw := HunkHeader(h);
    var tail := " @@" + h.section;
    var newField := FieldText(h.newStart, h.newCount, tail);
    var oldField := FieldText(h.oldStart, h.oldCount, " +" + newField);
    FieldIsPassed(h.oldStart, h.oldCount, " +" + newField);
    FieldIsPassed(h.newStart, h.newCount, tail);
    assert raw[..4] == "@@ -" && raw[..2] == "@@" && raw[4..] == oldField;
    assert (" +" + newField)[..2] == " +" && (" +" + newField)[2..] == newField;
    assert tail[..3] == " @@";
    DecimalValue(h.newStart);
  }

  // ---------------------------------------------------------------- the exact condition

  /** An added line that the scanner takes for a file header. */
  predicate LooksLikeHeader(l: Line) {
    l.Added? && StartsWith(l.text, "++")
  }

  predicate NoAdds(body: seq<Line>) {
    forall l :: l in body ==> !l.Added?
  }

  /** No added line follows a `\ No newline at end of file` marker in its hunk. */
  predicate MarkersLast(body: seq<Line>)
    decreases |body|
  {
    body == [] || (MarkersLast(body[1..]) && (body[0].NoNewline? ==> NoAdds(body[1..])))
  }

  predicate NoFalseHeader(body: seq<Line>) {
    forall l :: l in body ==> !LooksLikeHeader(l)
  }

  ghost predicate NoFalseHeaders(files: seq<FileDiff>) {
    forall f, h :: f in files && f.Changed? && h in f.hunks ==> NoFalseHeader(h.body)
  }

  ghost predicate AllMarkersLast(files: seq<FileDiff>) {
    forall f, h :: f in files && f.Changed? && h in f.hunks ==> MarkersLast(h.body)
  }

  /** No path of a file with added lines holds a space, or a character it is quoted for. */
  ghost predicate PathsArePlain(files: seq<FileDiff>) {
    forall f, h :: f in files && f.Changed? && f.newPath.Some? && h in f.hunks && !NoAdds(h.body)
      ==> PlainPath(f.newPath.value)
  }

  lemma AddedEffect(at: Place, text: string)
    ensures
      var raw, header := "+" + text, StartsWith(text, "++");
      && (!header ==> Moved(at, raw).path == at.path)
      && (at.path.Some? ==> Moved(at, raw).number == at.number + if header then 0 else 1)
      && Yielded(at, raw)
         == if !header && at.path.Some? then [AddedLine(at.path.value, at.number, text)] else []
  {
    hide HunkStart, StartsWith;
    var raw := "+" + text;
    AddedCharacters(text);
    assert raw[1..] == text;
  }

  /** Which branches an added line takes. */
  lemma AddedCharacters(text: string)
    ensures
      var raw := "+" + text;
      && StartsWith(raw, "+") && !StartsWith(raw, "-") && !StartsWith(raw, "@@") && !StartsWith(raw, "---")
      && (StartsWith(raw, "+++") <==> StartsWith(text, "++"))
      && (StartsWith(raw, "+++ ") ==> StartsWith(text, "++"))
  {
    var raw := "+" + text;
    FirstCharacters(raw);
    assert raw[0] == '+';
    assert |text| >= 2 ==> raw[..3] == "+" + text[..2];
  }

  lemma RemovedEffect(at: Place, text: string)
    ensures
      var raw := "-" + text;
      Moved(at, raw) == at && Yielded(at, raw) == []
  {
    hide HunkStart, StartsWith;
    FirstCharacters("-" + text);
  }

  lemma ContextEffect(at: Place, l: Line)
    requires l.Context? || l.NoNewline?
    ensures
      var raw := Printed(l);
      && Moved(at, raw) == (if at.path.Some? then at.(number := at.number + 1) else at)
      && Yielded(at, raw) == []
  {
    hide HunkStart, StartsWith;
    FirstCharacters(Printed(l));
    assert Printed(l)[0] == ' ' || Printed(l)[0] == '\\';
  }

  lemma LineEffect(at: Place, l: Line)
    ensures !LooksLikeHeader(l) ==> Moved(at, Printed(l)).path == at.path
    ensures at.path.Some? ==>
      Moved(at, Printed(l)).number == at.number + (if l.Removed? || LooksLikeHeader(l) then 0 else 1)
    ensures Yielded(at, Printed(l)) ==
      if l.Added? && !LooksLikeHeader(l) && at.path.Some? then [AddedLine(at.path.value, at.number, l.text)] else []
  {
    hide Moved, Yielded;
    match l
    case Added(text) => AddedEffect(at, text);
    case Removed(text) => RemovedEffect(at, text);
    case _ => ContextEffect(at, l);
  }

  /** Which branches of the scanner a line's first characters rule out. */
  lemma FirstCharacters(raw: string)
    ensures StartsWith(raw, "+") <==> |raw| >= 1 && raw[0] == '+'
    ensures StartsWith(raw, "-") <==> |raw| >= 1 && raw[0] == '-'
    ensures StartsWith(raw, "@@") ==> raw[0] == '@'
    ensures StartsWith(raw, "---") ==> raw[0] == '-'
    ensures StartsWith(raw, "+++") ==> raw[0] == '+'
    ensures StartsWith(raw, "+++ ") ==> StartsWith(raw, "+++")
  {
    assert |raw| >= 1 ==> raw[..1] == [raw[0]];
    assert |raw| >= 2 ==> raw[..2][0] == raw[0];
    assert |raw| >= 3 ==> raw[..3][0] == raw[0];
    assert |raw| >= 4 ==> raw[..4][..3] == raw[..3] && raw[..4][0] == raw[0];
  }

  lemma {:induction false} ScanConcat(at: Place, xs: seq<string>, ys: seq<string>)
    ensures MovedAll(at, xs + ys) == MovedAll(MovedAll(at, xs), ys)
    ensures YieldedAll(at, xs + ys) == YieldedAll(at, xs) + YieldedAll(MovedAll(at, xs), ys)
    decreases |xs|
  {
    hide Moved, Yielded;
    if xs == [] {
      assert xs + ys == ys;
    } else {
      assert (xs + ys)[1..] == xs[1..] + ys;
      ScanConcat(Moved(at, xs[0]), xs[1..], ys);
    }
  }

  // One body. `k` is how far the scanner's count is ahead of the file's.

  lemma NothingScanned(at: Place)
    ensures YieldedAll(at, PrintedBody([])) == [] && MovedAll(at, PrintedBody([])) == at
  {
  }

  lemma OneMoreLine(at: Place, body: seq<Line>)
    requires body != []
    ensures
      var next, rest := Moved(at, Printed(body[0])), PrintedBody(body[1..]);
      && YieldedAll(at, PrintedBody(body)) == Yielded(at, Printed(body[0])) + YieldedAll(next, rest)
      && MovedAll(at, PrintedBody(body)) == MovedAll(next, rest)
  {
    hide Moved, Yielded;
    assert PrintedBody(body)[1..] == PrintedBody(body[1..]);
  }

  lemma NoAddsInOneMore(body: seq<Line>)
    ensures NoAdds(body) <==> body == [] || (!body[0].Added? && NoAdds(body[1..]))
  {
    if body != [] {
      assert body == [body[0]] + body[1..];
    }
  }

  lemma {:induction false} BodyScan(path: string, n: nat, k: nat, body: seq<Line>)
    requires NoFalseHeader(body)
    ensures
      var found := YieldedAll(Place(Some(path), n + k), PrintedBody(body));
      && |found| == |BodyAdds(path, n, body)|
      && (found == BodyAdds(path, n, body) <==> (k == 0 || NoAdds(body)) && MarkersLast(body))
    ensures MovedAll(Place(Some(path), n + k), PrintedBody(body)).path == Some(path)
    decreases |body|
  {
    hide Moved, Yielded, LooksLikeHeader, YieldedAll, MovedAll, PrintedBody, NoAdds;
    if body == [] {
      NothingScanned(Place(Some(path), n + k));
      assert NoAdds(body) by { NoAddsInOneMore(body); }
    } else {
      var at := Place(Some(path), n + k);
      var l, rest := body[0], body[1..];
      NoAddsInOneMore(body);
      OneMoreLine(at, body);
      LineEffect(at, l);
      match l
      case Context(_) => BodyScan(path, n + 1, k, rest);
      case Removed(_) => BodyScan(path, n, k, rest);
      case NoNewline => BodyScan(path, n, k + 1, rest);
      case Added(text) =>
        BodyScan(path, n + 1, k, rest);
        SameLengthConcat([AddedLine(path, n + k, text)], YieldedAll(Moved(at, Printed(l)), PrintedBody(rest)),
                         [AddedLine(path, n, text)], BodyAdds(path, n + 1, rest));
    }
  }

  lemma {:induction false} SilentBody(n: nat, body: seq<Line>)
    requires NoAdds(body)
    ensures YieldedAll(Place(None, n), PrintedBody(body)) == []
    ensures MovedAll(Place(None, n), PrintedBody(body)).path == None
    decreases |body|
  {
    hide Moved, Yielded;
    if body != [] {
      assert PrintedBody(body)[1..] == PrintedBody(body[1..]);
      LineEffect(Place(None, n), body[0]);
      SilentBody(Moved(Place(None, n), Printed(body[0])).number, body[1..]);
    }
  }

  lemma {:induction false} NoAddsMarkersLast(body: seq<Line>)
    requires NoAdds(body)
    ensures MarkersLast(body) && NoFalseHeader(body)
    decreases |body|
  {
    if body != [] {
      NoAddsMarkersLast(body[1..]);
    }
  }

  lemma HunkHeaderEffect(at: Place, h: Hunk)
    ensures Moved(at, HunkHeader(h)) == at.(number := h.newStart) && Yielded(at, HunkHeader(h)) == []
  {
    hide HunkHeader, HunkStart;
    HunkHeaderIsRead(h);
    FirstCharacters(HunkHeader(h));
  }

  lemma SameLengthConcat<T>(a: seq<T>, b: seq<T>, c: seq<T>, d: seq<T>)
    requires |a| == |c|
    ensures a + b == c + d <==> a == c && b == d
  {
    assert a == (a + b)[..|a|] && c == (c + d)[..|c|];
    assert b == (a + b)[|a|..] && d == (c + d)[|c|..];
  }

  lemma {:induction false} HunksScan(path: string, n: nat, hunks: seq<Hunk>)
    requires forall h :: h in hunks ==> NoFalseHeader(h.body)
    ensures
      var found := YieldedAll(Place(Some(path), n), PrintedHunks(hunks));
      && |found| == |HunksAdd(path, hunks)|
      && (found == HunksAdd(path, hunks) <==> forall h :: h in hunks ==> MarkersLast(h.body))
    ensures MovedAll(Place(Some(path), n), PrintedHunks(hunks)).path == Some(path)
    decreases |hunks|
  {
    hide Moved, Yielded, HunkHeader, NoFalseHeader, MarkersLast;
    if hunks != [] {
      var h := hunks[0];
      var start := Place(Some(path), h.newStart);
      HunkHeaderEffect(Place(Some(path), n), h);
      var lines := PrintedHunks(hunks);
      var body, rest := PrintedBody(h.body), PrintedHunks(hunks[1..]);
      assert lines == [HunkHeader(h)] + body + rest;
      assert lines[0] == HunkHeader(h) && lines[1..] == body + rest;
      ScanConcat(start, body, rest);
      BodyScan(path, h.newStart, 0, h.body);
      var after := MovedAll(start, body).number;
      assert MovedAll(start, body) == Place(Some(path), after);
      HunksScan(path, after, hunks[1..]);
      SameLengthConcat(YieldedAll(start, body), YieldedAll(Place(Some(path), after), rest),
                       BodyAdds(path, h.newStart, h.body), HunksAdd(path, hunks[1..]));
    }
  }

  lemma {:induction false} SilentHunks(n: nat, hunks: seq<Hunk>)
    requires forall h :: h in hunks ==> NoAdds(h.body)
    ensures YieldedAll(Place(None, n), PrintedHunks(hunks)) == []
    decreases |hunks|
  {
    hide Moved, Yielded, HunkHeader, NoAdds;
    if hunks != [] {
      var h := hunks[0];
      HunkHeaderEffect(Place(None, n), h);
      var lines := PrintedHunks(hunks);
      var body, rest := PrintedBody(h.body), PrintedHunks(hunks[1..]);
      assert lines == [HunkHeader(h)] + body + rest;
      assert lines[0] == HunkHeader(h) && lines[1..] == body + rest;
      ScanConcat(Place(None, h.newStart), body, rest);
      SilentBody(h.newStart, h.body);
      var after := MovedAll(Place(None, h.newStart), body);
      assert after == Place(None, after.number);
      SilentHunks(after.number, hunks[1..]);
    }
  }

  // Files.

  lemma {:induction false} HeadersAreSilent(at: Place, headers: seq<string>)
    requires forall h :: h in headers ==> PlainHeader(h)
    ensures YieldedAll(at, headers) == [] && MovedAll(at, headers).path == at.path
    decreases |headers|
  {
    hide StartsWith;
    if headers != [] {
      assert headers[0] in headers;
      FirstCharacters(headers[0]);
      HeadersAreSilent(Moved(at, headers[0]), headers[1..]);
    }
  }

  /** The path the scanner takes a spelled path for. */
  function Taken(path: string): string {
    if NeedsQuotes(path) then Label(path) else path + Tab(path)
  }

  function TakenNew(path: Option<string>): Option<string> {
    if path.Some? then Some(Taken(path.value)) else None
  }

  /** A path that is spelled as it is. */
  predicate PlainPath(path: string) {
    !NeedsQuotes(path) && ' ' !in path
  }

  /** The scanner takes exactly the plain paths for what they are. */
  lemma TakenIff(path: string)
    ensures Taken(path) == path <==> PlainPath(path)
  {
    hide NeedsQuotes, Escaped;
    if NeedsQuotes(path) {
      assert |Taken(path)| > |path|;
    } else if ' ' in path {
      assert |Taken(path)| > |path|;
    } else {
      assert path + "" == path;
    }
  }

  lemma PathLines(at: Place, oldPath: string, newPath: Option<string>)
    requires newPath.Some? ==> newPath.value != DEV_NULL
    ensures Yielded(at, "--- " + oldPath) == [] && Moved(at, "--- " + oldPath).path == at.path
    ensures Yielded(at, NewPathText(newPath)) == [] && Moved(at, NewPathText(newPath)).path == TakenNew(newPath)
  {
    hide Label, Taken;
    var o, n := "--- " + oldPath, NewPathText(newPath);
    FirstCharacters(o);
    FirstCharacters(n);
    assert o[..3] == "---";
    assert n[..4] == "+++ ";
    if newPath.Some? {
      LabelIsTaken(newPath.value);
      assert n[4..] == Label(newPath.value) && (|n| >= 6 ==> n[6..] == n[4..][2..]);
    } else {
      assert n[4..] == DEV_NULL;
      assert DEV_NULL[..2] == "/d";
    }
  }

  lemma LabelIsTaken(path: string)
    requires path != DEV_NULL
    ensures var spelled := Label(path);
            (if StartsWith(spelled, "b/") then spelled[2..] else spelled) == Taken(path) && Taken(path) != DEV_NULL
  {
    hide NeedsQuotes, Escaped;
    var spelled, taken := Label(path), Taken(path);
    if NeedsQuotes(path) {
      assert spelled[..2][0] == '\"';
    } else {
      assert spelled[..2] == "b/" && spelled[2..] == taken;
      assert ' ' in path ==> taken[|taken| - 1] == '\t';
      assert ' ' !in path ==> taken == path;
      assert DEV_NULL[|DEV_NULL| - 1] == 'l';
    }
  }

  /** Where the scanner stands when it reaches the hunks of a file, having yielded nothing. */
  lemma FileHead(at: Place, headers: seq<string>, oldPath: string, newPath: Option<string>, rest: seq<string>)
    returns (n: nat)
    requires forall h :: h in headers ==> PlainHeader(h)
    requires newPath.Some? ==> newPath.value != DEV_NULL
    ensures
      var lines := headers + ["--- " + oldPath] + [NewPathText(newPath)] + rest;
      YieldedAll(at, lines) == YieldedAll(Place(TakenNew(newPath), n), rest) &&
      MovedAll(at, lines) == MovedAll(Place(TakenNew(newPath), n), rest)
  {
    hide Moved, Yielded, NewPathText, TakenNew, PlainHeader;
    var o, w := "--- " + oldPath, NewPathText(newPath);
    var lines := headers + [o] + [w] + rest;
    assert lines == headers + ([o, w] + rest);
    ScanConcat(at, headers, [o, w] + rest);
    HeadersAreSilent(at, headers);
    var before := MovedAll(at, headers);
    PathLines(before, oldPath, newPath);
    var middle := Moved(before, o);
    PathLines(middle, oldPath, newPath);
    assert ([o, w] + rest)[1..] == [w] + rest;
    assert ([w] + rest)[1..] == rest;
    n := Moved(middle, w).number;
    assert Moved(middle, w) == Place(TakenNew(newPath), n);
  }

  function FileAdds(f: FileDiff): seq<AddedLine> {
    if f.Changed? && f.newPath.Some? then HunksAdd(f.newPath.value, f.hunks) else []
  }

  /** Every added line of a file is listed under one path. */
  lemma {:induction false} BodyAddsUnder(path: string, n: nat, body: seq<Line>)
    ensures forall a :: a in BodyAdds(path, n, body) ==> a.path == path
    ensures BodyAdds(path, n, body) == [] <==> NoAdds(body)
    decreases |body|
  {
    if body != [] {
      var rest := body[1..];
      assert NoAdds(body) <==> !body[0].Added? && NoAdds(rest);
      BodyAddsUnder(path, n, rest);
      BodyAddsUnder(path, n + 1, rest);
    }
  }

  lemma {:induction false} HunksAddUnder(path: string, hunks: seq<Hunk>)
    ensures forall a :: a in HunksAdd(path, hunks) ==> a.path == path
    ensures HunksAdd(path, hunks) == [] <==> forall h :: h in hunks ==> NoAdds(h.body)
  {
    hide NoAdds, BodyAdds;
    if hunks != [] {
      BodyAddsUnder(path, hunks[0].newStart, hunks[0].body);
      HunksAddUnder(path, hunks[1..]);
      assert hunks == [hunks[0]] + hunks[1..];
    }
  }

  /** And every line the scanner finds is under the path it stands at. */
  lemma {:induction false} YieldedUnder(path: string, n: nat, lines: seq<string>)
    requires forall l :: l in lines ==> !StartsWith(l, "+++ ")
    ensures forall a :: a in YieldedAll(Place(Some(path), n), lines) ==> a.path == path
    decreases |lines|
  {
    hide StartsWith;
    if lines != [] {
      YieldedUnder(path, Moved(Place(Some(path), n), lines[0]).number, lines[1..]);
    }
  }

  lemma {:induction false} NoPathLine(hunks: seq<Hunk>)
    requires forall h :: h in hunks ==> NoFalseHeader(h.body)
    ensures forall l :: l in PrintedHunks(hunks) ==> !StartsWith(l, "+++ ")
  {
    hide HunkHeader, NoFalseHeader, StartsWith;
    if hunks != [] {
      var h := hunks[0];
      HunkHeaderIsRead(h);
      FirstCharacters(HunkHeader(h));
      forall l | l in PrintedBody(h.body)
        ensures !StartsWith(l, "+++ ")
      {
        var i :| 0 <= i < |h.body| && l == Printed(h.body[i]);
        NoPathLineOf(h.body, i);
      }
      NoPathLine(hunks[1..]);
    }
  }

  lemma NoPathLineOf(body: seq<Line>, i: nat)
    requires i < |body| && NoFalseHeader(body)
    ensures !StartsWith(Printed(body[i]), "+++ ")
  {
    hide StartsWith;
    assert body[i] in body && !LooksLikeHeader(body[i]);
    match body[i]
    case Added(text) => AddedCharacters(text);
    case _ => FirstCharacters(Printed(body[i]));
  }

  /** With its path taken for another, a file is scanned right only if it adds nothing. */
  lemma WrongPathIff(taken: string, path: string, n: nat, hunks: seq<Hunk>)
    requires forall h :: h in hunks ==> NoFalseHeader(h.body)
    requires taken != path
    ensures YieldedAll(Place(Some(taken), n), PrintedHunks(hunks)) == HunksAdd(path, hunks)
            <==> forall h :: h in hunks ==> NoAdds(h.body)
    ensures |YieldedAll(Place(Some(taken), n), PrintedHunks(hunks))| == |HunksAdd(path, hunks)|
  {
    hide Moved, Yielded, HunkHeader, NoFalseHeader, MarkersLast, NoAdds;
    var found, adds := YieldedAll(Place(Some(taken), n), PrintedHunks(hunks)), HunksAdd(path, hunks);
    HunksScan(taken, n, hunks);
    SameNumber(taken, path, hunks);
    HunksAddUnder(path, hunks);
    NoPathLine(hunks);
    YieldedUnder(taken, n, PrintedHunks(hunks));
    if adds != [] {
      assert found[0] in found && adds[0] in adds;
    }
  }

  lemma {:induction false} SameNumber(taken: string, path: string, hunks: seq<Hunk>)
    ensures |HunksAdd(taken, hunks)| == |HunksAdd(path, hunks)|
  {
    if hunks != [] {
      SameNumberInBody(taken, path, hunks[0].newStart, hunks[0].body);
      SameNumber(taken, path, hunks[1..]);
    }
  }

  lemma {:induction false} SameNumberInBody(taken: string, path: string, n: nat, body: seq<Line>)
    ensures |BodyAdds(taken, n, body)| == |BodyAdds(path, n, body)|
    decreases |body|
  {
    if body != [] {
      SameNumberInBody(taken, path, n, body[1..]);
      SameNumberInBody(taken, path, n + 1, body[1..]);
    }
  }

  /** The part of the exact condition about one file: its markers come last, and if it adds anything its path is
      plain. */
  ghost predicate IsScannedRight(f: FileDiff) {
    f.Changed? ==>
      && (forall h :: h in f.hunks ==> MarkersLast(h.body))
      && (f.newPath.Some? && (exists h :: h in f.hunks && !NoAdds(h.body)) ==> PlainPath(f.newPath.value))
  }

  lemma FileScan(at: Place, f: FileDiff)
    requires WellFormedFile(f)
    requires f.Changed? ==> forall h :: h in f.hunks ==> NoFalseHeader(h.body)
    ensures
      var found := YieldedAll(at, PrintedFile(f));
      |found| == |FileAdds(f)| && (found == FileAdds(f) <==> IsScannedRight(f))
  {
    hide MarkersLast, NoFalseHeader, PlainHeader, NewPathText, PrintedHunks, PlainPath, Taken, NoAdds;
    match f
    case HeadersOnly(headers) => HeadersAreSilent(at, headers);
    case Changed(headers, oldPath, newPath, hunks) =>
      var n := FileHead(at, headers, oldPath, newPath, PrintedHunks(hunks));
      forall h | h in hunks && NoAdds(h.body)
        ensures MarkersLast(h.body)
      {
        NoAddsMarkersLast(h.body);
      }
      if newPath.None? {
        DeletedAddsNothing(f);
        SilentHunks(n, hunks);
      } else {
        TakenIff(newPath.value);
        if Taken(newPath.value) == newPath.value {
          HunksScan(newPath.value, n, hunks);
        } else {
          WrongPathIff(Taken(newPath.value), newPath.value, n, hunks);
        }
      }
  }

  lemma DeletedAddsNothing(f: FileDiff)
    requires WellFormedFile(f) && f.Changed? && f.newPath.None?
    ensures forall h :: h in f.hunks ==> NoAdds(h.body)
  {
  }

  lemma {:induction false} FilesScan(at: Place, files: seq<FileDiff>)
    requires WellFormed(files) && NoFalseHeaders(files)
    ensures
      var found := YieldedAll(at, PrintedDiff(files));
      |found| == |DiffAdds(files)| && (found == DiffAdds(files) <==> forall f :: f in files ==> IsScannedRight(f))
    decreases |files|
  {
    hide WellFormedFile, PrintedFile, IsScannedRight, NoFalseHeader, HunksAdd;
    if files != [] {
      var first, rest := PrintedFile(files[0]), PrintedDiff(files[1..]);
      ScanConcat(at, first, rest);
      FileScan(at, files[0]);
      FilesScan(MovedAll(at, first), files[1..]);
      SameLengthConcat(YieldedAll(at, first), YieldedAll(MovedAll(at, first), rest),
                       FileAdds(files[0]), DiffAdds(files[1..]));
      assert forall f :: f in files <==> f == files[0] || f in files[1..];
    }
  }

  // With a false header among the added lines, too few lines are found, wherever the scanner stands.

  lemma {:induction false} BodyBound(at: Place, path: string, n: nat, body: seq<Line>)
    ensures |YieldedAll(at, PrintedBody(body))| + (if NoFalseHeader(body) then 0 else 1) <= |BodyAdds(path, n, body)|
    decreases |body|
  {
    hide Moved, Yielded, LooksLikeHeader;
    if body != [] {
      var l, rest := body[0], body[1..];
      assert PrintedBody(body)[1..] == PrintedBody(rest);
      assert NoFalseHeader(body) <==> !LooksLikeHeader(l) && NoFalseHeader(rest);
      assert LooksLikeHeader(l) ==> l.Added? by { FalseHeadersAreAdded(l); }
      LineEffect(at, l);
      BodyBound(Moved(at, Printed(l)), path, if l.Context? || l.Added? then n + 1 else n, rest);
    }
  }

  lemma FalseHeadersAreAdded(l: Line)
    ensures LooksLikeHeader(l) ==> l.Added?
  {
  }

  lemma {:induction false} HunksBound(at: Place, path: string, hunks: seq<Hunk>)
    ensures |YieldedAll(at, PrintedHunks(hunks))| + (if forall h :: h in hunks ==> NoFalseHeader(h.body) then 0 else 1)
            <= |HunksAdd(path, hunks)|
    decreases |hunks|
  {
    hide Moved, Yielded, HunkHeader, NoFalseHeader;
    if hunks != [] {
      var h := hunks[0];
      HunkHeaderEffect(at, h);
      var lines := PrintedHunks(hunks);
      var body, rest := PrintedBody(h.body), PrintedHunks(hunks[1..]);
      assert lines == [HunkHeader(h)] + body + rest;
      assert lines[0] == HunkHeader(h) && lines[1..] == body + rest;
      var start := Moved(at, HunkHeader(h));
      ScanConcat(start, body, rest);
      BodyBound(start, path, h.newStart, h.body);
      HunksBound(MovedAll(start, body), path, hunks[1..]);
      assert hunks == [h] + hunks[1..];
    }
  }

  lemma FileBound(at: Place, f: FileDiff)
    requires WellFormedFile(f)
    ensures |YieldedAll(at, PrintedFile(f))|
            + (if f.Changed? && !(forall h :: h in f.hunks ==> NoFalseHeader(h.body)) then 1 else 0)
            <= |FileAdds(f)|
  {
    hide NoFalseHeader, PlainHeader, NewPathText, PrintedHunks;
    match f
    case HeadersOnly(headers) => HeadersAreSilent(at, headers);
    case Changed(headers, oldPath, newPath, hunks) =>
      var n := FileHead(at, headers, oldPath, newPath, PrintedHunks(hunks));
      if newPath.Some? {
        HunksBound(Place(TakenNew(newPath), n), newPath.value, hunks);
      } else {
        SilentHunks(n, hunks);
        forall h | h in hunks
          ensures NoFalseHeader(h.body)
        {
          NoAddsMarkersLast(h.body);
        }
      }
  }

  lemma {:induction false} FilesBound(at: Place, files: seq<FileDiff>)
    requires WellFormed(files)
    ensures |YieldedAll(at, PrintedDiff(files))| + (if NoFalseHeaders(files) then 0 else 1) <= |DiffAdds(files)|
    decreases |files|
  {
    hide WellFormedFile, PrintedFile, NoFalseHeader, HunksAdd;
    if files != [] {
      var first, rest := PrintedFile(files[0]), PrintedDiff(files[1..]);
      ScanConcat(at, first, rest);
      FileBound(at, files[0]);
      FilesBound(MovedAll(at, first), files[1..]);
      assert files == [files[0]] + files[1..];
      assert NoFalseHeaders(files) <== NoFalseHeaders(files[1..]) &&
        (files[0].Changed? ==> forall h :: h in files[0].hunks ==> NoFalseHeader(h.body));
    }
  }

  // ---------------------------------------------------------------- the theorem

  /** No line of the diff is broken before its end, though it may end in a carriage return. */
  ghost predicate HoldsNoBreak(files: seq<FileDiff>) {
    forall l :: 0 <= l < |PrintedDiff(files)| ==> NoBreak(WithoutReturn(PrintedDiff(files)[l]))
  }

  // The diff that the scanner sees: every line that ends in a carriage return has lost it.

  function SeenLine(line: Line): Line {
    match line
    case Context(text) => Context(WithoutReturn(text))
    case Removed(text) => Removed(WithoutReturn(text))
    case Added(text) => Added(WithoutReturn(text))
    case NoNewline => NoNewline
  }

  function SeenBody(body: seq<Line>): (seen: seq<Line>)
    ensures |seen| == |body| && forall i :: 0 <= i < |seen| ==> seen[i] == SeenLine(body[i])
  {
    seq(|body|, i requires 0 <= i < |body| => SeenLine(body[i]))
  }

  function SeenHunk(h: Hunk): Hunk {
    h.(section := WithoutReturn(h.section), body := SeenBody(h.body))
  }

  function SeenHunks(hunks: seq<Hunk>): (seen: seq<Hunk>)
    ensures |seen| == |hunks| && forall i :: 0 <= i < |seen| ==> seen[i] == SeenHunk(hunks[i])
  {
    seq(|hunks|, i requires 0 <= i < |hunks| => SeenHunk(hunks[i]))
  }

  function SeenFile(f: FileDiff): FileDiff {
    match f
    case HeadersOnly(headers) => HeadersOnly(WithoutReturns(headers))
    case Changed(headers, oldPath, newPath, hunks) =>
      Changed(WithoutReturns(headers), WithoutReturn(oldPath), newPath, SeenHunks(hunks))
  }

  function Seen(files: seq<FileDiff>): (seen: seq<FileDiff>)
    ensures |seen| == |files| && forall i :: 0 <= i < |seen| ==> seen[i] == SeenFile(files[i])
  {
    seq(|files|, i requires 0 <= i < |files| => SeenFile(files[i]))
  }

  /** The added lines, without a final carriage return of their content. */
  function SeenAdds(adds: seq<AddedLine>): seq<AddedLine> {
    if adds == [] then []
    else [adds[0].(content := WithoutReturn(adds[0].content))] + SeenAdds(adds[1..])
  }

  lemma ReturnsConcat(xs: seq<string>, ys: seq<string>)
    ensures WithoutReturns(xs + ys) == WithoutReturns(xs) + WithoutReturns(ys)
  {
    hide WithoutReturn;
  }

  lemma {:induction false} SeenAddsConcat(xs: seq<AddedLine>, ys: seq<AddedLine>)
    ensures SeenAdds(xs + ys) == SeenAdds(xs) + SeenAdds(ys)
  {
    hide WithoutReturn;
    if xs == [] {
      assert xs + ys == ys;
    } else {
      assert (xs + ys)[1..] == xs[1..] + ys;
      SeenAddsConcat(xs[1..], ys);
    }
  }

  lemma ReturnAfter(prefix: string, text: string)
    requires prefix != "" && prefix[|prefix| - 1] != '\r'
    ensures WithoutReturn(prefix + text) == prefix + WithoutReturn(text)
  {
    if text == "" {
      assert prefix + text == prefix;
    } else {
      assert (prefix + text)[|prefix| + |text| - 1] == text[|text| - 1];
      assert (prefix + text)[..|prefix| + |text| - 1] == prefix + text[..|text| - 1];
    }
  }

  lemma SeenBodyIsPrinted(body: seq<Line>)
    ensures WithoutReturns(PrintedBody(body)) == PrintedBody(SeenBody(body))
  {
    hide WithoutReturn, SeenLine;
    forall i | 0 <= i < |body|
      ensures WithoutReturn(Printed(body[i])) == Printed(SeenLine(body[i]))
    {
      SeenLineIsPrinted(body[i]);
    }
  }

  lemma SeenLineIsPrinted(line: Line)
    ensures WithoutReturn(Printed(line)) == Printed(SeenLine(line))
  {
    match line
    case Context(text) => ReturnAfter(" ", text);
    case Removed(text) => ReturnAfter("-", text);
    case Added(text) => ReturnAfter("+", text);
    case NoNewline => assert NO_NEWLINE[|NO_NEWLINE| - 1] == 'e';
  }

  lemma SeenHeaderIsPrinted(h: Hunk)
    ensures WithoutReturn(HunkHeader(h)) == HunkHeader(SeenHunk(h))
  {
    hide WithoutReturn, Decimal, CountText, SeenBody;
    var before := "@@ -" + (Decimal(h.oldStart) + (CountText(h.oldCount)
                  + (" +" + (Decimal(h.newStart) + (CountText(h.newCount) + " @@")))));
    ReturnAfter(before, h.section);
    assert HunkHeader(h) == before + h.section;
    assert HunkHeader(SeenHunk(h)) == before + WithoutReturn(h.section);
  }

  lemma {:induction false} SeenHunksArePrinted(hunks: seq<Hunk>)
    ensures WithoutReturns(PrintedHunks(hunks)) == PrintedHunks(SeenHunks(hunks))
  {
    hide WithoutReturn, HunkHeader, PrintedBody, SeenHunk, WithoutReturns;
    if hunks != [] {
      var h := hunks[0];
      var head, body, rest := [HunkHeader(h)], PrintedBody(h.body), PrintedHunks(hunks[1..]);
      ReturnsConcat(head + body, rest);
      ReturnsConcat(head, body);
      SeenHunkIs(h);
      SeenHunksArePrinted(hunks[1..]);
      var seen := SeenHunks(hunks);
      assert seen[0] == SeenHunk(h) && seen[1..] == SeenHunks(hunks[1..]);
    } else {
      NoReturns();
    }
  }

  lemma NoReturns()
    ensures WithoutReturns([]) == []
  {
  }

  lemma SeenHunkIs(h: Hunk)
    ensures WithoutReturns([HunkHeader(h)]) == [HunkHeader(SeenHunk(h))]
    ensures WithoutReturns(PrintedBody(h.body)) == PrintedBody(SeenHunk(h).body)
  {
    hide WithoutReturn, HunkHeader, PrintedBody, SeenBody;
    SeenHeaderIsPrinted(h);
    SeenBodyIsPrinted(h.body);
  }

  lemma LabelHoldsNoReturn(path: string)
    ensures WithoutReturn("+++ " + Label(path)) == "+++ " + Label(path)
  {
    hide Escaped;
    var text := "+++ " + Label(path);
    if ' ' in path {
      assert text[|text| - 1] == '\t';
    } else if NeedsQuotes(path) {
      assert text[|text| - 1] == '\"';
    } else if path != "" {
      assert text[|text| - 1] == path[|path| - 1] && path[|path| - 1] in path;
    } else {
      assert text == "+++ b/";
    }
  }

  lemma SeenFileIsPrinted(f: FileDiff)
    ensures WithoutReturns(PrintedFile(f)) == PrintedFile(SeenFile(f))
  {
    hide WithoutReturn, WithoutReturns, PrintedHunks, SeenHunks, Label;
    match f
    case HeadersOnly(headers) =>
    case Changed(headers, oldPath, newPath, hunks) =>
      var o, n, rest := "--- " + oldPath, NewPathText(newPath), PrintedHunks(hunks);
      ReturnsConcat(headers + [o] + [n], rest);
      ReturnsConcat(headers + [o], [n]);
      ReturnsConcat(headers, [o]);
      ReturnAfter("--- ", oldPath);
      if newPath.Some? {
        LabelHoldsNoReturn(newPath.value);
      } else {
        DevNullHoldsNoReturn();
      }
      OneReturn(o);
      OneReturn(n);
      SeenHunksArePrinted(hunks);
  }

  lemma OneReturn(line: string)
    ensures WithoutReturns([line]) == [WithoutReturn(line)]
  {
    hide WithoutReturn;
  }

  lemma DevNullHoldsNoReturn()
    ensures WithoutReturn("+++ " + DEV_NULL) == "+++ " + DEV_NULL
  {
    assert DEV_NULL[|DEV_NULL| - 1] == 'l';
    ReturnAfter("+++ ", DEV_NULL);
  }

  lemma {:induction false} SeenIsPrinted(files: seq<FileDiff>)
    ensures WithoutReturns(PrintedDiff(files)) == PrintedDiff(Seen(files))
  {
    hide WithoutReturn, WithoutReturns, PrintedFile, SeenFile;
    if files == [] {
      NoReturns();
    } else {
      ReturnsConcat(PrintedFile(files[0]), PrintedDiff(files[1..]));
      SeenFileIsPrinted(files[0]);
      SeenIsPrinted(files[1..]);
      assert Seen(files)[1..] == Seen(files[1..]);
    }
  }

  lemma {:induction false} SeenBodyAdds(path: string, n: nat, body: seq<Line>)
    ensures BodyAdds(path, n, SeenBody(body)) == SeenAdds(BodyAdds(path, n, body))
    decreases |body|
  {
    hide WithoutReturn;
    if body != [] {
      assert SeenBody(body)[1..] == SeenBody(body[1..]);
      match body[0]
      case Added(text) =>
        SeenBodyAdds(path, n + 1, body[1..]);
        SeenAddsConcat([AddedLine(path, n, text)], BodyAdds(path, n + 1, body[1..]));
      case Context(_) => SeenBodyAdds(path, n + 1, body[1..]);
      case _ => SeenBodyAdds(path, n, body[1..]);
    }
  }

  lemma {:induction false} SeenHunksAdd(path: string, hunks: seq<Hunk>)
    ensures HunksAdd(path, SeenHunks(hunks)) == SeenAdds(HunksAdd(path, hunks))
  {
    hide BodyAdds, SeenBody;
    if hunks != [] {
      SeenBodyAdds(path, hunks[0].newStart, hunks[0].body);
      SeenHunksAdd(path, hunks[1..]);
      SeenAddsConcat(BodyAdds(path, hunks[0].newStart, hunks[0].body), HunksAdd(path, hunks[1..]));
      var seen := SeenHunks(hunks);
      assert seen[0] == SeenHunk(hunks[0]) && seen[1..] == SeenHunks(hunks[1..]);
      assert HunksAdd(path, seen)
        == BodyAdds(path, hunks[0].newStart, SeenBody(hunks[0].body)) + HunksAdd(path, seen[1..]);
    }
  }

  lemma SeenFileAdds(f: FileDiff)
    ensures FileAdds(SeenFile(f)) == SeenAdds(FileAdds(f))
  {
    hide HunksAdd, SeenHunks, WithoutReturns, WithoutReturn;
    if f.Changed? && f.newPath.Some? {
      SeenHunksAdd(f.newPath.value, f.hunks);
    }
  }

  lemma {:induction false} SeenDiffAdds(files: seq<FileDiff>)
    ensures DiffAdds(Seen(files)) == SeenAdds(DiffAdds(files))
  {
    hide HunksAdd, SeenFile, WithoutReturn;
    if files != [] {
      SeenDiffAdds(files[1..]);
      SeenAddsConcat(FileAdds(files[0]), DiffAdds(files[1..]));
      var seen := Seen(files);
      assert seen[0] == SeenFile(files[0]) && seen[1..] == Seen(files[1..]);
      SeenFileAdds(files[0]);
      assert DiffAdds(seen) == FileAdds(seen[0]) + DiffAdds(seen[1..]);
      assert DiffAdds(files) == FileAdds(files[0]) + DiffAdds(files[1..]);
    }
  }

  // None of the conditions can tell the two diffs apart.

  lemma SeenLineIsAlike(line: Line)
    ensures LooksLikeHeader(SeenLine(line)) <==> LooksLikeHeader(line)
    ensures SeenLine(line).Added? <==> line.Added?
    ensures SeenLine(line).NoNewline? <==> line.NoNewline?
  {
    if line.Added? {
      var text := line.text;
      if text != "" && text[|text| - 1] == '\r' && |text| == 2 {
        assert text[..2][1] == '\r';
      }
      assert |WithoutReturn(text)| >= 2 ==> WithoutReturn(text)[..2] == text[..2];
    }
  }

  lemma {:induction false} SeenBodyIsAlike(body: seq<Line>)
    ensures NoFalseHeader(SeenBody(body)) <==> NoFalseHeader(body)
    ensures NoAdds(SeenBody(body)) <==> NoAdds(body)
    ensures MarkersLast(SeenBody(body)) <==> MarkersLast(body)
    decreases |body|
  {
    hide LooksLikeHeader, SeenLine;
    if body != [] {
      SeenLineIsAlike(body[0]);
      SeenBodyIsAlike(body[1..]);
      var seen := SeenBody(body);
      assert seen[1..] == SeenBody(body[1..]);
      assert seen == [seen[0]] + seen[1..] && body == [body[0]] + body[1..];
    }
  }

  /** The conditions on one hunk, told from the rest of its diff. */
  ghost predicate HunkIsRight(h: Hunk) {
    NoFalseHeader(h.body) && MarkersLast(h.body)
  }

  ghost predicate FileIsRight(f: FileDiff) {
    f.Changed? ==>
      && (forall h :: h in f.hunks ==> HunkIsRight(h))
      && (f.newPath.Some? && (exists h :: h in f.hunks && !NoAdds(h.body)) ==> PlainPath(f.newPath.value))
  }

  lemma SeenHunkIsAlike(h: Hunk)
    ensures HunkIsRight(SeenHunk(h)) <==> HunkIsRight(h)
    ensures NoAdds(SeenHunk(h).body) <==> NoAdds(h.body)
  {
    hide NoFalseHeader, MarkersLast, NoAdds, SeenBody;
    SeenBodyIsAlike(h.body);
  }

  lemma SeenHunksAreAlike(hunks: seq<Hunk>)
    ensures (forall h :: h in SeenHunks(hunks) ==> HunkIsRight(h)) <==> (forall h :: h in hunks ==> HunkIsRight(h))
    ensures (exists h :: h in SeenHunks(hunks) && !NoAdds(h.body)) <==> (exists h :: h in hunks && !NoAdds(h.body))
  {
    hide HunkIsRight, NoAdds, SeenHunk;
    var seen := SeenHunks(hunks);
    forall i | 0 <= i < |hunks|
      ensures HunkIsRight(seen[i]) <==> HunkIsRight(hunks[i])
      ensures NoAdds(seen[i].body) <==> NoAdds(hunks[i].body)
      ensures seen[i] in seen && hunks[i] in hunks
    {
      SeenHunkIsAlike(hunks[i]);
    }
  }

  lemma SeenFileIsAlike(f: FileDiff)
    ensures FileIsRight(SeenFile(f)) <==> FileIsRight(f)
  {
    hide HunkIsRight, NoAdds, PlainPath, SeenHunks, WithoutReturns, WithoutReturn;
    if f.Changed? {
      SeenHunksAreAlike(f.hunks);
    }
  }

  lemma SeenFilesAreAlike(files: seq<FileDiff>)
    ensures (forall f :: f in Seen(files) ==> FileIsRight(f)) <==> (forall f :: f in files ==> FileIsRight(f))
  {
    hide FileIsRight, SeenFile;
    var seen := Seen(files);
    forall i | 0 <= i < |files|
      ensures FileIsRight(seen[i]) <==> FileIsRight(files[i])
      ensures seen[i] in seen && files[i] in files
    {
      SeenFileIsAlike(files[i]);
    }
  }

  lemma RightIff(files: seq<FileDiff>)
    ensures (forall f :: f in files ==> FileIsRight(f))
            <==> NoFalseHeaders(files) && AllMarkersLast(files) && PathsArePlain(files)
  {
    hide NoFalseHeader, MarkersLast, NoAdds, PlainPath;
    if forall f :: f in files ==> FileIsRight(f) {
      forall f, h | f in files && f.Changed? && h in f.hunks
        ensures NoFalseHeader(h.body) && MarkersLast(h.body)
        ensures f.newPath.Some? && !NoAdds(h.body) ==> PlainPath(f.newPath.value)
      {
        assert FileIsRight(f) && HunkIsRight(h);
      }
    }
  }

  lemma {:induction false} SeenIsWellFormed(files: seq<FileDiff>)
    requires WellFormed(files)
    ensures WellFormed(Seen(files))
  {
    hide WellFormedFile, SeenFile;
    if files != [] {
      SeenFileIsWellFormed(files[0]);
      SeenIsWellFormed(files[1..]);
      var seen := Seen(files);
      assert seen == [SeenFile(files[0])] + Seen(files[1..]);
    }
  }

  lemma SeenFileIsWellFormed(f: FileDiff)
    requires WellFormedFile(f)
    ensures WellFormedFile(SeenFile(f))
  {
    hide PlainHeader, WithoutReturn, SeenHunks;
    forall i | 0 <= i < |f.headers|
      ensures PlainHeader(WithoutReturn(f.headers[i]))
    {
      assert f.headers[i] in f.headers;
      SeenHeaderIsPlain(f.headers[i]);
    }
    if f.Changed? && f.newPath.None? {
      DeletedAddsNothing(f);
      SeenHunksAreAlike(f.hunks);
    }
  }

  lemma SeenHeaderIsPlain(line: string)
    requires PlainHeader(line)
    ensures PlainHeader(WithoutReturn(line))
  {
    var l := WithoutReturn(line);
    FirstCharacters(line);
    FirstCharacters(l);
    assert |l| >= 1 ==> l[0] == line[0];
    assert |l| >= 2 ==> l[..2] == line[..2];
  }

  /** Over the text of any diff that `git` lays out, the scanner yields exactly the added lines, in order, under their
      new-file path and number, a final carriage return of their content aside, if and only if no added line begins with
      `++`, no added line follows a missing newline's marker in its hunk, and no file with added lines has a path that
      holds a space or is quoted. */
  lemma AddedLinesAreNumberedIff(files: seq<FileDiff>)
    requires WellFormed(files) && HoldsNoBreak(files)
    ensures
      YieldedAll(Place(None, 0), SplitLines(Terminated(PrintedDiff(files)))) == SeenAdds(DiffAdds(files))
      <==> NoFalseHeaders(files) && AllMarkersLast(files) && PathsArePlain(files)
  {
    hide WellFormed, HoldsNoBreak, FileIsRight, NoFalseHeaders, AllMarkersLast, PathsArePlain, IsScannedRight;
    hide WithoutReturns, SplitLines, Seen, DiffAdds, YieldedAll;
    var seen := Seen(files);
    assert SplitLines(Terminated(PrintedDiff(files))) == PrintedDiff(seen) by {
      SplitSeen(files);
    }
    SeenIsWellFormed(files);
    SeenDiffAdds(files);
    SeenFilesAreAlike(files);
    RightIff(files);
    RightIff(seen);
    FilesBound(Place(None, 0), seen);
    if NoFalseHeaders(seen) {
      FilesScan(Place(None, 0), seen);
      ScannedRightIff(seen);
    }
  }

  lemma SplitSeen(files: seq<FileDiff>)
    requires HoldsNoBreak(files)
    ensures SplitLines(Terminated(PrintedDiff(files))) == PrintedDiff(Seen(files))
  {
    hide NoBreak, WithoutReturn;
    SplitReturned(PrintedDiff(files));
    SeenIsPrinted(files);
  }

  lemma ScannedRightIff(files: seq<FileDiff>)
    ensures (forall f :: f in files ==> IsScannedRight(f)) <==> AllMarkersLast(files) && PathsArePlain(files)
  {
    hide MarkersLast, NoAdds, PlainPath;
    if forall f :: f in files ==> IsScannedRight(f) {
      forall f, h | f in files && f.Changed? && h in f.hunks
        ensures MarkersLast(h.body)
        ensures f.newPath.Some? && !NoAdds(h.body) ==> PlainPath(f.newPath.value)
      {
        assert IsScannedRight(f);
      }
    }
  }

  /** An added line that begins with `++` is not found. */
  lemma PlusPlusIsLost()
    ensures Yielded(Place(Some("f"), 1), Printed(Added("++x"))) == []
  {
    hide Yielded, Moved, Printed;
    assert "++x"[..2] == "++";
    LineEffect(Place(Some("f"), 1), Added("++x"));
  }

  /** The marker of a missing newline counts as a line. */
  lemma MarkerIsCounted()
    ensures Moved(Place(Some("f"), 1), Printed(NoNewline)).number == 2
  {
    hide Yielded, Moved, Printed;
    LineEffect(Place(Some("f"), 1), NoNewline);
  }

  /** A path with a space is taken with the TAB after it. */
  lemma SpacedPathIsMistaken()
    ensures Moved(Place(None, 0), NewPathText(Some("a b"))).path == Some("a b\t")
  {
    hide Yielded, Moved, NewPathText;
    PathLines(Place(None, 0), "", Some("a b"));
    assert "a b"[1] == ' ';
    assert Taken("a b") == "a b\t" by {
      hide Escaped;
    }
  }
}
