/** The incremental terminal emulator of `scripts/tui-check.py`.

    The reader hands `feed` whatever a `read` returned, so an escape sequence may be cut anywhere. The parser
    is modelled as a lexer over the text that is still unread: each lexeme is either consumed with at most one
    action, or held back until more text arrives. `Screen.Feed` is the loop of the original over mutable fields;
    `Fed` is its specification, and the chunking theorems are proved about the latter. */
module TuiCheck {
  import opened Text

  const ESC: char := '\U{1B}'
  const BEL: char := '\U{07}'
  const BACKSPACE: char := '\U{08}'

  /** What one lexeme does to the screen. */
  datatype Action =
    | Print(c: char)
    | CarriageReturn
    | LineFeed
    | StepBack
    | Control(params: string, final: char)

  datatype Lexeme =
    | Held
    | Consumed(length: nat, actions: seq<Action>)

  // ---------------------------------------------------------------- lexing

  predicate IsParam(c: char) {
    '0' <= c <= '9' || c == ';' || c == '?'
  }

  predicate IsFinal(c: char) {
    '@' <= c <= '~'
  }

  predicate IsAlphanumeric(c: char) {
    '0' <= c <= '9' || 'A' <= c <= 'Z' || 'a' <= c <= 'z'
  }

  /** The end of the run of parameter characters that starts at `i`. */
  function ParamEnd(s: string, i: nat): (k: nat)
    requires i <= |s|
    ensures i <= k <= |s|
    ensures forall j :: i <= j < k ==> IsParam(s[j])
    ensures k < |s| ==> !IsParam(s[k])
    decreases |s| - i
  {
    if i < |s| && IsParam(s[i]) then ParamEnd(s, i + 1) else i
  }

  /** The end of the run of characters from `i` that are neither BEL nor ESC. */
  function BodyEnd(s: string, i: nat): (k: nat)
    requires i <= |s|
    ensures i <= k <= |s|
    ensures forall j :: i <= j < k ==> s[j] != BEL && s[j] != ESC
    ensures k < |s| ==> s[k] == BEL || s[k] == ESC
    decreases |s| - i
  {
    if i < |s| && s[i] != BEL && s[i] != ESC then BodyEnd(s, i + 1) else i
  }

  function MatchCsi(rest: string): Option<nat> {
    if |rest| >= 2 && rest[0] == ESC && rest[1] == '[' then
      var k := ParamEnd(rest, 2);
      if k < |rest| && IsFinal(rest[k]) then Some(k + 1) else None
    else
      None
  }

  function MatchCharset(rest: string): Option<nat> {
    if |rest| >= 3 && rest[0] == ESC && (rest[1] == '(' || rest[1] == ')') && IsAlphanumeric(rest[2])
    then Some(3)
    else None
  }

  function MatchOsc(rest: string): Option<nat> {
    if |rest| >= 2 && rest[0] == ESC && rest[1] == ']' then
      var k := BodyEnd(rest, 2);
      if k < |rest| && rest[k] == BEL then Some(k + 1)
      else if k + 1 < |rest| && rest[k + 1] == '\\' then Some(k + 2)
      else None
    else
      None
  }

  predicate LooksIncomplete(rest: string)
    requires |rest| >= 1
  {
    || ParamEnd(rest, if |rest| >= 2 && rest[1] == '[' then 2 else 1) == |rest|
    || |rest| == 1
    || (|rest| == 2 && (rest[1] == '(' || rest[1] == ')' || rest[1] == ']'))
  }

  /** The action of a character outside any escape sequence. */
  function Plain(c: char): (actions: seq<Action>)
    ensures |actions| <= 1
  {
    if c == '\r' then [CarriageReturn]
    else if c == '\n' then [LineFeed]
    else if c == BACKSPACE then [StepBack]
    else if c >= ' ' then [Print(c)]
    else []
  }

  /** One turn of the loop in `feed`, on the text from the current position on. */
  function Lex(rest: string): (lexeme: Lexeme)
    requires rest != ""
    ensures lexeme.Consumed? ==> 1 <= lexeme.length <= |rest| && |lexeme.actions| <= 1
  {
    if rest[0] != ESC then
      Consumed(1, Plain(rest[0]))
    else if |rest| < 2 then
      Held
    else if MatchCsi(rest).Some? then
      var n := MatchCsi(rest).value;
      Consumed(n, [Control(rest[2..n - 1], rest[n - 1])])
    else if MatchCharset(rest).Some? then
      Consumed(MatchCharset(rest).value, [])
    else if MatchOsc(rest).Some? then
      Consumed(MatchOsc(rest).value, [])
    else if LooksIncomplete(rest) then
      Held
    else
      Consumed(1, [])
  }

  /** The actions one call to `feed` performs on `text`, the held-back tail included. */
  function Actions(text: string): seq<Action> {
    if text == "" then []
    else
      match Lex(text)
      case Held => []
      case Consumed(n, actions) => actions + Actions(text[n..])
  }

  /** What that call leaves in `_pending`. */
  function Tail(text: string): string {
    if text == "" then ""
    else
      match Lex(text)
      case Held => text
      case Consumed(n, _) => Tail(text[n..])
  }

  // ---------------------------------------------------------------- chunking

  /** `rest` opens an operating-system command that is not finished, but that `more` finishes. `ESC ]` alone is
      held back; with even one character of its body it is not, and the body is printed. */
  predicate OscCut(rest: string, more: string) {
    && |rest| > 2
    && rest[0] == ESC
    && rest[1] == ']'
    && MatchOsc(rest).None?
    && MatchOsc(rest + more).Some?
  }

  /** The boundary between `text` and `more` falls inside the body of an operating-system command. */
  predicate CutsOsc(text: string, more: string) {
    exists p | 0 <= p <= |text| :: OscCut(text[p..], more)
  }

  lemma ParamEndExtends(s: string, more: string, i: nat)
    requires i <= |s|
    ensures ParamEnd(s, i) < |s| ==> ParamEnd(s + more, i) == ParamEnd(s, i)
  {
    assert forall j :: 0 <= j < |s| ==> (s + more)[j] == s[j];
  }

  lemma BodyEndExtends(s: string, more: string, i: nat)
    requires i <= |s|
    ensures BodyEnd(s, i) < |s| ==> BodyEnd(s + more, i) == BodyEnd(s, i)
    ensures BodyEnd(s, i) == |s| ==> BodyEnd(s + more, i) >= |s|
  {
    assert forall j :: 0 <= j < |s| ==> (s + more)[j] == s[j];
  }

  /** A lexeme that was consumed is consumed the same way when more text follows, unless it cuts a command. */
  lemma LexStable(rest: string, more: string)
    requires rest != ""
    requires Lex(rest).Consumed?
    requires !OscCut(rest, more)
    ensures Lex(rest + more) == Lex(rest)
  {
    var whole := rest + more;
    assert whole[0] == rest[0];
    if rest[0] == ESC {
      assert whole[1] == rest[1];
      ParamEndExtends(rest, more, if rest[1] == '[' then 2 else 1);
      if rest[1] == '[' {
        var k := ParamEnd(rest, 2);
        assert whole[k] == rest[k];
        if IsFinal(rest[k]) {
          assert whole[2..k] == rest[2..k];
        }
      } else if rest[1] == ']' {
        BodyEndExtends(rest, more, 2);
        var k := BodyEnd(rest, 2);
        if MatchOsc(rest).Some? {
          assert whole[k] == rest[k];
          if rest[k] == ESC {
            assert whole[k + 1] == rest[k + 1];
          }
        }
      } else if |rest| >= 3 {
        assert whole[2] == rest[2];
      }
    }
  }

  /** Nothing inside a lexeme, other than its own start, opens a command that is cut. */
  lemma NoCutInside(rest: string, more: string, p: nat)
    requires rest != ""
    requires match Lex(rest) case Held => p <= |rest| case Consumed(n, _) => 0 < p < n
    ensures !OscCut(rest[p..], more)
  {
    assert |rest[p..]| > 2 ==> rest[p..][0] == rest[p] && rest[p..][1] == rest[p + 1];
    assert p == 0 ==> rest[p..] == rest;
  }

  /** Text without ESC is printed character by character, whatever follows it. */
  lemma {:induction false} PlainRun(w: string, rest: string)
    requires ESC !in w
    ensures Tail(w + rest) == Tail(rest)
    ensures |Actions(w + rest)| >= |Actions(rest)|
    ensures w != "" && w[0] >= ' ' ==> |Actions(w + rest)| > |Actions(rest)|
  {
    if w == "" {
      assert w + rest == rest;
    } else {
      assert (w + rest)[1..] == w[1..] + rest;
      PlainRun(w[1..], rest);
    }
  }

  /** An open command at the start of `text` is dropped as a lone ESC, and its completion in the whole stream
      as one silent lexeme. */
  lemma CutLexemes(text: string, more: string)
    requires OscCut(text, more)
    ensures Actions(text) == Actions(text[1..]) && Tail(text) == Tail(text[1..])
    ensures Actions(text + more) == Actions((text + more)[MatchOsc(text + more).value..])
  {
    var whole := text + more;
    assert whole[0] == ESC && whole[1] == ']';
    assert Lex(text) == Consumed(1, []);
    assert Lex(whole) == Consumed(MatchOsc(whole).value, []);
  }

  /** The remainder of a command's body, read on its own, does not disturb what follows its terminator. */
  lemma BodyThenTerminator(body: string, rest: string)
    requires ESC !in body
    requires rest != "" && (rest[0] == BEL || (|rest| >= 2 && rest[0] == ESC && rest[1] == '\\'))
    ensures var t := if rest[0] == BEL then 1 else 2; |Actions(body + rest)| >= |Actions(rest[t..])|
  {
    PlainRun(body, rest);
    if rest[0] == BEL {
      SilentBell(rest);
    } else {
      EscapeBackslash(rest);
    }
  }

  /** The cut falls between two characters of the body. */
  lemma CutPrintsBody(text: string, more: string)
    requires OscCut(text, more)
    requires BodyEnd(text, 2) == |text|
    ensures |Actions(text[1..])| + |Actions(Tail(text[1..]) + more)|
            > |Actions((text + more)[MatchOsc(text + more).value..])|
  {
    hide Lex, Actions, Tail, BodyEnd, OscCut, MatchOsc;
    OpenBody(text, more);
    PrintedToTheEnd(text[1..]);
    assert Tail(text[1..]) + more == more;
    var k := RestOfTheBody(text, more);
    assert more == more[..k] + more[k..];
    BodyThenTerminator(more[..k], more[k..]);
  }

  lemma OpenBody(text: string, more: string)
    requires OscCut(text, more)
    requires BodyEnd(text, 2) == |text|
    ensures text[1..] != "" && text[1..][0] >= ' ' && ESC !in text[1..]
  {
    hide BodyEnd;
    assert forall j :: 1 <= j < |text| ==> text[j] != ESC;
  }

  /** Where the rest of the body ends in `more`, and what the whole command leaves. */
  lemma RestOfTheBody(text: string, more: string) returns (k: nat)
    requires OscCut(text, more)
    requires BodyEnd(text, 2) == |text|
    ensures k < |more| && ESC !in more[..k]
    ensures more[k] == BEL || (k + 1 < |more| && more[k] == ESC && more[k + 1] == '\\')
    ensures more[k..][(if more[k] == BEL then 1 else 2)..] == (text + more)[MatchOsc(text + more).value..]
  {
    hide BodyEnd;
    BodyEndExtends(text, more, 2);
    k := BodyEnd(text + more, 2) - |text|;
    assert forall j :: 0 <= j < |more| ==> (text + more)[|text| + j] == more[j];
    assert more[k..][(if more[k] == BEL then 1 else 2)..]
        == (text + more)[|text| + k + (if more[k] == BEL then 1 else 2)..];
  }

  lemma PrintedToTheEnd(w: string)
    requires w != "" && w[0] >= ' ' && ESC !in w
    ensures Tail(w) == "" && |Actions(w)| > 0
  {
    PlainRun(w, "");
    assert w + "" == w;
  }

  /** The cut falls between the two characters of the string terminator. */
  lemma CutPrintsBackslash(text: string, more: string)
    requires OscCut(text, more)
    requires BodyEnd(text, 2) < |text|
    ensures |Actions(text[1..])| + |Actions(Tail(text[1..]) + more)|
            > |Actions((text + more)[MatchOsc(text + more).value..])|
  {
    var whole := text + more;
    BodyEndExtends(text, more, 2);
    var e := BodyEnd(text, 2);
    assert whole[e] == text[e] == ESC;
    assert forall j :: 0 <= j < |text| ==> whole[j] == text[j];
    assert e + 1 == |text|;
    var w := text[1..e];
    assert forall j :: 0 <= j < |w| ==> w[j] != ESC;
    assert text[1..] == w + [ESC];
    PlainRun(w, [ESC]);
    var rest := [ESC] + more;
    assert rest[1] == more[0] == whole[e + 1] == '\\';
    EscapeBackslash(rest);
    assert rest[2..] == whole[e + 2..];
  }

  /** The failing case: text that ends inside a command which `more` completes. The command's own characters
      become visible text, and the rest of the stream is read as before, so there are strictly more actions. */
  lemma CutAtStart(text: string, more: string)
    requires OscCut(text, more)
    ensures |Actions(text)| + |Actions(Tail(text) + more)| > |Actions(text + more)|
  {
    CutLexemes(text, more);
    if BodyEnd(text, 2) == |text| {
      CutPrintsBody(text, more);
    } else {
      CutPrintsBackslash(text, more);
    }
  }

  lemma SilentBell(rest: string)
    requires rest != "" && rest[0] == BEL
    ensures Actions(rest) == Actions(rest[1..])
  {
    assert Lex(rest) == Consumed(1, []);
  }

  lemma EscapeBackslash(rest: string)
    requires |rest| >= 2 && rest[0] == ESC && rest[1] == '\\'
    ensures |Actions(rest)| == 1 + |Actions(rest[2..])|
  {
    assert Lex(rest) == Consumed(1, []);
    assert Lex(rest[1..]) == Consumed(1, [Print('\\')]);
    assert rest[1..][1..] == rest[2..];
    assert Actions(rest) == Actions(rest[1..]) == [Print('\\')] + Actions(rest[2..]);
  }

  /** Cutting a stream leaves its actions and its tail unchanged, unless the cut falls inside a command's body. */
  lemma {:induction false} CutOutsideOsc(text: string, more: string)
    requires !CutsOsc(text, more)
    ensures Actions(text + more) == Actions(text) + Actions(Tail(text) + more)
    ensures Tail(text + more) == Tail(Tail(text) + more)
    decreases |text|
  {
    hide Lex, OscCut, CutsOsc, Actions, Tail;
    if text == "" {
      assert text + more == more;
      NothingLexed();
    } else if Lex(text).Consumed? {
      var n := Lex(text).length;
      CutsOscLater(text, more);
      LexStable(text, more);
      assert (text + more)[n..] == text[n..] + more;
      OneLexeme(text);
      OneLexeme(text + more);
      CutOutsideOsc(text[n..], more);
    } else {
      OneLexeme(text);
    }
  }

  lemma NothingLexed()
    ensures Actions("") == [] && Tail("") == ""
  {
  }

  lemma OneLexeme(text: string)
    requires text != ""
    ensures Lex(text).Held? ==> Actions(text) == [] && Tail(text) == text
    ensures Lex(text).Consumed? ==>
      var n := Lex(text).length;
      Actions(text) == Lex(text).actions + Actions(text[n..]) && Tail(text) == Tail(text[n..])
  {
    hide Lex;
  }

  lemma CutsOscLater(text: string, more: string)
    requires text != "" && Lex(text).Consumed?
    ensures CutsOsc(text, more) == (OscCut(text, more) || CutsOsc(text[Lex(text).length..], more))
  {
    var n := Lex(text).length;
    assert text[0..] == text;
    forall p | 0 <= p <= |text|
      ensures OscCut(text[p..], more) ==> p == 0 || p >= n
    {
      if 0 < p < n {
        NoCutInside(text, more, p);
      }
    }
    forall q | 0 <= q <= |text[n..]|
      ensures text[n..][q..] == text[n + q..]
    {
    }
    if CutsOsc(text, more) && !OscCut(text, more) {
      var p :| 0 <= p <= |text| && OscCut(text[p..], more);
      assert text[n..][p - n..] == text[p..];
    }
    if CutsOsc(text[n..], more) {
      var q :| 0 <= q <= |text[n..]| && OscCut(text[n..][q..], more);
      assert OscCut(text[n + q..], more);
    }
  }

  /** Cutting inside a command's body always adds actions. */
  lemma {:induction false} CutInsideOsc(text: string, more: string)
    requires CutsOsc(text, more)
    ensures |Actions(text)| + |Actions(Tail(text) + more)| > |Actions(text + more)|
    decreases |text|
  {
    hide Lex, MatchOsc;
    var p :| 0 <= p <= |text| && OscCut(text[p..], more);
    if Lex(text).Held? {
      NoCutInside(text, more, p);
    } else if OscCut(text, more) {
      CutAtStart(text, more);
    } else {
      var n := Lex(text).length;
      LexStable(text, more);
      assert (text + more)[n..] == text[n..] + more;
      CutsOscLater(text, more);
      CutInsideOsc(text[n..], more);
    }
  }

  /** The exact condition: a cut is invisible if and only if it does not fall inside the body of an
      operating-system command that the later text finishes. */
  lemma CutIsInvisibleIff(text: string, more: string)
    ensures (Actions(text + more) == Actions(text) + Actions(Tail(text) + more) &&
             Tail(text + more) == Tail(Tail(text) + more))
            <==> !CutsOsc(text, more)
  {
    if CutsOsc(text, more) {
      CutInsideOsc(text, more);
    } else {
      CutOutsideOsc(text, more);
    }
  }

  // ---------------------------------------------------------------- the grid

  function Min(a: int, b: int): int { if a <= b then a else b }

  function Max(a: int, b: int): int { if a >= b then a else b }

  type Grid = seq<seq<char>>

  /** What is visible, and where the next character goes. The cursor may stand below or to the right of the grid,
      and a zero coordinate in a cursor report puts it at -1, which indexes a Python list from its end. */
  datatype Cells = Cells(rows: nat, cols: nat, grid: Grid, row: int, col: int) {

    predicate Valid() {
      && rows >= 1 && cols >= 1
      && |grid| == rows
      && (forall y :: 0 <= y < rows ==> |grid[y]| == cols)
      && row >= -1
      && col >= -1
    }
  }

  /** The list index Python uses for `i`, which must lie between `-n` and `n - 1`. */
  function PyIndex(i: int, n: nat): (index: nat)
    requires 0 <= i + n && i < n
    ensures index < n
  {
    if i < 0 then n + i else i
  }

  function BlankRow(cols: nat): (r: seq<char>)
    ensures |r| == cols
  {
    seq(cols, _ => ' ')
  }

  function BlankGrid(rows: nat, cols: nat): (g: Grid)
    ensures |g| == rows
  {
    seq(rows, _ => BlankRow(cols))
  }

  /** `line` with every cell from column `x` on erased. */
  function ErasedFrom(line: seq<char>, x: int): (r: seq<char>)
    ensures |r| == |line|
  {
    seq(|line|, i requires 0 <= i < |line| => if i >= x then ' ' else line[i])
  }

  /** The numbers of a parameter string: `?` is ignored, `;` separates, and an empty field is no number.
      `field` holds the digits read since the last separator. */
  function Numbers(params: string, field: string): (nums: seq<int>)
    requires AllDigits(field)
    ensures forall i :: 0 <= i < |nums| ==> nums[i] >= 0
    decreases |params|
  {
    if params == "" then
      if field == "" then [] else [DigitsValue(field)]
    else if IsDigit(params[0]) then
      Numbers(params[1..], field + [params[0]])
    else if params[0] == ';' then
      (if field == "" then [] else [DigitsValue(field)]) + Numbers(params[1..], "")
    else
      Numbers(params[1..], field)
  }

  function ControlCells(s: Cells, params: string, final: char): (t: Cells)
    requires s.Valid()
    ensures t.Valid() && t.rows == s.rows && t.cols == s.cols
  {
    var nums := Numbers(params, "");
    var n := if |nums| > 0 then nums[0] else 1;
    if final == 'H' || final == 'f' then
      s.(row := if |nums| > 0 then nums[0] - 1 else 0, col := if |nums| > 1 then nums[1] - 1 else 0)
    else if final == 'J' && (nums == [] || nums[0] == 2) then
      s.(grid := BlankGrid(s.rows, s.cols), row := 0, col := 0)
    else if final == 'K' then
      if s.row < s.rows then
        var y := PyIndex(s.row, s.rows);
        s.(grid := s.grid[y := ErasedFrom(s.grid[y], s.col)])
      else s
    else if final == 'A' then s.(row := Max(0, s.row - n))
    else if final == 'B' then s.(row := Min(s.rows - 1, s.row + n))
    else if final == 'C' then s.(col := Min(s.cols - 1, s.col + n))
    else if final == 'D' then s.(col := Max(0, s.col - n))
    else s
  }

  function Performed(s: Cells, a: Action): (t: Cells)
    requires s.Valid()
    ensures t.Valid() && t.rows == s.rows && t.cols == s.cols
  {
    match a
    case CarriageReturn => s.(col := 0)
    case LineFeed => s.(row := Min(s.row + 1, s.rows - 1))
    case StepBack => s.(col := Max(s.col - 1, 0))
    case Control(params, final) => ControlCells(s, params, final)
    case Print(c) =>
      var inside := s.row < s.rows && s.col < s.cols;
      s.(col := s.col + 1,
         grid := if inside then
                   var y, x := PyIndex(s.row, s.rows), PyIndex(s.col, s.cols);
                   s.grid[y := s.grid[y][x := c]]
                 else s.grid)
  }

  function AllPerformed(s: Cells, actions: seq<Action>): (t: Cells)
    requires s.Valid()
    ensures t.Valid() && t.rows == s.rows && t.cols == s.cols
    decreases |actions|
  {
    if actions == [] then s else AllPerformed(Performed(s, actions[0]), actions[1..])
  }

  lemma {:induction false} AllPerformedConcat(s: Cells, a: seq<Action>, b: seq<Action>)
    requires s.Valid()
    ensures AllPerformed(s, a + b) == AllPerformed(AllPerformed(s, a), b)
    decreases |a|
  {
    if a == [] {
      assert a + b == b;
    } else {
      assert (a + b)[1..] == a[1..] + b;
      AllPerformedConcat(Performed(s, a[0]), a[1..], b);
    }
  }

  // ---------------------------------------------------------------- feeding

  /** A screen between two reads: its cells and the text held back. */
  datatype Reader = Reader(cells: Cells, pending: string)

  /** The effect of one read. */
  function Fed(s: Reader, data: string): (t: Reader)
    requires s.cells.Valid()
    ensures t.cells.Valid()
  {
    Reader(AllPerformed(s.cells, Actions(s.pending + data)), Tail(s.pending + data))
  }

  function FedAll(s: Reader, chunks: seq<string>): (t: Reader)
    requires s.cells.Valid()
    ensures t.cells.Valid()
    decreases |chunks|
  {
    if chunks == [] then s else FedAll(Fed(s, chunks[0]), chunks[1..])
  }

  function Joined(chunks: seq<string>): string {
    if chunks == [] then "" else chunks[0] + Joined(chunks[1..])
  }

  /** Two chunks leave the same cells and the same held-back text as one, when the cut is not in a command's body. */
  lemma TwoReadsAreOne(s: Reader, a: string, b: string)
    requires s.cells.Valid()
    requires !CutsOsc(s.pending + a, b)
    ensures Fed(Fed(s, a), b) == Fed(s, a + b)
  {
    hide Actions, Tail, AllPerformed, CutsOsc;
    var text := s.pending + a;
    assert text + b == s.pending + (a + b);
    CutOutsideOsc(text, b);
    AllPerformedConcat(s.cells, Actions(text), Actions(Tail(text) + b));
  }

  predicate OpensOsc(text: string) {
    exists p | 0 <= p < |text| - 1 :: text[p] == ESC && text[p + 1] == ']'
  }

  /** However a stream without an `ESC ]` introducer is cut into reads, the screen ends up the same. */
  lemma {:induction false} ReadsDoNotMatter(s: Reader, chunks: seq<string>)
    requires s.cells.Valid()
    requires Tail(s.pending) == s.pending && Actions(s.pending) == []
    requires !OpensOsc(s.pending + Joined(chunks))
    ensures FedAll(s, chunks) == Fed(s, Joined(chunks))
    decreases |chunks|
  {
    if chunks == [] {
      assert s.pending + "" == s.pending;
    } else {
      var a, b := chunks[0], Joined(chunks[1..]);
      var text := s.pending + a;
      assert text + b == s.pending + Joined(chunks);
      NoIntroducerNoCut(text, b);
      CutOutsideOsc(text, b);
      TwoReadsAreOne(s, a, b);
      TailIsSettled(text);
      var p := TailIsSuffix(text);
      assert forall i :: 0 <= i < |Tail(text) + b| ==> (Tail(text) + b)[i] == (text + b)[p + i];
      ReadsDoNotMatter(Fed(s, a), chunks[1..]);
    }
  }

  lemma NoIntroducerNoCut(text: string, more: string)
    requires !OpensOsc(text + more)
    ensures !CutsOsc(text, more)
  {
    assert forall j :: 0 <= j < |text| ==> (text + more)[j] == text[j];
    forall p | 0 <= p <= |text|
      ensures !OscCut(text[p..], more)
    {
      assert |text[p..]| > 1 ==> text[p..][0] == text[p] && text[p..][1] == text[p + 1];
    }
  }

  /** Held-back text stays held back until more arrives. */
  lemma {:induction false} TailIsSettled(text: string)
    ensures Tail(Tail(text)) == Tail(text)
    ensures Actions(Tail(text)) == []
    decreases |text|
  {
    if text != "" && Lex(text).Consumed? {
      TailIsSettled(text[Lex(text).length..]);
    }
  }

  lemma {:induction false} TailIsSuffix(text: string) returns (p: nat)
    ensures p <= |text| && Tail(text) == text[p..]
    decreases |text|
  {
    if text != "" && Lex(text).Consumed? {
      var n := Lex(text).length;
      var q := TailIsSuffix(text[n..]);
      p := n + q;
    } else {
      p := 0;
    }
  }

  /** The restriction is needed: a window title is silent in one read, and not when its body is cut. */
  lemma SplitTitleIsPrinted()
    ensures
      var a, b := [ESC, ']', '0'], [BEL];
      && Actions(a + b) == []
      && |Actions(a)| + |Actions(Tail(a) + b)| > 0
  {
    var a, b := [ESC, ']', '0'], [BEL];
    assert a + b == [ESC, ']', '0', BEL];
    assert BodyEnd(a, 3) == 3 && BodyEnd(a, 2) == 3;
    assert BodyEnd(a + b, 3) == 3 && BodyEnd(a + b, 2) == 3;
    assert MatchOsc(a).None? && MatchOsc(a + b) == Some(4);
    assert a[0..] == a;
    CutInsideOsc(a, b);
    assert MatchCsi(a + b).None? && MatchCharset(a + b).None?;
    assert Lex(a + b) == Consumed(4, []) && (a + b)[4..] == "";
  }

  // ---------------------------------------------------------------- what a chunk does

  /** A control sequence, as the interface writes it. */
  function Sequence(params: string, final: char): string {
    [ESC, '['] + params + [final]
  }

  predicate Params(p: string) {
    forall i :: 0 <= i < |p| ==> IsDigit(p[i]) || p[i] == ';' || p[i] == '?'
  }

  /** What may follow a number: nothing, or a separator and further parameters. */
  predicate Follows(p: string) {
    Params(p) && (p == "" || p[0] == ';')
  }

  predicate Settled(s: Reader) {
    s.cells.Valid() && s.pending == ""
  }

  lemma {:induction false} ParamRun(s: string, i: nat, k: nat)
    requires i <= k <= |s|
    requires forall j :: i <= j < k ==> IsParam(s[j])
    requires k < |s| ==> !IsParam(s[k])
    ensures ParamEnd(s, i) == k
    decreases k - i
  {
    if i < k {
      ParamRun(s, i + 1, k);
    }
  }

  /** A text of one lexeme performs that lexeme and holds nothing back. */
  lemma FeedsOneLexeme(s: Reader, text: string, actions: seq<Action>)
    requires Settled(s) && text != "" && Lex(text) == Consumed(|text|, actions)
    ensures Fed(s, text) == Reader(AllPerformed(s.cells, actions), "")
  {
    hide Lex, Performed;
    assert s.pending + text == text;
    assert text[|text|..] == "";
    assert Actions(text) == actions + Actions("");
    assert Tail(text) == Tail("");
  }

  lemma PerformsSequence(s: Reader, params: string, final: char)
    requires Settled(s) && Params(params) && '@' <= final <= '~'
    ensures Fed(s, Sequence(params, final)) == Reader(ControlCells(s.cells, params, final), "")
  {
    hide ControlCells, MatchOsc, MatchCharset, Actions, Tail;
    var text, k := Sequence(params, final), 2 + |params|;
    assert forall j :: 2 <= j < k ==> text[j] == params[j - 2];
    ParamRun(text, 2, k);
    assert MatchCsi(text) == Some(|text|);
    assert text[2..|text| - 1] == params;
    FeedsOneLexeme(s, text, [Control(params, final)]);
  }

  lemma {:induction false} NumbersAfterDigits(digits: string, field: string, rest: string)
    requires AllDigits(digits) && AllDigits(field)
    ensures Numbers(digits + rest, field) == Numbers(rest, field + digits)
    decreases |digits|
  {
    if digits == "" {
      assert digits + rest == rest && field + digits == field;
    } else {
      assert (digits + rest)[1..] == digits[1..] + rest;
      NumbersAfterDigits(digits[1..], field + [digits[0]], rest);
      assert field + [digits[0]] + digits[1..] == field + digits;
    }
  }

  lemma FirstNumber(n: nat, more: string)
    requires Follows(more)
    ensures var nums := Numbers(Decimal(n) + more, ""); |nums| > 0 && nums[0] == n
    ensures more == "" ==> Numbers(Decimal(n) + more, "") == [n]
  {
    NumbersAfterDigits(Decimal(n), "", more);
    assert "" + Decimal(n) == Decimal(n);
    DecimalValue(n);
  }

  lemma TwoNumbers(r: nat, c: nat, more: string)
    requires Follows(more)
    ensures var nums := Numbers(Decimal(r) + (";" + (Decimal(c) + more)), "");
            |nums| > 1 && nums[0] == r && nums[1] == c
  {
    var rest := Decimal(c) + more;
    NumbersAfterDigits(Decimal(r), "", ";" + rest);
    assert "" + Decimal(r) == Decimal(r);
    assert (";" + rest)[1..] == rest;
    DecimalValue(r);
    FirstNumber(c, more);
  }

  /** A cursor report puts the cursor at its one-based row and column, and touches no cell. */
  lemma CursorIsPlaced(s: Reader, r: nat, c: nat, more: string, final: char)
    requires Settled(s) && Follows(more) && (final == 'H' || final == 'f')
    ensures Fed(s, Sequence(Decimal(r) + (";" + (Decimal(c) + more)), final))
            == Reader(s.cells.(row := r - 1, col := c - 1), "")
  {
    hide Numbers, Fed;
    var params := Decimal(r) + (";" + (Decimal(c) + more));
    assert Params(params);
    PerformsSequence(s, params, final);
    TwoNumbers(r, c, more);
  }

  /** Without a column it goes to the first one, and without either to the corner. */
  lemma CursorIsPlacedShort(s: Reader, r: nat, final: char)
    requires Settled(s) && (final == 'H' || final == 'f')
    ensures Fed(s, Sequence(Decimal(r), final)) == Reader(s.cells.(row := r - 1, col := 0), "")
    ensures Fed(s, Sequence("", final)) == Reader(s.cells.(row := 0, col := 0), "")
  {
    hide Fed;
    assert Params(Decimal(r));
    PerformsSequence(s, Decimal(r), final);
    PerformsSequence(s, "", final);
    FirstNumber(r, "");
    assert Decimal(r) + "" == Decimal(r);
  }

  /** A count moves the cursor that far, but not off the grid. */
  lemma CursorMoves(s: Reader, n: nat, more: string)
    requires Settled(s) && Follows(more)
    ensures
      var params, t := Decimal(n) + more, s.cells;
      && Fed(s, Sequence(params, 'A')) == Reader(t.(row := if t.row > n then t.row - n else 0), "")
      && Fed(s, Sequence(params, 'B')) == Reader(t.(row := if t.row + n < t.rows then t.row + n else t.rows - 1), "")
      && Fed(s, Sequence(params, 'C')) == Reader(t.(col := if t.col + n < t.cols then t.col + n else t.cols - 1), "")
      && Fed(s, Sequence(params, 'D')) == Reader(t.(col := if t.col > n then t.col - n else 0), "")
  {
    hide Numbers, Fed;
    var params := Decimal(n) + more;
    assert Params(params);
    FirstNumber(n, more);
    PerformsSequence(s, params, 'A');
    PerformsSequence(s, params, 'B');
    PerformsSequence(s, params, 'C');
    PerformsSequence(s, params, 'D');
  }

  /** No count is a count of one. */
  lemma CursorMovesByOne(s: Reader)
    requires Settled(s)
    ensures
      && Fed(s, Sequence("", 'A')) == Fed(s, Sequence(Decimal(1), 'A'))
      && Fed(s, Sequence("", 'B')) == Fed(s, Sequence(Decimal(1), 'B'))
      && Fed(s, Sequence("", 'C')) == Fed(s, Sequence(Decimal(1), 'C'))
      && Fed(s, Sequence("", 'D')) == Fed(s, Sequence(Decimal(1), 'D'))
  {
    hide Fed;
    assert Decimal(1) + "" == Decimal(1) && Params(Decimal(1));
    FirstNumber(1, "");
    forall final: char | 'A' <= final <= 'D'
      ensures Fed(s, Sequence("", final)) == Fed(s, Sequence(Decimal(1), final))
    {
      PerformsSequence(s, "", final);
      PerformsSequence(s, Decimal(1), final);
    }
  }

  predicate Blank(t: Cells)
    requires t.Valid()
  {
    forall y, x :: 0 <= y < t.rows && 0 <= x < t.cols ==> t.grid[y][x] == ' '
  }

  /** Erasing the display blanks every cell and takes the cursor to the corner. */
  lemma DisplayIsErased(s: Reader, params: string)
    requires Settled(s) && (params == "" || exists more :: Follows(more) && params == Decimal(2) + more)
    ensures
      var t := Fed(s, Sequence(params, 'J'));
      t.pending == "" && t.cells.row == t.cells.col == 0 && Blank(t.cells)
  {
    hide Numbers, Fed;
    if params == "" {
      PerformsSequence(s, "", 'J');
      NoNumbers();
    } else {
      var more :| Follows(more) && params == Decimal(2) + more;
      assert Params(params);
      PerformsSequence(s, params, 'J');
      FirstNumber(2, more);
    }
  }

  lemma NoNumbers()
    ensures Numbers("", "") == []
  {
  }

  /** The other erases of the display are not interpreted. */
  lemma OtherErasesAreIgnored(s: Reader, n: nat, more: string)
    requires Settled(s) && Follows(more) && n != 2
    ensures Fed(s, Sequence(Decimal(n) + more, 'J')) == s
  {
    hide Numbers, Fed;
    assert Params(Decimal(n) + more);
    PerformsSequence(s, Decimal(n) + more, 'J');
    FirstNumber(n, more);
  }

  /** Where the cursor stands among `n` rows or columns, -1 being the last. */
  predicate StandsAt(at: int, k: nat, n: nat) {
    at == k || (at == -1 && k == n - 1)
  }

  /** Erasing a line blanks the cells from the cursor on, on its row only, and leaves the cursor where it is. */
  lemma LineIsErased(s: Reader, params: string)
    requires Settled(s) && Params(params)
    ensures
      var t := Fed(s, Sequence(params, 'K'));
      && t.pending == "" && t.cells.(grid := s.cells.grid) == s.cells
      && forall y, x :: 0 <= y < s.cells.rows && 0 <= x < s.cells.cols ==>
           t.cells.grid[y][x]
           == if StandsAt(s.cells.row, y, s.cells.rows) && x >= s.cells.col then ' ' else s.cells.grid[y][x]
  {
    hide Numbers, Fed;
    PerformsSequence(s, params, 'K');
  }

  /** Every other control sequence is skipped. */
  lemma OtherSequencesAreSilent(s: Reader, params: string, final: char)
    requires Settled(s) && Params(params) && '@' <= final <= '~'
    requires final !in "HfJKABCD"
    ensures Fed(s, Sequence(params, final)) == s
  {
    hide Numbers, Fed;
    PerformsSequence(s, params, final);
    assert forall i :: 0 <= i < 8 ==> final != "HfJKABCD"[i];
    assert final != "HfJKABCD"[0] && final != "HfJKABCD"[1] && final != "HfJKABCD"[2] && final != "HfJKABCD"[3];
    assert final != "HfJKABCD"[4] && final != "HfJKABCD"[5] && final != "HfJKABCD"[6] && final != "HfJKABCD"[7];
  }

  lemma {:induction false} NumbersSkipQuestion(a: string, b: string, field: string)
    requires AllDigits(field)
    ensures Numbers(a + "?" + b, field) == Numbers(a + b, field)
    decreases |a|
  {
    var with, without := a + "?" + b, a + b;
    if a == "" {
      assert with[1..] == b && without == b;
    } else {
      assert with[1..] == a[1..] + "?" + b && without[1..] == a[1..] + b;
      NumbersSkipQuestion(a[1..], b, if IsDigit(a[0]) then field + [a[0]] else if a[0] == ';' then "" else field);
    }
  }

  lemma SameNumbers(s: Cells, a: string, b: string, final: char)
    requires s.Valid() && Numbers(a, "") == Numbers(b, "")
    ensures ControlCells(s, a, final) == ControlCells(s, b, final)
  {
    hide Numbers;
  }

  /** A question mark anywhere among the parameters changes nothing, and neither does a leading separator. */
  lemma QuestionMarksAreIgnored(s: Reader, a: string, b: string, final: char)
    requires Settled(s) && Params(a) && Params(b) && '@' <= final <= '~'
    ensures Fed(s, Sequence(a + "?" + b, final)) == Fed(s, Sequence(a + b, final))
    ensures Fed(s, Sequence(";" + b, final)) == Fed(s, Sequence(b, final))
  {
    hide Fed, ControlCells;
    PerformsSequence(s, a + "?" + b, final);
    PerformsSequence(s, a + b, final);
    NumbersSkipQuestion(a, b, "");
    PerformsSequence(s, ";" + b, final);
    PerformsSequence(s, b, final);
    assert (";" + b)[1..] == b;
    SameNumbers(s.cells, a + "?" + b, a + b, final);
    SameNumbers(s.cells, ";" + b, b, final);
  }

  /** A printable character takes the cursor's cell, if there is one, and moves the cursor right. */
  lemma CharacterIsPrinted(s: Reader, c: char)
    requires Settled(s) && c >= ' '
    ensures
      var t := Fed(s, [c]);
      && t.pending == "" && t.cells.(grid := s.cells.grid) == s.cells.(col := s.cells.col + 1)
      && forall y, x :: 0 <= y < s.cells.rows && 0 <= x < s.cells.cols ==>
           t.cells.grid[y][x]
           == if StandsAt(s.cells.row, y, s.cells.rows) && StandsAt(s.cells.col, x, s.cells.cols) then c
              else s.cells.grid[y][x]
  {
    hide Fed;
    FeedsOneLexeme(s, [c], [Print(c)]);
  }

  /** The control characters: a return, a line feed and a backspace move the cursor, and the rest do nothing. */
  lemma ControlCharacters(s: Reader, c: char)
    requires Settled(s) && c < ' ' && c != ESC
    ensures
      var t := s.cells;
      Fed(s, [c])
      == Reader(if c == '\r' then t.(col := 0)
                else if c == '\n' then t.(row := if t.row + 1 < t.rows then t.row + 1 else t.rows - 1)
                else if c == '\U{08}' then t.(col := if t.col > 0 then t.col - 1 else 0)
                else t, "")
  {
    hide Fed;
    FeedsOneLexeme(s, [c], Plain(c));
  }

  /** A choice of character set is silent, and so is a whole operating-system command. */
  lemma CharsetIsSilent(s: Reader, open: char, which: char)
    requires Settled(s) && (open == '(' || open == ')')
    requires '0' <= which <= '9' || 'A' <= which <= 'Z' || 'a' <= which <= 'z'
    ensures Fed(s, [ESC, open, which]) == s
  {
    FeedsOneLexeme(s, [ESC, open, which], []);
  }

  lemma {:induction false} BodyRun(s: string, i: nat, k: nat)
    requires i <= k < |s|
    requires forall j :: i <= j < k ==> s[j] != BEL && s[j] != ESC
    requires s[k] == BEL || s[k] == ESC
    ensures BodyEnd(s, i) == k
    decreases k - i
  {
    if i < k {
      BodyRun(s, i + 1, k);
    }
  }

  lemma CommandIsSilent(s: Reader, body: string, end: string)
    requires Settled(s) && BEL !in body && ESC !in body && (end == [BEL] || end == [ESC, '\\'])
    ensures Fed(s, [ESC, ']'] + body + end) == s
  {
    hide LooksIncomplete;
    var text, k := [ESC, ']'] + body + end, 2 + |body|;
    assert forall j :: 2 <= j < k ==> text[j] == body[j - 2];
    BodyRun(text, 2, k);
    assert text[k..] == end;
    assert text[k] == end[0] && (|end| > 1 ==> text[k + 1] == end[1]);
    FeedsOneLexeme(s, text, []);
  }

  ghost predicate OpensSequence(text: string) {
    exists p :: Params(p) && (text == [ESC] + p || text == [ESC, '['] + p)
  }

  /** Exactly what a read holds back: a lone escape, the start of a control sequence, or the two characters that open
      a command or choose a character set. */
  lemma HeldIff(text: string)
    requires text != ""
    ensures Lex(text).Held? <==>
      OpensSequence(text) || text == [ESC, '('] || text == [ESC, ')'] || text == [ESC, ']']
  {
    if Lex(text).Held? {
      HeldOpens(text);
    } else if OpensSequence(text) {
      var p :| Params(p) && (text == [ESC] + p || text == [ESC, '['] + p);
      OpenIsHeld(text, p);
    }
  }

  lemma HeldOpens(text: string)
    requires text != "" && Lex(text).Held?
    ensures OpensSequence(text) || text == [ESC, '('] || text == [ESC, ')'] || text == [ESC, ']']
  {
    hide MatchCsi, MatchOsc, MatchCharset;
    if |text| == 1 {
      assert Params("") && text == [ESC] + "";
    } else {
      var i := if text[1] == '[' then 2 else 1;
      if ParamEnd(text, i) == |text| {
        assert Params(text[i..]);
        assert text == (if i == 2 then [ESC, '['] else [ESC]) + text[i..];
      }
    }
  }

  lemma OpenIsHeld(text: string, p: string)
    requires Params(p) && (text == [ESC] + p || text == [ESC, '['] + p)
    ensures Lex(text).Held?
  {
    if |text| > 1 {
      var i := |text| - |p|;
      assert forall j :: i <= j < |text| ==> text[j] == p[j - i];
      ParamRun(text, i, |text|);
      assert IsParam(text[|text| - 1]) || p == "";
      assert MatchOsc(text).None? && MatchCharset(text).None?;
    }
  }

  lemma DroppedEscape(s: Reader, rest: string)
    requires Settled(s) && rest != "" && Lex([ESC] + rest) == Consumed(1, [])
    ensures Fed(s, [ESC] + rest) == Fed(s, rest)
  {
    hide AllPerformed, Lex;
    var text := [ESC] + rest;
    assert s.pending + text == text && s.pending + rest == rest && text[1..] == rest;
    assert [] + Actions(rest) == Actions(rest);
    OneLexeme(text);
  }

  /** An escape that opens nothing is dropped, and what follows is read by itself. */
  lemma StrayEscapeIsDropped(s: Reader, rest: string)
    requires Settled(s) && rest != "" && rest[0] !in "[]()" && !Params([rest[0]])
    ensures Fed(s, [ESC] + rest) == Fed(s, rest)
  {
    hide Fed;
    var text := [ESC] + rest;
    assert rest[0] != "[]()"[0] && rest[0] != "[]()"[1] && rest[0] != "[]()"[2] && rest[0] != "[]()"[3];
    assert [rest[0]][0] == rest[0];
    ParamRun(text, 1, 1);
    DroppedEscape(s, rest);
  }

  /** So is the escape of a control sequence that a character breaks off. */
  lemma BrokenSequenceIsPrinted(s: Reader, params: string, rest: string)
    requires Settled(s) && Params(params) && rest != "" && !Params([rest[0]]) && !('@' <= rest[0] <= '~')
    ensures Fed(s, [ESC] + ("[" + params + rest)) == Fed(s, "[" + params + rest)
  {
    hide Fed;
    var text, k := [ESC] + ("[" + params + rest), 2 + |params|;
    assert [rest[0]][0] == rest[0] == text[k];
    assert forall j :: 2 <= j < k ==> text[j] == params[j - 2];
    ParamRun(text, 2, k);
    DroppedEscape(s, "[" + params + rest);
  }

  // ---------------------------------------------------------------- the class

  /** The emulator itself, updated in place. */
  class Screen {
    const rows: nat
    const cols: nat
    var grid: Grid
    var row: int
    var col: int
    var pending: string

    predicate Valid()
      reads this
    {
      State().cells.Valid()
    }

    function State(): Reader
      reads this
    {
      Reader(Cells(rows, cols, grid, row, col), pending)
    }

    constructor (rows: nat, cols: nat)
      requires rows >= 1 && cols >= 1
      ensures Valid()
      ensures State() == Reader(Cells(rows, cols, BlankGrid(rows, cols), 0, 0), "")
    {
      this.rows, this.cols := rows, cols;
      grid := BlankGrid(rows, cols);
      row, col := 0, 0;
      pending := "";
    }

    /** Read one chunk of the child's output. */
    method Feed(data: string)
      requires Valid()
      modifies this
      ensures Valid()
      ensures State() == Fed(old(State()), data)
    {
      hide Lex, Performed;
      var text := pending + data;
      ghost var start := State().cells;
      pending := "";
      var i := 0;
      while i < |text|
        invariant 0 <= i <= |text|
        invariant Valid() && pending == ""
        invariant AllPerformed(State().cells, Actions(text[i..])) == AllPerformed(start, Actions(text))
        invariant Tail(text[i..]) == Tail(text)
      {
        ghost var before := State().cells;
        var length := Consume(text[i..]);
        if length == 0 {
          return;
        }
        Step(before, text[i..]);
        assert text[i..][length..] == text[i + length..];
        i := i + length;
      }
    }

    /** One turn of that loop on the text that is left; it returns 0 when it holds the text back. */
    method Consume(rest: string) returns (length: nat)
      requires Valid() && rest != ""
      modifies this
      ensures Valid()
      ensures Lex(rest).Held? ==>
        length == 0 && pending == rest && State().cells == old(State().cells)
      ensures Lex(rest).Consumed? ==>
        && length == Lex(rest).length && pending == old(pending)
        && State().cells == if Lex(rest).actions == [] then old(State().cells)
                            else Performed(old(State().cells), Lex(rest).actions[0])
    {
      if rest[0] != ESC {
        Type(rest[0]);
        return 1;
      }
      if |rest| < 2 {
        pending := rest;
        return 0;
      }
      var csi := MatchCsi(rest);
      if csi.Some? {
        Csi(rest[2..csi.value - 1], rest[csi.value - 1]);
        return csi.value;
      }
      var silent := if MatchCharset(rest).Some? then MatchCharset(rest) else MatchOsc(rest);
      if silent.Some? {
        return silent.value;
      }
      if LooksIncomplete(rest) {
        pending := rest;
        return 0;
      }
      return 1;
    }

    /** What consuming the first lexeme of `rest` does to what is still to be performed. */
    static lemma Step(cells: Cells, rest: string)
      requires cells.Valid()
      requires rest != "" && Lex(rest).Consumed?
      ensures
        var n, actions := Lex(rest).length, Lex(rest).actions;
        && AllPerformed(cells, Actions(rest)) == AllPerformed(AllPerformed(cells, actions), Actions(rest[n..]))
        && Tail(rest) == Tail(rest[n..])
        && AllPerformed(cells, actions) == if actions == [] then cells else Performed(cells, actions[0])
    {
      hide Lex, Performed;
      var n, actions := Lex(rest).length, Lex(rest).actions;
      AllPerformedConcat(cells, actions, Actions(rest[n..]));
      assert actions != [] ==> actions[1..] == [];
    }

    /** One character outside any escape sequence. */
    method Type(ch: char)
      requires Valid()
      modifies this`grid, this`row, this`col
      ensures Valid()
      ensures State().cells == if Plain(ch) == [] then old(State().cells)
                               else Performed(old(State().cells), Plain(ch)[0])
    {
      if ch == '\r' {
        col := 0;
      } else if ch == '\n' {
        row := Min(row + 1, rows - 1);
      } else if ch == BACKSPACE {
        col := Max(col - 1, 0);
      } else if ch >= ' ' {
        if row < rows && col < cols {
          var y, x := PyIndex(row, rows), PyIndex(col, cols);
          grid := grid[y := grid[y][x := ch]];
        }
        col := col + 1;
      }
    }

    /** Erase row `y` from the cursor's column to its end. */
    method EraseLine(y: nat)
      requires Valid() && y < rows
      modifies this`grid
      ensures Valid()
      ensures grid == old(grid)[y := ErasedFrom(old(grid)[y], col)]
    {
      var before := grid[y];
      var x := col;
      while x < cols
        invariant col <= x && (x <= cols || x == col)
        invariant Valid()
        invariant grid == old(grid)[y := grid[y]]
        invariant forall i :: 0 <= i < cols ==>
          grid[y][i] == if col <= i < x || (col < 0 <= x && i == cols - 1) then ' ' else before[i]
      {
        grid := grid[y := grid[y][PyIndex(x, cols) := ' ']];
        x := x + 1;
      }
      assert grid[y] == ErasedFrom(before, col);
    }

    /** One control sequence. */
    method Csi(params: string, final: char)
      requires Valid()
      modifies this`grid, this`row, this`col
      ensures Valid()
      ensures State().cells == ControlCells(old(State().cells), params, final)
    {
      var nums := Numbers(params, "");
      if final == 'H' || final == 'f' {
        row := if |nums| > 0 then nums[0] - 1 else 0;
        col := if |nums| > 1 then nums[1] - 1 else 0;
      } else if final == 'J' && (nums == [] || nums[0] == 2) {
        grid := BlankGrid(rows, cols);
        row, col := 0, 0;
      } else if final == 'K' {
        if row < rows {
          var y := PyIndex(row, rows);
          EraseLine(y);
        }
      } else if final == 'A' {
        row := Max(0, row - (if |nums| > 0 then nums[0] else 1));
      } else if final == 'B' {
        row := Min(rows - 1, row + (if |nums| > 0 then nums[0] else 1));
      } else if final == 'C' {
        col := Min(cols - 1, col + (if |nums| > 0 then nums[0] else 1));
      } else if final == 'D' {
        col := Max(0, col - (if |nums| > 0 then nums[0] else 1));
      }
    }
  }
}
