/** The parts of Python's string library the scripts rely on: decimal numbers, whitespace, and line splitting. */
module Text {

  datatype Option<+T> = None | Some(value: T)

  datatype Result<+T> = Ok(value: T) | Error

  // ---------------------------------------------------------------- decimal numbers

  predicate IsDigit(c: char) {
    '0' <= c <= '9'
  }

  predicate AllDigits(s: string) {
    forall i :: 0 <= i < |s| ==> IsDigit(s[i])
  }

  function DigitsValue(digits: string): nat
    requires AllDigits(digits)
  {
    if digits == "" then 0
    else 10 * DigitsValue(digits[..|digits| - 1]) + (digits[|digits| - 1] as int - '0' as int)
  }

  function DigitChar(d: nat): (c: char)
    requires d < 10
    ensures IsDigit(c)
  {
    ('0' as int + d) as char
  }

  function Decimal(n: nat): (s: string)
    ensures s != "" && AllDigits(s)
  {
    (if n < 10 then "" else Decimal(n / 10)) + [DigitChar(n % 10)]
  }

  lemma {:induction false} DecimalValue(n: nat)
    ensures DigitsValue(Decimal(n)) == n
  {
    var s := Decimal(n);
    if n < 10 {
      assert s[..|s| - 1] == "";
    } else {
      assert s[..|s| - 1] == Decimal(n / 10);
      DecimalValue(n / 10);
    }
  }

  /** Numbers are written in base ten. */
  lemma NumbersAreDecimal()
    ensures Decimal(0) == "0" && Decimal(10) == "10" && Decimal(409) == "409"
    ensures DigitsValue("409") == 409
  {
    assert Decimal(4) == "4" && Decimal(40) == "40";
    assert Decimal(409) == Decimal(40) + "9";
    DecimalValue(409);
  }

  /** The digits `s` begins with. */
  function DigitRun(s: string): (d: string)
    ensures AllDigits(d) && |d| <= |s|
  {
    if s != "" && IsDigit(s[0]) then [s[0]] + DigitRun(s[1..]) else ""
  }

  lemma {:induction false} DigitRunOf(d: string, rest: string)
    requires AllDigits(d) && (rest == "" || !IsDigit(rest[0]))
    ensures DigitRun(d + rest) == d
  {
    if d == "" {
      assert d + rest == rest;
    } else {
      assert (d + rest)[1..] == d[1..] + rest;
      DigitRunOf(d[1..], rest);
    }
  }

  // ---------------------------------------------------------------- prefixes and whitespace

  predicate StartsWith(s: string, prefix: string) {
    |prefix| <= |s| && s[..|prefix|] == prefix
  }

  predicate EndsWith(s: string, suffix: string) {
    |suffix| <= |s| && s[|s| - |suffix|..] == suffix
  }

  /** `str.isspace` for one character. */
  predicate IsSpace(c: char) {
    || '\t' <= c <= '\r'
    || '\U{1C}' <= c <= ' '
    || c == '\U{85}' || c == '\U{A0}' || c == '\U{1680}'
    || '\U{2000}' <= c <= '\U{200A}'
    || c == '\U{2028}' || c == '\U{2029}' || c == '\U{202F}' || c == '\U{205F}' || c == '\U{3000}'
  }

  function RStrip(s: string): (t: string)
    ensures |t| <= |s| && t == s[..|t|]
    ensures t != "" ==> !IsSpace(t[|t| - 1])
  {
    if s != "" && IsSpace(s[|s| - 1]) then RStrip(s[..|s| - 1]) else s
  }

  function LStrip(s: string): (t: string)
    ensures |t| <= |s| && t == s[|s| - |t|..]
    ensures t != "" ==> !IsSpace(t[0])
  {
    if s != "" && IsSpace(s[0]) then LStrip(s[1..]) else s
  }

  lemma {:induction false} RStripKeepsFirst(s: string)
    requires s != "" && !IsSpace(s[0])
    ensures RStrip(s) != "" && RStrip(s)[0] == s[0]
  {
    hide IsSpace;
    if IsSpace(s[|s| - 1]) {
      RStripKeepsFirst(s[..|s| - 1]);
    }
  }

  function Strip(s: string): string {
    LStrip(RStrip(s))
  }

  predicate AllSpace(s: string) {
    forall i :: 0 <= i < |s| ==> IsSpace(s[i])
  }

  lemma {:induction false} LStripOf(lead: string, rest: string)
    requires AllSpace(lead) && (rest == "" || !IsSpace(rest[0]))
    ensures LStrip(lead + rest) == rest
  {
    hide IsSpace;
    if lead == "" {
      assert lead + rest == rest;
    } else {
      assert (lead + rest)[1..] == lead[1..] + rest;
      LStripOf(lead[1..], rest);
    }
  }

  lemma {:induction false} RStripOf(rest: string, tail: string)
    requires AllSpace(tail) && (rest == "" || !IsSpace(rest[|rest| - 1]))
    ensures RStrip(rest + tail) == rest
  {
    hide IsSpace;
    var whole := rest + tail;
    if tail == "" {
      assert whole == rest;
    } else {
      assert whole[..|whole| - 1] == rest + tail[..|tail| - 1];
      RStripOf(rest, tail[..|tail| - 1]);
    }
  }

  /** Stripping takes the whitespace at both ends and nothing else. */
  lemma StripIs(lead: string, core: string, tail: string)
    requires AllSpace(lead) && AllSpace(tail) && Tight(core)
    ensures Strip(lead + core + tail) == core
  {
    hide IsSpace, LStrip, RStrip;
    if core == "" {
      assert lead + core + tail == "" + (lead + tail);
      RStripOf("", lead + tail);
      LStripOf("", "");
      assert "" + "" == "";
    } else {
      assert (lead + core)[|lead + core| - 1] == core[|core| - 1];
      RStripOf(lead + core, tail);
      LStripOf(lead, core);
    }
  }

  lemma {:induction false} LStripDrops(s: string)
    ensures forall i :: 0 <= i < |s| - |LStrip(s)| ==> IsSpace(s[i])
  {
    hide IsSpace;
    if s != "" && IsSpace(s[0]) {
      LStripDrops(s[1..]);
      assert forall i :: 0 < i < |s| ==> s[i] == s[1..][i - 1];
    }
  }

  lemma LStripLead(s: string) returns (lead: string)
    ensures s == lead + LStrip(s) && AllSpace(lead)
  {
    hide IsSpace, LStrip;
    LStripDrops(s);
    lead := s[..|s| - |LStrip(s)|];
  }

  lemma NoSpaceIsSpace()
    ensures AllSpace("")
  {
  }

  lemma {:induction false} RStripDrops(s: string)
    ensures forall i :: |RStrip(s)| <= i < |s| ==> IsSpace(s[i])
  {
    hide IsSpace;
    if s != "" && IsSpace(s[|s| - 1]) {
      RStripDrops(s[..|s| - 1]);
      assert forall i :: 0 <= i < |s| - 1 ==> s[i] == s[..|s| - 1][i];
    }
  }

  lemma RStripTail(s: string) returns (tail: string)
    ensures s == RStrip(s) + tail && AllSpace(tail)
  {
    hide IsSpace, RStrip;
    RStripDrops(s);
    tail := s[|RStrip(s)|..];
  }

  /** What is left after stripping, and the whitespace that was around it. */
  lemma StripLeaves(s: string) returns (lead: string, tail: string)
    ensures s == lead + Strip(s) + tail && AllSpace(lead) && AllSpace(tail) && Tight(Strip(s))
  {
    hide IsSpace, AllSpace, LStrip, RStrip;
    tail := RStripTail(s);
    lead := LStripLead(RStrip(s));
    if Strip(s) != "" {
      assert Strip(s)[|Strip(s)| - 1] == RStrip(s)[|RStrip(s)| - 1];
    }
  }

  /** Only whitespace strips to nothing. */
  lemma BlankIff(s: string)
    ensures Strip(s) == "" <==> AllSpace(s)
  {
    hide AllSpace, Strip;
    if Strip(s) == "" {
      BlankIsSpace(s);
    }
    if AllSpace(s) {
      SpaceIsBlank(s);
    }
  }

  lemma SpaceIsBlank(s: string)
    requires AllSpace(s)
    ensures Strip(s) == ""
  {
    hide AllSpace, Strip;
    NoSpaceIsSpace();
    StripIs(s, "", "");
    assert s + "" + "" == s;
  }

  lemma BlankIsSpace(s: string)
    requires Strip(s) == ""
    ensures AllSpace(s)
  {
    hide AllSpace, Strip;
    var lead, tail := StripLeaves(s);
    assert lead + "" + tail == lead + tail;
    AllSpaceOn(lead, tail);
  }

  lemma AllSpaceOn(first: string, second: string)
    requires AllSpace(first) && AllSpace(second)
    ensures AllSpace(first + second)
  {
    hide IsSpace;
  }

  /** Neither begins nor ends with whitespace. */
  predicate Tight(s: string) {
    s == "" || (!IsSpace(s[0]) && !IsSpace(s[|s| - 1]))
  }

  lemma TightIsStripped(s: string)
    requires Tight(s)
    ensures Strip(s) == s
  {
    hide IsSpace;
    if s != "" {
      assert RStrip(s) == s && LStrip(s) == s;
    }
  }

  function Spaces(n: nat): (s: string)
    ensures |s| == n && forall i :: 0 <= i < n ==> s[i] == ' '
  {
    seq(n, _ => ' ')
  }

  // ---------------------------------------------------------------- lines

  /** The characters `str.splitlines` ends a line at. */
  predicate IsBreak(c: char) {
    || '\n' <= c <= '\r'
    || '\U{1C}' <= c <= '\U{1E}'
    || c == '\U{85}' || c == '\U{2028}' || c == '\U{2029}'
  }

  predicate NoBreak(s: string) {
    forall i :: 0 <= i < |s| ==> !IsBreak(s[i])
  }

  function LineEnd(s: string, i: nat): (k: nat)
    requires i <= |s|
    ensures i <= k <= |s|
    ensures forall j :: i <= j < k ==> !IsBreak(s[j])
    ensures k < |s| ==> IsBreak(s[k])
    decreases |s| - i
  {
    if i < |s| && !IsBreak(s[i]) then LineEnd(s, i + 1) else i
  }

  /** `str.splitlines()`: a carriage return and a line feed count as one break, and a final break ends the last
      line rather than starting another. */
  function SplitLines(s: string): seq<string>
    decreases |s|
  {
    if s == "" then []
    else
      var k := LineEnd(s, 0);
      if k == |s| then [s]
      else if s[k] == '\r' && k + 1 < |s| && s[k + 1] == '\n' then [s[..k]] + SplitLines(s[k + 2..])
      else [s[..k]] + SplitLines(s[k + 1..])
  }

  /** Every line followed by a line feed. */
  function Terminated(lines: seq<string>): string {
    if lines == [] then "" else lines[0] + "\n" + Terminated(lines[1..])
  }

  /** Splitting undoes terminating, for lines that hold no break of their own. */
  lemma {:induction false} SplitTerminated(lines: seq<string>)
    requires forall l :: 0 <= l < |lines| ==> NoBreak(lines[l])
    ensures SplitLines(Terminated(lines)) == lines
  {
    if lines != [] {
      var first, rest := lines[0], Terminated(lines[1..]);
      var s := first + "\n" + rest;
      assert s == Terminated(lines);
      assert forall i :: 0 <= i < |first| ==> s[i] == first[i];
      assert s[|first|] == '\n';
      assert LineEnd(s, 0) == |first|;
      assert s[..|first|] == first && s[|first| + 1..] == rest;
      SplitTerminated(lines[1..]);
    }
  }

  /** A line without the carriage return it ends in, if it does. */
  function WithoutReturn(line: string): (l: string)
    ensures |l| <= |line|
  {
    if line != "" && line[|line| - 1] == '\r' then line[..|line| - 1] else line
  }

  function WithoutReturns(lines: seq<string>): (ls: seq<string>)
    ensures |ls| == |lines| && forall i :: 0 <= i < |ls| ==> ls[i] == WithoutReturn(lines[i])
  {
    seq(|lines|, i requires 0 <= i < |lines| => WithoutReturn(lines[i]))
  }

  /** Lines that end in a carriage return are split at it and the line feed together. */
  lemma {:induction false} SplitReturned(lines: seq<string>)
    requires forall l :: 0 <= l < |lines| ==> NoBreak(WithoutReturn(lines[l]))
    ensures SplitLines(Terminated(lines)) == WithoutReturns(lines)
  {
    hide IsBreak, NoBreak, Terminated, SplitLines;
    if lines == [] {
      SplitNothing();
    } else {
      SplitReturned(lines[1..]);
      SplitFirst(lines[0], lines);
      assert WithoutReturns(lines) == [WithoutReturn(lines[0])] + WithoutReturns(lines[1..]);
    }
  }

  lemma SplitNothing()
    ensures SplitLines(Terminated([])) == []
  {
  }

  lemma SplitFirst(first: string, lines: seq<string>)
    requires lines != [] && lines[0] == first && NoBreak(WithoutReturn(first))
    ensures SplitLines(Terminated(lines)) == [WithoutReturn(first)] + SplitLines(Terminated(lines[1..]))
  {
    hide IsBreak, LineEnd;
    var rest, kept := Terminated(lines[1..]), WithoutReturn(first);
    var s := first + "\n" + rest;
    assert forall i :: 0 <= i < |kept| ==> s[i] == kept[i];
    assert IsBreak('\r') && IsBreak('\n') by { ReturnBreaks(); }
    LineEndIs(s, 0, |kept|);
    assert s[..|kept|] == kept && s[|first| + 1..] == rest;
    if kept == first {
      assert s[|kept|] == '\n';
    } else {
      assert s[|kept|] == '\r' && s[|kept| + 1] == '\n';
    }
  }

  lemma ReturnBreaks()
    ensures IsBreak('\r') && IsBreak('\n')
  {
  }

  lemma {:induction false} LineEndIs(s: string, i: nat, k: nat)
    requires i <= k < |s| && IsBreak(s[k]) && forall j :: i <= j < k ==> !IsBreak(s[j])
    ensures LineEnd(s, i) == k
    decreases k - i
  {
    hide IsBreak;
    if i < k {
      LineEndIs(s, i + 1, k);
    }
  }

  /** A line ends at the first break, of whatever kind, and a carriage return takes the line feed after it along. */
  lemma SplitAtBreak(line: string, end: char, rest: string)
    requires NoBreak(line) && IsBreak(end)
    ensures SplitLines(line + [end] + rest)
            == [line] + SplitLines(if end == '\r' && rest != "" && rest[0] == '\n' then rest[1..] else rest)
  {
    hide IsBreak, LineEnd;
    var s, k := line + [end] + rest, |line|;
    assert forall i :: 0 <= i < k ==> s[i] == line[i];
    assert s[k] == end;
    LineEndIs(s, 0, k);
    assert s[..k] == line && s[k + 1..] == rest;
    assert rest != "" ==> s[k + 2..] == rest[1..] && s[k + 1] == rest[0];
  }

  lemma {:induction false} SplitHoldsNoBreak(s: string)
    ensures forall l :: 0 <= l < |SplitLines(s)| ==> NoBreak(SplitLines(s)[l])
    decreases |s|
  {
    if s != "" {
      var k := LineEnd(s, 0);
      if k < |s| {
        SplitHoldsNoBreak(s[k + 1..]);
        if k + 1 < |s| {
          SplitHoldsNoBreak(s[k + 2..]);
        }
      }
    }
  }
}
