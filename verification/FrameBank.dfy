/** The startup animation's frame bank: `assets/startup/pack.py` writes it and `assets/startup/play.py` loads it.

    The theorem is about the text of the file, so it covers the line breaks, the trimming of rows, the dropped blank
    rows, the comments and the header the reader has to get past. */
module FrameBank {
  import opened Text

  type Frame = seq<string>

  predicate Shaped(frame: Frame, rows: nat, cols: nat) {
    |frame| == rows && forall r :: 0 <= r < rows ==> |frame[r]| == cols
  }

  predicate AllShaped(frames: seq<Frame>, rows: nat, cols: nat) {
    forall i :: 0 <= i < |frames| ==> Shaped(frames[i], rows, cols)
  }

  // ---------------------------------------------------------------- writing

  function Stripped(frame: Frame): (t: Frame)
    ensures |t| == |frame| && forall r :: 0 <= r < |t| ==> t[r] == RStrip(frame[r])
  {
    seq(|frame|, r requires 0 <= r < |frame| => RStrip(frame[r]))
  }

  /** Without its trailing blank rows. */
  function Dropped(rows: Frame): (t: Frame)
    ensures |t| <= |rows| && t == rows[..|t|]
    ensures forall r :: |t| <= r < |rows| ==> rows[r] == ""
    ensures t != [] ==> t[|t| - 1] != ""
  {
    if rows != [] && rows[|rows| - 1] == "" then Dropped(rows[..|rows| - 1]) else rows
  }

  function Trimmed(frame: Frame): Frame {
    Dropped(Stripped(frame))
  }

  /** The lines of the frames from the one numbered `i` on. */
  function FrameLines(frames: seq<Frame>, i: nat): seq<string> {
    if frames == [] then []
    else ["@" + Decimal(i)] + Trimmed(frames[0]) + FrameLines(frames[1..], i + 1)
  }

  function MetaTexts(entries: seq<(string, string)>): (lines: seq<string>)
    ensures |lines| == |entries|
  {
    seq(|entries|, i requires 0 <= i < |entries| => "%" + entries[i].0 + " " + entries[i].1)
  }

  function TierTexts(tiers: seq<string>): (lines: seq<string>)
    ensures |lines| == |tiers|
  {
    seq(|tiers|, i requires 0 <= i < |tiers| => "%tier " + tiers[i])
  }

  function GridText(cols: nat, rows: nat): string {
    Decimal(cols) + " " + Decimal(rows)
  }

  function Entries(cols: nat, rows: nat, count: nat, interval: nat): seq<(string, string)> {
    [("GHSTART", "1"), ("grid", GridText(cols, rows)), ("frames", Decimal(count)), ("interval", Decimal(interval)),
     ("loop", "cycle")]
  }

  const TIERS: seq<string> := ["quiet  .:;", "soft   =+*-/|\\", "bright #%@"]

  function Header(cols: nat, rows: nat, count: nat, interval: nat): seq<string> {
    MetaTexts(Entries(cols, rows, count, interval)) + TierTexts(TIERS)
  }

  /** The lines written before the header are comments, whatever they say. */
  predicate IsComments(lines: seq<string>) {
    forall l :: 0 <= l < |lines| ==> NoBreak(lines[l]) && StartsWith(lines[l], "#")
  }

  function BankLines(comments: seq<string>, cols: nat, rows: nat, frames: seq<Frame>, interval: nat): seq<string> {
    comments + Header(cols, rows, |frames|, interval) + FrameLines(frames, 0)
  }

  /** The writer. It refuses frames that are not all of the stated shape. */
  method Pack(comments: seq<string>, cols: nat, rows: nat, frames: seq<Frame>, interval: nat)
    returns (text: Result<string>)
    ensures text.Error? <==> !AllShaped(frames, rows, cols)
    ensures text.Ok? ==> text.value == Terminated(BankLines(comments, cols, rows, frames, interval))
  {
    hide Header, Decimal, Stripped, Dropped, Terminated, AllShaped;
    var shaped := CheckShapes(frames, rows, cols);
    if !shaped {
      return Error;
    }
    var out := comments + Header(cols, rows, |frames|, interval);
    for i := 0 to |frames|
      invariant out + FrameLines(frames[i..], i) == BankLines(comments, cols, rows, frames, interval)
    {
      var trimmed := DropBlankRows(Stripped(frames[i]));
      assert frames[i..][0] == frames[i] && frames[i..][1..] == frames[i + 1..];
      out := out + ["@" + Decimal(i)] + trimmed;
    }
    assert frames[|frames|..] == [] && out + [] == out;
    return Ok(Terminated(out));
  }

  method CheckShapes(frames: seq<Frame>, rows: nat, cols: nat) returns (shaped: bool)
    ensures shaped == AllShaped(frames, rows, cols)
  {
    for i := 0 to |frames|
      invariant forall k :: 0 <= k < i ==> Shaped(frames[k], rows, cols)
    {
      if |frames[i]| != rows || exists r | 0 <= r < |frames[i]| :: |frames[i][r]| != cols {
        return false;
      }
    }
    return true;
  }

  method DropBlankRows(rows: Frame) returns (trimmed: Frame)
    ensures trimmed == Dropped(rows)
  {
    trimmed := rows;
    while trimmed != [] && trimmed[|trimmed| - 1] == ""
      invariant Dropped(trimmed) == Dropped(rows)
    {
      trimmed := trimmed[..|trimmed| - 1];
    }
  }

  /** Each frame stands under its own mark, numbered from zero. */
  lemma {:induction false} FrameStands(frames: seq<Frame>, i: nat, k: nat) returns (p: nat)
    requires k < |frames|
    ensures
      var lines, rows := FrameLines(frames, i), Trimmed(frames[k]);
      p + 1 + |rows| <= |lines| && lines[p] == "@" + Decimal(i + k) && lines[p + 1..p + 1 + |rows|] == rows
    decreases |frames|
  {
    hide Trimmed, Decimal;
    var lines, first := FrameLines(frames, i), ["@" + Decimal(i)] + Trimmed(frames[0]);
    var rest := FrameLines(frames[1..], i + 1);
    assert lines == first + rest;
    if k == 0 {
      p := 0;
    } else {
      var q := FrameStands(frames[1..], i + 1, k - 1);
      p := |first| + q;
      var rows := Trimmed(frames[k]);
      assert frames[1..][k - 1] == frames[k];
      assert lines[p + 1..p + 1 + |rows|] == rest[q + 1..q + 1 + |rows|];
    }
  }

  // ---------------------------------------------------------------- reading

  datatype Bank = Bank(meta: map<string, string>, tiers: map<string, string>, frames: seq<Frame>)

  function SpaceAt(s: string): (k: nat)
    ensures k <= |s|
    ensures forall i :: 0 <= i < k ==> s[i] != ' '
    ensures k < |s| ==> s[k] == ' '
  {
    if s == "" || s[0] == ' ' then 0 else 1 + SpaceAt(s[1..])
  }

  /** `str.partition(" ")`, without the separator. */
  function Partitioned(s: string): (string, string) {
    var k := SpaceAt(s);
    (s[..k], if k < |s| then s[k + 1..] else "")
  }

  function LoadLine(b: Bank, line: string): Bank {
    if b.frames == [] && (StartsWith(line, "#") || line == "") then b
    else if StartsWith(line, "%") then
      var (key, rest) := Partitioned(line[1..]);
      if key == "tier" then
        var (name, glyphs) := Partitioned(Strip(rest));
        b.(tiers := b.tiers[name := Strip(glyphs)])
      else
        b.(meta := b.meta[key := Strip(rest)])
    else if StartsWith(line, "@") then b.(frames := b.frames + [[]])
    else if b.frames != [] then
      var n := |b.frames| - 1;
      b.(frames := b.frames[n := b.frames[n] + [line]])
    else b
  }

  function LoadLines(b: Bank, lines: seq<string>): Bank
    decreases |lines|
  {
    if lines == [] then b else LoadLines(LoadLine(b, lines[0]), lines[1..])
  }

  /** `row.ljust(cols)[:cols]`. */
  function Padded(row: string, cols: nat): (p: string)
    ensures |p| == cols
  {
    (row + Spaces(if |row| < cols then cols - |row| else 0))[..cols]
  }

  lemma PaddedIs(row: string, cols: nat)
    ensures forall i :: 0 <= i < cols ==> Padded(row, cols)[i] == if i < |row| then row[i] else ' '
  {
  }

  function PaddedRow(frame: Frame, r: nat, cols: nat): (p: string)
    ensures |p| == cols
  {
    Padded(if r < |frame| then frame[r] else "", cols)
  }

  function PaddedFrame(frame: Frame, rows: nat, cols: nat): (p: Frame)
    ensures |p| == rows && forall r :: 0 <= r < rows ==> p[r] == PaddedRow(frame, r, cols)
    ensures Shaped(p, rows, cols)
  {
    seq(rows, r requires 0 <= r < rows => PaddedRow(frame, r, cols))
  }

  function PaddedFrames(frames: seq<Frame>, rows: nat, cols: nat): (p: seq<Frame>)
    ensures |p| == |frames|
    ensures forall i :: 0 <= i < |p| ==> p[i] == PaddedFrame(frames[i], rows, cols)
  {
    seq(|frames|, i requires 0 <= i < |frames| => PaddedFrame(frames[i], rows, cols))
  }

  /** `int(...)` of a string of decimal digits. */
  function ParseNat(s: string): Option<nat> {
    if s != "" && AllDigits(s) then Some(DigitsValue(s)) else None
  }

  function WordEnd(s: string): (k: nat)
    ensures k <= |s|
    ensures s != "" && !IsSpace(s[0]) ==> k > 0
  {
    if s == "" || IsSpace(s[0]) then 0 else 1 + WordEnd(s[1..])
  }

  /** `str.split()`: the runs of characters between whitespace. */
  function Words(s: string): seq<string>
    decreases |s|
  {
    var t := LStrip(s);
    if t == "" then [] else [t[..WordEnd(t)]] + Words(t[WordEnd(t)..])
  }

  /** The two numbers of the `grid` entry. */
  function ParseGrid(s: string): Option<(nat, nat)> {
    var words := Words(s);
    if |words| != 2 then None
    else
      match (ParseNat(words[0]), ParseNat(words[1]))
      case (Some(cols), Some(rows)) => Some((cols, rows))
      case _ => None
  }

  /** What `load` returns, as far as a player uses it. */
  datatype Animation = Animation(cols: nat, rows: nat, frames: seq<Frame>, meta: map<string, string>)

  function Finished(b: Bank): Result<Animation> {
    if "grid" !in b.meta then Error
    else
      match ParseGrid(b.meta["grid"])
      case None => Error
      case Some((cols, rows)) => Ok(Animation(cols, rows, PaddedFrames(b.frames, rows, cols), b.meta))
  }

  const NOTHING: Bank := Bank(map[], map[], [])

  /** The reader. */
  method Load(text: string) returns (animation: Result<Animation>)
    ensures animation == Finished(LoadLines(NOTHING, SplitLines(text)))
  {
    var lines := SplitLines(text);
    var meta: map<string, string>, tiers: map<string, string>, frames: seq<Frame> := map[], map[], [];
    for i := 0 to |lines|
      invariant LoadLines(Bank(meta, tiers, frames), lines[i..]) == LoadLines(NOTHING, lines)
    {
      var line := lines[i];
      assert lines[i..][0] == line && lines[i..][1..] == lines[i + 1..];
      if frames == [] && (StartsWith(line, "#") || line == "") {
        continue;
      }
      if StartsWith(line, "%") {
        var (key, rest) := Partitioned(line[1..]);
        if key == "tier" {
          var (name, glyphs) := Partitioned(Strip(rest));
          tiers := tiers[name := Strip(glyphs)];
        } else {
          meta := meta[key := Strip(rest)];
        }
        continue;
      }
      if StartsWith(line, "@") {
        frames := frames + [[]];
        continue;
      }
      if frames != [] {
        frames := frames[|frames| - 1 := frames[|frames| - 1] + [line]];
      }
    }
    animation := Finished(Bank(meta, tiers, frames));
  }

  // ---------------------------------------------------------------- the round trip

  /** A row that survives: no line break, no marker in front, and only spaces trailing. */
  predicate CleanRow(row: string) {
    && NoBreak(row)
    && !StartsWith(row, "%") && !StartsWith(row, "@")
    && forall i :: |RStrip(row)| <= i < |row| ==> row[i] == ' '
  }

  predicate PlainRow(row: string) {
    NoBreak(row) && !StartsWith(row, "%") && !StartsWith(row, "@")
  }

  predicate AllPlain(frame: Frame) {
    forall r :: 0 <= r < |frame| ==> PlainRow(frame[r])
  }

  lemma {:induction false} LoadConcat(b: Bank, xs: seq<string>, ys: seq<string>)
    ensures LoadLines(b, xs + ys) == LoadLines(LoadLines(b, xs), ys)
    decreases |xs|
  {
    hide LoadLine;
    if xs == [] {
      assert xs + ys == ys;
    } else {
      assert (xs + ys)[1..] == xs[1..] + ys;
      LoadConcat(LoadLine(b, xs[0]), xs[1..], ys);
    }
  }

  lemma {:induction false} CommentsAreSkipped(comments: seq<string>)
    requires IsComments(comments)
    ensures LoadLines(NOTHING, comments) == NOTHING
  {
    if comments != [] {
      CommentsAreSkipped(comments[1..]);
    }
  }

  lemma PartitionedAt(key: string, rest: string)
    requires ' ' !in key
    ensures Partitioned(key + " " + rest) == (key, rest)
  {
    var s := key + " " + rest;
    assert forall i :: 0 <= i < |key| ==> s[i] == key[i] && key[i] in key;
    assert s[|key|] == ' ';
    assert SpaceAt(s) == |key|;
    assert s[..|key|] == key && s[|key| + 1..] == rest;
  }

  lemma MetaLine(b: Bank, key: string, rest: string)
    requires ' ' !in key && key != "tier" && Tight(rest)
    ensures LoadLine(b, "%" + key + " " + rest) == b.(meta := b.meta[key := rest])
  {
    hide Strip, Partitioned;
    var line := "%" + key + " " + rest;
    assert line[1..] == key + " " + rest;
    assert line[..1] == "%" && line[0] != '#';
    PartitionedAt(key, rest);
    TightIsStripped(rest);
  }

  /** The line of a tier is a name and its glyphs, however far apart. */
  lemma TierLine(b: Bank, name: string, gap: string, glyphs: string)
    requires IsWord(name) && AllSpace(gap) && glyphs != "" && Tight(glyphs)
    ensures LoadLine(b, "%tier " + (name + " " + (gap + glyphs))) == b.(tiers := b.tiers[name := glyphs])
  {
    hide Strip, Partitioned, IsSpace;
    var rest := name + " " + (gap + glyphs);
    var line := "%tier " + rest;
    assert line[1..] == "tier" + " " + rest;
    assert line[..1] == "%" && line[0] != '#';
    PartitionedAt("tier", rest);
    assert rest[0] == name[0] && rest[|rest| - 1] == glyphs[|glyphs| - 1];
    TightIsStripped(rest);
    BlankIsSpace();
    PartitionedAt(name, gap + glyphs);
    StripsLeading(gap, glyphs);
  }

  lemma StripsLeading(gap: string, text: string)
    requires AllSpace(gap) && text != "" && Tight(text)
    ensures Strip(gap + text) == text
  {
    hide IsSpace, LStrip;
    assert (gap + text)[|gap + text| - 1] == text[|text| - 1];
    assert RStrip(gap + text) == gap + text;
    LStripOf(gap, text);
  }

  lemma BlankIsSpace()
    ensures IsSpace(' ')
  {
  }

  /** The entries in `meta` after those lines; a later entry for a key wins. */
  function Recorded(meta: map<string, string>, entries: seq<(string, string)>): map<string, string>
    decreases |entries|
  {
    if entries == [] then meta else Recorded(meta[entries[0].0 := entries[0].1], entries[1..])
  }

  predicate AreMeta(entries: seq<(string, string)>) {
    forall i :: 0 <= i < |entries| ==> ' ' !in entries[i].0 && entries[i].0 != "tier" && Tight(entries[i].1)
  }

  lemma {:induction false} MetaTextsAreRead(b: Bank, entries: seq<(string, string)>)
    requires AreMeta(entries)
    ensures LoadLines(b, MetaTexts(entries)) == b.(meta := Recorded(b.meta, entries))
    decreases |entries|
  {
    hide LoadLine, Tight;
    if entries != [] {
      assert MetaTexts(entries)[1..] == MetaTexts(entries[1..]);
      MetaLine(b, entries[0].0, entries[0].1);
      MetaTextsAreRead(LoadLine(b, MetaTexts(entries)[0]), entries[1..]);
    }
  }

  lemma TiersAreRead(b: Bank)
    ensures LoadLines(b, TierTexts(TIERS))
            == b.(tiers := b.tiers["quiet" := ".:;"]["soft" := "=+*-/|\\"]["bright" := "#%@"])
  {
    hide LoadLine, LoadLines;
    var lines := TierTexts(TIERS);
    TierSpellings();
    var quiet := b.(tiers := b.tiers["quiet" := ".:;"]);
    var soft := quiet.(tiers := quiet.tiers["soft" := "=+*-/|\\"]);
    TierLine(b, "quiet", " ", ".:;");
    TierLine(quiet, "soft", "  ", "=+*-/|\\");
    TierLine(soft, "bright", "", "#%@");
    LoadFirst(b, lines[0], [lines[1], lines[2]]);
    LoadFirst(quiet, lines[1], [lines[2]]);
    LoadFirst(soft, lines[2], []);
    assert lines == [lines[0]] + [lines[1], lines[2]];
    assert [lines[1], lines[2]] == [lines[1]] + [lines[2]] && [lines[2]] == [lines[2]] + [];
    LoadNone(soft.(tiers := soft.tiers["bright" := "#%@"]));
  }

  lemma LoadNone(b: Bank)
    ensures LoadLines(b, []) == b
  {
  }

  lemma TierSpellings()
    ensures var lines := TierTexts(TIERS);
            && |lines| == 3
            && lines[0] == "%tier " + ("quiet" + " " + (" " + ".:;"))
            && lines[1] == "%tier " + ("soft" + " " + ("  " + "=+*-/|\\"))
            && lines[2] == "%tier " + ("bright" + " " + ("" + "#%@"))
    ensures IsWord("quiet") && IsWord("soft") && IsWord("bright")
    ensures AllSpace(" ") && AllSpace("  ") && AllSpace("")
    ensures Tight(".:;") && Tight("=+*-/|\\") && Tight("#%@")
  {
  }

  lemma EntryTexts(cols: nat, rows: nat, count: nat, interval: nat)
    ensures
      var meta := MetaTexts(Entries(cols, rows, count, interval));
      && |meta| == 5 && meta[0] == "%GHSTART 1" && meta[4] == "%loop cycle"
      && meta[1] == "%grid " + (Decimal(cols) + " " + Decimal(rows))
      && meta[2] == "%frames " + Decimal(count) && meta[3] == "%interval " + Decimal(interval)
  {
    hide Decimal;
    var meta := MetaTexts(Entries(cols, rows, count, interval));
    assert "%" + "GHSTART" + " " + "1" == "%GHSTART 1" && "%" + "loop" + " " + "cycle" == "%loop cycle";
    assert "%" + "grid" + " " == "%grid ";
    assert "%" + "frames" + " " == "%frames ";
    assert "%" + "interval" + " " == "%interval ";
  }

  /** The header as it stands in the file. */
  lemma HeaderIs(cols: nat, rows: nat, count: nat, interval: nat)
    ensures Header(cols, rows, count, interval)
            == ["%GHSTART 1", "%grid " + (Decimal(cols) + " " + Decimal(rows)), "%frames " + Decimal(count),
                "%interval " + Decimal(interval), "%loop cycle",
                "%tier quiet  .:;", "%tier soft   =+*-/|\\", "%tier bright #%@"]
  {
    hide Decimal, Entries, MetaTexts, TierTexts;
    EntryTexts(cols, rows, count, interval);
    TierTextsHoldNoBreak();
  }

  /** Reading it gives every entry and every tier back, and no frame. */
  lemma HeaderIsRead(cols: nat, rows: nat, count: nat, interval: nat)
    ensures
      LoadLines(NOTHING, Header(cols, rows, count, interval))
      == Bank(map["GHSTART" := "1", "grid" := Decimal(cols) + " " + Decimal(rows), "frames" := Decimal(count),
                  "interval" := Decimal(interval), "loop" := "cycle"],
              map["quiet" := ".:;", "soft" := "=+*-/|\\", "bright" := "#%@"],
              [])
  {
    hide LoadLine, LoadLines, Decimal, Recorded, Tight;
    var e := Entries(cols, rows, count, interval);
    EntriesAreMeta(cols, rows, count, interval);
    MetaTextsAreRead(NOTHING, e);
    LoadConcat(NOTHING, MetaTexts(e), TierTexts(TIERS));
    TiersAreRead(LoadLines(NOTHING, MetaTexts(e)));
    EntriesAreRecorded(cols, rows, count, interval);
  }

  lemma EntriesAreMeta(cols: nat, rows: nat, count: nat, interval: nat)
    ensures AreMeta(Entries(cols, rows, count, interval))
  {
    hide Decimal;
  }

  lemma EntriesAreRecorded(cols: nat, rows: nat, count: nat, interval: nat)
    ensures
      Recorded(map[], Entries(cols, rows, count, interval))
      == map["GHSTART" := "1", "grid" := Decimal(cols) + " " + Decimal(rows), "frames" := Decimal(count),
             "interval" := Decimal(interval), "loop" := "cycle"]
  {
    hide Decimal, Recorded;
    var e := Entries(cols, rows, count, interval);
    var m0 := map["GHSTART" := "1"];
    var m1 := m0["grid" := GridText(cols, rows)];
    var m2 := m1["frames" := Decimal(count)];
    var m3 := m2["interval" := Decimal(interval)];
    RecordsOne(map[], e);
    RecordsOne(m0, e[1..]);
    RecordsOne(m1, e[2..]);
    RecordsOne(m2, e[3..]);
    RecordsOne(m3, e[4..]);
    assert e[1..][1..] == e[2..] && e[2..][1..] == e[3..] && e[3..][1..] == e[4..] && e[4..][1..] == [];
    RecordsNothing(m3["loop" := "cycle"]);
  }

  lemma RecordsOne(meta: map<string, string>, entries: seq<(string, string)>)
    requires entries != []
    ensures Recorded(meta, entries) == Recorded(meta[entries[0].0 := entries[0].1], entries[1..])
  {
  }

  lemma RecordsNothing(meta: map<string, string>)
    ensures Recorded(meta, []) == meta
  {
  }

  // Rows.

  function TrimmedAll(frames: seq<Frame>): (t: seq<Frame>)
    ensures |t| == |frames| && forall i :: 0 <= i < |t| ==> t[i] == Trimmed(frames[i])
  {
    seq(|frames|, i requires 0 <= i < |frames| => Trimmed(frames[i]))
  }

  lemma {:induction false} RowsAreRead(b: Bank, rows: seq<string>)
    requires b.frames != [] && AllPlain(rows)
    ensures
      var n := |b.frames| - 1;
      LoadLines(b, rows) == b.(frames := b.frames[n := b.frames[n] + rows])
    decreases |rows|
  {
    var n := |b.frames| - 1;
    if rows == [] {
      assert b.frames[n] + rows == b.frames[n];
    } else {
      var next := LoadLine(b, rows[0]);
      assert next == b.(frames := b.frames[n := b.frames[n] + [rows[0]]]);
      RowsAreRead(next, rows[1..]);
      assert b.frames[n] + [rows[0]] + rows[1..] == b.frames[n] + rows;
    }
  }

  lemma MarkerIsRead(b: Bank, i: nat)
    ensures LoadLine(b, "@" + Decimal(i)) == b.(frames := b.frames + [[]])
  {
    var line := "@" + Decimal(i);
    assert line[..1] == "@" && line[0] == '@';
  }

  lemma TrimmedIsPlain(frame: Frame)
    requires AllPlain(frame)
    ensures AllPlain(Trimmed(frame))
  {
    forall r | 0 <= r < |Trimmed(frame)|
      ensures PlainRow(Trimmed(frame)[r])
    {
      var row, kept := frame[r], RStrip(frame[r]);
      assert Trimmed(frame)[r] == kept;
      assert |kept| >= 1 ==> kept[..1] == row[..1];
    }
  }

  lemma FrameIsRead(b: Bank, i: nat, rows: seq<string>, rest: seq<string>)
    requires AllPlain(rows)
    ensures LoadLines(b, ["@" + Decimal(i)] + rows + rest) == LoadLines(b.(frames := b.frames + [rows]), rest)
  {
    hide LoadLine, LoadLines, Decimal, AllPlain;
    var mark := "@" + Decimal(i);
    var marked := b.(frames := b.frames + [[]]);
    MarkerIsRead(b, i);
    LoadFirst(b, mark, rows + rest);
    assert [mark] + rows + rest == [mark] + (rows + rest);
    LoadConcat(marked, rows, rest);
    RowsOfANewFrame(b, rows);
  }

  lemma LoadFirst(b: Bank, line: string, rest: seq<string>)
    ensures LoadLines(b, [line] + rest) == LoadLines(LoadLine(b, line), rest)
  {
    hide LoadLine;
    assert ([line] + rest)[1..] == rest;
  }

  lemma RowsOfANewFrame(b: Bank, rows: seq<string>)
    requires AllPlain(rows)
    ensures LoadLines(b.(frames := b.frames + [[]]), rows) == b.(frames := b.frames + [rows])
  {
    hide LoadLine, LoadLines, AllPlain;
    var marked := b.(frames := b.frames + [[]]);
    RowsAreRead(marked, rows);
    assert marked.frames[|b.frames|] + rows == rows;
    assert marked.frames[|b.frames| := rows] == b.frames + [rows];
  }

  lemma {:induction false} FramesAreRead(b: Bank, frames: seq<Frame>, i: nat)
    requires forall k :: 0 <= k < |frames| ==> AllPlain(frames[k])
    ensures LoadLines(b, FrameLines(frames, i)) == b.(frames := b.frames + TrimmedAll(frames))
    decreases |frames|
  {
    hide LoadLine, Decimal, AllPlain, Trimmed;
    if frames == [] {
      assert b.frames + TrimmedAll(frames) == b.frames;
    } else {
      var rows := Trimmed(frames[0]);
      TrimmedIsPlain(frames[0]);
      FrameIsRead(b, i, rows, FrameLines(frames[1..], i + 1));
      FramesAreRead(b.(frames := b.frames + [rows]), frames[1..], i + 1);
      assert b.frames + [rows] + TrimmedAll(frames[1..]) == b.frames + TrimmedAll(frames);
    }
  }

  /** A row comes back from trimming and padding if and only if it trails nothing but spaces. */
  lemma RowSurvivesIff(row: string)
    ensures Padded(RStrip(row), |row|) == row <==> forall i :: |RStrip(row)| <= i < |row| ==> row[i] == ' '
  {
    var kept := RStrip(row);
    var p := Padded(kept, |row|);
    assert forall i :: 0 <= i < |kept| ==> p[i] == kept[i] == row[i];
    assert forall i :: |kept| <= i < |row| ==> p[i] == ' ';
  }

  lemma FrameSurvivesIff(frame: Frame, rows: nat, cols: nat)
    requires Shaped(frame, rows, cols) && AllPlain(frame)
    ensures PaddedFrame(Trimmed(frame), rows, cols) == frame <==> forall r :: 0 <= r < rows ==> CleanRow(frame[r])
  {
    hide RStrip, Padded, PlainRow;
    var p := PaddedFrame(Trimmed(frame), rows, cols);
    forall r | 0 <= r < rows
      ensures p[r] == frame[r] <==> CleanRow(frame[r])
    {
      assert p[r] == Padded(RStrip(frame[r]), cols);
      RowSurvivesIff(frame[r]);
      CleanIsPlain(frame[r]);
    }
  }

  lemma CleanIsPlain(row: string)
    ensures CleanRow(row) <==> PlainRow(row) && forall i :: |RStrip(row)| <= i < |row| ==> row[i] == ' '
  {
  }

  /** Whatever the text, a loaded row is plain: the reader cannot produce any other. */
  lemma {:induction false} LoadedRowsArePlain(b: Bank, lines: seq<string>)
    requires forall l :: 0 <= l < |lines| ==> NoBreak(lines[l])
    requires forall k :: 0 <= k < |b.frames| ==> AllPlain(b.frames[k])
    ensures forall k :: 0 <= k < |LoadLines(b, lines).frames| ==> AllPlain(LoadLines(b, lines).frames[k])
    decreases |lines|
  {
    hide NoBreak, StartsWith, Partitioned, Strip;
    if lines != [] {
      var next := LoadLine(b, lines[0]);
      assert forall k :: 0 <= k < |next.frames| ==> AllPlain(next.frames[k]);
      LoadedRowsArePlain(next, lines[1..]);
    }
  }

  lemma PaddedIsPlain(row: string, cols: nat)
    requires PlainRow(row)
    ensures PlainRow(Padded(row, cols))
  {
    var p := Padded(row, cols);
    assert forall i :: 0 <= i < cols ==> p[i] == if i < |row| then row[i] else ' ';
    assert cols >= 1 ==> p[..1] == [p[0]];
    assert |row| >= 1 ==> row[..1] == [row[0]];
  }

  // The file.

  lemma DigitsAreTight(s: string)
    requires s != "" && AllDigits(s)
    ensures Tight(s) && ' ' !in s && NoBreak(s)
  {
  }

  lemma {:induction false} WordEndOf(word: string, rest: string)
    requires forall i :: 0 <= i < |word| ==> !IsSpace(word[i])
    requires rest == "" || IsSpace(rest[0])
    ensures WordEnd(word + rest) == |word|
  {
    hide IsSpace;
    if word == "" {
      assert word + rest == rest;
    } else {
      assert (word + rest)[1..] == word[1..] + rest;
      WordEndOf(word[1..], rest);
    }
  }

  predicate IsWord(word: string) {
    word != "" && forall i :: 0 <= i < |word| ==> !IsSpace(word[i])
  }

  /** A word, up to whitespace or the end, is the first of the words. */
  lemma FirstWord(word: string, rest: string)
    requires IsWord(word) && (rest == "" || IsSpace(rest[0]))
    ensures Words(word + rest) == [word] + Words(rest)
  {
    hide IsSpace;
    var s := word + rest;
    assert s[0] == word[0];
    assert LStrip(s) == s;
    WordEndOf(word, rest);
    assert s[..|word|] == word && s[|word|..] == rest;
  }

  /** Words do not depend on the whitespace before them. */
  lemma SameWords(s: string, t: string)
    requires LStrip(s) == LStrip(t)
    ensures Words(s) == Words(t)
  {
    hide IsSpace, LStrip, WordEnd;
  }

  lemma WordsAfterSpace(lead: string, rest: string)
    requires AllSpace(lead) && (rest == "" || !IsSpace(rest[0]))
    ensures Words(lead + rest) == Words(rest)
  {
    hide IsSpace, LStrip, Words;
    LStripOf(lead, rest);
    LStripOf("", rest);
    assert "" + rest == rest;
    SameWords(lead + rest, rest);
  }

  lemma NoWords()
    ensures Words("") == []
  {
  }

  lemma TwoWords(a: string, b: string)
    requires IsWord(a) && IsWord(b)
    ensures Words(a + " " + b) == [a, b]
  {
    hide Words;
    BlankIsSpace();
    assert a + " " + b == a + (" " + b);
    FirstWord(a, " " + b);
    WordsAfterSpace(" ", b);
    FirstWord(b, "");
    assert b + "" == b;
    NoWords();
  }

  lemma {:induction false} WordEndIs(s: string)
    ensures forall i :: 0 <= i < WordEnd(s) ==> !IsSpace(s[i])
    ensures WordEnd(s) < |s| ==> IsSpace(s[WordEnd(s)])
  {
    hide IsSpace;
    if s != "" && !IsSpace(s[0]) {
      WordEndIs(s[1..]);
    }
  }

  lemma WordSplit(t: string) returns (word: string, rest: string)
    requires t != "" && !IsSpace(t[0])
    ensures t == word + rest && IsWord(word) && (rest == "" || IsSpace(rest[0]))
    ensures |word| == WordEnd(t)
  {
    hide IsSpace, WordEnd;
    WordEndIs(t);
    word, rest := t[..WordEnd(t)], t[WordEnd(t)..];
  }

  lemma WordsOnce(s: string, word: string, rest: string)
    requires LStrip(s) == word + rest && word != "" && |word| == WordEnd(word + rest)
    ensures Words(s) == [word] + Words(rest)
  {
    hide LStrip, WordEnd;
    assert (word + rest)[..|word|] == word && (word + rest)[|word|..] == rest;
  }

  lemma NothingLeft(s: string)
    ensures Words(s) == [] <==> LStrip(s) == ""
  {
    hide IsSpace, LStrip, WordEnd;
  }

  /** Where the first word of a text stands. */
  lemma FirstWordIs(s: string) returns (lead: string, word: string, rest: string)
    requires LStrip(s) != ""
    ensures s == lead + word + rest && AllSpace(lead) && IsWord(word) && (rest == "" || IsSpace(rest[0]))
    ensures Words(s) == [word] + Words(rest)
  {
    hide IsSpace, AllSpace, LStrip, WordEnd, Words;
    lead := LStripLead(s);
    word, rest := WordSplit(LStrip(s));
    WordsOnce(s, word, rest);
    assert lead + (word + rest) == lead + word + rest;
  }

  lemma NoWordIs(s: string)
    requires Words(s) == []
    ensures AllSpace(s)
  {
    hide IsSpace, AllSpace, LStrip, WordEnd, Words;
    NothingLeft(s);
    var lead := LStripLead(s);
    assert lead + "" == lead;
  }

  /** Two numbers in digits, with whitespace between them, and around them if need be. */
  ghost predicate GridSpelled(s: string, cols: nat, rows: nat) {
    exists lead, a, gap, b, tail :: GridSpelledBy(s, cols, rows, lead, a, gap, b, tail)
  }

  predicate GridSpelledBy(
      s: string, cols: nat, rows: nat, lead: string, a: string, gap: string, b: string, tail: string) {
    && s == lead + (a + (gap + (b + tail)))
    && AllSpace(lead) && AllSpace(gap) && AllSpace(tail) && gap != ""
    && Spells(a, cols) && Spells(b, rows)
  }

  predicate Spells(digits: string, n: nat) {
    digits != "" && AllDigits(digits) && DigitsValue(digits) == n
  }

  lemma DigitsAreAWord(digits: string)
    requires digits != "" && AllDigits(digits)
    ensures IsWord(digits)
  {
  }

  lemma SpelledIsParsed(
      s: string, cols: nat, rows: nat, lead: string, a: string, gap: string, b: string, tail: string)
    requires GridSpelledBy(s, cols, rows, lead, a, gap, b, tail)
    ensures ParseGrid(s) == Some((cols, rows))
  {
    hide IsSpace, Words, DigitsValue, AllDigits;
    DigitsAreAWord(a);
    DigitsAreAWord(b);
    WordsAfterSpace(lead, a + (gap + (b + tail)));
    FirstWord(a, gap + (b + tail));
    WordsAfterSpace(gap, b + tail);
    FirstWord(b, tail);
    WordsAfterSpace(tail, "");
    assert tail + "" == tail;
    NoWords();
  }

  /** The grid entry is read exactly when it is spelled like that, as those numbers. */
  lemma GridIff(s: string, cols: nat, rows: nat)
    ensures ParseGrid(s) == Some((cols, rows)) <==> GridSpelled(s, cols, rows)
  {
    hide IsSpace, LStrip, Words, DigitsValue, AllDigits, AllSpace;
    if ParseGrid(s) == Some((cols, rows)) {
      NothingLeft(s);
      var lead, a, more := FirstWordIs(s);
      assert Words(s)[1..] == Words(more);
      NothingLeft(more);
      var gap, b, tail := FirstWordIs(more);
      assert Words(more)[1..] == Words(tail);
      NoWordIs(tail);
      assert gap != "" by { GapIsThere(more, gap, b, tail); }
      assert s == lead + (a + (gap + (b + tail)));
      assert GridSpelledBy(s, cols, rows, lead, a, gap, b, tail);
    }
    if GridSpelled(s, cols, rows) {
      var lead, a, gap, b, tail :| GridSpelledBy(s, cols, rows, lead, a, gap, b, tail);
      SpelledIsParsed(s, cols, rows, lead, a, gap, b, tail);
    }
  }

  lemma FirstIs(b: string, tail: string)
    requires b != ""
    ensures (b + tail)[0] == b[0]
  {
  }

  lemma GapIsThere(more: string, gap: string, b: string, tail: string)
    requires more == gap + b + tail && IsWord(b) && (more == "" || IsSpace(more[0]))
    ensures gap != ""
  {
    hide IsSpace;
    FirstIs(b, tail);
    assert gap == "" ==> gap + b + tail == b + tail;
  }

  lemma DecimalIsAWord(n: nat)
    ensures IsWord(Decimal(n))
  {
    hide Decimal;
  }

  lemma GridIsParsed(cols: nat, rows: nat)
    ensures ParseGrid(GridText(cols, rows)) == Some((cols, rows))
  {
    hide Decimal, Words, DigitsValue;
    DecimalIsAWord(cols);
    DecimalIsAWord(rows);
    TwoWords(Decimal(cols), Decimal(rows));
    DecimalValue(cols);
    DecimalValue(rows);
  }

  lemma {:induction false} FrameLinesHoldNoBreak(frames: seq<Frame>, i: nat)
    requires forall k :: 0 <= k < |frames| ==> AllPlain(frames[k])
    ensures forall l :: 0 <= l < |FrameLines(frames, i)| ==> NoBreak(FrameLines(frames, i)[l])
    decreases |frames|
  {
    hide AllPlain, Trimmed;
    if frames != [] {
      TrimmedIsPlain(frames[0]);
      PlainHoldsNoBreak(Trimmed(frames[0]));
      assert NoBreak("@" + Decimal(i));
      FrameLinesHoldNoBreak(frames[1..], i + 1);
    }
  }

  lemma PlainHoldsNoBreak(rows: Frame)
    requires AllPlain(rows)
    ensures forall r :: 0 <= r < |rows| ==> NoBreak(rows[r])
  {
  }

  lemma MetaTextsHoldNoBreak(entries: seq<(string, string)>)
    requires forall i :: 0 <= i < |entries| ==> NoBreak(entries[i].0) && NoBreak(entries[i].1)
    ensures forall l :: 0 <= l < |entries| ==> NoBreak(MetaTexts(entries)[l])
  {
    forall l | 0 <= l < |entries|
      ensures NoBreak(MetaTexts(entries)[l])
    {
      var line := MetaTexts(entries)[l];
      assert line == ("%" + entries[l].0) + (" " + entries[l].1);
    }
  }

  lemma TierTextsHoldNoBreak()
    ensures TierTexts(TIERS) == ["%tier quiet  .:;", "%tier soft   =+*-/|\\", "%tier bright #%@"]
    ensures forall l :: 0 <= l < 3 ==> NoBreak(TierTexts(TIERS)[l])
  {
    hide NoBreak;
    var t := TierTexts(TIERS);
    assert t[0] == "%tier quiet  .:;" && t[1] == "%tier soft   =+*-/|\\" && t[2] == "%tier bright #%@";
    PrintableHoldsNoBreak(t[0]);
    PrintableHoldsNoBreak(t[1]);
    PrintableHoldsNoBreak(t[2]);
  }

  lemma PrintableHoldsNoBreak(s: string)
    requires forall i :: 0 <= i < |s| ==> ' ' <= s[i] <= '~'
    ensures NoBreak(s)
  {
  }

  lemma HeaderHoldsNoBreak(cols: nat, rows: nat, count: nat, interval: nat)
    ensures |Header(cols, rows, count, interval)| == 8
    ensures forall l :: 0 <= l < 8 ==> NoBreak(Header(cols, rows, count, interval)[l])
  {
    hide MetaTexts, TierTexts, Decimal;
    DigitsAreTight(Decimal(cols));
    DigitsAreTight(Decimal(rows));
    DigitsAreTight(Decimal(count));
    DigitsAreTight(Decimal(interval));
    assert NoBreak(GridText(cols, rows));
    assert NoBreak("GHSTART") && NoBreak("1") && NoBreak("grid") && NoBreak("frames") && NoBreak("interval");
    assert NoBreak("loop") && NoBreak("cycle");
    MetaTextsHoldNoBreak(Entries(cols, rows, count, interval));
    TierTextsHoldNoBreak();
  }

  /** What the reader makes of a written bank whose rows are all plain. */
  lemma PlainBankIsRead(comments: seq<string>, cols: nat, rows: nat, frames: seq<Frame>, interval: nat)
    requires IsComments(comments)
    requires forall k :: 0 <= k < |frames| ==> AllPlain(frames[k])
    ensures
      var a := Finished(LoadLines(NOTHING, SplitLines(Terminated(BankLines(comments, cols, rows, frames, interval)))));
      && a.Ok?
      && a.value.cols == cols && a.value.rows == rows
      && a.value.frames == PaddedFrames(TrimmedAll(frames), rows, cols)
  {
    hide LoadLine, Header, FrameLines, AllPlain, ParseGrid, Decimal;
    var lines := BankLines(comments, cols, rows, frames, interval);
    var header := Header(cols, rows, |frames|, interval);
    HeaderHoldsNoBreak(cols, rows, |frames|, interval);
    FrameLinesHoldNoBreak(frames, 0);
    SplitTerminated(lines);
    LoadConcat(NOTHING, comments + header, FrameLines(frames, 0));
    LoadConcat(NOTHING, comments, header);
    CommentsAreSkipped(comments);
    HeaderIsRead(cols, rows, |frames|, interval);
    var b := LoadLines(NOTHING, header);
    FramesAreRead(b, frames, 0);
    assert b.frames + TrimmedAll(frames) == TrimmedAll(frames);
    GridIsParsed(cols, rows);
  }

  /** The exact condition: loading what was packed gives back the frames if and only if every row holds no line
      break, does not begin with `%` or `@`, and trails nothing but spaces. */
  lemma RoundTripIff(comments: seq<string>, cols: nat, rows: nat, frames: seq<Frame>, interval: nat)
    requires IsComments(comments) && AllShaped(frames, rows, cols)
    ensures
      var a := Finished(LoadLines(NOTHING, SplitLines(Terminated(BankLines(comments, cols, rows, frames, interval)))));
      (a.Ok? && a.value.cols == cols && a.value.rows == rows && a.value.frames == frames)
      <==> forall k, r :: 0 <= k < |frames| && 0 <= r < rows ==> CleanRow(frames[k][r])
  {
    hide LoadLine, LoadLines, BankLines, SplitLines, Terminated, ParseGrid, CleanRow, Trimmed, PlainRow, PaddedFrame;
    var lines := SplitLines(Terminated(BankLines(comments, cols, rows, frames, interval)));
    var a := Finished(LoadLines(NOTHING, lines));
    if a.Ok? && a.value.frames == frames && a.value.cols == cols && a.value.rows == rows {
      LoadedFramesArePlain(Terminated(BankLines(comments, cols, rows, frames, interval)));
    }
    if forall k, r :: 0 <= k < |frames| && 0 <= r < rows ==> CleanRow(frames[k][r]) {
      forall k | 0 <= k < |frames|
        ensures AllPlain(frames[k])
      {
        forall r | 0 <= r < rows { CleanIsPlain(frames[k][r]); }
      }
    }
    if forall k :: 0 <= k < |frames| ==> AllPlain(frames[k]) {
      PlainBankIsRead(comments, cols, rows, frames, interval);
      forall k | 0 <= k < |frames| {
        FrameSurvivesIff(frames[k], rows, cols);
      }
    }
  }

  lemma LoadedFramesArePlain(text: string)
    ensures
      var a := Finished(LoadLines(NOTHING, SplitLines(text)));
      a.Ok? ==> forall k :: 0 <= k < |a.value.frames| ==> AllPlain(a.value.frames[k])
  {
    hide PlainRow, ParseGrid, SplitLines, LoadLines, Padded;
    SplitHoldsNoBreak(text);
    LoadedRowsArePlain(NOTHING, SplitLines(text));
    var b := LoadLines(NOTHING, SplitLines(text));
    var a := Finished(b);
    if a.Ok? {
      forall k, r | 0 <= k < |a.value.frames| && 0 <= r < |a.value.frames[k]|
        ensures PlainRow(a.value.frames[k][r])
      {
        if r < |b.frames[k]| {
          PaddedIsPlain(b.frames[k][r], a.value.cols);
        } else {
          BlankIsPlain();
          PaddedIsPlain("", a.value.cols);
        }
      }
    }
  }

  lemma BlankIsPlain()
    ensures PlainRow("")
  {
  }

  /** A frame that is not read back: its one row is taken for a header. */
  lemma FrameCanBeLost(interval: nat)
    ensures
      var a := Finished(LoadLines(NOTHING, SplitLines(Terminated(BankLines([], 1, 1, [["%"]], interval)))));
      !(a.Ok? && a.value.cols == 1 && a.value.rows == 1 && a.value.frames == [["%"]])
  {
    hide BankLines, LoadLines, SplitLines, Terminated, Finished, CleanRow;
    var frames := [["%"]];
    assert AllShaped(frames, 1, 1);
    assert !CleanRow(frames[0][0]) by { MarkerIsNotClean(); }
    RoundTripIff([], 1, 1, frames, interval);
  }

  lemma MarkerIsNotClean()
    ensures !CleanRow("%")
  {
  }
}
