/** The gateway's published model figures: a baked copy, a user's own laid over it, and the windows routes and accounts
    were seen to serve. crates/inference-gateway/src/models.rs. */
module Models {
  import opened Text

  // ---------------------------------------------------------------- names

  /** `char::is_whitespace`. */
  predicate IsWhite(c: char) {
    || '\t' <= c <= '\r'
    || c == ' ' || c == '\U{85}' || c == '\U{A0}' || c == '\U{1680}'
    || '\U{2000}' <= c <= '\U{200A}'
    || c == '\U{2028}' || c == '\U{2029}' || c == '\U{202F}' || c == '\U{205F}' || c == '\U{3000}'
  }

  function TrimEnd(s: string): (t: string)
    ensures |t| <= |s| && t == s[..|t|]
    ensures t != "" ==> !IsWhite(t[|t| - 1])
  {
    if s != "" && IsWhite(s[|s| - 1]) then TrimEnd(s[..|s| - 1]) else s
  }

  function TrimStart(s: string): (t: string)
    ensures |t| <= |s| && t == s[|s| - |t|..]
    ensures t != "" ==> !IsWhite(t[0])
  {
    if s != "" && IsWhite(s[0]) then TrimStart(s[1..]) else s
  }

  function Fold(c: char): char {
    if 'A' <= c <= 'Z' then (c as int + 32) as char
    else if c == '.' || c == '_' then '-'
    else c
  }

  function Folded(s: string): (t: string)
    ensures |t| == |s| && forall i :: 0 <= i < |s| ==> t[i] == Fold(s[i])
  {
    seq(|s|, i requires 0 <= i < |s| => Fold(s[i]))
  }

  function Normalise(model: string): string {
    Folded(TrimStart(TrimEnd(model)))
  }

  /** A normalised name is its own key, so a catalogue keyed by slug and one keyed by served id meet. */
  lemma NormaliseIsIdempotent(model: string)
    ensures Normalise(Normalise(model)) == Normalise(model)
  {
    hide Fold, IsWhite, TrimEnd, TrimStart;
    var t := TrimStart(TrimEnd(model));
    var n := Folded(t);
    forall i | 0 <= i < |n|
      ensures Fold(n[i]) == n[i]
      ensures IsWhite(n[i]) <==> IsWhite(t[i])
    {
      FoldKeepsWhite(t[i]);
    }
    assert Folded(n) == n;
    assert t != "" ==> t[|t| - 1] == TrimEnd(model)[|TrimEnd(model)| - 1];
    NothingToTrim(n);
  }

  lemma NothingToTrim(s: string)
    requires s != "" ==> !IsWhite(s[0]) && !IsWhite(s[|s| - 1])
    ensures TrimStart(TrimEnd(s)) == s
  {
    hide IsWhite;
  }

  lemma FoldKeepsWhite(c: char)
    ensures IsWhite(Fold(c)) <==> IsWhite(c)
    ensures Fold(Fold(c)) == Fold(c)
  {
  }

  predicate AllWhite(s: string) {
    forall i :: 0 <= i < |s| ==> IsWhite(s[i])
  }

  predicate Untrimmed(s: string) {
    s == "" || (!IsWhite(s[0]) && !IsWhite(s[|s| - 1]))
  }

  lemma {:induction false} TrimsEnd(s: string, tail: string)
    requires AllWhite(tail) && (s == "" || !IsWhite(s[|s| - 1]))
    ensures TrimEnd(s + tail) == s
  {
    hide IsWhite;
    var whole := s + tail;
    if tail == "" {
      assert whole == s;
    } else {
      assert whole[..|whole| - 1] == s + tail[..|tail| - 1];
      TrimsEnd(s, tail[..|tail| - 1]);
    }
  }

  lemma {:induction false} TrimsStart(lead: string, s: string)
    requires AllWhite(lead) && (s == "" || !IsWhite(s[0]))
    ensures TrimStart(lead + s) == s
  {
    hide IsWhite;
    if lead == "" {
      assert lead + s == s;
    } else {
      assert (lead + s)[1..] == lead[1..] + s;
      TrimsStart(lead[1..], s);
    }
  }

  /** In lower case, and a dash for a dot or an underscore. */
  predicate FoldsTo(c: char, k: char) {
    if 'A' <= c <= 'Z' then k as int == c as int + 32
    else if c == '.' || c == '_' then k == '-'
    else k == c
  }

  lemma FoldIs(c: char)
    ensures FoldsTo(c, Fold(c))
  {
  }

  lemma TrimsBoth(lead: string, name: string, tail: string)
    requires AllWhite(lead) && AllWhite(tail) && Untrimmed(name)
    ensures TrimStart(TrimEnd(lead + name + tail)) == name
  {
    hide IsWhite, TrimEnd, TrimStart;
    if name == "" {
      assert lead + name + tail == "" + (lead + tail);
      TrimsEnd("", lead + tail);
      TrimsStart("", "");
      assert "" + "" == "";
    } else {
      assert (lead + name)[|lead + name| - 1] == name[|name| - 1];
      TrimsEnd(lead + name, tail);
      TrimsStart(lead, name);
    }
  }

  /** The key of a name: each of its characters folded, and nothing of the whitespace around it. */
  lemma NormaliseIs(lead: string, name: string, tail: string)
    requires AllWhite(lead) && AllWhite(tail) && Untrimmed(name)
    ensures
      var key := Normalise(lead + name + tail);
      |key| == |name| && forall i :: 0 <= i < |name| ==> FoldsTo(name[i], key[i])
  {
    hide AllWhite, Untrimmed, Fold, FoldsTo, TrimEnd, TrimStart;
    TrimsBoth(lead, name, tail);
    forall i | 0 <= i < |name|
      ensures FoldsTo(name[i], Fold(name[i]))
    {
      FoldIs(name[i]);
    }
  }

  /** A name as a subscription spells it. */
  lemma SpelledName()
    ensures Normalise(" " + "O3.5_x" + "\n") == "o3-5-x"
  {
    hide TrimEnd, TrimStart, IsWhite, Normalise;
    BlankIsWhite();
    NormaliseIs(" ", "O3.5_x", "\n");
  }

  lemma BlankIsWhite()
    ensures IsWhite(' ') && IsWhite('\n') && !IsWhite('O') && !IsWhite('x')
  {
  }

  // ---------------------------------------------------------------- one model's figures

  datatype ModelFacts = ModelFacts(
    name: Option<string>,
    intelligence: Option<real>,
    coding: Option<real>,
    agentic: Option<real>,
    costPerTaskUsd: Option<real>,
    inputUsdPerMillion: Option<real>,
    outputUsdPerMillion: Option<real>,
    contextWindowTokens: Option<nat>,
    maxOutputTokens: Option<nat>)
  {
    function OverlaidWith(other: ModelFacts): ModelFacts {
      ModelFacts(
        Or(other.name, name),
        Or(other.intelligence, intelligence),
        Or(other.coding, coding),
        Or(other.agentic, agentic),
        Or(other.costPerTaskUsd, costPerTaskUsd),
        Or(other.inputUsdPerMillion, inputUsdPerMillion),
        Or(other.outputUsdPerMillion, outputUsdPerMillion),
        Or(other.contextWindowTokens, contextWindowTokens),
        Or(other.maxOutputTokens, maxOutputTokens))
    }
  }

  function Or<T>(first: Option<T>, second: Option<T>): Option<T> {
    if first.Some? then first else second
  }

  /** The figures one at a time, each under its own name. */
  datatype Figure =
    Name | Intelligence | Coding | Agentic | CostPerTask | InputCost | OutputCost | ContextWindow | MaxOutput

  datatype Reading = Title(t: string) | Score(s: real) | Tokens(n: nat)

  function Figured(facts: ModelFacts, figure: Figure): Option<Reading> {
    match figure
    case Name => if facts.name.Some? then Some(Title(facts.name.value)) else None
    case Intelligence => Scored(facts.intelligence)
    case Coding => Scored(facts.coding)
    case Agentic => Scored(facts.agentic)
    case CostPerTask => Scored(facts.costPerTaskUsd)
    case InputCost => Scored(facts.inputUsdPerMillion)
    case OutputCost => Scored(facts.outputUsdPerMillion)
    case ContextWindow => Counted(facts.contextWindowTokens)
    case MaxOutput => Counted(facts.maxOutputTokens)
  }

  function Scored(s: Option<real>): Option<Reading> {
    if s.Some? then Some(Score(s.value)) else None
  }

  function Counted(n: Option<nat>): Option<Reading> {
    if n.Some? then Some(Tokens(n.value)) else None
  }

  lemma FreshFigureWins(older: ModelFacts, newer: ModelFacts, figure: Figure)
    ensures Figured(older.OverlaidWith(newer), figure) == Or(Figured(newer, figure), Figured(older, figure))
  {
  }

  // ---------------------------------------------------------------- a whole catalogue

  datatype Measurements = Measurements(
    source: Option<string>,
    indexVersion: Option<real>,
    captured: Option<string>,
    fetchedAt: Option<nat>,
    models: map<string, ModelFacts>)

  function Laid(below: map<string, ModelFacts>, above: map<string, ModelFacts>): map<string, ModelFacts> {
    map id | id in below.Keys + above.Keys ::
      if id in below && id in above then below[id].OverlaidWith(above[id])
      else if id in above then above[id] else below[id]
  }

  function Overlay(below: Measurements, above: Measurements): Measurements {
    Measurements(
      Or(above.source, below.source),
      Or(above.indexVersion, below.indexVersion),
      Or(above.captured, below.captured),
      Or(above.fetchedAt, below.fetchedAt),
      Laid(below.models, above.models))
  }

  method OverlaidWith(below: Measurements, overlay: Measurements) returns (r: Measurements)
    ensures r == Overlay(below, overlay)
  {
    var models := below.models;
    var ids := overlay.models.Keys;
    while ids != {}
      invariant ids <= overlay.models.Keys
      invariant models.Keys == below.models.Keys + (overlay.models.Keys - ids)
      invariant forall id :: id in models
                  ==> models[id] == if id in ids then below.models[id] else Laid(below.models, overlay.models)[id]
    {
      var id :| id in ids;
      var merged := if id in models then models[id].OverlaidWith(overlay.models[id]) else overlay.models[id];
      models := models[id := merged];
      ids := ids - {id};
    }
    r := Measurements(
      Or(overlay.source, below.source),
      Or(overlay.indexVersion, below.indexVersion),
      Or(overlay.captured, below.captured),
      Or(overlay.fetchedAt, below.fetchedAt),
      models);
  }

  lemma FactsAreAssociative(a: ModelFacts, b: ModelFacts, c: ModelFacts)
    ensures a.OverlaidWith(b).OverlaidWith(c) == a.OverlaidWith(b.OverlaidWith(c))
  {
  }

  /** Three copies mean the same whichever two are laid together first. */
  lemma OverlayIsAssociative(a: Measurements, b: Measurements, c: Measurements)
    ensures Overlay(Overlay(a, b), c) == Overlay(a, Overlay(b, c))
  {
    hide ModelFacts.OverlaidWith;
    var left, right := Laid(Laid(a.models, b.models), c.models), Laid(a.models, Laid(b.models, c.models));
    assert left.Keys == right.Keys;
    forall id | id in left
      ensures left[id] == right[id]
    {
      if id in a.models && id in b.models && id in c.models {
        FactsAreAssociative(a.models[id], b.models[id], c.models[id]);
      }
    }
    assert left == right;
  }

  /** Laying a copy over what already carries it changes nothing. */
  lemma OverlayTwiceIsOnce(a: Measurements, b: Measurements)
    ensures Overlay(a, a) == a
    ensures Overlay(Overlay(a, b), b) == Overlay(a, b)
  {
    assert Laid(a.models, a.models) == a.models;
    assert Laid(b.models, b.models) == b.models;
    OverlayIsAssociative(a, b, b);
  }

  /** A model that only one copy knows is kept as that copy has it, one that both know has the figures of the one laid
      above where it has them, and so have the four fields of the heading. */
  lemma OverlayIs(below: Measurements, above: Measurements)
    ensures
      var r := Overlay(below, above);
      && (forall id :: id in r.models <==> id in below.models || id in above.models)
      && (forall id :: id in below.models && id !in above.models ==> r.models[id] == below.models[id])
      && (forall id :: id in above.models && id !in below.models ==> r.models[id] == above.models[id])
      && (forall id, figure :: id in below.models && id in above.models ==>
            Figured(r.models[id], figure) == Or(Figured(above.models[id], figure), Figured(below.models[id], figure)))
      && r.source == (if above.source.Some? then above.source else below.source)
      && r.indexVersion == (if above.indexVersion.Some? then above.indexVersion else below.indexVersion)
      && r.captured == (if above.captured.Some? then above.captured else below.captured)
      && r.fetchedAt == (if above.fetchedAt.Some? then above.fetchedAt else below.fetchedAt)
  {
    hide Figured, ModelFacts.OverlaidWith;
    forall id, figure | id in below.models && id in above.models
      ensures Figured(Overlay(below, above).models[id], figure)
              == Or(Figured(above.models[id], figure), Figured(below.models[id], figure))
    {
      FreshFigureWins(below.models[id], above.models[id], figure);
    }
  }

  // ---------------------------------------------------------------- importing a catalogue

  /** The order a `BTreeMap` keeps its string keys in. */
  predicate Before(a: string, b: string) {
    if b == "" then false
    else if a == "" then true
    else a[0] < b[0] || (a[0] == b[0] && Before(a[1..], b[1..]))
  }

  /** The first place where two keys differ decides, and where they do not the shorter one is first. */
  lemma {:induction false} BeforeIff(a: string, b: string)
    ensures Before(a, b) <==>
      || (|a| < |b| && b[..|a|] == a)
      || exists i :: DiffersAt(a, b, i)
  {
    if a != "" && b != "" {
      BeforeIff(a[1..], b[1..]);
      if a[0] == b[0] {
        DifferLater(a, b);
        PrefixLater(a, b);
      } else {
        FirstDecides(a, b);
      }
    }
  }

  lemma PrefixLater(a: string, b: string)
    requires a != "" && b != "" && a[0] == b[0]
    ensures |a| < |b| && b[..|a|] == a <==> |a[1..]| < |b[1..]| && b[1..][..|a[1..]|] == a[1..]
  {
    if |a| < |b| {
      assert b[..|a|] == [b[0]] + b[1..][..|a[1..]|];
      assert b[..|a|][1..] == b[1..][..|a[1..]|];
      assert a == [a[0]] + a[1..];
    }
  }

  lemma FirstDecides(a: string, b: string)
    requires a != "" && b != "" && a[0] != b[0]
    ensures |a| < |b| ==> b[..|a|] != a
    ensures (exists i :: DiffersAt(a, b, i)) <==> a[0] < b[0]
  {
    assert |a| < |b| ==> b[..|a|][0] == b[0];
    if a[0] < b[0] {
      assert DiffersAt(a, b, 0);
    }
  }

  predicate DiffersAt(a: string, b: string, i: int) {
    0 <= i < |a| && i < |b| && a[i] < b[i] && forall j :: 0 <= j < i ==> a[j] == b[j]
  }

  lemma DifferLater(a: string, b: string)
    requires a != "" && b != "" && a[0] == b[0]
    ensures (exists i :: DiffersAt(a, b, i)) <==> exists i :: DiffersAt(a[1..], b[1..], i)
  {
    if i :| DiffersAt(a, b, i) {
      assert DiffersAt(a[1..], b[1..], i - 1);
    }
    if i :| DiffersAt(a[1..], b[1..], i) {
      forall j | 0 <= j < i + 1
        ensures a[j] == b[j]
      {
        assert j > 0 ==> a[1..][j - 1] == b[1..][j - 1];
      }
      assert DiffersAt(a, b, i + 1);
    }
  }

  lemma {:induction false} BeforeIsTotal(a: string, b: string)
    ensures Before(a, b) || Before(b, a) || a == b
    ensures !(Before(a, b) && Before(b, a)) && !Before(a, a)
  {
    if a != "" && b != "" {
      BeforeIsTotal(a[1..], b[1..]);
      BeforeIsTotal(a[1..], a[1..]);
      assert a == [a[0]] + a[1..] && b == [b[0]] + b[1..];
    } else if a != "" {
      BeforeIsTotal(a[1..], a[1..]);
    }
  }

  lemma {:induction false} BeforeIsTransitive(a: string, b: string, c: string)
    requires Before(a, b) && Before(b, c)
    ensures Before(a, c)
  {
    if a != "" && a[0] == b[0] && b[0] == c[0] {
      BeforeIsTransitive(a[1..], b[1..], c[1..]);
    }
  }

  /** `id` comes before every other of `ids`. */
  predicate Least(ids: set<string>, id: string) {
    id in ids && forall other :: other in ids && other != id ==> Before(id, other)
  }

  lemma {:induction false} LeastExists(ids: set<string>)
    requires ids != {}
    ensures exists id :: Least(ids, id)
  {
    var id :| id in ids;
    if ids != {id} {
      LeastExists(ids - {id});
      var least :| Least(ids - {id}, least);
      BeforeIsTotal(id, least);
      if Before(id, least) {
        forall other | other in ids && other != id
          ensures Before(id, other)
        {
          if other != least {
            BeforeIsTransitive(id, least, other);
          }
        }
        assert Least(ids, id);
      } else {
        assert Least(ids, least);
      }
    } else {
      assert Least(ids, id);
    }
  }

  /** Of the ids that share `id`'s normalised name, `id` is the last in key order. */
  predicate LastOfItsName(ids: set<string>, id: string) {
    id in ids && forall other :: other in ids && Normalise(other) == Normalise(id) && other != id ==> Before(other, id)
  }

  /** `renamed` holds the models of `ids` under their normalised names, the last in key order where names collide. */
  ghost predicate Renamed(models: map<string, ModelFacts>, ids: set<string>, renamed: map<string, ModelFacts>)
    requires ids <= models.Keys
  {
    && (forall n :: n in renamed <==> exists id :: id in ids && Normalise(id) == n)
    && (forall id :: LastOfItsName(ids, id) ==> Normalise(id) in renamed && renamed[Normalise(id)] == models[id])
  }

  /** The user's own copy, and what the gateway answers from. */
  class DataDir {
    var file: Option<Measurements>

    function Overlaying(): Option<Measurements>
      reads this
    {
      if file.Some? && file.value.models != map[] then file else None
    }

    function Known(baked: Measurements): Measurements
      reads this
    {
      if Overlaying().Some? then Overlay(baked, Overlaying().value) else baked
    }

    /** `parsed` is what the imported bytes spell, if they spell a catalogue. */
    method Import(parsed: Result<Measurements>) returns (r: Result<nat>)
      modifies this
      ensures r.Ok? <==> parsed.Ok? && parsed.value.models != map[]
      ensures r.Error? ==> file == old(file)
      ensures r.Ok? ==> file.Some? && file.value == parsed.value.(models := file.value.models)
                        && Renamed(parsed.value.models, parsed.value.models.Keys, file.value.models)
                        && r.value == |file.value.models|
    {
      if parsed.Error? || parsed.value.models == map[] {
        return Error;
      }
      var models := RenamedModels(parsed.value.models);
      file := Some(parsed.value.(models := models));
      return Ok(|models|);
    }
  }

  method RenamedModels(models: map<string, ModelFacts>) returns (renamed: map<string, ModelFacts>)
    ensures Renamed(models, models.Keys, renamed)
  {
    hide Before, Normalise;
    renamed := map[];
    var rest := models.Keys;
    ghost var done: set<string> := {};
    while rest != {}
      invariant done + rest == models.Keys && done !! rest
      invariant forall id, other :: id in done && other in rest ==> Before(id, other)
      invariant Renamed(models, done, renamed)
    {
      LeastExists(rest);
      var id :| Least(rest, id);
      OneMoreRenamed(models, done, renamed, id);
      renamed := renamed[Normalise(id) := models[id]];
      done := done + {id};
      rest := rest - {id};
    }
    assert done == models.Keys;
  }

  lemma OneMoreRenamed(models: map<string, ModelFacts>, done: set<string>, renamed: map<string, ModelFacts>, id: string)
    requires done <= models.Keys && id in models && id !in done
    requires forall other :: other in done ==> Before(other, id)
    requires Renamed(models, done, renamed)
    ensures Renamed(models, done + {id}, renamed[Normalise(id) := models[id]])
  {
    hide Before, Normalise;
    var more := renamed[Normalise(id) := models[id]];
    forall n
      ensures n in more <==> exists other :: other in done + {id} && Normalise(other) == n
    {
      if n != Normalise(id) && n in renamed {
        var other :| other in done && Normalise(other) == n;
        assert other in done + {id};
      }
    }
    forall other | LastOfItsName(done + {id}, other)
      ensures Normalise(other) in more && more[Normalise(other)] == models[other]
    {
      if other != id {
        StillLast(done, id, other);
      }
    }
  }

  lemma StillLast(done: set<string>, id: string, other: string)
    requires forall earlier :: earlier in done ==> Before(earlier, id)
    requires LastOfItsName(done + {id}, other) && other != id
    ensures LastOfItsName(done, other) && Normalise(other) != Normalise(id)
  {
    hide Before, Normalise;
    BeforeIsTotal(id, other);
  }

  lemma {:induction false} SomeIsLast(ids: set<string>, id: string)
    requires id in ids
    ensures exists last :: LastOfItsName(ids, last) && Normalise(last) == Normalise(id)
    decreases |ids|
  {
    hide Before, Normalise;
    if !LastOfItsName(ids, id) {
      var other :| other in ids && Normalise(other) == Normalise(id) && other != id && !Before(other, id);
      SomeIsLast(ids - {id}, other);
      var last :| LastOfItsName(ids - {id}, last) && Normalise(last) == Normalise(other);
      BeforeIsTotal(other, id);
      BeforeIsTotal(other, last);
      if other != last {
        BeforeIsTransitive(id, other, last);
      }
      assert LastOfItsName(ids, last);
    }
  }

  /** Importing what was imported writes the same models again. */
  lemma ImportIsStable(models: map<string, ModelFacts>, renamed: map<string, ModelFacts>)
    requires Renamed(models, models.Keys, renamed)
    ensures forall again :: Renamed(renamed, renamed.Keys, again) <==> again == renamed
  {
    hide Before, Normalise, Renamed;
    forall n | n in renamed
      ensures Normalise(n) == n
    {
      KeyIsNormalised(models, renamed, n);
    }
    forall again
      ensures Renamed(renamed, renamed.Keys, again) <==> again == renamed
    {
      NormalisedStays(renamed, again);
    }
  }

  lemma NormalisedStays(models: map<string, ModelFacts>, renamed: map<string, ModelFacts>)
    requires forall n :: n in models ==> Normalise(n) == n
    ensures Renamed(models, models.Keys, renamed) <==> renamed == models
  {
    hide Before, Normalise;
    forall n | n in models
      ensures LastOfItsName(models.Keys, n)
    {
    }
    if Renamed(models, models.Keys, renamed) {
      assert renamed.Keys == models.Keys;
      assert forall n :: n in models ==> renamed[Normalise(n)] == models[n];
    }
  }

  lemma KeyIsNormalised(models: map<string, ModelFacts>, renamed: map<string, ModelFacts>, n: string)
    requires Renamed(models, models.Keys, renamed) && n in renamed
    ensures Normalise(n) == n
  {
    hide Before, Normalise;
    var id :| id in models.Keys && Normalise(id) == n;
    NormaliseIsIdempotent(id);
  }

  /** After an import every published model is found under its normalised name, with each figure its last colliding
      entry carries and the baked one where that entry carries none. */
  lemma ImportedIsFound(
      baked: Measurements, parsed: Measurements, dir: DataDir, id: string, figure: Figure)
    requires dir.file.Some? && id in parsed.models
    requires Renamed(parsed.models, parsed.models.Keys, dir.file.value.models)
    ensures var n, known := Normalise(id), dir.Known(baked).models;
            exists last :: && LastOfItsName(parsed.models.Keys, last) && Normalise(last) == n && n in known
                           && Figured(known[n], figure)
                              == Or(Figured(parsed.models[last], figure),
                                    if n in baked.models then Figured(baked.models[n], figure) else None)
  {
    hide Before, Normalise, Figured, ModelFacts.OverlaidWith;
    SomeIsLast(parsed.models.Keys, id);
    var last :| LastOfItsName(parsed.models.Keys, last) && Normalise(last) == Normalise(id);
    var n, known := Normalise(id), dir.Known(baked).models;
    assert n in dir.file.value.models && dir.file.value.models[n] == parsed.models[last];
    if n in baked.models {
      FreshFigureWins(baked.models[n], parsed.models[last], figure);
    }
  }

  /** An absent copy, and one without models, leave the baked one standing, and under any other no baked model is
      lost. */
  lemma BakedStands(baked: Measurements, dir: DataDir)
    ensures dir.file.None? || dir.file.value.models == map[] ==> dir.Known(baked) == baked
    ensures forall id :: id in baked.models ==> id in dir.Known(baked).models
    ensures forall id :: id in baked.models && (dir.file.None? || id !in dir.file.value.models)
                         ==> dir.Known(baked).models[id] == baked.models[id]
  {
    hide ModelFacts.OverlaidWith;
  }

  // ---------------------------------------------------------------- one answer per model

  /** What is kept of the candidates for one name: the highest ranked, and of equals the last when `ties` says a later
      one replaces it, else the first. */
  function Kept<W>(cs: seq<(string, W)>, name: string, rank: W -> int, ties: bool): Option<W> {
    if cs == [] then None
    else
      var held, c := Kept(cs[..|cs| - 1], name, rank, ties), cs[|cs| - 1];
      if c.0 != name then held
      else if held == None then Some(c.1)
      else if rank(c.1) > rank(held.value) || (ties && rank(c.1) == rank(held.value)) then Some(c.1)
      else held
  }

  ghost predicate Best<W>(cs: seq<(string, W)>, name: string, rank: W -> int, w: W) {
    (name, w) in cs && forall c :: c in cs && c.0 == name ==> rank(c.1) <= rank(w)
  }

  datatype ObservedLimit = ObservedLimit(contextWindowTokens: nat, route: string, observedAtUnix: int)

  datatype ServedWindow = ServedWindow(
    contextWindowTokens: nat, maxOutputTokens: Option<nat>, account: string, fetchedAtUnix: int)

  function Age(limit: ObservedLimit): int {
    limit.observedAtUnix
  }

  function Narrowness(window: ServedWindow): int {
    -(window.contextWindowTokens as int)
  }

  /** The refusals as the cache lists them: provider, model and the window refused. */
  function Refusals(all: seq<(string, string, nat, int)>): (cs: seq<(string, ObservedLimit)>)
    ensures |cs| == |all|
  {
    seq(|all|, i requires 0 <= i < |all| => (Normalise(all[i].1), ObservedLimit(all[i].2, all[i].0, all[i].3)))
  }

  method Observed(all: seq<(string, string, nat, int)>) returns (folded: map<string, ObservedLimit>)
    ensures forall name :: Lookup(folded, name) == Kept(Refusals(all), name, Age, true)
  {
    hide Normalise;
    folded := map[];
    for i := 0 to |all|
      invariant forall name :: Lookup(folded, name) == Kept(Refusals(all)[..i], name, Age, true)
    {
      var name, candidate := Normalise(all[i].1), ObservedLimit(all[i].2, all[i].0, all[i].3);
      assert Refusals(all)[..i + 1] == Refusals(all)[..i] + [(name, candidate)];
      if name in folded {
        if candidate.observedAtUnix >= folded[name].observedAtUnix {
          folded := folded[name := candidate];
        }
      } else {
        folded := folded[name := candidate];
      }
    }
    assert Refusals(all)[..|all|] == Refusals(all);
  }

  datatype ServedWindows = ServedWindows(
    account: string, fetchedAtUnix: int, models: seq<(string, nat, Option<nat>)>)

  function Offer(reading: ServedWindows, k: nat): (string, ServedWindow)
    requires k < |reading.models|
  {
    var model := reading.models[k];
    (Normalise(model.0), ServedWindow(model.1, model.2, reading.account, reading.fetchedAtUnix))
  }

  /** What the first `k` models of a reading, or all the readings, offer. */
  function Offers(reading: ServedWindows, k: nat): seq<(string, ServedWindow)>
    requires k <= |reading.models|
  {
    if k == 0 then [] else Offers(reading, k - 1) + [Offer(reading, k - 1)]
  }

  function AllOffers(readings: seq<ServedWindows>): seq<(string, ServedWindow)> {
    if readings == [] then []
    else
      var last := readings[|readings| - 1];
      AllOffers(readings[..|readings| - 1]) + Offers(last, |last.models|)
  }

  method Served(readings: seq<ServedWindows>) returns (folded: map<string, ServedWindow>)
    ensures forall name :: Lookup(folded, name) == Kept(AllOffers(readings), name, Narrowness, false)
  {
    hide Normalise, Kept, Lookup, AllOffers, Offers;
    folded := map[];
    NothingKept();
    for i := 0 to |readings|
      invariant Folds(folded, AllOffers(readings[..i]))
    {
      var reading := readings[i];
      OffersGrow(readings, i);
      for k := 0 to |reading.models|
        invariant Folds(folded, AllOffers(readings[..i]) + Offers(reading, k))
      {
        var (name, candidate) := Offer(reading, k);
        ghost var offers := AllOffers(readings[..i]) + Offers(reading, k);
        OffersGrowBy(reading, k);
        assert AllOffers(readings[..i]) + Offers(reading, k + 1) == offers + [(name, candidate)];
        OneMoreOffer(folded, offers, name, candidate);
        if name in folded {
          if candidate.contextWindowTokens < folded[name].contextWindowTokens {
            folded := folded[name := candidate];
          }
        } else {
          folded := folded[name := candidate];
        }
      }
    }
    assert readings[..|readings|] == readings;
  }

  ghost predicate Folds(folded: map<string, ServedWindow>, offers: seq<(string, ServedWindow)>) {
    forall name :: Lookup(folded, name) == Kept(offers, name, Narrowness, false)
  }

  lemma NothingKept()
    ensures Folds(map[], AllOffers([]))
  {
  }

  lemma OffersGrow(readings: seq<ServedWindows>, i: nat)
    requires i < |readings|
    ensures AllOffers(readings[..i]) + Offers(readings[i], 0) == AllOffers(readings[..i])
    ensures AllOffers(readings[..i + 1]) == AllOffers(readings[..i]) + Offers(readings[i], |readings[i].models|)
  {
    assert readings[..i + 1][..i] == readings[..i];
  }

  lemma OffersGrowBy(reading: ServedWindows, k: nat)
    requires k < |reading.models|
    ensures Offers(reading, k + 1) == Offers(reading, k) + [Offer(reading, k)]
  {
  }

  lemma OneMoreOffer(
      folded: map<string, ServedWindow>, offers: seq<(string, ServedWindow)>, name: string, w: ServedWindow)
    requires Folds(folded, offers)
    ensures Folds(if name in folded && folded[name].contextWindowTokens <= w.contextWindowTokens then folded
                  else folded[name := w], offers + [(name, w)])
  {
    var more := offers + [(name, w)];
    assert more[..|more| - 1] == offers;
    var after := if name in folded && folded[name].contextWindowTokens <= w.contextWindowTokens then folded
                 else folded[name := w];
    assert Lookup(folded, name) == Kept(offers, name, Narrowness, false);
    forall n
      ensures Lookup(after, n) == Kept(more, n, Narrowness, false)
    {
      assert Lookup(folded, n) == Kept(offers, n, Narrowness, false);
    }
  }

  function Lookup<W>(m: map<string, W>, name: string): Option<W> {
    if name in m then Some(m[name]) else None
  }

  // ---------------------------------------------------------------- which candidate is kept

  /** `cs[i]` is the highest ranked of the candidates for the name: of equals the last when `ties`, else the first. */
  predicate KeptAt<W>(cs: seq<(string, W)>, name: string, rank: W -> int, ties: bool, i: nat) {
    && i < |cs| && cs[i].0 == name
    && forall j :: 0 <= j < |cs| && cs[j].0 == name ==>
         && rank(cs[j].1) <= rank(cs[i].1)
         && ((if ties then j > i else j < i) ==> rank(cs[j].1) < rank(cs[i].1))
  }

  lemma {:induction false} KeptIsAt<W>(cs: seq<(string, W)>, name: string, rank: W -> int, ties: bool)
    ensures var kept := Kept(cs, name, rank, ties);
            if kept == None then forall i :: 0 <= i < |cs| ==> cs[i].0 != name
            else exists i: nat :: KeptAt(cs, name, rank, ties, i) && cs[i].1 == kept.value
  {
    if cs != [] {
      var n := |cs| - 1;
      KeptIsAt(cs[..n], name, rank, ties);
      var held, kept := Kept(cs[..n], name, rank, ties), Kept(cs, name, rank, ties);
      if held.Some? {
        var i: nat :| KeptAt(cs[..n], name, rank, ties, i) && cs[..n][i].1 == held.value;
        assert KeptAt(cs, name, rank, ties, i) || KeptAt(cs, name, rank, ties, n);
      } else if kept.Some? {
        assert KeptAt(cs, name, rank, ties, n);
      }
    }
  }

  /** Refusal `i` is the newest for the name, and the last scanned of those as new. */
  predicate IsNewest(all: seq<(string, string, nat, int)>, name: string, i: nat) {
    && i < |all| && Normalise(all[i].1) == name
    && forall j :: 0 <= j < |all| && Normalise(all[j].1) == name ==>
         all[j].3 <= all[i].3 && (j > i ==> all[j].3 < all[i].3)
  }

  /** What is observed of a model: the window of its newest refusal, with the provider that refused and when. */
  lemma ObservedIsNewest(all: seq<(string, string, nat, int)>, name: string)
    ensures var kept := Kept(Refusals(all), name, Age, true);
            if kept == None then forall i :: 0 <= i < |all| ==> Normalise(all[i].1) != name
            else exists i: nat :: IsNewest(all, name, i) && kept == Some(ObservedLimit(all[i].2, all[i].0, all[i].3))
  {
    hide Normalise, Kept;
    var cs := Refusals(all);
    KeptIsAt(cs, name, Age, true);
    var kept := Kept(cs, name, Age, true);
    if kept.Some? {
      var i: nat :| KeptAt(cs, name, Age, true, i) && cs[i].1 == kept.value;
      assert forall j :: 0 <= j < |all| ==> cs[j].0 == Normalise(all[j].1) && Age(cs[j].1) == all[j].3;
      assert IsNewest(all, name, i);
    } else {
      assert forall i :: 0 <= i < |all| ==> cs[i].0 == Normalise(all[i].1);
    }
  }

  /** Where the models of reading `r` begin among all that is offered. */
  function StartOf(readings: seq<ServedWindows>, r: nat): nat
    requires r <= |readings|
  {
    |AllOffers(readings[..r])|
  }

  lemma {:induction false} OffersAre(reading: ServedWindows, n: nat)
    requires n <= |reading.models|
    ensures |Offers(reading, n)| == n && forall k :: 0 <= k < n ==> Offers(reading, n)[k] == Offer(reading, k)
  {
    hide Normalise;
    if n > 0 {
      OffersAre(reading, n - 1);
    }
  }

  /** The model of reading `r` that is offered at place `p`. */
  predicate OfferedAt(readings: seq<ServedWindows>, p: nat, r: nat, k: nat) {
    && r < |readings| && k < |readings[r].models|
    && p < |AllOffers(readings)| && AllOffers(readings)[p] == Offer(readings[r], k)
    && p == StartOf(readings, r) + k
  }

  /** Every offer is some reading's, and each reading's are in its own order. */
  lemma {:induction false} OfferIs(readings: seq<ServedWindows>, p: nat) returns (r: nat, k: nat)
    requires p < |AllOffers(readings)|
    ensures OfferedAt(readings, p, r, k)
  {
    hide Offer, Offers;
    var n := |readings| - 1;
    var rest := readings[..n];
    OffersAre(readings[n], |readings[n].models|);
    if p < |AllOffers(rest)| {
      r, k := OfferIs(rest, p);
      assert rest[..r] == readings[..r];
    } else {
      r, k := n, p - |AllOffers(rest)|;
    }
  }

  lemma {:induction false} OfferIsThere(readings: seq<ServedWindows>, r: nat, k: nat)
    requires r < |readings| && k < |readings[r].models|
    ensures OfferedAt(readings, StartOf(readings, r) + k, r, k)
  {
    hide Offer, Offers;
    var n := |readings| - 1;
    var rest := readings[..n];
    OffersAre(readings[n], |readings[n].models|);
    if r < n {
      OfferIsThere(rest, r, k);
      assert rest[..r] == readings[..r];
    }
  }

  lemma {:induction false} StartsRise(readings: seq<ServedWindows>, r: nat, s: nat)
    requires r < s <= |readings|
    ensures StartOf(readings, r) + |readings[r].models| <= StartOf(readings, s)
  {
    hide Offers;
    assert readings[..s][..s - 1] == readings[..s - 1];
    OffersAre(readings[s - 1], |readings[s - 1].models|);
    if r < s - 1 {
      StartsRise(readings, r, s - 1);
    }
  }

  /** Model `k` of reading `r` bears the name. */
  predicate Bears(readings: seq<ServedWindows>, name: string, r: nat, k: nat) {
    r < |readings| && k < |readings[r].models| && Normalise(readings[r].models[k].0) == name
  }

  /** Its window is the narrowest for the name, and the first scanned of those as narrow. */
  ghost predicate IsNarrowest(readings: seq<ServedWindows>, name: string, r: nat, k: nat) {
    && Bears(readings, name, r, k)
    && forall s: nat, l: nat :: Bears(readings, name, s, l) ==>
         && readings[r].models[k].1 <= readings[s].models[l].1
         && (s < r || (s == r && l < k) ==> readings[r].models[k].1 < readings[s].models[l].1)
  }

  /** What a model is served with: the narrowest window any account reads for it, with that reading's own output
      maximum, account and time. */
  lemma ServedIsNarrowest(readings: seq<ServedWindows>, name: string)
    ensures var kept := Kept(AllOffers(readings), name, Narrowness, false);
            if kept == None then forall r: nat, k: nat :: !Bears(readings, name, r, k)
            else exists r: nat, k: nat ::
              && IsNarrowest(readings, name, r, k)
              && kept == Some(ServedWindow(readings[r].models[k].1, readings[r].models[k].2,
                                           readings[r].account, readings[r].fetchedAtUnix))
  {
    hide Normalise, Kept, AllOffers, StartOf;
    var cs := AllOffers(readings);
    KeptIsAt(cs, name, Narrowness, false);
    forall r: nat, k: nat | Bears(readings, name, r, k)
      ensures OfferedAt(readings, StartOf(readings, r) + k, r, k)
    {
      OfferIsThere(readings, r, k);
    }
    var kept := Kept(cs, name, Narrowness, false);
    if kept.Some? {
      var p: nat :| KeptAt(cs, name, Narrowness, false, p) && cs[p].1 == kept.value;
      var r, k := OfferIs(readings, p);
      KeptIsNarrowest(readings, name, p, r, k);
    }
  }

  lemma KeptIsNarrowest(readings: seq<ServedWindows>, name: string, p: nat, r: nat, k: nat)
    requires KeptAt(AllOffers(readings), name, Narrowness, false, p) && OfferedAt(readings, p, r, k)
    ensures IsNarrowest(readings, name, r, k)
  {
    hide Normalise, AllOffers, StartOf;
    forall s: nat, l: nat | Bears(readings, name, s, l)
      ensures readings[r].models[k].1 <= readings[s].models[l].1
      ensures s < r || (s == r && l < k) ==> readings[r].models[k].1 < readings[s].models[l].1
    {
      var q := StartOf(readings, s) + l;
      OfferIsThere(readings, s, l);
      if s < r {
        StartsRise(readings, s, r);
      }
    }
  }

  // ---------------------------------------------------------------- in whatever order they are scanned

  lemma {:induction false} KeptIsBest<W>(cs: seq<(string, W)>, name: string, rank: W -> int, ties: bool)
    ensures var kept := Kept(cs, name, rank, ties);
            if kept == None then forall c :: c in cs ==> c.0 != name else Best(cs, name, rank, kept.value)
  {
    if cs != [] {
      KeptIsBest(cs[..|cs| - 1], name, rank, ties);
      assert forall c :: c in cs <==> c in cs[..|cs| - 1] || c == cs[|cs| - 1];
    }
  }

  /** The answer for a name is the same in every scan order exactly when its best candidates are all one. */
  lemma AnyOrderIff<W(!new)>(cs: seq<(string, W)>, name: string, rank: W -> int, ties: bool)
    ensures (forall others | multiset(others) == multiset(cs) ::
               Kept(others, name, rank, ties) == Kept(cs, name, rank, ties))
            <==> OneBest(cs, name, rank)
  {
    hide Kept, Best, OneBest;
    if OneBest(cs, name, rank) {
      forall others | multiset(others) == multiset(cs)
        ensures Kept(others, name, rank, ties) == Kept(cs, name, rank, ties)
      {
        KeptOfTheSame(cs, others, name, rank, ties);
      }
    } else {
      var v, w := TwoBest(cs, name, rank);
      var first := SomeOrderKeeps(cs, name, rank, ties, v);
      var second := SomeOrderKeeps(cs, name, rank, ties, w);
      assert Kept(first, name, rank, ties) != Kept(second, name, rank, ties);
    }
  }

  ghost predicate OneBest<W(!new)>(cs: seq<(string, W)>, name: string, rank: W -> int) {
    forall v, w :: Best(cs, name, rank, v) && Best(cs, name, rank, w) ==> v == w
  }

  lemma TwoBest<W(!new)>(cs: seq<(string, W)>, name: string, rank: W -> int) returns (v: W, w: W)
    requires !OneBest(cs, name, rank)
    ensures Best(cs, name, rank, v) && Best(cs, name, rank, w) && v != w
  {
    hide Best;
    v, w :| Best(cs, name, rank, v) && Best(cs, name, rank, w) && v != w;
  }

  lemma KeptOfTheSame<W(!new)>(cs: seq<(string, W)>, others: seq<(string, W)>, name: string, rank: W -> int, ties: bool)
    requires multiset(others) == multiset(cs)
    requires OneBest(cs, name, rank)
    ensures Kept(others, name, rank, ties) == Kept(cs, name, rank, ties)
  {
    hide Kept;
    KeptIsBest(cs, name, rank, ties);
    KeptIsBest(others, name, rank, ties);
    assert forall c :: c in cs <==> c in multiset(cs);
    assert forall c :: c in others <==> c in multiset(others);
    var kept := Kept(others, name, rank, ties);
    if kept.Some? {
      assert (name, kept.value) in cs;
      assert Best(cs, name, rank, kept.value);
    }
  }

  /** A scan order in which `w`, one of the best, is the one kept. */
  ghost function Preferring<W>(cs: seq<(string, W)>, name: string, rank: W -> int, ties: bool, w: W)
    : (others: seq<(string, W)>)
    requires Best(cs, name, rank, w)
    ensures multiset(others) == multiset(cs)
    ensures Kept(others, name, rank, ties) == Some(w)
  {
    var i :| 0 <= i < |cs| && cs[i] == (name, w);
    var rest := cs[..i] + cs[i + 1..];
    assert cs == cs[..i] + [cs[i]] + cs[i + 1..];
    assert forall c :: c in rest ==> c in cs;
    if ties then
      KeptLast(rest, name, rank, w);
      rest + [(name, w)]
    else
      KeptFirst(rest, name, rank, w);
      [(name, w)] + rest
  }

  lemma KeptLast<W>(rest: seq<(string, W)>, name: string, rank: W -> int, w: W)
    requires forall c :: c in rest && c.0 == name ==> rank(c.1) <= rank(w)
    ensures Kept(rest + [(name, w)], name, rank, true) == Some(w)
  {
    KeptIsBest(rest, name, rank, true);
  }

  lemma {:induction false} KeptFirst<W>(rest: seq<(string, W)>, name: string, rank: W -> int, w: W)
    requires forall c :: c in rest && c.0 == name ==> rank(c.1) <= rank(w)
    ensures Kept([(name, w)] + rest, name, rank, false) == Some(w)
  {
    var cs := [(name, w)] + rest;
    if rest != [] {
      var last := |rest| - 1;
      assert cs[..|cs| - 1] == [(name, w)] + rest[..last];
      assert rest[last] in rest && forall c :: c in rest[..last] ==> c in rest;
      KeptFirst(rest[..last], name, rank, w);
    }
  }

  /** The reading states an output maximum, and no other reading of the name states a smaller one. */
  predicate StatesLeastOutput(cs: seq<(string, ServedWindow)>, name: string, w: ServedWindow) {
    && w.maxOutputTokens.Some?
    && forall c :: c in cs && c.0 == name && c.1.maxOutputTokens.Some? ==>
         w.maxOutputTokens.value <= c.1.maxOutputTokens.value
  }

  /** The narrowest window is kept with its own output maximum: in every scan order what is kept states the least one if
      and only if each reading with the narrowest window states it. */
  lemma OutputIsLeastIff(cs: seq<(string, ServedWindow)>, name: string)
    ensures (forall others | multiset(others) == multiset(cs) && Kept(others, name, Narrowness, false).Some? ::
               StatesLeastOutput(cs, name, Kept(others, name, Narrowness, false).value))
            <==> (forall w :: Best(cs, name, Narrowness, w) ==> StatesLeastOutput(cs, name, w))
  {
    hide Kept, Best, StatesLeastOutput;
    if forall w :: Best(cs, name, Narrowness, w) ==> StatesLeastOutput(cs, name, w) {
      forall others | multiset(others) == multiset(cs) && Kept(others, name, Narrowness, false).Some?
        ensures StatesLeastOutput(cs, name, Kept(others, name, Narrowness, false).value)
      {
        BestOfTheSame(cs, others, name, Narrowness, false);
      }
    } else {
      var w :| Best(cs, name, Narrowness, w) && !StatesLeastOutput(cs, name, w);
      var others := SomeOrderKeeps(cs, name, Narrowness, false, w);
      assert !StatesLeastOutput(cs, name, Kept(others, name, Narrowness, false).value);
    }
  }

  lemma SomeOrderKeeps<W>(cs: seq<(string, W)>, name: string, rank: W -> int, ties: bool, w: W)
    returns (others: seq<(string, W)>)
    requires Best(cs, name, rank, w)
    ensures multiset(others) == multiset(cs) && Kept(others, name, rank, ties) == Some(w)
  {
    hide Kept, Best;
    others := Preferring(cs, name, rank, ties, w);
  }

  lemma BestOfTheSame<W>(cs: seq<(string, W)>, others: seq<(string, W)>, name: string, rank: W -> int, ties: bool)
    requires multiset(others) == multiset(cs)
    ensures var kept := Kept(others, name, rank, ties); kept.Some? ==> Best(cs, name, rank, kept.value)
  {
    hide Kept;
    KeptIsBest(others, name, rank, ties);
    assert forall c :: c in cs <==> c in multiset(cs);
    assert forall c :: c in others <==> c in multiset(others);
  }
}
