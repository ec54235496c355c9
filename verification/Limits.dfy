/** Which published token limits belong to a model, scripts/bake-model-index.py. */
module Limits {
  import opened Text

  /** A value of the catalogue: a number is what its decimal spelling denotes. */
  datatype Value = Absent | Flag(b: bool) | Number(n: real) | Other

  datatype Mode = NoMode | Named(name: string) | OddMode

  datatype Facts = Facts(mode: Mode, window: Value, output: Value)

  datatype Hit = Hit(key: string, facts: Facts)

  const VENDORS: seq<string> := [
    "", "openai/", "anthropic/", "gemini/", "azure/", "azure_ai/",
    "vertex_ai/", "xai/", "mistral/", "deepseek/", "cohere/", "groq/"]

  // ---------------------------------------------------------------- agreement

  /** Python's `int`, which drops the fraction towards zero. */
  function Truncated(n: real): int {
    if n >= 0.0 then n.Floor else -(-n).Floor
  }

  function Whole(v: Value): Option<nat> {
    if !v.Number? then None
    else
      var number := Truncated(v.n);
      if number as real == v.n && number > 0 then Some(number) else None
  }

  /** A token count is exactly a positive number with no fraction, however it is spelled. */
  lemma WholeIff(v: Value, n: nat)
    ensures Whole(v) == Some(n) <==> v == Number(n as real) && n > 0
  {
    if v == Number(n as real) {
      assert v.n.Floor == n;
    }
  }

  function Windows(rows: seq<Facts>): set<nat> {
    set r | r in rows && Whole(r.window).Some? :: Whole(r.window).value
  }

  function Outputs(rows: seq<Facts>): set<nat> {
    set r | r in rows && Whole(r.output).Some? :: Whole(r.output).value
  }

  datatype Agreement = Disagree | Silent | Agree(window: Option<nat>, output: Option<nat>)

  lemma AtMostOneIff(s: set<nat>)
    ensures |s| <= 1 <==> forall a, b :: a in s && b in s ==> a == b
  {
    if s != {} {
      var a :| a in s;
      if |s| <= 1 {
        assert |s - {a}| == |s| - 1;
        forall b | b in s
          ensures a == b
        {
          assert b !in s - {a};
        }
      } else {
        assert |s - {a}| > 0;
        var b :| b in s - {a};
      }
    }
  }

  /** `set.pop` where there is at most one thing to take. */
  function Pop(s: set<nat>): (r: Option<nat>)
    requires |s| <= 1
    ensures forall n :: r == Some(n) <==> n in s
  {
    AtMostOneIff(s);
    if s == {} then None
    else
      var n :| n in s;
      Some(n)
  }

  function Agreed(rows: seq<Facts>): Agreement {
    var windows, outputs := Windows(rows), Outputs(rows);
    if |windows| > 1 || |outputs| > 1 then Disagree
    else if windows == {} && outputs == {} then Silent
    else Agree(Pop(windows), Pop(outputs))
  }

  // ---------------------------------------------------------------- the vendor's figures

  datatype Why = Vendor(name: string) | Unanimous | Conflict | Unmatched | Exact(why: Why) | Effort(why: Why)

  datatype Answer = Answer(window: Option<nat>, maximum: Option<nat>, why: Why)

  const NO_LIMIT: Answer := Answer(None, None, Conflict)

  /** Whether a key is spelled as `vendor`'s own, with `lower` as `str.lower`. */
  predicate Spelled(lower: string -> string, vendor: string, key: string) {
    if vendor == "" then '/' !in key else StartsWith(lower(key), vendor)
  }

  function Tier(lower: string -> string, vendor: string, hits: seq<Hit>): seq<Facts> {
    if hits == [] then []
    else
      (if Spelled(lower, vendor, hits[0].key) then [hits[0].facts] else []) + Tier(lower, vendor, hits[1..])
  }

  function AllFacts(hits: seq<Hit>): (rows: seq<Facts>)
    ensures |rows| == |hits| && forall i :: 0 <= i < |hits| ==> rows[i] == hits[i].facts
  {
    seq(|hits|, i requires 0 <= i < |hits| => hits[i].facts)
  }

  /** The answer when the tiers before `v` are passed over. */
  function FromTier(lower: string -> string, hits: seq<Hit>, v: nat): Answer
    requires v <= |VENDORS|
    decreases |VENDORS| - v
  {
    if v == |VENDORS| then
      var figures := Agreed(AllFacts(hits));
      if figures.Agree? then Answer(figures.window, figures.output, Unanimous) else NO_LIMIT
    else
      match Agreed(Tier(lower, VENDORS[v], hits))
      case Disagree => NO_LIMIT
      case Agree(window, output) => Answer(window, output, Vendor(VENDORS[v]))
      case Silent => FromTier(lower, hits, v + 1)
  }

  method LimitsFor(lower: string -> string, hits: seq<Hit>) returns (answer: Answer)
    ensures answer == FromTier(lower, hits, 0)
  {
    hide Agreed, Tier;
    for v := 0 to |VENDORS|
      invariant FromTier(lower, hits, 0) == FromTier(lower, hits, v)
    {
      var tier := Tier(lower, VENDORS[v], hits);
      if tier == [] {
        NobodySaysNothing();
        continue;
      }
      var figures := Agreed(tier);
      if figures == Disagree {
        return NO_LIMIT;
      }
      if figures.Agree? {
        return Answer(figures.window, figures.output, Vendor(VENDORS[v]));
      }
    }
    var figures := Agreed(AllFacts(hits));
    if figures.Agree? {
      return Answer(figures.window, figures.output, Unanimous);
    }
    return NO_LIMIT;
  }

  lemma NobodySaysNothing()
    ensures Agreed([]) == Silent
  {
  }

  // ---------------------------------------------------------------- what the answer means

  /** `w` is a window, and `o` a maximum, that some row states. */
  predicate StatesWindow(rows: seq<Facts>, w: nat) {
    exists r :: r in rows && Whole(r.window) == Some(w)
  }

  predicate StatesOutput(rows: seq<Facts>, o: nat) {
    exists r :: r in rows && Whole(r.output) == Some(o)
  }

  ghost predicate Publishes(rows: seq<Facts>) {
    (exists w :: StatesWindow(rows, w)) || (exists o :: StatesOutput(rows, o))
  }

  ghost predicate Consistent(rows: seq<Facts>) {
    && (forall w, v :: StatesWindow(rows, w) && StatesWindow(rows, v) ==> w == v)
    && (forall o, p :: StatesOutput(rows, o) && StatesOutput(rows, p) ==> o == p)
  }

  /** The answer carries each figure the rows state, and no other. */
  ghost predicate Carries(answer: Answer, rows: seq<Facts>) {
    && (forall w: nat :: answer.window == Some(w) <==> StatesWindow(rows, w))
    && (forall o: nat :: answer.maximum == Some(o) <==> StatesOutput(rows, o))
  }

  lemma AgreedMeans(rows: seq<Facts>)
    ensures Agreed(rows) == Silent <==> !Publishes(rows)
    ensures Agreed(rows) == Disagree <==> !Consistent(rows)
    ensures var a := Agreed(rows); a.Agree? ==> Carries(Answer(a.window, a.output, Unanimous), rows)
  {
    var windows, outputs := Windows(rows), Outputs(rows);
    AtMostOneIff(windows);
    AtMostOneIff(outputs);
    assert forall w :: w in windows <==> StatesWindow(rows, w);
    assert forall o :: o in outputs <==> StatesOutput(rows, o);
    hide StatesWindow, StatesOutput, Windows, Outputs;
    assert windows == {} <==> !exists w :: StatesWindow(rows, w);
    assert outputs == {} <==> !exists o :: StatesOutput(rows, o);
  }

  /** The first vendor in order that publishes a figure decides, and where its own rows disagree nobody does. */
  lemma {:induction false} FirstPublisherDecides(lower: string -> string, hits: seq<Hit>, v: nat, d: nat)
    requires v <= d < |VENDORS|
    requires forall e :: v <= e < d ==> !Publishes(Tier(lower, VENDORS[e], hits))
    requires Publishes(Tier(lower, VENDORS[d], hits))
    ensures var tier, answer := Tier(lower, VENDORS[d], hits), FromTier(lower, hits, v);
            if Consistent(tier) then answer.why == Vendor(VENDORS[d]) && Carries(answer, tier) else answer == NO_LIMIT
    decreases d - v
  {
    hide Tier, Agreed, Publishes, Consistent;
    AgreedMeans(Tier(lower, VENDORS[v], hits));
    if v < d {
      FirstPublisherDecides(lower, hits, v + 1, d);
    }
  }

  /** When no vendor publishes anything, the rows must speak with one voice. */
  lemma {:induction false} OthersMustBeUnanimous(lower: string -> string, hits: seq<Hit>, v: nat)
    requires v <= |VENDORS|
    requires forall e :: v <= e < |VENDORS| ==> !Publishes(Tier(lower, VENDORS[e], hits))
    ensures var rows, answer := AllFacts(hits), FromTier(lower, hits, v);
            if Publishes(rows) && Consistent(rows) then answer.why == Unanimous && Carries(answer, rows)
            else answer == NO_LIMIT
    decreases |VENDORS| - v
  {
    hide Tier, Agreed, Publishes, Consistent, AllFacts;
    if v == |VENDORS| {
      AgreedMeans(AllFacts(hits));
    } else {
      AgreedMeans(Tier(lower, VENDORS[v], hits));
      OthersMustBeUnanimous(lower, hits, v + 1);
    }
  }

  // ---------------------------------------------------------------- order and lower tiers

  lemma {:induction false} TierHolds(lower: string -> string, vendor: string, hits: seq<Hit>, f: Facts)
    ensures f in Tier(lower, vendor, hits) <==> exists h :: h in hits && h.facts == f && Spelled(lower, vendor, h.key)
  {
    hide Spelled;
    if hits != [] {
      TierHolds(lower, vendor, hits[1..], f);
      assert forall h :: h in hits <==> h == hits[0] || h in hits[1..];
    }
  }

  /** The rows of a vendor: for the first, keys with no provider at all, and for the others keys that begin with theirs,
      in any case. */
  lemma TierIs(lower: string -> string, hits: seq<Hit>, d: nat, f: Facts)
    requires d < |VENDORS|
    ensures f in Tier(lower, VENDORS[d], hits) <==>
      exists h :: h in hits && h.facts == f && if d == 0 then '/' !in h.key else StartsWith(lower(h.key), VENDORS[d])
  {
    hide Tier;
    TierHolds(lower, VENDORS[d], hits, f);
    VendorsAreNamed(d);
  }

  lemma VendorsAreNamed(d: nat)
    requires d < |VENDORS|
    ensures VENDORS[d] == "" <==> d == 0
  {
  }

  lemma SameRowsAgree(rows: seq<Facts>, others: seq<Facts>)
    requires forall f :: f in rows <==> f in others
    ensures Agreed(rows) == Agreed(others)
  {
    hide Whole, Pop;
    assert Windows(rows) == Windows(others);
    assert Outputs(rows) == Outputs(others);
  }

  /** The rows of one vendor are the same in both lists. */
  predicate SameTier(lower: string -> string, vendor: string, hits: seq<Hit>, others: seq<Hit>) {
    && (forall h :: h in hits && Spelled(lower, vendor, h.key) ==> h in others)
    && (forall h :: h in others && Spelled(lower, vendor, h.key) ==> h in hits)
  }

  lemma SameTierAgrees(lower: string -> string, vendor: string, hits: seq<Hit>, others: seq<Hit>)
    requires SameTier(lower, vendor, hits, others)
    ensures Agreed(Tier(lower, vendor, hits)) == Agreed(Tier(lower, vendor, others))
  {
    hide Spelled, Tier, Agreed;
    forall f
      ensures f in Tier(lower, vendor, hits) <==> f in Tier(lower, vendor, others)
    {
      TierHolds(lower, vendor, hits, f);
      TierHolds(lower, vendor, others, f);
    }
    SameRowsAgree(Tier(lower, vendor, hits), Tier(lower, vendor, others));
  }

  /** Neither the order of the rows nor their repetition matters. */
  lemma {:induction false} OrderDoesNotMatter(lower: string -> string, hits: seq<Hit>, others: seq<Hit>, v: nat)
    requires v <= |VENDORS|
    requires forall h :: h in hits <==> h in others
    ensures FromTier(lower, hits, v) == FromTier(lower, others, v)
    decreases |VENDORS| - v
  {
    hide Tier, Agreed, Spelled;
    if v == |VENDORS| {
      SameFacts(hits, others);
      SameRowsAgree(AllFacts(hits), AllFacts(others));
    } else {
      SameTierAgrees(lower, VENDORS[v], hits, others);
      OrderDoesNotMatter(lower, hits, others, v + 1);
    }
  }

  lemma SameFacts(hits: seq<Hit>, others: seq<Hit>)
    requires forall h :: h in hits <==> h in others
    ensures forall f :: f in AllFacts(hits) <==> f in AllFacts(others)
  {
    forall f
      ensures f in AllFacts(hits) <==> exists h :: h in hits && h.facts == f
      ensures f in AllFacts(others) <==> exists h :: h in others && h.facts == f
    {
      FactsOfHits(hits, f);
      FactsOfHits(others, f);
    }
  }

  lemma FactsOfHits(hits: seq<Hit>, f: Facts)
    ensures f in AllFacts(hits) <==> exists h :: h in hits && h.facts == f
  {
    if f in AllFacts(hits) {
      var i :| 0 <= i < |hits| && AllFacts(hits)[i] == f;
      assert hits[i] in hits;
    }
    if h :| h in hits && h.facts == f {
      var i :| 0 <= i < |hits| && hits[i] == h;
      assert AllFacts(hits)[i] == f;
    }
  }

  /** Once a tier publishes, or contradicts itself, no row below it can change the answer. */
  lemma {:induction false} LowerTiersCannotOverride(
      lower: string -> string, hits: seq<Hit>, others: seq<Hit>, v: nat, d: nat)
    requires v <= d < |VENDORS|
    requires Publishes(Tier(lower, VENDORS[d], hits))
    requires forall e :: v <= e <= d ==> SameTier(lower, VENDORS[e], hits, others)
    ensures FromTier(lower, hits, v) == FromTier(lower, others, v)
    decreases d - v
  {
    hide Tier, Agreed, Spelled, Publishes, SameTier;
    AgreedMeans(Tier(lower, VENDORS[v], hits));
    SameTierAgrees(lower, VENDORS[v], hits, others);
    if v < d {
      LowerTiersCannotOverride(lower, hits, others, v + 1, d);
    }
  }

  // ---------------------------------------------------------------- the index

  /** One item of the limits catalogue; `None` when what stands under the key is not a table. */
  datatype Item = Item(key: string, facts: Option<Facts>)

  const CHAT_MODES: seq<Mode> := [NoMode, Named("chat"), Named("responses"), Named("completion")]

  predicate Usable(item: Item) {
    item.key != "sample_spec" && item.facts.Some? && item.facts.value.mode in CHAT_MODES
  }

  /** The part of a key after its last slash. */
  function LastPart(key: string): string {
    if '/' in key then LastPart(key[1..]) else key
  }

  function Names(normalise: string -> string, key: string): set<string> {
    {normalise(key), normalise(LastPart(key))}
  }

  /** The rows published under a name, in catalogue order. */
  function Published(normalise: string -> string, items: seq<Item>, name: string): seq<Hit> {
    if items == [] then []
    else
      var item := items[|items| - 1];
      Published(normalise, items[..|items| - 1], name)
      + if Usable(item) && name in Names(normalise, item.key) then [Hit(item.key, item.facts.value)] else []
  }

  ghost predicate Indexes(normalise: string -> string, items: seq<Item>, index: map<string, seq<Hit>>) {
    forall name :: RowsUnder(index, name) == Published(normalise, items, name)
  }

  function RowsUnder(index: map<string, seq<Hit>>, name: string): seq<Hit> {
    if name in index then index[name] else []
  }

  method LimitsIndex(normalise: string -> string, items: seq<Item>) returns (index: map<string, seq<Hit>>)
    ensures Indexes(normalise, items, index)
  {
    hide LastPart, Names, RowsUnder, Published, CHAT_MODES;
    index := map[];
    NothingPublished(normalise, items);
    for n := 0 to |items|
      invariant Indexes(normalise, items[..n], index)
    {
      var item := items[n];
      OneMoreItem(normalise, items, n);
      if !Usable(item) {
        continue;
      }
      ghost var before := index;
      var hit := Hit(item.key, item.facts.value);
      var names := Names(normalise, item.key);
      while names != {}
        invariant names <= Names(normalise, item.key)
        invariant forall name ::
                    RowsUnder(index, name) == RowsUnder(before, name)
                      + if name in Names(normalise, item.key) && name !in names then [hit] else []
      {
        var candidate :| candidate in names;
        RowsAppended(index, candidate, hit);
        index := index[candidate := RowsUnder(index, candidate) + [hit]];
        names := names - {candidate};
      }
    }
    assert items[..|items|] == items;
  }

  lemma NothingPublished(normalise: string -> string, items: seq<Item>)
    ensures Indexes(normalise, items[..0], map[])
  {
  }

  lemma OneMoreItem(normalise: string -> string, items: seq<Item>, n: nat)
    requires n < |items|
    ensures forall name :: Published(normalise, items[..n + 1], name)
                           == Published(normalise, items[..n], name)
                              + if Usable(items[n]) && name in Names(normalise, items[n].key)
                                then [Hit(items[n].key, items[n].facts.value)] else []
  {
    hide Names, CHAT_MODES;
    assert items[..n + 1][..n] == items[..n];
  }

  lemma RowsAppended(index: map<string, seq<Hit>>, name: string, hit: Hit)
    ensures var more := index[name := RowsUnder(index, name) + [hit]];
            forall n :: RowsUnder(more, n) == RowsUnder(index, n) + if n == name then [hit] else []
  {
  }

  // ---------------------------------------------------------------- one model's limits

  const EFFORTS: seq<string> := ["-non-reasoning", "-xhigh", "-high", "-medium", "-low", "-minimal"]

  function Without(key: string, e: nat): string
    requires e <= |EFFORTS|
    decreases |EFFORTS| - e
  {
    if e == |EFFORTS| then key
    else if EndsWith(key, EFFORTS[e]) then key[..|key| - |EFFORTS[e]|]
    else Without(key, e + 1)
  }

  function Told(answer: Answer, exact: bool): Answer {
    if answer.window == None && answer.maximum == None then answer
    else answer.(why := if exact then Exact(answer.why) else Effort(answer.why))
  }

  /** What the index says of a model: under its own name, else under the name without its effort word. */
  function Limited(lower: string -> string, index: map<string, seq<Hit>>, key: string): Answer {
    var exact, base := RowsUnder(index, key), RowsUnder(index, Without(key, 0));
    if exact != [] then Told(FromTier(lower, exact, 0), true)
    else if base != [] then Told(FromTier(lower, base, 0), false)
    else Answer(None, None, Unmatched)
  }

  method LimitsOf(lower: string -> string, normalise: string -> string, slug: string, index: map<string, seq<Hit>>)
    returns (answer: Answer)
    ensures answer == Limited(lower, index, normalise(slug))
  {
    hide FromTier, EndsWith;
    var key := normalise(slug);
    var hits := RowsUnder(index, key);
    var exact := true;
    if hits == [] {
      var base := key;
      for e := 0 to |EFFORTS|
        invariant base == key
        invariant Without(key, 0) == Without(key, e)
      {
        if EndsWith(base, EFFORTS[e]) {
          EffortIsWhole(base, e);
          base := base[..|base| - |EFFORTS[e]|];
          break;
        }
      }
      if base != key {
        hits := RowsUnder(index, base);
        exact := false;
      }
    }
    if hits == [] {
      return Answer(None, None, Unmatched);
    }
    answer := LimitsFor(lower, hits);
    if answer.window == None && answer.maximum == None {
      return answer;
    }
    answer := answer.(why := if exact then Exact(answer.why) else Effort(answer.why));
  }

  lemma EffortIsWhole(key: string, e: nat)
    requires e < |EFFORTS| && EndsWith(key, EFFORTS[e])
    ensures 0 < |EFFORTS[e]| <= |key|
  {
  }

  /** No name ends in two effort words, so the order they are tried in decides nothing. */
  lemma EffortIsUnambiguous(key: string, e: nat)
    requires e < |EFFORTS| && EndsWith(key, EFFORTS[e])
    ensures Without(key, 0) + EFFORTS[e] == key
  {
    forall d | 0 <= d < e
      ensures !EndsWith(key, EFFORTS[d])
    {
      DifferentEffort(key, d, e);
    }
    FirstEffort(key, 0, e);
  }

  lemma DifferentEffort(key: string, d: nat, e: nat)
    requires d < e < |EFFORTS| && EndsWith(key, EFFORTS[e])
    ensures !EndsWith(key, EFFORTS[d])
  {
    assert EFFORTS[1][|EFFORTS[1]| - 5] == 'x' && EFFORTS[2][|EFFORTS[2]| - 5] == '-';
    if EndsWith(key, EFFORTS[d]) {
      EndsAlike(key, EFFORTS[d], EFFORTS[e], 1);
      EndsAlike(key, EFFORTS[d], EFFORTS[e], 5);
    }
  }

  lemma EndsAlike(key: string, a: string, b: string, i: nat)
    requires EndsWith(key, a) && EndsWith(key, b) && 0 < i <= |a| && i <= |b|
    ensures a[|a| - i] == b[|b| - i]
  {
    assert key[|key| - |a|..][|a| - i] == key[|key| - i] == key[|key| - |b|..][|b| - i];
  }

  lemma {:induction false} FirstEffort(key: string, d: nat, e: nat)
    requires d <= e < |EFFORTS| && EndsWith(key, EFFORTS[e])
    requires forall c :: d <= c < e ==> !EndsWith(key, EFFORTS[c])
    ensures Without(key, d) + EFFORTS[e] == key
    decreases e - d
  {
    hide EFFORTS;
    if d < e {
      FirstEffort(key, d + 1, e);
    }
  }

  // ---------------------------------------------------------------- no figure is invented

  /** An item for a conversational model that the catalogue lists under `name`. */
  predicate Lists(normalise: string -> string, items: seq<Item>, name: string, item: Item) {
    item in items && Usable(item) && name in Names(normalise, item.key)
  }

  lemma {:induction false} PublishedIsListed(normalise: string -> string, items: seq<Item>, name: string, h: Hit)
    requires h in Published(normalise, items, name)
    ensures Lists(normalise, items, name, Item(h.key, Some(h.facts)))
  {
    hide Names, CHAT_MODES;
    var rest := items[..|items| - 1];
    if h in Published(normalise, rest, name) {
      PublishedIsListed(normalise, rest, name, h);
    }
  }

  /** Every figure of an answer stands in one of the rows it was drawn from. */
  lemma {:induction false} FiguresAreFound(lower: string -> string, hits: seq<Hit>, v: nat)
    requires v <= |VENDORS|
    ensures var answer := FromTier(lower, hits, v);
            && (answer.window.Some? ==> exists h :: h in hits && Whole(h.facts.window) == answer.window)
            && (answer.maximum.Some? ==> exists h :: h in hits && Whole(h.facts.output) == answer.maximum)
    decreases |VENDORS| - v
  {
    hide Tier, Agreed, Spelled, AllFacts, Whole;
    var rows := if v == |VENDORS| then AllFacts(hits) else Tier(lower, VENDORS[v], hits);
    AgreedMeans(rows);
    if Agreed(rows).Silent? {
      if v < |VENDORS| {
        FiguresAreFound(lower, hits, v + 1);
      }
    } else {
      forall f | f in rows
        ensures exists h :: h in hits && h.facts == f
      {
        if v == |VENDORS| {
          FactsOfHits(hits, f);
        } else {
          TierHolds(lower, VENDORS[v], hits, f);
        }
      }
    }
  }

  /** Every figure a model is given comes from an item for a conversational model, listed under the model's own name
      or, only when nothing is listed there, under that name without its effort word. */
  lemma EveryFigureIsPublished(
      lower: string -> string, normalise: string -> string, items: seq<Item>, index: map<string, seq<Hit>>, key: string)
    requires Indexes(normalise, items, index)
    ensures var answer := Limited(lower, index, key);
            var name := if Published(normalise, items, key) != [] then key else Without(key, 0);
            && (answer.window.Some? ==> exists item: Item :: Lists(normalise, items, name, item)
                                          && Whole(item.facts.value.window) == answer.window)
            && (answer.maximum.Some? ==> exists item: Item :: Lists(normalise, items, name, item)
                                           && Whole(item.facts.value.output) == answer.maximum)
  {
    hide Usable, Names, FromTier, Published, Without, Whole, RowsUnder, Lists;
    var name := if Published(normalise, items, key) != [] then key else Without(key, 0);
    var hits := RowsUnder(index, name);
    assert RowsUnder(index, key) == Published(normalise, items, key);
    assert hits == Published(normalise, items, name);
    FiguresAreFound(lower, hits, 0);
    forall h | h in hits
      ensures Lists(normalise, items, name, Item(h.key, Some(h.facts)))
    {
      PublishedIsListed(normalise, items, name, h);
    }
  }

  // ---------------------------------------------------------------- every listed item counts

  lemma {:induction false} LastPartIs(key: string)
    ensures var last := LastPart(key);
            '/' !in last && (last == key || EndsWith(key, "/" + last))
    ensures '/' !in key ==> LastPart(key) == key
  {
    if '/' in key {
      LastPartIs(key[1..]);
      var rest := key[1..];
      var last := LastPart(rest);
      assert last == rest ==> '/' !in rest;
      if last == rest {
        assert key[0] == '/' && key == "/" + last;
      } else {
        assert key[|key| - |last| - 1..] == rest[|rest| - |last| - 1..];
      }
    }
  }

  /** The part of a key after its last slash is the only one without a slash that follows one. */
  lemma LastPartIff(key: string, tail: string)
    requires '/' !in tail
    ensures '/' in key ==> (tail == LastPart(key) <==> EndsWith(key, "/" + tail))
  {
    hide LastPart, EndsWith;
    LastPartIs(key);
    var last := LastPart(key);
    if '/' in key && EndsWith(key, "/" + tail) {
      assert EndsWith(key, "/" + last);
      NoShorter(key, tail, last);
      NoShorter(key, last, tail);
      SlashAt(key, tail);
      SlashAt(key, last);
    }
  }

  lemma NoShorter(key: string, a: string, b: string)
    requires EndsWith(key, "/" + a) && EndsWith(key, "/" + b) && '/' !in b
    ensures |a| >= |b|
  {
    hide EndsWith;
    if |a| < |b| {
      SlashAt(key, b);
      var i := |b| - |a| - 1;
      assert b[i] in b && b[i] == key[|key| - |b| + i];
      SlashAt(key, a);
    }
  }

  lemma SlashAt(key: string, tail: string)
    requires EndsWith(key, "/" + tail)
    ensures |tail| < |key| && key[|key| - |tail| - 1] == '/' && key[|key| - |tail|..] == tail
  {
    var whole := key[|key| - |tail| - 1..];
    assert whole == "/" + tail;
    assert whole[0] == key[|key| - |tail| - 1] && whole[1..] == key[|key| - |tail|..];
  }

  /** A row of the catalogue that describes a conversational model. */
  predicate Conversational(item: Item) {
    && item.key != "sample_spec" && item.facts.Some?
    && (item.facts.value.mode.NoMode?
        || (item.facts.value.mode.Named? && item.facts.value.mode.name in ["chat", "responses", "completion"]))
  }

  /** It goes by its whole key, and by what follows the last slash of it. */
  ghost predicate GoesBy(normalise: string -> string, key: string, name: string) {
    name == normalise(key) || exists tail :: '/' !in tail && EndsWith(key, "/" + tail) && name == normalise(tail)
  }

  lemma UsableIff(item: Item)
    ensures Usable(item) <==> Conversational(item)
  {
    if item.facts.Some? {
      var mode := item.facts.value.mode;
      assert mode in CHAT_MODES <==>
        mode == CHAT_MODES[0] || mode == CHAT_MODES[1] || mode == CHAT_MODES[2] || mode == CHAT_MODES[3];
      var names := ["chat", "responses", "completion"];
      assert mode.Named? ==>
        (mode.name in names <==> mode.name == names[0] || mode.name == names[1] || mode.name == names[2]);
    }
  }

  lemma NamesIff(normalise: string -> string, key: string, name: string)
    ensures name in Names(normalise, key) <==> GoesBy(normalise, key, name)
  {
    hide LastPart, EndsWith;
    LastPartIs(key);
    forall tail | '/' !in tail
      ensures EndsWith(key, "/" + tail) ==> tail == LastPart(key)
    {
      LastPartIff(key, tail);
      if EndsWith(key, "/" + tail) {
        SlashAt(key, tail);
      }
    }
  }

  /** Item `i` is listed under the name. */
  ghost predicate ListedAt(normalise: string -> string, items: seq<Item>, name: string, i: nat) {
    i < |items| && Conversational(items[i]) && GoesBy(normalise, items[i].key, name)
  }

  /** `at` are the places of the items listed under the name, in order, and `hits` their rows. */
  ghost predicate AreRows(
      normalise: string -> string, items: seq<Item>, name: string, at: seq<nat>, hits: seq<Hit>) {
    && |at| == |hits|
    && (forall k, l :: 0 <= k < l < |at| ==> at[k] < at[l])
    && (forall k :: 0 <= k < |at| ==> ListedAt(normalise, items, name, at[k]) && IsRow(items, at[k], hits[k]))
    && (forall i: nat :: ListedAt(normalise, items, name, i) ==> i in at)
  }

  predicate IsRow(items: seq<Item>, i: nat, hit: Hit) {
    i < |items| && items[i].facts.Some? && hit == Hit(items[i].key, items[i].facts.value)
  }

  /** One more item. */
  lemma RowsOn(
      normalise: string -> string, items: seq<Item>, n: nat, name: string, at: seq<nat>, hits: seq<Hit>)
    requires n < |items| && AreRows(normalise, items[..n], name, at, hits)
    ensures ListedAt(normalise, items, name, n)
            ==> items[n].facts.Some?
                && AreRows(normalise, items[..n + 1], name, at + [n], hits + [Hit(items[n].key, items[n].facts.value)])
    ensures !ListedAt(normalise, items, name, n) ==> AreRows(normalise, items[..n + 1], name, at, hits)
  {
    hide Conversational, GoesBy;
    UsableHasFacts(items[n]);
    var before, now := items[..n], items[..n + 1];
    forall i: nat
      ensures i < n ==> (ListedAt(normalise, before, name, i) <==> ListedAt(normalise, now, name, i))
      ensures i >= n ==> (ListedAt(normalise, now, name, i) <==> i == n && ListedAt(normalise, items, name, n))
    {
    }
    forall i: nat | ListedAt(normalise, now, name, i)
      ensures i in at + [n]
      ensures i in at || i == n
    {
      assert i < n ==> i in at;
    }
  }

  /** Under a name stand the rows of exactly the conversational items that go by it, each once, in the catalogue's
      order. */
  lemma {:induction false} PublishedAre(normalise: string -> string, items: seq<Item>, name: string)
    returns (at: seq<nat>)
    ensures AreRows(normalise, items, name, at, Published(normalise, items, name))
  {
    hide Usable, Names, Conversational, GoesBy, AreRows;
    if items == [] {
      at := [];
      NoRows(normalise, name);
    } else {
      var n := |items| - 1;
      at := PublishedAre(normalise, items[..n], name);
      UsableIff(items[n]);
      NamesIff(normalise, items[n].key, name);
      RowsOn(normalise, items, n, name, at, Published(normalise, items[..n], name));
      assert items[..n + 1] == items;
      var before := Published(normalise, items[..n], name);
      if ListedAt(normalise, items, name, n) {
        assert Published(normalise, items, name) == before + [Hit(items[n].key, items[n].facts.value)];
        at := at + [n];
      } else {
        assert Published(normalise, items, name) == before;
      }
    }
  }

  lemma NoRows(normalise: string -> string, name: string)
    ensures AreRows(normalise, [], name, [], [])
  {
  }

  lemma UsableHasFacts(item: Item)
    ensures Conversational(item) ==> item.facts.Some?
  {
  }

  /** The figures of `drawn`, marked with how they were come by when there are any. */
  predicate Labelled(answer: Answer, drawn: Answer, exact: bool) {
    && answer.window == drawn.window && answer.maximum == drawn.maximum
    && answer.why == if drawn.window.None? && drawn.maximum.None? then drawn.why
                     else if exact then Exact(drawn.why) else Effort(drawn.why)
  }

  lemma {:induction false} NoEffort(key: string, e: nat)
    requires e <= |EFFORTS| && forall d :: e <= d < |EFFORTS| ==> !EndsWith(key, EFFORTS[d])
    ensures Without(key, e) == key
    decreases |EFFORTS| - e
  {
    hide EFFORTS;
    if e < |EFFORTS| {
      NoEffort(key, e + 1);
    }
  }

  lemma EffortEnds(key: string, base: string, e: nat)
    requires e < |EFFORTS| && key == base + EFFORTS[e]
    ensures Without(key, 0) == base
  {
    hide Without;
    assert key[|key| - |EFFORTS[e]|..] == EFFORTS[e];
    EffortIsUnambiguous(key, e);
    var found := Without(key, 0);
    assert |found| == |base|;
    assert found == (found + EFFORTS[e])[..|found|] && base == key[..|base|];
  }

  lemma EndsAfter(key: string, suffix: string)
    requires EndsWith(key, suffix)
    ensures key == key[..|key| - |suffix|] + suffix
  {
  }

  /** What a model is told: by the rows under its own name when there are any; else by those under the name without the
      effort word it ends in; and it is unmatched when there are none under either. */
  lemma LimitedIs(
      lower: string -> string, normalise: string -> string, items: seq<Item>, index: map<string, seq<Hit>>, key: string)
    requires Indexes(normalise, items, index)
    ensures var own, answer := Published(normalise, items, key), Limited(lower, index, key);
            && (own != [] ==> Labelled(answer, FromTier(lower, own, 0), true))
            && (own == [] ==> forall e: nat, base :: e < |EFFORTS| && key == base + EFFORTS[e] ==>
                  var rows := Published(normalise, items, base);
                  if rows != [] then Labelled(answer, FromTier(lower, rows, 0), false)
                  else answer == Answer(None, None, Unmatched))
            && ((own == [] && forall e: nat, base :: e < |EFFORTS| ==> key != base + EFFORTS[e])
                ==> answer == Answer(None, None, Unmatched))
  {
    hide Published, FromTier, Without, EFFORTS, RowsUnder;
    assert RowsUnder(index, key) == Published(normalise, items, key);
    assert RowsUnder(index, Without(key, 0)) == Published(normalise, items, Without(key, 0));
    forall e: nat, base | e < |EFFORTS| && key == base + EFFORTS[e]
      ensures Without(key, 0) == base
    {
      EffortEnds(key, base, e);
    }
    if forall e: nat, base :: e < |EFFORTS| ==> key != base + EFFORTS[e] {
      forall d | 0 <= d < |EFFORTS|
        ensures !EndsWith(key, EFFORTS[d])
      {
        if EndsWith(key, EFFORTS[d]) {
          EndsAfter(key, EFFORTS[d]);
        }
      }
      NoEffort(key, 0);
    }
  }
}
