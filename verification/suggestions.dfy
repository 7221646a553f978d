/** The model picker's suggestions: known models are ranked, and a greedy pass over the ranking keeps
    one model per canonical identity and a few per provider and discovery bucket. */
module Suggestions {
  import opened Sorting
  import opened Text

  datatype Compatibility = Supported | Unverified | Unsupported

  datatype Availability = Available | Unknown | Unavailable | Retired

  /** A catalog row; a time of zero stands for an absent or unusable one. */
  datatype Model = Model(
    value: string, provider: string, canonicalId: Option<string>, compatibility: Compatibility,
    availability: Availability, deprecated: bool, preview: bool, releasedAt: nat, firstSeen: nat)

  /** What the payload is asked for: the chosen model, the recently used ones, the bundled catalog. */
  datatype Request = Request(selected: string, recent: seq<string>, bundled: set<string>)

  datatype Bucket = Released | Bundled | Discovered

  // ---------- rows ----------

  ghost predicate DistinctValues(rows: seq<Model>) {
    forall i, j :: 0 <= i < j < |rows| ==> rows[i].value != rows[j].value
  }

  predicate Listed(rows: seq<Model>, value: string) {
    exists i :: 0 <= i < |rows| && rows[i].value == value
  }

  function CustomRow(value: string, provider: string): Model {
    Model(value, provider, None, Unverified, Unknown, false, false, 0, 0)
  }

  /** Chosen models missing from the catalog get a row of their own. */
  function WithChoices(rows: seq<Model>, choices: seq<string>, providerFor: string -> string): seq<Model>
    decreases |choices|
  {
    if choices == [] then rows
    else if choices[0] == "" || Listed(rows, choices[0]) then WithChoices(rows, choices[1..], providerFor)
    else WithChoices(rows + [CustomRow(choices[0], providerFor(choices[0]))], choices[1..], providerFor)
  }

  predicate Offered(q: Request, m: Model) {
    m.compatibility != Unsupported || m.value == q.selected
  }

  function Filter<T>(p: T -> bool, xs: seq<T>): seq<T> {
    if xs == [] then [] else if p(xs[0]) then [xs[0]] + Filter(p, xs[1..]) else Filter(p, xs[1..])
  }

  predicate ByProvider(a: Model, b: Model) {
    if a.provider == b.provider then StringLe(a.value, b.value) else StringLe(a.provider, b.provider)
  }

  function Models(q: Request, rows: seq<Model>, providerFor: string -> string): seq<Model> {
    Sort(ByProvider, Filter((m: Model) => Offered(q, m), WithChoices(rows, [q.selected] + q.recent, providerFor)))
  }

  // ---------- the ranking ----------

  function IndexIn(xs: seq<string>, x: string): nat {
    if xs == [] || xs[0] == x then 0 else 1 + IndexIn(xs[1..], x)
  }

  function Bit(b: bool): int {
    if b then 1 else 0
  }

  /** The rank, smaller first, up to the model's value. */
  function Rank(q: Request, m: Model): seq<int> {
    [Bit(m.value != q.selected), IndexIn(q.recent, m.value), Bit(m.releasedAt == 0), Bit(m.value !in q.bundled),
     Bit(m.preview), -(if m.releasedAt != 0 then m.releasedAt else m.firstSeen), Bit(m.compatibility != Supported)]
  }

  predicate IntsLe(a: seq<int>, b: seq<int>) {
    if a == [] then true
    else if b == [] then false
    else if a[0] == b[0] then IntsLe(a[1..], b[1..])
    else a[0] < b[0]
  }

  predicate RankLe(q: Request, a: Model, b: Model) {
    if Rank(q, a) == Rank(q, b) then StringLe(a.value, b.value) else IntsLe(Rank(q, a), Rank(q, b))
  }

  function Ranking(q: Request): (Model, Model) -> bool {
    (a: Model, b: Model) => RankLe(q, a, b)
  }

  function Ranked(q: Request, models: seq<Model>): seq<Model> {
    Sort(Ranking(q), models)
  }

  // ---------- the greedy pass ----------

  function Identity(m: Model): (string, string) {
    (m.provider, RemovePrefix(if m.canonicalId.Some? then m.canonicalId.value else m.value, m.provider + "/"))
  }

  function BucketOf(q: Request, m: Model): Bucket {
    if m.releasedAt != 0 then Released else if m.value in q.bundled then Bundled else Discovered
  }

  function Group(q: Request, m: Model): (string, Bucket) {
    (m.provider, BucketOf(q, m))
  }

  function Cap(bucket: Bucket): nat {
    if bucket == Released then 3 else 2
  }

  predicate Pinned(q: Request, m: Model) {
    m.value == q.selected || m.value in q.recent
  }

  const PROVIDERS: set<string> := {"openai", "anthropic", "gemini", "portkey"}

  /** Nothing about the model itself rules it out. */
  predicate Eligible(q: Request, m: Model) {
    && (m.value == q.selected || (m.availability != Retired && m.availability != Unavailable && !m.deprecated))
    && (Pinned(q, m) || (m.provider in PROVIDERS && (BucketOf(q, m) == Discovered ==> m.firstSeen != 0)))
  }

  /** How many unpinned models of a group a list holds. */
  function InGroup(q: Request, s: seq<Model>, group: (string, Bucket)): nat {
    if s == [] then 0
    else InGroup(q, Front(s), group) + if !Pinned(q, Last(s)) && Group(q, Last(s)) == group then 1 else 0
  }

  predicate HasIdentity(s: seq<Model>, identity: (string, string)) {
    exists i :: 0 <= i < |s| && Identity(s[i]) == identity
  }

  /** There is room for a model behind the ones taken so far. */
  predicate Room(q: Request, taken: seq<Model>, m: Model) {
    && !HasIdentity(taken, Identity(m))
    && (Pinned(q, m) || InGroup(q, taken, Group(q, m)) < Cap(BucketOf(q, m)))
  }

  function Suggested(q: Request, ranked: seq<Model>): seq<Model> {
    if ranked == [] then []
    else
      var taken := Suggested(q, Front(ranked));
      if Eligible(q, Last(ranked)) && Room(q, taken, Last(ranked)) then taken + [Last(ranked)] else taken
  }

  type Counts = map<(string, Bucket), nat>

  function CountOf(counts: Counts, group: (string, Bucket)): nat {
    if group in counts then counts[group] else 0
  }

  /** The loop's set and counters describe what was taken. */
  ghost predicate Tracks(q: Request, taken: seq<Model>, counts: Counts, canonical: set<(string, string)>) {
    && (forall identity :: identity in canonical <==> HasIdentity(taken, identity))
    && (forall group :: CountOf(counts, group) == InGroup(q, taken, group))
  }

  lemma TracksStep(q: Request, taken: seq<Model>, counts: Counts, canonical: set<(string, string)>, m: Model)
    requires Tracks(q, taken, counts, canonical)
    ensures var more := if Pinned(q, m) then counts else counts[Group(q, m) := CountOf(counts, Group(q, m)) + 1];
      Tracks(q, taken + [m], more, canonical + {Identity(m)})
  {
    hide Identity, Group, Pinned;
    var s := taken + [m];
    assert Front(s) == taken && Last(s) == m;
    forall identity
      ensures HasIdentity(s, identity) <==> HasIdentity(taken, identity) || identity == Identity(m)
    {
      if HasIdentity(taken, identity) {
        var i :| 0 <= i < |taken| && Identity(taken[i]) == identity;
        assert s[i] == taken[i];
      }
      assert s[|taken|] == m;
    }
    var more := if Pinned(q, m) then counts else counts[Group(q, m) := CountOf(counts, Group(q, m)) + 1];
    forall group
      ensures CountOf(more, group) == InGroup(q, s, group)
    {
      assert CountOf(counts, group) == InGroup(q, taken, group);
    }
    hide HasIdentity, InGroup;
    forall identity
      ensures identity in canonical + {Identity(m)} <==> HasIdentity(s, identity)
    {
      assert identity in canonical <==> HasIdentity(taken, identity);
    }
  }

  method Suggest(q: Request, ranked: seq<Model>) returns (suggested: seq<Model>)
    ensures suggested == Suggested(q, ranked)
  {
    suggested := [];
    var counts: Counts := map[];
    var canonical: set<(string, string)> := {};
    var i: nat := 0;
    hide Identity, Group, BucketOf, InGroup, HasIdentity;
    assert Tracks(q, [], counts, canonical) by { EmptyTracks(q); }
    hide Tracks;
    while i < |ranked|
      invariant i <= |ranked| && suggested == Suggested(q, ranked[..i])
      invariant Tracks(q, suggested, counts, canonical)
    {
      var row := ranked[i];
      var identity := Identity(row);
      var bucket := BucketOf(q, row);
      var pinned := row.value == q.selected || row.value in q.recent;
      assert Front(ranked[..i + 1]) == ranked[..i] && Last(ranked[..i + 1]) == row;
      i := i + 1;
      if identity in canonical {
        continue;
      }
      if row.value != q.selected && (row.availability == Retired || row.availability == Unavailable || row.deprecated) {
        continue;
      }
      if !pinned && (row.provider !in PROVIDERS || CountOf(counts, Group(q, row)) >= Cap(bucket)
                     || (bucket == Discovered && row.firstSeen == 0)) {
        continue;
      }
      TracksStep(q, suggested, counts, canonical, row);
      suggested := suggested + [row];
      canonical := canonical + {identity};
      if !pinned {
        counts := counts[Group(q, row) := CountOf(counts, Group(q, row)) + 1];
      }
    }
    assert ranked[..|ranked|] == ranked;
  }

  lemma EmptyTracks(q: Request)
    ensures Tracks(q, [], map[], {})
  {
  }

  // ---------- orders ----------

  lemma {:induction false} IntsLeOrder(a: seq<int>, b: seq<int>, c: seq<int>)
    ensures IntsLe(a, b) || IntsLe(b, a)
    ensures IntsLe(a, b) && IntsLe(b, a) ==> a == b
    ensures IntsLe(a, b) && IntsLe(b, c) ==> IntsLe(a, c)
  {
    if a != [] && b != [] {
      IntsLeOrder(a[1..], b[1..], if c == [] then [] else c[1..]);
      assert a == [a[0]] + a[1..] && b == [b[0]] + b[1..];
    }
  }

  lemma RankLeOrder(q: Request, a: Model, b: Model, c: Model)
    ensures RankLe(q, a, b) || RankLe(q, b, a)
    ensures RankLe(q, a, b) && RankLe(q, b, a) ==> a.value == b.value
    ensures RankLe(q, a, b) && RankLe(q, b, c) ==> RankLe(q, a, c)
  {
    IntsLeOrder(Rank(q, a), Rank(q, b), Rank(q, c));
    IntsLeOrder(Rank(q, b), Rank(q, c), Rank(q, a));
    StringLeOrder(a.value, b.value, c.value);
    hide Rank, IntsLe, StringLe;
  }

  lemma RankingPreorder(q: Request)
    ensures TotalPreorder(Ranking(q))
  {
    var le := Ranking(q);
    forall a, b, c
      ensures le(a, b) || le(b, a)
      ensures le(a, b) && le(b, c) ==> le(a, c)
    {
      RankLeOrder(q, a, b, c);
    }
  }

  lemma ByProviderPreorder()
    ensures TotalPreorder(ByProvider)
  {
    forall a, b, c
      ensures ByProvider(a, b) || ByProvider(b, a)
      ensures ByProvider(a, b) && ByProvider(b, c) ==> ByProvider(a, c)
    {
      StringLeOrder(a.provider, b.provider, c.provider);
      StringLeOrder(b.provider, c.provider, a.provider);
      StringLeOrder(a.value, b.value, c.value);
      hide StringLe;
    }
  }

  // ---------- the rows that are ranked ----------

  lemma {:induction false} ChoicesKeepValues(rows: seq<Model>, choices: seq<string>, providerFor: string -> string)
    requires DistinctValues(rows)
    ensures DistinctValues(WithChoices(rows, choices, providerFor))
    ensures rows <= WithChoices(rows, choices, providerFor)
    decreases |choices|
  {
    if choices != [] {
      if choices[0] == "" || Listed(rows, choices[0]) {
        ChoicesKeepValues(rows, choices[1..], providerFor);
      } else {
        ChoicesKeepValues(rows + [CustomRow(choices[0], providerFor(choices[0]))], choices[1..], providerFor);
      }
    }
  }

  lemma {:induction false} FilterMembers<T>(p: T -> bool, xs: seq<T>, x: T)
    ensures x in Filter(p, xs) <==> x in xs && p(x)
  {
    if xs != [] {
      assert xs == [xs[0]] + xs[1..];
      FilterMembers(p, xs[1..], x);
    }
  }

  lemma {:induction false} FilterKeepsValues(p: Model -> bool, rows: seq<Model>)
    requires DistinctValues(rows)
    ensures DistinctValues(Filter(p, rows))
  {
    if rows != [] {
      FilterKeepsValues(p, rows[1..]);
      forall i | 0 <= i < |Filter(p, rows[1..])|
        ensures Filter(p, rows[1..])[i].value != rows[0].value
      {
        FilterMembers(p, rows[1..], Filter(p, rows[1..])[i]);
      }
    }
  }

  lemma SameRowsDistinct(xs: seq<Model>, ys: seq<Model>)
    requires DistinctValues(xs) && multiset(xs) == multiset(ys)
    ensures DistinctValues(ys) && forall m :: m in xs <==> m in ys
  {
    forall m
      ensures m in xs <==> m in ys
    {
      assert m in multiset(xs) <==> m in multiset(ys);
    }
    forall i, j | 0 <= i < j < |ys|
      ensures ys[i].value != ys[j].value
    {
      NoRepeatsOnce(xs, ys[i]);
      RemoveElement(ys, j);
      assert (ys[..j] + ys[j + 1..])[i] == ys[i];
      assert ys[i] in multiset(ys[..j] + ys[j + 1..]);
      assert ys[i] != ys[j];
      assert ys[i] in xs && ys[j] in xs;
    }
  }

  lemma ModelsFacts(q: Request, rows: seq<Model>, providerFor: string -> string)
    requires DistinctValues(rows)
    ensures DistinctValues(Models(q, rows, providerFor))
    ensures forall m :: (m in Models(q, rows, providerFor)
      <==> m in WithChoices(rows, [q.selected] + q.recent, providerFor) && Offered(q, m))
  {
    var all := WithChoices(rows, [q.selected] + q.recent, providerFor);
    ChoicesKeepValues(rows, [q.selected] + q.recent, providerFor);
    var p := (m: Model) => Offered(q, m);
    FilterKeepsValues(p, all);
    forall m
      ensures m in Filter(p, all) <==> m in all && Offered(q, m)
    {
      FilterMembers(p, all, m);
    }
    ByProviderPreorder();
    SortSorts(ByProvider, Filter(p, all));
    SameRowsDistinct(Filter(p, all), Models(q, rows, providerFor));
  }

  lemma RankedFacts(q: Request, models: seq<Model>)
    requires DistinctValues(models)
    ensures Sorted(Ranking(q), Ranked(q, models)) && DistinctValues(Ranked(q, models))
    ensures forall m :: m in Ranked(q, models) <==> m in models
  {
    RankingPreorder(q);
    SortSorts(Ranking(q), models);
    SameRowsDistinct(models, Ranked(q, models));
  }

  // ---------- what the pass keeps ----------

  predicate Better(q: Request, a: Model, b: Model) {
    RankLe(q, a, b) && a.value != b.value
  }

  /** The suggestions ranked before a model. */
  function Ahead(q: Request, s: seq<Model>, m: Model): seq<Model> {
    Filter((p: Model) => Better(q, p, m), s)
  }

  lemma {:induction false} SuggestedPrefix(q: Request, rs: seq<Model>, i: nat)
    requires i <= |rs|
    ensures Suggested(q, rs[..i]) <= Suggested(q, rs)
    ensures forall k :: |Suggested(q, rs[..i])| <= k < |Suggested(q, rs)| ==> Suggested(q, rs)[k] in rs[i..]
    decreases |rs|
  {
    hide Eligible, Room;
    if i == |rs| {
      assert rs[..i] == rs;
    } else {
      SuggestedPrefix(q, Front(rs), i);
      assert Front(rs)[..i] == rs[..i];
      assert rs[i..] == Front(rs)[i..] + [Last(rs)];
    }
  }

  lemma SuggestedFrom(q: Request, rs: seq<Model>)
    ensures forall k :: 0 <= k < |Suggested(q, rs)| ==> Suggested(q, rs)[k] in rs
  {
    SuggestedPrefix(q, rs, 0);
    assert rs[..0] == [] && rs[0..] == rs;
  }

  lemma {:induction false} FilterAll<T>(p: T -> bool, xs: seq<T>)
    requires forall i :: 0 <= i < |xs| ==> p(xs[i])
    ensures Filter(p, xs) == xs
  {
    if xs != [] {
      FilterAll(p, xs[1..]);
    }
  }

  lemma {:induction false} FilterNone<T>(p: T -> bool, xs: seq<T>)
    requires forall i :: 0 <= i < |xs| ==> !p(xs[i])
    ensures Filter(p, xs) == []
  {
    if xs != [] {
      FilterNone(p, xs[1..]);
    }
  }

  lemma {:induction false} FilterConcat<T>(p: T -> bool, xs: seq<T>, ys: seq<T>)
    ensures Filter(p, xs + ys) == Filter(p, xs) + Filter(p, ys)
  {
    if xs == [] {
      assert xs + ys == ys;
    } else {
      FilterConcat(p, xs[1..], ys);
      assert (xs + ys)[1..] == xs[1..] + ys;
    }
  }

  lemma BetterByPlace(q: Request, rs: seq<Model>, i: nat, j: nat)
    requires i < |rs| && j < |rs| && Sorted(Ranking(q), rs) && DistinctValues(rs)
    ensures Better(q, rs[j], rs[i]) <==> j < i
  {
    assert j < i ==> Ranking(q)(rs[j], rs[i]);
    assert i < j ==> Ranking(q)(rs[i], rs[j]);
    RankLeOrder(q, rs[i], rs[j], rs[i]);
    hide RankLe;
  }

  lemma BetterIffEarlier(q: Request, rs: seq<Model>, i: nat, x: Model)
    requires i < |rs| && Sorted(Ranking(q), rs) && DistinctValues(rs)
    ensures x in rs[..i] ==> Better(q, x, rs[i])
    ensures x in rs[i..] ==> !Better(q, x, rs[i])
  {
    hide Better, Sorted, DistinctValues;
    if x in rs[..i] {
      var j :| 0 <= j < i && rs[..i][j] == x;
      BetterByPlace(q, rs, i, j);
    }
    if x in rs[i..] {
      var j :| 0 <= j < |rs| - i && rs[i..][j] == x;
      BetterByPlace(q, rs, i, i + j);
    }
  }

  lemma FilterCuts<T>(p: T -> bool, xs: seq<T>, ys: seq<T>)
    requires xs <= ys && forall k :: 0 <= k < |ys| ==> (p(ys[k]) <==> k < |xs|)
    ensures Filter(p, ys) == xs
  {
    var rest := ys[|xs|..];
    assert ys == xs + rest;
    FilterConcat(p, xs, rest);
    FilterAll(p, xs);
    FilterNone(p, rest);
  }

  /** The models taken before a place are the suggestions ranked ahead of the model there. */
  lemma AheadIsPrefix(q: Request, rs: seq<Model>, i: nat)
    requires i < |rs| && Sorted(Ranking(q), rs) && DistinctValues(rs)
    ensures Ahead(q, Suggested(q, rs), rs[i]) == Suggested(q, rs[..i])
  {
    var s := Suggested(q, rs);
    var taken := Suggested(q, rs[..i]);
    SuggestedPrefix(q, rs, i);
    SuggestedFrom(q, rs[..i]);
    var p := (m: Model) => Better(q, m, rs[i]);
    hide Better, Sorted, DistinctValues, Suggested;
    forall k | 0 <= k < |s|
      ensures p(s[k]) <==> k < |taken|
    {
      assert k < |taken| ==> taken[k] in rs[..i];
      BetterIffEarlier(q, rs, i, s[k]);
    }
    FilterCuts(p, taken, s);
  }

  /** A ranked model is suggested exactly if it is eligible and found room when its turn came. */
  lemma TakenIff(q: Request, rs: seq<Model>, i: nat)
    requires i < |rs| && DistinctValues(rs)
    ensures rs[i] in Suggested(q, rs) <==> Eligible(q, rs[i]) && Room(q, Suggested(q, rs[..i]), rs[i])
  {
    hide Eligible, Room;
    var s := Suggested(q, rs);
    var next := rs[..i + 1];
    assert Front(next) == rs[..i] && Last(next) == rs[i];
    SuggestedPrefix(q, rs, i + 1);
    SuggestedFrom(q, rs[..i]);
    var taken := Suggested(q, rs[..i]);
    if Eligible(q, rs[i]) && Room(q, taken, rs[i]) {
      assert Suggested(q, next)[|taken|] == rs[i];
    } else {
      forall k | 0 <= k < |s|
        ensures s[k] != rs[i]
      {
        if k < |taken| {
          assert s[k] in rs[..i];
        } else {
          assert s[k] in rs[i + 1..];
        }
      }
    }
  }

  /** The suggestions for some models. */
  function Suggestions(q: Request, models: seq<Model>): seq<Model> {
    Suggested(q, Ranked(q, models))
  }

  /** A model is suggested exactly if it is eligible, no better-ranked suggestion has its identity, and it is
      pinned or its group is not yet full of better-ranked suggestions. */
  lemma SuggestedIff(q: Request, models: seq<Model>, m: Model)
    requires DistinctValues(models) && m in models
    ensures m in Suggestions(q, models) <==> Eligible(q, m) && Room(q, Ahead(q, Suggestions(q, models), m), m)
  {
    RankedFacts(q, models);
    var rs := Ranked(q, models);
    var i :| 0 <= i < |rs| && rs[i] == m;
    AheadIsPrefix(q, rs, i);
    TakenIff(q, rs, i);
  }

  /** The kept models hold one row per identity, no group beyond its cap, and eligible rows only. */
  ghost predicate Balanced(q: Request, s: seq<Model>) {
    && (forall i, j :: 0 <= i < j < |s| ==> Identity(s[i]) != Identity(s[j]))
    && (forall group :: InGroup(q, s, group) <= Cap(group.1))
    && (forall i :: 0 <= i < |s| ==> Eligible(q, s[i]))
  }

  lemma {:induction false} SuggestedBalanced(q: Request, rs: seq<Model>)
    ensures Balanced(q, Suggested(q, rs))
    decreases |rs|
  {
    if rs != [] {
      SuggestedBalanced(q, Front(rs));
      hide Balanced, Eligible, Room;
    }
  }

  lemma {:induction false} SuggestedInOrder(q: Request, rs: seq<Model>)
    requires Sorted(Ranking(q), rs) && DistinctValues(rs)
    ensures forall i, j :: 0 <= i < j < |Suggested(q, rs)| ==> Better(q, Suggested(q, rs)[i], Suggested(q, rs)[j])
    decreases |rs|
  {
    if rs != [] {
      SuggestedInOrder(q, Front(rs));
      SuggestedFrom(q, Front(rs));
      var taken := Suggested(q, Front(rs));
      forall i | 0 <= i < |taken|
        ensures Better(q, taken[i], Last(rs))
      {
        assert taken[i] in Front(rs);
        var j :| 0 <= j < |rs| - 1 && Front(rs)[j] == taken[i];
        BetterByPlace(q, rs, |rs| - 1, j);
      }
      hide Better, Eligible, Room;
    }
  }

  /** Suggestions come best first, with distinct identities, within their caps, from the eligible models. */
  lemma SuggestionsBalanced(q: Request, models: seq<Model>)
    requires DistinctValues(models)
    ensures Balanced(q, Suggestions(q, models))
    ensures forall i, j :: (0 <= i < j < |Suggestions(q, models)|
      ==> Better(q, Suggestions(q, models)[i], Suggestions(q, models)[j]))
    ensures forall m :: m in Suggestions(q, models) ==> m in models
  {
    RankedFacts(q, models);
    SuggestedBalanced(q, Ranked(q, models));
    SuggestedInOrder(q, Ranked(q, models));
    SuggestedFrom(q, Ranked(q, models));
  }

  lemma SelectedIsListed(rows: seq<Model>, choices: seq<string>, providerFor: string -> string)
    requires DistinctValues(rows) && choices != [] && choices[0] != ""
    ensures Listed(WithChoices(rows, choices, providerFor), choices[0])
  {
    if Listed(rows, choices[0]) {
      ChoicesKeepValues(rows, choices[1..], providerFor);
      var i :| 0 <= i < |rows| && rows[i].value == choices[0];
      assert WithChoices(rows, choices, providerFor)[i].value == choices[0];
    } else {
      var more := rows + [CustomRow(choices[0], providerFor(choices[0]))];
      ChoicesKeepValues(more, choices[1..], providerFor);
      assert more[|rows|].value == choices[0];
      assert WithChoices(rows, choices, providerFor)[|rows|].value == choices[0];
    }
  }

  /** A selected model is always the first suggestion, known to the catalog or not. */
  lemma SelectedComesFirst(q: Request, rows: seq<Model>, providerFor: string -> string)
    requires DistinctValues(rows) && q.selected != ""
    ensures var s := Suggestions(q, Models(q, rows, providerFor));
      s != [] && s[0].value == q.selected
  {
    var models := Models(q, rows, providerFor);
    ModelsFacts(q, rows, providerFor);
    SelectedIsListed(rows, [q.selected] + q.recent, providerFor);
    var all := WithChoices(rows, [q.selected] + q.recent, providerFor);
    var k :| 0 <= k < |all| && all[k].value == q.selected;
    var m := all[k];
    assert m in models;
    hide Models, WithChoices;
    RankedFacts(q, models);
    var rs := Ranked(q, models);
    hide Ranked;
    SelectedHeads(q, rs, m);
  }

  lemma SelectedHeads(q: Request, rs: seq<Model>, m: Model)
    requires Sorted(Ranking(q), rs) && DistinctValues(rs) && m in rs && m.value == q.selected
    ensures Suggested(q, rs) != [] && Suggested(q, rs)[0].value == q.selected
  {
    var i :| 0 <= i < |rs| && rs[i] == m;
    assert i == 0 || Ranking(q)(rs[0], rs[i]);
    RankLeOrder(q, m, m, m);
    SuggestedPrefix(q, rs, 1);
    assert Front(rs[..1]) == [] && Last(rs[..1]) == rs[0];
    assert Room(q, [], rs[0]) && Eligible(q, rs[0]);
    assert Suggested(q, rs[..1]) == [rs[0]];
  }
}
