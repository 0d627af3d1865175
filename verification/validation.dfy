/**
 Validation statistics of the linking pipeline: scores are put into
 probability buckets, (intent, target) pairs are tallied into a 2-by-n
 truth-by-bucket contingency table, and the Goodman–Kruskal gamma of that
 table measures how well the score predicts correctness.

 Scores and gamma are exact rationals (`real`), not floating point.
 */
module Validation {

  /** Identifiers of intents and of targets, as in the ground truth and link dictionaries. */
  type Id = string

  /** Known-correct targets per intent; an intent may be missing altogether. */
  type GroundTruth = map<Id, seq<Id>>

  /** The resolved link of one intent: parallel lists of targets and their scores. */
  datatype Link = Link(intent: Id, targets: seq<Id>, scores: seq<real>)

  /** The 2-by-n contingency table: row 0 counts incorrect pairs, row 1 correct pairs. */
  datatype Table = Table(falseRow: seq<nat>, trueRow: seq<nat>)

  /** One (intent, target) pair, reduced to its truth value and its bucket. */
  datatype Observation = Observation(correct: bool, column: nat)

  /** The table has `n` columns in both rows. */
  predicate HasColumns(t: Table, n: nat) {
    |t.falseRow| == n && |t.trueRow| == n
  }

  /** Targets and scores are parallel and every score is non-negative. */
  predicate WellFormed(l: Link) {
    && |l.targets| == |l.scores|
    && forall k | 0 <= k < |l.scores| :: 0.0 <= l.scores[k]
  }

  predicate AllWellFormed(links: seq<Link>) {
    forall i | 0 <= i < |links| :: WellFormed(links[i])
  }

  function Sum(s: seq<nat>): nat {
    if s == [] then 0 else s[0] + Sum(s[1..])
  }

  /** The number of counted pairs in the table. */
  function Total(t: Table): nat {
    Sum(t.falseRow) + Sum(t.trueRow)
  }

  /** The number of (intent, target) pairs in `links`. */
  function PairCount(links: seq<Link>): nat {
    if links == [] then 0 else |links[0].targets| + PairCount(links[1..])
  }

  // ---------------------------------------------------------------------------
  // Buckets

  /** Multiplying by a positive width preserves order. */
  lemma ScaleMonotonic(a: real, b: real, w: real)
    requires a <= b && 0.0 < w
    ensures a * w <= b * w
  {
    assert (b - a) * w >= 0.0;
  }

  /** `floor(p / w)` buckets of width `w` reach up to `p`, and one more reaches past it. */
  lemma FloorBounds(p: real, w: real)
    requires 0.0 < w
    ensures (p / w).Floor as real * w <= p
    ensures p < ((p / w).Floor + 1) as real * w
  {
    var q := p / w;
    var f := q.Floor;
    assert q * w == p;
    ScaleMonotonic(f as real, q, w);
    var up := (f + 1) as real;
    assert up == f as real + 1.0;
    assert q < up;
    assert (up - q) * w > 0.0;
    assert up * w - q * w == (up - q) * w;
    assert p < up * w;
  }

  /** The bucket of score `p` among `n` buckets of width `w`: `min(floor(p / w), n - 1)`. */
  function IndexForProbability(p: real, n: nat, w: real): (i: nat)
    requires 0.0 <= p && 0 < n && 0.0 < w
    ensures i < n
    ensures i as real * w <= p
    ensures i < n - 1 ==> p < (i + 1) as real * w
  {
    var natural := (p / w).Floor;
    FloorBounds(p, w);
    if natural < n - 1 then
      natural
    else
      ScaleMonotonic((n - 1) as real, natural as real, w);
      n - 1
  }

  /** A bucket whose lower edge is at most `p` cannot lie above a bucket whose upper edge exceeds `q >= p`. */
  lemma BucketEdgesOrdered(p: real, q: real, i: nat, j: nat, w: real)
    requires p <= q && 0.0 < w
    requires i as real * w <= p && q < (j + 1) as real * w
    ensures i <= j
  {
    if j < i {
      ScaleMonotonic((j + 1) as real, i as real, w);
    }
  }

  /** A higher score never falls into a lower bucket. */
  lemma IndexIsMonotonic(p: real, q: real, n: nat, w: real)
    requires 0.0 <= p <= q && 0 < n && 0.0 < w
    ensures IndexForProbability(p, n, w) <= IndexForProbability(q, n, w)
  {
    var i := IndexForProbability(p, n, w);
    var j := IndexForProbability(q, n, w);
    if j < n - 1 {
      BucketEdgesOrdered(p, q, i, j, w);
    }
  }

  /** The three bucket indices fixed by the tests (width 0.1, ten buckets). */
  lemma IndexExamples()
    ensures IndexForProbability(0.0, 10, 0.1) == 0
    ensures IndexForProbability(0.51, 10, 0.1) == 5
    ensures IndexForProbability(1.0, 10, 0.1) == 9
  {
    assert (0.51 / 0.1).Floor == 5;
    assert (1.0 / 0.1).Floor == 10;
  }

  // ---------------------------------------------------------------------------
  // Contingency table

  /** A pair is correct exactly when its intent is in the ground truth and lists that target. */
  predicate Correct(truth: GroundTruth, intent: Id, target: Id) {
    intent in truth && target in truth[intent]
  }

  /** Target `k` of link `l`, reduced to its truth value and the bucket of its score. */
  function PairObservation(truth: GroundTruth, l: Link, k: nat, n: nat, w: real): (o: Observation)
    requires WellFormed(l) && k < |l.targets| && 0 < n && 0.0 < w
    ensures o.column < n
  {
    Observation(Correct(truth, l.intent, l.targets[k]), IndexForProbability(l.scores[k], n, w))
  }

  /** The observations of the pairs of one link, in target order. */
  function LinkObservations(truth: GroundTruth, l: Link, n: nat, w: real): (r: seq<Observation>)
    requires WellFormed(l) && 0 < n && 0.0 < w
    ensures |r| == |l.targets|
    ensures forall k | 0 <= k < |r| :: r[k].column < n
  {
    seq(|l.targets|, k requires 0 <= k < |l.targets| => PairObservation(truth, l, k, n, w))
  }

  /** The observations of all pairs of `links`, link after link. */
  function Observations(truth: GroundTruth, links: seq<Link>, n: nat, w: real): (r: seq<Observation>)
    requires AllWellFormed(links) && 0 < n && 0.0 < w
    ensures |r| == PairCount(links)
    ensures forall k | 0 <= k < |r| :: r[k].column < n
  {
    if links == [] then []
    else LinkObservations(truth, links[0], n, w) + Observations(truth, links[1..], n, w)
  }

  /** `t` with the cell of observation `o` incremented. */
  function Bump(t: Table, o: Observation): Table
    requires o.column < |t.falseRow| && o.column < |t.trueRow|
  {
    if o.correct then t.(trueRow := t.trueRow[o.column := t.trueRow[o.column] + 1])
    else t.(falseRow := t.falseRow[o.column := t.falseRow[o.column] + 1])
  }

  /** Incrementing one entry raises the sum by one. */
  lemma {:induction false} SumBump(s: seq<nat>, c: nat)
    requires c < |s|
    ensures Sum(s[c := s[c] + 1]) == Sum(s) + 1
  {
    if c > 0 {
      SumBump(s[1..], c - 1);
      assert s[c := s[c] + 1][1..] == s[1..][c - 1 := s[c] + 1];
    }
  }

  function Zeros(n: nat): (r: seq<nat>)
    ensures |r| == n && Sum(r) == 0
    ensures forall c | 0 <= c < n :: r[c] == 0
  {
    if n == 0 then [] else [0] + Zeros(n - 1)
  }

  /** The table counting the observations `obs`, last observation first; its cells add up to
      the number of observations (`TallyCounts` says what each cell holds). */
  function Tally(obs: seq<Observation>, n: nat): (t: Table)
    requires forall k | 0 <= k < |obs| :: obs[k].column < n
    ensures HasColumns(t, n)
    ensures Total(t) == |obs|
  {
    if obs == [] then Table(Zeros(n), Zeros(n))
    else
      var before := Tally(obs[1..], n);
      BumpTotal(before, obs[0], n);
      Bump(before, obs[0])
  }

  /** Counting one more observation adds one to the table's total. */
  lemma BumpTotal(t: Table, o: Observation, n: nat)
    requires HasColumns(t, n) && o.column < n
    ensures HasColumns(Bump(t, o), n)
    ensures Total(Bump(t, o)) == Total(t) + 1
  {
    if o.correct {
      SumBump(t.trueRow, o.column);
    } else {
      SumBump(t.falseRow, o.column);
    }
  }

  /** Every cell of the tally holds how often its (truth, column) combination occurs in `obs`. */
  lemma {:induction false} TallyCounts(obs: seq<Observation>, n: nat, c: nat)
    requires forall k | 0 <= k < |obs| :: obs[k].column < n
    requires c < n
    ensures Tally(obs, n).falseRow[c] == multiset(obs)[Observation(false, c)]
    ensures Tally(obs, n).trueRow[c] == multiset(obs)[Observation(true, c)]
  {
    if obs != [] {
      var rest := obs[1..];
      TallyCounts(rest, n, c);
      BumpCell(Tally(rest, n), obs[0], c);
      assert obs == [obs[0]] + rest;
      assert multiset(obs) == multiset{obs[0]} + multiset(rest);
    }
  }

  /** Counting observation `o` raises exactly the cell of `o` by one. */
  lemma BumpCell(t: Table, o: Observation, c: nat)
    requires o.column < |t.falseRow| && o.column < |t.trueRow|
    requires c < |t.falseRow| && c < |t.trueRow|
    ensures Bump(t, o).falseRow[c] == t.falseRow[c] + (if o == Observation(false, c) then 1 else 0)
    ensures Bump(t, o).trueRow[c] == t.trueRow[c] + (if o == Observation(true, c) then 1 else 0)
  {
  }

  /** The 2-by-n contingency table of all (intent, target) pairs of `links` against `truth`. */
  function BuildContingencyTable(truth: GroundTruth, links: seq<Link>, w: real, n: nat): (t: Table)
    requires AllWellFormed(links) && 0 < n && 0.0 < w
    ensures HasColumns(t, n)
    ensures Total(t) == PairCount(links)
  {
    Tally(Observations(truth, links, n, w), n)
  }

  /** Each cell of the table counts the pairs with that truth value whose score falls in that bucket. */
  lemma CellsCountPairs(truth: GroundTruth, links: seq<Link>, w: real, n: nat, c: nat)
    requires AllWellFormed(links) && 0 < n && 0.0 < w && c < n
    ensures var t := BuildContingencyTable(truth, links, w, n);
      && t.falseRow[c] == multiset(Observations(truth, links, n, w))[Observation(false, c)]
      && t.trueRow[c] == multiset(Observations(truth, links, n, w))[Observation(true, c)]
  {
    TallyCounts(Observations(truth, links, n, w), n, c);
  }

  /** Pair `k` of link `i` is observed with its truth value and the bucket of its score. */
  lemma ObservationOfPair(truth: GroundTruth, links: seq<Link>, n: nat, w: real, i: nat, k: nat)
    requires AllWellFormed(links) && 0 < n && 0.0 < w
    requires i < |links| && k < |links[i].targets|
    ensures PairCount(links[..i]) + k < PairCount(links)
    ensures Observations(truth, links, n, w)[PairCount(links[..i]) + k]
         == PairObservation(truth, links[i], k, n, w)
  {
    assert links[i..][0] == links[i];
    ObservationsFromLink(truth, links, n, w, i, k);
    ObservationsSplit(truth, links[i..], n, w, k);
  }

  /** The observations from link `i` on follow those of the links before it. */
  lemma ObservationsFromLink(truth: GroundTruth, links: seq<Link>, n: nat, w: real, i: nat, j: nat)
    requires AllWellFormed(links) && 0 < n && 0.0 < w
    requires i <= |links| && j < PairCount(links[i..])
    ensures AllWellFormed(links[i..])
    ensures PairCount(links[..i]) + j < PairCount(links)
    ensures Observations(truth, links, n, w)[PairCount(links[..i]) + j] == Observations(truth, links[i..], n, w)[j]
  {
    var before := links[..i];
    var after := links[i..];
    SlicesWellFormed(links, i);
    assert links == before + after;
    ObservationsAppend(truth, before, after, n, w);
    var early := Observations(truth, before, n, w);
    assert Observations(truth, links, n, w) == early + Observations(truth, after, n, w);
    assert |early| == PairCount(before);
  }

  /** Both sides of a split of well-formed links are well-formed. */
  lemma SlicesWellFormed(links: seq<Link>, i: nat)
    requires AllWellFormed(links) && i <= |links|
    ensures AllWellFormed(links[..i]) && AllWellFormed(links[i..])
  {
    forall j | 0 <= j < i
      ensures WellFormed(links[..i][j])
    {
      assert links[..i][j] == links[j];
    }
    forall j | 0 <= j < |links| - i
      ensures WellFormed(links[i..][j])
    {
      assert links[i..][j] == links[i + j];
    }
  }

  /** Position `j` of the observations lies in the first link's part or in the rest's. */
  lemma ObservationsSplit(truth: GroundTruth, links: seq<Link>, n: nat, w: real, j: nat)
    requires AllWellFormed(links) && 0 < n && 0.0 < w
    requires j < PairCount(links)
    ensures var obs := Observations(truth, links, n, w);
      && (j < |links[0].targets| ==> obs[j] == PairObservation(truth, links[0], j, n, w))
      && (j >= |links[0].targets| ==> obs[j] == Observations(truth, links[1..], n, w)[j - |links[0].targets|])
  {
    var head := LinkObservations(truth, links[0], n, w);
    var tail := Observations(truth, links[1..], n, w);
    assert Observations(truth, links, n, w) == head + tail;
  }

  /** The observations of consecutive link lists are concatenated. */
  lemma {:induction false} ObservationsAppend(truth: GroundTruth, a: seq<Link>, b: seq<Link>, n: nat, w: real)
    requires AllWellFormed(a) && AllWellFormed(b) && 0 < n && 0.0 < w
    ensures AllWellFormed(a + b)
    ensures Observations(truth, a + b, n, w) == Observations(truth, a, n, w) + Observations(truth, b, n, w)
  {
    forall i | 0 <= i < |a + b|
      ensures WellFormed((a + b)[i])
    {
      if i < |a| {
        assert (a + b)[i] == a[i];
      } else {
        assert (a + b)[i] == b[i - |a|];
      }
    }
    if a == [] {
      assert a + b == b;
    } else {
      var ab := a + b;
      assert ab[0] == a[0];
      assert ab[1..] == a[1..] + b;
      ObservationsAppend(truth, a[1..], b, n, w);
      var head := LinkObservations(truth, a[0], n, w);
      assert Observations(truth, ab, n, w) == head + Observations(truth, a[1..] + b, n, w);
      assert Observations(truth, a, n, w) == head + Observations(truth, a[1..], n, w);
    }
  }

  /** Taking the same element out of two permutations of each other leaves permutations. */
  lemma RemoveFromPermutation<T>(a: seq<T>, b: seq<T>, i: nat)
    requires a != [] && i < |b| && b[i] == a[0]
    requires multiset(a) == multiset(b)
    ensures multiset(a[1..]) == multiset(b[..i] + b[i + 1..])
  {
    assert a == [a[0]] + a[1..];
    assert b == b[..i] + [b[i]] + b[i + 1..];
    assert multiset(a[1..]) == multiset(a) - multiset{a[0]};
    assert multiset(b[..i] + b[i + 1..]) == multiset(b) - multiset{b[i]};
  }

  /** The observations of `b` are those of its link `i` together with those of the other links. */
  lemma ObservationsWithout(truth: GroundTruth, b: seq<Link>, i: nat, n: nat, w: real)
    requires AllWellFormed(b) && 0 < n && 0.0 < w && i < |b|
    ensures AllWellFormed(b[..i] + b[i + 1..])
    ensures multiset(Observations(truth, b, n, w))
         == multiset(LinkObservations(truth, b[i], n, w)) + multiset(Observations(truth, b[..i] + b[i + 1..], n, w))
  {
    var x := b[..i];
    var y := b[i + 1..];
    assert b == x + ([b[i]] + y);
    ObservationsAppend(truth, x, [b[i]] + y, n, w);
    ObservationsAppend(truth, x, y, n, w);
    assert ([b[i]] + y)[0] == b[i];
    assert ([b[i]] + y)[1..] == y;
  }

  /** Reordering the links leaves the multiset of observations unchanged. */
  lemma {:induction false} ObservationsIgnoreOrder(truth: GroundTruth, a: seq<Link>, b: seq<Link>, n: nat, w: real)
    requires AllWellFormed(a) && AllWellFormed(b) && 0 < n && 0.0 < w
    requires multiset(a) == multiset(b)
    ensures multiset(Observations(truth, a, n, w)) == multiset(Observations(truth, b, n, w))
    decreases |a|
  {
    if a == [] {
      assert b == [];
    } else {
      assert a[0] in multiset(b);
      var i :| 0 <= i < |b| && b[i] == a[0];
      RemoveFromPermutation(a, b, i);
      ObservationsWithout(truth, b, i, n, w);
      ObservationsIgnoreOrder(truth, a[1..], b[..i] + b[i + 1..], n, w);
    }
  }

  /** The table does not depend on the order in which the intents are visited. */
  lemma TableIgnoresVisitOrder(truth: GroundTruth, a: seq<Link>, b: seq<Link>, w: real, n: nat)
    requires AllWellFormed(a) && AllWellFormed(b) && 0 < n && 0.0 < w
    requires multiset(a) == multiset(b)
    ensures BuildContingencyTable(truth, a, w, n) == BuildContingencyTable(truth, b, w, n)
  {
    ObservationsIgnoreOrder(truth, a, b, n, w);
    var ta := BuildContingencyTable(truth, a, w, n);
    var tb := BuildContingencyTable(truth, b, w, n);
    forall c | 0 <= c < n
      ensures ta.falseRow[c] == tb.falseRow[c] && ta.trueRow[c] == tb.trueRow[c]
    {
      CellsCountPairs(truth, a, w, n, c);
      CellsCountPairs(truth, b, w, n, c);
    }
    assert ta.falseRow == tb.falseRow;
    assert ta.trueRow == tb.trueRow;
  }

  /** A pair whose intent is absent from the ground truth is observed as incorrect,
      whatever the other intents are. */
  lemma UnknownIntentPairIsIncorrect(truth: GroundTruth, links: seq<Link>, n: nat, w: real, i: nat, k: nat)
    requires AllWellFormed(links) && 0 < n && 0.0 < w
    requires i < |links| && k < |links[i].targets| && links[i].intent !in truth
    ensures PairCount(links[..i]) + k < PairCount(links)
    ensures !Observations(truth, links, n, w)[PairCount(links[..i]) + k].correct
  {
    ObservationOfPair(truth, links, n, w, i, k);
  }

  /** An intent absent from the ground truth contributes only incorrect pairs:
      when no intent is known, the correct row is empty and the incorrect row holds every pair. */
  lemma {:induction false} UnknownIntentsCountAsIncorrect(truth: GroundTruth, links: seq<Link>, w: real, n: nat)
    requires AllWellFormed(links) && 0 < n && 0.0 < w
    requires forall i | 0 <= i < |links| :: links[i].intent !in truth
    ensures var t := BuildContingencyTable(truth, links, w, n);
      && (forall c | 0 <= c < n :: t.trueRow[c] == 0)
      && Sum(t.falseRow) == PairCount(links)
  {
    var obs := Observations(truth, links, n, w);
    NoCorrectObservations(truth, links, n, w);
    var t := BuildContingencyTable(truth, links, w, n);
    forall c | 0 <= c < n
      ensures t.trueRow[c] == 0
    {
      CellsCountPairs(truth, links, w, n, c);
      assert Observation(true, c) !in multiset(obs);
    }
    AllZeroSum(t.trueRow);
  }

  /** When no intent is known, no observation is correct. */
  lemma NoCorrectObservations(truth: GroundTruth, links: seq<Link>, n: nat, w: real)
    requires AllWellFormed(links) && 0 < n && 0.0 < w
    requires forall i | 0 <= i < |links| :: links[i].intent !in truth
    ensures forall j | 0 <= j < PairCount(links) :: !Observations(truth, links, n, w)[j].correct
  {
    forall j | 0 <= j < PairCount(links)
      ensures !Observations(truth, links, n, w)[j].correct
    {
      var i, k := PairOfObservation(links, j);
      UnknownIntentPairIsIncorrect(truth, links, n, w, i, k);
    }
  }

  /** Every observation position belongs to some pair `k` of some link `i`. */
  lemma {:induction false} PairOfObservation(links: seq<Link>, j: nat) returns (i: nat, k: nat)
    requires j < PairCount(links)
    ensures i < |links| && k < |links[i].targets|
    ensures j == PairCount(links[..i]) + k
  {
    if j < |links[0].targets| {
      i, k := 0, j;
      assert links[..0] == [];
    } else {
      var i', k' := PairOfObservation(links[1..], j - |links[0].targets|);
      i, k := i' + 1, k';
      assert links[..i][1..] == links[1..][..i'];
    }
  }

  /** A row whose every cell is zero sums to zero. */
  lemma {:induction false} AllZeroSum(s: seq<nat>)
    requires forall c | 0 <= c < |s| :: s[c] == 0
    ensures Sum(s) == 0
  {
    if s != [] {
      AllZeroSum(s[1..]);
    }
  }

  /** The two links of the tests: intent 1 scores 20 and 30, intent 2 scores 60 and 80. */
  function ExampleLinks(): seq<Link> {
    [Link("Intent 1", ["Filter 1", "Filter 2"], [20.0, 30.0]),
     Link("Intent 2", ["Filter 3", "Filter 4"], [60.0, 80.0])]
  }

  /** The example links put their four pairs into buckets 0, 1, 2 and 3. */
  lemma ExampleObservations(truth: GroundTruth)
    ensures Observations(truth, ExampleLinks(), 4, 25.0)
         == [Observation(Correct(truth, "Intent 1", "Filter 1"), 0),
             Observation(Correct(truth, "Intent 1", "Filter 2"), 1),
             Observation(Correct(truth, "Intent 2", "Filter 3"), 2),
             Observation(Correct(truth, "Intent 2", "Filter 4"), 3)]
  {
    var links := ExampleLinks();
    assert IndexForProbability(20.0, 4, 25.0) == 0;
    assert IndexForProbability(30.0, 4, 25.0) == 1;
    assert IndexForProbability(60.0, 4, 25.0) == 2;
    assert IndexForProbability(80.0, 4, 25.0) == 3;
    assert links[1..][1..] == [];
  }

  /** Tally of the observations of the first table test. */
  lemma UnknownIntentTally()
    ensures Tally([Observation(false, 0), Observation(false, 1), Observation(true, 2), Observation(true, 3)], 4)
         == Table([1, 1, 0, 0], [0, 0, 1, 1])
  {
  }

  /** Tally of the observations of the second table test. */
  lemma KnownIntentsTally()
    ensures Tally([Observation(true, 0), Observation(false, 1), Observation(false, 2), Observation(true, 3)], 4)
         == Table([0, 1, 1, 0], [1, 0, 0, 1])
  {
  }

  /** Intent 1 missing from the ground truth: its pairs default to incorrect. */
  lemma TableWithUnknownIntentExample()
    ensures BuildContingencyTable(map["Intent 2" := ["Filter 3", "Filter 4"]], ExampleLinks(), 25.0, 4)
         == Table([1, 1, 0, 0], [0, 0, 1, 1])
  {
    var truth := map["Intent 2" := ["Filter 3", "Filter 4"]];
    ExampleObservations(truth);
    assert !Correct(truth, "Intent 1", "Filter 1") && !Correct(truth, "Intent 1", "Filter 2");
    assert Correct(truth, "Intent 2", "Filter 3") && Correct(truth, "Intent 2", "Filter 4");
    UnknownIntentTally();
  }

  /** Both intents known: a pair is correct exactly when its target is listed. */
  lemma TableWithKnownIntentsExample()
    ensures BuildContingencyTable(map["Intent 1" := ["Filter 1"], "Intent 2" := ["Filter 4"]], ExampleLinks(), 25.0, 4)
         == Table([0, 1, 1, 0], [1, 0, 0, 1])
  {
    var truth := map["Intent 1" := ["Filter 1"], "Intent 2" := ["Filter 4"]];
    ExampleObservations(truth);
    assert Correct(truth, "Intent 1", "Filter 1") && !Correct(truth, "Intent 1", "Filter 2");
    assert !Correct(truth, "Intent 2", "Filter 3") && Correct(truth, "Intent 2", "Filter 4");
    KnownIntentsTally();
  }

  // ---------------------------------------------------------------------------
  // Goodman–Kruskal gamma

  /** The sum over column pairs j < j' of lo[j] * hi[j']. */
  function Concordant(lo: seq<nat>, hi: seq<nat>): nat
    requires |lo| == |hi|
  {
    if lo == [] then 0 else lo[0] * Sum(hi[1..]) + Concordant(lo[1..], hi[1..])
  }

  /** Concordant pairs of the table: an incorrect pair in a lower bucket than a correct pair. */
  function ConcordantPairs(t: Table): nat
    requires |t.falseRow| == |t.trueRow|
  {
    Concordant(t.falseRow, t.trueRow)
  }

  /** Discordant pairs of the table: a correct pair in a lower bucket than an incorrect pair. */
  function DiscordantPairs(t: Table): nat
    requires |t.falseRow| == |t.trueRow|
  {
    Concordant(t.trueRow, t.falseRow)
  }

  /** How `x / y` for a positive `y` compares with -1, 0 and 1, read off the numerator. */
  lemma QuotientFacts(x: real, y: real)
    requires 0.0 < y
    ensures x / y == 1.0 <==> x == y
    ensures x / y == -1.0 <==> x == -y
    ensures x / y > 0.0 <==> x > 0.0
    ensures x / y == 0.0 <==> x == 0.0
    ensures x / y <= 1.0 <==> x <= y
    ensures -1.0 <= x / y <==> -y <= x
  {
    var q := x / y;
    assert q * y == x;
    if q > 1.0 { assert (q - 1.0) * y > 0.0; assert (q - 1.0) * y == x - y; }
    if q < 1.0 { assert (1.0 - q) * y > 0.0; assert (1.0 - q) * y == y - x; }
    if q < -1.0 { assert (-1.0 - q) * y > 0.0; assert (-1.0 - q) * y == -y - x; }
    if q > -1.0 { assert (q + 1.0) * y > 0.0; assert (q + 1.0) * y == x + y; }
    if q > 0.0 { assert q * y > 0.0; }
    if q < 0.0 { assert (-q) * y > 0.0; }
  }

  /** Goodman–Kruskal gamma `(C - D) / (C + D)`, taken to be 0 when there are no such pairs. */
  function CalculateGamma(t: Table): (g: real)
    requires |t.falseRow| == |t.trueRow|
    ensures -1.0 <= g <= 1.0
    ensures g == 1.0 <==> DiscordantPairs(t) == 0 < ConcordantPairs(t)
    ensures g == -1.0 <==> ConcordantPairs(t) == 0 < DiscordantPairs(t)
    ensures g > 0.0 <==> ConcordantPairs(t) > DiscordantPairs(t)
    ensures g == 0.0 <==> ConcordantPairs(t) == DiscordantPairs(t)
  {
    var c := ConcordantPairs(t);
    var d := DiscordantPairs(t);
    if c + d == 0 then 0.0
    else
      QuotientFacts((c - d) as real, (c + d) as real);
      (c - d) as real / (c + d) as real
  }

  /** Exchanging the two rows exchanges concordant and discordant pairs, so gamma changes sign. */
  lemma SwappingRowsNegatesGamma(t: Table)
    requires |t.falseRow| == |t.trueRow|
    ensures CalculateGamma(Table(t.trueRow, t.falseRow)) == -CalculateGamma(t)
  {
    var c: int := ConcordantPairs(t);
    var d: int := DiscordantPairs(t);
    assert ConcordantPairs(Table(t.trueRow, t.falseRow)) == d;
    assert DiscordantPairs(Table(t.trueRow, t.falseRow)) == c;
    if c + d != 0 {
      var x := (c - d) as real;
      var y := (c + d) as real;
      assert (d - c) as real == -x && (d + c) as real == y;
      DivideNegated(x, y);
    }
  }

  /** Negating the numerator negates the quotient. */
  lemma DivideNegated(x: real, y: real)
    requires y > 0.0
    ensures (-x) / y == -(x / y)
  {
  }

  /** If no `lo` mass lies strictly before `hi` mass, there are no such pairs. */
  lemma {:induction false} ConcordantZero(lo: seq<nat>, hi: seq<nat>)
    requires |lo| == |hi|
    requires forall i, j | 0 <= i < j < |lo| :: lo[i] == 0 || hi[j] == 0
    ensures Concordant(lo, hi) == 0
  {
    if lo != [] {
      if lo[0] != 0 {
        forall j | 0 <= j < |hi[1..]|
          ensures hi[1..][j] == 0
        {
          assert hi[j + 1] == 0;
        }
        AllZeroSum(hi[1..]);
      }
      ConcordantZero(lo[1..], hi[1..]);
    }
  }

  /** A sum is at least each of its entries. */
  lemma {:induction false} SumAtLeastEntry(s: seq<nat>, j: nat)
    requires j < |s|
    ensures s[j] <= Sum(s)
  {
    if j > 0 {
      SumAtLeastEntry(s[1..], j - 1);
    }
  }

  /** A single `lo` entry before a `hi` entry, both non-zero, gives a positive count. */
  lemma {:induction false} ConcordantPositive(lo: seq<nat>, hi: seq<nat>, i: nat, j: nat)
    requires |lo| == |hi| && i < j < |lo|
    requires lo[i] > 0 && hi[j] > 0
    ensures Concordant(lo, hi) > 0
  {
    var rest := Concordant(lo[1..], hi[1..]);
    assert Concordant(lo, hi) == lo[0] * Sum(hi[1..]) + rest;
    if i == 0 {
      assert hi[1..][j - 1] == hi[j];
      SumAtLeastEntry(hi[1..], j - 1);
      ProductPositive(lo[0], Sum(hi[1..]));
    } else {
      assert lo[1..][i - 1] == lo[i] && hi[1..][j - 1] == hi[j];
      ConcordantPositive(lo[1..], hi[1..], i - 1, j - 1);
    }
  }

  lemma ProductPositive(a: nat, b: nat)
    requires 0 < a && 0 < b
    ensures 0 < a * b
  {
    assert a * b >= b by {
      assert a * b == (a - 1) * b + b;
    }
  }

  /** All incorrect pairs lie in strictly lower buckets than all correct pairs. */
  predicate Separated(lower: seq<nat>, upper: seq<nat>)
    requires |lower| == |upper|
  {
    forall i, j | 0 <= i < |lower| && 0 <= j < |upper| && lower[i] > 0 && upper[j] > 0 :: i < j
  }

  /** Perfect concordance: when the score fully separates incorrect below correct pairs
      (and both occur), gamma is 1. */
  lemma PerfectConcordanceGivesOne(t: Table, i: nat, j: nat)
    requires |t.falseRow| == |t.trueRow|
    requires Separated(t.falseRow, t.trueRow)
    requires i < |t.falseRow| && j < |t.trueRow| && t.falseRow[i] > 0 && t.trueRow[j] > 0
    ensures CalculateGamma(t) == 1.0
  {
    ConcordantPositive(t.falseRow, t.trueRow, i, j);
    ConcordantZero(t.trueRow, t.falseRow);
  }

  /** Perfect discordance: when correct pairs all lie below incorrect ones, gamma is -1. */
  lemma PerfectDiscordanceGivesMinusOne(t: Table, i: nat, j: nat)
    requires |t.falseRow| == |t.trueRow|
    requires Separated(t.trueRow, t.falseRow)
    requires i < |t.trueRow| && j < |t.falseRow| && t.trueRow[i] > 0 && t.falseRow[j] > 0
    ensures CalculateGamma(t) == -1.0
  {
    ConcordantPositive(t.trueRow, t.falseRow, i, j);
    ConcordantZero(t.falseRow, t.trueRow);
  }

  /** A table without any counted pair has gamma 0. */
  lemma {:induction false} EmptyTableGammaZero(n: nat)
    ensures CalculateGamma(Table(Zeros(n), Zeros(n))) == 0.0
  {
    ConcordantZero(Zeros(n), Zeros(n));
  }

  /** Pair counts of the first two test tables. */
  lemma SeparatedExampleCounts()
    ensures Concordant([1, 1, 0, 0], [0, 0, 1, 1]) == 4
    ensures Concordant([0, 0, 1, 1], [1, 1, 0, 0]) == 0
  {
    assert Concordant([0], [1]) == 0 && Concordant([0], [0]) == 0;
    assert Concordant([0, 0], [1, 1]) == 0;
    assert Concordant([1, 0], [0, 0]) == 0;
    assert Concordant([1, 0, 0], [0, 1, 1]) == 2;
    assert Concordant([0, 1, 1], [1, 0, 0]) == 0;
  }

  /** Pair counts of the third test table. */
  lemma BalancedExampleCounts()
    ensures Concordant([0, 1, 1, 0], [1, 0, 0, 1]) == 2
    ensures Concordant([1, 0, 0, 1], [0, 1, 1, 0]) == 2
  {
    assert Concordant([0], [1]) == 0 && Concordant([1], [0]) == 0;
    assert Concordant([1, 0], [0, 1]) == 1;
    assert Concordant([0, 1], [1, 0]) == 0;
    assert Concordant([1, 1, 0], [0, 0, 1]) == 2;
    assert Concordant([0, 0, 1], [1, 1, 0]) == 0;
  }

  /** Pair counts of the fourth test table. */
  lemma MixedExampleCounts()
    ensures Concordant([1, 1, 0, 1], [0, 0, 1, 0]) == 2
    ensures Concordant([0, 0, 1, 0], [1, 1, 0, 1]) == 1
  {
    assert Concordant([1], [0]) == 0 && Concordant([0], [1]) == 0;
    assert Concordant([0, 1], [1, 0]) == 0;
    assert Concordant([1, 0], [0, 1]) == 1;
    assert Concordant([1, 0, 1], [0, 1, 0]) == 1;
    assert Concordant([0, 1, 0], [1, 0, 1]) == 1;
  }

  /** Gamma of the fourth test table: two concordant and one discordant pair give 1/3. */
  lemma MixedGammaExample()
    ensures CalculateGamma(Table([1, 1, 0, 1], [0, 0, 1, 0])) == 1.0 / 3.0
  {
    MixedExampleCounts();
    var mixed := Table([1, 1, 0, 1], [0, 0, 1, 0]);
    assert ConcordantPairs(mixed) == 2 && DiscordantPairs(mixed) == 1;
    assert CalculateGamma(mixed) == (2 - 1) as real / (2 + 1) as real;
  }

  /** The four gamma values fixed by the tests. */
  lemma GammaExamples()
    ensures CalculateGamma(Table([1, 1, 0, 0], [0, 0, 1, 1])) == 1.0
    ensures CalculateGamma(Table([0, 0, 1, 1], [1, 1, 0, 0])) == -1.0
    ensures CalculateGamma(Table([0, 1, 1, 0], [1, 0, 0, 1])) == 0.0
    ensures CalculateGamma(Table([1, 1, 0, 1], [0, 0, 1, 0])) == 1.0 / 3.0
  {
    SeparatedExampleCounts();
    BalancedExampleCounts();
    MixedGammaExample();
  }
}
