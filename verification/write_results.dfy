/**
 The result-record encoder of the linking pipeline (`MakeResultsArray`).

 An ordered mapping from component intents to their resolved targets and
 probabilities is flattened into one fixed-layout record per
 (component intent, target) pair: entries in mapping order, and within an
 entry the targets in list order.
 */
module WriteResults {
  import opened Wrappers

  /** An application, identified by its name. */
  datatype Application = Application(name: string)

  /** The data part of an intent (URI and MIME type). */
  datatype Data = Data(uri: Option<string>, mimeType: Option<string>)

  /** An intent-sending call site; each attribute is determined or not (`None`). */
  datatype Intent = Intent(
    action: Option<string>,
    categories: Option<seq<string>>,
    targetClass: Option<string>,
    data: Option<Data>,
    application: Application)

  /** An intent together with its stable identifier and whether it names its target explicitly. */
  datatype ComponentIntent = ComponentIntent(id: int, explicit: bool, intent: Intent)

  /** A resolution candidate: a destination component, its optional permission and its application. */
  datatype Target = Target(id: int, permission: Option<string>, applicationName: string)

  /** One entry of the ordered link mapping: a component intent with parallel target and probability lists. */
  datatype Entry = Entry(source: ComponentIntent, targets: seq<Target>, probabilities: seq<real>)

  /** A 0/1 field of a record. */
  type Flag = b: int | 0 <= b <= 1

  /** One output row. The fields are, in order:
      0 component intent id, 1 explicit, 2 categories determined, 3 target class determined,
      4 data determined, 5 target id, 6 target requires a permission, 7 probability,
      8 source and target in the same application. */
  datatype Record = Record(
    componentIntentId: int,
    explicit: Flag,
    hasCategories: Flag,
    hasTargetClass: Flag,
    hasData: Flag,
    targetId: int,
    requiresPermission: Flag,
    probability: real,
    sameApplication: Flag)

  /** Why no array was produced. */
  datatype Error = RowCountMismatch(declared: nat, actual: nat)

  function FlagOf(b: bool): Flag {
    if b then 1 else 0
  }

  /** Targets and probabilities are parallel lists in every entry. */
  predicate Parallel(links: seq<Entry>) {
    forall i | 0 <= i < |links| :: |links[i].targets| == |links[i].probabilities|
  }

  /** The number of (component intent, target) pairs of `links`. The validation statistics
      count the pairs of their own link type the same way; the two entry types differ, so each
      module keeps its own count. */
  function PairCount(links: seq<Entry>): nat {
    if links == [] then 0 else |links[0].targets| + PairCount(links[1..])
  }

  /** The row of one (component intent, target, probability) triple. */
  function EncodePair(source: ComponentIntent, target: Target, probability: real): Record {
    Record(
      source.id,
      FlagOf(source.explicit),
      FlagOf(source.intent.categories.Some?),
      FlagOf(source.intent.targetClass.Some?),
      FlagOf(source.intent.data.Some?),
      target.id,
      FlagOf(target.permission.Some?),
      probability,
      FlagOf(target.applicationName == source.intent.application.name))
  }

  /** The rows of one entry, in target order. */
  function EncodeEntry(e: Entry): (rows: seq<Record>)
    requires |e.targets| == |e.probabilities|
    ensures |rows| == |e.targets|
    ensures forall k | 0 <= k < |rows| :: Describes(rows[k], e.source, e.targets[k], e.probabilities[k])
  {
    seq(|e.targets|, k requires 0 <= k < |e.targets| => EncodePair(e.source, e.targets[k], e.probabilities[k]))
  }

  /** The rows of all entries, in mapping order. */
  function EncodeAll(links: seq<Entry>): (rows: seq<Record>)
    requires Parallel(links)
    ensures |rows| == PairCount(links)
  {
    if links == [] then [] else EncodeEntry(links[0]) + EncodeAll(links[1..])
  }

  /** The record array of `links`, which must hold exactly `total` rows;
      a declared total that differs from the number of pairs is an error. */
  function MakeResultsArray(links: seq<Entry>, total: nat): (r: Result<seq<Record>, Error>)
    requires Parallel(links)
    ensures r.Success? <==> total == PairCount(links)
    ensures r.Success? ==> |r.value| == total
    ensures r.Failure? ==> r.error == RowCountMismatch(total, PairCount(links))
  {
    var rows := EncodeAll(links);
    if |rows| == total then Success(rows) else Failure(RowCountMismatch(total, |rows|))
  }

  /** Row `PairCount(links[..i]) + k` is the encoding of target `k` of entry `i`:
      rows follow the mapping order, then each entry's target order. */
  lemma {:induction false} RowOfPair(links: seq<Entry>, i: nat, k: nat)
    requires Parallel(links)
    requires i < |links| && k < |links[i].targets|
    ensures PairCount(links[..i]) + k < PairCount(links)
    ensures EncodeAll(links)[PairCount(links[..i]) + k]
         == EncodePair(links[i].source, links[i].targets[k], links[i].probabilities[k])
  {
    if i == 0 {
      assert links[..0] == [];
    } else {
      RowOfPair(links[1..], i - 1, k);
      assert links[1..][..i - 1] == links[..i][1..];
      assert links[1..][i - 1] == links[i];
    }
  }

  /** Every row comes from exactly one (entry, target) position. */
  lemma {:induction false} PairOfRow(links: seq<Entry>, j: nat) returns (i: nat, k: nat)
    requires j < PairCount(links)
    ensures i < |links| && k < |links[i].targets|
    ensures j == PairCount(links[..i]) + k
  {
    if j < |links[0].targets| {
      i, k := 0, j;
      assert links[..0] == [];
    } else {
      var i', k' := PairOfRow(links[1..], j - |links[0].targets|);
      i, k := i' + 1, k';
      assert links[..i][1..] == links[1..][..i'];
    }
  }

  /** The pairs before entry `i + 1` are those before entry `i` and the targets of entry `i`. */
  lemma PrefixCountStep(links: seq<Entry>, i: nat)
    requires i < |links|
    ensures PairCount(links[..i + 1]) == PairCount(links[..i]) + |links[i].targets|
    decreases i
  {
    if i > 0 {
      PrefixCountStep(links[1..], i - 1);
      assert links[1..][..i] == links[..i + 1][1..];
      assert links[1..][..i - 1] == links[..i][1..];
    } else {
      assert links[..1] == [links[0]];
    }
  }

  /** Entries further along start no earlier: the pairs before `j` include all pairs up to entry `i`. */
  lemma {:induction false} PrefixCountMono(links: seq<Entry>, i: nat, j: nat)
    requires i < j <= |links|
    ensures PairCount(links[..i]) + |links[i].targets| <= PairCount(links[..j])
    decreases j - i
  {
    PrefixCountStep(links, i);
    if i + 1 < j {
      PrefixCountMono(links, i + 1, j);
    }
  }

  /** Two (entry, target) positions written at the same row are the same position. */
  lemma PairOfRowUnique(links: seq<Entry>, i: nat, k: nat, i': nat, k': nat)
    requires i < |links| && k < |links[i].targets|
    requires i' < |links| && k' < |links[i'].targets|
    requires PairCount(links[..i]) + k == PairCount(links[..i']) + k'
    ensures i == i' && k == k'
  {
    if i < i' {
      PrefixCountMono(links, i, i');
    } else if i' < i {
      PrefixCountMono(links, i', i);
    }
  }

  /** What a row says about the pair it was written for, field by field. */
  predicate Describes(row: Record, source: ComponentIntent, target: Target, probability: real) {
    && row.componentIntentId == source.id
    && (row.explicit == 1 <==> source.explicit)
    && (row.hasCategories == 1 <==> source.intent.categories != None)
    && (row.hasTargetClass == 1 <==> source.intent.targetClass != None)
    && (row.hasData == 1 <==> source.intent.data != None)
    && row.targetId == target.id
    && (row.requiresPermission == 1 <==> target.permission != None)
    && row.probability == probability
    && (row.sameApplication == 1 <==> target.applicationName == source.intent.application.name)
  }

  /** The row written for a pair is the one and only record that describes it. */
  lemma EncodePairIsOnlyDescription(row: Record, source: ComponentIntent, target: Target, probability: real)
    ensures Describes(row, source, target, probability) <==> row == EncodePair(source, target, probability)
  {
  }

  /** Every (entry, target) pair has its row in a successful result, at position
      `PairCount(links[..i]) + k`, describing exactly that pair. */
  lemma RowFields(links: seq<Entry>, total: nat, i: nat, k: nat)
    requires Parallel(links) && total == PairCount(links)
    requires i < |links| && k < |links[i].targets|
    ensures MakeResultsArray(links, total).Success?
    ensures PairCount(links[..i]) + k < total
    ensures Describes(MakeResultsArray(links, total).value[PairCount(links[..i]) + k],
                      links[i].source, links[i].targets[k], links[i].probabilities[k])
  {
    RowOfPair(links, i, k);
  }

  /** Conversely, every row of a successful result describes the pair at its position. */
  lemma RowSource(links: seq<Entry>, total: nat, j: nat) returns (i: nat, k: nat)
    requires Parallel(links)
    requires MakeResultsArray(links, total).Success? && j < total
    ensures i < |links| && k < |links[i].targets|
    ensures j == PairCount(links[..i]) + k
    ensures Describes(MakeResultsArray(links, total).value[j],
                      links[i].source, links[i].targets[k], links[i].probabilities[k])
  {
    i, k := PairOfRow(links, j);
    RowFields(links, total, i, k);
  }

  // ---------------------------------------------------------------------------
  // The test vector

  function App1(): Application { Application("app1") }
  function App2(): Application { Application("app2") }

  /** Component intent 1: explicit, naming a target class, sent from app1. */
  function Source1(): ComponentIntent {
    ComponentIntent(1, true, Intent(None, None, Some("class1"), None, App1()))
  }

  /** Component intent 2: implicit, with only an action, sent from app2. */
  function Source2(): ComponentIntent {
    ComponentIntent(2, false, Intent(Some("action2"), None, None, None, App2()))
  }

  /** The ordered mapping of the test: two intents with two targets each. */
  function ExampleLinks(): seq<Entry> {
    [Entry(Source1(), [Target(1, None, "app2"), Target(2, Some("permission2"), "app1")], [4.0, 7.0]),
     Entry(Source2(), [Target(3, None, "app2"), Target(4, Some("permission2"), "app1")], [0.0, 100.0])]
  }

  /** The four rows the test expects. */
  lemma ExampleRecords()
    ensures MakeResultsArray(ExampleLinks(), 4)
         == Success([Record(1, 1, 0, 1, 0, 1, 0, 4.0, 0),
                     Record(1, 1, 0, 1, 0, 2, 1, 7.0, 1),
                     Record(2, 0, 0, 0, 0, 3, 0, 0.0, 1),
                     Record(2, 0, 0, 0, 0, 4, 1, 100.0, 0)])
  {
    var links := ExampleLinks();
    assert links[1..][1..] == [];
    assert EncodeEntry(links[1]) == [Record(2, 0, 0, 0, 0, 3, 0, 0.0, 1), Record(2, 0, 0, 0, 0, 4, 1, 100.0, 0)];
    assert EncodeEntry(links[0]) == [Record(1, 1, 0, 1, 0, 1, 0, 4.0, 0), Record(1, 1, 0, 1, 0, 2, 1, 7.0, 1)];
    assert EncodeAll(links[1..]) == EncodeEntry(links[1]);
    assert EncodeAll(links) == EncodeEntry(links[0]) + EncodeEntry(links[1]);
    assert EncodeAll(links) == [Record(1, 1, 0, 1, 0, 1, 0, 4.0, 0),
                                Record(1, 1, 0, 1, 0, 2, 1, 7.0, 1),
                                Record(2, 0, 0, 0, 0, 3, 0, 0.0, 1),
                                Record(2, 0, 0, 0, 0, 4, 1, 100.0, 0)];
  }

  /** Declaring a different total than the four pairs is refused. */
  lemma ExampleMismatch()
    ensures MakeResultsArray(ExampleLinks(), 3) == Failure(RowCountMismatch(3, 4))
  {
    var links := ExampleLinks();
    assert links[1..][1..] == [];
  }
}
