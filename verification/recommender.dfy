/** The recommender: trains one classifier per product and ranks products by
    the probability that a customer buys them.

    The class attribute of the order data set has a label domain `labels`
    (a `seq<string>`) in which each product takes two consecutive slots:
    the even slot is the product id ("bought") and the odd slot its
    "did not buy" counterpart. The data set, the Weka filter and classifier
    are outside the model: training is a given function from an isolator
    configuration to an optional classifier of type `C`, and a classifier's
    `distributionForInstance(row)[0]` for the query row is a given function
    `buyProb` from `C` to a real. */
module Recommender {
  import opened Wrappers
  import opened Ranking

  predicate Even(i: int)
  {
    i % 2 == 0
  }

  // ---------------------------------------------------------------------------
  // The product indices the training loop and the query loop visit

  /** `for (i = p; i < n; i += 2)`: the indices visited, in order. */
  function IndicesFrom(p: nat, n: nat): (r: seq<nat>)
    ensures |r| == if p < n then (n - p + 1) / 2 else 0
    ensures forall k :: 0 <= k < |r| ==> r[k] == p + 2 * k
    decreases n - p
  {
    if p < n then [p] + IndicesFrom(p + 2, n) else []
  }

  /** The number of iterations of `for (i = p; i < n; i += 2)`. */
  function Iterations(p: nat, n: nat): nat
    decreases n - p
  {
    if p < n then 1 + Iterations(p + 2, n) else 0
  }

  lemma {:induction false} IterationsCount(p: nat, n: nat)
    ensures Iterations(p, n) == |IndicesFrom(p, n)|
    decreases n - p
  {
    if p < n {
      IterationsCount(p + 2, n);
    }
  }

  /** The indices of the products in a label domain of `n` values: the even
      indices below `n`, ascending, one per product. */
  function ProductIndices(n: nat): (r: seq<nat>)
    ensures |r| == (n + 1) / 2
    ensures forall k :: 0 <= k < |r| ==> r[k] == 2 * k
    ensures forall i :: i in r <==> 0 <= i < n && Even(i)
  {
    var r := IndicesFrom(0, n);
    assert forall i :: 0 <= i < n && Even(i) ==> r[i / 2] == i;
    r
  }

  // ---------------------------------------------------------------------------
  // The per-product isolator

  /** The options of the `RemoveWithValues` filter, from the settings
      `-S 0.0 -C last -L first-last -V -H`: split point 0.0, the class
      column (the last attribute), the 1-based inclusive range of label
      values to match, inverted matching so that only the matching rows are
      kept, and removal of the other labels from the header. */
  datatype IsolatorConfig = IsolatorConfig(
    splitPoint: real,
    onClassColumn: bool,
    firstLabel: int,
    lastLabel: int,
    invertSelection: bool,
    modifyHeader: bool)

  /** The isolator keeps the rows whose label has 0-based index `labelIndex`:
      without inversion it removes the rows in the 1-based range, with
      inversion it keeps exactly those. */
  predicate Keeps(config: IsolatorConfig, labelIndex: int)
  {
    (config.firstLabel <= labelIndex + 1 <= config.lastLabel) == config.invertSelection
  }

  /** `initOrderIsolator`: the filter that isolates the rows of the product at `productNum`. */
  function InitOrderIsolator(numValues: nat, productNum: nat): (r: IsolatorConfig)
    requires productNum < numValues
    ensures r.firstLabel == productNum + 1 && r.lastLabel == productNum + 2
    ensures forall i :: Keeps(r, i) <==> i == productNum || i == productNum + 1
    ensures r.onClassColumn && r.splitPoint == 0.0 && r.invertSelection && r.modifyHeader
  {
    IsolatorConfig(0.0, true, productNum + 1, productNum + 2, true, true)
  }

  /** In a label domain of even size, both slots of a product lie inside the domain. */
  lemma IsolatedPairInDomain(numValues: nat, productNum: nat)
    requires Even(numValues) && Even(productNum) && productNum < numValues
    ensures forall i :: Keeps(InitOrderIsolator(numValues, productNum), i) ==> 0 <= i < numValues
  {
  }

  // ---------------------------------------------------------------------------
  // The classifier registry

  /** Whether the trainer for the product at `productNum` produced a classifier. */
  predicate Trained<C>(labels: seq<string>, train: IsolatorConfig -> Option<C>, productNum: nat)
    requires productNum < |labels|
  {
    train(InitOrderIsolator(|labels|, productNum)).Some?
  }

  /** The label domain names each product once: no two even slots hold the
      same value. */
  predicate ProductIdsDistinct(labels: seq<string>)
  {
    forall i, j :: 0 <= i < j < |labels| && Even(i) && Even(j) ==> labels[i] != labels[j]
  }

  /** `addClassifier`: registers `classifier` under the product id at
      `productNum`, which must not be registered yet. */
  function AddClassifier<C>(registry: map<string, C>, labels: seq<string>, productNum: nat, classifier: C): (r: map<string, C>)
    requires productNum < |labels|
    requires labels[productNum] !in registry
    ensures labels[productNum] in r && r[labels[productNum]] == classifier
    ensures forall key :: key != labels[productNum] ==> (key in r <==> key in registry)
    ensures forall key :: key in registry ==> r[key] == registry[key]
    ensures |r| == |registry| + 1
  {
    registry[labels[productNum] := classifier]
  }

  /** `r` keeps every entry of `registry`. */
  ghost predicate Extends<C>(registry: map<string, C>, r: map<string, C>)
  {
    forall key :: key in registry ==> key in r && r[key] == registry[key]
  }

  /** Every product at an even index from `p` on is in `r` exactly when its
      trainer trained, and then under the classifier that trainer produced. */
  ghost predicate RegisteredFrom<C>(labels: seq<string>, train: IsolatorConfig -> Option<C>, p: nat, r: map<string, C>)
  {
    forall i :: p <= i < |labels| && Even(i) ==>
      && (labels[i] in r <==> Trained(labels, train, i))
      && (Trained(labels, train, i) ==> r[labels[i]] == train(InitOrderIsolator(|labels|, i)).value)
  }

  /** Every key of `r` is in `registry` or is the product id at an even index from `p` on. */
  ghost predicate KeysFrom<C>(labels: seq<string>, p: nat, registry: map<string, C>, r: map<string, C>)
  {
    forall key :: key in r ==> key in registry || exists i :: p <= i < |labels| && Even(i) && labels[i] == key
  }

  /** The training loop from index `p` on, adding to `registry`. */
  function TrainFrom<C>(labels: seq<string>, train: IsolatorConfig -> Option<C>, p: nat, registry: map<string, C>): (r: map<string, C>)
    requires Even(p) && ProductIdsDistinct(labels)
    requires forall i :: p <= i < |labels| && Even(i) ==> labels[i] !in registry
    ensures Extends(registry, r)
    ensures RegisteredFrom(labels, train, p, r)
    ensures KeysFrom(labels, p, registry, r)
    ensures |r| <= |registry| + Iterations(p, |labels|)
    decreases |labels| - p
  {
    if p >= |labels| then registry
    else
      var trainer := train(InitOrderIsolator(|labels|, p));
      var next := if trainer.None? then registry else AddClassifier(registry, labels, p, trainer.value);
      StepKeepsLaterUnregistered(labels, train, p, registry, next);
      var r := TrainFrom(labels, train, p + 2, next);
      TrainStep(labels, train, p, registry, next, r);
      r
  }

  /** The registry after the iteration at `p`: extended by the trained classifier, if any. */
  ghost predicate StepResult<C>(labels: seq<string>, train: IsolatorConfig -> Option<C>, p: nat,
                                registry: map<string, C>, next: map<string, C>)
    requires p < |labels|
  {
    next == if Trained(labels, train, p)
            then registry[labels[p] := train(InitOrderIsolator(|labels|, p)).value]
            else registry
  }

  /** One iteration of the training loop: what holds of the registry from
      index `p + 2` on also holds from `p` on. */
  lemma TrainStep<C>(labels: seq<string>, train: IsolatorConfig -> Option<C>, p: nat,
                     registry: map<string, C>, next: map<string, C>, r: map<string, C>)
    requires p < |labels| && Even(p) && labels[p] !in registry && ProductIdsDistinct(labels)
    requires StepResult(labels, train, p, registry, next)
    requires Extends(next, r) && RegisteredFrom(labels, train, p + 2, r) && KeysFrom(labels, p + 2, next, r)
    requires |r| <= |next| + Iterations(p + 2, |labels|)
    ensures Extends(registry, r) && RegisteredFrom(labels, train, p, r) && KeysFrom(labels, p, registry, r)
    ensures |r| <= |registry| + Iterations(p, |labels|)
  {
    StepRegistered(labels, train, p, registry, next, r);
    StepKeys(labels, train, p, registry, next, r);
  }

  lemma StepRegistered<C>(labels: seq<string>, train: IsolatorConfig -> Option<C>, p: nat,
                          registry: map<string, C>, next: map<string, C>, r: map<string, C>)
    requires p < |labels| && Even(p) && labels[p] !in registry && ProductIdsDistinct(labels)
    requires StepResult(labels, train, p, registry, next)
    requires Extends(next, r) && RegisteredFrom(labels, train, p + 2, r) && KeysFrom(labels, p + 2, next, r)
    ensures RegisteredFrom(labels, train, p, r)
  {
    forall i | p <= i < |labels| && Even(i)
      ensures labels[i] in r <==> Trained(labels, train, i)
      ensures Trained(labels, train, i) ==> r[labels[i]] == train(InitOrderIsolator(|labels|, i)).value
    {
      if i != p {
        assert i != p + 1;
      }
    }
  }

  lemma StepKeepsLaterUnregistered<C>(labels: seq<string>, train: IsolatorConfig -> Option<C>, p: nat,
                                     registry: map<string, C>, next: map<string, C>)
    requires p < |labels| && Even(p) && ProductIdsDistinct(labels)
    requires forall i :: p <= i < |labels| && Even(i) ==> labels[i] !in registry
    requires StepResult(labels, train, p, registry, next)
    ensures forall i :: p + 2 <= i < |labels| && Even(i) ==> labels[i] !in next
  {
    forall i | p + 2 <= i < |labels| && Even(i) ensures labels[i] !in next {
      assert labels[i] != labels[p];
    }
  }

  lemma StepKeys<C>(labels: seq<string>, train: IsolatorConfig -> Option<C>, p: nat,
                    registry: map<string, C>, next: map<string, C>, r: map<string, C>)
    requires p < |labels| && Even(p)
    requires StepResult(labels, train, p, registry, next)
    requires KeysFrom(labels, p + 2, next, r)
    ensures KeysFrom(labels, p, registry, r)
  {
    forall key | key in r && key !in registry
      ensures exists i :: p <= i < |labels| && Even(i) && labels[i] == key
    {
      if key in next {
        assert labels[p] == key;
      }
    }
  }

  /** `trainRecommenderOnOrders`: the registry built from an empty map by
      visiting every product. */
  function TrainRecommenderOnOrders<C>(labels: seq<string>, train: IsolatorConfig -> Option<C>): (r: map<string, C>)
    requires ProductIdsDistinct(labels)
    ensures forall i :: 0 <= i < |labels| && Even(i) ==> (labels[i] in r <==> Trained(labels, train, i))
    ensures forall i :: 0 <= i < |labels| && Even(i) && Trained(labels, train, i) ==>
              r[labels[i]] == train(InitOrderIsolator(|labels|, i)).value
    ensures forall key :: key in r ==> exists i :: 0 <= i < |labels| && Even(i) && labels[i] == key
    ensures |r| <= (|labels| + 1) / 2
  {
    IterationsCount(0, |labels|);
    TrainFrom(labels, train, 0, map[])
  }

  // ---------------------------------------------------------------------------
  // The query

  /** The query dereferenced a product with no registered classifier. */
  datatype QueryError = NullClassifier(productId: string)

  /** `ps[k]` is the first index in `ps` whose product has no classifier. */
  predicate FirstMissing<C>(labels: seq<string>, registry: map<string, C>, ps: seq<nat>, k: nat)
    requires forall k :: 0 <= k < |ps| ==> ps[k] < |labels|
  {
    && k < |ps|
    && labels[ps[k]] !in registry
    && forall m :: 0 <= m < k ==> labels[ps[m]] in registry
  }

  /** The decision-building loop of `getRecommendations` over the product
      indices `ps`; it stops at the first product with no classifier. */
  function DecisionsOver<C>(labels: seq<string>, registry: map<string, C>, buyProb: C -> real, ps: seq<nat>): (r: Result<seq<Decision>, QueryError>)
    requires forall k :: 0 <= k < |ps| ==> ps[k] < |labels|
    ensures r.Success? <==> forall k :: 0 <= k < |ps| ==> labels[ps[k]] in registry
    ensures r.Success? ==> |r.value| == |ps|
    ensures r.Success? ==>
              forall k :: 0 <= k < |ps| ==> r.value[k] == Decision(labels[ps[k]], buyProb(registry[labels[ps[k]]]))
    ensures r.Failure? ==>
              exists k :: 0 <= k < |ps| && FirstMissing(labels, registry, ps, k) && r.error.productId == labels[ps[k]]
    decreases |ps|
  {
    if |ps| == 0 then Success([])
    else
      var productId := labels[ps[0]];
      assert forall k :: 1 <= k < |ps| ==> ps[1..][k - 1] == ps[k];
      if productId !in registry then Failure(NullClassifier(productId))
      else
        var decision := Decision(productId, buyProb(registry[productId]));
        match DecisionsOver(labels, registry, buyProb, ps[1..])
        case Failure(e) => Failure(e)
        case Success(rest) => Success([decision] + rest)
  }

  /** `labels[i]` is the first product id with no classifier in `registry`. */
  predicate FirstUnregistered<C>(labels: seq<string>, registry: map<string, C>, i: int)
  {
    && 0 <= i < |labels|
    && Even(i)
    && labels[i] !in registry
    && forall j :: 0 <= j < i && Even(j) ==> labels[j] in registry
  }

  /** The decisions of `getRecommendations` before sorting: one per product,
      in ascending index order. */
  function ProductDecisions<C>(labels: seq<string>, registry: map<string, C>, buyProb: C -> real): (r: Result<seq<Decision>, QueryError>)
    ensures r.Success? <==> forall i :: 0 <= i < |labels| && Even(i) ==> labels[i] in registry
    ensures r.Success? ==> |r.value| == (|labels| + 1) / 2
    ensures r.Success? ==>
              forall k :: 0 <= k < |r.value| ==> r.value[k] == Decision(labels[2 * k], buyProb(registry[labels[2 * k]]))
    ensures r.Failure? ==>
              exists i :: FirstUnregistered(labels, registry, i) && r.error.productId == labels[i]
  {
    var ps := ProductIndices(|labels|);
    var r := DecisionsOver(labels, registry, buyProb, ps);
    EveryProductVisited(labels, registry, ps);
    if r.Failure? then
      var k :| 0 <= k < |ps| && FirstMissing(labels, registry, ps, k) && r.error.productId == labels[ps[k]];
      FirstMissingProduct(labels, registry, ps, k);
      r
    else
      r
  }

  lemma FirstMissingProduct<C>(labels: seq<string>, registry: map<string, C>, ps: seq<nat>, k: nat)
    requires ps == ProductIndices(|labels|)
    requires FirstMissing(labels, registry, ps, k)
    ensures FirstUnregistered(labels, registry, ps[k])
  {
    forall j | 0 <= j < ps[k] && Even(j) ensures labels[j] in registry {
      assert ps[j / 2] == j;
    }
  }

  lemma EveryProductVisited<C>(labels: seq<string>, registry: map<string, C>, ps: seq<nat>)
    requires ps == ProductIndices(|labels|)
    ensures (forall k :: 0 <= k < |ps| ==> labels[ps[k]] in registry) <==>
            (forall i :: 0 <= i < |labels| && Even(i) ==> labels[i] in registry)
  {
    if forall k :: 0 <= k < |ps| ==> labels[ps[k]] in registry {
      forall i | 0 <= i < |labels| && Even(i) ensures labels[i] in registry {
        assert ps[i / 2] == i;
      }
    }
  }

  /** `getRecommendations`: the product decisions for the query row, sorted
      by descending probability with ties left in ascending index order. */
  function GetRecommendations<C>(labels: seq<string>, registry: map<string, C>, buyProb: C -> real): (r: Result<seq<Decision>, QueryError>)
    ensures r.Success? <==> forall i :: 0 <= i < |labels| && Even(i) ==> labels[i] in registry
    ensures r.Success? ==> |r.value| == (|labels| + 1) / 2
    ensures r.Success? ==> forall i, j :: 0 <= i < j < |r.value| ==> r.value[i].buyProb >= r.value[j].buyProb
    ensures r.Success? ==>
              && ProductDecisions(labels, registry, buyProb).Success?
              && multiset(r.value) == multiset(ProductDecisions(labels, registry, buyProb).value)
              && SameTies(r.value, ProductDecisions(labels, registry, buyProb).value)
    ensures r.Failure? ==> r == ProductDecisions(labels, registry, buyProb)
  {
    match ProductDecisions(labels, registry, buyProb)
    case Failure(e) => Failure(e)
    case Success(decisions) =>
      var sorted := SortDecisions(decisions);
      OrderedIsDescendingProbability(sorted);
      assert |sorted| == |multiset(sorted)| == |multiset(decisions)| == |decisions|;
      Success(sorted)
  }

  /** Training followed by a query: the query succeeds exactly when the trainer
      produced a classifier for every product. */
  lemma QuerySucceedsIffEveryProductTrained<C>(labels: seq<string>, train: IsolatorConfig -> Option<C>, buyProb: C -> real)
    requires ProductIdsDistinct(labels)
    ensures GetRecommendations(labels, TrainRecommenderOnOrders(labels, train), buyProb).Success? <==>
            forall i :: 0 <= i < |labels| && Even(i) ==> Trained(labels, train, i)
  {
  }

  /** A label domain of two products, both registered: the query sorts their two decisions. */
  lemma TwoProductQuery(labels: seq<string>, pa: real, pb: real)
    requires |labels| == 4 && labels[0] != labels[2]
    ensures GetRecommendations(labels, map[labels[0] := pa, labels[2] := pb], (p: real) => p)
            == Success(SortDecisions([Decision(labels[0], pa), Decision(labels[2], pb)]))
  {
    var registry := map[labels[0] := pa, labels[2] := pb];
    var d := ProductDecisions(labels, registry, (p: real) => p);
    assert forall i :: 0 <= i < |labels| && Even(i) ==> i == 0 || i == 2;
    assert d.Success?;
    assert d.value == [Decision(labels[0], pa), Decision(labels[2], pb)];
  }

  /** Two products scoring 0.3 and 0.9: the higher-scoring product is recommended first. */
  lemma HigherProbabilityRanksFirst()
    ensures GetRecommendations(["A", "not A", "B", "not B"], map["A" := 0.3, "B" := 0.9], (p: real) => p)
            == Success([Decision("B", 0.9), Decision("A", 0.3)])
  {
    TwoProductQuery(["A", "not A", "B", "not B"], 0.3, 0.9);
    SortTwo(Decision("A", 0.3), Decision("B", 0.9));
  }

  /** Two products with the same probability keep the order of their label indices. */
  lemma TiesKeepIndexOrder()
    ensures GetRecommendations(["A", "not A", "B", "not B"], map["A" := 0.5, "B" := 0.5], (p: real) => p)
            == Success([Decision("A", 0.5), Decision("B", 0.5)])
  {
    TwoProductQuery(["A", "not A", "B", "not B"], 0.5, 0.5);
    SortTwo(Decision("A", 0.5), Decision("B", 0.5));
  }
}
