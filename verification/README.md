# Order counter and product recommender — a Dafny model

This project models two pieces of bookkeeping in an order-management
application for a small business. It proves properties about both.

**Orders** (module `Orders`, file `orders.dfy`). Every `Order` has an integer
id. A fresh order takes its id from a process-wide counter with `++counter`.
An order restored from storage keeps its stored id and raises the counter to
`max(counter, id)`. `decrementOrderCounter` lowers the counter to
`max(counter - 1, 0)` when an invalid order is deleted. The model passes the
counter explicitly: each constructor takes the counter before the call and
returns the order together with the counter after it. The counter is a Java
`int`, so `++` wraps from 2^31-1 to -2^31; module `JavaInt` writes this out.
The module also models the order total, a sum of the sub-order totals, and
`isValid`, a conjunction of four checks.

**Recommender** (modules `Recommender` and `Ranking`). Products sit in the
label domain of the class attribute, two slots per product. The even slot is
the product id ("bought") and the next slot is its "did not buy"
counterpart. For each even index the recommender:
- configures an isolator that keeps the two label values of that product;
- trains a classifier;
- registers the classifier under the product id when training succeeds.

A query builds one (product id, probability) decision per even index, in
index order. It then sorts the decisions with a stable sort, highest
probability first. The data set, the filter and the classifier are Weka
library code, so they are parameters here:
- training is a given function from the isolator configuration to an
  `Option` of a classifier;
- a classifier's `distributionForInstance(row)[0]` for the query row is a
  given function to a real.

`Collections.sort` is modelled as an insertion sort. The lemma
`Ranking.StableSortIsUnique` shows that every stable sort with the same
comparator returns the same list.

## Model

| member | source | states |
|---|---|---|
| `Orders.NextId` | src/main/java/seedu/address/model/order/Order.java:33 | a fresh id is the old counter plus one; at 2^31-1 it wraps to -2^31 |
| `Orders.NewOrder` | src/main/java/seedu/address/model/order/Order.java:32-37 | a fresh order gets id old counter + 1 (below 2^31-1), the counter ends equal to that id, and the fields are the given customer, sub-orders and time |
| `Orders.NewOrderFor` | src/main/java/seedu/address/model/order/Order.java:44-49 | the same as `NewOrder`, with the customer identified by the person's e-mail |
| `Orders.RaiseTo` | src/main/java/seedu/address/model/order/Order.java:65 | restoring id k leaves the counter at the larger of the old counter and k: never below either, and equal to one of them |
| `Orders.RestoreOrder` | src/main/java/seedu/address/model/order/Order.java:60-66 | a restored order keeps its stored id and time; the counter never decreases and ends at least the restored id |
| `Orders.RestoreOrderFor` | src/main/java/seedu/address/model/order/Order.java:76-82 | the same as `RestoreOrder`, with the customer identified by the person's e-mail |
| `Orders.Decremented` | src/main/java/seedu/address/model/order/Order.java:173-175 | the decremented counter is never negative: a positive counter goes down by one, and zero stays zero; with `int` subtraction, -2^31 goes to 2^31-1 |
| `Orders.CounterStaysNonNegative` | src/main/java/seedu/address/model/order/Order.java:19-82 | starting at 0 (or any non-negative value), the counter stays non-negative after any mix of creations, restores and decrements, as long as no creation finds it at 2^31-1 |
| `Orders.CreateAtMaxIntWraps` | src/main/java/seedu/address/model/order/Order.java:33 | a creation at counter 2^31-1 issues the negative id -2^31 and leaves a negative counter |
| `Orders.CreateThenDecrementRestoresCounter` | src/main/java/seedu/address/model/order/Order.java:170-175 | creating an order and then decrementing returns the counter to its previous value, for every non-negative counter |
| `Orders.StepFollowsConstructors` | src/main/java/seedu/address/model/order/Order.java:32-66 | a creation or restore issues the id of the order the constructor builds and leaves the counter the constructor leaves; a decrement issues nothing |
| `Orders.CounterNeverDecreases` | src/main/java/seedu/address/model/order/Order.java:60-66 | without decrements and before wrap-around, creations and restores never lower the counter |
| `Orders.FreshIdsExceedEarlierIds` | src/main/java/seedu/address/model/order/Order.java:51-66 | ids stay distinct: each fresh order's id is greater than the starting counter and than every id issued before it, restored or fresh; so fresh ids never repeat a restored id or each other |
| `Orders.DecrementAfterRestoreReissuesId` | src/main/java/seedu/address/model/order/Order.java:170-175 | a decrement that does not undo a fresh order can reissue an id: restore 5, decrement, create gives 5 again |
| `Orders.SubTotalSumAppend` | src/main/java/seedu/address/model/order/Order.java:119-122 | adding one more sub-order adds its total to the sum |
| `Orders.GetOrderTotal` | src/main/java/seedu/address/model/order/Order.java:117-124 | the order total is the sum of the sub-order totals, and zero for an order with no sub-orders |
| `Orders.IsValid` | src/main/java/seedu/address/model/order/Order.java:136-168 | valid exactly when there is at least one sub-order, some customer's e-mail equals the order's `personId`, every sub-order is valid against the products, and the total is not negative; an order with no sub-orders is never valid |
| `Recommender.ProductIndices` | src/main/java/seedu/address/logic/recommender/Recommender.java:67-68 | the loop visits exactly the even indices below the number of label values, ascending, ⌈n/2⌉ of them |
| `Recommender.InitOrderIsolator` | src/main/java/seedu/address/logic/recommender/Recommender.java:103-113 | the isolator's 1-based label range is productNum+1 to productNum+2, so it keeps exactly the 0-based label indices productNum and productNum+1 |
| `Recommender.IsolatedPairInDomain` | src/main/java/seedu/address/logic/recommender/Recommender.java:104-109 | with an even number of label values, both label slots the isolator keeps lie inside the label domain |
| `Recommender.AddClassifier` | src/main/java/seedu/address/logic/recommender/Recommender.java:115-122 | registering needs the product id to be absent; afterwards it maps to the new classifier, all other entries are unchanged, and the registry grows by one |
| `Recommender.TrainFrom` | src/main/java/seedu/address/logic/recommender/Recommender.java:68-75 | the loop from an even index on keeps earlier entries; a visited product is registered exactly when its trainer trained, and then under that trainer's classifier; no key appears that was not visited; each iteration adds at most one entry |
| `Recommender.TrainRecommenderOnOrders` | src/main/java/seedu/address/logic/recommender/Recommender.java:63-76 | when the even-slot ids are distinct, no insert overwrites a key; every key is the value at an even index; an even-slot product is registered exactly when trained; the registry has at most ⌈n/2⌉ entries |
| `Recommender.DecisionsOver` | src/main/java/seedu/address/logic/recommender/Recommender.java:46-52 | the loop yields one decision per visited index, in order, carrying that product's probability; it fails at the first index with no registered classifier |
| `Recommender.ProductDecisions` | src/main/java/seedu/address/logic/recommender/Recommender.java:46-52 | before sorting there is one decision per even index, ascending, each with its product's probability; the query fails exactly when some even-slot product has no classifier, naming the first one |
| `Recommender.GetRecommendations` | src/main/java/seedu/address/logic/recommender/Recommender.java:42-55 | the result has one decision per product, is non-increasing in probability, is a permutation of the unsorted decisions, and keeps equal-probability decisions in their original order; it fails exactly when an even-slot product is unregistered |
| `Recommender.QuerySucceedsIffEveryProductTrained` | src/main/java/seedu/address/logic/recommender/Recommender.java:46-50 | after training, a query succeeds exactly when every product's trainer trained |
| `Recommender.HigherProbabilityRanksFirst` | src/main/java/seedu/address/logic/recommender/Recommender.java:42-55 | with products A at 0.3 and B at 0.9, the ranking is B then A |
| `Recommender.TiesKeepIndexOrder` | src/main/java/seedu/address/logic/recommender/Recommender.java:53 | with products A and B at equal probability, A (the lower index) stays first |
| `Ranking.DoubleCompare` | src/main/java/seedu/address/logic/recommender/Recommender.java:16 | `Double.compare` is negative, zero or positive as its first argument is below, equal to or above the second |
| `Ranking.CompareTo` | src/main/java/seedu/address/logic/recommender/Recommender.java:141-144 | negative when this probability exceeds the other's, zero when they are equal, positive when it is lower |
| `Ranking.CompareToIsConsistent` | src/main/java/seedu/address/logic/recommender/Recommender.java:141-144 | the comparator is antisymmetric in sign and transitive, as `Comparable` requires |
| `Ranking.OrderedIsDescendingProbability` | src/main/java/seedu/address/logic/recommender/Recommender.java:142-144 | a list in ascending comparator order is exactly one that is non-increasing in probability |
| `Ranking.Insert` | src/main/java/seedu/address/logic/recommender/Recommender.java:53 | inserting into an ordered list keeps it ordered, adds exactly the new decision, and puts it ahead of the decisions with equal probability |
| `Ranking.SortDecisions` | src/main/java/seedu/address/logic/recommender/Recommender.java:53 | the sorted list is ordered by the comparator, is a permutation of the input, and keeps each group of equal-probability decisions in input order (stability) |
| `Ranking.SortTwo` | src/main/java/seedu/address/logic/recommender/Recommender.java:53 | two decisions are swapped exactly when the second has the strictly higher probability |
| `Ranking.OrderedWithSameTiesAreEqual` | src/main/java/seedu/address/logic/recommender/Recommender.java:53 | two ordered lists whose equal-probability groups match are identical |
| `Ranking.StableSortIsUnique` | src/main/java/seedu/address/logic/recommender/Recommender.java:53 | any ordered list with the same equal-probability groups as the input equals `SortDecisions` of it, so every stable sort ranks the same way |

Three behaviours of the code that the model keeps:
- The query walks the even slots of the label domain. A product without a
  classifier makes `classifierDict.get` return `null`, and the next call
  throws. The model returns `Failure(NullClassifier(id))` for the first such
  product, so a partial registry does not give a partial ranking.
- A data set that cannot be loaded never yields a recommender. If the file
  cannot be opened, `reader` stays `null`; the `NullPointerException` that
  follows is not an `IOException`, so the constructor throws while loading
  and training never starts. If the file opens but cannot be parsed, the
  `IOException` is caught, `orders` stays `null`, and training throws at its
  first use of `orders`. The loader is not part of this model.
- If the isolator options are rejected, the code prints a message and still
  trains with a default-configured filter. The options come from a fixed
  format with two integers, so the model has no rejection path.

## Left out

- I/O: reading the ARFF training file, the fixed `RecInput.arff` query file, the reader handling and every console message. These are file and console effects.
- Weka internals: `ProductTrainer`, `Classifier`, what `RemoveWithValues` does to rows, and `distributionForInstance`. These are library code, modelled as given functions.
- The wall clock: `LocalDateTime.now()` is the `now` parameter of the fresh-order constructors. `Order.toString` and `RecommenderProductDecision.toString` are text rendering and are left out.
- `Order.equals`: it compares the sub-order lists by reference, which has no value-level counterpart.
- `Money` and `SubOrder` internals: these classes are not part of this model. `Money` is an integer amount, where `plus` is `+` and `isMinus` is `< 0`. `new Money()` is taken to be zero. `SubOrder.getTotalPrice` and `SubOrder.isValid(products)` are function parameters.
- Getters (`getId`, `getPersonId`, `getTime`, `getSubOrders`, `setFilePath`): these are datatype fields or plain assignments.
- FreshIdsExceedEarlierIds: holds only for runs without `decrementOrderCounter` and before the counter reaches 2^31-1. `DecrementAfterRestoreReissuesId` and `CreateAtMaxIntWraps` show that distinctness fails without these conditions. `CreateThenDecrementRestoresCounter` covers the intended use of the decrement.
- CounterStaysNonNegative: assumes that no creation finds the counter at 2^31-1, because `++` then wraps it to a negative value.
- DoubleCompare: probabilities are reals, so NaN and the order of -0.0 against 0.0 are left out.
- TrainRecommenderOnOrders: requires the product ids in the even slots to be pairwise distinct. A Weka nominal attribute rejects duplicate values, and the source's `assert` before each insert depends on this.
- ProductIndices: the loop index is a Java `int`; its overflow past 2^31-1 is not modelled, since a label domain is never that large.
- Concurrency and retraining: the code is single-threaded and builds the registry once.
