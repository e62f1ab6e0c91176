/** Customer orders: the process-wide order-id counter, the order total and
    the validity check of `Order`.

    The counter is a Java `int` that every constructor reads and writes. Here
    it is an explicit state value: each constructor takes the counter before
    the call and returns the order together with the counter after it. */
module Orders {
  import opened JavaInt

  /** A money amount; `Money.plus` is `+` and `Money.isMinus` is `< 0`. */
  type Money = int

  /** A customer; only the e-mail address, which identifies the customer, matters here. */
  datatype Person = Person(email: string)

  /** An order of the customer `personId`, made of sub-orders of type `S`.
      `time` is the moment the order was made, supplied by the caller. */
  datatype Order<S> = Order(id: Int32, personId: string, time: int, subOrders: seq<S>)

  /** What a constructor produces: the order and the counter after it. */
  datatype Created<S> = Created(order: Order<S>, counter: Int32)

  /** The counter's value when the program starts. */
  const InitialCounter: Int32 := 0

  // ---------------------------------------------------------------------------
  // The three counter transitions

  /** `++orderCounter`: the id a fresh order receives, which is also the new counter. */
  function NextId(counter: Int32): (r: Int32)
    ensures counter < MaxInt ==> r == counter + 1
    ensures counter == MaxInt ==> r == MinInt
  {
    Wrap(counter + 1)
  }

  /** `Math.max(orderCounter, id)`: the counter after restoring the order `id`. */
  function RaiseTo(counter: Int32, id: Int32): (r: Int32)
    ensures r >= counter && r >= id
    ensures r == counter || r == id
  {
    if counter >= id then counter else id
  }

  /** `Math.max(orderCounter - 1, 0)`, where the subtraction is on `int`. */
  function Decremented(counter: Int32): (r: Int32)
    ensures r >= 0
    ensures counter > 0 ==> r == counter - 1
    ensures MinInt < counter <= 0 ==> r == 0
    ensures counter == MinInt ==> r == MaxInt
  {
    var lowered := Wrap(counter - 1);
    if lowered >= 0 then lowered else 0
  }

  // ---------------------------------------------------------------------------
  // The four constructors

  /** A fresh order for the customer with e-mail `personId`, made at `now`. */
  function NewOrder<S>(counter: Int32, personId: string, subOrders: seq<S>, now: int): (r: Created<S>)
    ensures counter < MaxInt ==> r.order.id == counter + 1
    ensures r.counter == r.order.id
    ensures r.order.personId == personId && r.order.subOrders == subOrders && r.order.time == now
  {
    var id := NextId(counter);
    Created(Order(id, personId, now, subOrders), id)
  }

  /** A fresh order for `person`, identified by the person's e-mail. */
  function NewOrderFor<S>(counter: Int32, person: Person, subOrders: seq<S>, now: int): (r: Created<S>)
    ensures counter < MaxInt ==> r.order.id == counter + 1
    ensures r.counter == r.order.id
    ensures r.order.personId == person.email && r.order.subOrders == subOrders && r.order.time == now
  {
    NewOrder(counter, person.email, subOrders, now)
  }

  /** An order read back from storage with its stored `id` and `time`. */
  function RestoreOrder<S>(counter: Int32, id: Int32, personId: string, time: int, subOrders: seq<S>): (r: Created<S>)
    ensures r.order.id == id
    ensures r.counter >= counter && r.counter >= id
    ensures r.counter == counter || r.counter == id
    ensures r.order.personId == personId && r.order.subOrders == subOrders && r.order.time == time
  {
    Created(Order(id, personId, time, subOrders), RaiseTo(counter, id))
  }

  /** An order read back from storage for `person`. */
  function RestoreOrderFor<S>(counter: Int32, id: Int32, person: Person, time: int, subOrders: seq<S>): (r: Created<S>)
    ensures r.order.id == id
    ensures r.counter >= counter && r.counter >= id
    ensures r.counter == counter || r.counter == id
    ensures r.order.personId == person.email && r.order.subOrders == subOrders && r.order.time == time
  {
    RestoreOrder(counter, id, person.email, time, subOrders)
  }

  // ---------------------------------------------------------------------------
  // The counter as a state machine

  /** One use of the counter: a fresh order, a restored order, or `decrementOrderCounter`. */
  datatype CounterOp = Create | Restore(id: Int32) | Decrement

  function Step(counter: Int32, op: CounterOp): Int32
  {
    match op
    case Create => NextId(counter)
    case Restore(id) => RaiseTo(counter, id)
    case Decrement => Decremented(counter)
  }

  /** `Step` and `IssuedIds` are the counter effect and the id of the four
      constructors: performing a creation or a restore first issues the id
      of the order the constructor builds and continues from the counter
      the constructor leaves. */
  lemma StepFollowsConstructors<S>(counter: Int32, id: Int32, personId: string, subOrders: seq<S>, now: int, ops: seq<CounterOp>)
    ensures var c := NewOrder(counter, personId, subOrders, now);
      Step(counter, Create) == c.counter
      && IssuedIds(counter, [Create] + ops) == [c.order.id] + IssuedIds(c.counter, ops)
    ensures var c := RestoreOrder(counter, id, personId, now, subOrders);
      Step(counter, Restore(id)) == c.counter
      && IssuedIds(counter, [Restore(id)] + ops) == [c.order.id] + IssuedIds(c.counter, ops)
    ensures Step(counter, Decrement) == Decremented(counter)
      && IssuedIds(counter, [Decrement] + ops) == IssuedIds(Decremented(counter), ops)
  {
    assert ([Create] + ops)[1..] == ops;
    assert ([Restore(id)] + ops)[1..] == ops;
    assert ([Decrement] + ops)[1..] == ops;
  }

  /** The counter after performing `ops` in order. */
  function Run(counter: Int32, ops: seq<CounterOp>): Int32
    decreases |ops|
  {
    if |ops| == 0 then counter else Run(Step(counter, ops[0]), ops[1..])
  }

  /** The ids of the orders that `ops` construct, in order; a decrement constructs none. */
  function IssuedIds(counter: Int32, ops: seq<CounterOp>): seq<Int32>
    decreases |ops|
  {
    if |ops| == 0 then []
    else
      var rest := IssuedIds(Step(counter, ops[0]), ops[1..]);
      match ops[0]
      case Create => [NextId(counter)] + rest
      case Restore(id) => [id] + rest
      case Decrement => rest
  }

  /** No fresh order in `ops` finds the counter at `MaxInt`, where `++` wraps. */
  predicate NeverFull(counter: Int32, ops: seq<CounterOp>)
    decreases |ops|
  {
    |ops| == 0 || ((ops[0].Create? ==> counter < MaxInt) && NeverFull(Step(counter, ops[0]), ops[1..]))
  }

  predicate NoDecrement(ops: seq<CounterOp>)
  {
    forall k :: 0 <= k < |ops| ==> !ops[k].Decrement?
  }

  /** Starting from a non-negative counter, the counter stays non-negative
      whatever is created, restored or decremented, as long as it never wraps. */
  lemma {:induction false} CounterStaysNonNegative(counter: Int32, ops: seq<CounterOp>)
    requires counter >= 0
    requires NeverFull(counter, ops)
    ensures Run(counter, ops) >= 0
    decreases |ops|
  {
    if |ops| > 0 {
      CounterStaysNonNegative(Step(counter, ops[0]), ops[1..]);
    }
  }

  /** A fresh order at a full counter gets a negative id and leaves a negative counter. */
  lemma CreateAtMaxIntWraps(subOrders: seq<int>, now: int)
    ensures NewOrder(MaxInt, "", subOrders, now).order.id == MinInt
    ensures Run(MaxInt, [Create]) < 0
  {
  }

  /** Creating a fresh order and then decrementing gives the counter back. */
  lemma CreateThenDecrementRestoresCounter(counter: Int32)
    requires counter >= 0
    ensures Run(counter, [Create, Decrement]) == counter
  {
  }

  /** Without decrements, the counter never goes down. */
  lemma {:induction false} CounterNeverDecreases(counter: Int32, ops: seq<CounterOp>)
    requires NoDecrement(ops)
    requires NeverFull(counter, ops)
    ensures Run(counter, ops) >= counter
    decreases |ops|
  {
    if |ops| > 0 {
      assert NoDecrement(ops[1..]) by {
        forall k | 0 <= k < |ops[1..]| ensures !ops[1..][k].Decrement? {
          assert ops[1..][k] == ops[k + 1];
        }
      }
      CounterNeverDecreases(Step(counter, ops[0]), ops[1..]);
    }
  }

  /** The id-distinctness promise: without decrements and before the counter
      wraps, each fresh order gets an id greater than the counter it started
      from and greater than every id — restored or fresh — issued before it.
      So fresh ids differ from one another and from all previously restored ids. */
  lemma {:induction false} FreshIdsExceedEarlierIds(counter: Int32, ops: seq<CounterOp>)
    requires NoDecrement(ops)
    requires NeverFull(counter, ops)
    ensures |IssuedIds(counter, ops)| == |ops|
    ensures forall j :: 0 <= j < |ops| && ops[j].Create? ==> IssuedIds(counter, ops)[j] > counter
    ensures forall i, j :: 0 <= i < j < |ops| && ops[j].Create? ==>
              IssuedIds(counter, ops)[i] < IssuedIds(counter, ops)[j]
    decreases |ops|
  {
    if |ops| > 0 {
      var next := Step(counter, ops[0]);
      var rest := ops[1..];
      assert NoDecrement(rest) by {
        forall k | 0 <= k < |rest| ensures !rest[k].Decrement? {
          assert rest[k] == ops[k + 1];
        }
      }
      FreshIdsExceedEarlierIds(next, rest);
      var ids := IssuedIds(counter, ops);
      var restIds := IssuedIds(next, rest);
      assert ids == [if ops[0].Create? then NextId(counter) else ops[0].id] + restIds;
      // The first id issued is at most the counter it leaves behind.
      assert ids[0] <= next;
      assert next >= counter;
      forall j | 1 <= j < |ops| && ops[j].Create?
        ensures ids[j] > next
      {
        assert rest[j - 1] == ops[j];
        assert ids[j] == restIds[j - 1];
      }
      forall i, j | 0 <= i < j < |ops| && ops[j].Create?
        ensures ids[i] < ids[j]
      {
        assert rest[j - 1] == ops[j];
        if i > 0 {
          assert ids[i] == restIds[i - 1];
        }
      }
    }
  }

  /** A decrement that does not undo a fresh order can hand out a restored id
      again: restore order 5, decrement, then a fresh order is also 5. */
  lemma DecrementAfterRestoreReissuesId()
    ensures IssuedIds(InitialCounter, [Restore(5), Decrement, Create]) == [5, 5]
  {
  }

  // ---------------------------------------------------------------------------
  // Total and validity

  /** The sum of the sub-order totals, `totalPrice` giving `SubOrder.getTotalPrice`. */
  function SubTotalSum<S>(subOrders: seq<S>, totalPrice: S -> Money): Money
  {
    if |subOrders| == 0 then 0 else totalPrice(subOrders[0]) + SubTotalSum(subOrders[1..], totalPrice)
  }

  lemma {:induction false} SubTotalSumAppend<S>(subOrders: seq<S>, last: S, totalPrice: S -> Money)
    ensures SubTotalSum(subOrders + [last], totalPrice) == SubTotalSum(subOrders, totalPrice) + totalPrice(last)
    decreases |subOrders|
  {
    if |subOrders| == 0 {
      assert subOrders + [last] == [last];
    } else {
      assert (subOrders + [last])[1..] == subOrders[1..] + [last];
      SubTotalSumAppend(subOrders[1..], last, totalPrice);
    }
  }

  /** `getOrderTotal`: adds the sub-order totals left to right onto a zero amount. */
  method GetOrderTotal<S>(order: Order<S>, totalPrice: S -> Money) returns (total: Money)
    ensures total == SubTotalSum(order.subOrders, totalPrice)
    ensures |order.subOrders| == 0 ==> total == 0
  {
    total := 0;
    var i := 0;
    while i < |order.subOrders|
      invariant 0 <= i <= |order.subOrders|
      invariant total == SubTotalSum(order.subOrders[..i], totalPrice)
    {
      SubTotalSumAppend(order.subOrders[..i], order.subOrders[i], totalPrice);
      assert order.subOrders[..i + 1] == order.subOrders[..i] + [order.subOrders[i]];
      total := total + totalPrice(order.subOrders[i]);
      i := i + 1;
    }
    assert order.subOrders[..i] == order.subOrders;
  }

  /** The four checks of `isValid`, stated declaratively: the order is not
      empty, its customer is known, every sub-order is valid against the
      products, and the total is not negative. */
  predicate Valid<S, P>(order: Order<S>, customers: seq<Person>, products: seq<P>,
                        subOrderValid: (S, seq<P>) -> bool, totalPrice: S -> Money)
  {
    && |order.subOrders| > 0
    && (exists k :: 0 <= k < |customers| && customers[k].email == order.personId)
    && (forall k :: 0 <= k < |order.subOrders| ==> subOrderValid(order.subOrders[k], products))
    && SubTotalSum(order.subOrders, totalPrice) >= 0
  }

  /** `isValid`: the checks run one after another, each folded into an accumulator. */
  method IsValid<S, P>(order: Order<S>, customers: seq<Person>, products: seq<P>,
                       subOrderValid: (S, seq<P>) -> bool, totalPrice: S -> Money) returns (valid: bool)
    ensures valid <==> Valid(order, customers, products, subOrderValid, totalPrice)
    ensures |order.subOrders| == 0 ==> !valid
  {
    valid := true;
    valid := |order.subOrders| > 0 && valid;

    var foundEmail := false;
    var c := 0;
    while c < |customers|
      invariant 0 <= c <= |customers|
      invariant !foundEmail
      invariant forall k :: 0 <= k < c ==> customers[k].email != order.personId
    {
      if customers[c].email == order.personId {
        foundEmail := true;
        break;
      }
      c := c + 1;
    }
    valid := foundEmail && valid;

    var allSubOrdersValid := true;
    var s := 0;
    while s < |order.subOrders|
      invariant 0 <= s <= |order.subOrders|
      invariant allSubOrdersValid
      invariant forall k :: 0 <= k < s ==> subOrderValid(order.subOrders[k], products)
    {
      if !subOrderValid(order.subOrders[s], products) {
        allSubOrdersValid := false;
        break;
      }
      s := s + 1;
    }
    valid := allSubOrdersValid && valid;

    var total := GetOrderTotal(order, totalPrice);
    var negativeOrderPrice := total < 0;
    valid := !negativeOrderPrice && valid;
  }
}
