/** Orders and their price-time priority (sw_sim/heap.h). */
module Orders {

  datatype Side = Ask | Bid

  // The id stands for the identity of the order object, which the comparators return.
  datatype Order = Order(id: nat, side: Side, price: int, timestamp: int, amount: int)

  const MAX_AMOUNT := 0x7FFF

  predicate IsShort(x: int) {
    -0x8000 <= x < 0x8000
  }

  /** What the field types of the source can hold, with a positive number of shares. */
  predicate ValidOrder(o: Order) {
    && IsShort(o.price)
    && 0 <= o.timestamp < 0x1_0000_0000
    && 1 <= o.amount <= MAX_AMOUNT
  }

  /** min_cmp returns its first argument. */
  predicate MinCmp(a: Order, b: Order) {
    if a.price < b.price then true
    else if a.price == b.price then
      if a.timestamp < b.timestamp then true
      else if a.timestamp == b.timestamp then a.amount > b.amount
      else false
    else false
  }

  /** max_cmp returns its first argument. */
  predicate MaxCmp(a: Order, b: Order) {
    if a.price > b.price then true
    else if a.price == b.price then
      if a.timestamp < b.timestamp then true
      else if a.timestamp == b.timestamp then a.amount > b.amount
      else false
    else false
  }

  /** The comparator of the heap on one side picks a over b. */
  predicate Beats(side: Side, a: Order, b: Order) {
    if side == Ask then MinCmp(a, b) else MaxCmp(a, b)
  }

  function Key(o: Order): (int, int) {
    (o.price, o.timestamp)
  }

  /** Priority on (price, timestamp) alone: a partial fill lowers an amount in place and
      never restores the amount tie-break, so no heap keeps that one. */
  predicate NoWorse(side: Side, a: Order, b: Order) {
    if a.price == b.price then a.timestamp <= b.timestamp
    else if side == Ask then a.price < b.price
    else a.price > b.price
  }

  lemma BeatsIsNoWorse(side: Side, a: Order, b: Order)
    ensures Beats(side, a, b) ==> NoWorse(side, a, b)
    ensures !Beats(side, a, b) ==> NoWorse(side, b, a)
  {
  }

  lemma NoWorseIsTotalPreorder(side: Side, a: Order, b: Order, c: Order)
    ensures NoWorse(side, a, b) || NoWorse(side, b, a)
    ensures NoWorse(side, a, b) && NoWorse(side, b, c) ==> NoWorse(side, a, c)
    ensures NoWorse(side, a, b) && NoWorse(side, b, a) ==> Key(a) == Key(b)
  {
  }
}
