/**
 * The trading order. Its identity (id, instrument, type, total quantity)
 * is immutable; price, creation time and account have no setter and are
 * never assigned after construction, so they are constants here too.
 * Only the remaining quantity and the status change, and only through
 * DecreaseRemainingQuantity and CheckAndChangeOrderStatus.
 */
module Orders {
  import opened Options
  import opened Types

  datatype OrderStatus = Active | Complete

  /** Priority of a resting order inside one price level. */
  datatype SortKey = SortKey(createdDateTime: int, totalQuantity: int, id: int)

  /**
   * a is served before b: earlier creation time first, then the larger
   * total quantity, then the smaller id.
   */
  predicate Precedes(a: SortKey, b: SortKey) {
    || a.createdDateTime < b.createdDateTime
    || (&& a.createdDateTime == b.createdDateTime
        && (|| a.totalQuantity > b.totalQuantity
            || (a.totalQuantity == b.totalQuantity && a.id < b.id)))
  }

  /** The priority comparator is a strict total order on keys. */
  lemma PrecedesIsStrictTotalOrder(a: SortKey, b: SortKey, c: SortKey)
    ensures !Precedes(a, a)
    ensures Precedes(a, b) && Precedes(b, c) ==> Precedes(a, c)
    ensures a == b || Precedes(a, b) || Precedes(b, a)
    ensures !(Precedes(a, b) && Precedes(b, a))
  {
  }

  /** The mutable part of an order at one moment, together with the order itself. */
  datatype OrderView = OrderView(order: TradeOrder, remaining: int, status: OrderStatus) {

    /** decreaseRemainingQuantity: subtract without a floor; COMPLETE once exactly zero. */
    function Decreased(quantity: int): OrderView {
      var left := remaining - quantity;
      OrderView(order, left, if left == 0 then Complete else status)
    }

    /** The status check the matching loop runs after each decrement. */
    function StatusChecked(): OrderView {
      if remaining == 0 then this.(status := Complete) else this
    }

    /** BigDecimal.min: this order's remainder unless the other's is strictly smaller. */
    function MatchQuantity(other: OrderView): (q: int)
      ensures q <= remaining && q <= other.remaining
      ensures q == remaining || q == other.remaining
    {
      if remaining <= other.remaining then remaining else other.remaining
    }

    predicate IsCompletelyFilled() {
      remaining == 0
    }

    /** The status agrees with the remainder: COMPLETE exactly when nothing is left. */
    predicate StatusConsistent() {
      status == Complete <==> remaining == 0
    }
  }

  class TradeOrder {
    const id: int
    const companyCode: string
    const kind: OrderType
    const totalQuantity: int
    const price: int
    const createdDateTime: int
    const accountId: Option<int>
    var status: OrderStatus
    var remainingQuantity: int

    constructor (id: int, companyCode: string, kind: OrderType, status: OrderStatus,
                 totalQuantity: int, remainingQuantity: int, price: int,
                 createdDateTime: int, accountId: Option<int>)
      ensures this.id == id && this.companyCode == companyCode && this.kind == kind
      ensures this.totalQuantity == totalQuantity && this.price == price
      ensures this.createdDateTime == createdDateTime && this.accountId == accountId
      ensures View() == OrderView(this, remainingQuantity, status)
    {
      this.id := id;
      this.companyCode := companyCode;
      this.kind := kind;
      this.status := status;
      this.totalQuantity := totalQuantity;
      this.remainingQuantity := remainingQuantity;
      this.price := price;
      this.createdDateTime := createdDateTime;
      this.accountId := accountId;
    }

    function View(): OrderView
      reads this`remainingQuantity, this`status
    {
      OrderView(this, remainingQuantity, status)
    }

    function Key(): SortKey {
      SortKey(createdDateTime, totalQuantity, id)
    }

    /** Self-trade test: false for a null account, otherwise equality with this order's account. */
    predicate HasSameAccount(otherAccountId: Option<int>) {
      if otherAccountId.None? then false else otherAccountId == accountId
    }

    method DecreaseRemainingQuantity(quantity: int)
      modifies this
      ensures View() == old(View()).Decreased(quantity)
    {
      remainingQuantity := remainingQuantity - quantity;
      if remainingQuantity == 0 {
        status := Complete;
      }
    }

    predicate IsSellType() {
      kind.IsSell()
    }

    predicate IsMarketOrder() {
      kind.IsMarket()
    }

    predicate HasRemainingQuantity()
      reads this`remainingQuantity
    {
      remainingQuantity != 0
    }

    function CalculateMatchQuantity(other: TradeOrder): (q: int)
      reads this`remainingQuantity, this`status, other`remainingQuantity, other`status
      ensures q <= remainingQuantity && q <= other.remainingQuantity
      ensures q == remainingQuantity || q == other.remainingQuantity
      ensures q == View().MatchQuantity(other.View())
    {
      View().MatchQuantity(other.View())
    }

    predicate IsCompletelyFilled()
      reads this`remainingQuantity, this`status
    {
      View().IsCompletelyFilled()
    }

    method CheckAndChangeOrderStatus()
      modifies this
      ensures View() == old(View()).StatusChecked()
    {
      if remainingQuantity == 0 {
        status := Complete;
      }
    }
  }

  function OrderKey(o: TradeOrder): SortKey {
    o.Key()
  }

  function ViewKey(v: OrderView): SortKey {
    v.order.Key()
  }

  /** The views of a sequence of orders, position by position. */
  ghost function Views(s: seq<TradeOrder>): (r: seq<OrderView>)
    reads s`remainingQuantity, s`status
    ensures |r| == |s|
  {
    if s == [] then [] else [s[0].View()] + Views(s[1..])
  }

  /** Every order of the set is used up: nothing left, status COMPLETE. */
  ghost predicate AllFilled(s: set<TradeOrder>)
    reads s`remainingQuantity, s`status
  {
    forall o :: o in s ==> o.remainingQuantity == 0 && o.status == Complete
  }

  // ---------------------------------------------------------------------
  // Properties of the order operations

  /** hasSameAccount(null) is false; otherwise it is equality with the order's own account. */
  lemma HasSameAccountSpec(o: TradeOrder, other: Option<int>)
    ensures !o.HasSameAccount(None)
    ensures other.Some? ==> (o.HasSameAccount(other) <==> o.accountId == other)
  {
  }

  /** The self-trade test is symmetric between two orders. */
  lemma HasSameAccountSymmetric(a: TradeOrder, b: TradeOrder)
    ensures a.HasSameAccount(b.accountId) <==> b.HasSameAccount(a.accountId)
  {
  }

  /**
   * A decrement takes exactly the quantity off, with no floor; the status
   * becomes COMPLETE when the remainder is exactly zero and is otherwise
   * left alone (never reset to ACTIVE); the identity is untouched.
   */
  lemma DecreasedSpec(v: OrderView, q: int)
    ensures v.Decreased(q).order == v.order
    ensures v.Decreased(q).remaining == v.remaining - q
    ensures v.Decreased(q).remaining == 0 ==> v.Decreased(q).status == Complete
    ensures v.Decreased(q).remaining != 0 ==> v.Decreased(q).status == v.status
    ensures v.status == Complete ==> v.Decreased(q).status == Complete
  {
  }

  /** calculateMatchQuantity is symmetric. */
  lemma MatchQuantitySymmetric(a: OrderView, b: OrderView)
    ensures a.MatchQuantity(b) == b.MatchQuantity(a)
  {
  }

  /**
   * One pairing: both sides drop by the match quantity, at least one of
   * them reaches zero, and non-negative remainders stay non-negative.
   */
  lemma PairingFillsOneSide(a: OrderView, b: OrderView)
    ensures var q := a.MatchQuantity(b);
      a.Decreased(q).remaining == 0 || b.Decreased(q).remaining == 0
    ensures var q := a.MatchQuantity(b);
      a.remaining >= 0 && b.remaining >= 0 ==>
        0 <= a.Decreased(q).remaining <= a.remaining && 0 <= b.Decreased(q).remaining <= b.remaining
  {
  }

  /**
   * The status invariant (COMPLETE iff nothing left) survives a pairing
   * followed by the status check, for two orders that both had quantity left.
   */
  lemma PairingKeepsStatusConsistent(a: OrderView, b: OrderView)
    requires a.StatusConsistent() && b.StatusConsistent()
    requires a.remaining != 0 && b.remaining != 0
    ensures var q := a.MatchQuantity(b);
      a.Decreased(q).StatusChecked().StatusConsistent() && b.Decreased(q).StatusChecked().StatusConsistent()
  {
  }

  /** isCompletelyFilled holds exactly when the remainder is zero. */
  lemma CompletelyFilledIffZero(o: TradeOrder)
    ensures o.IsCompletelyFilled() <==> o.remainingQuantity == 0
  {
  }
}
