/** The trade record the engine publishes, one per pairing. */
module Events {
  import opened Options

  datatype TradeHistoryEvent = TradeHistoryEvent(
    companyCode: string,
    buyOrderId: int,
    buyAccountId: Option<int>,
    sellOrderId: int,
    sellAccountId: Option<int>,
    quantity: int,
    price: int,
    tradeAt: int)

  /** The quantity traded by a list of events. */
  function Traded(events: seq<TradeHistoryEvent>): int {
    if events == [] then 0 else events[0].quantity + Traded(events[1..])
  }

  lemma {:induction false} TradedAppend(a: seq<TradeHistoryEvent>, b: seq<TradeHistoryEvent>)
    ensures Traded(a + b) == Traded(a) + Traded(b)
  {
    if a == [] {
      assert a + b == b;
    } else {
      assert (a + b)[1..] == a[1..] + b;
      TradedAppend(a[1..], b);
    }
  }
}
