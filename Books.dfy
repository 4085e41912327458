/**
 * One instrument's order book: two maps from price to price level, the
 * sells served lowest price first and the buys highest price first. A
 * limit order trades only with the opposite level at its own exact price
 * and rests whatever is left on its own side; a market order sweeps the
 * opposite levels best price first and never rests.
 *
 * The first half states the book on values (BookView) and proves its
 * properties; the second half is the book object, whose methods are
 * proved to do what the value functions say.
 */
module Books {
  import opened Options
  import opened Types
  import opened Prices
  import opened Orders
  import opened Events
  import opened Storage

  // ---------------------------------------------------------------------
  // The book on values

  /** Each side as a map from price to that level's orders, in priority order. */
  datatype BookView = BookView(sells: map<Price, seq<OrderView>>, buys: map<Price, seq<OrderView>>)

  datatype BookOutcome = BookOutcome(book: BookView, incoming: OrderView, events: seq<TradeHistoryEvent>)

  /** The side an order trades against: the buys for a sell order, the sells for a buy order. */
  function Counter(b: BookView, o: TradeOrder): map<Price, seq<OrderView>> {
    if o.IsSellType() then b.buys else b.sells
  }

  /** The side an order rests on. */
  function Own(b: BookView, o: TradeOrder): map<Price, seq<OrderView>> {
    if o.IsSellType() then b.sells else b.buys
  }

  /** A side by its flag: the sells when sell holds, the buys otherwise. */
  function SideOf(b: BookView, sell: bool): map<Price, seq<OrderView>> {
    if sell then b.sells else b.buys
  }

  function WithSide(b: BookView, sell: bool, m: map<Price, seq<OrderView>>): (r: BookView)
    ensures SideOf(r, sell) == m && SideOf(r, !sell) == SideOf(b, !sell)
  {
    if sell then b.(sells := m) else b.(buys := m)
  }

  function WithCounter(b: BookView, o: TradeOrder, m: map<Price, seq<OrderView>>): (r: BookView)
    ensures Counter(r, o) == m && Own(r, o) == Own(b, o)
  {
    if o.IsSellType() then b.(buys := m) else b.(sells := m)
  }

  function WithOwn(b: BookView, o: TradeOrder, m: map<Price, seq<OrderView>>): (r: BookView)
    ensures Own(r, o) == m && Counter(r, o) == Counter(b, o)
  {
    if o.IsSellType() then b.(sells := m) else b.(buys := m)
  }

  /** The level at a price; a price with no entry has no orders. */
  function LevelAt(m: map<Price, seq<OrderView>>, p: Price): seq<OrderView> {
    if p in m then m[p] else []
  }

  /**
   * CompanyOrderBook.match on values: while the order has quantity left
   * and the opposite level at the price exists and is not empty, match the
   * level once. A second pass over the level it leaves trades nothing
   * (MatchLevelIdempotent), so one pass is the whole effect.
   */
  ghost function MatchAt(b: BookView, price: Price, inc: OrderView, tradeAt: int): BookOutcome {
    var counter := Counter(b, inc.order);
    if inc.remaining == 0 || price !in counter || counter[price] == [] then
      BookOutcome(b, inc, [])
    else
      var r := MatchLevel(inc, counter[price], tradeAt);
      BookOutcome(WithCounter(b, inc.order, counter[price := r.level]), r.incoming, r.events)
  }

  /** p is the first key in the map's order: lowest when ascending, highest otherwise. */
  predicate IsBest(p: Price, keys: set<Price>, ascending: bool) {
    p in keys && forall q :: q in keys ==> if ascending then p.value <= q.value else q.value <= p.value
  }

  lemma {:induction false} BestExists(keys: set<Price>, ascending: bool)
    requires keys != {}
    ensures exists p :: IsBest(p, keys, ascending)
    decreases |keys|
  {
    var x :| x in keys;
    if keys != {x} {
      BestExists(keys - {x}, ascending);
      var p :| IsBest(p, keys - {x}, ascending);
      if ascending {
        if x.value <= p.value {
          assert IsBest(x, keys, ascending);
        } else {
          assert IsBest(p, keys, ascending);
        }
      } else {
        if p.value <= x.value {
          assert IsBest(x, keys, ascending);
        } else {
          assert IsBest(p, keys, ascending);
        }
      }
    } else {
      assert IsBest(x, keys, ascending);
    }
  }

  /** The first key is unique, because prices are equal exactly when their values are. */
  lemma BestUnique(p: Price, q: Price, keys: set<Price>, ascending: bool)
    requires IsBest(p, keys, ascending) && IsBest(q, keys, ascending)
    ensures p == q
  {
  }

  ghost function Best(keys: set<Price>, ascending: bool): (p: Price)
    requires keys != {}
    ensures IsBest(p, keys, ascending)
  {
    BestExists(keys, ascending);
    var p :| IsBest(p, keys, ascending);
    p
  }

  /** Market buys take the sells lowest first; market sells take the buys highest first. */
  predicate SweepAscending(o: TradeOrder) {
    !o.IsSellType()
  }

  /** processMarketOrder on values: match at every key of the opposite side, in the map's order. */
  ghost function Sweep(b: BookView, keys: set<Price>, inc: OrderView, tradeAt: int): BookOutcome
    decreases |keys|
  {
    if keys == {} then
      BookOutcome(b, inc, [])
    else
      var p := Best(keys, SweepAscending(inc.order));
      var r := MatchAt(b, p, inc, tradeAt);
      var s := Sweep(r.book, keys - {p}, r.incoming, tradeAt);
      BookOutcome(s.book, s.incoming, r.events + s.events)
  }

  ghost function ProcessMarket(b: BookView, inc: OrderView, tradeAt: int): BookOutcome {
    Sweep(b, Counter(b, inc.order).Keys, inc, tradeAt)
  }

  /** addRemainingTradeOrder on values: the order joins its own side's level at its price. */
  function AddRemaining(b: BookView, v: OrderView): BookView {
    var p := Price(v.order.price);
    var own := Own(b, v.order);
    WithOwn(b, v.order, own[p := Insert(LevelAt(own, p), v, ViewKey)])
  }

  /** processLimitOrder on values: match at the order's own price, then rest what is left. */
  ghost function ProcessLimit(b: BookView, inc: OrderView, tradeAt: int): BookOutcome {
    var r := MatchAt(b, Price(inc.order.price), inc, tradeAt);
    if r.incoming.remaining != 0 then r.(book := AddRemaining(r.book, r.incoming)) else r
  }

  /** received on values: market orders sweep, all others are limit orders. */
  ghost function ReceivedOutcome(b: BookView, inc: OrderView, tradeAt: int): BookOutcome {
    if inc.order.IsMarketOrder() then ProcessMarket(b, inc, tradeAt) else ProcessLimit(b, inc, tradeAt)
  }

  // ---------------------------------------------------------------------
  // Shape of a book

  /** Every order at key p of a side has price p and belongs on that side. */
  ghost predicate PlacedSide(m: map<Price, seq<OrderView>>, sell: bool) {
    forall p, v :: p in m && v in m[p] ==> v.order.price == p.value && v.order.IsSellType() == sell
  }

  ghost predicate Placed(b: BookView) {
    PlacedSide(b.sells, true) && PlacedSide(b.buys, false)
  }

  /** Every level is in strict priority order. */
  ghost predicate OrderedSide(m: map<Price, seq<OrderView>>) {
    forall p :: p in m ==> Sorted(m[p], ViewKey)
  }

  ghost predicate WellFormed(b: BookView) {
    Placed(b) && OrderedSide(b.sells) && OrderedSide(b.buys)
  }

  /** Every order resting on a side still has quantity and is ACTIVE. */
  ghost predicate LiveSide(m: map<Price, seq<OrderView>>) {
    forall p, v :: p in m && v in m[p] ==> v.remaining > 0 && v.status == Active
  }

  ghost predicate Live(b: BookView) {
    LiveSide(b.sells) && LiveSide(b.buys)
  }

  ghost function PriceValues(keys: set<Price>): set<int> {
    set p | p in keys :: p.value
  }

  /** Event prices in the order the sweep meets its levels. */
  ghost predicate PricesInOrder(events: seq<TradeHistoryEvent>, ascending: bool) {
    forall i, j :: 0 <= i < j < |events| ==>
      if ascending then events[i].price <= events[j].price else events[j].price <= events[i].price
  }

  // ---------------------------------------------------------------------
  // Properties of one match at a price

  /**
   * Matching at a price changes the opposite level at that price and
   * nothing else: the own side, the key sets and every other level stay.
   * What the order lost is what the events traded.
   */
  lemma MatchAtFrame(b: BookView, price: Price, inc: OrderView, tradeAt: int)
    ensures var r := MatchAt(b, price, inc, tradeAt);
      && Own(r.book, inc.order) == Own(b, inc.order)
      && Counter(r.book, inc.order).Keys == Counter(b, inc.order).Keys
      && (forall q :: q in Counter(b, inc.order) && q != price ==>
            Counter(r.book, inc.order)[q] == Counter(b, inc.order)[q])
      && r.incoming.order == inc.order
      && Traded(r.events) == inc.remaining - r.incoming.remaining
  {
    var counter := Counter(b, inc.order);
    if !(inc.remaining == 0 || price !in counter || counter[price] == []) {
      MatchLevelConservation(inc, counter[price], tradeAt);
    }
  }

  /** Matching keeps every order where it belongs and every level in order. */
  lemma MatchAtKeepsWellFormed(b: BookView, price: Price, inc: OrderView, tradeAt: int)
    requires WellFormed(b)
    ensures WellFormed(MatchAt(b, price, inc, tradeAt).book)
  {
    var counter := Counter(b, inc.order);
    if !(inc.remaining == 0 || price !in counter || counter[price] == []) {
      var sell := !inc.order.IsSellType();
      var P := (o: TradeOrder) => o.price == price.value && o.IsSellType() == sell;
      MatchLevelOrdersFromLevel(inc, counter[price], tradeAt, P);
      MatchLevelKeepsSorted(inc, counter[price], tradeAt);
    }
  }

  /** The second pass of the loop in CompanyOrderBook.match finds nothing to do. */
  lemma MatchAtIdempotent(b: BookView, price: Price, inc: OrderView, tradeAt: int)
    ensures var r := MatchAt(b, price, inc, tradeAt);
      MatchAt(r.book, price, r.incoming, tradeAt) == BookOutcome(r.book, r.incoming, [])
  {
    var counter := Counter(b, inc.order);
    if !(inc.remaining == 0 || price !in counter || counter[price] == []) {
      var lr := MatchLevel(inc, counter[price], tradeAt);
      MatchLevelIdempotent(inc, counter[price], tradeAt);
      MatchLevelConservation(inc, counter[price], tradeAt);
      var r := MatchAt(b, price, inc, tradeAt);
      assert Counter(r.book, inc.order)[price] == lr.level;
      assert counter[price := lr.level][price := lr.level] == counter[price := lr.level];
    }
  }

  // ---------------------------------------------------------------------
  // Limit orders

  /**
   * A limit order touches only its own price: on both sides every other
   * level is unchanged; the opposite level at the price is what matching
   * it leaves; the order rests at its price on its own side exactly when
   * something is left of it.
   */
  lemma {:induction false} LimitTouchesOnlyItsPrice(b: BookView, inc: OrderView, tradeAt: int)
    requires !inc.order.IsMarketOrder()
    ensures var r := ReceivedOutcome(b, inc, tradeAt);
      var price := Price(inc.order.price);
      && (forall q :: q != price ==> LevelAt(r.book.sells, q) == LevelAt(b.sells, q))
      && (forall q :: q != price ==> LevelAt(r.book.buys, q) == LevelAt(b.buys, q))
      && LevelAt(Counter(r.book, inc.order), price) == LevelAt(Counter(MatchAt(b, price, inc, tradeAt).book, inc.order), price)
      && (r.incoming.remaining != 0 ==>
            LevelAt(Own(r.book, inc.order), price) == Insert(LevelAt(Own(b, inc.order), price), r.incoming, ViewKey))
      && (r.incoming.remaining == 0 ==> Own(r.book, inc.order) == Own(b, inc.order))
  {
    var price := Price(inc.order.price);
    MatchAtFrame(b, price, inc, tradeAt);
    var m := MatchAt(b, price, inc, tradeAt);
    var r := ReceivedOutcome(b, inc, tradeAt);
    assert r == ProcessLimit(b, inc, tradeAt);
    forall q | q != price
      ensures LevelAt(r.book.sells, q) == LevelAt(b.sells, q) && LevelAt(r.book.buys, q) == LevelAt(b.buys, q)
    {
      assert LevelAt(Counter(m.book, inc.order), q) == LevelAt(Counter(b, inc.order), q);
    }
  }

  // ---------------------------------------------------------------------
  // Market orders

  /** A sweep never touches the order's own side nor any key set. */
  lemma {:induction false} SweepFrame(b: BookView, keys: set<Price>, inc: OrderView, tradeAt: int)
    ensures var s := Sweep(b, keys, inc, tradeAt);
      && Own(s.book, inc.order) == Own(b, inc.order)
      && Counter(s.book, inc.order).Keys == Counter(b, inc.order).Keys
      && s.incoming.order == inc.order
      && Traded(s.events) == inc.remaining - s.incoming.remaining
    decreases |keys|
  {
    if keys != {} {
      var p := Best(keys, SweepAscending(inc.order));
      var r := MatchAt(b, p, inc, tradeAt);
      MatchAtFrame(b, p, inc, tradeAt);
      SweepFrame(r.book, keys - {p}, r.incoming, tradeAt);
      TradedAppend(r.events, Sweep(r.book, keys - {p}, r.incoming, tradeAt).events);
    }
  }

  /** A market order never rests: its own side is unchanged, and no level is added or removed. */
  lemma MarketNeverRests(b: BookView, inc: OrderView, tradeAt: int)
    requires inc.order.IsMarketOrder()
    ensures var r := ReceivedOutcome(b, inc, tradeAt);
      && Own(r.book, inc.order) == Own(b, inc.order)
      && r.book.sells.Keys == b.sells.Keys && r.book.buys.Keys == b.buys.Keys
  {
    SweepFrame(b, Counter(b, inc.order).Keys, inc, tradeAt);
  }

  /** Events at one price followed by events no better than it keep the order. */
  lemma AppendInOrder(a: seq<TradeHistoryEvent>, c: seq<TradeHistoryEvent>, v: int, ascending: bool)
    requires forall e :: e in a ==> e.price == v
    requires forall e :: e in c ==> if ascending then v <= e.price else e.price <= v
    requires PricesInOrder(c, ascending)
    ensures PricesInOrder(a + c, ascending)
  {
    var t := a + c;
    forall i, j | 0 <= i < j < |t|
      ensures if ascending then t[i].price <= t[j].price else t[j].price <= t[i].price
    {
      if j < |a| {
        assert t[i] in a && t[j] in a;
      } else if i < |a| {
        assert t[i] in a && t[j] == c[j - |a|];
      } else {
        assert t[i] == c[i - |a|] && t[j] == c[j - |a|];
      }
    }
  }

  /** One match at a placed level trades at that level's price only. */
  lemma MatchAtPrices(b: BookView, p: Price, inc: OrderView, tradeAt: int)
    requires WellFormed(b) && inc.order.IsMarketOrder()
    ensures forall e :: e in MatchAt(b, p, inc, tradeAt).events ==> e.price == p.value
  {
    var counter := Counter(b, inc.order);
    if !(inc.remaining == 0 || p !in counter || counter[p] == []) {
      MatchLevelEventFields(inc, counter[p], tradeAt, p.value);
    }
  }

  /**
   * A sweep over a placed book trades at the keys' prices, in the map's
   * order: ascending over the sells for a market buy, descending over
   * the buys for a market sell.
   */
  lemma {:induction false} SweepPrices(b: BookView, keys: set<Price>, inc: OrderView, tradeAt: int)
    requires WellFormed(b) && inc.order.IsMarketOrder()
    ensures var s := Sweep(b, keys, inc, tradeAt);
      && (forall e :: e in s.events ==> exists p :: p in keys && e.price == p.value)
      && PricesInOrder(s.events, SweepAscending(inc.order))
    decreases |keys|
  {
    if keys != {} {
      var asc := SweepAscending(inc.order);
      var p := Best(keys, asc);
      var r := MatchAt(b, p, inc, tradeAt);
      var s := Sweep(r.book, keys - {p}, r.incoming, tradeAt);
      MatchAtFrame(b, p, inc, tradeAt);
      MatchAtKeepsWellFormed(b, p, inc, tradeAt);
      MatchAtPrices(b, p, inc, tradeAt);
      SweepPrices(r.book, keys - {p}, r.incoming, tradeAt);
      assert Sweep(b, keys, inc, tradeAt).events == r.events + s.events;
      forall e | e in s.events
        ensures (if asc then p.value <= e.price else e.price <= p.value) && e.price in PriceValues(keys)
      {
        var q :| q in keys - {p} && e.price == q.value;
      }
      AppendInOrder(r.events, s.events, p.value, asc);
      forall e | e in r.events + s.events ensures exists q :: q in keys && e.price == q.value {
        if e in r.events {
          assert p in keys;
        } else {
          assert e.price in PriceValues(keys);
        }
      }
    }
  }


  /** Sweeping keeps a well-formed book well-formed. */
  lemma {:induction false} SweepKeepsWellFormed(b: BookView, keys: set<Price>, inc: OrderView, tradeAt: int)
    requires WellFormed(b)
    ensures WellFormed(Sweep(b, keys, inc, tradeAt).book)
    decreases |keys|
  {
    if keys != {} {
      var p := Best(keys, SweepAscending(inc.order));
      var r := MatchAt(b, p, inc, tradeAt);
      MatchAtKeepsWellFormed(b, p, inc, tradeAt);
      SweepKeepsWellFormed(r.book, keys - {p}, r.incoming, tradeAt);
    }
  }

  /** Matching at a price that leaves the order with quantity has used up every eligible order there. */
  lemma MatchAtExhausts(b: BookView, p: Price, inc: OrderView, tradeAt: int)
    requires p in Counter(b, inc.order)
    ensures var r := MatchAt(b, p, inc, tradeAt);
      p in Counter(r.book, inc.order) &&
      (r.incoming.remaining != 0 ==> Eligible(inc.order, Counter(r.book, inc.order)[p]) == [])
  {
    var counter := Counter(b, inc.order);
    MatchAtFrame(b, p, inc, tradeAt);
    if !(inc.remaining == 0 || counter[p] == []) {
      MatchLevelPriority(inc, counter[p], tradeAt);
    }
  }

  /** A sweep leaves every level outside its keys as it was. */
  lemma {:induction false} SweepOutside(b: BookView, keys: set<Price>, inc: OrderView, tradeAt: int, q: Price)
    requires q !in keys && q in Counter(b, inc.order)
    ensures var s := Sweep(b, keys, inc, tradeAt);
      q in Counter(s.book, inc.order) && Counter(s.book, inc.order)[q] == Counter(b, inc.order)[q]
    decreases |keys|
  {
    if keys != {} {
      var p := Best(keys, SweepAscending(inc.order));
      var r := MatchAt(b, p, inc, tradeAt);
      MatchAtFrame(b, p, inc, tradeAt);
      SweepOutside(r.book, keys - {p}, r.incoming, tradeAt, q);
    }
  }

  /** Once the order is filled, the rest of the sweep trades nothing and changes nothing. */
  lemma {:induction false} SweepFilledStays(b: BookView, keys: set<Price>, inc: OrderView, tradeAt: int)
    requires inc.remaining == 0
    ensures Sweep(b, keys, inc, tradeAt) == BookOutcome(b, inc, [])
    decreases |keys|
  {
    if keys != {} {
      var p := Best(keys, SweepAscending(inc.order));
      SweepFilledStays(b, keys - {p}, inc, tradeAt);
    }
  }

  /** A sweep that leaves the order with quantity has used up every eligible order at its keys. */
  lemma {:induction false} SweepExhausts(b: BookView, keys: set<Price>, inc: OrderView, tradeAt: int)
    requires keys <= Counter(b, inc.order).Keys
    ensures var s := Sweep(b, keys, inc, tradeAt);
      s.incoming.remaining != 0 ==>
        forall p :: p in keys ==> p in Counter(s.book, inc.order) && Eligible(inc.order, Counter(s.book, inc.order)[p]) == []
    decreases |keys|
  {
    var s := Sweep(b, keys, inc, tradeAt);
    if keys != {} && s.incoming.remaining != 0 {
      var p := Best(keys, SweepAscending(inc.order));
      var r := MatchAt(b, p, inc, tradeAt);
      MatchAtFrame(b, p, inc, tradeAt);
      MatchAtExhausts(b, p, inc, tradeAt);
      if r.incoming.remaining == 0 {
        SweepFilledStays(r.book, keys - {p}, r.incoming, tradeAt);
      }
      SweepOutside(r.book, keys - {p}, r.incoming, tradeAt, p);
      SweepExhausts(r.book, keys - {p}, r.incoming, tradeAt);
    }
  }

  /** q comes strictly before the price v in the sweep's order. */
  predicate Before(q: Price, v: int, ascending: bool) {
    if ascending then q.value < v else v < q.value
  }

  /**
   * A sweep moves on to a price only once every better price is used up:
   * at every key strictly before the price of some event, no eligible
   * order is left.
   */
  lemma {:induction false} SweepBetterFirst(b: BookView, keys: set<Price>, inc: OrderView, tradeAt: int)
    requires WellFormed(b) && inc.order.IsMarketOrder() && keys <= Counter(b, inc.order).Keys
    ensures var s := Sweep(b, keys, inc, tradeAt);
      forall e, q :: e in s.events && q in keys && Before(q, e.price, SweepAscending(inc.order)) ==>
        q in Counter(s.book, inc.order) && Eligible(inc.order, Counter(s.book, inc.order)[q]) == []
    decreases |keys|
  {
    if keys != {} {
      var asc := SweepAscending(inc.order);
      var p := Best(keys, asc);
      var r := MatchAt(b, p, inc, tradeAt);
      var s := Sweep(r.book, keys - {p}, r.incoming, tradeAt);
      MatchAtFrame(b, p, inc, tradeAt);
      MatchAtKeepsWellFormed(b, p, inc, tradeAt);
      MatchAtPrices(b, p, inc, tradeAt);
      MatchAtExhausts(b, p, inc, tradeAt);
      SweepOutside(r.book, keys - {p}, r.incoming, tradeAt, p);
      SweepBetterFirst(r.book, keys - {p}, r.incoming, tradeAt);
      if r.incoming.remaining == 0 {
        SweepFilledStays(r.book, keys - {p}, r.incoming, tradeAt);
      }
      assert Sweep(b, keys, inc, tradeAt).events == r.events + s.events;
      assert Sweep(b, keys, inc, tradeAt).book == s.book;
    }
  }

  /**
   * Market-order events come out best price first, each at the price of a
   * level on the opposite side; the sweep reaches a price only once every
   * better one has no eligible order left, and it stops early only when
   * the order is filled: an order left with quantity has used up every
   * eligible order on the other side.
   */
  lemma MarketPricesBestFirst(b: BookView, inc: OrderView, tradeAt: int)
    requires WellFormed(b) && inc.order.IsMarketOrder()
    ensures var r := ReceivedOutcome(b, inc, tradeAt);
      var asc := SweepAscending(inc.order);
      && (forall e :: e in r.events ==> exists p :: p in Counter(b, inc.order) && e.price == p.value)
      && PricesInOrder(r.events, asc)
      && (forall e, q :: e in r.events && q in Counter(r.book, inc.order) && Before(q, e.price, asc) ==>
            Eligible(inc.order, Counter(r.book, inc.order)[q]) == [])
      && (r.incoming.remaining != 0 ==>
            forall p :: p in Counter(r.book, inc.order) ==> Eligible(inc.order, Counter(r.book, inc.order)[p]) == [])
  {
    var keys := Counter(b, inc.order).Keys;
    SweepPrices(b, keys, inc, tradeAt);
    SweepFrame(b, keys, inc, tradeAt);
    SweepBetterFirst(b, keys, inc, tradeAt);
    MarketExhausts(b, inc, tradeAt);
  }

  /** A market order left with quantity has used up every eligible order on the other side. */
  lemma MarketExhausts(b: BookView, inc: OrderView, tradeAt: int)
    requires inc.order.IsMarketOrder()
    ensures var r := ReceivedOutcome(b, inc, tradeAt);
      r.incoming.remaining != 0 ==>
        forall p :: p in Counter(r.book, inc.order) ==> Eligible(inc.order, Counter(r.book, inc.order)[p]) == []
  {
    SweepExhausts(b, Counter(b, inc.order).Keys, inc, tradeAt);
    SweepFrame(b, Counter(b, inc.order).Keys, inc, tradeAt);
  }

  /**
   * Example: sells of 5 at 49000 and 5 at 50000, and a
   * market buy of 10 with no account. The buy fills 5 at 49000, then 5 at
   * 50000, and both levels are left empty.
   */
  lemma MarketBuySweepsTwoLevels(low: TradeOrder, high: TradeOrder, buy: TradeOrder, tradeAt: int)
    requires low.kind == LimitSell && low.price == 49000
    requires high.kind == LimitSell && high.price == 50000
    requires buy.kind == MarketBuy && buy.accountId.None?
    ensures var b := BookView(map[Price(49000) := [OrderView(low, 5, Active)], Price(50000) := [OrderView(high, 5, Active)]], map[]);
      var r := ReceivedOutcome(b, OrderView(buy, 10, Active), tradeAt);
      && |r.events| == 2
      && r.events[0].sellOrderId == low.id && r.events[0].quantity == 5 && r.events[0].price == 49000
      && r.events[1].sellOrderId == high.id && r.events[1].quantity == 5 && r.events[1].price == 50000
      && r.incoming == OrderView(buy, 0, Complete)
      && r.book == BookView(map[Price(49000) := [], Price(50000) := []], map[])
  {
    var lo, hi := Price(49000), Price(50000);
    var b := BookView(map[lo := [OrderView(low, 5, Active)], hi := [OrderView(high, 5, Active)]], map[]);
    var inc := OrderView(buy, 10, Active);
    assert Counter(b, buy).Keys == {lo, hi};
    assert IsBest(lo, {lo, hi}, true);
    BestUnique(lo, Best({lo, hi}, true), {lo, hi}, true);
    assert {lo, hi} - {lo} == {hi};
    var v1, v2 := OrderView(low, 5, Active), OrderView(high, 5, Active);
    assert [v1][1..] == [] && [v2][1..] == [];
    assert !low.HasSameAccount(buy.accountId) && !high.HasSameAccount(buy.accountId);
    assert inc.MatchQuantity(v1) == 5;
    var l1 := MatchLevel(inc, [v1], tradeAt);
    assert MatchLevel(OrderView(buy, 5, Active), [], tradeAt).events == [];
    assert l1 == LevelOutcome(OrderView(buy, 5, Active), [], [CreateResponse(buy, low, 5, tradeAt)]);
    var r1 := MatchAt(b, lo, inc, tradeAt);
    assert r1.book == BookView(map[lo := [], hi := [v2]], map[]);
    BestUnique(hi, Best({hi}, true), {hi}, true);
    assert {hi} - {hi} == {};
    assert l1.incoming.MatchQuantity(v2) == 5;
    var l2 := MatchLevel(l1.incoming, [v2], tradeAt);
    assert MatchLevel(OrderView(buy, 0, Complete), [], tradeAt).events == [];
    assert l2 == LevelOutcome(OrderView(buy, 0, Complete), [], [CreateResponse(buy, high, 5, tradeAt)]);
    var r2 := MatchAt(r1.book, hi, r1.incoming, tradeAt);
    assert r2.book == BookView(map[lo := [], hi := []], map[]);
    assert r1.events == [CreateResponse(buy, low, 5, tradeAt)] && r2.events == [CreateResponse(buy, high, 5, tradeAt)];
    var s2 := Sweep(r1.book, {hi}, r1.incoming, tradeAt);
    assert s2 == BookOutcome(r2.book, r2.incoming, r2.events + Sweep(r2.book, {}, r2.incoming, tradeAt).events);
    assert ReceivedOutcome(b, inc, tradeAt) == BookOutcome(s2.book, s2.incoming, r1.events + s2.events);
  }

  // ---------------------------------------------------------------------
  // Every order

  /** The events trade exactly what the incoming order lost, and the order stays itself. */
  lemma ReceivedConservation(b: BookView, inc: OrderView, tradeAt: int)
    ensures var r := ReceivedOutcome(b, inc, tradeAt);
      r.incoming.order == inc.order && Traded(r.events) == inc.remaining - r.incoming.remaining
  {
    if inc.order.IsMarketOrder() {
      SweepFrame(b, Counter(b, inc.order).Keys, inc, tradeAt);
    } else {
      MatchAtFrame(b, Price(inc.order.price), inc, tradeAt);
    }
  }

  /** No event of a book trades an account with itself. */
  ghost predicate NoSelfTrade(events: seq<TradeHistoryEvent>) {
    forall e :: e in events ==> !(e.buyAccountId.Some? && e.buyAccountId == e.sellAccountId)
  }

  lemma MatchAtNoSelfTrade(b: BookView, price: Price, inc: OrderView, tradeAt: int)
    ensures NoSelfTrade(MatchAt(b, price, inc, tradeAt).events)
  {
    var counter := Counter(b, inc.order);
    if !(inc.remaining == 0 || price !in counter || counter[price] == []) {
      MatchLevelNoSelfTrade(inc, counter[price], tradeAt);
    }
  }

  lemma {:induction false} SweepNoSelfTrade(b: BookView, keys: set<Price>, inc: OrderView, tradeAt: int)
    ensures NoSelfTrade(Sweep(b, keys, inc, tradeAt).events)
    decreases |keys|
  {
    if keys != {} {
      var p := Best(keys, SweepAscending(inc.order));
      var r := MatchAt(b, p, inc, tradeAt);
      MatchAtNoSelfTrade(b, p, inc, tradeAt);
      SweepNoSelfTrade(r.book, keys - {p}, r.incoming, tradeAt);
      assert Sweep(b, keys, inc, tradeAt).events == r.events + Sweep(r.book, keys - {p}, r.incoming, tradeAt).events;
    }
  }

  /** Whatever the order, no event the book returns has the same non-null account on both sides. */
  lemma ReceivedNoSelfTrade(b: BookView, inc: OrderView, tradeAt: int)
    ensures NoSelfTrade(ReceivedOutcome(b, inc, tradeAt).events)
  {
    if inc.order.IsMarketOrder() {
      SweepNoSelfTrade(b, Counter(b, inc.order).Keys, inc, tradeAt);
    } else {
      MatchAtNoSelfTrade(b, Price(inc.order.price), inc, tradeAt);
    }
  }

  /** Levels are never removed: each side's key set only grows. */
  lemma KeysOnlyGrow(b: BookView, inc: OrderView, tradeAt: int)
    ensures var r := ReceivedOutcome(b, inc, tradeAt);
      b.sells.Keys <= r.book.sells.Keys && b.buys.Keys <= r.book.buys.Keys
  {
    if inc.order.IsMarketOrder() {
      MarketNeverRests(b, inc, tradeAt);
    } else {
      MatchAtFrame(b, Price(inc.order.price), inc, tradeAt);
    }
  }

  /** Inserting an order at its own price on its own side keeps the book well-formed. */
  lemma AddRemainingKeepsWellFormed(b: BookView, v: OrderView)
    requires WellFormed(b)
    ensures WellFormed(AddRemaining(b, v))
  {
    var p := Price(v.order.price);
    var own := Own(b, v.order);
    var level := LevelAt(own, p);
    assert Sorted(level, ViewKey);
    InsertKeepsSorted(level, v, ViewKey);
  }

  /** Every order keeps a well-formed book well-formed. */
  lemma ReceivedKeepsWellFormed(b: BookView, inc: OrderView, tradeAt: int)
    requires WellFormed(b)
    ensures WellFormed(ReceivedOutcome(b, inc, tradeAt).book)
  {
    if inc.order.IsMarketOrder() {
      SweepKeepsWellFormed(b, Counter(b, inc.order).Keys, inc, tradeAt);
    } else {
      var r := MatchAt(b, Price(inc.order.price), inc, tradeAt);
      MatchAtKeepsWellFormed(b, Price(inc.order.price), inc, tradeAt);
      MatchAtFrame(b, Price(inc.order.price), inc, tradeAt);
      if r.incoming.remaining != 0 {
        AddRemainingKeepsWellFormed(r.book, r.incoming);
      }
    }
  }

  /**
   * Matching keeps every resting order live, and leaves the incoming order
   * with a remainder between zero and what it had, its status agreeing
   * with that remainder.
   */
  lemma MatchAtKeepsLive(b: BookView, price: Price, inc: OrderView, tradeAt: int)
    requires Live(b) && inc.remaining >= 0 && inc.StatusConsistent()
    ensures var r := MatchAt(b, price, inc, tradeAt);
      && Live(r.book) && 0 <= r.incoming.remaining <= inc.remaining && r.incoming.StatusConsistent()
  {
    var counter := Counter(b, inc.order);
    if !(inc.remaining == 0 || price !in counter || counter[price] == []) {
      var level := counter[price];
      assert forall v: OrderView :: v in level ==> v.remaining > 0 && v.StatusConsistent();
      MatchLevelKeepsPositive(inc, level, tradeAt);
      MatchLevelKeepsStatusConsistent(inc, level, tradeAt);
      var r := MatchAt(b, price, inc, tradeAt);
      forall q, v | q in Counter(r.book, inc.order) && v in Counter(r.book, inc.order)[q]
        ensures v.remaining > 0 && v.status == Active
      {
        if q != price {
          assert v in counter[q];
        }
      }
      assert LiveSide(Own(r.book, inc.order));
    }
  }

  /** A sweep keeps every resting order live, and the incoming order sound. */
  lemma {:induction false} SweepKeepsLive(b: BookView, keys: set<Price>, inc: OrderView, tradeAt: int)
    requires Live(b) && inc.remaining >= 0 && inc.StatusConsistent()
    ensures var s := Sweep(b, keys, inc, tradeAt);
      && Live(s.book) && 0 <= s.incoming.remaining <= inc.remaining && s.incoming.StatusConsistent()
    decreases |keys|
  {
    if keys != {} {
      var p := Best(keys, SweepAscending(inc.order));
      var r := MatchAt(b, p, inc, tradeAt);
      MatchAtKeepsLive(b, p, inc, tradeAt);
      SweepKeepsLive(r.book, keys - {p}, r.incoming, tradeAt);
    }
  }

  /** Resting a live order keeps the book live. */
  lemma AddRemainingKeepsLive(b: BookView, v: OrderView)
    requires Live(b) && v.remaining > 0 && v.status == Active
    ensures Live(AddRemaining(b, v))
  {
    var p := Price(v.order.price);
    InsertOnly(LevelAt(Own(b, v.order), p), v, ViewKey);
    assert LiveSide(Own(AddRemaining(b, v), v.order));
  }

  /**
   * Nothing dead stays in the book: an incoming order with a non-negative
   * remainder whose status agrees with it keeps every resting order with
   * quantity left and ACTIVE.
   */
  lemma ReceivedKeepsLive(b: BookView, inc: OrderView, tradeAt: int)
    requires Live(b) && inc.remaining >= 0 && inc.StatusConsistent()
    ensures Live(ReceivedOutcome(b, inc, tradeAt).book)
  {
    if inc.order.IsMarketOrder() {
      SweepKeepsLive(b, Counter(b, inc.order).Keys, inc, tradeAt);
    } else {
      var r := MatchAt(b, Price(inc.order.price), inc, tradeAt);
      MatchAtKeepsLive(b, Price(inc.order.price), inc, tradeAt);
      if r.incoming.remaining != 0 {
        AddRemainingKeepsLive(r.book, r.incoming);
      }
    }
  }

  // ---------------------------------------------------------------------
  // The loop of CompanyOrderBook.match as written

  /** How a run of at most some number of passes ends: stopped when one of the loop's own exits was reached. */
  datatype Run = Run(outcome: BookOutcome, stopped: bool)

  /** The condition the loop in CompanyOrderBook.match tests before each pass. */
  ghost predicate LoopGoesOn(b: BookView, price: Price, inc: OrderView) {
    var counter := Counter(b, inc.order);
    inc.remaining != 0 && price in counter && counter[price] != []
  }

  /**
   * The loop in CompanyOrderBook.match as written: pass over the opposite
   * level again and again while the order has quantity left and the level
   * exists and is not empty. Nothing ends it when a pass trades nothing.
   * fuel bounds the number of passes.
   */
  ghost function AsWrittenMatch(b: BookView, price: Price, inc: OrderView, events: seq<TradeHistoryEvent>,
                                tradeAt: int, fuel: nat): Run
    decreases fuel
  {
    if !LoopGoesOn(b, price, inc) then
      Run(BookOutcome(b, inc, events), true)
    else if fuel == 0 then
      Run(BookOutcome(b, inc, events), false)
    else
      var counter := Counter(b, inc.order);
      var r := MatchLevel(inc, counter[price], tradeAt);
      AsWrittenMatch(WithCounter(b, inc.order, counter[price := r.level]), price, r.incoming,
                     events + r.events, tradeAt, fuel - 1)
  }

  /** A level made only of the order's own account's orders is skipped whole. */
  lemma {:induction false} MatchLevelAllSameAccount(inc: OrderView, level: seq<OrderView>, tradeAt: int)
    requires forall v :: v in level ==> v.order.HasSameAccount(inc.order.accountId)
    ensures MatchLevel(inc, level, tradeAt) == LevelOutcome(inc, level, [])
    decreases |level|
  {
    if level != [] && inc.remaining != 0 {
      assert level[0] in level;
      MatchLevelAllSameAccount(inc, level[1..], tradeAt);
      assert [level[0]] + level[1..] == level;
    }
  }

  /** Where a pass changes nothing and the loop's test still holds, the loop never stops. */
  lemma {:induction false} AsWrittenSpinsAtFixpoint(b: BookView, price: Price, inc: OrderView,
                                                    events: seq<TradeHistoryEvent>, tradeAt: int, fuel: nat)
    requires LoopGoesOn(b, price, inc)
    requires var level := Counter(b, inc.order)[price];
      MatchLevel(inc, level, tradeAt) == LevelOutcome(inc, level, [])
    ensures !AsWrittenMatch(b, price, inc, events, tradeAt, fuel).stopped
    decreases fuel
  {
    if fuel != 0 {
      var counter := Counter(b, inc.order);
      assert counter[price := counter[price]] == counter;
      assert WithCounter(b, inc.order, counter) == b;
      assert events + [] == events;
      AsWrittenSpinsAtFixpoint(b, price, inc, events, tradeAt, fuel - 1);
    }
  }

  /**
   * The loop as written never ends when every order resting at the price
   * belongs to the incoming order's account and the order is not filled:
   * whatever the number of passes, none of the loop's exits is reached.
   */
  lemma AsWrittenSpins(b: BookView, price: Price, inc: OrderView, tradeAt: int, fuel: nat)
    requires LoopGoesOn(b, price, inc)
    requires forall v :: v in Counter(b, inc.order)[price] ==> v.order.HasSameAccount(inc.order.accountId)
    ensures !AsWrittenMatch(b, price, inc, [], tradeAt, fuel).stopped
  {
    MatchLevelAllSameAccount(inc, Counter(b, inc.order)[price], tradeAt);
    AsWrittenSpinsAtFixpoint(b, price, inc, [], tradeAt, fuel);
  }

  /**
   * Whenever the loop as written does stop, it ends where MatchAt does:
   * the exit that MatchAt adds changes no run that ends.
   */
  lemma AsWrittenAgrees(b: BookView, price: Price, inc: OrderView, tradeAt: int, fuel: nat)
    requires AsWrittenMatch(b, price, inc, [], tradeAt, fuel).stopped
    ensures AsWrittenMatch(b, price, inc, [], tradeAt, fuel).outcome == MatchAt(b, price, inc, tradeAt)
  {
    if LoopGoesOn(b, price, inc) {
      var counter := Counter(b, inc.order);
      var r := MatchLevel(inc, counter[price], tradeAt);
      var b' := WithCounter(b, inc.order, counter[price := r.level]);
      assert [] + r.events == r.events;
      MatchAtIdempotent(b, price, inc, tradeAt);
      MatchLevelIdempotent(inc, counter[price], tradeAt);
      MatchLevelConservation(inc, counter[price], tradeAt);
      if LoopGoesOn(b', price, r.incoming) {
        assert Counter(b', inc.order)[price] == r.level;
        AsWrittenSpinsAtFixpoint(b', price, r.incoming, r.events, tradeAt, fuel - 1);
        assert false;
      }
    }
  }

  // ---------------------------------------------------------------------
  // The book as an object

  /** The orders resting in the storages of one side. */
  ghost function OrdersIn(m: map<Price, OrderStorage>): set<TradeOrder>
    reads m.Values`elements
  {
    set s, o | s in m.Values && o in s.elements :: o
  }

  /** One side of the book object as values: each price with its level's contents. */
  ghost function SideView(m: map<Price, OrderStorage>): map<Price, seq<OrderView>>
    reads m.Values`elements, OrdersIn(m)`remainingQuantity, OrdersIn(m)`status
  {
    map p | p in m :: assert forall o :: o in m[p].elements ==> o in OrdersIn(m); m[p].Contents()
  }

  /** Different prices of a side hold different storages. */
  ghost predicate SideDistinct(m: map<Price, OrderStorage>) {
    forall p, q :: p in m && q in m && p != q ==> m[p] != m[q]
  }

  /** No storage serves both sides. */
  ghost predicate Apart(m: map<Price, OrderStorage>, other: map<Price, OrderStorage>) {
    forall p, q :: p in m && q in other ==> m[p] != other[q]
  }

  /** The book with the given own side and the other side. */
  function Sides(sell: bool, own: map<Price, seq<OrderView>>, other: map<Price, seq<OrderView>>): BookView {
    if sell then BookView(own, other) else BookView(other, own)
  }

  /** Putting a new empty storage at a new price keeps a side's shape. */
  lemma PutKeepsSide(m: map<Price, OrderStorage>, other: map<Price, OrderStorage>, price: Price, s: OrderStorage, sell: bool)
    requires SideDistinct(m) && Apart(m, other) && SidePlaced(m, sell)
    requires price !in m && s !in m.Values && s !in other.Values && s.elements == []
    ensures SideDistinct(m[price := s]) && Apart(m[price := s], other) && Apart(other, m[price := s])
    ensures SidePlaced(m[price := s], sell)
    ensures m[price := s].Values == m.Values + {s}
  {
    forall t | t in m.Values ensures t in m[price := s].Values {
      var p :| p in m && m[p] == t;
      assert m[price := s][p] == t;
    }
    assert m[price := s][price] == s;
  }

  /** Every order in a side's storage at p has price p and belongs on that side. */
  ghost predicate SidePlaced(m: map<Price, OrderStorage>, sell: bool)
    reads m.Values`elements
  {
    forall p, o :: p in m && o in m[p].elements ==> o.price == p.value && o.IsSellType() == sell
  }

  /** Each order listed in ov still has the view ov records. */
  ghost predicate ViewsHeld(ov: map<TradeOrder, OrderView>)
    reads ov.Keys`remainingQuantity, ov.Keys`status
  {
    forall o :: o in ov ==> ov[o] == o.View()
  }

  /** The tables' entries for storage t agree with the views ov records for its orders. */
  ghost predicate Tabled(c: map<OrderStorage, seq<OrderView>>, e: map<OrderStorage, seq<TradeOrder>>,
                         ov: map<TradeOrder, OrderView>, t: OrderStorage) {
    t in c && t in e && |c[t]| == |e[t]|
    && forall k :: 0 <= k < |e[t]| ==> e[t][k] in ov && c[t][k] == ov[e[t][k]]
  }

  // Tables of what each storage held, taken before one storage changes;
  // they let single-state lemmas compare the book before and after.

  /** A side's view from a table of level contents. */
  ghost function SideFrom(m: map<Price, OrderStorage>, c: map<OrderStorage, seq<OrderView>>): map<Price, seq<OrderView>>
    requires m.Values <= c.Keys
  {
    map p | p in m :: c[m[p]]
  }

  /** Every order listed in a table of storage elements. */
  ghost function Flatten(e: map<OrderStorage, seq<TradeOrder>>): set<TradeOrder> {
    set t, o | t in e && o in e[t] :: o
  }

  /** SidePlaced, read from a table of storage elements. */
  ghost predicate PlacedIn(m: map<Price, OrderStorage>, e: map<OrderStorage, seq<TradeOrder>>, sell: bool) {
    forall p, o :: p in m && m[p] in e && o in e[m[p]] ==> o.price == p.value && o.IsSellType() == sell
  }

  /**
   * Tables taken of a book whose own side (for sell or buy orders) is own
   * and other side other: e holds every storage's orders, sorted, and c
   * its contents as the views in ov give them.
   */
  ghost predicate TablesFit(own: map<Price, OrderStorage>, other: map<Price, OrderStorage>, sell: bool,
                            c: map<OrderStorage, seq<OrderView>>, e: map<OrderStorage, seq<TradeOrder>>,
                            ov: map<TradeOrder, OrderView>)
  {
    && SideDistinct(own) && SideDistinct(other) && Apart(own, other)
    && own.Values + other.Values == e.Keys && e.Keys <= c.Keys
    && (forall t :: t in e ==> Chained(e[t], OrderKey) && Tabled(c, e, ov, t))
    && PlacedIn(own, e, sell) && PlacedIn(other, e, !sell)
  }

  /** Tables of a whole book: its two maps, every storage's contents and orders, and its orders' views. */
  datatype BookTables = BookTables(sells: map<Price, OrderStorage>, buys: map<Price, OrderStorage>,
                                   c: map<OrderStorage, seq<OrderView>>, e: map<OrderStorage, seq<TradeOrder>>,
                                   ov: map<TradeOrder, OrderView>)

  ghost predicate TablesValid(bt: BookTables) {
    TablesFit(bt.sells, bt.buys, true, bt.c, bt.e, bt.ov)
  }

  ghost function TablesView(bt: BookTables): BookView
    requires TablesValid(bt)
  {
    BookView(SideFrom(bt.sells, bt.c), SideFrom(bt.buys, bt.c))
  }

  /** Each storage listed in e still holds the orders e records. */
  ghost predicate ElementsHeld(e: map<OrderStorage, seq<TradeOrder>>)
    reads e.Keys`elements
  {
    forall t :: t in e ==> t.elements == e[t]
  }

  lemma PlacedFrom(m: map<Price, OrderStorage>, e: map<OrderStorage, seq<TradeOrder>>, sell: bool)
    requires SidePlaced(m, sell)
    requires forall p :: p in m ==> m[p] in e && e[m[p]] == m[p].elements
    ensures PlacedIn(m, e, sell)
  {
  }

  /** A storage whose orders kept the views ov records reads as its table entry. */
  lemma TabledViews(c: map<OrderStorage, seq<OrderView>>, e: map<OrderStorage, seq<TradeOrder>>,
                    ov: map<TradeOrder, OrderView>, t: OrderStorage)
    requires Tabled(c, e, ov, t) && ViewsHeld(ov)
    ensures Views(e[t]) == c[t]
  {
    ViewsOf(e[t], c[t]);
  }

  lemma SideViewKeys(m: map<Price, OrderStorage>)
    ensures SideView(m).Keys == m.Keys
  {
  }

  lemma SideViewFrom(m: map<Price, OrderStorage>, c: map<OrderStorage, seq<OrderView>>)
    requires forall t :: t in m.Values ==> t in c && c[t] == t.Contents()
    ensures m.Values <= c.Keys && SideView(m) == SideFrom(m, c)
  {
  }

  lemma SideFromUpdate(m: map<Price, OrderStorage>, c: map<OrderStorage, seq<OrderView>>, price: Price, level: seq<OrderView>)
    requires m.Values <= c.Keys && price in m && SideDistinct(m)
    ensures SideFrom(m, c[m[price] := level]) == SideFrom(m, c)[price := level]
  {
  }

  lemma SideFromPut(m: map<Price, OrderStorage>, c: map<OrderStorage, seq<OrderView>>, price: Price,
                    s: OrderStorage, level: seq<OrderView>)
    requires m.Values <= c.Keys && SideDistinct(m)
    requires price in m ==> m[price] == s
    requires price !in m ==> s !in m.Values
    ensures m[price := s].Values <= c[s := level].Keys
    ensures SideFrom(m[price := s], c[s := level]) == SideFrom(m, c)[price := level]
  {
  }

  lemma SideFromOther(m: map<Price, OrderStorage>, c: map<OrderStorage, seq<OrderView>>, s: OrderStorage, level: seq<OrderView>)
    requires m.Values <= c.Keys && s !in m.Values
    ensures SideFrom(m, c[s := level]) == SideFrom(m, c)
  {
  }

  class CompanyOrderBook {
    /** Sell levels, served lowest price first. */
    var sellOrders: map<Price, OrderStorage>
    /** Buy levels, served highest price first. */
    var buyOrders: map<Price, OrderStorage>

    ghost function Storages(): set<OrderStorage>
      reads this`sellOrders, this`buyOrders
    {
      sellOrders.Values + buyOrders.Values
    }

    ghost function Resting(): set<TradeOrder>
      reads this`sellOrders, this`buyOrders, Storages()`elements
    {
      OrdersIn(sellOrders) + OrdersIn(buyOrders)
    }

    /** The maps alone: no storage serves two prices or both sides. */
    ghost predicate Shaped()
      reads this`sellOrders, this`buyOrders
    {
      SideDistinct(sellOrders) && SideDistinct(buyOrders) && Apart(sellOrders, buyOrders)
    }

    /**
     * Each storage is a sorted level, no storage serves two prices or both
     * sides, and every resting order sits at its own price on its own side
     * (so no order rests in two storages).
     */
    ghost predicate Valid()
      reads this`sellOrders, this`buyOrders, Storages()`elements
    {
      && (forall s :: s in Storages() ==> s.Valid())
      && Shaped()
      && SidePlaced(sellOrders, true) && SidePlaced(buyOrders, false)
    }

    ghost function View(): BookView
      reads this`sellOrders, this`buyOrders, Storages()`elements, Resting()`remainingQuantity, Resting()`status
    {
      BookView(SideView(sellOrders), SideView(buyOrders))
    }

    /** OrderBookFactory.createOrderBook: a book with no levels. */
    constructor ()
      ensures Valid() && Storages() == {} && View() == BookView(map[], map[])
    {
      sellOrders := map[];
      buyOrders := map[];
    }

    /** The side an order of this kind trades against. */
    function CounterSide(kind: OrderType): map<Price, OrderStorage>
      reads this
    {
      if kind.IsSell() then buyOrders else sellOrders
    }

    /** getCounterOrderStorage: the opposite storage at the price, None where there is none. */
    function GetCounterOrderStorage(price: Price, kind: OrderType): (r: Option<OrderStorage>)
      reads this
      ensures r.Some? <==> price in CounterSide(kind)
      ensures r.Some? ==> r.value == CounterSide(kind)[price] && r.value in Storages()
    {
      var m := CounterSide(kind);
      if price in m then Some(m[price]) else None
    }

    /**
     * CompanyOrderBook.match: pass over the opposite level at the price
     * while the order has quantity left and the level exists and is not
     * empty. A pass that trades nothing ends the loop; the loop as written
     * has no such exit (AsWrittenSpins), and where the two differ the
     * written loop never ends.
     */
    method Match(price: Price, order: TradeOrder, tradeAt: int) returns (results: seq<TradeHistoryEvent>)
      requires Valid() && order !in Resting()
      modifies Storages(), Resting(), order
      ensures Valid() && order !in Resting() && Resting() <= old(Resting())
      ensures var r := MatchAt(old(View()), price, old(order.View()), tradeAt);
        View() == r.book && order.View() == r.incoming && results == r.events
      ensures AllFilled(old(Resting()) - Resting())
    {
      ghost var b0 := View();
      ghost var inc0 := order.View();
      ghost var passes := 0;
      ghost var resting0 := Resting();
      results := [];
      var stop := false;
      while !stop && order.HasRemainingQuantity()
        invariant Valid() && order !in Resting() && Resting() <= resting0
        invariant order !in resting0 && AllFilled(resting0 - Resting())
        invariant Passes(b0, inc0, price, passes, stop, order, results, tradeAt)
        decreases 2 - passes - (if stop then 1 else 0)
      {
        results, passes, stop := MatchStep(b0, inc0, price, passes, order, results, tradeAt);
      }
    }

    /**
     * Where the loop of Match stands: before any pass nothing has changed;
     * after one the book is MatchAt's; a stop leaves it there.
     */
    ghost predicate Passes(b0: BookView, inc0: OrderView, price: Price, passes: int, stop: bool,
                           order: TradeOrder, results: seq<TradeHistoryEvent>, tradeAt: int)
      reads this, Storages(), Resting(), order
    {
      && 0 <= passes <= 1
      && (stop ==> passes == 1 || !LoopGoesOn(b0, price, inc0))
      && (passes == 0 ==> View() == b0 && order.View() == inc0 && results == [])
      && (passes == 1 ==> var r := MatchAt(b0, price, inc0, tradeAt);
            View() == r.book && order.View() == r.incoming && results == r.events)
    }

    /** The body of Match's loop: look up the level, stop if it is missing or empty, otherwise pass over it. */
    method MatchStep(ghost b0: BookView, ghost inc0: OrderView, price: Price, ghost passes: int,
                     order: TradeOrder, results: seq<TradeHistoryEvent>, tradeAt: int)
      returns (results': seq<TradeHistoryEvent>, ghost passes': int, stop: bool)
      requires Valid() && order !in Resting() && order.remainingQuantity != 0
      requires Passes(b0, inc0, price, passes, false, order, results, tradeAt)
      modifies Storages(), Resting(), order
      ensures Valid() && order !in Resting() && Resting() <= old(Resting())
      ensures Passes(b0, inc0, price, passes', stop, order, results', tradeAt)
      ensures passes' + (if stop then 1 else 0) > passes
      ensures AllFilled(old(Resting()) - Resting())
    {
      var storage := GetCounterOrderStorage(price, order.kind);
      CounterLevelOf(price, order);
      if storage.None? || storage.value.IsEmpty() {
        return results, passes, true;
      }
      RestingHolds(storage.value);
      var events := MatchOnce(storage.value, price, order, tradeAt);
      results' := results + events;
      stop := events == [];
      if passes == 1 {
        // A second pass finds nothing to do, so it stops the loop.
        MatchAtIdempotent(b0, price, inc0, tradeAt);
        assert events == [];
      }
      passes' := 1;
    }

    /** Tables of the book as it stands. */
    ghost function Tables(): BookTables
      reads this`sellOrders, this`buyOrders, Storages()`elements, Resting()`remainingQuantity, Resting()`status
    {
      BookTables(sellOrders, buyOrders,
                 map t | t in Storages() :: assert forall o :: o in t.elements ==> o in Resting(); t.Contents(),
                 map t | t in Storages() :: t.elements, map o | o in Resting() :: o.View())
    }

    /** The book still stands as the tables bt recorded it. */
    ghost predicate Held(bt: BookTables)
      reads this`sellOrders, this`buyOrders, bt.e.Keys`elements, bt.ov.Keys`remainingQuantity, bt.ov.Keys`status
    {
      sellOrders == bt.sells && buyOrders == bt.buys && ElementsHeld(bt.e) && ViewsHeld(bt.ov)
    }

    /** A valid book's tables describe it. */
    lemma TablesHeld()
      requires Valid()
      ensures Held(Tables()) && TablesValid(Tables())
      ensures Tables().e.Keys == Storages() && Tables().ov.Keys == Resting()
    {
      var bt := Tables();
      PlacedFrom(sellOrders, bt.e, true);
      PlacedFrom(buyOrders, bt.e, false);
      forall t | t in Storages() ensures Tabled(bt.c, bt.e, bt.ov, t) {
        ViewsAt(t.elements);
        RestingHolds(t);
      }
    }

    /** A book that still stands as valid tables recorded it is valid, reads as they do and holds what they hold. */
    lemma FromTables(bt: BookTables)
      requires Held(bt) && TablesValid(bt)
      ensures Valid() && View() == TablesView(bt)
      ensures Storages() == bt.e.Keys && Resting() == Flatten(bt.e)
    {
      FromTablesView(bt);
      FromTablesResting(bt);
    }

    lemma FromTablesView(bt: BookTables)
      requires Held(bt) && TablesValid(bt)
      ensures View() == TablesView(bt)
    {
      forall t | t in Storages() ensures t.Contents() == bt.c[t] {
        TabledViews(bt.c, bt.e, bt.ov, t);
      }
      SideViewFrom(sellOrders, bt.c);
      SideViewFrom(buyOrders, bt.c);
    }

    lemma FromTablesResting(bt: BookTables)
      requires Held(bt) && TablesValid(bt)
      ensures Storages() == bt.e.Keys && Resting() == Flatten(bt.e)
    {
      forall o | o in Flatten(bt.e) ensures o in Resting() {
        var t :| t in bt.e && o in bt.e[t];
        if t in sellOrders.Values {
          var p :| p in sellOrders && sellOrders[p] == t;
        } else {
          var p :| p in buyOrders && buyOrders[p] == t;
        }
      }
    }

    /** received: a market order sweeps the opposite side; every other order is a limit order. */
    method Received(order: TradeOrder, tradeAt: int) returns (events: seq<TradeHistoryEvent>)
      requires Valid() && order !in Resting()
      modifies this, Storages(), Resting(), order
      ensures Valid() && Resting() <= old(Resting()) + {order}
      ensures forall t :: t in Storages() ==> t in old(Storages()) || fresh(t)
      ensures var r := ReceivedOutcome(old(View()), old(order.View()), tradeAt);
        View() == r.book && order.View() == r.incoming && events == r.events
      ensures AllFilled(old(Resting()) - Resting())
    {
      if order.IsMarketOrder() {
        events := ProcessMarketOrder(order, tradeAt);
        return;
      }
      events := ProcessLimitOrder(order, tradeAt);
    }

    /**
     * processMarketOrder: match at every price of the opposite side, in
     * the map's order (sells lowest first, buys highest first); whatever
     * is left of the order is dropped, never rested.
     */
    method ProcessMarketOrder(order: TradeOrder, tradeAt: int) returns (results: seq<TradeHistoryEvent>)
      requires Valid() && order !in Resting()
      modifies Storages(), Resting(), order
      ensures Valid() && order !in Resting() && Resting() <= old(Resting())
      ensures var r := ProcessMarket(old(View()), old(order.View()), tradeAt);
        View() == r.book && order.View() == r.incoming && results == r.events
      ensures AllFilled(old(Resting()) - Resting())
    {
      ghost var b0, inc0 := View(), order.View();
      ghost var resting0 := Resting();
      var keys := CounterSide(order.kind).Keys;
      results := [];
      SweepStarts(order, tradeAt);
      while keys != {}
        invariant Valid() && order !in Resting() && Resting() <= resting0
        invariant order !in resting0 && AllFilled(resting0 - Resting())
        invariant Swept(b0, inc0, keys, order, results, tradeAt)
        decreases |keys|
      {
        results, keys := SweepStep(b0, inc0, resting0, keys, order, results, tradeAt);
      }
      SweptAll(b0, inc0, order, results, tradeAt);
    }

    /** With no price left to visit, the sweep so far is the whole sweep. */
    lemma SweptAll(b0: BookView, inc0: OrderView, order: TradeOrder, results: seq<TradeHistoryEvent>, tradeAt: int)
      requires Swept(b0, inc0, {}, order, results, tradeAt)
      ensures var r := ProcessMarket(b0, inc0, tradeAt);
        View() == r.book && order.View() == r.incoming && results == r.events
    {
      assert results + [] == results;
    }

    /**
     * Where the sweep stands: sweeping the keys still to visit from the
     * book as it is now, after the events so far, gives the whole sweep.
     */
    ghost predicate Swept(b0: BookView, inc0: OrderView, keys: set<Price>, order: TradeOrder,
                          results: seq<TradeHistoryEvent>, tradeAt: int)
      reads this, Storages(), Resting(), order
    {
      var s := Sweep(View(), keys, order.View(), tradeAt);
      ProcessMarket(b0, inc0, tradeAt) == BookOutcome(s.book, s.incoming, results + s.events)
    }

    /** The sweep starts at every price of the opposite side, with no events yet. */
    lemma SweepStarts(order: TradeOrder, tradeAt: int)
      ensures Swept(View(), order.View(), CounterSide(order.kind).Keys, order, [], tradeAt)
    {
      SideViewKeys(sellOrders);
      SideViewKeys(buyOrders);
      assert Counter(View(), order).Keys == CounterSide(order.kind).Keys;
    }

    /** One turn of processMarketOrder's loop: the first price left, matched as match does it. */
    method SweepStep(ghost b0: BookView, ghost inc0: OrderView, ghost resting0: set<TradeOrder>,
                     keys: set<Price>, order: TradeOrder, results: seq<TradeHistoryEvent>, tradeAt: int)
      returns (results': seq<TradeHistoryEvent>, keys': set<Price>)
      requires Valid() && order !in Resting() && keys != {}
      requires Swept(b0, inc0, keys, order, results, tradeAt)
      requires Resting() <= resting0 && order !in resting0 && AllFilled(resting0 - Resting())
      modifies Storages(), Resting(), order
      ensures Valid() && order !in Resting() && Resting() <= old(Resting())
      ensures Swept(b0, inc0, keys', order, results', tradeAt) && |keys'| < |keys|
      ensures AllFilled(resting0 - Resting())
    {
      var ascending := SweepAscending(order);
      BestExists(keys, ascending);
      var now :| IsBest(now, keys, ascending);
      BestUnique(now, Best(keys, ascending), keys, ascending);
      Peel(b0, inc0, keys, now, order, results, tradeAt);
      var events := Match(now, order, tradeAt);
      results' := results + events;
      keys' := keys - {now};
    }

    /** The sweep from here is the match at its best price followed by the sweep of the prices after it. */
    lemma Peel(b0: BookView, inc0: OrderView, keys: set<Price>, now: Price, order: TradeOrder,
               results: seq<TradeHistoryEvent>, tradeAt: int)
      requires keys != {} && now == Best(keys, SweepAscending(order))
      requires Swept(b0, inc0, keys, order, results, tradeAt)
      ensures var r := MatchAt(View(), now, order.View(), tradeAt);
        var s := Sweep(r.book, keys - {now}, r.incoming, tradeAt);
        ProcessMarket(b0, inc0, tradeAt) == BookOutcome(s.book, s.incoming, (results + r.events) + s.events)
    {
      var r := MatchAt(View(), now, order.View(), tradeAt);
      var s := Sweep(r.book, keys - {now}, r.incoming, tradeAt);
      assert results + (r.events + s.events) == (results + r.events) + s.events;
    }

    /** processLimitOrder: match at the order's own price, then rest whatever is left. */
    method ProcessLimitOrder(order: TradeOrder, tradeAt: int) returns (result: seq<TradeHistoryEvent>)
      requires Valid() && order !in Resting()
      modifies this, Storages(), Resting(), order
      ensures Valid() && Resting() <= old(Resting()) + {order}
      ensures forall t :: t in Storages() ==> t in old(Storages()) || fresh(t)
      ensures var r := ProcessLimit(old(View()), old(order.View()), tradeAt);
        View() == r.book && order.View() == r.incoming && result == r.events
      ensures AllFilled(old(Resting()) - Resting())
    {
      var now := Price(order.price);
      ghost var resting0 := Resting();
      result := Match(now, order, tradeAt);
      ghost var gone := resting0 - Resting();
      assert AllFilled(gone);
      ghost var resting1 := Resting();
      if order.HasRemainingQuantity() {
        AddRemainingTradeOrder(order);
      }
      assert resting1 <= Resting();
      assert AllFilled(gone);
      assert resting0 - Resting() <= gone;
    }

    /** The hook for a sell order priced below the market: it never fires. */
    predicate IsSellOrderBelowMarketPrice(order: TradeOrder): (r: bool)
      ensures !r
    {
      false
    }

    /** The hook for a buy order priced above the market: it never fires. */
    predicate IsBuyOrderAboveMarketPrice(order: TradeOrder): (r: bool)
      ensures !r
    {
      false
    }

    /** A valid book reads as a well-formed one: every level sorted, every order at its own price and side. */
    lemma ValidIsWellFormed()
      requires Valid()
      ensures WellFormed(View())
    {
      forall t | t in Storages() ensures Sorted(t.Contents(), ViewKey) && forall v :: v in t.Contents() ==> v.order in t.elements {
        ChainedIsSorted(t.elements, OrderKey);
        SortedViews(t.elements);
        ViewsAt(t.elements);
      }
    }

    /**
     * addRemainingTradeOrder: the order joins the level at its own price
     * on its own side, which is created if there is none.
     */
    method AddRemainingTradeOrder(order: TradeOrder)
      requires Valid() && order !in Resting()
      modifies this, Storages()
      ensures Valid() && old(Resting()) <= Resting() <= old(Resting()) + {order}
      ensures View() == AddRemaining(old(View()), order.View())
      ensures forall t :: t in Storages() ==> t in old(Storages()) || fresh(t)
    {
      var price := Price(order.price);
      ghost var sell := order.IsSellType();
      ghost var own0, other0, c, e, ov := TakeTables(order);
      var storage := GetOrCreateSameTypeOrderStorage(price, order.kind);
      forall t | t in Storages() && t != storage ensures t in e && t.elements == e[t] {
        assert t in old(Storages());
      }
      ghost var storages1 := Storages();
      assert storage in old(Storages()) || fresh(storage);
      AddToStorage(storage, order, own0, other0, c, e, ov);
      assert Storages() == storages1;
    }

    /** The second half of addRemainingTradeOrder: the storage at the order's price takes the order. */
    method AddToStorage(s: OrderStorage, order: TradeOrder, ghost own0: map<Price, OrderStorage>,
                        ghost other0: map<Price, OrderStorage>, ghost c: map<OrderStorage, seq<OrderView>>,
                        ghost e: map<OrderStorage, seq<TradeOrder>>, ghost ov: map<TradeOrder, OrderView>)
      requires Prepared(s, order, own0, other0, c, e, ov)
      modifies s
      ensures Valid() && Flatten(e) <= Resting() <= Flatten(e) + {order}
      ensures var sell := order.IsSellType();
        View() == AddRemaining(Sides(sell, SideFrom(own0, c), SideFrom(other0, c)), order.View())
    {
      ghost var elements0 := s.elements;
      s.Add(order);
      AddLeaves(s, order, own0, other0, c, e, ov, elements0);
    }

    /**
     * The book once s is the storage at the order's price on its side (put
     * there if it was new), described against tables taken before: own0
     * and other0 are the two sides' maps then.
     */
    ghost predicate Prepared(s: OrderStorage, order: TradeOrder, own0: map<Price, OrderStorage>,
                             other0: map<Price, OrderStorage>, c: map<OrderStorage, seq<OrderView>>,
                             e: map<OrderStorage, seq<TradeOrder>>, ov: map<TradeOrder, OrderView>)
      reads this, Storages(), ov.Keys, s
    {
      var sell := order.IsSellType();
      var price := Price(order.price);
      && SideMap(sell) == own0[price := s] && SideMap(!sell) == other0
      && (price in own0 ==> own0[price] == s && s in e && s.elements == e[s])
      && (price !in own0 ==> s !in e && s.elements == [])
      && (forall t :: t in Storages() && t != s ==> t in e && t.elements == e[t])
      && TablesFit(own0, other0, sell, c, e, ov)
      && ViewsHeld(ov) && s.Valid()
    }

    /** getOrCreateSameTypeOrderStorage: the own-side storage at the price, created empty where there is none. */
    method GetOrCreateSameTypeOrderStorage(price: Price, kind: OrderType) returns (s: OrderStorage)
      requires Valid()
      modifies this
      ensures Valid() && Storages() == old(Storages()) + {s}
      ensures SideMap(kind.IsSell()) == old(SideMap(kind.IsSell()))[price := s]
      ensures SideMap(!kind.IsSell()) == old(SideMap(!kind.IsSell()))
      ensures price in old(SideMap(kind.IsSell())) ==> s == old(SideMap(kind.IsSell()))[price]
      ensures price !in old(SideMap(kind.IsSell())) ==> fresh(s) && s.elements == []
    {
      if kind.IsSell() {
        if price in sellOrders {
          return sellOrders[price];
        }
        var created := new OrderStorage();
        PutKeepsSide(sellOrders, buyOrders, price, created, true);
        sellOrders := sellOrders[price := created];
        return sellOrders[price];
      }
      if price in buyOrders {
        return buyOrders[price];
      }
      var created := new OrderStorage();
      PutKeepsSide(buyOrders, sellOrders, price, created, false);
      buyOrders := buyOrders[price := created];
      return buyOrders[price];
    }

    /** Tables of every storage's contents and orders, and of every resting order's view. */
    lemma TakeTables(order: TradeOrder)
      returns (own0: map<Price, OrderStorage>, other0: map<Price, OrderStorage>, c: map<OrderStorage, seq<OrderView>>,
               e: map<OrderStorage, seq<TradeOrder>>, ov: map<TradeOrder, OrderView>)
      requires Valid() && order !in Resting()
      ensures own0 == SideMap(order.IsSellType()) && other0 == SideMap(!order.IsSellType())
      ensures TablesFit(own0, other0, order.IsSellType(), c, e, ov)
      ensures View() == Sides(order.IsSellType(), SideFrom(own0, c), SideFrom(other0, c))
      ensures Resting() == Flatten(e) && order !in Flatten(e)
      ensures forall t :: t in Storages() ==> t in e && t.elements == e[t]
      ensures ViewsHeld(ov)
    {
      var sell := order.IsSellType();
      own0, other0 := SideMap(sell), SideMap(!sell);
      c := ContentsTable();
      e := ElementsTable();
      ov := ViewsTable();
      SideViewFrom(own0, c);
      SideViewFrom(other0, c);
      PlacedFrom(own0, e, sell);
      PlacedFrom(other0, e, !sell);
      forall t | t in Storages() ensures Tabled(c, e, ov, t) {
        ViewsAt(t.elements);
        RestingHolds(t);
      }
    }

    lemma ContentsTable() returns (c: map<OrderStorage, seq<OrderView>>)
      ensures forall t :: t in Storages() ==> t in c && c[t] == t.Contents()
    {
      c := map t | t in Storages() :: t.Contents();
    }

    lemma ElementsTable() returns (e: map<OrderStorage, seq<TradeOrder>>)
      ensures e.Keys == Storages() && forall t :: t in Storages() ==> e[t] == t.elements
    {
      e := map t | t in Storages() :: t.elements;
    }

    /** The elements table of the book, whose orders are exactly the resting ones. */
    lemma RestingTable() returns (e: map<OrderStorage, seq<TradeOrder>>)
      ensures e.Keys == Storages() && (forall t :: t in Storages() ==> e[t] == t.elements)
      ensures Resting() == Flatten(e)
    {
      e := ElementsTable();
      forall o | o in Flatten(e) ensures o in Resting() {
        var t :| t in e && o in e[t];
        RestingHolds(t);
      }
    }

    lemma ViewsTable() returns (ov: map<TradeOrder, OrderView>)
      ensures ov.Keys == Resting() && ViewsHeld(ov)
    {
      ov := map o | o in Resting() :: o.View();
    }

    lemma OthersViewsTable(s: OrderStorage) returns (ov: map<TradeOrder, OrderView>)
      ensures forall o :: o in ov <==> o in Resting() && o !in s.elements
      ensures ViewsHeld(ov)
    {
      ov := map o | o in Resting() && o !in s.elements :: o.View();
    }

    /**
     * The book after the order was added to storage s, the level at its
     * price on its side (put there if it was new), described against
     * tables taken before: own0 and other0 are the sides' maps then,
     * elements0 the level's orders then.
     */
    ghost predicate AddedTo(s: OrderStorage, order: TradeOrder, own0: map<Price, OrderStorage>, other0: map<Price, OrderStorage>,
                            c: map<OrderStorage, seq<OrderView>>, e: map<OrderStorage, seq<TradeOrder>>,
                            ov: map<TradeOrder, OrderView>, elements0: seq<TradeOrder>)
      reads this, Storages(), ov.Keys, s
    {
      var sell := order.IsSellType();
      var price := Price(order.price);
      && SideMap(sell) == own0[price := s] && SideMap(!sell) == other0
      && (price in own0 ==> own0[price] == s && s in e && elements0 == e[s])
      && (price !in own0 ==> s !in e && elements0 == [])
      && (forall t :: t in Storages() && t != s ==> t in e && t.elements == e[t])
      && TablesFit(own0, other0, sell, c, e, ov)
      && ViewsHeld(ov)
      && Chained(elements0, OrderKey) && s.Valid() && s.elements == Insert(elements0, order, OrderKey)
    }

    lemma AddLeaves(s: OrderStorage, order: TradeOrder, own0: map<Price, OrderStorage>, other0: map<Price, OrderStorage>,
                    c: map<OrderStorage, seq<OrderView>>, e: map<OrderStorage, seq<TradeOrder>>,
                    ov: map<TradeOrder, OrderView>, elements0: seq<TradeOrder>)
      requires AddedTo(s, order, own0, other0, c, e, ov, elements0)
      ensures Valid() && Flatten(e) <= Resting() <= Flatten(e) + {order}
      ensures var sell := order.IsSellType();
        View() == AddRemaining(Sides(sell, SideFrom(own0, c), SideFrom(other0, c)), order.View())
    {
      AddKeepsValid(s, order, own0, other0, c, e, ov, elements0);
      AddKeepsResting(s, order, own0, other0, c, e, ov, elements0);
      AddKeepsOld(s, order, own0, other0, c, e, ov, elements0);
      AddView(s, order, own0, other0, c, e, ov, elements0);
    }

    lemma AddKeepsValid(s: OrderStorage, order: TradeOrder, own0: map<Price, OrderStorage>, other0: map<Price, OrderStorage>,
                        c: map<OrderStorage, seq<OrderView>>, e: map<OrderStorage, seq<TradeOrder>>,
                        ov: map<TradeOrder, OrderView>, elements0: seq<TradeOrder>)
      requires AddedTo(s, order, own0, other0, c, e, ov, elements0)
      ensures Valid()
    {
      AddKeepsShape(s, order, own0, other0, c, e, ov, elements0);
      AddKeepsOwnPlaced(s, order, own0, e, elements0);
      AddKeepsOtherPlaced(s, order, own0, other0, c, e, ov, elements0);
      forall t | t in Storages() ensures t.Valid() {
        if t != s {
          assert t in e;
        }
      }
    }

    lemma AddKeepsShape(s: OrderStorage, order: TradeOrder, own0: map<Price, OrderStorage>, other0: map<Price, OrderStorage>,
                        c: map<OrderStorage, seq<OrderView>>, e: map<OrderStorage, seq<TradeOrder>>,
                        ov: map<TradeOrder, OrderView>, elements0: seq<TradeOrder>)
      requires AddedTo(s, order, own0, other0, c, e, ov, elements0)
      ensures Shaped()
    {
      var sell := order.IsSellType();
      var price := Price(order.price);
      if price !in own0 {
        assert s !in own0.Values && s !in SideMap(!sell).Values;
      } else {
        assert own0[price := s] == own0;
      }
      assert SideDistinct(SideMap(sell)) && Apart(SideMap(sell), SideMap(!sell)) && Apart(SideMap(!sell), SideMap(sell));
    }

    lemma AddKeepsOwnPlaced(s: OrderStorage, order: TradeOrder, own0: map<Price, OrderStorage>,
                            e: map<OrderStorage, seq<TradeOrder>>, elements0: seq<TradeOrder>)
      requires SideMap(order.IsSellType()) == own0[Price(order.price) := s]
      requires PlacedIn(own0, e, order.IsSellType())
      requires forall t :: t in Storages() && t != s ==> t in e && t.elements == e[t]
      requires Price(order.price) in own0 ==> own0[Price(order.price)] == s && s in e && elements0 == e[s]
      requires Price(order.price) !in own0 ==> elements0 == [] && s !in own0.Values
      requires SideDistinct(own0)
      requires Chained(elements0, OrderKey) && s.elements == Insert(elements0, order, OrderKey)
      ensures SidePlaced(SideMap(order.IsSellType()), order.IsSellType())
    {
      var sell := order.IsSellType();
      var price := Price(order.price);
      ChainedIsSorted(elements0, OrderKey);
      InsertKeepsSorted(elements0, order, OrderKey);
      forall p, o | p in SideMap(sell) && o in SideMap(sell)[p].elements
        ensures o.price == p.value && o.IsSellType() == sell
      {
        if p != price {
          assert own0[p] != s;
          assert o in e[own0[p]];
        } else if o != order {
          assert o in elements0;
        }
      }
    }

    lemma AddKeepsOtherPlaced(s: OrderStorage, order: TradeOrder, own0: map<Price, OrderStorage>, other0: map<Price, OrderStorage>,
                              c: map<OrderStorage, seq<OrderView>>, e: map<OrderStorage, seq<TradeOrder>>,
                              ov: map<TradeOrder, OrderView>, elements0: seq<TradeOrder>)
      requires AddedTo(s, order, own0, other0, c, e, ov, elements0)
      ensures SidePlaced(SideMap(!order.IsSellType()), !order.IsSellType())
    {
      var sell := order.IsSellType();
      var other := SideMap(!sell);
      forall p, o | p in other && o in other[p].elements
        ensures o.price == p.value && o.IsSellType() == !sell
      {
        assert other[p] != s;
        assert o in e[other[p]];
      }
    }

    lemma AddKeepsResting(s: OrderStorage, order: TradeOrder, own0: map<Price, OrderStorage>, other0: map<Price, OrderStorage>,
                          c: map<OrderStorage, seq<OrderView>>, e: map<OrderStorage, seq<TradeOrder>>,
                          ov: map<TradeOrder, OrderView>, elements0: seq<TradeOrder>)
      requires AddedTo(s, order, own0, other0, c, e, ov, elements0)
      ensures Resting() <= Flatten(e) + {order}
    {
      ChainedIsSorted(elements0, OrderKey);
      InsertKeepsSorted(elements0, order, OrderKey);
      forall o | o in Resting() ensures o in Flatten(e) || o == order {
        var t :| t in Storages() && o in t.elements;
        if t != s {
          assert t in e && o in e[t];
        } else if o != order {
          assert o in elements0;
          assert s in e;
        }
      }
    }

    /** Adding takes no order out of the book. */
    lemma AddKeepsOld(s: OrderStorage, order: TradeOrder, own0: map<Price, OrderStorage>, other0: map<Price, OrderStorage>,
                      c: map<OrderStorage, seq<OrderView>>, e: map<OrderStorage, seq<TradeOrder>>,
                      ov: map<TradeOrder, OrderView>, elements0: seq<TradeOrder>)
      requires AddedTo(s, order, own0, other0, c, e, ov, elements0)
      ensures Flatten(e) <= Resting()
    {
      var sell := order.IsSellType();
      var price := Price(order.price);
      InsertKeeps(elements0, order, OrderKey);
      forall o | o in Flatten(e) ensures o in Resting() {
        var t :| t in e && o in e[t];
        if t == s {
          assert SideMap(sell)[price] == s;
          RestingHolds(s);
        } else {
          if t in own0.Values {
            var p :| p in own0 && own0[p] == t;
            assert SideMap(sell)[p] == t;
          } else {
            assert t in SideMap(!sell).Values;
          }
          RestingHolds(t);
        }
      }
    }

    lemma AddView(s: OrderStorage, order: TradeOrder, own0: map<Price, OrderStorage>, other0: map<Price, OrderStorage>,
                  c: map<OrderStorage, seq<OrderView>>, e: map<OrderStorage, seq<TradeOrder>>,
                  ov: map<TradeOrder, OrderView>, elements0: seq<TradeOrder>)
      requires AddedTo(s, order, own0, other0, c, e, ov, elements0)
      ensures var sell := order.IsSellType();
        View() == AddRemaining(Sides(sell, SideFrom(own0, c), SideFrom(other0, c)), order.View())
    {
      var sell := order.IsSellType();
      var price := Price(order.price);
      var other := SideMap(!sell);
      var level0 := LevelAt(SideFrom(own0, c), price);
      // The level's contents before the order joined.
      if price in own0 {
        TabledViews(c, e, ov, s);
      }
      assert Views(elements0) == level0;
      InsertViews(elements0, order);
      var L := s.Contents();
      assert L == Insert(level0, order.View(), ViewKey);
      forall t | t in Storages() && t != s ensures t in c && t.Contents() == c[t] {
        assert t in e;
        TabledViews(c, e, ov, t);
      }
      if price !in own0 {
        assert s !in own0.Values && s !in other.Values;
      }
      var c' := c[s := L];
      SideViewFrom(sellOrders, c');
      SideViewFrom(buyOrders, c');
      SideFromPut(own0, c, price, s, L);
      SideFromOther(other, c, s, L);
    }

    /** One pass of OrderStorage.match over the opposite level at the price, as MatchAt states it. */
    method MatchOnce(s: OrderStorage, price: Price, order: TradeOrder, tradeAt: int)
      returns (events: seq<TradeHistoryEvent>)
      requires Valid() && order !in Resting()
      requires price in CounterSide(order.kind) && CounterSide(order.kind)[price] == s
      requires order.remainingQuantity != 0 && !s.IsEmpty()
      modifies s, s.elements, order
      ensures Valid() && order !in Resting() && Resting() <= old(Resting())
      ensures var r := MatchAt(old(View()), price, old(order.View()), tradeAt);
        View() == r.book && order.View() == r.incoming && events == r.events
      ensures AllFilled(old(Resting()) - Resting())
    {
      CounterLevel(s, price, order);
      ghost var e := RestingTable();
      ghost var c, ov := TakeSnapshot(s, order, e);
      events := PassOver(s, order, tradeAt, e, ov);
      OthersKept(s, c, e, ov);
      PassKeepsValid(s, e);
      PassKeepsResting(s, order, e);
      PassDropped(s, e);
      LevelView(s, price, !order.IsSellType(), c);
    }

    /** OrderStorage.match on s, seen from the book: every other storage keeps its orders, every other order its view. */
    method PassOver(s: OrderStorage, order: TradeOrder, tradeAt: int,
                    ghost e: map<OrderStorage, seq<TradeOrder>>, ghost ov: map<TradeOrder, OrderView>)
      returns (events: seq<TradeHistoryEvent>)
      requires s in Storages() && s.Valid() && order !in s.elements
      requires forall t :: t in Storages() && t != s ==> t in e && t.elements == e[t]
      requires ViewsHeld(ov) && order !in ov && forall o :: o in ov ==> o !in s.elements
      modifies s, s.elements, order
      ensures s.Valid() && forall o :: o in s.elements ==> o in old(s.elements)
      ensures var r := MatchLevel(old(order.View()), old(s.Contents()), tradeAt);
        order.View() == r.incoming && s.Contents() == r.level && events == r.events
      ensures forall o :: o in old(s.elements) && o !in s.elements ==> o.remainingQuantity == 0 && o.status == Complete
      ensures sellOrders == old(sellOrders) && buyOrders == old(buyOrders)
      ensures forall t :: t in Storages() && t != s ==> t in e && t.elements == e[t]
      ensures ViewsHeld(ov)
    {
      events := s.Match(order, tradeAt);
    }

    /**
     * After storage s alone changed, every order that no longer rests left
     * s; so if those that left s were used up, all that left the book were.
     */
    lemma PassDropped(s: OrderStorage, e: map<OrderStorage, seq<TradeOrder>>)
      requires s in Storages() && Storages() == e.Keys
      requires forall t :: t in Storages() && t != s ==> t.elements == e[t]
      requires forall o :: o in e[s] && o !in s.elements ==> o.remainingQuantity == 0 && o.status == Complete
      ensures AllFilled(Flatten(e) - Resting())
    {
      forall o | o in Flatten(e) && o !in Resting() ensures o in e[s] && o !in s.elements {
        var t :| t in e && o in e[t];
        RestingHolds(s);
        if t != s {
          RestingHolds(t);
        }
      }
    }

    /**
     * Tables of the book as it stands, taken before storage s changes:
     * each storage's contents (c) and orders (e), and the views of the
     * orders resting elsewhere (ov).
     */
    lemma TakeSnapshot(s: OrderStorage, order: TradeOrder, e: map<OrderStorage, seq<TradeOrder>>)
      returns (c: map<OrderStorage, seq<OrderView>>, ov: map<TradeOrder, OrderView>)
      requires Valid() && order !in Resting() && s in Storages()
      requires e.Keys == Storages() && (forall t :: t in Storages() ==> e[t] == t.elements) && Resting() == Flatten(e)
      ensures Storages() <= c.Keys
      ensures View() == BookView(SideFrom(sellOrders, c), SideFrom(buyOrders, c))
      ensures order !in Flatten(e)
      ensures PlacedIn(sellOrders, e, true) && PlacedIn(buyOrders, e, false)
      ensures forall t :: t in Storages() ==> Chained(e[t], OrderKey)
      ensures forall t :: t in Storages() && t != s ==> Tabled(c, e, ov, t)
      ensures ViewsHeld(ov) && order !in ov && order !in s.elements
      ensures forall o :: o in ov ==> o !in s.elements
    {
      c := ContentsTable();
      ov := OthersViewsTable(s);
      SideViewFrom(sellOrders, c);
      SideViewFrom(buyOrders, c);
      LevelApart(s, order);
      TablesAgree(s, c, e, ov);
      PlacedFrom(sellOrders, e, true);
      PlacedFrom(buyOrders, e, false);
    }

    /** The tables list, for every storage but s, what ov says of its orders. */
    lemma TablesAgree(s: OrderStorage, c: map<OrderStorage, seq<OrderView>>, e: map<OrderStorage, seq<TradeOrder>>,
                      ov: map<TradeOrder, OrderView>)
      requires Valid() && s in Storages()
      requires forall t :: t in Storages() ==> t in c && c[t] == t.Contents()
      requires e.Keys == Storages() && forall t :: t in e ==> e[t] == t.elements
      requires forall o :: o in ov <==> o in Resting() && o !in s.elements
      requires ViewsHeld(ov)
      ensures forall t :: t in Storages() && t != s ==> Tabled(c, e, ov, t)
    {
      forall t | t in Storages() && t != s ensures Tabled(c, e, ov, t) {
        ViewsAt(t.elements);
        forall k | 0 <= k < |e[t]| ensures e[t][k] in ov {
          var o := e[t][k];
          assert o in t.elements;
          if t in sellOrders.Values {
            assert o in OrdersIn(sellOrders);
          } else {
            assert o in OrdersIn(buyOrders);
          }
          if o in s.elements {
            RestsOnce(s, t, o);
          }
        }
      }
    }

    /** After s alone changed, and the orders of ov kept their views, every other storage reads as before. */
    lemma OthersKept(s: OrderStorage, c: map<OrderStorage, seq<OrderView>>, e: map<OrderStorage, seq<TradeOrder>>,
                     ov: map<TradeOrder, OrderView>)
      requires forall t :: t in Storages() && t != s ==> Tabled(c, e, ov, t) && t.elements == e[t]
      requires ViewsHeld(ov)
      ensures forall t :: t in Storages() && t != s ==> t in c && t.Contents() == c[t]
    {
      forall t | t in Storages() && t != s ensures t.Contents() == c[t] {
        ViewsOf(t.elements, c[t]);
      }
    }

    /** The book's view of storage s, at price opposite the order. */
    lemma CounterLevel(s: OrderStorage, price: Price, order: TradeOrder)
      requires price in CounterSide(order.kind) && CounterSide(order.kind)[price] == s
      ensures price in Counter(View(), order) && Counter(View(), order)[price] == s.Contents()
      ensures s.IsEmpty() <==> s.Contents() == []
    {
      IsEmptyIffNoContents(s);
    }

    /** The level Match finds: missing or empty exactly when MatchAt's guard says so. */
    lemma CounterLevelOf(price: Price, order: TradeOrder)
      ensures var st := GetCounterOrderStorage(price, order.kind);
        (st.None? || st.value.IsEmpty()) <==> (price !in Counter(View(), order) || Counter(View(), order)[price] == [])
    {
      var st := GetCounterOrderStorage(price, order.kind);
      if st.Some? {
        CounterLevel(st.value, price, order);
      }
    }

    /** The orders of a storage of the book rest in the book. */
    lemma RestingHolds(s: OrderStorage)
      requires s in Storages()
      ensures forall o :: o in s.elements ==> o in Resting()
    {
      if s in sellOrders.Values {
        assert forall o :: o in s.elements ==> o in OrdersIn(sellOrders);
      } else {
        assert forall o :: o in s.elements ==> o in OrdersIn(buyOrders);
      }
    }

    /** The incoming order and every other storage's orders are apart from storage s. */
    lemma LevelApart(s: OrderStorage, order: TradeOrder)
      requires Valid() && order !in Resting() && s in Storages()
      ensures forall t :: t in Storages() ==> order !in t.elements
      ensures forall t, o :: t in Storages() && t != s && o in t.elements ==> o !in s.elements
    {
      forall t, o | t in Storages() && t != s && o in t.elements
        ensures o !in s.elements
      {
        if o in s.elements {
          RestsOnce(s, t, o);
        }
      }
    }

    /** In a valid book an order rests in at most one storage. */
    lemma RestsOnce(s: OrderStorage, t: OrderStorage, o: TradeOrder)
      requires Valid() && s in Storages() && t in Storages()
      requires o in s.elements && o in t.elements
      ensures s == t
    {
      var p :| (p in sellOrders && sellOrders[p] == s) || (p in buyOrders && buyOrders[p] == s);
      var q :| (q in sellOrders && sellOrders[q] == t) || (q in buyOrders && buyOrders[q] == t);
      assert p.value == o.price == q.value;
    }

    /** After storage s alone changed, shrinking and staying sorted, the book is still valid. */
    lemma PassKeepsValid(s: OrderStorage, e: map<OrderStorage, seq<TradeOrder>>)
      requires Shaped() && s in Storages() && Storages() <= e.Keys
      requires forall t :: t in Storages() && t != s ==> t.elements == e[t] && Chained(e[t], OrderKey)
      requires s.Valid() && forall o :: o in s.elements ==> o in e[s]
      requires PlacedIn(sellOrders, e, true) && PlacedIn(buyOrders, e, false)
      ensures Valid()
    {
    }

    /** After storage s alone shrank, no order rests that did not rest before. */
    lemma PassKeepsResting(s: OrderStorage, order: TradeOrder, e: map<OrderStorage, seq<TradeOrder>>)
      requires s in Storages() && Storages() <= e.Keys
      requires forall t :: t in Storages() && t != s ==> t.elements == e[t]
      requires forall o :: o in s.elements ==> o in e[s]
      requires order !in Flatten(e)
      ensures order !in Resting() && Resting() <= Flatten(e)
    {
      forall o | o in Resting() ensures o in Flatten(e) {
        var t :| t in Storages() && o in t.elements;
        assert o in e[t];
      }
    }

    /** The storages of one side: the sells when sell holds, the buys otherwise. */
    function SideMap(sell: bool): map<Price, OrderStorage>
      reads this
    {
      if sell then sellOrders else buyOrders
    }

    /** After storage s (at price on the given side) alone changed, only that level differs. */
    lemma LevelView(s: OrderStorage, price: Price, sell: bool, c: map<OrderStorage, seq<OrderView>>)
      requires Shaped() && price in SideMap(sell) && SideMap(sell)[price] == s
      requires Storages() <= c.Keys
      requires forall t :: t in Storages() && t != s ==> t.Contents() == c[t]
      ensures var before := BookView(SideFrom(sellOrders, c), SideFrom(buyOrders, c));
        View() == WithSide(before, sell, SideOf(before, sell)[price := s.Contents()])
    {
      var c' := c[s := s.Contents()];
      SideViewFrom(sellOrders, c');
      SideViewFrom(buyOrders, c');
      SideFromUpdate(SideMap(sell), c, price, s.Contents());
      SideFromOther(SideMap(!sell), c, s, s.Contents());
    }
  }
}
