/**
 * One price level: the resting orders at one exact price on one side,
 * kept strictly ordered by (creation time ascending, total quantity
 * descending, id ascending). Match walks the level in that order against
 * one incoming order.
 */
module Storage {
  import opened Options
  import opened Types
  import opened Orders
  import opened Events

  // ---------------------------------------------------------------------
  // The ordered set

  /** Strictly increasing keys: the comparator order, with no two equal keys. */
  ghost predicate Sorted<T>(s: seq<T>, key: T -> SortKey) {
    forall i, j :: 0 <= i < j < |s| ==> Precedes(key(s[i]), key(s[j]))
  }

  /**
   * The sorted set's add: the element goes before the first element it
   * precedes; if an element with an equal key is already there, the set
   * is left as it is.
   */
  function Insert<T>(s: seq<T>, x: T, key: T -> SortKey): seq<T> {
    if s == [] then [x]
    else if key(x) == key(s[0]) then s
    else if Precedes(key(x), key(s[0])) then [x] + s
    else [s[0]] + Insert(s[1..], x, key)
  }

  /**
   * The same order stated on neighbours only: each element precedes the
   * next. This is the form the level object keeps as its invariant.
   */
  ghost predicate Chained<T>(s: seq<T>, key: T -> SortKey)
    decreases |s|
  {
    |s| < 2 || (Precedes(key(s[0]), key(s[1])) && Chained(s[1..], key))
  }

  /** Neighbour order and pairwise order agree, by transitivity of the comparator. */
  lemma {:induction false} ChainedIsSorted<T>(s: seq<T>, key: T -> SortKey)
    ensures Chained(s, key) <==> Sorted(s, key)
    decreases |s|
  {
    if |s| >= 2 {
      ChainedIsSorted(s[1..], key);
      if Chained(s, key) {
        forall i, j | 0 <= i < j < |s| ensures Precedes(key(s[i]), key(s[j])) {
          if i == 0 && j > 1 {
            assert Precedes(key(s[1..][0]), key(s[1..][j - 1]));
            PrecedesIsStrictTotalOrder(key(s[0]), key(s[1]), key(s[j]));
          } else if i > 0 {
            assert Precedes(key(s[1..][i - 1]), key(s[1..][j - 1]));
          }
        }
      }
      if Sorted(s, key) {
        forall i, j | 0 <= i < j < |s[1..]| ensures Precedes(key(s[1..][i]), key(s[1..][j])) {
          assert s[1..][i] == s[i + 1] && s[1..][j] == s[j + 1];
        }
      }
    }
  }

  /** Some element already has x's key. */
  ghost predicate HasKey<T>(s: seq<T>, x: T, key: T -> SortKey) {
    exists i :: 0 <= i < |s| && key(s[i]) == key(x)
  }

  lemma {:induction false} InsertKeepsSorted<T>(s: seq<T>, x: T, key: T -> SortKey)
    requires Sorted(s, key)
    ensures Sorted(Insert(s, x, key), key)
    ensures forall y :: y in Insert(s, x, key) ==> y in s || y == x
  {
    if s == [] || key(x) == key(s[0]) {
    } else if Precedes(key(x), key(s[0])) {
      forall j | 0 < j < |s| + 1 ensures Precedes(key(x), key(([x] + s)[j])) {
        PrecedesIsStrictTotalOrder(key(x), key(s[0]), key(s[j - 1]));
      }
    } else {
      var t := Insert(s[1..], x, key);
      InsertKeepsSorted(s[1..], x, key);
      PrecedesIsStrictTotalOrder(key(x), key(s[0]), key(s[0]));
      forall y | y in t ensures Precedes(key(s[0]), key(y)) {
        if y != x {
          var k :| 0 <= k < |s[1..]| && s[1..][k] == y;
          assert s[k + 1] == y;
        }
      }
      var r := [s[0]] + t;
      forall i, j | 0 <= i < j < |r| ensures Precedes(key(r[i]), key(r[j])) {
        if i == 0 {
          assert r[j] == t[j - 1];
        } else {
          assert r[i] == t[i - 1] && r[j] == t[j - 1];
        }
      }
    }
  }

  /** add never loses an element. */
  lemma {:induction false} InsertKeeps<T>(s: seq<T>, x: T, key: T -> SortKey)
    ensures forall y :: y in s ==> y in Insert(s, x, key)
    decreases |s|
  {
    if s != [] && key(x) != key(s[0]) && !Precedes(key(x), key(s[0])) {
      InsertKeeps(s[1..], x, key);
      forall y | y in s ensures y in Insert(s, x, key) {
        if y != s[0] {
          assert y in s[1..];
        }
      }
    }
  }

  /** add brings in nothing but x. */
  lemma {:induction false} InsertOnly<T>(s: seq<T>, x: T, key: T -> SortKey)
    ensures forall y :: y in Insert(s, x, key) ==> y in s || y == x
    decreases |s|
  {
    if s != [] && key(x) != key(s[0]) && !Precedes(key(x), key(s[0])) {
      InsertOnly(s[1..], x, key);
      forall y | y in Insert(s, x, key) ensures y in s || y == x {
        if y != s[0] {
          assert y in Insert(s[1..], x, key);
          assert forall z :: z in s[1..] ==> z in s;
        }
      }
    }
  }

  /**
   * add on a sorted set: with a key already present nothing changes;
   * otherwise the result holds exactly the old elements and x, one more.
   */
  lemma InsertContents<T>(s: seq<T>, x: T, key: T -> SortKey)
    requires Sorted(s, key)
    ensures HasKey(s, x, key) ==> Insert(s, x, key) == s
    ensures !HasKey(s, x, key) ==> multiset(Insert(s, x, key)) == multiset(s) + multiset{x}
  {
    if HasKey(s, x, key) {
      InsertPresent(s, x, key);
    } else {
      InsertAbsent(s, x, key);
    }
  }

  /** The tail of a sorted sequence is sorted. */
  lemma SortedTail<T>(s: seq<T>, key: T -> SortKey)
    requires s != [] && Sorted(s, key)
    ensures Sorted(s[1..], key)
  {
    var t := s[1..];
    forall i, j | 0 <= i < j < |t| ensures Precedes(key(t[i]), key(t[j])) {
      assert t[i] == s[i + 1] && t[j] == s[j + 1];
    }
  }

  lemma {:induction false} InsertPresent<T>(s: seq<T>, x: T, key: T -> SortKey)
    requires Sorted(s, key) && HasKey(s, x, key)
    ensures Insert(s, x, key) == s
  {
    var i :| 0 <= i < |s| && key(s[i]) == key(x);
    if key(x) == key(s[0]) {
    } else if Precedes(key(x), key(s[0])) {
      assert i != 0;
      PrecedesIsStrictTotalOrder(key(x), key(s[0]), key(s[i]));
      assert false;
    } else {
      var t := s[1..];
      SortedTail(s, key);
      assert key(t[i - 1]) == key(x);
      InsertPresent(t, x, key);
      assert s == [s[0]] + t;
    }
  }

  lemma {:induction false} InsertAbsent<T>(s: seq<T>, x: T, key: T -> SortKey)
    requires Sorted(s, key) && !HasKey(s, x, key)
    ensures multiset(Insert(s, x, key)) == multiset(s) + multiset{x}
  {
    if s == [] {
    } else if key(x) == key(s[0]) {
      assert false;
    } else if Precedes(key(x), key(s[0])) {
      assert [x] + s == [x] + [s[0]] + s[1..];
      assert s == [s[0]] + s[1..];
    } else {
      var t := s[1..];
      SortedTail(s, key);
      forall i | 0 <= i < |t| ensures key(t[i]) != key(x) {
        assert t[i] == s[i + 1];
      }
      InsertAbsent(t, x, key);
      assert s == [s[0]] + t;
    }
  }

  /** Inserting an order and then taking views is inserting its view into the views. */
  lemma {:induction false} InsertViews(s: seq<TradeOrder>, o: TradeOrder)
    ensures Views(Insert(s, o, OrderKey)) == Insert(Views(s), o.View(), ViewKey)
  {
    if s == [] {
    } else {
      assert Views(s)[0] == s[0].View();
      assert Views(s)[1..] == Views(s[1..]);
      if OrderKey(o) != OrderKey(s[0]) && !Precedes(OrderKey(o), OrderKey(s[0])) {
        InsertViews(s[1..], o);
      }
    }
  }

  lemma {:induction false} ViewsAppend(a: seq<TradeOrder>, b: seq<TradeOrder>)
    ensures Views(a + b) == Views(a) + Views(b)
  {
    if a == [] {
      assert a + b == b;
    } else {
      ViewsAppend(a[1..], b);
      assert (a + b)[1..] == a[1..] + b;
    }
  }

  /** Views, position by position. */
  lemma {:induction false} ViewsAt(s: seq<TradeOrder>)
    ensures forall k :: 0 <= k < |s| ==> Views(s)[k] == OrderView(s[k], s[k].remainingQuantity, s[k].status)
  {
    if s != [] {
      ViewsAt(s[1..]);
      forall k | 1 <= k < |s| ensures Views(s)[k] == OrderView(s[k], s[k].remainingQuantity, s[k].status) {
        assert Views(s)[k] == Views(s[1..])[k - 1];
      }
    }
  }

  /** A sequence of values that agrees with the orders position by position is their views. */
  lemma ViewsOf(s: seq<TradeOrder>, vs: seq<OrderView>)
    requires |vs| == |s|
    requires forall k :: 0 <= k < |s| ==> vs[k] == OrderView(s[k], s[k].remainingQuantity, s[k].status)
    ensures Views(s) == vs
  {
    ViewsAt(s);
  }

  lemma SortedViews(s: seq<TradeOrder>)
    ensures Sorted(Views(s), ViewKey) <==> Sorted(s, OrderKey)
  {
    ViewsAt(s);
    assert forall k :: 0 <= k < |s| ==> ViewKey(Views(s)[k]) == OrderKey(s[k]);
  }

  // ---------------------------------------------------------------------
  // Matching one level, on values

  /** Execution price: the resting order's price for a market aggressor, otherwise the aggressor's. */
  function GetMatchingPrice(incoming: TradeOrder, found: TradeOrder): int {
    if incoming.IsMarketOrder() then found.price else incoming.price
  }

  /**
   * The trade record of one pairing: order ids and account ids go to the
   * buy and sell slots by the incoming order's side; the instrument is the
   * incoming order's.
   */
  function CreateResponse(incoming: TradeOrder, found: TradeOrder, quantity: int, tradeAt: int): TradeHistoryEvent {
    var price := GetMatchingPrice(incoming, found);
    if incoming.IsSellType() then
      TradeHistoryEvent(incoming.companyCode, found.id, found.accountId,
                        incoming.id, incoming.accountId, quantity, price, tradeAt)
    else
      TradeHistoryEvent(incoming.companyCode, incoming.id, incoming.accountId,
                        found.id, found.accountId, quantity, price, tradeAt)
  }

  datatype LevelOutcome = LevelOutcome(incoming: OrderView, level: seq<OrderView>, events: seq<TradeHistoryEvent>)

  /**
   * OrderStorage.match on values: walk the level in priority order while
   * the incoming order has quantity left; skip resting orders of the same
   * account; otherwise fill the smaller remainder on both sides, record
   * one event, and drop the resting order if it reached zero.
   */
  ghost function MatchLevel(inc: OrderView, level: seq<OrderView>, tradeAt: int): LevelOutcome
    decreases |level|
  {
    if level == [] || inc.remaining == 0 then
      LevelOutcome(inc, level, [])
    else
      var found := level[0];
      if found.order.HasSameAccount(inc.order.accountId) then
        var r := MatchLevel(inc, level[1..], tradeAt);
        LevelOutcome(r.incoming, [found] + r.level, r.events)
      else
        var q := inc.MatchQuantity(found);
        var inc' := inc.Decreased(q).StatusChecked();
        var found' := found.Decreased(q).StatusChecked();
        var r := MatchLevel(inc', level[1..], tradeAt);
        LevelOutcome(r.incoming,
                     (if found'.remaining != 0 then [found'] else []) + r.level,
                     [CreateResponse(inc.order, found.order, q, tradeAt)] + r.events)
  }

  /** The remaining quantity resting in a level. */
  function Resting(level: seq<OrderView>): int {
    if level == [] then 0 else level[0].remaining + Resting(level[1..])
  }

  /** The resting orders an incoming order may trade with, in priority order. */
  function Eligible(inc: TradeOrder, level: seq<OrderView>): seq<OrderView> {
    if level == [] then []
    else (if level[0].order.HasSameAccount(inc.accountId) then [] else [level[0]]) + Eligible(inc, level[1..])
  }

  function Ids(level: seq<OrderView>): seq<int> {
    if level == [] then [] else [level[0].order.id] + Ids(level[1..])
  }

  /** The ids of the resting side of each event, for an incoming order of the given side. */
  function RestingIds(events: seq<TradeHistoryEvent>, incomingIsSell: bool): seq<int> {
    if events == [] then []
    else [if incomingIsSell then events[0].buyOrderId else events[0].sellOrderId]
         + RestingIds(events[1..], incomingIsSell)
  }

  // ---------------------------------------------------------------------
  // Properties of one level's matching

  /**
   * Conservation: the events trade exactly what the incoming order lost,
   * and exactly what the level lost; the incoming order stays itself.
   */
  lemma {:induction false} MatchLevelConservation(inc: OrderView, level: seq<OrderView>, tradeAt: int)
    ensures var r := MatchLevel(inc, level, tradeAt);
      && r.incoming.order == inc.order
      && Traded(r.events) == inc.remaining - r.incoming.remaining
      && Resting(level) - Resting(r.level) == Traded(r.events)
    decreases |level|
  {
    if level == [] || inc.remaining == 0 {
    } else {
      var found := level[0];
      var r := MatchLevel(inc, level, tradeAt);
      if found.order.HasSameAccount(inc.order.accountId) {
        MatchLevelConservation(inc, level[1..], tradeAt);
        var r' := MatchLevel(inc, level[1..], tradeAt);
        assert ([found] + r'.level)[1..] == r'.level;
      } else {
        var q := inc.MatchQuantity(found);
        var inc' := inc.Decreased(q).StatusChecked();
        var found' := found.Decreased(q).StatusChecked();
        MatchLevelConservation(inc', level[1..], tradeAt);
        var r' := MatchLevel(inc', level[1..], tradeAt);
        var e := CreateResponse(inc.order, found.order, q, tradeAt);
        assert ([e] + r'.events)[1..] == r'.events;
        if found'.remaining != 0 {
          assert ([found'] + r'.level)[1..] == r'.level;
        } else {
          assert [] + r'.level == r'.level;
        }
      }
    }
  }

  /**
   * Every order left in the level was already in it: whatever holds of all
   * the orders before matching holds of all those after. In particular the
   * incoming order is never inserted by matching.
   */
  lemma {:induction false} MatchLevelOrdersFromLevel(inc: OrderView, level: seq<OrderView>, tradeAt: int, P: TradeOrder -> bool)
    requires forall v :: v in level ==> P(v.order)
    ensures forall v :: v in MatchLevel(inc, level, tradeAt).level ==> P(v.order)
    decreases |level|
  {
    if level == [] || inc.remaining == 0 {
    } else {
      var found := level[0];
      assert forall v :: v in level[1..] ==> v in level;
      if found.order.HasSameAccount(inc.order.accountId) {
        MatchLevelOrdersFromLevel(inc, level[1..], tradeAt, P);
      } else {
        var q := inc.MatchQuantity(found);
        MatchLevelOrdersFromLevel(inc.Decreased(q).StatusChecked(), level[1..], tradeAt, P);
      }
    }
  }

  /** Matching keeps the level in priority order. */
  lemma {:induction false} MatchLevelKeepsSorted(inc: OrderView, level: seq<OrderView>, tradeAt: int)
    requires Sorted(level, ViewKey)
    ensures Sorted(MatchLevel(inc, level, tradeAt).level, ViewKey)
    decreases |level|
  {
    if level == [] || inc.remaining == 0 {
    } else {
      var found := level[0];
      var k := ViewKey(found);
      forall v | v in level[1..] ensures Precedes(k, v.order.Key()) {
        var j :| 0 <= j < |level[1..]| && level[1..][j] == v;
        assert level[j + 1] == v;
      }
      var P := (o: TradeOrder) => Precedes(k, o.Key());
      if found.order.HasSameAccount(inc.order.accountId) {
        MatchLevelKeepsSorted(inc, level[1..], tradeAt);
        MatchLevelOrdersFromLevel(inc, level[1..], tradeAt, P);
        var t := MatchLevel(inc, level[1..], tradeAt).level;
        PrependSorted(found, t);
      } else {
        var q := inc.MatchQuantity(found);
        var inc' := inc.Decreased(q).StatusChecked();
        var found' := found.Decreased(q).StatusChecked();
        MatchLevelKeepsSorted(inc', level[1..], tradeAt);
        MatchLevelOrdersFromLevel(inc', level[1..], tradeAt, P);
        var t := MatchLevel(inc', level[1..], tradeAt).level;
        if found'.remaining != 0 {
          PrependSorted(found', t);
        } else {
          assert [] + t == t;
        }
      }
    }
  }

  lemma PrependSorted(x: OrderView, t: seq<OrderView>)
    requires Sorted(t, ViewKey)
    requires forall v :: v in t ==> Precedes(ViewKey(x), v.order.Key())
    ensures Sorted([x] + t, ViewKey)
  {
    var r := [x] + t;
    forall i, j | 0 <= i < j < |r| ensures Precedes(ViewKey(r[i]), ViewKey(r[j])) {
      assert r[j] == t[j - 1];
      if i > 0 {
        assert r[i] == t[i - 1];
      }
    }
  }

  /**
   * One walk over the level is enough: walking the result again trades
   * nothing and changes nothing.
   */
  lemma {:induction false} MatchLevelIdempotent(inc: OrderView, level: seq<OrderView>, tradeAt: int)
    ensures var r := MatchLevel(inc, level, tradeAt);
      MatchLevel(r.incoming, r.level, tradeAt) == LevelOutcome(r.incoming, r.level, [])
    decreases |level|
  {
    var r := MatchLevel(inc, level, tradeAt);
    if level == [] || inc.remaining == 0 {
    } else {
      var found := level[0];
      if found.order.HasSameAccount(inc.order.accountId) {
        MatchLevelIdempotent(inc, level[1..], tradeAt);
        MatchLevelConservation(inc, level[1..], tradeAt);
        var r' := MatchLevel(inc, level[1..], tradeAt);
        if r.incoming.remaining != 0 {
          assert ([found] + r'.level)[1..] == r'.level;
        }
      } else {
        var q := inc.MatchQuantity(found);
        var inc' := inc.Decreased(q).StatusChecked();
        var found' := found.Decreased(q).StatusChecked();
        PairingFillsOneSide(inc, found);
        MatchLevelIdempotent(inc', level[1..], tradeAt);
        if found'.remaining == 0 {
          assert r.level == MatchLevel(inc', level[1..], tradeAt).level;
        }
      }
    }
  }

  /**
   * Remainders stay sound: a non-negative incoming order against a level
   * of positive remainders leaves a non-negative incoming order and a
   * level of positive remainders, so a filled order never stays behind.
   */
  lemma {:induction false} MatchLevelKeepsPositive(inc: OrderView, level: seq<OrderView>, tradeAt: int)
    requires inc.remaining >= 0
    requires forall v :: v in level ==> v.remaining > 0
    ensures var r := MatchLevel(inc, level, tradeAt);
      && 0 <= r.incoming.remaining <= inc.remaining
      && forall v :: v in r.level ==> v.remaining > 0
    decreases |level|
  {
    if level == [] || inc.remaining == 0 {
    } else {
      var found := level[0];
      assert forall v :: v in level[1..] ==> v in level;
      if found.order.HasSameAccount(inc.order.accountId) {
        MatchLevelKeepsPositive(inc, level[1..], tradeAt);
      } else {
        var q := inc.MatchQuantity(found);
        PairingFillsOneSide(inc, found);
        MatchLevelKeepsPositive(inc.Decreased(q).StatusChecked(), level[1..], tradeAt);
      }
    }
  }

  /**
   * The status invariant (COMPLETE exactly when nothing is left) holds of
   * the incoming order and of the level after matching when it held before.
   */
  lemma {:induction false} MatchLevelKeepsStatusConsistent(inc: OrderView, level: seq<OrderView>, tradeAt: int)
    requires inc.StatusConsistent()
    requires forall v :: v in level ==> v.remaining != 0 && v.StatusConsistent()
    ensures var r := MatchLevel(inc, level, tradeAt);
      && r.incoming.StatusConsistent()
      && forall v :: v in r.level ==> v.StatusConsistent()
    decreases |level|
  {
    if level == [] || inc.remaining == 0 {
    } else {
      var found := level[0];
      assert forall v :: v in level[1..] ==> v in level;
      if found.order.HasSameAccount(inc.order.accountId) {
        MatchLevelKeepsStatusConsistent(inc, level[1..], tradeAt);
      } else {
        var q := inc.MatchQuantity(found);
        PairingKeepsStatusConsistent(inc, found);
        MatchLevelKeepsStatusConsistent(inc.Decreased(q).StatusChecked(), level[1..], tradeAt);
      }
    }
  }

  /**
   * No self-trade: a resting order of the incoming order's account is never
   * paired, so no event carries the same non-null account on both sides,
   * and such resting orders stay in the level unchanged.
   */
  lemma {:induction false} MatchLevelNoSelfTrade(inc: OrderView, level: seq<OrderView>, tradeAt: int)
    ensures var r := MatchLevel(inc, level, tradeAt);
      forall e :: e in r.events ==> !(e.buyAccountId.Some? && e.buyAccountId == e.sellAccountId)
    ensures var r := MatchLevel(inc, level, tradeAt);
      forall v :: v in level && v.order.HasSameAccount(inc.order.accountId) ==> v in r.level
    decreases |level|
  {
    if level == [] || inc.remaining == 0 {
    } else {
      var found := level[0];
      assert forall v :: v in level ==> v == found || v in level[1..];
      if found.order.HasSameAccount(inc.order.accountId) {
        MatchLevelNoSelfTrade(inc, level[1..], tradeAt);
      } else {
        var q := inc.MatchQuantity(found);
        var inc' := inc.Decreased(q).StatusChecked();
        MatchLevelNoSelfTrade(inc', level[1..], tradeAt);
      }
    }
  }

  /**
   * Time priority: the k events of a walk go to the k first eligible
   * resting orders, in the level's order; and if the incoming order still
   * has quantity left, every eligible order was traded with and none is
   * left in the level.
   */
  lemma {:induction false} MatchLevelPriority(inc: OrderView, level: seq<OrderView>, tradeAt: int)
    ensures var r := MatchLevel(inc, level, tradeAt);
      && |r.events| <= |Eligible(inc.order, level)|
      && RestingIds(r.events, inc.order.IsSellType()) == Ids(Eligible(inc.order, level)[..|r.events|])
    ensures var r := MatchLevel(inc, level, tradeAt);
      r.incoming.remaining != 0 ==>
        |r.events| == |Eligible(inc.order, level)| && Eligible(inc.order, r.level) == []
    decreases |level|
  {
    var r := MatchLevel(inc, level, tradeAt);
    if level == [] || inc.remaining == 0 {
    } else {
      var found := level[0];
      if found.order.HasSameAccount(inc.order.accountId) {
        MatchLevelPriority(inc, level[1..], tradeAt);
        var r' := MatchLevel(inc, level[1..], tradeAt);
        assert Eligible(inc.order, level) == Eligible(inc.order, level[1..]);
        assert ([found] + r'.level)[1..] == r'.level;
      } else {
        var q := inc.MatchQuantity(found);
        var inc' := inc.Decreased(q).StatusChecked();
        var found' := found.Decreased(q).StatusChecked();
        MatchLevelPriority(inc', level[1..], tradeAt);
        var r' := MatchLevel(inc', level[1..], tradeAt);
        var el := Eligible(inc.order, level[1..]);
        assert Eligible(inc.order, level) == [found] + el;
        var e := CreateResponse(inc.order, found.order, q, tradeAt);
        assert r.events == [e] + r'.events;
        assert r.events[1..] == r'.events;
        assert ([found] + el)[..|r.events|] == [found] + el[..|r'.events|];
        assert ([found] + el[..|r'.events|])[1..] == el[..|r'.events|];
        if r.incoming.remaining != 0 {
          PairingFillsOneSide(inc, found);
          MatchLevelConservation(inc', level[1..], tradeAt);
          assert found'.remaining == 0;
          assert r.level == r'.level;
        }
      }
    }
  }

  /**
   * Every event names the incoming order's instrument and the call's
   * timestamp and puts the incoming order in the slot of its own side; a
   * limit aggressor's events carry its own price, and a market aggressor's
   * carry the resting price; so when every resting order is priced p, and a
   * limit aggressor is priced p too, every event is at p.
   */
  lemma {:induction false} MatchLevelEventFields(inc: OrderView, level: seq<OrderView>, tradeAt: int, p: int)
    ensures forall e :: e in MatchLevel(inc, level, tradeAt).events ==>
      && e.companyCode == inc.order.companyCode
      && e.tradeAt == tradeAt
      && (inc.order.IsSellType() ==> e.sellOrderId == inc.order.id && e.sellAccountId == inc.order.accountId)
      && (!inc.order.IsSellType() ==> e.buyOrderId == inc.order.id && e.buyAccountId == inc.order.accountId)
      && (!inc.order.IsMarketOrder() ==> e.price == inc.order.price)
    ensures (inc.order.IsMarketOrder() || inc.order.price == p) && (forall v :: v in level ==> v.order.price == p) ==>
      forall e :: e in MatchLevel(inc, level, tradeAt).events ==> e.price == p
    ensures forall e :: e in MatchLevel(inc, level, tradeAt).events ==>
      exists v :: v in level && FilledAgainst(e, inc.order, v.order)
    decreases |level|
  {
    if level == [] || inc.remaining == 0 {
    } else {
      var found := level[0];
      assert forall v :: v in level[1..] ==> v in level;
      if found.order.HasSameAccount(inc.order.accountId) {
        MatchLevelEventFields(inc, level[1..], tradeAt, p);
      } else {
        var q := inc.MatchQuantity(found);
        MatchLevelEventFields(inc.Decreased(q).StatusChecked(), level[1..], tradeAt, p);
      }
    }
  }

  /**
   * The event records found as the resting side of the trade: its id and
   * account fill the slots opposite the incoming order's, and the price is
   * getMatchingPrice of the pair.
   */
  predicate FilledAgainst(e: TradeHistoryEvent, incoming: TradeOrder, found: TradeOrder) {
    && (if incoming.IsSellType() then e.buyOrderId == found.id && e.buyAccountId == found.accountId
        else e.sellOrderId == found.id && e.sellAccountId == found.accountId)
    && e.price == GetMatchingPrice(incoming, found)
  }

  /** One step of the walk, as the loop of OrderStorage.match takes it. */
  lemma MatchLevelStep(inc: OrderView, fv: OrderView, after: seq<OrderView>, tradeAt: int)
    requires inc.remaining != 0
    ensures fv.order.HasSameAccount(inc.order.accountId) ==>
      var r' := MatchLevel(inc, after, tradeAt);
      MatchLevel(inc, [fv] + after, tradeAt) == LevelOutcome(r'.incoming, [fv] + r'.level, r'.events)
    ensures !fv.order.HasSameAccount(inc.order.accountId) ==>
      var q := inc.MatchQuantity(fv);
      var inc' := inc.Decreased(q).StatusChecked();
      var fv' := fv.Decreased(q).StatusChecked();
      var r' := MatchLevel(inc', after, tradeAt);
      MatchLevel(inc, [fv] + after, tradeAt)
        == LevelOutcome(r'.incoming, (if fv'.remaining != 0 then [fv'] else []) + r'.level,
                        [CreateResponse(inc.order, fv.order, q, tradeAt)] + r'.events)
  {
    assert ([fv] + after)[1..] == after;
  }

  /** Bookkeeping of a level scan: the part already passed, the outcome of the rest, the events so far. */
  ghost function Track(done: seq<OrderView>, rest: LevelOutcome, events: seq<TradeHistoryEvent>): LevelOutcome {
    LevelOutcome(rest.incoming, done + rest.level, events + rest.events)
  }

  /** Passing over a same-account order moves it to the done part. */
  lemma SkipStep(r0: LevelOutcome, done: seq<OrderView>, inc: OrderView, fv: OrderView, after: seq<OrderView>,
                 events: seq<TradeHistoryEvent>, tradeAt: int)
    requires inc.remaining != 0 && fv.order.HasSameAccount(inc.order.accountId)
    requires r0 == Track(done, MatchLevel(inc, [fv] + after, tradeAt), events)
    ensures r0 == Track(done + [fv], MatchLevel(inc, after, tradeAt), events)
  {
    MatchLevelStep(inc, fv, after, tradeAt);
    var r' := MatchLevel(inc, after, tradeAt);
    assert done + ([fv] + r'.level) == (done + [fv]) + r'.level;
  }

  /** Pairing with an order emits its event and keeps the order in the done part if it is not filled. */
  lemma PairStep(r0: LevelOutcome, done: seq<OrderView>, inc: OrderView, fv: OrderView, after: seq<OrderView>,
                 events: seq<TradeHistoryEvent>, tradeAt: int)
    requires inc.remaining != 0 && !fv.order.HasSameAccount(inc.order.accountId)
    requires r0 == Track(done, MatchLevel(inc, [fv] + after, tradeAt), events)
    ensures var q := inc.MatchQuantity(fv);
      var fv' := fv.Decreased(q).StatusChecked();
      r0 == Track(done + (if fv'.remaining != 0 then [fv'] else []),
                  MatchLevel(inc.Decreased(q).StatusChecked(), after, tradeAt),
                  events + [CreateResponse(inc.order, fv.order, q, tradeAt)])
  {
    MatchLevelStep(inc, fv, after, tradeAt);
    var q := inc.MatchQuantity(fv);
    var fv' := fv.Decreased(q).StatusChecked();
    var r' := MatchLevel(inc.Decreased(q).StatusChecked(), after, tradeAt);
    var kept := if fv'.remaining != 0 then [fv'] else [];
    var e := CreateResponse(inc.order, fv.order, q, tradeAt);
    assert done + (kept + r'.level) == (done + kept) + r'.level;
    assert events + ([e] + r'.events) == (events + [e]) + r'.events;
  }

  /** Every order of a scan passed (the first j) and not kept was filled: nothing left, status COMPLETE. */
  ghost predicate Dropped(orders: seq<TradeOrder>, kept: seq<TradeOrder>, j: int)
    reads orders
  {
    forall k :: 0 <= k < j && k < |orders| && orders[k] !in kept ==>
      orders[k].remainingQuantity == 0 && orders[k].status == Complete
  }

  /** So every order gone from the level the scan leaves was filled. */
  lemma DroppedAll(orders: seq<TradeOrder>, kept: seq<TradeOrder>, j: int)
    requires 0 <= j <= |orders| && Dropped(orders, kept, j)
    ensures forall o :: o in orders && o !in kept + orders[j..] ==> o.remainingQuantity == 0 && o.status == Complete
  {
    forall o | o in orders && o !in kept + orders[j..] ensures o.remainingQuantity == 0 && o.status == Complete {
      var k :| 0 <= k < |orders| && orders[k] == o;
    }
  }

  /** A strictly sorted sequence holds no element twice. */
  lemma SortedDistinct<T>(s: seq<T>, key: T -> SortKey, i: int)
    requires Chained(s, key) && 0 <= i < |s|
    ensures forall k :: 0 <= k < |s| && k != i ==> s[k] != s[i]
  {
    ChainedIsSorted(s, key);
    forall k | 0 <= k < |s| && k != i ensures s[k] != s[i] {
      if k < i {
        assert Precedes(key(s[k]), key(s[i]));
      } else {
        assert Precedes(key(s[i]), key(s[k]));
      }
    }
  }

  /** One pairing of the incoming order with a resting order: both are filled by the smaller remainder. */
  method Pair(incoming: TradeOrder, found: TradeOrder, tradeAt: int) returns (e: TradeHistoryEvent)
    requires incoming != found
    modifies incoming, found
    ensures var q := old(incoming.View()).MatchQuantity(old(found.View()));
      && incoming.View() == old(incoming.View()).Decreased(q).StatusChecked()
      && found.View() == old(found.View()).Decreased(q).StatusChecked()
      && e == CreateResponse(incoming, found, q, tradeAt)
  {
    var quantity := incoming.CalculateMatchQuantity(found);
    incoming.DecreaseRemainingQuantity(quantity);
    found.DecreaseRemainingQuantity(quantity);
    incoming.CheckAndChangeOrderStatus();
    found.CheckAndChangeOrderStatus();
    e := CreateResponse(incoming, found, quantity, tradeAt);
  }

  /**
   * What is left after a scan: the passed elements that were kept, picked
   * in order from the first j, then all the rest. It is still sorted and
   * holds nothing new.
   */
  lemma KeptFromOrders<T>(s: seq<T>, kept: seq<T>, pos: seq<int>, j: int, key: T -> SortKey)
    requires Chained(s, key) && 0 <= j <= |s|
    requires |pos| == |kept|
    requires forall k :: 0 <= k < |kept| ==> 0 <= pos[k] < j && kept[k] == s[pos[k]]
    requires forall a, b :: 0 <= a < b < |pos| ==> pos[a] < pos[b]
    ensures Chained(kept + s[j..], key)
    ensures forall o :: o in kept + s[j..] ==> o in s
  {
    ChainedIsSorted(s, key);
    var t := kept + s[j..];
    forall a | 0 <= a < |t| ensures t[a] == s[if a < |kept| then pos[a] else j + a - |kept|] {
    }
    forall a, b | 0 <= a < b < |t| ensures Precedes(key(t[a]), key(t[b])) {
      var pa := if a < |kept| then pos[a] else j + a - |kept|;
      var pb := if b < |kept| then pos[b] else j + b - |kept|;
      assert t[a] == s[pa] && t[b] == s[pb];
    }
    ChainedIsSorted(t, key);
  }

  // ---------------------------------------------------------------------
  // The price level as an object

  class OrderStorage {
    var elements: seq<TradeOrder>

    /** The skip-list set's ordering: each order strictly precedes the next (hence every later one). */
    ghost predicate Valid()
      reads this`elements
    {
      Chained(elements, OrderKey)
    }

    /** The level as matching sees it: each resting order with its current remainder and status. */
    ghost function Contents(): seq<OrderView>
      reads this`elements, elements`remainingQuantity, elements`status
    {
      Views(elements)
    }

    constructor ()
      ensures Valid() && elements == []
    {
      elements := [];
    }

    /**
     * Match the incoming order against this level; the result, the new
     * level and the incoming order's new state are those of MatchLevel.
     */
    method Match(incoming: TradeOrder, tradeAt: int) returns (results: seq<TradeHistoryEvent>)
      requires Valid()
      requires incoming !in elements
      modifies this, incoming, elements
      ensures Valid()
      ensures var r := MatchLevel(old(incoming.View()), old(Contents()), tradeAt);
        && incoming.View() == r.incoming
        && Contents() == r.level
        && results == r.events
      ensures forall o :: o in elements ==> o in old(elements)
      ensures forall o :: o in old(elements) && o !in elements ==> o.remainingQuantity == 0 && o.status == Complete
    {
      // The iterator walks the orders as they stood; kept holds those it has passed and not removed.
      var orders := elements;
      ghost var vals := Contents();
      ghost var r0 := MatchLevel(incoming.View(), vals, tradeAt);
      ghost var pos: seq<int> := [];
      ghost var done: seq<OrderView> := [];
      var kept: seq<TradeOrder> := [];
      results := [];
      var j := 0;
      ScanStarts(incoming, tradeAt);
      while j < |orders| && incoming.HasRemainingQuantity()
        invariant Scan(incoming, orders, vals, kept, pos, done, j, r0, results, tradeAt)
        decreases |orders| - j
      {
        kept, pos, done, results := Visit(incoming, orders, vals, kept, pos, done, j, r0, results, tradeAt);
        j := j + 1;
      }
      ScanFinished(incoming, orders, vals, kept, pos, done, j, r0, results, tradeAt);
      DroppedAll(orders, kept, j);
    }

    /**
     * Where the scan of Match stands after passing the first j of the
     * orders the level held: the level is the kept ones (picked in order
     * from those passed, with their current views in done) followed by the
     * ones not yet reached, still as they were; and what matching the rest
     * would do completes the outcome of matching the whole level.
     */
    ghost predicate Scan(incoming: TradeOrder, orders: seq<TradeOrder>, vals: seq<OrderView>, kept: seq<TradeOrder>,
                         pos: seq<int>, done: seq<OrderView>, j: int, r0: LevelOutcome,
                         results: seq<TradeHistoryEvent>, tradeAt: int)
      reads this, incoming, orders
    {
      && Chained(orders, OrderKey)
      && (forall k :: 0 <= k < |orders| ==> orders[k] != incoming)
      && 0 <= j <= |orders| == |vals|
      && elements == kept + orders[j..]
      && |pos| == |kept| == |done|
      && (forall k :: 0 <= k < |kept| ==>
            && 0 <= pos[k] < j && kept[k] == orders[pos[k]]
            && done[k] == OrderView(orders[pos[k]], orders[pos[k]].remainingQuantity, orders[pos[k]].status))
      && (forall a, b :: 0 <= a < b < |pos| ==> pos[a] < pos[b])
      && (forall k :: j <= k < |orders| ==>
            vals[k] == OrderView(orders[k], orders[k].remainingQuantity, orders[k].status))
      && Dropped(orders, kept, j)
      && r0 == Track(done, MatchLevel(incoming.View(), vals[j..], tradeAt), results)
    }


    /** Before the first step the whole level is still ahead. */
    lemma ScanStarts(incoming: TradeOrder, tradeAt: int)
      requires Valid() && incoming !in elements
      ensures Scan(incoming, elements, Contents(), [], [], [], 0,
                   MatchLevel(incoming.View(), Contents(), tradeAt), [], tradeAt)
    {
      ViewsAt(elements);
      assert elements[0..] == elements && Contents()[0..] == Contents();
    }

    /** One turn of the scan: the order at j is passed over if it has the incoming order's account, else paired. */
    method Visit(incoming: TradeOrder, orders: seq<TradeOrder>, ghost vals: seq<OrderView>, kept: seq<TradeOrder>,
                 ghost pos: seq<int>, ghost done: seq<OrderView>, j: int, ghost r0: LevelOutcome,
                 results: seq<TradeHistoryEvent>, tradeAt: int)
      returns (kept': seq<TradeOrder>, ghost pos': seq<int>, ghost done': seq<OrderView>,
               results': seq<TradeHistoryEvent>)
      requires Scan(incoming, orders, vals, kept, pos, done, j, r0, results, tradeAt)
      requires j < |orders| && incoming.remainingQuantity != 0
      modifies this, incoming, orders[j]
      ensures Scan(incoming, orders, vals, kept', pos', done', j + 1, r0, results', tradeAt)
    {
      if orders[j].HasSameAccount(incoming.accountId) {
        SkipKeepsScan(incoming, orders, vals, kept, pos, done, j, r0, results, tradeAt);
        kept', pos', done', results' := kept + [orders[j]], pos + [j], done + [vals[j]], results;
      } else {
        kept', pos', done', results' := Fill(incoming, orders, vals, kept, pos, done, j, r0, results, tradeAt);
      }
    }

    /** Passing over an order of the incoming order's own account. */
    lemma SkipKeepsScan(incoming: TradeOrder, orders: seq<TradeOrder>, vals: seq<OrderView>, kept: seq<TradeOrder>,
                        pos: seq<int>, done: seq<OrderView>, j: int, r0: LevelOutcome,
                        results: seq<TradeHistoryEvent>, tradeAt: int)
      requires Scan(incoming, orders, vals, kept, pos, done, j, r0, results, tradeAt)
      requires j < |orders| && incoming.remainingQuantity != 0
      requires orders[j].HasSameAccount(incoming.accountId)
      ensures Scan(incoming, orders, vals, kept + [orders[j]], pos + [j], done + [vals[j]], j + 1, r0, results, tradeAt)
    {
      assert vals[j..] == [vals[j]] + vals[j + 1..];
      SkipStep(r0, done, incoming.View(), vals[j], vals[j + 1..], results, tradeAt);
      assert elements == (kept + [orders[j]]) + orders[j + 1..];
    }

    /** Pairing with the order at j, then removing it if it is filled. */
    method Fill(incoming: TradeOrder, orders: seq<TradeOrder>, ghost vals: seq<OrderView>, kept: seq<TradeOrder>,
                ghost pos: seq<int>, ghost done: seq<OrderView>, j: int, ghost r0: LevelOutcome,
                results: seq<TradeHistoryEvent>, tradeAt: int)
      returns (kept': seq<TradeOrder>, ghost pos': seq<int>, ghost done': seq<OrderView>,
               results': seq<TradeHistoryEvent>)
      requires Scan(incoming, orders, vals, kept, pos, done, j, r0, results, tradeAt)
      requires j < |orders| && incoming.remainingQuantity != 0
      requires !orders[j].HasSameAccount(incoming.accountId)
      modifies this, incoming, orders[j]
      ensures Scan(incoming, orders, vals, kept', pos', done', j + 1, r0, results', tradeAt)
    {
      var found := orders[j];
      SortedDistinct(orders, OrderKey, j);
      assert vals[j..] == [vals[j]] + vals[j + 1..];
      PairStep(r0, done, incoming.View(), vals[j], vals[j + 1..], results, tradeAt);
      var e := Pair(incoming, found, tradeAt);
      results' := results + [e];
      assert Paired(incoming, orders, vals, kept, pos, done, j, r0, results', tradeAt);
      if !found.HasRemainingQuantity() {
        elements := kept + orders[j + 1..];
        DropKeepsScan(incoming, orders, vals, kept, pos, done, j, r0, results', tradeAt);
        kept', pos', done' := kept, pos, done;
      } else {
        KeepKeepsScan(incoming, orders, vals, kept, pos, done, j, r0, results', tradeAt);
        kept', pos', done' := kept + [found], pos + [j], done + [found.View()];
      }
    }

    /**
     * The scan just after pairing with the order at j: like Scan, except
     * that the order at j now shows its decreased remainder, and it stays
     * in the outcome only if something is left of it.
     */
    ghost predicate Paired(incoming: TradeOrder, orders: seq<TradeOrder>, vals: seq<OrderView>, kept: seq<TradeOrder>,
                           pos: seq<int>, done: seq<OrderView>, j: int, r0: LevelOutcome,
                           results: seq<TradeHistoryEvent>, tradeAt: int)
      reads this, incoming, orders
    {
      && Chained(orders, OrderKey)
      && (forall k :: 0 <= k < |orders| ==> orders[k] != incoming)
      && 0 <= j < |orders| == |vals|
      && |pos| == |kept| == |done|
      && (forall k :: 0 <= k < |kept| ==>
            && 0 <= pos[k] < j && kept[k] == orders[pos[k]]
            && done[k] == OrderView(orders[pos[k]], orders[pos[k]].remainingQuantity, orders[pos[k]].status))
      && (forall a, b :: 0 <= a < b < |pos| ==> pos[a] < pos[b])
      && (forall k :: j < k < |orders| ==>
            vals[k] == OrderView(orders[k], orders[k].remainingQuantity, orders[k].status))
      && Dropped(orders, kept, j)
      && var fv := OrderView(orders[j], orders[j].remainingQuantity, orders[j].status);
         r0 == Track(done + (if fv.remaining != 0 then [fv] else []),
                     MatchLevel(incoming.View(), vals[j + 1..], tradeAt), results)
    }

    /** A filled order leaves the level. */
    lemma DropKeepsScan(incoming: TradeOrder, orders: seq<TradeOrder>, vals: seq<OrderView>, kept: seq<TradeOrder>,
                        pos: seq<int>, done: seq<OrderView>, j: int, r0: LevelOutcome,
                        results: seq<TradeHistoryEvent>, tradeAt: int)
      requires Paired(incoming, orders, vals, kept, pos, done, j, r0, results, tradeAt)
      requires orders[j].remainingQuantity == 0 && orders[j].status == Complete && elements == kept + orders[j + 1..]
      ensures Scan(incoming, orders, vals, kept, pos, done, j + 1, r0, results, tradeAt)
    {
      assert done + [] == done;
    }

    /** An order with quantity left stays where it was. */
    lemma KeepKeepsScan(incoming: TradeOrder, orders: seq<TradeOrder>, vals: seq<OrderView>, kept: seq<TradeOrder>,
                        pos: seq<int>, done: seq<OrderView>, j: int, r0: LevelOutcome,
                        results: seq<TradeHistoryEvent>, tradeAt: int)
      requires Paired(incoming, orders, vals, kept, pos, done, j, r0, results, tradeAt)
      requires orders[j].remainingQuantity != 0 && elements == kept + orders[j..]
      ensures Scan(incoming, orders, vals, kept + [orders[j]], pos + [j],
                   done + [OrderView(orders[j], orders[j].remainingQuantity, orders[j].status)],
                   j + 1, r0, results, tradeAt)
    {
      assert elements == (kept + [orders[j]]) + orders[j + 1..];
    }

    /** When the scan stops, the level and the events are those of matching the whole level. */
    lemma ScanFinished(incoming: TradeOrder, orders: seq<TradeOrder>, vals: seq<OrderView>, kept: seq<TradeOrder>,
                       pos: seq<int>, done: seq<OrderView>, j: int, r0: LevelOutcome,
                       results: seq<TradeHistoryEvent>, tradeAt: int)
      requires Scan(incoming, orders, vals, kept, pos, done, j, r0, results, tradeAt)
      requires j == |orders| || incoming.remainingQuantity == 0
      ensures Valid()
      ensures incoming.View() == r0.incoming && Contents() == r0.level && results == r0.events
      ensures forall o :: o in elements ==> o in orders
    {
      KeptFromOrders(orders, kept, pos, j, OrderKey);
      ViewsOf(elements, done + vals[j..]);
    }

    predicate IsEmpty()
      reads this`elements
    {
      |elements| == 0
    }

    /** The sorted set's add. */
    method Add(order: TradeOrder)
      requires Valid()
      modifies this
      ensures Valid()
      ensures elements == Insert(old(elements), order, OrderKey)
      ensures Contents() == Insert(old(Contents()), order.View(), ViewKey)
    {
      ChainedIsSorted(elements, OrderKey);
      InsertKeepsSorted(elements, order, OrderKey);
      ChainedIsSorted(Insert(elements, order, OrderKey), OrderKey);
      InsertViews(elements, order);
      elements := Insert(elements, order, OrderKey);
    }
  }

  /** isEmpty holds exactly when the level holds no order. */
  lemma IsEmptyIffNoContents(st: OrderStorage)
    ensures st.IsEmpty() <==> st.Contents() == []
  {
  }
}
