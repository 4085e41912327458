# Matching service order book, modelled in Dafny

This project models the in-memory order book of the onseju matching service. It uses price-time priority.

- A `MatchingEngine` keeps one `CompanyOrderBook` per instrument code and creates it on first use. It hands each `TradeOrder` to the book of its own instrument and passes on the `TradeHistoryEvent`s that book returns, in order.
- A book holds two maps from `Price` to `OrderStorage`: sells, served lowest price first, and buys, served highest price first.
- A limit order trades only with the opposite level at its own exact price. Whatever is left of it then rests on its own side.
- A market order sweeps the opposite levels, best price first, and never rests.
- An `OrderStorage` is one price level. Its orders are kept sorted by creation time (earliest first), then by total quantity (largest first), then by id.
  - Its `match` walks the level in that order and skips orders of the incoming order's own account.
  - Each pairing fills the smaller remainder on both sides and records one event.
  - It removes resting orders that are filled.

Modules, one per source file:

- `Types`: `Type.java`.
- `Prices`: `Price.java`.
- `Orders`: `TradeOrder.java`. This module also has the level's sort key and `OrderView`, a value snapshot of an order's remainder and status.
- `Events`: `TradeHistoryEvent.java`.
- `Storage`: `OrderStorage.java`.
- `Books`: `CompanyOrderBook.java`, with the `OrderBook` interface folded in.
- `Engine`: `MatchingEngine.java`, with `OrderBookFactory` folded in.

Each stateful part has two layers:

- The source's objects are classes with mutable fields: `TradeOrder`, `OrderStorage`, `CompanyOrderBook` and `MatchingEngine`.
- Each operation is also a ghost function on values: `MatchLevel` for one level, `MatchAt`, `Sweep`, `ProcessLimit` and `ReceivedOutcome` for a book.

Every method is proved to leave its object in the state the value function computes. The properties the source promises are proved as lemmas about those functions.

Names the source uses without defining them are mapped as follows:

- `TradeOrder.isSellType` compares with a `Type.SELL` constant that does not exist; it is modelled as `type.isSell()`.
- `isSameAccount` is modelled as `hasSameAccount`.
- `hasRemainingQuantity` is modelled as "the remainder is not zero".
- `checkAndChangeOrderStatus` sets COMPLETE when the remainder is zero.
- `isMarketOrder` is modelled as `type.isMarket()`.
- `CompanyOrderBook.match` assigns the list that `OrderStorage.match` returns to a single event. The model appends the whole list.
- The six-argument event construction fills the record's eight fields. The account ids follow the order ids, side by side.

## Model

| member | source | states |
|---|---|---|
| Types.MarketTypes | src/main/java/com/onseju/matchingservice/domain/Type.java:10-12 | isMarket holds exactly for MARKET_SELL and MARKET_BUY |
| Types.SellTypes | src/main/java/com/onseju/matchingservice/domain/Type.java:14-16 | isSell holds exactly for MARKET_SELL and LIMIT_SELL |
| Types.FlagsDetermineType | src/main/java/com/onseju/matchingservice/domain/Type.java:5-16 | two types with the same (isMarket, isSell) pair are the same constant |
| Types.LimitBuyIsNeither | src/main/java/com/onseju/matchingservice/domain/Type.java:8-16 | a type is neither market nor sell exactly when it is LIMIT_BUY |
| Prices.GetValueReturnsConstructorArgument | src/main/java/com/onseju/matchingservice/domain/Price.java:10-16 | getValue returns exactly the value the price was built with |
| Prices.EqualsIffSameValue | src/main/java/com/onseju/matchingservice/domain/Price.java:19-25 | equals between two prices holds exactly when their values are equal, which is exactly when the prices are equal |
| Prices.EqualsRejectsNonPrice | src/main/java/com/onseju/matchingservice/domain/Price.java:20-22 | equals is false for null and for any object that is not a Price |
| Prices.EqualPricesHashEqually | src/main/java/com/onseju/matchingservice/domain/Price.java:19-30 | prices that are equal have equal hash codes, whatever hash the wrapped number has |
| Orders.PrecedesIsStrictTotalOrder | src/main/java/com/onseju/matchingservice/engine/OrderStorage.java:16-20 | the level comparator is irreflexive, transitive, total on distinct keys and asymmetric |
| Orders.TradeOrder.constructor | src/main/java/com/onseju/matchingservice/domain/TradeOrder.java:10-31 | every field holds the value given; id, instrument, type and total quantity are constants that no operation changes |
| Orders.HasSameAccountSpec | src/main/java/com/onseju/matchingservice/domain/TradeOrder.java:34-39 | hasSameAccount(null) is false; for any other account it holds exactly when the account equals the order's own |
| Orders.HasSameAccountSymmetric | src/main/java/com/onseju/matchingservice/domain/TradeOrder.java:34-39 | the self-trade test gives the same answer from either order's side |
| Orders.TradeOrder.DecreaseRemainingQuantity | src/main/java/com/onseju/matchingservice/domain/TradeOrder.java:42-47 | the new state is the old one decreased by exactly the quantity |
| Orders.DecreasedSpec | src/main/java/com/onseju/matchingservice/domain/TradeOrder.java:42-46 | a decrement takes exactly q off with no floor and keeps the order's identity; the status becomes COMPLETE at exactly zero and is otherwise unchanged, so it is never reset to ACTIVE |
| Orders.OrderView.MatchQuantity | src/main/java/com/onseju/matchingservice/domain/TradeOrder.java:53-55 | the match quantity is at most both remainders and equal to one of them, i.e. their minimum |
| Orders.TradeOrder.CalculateMatchQuantity | src/main/java/com/onseju/matchingservice/domain/TradeOrder.java:53-55 | calculateMatchQuantity is the minimum of the two orders' current remainders |
| Orders.MatchQuantitySymmetric | src/main/java/com/onseju/matchingservice/domain/TradeOrder.java:53-55 | the match quantity is symmetric between the two orders |
| Orders.PairingFillsOneSide | src/main/java/com/onseju/matchingservice/domain/TradeOrder.java:42-55 | after both orders drop by the match quantity, at least one is at zero; from non-negative remainders both stay between zero and their old remainder |
| Orders.PairingKeepsStatusConsistent | src/main/java/com/onseju/matchingservice/engine/OrderStorage.java:32-37 | after a pairing followed by the status checks, each of the two orders is COMPLETE exactly when nothing is left of it |
| Orders.TradeOrder.CheckAndChangeOrderStatus | src/main/java/com/onseju/matchingservice/engine/OrderStorage.java:36-37 | the status becomes COMPLETE when the remainder is zero; otherwise nothing changes |
| Orders.CompletelyFilledIffZero | src/main/java/com/onseju/matchingservice/domain/TradeOrder.java:58-60 | isCompletelyFilled holds exactly when the remainder is zero |
| Events.TradedAppend | src/main/java/com/onseju/matchingservice/engine/CompanyOrderBook.java:49-56 | the quantity traded by concatenated event lists is the sum of the parts |
| Storage.ChainedIsSorted | src/main/java/com/onseju/matchingservice/engine/OrderStorage.java:16-20 | a level whose neighbours are in comparator order is in strict order pairwise, and conversely |
| Storage.InsertKeepsSorted | src/main/java/com/onseju/matchingservice/engine/OrderStorage.java:81-83 | add keeps the level strictly sorted and brings in no element other than the new one |
| Storage.InsertOnly | src/main/java/com/onseju/matchingservice/engine/OrderStorage.java:81-83 | add brings into the level no element other than the new one, sorted or not |
| Storage.InsertContents | src/main/java/com/onseju/matchingservice/engine/OrderStorage.java:81-83 | add of an order whose key is already present changes nothing; otherwise the level is the old one plus exactly that order |
| Storage.OrderStorage.Add | src/main/java/com/onseju/matchingservice/engine/OrderStorage.java:81-83 | the level object keeps its order invariant, and its orders and contents become the sorted insertion of the order |
| Storage.OrderStorage.constructor | src/main/java/com/onseju/matchingservice/engine/OrderStorage.java:16-20 | a new level is valid and empty |
| Storage.IsEmptyIffNoContents | src/main/java/com/onseju/matchingservice/engine/OrderStorage.java:77-79 | isEmpty holds exactly when the level has no orders |
| Storage.Pair | src/main/java/com/onseju/matchingservice/engine/OrderStorage.java:32-38 | both orders drop by the minimum of their remainders and get the status check; the event is createResponse of that quantity |
| Storage.OrderStorage.Match | src/main/java/com/onseju/matchingservice/engine/OrderStorage.java:23-44 | the iterator loop leaves the incoming order, the level and the event list exactly as MatchLevel computes, keeps the level sorted and brings no order into it; every order it removes from the level is filled, with nothing left and status COMPLETE |
| Storage.MatchLevelConservation | src/main/java/com/onseju/matchingservice/engine/OrderStorage.java:32-38 | the events trade exactly what the incoming order lost, which is also exactly what the level lost |
| Storage.MatchLevelOrdersFromLevel | src/main/java/com/onseju/matchingservice/engine/OrderStorage.java:40-41 | every order left in the level was there before, so the incoming order is never inserted |
| Storage.MatchLevelKeepsSorted | src/main/java/com/onseju/matchingservice/engine/OrderStorage.java:40-41 | removing filled orders keeps the level in priority order |
| Storage.MatchLevelIdempotent | src/main/java/com/onseju/matchingservice/engine/OrderStorage.java:26-42 | matching again the level a walk leaves, with the order as the walk leaves it, trades nothing and changes nothing |
| Storage.MatchLevelKeepsPositive | src/main/java/com/onseju/matchingservice/engine/OrderStorage.java:32-41 | the incoming remainder stays between zero and its old value, and every order left in the level still has quantity, so no filled order stays behind |
| Storage.MatchLevelKeepsStatusConsistent | src/main/java/com/onseju/matchingservice/engine/OrderStorage.java:34-37 | "COMPLETE exactly when nothing is left" holds after the walk, for the incoming order and every resting one, when it held before |
| Storage.MatchLevelNoSelfTrade | src/main/java/com/onseju/matchingservice/engine/OrderStorage.java:28-30 | no event has the same non-null account on both sides, and orders of the incoming order's account stay in the level unchanged |
| Storage.MatchLevelPriority | src/main/java/com/onseju/matchingservice/engine/OrderStorage.java:24-30 | the k events go to the first k eligible orders of the level, in priority order; if the incoming order is not filled, every eligible order was traded with and none remains |
| Storage.MatchLevelEventFields | src/main/java/com/onseju/matchingservice/engine/OrderStorage.java:47-75 | every event names the incoming order's instrument and puts the incoming order's id and account in its own side's slots; its other side's id and account are those of a resting order of the level, and its price is getMatchingPrice of that pair (the resting order's price for a market aggressor, the aggressor's own otherwise) |
| Books.Best | src/main/java/com/onseju/matchingservice/engine/CompanyOrderBook.java:22-30 | a non-empty key set has a first key in map order: the lowest for the sells, the highest for the buys |
| Books.BestUnique | src/main/java/com/onseju/matchingservice/engine/CompanyOrderBook.java:22-30 | that first key is unique |
| Books.MatchAtFrame | src/main/java/com/onseju/matchingservice/engine/CompanyOrderBook.java:83-94 | matching at a price changes only the opposite level at that price: the own side, the key sets and all other levels stay, and the events trade what the order lost |
| Books.MatchAtKeepsWellFormed | src/main/java/com/onseju/matchingservice/engine/CompanyOrderBook.java:83-94 | matching keeps every level sorted and every order at its own price on its own side |
| Books.MatchAtIdempotent | src/main/java/com/onseju/matchingservice/engine/CompanyOrderBook.java:85-92 | a second pass of the loop at the same price trades nothing and changes nothing |
| Books.LimitTouchesOnlyItsPrice | src/main/java/com/onseju/matchingservice/engine/CompanyOrderBook.java:74-81 | a limit order changes no level at any other price on either side; the remainder rests by sorted insertion at its price on its own side exactly when something is left, and otherwise its own side is unchanged |
| Books.SweepFrame | src/main/java/com/onseju/matchingservice/engine/CompanyOrderBook.java:46-69 | a sweep never touches the order's own side or any key set, and trades exactly what the order lost |
| Books.MarketNeverRests | src/main/java/com/onseju/matchingservice/engine/CompanyOrderBook.java:43-69 | a market order leaves its own side unchanged and adds or removes no level |
| Books.MatchAtPrices | src/main/java/com/onseju/matchingservice/engine/CompanyOrderBook.java:83-94 | in a well-formed book, a market order trades at one level only at that level's price |
| Books.SweepPrices | src/main/java/com/onseju/matchingservice/engine/CompanyOrderBook.java:46-69 | a sweep trades only at prices of the swept keys, in map order |
| Books.MarketPricesBestFirst | src/main/java/com/onseju/matchingservice/engine/CompanyOrderBook.java:46-69 | market events come best price first (ascending over sells, descending over buys), each at the price of an opposite level; at every price better than that of some event no eligible order is left, so the sweep reaches a price only after using up the better ones; and when the order is left with quantity, no eligible order is left at any opposite price: the sweep goes on while the order has quantity and an eligible order remains |
| Books.MatchAtExhausts | src/main/java/com/onseju/matchingservice/engine/CompanyOrderBook.java:83-94 | matching at a price that leaves the order with quantity has used up every eligible order at that price |
| Books.SweepOutside | src/main/java/com/onseju/matchingservice/engine/CompanyOrderBook.java:46-69 | a sweep leaves every opposite level outside the keys it visits as it was |
| Books.SweepFilledStays | src/main/java/com/onseju/matchingservice/engine/CompanyOrderBook.java:85 | once the order is filled, the rest of the sweep trades nothing and changes nothing |
| Books.SweepExhausts | src/main/java/com/onseju/matchingservice/engine/CompanyOrderBook.java:46-69 | a sweep that leaves the order with quantity has used up every eligible order at every key it visited |
| Books.SweepBetterFirst | src/main/java/com/onseju/matchingservice/engine/CompanyOrderBook.java:46-69 | at every visited key strictly better than the price of some event, no eligible order is left |
| Books.MarketExhausts | src/main/java/com/onseju/matchingservice/engine/CompanyOrderBook.java:46-69 | a market order left with quantity has used up every eligible order on the opposite side, in any book |
| Books.MarketBuySweepsTwoLevels | src/main/java/com/onseju/matchingservice/engine/CompanyOrderBook.java:59-68 | sells of 5 at 49000 and 5 at 50000 and a market buy of 10: two events, 5 at 49000 then 5 at 50000, the buy COMPLETE with nothing left, both levels emptied |
| Books.SweepKeepsWellFormed | src/main/java/com/onseju/matchingservice/engine/CompanyOrderBook.java:46-69 | sweeping keeps the book well-formed |
| Books.AddRemainingKeepsWellFormed | src/main/java/com/onseju/matchingservice/engine/CompanyOrderBook.java:118-127 | resting an order at its own price on its own side keeps the book well-formed |
| Books.ReceivedConservation | src/main/java/com/onseju/matchingservice/engine/CompanyOrderBook.java:36-41 | for any order, the events trade exactly what the order lost |
| Books.MatchAtNoSelfTrade | src/main/java/com/onseju/matchingservice/engine/OrderStorage.java:28-30 | no event of a match at a price has the same non-null account on both sides |
| Books.SweepNoSelfTrade | src/main/java/com/onseju/matchingservice/engine/CompanyOrderBook.java:46-69 | no event of a sweep has the same non-null account on both sides |
| Books.ReceivedNoSelfTrade | src/main/java/com/onseju/matchingservice/engine/CompanyOrderBook.java:36-41 | for any order, no event the book returns has the same non-null account on both sides |
| Books.KeysOnlyGrow | src/main/java/com/onseju/matchingservice/engine/CompanyOrderBook.java:96-109 | levels are never removed: each side's price set only grows |
| Books.ReceivedKeepsWellFormed | src/main/java/com/onseju/matchingservice/engine/CompanyOrderBook.java:36-41 | every order keeps a well-formed book well-formed |
| Books.MatchAtKeepsLive | src/main/java/com/onseju/matchingservice/engine/OrderStorage.java:32-41 | matching keeps every resting order with quantity left and ACTIVE, and leaves the incoming order between zero and its old remainder with a consistent status |
| Books.SweepKeepsLive | src/main/java/com/onseju/matchingservice/engine/CompanyOrderBook.java:46-69 | a sweep keeps every resting order live and the incoming order sound |
| Books.AddRemainingKeepsLive | src/main/java/com/onseju/matchingservice/engine/CompanyOrderBook.java:118-127 | resting an order with quantity left and ACTIVE keeps the book live |
| Books.ReceivedKeepsLive | src/main/java/com/onseju/matchingservice/engine/CompanyOrderBook.java:36-41 | for an incoming order with a non-negative remainder and a consistent status, every order resting in the book afterwards still has quantity and is ACTIVE |
| Books.MatchLevelAllSameAccount | src/main/java/com/onseju/matchingservice/engine/OrderStorage.java:28-30 | a level holding only the incoming order's own account's orders is skipped whole, with no event |
| Books.AsWrittenSpins | src/main/java/com/onseju/matchingservice/engine/CompanyOrderBook.java:85-92 | the loop as written never reaches an exit when the order has quantity left and every order at the price shares its account |
| Books.AsWrittenAgrees | src/main/java/com/onseju/matchingservice/engine/CompanyOrderBook.java:85-92 | whenever the loop as written does stop, it ends exactly where the model's match does |
| Books.CompanyOrderBook.constructor | src/main/java/com/onseju/matchingservice/engine/CompanyOrderBook.java:22-30 | a new book is valid, with no levels on either side |
| Books.CompanyOrderBook.ValidIsWellFormed | src/main/java/com/onseju/matchingservice/engine/CompanyOrderBook.java:22-30 | a valid book object reads as a well-formed book: sorted levels, every order at its own price and side |
| Books.CompanyOrderBook.GetCounterOrderStorage | src/main/java/com/onseju/matchingservice/engine/CompanyOrderBook.java:111-116 | the result is present exactly when the opposite side has the price, and is then that side's storage, one of the book's |
| Books.CompanyOrderBook.Match | src/main/java/com/onseju/matchingservice/engine/CompanyOrderBook.java:83-94 | the book, the order and the events end as MatchAt computes; no order is added to the book; every order that leaves the book is filled, with nothing left and status COMPLETE |
| Books.CompanyOrderBook.Received | src/main/java/com/onseju/matchingservice/engine/CompanyOrderBook.java:35-41 | the book, the order and the events end as ReceivedOutcome computes (a sweep for market types, the limit path otherwise); only the order can join the book; every order that leaves the book is filled, with nothing left and status COMPLETE |
| Books.CompanyOrderBook.ProcessMarketOrder | src/main/java/com/onseju/matchingservice/engine/CompanyOrderBook.java:46-69 | the book, the order and the events end as the best-first sweep computes; the order never rests; every order that leaves the book is filled, with nothing left and status COMPLETE |
| Books.CompanyOrderBook.ProcessLimitOrder | src/main/java/com/onseju/matchingservice/engine/CompanyOrderBook.java:74-81 | the book, the order and the events end as ProcessLimit computes: a match at the exact price, then the remainder rests if any; every order that leaves the book is filled, with nothing left and status COMPLETE |
| Books.CompanyOrderBook.AddRemainingTradeOrder | src/main/java/com/onseju/matchingservice/engine/CompanyOrderBook.java:118-127 | the book becomes AddRemaining of the old book: the order inserted in priority order at its price on its own side |
| Books.CompanyOrderBook.GetOrCreateSameTypeOrderStorage | src/main/java/com/onseju/matchingservice/engine/CompanyOrderBook.java:96-109 | returns the own-side storage at the price if there is one; otherwise a fresh empty storage is put there; the other side is untouched |
| Books.CompanyOrderBook.IsSellOrderBelowMarketPrice | src/main/java/com/onseju/matchingservice/engine/CompanyOrderBook.java:129-132 | the hook is false for every order |
| Books.CompanyOrderBook.IsBuyOrderAboveMarketPrice | src/main/java/com/onseju/matchingservice/engine/CompanyOrderBook.java:134-137 | the hook is false for every order |
| Engine.CreateOrderBook | src/main/java/com/onseju/matchingservice/factory/OrderBookFactory.java:10-12 | a fresh, valid book with no levels |
| Engine.RegistryGrows | src/main/java/com/onseju/matchingservice/engine/MatchingEngine.java:33-38 | registering an empty, unshared book under a new code keeps every book valid, no book or storage shared, and every resting order in its own instrument's book |
| Engine.MatchingEngine.constructor | src/main/java/com/onseju/matchingservice/engine/MatchingEngine.java:20 | the registry starts empty and valid |
| Engine.MatchingEngine.ProcessOrder | src/main/java/com/onseju/matchingservice/engine/MatchingEngine.java:24-30 | the order's book (created if absent) ends as ReceivedOutcome computes; the events published are exactly those it returned, in order; the registry only gains the order's code; every other book keeps its object and contents; every order that leaves the registry is filled, with nothing left and status COMPLETE |
| Engine.MatchingEngine.BookFor | src/main/java/com/onseju/matchingservice/engine/MatchingEngine.java:25-26 | after get-or-create and the limit-to-market check, the order's book is registered with the contents it had (empty if new), no other book changed, and no resting order was lost |
| Engine.MatchingEngine.Deliver | src/main/java/com/onseju/matchingservice/engine/MatchingEngine.java:27-29 | the book receives the order and its events are returned in order; every other book's contents are unchanged, the registry stays valid, and every order that leaves the registry is filled |
| Engine.MatchingEngine.GetOrCreateOrderBook | src/main/java/com/onseju/matchingservice/engine/MatchingEngine.java:33-38 | a known code gives its book with nothing changed; an unknown code gets one fresh empty book registered under it; no other book changes |
| Engine.MatchingEngine.CreateFor | src/main/java/com/onseju/matchingservice/engine/MatchingEngine.java:34-37 | the absent case of computeIfAbsent: the registry becomes the old one plus a fresh empty book under the code; no other book changes |
| Engine.MatchingEngine.Register | src/main/java/com/onseju/matchingservice/engine/MatchingEngine.java:34-37 | the registry becomes the old one plus the book under the code; every book already there keeps its contents |
| Engine.MatchingEngine.CheckAndChangeLimitToMarket | src/main/java/com/onseju/matchingservice/engine/MatchingEngine.java:41-47 | neither hook fires, so the registry, every book and the order are left as they were |
| Engine.MatchingEngine.UpdateSellOrderStatusIfBelowMarketPrice | src/main/java/com/onseju/matchingservice/engine/MatchingEngine.java:50-55 | the book is looked up and the hook is false, so nothing changes |
| Engine.MatchingEngine.UpdateBuyOrderStatusIfAboveMarketPrice | src/main/java/com/onseju/matchingservice/engine/MatchingEngine.java:58-63 | the book is looked up and the hook is false, so nothing changes |

## Left out

- Publishing and logging: `eventPublisher.publishEvent` and `log.info` call outside libraries. The published events are the sequence that `ProcessOrder` returns.
- Timestamps: `Instant.now()` is read once per event in `OrderStorage.createResponse`. The model takes one `tradeAt` parameter per call, and every event of that call carries it.
- Concurrency: the skip-list maps and sets, `ConcurrentHashMap` and the atomicity of `computeIfAbsent` are modelled single-threaded, with sequences and maps.
- Decimal scale: prices and quantities are `BigDecimal` in the source and integers here. `Price.equals` compares with scale (`BigDecimal.equals`), while the maps order prices by `compareTo`. A price written with another scale would be the same map key but not an equal `Price`. The model has one value per price, so this mismatch is not represented.
- Engine.MatchingEngine.CheckAndChangeLimitToMarket: `TradeOrder.changeTypeToMarket` does not exist in the source. Because both hooks always return false, the branch that would call it is unreachable, and the model proves this. The engine tests expect limit orders to be converted to market orders. That conversion is not part of this model.
- The `filter(Objects::nonNull)` in processMarketOrder is the identity here, because the model never produces a null event.
- Engine.MatchingEngine.ProcessOrder: requires that the incoming order object is not already resting in a book. Books.CompanyOrderBook.Received, Match, ProcessMarketOrder and ProcessLimitOrder require the same within the book, and Storage.OrderStorage.Match requires that the incoming order is not in the level. The source does not state this. Without it, an order could be matched against itself through aliasing.
- Storage.Pair: requires that the two orders are different objects. OrderStorage.match only pairs a resting order with an incoming order that is not in the level.
- Books.CompanyOrderBook.Match: adds an exit to the loop when a pass over the level trades nothing; see Findings.
- Books.ReceivedKeepsLive: requires that the incoming order has a non-negative remainder and a status that agrees with it. The source checks neither, and an order that arrives with a negative quantity, or as COMPLETE with quantity left, could rest without being live.
- OrderStorage's set ignores an order whose sort key equals an existing order's. The model keeps that behaviour (`Insert`), so such an order is silently dropped rather than rested.
- Null ids, null prices and null quantities are not modelled. The account id is optional (`Option<int>`), because `hasSameAccount` treats null specially.
- `TempController`, `MatchingException` and the commented-out `deleteOrderBook` are not part of this model.

## Findings

| source | as written | input that shows it | evidently intended | confidence | as-written member | corrected member |
|---|---|---|---|---|---|---|
| src/main/java/com/onseju/matchingservice/engine/CompanyOrderBook.java:85-92 | the loop repeats while the order has quantity left and the opposite level at the price exists and is not empty; OrderStorage.match skips resting orders of the same account, so a pass can trade nothing and the loop then repeats forever | a limit buy of account 7 for 5 at price 100, against a sell level at 100 whose only orders belong to account 7 | stop matching at the price once a pass trades nothing (no eligible order left) | not executed | Books.AsWrittenSpins | Books.CompanyOrderBook.Match |
