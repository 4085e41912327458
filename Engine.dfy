/**
 * The matching engine: a registry from instrument code to order book,
 * created on first use; each order goes to the book of its own
 * instrument, and every event that book returns is published, in order.
 * Publishing is the sequence of events processOrder returns.
 */
module Engine {
  import opened Orders
  import opened Events
  import opened Storage
  import opened Prices
  import opened Books

  /** OrderBookFactory.createOrderBook: a fresh, empty book. */
  method CreateOrderBook() returns (book: CompanyOrderBook)
    ensures fresh(book) && book.Valid() && book.Storages() == {} && book.Resting() == {}
    ensures book.View() == BookView(map[], map[])
  {
    book := new CompanyOrderBook();
  }

  /** The tables of one book agree with the pooled tables E and OV. */
  ghost predicate Agrees(bt: BookTables, E: map<OrderStorage, seq<TradeOrder>>, OV: map<TradeOrder, OrderView>) {
    && (forall t :: t in bt.e ==> t in E && E[t] == bt.e[t])
    && (forall o :: o in bt.ov ==> o in OV && OV[o] == bt.ov[o])
  }

  /**
   * The registry seen as the book for code plus the tables of all the
   * others: the other books are distinct from it and from each other,
   * their tables are valid, agree with E and OV, and hold orders of their
   * own instrument only.
   */
  ghost predicate Partitioned(books: map<string, CompanyOrderBook>, code: string, tabs: map<string, BookTables>,
                              E: map<OrderStorage, seq<TradeOrder>>, OV: map<TradeOrder, OrderView>) {
    && code in books && tabs.Keys == books.Keys - {code}
    && (forall c :: c in tabs ==> books[c] != books[code] && TablesValid(tabs[c]) && Agrees(tabs[c], E, OV))
    && (forall c, d :: c in tabs && d in tabs && c != d ==> books[c] != books[d] && tabs[c].e.Keys !! tabs[d].e.Keys)
    && (forall c, o :: c in tabs && o in Flatten(tabs[c].e) ==> o.companyCode == c)
  }

  /** A book whose maps are as recorded, with pooled tables that still hold, still stands as recorded. */
  lemma HeldFromPool(b: CompanyOrderBook, bt: BookTables, E: map<OrderStorage, seq<TradeOrder>>, OV: map<TradeOrder, OrderView>)
    requires b.sellOrders == bt.sells && b.buyOrders == bt.buys && Agrees(bt, E, OV)
    requires ElementsHeld(E) && ViewsHeld(OV)
    ensures b.Held(bt) && bt.e.Keys <= E.Keys
  {
  }

  /** Every storage of every book of a registry. */
  ghost function StoragesOf(books: map<string, CompanyOrderBook>): set<OrderStorage>
    reads books.Values`sellOrders, books.Values`buyOrders
  {
    set c, t | c in books && t in books[c].Storages() :: t
  }

  /**
   * A registry of books: every book is valid, no two codes share a book or
   * a storage, and every order resting in a book is for that book's
   * instrument.
   */
  ghost predicate Registry(books: map<string, CompanyOrderBook>)
    reads books.Values`sellOrders, books.Values`buyOrders, StoragesOf(books)`elements
  {
    && (forall c :: c in books ==> books[c].Valid())
    && (forall c, d :: c in books && d in books && c != d ==>
          books[c] != books[d] && books[c].Storages() !! books[d].Storages())
    && (forall c, o :: c in books && o in books[c].Resting() ==> o.companyCode == c)
  }

  /** A valid, empty book not yet registered can join the registry under a new code. */
  lemma RegistryGrows(books: map<string, CompanyOrderBook>, code: string, book: CompanyOrderBook)
    requires Registry(books) && code !in books && book !in books.Values
    requires book.Valid() && book.Storages() == {} && book.Resting() == {}
    ensures Registry(books[code := book])
  {
  }

  class MatchingEngine {
    var orderBooks: map<string, CompanyOrderBook>

    ghost function AllStorages(): set<OrderStorage>
      reads this`orderBooks, orderBooks.Values`sellOrders, orderBooks.Values`buyOrders
    {
      StoragesOf(orderBooks)
    }

    ghost function AllResting(): set<TradeOrder>
      reads this`orderBooks, orderBooks.Values`sellOrders, orderBooks.Values`buyOrders, AllStorages()`elements
    {
      set c, o | c in orderBooks && o in orderBooks[c].Resting() :: o
    }

    /** The registry's invariant, on its own fields. */
    ghost predicate Valid()
      reads this`orderBooks, orderBooks.Values`sellOrders, orderBooks.Values`buyOrders, AllStorages()`elements
    {
      Registry(orderBooks)
    }

    /** The order rests in no book. */
    ghost predicate Unplaced(order: TradeOrder)
      reads this`orderBooks, orderBooks.Values`sellOrders, orderBooks.Values`buyOrders, AllStorages()`elements
    {
      forall c :: c in orderBooks ==> order !in orderBooks[c].Resting()
    }

    /** The book of an instrument as a value; an instrument with no book yet has an empty one. */
    ghost function ViewOf(code: string): BookView
      reads this`orderBooks, orderBooks.Values`sellOrders, orderBooks.Values`buyOrders, AllStorages()`elements
      reads AllResting()`remainingQuantity, AllResting()`status
    {
      if code in orderBooks then orderBooks[code].View() else BookView(map[], map[])
    }

    constructor ()
      ensures Valid() && orderBooks == map[]
    {
      orderBooks := map[];
    }

    /**
     * processOrder: the order goes to its instrument's book (created if
     * there is none); the events that book returns are published in order,
     * and every other book is left as it was.
     */
    method ProcessOrder(order: TradeOrder, tradeAt: int) returns (published: seq<TradeHistoryEvent>)
      requires Valid() && order !in AllResting()
      modifies this`orderBooks, orderBooks.Values, AllStorages(), AllResting(), order
      ensures Valid()
      ensures orderBooks.Keys == old(orderBooks.Keys) + {order.companyCode}
      ensures forall c :: c in old(orderBooks) ==> orderBooks[c] == old(orderBooks[c])
      ensures var r := ReceivedOutcome(old(ViewOf(order.companyCode)), old(order.View()), tradeAt);
        ViewOf(order.companyCode) == r.book && order.View() == r.incoming && published == r.events
      ensures forall c :: c in old(orderBooks) && c != order.companyCode ==> orderBooks[c].View() == old(orderBooks[c].View())
      ensures AllFilled(old(AllResting()) - AllResting())
    {
      var book := BookFor(order);
      published := Deliver(book, order, tradeAt);
    }

    /** The first two steps of processOrder: find or create the order's book, then run the limit-to-market check. */
    method BookFor(order: TradeOrder) returns (book: CompanyOrderBook)
      requires Valid() && order !in AllResting()
      modifies this`orderBooks
      ensures Valid() && Unplaced(order)
      ensures order.companyCode in orderBooks && orderBooks[order.companyCode] == book
      ensures orderBooks.Keys == old(orderBooks.Keys) + {order.companyCode}
      ensures forall c :: c in old(orderBooks) ==> orderBooks[c] == old(orderBooks[c])
      ensures || (book in old(orderBooks.Values) && book.Storages() <= old(AllStorages()) && book.Resting() <= old(AllResting()))
              || (fresh(book) && book.Storages() == {})
      ensures book.View() == old(ViewOf(order.companyCode))
      ensures forall c :: c in old(orderBooks) && c != order.companyCode ==> orderBooks[c].View() == old(orderBooks[c].View())
      ensures old(AllResting()) <= AllResting()
    {
      ghost var books0 := orderBooks;
      ghost var mine0 := map c | c in orderBooks :: orderBooks[c].Resting();
      book := GetOrCreateOrderBook(order.companyCode);
      CheckAndChangeLimitToMarket(order);
      forall o | o in old(AllResting()) ensures o in AllResting() {
        var c :| c in books0 && o in mine0[c];
        assert o in orderBooks[c].Resting();
      }
    }

    /** The order handed to the book of its instrument, which returns its events. */
    method Deliver(book: CompanyOrderBook, order: TradeOrder, tradeAt: int) returns (results: seq<TradeHistoryEvent>)
      requires Valid() && order.companyCode in orderBooks && orderBooks[order.companyCode] == book
      requires Unplaced(order)
      modifies book, book.Storages(), book.Resting(), order
      ensures Valid()
      ensures var r := ReceivedOutcome(old(book.View()), old(order.View()), tradeAt);
        book.View() == r.book && order.View() == r.incoming && results == r.events
      ensures forall c :: c in orderBooks && c != order.companyCode ==> orderBooks[c].View() == old(orderBooks[c].View())
      ensures AllFilled(old(AllResting()) - AllResting())
    {
      ghost var tabs, E, OV := Prepare(book, order);
      ghost var all0, mine0 := AllResting(), book.Resting();
      ghost var views0 := map c | c in tabs :: orderBooks[c].View();
      RestingSplit(order.companyCode, tabs);
      results := ReceiveBesides(book, order, tradeAt, tabs, E, OV);
      OthersKeptValid(book, order.companyCode, tabs, E, OV, views0);
      RestingSplit(order.companyCode, tabs);
      assert all0 - AllResting() <= mine0 - book.Resting();
    }

    /** Everything the delivery needs to know of the other books, in table form. */
    lemma Prepare(book: CompanyOrderBook, order: TradeOrder)
      returns (tabs: map<string, BookTables>, E: map<OrderStorage, seq<TradeOrder>>, OV: map<TradeOrder, OrderView>)
      requires Valid() && order.companyCode in orderBooks && orderBooks[order.companyCode] == book
      requires Unplaced(order)
      ensures tabs.Keys == orderBooks.Keys - {order.companyCode}
      ensures forall c :: c in tabs ==>
        && orderBooks[c] != book
        && orderBooks[c].sellOrders == tabs[c].sells && orderBooks[c].buyOrders == tabs[c].buys
        && TablesValid(tabs[c]) && Agrees(tabs[c], E, OV) && orderBooks[c].View() == TablesView(tabs[c])
        && orderBooks[c].Resting() == Flatten(tabs[c].e)
      ensures forall c, d :: c in tabs && d in tabs && c != d ==> orderBooks[c] != orderBooks[d] && tabs[c].e.Keys !! tabs[d].e.Keys
      ensures forall c, o :: c in tabs && o in Flatten(tabs[c].e) ==> o.companyCode == c
      ensures order !in book.Resting() && forall o :: o in book.Resting() ==> o.companyCode == order.companyCode
      ensures ElementsHeld(E) && ViewsHeld(OV) && E.Keys !! book.Storages() && OV.Keys !! book.Resting() && order !in OV
      ensures Apart(book, tabs) && Partitioned(orderBooks, order.companyCode, tabs, E, OV)
    {
      assert order !in AllResting();
      tabs := OthersTables(order.companyCode);
      OthersApart(book, order, tabs);
      E, OV := Pooled(book, order, tabs);
    }

    /** book.received, seen from the registry: storages and orders outside the book keep what E and OV record. */
    method ReceiveBesides(book: CompanyOrderBook, order: TradeOrder, tradeAt: int,
                          ghost tabs: map<string, BookTables>,
                          ghost E: map<OrderStorage, seq<TradeOrder>>, ghost OV: map<TradeOrder, OrderView>)
      returns (results: seq<TradeHistoryEvent>)
      requires book.Valid() && order !in book.Resting()
      requires Apart(book, tabs)
      requires forall o :: o in book.Resting() ==> o.companyCode == order.companyCode
      requires ElementsHeld(E) && ViewsHeld(OV) && E.Keys !! book.Storages() && OV.Keys !! book.Resting() && order !in OV
      modifies book, book.Storages(), book.Resting(), order
      ensures book.Valid() && forall o :: o in book.Resting() ==> o.companyCode == order.companyCode
      ensures var r := ReceivedOutcome(old(book.View()), old(order.View()), tradeAt);
        book.View() == r.book && order.View() == r.incoming && results == r.events
      ensures ElementsHeld(E) && ViewsHeld(OV) && E.Keys !! book.Storages()
      ensures Sided(tabs)
      ensures AllFilled(old(book.Resting()) - book.Resting())
    {
      results := ReceiveApart(book, order, tradeAt, tabs);
    }

    /** Every book named in tabs is not book and has the side maps tabs records. */
    ghost predicate Apart(book: CompanyOrderBook, tabs: map<string, BookTables>)
      reads this`orderBooks, orderBooks.Values
    {
      forall c :: c in tabs ==> c in orderBooks && orderBooks[c] != book && Sided1(tabs, c)
    }

    ghost predicate Sided1(tabs: map<string, BookTables>, c: string)
      requires c in tabs && c in orderBooks
      reads this`orderBooks, orderBooks[c]
    {
      orderBooks[c].sellOrders == tabs[c].sells && orderBooks[c].buyOrders == tabs[c].buys
    }

    /** Every book named in tabs has the side maps tabs records. */
    ghost predicate Sided(tabs: map<string, BookTables>)
      reads this`orderBooks, orderBooks.Values
    {
      forall c :: c in tabs ==> c in orderBooks && Sided1(tabs, c)
    }

    /** book.received, leaving every other book's side maps alone. */
    method ReceiveApart(book: CompanyOrderBook, order: TradeOrder, tradeAt: int, ghost tabs: map<string, BookTables>)
      returns (results: seq<TradeHistoryEvent>)
      requires book.Valid() && order !in book.Resting()
      requires Apart(book, tabs)
      modifies book, book.Storages(), book.Resting(), order
      ensures book.Valid() && book.Resting() <= old(book.Resting()) + {order}
      ensures forall t :: t in book.Storages() ==> t in old(book.Storages()) || fresh(t)
      ensures var r := ReceivedOutcome(old(book.View()), old(order.View()), tradeAt);
        book.View() == r.book && order.View() == r.incoming && results == r.events
      ensures Sided(tabs)
      ensures AllFilled(old(book.Resting()) - book.Resting())
    {
      results := book.Received(order, tradeAt);
    }

    /** The orders resting in the registry: those of the book for code and those the other books' tables record. */
    lemma RestingSplit(code: string, tabs: map<string, BookTables>)
      requires code in orderBooks && tabs.Keys == orderBooks.Keys - {code}
      requires forall c :: c in tabs ==> orderBooks[c].Resting() == Flatten(tabs[c].e)
      ensures AllResting() == orderBooks[code].Resting() + (set c, o | c in tabs && o in Flatten(tabs[c].e) :: o)
    {
    }

    /** Tables of every book but the one for code. */
    lemma OthersTables(code: string) returns (tabs: map<string, BookTables>)
      requires Valid()
      ensures tabs.Keys == orderBooks.Keys - {code}
      ensures forall c :: c in tabs ==>
        && orderBooks[c].Held(tabs[c]) && TablesValid(tabs[c]) && orderBooks[c].View() == TablesView(tabs[c])
        && tabs[c].e.Keys == orderBooks[c].Storages() && tabs[c].ov.Keys == orderBooks[c].Resting()
        && Flatten(tabs[c].e) == orderBooks[c].Resting()
    {
      tabs := map c | c in orderBooks && c != code :: orderBooks[c].Tables();
      forall c | c in tabs
        ensures orderBooks[c].Held(tabs[c]) && TablesValid(tabs[c]) && orderBooks[c].View() == TablesView(tabs[c])
        ensures tabs[c].e.Keys == orderBooks[c].Storages() && tabs[c].ov.Keys == orderBooks[c].Resting()
        ensures Flatten(tabs[c].e) == orderBooks[c].Resting()
      {
        orderBooks[c].TablesHeld();
        orderBooks[c].FromTables(tabs[c]);
      }
    }

    /**
     * What the registry's validity says of those tables: the other books'
     * storages are apart from book's and from each other's, and their
     * orders are all for their own instrument, so none is the order.
     */
    lemma OthersApart(book: CompanyOrderBook, order: TradeOrder, tabs: map<string, BookTables>)
      requires Valid() && order.companyCode in orderBooks && orderBooks[order.companyCode] == book
      requires order !in AllResting() && tabs.Keys == orderBooks.Keys - {order.companyCode}
      requires forall c :: c in tabs ==>
        && tabs[c].e.Keys == orderBooks[c].Storages() && tabs[c].ov.Keys == orderBooks[c].Resting()
        && Flatten(tabs[c].e) == orderBooks[c].Resting()
      ensures forall c :: c in tabs ==> orderBooks[c] != book && tabs[c].e.Keys !! book.Storages()
      ensures forall c, d :: c in tabs && d in tabs && c != d ==> orderBooks[c] != orderBooks[d] && tabs[c].e.Keys !! tabs[d].e.Keys
      ensures forall c, o :: c in tabs && o in tabs[c].ov ==> o.companyCode == c
      ensures forall c, o :: c in tabs && o in Flatten(tabs[c].e) ==> o.companyCode == c
      ensures order !in book.Resting() && forall o :: o in book.Resting() ==> o.companyCode == order.companyCode
    {
    }

    /** The tables of the other books pooled: every storage and every order outside book. */
    lemma Pooled(book: CompanyOrderBook, order: TradeOrder, tabs: map<string, BookTables>)
      returns (E: map<OrderStorage, seq<TradeOrder>>, OV: map<TradeOrder, OrderView>)
      requires Valid() && order.companyCode in orderBooks && orderBooks[order.companyCode] == book
      requires order !in AllResting() && tabs.Keys == orderBooks.Keys - {order.companyCode}
      requires forall c :: c in tabs ==>
        && orderBooks[c].Held(tabs[c])
        && tabs[c].e.Keys == orderBooks[c].Storages() && tabs[c].ov.Keys == orderBooks[c].Resting()
      requires forall c :: c in tabs ==> tabs[c].e.Keys !! book.Storages()
      requires forall c, o :: c in tabs && o in tabs[c].ov ==> o.companyCode == c
      requires forall o :: o in book.Resting() ==> o.companyCode == order.companyCode
      ensures ElementsHeld(E) && ViewsHeld(OV) && E.Keys !! book.Storages() && OV.Keys !! book.Resting() && order !in OV
      ensures forall c :: c in tabs ==> Agrees(tabs[c], E, OV)
    {
      E := map t | t in AllStorages() && t !in book.Storages() :: t.elements;
      OV := map o | o in AllResting() && o !in book.Resting() :: o.View();
      forall c | c in tabs ensures Agrees(tabs[c], E, OV) {
        assert forall t :: t in tabs[c].e ==> t in AllStorages();
        assert forall o :: o in tabs[c].ov ==> o in AllResting();
      }
    }

    /** After the delivery: the other books are as their tables say, so the registry is valid again. */
    lemma OthersKeptValid(book: CompanyOrderBook, code: string, tabs: map<string, BookTables>,
                          E: map<OrderStorage, seq<TradeOrder>>, OV: map<TradeOrder, OrderView>,
                          views0: map<string, BookView>)
      requires Partitioned(orderBooks, code, tabs, E, OV) && orderBooks[code] == book && Sided(tabs)
      requires forall c :: c in tabs ==> c in views0 && views0[c] == TablesView(tabs[c])
      requires book.Valid() && forall o :: o in book.Resting() ==> o.companyCode == code
      requires ElementsHeld(E) && ViewsHeld(OV) && E.Keys !! book.Storages()
      ensures Valid()
      ensures forall c :: c in tabs ==>
        && orderBooks[c].View() == TablesView(tabs[c])
        && orderBooks[c].Storages() == tabs[c].e.Keys && orderBooks[c].Resting() == Flatten(tabs[c].e)
      ensures forall c :: c in orderBooks && c != code ==> orderBooks[c].View() == views0[c]
    {
      forall c | c in tabs ensures orderBooks[c].sellOrders == tabs[c].sells && orderBooks[c].buyOrders == tabs[c].buys {
        assert Sided1(tabs, c);
      }
      forall c | c in tabs
        ensures orderBooks[c].Valid() && orderBooks[c].View() == TablesView(tabs[c])
        ensures orderBooks[c].Storages() == tabs[c].e.Keys && orderBooks[c].Resting() == Flatten(tabs[c].e)
        ensures book.Storages() !! tabs[c].e.Keys
      {
        HeldFromPool(orderBooks[c], tabs[c], E, OV);
        orderBooks[c].FromTables(tabs[c]);
      }
    }

    /** getOrCreateOrderBook: the registered book for the code, or a fresh empty one registered under it. */
    method GetOrCreateOrderBook(code: string) returns (book: CompanyOrderBook)
      requires Valid()
      modifies this`orderBooks
      ensures Valid()
      ensures code in orderBooks && book == orderBooks[code] && orderBooks.Keys == old(orderBooks.Keys) + {code}
      ensures code in old(orderBooks) ==> orderBooks == old(orderBooks)
      ensures code !in old(orderBooks) ==>
        && fresh(book) && book.Storages() == {} && book.Resting() == {}
        && orderBooks == old(orderBooks)[code := book]
      ensures ViewOf(code) == old(ViewOf(code))
      ensures forall c :: c in old(orderBooks) ==> c in orderBooks && orderBooks[c] == old(orderBooks[c])
      ensures forall c :: c in old(orderBooks) ==> orderBooks[c].View() == old(orderBooks[c].View())
      ensures forall c :: c in old(orderBooks) ==> orderBooks[c].Storages() == old(orderBooks[c].Storages())
      ensures forall c :: c in old(orderBooks) ==> orderBooks[c].Resting() == old(orderBooks[c].Resting())
    {
      if code in orderBooks {
        return orderBooks[code];
      }
      book := CreateFor(code);
    }

    /** The absent case of computeIfAbsent: a fresh, empty book, registered under the code. */
    method CreateFor(code: string) returns (book: CompanyOrderBook)
      requires Valid() && code !in orderBooks
      modifies this`orderBooks
      ensures Valid() && orderBooks == old(orderBooks)[code := book]
      ensures fresh(book) && book.Storages() == {} && book.Resting() == {} && book.View() == BookView(map[], map[])
      ensures forall c :: c in old(orderBooks) ==>
        && orderBooks[c].View() == old(orderBooks[c].View())
        && orderBooks[c].Storages() == old(orderBooks[c].Storages()) && orderBooks[c].Resting() == old(orderBooks[c].Resting())
    {
      ghost var tabs, E, OV := Snapshot(code);
      book := CreateOrderBook();
      Restored(tabs, E, OV);
      RegistryGrows(orderBooks, code, book);
      Register(code, book);
    }

    /** The books recorded in tabs, E and OV stand as recorded: the registry is valid. */
    lemma Restored(tabs: map<string, BookTables>, E: map<OrderStorage, seq<TradeOrder>>, OV: map<TradeOrder, OrderView>)
      requires tabs.Keys == orderBooks.Keys && ElementsHeld(E) && ViewsHeld(OV)
      requires forall c :: c in tabs ==>
        && orderBooks[c].sellOrders == tabs[c].sells && orderBooks[c].buyOrders == tabs[c].buys
        && TablesValid(tabs[c]) && Agrees(tabs[c], E, OV)
      requires forall c, d :: c in tabs && d in tabs && c != d ==> orderBooks[c] != orderBooks[d] && tabs[c].e.Keys !! tabs[d].e.Keys
      requires forall c, o :: c in tabs && o in Flatten(tabs[c].e) ==> o.companyCode == c
      ensures Valid()
      ensures forall c :: c in tabs ==>
        && orderBooks[c].View() == TablesView(tabs[c])
        && orderBooks[c].Storages() == tabs[c].e.Keys && orderBooks[c].Resting() == Flatten(tabs[c].e)
    {
      forall c | c in tabs
        ensures orderBooks[c].Valid() && orderBooks[c].View() == TablesView(tabs[c])
        ensures orderBooks[c].Storages() == tabs[c].e.Keys && orderBooks[c].Resting() == Flatten(tabs[c].e)
      {
        HeldFromPool(orderBooks[c], tabs[c], E, OV);
        orderBooks[c].FromTables(tabs[c]);
      }
    }

    /** computeIfAbsent: a new, empty book registered under a code that had none. */
    method Register(code: string, book: CompanyOrderBook)
      requires code !in orderBooks
      modifies this`orderBooks
      ensures Valid() == old(Registry(orderBooks[code := book]))
      ensures orderBooks == old(orderBooks)[code := book]
      ensures forall c :: c in old(orderBooks) ==> orderBooks[c].View() == old(orderBooks[c].View())
      ensures forall c :: c in old(orderBooks) ==> orderBooks[c].Storages() == old(orderBooks[c].Storages())
      ensures forall c :: c in old(orderBooks) ==> orderBooks[c].Resting() == old(orderBooks[c].Resting())
    {
      orderBooks := orderBooks[code := book];
    }

    /** The tables of every book, for a code that has none yet. */
    lemma Snapshot(code: string)
      returns (tabs: map<string, BookTables>, E: map<OrderStorage, seq<TradeOrder>>, OV: map<TradeOrder, OrderView>)
      requires Valid() && code !in orderBooks
      ensures tabs.Keys == orderBooks.Keys
      ensures forall c :: c in tabs ==>
        && orderBooks[c].sellOrders == tabs[c].sells && orderBooks[c].buyOrders == tabs[c].buys
        && TablesValid(tabs[c]) && Agrees(tabs[c], E, OV) && orderBooks[c].View() == TablesView(tabs[c])
        && orderBooks[c].Storages() == tabs[c].e.Keys && orderBooks[c].Resting() == Flatten(tabs[c].e)
      ensures forall c, d :: c in tabs && d in tabs && c != d ==> orderBooks[c] != orderBooks[d] && tabs[c].e.Keys !! tabs[d].e.Keys
      ensures forall c, o :: c in tabs && o in Flatten(tabs[c].e) ==> o.companyCode == c
      ensures ElementsHeld(E) && ViewsHeld(OV)
    {
      tabs := OthersTables(code);
      E := map t | t in AllStorages() :: t.elements;
      OV := map o | o in AllResting() :: o.View();
      forall c | c in tabs ensures Agrees(tabs[c], E, OV) {
        assert forall t :: t in tabs[c].e ==> t in AllStorages();
        assert forall o :: o in tabs[c].ov ==> o in AllResting();
      }
    }

    /**
     * checkAndChangeLimitToMarket: ask the order's book whether the order
     * is priced through the market and, if so, turn it into a market
     * order. Neither hook ever says so, so the order is never changed.
     */
    method CheckAndChangeLimitToMarket(order: TradeOrder)
      requires Valid() && order.companyCode in orderBooks
      modifies this`orderBooks
      ensures Valid() && orderBooks == old(orderBooks)
      ensures forall c :: c in old(orderBooks) ==>
        && c in orderBooks && orderBooks[c] == old(orderBooks[c]) && orderBooks[c].View() == old(orderBooks[c].View())
        && orderBooks[c].Storages() == old(orderBooks[c].Storages()) && orderBooks[c].Resting() == old(orderBooks[c].Resting())
    {
      if order.IsSellType() {
        UpdateSellOrderStatusIfBelowMarketPrice(order);
        return;
      }
      UpdateBuyOrderStatusIfAboveMarketPrice(order);
    }

    method UpdateSellOrderStatusIfBelowMarketPrice(order: TradeOrder)
      requires Valid() && order.companyCode in orderBooks
      modifies this`orderBooks
      ensures Valid() && orderBooks == old(orderBooks)
      ensures forall c :: c in old(orderBooks) ==>
        && c in orderBooks && orderBooks[c] == old(orderBooks[c]) && orderBooks[c].View() == old(orderBooks[c].View())
        && orderBooks[c].Storages() == old(orderBooks[c].Storages()) && orderBooks[c].Resting() == old(orderBooks[c].Resting())
    {
      var book := GetOrCreateOrderBook(order.companyCode);
      if book.IsSellOrderBelowMarketPrice(order) {
        assert false;
      }
    }

    method UpdateBuyOrderStatusIfAboveMarketPrice(order: TradeOrder)
      requires Valid() && order.companyCode in orderBooks
      modifies this`orderBooks
      ensures Valid() && orderBooks == old(orderBooks)
      ensures forall c :: c in old(orderBooks) ==>
        && c in orderBooks && orderBooks[c] == old(orderBooks[c]) && orderBooks[c].View() == old(orderBooks[c].View())
        && orderBooks[c].Storages() == old(orderBooks[c].Storages()) && orderBooks[c].Resting() == old(orderBooks[c].Resting())
    {
      var book := GetOrCreateOrderBook(order.companyCode);
      if book.IsBuyOrderAboveMarketPrice(order) {
        assert false;
      }
    }
  }
}
