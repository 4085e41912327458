/**
 * The four order types of the matching service: side (sell or buy) crossed
 * with kind (market or limit).
 */
module Types {

  datatype OrderType = MarketSell | MarketBuy | LimitSell | LimitBuy {

    /** Market orders take whatever the counter side offers and never rest. */
    predicate IsMarket() {
      this == MarketSell || this == MarketBuy
    }

    /** Sell orders rest in the ascending sell map and match against buys. */
    predicate IsSell() {
      this == MarketSell || this == LimitSell
    }
  }

  /** Exactly the two market constants are market orders. */
  lemma MarketTypes(t: OrderType)
    ensures t.IsMarket() <==> t in {MarketSell, MarketBuy}
  {
  }

  /** Exactly the two sell constants are sell orders. */
  lemma SellTypes(t: OrderType)
    ensures t.IsSell() <==> t in {MarketSell, LimitSell}
  {
  }

  /** The pair of flags (market?, sell?) names the constant: no two constants share it. */
  lemma {:induction false} FlagsDetermineType(a: OrderType, b: OrderType)
    ensures a.IsMarket() == b.IsMarket() && a.IsSell() == b.IsSell() ==> a == b
  {
    match a
    case MarketSell =>
    case MarketBuy =>
    case LimitSell =>
    case LimitBuy =>
  }

  /** A limit buy is the one constant that is neither market nor sell. */
  lemma LimitBuyIsNeither(t: OrderType)
    ensures !t.IsMarket() && !t.IsSell() <==> t == LimitBuy
  {
  }
}
