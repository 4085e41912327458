/**
 * The price key of a level. The Java class wraps a BigDecimal; here the
 * value is an integer (prices are whole units of the currency), so equality
 * by value and the maps' ordering by value coincide.
 */
module Prices {

  datatype Price = Price(value: int) {

    function GetValue(): int {
      value
    }

    /** Java's equals(Object): false for null and for any object that is not a Price. */
    predicate Equals(o: JavaObject) {
      if o.Null? || !o.PriceObject? then false else value == o.price.value
    }

    /**
     * Objects.hashCode(value) delegates to the hash of the wrapped number,
     * which belongs to the Java library; it is passed in as valueHash.
     */
    function HashCode(valueHash: int -> int): int {
      valueHash(value)
    }
  }

  /** The argument of equals(Object), as far as equals can tell it apart. */
  datatype JavaObject = Null | PriceObject(price: Price) | OtherObject

  /** getValue returns exactly what the constructor was given. */
  lemma GetValueReturnsConstructorArgument(v: int)
    ensures Price(v).GetValue() == v
  {
  }

  /** Two prices are equal exactly when their values are. */
  lemma EqualsIffSameValue(p: Price, q: Price)
    ensures p.Equals(PriceObject(q)) <==> p.GetValue() == q.GetValue()
    ensures p.Equals(PriceObject(q)) <==> p == q
  {
  }

  /** equals rejects null and every object that is not a Price. */
  lemma EqualsRejectsNonPrice(p: Price, o: JavaObject)
    requires !o.PriceObject?
    ensures !p.Equals(o)
  {
  }

  /** Equal prices have equal hash codes, whatever the hash of the wrapped value. */
  lemma EqualPricesHashEqually(p: Price, q: Price, valueHash: int -> int)
    requires p.Equals(PriceObject(q))
    ensures p.HashCode(valueHash) == q.HashCode(valueHash)
  {
  }
}
