/** Amounts of the three assets a pool deals in. */
module Balances {
  import opened MoveTypes

  const DEEP: TypeName := "DEEP"

  datatype Leg = BaseLeg | QuoteLeg | DeepLeg

  /** The asset types of a pool; DEEP may itself be the base or the quote. */
  datatype Pair = Pair(base: TypeName, quote: TypeName) {
    function TypeOf(leg: Leg): TypeName {
      match leg
      case BaseLeg => base
      case QuoteLeg => quote
      case DeepLeg => DEEP
    }
  }

  datatype Balances = Balances(base: u64, quote: u64, deep: u64) {
    function Of(leg: Leg): u64 {
      match leg
      case BaseLeg => base
      case QuoteLeg => quote
      case DeepLeg => deep
    }

    function With(leg: Leg, amount: u64): Balances {
      match leg
      case BaseLeg => this.(base := amount)
      case QuoteLeg => this.(quote := amount)
      case DeepLeg => this.(deep := amount)
    }

    /** Everything held in units of one asset type, however the types coincide. */
    function Total(pair: Pair, t: TypeName): nat {
      (if pair.base == t then base else 0) + (if pair.quote == t then quote else 0) + (if DEEP == t then deep else 0)
    }

    /** Leg by leg, how much more this is than `that`. */
    function Over(that: Balances): Balances {
      Balances(Max(base - that.base, 0), Max(quote - that.quote, 0), Max(deep - that.deep, 0))
    }

    predicate Covers(that: Balances) { that.base <= base && that.quote <= quote && that.deep <= deep }
  }

  const EMPTY := Balances(0, 0, 0)
}
