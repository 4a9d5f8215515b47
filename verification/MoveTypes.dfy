/** The Move integer types and the abort codes that the modelled packages use. */
module MoveTypes {
  const TWO_64 := 0x1_0000_0000_0000_0000
  const TWO_128 := 0x1_0000_0000_0000_0000_0000_0000_0000_0000
  const MAX_U64 := TWO_64 - 1
  const MAX_U128 := TWO_128 - 1

  /** Assigning to these types is where Dafny checks that Move neither overflows nor truncates. */
  type u64 = x: int | 0 <= x < TWO_64
  type u128 = x: int | 0 <= x < TWO_128

  type Address = nat
  type ID = nat
  type TypeName = string

  datatype AbortCode =
    | EInvalidOwner
    | EInvalidTrader
    | EInvalidProof
    | EBalanceManagerBalanceTooLow
    | EMaxCapsReached
    | ECapNotInList
    | EInvalidReferralOwner
    | EInvalidReferralMultiplier
    | EFieldDoesNotExist
    | EBagNotEmpty
    | ENotEnough
    | EArithmetic
    | EInvalidQuantityIn
    | EMinimumQuantityOutNotMet
    | EPoolAlreadyExists
    | EPoolDoesNotExist
    | EPoolNotRegistered
    | ESameBaseAndQuote
    | EInvalidTickSize
    | EInvalidLotSize
    | EInvalidMinSize
    | EPoolCannotBeBothWhitelistedAndStable
    | ENoDataPoints

  /** A Move call either returns or aborts; an abort rolls every change back. */
  datatype Result<+T> = Ok(value: T) | Abort(code: AbortCode)

  datatype Option<+T> = None | Some(value: T)

  function Min(a: int, b: int): int { if a <= b then a else b }
  function Max(a: int, b: int): int { if a >= b then a else b }
}
