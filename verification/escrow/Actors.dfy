/** The cast and the moment of the concrete escrows. */
module Actors {
  import opened Numeric
  import opened Storage

  const FUNDER := Address(1)
  const RECIPIENT := Address(2)
  const ARBITRATOR := Address(3)
  const ASSET := Address(4)
  const CONTRACT := Address(5)
  const AT: U64 := 10

  /** Both parties sign. */
  const ENV := Env(AT, {FUNDER, RECIPIENT})

  /** The arbitrator signs. */
  const JUDGE := Env(AT, {ARBITRATOR})
}
