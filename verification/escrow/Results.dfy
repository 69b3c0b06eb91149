/** Error codes and the result types that carry them. */
module Results {
  import opened Numeric

  /** The contract's error codes.  `HostTrap` stands for a host panic: a missing authorisation
      or a token call that the token contract aborts. */
  datatype Error =
    | AlreadyInit | NotInit | BadState | NotFound | AlreadyPaid | NoDeposit | Locked | BadAmount
    | DupId | BadToken | BadRoles | AlreadySubmitted | BadSplit | NotAuthorized
    | MilestoneAlreadyCompleted | InvalidMilestoneSequence | DeadlineNotExceeded
    | InsufficientAllowance | ZeroAmountAllocated | ArbitratorCollision | DisputeLockActive
    | Paused | QuorumNotMet | AmendmentPending | VestingIncomplete | PenaltyOverflow | FeeOverflow
    | HostTrap

  datatype Option<+T> = None | Some(value: T)

  datatype Result<+T> = Ok(value: T) | Err(error: Error) {
    predicate IsFailure() {
      Err?
    }

    function PropagateFailure<U>(): Result<U>
      requires Err?
    {
      Err(error)
    }

    function Extract(): T
      requires Ok?
    {
      value
    }
  }

  /** A check that carries no value. */
  datatype Outcome = Pass | Fail(error: Error) {
    predicate IsFailure() {
      Fail?
    }

    function PropagateFailure<U>(): Result<U>
      requires Fail?
    {
      Err(error)
    }
  }

  function Need(condition: bool, error: Error): Outcome {
    if condition then Pass else Fail(error)
  }

  /** A checked i128 operation whose exact result is `x`. */
  function Checked(x: int, error: Error): Result<I128> {
    if FitsI128(x) then Ok(x) else Err(error)
  }

  /** Amounts must be strictly positive; zero has its own error code. */
  function PositiveAmount(amount: I128): Outcome {
    if amount < 0 then Fail(BadAmount) else if amount == 0 then Fail(ZeroAmountAllocated) else Pass
  }
}
