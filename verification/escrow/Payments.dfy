/** token.rs and fees.rs: what each movement of money does to the world. */
module Payments {
  import opened Numeric
  import opened Results
  import opened EscrowMath
  import opened Storage

  function TransferTo(w: World, to: Address, amount: I128): Result<World> {
    var positive := PositiveAmount(amount);
    if positive.Fail? then Err(positive.error)
    else
      var _ :- w.Opened();
      var token :- w.token.Transfer(w.self, to, amount);
      Ok(w.(token := token))
  }

  function CreditReleased(w: World, amount: I128): Result<World> {
    var s :- w.Opened();
    var released :- Checked(s.book.released + amount, BadAmount);
    var book := s.book.(released := released);
    :- Need(book.Locked() >= 0, BadAmount);
    Ok(w.Put(s.(book := book)))
  }

  function CreditRefunded(w: World, amount: I128): Result<World> {
    var s :- w.Opened();
    :- Need(amount <= s.book.Locked(), BadAmount);
    var refunded :- Checked(s.book.refunded + amount, BadAmount);
    Ok(w.Put(s.(book := s.book.(refunded := refunded))))
  }

  /** Pay a positive amount to the recipient's side; a zero leg is skipped. */
  function Release(w: World, to: Address, amount: I128): Result<World> {
    if amount > 0 then
      var w1 :- TransferTo(w, to, amount);
      CreditReleased(w1, amount)
    else
      Ok(w)
  }

  /** Return a positive amount to the funder; a zero leg is skipped. */
  function Refund(w: World, to: Address, amount: I128): Result<World> {
    if amount > 0 then
      var w1 :- TransferTo(w, to, amount);
      CreditRefunded(w1, amount)
    else
      Ok(w)
  }

  function DisbursementSplit(s: Store, gross: I128): Result<(I128, I128)> {
    var positive := PositiveAmount(gross);
    if positive.Fail? then Err(positive.error)
    else if s.feeBps == 0 then Ok((0, gross))
    else ProtocolFee(gross, s.feeBps)
  }

  function PayLegs(w: World, treasury: Address, fee: I128, recipient: Address, net: I128): Result<World> {
    var w1 :- Release(w, treasury, fee);
    Release(w1, recipient, net)
  }

  function PayWithFee(w: World, recipient: Address, gross: I128): Result<World> {
    var s :- w.Opened();
    var (fee, net) :- DisbursementSplit(s, gross);
    PayLegs(w, s.treasury, fee, recipient, net)
  }

  function DepositFunds(w: World, env: Env): Result<World> {
    var s :- w.Opened();
    :- NotPaused(s);
    :- env.RequireAuth(s.config.funder);
    :- Need(s.state.Pending?, BadState);
    :- Need(s.book.deposited <= 0, AlreadyPaid);
    var total := s.config.totalAmount;
    :- Need(total <= w.token.Allowance(s.config.funder, w.self), InsufficientAllowance);
    var token :- w.token.TransferFrom(w.self, s.config.funder, w.self, total);
    :- Need(total <= token.Balance(w.self), NoDeposit);
    Ok(w.(token := token).Put(s.(
      book := s.book.(deposited := total),
      state := EscrowState.Active,
      lockUntil := SatAddU64(env.now, s.config.lockSecs))))
  }

  function ConfigureProtocolFee(w: World, env: Env, treasury: Address, feeBps: U32): Result<World> {
    var s :- w.Opened();
    :- NotPaused(s);
    :- env.RequireAuth(s.admin);
    :- Need(s.state.Pending?, BadState);
    :- Need(feeBps <= BPS_SCALE, FeeOverflow);
    :- Need(treasury != s.config.recipient, BadRoles);
    Ok(w.Put(s.(treasury := treasury, feeBps := feeBps)))
  }
}
