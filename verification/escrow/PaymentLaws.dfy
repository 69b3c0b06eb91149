/** Closed forms of the money movements: when each succeeds and everything it changes. */
module PaymentLaws {
  import opened Numeric
  import opened Results
  import opened EscrowMath
  import opened Storage
  import opened Payments

  /** No entry is negative and nothing has been paid out that was not put in. */
  predicate Consistent(book: Book) {
    0 <= book.released && 0 <= book.refunded && 0 <= book.Balance()
  }

  /** The contract holds at least the tokens its book says are locked. */
  predicate Solvent(w: World) {
    w.store.Some? ==> Consistent(w.store.value.book) && w.store.value.book.Balance() <= w.token.Balance(w.self)
  }

  /** The payee's account can take the amount; paying the contract itself is always possible. */
  predicate Room(w: World, to: Address, amount: int) {
    to == w.self || w.token.Balance(to) + amount <= I128_MAX
  }

  /** `a1` went from `from` to `to1` and `a2` to `to2`; no other balance changed. */
  ghost predicate Moved(t: Token, t': Token, from: Address, to1: Address, a1: int, to2: Address, a2: int) {
    t'.allowances == t.allowances &&
    forall who :: t'.Balance(who) == t.Balance(who) - (if who == from then a1 + a2 else 0)
                                     + (if who == to1 then a1 else 0) + (if who == to2 then a2 else 0)
  }

  lemma TransferToExact(w: World, to: Address, amount: I128)
    requires w.store.Some? && 0 < amount
    ensures var r := TransferTo(w, to, amount);
            && (r.Ok? <==> amount <= w.token.Balance(w.self) && Room(w, to, amount))
            && (r.Ok? ==> r.value == w.(token := r.value.token)
                          && Moved(w.token, r.value.token, w.self, to, amount, to, 0))
  {
    TransferExact(w.token, w.self, to, amount);
  }

  /** The saturating guards of the two credits refuse exactly the amounts the book does not cover. */
  lemma CreditsExact(w: World, amount: I128)
    requires w.store.Some? && Consistent(w.store.value.book) && 0 <= amount
    ensures var s := w.store.value; var book := s.book;
            && CreditReleased(w, amount) ==
                 (if amount <= book.Balance() then Ok(w.Put(s.(book := book.(released := book.released + amount))))
                  else Err(BadAmount))
            && CreditRefunded(w, amount) ==
                 (if amount <= book.Balance() then Ok(w.Put(s.(book := book.(refunded := book.refunded + amount))))
                  else Err(BadAmount))
  {
    var book := w.store.value.book;
    SaturationHarmless(book);
    if FitsI128(book.released + amount) {
      SaturationHarmless(book.(released := book.released + amount));
    }
  }

  /** A release succeeds exactly when the book covers it and the payee can take it; it credits
      `released` and moves the tokens, and nothing else. */
  lemma ReleaseExact(w: World, to: Address, amount: I128)
    requires w.store.Some? && Solvent(w) && 0 <= amount
    ensures var book := w.store.value.book; var r := Release(w, to, amount);
            && (r.Ok? <==> amount <= book.Balance() && (amount == 0 || Room(w, to, amount)))
            && (r.Ok? ==>
                  && r.value.self == w.self && Solvent(r.value)
                  && r.value.store == Some(w.store.value.(book := book.(released := book.released + amount)))
                  && Moved(w.token, r.value.token, w.self, to, amount, to, 0))
  {
    if 0 < amount {
      TransferToExact(w, to, amount);
      var r := TransferTo(w, to, amount);
      if r.Ok? {
        CreditsExact(r.value, amount);
      }
    }
  }

  /** The same for a refund, which credits `refunded`. */
  lemma RefundExact(w: World, to: Address, amount: I128)
    requires w.store.Some? && Solvent(w) && 0 <= amount
    ensures var book := w.store.value.book; var r := Refund(w, to, amount);
            && (r.Ok? <==> amount <= book.Balance() && (amount == 0 || Room(w, to, amount)))
            && (r.Ok? ==>
                  && r.value.self == w.self && Solvent(r.value)
                  && r.value.store == Some(w.store.value.(book := book.(refunded := book.refunded + amount)))
                  && Moved(w.token, r.value.token, w.self, to, amount, to, 0))
  {
    if 0 < amount {
      TransferToExact(w, to, amount);
      var r := TransferTo(w, to, amount);
      if r.Ok? {
        CreditsExact(r.value, amount);
      }
    }
  }

  /** The fee the treasury takes from `gross`. */
  function Fee(gross: int, feeBps: int): int {
    Share(gross, feeBps)
  }

  lemma DisbursementExact(s: Store, gross: I128)
    requires s.feeBps <= BPS_SCALE && 0 < gross
    ensures 0 <= Fee(gross, s.feeBps) <= gross
    ensures DisbursementSplit(s, gross) ==
            if gross * s.feeBps <= I128_MAX then Ok((Fee(gross, s.feeBps), gross - Fee(gross, s.feeBps)))
            else Err(FeeOverflow)
  {
    ApplyBpsExact(gross, s.feeBps);
  }

  lemma PayLegsExact(w: World, to1: Address, a1: I128, to2: Address, a2: I128)
    requires w.store.Some? && Solvent(w) && to1 != to2 && 0 <= a1 && 0 <= a2
    ensures var s := w.store.value; var r := PayLegs(w, to1, a1, to2, a2);
            && (r.Ok? <==> a1 + a2 <= s.book.Balance()
                           && (a1 == 0 || Room(w, to1, a1)) && (a2 == 0 || Room(w, to2, a2)))
            && (r.Ok? ==>
                  && r.value.self == w.self && Solvent(r.value)
                  && r.value.store == Some(s.(book := s.book.(released := s.book.released + (a1 + a2))))
                  && Moved(w.token, r.value.token, w.self, to1, a1, to2, a2))
  {
    ReleaseExact(w, to1, a1);
    var r1 := Release(w, to1, a1);
    if r1.Ok? {
      ReleaseExact(r1.value, to2, a2);
      assert Room(r1.value, to2, a2) == Room(w, to2, a2);
    }
  }

  /** The amount can be disbursed: it is positive, its fee product fits and both payees can take
      their legs. */
  predicate Payable(w: World, s: Store, recipient: Address, gross: int) {
    var fee := Fee(gross, s.feeBps);
    && 0 < gross && gross * s.feeBps <= I128_MAX
    && (fee == 0 || Room(w, s.treasury, fee))
    && (gross == fee || Room(w, recipient, gross - fee))
  }

  lemma PayReduces(w: World, recipient: Address, gross: I128)
    requires w.store.Some? && w.store.value.feeBps <= BPS_SCALE
    ensures var s := w.store.value;
            if 0 < gross && gross * s.feeBps <= I128_MAX then
              PayWithFee(w, recipient, gross) ==
              PayLegs(w, s.treasury, Fee(gross, s.feeBps), recipient, gross - Fee(gross, s.feeBps))
            else PayWithFee(w, recipient, gross).Err?
  {
    if 0 < gross {
      DisbursementExact(w.store.value, gross);
    }
  }

  /** A disbursement succeeds exactly when the amount is payable and the book covers it.  It
      releases `gross` in total: the floored fee to the treasury and the rest to the recipient. */
  lemma PayWithFeeExact(w: World, recipient: Address, gross: I128)
    requires w.store.Some? && Solvent(w)
    requires w.store.value.feeBps <= BPS_SCALE && w.store.value.treasury != recipient
    ensures var s := w.store.value; var r := PayWithFee(w, recipient, gross);
            && (r.Ok? <==> gross <= s.book.Balance() && Payable(w, s, recipient, gross))
            && (r.Ok? ==>
                  && r.value.self == w.self && Solvent(r.value)
                  && r.value.store == Some(s.(book := s.book.(released := s.book.released + gross)))
                  && var fee := Fee(gross, s.feeBps);
                     Moved(w.token, r.value.token, w.self, s.treasury, fee, recipient, gross - fee))
  {
    hide PayLegs, PayWithFee;
    var s := w.store.value;
    PayReduces(w, recipient, gross);
    if 0 < gross && gross * s.feeBps <= I128_MAX {
      PayLegsExact(w, s.treasury, Fee(gross, s.feeBps), recipient, gross - Fee(gross, s.feeBps));
    }
  }

  // ----- Refusals -----

  /** The tokens for one leg can be moved at all. */
  predicate Movable(w: World, to: Address, amount: int) {
    amount <= w.token.Balance(w.self) && Room(w, to, amount)
  }

  /** A leg the ledger cannot move traps; one it can move but the book does not cover is a bad amount. */
  lemma LegsRefused(w: World, to: Address, amount: I128)
    requires w.store.Some? && Consistent(w.store.value.book) && 0 <= amount
    ensures var book := w.store.value.book; var out, back := Release(w, to, amount), Refund(w, to, amount);
            && (out == Err(HostTrap) <==> 0 < amount && !Movable(w, to, amount))
            && (back == Err(HostTrap) <==> 0 < amount && !Movable(w, to, amount))
            && (out == Err(BadAmount) <==> 0 < amount && Movable(w, to, amount) && book.Balance() < amount)
            && (back == Err(BadAmount) <==> 0 < amount && Movable(w, to, amount) && book.Balance() < amount)
            && (out.Err? ==> out.error.HostTrap? || out.error.BadAmount?)
            && (back.Err? ==> back.error.HostTrap? || back.error.BadAmount?)
  {
    if 0 < amount {
      TransferToExact(w, to, amount);
      var r := TransferTo(w, to, amount);
      if r.Ok? {
        CreditsExact(r.value, amount);
      }
    }
  }

  /** Why a disbursement is refused: no amount, a fee product that overflows, a payee without room, or a
      book that does not cover it, which is told from a trap by its first leg. */
  lemma PayWithFeeRefused(w: World, recipient: Address, gross: I128)
    requires w.store.Some? && Solvent(w)
    requires w.store.value.feeBps <= BPS_SCALE && w.store.value.treasury != recipient
    ensures var s := w.store.value; var r := PayWithFee(w, recipient, gross); var fee := Fee(gross, s.feeBps);
            var fits := 0 < gross && gross * s.feeBps <= I128_MAX;
            && (gross < 0 ==> r == Err(BadAmount))
            && (gross == 0 ==> r == Err(ZeroAmountAllocated))
            && (0 < gross && !fits ==> r == Err(FeeOverflow))
            && (fits && gross <= s.book.Balance() && !Payable(w, s, recipient, gross) ==> r == Err(HostTrap))
            && (fits && s.book.Balance() == 0 ==>
                  r == Err(if (if 0 < fee then Movable(w, s.treasury, fee) else Movable(w, recipient, gross))
                           then BadAmount else HostTrap))
  {
    hide PayLegs;
    var s := w.store.value;
    if 0 < gross && gross * s.feeBps <= I128_MAX {
      PayReduces(w, recipient, gross);
      DisbursementExact(s, gross);
      var fee := Fee(gross, s.feeBps);
      PayLegsRefused(w, s.treasury, fee, recipient, gross - fee);
    }
  }

  lemma PayLegsRefused(w: World, to1: Address, a1: I128, to2: Address, a2: I128)
    requires w.store.Some? && Solvent(w) && to1 != to2 && 0 <= a1 && 0 <= a2 && 0 < a1 + a2
    ensures var book := w.store.value.book; var r := PayLegs(w, to1, a1, to2, a2);
            && (a1 + a2 <= book.Balance() && !((a1 == 0 || Room(w, to1, a1)) && (a2 == 0 || Room(w, to2, a2)))
                ==> r == Err(HostTrap))
            && (book.Balance() == 0 ==>
                  r == Err(if (if 0 < a1 then Movable(w, to1, a1) else Movable(w, to2, a2))
                           then BadAmount else HostTrap))
  {
    hide Release;
    LegsRefused(w, to1, a1);
    ReleaseExact(w, to1, a1);
    var r1 := Release(w, to1, a1);
    if r1.Ok? {
      LegsRefused(r1.value, to2, a2);
      ReleaseExact(r1.value, to2, a2);
      assert Room(r1.value, to2, a2) == Room(w, to2, a2);
    }
  }
}
