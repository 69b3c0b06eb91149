/** Checked basis-point and vesting arithmetic, with the laws the contract relies on. */
module EscrowMath {
  import opened Numeric
  import opened Results

  const BPS_SCALE: U32 := 10_000

  function RequireFullBps(left: U32, right: U32): Outcome {
    Need(left + right <= U32_MAX && left + right == BPS_SCALE, BadSplit)
  }

  function ApplyBps(amount: I128, bps: U32): Result<I128> {
    if amount < 0 then Err(BadAmount)
    else if bps > BPS_SCALE then Err(PenaltyOverflow)
    else
      var scaled :- Checked(amount * bps, FeeOverflow);
      Ok(scaled / BPS_SCALE)
  }

  function SplitAmount(amount: I128, funderBps: U32, recipientBps: U32): Result<(I128, I128)> {
    if RequireFullBps(funderBps, recipientBps).Fail? then Err(BadSplit)
    else
      var funderAmount :- ApplyBps(amount, funderBps);
      var recipientAmount :- Checked(amount - funderAmount, BadAmount);
      Ok((funderAmount, recipientAmount))
  }

  /** `(fee, net)` */
  function ProtocolFee(gross: I128, feeBps: U32): Result<(I128, I128)> {
    var fee :- ApplyBps(gross, feeBps);
    var net :- Checked(gross - fee, FeeOverflow);
    Ok((fee, net))
  }

  /** `(slash, remaining)` */
  function ApplyPenalty(gross: I128, penaltyBps: U32): Result<(I128, I128)> {
    var slash :- ApplyBps(gross, penaltyBps);
    var remaining :- Checked(gross - slash, PenaltyOverflow);
    Ok((slash, remaining))
  }

  function FloorDiv(numer: I128, denom: I128): Result<I128> {
    if numer < 0 || denom <= 0 then Err(BadAmount)
    else
      QuotientFits(numer, denom);
      Ok(numer / denom)
  }

  function VestedAmount(total: I128, start: U64, end: U64, now: U64): Result<I128> {
    if total < 0 then Err(BadAmount)
    else if end <= start then Err(BadAmount)
    else if now <= start then Ok(0)
    else if end <= now then Ok(total)
    else
      var product :- Checked(total * (now - start), FeeOverflow);
      FloorDiv(product, end - start)
  }

  // ----- Exact counterparts over unbounded integers -----

  /** The exact floor share of `amount`; never more than the whole. */
  function Share(amount: int, bps: int): (share: int)
    ensures 0 <= amount && 0 <= bps <= BPS_SCALE ==> 0 <= share <= amount
  {
    ProductBounds(amount, bps);
    amount * bps / BPS_SCALE
  }

  /** The exact floored linear interpolant, clamped to `[0, total]`. */
  function Vested(total: int, start: int, end: int, now: int): (vested: int)
    requires start < end
    ensures 0 <= total ==> 0 <= vested <= total
  {
    if now <= start then 0
    else if end <= now then total
    else
      PortionBounds(total, now - start, end - start);
      total * (now - start) / (end - start)
  }

  // ----- Laws -----

  lemma ScaleMonotone(x: int, y: int, d: int)
    requires 0 <= d && x <= y
    ensures x * d <= y * d
  {
  }

  /** The quotient is the only `q` whose multiple brackets the numerator. */
  lemma QuotientBracket(a: int, d: int)
    requires 0 < d
    ensures (a / d) * d <= a < (a / d + 1) * d
  {
    assert (a / d) * d == a - a % d;
  }

  lemma QuotientUnique(a: int, q: int, d: int)
    requires 0 < d && q * d <= a < (q + 1) * d
    ensures a / d == q
  {
    var p := a / d;
    QuotientBracket(a, d);
    if p < q {
      ScaleMonotone(p + 1, q, d);
      assert false;
    } else if q < p {
      ScaleMonotone(q + 1, p, d);
      assert false;
    }
  }

  lemma QuotientMonotone(a: int, b: int, d: int)
    requires 0 < d && a <= b
    ensures a / d <= b / d
  {
    var p, q := a / d, b / d;
    QuotientBracket(a, d);
    QuotientBracket(b, d);
    if q < p {
      ScaleMonotone(q + 1, p, d);
      assert false;
    }
  }

  lemma QuotientFits(numer: I128, denom: I128)
    requires numer >= 0 && denom > 0
    ensures 0 <= numer / denom <= numer
  {
    QuotientUnique(0, 0, denom);
    QuotientMonotone(0, numer, denom);
    QuotientBracket(numer, denom);
    var q := numer / denom;
    ScaleMonotone(1, denom, q);
  }

  /** Floored division is refused exactly for a negative numerator or a denominator that is not
      positive, and otherwise returns the largest `q` with `q * denom <= numer`. */
  lemma FloorDivExact(numer: I128, denom: I128)
    ensures FloorDiv(numer, denom) == Err(BadAmount) <==> numer < 0 || denom <= 0
    ensures FloorDiv(numer, denom).Ok? <==> 0 <= numer && 0 < denom
    ensures FloorDiv(numer, denom).Ok? ==>
              var q := FloorDiv(numer, denom).value; q * denom <= numer < (q + 1) * denom
  {
    if 0 <= numer && 0 < denom {
      QuotientBracket(numer, denom);
    }
  }

  /** Shares outside the domain: a negative amount is refused before a weight beyond the scale. */
  lemma ApplyBpsRefused(amount: I128, bps: U32)
    ensures amount < 0 ==> ApplyBps(amount, bps) == Err(BadAmount)
    ensures 0 <= amount && BPS_SCALE < bps ==> ApplyBps(amount, bps) == Err(PenaltyOverflow)
  {
  }

  /** A share is defined exactly when the product fits, and is then the floor: it never rounds up
      and loses less than one unit. */
  lemma ApplyBpsExact(amount: I128, bps: U32)
    requires 0 <= amount && bps <= BPS_SCALE
    ensures ApplyBps(amount, bps) ==
            if amount * bps <= I128_MAX then Ok(Share(amount, bps)) else Err(FeeOverflow)
    ensures 0 <= Share(amount, bps) <= amount
    ensures Share(amount, bps) * BPS_SCALE <= amount * bps < (Share(amount, bps) + 1) * BPS_SCALE
    ensures bps == 0 ==> Share(amount, bps) == 0
    ensures bps == BPS_SCALE ==> Share(amount, bps) == amount
  {
    assert 0 <= amount * bps <= amount * BPS_SCALE;
  }

  /** Taking a share of two amounts separately loses at most one unit against taking it once. */
  lemma ShareSplits(a: int, b: int, bps: int)
    requires 0 <= a && 0 <= b && 0 <= bps
    ensures Share(a, bps) + Share(b, bps) <= Share(a + b, bps) <= Share(a, bps) + Share(b, bps) + 1
  {
    assert (a + b) * bps == a * bps + b * bps;
  }

  /** The two legs of a settlement are non-negative and reconstruct the amount exactly; the split
      is refused exactly when the weights do not sum to the scale or the product overflows. */
  lemma SplitExact(amount: I128, funderBps: U32, recipientBps: U32)
    requires 0 <= amount
    ensures SplitAmount(amount, funderBps, recipientBps) ==
            if funderBps + recipientBps != BPS_SCALE then Err(BadSplit)
            else if amount * funderBps > I128_MAX then Err(FeeOverflow)
            else Ok((Share(amount, funderBps), amount - Share(amount, funderBps)))
    ensures funderBps <= BPS_SCALE ==> 0 <= Share(amount, funderBps) <= amount
  {
    if funderBps <= BPS_SCALE {
      ApplyBpsExact(amount, funderBps);
    }
  }

  lemma ProductBounds(amount: int, bps: int)
    ensures 0 <= amount && 0 <= bps <= BPS_SCALE ==> 0 <= amount * bps <= amount * BPS_SCALE
  {
    if 0 <= amount && 0 <= bps <= BPS_SCALE {
      ScaleMonotone(0, bps, amount);
      ScaleMonotone(bps, BPS_SCALE, amount);
    }
  }

  lemma PortionBounds(total: int, part: int, whole: int)
    requires 0 <= part <= whole && 0 < whole
    ensures 0 <= total ==> 0 <= total * part / whole <= total
  {
    if 0 <= total {
      QuotientUnique(0, 0, whole);
      QuotientUnique(total * whole, total, whole);
      ScaleMonotone(0, total, part);
      ScaleMonotone(part, whole, total);
      QuotientMonotone(0, total * part, whole);
      QuotientMonotone(total * part, total * whole, whole);
    }
  }

  /** Nothing that has vested ever un-vests. */
  lemma VestedMonotone(total: int, start: int, end: int, now: int, later: int)
    requires 0 <= total && start < end && now <= later
    ensures Vested(total, start, end, now) <= Vested(total, start, end, later)
  {
    if start < now && later < end {
      ScaleMonotone(now - start, later - start, total);
      QuotientMonotone(total * (now - start), total * (later - start), end - start);
    }
  }

  /** What the interpolant is: nothing up to the start, everything from the end on, and in between the
      largest whole amount not above the elapsed fraction of the total. */
  lemma VestedBracket(total: int, start: int, end: int, now: int)
    requires start < end
    ensures now <= start ==> Vested(total, start, end, now) == 0
    ensures end <= now ==> Vested(total, start, end, now) == total
    ensures start < now < end ==>
              var v := Vested(total, start, end, now);
              v * (end - start) <= total * (now - start) < (v + 1) * (end - start)
  {
    if start < now < end {
      QuotientBracket(total * (now - start), end - start);
    }
  }

  /** The checked vesting function returns the exact interpolant whenever it returns at all, and
      fails only on a malformed schedule or when the product leaves the i128 range. */
  lemma VestedAmountExact(total: I128, start: U64, end: U64, now: U64)
    ensures VestedAmount(total, start, end, now) ==
            if total < 0 || end <= start then Err(BadAmount)
            else if start < now < end && total * (now - start) > I128_MAX then Err(FeeOverflow)
            else Ok(Vested(total, start, end, now))
  {
    if 0 <= total && start < now < end {
      ScaleMonotone(0, total, now - start);
    }
  }
}
