/** The SDK's off-chain mirror of vesting (stream.ts), over unbounded integers, and its agreement
    with the contract. */
module SdkStream {
  import opened Numeric
  import opened Results
  import opened EscrowMath
  import opened Storage
  import opened PaymentLaws
  import opened Lifecycle
  import opened Invariants
  import opened EntryLaws
  import opened Runs
  import opened Progress

  datatype SdkError = BadAmountCode | BadVesting | BadPenalty

  /** A returned value or the code of the thrown error. */
  datatype Answer<+T> = Returns(value: T) | Throws(code: SdkError) {
    predicate IsFailure() {
      Throws?
    }

    function PropagateFailure<U>(): Answer<U>
      requires Throws?
    {
      Throws(code)
    }

    function Extract(): T
      requires Returns?
    {
      value
    }
  }

  datatype StreamSchedule = StreamSchedule(total: int, start: int, end: int)

  datatype AccruedBalance = AccruedBalance(vested: int, remaining: int, elapsedRatioBps: int, completed: bool)

  /** BigInt division truncates toward zero. */
  function BigDiv(a: int, b: int): int
    requires b != 0
  {
    if (a < 0) == (b < 0) then Abs(a) / Abs(b) else -(Abs(a) / Abs(b))
  }

  function Abs(x: int): nat {
    if x < 0 then -x else x
  }

  function RequireNonNegative(value: int): Answer<int> {
    if value < 0 then Throws(BadAmountCode) else Returns(value)
  }

  function VestedAmount(total: int, start: int, end: int, now: int): Answer<int> {
    var _ :- RequireNonNegative(total);
    if end <= start then Throws(BadVesting)
    else if now <= start then Returns(0)
    else if now >= end then Returns(total)
    else
      var elapsed := now - start;
      var duration := end - start;
      Returns(BigDiv(total * elapsed, duration))
  }

  function ElapsedRatioBps(start: int, end: int, now: int): Answer<int> {
    if end <= start then Throws(BadVesting)
    else if now <= start then Returns(0)
    else if now >= end then Returns(10_000)
    else Returns(BigDiv((now - start) * 10_000, end - start))
  }

  function InterpolateStream(schedule: StreamSchedule, now: int, alreadyClaimed: int, decayBps: int)
    : Answer<AccruedBalance>
  {
    if decayBps < 0 || decayBps > 10_000 then Throws(BadPenalty)
    else
      var vestedRaw :- VestedAmount(schedule.total, schedule.start, schedule.end, now);
      var decay := BigDiv(vestedRaw * decayBps, 10_000);
      var vested := vestedRaw - decay;
      var claimed :- RequireNonNegative(alreadyClaimed);
      var unlocked := if vested > claimed then vested - claimed else 0;
      var remaining := if schedule.total > claimed then schedule.total - claimed - unlocked else 0;
      var ratio :- ElapsedRatioBps(schedule.start, schedule.end, now);
      Returns(AccruedBalance(unlocked, remaining, ratio, now >= schedule.end))
  }

  // ----- Laws -----

  lemma SdkVestedExact(total: int, start: int, end: int, now: int)
    ensures VestedAmount(total, start, end, now) ==
            if total < 0 then Throws(BadAmountCode)
            else if end <= start then Throws(BadVesting)
            else Returns(Vested(total, start, end, now))
  {
    if 0 <= total && start < now < end {
      ScaleMonotone(0, total, now - start);
    }
  }

  /** For every i128 total and all u64 times the SDK computes what the contract computes.  It throws
      exactly when the contract rejects the schedule, and the two differ only where the contract's
      i128 product overflows. */
  lemma SdkRefinesChain(total: I128, start: U64, end: U64, now: U64)
    ensures var chain := EscrowMath.VestedAmount(total, start, end, now);
            var sdk := VestedAmount(total, start, end, now);
            && (chain.Ok? ==> sdk == Returns(chain.value))
            && (sdk.Throws? <==> chain == Err(BadAmount))
            && (chain.Err? && sdk.Returns? <==>
                  0 <= total && start < now < end && total * (now - start) > I128_MAX)
  {
    VestedAmountExact(total, start, end, now);
    SdkVestedExact(total, start, end, now);
  }

  /** The elapsed ratio is refused exactly for a schedule that does not end after its start.  It is 0 up
      to the start, runs through the floored basis points of the elapsed fraction, and reaches 10_000
      exactly at the end. */
  lemma ElapsedRatioExact(start: int, end: int, now: int)
    ensures end <= start <==> ElapsedRatioBps(start, end, now) == Throws(BadVesting)
    ensures start < end ==>
              var r := ElapsedRatioBps(start, end, now);
              && r.Returns? && 0 <= r.value <= 10_000 && (r.value == 10_000 <==> end <= now)
              && (now <= start ==> r.value == 0)
              && (start < now < end ==>
                    r.value * (end - start) <= (now - start) * 10_000 < (r.value + 1) * (end - start))
  {
    if start < now < end {
      var part, whole := now - start, end - start;
      PortionBounds(10_000, part, whole);
      QuotientBracket(part * 10_000, whole);
      assert part * 10_000 / whole != 10_000;
    }
  }

  /** Whatever is asked, the answer splits what is left of the total after earlier claims into what is
      claimable now and what remains, and nothing is left once the claims reach the total; decay never
      increases what is claimable.  The query is refused exactly for a decay out of range, a negative
      total or claim, or a schedule that does not end after its start. */
  lemma InterpolationConserves(schedule: StreamSchedule, now: int, claimed: int, decayBps: int)
    ensures var a := InterpolateStream(schedule, now, claimed, decayBps);
            var plain := InterpolateStream(schedule, now, claimed, 0);
            && (a.Returns? <==>
                  0 <= decayBps <= 10_000 && 0 <= schedule.total && schedule.start < schedule.end && 0 <= claimed)
            && (a.Returns? ==>
                  && plain.Returns?
                  && a.value.vested + a.value.remaining ==
                     (if claimed < schedule.total then schedule.total - claimed else 0)
                  && 0 <= a.value.vested <= plain.value.vested && 0 <= a.value.remaining
                  && (a.value.completed <==> schedule.end <= now))
  {
    SdkVestedExact(schedule.total, schedule.start, schedule.end, now);
    if 0 <= decayBps <= 10_000 && 0 <= schedule.total && schedule.start < schedule.end {
      ElapsedRatioExact(schedule.start, schedule.end, now);
      var raw := Vested(schedule.total, schedule.start, schedule.end, now);
      ProductBounds(raw, decayBps);
      assert BigDiv(raw * decayBps, 10_000) == Share(raw, decayBps);
      assert BigDiv(raw * 0, 10_000) == 0;
    }
  }

  /** Which error a refused query throws, in the order of the checks. */
  lemma InterpolationRefused(schedule: StreamSchedule, now: int, claimed: int, decayBps: int)
    ensures var a := InterpolateStream(schedule, now, claimed, decayBps);
            && (a == Throws(BadPenalty) <==> decayBps < 0 || 10_000 < decayBps)
            && (a == Throws(BadAmountCode) <==>
                  0 <= decayBps <= 10_000
                  && (schedule.total < 0 || (schedule.start < schedule.end && claimed < 0)))
            && (a == Throws(BadVesting) <==>
                  0 <= decayBps <= 10_000 && 0 <= schedule.total && schedule.end <= schedule.start)
  {
  }

  /** What a query answers, in numbers: with `raw` vested, `decay` is its floored share of `decayBps`;
      claimable is what `raw - decay` exceeds the claims by, and the ratio is the elapsed one. */
  lemma InterpolationExact(schedule: StreamSchedule, now: int, claimed: int, decayBps: int, raw: int, decay: int)
    requires 0 <= schedule.total && schedule.start < schedule.end && 0 <= claimed && 0 <= decayBps <= 10_000
    requires VestedAmount(schedule.total, schedule.start, schedule.end, now) == Returns(raw)
    requires decay * 10_000 <= raw * decayBps < (decay + 1) * 10_000
    ensures var a := InterpolateStream(schedule, now, claimed, decayBps);
            && a.Returns?
            && a.value.vested == (if claimed < raw - decay then raw - decay - claimed else 0)
            && a.value.remaining ==
               (if claimed < schedule.total then schedule.total - claimed - a.value.vested else 0)
            && ElapsedRatioBps(schedule.start, schedule.end, now) == Returns(a.value.elapsedRatioBps)
            && (a.value.completed <==> schedule.end <= now)
  {
    SdkVestedExact(schedule.total, schedule.start, schedule.end, now);
    ElapsedRatioExact(schedule.start, schedule.end, now);
    ProductBounds(raw, decayBps);
    QuotientUnique(raw * decayBps, decay, 10_000);
  }

  /** The SDK's vested amount is bracketed like the contract's. */
  lemma SdkVestedBracket(total: int, start: int, end: int, now: int)
    requires 0 <= total && start < end
    ensures var v := VestedAmount(total, start, end, now);
            && v.Returns? && (now <= start ==> v.value == 0) && (end <= now ==> v.value == total)
            && (start < now < end ==> v.value * (end - start) <= total * (now - start) < (v.value + 1) * (end - start))
  {
    SdkVestedExact(total, start, end, now);
    VestedBracket(total, start, end, now);
  }

  /** What the SDK shows as claimable is what the contract's next claim pays: for an approved stream in
      a reachable escrow, a claim succeeds if and only if the SDK shows something claimable, nobody
      blocks it, and the chain can do the arithmetic and the payment; it then moves exactly the SDK's
      `vested`. */
  lemma SdkPredictsClaim(w: World, now: U64, env: Env, id: U32)
    requires Reachable(w, now) && now <= env.now && w.store.Some? && Streaming(w.store.value, id)
    ensures var s := w.store.value; var m := s.milestones[id];
            var shown := InterpolateStream(
              StreamSchedule(m.payout, m.completedAt, m.completedAt + m.vestingSecs), env.now, m.streamed, 0);
            var r := Exec(w, env, Stream(id));
            && shown.Returns? && shown.value.vested == Claimable(m, env.now)
            && m.streamed + shown.value.vested + shown.value.remaining == m.payout
            && (r.Ok? <==>
                  && 0 < shown.value.vested
                  && !s.paused && s.config.recipient in env.auths
                  && (s.state.Active? || s.state.Completed?) && !Settled(s)
                  && VestingFits(m, env.now) && GoesThrough(w, s, shown.value.vested))
            && (r.Ok? ==> r.value.store.Some? && id in r.value.store.value.milestones
                          && r.value.store.value.milestones[id].streamed == m.streamed + shown.value.vested
                          && r.value.store.value.book.released == s.book.released + shown.value.vested)
  {
    hide Reachable, Inv, Exec, VestedAmount, ElapsedRatioBps, Vested, Moved, VestingFits, GoesThrough, Settled;
    ReachableInv(w, now);
    InvReadyFor(w, now, id);
    var m := w.store.value.milestones[id];
    ClaimBounds(m, now, env.now);
    SdkVestedExact(m.payout, m.completedAt, m.completedAt + m.vestingSecs, env.now);
    ElapsedRatioExact(m.completedAt, m.completedAt + m.vestingSecs, env.now);
    StreamFacts(w, now, env, id);
    assert Exec(w, env, Stream(id)).Ok? ==> ClaimFacts(w, env, id);
  }

  predicate ClaimFacts(w: World, env: Env, id: U32) {
    && Exec(w, env, Stream(id)).Ok? && w.store.Some? && Streaming(w.store.value, id)
    && (var s, r := w.store.value, Exec(w, env, Stream(id)).value;
        var gross := Claimable(s.milestones[id], env.now);
        && r.store.Some? && id in r.store.value.milestones && 0 < gross
        && r.store.value.milestones[id].streamed == s.milestones[id].streamed + gross
        && r.store.value.book.released == s.book.released + gross)
  }

  lemma StreamFacts(w: World, now: U64, env: Env, id: U32)
    requires ReadyFor(w, now, id) && now <= env.now && Streaming(w.store.value, id)
    ensures var s := w.store.value; var gross := Claimable(s.milestones[id], env.now);
            Exec(w, env, Stream(id)).Ok? <==>
              && 0 < gross
              && !s.paused && s.config.recipient in env.auths && (s.state.Active? || s.state.Completed?) && !Settled(s)
              && VestingFits(s.milestones[id], env.now) && GoesThrough(w, s, gross)
    ensures Exec(w, env, Stream(id)).Ok? ==> ClaimFacts(w, env, id)
  {
    hide Vested, Moved, VestingFits, Room, Share;
    StreamExact(w, now, env, id);
  }
}
