/** The records the contract stores, the token ledger it moves, and the world made of both. */
module Storage {
  import opened Numeric
  import opened Results

  datatype Address = Address(key: nat)

  /** A 32-byte content hash. */
  datatype Hash = Hash(digest: nat)

  const ZERO_HASH := Hash(0)
  const DEFAULT_LOCK_WINDOW: U64 := 2_592_000
  const DEFAULT_PENALTY_BPS: U32 := 500
  const MAX_EVIDENCE: U32 := 32

  datatype EscrowState = Pending | Active | Completed | Disputed | Cancelled

  datatype MilestoneStatus = Pending | UnderReview | Released | Disputed

  datatype Milestone = Milestone(
    id: U32,
    payout: I128,
    description: Hash,
    isApproved: bool,
    completedAt: U64,
    status: MilestoneStatus,
    submittedAt: U64,
    vestingSecs: U64,
    streamed: I128,
    deadline: U64,
    latePenaltyApplied: bool)
  {
    /** Already signed off: no entrypoint may approve, slash or amend it again. */
    predicate Finished() {
      isApproved || status.Released?
    }
  }

  datatype Config = Config(
    funder: Address,
    recipient: Address,
    arbitrator: Address,
    asset: Address,
    totalAmount: I128,
    releaseThreshold: U32,
    lockSecs: U64)

  datatype Book = Book(deposited: I128, released: I128, refunded: I128) {
    /** The saturating balance the contract computes. */
    function Locked(): I128 {
      SatSubI128(SatSubI128(deposited, released), refunded)
    }

    /** The balance meant by it. */
    function Balance(): int {
      deposited - released - refunded
    }
  }

  const EMPTY_BOOK := Book(0, 0, 0)

  datatype Amendment = Amendment(
    milestoneId: U32,
    payout: I128,
    description: Hash,
    newPosition: U32,
    proposedBy: Address,
    funderApproved: bool,
    recipientApproved: bool)

  datatype DisputeRecord = DisputeRecord(
    raisedBy: Address,
    raisedAt: U64,
    funderBps: U32,
    recipientBps: U32,
    resolved: bool)

  datatype Evidence = Evidence(submitter: Address, contentHash: Hash, submittedAt: U64)

  datatype ArbitratorSet = ArbitratorSet(members: Vec<Address>, threshold: U32)

  /** Everything an initialised contract keeps in storage. */
  datatype Store = Store(
    admin: Address,
    config: Config,
    state: EscrowState,
    book: Book,
    ids: Vec<U32>,
    milestones: map<U32, Milestone>,
    proofs: map<U32, Hash>,
    approved: U32,
    lockUntil: U64,
    dispute: Option<DisputeRecord>,
    paused: bool,
    amendment: Option<Amendment>,
    evidence: Vec<Evidence>,
    arbitrators: ArbitratorSet,
    penaltyBps: U32,
    treasury: Address,
    feeBps: U32)
  {
    function GetMilestone(id: U32): Result<Milestone> {
      if id in milestones then Ok(milestones[id]) else Err(NotFound)
    }

    function SetMilestone(m: Milestone): Store {
      this.(milestones := milestones[m.id := m])
    }

    function GetDispute(): Result<DisputeRecord> {
      match dispute case None => Err(NotFound) case Some(d) => Ok(d)
    }
  }

  type Amount = x: int | 0 <= x <= I128_MAX

  /** An honest token ledger with the SEP-41 operations the contract calls.  A call the token
      would abort is a `HostTrap`. */
  datatype Token = Token(balances: map<Address, Amount>, allowances: map<(Address, Address), Amount>) {
    function Balance(who: Address): Amount {
      if who in balances then balances[who] else 0
    }

    function Allowance(owner: Address, spender: Address): Amount {
      if (owner, spender) in allowances then allowances[(owner, spender)] else 0
    }

    function Transfer(from: Address, to: Address, amount: I128): Result<Token> {
      if !(0 <= amount <= Balance(from)) then Err(HostTrap)
      else
        var debited := balances[from := Balance(from) - amount];
        var before := if to in debited then debited[to] else 0;
        if before + amount > I128_MAX then Err(HostTrap)
        else Ok(this.(balances := debited[to := before + amount]))
    }

    function TransferFrom(spender: Address, from: Address, to: Address, amount: I128): Result<Token> {
      if !(0 <= amount <= Allowance(from, spender)) then Err(HostTrap)
      else
        this.(allowances := allowances[(from, spender) := Allowance(from, spender) - amount])
        .Transfer(from, to, amount)
    }
  }

  /** The contract's own address, its storage (absent before `initialize`) and the token ledger. */
  datatype World = World(self: Address, store: Option<Store>, token: Token) {
    function Opened(): Result<Store> {
      match store case None => Err(NotInit) case Some(s) => Ok(s)
    }

    function Put(s: Store): World {
      this.(store := Some(s))
    }
  }

  /** What the host tells an invocation: the ledger time and whose authorisations are attached. */
  datatype Env = Env(now: U64, auths: set<Address>) {
    function RequireAuth(who: Address): Outcome {
      Need(who in auths, HostTrap)
    }
  }

  predicate NoDuplicates<T(==)>(xs: seq<T>) {
    forall i, j :: 0 <= i < j < |xs| ==> xs[i] != xs[j]
  }

  function NotPaused(s: Store): Outcome {
    Need(!s.paused, Paused)
  }

  /** On a book without negative entries saturation is invisible where it matters: it never hides
      an overdraft, and never alters a non-negative balance. */
  lemma SaturationHarmless(book: Book)
    requires 0 <= book.deposited && 0 <= book.released && 0 <= book.refunded
    ensures book.Locked() < 0 <==> book.Balance() < 0
    ensures 0 <= book.Balance() ==> book.Locked() == book.Balance()
  {
  }

  /** A transfer between different accounts moves exactly `amount` and touches nobody else; a
      transfer to oneself changes no balance. */
  lemma TransferExact(t: Token, from: Address, to: Address, amount: I128)
    ensures t.Transfer(from, to, amount).Ok? <==>
            0 <= amount <= t.Balance(from) && (from == to || t.Balance(to) + amount <= I128_MAX)
    ensures t.Transfer(from, to, amount).Ok? ==>
              var t' := t.Transfer(from, to, amount).value;
              t'.allowances == t.allowances
              && forall who :: t'.Balance(who) ==
                   t.Balance(who) - (if who == from then amount else 0) + (if who == to then amount else 0)
  {
  }

  /** Spending an allowance needs the allowance too, and uses up that one, and no other, by the same
      amount. */
  lemma TransferFromExact(t: Token, spender: Address, from: Address, to: Address, amount: I128)
    ensures t.TransferFrom(spender, from, to, amount).Ok? <==>
            0 <= amount <= t.Allowance(from, spender) && amount <= t.Balance(from)
            && (from == to || t.Balance(to) + amount <= I128_MAX)
    ensures t.TransferFrom(spender, from, to, amount).Ok? ==>
              var t' := t.TransferFrom(spender, from, to, amount).value;
              && (forall owner, other :: t'.Allowance(owner, other) ==
                    t.Allowance(owner, other) - (if owner == from && other == spender then amount else 0))
              && forall who :: t'.Balance(who) ==
                   t.Balance(who) - (if who == from then amount else 0) + (if who == to then amount else 0)
  {
    if 0 <= amount <= t.Allowance(from, spender) {
      var spent := t.(allowances := t.allowances[(from, spender) := t.Allowance(from, spender) - amount]);
      TransferExact(spent, from, to, amount);
      assert forall who :: spent.Balance(who) == t.Balance(who);
    }
  }
}
