/** Which runs of leave operations keep every leave year within its grant. */
module LeaveGrants {
  import opened Calendar
  import opened LeaveBook
  import opened LeaveInvariant
  import opened LeaveRuns
  import opened LeaveBudget
  import opened AccrualLaws
  import opened RebuildLaws
  import opened LeaveBacking

  // ---------------------------------------------------------------- decisions

  /** A request without an allocation on any bucket holds no row. */
  lemma NoneHeld(book: Book, r: nat)
    requires Consistent(book) && !HasShares(book, r)
    ensures NoShares(book, r)
  {
  }

  /**
    * Approving after a balance read: a request that still lacks rows then is charged to no year, as none is open, and
    * is approved as it is.
    */
  lemma ApproveRead(book: Book, r: nat, today: Date)
    requires Solvent(book) && Solvent(Balance(book, today))
    requires r < |book.requests| && book.requests[r].status.Pending? && book.requests[r].tracked
    ensures Solvent(SetStatus(ConsumeReserved(Balance(book, today), r, today), r, Approved))
  {
    hide Consistent, NoOverspend, Balance, Accrue, SyncUsage, SomeOpen, Backed, Charge, Consumed, NoShares;
    var base, read := Accrue(book, today), Balance(book, today);
    DayCharges.BalanceRequests(book, today);
    AccrueKeepsTables(book, today);
    AccrueKeeps(book, today);
    BalanceIsSync(book, today);
    if HasShares(read, r) {
      ConsumeWithin(read, r);
    } else {
      NoneHeld(read, r);
      SyncBacksIff(base);
      if SomeOpen(base) {
        BackedHolds(read, r);
      }
      SyncNothing(base);
      ScanTwice(book, today);
      PositiveDays(read);
      NothingToTake(read, r);
      BareWithin(read, r, Approved);
    }
  }

  lemma BackedHolds(book: Book, r: nat)
    requires Backed(book) && r < |book.requests| && IsHolder(book.requests[r])
    ensures !NoShares(book, r)
  {
  }

  lemma NothingToTake(book: Book, r: nat)
    requires !SomeOpen(book) && r < |book.requests| && book.requests[r].days > 0
    ensures Charge(book, r, book.requests[r].days, Consuming) == book
  {
    hide Charge;
    ChargeNothing(book, r, book.requests[r].days, Consuming);
  }

  /** A decision keeps a solvent book solvent as long as its balance read does. */
  lemma DecideWithin(book: Book, r: nat, approve: bool, hasReason: bool, attended: set<Date>, today: Date)
    requires Solvent(book) && (r < |book.requests| ==> SyncFits(Accrue(book, today)))
    ensures Solvent(DecideLeave(book, r, approve, hasReason, attended, today).book)
  {
    hide Consistent, NoOverspend, Balance, Released, ConsumeReserved, SyncFits, Accrue, NoShares, AttendedWithin;
    var read := Balance(book, today);
    if r < |book.requests| {
      ReadSolventIff(book, today);
    }
    DayCharges.BalanceRequests(book, today);
    if r < |book.requests| && book.requests[r].status.Pending? {
      if !book.requests[r].tracked {
        UntrackedNoShares(read, r);
        BareWithin(read, r, if approve then Approved else Rejected);
      } else if approve {
        ApproveRead(book, r, today);
      } else {
        ReleaseWithin(read, r, Rejected);
      }
    }
  }

  // ---------------------------------------------------------------- runs

  /** What an operation charges, when it synchronises, fits into the years open then. */
  predicate OpFits(book: Book, op: LeaveOp) {
    match op
    case ReadBalance(asOf) => SyncFits(Accrue(book, asOf))
    case Decide(r, _, _, _, today) => r < |book.requests| ==> SyncFits(Accrue(book, today))
    case AdjustDays(_, today) => SyncFits(Accrue(book, today))
    case RebuildFrom(hire, today) => SyncFits(BareYears(hire, book.requests, today))
    case _ => true
  }

  lemma PerformWithin(book: Book, op: LeaveOp)
    requires Solvent(book) && OpFits(book, op)
    ensures Solvent(Perform(book, op).book)
  {
    hide Solvent, SyncFits, Accrue, BareYears, Balance, CreateLeave, DecideLeave, CancelLeave, AdjustBalance, Rebuild, SyncUsage;
    match op
    case ReadBalance(asOf) => ReadSolventIff(book, asOf);
    case Create(input, attended, today) => CreateWithin(book, input, attended, today);
    case Decide(r, approve, hasReason, attended, today) => DecideWithin(book, r, approve, hasReason, attended, today);
    case Cancel(r) => CancelWithin(book, r);
    case AdjustDays(amount, today) =>
      ReadSolventIff(book, today);
      AdjustWithin(Balance(book, today), today, amount);
    case RebuildFrom(hire, today) =>
      SolventConsistent(book);
      RebuildIsSync(book, hire, today);
      BareSolvent(book, hire, today);
      SyncSolventIff(BareYears(hire, book.requests, today));
  }

  ghost predicate AllFit(book: Book, ops: seq<LeaveOp>) {
    forall i :: 0 <= i < |ops| ==> OpFits(Run(book, ops[..i]), ops[i])
  }

  lemma FitPrefix(book: Book, ops: seq<LeaveOp>)
    requires ops != []
    ensures AllFit(book, ops) ==> AllFit(book, ops[..|ops| - 1]) && OpFits(Run(book, ops[..|ops| - 1]), ops[|ops| - 1])
  {
    hide OpFits, Run;
    forall i | 0 <= i < |ops| - 1 && AllFit(book, ops)
      ensures OpFits(Run(book, ops[..|ops| - 1][..i]), ops[i])
    {
      assert ops[..|ops| - 1][..i] == ops[..i];
    }
  }

  /** A run keeps a solvent book solvent as long as what its syncs charge fits into the years open then. */
  lemma {:induction false} RunWithin(book: Book, ops: seq<LeaveOp>)
    requires Solvent(book) && AllFit(book, ops)
    ensures Solvent(Run(book, ops))
  {
    hide Solvent, Perform, OpFits, AllFit;
    if ops != [] {
      FitPrefix(book, ops);
      RunWithin(book, ops[..|ops| - 1]);
      PerformWithin(Run(book, ops[..|ops| - 1]), ops[|ops| - 1]);
    }
  }

  // ---------------------------------------------------------------- runs whose rebuilds are affordable

  /** A rebuild that RebuildWithinIff lets through: the live requests fit into the new open years. */
  predicate Affordable(book: Book, op: LeaveOp) {
    op.RebuildFrom? ==>
      HolderDays(book.requests, {}, |book.requests|) <= OpenCapacity(BareYears(op.hire, book.requests, op.today).buckets)
  }

  ghost predicate AllAffordable(book: Book, ops: seq<LeaveOp>) {
    forall i :: 0 <= i < |ops| ==> Affordable(Run(book, ops[..i]), ops[i])
  }

  lemma AffordablePrefix(book: Book, ops: seq<LeaveOp>)
    requires AllAffordable(book, ops) && ops != []
    ensures AllAffordable(book, ops[..|ops| - 1])
    ensures Affordable(Run(book, ops[..|ops| - 1]), ops[|ops| - 1])
  {
    hide Affordable, Run;
    forall i | 0 <= i < |ops| - 1
      ensures Affordable(Run(book, ops[..|ops| - 1][..i]), ops[i])
    {
      assert ops[..|ops| - 1][..i] == ops[..i];
    }
  }

  /** Within the budget nothing is left to be charged, and so an affordable operation fits. */
  lemma AffordableFits(book: Book, op: LeaveOp)
    requires InBudget(book) && Affordable(book, op)
    ensures OpFits(book, op)
  {
    hide Consistent, NoOverspend, Backed, Accrue, UnbackedDays, OpenCapacity, SomeOpen, HolderDays, BareYears;
    match op
    case ReadBalance(asOf) => BackedFits(book, asOf);
    case Decide(_, _, _, _, today) => BackedFits(book, today);
    case AdjustDays(_, today) => BackedFits(book, today);
    case RebuildFrom(hire, today) =>
      BareSolvent(book, hire, today);
      NoRowsUnbacked(BareYears(hire, book.requests, today));
    case _ =>
  }

  lemma BackedFits(book: Book, asOf: Date)
    requires InBudget(book)
    ensures SyncFits(Accrue(book, asOf))
  {
    hide Consistent, NoOverspend, Backed, Accrue, UnbackedDays, OpenCapacity, SomeOpen;
    AccrueKeeps(book, asOf);
    AccrueBacked(book, asOf);
    UnbackedIff(Accrue(book, asOf));
    CapacityMeaning(Accrue(book, asOf).buckets);
  }

  /** A run stays within the grants, and all live requests stay backed, as long as its rebuilds are affordable. */
  lemma {:induction false} RunAffordable(book: Book, ops: seq<LeaveOp>)
    requires InBudget(book) && AllAffordable(book, ops)
    ensures InBudget(Run(book, ops))
  {
    hide InBudget, Perform, AllAffordable, Affordable;
    if ops != [] {
      AffordablePrefix(book, ops);
      RunAffordable(book, ops[..|ops| - 1]);
      PerformAffordable(Run(book, ops[..|ops| - 1]), ops[|ops| - 1]);
    }
  }

  lemma PerformAffordable(book: Book, op: LeaveOp)
    requires InBudget(book) && Affordable(book, op)
    ensures InBudget(Perform(book, op).book)
  {
    hide Consistent, NoOverspend, Backed, Rebuild, HolderDays, OpenCapacity, BareYears, OpFits;
    if op.RebuildFrom? {
      RebuildWithinIff(book, op.hire, op.today);
    } else {
      hide Perform;
      AffordableFits(book, op);
      PerformWithin(book, op);
      PerformCovered(book, op);
    }
  }

  lemma AffordableRunFits(book: Book, ops: seq<LeaveOp>)
    requires InBudget(book) && AllAffordable(book, ops)
    ensures AllFit(book, ops)
  {
    hide InBudget, Run, OpFits, Affordable;
    forall i | 0 <= i < |ops|
      ensures OpFits(Run(book, ops[..i]), ops[i])
    {
      forall j | 0 <= j < i
        ensures Affordable(Run(book, ops[..i][..j]), ops[j])
      {
        assert ops[..i][..j] == ops[..j];
      }
      RunAffordable(book, ops[..i]);
      AffordableFits(Run(book, ops[..i]), ops[i]);
    }
  }

  /**
    * In every state that a run from an empty book reaches, what a leave year has used, what it has let expire and what
    * pending requests still hold of it never exceed its grant, as long as what the balance reads and rebuilds of the
    * run charge fits into the years open then, whatever the hire dates. When its rebuilds are affordable, that is so,
    * and every live request of a tracked type holds allocation rows, so that none needs the overdrawing fallback.
    */
  lemma NeverOverspent(hire: Date, ops: seq<LeaveOp>, b: nat, r: nat)
    requires AllFit(EmptyBook(hire), ops) || AllAffordable(EmptyBook(hire), ops)
    ensures var book := Run(EmptyBook(hire), ops);
      && (b < |book.buckets| ==>
           book.buckets[b].used + book.buckets[b].expired + SharesOf(book, Pending, b) <= book.buckets[b].granted)
      && (AllAffordable(EmptyBook(hire), ops) && r < |book.requests| && IsHolder(book.requests[r]) ==> HasShares(book, r))
  {
    hide Run, SharesUpTo, HasShares, ShareTotal, Consistent, AllAffordable, AllFit;
    EmptyWithin(hire);
    var book := Run(EmptyBook(hire), ops);
    if AllAffordable(EmptyBook(hire), ops) {
      AffordableRunFits(EmptyBook(hire), ops);
      RunAffordable(EmptyBook(hire), ops);
      if r < |book.requests| && IsHolder(book.requests[r]) {
        BackedSums(book, r);
      }
    }
    RunWithin(EmptyBook(hire), ops);
    assert b < |book.buckets| ==> WithinGrant(book, b);
  }
}
