/** The chain of closed fiscal years: what closing, revising, approving and deleting a year
    do to the table, and what every run of those commands keeps
    (crates/griffe-core/src/fiscal_year.rs, crates/griffe-core/src/accounting.rs).

    The table is the sequence of its rows by date. Two periods never overlap, so
    `ends_on < d` selects a prefix. */
module FiscalYears {
  import opened Basics
  import opened Money
  import opened Tax
  import opened Calendar

  datatype Result<+T> = Ok(value: T) | Err(error: Error)

  datatype Error =
    | InvalidPeriod | PeriodTooLong | PeriodNotEnded | ProfileMissing | Overlaps
    | OpeningBalanceMismatch
    | CarryBackWithoutDeficit | CarryBackWithoutPriorYear | CarryBackNoImputableProfit
    | NegativeAmount | ExceedsDistributable | ReserveExceedsCap
    | NotFound | AlreadyApproved | HasSuccessor | Conflict
    | ApprovalBeforeEnd | ApprovalInFuture | FiscalYearsExist

  const LEGAL_RESERVE_CAP_BPS: nat := 1_000

  // -------------------------------------------------------------------------
  // The result of a year
  // -------------------------------------------------------------------------

  datatype AccountingResult = AccountingResult(
    resultBeforeTax: Cents,
    nonDeductible: Cents,
    priorLossesAvailable: Cents,
    lossesImputed: Cents,
    taxableResult: Cents,
    corporateTax: Cents,
    carriedBack: Cents,
    carryBackCredit: Cents,
    netResult: Cents)
  {
    function Deficit(): Cents { Max(-taxableResult, 0) }

    /** What the year leaves to later years, as its own statement reports it. */
    function LossesCarriedForward(): Cents { priorLossesAvailable - lossesImputed + Deficit() - carriedBack }

    function WithCarryBack(cb: CarryBackResult): AccountingResult {
      this.(carriedBack := cb.imputed, carryBackCredit := cb.credit,
            netResult := resultBeforeTax - corporateTax + cb.credit)
    }
  }

  function ComputeResult(resultBeforeTax: Cents, priorLosses: Cents, nonDeductible: Cents): AccountingResult {
    var addBack := Max(nonDeductible, 0);
    var imputation := ImputePriorLosses(resultBeforeTax + addBack, priorLosses);
    var tax := CorporateIncomeTax(imputation.taxableResult);
    AccountingResult(resultBeforeTax, addBack, Max(priorLosses, 0), imputation.imputed,
                     imputation.taxableResult, tax, 0, 0, resultBeforeTax - tax)
  }

  // -------------------------------------------------------------------------
  // The table
  // -------------------------------------------------------------------------

  datatype Row = Row(
    id: int,
    startsOn: Date,
    endsOn: Date,
    resultBeforeTax: Cents,
    nonDeductible: Cents,
    lossesImputed: Cents,
    corporateTax: Cents,
    carriedBack: Cents,
    carryBackCredit: Cents,
    netResult: Cents,
    legalReserve: Cents,
    dividends: Cents,
    retainedEarnings: Cents,
    approvedOn: Option<Date>,
    revision: int)
  {
    function TaxableResult(): Cents { resultBeforeTax + nonDeductible - lossesImputed }

    function Deficit(): Cents { Max(-TaxableResult(), 0) }
  }

  /** What the next year's opening stock counts of a year. */
  function ChainTerm(r: Row): Cents { Max(0, -r.resultBeforeTax) - r.carriedBack - r.lossesImputed }

  /** What reading a year back counts of it. */
  function ReadTerm(r: Row): Cents {
    Max(0, -(r.resultBeforeTax + r.nonDeductible)) - r.carriedBack - r.lossesImputed
  }

  function ReserveOf(r: Row): Cents { r.legalReserve }

  datatype Opening = Opening(opensOn: Date, retained: Cents, legalReserve: Cents, taxLosses: nat)

  datatype Profile = Profile(shareCapital: Option<Cents>)

  datatype Books = Books(profile: Option<Profile>, opening: Option<Opening>, rows: seq<Row>)
  {
    function OpeningLosses(): nat { if opening.Some? then opening.value.taxLosses else 0 }

    function OpeningRetained(): Cents { if opening.Some? then opening.value.retained else 0 }

    function OpeningReserve(): Cents { if opening.Some? then opening.value.legalReserve else 0 }

    /** Loss stock after the first `n` years, as a later year inherits it. */
    function ChainStock(n: nat): Cents
      requires n <= |rows|
    {
      OpeningLosses() + SumOf(ChainTerm, rows[..n])
    }

    /** Loss stock after the first `n` years, as a year read back reports it. */
    function ReadStock(n: nat): Cents
      requires n <= |rows|
    {
      OpeningLosses() + SumOf(ReadTerm, rows[..n])
    }

    function Retained(n: nat): Cents
      requires n <= |rows|
    {
      if n == 0 then OpeningRetained() else rows[n - 1].retainedEarnings
    }

    function Reserve(n: nat): Cents
      requires n <= |rows|
    {
      OpeningReserve() + SumOf(ReserveOf, rows[..n])
    }
  }

  function SumOf(f: Row -> Cents, rows: seq<Row>): Cents {
    if rows == [] then 0 else SumOf(f, rows[..|rows| - 1]) + f(rows[|rows| - 1])
  }

  /** Number of years that end before `date`. */
  function Position(rows: seq<Row>, date: Date): (n: nat)
    ensures n <= |rows|
    ensures forall i :: 0 <= i < n ==> Before(rows[i].endsOn, date)
    ensures n < |rows| ==> !Before(rows[n].endsOn, date)
  {
    if rows == [] || !Before(rows[0].endsOn, date) then 0 else 1 + Position(rows[1..], date)
  }

  predicate IsSpaced(start: Row -> int, end: Row -> int, rows: seq<Row>) {
    && (forall i :: 0 <= i < |rows| ==> start(rows[i]) < end(rows[i]))
    && (forall i, j :: 0 <= i < j < |rows| ==> end(rows[i]) < start(rows[j]))
  }

  function StartKey(r: Row): int { Key(r.startsOn) }

  function EndKey(r: Row): int { Key(r.endsOn) }

  predicate Sorted(rows: seq<Row>) { IsSpaced(StartKey, EndKey, rows) }

  // -------------------------------------------------------------------------
  // Commands
  // -------------------------------------------------------------------------

  datatype Command =
    | Close(newId: int, startsOn: Date, endsOn: Date, legalReserve: Cents, dividends: Cents,
            carryBack: bool, today: Option<Date>, nonDeductible: Cents,
            /** read on the ledger of the period */
            resultBeforeTax: Cents)
    | UpdateAppropriation(id: int, revision: int, legalReserve: Cents, dividends: Cents)
    | Approve(id: int, revision: int, approvedOn: Date, today: Option<Date>)
    | Delete(id: int, revision: int)
    | SetProfile(newProfile: Profile)
    /** recorded, replaced or taken back */
    | SetOpening(newOpening: Option<Opening>)

  /** Appropriation checked against the distributable amount and the reserve cap. */
  function ValidateAppropriation(profile: Profile, netResult: Cents, priorRetained: Cents,
                                 priorReserve: Cents, legalReserve: Cents, dividends: Cents): Result<Cents>
  {
    if legalReserve < 0 || dividends < 0 then Err(NegativeAmount)
    else if legalReserve + dividends > Max(netResult + priorRetained, 0) then Err(ExceedsDistributable)
    else if profile.shareCapital.Some?
         && priorReserve + legalReserve > ApplyRateBps(profile.shareCapital.value, LEGAL_RESERVE_CAP_BPS)
    then Err(ReserveExceedsCap)
    else Ok(priorRetained + netResult - legalReserve - dividends)
  }

  function CarryBackOf(books: Books, n: nat, startsOn: Date, result: AccountingResult): Result<CarryBackResult>
    requires n <= |books.rows|
  {
    if result.Deficit() == 0 then Err(CarryBackWithoutDeficit)
    else if n == 0 || books.rows[n - 1].endsOn != PreviousDay(startsOn) then Err(CarryBackWithoutPriorYear)
    else
      var previous := books.rows[n - 1];
      var carried := CarryBack(result.Deficit(), CarryBackBase(previous.TaxableResult(), previous.dividends));
      if carried.imputed == 0 then Err(CarryBackNoImputableProfit) else Ok(carried)
  }

  function OverlapsSome(rows: seq<Row>, startsOn: Date, endsOn: Date): bool {
    exists i :: 0 <= i < |rows| && AtMost(rows[i].startsOn, endsOn) && AtMost(startsOn, rows[i].endsOn)
  }

  /** The result a closing freezes: losses imputed, then the carry-back option. */
  function ClosingResult(books: Books, n: nat, c: Command): Result<AccountingResult>
    requires c.Close? && n <= |books.rows|
  {
    var result := ComputeResult(c.resultBeforeTax, books.ChainStock(n), c.nonDeductible);
    if c.carryBack then
      var cb := CarryBackOf(books, n, c.startsOn, result);
      if cb.Err? then Err(cb.error) else Ok(result.WithCarryBack(cb.value))
    else Ok(result)
  }

  /** The row a closing inserts, or why it is refused. */
  function ClosedRow(books: Books, c: Command): Result<Row>
    requires c.Close?
  {
    var n := Position(books.rows, c.startsOn);
    if !Before(c.startsOn, c.endsOn) then Err(InvalidPeriod)
    else if AtMost(AddMonths(c.startsOn, 24), c.endsOn) then Err(PeriodTooLong)
    else if c.today.Some? && Before(c.today.value, c.endsOn) then Err(PeriodNotEnded)
    else if books.profile.None? then Err(ProfileMissing)
    else if OverlapsSome(books.rows, c.startsOn, c.endsOn) then Err(Overlaps)
    else if n == 0 && books.opening.Some? && books.opening.value.opensOn != c.startsOn
    then Err(OpeningBalanceMismatch)
    else
      var result := ClosingResult(books, n, c);
      if result.Err? then Err(result.error)
      else
        var r := result.value;
        var retained := ValidateAppropriation(books.profile.value, r.netResult, books.Retained(n),
                                              books.Reserve(n), c.legalReserve, c.dividends);
        if retained.Err? then Err(retained.error)
        else Ok(Row(c.newId, c.startsOn, c.endsOn, r.resultBeforeTax, c.nonDeductible, r.lossesImputed,
                    r.corporateTax, r.carriedBack, r.carryBackCredit, r.netResult,
                    c.legalReserve, c.dividends, retained.value, None, 1))
  }

  function Find(rows: seq<Row>, id: int): (i: Option<nat>)
    ensures i.Some? ==> i.value < |rows| && rows[i.value].id == id
  {
    if rows == [] then None
    else if rows[|rows| - 1].id == id then Some(|rows| - 1)
    else Find(rows[..|rows| - 1], id)
  }

  /** A year is edited only while unapproved and without a later year. */
  function RequireEditable(rows: seq<Row>, i: nat): Option<Error>
    requires i < |rows|
  {
    if rows[i].approvedOn.Some? then Some(AlreadyApproved)
    else if exists j :: 0 <= j < |rows| && Before(rows[i].endsOn, rows[j].endsOn) then Some(HasSuccessor)
    else None
  }

  function UpdatedRow(books: Books, i: nat, c: Command): Result<Row>
    requires c.UpdateAppropriation? && i < |books.rows|
  {
    var row := books.rows[i];
    var n := Position(books.rows, row.startsOn);
    var refusal := RequireEditable(books.rows, i);
    if refusal.Some? then Err(refusal.value)
    else if books.profile.None? then Err(ProfileMissing)
    else if n == 0 && books.opening.Some? && books.opening.value.opensOn != row.startsOn
    then Err(OpeningBalanceMismatch)
    else
      var retained := ValidateAppropriation(books.profile.value, row.netResult, books.Retained(n),
                                            books.Reserve(n), c.legalReserve, c.dividends);
      if retained.Err? then Err(retained.error)
      else if row.revision != c.revision then Err(Conflict)
      else Ok(row.(legalReserve := c.legalReserve, dividends := c.dividends,
                   retainedEarnings := retained.value, revision := c.revision + 1))
  }

  /** The table after one command; a refusal leaves it as it was. */
  function Step(books: Books, c: Command): Result<seq<Row>> {
    var rows := books.rows;
    if c.Close? then
      var row := ClosedRow(books, c);
      var n := Position(rows, c.startsOn);
      if row.Err? then Err(row.error) else Ok(rows[..n] + [row.value] + rows[n..])
    else if c.SetProfile? then Ok(rows)
    else if c.SetOpening? then if rows == [] then Ok(rows) else Err(FiscalYearsExist)
    else
      var found := Find(rows, c.id);
      if found.None? then Err(NotFound)
      else
        var i := found.value;
        match c
        case UpdateAppropriation(_, _, _, _) =>
          var row := UpdatedRow(books, i, c);
          if row.Err? then Err(row.error) else Ok(rows[i := row.value])
        case Approve(_, revision, approvedOn, today) =>
          if rows[i].approvedOn.Some? then Err(AlreadyApproved)
          else if Before(approvedOn, rows[i].endsOn) then Err(ApprovalBeforeEnd)
          else if today.Some? && Before(today.value, approvedOn) then Err(ApprovalInFuture)
          else if rows[i].revision != revision then Err(Conflict)
          else Ok(rows[i := rows[i].(approvedOn := Some(approvedOn), revision := revision + 1)])
        case Delete(_, revision) =>
          var refusal := RequireEditable(rows, i);
          if refusal.Some? then Err(refusal.value)
          else if rows[i].revision != revision then Err(Conflict)
          else Ok(rows[..i] + rows[i + 1..])
  }

  function Apply(books: Books, c: Command): Books {
    var rows := Step(books, c);
    if rows.Err? then books
    else
      match c
      case SetProfile(profile) => books.(profile := Some(profile))
      case SetOpening(opening) => books.(opening := opening)
      case _ => books.(rows := rows.value)
  }

  function Run(books: Books, commands: seq<Command>): Books
    decreases |commands|
  {
    if commands == [] then books else Run(Apply(books, commands[0]), commands[1..])
  }

  // -------------------------------------------------------------------------
  // What every run keeps
  // -------------------------------------------------------------------------

  function AddedBack(row: Row): Cents { row.resultBeforeTax + Max(row.nonDeductible, 0) }

  /** The row's losses imputed and tax are those of its result after add-back. */
  predicate FiguresAreFrozen(row: Row) {
    && 0 <= row.lossesImputed <= Max(AddedBack(row), 0)
    && (AddedBack(row) > 100_000_000 ==> 2 * row.lossesImputed <= AddedBack(row) + 100_000_001)
    && row.corporateTax == CorporateIncomeTax(AddedBack(row) - row.lossesImputed)
    && row.netResult == row.resultBeforeTax - row.corporateTax + row.carryBackCredit
    && row.dividends >= 0
  }

  predicate HasNoCarryBack(row: Row) { row.carriedBack == 0 && row.carryBackCredit == 0 }

  /** A carry-back is the one the row's deficit had on the year ending the day before,
      as that year stands now. */
  predicate CarryBackIsFrozen(previous: Option<Row>, row: Row) {
    HasNoCarryBack(row) ||
    (&& previous.Some? && previous.value.endsOn == PreviousDay(row.startsOn)
     && CarryBackResult(row.carriedBack, row.carryBackCredit)
        == CarryBack(Max(-AddedBack(row), 0), CarryBackBase(previous.value.TaxableResult(), previous.value.dividends)))
  }

  predicate IsFrozen(previous: Option<Row>, row: Row) {
    FiguresAreFrozen(row) && CarryBackIsFrozen(previous, row)
  }

  function Previous(rows: seq<Row>, i: nat): Option<Row>
    requires i <= |rows|
  {
    if i == 0 then None else Some(rows[i - 1])
  }

  ghost predicate AllPairs(p: (Option<Row>, Row) -> bool, rows: seq<Row>) {
    forall i :: 0 <= i < |rows| ==> p(Previous(rows, i), rows[i])
  }

  ghost predicate Valid(books: Books) {
    Sorted(books.rows) && AllPairs(IsFrozen, books.rows)
  }

  lemma InsertKeepsPairs(p: (Option<Row>, Row) -> bool, rows: seq<Row>, n: nat, row: Row)
    requires n <= |rows| && AllPairs(p, rows) && p(Previous(rows, n), row)
    requires n < |rows| ==> p(Some(row), rows[n])
    ensures AllPairs(p, rows[..n] + [row] + rows[n..])
  {
    var rows' := rows[..n] + [row] + rows[n..];
    forall i | 0 <= i < |rows'|
      ensures p(Previous(rows', i), rows'[i])
    {
      if i > n {
        assert rows'[i] == rows[i - 1];
        assert p(Previous(rows, i - 1), rows[i - 1]);
      } else if i < n {
        assert p(Previous(rows, i), rows[i]);
      }
    }
  }

  lemma ReplaceKeepsPairs(p: (Option<Row>, Row) -> bool, rows: seq<Row>, n: nat, row: Row)
    requires n < |rows| && AllPairs(p, rows) && p(Previous(rows, n), row)
    requires n + 1 < |rows| ==> p(Some(row), rows[n + 1])
    ensures AllPairs(p, rows[n := row])
  {
    var rows' := rows[n := row];
    forall i | 0 <= i < |rows'|
      ensures p(Previous(rows', i), rows'[i])
    {
      assert p(Previous(rows, i), rows[i]);
    }
  }

  lemma PrefixKeepsPairs(p: (Option<Row>, Row) -> bool, rows: seq<Row>, n: nat)
    requires n <= |rows| && AllPairs(p, rows)
    ensures AllPairs(p, rows[..n])
  {
    forall i | 0 <= i < n
      ensures p(Previous(rows[..n], i), rows[..n][i])
    {
      assert p(Previous(rows, i), rows[i]);
    }
  }

  lemma InsertKeepsSpaced(start: Row -> int, end: Row -> int, rows: seq<Row>, n: nat, row: Row)
    requires IsSpaced(start, end, rows) && n <= |rows| && start(row) < end(row)
    requires n > 0 ==> end(rows[n - 1]) < start(row)
    requires n < |rows| ==> end(row) < start(rows[n])
    ensures IsSpaced(start, end, rows[..n] + [row] + rows[n..])
  {
    var more := rows[..n] + [row] + rows[n..];
    forall i, j | 0 <= i < j < |more|
      ensures end(more[i]) < start(more[j])
    {
      PairIsSpaced(start, end, rows, n, row, i, j);
    }
  }

  lemma PairIsSpaced(start: Row -> int, end: Row -> int, rows: seq<Row>, n: nat, row: Row, i: nat, j: nat)
    requires IsSpaced(start, end, rows) && n <= |rows| && start(row) < end(row)
    requires n > 0 ==> end(rows[n - 1]) < start(row)
    requires n < |rows| ==> end(row) < start(rows[n])
    requires i < j <= |rows|
    ensures var more := rows[..n] + [row] + rows[n..]; end(more[i]) < start(more[j])
  {
    if j == n {
      assert i < n - 1 ==> end(rows[i]) < start(rows[n - 1]) < end(rows[n - 1]);
    } else if i == n {
      assert n < j - 1 ==> start(rows[n]) < end(rows[n]) < start(rows[j - 1]);
    }
  }

  lemma InsertKeepsSorted(rows: seq<Row>, row: Row)
    requires Sorted(rows) && Before(row.startsOn, row.endsOn)
    requires !OverlapsSome(rows, row.startsOn, row.endsOn)
    ensures var n := Position(rows, row.startsOn);
            && Sorted(rows[..n] + [row] + rows[n..])
            && (n < |rows| ==> Before(row.endsOn, rows[n].startsOn))
  {
    var n := Position(rows, row.startsOn);
    assert n < |rows| ==> Before(row.endsOn, rows[n].startsOn);
    InsertKeepsSpaced(StartKey, EndKey, rows, n, row);
  }

  lemma CeilingIsWithinTheProfit(profit: Cents)
    ensures 0 <= LossCarryForwardCeiling(profit) <= Max(profit, 0)
  {
    CeilingRisesNoFaster(Min(profit, 0), profit);
  }

  lemma ComputedResult(resultBeforeTax: Cents, priorLosses: Cents, nonDeductible: Cents)
    ensures var r, base := ComputeResult(resultBeforeTax, priorLosses, nonDeductible),
                           resultBeforeTax + Max(nonDeductible, 0);
            && 0 <= r.lossesImputed <= Max(base, 0)
            && (base > 100_000_000 ==> 2 * r.lossesImputed <= base + 100_000_001)
            && r.lossesImputed <= Max(priorLosses, 0)
            && r.taxableResult == base - r.lossesImputed
            && r.corporateTax == CorporateIncomeTax(base - r.lossesImputed)
            && r.Deficit() == Max(-base, 0)
  {
    ImputationIsCappedExactly(resultBeforeTax + Max(nonDeductible, 0), priorLosses);
    hide ImputePriorLosses;
  }

  /** An accepted closing freezes its own computation. */
  lemma ClosedRowIsFrozen(books: Books, c: Command)
    requires c.Close? && ClosedRow(books, c).Ok?
    ensures var n, row := Position(books.rows, c.startsOn), ClosedRow(books, c).value;
            && row.startsOn == c.startsOn && Before(row.startsOn, row.endsOn)
            && !OverlapsSome(books.rows, row.startsOn, row.endsOn)
            && IsFrozen(Previous(books.rows, n), row)
            && row.lossesImputed <= Max(books.ChainStock(n), 0)
            && 0 <= row.carriedBack <= Max(-AddedBack(row), 0)
  {
    hide CorporateIncomeTax, CarryBack, ApplyRateBps, ImputePriorLosses, Key, AddMonths;
    var n, row := Position(books.rows, c.startsOn), ClosedRow(books, c).value;
    ComputedResult(c.resultBeforeTax, books.ChainStock(n), c.nonDeductible);
    if c.carryBack {
      var previous := books.rows[n - 1];
      CarryBackImputesTheLesser(Max(-AddedBack(row), 0), CarryBackBase(previous.TaxableResult(), previous.dividends));
    }
  }

  lemma NothingFitsBeforeACarryBack(previous: Option<Row>, row: Row, next: Row)
    requires IsFrozen(previous, next)
    requires previous.Some? ==> Before(previous.value.endsOn, row.startsOn)
    requires Before(row.startsOn, row.endsOn) && Before(row.endsOn, next.startsOn)
    ensures IsFrozen(Some(row), next)
  {
    EveIsAdjacent(next.startsOn, row.endsOn);
    assert HasNoCarryBack(next);
  }

  lemma InsertKeepsValid(books: Books, row: Row)
    requires Valid(books) && Before(row.startsOn, row.endsOn)
    requires !OverlapsSome(books.rows, row.startsOn, row.endsOn)
    requires IsFrozen(Previous(books.rows, Position(books.rows, row.startsOn)), row)
    ensures var n := Position(books.rows, row.startsOn);
            Valid(books.(rows := books.rows[..n] + [row] + books.rows[n..]))
  {
    var n, rows := Position(books.rows, row.startsOn), books.rows;
    InsertKeepsSorted(rows, row);
    if n < |rows| {
      assert IsFrozen(Previous(rows, n), rows[n]);
      NothingFitsBeforeACarryBack(Previous(rows, n), row, rows[n]);
    }
    InsertKeepsPairs(IsFrozen, rows, n, row);
  }

  lemma CloseKeepsValid(books: Books, c: Command)
    requires c.Close? && Valid(books) && ClosedRow(books, c).Ok?
    ensures Valid(Apply(books, c))
  {
    hide FiguresAreFrozen, CarryBackIsFrozen, Sorted, AllPairs, Position, Key;
    ClosedRowIsFrozen(books, c);
    hide ClosedRow;
    InsertKeepsValid(books, ClosedRow(books, c).value);
  }

  lemma SuccessorExactly(rows: seq<Row>, i: nat)
    requires Sorted(rows) && i < |rows|
    ensures (exists j :: 0 <= j < |rows| && Before(rows[i].endsOn, rows[j].endsOn)) <==> i < |rows| - 1
  {
    if i < |rows| - 1 {
      assert EndKey(rows[i]) < StartKey(rows[i + 1]) < EndKey(rows[i + 1]);
      assert Before(rows[i].endsOn, rows[i + 1].endsOn);
    }
  }

  lemma {:induction false} PositionOfARow(rows: seq<Row>, i: nat)
    requires Sorted(rows) && i < |rows|
    ensures Position(rows, rows[i].startsOn) == i
  {
    if i > 0 {
      assert EndKey(rows[0]) < StartKey(rows[i]);
      PositionOfARow(rows[1..], i - 1);
    }
  }

  lemma EditableIsLast(rows: seq<Row>, i: nat)
    requires Sorted(rows) && i < |rows| && RequireEditable(rows, i) == None
    ensures i == |rows| - 1
    ensures Position(rows, rows[i].startsOn) == i
  {
    SuccessorExactly(rows, i);
    PositionOfARow(rows, i);
  }

  lemma RestampedRowsStaySorted(rows: seq<Row>, i: nat, row: Row)
    requires Sorted(rows) && i < |rows| && row.startsOn == rows[i].startsOn && row.endsOn == rows[i].endsOn
    ensures Sorted(rows[i := row])
  {
  }

  lemma ReappropriationStaysFrozen(previous: Option<Row>, row: Row, reserve: Cents, dividends: Cents,
                                   retained: Cents, revision: int)
    requires IsFrozen(previous, row) && dividends >= 0
    ensures IsFrozen(previous, row.(legalReserve := reserve, dividends := dividends,
                                    retainedEarnings := retained, revision := revision))
  {
    hide CorporateIncomeTax, CarryBack;
  }

  lemma UpdateKeepsValid(books: Books, i: nat, c: Command)
    requires c.UpdateAppropriation? && Valid(books) && i < |books.rows| && UpdatedRow(books, i, c).Ok?
    ensures Valid(books.(rows := books.rows[i := UpdatedRow(books, i, c).value]))
  {
    hide IsFrozen, Key, ApplyRateBps;
    EditableIsLast(books.rows, i);
    var row, before := UpdatedRow(books, i, c).value, books.rows[i];
    assert c.dividends >= 0;
    hide UpdatedRow, RequireEditable;
    ReappropriationStaysFrozen(Previous(books.rows, i), before, row.legalReserve, row.dividends,
                               row.retainedEarnings, row.revision);
    RestampedRowsStaySorted(books.rows, i, row);
    ReplaceKeepsPairs(IsFrozen, books.rows, i, row);
  }

  lemma ApprovalKeepsValid(books: Books, i: nat, on: Option<Date>, revision: int)
    requires Valid(books) && i < |books.rows|
    ensures Valid(books.(rows := books.rows[i := books.rows[i].(approvedOn := on, revision := revision)]))
  {
    hide FiguresAreFrozen, CarryBackIsFrozen, Key, Sorted;
    var row := books.rows[i].(approvedOn := on, revision := revision);
    RestampedRowsStaySorted(books.rows, i, row);
    StampIsNotFrozen(Previous(books.rows, i), books.rows[i], on, revision);
    assert IsFrozen(Previous(books.rows, i), books.rows[i]);
    if i + 1 < |books.rows| {
      assert IsFrozen(Previous(books.rows, i + 1), books.rows[i + 1]);
      StampBeforeIsNotFrozen(books.rows[i], books.rows[i + 1], on, revision);
    }
    hide IsFrozen;
    ReplaceKeepsPairs(IsFrozen, books.rows, i, row);
  }

  lemma StampIsNotFrozen(previous: Option<Row>, row: Row, on: Option<Date>, revision: int)
    ensures IsFrozen(previous, row) ==> IsFrozen(previous, row.(approvedOn := on, revision := revision))
  {
    hide CorporateIncomeTax, CarryBack;
  }

  lemma StampBeforeIsNotFrozen(row: Row, next: Row, on: Option<Date>, revision: int)
    ensures IsFrozen(Some(row), next) ==> IsFrozen(Some(row.(approvedOn := on, revision := revision)), next)
  {
    hide CorporateIncomeTax, CarryBack;
  }

  lemma DeletionKeepsValid(books: Books, i: nat)
    requires Valid(books) && i < |books.rows| && RequireEditable(books.rows, i) == None
    ensures Valid(books.(rows := books.rows[..i] + books.rows[i + 1..]))
  {
    hide IsFrozen, Key;
    EditableIsLast(books.rows, i);
    PrefixKeepsPairs(IsFrozen, books.rows, i);
    assert books.rows[..i] + books.rows[i + 1..] == books.rows[..i];
  }

  /** Every command, accepted or refused, keeps the table sorted, without overlap, and frozen. */
  lemma ApplyKeepsValid(books: Books, c: Command)
    requires Valid(books)
    ensures Valid(Apply(books, c))
  {
    hide ClosedRow, UpdatedRow, IsFrozen, Sorted, Position, Key;
    if Step(books, c).Ok? {
      if c.Close? {
        CloseKeepsValid(books, c);
      } else if c.UpdateAppropriation? || c.Approve? || c.Delete? {
        var i := Find(books.rows, c.id).value;
        match c
        case UpdateAppropriation(_, _, _, _) => UpdateKeepsValid(books, i, c);
        case Approve(_, revision, on, _) => ApprovalKeepsValid(books, i, Some(on), revision + 1);
        case Delete(_, _) =>
          DeletionKeepsValid(books, i);
      }
    }
  }

  lemma {:induction false} RunKeepsValid(books: Books, commands: seq<Command>)
    requires Valid(books)
    ensures Valid(Run(books, commands))
    decreases |commands|
  {
    if commands != [] {
      ApplyKeepsValid(books, commands[0]);
      RunKeepsValid(Apply(books, commands[0]), commands[1..]);
    }
  }

  predicate Covers(row: Row, date: Date) { AtMost(row.startsOn, date) && AtMost(date, row.endsOn) }

  /** The journal refuses an entry dated in a recorded year. It never refuses the tax entry of a
      year just accepted, nor its reversal once the year is deleted. */
  lemma TaxEntryIsNeverRefused(books: Books, c: Command)
    requires Valid(books)
    ensures c.Close? && ClosedRow(books, c).Ok? ==> forall row <- books.rows :: !Covers(row, c.endsOn)
    ensures c.Delete? && Step(books, c).Ok? ==>
              var deleted := books.rows[Find(books.rows, c.id).value];
              forall row <- Apply(books, c).rows :: !Covers(row, deleted.endsOn)
  {
    hide ClosedRow, IsFrozen, Sorted, Key, UpdatedRow, Position, OverlapsSome, RequireEditable;
    if c.Close? && ClosedRow(books, c).Ok? {
      ClosedRowIsFrozen(books, c);
      NoOverlapNoCover(books.rows, c.startsOn, ClosedRow(books, c).value.endsOn);
      ClosedRowIsDated(books, c);
    }
    if c.Delete? && Step(books, c).Ok? {
      var i := Find(books.rows, c.id).value;
      EditableIsLast(books.rows, i);
      assert Apply(books, c).rows == books.rows[..i];
      EarlierYearsEndBefore(books.rows, i);
    }
  }

  lemma ClosedRowIsDated(books: Books, c: Command)
    requires c.Close? && ClosedRow(books, c).Ok?
    ensures ClosedRow(books, c).value.endsOn == c.endsOn
  {
    hide CorporateIncomeTax, CarryBack, ApplyRateBps, ImputePriorLosses, Key, AddMonths, Position, ClosingResult;
  }

  lemma NoOverlapNoCover(rows: seq<Row>, startsOn: Date, endsOn: Date)
    requires Before(startsOn, endsOn) && !OverlapsSome(rows, startsOn, endsOn)
    ensures forall row <- rows :: !Covers(row, endsOn)
  {
  }

  lemma EarlierYearsEndBefore(rows: seq<Row>, i: nat)
    requires Sorted(rows) && i < |rows|
    ensures forall row <- rows[..i] :: !Covers(row, rows[i].endsOn)
  {
    forall row | row in rows[..i] ensures !Covers(row, rows[i].endsOn) {
      assert EndKey(row) < StartKey(rows[i]) < EndKey(rows[i]);
    }
  }

  // -------------------------------------------------------------------------
  // Carry-back credits against the tax they return
  // -------------------------------------------------------------------------

  function CreditOf(r: Row): Cents { r.carryBackCredit }

  function TaxOf(r: Row): Cents { r.corporateTax }

  function CarryBackCount(r: Row): Cents { if r.carryBackCredit == 0 then 0 else 1 }

  /** A year's credit is at most the tax of the year before plus 52 cents, and nothing
      comes back from a loss year. */
  lemma CreditReturnsTheTaxBefore(before: Option<Row>, previous: Row, row: Row)
    requires IsFrozen(Some(previous), row) && IsFrozen(before, previous)
    ensures row.carryBackCredit <= previous.corporateTax + 52 * CarryBackCount(row)
    ensures previous.TaxableResult() <= 0 ==> row.carryBackCredit == 0
  {
    hide CorporateIncomeTax, CarryBack;
    TaxIsMonotone(previous.TaxableResult(), AddedBack(previous) - previous.lossesImputed);
    CreditIsWithinTheTax(Max(-AddedBack(row), 0), CarryBackBase(previous.TaxableResult(), previous.dividends));
  }

  lemma {:induction false} CreditsReturnTaxes(rows: seq<Row>)
    requires AllPairs(IsFrozen, rows)
    ensures SumOf(CreditOf, rows) <= SumOf(TaxOf, ButLast(rows)) + 52 * SumOf(CarryBackCount, rows)
  {
    if rows != [] {
      var n := |rows| - 1;
      PrefixKeepsPairs(IsFrozen, rows, n);
      CreditsReturnTaxes(rows[..n]);
      assert IsFrozen(Previous(rows, n), rows[n]);
      if n > 0 {
        assert IsFrozen(Previous(rows, n - 1), rows[n - 1]);
        CreditReturnsTheTaxBefore(Previous(rows, n - 1), rows[n - 1], rows[n]);
        assert rows[..n][..n - 1] == rows[..n - 1];
      }
    }
  }

  function ButLast(rows: seq<Row>): seq<Row> { if rows == [] then [] else rows[..|rows| - 1] }

  /** Over every run of commands, whatever their order and outcome: the credits of the years
      never exceed the taxes of the years they were carried onto by more than 52 cents each. */
  lemma CreditsNeverExceedTaxes(opening: Option<Opening>, profile: Option<Profile>, commands: seq<Command>)
    ensures var rows := Run(Books(profile, opening, []), commands).rows;
            && SumOf(CreditOf, rows) <= SumOf(TaxOf, ButLast(rows)) + 52 * SumOf(CarryBackCount, rows)
            && (forall i :: 0 < i < |rows| && rows[i - 1].TaxableResult() <= 0 ==> rows[i].carryBackCredit == 0)
  {
    var books := Run(Books(profile, opening, []), commands);
    RunKeepsValid(Books(profile, opening, []), commands);
    CreditsReturnTaxes(books.rows);
    forall i | 0 < i < |books.rows| && books.rows[i - 1].TaxableResult() <= 0
      ensures books.rows[i].carryBackCredit == 0
    {
      assert IsFrozen(Previous(books.rows, i), books.rows[i]);
      assert IsFrozen(Previous(books.rows, i - 1), books.rows[i - 1]);
      CreditReturnsTheTaxBefore(Previous(books.rows, i - 1), books.rows[i - 1], books.rows[i]);
    }
  }
}
