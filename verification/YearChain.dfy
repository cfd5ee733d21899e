/** What the chain of closed years adds up to: the loss stock and the equity along every run of
    commands, the two readings of the stock, and the runs that break them
    (crates/griffe-core/src/fiscal_year.rs, crates/griffe-core/src/accounting.rs). */
module YearChain {
  import opened Basics
  import opened Money
  import opened Tax
  import opened Calendar
  import opened FiscalYears

  // -------------------------------------------------------------------------
  // Stocks and equity of a table
  // -------------------------------------------------------------------------

  /** No year inherits a negative loss stock, nor will the next. */
  ghost predicate StocksAreCovered(books: Books) {
    forall n :: 0 <= n <= |books.rows| ==> books.ChainStock(n) >= 0
  }

  /** What the first `n` years earned is in reserve, distributed or retained. */
  predicate EquityAddsUpAt(books: Books, n: nat)
    requires n <= |books.rows|
  {
    books.Retained(n) + SumOf(ReserveOf, books.rows[..n]) + SumOf(DividendsOf, books.rows[..n])
    == books.OpeningRetained() + SumOf(NetOf, books.rows[..n])
  }

  ghost predicate EquityAddsUp(books: Books) {
    forall n :: 0 <= n <= |books.rows| ==> EquityAddsUpAt(books, n)
  }

  predicate RetainedFollows(books: Books, i: nat)
    requires i < |books.rows|
  {
    books.rows[i].retainedEarnings
    == books.Retained(i) + books.rows[i].netResult - books.rows[i].legalReserve - books.rows[i].dividends
  }

  ghost predicate RetainedIsChained(books: Books) {
    forall i :: 0 <= i < |books.rows| ==> RetainedFollows(books, i)
  }

  lemma StockAfterOneMore(books: Books, n: nat)
    requires n < |books.rows|
    ensures books.ChainStock(n + 1) == books.ChainStock(n) + ChainTerm(books.rows[n])
    ensures books.ReadStock(n + 1) == books.ReadStock(n) + ReadTerm(books.rows[n])
  {
    assert books.rows[..n + 1][..n] == books.rows[..n];
  }

  lemma StocksDependOnThePrefix(a: Books, b: Books, n: nat)
    requires a.opening == b.opening && n <= |a.rows| && n <= |b.rows| && a.rows[..n] == b.rows[..n]
    ensures a.ChainStock(n) == b.ChainStock(n) && a.ReadStock(n) == b.ReadStock(n)
    ensures a.Retained(n) == b.Retained(n)
  {
    assert n > 0 ==> a.rows[n - 1] == a.rows[..n][n - 1] == b.rows[n - 1];
  }

  lemma ClosedRowAppropriates(books: Books, c: Command)
    requires c.Close? && ClosedRow(books, c).Ok?
    ensures var n, row := Position(books.rows, c.startsOn), ClosedRow(books, c).value;
            row.retainedEarnings == books.Retained(n) + row.netResult - row.legalReserve - row.dividends
  {
    hide CorporateIncomeTax, CarryBack, ApplyRateBps, ImputePriorLosses, Key, AddMonths;
  }

  function DividendsOf(r: Row): Cents { r.dividends }

  function NetOf(r: Row): Cents { r.netResult }

  lemma SumOfPrefix(f: Row -> Cents, rows: seq<Row>, n: nat)
    requires 0 < n <= |rows|
    ensures SumOf(f, rows[..n]) == SumOf(f, rows[..n - 1]) + f(rows[n - 1])
  {
    assert rows[..n][..n - 1] == rows[..n - 1];
  }

  lemma EquityAfterOneMore(books: Books, n: nat)
    requires n < |books.rows| && EquityAddsUpAt(books, n)
    ensures EquityAddsUpAt(books, n + 1) <==> RetainedFollows(books, n)
  {
    SumOfPrefix(ReserveOf, books.rows, n + 1);
    SumOfPrefix(DividendsOf, books.rows, n + 1);
    SumOfPrefix(NetOf, books.rows, n + 1);
  }

  lemma {:induction false} ChainedEquity(books: Books, n: nat)
    requires n <= |books.rows| && RetainedIsChained(books)
    ensures EquityAddsUpAt(books, n)
  {
    if n > 0 {
      ChainedEquity(books, n - 1);
      EquityAfterOneMore(books, n - 1);
    }
  }

  /** The equity adds up at every year exactly when each year's retained earnings follow from the
      year before. */
  lemma EquityAddsUpExactly(books: Books)
    ensures EquityAddsUp(books) <==> RetainedIsChained(books)
  {
    hide EquityAddsUpAt, RetainedFollows;
    if RetainedIsChained(books) {
      forall n | 0 <= n <= |books.rows| ensures EquityAddsUpAt(books, n) {
        ChainedEquity(books, n);
      }
    }
    if EquityAddsUp(books) {
      forall i | 0 <= i < |books.rows| ensures RetainedFollows(books, i) {
        assert EquityAddsUpAt(books, i) && EquityAddsUpAt(books, i + 1);
        EquityAfterOneMore(books, i);
      }
    }
  }

  // -------------------------------------------------------------------------
  // What one command does to them
  // -------------------------------------------------------------------------

  function ClosingBase(c: Command): Cents
    requires c.Close?
  {
    c.resultBeforeTax + Max(c.nonDeductible, 0)
  }

  function ClosingImputed(books: Books, c: Command): Cents
    requires c.Close?
  {
    ImputePriorLosses(ClosingBase(c), books.ChainStock(Position(books.rows, c.startsOn))).imputed
  }

  function ClosingCarriedBack(books: Books, c: Command): CarryBackResult
    requires c.Close?
  {
    var n := Position(books.rows, c.startsOn);
    if !c.carryBack || n == 0 then NO_CARRY_BACK
    else CarryBack(Max(-ClosingBase(c), 0), CarryBackBase(books.rows[n - 1].TaxableResult(), books.rows[n - 1].dividends))
  }

  /** What a closing adds to the loss stock, or takes from it: its loss, less what it carries back
      and what it imputes. */
  function ClosingTerm(books: Books, c: Command): Cents
    requires c.Close?
  {
    Max(-c.resultBeforeTax, 0) - ClosingCarriedBack(books, c).imputed - ClosingImputed(books, c)
  }

  function ClosingNet(books: Books, c: Command): Cents
    requires c.Close?
  {
    c.resultBeforeTax - CorporateIncomeTax(ClosingBase(c) - ClosingImputed(books, c))
    + ClosingCarriedBack(books, c).credit
  }

  lemma ClosedRowFigures(books: Books, c: Command)
    requires c.Close? && ClosedRow(books, c).Ok?
    ensures var row := ClosedRow(books, c).value;
            && row.resultBeforeTax == c.resultBeforeTax && row.nonDeductible == c.nonDeductible
            && row.netResult == ClosingNet(books, c) && ChainTerm(row) == ClosingTerm(books, c)
            && row.legalReserve == c.legalReserve && row.dividends == c.dividends
            && row.lossesImputed == ClosingImputed(books, c)
            && row.carriedBack == ClosingCarriedBack(books, c).imputed
  {
    hide CorporateIncomeTax, CarryBack, ApplyRateBps, Key, AddMonths, SumOf, LossCarryForwardCeiling;
    ComputedResult(c.resultBeforeTax, books.ChainStock(Position(books.rows, c.startsOn)), c.nonDeductible);
  }

  predicate IsAccepted(books: Books, c: Command) { c.Close? && ClosedRow(books, c).Ok? }

  /** A closing accepted between closed years is paid for by every later stock. */
  ghost predicate KeepsStocks(books: Books, c: Command) {
    IsAccepted(books, c) ==>
      forall n :: Position(books.rows, c.startsOn) <= n <= |books.rows| ==>
        books.ChainStock(n) + ClosingTerm(books, c) >= 0
  }

  /** A closing accepted between closed years keeps nothing for later years to inherit. */
  predicate KeepsEquity(books: Books, c: Command) {
    IsAccepted(books, c) ==>
      Position(books.rows, c.startsOn) == |books.rows| || ClosingNet(books, c) == c.legalReserve + c.dividends
  }

  lemma ClosingKeepsStocksExactly(books: Books, c: Command)
    requires StocksAreCovered(books) && IsAccepted(books, c)
    ensures StocksAreCovered(Apply(books, c)) <==> KeepsStocks(books, c)
  {
    hide ClosedRow, Position, ClosingTerm, SumOf;
    var after, at := Apply(books, c), Position(books.rows, c.startsOn);
    var row := ClosedRow(books, c).value;
    ClosedRowFigures(books, c);
    assert after.rows == books.rows[..at] + [row] + books.rows[at..];
    forall n | 0 <= n <= at ensures after.ChainStock(n) == books.ChainStock(n) {
      StocksDependOnThePrefix(books, after, n);
    }
    forall n | at <= n <= |books.rows|
      ensures after.ChainStock(n + 1) == books.ChainStock(n) + ClosingTerm(books, c)
    {
      InsertionShiftsLaterStocks(books, c, n);
    }
    hide Apply, Books.ChainStock;
    if StocksAreCovered(after) {
      forall n | at <= n <= |books.rows| ensures books.ChainStock(n) + ClosingTerm(books, c) >= 0 {
        assert after.ChainStock(n + 1) >= 0;
      }
    }
    if KeepsStocks(books, c) {
      forall n | 0 <= n <= |after.rows| ensures after.ChainStock(n) >= 0 {
        if n > at {
          assert after.ChainStock(n - 1 + 1) == books.ChainStock(n - 1) + ClosingTerm(books, c);
        }
      }
    }
  }

  lemma ClosingKeepsEquityExactly(books: Books, c: Command)
    requires RetainedIsChained(books) && IsAccepted(books, c)
    ensures RetainedIsChained(Apply(books, c)) <==> KeepsEquity(books, c)
  {
    hide ClosedRow, Position, ClosingNet, SumOf;
    var at, row := Position(books.rows, c.startsOn), ClosedRow(books, c).value;
    ClosedRowFigures(books, c);
    ClosedRowAppropriates(books, c);
    var after := Apply(books, c);
    assert after.rows == books.rows[..at] + [row] + books.rows[at..];
    assert after.Retained(at) == books.Retained(at) && RetainedFollows(after, at);
    forall i | 0 <= i < at ensures RetainedFollows(after, i) {
      assert RetainedFollows(books, i);
    }
    forall j | at + 1 < j < |after.rows| ensures RetainedFollows(after, j) {
      assert RetainedFollows(books, j - 1) && after.rows[j] == books.rows[j - 1] && after.rows[j - 1] == books.rows[j - 2];
    }
    if at < |books.rows| {
      assert RetainedFollows(books, at) && after.rows[at + 1] == books.rows[at];
      assert RetainedFollows(after, at + 1) <==> ClosingNet(books, c) == c.legalReserve + c.dividends;
    }
  }

  /** Closing a year between closed years shifts every later stock by that year's own term. */
  lemma InsertionShiftsLaterStocks(books: Books, c: Command, n: nat)
    requires c.Close? && ClosedRow(books, c).Ok?
    requires Position(books.rows, c.startsOn) <= n <= |books.rows|
    ensures Apply(books, c).ChainStock(n + 1) == books.ChainStock(n) + ChainTerm(ClosedRow(books, c).value)
  {
    hide ClosedRow, ChainTerm;
    var at, after := Position(books.rows, c.startsOn), Apply(books, c);
    ShiftedStock(books, after, at, n, ClosedRow(books, c).value);
  }

  lemma {:induction false} ShiftedStock(books: Books, after: Books, at: nat, n: nat, row: Row)
    requires at <= n <= |books.rows| && after.opening == books.opening
    requires after.rows == books.rows[..at] + [row] + books.rows[at..]
    ensures after.ChainStock(n + 1) == books.ChainStock(n) + ChainTerm(row)
  {
    hide ChainTerm;
    StockAfterOneMore(after, n);
    if n == at {
      StocksDependOnThePrefix(books, after, n);
    } else {
      ShiftedStock(books, after, at, n - 1, row);
      StockAfterOneMore(books, n - 1);
    }
  }

  /** A year whose result is untouched and whose retained earnings still add up. */
  predicate SameFigures(a: Row, b: Row) {
    && a.resultBeforeTax == b.resultBeforeTax && a.nonDeductible == b.nonDeductible
    && a.carriedBack == b.carriedBack && a.lossesImputed == b.lossesImputed && a.netResult == b.netResult
  }

  lemma {:induction false} SameFiguresSameStock(a: Books, b: Books, n: nat)
    requires a.opening == b.opening && |a.rows| == |b.rows| && n <= |a.rows|
    requires forall i :: 0 <= i < n ==> SameFigures(b.rows[i], a.rows[i])
    ensures a.ChainStock(n) == b.ChainStock(n)
  {
    if n > 0 {
      SameFiguresSameStock(a, b, n - 1);
      StockAfterOneMore(a, n - 1);
      StockAfterOneMore(b, n - 1);
    }
  }

  lemma SameFiguresSameTotals(books: Books, i: nat, row: Row)
    requires i < |books.rows| && SameFigures(row, books.rows[i])
    requires RetainedFollows(books.(rows := books.rows[i := row]), i)
    requires i == |books.rows| - 1 || row.retainedEarnings == books.rows[i].retainedEarnings
    ensures StocksAreCovered(books) ==> StocksAreCovered(books.(rows := books.rows[i := row]))
    ensures RetainedIsChained(books) ==> RetainedIsChained(books.(rows := books.rows[i := row]))
  {
    hide SumOf;
    var after := books.(rows := books.rows[i := row]);
    forall n | 0 <= n <= |after.rows|
      ensures after.ChainStock(n) == books.ChainStock(n)
    {
      SameFiguresSameStock(books, after, n);
    }
    if RetainedIsChained(books) {
      forall j | 0 <= j < |after.rows| ensures RetainedFollows(after, j) {
        assert RetainedFollows(books, j);
      }
    }
  }

  lemma UpdateKeepsTotals(books: Books, i: nat, c: Command)
    requires c.UpdateAppropriation? && Sorted(books.rows)
    requires i < |books.rows| && UpdatedRow(books, i, c).Ok?
    ensures var after := books.(rows := books.rows[i := UpdatedRow(books, i, c).value]);
            && (StocksAreCovered(books) ==> StocksAreCovered(after))
            && (RetainedIsChained(books) ==> RetainedIsChained(after))
  {
    hide Key, ApplyRateBps, StocksAreCovered, RetainedIsChained;
    EditableIsLast(books.rows, i);
    SameFiguresSameTotals(books, i, UpdatedRow(books, i, c).value);
  }

  lemma ApprovalKeepsTotals(books: Books, i: nat, on: Option<Date>, revision: int)
    requires i < |books.rows|
    ensures var after := books.(rows := books.rows[i := books.rows[i].(approvedOn := on, revision := revision)]);
            && (StocksAreCovered(books) ==> StocksAreCovered(after))
            && (RetainedIsChained(books) ==> RetainedIsChained(after))
  {
    hide SumOf;
    var after := books.(rows := books.rows[i := books.rows[i].(approvedOn := on, revision := revision)]);
    forall n | 0 <= n <= |after.rows|
      ensures after.ChainStock(n) == books.ChainStock(n)
    {
      SameFiguresSameStock(books, after, n);
    }
    if RetainedIsChained(books) {
      forall j | 0 <= j < |after.rows| ensures RetainedFollows(after, j) {
        assert RetainedFollows(books, j);
      }
    }
  }

  lemma DeletionKeepsTotals(books: Books, i: nat)
    requires Sorted(books.rows)
    requires i < |books.rows| && RequireEditable(books.rows, i) == None
    ensures var after := books.(rows := books.rows[..i] + books.rows[i + 1..]);
            && (StocksAreCovered(books) ==> StocksAreCovered(after))
            && (RetainedIsChained(books) ==> RetainedIsChained(after))
  {
    hide Key;
    EditableIsLast(books.rows, i);
    var after := books.(rows := books.rows[..i] + books.rows[i + 1..]);
    forall n | 0 <= n <= |after.rows|
      ensures after.ChainStock(n) == books.ChainStock(n) && after.Retained(n) == books.Retained(n)
    {
      StocksDependOnThePrefix(books, after, n);
    }
    if RetainedIsChained(books) {
      forall j | 0 <= j < |after.rows| ensures RetainedFollows(after, j) {
        assert RetainedFollows(books, j);
      }
    }
  }

  /** Any command but an accepted closing keeps both. */
  lemma OtherCommandsKeepTotals(books: Books, c: Command)
    requires Valid(books) && !IsAccepted(books, c)
    ensures StocksAreCovered(books) ==> StocksAreCovered(Apply(books, c))
    ensures RetainedIsChained(books) ==> RetainedIsChained(Apply(books, c))
  {
    hide ClosedRow, UpdatedRow, AllPairs, Position, Key;
    if Step(books, c).Ok? && (c.UpdateAppropriation? || c.Approve? || c.Delete?) {
      hide StocksAreCovered, RetainedIsChained;
      var i := Find(books.rows, c.id).value;
      match c
      case UpdateAppropriation(_, _, _, _) => UpdateKeepsTotals(books, i, c);
      case Approve(_, revision, on, _) => ApprovalKeepsTotals(books, i, Some(on), revision + 1);
      case Delete(_, _) =>
        DeletionKeepsTotals(books, i);
    } else {
      SameRowsSameTotals(books, Apply(books, c));
    }
  }

  lemma SameRowsSameTotals(books: Books, after: Books)
    requires after.rows == books.rows && (after.opening == books.opening || books.rows == [])
    ensures StocksAreCovered(books) ==> StocksAreCovered(after)
    ensures RetainedIsChained(books) ==> RetainedIsChained(after)
  {
    forall n | 0 <= n <= |after.rows| ensures books.ChainStock(n) >= 0 ==> after.ChainStock(n) >= 0 {
    }
    forall i | 0 <= i < |after.rows| ensures RetainedFollows(books, i) ==> RetainedFollows(after, i) {
    }
  }

  // -------------------------------------------------------------------------
  // Along every run
  // -------------------------------------------------------------------------

  lemma AppliesKeepValid()
    ensures forall b, c :: Valid(b) ==> Valid(Apply(b, c))
  {
    hide Valid, Apply;
    forall b, c | Valid(b) ensures Valid(Apply(b, c)) {
      ApplyKeepsValid(b, c);
    }
  }

  lemma {:induction false} HoldsAtTheEnd(p: Books -> bool, books: Books, commands: seq<Command>)
    requires AllAlong(Apply, p, books, commands)
    ensures p(Run(books, commands))
    decreases |commands|
  {
    hide Apply;
    if commands != [] {
      HoldsAtTheEnd(p, Apply(books, commands[0]), commands[1..]);
    }
  }

  lemma CommandKeepsStocksExactly(books: Books, c: Command)
    requires Valid(books) && StocksAreCovered(books)
    ensures StocksAreCovered(Apply(books, c)) <==> KeepsStocks(books, c)
  {
    hide Apply, ClosedRow, Valid, StocksAreCovered;
    if IsAccepted(books, c) {
      ClosingKeepsStocksExactly(books, c);
    } else {
      OtherCommandsKeepTotals(books, c);
    }
  }

  lemma CommandKeepsEquityExactly(books: Books, c: Command)
    requires Valid(books) && EquityAddsUp(books)
    ensures EquityAddsUp(Apply(books, c)) <==> KeepsEquity(books, c)
  {
    hide Apply, ClosedRow, Valid, EquityAddsUp, RetainedIsChained;
    EquityAddsUpExactly(books);
    EquityAddsUpExactly(Apply(books, c));
    if IsAccepted(books, c) {
      ClosingKeepsEquityExactly(books, c);
    } else {
      OtherCommandsKeepTotals(books, c);
    }
  }

  lemma EmptyTableHoldsAll(opening: Option<Opening>, profile: Option<Profile>)
    ensures var start := Books(profile, opening, []);
            Valid(start) && StocksAreCovered(start) && EquityAddsUp(start) && StocksAgree(start)
  {
  }

  /** Over every run of commands, in any order: no inherited loss stock is ever negative if and
      only if each accepted closing is paid for by every later stock. */
  lemma StocksStayCoveredExactly(opening: Option<Opening>, profile: Option<Profile>, commands: seq<Command>)
    ensures var start := Books(profile, opening, []);
            AllAlong(Apply, StocksAreCovered, start, commands) <==> EachKeeps(Apply, KeepsStocks, start, commands)
  {
    EmptyTableHoldsAll(opening, profile);
    hide StocksAreCovered, KeepsStocks, Valid, Apply;
    forall b, c | Valid(b) && StocksAreCovered(b)
      ensures StocksAreCovered(Apply(b, c)) <==> KeepsStocks(b, c)
    {
      CommandKeepsStocksExactly(b, c);
    }
    AppliesKeepValid();
    HoldsAlongExactly(Apply, Valid, StocksAreCovered, KeepsStocks, Books(profile, opening, []), commands);
  }

  /** Over every run of commands, in any order: the net results are always in the reserves, the
      dividends and the retained earnings if and only if each closing accepted before a closed
      year appropriates its whole net result. */
  lemma EquityStaysWholeExactly(opening: Option<Opening>, profile: Option<Profile>, commands: seq<Command>)
    ensures var start := Books(profile, opening, []);
            AllAlong(Apply, EquityAddsUp, start, commands) <==> EachKeeps(Apply, KeepsEquity, start, commands)
  {
    EmptyTableHoldsAll(opening, profile);
    hide EquityAddsUp, KeepsEquity, Valid, Apply;
    forall b, c | Valid(b) && EquityAddsUp(b)
      ensures EquityAddsUp(Apply(b, c)) <==> KeepsEquity(b, c)
    {
      CommandKeepsEquityExactly(b, c);
    }
    AppliesKeepValid();
    HoldsAlongExactly(Apply, Valid, EquityAddsUp, KeepsEquity, Books(profile, opening, []), commands);
  }

  // -------------------------------------------------------------------------
  // Years closed in order
  // -------------------------------------------------------------------------

  predicate InOrder(books: Books, c: Command) {
    c.Close? ==> Position(books.rows, c.startsOn) == |books.rows|
  }

  predicate RunsInOrder(books: Books, commands: seq<Command>)
    decreases |commands|
  {
    commands == [] || (InOrder(books, commands[0]) && RunsInOrder(Apply(books, commands[0]), commands[1..]))
  }

  lemma InOrderKeepsBoth(books: Books, c: Command)
    requires Valid(books) && StocksAreCovered(books) && InOrder(books, c)
    ensures KeepsStocks(books, c) && KeepsEquity(books, c)
  {
    hide ClosedRow, Position, ClosingTerm, ClosingNet, Books.ChainStock, Valid;
    if IsAccepted(books, c) {
      ClosingUsesItsOwnStock(books, c);
    }
  }

  lemma ClosingUsesItsOwnStock(books: Books, c: Command)
    requires IsAccepted(books, c) && books.ChainStock(Position(books.rows, c.startsOn)) >= 0
    ensures books.ChainStock(Position(books.rows, c.startsOn)) + ClosingTerm(books, c) >= 0
  {
    var row := ClosedRow(books, c).value;
    ClosedRowIsFrozen(books, c);
    ClosedRowFigures(books, c);
    hide ClosedRow, ClosingTerm, Position, Books.ChainStock, CarryBackIsFrozen, CorporateIncomeTax;
  }

  lemma {:induction false} RunInOrderKeepsBoth(books: Books, commands: seq<Command>)
    requires Valid(books) && StocksAreCovered(books) && RunsInOrder(books, commands)
    ensures EachKeeps(Apply, KeepsStocks, books, commands) && EachKeeps(Apply, KeepsEquity, books, commands)
    decreases |commands|
  {
    hide Valid, StocksAreCovered, KeepsStocks, KeepsEquity, Apply, InOrder;
    if commands != [] {
      InOrderKeepsBoth(books, commands[0]);
      CommandKeepsStocksExactly(books, commands[0]);
      ApplyKeepsValid(books, commands[0]);
      RunInOrderKeepsBoth(Apply(books, commands[0]), commands[1..]);
    }
  }

  /** Whatever is closed in date order, revised, approved, deleted or refused keeps both. */
  lemma YearsClosedInOrderConserve(opening: Option<Opening>, profile: Option<Profile>, commands: seq<Command>)
    requires RunsInOrder(Books(profile, opening, []), commands)
    ensures var books := Run(Books(profile, opening, []), commands);
            StocksAreCovered(books) && EquityAddsUp(books)
  {
    var start := Books(profile, opening, []);
    EmptyTableHoldsAll(opening, profile);
    hide Valid, StocksAreCovered, EquityAddsUp, KeepsStocks, KeepsEquity, RunsInOrder;
    RunInOrderKeepsBoth(start, commands);
    StocksStayCoveredExactly(opening, profile, commands);
    EquityStaysWholeExactly(opening, profile, commands);
    HoldsAtTheEnd(StocksAreCovered, start, commands);
    HoldsAtTheEnd(EquityAddsUp, start, commands);
  }

  // -------------------------------------------------------------------------
  // The two readings of the loss stock
  // -------------------------------------------------------------------------

  /** The add-back changes nothing to the year's deficit. */
  predicate AddBackIsNeutral(r: Row) {
    r.nonDeductible == 0 || (r.resultBeforeTax >= 0 && r.resultBeforeTax + r.nonDeductible >= 0)
  }

  ghost predicate StocksAgree(books: Books) {
    forall n :: 0 <= n <= |books.rows| ==> books.ChainStock(n) == books.ReadStock(n)
  }

  /** The stock a later year inherits and the stock a closed year reports agree at every
      year exactly when no loss year carries non-deductible charges. */
  lemma StocksAgreeExactly(books: Books)
    ensures StocksAgree(books)
       <==> (forall i :: 0 <= i < |books.rows| ==> AddBackIsNeutral(books.rows[i]))
  {
    if forall i :: 0 <= i < |books.rows| ==> AddBackIsNeutral(books.rows[i]) {
      forall n | 0 <= n <= |books.rows|
        ensures books.ChainStock(n) == books.ReadStock(n)
      {
        NeutralAddBacksAgree(books, n);
      }
    } else {
      var i :| 0 <= i < |books.rows| && !AddBackIsNeutral(books.rows[i]);
      StockAfterOneMore(books, i);
    }
  }

  lemma {:induction false} NeutralAddBacksAgree(books: Books, n: nat)
    requires n <= |books.rows| && forall i :: 0 <= i < n ==> AddBackIsNeutral(books.rows[i])
    ensures books.ChainStock(n) == books.ReadStock(n)
  {
    if n > 0 {
      NeutralAddBacksAgree(books, n - 1);
      StockAfterOneMore(books, n - 1);
    }
  }

  /** What later years inherit differs from what closed years report by the add-backs that
      shrank a deficit, less those that, negative, made one. */
  lemma {:induction false} InheritedStockDiffersExactly(books: Books, n: nat)
    requires n <= |books.rows|
    ensures books.ChainStock(n) - books.ReadStock(n) == SumOf(ForgottenAddBack, books.rows[..n])
  {
    if n > 0 {
      InheritedStockDiffersExactly(books, n - 1);
      StockAfterOneMore(books, n - 1);
      assert books.rows[..n][..n - 1] == books.rows[..n - 1];
    }
  }

  function ForgottenAddBack(r: Row): Cents {
    if r.nonDeductible >= 0 then Min(r.nonDeductible, Max(-r.resultBeforeTax, 0))
    else -Max(-r.nonDeductible - Max(r.resultBeforeTax, 0), 0)
  }

  /** A closed year read back as a result, after a stock of `before`. */
  function ReadBack(r: Row, before: Cents): AccountingResult {
    AccountingResult(
      r.resultBeforeTax, r.nonDeductible,
      before + ReadTerm(r) + r.lossesImputed - (r.Deficit() - r.carriedBack),
      r.lossesImputed, r.TaxableResult(), r.corporateTax, r.carriedBack, r.carryBackCredit, r.netResult)
  }

  lemma ReadBackExactly(r: Row, computed: AccountingResult, before: Cents)
    requires 0 <= r.lossesImputed <= Max(AddedBack(r), 0)
    requires computed.nonDeductible == Max(r.nonDeductible, 0)
    requires computed.taxableResult == AddedBack(r) - r.lossesImputed
    requires (computed.resultBeforeTax, computed.lossesImputed, computed.corporateTax)
          == (r.resultBeforeTax, r.lossesImputed, r.corporateTax)
    requires (computed.carriedBack, computed.carryBackCredit, computed.netResult)
          == (r.carriedBack, r.carryBackCredit, r.netResult)
    ensures ReadBack(r, before) == computed
       <==> r.nonDeductible >= 0 && before == computed.priorLossesAvailable
  {
  }

  lemma ClosedRowRecordsItsResult(books: Books, c: Command)
    requires c.Close? && ClosedRow(books, c).Ok?
    ensures var n, r := Position(books.rows, c.startsOn), ClosedRow(books, c).value;
            var result := ClosingResult(books, n, c);
            && result.Ok?
            && 0 <= r.lossesImputed <= Max(AddedBack(r), 0)
            && r.nonDeductible == c.nonDeductible
            && result.value.priorLossesAvailable == Max(books.ChainStock(n), 0)
            && result.value.nonDeductible == Max(r.nonDeductible, 0)
            && result.value.taxableResult == AddedBack(r) - r.lossesImputed
            && (result.value.resultBeforeTax, result.value.lossesImputed, result.value.corporateTax)
               == (r.resultBeforeTax, r.lossesImputed, r.corporateTax)
            && (result.value.carriedBack, result.value.carryBackCredit, result.value.netResult)
               == (r.carriedBack, r.carryBackCredit, r.netResult)
  {
    hide CorporateIncomeTax, CarryBack, ApplyRateBps, ImputePriorLosses, Key, AddMonths, SumOf;
    ComputedResult(c.resultBeforeTax, books.ChainStock(Position(books.rows, c.startsOn)), c.nonDeductible);
  }

  /** A year just closed reads back as what its closing computed exactly when its add-back is
      not negative and the stock reported before it is the stock it inherited. */
  lemma ClosingReadsBackExactly(books: Books, c: Command)
    requires c.Close? && ClosedRow(books, c).Ok?
    ensures var n := Position(books.rows, c.startsOn);
            && ClosingResult(books, n, c).Ok?
            && Apply(books, c).rows[n] == ClosedRow(books, c).value
            && (ReadBack(Apply(books, c).rows[n], Apply(books, c).ReadStock(n)) == ClosingResult(books, n, c).value
                <==> c.nonDeductible >= 0 && books.ReadStock(n) == Max(books.ChainStock(n), 0))
  {
    var n, after := Position(books.rows, c.startsOn), Apply(books, c);
    ClosedRowRecordsItsResult(books, c);
    hide ClosedRow, ClosingResult, AddedBack, ReadBack, SumOf, Position;
    StocksDependOnThePrefix(books, after, n);
    ReadBackExactly(ClosedRow(books, c).value, ClosingResult(books, n, c).value, books.ReadStock(n));
  }

  /** What a closing reports as left to later years is what they inherit exactly when the part of
      its loss that non-deductible charges cover is the stock that was missing. */
  lemma CarriedForwardIsInheritedExactly(books: Books, c: Command)
    requires IsAccepted(books, c)
    ensures var n := Position(books.rows, c.startsOn);
            && ClosingResult(books, n, c).Ok?
            && (ClosingResult(books, n, c).value.LossesCarriedForward() == Apply(books, c).ChainStock(n + 1)
                <==> Min(Max(c.nonDeductible, 0), Max(-c.resultBeforeTax, 0)) == Max(-books.ChainStock(n), 0))
  {
    var n, after := Position(books.rows, c.startsOn), Apply(books, c);
    hide Apply, ClosedRow, ClosingResult, SumOf, Position, AddedBack, ChainTerm, CorporateIncomeTax, Books.ChainStock,
         AccountingResult.LossesCarriedForward, ClosingTerm, ClosingNet, ClosingImputed, ClosingCarriedBack;
    var row := ClosedRow(books, c).value;
    ClosedRowRecordsItsResult(books, c);
    ClosedRowFigures(books, c);
    ClosingInserts(books, c);
    CarriedForwardAgainstItsTerm(row, ClosingResult(books, n, c).value);
    InsertionShiftsLaterStocks(books, c, n);
  }

  lemma CarriedForwardAgainstItsTerm(r: Row, result: AccountingResult)
    requires 0 <= r.lossesImputed <= Max(AddedBack(r), 0)
    requires result.taxableResult == AddedBack(r) - r.lossesImputed
    requires (result.lossesImputed, result.carriedBack) == (r.lossesImputed, r.carriedBack)
    ensures result.LossesCarriedForward()
         == result.priorLossesAvailable + ChainTerm(r) - Min(Max(r.nonDeductible, 0), Max(-r.resultBeforeTax, 0))
  {
  }

  function DeficitOf(r: Row): Cents { r.Deficit() }

  function ImputedOf(r: Row): Cents { r.lossesImputed }

  function CarriedBackOf(r: Row): Cents { r.carriedBack }

  /** The part of a deficit that the year's own imputation made: only a negative add-back can. */
  function Overstated(r: Row): Cents { r.Deficit() - Max(-(r.resultBeforeTax + r.nonDeductible), 0) }

  lemma OverstatedExactly(r: Row)
    requires FiguresAreFrozen(r)
    ensures Overstated(r) >= 0
    ensures Overstated(r) == 0 <==> r.lossesImputed == 0 || r.Deficit() == 0
    ensures r.nonDeductible >= 0 ==> Overstated(r) == 0
  {
    hide CorporateIncomeTax;
  }

  lemma {:induction false} DeficitsAreUsedOrKept(books: Books, n: nat)
    requires n <= |books.rows|
    ensures books.OpeningLosses() + SumOf(DeficitOf, books.rows[..n])
         == SumOf(ImputedOf, books.rows[..n]) + SumOf(CarriedBackOf, books.rows[..n]) + books.ReadStock(n)
            + SumOf(Overstated, books.rows[..n])
  {
    if n > 0 {
      DeficitsAreUsedOrKept(books, n - 1);
      SumOfPrefix(DeficitOf, books.rows, n);
      SumOfPrefix(ImputedOf, books.rows, n);
      SumOfPrefix(CarriedBackOf, books.rows, n);
      SumOfPrefix(Overstated, books.rows, n);
      StockAfterOneMore(books, n - 1);
    }
  }

  predicate IsConservedAt(books: Books, n: nat)
    requires n <= |books.rows|
  {
    books.OpeningLosses() + SumOf(DeficitOf, books.rows[..n])
    == SumOf(ImputedOf, books.rows[..n]) + SumOf(CarriedBackOf, books.rows[..n]) + books.ReadStock(n)
  }

  lemma ConservedAtExactly(books: Books, n: nat)
    requires n < |books.rows| && IsConservedAt(books, n)
    ensures IsConservedAt(books, n + 1) <==> Overstated(books.rows[n]) == 0
  {
    DeficitsAreUsedOrKept(books, n);
    DeficitsAreUsedOrKept(books, n + 1);
    SumOfPrefix(Overstated, books.rows, n + 1);
  }

  lemma {:induction false} ConservedUpTo(books: Books, n: nat)
    requires n <= |books.rows| && forall i :: 0 <= i < n ==> Overstated(books.rows[i]) == 0
    ensures IsConservedAt(books, n)
  {
    if n > 0 {
      ConservedUpTo(books, n - 1);
      ConservedAtExactly(books, n - 1);
    }
  }

  /** At every year the losses of the opening and of the years so far are imputed, carried back or
      left in the stock that a closed year reports. */
  ghost predicate LossesAreConserved(books: Books) {
    forall n :: 0 <= n <= |books.rows| ==> IsConservedAt(books, n)
  }

  ghost predicate NothingIsOverstated(rows: seq<Row>) { forall i :: 0 <= i < |rows| ==> Overstated(rows[i]) == 0 }

  lemma ConservedExactly(books: Books)
    ensures LossesAreConserved(books) <==> NothingIsOverstated(books.rows)
  {
    hide IsConservedAt, Overstated;
    if NothingIsOverstated(books.rows) {
      forall n | 0 <= n <= |books.rows| ensures IsConservedAt(books, n) {
        ConservedUpTo(books, n);
      }
    }
    if LossesAreConserved(books) {
      forall i | 0 <= i < |books.rows| ensures Overstated(books.rows[i]) == 0 {
        assert IsConservedAt(books, i) && IsConservedAt(books, i + 1);
        ConservedAtExactly(books, i);
      }
    }
  }

  /** A closing that imputes no losses, or whose result after a negative add-back still covers
      those it imputes. */
  predicate KeepsConservation(books: Books, c: Command) {
    IsAccepted(books, c) ==>
      ClosingImputed(books, c) == 0 || c.resultBeforeTax + c.nonDeductible >= ClosingImputed(books, c)
  }

  lemma ClosedRowOverstates(books: Books, c: Command)
    requires IsAccepted(books, c)
    ensures Overstated(ClosedRow(books, c).value) == 0
       <==> ClosingImputed(books, c) == 0 || c.resultBeforeTax + c.nonDeductible >= ClosingImputed(books, c)
  {
    ClosedRowIsFrozen(books, c);
    ClosedRowFigures(books, c);
    hide ClosedRow, ClosingImputed, Position, ClosingNet, ClosingTerm, CarryBackIsFrozen;
    OverstatedExactly(ClosedRow(books, c).value);
    hide FiguresAreFrozen, Overstated;
  }

  lemma ClosingOverstatesExactly(books: Books, c: Command)
    requires IsAccepted(books, c) && NothingIsOverstated(books.rows)
    ensures NothingIsOverstated(Apply(books, c).rows) <==> Overstated(ClosedRow(books, c).value) == 0
  {
    ClosingInserts(books, c);
    hide Apply, ClosedRow, Position, Overstated;
    var at, row := Position(books.rows, c.startsOn), ClosedRow(books, c).value;
    var after := Apply(books, c).rows;
    assert after[at] == row;
    assert forall i :: 0 <= i < |after| ==> after[i] == if i < at then books.rows[i] else if i == at then row else books.rows[i - 1];
  }

  lemma CommandKeepsConservationExactly(books: Books, c: Command)
    requires Valid(books) && LossesAreConserved(books)
    ensures LossesAreConserved(Apply(books, c)) <==> KeepsConservation(books, c)
  {
    ConservedExactly(books);
    ConservedExactly(Apply(books, c));
    hide LossesAreConserved;
    if IsAccepted(books, c) {
      hide Apply, ClosedRow, NothingIsOverstated, ClosingImputed, Overstated;
      ClosedRowOverstates(books, c);
      ClosingOverstatesExactly(books, c);
    } else {
      hide Apply, ClosedRow, NothingIsOverstated, Overstated, Valid;
      OtherCommandsOverstateNothing(books, c);
    }
  }

  lemma SameFiguresSameStatement(rows: seq<Row>, i: nat, row: Row)
    requires i < |rows| && SameFigures(row, rows[i]) && NothingIsOverstated(rows)
    ensures NothingIsOverstated(rows[i := row])
  {
    assert Overstated(row) == Overstated(rows[i]);
    hide Overstated;
  }

  lemma OtherCommandsOverstateNothing(books: Books, c: Command)
    requires !IsAccepted(books, c) && NothingIsOverstated(books.rows)
    ensures NothingIsOverstated(Apply(books, c).rows)
  {
    hide ClosedRow, UpdatedRow, Position, Key, Overstated;
    if Step(books, c).Ok? && (c.UpdateAppropriation? || c.Approve? || c.Delete?) {
      var i := Find(books.rows, c.id).value;
      match c
      case UpdateAppropriation(_, _, _, _) =>
        UpdateKeepsFigures(books, i, c);
        SameFiguresSameStatement(books.rows, i, UpdatedRow(books, i, c).value);
      case Approve(_, revision, on, _) =>
        SameFiguresSameStatement(books.rows, i, books.rows[i].(approvedOn := Some(on), revision := revision + 1));
      case Delete(_, _) =>
    }
  }

  lemma UpdateKeepsFigures(books: Books, i: nat, c: Command)
    requires c.UpdateAppropriation? && i < |books.rows| && UpdatedRow(books, i, c).Ok?
    ensures SameFigures(UpdatedRow(books, i, c).value, books.rows[i])
  {
    hide Position, Key, ValidateAppropriation, RequireEditable;
  }

  /** Over every run of commands, in any order: losses are conserved at every year if and only if
      each accepted closing that imputes losses still covers them once its add-back is counted
      as it is stored. Only a negative add-back can fail that. */
  lemma LossesAreConservedExactly(opening: Option<Opening>, profile: Option<Profile>, commands: seq<Command>)
    ensures var start := Books(profile, opening, []);
            AllAlong(Apply, LossesAreConserved, start, commands) <==> EachKeeps(Apply, KeepsConservation, start, commands)
  {
    var start := Books(profile, opening, []);
    EmptyTableHoldsAll(opening, profile);
    ConservedExactly(start);
    hide LossesAreConserved, KeepsConservation, Valid, Apply;
    forall b, c | Valid(b) && LossesAreConserved(b)
      ensures LossesAreConserved(Apply(b, c)) <==> KeepsConservation(b, c)
    {
      CommandKeepsConservationExactly(b, c);
    }
    AppliesKeepValid();
    HoldsAlongExactly(Apply, Valid, LossesAreConserved, KeepsConservation, start, commands);
  }

  lemma AddBacksConserve(books: Books, c: Command)
    requires c.Close? ==> c.nonDeductible >= 0
    ensures KeepsConservation(books, c)
  {
    if IsAccepted(books, c) {
      ClosedRowIsFrozen(books, c);
      ClosedRowFigures(books, c);
      hide ClosedRow, ClosingImputed, ClosingNet, ClosingTerm, CarryBackIsFrozen, Position;
    }
  }

  /** A command that brings no add-back that changes a deficit. */
  predicate KeepsAgreement(books: Books, c: Command) {
    IsAccepted(books, c) ==>
      c.nonDeductible == 0 || (c.resultBeforeTax >= 0 && c.resultBeforeTax + c.nonDeductible >= 0)
  }

  ghost predicate ReportedStocksAreCovered(books: Books) { StocksAgree(books) && StocksAreCovered(books) }

  ghost predicate KeepsReportedStocks(books: Books, c: Command) { KeepsAgreement(books, c) && KeepsStocks(books, c) }

  ghost predicate AddBacksAreNeutral(rows: seq<Row>) { forall i :: 0 <= i < |rows| ==> AddBackIsNeutral(rows[i]) }

  lemma CommandKeepsAgreementExactly(books: Books, c: Command)
    requires Valid(books) && AddBacksAreNeutral(books.rows)
    ensures AddBacksAreNeutral(Apply(books, c).rows) <==> KeepsAgreement(books, c)
  {
    hide ClosedRow, Position, Key, IsFrozen, Sorted, AllPairs, RequireEditable, ValidateAppropriation;
    if IsAccepted(books, c) {
      ClosedRowFigures(books, c);
      var at := Position(books.rows, c.startsOn);
      var after, row := Apply(books, c).rows, ClosedRow(books, c).value;
      assert after == books.rows[..at] + [row] + books.rows[at..];
      assert after[at] == row;
      assert forall i :: at <= i < |books.rows| ==> after[i + 1] == books.rows[i];
    }
  }

  /** Over every run of commands, in any order: the stock closed years report is always the one
      inherited, and never negative, if and only if no accepted closing has an add-back that
      changes its deficit and each is paid for by every later stock. */
  lemma ReportedStocksStayCoveredExactly(opening: Option<Opening>, profile: Option<Profile>, commands: seq<Command>)
    ensures var start := Books(profile, opening, []);
            AllAlong(Apply, ReportedStocksAreCovered, start, commands) <==> EachKeeps(Apply, KeepsReportedStocks, start, commands)
  {
    EmptyTableHoldsAll(opening, profile);
    hide StocksAreCovered, StocksAgree, KeepsStocks, KeepsAgreement, Valid, Apply, AddBackIsNeutral;
    forall b, c | Valid(b) && ReportedStocksAreCovered(b)
      ensures ReportedStocksAreCovered(Apply(b, c)) <==> KeepsReportedStocks(b, c)
    {
      StocksAgreeExactly(b);
      StocksAgreeExactly(Apply(b, c));
      CommandKeepsAgreementExactly(b, c);
      CommandKeepsStocksExactly(b, c);
    }
    AppliesKeepValid();
    HoldsAlongExactly(Apply, Valid, ReportedStocksAreCovered, KeepsReportedStocks, Books(profile, opening, []), commands);
  }

  // -------------------------------------------------------------------------
  // Runs that break the stock
  // -------------------------------------------------------------------------

  const NO_BOOKS := Books(Some(Profile(None)), None, [])

  /** A calendar year closed without distribution, reserve nor carry-back. */
  function PlainYear(id: int, year: int, resultBeforeTax: Cents, nonDeductible: Cents): Command {
    Close(id, YearMonthDay(year, 1, 1), YearMonthDay(year, 12, 31), 0, 0, false, None, nonDeductible, resultBeforeTax)
  }

  lemma CalendarYearIsNotTooLong(year: int)
    ensures !AtMost(AddMonths(YearMonthDay(year, 1, 1), 24), YearMonthDay(year, 12, 31))
  {
    AdvanceIndex(YearMonth(year, 1), 24);
  }

  lemma PlainYearCloses(books: Books, id: int, year: int, resultBeforeTax: Cents, nonDeductible: Cents)
    requires books.profile == Some(Profile(None)) && books.opening == None
    requires !OverlapsSome(books.rows, YearMonthDay(year, 1, 1), YearMonthDay(year, 12, 31))
    ensures var c := PlainYear(id, year, resultBeforeTax, nonDeductible);
            var n := Position(books.rows, c.startsOn);
            && ClosedRow(books, c).Ok?
            && ClosedRow(books, c).value.(corporateTax := 0, netResult := 0, retainedEarnings := 0)
               == Row(id, c.startsOn, c.endsOn, resultBeforeTax, nonDeductible,
                      ImputePriorLosses(resultBeforeTax + Max(nonDeductible, 0), books.ChainStock(n)).imputed,
                      0, 0, 0, 0, 0, 0, 0, None, 1)
  {
    hide CorporateIncomeTax, ImputePriorLosses, OverlapsSome, AddMonths;
    CalendarYearIsNotTooLong(year);
  }

  lemma WholeStockIsImputed(profit: Cents, stock: Cents)
    requires 0 <= stock <= profit && stock <= LOSS_CARRY_FORWARD_CAP
    ensures ImputePriorLosses(profit, stock).imputed == stock
  {
    CeilingRisesNoFaster(stock, profit);
  }

  lemma FirstPlainYear(resultBeforeTax: Cents, nonDeductible: Cents, year: int)
    requires resultBeforeTax + Max(nonDeductible, 0) <= 0
    ensures var books := Apply(NO_BOOKS, PlainYear(1, year, resultBeforeTax, nonDeductible));
            && |books.rows| == 1 && books.profile == Some(Profile(None)) && books.opening == None
            && books.rows[0].startsOn == YearMonthDay(year, 1, 1) && books.rows[0].endsOn == YearMonthDay(year, 12, 31)
            && books.ChainStock(1) == -resultBeforeTax
            && books.ReadStock(1) == -resultBeforeTax - nonDeductible
            && books.rows[0].lossesImputed == 0
  {
    PlainYearCloses(NO_BOOKS, 1, year, resultBeforeTax, nonDeductible);
    hide ClosedRow;
    var books := Apply(NO_BOOKS, PlainYear(1, year, resultBeforeTax, nonDeductible));
    StockAfterOneMore(books, 0);
  }

  lemma SecondPlainYear(books: Books, profit: Cents, year: int)
    requires |books.rows| == 1 && books.profile == Some(Profile(None)) && books.opening == None
    requires books.rows[0].startsOn.year == books.rows[0].endsOn.year < year
    requires 0 < books.ChainStock(1) <= profit && books.ChainStock(1) <= LOSS_CARRY_FORWARD_CAP
    ensures var after := Apply(books, PlainYear(2, year, profit, 0));
            && |after.rows| == 2 && after.rows[0] == books.rows[0]
            && after.profile == Some(Profile(None)) && after.opening == None
            && after.rows[1].startsOn == YearMonthDay(year, 1, 1) && after.rows[1].endsOn == YearMonthDay(year, 12, 31)
            && after.rows[1].lossesImputed == books.ChainStock(1)
            && after.ChainStock(2) == 0 && after.ReadStock(2) == books.ReadStock(1) - books.ChainStock(1)
  {
    assert Before(books.rows[0].endsOn, YearMonthDay(year, 1, 1));
    assert Position(books.rows, YearMonthDay(year, 1, 1)) == 1;
    PlainYearCloses(books, 2, year, profit, 0);
    hide ClosedRow, Position, Key;
    WholeStockIsImputed(profit, books.ChainStock(1));
    var after := Apply(books, PlainYear(2, year, profit, 0));
    StocksDependOnThePrefix(books, after, 1);
    StockAfterOneMore(after, 1);
  }

  /** Every loss that carries non-deductible charges, followed by a profit that absorbs it:
      the profitable year imputes the accounting loss instead of the smaller tax deficit, and
      the stock reported after it is negative by the add-back. */
  lemma AddBackOnALossIsImputedTwice(loss: Cents, addBack: Cents, profit: Cents)
    requires 0 < addBack <= loss <= profit && loss <= LOSS_CARRY_FORWARD_CAP
    ensures var books := Run(NO_BOOKS, [PlainYear(1, 2024, -loss, addBack), PlainYear(2, 2025, profit, 0)]);
            && |books.rows| == 2
            && books.rows[1].lossesImputed == loss
            && books.ReadStock(1) == loss - addBack
            && books.ReadStock(2) == -addBack
  {
    hide Apply, PlainYear, SumOf;
    var first := Apply(NO_BOOKS, PlainYear(1, 2024, -loss, addBack));
    var second := Apply(first, PlainYear(2, 2025, profit, 0));
    FirstPlainYear(-loss, addBack, 2024);
    SecondPlainYear(first, profit, 2025);
    StocksDependOnThePrefix(first, second, 1);
    var commands := [PlainYear(1, 2024, -loss, addBack), PlainYear(2, 2025, profit, 0)];
    assert commands[1..] == [commands[1]] && commands[1..][1..] == [];
    assert Run(first, commands[1..]) == Run(second, []) == second;
  }

  /** Every loss followed by a profit equal to it with a negative add-back: the profitable year
      imputes the whole loss and still reports a loss, which nobody made. */
  lemma NegativeAddBackMakesALoss(loss: Cents, cut: Cents)
    requires 0 < cut <= loss <= LOSS_CARRY_FORWARD_CAP
    ensures var books := Apply(Apply(NO_BOOKS, PlainYear(1, 2024, -loss, 0)), PlainYear(2, 2025, loss, -cut));
            && |books.rows| == 2
            && books.rows[1].lossesImputed == loss && books.rows[1].Deficit() == cut
            && !IsConservedAt(books, 2)
  {
    hide Apply, ClosedRow, PlainYear, SumOf, Position, Key, IsConservedAt, Overstated;
    var first := Apply(NO_BOOKS, PlainYear(1, 2024, -loss, 0));
    FirstPlainYear(-loss, 0, 2024);
    assert Overstated(first.rows[0]) == 0 by { NothingImputedNothingOverstated(first.rows[0]); }
    NegativeAddBackAfterALoss(first, loss, cut);
    var after := Apply(first, PlainYear(2, 2025, loss, -cut));
    OverstatementIsNotConserved(after, first.rows[0], cut);
  }

  lemma NothingImputedNothingOverstated(r: Row)
    requires r.lossesImputed == 0
    ensures Overstated(r) == 0
  {
  }

  lemma OverstatementIsNotConserved(books: Books, first: Row, cut: Cents)
    requires |books.rows| == 2 && books.rows[0] == first && cut > 0
    requires Overstated(first) == 0 && Overstated(books.rows[1]) == cut
    ensures !IsConservedAt(books, 2)
  {
    DeficitsAreUsedOrKept(books, 2);
    SumOfPrefix(Overstated, books.rows, 1);
    SumOfPrefix(Overstated, books.rows, 2);
  }

  lemma NegativeAddBackAfterALoss(books: Books, loss: Cents, cut: Cents)
    requires 0 < cut <= loss <= LOSS_CARRY_FORWARD_CAP
    requires |books.rows| == 1 && books.profile == Some(Profile(None)) && books.opening == None
    requires books.rows[0].startsOn == YearMonthDay(2024, 1, 1) && books.rows[0].endsOn == YearMonthDay(2024, 12, 31)
    requires books.ChainStock(1) == loss
    ensures var after := Apply(books, PlainYear(2, 2025, loss, -cut));
            && |after.rows| == 2 && after.rows[0] == books.rows[0] && after.opening == books.opening
            && after.rows[1].lossesImputed == loss && after.rows[1].Deficit() == cut
            && Overstated(after.rows[1]) == cut
  {
    hide ClosedRow, Key, ImputePriorLosses, SumOf;
    assert Position(books.rows, YearMonthDay(2025, 1, 1)) == 1 by { NoYearAfter2024(books); }
    NoYearAfter2024(books);
    PlainYearCloses(books, 2, 2025, loss, -cut);
    WholeStockIsImputed(loss, loss);
  }

  lemma NoYearAfter2024(books: Books)
    requires |books.rows| == 1
    requires books.rows[0].startsOn == YearMonthDay(2024, 1, 1) && books.rows[0].endsOn == YearMonthDay(2024, 12, 31)
    ensures Position(books.rows, YearMonthDay(2025, 1, 1)) == 1
    ensures !OverlapsSome(books.rows, YearMonthDay(2025, 1, 1), YearMonthDay(2025, 12, 31))
  {
  }

  /** A loss closed first, a profit two years later, then the profit in between: the same loss
      is imputed on both, and the last stock is negative by the whole loss. */
  lemma YearClosedLateImputesTwice(loss: Cents, profit: Cents)
    requires 0 < loss <= profit && loss <= LOSS_CARRY_FORWARD_CAP
    ensures var books := Apply(
              Apply(Apply(NO_BOOKS, PlainYear(1, 2023, -loss, 0)), PlainYear(2, 2025, profit, 0)),
              PlainYear(3, 2024, profit, 0));
            && |books.rows| == 3
            && books.rows[1].lossesImputed == loss && books.rows[2].lossesImputed == loss
            && books.ChainStock(3) == -loss
  {
    hide ClosedRow, Apply, PlainYear, SumOf, Position, Key;
    var first := Apply(NO_BOOKS, PlainYear(1, 2023, -loss, 0));
    FirstPlainYear(-loss, 0, 2023);
    var second := Apply(first, PlainYear(2, 2025, profit, 0));
    SecondPlainYear(first, profit, 2025);
    StocksDependOnThePrefix(first, second, 1);
    MiddleYear(second, loss, profit);
  }

  lemma MiddleYear(books: Books, loss: Cents, profit: Cents)
    requires 0 < loss <= profit && loss <= LOSS_CARRY_FORWARD_CAP
    requires |books.rows| == 2 && books.profile == Some(Profile(None)) && books.opening == None
    requires books.rows[0].startsOn == YearMonthDay(2023, 1, 1) && books.rows[0].endsOn == YearMonthDay(2023, 12, 31)
    requires books.rows[1].startsOn == YearMonthDay(2025, 1, 1) && books.rows[1].endsOn == YearMonthDay(2025, 12, 31)
    requires books.ChainStock(1) == loss && books.ChainStock(2) == 0
    ensures var after := Apply(books, PlainYear(3, 2024, profit, 0));
            && |after.rows| == 3 && after.rows[2] == books.rows[1]
            && after.rows[1].lossesImputed == loss && after.ChainStock(3) == -loss
  {
    hide ClosedRow, SumOf, Position, Key, OverlapsSome, ImputePriorLosses;
    GapOf2024(books);
    PlainYearCloses(books, 3, 2024, profit, 0);
    WholeStockIsImputed(profit, loss);
    InsertionShiftsLaterStocks(books, PlainYear(3, 2024, profit, 0), 2);
  }

  lemma GapOf2024(books: Books)
    requires |books.rows| == 2
    requires books.rows[0].startsOn == YearMonthDay(2023, 1, 1) && books.rows[0].endsOn == YearMonthDay(2023, 12, 31)
    requires books.rows[1].startsOn == YearMonthDay(2025, 1, 1) && books.rows[1].endsOn == YearMonthDay(2025, 12, 31)
    ensures Position(books.rows, YearMonthDay(2024, 1, 1)) == 1
    ensures !OverlapsSome(books.rows, YearMonthDay(2024, 1, 1), YearMonthDay(2024, 12, 31))
  {
  }

  lemma ProfitOutlastsItsTax(profit: Cents)
    requires profit > 0
    ensures CorporateIncomeTax(profit) < profit
  {
    if profit < 600 {
      SmallTaxes(profit);
    } else {
      TaxExceedsAQuarterExactly(profit);
      ApplyRateBpsIsNearest(profit, NORMAL_RATE_BPS);
    }
  }

  lemma FirstPlainNet(resultBeforeTax: Cents, year: int)
    requires resultBeforeTax >= 0
    ensures var books := Apply(NO_BOOKS, PlainYear(1, year, resultBeforeTax, 0));
            && |books.rows| == 1 && books.profile == Some(Profile(None)) && books.opening == None
            && books.rows[0].startsOn == YearMonthDay(year, 1, 1) && books.rows[0].endsOn == YearMonthDay(year, 12, 31)
            && books.rows[0].resultBeforeTax == resultBeforeTax && books.rows[0].nonDeductible == 0
            && books.rows[0].lossesImputed == 0 && books.rows[0].corporateTax == CorporateIncomeTax(resultBeforeTax)
            && books.rows[0].retainedEarnings == books.rows[0].netResult == resultBeforeTax - CorporateIncomeTax(resultBeforeTax)
            && books.rows[0].dividends == 0 == books.rows[0].legalReserve && books.rows[0].carryBackCredit == 0
  {
    hide CorporateIncomeTax, AddMonths, Key, ApplyRateBps;
    PlainYearCloses(NO_BOOKS, 1, year, resultBeforeTax, 0);
    ClosedRowAppropriates(NO_BOOKS, PlainYear(1, year, resultBeforeTax, 0));
    ClosedRowFigures(NO_BOOKS, PlainYear(1, year, resultBeforeTax, 0));
    ClosedRowIsFrozen(NO_BOOKS, PlainYear(1, year, resultBeforeTax, 0));
    hide ClosedRow, CarryBackIsFrozen;
  }

  /** A year closed at zero, then a profit the year before: the whole net profit is in no
      reserve, no dividend, and no retained earnings that a later year inherits. */
  lemma ProfitClosedLateDisappears(profit: Cents)
    requires profit > 0
    ensures var books := Apply(Apply(NO_BOOKS, PlainYear(1, 2025, 0, 0)), PlainYear(2, 2024, profit, 0));
            && |books.rows| == 2 && books.Retained(2) == 0
            && SumOf(ReserveOf, books.rows) == 0 == SumOf(DividendsOf, books.rows)
            && SumOf(NetOf, books.rows) == profit - CorporateIncomeTax(profit) > 0
  {
    ProfitOutlastsItsTax(profit);
    TaxIsTheNearestEuro(0, 0);
    FirstPlainNet(0, 2025);
    hide CorporateIncomeTax, Apply, ClosedRow, PlainYear, Position, SumOf;
    var first, late := Apply(NO_BOOKS, PlainYear(1, 2025, 0, 0)), PlainYear(2, 2024, profit, 0);
    PlainYearBefore(first, profit);
    ClosingInserts(first, late);
    var row := ClosedRow(first, late).value;
    assert Apply(first, late).rows == [row, first.rows[0]];
    hide SumOf;
    TwoRows(NetOf, row, first.rows[0]);
    TwoRows(ReserveOf, row, first.rows[0]);
    TwoRows(DividendsOf, row, first.rows[0]);
  }

  lemma PlainYearBefore(books: Books, profit: Cents)
    requires profit > 0
    requires |books.rows| == 1 && books.profile == Some(Profile(None)) && books.opening == None
    requires books.rows[0].startsOn == YearMonthDay(2025, 1, 1) && books.rows[0].endsOn == YearMonthDay(2025, 12, 31)
    ensures var c := PlainYear(2, 2024, profit, 0);
            && IsAccepted(books, c) && Position(books.rows, c.startsOn) == 0
            && ClosedRow(books, c).value.netResult == profit - CorporateIncomeTax(profit)
            && ClosedRow(books, c).value.legalReserve == 0 == ClosedRow(books, c).value.dividends
  {
    hide CorporateIncomeTax, ImputePriorLosses, ClosedRow, Position, Key, OverlapsSome;
    NoYearIn2024(books);
    PlainYearCloses(books, 2, 2024, profit, 0);
    ClosedRowFigures(books, PlainYear(2, 2024, profit, 0));
    NothingToImpute(profit);
    assert books.ChainStock(0) == 0;
  }

  lemma NoYearIn2024(books: Books)
    requires |books.rows| == 1
    requires books.rows[0].startsOn == YearMonthDay(2025, 1, 1) && books.rows[0].endsOn == YearMonthDay(2025, 12, 31)
    ensures Position(books.rows, YearMonthDay(2024, 1, 1)) == 0
    ensures !OverlapsSome(books.rows, YearMonthDay(2024, 1, 1), YearMonthDay(2024, 12, 31))
  {
  }

  lemma ClosingInserts(books: Books, c: Command)
    requires IsAccepted(books, c)
    ensures var n := Position(books.rows, c.startsOn);
            Apply(books, c) == books.(rows := books.rows[..n] + [ClosedRow(books, c).value] + books.rows[n..])
  {
    hide ClosedRow, Position;
  }

  lemma NothingToImpute(profit: Cents)
    ensures ImputePriorLosses(profit, 0).imputed == 0
  {
    CeilingIsWithinTheProfit(profit);
  }

  lemma OneRow(f: Row -> Cents, a: Row)
    ensures SumOf(f, [a]) == f(a)
  {
    assert [a][..0] == [];
  }

  lemma TwoRows(f: Row -> Cents, a: Row, b: Row)
    ensures SumOf(f, [a, b]) == f(a) + f(b)
  {
    assert [a, b][..1] == [a];
    OneRow(f, a);
  }

  /** A year with a loss, carried back on the year before. */
  function CarriedBackYear(id: int, year: int, loss: Cents): Command {
    Close(id, YearMonthDay(year, 1, 1), YearMonthDay(year, 12, 31), 0, 0, true, None, 0, -loss)
  }

  /** The 52 cents are reached by a run: 3,44 € earned untaxed, then lost and carried back. */
  lemma FiftyTwoCentsAreReached()
    ensures var books := Apply(Apply(NO_BOOKS, PlainYear(1, 2024, 344, 0)), CarriedBackYear(2, 2025, 344));
            && |books.rows| == 2
            && SumOf(CreditOf, books.rows) == SumOf(TaxOf, ButLast(books.rows)) + 52 * SumOf(CarryBackCount, books.rows)
            && SumOf(CarryBackCount, books.rows) == 1
  {
    SmallTaxes(344);
    FirstPlainNet(344, 2024);
    FullCreditOf344();
    hide *;
    CarriedBackTotals(Apply(NO_BOOKS, PlainYear(1, 2024, 344, 0)));
  }

  lemma CarriedBackTotals(books: Books)
    requires |books.rows| == 1 && books.profile == Some(Profile(None)) && books.opening == None
    requires books.rows[0].startsOn == YearMonthDay(2024, 1, 1) && books.rows[0].endsOn == YearMonthDay(2024, 12, 31)
    requires books.rows[0].resultBeforeTax == 344 && books.rows[0].nonDeductible == 0 == books.rows[0].lossesImputed
    requires books.rows[0].dividends == 0 && books.rows[0].retainedEarnings == 344
    requires books.rows[0].carryBackCredit == 0 == books.rows[0].corporateTax
    requires CarryBack(344, CarryBackBase(344, 0)) == CarryBackResult(344, 52)
    ensures var after := Apply(books, CarriedBackYear(2, 2025, 344));
            && |after.rows| == 2
            && SumOf(CreditOf, after.rows) == SumOf(TaxOf, ButLast(after.rows)) + 52 * SumOf(CarryBackCount, after.rows)
            && SumOf(CarryBackCount, after.rows) == 1
  {
    hide Apply, ClosedRow, Position, CarryBack, SumOf, ButLast, CarriedBackYear;
    var late := CarriedBackYear(2, 2025, 344);
    CarriedBackYearCloses(books);
    CarriedBackYearIsAClosing();
    ClosingInserts(books, late);
    assert Apply(books, late).rows == [books.rows[0], ClosedRow(books, late).value];
    TotalsOfTwoYears(books.rows[0], ClosedRow(books, late).value);
  }

  lemma CarriedBackYearIsAClosing()
    ensures CarriedBackYear(2, 2025, 344).Close?
  {
  }

  lemma TotalsOfTwoYears(a: Row, b: Row)
    requires a.carryBackCredit == 0 == a.corporateTax && b.carryBackCredit == 52
    ensures SumOf(CreditOf, [a, b]) == 52 && SumOf(CarryBackCount, [a, b]) == 1 && SumOf(TaxOf, ButLast([a, b])) == 0
  {
    assert ButLast([a, b]) == [a];
    OneRow(TaxOf, a);
    hide SumOf, ButLast;
    TwoRows(CreditOf, a, b);
    TwoRows(CarryBackCount, a, b);
  }

  lemma FullCreditOf344()
    ensures CarryBack(344, CarryBackBase(344, 0)) == CarryBackResult(344, 52)
  {
    HalfEvenIsUnique(344 * 1_500, 10_000, 52);
    NothingIsWorthNothing();
    hide ApplyRateBps;
    assert OnReduced(344, CarryBackBase(344, 0)) == 344 && OnNormal(344, CarryBackBase(344, 0)) == 0;
  }

  lemma CarriedBackYearCloses(books: Books)
    requires |books.rows| == 1 && books.profile == Some(Profile(None)) && books.opening == None
    requires books.rows[0].startsOn == YearMonthDay(2024, 1, 1) && books.rows[0].endsOn == YearMonthDay(2024, 12, 31)
    requires books.rows[0].resultBeforeTax == 344 && books.rows[0].nonDeductible == 0 == books.rows[0].lossesImputed
    requires books.rows[0].dividends == 0 && books.rows[0].retainedEarnings == 344
    requires CarryBack(344, CarryBackBase(344, 0)) == CarryBackResult(344, 52)
    ensures var c := CarriedBackYear(2, 2025, 344);
            && ClosedRow(books, c).Ok? && ClosedRow(books, c).value.carryBackCredit == 52
            && Position(books.rows, c.startsOn) == 1
  {
    hide CorporateIncomeTax, AddMonths, CarryBack;
    CalendarYearIsNotTooLong(2025);
    TaxIsTheNearestEuro(-344, 0);
    var c := CarriedBackYear(2, 2025, 344);
    assert Position(books.rows, c.startsOn) == 1;
    var result := ComputeResult(-344, books.ChainStock(1), 0);
    ComputedResult(-344, books.ChainStock(1), 0);
    assert result.Deficit() == 344;
    assert CarryBackOf(books, 1, c.startsOn, result) == Ok(CarryBackResult(344, 52));
  }
}
