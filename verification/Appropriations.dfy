/** Which commands on the closed years are accepted, what an accepted one may distribute, and what
    the distributions keep along every run (crates/griffe-core/src/fiscal_year.rs). */
module Appropriations {
  import opened Basics
  import opened Money
  import opened Tax
  import opened Calendar
  import opened FiscalYears
  import opened YearChain

  // -------------------------------------------------------------------------
  // Which commands are accepted
  // -------------------------------------------------------------------------

  /** The reserve is at most the tenth of the capital, to the nearest cent, half to even. */
  predicate IsWithinATenth(reserve: Cents, capital: Cents) {
    10 * reserve <= capital + 5 && (10 * reserve == capital + 5 ==> reserve % 2 == 0)
  }

  lemma TenthOfTheCapital(reserve: Cents, capital: Cents)
    ensures reserve <= ApplyRateBps(capital, LEGAL_RESERVE_CAP_BPS) <==> IsWithinATenth(reserve, capital)
  {
    var tenth := ApplyRateBps(capital, LEGAL_RESERVE_CAP_BPS);
    ApplyRateBpsIsNearest(capital, LEGAL_RESERVE_CAP_BPS);
    hide ApplyRateBps;
    assert -5 <= capital - 10 * tenth <= 5;
    if reserve == tenth + 1 {
      assert 10 * reserve == capital + 5 ==> tenth % 2 == 0;
    }
  }

  /** What the year at `n` may put in reserve and pay out of a net result. */
  predicate MayAppropriate(books: Books, n: nat, net: Cents, reserve: Cents, dividends: Cents)
    requires n <= |books.rows|
  {
    && 0 <= reserve && 0 <= dividends && reserve + dividends <= Max(net + books.Retained(n), 0)
    && books.profile.Some?
    && (books.profile.value.shareCapital.Some? ==>
          IsWithinATenth(books.Reserve(n) + reserve, books.profile.value.shareCapital.value))
  }

  /** The same day two years later, or the last of its month. */
  function TwoYearsLater(d: Date): Date {
    YearMonthDay(d.year + 2, d.month, Min(d.day, DaysIn(d.year + 2, d.month)))
  }

  lemma TwentyFourMonths(d: Date)
    ensures AddMonths(d, 24) == TwoYearsLater(d)
  {
    AdvanceIndex(MonthOf(d), 24);
    MonthsAreOrderedByIndex(Advance(MonthOf(d), 24), YearMonth(d.year + 2, d.month));
    MonthBounds(YearMonth(d.year + 2, d.month), d);
  }

  /** A period of less than two years, over, that overlaps no closed year; it starts on the opening
      when no closed year comes before it. */
  predicate MayClose(books: Books, c: Command)
    requires c.Close?
  {
    && Before(c.startsOn, c.endsOn) && Before(c.endsOn, TwoYearsLater(c.startsOn))
    && (c.today.Some? ==> AtMost(c.endsOn, c.today.value))
    && (forall row <- books.rows :: Before(row.endsOn, c.startsOn) || Before(c.endsOn, row.startsOn))
    && (books.opening.Some? && (forall row <- books.rows :: !Before(row.endsOn, c.startsOn)) ==>
          books.opening.value.opensOn == c.startsOn)
  }

  /** A loss, on a year that ends the day before with an undistributed profit. */
  predicate MayCarryBack(books: Books, c: Command)
    requires c.Close?
  {
    && c.resultBeforeTax + Max(c.nonDeductible, 0) < 0
    && exists row <- books.rows :: row.endsOn == PreviousDay(c.startsOn) && row.TaxableResult() > Max(row.dividends, 0)
  }

  lemma YearBefore(books: Books, startsOn: Date)
    requires Sorted(books.rows)
    ensures var n := Position(books.rows, startsOn);
            && (n == 0 <==> forall row <- books.rows :: !Before(row.endsOn, startsOn))
            && forall row <- books.rows | row.endsOn == PreviousDay(startsOn) :: n > 0 && row == books.rows[n - 1]
  {
    var n := Position(books.rows, startsOn);
    forall row | row in books.rows && row.endsOn == PreviousDay(startsOn)
      ensures n > 0 && row == books.rows[n - 1]
    {
      var i :| 0 <= i < |books.rows| && books.rows[i] == row;
      EveIsAdjacent(startsOn, row.endsOn);
      if n <= i {
        LaterYearsEndLater(books.rows, n, i);
      } else if i < n - 1 {
        LaterYearsEndLater(books.rows, i, n - 1);
        EveIsAdjacent(startsOn, books.rows[n - 1].endsOn);
      }
    }
    if n < |books.rows| {
      forall row | row in books.rows ensures n == 0 ==> !Before(row.endsOn, startsOn) {
        var i :| 0 <= i < |books.rows| && books.rows[i] == row;
        LaterYearsEndLater(books.rows, n, Max(i, n));
      }
    }
  }

  lemma LaterYearsEndLater(rows: seq<Row>, i: nat, j: nat)
    requires Sorted(rows) && i <= j < |rows|
    ensures Key(rows[i].endsOn) <= Key(rows[j].endsOn) && (i < j ==> Before(rows[i].endsOn, rows[j].endsOn))
  {
    assert i < j ==> EndKey(rows[i]) < StartKey(rows[j]) < EndKey(rows[j]);
  }

  lemma CarryBackIsGrantedExactly(books: Books, c: Command)
    requires c.Close? && Sorted(books.rows)
    ensures var n := Position(books.rows, c.startsOn);
            CarryBackOf(books, n, c.startsOn, ComputeResult(c.resultBeforeTax, books.ChainStock(n), c.nonDeductible)).Ok?
            <==> MayCarryBack(books, c)
  {
    hide CorporateIncomeTax, CarryBack, ApplyRateBps, Position, Key, SumOf, ImputePriorLosses;
    var n := Position(books.rows, c.startsOn);
    YearBefore(books, c.startsOn);
    ComputedResult(c.resultBeforeTax, books.ChainStock(n), c.nonDeductible);
    if n > 0 {
      var previous := books.rows[n - 1];
      assert previous in books.rows;
      CarryBackImputesTheLesser(Max(-(c.resultBeforeTax + Max(c.nonDeductible, 0)), 0),
                                CarryBackBase(previous.TaxableResult(), previous.dividends));
    }
  }

  lemma OverlapsExactly(rows: seq<Row>, startsOn: Date, endsOn: Date)
    ensures OverlapsSome(rows, startsOn, endsOn)
       <==> !(forall row <- rows :: Before(row.endsOn, startsOn) || Before(endsOn, row.startsOn))
  {
    hide Key;
  }

  lemma ClosingNetIsTheResult(books: Books, c: Command)
    requires c.Close?
    ensures var n := Position(books.rows, c.startsOn);
            ClosingResult(books, n, c).Ok? ==> ClosingResult(books, n, c).value.netResult == ClosingNet(books, c)
  {
    hide CorporateIncomeTax, CarryBack, ApplyRateBps, SumOf, Key;
    ComputedResult(c.resultBeforeTax, books.ChainStock(Position(books.rows, c.startsOn)), c.nonDeductible);
    hide Position, ImputePriorLosses;
  }

  lemma AppropriationIsValidExactly(books: Books, n: nat, net: Cents, reserve: Cents, dividends: Cents)
    requires n <= |books.rows| && books.profile.Some?
    ensures var retained := ValidateAppropriation(books.profile.value, net, books.Retained(n), books.Reserve(n),
                                                  reserve, dividends);
            && (retained.Ok? <==> MayAppropriate(books, n, net, reserve, dividends))
            && (retained.Ok? ==> retained.value == books.Retained(n) + net - reserve - dividends)
  {
    if books.profile.value.shareCapital.Some? {
      TenthOfTheCapital(books.Reserve(n) + reserve, books.profile.value.shareCapital.value);
    }
    hide ApplyRateBps, SumOf;
  }

  /** A closing is accepted exactly when its period may be closed, its loss may be carried back if
      it is asked for, and its appropriation is within the net result and what was retained. It
      then adds its own row, in date order, and changes no other. */
  lemma CloseIsAcceptedExactly(books: Books, c: Command)
    requires c.Close? && Valid(books)
    ensures var n, net := Position(books.rows, c.startsOn), ClosingNet(books, c);
            && (Step(books, c).Ok? <==>
                  && MayClose(books, c) && (c.carryBack ==> MayCarryBack(books, c))
                  && MayAppropriate(books, n, net, c.legalReserve, c.dividends))
            && (Step(books, c).Ok? ==>
                  var after := Apply(books, c);
                  && |after.rows| == |books.rows| + 1
                  && after == books.(rows := books.rows[..n] + [after.rows[n]] + books.rows[n..])
                  && after.rows[n] == Row(
                       c.newId, c.startsOn, c.endsOn, c.resultBeforeTax, c.nonDeductible, ClosingImputed(books, c),
                       CorporateIncomeTax(ClosingBase(c) - ClosingImputed(books, c)),
                       ClosingCarriedBack(books, c).imputed, ClosingCarriedBack(books, c).credit, net,
                       c.legalReserve, c.dividends, books.Retained(n) + net - c.legalReserve - c.dividends, None, 1))
  {
    hide Apply, Step, ClosedRow, ClosingNet, ClosingImputed, ClosingCarriedBack, CorporateIncomeTax, Position, Valid,
         MayAppropriate, MayClose, MayCarryBack;
    ClosedRowIsOkExactly(books, c);
    AcceptedIsClosed(books, c);
    if ClosedRow(books, c).Ok? {
      StoredRow(books, c);
      ClosingInserts(books, c);
    }
  }

  lemma AcceptedIsClosed(books: Books, c: Command)
    requires c.Close?
    ensures Step(books, c).Ok? <==> ClosedRow(books, c).Ok?
  {
    hide ClosedRow, Position;
  }

  lemma ClosedRowIsOkExactly(books: Books, c: Command)
    requires c.Close? && Valid(books)
    ensures ClosedRow(books, c).Ok? <==>
              && MayClose(books, c) && (c.carryBack ==> MayCarryBack(books, c))
              && MayAppropriate(books, Position(books.rows, c.startsOn), ClosingNet(books, c), c.legalReserve, c.dividends)
  {
    var n, net := Position(books.rows, c.startsOn), ClosingNet(books, c);
    hide ClosingNet, SumOf, Key, AddMonths, OverlapsSome, ClosedRow, ClosingResult, ValidateAppropriation, MayAppropriate,
         MayCarryBack, IsFrozen, TwoYearsLater, Position, IsWithinATenth;
    ClosedRowGuards(books, c);
    YearBefore(books, c.startsOn);
    TwentyFourMonths(c.startsOn);
    OverlapsExactly(books.rows, c.startsOn, c.endsOn);
    ResultIsClosedExactly(books, c);
    ClosingNetIsTheResult(books, c);
    if books.profile.Some? {
      AppropriationIsValidExactly(books, n, net, c.legalReserve, c.dividends);
    }
    AppropriationNeedsAProfile(books, n, net, c.legalReserve, c.dividends);
    hide Sorted, AllPairs, Books.Retained, Books.Reserve;
  }

  lemma ClosedRowGuards(books: Books, c: Command)
    requires c.Close?
    ensures var n, result := Position(books.rows, c.startsOn), ClosingResult(books, Position(books.rows, c.startsOn), c);
            ClosedRow(books, c).Ok? <==>
              && Before(c.startsOn, c.endsOn) && Before(c.endsOn, AddMonths(c.startsOn, 24))
              && (c.today.Some? ==> AtMost(c.endsOn, c.today.value))
              && books.profile.Some? && !OverlapsSome(books.rows, c.startsOn, c.endsOn)
              && (n == 0 && books.opening.Some? ==> books.opening.value.opensOn == c.startsOn)
              && result.Ok?
              && ValidateAppropriation(books.profile.value, result.value.netResult, books.Retained(n), books.Reserve(n),
                                       c.legalReserve, c.dividends).Ok?
  {
    hide Key, AddMonths, OverlapsSome, ClosingResult, ValidateAppropriation, Position, Books.Retained, Books.Reserve;
  }

  lemma AppropriationNeedsAProfile(books: Books, n: nat, net: Cents, reserve: Cents, dividends: Cents)
    requires n <= |books.rows|
    ensures MayAppropriate(books, n, net, reserve, dividends) ==> books.profile.Some?
  {
  }

  lemma ResultIsClosedExactly(books: Books, c: Command)
    requires c.Close? && Sorted(books.rows)
    ensures ClosingResult(books, Position(books.rows, c.startsOn), c).Ok? <==> (c.carryBack ==> MayCarryBack(books, c))
  {
    CarryBackIsGrantedExactly(books, c);
    hide MayCarryBack, CarryBackOf, Position, ComputeResult, SumOf;
  }

  lemma StoredRow(books: Books, c: Command)
    requires c.Close? && ClosedRow(books, c).Ok?
    ensures var n, net := Position(books.rows, c.startsOn), ClosingNet(books, c);
            ClosedRow(books, c).value == Row(
              c.newId, c.startsOn, c.endsOn, c.resultBeforeTax, c.nonDeductible, ClosingImputed(books, c),
              CorporateIncomeTax(ClosingBase(c) - ClosingImputed(books, c)),
              ClosingCarriedBack(books, c).imputed, ClosingCarriedBack(books, c).credit, net,
              c.legalReserve, c.dividends, books.Retained(n) + net - c.legalReserve - c.dividends, None, 1)
  {
    hide CorporateIncomeTax, CarryBack, ApplyRateBps, Key, AddMonths, SumOf, LossCarryForwardCeiling, OverlapsSome;
    ComputedResult(c.resultBeforeTax, books.ChainStock(Position(books.rows, c.startsOn)), c.nonDeductible);
  }

  lemma {:induction false} FindsTheLast(rows: seq<Row>, id: int, i: nat)
    ensures Find(rows, id) == Some(i)
       <==> i < |rows| && rows[i].id == id && forall j :: i < j < |rows| ==> rows[j].id != id
  {
    if rows != [] && rows[|rows| - 1].id != id {
      FindsTheLast(rows[..|rows| - 1], id, i);
    }
  }

  lemma OnlyTheLastIsEditable(rows: seq<Row>, i: nat)
    requires Sorted(rows) && i < |rows|
    ensures RequireEditable(rows, i) == None <==> i == |rows| - 1 && rows[i].approvedOn.None?
  {
    SuccessorExactly(rows, i);
  }

  /** An appropriation is revised, and a year deleted, exactly when it is the last of the table,
      unapproved, at the revision read, and, to be revised, its new appropriation is allowed. */
  lemma EditIsAcceptedExactly(books: Books, c: Command)
    requires (c.UpdateAppropriation? || c.Delete?) && Valid(books)
    ensures var last := |books.rows| - 1;
            && (Step(books, c).Ok? <==>
                  && last >= 0 && books.rows[last].id == c.id && books.rows[last].approvedOn.None?
                  && books.rows[last].revision == c.revision
                  && (c.UpdateAppropriation? ==>
                        && MayAppropriate(books, last, books.rows[last].netResult, c.legalReserve, c.dividends)
                        && (last == 0 && books.opening.Some? ==> books.opening.value.opensOn == books.rows[0].startsOn)))
            && (Step(books, c).Ok? && c.Delete? ==> Apply(books, c) == books.(rows := books.rows[..last]))
            && (Step(books, c).Ok? && c.UpdateAppropriation? ==>
                  Apply(books, c) == books.(rows := books.rows[last := books.rows[last].(
                    legalReserve := c.legalReserve, dividends := c.dividends, revision := c.revision + 1,
                    retainedEarnings := books.Retained(last) + books.rows[last].netResult - c.legalReserve - c.dividends)]))
  {
    hide IsFrozen, Sorted, Key, Position, RequireEditable, ValidateAppropriation, MayAppropriate, SumOf;
    var last, found := |books.rows| - 1, Find(books.rows, c.id);
    if last >= 0 {
      FindsTheLast(books.rows, c.id, last);
    }
    if found.Some? {
      var i := found.value;
      OnlyTheLastIsEditable(books.rows, i);
      PositionOfARow(books.rows, i);
      if i == last {
        if books.profile.Some? && c.UpdateAppropriation? {
          AppropriationIsValidExactly(books, i, books.rows[i].netResult, c.legalReserve, c.dividends);
        }
        if c.UpdateAppropriation? {
          AppropriationNeedsAProfile(books, i, books.rows[i].netResult, c.legalReserve, c.dividends);
        }
        assert books.rows[..i] + books.rows[i + 1..] == books.rows[..last];
      }
    }
  }

  /** A year is approved exactly once, from its end on and not in the future. */
  lemma ApprovalIsAcceptedExactly(books: Books, c: Command, i: nat)
    requires c.Approve? && i < |books.rows| && books.rows[i].id == c.id
    requires forall j :: i < j < |books.rows| ==> books.rows[j].id != c.id
    ensures var row := books.rows[i];
            && (Step(books, c).Ok? <==>
                  && row.approvedOn.None? && row.revision == c.revision && AtMost(row.endsOn, c.approvedOn)
                  && (c.today.Some? ==> AtMost(c.approvedOn, c.today.value)))
            && (Step(books, c).Ok? ==>
                  Apply(books, c) == books.(rows := books.rows[i := row.(
                    approvedOn := Some(c.approvedOn), revision := c.revision + 1)]))
  {
    FindsTheLast(books.rows, c.id, i);
  }

  /** The profile is replaced at any time; the opening only while no year is closed. */
  lemma SettingsAreAcceptedExactly(books: Books, c: Command)
    requires c.SetProfile? || c.SetOpening?
    ensures Step(books, c).Ok? <==> c.SetProfile? || books.rows == []
    ensures Step(books, c).Ok? ==>
              Apply(books, c)
              == if c.SetProfile? then books.(profile := Some(c.newProfile)) else books.(opening := c.newOpening)
  {
  }

  lemma StepKeepsApprovedYears(books: Books, c: Command, row: Row)
    requires row in books.rows && row.approvedOn.Some?
    ensures row in Apply(books, c).rows
  {
    hide ClosedRow, Position, ValidateAppropriation;
    var k :| 0 <= k < |books.rows| && books.rows[k] == row;
    var after := Apply(books, c).rows;
    if Step(books, c).Ok? {
      if c.Close? {
        assert row in after by {
          var n := Position(books.rows, c.startsOn);
          assert after[if k < n then k else k + 1] == row;
        }
      } else if c.UpdateAppropriation? || c.Approve? || c.Delete? {
        var i := Find(books.rows, c.id).value;
        assert i != k;
        assert after[if c.Delete? && i < k then k - 1 else k] == row;
      }
    }
  }

  /** Whatever is closed, revised, approved or deleted later, an approved year stays in the table
      as it was approved. */
  lemma {:induction false} ApprovedYearIsFinal(books: Books, commands: seq<Command>, row: Row)
    requires row in books.rows && row.approvedOn.Some?
    ensures row in Run(books, commands).rows
    decreases |commands|
  {
    hide Apply;
    if commands != [] {
      StepKeepsApprovedYears(books, commands[0], row);
      ApprovedYearIsFinal(Apply(books, commands[0]), commands[1..], row);
    }
  }

  // -------------------------------------------------------------------------
  // What the distributions keep
  // -------------------------------------------------------------------------

  /** A year puts in reserve and pays out no more than its net result and what it inherits. */
  predicate DistributionIsCovered(books: Books, i: nat)
    requires i < |books.rows|
  {
    var row := books.rows[i];
    && 0 <= row.legalReserve && 0 <= row.dividends
    && row.legalReserve + row.dividends <= Max(row.netResult + books.Retained(i), 0)
  }

  ghost predicate DistributionsAreCovered(books: Books) {
    forall i :: 0 <= i < |books.rows| ==> DistributionIsCovered(books, i)
  }

  /** A closing accepted before a closed year leaves that year enough to cover what it
      distributed. */
  predicate KeepsDistributions(books: Books, c: Command) {
    IsAccepted(books, c) ==>
      var n := Position(books.rows, c.startsOn);
      n == |books.rows|
      || books.rows[n].legalReserve + books.rows[n].dividends
         <= Max(books.rows[n].netResult + books.Retained(n) + ClosingNet(books, c) - c.legalReserve - c.dividends, 0)
  }

  lemma ClosingKeepsDistributionsExactly(books: Books, c: Command)
    requires Valid(books) && DistributionsAreCovered(books) && IsAccepted(books, c)
    ensures DistributionsAreCovered(Apply(books, c)) <==> KeepsDistributions(books, c)
  {
    hide ClosedRow, Position, ClosingNet, ClosingImputed, ClosingCarriedBack, CorporateIncomeTax, SumOf, Valid,
         IsWithinATenth, MayClose, MayCarryBack;
    CloseIsAcceptedExactly(books, c);
    var n, after := Position(books.rows, c.startsOn), Apply(books, c);
    hide Apply, Step;
    assert DistributionIsCovered(after, n);
    forall i | 0 <= i < n ensures DistributionIsCovered(after, i) {
      assert DistributionIsCovered(books, i);
    }
    forall i | n + 1 < i < |after.rows| ensures DistributionIsCovered(after, i) {
      assert DistributionIsCovered(books, i - 1) && after.rows[i] == books.rows[i - 1] && after.rows[i - 1] == books.rows[i - 2];
    }
    if n < |books.rows| {
      assert DistributionIsCovered(books, n) && after.rows[n + 1] == books.rows[n];
      assert DistributionIsCovered(after, n + 1) <==> KeepsDistributions(books, c);
    }
  }

  lemma OtherCommandsKeepDistributions(books: Books, c: Command)
    requires Valid(books) && DistributionsAreCovered(books) && !IsAccepted(books, c)
    ensures DistributionsAreCovered(Apply(books, c))
  {
    hide Apply, Valid, Step;
    if c.UpdateAppropriation? || c.Delete? {
      EditKeepsDistributions(books, c);
    } else {
      OthersKeepDistributions(books, c);
    }
  }

  lemma RefusalChangesNothing(books: Books, c: Command)
    ensures Step(books, c).Err? ==> Apply(books, c) == books
  {
    hide Step;
  }

  lemma EditKeepsDistributions(books: Books, c: Command)
    requires (c.UpdateAppropriation? || c.Delete?) && Valid(books) && DistributionsAreCovered(books)
    ensures DistributionsAreCovered(Apply(books, c))
  {
    hide Apply, Step, Valid, SumOf, IsWithinATenth;
    EditIsAcceptedExactly(books, c);
    RefusalChangesNothing(books, c);
    var after := Apply(books, c);
    forall i | 0 <= i < |after.rows| ensures DistributionIsCovered(after, i) {
      assert DistributionIsCovered(books, i);
    }
  }

  lemma OthersKeepDistributions(books: Books, c: Command)
    requires DistributionsAreCovered(books) && !IsAccepted(books, c) && !c.UpdateAppropriation? && !c.Delete?
    ensures DistributionsAreCovered(Apply(books, c))
  {
    hide ClosedRow, Position, Key, SumOf;
    var after := Apply(books, c);
    forall i | 0 <= i < |after.rows| ensures DistributionIsCovered(after, i) {
      assert DistributionIsCovered(books, i);
    }
  }

  /** Over every run of commands, in any order: each year distributes no more than its net result
      and what it inherits if and only if each closing accepted before a closed year leaves that
      year enough. */
  lemma DistributionsStayCoveredExactly(opening: Option<Opening>, profile: Option<Profile>, commands: seq<Command>)
    ensures var start := Books(profile, opening, []);
            AllAlong(Apply, DistributionsAreCovered, start, commands)
            <==> EachKeeps(Apply, KeepsDistributions, start, commands)
  {
    var start := Books(profile, opening, []);
    EmptyTableHoldsAll(opening, profile);
    assert DistributionsAreCovered(start);
    hide DistributionsAreCovered, KeepsDistributions, Valid, Apply;
    forall b, c | Valid(b) && DistributionsAreCovered(b)
      ensures DistributionsAreCovered(Apply(b, c)) <==> KeepsDistributions(b, c)
    {
      if IsAccepted(b, c) {
        ClosingKeepsDistributionsExactly(b, c);
      } else {
        OtherCommandsKeepDistributions(b, c);
        NothingToKeep(b, c);
      }
    }
    AppliesKeepValid();
    HoldsAlongExactly(Apply, Valid, DistributionsAreCovered, KeepsDistributions, start, commands);
  }

  lemma NothingToKeep(books: Books, c: Command)
    requires !IsAccepted(books, c)
    ensures KeepsDistributions(books, c)
  {
  }

  lemma {:induction false} InOrderKeepsDistributions(books: Books, commands: seq<Command>)
    requires RunsInOrder(books, commands)
    ensures EachKeeps(Apply, KeepsDistributions, books, commands)
    decreases |commands|
  {
    hide Apply;
    if commands != [] {
      InOrderKeepsDistributions(Apply(books, commands[0]), commands[1..]);
    }
  }

  function LossOf(r: Row): Cents { Max(-r.netResult, 0) }

  lemma {:induction false} RetainedIsNotBelowTheLosses(books: Books, n: nat)
    requires n <= |books.rows| && RetainedIsChained(books) && DistributionsAreCovered(books)
    ensures books.Retained(n) >= Min(books.OpeningRetained(), 0) - SumOf(LossOf, books.rows[..n])
    ensures SumOf(LossOf, books.rows[..n]) >= 0
  {
    if n > 0 {
      RetainedIsNotBelowTheLosses(books, n - 1);
      assert RetainedFollows(books, n - 1) && DistributionIsCovered(books, n - 1);
      SumOfPrefix(LossOf, books.rows, n);
    }
  }

  /** Along every run of closings in date order, retained earnings are negative by losses only: a
      year that ends below zero has distributed nothing, and no year ends below the opening and
      the losses so far. */
  lemma OnlyLossesMakeRetainedNegative(opening: Option<Opening>, profile: Option<Profile>, commands: seq<Command>)
    requires RunsInOrder(Books(profile, opening, []), commands)
    ensures var books := Run(Books(profile, opening, []), commands);
            && DistributionsAreCovered(books)
            && (forall row <- books.rows :: row.retainedEarnings < 0 ==> row.legalReserve == 0 == row.dividends)
            && (forall n :: 0 <= n <= |books.rows| ==>
                  books.Retained(n) >= Min(books.OpeningRetained(), 0) - SumOf(LossOf, books.rows[..n]))
  {
    var start := Books(profile, opening, []);
    var books := Run(start, commands);
    YearsClosedInOrderConserve(opening, profile, commands);
    EquityAddsUpExactly(books);
    InOrderKeepsDistributions(start, commands);
    DistributionsStayCoveredExactly(opening, profile, commands);
    HoldsAtTheEnd(DistributionsAreCovered, start, commands);
    hide Run, SumOf, EquityAddsUp, StocksAreCovered;
    forall row | row in books.rows && row.retainedEarnings < 0
      ensures row.legalReserve == 0 == row.dividends
    {
      var i :| 0 <= i < |books.rows| && books.rows[i] == row;
      assert RetainedFollows(books, i) && DistributionIsCovered(books, i);
    }
    forall n | 0 <= n <= |books.rows|
      ensures books.Retained(n) >= Min(books.OpeningRetained(), 0) - SumOf(LossOf, books.rows[..n])
    {
      RetainedIsNotBelowTheLosses(books, n);
    }
  }

  /** Over every run, whatever its order: no year imputes more than the law admits of its own
      result, and no loss year anything. */
  lemma ImputationsStayUnderTheCap(opening: Option<Opening>, profile: Option<Profile>, commands: seq<Command>)
    ensures forall row <- Run(Books(profile, opening, []), commands).rows ::
              var result := row.resultBeforeTax + Max(row.nonDeductible, 0);
              && 0 <= row.lossesImputed <= Max(result, 0)
              && (result > 100_000_000 ==> 2 * row.lossesImputed <= result + 100_000_001)
  {
    var start := Books(profile, opening, []);
    EmptyTableHoldsAll(opening, profile);
    RunKeepsValid(start, commands);
    var books := Run(start, commands);
    hide Run, CarryBackIsFrozen;
    forall i | 0 <= i < |books.rows| ensures FiguresAreFrozen(books.rows[i]) {
      assert IsFrozen(Previous(books.rows, i), books.rows[i]);
    }
    hide CorporateIncomeTax;
  }

  // -------------------------------------------------------------------------
  // A run that breaks a distribution
  // -------------------------------------------------------------------------

  /** A calendar year that pays out dividends. */
  function PaidOutYear(id: int, year: int, resultBeforeTax: Cents, dividends: Cents): Command {
    Close(id, YearMonthDay(year, 1, 1), YearMonthDay(year, 12, 31), 0, dividends, false, None, 0, resultBeforeTax)
  }

  /** The last year pays out its whole net result. */
  predicate PaysOutItsNet(books: Books, net: Cents) {
    books.rows != [] && books.rows[|books.rows| - 1].dividends == net == books.rows[|books.rows| - 1].netResult
  }

  /** A profit paid out whole, then a loss closed the year before: the profitable year now pays out
      more than it has. */
  lemma LossClosedLateUncoversDividends(profit: Cents, loss: Cents)
    requires profit > 0 && loss > 0
    ensures var net := profit - CorporateIncomeTax(profit);
            var paid := Apply(NO_BOOKS, PaidOutYear(1, 2025, profit, net));
            var books := Apply(paid, PlainYear(2, 2024, -loss, 0));
            && net > 0 && PaysOutItsNet(paid, net) && DistributionsAreCovered(paid)
            && PaysOutItsNet(books, net) && !DistributionsAreCovered(books)
  {
    hide *;
    var net := profit - CorporateIncomeTax(profit);
    ProfitOutlastsItsTax(profit);
    PaidOutCloses(profit, net);
    LateLossCloses(Apply(NO_BOOKS, PaidOutYear(1, 2025, profit, net)), loss, net);
  }

  lemma NothingAskedForNothingCarriedBack(books: Books, c: Command)
    requires c.Close? && !c.carryBack
    ensures ClosingCarriedBack(books, c) == NO_CARRY_BACK
  {
  }

  lemma PaidOutCloses(profit: Cents, net: Cents)
    requires profit > 0 && net == profit - CorporateIncomeTax(profit) > 0
    ensures var after := Apply(NO_BOOKS, PaidOutYear(1, 2025, profit, net));
            && after.profile == Some(Profile(None)) && after.opening == None && |after.rows| == 1
            && after.rows[0].startsOn == YearMonthDay(2025, 1, 1) && after.rows[0].endsOn == YearMonthDay(2025, 12, 31)
            && PaysOutItsNet(after, net) && DistributionsAreCovered(after) && Valid(after)
  {
    hide CorporateIncomeTax, ImputePriorLosses, Apply, Step, ClosingCarriedBack;
    var c := PaidOutYear(1, 2025, profit, net);
    assert Valid(NO_BOOKS) by { EmptyTableHoldsAll(None, Some(Profile(None))); }
    CloseIsAcceptedExactly(NO_BOOKS, c);
    ApplyKeepsValid(NO_BOOKS, c);
    NothingToImpute(profit);
    assert NO_BOOKS.ChainStock(0) == 0;
    NothingAskedForNothingCarriedBack(NO_BOOKS, c);
    hide Valid;
    assert ClosingNet(NO_BOOKS, c) == net;
    assert DistributionIsCovered(Apply(NO_BOOKS, c), 0);
  }

  lemma LateLossCloses(books: Books, loss: Cents, net: Cents)
    requires loss > 0 && net > 0 && PaysOutItsNet(books, net)
    requires Valid(books) && |books.rows| == 1
    requires books.profile == Some(Profile(None)) && books.opening == None
    requires books.rows[0].startsOn == YearMonthDay(2025, 1, 1) && books.rows[0].endsOn == YearMonthDay(2025, 12, 31)
    ensures var after := Apply(books, PlainYear(2, 2024, -loss, 0));
            PaysOutItsNet(after, net) && !DistributionsAreCovered(after)
  {
    hide CorporateIncomeTax, Apply, Step, ClosingCarriedBack, Valid;
    var c := PlainYear(2, 2024, -loss, 0);
    NoYearIn2024(books);
    CloseIsAcceptedExactly(books, c);
    TaxIsTheNearestEuro(-loss, 0);
    ImputationIsCappedExactly(-loss, books.ChainStock(0));
    hide ImputePriorLosses;
    NothingAskedForNothingCarriedBack(books, c);
    assert ClosingNet(books, c) == -loss;
    var after := Apply(books, c);
    assert |after.rows| == 2 && after.rows[1] == books.rows[0] && after.Retained(1) == -loss;
    assert !DistributionIsCovered(after, 1);
  }
}
