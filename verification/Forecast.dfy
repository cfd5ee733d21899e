/** The twelve-month cash forecast (crates/griffe-core/src/forecast.rs). */
module Forecast {
  import opened Basics
  import opened Money
  import opened Calendar

  const FORECAST_WINDOW_MONTHS: nat := 12

  /** An amount due on a day. */
  datatype Due = Due(on: Date, amount: Cents)

  datatype ForecastInputs = ForecastInputs(
    startingCash: Cents,
    unpaidInvoices: seq<Due>,
    pendingMissionRevenue: seq<Due>,
    weightedPipeline: Cents,
    monthlyKnownExpenses: Cents)

  datatype MonthlyForecast = MonthlyForecast(month: Month, inflow: Cents, outflow: Cents, projectedCash: Cents)

  /** Amounts due from month number `low` to month number `high`, both included. */
  function DueBetween(dues: seq<Due>, low: int, high: int): Cents {
    if dues == [] then 0
    else DueBetween(dues[..|dues| - 1], low, high)
         + if low <= Index(MonthOf(dues[|dues| - 1].on)) <= high then dues[|dues| - 1].amount else 0
  }

  function DueIn(dues: seq<Due>, month: Month): Cents {
    if dues == [] then 0
    else DueIn(dues[..|dues| - 1], month)
         + if MonthOf(dues[|dues| - 1].on) == month then dues[|dues| - 1].amount else 0
  }

  /** Cash after `n` months from today's: what was there, everything dated in those months,
      their pipeline shares, less their expenses. */
  function CashAfter(today: Date, inputs: ForecastInputs, n: nat): Cents
    requires n <= FORECAST_WINDOW_MONTHS
  {
    var first := Index(MonthOf(today));
    inputs.startingCash
    + DueBetween(inputs.unpaidInvoices, first, first + n - 1)
    + DueBetween(inputs.pendingMissionRevenue, first, first + n - 1)
    + Sum(SplitEqually(inputs.weightedPipeline, FORECAST_WINDOW_MONTHS)[..n])
    - n * inputs.monthlyKnownExpenses
  }

  /** Line `k` of a forecast. */
  predicate IsForecastOf(today: Date, inputs: ForecastInputs, f: MonthlyForecast, k: nat)
    requires k < FORECAST_WINDOW_MONTHS
  {
    && f.month == Advance(MonthOf(today), k)
    && f.projectedCash == CashAfter(today, inputs, k + 1)
    && f.inflow - f.outflow == CashAfter(today, inputs, k + 1) - CashAfter(today, inputs, k)
    && f.outflow == inputs.monthlyKnownExpenses
  }

  lemma {:induction false} DueBetweenGrows(dues: seq<Due>, low: int, m: Month)
    requires low <= Index(m)
    ensures DueBetween(dues, low, Index(m)) == DueBetween(dues, low, Index(m) - 1) + DueIn(dues, m)
  {
    if dues != [] {
      DueBetweenGrows(dues[..|dues| - 1], low, m);
      MonthsAreOrderedByIndex(MonthOf(dues[|dues| - 1].on), m);
    }
  }

  lemma {:induction false} NothingIsDueBetweenNothing(dues: seq<Due>, low: int, high: int)
    requires high < low
    ensures DueBetween(dues, low, high) == 0
  {
    if dues != [] {
      NothingIsDueBetweenNothing(dues[..|dues| - 1], low, high);
    }
  }

  lemma CashStartsWithWhatIsThere(today: Date, inputs: ForecastInputs)
    ensures CashAfter(today, inputs, 0) == inputs.startingCash
  {
    var first := Index(MonthOf(today));
    NothingIsDueBetweenNothing(inputs.unpaidInvoices, first, first - 1);
    NothingIsDueBetweenNothing(inputs.pendingMissionRevenue, first, first - 1);
  }

  lemma OneMoreTime(k: nat, amount: Cents)
    ensures (k + 1) * amount == k * amount + amount
  {
  }

  lemma CashMovesByTheMonth(today: Date, inputs: ForecastInputs, k: nat, month: Month)
    requires k < FORECAST_WINDOW_MONTHS && Index(month) == Index(MonthOf(today)) + k
    ensures CashAfter(today, inputs, k + 1)
         == CashAfter(today, inputs, k) - inputs.monthlyKnownExpenses
            + DueIn(inputs.unpaidInvoices, month) + DueIn(inputs.pendingMissionRevenue, month)
            + SplitEqually(inputs.weightedPipeline, FORECAST_WINDOW_MONTHS)[k]
  {
    hide SplitEqually, DueBetween, DueIn;
    var first, shares := Index(MonthOf(today)), SplitEqually(inputs.weightedPipeline, FORECAST_WINDOW_MONTHS);
    DueBetweenGrows(inputs.unpaidInvoices, first, month);
    DueBetweenGrows(inputs.pendingMissionRevenue, first, month);
    SplitEquallyLosesNothing(inputs.weightedPipeline, FORECAST_WINDOW_MONTHS);
    assert shares[..k + 1] == shares[..k] + [shares[k]];
    SumOfConcat(shares[..k], [shares[k]]);
    OneMoreTime(k, inputs.monthlyKnownExpenses);
  }

  method ForecastTwelveMonths(today: Date, inputs: ForecastInputs) returns (forecast: seq<MonthlyForecast>)
    ensures |forecast| == FORECAST_WINDOW_MONTHS
    ensures forall k :: 0 <= k < FORECAST_WINDOW_MONTHS ==> IsForecastOf(today, inputs, forecast[k], k)
  {
    hide CashAfter, SplitEqually, DueIn;
    var shares := SplitEqually(inputs.weightedPipeline, FORECAST_WINDOW_MONTHS);
    SplitEquallyLosesNothing(inputs.weightedPipeline, FORECAST_WINDOW_MONTHS);
    CashStartsWithWhatIsThere(today, inputs);
    var month := MonthOf(today);
    var cash := inputs.startingCash;
    forecast := [];
    for k := 0 to FORECAST_WINDOW_MONTHS
      invariant |forecast| == k
      invariant month == Advance(MonthOf(today), k) && Index(month) == Index(MonthOf(today)) + k
      invariant cash == CashAfter(today, inputs, k)
      invariant forall i :: 0 <= i < k ==> IsForecastOf(today, inputs, forecast[i], i)
    {
      var inflow := DueIn(inputs.unpaidInvoices, month) + DueIn(inputs.pendingMissionRevenue, month) + shares[k];
      var outflow := inputs.monthlyKnownExpenses;
      CashMovesByTheMonth(today, inputs, k, month);
      cash := cash + inflow - outflow;
      forecast := forecast + [MonthlyForecast(month, inflow, outflow, cash)];
      month := Succ(month);
    }
  }

  /** One more unpaid invoice raises the cash of exactly the months from its due month on;
      due before today's month, or after the twelfth, it changes nothing at all. */
  lemma OneMoreInvoice(today: Date, inputs: ForecastInputs, invoice: Due, n: nat)
    requires n <= FORECAST_WINDOW_MONTHS
    ensures CashAfter(today, inputs.(unpaidInvoices := inputs.unpaidInvoices + [invoice]), n)
         == CashAfter(today, inputs, n)
            + if Index(MonthOf(today)) <= Index(MonthOf(invoice.on)) < Index(MonthOf(today)) + n
              then invoice.amount else 0
  {
    var more := inputs.unpaidInvoices + [invoice];
    assert more[..|more| - 1] == inputs.unpaidInvoices;
  }

  /** Every other input moves the cash of each month by its own part: what there is at the start,
      whole; the expenses, once a month; a mission's inflow, from its month on. */
  lemma EachInputMovesTheCash(today: Date, inputs: ForecastInputs, n: nat, cash: Cents, expenses: Cents, inflow: Due)
    requires n <= FORECAST_WINDOW_MONTHS
    ensures CashAfter(today, inputs.(startingCash := inputs.startingCash + cash), n) == CashAfter(today, inputs, n) + cash
    ensures CashAfter(today, inputs.(monthlyKnownExpenses := inputs.monthlyKnownExpenses + expenses), n)
         == CashAfter(today, inputs, n) - n * expenses
    ensures CashAfter(today, inputs.(pendingMissionRevenue := inputs.pendingMissionRevenue + [inflow]), n)
         == CashAfter(today, inputs, n)
            + if Index(MonthOf(today)) <= Index(MonthOf(inflow.on)) < Index(MonthOf(today)) + n then inflow.amount else 0
  {
    var more := inputs.pendingMissionRevenue + [inflow];
    assert more[..|more| - 1] == inputs.pendingMissionRevenue;
    assert n * (inputs.monthlyKnownExpenses + expenses) == n * inputs.monthlyKnownExpenses + n * expenses;
    hide SplitEqually, Sum;
  }

  /** Position of the first line with negative cash, or the length. */
  function FirstNegative(forecast: seq<MonthlyForecast>): (at: nat)
    ensures at <= |forecast|
    ensures forall i :: 0 <= i < at ==> forecast[i].projectedCash >= 0
    ensures at < |forecast| ==> forecast[at].projectedCash < 0
  {
    if forecast == [] || forecast[0].projectedCash < 0 then 0 else 1 + FirstNegative(forecast[1..])
  }

  function FirstShortfallMonth(forecast: seq<MonthlyForecast>): Option<Month> {
    var at := FirstNegative(forecast);
    if at < |forecast| then Some(forecast[at].month) else None
  }

  /** One more receivable never brings the first shortfall earlier, nor creates one. */
  lemma ReceivableNeverHastensTheShortfall(today: Date, inputs: ForecastInputs, invoice: Due,
                                           before: seq<MonthlyForecast>, after: seq<MonthlyForecast>)
    requires invoice.amount >= 0 && |before| == |after| == FORECAST_WINDOW_MONTHS
    requires forall k :: 0 <= k < FORECAST_WINDOW_MONTHS ==> IsForecastOf(today, inputs, before[k], k)
    requires forall k :: 0 <= k < FORECAST_WINDOW_MONTHS ==>
               IsForecastOf(today, inputs.(unpaidInvoices := inputs.unpaidInvoices + [invoice]), after[k], k)
    ensures FirstNegative(before) <= FirstNegative(after)
    ensures FirstShortfallMonth(before) == None ==> FirstShortfallMonth(after) == None
  {
    hide CashAfter;
    var at := FirstNegative(after);
    if at < FORECAST_WINDOW_MONTHS {
      OneMoreInvoice(today, inputs, invoice, at + 1);
      assert before[at].projectedCash <= after[at].projectedCash < 0;
    }
  }

  /** The last month counts the whole pipeline, to the cent, and no invoice due before today's
      month. */
  lemma LastMonthCountsThePipeline(today: Date, inputs: ForecastInputs)
    ensures CashAfter(today, inputs, 12)
         == inputs.startingCash + inputs.weightedPipeline - 12 * inputs.monthlyKnownExpenses
            + DueBetween(inputs.unpaidInvoices, Index(MonthOf(today)), Index(MonthOf(today)) + 11)
            + DueBetween(inputs.pendingMissionRevenue, Index(MonthOf(today)), Index(MonthOf(today)) + 11)
  {
    var shares := SplitEqually(inputs.weightedPipeline, 12);
    SplitEquallyLosesNothing(inputs.weightedPipeline, 12);
    assert shares[..12] == shares;
  }

  // -------------------------------------------------------------------------
  // Missions as dated inflows
  // -------------------------------------------------------------------------

  datatype Installment = Installment(dueOn: Option<Date>, amount: Cents)

  datatype BillingSchedule =
    | Regie(dailyRate: Cents)
    | Forfait(installments: seq<Installment>)
    | Recurrent(monthlyAmount: Cents)

  /** An active mission and what was already invoiced on it. */
  datatype Mission = Mission(schedule: BillingSchedule, alreadyInvoiced: Cents)

  function AddDays(d: Date, days: nat): Date {
    if days == 0 then d else NextDay(AddDays(d, days - 1))
  }

  function Budget(installments: seq<Installment>): Cents {
    if installments == [] then 0
    else Budget(installments[..|installments| - 1]) + installments[|installments| - 1].amount
  }

  /** The last dated installment. */
  function LastDue(installments: seq<Installment>): Option<Date> {
    if installments == [] then None
    else
      var last, rest := installments[|installments| - 1].dueOn, LastDue(installments[..|installments| - 1]);
      if last.None? then rest else if rest.None? then last else Some(Later(rest.value, last.value))
  }

  /** Day and amount of what a fixed-price mission has left to invoice. */
  function ForfaitDue(today: Date, installments: seq<Installment>, alreadyInvoiced: Cents): Option<Due> {
    var remaining := Budget(installments) - alreadyInvoiced;
    var due := LastDue(installments);
    if remaining <= 0 then None
    else Some(Due(Later(if due.Some? then due.value else AddDays(today, 90), today), remaining))
  }

  /** What a mission brings in month number `index`, of the twelve from `today`'s. */
  function MissionInflow(today: Date, mission: Mission, index: int): Cents {
    match mission.schedule
    case Regie(_) => 0
    case Forfait(installments) =>
      var due := ForfaitDue(today, installments, mission.alreadyInvoiced);
      if due.Some? && Index(MonthOf(due.value.on)) == index then due.value.amount else 0
    case Recurrent(amount) => if 0 <= index - Index(MonthOf(today)) < 12 then amount else 0
  }

  function InflowOf(today: Date, missions: seq<Mission>, index: int): Cents {
    if missions == [] then 0
    else InflowOf(today, missions[..|missions| - 1], index) + MissionInflow(today, missions[|missions| - 1], index)
  }

  lemma DueInAppend(dues: seq<Due>, due: Due, month: Month)
    ensures DueIn(dues + [due], month) == DueIn(dues, month) + if MonthOf(due.on) == month then due.amount else 0
  {
    assert (dues + [due])[..|dues|] == dues;
  }

  /** Every month receives what each mission brings it, once: a recurrent mission its amount in
      each of the twelve months, a fixed-price one its remainder in one month, never before
      today; a time-based one nothing. */
  method PendingMissionRevenue(today: Date, missions: seq<Mission>) returns (pending: seq<Due>)
    ensures forall month: Month :: DueIn(pending, month) == InflowOf(today, missions, Index(month))
    ensures forall i :: 0 <= i < |pending| ==> Index(MonthOf(pending[i].on)) >= Index(MonthOf(today))
  {
    hide Key, ForfaitDue, DueIn;
    pending := [];
    assert forall month: Month :: DueIn(pending, month) == 0 by { NothingIsDue(); }
    for i := 0 to |missions|
      invariant forall month: Month :: DueIn(pending, month) == InflowOf(today, missions[..i], Index(month))
      invariant forall j :: 0 <= j < |pending| ==> Index(MonthOf(pending[j].on)) >= Index(MonthOf(today))
    {
      assert missions[..i + 1][..i] == missions[..i];
      match missions[i].schedule
      case Regie(_) =>
      case Forfait(installments) =>
        var due := ForfaitDue(today, installments, missions[i].alreadyInvoiced);
        ForfaitIsNotPast(today, installments, missions[i].alreadyInvoiced);
        if due.Some? {
          ghost var before := pending;
          pending := pending + [due.value];
          forall month: Month
            ensures DueIn(pending, month) == InflowOf(today, missions[..i + 1], Index(month))
          {
            DueInAppend(before, due.value, month);
            MonthsAreOrderedByIndex(MonthOf(due.value.on), month);
          }
        }
      case Recurrent(amount) => pending := PushEveryMonth(today, amount, pending);
    }
    assert missions[..|missions|] == missions;
  }

  lemma NothingIsDue()
    ensures forall month: Month :: DueIn([], month) == 0
  {
  }

  lemma ForfaitIsNotPast(today: Date, installments: seq<Installment>, alreadyInvoiced: Cents)
    ensures var due := ForfaitDue(today, installments, alreadyInvoiced);
            due.Some? ==> Index(MonthOf(due.value.on)) >= Index(MonthOf(today))
  {
    var due := ForfaitDue(today, installments, alreadyInvoiced);
    if due.Some? {
      DatesAreOrderedByKey(due.value.on, today);
    }
  }

  function Amounts(installments: seq<Installment>): seq<Cents> {
    seq(|installments|, i requires 0 <= i < |installments| => installments[i].amount)
  }

  /** The day a fixed price is billed: today, or later the last of the days its installments are
      due; without any such day, ninety days from today. */
  predicate IsBillingDay(today: Date, installments: seq<Installment>, day: Date) {
    && AtMost(today, day)
    && (forall x <- installments :: x.dueOn.Some? ==> AtMost(x.dueOn.value, day))
    && if forall x <- installments :: x.dueOn.None? then day == AddDays(today, 90)
       else day == today || exists x <- installments :: x.dueOn == Some(day)
  }

  lemma {:induction false} BudgetIsTheSum(installments: seq<Installment>)
    ensures Budget(installments) == Sum(Amounts(installments))
  {
    if installments != [] {
      var n := |installments| - 1;
      BudgetIsTheSum(installments[..n]);
      assert Amounts(installments) == Amounts(installments[..n]) + [installments[n].amount];
      SumOfConcat(Amounts(installments[..n]), [installments[n].amount]);
    }
  }

  lemma {:induction false} LastDueExactly(installments: seq<Installment>)
    ensures LastDue(installments).None? <==> forall x <- installments :: x.dueOn.None?
    ensures LastDue(installments).Some? ==>
              && (exists x <- installments :: x.dueOn == LastDue(installments))
              && forall x <- installments :: x.dueOn.Some? ==> AtMost(x.dueOn.value, LastDue(installments).value)
  {
    hide Key;
    if installments != [] {
      var n := |installments| - 1;
      var rest, last := installments[..n], installments[n];
      LastDueExactly(rest);
      assert installments == rest + [last] && last in installments;
      assert forall x :: x in installments <==> x in rest || x == last;
      assert forall x <- rest :: x in installments;
      forall a: Date, b: Date ensures AtMost(a, b) || AtMost(b, a) { OrderedEitherWay(a, b); }
      forall a: Date, b: Date, c: Date | AtMost(a, b) && AtMost(b, c) ensures AtMost(a, c) { OrderedThrough(a, b, c); }
      if last.dueOn.Some? {
        assert LastDue(installments).value == (if LastDue(rest).None? then last.dueOn.value else Later(LastDue(rest).value, last.dueOn.value));
        OrderedEitherWay(last.dueOn.value, last.dueOn.value);
      }
    }
  }

  lemma OrderedEitherWay(a: Date, b: Date)
    ensures AtMost(a, b) || AtMost(b, a)
    ensures AtMost(a, a)
  {
  }

  lemma OrderedThrough(a: Date, b: Date, c: Date)
    requires AtMost(a, b) && AtMost(b, c)
    ensures AtMost(a, c)
  {
  }

  /** What a mission brings to a month: a time-based one nothing; a recurrent one its amount, in each of
      the twelve months; a fixed price what is left to invoice of its installments, on its one
      billing day. */
  lemma MissionBringsExactly(today: Date, mission: Mission, index: int)
    ensures mission.schedule.Regie? ==> MissionInflow(today, mission, index) == 0
    ensures mission.schedule.Recurrent? ==>
              MissionInflow(today, mission, index)
              == if Index(MonthOf(today)) <= index <= Index(MonthOf(today)) + 11 then mission.schedule.monthlyAmount else 0
    ensures mission.schedule.Forfait? ==>
              var installments := mission.schedule.installments;
              var left := Sum(Amounts(installments)) - mission.alreadyInvoiced;
              exists day: Date :: IsBillingDay(today, installments, day) &&
                MissionInflow(today, mission, index) == if left > 0 && index == Index(MonthOf(day)) then left else 0
  {
    if mission.schedule.Forfait? {
      var installments := mission.schedule.installments;
      var last := LastDue(installments);
      BudgetIsTheSum(installments);
      LastDueExactly(installments);
      NotBeforeToday(today, 90);
      var day := Later(if last.Some? then last.value else AddDays(today, 90), today);
      hide AddDays, LastDue, Budget, Sum;
      assert IsBillingDay(today, installments, day) by {
        if last.None? {
          DatesAreOrderedByKey(day, today);
          DatesAreOrderedByKey(AddDays(today, 90), today);
        }
      }
    }
  }

  lemma BillingDayIsTheOnlyOne(today: Date, installments: seq<Installment>, a: Date, b: Date)
    requires IsBillingDay(today, installments, a) && IsBillingDay(today, installments, b)
    ensures a == b
  {
    DatesAreOrderedByKey(a, b);
    hide AddDays;
  }

  lemma {:induction false} NotBeforeToday(today: Date, days: nat)
    ensures AtMost(today, AddDays(today, days))
  {
    if days > 0 {
      NotBeforeToday(today, days - 1);
      NextDayIsLater(AddDays(today, days - 1));
    }
  }

  lemma NextDayIsLater(d: Date)
    ensures Before(d, NextDay(d))
  {
  }

  /** The twelve dated inflows of a recurrent mission. */
  method PushEveryMonth(today: Date, amount: Cents, before: seq<Due>) returns (pending: seq<Due>)
    ensures forall month: Month ::
              DueIn(pending, month) == DueIn(before, month)
                + if 0 <= Index(month) - Index(MonthOf(today)) < 12 then amount else 0
    ensures before <= pending
    ensures forall j :: |before| <= j < |pending| ==> Index(MonthOf(pending[j].on)) >= Index(MonthOf(today))
  {
    hide Key, DueIn;
    pending := before;
    for offset := 0 to FORECAST_WINDOW_MONTHS
      invariant before <= pending
      invariant forall j :: |before| <= j < |pending| ==> Index(MonthOf(pending[j].on)) >= Index(MonthOf(today))
      invariant forall month: Month ::
                  DueIn(pending, month) == DueIn(before, month)
                    + if 0 <= Index(month) - Index(MonthOf(today)) < offset then amount else 0
    {
      var month := Advance(MonthOf(today), offset);
      AdvanceIndex(MonthOf(today), offset);
      ghost var soFar := pending;
      pending := pending + [Due(FirstDay(month), amount)];
      forall m: Month
        ensures DueIn(pending, m) == DueIn(before, m)
                  + if 0 <= Index(m) - Index(MonthOf(today)) < offset + 1 then amount else 0
      {
        DueInAppend(soFar, Due(FirstDay(month), amount), m);
        MonthsAreOrderedByIndex(month, m);
      }
    }
  }
}
