/** Corporate tax, loss carry-forward and loss carry-back
    (crates/griffe-core/src/accounting.rs). */
module Tax {
  import opened Money

  const REDUCED_RATE_CEILING: Cents := 4_250_000
  const REDUCED_RATE_BPS: nat := 1_500
  const NORMAL_RATE_BPS: nat := 2_500
  const LOSS_CARRY_FORWARD_CAP: Cents := 100_000_000
  const LOSS_CARRY_FORWARD_EXCESS_BPS: nat := 5_000
  const LOSS_CARRY_BACK_CAP: Cents := 100_000_000
  const I64_MAX: int := 9_223_372_036_854_775_807

  // -------------------------------------------------------------------------
  // Corporate tax
  // -------------------------------------------------------------------------

  function CorporateIncomeTax(result: Cents): Cents {
    if result <= 0 then 0
    else
      var base := RoundToEuro(result);
      var onReduced := ApplyRateBps(Min(base, REDUCED_RATE_CEILING), REDUCED_RATE_BPS);
      var tax := if base > REDUCED_RATE_CEILING
                 then onReduced + ApplyRateBps(base - REDUCED_RATE_CEILING, NORMAL_RATE_BPS)
                 else onReduced;
      RoundToEuro(tax)
  }

  /** The two-bracket scale without any rounding, in ten-thousandths of a cent. */
  function TwoBracketTax(base: Cents): int {
    if base <= REDUCED_RATE_CEILING then REDUCED_RATE_BPS * base
    else REDUCED_RATE_BPS * REDUCED_RATE_CEILING + NORMAL_RATE_BPS * (base - REDUCED_RATE_CEILING)
  }

  lemma RateOfWholeEuros(base: Cents, bps: nat)
    requires base % 100 == 0 && (bps == REDUCED_RATE_BPS || bps == NORMAL_RATE_BPS)
    ensures 10_000 * ApplyRateBps(base, bps) == base * bps
  {
    var q := base / 100 * (bps / 100);
    assert base * bps == 10_000 * q;
    HalfEvenIsUnique(base * bps, 10_000, q);
  }

  /** A profit is taxed the one whole number of euros within half a euro of the exact
      two-bracket tax on the euro-rounded profit; exactly half a euro rounds up. A loss and a
      null result are taxed nothing. */
  lemma TaxIsTheNearestEuro(result: Cents, tax: Cents)
    ensures result <= 0 ==> CorporateIncomeTax(result) == 0
    ensures result > 0 ==>
              (tax == CorporateIncomeTax(result) <==>
               && tax % 100 == 0
               && 10_000 * (tax - 50) <= TwoBracketTax(RoundToEuro(result)) < 10_000 * (tax + 50))
  {
    if result > 0 {
      RoundToEuroIsNearest(result);
      var base := RoundToEuro(result);
      assert REDUCED_RATE_CEILING % 100 == 0;
      RateOfWholeEuros(Min(base, REDUCED_RATE_CEILING), REDUCED_RATE_BPS);
      RateOfWholeEuros(base - REDUCED_RATE_CEILING, NORMAL_RATE_BPS);
      var exact := ApplyRateBps(Min(base, REDUCED_RATE_CEILING), REDUCED_RATE_BPS)
      + if base > REDUCED_RATE_CEILING then ApplyRateBps(base - REDUCED_RATE_CEILING, NORMAL_RATE_BPS) else 0;
      assert 10_000 * exact == TwoBracketTax(base);
      assert CorporateIncomeTax(result) == RoundToEuro(exact);
      hide ApplyRateBps, RoundToEuro;
      NearestEuroExactly(exact, tax);
    }
  }

  /** `tax` is the whole-euro tax on a euro-rounded base. */
  predicate IsTaxOn(base: Cents, tax: Cents) {
    && base % 100 == 0 && tax % 100 == 0 && tax >= 0
    && 10_000 * (tax - 50) <= TwoBracketTax(base) < 10_000 * (tax + 50)
  }

  lemma TaxOnTheRoundedProfit(result: Cents)
    requires result > 0
    ensures IsTaxOn(RoundToEuro(result), CorporateIncomeTax(result))
  {
    hide CorporateIncomeTax, RoundToEuro;
    RoundToEuroIsNearest(result);
    TaxIsTheNearestEuro(result, CorporateIncomeTax(result));
  }

  lemma TaxesAreOrdered(base: Cents, tax: Cents, base': Cents, tax': Cents)
    requires IsTaxOn(base, tax) && IsTaxOn(base', tax') && base <= base'
    ensures tax <= tax'
    ensures base' <= base + 100 ==> tax' <= tax + 100
  {
    assert TwoBracketTax(base) <= TwoBracketTax(base');
    assert TwoBracketTax(base') <= TwoBracketTax(base) + 2_500 * (base' - base);
  }

  lemma TaxIsMonotone(a: Cents, b: Cents)
    requires a <= b
    ensures 0 <= CorporateIncomeTax(a) <= CorporateIncomeTax(b)
  {
    if a > 0 {
      TaxOnTheRoundedProfit(a);
      TaxOnTheRoundedProfit(b);
      RoundToEuroIsMonotone(a, b);
      TaxesAreOrdered(RoundToEuro(a), CorporateIncomeTax(a), RoundToEuro(b), CorporateIncomeTax(b));
    } else if b > 0 {
      TaxOnTheRoundedProfit(b);
    }
  }

  /** One more taxable euro costs at most one euro of tax, across the zero
      and the 42 500 € thresholds. */
  lemma OneEuroCostsAtMostOneEuro(a: Cents, b: Cents)
    requires a <= b <= a + 100
    ensures CorporateIncomeTax(b) <= CorporateIncomeTax(a) + 100
  {
    if a > 0 {
      TaxOnTheRoundedProfit(a);
      TaxOnTheRoundedProfit(b);
      RoundToEuroIsMonotone(a, b);
      TaxesAreOrdered(RoundToEuro(a), CorporateIncomeTax(a), RoundToEuro(b), CorporateIncomeTax(b));
    } else {
      TaxIsMonotone(b, 100);
      SmallTaxes(100);
    }
  }

  /** The tax stays within 25 % of the profit (to the cent) except from 3,50 € to 3,97 €,
      where the euro rounding takes it to one euro. */
  lemma TaxExceedsAQuarterExactly(result: Cents)
    ensures CorporateIncomeTax(result) <= Max(ApplyRateBps(result, NORMAL_RATE_BPS), 0)
       <==> !(350 <= result <= 397)
  {
    var rate := ApplyRateBps(result, NORMAL_RATE_BPS);
    ApplyRateBpsIsNearest(result, NORMAL_RATE_BPS);
    if 0 < result < 600 {
      SmallTaxes(result);
    } else if result >= 600 {
      RoundToEuroIsNearest(result);
      TaxOnTheRoundedProfit(result);
    }
  }

  lemma SmallTaxes(result: Cents)
    requires 0 < result < 600
    ensures CorporateIncomeTax(result) == if result < 350 then 0 else 100
  {
    RoundToEuroIsNearest(result);
    TaxIsTheNearestEuro(result, if result < 350 then 0 else 100);
  }

  // -------------------------------------------------------------------------
  // Loss carry-forward
  // -------------------------------------------------------------------------

  function LossCarryForwardCeiling(profit: Cents): Cents {
    if profit <= LOSS_CARRY_FORWARD_CAP then Max(profit, 0)
    else LOSS_CARRY_FORWARD_CAP
         + ApplyRateBps(profit - LOSS_CARRY_FORWARD_CAP, LOSS_CARRY_FORWARD_EXCESS_BPS)
  }

  datatype LossImputation = LossImputation(imputed: Cents, taxableResult: Cents, remaining: Cents)

  function ImputePriorLosses(result: Cents, available: Cents): LossImputation {
    var available := Max(available, 0);
    if result <= 0 then LossImputation(0, result, available)
    else
      var imputed := Min(available, LossCarryForwardCeiling(result));
      LossImputation(imputed, result - imputed, available - imputed)
  }

  /** The ceiling rises with the profit, and never faster. */
  lemma CeilingRisesNoFaster(a: Cents, b: Cents)
    requires a <= b
    ensures 0 <= LossCarryForwardCeiling(b) - LossCarryForwardCeiling(a) <= Max(b, 0) - Max(a, 0)
    decreases b - a
  {
    if a <= b - 1 {
      CeilingRisesNoFaster(a, b - 1);
      if b > LOSS_CARRY_FORWARD_CAP {
        var x := b - LOSS_CARRY_FORWARD_CAP;
        ApplyRateBpsIsNearest(x, LOSS_CARRY_FORWARD_EXCESS_BPS);
        ApplyRateBpsIsNearest(x - 1, LOSS_CARRY_FORWARD_EXCESS_BPS);
        ApplyRateBpsIsMonotone(x - 1, x, LOSS_CARRY_FORWARD_EXCESS_BPS);
      }
    }
  }

  /** A loss imputes nothing. A profit imputes the whole stock, or all the law admits: itself up
      to 1 000 000 €; above, 1 000 000 € and half of what exceeds it, half a cent to the even one.
      Nothing imputes more. */
  lemma ImputationIsCappedExactly(result: Cents, available: Cents)
    ensures var i, stock := ImputePriorLosses(result, available), Max(available, 0);
            && i.imputed + i.taxableResult == result && i.imputed + i.remaining == stock && 0 <= i.imputed <= stock
            && (result <= 0 ==> i.imputed == 0)
            && (0 < result <= 100_000_000 ==> i.imputed <= result && (i.imputed == stock || i.imputed == result))
            && (result > 100_000_000 ==>
                  && 2 * i.imputed <= result + 100_000_001
                  && (i.imputed == stock || IsHalfEven(result + 100_000_000, 2, i.imputed)))
  {
    if result > LOSS_CARRY_FORWARD_CAP {
      ApplyRateBpsIsNearest(result - LOSS_CARRY_FORWARD_CAP, LOSS_CARRY_FORWARD_EXCESS_BPS);
    }
    hide ApplyRateBps;
  }

  /** A larger result is never taxed less, a larger loss stock never more. */
  lemma TaxAfterImputationIsMonotone(a: Cents, b: Cents, stockA: Cents, stockB: Cents)
    requires a <= b && stockA >= stockB
    ensures CorporateIncomeTax(ImputePriorLosses(a, stockA).taxableResult)
         <= CorporateIncomeTax(ImputePriorLosses(b, stockB).taxableResult)
  {
    hide CorporateIncomeTax, ApplyRateBps;
    CeilingRisesNoFaster(a, b);
    CeilingRisesNoFaster(0, Max(b, 0));
    TaxIsMonotone(ImputePriorLosses(a, stockA).taxableResult, ImputePriorLosses(b, stockB).taxableResult);
  }

  /** Result after tax, the add-back of non-deductible charges raising the tax base only. */
  function NetResult(beforeTax: Cents, nonDeductible: Cents, stock: Cents): Cents {
    beforeTax - CorporateIncomeTax(ImputePriorLosses(beforeTax + Max(nonDeductible, 0), stock).taxableResult)
  }

  /** Earning one more euro never lowers the net result, whatever the loss stock. */
  lemma OneMoreEuroNeverCosts(beforeTax: Cents, nonDeductible: Cents, stock: Cents)
    ensures NetResult(beforeTax, nonDeductible, stock) <= NetResult(beforeTax + 100, nonDeductible, stock)
  {
    hide CorporateIncomeTax, ApplyRateBps;
    var base := beforeTax + Max(nonDeductible, 0);
    CeilingRisesNoFaster(base, base + 100);
    CeilingRisesNoFaster(0, Max(base + 100, 0));
    OneEuroCostsAtMostOneEuro(
      ImputePriorLosses(base, stock).taxableResult, ImputePriorLosses(base + 100, stock).taxableResult);
  }

  /** The tax on a whole number of euros. */
  function EuroTax(euros: nat): Cents {
    if euros <= 42_500 then 100 * ((15 * euros + 50) / 100)
    else 637_500 + 100 * ((25 * (euros - 42_500) + 50) / 100)
  }

  lemma TaxInEuros(result: Cents)
    requires result > 0
    ensures CorporateIncomeTax(result) == EuroTax((result + 50) / 100)
  {
    var euros := (result + 50) / 100;
    NearestEuroExactly(result, 100 * euros);
    hide CorporateIncomeTax, RoundToEuro;
    TaxIsTheNearestEuro(result, EuroTax(euros));
  }

  /** The tax rises with this euro of profit. */
  predicate IsAStep(euros: nat) {
    if euros <= 42_500 then (15 * euros + 50) % 100 < 15 else (25 * (euros - 42_500) + 50) % 100 < 25
  }

  lemma EuroTaxRises(euros: nat)
    requires euros > 0
    ensures EuroTax(euros) == EuroTax(euros - 1) + if IsAStep(euros) then 100 else 0
  {
    if euros <= 42_500 {
      OneStep(15 * euros + 35, 15);
    } else {
      OneStep(25 * (euros - 42_500) + 25, 25);
    }
  }

  lemma OneStep(m: nat, rise: nat)
    requires rise < 100
    ensures (m + rise) / 100 == m / 100 + if (m + rise) % 100 < rise then 1 else 0
  {
  }

  /** One more taxable cent costs a euro of tax exactly when it rounds the base up to a euro on
      which the tax rises; otherwise nothing. */
  predicate CostsAEuro(taxable: Cents) { taxable > 0 && taxable % 100 == 49 && IsAStep(taxable / 100 + 1) }

  lemma OneMoreTaxableCent(taxable: Cents)
    ensures CorporateIncomeTax(taxable + 1) == CorporateIncomeTax(taxable) + if CostsAEuro(taxable) then 100 else 0
  {
    hide CorporateIncomeTax, EuroTax, IsAStep;
    if taxable > 0 {
      TaxInEuros(taxable);
      TaxInEuros(taxable + 1);
      EuroTaxRises(taxable / 100 + 1);
    } else {
      TaxIsTheNearestEuro(taxable, 0);
      TaxIsTheNearestEuro(taxable + 1, 0);
      if taxable == 0 {
        SmallTaxes(1);
      }
    }
  }

  function Taxable(beforeTax: Cents, nonDeductible: Cents, stock: Cents): Cents {
    ImputePriorLosses(beforeTax + Max(nonDeductible, 0), stock).taxableResult
  }

  /** Earning one more cent lowers the net result exactly when the loss stock does not absorb it
      and it costs a euro of tax; the net result then falls by 99 cents. */
  lemma OneMoreCentCostsExactly(beforeTax: Cents, nonDeductible: Cents, stock: Cents)
    ensures var taxable, more := Taxable(beforeTax, nonDeductible, stock), Taxable(beforeTax + 1, nonDeductible, stock);
            && (more == taxable || more == taxable + 1)
            && (NetResult(beforeTax + 1, nonDeductible, stock) < NetResult(beforeTax, nonDeductible, stock)
                <==> more != taxable && CostsAEuro(taxable))
            && NetResult(beforeTax + 1, nonDeductible, stock)
               == NetResult(beforeTax, nonDeductible, stock) + (if more != taxable && CostsAEuro(taxable) then -99 else 1)
  {
    NoCeilingOnNothing();
    hide CorporateIncomeTax, ApplyRateBps, CostsAEuro, LossCarryForwardCeiling;
    var base := beforeTax + Max(nonDeductible, 0);
    CeilingRisesNoFaster(base, base + 1);
    CeilingRisesNoFaster(0, Max(base + 1, 0));
    OneMoreTaxableCent(Taxable(beforeTax, nonDeductible, stock));
  }

  lemma NoCeilingOnNothing()
    ensures LossCarryForwardCeiling(0) == 0
  {
  }

  /** From 3,49 € to 3,50 € the tax goes from nothing to one euro. */
  lemma OneMoreCentCanCost()
    ensures CostsAEuro(349) && NetResult(350, 0, 0) < NetResult(349, 0, 0)
  {
    SmallTaxes(349);
    SmallTaxes(350);
    hide CorporateIncomeTax;
  }

  // -------------------------------------------------------------------------
  // Loss carry-back
  // -------------------------------------------------------------------------

  datatype CarryBackBase = CarryBackBase(taxableProfit: Cents, distributed: Cents)

  datatype CarryBackResult = CarryBackResult(imputed: Cents, credit: Cents)

  const NO_CARRY_BACK := CarryBackResult(0, 0)

  function Imputable(base: CarryBackBase): Cents {
    Max(base.taxableProfit - Max(base.distributed, 0), 0)
  }

  function ReducedFraction(profit: Cents): Cents {
    Min(profit, REDUCED_RATE_CEILING)
  }

  /** The prorata before it is narrowed to 64 bits. */
  function Prorata(base: CarryBackBase): int
    requires base.taxableProfit > 0
  {
    ReducedFraction(base.taxableProfit) * Imputable(base) / base.taxableProfit
  }

  function ReducedBase(base: CarryBackBase): Cents
    requires base.taxableProfit > 0
  {
    var prorata := Prorata(base);
    if -I64_MAX - 1 <= prorata <= I64_MAX then prorata else ReducedFraction(base.taxableProfit)
  }

  function NormalBase(base: CarryBackBase): Cents
    requires base.taxableProfit > 0
  {
    Imputable(base) - ReducedBase(base)
  }

  function Capped(deficit: Cents, base: CarryBackBase): Cents {
    Min(Min(deficit, LOSS_CARRY_BACK_CAP), Imputable(base))
  }

  function OnNormal(deficit: Cents, base: CarryBackBase): Cents
    requires base.taxableProfit > 0
  {
    Min(Capped(deficit, base), NormalBase(base))
  }

  function OnReduced(deficit: Cents, base: CarryBackBase): Cents
    requires base.taxableProfit > 0
  {
    Min(Capped(deficit, base) - OnNormal(deficit, base), ReducedBase(base))
  }

  function CarryBack(deficit: Cents, base: CarryBackBase): CarryBackResult {
    if deficit <= 0 || base.taxableProfit <= 0 then NO_CARRY_BACK
    else if Capped(deficit, base) == 0 then NO_CARRY_BACK
    else
      var onNormal, onReduced := OnNormal(deficit, base), OnReduced(deficit, base);
      CarryBackResult(
        onNormal + onReduced,
        ApplyRateBps(onNormal, NORMAL_RATE_BPS) + ApplyRateBps(onReduced, REDUCED_RATE_BPS))
  }

  lemma GapIsAProduct(a: nat, b: int, c: int)
    requires c <= b
    ensures a * b - a * c == a * (b - c) >= 0
  {
    assert a * (b - c) == a * b - a * c;
  }

  lemma ProrataBetween(profit: int, imputable: nat, fraction: nat)
    requires profit > 0 && imputable <= profit && fraction <= profit
    ensures var prorata := fraction * imputable / profit;
            && 0 <= prorata <= fraction
            && prorata <= imputable
            && imputable - prorata <= profit - fraction
  {
    var rest, low := profit - imputable, fraction - (profit - imputable);
    GapIsAProduct(fraction, profit, imputable);
    GapIsAProduct(imputable, profit, fraction);
    GapIsAProduct(rest, profit, fraction);
    assert fraction * imputable == fraction * profit - fraction * rest by {
      GapIsAProduct(fraction, profit, rest);
    }
    assert profit * low == profit * fraction - profit * rest;
    QuotientBetween(fraction * imputable, profit, 0, fraction);
    QuotientBetween(fraction * imputable, profit, low, imputable);
  }

  /** The prorata fits: it never exceeds the reduced fraction of the profit, nor leaves more
      at the normal rate than the profit had there. The 64-bit fallback is never taken. */
  lemma ProrataIsBoundedByItsBase(base: CarryBackBase)
    requires base.taxableProfit > 0
    ensures 0 <= Prorata(base) <= ReducedFraction(base.taxableProfit) <= I64_MAX
    ensures ReducedBase(base) == Prorata(base)
    ensures 0 <= NormalBase(base) <= base.taxableProfit - ReducedFraction(base.taxableProfit)
  {
    ProrataBetween(base.taxableProfit, Imputable(base), ReducedFraction(base.taxableProfit));
  }

  /** Distributions leave the two rates in proportion: the part of the undistributed profit at the
      reduced rate is its share of the profit, to less than a cent, and the 64-bit fallback is
      never taken. */
  lemma ProrataIsProportional(base: CarryBackBase)
    requires base.taxableProfit > 0
    ensures var profit := base.taxableProfit;
            var undistributed := Max(profit - Max(base.distributed, 0), 0);
            && 0 <= Min(profit, 4_250_000) * undistributed - ReducedBase(base) * profit < profit
            && ReducedBase(base) + NormalBase(base) == undistributed
            && ReducedBase(base) == Prorata(base)
  {
    ProrataIsBoundedByItsBase(base);
    QuotientFits(Min(base.taxableProfit, 4_250_000) * Imputable(base), base.taxableProfit);
  }

  lemma QuotientFits(a: int, b: int)
    requires b > 0
    ensures 0 <= a - a / b * b < b
  {
  }

  /** A deficit is carried back in full, up to 1 000 000 € and to the undistributed profit,
      and nothing is carried back without a deficit and a profit. */
  lemma CarryBackImputesTheLesser(deficit: Cents, base: CarryBackBase)
    ensures CarryBack(deficit, base).imputed ==
            if deficit > 0 && base.taxableProfit > 0
            then Min(Min(deficit, 100_000_000), Max(base.taxableProfit - Max(base.distributed, 0), 0))
            else 0
    ensures CarryBack(deficit, base).credit >= 0
    ensures CarryBack(deficit, base).imputed == 0 ==> CarryBack(deficit, base) == NO_CARRY_BACK
  {
    hide ApplyRateBps, Prorata;
    if base.taxableProfit > 0 {
      ProrataIsBoundedByItsBase(base);
      if deficit > 0 {
        ApplyRateBpsIsNearest(OnNormal(deficit, base), NORMAL_RATE_BPS);
        ApplyRateBpsIsNearest(OnReduced(deficit, base), REDUCED_RATE_BPS);
      }
    }
  }

  /** No feasible split of the deficit between the two rates is worth more than the
      normal-rate-first split, and the credit is that worth to within one cent. */
  lemma NormalRateFirstIsBest(deficit: Cents, base: CarryBackBase, normal: Cents, reduced: Cents)
    requires deficit > 0 && base.taxableProfit > 0
    requires 0 <= normal <= NormalBase(base) && 0 <= reduced <= ReducedBase(base)
    requires normal + reduced <= Min(deficit, LOSS_CARRY_BACK_CAP)
    ensures 2_500 * normal + 1_500 * reduced
         <= 2_500 * OnNormal(deficit, base) + 1_500 * OnReduced(deficit, base)
    ensures Abs(2_500 * OnNormal(deficit, base) + 1_500 * OnReduced(deficit, base)
                - 10_000 * CarryBack(deficit, base).credit) <= 10_000
  {
    hide ApplyRateBps, Prorata;
    ProrataIsBoundedByItsBase(base);
    ApplyRateBpsIsNearest(OnNormal(deficit, base), NORMAL_RATE_BPS);
    ApplyRateBpsIsNearest(OnReduced(deficit, base), REDUCED_RATE_BPS);
  }

  /** What the carry-back of `imputed` is worth when the undistributed profit bears both rates in
      exact proportion and the normal rate is filled first: in ten-thousandths of a cent, times
      the profit. */
  function ExactCredit(profit: Cents, undistributed: Cents, imputed: Cents): int {
    var atNormalRate := Min(imputed * profit, (profit - Min(profit, 4_250_000)) * undistributed);
    2_500 * atNormalRate + 1_500 * (imputed * profit - atNormalRate)
  }

  /** For every deficit, profit and distribution, the credit is the exact proportional one to
      1.1 cent: half a cent for each rounding, a tenth for the cent the split may cost. */
  lemma CreditIsNearTheProportionalOne(deficit: Cents, profit: Cents, distributed: Cents)
    requires deficit > 0 && profit > 0
    ensures var undistributed := Max(profit - Max(distributed, 0), 0);
            var imputed := Min(Min(deficit, 100_000_000), undistributed);
            Abs(10_000 * profit * CarryBack(deficit, CarryBackBase(profit, distributed)).credit
                - ExactCredit(profit, undistributed, imputed)) <= 11_000 * profit
  {
    hide ApplyRateBps, Prorata;
    var base := CarryBackBase(profit, distributed);
    var undistributed, imputed := Imputable(base), Capped(deficit, base);
    ProrataIsBoundedByItsBase(base);
    ProrataIsProportional(base);
    var normal, reduced, credit := OnNormal(deficit, base), OnReduced(deficit, base), CarryBack(deficit, base).credit;
    NormalRateFirstIsBest(deficit, base, normal, reduced);
    assert normal + reduced == imputed;
    hide ReducedBase, NormalBase;
    NormalPartIsNear(profit, undistributed, NormalBase(base), ReducedBase(base), imputed, normal);
    hide OnNormal, OnReduced, CarryBack;
    CreditOfANearPart(profit, imputed, normal, credit,
                      Min(imputed * profit, (profit - Min(profit, 4_250_000)) * undistributed));
  }

  lemma NormalPartIsNear(profit: int, undistributed: int, normalBase: int, reducedBase: int, imputed: int, normal: int)
    requires profit > 0 && normalBase + reducedBase == undistributed && normal == Min(imputed, normalBase)
    requires 0 <= Min(profit, 4_250_000) * undistributed - reducedBase * profit < profit
    ensures 0 <= normal * profit - Min(imputed * profit, (profit - Min(profit, 4_250_000)) * undistributed) < profit
  {
    var fraction := Min(profit, 4_250_000);
    Distributes(profit, fraction, undistributed);
    Distributes(undistributed, reducedBase, profit);
    ProductsAreOrdered(imputed, normalBase, profit);
    LesserProduct(profit * undistributed, fraction * undistributed, reducedBase * profit, imputed * profit,
                  normalBase * profit, profit);
  }

  /** The lesser of two amounts is near when one of them is. */
  lemma LesserProduct(whole: int, share: int, reduced: int, imputed: int, normal: int, gap: int)
    requires normal == whole - reduced && 0 <= share - reduced < gap
    ensures 0 <= Min(imputed, normal) - Min(imputed, whole - share) < gap
  {
  }

  lemma Distributes(a: int, b: int, c: int)
    ensures (a - b) * c == a * c - b * c
  {
  }

  lemma ProductsAreOrdered(a: int, b: int, c: int)
    requires c > 0
    ensures Min(a, b) * c == Min(a * c, b * c)
  {
    assert a <= b ==> (b - a) * c >= 0;
    assert b <= a ==> (a - b) * c >= 0;
  }

  lemma CreditOfANearPart(profit: int, imputed: int, normal: int, credit: int, exact: int)
    requires profit > 0 && 0 <= normal * profit - exact < profit
    requires Abs(2_500 * normal + 1_500 * (imputed - normal) - 10_000 * credit) <= 10_000
    ensures Abs(10_000 * profit * credit - (2_500 * exact + 1_500 * (imputed * profit - exact))) <= 11_000 * profit
  {
    var gap := 2_500 * normal + 1_500 * (imputed - normal) - 10_000 * credit;
    assert gap * profit == 1_000 * (normal * profit) + 1_500 * (imputed * profit) - 10_000 * (credit * profit);
    assert 10_000 * profit * credit == 10_000 * (credit * profit);
    BoundedTimes(gap, profit);
  }

  lemma BoundedTimes(gap: int, profit: int)
    requires profit > 0 && -10_000 <= gap <= 10_000
    ensures -10_000 * profit <= gap * profit <= 10_000 * profit
  {
    var above, below := 10_000 - gap, 10_000 + gap;
    assert above * profit >= 0 && above * profit == 10_000 * profit - gap * profit;
    assert below * profit >= 0 && below * profit == 10_000 * profit + gap * profit;
  }

  /** The two-bracket tax on a profit, each bracket rounded to the cent only. */
  function CentRoundedTax(profit: Cents): Cents {
    ApplyRateBps(profit - ReducedFraction(profit), NORMAL_RATE_BPS)
    + ApplyRateBps(ReducedFraction(profit), REDUCED_RATE_BPS)
  }

  lemma CreditIsWithinTheCentRoundedTax(deficit: Cents, base: CarryBackBase)
    ensures base.taxableProfit > 0 ==> CarryBack(deficit, base).credit <= CentRoundedTax(base.taxableProfit)
    ensures base.taxableProfit <= 0 ==> CarryBack(deficit, base).credit == 0
  {
    NothingIsWorthNothing();
    hide Prorata, ApplyRateBps;
    if base.taxableProfit > 0 && deficit > 0 {
      ProrataIsBoundedByItsBase(base);
      var profit := base.taxableProfit;
      ApplyRateBpsIsMonotone(OnNormal(deficit, base), profit - ReducedFraction(profit), NORMAL_RATE_BPS);
      ApplyRateBpsIsMonotone(OnReduced(deficit, base), ReducedFraction(profit), REDUCED_RATE_BPS);
    }
    if base.taxableProfit > 0 {
      ApplyRateBpsIsMonotone(0, base.taxableProfit - ReducedFraction(base.taxableProfit), NORMAL_RATE_BPS);
      ApplyRateBpsIsMonotone(0, ReducedFraction(base.taxableProfit), REDUCED_RATE_BPS);
    }
  }

  lemma CentRoundedTaxIsNearTheTax(profit: Cents)
    requires profit > 0
    ensures CentRoundedTax(profit) <= CorporateIncomeTax(profit) + 52
  {
    RoundToEuroIsNearest(profit);
    TaxOnTheRoundedProfit(profit);
    ApplyRateBpsIsNearest(profit - ReducedFraction(profit), NORMAL_RATE_BPS);
    ApplyRateBpsIsNearest(ReducedFraction(profit), REDUCED_RATE_BPS);
    FiftyTwoCents(profit, RoundToEuro(profit), CorporateIncomeTax(profit),
                  ApplyRateBps(profit - ReducedFraction(profit), NORMAL_RATE_BPS),
                  ApplyRateBps(ReducedFraction(profit), REDUCED_RATE_BPS));
  }

  lemma FiftyTwoCents(profit: Cents, base: Cents, tax: Cents, onNormal: Cents, onReduced: Cents)
    requires profit > 0 && IsTaxOn(base, tax) && profit < base + 50
    requires IsHalfEven((profit - ReducedFraction(profit)) * 2_500, 10_000, onNormal)
    requires IsHalfEven(ReducedFraction(profit) * 1_500, 10_000, onReduced)
    ensures onNormal + onReduced <= tax + 52
  {
    if profit <= REDUCED_RATE_CEILING {
      ReducedBracketSlack(profit, base, tax, onReduced);
    } else {
      NormalBracketSlack(profit, base, tax, onNormal);
    }
  }

  lemma ReducedBracketSlack(profit: Cents, base: Cents, tax: Cents, onReduced: Cents)
    requires IsTaxOn(base, tax) && profit < base + 50 && 0 < profit <= REDUCED_RATE_CEILING
    requires 10_000 * onReduced <= 1_500 * profit + 5_000
    ensures onReduced <= tax + 52
  {
    var euros, taxEuros := base / 100, tax / 100;
    var exact := if base <= REDUCED_RATE_CEILING then 15 * euros else 637_500 + 25 * (euros - 42_500);
    assert 15 * euros <= exact < tax + 50;
    assert onReduced <= 15 * euros + 7;
    assert 3 * euros - 20 * taxEuros <= 9;
  }

  lemma NormalBracketSlack(profit: Cents, base: Cents, tax: Cents, onNormal: Cents)
    requires IsTaxOn(base, tax) && profit < base + 50 && profit > REDUCED_RATE_CEILING
    requires 10_000 * onNormal <= 2_500 * (profit - REDUCED_RATE_CEILING) + 5_000
    ensures onNormal + 637_500 <= tax + 52
  {
    var above, taxEuros := base / 100 - 42_500, tax / 100;
    assert 637_500 + 25 * above < tax + 50;
    assert onNormal <= 25 * above + 12;
    assert above + 25_500 - 4 * taxEuros <= 1;
  }

  /** A carry-back never returns more than the tax of the year it is carried onto
      by more than 52 cents, and 52 is the least such allowance. */
  lemma CreditSlackIsFiftyTwoCents(slack: int)
    ensures (forall deficit, base: CarryBackBase ::
               CarryBack(deficit, base).credit <= CorporateIncomeTax(base.taxableProfit) + slack)
       <==> slack >= 52
  {
    if slack >= 52 {
      forall deficit, base: CarryBackBase
        ensures CarryBack(deficit, base).credit <= CorporateIncomeTax(base.taxableProfit) + slack
      {
        CreditIsWithinTheTax(deficit, base);
      }
    } else {
      var base := CarryBackBase(344, 0);
      ProrataIsBoundedByItsBase(base);
      HalfEvenIsUnique(344 * 1_500, 10_000, 52);
      SmallTaxes(344);
      assert CarryBack(344, base).credit == 52;
    }
  }

  lemma CreditIsWithinTheTax(deficit: Cents, base: CarryBackBase)
    ensures CarryBack(deficit, base).credit <= CorporateIncomeTax(base.taxableProfit) + 52
    ensures base.taxableProfit <= 0 ==> CarryBack(deficit, base).credit == 0
  {
    CreditIsWithinTheCentRoundedTax(deficit, base);
    if base.taxableProfit > 0 {
      CentRoundedTaxIsNearTheTax(base.taxableProfit);
    }
  }

  lemma CreditUpToTheCapExactly(profit: Cents)
    requires 0 < profit <= LOSS_CARRY_BACK_CAP
    ensures (forall deficit, distributed ::
               CarryBack(deficit, CarryBackBase(profit, distributed)).credit <= CorporateIncomeTax(profit))
       <==> CentRoundedTax(profit) <= CorporateIncomeTax(profit)
  {
    forall deficit, distributed
      ensures CarryBack(deficit, CarryBackBase(profit, distributed)).credit <= CentRoundedTax(profit)
    {
      CreditIsWithinTheCentRoundedTax(deficit, CarryBackBase(profit, distributed));
    }
    var whole := CarryBackBase(profit, 0);
    assert Prorata(whole) == ReducedFraction(profit) by {
      QuotientBetween(ReducedFraction(profit) * profit, profit, ReducedFraction(profit), ReducedFraction(profit));
    }
    assert CarryBack(profit, whole).credit == CentRoundedTax(profit);
  }

  /** A quarter, and three twentieths, rounded half to even: what they are up to the point where
      they start again. */
  function Quarter(t: nat): nat { if t <= 2 then 0 else if t <= 5 then 1 else 2 }

  function ThreeTwentieths(t: nat): nat {
    if t <= 3 then 0 else if t <= 9 then 1 else if t <= 16 then 2 else if t <= 23 then 3
    else if t <= 30 then 4 else if t <= 36 then 5 else 6
  }

  lemma HalfEvenShifts(p: int, q: int, steps: int)
    requires IsHalfEven(p, 10_000, q) && steps % 2 == 0
    ensures RoundHalfToEven(p + 10_000 * steps, 10_000) == q + steps
  {
    HalfEvenIsUnique(p + 10_000 * steps, 10_000, q + steps);
  }

  lemma NormalRateInClosedForm(k: nat, t: nat)
    requires t < 8
    ensures ApplyRateBps(8 * k + t, NORMAL_RATE_BPS) == 2 * k + Quarter(t)
  {
    assert IsHalfEven(t * 2_500, 10_000, Quarter(t));
    hide Quarter, RoundHalfToEven;
    HalfEvenShifts(t * 2_500, Quarter(t), 2 * k);
    assert t * 2_500 + 10_000 * (2 * k) == (8 * k + t) * 2_500;
  }

  lemma TwentiethsBounds(t: nat)
    requires t < 40
    ensures IsHalfEven(t * 1_500, 10_000, ThreeTwentieths(t))
  {
    var q := ThreeTwentieths(t);
    assert -10 <= 3 * t - 20 * q <= 10;
    assert 3 * t - 20 * q == 10 ==> q == 4;
    assert 3 * t - 20 * q == -10 ==> q == 2;
    hide ThreeTwentieths;
    assert 1_500 * t - 10_000 * q == 500 * (3 * t - 20 * q);
  }

  lemma ReducedRateInClosedForm(k: nat, t: nat)
    requires t < 40
    ensures ApplyRateBps(40 * k + t, REDUCED_RATE_BPS) == 6 * k + ThreeTwentieths(t)
  {
    TwentiethsBounds(t);
    hide ThreeTwentieths, RoundHalfToEven;
    HalfEvenShifts(t * 1_500, ThreeTwentieths(t), 6 * k);
    assert t * 1_500 + 10_000 * (6 * k) == (40 * k + t) * 1_500;
  }

  const TAX_ON_THE_CAP: Cents := 24_575_000

  /** From the cap to 1,49 € above it the euro rounding hides the whole excess; above, the tax
      rises by a quarter of the profit. */
  lemma TaxAboveTheCap(profit: Cents)
    requires profit > LOSS_CARRY_BACK_CAP
    ensures var x := profit - LOSS_CARRY_BACK_CAP;
            && (x < 150 ==> CorporateIncomeTax(profit) == TAX_ON_THE_CAP)
            && (x >= 150 ==> CorporateIncomeTax(profit) >= TAX_ON_THE_CAP + 100)
            && 4 * CorporateIncomeTax(profit) >= 4 * TAX_ON_THE_CAP + x - 250
  {
    hide CorporateIncomeTax, RoundToEuro;
    RoundToEuroIsNearest(profit);
    TaxOnTheRoundedProfit(profit);
    if profit - LOSS_CARRY_BACK_CAP < 150 {
      TaxIsTheNearestEuro(profit, TAX_ON_THE_CAP);
    } else {
      TaxIsMonotone(LOSS_CARRY_BACK_CAP + 150, profit);
      RoundToEuroIsNearest(LOSS_CARRY_BACK_CAP + 150);
      TaxIsTheNearestEuro(LOSS_CARRY_BACK_CAP + 150, TAX_ON_THE_CAP + 100);
    }
  }

  /** What a full carry-back of 1 000 000 € can be worth, `s` of it beyond the normal-rate part
      that the cap itself would have. */
  lemma CreditOfAFullCap(normal: nat, reduced: nat)
    requires normal + reduced <= LOSS_CARRY_BACK_CAP
    ensures var s := normal - (LOSS_CARRY_BACK_CAP - REDUCED_RATE_CEILING);
            var credit := ApplyRateBps(normal, NORMAL_RATE_BPS) + ApplyRateBps(reduced, REDUCED_RATE_BPS);
            && (s <= 2 ==> credit <= TAX_ON_THE_CAP)
            && 10 * credit <= 10 * TAX_ON_THE_CAP + s + 10
            && (normal + reduced == LOSS_CARRY_BACK_CAP ==> 10 * credit >= 10 * TAX_ON_THE_CAP + s - 10)
  {
    var most := LOSS_CARRY_BACK_CAP - normal;
    var s := normal - (LOSS_CARRY_BACK_CAP - REDUCED_RATE_CEILING);
    ApplyRateBpsIsNearest(normal, NORMAL_RATE_BPS);
    ApplyRateBpsIsNearest(reduced, REDUCED_RATE_BPS);
    ApplyRateBpsIsMonotone(reduced, most, REDUCED_RATE_BPS);
    hide ApplyRateBps;
    if -10 <= s <= 2 {
      AFewCentsAside(s);
    }
  }

  lemma AFewCentsAside(s: int)
    requires -10 <= s <= 2
    ensures ApplyRateBps(LOSS_CARRY_BACK_CAP - REDUCED_RATE_CEILING + s, NORMAL_RATE_BPS)
          + ApplyRateBps(REDUCED_RATE_CEILING - s, REDUCED_RATE_BPS) <= TAX_ON_THE_CAP
  {
    hide ApplyRateBps;
    var k := if s < -8 then -2 else if s < 0 then -1 else 0;
    NormalRateInClosedForm(11_968_750 + k, s - 8 * k);
    if s <= 0 {
      ReducedRateInClosedForm(106_250, -s);
    } else {
      ReducedRateInClosedForm(106_249, 40 - s);
    }
  }

  /** Above 1 000 000 € of profit, a carry-back returns more than the tax paid for profits from
      3 cents to 1,49 € above, and for no other. */
  lemma CreditAboveTheCapExactly(profit: Cents)
    requires profit > LOSS_CARRY_BACK_CAP
    ensures (forall deficit, distributed ::
               CarryBack(deficit, CarryBackBase(profit, distributed)).credit <= CorporateIncomeTax(profit))
       <==> !(3 <= profit - LOSS_CARRY_BACK_CAP <= 149)
  {
    hide CorporateIncomeTax, ApplyRateBps, CarryBack;
    var x := profit - LOSS_CARRY_BACK_CAP;
    TaxAboveTheCap(profit);
    if 3 <= x <= 149 {
      CreditJustAboveTheCap(x);
    } else {
      forall deficit, distributed
        ensures CarryBack(deficit, CarryBackBase(profit, distributed)).credit <= CorporateIncomeTax(profit)
      {
        CreditIsWithinACappedSplit(deficit, CarryBackBase(profit, distributed));
      }
    }
  }

  lemma CreditIsWithinACappedSplit(deficit: Cents, base: CarryBackBase)
    requires base.taxableProfit > LOSS_CARRY_BACK_CAP
    ensures var x, credit := base.taxableProfit - LOSS_CARRY_BACK_CAP, CarryBack(deficit, base).credit;
            (x <= 2 ==> credit <= TAX_ON_THE_CAP) && 10 * credit <= 10 * TAX_ON_THE_CAP + x + 10
  {
    hide ApplyRateBps, Prorata;
    ProrataIsBoundedByItsBase(base);
    if deficit > 0 {
      CreditOfAFullCap(OnNormal(deficit, base), OnReduced(deficit, base));
    }
  }

  /** What a company distributed, for the credit to show the excess. */
  function Distributed(x: Cents): Cents { if x == 4 || x == 10 then 2 else if x == 5 then 3 else 0 }

  lemma CreditJustAboveTheCap(x: Cents)
    requires 3 <= x <= 149
    ensures CarryBack(LOSS_CARRY_BACK_CAP, CarryBackBase(LOSS_CARRY_BACK_CAP + x, Distributed(x))).credit
          > TAX_ON_THE_CAP
  {
    hide ApplyRateBps;
    var base := CarryBackBase(LOSS_CARRY_BACK_CAP + x, Distributed(x));
    var normal, reduced := OnNormal(LOSS_CARRY_BACK_CAP, base), OnReduced(LOSS_CARRY_BACK_CAP, base);
    SplitJustAboveTheCap(x);
    CreditOfAFullCap(normal, reduced);
    if x <= 10 {
      var s := x - (if Distributed(x) == 0 then 0 else Distributed(x) - 1);
      NormalRateInClosedForm(11_968_750 + s / 8, s % 8);
      ReducedRateInClosedForm(106_249, 40 - s);
    }
  }

  lemma SplitJustAboveTheCap(x: Cents)
    requires 3 <= x <= 149
    ensures var base := CarryBackBase(LOSS_CARRY_BACK_CAP + x, Distributed(x));
            var normal := LOSS_CARRY_BACK_CAP - REDUCED_RATE_CEILING + x - (if Distributed(x) == 0 then 0 else Distributed(x) - 1);
            && OnNormal(LOSS_CARRY_BACK_CAP, base) == normal
            && OnReduced(LOSS_CARRY_BACK_CAP, base) == LOSS_CARRY_BACK_CAP - normal
  {
    var base := CarryBackBase(LOSS_CARRY_BACK_CAP + x, Distributed(x));
    assert Prorata(base) == REDUCED_RATE_CEILING - (if Distributed(x) == 0 then 0 else 1) by {
      if x == 4 {
        assert 4_250_000 * 100_000_002 / 100_000_004 == 4_249_999;
      } else if x == 5 {
        assert 4_250_000 * 100_000_002 / 100_000_005 == 4_249_999;
      } else if x == 10 {
        assert 4_250_000 * 100_000_008 / 100_000_010 == 4_249_999;
      } else {
        QuotientBetween(REDUCED_RATE_CEILING * (LOSS_CARRY_BACK_CAP + x), LOSS_CARRY_BACK_CAP + x,
                        REDUCED_RATE_CEILING, REDUCED_RATE_CEILING);
      }
    }
    hide Prorata;
  }

  /** A rate rounds above an even amount exactly when it is more than half a cent above it. */
  lemma RateExceeds(amount: nat, bps: nat, tax: Cents)
    requires tax % 2 == 0
    ensures ApplyRateBps(amount, bps) > tax <==> amount * bps > 10_000 * tax + 5_000
  {
    ApplyRateBpsIsNearest(amount, bps);
    hide ApplyRateBps;
    HalfEvenExceeds(amount * bps, ApplyRateBps(amount, bps), tax);
  }

  lemma HalfEvenExceeds(p: int, q: int, tax: int)
    requires IsHalfEven(p, 10_000, q) && tax % 2 == 0
    ensures q > tax <==> p > 10_000 * tax + 5_000
  {
    if q == tax + 1 {
      assert q % 2 == 1;
    }
  }

  /** The profits whose tax the euro rounding lowers below the cent-rounded tax, from one 20 € to
      the next at the reduced rate, from one 4 € to the next at the normal rate; above
      1 000 000 €, where the carry-back is capped, a few cents only. */
  predicate IsTaxedBelowItsCents(profit: Cents) {
    if profit <= REDUCED_RATE_CEILING then
      var u := profit % 2_000;
      4 <= u <= 349 || 671 <= u <= 949 || 1_337 <= u <= 1_649
    else if profit <= LOSS_CARRY_BACK_CAP then
      3 <= (profit - REDUCED_RATE_CEILING) % 400 <= 149
    else
      3 <= profit - LOSS_CARRY_BACK_CAP <= 149
  }

  lemma WholeHundreds(a: nat, m: nat)
    ensures (100 * a + m) / 100 == a + m / 100
  {
  }

  lemma EuroTaxByTwenty(k: nat, e: nat)
    requires 20 * k + e <= 42_500
    ensures EuroTax(20 * k + e) == 300 * k + 100 * ((15 * e + 50) / 100)
  {
    assert 15 * (20 * k + e) + 50 == 100 * (3 * k) + (15 * e + 50);
    WholeHundreds(3 * k, 15 * e + 50);
  }

  lemma EuroTaxByFour(k: nat, e: nat)
    ensures EuroTax(42_500 + 4 * k + e) == 637_500 + 100 * k + 100 * ((25 * e + 50) / 100)
  {
    if k + e == 0 {
      assert EuroTax(42_500) == 637_500;
    } else {
      assert 25 * (4 * k + e) + 50 == 100 * k + (25 * e + 50);
      WholeHundreds(k, 25 * e + 50);
    }
  }

  lemma ReducedPeriod(k: nat, u: nat)
    requires u < 2_000 && 2_000 * k + u <= REDUCED_RATE_CEILING
    ensures 3 * (2_000 * k + u) > 20 * EuroTax((2_000 * k + u + 50) / 100) + 10
       <==> 4 <= u <= 349 || 671 <= u <= 949 || 1_337 <= u <= 1_649
  {
    hide EuroTax;
    var e := (u + 50) / 100;
    assert 100 * e <= u + 50 < 100 * e + 100 && e <= 20;
    EuroTaxByTwenty(k, e);
    SmallEuroTax(e);
    assert (2_000 * k + u + 50) / 100 == 20 * k + e;
  }

  lemma SmallEuroTax(e: nat)
    requires e <= 20
    ensures (15 * e + 50) / 100 == if e <= 3 then 0 else if e <= 9 then 1 else if e <= 16 then 2 else 3
  {
  }

  lemma NormalPeriod(k: nat, u: nat)
    requires u < 400
    ensures 400 * k + u > 4 * (EuroTax((REDUCED_RATE_CEILING + 400 * k + u + 50) / 100) - 637_500) + 2 <==> 3 <= u <= 149
  {
    hide EuroTax;
    var e := (u + 50) / 100;
    assert 100 * e <= u + 50 < 100 * e + 100 && e <= 4;
    EuroTaxByFour(k, e);
    assert (REDUCED_RATE_CEILING + 400 * k + u + 50) / 100 == 42_500 + 4 * k + e;
    assert (25 * e + 50) / 100 == if e <= 1 then 0 else 1;
  }

  lemma EuroTaxIsEven(euros: nat)
    ensures EuroTax(euros) % 2 == 0
  {
    if euros <= 42_500 {
      assert EuroTax(euros) == 2 * (50 * ((15 * euros + 50) / 100));
    } else {
      assert EuroTax(euros) == 2 * (318_750 + 50 * ((25 * (euros - 42_500) + 50) / 100));
    }
    hide EuroTax;
  }

  lemma CentRoundedTaxExceedsExactly(profit: Cents)
    requires 0 < profit <= LOSS_CARRY_BACK_CAP
    ensures CentRoundedTax(profit) > CorporateIncomeTax(profit) <==> IsTaxedBelowItsCents(profit)
  {
    hide CorporateIncomeTax, ApplyRateBps, EuroTax;
    TaxInEuros(profit);
    EuroTaxIsEven((profit + 50) / 100);
    NothingIsWorthNothing();
    TaxAtTheCeiling();
    if profit <= REDUCED_RATE_CEILING {
      BelowTheCeiling(profit);
    } else {
      AboveTheCeiling(profit - REDUCED_RATE_CEILING);
    }
  }

  lemma BelowTheCeiling(profit: Cents)
    requires 0 < profit <= REDUCED_RATE_CEILING
    ensures ApplyRateBps(profit, REDUCED_RATE_BPS) > EuroTax((profit + 50) / 100) <==> IsTaxedBelowItsCents(profit)
  {
    hide ApplyRateBps, EuroTax;
    EuroTaxIsEven((profit + 50) / 100);
    RateExceeds(profit, REDUCED_RATE_BPS, EuroTax((profit + 50) / 100));
    ReducedPeriod(profit / 2_000, profit % 2_000);
    assert 2_000 * (profit / 2_000) + profit % 2_000 == profit;
  }

  lemma AboveTheCeiling(x: Cents)
    requires 0 < x <= LOSS_CARRY_BACK_CAP - REDUCED_RATE_CEILING
    ensures ApplyRateBps(x, NORMAL_RATE_BPS) > EuroTax((REDUCED_RATE_CEILING + x + 50) / 100) - 637_500
       <==> IsTaxedBelowItsCents(REDUCED_RATE_CEILING + x)
  {
    hide ApplyRateBps, EuroTax;
    var tax := EuroTax((REDUCED_RATE_CEILING + x + 50) / 100);
    EuroTaxIsEven((REDUCED_RATE_CEILING + x + 50) / 100);
    RateExceeds(x, NORMAL_RATE_BPS, tax - 637_500);
    NormalPeriod(x / 400, x % 400);
    assert 400 * (x / 400) + x % 400 == x;
  }

  lemma TaxAtTheCeiling()
    ensures ApplyRateBps(REDUCED_RATE_CEILING, REDUCED_RATE_BPS) == 637_500
  {
    ReducedRateInClosedForm(106_250, 0);
  }

  /** No carry-back returns more than the tax paid on a profit if and only if the euro rounding
      did not lower that tax below its cents. */
  lemma CreditStaysWithinTheTaxExactly(profit: Cents)
    requires profit > 0
    ensures (forall deficit, distributed ::
               CarryBack(deficit, CarryBackBase(profit, distributed)).credit <= CorporateIncomeTax(profit))
       <==> !IsTaxedBelowItsCents(profit)
  {
    hide CarryBack, CorporateIncomeTax, CentRoundedTax;
    if profit <= LOSS_CARRY_BACK_CAP {
      CreditUpToTheCapExactly(profit);
      CentRoundedTaxExceedsExactly(profit);
    } else {
      CreditAboveTheCapExactly(profit);
    }
  }

  /** The credit lies between the reduced and the normal rate of what is imputed,
      give or take the one cent that rounding two parts instead of one can cost. */
  lemma CreditLiesBetweenTheRates(deficit: Cents, base: CarryBackBase)
    ensures var cb := CarryBack(deficit, base);
            ApplyRateBps(cb.imputed, REDUCED_RATE_BPS) - 1 <= cb.credit <= ApplyRateBps(cb.imputed, NORMAL_RATE_BPS) + 1
  {
    hide ApplyRateBps, Prorata;
    var cb := CarryBack(deficit, base);
    ApplyRateBpsIsNearest(cb.imputed, REDUCED_RATE_BPS);
    ApplyRateBpsIsNearest(cb.imputed, NORMAL_RATE_BPS);
    if cb != NO_CARRY_BACK {
      ProrataIsBoundedByItsBase(base);
      ApplyRateBpsIsNearest(OnNormal(deficit, base), NORMAL_RATE_BPS);
      ApplyRateBpsIsNearest(OnReduced(deficit, base), REDUCED_RATE_BPS);
    }
  }

  /** The splits whose two roundings lose the cent that one rounding at the reduced rate keeps. */
  predicate LosesACent(onNormal: nat, onReduced: nat) {
    || (onNormal == 1 && onReduced % 40 in {3, 9, 16, 23, 30, 36})
    || (onNormal == 2 && onReduced % 40 in {2, 3, 8, 9, 15, 16, 22, 23, 29, 30, 35, 36})
  }

  /** The splits whose two roundings gain a cent on one rounding at the normal rate. */
  predicate GainsACent(onNormal: nat, onReduced: nat) { onNormal % 8 == 6 && onReduced == 4 }

  lemma SplitAgainstTheReducedRate(a: nat, b: nat)
    ensures (ApplyRateBps(a + b, REDUCED_RATE_BPS)
             <= ApplyRateBps(a, NORMAL_RATE_BPS) + ApplyRateBps(b, REDUCED_RATE_BPS)) <==> !LosesACent(a, b)
  {
    OnlyTheResidueMatters(a, b / 40, b % 40);
    hide ApplyRateBps, LosesACent;
    if a == 1 || a == 2 {
      OneOrTwoAtTheNormalRate(a, b / 40, b % 40);
      assert 40 * (b / 40) + b % 40 == b;
    } else if a == 0 {
      NothingIsWorthNothing();
    } else {
      ThreeOrMoreAtTheNormalRate(a, b);
    }
  }

  lemma ThreeOrMoreAtTheNormalRate(a: nat, b: nat)
    requires a >= 3
    ensures ApplyRateBps(a + b, REDUCED_RATE_BPS) <= ApplyRateBps(a, NORMAL_RATE_BPS) + ApplyRateBps(b, REDUCED_RATE_BPS)
  {
    hide ApplyRateBps;
    var whole, normal, reduced := ApplyRateBps(a + b, REDUCED_RATE_BPS), ApplyRateBps(a, NORMAL_RATE_BPS),
                                  ApplyRateBps(b, REDUCED_RATE_BPS);
    ApplyRateBpsIsNearest(a, NORMAL_RATE_BPS);
    ApplyRateBpsIsNearest(b, REDUCED_RATE_BPS);
    ApplyRateBpsIsNearest(a + b, REDUCED_RATE_BPS);
    assert 2 * (10_000 * whole) <= 2 * (1_500 * (a + b)) + 10_000;
    assert 2 * (10_000 * normal) >= 2 * (2_500 * a) - 10_000;
    assert 2 * (10_000 * reduced) >= 2 * (1_500 * b) - 10_000;
  }

  lemma OneOrTwoAtTheNormalRate(a: nat, k: nat, t: nat)
    requires 1 <= a <= 2 && t < 40
    ensures (ApplyRateBps(a + (40 * k + t), REDUCED_RATE_BPS)
             <= ApplyRateBps(a, NORMAL_RATE_BPS) + ApplyRateBps(40 * k + t, REDUCED_RATE_BPS)) <==> !LosesACent(a, t)
  {
    hide ApplyRateBps, LosesACent;
    NormalRateInClosedForm(0, a);
    ReducedRateInClosedForm(k, t);
    ReducedRateInClosedForm(if t + a < 40 then k else k + 1, if t + a < 40 then t + a else t + a - 40);
    OneCentMore(t);
    TwoCentsMore(t);
    SmallQuarters();
    hide ThreeTwentieths, Quarter;
  }

  lemma OnlyTheResidueMatters(a: nat, k: nat, t: nat)
    requires t < 40
    ensures LosesACent(a, 40 * k + t) == LosesACent(a, t)
    ensures LosesACent(a, t) ==> 1 <= a <= 2
  {
    assert (40 * k + t) % 40 == t == t % 40;
  }

  lemma SmallQuarters()
    ensures Quarter(1) == 0 == Quarter(2) && ThreeTwentieths(0) == 0 == ThreeTwentieths(1)
  {
  }

  /** Where a cent more, or two, are worth a cent more at the reduced rate. */
  lemma OneCentMore(t: nat)
    requires t < 40
    ensures ThreeTwentieths(t) < (if t < 39 then ThreeTwentieths(t + 1) else 6 + ThreeTwentieths(0)) <==> LosesACent(1, t)
  {
  }

  lemma TwoCentsMore(t: nat)
    requires t < 40
    ensures ThreeTwentieths(t) < (if t < 38 then ThreeTwentieths(t + 2) else 6 + ThreeTwentieths(t - 38)) <==> LosesACent(2, t)
  {
  }

  lemma SplitAgainstTheNormalRate(a: nat, b: nat)
    ensures (ApplyRateBps(a, NORMAL_RATE_BPS) + ApplyRateBps(b, REDUCED_RATE_BPS)
             <= ApplyRateBps(a + b, NORMAL_RATE_BPS)) <==> !GainsACent(a, b)
  {
    hide ApplyRateBps;
    if b <= 15 {
      var k, t := a / 8, a % 8;
      assert 8 * k + t == a && a + b == 8 * (k + (t + b) / 8) + (t + b) % 8;
      NormalRateInClosedForm(k, t);
      NormalRateInClosedForm(k + (t + b) / 8, (t + b) % 8);
      ReducedRateInClosedForm(0, b);
      SmallReducedParts(t, b);
      hide Quarter, ThreeTwentieths;
    } else {
      ApplyRateBpsIsNearest(a, NORMAL_RATE_BPS);
      ApplyRateBpsIsNearest(b, REDUCED_RATE_BPS);
      ApplyRateBpsIsNearest(a + b, NORMAL_RATE_BPS);
    }
  }

  lemma SmallReducedParts(t: nat, b: nat)
    requires t < 8 && b <= 15
    ensures Quarter(t) + ThreeTwentieths(b) <= 2 * ((t + b) / 8) + Quarter((t + b) % 8) <==> !(t == 6 && b == 4)
  {
  }

  /** The credit is at least the reduced rate, and at most the normal rate, of what is imputed
      exactly when the split between the rates is none of the few that lose or gain a cent. */
  lemma CreditKeepsWithinTheRatesExactly(deficit: Cents, base: CarryBackBase)
    requires deficit > 0 && base.taxableProfit > 0
    ensures 0 <= OnNormal(deficit, base) && 0 <= OnReduced(deficit, base)
    ensures var cb := CarryBack(deficit, base);
            && (ApplyRateBps(cb.imputed, REDUCED_RATE_BPS) <= cb.credit
                <==> !LosesACent(OnNormal(deficit, base), OnReduced(deficit, base)))
            && (cb.credit <= ApplyRateBps(cb.imputed, NORMAL_RATE_BPS)
                <==> !GainsACent(OnNormal(deficit, base), OnReduced(deficit, base)))
  {
    hide ApplyRateBps, Prorata, LosesACent, GainsACent;
    ProrataIsBoundedByItsBase(base);
    SplitAgainstTheReducedRate(OnNormal(deficit, base), OnReduced(deficit, base));
    SplitAgainstTheNormalRate(OnNormal(deficit, base), OnReduced(deficit, base));
    NothingIsWorthNothing();
  }

  lemma NothingIsWorthNothing()
    ensures ApplyRateBps(0, NORMAL_RATE_BPS) == 0 == ApplyRateBps(0, REDUCED_RATE_BPS)
  {
  }

  /** One cent is the least allowance that puts every credit between the two rates, at either
      end. */
  lemma RateSlackIsOneCent(slack: int)
    ensures (forall deficit, base: CarryBackBase ::
               ApplyRateBps(CarryBack(deficit, base).imputed, REDUCED_RATE_BPS) <= CarryBack(deficit, base).credit + slack)
       <==> slack >= 1
    ensures (forall deficit, base: CarryBackBase ::
               CarryBack(deficit, base).credit <= ApplyRateBps(CarryBack(deficit, base).imputed, NORMAL_RATE_BPS) + slack)
       <==> slack >= 1
  {
    LostAndGainedCents();
    hide CarryBack, ApplyRateBps;
    if slack >= 1 {
      forall deficit, base: CarryBackBase
        ensures ApplyRateBps(CarryBack(deficit, base).imputed, REDUCED_RATE_BPS) <= CarryBack(deficit, base).credit + slack
        ensures CarryBack(deficit, base).credit <= ApplyRateBps(CarryBack(deficit, base).imputed, NORMAL_RATE_BPS) + slack
      {
        CreditLiesBetweenTheRates(deficit, base);
      }
    }
  }

  /** Four cents carried back, two at each rate, are worth nothing; ten, six and four, a cent
      more than at the normal rate. */
  lemma LostAndGainedCents()
    ensures var cb := CarryBack(4, CarryBackBase(8_500_000, 8_499_996));
            cb.credit + 1 == ApplyRateBps(cb.imputed, REDUCED_RATE_BPS)
    ensures var cb := CarryBack(10, CarryBackBase(10_000_000, 9_999_990));
            cb.credit == ApplyRateBps(cb.imputed, NORMAL_RATE_BPS) + 1
  {
    hide ApplyRateBps;
    var lost, gained := CarryBackBase(8_500_000, 8_499_996), CarryBackBase(10_000_000, 9_999_990);
    assert OnNormal(4, lost) == 2 == OnReduced(4, lost);
    assert OnNormal(10, gained) == 6 && OnReduced(10, gained) == 4;
    NormalRateInClosedForm(0, 2);
    ReducedRateInClosedForm(0, 2);
    ReducedRateInClosedForm(0, 4);
    NormalRateInClosedForm(0, 6);
    NormalRateInClosedForm(1, 2);
  }
}
