# Griffe: proofs about its taxes, its books and its exchanges

Griffe is an accounting and client-tracking program for a one-person company: a Rust core
(`crates/griffe-core`) and a Python script that exchanges opportunities and letters with Notion
(`scripts/echange_notion.py`). This project models the parts where a mistake costs money or loses
somebody's work, and proves what they do for every input, every ledger and every run.
`dafny verify dfyconfig.toml` checks all of it.

| module | models |
|---|---|
| `Basics` | what several modules share, runs of commands among it |
| `Text` | blanks, cases and hexadecimal digits of texts |
| `Money` | roundings to the cent and to the euro, equal shares |
| `Tax` | two-bracket corporate tax, loss carry-forward, loss carry-back |
| `Calendar` | months, dates, recurring fiscal years |
| `FiscalYears` | the table of closed years as a state machine: close, revise, approve, delete |
| `Appropriations` | which commands on the closed years are accepted, and what they may distribute |
| `YearChain` | what the closed years add up to along every run: loss stock, equity, stock read back |
| `Vat` | the monthly VAT window and the month-by-month return of a period |
| `Postings` | the journal of entries posted and reversed |
| `Receipts` | the VAT that the receipts of an invoice release |
| `Documents` | the entries of sales, receipts, purchases, settlements, and what is read of a ledger of them |
| `Income` | the income statement read by account prefix |
| `Forecast` | the twelve-month cash forecast and the missions that feed it |
| `Clients` | clients, contacts and work notes under optimistic revisions |
| `Tokens` | letter tokens rewritten both ways by successive replacements |
| `Mirror` | the letters mirrored on a remote page, through interruptions |
| `Letters` | what the mirrored page says to its reader |
| `Exchange` | the opportunity queue: classified, imported, reported page by page |
| `Queue` | which pages are kept, and what every cell holds after a report |

Loops of the source are methods with loops, proved equal to a specification about which the
properties are then proved; the client store, the remote page and the Notion workspace are classes
changed in place.

## Main results

- **Years.** Whatever is closed, revised, approved, deleted or refused, in any order, the carry-back
  credits never exceed the taxes of the years they were carried onto by more than 52 cents each, and a
  run reaches the 52. Along every run, the inherited loss stock is never negative exactly when each
  closing is paid for by every later stock, and net results are reserves, dividends or retained
  earnings exactly when each closing accepted before a closed year appropriates its whole net result.
  Closing in date order is enough for both. Losses are conserved exactly when no closing imputes more
  than its result, once a negative add-back is counted. No accepted closing or revision distributes more
  than its net result and what it inherits, and every one that does not is accepted; along a run each
  year stays so exactly when no closing before a closed year takes what that year paid out.
- **Taxes.** A loss imputes nothing and a profit the whole stock or all that the law admits. The
  carry-back credit is the one of distributions borne by both rates in exact proportion, to 1.1 cent.
- **VAT.** The taxable base of a return is the plain sum over the posted entries, for every ledger,
  exactly when each month of the period, cut to the period, lies in one fiscal year. A return splits
  additively at every month end. Of any sequence of documents each box is the sum of what its
  documents count for, and a company that closes at a month end owes the VAT of all its receipts, to the
  cent.
- **Receipts.** Over every run of receipts, voids and credit notes, the VAT of a settled invoice is
  released in full exactly when no receipt that moved VAT is voided while the others settle it, and no
  credit note takes back VAT already moved. After any postings and reversals, the totals of a VAT
  window are those of the entries still live.
- **Letters.** There and back is the identity on exactly the texts without the other side's spellings;
  the passes equal one simultaneous replacement in any table order.
- **Mirror.** However many runs are interrupted anywhere, the preamble is never touched and one whole
  run ends with the preamble and the blocks wanted. Whole runs settle exactly when the page is up to
  date, is short, or can delete what follows its preamble; how many a short page needs is stated. A reader of
  the page finds the whole catalogue, in order, and no more.
- **Queue.** From reading through import to report, every live page receives exactly one status, of
  its own outcome, exactly when the import is not stopped before the last dossier; a report cut short
  and run again ends as if never cut. What every cell of every page then holds is stated.
- **Store.** No update is lost in any interleaving; ownership, correspondents and plain names hold
  after every run. A client with contacts keeps a correspondent exactly when none is deleted while
  another contact is left.

## What the code does not do

The following were expected of the code and are false of it. Each has a witness and, as far as it
goes, an exact condition.

- The property test at `crates/griffe-core/src/accounting.rs:853` (credit within the tax) is false of nearly
  half of the profits up to 42 500 €, those that end in 4 to 349, 671 to 949 or 1337 to 1649 cents of each
  20 €, and of 3 to 149 cents of each 4 € up to 1 000 000 €:
  `Tax.CreditStaysWithinTheTaxExactly`; by 52 cents at most: `Tax.CreditSlackIsFiftyTwoCents`. The rate bounds
  at lines 855 and 856 are each false by a cent, for a few splits between the rates that are all listed:
  `Tax.CreditKeepsWithinTheRatesExactly`, `Tax.RateSlackIsOneCent`. The 25 % bound at line 866 fails exactly from
  3,50 € to 3,97 €: `Tax.TaxExceedsAQuarterExactly`.
- Earning one more cent can lower the net result: `Tax.OneMoreCentCostsExactly`.
- The stock a later year inherits (`crates/griffe-core/src/fiscal_year.rs:340`) forgets the non-deductible
  charges that the stock read back (lines 854-864) counts, so a loss with an add-back is imputed for more
  than it was: `YearChain.StocksAgreeExactly`, `YearChain.AddBackOnALossIsImputedTwice`.
- A year closed before a closed one imputes losses that were already imputed:
  `YearChain.StocksStayCoveredExactly`, `YearChain.YearClosedLateImputesTwice`.
- What a year closed before a closed one leaves undistributed is inherited by nobody:
  `YearChain.EquityStaysWholeExactly`, `YearChain.ProfitClosedLateDisappears`.
- A loss closed before a closed year that paid its net result out leaves that year with more paid out
  than it had: `Appropriations.DistributionsStayCoveredExactly`,
  `Appropriations.LossClosedLateUncoversDividends`.
- A negative add-back counts as zero in the computation and is stored as it is, so the year does not
  read back as it was computed, and a year can impute a loss and report one that nobody made:
  `YearChain.ClosingReadsBackExactly`, `YearChain.LossesAreConservedExactly`, `YearChain.NegativeAddBackMakesALoss`.
- A receipt keeps the VAT it moved when it was written. An invoice paid twice, its first receipt then
  voided, is settled with none of its VAT released: `Receipts.VatIsReleasedExactly`,
  `Receipts.DoublePaymentLosesItsVat`.
- The book of a window is that of the fiscal year of its last day. When a company does not close at a
  month end, a return that goes past the closing date in its month does not read that month's days up
  to the closing: `Vat.PeriodIsReadExactly`, `Vat.UnreadEntryIsLost`.
- The number of an imported invoice is free. One that names the settlement of the month of its receipt
  hides the receipt; one that names the settlement's reversal leaves, once the receipt is voided, the
  reversal read alone: `Vat.NumberedReceiptIsReadExactly`.
- A name stored with surrounding blanks, or one that reads as an identifier, escapes the uniqueness of
  client names: `Clients.SecondQuiIsAcceptedExactly`, `Clients.BlankEscapes`, `Clients.IdentifierEscapes`.
- On a page of fewer than three blocks the mirror takes the first blocks it writes for preamble and
  keeps them there, written again behind it: `Mirror.ShortPageSettlesExactly`.
- An unpaid invoice due before today's month never enters the forecast: `Forecast.OneMoreInvoice`.

## Assumptions

Integers are unbounded and years have no limit; the 64-bit narrowing in the carry-back is written out.
Identifiers are drawn once. Trimming, folding of names and reading a name as an identifier are
parameters. A transaction is one step, so an interleaving of writers is a sequence of commands. The
result before tax of a period is a parameter of its closing. The table of years is the sequence of its
rows by date. Notion keeps a text as sent, gives pages distinct identifiers, ends its cursors, and a
write it refuses has no effect. The receipts and credit notes of an invoice are recorded in the order of
their dates. The book of a fiscal year holds the entries dated in that
year (`crates/griffe-core/src/ledger.rs:1335-1352`). The outcome the import gives a dossier is a parameter,
and its origin is the dossier's.

## Model

| member | source | states |
|---|---|---|
| Money.HalfEvenIsUnique | crates/griffe-core/src/domain/money.rs:299-309 | the rounding is the nearest integer, even on a tie, and the only such one |
| Money.ApplyRateBpsIsNearest | crates/griffe-core/src/domain/money.rs:119-123 | a rate in basis points is applied to the nearest cent |
| Money.ApplyRateBpsIsMonotone | crates/griffe-core/src/domain/money.rs:119-123 | a larger amount never gives a smaller share |
| Money.SplitEquallyLosesNothing | crates/griffe-core/src/domain/money.rs:154-167 | shares sum to the amount, whatever its sign, differ by a cent at most, and the first are the largest |
| Money.NearestEuroExactly | crates/griffe-core/src/accounting.rs:253-259 | the euro is the whole euro within 50 cents, ties away from zero, and the only such one |
| Tax.TaxIsTheNearestEuro | crates/griffe-core/src/accounting.rs:232-248 | the tax on a profit is the one whole euro within half a euro of the exact two-bracket tax on the rounded profit; a loss or a null result is taxed nothing |
| Tax.TaxIsMonotone | crates/griffe-core/src/accounting.rs:232-259 | tax is non-negative and never falls when the profit rises |
| Tax.OneEuroCostsAtMostOneEuro | crates/griffe-core/src/accounting.rs:232-259 | a euro of profit costs at most a euro of tax, across every threshold |
| Tax.TaxExceedsAQuarterExactly | crates/griffe-core/src/accounting.rs:862-872 | tax is within 25 % of the profit if and only if the profit is not between 3,50 € and 3,97 € |
| Tax.ImputationIsCappedExactly | crates/griffe-core/src/accounting.rs:122-150 | a loss imputes nothing; a profit imputes the whole stock, or itself up to 1 000 000 €, or above 1 000 000 € and half of the rest to the cent; never more |
| Tax.TaxAfterImputationIsMonotone | crates/griffe-core/src/accounting.rs:135-150 | tax after imputation rises with the result and falls with the loss stock |
| Tax.OneMoreEuroNeverCosts | crates/griffe-core/src/accounting.rs:360-382 | one more euro of result never lowers the net result, for every stock and add-back |
| Tax.OneMoreCentCostsExactly | crates/griffe-core/src/accounting.rs:360-382 | one more cent of result lowers the net result, by 99 cents, if and only if the loss stock does not absorb it and it rounds the base up to a euro on which the tax rises |
| Tax.OneMoreTaxableCent | crates/griffe-core/src/accounting.rs:232-259 | a taxable cent costs a euro of tax on exactly those bases, and nothing on the others |
| Tax.OneMoreCentCanCost | crates/griffe-core/src/accounting.rs:232-259 | from 3,49 € to 3,50 € it does |
| Tax.ProrataIsProportional | crates/griffe-core/src/accounting.rs:200-213 | the undistributed profit at the reduced rate is its share of the profit to less than a cent, the rest is at the normal rate, and the fallback is never taken |
| Tax.CarryBackImputesTheLesser | crates/griffe-core/src/accounting.rs:194-222 | exactly the least of the deficit, 1 000 000 € and the undistributed profit is carried back |
| Tax.CreditIsNearTheProportionalOne | crates/griffe-core/src/accounting.rs:194-222 | from profit, distributed and deficit alone: the credit is within 1.1 cent of the one where both rates bear the distributions in exact proportion |
| Tax.NormalRateFirstIsBest | crates/griffe-core/src/accounting.rs:206-221 | no feasible split between the rates is worth more, and the credit is that worth to a cent |
| Tax.CreditIsWithinTheCentRoundedTax | crates/griffe-core/src/accounting.rs:194-222 | the credit never exceeds the cent-rounded tax on the profit |
| Tax.CreditSlackIsFiftyTwoCents | crates/griffe-core/src/accounting.rs:836-857 | for all inputs the credit is within the tax plus a slack if and only if the slack is at least 52 cents |
| Tax.CreditStaysWithinTheTaxExactly | crates/griffe-core/src/accounting.rs:836-857 | the credit stays within the tax of a profit if and only if the profit is in none of the listed ranges of cents: periodic by 20 € up to 42 500 €, by 4 € up to 1 000 000 €, one range above |
| Tax.CreditLiesBetweenTheRates | crates/griffe-core/src/accounting.rs:194-222 | the credit lies between both rates of what is imputed, to one cent |
| Tax.CreditKeepsWithinTheRatesExactly | crates/griffe-core/src/accounting.rs:854-856 | each bound holds without the cent if and only if the split between the rates is none of those listed |
| Tax.RateSlackIsOneCent | crates/griffe-core/src/accounting.rs:854-856 | for all inputs each bound holds with a slack if and only if the slack is at least one cent |
| Calendar.MonthBounds | crates/griffe-core/src/domain/period.rs:68-119 | first and last day bound exactly the dates of a month |
| Calendar.ContainingContainsItsDate | crates/griffe-core/src/domain/period.rs:227-254 | the fiscal year found for a date contains it |
| Calendar.ContainingIsTheOnlyYear | crates/griffe-core/src/domain/period.rs:242-254 | it is the only fiscal year of the company that does |
| Calendar.FiscalYearsCoverWholeMonthsExactly | crates/griffe-core/src/domain/period.rs:227-254 | fiscal years cover whole months if and only if the company closes at a month end |
| FiscalYears.ApplyKeepsValid | crates/griffe-core/src/fiscal_year.rs:506-833 | every command, profile and opening included, keeps the table sorted, without overlap, with frozen tax, imputation and carry-back |
| FiscalYears.RunKeepsValid | crates/griffe-core/src/fiscal_year.rs:506-833 | so does every run |
| FiscalYears.TaxEntryIsNeverRefused | crates/griffe-core/src/journal.rs:463-497 | the guard on closed years never refuses the tax entry of an accepted closing, nor its reversal on deletion |
| FiscalYears.CreditReturnsTheTaxBefore | crates/griffe-core/src/fiscal_year.rs:613-647 | a credit returns at most the tax of the year before plus 52 cents, and nothing of a loss year |
| FiscalYears.CreditsNeverExceedTaxes | crates/griffe-core/src/accounting.rs:152-222 | over every run the credits are within the taxes they return plus 52 cents each |
| Appropriations.CloseIsAcceptedExactly | crates/griffe-core/src/fiscal_year.rs:506-606 | a closing is accepted if and only if its period, its carry-back and its appropriation are allowed; dividends and reserve are then within the net result and what was retained, and the row stored is given field by field |
| Appropriations.TenthOfTheCapital | crates/griffe-core/src/fiscal_year.rs:279-289 | a reserve is under the cap if and only if it is within the tenth of the capital, to the nearest cent, half to the even one |
| Appropriations.EditIsAcceptedExactly | crates/griffe-core/src/fiscal_year.rs:666-833 | a revision or a deletion is accepted if and only if the year is the last, unapproved, at the revision read, and its new appropriation is allowed; the new table is given |
| Appropriations.ApprovalIsAcceptedExactly | crates/griffe-core/src/fiscal_year.rs:734-770 | a year is approved if and only if it was not, at the revision read, from its end on and not in the future |
| Appropriations.SettingsAreAcceptedExactly | crates/griffe-core/src/opening_balance.rs:87-200 | the opening is replaced if and only if no year is closed |
| Appropriations.ApprovedYearIsFinal | crates/griffe-core/src/fiscal_year.rs:818-833 | along every run an approved year stays as it was approved |
| Appropriations.DistributionsStayCoveredExactly | crates/griffe-core/src/fiscal_year.rs:257-292 | along every run each year pays out no more than it has if and only if each closing accepted before a closed year leaves that year enough |
| Appropriations.OnlyLossesMakeRetainedNegative | crates/griffe-core/src/fiscal_year.rs:257-292 | along every run of closings in date order retained earnings are above the opening less the losses, and a year below zero has distributed nothing |
| Appropriations.ImputationsStayUnderTheCap | crates/griffe-core/src/fiscal_year.rs:506-606 | over every run no year imputes more than its result, nor above 1 000 000 € and half of the rest |
| Appropriations.LossClosedLateUncoversDividends | crates/griffe-core/src/fiscal_year.rs:506-606 | a family of two-year runs whose first closed year has paid out more than it has |
| YearChain.FiftyTwoCentsAreReached | crates/griffe-core/src/accounting.rs:152-222 | a run of two years reaches the 52 cents |
| YearChain.StocksStayCoveredExactly | crates/griffe-core/src/fiscal_year.rs:340-403 | along every run no inherited stock is negative if and only if each accepted closing is paid for by every later stock |
| YearChain.EquityStaysWholeExactly | crates/griffe-core/src/fiscal_year.rs:365-403 | along every run net results are reserves, dividends or retained if and only if each closing accepted before a closed year appropriates its whole net result |
| YearChain.EquityAddsUpExactly | crates/griffe-core/src/fiscal_year.rs:257-292 | the equity adds up at every year if and only if each year's retained earnings follow from the year before |
| YearChain.YearsClosedInOrderConserve | crates/griffe-core/src/fiscal_year.rs:340-403 | every run of closings in date order keeps both |
| YearChain.ProfitClosedLateDisappears | crates/griffe-core/src/fiscal_year.rs:506-606 | a profit closed before a closed year is in no reserve, dividend or retained earnings |
| YearChain.LossesAreConservedExactly | crates/griffe-core/src/fiscal_year.rs:205-248 | along every run losses are conserved at every year if and only if each accepted closing that imputes losses covers them once its add-back is counted as stored |
| YearChain.AddBacksConserve | crates/griffe-core/src/accounting.rs:360-365 | a closing without a negative add-back does |
| YearChain.NegativeAddBackMakesALoss | crates/griffe-core/src/fiscal_year.rs:506-606 | a family of two-year runs that imputes a loss whole and reports one nobody made |
| YearChain.ReportedStocksStayCoveredExactly | crates/griffe-core/src/fiscal_year.rs:208-228 | along every run the stock reported is the one inherited and never negative if and only if each accepted closing is paid for and brings no add-back that changes its deficit |
| YearChain.CarriedForwardIsInheritedExactly | crates/griffe-core/src/accounting.rs:91-95 | what a closing reports as carried forward is inherited if and only if the part of its loss that add-backs cover is the stock that was missing |
| YearChain.StocksAgreeExactly | crates/griffe-core/src/fiscal_year.rs:340-349 | inherited and reported stocks agree if and only if no loss year has non-deductible charges |
| YearChain.InheritedStockDiffersExactly | crates/griffe-core/src/fiscal_year.rs:336-349 | inherited and reported stocks differ by exactly the add-backs that shrank a deficit, less the negative ones that made one |
| YearChain.ClosingReadsBackExactly | crates/griffe-core/src/fiscal_year.rs:208-248 | a year just closed reads back as computed if and only if its add-back and its stock allow it |
| YearChain.AddBackOnALossIsImputedTwice | crates/griffe-core/src/fiscal_year.rs:340-349 | a family of two-year runs where more is imputed than was lost |
| YearChain.InsertionShiftsLaterStocks | crates/griffe-core/src/fiscal_year.rs:365-403 | closing between closed years shifts every later stock by the year's own term |
| YearChain.YearClosedLateImputesTwice | crates/griffe-core/src/fiscal_year.rs:506-606 | a family of three-year runs where one loss is imputed on two profits |
| Vat.ReadWindow | crates/griffe-core/src/accounting.rs:490-578 | the loop over the ledger computes the sums, floors, roundings and split of the window |
| Vat.RoundedLineIsSplit | crates/griffe-core/src/accounting.rs:547-578 | assets and other sum to the rounded line, are non-negative, and the line is within 50 cents of the book |
| Vat.OwnSettlementIsNotRead | crates/griffe-core/src/accounting.rs:606-610 | a window's settlement pieces and their reversals change nothing of its reading |
| Vat.PeriodKeysDiffer | crates/griffe-core/src/domain/period.rs:122-126 | two months share the key of their settlement piece if and only if they are the same month |
| Vat.ReversalNegatesEveryPart | crates/griffe-core/src/ledger.rs:846-868 | a reversal contributes the opposite of the entry to every total |
| Vat.ReversalOfAPiece | crates/griffe-core/src/accounting.rs:606-610 | an entry and its reversal are both the window's own pieces, or neither, if and only if the entry does not bear the name of the settlement's reversal |
| Vat.ReversalCancels | crates/griffe-core/src/ledger.rs:846-868 | an entry and its reversal leave every total of every window; with that one name, the reversal is read alone |
| Postings.BookReadsAsItsLiveEntries | crates/griffe-core/src/journal.rs:840-852 | after any sequence of postings and reversals the totals of every window are those of the live entries, plus the reversals of entries of that one name |
| Postings.EntryIsReversedOnce | crates/griffe-core/src/journal.rs:840-852 | a live entry is reversed once: the book gains its reversal, the live entries lose it alone, asking again does nothing |
| Postings.EntryIsPosted | crates/griffe-core/src/journal.rs:854-906 | an entry posted joins the book and is live |
| Vat.NumberedReceiptIsReadExactly | crates/griffe-core/src/billing/commands.rs:111-118 | a receipt is taxed in its month, and voided is out of it, if and only if the free number of its imported invoice is not a settlement piece of that month |
| Vat.WindowIsReadOnItsOnlyYear | crates/griffe-core/src/accounting.rs:490-511 | a window is read on the book of the one fiscal year that contains its last day |
| Vat.VatDueForPeriod | crates/griffe-core/src/accounting.rs:633-685 | the month loop terminates and sums each month of the period once |
| Vat.BoxSplitsAtAMonthEnd | crates/griffe-core/src/accounting.rs:633-685 | every box is additive at every month end inside the period |
| Vat.ReturnSplitsAtAMonthEnd | crates/griffe-core/src/accounting.rs:633-685 | so is the whole return, whatever the ledger and the closing date |
| Vat.DeductibleIsNearTheBook | crates/griffe-core/src/accounting.rs:633-685 | the deductible line is within 50 cents a month of the book |
| Vat.ReturnReadsExactly | crates/griffe-core/src/accounting.rs:633-685 | for every ledger, period and closing date the taxable base is the plain sum of the entries read; collected and book are at least theirs, and equal if and only if no two months have opposite signs |
| Vat.PeriodIsReadExactly | crates/griffe-core/src/accounting.rs:633-685 | for a given closing date and period the taxable base is the plain sum over all entries, for every ledger, if and only if no month's window begins before the fiscal year of its last day |
| Vat.EveryDayIsReadExactly | crates/griffe-core/src/accounting.rs:490-511 | that is so of every period if and only if closings are at month ends |
| Vat.UnreadEntryIsLost | crates/griffe-core/src/ledger.rs:1335-1352 | an entry dated in a window before the fiscal year of its last day changes no box of the return, whatever else is posted |
| Documents.PostedSums | crates/griffe-core/src/ledger.rs:694-844 | what each document posts on each account the return reads |
| Documents.DocumentsAreReadExactly | crates/griffe-core/src/accounting.rs:490-578 | for every sequence of documents each box of a window is the sum of the VAT of the receipts, payments and settlements dated in it |
| Documents.ReceiptIsReadAnywhere | crates/griffe-core/src/accounting.rs:527-563 | a receipt in a window, inserted anywhere in any ledger, lowers the signed collected VAT by its VAT, raises the base by its net amount, and changes nothing else |
| Documents.ReceiptsAreDue | crates/griffe-core/src/accounting.rs:633-685 | a return over receipts owes exactly the VAT of those it reads and deducts nothing |
| Documents.AllReceiptsAreDue | crates/griffe-core/src/accounting.rs:633-685 | with month-end closings, every receipt of the period is owed, to the cent |
| Receipts.CollectionBasis | crates/griffe-core/src/journal.rs:591-629 | what is pending and due, read on the live receipts |
| Receipts.VatIsReleasedExactly | crates/griffe-core/src/journal.rs:560-646 | along every run the VAT is released in full whenever the invoice is settled, and never in excess, if and only if no receipt that moved VAT is voided while the others settle, and no credit note takes back VAT moved |
| Receipts.VatMovedIsWithinTheInvoice | crates/griffe-core/src/ledger.rs:789-811 | over every run the receipts never move more VAT than the invoice was issued with |
| Receipts.VatIsReleasedInProportion | crates/griffe-core/src/ledger.rs:799-811 | over any payments the VAT released is never ahead of its share of what is paid, behind by at most a cent a payment, and whole once the invoice is paid |
| Receipts.DoublePaymentLosesItsVat | crates/griffe-core/src/journal.rs:177-214 | an invoice paid twice, its first receipt voided, is settled without its VAT, for ever |
| Income.PrefixesPartition | crates/griffe-core/src/accounting.rs:344-400 | the account filters partition classes 6 and 7 without tax and carry-back |
| Income.ResultIsItsParts | crates/griffe-core/src/accounting.rs:344-400 | for every ledger the result before tax is the sum of its parts |
| Income.BalancedResultIsInTheOtherAccounts | crates/griffe-core/src/accounting.rs:386-400 | with balanced entries it is also what the other accounts gained |
| Documents.DocumentsEarnExactly | crates/griffe-core/src/accounting.rs:344-400 | for every sequence of documents the revenue is the net amount of the sales, and the result that less charges and write-offs |
| Forecast.ForecastTwelveMonths | crates/griffe-core/src/forecast.rs:62-102 | each month's cash is the start, the dated inflows so far, the shares so far, less the expenses |
| Forecast.OneMoreInvoice | crates/griffe-core/src/forecast.rs:62-107 | an invoice raises exactly the months from its due month on, and nothing outside the window |
| Forecast.EachInputMovesTheCash | crates/griffe-core/src/forecast.rs:62-102 | starting cash, expenses and mission inflows each move the cash of every month by their own part |
| Forecast.FirstNegative | crates/griffe-core/src/forecast.rs:111-117 | the first shortfall is the first negative month, none before it |
| Forecast.ReceivableNeverHastensTheShortfall | crates/griffe-core/src/forecast.rs:111-117 | a receivable never brings the first shortfall earlier nor creates one |
| Forecast.LastMonthCountsThePipeline | crates/griffe-core/src/forecast.rs:62-102 | the twelfth month counts the whole pipeline, to the cent |
| Forecast.PendingMissionRevenue | crates/griffe-core/src/forecast.rs:139-172 | each month receives each mission's part once, and nothing before today's month |
| Forecast.MissionBringsExactly | crates/griffe-core/src/forecast.rs:139-172 | what a mission of each kind brings to each month: nothing, its amount in the twelve months, or what is left to invoice on its billing day |
| Forecast.BillingDayIsTheOnlyOne | crates/griffe-core/src/forecast.rs:139-158 | a fixed price has one billing day |
| Forecast.PushEveryMonth | crates/griffe-core/src/forecast.rs:160-172 | a recurrent mission lands once in each of the twelve months |
| Clients.StepKeepsValid | crates/griffe-core/src/clients.rs:62-277 | every command keeps owned contacts, one correspondent a client, distinct plain names |
| Clients.EveryRunIsValid | crates/griffe-core/src/clients.rs:521-632 | so does every run from an empty store |
| Clients.SecondQuiIsAcceptedExactly | crates/griffe-core/src/clients.rs:311-337 | in any store, a creation or renaming to a name already held is accepted if and only if it reads as an identifier of nobody else, or matches no label as stored (or is blank, which the source's folding rules out) |
| Clients.NameIsAcceptedExactly | crates/griffe-core/src/clients.rs:311-337 | in any store a creation or renaming is accepted if and only if its name is blank, reads as an identifier nobody else bears, or matches no label as stored |
| Clients.BlankEscapes | crates/griffe-core/src/reference.rs:148-169 | every plain name, stored with a blank behind it, can be given again without |
| Clients.IdentifierEscapes | crates/griffe-core/src/reference.rs:148-169 | every name that reads as an identifier nobody bears can be given twice |
| Clients.NamesThatEscape | crates/griffe-core/src/reference.rs:51-53 | there are such names |
| Clients.SecondClientWriterIsRefused | crates/griffe-core/src/clients.rs:282-291 | of two writers at one revision the second is refused, whatever happens between, and changes nothing |
| Clients.SecondContactWriterIsRefused | crates/griffe-core/src/clients.rs:292-302 | the same for contacts |
| Clients.ContactKeepsItsFlag | crates/griffe-core/src/clients.rs:574-606 | along every run a contact keeps its client and flag, and its revision tells every change |
| Clients.NoteRevisionCountsChanges | crates/griffe-core/src/dossier_work.rs:52-113 | along every run the revision counts body changes, and equal revisions mean equal bodies |
| Clients.LateSaveExactly | crates/griffe-core/src/dossier_work.rs:52-113 | a save from an old reading writes nothing if unchanged, succeeds if nothing changed, conflicts otherwise |
| Clients.WhatIsStoredIsReadBack | crates/griffe-core/src/clients.rs:102-135 | whatever other writers do, a row still at the revision a command left is the row it stored, and what it deleted is gone |
| Clients.OtherRowsAreUntouched | crates/griffe-core/src/clients.rs:102-182 | a command changes the row it names and no other, a deleted client's contacts aside; refused, nothing |
| Clients.DeletionIsAcceptedExactly | crates/griffe-core/src/clients.rs:240-277 | a client is deleted if and only if no opportunity, quote, mission or invoice names it and its revision is the one read |
| Clients.ReferencedClientStays | crates/griffe-core/src/clients.rs:204-277 | along every run a client that other tables name stays |
| Clients.LettersKeepAReaderExactly | crates/griffe-core/src/clients.rs:614-632 | along every run each client with contacts has its correspondent if and only if none is deleted while its client has another contact |
| Clients.Store.CreateClient | crates/griffe-core/src/clients.rs:62-82 | the whole new state and answer of the command, invariants kept |
| Clients.Store.UpdateClient | crates/griffe-core/src/clients.rs:102-135 | the whole new state and answer of the command, invariants kept |
| Clients.Store.SetClientArchived | crates/griffe-core/src/clients.rs:167-182 | the whole new state and answer of the command, invariants kept |
| Clients.Store.DeleteClient | crates/griffe-core/src/clients.rs:240-277 | the whole new state and answer: contacts go with their client, references forbid it |
| Clients.Store.CreateContact | crates/griffe-core/src/clients.rs:521-554 | the whole new state and answer: the first contact without a correspondent becomes it |
| Clients.Store.UpdateContact | crates/griffe-core/src/clients.rs:574-606 | the whole new state and answer of the command, invariants kept |
| Clients.Store.DeleteContact | crates/griffe-core/src/clients.rs:614-632 | the whole new state and answer of the command, invariants kept |
| Clients.Store.SaveDossierWork | crates/griffe-core/src/dossier_work.rs:52-113 | the whole new notes and answer of the command |
| Tokens.Rewrite | scripts/echange_notion.py:388-397 | the loop makes the passes of the table in order |
| Tokens.PassesAreSimultaneous | scripts/echange_notion.py:388-397 | successive passes are one simultaneous replacement |
| Tokens.PassesIgnoreTheOrder | scripts/echange_notion.py:49-67 | the result does not depend on the order of the table |
| Tokens.PassesLeaveNoSource | scripts/echange_notion.py:388-397 | no source spelling is left, even across a token and its surroundings |
| Tokens.RoundTripExactly | scripts/echange_notion.py:388-397 | there and back is the identity if and only if the text has no target spelling |
| Tokens.TheTablesAreInverseCodes | scripts/echange_notion.py:50-67 | the script's two tables are inverse, unambiguous codes |
| Tokens.LongestFirst | scripts/echange_notion.py:63-67 | the second table has its longest sources first |
| Tokens.JetonsCoffre | scripts/echange_notion.py:388-391 | the rewriting to the vault is the passes of the first table |
| Tokens.JetonsNotion | scripts/echange_notion.py:394-397 | the rewriting to Notion is the passes of the second table |
| Tokens.LettersGoThereAndBackExactly | scripts/echange_notion.py:50-67 | both round trips hold on exactly the texts without the other side's spellings |
| Tokens.EveryTokenIsRespelled | scripts/echange_notion.py:388-397 | in any text a token in front is respelled, both ways, whatever follows |
| Tokens.OtherCharactersStay | scripts/echange_notion.py:388-397 | a character that opens no token stays, whatever follows |
| Mirror.ChunksJoinBack | scripts/echange_notion.py:888-896 | chunks join back to the text, fit 2000 characters, and none is empty unless the text is |
| Mirror.RichText | scripts/echange_notion.py:888-896 | the loop cuts those chunks |
| Mirror.RenderPhrases | scripts/echange_notion.py:926-945 | the loops render the cadence, then each series under its name |
| Mirror.MomentReadsBackExactly | scripts/echange_notion.py:916-923 | what a moment reads as on the page, and its letters read back if and only if they hold no Notion spelling |
| Letters.CatalogueReadsBack | scripts/echange_notion.py:926-945 | a reader of the rendered blocks finds the cadence under its title if there is one, then each series under its name, with its moments in order and their letters in Notion spelling |
| Letters.LettersComeBackExactly | scripts/echange_notion.py:388-397 | a letter read there and respelled for the vault is the letter written if and only if it holds no Notion spelling |
| Mirror.Children | scripts/echange_notion.py:187-200 | the loop collects the answers up to the first that ends it |
| Mirror.ServedListIsReadWhole | scripts/echange_notion.py:167-200 | a list served in pages of any size is read whole |
| Mirror.NothingIsDroppedExactly | scripts/echange_notion.py:167-200 | nothing is dropped if and only if nothing follows the first answer that ends the loop |
| Mirror.RemotePage.Call | scripts/echange_notion.py:964-976 | a write is done whole or refused |
| Mirror.DeleteQueue | scripts/echange_notion.py:961-968 | the deletions of the queue are performed as far as the server accepts |
| Mirror.AppendBatches | scripts/echange_notion.py:969-977 | the blocks are appended in batches of at most 100 as far as the server accepts |
| Mirror.MirrorPhrases | scripts/echange_notion.py:952-978 | a run reads the page cursor by cursor, performs its plan for the rendered catalogue as far as the server accepts it and says how it ended |
| Mirror.DeletionsLeaveTheRest | scripts/echange_notion.py:961-968 | what any number of deletions leaves |
| Mirror.BatchesAddAPrefix | scripts/echange_notion.py:969-977 | what any number of batches adds: a prefix of the blocks wanted |
| Mirror.BatchesJoinBack | scripts/echange_notion.py:969-977 | the batches are the blocks wanted, once and in order, one hundred at a time |
| Mirror.DeletionsFollowTheQueue | scripts/echange_notion.py:961-968 | one deletion a block with an identifier, in order |
| Mirror.PreambleIsNeverTouched | scripts/echange_notion.py:956-968 | the first blocks are the same at every point of a run |
| Mirror.WholeRunSettlesExactly | scripts/echange_notion.py:952-978 | a whole run leaves the page up to date if and only if it was, or has three blocks and a deletable tail |
| Mirror.ShortPageSettlesExactly | scripts/echange_notion.py:955-962 | a page of fewer than three blocks is up to date after exactly the runs that fill it to three and one more, and keeps the first blocks written as preamble |
| Mirror.RunsSettleExactly | scripts/echange_notion.py:952-978 | whole runs come to an end if and only if the page is up to date, is short, or can delete what follows its preamble |
| Mirror.InterruptedRunsKeepThePreamble | scripts/echange_notion.py:952-978 | after any number of runs cut anywhere the preamble is untouched and identifiers distinct |
| Mirror.OneWholeRunRecovers | scripts/echange_notion.py:952-978 | one whole run then ends with preamble and blocks wanted, and the next writes nothing |
| Letters.MirroredPageSaysTheCatalogue | scripts/echange_notion.py:952-978 | after any interruptions and one whole run the page says the catalogue behind its preamble |
| Exchange.NormaliseIdIsIdempotent | scripts/echange_notion.py:160-164 | a normalised identifier is its own normal form |
| Queue.IdentifierIsRead | scripts/echange_notion.py:160-164 | thirty-two hexadecimal digits, however dashed, capitalised or surrounded, are read as their dashed lower form |
| Queue.SamePageExactly | scripts/echange_notion.py:160-164 | two such texts name the same page if and only if their digits are the same |
| Queue.OtherTextIsKept | scripts/echange_notion.py:160-164 | any other text is kept without its surrounding blanks |
| Exchange.Index | scripts/echange_notion.py:207-215 | the loop computes the index |
| Exchange.IndexHoldsTheLast | scripts/echange_notion.py:207-215 | an identifier is indexed if and only if a page alive carries it, and to the last such page |
| Exchange.SectionsH2 | scripts/echange_notion.py:412-433 | one section for each level-two title, the last of its name, up to the next title, without page links |
| Queue.SectionContentExactly | scripts/echange_notion.py:412-433 | a section holds its blocks in order, links to pages and databases left out |
| Exchange.Assemble | scripts/echange_notion.py:566-680 | the loop keeps and refuses exactly the pages the classification does, in order |
| Exchange.OriginsAreDistinct | scripts/echange_notion.py:566-680 | no page is both kept and refused, and every origin is a live page's |
| Exchange.PageIsClassified | scripts/echange_notion.py:566-680 | every live page is kept or refused |
| Queue.PageIsKeptExactly | scripts/echange_notion.py:578-596 | a page is kept if and only if alive, not over, its first relation names a live organisation and its body has works; the reason is the first that fails |
| Queue.KeptPageIsTracked | scripts/echange_notion.py:597-649 | what is kept: the page, its organisation and its name, the subject or else the title, the next day or today |
| Queue.DayIsRead | scripts/echange_notion.py:501-509 | a day, alone or at the head of a timestamp, is read as the day; a blank as today |
| Exchange.ApplyDocument | crates/griffe-core/src/exchange/apply.rs:99-107 | one outcome a dossier in order, up to the first refused if the document asks to stop |
| Exchange.Workspace.Patch | scripts/echange_notion.py:801-809 | a write is accepted or refused whole |
| Exchange.ReportLine | scripts/echange_notion.py:836-868 | the writes of one report line as far as the server accepts |
| Exchange.Report | scripts/echange_notion.py:829-885 | the writes accepted are a prefix of the report, and the failure names the first one missing |
| Exchange.PagesGetTheirStatus | scripts/echange_notion.py:829-885 | each page kept receives its own outcome's status once if the import reached it, each page refused its refusal |
| Exchange.EveryPageGetsOneStatusExactly | scripts/echange_notion.py:829-885 | every live page receives exactly one status if and only if the import did not stop before the last dossier |
| Exchange.PageLeavesTheQueueExactly | scripts/echange_notion.py:683-688 | a page leaves the queue if and only if it receives a status, and holds the last |
| Exchange.WholeReportMarksEachPage | scripts/echange_notion.py:783-799 | a whole report marks a page imported if and only if the import gave it a card and a lead |
| Queue.WholeReportFillsEachPage | scripts/echange_notion.py:783-799 | after a whole report each page reached holds its status, its lead and its day if imported, « Incomplet » and nothing else if not |
| Queue.WholeReportFillsEachCard | scripts/echange_notion.py:793-794 | each organisation holds the card of the last dossier imported for it |
| Exchange.ReportingAgainRecovers | scripts/echange_notion.py:829-885 | reporting again after a stop anywhere ends as one whole report |
| Exchange.InterruptedReportRecovers | scripts/echange_notion.py:829-885 | a report cut short leaves each page untouched or with its final status |

## Left out

- Vat.ReversalCancels: does not claim that the asset/other split is restored, because the reversal of a purchase of assets is classified as other.
- Vat.PeriodIsReadExactly: states the taxable base only, because the other boxes floor or round each month; `Vat.ReturnReadsExactly` bounds them from below.
- Exchange.Assemble: keeps of a dossier its origins, name, subject and date; address, contact, lines, series, work text and draft do not decide its status.
- Documents.DocumentsAreReadExactly: zero lines, which the source omits, are kept; the rounding gap of a settlement and its carried credit are not separate lines; depreciation, payroll and tax entries are no documents.
- Documents.AllReceiptsAreDue: the receipts carry no negative VAT, and none bears the name of its month's settlement; `Vat.NumberedReceiptIsReadExactly` says what happens then.
- Queue.WholeReportFillsEachPage: the organisations and the queue are different pages, as they are in two databases.
- Exchange.ApplyDocument: does not model the database the import writes, nor the series and cadence of the document.
- Exchange.WholeReportMarksEachPage: does not model the kind of each Notion property.
- FiscalYears.ApplyKeepsValid: the table is a value rather than rows updated in place; the lines of the tax entry posted in the journal and database errors are not modelled.
- FiscalYears.RunKeepsValid: the revision of the opening balance is not modelled; recording, replacing and deleting it are one command, refused once a year is closed.
- Clients.StepKeepsValid: a failed foreign key on deletion, such as a paper kept for a client, is not modelled.
- Mirror.Children: the server's answers are a sequence known in advance, and its cursors end.
- Mirror.RemotePage.Call: a server fails after a number of writes given in advance, and its errors carry no message.
- Exchange.Workspace.Patch: the same.
- Income.ResultIsItsParts: salaries computed from the profile (`director_gross`, `director_cost`) are not modelled.
- Receipts.VatIsReleasedExactly: the invoice is one with a positive amount; a credit note dated after a receipt recorded later, which the source leaves out of that receipt's basis, is not modelled.
- Clients.BlankEscapes: folds the accented letters that the source lists and no other capital than theirs and the ASCII ones.
- Forecast.ForecastTwelveMonths: the averaging of past expenses and the weighting of the pipeline are parameters.
- Wrap-around of 64-bit amounts, apart from the carry-back prorata.
- The command executor, its audit chain, invoice numbering and quote pricing.
- HTTP, tokens, arguments, files and console output of the Notion script; the reading of Markdown and of letter moments.
- The command line, the site and the desktop application.
