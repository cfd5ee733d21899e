/** The VAT return of a month and of a period, read on the ledger
    (crates/griffe-core/src/accounting.rs). Debits are positive, credits negative. */
module Vat {
  import opened Basics
  import opened Money
  import opened Calendar

  datatype Journal = OpeningJournal | Journal(code: string)

  datatype Line = Line(account: string, amount: Cents)

  datatype Entry = Entry(journal: Journal, date: Date, piece: string, lines: seq<Line>)

  const BANK := "512000"
  const CLIENTS := "411000"
  const VAT_COLLECTED := "445710"
  const VAT_PENDING := "445881"
  const VAT_DEDUCTIBLE := "445660"
  const VAT_INTRACOM_DEDUCTIBLE := "445662"
  const VAT_INTRACOM_DUE := "445200"
  const VAT_CREDIT := "445670"

  // -------------------------------------------------------------------------
  // What one entry contributes
  // -------------------------------------------------------------------------

  function LinesOn(lines: seq<Line>, account: string): Cents {
    if lines == [] then 0
    else LinesOn(lines[..|lines| - 1], account)
         + if lines[|lines| - 1].account == account then lines[|lines| - 1].amount else 0
  }

  function AccountSum(e: Entry, account: string): Cents { LinesOn(e.lines, account) }

  predicate TransfersPendingVat(e: Entry) {
    AccountSum(e, VAT_PENDING) != 0 && AccountSum(e, VAT_COLLECTED) != 0
  }

  predicate DebitsAsset(e: Entry) {
    exists i :: 0 <= i < |e.lines| && ['2'] <= e.lines[i].account && e.lines[i].amount > 0
  }

  function CollectedPart(e: Entry): Cents {
    if TransfersPendingVat(e) then AccountSum(e, VAT_COLLECTED) else 0
  }

  function TaxablePart(e: Entry): Cents {
    if TransfersPendingVat(e) then -AccountSum(e, CLIENTS) + AccountSum(e, VAT_COLLECTED) else 0
  }

  function DeductiblePart(e: Entry): Cents { AccountSum(e, VAT_DEDUCTIBLE) }

  function AssetPart(e: Entry): Cents { if DebitsAsset(e) then DeductiblePart(e) else 0 }

  function OtherPart(e: Entry): Cents { if DebitsAsset(e) then 0 else DeductiblePart(e) }

  function IntracomDeductiblePart(e: Entry): Cents { AccountSum(e, VAT_INTRACOM_DEDUCTIBLE) }

  function IntracomDuePart(e: Entry): Cents { AccountSum(e, VAT_INTRACOM_DUE) }

  function CreditPart(e: Entry): Cents { AccountSum(e, VAT_CREDIT) }

  // -------------------------------------------------------------------------
  // A window of days
  // -------------------------------------------------------------------------

  datatype Window = Window(from: Date, to: Date, key: string) {
    predicate IsOwnPiece(piece: string) { piece == "CA3-" + key || piece == "EXT-CA3-" + key }

    predicate Dates(date: Date) { AtMost(from, date) && AtMost(date, to) }

    /** The entry moves VAT in the window: neither opening entry nor the window's own settlement. */
    predicate Moves(e: Entry) { Dates(e.date) && e.journal != OpeningJournal && !IsOwnPiece(e.piece) }

    /** The entry is on the book at the end of the window. */
    predicate IsBooked(e: Entry) { AtMost(e.date, to) && !IsOwnPiece(e.piece) }
  }

  function SumIf(part: Entry -> Cents, keep: Entry -> bool, entries: seq<Entry>): Cents {
    if entries == [] then 0
    else SumIf(part, keep, entries[..|entries| - 1])
         + if keep(entries[|entries| - 1]) then part(entries[|entries| - 1]) else 0
  }

  datatype Ca3Month = Ca3Month(
    collected: Cents,
    collectedSigned: Cents,
    taxableHt: Cents,
    deductibleBook: Cents,
    deductibleRounded: Cents,
    deductibleAssets: Cents,
    deductibleOther: Cents,
    creditOnBook: Cents,
    intracom: Cents)

  const NO_READING := Ca3Month(0, 0, 0, 0, 0, 0, 0, 0, 0)

  /** The boxes that follow from the sums of a window. */
  function Boxes(collectedSigned: Cents, taxableHt: Cents, rawAssets: Cents, rawOther: Cents,
                 intracomDeductible: Cents, intracomDue: Cents, creditOnBook: Cents): Ca3Month
  {
    var book := Max(rawAssets + rawOther, 0);
    var rounded := RoundToEuro(book);
    var assets := Min(RoundToEuro(Max(rawAssets, 0)), rounded);
    Ca3Month(Max(-collectedSigned, 0), collectedSigned, taxableHt, book, rounded, assets, rounded - assets,
             creditOnBook, if intracomDeductible == -intracomDue then intracomDeductible else 0)
  }

  function Reading(entries: seq<Entry>, w: Window): Ca3Month {
    Boxes(SumIf(CollectedPart, w.Moves, entries), SumIf(TaxablePart, w.Moves, entries),
          SumIf(AssetPart, w.Moves, entries), SumIf(OtherPart, w.Moves, entries),
          SumIf(IntracomDeductiblePart, w.Moves, entries), SumIf(IntracomDuePart, w.Moves, entries),
          SumIf(CreditPart, w.IsBooked, entries))
  }

  /** The loop over the ledger computes the reading. */
  method ReadWindow(entries: seq<Entry>, w: Window) returns (reading: Ca3Month)
    ensures reading == Reading(entries, w)
  {
    hide RoundToEuro, LinesOn, Window.Moves, Window.IsBooked, DebitsAsset;
    var collectedSigned, taxableHt := 0, 0;
    var rawAssets, rawOther := 0, 0;
    var intracomDeductible, intracomDue := 0, 0;
    for i := 0 to |entries|
      invariant collectedSigned == SumIf(CollectedPart, w.Moves, entries[..i])
      invariant taxableHt == SumIf(TaxablePart, w.Moves, entries[..i])
      invariant rawAssets == SumIf(AssetPart, w.Moves, entries[..i])
      invariant rawOther == SumIf(OtherPart, w.Moves, entries[..i])
      invariant intracomDeductible == SumIf(IntracomDeductiblePart, w.Moves, entries[..i])
      invariant intracomDue == SumIf(IntracomDuePart, w.Moves, entries[..i])
    {
      var entry := entries[i];
      assert entries[..i + 1][..i] == entries[..i];
      if w.Moves(entry) {
        if TransfersPendingVat(entry) {
          var pending := AccountSum(entry, VAT_COLLECTED);
          collectedSigned := collectedSigned + pending;
          taxableHt := taxableHt - AccountSum(entry, CLIENTS) + pending;
        }
        var deductible := AccountSum(entry, VAT_DEDUCTIBLE);
        if deductible != 0 {
          if DebitsAsset(entry) {
            rawAssets := rawAssets + deductible;
          } else {
            rawOther := rawOther + deductible;
          }
        }
        intracomDeductible := intracomDeductible + AccountSum(entry, VAT_INTRACOM_DEDUCTIBLE);
        intracomDue := intracomDue + AccountSum(entry, VAT_INTRACOM_DUE);
      }
    }
    assert entries[..|entries|] == entries;
    var intracom := if intracomDeductible == -intracomDue then intracomDeductible else 0;
    var net := rawAssets + rawOther;
    var book := if net < 0 then 0 else net;
    var rounded := RoundToEuro(book);
    var assets := RoundToEuro(if rawAssets > 0 then rawAssets else 0);
    if assets > rounded {
      assets := rounded;
    }
    reading := Ca3Month(if collectedSigned < 0 then -collectedSigned else 0, collectedSigned, taxableHt,
                        book, rounded, assets, rounded - assets,
                        SumIf(CreditPart, w.IsBooked, entries), intracom);
  }

  /** In every window the assets and the rest add up to the rounded line, neither is negative,
      and the line is whole euros within half a euro of the book. */
  lemma RoundedLineIsSplit(entries: seq<Entry>, w: Window)
    ensures var r := Reading(entries, w);
            && r.deductibleAssets + r.deductibleOther == r.deductibleRounded
            && r.deductibleAssets >= 0 && r.deductibleOther >= 0
            && r.deductibleRounded % 100 == 0 && Abs(r.deductibleRounded - r.deductibleBook) <= 50
            && r.collected >= 0 && (r.collected > 0 ==> r.collected == -r.collectedSigned)
  {
    var book, assets := Reading(entries, w).deductibleBook, Max(SumIf(AssetPart, w.Moves, entries), 0);
    RoundToEuroIsNearest(book);
    RoundToEuroIsNearest(assets);
  }

  // -------------------------------------------------------------------------
  // Settlements and reversals
  // -------------------------------------------------------------------------

  lemma {:induction false} SumIfOfConcat(part: Entry -> Cents, keep: Entry -> bool, a: seq<Entry>, b: seq<Entry>)
    ensures SumIf(part, keep, a + b) == SumIf(part, keep, a) + SumIf(part, keep, b)
  {
    if b == [] {
      assert a + b == a;
    } else {
      var n := |b| - 1;
      assert (a + b)[..|a + b| - 1] == a + b[..n];
      SumIfOfConcat(part, keep, a, b[..n]);
    }
  }

  lemma {:induction false} SumIfOfNone(part: Entry -> Cents, keep: Entry -> bool, entries: seq<Entry>)
    requires forall i :: 0 <= i < |entries| ==> !keep(entries[i])
    ensures SumIf(part, keep, entries) == 0
  {
    if entries != [] {
      SumIfOfNone(part, keep, entries[..|entries| - 1]);
    }
  }

  /** Settling a window, or taking its settlement back, does not change its reading. */
  lemma OwnSettlementIsNotRead(before: seq<Entry>, own: seq<Entry>, after: seq<Entry>, w: Window)
    requires forall i :: 0 <= i < |own| ==> w.IsOwnPiece(own[i].piece)
    ensures Reading(before + own + after, w) == Reading(before + after, w)
  {
    NoneOfThemCounts(CollectedPart, w.Moves, before, own, after);
    NoneOfThemCounts(TaxablePart, w.Moves, before, own, after);
    NoneOfThemCounts(AssetPart, w.Moves, before, own, after);
    NoneOfThemCounts(OtherPart, w.Moves, before, own, after);
    NoneOfThemCounts(IntracomDeductiblePart, w.Moves, before, own, after);
    NoneOfThemCounts(IntracomDuePart, w.Moves, before, own, after);
    NoneOfThemCounts(CreditPart, w.IsBooked, before, own, after);
    hide SumIf, Boxes, CollectedPart, TaxablePart, AssetPart, OtherPart, IntracomDeductiblePart, IntracomDuePart,
         CreditPart;
  }

  lemma NoneOfThemCounts(part: Entry -> Cents, keep: Entry -> bool, before: seq<Entry>, own: seq<Entry>, after: seq<Entry>)
    requires forall i :: 0 <= i < |own| ==> !keep(own[i])
    ensures SumIf(part, keep, before + own + after) == SumIf(part, keep, before + after)
  {
    hide SumIf;
    SumIfOfConcat(part, keep, before + own, after);
    SumIfOfConcat(part, keep, before, own);
    SumIfOfConcat(part, keep, before, after);
    SumIfOfNone(part, keep, own);
  }

  function Negated(lines: seq<Line>): seq<Line> {
    seq(|lines|, i requires 0 <= i < |lines| => Line(lines[i].account, -lines[i].amount))
  }

  /** The reversal of an entry: same day, same journal, opposite amounts, piece `EXT-…`. */
  function Reversal(e: Entry): Entry {
    Entry(e.journal, e.date, "EXT-" + e.piece, Negated(e.lines))
  }

  lemma {:induction false} NegatedLines(lines: seq<Line>, account: string)
    ensures LinesOn(Negated(lines), account) == -LinesOn(lines, account)
  {
    if lines != [] {
      var n := |lines| - 1;
      assert Negated(lines)[..n] == Negated(lines[..n]);
      NegatedLines(lines[..n], account);
    }
  }

  lemma ReversalNegatesEveryPart(e: Entry)
    ensures CollectedPart(Reversal(e)) == -CollectedPart(e)
    ensures TaxablePart(Reversal(e)) == -TaxablePart(e)
    ensures AssetPart(Reversal(e)) + OtherPart(Reversal(e)) == -(AssetPart(e) + OtherPart(e))
    ensures IntracomDeductiblePart(Reversal(e)) == -IntracomDeductiblePart(e)
    ensures IntracomDuePart(Reversal(e)) == -IntracomDuePart(e)
    ensures CreditPart(Reversal(e)) == -CreditPart(e)
  {
    forall account: string {
      NegatedLines(e.lines, account);
    }
  }

  /** A reversal and its entry are both the window's own pieces, or neither is, except when the
      entry bears the name of the settlement's reversal. */
  lemma ReversalOfAPiece(e: Entry, w: Window)
    ensures w.IsOwnPiece(Reversal(e).piece) == w.IsOwnPiece(e.piece) <==> e.piece != "EXT-CA3-" + w.key
  {
    var own := "CA3-" + w.key;
    assert "EXT-CA3-" + w.key == "EXT-" + own;
    assert ("EXT-" + e.piece)[4..] == e.piece && ("EXT-" + own)[4..] == own;
    assert own[0] == 'C' && ("EXT-" + e.piece)[0] == 'E';
    assert |"EXT-" + ("EXT-" + own)| == |own| + 8;
  }

  lemma PairCancels(part: Entry -> Cents, keep: Entry -> bool,
                    a: seq<Entry>, e: Entry, b: seq<Entry>, e': Entry, c: seq<Entry>)
    ensures SumIf(part, keep, a + [e] + b + [e'] + c)
         == SumIf(part, keep, a + b + c) + (if keep(e) then part(e) else 0) + (if keep(e') then part(e') else 0)
  {
    SumIfOfConcat(part, keep, a + [e] + b + [e'], c);
    SumIfOfConcat(part, keep, a + [e] + b, [e']);
    SumIfOfConcat(part, keep, a + [e], b);
    SumIfOfConcat(part, keep, a, [e]);
    SumIfOfConcat(part, keep, a + b, c);
    SumIfOfConcat(part, keep, a, b);
  }

  /** An entry and its reversal leave every total of every window unchanged, whatever stands
      between them. The one exception is an entry that bears the name of the settlement's
      reversal: it is not read, and its reversal is read alone. */
  lemma ReversalCancels(a: seq<Entry>, e: Entry, b: seq<Entry>, c: seq<Entry>, w: Window)
    ensures var with, without := Reading(a + [e] + b + [Reversal(e)] + c, w), Reading(a + b + c, w);
            if e.piece == "EXT-CA3-" + w.key then
              !w.IsOwnPiece(Reversal(e).piece) && with == Reading(a + b + [Reversal(e)] + c, w)
            else
              with.(deductibleAssets := 0, deductibleOther := 0) == without.(deductibleAssets := 0, deductibleOther := 0)
  {
    hide RoundToEuro, CollectedPart, TaxablePart, AssetPart, OtherPart, SumIf;
    hide IntracomDeductiblePart, IntracomDuePart, CreditPart;
    var r := Reversal(e);
    ReversalOfAPiece(e, w);
    if e.piece == "EXT-CA3-" + w.key {
      OwnSettlementIsNotRead(a, [e], b + [r] + c, w);
      assert a + [e] + b + [r] + c == a + [e] + (b + [r] + c);
      assert a + b + [r] + c == a + (b + [r] + c);
    } else {
      ReversalNegatesEveryPart(e);
      PairCancels(CollectedPart, w.Moves, a, e, b, r, c);
      PairCancels(TaxablePart, w.Moves, a, e, b, r, c);
      PairCancels(AssetPart, w.Moves, a, e, b, r, c);
      PairCancels(OtherPart, w.Moves, a, e, b, r, c);
      PairCancels(IntracomDeductiblePart, w.Moves, a, e, b, r, c);
      PairCancels(IntracomDuePart, w.Moves, a, e, b, r, c);
      PairCancels(CreditPart, w.IsBooked, a, e, b, r, c);
    }
  }

  /** The receipt of an invoice, which bears the invoice's number. */
  function Receipt(date: Date, number: string, ht: Cents, vat: Cents): Entry {
    Entry(Journal("BQ"), date, number,
          [Line(BANK, ht + vat), Line(CLIENTS, -(ht + vat)), Line(VAT_PENDING, vat), Line(VAT_COLLECTED, -vat)])
  }

  lemma FourLines(a: Line, b: Line, c: Line, d: Line, account: string)
    ensures LinesOn([a, b, c, d], account)
         == (if a.account == account then a.amount else 0)
          + (if b.account == account then b.amount else 0)
          + (if c.account == account then c.amount else 0)
          + (if d.account == account then d.amount else 0)
  {
    assert [a, b, c, d][..3] == [a, b, c] && [a, b, c][..2] == [a, b] && [a, b][..1] == [a] && [a][..0] == [];
    assert LinesOn([a], account) == if a.account == account then a.amount else 0;
    assert LinesOn([a, b], account) == LinesOn([a], account) + if b.account == account then b.amount else 0;
    assert LinesOn([a, b, c], account) == LinesOn([a, b], account) + if c.account == account then c.amount else 0;
  }

  lemma ReceiptIsTaxed(date: Date, number: string, ht: Cents, vat: Cents)
    requires vat != 0
    ensures TaxablePart(Receipt(date, number, ht, vat)) == ht
    ensures Receipt(date, number, ht, vat).date == date && Receipt(date, number, ht, vat).piece == number
  {
    FourLines(Line(BANK, ht + vat), Line(CLIENTS, -(ht + vat)), Line(VAT_PENDING, vat), Line(VAT_COLLECTED, -vat),
              VAT_PENDING);
    FourLines(Line(BANK, ht + vat), Line(CLIENTS, -(ht + vat)), Line(VAT_PENDING, vat), Line(VAT_COLLECTED, -vat),
              VAT_COLLECTED);
    FourLines(Line(BANK, ht + vat), Line(CLIENTS, -(ht + vat)), Line(VAT_PENDING, vat), Line(VAT_COLLECTED, -vat),
              CLIENTS);
    assert BANK[0] == '5' && CLIENTS[0] == '4' && CLIENTS[1] == '1' && VAT_PENDING[0] == '4' == VAT_COLLECTED[0];
    assert VAT_PENDING[1] == '4' && VAT_COLLECTED[1] == '4' && VAT_PENDING[3] == '8' && VAT_COLLECTED[3] == '7';
  }

  /** The number of an imported invoice is free. Its receipt is taxed in the month it is dated
      exactly when that number is not a settlement piece of the month; voided, it is out of the
      taxable base exactly when it is not the settlement's reversal. */
  lemma NumberedReceiptIsReadExactly(date: Date, number: string, ht: Cents, vat: Cents, w: Window)
    requires ht != 0 && vat != 0 && w.Dates(date)
    ensures var receipt := Receipt(date, number, ht, vat);
            && (Reading([receipt], w).taxableHt == ht <==> number != "CA3-" + w.key && number != "EXT-CA3-" + w.key)
            && (Reading([receipt, Reversal(receipt)], w).taxableHt == 0 <==> number != "EXT-CA3-" + w.key)
  {
    hide RoundToEuro, TaxablePart, LinesOn;
    var receipt := Receipt(date, number, ht, vat);
    var reversal := Reversal(receipt);
    ReceiptIsTaxed(date, number, ht, vat);
    ReversalNegatesEveryPart(receipt);
    ReversalOfAPiece(receipt, w);
    SumIfOfOne(TaxablePart, w.Moves, receipt);
    SumIfOfOne(TaxablePart, w.Moves, reversal);
    SumIfOfConcat(TaxablePart, w.Moves, [receipt], [reversal]);
    assert [receipt] + [reversal] == [receipt, reversal];
    hide SumIf;
  }

  lemma SumIfOfOne(part: Entry -> Cents, keep: Entry -> bool, e: Entry)
    ensures SumIf(part, keep, [e]) == if keep(e) then part(e) else 0
  {
    assert [e][..0] == [];
  }

  // -------------------------------------------------------------------------
  // A period, month by month
  // -------------------------------------------------------------------------

  /** The company's closing date, if it has a profile, and its book by fiscal year. */
  datatype Company = Company(profile: Option<Option<FiscalYearEnd>>, book: FiscalYear -> seq<Entry>) {
    function ClosingDate(): FiscalYearEnd
      requires profile.Some?
    {
      if profile.value.Some? then profile.value.value else CALENDAR_YEAR_END
    }

    /** The window is read on the book of the fiscal year that contains its last day. */
    function Read(w: Window): Ca3Month {
      if profile.None? then NO_READING else Reading(book(Containing(ClosingDate(), w.to)), w)
    }
  }

  /** A window is read on the book of the one fiscal year of the company that its last day is in. */
  lemma WindowIsReadOnItsOnlyYear(company: Company, w: Window, year: int)
    requires company.profile.Some?
    ensures YearEnding(company.ClosingDate(), year).Contains(w.to) ==>
              company.Read(w) == Reading(company.book(YearEnding(company.ClosingDate(), year)), w)
  {
    hide Reading;
    ContainingIsTheOnlyYear(company.ClosingDate(), w.to, year);
  }

  method ReadCompany(company: Company, w: Window) returns (reading: Ca3Month)
    ensures reading == company.Read(w)
  {
    if company.profile.None? {
      return NO_READING;
    }
    reading := ReadWindow(company.book(Containing(company.ClosingDate(), w.to)), w);
  }

  function Digits(n: nat, width: nat): string
    decreases n, width
  {
    if n == 0 && width == 0 then ""
    else Digits(n / 10, if width == 0 then 0 else width - 1) + [['0', '1', '2', '3', '4', '5', '6', '7', '8', '9'][n % 10]]
  }

  /** `AAAA-MM`, the key of a month's settlement piece. */
  function PeriodKey(m: Month): string {
    YearKey(m.year) + "-" + Digits(m.month, 2)
  }

  function YearKey(year: int): string { if year >= 0 then Digits(year, 4) else "-" + Digits(-year, 3) }

  predicate IsDecimal(s: string) { forall i :: 0 <= i < |s| ==> '0' <= s[i] <= '9' }

  function Number(s: string): nat
    requires IsDecimal(s)
  {
    if s == "" then 0 else Number(s[..|s| - 1]) * 10 + (s[|s| - 1] as int - '0' as int)
  }

  lemma {:induction false} DigitsReadBack(n: nat, width: nat)
    ensures IsDecimal(Digits(n, width)) && Number(Digits(n, width)) == n && |Digits(n, width)| >= width
    decreases n, width
  {
    if n != 0 || width != 0 {
      var left := if width == 0 then 0 else width - 1;
      DigitsReadBack(n / 10, left);
      var rest := Digits(n / 10, left);
      var last := ['0', '1', '2', '3', '4', '5', '6', '7', '8', '9'][n % 10];
      assert Digits(n, width) == rest + [last];
      DigitIsItsRank(n % 10);
      OneMoreDigit(rest, last);
      hide Digits, Number, IsDecimal;
    }
  }

  lemma OneMoreDigit(s: string, digit: char)
    requires IsDecimal(s) && '0' <= digit <= '9'
    ensures IsDecimal(s + [digit]) && Number(s + [digit]) == Number(s) * 10 + (digit as int - '0' as int)
  {
    assert (s + [digit])[..|s|] == s;
  }

  lemma DigitIsItsRank(k: nat)
    requires k < 10
    ensures var digit := ['0', '1', '2', '3', '4', '5', '6', '7', '8', '9'][k];
            '0' <= digit <= '9' && digit as int - '0' as int == k
  {
  }

  lemma TwoDigits(n: nat)
    requires n < 100
    ensures |Digits(n, 2)| == 2
  {
    assert Digits(n / 10 / 10, 0) == "";
    assert |Digits(n / 10, 1)| == 1;
  }

  /** The key of a month is its own: no two months share a settlement piece. */
  lemma PeriodKeysDiffer(a: Month, b: Month)
    ensures PeriodKey(a) == PeriodKey(b) <==> a == b
  {
    if PeriodKey(a) == PeriodKey(b) {
      KeyInParts(a);
      KeyInParts(b);
      hide *;
      SameEnds(YearKey(a.year), Digits(a.month, 2), YearKey(b.year), Digits(b.month, 2));
    }
  }

  lemma SameEnds(x: string, u: string, y: string, v: string)
    requires |u| == |v| && x + "-" + u == y + "-" + v
    ensures x == y && u == v
  {
    assert (x + "-" + u)[..|x|] == x && (y + "-" + v)[..|y|] == y;
    assert (x + "-" + u)[|x| + 1..] == u && (y + "-" + v)[|y| + 1..] == v;
  }

  lemma KeyInParts(m: Month)
    ensures var year := YearKey(m.year);
            && PeriodKey(m) == year + "-" + Digits(m.month, 2)
            && |year| >= 4 && |Digits(m.month, 2)| == 2 && (year[0] == '-' <==> m.year < 0)
            && IsDecimal(Digits(m.month, 2)) && Number(Digits(m.month, 2)) == m.month
            && (m.year >= 0 ==> IsDecimal(year) && Number(year) == m.year)
            && (m.year < 0 ==> year[1..] == Digits(-m.year, 3) && IsDecimal(Digits(-m.year, 3)) && Number(Digits(-m.year, 3)) == -m.year)
  {
    TwoDigits(m.month);
    DigitsReadBack(m.month, 2);
    if m.year >= 0 {
      DigitsReadBack(m.year, 4);
    } else {
      DigitsReadBack(-m.year, 3);
    }
    hide Digits, Number;
  }

  /** The part of a month inside a period. */
  function MonthWindow(start: Date, end: Date, m: Month): Window {
    Window(Later(FirstDay(m), start), Earlier(LastDay(m), end), PeriodKey(m))
  }

  /** Sum of one box over `n` months, the month before `m` last. */
  function BoxOver(box: Ca3Month -> Cents, company: Company, start: Date, end: Date, first: Month, n: nat): Cents {
    if n == 0 then 0
    else BoxOver(box, company, start, end, first, n - 1)
         + box(company.Read(MonthWindow(start, end, Advance(first, n - 1))))
  }

  function MonthsBetween(start: Date, end: Date): nat {
    if AtMost(start, end) then Index(MonthOf(end)) - Index(MonthOf(start)) + 1 else 0
  }

  function BoxOfPeriod(box: Ca3Month -> Cents, company: Company, start: Date, end: Date): Cents {
    BoxOver(box, company, start, end, MonthOf(start), MonthsBetween(start, end))
  }

  function CollectedBox(r: Ca3Month): Cents { r.collected }

  function DeductibleBox(r: Ca3Month): Cents { r.deductibleRounded }

  function AssetsBox(r: Ca3Month): Cents { r.deductibleAssets }

  function OtherBox(r: Ca3Month): Cents { r.deductibleOther }

  function TaxableBox(r: Ca3Month): Cents { r.taxableHt }

  function BookBox(r: Ca3Month): Cents { r.deductibleBook }

  /** The breakdown by rate has one line at the normal rate, or none. */
  datatype VatReturn = VatReturn(start: Date, end: Date, collected: Cents, deductible: Cents, due: Cents,
                                 collectedByRate: seq<(Cents, Cents)>,
                                 deductibleAssets: Cents, deductibleOther: Cents, taxableHt: Cents)

  function ReturnOf(company: Company, start: Date, end: Date): VatReturn {
    var collected := BoxOfPeriod(CollectedBox, company, start, end);
    var deductible := BoxOfPeriod(DeductibleBox, company, start, end);
    var taxable := BoxOfPeriod(TaxableBox, company, start, end);
    VatReturn(start, end, collected, deductible, collected - deductible,
              if collected == 0 && taxable == 0 then [] else [(taxable, collected)],
              BoxOfPeriod(AssetsBox, company, start, end), BoxOfPeriod(OtherBox, company, start, end), taxable)
  }

  lemma MonthOfAPeriodIsNotEmpty(start: Date, end: Date, m: Month)
    requires AtMost(start, end) && Index(MonthOf(start)) <= Index(m) <= Index(MonthOf(end))
    ensures AtMost(MonthWindow(start, end, m).from, MonthWindow(start, end, m).to)
  {
    MonthBounds(m, start);
    MonthBounds(m, end);
  }

  lemma ReturnIsMadeOfBoxes(company: Company, start: Date, end: Date)
    ensures var vat := ReturnOf(company, start, end);
            && vat.start == start && vat.end == end && vat.due == vat.collected - vat.deductible
            && vat.collected == BoxOfPeriod(CollectedBox, company, start, end)
            && vat.deductible == BoxOfPeriod(DeductibleBox, company, start, end)
            && vat.deductibleAssets == BoxOfPeriod(AssetsBox, company, start, end)
            && vat.deductibleOther == BoxOfPeriod(OtherBox, company, start, end)
            && vat.taxableHt == BoxOfPeriod(TaxableBox, company, start, end)
            && vat.collectedByRate
               == if vat.collected == 0 && vat.taxableHt == 0 then [] else [(vat.taxableHt, vat.collected)]
  {
  }

  /** The loop over the months terminates and sums each month of the period once. */
  method VatDueForPeriod(company: Company, start: Date, end: Date) returns (vat: VatReturn)
    ensures vat == ReturnOf(company, start, end)
  {
    hide Key, PeriodKey, LastDay, Reading, Succ, ReturnOf, Company.Read;
    var collected, deductible, assets, other, taxable := 0, 0, 0, 0, 0;
    ghost var n := 0;
    if AtMost(start, end) {
      var month := MonthOf(start);
      var last := MonthOf(end);
      DatesAreOrderedByKey(end, start);
      while true
        invariant 0 <= n < MonthsBetween(start, end)
        invariant month == Advance(MonthOf(start), n) && Index(month) == Index(MonthOf(start)) + n
        invariant collected == BoxOver(CollectedBox, company, start, end, MonthOf(start), n)
        invariant deductible == BoxOver(DeductibleBox, company, start, end, MonthOf(start), n)
        invariant assets == BoxOver(AssetsBox, company, start, end, MonthOf(start), n)
        invariant other == BoxOver(OtherBox, company, start, end, MonthOf(start), n)
        invariant taxable == BoxOver(TaxableBox, company, start, end, MonthOf(start), n)
        decreases Index(last) - Index(month)
      {
        var from := Later(FirstDay(month), start);
        var to := Earlier(LastDay(month), end);
        MonthOfAPeriodIsNotEmpty(start, end, month);
        if AtMost(from, to) {
          var part := ReadCompany(company, Window(from, to, PeriodKey(month)));
          collected := collected + part.collected;
          deductible := deductible + part.deductibleRounded;
          assets := assets + part.deductibleAssets;
          other := other + part.deductibleOther;
          taxable := taxable + part.taxableHt;
        }
        n := n + 1;
        MonthsAreOrderedByIndex(month, last);
        if month == last {
          break;
        }
        month := Succ(month);
      }
    }
    ReturnIsMadeOfBoxes(company, start, end);
    vat := VatReturn(start, end, collected, deductible, collected - deductible,
                     if collected == 0 && taxable == 0 then [] else [(taxable, collected)], assets, other, taxable);
  }

  // -------------------------------------------------------------------------
  // Splitting a period at a month end
  // -------------------------------------------------------------------------

  lemma {:induction false} AdvanceTwice(m: Month, a: nat, b: nat)
    ensures Advance(m, a + b) == Advance(Advance(m, a), b)
  {
    if b > 0 {
      AdvanceTwice(m, a, b - 1);
    }
  }

  lemma {:induction false} BoxOverSplits(box: Ca3Month -> Cents, company: Company, start: Date, end: Date,
                                         first: Month, n: nat, k: nat)
    ensures BoxOver(box, company, start, end, first, n + k)
         == BoxOver(box, company, start, end, first, n) + BoxOver(box, company, start, end, Advance(first, n), k)
  {
    hide Company.Read, MonthWindow;
    if k > 0 {
      BoxOverSplits(box, company, start, end, first, n, k - 1);
      AdvanceTwice(first, n, k - 1);
    }
  }

  lemma {:induction false} BoxOverSameWindows(box: Ca3Month -> Cents, company: Company, start: Date, end: Date,
                                              start': Date, end': Date, first: Month, n: nat)
    requires forall k: nat :: k < n ==>
               MonthWindow(start, end, Advance(first, k)) == MonthWindow(start', end', Advance(first, k))
    ensures BoxOver(box, company, start, end, first, n) == BoxOver(box, company, start', end', first, n)
  {
    hide Company.Read, MonthWindow;
    if n > 0 {
      BoxOverSameWindows(box, company, start, end, start', end', first, n - 1);
    }
  }

  lemma WindowsBeforeACut(start: Date, end: Date, cut: Month, m: Month)
    requires Index(m) <= Index(cut) < Index(MonthOf(end))
    ensures MonthWindow(start, end, m) == MonthWindow(start, LastDay(cut), m)
  {
    hide PeriodKey;
    MonthBounds(m, end);
    MonthBounds(m, LastDay(cut));
    MonthBounds(cut, LastDay(cut));
  }

  lemma WindowsAfterACut(start: Date, end: Date, cut: Month, m: Month)
    requires Index(MonthOf(start)) <= Index(cut) < Index(m)
    ensures MonthWindow(start, end, m) == MonthWindow(FirstDay(Succ(cut)), end, m)
  {
    hide PeriodKey;
    MonthsAreOrderedByIndex(cut, m);
    MonthBounds(m, start);
    MonthBounds(m, FirstDay(Succ(cut)));
  }

  /** Every box of a period is the sum of the two parts cut at any month end inside it. */
  lemma BoxSplitsAtAMonthEnd(box: Ca3Month -> Cents, company: Company, start: Date, end: Date, cut: Month)
    requires Index(MonthOf(start)) <= Index(cut) < Index(MonthOf(end))
    ensures BoxOfPeriod(box, company, start, end)
         == BoxOfPeriod(box, company, start, LastDay(cut)) + BoxOfPeriod(box, company, FirstDay(Succ(cut)), end)
  {
    hide Key, PeriodKey, Company.Read, MonthWindow, BoxOver, Advance, LastDay;
    var first, n := MonthOf(start), Index(cut) - Index(MonthOf(start)) + 1;
    var next, k := Succ(cut), Index(MonthOf(end)) - Index(cut);
    CutMonths(start, end, cut);
    BoxOverSplits(box, company, start, end, first, n, k);
    forall i: nat | i < n
      ensures MonthWindow(start, end, Advance(first, i)) == MonthWindow(start, LastDay(cut), Advance(first, i))
    {
      AdvanceIndex(first, i);
      WindowsBeforeACut(start, end, cut, Advance(first, i));
    }
    BoxOverSameWindows(box, company, start, end, start, LastDay(cut), first, n);
    forall i: nat | i < k
      ensures MonthWindow(start, end, Advance(next, i)) == MonthWindow(FirstDay(next), end, Advance(next, i))
    {
      AdvanceIndex(next, i);
      WindowsAfterACut(start, end, cut, Advance(next, i));
    }
    BoxOverSameWindows(box, company, start, end, FirstDay(next), end, next, k);
  }

  lemma CutMonths(start: Date, end: Date, cut: Month)
    requires Index(MonthOf(start)) <= Index(cut) < Index(MonthOf(end))
    ensures var n, k := Index(cut) - Index(MonthOf(start)) + 1, Index(MonthOf(end)) - Index(cut);
            && MonthsBetween(start, end) == n + k
            && MonthsBetween(start, LastDay(cut)) == n
            && MonthsBetween(FirstDay(Succ(cut)), end) == k
            && Advance(MonthOf(start), n) == Succ(cut)
            && Index(Succ(cut)) == Index(cut) + 1
  {
    MonthBounds(cut, LastDay(cut));
    MonthBounds(cut, start);
    MonthBounds(Succ(cut), end);
    DatesAreOrderedByKey(start, end);
    AdvanceIndex(MonthOf(start), Index(cut) - Index(MonthOf(start)) + 1);
    MonthsAreOrderedByIndex(Succ(cut), Advance(MonthOf(start), Index(cut) - Index(MonthOf(start)) + 1));
  }

  /** A return splits additively at any month end, whatever the ledger and the closing date. */
  lemma ReturnSplitsAtAMonthEnd(company: Company, start: Date, end: Date, cut: Month)
    requires Index(MonthOf(start)) <= Index(cut) < Index(MonthOf(end))
    ensures var whole, left, right := ReturnOf(company, start, end), ReturnOf(company, start, LastDay(cut)),
                                      ReturnOf(company, FirstDay(Succ(cut)), end);
            && whole.collected == left.collected + right.collected
            && whole.deductible == left.deductible + right.deductible
            && whole.due == left.due + right.due
            && whole.deductibleAssets == left.deductibleAssets + right.deductibleAssets
            && whole.deductibleOther == left.deductibleOther + right.deductibleOther
            && whole.taxableHt == left.taxableHt + right.taxableHt
  {
    hide BoxOfPeriod, LastDay, Succ;
    BoxSplitsAtAMonthEnd(CollectedBox, company, start, end, cut);
    BoxSplitsAtAMonthEnd(DeductibleBox, company, start, end, cut);
    BoxSplitsAtAMonthEnd(AssetsBox, company, start, end, cut);
    BoxSplitsAtAMonthEnd(OtherBox, company, start, end, cut);
    BoxSplitsAtAMonthEnd(TaxableBox, company, start, end, cut);
  }

  lemma {:induction false} RoundingOverMonths(company: Company, start: Date, end: Date, first: Month, n: nat)
    ensures Abs(BoxOver(DeductibleBox, company, start, end, first, n)
                - BoxOver(BookBox, company, start, end, first, n)) <= 50 * n
    ensures BoxOver(DeductibleBox, company, start, end, first, n)
         == BoxOver(AssetsBox, company, start, end, first, n) + BoxOver(OtherBox, company, start, end, first, n)
  {
    hide Reading, MonthWindow, Containing, Advance;
    if n > 0 {
      RoundingOverMonths(company, start, end, first, n - 1);
      var w := MonthWindow(start, end, Advance(first, n - 1));
      if company.profile.Some? {
        RoundedLineIsSplit(company.book(Containing(company.ClosingDate(), w.to)), w);
      }
    }
  }

  /** The deductible line of a period is within half a euro per month of the book. */
  lemma DeductibleIsNearTheBook(company: Company, start: Date, end: Date)
    ensures var vat := ReturnOf(company, start, end);
            && Abs(vat.deductible - BoxOfPeriod(BookBox, company, start, end)) <= 50 * MonthsBetween(start, end)
            && vat.deductibleAssets + vat.deductibleOther == vat.deductible
  {
    hide Company.Read, MonthsBetween, BoxOver;
    RoundingOverMonths(company, start, end, MonthOf(start), MonthsBetween(start, end));
  }

  // -------------------------------------------------------------------------
  // Every day is read once
  // -------------------------------------------------------------------------

  function InYear(posted: seq<Entry>, year: FiscalYear): seq<Entry> {
    if posted == [] then []
    else InYear(posted[..|posted| - 1], year)
         + if year.Contains(posted[|posted| - 1].date) then [posted[|posted| - 1]] else []
  }

  /** A company whose book of a year is its entries dated in that year. */
  function PostedCompany(e: FiscalYearEnd, posted: seq<Entry>): Company {
    Company(Some(Some(e)), year => InYear(posted, year))
  }

  /** Entries that move VAT in a period, up to a month: each entry's own month names
      the settlement it may be. */
  datatype Period = Period(start: Date, end: Date, bound: int) {
    predicate Moves(e: Entry) {
      && AtMost(start, e.date) && AtMost(e.date, end) && Index(MonthOf(e.date)) < bound
      && e.journal != OpeningJournal && !Window(start, end, PeriodKey(MonthOf(e.date))).IsOwnPiece(e.piece)
    }
  }

  lemma {:induction false} SumIfInYear(part: Entry -> Cents, keep: Entry -> bool, both: Entry -> bool,
                                       posted: seq<Entry>, year: FiscalYear)
    requires forall e :: both(e) <==> keep(e) && year.Contains(e.date)
    ensures SumIf(part, keep, InYear(posted, year)) == SumIf(part, both, posted)
  {
    if posted != [] {
      var n := |posted| - 1;
      SumIfInYear(part, keep, both, posted[..n], year);
      if year.Contains(posted[n].date) {
        SumIfOfConcat(part, keep, InYear(posted[..n], year), [posted[n]]);
        SumIfOfOne(part, keep, posted[n]);
      } else {
        assert InYear(posted, year) == InYear(posted[..n], year);
      }
    }
  }

  lemma {:induction false} SumIfOfEither(part: Entry -> Cents, keep: Entry -> bool, a: Entry -> bool, b: Entry -> bool,
                                         entries: seq<Entry>)
    requires forall e :: (keep(e) <==> a(e) || b(e)) && !(a(e) && b(e))
    ensures SumIf(part, keep, entries) == SumIf(part, a, entries) + SumIf(part, b, entries)
  {
    if entries != [] {
      SumIfOfEither(part, keep, a, b, entries[..|entries| - 1]);
    }
  }

  lemma MonthWindowHoldsItsMonth(start: Date, end: Date, m: Month, e: Entry)
    ensures MonthWindow(start, end, m).Moves(e)
       <==> Period(start, end, Index(m) + 1).Moves(e) && !Period(start, end, Index(m)).Moves(e)
    ensures Period(start, end, Index(m)).Moves(e) ==> Period(start, end, Index(m) + 1).Moves(e)
  {
    hide PeriodKey, LastDay;
    MonthBounds(m, e.date);
    MonthsAreOrderedByIndex(m, MonthOf(e.date));
  }

  lemma NothingMovesBeforeTheStart(start: Date, end: Date, e: Entry)
    ensures !Period(start, end, Index(MonthOf(start))).Moves(e)
  {
    hide PeriodKey;
    DatesAreOrderedByKey(e.date, start);
  }

  /** The loop over the months of a period: it reads an entry that moves VAT when the fiscal year
      of the last day of its month's window has begun on the entry's day. */
  datatype Loop = Loop(closing: FiscalYearEnd, period: Period) {
    function YearOf(date: Date): FiscalYear {
      Containing(closing, MonthWindow(period.start, period.end, MonthOf(date)).to)
    }

    predicate Reads(e: Entry) { period.Moves(e) && AtMost(YearOf(e.date).start, e.date) }
  }

  /** One raw sum over the first `n` months, each read on its own book. */
  function PartOver(part: Entry -> Cents, e: FiscalYearEnd, posted: seq<Entry>, start: Date, end: Date, n: nat): Cents {
    if n == 0 then 0
    else
      var w := MonthWindow(start, end, Advance(MonthOf(start), n - 1));
      PartOver(part, e, posted, start, end, n - 1) + SumIf(part, w.Moves, InYear(posted, Containing(e, w.to)))
  }

  lemma MonthIsReadInItsYear(e: FiscalYearEnd, start: Date, end: Date, m: Month, x: Entry)
    requires AtMost(start, end) && Index(MonthOf(start)) <= Index(m) <= Index(MonthOf(end))
    ensures var w := MonthWindow(start, end, m);
            (w.Moves(x) && Containing(e, w.to).Contains(x.date))
            == (Loop(e, Period(start, end, Index(m) + 1)).Reads(x) && !Loop(e, Period(start, end, Index(m))).Reads(x))
    ensures Loop(e, Period(start, end, Index(m))).Reads(x) ==> Loop(e, Period(start, end, Index(m) + 1)).Reads(x)
  {
    hide PeriodKey, LastDay, Containing;
    MonthBounds(m, x.date);
    MonthsAreOrderedByIndex(m, MonthOf(x.date));
    MonthWindowHoldsItsMonth(start, end, m, x);
    ContainingContainsItsDate(e, MonthWindow(start, end, m).to);
  }

  lemma {:induction false} PartUpTo(
      part: Entry -> Cents, e: FiscalYearEnd, posted: seq<Entry>, start: Date, end: Date, n: nat)
    requires AtMost(start, end) && n <= MonthsBetween(start, end)
    ensures PartOver(part, e, posted, start, end, n)
         == SumIf(part, Loop(e, Period(start, end, Index(MonthOf(start)) + n)).Reads, posted)
  {
    hide PeriodKey, Key, MonthWindow, Period.Moves, Window.Moves, Containing, Loop.YearOf, Loop.Reads, InYear, SumIf, Advance;
    var first := MonthOf(start);
    if n == 0 {
      forall x: Entry
        ensures !Loop(e, Period(start, end, Index(first))).Reads(x)
      {
        NothingMovesBeforeTheStart(start, end, x);
        ReadsOnlyWhatMoves(Loop(e, Period(start, end, Index(first))), x);
      }
      SumIfOfNone(part, Loop(e, Period(start, end, Index(first))).Reads, posted);
    } else {
      PartUpTo(part, e, posted, start, end, n - 1);
      AdvanceIndex(first, n - 1);
      var m := Advance(first, n - 1);
      PartOfAMonth(part, e, posted, start, end, m);
    }
  }

  lemma ReadsOnlyWhatMoves(loop: Loop, x: Entry)
    ensures loop.Reads(x) ==> loop.period.Moves(x)
  {
  }

  lemma PartOfAMonth(part: Entry -> Cents, e: FiscalYearEnd, posted: seq<Entry>, start: Date, end: Date, m: Month)
    requires AtMost(start, end) && Index(MonthOf(start)) <= Index(m) <= Index(MonthOf(end))
    ensures var w := MonthWindow(start, end, m);
            SumIf(part, Loop(e, Period(start, end, Index(m) + 1)).Reads, posted) ==
              SumIf(part, Loop(e, Period(start, end, Index(m))).Reads, posted)
              + SumIf(part, w.Moves, InYear(posted, Containing(e, w.to)))
  {
    hide PeriodKey, Key, MonthWindow, Period.Moves, Window.Moves, Containing, Loop.YearOf, Loop.Reads;
    var w := MonthWindow(start, end, m);
    var year := Containing(e, w.to);
    var inMonth := (x: Entry) => w.Moves(x) && year.Contains(x.date);
    var before, upTo := Loop(e, Period(start, end, Index(m))), Loop(e, Period(start, end, Index(m) + 1));
    forall x: Entry
      ensures (upTo.Reads(x) <==> before.Reads(x) || inMonth(x)) && !(before.Reads(x) && inMonth(x))
    {
      MonthIsReadInItsYear(e, start, end, m, x);
    }
    SumIfInYear(part, w.Moves, inMonth, posted, year);
    SumIfOfEither(part, upTo.Reads, before.Reads, inMonth, posted);
  }

  function WholeLoop(e: FiscalYearEnd, start: Date, end: Date): Loop {
    Loop(e, Period(start, end, Index(MonthOf(end)) + 1))
  }

  /** The raw sums of the months of a period. */
  datatype Months = Months(part: Entry -> Cents, e: FiscalYearEnd, posted: seq<Entry>, start: Date, end: Date) {
    function At(i: nat): Cents {
      var w := MonthWindow(start, end, Advance(MonthOf(start), i));
      SumIf(part, w.Moves, InYear(posted, Containing(e, w.to)))
    }

    function Owed(i: nat): Cents { -At(i) }
  }

  lemma {:induction false} PartOverIsTheirTotal(months: Months, n: nat)
    ensures PartOver(months.part, months.e, months.posted, months.start, months.end, n) == Total(months.At, n)
    ensures Total(months.Owed, n) == -Total(months.At, n)
  {
    hide SumIf, MonthWindow, Containing, Advance, InYear;
    if n > 0 {
      PartOverIsTheirTotal(months, n - 1);
    }
  }

  lemma {:induction false} DeductibleIsItsParts(keep: Entry -> bool, entries: seq<Entry>)
    ensures SumIf(DeductiblePart, keep, entries) == SumIf(AssetPart, keep, entries) + SumIf(OtherPart, keep, entries)
  {
    if entries != [] {
      DeductibleIsItsParts(keep, entries[..|entries| - 1]);
    }
  }

  lemma BoxesOfAMonth(e: FiscalYearEnd, posted: seq<Entry>, w: Window)
    ensures var r, book := PostedCompany(e, posted).Read(w), InYear(posted, Containing(e, w.to));
            && r.taxableHt == SumIf(TaxablePart, w.Moves, book)
            && r.collected == Max(-SumIf(CollectedPart, w.Moves, book), 0)
            && r.deductibleBook == Max(SumIf(DeductiblePart, w.Moves, book), 0)
  {
    DeductibleIsItsParts(w.Moves, InYear(posted, Containing(e, w.to)));
    hide SumIf, RoundToEuro, InYear, Containing, DeductiblePart, AssetPart, OtherPart;
  }

  lemma {:induction false} BoxesOverMonths(e: FiscalYearEnd, posted: seq<Entry>, start: Date, end: Date, n: nat)
    ensures var company, first := PostedCompany(e, posted), MonthOf(start);
            && BoxOver(TaxableBox, company, start, end, first, n) == PartOver(TaxablePart, e, posted, start, end, n)
            && BoxOver(CollectedBox, company, start, end, first, n)
               == Floored(Months(CollectedPart, e, posted, start, end).Owed, n)
            && BoxOver(BookBox, company, start, end, first, n)
               == Floored(Months(DeductiblePart, e, posted, start, end).At, n)
  {
    hide SumIf, MonthWindow, Containing, Advance, Company.Read, PostedCompany, InYear;
    if n > 0 {
      BoxesOverMonths(e, posted, start, end, n - 1);
      BoxesOfAMonth(e, posted, MonthWindow(start, end, Advance(MonthOf(start), n - 1)));
    }
  }

  /** For every ledger, period and closing date: the taxable base of a return is the plain sum of
      the entries the loop reads. The collected VAT and the deductible book, floored each month,
      are at least their plain sums floored, and equal to them exactly when no two months have
      opposite signs. */
  lemma ReturnReadsExactly(e: FiscalYearEnd, posted: seq<Entry>, start: Date, end: Date)
    requires AtMost(start, end)
    ensures var company, loop, n := PostedCompany(e, posted), WholeLoop(e, start, end), MonthsBetween(start, end);
            var collected := Max(-SumIf(CollectedPart, loop.Reads, posted), 0);
            var book := Max(SumIf(DeductiblePart, loop.Reads, posted), 0);
            && ReturnOf(company, start, end).taxableHt == SumIf(TaxablePart, loop.Reads, posted)
            && ReturnOf(company, start, end).collected >= collected
            && (ReturnOf(company, start, end).collected == collected
                <==> HaveOneSign(Months(CollectedPart, e, posted, start, end).Owed, n))
            && BoxOfPeriod(BookBox, company, start, end) >= book
            && (BoxOfPeriod(BookBox, company, start, end) == book
                <==> HaveOneSign(Months(DeductiblePart, e, posted, start, end).At, n))
  {
    hide PeriodKey, TaxablePart, CollectedPart, DeductiblePart, PostedCompany, Loop.Reads, SumIf, PartOver, BoxOver,
         HaveOneSign, Floored, Total, Months.At, Months.Owed;
    var n := MonthsBetween(start, end);
    DatesAreOrderedByKey(end, start);
    ReturnIsMadeOfBoxes(PostedCompany(e, posted), start, end);
    BoxesOverMonths(e, posted, start, end, n);
    PartUpTo(TaxablePart, e, posted, start, end, n);
    PartUpTo(CollectedPart, e, posted, start, end, n);
    PartUpTo(DeductiblePart, e, posted, start, end, n);
    var collected, book := Months(CollectedPart, e, posted, start, end), Months(DeductiblePart, e, posted, start, end);
    PartOverIsTheirTotal(collected, n);
    PartOverIsTheirTotal(book, n);
    FloorsAddUpExactly(collected.Owed, n);
    FloorsAddUpExactly(book.At, n);
  }

  /** Net receipts taxed over a period, read directly on the posted entries. */
  function TaxableOver(posted: seq<Entry>, start: Date, end: Date): Cents {
    SumIf(TaxablePart, Period(start, end, Index(MonthOf(end)) + 1).Moves, posted)
  }

  /** The fiscal year of the last day of each month's window has begun with the window. */
  predicate MonthIsCovered(e: FiscalYearEnd, start: Date, end: Date, m: Month) {
    AtMost(Containing(e, MonthWindow(start, end, m).to).start, MonthWindow(start, end, m).from)
  }

  ghost predicate MonthsAreCovered(e: FiscalYearEnd, start: Date, end: Date) {
    forall m: Month :: Index(MonthOf(start)) <= Index(m) <= Index(MonthOf(end)) ==> MonthIsCovered(e, start, end, m)
  }

  lemma CoveredMonthIsRead(e: FiscalYearEnd, start: Date, end: Date, x: Entry)
    requires MonthsAreCovered(e, start, end)
    ensures WholeLoop(e, start, end).Reads(x) <==> Period(start, end, Index(MonthOf(end)) + 1).Moves(x)
  {
    hide PeriodKey, LastDay, Containing;
    var m := MonthOf(x.date);
    if Period(start, end, Index(MonthOf(end)) + 1).Moves(x) {
      DatesAreOrderedByKey(x.date, start);
      assert MonthIsCovered(e, start, end, m);
      MonthBounds(m, x.date);
    }
  }

  /** A receipt on the first day of a month's window moves VAT there, and is read exactly when the
      month is covered. */
  lemma FirstReceipt(e: FiscalYearEnd, start: Date, end: Date, m: Month) returns (receipt: Entry)
    requires AtMost(start, end) && Index(MonthOf(start)) <= Index(m) <= Index(MonthOf(end))
    ensures TaxablePart(receipt) == 100 && receipt.date == MonthWindow(start, end, m).from
    ensures Period(start, end, Index(MonthOf(end)) + 1).Moves(receipt)
    ensures WholeLoop(e, start, end).Reads(receipt) <==> MonthIsCovered(e, start, end, m)
  {
    hide TaxablePart, LastDay, Containing, PeriodKey;
    var w := MonthWindow(start, end, m);
    receipt := Receipt(w.from, "FA-1", 100, 20);
    ReceiptIsTaxed(w.from, "FA-1", 100, 20);
    MonthOfAPeriodIsNotEmpty(start, end, m);
    FirstDayOfAWindow(start, end, m);
    assert ("CA3-" + PeriodKey(m))[0] == 'C' && ("EXT-CA3-" + PeriodKey(m))[0] == 'E' && "FA-1"[0] == 'F';
  }

  lemma FirstDayOfAWindow(start: Date, end: Date, m: Month)
    requires AtMost(start, end) && Index(MonthOf(start)) <= Index(m) <= Index(MonthOf(end))
    ensures var from := MonthWindow(start, end, m).from;
            MonthOf(from) == m && AtMost(start, from) && AtMost(from, end)
  {
    hide PeriodKey;
    MonthBounds(m, start);
    MonthBounds(m, end);
    MonthBounds(m, FirstDay(m));
    MonthsAreOrderedByIndex(m, MonthOf(start));
  }

  /** For a given closing date and period: the taxable base is the plain sum over the posted
      entries, for every ledger, exactly when each month of the period lies, from the first day
      to the last day of its window, in one fiscal year. */
  lemma PeriodIsReadExactly(e: FiscalYearEnd, start: Date, end: Date)
    requires AtMost(start, end)
    ensures (forall posted :: ReturnOf(PostedCompany(e, posted), start, end).taxableHt == TaxableOver(posted, start, end))
       <==> MonthsAreCovered(e, start, end)
  {
    hide ReturnOf, PostedCompany, TaxableOver, MonthIsCovered;
    if MonthsAreCovered(e, start, end) {
      forall posted
        ensures ReturnOf(PostedCompany(e, posted), start, end).taxableHt == TaxableOver(posted, start, end)
      {
        CoveredPeriodIsRead(e, posted, start, end);
      }
    } else {
      var m: Month :| Index(MonthOf(start)) <= Index(m) <= Index(MonthOf(end)) && !MonthIsCovered(e, start, end, m);
      var receipt := UncoveredReceiptIsLost(e, start, end, m);
      assert ReturnOf(PostedCompany(e, [receipt]), start, end).taxableHt != TaxableOver([receipt], start, end);
    }
  }

  lemma CoveredPeriodIsRead(e: FiscalYearEnd, posted: seq<Entry>, start: Date, end: Date)
    requires AtMost(start, end) && MonthsAreCovered(e, start, end)
    ensures ReturnOf(PostedCompany(e, posted), start, end).taxableHt == TaxableOver(posted, start, end)
  {
    hide ReturnOf, PostedCompany, Period.Moves, Loop.Reads, TaxablePart, MonthsAreCovered, SumIf, HaveOneSign, WholeLoop,
         BoxOfPeriod, MonthsBetween;
    ReturnReadsExactly(e, posted, start, end);
    var loop, period := WholeLoop(e, start, end), Period(start, end, Index(MonthOf(end)) + 1);
    forall x: Entry
      ensures loop.Reads(x) <==> period.Moves(x)
    {
      CoveredMonthIsRead(e, start, end, x);
    }
    SumIfOfTheSame(TaxablePart, loop.Reads, period.Moves, posted);
  }

  lemma UncoveredReceiptIsLost(e: FiscalYearEnd, start: Date, end: Date, m: Month) returns (receipt: Entry)
    requires AtMost(start, end) && Index(MonthOf(start)) <= Index(m) <= Index(MonthOf(end))
    requires !MonthIsCovered(e, start, end, m)
    ensures ReturnOf(PostedCompany(e, [receipt]), start, end).taxableHt == 0
    ensures TaxableOver([receipt], start, end) == 100
  {
    hide ReturnOf, PostedCompany, Period.Moves, Loop.Reads, TaxablePart, MonthIsCovered, SumIf, HaveOneSign, WholeLoop,
         BoxOfPeriod, MonthsBetween;
    receipt := FirstReceipt(e, start, end, m);
    ReturnReadsExactly(e, [receipt], start, end);
    SumIfOfOne(TaxablePart, WholeLoop(e, start, end).Reads, receipt);
    SumIfOfOne(TaxablePart, Period(start, end, Index(MonthOf(end)) + 1).Moves, receipt);
  }

  lemma {:induction false} SumIfOfTheSame(part: Entry -> Cents, a: Entry -> bool, b: Entry -> bool, entries: seq<Entry>)
    requires forall e :: a(e) <==> b(e)
    ensures SumIf(part, a, entries) == SumIf(part, b, entries)
  {
    if entries != [] {
      SumIfOfTheSame(part, a, b, entries[..|entries| - 1]);
    }
  }

  /** Every period of a company is read whole, for every ledger, exactly when it closes at a month
      end. */
  lemma EveryDayIsReadExactly(e: FiscalYearEnd)
    ensures (forall posted, start, end | AtMost(start, end) ::
               ReturnOf(PostedCompany(e, posted), start, end).taxableHt == TaxableOver(posted, start, end))
       <==> ClosesAtMonthEnd(e)
  {
    hide ReturnOf, PostedCompany, TaxableOver, ClosesAtMonthEnd, MonthsAreCovered;
    if ClosesAtMonthEnd(e) {
      forall posted, start, end | AtMost(start, end)
        ensures ReturnOf(PostedCompany(e, posted), start, end).taxableHt == TaxableOver(posted, start, end)
      {
        MonthEndCompaniesAreCovered(e, start, end);
        PeriodIsReadExactly(e, start, end);
      }
    } else {
      var m: Month := YearMonth(2024, e.month);
      MonthBounds(m, LastDay(m));
      ClosingMonthIsNotCovered(e);
      PeriodIsReadExactly(e, FirstDay(m), LastDay(m));
    }
  }

  lemma MonthEndCompaniesAreCovered(e: FiscalYearEnd, start: Date, end: Date)
    requires ClosesAtMonthEnd(e) && AtMost(start, end)
    ensures MonthsAreCovered(e, start, end)
  {
    hide PeriodKey, Containing;
    forall m: Month | Index(MonthOf(start)) <= Index(m) <= Index(MonthOf(end))
      ensures MonthIsCovered(e, start, end, m)
    {
      var w := MonthWindow(start, end, m);
      MonthOfAPeriodIsNotEmpty(start, end, m);
      MonthBounds(m, w.to);
      MonthBounds(m, w.from);
      MonthIsInOneFiscalYear(e, w.to);
    }
  }

  lemma ClosingMonthIsNotCovered(e: FiscalYearEnd)
    requires !ClosesAtMonthEnd(e)
    ensures var m := YearMonth(2024, e.month);
            AtMost(FirstDay(m), LastDay(m)) && !MonthsAreCovered(e, FirstDay(m), LastDay(m))
  {
    hide PeriodKey, Containing;
    var m: Month := YearMonth(2024, e.month);
    MidMonthClosing(e);
    MonthBounds(m, LastDay(m));
    MonthBounds(m, FirstDay(m));
    assert !MonthIsCovered(e, FirstDay(m), LastDay(m), m);
  }

  /** What a reading says, the credit on the book aside. */
  function Movements(r: Ca3Month): Ca3Month { r.(creditOnBook := 0) }

  lemma LostInEveryWindow(e: FiscalYearEnd, posted: seq<Entry>, x: Entry, start: Date, end: Date, m: Month)
    requires AtMost(start, end) && Index(MonthOf(start)) <= Index(m) <= Index(MonthOf(end))
    requires !WholeLoop(e, start, end).Reads(x)
    ensures var w := MonthWindow(start, end, m);
            Movements(PostedCompany(e, posted + [x]).Read(w)) == Movements(PostedCompany(e, posted).Read(w))
  {
    hide PeriodKey, Key, MonthWindow, Containing, RoundToEuro, Loop.Reads;
    var w := MonthWindow(start, end, m);
    var year := Containing(e, w.to);
    assert !(w.Moves(x) && year.Contains(x.date)) by { NotReadInAMonth(e, start, end, m, x); }
    hide Window.Moves;
    assert (posted + [x])[..|posted|] == posted;
    forall part: Entry -> Cents
      ensures SumIf(part, w.Moves, InYear(posted + [x], year)) == SumIf(part, w.Moves, InYear(posted, year))
    {
      if year.Contains(x.date) {
        SumIfOfConcat(part, w.Moves, InYear(posted, year), [x]);
        SumIfOfOne(part, w.Moves, x);
      } else {
        assert InYear(posted + [x], year) == InYear(posted, year);
      }
    }
  }

  lemma NotReadInAMonth(e: FiscalYearEnd, start: Date, end: Date, m: Month, x: Entry)
    requires AtMost(start, end) && Index(MonthOf(start)) <= Index(m) <= Index(MonthOf(end))
    requires !WholeLoop(e, start, end).Reads(x)
    ensures var w := MonthWindow(start, end, m); !(w.Moves(x) && Containing(e, w.to).Contains(x.date))
  {
    hide PeriodKey, Key, MonthWindow, Containing;
    MonthIsReadInItsYear(e, start, end, m, x);
  }

  lemma {:induction false} BoxIgnoresALostEntry(
      box: Ca3Month -> Cents, e: FiscalYearEnd, posted: seq<Entry>, x: Entry, start: Date, end: Date, n: nat)
    requires AtMost(start, end) && n <= MonthsBetween(start, end)
    requires !WholeLoop(e, start, end).Reads(x) && forall r :: box(r) == box(Movements(r))
    ensures BoxOver(box, PostedCompany(e, posted + [x]), start, end, MonthOf(start), n)
         == BoxOver(box, PostedCompany(e, posted), start, end, MonthOf(start), n)
  {
    hide Loop.Reads, Company.Read, PostedCompany, MonthWindow, Movements;
    if n > 0 {
      BoxIgnoresALostEntry(box, e, posted, x, start, end, n - 1);
      AdvanceIndex(MonthOf(start), n - 1);
      LostInEveryWindow(e, posted, x, start, end, Advance(MonthOf(start), n - 1));
    }
  }

  /** An entry the loop does not read, because the fiscal year of its window's last day begins
      after it, changes no box of the return, whatever it moves and whatever else is posted. */
  lemma UnreadEntryIsLost(e: FiscalYearEnd, posted: seq<Entry>, x: Entry, start: Date, end: Date)
    requires AtMost(start, end) && !WholeLoop(e, start, end).Reads(x)
    ensures ReturnOf(PostedCompany(e, posted + [x]), start, end) == ReturnOf(PostedCompany(e, posted), start, end)
  {
    hide Loop.Reads, PostedCompany, BoxOver;
    var n := MonthsBetween(start, end);
    BoxIgnoresALostEntry(CollectedBox, e, posted, x, start, end, n);
    BoxIgnoresALostEntry(DeductibleBox, e, posted, x, start, end, n);
    BoxIgnoresALostEntry(AssetsBox, e, posted, x, start, end, n);
    BoxIgnoresALostEntry(OtherBox, e, posted, x, start, end, n);
    BoxIgnoresALostEntry(TaxableBox, e, posted, x, start, end, n);
  }
}
