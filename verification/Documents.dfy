/** The business documents of a company, the entries they post, and what the VAT window, the return
    and the result read of a ledger made of them (crates/griffe-core/src/ledger.rs,
    crates/griffe-core/src/accounting.rs). */
module Documents {
  import opened Basics
  import opened Money
  import opened Calendar
  import opened Vat
  import opened Income

  const SERVICES := "706000"
  const BAD_DEBT := "654000"
  const SHAREHOLDER := "455000"
  const VAT_DUE := "445510"

  /** An amount is negative for a credit note or a refund. */
  datatype Document =
    | Sale(date: Date, number: string, ht: Cents, vat: Cents)
    | Collection(date: Date, number: string, ht: Cents, vat: Cents)
    | WriteOff(date: Date, number: string, ht: Cents, vat: Cents)
    /** paid by the bank or advanced by the shareholder; `account` is a charge or an asset */
    | Purchase(date: Date, id: string, account: string, net: Cents, vat: Cents, advanced: bool)
    | ReverseCharge(date: Date, id: string, account: string, net: Cents, vat: Cents, advanced: bool)
    | Settlement(date: Date, key: string, collected: Cents, deductible: Cents, credit: Cents, intracom: Cents)
    | Opening(date: Date, deductible: Cents, credit: Cents)

  /** A purchase is a charge of class 6 or an asset of class 2. */
  predicate IsDocument(d: Document) {
    d.Purchase? || d.ReverseCharge? ==> d.account != "" && (d.account[0] == '6' || d.account[0] == '2')
  }

  function Payer(advanced: bool): string { if advanced then SHAREHOLDER else BANK }

  function Posted(d: Document): Entry {
    match d
    case Sale(date, number, ht, vat) =>
      Entry(Journal("VE"), date, number,
            [Line(CLIENTS, ht + vat), Line(SERVICES, -ht), Line(VAT_PENDING, -vat)])
    case Collection(date, number, ht, vat) => Receipt(date, number, ht, vat)
    case WriteOff(date, number, ht, vat) =>
      Entry(Journal("OD"), date, "OD-654-" + number,
            [Line(BAD_DEBT, ht), Line(VAT_COLLECTED, vat), Line(CLIENTS, -(ht + vat))])
    case Purchase(date, id, account, net, vat, advanced) =>
      Entry(Journal(if advanced then "AC" else "BQ"), date, "DEP-" + id,
            [Line(account, net), Line(VAT_DEDUCTIBLE, vat), Line(Payer(advanced), -(net + vat))])
    case ReverseCharge(date, id, account, net, vat, advanced) =>
      Entry(Journal(if advanced then "AC" else "BQ"), date, "DEP-" + id,
            [Line(account, net), Line(VAT_INTRACOM_DEDUCTIBLE, vat), Line(VAT_INTRACOM_DUE, -vat),
             Line(Payer(advanced), -net)])
    case Settlement(date, key, collected, deductible, credit, intracom) =>
      Entry(Journal("OD"), date, "CA3-" + key,
            [Line(VAT_DEDUCTIBLE, -deductible), Line(VAT_COLLECTED, collected), Line(VAT_CREDIT, credit),
             Line(VAT_DUE, deductible - collected - credit), Line(VAT_INTRACOM_DUE, intracom),
             Line(VAT_INTRACOM_DEDUCTIBLE, -intracom)])
    case Opening(date, deductible, credit) =>
      Entry(OpeningJournal, date, "AN",
            [Line(VAT_DEDUCTIBLE, deductible), Line(VAT_CREDIT, credit), Line(SHAREHOLDER, -(deductible + credit))])
  }

  function Book(docs: seq<Document>): seq<Entry> {
    seq(|docs|, i requires 0 <= i < |docs| => Posted(docs[i]))
  }

  // -------------------------------------------------------------------------
  // What a document is worth to the return
  // -------------------------------------------------------------------------

  datatype Box = Collected | Taxable | Assets | Others | Intracom | Credit

  predicate IsAsset(d: Document) { d.Purchase? && d.account != "" && d.account[0] == '2' && d.net > 0 }

  /** VAT is due on what is collected, deducted on what is paid. A sale, a write-off and a receipt
      without VAT move nothing. */
  function Amount(d: Document, box: Box): Cents {
    match box
    case Collected => if d.Collection? then d.vat else 0
    case Taxable => if d.Collection? && d.vat != 0 then d.ht else 0
    case Assets => if IsAsset(d) then d.vat else 0
    case Others => if d.Purchase? && !IsAsset(d) then d.vat else if d.Settlement? then -d.deductible else 0
    case Intracom => if d.ReverseCharge? then d.vat else if d.Settlement? then -d.intracom else 0
    case Credit => if d.Settlement? || d.Opening? then d.credit else 0
  }

  /** The document bears the name of the window's own settlement, or of its reversal. */
  predicate IsSettlementOf(d: Document, w: Window) {
    || (d.Settlement? && d.key == w.key)
    || ((d.Sale? || d.Collection?) && (d.number == "CA3-" + w.key || d.number == "EXT-CA3-" + w.key))
  }

  /** Movements are read between the two days of the window, the opening aside; the credit up to
      its last day, the opening included. */
  predicate Counts(d: Document, box: Box, w: Window) {
    && !IsSettlementOf(d, w) && AtMost(d.date, w.to)
    && (box == Credit || (AtMost(w.from, d.date) && !d.Opening?))
  }

  function TotalIn(docs: seq<Document>, box: Box, w: Window): Cents {
    if docs == [] then 0
    else TotalIn(docs[..|docs| - 1], box, w)
         + if Counts(docs[|docs| - 1], box, w) then Amount(docs[|docs| - 1], box) else 0
  }

  lemma AccountsDiffer(account: string)
    requires account != "" && (account[0] == '6' || account[0] == '2')
    ensures account !in {BANK, SHAREHOLDER, CLIENTS, VAT_COLLECTED, VAT_PENDING, VAT_DEDUCTIBLE,
                         VAT_INTRACOM_DEDUCTIBLE, VAT_INTRACOM_DUE, VAT_CREDIT, VAT_DUE}
  {
    assert BANK[0] == '5' && SHAREHOLDER[0] == '4' == CLIENTS[0] == VAT_COLLECTED[0] == VAT_PENDING[0];
    assert VAT_DEDUCTIBLE[0] == '4' == VAT_INTRACOM_DEDUCTIBLE[0] == VAT_INTRACOM_DUE[0] == VAT_CREDIT[0] == VAT_DUE[0];
  }

  lemma FixedAccountsDiffer()
    ensures var all := [SERVICES, BAD_DEBT, BANK, SHAREHOLDER, CLIENTS, VAT_COLLECTED, VAT_PENDING, VAT_DEDUCTIBLE,
                        VAT_INTRACOM_DEDUCTIBLE, VAT_INTRACOM_DUE, VAT_CREDIT, VAT_DUE];
            forall i, j :: 0 <= i < j < |all| ==> all[i] != all[j]
  {
    assert SERVICES[0] == '7' && BAD_DEBT[0] == '6' && BANK[0] == '5' && SHAREHOLDER[1] == '5' && CLIENTS[1] == '1';
    assert VAT_COLLECTED[3..5] == "71" && VAT_PENDING[3..5] == "88" && VAT_DEDUCTIBLE[3..] == "660";
    assert VAT_INTRACOM_DEDUCTIBLE[3..] == "662" && VAT_INTRACOM_DUE[3..5] == "20" && VAT_CREDIT[3..5] == "67";
    assert VAT_DUE[3..5] == "51";
  }

  lemma ThreeLines(a: Line, b: Line, c: Line, account: string)
    ensures LinesOn([a, b, c], account)
         == (if a.account == account then a.amount else 0) + (if b.account == account then b.amount else 0)
          + (if c.account == account then c.amount else 0)
  {
    assert [a, b, c][..2] == [a, b] && [a, b][..1] == [a] && [a][..0] == [];
    assert LinesOn([a], account) == if a.account == account then a.amount else 0;
    assert LinesOn([a, b], account) == LinesOn([a], account) + if b.account == account then b.amount else 0;
  }

  lemma SixLines(a: Line, b: Line, c: Line, d: Line, e: Line, f: Line, account: string)
    ensures LinesOn([a, b, c, d, e, f], account)
         == (if a.account == account then a.amount else 0) + (if b.account == account then b.amount else 0)
          + (if c.account == account then c.amount else 0) + (if d.account == account then d.amount else 0)
          + (if e.account == account then e.amount else 0) + (if f.account == account then f.amount else 0)
  {
    FourLines(a, b, c, d, account);
    var four, five := [a, b, c, d], [a, b, c, d, e];
    assert five[..4] == four && [a, b, c, d, e, f][..5] == five;
    assert LinesOn(five, account) == LinesOn(four, account) + if e.account == account then e.amount else 0;
  }

  /** What a document posts on the accounts that the return reads. */
  lemma PostedSums(d: Document)
    requires IsDocument(d)
    ensures var e := Posted(d);
            && AccountSum(e, VAT_PENDING) == (if d.Sale? then -d.vat else if d.Collection? then d.vat else 0)
            && AccountSum(e, VAT_COLLECTED)
               == (if d.Collection? then -d.vat else if d.WriteOff? then d.vat else if d.Settlement? then d.collected else 0)
            && AccountSum(e, VAT_DEDUCTIBLE)
               == (if d.Purchase? then d.vat else if d.Settlement? then -d.deductible
                   else if d.Opening? then d.deductible else 0)
            && AccountSum(e, VAT_CREDIT) == (if d.Settlement? || d.Opening? then d.credit else 0)
            && AccountSum(e, VAT_INTRACOM_DEDUCTIBLE)
               == (if d.ReverseCharge? then d.vat else if d.Settlement? then -d.intracom else 0)
            && AccountSum(e, VAT_INTRACOM_DUE)
               == (if d.ReverseCharge? then -d.vat else if d.Settlement? then d.intracom else 0)
            && (d.Collection? ==> AccountSum(e, CLIENTS) == -(d.ht + d.vat))
  {
    FixedAccountsDiffer();
    if d.Purchase? || d.ReverseCharge? {
      AccountsDiffer(d.account);
    }
    var lines := Posted(d).lines;
    OnEachLine(lines, VAT_PENDING);
    OnEachLine(lines, VAT_COLLECTED);
    OnEachLine(lines, VAT_DEDUCTIBLE);
    OnEachLine(lines, VAT_CREDIT);
    OnEachLine(lines, VAT_INTRACOM_DEDUCTIBLE);
    OnEachLine(lines, VAT_INTRACOM_DUE);
    OnEachLine(lines, CLIENTS);
    hide LinesOn;
  }

  function OnOne(l: Line, account: string): Cents { if l.account == account then l.amount else 0 }

  lemma OnEachLine(lines: seq<Line>, account: string)
    requires |lines| in {3, 4, 6}
    ensures LinesOn(lines, account)
         == OnOne(lines[0], account) + OnOne(lines[1], account) + OnOne(lines[2], account)
          + (if |lines| > 3 then OnOne(lines[3], account) else 0)
          + (if |lines| > 4 then OnOne(lines[4], account) + OnOne(lines[5], account) else 0)
  {
    hide LinesOn;
    if |lines| == 3 {
      ThreeLines(lines[0], lines[1], lines[2], account);
      assert lines == [lines[0], lines[1], lines[2]];
    } else if |lines| == 4 {
      FourLines(lines[0], lines[1], lines[2], lines[3], account);
      assert lines == [lines[0], lines[1], lines[2], lines[3]];
    } else {
      SixLines(lines[0], lines[1], lines[2], lines[3], lines[4], lines[5], account);
      assert lines == [lines[0], lines[1], lines[2], lines[3], lines[4], lines[5]];
    }
  }

  lemma PostedDebitsAnAssetExactly(d: Document)
    requires IsDocument(d)
    ensures d.Purchase? ==> (DebitsAsset(Posted(d)) <==> IsAsset(d))
    ensures !d.Purchase? && !d.ReverseCharge? ==> !DebitsAsset(Posted(d))
  {
    var lines := Posted(d).lines;
    assert BANK[0] == '5' && SHAREHOLDER[0] == '4' == CLIENTS[0] == VAT_COLLECTED[0] == VAT_PENDING[0];
    assert VAT_DEDUCTIBLE[0] == '4' == VAT_INTRACOM_DEDUCTIBLE[0] == VAT_INTRACOM_DUE[0] == VAT_CREDIT[0] == VAT_DUE[0];
    assert SERVICES[0] == '7' && BAD_DEBT[0] == '6';
    assert forall i :: 0 <= i < |lines| && ['2'] <= lines[i].account ==> lines[i].account[0] == '2';
    if d.Purchase? {
      assert lines[0] == Line(d.account, d.net);
      assert IsAsset(d) ==> ['2'] <= lines[0].account;
    }
  }

  lemma PostedPiece(d: Document, w: Window)
    ensures w.IsOwnPiece(Posted(d).piece) <==> IsSettlementOf(d, w)
    ensures Posted(d).date == d.date && (Posted(d).journal == OpeningJournal <==> d.Opening?)
  {
    var piece, own, back := Posted(d).piece, "CA3-" + w.key, "EXT-CA3-" + w.key;
    assert own[0] == 'C' && back[0] == 'E' && back[..4] == "EXT-";
    if d.Settlement? {
      assert piece[0] == 'C' && piece[4..] == d.key && own[4..] == w.key;
    } else if d.Purchase? || d.ReverseCharge? {
      assert piece[0] == 'D';
    } else if d.WriteOff? {
      assert piece[0] == 'O';
    } else if d.Opening? {
      assert piece[0] == 'A';
    }
  }

  /** What an entry counts for in a sum. */
  function Term(part: Entry -> Cents, keep: Entry -> bool, e: Entry): Cents { if keep(e) then part(e) else 0 }

  function Share(d: Document, box: Box, w: Window): Cents { if Counts(d, box, w) then Amount(d, box) else 0 }

  lemma DocumentIsRead(d: Document, w: Window)
    requires IsDocument(d)
    ensures var e := Posted(d);
            && Term(CollectedPart, w.Moves, e) == -Share(d, Collected, w)
            && Term(TaxablePart, w.Moves, e) == Share(d, Taxable, w)
            && Term(AssetPart, w.Moves, e) == Share(d, Assets, w)
            && Term(OtherPart, w.Moves, e) == Share(d, Others, w)
            && Term(IntracomDeductiblePart, w.Moves, e) == Share(d, Intracom, w)
            && Term(IntracomDuePart, w.Moves, e) == -Share(d, Intracom, w)
            && Term(CreditPart, w.IsBooked, e) == Share(d, Credit, w)
  {
    PostedPiece(d, w);
    PostedSums(d);
    PostedDebitsAnAssetExactly(d);
    hide Posted, AccountSum, DebitsAsset, IsSettlementOf, Window.IsOwnPiece, Key;
  }

  lemma {:induction false} SumOverDocuments(part: Entry -> Cents, keep: Entry -> bool, docs: seq<Document>, box: Box,
                                            w: Window, lowers: bool)
    requires forall d <- docs :: Term(part, keep, Posted(d)) == if lowers then -Share(d, box, w) else Share(d, box, w)
    ensures SumIf(part, keep, Book(docs)) == if lowers then -TotalIn(docs, box, w) else TotalIn(docs, box, w)
  {
    hide Posted, Counts, Amount;
    if docs != [] {
      var n := |docs| - 1;
      SumOverDocuments(part, keep, docs[..n], box, w, lowers);
      assert Book(docs)[..n] == Book(docs[..n]) && Book(docs)[n] == Posted(docs[n]) && docs[n] in docs;
      hide Book;
    }
  }

  lemma SumsOfDocuments(docs: seq<Document>, w: Window)
    requires forall d <- docs :: IsDocument(d)
    ensures var book := Book(docs);
            && SumIf(CollectedPart, w.Moves, book) == -TotalIn(docs, Collected, w)
            && SumIf(TaxablePart, w.Moves, book) == TotalIn(docs, Taxable, w)
            && SumIf(AssetPart, w.Moves, book) == TotalIn(docs, Assets, w)
            && SumIf(OtherPart, w.Moves, book) == TotalIn(docs, Others, w)
            && SumIf(IntracomDeductiblePart, w.Moves, book) == TotalIn(docs, Intracom, w)
            && SumIf(IntracomDuePart, w.Moves, book) == -TotalIn(docs, Intracom, w)
            && SumIf(CreditPart, w.IsBooked, book) == TotalIn(docs, Credit, w)
  {
    forall d | d in docs
      ensures var e := Posted(d);
            && Term(CollectedPart, w.Moves, e) == -Share(d, Collected, w)
            && Term(TaxablePart, w.Moves, e) == Share(d, Taxable, w)
            && Term(AssetPart, w.Moves, e) == Share(d, Assets, w)
            && Term(OtherPart, w.Moves, e) == Share(d, Others, w)
            && Term(IntracomDeductiblePart, w.Moves, e) == Share(d, Intracom, w)
            && Term(IntracomDuePart, w.Moves, e) == -Share(d, Intracom, w)
            && Term(CreditPart, w.IsBooked, e) == Share(d, Credit, w)
    {
      DocumentIsRead(d, w);
    }
    hide Term, Share, IsDocument, Posted, SumIf, TotalIn, Book;
    SumOverDocuments(CollectedPart, w.Moves, docs, Collected, w, true);
    SumOverDocuments(TaxablePart, w.Moves, docs, Taxable, w, false);
    SumOverDocuments(AssetPart, w.Moves, docs, Assets, w, false);
    SumOverDocuments(OtherPart, w.Moves, docs, Others, w, false);
    SumOverDocuments(IntracomDeductiblePart, w.Moves, docs, Intracom, w, false);
    SumOverDocuments(IntracomDuePart, w.Moves, docs, Intracom, w, true);
    SumOverDocuments(CreditPart, w.IsBooked, docs, Credit, w, false);
  }

  /** For every sequence of documents and every window: the collected VAT is that of the receipts,
      the deductible VAT that of the payments, in the window; assets and the rest are apart, and
      no sale, write-off or opening moves anything. */
  lemma DocumentsAreReadExactly(docs: seq<Document>, w: Window)
    requires forall d <- docs :: IsDocument(d)
    ensures var r := Reading(Book(docs), w);
            var collected, assets, others := TotalIn(docs, Collected, w), TotalIn(docs, Assets, w), TotalIn(docs, Others, w);
            && r.collectedSigned == -collected && r.collected == Max(collected, 0)
            && r.taxableHt == TotalIn(docs, Taxable, w)
            && r.deductibleBook == Max(assets + others, 0)
            && IsNearestEuro(r.deductibleBook, r.deductibleRounded)
            && r.deductibleAssets + r.deductibleOther == r.deductibleRounded
            && r.deductibleAssets == Min(RoundToEuro(Max(assets, 0)), r.deductibleRounded)
            && r.intracom == TotalIn(docs, Intracom, w)
            && r.creditOnBook == TotalIn(docs, Credit, w)
  {
    SumsOfDocuments(docs, w);
    BoxesInWords(-TotalIn(docs, Collected, w), TotalIn(docs, Taxable, w), TotalIn(docs, Assets, w), TotalIn(docs, Others, w),
                 TotalIn(docs, Intracom, w), TotalIn(docs, Credit, w));
    hide Boxes, SumIf, TotalIn, RoundToEuro, Book, CollectedPart, TaxablePart, AssetPart, OtherPart, IntracomDeductiblePart,
         IntracomDuePart, CreditPart, IsNearestEuro;
  }

  lemma BoxesInWords(signed: Cents, taxable: Cents, assets: Cents, others: Cents, intracom: Cents, credit: Cents)
    ensures var r := Boxes(signed, taxable, assets, others, intracom, -intracom, credit);
            && r.collectedSigned == signed && r.collected == Max(-signed, 0) && r.taxableHt == taxable
            && r.deductibleBook == Max(assets + others, 0)
            && IsNearestEuro(r.deductibleBook, r.deductibleRounded)
            && r.deductibleAssets + r.deductibleOther == r.deductibleRounded
            && r.deductibleAssets == Min(RoundToEuro(Max(assets, 0)), r.deductibleRounded)
            && r.intracom == intracom && r.creditOnBook == credit
  {
    RoundToEuroIsNearest(Max(assets + others, 0));
    hide RoundToEuro;
  }

  // -------------------------------------------------------------------------
  // One receipt in any ledger, and a return over receipts
  // -------------------------------------------------------------------------

  lemma {:induction false} OneEntryMore(part: Entry -> Cents, keep: Entry -> bool, before: seq<Entry>, e: Entry, after: seq<Entry>)
    ensures SumIf(part, keep, before + [e] + after) == SumIf(part, keep, before + after) + Term(part, keep, e)
  {
    SumIfOfConcat(part, keep, before + [e], after);
    SumIfOfConcat(part, keep, before, [e]);
    SumIfOfConcat(part, keep, before, after);
    SumIfOfOne(part, keep, e);
  }

  /** A receipt dated in a window and not bearing the name of its settlement, wherever it stands in
      any ledger, makes its VAT due and its net amount taxable, and moves nothing else. Without
      VAT it moves nothing. */
  lemma ReceiptIsReadAnywhere(before: seq<Entry>, after: seq<Entry>, date: Date, number: string, ht: Cents, vat: Cents,
                              w: Window)
    requires AtMost(w.from, date) && AtMost(date, w.to) && number != "CA3-" + w.key && number != "EXT-CA3-" + w.key
    ensures var with, without := Reading(before + [Receipt(date, number, ht, vat)] + after, w), Reading(before + after, w);
            && with.collectedSigned == without.collectedSigned - vat
            && with.collected == Max(-without.collectedSigned + vat, 0)
            && with.taxableHt == without.taxableHt + (if vat != 0 then ht else 0)
            && with == without.(collected := with.collected, collectedSigned := with.collectedSigned,
                                taxableHt := with.taxableHt)
  {
    var e := Receipt(date, number, ht, vat);
    ReceiptCounts(date, number, ht, vat, w);
    OneEntryMore(CollectedPart, w.Moves, before, e, after);
    OneEntryMore(TaxablePart, w.Moves, before, e, after);
    OneEntryMore(AssetPart, w.Moves, before, e, after);
    OneEntryMore(OtherPart, w.Moves, before, e, after);
    OneEntryMore(IntracomDeductiblePart, w.Moves, before, e, after);
    OneEntryMore(IntracomDuePart, w.Moves, before, e, after);
    OneEntryMore(CreditPart, w.IsBooked, before, e, after);
    hide *;
    ReadOneMore(before + after, before + [e] + after, w, -vat, if vat != 0 then ht else 0);
  }

  /** Two ledgers whose sums differ in the collected VAT and the base alone. */
  lemma ReadOneMore(less: seq<Entry>, more: seq<Entry>, w: Window, signed: Cents, taxable: Cents)
    requires SumIf(CollectedPart, w.Moves, more) == SumIf(CollectedPart, w.Moves, less) + signed
    requires SumIf(TaxablePart, w.Moves, more) == SumIf(TaxablePart, w.Moves, less) + taxable
    requires SumIf(AssetPart, w.Moves, more) == SumIf(AssetPart, w.Moves, less)
    requires SumIf(OtherPart, w.Moves, more) == SumIf(OtherPart, w.Moves, less)
    requires SumIf(IntracomDeductiblePart, w.Moves, more) == SumIf(IntracomDeductiblePart, w.Moves, less)
    requires SumIf(IntracomDuePart, w.Moves, more) == SumIf(IntracomDuePart, w.Moves, less)
    requires SumIf(CreditPart, w.IsBooked, more) == SumIf(CreditPart, w.IsBooked, less)
    ensures var with, without := Reading(more, w), Reading(less, w);
            with == without.(collected := Max(-without.collectedSigned - signed, 0),
                             collectedSigned := without.collectedSigned + signed, taxableHt := without.taxableHt + taxable)
  {
    hide SumIf, RoundToEuro, CollectedPart, TaxablePart, AssetPart, OtherPart, IntracomDeductiblePart, IntracomDuePart,
         CreditPart, Window.Moves, Window.IsBooked;
  }

  /** What a receipt dated in a window counts for in each of its sums. */
  lemma ReceiptCounts(date: Date, number: string, ht: Cents, vat: Cents, w: Window)
    requires AtMost(w.from, date) && AtMost(date, w.to) && number != "CA3-" + w.key && number != "EXT-CA3-" + w.key
    ensures var e := Receipt(date, number, ht, vat);
            && Term(CollectedPart, w.Moves, e) == -vat && Term(TaxablePart, w.Moves, e) == (if vat != 0 then ht else 0)
            && Term(AssetPart, w.Moves, e) == 0 == Term(OtherPart, w.Moves, e)
            && Term(IntracomDeductiblePart, w.Moves, e) == 0 == Term(IntracomDuePart, w.Moves, e)
            && Term(CreditPart, w.IsBooked, e) == 0
  {
    DocumentIsRead(Collection(date, number, ht, vat), w);
    hide Term, Receipt, CollectedPart, TaxablePart, AssetPart, OtherPart, IntracomDeductiblePart, IntracomDuePart,
         CreditPart, Window.Moves, Window.IsBooked, Key;
  }

  predicate AreReceipts(docs: seq<Document>) {
    forall d <- docs :: d.Collection? && d.vat >= 0
  }

  function AmountRead(docs: seq<Document>, loop: Loop, box: Box): Cents {
    if docs == [] then 0
    else AmountRead(docs[..|docs| - 1], loop, box)
         + if loop.Reads(Posted(docs[|docs| - 1])) then Amount(docs[|docs| - 1], box) else 0
  }

  lemma ReceiptParts(d: Document)
    requires d.Collection? && d.vat >= 0
    ensures var e := Posted(d);
            && CollectedPart(e) == -d.vat && TaxablePart(e) == (if d.vat != 0 then d.ht else 0) && DeductiblePart(e) == 0
            && AssetPart(e) == 0 == OtherPart(e)
  {
    PostedSums(d);
    hide AccountSum, Posted, DebitsAsset;
  }

  lemma {:induction false} ReceiptSums(docs: seq<Document>, loop: Loop)
    requires AreReceipts(docs)
    ensures SumIf(CollectedPart, loop.Reads, Book(docs)) == -AmountRead(docs, loop, Collected)
    ensures SumIf(TaxablePart, loop.Reads, Book(docs)) == AmountRead(docs, loop, Taxable)
    ensures AmountRead(docs, loop, Collected) >= 0
  {
    hide Posted, Loop.Reads, CollectedPart, TaxablePart;
    if docs != [] {
      var n := |docs| - 1;
      assert Book(docs)[..n] == Book(docs[..n]) && Book(docs)[n] == Posted(docs[n]) && docs[n] in docs;
      ReceiptSums(docs[..n], loop);
      ReceiptParts(docs[n]);
      hide Book;
    }
  }

  /** Every entry of a book is one that moves no deductible VAT and lowers the collected one. */
  ghost predicate OnlyCollects(entries: seq<Entry>) {
    forall e <- entries :: CollectedPart(e) <= 0 && AssetPart(e) == 0 == OtherPart(e)
  }

  lemma {:induction false} CollectingSums(entries: seq<Entry>, keep: Entry -> bool)
    requires OnlyCollects(entries)
    ensures SumIf(CollectedPart, keep, entries) <= 0
    ensures SumIf(AssetPart, keep, entries) == 0 == SumIf(OtherPart, keep, entries)
  {
    hide CollectedPart, AssetPart, OtherPart;
    if entries != [] {
      var n := |entries| - 1;
      assert entries[n] in entries && forall e <- entries[..n] :: e in entries;
      CollectingSums(entries[..n], keep);
    }
  }

  lemma {:induction false} YearOfCollecting(entries: seq<Entry>, year: FiscalYear)
    requires OnlyCollects(entries)
    ensures OnlyCollects(InYear(entries, year))
  {
    hide CollectedPart, AssetPart, OtherPart, FiscalYear.Contains;
    if entries != [] {
      var n := |entries| - 1;
      assert entries[n] in entries && forall e <- entries[..n] :: e in entries;
      YearOfCollecting(entries[..n], year);
    }
  }

  lemma {:induction false} NothingIsDeducted(e: FiscalYearEnd, posted: seq<Entry>, start: Date, end: Date, first: Month, n: nat)
    requires OnlyCollects(posted)
    ensures BoxOver(DeductibleBox, PostedCompany(e, posted), start, end, first, n) == 0
  {
    hide OnlyCollects, SumIf, Containing, MonthWindow, InYear, Advance;
    if n > 0 {
      NothingIsDeducted(e, posted, start, end, first, n - 1);
      var w := MonthWindow(start, end, Advance(first, n - 1));
      var year := Containing(e, w.to);
      YearOfCollecting(posted, year);
      CollectingSums(InYear(posted, year), w.Moves);
      hide AssetPart, OtherPart, CollectedPart, TaxablePart, IntracomDeductiblePart, IntracomDuePart, CreditPart;
      assert PostedCompany(e, posted).Read(w).deductibleRounded == RoundToEuro(0) == 0;
    }
  }

  lemma OwedMonths(e: FiscalYearEnd, posted: seq<Entry>, start: Date, end: Date, n: nat)
    requires OnlyCollects(posted)
    ensures HaveOneSign(Months(CollectedPart, e, posted, start, end).Owed, n)
  {
    var months := Months(CollectedPart, e, posted, start, end);
    forall i: nat ensures months.Owed(i) >= 0 {
      var w := MonthWindow(start, end, Advance(MonthOf(start), i));
      YearOfCollecting(posted, Containing(e, w.to));
      CollectingSums(InYear(posted, Containing(e, w.to)), w.Moves);
    }
  }

  lemma ReceiptsOnlyCollect(docs: seq<Document>)
    requires AreReceipts(docs)
    ensures OnlyCollects(Book(docs))
  {
    hide Posted, CollectedPart, AssetPart, OtherPart;
    forall e | e in Book(docs) ensures CollectedPart(e) <= 0 && AssetPart(e) == 0 == OtherPart(e) {
      var i :| 0 <= i < |docs| && Book(docs)[i] == e;
      assert docs[i] in docs;
      ReceiptParts(docs[i]);
    }
  }

  /** For every closing date, period and sequence of receipts: what is due is the VAT of the receipts
      read, no more and no less, nothing is deducted, and the base is their net amount. */
  lemma ReceiptsAreDue(e: FiscalYearEnd, docs: seq<Document>, start: Date, end: Date)
    requires AtMost(start, end) && AreReceipts(docs)
    ensures var vat, loop := ReturnOf(PostedCompany(e, Book(docs)), start, end), WholeLoop(e, start, end);
            && vat.collected == AmountRead(docs, loop, Collected) == vat.due && vat.deductible == 0
            && vat.taxableHt == AmountRead(docs, loop, Taxable)
  {
    hide *;
    ReceiptsOnlyCollect(docs);
    ReceiptSums(docs, WholeLoop(e, start, end));
    WhatIsCollectedIsDue(e, Book(docs), start, end);
  }

  lemma WhatIsCollectedIsDue(e: FiscalYearEnd, posted: seq<Entry>, start: Date, end: Date)
    requires AtMost(start, end) && OnlyCollects(posted) && SumIf(CollectedPart, WholeLoop(e, start, end).Reads, posted) <= 0
    ensures var vat, loop := ReturnOf(PostedCompany(e, posted), start, end), WholeLoop(e, start, end);
            && vat.collected == -SumIf(CollectedPart, loop.Reads, posted) == vat.due && vat.deductible == 0
            && vat.taxableHt == SumIf(TaxablePart, loop.Reads, posted)
  {
    hide *;
    WhatIsCollectedIsRead(e, posted, start, end);
    NothingIsDeductedInAPeriod(e, posted, start, end);
    DueWithoutDeduction(PostedCompany(e, posted), start, end);
  }

  lemma WhatIsCollectedIsRead(e: FiscalYearEnd, posted: seq<Entry>, start: Date, end: Date)
    requires AtMost(start, end) && OnlyCollects(posted) && SumIf(CollectedPart, WholeLoop(e, start, end).Reads, posted) <= 0
    ensures var vat, loop := ReturnOf(PostedCompany(e, posted), start, end), WholeLoop(e, start, end);
            && vat.collected == -SumIf(CollectedPart, loop.Reads, posted)
            && vat.taxableHt == SumIf(TaxablePart, loop.Reads, posted)
  {
    hide SumIf, PostedCompany, BoxOfPeriod, HaveOneSign, WholeLoop, MonthsBetween, OnlyCollects, Key, ReturnOf, Months.Owed,
         Months.At, Loop.Reads, CollectedPart, TaxablePart, DeductiblePart;
    OwedMonths(e, posted, start, end, MonthsBetween(start, end));
    ReturnReadsExactly(e, posted, start, end);
  }

  lemma DueWithoutDeduction(company: Company, start: Date, end: Date)
    requires BoxOfPeriod(DeductibleBox, company, start, end) == 0
    ensures var vat := ReturnOf(company, start, end); vat.deductible == 0 && vat.due == vat.collected
  {
    ReturnIsMadeOfBoxes(company, start, end);
    hide *;
  }

  lemma NothingIsDeductedInAPeriod(e: FiscalYearEnd, posted: seq<Entry>, start: Date, end: Date)
    requires OnlyCollects(posted)
    ensures BoxOfPeriod(DeductibleBox, PostedCompany(e, posted), start, end) == 0
  {
    hide OnlyCollects, PostedCompany, BoxOver, Key;
    NothingIsDeducted(e, posted, start, end, MonthOf(start), MonthsBetween(start, end));
  }

  function AmountOf(docs: seq<Document>, box: Box): Cents {
    if docs == [] then 0 else AmountOf(docs[..|docs| - 1], box) + Amount(docs[|docs| - 1], box)
  }

  /** The receipt is dated in the period and bears the name of no settlement of its month. */
  predicate IsDatedIn(d: Document, start: Date, end: Date) {
    && AtMost(start, d.date) && AtMost(d.date, end)
    && !IsSettlementOf(d, Window(start, end, PeriodKey(MonthOf(d.date))))
  }

  lemma {:induction false} AllIsRead(e: FiscalYearEnd, docs: seq<Document>, start: Date, end: Date, box: Box)
    requires MonthsAreCovered(e, start, end) && AreReceipts(docs)
    requires forall d <- docs :: IsDatedIn(d, start, end)
    ensures AmountRead(docs, WholeLoop(e, start, end), box) == AmountOf(docs, box)
  {
    hide Posted, Loop.Reads, MonthsAreCovered, Amount;
    if docs != [] {
      var n := |docs| - 1;
      var d := docs[n];
      assert d in docs;
      AllIsRead(e, docs[..n], start, end, box);
      CoveredMonthIsRead(e, start, end, Posted(d));
      PostedPiece(d, Window(start, end, PeriodKey(MonthOf(d.date))));
      hide PeriodKey, IsSettlementOf, WholeLoop, Window.IsOwnPiece;
      DatesAreOrderedByKey(end, d.date);
    }
  }

  /** A company that closes at a month end owes the VAT of all its receipts of a period, to the
      cent. */
  lemma AllReceiptsAreDue(e: FiscalYearEnd, docs: seq<Document>, start: Date, end: Date)
    requires AtMost(start, end) && AreReceipts(docs) && ClosesAtMonthEnd(e)
    requires forall d <- docs :: IsDatedIn(d, start, end)
    ensures var vat := ReturnOf(PostedCompany(e, Book(docs)), start, end);
            vat.collected == AmountOf(docs, Collected) == vat.due && vat.taxableHt == AmountOf(docs, Taxable)
  {
    ReceiptsAreDue(e, docs, start, end);
    MonthEndCompaniesAreCovered(e, start, end);
    AllIsRead(e, docs, start, end, Collected);
    AllIsRead(e, docs, start, end, Taxable);
    hide *;
  }

  // -------------------------------------------------------------------------
  // What the documents earn
  // -------------------------------------------------------------------------

  predicate IsCharge(d: Document) {
    (d.Purchase? || d.ReverseCharge?) && d.account != "" && d.account[0] == '6'
  }

  /** What a document brings to the result before tax: a sale its net amount, a charge and a
      write-off take theirs; tax and carry-back are not part of it. */
  function Earned(d: Document): Cents {
    if d.Sale? then d.ht
    else if d.WriteOff? then -d.ht
    else if IsCharge(d) && !("695" <= d.account) && !("699" <= d.account) then -d.net
    else 0
  }

  function SoldBy(docs: seq<Document>): Cents {
    if docs == [] then 0
    else SoldBy(docs[..|docs| - 1]) + if docs[|docs| - 1].Sale? then docs[|docs| - 1].ht else 0
  }

  function EarnedBy(docs: seq<Document>): Cents {
    if docs == [] then 0 else EarnedBy(docs[..|docs| - 1]) + Earned(docs[|docs| - 1])
  }

  lemma {:induction false} SignedOnOneMore(lines: seq<Line>, l: Line, keep: string -> bool)
    ensures SignedLines(lines + [l], keep) == SignedLines(lines, keep) + if keep(l.account) then l.amount else 0
  {
    assert (lines + [l])[..|lines|] == lines;
  }

  lemma DocumentEarns(d: Document)
    requires IsDocument(d)
    ensures -SignedLines(Posted(d).lines, IsResultBeforeTax) == Earned(d)
  {
    AccountClasses();
    SignedByHand(Posted(d).lines, IsResultBeforeTax);
    if d.Purchase? || d.ReverseCharge? {
      ChargesAndAssets(d.account);
    }
    hide SignedLines, IsResultBeforeTax, IsRevenue;
  }

  lemma DocumentSells(d: Document)
    requires IsDocument(d)
    ensures -SignedLines(Posted(d).lines, IsRevenue) == if d.Sale? then d.ht else 0
  {
    AccountClasses();
    SignedByHand(Posted(d).lines, IsRevenue);
    if d.Purchase? || d.ReverseCharge? {
      ChargesAndAssets(d.account);
    }
    hide SignedLines, IsResultBeforeTax, IsRevenue;
  }

  lemma ChargesAndAssets(account: string)
    requires account != "" && (account[0] == '6' || account[0] == '2')
    ensures IsResultBeforeTax(account) <==> account[0] == '6' && !("695" <= account) && !("699" <= account)
    ensures !IsRevenue(account)
  {
    assert "695"[0] == '6' == "699"[0] && "706"[0] == '7';
  }

  lemma AccountClasses()
    ensures IsResultBeforeTax(SERVICES) && IsResultBeforeTax(BAD_DEBT) && IsRevenue(SERVICES)
    ensures !IsRevenue(BAD_DEBT)
    ensures forall account <- [BANK, SHAREHOLDER, CLIENTS, VAT_COLLECTED, VAT_PENDING, VAT_DEDUCTIBLE,
                               VAT_INTRACOM_DEDUCTIBLE, VAT_INTRACOM_DUE, VAT_CREDIT, VAT_DUE] ::
              !IsResultBeforeTax(account) && !IsRevenue(account)
  {
    assert SERVICES[0] == '7' && BAD_DEBT[0] == '6' && BAD_DEBT[1] == '5';
    assert BANK[0] == '5' && SHAREHOLDER[0] == '4' == CLIENTS[0] == VAT_COLLECTED[0] == VAT_PENDING[0];
    assert VAT_DEDUCTIBLE[0] == '4' == VAT_INTRACOM_DEDUCTIBLE[0] == VAT_INTRACOM_DUE[0] == VAT_CREDIT[0] == VAT_DUE[0];
    assert "695"[0] == '6' == "699"[0] && "695"[1] == '9' == "699"[1] && "706"[0] == '7';
  }

  function SignedOne(l: Line, keep: string -> bool): Cents { if keep(l.account) then l.amount else 0 }

  lemma SignedByHand(lines: seq<Line>, keep: string -> bool)
    requires |lines| in {3, 4, 6}
    ensures SignedLines(lines, keep)
         == SignedOne(lines[0], keep) + SignedOne(lines[1], keep) + SignedOne(lines[2], keep)
          + (if |lines| > 3 then SignedOne(lines[3], keep) else 0)
          + (if |lines| > 4 then SignedOne(lines[4], keep) + SignedOne(lines[5], keep) else 0)
  {
    assert lines[..0] == [];
    forall i | 0 <= i < |lines|
      ensures SignedLines(lines[..i + 1], keep) == SignedLines(lines[..i], keep) + SignedOne(lines[i], keep)
    {
      assert lines[..i + 1] == lines[..i] + [lines[i]];
      SignedOnOneMore(lines[..i], lines[i], keep);
    }
    assert lines[..|lines|] == lines;
    assert SignedLines(lines[..0], keep) == 0;
    hide SignedLines, SignedOne;
    assert SignedLines(lines[..1], keep) == SignedOne(lines[0], keep);
    assert SignedLines(lines[..2], keep) == SignedOne(lines[0], keep) + SignedOne(lines[1], keep);
    assert |lines| > 3 ==> SignedLines(lines[..4], keep) == SignedLines(lines[..3], keep) + SignedOne(lines[3], keep);
    assert |lines| > 4 ==> SignedLines(lines[..5], keep) == SignedLines(lines[..4], keep) + SignedOne(lines[4], keep);
  }

  /** For every sequence of documents the revenue is the net amount of the sales, and the result
      before tax is that less the charges and the write-offs; assets, VAT and payments are no part
      of it. */
  lemma {:induction false} DocumentsEarnExactly(docs: seq<Document>)
    requires forall d <- docs :: IsDocument(d)
    ensures -SignedOn(Book(docs), IsResultBeforeTax) == EarnedBy(docs)
    ensures -SignedOn(Book(docs), IsRevenue) == SoldBy(docs)
  {
    hide Posted, Earned, IsDocument, SignedLines;
    if docs != [] {
      var n := |docs| - 1;
      assert Book(docs)[..n] == Book(docs[..n]) && Book(docs)[n] == Posted(docs[n]) && docs[n] in docs;
      DocumentsEarnExactly(docs[..n]);
      DocumentEarns(docs[n]);
      DocumentSells(docs[n]);
    }
  }
}
