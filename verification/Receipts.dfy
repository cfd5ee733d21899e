/** The VAT that the receipts of an invoice release
    (crates/griffe-core/src/ledger.rs, crates/griffe-core/src/journal.rs). */
module Receipts {
  import opened Basics
  import opened Money

  /** A receipt, with the VAT its entry moved when it was written. */
  datatype Receipt = Receipt(amount: Cents, vatMoved: nat, isVoided: bool)

  /** An invoice: what it is for, its credit notes taken off, and its receipts. */
  datatype Invoice = Invoice(vat: Cents, ttc: Cents, receipts: seq<Receipt>) {
    function Paid(): Cents { PaidBy(receipts) }

    function Moved(): nat { MovedBy(receipts) }
  }

  function PaidBy(receipts: seq<Receipt>): Cents {
    if receipts == [] then 0
    else
      var last := receipts[|receipts| - 1];
      PaidBy(receipts[..|receipts| - 1]) + if last.isVoided then 0 else last.amount
  }

  function MovedBy(receipts: seq<Receipt>): nat {
    if receipts == [] then 0
    else
      var last := receipts[|receipts| - 1];
      MovedBy(receipts[..|receipts| - 1]) + if last.isVoided then 0 else last.vatMoved
  }

  /** Of the VAT still pending, the share of what is collected in what is still due; all of it
      when the receipt settles the invoice. */
  function VatTransferred(pending: Cents, collected: Cents, due: Cents): Cents {
    if due <= 0 || pending <= 0 || collected <= 0 then 0
    else if collected >= due then pending
    else Quot(pending * collected, due)
  }

  lemma TransferIsWithinPending(pending: Cents, collected: Cents, due: Cents)
    ensures 0 <= VatTransferred(pending, collected, due) <= Max(pending, 0)
  {
    if due > 0 && pending > 0 && 0 < collected < due {
      assert pending * collected <= pending * due;
      QuotientBetween(pending * collected, due, 0, pending);
    }
  }

  /** VAT still pending and amount still due, read on the live receipts. */
  method CollectionBasis(invoice: Invoice) returns (pending: Cents, due: Cents)
    ensures pending == Max(invoice.vat - invoice.Moved(), 0) && due == invoice.ttc - invoice.Paid()
  {
    var paid, moved := 0, 0;
    for i := 0 to |invoice.receipts|
      invariant paid == PaidBy(invoice.receipts[..i]) && moved == MovedBy(invoice.receipts[..i])
    {
      assert invoice.receipts[..i + 1][..i] == invoice.receipts[..i];
      if invoice.receipts[i].isVoided {
        continue;
      }
      paid := paid + invoice.receipts[i].amount;
      moved := moved + invoice.receipts[i].vatMoved;
    }
    assert invoice.receipts[..|invoice.receipts|] == invoice.receipts;
    pending := invoice.vat - moved;
    if pending < 0 {
      pending := 0;
    }
    due := invoice.ttc - paid;
  }

  datatype Command = Receive(amount: Cents) | Void(i: nat) | CreditNote(vat: Cents, ttc: Cents)

  /** A receipt moves its share when it is recorded; nothing recomputes the others later. */
  function Step(invoice: Invoice, c: Command): Invoice {
    match c
    case Receive(amount) =>
      if amount <= 0 then invoice
      else
        TransferIsWithinPending(Max(invoice.vat - invoice.Moved(), 0), amount, invoice.ttc - invoice.Paid());
        var moved := VatTransferred(Max(invoice.vat - invoice.Moved(), 0), amount, invoice.ttc - invoice.Paid());
        invoice.(receipts := invoice.receipts + [Receipt(amount, moved, false)])
    case Void(i) =>
      if i >= |invoice.receipts| then invoice
      else invoice.(receipts := invoice.receipts[i := invoice.receipts[i].(isVoided := true)])
    case CreditNote(vat, ttc) => invoice.(vat := invoice.vat + vat, ttc := invoice.ttc + ttc)
  }

  function Run(invoice: Invoice, commands: seq<Command>): Invoice
    decreases |commands|
  {
    if commands == [] then invoice else Run(Step(invoice, commands[0]), commands[1..])
  }

  predicate AmountsArePositive(invoice: Invoice) {
    forall i :: 0 <= i < |invoice.receipts| ==> invoice.receipts[i].amount > 0
  }

  /** No more VAT was moved than the invoice has, and all of it once the invoice is settled. */
  predicate IsReleased(invoice: Invoice) {
    invoice.Moved() <= invoice.vat && (invoice.Paid() >= invoice.ttc ==> invoice.Moved() == invoice.vat)
  }

  /** A receipt may always be recorded. One may be voided when it moved nothing, or when the
      others do not settle the invoice without it. A credit note must leave no more than was
      moved, and exactly that if the receipts cover what it leaves. */
  predicate KeepsRelease(invoice: Invoice, c: Command) {
    match c
    case Receive(_) => true
    case Void(i) =>
      i < |invoice.receipts| && !invoice.receipts[i].isVoided ==>
        invoice.receipts[i].vatMoved == 0 || invoice.Paid() - invoice.receipts[i].amount < invoice.ttc
    case CreditNote(vat, ttc) =>
      && invoice.Moved() <= invoice.vat + vat
      && (invoice.Paid() >= invoice.ttc + ttc ==> invoice.Moved() == invoice.vat + vat)
  }

  lemma OneMoreReceipt(receipts: seq<Receipt>, r: Receipt)
    ensures PaidBy(receipts + [r]) == PaidBy(receipts) + if r.isVoided then 0 else r.amount
    ensures MovedBy(receipts + [r]) == MovedBy(receipts) + if r.isVoided then 0 else r.vatMoved
  {
    assert (receipts + [r])[..|receipts|] == receipts;
  }

  lemma {:induction false} OneReceiptVoided(receipts: seq<Receipt>, i: nat)
    requires i < |receipts|
    ensures var after := receipts[i := receipts[i].(isVoided := true)];
            && PaidBy(after) == PaidBy(receipts) - (if receipts[i].isVoided then 0 else receipts[i].amount)
            && MovedBy(after) == MovedBy(receipts) - (if receipts[i].isVoided then 0 else receipts[i].vatMoved)
  {
    var n := |receipts| - 1;
    var r := receipts[i].(isVoided := true);
    if i == n {
      assert receipts[i := r][..n] == receipts[..n];
    } else {
      OneReceiptVoided(receipts[..n], i);
      assert receipts[i := r][..n] == receipts[..n][i := r];
    }
  }

  lemma CommandKeepsReleaseExactly(invoice: Invoice, c: Command)
    requires AmountsArePositive(invoice) && IsReleased(invoice)
    ensures AmountsArePositive(Step(invoice, c))
    ensures IsReleased(Step(invoice, c)) <==> KeepsRelease(invoice, c)
  {
    hide Quot;
    match c
    case Receive(amount) =>
      var pending, due := Max(invoice.vat - invoice.Moved(), 0), invoice.ttc - invoice.Paid();
      TransferIsWithinPending(pending, amount, due);
      if amount > 0 {
        OneMoreReceipt(invoice.receipts, Receipt(amount, VatTransferred(pending, amount, due), false));
        hide PaidBy, MovedBy;
      }
    case Void(i) =>
      if i < |invoice.receipts| {
        OneReceiptVoided(invoice.receipts, i);
        hide PaidBy, MovedBy;
      }
    case CreditNote(_, _) =>
  }

  /** Over every run of receipts, voids and credit notes on an invoice: its VAT is released in
      full whenever it is settled, and never in excess, if and only if no receipt that moved VAT
      is voided while the others still settle the invoice, and no credit note takes back VAT
      already moved. */
  lemma VatIsReleasedExactly(vat: Cents, ttc: Cents, commands: seq<Command>)
    requires vat >= 0 && ttc > 0
    ensures var start := Invoice(vat, ttc, []);
            AllAlong(Step, IsReleased, start, commands) <==> EachKeeps(Step, KeepsRelease, start, commands)
  {
    hide Step, KeepsRelease;
    var start := Invoice(vat, ttc, []);
    forall t, c | AmountsArePositive(t) ensures AmountsArePositive(Step(t, c)) { StepKeepsAmounts(t, c); }
    assert AmountsArePositive(start) && IsReleased(start);
    hide IsReleased, AmountsArePositive;
    forall t, c | AmountsArePositive(t) && IsReleased(t)
      ensures IsReleased(Step(t, c)) <==> KeepsRelease(t, c)
    {
      CommandKeepsReleaseExactly(t, c);
    }
    HoldsAlongExactly(Step, AmountsArePositive, IsReleased, KeepsRelease, start, commands);
  }

  lemma StepKeepsAmounts(invoice: Invoice, c: Command)
    requires AmountsArePositive(invoice)
    ensures AmountsArePositive(Step(invoice, c))
  {
  }

  lemma StepMovesWithin(invoice: Invoice, c: Command, vat: nat)
    requires invoice.Moved() <= vat && invoice.vat <= vat && (c.CreditNote? ==> c.vat <= 0)
    ensures Step(invoice, c).Moved() <= vat && Step(invoice, c).vat <= vat
  {
    hide Quot;
    match c
    case Receive(amount) =>
      var pending, due := Max(invoice.vat - invoice.Moved(), 0), invoice.ttc - invoice.Paid();
      TransferIsWithinPending(pending, amount, due);
      if amount > 0 {
        OneMoreReceipt(invoice.receipts, Receipt(amount, VatTransferred(pending, amount, due), false));
        hide PaidBy, MovedBy;
      }
    case Void(i) =>
      if i < |invoice.receipts| {
        OneReceiptVoided(invoice.receipts, i);
        hide PaidBy, MovedBy;
      }
    case CreditNote(_, _) =>
  }

  /** Whatever is received, overpaid, voided or credited, the receipts never move more VAT than
      the invoice was issued with. */
  lemma {:induction false} VatMovedIsWithinTheInvoice(invoice: Invoice, vat: nat, commands: seq<Command>)
    requires invoice.Moved() <= vat && invoice.vat <= vat
    requires forall c <- commands :: c.CreditNote? ==> c.vat <= 0
    ensures Run(invoice, commands).Moved() <= vat
    decreases |commands|
  {
    hide Step;
    if commands != [] {
      StepMovesWithin(invoice, commands[0], vat);
      VatMovedIsWithinTheInvoice(Step(invoice, commands[0]), vat, commands[1..]);
    }
  }

  function Receives(amounts: seq<Cents>): seq<Command> {
    if amounts == [] then [] else [Receive(amounts[0])] + Receives(amounts[1..])
  }

  /** One part of what is due paid, one share of what is pending released: what the release lags
      behind its proportion grows by less than a cent, and the release is never ahead. */
  lemma OneShare(ttc: int, vat: int, due: int, pending: int, amount: int, share: int)
    requires ttc > 0 && 0 < amount < due && 0 <= pending * amount - due * share < due
    requires ttc * pending - vat * due >= 0
    ensures 0 <= ttc * (pending - share) - vat * (due - amount) <= ttc * pending - vat * due + ttc
  {
    var lag, next := ttc * pending - vat * due, ttc * (pending - share) - vat * (due - amount);
    LagOfOneShare(ttc, vat, due, pending, amount, share);
    LagIsBounded(due, amount, lag, next, ttc, pending * amount - due * share);
  }

  lemma LagIsBounded(due: int, amount: int, lag: int, next: int, ttc: int, rest: int)
    requires 0 < amount < due && 0 <= rest < due && lag >= 0 && ttc > 0
    requires due * next == (due - amount) * lag + ttc * rest
    ensures 0 <= next <= lag + ttc
  {
    assert due * lag == (due - amount) * lag + amount * lag;
    assert (due - amount) * lag >= 0 && amount * lag >= 0 && ttc * rest >= 0 && ttc * (due - rest) >= 0;
    assert due * (lag + ttc) == due * lag + ttc * rest + ttc * (due - rest);
    hide *;
    CancelFactor(due, 0, next);
    CancelFactor(due, next, lag + ttc);
  }

  lemma LagOfOneShare(ttc: int, vat: int, due: int, pending: int, amount: int, share: int)
    ensures due * (ttc * (pending - share) - vat * (due - amount))
         == (due - amount) * (ttc * pending - vat * due) + ttc * (pending * amount - due * share)
  {
    assert due * (ttc * (pending - share)) == ttc * (due * pending) - ttc * (due * share);
    assert due * (vat * (due - amount)) == vat * due * due - vat * due * amount;
    assert (due - amount) * (ttc * pending) == ttc * (due * pending) - ttc * (pending * amount);
    assert (due - amount) * (vat * due) == vat * due * due - vat * due * amount;
  }

  /** What the VAT released lags behind its proportion of what is paid, times the amount due. */
  function Lag(invoice: Invoice): int { invoice.ttc * (invoice.vat - invoice.Moved()) - invoice.vat * (invoice.ttc - invoice.Paid()) }

  lemma PartPayment(invoice: Invoice, amount: Cents)
    requires 0 < amount <= invoice.ttc - invoice.Paid() && invoice.Moved() <= invoice.vat && 0 < invoice.ttc
    requires Lag(invoice) >= 0
    ensures var next := Step(invoice, Receive(amount));
            && next.vat == invoice.vat && next.ttc == invoice.ttc && next.Paid() == invoice.Paid() + amount
            && next.Moved() <= next.vat && 0 <= Lag(next) <= Lag(invoice) + invoice.ttc
            && (next.Paid() == next.ttc ==> next.Moved() == next.vat)
  {
    var pending, due := invoice.vat - invoice.Moved(), invoice.ttc - invoice.Paid();
    var share := VatTransferred(pending, amount, due);
    PaymentIsRecorded(invoice, amount);
    TransferIsWithinPending(pending, amount, due);
    var next := Step(invoice, Receive(amount));
    if amount == due {
      hide PaidBy, MovedBy, Step, Invoice.Paid, Invoice.Moved;
      assert Lag(next) == invoice.ttc * 0 - invoice.vat * 0 == 0;
    } else {
      ShareIsFloored(pending, amount, due);
      OneShare(invoice.ttc, invoice.vat, due, pending, amount, share);
      hide PaidBy, MovedBy, Step, Invoice.Paid, Invoice.Moved, VatTransferred;
      assert Lag(next) == invoice.ttc * (pending - share) - invoice.vat * (due - amount);
    }
  }

  lemma PaymentIsRecorded(invoice: Invoice, amount: Cents)
    requires 0 < amount && invoice.Moved() <= invoice.vat
    ensures var next := Step(invoice, Receive(amount));
            && next.vat == invoice.vat && next.ttc == invoice.ttc && next.Paid() == invoice.Paid() + amount
            && next.Moved()
               == invoice.Moved() + VatTransferred(invoice.vat - invoice.Moved(), amount, invoice.ttc - invoice.Paid())
  {
    hide PaidBy, MovedBy, VatTransferred;
    var share := VatTransferred(invoice.vat - invoice.Moved(), amount, invoice.ttc - invoice.Paid());
    TransferIsWithinPending(invoice.vat - invoice.Moved(), amount, invoice.ttc - invoice.Paid());
    assert Max(invoice.vat - invoice.Moved(), 0) == invoice.vat - invoice.Moved();
    assert Step(invoice, Receive(amount)) == invoice.(receipts := invoice.receipts + [Receipt(amount, share, false)]);
    OneMoreReceipt(invoice.receipts, Receipt(amount, share, false));
  }

  lemma ShareIsFloored(pending: nat, amount: Cents, due: Cents)
    requires 0 < amount < due
    ensures 0 <= pending * amount - due * VatTransferred(pending, amount, due) < due
  {
    assert pending * amount >= 0;
    assert pending * amount == due * (pending * amount / due) + pending * amount % due;
  }

  lemma OneMoreTime(n: nat, amount: Cents)
    ensures (n + 1) * amount == n * amount + amount
  {
  }

  lemma {:induction false} PartPayments(invoice: Invoice, amounts: seq<Cents>)
    requires forall amount <- amounts :: amount > 0
    requires invoice.Paid() + Sum(amounts) <= invoice.ttc && invoice.Moved() <= invoice.vat && 0 < invoice.ttc
    requires Lag(invoice) >= 0 && (invoice.Paid() == invoice.ttc ==> invoice.Moved() == invoice.vat)
    ensures var after := Run(invoice, Receives(amounts));
            && after.vat == invoice.vat && after.ttc == invoice.ttc && after.Paid() == invoice.Paid() + Sum(amounts)
            && 0 <= Lag(after) <= Lag(invoice) + |amounts| * invoice.ttc
            && (after.Paid() == after.ttc ==> after.Moved() == after.vat)
    decreases |amounts|
  {
    hide Step, Lag, PaidBy, MovedBy, VatTransferred;
    if amounts != [] {
      assert Receives(amounts)[1..] == Receives(amounts[1..]);
      assert amounts[0] in amounts && forall amount <- amounts[1..] :: amount in amounts;
      SumOfPositives(amounts[1..]);
      PartPayment(invoice, amounts[0]);
      PartPayments(Step(invoice, Receive(amounts[0])), amounts[1..]);
      OneMoreTime(|amounts[1..]|, invoice.ttc);
    }
  }

  lemma {:induction false} SumOfPositives(amounts: seq<Cents>)
    requires forall amount <- amounts :: amount > 0
    ensures Sum(amounts) >= 0
  {
    if amounts != [] {
      assert amounts[0] in amounts && forall amount <- amounts[1..] :: amount in amounts;
      SumOfPositives(amounts[1..]);
    }
  }

  /** Whatever the receipts an invoice is paid by, the VAT released is its share of what is paid:
      never more, and less by at most a cent a receipt; all of it once the invoice is paid. */
  lemma VatIsReleasedInProportion(vat: nat, ttc: Cents, amounts: seq<Cents>)
    requires ttc > 0 && Sum(amounts) <= ttc && forall amount <- amounts :: amount > 0
    ensures var after := Run(Invoice(vat, ttc, []), Receives(amounts));
            && after.Paid() == Sum(amounts)
            && 0 <= vat * Sum(amounts) - ttc * after.Moved() <= |amounts| * ttc
            && (Sum(amounts) == ttc ==> after.Moved() == vat)
  {
    var start := Invoice(vat, ttc, []);
    LagExactly(start);
    assert start.Paid() == 0 && start.Moved() == 0;
    var after := Run(start, Receives(amounts));
    hide *;
    NoLag(vat, ttc);
    PartPayments(start, amounts);
    LagExactly(after);
  }

  lemma LagExactly(invoice: Invoice)
    ensures Lag(invoice) == invoice.vat * invoice.Paid() - invoice.ttc * invoice.Moved()
  {
    hide PaidBy, MovedBy;
  }

  lemma NoLag(vat: int, ttc: int)
    ensures vat * 0 - ttc * 0 == 0
  {
  }

  lemma ReceivedOnceSettled(invoice: Invoice, amount: Cents)
    requires invoice.Paid() >= invoice.ttc
    ensures var next := Step(invoice, Receive(amount));
            next.Moved() == invoice.Moved() && next.Paid() >= next.ttc
  {
    OneMoreReceipt(invoice.receipts, Receipt(amount, 0, false));
    hide PaidBy, MovedBy;
  }

  lemma {:induction false} NothingMovesOnceSettled(invoice: Invoice, amounts: seq<Cents>)
    requires invoice.Paid() >= invoice.ttc
    ensures Run(invoice, Receives(amounts)).Moved() == invoice.Moved()
    decreases |amounts|
  {
    hide Step;
    if amounts != [] {
      ReceivedOnceSettled(invoice, amounts[0]);
      NothingMovesOnceSettled(Step(invoice, Receive(amounts[0])), amounts[1..]);
      assert Receives(amounts)[1..] == Receives(amounts[1..]);
    }
  }

  /** An invoice paid twice, its first receipt then voided, is settled and has released none of
      its VAT; no later receipt releases any. */
  lemma DoublePaymentLosesItsVat(vat: Cents, ttc: Cents, amounts: seq<Cents>)
    requires vat > 0 && ttc > 0
    ensures var settled := Step(Step(Step(Invoice(vat, ttc, []), Receive(ttc)), Receive(ttc)), Void(0));
            && settled.Paid() == ttc && settled.Moved() == 0
            && Run(settled, Receives(amounts)).Moved() == 0
  {
    var first, second := Receipt(ttc, vat, false), Receipt(ttc, 0, false);
    OneMoreReceipt([], first);
    assert [] + [first] == [first];
    var once := Step(Invoice(vat, ttc, []), Receive(ttc));
    assert once == Invoice(vat, ttc, [first]);
    OneMoreReceipt([first], second);
    assert [first] + [second] == [first, second];
    var twice := Step(once, Receive(ttc));
    assert twice == Invoice(vat, ttc, [first, second]);
    OneReceiptVoided([first, second], 0);
    NothingMovesOnceSettled(Step(twice, Void(0)), amounts);
  }
}
