/** The journal: entries posted once, reversed at most once, never changed
    (crates/griffe-core/src/journal.rs). */
module Postings {
  import opened Basics
  import opened Money
  import opened Vat

  /** A live entry may be reversed; a reversed one and a reversal may not. */
  datatype State = Live | Reversed | IsReversal

  datatype Posting = Posting(entry: Entry, state: State)

  datatype Booking = Post(entry: Entry) | Reverse(i: nat)

  function Step(journal: seq<Posting>, b: Booking): seq<Posting> {
    match b
    case Post(entry) => journal + [Posting(entry, Live)]
    case Reverse(i) =>
      if i < |journal| && journal[i].state == Live
      then journal[i := journal[i].(state := Reversed)] + [Posting(Reversal(journal[i].entry), IsReversal)]
      else journal
  }

  function Run(journal: seq<Posting>, bookings: seq<Booking>): seq<Posting>
    decreases |bookings|
  {
    if bookings == [] then journal else Run(Step(journal, bookings[0]), bookings[1..])
  }

  function Kept(journal: seq<Posting>, keep: Posting -> bool): seq<Entry> {
    if journal == [] then []
    else
      var last := journal[|journal| - 1];
      Kept(journal[..|journal| - 1], keep) + if keep(last) then [last.entry] else []
  }

  predicate IsAny(p: Posting) { true }

  predicate IsLive(p: Posting) { p.state == Live }

  /** The reversals of entries that bear the name of a settlement's reversal. */
  datatype Stray = Stray(key: string) {
    predicate Is(p: Posting) { p.state == IsReversal && p.entry.piece == "EXT-EXT-CA3-" + key }
  }

  /** Everything the ledger reads. */
  function Book(journal: seq<Posting>): seq<Entry> { Kept(journal, IsAny) }

  ghost predicate IsNegated(part: Entry -> Cents) { forall e :: part(Reversal(e)) == -part(e) }

  /** A window's way to keep entries: blind to its own pieces, and to nothing but the piece. */
  ghost predicate IsWindowed(keep: Entry -> bool, w: Window) { keep == w.Moves || keep == w.IsBooked }

  function SumOver(part: Entry -> Cents, keep: Entry -> bool, journal: seq<Posting>, which: Posting -> bool): Cents {
    SumIf(part, keep, Kept(journal, which))
  }

  function TermOf(part: Entry -> Cents, keep: Entry -> bool, e: Entry): Cents { if keep(e) then part(e) else 0 }

  lemma SumOverOneMore(part: Entry -> Cents, keep: Entry -> bool, journal: seq<Posting>, which: Posting -> bool, p: Posting)
    ensures SumOver(part, keep, journal + [p], which)
         == SumOver(part, keep, journal, which) + if which(p) then TermOf(part, keep, p.entry) else 0
  {
    assert (journal + [p])[..|journal|] == journal;
    assert !which(p) ==> Kept(journal + [p], which) == Kept(journal, which);
    SumIfOfConcat(part, keep, Kept(journal, which), [p.entry]);
    SumIfOfOne(part, keep, p.entry);
  }

  lemma {:induction false} SumOverUpdate(
      part: Entry -> Cents, keep: Entry -> bool, journal: seq<Posting>, which: Posting -> bool, i: nat, state: State)
    requires i < |journal|
    ensures var p := journal[i].(state := state);
            SumOver(part, keep, journal[i := p], which)
            == SumOver(part, keep, journal, which)
               - (if which(journal[i]) then TermOf(part, keep, journal[i].entry) else 0)
               + (if which(p) then TermOf(part, keep, p.entry) else 0)
  {
    hide SumOver, TermOf;
    var n := |journal| - 1;
    var p := journal[i].(state := state);
    assert journal == journal[..n] + [journal[n]];
    SumOverOneMore(part, keep, journal[..n], which, journal[n]);
    if i == n {
      assert journal[i := p] == journal[..n] + [p];
      SumOverOneMore(part, keep, journal[..n], which, p);
    } else {
      assert journal[i := p] == journal[..n][i := p] + [journal[n]];
      SumOverOneMore(part, keep, journal[..n][i := p], which, journal[n]);
      SumOverUpdate(part, keep, journal[..n], which, i, state);
    }
  }

  lemma {:induction false} KeptConcat(a: seq<Posting>, b: seq<Posting>, keep: Posting -> bool)
    ensures Kept(a + b, keep) == Kept(a, keep) + Kept(b, keep)
  {
    if b == [] {
      assert a + b == a;
    } else {
      assert (a + b)[..|a + b| - 1] == a + b[..|b| - 1];
      KeptConcat(a, b[..|b| - 1], keep);
    }
  }

  lemma KeptOfOne(p: Posting, keep: Posting -> bool)
    ensures Kept([p], keep) == if keep(p) then [p.entry] else []
  {
    assert [p][..0] == [];
  }

  lemma KeptAround(journal: seq<Posting>, i: nat, keep: Posting -> bool)
    requires i < |journal|
    ensures Kept(journal, keep) == Kept(journal[..i], keep) + Kept([journal[i]], keep) + Kept(journal[i + 1..], keep)
  {
    hide Kept;
    var before, one, after := journal[..i], [journal[i]], journal[i + 1..];
    assert journal == before + one + after;
    KeptConcat(before + one, after, keep);
    KeptConcat(before, one, keep);
  }

  /** A live entry is reversed once: the book gains its reversal and loses nothing, the entry alone
      is no longer live, and asking again does nothing. What is not live cannot be reversed. */
  lemma EntryIsReversedOnce(journal: seq<Posting>, i: nat)
    ensures var after := Step(journal, Reverse(i));
            if i < |journal| && journal[i].state == Live then
              && Book(after) == Book(journal) + [Reversal(journal[i].entry)]
              && Kept(journal, IsLive) == Kept(journal[..i], IsLive) + [journal[i].entry] + Kept(journal[i + 1..], IsLive)
              && Kept(after, IsLive) == Kept(journal[..i], IsLive) + Kept(journal[i + 1..], IsLive)
              && Step(after, Reverse(i)) == after && Step(after, Reverse(|journal|)) == after
            else after == journal
  {
    if i < |journal| && journal[i].state == Live {
      hide Kept, Reversal, Step, Book;
      ReversedAgain(journal, i);
      BookOnceReversed(journal, i);
      LiveOnceReversed(journal, i);
    } else {
      hide Kept, Reversal, Book;
    }
  }

  lemma BookOnceReversed(journal: seq<Posting>, i: nat)
    requires i < |journal| && journal[i].state == Live
    ensures Book(Step(journal, Reverse(i))) == Book(journal) + [Reversal(journal[i].entry)]
  {
    hide Kept, Reversal, Step;
    KeptOnceReversed(journal, i, IsAny);
  }

  lemma LiveOnceReversed(journal: seq<Posting>, i: nat)
    requires i < |journal| && journal[i].state == Live
    ensures Kept(journal, IsLive) == Kept(journal[..i], IsLive) + [journal[i].entry] + Kept(journal[i + 1..], IsLive)
    ensures Kept(Step(journal, Reverse(i)), IsLive) == Kept(journal[..i], IsLive) + Kept(journal[i + 1..], IsLive)
  {
    hide Kept, Reversal, Step;
    KeptOnceReversed(journal, i, IsLive);
    var before, behind := Kept(journal[..i], IsLive), Kept(journal[i + 1..], IsLive);
    assert before + [] + behind + [] == before + behind;
  }

  lemma ReversedAgain(journal: seq<Posting>, i: nat)
    requires i < |journal| && journal[i].state == Live
    ensures var after := Step(journal, Reverse(i)); Step(after, Reverse(i)) == after && Step(after, Reverse(|journal|)) == after
  {
    hide Reversal;
  }

  function EntryIf(p: Posting, keep: Posting -> bool): seq<Entry> { if keep(p) then [p.entry] else [] }

  lemma KeptOnceReversed(journal: seq<Posting>, i: nat, keep: Posting -> bool)
    requires i < |journal| && journal[i].state == Live
    ensures var p, r := journal[i].(state := Reversed), Posting(Reversal(journal[i].entry), IsReversal);
            && Kept(journal, keep)
               == Kept(journal[..i], keep) + EntryIf(journal[i], keep) + Kept(journal[i + 1..], keep)
            && Kept(Step(journal, Reverse(i)), keep)
               == Kept(journal[..i], keep) + EntryIf(p, keep) + Kept(journal[i + 1..], keep) + EntryIf(r, keep)
  {
    hide Kept, Reversal;
    var p, r := journal[i].(state := Reversed), Posting(Reversal(journal[i].entry), IsReversal);
    var marked := journal[i := p];
    assert marked[..i] == journal[..i] && marked[i + 1..] == journal[i + 1..];
    KeptAround(journal, i, keep);
    KeptAround(marked, i, keep);
    KeptConcat(marked, [r], keep);
    KeptOfOne(journal[i], keep);
    KeptOfOne(p, keep);
    KeptOfOne(r, keep);
  }

  /** An entry posted is live, and joins the book behind the others. */
  lemma EntryIsPosted(journal: seq<Posting>, entry: Entry)
    ensures var after := Step(journal, Post(entry));
            && Book(after) == Book(journal) + [entry] && Kept(after, IsLive) == Kept(journal, IsLive) + [entry]
  {
    var p := Posting(entry, Live);
    KeptConcat(journal, [p], IsAny);
    KeptConcat(journal, [p], IsLive);
    KeptOfOne(p, IsAny);
    KeptOfOne(p, IsLive);
  }

  /** Once reversed, an entry and its reversal count for nothing, unless the entry bears the name
      of the settlement's reversal: then the reversal counts alone. */
  lemma ReversedTerms(part: Entry -> Cents, keep: Entry -> bool, w: Window, e: Entry)
    requires IsNegated(part) && IsWindowed(keep, w)
    ensures e.piece != "EXT-CA3-" + w.key ==> TermOf(part, keep, Reversal(e)) == -TermOf(part, keep, e)
    ensures e.piece == "EXT-CA3-" + w.key ==> TermOf(part, keep, e) == 0
    ensures Reversal(e).piece == "EXT-EXT-CA3-" + w.key <==> e.piece == "EXT-CA3-" + w.key
  {
    ReversalOfAPiece(e, w);
    assert ("EXT-" + e.piece)[4..] == e.piece && ("EXT-EXT-CA3-" + w.key)[4..] == "EXT-CA3-" + w.key;
  }

  /** The book sums to its live entries and its strays. */
  ghost predicate IsBalanced(part: Entry -> Cents, keep: Entry -> bool, w: Window, journal: seq<Posting>) {
    SumOver(part, keep, journal, IsAny)
    == SumOver(part, keep, journal, IsLive) + SumOver(part, keep, journal, Stray(w.key).Is)
  }

  lemma StepKeepsBalance(part: Entry -> Cents, keep: Entry -> bool, w: Window, journal: seq<Posting>, b: Booking)
    requires IsNegated(part) && IsWindowed(keep, w) && IsBalanced(part, keep, w, journal)
    ensures IsBalanced(part, keep, w, Step(journal, b))
  {
    hide SumOver, TermOf, IsNegated, IsWindowed, Reversal;
    var stray := Stray(w.key);
    match b
    case Post(entry) =>
      var p := Posting(entry, Live);
      SumOverOneMore(part, keep, journal, IsAny, p);
      SumOverOneMore(part, keep, journal, IsLive, p);
      SumOverOneMore(part, keep, journal, stray.Is, p);
    case Reverse(i) =>
      if i < |journal| && journal[i].state == Live {
        var e := journal[i].entry;
        var marked, r := journal[i := journal[i].(state := Reversed)], Posting(Reversal(e), IsReversal);
        ReversedTerms(part, keep, w, e);
        SumOverUpdate(part, keep, journal, IsAny, i, Reversed);
        SumOverUpdate(part, keep, journal, IsLive, i, Reversed);
        SumOverUpdate(part, keep, journal, stray.Is, i, Reversed);
        SumOverOneMore(part, keep, marked, IsAny, r);
        SumOverOneMore(part, keep, marked, IsLive, r);
        SumOverOneMore(part, keep, marked, stray.Is, r);
      }
  }

  lemma {:induction false} RunKeepsBalance(
      part: Entry -> Cents, keep: Entry -> bool, w: Window, journal: seq<Posting>, bookings: seq<Booking>)
    requires IsNegated(part) && IsWindowed(keep, w) && IsBalanced(part, keep, w, journal)
    ensures IsBalanced(part, keep, w, Run(journal, bookings))
    decreases |bookings|
  {
    hide IsNegated, IsWindowed, IsBalanced, Step;
    if bookings != [] {
      StepKeepsBalance(part, keep, w, journal, bookings[0]);
      RunKeepsBalance(part, keep, w, Step(journal, bookings[0]), bookings[1..]);
    }
  }

  lemma PartsAreNegated()
    ensures IsNegated(CollectedPart) && IsNegated(TaxablePart) && IsNegated(DeductiblePart)
    ensures IsNegated(IntracomDeductiblePart) && IsNegated(IntracomDuePart) && IsNegated(CreditPart)
  {
    forall e: Entry
      ensures CollectedPart(Reversal(e)) == -CollectedPart(e) && TaxablePart(Reversal(e)) == -TaxablePart(e)
      ensures DeductiblePart(Reversal(e)) == -DeductiblePart(e)
      ensures IntracomDeductiblePart(Reversal(e)) == -IntracomDeductiblePart(e)
      ensures IntracomDuePart(Reversal(e)) == -IntracomDuePart(e) && CreditPart(Reversal(e)) == -CreditPart(e)
    {
      ReversalNegatesEveryPart(e);
    }
    hide CollectedPart, TaxablePart, DeductiblePart, IntracomDeductiblePart, IntracomDuePart, CreditPart;
  }

  /** The totals of a reading, the split of the deductible line aside. */
  function TotalsOf(r: Ca3Month): Ca3Month { r.(deductibleAssets := 0, deductibleOther := 0) }

  lemma SameSumsSameTotals(a: seq<Entry>, b: seq<Entry>, w: Window)
    requires SumIf(CollectedPart, w.Moves, a) == SumIf(CollectedPart, w.Moves, b)
    requires SumIf(TaxablePart, w.Moves, a) == SumIf(TaxablePart, w.Moves, b)
    requires SumIf(DeductiblePart, w.Moves, a) == SumIf(DeductiblePart, w.Moves, b)
    requires SumIf(IntracomDeductiblePart, w.Moves, a) == SumIf(IntracomDeductiblePart, w.Moves, b)
    requires SumIf(IntracomDuePart, w.Moves, a) == SumIf(IntracomDuePart, w.Moves, b)
    requires SumIf(CreditPart, w.IsBooked, a) == SumIf(CreditPart, w.IsBooked, b)
    ensures TotalsOf(Reading(a, w)) == TotalsOf(Reading(b, w))
  {
    hide SumIf, RoundToEuro;
    DeductibleIsItsParts(w.Moves, a);
    DeductibleIsItsParts(w.Moves, b);
  }

  /** After any sequence of postings and reversals, the totals of every window are those of the
      entries still live, plus the reversals of any entry that bears the name of the settlement's
      reversal. Without such an entry, a reversed entry leaves no trace in any total. */
  lemma BookReadsAsItsLiveEntries(bookings: seq<Booking>, w: Window)
    ensures var journal := Run([], bookings);
            && TotalsOf(Reading(Book(journal), w))
               == TotalsOf(Reading(Kept(journal, IsLive) + Kept(journal, Stray(w.key).Is), w))
            && (Kept(journal, Stray(w.key).Is) == [] ==>
                  TotalsOf(Reading(Book(journal), w)) == TotalsOf(Reading(Kept(journal, IsLive), w)))
  {
    var journal := Run([], bookings);
    var live, strays := Kept(journal, IsLive), Kept(journal, Stray(w.key).Is);
    PartsAreNegated();
    hide IsNegated, Reading, Kept, TotalsOf, Run;
    hide CollectedPart, TaxablePart, DeductiblePart, IntracomDeductiblePart, IntracomDuePart, CreditPart;
    SumsOfTheBook(CollectedPart, w.Moves, w, bookings);
    SumsOfTheBook(TaxablePart, w.Moves, w, bookings);
    SumsOfTheBook(DeductiblePart, w.Moves, w, bookings);
    SumsOfTheBook(IntracomDeductiblePart, w.Moves, w, bookings);
    SumsOfTheBook(IntracomDuePart, w.Moves, w, bookings);
    SumsOfTheBook(CreditPart, w.IsBooked, w, bookings);
    SameSumsSameTotals(Book(journal), live + strays, w);
    assert strays == [] ==> live + strays == live;
  }

  lemma SumsOfTheBook(part: Entry -> Cents, keep: Entry -> bool, w: Window, bookings: seq<Booking>)
    requires IsNegated(part) && IsWindowed(keep, w)
    ensures var journal := Run([], bookings);
            SumIf(part, keep, Book(journal)) == SumIf(part, keep, Kept(journal, IsLive) + Kept(journal, Stray(w.key).Is))
  {
    hide IsNegated, IsWindowed;
    var journal := Run([], bookings);
    assert IsBalanced(part, keep, w, []);
    RunKeepsBalance(part, keep, w, [], bookings);
    SumIfOfConcat(part, keep, Kept(journal, IsLive), Kept(journal, Stray(w.key).Is));
  }
}
