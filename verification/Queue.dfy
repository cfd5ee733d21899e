/** Which pages of the queue are kept and why the others are refused, how identifiers and dates are
    read, and what every cell of every page holds after a whole report
    (scripts/echange_notion.py). */
module Queue {
  import opened Basics
  import opened Text
  import opened Exchange

  // -------------------------------------------------------------------------
  // Identifiers and dates
  // -------------------------------------------------------------------------

  /** Thirty-two hexadecimal digits, however dashed, capitalised and surrounded by blanks, are read as
      their dashed form in lower case, which is the only one. */
  lemma IdentifierIsRead(text: string, before: string, digits: string, after: string)
    requires Undashed(text) == before + digits + after && AllSpaces(before) && AllSpaces(after)
    requires |digits| == 32 && AllHex(Lower(digits))
    ensures var d := Lower(digits);
            NormaliseId(text) == d[..8] + "-" + d[8..12] + "-" + d[12..16] + "-" + d[16..20] + "-" + d[20..]
  {
    StripPast(before, digits, after);
    HexIsNoSpace(digits);
    StripOfStripped(digits);
    hide Undashed, Strip, Lower;
    assert Bare(text) == Lower(digits);
    assert |Lower(digits)| == 32 by { LowerKeepsLength(digits); }
  }

  lemma LowerKeepsLength(s: string)
    ensures |Lower(s)| == |s|
  {
  }

  lemma HexIsNoSpace(s: string)
    requires |s| == 32 && AllHex(Lower(s))
    ensures !IsSpace(s[0]) && !IsSpace(s[|s| - 1])
  {
    assert IsHex(Lower(s)[0]) && IsHex(Lower(s)[|s| - 1]);
  }

  /** Two texts of thirty-two digits name the same page exactly when they have the same digits. */
  lemma SamePageExactly(a: string, b: string)
    requires |Bare(a)| == 32 && AllHex(Bare(a)) && |Bare(b)| == 32 && AllHex(Bare(b))
    ensures NormaliseId(a) == NormaliseId(b) <==> Bare(a) == Bare(b)
  {
    DashedKeepsItsDigits(Bare(a));
    DashedKeepsItsDigits(Bare(b));
    hide Bare, Dashed;
  }

  /** Any other text is kept, without its blanks. */
  lemma OtherTextIsKept(before: string, text: string, after: string)
    requires AllSpaces(before) && AllSpaces(after) && (text != "" ==> !IsSpace(text[0]) && !IsSpace(text[|text| - 1]))
    requires |Bare(before + text + after)| != 32 || !AllHex(Bare(before + text + after))
    ensures NormaliseId(before + text + after) == text
  {
    StripPast(before, text, after);
    StripOfStripped(text);
    hide Strip, Bare;
  }

  /** A day, alone or at the head of a timestamp, is read as the day; a blank as today. */
  lemma DayIsRead(before: string, year: string, month: string, day: string, time: string, after: string, today: string)
    requires AllSpaces(before) && AllSpaces(after)
    requires |year| == 4 && |month| == 2 && |day| == 2 && !IsSpace(year[0]) && !IsSpace(day[1])
    requires time != "" ==> time[0] == 'T' && !IsSpace(time[|time| - 1])
    ensures DateOf(before + (year + "-" + month + "-" + day + time) + after, today)
         == (year + "-" + month + "-" + day, false)
    ensures DateOf(before, today) == (today, true)
  {
    var text := year + "-" + month + "-" + day + time;
    assert text[0] == year[0] && text[4] == '-' && text[7] == '-' && text[..10] == year + "-" + month + "-" + day;
    assert time != "" ==> text[10] == 'T' && text[|text| - 1] == time[|time| - 1];
    assert time == "" ==> text[|text| - 1] == day[1];
    StripPast(before, text, after);
    StripOfStripped(text);
    StripPast(before, "", "");
    StripOfStripped("");
    assert before + "" + "" == before;
    hide Strip;
  }

  /** A section holds its blocks in order, links to pages and databases left out. */
  lemma {:induction false} SectionContentExactly(a: seq<BodyBlock>, b: seq<BodyBlock>, block: BodyBlock)
    ensures Content(a + b) == Content(a) + Content(b) && Content([]) == []
    ensures Content([block]) == if block.kind in {"child_page", "child_database", "link_to_page"} then [] else [block]
  {
    assert [block][..0] == [];
    if b == [] {
      assert a + b == a;
    } else {
      assert (a + b)[..|a + b| - 1] == a + b[..|b| - 1];
      SectionContentExactly(a, b[..|b| - 1], block);
    }
  }

  // -------------------------------------------------------------------------
  // Kept or refused
  // -------------------------------------------------------------------------

  /** The first identifier of a relation, blanks skipped. */
  ghost predicate IsFirstRelation(raw: seq<string>, id: string) {
    id != "" && exists i :: 0 <= i < |raw| && NormaliseId(raw[i]) == id && forall j :: 0 <= j < i ==> NormaliseId(raw[j]) == ""
  }

  lemma {:induction false} FirstRelationExactly(raw: seq<string>, id: string)
    ensures Relations(raw) != [] && Relations(raw)[0] == id <==> IsFirstRelation(raw, id)
  {
    hide NormaliseId;
    if raw != [] {
      FirstRelationExactly(raw[1..], id);
      if NormaliseId(raw[0]) != "" {
        assert Relations(raw)[0] == NormaliseId(raw[0]);
        assert IsFirstRelation(raw, id) <==> NormaliseId(raw[0]) == id;
      } else {
        assert Relations(raw) == Relations(raw[1..]);
        BlankIsSkipped(raw, id);
        hide IsFirstRelation;
      }
    }
  }

  lemma BlankIsSkipped(raw: seq<string>, id: string)
    requires raw != [] && NormaliseId(raw[0]) == ""
    ensures IsFirstRelation(raw, id) <==> IsFirstRelation(raw[1..], id)
  {
    hide NormaliseId;
    var rest := raw[1..];
    if IsFirstRelation(rest, id) {
      var i :| 0 <= i < |rest| && NormaliseId(rest[i]) == id && forall j :: 0 <= j < i ==> NormaliseId(rest[j]) == "";
      assert NormaliseId(raw[i + 1]) == id;
      forall j | 0 <= j < i + 1 ensures NormaliseId(raw[j]) == "" {
        assert j > 0 ==> raw[j] == rest[j - 1];
      }
    }
    if IsFirstRelation(raw, id) {
      var i :| 0 <= i < |raw| && NormaliseId(raw[i]) == id && forall j :: 0 <= j < i ==> NormaliseId(raw[j]) == "";
      assert i > 0 && NormaliseId(rest[i - 1]) == id;
      forall j | 0 <= j < i - 1 ensures NormaliseId(rest[j]) == "" {
        assert rest[j] == raw[j + 1];
      }
    }
  }

  /** The last page alive of the organisations under an identifier. */
  ghost predicate IsCardUnder(cards: seq<Card>, id: string, card: Card) {
    exists i :: && 0 <= i < |cards| && cards[i] == card && card.alive && NormaliseId(card.id) == id
                && forall j :: i < j < |cards| ==> !(cards[j].alive && NormaliseId(cards[j].id) == id)
  }

  /** The organisation a page of the queue names. */
  ghost predicate IsOrganisationOf(r: Reading, page: Page, id: string, card: Card) {
    IsFirstRelation(page.relation, id) && IsCardUnder(r.cards, id, card)
  }

  ghost predicate HasOrganisation(r: Reading, page: Page) { exists id, card :: IsOrganisationOf(r, page, id, card) }

  predicate HasWorks(r: Reading, page: Page) {
    var origin := NormaliseId(page.id);
    origin in r.bodies && exists b <- r.bodies[origin] :: b.kind == "heading_2" && Strip(b.text) == "Travaux"
  }

  predicate IsOver(page: Page) { Strip(page.status) in {"Ignorée", "Gagnée", "Perdue"} }

  lemma OrganisationIsIndexed(r: Reading, page: Page, id: string, card: Card)
    ensures IsOrganisationOf(r, page, id, card)
       <==> Relations(page.relation) != [] && Relations(page.relation)[0] == id
            && id in Indexed(r.cards) && Indexed(r.cards)[id] == card
  {
    hide NormaliseId, Relations, Indexed;
    FirstRelationExactly(page.relation, id);
    IndexHoldsTheLast(r.cards, id, card);
    if IsOrganisationOf(r, page, id, card) {
      var i :| && 0 <= i < |r.cards| && r.cards[i] == card && card.alive && NormaliseId(card.id) == id
               && forall j :: i < j < |r.cards| ==> !(r.cards[j].alive && NormaliseId(r.cards[j].id) == id);
      assert Carries(r.cards[i], id) && forall j :: i < j < |r.cards| ==> !Carries(r.cards[j], id);
    }
    if IsFirstRelation(page.relation, id) && id in Indexed(r.cards) && Indexed(r.cards)[id] == card {
      var i :| && 0 <= i < |r.cards| && Carries(r.cards[i], id) && r.cards[i] == card
               && forall j :: i < j < |r.cards| ==> !Carries(r.cards[j], id);
      assert IsCardUnder(r.cards, id, card);
    }
  }

  lemma WorksAreASection(r: Reading, page: Page)
    ensures HasWorks(r, page) <==> HasSection(Body(r.bodies, NormaliseId(page.id)), "Travaux")
  {
    hide NormaliseId, Strip;
    var origin := NormaliseId(page.id);
    var body := Body(r.bodies, origin);
    if HasWorks(r, page) {
      var b :| b in r.bodies[origin] && b.kind == "heading_2" && Strip(b.text) == "Travaux";
      var h :| 0 <= h < |body| && body[h] == b;
      assert IsTitled(body[h], "Travaux");
    }
    if HasSection(body, "Travaux") {
      var h :| 0 <= h < |body| && IsTitled(body[h], "Travaux");
      assert body[h] in r.bodies[origin];
    }
  }

  /** A page alive is kept exactly when its opportunity is not over, its first relation names a page
      alive of the organisations, and its body has works; otherwise the first of the three that
      fails is the reason given. */
  lemma PageIsKeptExactly(r: Reading, page: Page)
    ensures var verdict := r.Of(page);
            && (verdict.Gone? <==> !page.alive)
            && (verdict.Kept? <==> page.alive && !IsOver(page) && HasOrganisation(r, page) && HasWorks(r, page))
            && (verdict.Refused? ==>
                  && verdict.refusal.origin == NormaliseId(page.id)
                  && verdict.refusal.reason
                     == if IsOver(page) then ClosedStatus else if !HasOrganisation(r, page) then NoOrganisation else NoWorks)
  {
    WorksAreASection(r, page);
    OrganisationExactly(r, page);
    hide NormaliseId, Strip, Relations, Indexed, HasSection, DateOf, HasWorks, HasOrganisation, Who, OrElse, Body;
  }

  lemma OrganisationExactly(r: Reading, page: Page)
    ensures HasOrganisation(r, page)
       <==> Relations(page.relation) != [] && Relations(page.relation)[0] in Indexed(r.cards)
  {
    hide NormaliseId, Relations, Indexed, IsOrganisationOf;
    if HasOrganisation(r, page) {
      var id, card :| IsOrganisationOf(r, page, id, card);
      OrganisationIsIndexed(r, page, id, card);
    }
    if Relations(page.relation) != [] && Relations(page.relation)[0] in Indexed(r.cards) {
      var id := Relations(page.relation)[0];
      OrganisationIsIndexed(r, page, id, Indexed(r.cards)[id]);
    }
  }

  /** What is kept of a page: its own identifier, its organisation's page and name, its subject or
      else its title, and the day of its next action. */
  lemma KeptPageIsTracked(r: Reading, page: Page, id: string, card: Card)
    requires r.Of(page).Kept? && IsOrganisationOf(r, page, id, card)
    ensures var named, title, what := Strip(card.named), Strip(card.title), Strip(page.what);
            r.Of(page).tracked == Tracked(
              NormaliseId(page.id), id, if named != "" then named else title,
              if what != "" then what else Strip(page.title), what == "",
              DateOf(page.nextDate, r.today).1, DateOf(page.nextDate, r.today).0)
  {
    OrganisationIsIndexed(r, page, id, card);
    EmptyIsNoIdentifier();
    hide NormaliseId, Strip, Relations, Indexed, HasSection, DateOf, IsClosed, Body;
  }

  lemma EmptyIsNoIdentifier()
    ensures NormaliseId("") == ""
  {
  }

  // -------------------------------------------------------------------------
  // Every cell after a report
  // -------------------------------------------------------------------------

  type Cell = (string, Property)

  /** What the last write on a cell puts there. */
  function LastOf(writes: seq<Write>, cell: Cell): Option<string> {
    if writes == [] then None
    else
      var later := LastOf(writes[1..], cell);
      if later.Some? then later
      else if writes[0].target == cell.0 && cell.1 in writes[0].cells then Some(writes[0].cells[cell.1])
      else None
  }

  function OrOf(a: Option<string>, b: Option<string>): Option<string> { if a.Some? then a else b }

  function Held(s: Cells, cell: Cell): Option<string> { if cell in s then Some(s[cell]) else None }

  lemma {:induction false} AfterHoldsTheLast(s: Cells, writes: seq<Write>, cell: Cell)
    ensures Held(After(s, writes), cell) == OrOf(LastOf(writes, cell), Held(s, cell))
    decreases |writes|
  {
    if writes != [] {
      AfterHoldsTheLast(Do(s, writes[0]), writes[1..], cell);
    }
  }

  lemma {:induction false} LastOfConcat(a: seq<Write>, b: seq<Write>, cell: Cell)
    ensures LastOf(a + b, cell) == OrOf(LastOf(b, cell), LastOf(a, cell))
  {
    if a == [] {
      assert a + b == b;
    } else {
      assert (a + b)[0] == a[0] && (a + b)[1..] == a[1..] + b;
      LastOfConcat(a[1..], b, cell);
    }
  }

  /** The import made a card and a lead of the dossier. */
  predicate IsImported(o: Outcome) { !o.incomplete && o.card != "" && o.lead != "" }

  /** The organisation's page that a report line writes on. */
  function CardPage(line: Line, t: Option<Tracked>): Option<string> {
    if IsImported(line.outcome) && t.Some? && t.value.cardOrigin != "" then Some(NormaliseId(t.value.cardOrigin)) else None
  }

  /** What a report line puts in a cell of its own page. */
  function PutBy(line: Line, t: Option<Tracked>, p: Property): Option<string> {
    if IsImported(line.outcome) then
      match p
      case Griffe => Some("Importé")
      case FreeflowId => Some(line.outcome.lead)
      case NextDate => if t.Some? && t.value.dateIsBlank then Some(t.value.next) else None
    else if p == Griffe then Some("Incomplet") else None
  }

  lemma LineCell(line: Line, t: Option<Tracked>, cell: Cell)
    requires IsNormal(line.origin) && CardPage(line, t) != Some(line.origin)
    ensures LastOf(LineWrites(line, t), cell)
         == if CardPage(line, t) == Some(cell.0) && cell.1 == FreeflowId then Some(line.outcome.card)
            else if cell.0 == line.origin then PutBy(line, t, cell.1) else None
  {
    hide NormaliseId;
    var status, cards := [StatusWrite(line, t)], CardWrites(line, t);
    LastOfConcat(status, cards, cell);
    assert status[1..] == [] && (cards != [] ==> cards[1..] == []);
  }

  predicate NamesNoPage(lines: seq<Line>, tracked: seq<Tracked>, page: string) {
    forall i :: 0 <= i < |lines| ==> CardPage(lines[i], Find(tracked, lines[i].origin)) != Some(page)
  }

  /** The cards named are no pages of the queue. */
  predicate CardsAreApart(lines: seq<Line>, tracked: seq<Tracked>) {
    forall i :: 0 <= i < |lines| ==> NamesNoPage(lines, tracked, lines[i].origin)
  }

  lemma TailIsApart(lines: seq<Line>, tracked: seq<Tracked>)
    requires lines != [] && CardsAreApart(lines, tracked)
    ensures CardsAreApart(lines[1..], tracked)
    ensures forall i :: 0 <= i < |lines| ==> CardPage(lines[0], Find(tracked, lines[0].origin)) != Some(lines[i].origin)
  {
    hide CardPage, Find;
    var rest := lines[1..];
    assert forall i :: 0 <= i < |rest| ==> rest[i] == lines[i + 1];
    forall i, j | 0 <= i < |rest| && 0 <= j < |rest|
      ensures CardPage(rest[j], Find(tracked, rest[j].origin)) != Some(rest[i].origin)
    {
      assert NamesNoPage(lines, tracked, lines[i + 1].origin);
    }
    forall i | 0 <= i < |lines| ensures CardPage(lines[0], Find(tracked, lines[0].origin)) != Some(lines[i].origin) {
      assert NamesNoPage(lines, tracked, lines[i].origin);
    }
  }

  /** Each cell of a page that the report names holds what its own line puts there. */
  lemma {:induction false} ReportFillsAPage(lines: seq<Line>, tracked: seq<Tracked>, k: nat, p: Property)
    requires k < |lines| && AreNormal(lines) && AreDistinct(lines) && CardsAreApart(lines, tracked)
    ensures LastOf(ReportWrites(lines, tracked), (lines[k].origin, p))
         == PutBy(lines[k], Find(tracked, lines[k].origin), p)
  {
    hide LastOf, LineWrites, Find, PutBy, CardPage, IsNormal, CardsAreApart;
    var cell := (lines[k].origin, p);
    var line, rest := lines[0], lines[1..];
    TailIsApart(lines, tracked);
    LineCell(line, Find(tracked, line.origin), cell);
    LastOfConcat(LineWrites(line, Find(tracked, line.origin)), ReportWrites(rest, tracked), cell);
    assert forall i :: 0 <= i < |rest| ==> rest[i] == lines[i + 1];
    if k > 0 {
      ReportFillsAPage(rest, tracked, k - 1, p);
    } else {
      assert !IsSeen(rest, line.origin);
      assert NamesNoPage(rest, tracked, line.origin) by { TailNamesNoPage(lines, tracked); }
      ReportLeavesAStranger(rest, tracked, cell);
    }
  }

  lemma TailNamesNoPage(lines: seq<Line>, tracked: seq<Tracked>)
    requires lines != [] && CardsAreApart(lines, tracked)
    ensures NamesNoPage(lines[1..], tracked, lines[0].origin)
  {
    hide CardPage, Find;
    assert NamesNoPage(lines, tracked, lines[0].origin);
    assert forall i :: 0 <= i < |lines[1..]| ==> lines[1..][i] == lines[i + 1];
  }

  lemma {:induction false} ReportLeavesAStranger(lines: seq<Line>, tracked: seq<Tracked>, cell: Cell)
    requires AreNormal(lines) && CardsAreApart(lines, tracked)
    requires !IsSeen(lines, cell.0) && (cell.1 != FreeflowId || NamesNoPage(lines, tracked, cell.0))
    ensures LastOf(ReportWrites(lines, tracked), cell) == None
  {
    hide LineWrites, Find, PutBy, CardPage, IsNormal, CardsAreApart;
    if lines != [] {
      var line, rest := lines[0], lines[1..];
      TailIsApart(lines, tracked);
      assert forall i :: 0 <= i < |rest| ==> rest[i] == lines[i + 1];
      LineCell(line, Find(tracked, line.origin), cell);
      LastOfConcat(LineWrites(line, Find(tracked, line.origin)), ReportWrites(rest, tracked), cell);
      ReportLeavesAStranger(rest, tracked, cell);
    }
  }

  /** The page of an organisation holds the card of the last dossier imported for it. */
  lemma {:induction false} ReportFillsACard(lines: seq<Line>, tracked: seq<Tracked>, k: nat, page: string)
    requires k < |lines| && AreNormal(lines) && CardsAreApart(lines, tracked)
    requires CardPage(lines[k], Find(tracked, lines[k].origin)) == Some(page)
    requires forall i :: k < i < |lines| ==> CardPage(lines[i], Find(tracked, lines[i].origin)) != Some(page)
    ensures LastOf(ReportWrites(lines, tracked), (page, FreeflowId)) == Some(lines[k].outcome.card)
  {
    hide LastOf, LineWrites, Find, PutBy, CardPage, IsNormal;
    var line, rest := lines[0], lines[1..];
    CardIsNoLine(lines, tracked, k, page);
    TailIsApart(lines, tracked);
    assert forall i :: 0 <= i < |rest| ==> rest[i] == lines[i + 1];
    LineCell(line, Find(tracked, line.origin), (page, FreeflowId));
    LastOfConcat(LineWrites(line, Find(tracked, line.origin)), ReportWrites(rest, tracked), (page, FreeflowId));
    hide CardsAreApart;
    if k > 0 {
      ReportFillsACard(rest, tracked, k - 1, page);
    } else {
      ReportLeavesAStranger(rest, tracked, (page, FreeflowId));
    }
  }

  lemma CardIsNoLine(lines: seq<Line>, tracked: seq<Tracked>, k: nat, page: string)
    requires k < |lines| && CardsAreApart(lines, tracked)
    requires CardPage(lines[k], Find(tracked, lines[k].origin)) == Some(page)
    ensures !IsSeen(lines, page)
  {
    hide CardPage, Find;
    forall i | 0 <= i < |lines| ensures lines[i].origin != page {
      assert NamesNoPage(lines, tracked, lines[i].origin);
    }
  }

  lemma {:induction false} RefusalsFillNothing(refused: seq<Refusal>, lines: seq<Line>, cell: Cell)
    requires cell.1 != Griffe || forall x <- refused :: NormaliseId(x.origin) != cell.0
    ensures LastOf(RefusalWrites(refused, lines), cell) == None
  {
    hide NormaliseId, IsSeen;
    if refused != [] {
      assert refused[0] in refused && forall x <- refused[1..] :: x in refused;
      RefusalsFillNothing(refused[1..], lines, cell);
      var head := if IsSeen(lines, refused[0].origin) then [] else [IncompleteWrite(refused[0].origin)];
      LastOfConcat(head, RefusalWrites(refused[1..], lines), cell);
      assert head != [] ==> head[1..] == [];
    }
  }

  /** The organisations and the queue are different pages. */
  ghost predicate CardsAreNoPages(r: Reading) {
    forall t <- KeptOf(r, |r.pages|), i :: 0 <= i < |r.pages| && r.pages[i].alive ==>
      NormaliseId(t.cardOrigin) != NormaliseId(r.pages[i].id)
  }

  lemma LinesAreApart(r: Reading, outcomes: seq<Outcome>, stop: bool, lines: seq<Line>)
    requires PagesAreDistinct(r) && |outcomes| == |KeptOf(r, |r.pages|)| && CardsAreNoPages(r)
    requires IsReport(KeptOf(r, |r.pages|), outcomes, stop, lines)
    ensures var kept := KeptOf(r, |r.pages|);
            && AreNormal(lines) && AreDistinct(lines) && CardsAreApart(lines, kept) && |lines| <= |kept|
            && forall k :: 0 <= k < |lines| ==>
                 lines[k] == Line(kept[k].origin, outcomes[k]) && Find(kept, kept[k].origin) == Some(kept[k])
  {
    hide NormaliseId, KeptOf, RefusedOf, Find;
    var kept := KeptOf(r, |r.pages|);
    OriginsAreDistinct(r, |r.pages|);
    OriginsAreNormal(r, |r.pages|);
    forall k | 0 <= k < |lines| ensures Find(kept, kept[k].origin) == Some(kept[k]) && IsNormal(lines[k].origin) {
      FindTheOnlyOne(kept, k);
      assert kept[k] in kept;
    }
    forall i, j | 0 <= i < |lines| && 0 <= j < |lines|
      ensures CardPage(lines[j], Find(kept, lines[j].origin)) != Some(lines[i].origin)
    {
      assert kept[j] in kept && kept[i] in kept && IsOriginBefore(r, |r.pages|, kept[i].origin);
    }
  }

  /** A whole report fills each page that the import reached: « Importé », the lead and, when it had
      none, the day of the next action, if the import made a card and a lead; « Incomplet » and
      nothing else if it did not. */
  lemma WholeReportFillsEachPage(s: Cells, r: Reading, outcomes: seq<Outcome>, stop: bool, lines: seq<Line>, k: nat)
    requires PagesAreDistinct(r) && |outcomes| == |KeptOf(r, |r.pages|)| && CardsAreNoPages(r)
    requires IsReport(KeptOf(r, |r.pages|), outcomes, stop, lines) && k < |lines|
    ensures var kept, after := KeptOf(r, |r.pages|), After(s, WritesOf(r, lines));
            && k < |kept|
            && var t, o := kept[k], outcomes[k];
               if !o.incomplete && o.card != "" && o.lead != "" then
                 && Held(after, (t.origin, Griffe)) == Some("Importé")
                 && Held(after, (t.origin, FreeflowId)) == Some(o.lead)
                 && Held(after, (t.origin, NextDate)) == (if t.dateIsBlank then Some(t.next) else Held(s, (t.origin, NextDate)))
               else
                 && Held(after, (t.origin, Griffe)) == Some("Incomplet")
                 && Held(after, (t.origin, FreeflowId)) == Held(s, (t.origin, FreeflowId))
                 && Held(after, (t.origin, NextDate)) == Held(s, (t.origin, NextDate))
  {
    hide KeptOf, RefusedOf, Find, NormaliseId, ReportWrites, RefusalWrites, After, LastOf, IsReport, CardsAreNoPages,
         PagesAreDistinct, CardsAreApart, AreNormal, AreDistinct;
    var kept, refused := KeptOf(r, |r.pages|), RefusedOf(r, |r.pages|);
    LinesAreApart(r, outcomes, stop, lines);
    forall p: Property
      ensures Held(After(s, WritesOf(r, lines)), (kept[k].origin, p))
           == OrOf(PutBy(lines[k], Some(kept[k]), p), Held(s, (kept[k].origin, p)))
    {
      ReportFillsAPage(lines, kept, k, p);
      KeptIsNotRefused(r, k);
      RefusalsFillNothing(refused, lines, (kept[k].origin, p));
      LastOfConcat(ReportWrites(lines, kept), RefusalWrites(refused, lines), (kept[k].origin, p));
      AfterHoldsTheLast(s, WritesOf(r, lines), (kept[k].origin, p));
    }
  }

  lemma KeptIsNotRefused(r: Reading, k: nat)
    requires PagesAreDistinct(r) && k < |KeptOf(r, |r.pages|)|
    ensures forall x <- RefusedOf(r, |r.pages|) :: NormaliseId(x.origin) != KeptOf(r, |r.pages|)[k].origin
  {
    hide NormaliseId, KeptOf, RefusedOf;
    OriginsAreDistinct(r, |r.pages|);
    OriginsAreNormal(r, |r.pages|);
    assert KeptOf(r, |r.pages|)[k] in KeptOf(r, |r.pages|);
    forall x | x in RefusedOf(r, |r.pages|) ensures NormaliseId(x.origin) == x.origin {
      assert IsNormal(x.origin);
    }
  }

  /** The page of an organisation is given the card of the last dossier imported for it. */
  lemma WholeReportFillsEachCard(s: Cells, r: Reading, outcomes: seq<Outcome>, stop: bool, lines: seq<Line>, k: nat)
    requires PagesAreDistinct(r) && |outcomes| == |KeptOf(r, |r.pages|)| && CardsAreNoPages(r)
    requires IsReport(KeptOf(r, |r.pages|), outcomes, stop, lines) && k < |lines| <= |outcomes|
    requires IsImported(outcomes[k]) && KeptOf(r, |r.pages|)[k].cardOrigin != ""
    requires forall i :: k < i < |lines| && IsImported(outcomes[i]) ==>
               NormaliseId(KeptOf(r, |r.pages|)[i].cardOrigin) != NormaliseId(KeptOf(r, |r.pages|)[k].cardOrigin)
    ensures var card := NormaliseId(KeptOf(r, |r.pages|)[k].cardOrigin);
            Held(After(s, WritesOf(r, lines)), (card, FreeflowId)) == Some(outcomes[k].card)
  {
    hide KeptOf, RefusedOf, Find, NormaliseId, ReportWrites, RefusalWrites, After, LastOf, IsReport, CardsAreNoPages,
         PagesAreDistinct, CardsAreApart, AreNormal, AreDistinct;
    var kept, refused := KeptOf(r, |r.pages|), RefusedOf(r, |r.pages|);
    var cell: Cell := (NormaliseId(kept[k].cardOrigin), FreeflowId);
    LinesAreApart(r, outcomes, stop, lines);
    ReportFillsACard(lines, kept, k, cell.0);
    RefusalsFillNothing(refused, lines, cell);
    LastOfConcat(ReportWrites(lines, kept), RefusalWrites(refused, lines), cell);
    AfterHoldsTheLast(s, WritesOf(r, lines), cell);
  }
}
