/** The queue of opportunities: read and classified, imported, then reported page by page
    (scripts/echange_notion.py, crates/griffe-core/src/exchange/apply.rs). */
module Exchange {
  import opened Basics
  import opened Text

  // -------------------------------------------------------------------------
  // Page identifiers
  // -------------------------------------------------------------------------

  function Undashed(s: string): string {
    if s == "" then "" else (if s[0] == '-' then "" else [s[0]]) + Undashed(s[1..])
  }

  function Dashed(b: string): string
    requires |b| == 32
  {
    b[..8] + "-" + b[8..12] + "-" + b[12..16] + "-" + b[16..20] + "-" + b[20..]
  }

  function Bare(s: string): string { Lower(Strip(Undashed(s))) }

  function NormaliseId(s: string): string {
    var bare := Bare(s);
    if |bare| == 32 && AllHex(bare) then Dashed(bare) else Strip(s)
  }

  lemma {:induction false} UndashedConcat(a: string, b: string)
    ensures Undashed(a + b) == Undashed(a) + Undashed(b)
  {
    if a == "" {
      assert a + b == b;
    } else {
      assert (a + b)[1..] == a[1..] + b;
      UndashedConcat(a[1..], b);
    }
  }

  lemma {:induction false} NothingToUndash(s: string)
    requires forall i :: 0 <= i < |s| ==> s[i] != '-'
    ensures Undashed(s) == s
  {
    if s != "" {
      NothingToUndash(s[1..]);
    }
  }

  /** A page asked for by its normalised identifier is the page itself. */
  lemma NormaliseIdIsIdempotent(s: string)
    ensures NormaliseId(NormaliseId(s)) == NormaliseId(s)
  {
    var bare := Bare(s);
    if |bare| == 32 && AllHex(bare) {
      DashedKeepsItsDigits(bare);
    } else {
      var a, b := StripShape(s);
      var t := Strip(s);
      UndashedConcat(a + t, b);
      UndashedConcat(a, t);
      NothingToUndash(a);
      NothingToUndash(b);
      StripPast(a, Undashed(t), b);
      StripOfStripped(t);
    }
  }

  lemma DashAfter(p: string, rest: string)
    requires AllHex(p)
    ensures Undashed(p + ("-" + rest)) == p + Undashed(rest)
  {
    UndashedConcat(p, "-" + rest);
    NothingToUndash(p);
    hide AllHex;
    DashIsDropped(rest);
  }

  lemma DashIsDropped(rest: string)
    ensures Undashed("-" + rest) == Undashed(rest)
  {
    assert ("-" + rest)[0] == '-' && ("-" + rest)[1..] == rest;
  }

  lemma DashedKeepsItsDigits(bare: string)
    requires |bare| == 32 && AllHex(bare)
    ensures Bare(Dashed(bare)) == bare
  {
    var p0, p1, p2, p3, p4 := bare[..8], bare[8..12], bare[12..16], bare[16..20], bare[20..];
    DashAfter(p3, p4);
    DashAfter(p2, p3 + ("-" + p4));
    DashAfter(p1, p2 + ("-" + (p3 + ("-" + p4))));
    DashAfter(p0, p1 + ("-" + (p2 + ("-" + (p3 + ("-" + p4))))));
    NothingToUndash(p4);
    StripOfStripped(bare);
    DashedIsItsPieces(bare);
    hide Undashed, Strip, Dashed;
    assert Lower(bare) == bare by { LowerOfHex(bare); }
    hide Lower;
    assert Dashed(bare) == p0 + ("-" + (p1 + ("-" + (p2 + ("-" + (p3 + ("-" + p4)))))));
    assert p0 + (p1 + (p2 + (p3 + p4))) == bare;
  }

  lemma DashedIsItsPieces(b: string)
    requires |b| == 32
    ensures Dashed(b) == b[..8] + ("-" + (b[8..12] + ("-" + (b[12..16] + ("-" + (b[16..20] + ("-" + b[20..])))))))
  {
    var p0, p1, p2, p3, p4 := b[..8], b[8..12], b[12..16], b[16..20], b[20..];
    assert p0 + "-" + p1 + "-" + p2 + "-" + p3 + "-" + p4
        == p0 + "-" + p1 + "-" + p2 + ("-" + (p3 + ("-" + p4)))
        == p0 + ("-" + (p1 + ("-" + (p2 + ("-" + (p3 + ("-" + p4)))))));
  }

  // -------------------------------------------------------------------------
  // The sections of a page
  // -------------------------------------------------------------------------

  datatype BodyBlock = BodyBlock(kind: string, text: string)

  predicate IsHeading(b: BodyBlock) { b.kind == "heading_2" }

  predicate IsTitled(b: BodyBlock, title: string) { IsHeading(b) && Strip(b.text) == title }

  predicate IsSkipped(b: BodyBlock) { b.kind in {"child_page", "child_database", "link_to_page"} }

  function Content(blocks: seq<BodyBlock>): seq<BodyBlock> {
    if blocks == [] then []
    else
      var last := blocks[|blocks| - 1];
      Content(blocks[..|blocks| - 1]) + (if IsSkipped(last) then [] else [last])
  }

  /** Where the section opened at `h` ends. */
  predicate EndsAt(blocks: seq<BodyBlock>, h: nat, end: nat) {
    && h < end <= |blocks|
    && (forall i :: h < i < end ==> !IsHeading(blocks[i]))
    && (end == |blocks| || IsHeading(blocks[end]))
  }

  /** The last of the first `n` blocks with this title. */
  predicate IsLastTitled(blocks: seq<BodyBlock>, n: nat, title: string, h: nat)
    requires n <= |blocks|
  {
    && h < n && IsTitled(blocks[h], title)
    && forall i :: h < i < n ==> !IsTitled(blocks[i], title)
  }

  predicate HasSection(blocks: seq<BodyBlock>, title: string) {
    exists h :: 0 <= h < |blocks| && IsTitled(blocks[h], title)
  }

  /** There is a section for each level-two title; of two sections with one title, the last. */
  ghost predicate AreSectionsOf(sections: map<string, seq<BodyBlock>>, blocks: seq<BodyBlock>, n: nat)
    requires n <= |blocks|
  {
    && (forall title :: title in sections <==> exists h :: 0 <= h < n && IsTitled(blocks[h], title))
    && forall title, h: nat, end: nat :: IsLastTitled(blocks, n, title, h) && EndsAt(blocks, h, end) ==>
         title in sections && sections[title] == Content(blocks[h + 1..end])
  }

  lemma OneMoreSection(
      sections: map<string, seq<BodyBlock>>, blocks: seq<BodyBlock>, at: nat, end: nat, title: string)
    requires at < |blocks| && AreSectionsOf(sections, blocks, at)
    requires IsTitled(blocks[at], title) && EndsAt(blocks, at, end)
    ensures AreSectionsOf(sections[title := Content(blocks[at + 1..end])], blocks, end)
  {
    hide Content, Strip;
    var more := sections[title := Content(blocks[at + 1..end])];
    forall t ensures t in more <==> exists h :: 0 <= h < end && IsTitled(blocks[h], t) {
      assert t in sections ==> exists h :: 0 <= h < at && IsTitled(blocks[h], t);
      assert forall h :: 0 <= h < end && IsTitled(blocks[h], t) ==> h < at || (h == at && t == title);
    }
    forall t, h: nat, e: nat | IsLastTitled(blocks, end, t, h) && EndsAt(blocks, h, e)
      ensures t in more && more[t] == Content(blocks[h + 1..e])
    {
      assert h <= at;
      if h == at {
        assert e == end;
      } else {
        assert t != title;
        assert IsLastTitled(blocks, at, t, h);
      }
    }
  }

  method SectionsH2(blocks: seq<BodyBlock>) returns (sections: map<string, seq<BodyBlock>>)
    ensures AreSectionsOf(sections, blocks, |blocks|)
  {
    hide AreSectionsOf, Strip;
    sections := map[];
    var current: Option<string>, buffer: seq<BodyBlock> := None, [];
    ghost var at := 0;
    assert AreSectionsOf(sections, blocks, 0) by { NoSections(blocks, 0); }
    for i := 0 to |blocks|
      invariant at <= i
      invariant current.None? ==> sections == map[] && AreSectionsOf(sections, blocks, i) && forall j :: 0 <= j < i ==> !IsHeading(blocks[j])
      invariant current.Some? ==> && at < i && IsTitled(blocks[at], current.value)
                                  && AreSectionsOf(sections, blocks, at)
                                  && buffer == Content(blocks[at + 1..i])
                                  && forall j :: at < j < i ==> !IsHeading(blocks[j])
    {
      if IsHeading(blocks[i]) {
        if current.Some? {
          OneMoreSection(sections, blocks, at, i, current.value);
          sections := sections[current.value := buffer];
        }
        current, buffer, at := Some(Strip(blocks[i].text)), [], i;
      } else if current.Some? {
        assert blocks[at + 1..i + 1][..i - at - 1] == blocks[at + 1..i];
        if !IsSkipped(blocks[i]) {
          buffer := buffer + [blocks[i]];
        }
      } else {
        NoSections(blocks, i + 1);
      }
    }
    if current.Some? {
      OneMoreSection(sections, blocks, at, |blocks|, current.value);
      sections := sections[current.value := buffer];
    }
  }

  lemma NoSections(blocks: seq<BodyBlock>, n: nat)
    requires n <= |blocks| && forall j :: 0 <= j < n ==> !IsHeading(blocks[j])
    ensures AreSectionsOf(map[], blocks, n)
  {
  }

  // -------------------------------------------------------------------------
  // Reading the queue
  // -------------------------------------------------------------------------

  /** A page of the organisations. */
  datatype Card = Card(id: string, alive: bool, named: string, title: string)

  /** A page of the queue, with the properties the exchange reads. */
  datatype Page = Page(
    id: string, alive: bool, relation: seq<string>, status: string, what: string, title: string, nextDate: string)

  datatype Reason = ClosedStatus | NoOrganisation | NoWorks

  datatype Refusal = Refusal(origin: string, who: string, reason: Reason)

  /** An opportunity taken into the document, with its tracking line. */
  datatype Tracked = Tracked(
    origin: string, cardOrigin: string, who: string, what: string, whatIsTitle: bool, dateIsBlank: bool, next: string)

  datatype Verdict = Gone | Refused(refusal: Refusal) | Kept(tracked: Tracked)

  predicate IsClosed(status: string) { status in {"Ignorée", "Gagnée", "Perdue"} }

  function OrElse(s: string, t: string): string { if s != "" then s else t }

  function Who(card: Card): string { OrElse(Strip(card.named), Strip(card.title)) }

  /** The index of the pages alive; of two pages with one identifier, the last. */
  function Indexed(cards: seq<Card>): map<string, Card> {
    if cards == [] then map[]
    else
      var last := cards[|cards| - 1];
      var before := Indexed(cards[..|cards| - 1]);
      if last.alive && NormaliseId(last.id) != "" then before[NormaliseId(last.id) := last] else before
  }

  predicate Carries(card: Card, id: string) { card.alive && id != "" && NormaliseId(card.id) == id }

  /** A page is found under an identifier exactly when one alive carries it: the last such. */
  lemma {:induction false} IndexHoldsTheLast(cards: seq<Card>, id: string, card: Card)
    ensures (id in Indexed(cards) && Indexed(cards)[id] == card)
       <==> exists i :: && 0 <= i < |cards| && Carries(cards[i], id) && cards[i] == card
                        && forall j :: i < j < |cards| ==> !Carries(cards[j], id)
  {
    hide NormaliseId;
    if cards != [] {
      var n := |cards| - 1;
      var before := cards[..n];
      IndexHoldsTheLast(before, id, card);
      if !Carries(cards[n], id) && id in Indexed(before) && Indexed(before)[id] == card {
        var i :| 0 <= i < n && Carries(before[i], id) && before[i] == card
                 && forall j :: i < j < n ==> !Carries(before[j], id);
        assert forall j :: i < j < |cards| ==> !Carries(cards[j], id) by {
          assert forall j :: i < j < n ==> cards[j] == before[j];
        }
        assert cards[i] == card;
      } else if !Carries(cards[n], id) {
        assert forall j :: 0 <= j < n ==> cards[j] == before[j];
      }
    }
  }

  method Index(cards: seq<Card>) returns (index: map<string, Card>)
    ensures index == Indexed(cards)
  {
    index := map[];
    for i := 0 to |cards|
      invariant index == Indexed(cards[..i])
    {
      assert cards[..i + 1][..i] == cards[..i];
      if cards[i].alive {
        var id := NormaliseId(cards[i].id);
        if id != "" {
          index := index[id := cards[i]];
        }
      }
    }
    assert cards[..|cards|] == cards;
  }

  function Relations(raw: seq<string>): seq<string> {
    if raw == [] then []
    else (if NormaliseId(raw[0]) != "" then [NormaliseId(raw[0])] else []) + Relations(raw[1..])
  }

  /** The date of the next action: the day of a timestamp, the text as it is, or today. */
  function DateOf(raw: string, today: string): (string, bool) {
    var r := Strip(raw);
    if r == "" then (today, true)
    else if |r| >= 10 && r[4] == '-' && r[7] == '-' && (|r| == 10 || r[10] in "T ") then (r[..10], false)
    else (r, false)
  }

  function Body(bodies: map<string, seq<BodyBlock>>, origin: string): seq<BodyBlock> {
    if origin in bodies then bodies[origin] else []
  }

  /** What the reading makes of one page of the queue. */
  function Classify(page: Page, index: map<string, Card>, bodies: map<string, seq<BodyBlock>>, today: string): Verdict {
    var origin := NormaliseId(page.id);
    var ids := Relations(page.relation);
    var card := if ids != [] && ids[0] in index then Some(index[ids[0]]) else None;
    var who := if card.Some? then Who(card.value) else "";
    if !page.alive then Gone
    else if IsClosed(Strip(page.status)) then Refused(Refusal(origin, who, ClosedStatus))
    else if card.None? then Refused(Refusal(origin, who, NoOrganisation))
    else if !HasSection(Body(bodies, origin), "Travaux") then Refused(Refusal(origin, who, NoWorks))
    else
      var cardId := if card.value.id != "" then NormaliseId(card.value.id) else NormaliseId(ids[0]);
      var date := DateOf(page.nextDate, today);
      Kept(Tracked(origin, cardId, who, OrElse(Strip(page.what), Strip(page.title)), Strip(page.what) == "",
                   date.1, date.0))
  }

  /** Everything a reading starts from. */
  datatype Reading = Reading(
    pages: seq<Page>, cards: seq<Card>, bodies: map<string, seq<BodyBlock>>, today: string)
  {
    function Of(page: Page): Verdict { Classify(page, Indexed(cards), bodies, today) }
  }

  function KeptOf(r: Reading, n: nat): seq<Tracked>
    requires n <= |r.pages|
  {
    if n == 0 then []
    else KeptOf(r, n - 1) + (match r.Of(r.pages[n - 1]) case Kept(t) => [t] case _ => [])
  }

  function RefusedOf(r: Reading, n: nat): seq<Refusal>
    requires n <= |r.pages|
  {
    if n == 0 then []
    else RefusedOf(r, n - 1) + (match r.Of(r.pages[n - 1]) case Refused(x) => [x] case _ => [])
  }

  /** The document and its tracking file. */
  method Assemble(r: Reading) returns (kept: seq<Tracked>, refused: seq<Refusal>)
    ensures kept == KeptOf(r, |r.pages|)
    ensures refused == RefusedOf(r, |r.pages|)
  {
    hide NormaliseId, Strip, Relations, DateOf, Indexed, HasSection, IsClosed;
    var index := Index(r.cards);
    kept, refused := [], [];
    for i := 0 to |r.pages|
      invariant kept == KeptOf(r, i)
      invariant refused == RefusedOf(r, i)
    {
      var page := r.pages[i];
      ghost var verdict := r.Of(page);
      if !page.alive {
        continue;
      }
      var origin := NormaliseId(page.id);
      var ids := Relations(page.relation);
      var card: Option<Card> := if ids != [] && ids[0] in index then Some(index[ids[0]]) else None;
      var who := if card.Some? then Who(card.value) else "";
      if IsClosed(Strip(page.status)) {
        refused := refused + [Refusal(origin, who, ClosedStatus)];
        continue;
      }
      if card.None? {
        refused := refused + [Refusal(origin, who, NoOrganisation)];
        continue;
      }
      var sections := SectionsH2(Body(r.bodies, origin));
      SectionIsListed(sections, Body(r.bodies, origin), "Travaux");
      if "Travaux" !in sections {
        refused := refused + [Refusal(origin, who, NoWorks)];
        continue;
      }
      var what := Strip(page.what);
      var whatIsTitle := what == "";
      if whatIsTitle {
        what := Strip(page.title);
      }
      var date := DateOf(page.nextDate, r.today);
      var cardId := if card.value.id != "" then NormaliseId(card.value.id) else NormaliseId(ids[0]);
      kept := kept + [Tracked(origin, cardId, who, what, whatIsTitle, date.1, date.0)];
    }
  }

  lemma SectionIsListed(sections: map<string, seq<BodyBlock>>, blocks: seq<BodyBlock>, title: string)
    requires AreSectionsOf(sections, blocks, |blocks|)
    ensures title in sections <==> HasSection(blocks, title)
  {
  }

  // -------------------------------------------------------------------------
  // Importing the document
  // -------------------------------------------------------------------------

  /** What the import makes of one dossier: refused, or a client card and a lead. */
  datatype Outcome = Outcome(incomplete: bool, card: string, lead: string)

  datatype Line = Line(origin: string, outcome: Outcome)

  /** The import reaches the dossiers in turn, and stops behind the first one refused if the
      document asks for it. */
  method ApplyDocument(dossiers: seq<Tracked>, outcomes: seq<Outcome>, stop: bool) returns (lines: seq<Line>)
    requires |outcomes| == |dossiers|
    ensures IsReport(dossiers, outcomes, stop, lines)
  {
    lines := [];
    for i := 0 to |dossiers|
      invariant |lines| == i && forall j :: 0 <= j < i ==> lines[j] == Line(dossiers[j].origin, outcomes[j])
      invariant stop ==> forall j :: 0 <= j < i ==> !outcomes[j].incomplete
    {
      lines := lines + [Line(dossiers[i].origin, outcomes[i])];
      if stop && outcomes[i].incomplete {
        break;
      }
    }
  }

  predicate IsReport(dossiers: seq<Tracked>, outcomes: seq<Outcome>, stop: bool, lines: seq<Line>)
    requires |outcomes| == |dossiers|
  {
    && |lines| <= |dossiers|
    && (forall j :: 0 <= j < |lines| ==> lines[j] == Line(dossiers[j].origin, outcomes[j]))
    && (stop ==> forall j :: 0 <= j < |lines| - 1 ==> !outcomes[j].incomplete)
    && (|lines| < |dossiers| ==> stop && lines != [] && outcomes[|lines| - 1].incomplete)
  }

  // -------------------------------------------------------------------------
  // Writing the report on the pages
  // -------------------------------------------------------------------------

  datatype Property = Griffe | FreeflowId | NextDate

  /** A write on a page, with the card, lead and origin named when it fails. */
  datatype Write = Write(target: string, cells: map<Property, string>, card: string, lead: string, origin: string)

  const QUEUED := "À importer"
  const IMPORTED := "Importé"
  const INCOMPLETE := "Incomplet"

  function IncompleteWrite(origin: string): Write {
    Write(NormaliseId(origin), map[Griffe := INCOMPLETE], "", "", origin)
  }

  function Find(tracked: seq<Tracked>, origin: string): Option<Tracked> {
    if tracked == [] then None
    else if tracked[|tracked| - 1].origin == origin then Some(tracked[|tracked| - 1])
    else Find(tracked[..|tracked| - 1], origin)
  }

  predicate Succeeds(o: Outcome) { !o.incomplete && o.card != "" && o.lead != "" }

  function ImportedCells(o: Outcome, t: Option<Tracked>): map<Property, string> {
    if t.Some? && t.value.dateIsBlank
    then map[FreeflowId := o.lead, Griffe := IMPORTED, NextDate := t.value.next]
    else map[FreeflowId := o.lead, Griffe := IMPORTED]
  }

  /** The one status write a report line calls for. */
  function StatusWrite(line: Line, t: Option<Tracked>): Write {
    if Succeeds(line.outcome)
    then Write(NormaliseId(line.origin), ImportedCells(line.outcome, t), line.outcome.card, line.outcome.lead, line.origin)
    else IncompleteWrite(line.origin)
  }

  function CardWrites(line: Line, t: Option<Tracked>): seq<Write> {
    if Succeeds(line.outcome) && t.Some? && t.value.cardOrigin != ""
    then [Write(NormaliseId(t.value.cardOrigin), map[FreeflowId := line.outcome.card],
                line.outcome.card, line.outcome.lead, line.origin)]
    else []
  }

  function LineWrites(line: Line, t: Option<Tracked>): seq<Write> { [StatusWrite(line, t)] + CardWrites(line, t) }

  function ReportWrites(lines: seq<Line>, tracked: seq<Tracked>): seq<Write> {
    if lines == [] then []
    else LineWrites(lines[0], Find(tracked, lines[0].origin)) + ReportWrites(lines[1..], tracked)
  }

  predicate IsSeen(lines: seq<Line>, origin: string) {
    exists i :: 0 <= i < |lines| && lines[i].origin == origin
  }

  function RefusalWrites(refused: seq<Refusal>, lines: seq<Line>): seq<Write> {
    if refused == [] then []
    else (if IsSeen(lines, refused[0].origin) then [] else [IncompleteWrite(refused[0].origin)])
         + RefusalWrites(refused[1..], lines)
  }

  function AllWrites(lines: seq<Line>, tracked: seq<Tracked>, refused: seq<Refusal>): seq<Write> {
    ReportWrites(lines, tracked) + RefusalWrites(refused, lines)
  }

  /** The pages, by the writes they accepted; the server accepts some more, then fails. */
  class Workspace {
    var accepted: seq<Write>
    var writesLeft: nat

    constructor (writesLeft: nat)
      ensures accepted == [] && this.writesLeft == writesLeft
    {
      accepted, this.writesLeft := [], writesLeft;
    }

    method Patch(w: Write) returns (ok: bool)
      modifies this
      ensures ok == (old(writesLeft) > 0)
      ensures accepted == if ok then old(accepted) + [w] else old(accepted)
      ensures writesLeft == if ok then old(writesLeft) - 1 else 0
    {
      ok := writesLeft > 0;
      if ok {
        accepted, writesLeft := accepted + [w], writesLeft - 1;
      }
    }
  }

  datatype ReportOutcome = Reported | Missed(card: string, lead: string, origin: string)

  function OutcomeOf(writes: seq<Write>, k: nat): ReportOutcome {
    if k < |writes| then Missed(writes[k].card, writes[k].lead, writes[k].origin) else Reported
  }

  lemma CutBehind(sent: seq<Write>, now: seq<Write>, rest: seq<Write>, k: nat)
    requires |sent| <= k
    ensures k - |sent| < |now| ==>
              && Cut(sent + (now + rest), k) == sent + Cut(now, k - |sent|)
              && OutcomeOf(sent + (now + rest), k) == OutcomeOf(now, k - |sent|)
    ensures k - |sent| >= |now| ==> Cut(now, k - |sent|) == now && OutcomeOf(now, k - |sent|) == Reported
    ensures sent + (now + rest) == (sent + now) + rest
  {
  }

  method ReportLine(ws: Workspace, line: Line, t: Option<Tracked>) returns (outcome: ReportOutcome)
    modifies ws
    ensures ws.accepted == old(ws.accepted) + Cut(LineWrites(line, t), old(ws.writesLeft))
    ensures outcome == OutcomeOf(LineWrites(line, t), old(ws.writesLeft))
    ensures outcome == Reported ==> ws.writesLeft == old(ws.writesLeft) - |LineWrites(line, t)|
  {
    hide NormaliseId, ImportedCells;
    var status := StatusWrite(line, t);
    var ok := ws.Patch(status);
    if !ok {
      return Missed(status.card, status.lead, line.origin);
    }
    if Succeeds(line.outcome) && t.Some? && t.value.cardOrigin != "" {
      var w := CardWrites(line, t)[0];
      ok := ws.Patch(w);
      if !ok {
        return Missed(w.card, w.lead, line.origin);
      }
    }
    return Reported;
  }

  /** A server that accepts `k` writes accepts the first `k` of the report, and the first one
      refused names what the person must finish by hand. */
  method Report(ws: Workspace, lines: seq<Line>, tracked: seq<Tracked>, refused: seq<Refusal>)
      returns (outcome: ReportOutcome)
    modifies ws
    ensures ws.accepted == old(ws.accepted) + Cut(AllWrites(lines, tracked, refused), old(ws.writesLeft))
    ensures outcome == OutcomeOf(AllWrites(lines, tracked, refused), old(ws.writesLeft))
  {
    hide NormaliseId, Find, IsSeen, LineWrites, Cut, OutcomeOf, IncompleteWrite, ReportWrites, RefusalWrites;
    ghost var all, k := AllWrites(lines, tracked, refused), ws.writesLeft;
    ghost var sent: seq<Write> := [];
    var seen: set<string> := {};
    for i := 0 to |lines|
      invariant |sent| <= k && ws.writesLeft == k - |sent| && ws.accepted == old(ws.accepted) + sent
      invariant all == sent + (ReportWrites(lines[i..], tracked) + RefusalWrites(refused, lines))
      invariant seen == set j | 0 <= j < i :: lines[j].origin
    {
      var line := lines[i];
      seen := seen + {line.origin};
      var t := Find(tracked, line.origin);
      ghost var now, rest := LineWrites(line, t), ReportWrites(lines[i + 1..], tracked) + RefusalWrites(refused, lines);
      FirstLine(lines, i, tracked, RefusalWrites(refused, lines));
      CutBehind(sent, now, rest, k);
      outcome := ReportLine(ws, line, t);
      if outcome != Reported {
        ReportedWhole(now, k - |sent|);
        return;
      }
      ReportedWhole(now, k - |sent|);
      sent := sent + now;
    }
    NothingToReport(lines, tracked, RefusalWrites(refused, lines));
    for i := 0 to |refused|
      invariant |sent| <= k && ws.writesLeft == k - |sent| && ws.accepted == old(ws.accepted) + sent
      invariant all == sent + RefusalWrites(refused[i..], lines)
    {
      SeenIsInTheSet(lines, seen, refused[i].origin);
      FirstRefusal(refused, i, lines);
      if refused[i].origin in seen {
        continue;
      }
      var w := IncompleteWrite(refused[i].origin);
      CutBehind(sent, [w], RefusalWrites(refused[i + 1..], lines), k);
      ReportedWhole([w], k - |sent|);
      var ok := ws.Patch(w);
      if !ok {
        CutAtOnce(w);
        return Missed("", "", refused[i].origin);
      }
      sent := sent + [w];
    }
    NoRefusal(refused, lines);
    assert all == sent;
    ReportedWhole(all, k);
    return Reported;
  }

  lemma ReportedWhole(writes: seq<Write>, k: nat)
    ensures OutcomeOf(writes, k) == Reported <==> k >= |writes|
    ensures k >= |writes| ==> Cut(writes, k) == writes
  {
  }

  lemma CutAtOnce(w: Write)
    ensures Cut([w], 0) == [] && OutcomeOf([w], 0) == Missed(w.card, w.lead, w.origin)
    ensures forall origin :: IncompleteWrite(origin).card == "" == IncompleteWrite(origin).lead
    ensures forall origin :: IncompleteWrite(origin).origin == origin
  {
  }

  lemma FirstLine(lines: seq<Line>, i: nat, tracked: seq<Tracked>, rest: seq<Write>)
    requires i < |lines|
    ensures ReportWrites(lines[i..], tracked) + rest
         == LineWrites(lines[i], Find(tracked, lines[i].origin)) + (ReportWrites(lines[i + 1..], tracked) + rest)
  {
    hide LineWrites, Find;
    assert lines[i..][0] == lines[i] && lines[i..][1..] == lines[i + 1..];
  }

  lemma NothingToReport(lines: seq<Line>, tracked: seq<Tracked>, rest: seq<Write>)
    ensures ReportWrites(lines[|lines|..], tracked) + rest == rest
  {
  }

  lemma FirstRefusal(refused: seq<Refusal>, i: nat, lines: seq<Line>)
    requires i < |refused|
    ensures RefusalWrites(refused[i..], lines)
         == (if IsSeen(lines, refused[i].origin) then [] else [IncompleteWrite(refused[i].origin)])
            + RefusalWrites(refused[i + 1..], lines)
  {
    hide IsSeen, IncompleteWrite;
    assert refused[i..][0] == refused[i] && refused[i..][1..] == refused[i + 1..];
  }

  lemma NoRefusal(refused: seq<Refusal>, lines: seq<Line>)
    ensures RefusalWrites(refused[|refused|..], lines) == []
  {
  }

  lemma SeenIsInTheSet(lines: seq<Line>, seen: set<string>, origin: string)
    requires seen == set j | 0 <= j < |lines| :: lines[j].origin
    ensures origin in seen <==> IsSeen(lines, origin)
  {
  }

  // -------------------------------------------------------------------------
  // One status for each page of the queue
  // -------------------------------------------------------------------------

  /** The status writes a page receives, in order. */
  function StatusOf(writes: seq<Write>, page: string): seq<Write> {
    if writes == [] then []
    else (if writes[0].target == page && Griffe in writes[0].cells then [writes[0]] else [])
         + StatusOf(writes[1..], page)
  }

  lemma {:induction false} StatusOfConcat(a: seq<Write>, b: seq<Write>, page: string)
    ensures StatusOf(a + b, page) == StatusOf(a, page) + StatusOf(b, page)
  {
    if a == [] {
      assert a + b == b;
    } else {
      assert (a + b)[0] == a[0] && (a + b)[1..] == a[1..] + b;
      StatusOfConcat(a[1..], b, page);
    }
  }

  /** An origin as the reading writes it. */
  predicate IsNormal(origin: string) { NormaliseId(origin) == origin }

  predicate AreNormal(lines: seq<Line>) { forall i :: 0 <= i < |lines| ==> IsNormal(lines[i].origin) }

  predicate AreDistinct(lines: seq<Line>) {
    forall i, j :: 0 <= i < j < |lines| ==> lines[i].origin != lines[j].origin
  }

  lemma StatusOfOneLine(line: Line, t: Option<Tracked>, page: string)
    requires IsNormal(line.origin)
    ensures StatusOf(LineWrites(line, t), page) == if line.origin == page then [StatusWrite(line, t)] else []
  {
    hide NormaliseId;
    var w, cards := StatusWrite(line, t), CardWrites(line, t);
    assert w.target == line.origin && Griffe in w.cells;
    assert StatusOf(cards, page) == [] by {
      if cards != [] {
        assert cards[1..] == [] && Griffe !in cards[0].cells;
      }
    }
    assert ([w] + cards)[0] == w && ([w] + cards)[1..] == cards;
  }

  /** A report line gives its page one status; the other pages get none from it. */
  lemma {:induction false} ReportGivesEachLineItsStatus(lines: seq<Line>, tracked: seq<Tracked>, page: string)
    requires AreNormal(lines) && AreDistinct(lines)
    ensures forall i :: 0 <= i < |lines| && lines[i].origin == page ==>
              StatusOf(ReportWrites(lines, tracked), page) == [StatusWrite(lines[i], Find(tracked, page))]
    ensures !IsSeen(lines, page) ==> StatusOf(ReportWrites(lines, tracked), page) == []
  {
    hide StatusWrite, LineWrites, Find, IsNormal;
    if lines != [] {
      var line, rest := lines[0], lines[1..];
      ReportGivesEachLineItsStatus(rest, tracked, page);
      StatusOfOneLine(line, Find(tracked, line.origin), page);
      StatusOfConcat(LineWrites(line, Find(tracked, line.origin)), ReportWrites(rest, tracked), page);
      hide StatusOf;
      assert IsSeen(rest, page) ==> IsSeen(lines, page) && line.origin != page by {
        assert forall i :: 0 <= i < |rest| ==> rest[i] == lines[i + 1];
      }
      assert line.origin == page ==> IsSeen(lines, page) && !IsSeen(rest, page);
      assert forall i :: 0 < i < |lines| ==> lines[i] == rest[i - 1];
    }
  }

  /** Of the pages refused at the reading, those the report does not name get their status. */
  lemma {:induction false} RefusalsGetTheirStatus(refused: seq<Refusal>, lines: seq<Line>, page: string)
    requires forall i :: 0 <= i < |refused| ==> IsNormal(refused[i].origin)
    requires forall i, j :: 0 <= i < j < |refused| ==> refused[i].origin != refused[j].origin
    ensures StatusOf(RefusalWrites(refused, lines), page)
         == if !IsSeen(lines, page) && exists i :: 0 <= i < |refused| && refused[i].origin == page
            then [IncompleteWrite(page)] else []
  {
    hide IsSeen, NormaliseId;
    if refused != [] {
      var first, rest := refused[0], refused[1..];
      RefusalsGetTheirStatus(rest, lines, page);
      var head := if IsSeen(lines, first.origin) then [] else [IncompleteWrite(first.origin)];
      StatusOfConcat(head, RefusalWrites(rest, lines), page);
      StatusOfAtMostOne(head, page);
      assert IncompleteWrite(first.origin).target == first.origin;
      hide StatusOf, IncompleteWrite;
      assert forall i :: 0 < i < |refused| ==> refused[i] == rest[i - 1];
      assert forall i :: 0 <= i < |rest| ==> rest[i] == refused[i + 1];
    }
  }

  lemma StatusOfAtMostOne(head: seq<Write>, page: string)
    requires |head| <= 1
    ensures StatusOf(head, page) == if head != [] && head[0].target == page && Griffe in head[0].cells then head else []
  {
    assert head != [] ==> head[1..] == [];
  }

  /** Two pages alive in the queue have different identifiers. */
  predicate PagesAreDistinct(r: Reading) {
    forall i, j :: 0 <= i < j < |r.pages| && r.pages[i].alive && r.pages[j].alive ==>
      NormaliseId(r.pages[i].id) != NormaliseId(r.pages[j].id)
  }

  predicate IsOriginBefore(r: Reading, n: nat, origin: string)
    requires n <= |r.pages|
  {
    exists i :: 0 <= i < n && r.pages[i].alive && NormaliseId(r.pages[i].id) == origin
  }

  lemma VerdictNamesItsPage(r: Reading, page: Page)
    ensures r.Of(page).Gone? <==> !page.alive
    ensures r.Of(page).Kept? ==> r.Of(page).tracked.origin == NormaliseId(page.id)
    ensures r.Of(page).Refused? ==> r.Of(page).refusal.origin == NormaliseId(page.id)
  {
  }

  /** No page is both kept and refused, or twice in one list; every origin comes from a page. */
  lemma {:induction false} OriginsAreDistinct(r: Reading, n: nat)
    requires n <= |r.pages| && PagesAreDistinct(r)
    ensures forall t <- KeptOf(r, n) :: IsOriginBefore(r, n, t.origin)
    ensures forall x <- RefusedOf(r, n) :: IsOriginBefore(r, n, x.origin)
    ensures forall t <- KeptOf(r, n), x <- RefusedOf(r, n) :: t.origin != x.origin
    ensures forall j, k :: 0 <= j < k < |KeptOf(r, n)| ==> KeptOf(r, n)[j].origin != KeptOf(r, n)[k].origin
    ensures forall j, k :: 0 <= j < k < |RefusedOf(r, n)| ==> RefusedOf(r, n)[j].origin != RefusedOf(r, n)[k].origin
  {
    hide Classify, NormaliseId, Reading.Of;
    if n > 0 {
      OriginsAreDistinct(r, n - 1);
      VerdictNamesItsPage(r, r.pages[n - 1]);
      NewOrigin(r, n);
      hide IsOriginBefore;
    }
  }

  lemma NewOrigin(r: Reading, n: nat)
    requires 0 < n <= |r.pages| && PagesAreDistinct(r)
    ensures forall origin :: IsOriginBefore(r, n - 1, origin) ==> IsOriginBefore(r, n, origin)
    ensures r.pages[n - 1].alive ==>
              && IsOriginBefore(r, n, NormaliseId(r.pages[n - 1].id))
              && !IsOriginBefore(r, n - 1, NormaliseId(r.pages[n - 1].id))
  {
    hide NormaliseId;
  }

  lemma {:induction false} PageIsClassified(r: Reading, n: nat, i: nat)
    requires i < n <= |r.pages|
    ensures r.Of(r.pages[i]).Kept? ==> r.Of(r.pages[i]).tracked in KeptOf(r, n)
    ensures r.Of(r.pages[i]).Refused? ==> r.Of(r.pages[i]).refusal in RefusedOf(r, n)
  {
    hide Classify, Reading.Of;
    if i < n - 1 {
      PageIsClassified(r, n - 1, i);
    }
  }

  lemma {:induction false} FindTheOnlyOne(tracked: seq<Tracked>, k: nat)
    requires k < |tracked|
    requires forall i, j :: 0 <= i < j < |tracked| ==> tracked[i].origin != tracked[j].origin
    ensures Find(tracked, tracked[k].origin) == Some(tracked[k])
  {
    if k < |tracked| - 1 {
      FindTheOnlyOne(tracked[..|tracked| - 1], k);
    }
  }

  /** The writes that report what the import made of a reading. */
  function WritesOf(r: Reading, lines: seq<Line>): seq<Write> {
    AllWrites(lines, KeptOf(r, |r.pages|), RefusedOf(r, |r.pages|))
  }

  /** From the reading through the import to the report: a page kept receives exactly the status
      of its own outcome if the import reached it and nothing otherwise; a page refused at the
      reading receives exactly one refusal. */
  lemma PagesGetTheirStatus(r: Reading, outcomes: seq<Outcome>, stop: bool, lines: seq<Line>)
    requires PagesAreDistinct(r) && |outcomes| == |KeptOf(r, |r.pages|)|
    requires IsReport(KeptOf(r, |r.pages|), outcomes, stop, lines)
    ensures var kept := KeptOf(r, |r.pages|);
            forall k | 0 <= k < |kept| ::
              StatusOf(WritesOf(r, lines), kept[k].origin) ==
                if k < |lines| then [StatusWrite(Line(kept[k].origin, outcomes[k]), Some(kept[k]))] else []
    ensures forall x <- RefusedOf(r, |r.pages|) ::
              StatusOf(WritesOf(r, lines), x.origin) == [IncompleteWrite(x.origin)]
  {
    hide StatusWrite, IncompleteWrite, StatusOf, Find, ReportWrites, RefusalWrites, KeptOf, RefusedOf, NormaliseId;
    var kept, refused := KeptOf(r, |r.pages|), RefusedOf(r, |r.pages|);
    OriginsAreDistinct(r, |r.pages|);
    OriginsAreNormal(r, |r.pages|);
    hide IsOriginBefore, PagesAreDistinct;
    forall k | 0 <= k < |kept|
      ensures StatusOf(WritesOf(r, lines), kept[k].origin)
           == if k < |lines| then [StatusWrite(Line(kept[k].origin, outcomes[k]), Some(kept[k]))] else []
    {
      var page := kept[k].origin;
      FindTheOnlyOne(kept, k);
      ReportGivesEachLineItsStatus(lines, kept, page);
      RefusalsGetTheirStatus(refused, lines, page);
      StatusOfConcat(ReportWrites(lines, kept), RefusalWrites(refused, lines), page);
      assert k < |lines| <==> IsSeen(lines, page);
    }
    forall x | x in refused
      ensures StatusOf(WritesOf(r, lines), x.origin) == [IncompleteWrite(x.origin)]
    {
      ReportGivesEachLineItsStatus(lines, kept, x.origin);
      RefusalsGetTheirStatus(refused, lines, x.origin);
      StatusOfConcat(ReportWrites(lines, kept), RefusalWrites(refused, lines), x.origin);
      assert !IsSeen(lines, x.origin);
    }
  }

  lemma OriginsAreNormal(r: Reading, n: nat)
    requires n <= |r.pages|
    ensures forall origin :: IsOriginBefore(r, n, origin) ==> IsNormal(origin)
  {
    forall origin | IsOriginBefore(r, n, origin) ensures IsNormal(origin) {
      var i :| 0 <= i < n && r.pages[i].alive && NormaliseId(r.pages[i].id) == origin;
      NormaliseIdIsIdempotent(r.pages[i].id);
    }
  }

  /** Every page alive in the queue receives exactly one status, exactly when the import was not
      asked to stop or refused no dossier before the last. */
  lemma EveryPageGetsOneStatusExactly(r: Reading, outcomes: seq<Outcome>, stop: bool, lines: seq<Line>)
    requires PagesAreDistinct(r) && |outcomes| == |KeptOf(r, |r.pages|)|
    requires IsReport(KeptOf(r, |r.pages|), outcomes, stop, lines)
    ensures (forall i :: 0 <= i < |r.pages| && r.pages[i].alive ==>
               |StatusOf(WritesOf(r, lines), NormaliseId(r.pages[i].id))| == 1)
       <==> (stop ==> forall k :: 0 <= k < |outcomes| - 1 ==> !outcomes[k].incomplete)
  {
    hide StatusWrite, IncompleteWrite, StatusOf, KeptOf, RefusedOf, NormaliseId, Classify, Reading.Of, WritesOf;
    var kept, refused := KeptOf(r, |r.pages|), RefusedOf(r, |r.pages|);
    PagesGetTheirStatus(r, outcomes, stop, lines);
    OriginsAreDistinct(r, |r.pages|);
    hide PagesAreDistinct;
    if |lines| == |kept| {
      forall i | 0 <= i < |r.pages| && r.pages[i].alive
        ensures |StatusOf(WritesOf(r, lines), NormaliseId(r.pages[i].id))| == 1
      {
        PageIsClassified(r, |r.pages|, i);
        VerdictNamesItsPage(r, r.pages[i]);
      }
    } else {
      assert kept[|lines|] in kept;
      assert IsOriginBefore(r, |r.pages|, kept[|lines|].origin);
      assert |StatusOf(WritesOf(r, lines), kept[|lines|].origin)| == 0;
    }
  }

  // -------------------------------------------------------------------------
  // Interrupted reports
  // -------------------------------------------------------------------------

  /** What the pages hold. */
  type Cells = map<(string, Property), string>

  function Do(s: Cells, w: Write): Cells { s + map p | p in w.cells :: (w.target, p) := w.cells[p] }

  function After(s: Cells, writes: seq<Write>): Cells
    decreases |writes|
  {
    if writes == [] then s else After(Do(s, writes[0]), writes[1..])
  }

  predicate IsQueued(s: Cells, page: string) { (page, Griffe) in s && s[(page, Griffe)] == QUEUED }

  predicate QueuesNothing(writes: seq<Write>) {
    forall i :: 0 <= i < |writes| && Griffe in writes[i].cells ==> writes[i].cells[Griffe] != QUEUED
  }

  /** A page leaves the queue exactly when it receives a status; it then holds the last one. */
  lemma {:induction false} PageLeavesTheQueueExactly(s: Cells, writes: seq<Write>, page: string)
    requires QueuesNothing(writes)
    ensures IsQueued(After(s, writes), page) <==> IsQueued(s, page) && StatusOf(writes, page) == []
    ensures var received := StatusOf(writes, page);
            received != [] ==>
              && (page, Griffe) in After(s, writes)
              && Griffe in received[|received| - 1].cells
              && After(s, writes)[(page, Griffe)] == received[|received| - 1].cells[Griffe]
    ensures StatusOf(writes, page) == [] ==>
              && ((page, Griffe) in After(s, writes) <==> (page, Griffe) in s)
              && ((page, Griffe) in s ==> After(s, writes)[(page, Griffe)] == s[(page, Griffe)])
    decreases |writes|
  {
    if writes != [] {
      assert forall i :: 0 <= i < |writes[1..]| ==> writes[1..][i] == writes[i + 1];
      OneWriteOnAPage(s, writes[0], page);
      hide Do;
      PageLeavesTheQueueExactly(Do(s, writes[0]), writes[1..], page);
      hide QueuesNothing;
    }
  }

  lemma OneWriteOnAPage(s: Cells, w: Write, page: string)
    ensures w.target == page && Griffe in w.cells ==>
              (page, Griffe) in Do(s, w) && Do(s, w)[(page, Griffe)] == w.cells[Griffe]
    ensures !(w.target == page && Griffe in w.cells) ==>
              && ((page, Griffe) in Do(s, w) <==> (page, Griffe) in s)
              && ((page, Griffe) in s ==> Do(s, w)[(page, Griffe)] == s[(page, Griffe)])
  {
  }

  predicate IsWritten(writes: seq<Write>, cell: (string, Property)) {
    exists i :: 0 <= i < |writes| && writes[i].target == cell.0 && cell.1 in writes[i].cells
  }

  predicate Agree(s: Cells, t: Cells, cell: (string, Property)) {
    (cell in s <==> cell in t) && (cell in s ==> s[cell] == t[cell])
  }

  lemma {:induction false} OtherCellsStay(s: Cells, writes: seq<Write>, cell: (string, Property))
    requires !IsWritten(writes, cell)
    ensures Agree(s, After(s, writes), cell)
    decreases |writes|
  {
    if writes != [] {
      assert forall i :: 0 <= i < |writes[1..]| ==> writes[1..][i] == writes[i + 1];
      OtherCellsStay(Do(s, writes[0]), writes[1..], cell);
    }
  }

  /** Pages that differ only where a report writes are the same once it has written. */
  lemma {:induction false} ReportErasesDifferences(s: Cells, t: Cells, writes: seq<Write>)
    requires forall cell :: IsWritten(writes, cell) || Agree(s, t, cell)
    ensures After(s, writes) == After(t, writes)
    decreases |writes|
  {
    if writes == [] {
      forall cell: (string, Property) ensures Agree(s, t, cell) {
        assert !IsWritten(writes, cell);
      }
      assert forall cell :: cell in s <==> cell in t by {
        forall cell: (string, Property) ensures cell in s <==> cell in t { assert Agree(s, t, cell); }
      }
      assert forall cell :: cell in s ==> s[cell] == t[cell] by {
        forall cell: (string, Property) | cell in s ensures s[cell] == t[cell] { assert Agree(s, t, cell); }
      }
    } else {
      var s1, t1 := Do(s, writes[0]), Do(t, writes[0]);
      forall cell ensures IsWritten(writes[1..], cell) || Agree(s1, t1, cell) {
        assert IsWritten(writes, cell) ==>
            IsWritten(writes[1..], cell) || (writes[0].target == cell.0 && cell.1 in writes[0].cells) by {
          assert forall i :: 0 < i < |writes| ==> writes[i] == writes[1..][i - 1];
        }
      }
      ReportErasesDifferences(s1, t1, writes[1..]);
    }
  }

  /** Reporting again after a report stopped anywhere leaves the pages as one whole report. */
  lemma ReportingAgainRecovers(s: Cells, writes: seq<Write>, k: nat)
    ensures After(After(s, Cut(writes, k)), writes) == After(s, writes)
  {
    forall cell ensures IsWritten(writes, cell) || Agree(After(s, Cut(writes, k)), s, cell) {
      if !IsWritten(writes, cell) {
        assert forall i :: 0 <= i < |Cut(writes, k)| ==> Cut(writes, k)[i] == writes[i];
        OtherCellsStay(s, Cut(writes, k), cell);
      }
    }
    ReportErasesDifferences(After(s, Cut(writes, k)), s, writes);
  }

  lemma {:induction false} ReportQueuesNothing(lines: seq<Line>, tracked: seq<Tracked>)
    ensures QueuesNothing(ReportWrites(lines, tracked))
  {
    hide Find, NormaliseId;
    if lines != [] {
      ReportQueuesNothing(lines[1..], tracked);
    }
  }

  lemma {:induction false} RefusalsQueueNothing(refused: seq<Refusal>, lines: seq<Line>)
    ensures QueuesNothing(RefusalWrites(refused, lines))
  {
    hide IsSeen, NormaliseId;
    if refused != [] {
      RefusalsQueueNothing(refused[1..], lines);
    }
  }

  function StatusIn(s: Cells, page: string): Option<string> {
    if (page, Griffe) in s then Some(s[(page, Griffe)]) else None
  }

  lemma AllWritesQueueNothing(r: Reading, lines: seq<Line>)
    ensures QueuesNothing(WritesOf(r, lines))
  {
    hide ReportWrites, RefusalWrites, KeptOf, RefusedOf;
    ReportQueuesNothing(lines, KeptOf(r, |r.pages|));
    RefusalsQueueNothing(RefusedOf(r, |r.pages|), lines);
  }

  /** A whole report marks a page imported exactly when the import gave it a card and a lead;
      the pages the import did not reach stay in the queue. */
  lemma WholeReportMarksEachPage(s: Cells, r: Reading, outcomes: seq<Outcome>, stop: bool, lines: seq<Line>)
    requires PagesAreDistinct(r) && |outcomes| == |KeptOf(r, |r.pages|)|
    requires IsReport(KeptOf(r, |r.pages|), outcomes, stop, lines)
    ensures var after, kept := After(s, WritesOf(r, lines)), KeptOf(r, |r.pages|);
            forall k | 0 <= k < |kept| ::
              StatusIn(after, kept[k].origin) ==
                if k >= |lines| then StatusIn(s, kept[k].origin)
                else if Succeeds(outcomes[k]) then Some(IMPORTED) else Some(INCOMPLETE)
    ensures forall x <- RefusedOf(r, |r.pages|) ::
              StatusIn(After(s, WritesOf(r, lines)), x.origin) == Some(INCOMPLETE)
  {
    hide StatusOf, KeptOf, RefusedOf, NormaliseId, WritesOf, After, IsReport, PagesAreDistinct, Succeeds, QueuesNothing;
    PagesGetTheirStatus(r, outcomes, stop, lines);
    AllWritesQueueNothing(r, lines);
    var all, kept := WritesOf(r, lines), KeptOf(r, |r.pages|);
    assert |lines| <= |kept| by { ReportIsNoLonger(kept, outcomes, stop, lines); }
    forall k | 0 <= k < |kept|
      ensures StatusIn(After(s, all), kept[k].origin)
           == if k >= |lines| then StatusIn(s, kept[k].origin)
              else if Succeeds(outcomes[k]) then Some(IMPORTED) else Some(INCOMPLETE)
    {
      PageLeavesTheQueueExactly(s, all, kept[k].origin);
    }
    forall x | x in RefusedOf(r, |r.pages|) ensures StatusIn(After(s, all), x.origin) == Some(INCOMPLETE) {
      PageLeavesTheQueueExactly(s, all, x.origin);
    }
  }

  lemma ReportIsNoLonger(kept: seq<Tracked>, outcomes: seq<Outcome>, stop: bool, lines: seq<Line>)
    requires |outcomes| == |kept| && IsReport(kept, outcomes, stop, lines)
    ensures |lines| <= |kept|
  {
  }

  lemma CutStatusIsAllOrNothing(writes: seq<Write>, k: nat, page: string)
    requires |StatusOf(writes, page)| <= 1
    ensures StatusOf(Cut(writes, k), page) == [] || StatusOf(Cut(writes, k), page) == StatusOf(writes, page)
  {
    if k < |writes| {
      assert writes == writes[..k] + writes[k..];
      StatusOfConcat(writes[..k], writes[k..], page);
    }
  }

  /** A report cut short anywhere leaves each page of the queue either untouched or with the
      status a whole report gives it, and reporting again comes to the same as never having
      been cut short. */
  lemma InterruptedReportRecovers(
      s: Cells, r: Reading, outcomes: seq<Outcome>, stop: bool, lines: seq<Line>, cut: nat, i: nat)
    requires PagesAreDistinct(r) && |outcomes| == |KeptOf(r, |r.pages|)|
    requires IsReport(KeptOf(r, |r.pages|), outcomes, stop, lines)
    requires i < |r.pages| && r.pages[i].alive
    ensures var all, page := WritesOf(r, lines), NormaliseId(r.pages[i].id);
            var halfway := After(s, Cut(all, cut));
            && (StatusIn(halfway, page) == StatusIn(s, page)
                || StatusIn(halfway, page) == StatusIn(After(s, all), page))
            && After(halfway, all) == After(s, all)
  {
    hide StatusOf, KeptOf, RefusedOf, NormaliseId, WritesOf, After, IsReport, PagesAreDistinct, Classify, Reading.Of,
         StatusWrite, IncompleteWrite;
    var all, page := WritesOf(r, lines), NormaliseId(r.pages[i].id);
    PagesGetTheirStatus(r, outcomes, stop, lines);
    PageIsClassified(r, |r.pages|, i);
    VerdictNamesItsPage(r, r.pages[i]);
    assert |StatusOf(all, page)| <= 1;
    CutStatusIsAllOrNothing(all, cut, page);
    AllWritesQueueNothing(r, lines);
    CutQueuesNothing(all, cut);
    PageLeavesTheQueueExactly(s, all, page);
    PageLeavesTheQueueExactly(s, Cut(all, cut), page);
    ReportingAgainRecovers(s, all, cut);
  }

  lemma CutQueuesNothing(writes: seq<Write>, k: nat)
    requires QueuesNothing(writes)
    ensures QueuesNothing(Cut(writes, k))
  {
  }
}
