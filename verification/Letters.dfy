/** What is read back on the page of letters: each heading opens a series, each group of five blocks
    is a moment (scripts/echange_notion.py). */
module Letters {
  import opened Basics
  import opened Tokens
  import opened Mirror

  /** A moment as it is read, its letters in their Notion spelling. */
  datatype Letter = Letter(key: string, subject: string, body: string)

  datatype Group = Group(title: string, letters: seq<Letter>)

  /** What a page says: the letters before any heading, then the groups. */
  datatype Reading = Reading(loose: seq<Letter>, groups: seq<Group>)

  type Print = seq<(string, string)>

  /** Five blocks make a moment: its key, and its subject and body under their labels. */
  predicate BeginsAMoment(page: Print) {
    && |page| >= 5 && page[0].0 == "heading_3"
    && page[1] == ("paragraph", "Sujet") && page[2].0 == "code"
    && page[3] == ("paragraph", "Corps") && page[4].0 == "code"
  }

  /** A reader of the page. It stops at the first block that is neither a heading nor a moment. */
  function Read(page: Print): Reading
    decreases |page|
  {
    if page != [] && page[0].0 == "heading_2" then
      var rest := Read(page[1..]);
      Reading([], [Group(page[0].1, rest.loose)] + rest.groups)
    else if BeginsAMoment(page) then
      var rest := Read(page[5..]);
      Reading([Letter(page[0].1, page[2].1, page[4].1)] + rest.loose, rest.groups)
    else Reading([], [])
  }

  function LetterOf(m: Moment): Letter { Letter(m.key, InNotion(m.subject), InNotion(m.body)) }

  function LettersOf(moments: seq<Moment>): seq<Letter> {
    seq(|moments|, i requires 0 <= i < |moments| => LetterOf(moments[i]))
  }

  /** What a catalogue means: the cadence under its own title if there is one, then each series. */
  function GroupsOf(c: Catalogue): seq<Group> {
    (if c.cadence == [] then [] else [Group("Défaut", LettersOf(c.cadence))])
    + seq(|c.series|, i requires 0 <= i < |c.series| => Group(c.series[i].name, LettersOf(c.series[i].moments)))
  }

  lemma PrintConcat(a: seq<Wanted>, b: seq<Wanted>)
    ensures WantedFingerprint(a + b) == WantedFingerprint(a) + WantedFingerprint(b)
  {
  }

  lemma MomentIsRead(m: Moment, rest: Print)
    ensures Read(WantedFingerprint(MomentBlocks(m)) + rest) == Reading([LetterOf(m)] + Read(rest).loose, Read(rest).groups)
  {
    MomentReadsBackExactly(m);
    FiveBlocksAreRead(m.key, InNotion(m.subject), InNotion(m.body), rest);
    hide MomentBlocks, WantedFingerprint, InNotion, Read;
  }

  lemma FiveBlocksAreRead(key: string, subject: string, body: string, rest: Print)
    ensures Read([("heading_3", key), ("paragraph", "Sujet"), ("code", subject), ("paragraph", "Corps"), ("code", body)] + rest)
         == Reading([Letter(key, subject, body)] + Read(rest).loose, Read(rest).groups)
  {
    var five := [("heading_3", key), ("paragraph", "Sujet"), ("code", subject), ("paragraph", "Corps"), ("code", body)];
    var page := five + rest;
    assert page[5..] == rest;
    assert "heading_3"[8] == '3' && "heading_2"[8] == '2';
    assert page[0].0 != "heading_2" && BeginsAMoment(page);
  }

  lemma {:induction false} MomentsAreRead(moments: seq<Moment>, rest: Print)
    ensures Read(WantedFingerprint(MomentsBlocks(moments)) + rest)
         == Reading(LettersOf(moments) + Read(rest).loose, Read(rest).groups)
  {
    hide MomentBlocks, WantedFingerprint, Read, LetterOf;
    if moments == [] {
      assert WantedFingerprint([]) + rest == rest by { NothingPrinted(); }
      assert LettersOf(moments) + Read(rest).loose == Read(rest).loose;
    } else {
      var n := |moments| - 1;
      var last := WantedFingerprint(MomentBlocks(moments[n]));
      PrintConcat(MomentsBlocks(moments[..n]), MomentBlocks(moments[n]));
      assert WantedFingerprint(MomentsBlocks(moments)) + rest
          == WantedFingerprint(MomentsBlocks(moments[..n])) + (last + rest);
      MomentsAreRead(moments[..n], last + rest);
      MomentIsRead(moments[n], rest);
      assert LettersOf(moments[..n]) + ([LetterOf(moments[n])] + Read(rest).loose) == LettersOf(moments) + Read(rest).loose;
    }
  }

  lemma NothingPrinted()
    ensures WantedFingerprint([]) == []
  {
  }

  lemma TitleIsRead(title: string, rest: Print)
    ensures var page := WantedFingerprint([Wanted("heading_2", Chunks(title))]);
            Read(page + rest) == Reading([], [Group(title, Read(rest).loose)] + Read(rest).groups)
  {
    ChunksJoinBack(title);
    hide Chunks, Joined;
    var page := WantedFingerprint([Wanted("heading_2", Chunks(title))]);
    assert page == [("heading_2", title)] && (page + rest)[1..] == rest && (page + rest)[0] == page[0];
  }

  /** A title and its moments, in front of other groups. */
  lemma GroupIsRead(title: string, moments: seq<Moment>, rest: Print)
    requires Read(rest).loose == []
    ensures var blocks := [Wanted("heading_2", Chunks(title))] + MomentsBlocks(moments);
            Read(WantedFingerprint(blocks) + rest) == Reading([], [Group(title, LettersOf(moments))] + Read(rest).groups)
  {
    hide Chunks, MomentsBlocks, WantedFingerprint, Read, LettersOf;
    var heading := [Wanted("heading_2", Chunks(title))];
    PrintConcat(heading, MomentsBlocks(moments));
    var moreRest := WantedFingerprint(MomentsBlocks(moments)) + rest;
    assert WantedFingerprint(heading + MomentsBlocks(moments)) + rest == WantedFingerprint(heading) + moreRest;
    TitleIsRead(title, moreRest);
    MomentsAreRead(moments, rest);
    assert LettersOf(moments) + [] == LettersOf(moments);
  }

  function GroupOf(s: Series): Group { Group(s.name, LettersOf(s.moments)) }

  function SeriesGroups(series: seq<Series>): seq<Group> {
    seq(|series|, i requires 0 <= i < |series| => GroupOf(series[i]))
  }

  lemma {:induction false} SeriesAreRead(series: seq<Series>, rest: Print)
    requires Read(rest).loose == []
    ensures Read(WantedFingerprint(SeriesBlocks(series)) + rest) == Reading([], SeriesGroups(series) + Read(rest).groups)
  {
    hide Chunks, MomentsBlocks, WantedFingerprint, Read, GroupOf;
    if series == [] {
      NothingPrinted();
      assert WantedFingerprint([]) + rest == rest && SeriesGroups(series) + Read(rest).groups == Read(rest).groups;
    } else {
      var n := |series| - 1;
      var last := series[n];
      var blocks := [Wanted("heading_2", Chunks(last.name))] + MomentsBlocks(last.moments);
      assert SeriesBlocks(series) == SeriesBlocks(series[..n]) + blocks;
      PrintConcat(SeriesBlocks(series[..n]), blocks);
      assert WantedFingerprint(SeriesBlocks(series)) + rest
          == WantedFingerprint(SeriesBlocks(series[..n])) + (WantedFingerprint(blocks) + rest);
      GroupIsRead(last.name, last.moments, rest);
      GroupOfSeries(last);
      SeriesAreRead(series[..n], WantedFingerprint(blocks) + rest);
      assert SeriesGroups(series[..n]) + ([GroupOf(last)] + Read(rest).groups) == SeriesGroups(series) + Read(rest).groups;
    }
  }

  lemma GroupOfSeries(s: Series)
    ensures GroupOf(s) == Group(s.name, LettersOf(s.moments))
  {
  }

  lemma NothingRead()
    ensures Read([]) == Reading([], [])
  {
  }

  /** The blocks rendered for a catalogue read back as the catalogue: the cadence under « Défaut »
      if there is one, then each series under its name, its moments in order, each with its key,
      its subject and its body. */
  lemma CatalogueReadsBack(c: Catalogue)
    ensures Read(WantedFingerprint(CatalogueBlocks(c))) == Reading([], GroupsOf(c))
  {
    hide Chunks, MomentsBlocks, SeriesBlocks, WantedFingerprint, Read, LettersOf;
    var page := WantedFingerprint(SeriesBlocks(c.series));
    NothingRead();
    SeriesAreRead(c.series, []);
    assert page + [] == page && SeriesGroups(c.series) + [] == SeriesGroups(c.series);
    assert SeriesGroups(c.series)
        == seq(|c.series|, i requires 0 <= i < |c.series| => Group(c.series[i].name, LettersOf(c.series[i].moments)));
    if c.cadence == [] {
      assert [] + SeriesBlocks(c.series) == SeriesBlocks(c.series);
      assert GroupsOf(c) == SeriesGroups(c.series);
    } else {
      var blocks := [Wanted("heading_2", Chunks("Défaut"))] + MomentsBlocks(c.cadence);
      GroupIsRead("Défaut", c.cadence, page);
      PrintConcat(blocks, SeriesBlocks(c.series));
    }
  }

  /** However many runs over a page were interrupted, and wherever, one whole run leaves a page
      that says the catalogue behind its preamble. */
  lemma MirroredPageSaysTheCatalogue(s: Remote, c: Catalogue, cuts: seq<nat>, k: nat)
    requires IsPage(s) && IsNamed(s.blocks) && |s.blocks| >= PREAMBLE
    requires k >= |Plan(Interrupted(s, CatalogueBlocks(c), cuts).blocks, CatalogueBlocks(c))|
    ensures var after := RunOf(Interrupted(s, CatalogueBlocks(c), cuts), CatalogueBlocks(c), k).blocks;
            && |after| >= 3 && after[..3] == s.blocks[..3]
            && Read(Fingerprint(after[3..])) == Reading([], GroupsOf(c))
  {
    hide IsPage, IsNamed, RunOf, CatalogueBlocks, Read, GroupsOf, Plan, Interrupted;
    OneWholeRunRecovers(s, CatalogueBlocks(c), cuts, k);
    CatalogueReadsBack(c);
  }

  // -------------------------------------------------------------------------
  // Back in the vault
  // -------------------------------------------------------------------------

  function InVaultSpelling(l: Letter): Moment { Moment(l.key, InTheVault(l.subject), InTheVault(l.body)) }

  predicate IsFree(m: Moment) {
    IsFreeOfTargets(m.subject, VERS_NOTION) && IsFreeOfTargets(m.body, VERS_NOTION)
  }

  /** A catalogue read on the page and respelled for the vault is the catalogue written, moment by
      moment, exactly when no letter holds a Notion spelling. */
  lemma LettersComeBackExactly(moments: seq<Moment>)
    ensures (forall i :: 0 <= i < |moments| ==> InVaultSpelling(LettersOf(moments)[i]) == moments[i])
       <==> (forall i :: 0 <= i < |moments| ==> IsFree(moments[i]))
  {
    hide IsFreeOfTargets, InNotion, InTheVault;
    forall i | 0 <= i < |moments|
      ensures InVaultSpelling(LettersOf(moments)[i]) == moments[i] <==> IsFree(moments[i])
    {
      LettersGoThereAndBackExactly(moments[i].subject);
      LettersGoThereAndBackExactly(moments[i].body);
    }
  }
}
