/** The mirror of the letters on a remote page: read, compare, delete the tail, append in
    batches, and be interrupted anywhere (scripts/echange_notion.py). */
module Mirror {
  import opened Basics
  import opened Tokens

  /** A block to write: its kind and its text, in chunks. */
  datatype Wanted = Wanted(kind: string, chunks: seq<string>)

  /** A block of the remote page. */
  datatype Block = Block(id: Option<nat>, kind: string, text: string)

  const CHUNK: nat := 2000
  const BATCH: nat := 100
  const PREAMBLE: nat := 3
  const EXCHANGE_VERSION: int := 1

  function Joined(chunks: seq<string>): string {
    if chunks == [] then "" else Joined(chunks[..|chunks| - 1]) + chunks[|chunks| - 1]
  }

  /** A text in chunks; an empty text is one empty chunk. */
  function Chunks(content: string): seq<string>
    decreases |content|
  {
    if |content| <= CHUNK then [content] else [content[..CHUNK]] + Chunks(content[CHUNK..])
  }

  lemma {:induction false} JoinedConcat(a: seq<string>, b: seq<string>)
    ensures Joined(a + b) == Joined(a) + Joined(b)
  {
    if b == [] {
      assert a + b == a;
    } else {
      assert (a + b)[..|a + b| - 1] == a + b[..|b| - 1];
      JoinedConcat(a, b[..|b| - 1]);
    }
  }

  /** The chunks join back to the text; each fits the limit and only an empty text has an
      empty chunk. */
  lemma {:induction false} ChunksJoinBack(content: string)
    ensures Joined(Chunks(content)) == content
    ensures forall i :: 0 <= i < |Chunks(content)| ==> |Chunks(content)[i]| <= CHUNK
    ensures forall i :: 0 <= i < |Chunks(content)| ==> content != "" ==> Chunks(content)[i] != ""
    decreases |content|
  {
    hide Joined;
    if |content| <= CHUNK {
      OneChunk(content);
    } else {
      ChunksJoinBack(content[CHUNK..]);
      JoinedConcat([content[..CHUNK]], Chunks(content[CHUNK..]));
      OneChunk(content[..CHUNK]);
      hide Chunks;
    }
  }

  lemma OneChunk(chunk: string)
    ensures Joined([chunk]) == chunk
  {
    assert [chunk][..0] == [];
  }

  lemma FirstChunk(text: string)
    ensures |text| <= CHUNK ==> Chunks(text) == [text] && text[..|text|] == text
    ensures |text| > CHUNK ==> Chunks(text) == [text[..CHUNK]] + Chunks(text[CHUNK..])
  {
  }

  method RichText(content: string) returns (chunks: seq<string>)
    ensures chunks == Chunks(content)
  {
    hide Chunks;
    chunks := [];
    var rest := content;
    while rest != ""
      invariant rest == "" && chunks != [] ==> chunks == Chunks(content)
      invariant rest != "" ==> chunks + Chunks(rest) == Chunks(content)
      invariant chunks == [] ==> rest == content
      decreases |rest|
    {
      var n := if |rest| <= CHUNK then |rest| else CHUNK;
      FirstChunk(rest);
      assert chunks + ([rest[..n]] + Chunks(rest[n..])) == (chunks + [rest[..n]]) + Chunks(rest[n..]);
      chunks, rest := chunks + [rest[..n]], rest[n..];
    }
    FirstChunk("");
    if chunks == [] {
      chunks := [""];
    }
  }

  // -------------------------------------------------------------------------
  // The catalogue of letters, rendered
  // -------------------------------------------------------------------------

  datatype Moment = Moment(key: string, subject: string, body: string)

  datatype Series = Series(name: string, moments: seq<Moment>)

  datatype Catalogue = Catalogue(version: int, cadence: seq<Moment>, series: seq<Series>)

  function MomentBlocks(m: Moment): seq<Wanted> {
    [Wanted("heading_3", Chunks(m.key)),
     Wanted("paragraph", Chunks("Sujet")), Wanted("code", Chunks(InNotion(m.subject))),
     Wanted("paragraph", Chunks("Corps")), Wanted("code", Chunks(InNotion(m.body)))]
  }

  function MomentsBlocks(moments: seq<Moment>): seq<Wanted> {
    if moments == [] then [] else MomentsBlocks(moments[..|moments| - 1]) + MomentBlocks(moments[|moments| - 1])
  }

  function SeriesBlocks(series: seq<Series>): seq<Wanted> {
    if series == [] then []
    else
      var last := series[|series| - 1];
      SeriesBlocks(series[..|series| - 1]) + [Wanted("heading_2", Chunks(last.name))] + MomentsBlocks(last.moments)
  }

  function CatalogueBlocks(c: Catalogue): seq<Wanted> {
    (if c.cadence == [] then [] else [Wanted("heading_2", Chunks("Défaut"))] + MomentsBlocks(c.cadence))
    + SeriesBlocks(c.series)
  }

  method RenderMoment(m: Moment) returns (blocks: seq<Wanted>)
    ensures blocks == MomentBlocks(m)
  {
    hide Chunks, InNotion;
    var key := RichText(m.key);
    var subjectTitle := RichText("Sujet");
    var notionSubject := JetonsNotion(m.subject);
    var subject := RichText(notionSubject);
    var bodyTitle := RichText("Corps");
    var notionBody := JetonsNotion(m.body);
    var body := RichText(notionBody);
    blocks := [Wanted("heading_3", key), Wanted("paragraph", subjectTitle), Wanted("code", subject),
               Wanted("paragraph", bodyTitle), Wanted("code", body)];
  }

  method RenderMoments(blocks: seq<Wanted>, moments: seq<Moment>) returns (more: seq<Wanted>)
    ensures more == blocks + MomentsBlocks(moments)
  {
    hide MomentBlocks;
    more := blocks;
    for i := 0 to |moments|
      invariant more == blocks + MomentsBlocks(moments[..i])
    {
      assert moments[..i + 1][..i] == moments[..i];
      var rendered := RenderMoment(moments[i]);
      more := more + rendered;
    }
    assert moments[..|moments|] == moments;
  }

  method RenderPhrases(c: Catalogue) returns (blocks: seq<Wanted>)
    ensures blocks == CatalogueBlocks(c)
  {
    hide Chunks, MomentsBlocks;
    blocks := [];
    if c.cadence != [] {
      var title := RichText("Défaut");
      blocks := RenderMoments([Wanted("heading_2", title)], c.cadence);
    }
    ghost var default := blocks;
    for i := 0 to |c.series|
      invariant blocks == default + SeriesBlocks(c.series[..i])
    {
      assert c.series[..i + 1][..i] == c.series[..i];
      var title := RichText(c.series[i].name);
      blocks := RenderMoments(blocks + [Wanted("heading_2", title)], c.series[i].moments);
    }
    assert c.series[..|c.series|] == c.series;
  }

  /** What a moment is read as on the page, and when its letter reads back: exactly when the
      letter holds no Notion spelling. */
  lemma MomentReadsBackExactly(m: Moment)
    ensures WantedFingerprint(MomentBlocks(m))
         == [("heading_3", m.key), ("paragraph", "Sujet"), ("code", InNotion(m.subject)),
             ("paragraph", "Corps"), ("code", InNotion(m.body))]
    ensures InTheVault(InNotion(m.subject)) == m.subject <==> IsFreeOfTargets(m.subject, VERS_NOTION)
    ensures InTheVault(InNotion(m.body)) == m.body <==> IsFreeOfTargets(m.body, VERS_NOTION)
  {
    ChunksJoinBack(m.key);
    ChunksJoinBack("Sujet");
    ChunksJoinBack("Corps");
    ChunksJoinBack(InNotion(m.subject));
    ChunksJoinBack(InNotion(m.body));
    LettersGoThereAndBackExactly(m.subject);
    LettersGoThereAndBackExactly(m.body);
    hide Chunks, Joined, InNotion, InTheVault, IsFreeOfTargets;
  }

  // -------------------------------------------------------------------------
  // Reading a page cursor by cursor
  // -------------------------------------------------------------------------

  /** One answer of the server: some results, and where the next ones are. */
  datatype Answer<T> = Answer(results: seq<T>, hasMore: bool, hasCursor: bool)

  function Collected<T>(answers: seq<Answer<T>>): seq<T> {
    if answers == [] then []
    else if answers[0].hasMore && answers[0].hasCursor then answers[0].results + Collected(answers[1..])
    else answers[0].results
  }

  function Flattened<T>(answers: seq<Answer<T>>): seq<T> {
    if answers == [] then [] else answers[0].results + Flattened(answers[1..])
  }

  lemma CollectedFrom<T>(answers: seq<Answer<T>>, i: nat, blocks: seq<T>)
    requires i < |answers|
    ensures blocks + Collected(answers[i..])
         == if answers[i].hasMore && answers[i].hasCursor
            then (blocks + answers[i].results) + Collected(answers[i + 1..])
            else blocks + answers[i].results
  {
    assert answers[i..][0] == answers[i] && answers[i..][1..] == answers[i + 1..];
    assert blocks + (answers[i].results + Collected(answers[i + 1..]))
        == (blocks + answers[i].results) + Collected(answers[i + 1..]);
  }

  /** The loop follows the cursors; the server's answers come in cursor order. */
  method Children<T>(answers: seq<Answer<T>>) returns (blocks: seq<T>)
    requires answers != [] && !answers[|answers| - 1].hasMore
    ensures blocks == Collected(answers)
  {
    blocks := [];
    var i := 0;
    while true
      invariant 0 <= i < |answers|
      invariant blocks + Collected(answers[i..]) == Collected(answers)
      decreases |answers| - i
    {
      hide Collected;
      var page := answers[i];
      CollectedFrom(answers, i, blocks);
      blocks := blocks + page.results;
      if !page.hasMore {
        return;
      }
      if !page.hasCursor {
        return;
      }
      i := i + 1;
    }
  }

  /** Nothing is dropped exactly when what follows the first answer that ends the loop is empty:
      in particular when every answer with more to come carries its cursor. */
  lemma {:induction false} NothingIsDroppedExactly<T>(answers: seq<Answer<T>>, n: nat)
    requires n < |answers| && !(answers[n].hasMore && answers[n].hasCursor)
    requires forall i :: 0 <= i < n ==> answers[i].hasMore && answers[i].hasCursor
    ensures Collected(answers) == Flattened(answers) <==> Flattened(answers[n + 1..]) == []
  {
    if n == 0 {
      assert answers[1..] == answers[0 + 1..];
      assert Flattened(answers) == answers[0].results + Flattened(answers[1..]);
      assert |Flattened(answers)| == |answers[0].results| + |Flattened(answers[1..])|;
    } else {
      NothingIsDroppedExactly(answers[1..], n - 1);
      assert answers[1..][n..] == answers[n + 1..];
      var r, c, f := answers[0].results, Collected(answers[1..]), Flattened(answers[1..]);
      assert (r + c)[|r|..] == c && (r + f)[|r|..] == f;
    }
  }

  /** A server that hands out a list in pages of a given size, with a cursor to the next one. */
  function Served<T>(items: seq<T>, size: nat): seq<Answer<T>>
    requires size > 0
    decreases |items|
  {
    if |items| <= size then [Answer(items, false, false)]
    else [Answer(items[..size], true, true)] + Served(items[size..], size)
  }

  /** The loop reads the whole list, whatever the size of the pages. */
  lemma {:induction false} ServedListIsReadWhole<T>(items: seq<T>, size: nat)
    requires size > 0
    ensures var answers := Served(items, size);
            answers != [] && !answers[|answers| - 1].hasMore && Collected(answers) == items
    decreases |items|
  {
    if |items| > size {
      ServedListIsReadWhole(items[size..], size);
      assert Served(items, size)[1..] == Served(items[size..], size);
      assert items[..size] + items[size..] == items;
    }
  }

  // -------------------------------------------------------------------------
  // The remote page and its writes
  // -------------------------------------------------------------------------

  datatype Write = Delete(id: nat) | Append(children: seq<Wanted>)

  datatype Remote = Remote(blocks: seq<Block>, nextId: nat)

  function Without(blocks: seq<Block>, id: nat): seq<Block> {
    if blocks == [] then []
    else (if blocks[0].id == Some(id) then [] else [blocks[0]]) + Without(blocks[1..], id)
  }

  /** New blocks, numbered from a fresh identifier on. */
  function Written(children: seq<Wanted>, from: nat): seq<Block> {
    seq(|children|, i requires 0 <= i < |children| =>
      Block(Some(from + i), children[i].kind, Joined(children[i].chunks)))
  }

  function Do(s: Remote, w: Write): Remote {
    match w
    case Delete(id) => s.(blocks := Without(s.blocks, id))
    case Append(children) => Remote(s.blocks + Written(children, s.nextId), s.nextId + |children|)
  }

  function Perform(s: Remote, writes: seq<Write>): Remote
    decreases |writes|
  {
    if writes == [] then s else Perform(Do(s, writes[0]), writes[1..])
  }

  function Fingerprint(blocks: seq<Block>): seq<(string, string)> {
    seq(|blocks|, i requires 0 <= i < |blocks| => (blocks[i].kind, blocks[i].text))
  }

  function WantedFingerprint(wanted: seq<Wanted>): seq<(string, string)> {
    seq(|wanted|, i requires 0 <= i < |wanted| => (wanted[i].kind, Joined(wanted[i].chunks)))
  }

  function Preamble(blocks: seq<Block>): nat { if |blocks| >= PREAMBLE then PREAMBLE else |blocks| }

  function Deletes(queue: seq<Block>): seq<Write> {
    if queue == [] then []
    else (if queue[0].id.Some? then [Delete(queue[0].id.value)] else []) + Deletes(queue[1..])
  }

  function Batches(wanted: seq<Wanted>): seq<Write> {
    if wanted == [] then []
    else
      var n := if |wanted| <= BATCH then |wanted| else BATCH;
      [Append(wanted[..n])] + Batches(wanted[n..])
  }

  /** The writes of a whole run over a page. */
  function Plan(blocks: seq<Block>, wanted: seq<Wanted>): seq<Write> {
    var queue := blocks[Preamble(blocks)..];
    if Fingerprint(queue) == WantedFingerprint(wanted) then [] else Deletes(queue) + Batches(wanted)
  }

  /** A page whose server accepts a given number of writes, then fails. */
  class RemotePage {
    var blocks: seq<Block>
    var nextId: nat
    var writesLeft: nat

    constructor (blocks: seq<Block>, nextId: nat, writesLeft: nat)
      ensures this.blocks == blocks && this.nextId == nextId && this.writesLeft == writesLeft
    {
      this.blocks, this.nextId, this.writesLeft := blocks, nextId, writesLeft;
    }

    function State(): Remote
      reads this
    {
      Remote(blocks, nextId)
    }

    method Call(write: Write) returns (ok: bool)
      modifies this
      ensures ok == (old(writesLeft) > 0)
      ensures State() == if ok then Do(old(State()), write) else old(State())
      ensures writesLeft == if ok then old(writesLeft) - 1 else 0
    {
      if writesLeft == 0 {
        return false;
      }
      writesLeft := writesLeft - 1;
      match write {
        case Delete(id) => blocks := Without(blocks, id);
        case Append(children) =>
          blocks, nextId := blocks + Written(children, nextId), nextId + |children|;
      }
      return true;
    }
  }

  lemma {:induction false} PerformConcat(s: Remote, a: seq<Write>, b: seq<Write>)
    ensures Perform(s, a + b) == Perform(Perform(s, a), b)
    decreases |a|
  {
    if a == [] {
      assert a + b == b;
    } else {
      assert (a + b)[1..] == a[1..] + b;
      PerformConcat(Do(s, a[0]), a[1..], b);
    }
  }

  lemma CutConcat(s: Remote, a: seq<Write>, b: seq<Write>, k: nat)
    ensures Perform(s, Cut(a + b, k))
         == if k < |a| then Perform(s, Cut(a, k)) else Perform(Perform(s, Cut(a, k)), Cut(b, k - |a|))
  {
    if k < |a| {
      assert (a + b)[..k] == a[..k];
    } else {
      assert Cut(a + b, k) == a + Cut(b, k - |a|);
      PerformConcat(s, a, Cut(b, k - |a|));
    }
  }

  lemma CutOneMore(s: Remote, w: Write, rest: seq<Write>, k: nat)
    ensures Perform(s, Cut([w] + rest, k)) == if k == 0 then s else Perform(Do(s, w), Cut(rest, k - 1))
  {
    if k > 0 {
      assert Cut([w] + rest, k)[1..] == Cut(rest, k - 1);
    } else {
      assert Cut([w] + rest, 0) == [];
    }
  }

  method DeleteQueue(page: RemotePage, queue: seq<Block>) returns (ok: bool)
    modifies page
    ensures page.State() == Perform(old(page.State()), Cut(Deletes(queue), old(page.writesLeft)))
    ensures ok == (old(page.writesLeft) >= |Deletes(queue)|)
    ensures ok ==> page.writesLeft == old(page.writesLeft) - |Deletes(queue)|
  {
    ghost var result, need := Perform(page.State(), Cut(Deletes(queue), page.writesLeft)), |Deletes(queue)|;
    for i := 0 to |queue|
      invariant Perform(page.State(), Cut(Deletes(queue[i..]), page.writesLeft)) == result
      invariant old(page.writesLeft) - page.writesLeft == need - |Deletes(queue[i..])|
    {
      assert queue[i..][1..] == queue[i + 1..];
      assert Deletes(queue[i..]) == (if queue[i].id.Some? then [Delete(queue[i].id.value)] else [])
                                    + Deletes(queue[i + 1..]);
      if queue[i].id.Some? {
        CutOneMore(page.State(), Delete(queue[i].id.value), Deletes(queue[i + 1..]), page.writesLeft);
        ok := page.Call(Delete(queue[i].id.value));
        if !ok {
          return;
        }
      } else {
        assert Deletes(queue[i..]) == Deletes(queue[i + 1..]);
      }
    }
    assert queue[|queue|..] == [];
    return true;
  }

  method AppendBatches(page: RemotePage, wanted: seq<Wanted>) returns (ok: bool)
    modifies page
    ensures page.State() == Perform(old(page.State()), Cut(Batches(wanted), old(page.writesLeft)))
    ensures ok == (old(page.writesLeft) >= |Batches(wanted)|)
  {
    ghost var result, need := Perform(page.State(), Cut(Batches(wanted), page.writesLeft)), |Batches(wanted)|;
    var from := 0;
    while from < |wanted|
      invariant 0 <= from <= |wanted|
      invariant Perform(page.State(), Cut(Batches(wanted[from..]), page.writesLeft)) == result
      invariant old(page.writesLeft) - page.writesLeft == need - |Batches(wanted[from..])|
    {
      var to := if |wanted| - from <= BATCH then |wanted| else from + BATCH;
      assert wanted[from..][..to - from] == wanted[from..to] && wanted[from..][to - from..] == wanted[to..];
      CutOneMore(page.State(), Append(wanted[from..to]), Batches(wanted[to..]), page.writesLeft);
      ok := page.Call(Append(wanted[from..to]));
      if !ok {
        return;
      }
      from := to;
    }
    assert wanted[|wanted|..] == [];
    return true;
  }

  datatype MirrorOutcome = UnknownVersion | Unchanged | Rewritten | Stopped

  predicate IsUpToDate(blocks: seq<Block>, wanted: seq<Wanted>) {
    Fingerprint(blocks[Preamble(blocks)..]) == WantedFingerprint(wanted)
  }

  /** The run reads the page cursor by cursor, performs its plan for the catalogue as far as the
      server accepts it, and says so. */
  method MirrorPhrases(page: RemotePage, pageSize: nat, catalogue: Catalogue) returns (outcome: MirrorOutcome)
    requires pageSize > 0
    modifies page
    ensures catalogue.version != EXCHANGE_VERSION ==>
              outcome == UnknownVersion && page.State() == old(page.State())
    ensures catalogue.version == EXCHANGE_VERSION ==>
              var wanted := CatalogueBlocks(catalogue);
              && page.State() == RunOf(old(page.State()), wanted, old(page.writesLeft))
              && outcome == (if IsUpToDate(old(page.blocks), wanted) then Unchanged
                             else if old(page.writesLeft) < |Plan(old(page.blocks), wanted)| then Stopped
                             else Rewritten)
  {
    hide CatalogueBlocks;
    if catalogue.version != EXCHANGE_VERSION {
      return UnknownVersion;
    }
    var wanted := RenderPhrases(catalogue);
    ServedListIsReadWhole(page.blocks, pageSize);
    var current := Children(Served(page.blocks, pageSize));
    var queue := current[Preamble(current)..];
    if Fingerprint(queue) == WantedFingerprint(wanted) {
      return Unchanged;
    }
    CutConcat(page.State(), Deletes(queue), Batches(wanted), page.writesLeft);
    var ok := DeleteQueue(page, queue);
    if !ok {
      return Stopped;
    }
    ok := AppendBatches(page, wanted);
    return if ok then Rewritten else Stopped;
  }

  // -------------------------------------------------------------------------
  // Runs and interrupted runs
  // -------------------------------------------------------------------------

  /** Identifiers on a page are distinct and already drawn. */
  predicate IsPage(s: Remote) {
    && (forall i, j :: 0 <= i < j < |s.blocks| && s.blocks[i].id.Some? ==> s.blocks[i].id != s.blocks[j].id)
    && (forall i :: 0 <= i < |s.blocks| && s.blocks[i].id.Some? ==> s.blocks[i].id.value < s.nextId)
  }

  function Nameless(blocks: seq<Block>): seq<Block> {
    if blocks == [] then []
    else (if blocks[0].id.None? then [blocks[0]] else []) + Nameless(blocks[1..])
  }

  /** One run that the server lets make `k` writes. */
  function RunOf(s: Remote, wanted: seq<Wanted>, k: nat): Remote {
    Perform(s, Cut(Plan(s.blocks, wanted), k))
  }

  lemma {:induction false} WithoutConcat(a: seq<Block>, b: seq<Block>, id: nat)
    ensures Without(a + b, id) == Without(a, id) + Without(b, id)
  {
    if a == [] {
      assert a + b == b;
    } else {
      assert (a + b)[1..] == a[1..] + b;
      WithoutConcat(a[1..], b, id);
    }
  }

  lemma {:induction false} WithoutAStranger(blocks: seq<Block>, id: nat)
    requires forall i :: 0 <= i < |blocks| ==> blocks[i].id != Some(id)
    ensures Without(blocks, id) == blocks
  {
    if blocks != [] {
      WithoutAStranger(blocks[1..], id);
    }
  }

  lemma OnlyOneBearer(s: Remote, a: seq<Block>, block: Block, b: seq<Block>)
    requires IsPage(s) && s.blocks == a + [block] + b && block.id.Some?
    ensures forall i :: 0 <= i < |a| ==> a[i].id != block.id
    ensures forall i :: 0 <= i < |b| ==> b[i].id != block.id
  {
    assert s.blocks[|a|] == block;
    assert forall i :: 0 <= i < |a| ==> s.blocks[i] == a[i];
    assert forall i :: 0 <= i < |b| ==> s.blocks[|a| + 1 + i] == b[i];
  }

  /** Deleting a block of a page takes that block and no other. */
  lemma DeletionTakesOneBlock(s: Remote, a: seq<Block>, block: Block, b: seq<Block>)
    requires IsPage(s) && s.blocks == a + [block] + b && block.id.Some?
    ensures Do(s, Delete(block.id.value)) == s.(blocks := a + b)
    ensures IsPage(s.(blocks := a + b))
  {
    OnlyOneBearer(s, a, block, b);
    IsPageAfterRemoval(s, a, block, b);
    hide IsPage, Without;
    WithoutTheOne(a, block, b);
  }

  lemma WithoutTheOne(a: seq<Block>, block: Block, b: seq<Block>)
    requires block.id.Some?
    requires forall i :: 0 <= i < |a| ==> a[i].id != block.id
    requires forall i :: 0 <= i < |b| ==> b[i].id != block.id
    ensures Without(a + [block] + b, block.id.value) == a + b
  {
    hide Without;
    var id := block.id.value;
    assert block.id == Some(id);
    WithoutAStranger(a, id);
    WithoutAStranger(b, id);
    WithoutItself(block);
    WithoutConcat(a + [block], b, id);
    WithoutConcat(a, [block], id);
    assert a + [] == a;
  }

  lemma WithoutItself(block: Block)
    requires block.id.Some?
    ensures Without([block], block.id.value) == []
  {
    assert [block][1..] == [];
  }

  lemma IsPageAfterRemoval(s: Remote, a: seq<Block>, block: Block, b: seq<Block>)
    requires IsPage(s) && s.blocks == a + [block] + b
    ensures IsPage(s.(blocks := a + b))
  {
    var rest := a + b;
    assert forall i :: 0 <= i < |rest| ==> rest[i] == s.blocks[if i < |a| then i else i + 1];
  }

  /** What is left of a queue once its first `n` blocks were reached. */
  function LeftOf(queue: seq<Block>, n: nat): seq<Block>
    requires n <= |queue|
  {
    Nameless(queue[..n]) + queue[n..]
  }

  lemma LeftOfOneMore(queue: seq<Block>, n: nat)
    requires n < |queue|
    ensures LeftOf(queue, 0) == queue
    ensures LeftOf(queue, n + 1) == (if queue[0].id.None? then [queue[0]] else []) + LeftOf(queue[1..], n)
  {
    assert queue[..n + 1][1..] == queue[1..][..n] && queue[..0] == [];
    assert queue[1..][n..] == queue[n + 1..];
  }

  /** What any number of the deletions leaves: everything before the queue, the nameless blocks
      met so far, and the queue not yet reached. */
  lemma {:induction false} DeletionsLeaveTheRest(s: Remote, kept: seq<Block>, queue: seq<Block>, k: nat)
    returns (reached: nat)
    requires IsPage(s) && s.blocks == kept + queue
    ensures reached <= |queue| && (k >= |Deletes(queue)| ==> reached == |queue|)
    ensures Perform(s, Cut(Deletes(queue), k)) == s.(blocks := kept + LeftOf(queue, reached))
    ensures IsPage(Perform(s, Cut(Deletes(queue), k)))
    decreases |queue|
  {
    NoDeletion(s, queue, k);
    NothingIsLeft(queue);
    hide LeftOf, IsPage, Do, Perform, Cut, Deletes;
    assert queue == [] ==> kept + LeftOf(queue, 0) == s.blocks;
    if queue == [] {
      return 0;
    }
    var rest := queue[1..];
    DeletesOneMore(queue);
    assert queue == [queue[0]] + rest && s.blocks == (kept + [queue[0]]) + rest;
    LeftOfOneMore(queue, 0);
    if queue[0].id.None? {
      reached := DeletionsLeaveTheRest(s, kept + [queue[0]], rest, k);
    } else {
      CutOneMore(s, Delete(queue[0].id.value), Deletes(rest), k);
      if k == 0 {
        return 0;
      }
      DeletionTakesOneBlock(s, kept, queue[0], rest);
      reached := DeletionsLeaveTheRest(s.(blocks := kept + rest), kept, rest, k - 1);
    }
    LeftOfOneMore(queue, reached);
    reached := reached + 1;
  }

  lemma NoDeletion(s: Remote, queue: seq<Block>, k: nat)
    ensures queue == [] ==> Deletes(queue) == [] && Perform(s, Cut(Deletes(queue), k)) == s
  {
  }

  lemma DeletesOneMore(queue: seq<Block>)
    requires queue != []
    ensures Deletes(queue)
         == if queue[0].id.Some? then [Delete(queue[0].id.value)] + Deletes(queue[1..]) else Deletes(queue[1..])
  {
  }

  lemma NothingIsLeft(queue: seq<Block>)
    ensures queue == [] ==> LeftOf(queue, 0) == []
  {
  }

  function Sent(writes: seq<Write>): seq<Wanted> {
    if writes == [] then [] else (if writes[0].Append? then writes[0].children else []) + Sent(writes[1..])
  }

  /** The batches hand over the blocks wanted, each once and in order, one hundred at a time, the last
      batch aside. */
  lemma {:induction false} BatchesJoinBack(wanted: seq<Wanted>)
    ensures Sent(Batches(wanted)) == wanted
    ensures forall i :: 0 <= i < |Batches(wanted)| ==>
              && Batches(wanted)[i].Append? && 0 < |Batches(wanted)[i].children| <= 100
              && (i < |Batches(wanted)| - 1 ==> |Batches(wanted)[i].children| == 100)
    decreases |wanted|
  {
    if wanted != [] {
      var n := if |wanted| <= BATCH then |wanted| else BATCH;
      var rest := Batches(wanted[n..]);
      BatchesJoinBack(wanted[n..]);
      assert Batches(wanted) == [Append(wanted[..n])] + rest && ([Append(wanted[..n])] + rest)[1..] == rest;
      assert wanted[..n] + wanted[n..] == wanted;
      assert n < BATCH ==> rest == [];
      hide Batches;
      assert forall i :: 0 < i < |Batches(wanted)| ==> Batches(wanted)[i] == rest[i - 1];
    }
  }

  function Ids(blocks: seq<Block>): seq<nat> {
    if blocks == [] then [] else (if blocks[0].id.Some? then [blocks[0].id.value] else []) + Ids(blocks[1..])
  }

  /** One deletion for each block of the queue that has an identifier, in its order, and no other
      write. */
  lemma {:induction false} DeletionsFollowTheQueue(queue: seq<Block>)
    ensures |Deletes(queue)| == |Ids(queue)|
    ensures forall i :: 0 <= i < |Deletes(queue)| ==> Deletes(queue)[i] == Delete(Ids(queue)[i])
  {
    if queue != [] {
      DeletionsFollowTheQueue(queue[1..]);
    }
  }

  lemma WrittenInTwo(wanted: seq<Wanted>, n: nat, r: nat, from: nat)
    requires n <= |wanted| && r <= |wanted| - n
    ensures Written(wanted[..n], from) + Written(wanted[n..][..r], from + n) == Written(wanted[..n + r], from)
  {
  }

  /** A first batch, then what later batches add. */
  lemma BatchThenMore(s: Remote, wanted: seq<Wanted>, n: nat, added: nat)
    requires n <= |wanted| && added <= |wanted| - n
    ensures ((t: Remote) => Remote(t.blocks + Written(wanted[n..][..added], t.nextId), t.nextId + added))
              (Do(s, Append(wanted[..n])))
         == Remote(s.blocks + Written(wanted[..n + added], s.nextId), s.nextId + n + added)
  {
    WrittenInTwo(wanted, n, added, s.nextId);
    hide Written;
    assert s.blocks + Written(wanted[..n], s.nextId) + Written(wanted[n..][..added], s.nextId + n)
        == s.blocks + (Written(wanted[..n], s.nextId) + Written(wanted[n..][..added], s.nextId + n));
  }

  lemma NothingWritten(s: Remote, wanted: seq<Wanted>)
    ensures Remote(s.blocks + Written(wanted[..0], s.nextId), s.nextId + 0) == s
  {
  }

  /** What any number of the batches adds: the first blocks wanted, whole batches at a time. */
  lemma {:induction false} BatchesAddAPrefix(s: Remote, wanted: seq<Wanted>, k: nat) returns (added: nat)
    requires IsPage(s)
    ensures added <= |wanted| && (k >= |Batches(wanted)| ==> added == |wanted|)
    ensures Perform(s, Cut(Batches(wanted), k))
         == Remote(s.blocks + Written(wanted[..added], s.nextId), s.nextId + added)
    ensures IsPage(Perform(s, Cut(Batches(wanted), k)))
    decreases |wanted|
  {
    hide IsPage, Written, Do;
    NothingWritten(s, wanted);
    if wanted == [] {
      return 0;
    }
    var n := if |wanted| <= BATCH then |wanted| else BATCH;
    var first, rest := Append(wanted[..n]), wanted[n..];
    assert Batches(wanted) == [first] + Batches(rest);
    CutOneMore(s, first, Batches(rest), k);
    hide Batches, Perform, Cut;
    if k == 0 {
      return 0;
    }
    AppendKeepsAPage(s, wanted[..n]);
    added := BatchesAddAPrefix(Do(s, first), rest, k - 1);
    BatchThenMore(s, wanted, n, added);
    added := n + added;
  }

  lemma AppendKeepsAPage(s: Remote, children: seq<Wanted>)
    requires IsPage(s)
    ensures IsPage(Do(s, Append(children)))
  {
  }

  /** Wherever a run stops, the page is its untouched preamble, what is left of the queue, and,
      once the queue is gone, the first blocks wanted. */
  lemma RunLeaves(s: Remote, wanted: seq<Wanted>, k: nat) returns (reached: nat, added: nat)
    requires IsPage(s) && !IsUpToDate(s.blocks, wanted)
    ensures var p := Preamble(s.blocks);
            var queue := s.blocks[p..];
            && reached <= |queue| && added <= |wanted| && (added > 0 ==> reached == |queue|)
            && RunOf(s, wanted, k) == Remote(
                 s.blocks[..p] + LeftOf(queue, reached) + Written(wanted[..added], s.nextId), s.nextId + added)
            && (k >= |Plan(s.blocks, wanted)| ==> reached == |queue| && added == |wanted|)
    ensures IsPage(RunOf(s, wanted, k))
  {
    hide IsPage, LeftOf;
    var p := Preamble(s.blocks);
    var queue := s.blocks[p..];
    CutConcat(s, Deletes(queue), Batches(wanted), k);
    assert s.blocks == s.blocks[..p] + queue;
    reached := DeletionsLeaveTheRest(s, s.blocks[..p], queue, k);
    added := 0;
    var middle := Perform(s, Cut(Deletes(queue), k));
    if k >= |Deletes(queue)| {
      added := BatchesAddAPrefix(middle, wanted, k - |Deletes(queue)|);
    } else {
      assert middle.blocks + Written(wanted[..0], s.nextId) == middle.blocks;
    }
  }

  /** The first blocks of the page are the same at every point of every run, and identifiers
      stay distinct. */
  lemma PreambleIsNeverTouched(s: Remote, wanted: seq<Wanted>, k: nat)
    requires IsPage(s)
    ensures IsPage(RunOf(s, wanted, k))
    ensures s.blocks[..Preamble(s.blocks)] <= RunOf(s, wanted, k).blocks
  {
    if !IsUpToDate(s.blocks, wanted) {
      var reached, added := RunLeaves(s, wanted, k);
    }
  }

  predicate IsNamed(blocks: seq<Block>) { forall i :: 0 <= i < |blocks| ==> blocks[i].id.Some? }

  lemma {:induction false} NamedBlocksLeaveNothing(blocks: seq<Block>)
    requires IsNamed(blocks)
    ensures Nameless(blocks) == []
  {
    if blocks != [] {
      NamedBlocksLeaveNothing(blocks[1..]);
    }
  }

  /** A whole run brings the page up to date exactly when it already was, or when the page has
      its three blocks of preamble and every block after them can be deleted. Below three
      blocks, the first blocks written are taken for preamble and the next run writes again. */
  lemma WholeRunSettlesExactly(s: Remote, wanted: seq<Wanted>, k: nat)
    requires IsPage(s) && k >= |Plan(s.blocks, wanted)|
    ensures IsUpToDate(RunOf(s, wanted, k).blocks, wanted)
       <==> IsUpToDate(s.blocks, wanted)
            || (|s.blocks| >= PREAMBLE && Nameless(s.blocks[Preamble(s.blocks)..]) == [])
  {
    if !IsUpToDate(s.blocks, wanted) {
      var p := Preamble(s.blocks);
      var queue := s.blocks[p..];
      var reached, added := RunLeaves(s, wanted, k);
      hide IsPage, Plan, RunOf, Nameless;
      assert wanted[..|wanted|] == wanted && queue[..|queue|] == queue && queue[|queue|..] == [];
      assert LeftOf(queue, |queue|) == Nameless(queue);
      assert RunOf(s, wanted, k).blocks == s.blocks[..p] + Nameless(queue) + Written(wanted, s.nextId);
      assert queue == [] ==> Nameless(queue) == [] by { NothingNameless(queue); }
      SettledTail(s.blocks[..p], queue, Nameless(queue), wanted, s.nextId);
    }
  }

  lemma NothingNameless(queue: seq<Block>)
    ensures queue == [] ==> Nameless(queue) == []
  {
  }

  /** What a whole run writes is read back as wanted exactly when nothing stands between the
      preamble and it. */
  lemma SettledTail(front: seq<Block>, queue: seq<Block>, left: seq<Block>, wanted: seq<Wanted>, from: nat)
    requires |front| <= PREAMBLE && (|front| < PREAMBLE ==> queue == [] && left == [])
    requires Fingerprint(queue) != WantedFingerprint(wanted)
    ensures IsUpToDate(front + left + Written(wanted, from), wanted) <==> |front| == PREAMBLE && left == []
  {
    var after := front + left + Written(wanted, from);
    assert Fingerprint(Written(wanted, from)) == WantedFingerprint(wanted);
    if |front| == PREAMBLE {
      assert after[PREAMBLE..] == left + Written(wanted, from);
      assert |Fingerprint(after[PREAMBLE..])| == |left| + |wanted|;
      if left == [] {
        assert after[PREAMBLE..] == Written(wanted, from);
      }
    } else {
      assert wanted == [] ==> Fingerprint(queue) == WantedFingerprint(wanted);
      assert |Fingerprint(after[Preamble(after)..])| < |WantedFingerprint(wanted)|;
    }
  }

  /** Runs the server interrupts one after the other. */
  function Interrupted(s: Remote, wanted: seq<Wanted>, cuts: seq<nat>): Remote {
    if cuts == [] then s else RunOf(Interrupted(s, wanted, cuts[..|cuts| - 1]), wanted, cuts[|cuts| - 1])
  }

  lemma RunKeepsNamed(s: Remote, wanted: seq<Wanted>, k: nat)
    requires IsPage(s) && IsNamed(s.blocks)
    ensures IsNamed(RunOf(s, wanted, k).blocks)
  {
    if !IsUpToDate(s.blocks, wanted) {
      var reached, added := RunLeaves(s, wanted, k);
      NamedBlocksLeaveNothing(s.blocks[Preamble(s.blocks)..][..reached]);
    }
  }

  lemma {:induction false} InterruptedRunsKeepThePreamble(s: Remote, wanted: seq<Wanted>, cuts: seq<nat>)
    requires IsPage(s) && IsNamed(s.blocks) && |s.blocks| >= PREAMBLE
    ensures var now := Interrupted(s, wanted, cuts);
            && IsPage(now) && IsNamed(now.blocks) && |now.blocks| >= PREAMBLE
            && now.blocks[..PREAMBLE] == s.blocks[..PREAMBLE]
  {
    hide IsPage, IsNamed, RunOf;
    if cuts != [] {
      var before := Interrupted(s, wanted, cuts[..|cuts| - 1]);
      InterruptedRunsKeepThePreamble(s, wanted, cuts[..|cuts| - 1]);
      PreambleIsNeverTouched(before, wanted, cuts[|cuts| - 1]);
      RunKeepsNamed(before, wanted, cuts[|cuts| - 1]);
    }
  }

  /** However many runs were interrupted, and wherever: one whole run ends with the untouched
      preamble followed by the blocks wanted, and the next run writes nothing. */
  lemma OneWholeRunRecovers(s: Remote, wanted: seq<Wanted>, cuts: seq<nat>, k: nat)
    requires IsPage(s) && IsNamed(s.blocks) && |s.blocks| >= PREAMBLE
    requires k >= |Plan(Interrupted(s, wanted, cuts).blocks, wanted)|
    ensures var after := RunOf(Interrupted(s, wanted, cuts), wanted, k);
            && |after.blocks| >= PREAMBLE && after.blocks[..PREAMBLE] == s.blocks[..PREAMBLE]
            && Fingerprint(after.blocks[PREAMBLE..]) == WantedFingerprint(wanted)
            && Plan(after.blocks, wanted) == []
  {
    hide IsPage, RunOf, Nameless;
    var now := Interrupted(s, wanted, cuts);
    InterruptedRunsKeepThePreamble(s, wanted, cuts);
    PreambleIsNeverTouched(now, wanted, k);
    NamedBlocksLeaveNothing(now.blocks[Preamble(now.blocks)..]);
    WholeRunSettlesExactly(now, wanted, k);
  }

  // -------------------------------------------------------------------------
  // Whole runs one after the other
  // -------------------------------------------------------------------------

  function WholeRun(s: Remote, wanted: seq<Wanted>): Remote { RunOf(s, wanted, |Plan(s.blocks, wanted)|) }

  function WholeRuns(s: Remote, wanted: seq<Wanted>, n: nat): Remote {
    if n == 0 then s else WholeRun(WholeRuns(s, wanted, n - 1), wanted)
  }

  lemma WholeRunLeaves(s: Remote, wanted: seq<Wanted>)
    requires IsPage(s)
    ensures IsPage(WholeRun(s, wanted))
    ensures IsUpToDate(s.blocks, wanted) ==> WholeRun(s, wanted) == s
    ensures !IsUpToDate(s.blocks, wanted) ==>
              var p := Preamble(s.blocks);
              WholeRun(s, wanted)
              == Remote(s.blocks[..p] + Nameless(s.blocks[p..]) + Written(wanted, s.nextId), s.nextId + |wanted|)
  {
    if IsUpToDate(s.blocks, wanted) {
      assert Cut<Write>([], 0) == [];
    } else {
      var queue := s.blocks[Preamble(s.blocks)..];
      var reached, added := RunLeaves(s, wanted, |Plan(s.blocks, wanted)|);
      hide IsPage, Plan, RunOf, Nameless, Written;
      assert wanted[..|wanted|] == wanted && queue[..|queue|] == queue && queue[|queue|..] == [];
      assert LeftOf(queue, |queue|) == Nameless(queue);
    }
  }

  /** Whole runs that a page of `size` blocks needs to reach three, `written` blocks at a time. */
  function RunsToFill(size: nat, written: nat): nat
    requires written > 0
    decreases PREAMBLE - size
  {
    if size >= PREAMBLE then 0 else 1 + RunsToFill(size + written, written)
  }

  function Repeated(texts: seq<(string, string)>, n: nat): seq<(string, string)> {
    if n == 0 then [] else Repeated(texts, n - 1) + texts
  }

  predicate IsNamedFrom(blocks: seq<Block>, from: nat) {
    forall i :: from <= i < |blocks| ==> blocks[i].id.Some?
  }

  /** A run over a short page only adds to it. */
  lemma ShortRun(s: Remote, wanted: seq<Wanted>, from: nat)
    requires IsPage(s) && |s.blocks| < PREAMBLE && wanted != [] && IsNamedFrom(s.blocks, from)
    ensures var after := WholeRun(s, wanted);
            && !IsUpToDate(s.blocks, wanted) && IsPage(after) && IsNamedFrom(after.blocks, from)
            && |after.blocks| == |s.blocks| + |wanted|
            && Fingerprint(after.blocks) == Fingerprint(s.blocks) + WantedFingerprint(wanted)
  {
    assert s.blocks[..|s.blocks|] == s.blocks && s.blocks[|s.blocks|..] == [];
    assert |Fingerprint(s.blocks[|s.blocks|..])| != |WantedFingerprint(wanted)|;
    WholeRunLeaves(s, wanted);
    NothingNameless(s.blocks[|s.blocks|..]);
    hide IsPage, WholeRun, Nameless;
    FreshBlocksAreRead(s.blocks, wanted, s.nextId);
    hide Written, Fingerprint, WantedFingerprint;
  }

  lemma FreshBlocksAreRead(blocks: seq<Block>, wanted: seq<Wanted>, from: nat)
    ensures Fingerprint(blocks + Written(wanted, from)) == Fingerprint(blocks) + WantedFingerprint(wanted)
    ensures blocks + [] + Written(wanted, from) == blocks + Written(wanted, from)
    ensures forall i :: |blocks| <= i < |blocks| + |wanted| ==> (blocks + Written(wanted, from))[i].id.Some?
  {
  }

  /** Up to the run that fills the preamble, each run appends the blocks wanted once more. */
  lemma {:induction false} ShortPageFillsUp(s: Remote, wanted: seq<Wanted>, n: nat)
    requires IsPage(s) && |s.blocks| < PREAMBLE && wanted != [] && n <= RunsToFill(|s.blocks|, |wanted|)
    ensures var now := WholeRuns(s, wanted, n);
            && IsPage(now) && IsNamedFrom(now.blocks, |s.blocks|)
            && Fingerprint(now.blocks) == Fingerprint(s.blocks) + Repeated(WantedFingerprint(wanted), n)
            && |now.blocks| == |s.blocks| + n * |wanted|
            && RunsToFill(|now.blocks|, |wanted|) == RunsToFill(|s.blocks|, |wanted|) - n
            && (n > 0 ==> |now.blocks| - |wanted| < PREAMBLE)
            && (n < RunsToFill(|s.blocks|, |wanted|) ==> !IsUpToDate(now.blocks, wanted))
  {
    hide IsPage, WholeRun, IsUpToDate, Fingerprint, WantedFingerprint;
    if n > 0 {
      var before := WholeRuns(s, wanted, n - 1);
      ShortPageFillsUp(s, wanted, n - 1);
      ShortRun(before, wanted, |s.blocks|);
      var now := WholeRuns(s, wanted, n);
      assert n * |wanted| == (n - 1) * |wanted| + |wanted|;
      RepeatedOnceMore(Fingerprint(s.blocks), WantedFingerprint(wanted), n);
      hide Repeated;
      if |now.blocks| < PREAMBLE {
        ShortRun(now, wanted, |s.blocks|);
      }
    } else {
      FingerprintKeepsNothing(s.blocks, WantedFingerprint(wanted));
      ShortRun(s, wanted, |s.blocks|);
    }
  }

  lemma RepeatedOnceMore(first: seq<(string, string)>, texts: seq<(string, string)>, n: nat)
    requires n > 0
    ensures first + Repeated(texts, n - 1) + texts == first + Repeated(texts, n)
  {
  }

  lemma FingerprintKeepsNothing(blocks: seq<Block>, texts: seq<(string, string)>)
    ensures Fingerprint(blocks) == Fingerprint(blocks) + Repeated(texts, 0)
  {
  }

  /** The page just filled holds too little behind its preamble, and all of it can be deleted. */
  lemma FilledPageSettlesNext(now: Remote, wanted: seq<Wanted>, from: nat)
    requires IsPage(now) && from < PREAMBLE <= |now.blocks| < PREAMBLE + |wanted| && IsNamedFrom(now.blocks, from)
    ensures !IsUpToDate(now.blocks, wanted)
    ensures var after := WholeRun(now, wanted);
            && IsPage(after) && IsUpToDate(after.blocks, wanted)
            && |after.blocks| >= PREAMBLE && after.blocks[..PREAMBLE] == now.blocks[..PREAMBLE]
  {
    assert |Fingerprint(now.blocks[PREAMBLE..])| < |WantedFingerprint(wanted)|;
    NamedBlocksLeaveNothing(now.blocks[PREAMBLE..]);
    WholeRunLeaves(now, wanted);
    WholeRunSettlesExactly(now, wanted, |Plan(now.blocks, wanted)|);
    hide IsPage, IsUpToDate, Nameless, Written;
    assert WholeRun(now, wanted).blocks == now.blocks[..PREAMBLE] + Written(wanted, now.nextId);
  }

  lemma {:induction false} SettledPageStays(s: Remote, wanted: seq<Wanted>, m: nat, n: nat)
    requires m <= n && IsPage(WholeRuns(s, wanted, m)) && IsUpToDate(WholeRuns(s, wanted, m).blocks, wanted)
    ensures WholeRuns(s, wanted, n) == WholeRuns(s, wanted, m)
  {
    hide IsPage, IsUpToDate, WholeRun;
    if m < n {
      SettledPageStays(s, wanted, m, n - 1);
      WholeRunLeaves(WholeRuns(s, wanted, n - 1), wanted);
    }
  }

  /** A page of fewer than three blocks is up to date after exactly as many whole runs as it
      needs to reach three blocks, and one more. Its preamble then is its own blocks followed by
      the first blocks written, and what follows is the blocks wanted. */
  lemma ShortPageSettlesExactly(s: Remote, wanted: seq<Wanted>, n: nat)
    requires IsPage(s) && |s.blocks| < PREAMBLE && wanted != []
    ensures var fill := RunsToFill(|s.blocks|, |wanted|);
            var now := WholeRuns(s, wanted, n).blocks;
            && (IsUpToDate(now, wanted) <==> n > fill)
            && (n > fill ==>
                  && |now| >= PREAMBLE && Fingerprint(now[PREAMBLE..]) == WantedFingerprint(wanted)
                  && Fingerprint(now[..PREAMBLE])
                     == Cut(Fingerprint(s.blocks) + Repeated(WantedFingerprint(wanted), fill), PREAMBLE))
  {
    hide IsPage, WholeRun, IsNamedFrom;
    var fill := RunsToFill(|s.blocks|, |wanted|);
    if n < fill {
      ShortPageFillsUp(s, wanted, n);
    } else {
      ShortPageFillsUp(s, wanted, fill);
      var filled := WholeRuns(s, wanted, fill);
      FilledPageSettlesNext(filled, wanted, |s.blocks|);
      if n > fill {
        SettledPageStays(s, wanted, fill + 1, n);
        hide RunsToFill;
        FingerprintOfAPrefix(filled.blocks, PREAMBLE);
      }
    }
  }

  lemma FingerprintOfAPrefix(blocks: seq<Block>, n: nat)
    requires n <= |blocks|
    ensures Fingerprint(blocks[..n]) == Cut(Fingerprint(blocks), n)
  {
  }

  lemma {:induction false} NamelessIsFinal(a: seq<Block>, b: seq<Block>)
    requires IsNamed(b)
    ensures Nameless(Nameless(a) + b) == Nameless(a)
  {
    if a == [] {
      assert Nameless(a) + b == b;
      NamedBlocksLeaveNothing(b);
    } else {
      NamelessIsFinal(a[1..], b);
      if a[0].id.None? {
        var rest := Nameless(a[1..]) + b;
        assert Nameless(a) + b == [a[0]] + rest && ([a[0]] + rest)[1..] == rest;
      } else {
        assert Nameless(a) == Nameless(a[1..]);
      }
    }
  }

  lemma {:induction false} StuckPageStays(s: Remote, wanted: seq<Wanted>, n: nat)
    requires IsPage(s) && |s.blocks| >= PREAMBLE
    requires !IsUpToDate(s.blocks, wanted) && Nameless(s.blocks[PREAMBLE..]) != []
    ensures var now := WholeRuns(s, wanted, n);
            && IsPage(now) && |now.blocks| >= PREAMBLE
            && !IsUpToDate(now.blocks, wanted) && Nameless(now.blocks[PREAMBLE..]) != []
  {
    hide IsPage, IsUpToDate, Nameless, WholeRun;
    if n > 0 {
      StuckPageStays(s, wanted, n - 1);
      StuckRun(WholeRuns(s, wanted, n - 1), wanted);
    }
  }

  lemma StuckRun(s: Remote, wanted: seq<Wanted>)
    requires IsPage(s) && |s.blocks| >= PREAMBLE
    requires !IsUpToDate(s.blocks, wanted) && Nameless(s.blocks[PREAMBLE..]) != []
    ensures var now := WholeRun(s, wanted);
            && IsPage(now) && |now.blocks| >= PREAMBLE
            && !IsUpToDate(now.blocks, wanted) && Nameless(now.blocks[PREAMBLE..]) != []
  {
    hide IsPage, IsUpToDate, Nameless, RunOf, Plan;
    WholeRunLeaves(s, wanted);
    WholeRunSettlesExactly(s, wanted, |Plan(s.blocks, wanted)|);
    var written := Written(wanted, s.nextId);
    NamelessIsFinal(s.blocks[PREAMBLE..], written);
    hide Written;
    TailBehind(s.blocks[..PREAMBLE], Nameless(s.blocks[PREAMBLE..]), written);
  }

  lemma TailBehind(a: seq<Block>, b: seq<Block>, c: seq<Block>)
    ensures (a + b + c)[|a|..] == b + c
  {
  }

  /** Whole runs come to an end, for every page, exactly when it is already up to date, is short,
      or can delete what follows its preamble. */
  lemma RunsSettleExactly(s: Remote, wanted: seq<Wanted>)
    requires IsPage(s)
    ensures (exists n: nat :: IsUpToDate(WholeRuns(s, wanted, n).blocks, wanted))
       <==> IsUpToDate(s.blocks, wanted) || |s.blocks| < PREAMBLE || Nameless(s.blocks[PREAMBLE..]) == []
  {
    hide IsPage;
    assert WholeRuns(s, wanted, 0) == s;
    if |s.blocks| < PREAMBLE {
      if wanted == [] {
        assert IsUpToDate(WholeRuns(s, wanted, 0).blocks, wanted);
      } else {
        var n := RunsToFill(|s.blocks|, |wanted|) + 1;
        ShortPageSettlesExactly(s, wanted, n);
        assert IsUpToDate(WholeRuns(s, wanted, n).blocks, wanted);
      }
    } else if Nameless(s.blocks[PREAMBLE..]) == [] {
      WholeRunSettlesExactly(s, wanted, |Plan(s.blocks, wanted)|);
      var n: nat := 1;
      assert WholeRuns(s, wanted, n) == WholeRun(s, wanted);
      assert IsUpToDate(WholeRuns(s, wanted, n).blocks, wanted);
    } else if !IsUpToDate(s.blocks, wanted) {
      forall n: nat ensures !IsUpToDate(WholeRuns(s, wanted, n).blocks, wanted) {
        StuckPageStays(s, wanted, n);
      }
    } else {
      assert IsUpToDate(WholeRuns(s, wanted, 0).blocks, wanted);
    }
  }
}
