/** Letter tokens rewritten between their Notion and their vault spelling by successive
    replacements (scripts/echange_notion.py). */
module Tokens {

  datatype Pair = Pair(source: string, target: string)

  type Table = seq<Pair>

  const VERS_COFFRE: Table := [
    Pair("<signature>", "{{signature}}"),
    Pair("<constat>", "{{constat}}"),
    Pair("<montant>", "{{montant}}"),
    Pair("<société>", "{{societe}}"),
    Pair("<contact>", "{{contact}}"),
    Pair("<prénom>", "{{prenom}}"),
    Pair("<client>", "{{client}}"),
    Pair("<genre>", "{{civility}}"),
    Pair("<sujet>", "{{sujet}}"),
    Pair("<nom>", "{{family_name}}"),
    Pair("<moi>", "{{moi}}")]

  function TurnedRound(table: Table, order: seq<nat>): Table
    requires forall i :: 0 <= i < |order| ==> order[i] < |table|
  {
    seq(|order|, i requires 0 <= i < |order| => Pair(table[order[i]].target, table[order[i]].source))
  }

  /** The vault spellings, longest first, a tie in table order. */
  const LONGEST_FIRST: seq<nat> := [9, 0, 7, 1, 2, 3, 4, 5, 6, 8, 10]

  const VERS_NOTION: Table := TurnedRound(VERS_COFFRE, LONGEST_FIRST)

  /** Python's `str.replace`: leftmost occurrences, without overlap, never read again. */
  function Replace(text: string, source: string, target: string): string
    requires source != ""
    decreases |text|
  {
    if text == "" then ""
    else if source <= text then target + Replace(text[|source|..], source, target)
    else [text[0]] + Replace(text[1..], source, target)
  }

  predicate HasSources(table: Table) { forall p :: p in table ==> p.source != "" }

  /** One pass after another, in table order. */
  function Passes(text: string, table: Table): string
    requires HasSources(table)
    decreases |table|
  {
    if table == [] then text else Passes(Replace(text, table[0].source, table[0].target), table[1..])
  }

  method Rewrite(text: string, table: Table) returns (rewritten: string)
    requires HasSources(table)
    ensures rewritten == Passes(text, table)
  {
    rewritten := text;
    for i := 0 to |table|
      invariant Passes(rewritten, table[i..]) == Passes(text, table)
    {
      assert table[i..][0] == table[i] && table[i..][1..] == table[i + 1..];
      rewritten := Replace(rewritten, table[i].source, table[i].target);
    }
  }

  // -------------------------------------------------------------------------
  // Tokens that cannot straddle
  // -------------------------------------------------------------------------

  predicate IsInner(c: char) { c !in "<>{}" }

  predicate IsAngle(s: string) {
    |s| >= 3 && s[0] == '<' && s[|s| - 1] == '>' && forall i :: 0 < i < |s| - 1 ==> IsInner(s[i])
  }

  predicate IsBrace(s: string) {
    && |s| >= 5 && s[0] == s[1] == '{' && s[|s| - 2] == s[|s| - 1] == '}'
    && forall i :: 1 < i < |s| - 2 ==> IsInner(s[i])
  }

  predicate IsToken(s: string) { IsAngle(s) || IsBrace(s) }

  predicate AreComparable(a: string, b: string) { a <= b || b <= a }

  /** Nowhere can an occurrence of one begin inside an occurrence of the other. */
  predicate AreSeparate(s: string, w: string) {
    && (forall q :: 0 < q < |s| ==> !AreComparable(s[q..], w))
    && (forall q :: 0 < q < |w| ==> !AreComparable(w[q..], s))
    && (s != w ==> !AreComparable(s, w))
  }

  lemma NoTokenBeginsInside(s: string, w: string, q: nat)
    requires IsToken(s) && IsToken(w) && 0 < q < |s|
    ensures !AreComparable(s[q..], w)
  {
    if s[q] == w[0] {
      assert s[q..][1] == s[q + 1] && IsInner(s[q + 1]);
    } else {
      assert s[q..][0] == s[q];
    }
  }

  lemma PrefixEndsAlike(s: string, w: string)
    ensures s <= w && |s| >= 2 ==> s[|s| - 1] == w[|s| - 1] && s[|s| - 2] == w[|s| - 2]
  {
  }

  lemma TokensAreSeparate(s: string, w: string)
    requires IsToken(s) && IsToken(w)
    ensures AreSeparate(s, w)
  {
    forall q | 0 < q < |s| {
      NoTokenBeginsInside(s, w, q);
    }
    forall q | 0 < q < |w| {
      NoTokenBeginsInside(w, s, q);
    }
    PrefixEndsAlike(s, w);
    PrefixEndsAlike(w, s);
  }

  /** A table of tokens with distinct sources, none of which is a target. */
  predicate IsCode(table: Table) {
    && (forall p :: p in table ==> IsToken(p.source) && IsToken(p.target))
    && (forall p, q :: p in table && q in table && p.source == q.source ==> p == q)
    && (forall p, q :: p in table && q in table ==> p.source != q.target)
  }

  // -------------------------------------------------------------------------
  // Texts as characters and tokens
  // -------------------------------------------------------------------------

  datatype Item = Char(c: char) | Token(pair: Pair)

  /** The pair whose source begins the text, if any. */
  function Match(text: string, table: Table): (p: seq<Pair>)
    ensures |p| <= 1 && (p != [] ==> p[0] in table && p[0].source <= text)
    ensures p == [] ==> forall q :: q in table ==> !(q.source <= text)
  {
    if table == [] then []
    else if table[0].source <= text then [table[0]]
    else Match(text, table[1..])
  }

  function Parse(text: string, table: Table): (items: seq<Item>)
    requires HasSources(table)
    ensures forall i :: 0 <= i < |items| && items[i].Token? ==> items[i].pair in table
    decreases |text|
  {
    if text == "" then []
    else
      var p := Match(text, table);
      if p != [] then [Token(p[0])] + Parse(text[|p[0].source|..], table)
      else [Char(text[0])] + Parse(text[1..], table)
  }

  /** The text with the pairs of `done` in their target spelling. */
  function Render(items: seq<Item>, done: set<Pair>): string {
    if items == [] then ""
    else
      (match items[0]
       case Char(c) => [c]
       case Token(p) => if p in done then p.target else p.source)
      + Render(items[1..], done)
  }

  /** Every source at once. */
  function Simultaneous(text: string, table: Table): string
    requires HasSources(table)
  {
    Render(Parse(text, table), Pairs(table))
  }

  function Pairs(table: Table): set<Pair> { set p | p in table }

  /** No source of the table is spelled by the plain characters, and every token is the table's. */
  predicate IsClean(items: seq<Item>, table: Table) {
    items == [] ||
    (&& IsClean(items[1..], table)
     && match items[0]
        case Token(p) => p in table
        case Char(_) => forall p :: p in table ==> !(p.source <= Render(items, {})))
  }

  lemma {:induction false} ParseRendersBack(text: string, table: Table)
    requires HasSources(table)
    ensures Render(Parse(text, table), {}) == text
    decreases |text|
  {
    if text != "" {
      var p := Match(text, table);
      ParseRendersBack(if p != [] then text[|p[0].source|..] else text[1..], table);
    }
  }

  lemma {:induction false} ParseIsClean(text: string, table: Table)
    requires HasSources(table)
    ensures IsClean(Parse(text, table), table)
    decreases |text|
  {
    if text != "" {
      ParseRendersBack(text, table);
      var p := Match(text, table);
      var rest := if p != [] then text[|p[0].source|..] else text[1..];
      ParseIsClean(rest, table);
      assert Parse(text, table)[1..] == Parse(rest, table);
    }
  }

  lemma PrefixesAreComparable(s: string, w: string, rest: string)
    ensures s <= w + rest ==> AreComparable(w, s)
  {
    if s <= w + rest {
      assert |s| <= |w| ==> s == (w + rest)[..|s|] == w[..|s|];
      assert |w| <= |s| ==> w == (w + rest)[..|w|] == s[..|w|];
    }
  }

  lemma PrefixOfACharacter(s: string, c: char, rest: string)
    requires s != ""
    ensures s <= [c] + rest <==> s[0] == c && s[1..] <= rest
  {
    assert s == [s[0]] + s[1..];
  }

  /** A token that begins at a plain character is spelled by plain characters only, so it is
      there whatever the spelling of the tokens. */
  lemma {:induction false} TailIsPlain(s: string, q: nat, items: seq<Item>, done: set<Pair>, table: Table)
    requires IsToken(s) && 0 < q <= |s|
    requires IsCode(table) && IsClean(items, table)
    ensures s[q..] <= Render(items, done) ==> s[q..] <= Render(items, {})
    decreases |s| - q
  {
    hide IsAngle, IsBrace;
    if q < |s| && items != [] {
      match items[0]
      case Char(c) =>
        TailIsPlain(s, q + 1, items[1..], done, table);
        assert s[q..][1..] == s[q + 1..];
        PrefixOfACharacter(s[q..], c, Render(items[1..], done));
        PrefixOfACharacter(s[q..], c, Render(items[1..], {}));
      case Token(p) =>
        var w := if p in done then p.target else p.source;
        TokensAreSeparate(s, w);
        assert !AreComparable(s[q..], w);
        PrefixesAreComparable(s[q..], w, Render(items[1..], done));
    }
  }

  // -------------------------------------------------------------------------
  // Successive passes are one simultaneous replacement
  // -------------------------------------------------------------------------

  function Spelling(p: Pair, done: set<Pair>): string { if p in done then p.target else p.source }

  lemma OneCharacterIsCopied(text: string, source: string, target: string)
    requires text != "" && source != "" && !(source <= text)
    ensures Replace(text, source, target) == [text[0]] + Replace(text[1..], source, target)
  {
  }

  /** A token other than the source is copied through a pass. */
  lemma {:induction false} PassSkipsAToken(w: string, k: nat, rest: string, source: string, target: string)
    requires IsToken(w) && IsToken(source) && w != source && k <= |w|
    ensures Replace(w[k..] + rest, source, target) == w[k..] + Replace(rest, source, target)
    decreases |w| - k
  {
    hide IsAngle, IsBrace;
    if k < |w| {
      var text := w[k..] + rest;
      TokensAreSeparate(source, w);
      assert !AreComparable(w[k..], source) by { assert k == 0 ==> w[0..] == w; }
      assert !(source <= text) by { PrefixesAreComparable(source, w[k..], rest); }
      assert text[0] == w[k] && text[1..] == w[k + 1..] + rest && w[k..] == [w[k]] + w[k + 1..];
      PassSkipsAToken(w, k + 1, rest, source, target);
      OneCharacterIsCopied(text, source, target);
      hide Replace;
    } else {
      assert w[k..] + rest == rest;
    }
  }

  /** What a plain character begins, respelled or not, is spelled by plain characters. */
  lemma PlainCharacterBeginsTheSame(items: seq<Item>, done: set<Pair>, table: Table, s: string)
    requires IsCode(table) && IsClean(items, table) && items != [] && items[0].Char? && IsToken(s)
    ensures s <= Render(items, done) ==> s <= Render(items, {})
  {
    assert |s| >= 3;
    hide IsAngle, IsBrace;
    TailIsPlain(s, 1, items[1..], done, table);
    PrefixOfACharacter(s, items[0].c, Render(items[1..], done));
    PrefixOfACharacter(s, items[0].c, Render(items[1..], {}));
  }

  /** A plain character does not begin a source, whatever was respelled after it. */
  lemma PlainCharacterBeginsNoSource(items: seq<Item>, done: set<Pair>, table: Table, p: Pair)
    requires IsCode(table) && p in table && IsClean(items, table) && items != [] && items[0].Char?
    ensures !(p.source <= Render(items, done))
  {
    PlainCharacterBeginsTheSame(items, done, table, p.source);
  }

  /** One pass respells one pair and nothing else. */
  lemma {:induction false} PassRespellsOnePair(items: seq<Item>, done: set<Pair>, table: Table, p: Pair)
    requires IsCode(table) && IsClean(items, table) && p in table && p !in done
    ensures Replace(Render(items, done), p.source, p.target) == Render(items, done + {p})
  {
    assert IsToken(p.source) && p.source != "";
    hide IsAngle, IsBrace;
    if items != [] {
      var rest := items[1..];
      PassRespellsOnePair(rest, done, table, p);
      match items[0]
      case Char(c) => PlainCharacterBeginsNoSource(items, done, table, p);
      case Token(q) =>
        var w := Spelling(q, done);
        if q == p {
          assert (w + Render(rest, done))[|w|..] == Render(rest, done);
        } else {
          PassSkipsAToken(w, 0, Render(rest, done), p.source, p.target);
          assert w[0..] == w;
        }
    }
  }

  lemma {:induction false} PassesRespellTheTable(items: seq<Item>, done: set<Pair>, table: Table, left: Table)
    requires IsCode(table) && IsClean(items, table) && HasSources(left)
    requires forall p :: p in left ==> p in table && p !in done
    requires forall i, j :: 0 <= i < j < |left| ==> left[i] != left[j]
    ensures Passes(Render(items, done), left) == Render(items, done + Pairs(left))
    decreases |left|
  {
    if left == [] {
      assert done + Pairs(left) == done;
    } else {
      PassRespellsOnePair(items, done, table, left[0]);
      assert done + {left[0]} + Pairs(left[1..]) == done + Pairs(left);
      PassesRespellTheTable(items, done + {left[0]}, table, left[1..]);
    }
  }

  predicate IsListed(table: Table) { forall i, j :: 0 <= i < j < |table| ==> table[i] != table[j] }

  lemma CodesHaveSources(table: Table)
    requires IsCode(table)
    ensures HasSources(table)
  {
  }

  /** The passes of a table, one after the other, replace every source at once. */
  lemma PassesAreSimultaneous(text: string, table: Table)
    requires IsCode(table) && IsListed(table)
    ensures HasSources(table)
    ensures Passes(text, table) == Simultaneous(text, table)
  {
    CodesHaveSources(table);
    ParseRendersBack(text, table);
    ParseIsClean(text, table);
    PassesRespellTheTable(Parse(text, table), {}, table, table);
    assert {} + Pairs(table) == Pairs(table);
  }

  lemma MatchIgnoresTheOrder(text: string, a: Table, b: Table)
    requires IsCode(a) && Pairs(a) == Pairs(b)
    ensures Match(text, a) == Match(text, b)
  {
    assert forall p :: p in a <==> p in Pairs(a);
    assert forall p :: p in b <==> p in Pairs(b);
    var p, q := Match(text, a), Match(text, b);
    if p != [] && q != [] {
      TokensAreSeparate(p[0].source, q[0].source);
      assert AreComparable(p[0].source, q[0].source);
    }
  }

  lemma {:induction false} ParseIgnoresTheOrder(text: string, a: Table, b: Table)
    requires IsCode(a) && Pairs(a) == Pairs(b) && HasSources(a) && HasSources(b)
    ensures Parse(text, a) == Parse(text, b)
    decreases |text|
  {
    if text != "" {
      MatchIgnoresTheOrder(text, a, b);
      var p := Match(text, a);
      ParseIgnoresTheOrder(if p != [] then text[|p[0].source|..] else text[1..], a, b);
    }
  }

  /** The result does not depend on the order of the table. */
  lemma PassesIgnoreTheOrder(text: string, a: Table, b: Table)
    requires IsCode(a) && IsListed(a) && IsListed(b) && Pairs(a) == Pairs(b)
    ensures HasSources(a) && HasSources(b)
    ensures Passes(text, a) == Passes(text, b)
  {
    assert forall p :: p in b <==> p in Pairs(b);
    assert forall p :: p in a <==> p in Pairs(a);
    assert IsCode(b);
    PassesAreSimultaneous(text, a);
    PassesAreSimultaneous(text, b);
    ParseIgnoresTheOrder(text, a, b);
  }

  // -------------------------------------------------------------------------
  // Round trips
  // -------------------------------------------------------------------------

  predicate Occurs(token: string, text: string) { exists i :: 0 <= i <= |text| && token <= text[i..] }

  predicate IsFreeOfTargets(text: string, table: Table) { forall p :: p in table ==> !Occurs(p.target, text) }

  predicate IsFreeOfSources(text: string, table: Table) { forall p :: p in table ==> !Occurs(p.source, text) }

  /** The two tables hold the same pairs, each the other way round. */
  predicate AreInverse(table: Table, back: Table) {
    && (forall p :: p in table ==> Pair(p.target, p.source) in back)
    && (forall p :: p in back ==> Pair(p.target, p.source) in table)
  }

  function Swapped(items: seq<Item>): seq<Item> {
    if items == [] then []
    else [match items[0] case Char(c) => Char(c) case Token(p) => Token(Pair(p.target, p.source))] + Swapped(items[1..])
  }

  lemma {:induction false} SwappedRendersBack(items: seq<Item>, table: Table, back: Table)
    requires IsClean(items, table) && AreInverse(table, back)
    ensures Render(Swapped(items), Pairs(back)) == Render(items, {})
  {
    if items != [] {
      SwappedRendersBack(items[1..], table, back);
    }
  }

  lemma OccursLater(token: string, text: string, k: nat)
    requires k <= |text|
    ensures Occurs(token, text[k..]) ==> Occurs(token, text)
  {
    if Occurs(token, text[k..]) {
      var i :| 0 <= i <= |text| - k && token <= text[k..][i..];
      assert text[k..][i..] == text[k + i..];
    }
  }

  /** Respelled whole, a text without any target spelling parses back to the same tokens. */
  lemma {:induction false} RespelledTextParsesBack(items: seq<Item>, table: Table, back: Table)
    requires IsCode(table) && IsCode(back) && AreInverse(table, back) && HasSources(back)
    requires IsClean(items, table) && IsFreeOfTargets(Render(items, {}), table)
    ensures Parse(Render(items, Pairs(table)), back) == Swapped(items)
  {
    if items != [] {
      var text, plain, rest := Render(items, Pairs(table)), Render(items, {}), items[1..];
      var w := match items[0] case Char(c) => [c] case Token(p) => p.source;
      assert plain[|w|..] == Render(rest, {});
      forall p | p in table
        ensures !Occurs(p.target, Render(rest, {}))
      {
        OccursLater(p.target, plain, |w|);
      }
      RespelledTextParsesBack(rest, table, back);
      match items[0]
      case Char(c) =>
        forall q | q in back
          ensures !(q.source <= text)
        {
          TargetIsNotSpelled(items, table, q.source, Pair(q.target, q.source));
        }
        assert Match(text, back) == [];
      case Token(p) =>
        var q := Pair(p.target, p.source);
        assert q in back && q.source <= text;
        MatchIsTheOnlyOne(text, back, q);
        assert text[|q.source|..] == Render(rest, Pairs(table));
    }
  }

  lemma TargetIsNotSpelled(items: seq<Item>, table: Table, target: string, p: Pair)
    requires IsCode(table) && IsClean(items, table) && items != [] && items[0].Char?
    requires p in table && p.target == target && !Occurs(target, Render(items, {}))
    ensures !(target <= Render(items, Pairs(table)))
  {
    assert Render(items, {})[0..] == Render(items, {});
    PlainCharacterBeginsTheSame(items, Pairs(table), table, target);
  }

  lemma MatchIsTheOnlyOne(text: string, table: Table, p: Pair)
    requires IsCode(table) && p in table && p.source <= text
    ensures Match(text, table) == [p]
  {
    var q := Match(text, table);
    assert q != [];
    TokensAreSeparate(q[0].source, p.source);
    assert AreComparable(q[0].source, p.source);
  }

  lemma NoSourceBeginsInAToken(source: string, w: string, i: nat, rest: string)
    requires IsToken(source) && IsToken(w) && source != w && i < |w|
    ensures !(source <= (w + rest)[i..])
  {
    hide IsAngle, IsBrace;
    TokensAreSeparate(source, w);
    assert (w + rest)[i..] == w[i..] + rest;
    PrefixesAreComparable(source, w[i..], rest);
    assert i == 0 ==> w[i..] == w;
    assert !AreComparable(w[i..], source);
  }

  /** Rewriting leaves no source: nothing new is spelled across a token and its surroundings. */
  lemma {:induction false} NoSourceIsLeft(items: seq<Item>, table: Table, p: Pair, i: nat)
    requires IsCode(table) && IsClean(items, table) && p in table
    requires i <= |Render(items, Pairs(table))|
    ensures !(p.source <= Render(items, Pairs(table))[i..])
    decreases |items|
  {
    assert IsToken(p.source) && p.source != "";
    hide IsAngle, IsBrace;
    if items != [] {
      var text, rest := Render(items, Pairs(table)), items[1..];
      var w := match items[0] case Char(c) => [c] case Token(q) => q.target;
      assert items[0].Token? ==> items[0].pair in Pairs(table);
      assert text == w + Render(rest, Pairs(table));
      if i >= |w| {
        NoSourceIsLeft(rest, table, p, i - |w|);
        assert text[i..] == Render(rest, Pairs(table))[i - |w|..];
      } else if items[0].Char? {
        PlainCharacterBeginsNoSource(items, Pairs(table), table, p);
        assert text[0..] == text;
      } else {
        NoSourceBeginsInAToken(p.source, w, i, Render(rest, Pairs(table)));
      }
    }
  }

  lemma PassesLeaveNoSource(text: string, table: Table)
    requires IsCode(table) && IsListed(table)
    ensures HasSources(table) && IsFreeOfSources(Passes(text, table), table)
  {
    PassesAreSimultaneous(text, table);
    ParseIsClean(text, table);
    forall p, i | p in table && 0 <= i <= |Simultaneous(text, table)|
      ensures !(p.source <= Simultaneous(text, table)[i..])
    {
      NoSourceIsLeft(Parse(text, table), table, p, i);
    }
  }

  /** There and back gives the text again exactly when it held no spelling of the other side. */
  lemma RoundTripExactly(text: string, table: Table, back: Table)
    requires IsCode(table) && IsListed(table) && IsCode(back) && IsListed(back) && AreInverse(table, back)
    ensures HasSources(table) && HasSources(back)
    ensures Passes(Passes(text, table), back) == text <==> IsFreeOfTargets(text, table)
  {
    PassesAreSimultaneous(text, table);
    CodesHaveSources(back);
    var there := Passes(text, table);
    if IsFreeOfTargets(text, table) {
      var items := Parse(text, table);
      ParseRendersBack(text, table);
      ParseIsClean(text, table);
      RespelledTextParsesBack(items, table, back);
      SwappedRendersBack(items, table, back);
      PassesAreSimultaneous(there, back);
    } else {
      PassesLeaveNoSource(there, back);
      var p :| p in table && Occurs(p.target, text);
      assert Pair(p.target, p.source) in back;
    }
  }

  // -------------------------------------------------------------------------
  // The two tables of the script
  // -------------------------------------------------------------------------

  lemma AngleSpellings1()
    ensures IsAngle("<signature>")
    ensures IsAngle("<constat>")
    ensures IsAngle("<montant>")
  {
  }

  lemma AngleSpellings2()
    ensures IsAngle("<société>")
    ensures IsAngle("<contact>")
    ensures IsAngle("<prénom>")
  {
  }

  lemma AngleSpellings3()
    ensures IsAngle("<client>")
    ensures IsAngle("<genre>")
    ensures IsAngle("<sujet>")
  {
  }

  lemma AngleSpellings4()
    ensures IsAngle("<nom>")
    ensures IsAngle("<moi>")
  {
  }

  lemma BraceSpellings1()
    ensures IsBrace("{{signature}}")
    ensures IsBrace("{{constat}}")
    ensures IsBrace("{{montant}}")
  {
  }

  lemma BraceSpellings2()
    ensures IsBrace("{{societe}}")
    ensures IsBrace("{{contact}}")
    ensures IsBrace("{{prenom}}")
  {
  }

  lemma BraceSpellings3()
    ensures IsBrace("{{client}}")
    ensures IsBrace("{{civility}}")
    ensures IsBrace("{{sujet}}")
  {
  }

  lemma BraceSpellings4()
    ensures IsBrace("{{family_name}}")
    ensures IsBrace("{{moi}}")
  {
  }

  lemma SpellingsAreTokens()
    ensures forall i :: 0 <= i < 11 ==> IsAngle(VERS_COFFRE[i].source) && IsBrace(VERS_COFFRE[i].target)
  {
    AngleSpellings1();
    AngleSpellings2();
    AngleSpellings3();
    AngleSpellings4();
    BraceSpellings1();
    BraceSpellings2();
    BraceSpellings3();
    BraceSpellings4();
    hide IsAngle, IsBrace;
  }

  lemma SpellingsDiffer()
    ensures forall i, j :: 0 <= i < j < 11 ==>
              && VERS_COFFRE[i].source != VERS_COFFRE[j].source
              && VERS_COFFRE[i].target != VERS_COFFRE[j].target
  {
  }

  lemma ShapedTableIsACode(table: Table)
    requires forall i, j :: 0 <= i < j < |table| ==> table[i].source != table[j].source
    requires (forall i :: 0 <= i < |table| ==> IsAngle(table[i].source) && IsBrace(table[i].target))
          || (forall i :: 0 <= i < |table| ==> IsBrace(table[i].source) && IsAngle(table[i].target))
    ensures IsCode(table) && IsListed(table)
  {
    assert forall s, t :: IsAngle(s) && IsBrace(t) ==> s != t;
  }

  /** `order` lists every index below `n` once. */
  ghost predicate IsPermutation(order: seq<nat>, n: nat) {
    && |order| == n
    && (forall i :: 0 <= i < n ==> order[i] < n)
    && (forall i, j :: 0 <= i < j < n ==> order[i] != order[j])
    && (forall k: nat :: k < n ==> k in order)
  }

  lemma TurnedRoundIsInverse(table: Table, order: seq<nat>)
    requires IsPermutation(order, |table|)
    ensures AreInverse(table, TurnedRound(table, order)) && AreInverse(TurnedRound(table, order), table)
  {
    var back := TurnedRound(table, order);
    forall p | p in table
      ensures Pair(p.target, p.source) in back
    {
      var k: nat :| k < |table| && table[k] == p;
      assert k in order;
      var i: nat :| i < |order| && order[i] == k;
      assert back[i] == Pair(p.target, p.source);
    }
  }

  /** The second table is the first turned round, and its sources come longest first. */
  lemma LongestFirst()
    ensures forall i, j :: 0 <= i < j < 11 ==> |VERS_NOTION[i].source| >= |VERS_NOTION[j].source|
  {
    assert forall i :: 0 <= i < 11 ==>
             |VERS_NOTION[i].source| == [15, 13, 12, 11, 11, 11, 11, 10, 10, 9, 7][i];
  }

  lemma LongestFirstIsAPermutation()
    ensures IsPermutation(LONGEST_FIRST, 11)
  {
    forall k: nat | k < 11
      ensures k in LONGEST_FIRST
    {
      var place := [1, 3, 4, 5, 6, 7, 8, 2, 9, 0, 10];
      assert LONGEST_FIRST[place[k]] == k;
    }
  }

  lemma TheTablesAreInverseCodes()
    ensures IsCode(VERS_COFFRE) && IsListed(VERS_COFFRE) && HasSources(VERS_COFFRE)
    ensures IsCode(VERS_NOTION) && IsListed(VERS_NOTION) && HasSources(VERS_NOTION)
    ensures AreInverse(VERS_COFFRE, VERS_NOTION) && AreInverse(VERS_NOTION, VERS_COFFRE)
  {
    SpellingsAreTokens();
    SpellingsDiffer();
    LongestFirstIsAPermutation();
    assert |VERS_COFFRE| == 11;
    hide VERS_COFFRE, LONGEST_FIRST;
    ShapedTableIsACode(VERS_COFFRE);
    TurnedRoundIsInverse(VERS_COFFRE, LONGEST_FIRST);
    TurnedRoundIsACode(VERS_COFFRE, LONGEST_FIRST);
    CodesHaveSources(VERS_COFFRE);
    CodesHaveSources(VERS_NOTION);
  }

  lemma TurnedRoundIsACode(table: Table, order: seq<nat>)
    requires IsPermutation(order, |table|)
    requires forall i, j :: 0 <= i < j < |table| ==> table[i].target != table[j].target
    requires forall i :: 0 <= i < |table| ==> IsAngle(table[i].source) && IsBrace(table[i].target)
    ensures IsCode(TurnedRound(table, order)) && IsListed(TurnedRound(table, order))
  {
    hide IsAngle, IsBrace;
    var back := TurnedRound(table, order);
    forall i, j | 0 <= i < j < |back|
      ensures back[i].source != back[j].source
    {
      assert order[i] < order[j] || order[j] < order[i];
    }
    ShapedTableIsACode(back);
  }

  /** A letter as Notion shows it, and as the vault keeps it. */
  function InNotion(texte: string): string {
    TheTablesAreInverseCodes();
    Passes(texte, VERS_NOTION)
  }

  function InTheVault(texte: string): string {
    TheTablesAreInverseCodes();
    Passes(texte, VERS_COFFRE)
  }

  method JetonsCoffre(texte: string) returns (rewritten: string)
    ensures rewritten == InTheVault(texte)
  {
    TheTablesAreInverseCodes();
    rewritten := Rewrite(texte, VERS_COFFRE);
  }

  method JetonsNotion(texte: string) returns (rewritten: string)
    ensures rewritten == InNotion(texte)
  {
    TheTablesAreInverseCodes();
    rewritten := Rewrite(texte, VERS_NOTION);
  }

  lemma TokenFirst(p: Pair, rest: string, table: Table)
    requires IsCode(table) && IsListed(table) && p in table && HasSources(table)
    ensures Passes(p.source + rest, table) == p.target + Passes(rest, table)
  {
    var text := p.source + rest;
    PassesAreSimultaneous(text, table);
    PassesAreSimultaneous(rest, table);
    MatchIsTheOnlyOne(text, table, p);
    hide IsCode, Passes;
    assert text[|p.source|..] == rest && text != "";
    var items := Parse(rest, table);
    assert Parse(text, table) == [Token(p)] + items && ([Token(p)] + items)[1..] == items;
    assert p in Pairs(table);
  }

  lemma CharacterFirst(c: char, rest: string, table: Table)
    requires IsCode(table) && IsListed(table) && HasSources(table)
    requires forall p :: p in table ==> p.source[0] != c
    ensures Passes([c] + rest, table) == [c] + Passes(rest, table)
  {
    var text := [c] + rest;
    PassesAreSimultaneous(text, table);
    PassesAreSimultaneous(rest, table);
    assert Match(text, table) == [] by {
      assert forall p :: p in table && p.source <= text ==> p.source[0] == text[0];
    }
    hide IsCode, Passes, Match;
    assert text[1..] == rest && text[0] == c;
    var items := Parse(rest, table);
    assert Parse(text, table) == [Char(c)] + items && ([Char(c)] + items)[1..] == items;
  }

  /** In any text each token in front is respelled, both ways, and the rest is rewritten as if alone. */
  lemma EveryTokenIsRespelled(p: Pair, rest: string)
    requires p in VERS_COFFRE
    ensures InTheVault(p.source + rest) == p.target + InTheVault(rest)
    ensures InNotion(p.target + rest) == p.source + InNotion(rest)
  {
    TheTablesAreInverseCodes();
    hide VERS_COFFRE, VERS_NOTION;
    TokenFirst(p, rest, VERS_COFFRE);
    TokenFirst(Pair(p.target, p.source), rest, VERS_NOTION);
  }

  lemma SourcesBegin()
    ensures forall p :: p in VERS_COFFRE ==> p.source[..1] == "<"
    ensures forall p :: p in VERS_NOTION ==> p.source[..1] == "{"
  {
    SpellingsAreTokens();
    LongestFirstIsAPermutation();
    assert |VERS_COFFRE| == 11;
    hide VERS_COFFRE, LONGEST_FIRST;
    assert forall i :: 0 <= i < |VERS_COFFRE| ==> IsAngle(VERS_COFFRE[i].source) && IsBrace(VERS_COFFRE[i].target);
  }

  /** No other character is touched, in any text. */
  lemma OtherCharactersStay(c: char, rest: string)
    ensures c != '<' ==> InTheVault([c] + rest) == [c] + InTheVault(rest)
    ensures c != '{' ==> InNotion([c] + rest) == [c] + InNotion(rest)
    ensures InTheVault("") == "" == InNotion("")
  {
    TheTablesAreInverseCodes();
    SourcesBegin();
    hide VERS_COFFRE, VERS_NOTION;
    if c != '<' {
      assert forall p :: p in VERS_COFFRE ==> p.source[..1][0] == p.source[0];
      CharacterFirst(c, rest, VERS_COFFRE);
    }
    if c != '{' {
      assert forall p :: p in VERS_NOTION ==> p.source[..1][0] == p.source[0];
      CharacterFirst(c, rest, VERS_NOTION);
    }
    PassesAreSimultaneous("", VERS_COFFRE);
    PassesAreSimultaneous("", VERS_NOTION);
  }

  /** For every text: to the vault and back gives the text again exactly when it held no vault
      spelling, and to Notion and back exactly when it held no Notion spelling. Neither depends
      on the order of the tables. */
  lemma LettersGoThereAndBackExactly(texte: string)
    ensures InNotion(InTheVault(texte)) == texte <==> IsFreeOfTargets(texte, VERS_COFFRE)
    ensures InTheVault(InNotion(texte)) == texte <==> IsFreeOfTargets(texte, VERS_NOTION)
    ensures forall table :: IsListed(table) && Pairs(table) == Pairs(VERS_COFFRE) && HasSources(table) ==>
                              Passes(texte, table) == InTheVault(texte)
  {
    TheTablesAreInverseCodes();
    hide VERS_COFFRE, VERS_NOTION;
    RoundTripExactly(texte, VERS_COFFRE, VERS_NOTION);
    RoundTripExactly(texte, VERS_NOTION, VERS_COFFRE);
    forall table | IsListed(table) && Pairs(table) == Pairs(VERS_COFFRE) && HasSources(table)
      ensures Passes(texte, table) == Passes(texte, VERS_COFFRE)
    {
      PassesIgnoreTheOrder(texte, VERS_COFFRE, table);
    }
  }
}
