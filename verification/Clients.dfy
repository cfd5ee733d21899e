/** Clients, their contacts and their work notes, written by concurrent façades under
    optimistic revisions (crates/griffe-core/src/clients.rs,
    crates/griffe-core/src/dossier_work.rs, crates/griffe-core/src/app/revision.rs).

    A table is a map from identifier to row. Each command runs in one transaction, so an
    interleaving of writers is a sequence of commands. */
module Clients {
  import opened Basics
  import opened Text

  type Id = int

  /** How names are compared: trimming, folding of case and accents, and the reading of a
      name as an identifier. */
  datatype Naming = Naming(trim: string -> string, normalize: string -> string, parseId: string -> Option<Id>) {
    /** The tables after a command, accepted or refused. */
    function Next(t: Tables, c: Command): Tables { Step(this, t, c).tables }

    ghost predicate Keeps(t: Tables) { Valid(this, t) }
  }

  datatype Client = Client(name: string, details: string, isProspect: bool, archived: bool, revision: int)

  datatype Contact = Contact(clientId: Id, details: string, correspondent: bool, revision: int)

  datatype Note = Note(body: seq<bv8>, revision: int)

  const NO_NOTE := Note([], 0)
  const MAX_BODY_BYTES: nat := 64 * 1024

  datatype References = References(opportunities: nat, quotes: nat, missions: nat, invoices: nat) {
    predicate IsEmpty() { opportunities == 0 && quotes == 0 && missions == 0 && invoices == 0 }
  }

  datatype Tables = Tables(
    clients: map<Id, Client>,
    contacts: map<Id, Contact>,
    notes: map<Id, Note>,
    /** rows of the other tables that name a client */
    references: map<Id, References>)
  {
    function ReferencesTo(id: Id): References {
      if id in references then references[id] else References(0, 0, 0, 0)
    }

    function NoteOf(client: Id): Note { if client in notes then notes[client] else NO_NOTE }

    predicate HasCorrespondent(client: Id) {
      exists c :: c in contacts && contacts[c].clientId == client && contacts[c].correspondent
    }
  }

  datatype Error =
    | NotFound | ContactNotFound | Conflict | NameTaken | HasReferences | DuplicateKey
    | UnknownDossier | TooLong

  /** The tables after a command, and its answer: a revision or an identifier. */
  datatype Outcome = Done(tables: Tables, answer: int) | Refused(tables: Tables, error: Error)

  datatype Command =
    | CreateClient(newId: Id, name: string, details: string, isProspect: bool)
    | UpdateClient(id: Id, revision: int, name: string, details: string)
    | SetArchived(id: Id, revision: int, archived: bool)
    | DeleteClient(id: Id, revision: int)
    | CreateContact(newId: Id, client: Id, details: string)
    | UpdateContact(id: Id, revision: int, details: string)
    | DeleteContact(id: Id, revision: int)
    | SaveNote(client: Id, body: seq<bv8>, revision: int)

  // -------------------------------------------------------------------------
  // Guards
  // -------------------------------------------------------------------------

  function RevisionRefusal(current: int, expected: int): Option<Error> {
    if current != expected then Some(Conflict) else None
  }

  function ClientRefusal(clients: map<Id, Client>, id: Id, expected: int): Option<Error> {
    if id !in clients then Some(NotFound) else RevisionRefusal(clients[id].revision, expected)
  }

  function ContactRefusal(contacts: map<Id, Contact>, id: Id, expected: int): Option<Error> {
    if id !in contacts then Some(ContactNotFound) else RevisionRefusal(contacts[id].revision, expected)
  }

  predicate NameMatches(naming: Naming, stored: string, needle: string) {
    naming.normalize(stored) == naming.normalize(needle)
  }

  /** The name is held by another client: by identifier when it reads as one, by exact
      label otherwise. A blank name is never taken. */
  predicate NameIsTaken(naming: Naming, clients: map<Id, Client>, name: string, except: Option<Id>) {
    var trimmed := naming.trim(name);
    var needle := naming.trim(trimmed);
    if trimmed == "" || needle == "" then false
    else
      var id := naming.parseId(needle);
      if id.Some? then id.value in clients && except != id
      else
        var found := Bearers(naming, clients, needle);
        found != {} && !(except.Some? && found == {except.value})
  }

  /** The clients whose stored name folds like the needle. */
  function Bearers(naming: Naming, clients: map<Id, Client>, needle: string): set<Id> {
    set c | c in clients && NameMatches(naming, clients[c].name, needle)
  }

  // -------------------------------------------------------------------------
  // Commands as functions
  // -------------------------------------------------------------------------

  function Step(naming: Naming, t: Tables, c: Command): Outcome {
    match c
    case CreateClient(id, name, details, isProspect) =>
      if NameIsTaken(naming, t.clients, name, None) then Refused(t, NameTaken)
      else if id in t.clients then Refused(t, DuplicateKey)
      else Done(t.(clients := t.clients[id := Client(name, details, isProspect, false, 1)]), id)
    case UpdateClient(id, revision, name, details) =>
      var refusal := ClientRefusal(t.clients, id, revision);
      if refusal.Some? then Refused(t, refusal.value)
      else if NameIsTaken(naming, t.clients, name, Some(id)) then Refused(t, NameTaken)
      else
        var row := t.clients[id].(name := name, details := details, revision := revision + 1);
        Done(t.(clients := t.clients[id := row]), revision + 1)
    case SetArchived(id, revision, archived) =>
      var refusal := ClientRefusal(t.clients, id, revision);
      if refusal.Some? then Refused(t, refusal.value)
      else
        var row := t.clients[id].(archived := archived, revision := revision + 1);
        Done(t.(clients := t.clients[id := row]), revision + 1)
    case DeleteClient(id, revision) =>
      var refusal := ClientRefusal(t.clients, id, revision);
      if refusal.Some? then Refused(t, refusal.value)
      else if !t.ReferencesTo(id).IsEmpty() then Refused(t, HasReferences)
      else
        Done(t.(clients := t.clients - {id},
                contacts := map k | k in t.contacts && t.contacts[k].clientId != id :: t.contacts[k]), 0)
    case CreateContact(id, client, details) =>
      if client !in t.clients then Refused(t, NotFound)
      else if id in t.contacts then Refused(t, DuplicateKey)
      else Done(t.(contacts := t.contacts[id := Contact(client, details, !t.HasCorrespondent(client), 1)]), id)
    case UpdateContact(id, revision, details) =>
      var refusal := ContactRefusal(t.contacts, id, revision);
      if refusal.Some? then Refused(t, refusal.value)
      else
        var row := t.contacts[id].(details := details, revision := revision + 1);
        Done(t.(contacts := t.contacts[id := row]), revision + 1)
    case DeleteContact(id, revision) =>
      var refusal := ContactRefusal(t.contacts, id, revision);
      if refusal.Some? then Refused(t, refusal.value)
      else Done(t.(contacts := t.contacts - {id}), 0)
    case SaveNote(client, body, revision) =>
      var current := t.NoteOf(client);
      if client !in t.clients then Refused(t, UnknownDossier)
      else if |body| > MAX_BODY_BYTES then Refused(t, TooLong)
      else if body == current.body then Done(t, current.revision)
      else if revision != current.revision then Refused(t, Conflict)
      else Done(t.(notes := t.notes[client := Note(body, current.revision + 1)]), current.revision + 1)
  }

  function Run(naming: Naming, t: Tables, commands: seq<Command>): Tables
    decreases |commands|
  {
    if commands == [] then t else Run(naming, Step(naming, t, commands[0]).tables, commands[1..])
  }

  // -------------------------------------------------------------------------
  // The store, updated in place
  // -------------------------------------------------------------------------

  datatype Answer = Ok(value: int) | Err(error: Error)

  function AnswerOf(o: Outcome): Answer { if o.Done? then Ok(o.answer) else Err(o.error) }

  class Store {
    const naming: Naming
    var clients: map<Id, Client>
    var contacts: map<Id, Contact>
    var notes: map<Id, Note>
    var references: map<Id, References>

    constructor (naming: Naming)
      ensures this.naming == naming && State() == Tables(map[], map[], map[], map[]) && IsSound()
    {
      this.naming := naming;
      clients, contacts, notes, references := map[], map[], map[], map[];
    }

    ghost function State(): Tables
      reads this
    {
      Tables(clients, contacts, notes, references)
    }

    /** One correspondent a client, owned contacts, distinct plain names. */
    ghost predicate IsSound()
      reads this
    {
      Valid(naming, State())
    }

    /** The answer of a command and the whole state it leaves. */
    twostate predicate Performed(c: Command, answer: Answer)
      reads this
    {
      && State() == Step(naming, old(State()), c).tables
      && answer == AnswerOf(Step(naming, old(State()), c))
    }

    method CreateClient(newId: Id, name: string, details: string, isProspect: bool) returns (answer: Answer)
      requires IsSound()
      modifies this
      ensures Performed(Command.CreateClient(newId, name, details, isProspect), answer) && IsSound()
    {
      StepKeepsValid(naming, State(), Command.CreateClient(newId, name, details, isProspect));
      if NameIsTaken(naming, clients, name, None) {
        return Err(NameTaken);
      }
      if newId in clients {
        return Err(DuplicateKey);
      }
      clients := clients[newId := Client(name, details, isProspect, false, 1)];
      return Ok(newId);
    }

    method RequireClientRevision(id: Id, expected: int) returns (answer: Answer)
      ensures answer.Ok? <==> id in clients && clients[id].revision == expected
      ensures answer.Ok? ==> answer.value == clients[id].revision + 1
      ensures answer.Err? ==> answer.error == if id in clients then Conflict else NotFound
    {
      if id !in clients {
        return Err(NotFound);
      }
      if clients[id].revision != expected {
        return Err(Conflict);
      }
      return Ok(expected + 1);
    }

    method RequireContactRevision(id: Id, expected: int) returns (answer: Answer)
      ensures answer.Ok? <==> id in contacts && contacts[id].revision == expected
      ensures answer.Ok? ==> answer.value == contacts[id].revision + 1
      ensures answer.Err? ==> answer.error == if id in contacts then Conflict else ContactNotFound
    {
      if id !in contacts {
        return Err(ContactNotFound);
      }
      if contacts[id].revision != expected {
        return Err(Conflict);
      }
      return Ok(expected + 1);
    }

    method UpdateClient(id: Id, revision: int, name: string, details: string) returns (answer: Answer)
      requires IsSound()
      modifies this
      ensures Performed(Command.UpdateClient(id, revision, name, details), answer) && IsSound()
    {
      StepKeepsValid(naming, State(), Command.UpdateClient(id, revision, name, details));
      answer := RequireClientRevision(id, revision);
      if answer.Err? {
        return;
      }
      if NameIsTaken(naming, clients, name, Some(id)) {
        return Err(NameTaken);
      }
      clients := clients[id := clients[id].(name := name, details := details, revision := answer.value)];
    }

    method SetClientArchived(id: Id, revision: int, archived: bool) returns (answer: Answer)
      requires IsSound()
      modifies this
      ensures Performed(SetArchived(id, revision, archived), answer) && IsSound()
    {
      StepKeepsValid(naming, State(), SetArchived(id, revision, archived));
      answer := RequireClientRevision(id, revision);
      if answer.Ok? {
        clients := clients[id := clients[id].(archived := archived, revision := answer.value)];
      }
    }

    method DeleteClient(id: Id, revision: int) returns (answer: Answer)
      requires IsSound()
      modifies this
      ensures Performed(Command.DeleteClient(id, revision), answer) && IsSound()
    {
      StepKeepsValid(naming, State(), Command.DeleteClient(id, revision));
      answer := RequireClientRevision(id, revision);
      if answer.Err? {
        return;
      }
      if id in references && !references[id].IsEmpty() {
        return Err(HasReferences);
      }
      contacts := map k | k in contacts && contacts[k].clientId != id :: contacts[k];
      clients := clients - {id};
      return Ok(0);
    }

    method CreateContact(newId: Id, client: Id, details: string) returns (answer: Answer)
      requires IsSound()
      modifies this
      ensures Performed(Command.CreateContact(newId, client, details), answer) && IsSound()
    {
      StepKeepsValid(naming, State(), Command.CreateContact(newId, client, details));
      if client !in clients {
        return Err(NotFound);
      }
      var correspondent := !exists c :: c in contacts && contacts[c].clientId == client && contacts[c].correspondent;
      if newId in contacts {
        return Err(DuplicateKey);
      }
      contacts := contacts[newId := Contact(client, details, correspondent, 1)];
      return Ok(newId);
    }

    method UpdateContact(id: Id, revision: int, details: string) returns (answer: Answer)
      requires IsSound()
      modifies this
      ensures Performed(Command.UpdateContact(id, revision, details), answer) && IsSound()
    {
      StepKeepsValid(naming, State(), Command.UpdateContact(id, revision, details));
      answer := RequireContactRevision(id, revision);
      if answer.Ok? {
        contacts := contacts[id := contacts[id].(details := details, revision := answer.value)];
      }
    }

    method DeleteContact(id: Id, revision: int) returns (answer: Answer)
      requires IsSound()
      modifies this
      ensures Performed(Command.DeleteContact(id, revision), answer) && IsSound()
    {
      StepKeepsValid(naming, State(), Command.DeleteContact(id, revision));
      answer := RequireContactRevision(id, revision);
      if answer.Ok? {
        contacts := contacts - {id};
        answer := Ok(0);
      }
    }

    method SaveDossierWork(client: Id, body: seq<bv8>, revision: int) returns (answer: Answer)
      requires IsSound()
      modifies this`notes
      ensures Performed(SaveNote(client, body, revision), answer) && IsSound()
    {
      StepKeepsValid(naming, State(), SaveNote(client, body, revision));
      if client !in clients {
        return Err(UnknownDossier);
      }
      if |body| > MAX_BODY_BYTES {
        return Err(TooLong);
      }
      var current := if client in notes then notes[client] else NO_NOTE;
      if body == current.body {
        return Ok(current.revision);
      }
      if revision != current.revision {
        return Err(Conflict);
      }
      notes := notes[client := Note(body, current.revision + 1)];
      return Ok(current.revision + 1);
    }
  }

  // -------------------------------------------------------------------------
  // What every sequence of commands keeps
  // -------------------------------------------------------------------------

  /** A name without surrounding blanks that does not read as an identifier. */
  predicate IsPlain(naming: Naming, name: string) {
    name != "" && naming.trim(name) == name && naming.parseId(name) == None
  }

  ghost predicate ContactsAreOwned(t: Tables) {
    forall k :: k in t.contacts ==> t.contacts[k].clientId in t.clients
  }

  ghost predicate OneCorrespondentEach(t: Tables) {
    forall k, l :: (k in t.contacts && l in t.contacts
                    && t.contacts[k].clientId == t.contacts[l].clientId
                    && t.contacts[k].correspondent && t.contacts[l].correspondent) ==> k == l
  }

  ghost predicate PlainNamesDiffer(naming: Naming, t: Tables) {
    forall c, d :: (c in t.clients && d in t.clients && c != d
                    && IsPlain(naming, t.clients[c].name) && IsPlain(naming, t.clients[d].name)) ==>
      naming.normalize(t.clients[c].name) != naming.normalize(t.clients[d].name)
  }

  ghost predicate Valid(naming: Naming, t: Tables) {
    ContactsAreOwned(t) && OneCorrespondentEach(t) && PlainNamesDiffer(naming, t)
  }

  lemma AcceptedPlainNameIsNew(naming: Naming, clients: map<Id, Client>, name: string, except: Option<Id>, c: Id)
    requires !NameIsTaken(naming, clients, name, except) && IsPlain(naming, name)
    requires c in clients && except != Some(c)
    ensures naming.normalize(clients[c].name) != naming.normalize(name)
  {
    assert NameMatches(naming, clients[c].name, name) ==> c in Bearers(naming, clients, name);
  }

  lemma NamesStayDistinct(naming: Naming, t: Tables, id: Id, row: Client, except: Option<Id>)
    requires PlainNamesDiffer(naming, t)
    requires except == Some(id) || (except == None && id !in t.clients)
    requires !NameIsTaken(naming, t.clients, row.name, except)
    ensures PlainNamesDiffer(naming, t.(clients := t.clients[id := row]))
  {
    if IsPlain(naming, row.name) {
      forall c | c in t.clients && c != id
        ensures naming.normalize(t.clients[c].name) != naming.normalize(row.name)
      {
        AcceptedPlainNameIsNew(naming, t.clients, row.name, except, c);
      }
    }
  }

  /** At most one correspondent a client, every contact owned, and plain names distinct once
      case and accents are folded: whatever the commands, accepted or refused. */
  lemma StepKeepsValid(naming: Naming, t: Tables, c: Command)
    requires Valid(naming, t)
    ensures Valid(naming, Step(naming, t, c).tables)
  {
    hide NameIsTaken, IsPlain;
    var t' := Step(naming, t, c).tables;
    if c.CreateClient? && Step(naming, t, c).Done? {
      NamesStayDistinct(naming, t, c.newId, t'.clients[c.newId], None);
    } else if c.UpdateClient? && Step(naming, t, c).Done? {
      NamesStayDistinct(naming, t, c.id, t'.clients[c.id], Some(c.id));
    }
  }

  lemma {:induction false} RunKeepsValid(naming: Naming, t: Tables, commands: seq<Command>)
    requires Valid(naming, t)
    ensures Valid(naming, Run(naming, t, commands))
    decreases |commands|
  {
    if commands != [] {
      StepKeepsValid(naming, t, commands[0]);
      RunKeepsValid(naming, Step(naming, t, commands[0]).tables, commands[1..]);
    }
  }

  /** From an empty store, at every point of every run. */
  lemma EveryRunIsValid(naming: Naming, references: map<Id, References>, commands: seq<Command>)
    ensures Valid(naming, Run(naming, Tables(map[], map[], map[], references), commands))
  {
    RunKeepsValid(naming, Tables(map[], map[], map[], references), commands);
  }

  /** Two names are the same « Qui »: equal once trimmed and folded. */
  predicate IsSameQui(naming: Naming, a: string, b: string) {
    naming.trim(a) != "" && naming.normalize(naming.trim(a)) == naming.normalize(naming.trim(b))
  }

  /** In any store a creation or a renaming is accepted exactly when the name, trimmed, is blank; or
      reads as an identifier that no other client bears; or matches no other label as it is
      stored, blanks included. */
  lemma NameIsAcceptedExactly(naming: Naming, t: Tables, c: Command)
    requires c.CreateClient? || c.UpdateClient?
    requires naming.trim(naming.trim(c.name)) == naming.trim(c.name)
    requires c.CreateClient? ==> c.newId !in t.clients
    requires c.UpdateClient? ==> c.id in t.clients && t.clients[c.id].revision == c.revision
    ensures var writer := if c.CreateClient? then c.newId else c.id;
            var id := naming.parseId(naming.trim(c.name));
            Step(naming, t, c).Done? <==>
              || naming.trim(c.name) == ""
              || (if id.Some? then id.value !in t.clients || (c.UpdateClient? && id.value == writer)
                  else forall k :: k in t.clients && k != writer ==>
                         naming.normalize(t.clients[k].name) != naming.normalize(naming.trim(c.name)))
  {
    var writer := if c.CreateClient? then c.newId else c.id;
    var found := Bearers(naming, t.clients, naming.trim(c.name));
    assert forall k :: k in found <==>
        k in t.clients && naming.normalize(t.clients[k].name) == naming.normalize(naming.trim(c.name));
    assert found == {} || found == {writer} <==> forall k :: k in found ==> k == writer by {
      if forall k :: k in found ==> k == writer {
        assert found <= {writer};
      }
    }
  }

  /** So is one to a « Qui » that another client already holds; both then hold it. */
  lemma SecondQuiIsAcceptedExactly(naming: Naming, t: Tables, holder: Id, c: Command)
    requires c.CreateClient? || c.UpdateClient?
    requires holder in t.clients && IsSameQui(naming, t.clients[holder].name, c.name)
    requires naming.trim(naming.trim(c.name)) == naming.trim(c.name)
    requires c.CreateClient? ==> c.newId !in t.clients
    requires c.UpdateClient? ==> c.id in t.clients && c.id != holder && t.clients[c.id].revision == c.revision
    ensures var writer := if c.CreateClient? then c.newId else c.id;
            var id := naming.parseId(naming.trim(c.name));
            var after := Step(naming, t, c);
            && (after.Done? ==>
                  && writer in after.tables.clients && after.tables.clients[writer].name == c.name
                  && holder in after.tables.clients && after.tables.clients[holder] == t.clients[holder])
            && (after.Done? <==>
                  || naming.trim(c.name) == ""
                  || (if id.Some? then id.value !in t.clients || (c.UpdateClient? && id.value == writer)
                      else forall k :: k in t.clients && k != writer ==>
                             naming.normalize(t.clients[k].name) != naming.normalize(naming.trim(c.name))))
  {
    NameIsAcceptedExactly(naming, t, c);
    hide NameIsTaken;
  }

  // -------------------------------------------------------------------------
  // Names that escape
  // -------------------------------------------------------------------------

  function FoldChar(c: char): char {
    if 'A' <= c <= 'Z' then (c as int + 32) as char
    else if c in "ÀÂÄÁÃàâäáã" then 'a'
    else if c in "ÉÈÊËéèêë" then 'e'
    else if c in "ÎÏÍÌîïíì" then 'i'
    else if c in "ÔÖÓÒÕôöóòõ" then 'o'
    else if c in "ÙÛÜÚùûüú" then 'u'
    else if c in "Çç" then 'c'
    else if c in "Ññ" then 'n'
    else c
  }

  /** A name without its case and accents, for the letters of French names. */
  function Fold(s: string): string { seq(|s|, i requires 0 <= i < |s| => FoldChar(s[i])) }

  function HexDigit(c: char): nat
    requires IsHex(c)
  {
    if c <= '9' then c as int - '0' as int else c as int - 'a' as int + 10
  }

  function HexValue(s: string): nat
    requires AllHex(s)
  {
    if s == "" then 0 else HexValue(s[..|s| - 1]) * 16 + HexDigit(s[|s| - 1])
  }

  /** An identifier in its plain form, thirty-two hexadecimal digits. */
  function ParseId(s: string): Option<Id> {
    if |s| == 32 && AllHex(Lower(s)) then Some(HexValue(Lower(s))) else None
  }

  const SOURCE_NAMING := Naming(Strip, Fold, ParseId)

  const EMPTY := Tables(map[], map[], map[], map[])

  /** Two clients created one after the other in an empty store. */
  function TwoCreated(naming: Naming, a: string, b: string): Tables {
    Run(naming, EMPTY, [CreateClient(1, a, "", false), CreateClient(2, b, "", false)])
  }

  lemma SecondCreation(naming: Naming, a: string, b: string)
    ensures var one := EMPTY.(clients := map[1 := Client(a, "", false, false, 1)]);
            && Step(naming, EMPTY, CreateClient(1, a, "", false)) == Done(one, 1)
            && TwoCreated(naming, a, b) == Step(naming, one, CreateClient(2, b, "", false)).tables
  {
    var first, second := CreateClient(1, a, "", false), CreateClient(2, b, "", false);
    assert !NameIsTaken(naming, EMPTY.clients, a, None) by {
      assert Bearers(naming, EMPTY.clients, naming.trim(naming.trim(a))) == {};
    }
    hide NameIsTaken;
    var one := Step(naming, EMPTY, first).tables;
    assert one.clients == map[1 := Client(a, "", false, false, 1)];
    assert [first, second][1..] == [second] && [second][1..] == [];
    assert Run(naming, one, [second]) == Run(naming, Step(naming, one, second).tables, []);
  }

  lemma StrippedTwice(s: string)
    ensures Strip(Strip(s)) == Strip(s)
  {
    var a, b := StripShape(s);
    StripOfStripped(Strip(s));
  }

  /** Any plain name escapes once stored with a blank behind it: the same name, typed without,
      is taken for another « Qui ». */
  lemma BlankEscapes(name: string)
    requires IsPlain(SOURCE_NAMING, name)
    ensures var t := TwoCreated(SOURCE_NAMING, name + " ", name);
            && 1 in t.clients && t.clients[1].name == name + " " && 2 in t.clients && t.clients[2].name == name
            && IsSameQui(SOURCE_NAMING, t.clients[1].name, t.clients[2].name)
  {
    hide Strip, Fold, ParseId;
    SecondCreation(SOURCE_NAMING, name + " ", name);
    assert Strip(name + " ") == name by {
      StripPast("", name, " ");
      assert "" + name + " " == name + " ";
    }
    var one := EMPTY.(clients := map[1 := Client(name + " ", "", false, false, 1)]);
    FoldKeepsLengths(name, name + " ");
    SecondQuiIsAcceptedExactly(SOURCE_NAMING, one, 1, CreateClient(2, name, "", false));
  }

  lemma FoldKeepsLengths(a: string, b: string)
    ensures |a| != |b| ==> Fold(a) != Fold(b)
  {
    assert |Fold(a)| == |a| && |Fold(b)| == |b|;
  }

  /** Any name that reads as an identifier nobody bears can be given twice. */
  lemma IdentifierEscapes(name: string)
    requires ParseId(Strip(name)).Some? && ParseId(Strip(name)).value !in {1, 2}
    ensures var t := TwoCreated(SOURCE_NAMING, name, name);
            1 in t.clients && t.clients[1].name == name && 2 in t.clients && t.clients[2].name == name
  {
    assert Strip(name) != "";
    hide Strip, Fold, ParseId;
    SecondCreation(SOURCE_NAMING, name, name);
    StrippedTwice(name);
    var one := EMPTY.(clients := map[1 := Client(name, "", false, false, 1)]);
    SecondQuiIsAcceptedExactly(SOURCE_NAMING, one, 1, CreateClient(2, name, "", false));
  }

  /** Both families are inhabited. */
  lemma NamesThatEscape()
    ensures IsPlain(SOURCE_NAMING, "Acme")
    ensures var id := "00000000000000000000000000000003";
            ParseId(Strip(id)) == Some(3)
  {
    StripOfStripped("Acme");
    var id := "00000000000000000000000000000003";
    StripOfStripped(id);
    assert Lower(id) == id;
    assert id[..31] == seq(31, i => '0');
    ZerosAreNothing(31);
  }

  lemma {:induction false} ZerosAreNothing(n: nat)
    ensures AllHex(seq(n, i => '0')) && HexValue(seq(n, i => '0')) == 0
  {
    if n > 0 {
      ZerosAreNothing(n - 1);
      assert seq(n, i => '0')[..n - 1] == seq(n - 1, i => '0');
    }
  }

  // -------------------------------------------------------------------------
  // Nobody's change is lost
  // -------------------------------------------------------------------------

  predicate WritesClient(c: Command, id: Id, revision: int) {
    && (c.UpdateClient? || c.SetArchived? || c.DeleteClient?)
    && c.id == id && c.revision == revision
  }

  predicate WritesContact(c: Command, id: Id, revision: int) {
    (c.UpdateContact? || c.DeleteContact?) && c.id == id && c.revision == revision
  }

  predicate ClientMovedOn(t: Tables, id: Id, revision: int) {
    id in t.clients ==> t.clients[id].revision > revision
  }

  predicate ContactMovedOn(t: Tables, id: Id, revision: int) {
    id in t.contacts ==> t.contacts[id].revision > revision
  }

  /** Identifiers are drawn once: no command of the run gives a row this one. */
  predicate NeverDrawn(commands: seq<Command>, id: Id) {
    forall i :: 0 <= i < |commands| && (commands[i].CreateClient? || commands[i].CreateContact?) ==>
                  commands[i].newId != id
  }

  lemma RowStaysMovedOn(naming: Naming, t: Tables, c: Command, id: Id, revision: int)
    requires (c.CreateClient? || c.CreateContact?) ==> c.newId != id
    ensures ClientMovedOn(t, id, revision) ==> ClientMovedOn(Step(naming, t, c).tables, id, revision)
    ensures ContactMovedOn(t, id, revision) ==> ContactMovedOn(Step(naming, t, c).tables, id, revision)
  {
    hide NameIsTaken;
  }

  lemma {:induction false} RowsStayMovedOn(naming: Naming, t: Tables, commands: seq<Command>, id: Id, revision: int)
    requires NeverDrawn(commands, id)
    ensures ClientMovedOn(t, id, revision) ==> ClientMovedOn(Run(naming, t, commands), id, revision)
    ensures ContactMovedOn(t, id, revision) ==> ContactMovedOn(Run(naming, t, commands), id, revision)
    decreases |commands|
  {
    hide Step, ClientMovedOn, ContactMovedOn;
    if commands != [] {
      assert NeverDrawn(commands[1..], id);
      RowStaysMovedOn(naming, t, commands[0], id, revision);
      RowsStayMovedOn(naming, Step(naming, t, commands[0]).tables, commands[1..], id, revision);
    }
  }

  /** Of two writers of the same client holding the same revision, whatever happens between
      them, the second is refused and changes nothing. */
  lemma SecondClientWriterIsRefused(naming: Naming, t: Tables, first: Command, between: seq<Command>, second: Command,
                                    id: Id, revision: int)
    requires WritesClient(first, id, revision) && WritesClient(second, id, revision)
    requires Step(naming, t, first).Done? && NeverDrawn(between, id)
    ensures var now := Run(naming, Step(naming, t, first).tables, between);
            Step(naming, now, second) == Refused(now, if id in now.clients then Conflict else NotFound)
  {
    hide NameIsTaken;
    assert ClientMovedOn(Step(naming, t, first).tables, id, revision);
    RowsStayMovedOn(naming, Step(naming, t, first).tables, between, id, revision);
  }

  lemma SecondContactWriterIsRefused(naming: Naming, t: Tables, first: Command, between: seq<Command>, second: Command,
                                     id: Id, revision: int)
    requires WritesContact(first, id, revision) && WritesContact(second, id, revision)
    requires Step(naming, t, first).Done? && NeverDrawn(between, id)
    ensures var now := Run(naming, Step(naming, t, first).tables, between);
            Step(naming, now, second) == Refused(now, if id in now.contacts then Conflict else ContactNotFound)
  {
    assert ContactMovedOn(Step(naming, t, first).tables, id, revision);
    RowsStayMovedOn(naming, Step(naming, t, first).tables, between, id, revision);
  }

  /** A contact that is still there keeps its client and its correspondent flag, and its
      revision says whether anything else changed. */
  predicate SameContactLine(t: Tables, t': Tables, id: Id) {
    id in t.contacts && id in t'.contacts ==>
      var before, after := t.contacts[id], t'.contacts[id];
      && after.clientId == before.clientId && after.correspondent == before.correspondent
      && after.revision >= before.revision && (after.revision == before.revision ==> after == before)
  }

  lemma StepKeepsTheFlag(naming: Naming, t: Tables, c: Command, id: Id)
    requires (c.CreateClient? || c.CreateContact?) ==> c.newId != id
    ensures SameContactLine(t, Step(naming, t, c).tables, id)
    ensures id in Step(naming, t, c).tables.contacts ==> id in t.contacts
  {
    hide NameIsTaken;
  }

  lemma {:induction false} ContactKeepsItsFlag(naming: Naming, t: Tables, commands: seq<Command>, id: Id)
    requires NeverDrawn(commands, id)
    ensures SameContactLine(t, Run(naming, t, commands), id)
    ensures id in Run(naming, t, commands).contacts ==> id in t.contacts
    decreases |commands|
  {
    hide Step;
    if commands != [] {
      assert NeverDrawn(commands[1..], id);
      StepKeepsTheFlag(naming, t, commands[0], id);
      ContactKeepsItsFlag(naming, Step(naming, t, commands[0]).tables, commands[1..], id);
    }
  }

  // -------------------------------------------------------------------------
  // Work notes
  // -------------------------------------------------------------------------

  /** Number of commands of a run that change the body of a client's note. */
  function EffectiveSaves(naming: Naming, t: Tables, commands: seq<Command>, client: Id): nat
    decreases |commands|
  {
    if commands == [] then 0
    else
      var next := Step(naming, t, commands[0]).tables;
      (if next.NoteOf(client).body != t.NoteOf(client).body then 1 else 0)
      + EffectiveSaves(naming, next, commands[1..], client)
  }

  lemma SaveCountsAChange(naming: Naming, t: Tables, c: Command, client: Id)
    ensures var before, after := t.NoteOf(client), Step(naming, t, c).tables.NoteOf(client);
            && after.revision == before.revision + (if after.body != before.body then 1 else 0)
            && (after.body == before.body ==> after == before)
  {
    hide NameIsTaken;
  }

  /** Along every run the revision of a note counts the changes of its body; a revision seen
      twice names the same body, even after the client was deleted. */
  lemma {:induction false} NoteRevisionCountsChanges(naming: Naming, t: Tables, commands: seq<Command>, client: Id)
    ensures var t' := Run(naming, t, commands);
            && t'.NoteOf(client).revision
               == t.NoteOf(client).revision + EffectiveSaves(naming, t, commands, client)
            && (t'.NoteOf(client).revision == t.NoteOf(client).revision ==> t'.NoteOf(client) == t.NoteOf(client))
    decreases |commands|
  {
    hide Step;
    if commands != [] {
      SaveCountsAChange(naming, t, commands[0], client);
      NoteRevisionCountsChanges(naming, Step(naming, t, commands[0]).tables, commands[1..], client);
    }
  }

  /** Saving, in any later state, from a revision read earlier: the same text writes nothing
      and answers the current revision; another text is kept exactly when no body changed
      since the reading. */
  lemma LateSaveExactly(naming: Naming, t: Tables, between: seq<Command>, client: Id, body: seq<bv8>)
    requires |body| <= MAX_BODY_BYTES
    ensures var now := Run(naming, t, between);
            var saved := Step(naming, now, SaveNote(client, body, t.NoteOf(client).revision));
            && (client !in now.clients ==> saved == Refused(now, UnknownDossier))
            && (client in now.clients && body == now.NoteOf(client).body ==>
                  saved == Done(now, now.NoteOf(client).revision))
            && (client in now.clients && body != now.NoteOf(client).body ==>
                  if EffectiveSaves(naming, t, between, client) == 0
                  then saved.Done? && saved.tables.NoteOf(client) == Note(body, now.NoteOf(client).revision + 1)
                       && now.NoteOf(client) == t.NoteOf(client)
                  else saved == Refused(now, Conflict))
  {
    NoteRevisionCountsChanges(naming, t, between, client);
  }

  // -------------------------------------------------------------------------
  // What is stored is read back
  // -------------------------------------------------------------------------

  /** A client that is still there keeps its row as long as its revision; the revision never goes
      back. */
  predicate SameClientLine(t: Tables, t': Tables, id: Id) {
    id in t.clients && id in t'.clients ==>
      && t'.clients[id].revision >= t.clients[id].revision
      && (t'.clients[id].revision == t.clients[id].revision ==> t'.clients[id] == t.clients[id])
  }

  lemma StepKeepsTheClientLine(naming: Naming, t: Tables, c: Command, id: Id)
    requires (c.CreateClient? || c.CreateContact?) ==> c.newId != id
    ensures SameClientLine(t, Step(naming, t, c).tables, id)
    ensures id in Step(naming, t, c).tables.clients ==> id in t.clients
  {
    hide NameIsTaken;
  }

  lemma {:induction false} ClientKeepsItsLine(naming: Naming, t: Tables, commands: seq<Command>, id: Id)
    requires NeverDrawn(commands, id)
    ensures SameClientLine(t, Run(naming, t, commands), id)
    ensures id in Run(naming, t, commands).clients ==> id in t.clients
    decreases |commands|
  {
    hide Step;
    if commands != [] {
      assert NeverDrawn(commands[1..], id);
      StepKeepsTheClientLine(naming, t, commands[0], id);
      ClientKeepsItsLine(naming, Step(naming, t, commands[0]).tables, commands[1..], id);
    }
  }

  /** What an accepted command leaves of the row it writes, said from the tables before it. */
  function StoredClient(t: Tables, c: Command): Client
    requires c.CreateClient? || ((c.UpdateClient? || c.SetArchived?) && c.id in t.clients)
  {
    match c
    case CreateClient(_, name, details, isProspect) => Client(name, details, isProspect, false, 1)
    case UpdateClient(id, revision, name, details) =>
      Client(name, details, t.clients[id].isProspect, t.clients[id].archived, revision + 1)
    case SetArchived(id, revision, archived) =>
      Client(t.clients[id].name, t.clients[id].details, t.clients[id].isProspect, archived, revision + 1)
  }

  function StoredContact(t: Tables, c: Command): Contact
    requires c.CreateContact? || (c.UpdateContact? && c.id in t.contacts)
  {
    match c
    case CreateContact(_, client, details) =>
      Contact(client, details, forall k :: k in t.contacts && t.contacts[k].clientId == client ==> !t.contacts[k].correspondent, 1)
    case UpdateContact(id, revision, details) =>
      Contact(t.contacts[id].clientId, details, t.contacts[id].correspondent, revision + 1)
  }

  predicate WritesAClient(c: Command) { c.CreateClient? || c.UpdateClient? || c.SetArchived? }

  predicate WritesAContact(c: Command) { c.CreateContact? || c.UpdateContact? }

  function Target(c: Command): Id
    requires !c.SaveNote?
  {
    if c.CreateClient? || c.CreateContact? then c.newId else c.id
  }

  /** Whatever other writers do after an accepted command, a row still at the revision it left is
      the row it stored: the first contact is the correspondent, an update keeps flags and owner,
      and what was deleted is gone for good, its contacts with it. */
  lemma WhatIsStoredIsReadBack(naming: Naming, t: Tables, c: Command, between: seq<Command>)
    requires !c.SaveNote? && Step(naming, t, c).Done? && NeverDrawn(between, Target(c))
    ensures var id, now := Target(c), Run(naming, Step(naming, t, c).tables, between);
            && (c.UpdateClient? || c.SetArchived? ==> id in t.clients && t.clients[id].revision == c.revision)
            && (c.UpdateContact? ==> id in t.contacts && t.contacts[id].revision == c.revision)
            && (WritesAClient(c) && id in now.clients && now.clients[id].revision == StoredClient(t, c).revision ==>
                  now.clients[id] == StoredClient(t, c))
            && (WritesAContact(c) && id in now.contacts && now.contacts[id].revision == StoredContact(t, c).revision ==>
                  now.contacts[id] == StoredContact(t, c))
            && (c.DeleteClient? ==> id !in now.clients)
            && (c.DeleteContact? ==> id !in now.contacts)
  {
    hide Run;
    var id, after := Target(c), Step(naming, t, c).tables;
    ClientKeepsItsLine(naming, after, between, id);
    ContactKeepsItsFlag(naming, after, between, id);
    hide NameIsTaken;
  }

  /** A command changes the row it names and nothing else, the contacts of a deleted client aside;
      refused, it changes nothing. */
  lemma OtherRowsAreUntouched(naming: Naming, t: Tables, c: Command)
    ensures var after := Step(naming, t, c);
            && after.tables.references == t.references
            && (after.Refused? ==> after.tables == t)
            && (!c.SaveNote? ==>
                  && after.tables.notes == t.notes
                  && (forall k :: k != Target(c) ==>
                        && (k in after.tables.clients <==> k in t.clients)
                        && (k in t.clients ==> after.tables.clients[k] == t.clients[k]))
                  && (forall k :: k != Target(c) && (k in t.contacts ==> !(c.DeleteClient? && t.contacts[k].clientId == c.id)) ==>
                        && (k in after.tables.contacts <==> k in t.contacts)
                        && (k in t.contacts ==> after.tables.contacts[k] == t.contacts[k])))
            && (c.SaveNote? ==>
                  && after.tables.clients == t.clients && after.tables.contacts == t.contacts
                  && forall k :: k != c.client ==> after.tables.NoteOf(k) == t.NoteOf(k))
  {
    hide NameIsTaken;
  }

  /** A client is deleted exactly at the revision read and when no opportunity, quote, mission or
      invoice names it; none of its contacts is left. */
  lemma DeletionIsAcceptedExactly(naming: Naming, t: Tables, id: Id, revision: int)
    ensures var after := Step(naming, t, DeleteClient(id, revision));
            && (after.Done? <==>
                  && id in t.clients && t.clients[id].revision == revision
                  && (id in t.references ==> t.references[id] == References(0, 0, 0, 0)))
            && (after.Done? ==> forall k :: k in after.tables.contacts ==> after.tables.contacts[k].clientId != id)
  {
  }

  /** A client that other tables name is there after every run. */
  lemma {:induction false} ReferencedClientStays(naming: Naming, t: Tables, commands: seq<Command>, id: Id)
    requires id in t.clients && id in t.references && t.references[id] != References(0, 0, 0, 0)
    ensures id in Run(naming, t, commands).clients
    decreases |commands|
  {
    if commands != [] {
      OtherRowsAreUntouched(naming, t, commands[0]);
      ReferencedClientSurvives(naming, t, commands[0], id);
      hide Step;
      ReferencedClientStays(naming, Step(naming, t, commands[0]).tables, commands[1..], id);
    }
  }

  lemma ReferencedClientSurvives(naming: Naming, t: Tables, c: Command, id: Id)
    requires id in t.clients && id in t.references && t.references[id] != References(0, 0, 0, 0)
    ensures id in Step(naming, t, c).tables.clients
  {
    hide NameIsTaken;
  }

  // -------------------------------------------------------------------------
  // Who receives the letters
  // -------------------------------------------------------------------------

  /** Every client that has a contact has one that receives its letters. */
  ghost predicate LettersHaveAReader(t: Tables) {
    forall k :: k in t.contacts ==> t.HasCorrespondent(t.contacts[k].clientId)
  }

  /** A correspondent goes only with the last contact of its client. */
  ghost predicate KeepsAReader(t: Tables, c: Command) {
    c.DeleteContact? && c.id in t.contacts && t.contacts[c.id].revision == c.revision && t.contacts[c.id].correspondent ==>
      forall k :: k in t.contacts && t.contacts[k].clientId == t.contacts[c.id].clientId ==> k == c.id
  }

  lemma StepKeepsAReaderExactly(naming: Naming, t: Tables, c: Command)
    requires Valid(naming, t) && LettersHaveAReader(t)
    ensures LettersHaveAReader(Step(naming, t, c).tables) <==> KeepsAReader(t, c)
  {
    hide NameIsTaken, PlainNamesDiffer;
    var after := Step(naming, t, c).tables;
    if c.DeleteContact? && c.id in t.contacts && t.contacts[c.id].revision == c.revision {
      ContactRemovedKeepsAReaderExactly(t, c);
    } else if c.DeleteClient? && Step(naming, t, c).Done? {
      forall k | k in after.contacts ensures after.HasCorrespondent(after.contacts[k].clientId) {
        var reader :| reader in t.contacts && t.contacts[reader].clientId == t.contacts[k].clientId && t.contacts[reader].correspondent;
        assert reader in after.contacts;
      }
    } else if Step(naming, t, c).Done? && c.CreateContact? {
      ContactAddedKeepsAReader(t, c.newId, after.contacts[c.newId]);
    } else if Step(naming, t, c).Done? && c.UpdateContact? {
      ContactUpdatedKeepsAReader(t, c.id, after.contacts[c.id]);
    } else {
      assert after.contacts == t.contacts;
      forall k | k in after.contacts ensures after.HasCorrespondent(after.contacts[k].clientId) {
        assert t.HasCorrespondent(t.contacts[k].clientId);
      }
    }
  }

  lemma ContactAddedKeepsAReader(t: Tables, id: Id, row: Contact)
    requires LettersHaveAReader(t) && id !in t.contacts && row.correspondent == !t.HasCorrespondent(row.clientId)
    ensures LettersHaveAReader(t.(contacts := t.contacts[id := row]))
  {
    var after := t.(contacts := t.contacts[id := row]);
    forall k | k in after.contacts ensures after.HasCorrespondent(after.contacts[k].clientId) {
      var owner := after.contacts[k].clientId;
      if t.HasCorrespondent(owner) {
        var reader :| reader in t.contacts && t.contacts[reader].clientId == owner && t.contacts[reader].correspondent;
        assert reader in after.contacts && after.contacts[reader].clientId == owner && after.contacts[reader].correspondent;
      } else {
        assert k == id && after.contacts[id].clientId == owner && after.contacts[id].correspondent;
      }
    }
  }

  lemma ContactUpdatedKeepsAReader(t: Tables, id: Id, row: Contact)
    requires LettersHaveAReader(t) && id in t.contacts
    requires row.clientId == t.contacts[id].clientId && row.correspondent == t.contacts[id].correspondent
    ensures LettersHaveAReader(t.(contacts := t.contacts[id := row]))
  {
    var after := t.(contacts := t.contacts[id := row]);
    forall k | k in after.contacts ensures after.HasCorrespondent(after.contacts[k].clientId) {
      var owner := after.contacts[k].clientId;
      assert t.HasCorrespondent(t.contacts[k].clientId);
      var reader :| reader in t.contacts && t.contacts[reader].clientId == owner && t.contacts[reader].correspondent;
      assert reader in after.contacts && after.contacts[reader].clientId == owner && after.contacts[reader].correspondent;
    }
  }

  lemma ContactRemovedKeepsAReaderExactly(t: Tables, c: Command)
    requires c.DeleteContact? && c.id in t.contacts && t.contacts[c.id].revision == c.revision
    requires OneCorrespondentEach(t) && LettersHaveAReader(t)
    ensures LettersHaveAReader(t.(contacts := t.contacts - {c.id})) <==> KeepsAReader(t, c)
  {
    var after := t.(contacts := t.contacts - {c.id});
    if KeepsAReader(t, c) {
      forall k | k in after.contacts ensures after.HasCorrespondent(after.contacts[k].clientId) {
        var reader :| reader in t.contacts && t.contacts[reader].clientId == t.contacts[k].clientId && t.contacts[reader].correspondent;
        assert reader != c.id && reader in after.contacts && after.contacts[reader] == t.contacts[reader];
      }
    } else {
      var k :| k in t.contacts && t.contacts[k].clientId == t.contacts[c.id].clientId && k != c.id;
      assert k in after.contacts && !after.HasCorrespondent(after.contacts[k].clientId);
    }
  }

  /** Along every run: each client with a contact has its one correspondent if and only if none is
      deleted while its client has another contact. */
  lemma LettersKeepAReaderExactly(naming: Naming, references: map<Id, References>, commands: seq<Command>)
    ensures var start := Tables(map[], map[], map[], references);
            AllAlong(naming.Next, LettersHaveAReader, start, commands) <==> EachKeeps(naming.Next, KeepsAReader, start, commands)
  {
    var start := Tables(map[], map[], map[], references);
    assert Valid(naming, start) && LettersHaveAReader(start);
    hide Valid, LettersHaveAReader, KeepsAReader, Step;
    forall t, c | naming.Keeps(t) ensures naming.Keeps(naming.Next(t, c)) { StepKeepsValid(naming, t, c); }
    forall t, c | naming.Keeps(t) && LettersHaveAReader(t)
      ensures LettersHaveAReader(naming.Next(t, c)) <==> KeepsAReader(t, c)
    {
      StepKeepsAReaderExactly(naming, t, c);
    }
    HoldsAlongExactly(naming.Next, naming.Keeps, LettersHaveAReader, KeepsAReader, start, commands);
  }
}
