/** The comic generator page: the character list it offers, with each
    card's relationship taken from the user's mappings, and the guard in
    front of the create-comic request. */
module ComicGenerator {
  import opened Wrappers
  import opened JsValue
  import opened Responses
  import opened Seqs

  /** A character as `/characters/` returns it; `relationship` is the field
      the merge overwrites, the others are carried over by the spread. */
  datatype ComicCharacter = ComicCharacter(
    id: JsVal,
    name: JsVal,
    imageUrl: JsVal,
    avatar: JsVal,
    description: JsVal,
    relationship: JsVal)

  /** One record of `/user-characters/`. */
  datatype Mapping = Mapping(character: JsVal, realLifeName: JsVal)

  /** `res.data.results || res.data`, followed by `.map`: a page with a
      results array gives that array, a bare array gives itself, and anything
      else makes `.map` throw (None). */
  function CharactersData(body: Body<ComicCharacter>): (r: Option<seq<ComicCharacter>>)
    ensures body.List? ==> r == Some(body.items)
    ensures body.Page? ==> r == body.results
    ensures body.Absent? ==> r.None?
  {
    match body
    case List(items) => Some(items)
    case Page(results) => results
    case Absent => None
  }

  function MappingKey(m: Mapping): string { Key(m.character) }
  function MappingName(m: Mapping): JsVal { m.realLifeName }

  /** `mappings[item.character] = item.real_life_name` for each record: one
      entry per character key, the latest record for a key winning. */
  function MappingTable(items: seq<Mapping>): (table: map<string, JsVal>)
    ensures table.Keys == set m | m in items :: Key(m.character)
    ensures forall i :: 0 <= i < |items| && LastWithKey(items, MappingKey, i) ==>
              table[Key(items[i].character)] == items[i].realLifeName
  {
    TabulateLast(items, MappingKey, MappingName);
    Tabulate(items, MappingKey, MappingName)
  }

  /** `mappings[key]`, which is undefined for a key never assigned. */
  function Lookup(table: map<string, JsVal>, key: string): JsVal {
    if key in table then table[key] else Undefined
  }

  /** `mappings[char.id] || char.relationship || 'Not specified'`. */
  function Relationship(table: map<string, JsVal>, c: ComicCharacter): (rel: JsVal)
    ensures Truthy(rel)
    ensures Truthy(Lookup(table, Key(c.id))) ==> rel == table[Key(c.id)]
    ensures !Truthy(Lookup(table, Key(c.id))) && Truthy(c.relationship) ==> rel == c.relationship
    ensures !Truthy(Lookup(table, Key(c.id))) && !Truthy(c.relationship) ==> rel == Str("Not specified")
  {
    Or(Lookup(table, Key(c.id)), Or(c.relationship, Str("Not specified")))
  }

  /** `charactersData.map(char => ({ ...char, relationship: ... }))`. */
  function Merge(characters: seq<ComicCharacter>, table: map<string, JsVal>): (merged: seq<ComicCharacter>)
    ensures |merged| == |characters|
    ensures forall i :: 0 <= i < |characters| ==>
              merged[i].(relationship := characters[i].relationship) == characters[i]
    ensures forall i :: 0 <= i < |characters| ==> Truthy(merged[i].relationship)
    ensures forall i :: 0 <= i < |characters| ==>
              merged[i].relationship == Relationship(table, characters[i])
  {
    seq(|characters|, i requires 0 <= i < |characters| =>
      characters[i].(relationship := Relationship(table, characters[i])))
  }

  /** The three cards shown when either request fails. */
  const FallbackCharacters: seq<ComicCharacter> := [
    ComicCharacter(Num(1), Str("Cartoon Cat"), Str("https://placehold.co/100x100/A051A4/white?text=Cat"),
                   Undefined, Undefined, Str("Not specified")),
    ComicCharacter(Num(2), Str("Mystic Wizard"), Str("https://placehold.co/100x100/F5C04A/white?text=Wizard"),
                   Undefined, Undefined, Str("Not specified")),
    ComicCharacter(Num(3), Str("Space Adventurer"), Str("https://placehold.co/100x100/1296F0/white?text=Space"),
                   Undefined, Undefined, Str("Not specified"))]

  /** `fetchCharacters`: a rejected `/characters/` request is passed as the
      body `Absent`, since either way `.map` is never reached; `mappings` is
      None when `/user-characters/` fails or does not answer with an array. */
  function FetchCharacters(characters: Body<ComicCharacter>, mappings: Option<seq<Mapping>>): (shown: seq<ComicCharacter>)
    ensures CharactersData(characters).None? || mappings.None? ==> shown == FallbackCharacters
    ensures CharactersData(characters).Some? && mappings.Some? ==>
              shown == Merge(CharactersData(characters).value, MappingTable(mappings.value))
    ensures forall i :: 0 <= i < |shown| ==> Truthy(shown[i].relationship)
  {
    match (CharactersData(characters), mappings)
    case (Some(cards), Some(items)) => Merge(cards, MappingTable(items))
    case _ => FallbackCharacters
  }

  /** The fallback list is the cards 1, 2, 3, none with a relationship yet. */
  lemma FallbackShape()
    ensures |FallbackCharacters| == 3
    ensures forall i :: 0 <= i < 3 ==>
              FallbackCharacters[i].id == Num(i + 1) && FallbackCharacters[i].relationship == Str("Not specified")
  {
  }

  /** A card with a truthy mapping shows the real-life name of the latest
      mapping record for its id. */
  lemma MergeShowsLatestMapping(characters: seq<ComicCharacter>, items: seq<Mapping>, i: int, j: int)
    requires 0 <= i < |characters| && 0 <= j < |items|
    requires Key(items[j].character) == Key(characters[i].id) && LastWithKey(items, MappingKey, j)
    requires Truthy(items[j].realLifeName)
    ensures Merge(characters, MappingTable(items))[i].relationship == items[j].realLifeName
  {
  }

  /** A card nobody mapped keeps its own relationship when it has one. */
  lemma MergeKeepsUnmapped(characters: seq<ComicCharacter>, items: seq<Mapping>, i: int)
    requires 0 <= i < |characters| && Truthy(characters[i].relationship)
    requires forall m :: m in items ==> Key(m.character) != Key(characters[i].id)
    ensures Merge(characters, MappingTable(items))[i] == characters[i]
  {
    assert Key(characters[i].id) !in MappingTable(items);
  }

  /** Merging again with the same mappings changes nothing. */
  lemma MergeIdempotent(characters: seq<ComicCharacter>, table: map<string, JsVal>)
    ensures Merge(Merge(characters, table), table) == Merge(characters, table)
  {
  }

  /** What `createComic` answers: the new comic, or an error whose
      `response.data.error` is the given value (Undefined when absent). */
  datatype CreateOutcome = Created(comic: JsVal) | CreateFailed(serverError: JsVal)

  /** The page state around comic creation. */
  datatype ComicView = ComicView(
    selected: Option<ComicCharacter>,
    comic: JsVal,
    isLoading: bool,
    error: JsVal)

  /** The request `createComic(journalEntryId, selectedCharacter.id)`. */
  datatype CreateRequest = CreateRequest(journalEntryId: JsVal, characterId: JsVal)

  /** The synchronous half of `handleCreateComic`: no selected character
      means an error and no request; otherwise the page starts loading,
      clears the error and the previous comic, and sends the request. */
  function StartCreate(v: ComicView, journalEntryId: JsVal): (r: (ComicView, Option<CreateRequest>))
    ensures r.1.Some? <==> v.selected.Some?
    ensures v.selected.None? ==> r.0 == v.(error := Str("Please select a character first."))
    ensures v.selected.Some? ==>
              && r.0 == v.(isLoading := true, error := Str(""), comic := Null)
              && r.1 == Some(CreateRequest(journalEntryId, v.selected.value.id))
  {
    match v.selected
    case None => (v.(error := Str("Please select a character first.")), None)
    case Some(c) => (v.(isLoading := true, error := Str(""), comic := Null), Some(CreateRequest(journalEntryId, c.id)))
  }

  /** The rest of `handleCreateComic`, once the request has ended: the new
      comic is shown, or the server's error (or a generic one) is; loading
      stops either way. */
  function FinishCreate(v: ComicView, outcome: CreateOutcome): (r: ComicView)
    ensures !r.isLoading && r.selected == v.selected
    ensures outcome.Created? ==> r.comic == outcome.comic && r.error == v.error
    ensures outcome.CreateFailed? ==> r.comic == v.comic && Truthy(r.error)
    ensures outcome.CreateFailed? && Truthy(outcome.serverError) ==> r.error == outcome.serverError
    ensures outcome.CreateFailed? && !Truthy(outcome.serverError) ==>
              r.error == Str("Failed to create comic. Please try again.")
  {
    match outcome
    case Created(c) => v.(comic := c, isLoading := false)
    case CreateFailed(e) => v.(error := Or(e, Str("Failed to create comic. Please try again.")), isLoading := false)
  }

  /** A request that fails after a character was selected leaves no comic,
      no loading flag and a visible error. */
  lemma CreateFailureVisible(v: ComicView, journalEntryId: JsVal, e: JsVal)
    requires v.selected.Some?
    ensures var started := StartCreate(v, journalEntryId).0;
            var ended := FinishCreate(started, CreateFailed(e));
            ended.comic == Null && !ended.isLoading && Truthy(ended.error)
  {
  }
}
