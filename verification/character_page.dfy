/** The data handling of the characters page: loading the cards and their
    default traits, the per-card form tables, the age sections, the payloads
    `handleSaveMappings` posts, and the image upload. */
module CharacterPage {
  import opened Wrappers
  import opened JsValue
  import opened Seqs
  import opened CharacterCatalogue

  /** The page's tables, each an object keyed by `String(char.id)`. Form
      inputs only ever store strings in `mappings` and `relationships`; the
      trait tables may also hold whatever the API sent. */
  datatype Form = Form(
    mappings: map<string, string>,
    relationships: map<string, string>,
    genders: map<string, JsVal>,
    ages: map<string, JsVal>)

  /** What the page holds once `fetchCharacters` is done. */
  datatype Loaded = Loaded(characters: seq<Character>, genders: map<string, JsVal>, ages: map<string, JsVal>)

  /** The API's list is taken only when the request succeeded with a
      non-empty array; None stands for a failed request or a missing array. */
  predicate UsesApi(apiData: Option<seq<Character>>) {
    apiData.Some? && apiData.value != []
  }

  function CharacterKey(c: Character): string { Key(c.id) }
  function GenderOrOther(c: Character): JsVal { Or(c.defaultGender, Str("Other")) }
  function AgeOrAdult(c: Character): JsVal { Or(c.defaultAge, Str("Adult")) }
  function DefaultGender(c: Character): JsVal { c.defaultGender }
  function DefaultAge(c: Character): JsVal { c.defaultAge }

  /** No two cards share an object key. */
  predicate KeysDistinct(cards: seq<Character>) {
    forall i, j :: 0 <= i < j < |cards| ==> Key(cards[i].id) != Key(cards[j].id)
  }

  /** The catalogue branch of `fetchCharacters`: each card's own defaults. */
  function FromDefaults(cards: seq<Character>): (r: Loaded)
    requires KeysDistinct(cards)
    ensures r.characters == cards
    ensures r.genders.Keys == (set c | c in cards :: Key(c.id)) && r.ages.Keys == r.genders.Keys
    ensures forall i :: 0 <= i < |cards| ==>
              && r.genders[Key(cards[i].id)] == cards[i].defaultGender
              && r.ages[Key(cards[i].id)] == cards[i].defaultAge
  {
    assert forall i :: 0 <= i < |cards| ==> LastWithKey(cards, CharacterKey, i);
    TabulateLast(cards, CharacterKey, DefaultGender);
    TabulateLast(cards, CharacterKey, DefaultAge);
    Loaded(cards, Tabulate(cards, CharacterKey, DefaultGender), Tabulate(cards, CharacterKey, DefaultAge))
  }

  /** The API branch of `fetchCharacters`: `char.defaultGender || "Other"`
      and `char.defaultAge || "Adult"`, the last card winning a shared key. */
  function FromApi(cards: seq<Character>): (r: Loaded)
    ensures r.characters == cards
    ensures r.genders.Keys == (set c | c in cards :: Key(c.id)) && r.ages.Keys == r.genders.Keys
    ensures forall k :: k in r.genders ==> Truthy(r.genders[k]) && Truthy(r.ages[k])
    ensures forall i :: 0 <= i < |cards| && LastWithKey(cards, CharacterKey, i) ==>
              var c := cards[i];
              && r.genders[Key(c.id)] == (if Truthy(c.defaultGender) then c.defaultGender else Str("Other"))
              && r.ages[Key(c.id)] == (if Truthy(c.defaultAge) then c.defaultAge else Str("Adult"))
  {
    var genders := Tabulate(cards, CharacterKey, GenderOrOther);
    var ages := Tabulate(cards, CharacterKey, AgeOrAdult);
    TabulateLast(cards, CharacterKey, GenderOrOther);
    TabulateLast(cards, CharacterKey, AgeOrAdult);
    assert forall k :: k in genders ==> Truthy(genders[k]) && Truthy(ages[k]) by {
      forall k | k in genders ensures Truthy(genders[k]) && Truthy(ages[k]) {
        LastWithKeyExists(cards, CharacterKey, k);
      }
    }
    Loaded(cards, genders, ages)
  }

  /** `fetchCharacters`: the API's cards when it returned some, else the
      catalogue with its own defaults. */
  function LoadCharacters(apiData: Option<seq<Character>>): (r: Loaded)
    ensures UsesApi(apiData) ==> r == FromApi(apiData.value)
    ensures r.ages.Keys == r.genders.Keys
    ensures !UsesApi(apiData) ==> r.characters == AllCharacters
    ensures !UsesApi(apiData) ==> r.genders.Keys == set c | c in AllCharacters :: Key(c.id)
    ensures !UsesApi(apiData) ==> forall i :: 0 <= i < |AllCharacters| ==>
              && r.genders[Key(AllCharacters[i].id)] == AllCharacters[i].defaultGender
              && r.ages[Key(AllCharacters[i].id)] == AllCharacters[i].defaultAge
    ensures !UsesApi(apiData) ==>
              forall k :: k in r.genders ==>
                && r.genders[k].Str? && r.genders[k].s in GenderOptions
                && r.ages[k].Str? && r.ages[k].s in AgeOptions
  {
    if UsesApi(apiData) then FromApi(apiData.value)
    else
      CatalogueKeysDistinct();
      CatalogueWellFormed();
      var r := FromDefaults(AllCharacters);
      assert forall k :: k in r.genders ==>
               && r.genders[k].Str? && r.genders[k].s in GenderOptions
               && r.ages[k].Str? && r.ages[k].s in AgeOptions by {
        forall k | k in r.genders
          ensures && r.genders[k].Str? && r.genders[k].s in GenderOptions
                  && r.ages[k].Str? && r.ages[k].s in AgeOptions
        {
          var c :| c in AllCharacters && Key(c.id) == k;
        }
      }
      r
  }

  /** `handleMappingChange`, `handleRelationshipChange`, `handleGenderChange`
      and `handleAgeChange`: `{ ...prev, [charId]: value }`. */
  function SetEntry<V>(prev: map<string, V>, charId: JsVal, value: V): (r: map<string, V>)
    ensures r.Keys == prev.Keys + {Key(charId)}
    ensures r[Key(charId)] == value
    ensures forall k :: k in prev && k != Key(charId) ==> r[k] == prev[k]
  {
    prev[Key(charId) := value]
  }

  /** The number id of a card and its printed form edit the same entry, and a
      second edit of one card overwrites the first. */
  lemma SetEntryAliasing<V>(prev: map<string, V>, n: int, a: V, b: V)
    ensures SetEntry(prev, Num(n), a) == SetEntry(prev, Str(IntToString(n)), a)
    ensures SetEntry(SetEntry(prev, Num(n), a), Str(IntToString(n)), b) == SetEntry(prev, Num(n), b)
  {
  }

  /** The characters listed under one age heading:
      `characters.filter(char => char.defaultAge === heading)`. */
  function Section(characters: seq<Character>, heading: string): (r: seq<Character>)
    ensures forall c :: c in r <==> c in characters && c.defaultAge == Str(heading)
  {
    Filter(characters, (c: Character) => c.defaultAge == Str(heading))
  }

  /** The six sections in page order. */
  function Sections(characters: seq<Character>): (r: seq<seq<Character>>)
    ensures |r| == |AgeOptions|
    ensures forall j :: 0 <= j < |r| ==> r[j] == Section(characters, AgeOptions[j])
  {
    seq(|AgeOptions|, j requires 0 <= j < |AgeOptions| => Section(characters, AgeOptions[j]))
  }

  /** A card shows in exactly one section when its age is one of the six
      labels, and in none otherwise. */
  lemma SectionsPartition(characters: seq<Character>, c: Character)
    requires c in characters
    ensures var s := Sections(characters);
            forall j, l :: 0 <= j < l < |s| ==> !(c in s[j] && c in s[l])
    ensures (exists j :: 0 <= j < |Sections(characters)| && c in Sections(characters)[j])
              <==> c.defaultAge.Str? && c.defaultAge.s in AgeOptions
  {
    var s := Sections(characters);
    if c.defaultAge.Str? && c.defaultAge.s in AgeOptions {
      var j :| 0 <= j < |AgeOptions| && AgeOptions[j] == c.defaultAge.s;
      assert c in s[j];
    }
  }

  /** Sectioning a concatenation sections each part. */
  lemma SectionDistributes(a: seq<Character>, b: seq<Character>, heading: string)
    ensures Section(a + b, heading) == Section(a, heading) + Section(b, heading)
  {
    FilterDistributes(a, b, (c: Character) => c.defaultAge == Str(heading));
  }

  /** A group of one age lands whole in that age's section and nowhere else. */
  lemma SectionOfGroup(group: seq<Character>, age: string, heading: string)
    requires AllAged(group, age)
    ensures Section(group, heading) == (if age == heading then group else [])
  {
    var p := (c: Character) => c.defaultAge == Str(heading);
    forall c | c in group
      ensures c.defaultAge == Str(age)
    {
      var i :| 0 <= i < |group| && group[i] == c;
    }
    if age == heading {
      FilterKeepsAll(group, p);
    } else {
      FilterNone(group, p);
    }
  }

  /** The groups spread one after another: `[...gs[0], ...gs[1], ...]`. */
  function Flatten(gs: seq<seq<Character>>): (r: seq<Character>)
    decreases |gs|
  {
    if gs == [] then [] else Flatten(gs[..|gs| - 1]) + gs[|gs| - 1]
  }

  /** Group `g` of `gs` holds only cards whose age is `ages[g]`. */
  ghost predicate Uniform(gs: seq<seq<Character>>, ages: seq<string>) {
    && |gs| == |ages|
    && forall g :: 0 <= g < |gs| ==> AllAged(gs[g], ages[g])
  }

  /** A heading that labels no group selects nothing from the groups. */
  lemma {:induction false} SectionOfUnlabelled(gs: seq<seq<Character>>, ages: seq<string>, heading: string)
    requires Uniform(gs, ages) && heading !in ages
    ensures Section(Flatten(gs), heading) == []
    decreases |gs|
  {
    if gs != [] {
      var n := |gs| - 1;
      SectionOfUnlabelled(gs[..n], ages[..n], heading);
      SectionDistributes(Flatten(gs[..n]), gs[n], heading);
      SectionOfGroup(gs[n], ages[n], heading);
    }
  }

  /** When each group has its own age, sectioning the spread groups by the
      age of group `j` gives back group `j` exactly. */
  lemma {:induction false} SectionOfUniform(gs: seq<seq<Character>>, ages: seq<string>, j: int)
    requires Uniform(gs, ages) && 0 <= j < |gs|
    requires forall a, b :: 0 <= a < b < |ages| ==> ages[a] != ages[b]
    ensures Section(Flatten(gs), ages[j]) == gs[j]
    decreases |gs|
  {
    var n := |gs| - 1;
    SectionDistributes(Flatten(gs[..n]), gs[n], ages[j]);
    SectionOfGroup(gs[n], ages[n], ages[j]);
    if j == n {
      assert ages[n] !in ages[..n];
      SectionOfUnlabelled(gs[..n], ages[..n], ages[n]);
      assert [] + gs[n] == gs[n];
    } else {
      SectionOfUniform(gs[..n], ages[..n], j);
      assert gs[j] + [] == gs[j];
    }
  }

  /** `allCharacters` is the six age groups spread in order. */
  lemma CatalogueIsFlatten()
    ensures Flatten([Children, Teens, YoungAdults, Adults, MiddleAged, Elders]) == AllCharacters
  {
    var groups := [Children, Teens, YoungAdults, Adults, MiddleAged, Elders];
    assert Flatten(groups[..1]) == Children by {
      assert Flatten(groups[..0]) == [];
    }
    assert Flatten(groups[..2]) == Children + Teens by {
      assert groups[..2][..1] == groups[..1];
    }
    assert Flatten(groups[..3]) == Children + Teens + YoungAdults by {
      assert groups[..3][..2] == groups[..2];
    }
    assert Flatten(groups[..4]) == Children + Teens + YoungAdults + Adults by {
      assert groups[..4][..3] == groups[..3];
    }
    assert Flatten(groups[..5]) == Children + Teens + YoungAdults + Adults + MiddleAged by {
      assert groups[..5][..4] == groups[..4];
    }
    assert Flatten(groups) == AllCharacters by {
      assert groups[..5] == groups[..6][..5];
      assert groups[..6] == groups;
    }
  }

  /** With the catalogue loaded, each section shows exactly its own age group. */
  lemma CatalogueSections()
    ensures Sections(AllCharacters) == [Children, Teens, YoungAdults, Adults, MiddleAged, Elders]
  {
    var groups := [Children, Teens, YoungAdults, Adults, MiddleAged, Elders];
    GroupsUniform();
    CatalogueIsFlatten();
    assert Uniform(groups, AgeOptions);
    assert forall a, b :: 0 <= a < b < |AgeOptions| ==> AgeOptions[a] != AgeOptions[b];
    forall j | 0 <= j < 6
      ensures Section(AllCharacters, AgeOptions[j]) == groups[j]
    {
      SectionOfUniform(groups, AgeOptions, j);
    }
  }

  /** WhiteSpace and LineTerminator code points, which `String.prototype.trim`
      strips from both ends. */
  predicate IsJsSpace(ch: char) {
    || ch == ' ' || ch == '\t' || ch == '\n' || ch == '\r' || ch == '\U{000B}' || ch == '\U{000C}'
    || ch == '\U{00A0}' || ch == '\U{FEFF}' || ch == '\U{1680}'
    || ('\U{2000}' <= ch <= '\U{200A}')
    || ch == '\U{2028}' || ch == '\U{2029}' || ch == '\U{202F}' || ch == '\U{205F}' || ch == '\U{3000}'
  }

  /** `s` with its leading white space removed. */
  function TrimStart(s: string): (r: string)
    ensures |r| <= |s| && r == s[|s| - |r|..]
    ensures forall i :: 0 <= i < |s| - |r| ==> IsJsSpace(s[i])
    ensures r != [] ==> !IsJsSpace(r[0])
    decreases |s|
  {
    if s != [] && IsJsSpace(s[0]) then TrimStart(s[1..]) else s
  }

  /** `s` with its trailing white space removed. */
  function TrimEnd(s: string): (r: string)
    ensures |r| <= |s| && r == s[..|r|]
    ensures forall i :: |r| <= i < |s| ==> IsJsSpace(s[i])
    ensures r != [] ==> !IsJsSpace(r[|r| - 1])
    decreases |s|
  {
    if s != [] && IsJsSpace(s[|s| - 1]) then TrimEnd(s[..|s| - 1]) else s
  }

  /** `s.trim()`. */
  function Trim(s: string): string {
    TrimEnd(TrimStart(s))
  }

  /** Trimming leaves nothing exactly when the string is all white space. */
  lemma TrimEmptyIffBlank(s: string)
    ensures Trim(s) == [] <==> forall i :: 0 <= i < |s| ==> IsJsSpace(s[i])
  {
    var t := TrimStart(s);
    if Trim(s) == [] {
      assert t == [];
    } else if t != [] {
      assert !IsJsSpace(t[0]);
      assert s[|s| - |t|] == t[0];
    }
  }

  /** `mappings[charId] && mappings[charId].trim() !== ''`. */
  predicate NonBlank(name: string) {
    Truthy(Str(name)) && Trim(name) != ""
  }

  /** The body of one `POST /user-characters/`. */
  datatype Payload = Payload(
    character: string,
    realLifeName: string,
    relationship: string,
    gender: JsVal,
    ageGroup: JsVal)

  /** `table[key] || fallback` on a table of strings. */
  function StringOr(table: map<string, string>, key: string, fallback: string): string {
    if key in table && table[key] != "" then table[key] else fallback
  }

  /** `table[key] || fallback` on a table of JavaScript values. */
  function ValueOr(table: map<string, JsVal>, key: string, fallback: string): JsVal {
    if key in table then Or(table[key], Str(fallback)) else Str(fallback)
  }

  /** `handleSaveMappings`: one payload per card whose real-life name is not
      blank, keyed by the card's key; blank names produce nothing. */
  method SaveMappings(form: Form) returns (payloads: map<string, Payload>)
    ensures forall k :: k in payloads <==> k in form.mappings && NonBlank(form.mappings[k])
    ensures forall k :: k in payloads ==>
              && payloads[k].character == k
              && payloads[k].realLifeName == form.mappings[k]
              && payloads[k].relationship ==
                   (if k in form.relationships && form.relationships[k] != "" then form.relationships[k] else "Other")
              && payloads[k].gender ==
                   (if k in form.genders && Truthy(form.genders[k]) then form.genders[k] else Str("Other"))
              && payloads[k].ageGroup ==
                   (if k in form.ages && Truthy(form.ages[k]) then form.ages[k] else Str("Adult"))
  {
    payloads := map[];
    var pending := form.mappings.Keys;
    while pending != {}
      invariant pending <= form.mappings.Keys
      invariant forall k :: k in payloads <==> k in form.mappings && k !in pending && NonBlank(form.mappings[k])
      invariant forall k :: k in payloads ==>
                  payloads[k] == Payload(k, form.mappings[k],
                                         StringOr(form.relationships, k, "Other"),
                                         ValueOr(form.genders, k, "Other"),
                                         ValueOr(form.ages, k, "Adult"))
      decreases |pending|
    {
      var charId :| charId in pending;
      var name := form.mappings[charId];
      if NonBlank(name) {
        payloads := payloads[charId := Payload(charId, name,
                                               StringOr(form.relationships, charId, "Other"),
                                               ValueOr(form.genders, charId, "Other"),
                                               ValueOr(form.ages, charId, "Adult"))];
      }
      pending := pending - {charId};
    }
  }

  /** While the tables hold only what the form's selects offer, or nothing
      chosen yet, every posted relationship, gender and age group is one of
      the form's options: the save defaults 'Other', 'Other' and 'Adult' are
      options too. */
  lemma SavedTraitsAreOptions(form: Form, k: string)
    requires forall r :: r in form.relationships.Values ==> r == "" || r in RelationshipOptions
    requires forall g :: g in form.genders.Values ==> !Truthy(g) || (g.Str? && g.s in GenderOptions)
    requires forall a :: a in form.ages.Values ==> !Truthy(a) || (a.Str? && a.s in AgeOptions)
    ensures StringOr(form.relationships, k, "Other") in RelationshipOptions
    ensures ValueOr(form.genders, k, "Other").Str? && ValueOr(form.genders, k, "Other").s in GenderOptions
    ensures ValueOr(form.ages, k, "Adult").Str? && ValueOr(form.ages, k, "Adult").s in AgeOptions
  {
    if k in form.relationships {
      assert form.relationships[k] in form.relationships.Values;
    }
    if k in form.genders {
      assert form.genders[k] in form.genders.Values;
    }
    if k in form.ages {
      assert form.ages[k] in form.ages.Values;
    }
  }

  /** A name of spaces alone is never saved; a name with any other character
      is saved verbatim, surrounding spaces included. */
  lemma SavedNamesAreNotBlank(name: string)
    ensures NonBlank(name) <==> exists i :: 0 <= i < |name| && !IsJsSpace(name[i])
  {
    TrimEmptyIffBlank(name);
  }

  /** The messages shown once the save loop ends. */
  datatype Notice = Notice(error: Option<string>, success: string)

  /** After the loop every post succeeded; a rejected post ends in the catch. */
  function SaveNotice(allPosted: bool): (n: Notice)
    ensures allPosted <==> n.error.None?
    ensures allPosted ==> n.success == "Character mappings saved successfully!"
    ensures !allPosted ==> n == Notice(Some("Could not save mappings. Please try again."), "")
  {
    if allPosted then Notice(None, "Character mappings saved successfully!")
    else Notice(Some("Could not save mappings. Please try again."), "")
  }

  /** `file.type.match('image.*')`: the pattern is an unanchored regular
      expression, so it matches wherever "image" occurs in the type. */
  predicate MatchesImage(mime: string)
    decreases |mime|
  {
    |mime| >= 5 && (mime[..5] == "image" || MatchesImage(mime[1..]))
  }

  /** "image" occurs in `mime` starting at index `i`. */
  predicate ImageAt(mime: string, i: int) {
    0 <= i <= |mime| - 5 && mime[i..i + 5] == "image"
  }

  /** The gate accepts exactly the types containing "image". */
  lemma {:induction false} MatchesImageIffContains(mime: string)
    ensures MatchesImage(mime) <==> exists i :: ImageAt(mime, i)
    decreases |mime|
  {
    if |mime| >= 5 {
      MatchesImageIffContains(mime[1..]);
      if MatchesImage(mime[1..]) {
        var i :| ImageAt(mime[1..], i);
        assert mime[i + 1..i + 6] == mime[1..][i..i + 5];
        assert ImageAt(mime, i + 1);
      }
      if mime[..5] == "image" {
        assert ImageAt(mime, 0);
      }
      if exists i :: ImageAt(mime, i) {
        var i :| ImageAt(mime, i);
        if i > 0 {
          assert mime[1..][i - 1..i + 4] == mime[i..i + 5];
          assert ImageAt(mime[1..], i - 1);
        }
      }
    }
  }

  /** Every `image/...` type passes the gate. */
  lemma ImageTypesAccepted(subtype: string)
    ensures MatchesImage("image/" + subtype)
  {
    assert ("image/" + subtype)[..5] == "image";
  }

  /** The page state an upload touches. */
  datatype UploadView = UploadView(
    characters: seq<Character>,
    uploading: map<string, bool>,
    error: Option<string>,
    success: string)

  /** How the upload request ended: rejected, or answered with a body whose
      `image_url` is given. */
  datatype UploadOutcome = UploadFailed | Uploaded(imageUrl: JsVal)

  /** The first half of `handleImageUpload`: no file does nothing, a non-image
      sets the error, an image marks the card as uploading and sends the file.
      The flag says whether the upload request was issued. */
  function StartUpload(v: UploadView, charId: JsVal, fileType: Option<string>): (r: (UploadView, bool))
    ensures fileType.None? ==> r == (v, false)
    ensures fileType.Some? && !MatchesImage(fileType.value) ==>
              r == (v.(error := Some("Please upload an image file")), false)
    ensures r.1 <==> fileType.Some? && MatchesImage(fileType.value)
    ensures r.1 ==> r.0 == v.(uploading := SetEntry(v.uploading, charId, true))
  {
    match fileType
    case None => (v, false)
    case Some(t) =>
      if !MatchesImage(t) then (v.(error := Some("Please upload an image file")), false)
      else (v.(uploading := SetEntry(v.uploading, charId, true)), true)
  }

  /** The second half of `handleImageUpload`, once the request has ended:
      a truthy `image_url` replaces the image of the cards with that id, a
      rejection sets the error, and the card stops uploading either way. */
  function FinishUpload(v: UploadView, charId: JsVal, outcome: UploadOutcome): (r: UploadView)
    ensures r.uploading == SetEntry(v.uploading, charId, false)
    ensures |r.characters| == |v.characters|
    ensures forall i :: 0 <= i < |v.characters| ==>
              r.characters[i].(image := v.characters[i].image) == v.characters[i]
    ensures forall i :: 0 <= i < |v.characters| && v.characters[i].id != charId ==>
              r.characters[i] == v.characters[i]
    ensures outcome.Uploaded? && Truthy(outcome.imageUrl) ==>
              && r.success == "Image uploaded successfully!" && r.error == v.error
              && forall i :: 0 <= i < |v.characters| && v.characters[i].id == charId ==>
                   r.characters[i].image == outcome.imageUrl
    ensures !(outcome.Uploaded? && Truthy(outcome.imageUrl)) ==> r.characters == v.characters
    ensures outcome.UploadFailed? ==> r.error == Some("Could not upload image. Please try again.")
    ensures outcome.Uploaded? ==> r.error == v.error
    ensures !(outcome.Uploaded? && Truthy(outcome.imageUrl)) ==> r.success == v.success
  {
    var done := SetEntry(v.uploading, charId, false);
    match outcome
    case UploadFailed =>
      v.(uploading := done, error := Some("Could not upload image. Please try again."))
    case Uploaded(url) =>
      if Truthy(url) then
        var updated := seq(|v.characters|, i requires 0 <= i < |v.characters| =>
          if v.characters[i].id == charId then v.characters[i].(image := url) else v.characters[i]);
        v.(characters := updated, uploading := done, success := "Image uploaded successfully!")
      else v.(uploading := done)
  }

  /** A started upload always ends with the card no longer uploading, and the
      other cards' upload flags untouched. */
  lemma UploadClearsFlag(v: UploadView, charId: JsVal, fileType: string, outcome: UploadOutcome)
    requires MatchesImage(fileType)
    ensures var started := StartUpload(v, charId, Some(fileType)).0;
            var ended := FinishUpload(started, charId, outcome);
            && ended.uploading[Key(charId)] == false
            && forall k :: k in v.uploading && k != Key(charId) ==> ended.uploading[k] == v.uploading[k]
  {
  }
}
