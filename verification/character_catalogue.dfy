/** The built-in character catalogue of the characters page and the option
    lists its form offers. */
module CharacterCatalogue {
  import opened JsValue

  /** A character card: the fallback catalogue's records, or whatever the
      `/characters/` endpoint returns in the same shape. */
  datatype Character = Character(
    id: JsVal,
    name: JsVal,
    image: JsVal,
    description: JsVal,
    defaultGender: JsVal,
    defaultAge: JsVal)

  const RelationshipOptions: seq<string> := [
    "Myself", "Parent", "Sibling", "Partner", "Friend",
    "Colleague", "Mentor", "Child", "Relative", "Teacher",
    "Classmate", "Neighbor", "Other"]

  const GenderOptions: seq<string> := ["Male", "Female", "Non-binary", "Other"]

  /** Also the labels of the six age sections, in display order. */
  const AgeOptions: seq<string> := ["Child", "Teen", "Young Adult", "Adult", "Middle-aged", "Elder"]

  function Card(id: int, name: string, image: string, description: string, gender: string, age: string): Character {
    Character(Num(id), Str(name), Str(image), Str(description), Str(gender), Str(age))
  }

  const Children: seq<Character> := [
    Card(1, "Young Hero", "https://placehold.co/200x300/ff6b6b/white?text=Child+Hero",
         "Brave and courageous young protagonist", "Male", "Child"),
    Card(2, "Classmate", "https://placehold.co/200x300/4ecdc4/white?text=Classmate",
         "School friend and companion", "Female", "Child")]

  const Teens: seq<Character> := [
    Card(3, "Teen Hero", "https://placehold.co/200x300/45b7d1/white?text=Teen+Hero",
         "Adventurous teenage protagonist", "Male", "Teen"),
    Card(4, "Best Friend", "https://placehold.co/200x300/f9ca24/white?text=Best+Friend",
         "Loyal companion through thick and thin", "Female", "Teen"),
    Card(5, "School Rival", "https://placehold.co/200x300/6c5ce7/white?text=School+Rival",
         "Competitive classmate", "Male", "Teen"),
    Card(6, "Crush", "https://placehold.co/200x300/e84393/white?text=Crush",
         "Secret admiration", "Female", "Teen")]

  const YoungAdults: seq<Character> := [
    Card(7, "College Friend", "https://placehold.co/200x300/00b894/white?text=College+Friend",
         "University companion", "Male", "Young Adult"),
    Card(8, "Mentor", "https://placehold.co/200x300/0984e3/white?text=Mentor",
         "Guiding figure", "Female", "Young Adult"),
    Card(9, "Roommate", "https://placehold.co/200x300/d63031/white?text=Roommate",
         "Shared living companion", "Non-binary", "Young Adult")]

  const Adults: seq<Character> := [
    Card(10, "Work Colleague", "https://placehold.co/200x300/fdcb6e/white?text=Work+Colleague",
         "Professional associate", "Male", "Adult"),
    Card(11, "Partner", "https://placehold.co/200x300/ff7675/white?text=Partner",
         "Life companion", "Female", "Adult"),
    Card(12, "Boss", "https://placehold.co/200x300/74b9ff/white?text=Boss",
         "Supervisor at work", "Male", "Adult")]

  const MiddleAged: seq<Character> := [
    Card(13, "Parent", "https://placehold.co/200x300/55efc4/white?text=Parent",
         "Nurturing family member", "Female", "Middle-aged"),
    Card(14, "Family Friend", "https://placehold.co/200x300/a29bfe/white?text=Family+Friend",
         "Long-time family acquaintance", "Male", "Middle-aged"),
    Card(15, "Relative", "https://placehold.co/200x300/ffeaa7/white?text=Relative",
         "Extended family member", "Female", "Middle-aged")]

  const Elders: seq<Character> := [
    Card(16, "Grandparent", "https://placehold.co/200x300/fdcb6e/white?text=Grandparent",
         "Wise elder family member", "Female", "Elder"),
    Card(17, "Family Elder", "https://placehold.co/200x300/e17055/white?text=Family+Elder",
         "Respected senior family member", "Male", "Elder"),
    Card(18, "Neighbor", "https://placehold.co/200x300/00cec9/white?text=Neighbor",
         "Friendly local resident", "Female", "Elder")]

  /** `allCharacters`: the six groups spread in age order. */
  const AllCharacters: seq<Character> := Children + Teens + YoungAdults + Adults + MiddleAged + Elders

  /** The catalogue holds 18 cards numbered 1 to 18 in order, and each card's
      default gender and age are among the options the form offers. */
  lemma CatalogueWellFormed()
    ensures |AllCharacters| == 18
    ensures forall i :: 0 <= i < |AllCharacters| ==> AllCharacters[i].id == Num(i + 1)
    ensures forall c :: c in AllCharacters ==>
              c.defaultGender.Str? && c.defaultGender.s in GenderOptions
    ensures forall c :: c in AllCharacters ==>
              c.defaultAge.Str? && c.defaultAge.s in AgeOptions
  {
  }

  /** Every card of `group` has default age `age`. */
  predicate AllAged(group: seq<Character>, age: string) {
    forall i :: 0 <= i < |group| ==> group[i].defaultAge == Str(age)
  }

  /** Each age group holds only cards of its own age. */
  lemma GroupsUniform()
    ensures AllAged(Children, "Child") && AllAged(Teens, "Teen") && AllAged(YoungAdults, "Young Adult")
    ensures AllAged(Adults, "Adult") && AllAged(MiddleAged, "Middle-aged") && AllAged(Elders, "Elder")
  {
  }

  /** No two catalogue cards share an object key, so per-id tables built from
      the catalogue keep one entry per card. */
  lemma CatalogueKeysDistinct()
    ensures forall i, j :: 0 <= i < j < |AllCharacters| ==>
              Key(AllCharacters[i].id) != Key(AllCharacters[j].id)
  {
    CatalogueWellFormed();
    forall i, j | 0 <= i < j < |AllCharacters|
      ensures Key(AllCharacters[i].id) != Key(AllCharacters[j].id)
    {
      if Key(AllCharacters[i].id) == Key(AllCharacters[j].id) {
        IntToStringInjective(i + 1, j + 1);
      }
    }
  }
}
