/** The enhanced dashboard: its three tabs and the list of selected
    character ids that the character manager toggles. */
module EnhancedDashboard {
  import opened JsValue
  import opened Seqs

  /** `prev.filter(id => id !== charId)`: the list with every copy of `id` gone. */
  function RemoveAll(s: seq<JsVal>, id: JsVal): (r: seq<JsVal>)
    ensures id !in r
    ensures forall x :: x != id ==> (x in r <==> x in s)
  {
    Filter(s, (x: JsVal) => x != id)
  }

  /** `onCharacterSelect`: a selected id is deselected (every copy removed),
      an unselected one is appended at the end. */
  function ToggleSelection(prev: seq<JsVal>, id: JsVal): (r: seq<JsVal>)
    ensures id in r <==> id !in prev
    ensures forall x :: x != id ==> (x in r <==> x in prev)
    ensures id !in prev ==> r == prev + [id]
    ensures RemoveAll(r, id) == RemoveAll(prev, id)
  {
    if id in prev then
      RemoveAllIdempotent(prev, id);
      RemoveAll(prev, id)
    else
      RemoveAllAbsent(prev, id);
      FilterDistributes(prev, [id], (x: JsVal) => x != id);
      prev + [id]
  }

  /** Removing an id that is not there changes nothing. */
  lemma RemoveAllAbsent(s: seq<JsVal>, id: JsVal)
    requires id !in s
    ensures RemoveAll(s, id) == s
  {
    var p := (x: JsVal) => x != id;
    assert forall i :: 0 <= i < |s| ==> p(s[i]) by {
      forall i | 0 <= i < |s| ensures p(s[i]) {
        assert s[i] in s;
      }
    }
    FilterKeepsAll(s, p);
  }

  /** Removing the same id twice removes nothing more. */
  lemma RemoveAllIdempotent(s: seq<JsVal>, id: JsVal)
    ensures RemoveAll(RemoveAll(s, id), id) == RemoveAll(s, id)
  {
    RemoveAllAbsent(RemoveAll(s, id), id);
  }

  /** Toggling an unselected id twice gives the selection back. */
  lemma ToggleTwiceAbsent(prev: seq<JsVal>, id: JsVal)
    requires id !in prev
    ensures ToggleSelection(ToggleSelection(prev, id), id) == prev
  {
    FilterDistributes(prev, [id], (x: JsVal) => x != id);
    RemoveAllAbsent(prev, id);
  }

  /** Toggling a selected id twice moves it to the end of the selection. */
  lemma ToggleTwicePresent(prev: seq<JsVal>, id: JsVal)
    requires id in prev
    ensures ToggleSelection(ToggleSelection(prev, id), id) == RemoveAll(prev, id) + [id]
  {
  }

  /** No id is listed twice. */
  predicate DuplicateFree(s: seq<JsVal>) {
    forall i, j :: 0 <= i < j < |s| ==> s[i] != s[j]
  }

  /** Deselecting and reselecting the last id of a duplicate-free list puts
      it back where it was. */
  lemma ReselectLast(prev: seq<JsVal>, id: JsVal)
    requires DuplicateFree(prev) && prev != [] && prev[|prev| - 1] == id
    ensures RemoveAll(prev, id) + [id] == prev
  {
    var init := prev[..|prev| - 1];
    assert prev == init + [id];
    forall i | 0 <= i < |init|
      ensures init[i] != id
    {
      assert init[i] == prev[i];
    }
    FilterDistributes(init, [id], (x: JsVal) => x != id);
    RemoveAllAbsent(init, id);
    assert RemoveAll([id], id) == [];
  }

  /** On a duplicate-free selection, a double toggle restores the list
      exactly when the id was unselected or was the last one selected. */
  lemma ToggleTwiceRestores(prev: seq<JsVal>, id: JsVal)
    requires DuplicateFree(prev)
    ensures ToggleSelection(ToggleSelection(prev, id), id) == prev <==>
              id !in prev || prev[|prev| - 1] == id
  {
    if id !in prev {
      ToggleTwiceAbsent(prev, id);
    } else {
      ToggleTwicePresent(prev, id);
      if prev[|prev| - 1] == id {
        ReselectLast(prev, id);
      } else {
        var twice := RemoveAll(prev, id) + [id];
        assert twice[|twice| - 1] != prev[|prev| - 1];
      }
    }
  }

  /** Selecting 1 then 2 and then toggling 1 off and on again reorders the
      list: the double toggle is not the identity on a selected id. */
  lemma ToggleTwiceReorders()
    ensures ToggleSelection(ToggleSelection([Num(1), Num(2)], Num(1)), Num(1)) == [Num(2), Num(1)]
  {
    ToggleTwicePresent([Num(1), Num(2)], Num(1));
    assert RemoveAll([Num(1), Num(2)], Num(1)) == [Num(2)];
  }

  /** The dashboard's tabs, in button order. */
  datatype Tab = Journals | Characters | Badges

  /** The value each tab button stores in `activeTab`. */
  function TabName(t: Tab): string {
    match t
    case Journals => "journals"
    case Characters => "characters"
    case Badges => "badges"
  }

  /** `activeTab` after the user clicked the given tab buttons in order;
      it starts at 'journals'. */
  function ActiveTab(clicks: seq<Tab>): (name: string)
    ensures name in {"journals", "characters", "badges"}
    ensures clicks == [] ==> name == "journals"
    ensures clicks != [] ==> name == TabName(clicks[|clicks| - 1])
  {
    if clicks == [] then "journals" else TabName(clicks[|clicks| - 1])
  }

  /** The three content sections, one guarded by each tab name. */
  datatype Panel = JournalsPanel | CharactersPanel | BadgesPanel

  /** The sections `dashboard-content` renders for a given `activeTab`. */
  function Rendered(activeTab: string): (panels: seq<Panel>)
    ensures JournalsPanel in panels <==> activeTab == "journals"
    ensures CharactersPanel in panels <==> activeTab == "characters"
    ensures BadgesPanel in panels <==> activeTab == "badges"
  {
    (if activeTab == "journals" then [JournalsPanel] else [])
    + (if activeTab == "characters" then [CharactersPanel] else [])
    + (if activeTab == "badges" then [BadgesPanel] else [])
  }

  /** Whatever the clicks, exactly one section shows, and it is the one for
      the active tab; exactly one button carries the 'active' class. */
  lemma ExactlyOnePanel(clicks: seq<Tab>)
    ensures |Rendered(ActiveTab(clicks))| == 1
    ensures clicks != [] ==> Rendered(ActiveTab(clicks)) == [PanelOf(clicks[|clicks| - 1])]
    ensures |set t: Tab | TabName(t) == ActiveTab(clicks)| == 1
  {
    var name := ActiveTab(clicks);
    var t :| TabName(t) == name;
    assert (set u: Tab | TabName(u) == name) == {t};
  }

  function PanelOf(t: Tab): Panel {
    match t
    case Journals => JournalsPanel
    case Characters => CharactersPanel
    case Badges => BadgesPanel
  }
}
