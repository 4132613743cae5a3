# Comic diary: page data logic in Dafny

This project models the data handling inside four React pages of a comic-diary journaling app. The rest of those pages is REST calls and markup.

- **Folder explorer** (`FolderExplorer`, `FolderTree`). It turns the folder and journal listings into one flat list of tree nodes. It nests that list with `buildTree`, using JavaScript's loose id matching: a number, its string form, and null or undefined as the root 0. It also models the expand/collapse set and the rename, delete and lock edits of the context menu.
- **Characters page** (`CharacterCatalogue`, `CharacterPage`). The 18-card fallback catalogue and the gender and age tables loaded with it. The per-card form tables. The six age sections. The payloads posted when mappings are saved. The image-type gate and the image update after an upload.
- **Enhanced dashboard** (`EnhancedDashboard`). The selected-character list that a click toggles, and the three tabs.
- **Comic generator** (`ComicGenerator`). The last-wins table of real-life names, the merge of that table into the character list with a three-level fallback, the fallback list, and the guard that refuses to request a comic without a selected character.

JavaScript values are the datatype `JsValue.JsVal` (undefined, null, booleans, integers, strings). Truthiness and `||` are modelled exactly for these values. An object used as a table is a `map<string, _>` keyed by `String(id)`, as JavaScript property keys are. So the number 5 and the string "5" name the same entry.

Every REST call is cut at the boundary: its outcome is a parameter (`Option`, `Response`, or an outcome datatype). Each operation returns the new state together with the request it would issue.

`buildTree` recurses with no bound. The model therefore gives it a depth budget (`fuel`) and returns `Option`. `Some` is the JavaScript result, and `None` for every budget is a call that recurses until the stack overflows. The model proves both directions:
- A cycle reachable from the root makes the explorer diverge for every budget. So does a root-level node without an id: JavaScript's default parameter also replaces an explicit `undefined`, so `buildTree(data, node.id)` searches the root again.
- Parent links that descend along a rank make it return.

## Model

| member | source | states |
|---|---|---|
| JsValue.IntToStringInjective | src/pages/FolderExplorer.jsx:78 | distinct numeric ids print differently, so `String(parentId)` stands for one number only |
| FolderExplorer.Normalize | src/pages/FolderExplorer.jsx:31-37 | the list is `res.data` when it is an array, else `res` when it is an array, else `res.data.results`, else empty; a non-empty result comes from one of those three |
| FolderExplorer.FolderNode | src/pages/FolderExplorer.jsx:42-50 | a folder node is droppable and of folder type, has parent 0 when the folder's parent is falsy, and is_locked false when unset; its text is always truthy and falls back name, title, "Folder id" |
| FolderExplorer.JournalNode | src/pages/FolderExplorer.jsx:52-59 | a journal node's id is the string "j" followed by the journal id; it is not droppable, its parent is the folder or 0, and its text is the title, else the name, else "Journal <id>" |
| FolderExplorer.FlatList | src/pages/FolderExplorer.jsx:61-62 | the flat list is every folder node, in order, followed by every journal node, in order |
| FolderExplorer.FetchTreeData | src/pages/FolderExplorer.jsx:22-68 | a failed request leaves the list empty; otherwise the list is the folder nodes then the journal nodes of the normalised responses, and exactly the first ones are of folder type |
| FolderExplorer.JournalNodeIdsDistinct | src/pages/FolderExplorer.jsx:53 | two journals with numeric ids get the same node id only when they are the same journal |
| FolderExplorer.ToggleExpanded | src/pages/FolderExplorer.jsx:89-97 | the node's membership in the expanded set flips and every other id's membership is unchanged |
| FolderExplorer.ToggleExpandedTwice | src/pages/FolderExplorer.jsx:89-97 | toggling the same node twice restores the expanded set |
| FolderExplorer.HandleNodeClick | src/pages/FolderExplorer.jsx:162-168 | a journal click opens that journal and leaves the set alone; a folder click toggles its expansion and opens nothing |
| FolderExplorer.HandleRename | src/pages/FolderExplorer.jsx:110-128 | a cancelled or empty name changes nothing and sends nothing; otherwise only the nodes with the target id get the new text, no other field or node changes, and the PATCH goes to the journal's title or the folder's name |
| FolderExplorer.Without | src/pages/FolderExplorer.jsx:139 | the surviving nodes are exactly the listed nodes whose id differs from the deleted one |
| FolderExplorer.HandleDelete | src/pages/FolderExplorer.jsx:130-144 | nothing happens without confirmation; a confirmed delete sends the journal or folder DELETE, and the list loses exactly the target's nodes only when that request succeeded |
| FolderExplorer.DeleteKeepsOrder | src/pages/FolderExplorer.jsx:139 | deleting from a concatenation deletes from each part, so survivors keep their relative order |
| FolderExplorer.HandleLockToggle | src/pages/FolderExplorer.jsx:146-160 | journals are left alone with no request; on a folder only the matching nodes' is_locked changes, to the negation of the folder's state, which is also what the PATCH sends |
| FolderExplorer.LockToggleTwice | src/pages/FolderExplorer.jsx:149-152 | locking and then toggling again restores whether the folder reads as locked |
| FolderTree.Children | src/pages/FolderExplorer.jsx:72-82 | at most the listed nodes, and a node is kept exactly when it is listed and its parent equals p, or String(p), or is null or undefined when p is 0; an undefined p counts as the default 0 |
| FolderTree.ChildrenKeepOrder | src/pages/FolderExplorer.jsx:72-82 | the kept nodes appear in list order |
| FolderTree.BuildTree | src/pages/FolderExplorer.jsx:71-87 | a returned tree has one entry per kept node, in order, each carrying that node |
| FolderTree.BuildForest | src/pages/FolderExplorer.jsx:83-86 | each kept node's children are exactly `buildTree(data, node.id)` |
| FolderTree.BuildTreeFuelMonotone | src/pages/FolderExplorer.jsx:71-87 | a larger depth budget never changes a result that was reached, so the budget only bounds the recursion |
| FolderTree.BuildForestFuelMonotone | src/pages/FolderExplorer.jsx:83-86 | the same for the mapped children |
| FolderTree.CycleDiverges | src/pages/FolderExplorer.jsx:83-86 | a node on a cycle of parent links recurses forever, whatever the budget |
| FolderTree.ForestNoneWhenSubtreeNone | src/pages/FolderExplorer.jsx:83-86 | one diverging child makes the whole `map` diverge |
| FolderTree.ReachableCycleDiverges | src/pages/FolderExplorer.jsx:71-87 | a cycle hanging under p makes `buildTree(data, p)` diverge |
| FolderTree.SelfParentDiverges | src/pages/FolderExplorer.jsx:83-86 | a root-level folder listed as its own parent hangs the explorer |
| FolderTree.IdlessRootDiverges | src/pages/FolderExplorer.jsx:71-86 | a root-level node without an id hangs the explorer, since `buildTree(data, undefined)` takes the default root 0 |
| FolderTree.IdlessFolderHangs | src/pages/FolderExplorer.jsx:42-50 | a single root folder listed without an id makes the explorer diverge |
| FolderTree.ForestFromTrees | src/pages/FolderExplorer.jsx:83-86 | the children list is built once every child's subtree is |
| FolderTree.RankedTreeTerminates | src/pages/FolderExplorer.jsx:71-87 | when parent links descend along a rank, a node's subtree is built with a budget one above its rank |
| FolderTree.RankedTerminates | src/pages/FolderExplorer.jsx:71-87 | on acyclic (ranked) data `buildTree` returns for every root once the budget exceeds every rank |
| FolderTree.BuiltNodesAreLinked | src/pages/FolderExplorer.jsx:71-87 | every node shown is listed and hangs directly under the root or under another listed node |
| FolderTree.ForestNodesAreLinked | src/pages/FolderExplorer.jsx:83-86 | the same for the nodes under a list of children |
| FolderTree.DeleteOrphansChildren | src/pages/FolderExplorer.jsx:139 | after deleting a folder its children stay in the flat list but no longer appear in the explorer |
| FolderTree.JournalsAreLeaves | src/pages/FolderExplorer.jsx:52-59 | with numeric or missing parents, no node hangs under a journal's "j" id |
| CharacterCatalogue.CatalogueWellFormed | src/pages/CharacterPage.jsx:17-197 | the catalogue is 18 cards with ids 1 to 18 in order, and every default gender and age is one of the form's options |
| CharacterCatalogue.GroupsUniform | src/pages/CharacterPage.jsx:17-173 | each age group holds only cards of its own age |
| CharacterCatalogue.CatalogueKeysDistinct | src/pages/CharacterPage.jsx:177-184 | no two catalogue cards share an object key |
| CharacterPage.FromApi | src/pages/CharacterPage.jsx:207-220 | API cards are kept as sent; each card key gets its gender or "Other" and its age or "Adult" (the last card with a key wins), so no loaded trait is blank |
| CharacterPage.FromDefaults | src/pages/CharacterPage.jsx:221-234 | with distinct keys, each card's gender and age are its own defaults |
| CharacterPage.LoadCharacters | src/pages/CharacterPage.jsx:203-255 | the API list is used exactly when it is non-empty; otherwise, including on failure, the catalogue is shown, each card's gender and age are its own defaults, and every loaded trait is a form option |
| CharacterPage.SetEntry | src/pages/CharacterPage.jsx:257-271 | a handler sets exactly the entry of the card's key and leaves every other entry as it was |
| CharacterPage.SetEntryAliasing | src/pages/CharacterPage.jsx:257-271 | the number id and its string form edit the same entry, and the later edit wins |
| CharacterPage.Section | src/pages/CharacterPage.jsx:386 | a section lists exactly the characters whose default age equals its heading |
| CharacterPage.Sections | src/pages/CharacterPage.jsx:386-516 | there are six sections, one per age option, in option order |
| CharacterPage.SectionsPartition | src/pages/CharacterPage.jsx:386-516 | a character appears in at most one section, and in one exactly when its age is one of the six labels |
| CharacterPage.SectionOfUniform | src/pages/CharacterPage.jsx:386-516 | when each group has its own age, the section for a group's age is exactly that group, in order |
| CharacterPage.CatalogueSections | src/pages/CharacterPage.jsx:176-184 | with the catalogue loaded, the six sections are exactly the six age groups |
| CharacterPage.TrimEmptyIffBlank | src/pages/CharacterPage.jsx:321 | `trim()` leaves nothing exactly when the name is all JavaScript white space |
| CharacterPage.SaveMappings | src/pages/CharacterPage.jsx:315-331 | one payload for every card whose name is non-blank and none for blank names; the payload carries the card key, the untrimmed name, and the relationship, gender and age with defaults 'Other', 'Other', 'Adult' |
| CharacterPage.SavedTraitsAreOptions | src/pages/CharacterPage.jsx:187-197 | while the tables hold only select values or nothing, every posted relationship, gender and age group is a form option, the defaults included |
| CharacterPage.SavedNamesAreNotBlank | src/pages/CharacterPage.jsx:321 | a name is saved exactly when it has a non-white-space character |
| CharacterPage.SaveNotice | src/pages/CharacterPage.jsx:333-343 | success shows the saved message and no error; a failure shows the retry error |
| CharacterPage.MatchesImageIffContains | src/pages/CharacterPage.jsx:278 | the `image.*` test accepts exactly the types that contain "image" |
| CharacterPage.ImageTypesAccepted | src/pages/CharacterPage.jsx:278 | every `image/...` type passes |
| CharacterPage.StartUpload | src/pages/CharacterPage.jsx:273-283 | no file does nothing; a non-image sets the error and sends nothing; an image marks the card uploading and sends the upload |
| CharacterPage.FinishUpload | src/pages/CharacterPage.jsx:298-312 | a truthy image_url replaces the image of exactly the cards with that id and nothing else; a failure sets the error and keeps the cards; the uploading flag is cleared either way; the success message changes only on a stored image and the error only on a failure |
| CharacterPage.UploadClearsFlag | src/pages/CharacterPage.jsx:283-311 | after a started upload ends, the card is no longer uploading and other cards' flags are unchanged |
| EnhancedDashboard.RemoveAll | src/pages/EnhancedDashboard.jsx:63 | every copy of the id is removed and every other id keeps its membership |
| EnhancedDashboard.ToggleSelection | src/pages/EnhancedDashboard.jsx:60-66 | the id's membership flips, others keep theirs, an absent id is appended, and the other ids keep their relative order |
| EnhancedDashboard.RemoveAllIdempotent | src/pages/EnhancedDashboard.jsx:63 | removing the same id again removes nothing more |
| EnhancedDashboard.ToggleTwiceAbsent | src/pages/EnhancedDashboard.jsx:61-65 | toggling an unselected id twice restores the list |
| EnhancedDashboard.ToggleTwicePresent | src/pages/EnhancedDashboard.jsx:61-65 | toggling a selected id twice moves it to the end |
| EnhancedDashboard.ToggleTwiceRestores | src/pages/EnhancedDashboard.jsx:61-65 | on a duplicate-free list a double toggle restores the list exactly when the id was unselected or last |
| EnhancedDashboard.ToggleTwiceReorders | src/pages/EnhancedDashboard.jsx:61-65 | double-toggling 1 in [1, 2] gives [2, 1] |
| EnhancedDashboard.ActiveTab | src/pages/EnhancedDashboard.jsx:8-34 | the active tab is 'journals', 'characters' or 'badges': the last clicked, initially 'journals' |
| EnhancedDashboard.Rendered | src/pages/EnhancedDashboard.jsx:38-77 | each section renders exactly when the active tab has its name |
| EnhancedDashboard.ExactlyOnePanel | src/pages/EnhancedDashboard.jsx:18-77 | whatever the clicks, exactly one section renders, the clicked tab's, and exactly one button is active |
| ComicGenerator.CharactersData | src/pages/ComicGenerator.jsx:18 | a page's results are used when present, else the bare array; anything else fails |
| ComicGenerator.MappingTable | src/pages/ComicGenerator.jsx:22-25 | one entry per mapped character key, holding the latest record's real-life name |
| ComicGenerator.Relationship | src/pages/ComicGenerator.jsx:30 | the mapped name if truthy, else the character's own relationship if truthy, else 'Not specified'; never falsy |
| ComicGenerator.Merge | src/pages/ComicGenerator.jsx:28-31 | same length and order, every field other than relationship preserved, every relationship truthy |
| ComicGenerator.FetchCharacters | src/pages/ComicGenerator.jsx:15-45 | a failure of either request shows the fallback list; otherwise the merged list |
| ComicGenerator.FallbackShape | src/pages/ComicGenerator.jsx:37-41 | the fallback is three cards with ids 1, 2, 3 and relationship 'Not specified' |
| ComicGenerator.MergeShowsLatestMapping | src/pages/ComicGenerator.jsx:22-31 | a card with a truthy mapping shows the latest mapping's real-life name |
| ComicGenerator.MergeKeepsUnmapped | src/pages/ComicGenerator.jsx:28-31 | an unmapped card with its own relationship is shown unchanged |
| ComicGenerator.MergeIdempotent | src/pages/ComicGenerator.jsx:28-31 | merging the same mappings again changes nothing |
| ComicGenerator.StartCreate | src/pages/ComicGenerator.jsx:48-56 | a request is sent exactly when a character is selected; without one only the error 'Please select a character first.' is set; with one, loading starts, error and comic are cleared, and the request names the selected id |
| ComicGenerator.FinishCreate | src/pages/ComicGenerator.jsx:58-67 | loading stops; success shows the new comic; failure shows the server's error if truthy, else 'Failed to create comic. Please try again.' |
| ComicGenerator.CreateFailureVisible | src/pages/ComicGenerator.jsx:48-67 | a failed request after a selection leaves no comic, no loading and a visible error |

Two behaviours of the code are modelled as written:
- The image check passes the string `'image.*'` to `String.prototype.match`, which compiles it as an unanchored regular expression. So any type containing "image" passes, for example `application/x-image`, not just `image/...` types.
- Toggling a selected character off and on again does not give the selection back: it moves the character to the end of the list. A double toggle is the identity only for an unselected id, or for the last id selected.

## Left out

- The rich-text editing and rendering (src/pages/Dashboard.jsx, src/pages/JournalPage.jsx, src/App.jsx). It is done entirely by draft-js with draftjs-to-html, by Lexical and by Quill, none of which is part of this model.
- src/pages/AuthPage.jsx and src/router.jsx (token storage, route guards), the components under src/components, src/services/comicApi.js, src/pages/LandingPage.jsx and src/pages/ComicDisplay.jsx. These are forms, rendering and one-line REST wrappers.
- Every `api` call, `localStorage`, `prompt`/`confirm`, `window.location.reload`, `setTimeout` and `console` output. They are I/O: their outcomes are parameters, and the reload and the timed clearing of messages are not modelled.
- Markup, styling, drag and drop, hover and context-menu coordinates, and the `selected` highlight of a comic character card. These are UI.
- Floating-point ids, NaN, objects and arrays as ids, and `String(n)` for |n| of 10^21 or more (exponent notation). Ids are undefined, null, booleans, integers or strings.
- FolderTree.BuildTree: the unbounded JavaScript recursion is a depth budget. Divergence is stated as "None for every budget" and a stack overflow is not distinguished from it.
- CharacterPage.SaveMappings: states the set of payloads but not the order the `for..in` loop posts them in. It also does not state which payloads were already posted when a later post fails.
- CharacterPage.FinishUpload: the success message's removal after three seconds is not modelled.
- ComicGenerator.FetchCharacters: whether the mappings request is still sent after the character list turned out unusable is not distinguished. Both paths end in the fallback list.
