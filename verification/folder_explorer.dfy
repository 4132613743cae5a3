/** The flat list behind the folder/journal explorer: turning the two API
    listings into node records, and the edits the context menu applies to
    that list. */
module FolderExplorer {
  import opened Wrappers
  import opened JsValue
  import opened Responses
  import opened Seqs

  datatype NodeType = FolderType | JournalType

  /** One record of `treeData`. A field the node was built without (a folder's
      `journalId`, a journal's `color` or `is_locked`) reads as Undefined. */
  datatype TreeNode = TreeNode(
    id: JsVal,
    parent: JsVal,
    droppable: bool,
    text: JsVal,
    color: JsVal,
    isLocked: JsVal,
    journalId: JsVal,
    kind: NodeType)

  /** A folder as the `/folders/` endpoint returns it. */
  datatype Folder = Folder(id: JsVal, parent: JsVal, name: JsVal, title: JsVal, color: JsVal, isLocked: JsVal)

  /** A journal entry as the `/journal-entries/` endpoint returns it. */
  datatype Journal = Journal(id: JsVal, folder: JsVal, title: JsVal, name: JsVal)

  /** The REST calls the explorer issues; their outcome is an input. */
  datatype Request =
    | PatchJournalTitle(journalId: JsVal, title: string)
    | PatchFolderName(folderId: JsVal, name: string)
    | DeleteJournal(journalId: JsVal)
    | DeleteFolder(folderId: JsVal)
    | PatchFolderLock(folderId: JsVal, locked: bool)

  /** A context-menu edit: the new flat list and the request it issued, if any. */
  datatype Edit = Edit(data: seq<TreeNode>, request: Option<Request>)

  /** Picks the list out of a response: `res.data` if it is an array, else
      `res` if it is an array, else `res.data.results`, else nothing. */
  function Normalize<T>(res: Response<T>): (items: seq<T>)
    ensures res.data.List? ==> items == res.data.items
    ensures !res.data.List? && res.asArray.Some? ==> items == res.asArray.value
    ensures !res.data.List? && res.asArray.None? && res.data.Page? && res.data.results.Some? ==>
              items == res.data.results.value
    ensures items != [] ==> res.data.List? || res.asArray.Some? || (res.data.Page? && res.data.results.Some?)
  {
    match res.data
    case List(xs) => xs
    case _ =>
      if res.asArray.Some? then res.asArray.value
      else match res.data
        case Page(Some(xs)) => xs
        case _ => []
  }

  /** `folder.parent || 0`, `folder.name || folder.title || "Folder <id>"`,
      `folder.is_locked || false`. */
  function FolderNode(f: Folder): (n: TreeNode)
    ensures n.kind == FolderType && n.droppable && n.id == f.id && n.color == f.color
    ensures n.parent == (if Truthy(f.parent) then f.parent else Num(0))
    ensures n.isLocked == (if Truthy(f.isLocked) then f.isLocked else Bool(false))
    ensures Truthy(n.text)
    ensures n.text == f.name || n.text == f.title || n.text == Str("Folder " + ToJsString(f.id))
    ensures Truthy(f.name) ==> n.text == f.name
    ensures !Truthy(f.name) && Truthy(f.title) ==> n.text == f.title
    ensures n.journalId == Undefined
  {
    TreeNode(
      id := f.id,
      parent := Or(f.parent, Num(0)),
      droppable := true,
      text := Or(f.name, Or(f.title, Str("Folder " + ToJsString(f.id)))),
      color := f.color,
      isLocked := Or(f.isLocked, Bool(false)),
      journalId := Undefined,
      kind := FolderType)
  }

  /** `'j' + journal.id`, `journal.folder || 0`, `journal.title || journal.name || "Journal <id>"`. */
  function JournalNode(j: Journal): (n: TreeNode)
    ensures n.kind == JournalType && !n.droppable && n.journalId == j.id
    ensures n.id.Str? && |n.id.s| >= 1 && n.id.s[0] == 'j' && n.id.s[1..] == ToJsString(j.id)
    ensures n.parent == (if Truthy(j.folder) then j.folder else Num(0))
    ensures Truthy(n.text)
    ensures Truthy(j.title) ==> n.text == j.title
    ensures !Truthy(j.title) && Truthy(j.name) ==> n.text == j.name
    ensures !Truthy(j.title) && !Truthy(j.name) ==> n.text == Str("Journal " + ToJsString(j.id))
    ensures n.color == Undefined && n.isLocked == Undefined
  {
    TreeNode(
      id := Str("j" + ToJsString(j.id)),
      parent := Or(j.folder, Num(0)),
      droppable := false,
      text := Or(j.title, Or(j.name, Str("Journal " + ToJsString(j.id)))),
      color := Undefined,
      isLocked := Undefined,
      journalId := j.id,
      kind := JournalType)
  }

  /** `[...folderNodes, ...journalNodes]`. */
  function FlatList(folders: seq<Folder>, journals: seq<Journal>): (data: seq<TreeNode>)
    ensures |data| == |folders| + |journals|
    ensures forall i :: 0 <= i < |folders| ==> data[i] == FolderNode(folders[i])
    ensures forall k :: 0 <= k < |journals| ==> data[|folders| + k] == JournalNode(journals[k])
  {
    seq(|folders|, i requires 0 <= i < |folders| => FolderNode(folders[i]))
    + seq(|journals|, k requires 0 <= k < |journals| => JournalNode(journals[k]))
  }

  /** `fetchFoldersAndJournals`: a rejected request (None) empties the list. */
  function FetchTreeData(folders: Option<Response<Folder>>, journals: Option<Response<Journal>>): (data: seq<TreeNode>)
    ensures folders.None? || journals.None? ==> data == []
    ensures folders.Some? && journals.Some? ==>
              data == FlatList(Normalize(folders.value), Normalize(journals.value))
    ensures folders.Some? && journals.Some? ==>
              |data| == |Normalize(folders.value)| + |Normalize(journals.value)|
    ensures folders.Some? && journals.Some? ==>
              forall i :: 0 <= i < |data| ==> (data[i].kind == FolderType <==> i < |Normalize(folders.value)|)
  {
    if folders.None? || journals.None? then []
    else FlatList(Normalize(folders.value), Normalize(journals.value))
  }

  /** Two journals get the same node id only when their ids print alike, which
      for numeric ids means they are the same journal. */
  lemma JournalNodeIdsDistinct(a: Journal, b: Journal)
    requires a.id.Num? && b.id.Num?
    requires JournalNode(a).id == JournalNode(b).id
    ensures a.id == b.id
  {
    assert ToJsString(a.id) == JournalNode(a).id.s[1..];
    IntToStringInjective(a.id.n, b.id.n);
  }

  /** `toggleExpanded`: flips the membership of `id` and nothing else. */
  function ToggleExpanded(expanded: set<JsVal>, id: JsVal): (r: set<JsVal>)
    ensures id in r <==> id !in expanded
    ensures forall other :: other != id ==> (other in r <==> other in expanded)
  {
    if id in expanded then expanded - {id} else expanded + {id}
  }

  /** Toggling the same node twice leaves the expanded set as it was. */
  lemma ToggleExpandedTwice(expanded: set<JsVal>, id: JsVal)
    ensures ToggleExpanded(ToggleExpanded(expanded, id), id) == expanded
  {
  }

  /** `handleNodeClick`: a journal is opened (its id handed to `onJournalOpen`),
      a folder is expanded or collapsed. */
  function HandleNodeClick(expanded: set<JsVal>, node: TreeNode): (r: (set<JsVal>, Option<JsVal>))
    ensures node.kind == JournalType ==> r == (expanded, Some(node.journalId))
    ensures node.kind == FolderType ==> r.1 == None && r.0 == ToggleExpanded(expanded, node.id)
  {
    if node.kind == JournalType then (expanded, Some(node.journalId))
    else (ToggleExpanded(expanded, node.id), None)
  }

  /** `handleRename`: `newName` is what the prompt returned (None when cancelled). */
  function HandleRename(data: seq<TreeNode>, target: TreeNode, newName: Option<string>): (e: Edit)
    ensures newName.None? || newName.value == "" ==> e == Edit(data, None)
    ensures |e.data| == |data|
    ensures forall i :: 0 <= i < |data| ==> e.data[i].(text := data[i].text) == data[i]
    ensures forall i :: 0 <= i < |data| && data[i].id != target.id ==> e.data[i] == data[i]
    ensures newName.Some? && newName.value != "" ==>
              forall i :: 0 <= i < |data| && data[i].id == target.id ==> e.data[i].text == Str(newName.value)
    ensures newName.Some? && newName.value != "" && target.kind == JournalType ==>
              e.request == Some(PatchJournalTitle(target.journalId, newName.value))
    ensures newName.Some? && newName.value != "" && target.kind == FolderType ==>
              e.request == Some(PatchFolderName(target.id, newName.value))
  {
    match newName
    case None => Edit(data, None)
    case Some(name) =>
      if name == "" then Edit(data, None)
      else
        var renamed := seq(|data|, i requires 0 <= i < |data| =>
          if data[i].id == target.id then data[i].(text := Str(name)) else data[i]);
        Edit(renamed, Some(if target.kind == JournalType then PatchJournalTitle(target.journalId, name)
                           else PatchFolderName(target.id, name)))
  }

  /** The nodes that survive deleting `id`: `treeData.filter(n => n.id !== id)`. */
  function Without(data: seq<TreeNode>, id: JsVal): (r: seq<TreeNode>)
    ensures forall n :: n in r <==> n in data && n.id != id
  {
    Filter(data, (n: TreeNode) => n.id != id)
  }

  /** `handleDelete`: nothing happens unless the user confirms; the list is
      filtered only once the DELETE request succeeded. */
  function HandleDelete(data: seq<TreeNode>, target: TreeNode, confirmed: bool, succeeded: bool): (e: Edit)
    ensures !confirmed ==> e == Edit(data, None)
    ensures confirmed && target.kind == JournalType ==> e.request == Some(DeleteJournal(target.journalId))
    ensures confirmed && target.kind == FolderType ==> e.request == Some(DeleteFolder(target.id))
    ensures confirmed && !succeeded ==> e.data == data
    ensures confirmed && succeeded ==> forall n :: n in e.data <==> n in data && n.id != target.id
  {
    if !confirmed then Edit(data, None)
    else
      var request := if target.kind == JournalType then DeleteJournal(target.journalId) else DeleteFolder(target.id);
      Edit(if succeeded then Without(data, target.id) else data, Some(request))
  }

  /** Deleting keeps the surviving nodes in their original relative order:
      deleting from a concatenation deletes from each part. */
  lemma DeleteKeepsOrder(a: seq<TreeNode>, b: seq<TreeNode>, id: JsVal)
    ensures Without(a + b, id) == Without(a, id) + Without(b, id)
  {
    FilterDistributes(a, b, (n: TreeNode) => n.id != id);
  }

  /** `handleLockToggle`: journals cannot be locked; on a folder the matching
      nodes get the negation of the folder's lock state. */
  function HandleLockToggle(data: seq<TreeNode>, target: TreeNode): (e: Edit)
    ensures target.kind == JournalType ==> e == Edit(data, None)
    ensures |e.data| == |data|
    ensures forall i :: 0 <= i < |data| ==> e.data[i].(isLocked := data[i].isLocked) == data[i]
    ensures forall i :: 0 <= i < |data| && data[i].id != target.id ==> e.data[i] == data[i]
    ensures target.kind == FolderType ==>
              && e.request == Some(PatchFolderLock(target.id, !Truthy(target.isLocked)))
              && forall i :: 0 <= i < |data| && data[i].id == target.id ==>
                   e.data[i].isLocked == Bool(!Truthy(target.isLocked))
  {
    if target.kind == JournalType then Edit(data, None)
    else
      var locked := !Truthy(target.isLocked);
      var toggled := seq(|data|, i requires 0 <= i < |data| =>
        if data[i].id == target.id then data[i].(isLocked := Bool(locked)) else data[i]);
      Edit(toggled, Some(PatchFolderLock(target.id, locked)))
  }

  /** Locking then unlocking the same folder (the menu reads the node's new
      state the second time) restores the lock state's truthiness. */
  lemma LockToggleTwice(data: seq<TreeNode>, target: TreeNode, i: int)
    requires target.kind == FolderType && 0 <= i < |data| && data[i] == target
    ensures var once := HandleLockToggle(data, target).data;
            var twice := HandleLockToggle(once, once[i]).data;
            Truthy(twice[i].isLocked) == Truthy(target.isLocked)
  {
  }
}
