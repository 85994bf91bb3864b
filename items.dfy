/**
 * Item revisions: their kinds, how an item is normalised against its
 * action, the get-or-create of its row, the source-item edges it records,
 * its memoised selected label and its parent directory.
 */
module Items {
  import opened Php
  import opened Schema
  import opened Labels

  predicate IsFile(t: ItemType) {
    t == File || t == FileDeleted
  }

  predicate IsDirectory(t: ItemType) {
    t == Directory || t == DirectoryDeleted
  }

  predicate IsDeleted(t: ItemType) {
    t == FileDeleted || t == DirectoryDeleted
  }

  /** Every item is a file or a directory and not both; the deleted kinds carry the codes 3 and 4. */
  lemma ItemKinds(t: ItemType)
    ensures IsFile(t) != IsDirectory(t)
    ensures IsFile(t) <==> ItemTypeCode(t) % 2 == 1
    ensures IsDeleted(t) <==> ItemTypeCode(t) >= 3
  {
  }

  // ---------------------------------------------------------------------
  // sanitize

  /** The type after `sanitize`: a deleted item gets the deleted variant of its kind. */
  function SanitizedType(action: Option<Action>, t: ItemType): (r: ItemType)
    ensures IsFile(r) == IsFile(t)
    ensures action == Some(Deleted) ==> IsDeleted(r)
    ensures action != Some(Deleted) ==> r == t
  {
    if action == Some(Deleted) then
      (if t == File then FileDeleted else if t == Directory then DirectoryDeleted else t)
    else t
  }

  /**
   * The source list after `sanitize` as written: only "added" loses its
   * sources; the truncation meant for the one-source actions assigns to an
   * undefined variable and leaves the list alone.
   */
  function SanitizedSourcesAsWritten<T>(action: Option<Action>, sources: seq<T>): seq<T> {
    if action == Some(Added) then [] else sources
  }

  predicate OneSourceAction(action: Option<Action>) {
    action == Some(Modified) || action == Some(Moved) || action == Some(Copied) || action == Some(Deleted)
  }

  /** The source list after `sanitize` as intended: nothing for "added", the first one only for one-source actions. */
  function SanitizedSources<T>(action: Option<Action>, sources: seq<T>): (r: seq<T>)
    ensures action == Some(Added) ==> r == []
    ensures OneSourceAction(action) ==> |r| == if |sources| == 0 then 0 else 1
    ensures r <= sources
  {
    if action == Some(Added) then []
    else if OneSourceAction(action) && |sources| > 1 then [sources[0]]
    else sources
  }

  /** A "modified" item with two sources keeps both when sanitised as written. */
  lemma SanitizeAsWrittenKeepsExtraSources()
    ensures |SanitizedSourcesAsWritten(Some(Modified), [1, 2])| == 2
    ensures SanitizedSources(Some(Modified), [1, 2]) == [1]
  {
  }

  /** Sanitising twice is sanitising once; an unset action changes nothing. */
  lemma SanitizeIdempotent<T>(action: Option<Action>, t: ItemType, sources: seq<T>)
    ensures SanitizedType(action, SanitizedType(action, t)) == SanitizedType(action, t)
    ensures SanitizedSources(action, SanitizedSources(action, sources)) == SanitizedSources(action, sources)
    ensures action.None? ==> SanitizedType(action, t) == t && SanitizedSources(action, sources) == sources
  {
  }

  // ---------------------------------------------------------------------
  // ensure / insert

  /** The item table, an item's id and the next serial value. */
  datatype ItemState = ItemState(items: map<nat, ItemRow>, itemId: Option<nat>, serial: nat)

  /** Some row carries the key (repository, path, revision). */
  ghost predicate ItemKeyExists(items: map<nat, ItemRow>, repoId: nat, path: string, revision: string) {
    exists i :: i in items && ItemKey(items[i], repoId, path, revision)
  }

  ghost predicate ItemRowExists(items: map<nat, ItemRow>, row: ItemRow) {
    ItemKeyExists(items, row.repoId, row.path, row.revision)
  }

  /** `insert`: a set id has its row rewritten (if there is one), an unset id gets a new row. */
  function WriteItem(items: map<nat, ItemRow>, row: ItemRow, itemId: Option<nat>, serial: nat): ItemState {
    if itemId.Some? then
      ItemState(if itemId.value in items then items[itemId.value := row] else items, itemId, serial)
    else
      ItemState(items[serial := row], Some(serial), serial + 1)
  }

  /**
   * `ensure`: adopt the id of the row with the same (repository, path,
   * revision); rewrite that row when its type differs; with no such row, `insert`.
   */
  ghost function EnsureItem(items: map<nat, ItemRow>, row: ItemRow, itemId: Option<nat>, serial: nat): ItemState {
    if ItemRowExists(items, row) then
      var i :| i in items && ItemKey(items[i], row.repoId, row.path, row.revision);
      if items[i].itemType == row.itemType then ItemState(items, Some(i), serial)
      else WriteItem(items, row, Some(i), serial)
    else WriteItem(items, row, itemId, serial)
  }

  predicate ItemTableValid(items: map<nat, ItemRow>, serial: nat) {
    0 < serial && IdsBelow(items, serial) && UniqueItemKeys(items)
  }

  /** The cases of `ensure`. */
  lemma EnsureItemCases(items: map<nat, ItemRow>, row: ItemRow, itemId: Option<nat>, serial: nat)
    requires ItemTableValid(items, serial)
    ensures var r := EnsureItem(items, row, itemId, serial);
      (forall i :: i in items && ItemKey(items[i], row.repoId, row.path, row.revision) ==>
         r == (if items[i].itemType == row.itemType then ItemState(items, Some(i), serial)
               else ItemState(items[i := row], Some(i), serial))) &&
      (!ItemRowExists(items, row) && itemId.None? ==>
         serial !in items && r == ItemState(items[serial := row], Some(serial), serial + 1)) &&
      (!ItemRowExists(items, row) && itemId.Some? ==> r.itemId == itemId && r.serial == serial)
  {
  }

  /** `ensure` keeps the table valid, leaves a set id and makes the row it names (if any) carry the item. */
  lemma EnsureItemValid(items: map<nat, ItemRow>, row: ItemRow, itemId: Option<nat>, serial: nat)
    requires ItemTableValid(items, serial)
    ensures var r := EnsureItem(items, row, itemId, serial);
      ItemTableValid(r.items, r.serial) && serial <= r.serial && r.itemId.Some? &&
      r.items.Keys >= items.Keys &&
      (forall i :: i in items && !ItemKey(items[i], row.repoId, row.path, row.revision) && Some(i) != itemId ==>
         r.items[i] == items[i]) &&
      (r.itemId.value in r.items ==> r.items[r.itemId.value] == row)
  {
    var r := EnsureItem(items, row, itemId, serial);
    assert UniqueItemKeys(r.items) by {
      if ItemRowExists(items, row) {
        var i :| i in items && ItemKey(items[i], row.repoId, row.path, row.revision);
        assert forall j :: j in items && ItemKey(items[j], row.repoId, row.path, row.revision) ==> j == i;
      } else {
        assert forall j :: j in items ==> !ItemKey(items[j], row.repoId, row.path, row.revision);
      }
    }
  }

  /** A second `ensure` changes nothing. */
  lemma EnsureItemIdempotent(items: map<nat, ItemRow>, row: ItemRow, itemId: Option<nat>, serial: nat)
    requires ItemTableValid(items, serial)
    ensures var r := EnsureItem(items, row, itemId, serial);
      EnsureItem(r.items, row, r.itemId, r.serial) == r
  {
    var r := EnsureItem(items, row, itemId, serial);
    EnsureItemValid(items, row, itemId, serial);
    EnsureItemCases(r.items, row, r.itemId, r.serial);
    if r.itemId.value in r.items {
      assert ItemKey(r.items[r.itemId.value], row.repoId, row.path, row.revision);
    } else {
      assert !ItemRowExists(items, row);
      assert forall j :: j in r.items ==> j in items && r.items[j] == items[j];
      assert !ItemRowExists(r.items, row);
    }
  }

  // ---------------------------------------------------------------------
  // Source-item edges

  /** `insertSourceRevision`: drop the edge of this (item, source) pair, then add the new one without line counts. */
  function ReplaceEdge(edges: set<SourceEdge>, itemId: nat, sourceId: nat, action: Option<Action>): set<SourceEdge> {
    (set e | e in edges && !(e.itemId == itemId && e.sourceId == sourceId)) +
    {SourceEdge(itemId, sourceId, action, false, 0, 0)}
  }

  /** Exactly one edge of the pair remains, carrying the action; other edges are untouched. */
  lemma ReplaceEdgeSpec(edges: set<SourceEdge>, itemId: nat, sourceId: nat, action: Option<Action>)
    ensures var r := ReplaceEdge(edges, itemId, sourceId, action);
      (forall e :: e in r && e.itemId == itemId && e.sourceId == sourceId ==>
         e == SourceEdge(itemId, sourceId, action, false, 0, 0)) &&
      SourceEdge(itemId, sourceId, action, false, 0, 0) in r &&
      (forall e: SourceEdge :: !(e.itemId == itemId && e.sourceId == sourceId) ==> (e in r <==> e in edges)) &&
      (UniqueEdges(edges) ==> UniqueEdges(r))
  {
  }

  // ---------------------------------------------------------------------
  // Parent items

  /** Where `getParentItem` looks: at the item itself, nowhere, or at a directory path. */
  datatype ParentChoice = Itself | NoParent | ParentAt(path: string)

  /** The path logic of `getParentItem`. */
  function ParentPath(path: string, parentPath: Option<string>): (r: ParentChoice)
    ensures parentPath.None? ==> r == ParentAt(Dirname(path))
    ensures parentPath.Some? && parentPath.value == path ==> r == Itself
    ensures parentPath.Some? && parentPath.value != path &&
            (parentPath.value == "/" || Contains(path + "/", parentPath.value + "/")) ==>
              r == ParentAt(parentPath.value)
    ensures r.NoParent? <==>
      parentPath.Some? && parentPath.value != path && parentPath.value != "/" &&
      !Contains(path + "/", parentPath.value + "/")
  {
    if parentPath.None? then ParentAt(Dirname(path))
    else if path == parentPath.value then Itself
    else if parentPath.value == "/" || Contains(path + "/", parentPath.value + "/") then ParentAt(parentPath.value)
    else NoParent
  }

  /**
   * For an absolute path, the direct parent (no `parent_path`) passes the
   * explicit-ancestor test too: asking for `dirname(path)` by name gives the
   * same directory, unless the path is its own dirname (the root).
   */
  lemma DirectParentIsAncestor(path: string)
    requires |path| > 0 && path[0] == '/' && Dirname(path) != path
    ensures ParentPath(path, Some(Dirname(path))) == ParentAt(Dirname(path))
  {
    var d := Dirname(path);
    DirnameOfAbsolute(path);
    if d != "/" {
      assert d < path && path[|d|] == '/';
      assert (d + "/") <= (path + "/") by {
        forall i | 0 <= i < |d| + 1 ensures (d + "/")[i] == (path + "/")[i] {
          if i < |d| {
            assert (d + "/")[i] == d[i] == path[i];
          }
        }
      }
      assert OccursAt(path + "/", d + "/", 0);
      ContainsAt(path + "/", d + "/");
    }
  }

  /** Backend capabilities that matter here. */
  datatype Capability = DirectoryRevisions | AtomicCommits

  /** The parent's revision: the item's own only for backends that version directories. */
  function ParentRevision(revision: string, capabilities: set<Capability>): string {
    if DirectoryRevisions in capabilities then revision else ""
  }

  /** The subject `pregItemMatch` tests: directories other than the root get a trailing slash. */
  function MatchSubject(path: string, t: ItemType): string {
    if IsDirectory(t) && path != "/" then path + "/" else path
  }

  // ---------------------------------------------------------------------
  // Selected label

  /** Where a selected label is to be retrieved from. */
  datatype Recipe = FromOperation(opId: nat) | FromOtherItem(tags: seq<string>) | FromUnknown(source: string)

  /** The memo: not looked up yet, looked up and absent (FALSE), or found. */
  datatype Memo = Unresolved | NoLabel | Resolved(selected: Label)

  /** What `getSelectedLabel` hands back: NULL, FALSE or a label. */
  datatype Selection = NullSelection | FalseSelection | LabelSelection(selected: Label)

  /**
   * The label a backend's resolver returns, field by field: its type code,
   * name, action and id as the resolver set them, and its repository.
   */
  datatype ResolvedLabel = ResolvedLabel(labelType: int, name: string, action: Option<Action>,
                                         labelId: Option<nat>, repoId: nat)

  /** The key of the row that `ensure` reads or writes for an item. */
  function RowKey(repoId: nat, path: string, revision: string, t: ItemType): ItemRow {
    ItemRow(repoId, path, revision, t)
  }

  /** The row write of `insert`. */
  method WriteRow(st: Store, row: ItemRow, itemId: Option<nat>) returns (id: Option<nat>)
    requires st.Valid()
    requires forall j :: j in st.items && ItemKey(st.items[j], row.repoId, row.path, row.revision) ==> itemId == Some(j)
    modifies st
    ensures st.Valid()
    ensures ItemState(st.items, id, st.serial) == WriteItem(old(st.items), row, itemId, old(st.serial))
    ensures st.Snapshot() == old(st.Snapshot()).(items := st.items, serial := st.serial)
  {
    id := itemId;
    if itemId.Some? {
      if itemId.value in st.items {
        st.items := st.items[itemId.value := row];
      }
    } else {
      var newId := st.NextSerial();
      st.items := st.items[newId := row];
      id := Some(newId);
    }
  }

  /** The get-or-create of `ensure` for an item with the given row and id; the new id is returned. */
  method EnsureRow(st: Store, row: ItemRow, itemId: Option<nat>) returns (id: Option<nat>)
    requires st.Valid()
    modifies st
    ensures st.Valid()
    ensures ItemState(st.items, id, st.serial) == EnsureItem(old(st.items), row, itemId, old(st.serial))
    ensures id.Some?
    ensures st.Snapshot() == old(st.Snapshot()).(items := st.items, serial := st.serial)
  {
    EnsureItemCases(st.items, row, itemId, st.serial);
    EnsureItemValid(st.items, row, itemId, st.serial);
    id := itemId;
    var found := FindItem(st, row.repoId, row.path, row.revision);
    if found.Some? {
      id := found;
      if st.items[found.value].itemType == row.itemType {
        return;
      }
    }
    id := WriteRow(st, row, id);
  }

  /** The delete-then-insert of `insertSourceRevision` on the edge table. */
  method RecordSource(st: Store, itemId: nat, sourceId: nat, action: Option<Action>)
    requires st.Valid()
    modifies st
    ensures st.Valid()
    ensures st.sourceItems == ReplaceEdge(old(st.sourceItems), itemId, sourceId, action)
    ensures st.Snapshot() == old(st.Snapshot()).(sourceItems := st.sourceItems)
  {
    ReplaceEdgeSpec(st.sourceItems, itemId, sourceId, action);
    st.sourceItems := ReplaceEdge(st.sourceItems, itemId, sourceId, action);
  }

  method FindItem(st: Store, repoId: nat, path: string, revision: string) returns (r: Option<nat>)
    ensures r.Some? ==> r.value in st.items && ItemKey(st.items[r.value], repoId, path, revision)
    ensures r.None? <==> !ItemKeyExists(st.items, repoId, path, revision)
  {
    var ids := st.items.Keys;
    while ids != {}
      invariant ids <= st.items.Keys
      invariant forall i :: i in st.items && i !in ids ==> !ItemKey(st.items[i], repoId, path, revision)
      decreases |ids|
    {
      var i :| i in ids;
      if ItemKey(st.items[i], repoId, path, revision) {
        return Some(i);
      }
      ids := ids - {i};
    }
    return None;
  }

  class Item {
    var itemType: ItemType
    var path: string
    var revision: string
    var action: Option<Action>
    var repoId: nat
    var sourceItems: seq<Item>
    var replacedItem: Option<Item>
    var itemRevisionId: Option<nat>
    var memo: Memo
    var recipe: Option<Recipe>

    constructor (itemType: ItemType, path: string, revision: string, action: Option<Action>,
                 repoId: nat, itemRevisionId: Option<nat>)
      ensures this.itemType == itemType && this.path == path && this.revision == revision
      ensures this.action == action && this.repoId == repoId && this.itemRevisionId == itemRevisionId
      ensures sourceItems == [] && replacedItem.None? && memo == Unresolved && recipe.None?
    {
      this.itemType := itemType;
      this.path := path;
      this.revision := revision;
      this.action := action;
      this.repoId := repoId;
      this.itemRevisionId := itemRevisionId;
      sourceItems := [];
      replacedItem := None;
      memo := Unresolved;
      recipe := None;
    }

    function Row(): ItemRow
      reads this
    {
      RowKey(repoId, path, revision, itemType)
    }

    /** `sanitize`, with the one-source truncation done as intended. */
    method Sanitize()
      modifies this
      ensures itemType == SanitizedType(action, old(itemType))
      ensures sourceItems == SanitizedSources(action, old(sourceItems))
      ensures path == old(path) && revision == old(revision) && action == old(action)
      ensures repoId == old(repoId) && itemRevisionId == old(itemRevisionId)
      ensures replacedItem == old(replacedItem) && memo == old(memo) && recipe == old(recipe)
    {
      if action.Some? {
        match action.value {
          case Added =>
            if |sourceItems| > 0 {
              sourceItems := [];
            }
          case Modified | Moved | Copied | Deleted =>
            if |sourceItems| > 1 {
              sourceItems := [sourceItems[0]];
            }
          case _ =>
        }
        if action.value == Deleted {
          if itemType == File {
            itemType := FileDeleted;
          } else if itemType == Directory {
            itemType := DirectoryDeleted;
          }
        }
      }
    }

    /** `fetchItemRevisionId`: look the id up unless it is already there; the table is only read. */
    method FetchItemRevisionId(st: Store) returns (found: bool)
      modifies this
      ensures !EmptyId(old(itemRevisionId)) ==> found && itemRevisionId == old(itemRevisionId)
      ensures EmptyId(old(itemRevisionId)) ==>
        (found <==> ItemRowExists(st.items, Row())) &&
        (found ==> itemRevisionId.Some? && itemRevisionId.value in st.items &&
                   ItemKey(st.items[itemRevisionId.value], repoId, path, revision)) &&
        (!found ==> itemRevisionId == old(itemRevisionId))
      ensures Row() == old(Row()) && action == old(action) && sourceItems == old(sourceItems)
      ensures replacedItem == old(replacedItem) && memo == old(memo) && recipe == old(recipe)
    {
      if !EmptyId(itemRevisionId) {
        return true;
      }
      var id := FindItem(st, repoId, path, revision);
      if id.None? {
        return false;
      }
      itemRevisionId := id;
      return true;
    }

    /** `insert`: reached only when no other row than the one the id names carries the item's key. */
    method Insert(st: Store)
      requires st.Valid()
      requires forall j :: j in st.items && ItemKey(st.items[j], repoId, path, revision) ==> itemRevisionId == Some(j)
      modifies this, st
      ensures st.Valid()
      ensures ItemState(st.items, itemRevisionId, st.serial) ==
              WriteItem(old(st.items), old(Row()), old(itemRevisionId), old(st.serial))
      ensures st.Snapshot() == old(st.Snapshot()).(items := st.items, serial := st.serial)
      ensures Row() == old(Row()) && action == old(action) && sourceItems == old(sourceItems)
      ensures replacedItem == old(replacedItem) && memo == old(memo) && recipe == old(recipe)
    {
      itemRevisionId := WriteRow(st, Row(), itemRevisionId);
    }

    /** `ensure`: afterwards the item has an id, and the row with its key carries its type. */
    method Ensure(st: Store)
      requires st.Valid()
      modifies this, st
      ensures st.Valid()
      ensures ItemState(st.items, itemRevisionId, st.serial) ==
              EnsureItem(old(st.items), old(Row()), old(itemRevisionId), old(st.serial))
      ensures itemRevisionId.Some?
      ensures st.Snapshot() == old(st.Snapshot()).(items := st.items, serial := st.serial)
      ensures Row() == old(Row()) && action == old(action) && sourceItems == old(sourceItems)
      ensures replacedItem == old(replacedItem) && memo == old(memo) && recipe == old(recipe)
    {
      itemRevisionId := EnsureRow(st, Row(), itemRevisionId);
    }

    /**
     * `insertSourceRevision`: record that this item stems from `source`
     * (NULL meaning the literal 0 passed for "added" items) with `action`.
     * The line-change counters read an undefined variable and are always 0.
     */
    method InsertSourceRevision(st: Store, source: Option<Item>, action: Option<Action>)
      requires st.Valid()
      modifies st
      ensures st.Valid()
      ensures st.sourceItems ==
        ReplaceEdge(old(st.sourceItems), IdOrZero(itemRevisionId),
                    if source.None? then 0 else IdOrZero(source.value.itemRevisionId), action)
      ensures st.Snapshot() == old(st.Snapshot()).(sourceItems := st.sourceItems)
    {
      var sourceId := if source.None? then 0 else IdOrZero(source.value.itemRevisionId);
      RecordSource(st, IdOrZero(itemRevisionId), sourceId, action);
    }

    /**
     * `getSelectedLabel`: the label is worked out once from the recipe, with
     * `resolved` standing for the backend resolver's answer, and remembered.
     */
    method GetSelectedLabel(st: Store, resolved: Option<ResolvedLabel>) returns (r: Selection)
      requires st.Valid()
      modifies this, st
      ensures st.Valid()
      ensures st.Snapshot() == old(st.Snapshot()).(labels := st.labels, serial := st.serial)
      ensures old(memo).Resolved? ==> r == LabelSelection(old(memo).selected)
      ensures old(memo).NoLabel? ==> r == NullSelection
      ensures old(memo) != Unresolved ==>
        memo == old(memo) && recipe == old(recipe) && st.Snapshot() == old(st.Snapshot())
      ensures old(memo) == Unresolved && old(recipe).None? ==>
        memo == NoLabel && r == NullSelection && st.Snapshot() == old(st.Snapshot())
      ensures old(memo) == Unresolved && old(recipe).Some? ==>
        recipe.None? &&
        (if old(recipe).value.FromUnknown? || resolved.None? then
           memo == NoLabel && r == FalseSelection && st.Snapshot() == old(st.Snapshot())
         else
           memo.Resolved? && r == LabelSelection(memo.selected) && fresh(memo.selected) &&
           memo.selected.labelType == resolved.value.labelType && memo.selected.name == resolved.value.name &&
           memo.selected.repoId == resolved.value.repoId && memo.selected.action == resolved.value.action &&
           LabelState(st.labels, memo.selected.labelId, st.serial) ==
             EnsureLabel(old(st.labels), LabelRow(resolved.value.repoId, resolved.value.name, resolved.value.labelType),
                         resolved.value.labelId, old(st.serial)))
      ensures memo != Unresolved
      ensures Row() == old(Row()) && action == old(action) && sourceItems == old(sourceItems)
      ensures itemRevisionId == old(itemRevisionId) && replacedItem == old(replacedItem)
    {
      if memo.Resolved? {
        return LabelSelection(memo.selected);
      }
      if memo.NoLabel? {
        return NullSelection;
      }
      if recipe.None? {
        memo := NoLabel;
        return NullSelection;
      }
      if !recipe.value.FromUnknown? && resolved.Some? {
        var l := resolved.value;
        var found := new Label(l.labelType, l.name, l.action, l.labelId, l.repoId);
        found.Ensure(st);
        memo := Resolved(found);
        r := LabelSelection(found);
      } else {
        memo := NoLabel;
        r := FalseSelection;
      }
      recipe := None;
    }

    /**
     * `getParentItem`: the item itself, nothing, or a new directory item
     * whose label is to be taken from this item at the same revision.
     */
    method GetParentItem(parentPath: Option<string>, capabilities: set<Capability>) returns (r: Option<Item>)
      ensures ParentPath(path, parentPath) == Itself ==> r == Some(this)
      ensures ParentPath(path, parentPath) == NoParent ==> r.None?
      ensures ParentPath(path, parentPath).ParentAt? ==>
        r.Some? && fresh(r.value) &&
        r.value.path == ParentPath(path, parentPath).path &&
        r.value.itemType == Directory && r.value.action.None? &&
        r.value.revision == ParentRevision(revision, capabilities) &&
        r.value.repoId == repoId && r.value.recipe == Some(FromOtherItem(["same_revision"]))
    {
      var choice := ParentPath(path, parentPath);
      match choice {
        case Itself => return Some(this);
        case NoParent => return None;
        case ParentAt(p) =>
          var parent := new Item(Directory, p, ParentRevision(revision, capabilities), None, repoId, None);
          parent.recipe := Some(FromOtherItem(["same_revision"]));
          return Some(parent);
      }
    }
  }
}
