/**
 * Operations (commits, branch and tag operations): the operation object,
 * its label and item links, and `insert`, which records an operation with
 * all of its items, their sources and replaced items.
 */
module Operations {
  import opened Php
  import opened Schema
  import opened Labels
  import opened Items

  // ---------------------------------------------------------------------
  // Link tables

  /** `_insert_operation_item`: drop the link of this (operation, item) pair, then add the new one. */
  function ReplaceLink(links: set<OpItemLink>, opId: nat, itemId: nat, t: LinkType): set<OpItemLink> {
    (set l | l in links && !(l.opId == opId && l.itemId == itemId)) + {OpItemLink(opId, itemId, t)}
  }

  /** Exactly one link of the pair remains, with the given type; other links are untouched. */
  lemma ReplaceLinkSpec(links: set<OpItemLink>, opId: nat, itemId: nat, t: LinkType)
    ensures var r := ReplaceLink(links, opId, itemId, t);
      OpItemLink(opId, itemId, t) in r &&
      (forall l :: l in r && l.opId == opId && l.itemId == itemId ==> l.linkType == t) &&
      (forall l: OpItemLink :: !(l.opId == opId && l.itemId == itemId) ==> (l in r <==> l in links)) &&
      (UniqueItemLinks(links) ==> UniqueItemLinks(r))
  {
  }

  function DropOpLabels(links: set<OpLabelLink>, opId: nat): set<OpLabelLink> {
    set l | l in links && l.opId != opId
  }

  function DropOpItems(links: set<OpItemLink>, opId: nat): set<OpItemLink> {
    set l | l in links && l.opId != opId
  }

  /** The label links `_setLabels` writes for `labels`: their ids (0 when unset) with their actions. */
  function LabelLinks(opId: nat, labels: seq<Label>): set<OpLabelLink>
    reads set l | l in labels
  {
    set j | 0 <= j < |labels| :: OpLabelLink(opId, IdOrZero(labels[j].labelId), labels[j].action)
  }

  /** `delete` on the tables: the operation's label links, item links and row go; nothing else changes. */
  function DeleteOp(t: Tables, opId: nat): Tables {
    t.(operationLabels := DropOpLabels(t.operationLabels, opId),
       operationItems := DropOpItems(t.operationItems, opId),
       operations := t.operations - {opId})
  }

  lemma DeleteOpSpec(t: Tables, opId: nat)
    ensures var r := DeleteOp(t, opId);
      opId !in r.operations &&
      (forall l :: l in r.operationLabels ==> l.opId != opId) &&
      (forall l :: l in r.operationItems ==> l.opId != opId) &&
      (forall l: OpLabelLink :: l.opId != opId ==> (l in r.operationLabels <==> l in t.operationLabels)) &&
      (forall l: OpItemLink :: l.opId != opId ==> (l in r.operationItems <==> l in t.operationItems)) &&
      (forall i :: i in t.operations && i != opId ==> i in r.operations && r.operations[i] == t.operations[i]) &&
      r.items == t.items && r.sourceItems == t.sourceItems && r.labels == t.labels &&
      (TablesValid(t) ==> TablesValid(r))
  {
  }

  // ---------------------------------------------------------------------
  // The items of an operation as `insert` receives them

  /** An item revision as `insert` handles it: its row fields and its id, if known. */
  datatype RevValue = RevValue(itemType: ItemType, path: string, revision: string, repoId: nat, id: Option<nat>)

  function RowOf(r: RevValue): ItemRow {
    ItemRow(r.repoId, r.path, r.revision, r.itemType)
  }

  /** An entry of `$operation_items`: the item, its action, its source items and its replaced item. */
  datatype OpItemValue = OpItemValue(rev: RevValue, action: Option<Action>, sources: seq<RevValue>,
                                     replaced: Option<RevValue>)

  /** `sanitize` applied to an item value. */
  function SanitizeValue(it: OpItemValue): (r: OpItemValue)
    ensures r.rev.path == it.rev.path && r.rev.revision == it.rev.revision && r.action == it.action
    ensures r.sources <= it.sources && r.replaced == it.replaced
  {
    it.(rev := it.rev.(itemType := SanitizedType(it.action, it.rev.itemType)),
        sources := SanitizedSources(it.action, it.sources))
  }

  /** `ensure` of an item value on the tables. */
  ghost function EnsureRev(t: Tables, r: RevValue): (Tables, RevValue) {
    var s := EnsureItem(t.items, RowOf(r), r.id, t.serial);
    (t.(items := s.items, serial := s.serial), r.(id := s.itemId))
  }

  /** Whether a source is also cached as an affected item: moves, copies and merges from another path. */
  predicate CachesSource(action: Option<Action>, itemPath: string, sourcePath: string) {
    (action == Some(Moved) || action == Some(Copied) || action == Some(Merged)) && itemPath != sourcePath
  }

  /** One source of an item: ensure it, record the edge, and cache it when `CachesSource` says so. */
  ghost function SourceStep(t: Tables, opId: nat, item: RevValue, action: Option<Action>, src: RevValue): (Tables, RevValue) {
    var e := EnsureRev(t, src);
    var s := e.1;
    var t2 := e.0.(sourceItems := ReplaceEdge(e.0.sourceItems, IdOrZero(item.id), IdOrZero(s.id), action));
    if CachesSource(action, item.path, s.path) then
      (t2.(operationItems := ReplaceLink(t2.operationItems, opId, IdOrZero(s.id), CachedAffectedItem)), s)
    else (t2, s)
  }

  ghost function SourcesFrom(t: Tables, opId: nat, item: RevValue, action: Option<Action>, srcs: seq<RevValue>): (r: (Tables, seq<RevValue>))
    ensures |r.1| == |srcs|
    decreases |srcs|
  {
    if |srcs| == 0 then (t, [])
    else
      var first := SourceStep(t, opId, item, action, srcs[0]);
      var rest := SourcesFrom(first.0, opId, item, action, srcs[1..]);
      (rest.0, [first.1] + rest.1)
  }

  /** Everything `insert` does for one entry of `$operation_items`. */
  ghost function ItemStep(t: Tables, opId: nat, it: OpItemValue): (Tables, OpItemValue) {
    var s := SanitizeValue(it);
    var e := EnsureRev(t, s.rev);
    var rev := e.1;
    var t2 := e.0.(operationItems := ReplaceLink(e.0.operationItems, opId, IdOrZero(rev.id), MemberItem));
    var srcs := SourcesFrom(t2, opId, rev, s.action, s.sources);
    var t4 := if s.action == Some(Added) then srcs.0.(sourceItems := ReplaceEdge(srcs.0.sourceItems, IdOrZero(rev.id), 0, Some(Added)))
              else srcs.0;
    if s.replaced.Some? then
      var rep := EnsureRev(t4, s.replaced.value);
      (rep.0.(sourceItems := ReplaceEdge(rep.0.sourceItems, IdOrZero(rev.id), IdOrZero(rep.1.id), Some(Replaced))),
       s.(rev := rev, sources := srcs.1, replaced := Some(rep.1)))
    else (t4, s.(rev := rev, sources := srcs.1))
  }

  ghost function ItemsFrom(t: Tables, opId: nat, items: Arr<string, OpItemValue>): (r: (Tables, Arr<string, OpItemValue>))
    ensures |r.1| == |items|
    ensures forall i :: 0 <= i < |items| ==> r.1[i].0 == items[i].0
    decreases |items|
  {
    if |items| == 0 then (t, [])
    else
      var first := ItemStep(t, opId, items[0].1);
      var rest := ItemsFrom(first.0, opId, items[1..]);
      (rest.0, [(items[0].0, first.1)] + rest.1)
  }

  function PathKey(p: (string, OpItemValue)): seq<int> {
    Codes(p.0)
  }

  /** `ksort($operation_items)`. */
  function SortedItems(items: Arr<string, OpItemValue>): Arr<string, OpItemValue> {
    SortBy(items, PathKey)
  }

  // ---------------------------------------------------------------------
  // Properties of one item's processing

  /** The parts of the tables an item's processing never touches. */
  ghost predicate ItemFrame(t: Tables, r: Tables, opId: nat) {
    r.labels == t.labels && r.operations == t.operations && r.operationLabels == t.operationLabels &&
    r.accounts == t.accounts && r.repositories == t.repositories && t.serial <= r.serial &&
    (forall l: OpItemLink :: l.opId != opId ==> (l in r.operationItems <==> l in t.operationItems))
  }

  lemma EnsureRevValid(t: Tables, r: RevValue)
    requires TablesValid(t)
    ensures var e := EnsureRev(t, r);
      TablesValid(e.0) && e.1.id.Some? && t.serial <= e.0.serial &&
      e.0 == t.(items := e.0.items, serial := e.0.serial) &&
      (r.id != Some(0) ==> e.1.id != Some(0)) &&
      e.1.itemType == r.itemType && e.1.path == r.path && e.1.revision == r.revision && e.1.repoId == r.repoId
  {
    EnsureItemValid(t.items, RowOf(r), r.id, t.serial);
    EnsureItemCases(t.items, RowOf(r), r.id, t.serial);
  }

  lemma ItemFrameTrans(t1: Tables, t2: Tables, t3: Tables, opId: nat)
    requires ItemFrame(t1, t2, opId) && ItemFrame(t2, t3, opId)
    ensures ItemFrame(t1, t3, opId)
  {
  }

  /** One source: the tables stay valid, and the only new cached link is the source's, when it is cached. */
  lemma SourceStepFacts(t: Tables, opId: nat, item: RevValue, action: Option<Action>, src: RevValue)
    requires TablesValid(t)
    ensures var r := SourceStep(t, opId, item, action, src);
      TablesValid(r.0) && ItemFrame(t, r.0, opId) && r.1.path == src.path && r.1.id.Some? &&
      (forall l :: l in r.0.operationItems && l !in t.operationItems && l.linkType == CachedAffectedItem ==>
         r.1.id == Some(l.itemId) && CachesSource(action, item.path, r.1.path))
  {
    var e := EnsureRev(t, src);
    EnsureRevValid(t, src);
    var s := e.1;
    ReplaceEdgeSpec(e.0.sourceItems, IdOrZero(item.id), IdOrZero(s.id), action);
    var t2 := e.0.(sourceItems := ReplaceEdge(e.0.sourceItems, IdOrZero(item.id), IdOrZero(s.id), action));
    assert TablesValid(t2) && ItemFrame(t, t2, opId);
    ReplaceLinkSpec(t2.operationItems, opId, IdOrZero(s.id), CachedAffectedItem);
  }

  lemma {:induction false} SourcesFromFacts(t: Tables, opId: nat, item: RevValue, action: Option<Action>, srcs: seq<RevValue>)
    requires TablesValid(t)
    ensures var r := SourcesFrom(t, opId, item, action, srcs);
      TablesValid(r.0) && ItemFrame(t, r.0, opId) &&
      (forall l :: l in r.0.operationItems && l !in t.operationItems && l.linkType == CachedAffectedItem ==>
         exists k :: 0 <= k < |r.1| && r.1[k].id == Some(l.itemId) && CachesSource(action, item.path, r.1[k].path)) &&
      (forall k :: 0 <= k < |srcs| ==> r.1[k].path == srcs[k].path && r.1[k].id.Some?)
    decreases |srcs|
  {
    if |srcs| > 0 {
      var first := SourceStep(t, opId, item, action, srcs[0]);
      SourceStepFacts(t, opId, item, action, srcs[0]);
      SourcesFromFacts(first.0, opId, item, action, srcs[1..]);
      var rest := SourcesFrom(first.0, opId, item, action, srcs[1..]);
      var r := SourcesFrom(t, opId, item, action, srcs);
      ItemFrameTrans(t, first.0, r.0, opId);
      assert r.1 == [first.1] + rest.1;
      forall l | l in r.0.operationItems && l !in t.operationItems && l.linkType == CachedAffectedItem
        ensures exists k :: 0 <= k < |r.1| && r.1[k].id == Some(l.itemId) && CachesSource(action, item.path, r.1[k].path)
      {
        if l in first.0.operationItems {
          assert r.1[0] == first.1;
        } else {
          var k :| 0 <= k < |rest.1| && rest.1[k].id == Some(l.itemId) && CachesSource(action, item.path, rest.1[k].path);
          assert r.1[k + 1] == rest.1[k];
        }
      }
      forall k | 0 <= k < |srcs| ensures r.1[k].path == srcs[k].path && r.1[k].id.Some? {
        if k > 0 {
          assert r.1[k] == rest.1[k - 1] && srcs[k] == srcs[1..][k - 1];
        }
      }
    }
  }

  /**
   * One item's processing keeps the tables valid and touches only the item
   * tables and this operation's item links; a new cached link stems from a
   * source moved, copied or merged from another path; an "added" item ends
   * with a source-0 edge and a replaced item with a REPLACED edge.
   */
  lemma ItemStepFacts(t: Tables, opId: nat, it: OpItemValue)
    requires TablesValid(t)
    ensures var r := ItemStep(t, opId, it); var d := r.1;
      TablesValid(r.0) && ItemFrame(t, r.0, opId) &&
      d.rev.id.Some? && d.rev.path == it.rev.path && d.action == it.action &&
      d.rev.itemType == SanitizedType(it.action, it.rev.itemType) &&
      |d.sources| == |SanitizedSources(it.action, it.sources)| &&
      (forall l :: l in r.0.operationItems && l !in t.operationItems && l.linkType == CachedAffectedItem ==>
         exists k :: 0 <= k < |d.sources| && d.sources[k].id == Some(l.itemId) &&
                     CachesSource(it.action, it.rev.path, d.sources[k].path)) &&
      (it.action == Some(Added) && (it.replaced.Some? ==> it.replaced.value.id != Some(0)) ==>
         SourceEdge(IdOrZero(d.rev.id), 0, Some(Added), false, 0, 0) in r.0.sourceItems) &&
      (it.replaced.Some? ==>
         d.replaced.Some? &&
         SourceEdge(IdOrZero(d.rev.id), IdOrZero(d.replaced.value.id), Some(Replaced), false, 0, 0) in r.0.sourceItems)
  {
    var s := SanitizeValue(it);
    var e := EnsureRev(t, s.rev);
    EnsureRevValid(t, s.rev);
    var rev := e.1;
    ReplaceLinkSpec(e.0.operationItems, opId, IdOrZero(rev.id), MemberItem);
    var t2 := e.0.(operationItems := ReplaceLink(e.0.operationItems, opId, IdOrZero(rev.id), MemberItem));
    assert TablesValid(t2) && ItemFrame(t, t2, opId);
    SourcesFromFacts(t2, opId, rev, s.action, s.sources);
    var srcs := SourcesFrom(t2, opId, rev, s.action, s.sources);
    ItemFrameTrans(t, t2, srcs.0, opId);
    assert forall l :: l in t2.operationItems && l !in t.operationItems ==> l.linkType == MemberItem;
    ReplaceEdgeSpec(srcs.0.sourceItems, IdOrZero(rev.id), 0, Some(Added));
    var t4 := if s.action == Some(Added) then srcs.0.(sourceItems := ReplaceEdge(srcs.0.sourceItems, IdOrZero(rev.id), 0, Some(Added)))
              else srcs.0;
    assert TablesValid(t4) && ItemFrame(t, t4, opId);
    if s.replaced.Some? {
      var rep := EnsureRev(t4, s.replaced.value);
      EnsureRevValid(t4, s.replaced.value);
      ItemFrameTrans(t, t4, rep.0, opId);
      ReplaceEdgeSpec(rep.0.sourceItems, IdOrZero(rev.id), IdOrZero(rep.1.id), Some(Replaced));
      if s.action == Some(Added) && s.replaced.value.id != Some(0) {
        assert IdOrZero(rep.1.id) != 0;
        assert SourceEdge(IdOrZero(rev.id), 0, Some(Added), false, 0, 0) in rep.0.sourceItems;
      }
    }
  }

  /** Processing the items keeps the tables valid and touches only item tables and this operation's item links. */
  lemma {:induction false} ItemsFromFacts(t: Tables, opId: nat, items: Arr<string, OpItemValue>)
    requires TablesValid(t)
    ensures var r := ItemsFrom(t, opId, items);
      TablesValid(r.0) && ItemFrame(t, r.0, opId) &&
      forall i :: 0 <= i < |items| ==> r.1[i].1.rev.id.Some? && r.1[i].1.rev.path == items[i].1.rev.path
    decreases |items|
  {
    if |items| > 0 {
      ItemStepFacts(t, opId, items[0].1);
      var first := ItemStep(t, opId, items[0].1);
      ItemsFromFacts(first.0, opId, items[1..]);
      var rest := ItemsFrom(first.0, opId, items[1..]);
      var r := ItemsFrom(t, opId, items);
      forall i | 0 <= i < |items| ensures r.1[i].1.rev.id.Some? && r.1[i].1.rev.path == items[i].1.rev.path {
        if i > 0 {
          assert r.1[i] == rest.1[i - 1] && items[i] == items[1..][i - 1];
        }
      }
    }
  }

  /** The items are processed, and handed back, in ascending path order, none lost or added. */
  lemma InsertOrder(t: Tables, opId: nat, items: Arr<string, OpItemValue>)
    ensures var d := ItemsFrom(t, opId, SortedItems(items)).1;
      |d| == |items| &&
      (forall i, j :: 0 <= i < j < |d| ==> LexLe(Codes(d[i].0), Codes(d[j].0))) &&
      multiset(SortedItems(items)) == multiset(items) &&
      (forall i :: 0 <= i < |d| ==> d[i].0 == SortedItems(items)[i].0)
  {
    SortByCorrect(items, PathKey);
  }

  // ---------------------------------------------------------------------
  // Store-level steps

  method EnsureRevIn(st: Store, r: RevValue) returns (r': RevValue)
    requires st.Valid()
    modifies st
    ensures st.Valid()
    ensures (st.Snapshot(), r') == EnsureRev(old(st.Snapshot()), r)
  {
    var id := EnsureRow(st, RowOf(r), r.id);
    r' := r.(id := id);
  }

  method LinkItem(st: Store, opId: nat, itemId: nat, t: LinkType)
    requires st.Valid()
    modifies st
    ensures st.Valid()
    ensures st.Snapshot() == old(st.Snapshot()).(operationItems := ReplaceLink(old(st.operationItems), opId, itemId, t))
  {
    ReplaceLinkSpec(st.operationItems, opId, itemId, t);
    st.operationItems := ReplaceLink(st.operationItems, opId, itemId, t);
  }

  lemma SourcesFromUnfold(t: Tables, opId: nat, item: RevValue, action: Option<Action>, srcs: seq<RevValue>, k: nat)
    requires k < |srcs|
    ensures var f := SourceStep(t, opId, item, action, srcs[k]);
      var r := SourcesFrom(f.0, opId, item, action, srcs[k + 1..]);
      SourcesFrom(t, opId, item, action, srcs[k..]) == (r.0, [f.1] + r.1)
  {
    assert srcs[k..][1..] == srcs[k + 1..];
  }

  /** One pass of the source loop of `insert`. */
  method InsertSource(st: Store, opId: nat, item: RevValue, action: Option<Action>, src: RevValue) returns (s: RevValue)
    requires st.Valid()
    modifies st
    ensures st.Valid()
    ensures (st.Snapshot(), s) == SourceStep(old(st.Snapshot()), opId, item, action, src)
  {
    s := EnsureRevIn(st, src);
    RecordSource(st, IdOrZero(item.id), IdOrZero(s.id), action);
    if CachesSource(action, item.path, s.path) {
      LinkItem(st, opId, IdOrZero(s.id), CachedAffectedItem);
    }
  }

  /** The source loop of `insert` for one item. */
  method InsertSources(st: Store, opId: nat, item: RevValue, action: Option<Action>, srcs: seq<RevValue>)
    returns (done: seq<RevValue>)
    requires st.Valid()
    modifies st
    ensures st.Valid()
    ensures (st.Snapshot(), done) == SourcesFrom(old(st.Snapshot()), opId, item, action, srcs)
  {
    done := [];
    var k := 0;
    assert srcs[k..] == srcs;
    assert done + SourcesFrom(st.Snapshot(), opId, item, action, srcs).1 == SourcesFrom(st.Snapshot(), opId, item, action, srcs).1;
    while k < |srcs|
      invariant 0 <= k <= |srcs| && st.Valid()
      invariant var r := SourcesFrom(st.Snapshot(), opId, item, action, srcs[k..]);
        (r.0, done + r.1) == SourcesFrom(old(st.Snapshot()), opId, item, action, srcs)
    {
      SourcesFromUnfold(st.Snapshot(), opId, item, action, srcs, k);
      var s := InsertSource(st, opId, item, action, srcs[k]);
      AppendAssoc(done, [s], SourcesFrom(st.Snapshot(), opId, item, action, srcs[k + 1..]).1);
      done := done + [s];
      k := k + 1;
    }
    assert srcs[k..] == [];
    assert SourcesFrom(st.Snapshot(), opId, item, action, srcs[k..]) == (st.Snapshot(), []);
    assert done + [] == done;
  }

  /** The body of the item loop of `insert`. */
  method InsertItem(st: Store, opId: nat, it: OpItemValue) returns (d: OpItemValue)
    requires st.Valid()
    modifies st
    ensures st.Valid()
    ensures (st.Snapshot(), d) == ItemStep(old(st.Snapshot()), opId, it)
  {
    var s := SanitizeValue(it);
    var rev := EnsureRevIn(st, s.rev);
    LinkItem(st, opId, IdOrZero(rev.id), MemberItem);
    var srcs := InsertSources(st, opId, rev, s.action, s.sources);
    if s.action == Some(Added) {
      RecordSource(st, IdOrZero(rev.id), 0, Some(Added));
    }
    if s.replaced.Some? {
      var rep := EnsureRevIn(st, s.replaced.value);
      RecordSource(st, IdOrZero(rev.id), IdOrZero(rep.id), Some(Replaced));
      d := s.(rev := rev, sources := srcs, replaced := Some(rep));
    } else {
      d := s.(rev := rev, sources := srcs);
    }
  }

  lemma ItemsFromUnfold(t: Tables, opId: nat, items: Arr<string, OpItemValue>, k: nat)
    requires k < |items|
    ensures var f := ItemStep(t, opId, items[k].1);
      var r := ItemsFrom(f.0, opId, items[k + 1..]);
      ItemsFrom(t, opId, items[k..]) == (r.0, [(items[k].0, f.1)] + r.1)
  {
    assert items[k..][1..] == items[k + 1..];
  }

  /** The item loop of `insert`. */
  method InsertItems(st: Store, opId: nat, items: Arr<string, OpItemValue>) returns (done: Arr<string, OpItemValue>)
    requires st.Valid()
    modifies st
    ensures st.Valid()
    ensures (st.Snapshot(), done) == ItemsFrom(old(st.Snapshot()), opId, items)
  {
    done := [];
    var k := 0;
    assert items[k..] == items;
    assert done + ItemsFrom(st.Snapshot(), opId, items).1 == ItemsFrom(st.Snapshot(), opId, items).1;
    while k < |items|
      invariant 0 <= k <= |items| && st.Valid()
      invariant var r := ItemsFrom(st.Snapshot(), opId, items[k..]);
        (r.0, done + r.1) == ItemsFrom(old(st.Snapshot()), opId, items)
    {
      ItemsFromUnfold(st.Snapshot(), opId, items, k);
      var d := InsertItem(st, opId, items[k].1);
      AppendAssoc(done, [(items[k].0, d)], ItemsFrom(st.Snapshot(), opId, items[k + 1..]).1);
      done := done + [(items[k].0, d)];
      k := k + 1;
    }
    assert items[k..] == [];
    assert ItemsFrom(st.Snapshot(), opId, items[k..]) == (st.Snapshot(), []);
    assert done + [] == done;
  }

  // ---------------------------------------------------------------------
  // Reading an operation's items back

  /**
   * An entry of `getItems`: the item revision's id and row, its label
   * recipe (the operation itself) and, for commits, the operation it
   * belongs to.
   */
  datatype ListedItem = ListedItem(itemId: nat, row: ItemRow, recipe: Recipe, commitOp: Option<nat>)

  function ListedPath(p: (string, ListedItem)): seq<int> {
    Codes(p.0)
  }

  /** `id` is a member item of the operation `opId` with an item revision row. */
  predicate IsMember(links: set<OpItemLink>, items: map<nat, ItemRow>, opId: nat, id: nat) {
    OpItemLink(opId, id, MemberItem) in links && id in items
  }

  /** `p` is the `getItems` entry of the member item `p.1.itemId` of `opId`, keyed by its path. */
  predicate MemberEntry(links: set<OpItemLink>, items: map<nat, ItemRow>, opId: nat, commitOp: Option<nat>,
                        p: (string, ListedItem)) {
    IsMember(links, items, opId, p.1.itemId) && items[p.1.itemId] == p.1.row &&
    p.0 == p.1.row.path && p.1.recipe == FromOperation(opId) && p.1.commitOp == commitOp
  }

  /** The member entries of `opId`, one per path, in no particular order. */
  method MemberEntries(links: set<OpItemLink>, items: map<nat, ItemRow>, opId: nat, commitOp: Option<nat>)
    returns (found: Arr<string, ListedItem>)
    ensures DistinctKeys(found)
    ensures forall p :: p in found ==> MemberEntry(links, items, opId, commitOp, p)
    ensures forall id :: IsMember(links, items, opId, id) ==> HasKey(found, items[id].path)
  {
    found := [];
    var rest := links;
    while rest != {}
      invariant rest <= links
      invariant DistinctKeys(found)
      invariant forall p :: p in found ==> MemberEntry(links, items, opId, commitOp, p)
      invariant forall id :: IsMember(links, items, opId, id) && OpItemLink(opId, id, MemberItem) !in rest ==>
        HasKey(found, items[id].path)
      decreases |rest|
    {
      var l :| l in rest;
      if l.opId == opId && l.linkType == MemberItem && l.itemId in items {
        var row := items[l.itemId];
        var e := ListedItem(l.itemId, row, FromOperation(opId), commitOp);
        AssignDistinct(found, row.path, e);
        AssignMembers(found, row.path, e);
        forall k | HasKey(found, k) ensures HasKey(Assign(found, row.path, e), k) {
          AssignKeys(found, row.path, e, k);
        }
        AssignKeys(found, row.path, e, row.path);
        found := Assign(found, row.path, e);
      }
      rest := rest - {l};
    }
  }

  /** Sorting the member entries by path keeps them, one per path. */
  lemma SortedEntries(links: set<OpItemLink>, items: map<nat, ItemRow>, opId: nat, commitOp: Option<nat>,
                      found: Arr<string, ListedItem>, r: Arr<string, ListedItem>)
    requires DistinctKeys(found)
    requires forall p :: p in found ==> MemberEntry(links, items, opId, commitOp, p)
    requires forall id :: IsMember(links, items, opId, id) ==> HasKey(found, items[id].path)
    requires r == SortBy(found, ListedPath)
    ensures DistinctKeys(r) && SortedBy(r, ListedPath)
    ensures forall i :: 0 <= i < |r| ==> MemberEntry(links, items, opId, commitOp, r[i])
    ensures forall id :: IsMember(links, items, opId, id) ==> HasKey(r, items[id].path)
  {
    SortByCorrect(found, ListedPath);
    SortByDistinct(found, ListedPath);
    forall i | 0 <= i < |r| ensures r[i] in found {
      assert r[i] in multiset(found);
    }
    forall id | IsMember(links, items, opId, id) ensures HasKey(r, items[id].path) {
      var j :| 0 <= j < |found| && found[j].0 == items[id].path;
      assert found[j] in multiset(r);
    }
  }

  // ---------------------------------------------------------------------
  // The operation object

  class Operation {
    var opType: int
    var committer: string
    var date: Option<int>
    var revision: string
    var message: Option<string>
    var author: string
    /** The id of the operation's repository, if it has one. */
    var repoId: Option<nat>
    var vcOpId: Option<nat>
    var labels: seq<Label>
    var uid: nat

    /** The author defaults to the committer. */
    constructor (opType: int, committer: string, date: Option<int>, revision: string, message: Option<string>,
                 author: Option<string>, repoId: Option<nat>, vcOpId: Option<nat>)
      ensures this.opType == opType && this.committer == committer && this.date == date
      ensures this.revision == revision && this.message == message && this.repoId == repoId && this.vcOpId == vcOpId
      ensures this.author == if author.None? then committer else author.value
      ensures labels == [] && uid == 0
    {
      this.opType := opType;
      this.committer := committer;
      this.date := date;
      this.revision := revision;
      this.message := message;
      this.author := if author.None? then committer else author.value;
      this.repoId := repoId;
      this.vcOpId := vcOpId;
      labels := [];
      uid := 0;
    }

    /** The row `drupal_write_record` writes: unset date and message are stored as 0 and ''. */
    function Row(): OpRow
      reads this
    {
      OpRow(opType, if repoId.Some? then repoId.value else 0, if date.Some? then date.value else 0, uid,
            author, committer, if message.Some? then message.value else "", revision)
    }

    /** The message default of `_fill`: an operation with a date gets '' for an unset message. */
    method Fill()
      modifies this
      ensures message == if old(date).Some? && old(message).None? then Some("") else old(message)
      ensures opType == old(opType) && committer == old(committer) && date == old(date) && revision == old(revision)
      ensures author == old(author) && repoId == old(repoId) && vcOpId == old(vcOpId)
      ensures labels == old(labels) && uid == old(uid)
    {
      if date.Some? && message.None? {
        message := Some("");
      }
    }

    /** `_insert_operation_item`. */
    method InsertOperationItem(st: Store, item: Item, t: LinkType)
      requires st.Valid()
      modifies st
      ensures st.Valid()
      ensures st.Snapshot() == old(st.Snapshot()).(operationItems :=
        ReplaceLink(old(st.operationItems), IdOrZero(vcOpId), IdOrZero(item.itemRevisionId), t))
    {
      LinkItem(st, IdOrZero(vcOpId), IdOrZero(item.itemRevisionId), t);
    }

    /**
     * `_setLabels`: the operation's label links become exactly the given
     * labels, each ensured first, with their actions.
     */
    method SetLabels(st: Store, newLabels: seq<Label>)
      requires st.Valid()
      requires forall i, j :: 0 <= i < j < |newLabels| ==> newLabels[i] != newLabels[j]
      modifies this, st, set l | l in newLabels
      ensures st.Valid()
      ensures labels == newLabels
      ensures st.operationLabels ==
        DropOpLabels(old(st.operationLabels), IdOrZero(vcOpId)) + LabelLinks(IdOrZero(vcOpId), newLabels)
      ensures forall j :: 0 <= j < |newLabels| ==>
        newLabels[j].Key() == old(newLabels[j].Key()) && newLabels[j].action == old(newLabels[j].action)
      ensures forall j :: 0 <= j < |newLabels| ==> Settled(newLabels[j], old(newLabels[j].labelId), st.labels)
      ensures forall i :: i in old(st.labels) ==> i in st.labels && st.labels[i] == old(st.labels)[i]
      ensures st.Snapshot() == old(st.Snapshot()).(labels := st.labels, serial := st.serial, operationLabels := st.operationLabels)
      ensures Row() == old(Row()) && vcOpId == old(vcOpId)
      ensures message == old(message) && date == old(date) && repoId == old(repoId)
    {
      var opId := IdOrZero(vcOpId);
      st.operationLabels := DropOpLabels(st.operationLabels, opId);
      EnsureAllLinked(st, newLabels, opId);
      labels := newLabels;
    }

    /**
     * `insert`. The items are values standing for `$operation_items`,
     * handed back ksorted with their ids, as the by-reference array is.
     * `labelled` is the state after the operation row and its labels are written.
     */
    method Insert(st: Store, items: Arr<string, OpItemValue>)
      returns (ok: bool, done: Arr<string, OpItemValue>, ghost labelled: Tables)
      requires st.Valid()
      requires forall i, j :: 0 <= i < j < |labels| ==> labels[i] != labels[j]
      modifies this, st, set l | l in labels
      ensures st.Valid()
      ensures message == if old(date).Some? && old(message).None? then Some("") else old(message)
      ensures labels == old(labels)
      ensures old(repoId).None? ==> !ok && done == items && st.Snapshot() == old(st.Snapshot())
      ensures old(repoId).Some? ==>
        ok && vcOpId == Some(old(st.serial)) &&
        Recorded(old(st.Snapshot()), labelled) &&
        (forall j :: 0 <= j < |labels| ==> Settled(labels[j], old(labels[j].labelId), labelled.labels)) &&
        (st.Snapshot(), done) == ItemsFrom(labelled, old(st.serial), SortedItems(items))
    {
      Fill();
      labelled := st.Snapshot();
      if repoId.None? {
        return false, items, labelled;
      }
      WriteOperation(st);
      labelled := st.Snapshot();
      done := InsertItems(st, vcOpId.value, SortedItems(items));
      ok := true;
    }

    /**
     * What the record written by `insert` holds before its items: the
     * operation row under a new id, and its label links; elsewhere only
     * new label rows.
     */
    ghost predicate Recorded(before: Tables, after: Tables)
      reads this, set l | l in labels
    {
      after == before.(operations := after.operations, labels := after.labels,
                       operationLabels := after.operationLabels, serial := after.serial) &&
      after.operations == before.operations[before.serial := Row()] &&
      after.operationLabels == DropOpLabels(before.operationLabels, before.serial) + LabelLinks(before.serial, labels) &&
      (forall i :: i in before.labels ==> i in after.labels && after.labels[i] == before.labels[i])
    }

    /** The operation row and `_setLabels` of `insert`. */
    method WriteOperation(st: Store)
      requires st.Valid() && repoId.Some?
      requires forall i, j :: 0 <= i < j < |labels| ==> labels[i] != labels[j]
      modifies this, st, set l | l in labels
      ensures st.Valid()
      ensures vcOpId == Some(old(st.serial)) && labels == old(labels)
      ensures message == old(message) && date == old(date) && repoId == old(repoId)
      ensures Recorded(old(st.Snapshot()), st.Snapshot())
      ensures forall j :: 0 <= j < |labels| ==> Settled(labels[j], old(labels[j].labelId), st.labels)
    {
      var id := st.NextSerial();
      vcOpId := Some(id);
      st.operations := st.operations[id := Row()];
      SetLabels(st, labels);
    }

    /**
     * `getItems`: the operation's member items keyed by path, in path order.
     * The flag says whether source items are to be fetched next, which the
     * backend does.
     */
    method GetItems(st: Store, fetchSourceItems: Option<bool>) returns (r: Arr<string, ListedItem>, fetchSources: bool)
      ensures fetchSources == if fetchSourceItems.Some? then fetchSourceItems.value else opType == OPERATION_COMMIT
      ensures DistinctKeys(r) && SortedBy(r, ListedPath)
      ensures forall i :: 0 <= i < |r| ==>
        IsMember(st.operationItems, st.items, IdOrZero(vcOpId), r[i].1.itemId) &&
        st.items[r[i].1.itemId] == r[i].1.row && r[i].0 == r[i].1.row.path &&
        r[i].1.recipe == FromOperation(IdOrZero(vcOpId)) &&
        r[i].1.commitOp == (if opType == OPERATION_COMMIT then Some(IdOrZero(vcOpId)) else None)
      ensures forall id :: IsMember(st.operationItems, st.items, IdOrZero(vcOpId), id) ==> HasKey(r, st.items[id].path)
    {
      var opId := IdOrZero(vcOpId);
      var commitOp := if opType == OPERATION_COMMIT then Some(opId) else None;
      var found := MemberEntries(st.operationItems, st.items, opId, commitOp);
      r := SortBy(found, ListedPath);
      SortedEntries(st.operationItems, st.items, opId, commitOp, found, r);
      fetchSources := if fetchSourceItems.Some? then fetchSourceItems.value else opType == OPERATION_COMMIT;
    }

    /** `delete`: removes this operation's links and row, leaving item revisions alone. */
    method Delete(st: Store)
      requires st.Valid()
      modifies st
      ensures st.Valid()
      ensures st.Snapshot() == DeleteOp(old(st.Snapshot()), IdOrZero(vcOpId))
    {
      DeleteOpSpec(st.Snapshot(), IdOrZero(vcOpId));
      var opId := IdOrZero(vcOpId);
      st.operationLabels := DropOpLabels(st.operationLabels, opId);
      st.operationItems := DropOpItems(st.operationItems, opId);
      st.operations := st.operations - {opId};
    }
  }

  /** The loop of `_setLabels`: every label ensured and linked, in order. */
  method EnsureAllLinked(st: Store, labs: seq<Label>, opId: nat)
    requires st.Valid()
    requires forall i, j :: 0 <= i < j < |labs| ==> labs[i] != labs[j]
    modifies st, set l | l in labs
    ensures st.Valid()
    ensures st.operationLabels == old(st.operationLabels) + LabelLinks(opId, labs)
    ensures forall j :: 0 <= j < |labs| ==> labs[j].Key() == old(labs[j].Key()) && labs[j].action == old(labs[j].action)
    ensures forall j :: 0 <= j < |labs| ==> Settled(labs[j], old(labs[j].labelId), st.labels)
    ensures forall i :: i in old(st.labels) ==> i in st.labels && st.labels[i] == old(st.labels)[i]
    ensures st.Snapshot() == old(st.Snapshot()).(labels := st.labels, serial := st.serial, operationLabels := st.operationLabels)
  {
    var k := 0;
    ghost var links: seq<OpLabelLink> := [];
    while k < |labs|
      invariant 0 <= k <= |labs| && st.Valid()
      invariant |links| == k
      invariant forall j :: 0 <= j < k ==> links[j] == OpLabelLink(opId, IdOrZero(labs[j].labelId), labs[j].action)
      invariant st.operationLabels == old(st.operationLabels) + (set x | x in links)
      invariant forall j :: 0 <= j < |labs| ==> labs[j].Key() == old(labs[j].Key()) && labs[j].action == old(labs[j].action)
      invariant forall j :: k <= j < |labs| ==> labs[j].labelId == old(labs[j].labelId)
      invariant forall j :: 0 <= j < k ==> Settled(labs[j], old(labs[j].labelId), st.labels)
      invariant forall i :: i in old(st.labels) ==> i in st.labels && st.labels[i] == old(st.labels)[i]
      invariant st.Snapshot() == old(st.Snapshot()).(labels := st.labels, serial := st.serial, operationLabels := st.operationLabels)
    {
      assert forall j :: 0 <= j < |labs| && j != k ==> labs[j] != labs[k];
      EnsureLinked(st, labs[k], opId);
      links := links + [OpLabelLink(opId, IdOrZero(labs[k].labelId), labs[k].action)];
      k := k + 1;
    }
    assert (set x | x in links) == LabelLinks(opId, labs) by {
      forall x | x in links ensures x in LabelLinks(opId, labs) {
        var j :| 0 <= j < |links| && links[j] == x;
      }
    }
  }

  /**
   * What `ensure` leaves of a label whose id was `before`: a non-empty id
   * is kept, and an unset one now names a row of `rows` with the label's key.
   */
  ghost predicate Settled(lab: Label, before: Option<nat>, rows: map<nat, LabelRow>)
    reads lab
  {
    (!EmptyId(before) ==> lab.labelId == before) &&
    (before.None? ==> lab.labelId.Some? && lab.labelId.value in rows && rows[lab.labelId.value] == lab.Key())
  }

  /** One pass of the loop of `_setLabels`: ensure the label, then link it to the operation. */
  method EnsureLinked(st: Store, lab: Label, opId: nat)
    requires st.Valid()
    modifies st, lab
    ensures st.Valid()
    ensures lab.Key() == old(lab.Key()) && lab.action == old(lab.action)
    ensures Settled(lab, old(lab.labelId), st.labels)
    ensures forall i :: i in old(st.labels) ==> i in st.labels && st.labels[i] == old(st.labels)[i]
    ensures st.operationLabels == old(st.operationLabels) + {OpLabelLink(opId, IdOrZero(lab.labelId), lab.action)}
    ensures st.Snapshot() == old(st.Snapshot()).(labels := st.labels, serial := st.serial, operationLabels := st.operationLabels)
  {
    EnsureLabelValid(st.labels, lab.Key(), lab.labelId, st.serial);
    lab.Ensure(st);
    st.operationLabels := st.operationLabels + {OpLabelLink(opId, IdOrZero(lab.labelId), lab.action)};
  }

}
