/**
 * The database tables of the Version Control API, held in memory by one
 * `Store` object, together with the type codes the module defines.
 */
module Schema {
  import opened Php

  // Label types.
  const LABEL_BRANCH: int := 2
  const LABEL_TAG: int := 3

  // Operation types.
  const OPERATION_COMMIT: int := 1
  const OPERATION_BRANCH: int := 2
  const OPERATION_TAG: int := 3

  /** Item revision types, stored as the codes 1 to 4. */
  datatype ItemType = File | Directory | FileDeleted | DirectoryDeleted

  function ItemTypeCode(t: ItemType): (c: int)
    ensures 1 <= c <= 4
  {
    match t
    case File => 1
    case Directory => 2
    case FileDeleted => 3
    case DirectoryDeleted => 4
  }

  /** What happened to an item, also the kind of a source-item edge. */
  datatype Action = Added | Modified | Moved | Copied | Merged | Deleted | Replaced | Other

  /** The two kinds of operation-item links. */
  datatype LinkType = MemberItem | CachedAffectedItem

  /** A `versioncontrol_labels` row; (repo, name, type) is the lookup key. */
  datatype LabelRow = LabelRow(repoId: nat, name: string, labelType: int)

  /** A `versioncontrol_item_revisions` row; (repo, path, revision) is the lookup key. */
  datatype ItemRow = ItemRow(repoId: nat, path: string, revision: string, itemType: ItemType)

  /**
   * A `versioncontrol_source_items` row: `itemId` was derived from
   * `sourceId` (0 for none); an unset action is stored as code 0.
   */
  datatype SourceEdge = SourceEdge(itemId: nat, sourceId: nat, action: Option<Action>,
                                   lineChangesRecorded: bool, linesAdded: int, linesRemoved: int)

  /** A `versioncontrol_operations` row. */
  datatype OpRow = OpRow(opType: int, repoId: nat, date: int, uid: nat,
                         author: string, committer: string, message: string, revision: string)

  /** A `versioncontrol_operation_labels` row. */
  datatype OpLabelLink = OpLabelLink(opId: nat, labelId: nat, action: Option<Action>)

  /** A `versioncontrol_operation_items` row. */
  datatype OpItemLink = OpItemLink(opId: nat, itemId: nat, linkType: LinkType)

  /** The key of a `versioncontrol_accounts` row. */
  datatype AccountKey = AccountKey(uid: nat, repoId: nat)

  /** A `versioncontrol_repositories` row. */
  datatype RepoRow = RepoRow(name: string, vcs: string)

  predicate UniqueLabelKeys(labels: map<nat, LabelRow>) {
    forall i, j :: i in labels && j in labels && labels[i] == labels[j] ==> i == j
  }

  predicate ItemKey(r: ItemRow, repoId: nat, path: string, revision: string) {
    r.repoId == repoId && r.path == path && r.revision == revision
  }

  predicate UniqueItemKeys(items: map<nat, ItemRow>) {
    forall i, j ::
      (i in items && j in items && ItemKey(items[j], items[i].repoId, items[i].path, items[i].revision)) ==> i == j
  }

  /** At most one edge per (item, source) pair. */
  predicate UniqueEdges(edges: set<SourceEdge>) {
    forall e, f :: e in edges && f in edges && e.itemId == f.itemId && e.sourceId == f.sourceId ==> e == f
  }

  /** At most one link per (operation, item) pair. */
  predicate UniqueItemLinks(links: set<OpItemLink>) {
    forall l, m :: l in links && m in links && l.opId == m.opId && l.itemId == m.itemId ==> l == m
  }

  /** Every id of a serial column lies between 1 and the next id to hand out. */
  predicate IdsBelow<R>(m: map<nat, R>, serial: nat) {
    forall id :: id in m ==> 0 < id < serial
  }

  /** The contents of every table at one moment. */
  datatype Tables = Tables(labels: map<nat, LabelRow>, items: map<nat, ItemRow>,
                           sourceItems: set<SourceEdge>, operations: map<nat, OpRow>,
                           operationLabels: set<OpLabelLink>, operationItems: set<OpItemLink>,
                           accounts: map<AccountKey, string>, repositories: map<nat, RepoRow>,
                           serial: nat)

  /** The invariant every write keeps: ids below the serial, unique lookup keys, one edge and one item link per pair. */
  predicate TablesValid(t: Tables) {
    0 < t.serial &&
    IdsBelow(t.labels, t.serial) && IdsBelow(t.items, t.serial) &&
    IdsBelow(t.operations, t.serial) && IdsBelow(t.repositories, t.serial) &&
    UniqueLabelKeys(t.labels) && UniqueItemKeys(t.items) &&
    UniqueEdges(t.sourceItems) && UniqueItemLinks(t.operationItems)
  }

  class Store {
    var labels: map<nat, LabelRow>
    var items: map<nat, ItemRow>
    var sourceItems: set<SourceEdge>
    var operations: map<nat, OpRow>
    var operationLabels: set<OpLabelLink>
    var operationItems: set<OpItemLink>
    var accounts: map<AccountKey, string>
    var repositories: map<nat, RepoRow>
    /** The next value of the serial columns. */
    var serial: nat

    function Snapshot(): Tables
      reads this
    {
      Tables(labels, items, sourceItems, operations, operationLabels, operationItems,
             accounts, repositories, serial)
    }

    predicate Valid()
      reads this
    {
      TablesValid(Snapshot())
    }

    constructor ()
      ensures Valid()
      ensures labels == map[] && items == map[] && sourceItems == {}
      ensures operations == map[] && operationLabels == {} && operationItems == {}
      ensures accounts == map[] && repositories == map[]
    {
      labels, items, sourceItems := map[], map[], {};
      operations, operationLabels, operationItems := map[], {}, {};
      accounts, repositories := map[], map[];
      serial := 1;
    }

    /** `drupal_write_record` handing out a new serial id. */
    method NextSerial() returns (id: nat)
      requires Valid()
      modifies this
      ensures Valid()
      ensures id == old(serial) && serial == old(serial) + 1 && id > 0
      ensures id !in labels && id !in items && id !in operations && id !in repositories
      ensures Snapshot() == old(Snapshot()).(serial := serial)
    {
      id := serial;
      serial := serial + 1;
    }
  }
}
