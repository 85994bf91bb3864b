/**
 * Repositories: the label lookup `getLabels` with SQL LIKE name patterns,
 * the authorization fold `isAccountAuthorized`, `insert` with a fresh id,
 * the `delete` cascade over every table, and the default revision
 * formatting.
 */
module Repositories {
  import opened Php
  import opened Schema
  import opened Labels
  import opened Accounts

  // ---------------------------------------------------------------------
  // LIKE patterns

  /** SQL `s LIKE p`: `%` matches any run of characters, `_` any one character. */
  function Like(s: string, p: string): bool
    decreases |s| + |p|
  {
    if |p| == 0 then |s| == 0
    else if p[0] == '%' then Like(s, p[1..]) || (|s| > 0 && Like(s[1..], p))
    else |s| > 0 && (p[0] == '_' || p[0] == s[0]) && Like(s[1..], p[1..])
  }

  predicate NoWildcards(p: string) {
    forall i :: 0 <= i < |p| ==> p[i] != '%' && p[i] != '_'
  }

  /** A pattern without wildcards matches exactly itself. */
  lemma {:induction false} LikeLiteral(s: string, p: string)
    requires NoWildcards(p)
    ensures Like(s, p) <==> s == p
  {
    if |p| > 0 && |s| > 0 {
      LikeLiteral(s[1..], p[1..]);
      if s[0] == p[0] && s[1..] == p[1..] {
        assert s == [s[0]] + s[1..] && p == [p[0]] + p[1..];
      }
    }
  }

  /** `%` matches every name. */
  lemma {:induction false} LikeAny(s: string)
    ensures Like(s, "%")
  {
    assert "%"[1..] == "";
    if |s| > 0 {
      LikeAny(s[1..]);
    }
  }

  /** `x%` with a literal `x` matches exactly the names starting with `x`. */
  lemma {:induction false} LikePrefix(s: string, x: string)
    requires NoWildcards(x)
    ensures Like(s, x + "%") <==> (|x| <= |s| && s[..|x|] == x)
  {
    if |x| == 0 {
      assert x + "%" == "%";
      LikeAny(s);
    } else if |s| > 0 {
      assert (x + "%")[1..] == x[1..] + "%";
      LikePrefix(s[1..], x[1..]);
      if |x| <= |s| && s[..|x|] == x {
        assert s[1..][..|x| - 1] == x[1..];
      }
      if |x| <= |s| && s[1..][..|x| - 1] == x[1..] && s[0] == x[0] {
        assert s[..|x|] == [s[0]] + s[1..][..|x| - 1];
      }
    }
  }

  // ---------------------------------------------------------------------
  // getLabels

  /** The constraints of `getLabels`; None where the key is not set. */
  datatype LabelFilter = LabelFilter(labelIds: Option<seq<nat>>, names: Option<seq<string>>, labelType: Option<int>)

  predicate LabelSelected(f: LabelFilter, repoId: nat, id: nat, row: LabelRow) {
    row.repoId == repoId &&
    (f.labelIds.None? || id in f.labelIds.value) &&
    (f.names.None? || exists i :: 0 <= i < |f.names.value| && Like(row.name, f.names.value[i])) &&
    (f.labelType.None? || row.labelType == f.labelType.value) &&
    IsLabel(row.labelType)
  }

  /** Only branch and tag rows become label objects. */
  predicate IsLabel(t: int) {
    t == LABEL_BRANCH || t == LABEL_TAG
  }

  predicate LabelFilterEmpty(f: LabelFilter) {
    (f.labelIds.Some? && |f.labelIds.value| == 0) || (f.names.Some? && |f.names.value| == 0)
  }

  /** The ids of the label rows that `getLabels` selects: none for an empty id or name list. */
  ghost function SelectedLabelIds(labels: map<nat, LabelRow>, f: LabelFilter, repoId: nat): set<nat> {
    if LabelFilterEmpty(f) then {} else set id | id in labels && LabelSelected(f, repoId, id, labels[id])
  }

  /** The columns of `versioncontrol_labels`, as `ensure` reads them and `_insert` writes them. */
  predicate LabelColumn(c: string) {
    c == "label_id" || c == "repo_id" || c == "name" || c == "type"
  }

  /**
   * A SELECT on the labels table ending in `ORDER BY column`: a column the
   * table does not have makes the query fail, and no row is fetched.
   */
  function OrderedLabelRows(ids: set<nat>, orderBy: string): set<nat> {
    if LabelColumn(orderBy) then ids else {}
  }

  /** The rows `getLabels` fetches as written, ordering by `uid`. */
  ghost function LabelIdsAsWritten(labels: map<nat, LabelRow>, f: LabelFilter, repoId: nat): set<nat> {
    OrderedLabelRows(SelectedLabelIds(labels, f, repoId), "uid")
  }

  /** As written, `getLabels` returns nothing, even for a branch its filters select. */
  lemma GetLabelsAsWrittenFindsNothing(labels: map<nat, LabelRow>, f: LabelFilter, repoId: nat)
    ensures LabelIdsAsWritten(labels, f, repoId) == {}
    ensures var branch := map[1 := LabelRow(2, "master", LABEL_BRANCH)];
      var all := LabelFilter(None, None, None);
      SelectedLabelIds(branch, all, 2) == {1} && LabelIdsAsWritten(branch, all, 2) == {}
  {
    var branch := map[1 := LabelRow(2, "master", LABEL_BRANCH)];
    assert LabelSelected(LabelFilter(None, None, None), 2, 1, branch[1]);
  }

  /** The label object for a row of repository `repoId`. */
  function RowLabel(repoId: nat, id: nat, row: LabelRow): LabelValue {
    MakeLabel(row.labelType, row.name, None, Some(id), Some(repoId))
  }

  // ---------------------------------------------------------------------
  // isAccountAuthorized

  /** What a `hook_versioncontrol_is_account_authorized` implementation returns. */
  datatype AuthAnswer = Approves | Refuses | Undecided

  /** `isAccountAuthorized`: false for uid 0, then false at the first hook answering exactly FALSE. */
  function IsAccountAuthorized(uid: nat, hooks: seq<AuthAnswer>): bool {
    if uid == 0 then false
    else if |hooks| == 0 then true
    else if hooks[0] == Refuses then false
    else IsAccountAuthorized(uid, hooks[1..])
  }

  /** Authorized iff the uid is set and no hook refuses; no hooks means authorized. */
  lemma {:induction false} IsAccountAuthorizedSpec(uid: nat, hooks: seq<AuthAnswer>)
    ensures IsAccountAuthorized(uid, hooks) <==> uid != 0 && forall i :: 0 <= i < |hooks| ==> hooks[i] != Refuses
  {
    if uid != 0 && |hooks| > 0 {
      IsAccountAuthorizedSpec(uid, hooks[1..]);
      assert forall i :: 1 <= i < |hooks| ==> hooks[i] == hooks[1..][i - 1];
    }
  }

  // ---------------------------------------------------------------------
  // delete

  /** The operations and item revisions of repository `r`. */
  function OpsOf(ops: map<nat, OpRow>, r: nat): set<nat> {
    set id | id in ops && ops[id].repoId == r
  }

  function ItemsOf(items: map<nat, ItemRow>, r: nat): set<nat> {
    set id | id in items && items[id].repoId == r
  }

  /** The operation store after deleting the operations `gone`, as `VersioncontrolOperation::delete` does one by one. */
  function DropOps(t: Tables, gone: set<nat>): Tables {
    t.(operations := (map id | id in t.operations && id !in gone :: t.operations[id]),
       operationLabels := (set l | l in t.operationLabels && l.opId !in gone),
       operationItems := (set l | l in t.operationItems && l.opId !in gone))
  }

  /** `DELETE FROM versioncontrol_labels WHERE repo_id = r`. */
  function DropLabels(t: Tables, r: nat): Tables {
    t.(labels := (map id | id in t.labels && t.labels[id].repoId != r :: t.labels[id]))
  }

  /**
   * The item revisions of `r` and every edge into or out of one of them;
   * with no such revision no statement is run.
   */
  function DropItems(t: Tables, r: nat): Tables {
    var its := ItemsOf(t.items, r);
    if its == {} then t
    else t.(sourceItems := (set e | e in t.sourceItems && e.itemId !in its && e.sourceId !in its),
            items := (map id | id in t.items && t.items[id].repoId != r :: t.items[id]))
  }

  /** The accounts of `r`. */
  function DropAccounts(t: Tables, r: nat): Tables {
    t.(accounts := KeptAccounts(t.accounts, r, {}))
  }

  /** Every table after deleting repository `r`, in the order `delete` works. */
  function DeleteRepo(t: Tables, r: nat): Tables {
    var d := DropAccounts(DropItems(DropLabels(DropOps(t, OpsOf(t.operations, r)), r), r), r);
    d.(repositories := d.repositories - {r})
  }

  /**
   * After the cascade nothing of the repository remains: no operation
   * with its links, label, item revision, edge touching one of its item
   * revisions, account or repository row.
   */
  lemma DeleteRepoRemovesAll(t: Tables, r: nat)
    ensures var d := DeleteRepo(t, r);
      (forall id :: id in d.operations ==> d.operations[id].repoId != r) &&
      (forall id :: id in d.labels ==> d.labels[id].repoId != r) &&
      (forall id :: id in d.items ==> d.items[id].repoId != r) &&
      (forall k :: k in d.accounts ==> k.repoId != r) &&
      r !in d.repositories &&
      (forall e :: e in d.sourceItems ==>
         !(e.itemId in t.items && t.items[e.itemId].repoId == r) &&
         !(e.sourceId in t.items && t.items[e.sourceId].repoId == r)) &&
      (forall l :: l in d.operationLabels ==> !(l.opId in t.operations && t.operations[l.opId].repoId == r)) &&
      (forall l :: l in d.operationItems ==> !(l.opId in t.operations && t.operations[l.opId].repoId == r))
  {
    var t1 := DropOps(t, OpsOf(t.operations, r));
    DropOpsFacts(t, OpsOf(t.operations, r));
    var t2 := DropLabels(t1, r);
    DropItemsFacts(t2, r);
  }

  /** Rows of other repositories stay as they were, and the table invariant holds. */
  lemma DeleteRepoKeepsOthers(t: Tables, r: nat)
    ensures var d := DeleteRepo(t, r);
      (forall id :: id in t.operations && t.operations[id].repoId != r ==> id in d.operations && d.operations[id] == t.operations[id]) &&
      (forall id :: id in t.labels && t.labels[id].repoId != r ==> id in d.labels && d.labels[id] == t.labels[id]) &&
      (forall id :: id in t.items && t.items[id].repoId != r ==> id in d.items && d.items[id] == t.items[id]) &&
      (forall k :: k in t.accounts && k.repoId != r ==> k in d.accounts && d.accounts[k] == t.accounts[k]) &&
      (forall id :: id in t.repositories && id != r ==> id in d.repositories && d.repositories[id] == t.repositories[id]) &&
      (TablesValid(t) ==> TablesValid(d))
  {
    var t1 := DropOps(t, OpsOf(t.operations, r));
    DropOpsFacts(t, OpsOf(t.operations, r));
    var t2 := DropLabels(t1, r);
    DropItemsFacts(t2, r);
  }

  lemma DropOpsFacts(t: Tables, gone: set<nat>)
    ensures var d := DropOps(t, gone);
      (forall id :: id in t.operations ==> (id in d.operations <==> id !in gone)) &&
      (forall id :: id in d.operations ==> d.operations[id] == t.operations[id]) &&
      (forall l :: l in d.operationLabels <==> l in t.operationLabels && l.opId !in gone) &&
      (forall l :: l in d.operationItems <==> l in t.operationItems && l.opId !in gone) &&
      d.labels == t.labels && d.items == t.items && d.sourceItems == t.sourceItems &&
      d.accounts == t.accounts && d.repositories == t.repositories && d.serial == t.serial &&
      (TablesValid(t) ==> TablesValid(d))
  {
    var d := DropOps(t, gone);
    if TablesValid(t) {
      assert UniqueItemLinks(d.operationItems);
    }
  }

  lemma DropItemsFacts(t: Tables, r: nat)
    ensures var d := DropItems(t, r);
      (forall id :: id in d.items ==> d.items[id].repoId != r) &&
      (forall id :: id in t.items && t.items[id].repoId != r ==> id in d.items && d.items[id] == t.items[id]) &&
      (forall id :: id in d.items ==> id in t.items) &&
      (forall e :: e in d.sourceItems ==>
         e in t.sourceItems &&
         !(e.itemId in t.items && t.items[e.itemId].repoId == r) &&
         !(e.sourceId in t.items && t.items[e.sourceId].repoId == r)) &&
      d.labels == t.labels && d.operations == t.operations && d.operationLabels == t.operationLabels &&
      d.operationItems == t.operationItems && d.accounts == t.accounts && d.repositories == t.repositories &&
      d.serial == t.serial &&
      (TablesValid(t) ==> TablesValid(d))
  {
    var d := DropItems(t, r);
    var its := ItemsOf(t.items, r);
    if its == {} {
      forall id | id in t.items ensures t.items[id].repoId != r {
        assert id !in its;
      }
    } else if TablesValid(t) {
      assert UniqueEdges(d.sourceItems);
    }
  }

  lemma DropOpsNone(t: Tables)
    ensures DropOps(t, {}) == t
  {
  }

  lemma DropOpsStep(t: Tables, gone: set<nat>, id: nat)
    ensures DropOps(t, gone + {id}) == DropOps(DropOps(t, gone), {id})
  {
  }

  /** `VersioncontrolOperation::delete` for operation `id`. */
  method DeleteOneOperation(st: Store, id: nat)
    modifies st
    ensures st.Snapshot() == DropOps(old(st.Snapshot()), {id})
  {
    st.operationLabels := set l | l in st.operationLabels && l.opId != id;
    st.operationItems := set l | l in st.operationItems && l.opId != id;
    st.operations := st.operations - {id};
  }

  /** The `getOperations` / `delete` loop over the repository's operations. */
  method DeleteOperationsOf(st: Store, r: nat)
    modifies st
    ensures st.Snapshot() == DropOps(old(st.Snapshot()), OpsOf(old(st.operations), r))
  {
    ghost var t0 := st.Snapshot();
    ghost var all := OpsOf(t0.operations, r);
    var ids := OpsOf(st.operations, r);
    ghost var gone: set<nat> := {};
    DropOpsNone(t0);
    assert ids + gone == all;
    while ids != {}
      invariant ids + gone == all && ids !! gone
      invariant st.Snapshot() == DropOps(t0, gone)
      decreases |ids|
    {
      var id :| id in ids;
      DeleteStep(st, t0, gone, id);
      ids := ids - {id};
      gone := gone + {id};
    }
    assert gone == all;
  }

  /** One pass of the loop: deleting `id` extends the operations deleted so far. */
  method DeleteStep(st: Store, ghost t0: Tables, ghost gone: set<nat>, id: nat)
    requires st.Snapshot() == DropOps(t0, gone)
    modifies st
    ensures st.Snapshot() == DropOps(t0, gone + {id})
  {
    DropOpsStep(t0, gone, id);
    DeleteOneOperation(st, id);
  }


  /** Resetting uids where the repository has no operations changes nothing. */
  lemma ResetUidNoOps(ops: map<nat, OpRow>, uid: nat, r: nat)
    requires forall id :: id in ops ==> ops[id].repoId != r
    ensures ResetUid(ops, uid, r) == ops
  {
  }

  /** The accounts left while the accounts `keys` of repository `r` are still to be deleted. */
  function KeptAccounts(accounts: map<AccountKey, string>, r: nat, keys: set<AccountKey>): map<AccountKey, string> {
    map k | k in accounts && (k.repoId != r || k in keys) :: accounts[k]
  }

  lemma KeptAccountsStep(accounts: map<AccountKey, string>, r: nat, keys: set<AccountKey>, key: AccountKey)
    requires key in keys && key.repoId == r
    ensures KeptAccounts(accounts, r, keys) - {key} == KeptAccounts(accounts, r, keys - {key})
  {
  }

  /** The `getAccounts` / `delete` loop over the repository's accounts, once its operations are gone. */
  method DeleteAccountsOf(st: Store, r: nat)
    requires forall id :: id in st.operations ==> st.operations[id].repoId != r
    modifies st
    ensures st.Snapshot() == DropAccounts(old(st.Snapshot()), r)
  {
    ghost var t0 := st.Snapshot();
    var keys := set k | k in st.accounts && k.repoId == r;
    assert st.accounts == KeptAccounts(t0.accounts, r, keys);
    while keys != {}
      invariant forall k :: k in keys ==> k.repoId == r && k in t0.accounts
      invariant st.Snapshot() == t0.(accounts := KeptAccounts(t0.accounts, r, keys))
      decreases |keys|
    {
      var key :| key in keys;
      var account := new Account(st.accounts[key], key.uid, r);
      ResetUidNoOps(st.operations, key.uid, r);
      KeptAccountsStep(t0.accounts, r, keys, key);
      account.Delete(st);
      keys := keys - {key};
    }
  }

  /** The item revisions of `r`, then the edges into and out of them, then the revisions. */
  method DeleteItemsOf(st: Store, r: nat)
    modifies st
    ensures st.Snapshot() == DropItems(old(st.Snapshot()), r)
  {
    var itemIds := ItemsOf(st.items, r);
    if itemIds != {} {
      ghost var edges := st.sourceItems;
      st.sourceItems := set e | e in st.sourceItems && e.itemId !in itemIds;
      st.sourceItems := set e | e in st.sourceItems && e.sourceId !in itemIds;
      assert st.sourceItems == set e | e in edges && e.itemId !in itemIds && e.sourceId !in itemIds;
      st.items := map id | id in st.items && st.items[id].repoId != r :: st.items[id];
    }
  }

  class Repository {
    /** `repo_id`: None until the row is written. */
    var repoId: Option<nat>
    var name: string
    var vcs: string

    constructor (repoId: Option<nat>, name: string, vcs: string)
      ensures this.repoId == repoId && this.name == name && this.vcs == vcs
    {
      this.repoId := repoId;
      this.name := name;
      this.vcs := vcs;
    }

    /**
     * `getLabels`: nothing for an empty id or name list; otherwise the
     * branches and tags of this repository that pass every given filter,
     * each once, in no particular order (the intended behaviour: the
     * query as written fails, see `LabelIdsAsWritten`).
     */
    method GetLabels(st: Store, f: LabelFilter) returns (r: seq<LabelValue>)
      ensures LabelFilterEmpty(f) ==> r == []
      ensures forall i :: 0 <= i < |r| ==>
        r[i].labelId.Some? && r[i].labelId.value in st.labels &&
        LabelSelected(f, IdOrZero(repoId), r[i].labelId.value, st.labels[r[i].labelId.value]) &&
        r[i] == RowLabel(IdOrZero(repoId), r[i].labelId.value, st.labels[r[i].labelId.value])
      ensures !LabelFilterEmpty(f) ==>
        forall id :: id in st.labels && LabelSelected(f, IdOrZero(repoId), id, st.labels[id]) ==>
          exists i :: 0 <= i < |r| && r[i].labelId == Some(id)
      ensures forall i, j :: 0 <= i < j < |r| ==> r[i].labelId != r[j].labelId
      ensures forall id :: id in SelectedLabelIds(st.labels, f, IdOrZero(repoId)) <==>
        exists i :: 0 <= i < |r| && r[i].labelId == Some(id)
    {
      if LabelFilterEmpty(f) {
        return [];
      }
      var rid := IdOrZero(repoId);
      var ids := st.labels.Keys;
      r := [];
      while ids != {}
        invariant ids <= st.labels.Keys
        invariant forall i :: 0 <= i < |r| ==>
          r[i].labelId.Some? && r[i].labelId.value in st.labels && r[i].labelId.value !in ids &&
          LabelSelected(f, rid, r[i].labelId.value, st.labels[r[i].labelId.value]) &&
          r[i] == RowLabel(rid, r[i].labelId.value, st.labels[r[i].labelId.value])
        invariant forall id :: id in st.labels && id !in ids && LabelSelected(f, rid, id, st.labels[id]) ==>
          exists i :: 0 <= i < |r| && r[i].labelId == Some(id)
        invariant forall i, j :: 0 <= i < j < |r| ==> r[i].labelId != r[j].labelId
        decreases |ids|
      {
        var id :| id in ids;
        if LabelSelected(f, rid, id, st.labels[id]) {
          ghost var before := r;
          r := r + [RowLabel(rid, id, st.labels[id])];
          assert r[|r| - 1].labelId == Some(id);
          forall j | j in st.labels && j !in ids - {id} && LabelSelected(f, rid, j, st.labels[j])
            ensures exists i :: 0 <= i < |r| && r[i].labelId == Some(j)
          {
            if j != id {
              var i :| 0 <= i < |before| && before[i].labelId == Some(j);
              assert r[i].labelId == Some(j);
            }
          }
        }
        ids := ids - {id};
      }
    }

    /** `insert`: any preset id is dropped and the row gets a fresh one. */
    method Insert(st: Store)
      requires st.Valid()
      modifies this, st
      ensures st.Valid()
      ensures repoId == Some(old(st.serial)) && old(st.serial) !in old(st.repositories)
      ensures name == old(name) && vcs == old(vcs)
      ensures st.Snapshot() == old(st.Snapshot()).(repositories := old(st.repositories)[old(st.serial) := RepoRow(name, vcs)],
                                                   serial := old(st.serial) + 1)
    {
      repoId := None;
      var id := st.NextSerial();
      st.repositories := st.repositories[id := RepoRow(name, vcs)];
      repoId := Some(id);
    }

    /**
     * `update`: the row keyed by this repository's id takes the current
     * name and backend; with no such row the keyed write changes nothing.
     */
    method Update(st: Store)
      requires st.Valid()
      modifies st
      ensures st.Valid()
      ensures st.Snapshot() == old(st.Snapshot()).(repositories :=
        if IdOrZero(repoId) in old(st.repositories) then old(st.repositories)[IdOrZero(repoId) := RepoRow(name, vcs)]
        else old(st.repositories))
    {
      var r := IdOrZero(repoId);
      if r in st.repositories {
        st.repositories := st.repositories[r := RepoRow(name, vcs)];
      }
    }

    /** `delete`: the cascade over operations, labels, item revisions and their edges, accounts and the row. */
    method Delete(st: Store)
      modifies st
      ensures st.Snapshot() == DeleteRepo(old(st.Snapshot()), IdOrZero(repoId))
    {
      ghost var t0 := st.Snapshot();
      var r := IdOrZero(repoId);
      DeleteOperationsOf(st, r);
      st.labels := map id | id in st.labels && st.labels[id].repoId != r :: st.labels[id];
      DeleteItemsOf(st, r);
      DeleteAccountsOf(st, r);
      st.repositories := st.repositories - {r};
    }

    /** `formatRevisionIdentifier` without a backend override: the revision itself, in every format. */
    function FormatRevisionIdentifier(revision: string, format: string): string {
      revision
    }
  }
}
