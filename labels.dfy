/**
 * Labels (branches and tags): get-or-create of a label row keyed by
 * repository, name and type.
 */
module Labels {
  import opened Php
  import opened Schema

  /** Branch and tag labels carry the same codes as branch and tag operations. */
  lemma LabelCodesAreOperationCodes()
    ensures LABEL_BRANCH == OPERATION_BRANCH && LABEL_TAG == OPERATION_TAG
    ensures LABEL_BRANCH != LABEL_TAG
  {
  }

  /** The label table, a label's id and the next serial value, before or after a write. */
  datatype LabelState = LabelState(labels: map<nat, LabelRow>, labelId: Option<nat>, serial: nat)

  ghost predicate RowExists(labels: map<nat, LabelRow>, key: LabelRow) {
    exists id :: id in labels && labels[id] == key
  }

  /** `_insert`: a set id has its row rewritten (if there is one), an unset id gets a new row. */
  function InsertLabel(labels: map<nat, LabelRow>, key: LabelRow, labelId: Option<nat>, serial: nat): LabelState {
    if labelId.Some? then
      LabelState(if labelId.value in labels then labels[labelId.value := key] else labels, labelId, serial)
    else
      LabelState(labels[serial := key], Some(serial), serial + 1)
  }

  /** `ensure`: keep a non-empty id, else adopt the row with the key, else `_insert`. */
  ghost function EnsureLabel(labels: map<nat, LabelRow>, key: LabelRow, labelId: Option<nat>, serial: nat): LabelState {
    if !EmptyId(labelId) then LabelState(labels, labelId, serial)
    else if RowExists(labels, key) then
      var id :| id in labels && labels[id] == key; LabelState(labels, Some(id), serial)
    else InsertLabel(labels, key, labelId, serial)
  }

  /** The label-table part of `Store.Valid`. */
  predicate LabelTableValid(labels: map<nat, LabelRow>, serial: nat) {
    0 < serial && IdsBelow(labels, serial) && UniqueLabelKeys(labels)
  }

  /** The three outcomes of `ensure`, including the id-0 corner where nothing is written. */
  lemma EnsureLabelCases(labels: map<nat, LabelRow>, key: LabelRow, labelId: Option<nat>, serial: nat)
    requires LabelTableValid(labels, serial)
    ensures var r := EnsureLabel(labels, key, labelId, serial);
      (!EmptyId(labelId) ==> r == LabelState(labels, labelId, serial)) &&
      (forall i :: EmptyId(labelId) && i in labels && labels[i] == key ==>
         r == LabelState(labels, Some(i), serial)) &&
      (labelId.None? && !RowExists(labels, key) ==>
         serial !in labels && r == LabelState(labels[serial := key], Some(serial), serial + 1)) &&
      (labelId == Some(0) && !RowExists(labels, key) ==> r == LabelState(labels, labelId, serial))
  {
  }

  /** After `ensure` the table is still valid and an id that was unset now names a row with the key. */
  lemma EnsureLabelValid(labels: map<nat, LabelRow>, key: LabelRow, labelId: Option<nat>, serial: nat)
    requires LabelTableValid(labels, serial)
    ensures var r := EnsureLabel(labels, key, labelId, serial);
      LabelTableValid(r.labels, r.serial) && serial <= r.serial &&
      (forall i :: i in labels ==> i in r.labels && r.labels[i] == labels[i]) &&
      (labelId.None? ==> r.labelId.Some? && r.labelId.value in r.labels && r.labels[r.labelId.value] == key)
  {
    var r := EnsureLabel(labels, key, labelId, serial);
    if EmptyId(labelId) && !RowExists(labels, key) && labelId.None? {
      assert r.labels == labels[serial := key];
      assert forall j :: j in labels ==> labels[j] != key;
    }
  }

  /** A second `ensure` changes nothing, so at most one row exists per key. */
  lemma EnsureLabelIdempotent(labels: map<nat, LabelRow>, key: LabelRow, labelId: Option<nat>, serial: nat)
    requires LabelTableValid(labels, serial)
    ensures var r := EnsureLabel(labels, key, labelId, serial);
      EnsureLabel(r.labels, key, r.labelId, r.serial) == r
  {
    EnsureLabelCases(labels, key, labelId, serial);
    var r := EnsureLabel(labels, key, labelId, serial);
    if EmptyId(labelId) && RowExists(labels, key) {
      var i :| i in labels && labels[i] == key;
      assert r.labelId == Some(i);
    } else if labelId == Some(0) {
      EnsureLabelCases(labels, key, labelId, serial);
    }
  }

  /**
   * Labels with the same name in the same repository but different types
   * end up as two rows with two ids.
   */
  lemma EnsureLabelSeparatesTypes(labels: map<nat, LabelRow>, repoId: nat, name: string, t1: int, t2: int, serial: nat)
    requires LabelTableValid(labels, serial) && t1 != t2
    ensures var r1 := EnsureLabel(labels, LabelRow(repoId, name, t1), None, serial);
      var r2 := EnsureLabel(r1.labels, LabelRow(repoId, name, t2), None, r1.serial);
      r1.labelId.Some? && r2.labelId.Some? && r1.labelId != r2.labelId &&
      r2.labels[r1.labelId.value] == LabelRow(repoId, name, t1) &&
      r2.labels[r2.labelId.value] == LabelRow(repoId, name, t2)
  {
    var r1 := EnsureLabel(labels, LabelRow(repoId, name, t1), None, serial);
    EnsureLabelValid(labels, LabelRow(repoId, name, t1), None, serial);
    EnsureLabelValid(r1.labels, LabelRow(repoId, name, t2), None, r1.serial);
  }

  /**
   * The fields of a label object as constructed: type code, name, action,
   * id and repository.
   */
  datatype LabelValue = LabelValue(labelType: int, name: Option<string>, action: Option<Action>,
                                   labelId: Option<nat>, repoId: Option<nat>)

  /**
   * `new VersioncontrolBranch(...)` as the subclass is written: whatever
   * the caller passes, it hands `($name, NULL, NULL)` to the parent
   * constructor `($type, $name, $action, $label_id, $repository)`, so every
   * field but the type it sets afterwards ends up NULL.
   */
  function BranchAsWritten(name: string, action: Option<Action>, labelId: Option<nat>, repoId: Option<nat>): LabelValue {
    LabelValue(LABEL_BRANCH, None, None, None, None)
  }

  /** The same for `new VersioncontrolTag(...)`. */
  function TagAsWritten(name: string, action: Option<Action>, labelId: Option<nat>, repoId: Option<nat>): LabelValue {
    LabelValue(LABEL_TAG, None, None, None, None)
  }

  /** A branch called "master" with id 7 comes out nameless and without id. */
  lemma BranchAsWrittenLosesFields()
    ensures BranchAsWritten("master", None, Some(7), Some(1)).name != Some("master")
    ensures BranchAsWritten("master", None, Some(7), Some(1)).labelId != Some(7)
    ensures TagAsWritten("v1", None, Some(8), Some(1)).name != Some("v1")
  {
  }

  /** A label of the given type code carrying the caller's name, action, id and repository. */
  function MakeLabel(labelType: int, name: string, action: Option<Action>, labelId: Option<nat>, repoId: Option<nat>): LabelValue {
    LabelValue(labelType, Some(name), action, labelId, repoId)
  }

  /** The corrected subclass constructors keep what the caller passes. */
  lemma BranchAndTagKeepFields(name: string, action: Option<Action>, labelId: Option<nat>, repoId: Option<nat>)
    ensures MakeLabel(LABEL_BRANCH, name, action, labelId, repoId).name == Some(name)
    ensures MakeLabel(LABEL_TAG, name, action, labelId, repoId).labelId == labelId
    ensures MakeLabel(LABEL_BRANCH, name, action, labelId, repoId) != MakeLabel(LABEL_TAG, name, action, labelId, repoId)
  {
  }

  /** The SELECT of `ensure`: the id of the row with the given key, if any. */
  method FindLabel(st: Store, key: LabelRow) returns (r: Option<nat>)
    ensures r.Some? ==> r.value in st.labels && st.labels[r.value] == key
    ensures r.None? <==> !RowExists(st.labels, key)
  {
    var ids := st.labels.Keys;
    while ids != {}
      invariant ids <= st.labels.Keys
      invariant forall id :: id in st.labels && id !in ids ==> st.labels[id] != key
      decreases |ids|
    {
      var id :| id in ids;
      if st.labels[id] == key {
        return Some(id);
      }
      ids := ids - {id};
    }
    return None;
  }

  class Label {
    var labelType: int
    var name: string
    var action: Option<Action>
    var labelId: Option<nat>
    /** The id of the label's repository (0 when it has none). */
    var repoId: nat

    constructor (labelType: int, name: string, action: Option<Action>, labelId: Option<nat>, repoId: nat)
      ensures this.labelType == labelType && this.name == name && this.action == action
      ensures this.labelId == labelId && this.repoId == repoId
    {
      this.labelType := labelType;
      this.name := name;
      this.action := action;
      this.labelId := labelId;
      this.repoId := repoId;
    }

    /** The lookup key; the action is not part of it. */
    function Key(): LabelRow
      reads this
    {
      LabelRow(repoId, name, labelType)
    }

    /** `_insert`, reached only when no row carries the label's key. */
    method Insert(st: Store)
      requires st.Valid() && !RowExists(st.labels, Key())
      modifies this, st
      ensures st.Valid()
      ensures LabelState(st.labels, labelId, st.serial) ==
              InsertLabel(old(st.labels), old(Key()), old(labelId), old(st.serial))
      ensures st.Snapshot() == old(st.Snapshot()).(labels := st.labels, serial := st.serial)
      ensures Key() == old(Key()) && action == old(action)
    {
      if labelId.Some? {
        if labelId.value in st.labels {
          st.labels := st.labels[labelId.value := Key()];
        }
      } else {
        var id := st.NextSerial();
        st.labels := st.labels[id := Key()];
        labelId := Some(id);
      }
    }

    /** `ensure`: afterwards the label's id names its row, unless the id was already non-empty. */
    method Ensure(st: Store)
      requires st.Valid()
      modifies this, st
      ensures st.Valid()
      ensures LabelState(st.labels, labelId, st.serial) ==
              EnsureLabel(old(st.labels), old(Key()), old(labelId), old(st.serial))
      ensures st.Snapshot() == old(st.Snapshot()).(labels := st.labels, serial := st.serial)
      ensures Key() == old(Key()) && action == old(action)
    {
      if !EmptyId(labelId) {
        return;
      }
      var found := FindLabel(st, Key());
      if found.Some? {
        EnsureLabelCases(st.labels, Key(), labelId, st.serial);
        labelId := found;
        return;
      }
      Insert(st);
    }
  }
}
