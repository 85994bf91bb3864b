/**
 * The read side of operations: `getOperations` (matching operations in
 * date order with their labels), the write-access decision of
 * `hasWriteAccess`, and the counts and date ranges of `getStatistics`.
 */
module OperationQueries {
  import opened Php
  import opened Schema
  import opened Labels
  import opened Constraints

  /**
   * Whether the constructed query selects an operation. The WHERE clause
   * is assembled by the constraint callbacks, which are not part of this
   * model, so this is a parameter of every query.
   */
  type Matcher = (Query, nat, OpRow) -> bool

  /**
   * No constraint was given, so no callback adds a clause and the WHERE
   * clause `_constructQuery` returns is `()`.
   */
  predicate NoClauses(q: Query) {
    |q.calls| == 0
  }

  /**
   * Whether the query selects an operation, with the WHERE left out when
   * it has no clause: then every operation is selected.
   */
  predicate Selects(q: Query, matches: Matcher, id: nat, row: OpRow) {
    NoClauses(q) || matches(q, id, row)
  }

  /** The operations the query selects. */
  function MatchingIds(ops: map<nat, OpRow>, q: Query, matches: Matcher): set<nat> {
    set id | id in ops && Selects(q, matches, id, ops[id])
  }

  /** Without constraints the query is built from nothing and selects every operation. */
  lemma NoConstraintsSelectAll(registry: Arr<string, ConstraintInfo>, ops: map<nat, OpRow>, matches: Matcher)
    ensures Construct(registry, []) == Some(Query([], []))
    ensures MatchingIds(ops, Query([], []), matches) == ops.Keys
  {
  }

  /**
   * The operations fetched as the code is written: `WHERE ()` is not valid
   * SQL, so a query without clauses fails and fetches nothing.
   */
  function MatchingIdsAsWritten(ops: map<nat, OpRow>, q: Query, matches: Matcher): set<nat> {
    if NoClauses(q) then {} else MatchingIds(ops, q, matches)
  }

  // ---------------------------------------------------------------------
  // getOperations

  /** An operation as `getOperations` returns it: id, row and labels. */
  datatype FoundOp = FoundOp(opId: nat, row: OpRow, labels: set<LabelValue>)

  /** `ORDER BY op.date DESC, op.vc_op_id DESC` as an ascending key. */
  function OrderKey(p: (nat, OpRow)): seq<int> {
    [-p.1.date, -(p.0 as int)]
  }

  /** `a` comes before `b` in that order. */
  predicate Newer(a: (nat, OpRow), b: (nat, OpRow)) {
    a.1.date > b.1.date || (a.1.date == b.1.date && a.0 > b.0)
  }

  lemma OrderKeyNewer(a: (nat, OpRow), b: (nat, OpRow))
    requires LexLe(OrderKey(a), OrderKey(b)) && a.0 != b.0
    ensures Newer(a, b)
  {
    var x := OrderKey(a);
    var y := OrderKey(b);
    assert x[1..] == [-(a.0 as int)] && y[1..] == [-(b.0 as int)];
    assert x[1..][1..] == [] && y[1..][1..] == [];
  }

  predicate IsLabelType(t: int) {
    t == LABEL_BRANCH || t == LABEL_TAG
  }

  /**
   * The label object built for a label link of an operation, as the code
   * is written: the tag branch passes `$row->label_id=NULL`, an assignment
   * whose value is NULL, so every tag comes back without its id.
   */
  function OpLabelAsWritten(row: LabelRow, link: OpLabelLink, repoId: nat): LabelValue {
    MakeLabel(row.labelType, row.name, link.action,
              if row.labelType == LABEL_TAG then None else Some(link.labelId), Some(repoId))
  }

  /** Tag 9 of operation 4 is returned without id. */
  lemma OpLabelAsWrittenDropsTagId()
    ensures OpLabelAsWritten(LabelRow(1, "v1", LABEL_TAG), OpLabelLink(4, 9, None), 1).labelId != Some(9)
  {
  }

  /** The label built for a link, carrying the link's label id as intended. */
  function OpLabel(row: LabelRow, link: OpLabelLink, repoId: nat): (v: LabelValue)
    ensures v.labelType == row.labelType && v.name == Some(row.name) && v.action == link.action
    ensures v.labelId == Some(link.labelId) && v.repoId == Some(repoId)
  {
    MakeLabel(row.labelType, row.name, link.action, Some(link.labelId), Some(repoId))
  }

  /** The labels of operation `opId`: its label links joined with branch and tag rows. */
  function LabelsOf(labels: map<nat, LabelRow>, links: set<OpLabelLink>, opId: nat, repoId: nat): set<LabelValue> {
    set l | l in links && l.opId == opId && l.labelId in labels && IsLabelType(labels[l.labelId].labelType) ::
      OpLabel(labels[l.labelId], l, repoId)
  }

  /**
   * An operation's labels are exactly its label links to branch and tag
   * rows, each with the link's action and the row's name and type.
   */
  lemma LabelsOfSpec(labels: map<nat, LabelRow>, links: set<OpLabelLink>, opId: nat, repoId: nat, v: LabelValue)
    ensures v in LabelsOf(labels, links, opId, repoId) <==>
      v.labelId.Some? && v.name.Some? && v.repoId == Some(repoId) && IsLabelType(v.labelType) &&
      OpLabelLink(opId, v.labelId.value, v.action) in links &&
      v.labelId.value in labels &&
      labels[v.labelId.value].name == v.name.value && labels[v.labelId.value].labelType == v.labelType
  {
    if v.labelId.Some? && v.name.Some? && v.repoId == Some(repoId) && IsLabelType(v.labelType) &&
       OpLabelLink(opId, v.labelId.value, v.action) in links && v.labelId.value in labels &&
       labels[v.labelId.value].name == v.name.value && labels[v.labelId.value].labelType == v.labelType {
      var l := OpLabelLink(opId, v.labelId.value, v.action);
      assert OpLabel(labels[l.labelId], l, repoId) == v;
    }
  }

  /**
   * An operation `getOperations` can return: the query selects it, and the
   * INNER JOIN with `versioncontrol_repositories` finds its repository.
   */
  predicate Joined(repos: set<nat>, q: Query, matches: Matcher, id: nat, row: OpRow) {
    row.repoId in repos && Selects(q, matches, id, row)
  }

  /** The operations of `ops` the query selects and the join keeps, newest first, each once. */
  ghost predicate ListsMatches(ops: map<nat, OpRow>, repos: set<nat>, q: Query, matches: Matcher, r: seq<FoundOp>) {
    (forall i :: 0 <= i < |r| ==> r[i].opId in ops && r[i].row == ops[r[i].opId] && Joined(repos, q, matches, r[i].opId, r[i].row)) &&
    (forall id :: id in ops && Joined(repos, q, matches, id, ops[id]) ==> exists i :: 0 <= i < |r| && r[i].opId == id) &&
    (forall i, j :: 0 <= i < j < |r| ==> Newer((r[i].opId, r[i].row), (r[j].opId, r[j].row)))
  }

  /** The rows of the operations the query selects and the join keeps, each once, in no particular order. */
  method CollectMatches(ops: map<nat, OpRow>, repos: set<nat>, q: Query, matches: Matcher) returns (rows: seq<(nat, OpRow)>)
    ensures DistinctKeys(rows)
    ensures forall i :: 0 <= i < |rows| ==>
      rows[i].0 in ops && rows[i].1 == ops[rows[i].0] && Joined(repos, q, matches, rows[i].0, rows[i].1)
    ensures forall id :: id in ops && Joined(repos, q, matches, id, ops[id]) ==> HasKey(rows, id)
  {
    rows := [];
    var ids := ops.Keys;
    while ids != {}
      invariant ids <= ops.Keys
      invariant DistinctKeys(rows)
      invariant forall i :: 0 <= i < |rows| ==>
        rows[i].0 in ops && rows[i].0 !in ids && rows[i].1 == ops[rows[i].0] && Joined(repos, q, matches, rows[i].0, rows[i].1)
      invariant forall id :: id in ops && id !in ids && Joined(repos, q, matches, id, ops[id]) ==> HasKey(rows, id)
      decreases |ids|
    {
      var id :| id in ids;
      if Joined(repos, q, matches, id, ops[id]) {
        ghost var before := rows;
        rows := rows + [(id, ops[id])];
        assert rows[|before|].0 == id;
        forall j | j in ops && j !in ids - {id} && Joined(repos, q, matches, j, ops[j]) ensures HasKey(rows, j) {
          if j != id {
            var i :| 0 <= i < |before| && before[i].0 == j;
            assert rows[i].0 == j;
          }
        }
      }
      ids := ids - {id};
    }
  }

  /** `ORDER BY op.date DESC, op.vc_op_id DESC` over rows with distinct ids. */
  method NewestFirst(rows: seq<(nat, OpRow)>) returns (sorted: seq<(nat, OpRow)>)
    requires DistinctKeys(rows)
    ensures forall i :: 0 <= i < |sorted| ==> sorted[i] in rows
    ensures forall i :: 0 <= i < |rows| ==> rows[i] in sorted
    ensures forall i, j :: 0 <= i < j < |sorted| ==> Newer(sorted[i], sorted[j])
  {
    sorted := SortBy(rows, OrderKey);
    SortByCorrect(rows, OrderKey);
    SortByDistinct(rows, OrderKey);
    forall i | 0 <= i < |sorted| ensures sorted[i] in rows {
      assert sorted[i] in multiset(rows);
    }
    forall i | 0 <= i < |rows| ensures rows[i] in sorted {
      assert rows[i] in multiset(sorted);
    }
    forall i, j | 0 <= i < j < |sorted| ensures Newer(sorted[i], sorted[j]) {
      OrderKeyNewer(sorted[i], sorted[j]);
    }
  }

  /**
   * `getOperations`: empty when the constraints cannot be turned into a
   * query; otherwise every selected operation of a known repository once,
   * newest first (ties broken by the higher id), each with its labels.
   * Without constraints the WHERE clause is left out
   * (`MatchingIdsAsWritten` is the query as written).
   */
  method GetOperations(st: Store, registry: Arr<string, ConstraintInfo>, cs: ConstraintSet, matches: Matcher)
    returns (r: seq<FoundOp>)
    ensures Construct(registry, cs).None? ==> r == []
    ensures Construct(registry, cs).Some? ==>
      ListsMatches(st.operations, st.repositories.Keys, Construct(registry, cs).value, matches, r)
    ensures forall i :: 0 <= i < |r| ==>
      r[i].labels == LabelsOf(st.labels, st.operationLabels, r[i].opId, r[i].row.repoId)
  {
    var q := ConstructQuery(registry, cs);
    if q.None? {
      return [];
    }
    var rows := CollectMatches(st.operations, st.repositories.Keys, q.value, matches);
    var sorted := NewestFirst(rows);
    r := AttachLabels(st.labels, st.operationLabels, sorted);
    SortedListsMatches(st.operations, st.repositories.Keys, q.value, matches, rows, sorted, r);
  }

  /** The collected rows, sorted and given their labels, list the matches. */
  lemma SortedListsMatches(ops: map<nat, OpRow>, repos: set<nat>, q: Query, matches: Matcher,
                           rows: seq<(nat, OpRow)>, sorted: seq<(nat, OpRow)>, r: seq<FoundOp>)
    requires forall i :: 0 <= i < |rows| ==>
      rows[i].0 in ops && rows[i].1 == ops[rows[i].0] && Joined(repos, q, matches, rows[i].0, rows[i].1)
    requires forall id :: id in ops && Joined(repos, q, matches, id, ops[id]) ==> HasKey(rows, id)
    requires forall i :: 0 <= i < |sorted| ==> sorted[i] in rows
    requires forall i :: 0 <= i < |rows| ==> rows[i] in sorted
    requires forall i, j :: 0 <= i < j < |sorted| ==> Newer(sorted[i], sorted[j])
    requires |r| == |sorted| && forall i :: 0 <= i < |r| ==> r[i].opId == sorted[i].0 && r[i].row == sorted[i].1
    ensures ListsMatches(ops, repos, q, matches, r)
  {
    forall i | 0 <= i < |r|
      ensures r[i].opId in ops && r[i].row == ops[r[i].opId] && Joined(repos, q, matches, r[i].opId, r[i].row)
    {
      assert sorted[i] in rows;
      var m :| 0 <= m < |rows| && rows[m] == sorted[i];
    }
    forall id | id in ops && Joined(repos, q, matches, id, ops[id])
      ensures exists i :: 0 <= i < |r| && r[i].opId == id
    {
      var m :| 0 <= m < |rows| && rows[m].0 == id;
      assert rows[m] in sorted;
      var i :| 0 <= i < |sorted| && sorted[i] == rows[m];
      assert r[i].opId == id;
    }
    forall i, j | 0 <= i < j < |r| ensures Newer((r[i].opId, r[i].row), (r[j].opId, r[j].row)) {
      assert (r[i].opId, r[i].row) == sorted[i] && (r[j].opId, r[j].row) == sorted[j];
    }
  }

  /** Each sorted row with the labels its operation links to, in the same order. */
  method AttachLabels(labels: map<nat, LabelRow>, links: set<OpLabelLink>, sorted: seq<(nat, OpRow)>)
    returns (r: seq<FoundOp>)
    ensures |r| == |sorted|
    ensures forall i :: 0 <= i < |r| ==>
      r[i] == FoundOp(sorted[i].0, sorted[i].1, LabelsOf(labels, links, sorted[i].0, sorted[i].1.repoId))
  {
    r := [];
    var k := 0;
    while k < |sorted|
      invariant 0 <= k <= |sorted| && |r| == k
      invariant forall i :: 0 <= i < k ==>
        r[i] == FoundOp(sorted[i].0, sorted[i].1, LabelsOf(labels, links, sorted[i].0, sorted[i].1.repoId))
    {
      r := r + [FoundOp(sorted[k].0, sorted[k].1, LabelsOf(labels, links, sorted[k].0, sorted[k].1.repoId))];
      k := k + 1;
    }
  }

  // ---------------------------------------------------------------------
  // hasWriteAccess

  /** What a `hook_versioncontrol_write_access` implementation returns: TRUE or a list of errors. */
  datatype HookOutcome = Grant | Deny(messages: seq<string>)

  datatype AccessError = NoRepository(opType: int) | NoCommitAccess | EmptyMessage | HookMessage(text: string)

  /**
   * The decision, and the new content of the stored access errors (None
   * where `_accessErrors` is not called and they stay as they were).
   */
  datatype Access = Access(granted: bool, errors: Option<seq<AccessError>>)

  function HookMessages(messages: seq<string>): (r: seq<AccessError>)
    ensures |r| == |messages|
    ensures forall i :: 0 <= i < |r| ==> r[i] == HookMessage(messages[i])
  {
    if |messages| == 0 then [] else [HookMessage(messages[0])] + HookMessages(messages[1..])
  }

  /** All hook errors, in hook order. */
  function HookErrors(hooks: seq<HookOutcome>): seq<AccessError> {
    if |hooks| == 0 then []
    else (if hooks[0].Deny? then HookMessages(hooks[0].messages) else []) + HookErrors(hooks[1..])
  }

  /** The hook loop of `hasWriteAccess`, with the errors collected so far in `acc`. */
  function HooksVerdict(acc: seq<AccessError>, hooks: seq<HookOutcome>): Access
    decreases |hooks|
  {
    if |hooks| == 0 then (if |acc| == 0 then Access(true, None) else Access(false, Some(acc)))
    else if hooks[0].Grant? then Access(true, None)
    else HooksVerdict(acc + HookMessages(hooks[0].messages), hooks[1..])
  }

  predicate SomeGrant(hooks: seq<HookOutcome>) {
    exists i :: 0 <= i < |hooks| && hooks[i].Grant?
  }

  /**
   * A hook granting access decides at once; without one, the combined
   * error lists, in order, decide: access iff they are empty.
   */
  lemma {:induction false} HooksVerdictSpec(acc: seq<AccessError>, hooks: seq<HookOutcome>)
    ensures SomeGrant(hooks) ==> HooksVerdict(acc, hooks) == Access(true, None)
    ensures !SomeGrant(hooks) ==>
      HooksVerdict(acc, hooks) == if |acc + HookErrors(hooks)| == 0 then Access(true, None)
                                  else Access(false, Some(acc + HookErrors(hooks)))
    decreases |hooks|
  {
    if |hooks| > 0 {
      if hooks[0].Deny? {
        HooksVerdictSpec(acc + HookMessages(hooks[0].messages), hooks[1..]);
        assert acc + HookMessages(hooks[0].messages) + HookErrors(hooks[1..]) == acc + HookErrors(hooks);
        if SomeGrant(hooks) {
          var i :| 0 <= i < |hooks| && hooks[i].Grant?;
          assert hooks[1..][i - 1].Grant?;
        }
        if SomeGrant(hooks[1..]) {
          var i :| 0 <= i < |hooks[1..]| && hooks[1..][i].Grant?;
          assert hooks[i + 1].Grant?;
        }
      }
    } else {
      assert acc + HookErrors(hooks) == acc;
    }
  }

  /** `hasWriteAccess` given the facts it looks up. */
  function WriteAccess(repoKnown: bool, opType: int, allowUnauthorized: bool, authorized: bool,
                       message: Option<string>, hooks: seq<HookOutcome>): Access {
    if !repoKnown then Access(false, Some([NoRepository(opType)]))
    else if !allowUnauthorized && !authorized then Access(false, Some([NoCommitAccess]))
    else if message.Some? && EmptyString(message.value) then Access(false, Some([EmptyMessage]))
    else HooksVerdict([], hooks)
  }

  /** When the operation may happen, and which errors a refusal leaves. */
  lemma WriteAccessSpec(repoKnown: bool, opType: int, allowUnauthorized: bool, authorized: bool,
                        message: Option<string>, hooks: seq<HookOutcome>)
    ensures var r := WriteAccess(repoKnown, opType, allowUnauthorized, authorized, message, hooks);
      (r.granted <==>
         repoKnown && (allowUnauthorized || authorized) && !(message.Some? && EmptyString(message.value)) &&
         (SomeGrant(hooks) || HookErrors(hooks) == [])) &&
      (r.granted ==> r.errors.None?) &&
      (!r.granted ==> r.errors.Some? && |r.errors.value| > 0) &&
      ((repoKnown && (allowUnauthorized || authorized) && !(message.Some? && EmptyString(message.value)) &&
        !SomeGrant(hooks) && !r.granted) ==> r.errors == Some(HookErrors(hooks)))
  {
    HooksVerdictSpec([], hooks);
    assert [] + HookErrors(hooks) == HookErrors(hooks);
  }

  /** `hasWriteAccess`: the checks in order, then the hooks one by one. */
  method HasWriteAccess(repoKnown: bool, opType: int, allowUnauthorized: bool, authorized: bool,
                        message: Option<string>, hooks: seq<HookOutcome>) returns (r: Access)
    ensures r == WriteAccess(repoKnown, opType, allowUnauthorized, authorized, message, hooks)
  {
    if !repoKnown {
      return Access(false, Some([NoRepository(opType)]));
    }
    if !allowUnauthorized && !authorized {
      return Access(false, Some([NoCommitAccess]));
    }
    if message.Some? && EmptyString(message.value) {
      return Access(false, Some([EmptyMessage]));
    }
    var errors: seq<AccessError> := [];
    var k := 0;
    while k < |hooks|
      invariant 0 <= k <= |hooks|
      invariant HooksVerdict(errors, hooks[k..]) == HooksVerdict([], hooks)
    {
      assert hooks[k..][1..] == hooks[k + 1..];
      if hooks[k].Grant? {
        return Access(true, None);
      }
      errors := errors + HookMessages(hooks[k].messages);
      k := k + 1;
    }
    if |errors| > 0 {
      return Access(false, Some(errors));
    }
    return Access(true, None);
  }

  // ---------------------------------------------------------------------
  // getStatistics

  /** `total_operations`, `first_operation_date` and `last_operation_date`. */
  datatype Stats = Stats(total: nat, first: int, last: int)

  datatype StatsResult = Ungrouped(stats: Stats) | Grouped(groups: map<string, Stats>)

  /** The `versioncontrol_operations` columns a result can be grouped by. */
  datatype Column = OpIdColumn | TypeColumn | RepoColumn | DateColumn | UidColumn
                  | AuthorColumn | CommitterColumn | MessageColumn | RevisionColumn

  /** A column's value as PHP reads it from a result row: text. */
  function ColumnText(id: nat, row: OpRow, c: Column): string {
    match c
    case OpIdColumn => NatToString(id)
    case TypeColumn => IntToString(row.opType)
    case RepoColumn => NatToString(row.repoId)
    case DateColumn => IntToString(row.date)
    case UidColumn => NatToString(row.uid)
    case AuthorColumn => row.author
    case CommitterColumn => row.committer
    case MessageColumn => row.message
    case RevisionColumn => row.revision
  }

  function ColumnTexts(id: nat, row: OpRow, cols: seq<Column>): (r: seq<string>)
    ensures |r| == |cols|
    ensures forall i :: 0 <= i < |cols| ==> r[i] == ColumnText(id, row, cols[i])
  {
    if |cols| == 0 then [] else [ColumnText(id, row, cols[0])] + ColumnTexts(id, row, cols[1..])
  }

  /** `$group_values[$column] = $row->$column` for each column in turn: keyed by column, first position kept. */
  function GroupValues(acc: Arr<Column, string>, id: nat, row: OpRow, cols: seq<Column>): Arr<Column, string>
    decreases |cols|
  {
    if |cols| == 0 then acc
    else GroupValues(Assign(acc, cols[0], ColumnText(id, row, cols[0])), id, row, cols[1..])
  }

  /** The values of an array, in order. */
  function Values(a: Arr<Column, string>): (r: seq<string>)
    ensures |r| == |a|
    ensures forall i :: 0 <= i < |a| ==> r[i] == a[i].1
  {
    if |a| == 0 then [] else [a[0].1] + Values(a[1..])
  }

  /** The key of a group: its column values joined with a tab. */
  function GroupKey(id: nat, row: OpRow, cols: seq<Column>): string {
    Implode("\t", Values(GroupValues([], id, row, cols)))
  }

  /**
   * The columns the key loop visits as written. The by-reference loop over
   * `group_by` leaves `$column` bound to the last group-by entry, and only
   * a non-empty `order_by` rebinds it; otherwise the by-value loop writes
   * each column it visits into that last entry, so it visits the
   * next-to-last column twice and the last one never.
   */
  function VisitedColumnsAsWritten(groupBy: seq<Column>, orderBy: bool): (r: seq<Column>)
    ensures |r| == |groupBy|
  {
    if orderBy || |groupBy| < 2 then groupBy
    else groupBy[..|groupBy| - 1] + [groupBy[|groupBy| - 2]]
  }

  /** The group key as written. */
  function GroupKeyAsWritten(id: nat, row: OpRow, groupBy: seq<Column>, orderBy: bool): string {
    Implode("\t", Values(GroupValues([], id, row, VisitedColumnsAsWritten(groupBy, orderBy))))
  }

  lemma {:induction false} GroupValuesAppend(acc: Arr<Column, string>, id: nat, row: OpRow, cols: seq<Column>, c: Column)
    ensures GroupValues(acc, id, row, cols + [c]) == Assign(GroupValues(acc, id, row, cols), c, ColumnText(id, row, c))
    decreases |cols|
  {
    if |cols| > 0 {
      assert (cols + [c])[1..] == cols[1..] + [c];
      GroupValuesAppend(Assign(acc, cols[0], ColumnText(id, row, cols[0])), id, row, cols[1..], c);
    }
  }

  /** A visited column holds its own value. */
  lemma {:induction false} GroupValuesHas(acc: Arr<Column, string>, id: nat, row: OpRow, cols: seq<Column>, c: Column)
    requires c in cols || Lookup(acc, c) == Some(ColumnText(id, row, c))
    ensures Lookup(GroupValues(acc, id, row, cols), c) == Some(ColumnText(id, row, c))
    decreases |cols|
  {
    if |cols| > 0 {
      var acc' := Assign(acc, cols[0], ColumnText(id, row, cols[0]));
      LookupAssign(acc, cols[0], ColumnText(id, row, cols[0]), c);
      if c != cols[0] && c in cols {
        assert c in cols[1..];
      }
      GroupValuesHas(acc', id, row, cols[1..], c);
    }
  }

  /** Assigning a key the value it already holds changes nothing. */
  lemma {:induction false} AssignSame<K, V>(a: Arr<K, V>, k: K, v: V)
    requires Lookup(a, k) == Some(v)
    ensures Assign(a, k, v) == a
  {
    if a[0].0 != k {
      AssignSame(a[1..], k, v);
      assert a == [a[0]] + a[1..];
    } else {
      assert a == [(k, v)] + a[1..];
    }
  }

  /**
   * Without `order_by`, the key as written is the key of all group-by
   * columns but the last: the last column never contributes.
   */
  lemma GroupKeyAsWrittenDropsLast(id: nat, row: OpRow, groupBy: seq<Column>)
    requires |groupBy| >= 2
    ensures GroupKeyAsWritten(id, row, groupBy, false) == GroupKey(id, row, groupBy[..|groupBy| - 1])
  {
    var init := groupBy[..|groupBy| - 1];
    var c := groupBy[|groupBy| - 2];
    GroupValuesAppend([], id, row, init, c);
    assert c in init by {
      assert init[|init| - 1] == c;
    }
    GroupValuesHas([], id, row, init, c);
    AssignSame(GroupValues([], id, row, init), c, ColumnText(id, row, c));
  }

  /** With `order_by` given, or fewer than two group-by columns, the key as written is the intended one. */
  lemma GroupKeyAsWrittenAgrees(id: nat, row: OpRow, groupBy: seq<Column>, orderBy: bool)
    requires orderBy || |groupBy| < 2
    ensures GroupKeyAsWritten(id, row, groupBy, orderBy) == GroupKey(id, row, groupBy)
  {
  }

  /**
   * Grouping by (uid, repo_id) without `order_by`: the groups (1, 1) and
   * (1, 2) get one key as written, and the intended keys "1\t1" and "1\t2".
   */
  lemma GroupKeyAsWrittenCollides(a: OpRow, b: OpRow)
    requires a.uid == 1 && a.repoId == 1 && b.uid == 1 && b.repoId == 2
    ensures GroupKeyAsWritten(1, a, [UidColumn, RepoColumn], false) == GroupKeyAsWritten(2, b, [UidColumn, RepoColumn], false)
    ensures GroupKey(1, a, [UidColumn, RepoColumn]) == "1\t1"
    ensures GroupKey(2, b, [UidColumn, RepoColumn]) == "1\t2"
  {
    GroupKeyAsWrittenDropsLast(1, a, [UidColumn, RepoColumn]);
    GroupKeyAsWrittenDropsLast(2, b, [UidColumn, RepoColumn]);
    assert [UidColumn, RepoColumn][..1] == [UidColumn];
    GroupKeyJoinsAllColumns(1, a, [UidColumn, RepoColumn]);
    GroupKeyJoinsAllColumns(2, b, [UidColumn, RepoColumn]);
    GroupKeyJoinsAllColumns(1, a, [UidColumn]);
    GroupKeyJoinsAllColumns(2, b, [UidColumn]);
    assert ColumnTexts(1, a, [UidColumn, RepoColumn]) == ["1", "1"];
    assert ColumnTexts(2, b, [UidColumn, RepoColumn]) == ["1", "2"];
    assert ColumnTexts(1, a, [UidColumn]) == ColumnTexts(2, b, [UidColumn]);
  }

  /** No column is listed twice. */
  predicate DistinctColumns(cols: seq<Column>) {
    forall i, j :: 0 <= i < j < |cols| ==> cols[i] != cols[j]
  }

  /** Each column paired with its value, in order. */
  function Pairs(id: nat, row: OpRow, cols: seq<Column>): (r: Arr<Column, string>)
    ensures |r| == |cols|
    ensures forall i :: 0 <= i < |cols| ==> r[i].0 == cols[i]
  {
    if |cols| == 0 then [] else [(cols[0], ColumnText(id, row, cols[0]))] + Pairs(id, row, cols[1..])
  }

  lemma {:induction false} ValuesOfPairs(id: nat, row: OpRow, cols: seq<Column>)
    ensures Values(Pairs(id, row, cols)) == ColumnTexts(id, row, cols)
    decreases |cols|
  {
    if |cols| > 0 {
      ValuesOfPairs(id, row, cols[1..]);
    }
  }

  /** Moving the first column into the array keeps the columns distinct and new. */
  lemma ColumnsTail(acc: Arr<Column, string>, p: (Column, string), cols: seq<Column>)
    requires |cols| > 0 && p.0 == cols[0] && DistinctColumns(cols)
    requires forall i, j :: 0 <= i < |acc| && 0 <= j < |cols| ==> acc[i].0 != cols[j]
    ensures DistinctColumns(cols[1..])
    ensures forall i, j :: 0 <= i < |acc + [p]| && 0 <= j < |cols[1..]| ==> (acc + [p])[i].0 != cols[1..][j]
  {
    var t := cols[1..];
    var acc' := acc + [p];
    forall i, j | 0 <= i < |acc'| && 0 <= j < |t| ensures acc'[i].0 != t[j] {
      assert t[j] == cols[j + 1];
      if i < |acc| {
        assert acc'[i] == acc[i];
      }
    }
    forall i, j | 0 <= i < j < |t| ensures t[i] != t[j] {
      assert t[i] == cols[i + 1] && t[j] == cols[j + 1];
    }
  }

  /** For distinct columns the values are appended pair by pair, in group-by order. */
  lemma {:induction false} GroupValuesNew(acc: Arr<Column, string>, id: nat, row: OpRow, cols: seq<Column>)
    requires DistinctColumns(cols)
    requires forall i, j :: 0 <= i < |acc| && 0 <= j < |cols| ==> acc[i].0 != cols[j]
    ensures GroupValues(acc, id, row, cols) == acc + Pairs(id, row, cols)
    decreases |cols|
  {
    if |cols| > 0 {
      var p := (cols[0], ColumnText(id, row, cols[0]));
      GroupValuesFirstNew(acc, id, row, cols);
      ColumnsTail(acc, p, cols);
      GroupValuesNew(acc + [p], id, row, cols[1..]);
      PairsCons(acc, id, row, cols);
    }
  }

  /** A first column not yet in the array is appended to it. */
  lemma {:induction false} GroupValuesFirstNew(acc: Arr<Column, string>, id: nat, row: OpRow, cols: seq<Column>)
    requires |cols| > 0
    requires forall i :: 0 <= i < |acc| ==> acc[i].0 != cols[0]
    ensures GroupValues(acc, id, row, cols) == GroupValues(acc + [(cols[0], ColumnText(id, row, cols[0]))], id, row, cols[1..])
  {
    AssignNew(acc, cols[0], ColumnText(id, row, cols[0]));
  }

  lemma {:induction false} PairsCons(acc: Arr<Column, string>, id: nat, row: OpRow, cols: seq<Column>)
    requires |cols| > 0
    ensures acc + [(cols[0], ColumnText(id, row, cols[0]))] + Pairs(id, row, cols[1..]) == acc + Pairs(id, row, cols)
  {
    var p := (cols[0], ColumnText(id, row, cols[0]));
    var rest := Pairs(id, row, cols[1..]);
    assert Pairs(id, row, cols) == [p] + rest;
    AppendAssoc(acc, [p], rest);
  }

  /** The intended key: every group-by column's value, in order, joined with a tab. */
  lemma GroupKeyJoinsAllColumns(id: nat, row: OpRow, groupBy: seq<Column>)
    requires DistinctColumns(groupBy)
    ensures GroupKey(id, row, groupBy) == Implode("\t", ColumnTexts(id, row, groupBy))
  {
    GroupValuesNew([], id, row, groupBy);
    assert [] + Pairs(id, row, groupBy) == Pairs(id, row, groupBy);
    ValuesOfPairs(id, row, groupBy);
  }

  /**
   * `s` is the statistics row of the operations `ids`: their number, and
   * their least and greatest date, or 0 and 0 when there are none.
   */
  ghost predicate Describes(s: Stats, ops: map<nat, OpRow>, ids: set<nat>)
    requires ids <= ops.Keys
  {
    s.total == |ids| &&
    (|ids| == 0 ==> s.first == 0 && s.last == 0) &&
    (|ids| > 0 ==>
       (exists i :: i in ids && ops[i].date == s.first) && (forall i :: i in ids ==> s.first <= ops[i].date) &&
       (exists i :: i in ids && ops[i].date == s.last) && (forall i :: i in ids ==> ops[i].date <= s.last))
  }

  /** One more row for COUNT, MIN and MAX. */
  function AddRow(s: Stats, date: int): Stats {
    if s.total == 0 then Stats(1, date, date)
    else Stats(s.total + 1, if date < s.first then date else s.first, if date > s.last then date else s.last)
  }

  lemma AddRowDescribes(s: Stats, ops: map<nat, OpRow>, ids: set<nat>, id: nat)
    requires ids <= ops.Keys && id in ops && id !in ids && Describes(s, ops, ids)
    ensures Describes(AddRow(s, ops[id].date), ops, ids + {id})
  {
    var r := AddRow(s, ops[id].date);
    var ids' := ids + {id};
    if |ids| == 0 {
      assert ids' == {id};
    } else {
      if ops[id].date < s.first {
        assert id in ids' && ops[id].date == r.first;
      } else {
        var i :| i in ids && ops[i].date == s.first;
        assert i in ids' && ops[i].date == r.first;
      }
      if ops[id].date > s.last {
        assert id in ids' && ops[id].date == r.last;
      } else {
        var i :| i in ids && ops[i].date == s.last;
        assert i in ids' && ops[i].date == r.last;
      }
    }
  }

  /** The key a row is counted under: its group key, or "" without grouping. */
  function BucketOf(id: nat, row: OpRow, groupBy: seq<Column>): string {
    if |groupBy| == 0 then "" else GroupKey(id, row, groupBy)
  }

  /** The operations of `ids` that fall in bucket `k`. */
  function InBucket(ops: map<nat, OpRow>, ids: set<nat>, groupBy: seq<Column>, k: string): set<nat>
    requires ids <= ops.Keys
  {
    set id | id in ids && BucketOf(id, ops[id], groupBy) == k
  }

  /** The rows of a query, counted per bucket. */
  ghost predicate Counted(acc: map<string, Stats>, ops: map<nat, OpRow>, ids: set<nat>, groupBy: seq<Column>)
    requires ids <= ops.Keys
  {
    acc.Keys == (set id | id in ids :: BucketOf(id, ops[id], groupBy)) &&
    forall k :: k in acc ==> Describes(acc[k], ops, InBucket(ops, ids, groupBy, k))
  }

  /** The buckets after counting one more row. */
  lemma BucketsStep(keys: set<string>, ops: map<nat, OpRow>, ids: set<nat>, groupBy: seq<Column>, id: nat)
    requires ids <= ops.Keys && id in ops
    requires keys == (set j | j in ids :: BucketOf(j, ops[j], groupBy))
    ensures keys + {BucketOf(id, ops[id], groupBy)} == (set j | j in ids + {id} :: BucketOf(j, ops[j], groupBy))
  {
  }

  lemma InBucketStep(ops: map<nat, OpRow>, ids: set<nat>, groupBy: seq<Column>, id: nat, k: string)
    requires ids <= ops.Keys && id in ops
    ensures InBucket(ops, ids + {id}, groupBy, k) ==
      if BucketOf(id, ops[id], groupBy) == k then InBucket(ops, ids, groupBy, k) + {id} else InBucket(ops, ids, groupBy, k)
  {
  }

  lemma EmptyBucket(acc: map<string, Stats>, ops: map<nat, OpRow>, ids: set<nat>, groupBy: seq<Column>, k: string)
    requires ids <= ops.Keys && acc.Keys == (set j | j in ids :: BucketOf(j, ops[j], groupBy)) && k !in acc
    ensures InBucket(ops, ids, groupBy, k) == {}
  {
    forall j | j in ids ensures BucketOf(j, ops[j], groupBy) != k {
      assert BucketOf(j, ops[j], groupBy) in acc.Keys;
    }
  }

  /** One bucket after counting row `id`: the bucket it falls into gains it, the others stay. */
  lemma BucketStep(acc: map<string, Stats>, ops: map<nat, OpRow>, ids: set<nat>, groupBy: seq<Column>, id: nat, k': string)
    requires ids <= ops.Keys && id in ops && id !in ids && Counted(acc, ops, ids, groupBy)
    requires k' in acc || k' == BucketOf(id, ops[id], groupBy)
    ensures var k := BucketOf(id, ops[id], groupBy);
      var acc' := acc[k := AddRow(if k in acc then acc[k] else Stats(0, 0, 0), ops[id].date)];
      Describes(acc'[k'], ops, InBucket(ops, ids + {id}, groupBy, k'))
  {
    var k := BucketOf(id, ops[id], groupBy);
    InBucketStep(ops, ids, groupBy, id, k');
    if k' == k {
      if k !in acc {
        EmptyBucket(acc, ops, ids, groupBy, k);
      }
      AddRowDescribes(if k in acc then acc[k] else Stats(0, 0, 0), ops, InBucket(ops, ids, groupBy, k), id);
    }
  }

  lemma CountedStep(acc: map<string, Stats>, ops: map<nat, OpRow>, ids: set<nat>, groupBy: seq<Column>, id: nat)
    requires ids <= ops.Keys && id in ops && id !in ids && Counted(acc, ops, ids, groupBy)
    ensures var k := BucketOf(id, ops[id], groupBy);
      Counted(acc[k := AddRow(if k in acc then acc[k] else Stats(0, 0, 0), ops[id].date)], ops, ids + {id}, groupBy)
  {
    var k := BucketOf(id, ops[id], groupBy);
    var acc' := acc[k := AddRow(if k in acc then acc[k] else Stats(0, 0, 0), ops[id].date)];
    BucketsStep(acc.Keys, ops, ids, groupBy, id);
    forall k' | k' in acc' ensures Describes(acc'[k'], ops, InBucket(ops, ids + {id}, groupBy, k')) {
      BucketStep(acc, ops, ids, groupBy, id, k');
    }
  }

  /** The per-bucket COUNT, MIN and MAX over the operations the query selects. */
  method CountBuckets(ops: map<nat, OpRow>, q: Query, matches: Matcher, groupBy: seq<Column>)
    returns (acc: map<string, Stats>)
    ensures Counted(acc, ops, MatchingIds(ops, q, matches), groupBy)
  {
    ghost var all := MatchingIds(ops, q, matches);
    acc := map[];
    var ids := ops.Keys;
    ghost var seen: set<nat> := {};
    while ids != {}
      invariant ids <= ops.Keys && seen <= ops.Keys
      invariant seen == all - ids
      invariant Counted(acc, ops, seen, groupBy)
      decreases |ids|
    {
      var id :| id in ids;
      if Selects(q, matches, id, ops[id]) {
        CountedStep(acc, ops, seen, groupBy, id);
        var k := BucketOf(id, ops[id], groupBy);
        acc := acc[k := AddRow(if k in acc then acc[k] else Stats(0, 0, 0), ops[id].date)];
        seen := seen + {id};
      }
      ids := ids - {id};
    }
    assert seen == all;
  }

  /**
   * `getStatistics` as written, for a query that was constructed: a query
   * without clauses fetches no row, so `$statistics` stays `array()`, the
   * value that a grouped query without groups returns, even when nothing
   * is grouped.
   */
  ghost predicate StatisticsAsWritten(ops: map<nat, OpRow>, q: Query, matches: Matcher, groupBy: seq<Column>,
                                      r: StatsResult) {
    if NoClauses(q) then r == Grouped(map[])
    else if |groupBy| == 0 then r.Ungrouped? && Describes(r.stats, ops, MatchingIds(ops, q, matches))
    else r.Grouped? && Counted(r.groups, ops, MatchingIds(ops, q, matches), groupBy)
  }

  /**
   * As written, calling `getOperations` or `getStatistics` without
   * constraints finds nothing: one commit on record is neither listed nor
   * counted, and the ungrouped statistics are no statistics object at all.
   */
  lemma NoConstraintsAsWrittenFindNothing(matches: Matcher, r: StatsResult)
    requires StatisticsAsWritten(map[1 := OpRow(OPERATION_COMMIT, 1, 100, 0, "a", "a", "m", "r1")],
                                 Query([], []), matches, [], r)
    ensures MatchingIdsAsWritten(map[1 := OpRow(OPERATION_COMMIT, 1, 100, 0, "a", "a", "m", "r1")],
                                 Query([], []), matches) == {}
    ensures MatchingIds(map[1 := OpRow(OPERATION_COMMIT, 1, 100, 0, "a", "a", "m", "r1")],
                        Query([], []), matches) == {1}
    ensures !r.Ungrouped?
  {
  }

  /**
   * `getStatistics`. A failed query construction gives zeros, or no groups
   * when grouping; otherwise the selected operations are counted, with
   * their first and last date, as one row or per group under the
   * corrected `GroupKey`, and without constraints the WHERE clause is
   * left out (`StatisticsAsWritten` is the code as written).
   */
  method GetStatistics(st: Store, registry: Arr<string, ConstraintInfo>, cs: ConstraintSet, matches: Matcher,
                       groupBy: seq<Column>) returns (r: StatsResult)
    ensures Construct(registry, cs).None? ==>
      r == if |groupBy| == 0 then Ungrouped(Stats(0, 0, 0)) else Grouped(map[])
    ensures Construct(registry, cs).Some? && |groupBy| == 0 ==>
      r.Ungrouped? && Describes(r.stats, st.operations, MatchingIds(st.operations, Construct(registry, cs).value, matches))
    ensures Construct(registry, cs).Some? && |groupBy| > 0 ==>
      r.Grouped? && Counted(r.groups, st.operations, MatchingIds(st.operations, Construct(registry, cs).value, matches), groupBy)
  {
    var q := ConstructQuery(registry, cs);
    if q.None? {
      return if |groupBy| == 0 then Ungrouped(Stats(0, 0, 0)) else Grouped(map[]);
    }
    var acc := CountBuckets(st.operations, q.value, matches, groupBy);
    if |groupBy| == 0 {
      ghost var all := MatchingIds(st.operations, q.value, matches);
      assert InBucket(st.operations, all, groupBy, "") == all;
      if "" in acc {
        r := Ungrouped(acc[""]);
      } else {
        r := Ungrouped(Stats(0, 0, 0));
        EmptyBucket(acc, st.operations, all, groupBy, "");
      }
    } else {
      r := Grouped(acc);
    }
  }
}
