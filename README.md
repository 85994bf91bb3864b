# versioncontrol catalog: a Dafny model

This project models the core of the Drupal module "Version Control API". The core is a relational catalog of version-control metadata and the rules that read and update it. The catalog holds:

- item revisions and the source-item edges between them;
- labels (branches and tags);
- operations (commits, branch and tag operations);
- the links from operations to labels and to items;
- VCS accounts;
- repositories.

All tables live in one `Schema.Store` object. Keyed tables are `map`s from id to row, and the link tables are `set`s of rows. Fresh ids come from the store's serial counter, which plays the role of the database's auto-increment. Each write method of the PHP classes is a Dafny method. It `modifies` the store and states the new state as an update of `st.Snapshot()`: every table not named in the update is unchanged. Each read is a method or a function over the store. Wherever the PHP code calls a backend, a hook or a module callback, the model takes a parameter: a list of hook outcomes, a set of backend capabilities, or an oracle function.

Module layout, leaves first:

- `php.dfy` (`Php`): the PHP semantics the core relies on.
  - `empty()` on strings and ids.
  - Ordered arrays with `ksort` and `+`.
  - `dirname`, `strpos`, `implode` and the decimal rendering of integers.
- `schema.dfy` (`Schema`): the constants, the row types, the `Store` class and its validity invariant.
  - Validity: ids lie below the serial counter, there is at most one label per (repository, name, type), at most one item revision per (repository, path, revision), at most one edge per (target, source), and at most one link per (operation, item).
- `labels.dfy` (`Labels`): labels, covering `VersioncontrolLabel` and the `VersioncontrolBranch` and `VersioncontrolTag` subclasses.
- `items.dfy` (`Items`): item revisions and their source edges, covering `VersioncontrolItem`.
- `history.dfy` (`History`): `getItemHistory`.
- `constraints.dfy` (`Constraints`): `_constraintInfo`, `_constructQuery`, and the type restriction behind `getCommits`, `getTags` and `getBranches`.
- `operations.dfy` (`Operations`): the `VersioncontrolOperation` object and its writes.
- `operation_queries.dfy` (`OperationQueries`): `getOperations`, `hasWriteAccess` and `getStatistics`.
- `accounts.dfy` (`Accounts`): `VersioncontrolAccount`.
- `repositories.dfy` (`Repositories`): `VersioncontrolRepository`.

Where the documentation and the code disagree, the model follows the code in these cases:

- `isUsernameValid` accepts one trailing newline after an alphanumeric name, because PCRE's `$` matches before a final `"\n"`.
- Source edges always record zero line changes, because includes/VersioncontrolItem.php:899 reads an undefined `$item`.
- `getItemHistory` keeps the first successor among equal priorities, because its comparison is strict.
- `getParentItem` without a parent path builds a new `/` directory item for the root item, because `dirname('/')` is `'/'` (includes/VersioncontrolItem.php:551-552). Its documentation at includes/VersioncontrolItem.php:543-545 says the topmost item is returned as is.

Where the code has an evident defect, the model keeps an as-written member that exhibits the defect. The rest of the model then uses the corrected behaviour. Each case is a row under "## Findings":

- the branch and tag constructors' argument forwarding;
- the undefined `$item` in `sanitize`, so the model trims the sources;
- the tag label id dropped by `getOperations`;
- the undefined filter variable in `getAccounts`;
- the dangling foreach reference in the group keys of `getStatistics`;
- the `ORDER BY uid` in `getLabels`;
- the `WHERE ()` that `_constructQuery` yields when no constraint is given, in `getOperations` and `getStatistics`.

`Item.Sanitize`, `Operation.Insert`, `getLabels` and `getOperations` therefore build their labels and sources with the corrected definitions. `getOperations` and `getStatistics` leave the WHERE clause out when it has no clause.

## Model

Some functions are plain definitions with no contract of their own. The contracts that use them state what they mean:
- `Labels.MakeLabel`, the label constructor (includes/VersioncontrolLabel.php:72-78), in `BranchAndTagKeepFields`, `OpLabel` and `LabelsOfSpec`;
- `Items.ParentRevision` (includes/VersioncontrolItem.php:567-570) in `Item.GetParentItem`;
- `Items.MatchSubject` (includes/VersioncontrolItem.php:507-513), the trailing-slash rule of `pregItemMatch`;
- `History.StepBound` (includes/VersioncontrolItem.php:299-304) in `GetItemHistory`, `ChainStopsAtEnd` and `SourceChainStopsAtEnd`;
- `Constraints.WithDefaults` (includes/VersioncontrolOperation.php:836-842) in `RegisterLookup`;
- `Repositories.RowLabel` (includes/VersioncontrolRepository.php:197-205) in `Repository.GetLabels`;
- `Repositories.Repository.FormatRevisionIdentifier` (includes/VersioncontrolRepository.php:483-485), the default formatting, which returns the revision unchanged.

| member | source | states |
|---|---|---|
| Labels.LabelCodesAreOperationCodes | includes/VersioncontrolLabel.php:10-11 | The branch and tag label codes equal the branch and tag operation codes, and they differ from each other. |
| Labels.EnsureLabelCases | includes/VersioncontrolLabel.php:103-119 | Four cases. A non-empty `label_id` leaves everything as it is. An existing row with the key (repository, name, type) is adopted without a write. With no id, a missing key inserts exactly one row under a fresh id. An id of 0 with a missing key writes nothing. |
| Labels.EnsureLabelValid | includes/VersioncontrolLabel.php:103-138 | `ensure` keeps the label table valid and keyed uniquely. It never changes an existing row. An unset id ends up naming a row that carries the label's key. |
| Labels.EnsureLabelIdempotent | includes/VersioncontrolLabel.php:103-119 | A second `ensure` leaves the table, the serial and `label_id` exactly as the first left them. |
| Labels.EnsureLabelSeparatesTypes | includes/VersioncontrolLabel.php:107-118 | A branch and a tag with the same repository and name get two distinct rows and ids. |
| Labels.BranchAsWrittenLosesFields | includes/VersioncontrolBranch.php:13-16 | As written, the branch and tag constructors lose the name and the id they were given (see Findings). |
| Labels.BranchAndTagKeepFields | includes/VersioncontrolTag.php:14-17 | The corrected branch and tag constructors keep name and id, and a branch differs from a tag of the same name. |
| Labels.FindLabel | includes/VersioncontrolLabel.php:107-116 | The lookup by (repository, name, type) finds a row exactly when one exists, and the row it returns carries that key. |
| Labels.Label.constructor | includes/VersioncontrolLabel.php:72-78 | The fields take the given values. |
| Labels.Label.Insert | includes/VersioncontrolLabel.php:126-138 | `_insert` writes one row under a fresh id, or overwrites the row of a set id. The store stays valid, and nothing else changes. |
| Labels.Label.Ensure | includes/VersioncontrolLabel.php:103-119 | State and id end up exactly as `EnsureLabel` gives them. Only the label table and the serial change. |
| Items.ItemKinds | includes/VersioncontrolItem.php:128-161 | Every item type is either a file or a directory. The type is a file exactly when its code is odd, and deleted exactly when its code is at least 3. |
| Items.SanitizedType | includes/VersioncontrolItem.php:869-878 | A DELETED action turns the type into its deleted variant and keeps it a file or a directory. Any other action leaves the type alone. |
| Items.SanitizedSources | includes/VersioncontrolItem.php:839-865 | ADDED leaves no sources. MODIFIED, MOVED, COPIED and DELETED keep at most the first source. The result is always a prefix of the input. |
| Items.SanitizeAsWrittenKeepsExtraSources | includes/VersioncontrolItem.php:856-859 | As written, MODIFIED with two sources keeps both. The corrected version keeps only the first (see Findings). |
| Items.SanitizeIdempotent | includes/VersioncontrolItem.php:839-880 | Sanitizing twice equals sanitizing once. With no action set, sanitizing changes nothing. |
| Items.EnsureItemCases | includes/VersioncontrolItem.php:916-951 | Three cases. A row with the same key and type is reused without a write. A row with the same key and another type is retyped in place and keeps its id. With no row and no preset id, one row is inserted under a fresh id. With no row and a preset `item_revision_id`, the write goes to that id (the keyed write of `WriteRow`), and only the id and the serial are stated. |
| Items.EnsureItemValid | includes/VersioncontrolItem.php:916-951 | `ensure` keeps (repository, path, revision) unique. Afterwards `item_revision_id` is set. Rows with other keys are untouched, except the row of a preset `item_revision_id`, which the insert overwrites. |
| Items.EnsureItemIdempotent | includes/VersioncontrolItem.php:916-951 | A second `ensure` changes nothing. |
| Items.ReplaceEdgeSpec | includes/VersioncontrolItem.php:890-907 | Exactly one edge remains for the (target, source) pair, and it carries the given action. All other edges are untouched, and edge uniqueness is preserved. |
| Items.ParentPath | includes/VersioncontrolItem.php:551-563 | No parent path gives the dirname of the path. A parent path equal to the path gives the item itself. A different parent path that is `/`, or that occurs with a trailing slash inside the path plus a slash, gives the directory at that parent path. There is no parent exactly when the given path is neither `/` nor occurs that way. |
| Items.DirectParentIsAncestor | includes/VersioncontrolItem.php:558-559 | The dirname of an absolute path is accepted as its parent path. |
| Items.WriteRow | includes/VersioncontrolItem.php:939-951 | The keyed write overwrites the row of a set id or inserts under a fresh id. The store stays valid. |
| Items.EnsureRow | includes/VersioncontrolItem.php:916-933 | The table and the id end up exactly as `EnsureItem` gives them, and the id is set. |
| Items.RecordSource | includes/VersioncontrolItem.php:895-907 | The delete-then-insert of an edge equals `ReplaceEdge`. Only the edge table changes. |
| Items.FindItem | includes/VersioncontrolItem.php:406-410 | The lookup by (repository, path, revision) succeeds exactly when a row has that key. |
| Items.Item.constructor | includes/VersioncontrolItem.php:112-120 | The fields take the given values. There are no sources, no replaced item and no label recipe. |
| Items.Item.Sanitize | includes/VersioncontrolItem.php:839-880 | The type and the sources become their sanitized values. Path, revision, action and the id never change. |
| Items.Item.FetchItemRevisionId | includes/VersioncontrolItem.php:402-416 | A set id returns true without a lookup. Otherwise the result is true, and the id is set, exactly when a row with the key exists. The table is only read. |
| Items.Item.Insert | includes/VersioncontrolItem.php:939-951 | The row and the id follow `WriteItem`. Only the item table and the serial change. |
| Items.Item.Ensure | includes/VersioncontrolItem.php:916-933 | The row and the id follow `EnsureItem`, and the id is set afterwards. |
| Items.Item.InsertSourceRevision | includes/VersioncontrolItem.php:890-907 | The edge from this item to the source (id 0 for the missing source of an ADDED item) is replaced by one carrying the action. Only the edge table changes. |
| Items.Item.GetSelectedLabel | includes/VersioncontrolItem.php:447-493 | Once a label or "none" is stored, it is returned without consulting the recipe. A missing recipe stores "none". A recipe is resolved at most once and then cleared. A backend that finds nothing stores FALSE. A resolved label keeps the resolver's type, name, action and repository. It is ensured with the resolver's `label_id`: the label table, serial and the stored label's id become exactly `EnsureLabel` of the resolved (repository, name, type) and that id, so a set id is kept without a write. Only the label table and the serial ever change. |
| Items.Item.GetParentItem | includes/VersioncontrolItem.php:551-580 | The result is the item itself, nothing, or a fresh DIRECTORY item at the computed path. That item has no action, the capability-dependent revision, and a same-revision label recipe. |
| History.Priority | includes/VersioncontrolItem.php:314-323 | Priorities lie in 0..10, and exactly MOVED and MODIFIED get the top value 10. |
| History.FirstMaxIndex | includes/VersioncontrolItem.php:336-344 | The chosen successor has the maximal priority, and no earlier successor has that priority, so the first one wins ties. |
| History.ChooseSuccessor | includes/VersioncontrolItem.php:336-344 | The loop over successors picks the first successor of maximal priority. |
| History.PreferredSource | includes/VersioncontrolItem.php:371-379 | A merged item follows the source at its own path when there is one, and otherwise the first source. |
| History.MergeKeepsPath | includes/VersioncontrolItem.php:372-375 | When the sources are keyed by path and one has the item's path, a merge stays on that path. |
| History.ChainStopsAtEnd | includes/VersioncontrolItem.php:325-352 | The successor walk takes at most its step bound. It stops early only at an item with no successors, and each step follows the chosen successor. |
| History.SourceChainStopsAtEnd | includes/VersioncontrolItem.php:360-387 | The source walk takes at most its step bound. It stops early only at an item with no sources, and each step follows the preferred source. |
| History.WalkSuccessors | includes/VersioncontrolItem.php:325-352 | The successor loop, with its early exit at an item without successors, stores exactly the chain `SuccessorChain` defines for the step bound, each item under its revision. |
| History.WalkSources | includes/VersioncontrolItem.php:360-387 | The source loop stores exactly the chain `SourceChain` defines for the step bound, each item under its revision. |
| History.AssignAllKeys | includes/VersioncontrolItem.php:345 | Storing each walked item under its revision keeps the keys distinct. The key set is the old keys plus the walked revisions. |
| History.LayoutLookup | includes/VersioncontrolItem.php:354-389 | A revision found among the successors maps to that successor, else the seed's revision maps to the seed, else a source's revision maps to that source. The seed is always present, and the keys are distinct. |
| History.LayoutPositions | includes/VersioncontrolItem.php:353-389 | When no revision repeats, the history holds the successors newest first (the last one found at index 0), then the seed, then the sources in the order found, one entry each. |
| History.GetItemHistory | includes/VersioncontrolItem.php:287-390 | The result is null exactly when the revision is empty or the id cannot be resolved. Otherwise the two loops compute `ItemHistory`. |
| History.LoneItemHistory | includes/VersioncontrolItem.php:287-390 | An item with neither successors nor sources has itself as its whole history. |
| Constraints.RegisterLookup | includes/VersioncontrolOperation.php:835-843 | After one module's declarations, a declared key maps to its defaulted info and every other key keeps its previous info. |
| Constraints.RegistryLookup | includes/VersioncontrolOperation.php:829-847 | The registry entry for a key is the declaration of the last module that declares it. |
| Constraints.ConstraintInfoOf | includes/VersioncontrolOperation.php:829-847 | The registration loop builds exactly `Registry`. |
| Constraints.Normalize | includes/VersioncontrolOperation.php:762-781 | SINGLE values pass as they are. SINGLE_OR_MULTIPLE scalars are wrapped into a list. An empty value under a list cardinality is refused, and an accepted list is never empty. |
| Constraints.ConstructQuery | includes/VersioncontrolOperation.php:752-817 | The loop over constraints computes `Construct`. |
| Constraints.ConstructSucceeds | includes/VersioncontrolOperation.php:762-781 | Construction succeeds exactly when every key is known and every value survives normalisation. |
| Constraints.ConstructCalls | includes/VersioncontrolOperation.php:784-797 | On success there is one callback call per constraint, in order, and SINGLE values are unwrapped before the call. |
| Constraints.ConstructJoins | includes/VersioncontrolOperation.php:784-790 | Each join callback runs at most once, and the joins are exactly the initial ones plus those of the given keys. |
| Constraints.UnknownKeyEmpties | includes/VersioncontrolOperation.php:768-770 | One unknown constraint key makes the whole query empty. |
| Constraints.RestrictTypesSpec | includes/VersioncontrolOperation.php:405-447 | The result is empty exactly when a `types` constraint is present and no entry of it equals the fixed type under PHP's loose `==`. Otherwise `types` becomes that single type and every other constraint is kept. |
| Constraints.RestrictTypesLoose | includes/VersioncontrolOperation.php:406 | A `types` list that names the type as text, such as `array('1')` for commits, keeps the type. |
| Php.StringToIntOfInt | includes/VersioncontrolOperation.php:406 | Reading the decimal text of an integer back as a number, as the loose comparison of `in_array` does, gives that integer. |
| Constraints.RestrictTypesTwice | includes/VersioncontrolOperation.php:405-447 | Restricting twice to the same type is restricting once, and restricting to two different types yields nothing. |
| Operations.ReplaceLinkSpec | includes/VersioncontrolOperation.php:925-934 | Exactly one (operation, item) link remains, with the given type. Other links are untouched, and link uniqueness is preserved. |
| Operations.DeleteOpSpec | includes/VersioncontrolOperation.php:729-734 | The operation row, its label links and its item links are gone. Other operations and links, the item revisions, the edges and the labels are unchanged, and validity is preserved. |
| Operations.SanitizeValue | includes/VersioncontrolOperation.php:609 | Sanitizing an operation item keeps path, revision, action and the replaced item, and keeps a prefix of its sources. |
| Operations.EnsureRevValid | includes/VersioncontrolOperation.php:610 | Ensuring an item value changes only the item table and the serial, keeps the store valid, and gives the value an id. |
| Operations.SourceStepFacts | includes/VersioncontrolOperation.php:619-643 | One source step keeps the store valid and touches no other operation. It caches the source as an affected item only for MOVED, COPIED or MERGED at a different path. |
| Operations.SourcesFromFacts | includes/VersioncontrolOperation.php:619-644 | Over all sources, every new cached link names one of the item's sources under the caching rule, and every source ends up with an id. |
| Operations.ItemStepFacts | includes/VersioncontrolOperation.php:608-662 | One item is sanitized, ensured and linked. Its sources are cached by the rule above, ADDED gets a source-0 edge, and a replaced item gets a REPLACED edge. |
| Operations.ItemsFromFacts | includes/VersioncontrolOperation.php:608-663 | Over all items, the store stays valid, no other operation is touched, and every item gets an id. |
| Operations.InsertOrder | includes/VersioncontrolOperation.php:606 | Items are processed in path order, each exactly once. |
| Operations.EnsureRevIn | includes/VersioncontrolOperation.php:610 | The store and the item value end up as `EnsureRev` gives them. |
| Operations.LinkItem | includes/VersioncontrolOperation.php:925-934 | Only the item-link table changes, and it ends up as `ReplaceLink`. |
| Operations.InsertSource | includes/VersioncontrolOperation.php:620-643 | One source is written as `SourceStep` gives it. |
| Operations.InsertSources | includes/VersioncontrolOperation.php:619-644 | The loop over sources computes `SourcesFrom`. |
| Operations.InsertItem | includes/VersioncontrolOperation.php:609-662 | One item is written as `ItemStep` gives it. |
| Operations.InsertItems | includes/VersioncontrolOperation.php:608-663 | The loop over items computes `ItemsFrom`. |
| Operations.Operation.constructor | includes/VersioncontrolOperation.php:152-161 | The fields take the given values, the author defaults to the committer, there are no labels, and the uid is 0. |
| Operations.Operation.Fill | includes/VersioncontrolOperation.php:881-883 | A dated operation with no message gets the empty message. Nothing else changes. |
| Operations.Operation.InsertOperationItem | includes/VersioncontrolOperation.php:925-934 | Only the item links change, leaving exactly one link for (operation, item) with the given type. |
| Operations.Operation.SetLabels | includes/VersioncontrolOperation.php:906-917 | Afterwards this operation's label links are exactly the given labels, with their ensured ids and actions. Existing label rows are kept, and the other tables are untouched. |
| Operations.EnsureAllLinked | includes/VersioncontrolOperation.php:910-915 | Every given label is ensured and linked with its action. Nothing else is linked. |
| Operations.EnsureLinked | includes/VersioncontrolOperation.php:911-914 | One label is ensured and one link row is added for it. |
| Operations.Operation.WriteOperation | includes/VersioncontrolOperation.php:593-601 | The operation row is written under a fresh `vc_op_id`, and its labels are set. |
| Operations.Operation.Insert | includes/VersioncontrolOperation.php:586-663 | With no repository the method fails and writes nothing. Otherwise the row and labels are recorded, and the items then follow `ItemsFrom` in path order. The message default of `_fill` applies. |
| Operations.Operation.GetItems | includes/VersioncontrolOperation.php:504-535 | The result holds exactly this operation's MEMBER_ITEM links, keyed by path, sorted by path, and distinct. Each entry carries its row, the operation label recipe, and the commit link for commits. Source items are fetched by default exactly for commits. |
| Operations.Operation.Delete | includes/VersioncontrolOperation.php:707-735 | The store after the delete is `DeleteOp` of the store before. |
| OperationQueries.OrderKeyNewer | includes/VersioncontrolOperation.php:328 | The sort key orders by date descending, then by `vc_op_id` descending. |
| OperationQueries.OpLabelAsWrittenDropsTagId | includes/VersioncontrolOperation.php:380-384 | As written, a tag read back with an operation loses its label id (see Findings). |
| OperationQueries.OpLabel | includes/VersioncontrolOperation.php:367-392 | The corrected label built for an operation carries the row's type and name, the link's action and id, and the repository. |
| OperationQueries.LabelsOfSpec | includes/VersioncontrolOperation.php:367-392 | A label belongs to an operation exactly when a link row with its id and action exists, and the label row of that id is a branch or tag with its name and type. |
| OperationQueries.CollectMatches | includes/VersioncontrolOperation.php:338-357 | Every collected row is in the table, matches the query and has a repository row. Every such operation is collected, once. |
| OperationQueries.NewestFirst | includes/VersioncontrolOperation.php:328 | The sorted list has exactly the same rows, in strictly newer-first order. |
| OperationQueries.NoConstraintsSelectAll | includes/VersioncontrolOperation.php:812-814 | With no constraints the query is built with no clause, and the corrected query, which leaves the WHERE out, selects every operation. |
| OperationQueries.NoConstraintsAsWrittenFindNothing | includes/VersioncontrolOperation.php:326-327 | As written, a query with no constraints ends in `WHERE ()`, which fails: `getOperations` fetches nothing and `getStatistics` returns `array()` even ungrouped, while the corrected query selects the one stored commit (see Findings). |
| OperationQueries.GetOperations | includes/VersioncontrolOperation.php:307-394 | The result is empty when the query cannot be built. Otherwise it holds exactly the matching operations whose repository has a row, because the INNER JOIN with `versioncontrol_repositories` drops the others, newest first. Without constraints every operation with a repository row matches (the corrected WHERE, see Findings). Each operation's labels are exactly its linked branches and tags. |
| OperationQueries.HookMessages | includes/VersioncontrolOperation.php:1073-1075 | Each hook message becomes one error, in order. |
| OperationQueries.HooksVerdictSpec | includes/VersioncontrolOperation.php:1062-1083 | A hook returning TRUE grants access at once, with no errors recorded. Otherwise the concatenated messages decide: none means granted, some means denied with exactly those messages. |
| OperationQueries.WriteAccessSpec | includes/VersioncontrolOperation.php:1014-1084 | Access is granted exactly when all of these hold: the repository is known; unauthorized access is allowed or the account is authorized; the message is not set-but-empty; and the hooks grant or raise no message. A grant records no errors, a denial records at least one, and a denial by the hooks alone records exactly their messages. |
| OperationQueries.HasWriteAccess | includes/VersioncontrolOperation.php:1014-1084 | The checks and the hook loop with its early return compute `WriteAccess`. |
| OperationQueries.GroupKeyJoinsAllColumns | includes/VersioncontrolOperation.php:1214-1217 | For distinct group-by columns, the corrected group key is every column's value, in group-by order, joined with a tab. |
| OperationQueries.GroupKeyAsWrittenDropsLast | includes/VersioncontrolOperation.php:1147-1156 | Without `order_by`, the group key as written is the key of all group-by columns but the last, because `$column` still refers to the last group-by entry. |
| OperationQueries.GroupKeyAsWrittenAgrees | includes/VersioncontrolOperation.php:1158-1167 | With `order_by` given, or with fewer than two group-by columns, the key as written equals the corrected key. |
| OperationQueries.GroupKeyAsWrittenCollides | includes/VersioncontrolOperation.php:1214-1217 | Grouping by (uid, repo_id) without `order_by`, the groups (1, 1) and (1, 2) get the same key as written, while the corrected keys are "1\t1" and "1\t2". |
| OperationQueries.AddRowDescribes | includes/VersioncontrolOperation.php:1193-1194 | Adding one row to a count/min/max record describes the enlarged set. |
| OperationQueries.CountedStep | includes/VersioncontrolOperation.php:1204-1221 | Adding one row to its group keeps every group's count/min/max exact. |
| OperationQueries.CountBuckets | includes/VersioncontrolOperation.php:1204-1221 | Every group key has at least one matching row, and each key's record is the count, min date and max date of its matching rows. |
| OperationQueries.GetStatistics | includes/VersioncontrolOperation.php:1135-1223 | A failed query gives all zeros when ungrouped, or an empty map when grouped. Otherwise: the count/min/max of the matching rows, with both dates 0 when there are none; or, grouped, one exact record per key, where the key is the corrected `GroupKey` of the group-by columns. Without constraints every operation matches (the corrected WHERE, see Findings). |
| Accounts.QueryRows | includes/VersioncontrolAccount.php:84-152 | A row is selected exactly when the WHERE clause is valid and the row passes every given filter: OR within a list, AND across lists. |
| Accounts.UsernamesByRepositoryAsWritten | includes/VersioncontrolAccount.php:129 | As written, the usernames-by-repository filter matches nothing, while the corrected one finds the account (see Findings). |
| Accounts.UsernamesByRepositorySelects | includes/VersioncontrolAccount.php:123-143 | With only this filter, an account is selected exactly when its repository is listed with its username. |
| Accounts.GroupedStep | includes/VersioncontrolAccount.php:169-180 | Adding one authorized (or included) account keeps the uid → repository → account grouping sound and complete. |
| Accounts.GetAccounts | includes/VersioncontrolAccount.php:80-182 | A present but empty list gives nothing. Every result entry is a stored row that passes the filters and is authorized unless unauthorized accounts are included. When the query is valid, every such row is returned. No uid maps to an empty group. |
| Accounts.AllAlnum | includes/VersioncontrolAccount.php:214 | True exactly when every character is an ASCII letter or digit. |
| Accounts.IsUsernameValid | includes/VersioncontrolAccount.php:213-218 | Valid exactly when the name is a non-empty run of ASCII letters and digits, optionally followed by one newline. |
| Accounts.StripRemoved | includes/VersioncontrolAccount.php:197-199 | The result is no longer than the input, contains none of `' '`, `'@'`, `'.'`, `'-'`, `'_'`, and uses only characters of the input. |
| Accounts.StripRemovedSpec | includes/VersioncontrolAccount.php:197-199 | A removed character vanishes and any other stays. Stripping a concatenation strips each part in place. Every kept character occurs as often as in the input. Together these make the result the input's other characters, in order. |
| Accounts.StripRemovedKeeps | includes/VersioncontrolAccount.php:197-199 | A string without those characters is left unchanged. |
| Accounts.SuggestionClean | includes/VersioncontrolAccount.php:197-199 | The default suggestion has no removed characters and no upper-case letters. |
| Accounts.SuggestionIdempotent | includes/VersioncontrolAccount.php:197-199 | Suggesting from a suggestion changes nothing. |
| Accounts.SuggestionValid | includes/VersioncontrolAccount.php:197-218 | A name made of letters, digits and removed characters, with at least one letter or digit, gives a valid username. |
| Accounts.ResetUid | includes/VersioncontrolAccount.php:252-255 | Operations of this repository with this uid get uid 0. Every other operation is unchanged. |
| Accounts.Claim | includes/VersioncontrolAccount.php:256-259 | Operations of this repository whose committer (or author) is the name get this uid. Every other operation is unchanged. |
| Accounts.RenameAttribution | includes/VersioncontrolAccount.php:251-260 | After a rename, an operation of this repository carries the account's uid exactly when its committer is the new name. Other repositories are unchanged. |
| Accounts.Account.constructor | includes/VersioncontrolAccount.php:43-47 | The fields take the given values. |
| Accounts.Account.Update | includes/VersioncontrolAccount.php:235-272 | An unchanged username writes nothing. A changed one renames the account row and re-stamps this repository's operations by committer. |
| Accounts.Account.Insert | includes/VersioncontrolAccount.php:288-314 | The (uid, repository, username) row is added, and this repository's operations whose author is the username get the uid. Nothing else changes. |
| Accounts.Account.Delete | includes/VersioncontrolAccount.php:326-350 | This repository's operations with this uid get uid 0, and only this (uid, repository) account row is removed. |
| Accounts.AttributionKeepsValid | includes/VersioncontrolAccount.php:241-259 | Re-stamping operation uids and changing accounts keeps the store valid. |
| Repositories.LikeLiteral | includes/VersioncontrolRepository.php:169 | A LIKE pattern without wildcards matches exactly the equal name. |
| Repositories.LikeAny | includes/VersioncontrolRepository.php:169 | The pattern `%` matches every name. |
| Repositories.LikePrefix | includes/VersioncontrolRepository.php:169 | A literal followed by `%` matches exactly the names that start with the literal. |
| Repositories.IsAccountAuthorizedSpec | includes/VersioncontrolRepository.php:219-235 | Authorized exactly when the uid is not 0 and no hook returns FALSE, which includes the case of no hooks. |
| Repositories.DeleteRepoRemovesAll | includes/VersioncontrolRepository.php:318-379 | After the cascade, nothing of the repository remains: no operations, labels, item revisions or accounts, no edge touching one of its items, no link of one of its operations, and no repository row. |
| Repositories.DeleteRepoKeepsOthers | includes/VersioncontrolRepository.php:318-379 | Rows of other repositories are unchanged, and validity is preserved. |
| Repositories.DropOpsFacts | includes/VersioncontrolRepository.php:320-323 | Deleting a set of operations removes exactly their rows and links and nothing else. |
| Repositories.DropItemsFacts | includes/VersioncontrolRepository.php:331-350 | Deleting the repository's item revisions removes them and every edge touching them, and nothing else. |
| Repositories.DeleteOneOperation | includes/VersioncontrolRepository.php:322 | One operation's delete equals dropping that one operation. |
| Repositories.DeleteOperationsOf | includes/VersioncontrolRepository.php:320-323 | The loop deletes exactly the repository's operations. |
| Repositories.DeleteItemsOf | includes/VersioncontrolRepository.php:331-350 | The item part of the cascade equals `DropItems`, including the case of no items. |
| Repositories.DeleteAccountsOf | includes/VersioncontrolRepository.php:355-362 | Deleting each account of the repository leaves exactly the accounts of other repositories. |
| Repositories.Repository.constructor | includes/VersioncontrolRepository.php:86-95 | The fields take the given values. |
| Repositories.Repository.GetLabels | includes/VersioncontrolRepository.php:145-208 | A present but empty id or name list gives nothing. Every returned label is a row of this repository that passes the id, name-pattern and type filters, and every such branch or tag is returned once. The returned ids are exactly `SelectedLabelIds`. This is the corrected query (see Findings). |
| Repositories.GetLabelsAsWrittenFindsNothing | includes/VersioncontrolRepository.php:191-193 | As written, ordering by the missing `uid` column makes the query fail, so nothing is ever returned, even for a branch the filters select. |
| Repositories.Repository.Insert | includes/VersioncontrolRepository.php:281-303 | Any preset id is dropped. The row is written under a fresh id, which becomes the repository's id. |
| Repositories.Repository.Update | includes/VersioncontrolRepository.php:250-266 | The row keyed by this repository's id takes its current name and backend. Nothing else changes. |
| Repositories.Repository.Delete | includes/VersioncontrolRepository.php:318-379 | The store after the delete is `DeleteRepo` of the store before. |

## Left out

- Backend and hook calls are oracle parameters, not code:
  - `versioncontrol_fetch_source_items` and `versioncontrol_fetch_successor_items` are functions from an item to its edges;
  - the `_get_selected_label_from_*` resolvers are an optional resolved label;
  - the write-access and authorization hooks are lists of outcomes;
  - the backend capabilities are a set;
  - the constraint callbacks are a match predicate over rows.

  `getParallelItems`, `getDirectoryContents`, `exportFile`, `exportDirectory`, `getFileAnnotation`, `getItem` and `exportAccounts` are backend calls and are not modelled.
- Notifications are side events, not state: `module_invoke_all`, `drupal_alter`, `rules_invoke_event`, `watchdog` and `_badItemWarning`. The label hook's "empty previous labels" swap (includes/VersioncontrolOperation.php:678-683) restores the labels before returning, so it leaves no trace in the state.
- SQL text, `%` escaping, the `_versioncontrol_query` pager and options such as `order_by` and `order_ascending` of `getStatistics` are not modelled. Queries are stated over the tables: results are sets or lists without paging, and rows duplicated by a join are not modelled.
- Regular expressions are out: `pregItemMatch` is modelled only by its trailing-slash rule (`MatchSubject`). `drupal_strtolower` is ASCII only, and LIKE is case-sensitive with no escape character.
- `fetchCommitOperations` depends entirely on a lookup function that is not part of this model.
- `_fill` is modelled only by its message default. Its uid block (includes/VersioncontrolOperation.php:869-875) discards its result. `_versioncontrol_fill_operation` in `hasWriteAccess` is not part of this model, so `HasWriteAccess` takes the filled facts as inputs.
- HasWriteAccess: takes "the account is authorized" as a boolean input. The repository decides it (`IsAccountAuthorized`).
- HasWriteAccess: returns the errors that `_accessErrors` would store, instead of writing a static variable. The error texts are constructors, not translated strings.
- `updateLabels` is `_setLabels` plus a hook, so it is covered by `SetLabels`.
- The static constraint-info cache is not modelled: `ConstraintInfoOf` rebuilds the registry on every call.
- Operations.Operation.SetLabels: requires the given label objects to be distinct. Passing the same object twice would alias two loop steps.
- Operations.Operation.Insert: works on item values and returns them with their ids, instead of updating the caller's item objects in place. The selected-label recipes it attaches are not modelled.
- Operations.Operation.GetItems: returns whether source items should be fetched, instead of calling the backend to fetch them.
- History.GetItemHistory: an unlimited walk (no limit given) is bounded by a `fuel` parameter, because the edge graph supplied by the backend may be cyclic.
- OperationQueries.GetOperations: returns each operation's labels as a set, so their order and any repeated link rows are not modelled.
- OperationQueries.GetStatistics: returns groups as a map, so the group order is not modelled. If two groups render to the same key, the model merges them, where the source keeps the last one. Group-by columns are limited to the operation table's own columns.
- OperationQueries.GetStatistics: uses the corrected `GroupKey`, which takes every group-by column. The key as written drops the last column when `order_by` is empty (`GroupKeyAsWritten`, see Findings). The statistics are not restated over that key.
- OperationQueries.Selects: treats a query as clause-free exactly when no constraint was given. A constraint whose callback adds no clause is not modelled as clause-free.
- Items.Item.GetSelectedLabel: stores a new label object with the resolver's fields, instead of the resolver's own object, so aliasing with the resolver's object is not modelled.
- Repositories.Repository.FormatRevisionIdentifier: only the default, which returns the revision unchanged. Backend overrides are not modelled.
- Repositories.Repository.GetLabels: returns the rows of the corrected query in no specified order. As written the query fails (see Findings), and the order meant in place of `ORDER BY uid` is unknown.
- Constraints.RestrictTypesSpec: the loose comparison of `in_array` reads a string by its leading decimal integer, following PHP 5 and 7. Fractional, exponent and hexadecimal strings, booleans and PHP 8's stricter string comparison are not modelled.
- Accounts.GetAccounts: the result order (ORDER BY uid) is not modelled. An account whose repository is unknown is kept, where the source fails on a missing repository object.
- Accounts.Account.Update: compares usernames by string equality, not by PHP's loose `!=`.
- Accounts.Account.Insert: leaves an existing (uid, repository) row as it is, because the key is unique and the source's INSERT would fail on it.
- `ksort` on numeric-string keys is modelled as a plain character-code order.
- `build`, `unserialize`, `VersioncontrolRepositoryUrlHandler`, `titleCallback`, the ArrayAccess methods and `VersioncontrolBackend` are plumbing with no catalog behaviour.

## Findings

| source | as written | input that shows it | evidently intended | confidence | as-written member | corrected member |
|---|---|---|---|---|---|---|
| includes/VersioncontrolBranch.php:14 | `parent::__construct($name, $id=NULL, $repository=NULL)` puts the name in the type slot, sets the action and id to NULL, and drops the repository | `new VersioncontrolBranch("master", 7, repo)` gives a label with no name and no id | forward name, action, id and repository to the label constructor | not executed | Labels.BranchAsWritten, Labels.BranchAsWrittenLosesFields | Labels.MakeLabel, Labels.BranchAndTagKeepFields |
| includes/VersioncontrolTag.php:15 | the same argument forwarding as the branch constructor | `new VersioncontrolTag("v1", 8, repo)` gives a label with no name | forward the arguments | not executed | Labels.TagAsWritten, Labels.BranchAsWrittenLosesFields | Labels.MakeLabel, Labels.BranchAndTagKeepFields |
| includes/VersioncontrolOperation.php:381 | a tag read back with an operation is built without its `label_id` (branches at 386 get it) | a tag row with id 9 linked to operation 4 comes back with no id | tags carry their label id like branches | not executed | OperationQueries.OpLabelAsWritten, OperationQueries.OpLabelAsWrittenDropsTagId | OperationQueries.OpLabel, OperationQueries.LabelsOfSpec |
| includes/VersioncontrolItem.php:858 | trims `$item->source_items` on an undefined `$item`, so `$this->source_items` keeps every source | MODIFIED with sources [1, 2] keeps both | keep only the first source | not executed | Items.SanitizedSourcesAsWritten, Items.SanitizeAsWrittenKeepsExtraSources | Items.SanitizedSources, Items.SanitizeIdempotent |
| includes/VersioncontrolAccount.php:129 | loops over an undefined `$usernames_by_repository`, so the filter becomes an empty `()` and matches nothing | account (uid 5, repository 2, "dww") with filter {2: ["dww"]} is not found | loop over `$constraints['usernames_by_repository']` | not executed | Accounts.QueryRowsAsWritten, Accounts.UsernamesByRepositoryAsWritten | Accounts.QueryRows, Accounts.UsernamesByRepositorySelects |
| includes/VersioncontrolOperation.php:1147 | `foreach ($group_options['group_by'] as &$column)` leaves `$column` referring to the last group-by entry. With no `order_by`, the by-value loop at line 1215 overwrites that entry on every pass, so the key omits the last column | group by (uid, repo_id): the groups (1, 1) and (1, 2) both get key "1", and one overwrites the other | key each group by all of its group-by values (`unset($column)` after the loop) | not executed | OperationQueries.GroupKeyAsWritten, OperationQueries.GroupKeyAsWrittenCollides | OperationQueries.GroupKey, OperationQueries.GroupKeyJoinsAllColumns |
| includes/VersioncontrolRepository.php:193 | `ORDER BY uid` on `versioncontrol_labels`, whose columns are `label_id`, `repo_id`, `name` and `type` (includes/VersioncontrolLabel.php:108), so the query fails and nothing is fetched | branch row 1 "master" of repository 2, with no filters, is not returned | return every selected label | not executed | Repositories.LabelIdsAsWritten, Repositories.GetLabelsAsWrittenFindsNothing | Repositories.SelectedLabelIds, Repositories.Repository.GetLabels |
| includes/VersioncontrolOperation.php:814 | `'where' => '('. implode(' AND ', $and_constraints) .')'` is `()` when no constraint adds a clause, and the `empty(...)` tests at lines 327 and 1196 do not catch it, so the query ends in `WHERE ()` and fails | `getOperations(array())` with one stored commit returns nothing, and `getStatistics(array())` returns `array()` | leave the WHERE out when there is no clause | not executed | OperationQueries.MatchingIdsAsWritten, OperationQueries.NoConstraintsAsWrittenFindNothing | OperationQueries.MatchingIds, OperationQueries.NoConstraintsSelectAll |

`getLabels` (includes/VersioncontrolRepository.php:200-203) and `getOperations` (includes/VersioncontrolOperation.php:380-389) build their labels with the branch and tag constructors. `getLabels` also passes the label id in the repository's position. The model builds these labels with the corrected constructor, as `RowLabel` and `OpLabel`.
