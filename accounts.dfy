/**
 * VCS accounts: the (uid, repository) -> VCS username table, the filtered
 * lookup `getAccounts`, username validation and suggestion, and the
 * re-attribution of operations to Drupal users when an account is
 * inserted, renamed or deleted.
 */
module Accounts {
  import opened Php
  import opened Schema

  // ---------------------------------------------------------------------
  // getAccounts

  /**
   * The constraints of `getAccounts`; None where the key is not set.
   * `usernamesByRepository` maps a repository id to usernames.
   */
  datatype AccountFilter = AccountFilter(uids: Option<seq<nat>>, repoIds: Option<seq<nat>>,
                                         usernames: Option<seq<string>>,
                                         usernamesByRepository: Option<map<nat, seq<string>>>)

  /** An account object as `getAccounts` builds it. */
  datatype AccountValue = AccountValue(username: string, uid: nat, repoId: nat)

  /** Some constraint is present with an empty list, which answers "nothing" at once. */
  predicate EmptyListGiven(f: AccountFilter) {
    (f.uids.Some? && |f.uids.value| == 0) || (f.repoIds.Some? && |f.repoIds.value| == 0) ||
    (f.usernames.Some? && |f.usernames.value| == 0) ||
    (f.usernamesByRepository.Some? && |f.usernamesByRepository.value| == 0)
  }

  /** The WHERE clause: OR within one constraint, AND across constraints. */
  predicate Selects(f: AccountFilter, key: AccountKey, username: string) {
    (f.uids.None? || key.uid in f.uids.value) &&
    (f.repoIds.None? || key.repoId in f.repoIds.value) &&
    (f.usernames.None? || username in f.usernames.value) &&
    (f.usernamesByRepository.None? ||
       (key.repoId in f.usernamesByRepository.value && username in f.usernamesByRepository.value[key.repoId]))
  }

  /**
   * A repository with an empty username list renders as `()`, which is
   * not valid SQL: the query fails and returns no rows.
   */
  predicate WhereInvalid(f: AccountFilter) {
    f.usernamesByRepository.Some? &&
    exists r :: r in f.usernamesByRepository.value && |f.usernamesByRepository.value[r]| == 0
  }

  /** The account rows the query returns. */
  function QueryRows(f: AccountFilter, accounts: map<AccountKey, string>): (r: set<AccountKey>)
    ensures forall k :: k in r <==> !WhereInvalid(f) && k in accounts && Selects(f, k, accounts[k])
  {
    if WhereInvalid(f) then {} else set k | k in accounts && Selects(f, k, accounts[k])
  }

  /**
   * The rows as the code is written: the loop for `usernames_by_repository`
   * iterates an undefined variable, so the constraint always renders as
   * `()` and the query fails.
   */
  function QueryRowsAsWritten(f: AccountFilter, accounts: map<AccountKey, string>): set<AccountKey> {
    if f.usernamesByRepository.Some? then {}
    else set k | k in accounts && Selects(f, k, accounts[k])
  }

  /** User 5 has account "dww" in repository 2, which the as-written query never finds. */
  lemma UsernamesByRepositoryAsWritten()
    ensures var accounts := map[AccountKey(5, 2) := "dww"];
      var f := AccountFilter(None, None, None, Some(map[2 := ["dww"]]));
      QueryRowsAsWritten(f, accounts) == {} && QueryRows(f, accounts) == {AccountKey(5, 2)}
  {
    var accounts := map[AccountKey(5, 2) := "dww"];
    var f := AccountFilter(None, None, None, Some(map[2 := ["dww"]]));
    assert Selects(f, AccountKey(5, 2), "dww");
  }

  /** Without an empty list, `usernames_by_repository` finds exactly the listed names of the listed repositories. */
  lemma UsernamesByRepositorySelects(accounts: map<AccountKey, string>, byRepo: map<nat, seq<string>>, k: AccountKey)
    requires forall r :: r in byRepo ==> |byRepo[r]| > 0
    ensures k in QueryRows(AccountFilter(None, None, None, Some(byRepo)), accounts) <==>
      k in accounts && k.repoId in byRepo && accounts[k] in byRepo[k.repoId]
  {
  }

  /**
   * `r` groups the accounts `seen` that pass the authorization check, as
   * uid -> repository id -> account, with no empty group.
   */
  ghost predicate Grouped(r: map<nat, map<nat, AccountValue>>, accounts: map<AccountKey, string>, seen: set<AccountKey>,
                          includeUnauthorized: bool, authorized: (nat, nat) -> bool)
    requires seen <= accounts.Keys
  {
    (forall u, rid :: u in r && rid in r[u] ==>
       AccountKey(u, rid) in seen && r[u][rid] == AccountValue(accounts[AccountKey(u, rid)], u, rid) &&
       (includeUnauthorized || authorized(rid, u))) &&
    (forall k :: k in seen && (includeUnauthorized || authorized(k.repoId, k.uid)) ==>
       k.uid in r && k.repoId in r[k.uid]) &&
    (forall u :: u in r ==> r[u] != map[])
  }

  /** `$accounts[$uid][$repo_id] = $account`. */
  function AddAccount(r: map<nat, map<nat, AccountValue>>, key: AccountKey, username: string): map<nat, map<nat, AccountValue>> {
    var group := if key.uid in r then r[key.uid] else map[];
    r[key.uid := group[key.repoId := AccountValue(username, key.uid, key.repoId)]]
  }

  lemma GroupedStep(r: map<nat, map<nat, AccountValue>>, accounts: map<AccountKey, string>, seen: set<AccountKey>,
                    includeUnauthorized: bool, authorized: (nat, nat) -> bool, key: AccountKey)
    requires seen <= accounts.Keys && key in accounts && key !in seen
    requires Grouped(r, accounts, seen, includeUnauthorized, authorized)
    ensures var r' := if includeUnauthorized || authorized(key.repoId, key.uid) then AddAccount(r, key, accounts[key]) else r;
      Grouped(r', accounts, seen + {key}, includeUnauthorized, authorized)
  {
    if includeUnauthorized || authorized(key.repoId, key.uid) {
      var r' := AddAccount(r, key, accounts[key]);
      forall u, rid | u in r' && rid in r'[u]
        ensures AccountKey(u, rid) in seen + {key} && r'[u][rid] == AccountValue(accounts[AccountKey(u, rid)], u, rid) &&
                (includeUnauthorized || authorized(rid, u))
      {
        if AccountKey(u, rid) != key {
          assert u in r && rid in r[u] && r'[u][rid] == r[u][rid];
        }
      }
    }
  }

  /**
   * `getAccounts`. `authorized(repoId, uid)` is the repository's
   * `isAccountAuthorized`, consulted unless unauthorized accounts are
   * asked for.
   */
  method GetAccounts(st: Store, f: AccountFilter, includeUnauthorized: bool, authorized: (nat, nat) -> bool)
    returns (r: map<nat, map<nat, AccountValue>>)
    ensures EmptyListGiven(f) ==> r == map[]
    ensures forall u, rid :: u in r && rid in r[u] ==>
      AccountKey(u, rid) in st.accounts && r[u][rid] == AccountValue(st.accounts[AccountKey(u, rid)], u, rid) &&
      !WhereInvalid(f) && Selects(f, AccountKey(u, rid), st.accounts[AccountKey(u, rid)]) &&
      (includeUnauthorized || authorized(rid, u))
    ensures !EmptyListGiven(f) && !WhereInvalid(f) ==>
      forall k :: k in st.accounts && Selects(f, k, st.accounts[k]) && (includeUnauthorized || authorized(k.repoId, k.uid)) ==>
        k.uid in r && k.repoId in r[k.uid]
    ensures forall u :: u in r ==> r[u] != map[]
  {
    if EmptyListGiven(f) {
      return map[];
    }
    var rows := QueryRows(f, st.accounts);
    var keys := rows;
    r := map[];
    ghost var seen: set<AccountKey> := {};
    while keys != {}
      invariant keys <= rows && seen == rows - keys && seen <= st.accounts.Keys
      invariant Grouped(r, st.accounts, seen, includeUnauthorized, authorized)
      decreases |keys|
    {
      var key :| key in keys;
      GroupedStep(r, st.accounts, seen, includeUnauthorized, authorized, key);
      if includeUnauthorized || authorized(key.repoId, key.uid) {
        r := AddAccount(r, key, st.accounts[key]);
      }
      keys := keys - {key};
      seen := seen + {key};
    }
  }

  // ---------------------------------------------------------------------
  // Usernames

  predicate AsciiAlnum(c: char) {
    'a' <= c <= 'z' || 'A' <= c <= 'Z' || '0' <= c <= '9'
  }

  function AllAlnum(s: string): (r: bool)
    ensures r <==> forall i :: 0 <= i < |s| ==> AsciiAlnum(s[i])
  {
    if |s| == 0 then true else AsciiAlnum(s[0]) && AllAlnum(s[1..])
  }

  /**
   * `isUsernameValid`: `/^[a-zA-Z0-9]+$/`. In PCRE `$` also matches
   * before a final newline, so one trailing "\n" is accepted.
   */
  function IsUsernameValid(u: string): (r: bool)
    ensures r <==>
      (|u| > 0 && forall i :: 0 <= i < |u| ==> AsciiAlnum(u[i])) ||
      (|u| > 1 && u[|u| - 1] == '\n' && forall i :: 0 <= i < |u| - 1 ==> AsciiAlnum(u[i]))
  {
    if |u| > 0 && u[|u| - 1] == '\n' then |u| > 1 && AllAlnum(u[..|u| - 1])
    else |u| > 0 && AllAlnum(u)
  }

  /** The characters the default suggestion removes. */
  predicate Removed(c: char) {
    c == ' ' || c == '@' || c == '.' || c == '-' || c == '_'
  }

  /** `strtr` with every key mapped to '': the string without those characters, in order. */
  function StripRemoved(s: string): (r: string)
    ensures |r| <= |s|
    ensures forall i :: 0 <= i < |r| ==> !Removed(r[i])
    ensures forall i :: 0 <= i < |r| ==> r[i] in s
  {
    if |s| == 0 then []
    else if Removed(s[0]) then StripRemoved(s[1..])
    else [s[0]] + StripRemoved(s[1..])
  }

  /**
   * Stripping works character by character: a removed character vanishes,
   * any other stays, and stripping a concatenation strips each part in
   * place. Together these fix the result as the input's other characters,
   * in order, each as often as in the input.
   */
  lemma StripRemovedSpec(a: string, b: string, c: char)
    ensures StripRemoved([c]) == if Removed(c) then [] else [c]
    ensures StripRemoved(a + b) == StripRemoved(a) + StripRemoved(b)
    ensures forall d :: !Removed(d) ==> multiset(StripRemoved(a))[d] == multiset(a)[d]
  {
    assert [c][1..] == [];
    StripRemovedConcat(a, b);
    StripRemovedCounts(a);
  }

  lemma {:induction false} StripRemovedConcat(a: string, b: string)
    ensures StripRemoved(a + b) == StripRemoved(a) + StripRemoved(b)
    decreases |a|
  {
    if |a| > 0 {
      StripRemovedConcat(a[1..], b);
      assert (a + b)[1..] == a[1..] + b;
    } else {
      assert a + b == b;
    }
  }

  lemma {:induction false} StripRemovedCounts(a: string)
    ensures forall d :: !Removed(d) ==> multiset(StripRemoved(a))[d] == multiset(a)[d]
    decreases |a|
  {
    if |a| > 0 {
      StripRemovedCounts(a[1..]);
      assert a == [a[0]] + a[1..];
      assert multiset(a) == multiset([a[0]]) + multiset(a[1..]);
      if !Removed(a[0]) {
        assert multiset(StripRemoved(a)) == multiset([a[0]]) + multiset(StripRemoved(a[1..]));
      }
    }
  }

  /** A string without those characters is left as it is. */
  lemma {:induction false} StripRemovedKeeps(s: string)
    requires forall i :: 0 <= i < |s| ==> !Removed(s[i])
    ensures StripRemoved(s) == s
  {
    if |s| > 0 {
      StripRemovedKeeps(s[1..]);
    }
  }

  /**
   * `usernameSuggestion`: the backend's own suggestion when it has one,
   * else the lowercased name without ' ', '@', '.', '-' and '_'.
   */
  function UsernameSuggestion(name: string, backendSuggestion: Option<string>): string {
    if backendSuggestion.Some? then backendSuggestion.value else StripRemoved(Lower(name))
  }

  /** The default suggestion holds none of the removed characters and no capital letter. */
  lemma SuggestionClean(name: string)
    ensures var s := UsernameSuggestion(name, None);
      forall i :: 0 <= i < |s| ==> !Removed(s[i]) && !('A' <= s[i] <= 'Z')
  {
    var l := Lower(name);
    forall i | 0 <= i < |l| ensures !('A' <= l[i] <= 'Z') {
    }
  }

  /** Suggesting from a suggestion changes nothing. */
  lemma SuggestionIdempotent(name: string)
    ensures UsernameSuggestion(UsernameSuggestion(name, None), None) == UsernameSuggestion(name, None)
  {
    var s := UsernameSuggestion(name, None);
    SuggestionClean(name);
    assert Lower(s) == s;
    StripRemovedKeeps(s);
  }

  /** Letters, digits and removed characters, with at least one letter or digit, give a valid suggestion. */
  lemma {:induction false} SuggestionValid(name: string)
    requires forall i :: 0 <= i < |name| ==> AsciiAlnum(name[i]) || Removed(name[i])
    requires exists i :: 0 <= i < |name| && AsciiAlnum(name[i])
    ensures IsUsernameValid(UsernameSuggestion(name, None))
  {
    var l := Lower(name);
    var s := StripRemoved(l);
    forall i | 0 <= i < |l| ensures AsciiAlnum(l[i]) || Removed(l[i]) {
      assert l[i] == LowerChar(name[i]);
    }
    var j :| 0 <= j < |name| && AsciiAlnum(name[j]);
    assert AsciiAlnum(l[j]);
    StripKeepsAlnum(l, j);
    forall i | 0 <= i < |s| ensures AsciiAlnum(s[i]) {
      assert s[i] in l;
    }
  }

  /** Stripping keeps at least one character when some character is not removed. */
  lemma {:induction false} StripKeepsAlnum(s: string, j: int)
    requires 0 <= j < |s| && !Removed(s[j])
    ensures |StripRemoved(s)| > 0
  {
    if !Removed(s[0]) {
    } else {
      StripKeepsAlnum(s[1..], j - 1);
    }
  }

  // ---------------------------------------------------------------------
  // Attribution of operations

  /** Which name of an operation an account claims it by. */
  datatype Attribution = ByAuthor | ByCommitter

  function NameBy(op: OpRow, attr: Attribution): string {
    match attr
    case ByAuthor => op.author
    case ByCommitter => op.committer
  }

  /** `UPDATE operations SET uid = 0 WHERE uid = %d AND repo_id = %d`. */
  function ResetUid(ops: map<nat, OpRow>, uid: nat, repoId: nat): (r: map<nat, OpRow>)
    ensures r.Keys == ops.Keys
    ensures forall id :: id in r ==> r[id] == ops[id] || r[id] == ops[id].(uid := 0)
    ensures forall id :: id in r && ops[id].repoId != repoId ==> r[id] == ops[id]
    ensures forall id :: id in r && ops[id].repoId == repoId && ops[id].uid == uid ==> r[id].uid == 0
    ensures forall id :: id in r && ops[id].uid != uid ==> r[id] == ops[id]
  {
    map id | id in ops :: if ops[id].uid == uid && ops[id].repoId == repoId then ops[id].(uid := 0) else ops[id]
  }

  /** `UPDATE operations SET uid = %d WHERE <author or committer> = '%s' AND repo_id = %d`. */
  function Claim(ops: map<nat, OpRow>, uid: nat, repoId: nat, name: string, attr: Attribution): (r: map<nat, OpRow>)
    ensures r.Keys == ops.Keys
    ensures forall id :: id in r ==> r[id] == ops[id] || r[id] == ops[id].(uid := uid)
    ensures forall id :: id in r && ops[id].repoId == repoId && NameBy(ops[id], attr) == name ==> r[id].uid == uid
    ensures forall id :: id in r && (ops[id].repoId != repoId || NameBy(ops[id], attr) != name) ==> r[id] == ops[id]
  {
    map id | id in ops :: if ops[id].repoId == repoId && NameBy(ops[id], attr) == name then ops[id].(uid := uid) else ops[id]
  }

  /**
   * After a rename, the operations of the repository attributed to the
   * account are exactly those committed under the new name; other
   * repositories are untouched.
   */
  lemma RenameAttribution(ops: map<nat, OpRow>, uid: nat, repoId: nat, newName: string)
    requires uid != 0
    ensures var r := Claim(ResetUid(ops, uid, repoId), uid, repoId, newName, ByCommitter);
      r.Keys == ops.Keys &&
      (forall id :: id in r && r[id].repoId == repoId ==> (r[id].uid == uid <==> ops[id].committer == newName)) &&
      (forall id :: id in r && ops[id].repoId != repoId ==> r[id] == ops[id])
  {
    var m := ResetUid(ops, uid, repoId);
    var r := Claim(m, uid, repoId, newName, ByCommitter);
    forall id | id in r && r[id].repoId == repoId ensures r[id].uid == uid <==> ops[id].committer == newName {
      assert m[id].repoId == ops[id].repoId && m[id].committer == ops[id].committer;
    }
  }

  class Account {
    var username: string
    var uid: nat
    /** The id of the account's repository (0 for none, as `%d` renders NULL). */
    var repoId: nat

    constructor (username: string, uid: nat, repoId: nat)
      ensures this.username == username && this.uid == uid && this.repoId == repoId
    {
      this.username := username;
      this.uid := uid;
      this.repoId := repoId;
    }

    function Key(): AccountKey
      reads this
    {
      AccountKey(uid, repoId)
    }

    /**
     * `update`: nothing is written for an unchanged name; otherwise the
     * account row takes the new name, the operations of this user in the
     * repository are detached and those committed under the new name
     * attached.
     */
    method Update(st: Store, newName: string)
      modifies this, st
      ensures username == newName && uid == old(uid) && repoId == old(repoId)
      ensures old(username) == newName ==> st.Snapshot() == old(st.Snapshot())
      ensures old(username) != newName ==>
        st.Snapshot() == old(st.Snapshot()).(
          accounts := if Key() in old(st.accounts) then old(st.accounts)[Key() := newName] else old(st.accounts),
          operations := Claim(ResetUid(old(st.operations), uid, repoId), uid, repoId, newName, ByCommitter))
    {
      var changed := newName != username;
      if changed {
        username := newName;
        if Key() in st.accounts {
          st.accounts := st.accounts[Key() := username];
        }
        st.operations := ResetUid(st.operations, uid, repoId);
        st.operations := Claim(st.operations, uid, repoId, username, ByCommitter);
      }
    }

    /**
     * `insert`: adds the account row (a second row for the same user and
     * repository is refused by the primary key) and attributes the
     * repository's operations whose author is the username.
     */
    method Insert(st: Store)
      modifies st
      ensures st.Snapshot() == old(st.Snapshot()).(
        accounts := if Key() in old(st.accounts) then old(st.accounts) else old(st.accounts)[Key() := username],
        operations := Claim(old(st.operations), uid, repoId, username, ByAuthor))
    {
      if Key() !in st.accounts {
        st.accounts := st.accounts[Key() := username];
      }
      st.operations := Claim(st.operations, uid, repoId, username, ByAuthor);
    }

    /** `delete`: detaches the user's operations in the repository and removes only this account row. */
    method Delete(st: Store)
      modifies st
      ensures st.Snapshot() == old(st.Snapshot()).(
        accounts := old(st.accounts) - {Key()},
        operations := ResetUid(old(st.operations), uid, repoId))
    {
      st.operations := ResetUid(st.operations, uid, repoId);
      st.accounts := st.accounts - {Key()};
    }
  }

  /** Account writes keep every table invariant. */
  lemma AttributionKeepsValid(t: Tables, ops: map<nat, OpRow>, accounts: map<AccountKey, string>)
    requires TablesValid(t) && ops.Keys == t.operations.Keys
    ensures TablesValid(t.(operations := ops, accounts := accounts))
  {
  }
}
