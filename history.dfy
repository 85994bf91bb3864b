/**
 * `getItemHistory`: walk the successor edges and the source edges of an
 * item revision under step limits, and lay the revisions found out newest
 * first, keyed by revision.
 */
module History {
  import opened Php
  import opened Schema

  /** The fields of an item array that the history walk reads. */
  datatype HistItem = HistItem(path: string, revision: string, action: Option<Action>)

  /**
   * The priorities among parallel successor items; an item without an
   * action reads an undefined table entry, which compares as 0.
   */
  function Priority(action: Option<Action>): (p: int)
    ensures 0 <= p <= 10
    ensures action == Some(Moved) || action == Some(Modified) <==> p == 10
  {
    match action
    case None => 0
    case Some(a) =>
      match a
      case Moved => 10
      case Modified => 10
      case Merged => 9
      case Copied => 8
      case Other => 1
      case Deleted => 1
      case Added => 0
      case Replaced => 0
  }

  /** The index of the first item of highest priority. */
  function FirstMaxIndex(s: Arr<string, HistItem>): (i: nat)
    requires |s| > 0
    ensures i < |s|
    ensures forall j :: 0 <= j < |s| ==> Priority(s[j].1.action) <= Priority(s[i].1.action)
    ensures forall j :: 0 <= j < i ==> Priority(s[j].1.action) < Priority(s[i].1.action)
    decreases |s|
  {
    if |s| == 1 then 0
    else
      var k := FirstMaxIndex(s[..|s| - 1]);
      if Priority(s[|s| - 1].1.action) > Priority(s[k].1.action) then |s| - 1 else k
  }

  /** The successor the walk follows among `s`. */
  function Chosen(s: Arr<string, HistItem>): HistItem
    requires |s| > 0
  {
    s[FirstMaxIndex(s)].1
  }

  /** The foreach over the successor items: the first one wins until one of strictly higher priority turns up. */
  method ChooseSuccessor(s: Arr<string, HistItem>) returns (c: HistItem)
    requires |s| > 0
    ensures c == Chosen(s)
  {
    var best := 0;
    var highest := Priority(s[0].1.action);
    var k := 1;
    while k < |s|
      invariant 1 <= k <= |s|
      invariant best == FirstMaxIndex(s[..k]) && highest == Priority(s[best].1.action)
    {
      assert s[..k + 1][..k] == s[..k];
      if Priority(s[k].1.action) > highest {
        best := k;
        highest := Priority(s[k].1.action);
      }
      k := k + 1;
    }
    assert s[..|s|] == s;
    c := s[best].1;
  }

  /** The source the walk follows: for a merge, the source at the item's own path if there is one; else the first. */
  function PreferredSource(item: HistItem, sources: Arr<string, HistItem>): (r: HistItem)
    requires |sources| > 0
    ensures item.action == Some(Merged) && Lookup(sources, item.path).Some? ==>
      r == Lookup(sources, item.path).value
    ensures item.action != Some(Merged) || Lookup(sources, item.path).None? ==> r == sources[0].1
  {
    if item.action == Some(Merged) && Lookup(sources, item.path).Some? then Lookup(sources, item.path).value
    else sources[0].1
  }

  /** A sources array keyed by path whose entry at a path is an item at that path. */
  predicate KeyedByPath(sources: Arr<string, HistItem>) {
    forall i :: 0 <= i < |sources| ==> sources[i].1.path == sources[i].0
  }

  /** The merge preference picks an item at the merged item's path whenever the sources hold one. */
  lemma {:induction false} MergeKeepsPath(item: HistItem, sources: Arr<string, HistItem>)
    requires |sources| > 0 && KeyedByPath(sources) && item.action == Some(Merged)
    requires exists i :: 0 <= i < |sources| && sources[i].0 == item.path
    ensures PreferredSource(item, sources).path == item.path
  {
    LookupFound(sources, item.path);
  }

  /** The successors visited from `cur` in at most `n` steps, in the order found. */
  function SuccessorChain(succ: HistItem -> Arr<string, HistItem>, cur: HistItem, n: nat): (r: seq<HistItem>)
    ensures |r| <= n
    decreases n
  {
    if n == 0 || |succ(cur)| == 0 then []
    else var c := Chosen(succ(cur)); [c] + SuccessorChain(succ, c, n - 1)
  }

  /** The sources visited from `cur` in at most `n` steps, in the order found. */
  function SourceChain(src: HistItem -> Arr<string, HistItem>, cur: HistItem, n: nat): (r: seq<HistItem>)
    ensures |r| <= n
    decreases n
  {
    if n == 0 || |src(cur)| == 0 then []
    else var c := PreferredSource(cur, src(cur)); [c] + SourceChain(src, c, n - 1)
  }

  /** A chain stops before its bound only where the last item reached has no further edge. */
  lemma {:induction false} ChainStopsAtEnd(succ: HistItem -> Arr<string, HistItem>, cur: HistItem, n: nat)
    ensures var r := SuccessorChain(succ, cur, n);
      |r| < n ==> |succ(if |r| == 0 then cur else r[|r| - 1])| == 0
    ensures var r := SuccessorChain(succ, cur, n);
      forall k :: 0 <= k < |r| - 1 ==> |succ(r[k])| > 0 && r[k + 1] == Chosen(succ(r[k]))
    decreases n
  {
    if n > 0 && |succ(cur)| > 0 {
      var c := Chosen(succ(cur));
      ChainStopsAtEnd(succ, c, n - 1);
      var t := SuccessorChain(succ, c, n - 1);
      var r := SuccessorChain(succ, cur, n);
      assert r == [c] + t;
      forall k | 0 <= k < |r| - 1 ensures |succ(r[k])| > 0 && r[k + 1] == Chosen(succ(r[k])) {
        if k > 0 {
          assert r[k] == t[k - 1] && r[k + 1] == t[k];
        }
      }
    }
  }

  /** The same for source chains. */
  lemma {:induction false} SourceChainStopsAtEnd(src: HistItem -> Arr<string, HistItem>, cur: HistItem, n: nat)
    ensures var r := SourceChain(src, cur, n);
      |r| < n ==> |src(if |r| == 0 then cur else r[|r| - 1])| == 0
    ensures var r := SourceChain(src, cur, n);
      forall k :: 0 <= k < |r| - 1 ==> |src(r[k])| > 0 && r[k + 1] == PreferredSource(r[k], src(r[k]))
    decreases n
  {
    if n > 0 && |src(cur)| > 0 {
      var c := PreferredSource(cur, src(cur));
      SourceChainStopsAtEnd(src, c, n - 1);
      var t := SourceChain(src, c, n - 1);
      var r := SourceChain(src, cur, n);
      assert r == [c] + t;
      forall k | 0 <= k < |r| - 1 ensures |src(r[k])| > 0 && r[k + 1] == PreferredSource(r[k], src(r[k])) {
        if k > 0 {
          assert r[k] == t[k - 1] && r[k + 1] == t[k];
        }
      }
    }
  }

  /** `$history[$it['revision']] = $it` for each item of a chain in turn. */
  function AssignAll(acc: Arr<string, HistItem>, chain: seq<HistItem>): Arr<string, HistItem>
    decreases |chain|
  {
    if |chain| == 0 then acc else AssignAll(Assign(acc, chain[0].revision, chain[0]), chain[1..])
  }

  /** Keying a chain by revision keeps keys distinct, holds exactly the chain's revisions and is no longer than the chain. */
  lemma {:induction false} AssignAllKeys(acc: Arr<string, HistItem>, chain: seq<HistItem>, k: string)
    requires DistinctKeys(acc)
    ensures DistinctKeys(AssignAll(acc, chain))
    ensures |AssignAll(acc, chain)| <= |acc| + |chain|
    ensures Lookup(AssignAll(acc, chain), k).Some? <==>
      Lookup(acc, k).Some? || exists i :: 0 <= i < |chain| && chain[i].revision == k
    decreases |chain|
  {
    if |chain| > 0 {
      var a := Assign(acc, chain[0].revision, chain[0]);
      AssignDistinct(acc, chain[0].revision, chain[0]);
      LookupAssign(acc, chain[0].revision, chain[0], k);
      AssignAllKeys(a, chain[1..], k);
      if exists i :: 0 <= i < |chain[1..]| && chain[1..][i].revision == k {
        var i :| 0 <= i < |chain[1..]| && chain[1..][i].revision == k;
        assert chain[i + 1].revision == k;
      }
      if exists i :: 0 <= i < |chain| && chain[i].revision == k {
        var i :| 0 <= i < |chain| && chain[i].revision == k;
        if i > 0 {
          assert chain[1..][i - 1].revision == k;
        }
      }
    }
  }

  /** The walk's limit: unset means unlimited (here: `fuel` steps), a negative one is clamped to 0. */
  function StepBound(limit: Option<int>, fuel: nat): nat {
    if limit.None? then fuel else if limit.value < 0 then 0 else limit.value
  }

  /** The successors newest first, then the item, then the sources; on a revision clash the left side wins. */
  function Layout(item: HistItem, successors: seq<HistItem>, sources: seq<HistItem>): Arr<string, HistItem> {
    Plus(Plus(Reverse(AssignAll([], successors)), [(item.revision, item)]), AssignAll([], sources))
  }

  /** What the history holds under a revision. */
  lemma LayoutLookup(item: HistItem, successors: seq<HistItem>, sources: seq<HistItem>, k: string)
    ensures DistinctKeys(Layout(item, successors, sources))
    ensures var s := AssignAll([], successors); var r := Layout(item, successors, sources);
      Lookup(r, k) ==
        if Lookup(s, k).Some? then Lookup(s, k)
        else if k == item.revision then Some(item)
        else Lookup(AssignAll([], sources), k)
    ensures Lookup(Layout(item, successors, sources), item.revision).Some?
    ensures |Layout(item, successors, sources)| <= |successors| + 1 + |sources|
  {
    var s := AssignAll([], successors);
    var t := AssignAll([], sources);
    AssignAllKeys([], successors, k);
    AssignAllKeys([], sources, k);
    ReverseLookup(s, k);
    ReverseLookup(s, item.revision);
    var left := Plus(Reverse(s), [(item.revision, item)]);
    LookupPlus(Reverse(s), [(item.revision, item)], k);
    LookupPlus(Reverse(s), [(item.revision, item)], item.revision);
    LookupPlus(left, t, k);
    LookupPlus(left, t, item.revision);
    PlusDistinct(Reverse(s), [(item.revision, item)]);
    PlusDistinct(left, t);
    PlusLength(Reverse(s), [(item.revision, item)]);
    PlusLength(left, t);
  }

  /** No two items of `s` share a revision. */
  predicate DistinctRevisions(s: seq<HistItem>) {
    forall i, j :: 0 <= i < j < |s| ==> s[i].revision != s[j].revision
  }

  /** A chain keyed by revision, pair by pair. */
  function Keyed(chain: seq<HistItem>): (r: Arr<string, HistItem>)
    ensures |r| == |chain|
    ensures forall i :: 0 <= i < |chain| ==> r[i] == (chain[i].revision, chain[i])
  {
    if |chain| == 0 then [] else [(chain[0].revision, chain[0])] + Keyed(chain[1..])
  }

  /** Keying a chain of new, distinct revisions appends one pair per item, in order. */
  lemma {:induction false} AssignAllNew(acc: Arr<string, HistItem>, chain: seq<HistItem>)
    requires DistinctRevisions(chain)
    requires forall i, j :: 0 <= i < |acc| && 0 <= j < |chain| ==> acc[i].0 != chain[j].revision
    ensures AssignAll(acc, chain) == acc + Keyed(chain)
    decreases |chain|
  {
    if |chain| > 0 {
      AssignNew(acc, chain[0].revision, chain[0]);
      var acc' := acc + [(chain[0].revision, chain[0])];
      var t := chain[1..];
      forall i, j | 0 <= i < |acc'| && 0 <= j < |t| ensures acc'[i].0 != t[j].revision {
        assert t[j] == chain[j + 1];
        if i < |acc| {
          assert acc'[i] == acc[i];
        } else {
          assert acc'[i].0 == chain[0].revision;
        }
      }
      assert DistinctRevisions(t) by {
        forall i, j | 0 <= i < j < |t| ensures t[i].revision != t[j].revision {
          assert t[i] == chain[i + 1] && t[j] == chain[j + 1];
        }
      }
      AssignAllNew(acc', t);
      calc {
        acc' + Keyed(t);
        acc + ([(chain[0].revision, chain[0])] + Keyed(t));
        acc + Keyed(chain);
      }
    }
  }

  /**
   * When no revision repeats, the history lists the successors newest
   * first (the last one found at index 0), then the item itself, then the
   * sources in the order the walk found them.
   */
  lemma LayoutPositions(item: HistItem, successors: seq<HistItem>, sources: seq<HistItem>)
    requires DistinctRevisions(successors + [item] + sources)
    ensures var r := Layout(item, successors, sources); var n := |successors|;
      |r| == n + 1 + |sources| &&
      (forall i :: 0 <= i < n ==> r[i] == (successors[n - 1 - i].revision, successors[n - 1 - i])) &&
      r[n] == (item.revision, item) &&
      (forall j :: 0 <= j < |sources| ==> r[n + 1 + j] == (sources[j].revision, sources[j]))
  {
    DistinctParts(item, successors, sources);
    KeyedChain(successors);
    KeyedChain(sources);
    NewestFirstWithItem(item, successors);
    var left := Plus(Reverse(Keyed(successors)), [(item.revision, item)]);
    var kt := Keyed(sources);
    LeftRightDisjoint(item, successors, sources, left);
    PlusDisjoint(left, kt);
    ConcatPositions(item, successors, sources, left, kt);
  }

  lemma ConcatPositions(item: HistItem, successors: seq<HistItem>, sources: seq<HistItem>,
                        left: Arr<string, HistItem>, kt: Arr<string, HistItem>)
    requires |left| == |successors| + 1 && left[|successors|] == (item.revision, item)
    requires forall i :: 0 <= i < |successors| ==>
      left[i] == (successors[|successors| - 1 - i].revision, successors[|successors| - 1 - i])
    requires |kt| == |sources| && forall j :: 0 <= j < |sources| ==> kt[j] == (sources[j].revision, sources[j])
    requires Layout(item, successors, sources) == left + kt
    ensures var r := Layout(item, successors, sources); var n := |successors|;
      |r| == n + 1 + |sources| &&
      (forall i :: 0 <= i < n ==> r[i] == (successors[n - 1 - i].revision, successors[n - 1 - i])) &&
      r[n] == (item.revision, item) &&
      (forall j :: 0 <= j < |sources| ==> r[n + 1 + j] == (sources[j].revision, sources[j]))
  {
    var r := left + kt;
    var n := |successors|;
    assert forall i :: 0 <= i < n ==> r[i] == left[i];
    assert forall j :: 0 <= j < |sources| ==> r[n + 1 + j] == kt[j];
  }

  lemma LeftRightDisjoint(item: HistItem, successors: seq<HistItem>, sources: seq<HistItem>, left: Arr<string, HistItem>)
    requires forall j :: 0 <= j < |sources| ==> sources[j].revision != item.revision
    requires forall i, j :: 0 <= i < |successors| && 0 <= j < |sources| ==> successors[i].revision != sources[j].revision
    requires |left| == |successors| + 1 && left[|successors|] == (item.revision, item)
    requires forall i :: 0 <= i < |successors| ==>
      left[i] == (successors[|successors| - 1 - i].revision, successors[|successors| - 1 - i])
    ensures forall i, j :: 0 <= i < |left| && 0 <= j < |Keyed(sources)| ==> left[i].0 != Keyed(sources)[j].0
  {
  }

  /** A walked chain keyed by revision, as each of the two loops builds it. */
  lemma KeyedChain(chain: seq<HistItem>)
    requires DistinctRevisions(chain)
    ensures AssignAll([], chain) == Keyed(chain)
  {
    AssignAllNew([], chain);
    assert [] + Keyed(chain) == Keyed(chain);
  }

  /** The successors newest first followed by the item, as the first `+` builds them. */
  lemma NewestFirstWithItem(item: HistItem, successors: seq<HistItem>)
    requires forall i :: 0 <= i < |successors| ==> successors[i].revision != item.revision
    ensures var left := Plus(Reverse(Keyed(successors)), [(item.revision, item)]);
      |left| == |successors| + 1 && left[|successors|] == (item.revision, item) &&
      forall i :: 0 <= i < |successors| ==>
        left[i] == (successors[|successors| - 1 - i].revision, successors[|successors| - 1 - i])
  {
    var n := |successors|;
    ReversedKeyed(successors);
    var rs := Reverse(Keyed(successors));
    var seed: Arr<string, HistItem> := [(item.revision, item)];
    assert forall i, j :: 0 <= i < |rs| && 0 <= j < |seed| ==> rs[i].0 != seed[j].0;
    PlusDisjoint(rs, seed);
    AppendOne(rs, seed[0]);
  }

  /** The successors keyed by revision and reversed: the last one comes first. */
  lemma {:induction false} ReversedKeyed(successors: seq<HistItem>)
    ensures var rs := Reverse(Keyed(successors)); var n := |successors|;
      |rs| == n && forall i :: 0 <= i < n ==> rs[i] == (successors[n - 1 - i].revision, successors[n - 1 - i])
  {
    var n := |successors|;
    var ks := Keyed(successors);
    forall i | 0 <= i < n ensures Reverse(ks)[i] == (successors[n - 1 - i].revision, successors[n - 1 - i]) {
      ReverseAt(ks, i);
      assert ks[n - 1 - i] == (successors[n - 1 - i].revision, successors[n - 1 - i]);
    }
  }

  lemma AppendOne<T>(a: seq<T>, x: T)
    ensures |a + [x]| == |a| + 1 && (a + [x])[|a|] == x
    ensures forall i :: 0 <= i < |a| ==> (a + [x])[i] == a[i]
  {
  }

  /** The parts of a history without repeated revisions have none either, and share none. */
  lemma DistinctParts(item: HistItem, successors: seq<HistItem>, sources: seq<HistItem>)
    requires DistinctRevisions(successors + [item] + sources)
    ensures DistinctRevisions(successors) && DistinctRevisions(sources)
    ensures forall i :: 0 <= i < |successors| ==> successors[i].revision != item.revision
    ensures forall j :: 0 <= j < |sources| ==> sources[j].revision != item.revision
    ensures forall i, j :: 0 <= i < |successors| && 0 <= j < |sources| ==> successors[i].revision != sources[j].revision
  {
    var all := successors + [item] + sources;
    var n := |successors|;
    assert forall i :: 0 <= i < n ==> all[i] == successors[i];
    assert all[n] == item;
    assert forall j :: 0 <= j < |sources| ==> all[n + 1 + j] == sources[j];
  }

  lemma {:induction false} PlusLength(a: Arr<string, HistItem>, b: Arr<string, HistItem>)
    ensures |Plus(a, b)| <= |a| + |b|
    decreases |b|
  {
    if |b| > 0 {
      if Lookup(a, b[0].0).Some? {
        PlusLength(a, b[1..]);
      } else {
        PlusLength(a + [b[0]], b[1..]);
      }
    }
  }

  /** The whole history as the walk defines it, or NULL. */
  function ItemHistory(item: HistItem, idResolved: bool,
                       succ: HistItem -> Arr<string, HistItem>, src: HistItem -> Arr<string, HistItem>,
                       successorLimit: Option<int>, sourceLimit: Option<int>, fuel: nat): Option<Arr<string, HistItem>>
  {
    if EmptyString(item.revision) || !idResolved then None
    else Some(Layout(item,
                     SuccessorChain(succ, item, StepBound(successorLimit, fuel)),
                     SourceChain(src, item, StepBound(sourceLimit, fuel))))
  }

  /** The successor loop of `getItemHistory`: at most `bound` steps, each keyed by its revision. */
  method WalkSuccessors(succ: HistItem -> Arr<string, HistItem>, item: HistItem, bound: nat)
    returns (successors: Arr<string, HistItem>)
    ensures successors == AssignAll([], SuccessorChain(succ, item, bound))
  {
    successors := [];
    var cur := item;
    var left := bound;
    while left > 0
      invariant AssignAll(successors, SuccessorChain(succ, cur, left)) ==
                AssignAll([], SuccessorChain(succ, item, bound))
      decreases left
    {
      var found := succ(cur);
      if |found| == 0 {
        break;
      }
      var c := ChooseSuccessor(found);
      successors := Assign(successors, c.revision, c);
      cur := c;
      left := left - 1;
    }
    assert SuccessorChain(succ, cur, left) == [];
  }

  /** The source loop of `getItemHistory`: at most `bound` steps, each keyed by its revision. */
  method WalkSources(src: HistItem -> Arr<string, HistItem>, item: HistItem, bound: nat)
    returns (sources: Arr<string, HistItem>)
    ensures sources == AssignAll([], SourceChain(src, item, bound))
  {
    sources := [];
    var cur := item;
    var left := bound;
    while left > 0
      invariant AssignAll(sources, SourceChain(src, cur, left)) ==
                AssignAll([], SourceChain(src, item, bound))
      decreases left
    {
      var found := src(cur);
      if |found| == 0 {
        break;
      }
      var c := PreferredSource(cur, found);
      sources := Assign(sources, c.revision, c);
      cur := c;
      left := left - 1;
    }
    assert SourceChain(src, cur, left) == [];
  }

  /**
   * `getItemHistory`. `succ` and `src` stand for the successor and source
   * queries, `idResolved` for the item-id lookup; an unset limit walks at
   * most `fuel` steps.
   */
  method GetItemHistory(item: HistItem, idResolved: bool,
                        succ: HistItem -> Arr<string, HistItem>, src: HistItem -> Arr<string, HistItem>,
                        successorLimit: Option<int>, sourceLimit: Option<int>, fuel: nat)
    returns (r: Option<Arr<string, HistItem>>)
    ensures r.None? <==> EmptyString(item.revision) || !idResolved
    ensures r == ItemHistory(item, idResolved, succ, src, successorLimit, sourceLimit, fuel)
  {
    if EmptyString(item.revision) || !idResolved {
      return None;
    }
    var successors := WalkSuccessors(succ, item, StepBound(successorLimit, fuel));
    var sources := WalkSources(src, item, StepBound(sourceLimit, fuel));
    return Some(Plus(Plus(Reverse(successors), [(item.revision, item)]), sources));
  }

  /** The history of an item with no edges at all is the item alone. */
  lemma LoneItemHistory(item: HistItem, succ: HistItem -> Arr<string, HistItem>, src: HistItem -> Arr<string, HistItem>,
                        successorLimit: Option<int>, sourceLimit: Option<int>, fuel: nat)
    requires !EmptyString(item.revision)
    requires |succ(item)| == 0 && |src(item)| == 0
    ensures ItemHistory(item, true, succ, src, successorLimit, sourceLimit, fuel) == Some([(item.revision, item)])
  {
    assert SuccessorChain(succ, item, StepBound(successorLimit, fuel)) == [];
    assert SourceChain(src, item, StepBound(sourceLimit, fuel)) == [];
    assert Reverse(AssignAll([], [])) == [];
    var seed: Arr<string, HistItem> := [(item.revision, item)];
    var none: Arr<string, HistItem> := [];
    assert Plus(none, seed) == seed by {
      assert Lookup(none, item.revision).None?;
      assert none + seed == seed;
    }
    assert Layout(item, [], []) == Plus(Plus(none, seed), none);
  }
}
