/**
 * Operation constraints: the registry of constraint descriptions that
 * modules declare, and `_constructQuery`, which normalises each given
 * constraint value against its declared cardinality and collects the join
 * and constraint callbacks to run.
 */
module Constraints {
  import opened Php

  /** A scalar constraint value. */
  datatype Atom = IntAtom(i: int) | StrAtom(s: string)

  /** A constraint value: a scalar or a list of scalars. */
  datatype CValue = Scalar(a: Atom) | List(items: seq<Atom>)

  /** The `$constraints` array, keyed by constraint name. */
  type ConstraintSet = Arr<string, CValue>

  datatype Cardinality = Single | Multiple | SingleOrMultiple

  /** A description as a module declares it; callback and cardinality may be left out. */
  datatype DeclaredInfo = DeclaredInfo(callback: Option<string>, joinCallback: Option<string>,
                                       cardinality: Option<Cardinality>)

  /** A description with its defaults filled in. */
  datatype ConstraintInfo = ConstraintInfo(callback: string, joinCallback: Option<string>, cardinality: Cardinality)

  /** The defaults of `_constraintInfo`: callback `<module>_operation_constraint_<key>`, cardinality MULTIPLE. */
  function WithDefaults(owner: string, key: string, d: DeclaredInfo): ConstraintInfo {
    ConstraintInfo(if d.callback.Some? then d.callback.value else owner + "_operation_constraint_" + key,
                   d.joinCallback,
                   if d.cardinality.Some? then d.cardinality.value else Multiple)
  }

  /** One module's declarations entered into the registry, in order. */
  function Register(acc: Arr<string, ConstraintInfo>, owner: string, decls: Arr<string, DeclaredInfo>): Arr<string, ConstraintInfo>
    decreases |decls|
  {
    if |decls| == 0 then acc
    else Register(Assign(acc, decls[0].0, WithDefaults(owner, decls[0].0, decls[0].1)), owner, decls[1..])
  }

  /** The registry built from every implementing module in turn; a later module overrides an earlier one. */
  function Registry(modules: seq<(string, Arr<string, DeclaredInfo>)>): Arr<string, ConstraintInfo>
    decreases |modules|
  {
    if |modules| == 0 then []
    else var last := modules[|modules| - 1]; Register(Registry(modules[..|modules| - 1]), last.0, last.1)
  }

  /** The declaration that wins for `key`: the one of the last module declaring it, defaults filled in. */
  function Winner(modules: seq<(string, Arr<string, DeclaredInfo>)>, key: string): Option<ConstraintInfo>
    decreases |modules|
  {
    if |modules| == 0 then None
    else
      var last := modules[|modules| - 1];
      if Lookup(last.1, key).Some? then Some(WithDefaults(last.0, key, Lookup(last.1, key).value))
      else Winner(modules[..|modules| - 1], key)
  }

  lemma {:induction false} RegisterLookup(acc: Arr<string, ConstraintInfo>, owner: string,
                                          decls: Arr<string, DeclaredInfo>, key: string)
    requires DistinctKeys(decls)
    ensures Lookup(Register(acc, owner, decls), key) ==
      if Lookup(decls, key).Some? then Some(WithDefaults(owner, key, Lookup(decls, key).value))
      else Lookup(acc, key)
    decreases |decls|
  {
    if |decls| > 0 {
      var a := Assign(acc, decls[0].0, WithDefaults(owner, decls[0].0, decls[0].1));
      assert DistinctKeys(decls[1..]) by {
        forall i, j | 0 <= i < j < |decls[1..]| ensures decls[1..][i].0 != decls[1..][j].0 {
          assert decls[1..][i] == decls[i + 1] && decls[1..][j] == decls[j + 1];
        }
      }
      RegisterLookup(a, owner, decls[1..], key);
      LookupAssign(acc, decls[0].0, WithDefaults(owner, decls[0].0, decls[0].1), key);
      if decls[0].0 == key {
        LookupFound(decls[1..], key);
        assert !HasKey(decls[1..], key) by {
          forall i | 0 <= i < |decls[1..]| ensures decls[1..][i].0 != key {
            assert decls[1..][i] == decls[i + 1];
          }
        }
      }
    }
  }

  /**
   * Each key's description in the registry is the one declared by the last
   * module that declares it, and keys nobody declares are absent.
   */
  lemma {:induction false} RegistryLookup(modules: seq<(string, Arr<string, DeclaredInfo>)>, key: string)
    requires forall i :: 0 <= i < |modules| ==> DistinctKeys(modules[i].1)
    ensures Lookup(Registry(modules), key) == Winner(modules, key)
    decreases |modules|
  {
    if |modules| > 0 {
      var last := modules[|modules| - 1];
      RegistryLookup(modules[..|modules| - 1], key);
      RegisterLookup(Registry(modules[..|modules| - 1]), last.0, last.1, key);
    }
  }

  /** `_constraintInfo`: the nested loops over modules and their declarations. */
  method ConstraintInfoOf(modules: seq<(string, Arr<string, DeclaredInfo>)>) returns (r: Arr<string, ConstraintInfo>)
    ensures r == Registry(modules)
  {
    r := [];
    var m := 0;
    while m < |modules|
      invariant 0 <= m <= |modules|
      invariant r == Registry(modules[..m])
    {
      var decls := modules[m].1;
      var acc := r;
      var k := 0;
      while k < |decls|
        invariant 0 <= k <= |decls|
        invariant Register(r, modules[m].0, decls) == Register(acc, modules[m].0, decls[k..])
      {
        assert decls[k..][1..] == decls[k + 1..];
        acc := Assign(acc, decls[k].0, WithDefaults(modules[m].0, decls[k].0, decls[k].1));
        k := k + 1;
      }
      assert modules[..m + 1][..m] == modules[..m];
      r := acc;
      m := m + 1;
    }
    assert modules[..|modules|] == modules;
  }

  // ---------------------------------------------------------------------
  // _constructQuery

  /** PHP `empty()` on a scalar: 0, "" and "0". */
  predicate EmptyAtom(a: Atom) {
    a == IntAtom(0) || (a.StrAtom? && EmptyString(a.s))
  }

  predicate EmptyValue(v: CValue) {
    match v
    case Scalar(a) => EmptyAtom(a)
    case List(xs) => |xs| == 0
  }

  /**
   * The standardisation of one value: SINGLE values are wrapped (so never
   * empty) and unwrapped again, SINGLE_OR_MULTIPLE scalars are wrapped, and
   * an empty result means an empty query.
   */
  function Normalize(card: Cardinality, v: CValue): (r: Option<CValue>)
    ensures card == Single ==> r == Some(v)
    ensures card == SingleOrMultiple ==> r == (if v.Scalar? then Some(List([v.a])) else if |v.items| == 0 then None else Some(v))
    ensures card == Multiple ==> r == (if EmptyValue(v) then None else Some(v))
    ensures r.Some? && card != Single ==> !EmptyValue(r.value)
  {
    match card
    case Single => Some(v)
    case SingleOrMultiple =>
      var w := if v.Scalar? then List([v.a]) else v;
      if EmptyValue(w) then None else Some(w)
    case Multiple => if EmptyValue(v) then None else Some(v)
  }

  /** A constraint callback to run, with the value it receives. */
  datatype Call = Call(callback: string, value: CValue)

  /** What the query is built from: the join callbacks run, in order, and the constraint callbacks. */
  datatype Query = Query(joins: seq<string>, calls: seq<Call>)

  /** The join callback a description asks for, if it is non-empty. */
  function JoinOf(info: ConstraintInfo): Option<string> {
    if info.joinCallback.Some? && !EmptyString(info.joinCallback.value) then info.joinCallback else None
  }

  /** The join callback the constraint `key` asks for, if it is known and asks for one. */
  function JoinAt(registry: Arr<string, ConstraintInfo>, key: string): Option<string> {
    match Lookup(registry, key)
    case None => None
    case Some(info) => JoinOf(info)
  }

  /** One turn of the loop of `_constructQuery`. */
  function Step(q: Query, registry: Arr<string, ConstraintInfo>, key: string, v: CValue): Option<Query> {
    match Lookup(registry, key)
    case None => None
    case Some(info) =>
      match Normalize(info.cardinality, v)
      case None => None
      case Some(nv) =>
        var joins := if JoinOf(info).Some? && JoinOf(info).value !in q.joins then q.joins + [JoinOf(info).value] else q.joins;
        Some(Query(joins, q.calls + [Call(info.callback, nv)]))
  }

  /** The remaining turns of the loop, from the query built so far. */
  function ConstructFrom(q: Query, registry: Arr<string, ConstraintInfo>, cs: ConstraintSet): Option<Query>
    decreases |cs|
  {
    if |cs| == 0 then Some(q)
    else
      match Step(q, registry, cs[0].0, cs[0].1)
      case None => None
      case Some(q') => ConstructFrom(q', registry, cs[1..])
  }

  function Construct(registry: Arr<string, ConstraintInfo>, cs: ConstraintSet): Option<Query> {
    ConstructFrom(Query([], []), registry, cs)
  }

  /** `_constructQuery`; `None` stands for the empty array meaning "no results". */
  method ConstructQuery(registry: Arr<string, ConstraintInfo>, cs: ConstraintSet) returns (r: Option<Query>)
    ensures r == Construct(registry, cs)
  {
    var q := Query([], []);
    var k := 0;
    while k < |cs|
      invariant 0 <= k <= |cs|
      invariant Construct(registry, cs) == ConstructFrom(q, registry, cs[k..])
    {
      assert cs[k..][1..] == cs[k + 1..];
      var (key, v) := cs[k];
      var info := Lookup(registry, key);
      if info.None? {
        return None;
      }
      var nv := Normalize(info.value.cardinality, v);
      if nv.None? {
        return None;
      }
      var join := JoinOf(info.value);
      if join.Some? && join.value !in q.joins {
        q := q.(joins := q.joins + [join.value]);
      }
      q := q.(calls := q.calls + [Call(info.value.callback, nv.value)]);
      k := k + 1;
    }
    return Some(q);
  }

  /** Whether every constraint is known and survives normalisation. */
  predicate AllUsable(registry: Arr<string, ConstraintInfo>, cs: ConstraintSet) {
    forall i :: 0 <= i < |cs| ==>
      Lookup(registry, cs[i].0).Some? && Normalize(Lookup(registry, cs[i].0).value.cardinality, cs[i].1).Some?
  }

  /** The query is built exactly when every constraint is known and survives normalisation. */
  lemma {:induction false} ConstructSucceeds(q: Query, registry: Arr<string, ConstraintInfo>, cs: ConstraintSet)
    ensures ConstructFrom(q, registry, cs).Some? <==> AllUsable(registry, cs)
    decreases |cs|
  {
    if |cs| > 0 {
      var s := Step(q, registry, cs[0].0, cs[0].1);
      if s.Some? {
        ConstructSucceeds(s.value, registry, cs[1..]);
        if AllUsable(registry, cs[1..]) {
          forall i | 0 <= i < |cs|
            ensures Lookup(registry, cs[i].0).Some? && Normalize(Lookup(registry, cs[i].0).value.cardinality, cs[i].1).Some?
          {
            if i > 0 {
              assert cs[i] == cs[1..][i - 1];
            }
          }
        }
        if AllUsable(registry, cs) {
          forall i | 0 <= i < |cs[1..]|
            ensures Lookup(registry, cs[1..][i].0).Some? && Normalize(Lookup(registry, cs[1..][i].0).value.cardinality, cs[1..][i].1).Some?
          {
            assert cs[1..][i] == cs[i + 1];
          }
        }
      } else {
        assert !(Lookup(registry, cs[0].0).Some? && Normalize(Lookup(registry, cs[0].0).value.cardinality, cs[0].1).Some?);
      }
    }
  }

  /** The call of constraint `i`: its description's callback with its normalised value. */
  function CallFor(registry: Arr<string, ConstraintInfo>, key: string, v: CValue): Call
    requires Lookup(registry, key).Some? && Normalize(Lookup(registry, key).value.cardinality, v).Some?
  {
    Call(Lookup(registry, key).value.callback, Normalize(Lookup(registry, key).value.cardinality, v).value)
  }

  /** Each constraint yields exactly one callback call, in the order given. */
  lemma {:induction false} ConstructCalls(q: Query, registry: Arr<string, ConstraintInfo>, cs: ConstraintSet)
    requires ConstructFrom(q, registry, cs).Some?
    ensures AllUsable(registry, cs)
    ensures var r := ConstructFrom(q, registry, cs).value;
      |r.calls| == |q.calls| + |cs| && r.calls[..|q.calls|] == q.calls &&
      forall i :: 0 <= i < |cs| ==> r.calls[|q.calls| + i] == CallFor(registry, cs[i].0, cs[i].1)
    decreases |cs|
  {
    ConstructSucceeds(q, registry, cs);
    if |cs| > 0 {
      var q' := Step(q, registry, cs[0].0, cs[0].1).value;
      ConstructCalls(q', registry, cs[1..]);
      var r := ConstructFrom(q', registry, cs[1..]).value;
      assert r.calls[..|q'.calls|] == q'.calls;
      assert r.calls[..|q.calls|] == q.calls by {
        assert r.calls[..|q.calls|] == q'.calls[..|q.calls|];
      }
      forall i | 0 <= i < |cs| ensures r.calls[|q.calls| + i] == CallFor(registry, cs[i].0, cs[i].1) {
        if i == 0 {
          assert r.calls[|q.calls|] == q'.calls[|q.calls|];
        } else {
          assert cs[i] == cs[1..][i - 1];
        }
      }
    }
  }

  predicate NoRepeats(s: seq<string>) {
    forall i, j :: 0 <= i < j < |s| ==> s[i] != s[j]
  }

  /** Every non-empty join callback is run, and none twice. */
  lemma {:induction false} ConstructJoins(q: Query, registry: Arr<string, ConstraintInfo>, cs: ConstraintSet, f: string)
    requires NoRepeats(q.joins) && ConstructFrom(q, registry, cs).Some?
    ensures var r := ConstructFrom(q, registry, cs).value;
      NoRepeats(r.joins) &&
      (f in r.joins <==> f in q.joins || exists i :: 0 <= i < |cs| && JoinAt(registry, cs[i].0) == Some(f))
    decreases |cs|
  {
    ConstructSucceeds(q, registry, cs);
    if |cs| > 0 {
      var q' := Step(q, registry, cs[0].0, cs[0].1).value;
      ConstructJoins(q', registry, cs[1..], f);
      if exists i :: 0 <= i < |cs| && JoinAt(registry, cs[i].0) == Some(f) {
        var i :| 0 <= i < |cs| && JoinAt(registry, cs[i].0) == Some(f);
        if i > 0 {
          assert cs[i] == cs[1..][i - 1];
        }
      }
      if exists i :: 0 <= i < |cs[1..]| && JoinAt(registry, cs[1..][i].0) == Some(f) {
        var i :| 0 <= i < |cs[1..]| && JoinAt(registry, cs[1..][i].0) == Some(f);
        assert cs[1..][i] == cs[i + 1];
      }
    }
  }

  /** An undeclared constraint key makes the whole query empty, wherever it stands. */
  lemma UnknownKeyEmpties(registry: Arr<string, ConstraintInfo>, cs: ConstraintSet, i: int)
    requires 0 <= i < |cs| && Lookup(registry, cs[i].0).None?
    ensures Construct(registry, cs).None?
  {
    ConstructSucceeds(Query([], []), registry, cs);
  }

  // ---------------------------------------------------------------------
  // getCommits / getTags / getBranches

  /**
   * The `types` intersection of `getCommits`, `getTags` and `getBranches`:
   * a `types` constraint lacking `t` (or not given as a list) means no
   * results; otherwise `types` becomes exactly `[t]`.
   */
  function RestrictTypes(cs: ConstraintSet, t: int): Option<ConstraintSet> {
    match Lookup(cs, "types")
    case None => Some(Assign(cs, "types", List([IntAtom(t)])))
    case Some(v) =>
      if v.List? && InArray(t, v.items) then Some(Assign(cs, "types", List([IntAtom(t)]))) else None
  }

  /** PHP's `==` between a scalar and an integer: a string counts by its leading integer. */
  predicate LooseEqualsInt(a: Atom, t: int) {
    match a
    case IntAtom(i) => i == t
    case StrAtom(s) => StringToInt(s) == t
  }

  /** `in_array($t, $items)` with its default loose comparison. */
  predicate InArray(t: int, items: seq<Atom>) {
    exists i :: 0 <= i < |items| && LooseEqualsInt(items[i], t)
  }

  /** A `types` list naming the type as text, as in `array('1')`, keeps it. */
  lemma RestrictTypesLoose(cs: ConstraintSet, t: int, items: seq<Atom>, i: int)
    requires Lookup(cs, "types") == Some(List(items))
    requires 0 <= i < |items| && items[i] == StrAtom(IntToString(t))
    ensures RestrictTypes(cs, t).Some?
  {
    StringToIntOfInt(t);
  }

  lemma RestrictTypesSpec(cs: ConstraintSet, t: int, key: string)
    ensures RestrictTypes(cs, t).None? <==>
      Lookup(cs, "types").Some? && !(Lookup(cs, "types").value.List? && InArray(t, Lookup(cs, "types").value.items))
    ensures RestrictTypes(cs, t).Some? ==>
      Lookup(RestrictTypes(cs, t).value, "types") == Some(List([IntAtom(t)])) &&
      (key != "types" ==> Lookup(RestrictTypes(cs, t).value, key) == Lookup(cs, key))
    ensures RestrictTypes(cs, t).Some? && DistinctKeys(cs) ==> DistinctKeys(RestrictTypes(cs, t).value)
  {
    LookupAssign(cs, "types", List([IntAtom(t)]), "types");
    LookupAssign(cs, "types", List([IntAtom(t)]), key);
    if DistinctKeys(cs) {
      AssignDistinct(cs, "types", List([IntAtom(t)]));
    }
  }

  /** Restricting twice to the same type is restricting once; to two different types, nothing survives. */
  lemma RestrictTypesTwice(cs: ConstraintSet, t: int, u: int)
    requires RestrictTypes(cs, t).Some?
    ensures RestrictTypes(RestrictTypes(cs, t).value, t) == RestrictTypes(cs, t)
    ensures t != u ==> RestrictTypes(RestrictTypes(cs, t).value, u).None?
  {
    var r := RestrictTypes(cs, t).value;
    LookupAssign(cs, "types", List([IntAtom(t)]), "types");
    assert LooseEqualsInt([IntAtom(t)][0], t);
    AssignTwice(cs, "types", List([IntAtom(t)]));
  }

  lemma {:induction false} AssignTwice<K, V>(a: Arr<K, V>, k: K, v: V)
    ensures Assign(Assign(a, k, v), k, v) == Assign(a, k, v)
    decreases |a|
  {
    if |a| > 0 && a[0].0 != k {
      AssignTwice(a[1..], k, v);
      assert Assign(a, k, v)[1..] == Assign(a[1..], k, v);
    }
  }
}
