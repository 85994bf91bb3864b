/**
 * The parts of the PHP runtime whose meaning the module relies on:
 * `empty()`, ordered arrays (assignment, `+`, `array_reverse`), the key
 * order of `ksort` and SQL `ORDER BY`, `dirname`, `strpos`, `strtolower`
 * on ASCII and `implode`.
 */
module Php {

  datatype Option<T> = None | Some(value: T)

  /** `empty()` on a string: the empty string and "0" are empty. */
  predicate EmptyString(s: string) {
    s == "" || s == "0"
  }

  /** `empty()` on a database id read back as a number or NULL. */
  predicate EmptyId(id: Option<nat>) {
    id.None? || id.value == 0
  }

  /** An id as `%d` prints it into a query: NULL becomes 0. */
  function IdOrZero(id: Option<nat>): (r: nat)
    ensures r == 0 <==> EmptyId(id)
  {
    if id.Some? then id.value else 0
  }

  // ---------------------------------------------------------------------
  // Ordered arrays: a PHP array as the list of its (key, value) pairs in
  // insertion order.

  type Arr<K, V> = seq<(K, V)>

  predicate DistinctKeys<K(==), V>(a: Arr<K, V>) {
    forall i, j :: 0 <= i < j < |a| ==> a[i].0 != a[j].0
  }

  predicate HasKey<K(==), V>(a: Arr<K, V>, k: K) {
    exists i :: 0 <= i < |a| && a[i].0 == k
  }

  /** `$a[$k]`: the value stored under the first occurrence of `k`. */
  function Lookup<K(==), V>(a: Arr<K, V>, k: K): Option<V> {
    if |a| == 0 then None
    else if a[0].0 == k then Some(a[0].1)
    else Lookup(a[1..], k)
  }

  /** `$a[$k] = $v`: an existing key keeps its position, a new one is appended. */
  function Assign<K(==), V>(a: Arr<K, V>, k: K, v: V): Arr<K, V> {
    if |a| == 0 then [(k, v)]
    else if a[0].0 == k then [(k, v)] + a[1..]
    else [a[0]] + Assign(a[1..], k, v)
  }

  /** `$a + $b`: keys of `b` already present in `a` are dropped. */
  function Plus<K(==), V>(a: Arr<K, V>, b: Arr<K, V>): Arr<K, V>
    decreases |b|
  {
    if |b| == 0 then a
    else if Lookup(a, b[0].0).Some? then Plus(a, b[1..])
    else Plus(a + [b[0]], b[1..])
  }

  /** `array_reverse($a, TRUE)`: the pairs in reverse order, keys preserved. */
  function Reverse<K, V>(a: Arr<K, V>): (r: Arr<K, V>)
    ensures |r| == |a|
  {
    if |a| == 0 then [] else Reverse(a[1..]) + [a[0]]
  }

  lemma {:induction false} LookupFound<K, V>(a: Arr<K, V>, k: K)
    ensures Lookup(a, k).Some? <==> HasKey(a, k)
    ensures Lookup(a, k).Some? ==>
      exists i :: 0 <= i < |a| && a[i] == (k, Lookup(a, k).value)
  {
    if |a| > 0 && a[0].0 != k {
      LookupFound(a[1..], k);
      if HasKey(a, k) {
        var i :| 0 <= i < |a| && a[i].0 == k;
        assert a[1..][i - 1].0 == k;
      }
      if Lookup(a, k).Some? {
        var i :| 0 <= i < |a[1..]| && a[1..][i] == (k, Lookup(a, k).value);
        assert a[i + 1] == (k, Lookup(a, k).value);
      }
    }
  }

  lemma {:induction false} LookupAssign<K, V>(a: Arr<K, V>, k: K, v: V, k': K)
    ensures Lookup(Assign(a, k, v), k') == if k' == k then Some(v) else Lookup(a, k')
  {
    if |a| > 0 && a[0].0 != k {
      LookupAssign(a[1..], k, v, k');
      assert Assign(a, k, v)[1..] == Assign(a[1..], k, v);
    } else if |a| > 0 {
      assert Assign(a, k, v)[1..] == a[1..];
    }
  }

  lemma {:induction false} AssignKeys<K, V>(a: Arr<K, V>, k: K, v: V, k': K)
    ensures HasKey(Assign(a, k, v), k') <==> (k' == k || HasKey(a, k'))
  {
    LookupAssign(a, k, v, k');
    LookupFound(Assign(a, k, v), k');
    LookupFound(a, k');
  }

  /** Assignment keeps the keys of an array pairwise distinct. */
  lemma {:induction false} AssignDistinct<K, V>(a: Arr<K, V>, k: K, v: V)
    requires DistinctKeys(a)
    ensures DistinctKeys(Assign(a, k, v))
    ensures |Assign(a, k, v)| == if HasKey(a, k) then |a| else |a| + 1
  {
    if |a| > 0 && a[0].0 != k {
      var t := a[1..];
      assert DistinctKeys(t) by {
        forall i, j | 0 <= i < j < |t| ensures t[i].0 != t[j].0 {
          assert t[i] == a[i + 1] && t[j] == a[j + 1];
        }
      }
      AssignDistinct(t, k, v);
      var r := Assign(a, k, v);
      assert r == [a[0]] + Assign(t, k, v);
      forall j | 0 < j < |r| ensures r[0].0 != r[j].0 {
        var x := Assign(t, k, v)[j - 1].0;
        assert x == r[j].0;
        assert HasKey(Assign(t, k, v), x);
        AssignKeys(t, k, v, x);
        if x != k {
          var i :| 0 <= i < |t| && t[i].0 == x;
          assert a[i + 1].0 == x;
        }
      }
      assert HasKey(a, k) <==> HasKey(t, k) by {
        if HasKey(a, k) {
          var i :| 0 <= i < |a| && a[i].0 == k;
          assert t[i - 1].0 == k;
        }
        if HasKey(t, k) {
          var i :| 0 <= i < |t| && t[i].0 == k;
          assert a[i + 1].0 == k;
        }
      }
    } else if |a| > 0 {
      assert HasKey(a, k);
    } else {
      assert !HasKey(a, k);
    }
  }

  lemma AppendAssoc<T>(a: seq<T>, b: seq<T>, c: seq<T>)
    ensures a + b + c == a + (b + c)
  {
  }

  /** Assigning a key the array does not hold appends the pair. */
  lemma {:induction false} AssignNew<K, V>(a: Arr<K, V>, k: K, v: V)
    requires forall i :: 0 <= i < |a| ==> a[i].0 != k
    ensures Assign(a, k, v) == a + [(k, v)]
  {
    if |a| > 0 {
      AssignNew(a[1..], k, v);
      assert a == [a[0]] + a[1..];
    }
  }

  /** `+` of arrays whose keys do not collide is concatenation. */
  lemma {:induction false} PlusDisjoint<K, V>(a: Arr<K, V>, b: Arr<K, V>)
    requires DistinctKeys(b)
    requires forall i, j :: 0 <= i < |a| && 0 <= j < |b| ==> a[i].0 != b[j].0
    ensures Plus(a, b) == a + b
    decreases |b|
  {
    if |b| > 0 {
      LookupFound(a, b[0].0);
      var a' := a + [b[0]];
      var t := b[1..];
      forall i, j | 0 <= i < |a'| && 0 <= j < |t| ensures a'[i].0 != t[j].0 {
        assert t[j] == b[j + 1];
      }
      assert DistinctKeys(t) by {
        forall i, j | 0 <= i < j < |t| ensures t[i].0 != t[j].0 {
          assert t[i] == b[i + 1] && t[j] == b[j + 1];
        }
      }
      PlusDisjoint(a', t);
      assert a' + t == a + b;
    }
  }

  lemma {:induction false} LookupAppend<K, V>(a: Arr<K, V>, p: (K, V), k: K)
    ensures Lookup(a + [p], k) ==
      if Lookup(a, k).Some? then Lookup(a, k) else if p.0 == k then Some(p.1) else None
  {
    if |a| > 0 {
      assert (a + [p])[1..] == a[1..] + [p];
      LookupAppend(a[1..], p, k);
    }
  }

  /** `+` keeps the left operand's value on a collision and fills in the rest from the right. */
  lemma {:induction false} LookupPlus<K, V>(a: Arr<K, V>, b: Arr<K, V>, k: K)
    ensures Lookup(Plus(a, b), k) == if Lookup(a, k).Some? then Lookup(a, k) else Lookup(b, k)
    decreases |b|
  {
    if |b| > 0 {
      if Lookup(a, b[0].0).Some? {
        LookupPlus(a, b[1..], k);
      } else {
        LookupPlus(a + [b[0]], b[1..], k);
        LookupAppend(a, b[0], k);
      }
    }
  }

  /** `+` of two arrays with distinct keys has distinct keys. */
  lemma {:induction false} PlusDistinct<K, V>(a: Arr<K, V>, b: Arr<K, V>)
    requires DistinctKeys(a)
    ensures DistinctKeys(Plus(a, b))
    decreases |b|
  {
    if |b| > 0 && Lookup(a, b[0].0).None? {
      var a' := a + [b[0]];
      forall i | 0 <= i < |a| ensures a'[i].0 != b[0].0 {
        if a[i].0 == b[0].0 {
          LookupFound(a, b[0].0);
        }
      }
      PlusDistinct(a', b[1..]);
    } else if |b| > 0 {
      PlusDistinct(a, b[1..]);
    }
  }

  lemma {:induction false} ReverseAt<K, V>(a: Arr<K, V>, i: int)
    requires 0 <= i < |a|
    ensures Reverse(a)[i] == a[|a| - 1 - i]
  {
    if i < |a| - 1 {
      ReverseAt(a[1..], i);
    }
  }

  /** In an array with distinct keys, every pair is what its key looks up. */
  lemma {:induction false} LookupDistinct<K, V>(a: Arr<K, V>, i: int)
    requires DistinctKeys(a) && 0 <= i < |a|
    ensures Lookup(a, a[i].0) == Some(a[i].1)
  {
    if i > 0 {
      var t := a[1..];
      assert DistinctKeys(t) by {
        forall x, y | 0 <= x < y < |t| ensures t[x].0 != t[y].0 {
          assert t[x] == a[x + 1] && t[y] == a[y + 1];
        }
      }
      LookupDistinct(t, i - 1);
      assert a[0].0 != a[i].0;
    }
  }

  /** Reversal keeps the keys distinct and every key's value. */
  lemma ReverseLookup<K, V>(a: Arr<K, V>, k: K)
    requires DistinctKeys(a)
    ensures DistinctKeys(Reverse(a))
    ensures Lookup(Reverse(a), k) == Lookup(a, k)
  {
    var r := Reverse(a);
    forall i | 0 <= i < |r| ensures r[i] == a[|a| - 1 - i] {
      ReverseAt(a, i);
    }
    LookupFound(a, k);
    LookupFound(r, k);
    if HasKey(a, k) {
      var j :| 0 <= j < |a| && a[j].0 == k;
      LookupDistinct(a, j);
      LookupDistinct(r, |a| - 1 - j);
    } else {
      forall i | 0 <= i < |r| ensures r[i].0 != k {
        assert r[i] == a[|a| - 1 - i];
      }
    }
  }

  // ---------------------------------------------------------------------
  // Ordering: `ksort` on string keys and SQL `ORDER BY` compare keys
  // lexicographically; a key is rendered as a sequence of integers.

  predicate LexLe(a: seq<int>, b: seq<int>) {
    |a| == 0 || (|b| > 0 && (a[0] < b[0] || (a[0] == b[0] && LexLe(a[1..], b[1..]))))
  }

  lemma {:induction false} LexLeTotal(a: seq<int>, b: seq<int>)
    ensures LexLe(a, b) || LexLe(b, a)
  {
    if |a| > 0 && |b| > 0 && a[0] == b[0] {
      LexLeTotal(a[1..], b[1..]);
    }
  }

  lemma {:induction false} LexLeTrans(a: seq<int>, b: seq<int>, c: seq<int>)
    requires LexLe(a, b) && LexLe(b, c)
    ensures LexLe(a, c)
  {
    if |a| > 0 && a[0] == b[0] && b[0] == c[0] {
      LexLeTrans(a[1..], b[1..], c[1..]);
    }
  }

  lemma {:induction false} LexLeAntisym(a: seq<int>, b: seq<int>)
    requires LexLe(a, b) && LexLe(b, a)
    ensures a == b
  {
    if |a| > 0 {
      LexLeAntisym(a[1..], b[1..]);
      assert a == [a[0]] + a[1..];
      assert b == [b[0]] + b[1..];
    }
  }

  predicate SortedBy<T>(s: seq<T>, key: T -> seq<int>) {
    forall i, j :: 0 <= i < j < |s| ==> LexLe(key(s[i]), key(s[j]))
  }

  function InsertSorted<T>(x: T, s: seq<T>, key: T -> seq<int>): seq<T> {
    if |s| == 0 then [x]
    else if LexLe(key(x), key(s[0])) then [x] + s
    else [s[0]] + InsertSorted(x, s[1..], key)
  }

  /** The rows in ascending key order. */
  function SortBy<T>(s: seq<T>, key: T -> seq<int>): seq<T> {
    if |s| == 0 then [] else InsertSorted(s[0], SortBy(s[1..], key), key)
  }

  lemma {:induction false} InsertSortedPerm<T>(x: T, s: seq<T>, key: T -> seq<int>)
    ensures multiset(InsertSorted(x, s, key)) == multiset([x]) + multiset(s)
  {
    if |s| > 0 && !LexLe(key(x), key(s[0])) {
      InsertSortedPerm(x, s[1..], key);
      assert s == [s[0]] + s[1..];
    }
  }

  lemma {:induction false} InsertSortedSorted<T>(x: T, s: seq<T>, key: T -> seq<int>)
    requires SortedBy(s, key)
    ensures SortedBy(InsertSorted(x, s, key), key)
  {
    var r := InsertSorted(x, s, key);
    if |s| == 0 {
    } else if LexLe(key(x), key(s[0])) {
      forall i, j | 0 <= i < j < |r| ensures LexLe(key(r[i]), key(r[j])) {
        if i == 0 && j > 1 {
          LexLeTrans(key(x), key(s[0]), key(s[j - 1]));
        }
      }
    } else {
      var t := s[1..];
      assert SortedBy(t, key) by {
        forall i, j | 0 <= i < j < |t| ensures LexLe(key(t[i]), key(t[j])) {
          assert t[i] == s[i + 1] && t[j] == s[j + 1];
        }
      }
      InsertSortedSorted(x, t, key);
      InsertSortedPerm(x, t, key);
      var u := InsertSorted(x, t, key);
      LexLeTotal(key(x), key(s[0]));
      forall j | 0 <= j < |u| ensures LexLe(key(s[0]), key(u[j])) {
        assert u[j] in multiset(u);
        assert u[j] in multiset([x]) + multiset(t);
        if u[j] != x {
          assert u[j] in t;
          var k :| 0 <= k < |t| && t[k] == u[j];
          assert s[k + 1] == u[j];
        }
      }
      forall i, j | 0 <= i < j < |r| ensures LexLe(key(r[i]), key(r[j])) {
        if i > 0 {
          assert r[i] == u[i - 1] && r[j] == u[j - 1];
        } else {
          assert r[j] == u[j - 1];
        }
      }
    }
  }

  /** `SortBy` returns a sorted permutation of its input. */
  lemma {:induction false} SortByCorrect<T>(s: seq<T>, key: T -> seq<int>)
    ensures SortedBy(SortBy(s, key), key)
    ensures multiset(SortBy(s, key)) == multiset(s)
    ensures |SortBy(s, key)| == |s|
  {
    if |s| > 0 {
      SortByCorrect(s[1..], key);
      InsertSortedSorted(s[0], SortBy(s[1..], key), key);
      InsertSortedPerm(s[0], SortBy(s[1..], key), key);
      assert s == [s[0]] + s[1..];
    }
    assert |multiset(SortBy(s, key))| == |multiset(s)|;
  }

  /** A string's characters as integers, the comparison key of `ksort` on paths. */
  function Codes(s: string): (r: seq<int>)
    ensures |r| == |s|
    ensures forall i :: 0 <= i < |s| ==> r[i] == s[i] as int
  {
    if |s| == 0 then [] else [s[0] as int] + Codes(s[1..])
  }

  lemma CodesInjective(a: string, b: string)
    requires Codes(a) == Codes(b)
    ensures a == b
  {
    assert |a| == |b|;
    forall i | 0 <= i < |a| ensures a[i] == b[i] {
      assert Codes(a)[i] == Codes(b)[i];
    }
  }

  // ---------------------------------------------------------------------
  // Strings.

  /** `strpos($h, $n) !== FALSE` for a non-empty needle. */
  function Contains(h: string, n: string): bool
    decreases |h|
  {
    n <= h || (|h| > 0 && Contains(h[1..], n))
  }

  predicate OccursAt(h: string, n: string, i: int) {
    0 <= i && i + |n| <= |h| && h[i..i + |n|] == n
  }

  /** `Contains` finds the needle at some position of the haystack. */
  lemma {:induction false} ContainsAt(h: string, n: string)
    ensures Contains(h, n) <==> exists i :: OccursAt(h, n, i)
    decreases |h|
  {
    assert OccursAt(h, n, 0) ==> n <= h;
    if n <= h {
      assert OccursAt(h, n, 0);
    } else if |h| > 0 {
      ContainsAt(h[1..], n);
      if exists i :: OccursAt(h, n, i) {
        var i :| OccursAt(h, n, i);
        if i > 0 {
          assert h[1..][i - 1..i - 1 + |n|] == h[i..i + |n|];
          assert OccursAt(h[1..], n, i - 1);
        }
      }
      if Contains(h[1..], n) {
        var i :| OccursAt(h[1..], n, i);
        assert h[1..][i..i + |n|] == h[i + 1..i + 1 + |n|];
        assert OccursAt(h, n, i + 1);
      }
    } else {
      assert |n| > 0;
    }
  }

  function StripTrailingSlashes(s: string): (r: string)
    ensures r <= s
    ensures |r| == 0 || r[|r| - 1] != '/'
    ensures forall i :: |r| <= i < |s| ==> s[i] == '/'
  {
    if |s| == 0 || s[|s| - 1] != '/' then s else StripTrailingSlashes(s[..|s| - 1])
  }

  /** The prefix of `s` up to and including its last '/' (empty when there is none). */
  function UpToLastSlash(s: string): (r: string)
    ensures r <= s
    ensures |r| == 0 || r[|r| - 1] == '/'
    ensures forall i :: |r| <= i < |s| ==> s[i] != '/'
  {
    if |s| == 0 || s[|s| - 1] == '/' then s else UpToLastSlash(s[..|s| - 1])
  }

  /**
   * PHP's `dirname` on '/'-separated paths: trailing slashes are dropped,
   * then the last component, then the slashes before it; a path of slashes
   * only gives "/", a path without a slash gives ".".
   */
  function Dirname(p: string): string {
    if |p| == 0 then ""
    else
      var t := StripTrailingSlashes(p);
      if |t| == 0 then "/"
      else
        var u := UpToLastSlash(t);
        if |u| == 0 then "."
        else
          var d := StripTrailingSlashes(u);
          if |d| == 0 then "/" else d
  }

  lemma DirnameExamples()
    ensures Dirname("/a/b") == "/a"
    ensures Dirname("/a") == "/"
    ensures Dirname("/") == "/"
    ensures Dirname("a") == "."
    ensures Dirname("/a/b/") == "/a"
  {
    assert StripTrailingSlashes("/a/b") == "/a/b";
    assert UpToLastSlash("/a/b") == "/a/";
    assert StripTrailingSlashes("/a/") == "/a";
    assert StripTrailingSlashes("/a") == "/a";
    assert UpToLastSlash("/a") == "/";
    assert StripTrailingSlashes("/") == "";
    assert StripTrailingSlashes("a") == "a";
    assert UpToLastSlash("a") == "";
    assert StripTrailingSlashes("/a/b/") == "/a/b";
  }

  /**
   * The directory of an absolute path is an absolute path that is a proper
   * prefix of it, unless the path is the root itself.
   */
  lemma DirnameOfAbsolute(p: string)
    requires |p| > 0 && p[0] == '/'
    ensures var d := Dirname(p); |d| > 0 && d[0] == '/'
    ensures var d := Dirname(p); d == "/" || (d < p && p[|d|] == '/')
  {
    var t := StripTrailingSlashes(p);
    if |t| > 0 {
      assert t[0] == '/';
      var u := UpToLastSlash(t);
      assert |u| > 0;
      assert u[0] == '/';
      var d := StripTrailingSlashes(u);
      if |d| > 0 {
        assert d[0] == u[0];
        assert d < u;
        assert u[|d|] == '/';
      }
    }
  }

  function LowerChar(c: char): char {
    if 'A' <= c <= 'Z' then (c as int + 32) as char else c
  }

  /** `strtolower` on ASCII text. */
  function Lower(s: string): (r: string)
    ensures |r| == |s|
    ensures forall i :: 0 <= i < |s| ==> r[i] == LowerChar(s[i])
  {
    if |s| == 0 then [] else [LowerChar(s[0])] + Lower(s[1..])
  }

  /** `implode($sep, $parts)`. */
  function Implode(sep: string, parts: seq<string>): string {
    if |parts| == 0 then ""
    else if |parts| == 1 then parts[0]
    else parts[0] + sep + Implode(sep, parts[1..])
  }

  /** Every pair of `$a[$k] = $v` is the new pair or was already in `a`. */
  lemma {:induction false} AssignMembers<K, V>(a: Arr<K, V>, k: K, v: V)
    ensures (k, v) in Assign(a, k, v)
    ensures forall p :: p in Assign(a, k, v) ==> p == (k, v) || p in a
  {
    if |a| > 0 && a[0].0 != k {
      AssignMembers(a[1..], k, v);
      assert Assign(a, k, v) == [a[0]] + Assign(a[1..], k, v);
      forall p | p in Assign(a, k, v) ensures p == (k, v) || p in a {
        if p != a[0] {
          assert p in Assign(a[1..], k, v);
          if p != (k, v) {
            assert p in a[1..];
          }
        }
      }
    } else if |a| > 0 {
      forall p | p in Assign(a, k, v) ensures p == (k, v) || p in a {
        if p != (k, v) {
          assert p in a[1..];
        }
      }
    }
  }

  lemma {:induction false} InsertSortedDistinct<K, V>(x: (K, V), s: Arr<K, V>, key: ((K, V)) -> seq<int>)
    requires DistinctKeys(s)
    requires forall i :: 0 <= i < |s| ==> s[i].0 != x.0
    ensures DistinctKeys(InsertSorted(x, s, key))
  {
    if |s| > 0 && !LexLe(key(x), key(s[0])) {
      var t := s[1..];
      assert DistinctKeys(t) by {
        forall i, j | 0 <= i < j < |t| ensures t[i].0 != t[j].0 {
          assert t[i] == s[i + 1] && t[j] == s[j + 1];
        }
      }
      InsertSortedDistinct(x, t, key);
      InsertSortedPerm(x, t, key);
      var u := InsertSorted(x, t, key);
      forall j | 0 <= j < |u| ensures s[0].0 != u[j].0 {
        assert u[j] in multiset([x]) + multiset(t);
        if u[j] != x {
          assert u[j] in t;
          var m :| 0 <= m < |t| && t[m] == u[j];
          assert s[m + 1] == u[j];
        }
      }
      var r := InsertSorted(x, s, key);
      forall i, j | 0 <= i < j < |r| ensures r[i].0 != r[j].0 {
        if i > 0 {
          assert r[i] == u[i - 1] && r[j] == u[j - 1];
        } else {
          assert r[j] == u[j - 1];
        }
      }
    }
  }

  /** Sorting an array with distinct keys keeps them distinct. */
  lemma {:induction false} SortByDistinct<K, V>(s: Arr<K, V>, key: ((K, V)) -> seq<int>)
    requires DistinctKeys(s)
    ensures DistinctKeys(SortBy(s, key))
  {
    if |s| > 0 {
      var t := s[1..];
      assert DistinctKeys(t) by {
        forall i, j | 0 <= i < j < |t| ensures t[i].0 != t[j].0 {
          assert t[i] == s[i + 1] && t[j] == s[j + 1];
        }
      }
      SortByDistinct(t, key);
      SortByCorrect(t, key);
      var u := SortBy(t, key);
      forall j | 0 <= j < |u| ensures u[j].0 != s[0].0 {
        assert u[j] in multiset(t);
        var m :| 0 <= m < |t| && t[m] == u[j];
        assert s[m + 1] == u[j];
      }
      InsertSortedDistinct(s[0], u, key);
    }
  }

  /** A digit as a character. */
  function DigitChar(d: int): char
    requires 0 <= d < 10
  {
    ('0' as int + d) as char
  }

  /** The decimal text of a natural number, as PHP casts it to a string. */
  function NatToString(n: nat): (r: string)
    ensures |r| > 0
    ensures forall i :: 0 <= i < |r| ==> '0' <= r[i] <= '9'
    decreases n
  {
    if n < 10 then [DigitChar(n)] else NatToString(n / 10) + [DigitChar(n % 10)]
  }

  /** The decimal text of an integer, with a leading '-' when negative. */
  function IntToString(i: int): string {
    if i < 0 then "-" + NatToString(-i) else NatToString(i)
  }

  predicate IsDigit(c: char) {
    '0' <= c <= '9'
  }

  /** The characters skipped before a number in a string: space, tab, newline, CR, vertical tab, form feed. */
  predicate LeadingSpace(c: char) {
    c == ' ' || c == '\t' || c == '\n' || c == '\r' || c == 11 as char || c == 12 as char
  }

  /** The leading run of digits of `s`. */
  function LeadingDigits(s: string): (r: string)
    ensures |r| <= |s| && r == s[..|r|]
    ensures forall i :: 0 <= i < |r| ==> IsDigit(r[i])
    ensures |r| < |s| ==> !IsDigit(s[|r|])
  {
    if |s| > 0 && IsDigit(s[0]) then [s[0]] + LeadingDigits(s[1..]) else ""
  }

  /** The value of a run of decimal digits. */
  function DigitsValue(d: string): nat
    requires forall i :: 0 <= i < |d| ==> IsDigit(d[i])
  {
    if |d| == 0 then 0 else 10 * DigitsValue(d[..|d| - 1]) + DigitValue(d[|d| - 1])
  }

  function DigitValue(c: char): nat
    requires IsDigit(c)
  {
    c as int - '0' as int
  }

  /**
   * A string read as an integer, as PHP 5 and 7 do when `==` compares it
   * with one: leading white space is skipped, then an optional sign and
   * the digits after it count; with no digits the value is 0.
   */
  function StringToInt(s: string): int {
    if |s| > 0 && LeadingSpace(s[0]) then StringToInt(s[1..])
    else if |s| > 0 && s[0] == '-' then -(DigitsValue(LeadingDigits(s[1..])) as int)
    else if |s| > 0 && s[0] == '+' then DigitsValue(LeadingDigits(s[1..]))
    else DigitsValue(LeadingDigits(s))
  }

  lemma {:induction false} DigitsValueOfNat(n: nat)
    ensures DigitsValue(NatToString(n)) == n
    decreases n
  {
    if n >= 10 {
      DigitsValueOfNat(n / 10);
      var d := NatToString(n);
      assert d[..|d| - 1] == NatToString(n / 10);
    }
  }

  /** Reading back the decimal text of an integer gives that integer. */
  lemma StringToIntOfInt(i: int)
    ensures StringToInt(IntToString(i)) == i
  {
    if i < 0 {
      StringToIntOfNegative(-i);
    } else {
      StringToIntOfNat(i);
    }
  }

  lemma StringToIntOfNat(n: nat)
    ensures StringToInt(NatToString(n)) == n
  {
    var d := NatToString(n);
    assert IsDigit(d[0]);
    assert LeadingDigits(d) == d;
    DigitsValueOfNat(n);
  }

  lemma StringToIntOfNegative(n: nat)
    requires n > 0
    ensures StringToInt("-" + NatToString(n)) == -(n as int)
  {
    var d := NatToString(n);
    assert ("-" + d)[1..] == d;
    assert LeadingDigits(d) == d;
    DigitsValueOfNat(n);
  }
}
