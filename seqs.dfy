/**
 * Generic facts about sequences and maps shared by the directive merge, the
 * field model and the emitted collection methods: a last-write-wins index,
 * order-preserving grouping, and the sort that `slices.SortFunc` and
 * `sort.Strings` perform.
 */
module Seqs {
  import opened Wrappers
  import opened Strings

  /** The element itself, as a key or a value. */
  function Identity<T>(x: T): T
  {
    x
  }

  /** The set of keys that occur in `s`. */
  function KeysOf<T, K(==)>(s: seq<T>, key: T -> K): set<K>
  {
    set i | 0 <= i < |s| :: key(s[i])
  }

  /**
   * The map a loop `m[key(x)] = val(x)` over `s` builds: a later element
   * overwrites an earlier one with the same key.
   */
  function LastWins<T, K(==), V>(s: seq<T>, key: T -> K, val: T -> V): map<K, V>
  {
    if s == [] then map[]
    else LastWins(s[..|s| - 1], key, val)[key(s[|s| - 1]) := val(s[|s| - 1])]
  }

  lemma KeysOfSnoc<T, K>(s: seq<T>, key: T -> K)
    requires s != []
    ensures KeysOf(s, key) == KeysOf(s[..|s| - 1], key) + {key(s[|s| - 1])}
  {
    var n := |s| - 1;
    assert forall i :: 0 <= i < n ==> s[..n][i] == s[i];
    forall k | k in KeysOf(s, key) ensures k in KeysOf(s[..n], key) + {key(s[n])} {
      var i :| 0 <= i < |s| && key(s[i]) == k;
      if i < n { assert key(s[..n][i]) == k; }
    }
  }

  /** Exactly the keys that occur are indexed. */
  lemma {:induction false} LastWinsKeys<T, K, V>(s: seq<T>, key: T -> K, val: T -> V)
    ensures LastWins(s, key, val).Keys == KeysOf(s, key)
  {
    if s != [] {
      LastWinsKeys(s[..|s| - 1], key, val);
      KeysOfSnoc(s, key);
    }
  }

  /** The value at a key comes from the last element carrying that key. */
  lemma {:induction false} LastWinsValue<T, K, V>(s: seq<T>, key: T -> K, val: T -> V, i: nat)
    requires i < |s|
    requires forall j :: i < j < |s| ==> key(s[j]) != key(s[i])
    ensures key(s[i]) in LastWins(s, key, val)
    ensures LastWins(s, key, val)[key(s[i])] == val(s[i])
  {
    var n := |s| - 1;
    if i < n {
      LastWinsValue(s[..n], key, val, i);
    }
  }

  /** The elements of `s` whose key is `k`, in their original order. */
  function Filter<T, K(==)>(s: seq<T>, key: T -> K, k: K): (r: seq<T>)
    ensures |r| <= |s|
    ensures forall x :: x in r ==> x in s && key(x) == k
  {
    if s == [] then []
    else
      var n := |s| - 1;
      Filter(s[..n], key, k) + (if key(s[n]) == k then [s[n]] else [])
  }

  /** The map a loop `m[key(x)] = append(m[key(x)], x)` over `s` builds. */
  function Groups<T, K(==)>(s: seq<T>, key: T -> K): map<K, seq<T>>
  {
    if s == [] then map[]
    else
      var n := |s| - 1;
      var m := Groups(s[..n], key);
      var k := key(s[n]);
      m[k := (if k in m then m[k] else []) + [s[n]]]
  }

  /** Each group is the in-order subsequence of the elements with its key, and groups exist exactly for occurring keys. */
  lemma {:induction false} GroupsAreFilters<T, K>(s: seq<T>, key: T -> K)
    ensures Groups(s, key).Keys == KeysOf(s, key)
    ensures forall k :: k in Groups(s, key) ==> Groups(s, key)[k] == Filter(s, key, k)
  {
    if s != [] {
      var n := |s| - 1;
      GroupsAreFilters(s[..n], key);
      KeysOfSnoc(s, key);
      var m := Groups(s[..n], key);
      var g := Groups(s, key);
      forall k | k in g ensures g[k] == Filter(s, key, k) {
        if k == key(s[n]) {
          if k !in m { FilterAbsent(s[..n], key, k); }
          assert g[k] == Filter(s[..n], key, k) + [s[n]];
        } else {
          assert g[k] == m[k];
        }
      }
    }
  }

  lemma {:induction false} FilterAbsent<T, K>(s: seq<T>, key: T -> K, k: K)
    requires k !in KeysOf(s, key)
    ensures Filter(s, key, k) == []
  {
    if s != [] {
      KeysOfSnoc(s, key);
      FilterAbsent(s[..|s| - 1], key, k);
    }
  }

  /** The total length of the groups for the keys `ks`. */
  function SumOfLengths<T, K(==)>(s: seq<T>, key: T -> K, ks: seq<K>): nat
  {
    if ks == [] then 0 else |Filter(s, key, ks[0])| + SumOfLengths(s, key, ks[1..])
  }

  predicate Distinct<K(==)>(ks: seq<K>)
  {
    forall i, j :: 0 <= i < j < |ks| ==> ks[i] != ks[j]
  }

  /** Appending one element adds one to exactly one group among distinct keys. */
  lemma {:induction false} SumOfLengthsSnoc<T, K>(s: seq<T>, x: T, key: T -> K, ks: seq<K>)
    requires Distinct(ks)
    ensures SumOfLengths(s + [x], key, ks) == SumOfLengths(s, key, ks) + (if key(x) in ks then 1 else 0)
  {
    if ks != [] {
      assert (s + [x])[..|s|] == s;
      assert Distinct(ks[1..]) by {
        forall i, j | 0 <= i < j < |ks[1..]| ensures ks[1..][i] != ks[1..][j] {
          assert ks[1..][i] == ks[i + 1] && ks[1..][j] == ks[j + 1];
        }
      }
      forall j | 0 <= j < |ks[1..]| ensures ks[1..][j] != ks[0] {
        assert ks[1..][j] == ks[j + 1];
      }
      assert key(x) in ks <==> key(x) == ks[0] || key(x) in ks[1..];
      SumOfLengthsSnoc(s, x, key, ks[1..]);
    }
  }

  /** Grouping loses and duplicates nothing: the group sizes over the distinct occurring keys add up to |s|. */
  lemma {:induction false} GroupSizesSum<T, K>(s: seq<T>, key: T -> K, ks: seq<K>)
    requires Distinct(ks)
    requires forall i :: 0 <= i < |s| ==> key(s[i]) in ks
    ensures SumOfLengths(s, key, ks) == |s|
  {
    if s == [] {
      SumOfLengthsEmpty(key, ks);
    } else {
      var n := |s| - 1;
      assert s == s[..n] + [s[n]];
      GroupSizesSum(s[..n], key, ks);
      SumOfLengthsSnoc(s[..n], s[n], key, ks);
    }
  }

  lemma {:induction false} SumOfLengthsEmpty<T, K>(key: T -> K, ks: seq<K>)
    ensures SumOfLengths([], key, ks) == 0
  {
    if ks != [] { SumOfLengthsEmpty(key, ks[1..]); }
  }

  predicate LessEq(a: string, b: string)
  {
    a == b || Less(a, b)
  }

  ghost predicate SortedBy<T>(s: seq<T>, key: T -> string)
  {
    forall i, j :: 0 <= i < j < |s| ==> LessEq(key(s[i]), key(s[j]))
  }

  ghost predicate StrictlySortedBy<T>(s: seq<T>, key: T -> string)
  {
    forall i, j :: 0 <= i < j < |s| ==> Less(key(s[i]), key(s[j]))
  }

  predicate DistinctKeys<T>(s: seq<T>, key: T -> string)
  {
    forall i, j :: 0 <= i < j < |s| ==> key(s[i]) != key(s[j])
  }

  /** Inserting before the first element that is not below `x` keeps a sorted sequence sorted. */
  lemma InsertKeepsSorted<T>(r: seq<T>, j: nat, x: T, key: T -> string)
    requires j <= |r| && SortedBy(r, key)
    requires forall k :: 0 <= k < j ==> Less(key(r[k]), key(x))
    requires j < |r| ==> !Less(key(r[j]), key(x))
    ensures SortedBy(r[..j] + [x] + r[j..], key)
  {
    var t := r[..j] + [x] + r[j..];
    if j < |r| { LessTotal(key(r[j]), key(x)); }
    forall a, b | 0 <= a < b < |t| ensures LessEq(key(t[a]), key(t[b])) {
      if a == j {
        assert t[b] == r[b - 1];
        if b - 1 > j { assert LessEq(key(r[j]), key(r[b - 1])); }
        if Less(key(x), key(r[j])) && Less(key(r[j]), key(r[b - 1])) {
          LessTransitive(key(x), key(r[j]), key(r[b - 1]));
        }
      } else if b == j {
        assert t[a] == r[a];
      } else {
        var a' := if a < j then a else a - 1;
        var b' := if b < j then b else b - 1;
        assert t[a] == r[a'] && t[b] == r[b'];
      }
    }
  }

  /** Inserting an element with a fresh key keeps the keys distinct. */
  lemma InsertKeepsDistinct<T>(r: seq<T>, j: nat, x: T, key: T -> string)
    requires j <= |r| && DistinctKeys(r, key)
    requires forall k :: 0 <= k < |r| ==> key(r[k]) != key(x)
    ensures DistinctKeys(r[..j] + [x] + r[j..], key)
  {
    var t := r[..j] + [x] + r[j..];
    forall a, b | 0 <= a < b < |t| ensures key(t[a]) != key(t[b]) {
      var a' := if a < j then a else a - 1;
      var b' := if b < j then b else b - 1;
      if a != j && b != j { assert t[a] == r[a'] && t[b] == r[b']; }
      else if a == j { assert t[b] == r[b']; }
      else { assert t[a] == r[a']; }
    }
  }

  /** One insertion step keeps the sort's loop invariant. */
  lemma InsertStep<T>(s: seq<T>, i: nat, r: seq<T>, j: nat, key: T -> string)
    requires i < |s| && j <= |r|
    requires multiset(r) == multiset(s[..i])
    requires SortedBy(r, key)
    requires DistinctKeys(s, key) ==> DistinctKeys(r, key)
    requires forall k :: 0 <= k < j ==> Less(key(r[k]), key(s[i]))
    requires j < |r| ==> !Less(key(r[j]), key(s[i]))
    ensures multiset(r[..j] + [s[i]] + r[j..]) == multiset(s[..i + 1])
    ensures SortedBy(r[..j] + [s[i]] + r[j..], key)
    ensures DistinctKeys(s, key) ==> DistinctKeys(r[..j] + [s[i]] + r[j..], key)
  {
    var x := s[i];
    InsertKeepsSorted(r, j, x, key);
    if DistinctKeys(s, key) {
      forall k | 0 <= k < |r| ensures key(r[k]) != key(x) {
        assert r[k] in multiset(s[..i]);
        var m :| 0 <= m < i && s[..i][m] == r[k];
        assert s[m] == r[k];
      }
      InsertKeepsDistinct(r, j, x, key);
    }
    assert r == r[..j] + r[j..];
    assert s[..i + 1] == s[..i] + [x];
  }

  /** Sorted with distinct keys means strictly ascending. */
  lemma SortedDistinctStrict<T>(r: seq<T>, key: T -> string)
    requires SortedBy(r, key) && DistinctKeys(r, key)
    ensures StrictlySortedBy(r, key)
  {
  }

  /**
   * Insertion sort by a string key: a permutation of `s` in ascending key
   * order, strictly ascending when the keys are distinct.
   */
  method SortBy<T(==)>(s: seq<T>, key: T -> string) returns (r: seq<T>)
    ensures multiset(r) == multiset(s)
    ensures SortedBy(r, key)
    ensures DistinctKeys(s, key) ==> StrictlySortedBy(r, key)
  {
    r := [];
    var i := 0;
    while i < |s|
      invariant 0 <= i <= |s|
      invariant multiset(r) == multiset(s[..i])
      invariant SortedBy(r, key)
      invariant DistinctKeys(s, key) ==> DistinctKeys(r, key)
    {
      var j := 0;
      while j < |r| && Less(key(r[j]), key(s[i]))
        invariant 0 <= j <= |r|
        invariant forall k :: 0 <= k < j ==> Less(key(r[k]), key(s[i]))
      {
        j := j + 1;
      }
      InsertStep(s, i, r, j, key);
      r := r[..j] + [s[i]] + r[j..];
      i := i + 1;
    }
    assert s[..i] == s;
    if DistinctKeys(s, key) { SortedDistinctStrict(r, key); }
  }

  /** The position of the first element on which `f` fails. */
  function FirstFailure<A, B, E>(xs: seq<A>, f: A -> Result<B, E>): (k: nat)
    requires exists i :: 0 <= i < |xs| && f(xs[i]).Failure?
    ensures k < |xs| && f(xs[k]).Failure?
    ensures forall j :: 0 <= j < k ==> f(xs[j]).Success?
  {
    if f(xs[0]).Failure? then 0
    else
      var i :| 0 <= i < |xs| && f(xs[i]).Failure?;
      assert xs[1..][i - 1] == xs[i];
      var k := FirstFailure(xs[1..], f);
      assert forall j :: 1 <= j < k + 1 ==> xs[j] == xs[1..][j - 1];
      k + 1
  }

  /** `f` applied to every element, stopping at the first failure. */
  function MapAll<A, B, E>(xs: seq<A>, f: A -> Result<B, E>): (r: Result<seq<B>, E>)
    ensures r.Success? <==> forall k :: 0 <= k < |xs| ==> f(xs[k]).Success?
    ensures r.Success? ==> |r.value| == |xs| && forall k :: 0 <= k < |xs| ==> r.value[k] == f(xs[k]).value
    ensures r.Failure? ==> r.error == f(xs[FirstFailure(xs, f)]).error
  {
    if xs == [] then Success([])
    else
      var rest := MapAll(xs[1..], f);
      assert forall k :: 1 <= k < |xs| ==> xs[k] == xs[1..][k - 1];
      if f(xs[0]).Failure? then Failure(f(xs[0]).error)
      else if rest.Failure? then
        assert FirstFailure(xs, f) == FirstFailure(xs[1..], f) + 1;
        Failure(rest.error)
      else Success([f(xs[0]).value] + rest.value)
  }

  /** The first element on which `f` reports something, with what it reports. */
  function FirstSome<A, E>(xs: seq<A>, f: A -> Option<E>): Option<(A, E)>
  {
    if xs == [] then None
    else if f(xs[0]).Some? then Some((xs[0], f(xs[0]).value))
    else FirstSome(xs[1..], f)
  }

  /** Something is reported exactly when some element reports it. */
  lemma {:induction false} FirstSomeExists<A, E>(xs: seq<A>, f: A -> Option<E>)
    ensures FirstSome(xs, f).Some? <==> exists k :: 0 <= k < |xs| && f(xs[k]).Some?
  {
    if xs != [] && f(xs[0]).None? {
      FirstSomeExists(xs[1..], f);
      assert forall k :: 1 <= k < |xs| ==> xs[k] == xs[1..][k - 1];
    }
  }

  /** What is reported is the report of the first element that has one. */
  lemma {:induction false} FirstSomeAt<A, E>(xs: seq<A>, f: A -> Option<E>, k: nat)
    requires k < |xs| && f(xs[k]).Some?
    requires forall j :: 0 <= j < k ==> f(xs[j]).None?
    ensures FirstSome(xs, f) == Some((xs[k], f(xs[k]).value))
  {
    if k > 0 {
      assert xs[1..][k - 1] == xs[k];
      assert forall j :: 0 <= j < k - 1 ==> xs[1..][j] == xs[j + 1];
      FirstSomeAt(xs[1..], f, k - 1);
    }
  }

  /** The outputs of `f` on every element, concatenated, stopping at the first failure. */
  function ConcatAll<A, B, E>(xs: seq<A>, f: A -> Result<seq<B>, E>): (r: Result<seq<B>, E>)
    ensures r.Success? <==> forall k :: 0 <= k < |xs| ==> f(xs[k]).Success?
    ensures r.Failure? ==> r.error == f(xs[FirstFailure(xs, f)]).error
  {
    if xs == [] then Success([])
    else
      var rest := ConcatAll(xs[1..], f);
      assert forall k :: 1 <= k < |xs| ==> xs[k] == xs[1..][k - 1];
      if f(xs[0]).Failure? then Failure(f(xs[0]).error)
      else if rest.Failure? then
        assert FirstFailure(xs, f) == FirstFailure(xs[1..], f) + 1;
        Failure(rest.error)
      else Success(f(xs[0]).value + rest.value)
  }

  /** A successful concatenation holds exactly the elements of the pieces. */
  lemma {:induction false} ConcatAllMembers<A, B, E>(xs: seq<A>, f: A -> Result<seq<B>, E>, y: B)
    requires ConcatAll(xs, f).Success?
    ensures y in ConcatAll(xs, f).value <==> exists k :: 0 <= k < |xs| && y in f(xs[k]).value
  {
    if xs != [] {
      ConcatAllMembers(xs[1..], f, y);
      assert forall k :: 1 <= k < |xs| ==> xs[k] == xs[1..][k - 1];
      if y in ConcatAll(xs, f).value && y !in f(xs[0]).value {
        var k :| 0 <= k < |xs[1..]| && y in f(xs[1..][k]).value;
        assert y in f(xs[k + 1]).value;
      }
    }
  }

  /** One more succeeding element extends a successful MapAll. */
  lemma MapAllSnoc<A, B, E>(xs: seq<A>, x: A, f: A -> Result<B, E>, ys: seq<B>)
    requires MapAll(xs, f) == Success(ys) && f(x).Success?
    ensures MapAll(xs + [x], f) == Success(ys + [f(x).value])
  {
    var zs := xs + [x];
    assert forall k :: 0 <= k < |xs| ==> zs[k] == xs[k];
    MapAllSuccess(zs, f, ys + [f(x).value]);
  }

  /** The step of a loop that maps a prefix: the next element's result is appended. */
  lemma MapAllPrefixStep<A, B, E>(xs: seq<A>, i: nat, f: A -> Result<B, E>, ys: seq<B>)
    requires i < |xs| && MapAll(xs[..i], f) == Success(ys) && f(xs[i]).Success?
    ensures MapAll(xs[..i + 1], f) == Success(ys + [f(xs[i]).value])
  {
    assert xs[..i + 1] == xs[..i] + [xs[i]];
    MapAllSnoc(xs[..i], xs[i], f, ys);
  }

  /** Overwriting slot `i` extends the prefix by the new value and keeps the suffix. */
  lemma OverwriteStep<T>(s: seq<T>, i: nat, v: T)
    requires i < |s|
    ensures s[i := v][..i + 1] == s[..i] + [v] && s[i := v][i + 1..] == s[i + 1..]
  {
  }

  /** MapAll fails with the error of the first failing element, whatever follows it. */
  lemma MapAllStop<A, B, E>(xs: seq<A>, f: A -> Result<B, E>, i: nat)
    requires i < |xs| && MapAll(xs[..i], f).Success? && f(xs[i]).Failure?
    ensures MapAll(xs, f) == Failure(f(xs[i]).error)
  {
    assert forall k :: 0 <= k < i ==> xs[..i][k] == xs[k];
    assert FirstFailure(xs, f) == i;
  }

  /** The loop `for x in xs { y, err := f(x); if err != nil { return nil, err }; ys = append(ys, y) }`. */
  method CollectAll<A, B, E>(xs: seq<A>, f: A -> Result<B, E>) returns (r: Result<seq<B>, E>)
    ensures r == MapAll(xs, f)
  {
    var ys: seq<B> := [];
    for i := 0 to |xs|
      invariant MapAll(xs[..i], f) == Success(ys)
    {
      var y := f(xs[i]);
      if y.Failure? {
        MapAllStop(xs, f, i);
        return Failure(y.error);
      }
      assert xs[..i + 1] == xs[..i] + [xs[i]];
      MapAllSnoc(xs[..i], xs[i], f, ys);
      ys := ys + [y.value];
    }
    assert xs[..|xs|] == xs;
    return Success(ys);
  }

  /** MapAll succeeds with the pointwise results when every element succeeds. */
  lemma MapAllSuccess<A, B, E>(xs: seq<A>, f: A -> Result<B, E>, ys: seq<B>)
    requires |ys| == |xs| && forall k :: 0 <= k < |xs| ==> f(xs[k]) == Success(ys[k])
    ensures MapAll(xs, f) == Success(ys)
  {
    var r := MapAll(xs, f);
    assert r.Success?;
    assert r.value == ys;
  }

  /** Only the empty sequence has no keys. */
  lemma KeysOfEmpty<T, K>(s: seq<T>, key: T -> K)
    ensures KeysOf(s, key) == {} <==> s == []
  {
    if s != [] {
      assert key(s[0]) in KeysOf(s, key);
    }
  }

  /** Every element carrying the key is kept by the filter. */
  lemma {:induction false} FilterKeeps<T, K>(s: seq<T>, key: T -> K, i: nat)
    requires i < |s|
    ensures s[i] in Filter(s, key, key(s[i]))
  {
    var n := |s| - 1;
    if i < n {
      FilterKeeps(s[..n], key, i);
    }
  }

  /** The filter for an occurring key is not empty. */
  lemma FilterPresent<T, K>(s: seq<T>, key: T -> K, k: K)
    requires k in KeysOf(s, key)
    ensures Filter(s, key, k) != []
  {
    var i :| 0 <= i < |s| && key(s[i]) == k;
    FilterKeeps(s, key, i);
  }

  /** Filtering after an appended element. */
  lemma FilterSnoc<T, K>(s: seq<T>, key: T -> K, k: K)
    requires s != []
    ensures Filter(s, key, k) == Filter(s[..|s| - 1], key, k) + (if key(s[|s| - 1]) == k then [s[|s| - 1]] else [])
  {
  }

  /** The first element of a strictly sorted sequence is below every other key in it. */
  lemma StrictMin<T>(a: seq<T>, key: T -> string, k: string)
    requires StrictlySortedBy(a, key) && k in KeysOf(a, key)
    ensures a != [] && (k == key(a[0]) || Less(key(a[0]), k))
  {
    var i :| 0 <= i < |a| && key(a[i]) == k;
  }

  /** Dropping the first element of a strictly sorted sequence drops exactly its key. */
  lemma StrictTail<T>(a: seq<T>, key: T -> string)
    requires StrictlySortedBy(a, key) && a != []
    ensures StrictlySortedBy(a[1..], key)
    ensures KeysOf(a[1..], key) == KeysOf(a, key) - {key(a[0])}
  {
    forall k | k in KeysOf(a, key) - {key(a[0])} ensures k in KeysOf(a[1..], key) {
      var i :| 0 <= i < |a| && key(a[i]) == k;
      assert key(a[1..][i - 1]) == k;
    }
    forall k | k in KeysOf(a[1..], key) ensures k in KeysOf(a, key) - {key(a[0])} {
      var i :| 0 <= i < |a[1..]| && key(a[1..][i]) == k;
      assert a[1..][i] == a[i + 1];
      LessIrreflexive(key(a[0]));
    }
  }

  /** Two strictly sorted sequences over the same keys list the keys identically. */
  lemma {:induction false} StrictSortedKeysEqual<T>(a: seq<T>, b: seq<T>, key: T -> string)
    requires StrictlySortedBy(a, key) && StrictlySortedBy(b, key)
    requires KeysOf(a, key) == KeysOf(b, key)
    ensures |a| == |b| && forall i :: 0 <= i < |a| ==> key(a[i]) == key(b[i])
  {
    if a != [] {
      assert key(a[0]) in KeysOf(a, key);
      StrictMin(b, key, key(a[0]));
      StrictMin(a, key, key(b[0]));
      LessAsymmetricBoth(key(a[0]), key(b[0]));
      StrictTail(a, key);
      StrictTail(b, key);
      StrictSortedKeysEqual(a[1..], b[1..], key);
      forall i | 0 <= i < |a| ensures key(a[i]) == key(b[i]) {
        if i > 0 {
          assert key(a[1..][i - 1]) == key(b[1..][i - 1]);
        }
      }
    } else {
      KeysOfEmpty(b, key);
    }
  }

  /** `p` followed by the value of a successful result; a failure stays a failure. */
  function Prepend<B, E>(p: seq<B>, r: Result<seq<B>, E>): Result<seq<B>, E>
  {
    match r
    case Success(v) => Success(p + v)
    case Failure(e) => Failure(e)
  }

  /** ConcatAll over a suffix, one element at a time. */
  lemma ConcatAllStep<A, B, E>(xs: seq<A>, f: A -> Result<seq<B>, E>, i: nat)
    requires i < |xs|
    ensures f(xs[i]).Failure? ==> ConcatAll(xs[i..], f) == Failure(f(xs[i]).error)
    ensures f(xs[i]).Success? ==> ConcatAll(xs[i..], f) == Prepend(f(xs[i]).value, ConcatAll(xs[i + 1..], f))
  {
    assert xs[i..][0] == xs[i];
    assert xs[i..][1..] == xs[i + 1..];
  }

  lemma PrependNothing<B, E>(r: Result<seq<B>, E>)
    ensures Prepend([], r) == r
  {
    if r.Success? {
      assert [] + r.value == r.value;
    }
  }

  lemma PrependAssoc<B, E>(p: seq<B>, q: seq<B>, r: Result<seq<B>, E>)
    ensures Prepend(p, Prepend(q, r)) == Prepend(p + q, r)
  {
    if r.Success? {
      assert p + (q + r.value) == (p + q) + r.value;
    }
  }

  /** In a sequence without repeated keys each key filters to its one element. */
  lemma {:induction false} FilterDistinct<T>(s: seq<T>, key: T -> string, i: nat)
    requires i < |s| && DistinctKeys(s, key)
    ensures Filter(s, key, key(s[i])) == [s[i]]
  {
    var n := |s| - 1;
    assert DistinctKeys(s[..n], key);
    if i < n {
      FilterDistinct(s[..n], key, i);
    } else {
      forall j | 0 <= j < n ensures key(s[..n][j]) != key(s[i]) {
        assert s[..n][j] == s[j];
      }
      assert key(s[i]) !in KeysOf(s[..n], key);
      FilterAbsent(s[..n], key, key(s[i]));
    }
  }

  /** Strictly sorted keys are distinct. */
  lemma StrictDistinct<T>(s: seq<T>, key: T -> string)
    requires StrictlySortedBy(s, key)
    ensures DistinctKeys(s, key)
  {
    forall i, j | 0 <= i < j < |s| ensures key(s[i]) != key(s[j]) {
      LessIrreflexive(key(s[i]));
    }
  }
}
