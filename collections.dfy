/**
 * The collection methods colgen emits, as they appear in
 * examples/main_colgen.go for `NewsList` and `Tags`: an ordered field
 * projection, last-write-wins indexes, grouping, and set-based
 * de-duplication. Each method is written once, over an element type and the
 * field accessor the template fills in; the News and Tag records show the
 * instances.
 */
module Collections {
  import opened Seqs

  datatype Tag = Tag(id: int, name: string)

  datatype News = News(id: int, title: string, url: string, tagIDs: seq<int>, tags: seq<Tag>)

  function NewsID(n: News): int
  {
    n.id
  }

  function NewsTitle(n: News): string
  {
    n.title
  }

  function NewsTagIDs(n: News): seq<int>
  {
    n.tagIDs
  }

  function TagID(t: Tag): int
  {
    t.id
  }

  /** IDs: one value per element, in order, filled slot by slot. */
  method FieldValues<T, V(0)>(ll: seq<T>, field: T -> V) returns (r: seq<V>)
    ensures |r| == |ll| && forall i :: 0 <= i < |ll| ==> r[i] == field(ll[i])
  {
    var a := new V[|ll|];
    for i := 0 to |ll|
      invariant forall k :: 0 <= k < i ==> a[k] == field(ll[k])
    {
      a[i] := field(ll[i]);
    }
    r := a[..];
  }

  /**
   * Index / IndexByTitle: every occurring key and no other is indexed, and
   * a key maps to the last element carrying it.
   */
  method Index<T, K>(ll: seq<T>, key: T -> K) returns (r: map<K, T>)
    ensures r == LastWins(ll, key, Identity)
    ensures r.Keys == KeysOf(ll, key)
    ensures forall i :: 0 <= i < |ll| && (forall j :: i < j < |ll| ==> key(ll[j]) != key(ll[i])) ==>
      key(ll[i]) in r && r[key(ll[i])] == ll[i]
  {
    r := map[];
    for i := 0 to |ll|
      invariant r == LastWins(ll[..i], key, Identity)
    {
      assert ll[..i + 1][..i] == ll[..i];
      r := r[key(ll[i]) := ll[i]];
    }
    assert ll[..|ll|] == ll;
    LastWinsKeys(ll, key, Identity);
    forall i | 0 <= i < |ll| && (forall j :: i < j < |ll| ==> key(ll[j]) != key(ll[i]))
      ensures key(ll[i]) in r && r[key(ll[i])] == ll[i]
    {
      LastWinsValue(ll, key, Identity, i);
    }
  }

  /**
   * GroupByTitle: the groups exist exactly for the occurring keys, and each
   * holds the elements with its key in input order.
   */
  method GroupBy<T, K>(ll: seq<T>, key: T -> K) returns (r: map<K, seq<T>>)
    ensures r == Groups(ll, key)
    ensures r.Keys == KeysOf(ll, key)
    ensures forall k :: k in r ==> r[k] == Filter(ll, key, k)
  {
    r := map[];
    for i := 0 to |ll|
      invariant r == Groups(ll[..i], key)
    {
      assert ll[..i + 1][..i] == ll[..i];
      var k := key(ll[i]);
      r := r[k := (if k in r then r[k] else []) + [ll[i]]];
    }
    assert ll[..|ll|] == ll;
    GroupsAreFilters(ll, key);
  }

  /** The key set a loop `if _, ok := idx[k]; !ok { idx[k] = struct{}{} }` over the elements builds. */
  method KeySet<T, K(==)>(ll: seq<T>, key: T -> K) returns (idx: set<K>)
    ensures idx == KeysOf(ll, key)
  {
    idx := {};
    for i := 0 to |ll|
      invariant idx == KeysOf(ll[..i], key)
    {
      assert ll[..i + 1][..i] == ll[..i];
      KeysOfSnoc(ll[..i + 1], key);
      if key(ll[i]) !in idx {
        idx := idx + {key(ll[i])};
      }
    }
    assert ll[..|ll|] == ll;
  }

  /**
   * The second half of the Unique methods: every key copied into a slice of
   * the set's size with a running counter, in whatever order the map hands
   * them out. The slice holds each key exactly once.
   */
  method SetToSlice<K(==,0)>(idx: set<K>) returns (r: seq<K>)
    ensures |r| == |idx| && Distinct(r)
    ensures forall k :: k in r <==> k in idx
  {
    var a := new K[|idx|];
    var i := 0;
    var rest := idx;
    while rest != {}
      invariant rest <= idx && i + |rest| == |idx|
      invariant forall k :: k in a[..i] <==> k in idx && k !in rest
      invariant Distinct(a[..i])
      decreases |rest|
    {
      var k :| k in rest;
      ghost var prefix := a[..i];
      a[i] := k;
      assert a[..i + 1] == prefix + [k];
      i := i + 1;
      rest := rest - {k};
    }
    r := a[..];
  }

  /** UniqueTitles: each occurring key once, in unspecified order. */
  method UniqueKeys<T, K(==,0)>(ll: seq<T>, key: T -> K) returns (r: seq<K>)
    ensures Distinct(r)
    ensures forall k :: k in r <==> k in KeysOf(ll, key)
    ensures |r| == |KeysOf(ll, key)|
  {
    var idx := KeySet(ll, key);
    r := SetToSlice(idx);
  }

  function Elems<V>(vs: seq<V>): set<V>
  {
    set i | 0 <= i < |vs| :: vs[i]
  }

  /** The values held in a sequence-valued field of any element. */
  function ValuesOf<T, V>(ll: seq<T>, vals: T -> seq<V>): set<V>
  {
    if ll == [] then {}
    else ValuesOf(ll[..|ll| - 1], vals) + Elems(vals(ll[|ll| - 1]))
  }

  /** A value is collected exactly when some element holds it. */
  lemma {:induction false} ValuesOfMeaning<T, V>(ll: seq<T>, vals: T -> seq<V>, v: V)
    ensures v in ValuesOf(ll, vals) <==> exists i :: 0 <= i < |ll| && v in vals(ll[i])
  {
    if ll != [] {
      var n := |ll| - 1;
      ValuesOfMeaning(ll[..n], vals, v);
      if v in ValuesOf(ll[..n], vals) {
        var i :| 0 <= i < n && v in vals(ll[..n][i]);
        assert v in vals(ll[i]);
      }
      if exists i :: 0 <= i < |ll| && v in vals(ll[i]) {
        var i :| 0 <= i < |ll| && v in vals(ll[i]);
        if i < n {
          assert v in vals(ll[..n][i]);
        }
      }
    }
  }

  /** The first half of UniqueTagIDs: every value of every element, inserted once. */
  method ValueSet<T, V(==)>(ll: seq<T>, vals: T -> seq<V>) returns (idx: set<V>)
    ensures idx == ValuesOf(ll, vals)
  {
    idx := {};
    for i := 0 to |ll|
      invariant idx == ValuesOf(ll[..i], vals)
    {
      assert ll[..i + 1][..i] == ll[..i];
      var vs := vals(ll[i]);
      for j := 0 to |vs|
        invariant idx == ValuesOf(ll[..i], vals) + Elems(vs[..j])
      {
        assert vs[..j + 1] == vs[..j] + [vs[j]];
        if vs[j] !in idx {
          idx := idx + {vs[j]};
        }
      }
      assert vs[..|vs|] == vs;
    }
    assert ll[..|ll|] == ll;
  }

  /** UniqueTagIDs: each value held by some element, once, in unspecified order. */
  method UniqueValues<T, V(==,0)>(ll: seq<T>, vals: T -> seq<V>) returns (r: seq<V>)
    ensures Distinct(r)
    ensures forall v :: v in r <==> exists i :: 0 <= i < |ll| && v in vals(ll[i])
  {
    var idx := ValueSet(ll, vals);
    r := SetToSlice(idx);
    forall v
      ensures v in r <==> exists i :: 0 <= i < |ll| && v in vals(ll[i])
    {
      ValuesOfMeaning(ll, vals, v);
    }
  }

  /** Two news items sharing a title: IndexByTitle keeps the later one. */
  lemma IndexByTitleExample(a: News, b: News)
    requires a.title == b.title
    ensures LastWins([a, b], NewsTitle, Identity) == map[a.title := b]
  {
    assert [a, b][..1] == [a];
    assert [a][..0] == [];
    assert LastWins([a], NewsTitle, Identity) == map[a.title := a];
  }

  /** Two news items with different IDs: Index keeps both. */
  lemma IndexByIDExample(a: News, b: News)
    requires a.id != b.id
    ensures LastWins([a, b], NewsID, Identity) == map[a.id := a, b.id := b]
  {
    assert [a, b][..1] == [a];
    assert [a][..0] == [];
    assert LastWins([a], NewsID, Identity) == map[a.id := a];
  }

  /** Two tags sharing an ID: the Tags Index keeps the later one. */
  lemma TagIndexExample(t: Tag, u: Tag)
    requires t.id == u.id
    ensures LastWins([t, u], TagID, Identity) == map[t.id := u]
  {
    assert [t, u][..1] == [t];
    assert [t][..0] == [];
    assert LastWins([t], TagID, Identity) == map[t.id := t];
  }

  /** UniqueTagIDs over tag lists [1, 2] and [2, 3] collects 1, 2 and 3. */
  lemma UniqueTagIDsExample(a: News, b: News)
    requires a.tagIDs == [1, 2] && b.tagIDs == [2, 3]
    ensures ValuesOf([a, b], NewsTagIDs) == {1, 2, 3}
  {
    forall v
      ensures v in ValuesOf([a, b], NewsTagIDs) <==> v in {1, 2, 3}
    {
      ValuesOfMeaning([a, b], NewsTagIDs, v);
      assert [a, b][0] == a && [a, b][1] == b;
    }
  }
}
