/** `getSortedInterceptors`: the registry's entries ordered by ascending
    priority with `Array.prototype.sort`, which is stable, so entries of
    equal priority keep the order they had in the registry. */
module Ordering {
  import opened Types

  ghost predicate Sorted(s: seq<Registered>)
  {
    forall i, j :: 0 <= i < j < |s| ==> Key(s[i]) <= Key(s[j])
  }

  /** No two entries share an id. */
  ghost predicate DistinctIds(s: seq<Registered>)
  {
    forall i, j :: 0 <= i < j < |s| ==> s[i].config.id != s[j].config.id
  }

  /** The entries of priority `p`, in their order in `s`. A sort is stable
      exactly when it leaves this subsequence unchanged for every `p`. */
  function WithPriority(s: seq<Registered>, p: int): seq<Registered>
  {
    if s == [] then []
    else (if Key(s[0]) == p then [s[0]] else []) + WithPriority(s[1..], p)
  }

  /** Puts `e`, which precedes every entry of `s` in the input, before the
      first entry of `s` whose priority is not lower than its own. */
  function Insert(e: Registered, s: seq<Registered>): (r: seq<Registered>)
    ensures multiset(r) == multiset(s) + multiset{e}
  {
    if s == [] || Key(e) <= Key(s[0]) then [e] + s
    else
      assert s == [s[0]] + s[1..];
      [s[0]] + Insert(e, s[1..])
  }

  /** `sort((a, b) => a.priority - b.priority)` as an insertion sort; its
      properties are proved in SortByPriorityCorrect. */
  function SortByPriority(s: seq<Registered>): (r: seq<Registered>)
    ensures multiset(r) == multiset(s)
  {
    if s == [] then []
    else
      assert s == [s[0]] + s[1..];
      Insert(s[0], SortByPriority(s[1..]))
  }

  lemma InMultiset(x: Registered, s: seq<Registered>, t: seq<Registered>)
    requires multiset(s) == multiset(t)
    ensures x in s <==> x in t
  {
    assert x in s <==> x in multiset(s);
    assert x in t <==> x in multiset(t);
  }

  lemma InsertMembers(e: Registered, s: seq<Registered>)
    ensures forall x :: x in Insert(e, s) <==> x == e || x in s
  {
    forall x ensures x in Insert(e, s) <==> x == e || x in s {
      assert x in Insert(e, s) <==> x in multiset(Insert(e, s));
      assert x in s <==> x in multiset(s);
    }
  }

  lemma SortMembers(s: seq<Registered>)
    ensures forall x :: x in SortByPriority(s) <==> x in s
  {
    forall x ensures x in SortByPriority(s) <==> x in s {
      InMultiset(x, SortByPriority(s), s);
    }
  }

  lemma SortedCons(x: Registered, t: seq<Registered>)
    requires Sorted(t)
    requires forall y :: y in t ==> Key(x) <= Key(y)
    ensures Sorted([x] + t)
  {
    var r := [x] + t;
    forall i, j | 0 <= i < j < |r| ensures Key(r[i]) <= Key(r[j]) {
      assert r[j] == t[j - 1];
      if i > 0 {
        assert r[i] == t[i - 1];
      }
    }
  }

  lemma DistinctCons(x: Registered, t: seq<Registered>)
    requires DistinctIds(t)
    requires forall y :: y in t ==> y.config.id != x.config.id
    ensures DistinctIds([x] + t)
  {
    var r := [x] + t;
    forall i, j | 0 <= i < j < |r| ensures r[i].config.id != r[j].config.id {
      assert r[j] == t[j - 1];
      if i > 0 {
        assert r[i] == t[i - 1];
      }
    }
  }

  lemma DistinctTail(x: Registered, t: seq<Registered>)
    requires DistinctIds([x] + t)
    ensures DistinctIds(t)
    ensures forall y :: y in t ==> y.config.id != x.config.id
  {
    var r := [x] + t;
    forall i, j | 0 <= i < j < |t| ensures t[i].config.id != t[j].config.id {
      assert r[i + 1] == t[i] && r[j + 1] == t[j];
    }
    forall y | y in t ensures y.config.id != x.config.id {
      var k :| 0 <= k < |t| && t[k] == y;
      assert r[0] == x && r[k + 1] == y;
    }
  }

  lemma {:induction false} InsertSorted(e: Registered, s: seq<Registered>)
    requires Sorted(s)
    ensures Sorted(Insert(e, s))
  {
    if s == [] || Key(e) <= Key(s[0]) {
      forall y | y in s ensures Key(e) <= Key(y) {
        var k :| 0 <= k < |s| && s[k] == y;
        assert Key(s[0]) <= Key(s[k]);
      }
      SortedCons(e, s);
    } else {
      var tail := s[1..];
      assert Sorted(tail) by {
        forall i, j | 0 <= i < j < |tail| ensures Key(tail[i]) <= Key(tail[j]) {
          assert tail[i] == s[i + 1] && tail[j] == s[j + 1];
        }
      }
      InsertSorted(e, tail);
      InsertMembers(e, tail);
      forall y | y in Insert(e, tail) ensures Key(s[0]) <= Key(y) {
        if y != e {
          var k :| 0 <= k < |tail| && tail[k] == y;
          assert Key(s[0]) <= Key(s[k + 1]);
        }
      }
      SortedCons(s[0], Insert(e, tail));
    }
  }

  lemma {:induction false} FilterAppend(a: seq<Registered>, b: seq<Registered>, p: int)
    ensures WithPriority(a + b, p) == WithPriority(a, p) + WithPriority(b, p)
  {
    if a != [] {
      assert (a + b)[1..] == a[1..] + b;
      FilterAppend(a[1..], b, p);
    } else {
      assert a + b == b;
    }
  }

  lemma FilterSingle(x: Registered, p: int)
    ensures WithPriority([x], p) == if Key(x) == p then [x] else []
  {
    assert [x][1..] == [];
  }

  lemma FilterCons(x: Registered, t: seq<Registered>, p: int)
    ensures WithPriority([x] + t, p) == WithPriority([x], p) + WithPriority(t, p)
  {
    FilterSingle(x, p);
    assert ([x] + t)[1..] == t;
  }

  /** Inserting `e` puts it before every entry of its own priority. */
  lemma {:induction false} InsertStable(e: Registered, s: seq<Registered>, p: int)
    requires Sorted(s)
    ensures WithPriority(Insert(e, s), p) == WithPriority([e], p) + WithPriority(s, p)
  {
    if s == [] || Key(e) <= Key(s[0]) {
      FilterCons(e, s, p);
    } else {
      var tail := s[1..];
      assert Sorted(tail) by {
        forall i, j | 0 <= i < j < |tail| ensures Key(tail[i]) <= Key(tail[j]) {
          assert tail[i] == s[i + 1] && tail[j] == s[j + 1];
        }
      }
      InsertStable(e, tail, p);
      FilterCons(s[0], Insert(e, tail), p);
      FilterSingle(e, p);
      FilterSingle(s[0], p);
    }
  }

  lemma {:induction false} InsertDistinct(e: Registered, s: seq<Registered>)
    requires DistinctIds([e] + s)
    ensures DistinctIds(Insert(e, s))
  {
    if s != [] && Key(e) > Key(s[0]) {
      var tail := s[1..];
      assert s == [s[0]] + tail;
      DistinctTail(e, s);
      DistinctTail(s[0], tail);
      DistinctCons(e, tail);
      InsertDistinct(e, tail);
      InsertMembers(e, tail);
      DistinctCons(s[0], Insert(e, tail));
    }
  }

  lemma {:induction false} SortSorted(s: seq<Registered>)
    ensures Sorted(SortByPriority(s))
  {
    if s != [] {
      SortSorted(s[1..]);
      InsertSorted(s[0], SortByPriority(s[1..]));
    }
  }

  lemma {:induction false} SortStable(s: seq<Registered>, p: int)
    ensures WithPriority(SortByPriority(s), p) == WithPriority(s, p)
  {
    if s != [] {
      SortSorted(s[1..]);
      SortStable(s[1..], p);
      InsertStable(s[0], SortByPriority(s[1..]), p);
      FilterSingle(s[0], p);
    }
  }

  lemma {:induction false} SortDistinct(s: seq<Registered>)
    requires DistinctIds(s)
    ensures DistinctIds(SortByPriority(s))
  {
    if s != [] {
      var tail := s[1..];
      assert s == [s[0]] + tail;
      DistinctTail(s[0], tail);
      SortDistinct(tail);
      SortMembers(tail);
      DistinctCons(s[0], SortByPriority(tail));
      InsertDistinct(s[0], SortByPriority(tail));
    }
  }

  /** The registry's entries as the stable sort by priority leaves them:
      ordered by priority, a permutation of the input, each priority's
      entries in registry order, and no id repeated that was not repeated
      before. */
  lemma SortByPriorityCorrect(s: seq<Registered>)
    ensures Sorted(SortByPriority(s))
    ensures multiset(SortByPriority(s)) == multiset(s)
    ensures forall p :: WithPriority(SortByPriority(s), p) == WithPriority(s, p)
    ensures DistinctIds(s) ==> DistinctIds(SortByPriority(s))
  {
    SortSorted(s);
    forall p ensures WithPriority(SortByPriority(s), p) == WithPriority(s, p) {
      SortStable(s, p);
    }
    if DistinctIds(s) {
      SortDistinct(s);
    }
  }

  /** Two entries of equal priority come out in the order they went in. */
  lemma {:induction false} TiesKeepRegistryOrder(s: seq<Registered>, i: int, j: int)
    requires 0 <= i < j < |s| && Key(s[i]) == Key(s[j])
    ensures exists i', j' :: (0 <= i' < j' < |SortByPriority(s)|
      && SortByPriority(s)[i'] == s[i] && SortByPriority(s)[j'] == s[j])
  {
    var p := Key(s[i]);
    var r := SortByPriority(s);
    var a := PositionInFiltered(s, p, i);
    var b := PositionInFiltered(s, p, j);
    var f := WithPriority(s, p);
    SortStable(s, p);
    MonotonePositions(s, p, i, j);
    var i' := PositionInSource(r, p, a);
    var j' := PositionInSource(r, p, b);
    if j' < i' {
      MonotonePositions(r, p, j', i');
    }
  }

  /** The element `s[i]` of priority `p` sits in `WithPriority(s, p)` at a
      position that grows with `i`. */
  lemma {:induction false} PositionInFiltered(s: seq<Registered>, p: int, i: int) returns (a: int)
    requires 0 <= i < |s| && Key(s[i]) == p
    ensures 0 <= a < |WithPriority(s, p)| && WithPriority(s, p)[a] == s[i]
    ensures a == |WithPriority(s[..i], p)|
  {
    assert s == [s[0]] + s[1..];
    assert s[..i + 1] == s[..i] + [s[i]];
    FilterAppend(s[..i], [s[i]], p);
    FilterAppend(s[..i + 1], s[i + 1..], p);
    assert s[..i + 1] + s[i + 1..] == s;
    assert [s[i]][1..] == [];
    a := |WithPriority(s[..i], p)|;
  }

  /** The position in `s` of the `a`-th entry of priority `p`. */
  lemma {:induction false} PositionInSource(s: seq<Registered>, p: int, a: int) returns (i: int)
    requires 0 <= a < |WithPriority(s, p)|
    ensures 0 <= i < |s| && s[i] == WithPriority(s, p)[a]
    ensures a == |WithPriority(s[..i], p)|
  {
    assert s != [];
    var head := WithPriority([s[0]], p);
    FilterAppend([s[0]], s[1..], p);
    assert s == [s[0]] + s[1..];
    if Key(s[0]) == p && a == 0 {
      i := 0;
      assert s[..0] == [];
    } else {
      var i0 := PositionInSource(s[1..], p, a - |head|);
      i := i0 + 1;
      assert s[..i] == [s[0]] + s[1..][..i0];
      FilterAppend([s[0]], s[1..][..i0], p);
    }
  }

  /** Positions in the source and in the filtered sequence are ordered alike. */
  lemma {:induction false} MonotonePositions(s: seq<Registered>, p: int, i: int, j: int)
    requires 0 <= i < j < |s|
    requires Key(s[i]) == p
    ensures |WithPriority(s[..i], p)| < |WithPriority(s[..j], p)|
  {
    assert s[..j] == s[..i] + s[i..j];
    FilterAppend(s[..i], s[i..j], p);
    assert s[i..j] == [s[i]] + s[i + 1..j];
    assert [s[i]][1..] == [];
  }
}
