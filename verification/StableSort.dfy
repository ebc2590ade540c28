/** The standard library's stable sort, for a comparison given by its `Less` answers. */
module StableSort {

  /** `lt` can only be a comparison's `Less` if it is asymmetric and its complement is
      transitive. */
  ghost predicate StrictWeakOrder<T(!new)>(lt: (T, T) -> bool) {
    && (forall a, b :: lt(a, b) ==> !lt(b, a))
    && (forall a, b, c :: !lt(a, b) && !lt(b, c) ==> !lt(a, c))
  }

  predicate Sorted<T>(s: seq<T>, lt: (T, T) -> bool) {
    forall i, j :: 0 <= i < j < |s| ==> !lt(s[j], s[i])
  }

  function Insert<T>(x: T, s: seq<T>, lt: (T, T) -> bool): (r: seq<T>)
    ensures |r| == |s| + 1
  {
    if s != [] && lt(s[0], x) then [s[0]] + Insert(x, s[1..], lt) else [x] + s
  }

  function Sort<T>(s: seq<T>, lt: (T, T) -> bool): (r: seq<T>)
    ensures |r| == |s|
  {
    if s == [] then [] else Insert(s[0], Sort(s[1..], lt), lt)
  }

  lemma {:induction false} InsertPermutes<T>(x: T, s: seq<T>, lt: (T, T) -> bool)
    ensures multiset(Insert(x, s, lt)) == multiset([x] + s)
  {
    if s != [] && lt(s[0], x) {
      InsertPermutes(x, s[1..], lt);
      assert s == [s[0]] + s[1..];
    }
  }

  lemma {:induction false} SortPermutes<T>(s: seq<T>, lt: (T, T) -> bool)
    ensures multiset(Sort(s, lt)) == multiset(s)
  {
    if s != [] {
      SortPermutes(s[1..], lt);
      InsertPermutes(s[0], Sort(s[1..], lt), lt);
      assert s == [s[0]] + s[1..];
    }
  }

  /** Sorting keeps exactly the same elements. */
  lemma SortKeepsElements<T>(s: seq<T>, lt: (T, T) -> bool)
    ensures forall x :: x in Sort(s, lt) <==> x in s
  {
    SortPermutes(s, lt);
    forall x
      ensures x in Sort(s, lt) <==> x in s
    {
      assert x in Sort(s, lt) <==> x in multiset(Sort(s, lt));
      assert x in s <==> x in multiset(s);
    }
  }

  lemma SortKeepsMembers<T>(s: seq<T>, lt: (T, T) -> bool)
    ensures forall i :: 0 <= i < |Sort(s, lt)| ==> Sort(s, lt)[i] in s
    ensures forall i :: 0 <= i < |s| ==> s[i] in Sort(s, lt)
  {
    SortPermutes(s, lt);
    SameMembers(Sort(s, lt), s);
    SameMembers(s, Sort(s, lt));
  }

  lemma SameMembers<T>(a: seq<T>, b: seq<T>)
    requires multiset(a) == multiset(b)
    ensures forall i :: 0 <= i < |a| ==> a[i] in b
  {
    forall i | 0 <= i < |a|
      ensures a[i] in b
    {
      assert a[i] in multiset(a);
    }
  }

  lemma InsertElements<T>(x: T, s: seq<T>, lt: (T, T) -> bool)
    ensures forall y :: y in Insert(x, s, lt) <==> y == x || y in s
  {
    InsertPermutes(x, s, lt);
    forall y
      ensures y in Insert(x, s, lt) <==> y == x || y in s
    {
      assert y in Insert(x, s, lt) <==> y in multiset(Insert(x, s, lt));
      assert y in multiset([x] + s) <==> y in [x] + s;
    }
  }

  lemma {:induction false} InsertSorts<T(!new)>(x: T, s: seq<T>, lt: (T, T) -> bool)
    requires StrictWeakOrder(lt) && Sorted(s, lt)
    ensures Sorted(Insert(x, s, lt), lt)
  {
    var r := Insert(x, s, lt);
    if s != [] && lt(s[0], x) {
      var tail := Insert(x, s[1..], lt);
      InsertSorts(x, s[1..], lt);
      InsertElements(x, s[1..], lt);
      forall i, j | 0 <= i < j < |r|
        ensures !lt(r[j], r[i])
      {
        assert r[j] == tail[j - 1];
        assert tail[j - 1] in tail;
        assert i > 0 ==> r[i] == tail[i - 1];
      }
    } else {
      forall i, j | 0 <= i < j < |r|
        ensures !lt(r[j], r[i])
      {
        assert r[j] == s[j - 1];
        if i == 0 {
          assert !lt(s[0], x) && (j > 1 ==> !lt(s[j - 1], s[0]));
        } else {
          assert r[i] == s[i - 1];
        }
      }
    }
  }

  lemma {:induction false} SortSorts<T(!new)>(s: seq<T>, lt: (T, T) -> bool)
    requires StrictWeakOrder(lt)
    ensures Sorted(Sort(s, lt), lt)
  {
    if s != [] {
      SortSorts(s[1..], lt);
      InsertSorts(s[0], Sort(s[1..], lt), lt);
    }
  }

  /** Either strictly smaller, or not larger and earlier. */
  ghost predicate StableBefore<T(!new)>(lt: (T, T) -> bool, earlier: (T, T) -> bool, a: T, b: T) {
    lt(a, b) || (!lt(b, a) && earlier(a, b))
  }

  ghost predicate Stable<T(!new)>(s: seq<T>, lt: (T, T) -> bool, earlier: (T, T) -> bool) {
    forall i, j :: 0 <= i < j < |s| ==> StableBefore(lt, earlier, s[i], s[j])
  }

  lemma {:induction false} InsertIsStable<T(!new)>(x: T, s: seq<T>, lt: (T, T) -> bool, earlier: (T, T) -> bool)
    requires StrictWeakOrder(lt) && Stable(s, lt, earlier)
    requires forall y :: y in s ==> earlier(x, y)
    ensures Stable(Insert(x, s, lt), lt, earlier)
  {
    var r := Insert(x, s, lt);
    if s != [] && lt(s[0], x) {
      var rest := s[1..];
      var tail := Insert(x, rest, lt);
      assert Stable(rest, lt, earlier) by {
        assert forall i, j :: 0 <= i < j < |rest| ==> rest[i] == s[i + 1] && rest[j] == s[j + 1];
      }
      assert forall y :: y in rest ==> y in s;
      InsertIsStable(x, rest, lt, earlier);
      InsertElements(x, rest, lt);
      forall j | 0 <= j < |tail|
        ensures StableBefore(lt, earlier, s[0], tail[j])
      {
        assert tail[j] in tail;
        if tail[j] != x {
          var k :| 0 <= k < |rest| && rest[k] == tail[j];
          assert StableBefore(lt, earlier, s[0], s[k + 1]);
        }
      }
      assert forall j :: 0 < j < |r| ==> r[j] == tail[j - 1];
    } else {
      forall j | 0 <= j < |s|
        ensures StableBefore(lt, earlier, x, s[j])
      {
        assert j > 0 ==> StableBefore(lt, earlier, s[0], s[j]);
        assert s[j] in s;
      }
      assert forall j :: 0 < j < |r| ==> r[j] == s[j - 1];
    }
  }

  /** Stability: elements that compare equal keep the order they came in, whatever relation
      `earlier` describes that order. */
  lemma {:induction false} SortIsStable<T(!new)>(s: seq<T>, lt: (T, T) -> bool, earlier: (T, T) -> bool)
    requires StrictWeakOrder(lt)
    requires forall i, j :: 0 <= i < j < |s| ==> earlier(s[i], s[j])
    ensures Stable(Sort(s, lt), lt, earlier)
  {
    if s != [] {
      var rest := s[1..];
      assert forall i :: 0 <= i < |rest| ==> rest[i] == s[i + 1];
      SortIsStable(rest, lt, earlier);
      SortKeepsElements(rest, lt);
      forall y | y in Sort(rest, lt)
        ensures earlier(s[0], y)
      {
        var k :| 0 <= k < |rest| && rest[k] == y;
        assert y == s[k + 1];
      }
      InsertIsStable(s[0], Sort(rest, lt), lt, earlier);
    }
  }
}
