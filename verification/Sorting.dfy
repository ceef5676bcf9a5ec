/** Sets of ids in ascending order. */
module Sorting {
  predicate Less(a: string, b: string) {
    b != [] && (a == [] || a[0] < b[0] || (a[0] == b[0] && Less(a[1..], b[1..])))
  }

  lemma {:induction false} LessIsTotal(a: string, b: string)
    ensures a == b || Less(a, b) || Less(b, a)
  {
    if a != [] && b != [] && a[0] == b[0] {
      LessIsTotal(a[1..], b[1..]);
      assert a == [a[0]] + a[1..] && b == [b[0]] + b[1..];
    }
  }

  lemma {:induction false} LessIsTransitive(a: string, b: string, c: string)
    requires Less(a, b) && Less(b, c)
    ensures Less(a, c) && a != c && !Less(c, a)
  {
    if a != [] {
      if a[0] == b[0] && b[0] == c[0] {
        LessIsTransitive(a[1..], b[1..], c[1..]);
      }
    }
  }

  predicate Least(id: string, ids: set<string>) {
    id in ids && forall other :: other in ids && other != id ==> Less(id, other)
  }

  lemma {:induction false} SomeLeast(ids: set<string>)
    requires ids != {}
    ensures exists id :: Least(id, ids)
    decreases |ids|
  {
    var id :| id in ids;
    var rest := ids - {id};
    if rest == {} {
      assert ids == {id};
      assert Least(id, ids);
    } else {
      SomeLeast(rest);
      var low :| Least(low, rest);
      LessIsTotal(id, low);
      if Less(id, low) {
        forall other | other in rest && other != low ensures Less(id, other) {
          LessIsTransitive(id, low, other);
        }
        assert Least(id, ids);
      } else {
        assert Least(low, ids);
      }
    }
  }

  lemma OneLeast(a: string, b: string, ids: set<string>)
    requires Least(a, ids) && Least(b, ids)
    ensures a == b
  {
    if a != b {
      LessIsTransitive(a, b, a);
    }
  }

  ghost function SortedList(ids: set<string>): (list: seq<string>)
    ensures |list| == |ids| && forall id :: id in list <==> id in ids
    decreases |ids|
  {
    if ids == {} then [] else
      SomeLeast(ids);
      var id :| Least(id, ids);
      [id] + SortedList(ids - {id})
  }

  lemma {:induction false} ListAscends(ids: set<string>, i: nat, j: nat)
    requires i < j < |ids|
    ensures Less(SortedList(ids)[i], SortedList(ids)[j])
    decreases |ids|
  {
    SomeLeast(ids);
    var id := SortedList(ids)[0];
    assert Least(id, ids);
    assert SortedList(ids)[1..] == SortedList(ids - {id});
    if i == 0 {
      assert SortedList(ids)[j] == SortedList(ids - {id})[j - 1];
    } else {
      ListAscends(ids - {id}, i - 1, j - 1);
    }
  }

  lemma LeastFirst(id: string, ids: set<string>)
    requires Least(id, ids)
    ensures SortedList(ids) == [id] + SortedList(ids - {id})
  {
    SomeLeast(ids);
    var first := SortedList(ids)[0];
    assert Least(first, ids);
    OneLeast(id, first, ids);
  }

  method Sorted(ids: set<string>) returns (list: seq<string>)
    ensures list == SortedList(ids)
  {
    hide Least, Less, SortedList;
    list := [];
    var pending := ids;
    while pending != {}
      invariant SortedList(ids) == list + SortedList(pending)
      decreases pending
    {
      SomeLeast(pending);
      var id :| Least(id, pending);
      LeastFirst(id, pending);
      pending := pending - {id};
      list := list + [id];
    }
  }
}
