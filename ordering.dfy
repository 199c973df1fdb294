/**
 * The list work behind `Next` and `Previous` in
 * Epam.MovieManager.Application/MovieServices.cs: the values are copied into a
 * `List<Movie>`, sorted in place by `MovieId`, searched with `FindIndex`, and the
 * neighbour of the found position is returned.
 */
module Ordering {
  import opened Options
  import opened MovieRecord

  /** Ascending by `MovieId`; equal ids may sit next to each other in either order. */
  predicate SortedById(s: seq<Movie>) {
    forall i, j :: 0 <= i < j < |s| ==> s[i].movieId <= s[j].movieId
  }

  /** Some movie in `s` carries this id. */
  predicate HasId(s: seq<Movie>, id: Int32) {
    exists x :: x in s && x.movieId == id
  }

  /** Two different positions of `s` carry this id. */
  predicate SharesId(s: seq<Movie>, id: Int32) {
    exists p, q :: 0 <= p < q < |s| && s[p].movieId == id && s[q].movieId == id
  }

  /** Position `i` is the first one carrying `id`. */
  predicate FirstWithId(s: seq<Movie>, id: Int32, i: int) {
    0 <= i < |s| && s[i].movieId == id && forall j :: 0 <= j < i ==> s[j].movieId != id
  }

  /** `List.FindIndex(m => m.MovieId == id)`: the first position holding the id, or -1. */
  function IndexOfId(s: seq<Movie>, id: Int32): (r: int)
    ensures -1 <= r < |s|
    ensures r == -1 <==> forall i :: 0 <= i < |s| ==> s[i].movieId != id
    ensures r >= 0 ==> s[r].movieId == id && forall i :: 0 <= i < r ==> s[i].movieId != id
  {
    if |s| == 0 then -1
    else if s[0].movieId == id then 0
    else
      var j := IndexOfId(s[1..], id);
      if j == -1 then -1 else j + 1
  }

  /**
   * What `Next` returns for the list `s`: present exactly when some position other than the
   * last carries `id`, and then the element just after the first such position.
   */
  function NextIn(s: seq<Movie>, id: Int32): (r: Option<Movie>)
    ensures r.Some? <==> exists i :: 0 <= i < |s| - 1 && s[i].movieId == id
    ensures r.Some? ==>
              exists i :: 0 <= i < |s| - 1 && FirstWithId(s, id, i) && r.value == s[i + 1]
  {
    var i := IndexOfId(s, id);
    if i == -1 || i >= |s| - 1 then None
    else assert FirstWithId(s, id, i); Some(s[i + 1])
  }

  /**
   * What `Previous` returns for the list `s`: present exactly when `id` occurs and the first
   * element does not carry it, and then the element just before the first position carrying `id`.
   */
  function PreviousIn(s: seq<Movie>, id: Int32): (r: Option<Movie>)
    ensures r.Some? <==> HasId(s, id) && s[0].movieId != id
    ensures r.Some? ==>
              exists i :: 0 < i < |s| && FirstWithId(s, id, i) && r.value == s[i - 1]
  {
    var i := IndexOfId(s, id);
    if i <= 0 then None
    else assert FirstWithId(s, id, i); Some(s[i - 1])
  }

  /** In a sorted list, the first position carrying `id` splits it into smaller and not-smaller ids. */
  lemma SplitAtIndexOfId(s: seq<Movie>, id: Int32)
    requires SortedById(s) && IndexOfId(s, id) >= 0
    ensures forall p :: 0 <= p < IndexOfId(s, id) ==> s[p].movieId < id
    ensures forall p :: IndexOfId(s, id) <= p < |s| ==> s[p].movieId >= id
  {
    var i := IndexOfId(s, id);
    forall p | i <= p < |s| ensures s[p].movieId >= id {
      assert p == i || s[i].movieId <= s[p].movieId;
    }
  }

  /** A successor found on a sorted list is an element with an id at least `id`, and least among those above it. */
  lemma NextInIsLeastAbove(s: seq<Movie>, id: Int32)
    requires SortedById(s) && NextIn(s, id).Some?
    ensures NextIn(s, id).value in s && NextIn(s, id).value.movieId >= id
    ensures forall y :: y in s && y.movieId > id ==> NextIn(s, id).value.movieId <= y.movieId
  {
    var i := IndexOfId(s, id);
    SplitAtIndexOfId(s, id);
    assert s[i + 1] in s;
    forall y | y in s && y.movieId > id ensures s[i + 1].movieId <= y.movieId {
      var p :| 0 <= p < |s| && s[p] == y;
      assert i < p;
      assert p == i + 1 || s[i + 1].movieId <= s[p].movieId;
    }
  }

  /** On a sorted list, `NextIn` stays on `id` exactly when two elements carry `id`. */
  lemma NextInStaysOnSharedId(s: seq<Movie>, id: Int32)
    requires SortedById(s)
    ensures SharesId(s, id) <==> NextIn(s, id).Some? && NextIn(s, id).value.movieId == id
  {
    var i := IndexOfId(s, id);
    if SharesId(s, id) {
      var p, q :| 0 <= p < q < |s| && s[p].movieId == id && s[q].movieId == id;
      assert 0 <= i <= p;
      assert i + 1 == q || s[i + 1].movieId <= s[q].movieId;
      SplitAtIndexOfId(s, id);
    }
    if NextIn(s, id).Some? && NextIn(s, id).value.movieId == id {
      assert s[i].movieId == id && s[i + 1].movieId == id;
    }
  }

  /** On a sorted list, `NextIn` is absent exactly when `id` is missing, or is carried once and by a largest element. */
  lemma NextInAbsent(s: seq<Movie>, id: Int32)
    requires SortedById(s)
    ensures NextIn(s, id).None? <==>
              !HasId(s, id) || (!SharesId(s, id) && forall y :: y in s ==> y.movieId <= id)
  {
    var i := IndexOfId(s, id);
    NextInStaysOnSharedId(s, id);
    if i == -1 {
      assert !HasId(s, id);
    } else {
      assert HasId(s, id) by { assert s[i] in s; }
      SplitAtIndexOfId(s, id);
      if i < |s| - 1 {
        assert s[i + 1] in s;
      } else {
        forall y | y in s ensures y.movieId <= id {
          var p :| 0 <= p < |s| && s[p] == y;
          assert p == i || s[p].movieId <= s[i].movieId;
        }
      }
    }
  }

  /**
   * On a sorted list, `NextIn` is the successor of `id`: absent when `id` is missing or is
   * carried once by a largest element; when a second element carries `id` it is that
   * one; otherwise it is an element with the least id above `id`.
   */
  lemma NextInSorted(s: seq<Movie>, id: Int32)
    requires SortedById(s)
    ensures NextIn(s, id).Some? ==> NextIn(s, id).value in s && NextIn(s, id).value.movieId >= id
    ensures SharesId(s, id) <==> NextIn(s, id).Some? && NextIn(s, id).value.movieId == id
    ensures NextIn(s, id).Some? ==>
              forall y :: y in s && y.movieId > id ==> NextIn(s, id).value.movieId <= y.movieId
    ensures NextIn(s, id).None? <==>
              !HasId(s, id) || (!SharesId(s, id) && forall y :: y in s ==> y.movieId <= id)
  {
    if NextIn(s, id).Some? {
      NextInIsLeastAbove(s, id);
    }
    NextInStaysOnSharedId(s, id);
    NextInAbsent(s, id);
  }

  /**
   * On a sorted list, `PreviousIn` is the predecessor of `id`: absent when `id` is missing
   * or no element has a smaller id; otherwise an element with the largest id below `id`.
   */
  lemma PreviousInSorted(s: seq<Movie>, id: Int32)
    requires SortedById(s)
    ensures PreviousIn(s, id).None? <==> !HasId(s, id) || forall y :: y in s ==> y.movieId >= id
    ensures PreviousIn(s, id).Some? ==>
              && PreviousIn(s, id).value in s
              && PreviousIn(s, id).value.movieId < id
              && forall y :: y in s && y.movieId < id ==> y.movieId <= PreviousIn(s, id).value.movieId
  {
    var i := IndexOfId(s, id);
    if i == -1 {
      assert !HasId(s, id);
    } else {
      assert HasId(s, id) by { assert s[i] in s; }
      SplitAtIndexOfId(s, id);
      if i == 0 {
        forall y | y in s ensures y.movieId >= id {
          var p :| 0 <= p < |s| && s[p] == y;
        }
      } else {
        assert s[i - 1] in s;
        forall y | y in s && y.movieId < id ensures y.movieId <= s[i - 1].movieId {
          var p :| 0 <= p < |s| && s[p] == y;
          assert p < i;
          assert p == i - 1 || s[p].movieId <= s[i - 1].movieId;
        }
      }
    }
  }

  /** Exchanges two elements of the list. */
  method Swap(a: array<Movie>, i: int, j: int)
    requires 0 <= i < a.Length && 0 <= j < a.Length
    modifies a
    ensures a[i] == old(a[j]) && a[j] == old(a[i])
    ensures forall k :: 0 <= k < a.Length && k != i && k != j ==> a[k] == old(a[k])
    ensures multiset(a[..]) == old(multiset(a[..]))
  {
    a[i], a[j] := a[j], a[i];
  }

  /**
   * `List.Sort((m1, m2) => m1.MovieId.CompareTo(m2.MovieId))`: sorts the list in place by
   * `MovieId`. The library sort is unstable; the contract, like the model's callers, fixes
   * no order among equal ids.
   */
  method SortById(a: array<Movie>)
    modifies a
    ensures SortedById(a[..])
    ensures multiset(a[..]) == old(multiset(a[..]))
  {
    var i := 0;
    while i < a.Length
      invariant 0 <= i <= a.Length
      invariant forall p, q :: 0 <= p < q < i ==> a[p].movieId <= a[q].movieId
      invariant multiset(a[..]) == old(multiset(a[..]))
    {
      var j := i;
      while 0 < j && a[j].movieId < a[j - 1].movieId
        invariant 0 <= j <= i
        invariant forall p, q :: 0 <= p < q <= i && q != j ==> a[p].movieId <= a[q].movieId
        invariant multiset(a[..]) == old(multiset(a[..]))
      {
        Swap(a, j - 1, j);
        j := j - 1;
      }
      i := i + 1;
    }
  }

  /** `List.FindIndex(m => m.MovieId == id)` over the list. */
  method FindIndexOfId(a: array<Movie>, id: Int32) returns (index: int)
    ensures index == IndexOfId(a[..], id)
  {
    index := 0;
    while index < a.Length && a[index].movieId != id
      invariant 0 <= index <= a.Length
      invariant forall i :: 0 <= i < index ==> a[i].movieId != id
    {
      index := index + 1;
    }
    if index == a.Length {
      index := -1;
    }
  }
}
