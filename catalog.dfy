/**
 * The `Dictionary<int, Movie>` held by `MovieServices`
 * (Epam.MovieManager.Application/MovieServices.cs), seen as a value: what it holds, and
 * what `First`, `Last`, `Next` and `Previous` are promised to return from it.
 *
 * The key and the stored movie's own `MovieId` are separate facts: `Update` can store a
 * movie under a key other than its id, so the map may hold two movies with one id.
 */
module Catalog {
  import opened Options
  import opened MovieRecord
  import opened Ordering

  type Movies = map<Int32, Movie>

  /** Every movie is stored under its own id: what `Add` keeps, and `Update` keeps only when ids match. */
  predicate WellKeyed(m: Movies) {
    forall k :: k in m ==> m[k].movieId == k
  }

  /** Some stored movie carries this id (whatever its key). */
  predicate StoresId(m: Movies, id: Int32) {
    exists k :: k in m && m[k].movieId == id
  }

  /** Two different keys hold movies carrying this id. */
  predicate SharedId(m: Movies, id: Int32) {
    exists k1, k2 :: k1 in m && k2 in m && k1 != k2 && m[k1].movieId == id && m[k2].movieId == id
  }

  /** `movies.Values` with multiplicity: one occurrence per key. */
  ghost function Bag(m: Movies): multiset<Movie>
    decreases m.Keys
  {
    if m == map[] then multiset{}
    else
      var k :| k in m;
      multiset{m[k]} + Bag(m - {k})
  }

  /** `Bag` does not depend on which key is taken out first. */
  lemma {:induction false} BagRemove(m: Movies, k: Int32)
    requires k in m
    ensures Bag(m) == multiset{m[k]} + Bag(m - {k})
    decreases m.Keys
  {
    var j :| j in m && Bag(m) == multiset{m[j]} + Bag(m - {j});
    if j != k {
      var rest := m - {j} - {k};
      assert rest == m - {k} - {j};
      assert (m - {j})[k] == m[k] && (m - {k})[j] == m[j];
      calc {
        Bag(m);
        multiset{m[j]} + Bag(m - {j});
        { BagRemove(m - {j}, k); }
        multiset{m[j]} + (multiset{m[k]} + Bag(rest));
        multiset{m[k]} + (multiset{m[j]} + Bag(rest));
        { BagRemove(m - {k}, j); }
        multiset{m[k]} + Bag(m - {k});
      }
    }
  }

  /** The bag holds exactly the stored movies. */
  lemma {:induction false} BagMembers(m: Movies)
    ensures forall x :: x in Bag(m) <==> x in m.Values
    decreases m.Keys
  {
    if m != map[] {
      var k :| k in m;
      BagRemove(m, k);
      BagMembers(m - {k});
      forall x ensures x in m.Values <==> x == m[k] || x in (m - {k}).Values {
        if x in m.Values {
          var j :| j in m && m[j] == x;
          if j != k {
            assert (m - {k})[j] == x;
          }
        }
      }
    }
  }

  /** The sorted list `Next` and `Previous` build: the stored movies, ascending by id. */
  ghost predicate Arranged(s: seq<Movie>, m: Movies) {
    SortedById(s) && multiset(s) == Bag(m)
  }

  /** Two positions holding one movie count it twice. */
  lemma TwoPositionsCount(s: seq<Movie>, p: int, q: int)
    requires 0 <= p < q < |s| && s[p] == s[q]
    ensures multiset(s)[s[p]] >= 2
  {
    assert s == s[..q] + s[q..];
    assert s[p] in s[..q];
    assert s[q] in s[q..];
  }

  /** A movie counted twice sits at two positions. */
  lemma {:induction false} CountTwoPositions(s: seq<Movie>, v: Movie)
    requires multiset(s)[v] >= 2
    ensures exists p, q :: 0 <= p < q < |s| && s[p] == v && s[q] == v
  {
    assert s == [s[0]] + s[1..];
    if s[0] == v {
      assert v in multiset(s[1..]);
      var q :| 0 <= q < |s[1..]| && s[1..][q] == v;
      assert s[0] == v && s[q + 1] == v;
    } else {
      CountTwoPositions(s[1..], v);
      var p, q :| 0 <= p < q < |s[1..]| && s[1..][p] == v && s[1..][q] == v;
      assert s[p + 1] == v && s[q + 1] == v;
    }
  }

  /** A list with the stored movies as its multiset holds exactly the stored movies. */
  lemma ListedMembers(s: seq<Movie>, m: Movies)
    requires multiset(s) == Bag(m)
    ensures forall x :: x in s <==> x in m.Values
    ensures forall id :: HasId(s, id) <==> StoresId(m, id)
  {
    BagMembers(m);
    assert forall x :: x in s <==> x in multiset(s);
    forall id ensures HasId(s, id) <==> StoresId(m, id) {
      if StoresId(m, id) {
        var k :| k in m && m[k].movieId == id;
        assert m[k] in m.Values;
      }
    }
  }

  /** A movie stored under two keys occurs twice in the bag. */
  lemma BagCountsKeys(m: Movies, k1: Int32, k2: Int32)
    requires k1 in m && k2 in m && k1 != k2 && m[k1] == m[k2]
    ensures Bag(m)[m[k1]] >= 2
  {
    BagRemove(m, k1);
    BagMembers(m - {k1});
    assert (m - {k1})[k2] == m[k1];
    assert m[k1] in (m - {k1}).Values;
  }

  /** A movie occurring twice in the bag is stored under two keys. */
  lemma BagCountTwoKeys(m: Movies, v: Movie)
    requires Bag(m)[v] >= 2
    ensures exists k1, k2 :: k1 in m && k2 in m && k1 != k2 && m[k1] == v && m[k2] == v
  {
    BagMembers(m);
    var k1 :| k1 in m && m[k1] == v;
    BagRemove(m, k1);
    BagMembers(m - {k1});
    assert v in (m - {k1}).Values;
    var k2 :| k2 in m - {k1} && (m - {k1})[k2] == v;
    assert k2 in m && k2 != k1 && m[k2] == v;
  }

  /** Two list positions carrying `id` correspond to two keys holding movies that carry `id`. */
  lemma ListedSharesId(s: seq<Movie>, m: Movies, id: Int32)
    requires multiset(s) == Bag(m)
    ensures SharesId(s, id) <==> SharedId(m, id)
  {
    ListedMembers(s, m);
    if SharesId(s, id) {
      var p, q :| 0 <= p < q < |s| && s[p].movieId == id && s[q].movieId == id;
      assert s[p] in s && s[q] in s;
      if s[p] == s[q] {
        TwoPositionsCount(s, p, q);
        BagCountTwoKeys(m, s[p]);
      } else {
        var k1 :| k1 in m && m[k1] == s[p];
        var k2 :| k2 in m && m[k2] == s[q];
        assert k1 != k2;
      }
    }
    if SharedId(m, id) {
      var k1, k2 :| k1 in m && k2 in m && k1 != k2 && m[k1].movieId == id && m[k2].movieId == id;
      if m[k1] == m[k2] {
        BagCountsKeys(m, k1, k2);
        CountTwoPositions(s, m[k1]);
      } else {
        assert m[k1] in m.Values && m[k2] in m.Values;
        var p :| 0 <= p < |s| && s[p] == m[k1];
        var q :| 0 <= q < |s| && s[q] == m[k2];
        assert p != q;
        if p < q {
          assert s[p].movieId == id && s[q].movieId == id;
        } else {
          assert s[q].movieId == id && s[p].movieId == id;
        }
      }
    }
  }

  /**
   * What `Next(id)` promises about the map: the result is a stored movie; if two keys hold
   * movies carrying `id`, it carries `id` too; otherwise it is absent exactly when no
   * stored movie carries `id` or none carries a larger id, and else it carries the least
   * id above `id`.
   */
  ghost predicate NextSpec(m: Movies, id: Int32, r: Option<Movie>) {
    && (r.Some? ==> r.value in m.Values && r.value.movieId >= id)
    && (SharedId(m, id) <==> r.Some? && r.value.movieId == id)
    && (r.Some? ==> forall k :: k in m && m[k].movieId > id ==> r.value.movieId <= m[k].movieId)
    && (r.None? <==> !StoresId(m, id) || (!SharedId(m, id) && forall k :: k in m ==> m[k].movieId <= id))
  }

  /**
   * What `Previous(id)` promises about the map: absent exactly when no stored movie carries
   * `id` or none carries a smaller id; otherwise a stored movie with the greatest id below `id`.
   */
  ghost predicate PreviousSpec(m: Movies, id: Int32, r: Option<Movie>) {
    && (r.None? <==> !StoresId(m, id) || forall k :: k in m ==> m[k].movieId >= id)
    && (r.Some? ==>
          && r.value in m.Values
          && r.value.movieId < id
          && forall k :: k in m && m[k].movieId < id ==> m[k].movieId <= r.value.movieId)
  }

  /** Every sorted listing of the stored movies gives a `Next` that meets `NextSpec`. */
  lemma NextOfArrangement(s: seq<Movie>, m: Movies, id: Int32)
    requires Arranged(s, m)
    ensures NextSpec(m, id, NextIn(s, id))
  {
    NextInSorted(s, id);
    ListedMembers(s, m);
    ListedSharesId(s, m, id);
    var r := NextIn(s, id);
    forall k | k in m ensures m[k] in s {
      assert m[k] in m.Values;
    }
  }

  /** Every sorted listing of the stored movies gives a `Previous` that meets `PreviousSpec`. */
  lemma PreviousOfArrangement(s: seq<Movie>, m: Movies, id: Int32)
    requires Arranged(s, m)
    ensures PreviousSpec(m, id, PreviousIn(s, id))
  {
    PreviousInSorted(s, id);
    ListedMembers(s, m);
    forall k | k in m ensures m[k] in s {
      assert m[k] in m.Values;
    }
  }

  /** When every movie sits under its own id, `Next` is the movie under the least key above `id`. */
  lemma NextWellKeyed(m: Movies, id: Int32, r: Option<Movie>)
    requires WellKeyed(m) && NextSpec(m, id, r)
    ensures r.None? <==> id !in m || forall k :: k in m ==> k <= id
    ensures r.Some? ==>
              && r.value.movieId in m && m[r.value.movieId] == r.value
              && id < r.value.movieId
              && forall k :: k in m && id < k ==> r.value.movieId <= k
  {
    assert StoresId(m, id) <==> id in m by {
      if id in m { assert m[id].movieId == id; }
    }
    assert !SharedId(m, id);
    if r.Some? {
      var k :| k in m && m[k] == r.value;
      forall j | j in m && id < j ensures r.value.movieId <= j {
        assert m[j].movieId == j;
      }
    }
  }

  /** When every movie sits under its own id, `Previous` is the movie under the greatest key below `id`. */
  lemma PreviousWellKeyed(m: Movies, id: Int32, r: Option<Movie>)
    requires WellKeyed(m) && PreviousSpec(m, id, r)
    ensures r.None? <==> id !in m || forall k :: k in m ==> id <= k
    ensures r.Some? ==>
              && r.value.movieId in m && m[r.value.movieId] == r.value
              && r.value.movieId < id
              && forall k :: k in m && k < id ==> k <= r.value.movieId
  {
    assert StoresId(m, id) <==> id in m by {
      if id in m { assert m[id].movieId == id; }
    }
    if r.Some? {
      var k :| k in m && m[k] == r.value;
      forall j | j in m && j < id ensures j <= r.value.movieId {
        assert m[j].movieId == j;
      }
    }
  }

  /** `Update` stores whatever movie it is given: a movie carrying another id leaves its key mismatched. */
  lemma UpdateCanUnkey(m: Movies, k: Int32, movie: Movie)
    requires k in m && movie.movieId != k
    ensures !WellKeyed(m[k := movie])
  {
    assert m[k := movie][k].movieId != k;
  }

  /** Nothing precedes a movie with the smallest stored id. */
  lemma PreviousOfFirstIsAbsent(m: Movies, first: Movie, r: Option<Movie>)
    requires first in m.Values && forall k :: k in m ==> first.movieId <= m[k].movieId
    requires PreviousSpec(m, first.movieId, r)
    ensures r == None
  {
  }
}
