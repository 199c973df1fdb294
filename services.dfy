/**
 * The movie store of Epam.MovieManager.Application/MovieServices.cs: a dictionary from
 * movie id to movie, mirrored as a whole into the file `movie.json`.
 *
 * Writing and reading the file go through a JSON library and the file system; here the
 * file is the object `DataFile`, and whether a write or a read succeeds is chosen
 * nondeterministically.
 */
module Services {
  import opened Options
  import opened MovieRecord
  import opened Ordering
  import opened Catalog

  /** What `movie.json` holds: no file, the JSON of a dictionary, or text the JSON reader rejects. */
  datatype FileState = Missing | Written(contents: Movies) | Unparsable

  /** The file `movie.json`; every store opened in the same directory shares it. */
  class DataFile {
    var state: FileState

    constructor (state: FileState)
      ensures this.state == state
    {
      this.state := state;
    }
  }

  class MovieServices {
    /** The `movies` dictionary, keyed by movie id. */
    var movies: Movies
    /** The file at `filePath`. */
    const file: DataFile

    /** Starts with an empty dictionary and loads the file into it. */
    constructor (file: DataFile)
      ensures this.file == file
      ensures !file.state.Written? ==> movies == map[]
      ensures file.state.Written? ==> movies == map[] || movies == file.state.contents
    {
      this.file := file;
      movies := map[];
      new;
      ghost var readOk;
      var loaded;
      loaded, readOk := Load();
    }

    /** Inserts a movie under its own id unless that key is taken, then saves. */
    method Add(movie: Movie) returns (saved: bool)
      modifies this, file
      ensures movie.movieId in old(movies) ==>
                !saved && movies == old(movies) && file.state == old(file.state)
      ensures movie.movieId !in old(movies) ==>
                && movies == old(movies)[movie.movieId := movie]
                && |movies| == |old(movies)| + 1
                && (saved ==> file.state == Written(movies))
                && (!saved ==> file.state == old(file.state) || file.state == Unparsable)
      ensures old(WellKeyed(movies)) ==> WellKeyed(movies)
    {
      if movie.movieId in movies {
        return false;
      }
      movies := movies[movie.movieId := movie];
      saved := Save();
    }

    /** Replaces the movie under an existing key, whatever id the new movie carries, then saves. */
    method Update(movieId: Int32, movie: Movie) returns (saved: bool)
      modifies this, file
      ensures movieId !in old(movies) ==>
                !saved && movies == old(movies) && file.state == old(file.state)
      ensures movieId in old(movies) ==>
                && movies == old(movies)[movieId := movie]
                && movies.Keys == old(movies).Keys
                && (saved ==> file.state == Written(movies))
                && (!saved ==> file.state == old(file.state) || file.state == Unparsable)
      ensures old(WellKeyed(movies)) && movie.movieId == movieId ==> WellKeyed(movies)
      ensures movieId in old(movies) && movie.movieId != movieId ==> !WellKeyed(movies)
    {
      if movieId !in movies {
        return false;
      }
      movies := movies[movieId := movie];
      if movie.movieId != movieId {
        UpdateCanUnkey(old(movies), movieId, movie);
      }
      saved := Save();
    }

    /** Removes an existing key, then saves. */
    method Delete(movieId: Int32) returns (saved: bool)
      modifies this, file
      ensures movieId !in old(movies) ==>
                !saved && movies == old(movies) && file.state == old(file.state)
      ensures movieId in old(movies) ==>
                && movies == old(movies) - {movieId}
                && |movies| == |old(movies)| - 1
                && (saved ==> file.state == Written(movies))
                && (!saved ==> file.state == old(file.state) || file.state == Unparsable)
      ensures old(WellKeyed(movies)) ==> WellKeyed(movies)
    {
      if movieId !in movies {
        return false;
      }
      movies := movies - {movieId};
      saved := Save();
    }

    /**
     * Writes the whole dictionary to the file. On failure the file is as it was, or cut
     * short by a write that stopped part way.
     */
    method Save() returns (saved: bool)
      modifies file
      ensures saved ==> file.state == Written(movies)
      ensures !saved ==> file.state == old(file.state) || file.state == Unparsable
    {
      saved :| true;
      if saved {
        file.state := Written(movies);
      } else {
        var cutShort: bool :| true;
        if cutShort {
          file.state := Unparsable;
        }
      }
    }

    /**
     * Reads the file. Only a successful read replaces the dictionary, by clearing it and
     * adding every entry read, and returns what was read; a missing file or a failed read
     * leaves the dictionary alone and returns an empty one.
     */
    method Load() returns (movieList: Movies, ghost readOk: bool)
      modifies this
      ensures readOk ==> file.state.Written? && movieList == file.state.contents && movies == movieList
      ensures !readOk ==> movieList == map[] && movies == old(movies)
    {
      movieList := map[];
      readOk := false;
      if !file.state.Missing? {
        var readSucceeds: bool :| true;
        if readSucceeds && file.state.Written? {
          readOk := true;
          movieList := file.state.contents;
          movies := map[];
          var rest := movieList;
          while rest != map[]
            invariant movies.Keys !! rest.Keys
            invariant movies + rest == movieList
            decreases rest.Keys
          {
            var k :| k in rest;
            assert k !in movies;
            movies := movies[k := rest[k]];
            rest := rest - {k};
          }
        }
      }
    }

    /** A stored movie whose id is no larger than any stored movie's; `None` for an empty store. */
    method First() returns (r: Option<Movie>)
      ensures r.None? <==> movies == map[]
      ensures r.Some? ==>
                r.value in movies.Values && forall k :: k in movies ==> r.value.movieId <= movies[k].movieId
    {
      if |movies| == 0 {
        return None;
      }
      var firstMovie: Option<Movie> := None;
      var unseen := movies.Keys;
      while unseen != {}
        invariant unseen <= movies.Keys
        invariant firstMovie.None? <==> unseen == movies.Keys
        invariant firstMovie.Some? ==> firstMovie.value in movies.Values
        invariant firstMovie.Some? ==>
                    forall k :: k in movies && k !in unseen ==> firstMovie.value.movieId <= movies[k].movieId
        decreases unseen
      {
        var k :| k in unseen;
        var movie := movies[k];
        if firstMovie.None? || movie.movieId < firstMovie.value.movieId {
          firstMovie := Some(movie);
        }
        unseen := unseen - {k};
      }
      r := firstMovie;
    }

    /** A stored movie whose id is no smaller than any stored movie's; `None` for an empty store. */
    method Last() returns (r: Option<Movie>)
      ensures r.None? <==> movies == map[]
      ensures r.Some? ==>
                r.value in movies.Values && forall k :: k in movies ==> movies[k].movieId <= r.value.movieId
    {
      if |movies| == 0 {
        return None;
      }
      var lastMovie: Option<Movie> := None;
      var unseen := movies.Keys;
      while unseen != {}
        invariant unseen <= movies.Keys
        invariant lastMovie.None? <==> unseen == movies.Keys
        invariant lastMovie.Some? ==> lastMovie.value in movies.Values
        invariant lastMovie.Some? ==>
                    forall k :: k in movies && k !in unseen ==> movies[k].movieId <= lastMovie.value.movieId
        decreases unseen
      {
        var k :| k in unseen;
        var movie := movies[k];
        if lastMovie.None? || movie.movieId > lastMovie.value.movieId {
          lastMovie := Some(movie);
        }
        unseen := unseen - {k};
      }
      r := lastMovie;
    }

    /** `new List<Movie>(movies.Values)` sorted by id: a fresh list of the stored movies in ascending id order. */
    method SortedValues() returns (sorted: array<Movie>)
      ensures fresh(sorted) && Arranged(sorted[..], movies)
    {
      var list: seq<Movie> := [];
      var rest := movies;
      while rest != map[]
        invariant multiset(list) + Bag(rest) == Bag(movies)
        decreases rest.Keys
      {
        var k :| k in rest;
        BagRemove(rest, k);
        list := list + [rest[k]];
        rest := rest - {k};
      }
      sorted := new Movie[|list|](i requires 0 <= i < |list| => list[i]);
      assert sorted[..] == list;
      SortById(sorted);
    }

    /** The movie after the first one carrying `movieId` in the list of stored movies sorted by id. */
    method Next(movieId: Int32) returns (r: Option<Movie>)
      ensures exists s :: Arranged(s, movies) && r == NextIn(s, movieId)
      ensures NextSpec(movies, movieId, r)
      ensures WellKeyed(movies) ==>
                && (r.None? <==> movieId !in movies || forall k :: k in movies ==> k <= movieId)
                && (r.Some? ==> r.value.movieId in movies && movies[r.value.movieId] == r.value
                                && movieId < r.value.movieId
                                && forall k :: k in movies && movieId < k ==> r.value.movieId <= k)
    {
      var sortedMovies := SortedValues();
      var index := FindIndexOfId(sortedMovies, movieId);
      if index == -1 || index >= sortedMovies.Length - 1 {
        r := None;
      } else {
        r := Some(sortedMovies[index + 1]);
      }
      NextOfArrangement(sortedMovies[..], movies, movieId);
      if WellKeyed(movies) {
        NextWellKeyed(movies, movieId, r);
      }
    }

    /** The movie before the first one carrying `movieId` in the list of stored movies sorted by id. */
    method Previous(movieId: Int32) returns (r: Option<Movie>)
      ensures exists s :: Arranged(s, movies) && r == PreviousIn(s, movieId)
      ensures PreviousSpec(movies, movieId, r)
      ensures WellKeyed(movies) ==>
                && (r.None? <==> movieId !in movies || forall k :: k in movies ==> movieId <= k)
                && (r.Some? ==> r.value.movieId in movies && movies[r.value.movieId] == r.value
                                && r.value.movieId < movieId
                                && forall k :: k in movies && k < movieId ==> k <= r.value.movieId)
    {
      var sortedMovies := SortedValues();
      var index := FindIndexOfId(sortedMovies, movieId);
      if index <= 0 {
        r := None;
      } else {
        r := Some(sortedMovies[index - 1]);
      }
      PreviousOfArrangement(sortedMovies[..], movies, movieId);
      if WellKeyed(movies) {
        PreviousWellKeyed(movies, movieId, r);
      }
    }
  }

  /**
   * A successful `Save` followed by `Load` leaves the dictionary as it was, whether or not
   * the read succeeds; a successful read returns exactly the saved dictionary.
   */
  method SaveThenLoad(store: MovieServices) returns (saved: bool, loaded: Movies, ghost readOk: bool)
    modifies store, store.file
    ensures saved ==> store.movies == old(store.movies) && store.file.state == Written(store.movies)
    ensures saved && readOk ==> loaded == old(store.movies)
    ensures saved && !readOk ==> loaded == map[]
  {
    saved := store.Save();
    loaded, readOk := map[], false;
    if saved {
      loaded, readOk := store.Load();
    }
  }
}
