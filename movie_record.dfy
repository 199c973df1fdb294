/**
 * The movie record of Epam.MovieManager.Application/Movie.cs: a plain record of five
 * public properties with a parameterless constructor (used when the JSON file is read)
 * and a five-argument constructor (used by the form).
 */
module MovieRecord {
  import opened Options

  /** C#'s `int`: a signed 32-bit integer. */
  newtype Int32 = x: int | -0x8000_0000 <= x < 0x8000_0000

  /** A C# `string` reference; `None` is `null`. */
  type Text = Option<string>

  /** The five properties of a movie; none is computed from another. */
  datatype Movie = Movie(movieId: Int32, title: Text, genre: Text, releasedYear: Int32, director: Text)

  /** `new Movie()`: every property keeps its C# default value. */
  function Blank(): (m: Movie)
    ensures m.movieId == 0 && m.releasedYear == 0
    ensures m.title == None && m.genre == None && m.director == None
  {
    Movie(0, None, None, 0, None)
  }

  /** `new Movie(movieId, title, genre, releasedYear, director)`: each argument lands in its own property. */
  function Create(movieId: Int32, title: Text, genre: Text, releasedYear: Int32, director: Text): (m: Movie)
    ensures m.movieId == movieId
    ensures m.title == title && m.genre == genre
    ensures m.releasedYear == releasedYear && m.director == director
  {
    Movie(movieId, title, genre, releasedYear, director)
  }

  /** The five fields are independent: every record is built by the five-argument constructor from its own fields. */
  lemma CreateReachesEveryRecord(m: Movie)
    ensures Create(m.movieId, m.title, m.genre, m.releasedYear, m.director) == m
  {
  }
}
