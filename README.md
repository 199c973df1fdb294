# Movie store model

A Dafny model of the record store of the Movie Manager desktop application: the class
`MovieServices` (Epam.MovieManager.Application/MovieServices.cs) and the `Movie` record it
holds (Epam.MovieManager.Application/Movie.cs).

The store keeps a dictionary from movie id to movie. Add, Update and Delete change it in
place and then rewrite the whole dictionary into the file `movie.json`. Load replaces the
dictionary from that file. First and Last return a movie with the smallest or largest id.
Next and Previous copy the movies into a list, sort it by id, find the first movie that
carries the given id, and return its neighbour.

Files:

- `options.dfy` — `Option`, standing for a nullable result.
- `movie_record.dfy` — module `MovieRecord`: `Int32` (C#'s `int`), `Movie` and its two constructors.
- `ordering.dfy` — module `Ordering`: the list work behind Next and Previous (in-place sort of an
  array, `FindIndex`, the neighbour chosen) and what it means on a sorted list.
- `catalog.dfy` — module `Catalog`: the dictionary as a value; `Bag` (its values with
  multiplicity), `NextSpec` and `PreviousSpec` (what Next and Previous promise about the map),
  and the lemmas that every sorted listing meets them.
- `services.dfy` — module `Services`: the class `MovieServices` over a `map` field, and the
  backing file as a `DataFile` object.

Modelling choices:

- The dictionary key and the stored movie's own `MovieId` are kept apart. `Update` stores
  whatever movie it is given under the key (MovieServices.cs:63), and First, Last, Next and
  Previous compare the movies' `MovieId`, not the keys (lines 170, 191, 204-205). So two keys
  may hold movies with the same id. `WellKeyed` says every movie sits under its own id. Add
  and Delete keep it. Update keeps it when the ids match, and `UpdateCanUnkey` shows it can
  break otherwise.
- With shared ids the library sort may put equal ids in either order. So `Next` and
  `Previous` promise that their result is the neighbour in SOME sorted listing of the stored
  movies. They also state `NextSpec` / `PreviousSpec` about the map. When two keys hold
  movies carrying the id, `Next` returns a movie carrying that same id, so repeated Next
  calls do not move past it. Under `WellKeyed` the results are exact: the movie under the
  least key above the id (Next) or the greatest key below it (Previous).
- The file is a `DataFile` object whose state is `Missing`, `Written(contents)` or
  `Unparsable`. Whether a write or a read succeeds is a nondeterministic choice. A successful
  Save makes the file `Written(movies)`. A successful Load of a `Written` file replaces the
  dictionary with its contents.
- The model follows the code in these places, where a reader might expect otherwise:
  - When the file is missing, Load does not clear the live dictionary. It returns a fresh
    empty one and leaves the live one as it was (lines 128, 151-156).
  - A duplicate key and a failed save both come back as `false` from Add, with no separate
    error kinds (lines 28-32, 42).
  - Update does not check the new movie's id against the key.
  - Every mutation stays in memory even when the save that follows fails. There is no
    rollback (lines 34-42, 63-71, 92-100).

## Model

| member | source | states |
|---|---|---|
| MovieRecord.Blank | Epam.MovieManager.Application/Movie.cs:11-13 | the parameterless constructor leaves the id and year at 0 and the three strings null |
| MovieRecord.Create | Epam.MovieManager.Application/Movie.cs:15-22 | the five-argument constructor puts each argument into the property of the same name |
| MovieRecord.CreateReachesEveryRecord | Epam.MovieManager.Application/Movie.cs:24-28 | the five properties are independent: every record is the constructor applied to its own fields |
| Ordering.NextIn | Epam.MovieManager.Application/MovieServices.cs:207-214 | present exactly when a position other than the last carries the id, and then the element just after the first such position |
| Ordering.PreviousIn | Epam.MovieManager.Application/MovieServices.cs:223-230 | present exactly when the id occurs and the first element does not carry it, and then the element just before the first position carrying it |
| Ordering.IndexOfId | Epam.MovieManager.Application/MovieServices.cs:205 | `FindIndex` yields -1 exactly when no element carries the id, and otherwise the first position carrying it |
| Ordering.FindIndexOfId | Epam.MovieManager.Application/MovieServices.cs:205 | the search loop over the list returns that first position, or -1 |
| Ordering.SortById | Epam.MovieManager.Application/MovieServices.cs:204 | sorting in place leaves the list ascending by id and a permutation of what it was |
| Ordering.SplitAtIndexOfId | Epam.MovieManager.Application/MovieServices.cs:204-205 | in the sorted list, every element before the found position has a smaller id and every element from it on has a larger or equal one |
| Ordering.NextInIsLeastAbove | Epam.MovieManager.Application/MovieServices.cs:207-214 | a found successor is in the list, has an id at least the given one, and no element with a larger id has a smaller id than it |
| Ordering.NextInStaysOnSharedId | Epam.MovieManager.Application/MovieServices.cs:205-214 | the successor carries the same id exactly when two list positions carry that id |
| Ordering.NextInAbsent | Epam.MovieManager.Application/MovieServices.cs:207-211 | Next gives null exactly when the id is absent, or is carried once and by a largest element |
| Ordering.NextInSorted | Epam.MovieManager.Application/MovieServices.cs:201-215 | all four facts about Next on a sorted list together |
| Ordering.PreviousInSorted | Epam.MovieManager.Application/MovieServices.cs:217-231 | Previous gives null exactly when the id is absent or nothing has a smaller id; otherwise an element with the greatest id below it |
| Catalog.BagRemove | Epam.MovieManager.Application/MovieServices.cs:203 | the values of the dictionary, with multiplicity, are one entry per key, whichever key is taken first |
| Catalog.BagMembers | Epam.MovieManager.Application/MovieServices.cs:203 | that multiset holds exactly the stored movies |
| Catalog.ListedMembers | Epam.MovieManager.Application/MovieServices.cs:203 | a list with the dictionary's values as its multiset holds exactly the stored movies and the same ids |
| Catalog.ListedSharesId | Epam.MovieManager.Application/MovieServices.cs:203-205 | two list positions carry an id exactly when two keys hold movies carrying it |
| Catalog.NextOfArrangement | Epam.MovieManager.Application/MovieServices.cs:201-215 | on every sorted listing of the stored movies, Next's answer meets `NextSpec`, stated over the dictionary |
| Catalog.PreviousOfArrangement | Epam.MovieManager.Application/MovieServices.cs:217-231 | on every sorted listing of the stored movies, Previous's answer meets `PreviousSpec`, stated over the dictionary |
| Catalog.NextWellKeyed | Epam.MovieManager.Application/MovieServices.cs:201-215 | when every movie sits under its own id, Next is null iff the key is missing or no key is larger, and otherwise the movie under the least larger key |
| Catalog.PreviousWellKeyed | Epam.MovieManager.Application/MovieServices.cs:217-231 | when every movie sits under its own id, Previous is null iff the key is missing or no key is smaller, and otherwise the movie under the greatest smaller key |
| Catalog.UpdateCanUnkey | Epam.MovieManager.Application/MovieServices.cs:63 | storing a movie with another id under an existing key leaves that key mismatched |
| Catalog.PreviousOfFirstIsAbsent | Epam.MovieManager.Application/MovieServices.cs:217-231 | Previous of a movie with the smallest stored id is null |
| Services.MovieServices.constructor | Epam.MovieManager.Application/MovieServices.cs:15-20 | a new store holds nothing, or what a readable file holds |
| Services.MovieServices.Add | Epam.MovieManager.Application/MovieServices.cs:22-49 | a taken id gives false and changes nothing; a fresh id inserts exactly id ↦ movie, grows the map by one and keeps the insertion whatever the save returns; the result is the save's: true means the file now holds the map, false means the file is as it was or unreadable; well-keying is kept |
| Services.MovieServices.Update | Epam.MovieManager.Application/MovieServices.cs:51-78 | a missing key gives false and changes nothing; an existing key is set to the given movie, whatever its id, with the same keys, kept whatever the save returns; true means the file holds the new map, false means the file is as it was or unreadable; well-keying is kept when the ids match and broken when they do not |
| Services.MovieServices.Delete | Epam.MovieManager.Application/MovieServices.cs:80-107 | a missing key gives false and changes nothing; an existing key is removed alone, the size drops by one, kept whatever the save returns; true means the file holds the new map, false means the file is as it was or unreadable |
| Services.MovieServices.Save | Epam.MovieManager.Application/MovieServices.cs:109-124 | true means the file now holds the whole dictionary; false leaves the file as it was or unreadable |
| Services.MovieServices.Load | Epam.MovieManager.Application/MovieServices.cs:126-157 | a missing or unreadable file, or a failed read, leaves the dictionary unchanged and returns an empty one; a successful read (reported in a ghost out-parameter) happens only on a readable file and replaces the dictionary with its contents and returns them |
| Services.MovieServices.First | Epam.MovieManager.Application/MovieServices.cs:159-178 | null iff the store is empty; otherwise a stored movie whose id is no larger than any stored movie's |
| Services.MovieServices.Last | Epam.MovieManager.Application/MovieServices.cs:180-199 | null iff the store is empty; otherwise a stored movie whose id is no smaller than any stored movie's |
| Services.MovieServices.SortedValues | Epam.MovieManager.Application/MovieServices.cs:203-204 | the list is a fresh array of all stored movies, one per key, sorted by id |
| Services.MovieServices.Next | Epam.MovieManager.Application/MovieServices.cs:201-215 | the neighbour after the id in some sorted listing; meets `NextSpec` and, for a well-keyed store, is null iff the key is missing or largest, and otherwise the movie under the least key above the id |
| Services.MovieServices.Previous | Epam.MovieManager.Application/MovieServices.cs:217-231 | the neighbour before the id in some sorted listing; meets `PreviousSpec` and, for a well-keyed store, is null iff the key is missing or smallest, and otherwise the movie under the greatest key below the id |
| Services.SaveThenLoad | Epam.MovieManager.Application/MovieServices.cs:109-157 | after a successful Save, Load leaves the dictionary as it was; a successful read returns exactly the saved dictionary, a failed one an empty one |

## Left out

- Logging through log4net: diagnostics only, with no effect on the store.
- The JSON text format and the file system calls (`JsonConvert`, `File.Exists`, `File.ReadAllText`, `File.WriteAllText`): foreign library and I/O code. The file is the abstract `DataFile` state, and success or failure of a write or a read is a nondeterministic choice.
- The `try`/`catch` blocks: only their observable outcome is kept (`false` from Save, an empty result from Load).
- Null `Movie` references: here a movie is always a value. In the source, `Add(null)` fails inside the `catch`. `Update(id, null)` stores a null. Next and Previous then always throw, because the sort's comparer or `FindIndex` reads the null's id (MovieServices.cs:204-205). First and Last throw only when a null is compared after a movie has been kept, or is the value they keep (lines 170, 176, 191, 197). A null seen before any movie is simply replaced by the next movie.
- Services.MovieServices.Save: a failed write that leaves a different but still readable file is not modelled; a failed write leaves the file as it was or unreadable.
- Services.MovieServices.First: among several movies with the smallest id, the source returns the first one the dictionary enumerates; the model returns one of them without fixing which. Last likewise.
- Services.MovieServices.Next: the model sorts by insertion sort, while the library sort is an unstable introsort; among equal ids the two may order differently, so the contract fixes only that the result comes from some sorted listing. Previous likewise.
- The form (MovieManager.cs, MovieManager.Designer.cs) and process start-up (Program.cs) are not part of this model.
- Concurrency: the store is used from one thread and the model is sequential.
