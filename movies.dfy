/**
 * The movie handlers of the backend: `createMovie` (upload and title checks,
 * insertion, then linking the listed genres, actors and countries that
 * exist), `getMovies` (the 100 highest ids, descending) and `deleteMovie`
 * (clear the three association sets, then remove the row).
 */
module Movies {
  import opened Wrappers
  import opened Text
  import opened Numbers
  import Sets

  /** `limit: 100` in `getMovies`. */
  const ListLimit: nat := 100

  datatype Movie = Movie(
    title: string,
    synopsis: Option<string>,
    year: Option<string>,
    rating: Option<string>,
    poster: string,
    trailer: Option<string>,
    category: Option<string>)

  /** The uploaded poster as multer describes it. */
  datatype Upload = Upload(mimetype: string, filename: string)

  /** What `JSON.parse` makes of one serialised id list. */
  datatype IdList = Unparseable | NotAnArray | IdArray(ids: seq<int>)

  /** The multipart body of `POST /movies`. */
  datatype MovieForm = MovieForm(
    title: Option<string>,
    synopsis: Option<string>,
    year: Option<string>,
    rating: Option<string>,
    trailer: Option<string>,
    category: Option<string>,
    genres: IdList,
    actors: IdList,
    countries: IdList)

  datatype Failure =
    | NotAnImage              // "Only image files are allowed for the poster."
    | TitleAndPosterRequired  // "Both title and poster are required."
    | NotFound                // "Movie not found"

  datatype Reply =
    | Created(id: int)
    | Deleted(id: int)
    | Refused(failure: Failure)
    | ServerError             // the catch block: 500

  function Status(reply: Reply): int {
    match reply
    case Created(_) => 201
    case Deleted(_) => 200
    case Refused(NotFound) => 404
    case Refused(_) => 400
    case ServerError => 500
  }

  predicate IsImage(mimetype: string) {
    StartsWith(mimetype, "image/")
  }

  function PosterPath(file: Upload): (path: string)
    ensures StartsWith(path, "uploads/movies/") && |path| == 15 + |file.filename|
    ensures path[15..] == file.filename
  {
    "uploads/movies/" + file.filename
  }

  /** The row `createMovie` inserts once the checks have passed. */
  function NewMovie(form: MovieForm, file: Upload): Movie
    requires form.title.Some?
  {
    Movie(form.title.value, form.synopsis, form.year, form.rating, PosterPath(file),
          form.trailer, form.category)
  }

  /** Both checks of `createMovie` pass: an image upload is present, and so is the title. */
  predicate Admitted(form: MovieForm, file: Option<Upload>) {
    file.Some? && IsImage(file.value.mimetype) && Present(form.title)
  }

  predicate AnyUnparseable(form: MovieForm) {
    form.genres.Unparseable? || form.actors.Unparseable? || form.countries.Unparseable?
  }

  // ---------------------------------------------------------------------------
  // Associations
  // ---------------------------------------------------------------------------

  /** The entities of one relation that `movie` is linked to. */
  function Partners(pairs: set<(int, int)>, movie: int): set<int> {
    set p | p in pairs && p.0 == movie :: p.1
  }

  /** The ids `findAll({ where: { id: { [Op.in]: list } } })` finds, or none when the list is not a non-empty array. */
  function LinkedIds(list: IdList, existing: set<int>): (r: set<int>)
    ensures forall g :: g in r <==> list.IdArray? && g in list.ids && g in existing
  {
    if list.IdArray? && |list.ids| > 0 then set g | g in existing && g in list.ids else {}
  }

  /** The pairs `addGenres` / `addActors` / `addCountries` insert. */
  function Links(movie: int, list: IdList, existing: set<int>): (r: set<(int, int)>)
    ensures forall p :: p in r ==> p.0 == movie
    ensures forall g :: (movie, g) in r <==> g in LinkedIds(list, existing)
  {
    set g | g in LinkedIds(list, existing) :: (movie, g)
  }

  /** The pairs left after `setGenres([])` / `setActors([])` / `setCountries([])`. */
  function Unlinked(pairs: set<(int, int)>, movie: int): (r: set<(int, int)>)
    ensures r <= pairs && Partners(r, movie) == {}
    ensures forall p :: p in pairs && p.0 != movie ==> p in r
  {
    set p | p in pairs && p.0 != movie
  }

  /**
   * An id that is listed but does not exist is dropped without a word; a list
   * naming no existing id links nothing.
   */
  lemma UnknownIdsDropped(list: IdList, existing: set<int>, g: int)
    requires list.IdArray? && g in list.ids && g !in existing
    ensures g !in LinkedIds(list, existing)
    ensures (forall h :: h in list.ids ==> h !in existing) ==> LinkedIds(list, existing) == {}
  {
    if forall h :: h in list.ids ==> h !in existing {
      if forall k :: k !in LinkedIds(list, existing) {
        Sets.NoMemberMeansEmpty(LinkedIds(list, existing));
      }
    }
  }

  /** Linking a movie that had no pairs gives it exactly the linked ids, and no other movie changes. */
  lemma PartnersAfterLinking(pairs: set<(int, int)>, movie: int, list: IdList, existing: set<int>)
    requires forall p :: p in pairs ==> p.0 != movie
    ensures Partners(pairs + Links(movie, list, existing), movie) == LinkedIds(list, existing)
    ensures forall m :: m != movie ==> Partners(pairs + Links(movie, list, existing), m) == Partners(pairs, m)
  {
    var after := pairs + Links(movie, list, existing);
    forall g ensures g in Partners(after, movie) <==> g in LinkedIds(list, existing) {
      if g in LinkedIds(list, existing) {
        assert (movie, g) in after;
      }
    }
    forall m | m != movie ensures Partners(after, m) == Partners(pairs, m) {
      forall g ensures g in Partners(after, m) <==> g in Partners(pairs, m) {
        if g in Partners(pairs, m) {
          assert (m, g) in pairs;
        }
      }
    }
  }

  /** After unlinking, the movie has no partners and every other movie keeps its own. */
  lemma PartnersAfterUnlinking(pairs: set<(int, int)>, movie: int)
    ensures Partners(Unlinked(pairs, movie), movie) == {}
    ensures forall m :: m != movie ==> Partners(Unlinked(pairs, movie), m) == Partners(pairs, m)
  {
    assert forall g :: g !in Partners(Unlinked(pairs, movie), movie);
    Sets.NoMemberMeansEmpty(Partners(Unlinked(pairs, movie), movie));
    forall m | m != movie ensures Partners(Unlinked(pairs, movie), m) == Partners(pairs, m) {
      forall g ensures g in Partners(Unlinked(pairs, movie), m) <==> g in Partners(pairs, m) {
        if g in Partners(pairs, m) {
          assert (m, g) in pairs;
        }
      }
    }
  }

  // ---------------------------------------------------------------------------
  // The latest movies (`order: [['id', 'DESC']], limit: 100`)
  // ---------------------------------------------------------------------------

  /** `m` is the highest element of `s`. */
  predicate IsMaxOf(m: int, s: set<int>) {
    m in s && forall x :: x in s ==> x <= m
  }

  /** Every non-empty set of ids has a highest one. */
  lemma {:induction false} MaxWitness(s: set<int>) returns (m: int)
    requires s != {}
    ensures IsMaxOf(m, s)
    decreases |s|
  {
    if forall x :: x !in s {
      Sets.NoMemberMeansEmpty(s);
      assert false;
    }
    var y :| y in s;
    var rest := s - {y};
    assert forall x :: x in s ==> x == y || x in rest;
    if forall x :: x !in rest {
      m := y;
    } else {
      var r := MaxWitness(rest);
      m := if y <= r then r else y;
    }
  }

  lemma MaxExists(s: set<int>)
    requires s != {}
    ensures exists m :: IsMaxOf(m, s)
  {
    var m := MaxWitness(s);
  }

  function MaxOf(s: set<int>): (m: int)
    requires s != {}
    ensures m in s && forall x :: x in s ==> x <= m
  {
    MaxExists(s);
    var m :| IsMaxOf(m, s);
    m
  }

  /** The `limit` highest ids of `ids`, highest first. */
  function LatestIds(ids: set<int>, limit: nat): (r: seq<int>)
    ensures |r| == Min(limit, |ids|)
    ensures forall i :: 0 <= i < |r| ==> r[i] in ids
    ensures forall i, j :: 0 <= i < j < |r| ==> r[i] > r[j]
    ensures forall x, i :: x in ids && x !in r && 0 <= i < |r| ==> x < r[i]
    decreases limit
  {
    if limit == 0 || ids == {} then []
    else
      var m := MaxOf(ids);
      var rest := LatestIds(ids - {m}, limit - 1);
      assert |ids - {m}| == |ids| - 1;
      assert forall i :: 0 < i < |[m] + rest| ==> ([m] + rest)[i] == rest[i - 1];
      [m] + rest
  }

  /** One element of the `getMovies` answer: the listed attributes and the nested associations. */
  datatype Listing = Listing(
    id: int,
    title: string,
    year: Option<string>,
    synopsis: Option<string>,
    rating: Option<string>,
    poster: string,
    trailer: Option<string>,
    genres: set<int>,
    actors: set<int>,
    countries: set<int>)

  function ListingOf(id: int, movie: Movie, movieGenres: set<(int, int)>,
                     movieActors: set<(int, int)>, movieCountries: set<(int, int)>): Listing
  {
    Listing(id, movie.title, movie.year, movie.synopsis, movie.rating, movie.poster, movie.trailer,
            Partners(movieGenres, id), Partners(movieActors, id), Partners(movieCountries, id))
  }

  predicate Listed(r: seq<Listing>, id: int) {
    exists j :: 0 <= j < |r| && r[j].id == id
  }

  /** `getMovies`: at most 100 movies, highest ids first, each with its own associations. */
  function LatestListings(movies: map<int, Movie>, movieGenres: set<(int, int)>,
                          movieActors: set<(int, int)>, movieCountries: set<(int, int)>): (r: seq<Listing>)
    ensures |r| == Min(ListLimit, |movies|)
    ensures forall i, j :: 0 <= i < j < |r| ==> r[i].id > r[j].id
    ensures forall i :: 0 <= i < |r| ==>
      r[i].id in movies && r[i] == ListingOf(r[i].id, movies[r[i].id], movieGenres, movieActors, movieCountries)
    ensures forall id, i :: id in movies && !Listed(r, id) && 0 <= i < |r| ==> id < r[i].id
  {
    var ids := LatestIds(movies.Keys, ListLimit);
    var r := seq(|ids|, k requires 0 <= k < |ids| =>
      ListingOf(ids[k], movies[ids[k]], movieGenres, movieActors, movieCountries));
    assert forall k :: 0 <= k < |ids| ==> r[k].id == ids[k];
    forall id | id in ids ensures Listed(r, id) {
      var k :| 0 <= k < |ids| && ids[k] == id;
      assert r[k].id == id;
    }
    r
  }

  // ---------------------------------------------------------------------------
  // The store
  // ---------------------------------------------------------------------------

  /** Every pair links a stored movie to an existing entity. */
  predicate LinksWithin(pairs: set<(int, int)>, movieIds: set<int>, entityIds: set<int>) {
    forall p :: p in pairs ==> p.0 in movieIds && p.1 in entityIds
  }

  class MovieStore {
    var movies: map<int, Movie>
    var nextId: int
    /** Ids of the rows of the `genres`, `actors` and `countries` tables. */
    var genres: set<int>
    var actors: set<int>
    var countries: set<int>
    /** The three join tables, as (movie id, entity id) pairs. */
    var movieGenres: set<(int, int)>
    var movieActors: set<(int, int)>
    var movieCountries: set<(int, int)>

    ghost predicate Valid()
      reads this
    {
      && (forall id :: id in movies ==> id < nextId)
      && LinksWithin(movieGenres, movies.Keys, genres)
      && LinksWithin(movieActors, movies.Keys, actors)
      && LinksWithin(movieCountries, movies.Keys, countries)
    }

    constructor (genres: set<int>, actors: set<int>, countries: set<int>)
      ensures Valid() && movies == map[] && nextId == 1
      ensures this.genres == genres && this.actors == actors && this.countries == countries
      ensures movieGenres == {} && movieActors == {} && movieCountries == {}
    {
      movies := map[];
      nextId := 1;
      this.genres, this.actors, this.countries := genres, actors, countries;
      movieGenres, movieActors, movieCountries := {}, {}, {};
    }

    /** `createMovie` */
    method CreateMovie(form: MovieForm, file: Option<Upload>) returns (reply: Reply)
      requires Valid()
      modifies this
      ensures Valid()
      ensures genres == old(genres) && actors == old(actors) && countries == old(countries)
      ensures file.Some? && !IsImage(file.value.mimetype) ==>
        reply == Refused(NotAnImage) && unchanged(this)
      ensures (file.None? || IsImage(file.value.mimetype)) && !Admitted(form, file) ==>
        reply == Refused(TitleAndPosterRequired) && unchanged(this)
      ensures Admitted(form, file) ==>
        && old(nextId) !in old(movies)
        && movies == old(movies)[old(nextId) := NewMovie(form, file.value)]
        && nextId == old(nextId) + 1
      ensures Admitted(form, file) && AnyUnparseable(form) ==>
        && reply == ServerError
        && movieGenres == old(movieGenres) && movieActors == old(movieActors)
        && movieCountries == old(movieCountries)
      ensures Admitted(form, file) && !AnyUnparseable(form) ==>
        && reply == Created(old(nextId))
        && movieGenres == old(movieGenres) + Links(old(nextId), form.genres, genres)
        && movieActors == old(movieActors) + Links(old(nextId), form.actors, actors)
        && movieCountries == old(movieCountries) + Links(old(nextId), form.countries, countries)
        && Partners(movieGenres, old(nextId)) == LinkedIds(form.genres, genres)
        && Partners(movieActors, old(nextId)) == LinkedIds(form.actors, actors)
        && Partners(movieCountries, old(nextId)) == LinkedIds(form.countries, countries)
    {
      if file.Some? && !IsImage(file.value.mimetype) {
        return Refused(NotAnImage);
      }
      var poster := if file.Some? then Some(PosterPath(file.value)) else None;
      if !Present(form.title) || !Present(poster) {
        return Refused(TitleAndPosterRequired);
      }
      var id := nextId;
      movies := movies[id := Movie(form.title.value, form.synopsis, form.year, form.rating,
                                   poster.value, form.trailer, form.category)];
      nextId := nextId + 1;
      if AnyUnparseable(form) {
        return ServerError;
      }
      PartnersAfterLinking(movieGenres, id, form.genres, genres);
      PartnersAfterLinking(movieActors, id, form.actors, actors);
      PartnersAfterLinking(movieCountries, id, form.countries, countries);
      movieGenres := movieGenres + Links(id, form.genres, genres);
      movieActors := movieActors + Links(id, form.actors, actors);
      movieCountries := movieCountries + Links(id, form.countries, countries);
      reply := Created(id);
    }

    /** `getMovies` */
    function GetMovies(): (r: seq<Listing>)
      reads this
      ensures |r| <= ListLimit && (|movies| <= ListLimit ==> |r| == |movies|)
      ensures forall i, j :: 0 <= i < j < |r| ==> r[i].id > r[j].id
      ensures forall i :: 0 <= i < |r| ==> r[i].id in movies && r[i].title == movies[r[i].id].title
    {
      LatestListings(movies, movieGenres, movieActors, movieCountries)
    }

    /** `deleteMovie` */
    method DeleteMovie(id: int) returns (reply: Reply)
      requires Valid()
      modifies this
      ensures Valid()
      ensures genres == old(genres) && actors == old(actors) && countries == old(countries)
      ensures id !in old(movies) ==> reply == Refused(NotFound) && unchanged(this)
      ensures id in old(movies) ==>
        && reply == Deleted(id)
        && movies == old(movies) - {id} && nextId == old(nextId)
        && movieGenres == Unlinked(old(movieGenres), id)
        && movieActors == Unlinked(old(movieActors), id)
        && movieCountries == Unlinked(old(movieCountries), id)
        && Partners(movieGenres, id) == {} && Partners(movieActors, id) == {}
        && Partners(movieCountries, id) == {}
    {
      if id !in movies {
        return Refused(NotFound);
      }
      PartnersAfterUnlinking(movieGenres, id);
      PartnersAfterUnlinking(movieActors, id);
      PartnersAfterUnlinking(movieCountries, id);
      movieGenres := Unlinked(movieGenres, id);
      movieActors := Unlinked(movieActors, id);
      movieCountries := Unlinked(movieCountries, id);
      movies := movies - {id};
      reply := Deleted(id);
    }
  }
}
