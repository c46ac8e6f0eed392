# Movie catalogue CMS — a Dafny model of its core

This project models four parts of a movie-catalogue web application, a Node/Express backend with a React admin console:

- **The country registry** (`Countries`). Names are validated: letters and whitespace only. They are normalised: the first character is upper-cased and the rest lower-cased. Names must stay unique. The four handlers create, list, delete and update over the `id -> name` table. `CountryTable` is a class whose methods update the table in place. `List` builds the alphabetical listing with a loop.
- **The movie handlers** (`Movies`):
  - `createMovie` checks the upload and the title, inserts the row, then links the listed genres, actors and countries that exist. When an id list cannot be parsed, the row is already inserted and the reply is a 500.
  - `getMovies` returns the 100 highest ids in descending order, each with its associations.
  - `deleteMovie` clears the three join tables for the movie, then removes the row.

  `MovieStore` holds the movie table and the three join tables.
- **The actors page of the admin console**:
  - `ActorList` covers the pure list logic: the case-insensitive search filter, the ten-row pages of `slice`, the page count and the strip of page buttons.
  - `ActorsPage` covers the component state and its event handlers. The form's submit checks are there, and so is the delete that filters the local list.
- **The client routes** (`Routes`). There are three guards: Admin only, Admin or User, and signed-out users only. The route table has the admin console nested inside its own guard. A spinner shows while the session is checked, and unknown paths redirect to the home page.

Helper modules: `Wrappers` (`Option`, standing for `null`/`undefined`), `Sets` (one set lemma), `Numbers` (`Math.min`) and `Text`. `Text` holds ASCII case mapping, JavaScript's `\s` class, and `includes` with its proof against an index-based definition.

Calls to the database, the file system, the server and the browser are turned into parameters or state. The authentication store is one example. Another is whether a request succeeded: each handler that talks to the server receives it as a `serverOk` argument. Another is the user's answer to a confirmation dialog.

## Model

| member | source | states |
|---|---|---|
| Text.Lower | frontend/src/pages/cms/Actors.jsx:138 | `toLowerCase` keeps the length; it lower-cases each ASCII capital and leaves every other character as it is. |
| Text.ContainsIffOccurs | frontend/src/pages/cms/Actors.jsx:138 | `includes` holds exactly when the needle occurs at some index of the text. |
| Text.ContainsEmpty | frontend/src/pages/cms/Actors.jsx:138 | Every text includes the empty string. |
| Countries.Normalize | backend/controllers/countries.controller.js:19 | Same length as the name. The first character is upper-cased and every later one lower-cased. |
| Countries.ValidName | backend/controllers/countries.controller.js:4 | Definition of `isValidCountryName`: non-empty, letters and whitespace only. Its properties are stated by `CheckName`, `NonLetterRefused`, `BlankNameAccepted` and `NormalizeKeepsValid`. |
| Countries.NormalizeIdempotent | backend/controllers/countries.controller.js:19 | Normalising a normalised name changes nothing. |
| Countries.NormalizeKeepsValid | backend/controllers/countries.controller.js:4 | A name is valid exactly when its normalised form is. |
| Countries.NormalizeEqualIffSameUpToCase | backend/controllers/countries.controller.js:19-25 | Two names normalise alike exactly when they differ only in letter case. So the duplicate check refuses every case variant of a stored name. |
| Countries.CheckName | backend/controllers/countries.controller.js:11-19 | A missing or empty name gives "name required". A non-empty name outside `^[a-zA-Z\s]+$` gives "letters only". Any other name is accepted. An accepted name is returned normalised and in stored form. |
| Countries.NonLetterRefused | backend/controllers/countries.controller.js:14-16 | A name with a digit or a symbol anywhere is refused with status 400. |
| Countries.BlankNameAccepted | backend/controllers/countries.controller.js:4 | Every non-empty name made of whitespace alone passes validation and is stored unchanged. |
| Countries.NameLessIrreflexive | backend/controllers/countries.controller.js:44 | The listing order never puts a name before itself. |
| Countries.NameLessTransitive | backend/controllers/countries.controller.js:44 | The listing order is transitive. |
| Countries.NameLessTotal | backend/controllers/countries.controller.js:44 | Of any two different names, one comes first. |
| Countries.InsertByName | backend/controllers/countries.controller.js:44 | Inserting a row adds exactly that row, as a multiset. |
| Countries.InsertByNameSorted | backend/controllers/countries.controller.js:44 | Inserting a row with a new name into a sorted listing keeps it sorted. |
| Countries.CountryTable.Create | backend/controllers/countries.controller.js:7-33 | An invalid name is refused with its failure. A name whose normalised form is already stored is refused as taken. Otherwise the normalised name is stored under a fresh key and the reply is 201. Stored names stay valid, normalised and distinct. |
| Countries.CountryTable.List | backend/controllers/countries.controller.js:41-46 | Returns exactly the rows of the table, one entry each, sorted ascending by name. |
| Countries.CountryTable.Delete | backend/controllers/countries.controller.js:54-70 | An unknown id gives 404 and changes nothing. Otherwise exactly that row is removed. |
| Countries.CountryTable.Update | backend/controllers/countries.controller.js:78-113 | The checks run in the source's order: name check, then unknown id (404), then the normalised name held by a different row (taken). Otherwise only that row's name changes. Renaming a row to its own name succeeds. |
| Movies.PosterPath | backend/controllers/movies.controller.js:34 | The stored poster path is `uploads/movies/` followed by the uploaded file name. |
| Movies.LinkedIds | backend/controllers/movies.controller.js:63-66 | The linked ids are those both listed and existing, and only when the list parsed to a non-empty array. |
| Movies.UnknownIdsDropped | backend/controllers/movies.controller.js:63-68 | Any listed id with no row is dropped silently. A list that names no existing id links nothing. |
| Movies.Links | backend/controllers/movies.controller.js:63-86 | The pairs `addGenres`, `addActors` and `addCountries` insert: every pair belongs to the new movie, and its partner is exactly a linked id. |
| Movies.Unlinked | backend/controllers/movies.controller.js:183-186 | The pairs left by `set...([])`: a subset of the old pairs, with no partner left for the movie and every other movie's pairs kept. |
| Movies.PartnersAfterLinking | backend/controllers/movies.controller.js:62-87 | After linking, the new movie is associated with exactly the linked ids, and no other movie's associations change. |
| Movies.PartnersAfterUnlinking | backend/controllers/movies.controller.js:183-186 | After `set...([])` the movie has no associations, and every other movie keeps its own. |
| Movies.MaxOf | backend/controllers/movies.controller.js:135 | The highest id of a non-empty set is in the set and at least every member. |
| Movies.MaxWitness | backend/controllers/movies.controller.js:135 | Every non-empty set of ids has a highest member. |
| Movies.LatestIds | backend/controllers/movies.controller.js:135-136 | Returns min(limit, count) ids from the set, strictly descending. Every id left out is smaller than every id returned. |
| Movies.LatestListings | backend/controllers/movies.controller.js:104-137 | Returns at most 100 movies with strictly descending ids. Each entry is a stored movie with its own genres, actors and countries. Every movie left out has a smaller id than every movie listed. |
| Movies.MovieStore.CreateMovie | backend/controllers/movies.controller.js:9-101 | A non-image upload gives 400, and so does a missing poster or title; both change nothing. Otherwise the row is inserted under a fresh id. If an id list does not parse, the reply is 500 and nothing is linked. Otherwise the reply is 201, the join tables gain exactly the links to existing listed ids, and associations stay within existing rows. |
| Movies.MovieStore.GetMovies | backend/controllers/movies.controller.js:104-137 | The store's listing: at most 100 entries, all of them when there are at most 100 movies, strictly descending ids, each a stored movie with its own title. |
| Movies.MovieStore.DeleteMovie | backend/controllers/movies.controller.js:154-194 | An unknown id gives 404 and changes nothing. Otherwise all of the movie's pairs leave the three join tables, then the row goes. Other movies and the entity tables are untouched. |
| ActorList.Filtered | frontend/src/pages/cms/Actors.jsx:137-139 | An actor is listed exactly when it is in the list and its lower-cased name includes the lower-cased query. |
| ActorList.FilteredKeepsOrder | frontend/src/pages/cms/Actors.jsx:137-139 | The filter distributes over concatenation, so the listed actors keep their original order. |
| ActorList.EmptyQueryKeepsAll | frontend/src/pages/cms/Actors.jsx:137-139 | An empty search lists every actor, in order. |
| ActorList.FilterIgnoresQueryCase | frontend/src/pages/cms/Actors.jsx:138 | Searching for a query or for its lower-case form gives the same list. |
| ActorList.WithoutId | frontend/src/pages/cms/Actors.jsx:110-112 | After a delete, the list holds exactly the actors whose id differs. |
| ActorList.WithoutIdKeepsOrder | frontend/src/pages/cms/Actors.jsx:110-112 | The filter distributes over concatenation, so the survivors keep their order. |
| ActorList.WithoutAbsentId | frontend/src/pages/cms/Actors.jsx:110-112 | Deleting an id that no listed actor has leaves the list unchanged. |
| ActorList.SliceIndex | frontend/src/pages/cms/Actors.jsx:143-146 | `slice` clamps an index into `0..length`, and a non-negative index is clamped from above only. |
| ActorList.Slice | frontend/src/pages/cms/Actors.jsx:143-146 | `slice(start, end)`: exactly the items from the clamped start up to the clamped end, in order, or none when the clamped end is not past the clamped start. |
| ActorList.PageItems | frontend/src/pages/cms/Actors.jsx:141-146 | `currentActors`: every row is an item of the filtered list; the exact page contents are stated by `PageItemsWindow`. |
| ActorList.PageItemsWindow | frontend/src/pages/cms/Actors.jsx:141-146 | Page p holds at most ten rows, exactly the items from index (p-1)*10. The row numbered n (line 249) is item n-1. |
| ActorList.EveryItemOnItsPage | frontend/src/pages/cms/Actors.jsx:141-146 | Item i is shown on page i/10+1, in row i%10. |
| ActorList.PageCount | frontend/src/pages/cms/Actors.jsx:153 | `Math.ceil(n/10)`: the least count of ten-row pages that holds n items. It is 0 exactly when n is 0. |
| ActorList.LastPageFilled | frontend/src/pages/cms/Actors.jsx:141-156 | The last page has rows and the page after it has none. |
| ActorList.PageBeyondCountEmpty | frontend/src/pages/cms/Actors.jsx:141-146 | A page past the last one shows no rows. |
| ActorList.BlockStart | frontend/src/pages/cms/Actors.jsx:371-375 | The first candidate button is page 2 while the current page is at most 10. After that it is the block start 11, 21, 31 … at or below the current page, with the current page among the ten from it. |
| ActorList.Candidate | frontend/src/pages/cms/Actors.jsx:373-375 | Definition of the `pageNumber` expression; its properties are stated by `BlockStart` and `WindowShape`. |
| ActorList.WindowFrom | frontend/src/pages/cms/Actors.jsx:371-393 | Definition of the ten-step loop of candidates, keeping `1 < page < total`; its closed form is stated by `WindowFromIsRange`. |
| ActorList.Window | frontend/src/pages/cms/Actors.jsx:371-393 | Definition of the middle buttons; their shape is stated by `WindowShape` and `WindowWithin`. |
| ActorList.WindowFromIsRange | frontend/src/pages/cms/Actors.jsx:371-393 | From any step on, the kept candidates are the consecutive pages from the block start up to ten past it, cut off before the last page. |
| ActorList.WindowShape | frontend/src/pages/cms/Actors.jsx:371-393 | The middle buttons are the consecutive pages from the block start, at most ten, strictly between 1 and the last page. |
| ActorList.CurrentPageInWindow | frontend/src/pages/cms/Actors.jsx:371-393 | A current page strictly between the first and the last has its own middle button. |
| ActorList.PageStripEnds | frontend/src/pages/cms/Actors.jsx:341-418 | Except for exactly one page, the strip opens with page 1 and closes with the page count. |
| ActorList.PageStrip | frontend/src/pages/cms/Actors.jsx:341-418 | Definition of the strip as written; its properties are stated by `PageStripEnds`, `PageStripLeadingEllipsis`, `PageStripMiddle`, `PageStripTargets` and the two Findings. |
| ActorList.PageStripLeadingEllipsis | frontend/src/pages/cms/Actors.jsx:363-368 | The item after page 1 is an ellipsis exactly when the current page is beyond 10. |
| ActorList.PageStripMiddle | frontend/src/pages/cms/Actors.jsx:371-393 | Every button between the first and the last is strictly between page 1 and the page count. |
| ActorList.PageStripTargets | frontend/src/pages/cms/Actors.jsx:341-418 | Every button of the strip as written leads to page 1, the last page, or a page between them. |
| ActorList.EmptyListShowsPageZero | frontend/src/pages/cms/Actors.jsx:341-418 | With no matching actors, the strip as written offers a button for page 0 and is not honest. |
| ActorList.ShortStripTail | frontend/src/pages/cms/Actors.jsx:371-401 | Up to page 10 with 13 to current+9 pages, the strip ends with page 11 followed directly by the last page. |
| ActorList.TrailingEllipsisMissing | frontend/src/pages/cms/Actors.jsx:395-401 | In that case the strip hides page 12 without an ellipsis, so it is not honest. |
| ActorList.FullBlockTail | frontend/src/pages/cms/Actors.jsx:371-401 | On page 10k+1 of 10k+11 the strip ends with the block's last page, an ellipsis, and the last page. |
| ActorList.TrailingEllipsisSpurious | frontend/src/pages/cms/Actors.jsx:395-401 | In that case an ellipsis stands between two consecutive pages, so the strip is not honest. |
| ActorList.RenderHonest | frontend/src/pages/cms/Actors.jsx:341-418 | Rendering strictly increasing pages, with an ellipsis exactly where numbers skip, gives an honest strip. |
| ActorList.RenderEnds | frontend/src/pages/cms/Actors.jsx:341-418 | The rendered strip starts with the first page of the list and ends with its last page. |
| ActorList.FixedStripHonest | frontend/src/pages/cms/Actors.jsx:341-418 | The corrected strip is honest. It runs from page 1 to the last page, or is the single button 1 when there is at most one page. |
| ActorList.FixedStripShowsCurrent | frontend/src/pages/cms/Actors.jsx:371-393 | The corrected strip always offers the current page when it is a real page. |
| ActorList.FixedStripTargets | frontend/src/pages/cms/Actors.jsx:341-418 | Every button of the corrected strip leads to page 1 or to a page up to the page count. |
| ActorsPage.SubmitCheck | frontend/src/pages/cms/Actors.jsx:29-74 | With no name, or with neither a new file nor a stored picture, the form is incomplete. Otherwise a new file that is not JPG, PNG or GIF is refused. Otherwise a request carrying the name is sent. It carries the new file when there is one, else the stored path. It is an update of the edited id exactly when that id is truthy. |
| ActorsPage.SentRequestComplete | frontend/src/pages/cms/Actors.jsx:29-49 | Every request sent has a non-empty name and a picture: an accepted image type, or a non-empty stored path. |
| ActorsPage.EditThenSubmitUpdates | frontend/src/pages/cms/Actors.jsx:126-131 | Submitting right after editing an actor with a name and a picture updates that actor and keeps its picture. |
| ActorsPage.SummaryMatchesRows | frontend/src/pages/cms/Actors.jsx:323-325 | On a page with rows, "Showing a to b of n" names exactly the first and last row numbers shown, and b ≤ n. |
| ActorsPage.SummaryOf | frontend/src/pages/cms/Actors.jsx:323-325 | Definition of "Showing a to b of n"; its properties are stated by `SummaryMatchesRows`. |
| ActorsPage.ActorsPage.Shown | frontend/src/pages/cms/Actors.jsx:137-139 | The listed actors are exactly the held actors matching the search. |
| ActorsPage.ActorsPage.Rows | frontend/src/pages/cms/Actors.jsx:141-146 | The table shows at most ten actors, all of them held and matching the search. |
| ActorsPage.ActorsPage.TotalPages | frontend/src/pages/cms/Actors.jsx:153 | The page count holds every listed actor, and is 0 exactly when nothing is listed. |
| ActorsPage.ActorsPage.Strip | frontend/src/pages/cms/Actors.jsx:341-418 | The corrected strip (`PageStripFixed`, see Findings), which the class shows in place of the strip as written, is honest and starts with page 1, and it offers the current page whenever that is a real page. |
| ActorsPage.ActorsPage.constructor | frontend/src/pages/cms/Actors.jsx:5-11 | The page starts on page 1 with an empty form, an empty search and no actors. |
| ActorsPage.ActorsPage.Load | frontend/src/pages/cms/Actors.jsx:91-103 | A successful fetch replaces the held list and touches nothing else. |
| ActorsPage.ActorsPage.ChangeFile | frontend/src/pages/cms/Actors.jsx:14-16 | Only the selected file changes. |
| ActorsPage.ActorsPage.ChangeName | frontend/src/pages/cms/Actors.jsx:18-20 | Only the name field changes. |
| ActorsPage.ActorsPage.ChangeSearch | frontend/src/pages/cms/Actors.jsx:22-24 | Only the query changes; the page number stays. When the new filter has fewer pages, the table is empty. |
| ActorsPage.ActorsPage.Submit | frontend/src/pages/cms/Actors.jsx:26-89 | The outcome is `SubmitCheck` of the form. The form is cleared exactly when a request was sent and the server accepted it; otherwise nothing changes. |
| ActorsPage.ActorsPage.Delete | frontend/src/pages/cms/Actors.jsx:105-124 | Nothing changes unless the delete is confirmed and succeeds. If it is, the actor leaves the list, and the form is cleared exactly when it was editing that actor. |
| ActorsPage.ActorsPage.Edit | frontend/src/pages/cms/Actors.jsx:126-131 | The form takes the actor's name, id and stored picture, and the selected file is dropped. |
| ActorsPage.ActorsPage.PreviousPage | frontend/src/pages/cms/Actors.jsx:148-150 | Goes back one page unless on page 1. The page number stays at least 1. |
| ActorsPage.ActorsPage.NextPage | frontend/src/pages/cms/Actors.jsx:152-156 | Goes forward one page only while a later page exists, so it never moves past the page count. |
| ActorsPage.ActorsPage.ClickPage | frontend/src/pages/cms/Actors.jsx:341-418 | A click on a strip button moves to that page. That page is page 1 or one up to the page count. |
| Routes.Protected | frontend/src/App.jsx:40-60 | Renders exactly for an authenticated, verified Admin. Otherwise it sends the user to `/login` exactly when not authenticated, to `/verify-email` exactly when authenticated but unverified, and else to `/`. |
| Routes.AdminOrUser | frontend/src/App.jsx:62-82 | The same as `Protected`, but it admits the roles Admin and User. |
| Routes.SignedOutOnly | frontend/src/App.jsx:85-93 | Renders exactly unless the user is authenticated and verified. Otherwise it redirects to `/`. |
| Routes.Then | frontend/src/App.jsx:113-123 | A guard inside a guard: it renders exactly when both do, and a redirect comes from one of the two. |
| Routes.ProtectedIsStricter | frontend/src/App.jsx:40-82 | Whoever passes the Admin guard passes the Admin-or-User guard. |
| Routes.NestedGuardIsProtected | frontend/src/App.jsx:113-182 | Inside the console layout, the child's own guard alone decides. |
| Routes.SignedOutPagesComplementGuards | frontend/src/App.jsx:40-93 | The sign-in pages are open exactly to those whom the guards send to `/login` or `/verify-email`. |
| Routes.CmsSegmentMatches | frontend/src/App.jsx:113-182 | `/cms` selects the console index, and `/cms/<child>` selects that child. |
| Routes.View | frontend/src/App.jsx:95-221 | A spinner shows exactly while the session is checked. Then an unmatched path goes to `/`. A matched page is shown exactly when its guard allows, and otherwise the user goes where the guard redirects. A shown page is one the path selects. |
| Routes.Match | frontend/src/App.jsx:104-221 | Only `/` selects the home page, and a path of more than two segments matches nothing. The rest of the table is stated by `PathSelectsPage` and `CmsSegmentMatches`. |
| Routes.GuardOf | frontend/src/App.jsx:104-221 | Every guard redirect goes to `/`, `/login` or `/verify-email`. |
| Routes.PathSelectsPage | frontend/src/App.jsx:104-217 | Every page of the table is selected by its own path. |
| Routes.PublicAndSignInAccess | frontend/src/App.jsx:104-217 | The public pages are shown to everyone. The four sign-in pages are shown exactly to users not both signed in and verified, and others are sent to `/`. |
| Routes.CmsAccess | frontend/src/App.jsx:113-182 | Every console page, the index included, is shown exactly to verified Admins. The exception is `input-drama`, which is shown to verified Admins and Users. |
| Routes.UserLeavesCmsIndex | frontend/src/App.jsx:122-123 | A verified User opening `/cms` is sent to `/`. The same User can open `/cms/input-drama`. |
| Routes.RedirectsSettle | frontend/src/App.jsx:40-221 | Every redirect lands on a page that is shown, so redirects never chain or loop. |

## Left out

- Text.Lower: maps ASCII letters only, unlike JavaScript's Unicode `toLowerCase`. Validated country names contain only ASCII letters and whitespace, so for them the mapping is exact. For the actor search it differs: in the model a query "é" does not find "Élodie", and the one-to-two mapping of "İ" is not modelled.
- Countries.CountryTable.List: the database collation is modelled as code-point order (`NameLess`). A case- or accent-insensitive collation would order some names differently.
- Countries.CountryTable.Update: route ids are taken as integers. The `parseInt` of a string parameter and `findByPk`'s string-to-key conversion are not modelled.
- The duplicate-name lookups compare names exactly. A database collation that ignores trailing spaces or case is not modelled.
- Every 500 reply that comes from a failing database call is left out. The one 500 of `createMovie` that its own input causes, an unparseable id list, is modelled.
- The poster file on disk is not modelled: multer's upload, and the `fs.unlink` in `deleteMovie`. Console logging is not modelled either.
- `getMovies` computes an offset from `Movie.count()` but never passes it to the query. The model follows the query: the 100 highest ids, descending.
- Movies.LatestListings: the listing's nested entities are given as id sets. Their names and profile paths are not modelled.
- ActorsPage.ActorsPage.Load: `fetchActors` sorts the fetched list with `localeCompare`, and that ordering is not modelled. The list is passed in already ordered. The request with `limit: 5000` is not modelled.
- Alerts, the browser confirmation dialog and the network are parameters: `confirmed` and `serverOk`. Concurrent or out-of-order responses are not modelled.
- ActorsPage.ActorsPage.Strip: the class shows the corrected strip `PageStripFixed` (see Findings), not the strip of `Actors.jsx` lines 341-418 as written, which is `ActorList.PageStrip` and is proved dishonest for an empty list, page 10 of 13 and page 11 of 21. So the honesty the class's strip promises is not a property of the page as written.
- ActorsPage.ActorsPage.ClickPage: the class uses the corrected strip `PageStripFixed` (see Findings). The strip as written is `PageStrip`. There, page 0 can be reached through the "0" button of an empty list.
- Routes: paths are given already split into non-empty segments. Static segments match with ASCII case-insensitivity. URL decoding, query strings and Unicode case folding in the router are not modelled. How the authentication store obtains its state (`checkAuth`) is not modelled.
- The comments in `App.jsx` call the `/cms` index "accessible by both Admin and User". The code wraps it in the Admin-only guard. The model follows the code (`Routes.UserLeavesCmsIndex`).
- The country table (`Countries.CountryTable`) and the country ids of the movie store (`Movies.MovieStore`) are separate state. Deleting a country therefore leaves its pairs in the movie store; the database's foreign-key behaviour is not modelled.
- The genre controller and the country routes file are context only; they are not part of this model.

## Findings

| source | as written | input that shows it | evidently intended | confidence | as-written member | corrected member |
|---|---|---|---|---|---|---|
| frontend/src/pages/cms/Actors.jsx:341-418 | The single-button case applies only when `Math.ceil(n/10) === 1`. With no matching actors the count is 0, so the full strip renders. Its last button reads "0" and sets the page to 0. | A search that matches no actor: the strip shows buttons 1 and 0. | One page button "1", as for a single page. | not executed | ActorList.EmptyListShowsPageZero | ActorList.FixedStripHonest |
| frontend/src/pages/cms/Actors.jsx:395-401 | The trailing ellipsis is shown when `currentPage <= total - 10`. That test does not say whether any pages lie between the last middle button and the last page. | Page 10 of 13 (121 to 130 matching actors) shows 1, 2…11, 13, with page 12 missing and no ellipsis. Page 11 of 21 shows 1 … 11…20 … 21, with an ellipsis over nothing. | An ellipsis exactly where page numbers are skipped. | not executed | ActorList.TrailingEllipsisMissing | ActorList.FixedStripHonest |
