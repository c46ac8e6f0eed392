/**
 * The state of the actors page of the admin console and its event
 * handlers: the insert/edit form, the search box, the page number and the
 * locally held list of actors. Server calls are parameters: each handler
 * that talks to the server is told whether the call succeeded.
 */
module ActorsPage {
  import opened Wrappers
  import opened Text
  import opened Numbers
  import opened ActorList

  /** The part of a browser `File` the page looks at. */
  datatype FileInfo = FileInfo(mimeType: string, name: string)

  /** `validImageTypes` */
  const ValidImageTypes: seq<string> := ["image/jpeg", "image/png", "image/gif"]

  /** What goes into the `profile_path` field of the form data. */
  datatype Profile = NewFile(file: FileInfo) | ExistingPath(path: string)

  /** The request `handleSubmit` sends: a PUT to `/api/actors/:id` or a POST to `/api/actors`. */
  datatype Request =
    | CreateActor(name: string, profile: Profile)
    | UpdateActor(id: int, name: string, profile: Profile)

  datatype SubmitOutcome =
    | MissingFields     // "Please provide both a name and a profile picture."
    | UnsupportedImage  // "Only JPG, PNG, and GIF files are allowed."
    | Sent(request: Request)

  /** JavaScript truthiness of the id being edited (`null` and `0` are falsy). */
  predicate Editing(editingId: Option<int>) {
    editingId.Some? && editingId.value != 0
  }

  /** The checks and the request of `handleSubmit`, before the server answers. */
  function SubmitCheck(name: string, file: Option<FileInfo>, editingId: Option<int>, existingPath: Option<string>): (r: SubmitOutcome)
    ensures r == MissingFields <==> name == [] || (file.None? && !Present(existingPath))
    ensures r == UnsupportedImage <==> name != [] && file.Some? && file.value.mimeType !in ValidImageTypes
    ensures r.Sent? ==> r.request.name == name
    ensures r.Sent? ==> (r.request.UpdateActor? <==> Editing(editingId))
    ensures r.Sent? && r.request.UpdateActor? ==> editingId == Some(r.request.id)
    ensures r.Sent? ==> r.request.profile == if file.Some? then NewFile(file.value) else ExistingPath(existingPath.value)
  {
    if name == [] || (file.None? && !Present(existingPath)) then MissingFields
    else if file.Some? && file.value.mimeType !in ValidImageTypes then UnsupportedImage
    else
      var profile := if file.Some? then NewFile(file.value) else ExistingPath(existingPath.value);
      Sent(if Editing(editingId) then UpdateActor(editingId.value, name, profile) else CreateActor(name, profile))
  }

  function ProfileOf(request: Request): Profile {
    match request
    case CreateActor(_, profile) => profile
    case UpdateActor(_, _, profile) => profile
  }

  /**
   * Whatever the form holds, a request that leaves the page has a name and
   * a picture: a newly chosen JPG, PNG or GIF, or a non-empty stored path.
   */
  lemma SentRequestComplete(name: string, file: Option<FileInfo>, editingId: Option<int>, existingPath: Option<string>)
    requires SubmitCheck(name, file, editingId, existingPath).Sent?
    ensures var request := SubmitCheck(name, file, editingId, existingPath).request;
      && request.name != []
      && (ProfileOf(request).NewFile? ==> ProfileOf(request).file.mimeType in ValidImageTypes)
      && (ProfileOf(request).ExistingPath? ==> ProfileOf(request).path != [])
  {
  }

  /**
   * Submitting right after `handleEdit` on an actor with a name and a stored
   * picture updates that actor and keeps its picture.
   */
  lemma EditThenSubmitUpdates(actor: Actor)
    requires actor.name != [] && Present(actor.profilePath) && actor.id != 0
    ensures SubmitCheck(actor.name, None, Some(actor.id), actor.profilePath)
         == Sent(UpdateActor(actor.id, actor.name, ExistingPath(actor.profilePath.value)))
  {
  }

  /** The "Showing a to b of n results" line. */
  datatype Summary = Summary(first: int, last: int, count: nat)

  function SummaryOf(page: int, count: nat): Summary {
    Summary(FirstIndex(page) + 1, Min(page * ItemsPerPage, count), count)
  }

  /** On a page that has rows, the summary names exactly the row numbers shown. */
  lemma SummaryMatchesRows<T>(items: seq<T>, page: int)
    requires page >= 1 && |PageItems(items, page)| > 0
    ensures var summary := SummaryOf(page, |items|);
      && summary.first == RowNumber(page, 0)
      && summary.last == RowNumber(page, |PageItems(items, page)| - 1)
      && summary.first <= summary.last <= summary.count
  {
    PageItemsWindow(items, page);
  }

  class ActorsPage {
    var actors: seq<Actor>
    var searchQuery: string
    var currentPage: int
    var actorName: string
    var selectedFile: Option<FileInfo>
    var editingActorId: Option<int>
    var existingProfilePath: Option<string>

    /** The page number never goes below 1. */
    predicate Valid()
      reads this
    {
      currentPage >= 1
    }

    /** `filteredActors` */
    function Shown(): (r: seq<Actor>)
      reads this
      ensures forall a :: a in r <==> a in actors && Matches(a, searchQuery)
    {
      Filtered(actors, searchQuery)
    }

    /** `Math.ceil(filteredActors.length / itemsPerPage)` */
    function TotalPages(): (n: nat)
      reads this
      ensures n * ItemsPerPage >= |Shown()|
      ensures n == 0 <==> Shown() == []
    {
      PageCount(|Shown()|)
    }

    /** `currentActors`: the rows of the table. */
    function Rows(): (r: seq<Actor>)
      reads this
      ensures |r| <= ItemsPerPage
      ensures forall a :: a in r ==> a in actors && Matches(a, searchQuery)
    {
      var r := PageItems(Shown(), currentPage);
      assert forall a :: a in r ==> a in Shown() by {
        if currentPage >= 1 {
          PageItemsWindow(Shown(), currentPage);
        }
      }
      r
    }

    /** The page-button strip, with the ellipsis and empty-list corrections of `PageStripFixed`. */
    function Strip(): (r: seq<StripItem>)
      reads this
      ensures Honest(r) && r[0] == PageButton(1)
      ensures 1 <= currentPage <= TotalPages() ==> PageButton(currentPage) in r
    {
      FixedStripHonest(currentPage, TotalPages());
      if 1 <= currentPage <= TotalPages() then FixedStripShowsCurrent(currentPage, TotalPages()); PageStripFixed(currentPage, TotalPages())
      else PageStripFixed(currentPage, TotalPages())
    }

    constructor ()
      ensures Valid()
      ensures actors == [] && searchQuery == [] && currentPage == 1
      ensures actorName == [] && selectedFile == None && editingActorId == None && existingProfilePath == None
    {
      actors := [];
      searchQuery := [];
      currentPage := 1;
      actorName := [];
      selectedFile := None;
      editingActorId := None;
      existingProfilePath := None;
    }

    /** `fetchActors` succeeded with this list (already ordered by name). */
    method Load(fetched: seq<Actor>)
      requires Valid()
      modifies this
      ensures Valid()
      ensures actors == fetched
      ensures searchQuery == old(searchQuery) && currentPage == old(currentPage)
      ensures actorName == old(actorName) && selectedFile == old(selectedFile)
      ensures editingActorId == old(editingActorId) && existingProfilePath == old(existingProfilePath)
    {
      actors := fetched;
    }

    /** `handleFileChange`: `None` when the chooser was cancelled. */
    method ChangeFile(file: Option<FileInfo>)
      requires Valid()
      modifies this
      ensures Valid()
      ensures selectedFile == file
      ensures actors == old(actors) && searchQuery == old(searchQuery) && currentPage == old(currentPage)
      ensures actorName == old(actorName) && editingActorId == old(editingActorId) && existingProfilePath == old(existingProfilePath)
    {
      selectedFile := file;
    }

    /** `handleNameChange` */
    method ChangeName(name: string)
      requires Valid()
      modifies this
      ensures Valid()
      ensures actorName == name
      ensures actors == old(actors) && searchQuery == old(searchQuery) && currentPage == old(currentPage)
      ensures selectedFile == old(selectedFile) && editingActorId == old(editingActorId) && existingProfilePath == old(existingProfilePath)
    {
      actorName := name;
    }

    /** `handleSearchChange`: the page number is kept, even when the new filter has fewer pages. */
    method ChangeSearch(query: string)
      requires Valid()
      modifies this
      ensures Valid()
      ensures searchQuery == query
      ensures actors == old(actors) && currentPage == old(currentPage)
      ensures actorName == old(actorName) && selectedFile == old(selectedFile)
      ensures editingActorId == old(editingActorId) && existingProfilePath == old(existingProfilePath)
      ensures currentPage > TotalPages() ==> Rows() == []
    {
      searchQuery := query;
      if currentPage > TotalPages() {
        PageBeyondCountEmpty(Shown(), currentPage);
      }
    }

    /**
     * `handleSubmit`. `serverOk` says whether the POST or PUT succeeded. The
     * form is cleared exactly when a request was sent and accepted;
     * otherwise nothing changes. The list is refreshed by a later `Load`.
     */
    method Submit(serverOk: bool) returns (outcome: SubmitOutcome)
      requires Valid()
      modifies this
      ensures Valid()
      ensures outcome == SubmitCheck(old(actorName), old(selectedFile), old(editingActorId), old(existingProfilePath))
      ensures actors == old(actors) && searchQuery == old(searchQuery) && currentPage == old(currentPage)
      ensures outcome.Sent? && serverOk ==>
        actorName == [] && selectedFile == None && existingProfilePath == None && editingActorId == None
      ensures !(outcome.Sent? && serverOk) ==>
        && actorName == old(actorName) && selectedFile == old(selectedFile)
        && existingProfilePath == old(existingProfilePath) && editingActorId == old(editingActorId)
    {
      outcome := SubmitCheck(actorName, selectedFile, editingActorId, existingProfilePath);
      if outcome.Sent? && serverOk {
        actorName := [];
        selectedFile := None;
        existingProfilePath := None;
        editingActorId := None;
      }
    }

    /**
     * `handleDelete`. `confirmed` is the answer to the confirmation dialog and
     * `serverOk` whether the DELETE succeeded. On success the actor leaves
     * the local list, and the form is cleared if it was editing that actor.
     */
    method Delete(actorId: int, confirmed: bool, serverOk: bool)
      requires Valid()
      modifies this
      ensures Valid()
      ensures searchQuery == old(searchQuery) && currentPage == old(currentPage)
      ensures !(confirmed && serverOk) ==>
        && actors == old(actors) && actorName == old(actorName) && selectedFile == old(selectedFile)
        && existingProfilePath == old(existingProfilePath) && editingActorId == old(editingActorId)
      ensures confirmed && serverOk ==> actors == WithoutId(old(actors), actorId)
      ensures confirmed && serverOk && old(editingActorId) == Some(actorId) ==>
        actorName == [] && selectedFile == None && existingProfilePath == None && editingActorId == None
      ensures confirmed && serverOk && old(editingActorId) != Some(actorId) ==>
        && actorName == old(actorName) && selectedFile == old(selectedFile)
        && existingProfilePath == old(existingProfilePath) && editingActorId == old(editingActorId)
    {
      if !confirmed || !serverOk {
        return;
      }
      actors := WithoutId(actors, actorId);
      if editingActorId == Some(actorId) {
        editingActorId := None;
        actorName := [];
        selectedFile := None;
        existingProfilePath := None;
      }
    }

    /** `handleEdit`: the form takes the actor's name and stored picture. */
    method Edit(actor: Actor)
      requires Valid()
      modifies this
      ensures Valid()
      ensures actorName == actor.name && editingActorId == Some(actor.id)
      ensures existingProfilePath == actor.profilePath && selectedFile == None
      ensures actors == old(actors) && searchQuery == old(searchQuery) && currentPage == old(currentPage)
    {
      actorName := actor.name;
      editingActorId := Some(actor.id);
      existingProfilePath := actor.profilePath;
      selectedFile := None;
    }

    /** `handlePreviousPage`: back one page unless on page 1. */
    method PreviousPage()
      requires Valid()
      modifies this
      ensures Valid()
      ensures currentPage == if old(currentPage) > 1 then old(currentPage) - 1 else old(currentPage)
      ensures actors == old(actors) && searchQuery == old(searchQuery)
      ensures actorName == old(actorName) && selectedFile == old(selectedFile)
      ensures editingActorId == old(editingActorId) && existingProfilePath == old(existingProfilePath)
    {
      if currentPage > 1 {
        currentPage := currentPage - 1;
      }
    }

    /** `handleNextPage`: forward one page while there is a later page. */
    method NextPage()
      requires Valid()
      modifies this
      ensures Valid()
      ensures currentPage == if old(currentPage) < TotalPages() then old(currentPage) + 1 else old(currentPage)
      ensures old(currentPage) <= TotalPages() ==> currentPage <= TotalPages()
      ensures actors == old(actors) && searchQuery == old(searchQuery)
      ensures actorName == old(actorName) && selectedFile == old(selectedFile)
      ensures editingActorId == old(editingActorId) && existingProfilePath == old(existingProfilePath)
    {
      if currentPage < TotalPages() {
        currentPage := currentPage + 1;
      }
    }

    /** A click on a button of the strip goes to that page: page 1 or one that has rows. */
    method ClickPage(page: int)
      requires Valid() && PageButton(page) in Strip()
      modifies this
      ensures Valid()
      ensures currentPage == page
      ensures page == 1 || 1 < page <= old(TotalPages())
      ensures actors == old(actors) && searchQuery == old(searchQuery)
      ensures actorName == old(actorName) && selectedFile == old(selectedFile)
      ensures editingActorId == old(editingActorId) && existingProfilePath == old(existingProfilePath)
    {
      FixedStripTargets(currentPage, TotalPages(), page);
      currentPage := page;
    }
  }
}
