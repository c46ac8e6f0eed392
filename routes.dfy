/**
 * The client-side routes of the single-page application and the three
 * guards that wrap them. The authentication store is a parameter: each
 * decision is a function of what the store reports.
 */
module Routes {
  import opened Text

  /** What `useAuthStore()` reports; `isVerified` and `role` are read from `user`. */
  datatype AuthState = AuthState(isCheckingAuth: bool, isAuthenticated: bool, isVerified: bool, role: string)

  /** A path as its non-empty segments: "/cms/actors" is ["cms", "actors"], "/" is []. */
  type Path = seq<string>

  const HomePath: Path := []
  const LoginPath: Path := ["login"]
  const VerifyEmailPath: Path := ["verify-email"]

  /** What a guard does: render its children, or `<Navigate to=... replace />`. */
  datatype Decision = Allow | Redirect(to: Path)

  /** `ProtectedRoute`: signed in, verified, and an Admin. */
  function Protected(auth: AuthState): (d: Decision)
    ensures d == Allow <==> auth.isAuthenticated && auth.isVerified && auth.role == "Admin"
    ensures d == Redirect(LoginPath) <==> !auth.isAuthenticated
    ensures d == Redirect(VerifyEmailPath) <==> auth.isAuthenticated && !auth.isVerified
    ensures auth.isAuthenticated && auth.isVerified && auth.role != "Admin" ==> d == Redirect(HomePath)
  {
    if !auth.isAuthenticated then Redirect(LoginPath)
    else if !auth.isVerified then Redirect(VerifyEmailPath)
    else if auth.role != "Admin" then Redirect(HomePath)
    else Allow
  }

  /** `AdminOrUserProtectedRoute`: signed in, verified, and an Admin or a User. */
  function AdminOrUser(auth: AuthState): (d: Decision)
    ensures d == Allow <==> auth.isAuthenticated && auth.isVerified && (auth.role == "Admin" || auth.role == "User")
    ensures d == Redirect(LoginPath) <==> !auth.isAuthenticated
    ensures d == Redirect(VerifyEmailPath) <==> auth.isAuthenticated && !auth.isVerified
    ensures auth.isAuthenticated && auth.isVerified && auth.role != "Admin" && auth.role != "User" ==>
      d == Redirect(HomePath)
  {
    if !auth.isAuthenticated then Redirect(LoginPath)
    else if !auth.isVerified then Redirect(VerifyEmailPath)
    else if auth.role != "Admin" && auth.role != "User" then Redirect(HomePath)
    else Allow
  }

  /** `RedirectAuthenticatedUser`: pages for signed-out users send verified users home. */
  function SignedOutOnly(auth: AuthState): (d: Decision)
    ensures d == Allow <==> !(auth.isAuthenticated && auth.isVerified)
    ensures d != Allow ==> d == Redirect(HomePath)
  {
    if auth.isAuthenticated && auth.isVerified then Redirect(HomePath) else Allow
  }

  /** A guard inside a guard: the outer one decides first. */
  function Then(outer: Decision, inner: Decision): (d: Decision)
    ensures d == Allow <==> outer == Allow && inner == Allow
    ensures d.Redirect? ==> d == outer || d == inner
  {
    if outer.Redirect? then outer else inner
  }

  /** Whoever passes `ProtectedRoute` passes `AdminOrUserProtectedRoute`. */
  lemma ProtectedIsStricter(auth: AuthState)
    ensures Protected(auth) == Allow ==> AdminOrUser(auth) == Allow
  {
  }

  /** Inside the `/cms` layout the Admin-only guard decides alone: the outer guard never redirects elsewhere. */
  lemma NestedGuardIsProtected(auth: AuthState)
    ensures Then(AdminOrUser(auth), Protected(auth)) == Protected(auth)
    ensures Then(AdminOrUser(auth), AdminOrUser(auth)) == AdminOrUser(auth)
  {
  }

  /**
   * The sign-in pages are open exactly to those the guards would send to
   * `/login` or `/verify-email`.
   */
  lemma SignedOutPagesComplementGuards(auth: AuthState)
    ensures SignedOutOnly(auth) == Allow <==> Protected(auth) in {Redirect(LoginPath), Redirect(VerifyEmailPath)}
    ensures SignedOutOnly(auth) == Allow <==> AdminOrUser(auth) in {Redirect(LoginPath), Redirect(VerifyEmailPath)}
  {
  }

  // ---------------------------------------------------------------------------
  // The route table
  // ---------------------------------------------------------------------------

  datatype CmsPage = Dashboard | CountriesPage | GenresPage | ActorsCms | ReviewsPage | UsersPage | InputDrama

  datatype Page =
    | HomePage
    | DetailPage(id: string)
    | SearchPage
    | AllMoviesPage
    | CmsLayout(child: CmsPage)
    | SignUpPage
    | LoginPage
    | EmailVerificationPage
    | ForgotPasswordPage
    | ResetPasswordPage(token: string)

  /** A route of the table, or the catch-all `*`. */
  datatype Route = Route(page: Page) | CatchAll

  /** Static segments match without regard to (ASCII) case. */
  predicate Is(segment: string, literal: string) {
    Lower(segment) == literal
  }

  function CmsChild(segment: string): (r: Route)
    ensures r.Route? ==> r.page.CmsLayout? && r.page.child != Dashboard
  {
    if Is(segment, "countries") then Route(CmsLayout(CountriesPage))
    else if Is(segment, "genres") then Route(CmsLayout(GenresPage))
    else if Is(segment, "actors") then Route(CmsLayout(ActorsCms))
    else if Is(segment, "reviews") then Route(CmsLayout(ReviewsPage))
    else if Is(segment, "users") then Route(CmsLayout(UsersPage))
    else if Is(segment, "input-drama") then Route(CmsLayout(InputDrama))
    else CatchAll
  }

  /** The route a path selects; dynamic segments (`:id`, `:token`) take any segment. */
  function Match(path: Path): (r: Route)
    ensures |path| > 2 ==> r == CatchAll
    ensures r == Route(HomePage) <==> path == []
  {
    if |path| == 0 then Route(HomePage)
    else if |path| == 1 then
      var s := path[0];
      if Is(s, "search") then Route(SearchPage)
      else if Is(s, "all-movies") then Route(AllMoviesPage)
      else if Is(s, "cms") then Route(CmsLayout(Dashboard))
      else if Is(s, "signup") then Route(SignUpPage)
      else if Is(s, "login") then Route(LoginPage)
      else if Is(s, "verify-email") then Route(EmailVerificationPage)
      else if Is(s, "forgot-password") then Route(ForgotPasswordPage)
      else CatchAll
    else if |path| == 2 then
      if Is(path[0], "detail") then Route(DetailPage(path[1]))
      else if Is(path[0], "cms") then CmsChild(path[1])
      else if Is(path[0], "reset-password") then Route(ResetPasswordPage(path[1]))
      else CatchAll
    else CatchAll
  }

  /** The guard in front of each page, the `/cms` children nested inside the layout's own guard. */
  function GuardOf(page: Page, auth: AuthState): (d: Decision)
    ensures d.Redirect? ==> d.to in {HomePath, LoginPath, VerifyEmailPath}
  {
    match page
    case HomePage | DetailPage(_) | SearchPage | AllMoviesPage | EmailVerificationPage => Allow
    case CmsLayout(child) =>
      Then(AdminOrUser(auth), if child == InputDrama then AdminOrUser(auth) else Protected(auth))
    case SignUpPage | LoginPage | ForgotPasswordPage | ResetPasswordPage(_) => SignedOutOnly(auth)
  }

  /** What the application shows. */
  datatype Screen = LoadingSpinner | Show(page: Page) | Navigate(to: Path)

  /** `App`: a spinner while the session is checked, then the matched route behind its guard. */
  function View(auth: AuthState, path: Path): (r: Screen)
    ensures auth.isCheckingAuth <==> r == LoadingSpinner
    ensures r.Show? ==> Match(path) == Route(r.page)
    ensures !auth.isCheckingAuth && Match(path) == CatchAll ==> r == Navigate(HomePath)
    ensures !auth.isCheckingAuth && Match(path).Route? ==>
      (r == Show(Match(path).page) <==> GuardOf(Match(path).page, auth) == Allow)
    ensures !auth.isCheckingAuth && Match(path).Route? && GuardOf(Match(path).page, auth).Redirect? ==>
      r == Navigate(GuardOf(Match(path).page, auth).to)
  {
    if auth.isCheckingAuth then LoadingSpinner
    else match Match(path)
      case CatchAll => Navigate(HomePath)
      case Route(page) =>
        match GuardOf(page, auth)
        case Allow => Show(page)
        case Redirect(to) => Navigate(to)
  }

  /** The pages of the admin console other than `input-drama` are for Admins only, the index included. */
  lemma CmsAccess(auth: AuthState, child: CmsPage)
    requires !auth.isCheckingAuth
    ensures child != InputDrama ==>
      (View(auth, PathOf(CmsLayout(child))) == Show(CmsLayout(child))
       <==> auth.isAuthenticated && auth.isVerified && auth.role == "Admin")
    ensures child == InputDrama ==>
      (View(auth, ["cms", "input-drama"]) == Show(CmsLayout(InputDrama))
       <==> auth.isAuthenticated && auth.isVerified && (auth.role == "Admin" || auth.role == "User"))
  {
    CmsSegmentMatches(child);
  }

  /** The path segment of a console page (the index has none). */
  function CmsSegment(child: CmsPage): string {
    match child
    case Dashboard => ""
    case CountriesPage => "countries"
    case GenresPage => "genres"
    case ActorsCms => "actors"
    case ReviewsPage => "reviews"
    case UsersPage => "users"
    case InputDrama => "input-drama"
  }

  lemma CmsSegmentMatches(child: CmsPage)
    ensures child != Dashboard ==> Match(["cms", CmsSegment(child)]) == Route(CmsLayout(child))
    ensures Match(["cms"]) == Route(CmsLayout(Dashboard))
  {
    LowerOfLowercase("cms");
    LowerOfLowercase(CmsSegment(child));
  }

  /** A verified User who opens the console index is sent to the home page. */
  lemma UserLeavesCmsIndex(auth: AuthState)
    requires !auth.isCheckingAuth && auth.isAuthenticated && auth.isVerified && auth.role == "User"
    ensures View(auth, ["cms"]) == Navigate(HomePath)
    ensures View(auth, ["cms", "input-drama"]) == Show(CmsLayout(InputDrama))
  {
    CmsSegmentMatches(InputDrama);
  }

  /** Every redirect lands on a page that is shown: no chain of redirects, no loop. */
  lemma RedirectsSettle(auth: AuthState, path: Path)
    requires View(auth, path).Navigate?
    ensures View(auth, View(auth, path).to).Show?
  {
  }

  /** The path that opens a page: its literal segments, with the page's own `:id` or `:token`. */
  function PathOf(page: Page): Path {
    match page
    case HomePage => HomePath
    case DetailPage(id) => ["detail", id]
    case SearchPage => ["search"]
    case AllMoviesPage => ["all-movies"]
    case CmsLayout(child) => ["cms"] + (if child == Dashboard then [] else [CmsSegment(child)])
    case SignUpPage => ["signup"]
    case LoginPage => LoginPath
    case EmailVerificationPage => VerifyEmailPath
    case ForgotPasswordPage => ["forgot-password"]
    case ResetPasswordPage(token) => ["reset-password", token]
  }

  /** Every page of the table is selected by its own path. */
  lemma PathSelectsPage(page: Page)
    ensures Match(PathOf(page)) == Route(page)
  {
    var p := PathOf(page);
    if |p| > 0 {
      LowerOfLowercase(p[0]);
    }
    if page.CmsLayout? {
      CmsSegmentMatches(page.child);
    }
  }

  /** A page with no guard of its own: open to everyone. */
  predicate Public(page: Page) {
    page.HomePage? || page.DetailPage? || page.SearchPage? || page.AllMoviesPage? || page.EmailVerificationPage?
  }

  /** A page wrapped in `RedirectAuthenticatedUser`. */
  predicate SignInPage(page: Page) {
    page.SignUpPage? || page.LoginPage? || page.ForgotPasswordPage? || page.ResetPasswordPage?
  }

  /**
   * Outside the console, the public pages are always shown, and the four
   * sign-in pages are shown exactly to users not both signed in and verified;
   * those users are sent to `/`.
   */
  lemma PublicAndSignInAccess(auth: AuthState, page: Page)
    requires !auth.isCheckingAuth
    ensures Public(page) ==> View(auth, PathOf(page)) == Show(page)
    ensures SignInPage(page) ==>
      (View(auth, PathOf(page)) == Show(page) <==> !(auth.isAuthenticated && auth.isVerified))
    ensures SignInPage(page) && auth.isAuthenticated && auth.isVerified ==>
      View(auth, PathOf(page)) == Navigate(HomePath)
  {
    PathSelectsPage(page);
  }
}
