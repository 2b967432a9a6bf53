/** The client's route table: the public pages, three role sections each
    behind its own guard, and the root, which sends a user on to the
    section of their role. */
module AppRoutes {
  import opened Common
  import opened AuthController
  import opened PrivateRoute

  /** `NavigateToRole`: the login page without a user; otherwise the section
      of the role, with `/student` for every role but the other two. */
  function Landing(user: Option<Profile>): (r: string)
    ensures user.None? ==> r == "/login"
    ensures user.Some? && user.value.role == "admin" ==> r == "/admin"
    ensures user.Some? && user.value.role == "instructor" ==> r == "/instructor"
    ensures user.Some? && user.value.role != "admin" && user.value.role != "instructor" ==> r == "/student"
  {
    if user.None? then "/login"
    else if user.value.role == "admin" then "/admin"
    else if user.value.role == "instructor" then "/instructor"
    else "/student"
  }

  /** Which element a path selects. */
  datatype Route =
    | Open                        // login, register, profile: no role guard
    | Guarded(roles: seq<string>) // a section behind `PrivateRoute roles={…}`
    | Root                        // `/`, handled by `NavigateToRole`
    | Unmatched                   // no route: nothing renders

  // React Router 6 compares a path with a route's pattern without regard
  // to ASCII case (so the predicates below read the lowered path) and lets
  // any run of slashes follow the pattern.

  // Nothing but slashes: the run of slashes the router lets follow every pattern.
  predicate Slashes(s: string) {
    forall i :: 0 <= i < |s| ==> s[i] == '/'
  }

  /** `path="<lit>"`: the literal, then only slashes. */
  predicate ExactMatch(p: string, lit: string) {
    StartsWith(p, lit) && Slashes(p[|lit|..])
  }

  // A splat pattern `<lit>/` + `*` accepts after its literal only slashes,
  // or a slash and at least one more character, none of them a line
  // terminator (the `.+` of its regular expression).
  predicate SplatMatch(p: string, lit: string) {
    && StartsWith(p, lit)
    && var rest := p[|lit|..];
      || Slashes(rest)
      || (|rest| >= 2 && rest[0] == '/' && forall i :: 1 <= i < |rest| ==> !IsLineTerminator(rest[i]))
  }

  /** A `<lit>:id` pattern accepts after its literal a non-empty segment
      without a slash, then only slashes. */
  predicate ParamMatch(p: string, lit: string) {
    && StartsWith(p, lit)
    && var rest := p[|lit|..];
      && rest != [] && rest[0] != '/'
      && forall i, j :: 0 <= i < j < |rest| && rest[i] == '/' ==> rest[j] == '/'
  }

  /** `/login`, `/register`, `/profile` */
  predicate OpenPath(p: string) {
    ExactMatch(p, "/login") || ExactMatch(p, "/register") || ExactMatch(p, "/profile")
  }

  /** `/` */
  predicate RootPath(p: string) {
    ExactMatch(p, "/")
  }

  // `/admin/` + `*`
  predicate AdminPath(p: string) {
    SplatMatch(p, "/admin")
  }

  /** `/instructor/course/:id`, `/instructor/courses`, `/instructor` */
  predicate InstructorPath(p: string) {
    || ParamMatch(p, "/instructor/course/")
    || ExactMatch(p, "/instructor/courses")
    || ExactMatch(p, "/instructor")
  }

  // `/student/` + `*`, `/student/course/:id`
  predicate StudentPath(p: string) {
    SplatMatch(p, "/student") || ParamMatch(p, "/student/course/")
  }

  /** A text that starts with `lit` has `lit`'s second character second. */
  lemma SecondLetter(p: string, lit: string)
    requires |lit| >= 2 && StartsWith(p, lit)
    ensures p[1] == lit[1]
  {
    assert p[..|lit|][1] == p[1];
  }

  /** The patterns are told apart by the second character of the path: the
      root has none or a slash, the public pages `l`, `r` and `p`, the
      sections `a`, `i` and `s`. */
  lemma SectionLetters(p: string)
    ensures RootPath(p) ==> |p| == 1 || p[1] == '/'
    ensures OpenPath(p) ==> |p| >= 2 && (p[1] == 'l' || p[1] == 'r' || p[1] == 'p')
    ensures AdminPath(p) ==> |p| >= 6 && p[1] == 'a'
    ensures InstructorPath(p) ==> |p| >= 11 && p[1] == 'i'
    ensures StudentPath(p) ==> |p| >= 8 && p[1] == 's'
  {
    if RootPath(p) && |p| > 1 {
      assert p[1] == p[1..][0];
    }
    OpenLetters(p);
    if AdminPath(p) { SecondLetter(p, "/admin"); }
    InstructorLetters(p);
    StudentLetters(p);
  }

  lemma OpenLetters(p: string)
    ensures OpenPath(p) ==> |p| >= 2 && (p[1] == 'l' || p[1] == 'r' || p[1] == 'p')
  {
    if ExactMatch(p, "/login") { SecondLetter(p, "/login"); }
    if ExactMatch(p, "/register") { SecondLetter(p, "/register"); }
    if ExactMatch(p, "/profile") { SecondLetter(p, "/profile"); }
  }

  lemma InstructorLetters(p: string)
    ensures InstructorPath(p) ==> |p| >= 11 && p[1] == 'i'
  {
    if ParamMatch(p, "/instructor/course/") { SecondLetter(p, "/instructor/course/"); }
    if ExactMatch(p, "/instructor/courses") { SecondLetter(p, "/instructor/courses"); }
    if ExactMatch(p, "/instructor") { SecondLetter(p, "/instructor"); }
  }

  lemma StudentLetters(p: string)
    ensures StudentPath(p) ==> |p| >= 8 && p[1] == 's'
  {
    if SplatMatch(p, "/student") { SecondLetter(p, "/student"); }
    if ParamMatch(p, "/student/course/") { SecondLetter(p, "/student/course/"); }
  }

  /** The route table of `App`: the path, lowered, matches at most one
      pattern group. */
  function RouteOf(path: string): (r: Route)
    ensures r.Guarded? ==> |r.roles| == 1
    ensures r == Open <==> OpenPath(Lower(path))
    ensures r == Root <==> RootPath(Lower(path))
    ensures r == Guarded(["admin"]) <==> AdminPath(Lower(path))
    ensures r == Guarded(["instructor"]) <==> InstructorPath(Lower(path))
    ensures r == Guarded(["student"]) <==> StudentPath(Lower(path))
  {
    var p := Lower(path);
    SectionLetters(p);
    if OpenPath(p) then Open
    else if RootPath(p) then Root
    else if AdminPath(p) then Guarded(["admin"])
    else if InstructorPath(p) then Guarded(["instructor"])
    else if StudentPath(p) then Guarded(["student"])
    else Unmatched
  }

  /** The router ignores ASCII case and trailing slashes: `/Admin` and
      `/admin/` open the admin section, `/INSTRUCTOR/courses//` the
      instructor's and `/Student/Course/X1` the student's, while
      `/administrator` matches no route. */
  lemma CaseAndSlashes()
    ensures RouteOf("/Admin") == Guarded(["admin"])
    ensures RouteOf("/admin/") == Guarded(["admin"])
    ensures RouteOf("/INSTRUCTOR/courses//") == Guarded(["instructor"])
    ensures RouteOf("/Student/Course/X1") == Guarded(["student"])
    ensures RouteOf("/administrator") == Unmatched
  {
    AdminAt("/Admin", "/admin");
    AdminAt("/admin/", "/admin/");
    InstructorCoursesAt("/INSTRUCTOR/courses//");
    StudentCourseAt("/Student/Course/X1");
    AdministratorUnmatched();
  }

  lemma AdminAt(path: string, p: string)
    requires p == "/admin" || p == "/admin/"
    requires |path| == |p| && forall i :: 0 <= i < |p| ==> LowerChar(path[i]) == p[i]
    ensures RouteOf(path) == Guarded(["admin"])
  {
    LowerOf(path, p);
    assert p[..6] == "/admin";
    assert SplatMatch(p, "/admin");
    SectionLetters(p);
  }

  lemma InstructorCoursesAt(path: string)
    requires path == "/INSTRUCTOR/courses//"
    ensures RouteOf(path) == Guarded(["instructor"])
  {
    var p := "/instructor/courses//";
    LowerOf(path, p);
    assert p[..19] == "/instructor/courses";
    assert ExactMatch(p, "/instructor/courses");
    SectionLetters(p);
  }

  lemma StudentCourseAt(path: string)
    requires path == "/Student/Course/X1"
    ensures RouteOf(path) == Guarded(["student"])
  {
    var p := "/student/course/x1";
    LowerOf(path, p);
    assert p[..8] == "/student";
    assert SplatMatch(p, "/student");
    SectionLetters(p);
  }

  lemma AdministratorUnmatched()
    ensures RouteOf("/administrator") == Unmatched
  {
    var p := "/administrator";
    LowerOf(p, p);
    assert p[6..][0] == 'i';
    assert !AdminPath(p);
    SectionLetters(p);
  }

  /** `lower` is the lowered form of `s`, character by character. */
  lemma LowerOf(s: string, lower: string)
    requires |s| == |lower| && forall i :: 0 <= i < |s| ==> LowerChar(s[i]) == lower[i]
    ensures Lower(s) == lower
  {
  }

  /** What visiting a path renders: the page, a redirect, or nothing. */
  function Visit(path: string, user: Option<Profile>): (r: Option<Render>)
    ensures r.None? <==> RouteOf(path).Unmatched?
    ensures RouteOf(path).Open? ==> r == Some(Outlet)
    ensures RouteOf(path).Root? ==> r == Some(RedirectTo(Landing(user)))
    ensures RouteOf(path).Guarded? ==> r == Some(Decide(user, Some(RouteOf(path).roles)))
  {
    match RouteOf(path)
    case Open => Some(Outlet)
    case Root => Some(RedirectTo(Landing(user)))
    case Guarded(roles) => Some(Decide(user, Some(roles)))
    case Unmatched => None
  }

  /** The three roles the route table knows. */
  predicate KnownRole(role: string) {
    role == "admin" || role == "instructor" || role == "student"
  }

  /** The root and the three landing pages route as their names say. */
  lemma LandingPaths()
    ensures RouteOf("/") == Root
    ensures RouteOf("/admin") == Guarded(["admin"])
    ensures RouteOf("/instructor") == Guarded(["instructor"])
    ensures RouteOf("/student") == Guarded(["student"])
  {
    RootAt();
    AdminAt("/admin", "/admin");
    InstructorAt();
    StudentAt();
  }

  lemma RootAt()
    ensures RouteOf("/") == Root
  {
    LowerOf("/", "/");
    assert ExactMatch("/", "/");
    SectionLetters("/");
  }

  lemma InstructorAt()
    ensures RouteOf("/instructor") == Guarded(["instructor"])
  {
    var p := "/instructor";
    LowerOf(p, p);
    assert p[..11] == "/instructor";
    assert ExactMatch(p, "/instructor");
    SectionLetters(p);
  }

  lemma StudentAt()
    ensures RouteOf("/student") == Guarded(["student"])
  {
    var p := "/student";
    LowerOf(p, p);
    assert p[..8] == "/student";
    assert SplatMatch(p, "/student");
    SectionLetters(p);
  }

  /** From the root, a user of a known role is sent to their section and
      that section renders for them. */
  lemma KnownRoleLands(u: Profile)
    requires KnownRole(u.role)
    ensures Visit("/", Some(u)) == Some(RedirectTo(Landing(Some(u))))
    ensures Visit(Landing(Some(u)), Some(u)) == Some(Outlet)
  {
    LandingPaths();
  }

  /** Without a user, the root and every guarded section lead to the login
      page, which renders. */
  lemma SignedOutGoesToLogin(path: string)
    requires RouteOf(path).Root? || RouteOf(path).Guarded?
    ensures Visit(path, None) == Some(RedirectTo("/login"))
    ensures Visit("/login", None) == Some(Outlet)
  {
    LoginAt();
  }

  lemma LoginAt()
    ensures RouteOf("/login") == Open
  {
    var p := "/login";
    LowerOf(p, p);
    assert p[..6] == "/login";
    assert ExactMatch(p, "/login");
  }

  /** A signed-in user in another role's section is sent back to the root. */
  lemma OtherSectionRefused(path: string, u: Profile)
    requires RouteOf(path).Guarded? && u.role !in RouteOf(path).roles
    ensures Visit(path, Some(u)) == Some(RedirectTo("/"))
  {
  }

  /** A user whose role is none of the three lands on `/student`, whose
      guard sends them back to `/`: the two redirects alternate for ever and
      no page renders. */
  lemma UnknownRoleCycles(u: Profile)
    requires !KnownRole(u.role)
    ensures Visit("/", Some(u)) == Some(RedirectTo("/student"))
    ensures Visit("/student", Some(u)) == Some(RedirectTo("/"))
  {
    LandingPaths();
  }
}
