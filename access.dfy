/**
 * Role gating: the three view decorators that admit only an authenticated
 * user of one role, and the dashboard dispatch on the role tag.
 */
module Access {
  import opened Models

  /** The requesting identity as the views see it. */
  datatype Principal = Anonymous | Authenticated(role: string)

  /** The principal of a request carrying the given (possibly stale) user id. */
  function PrincipalOf(users: map<UserId, User>, requester: Option<UserId>): (p: Principal)
    ensures p.Authenticated? <==> requester.Some? && requester.value in users
    ensures p.Authenticated? ==> p.role == users[requester.value].role
  {
    if requester.Some? && requester.value in users then Authenticated(users[requester.value].role)
    else Anonymous
  }

  /** Either the wrapped view runs, or the request is sent to the login page. */
  datatype Gate = Granted | RedirectToLogin

  /** One guard parameterised by the role it demands. */
  function RoleRequired(p: Principal, role: string): (g: Gate)
    ensures g == Granted <==> p.Authenticated? && p.role == role
  {
    if !p.Authenticated? || p.role != role then RedirectToLogin else Granted
  }

  function AdminRequired(p: Principal): (g: Gate)
    ensures g == Granted <==> p.Authenticated? && p.role == ADMIN
  {
    RoleRequired(p, ADMIN)
  }

  function TeacherRequired(p: Principal): (g: Gate)
    ensures g == Granted <==> p.Authenticated? && p.role == TEACHER
  {
    RoleRequired(p, TEACHER)
  }

  function StudentRequired(p: Principal): (g: Gate)
    ensures g == Granted <==> p.Authenticated? && p.role == STUDENT
  {
    RoleRequired(p, STUDENT)
  }

  /** No principal passes two different gates. */
  lemma GatesExclusive(p: Principal)
    ensures !(AdminRequired(p) == Granted && TeacherRequired(p) == Granted)
    ensures !(AdminRequired(p) == Granted && StudentRequired(p) == Granted)
    ensures !(TeacherRequired(p) == Granted && StudentRequired(p) == Granted)
    ensures p.Anonymous? ==> AdminRequired(p) == TeacherRequired(p) == StudentRequired(p) == RedirectToLogin
  {
  }

  datatype Page = LoginPage | AdminDashboardPage | TeacherDashboardPage | StudentDashboardPage

  /** `dashboard`: an anonymous request goes to login first; then dispatch on the role tag. */
  function Dashboard(p: Principal): (page: Page)
    ensures page == AdminDashboardPage <==> p.Authenticated? && p.role == ADMIN
    ensures page == TeacherDashboardPage <==> p.Authenticated? && p.role == TEACHER
    ensures page == StudentDashboardPage <==> p.Authenticated? && p.role == STUDENT
    ensures page == LoginPage <==> p.Anonymous? || p.role !in {ADMIN, TEACHER, STUDENT}
  {
    if p.Anonymous? then LoginPage
    else if p.role == ADMIN then AdminDashboardPage
    else if p.role == TEACHER then TeacherDashboardPage
    else if p.role == STUDENT then StudentDashboardPage
    else LoginPage
  }

  /** The dashboard a principal is sent to is one whose gate admits it, and only that one. */
  lemma DashboardAgreesWithGates(p: Principal)
    ensures Dashboard(p) == AdminDashboardPage <==> AdminRequired(p) == Granted
    ensures Dashboard(p) == TeacherDashboardPage <==> TeacherRequired(p) == Granted
    ensures Dashboard(p) == StudentDashboardPage <==> StudentRequired(p) == Granted
    ensures Dashboard(p) == LoginPage <==>
              AdminRequired(p) == TeacherRequired(p) == StudentRequired(p) == RedirectToLogin
  {
  }
}
