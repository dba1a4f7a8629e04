/** The role gate in front of the endpoints: each action of CoursesController
    and UserController carries `[Authorize(Roles = ...)]` naming exactly one
    role, and UserController is additionally `[Authorize]` as a whole. The
    framework evaluates the attribute before the action runs: an anonymous
    caller is challenged (HTTP 401), a signed-in caller without the role is
    forbidden (HTTP 403), and only an allowed request reaches the action. */
module AccessGate {

  datatype Role = Admin | Professor | Student

  datatype Controller = CoursesController | UserController

  /** One constructor per endpoint of the two controllers. */
  datatype Operation =
    | AddCourse
    | RegisterCourse
    | GetMyCourseStudents
    | GetAllStudents
    | DownloadStudents
    | GetAllProfessors
    | DownloadProfessors
    | DeleteStudent

  /** The identity attached to a request by the authentication layer. */
  datatype Principal = Anonymous | SignedIn(roles: set<Role>)

  datatype Decision = Allow | Challenge | Forbid

  function ControllerOf(op: Operation): Controller
  {
    match op
    case AddCourse | RegisterCourse | GetMyCourseStudents => CoursesController
    case _ => UserController
  }

  /** The role named by the endpoint's `[Authorize(Roles = ...)]` attribute.
      Every endpoint of UserController is for administrators. */
  function RequiredRole(op: Operation): (r: Role)
    ensures ControllerOf(op) == UserController ==> r == Admin
    ensures r == Student <==> op == RegisterCourse
    ensures r == Professor <==> op == GetMyCourseStudents
  {
    match op
    case AddCourse => Admin
    case RegisterCourse => Student
    case GetMyCourseStudents => Professor
    case GetAllStudents => Admin
    case DownloadStudents => Admin
    case GetAllProfessors => Admin
    case DownloadProfessors => Admin
    case DeleteStudent => Admin
  }

  /** The decision the authorization middleware takes before the action runs.
      The gate sees only the caller's roles: no endpoint's attribute looks at
      the request body, so nothing here ties a student to the email they
      register. */
  function Authorize(p: Principal, op: Operation): (d: Decision)
    ensures d == Allow <==> p.SignedIn? && RequiredRole(op) in p.roles
    ensures d == Challenge <==> p.Anonymous?
    ensures d == Forbid <==> p.SignedIn? && RequiredRole(op) !in p.roles
  {
    match p
    case Anonymous => Challenge
    case SignedIn(roles) => if RequiredRole(op) in roles then Allow else Forbid
  }

  /** A caller holding a single role reaches exactly the endpoints whose
      attribute names that role, so no two roles share an endpoint. */
  lemma SingleRoleIsExclusive(r1: Role, r2: Role, op: Operation)
    requires Authorize(SignedIn({r1}), op) == Allow
    requires Authorize(SignedIn({r2}), op) == Allow
    ensures r1 == r2
  {
  }

  /** Holding more roles never loses access. */
  lemma MoreRolesNeverDeny(rs: set<Role>, more: set<Role>, op: Operation)
    requires rs <= more
    requires Authorize(SignedIn(rs), op) == Allow
    ensures Authorize(SignedIn(more), op) == Allow
  {
  }
}
