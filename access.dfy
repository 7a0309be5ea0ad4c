/** Who is calling: the server-side session as an explicit value, the
    `login_required` and `role_required` decorators of Lab_8/app.py as gates,
    and the POST branch of the login view that fills the session. */
module Access {
  import opened Wrappers
  import opened Schema
  import opened Tables

  /** The caller context kept in the session: `logged_in`, `user_id` and `role`.
      When `loggedIn` is false the other two fields carry no meaning. */
  datatype Session = Session(loggedIn: bool, userId: nat, role: Role)

  /** Why a gate turned the caller away: the two flash-and-redirect branches. */
  datatype Denial =
    | LoginRequired  // "Please log in to access this page.", redirect to the login page
    | NoPermission   // "You do not have permission to access this page.", redirect to the index

  /** `login_required`: None lets the request through. */
  function LoginGate(s: Session): (d: Option<Denial>)
    ensures d.None? <==> s.loggedIn
    ensures d.Some? ==> d.value == LoginRequired
  {
    if !s.loggedIn then Some(LoginRequired) else None
  }

  /** `role_required(*allowed)`: the login check first, then the role check. */
  function RoleGate(s: Session, allowed: set<Role>): (d: Option<Denial>)
    ensures d.None? <==> s.loggedIn && s.role in allowed
    ensures d == Some(LoginRequired) <==> !s.loggedIn
  {
    if !s.loggedIn then Some(LoginRequired)
    else if s.role !in allowed then Some(NoPermission)
    else None
  }

  /** The decorator stack `@login_required @role_required(*allowed)` on the
      student and teacher routes: the outer decorator runs first. */
  function RouteGate(s: Session, allowed: set<Role>): (d: Option<Denial>)
    ensures d.None? <==> s.loggedIn && s.role in allowed
    ensures d == Some(LoginRequired) <==> !s.loggedIn
  {
    match LoginGate(s)
    case Some(d) => Some(d)
    case None => RoleGate(s, allowed)
  }

  /** The outer `login_required` adds nothing: the stack behaves as `role_required` alone. */
  lemma RouteGateIsRoleGate(s: Session, allowed: set<Role>)
    ensures RouteGate(s, allowed) == RoleGate(s, allowed)
    ensures RouteGate(s, allowed).None? <==> s.loggedIn && s.role in allowed
  {
  }

  /** The characters Python's `str.strip()` removes: those for which `str.isspace()` holds. */
  predicate IsSpace(c: char) {
    || c == ' ' || c == '\t' || c == '\n' || c == '\r' || c == '\U{0B}' || c == '\U{0C}'
    || '\U{1C}' <= c <= '\U{1F}' || c == '\U{85}' || c == '\U{A0}' || c == '\U{1680}'
    || '\U{2000}' <= c <= '\U{200A}' || c == '\U{2028}' || c == '\U{2029}' || c == '\U{202F}'
    || c == '\U{205F}' || c == '\U{3000}'
  }

  function TrimStart(s: string): (r: string)
    ensures |r| <= |s| && r == s[|s| - |r|..]
    ensures forall k :: 0 <= k < |s| - |r| ==> IsSpace(s[k])
    ensures r != [] ==> !IsSpace(r[0])
  {
    if s != [] && IsSpace(s[0]) then TrimStart(s[1..]) else s
  }

  function TrimEnd(s: string): (r: string)
    ensures |r| <= |s| && r == s[..|r|]
    ensures forall k :: |r| <= k < |s| ==> IsSpace(s[k])
    ensures r != [] ==> !IsSpace(r[|r| - 1])
  {
    if s != [] && IsSpace(s[|s| - 1]) then TrimEnd(s[..|s| - 1]) else s
  }

  /** `str.strip()`: the text without its leading and trailing white space. */
  function Strip(s: string): (r: string)
    ensures r == [] <==> forall k :: 0 <= k < |s| ==> IsSpace(s[k])
    ensures r != [] ==> !IsSpace(r[0]) && !IsSpace(r[|r| - 1])
    // the result is the text between a white-space prefix and a white-space suffix
    ensures exists i, j :: (0 <= i <= j <= |s| && r == s[i..j]
      && (forall k :: 0 <= k < i ==> IsSpace(s[k])) && (forall k :: j <= k < |s| ==> IsSpace(s[k])))
  {
    var t := TrimStart(s);
    var r := TrimEnd(t);
    assert r != [] ==> r[0] == t[0];
    SliceBetween(s, t, r);
    r
  }

  /** A prefix of a suffix of `s`, with only white space cut on either side, is
      the slice of `s` between the two cuts. */
  lemma SliceBetween(s: string, t: string, r: string)
    requires |t| <= |s| && t == s[|s| - |t|..] && forall k :: 0 <= k < |s| - |t| ==> IsSpace(s[k])
    requires |r| <= |t| && r == t[..|r|] && forall k :: |r| <= k < |t| ==> IsSpace(t[k])
    ensures var i := |s| - |t|;
      && r == s[i..i + |r|]
      && (forall k :: 0 <= k < i ==> IsSpace(s[k])) && (forall k :: i + |r| <= k < |s| ==> IsSpace(s[k]))
  {
    var i := |s| - |t|;
    assert r == s[i..i + |r|];
    forall k | i + |r| <= k < |s| ensures IsSpace(s[k]) {
      assert s[k] == t[k - i];
    }
  }

  /** Stripping twice changes nothing more than stripping once. */
  lemma StripIsIdempotent(s: string)
    ensures Strip(Strip(s)) == Strip(s)
  {
    var r := Strip(s);
    assert TrimStart(r) == r;
    assert TrimEnd(r) == r;
  }

  /** What the login form leads to. */
  datatype LoginResult =
    | CredentialsRequired  // "Username and password are required."
    | InvalidCredentials   // "Invalid username or password."
    | Welcome(session: Session)

  /** The POST branch of the login view. `matches` stands for werkzeug's
      `check_password_hash(digest, password)`. */
  function Login(us: seq<User>, username: string, password: string,
                 matches: (string, string) -> bool): (r: LoginResult)
    ensures r == CredentialsRequired <==> Strip(username) == [] || Strip(password) == []
    ensures r.Welcome? ==>
      exists u :: u in us && u.username == Strip(username) && matches(u.passwordHash, Strip(password))
                  && r.session == Session(true, u.id, u.role)
    // an unknown name and a wrong password get the same answer: no hint of which names exist
    ensures Strip(username) != [] && Strip(password) != [] &&
            (forall k :: 0 <= k < |us| ==> us[k].username != Strip(username)) ==>
      r == InvalidCredentials
    // with unique usernames the named user alone decides, and the session is that user's
    ensures UserKeysUnique(us) && Strip(username) != [] && Strip(password) != [] ==>
      forall k :: 0 <= k < |us| && us[k].username == Strip(username) ==>
        r == if matches(us[k].passwordHash, Strip(password)) then Welcome(Session(true, us[k].id, us[k].role))
             else InvalidCredentials
  {
    var name, pw := Strip(username), Strip(password);
    if name == [] || pw == [] then CredentialsRequired
    else
      match FindUserByName(us, name)
      case Some(u) =>
        if matches(u.passwordHash, pw) then Welcome(Session(true, u.id, u.role)) else InvalidCredentials
      case None => InvalidCredentials
  }
}
