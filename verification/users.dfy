/** User accounts and the sessions stamped with them: login, update, create and remove as steps. */
module Users {
  import opened CText
  import opened Sessions

  datatype User = User(name: string, passwordHash: string, admin: bool)

  /** The checksum of a record, the pattern for user names, and the maximal duration of a session. */
  datatype Params = Params(checksum: User -> int, nameOk: string -> bool, maxDuration: int)

  /** The checksum tells an administrator's record from another record under the same well-formed name. */
  ghost predicate Separates(p: Params) {
    forall r: User, r': User :: p.nameOk(r.name) && r.name == r'.name && p.checksum(r) == p.checksum(r') ==> r.admin == r'.admin
  }

  /** The stored records, the cache of their checksums, and every session value ever handed out. */
  datatype State = State(users: map<string, User>, crc: map<string, int>, issued: set<Values>)

  /** A request: the session values and the token cookie it comes with, and the time. */
  datatype Request = Request(v: Values, cookie: Option<string>, now: int)

  datatype Event =
    | Login(username: string, passwordCorrect: bool, remember: bool, token: string, now: int)
    | Visit(req: Request)
    | Logout(req: Request)
    | UpdateUser(req: Request, username: string, newHash: Option<string>, previous: string, admin: bool)
    | CreateUser(req: Request, username: string, hash: string, admin: bool)
    | RemoveUser(req: Request, username: string)

  /** isValidSession. */
  predicate Valid(p: Params, s: State, req: Request) {
    && req.cookie == Some(req.v.token)
    && InTime(req.v, p.maxDuration, req.now)
    && req.v.username in s.crc && s.crc[req.v.username] == req.v.hash
  }

  function SaveUser(p: Params, s: State, u: User): State {
    s.(users := s.users[u.name := u], crc := s.crc[u.name := p.checksum(u)])
  }

  function DeleteUser(s: State, name: string): State {
    s.(users := s.users - {name}, crc := s.crc - {name})
  }

  function Issue(s: State, v: Values): State { s.(issued := s.issued + {v}) }

  /** UpdateUser refuses to let a manager touch others, unknown or ill-formed names, and names that are taken. */
  predicate UpdateOk(p: Params, s: State, v: Values, username: string, previous: string) {
    && (v.admin || previous == v.username)
    && p.nameOk(previous) && previous in s.users
    && username != "" && p.nameOk(username)
    && (username != previous ==> username !in s.users)
  }

  /** The record after the update: nobody changes its own admin flag, and only an administrator gives one. */
  function Updated(s: State, v: Values, username: string, newHash: Option<string>, previous: string, admin: bool): User
    requires previous in s.users
  {
    var was := s.users[previous];
    User(username, if newHash.Some? then newHash.value else was.passwordHash, if previous != v.username then v.admin && admin else was.admin)
  }

  function Step(p: Params, s: State, e: Event): State {
    match e
    case Login(username, passwordCorrect, remember, token, now) =>
      if p.nameOk(username) && username in s.users && passwordCorrect
      then Issue(s, Opened(token, s.users[username].name, p.checksum(s.users[username]), s.users[username].admin, remember, now))
      else s
    case Visit(req) => if Valid(p, s, req) then Issue(s, Refreshed(req.v, req.cookie, p.maxDuration, req.now)) else s
    case Logout(req) => if Valid(p, s, req) then Issue(s, Cleared(req.v)) else s
    case UpdateUser(req, username, newHash, previous, admin) =>
      if Valid(p, s, req) && UpdateOk(p, s, req.v, username, previous) then
        var u := Updated(s, req.v, username, newHash, previous, admin);
        var t := SaveUser(p, DeleteUser(s, previous), u);
        if previous == req.v.username then Issue(t, Restamped(req.v, u.name, u.admin, p.checksum(u))) else t
      else s
    case CreateUser(req, username, hash, admin) =>
      if Valid(p, s, req) && req.v.admin && username != "" && p.nameOk(username) && username !in s.users
      then SaveUser(p, s, User(username, hash, admin)) else s
    case RemoveUser(req, username) =>
      if Valid(p, s, req) && req.v.admin && p.nameOk(username) && username != req.v.username then DeleteUser(s, username) else s
  }

  function Run(p: Params, s: State, es: seq<Event>): State {
    if |es| == 0 then s else Step(p, Run(p, s, es[..|es| - 1]), es[|es| - 1])
  }

  // ---- The invariant ----

  /** The cache agrees with the stored records. */
  ghost predicate CacheExact(p: Params, s: State) {
    s.crc.Keys == s.users.Keys && forall n :: n in s.users ==> s.users[n].name == n && s.crc[n] == p.checksum(s.users[n])
  }

  /** A session was stamped with some record of its user, or it is cleared. */
  ghost predicate Stamped(p: Params, v: Values) {
    v.maxAge == -1 || exists r: User :: p.nameOk(r.name) && r.name == v.username && p.checksum(r) == v.hash && r.admin == v.admin
  }

  /** Its times are those of a login and later refreshes. */
  ghost predicate Dated(p: Params, v: Values) {
    && (v.updatedAt == v.createdAt || v.createdAt <= v.updatedAt <= v.createdAt + p.maxDuration)
    && (v.maxAge == -1 || v.maxAge == 0 || v.maxAge == 7 * DAY)
    && (v.maxAge == 0 ==> v.updatedAt == v.createdAt)
  }

  ghost predicate HasAdmin(s: State) { exists n :: n in s.users && s.users[n].admin }

  ghost predicate Inv(p: Params, s: State) {
    CacheExact(p, s) && HasAdmin(s) && forall v :: v in s.issued ==> Stamped(p, v) && Dated(p, v)
  }

  /** Requests carry session values that were handed out: they are signed. */
  predicate Genuine(s: State, e: Event) {
    match e
    case Login(_, _, _, _, _) => true
    case Visit(req) => req.v in s.issued
    case Logout(req) => req.v in s.issued
    case UpdateUser(req, _, _, _, _) => req.v in s.issued
    case CreateUser(req, _, _, _) => req.v in s.issued
    case RemoveUser(req, _) => req.v in s.issued
  }

  /** A valid session belongs to a stored user and carries that record's admin flag, and it ends in time. */
  lemma ValidMeansStored(p: Params, s: State, req: Request)
    requires Separates(p) && Inv(p, s) && req.v in s.issued && Valid(p, s, req)
    ensures req.v.username in s.users && req.v.admin == s.users[req.v.username].admin
    ensures req.now <= req.v.createdAt + p.maxDuration && (req.v.maxAge == 0 ==> req.now <= req.v.createdAt + DAY)
  {
    assert Stamped(p, req.v) && Dated(p, req.v);
    var r: User :| p.nameOk(r.name) && r.name == req.v.username && p.checksum(r) == req.v.hash && r.admin == req.v.admin;
    assert p.checksum(r) == p.checksum(s.users[req.v.username]);
  }

  lemma IssueKeeps(p: Params, s: State, v: Values)
    requires Inv(p, s) && Stamped(p, v) && Dated(p, v)
    ensures Inv(p, Issue(s, v))
  {
    var n :| n in s.users && s.users[n].admin;
    assert Issue(s, v).users[n].admin;
  }

  lemma StampOf(p: Params, v: Values, r: User)
    requires p.nameOk(r.name) && v.username == r.name && v.hash == p.checksum(r) && v.admin == r.admin
    ensures Stamped(p, v)
  {
  }

  lemma LoginKeeps(p: Params, s: State, e: Event)
    requires Inv(p, s) && e.Login?
    ensures Inv(p, Step(p, s, e))
  {
    if p.nameOk(e.username) && e.username in s.users && e.passwordCorrect {
      var r := s.users[e.username];
      var v := Opened(e.token, r.name, p.checksum(r), r.admin, e.remember, e.now);
      StampOf(p, v, r);
      IssueKeeps(p, s, v);
    }
  }

  lemma VisitKeeps(p: Params, s: State, req: Request)
    requires Inv(p, s) && req.v in s.issued
    ensures Inv(p, Issue(s, Refreshed(req.v, req.cookie, p.maxDuration, req.now))) && Inv(p, Issue(s, Cleared(req.v)))
  {
    assert Stamped(p, req.v) && Dated(p, req.v);
    IssueKeeps(p, s, Refreshed(req.v, req.cookie, p.maxDuration, req.now));
    IssueKeeps(p, s, Cleared(req.v));
  }

  /** After an update the acting administrator is still one, and its own flag is what it was. */
  lemma UpdateKeeps(p: Params, s: State, e: Event)
    requires Separates(p) && Inv(p, s) && e.UpdateUser? && Genuine(s, e)
    ensures Inv(p, Step(p, s, e))
  {
    var v := e.req.v;
    if Valid(p, s, e.req) && UpdateOk(p, s, v, e.username, e.previous) {
      ValidMeansStored(p, s, e.req);
      var u := Updated(s, v, e.username, e.newHash, e.previous, e.admin);
      var t := SaveUser(p, DeleteUser(s, e.previous), u);
      UpdateKeepsAdmin(p, s, e);
      assert CacheExact(p, t);
      if e.previous == v.username {
        var w := Restamped(v, u.name, u.admin, p.checksum(u));
        StampOf(p, w, u);
        assert Dated(p, v);
        IssueKeeps(p, t, w);
      }
    }
  }

  lemma UpdateKeepsAdmin(p: Params, s: State, e: Event)
    requires Separates(p) && Inv(p, s) && e.UpdateUser? && Genuine(s, e)
    requires Valid(p, s, e.req) && UpdateOk(p, s, e.req.v, e.username, e.previous)
    ensures HasAdmin(SaveUser(p, DeleteUser(s, e.previous), Updated(s, e.req.v, e.username, e.newHash, e.previous, e.admin)))
  {
    var v := e.req.v;
    ValidMeansStored(p, s, e.req);
    var u := Updated(s, v, e.username, e.newHash, e.previous, e.admin);
    var t := SaveUser(p, DeleteUser(s, e.previous), u);
    var n :| n in s.users && s.users[n].admin;
    var kept := if e.previous == v.username then (if n == e.previous then e.username else n) else v.username;
    assert kept in t.users && t.users[kept].admin;
  }

  lemma CreateKeeps(p: Params, s: State, u: User)
    requires Inv(p, s) && u.name !in s.users
    ensures Inv(p, SaveUser(p, s, u))
  {
    var n :| n in s.users && s.users[n].admin;
    assert SaveUser(p, s, u).users[n].admin;
  }

  lemma RemoveKeeps(p: Params, s: State, e: Event)
    requires Separates(p) && Inv(p, s) && e.RemoveUser? && Genuine(s, e)
    ensures Inv(p, Step(p, s, e))
  {
    if Step(p, s, e) != s {
      ValidMeansStored(p, s, e.req);
      assert e.req.v.username in Step(p, s, e).users;
    }
  }

  lemma StepKeepsInv(p: Params, s: State, e: Event)
    requires Separates(p) && Inv(p, s) && Genuine(s, e)
    ensures Inv(p, Step(p, s, e))
  {
    match e {
      case Login(_, _, _, _, _) => LoginKeeps(p, s, e);
      case Visit(req) => VisitKeeps(p, s, req);
      case Logout(req) => VisitKeeps(p, s, req);
      case UpdateUser(_, _, _, _, _) => UpdateKeeps(p, s, e);
      case CreateUser(req, username, hash, admin) => if Step(p, s, e) != s { CreateKeeps(p, s, User(username, hash, admin)); }
      case RemoveUser(_, _) => RemoveKeeps(p, s, e);
    }
  }

  ghost predicate GenuineRun(p: Params, s: State, es: seq<Event>) {
    forall k :: 0 <= k < |es| ==> Genuine(Run(p, s, es[..k]), es[k])
  }

  /** Every run of user-management steps keeps at least one administrator, an exact checksum cache, and sessions that
      are stamps of records. */
  lemma {:induction false} EveryRunKeepsAnAdmin(p: Params, s: State, es: seq<Event>)
    requires Separates(p) && Inv(p, s) && GenuineRun(p, s, es)
    ensures Inv(p, Run(p, s, es)) && HasAdmin(Run(p, s, es))
  {
    if |es| > 0 {
      var init := es[..|es| - 1];
      forall k | 0 <= k < |init| ensures Genuine(Run(p, s, init[..k]), init[k]) { assert init[..k] == es[..k]; }
      EveryRunKeepsAnAdmin(p, s, init);
      assert Genuine(Run(p, s, init), es[|es| - 1]);
      StepKeepsInv(p, Run(p, s, init), es[|es| - 1]);
    }
  }

  // ---- The checksum must tell administrators apart ----

  /** Two users, both administrators and both logged in. */
  function TwoAdmins(p: Params, x: User, r: User): State {
    State(map[x.name := x, r.name := r], map[x.name := p.checksum(x), r.name := p.checksum(r)],
          {Opened("tx", x.name, p.checksum(x), true, false, 0), Opened("tr", r.name, p.checksum(r), true, false, 0)})
  }

  lemma TwoAdminsInv(p: Params, x: User, r: User)
    requires x.name != r.name && x.admin && r.admin && p.nameOk(x.name) && p.nameOk(r.name)
    ensures Inv(p, TwoAdmins(p, x, r))
  {
    var s := TwoAdmins(p, x, r);
    assert s.users[x.name].admin;
    StampOf(p, Opened("tx", x.name, p.checksum(x), true, false, 0), x);
    StampOf(p, Opened("tr", r.name, p.checksum(r), true, false, 0), r);
  }

  /** With a colliding checksum the demoted user keeps a valid administrator session and can remove the last
      administrator. */
  lemma CollisionLosesAdmins(p: Params, x: User, r: User, r': User)
    requires p.maxDuration >= 0 && x.name != r.name && x.admin && r.admin && !r'.admin
    requires p.nameOk(x.name) && p.nameOk(r.name) && r.name != "" && r.name == r'.name && p.checksum(r) == p.checksum(r')
    ensures var s := TwoAdmins(p, x, r);
            var byX := Request(Opened("tx", x.name, p.checksum(x), true, false, 0), Some("tx"), 0);
            var byR := Request(Opened("tr", r.name, p.checksum(r), true, false, 0), Some("tr"), 0);
            var es := [UpdateUser(byX, r.name, Some(r'.passwordHash), r.name, false), RemoveUser(byR, x.name)];
            Inv(p, s) && GenuineRun(p, s, es) && !HasAdmin(Run(p, s, es))
  {
    var s := TwoAdmins(p, x, r);
    TwoAdminsInv(p, x, r);
    var byX := Request(Opened("tx", x.name, p.checksum(x), true, false, 0), Some("tx"), 0);
    var byR := Request(Opened("tr", r.name, p.checksum(r), true, false, 0), Some("tr"), 0);
    var e, e' := UpdateUser(byX, r.name, Some(r'.passwordHash), r.name, false), RemoveUser(byR, x.name);
    var s1 := Step(p, s, e);
    assert Valid(p, s, byX) && UpdateOk(p, s, byX.v, r.name, r.name);
    assert s1.users == map[x.name := x, r.name := r'];
    assert Valid(p, s1, byR);
    var s2 := Step(p, s1, e');
    assert s2.users.Keys == {r.name} && s2.users[r.name] == r';
    RunTwo(p, s, e, e');
  }

  lemma RunTwo(p: Params, s: State, e: Event, e': Event)
    requires Genuine(s, e) && Genuine(Step(p, s, e), e')
    ensures Run(p, s, [e, e']) == Step(p, Step(p, s, e), e') && GenuineRun(p, s, [e, e'])
  {
    var es := [e, e'];
    assert es[..0] == [] && es[..1] == [e] && [e][..0] == [];
    assert Run(p, s, [e]) == Step(p, Run(p, s, []), e);
  }

  /** At least one administrator is kept by every run from every sound state if and only if the checksum tells
      administrators apart. */
  lemma AdminKeptExactlyWhen(p: Params, n: string, n': string)
    requires p.maxDuration >= 0 && !p.nameOk("") && n != n' && p.nameOk(n) && p.nameOk(n')
    ensures Separates(p) <==> forall s, es :: Inv(p, s) && GenuineRun(p, s, es) ==> HasAdmin(Run(p, s, es))
  {
    if Separates(p) {
      forall s, es | Inv(p, s) && GenuineRun(p, s, es) ensures HasAdmin(Run(p, s, es)) { EveryRunKeepsAnAdmin(p, s, es); }
    } else {
      var s, es := CollidingRun(p, n, n');
    }
  }

  lemma CollidingRun(p: Params, n: string, n': string) returns (s: State, es: seq<Event>)
    requires p.maxDuration >= 0 && !p.nameOk("") && n != n' && p.nameOk(n) && p.nameOk(n') && !Separates(p)
    ensures Inv(p, s) && GenuineRun(p, s, es) && !HasAdmin(Run(p, s, es))
  {
    var a: User, b: User :| p.nameOk(a.name) && a.name == b.name && p.checksum(a) == p.checksum(b) && a.admin != b.admin;
    var r, r' := if a.admin then a else b, if a.admin then b else a;
    var x := User(if r.name == n then n' else n, "", true);
    CollisionLosesAdmins(p, x, r, r');
    s := TwoAdmins(p, x, r);
    var byX := Request(Opened("tx", x.name, p.checksum(x), true, false, 0), Some("tx"), 0);
    var byR := Request(Opened("tr", r.name, p.checksum(r), true, false, 0), Some("tr"), 0);
    es := [UpdateUser(byX, r.name, Some(r'.passwordHash), r.name, false), RemoveUser(byR, x.name)];
  }

  // ---- When a session is valid ----

  /** A session, whatever visits and self-updates it went through, is valid exactly when it comes with its cookie, its
      record has the checksum it was stamped with, it was not logged out, and its times have not run out. */
  lemma ValidExactlyWhen(p: Params, s: State, token: string, r: User, remember: bool, t0: int, acts: seq<Act>, cookie: Option<string>, now: int)
    requires p.maxDuration >= 0
    ensures var w := After(Opened(token, r.name, p.checksum(r), r.admin, remember, t0), p.maxDuration, acts);
            Valid(p, s, Request(w, cookie, now)) <==>
              && cookie == Some(w.token) && w.username in s.crc && s.crc[w.username] == w.hash
              && Clear !in acts && now <= t0 + p.maxDuration
              && (if remember then w.updatedAt <= now <= w.updatedAt + 604_800 else t0 <= now <= t0 + 86_400)
  {
    SessionsEnd(token, r.name, p.checksum(r), r.admin, remember, t0, p.maxDuration, acts, now);
  }

  /** The session of a login is handed out with the record's name, checksum and flag. As long as the record has that
      checksum it is valid for a day if it is not remembered, for seven days if it is, and never beyond the maximal
      duration; with another checksum or without the cookie it is not. */
  lemma LoginThenValid(p: Params, s: State, username: string, remember: bool, token: string, t0: int, later: State, cookie: Option<string>, now: int)
    requires p.maxDuration >= 0 && CacheExact(p, s) && CacheExact(p, later) && p.nameOk(username) && username in s.users
    ensures var v := Values(token, username, p.checksum(s.users[username]), s.users[username].admin, if remember then 604_800 else 0, t0, t0);
            && v in Step(p, s, Login(username, true, remember, token, t0)).issued
            && (Valid(p, later, Request(v, cookie, now)) <==>
                  && cookie == Some(token)
                  && username in later.users && p.checksum(later.users[username]) == p.checksum(s.users[username])
                  && t0 <= now <= t0 + (if remember then 604_800 else 86_400) && now <= t0 + p.maxDuration)
  {
  }

  // ---- Who becomes an administrator ----

  /** The event, by a valid session of a stored administrator, asks for n to be one. */
  ghost predicate Granted(p: Params, s: State, e: Event, n: string) {
    match e
    case CreateUser(req, username, _, admin) => ByAdmin(p, s, req) && username == n && admin
    case UpdateUser(req, username, _, previous, admin) => ByAdmin(p, s, req) && username == n && previous != req.v.username && admin
    case _ => false
  }

  ghost predicate ByAdmin(p: Params, s: State, req: Request) {
    Valid(p, s, req) && req.v.username in s.users && s.users[req.v.username].admin
  }

  /** An administrator renames itself to n. */
  ghost predicate TakenOver(p: Params, s: State, e: Event, n: string) {
    e.UpdateUser? && ByAdmin(p, s, e.req) && e.username == n && e.previous == e.req.v.username
  }

  ghost predicate IsAdmin(s: State, n: string) { n in s.users && s.users[n].admin }

  /** In every run, whoever is an administrator after a step was one before, renamed itself from one, or was made one by
      a create or update with the flag, by a stored administrator's valid session. */
  lemma NobodyAdminUnasked(p: Params, s: State, es: seq<Event>, k: nat, n: string)
    requires Separates(p) && Inv(p, s) && GenuineRun(p, s, es) && k < |es|
    requires IsAdmin(Run(p, s, es[..k + 1]), n)
    ensures var t := Run(p, s, es[..k]); IsAdmin(t, n) || TakenOver(p, t, es[k], n) || Granted(p, t, es[k], n)
  {
    var t := Run(p, s, es[..k]);
    RunBefore(p, s, es, k);
    if es[k].CreateUser? && Step(p, t, es[k]) != t { ValidMeansStored(p, t, es[k].req); }
    if es[k].UpdateUser? && Step(p, t, es[k]) != t { ValidMeansStored(p, t, es[k].req); }
  }

  lemma RunBefore(p: Params, s: State, es: seq<Event>, k: nat)
    requires Separates(p) && Inv(p, s) && GenuineRun(p, s, es) && k < |es|
    ensures Inv(p, Run(p, s, es[..k])) && Genuine(Run(p, s, es[..k]), es[k])
    ensures Run(p, s, es[..k + 1]) == Step(p, Run(p, s, es[..k]), es[k])
  {
    forall i | 0 <= i < k ensures Genuine(Run(p, s, es[..k][..i]), es[..k][i]) { assert es[..k][..i] == es[..i]; }
    EveryRunKeepsAnAdmin(p, s, es[..k]);
    assert es[..k + 1][..k] == es[..k];
  }

  /** The event, by a valid session of a stored administrator, takes the flag or the record from n. */
  ghost predicate Revoked(p: Params, s: State, e: Event, n: string) {
    match e
    case RemoveUser(req, username) => ByAdmin(p, s, req) && username == n && n != req.v.username
    case UpdateUser(req, username, _, previous, admin) =>
      ByAdmin(p, s, req) && previous == n && ((n != req.v.username && (!admin || username != n)) || (n == req.v.username && username != n))
    case _ => false
  }

  /** And whoever stops being an administrator was removed, renamed or demoted by one, or renamed itself. */
  lemma NobodyDemotedUnasked(p: Params, s: State, es: seq<Event>, k: nat, n: string)
    requires Separates(p) && Inv(p, s) && GenuineRun(p, s, es) && k < |es|
    requires IsAdmin(Run(p, s, es[..k]), n) && !IsAdmin(Run(p, s, es[..k + 1]), n)
    ensures Revoked(p, Run(p, s, es[..k]), es[k], n)
  {
    var t := Run(p, s, es[..k]);
    RunBefore(p, s, es, k);
    if es[k].RemoveUser? { ValidMeansStored(p, t, es[k].req); }
    if es[k].UpdateUser? { ValidMeansStored(p, t, es[k].req); }
  }

  // ---- What is stored ----

  /** What an accepted event writes under n: the record, or its absence. */
  datatype Written = Untouched | Absent | Stored(u: User)

  ghost function Writes(p: Params, s: State, e: Event, n: string): Written {
    match e
    case CreateUser(req, username, hash, admin) =>
      if username == n && Valid(p, s, req) && req.v.admin && n != "" && p.nameOk(n) && n !in s.users then Stored(User(n, hash, admin)) else Untouched
    case UpdateUser(req, username, newHash, previous, admin) =>
      if (username != n && previous != n) || !Valid(p, s, req) || !(req.v.admin || previous == req.v.username)
         || !p.nameOk(previous) || previous !in s.users || username == "" || !p.nameOk(username)
         || (username != previous && username in s.users) then Untouched
      else if username != n then Absent
      else
        var was := s.users[previous];
        Stored(User(n, if newHash.Some? then newHash.value else was.passwordHash,
                    if previous == req.v.username then was.admin else req.v.admin && admin))
    case RemoveUser(req, username) =>
      if username == n && Valid(p, s, req) && req.v.admin && p.nameOk(n) && n != req.v.username then Absent else Untouched
    case _ => Untouched
  }

  function RecordOf(s: State, n: string): Written { if n in s.users then Stored(s.users[n]) else Absent }

  lemma StepWrites(p: Params, s: State, e: Event, n: string)
    ensures var w := Writes(p, s, e, n); RecordOf(Step(p, s, e), n) == if w.Untouched? then RecordOf(s, n) else w
  {
  }

  /** Event k is the last of the run that writes under n (none if k is -1), and n's record is what it wrote. */
  ghost predicate LastWriter(p: Params, s: State, es: seq<Event>, n: string, k: int) {
    && -1 <= k < |es|
    && (forall j :: k < j < |es| ==> Writes(p, Run(p, s, es[..j]), es[j], n).Untouched?)
    && if k == -1 then RecordOf(Run(p, s, es), n) == RecordOf(s, n)
       else !Writes(p, Run(p, s, es[..k]), es[k], n).Untouched? && RecordOf(Run(p, s, es), n) == Writes(p, Run(p, s, es[..k]), es[k], n)
  }

  lemma InitAt(es: seq<Event>, j: nat)
    requires j < |es| - 1
    ensures es[..|es| - 1][..j] == es[..j] && es[..|es| - 1][j] == es[j]
  {
  }

  lemma WriterStays(p: Params, s: State, es: seq<Event>, n: string, k: int)
    requires |es| > 0 && LastWriter(p, s, es[..|es| - 1], n, k)
    requires Writes(p, Run(p, s, es[..|es| - 1]), es[|es| - 1], n).Untouched?
    ensures LastWriter(p, s, es, n, k)
  {
    var last := |es| - 1;
    StepWrites(p, Run(p, s, es[..last]), es[last], n);
    forall j | k < j < last ensures Writes(p, Run(p, s, es[..j]), es[j], n).Untouched? { InitAt(es, j); }
    if k >= 0 { InitAt(es, k); }
  }

  /** After any run the record under every name is what the last event that wrote it says, or the first record. */
  lemma {:induction false} LastWrite(p: Params, s: State, es: seq<Event>, n: string) returns (k: int)
    ensures LastWriter(p, s, es, n, k)
  {
    if |es| == 0 {
      k := -1;
    } else {
      var last := |es| - 1;
      StepWrites(p, Run(p, s, es[..last]), es[last], n);
      if Writes(p, Run(p, s, es[..last]), es[last], n).Untouched? {
        k := LastWrite(p, s, es[..last], n);
        WriterStays(p, s, es, n, k);
      } else {
        k := last;
      }
    }
  }

  // ---- Where sessions come from ----

  /** The same session later: only logging out takes its token. */
  predicate SameSession(v: Values, w: Values) { w.createdAt == v.createdAt && (w.maxAge == -1 || (w.token == v.token && w.maxAge == v.maxAge)) }

  /** Event k is a login with the right password that opened the session. */
  ghost predicate OpenedBy(p: Params, s: State, es: seq<Event>, k: nat, w: Values)
    requires k < |es|
  {
    && es[k].Login? && es[k].passwordCorrect && p.nameOk(es[k].username) && es[k].username in Run(p, s, es[..k]).users
    && w.createdAt == es[k].now
    && (w.maxAge == -1 || (w.token == es[k].token && w.maxAge == if es[k].remember then 604_800 else 0))
  }

  ghost predicate Descends(p: Params, s: State, es: seq<Event>, w: Values) {
    (exists v :: v in s.issued && SameSession(v, w)) || (exists k :: 0 <= k < |es| && OpenedBy(p, s, es, k, w))
  }

  lemma DescendsLater(p: Params, s: State, es: seq<Event>, v: Values, w: Values)
    requires |es| > 0 && Descends(p, s, es[..|es| - 1], v) && SameSession(v, w)
    ensures Descends(p, s, es, w)
  {
    var init := es[..|es| - 1];
    if v0 :| v0 in s.issued && SameSession(v0, v) {
      assert SameSession(v0, w);
    } else {
      var k :| 0 <= k < |init| && OpenedBy(p, s, init, k, v);
      assert init[..k] == es[..k];
      assert OpenedBy(p, s, es, k, w);
    }
  }

  /** Every session that is ever handed out goes back to a login with the right password for a stored user. */
  lemma {:induction false} EverySessionLoggedIn(p: Params, s: State, es: seq<Event>, w: Values)
    requires GenuineRun(p, s, es) && w in Run(p, s, es).issued
    ensures Descends(p, s, es, w)
  {
    if |es| == 0 {
      assert SameSession(w, w);
    } else {
      var last := |es| - 1;
      var init, e := es[..last], es[last];
      forall k | 0 <= k < last ensures Genuine(Run(p, s, init[..k]), init[k]) { assert init[..k] == es[..k]; }
      if w in Run(p, s, init).issued {
        EverySessionLoggedIn(p, s, init, w);
        DescendsLater(p, s, es, w, w);
      } else if e.Login? {
        assert OpenedBy(p, s, es, last, w);
      } else {
        assert Genuine(Run(p, s, init), e);
        var v := e.req.v;
        EverySessionLoggedIn(p, s, init, v);
        DescendsLater(p, s, es, v, w);
      }
    }
  }
}
