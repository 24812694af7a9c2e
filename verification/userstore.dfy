/** The stored users with their checksum cache, changed in place by the handlers of routes.go. */
module UserStore {
  import opened CText
  import opened Sessions
  import opened Users

  class Store {
    const p: Params
    var users: map<string, User>
    var crc: map<string, int>
    ghost var issued: set<Values>

    ghost function View(): State
      reads this
    {
      State(users, crc, issued)
    }

    /** The cache part of Init: a checksum for every stored record, after a first administrator was made if there
        was no user at all. */
    constructor (p: Params, stored: map<string, User>, name: string, hash: string)
      requires forall n :: n in stored ==> stored[n].name == n
      ensures this.p == p && issued == {}
      ensures users == if |stored| < 1 then map[name := User(name, hash, true)] else stored
      ensures CacheExact(p, View()) && (|stored| < 1 ==> Inv(p, View()))
    {
      this.p := p;
      var found := if |stored| < 1 then map[name := User(name, hash, true)] else stored;
      users := found;
      crc := map n | n in found :: p.checksum(found[n]);
      issued := {};
      new;
      assert |stored| < 1 ==> users[name].admin;
    }

    method SaveUser(u: User)
      modifies this
      ensures View() == Users.SaveUser(p, old(View()), u)
    {
      users := users[u.name := u];
      crc := crc[u.name := p.checksum(u)];
    }

    method DeleteUser(name: string)
      modifies this
      ensures View() == Users.DeleteUser(old(View()), name)
    {
      crc := crc - {name};
      users := users - {name};
    }

    method IsValidSession(sess: Session, cookie: Option<string>, now: int) returns (valid: bool)
      ensures valid == Valid(p, View(), Request(sess.values, cookie, now))
      ensures valid <==>
        && cookie == Some(sess.values.token)
        && sess.values.updatedAt <= now <= sess.values.updatedAt + (if sess.values.maxAge == 0 then 86_400 else sess.values.maxAge)
        && now <= sess.values.createdAt + p.maxDuration
        && sess.values.username in crc && crc[sess.values.username] == sess.values.hash
    {
      var v := sess.values;
      if cookie != Some(v.token) {
        return false;
      }
      var maxAge := v.maxAge;
      if maxAge == 0 {
        maxAge := DAY;
      }
      var expiration := v.updatedAt + maxAge;
      if v.updatedAt > now || expiration < now || v.createdAt + p.maxDuration < now {
        return false;
      }
      if v.username !in crc || v.hash != crc[v.username] {
        return false;
      }
      return true;
    }

    method Login(username: string, passwordCorrect: bool, remember: bool, token: string, now: int) returns (sess: Session?)
      modifies this
      ensures View() == Step(p, old(View()), Event.Login(username, passwordCorrect, remember, token, now))
      ensures sess != null <==> p.nameOk(username) && username in users && passwordCorrect
      ensures sess != null ==> fresh(sess) && sess.values in issued
      ensures sess != null ==> sess.values == Values(token, users[username].name, p.checksum(users[username]), users[username].admin,
                                                     if remember then 604_800 else 0, now, now)
      ensures sess != null && CacheExact(p, old(View())) ==> forall c, at :: Valid(p, View(), Request(sess.values, c, at)) <==>
        c == Some(token) && now <= at <= now + (if remember then 604_800 else 86_400) && at <= now + p.maxDuration
      ensures users == old(users) && crc == old(crc)
    {
      sess := null;
      if !p.nameOk(username) || username !in users || !passwordCorrect {
        return;
      }
      var dbuser := users[username];
      var ageMax := 0;
      if remember {
        ageMax := DAY * 7;
      }
      sess := new Session(Values(token, dbuser.name, p.checksum(dbuser), dbuser.admin, ageMax, now, now));
      issued := issued + {sess.values};
    }

    method Visit(sess: Session, cookie: Option<string>, now: int)
      modifies this, sess
      ensures View() == Step(p, old(View()), Event.Visit(Request(old(sess.values), cookie, now)))
      ensures users == old(users) && crc == old(crc)
      ensures sess.values ==
        if Valid(p, old(View()), Request(old(sess.values), cookie, now)) && old(sess.values).maxAge > 0 && now - old(sess.values).updatedAt >= 86_400
        then old(sess.values).(updatedAt := now) else old(sess.values)
    {
      var valid := IsValidSession(sess, cookie, now);
      if valid {
        sess.DoRefreshSession(cookie, p.maxDuration, now);
        issued := issued + {sess.values};
      }
    }

    method Logout(sess: Session, cookie: Option<string>, now: int)
      modifies this, sess
      ensures View() == Step(p, old(View()), Event.Logout(Request(old(sess.values), cookie, now)))
      ensures users == old(users) && crc == old(crc)
      ensures sess.values ==
        if Valid(p, old(View()), Request(old(sess.values), cookie, now))
        then Values("", "", 0, false, -1, old(sess.values).createdAt, old(sess.values).updatedAt) else old(sess.values)
    {
      var valid := IsValidSession(sess, cookie, now);
      if valid {
        sess.ClearSession();
        issued := issued + {sess.values};
      }
    }

    method UpdateUser(sess: Session, cookie: Option<string>, now: int, username: string, newHash: Option<string>, previous: string, admin: bool)
      modifies this, sess
      ensures View() == Step(p, old(View()), Event.UpdateUser(Request(old(sess.values), cookie, now), username, newHash, previous, admin))
      ensures var v := old(sess.values);
        if Valid(p, old(View()), Request(v, cookie, now)) && (v.admin || previous == v.username) && p.nameOk(previous) && previous in old(users)
           && username != "" && p.nameOk(username) && (username == previous || username !in old(users))
        then
          var was := old(users)[previous];
          var u := User(username, if newHash.Some? then newHash.value else was.passwordHash,
                        if previous == v.username then was.admin else v.admin && admin);
          && users == (old(users) - {previous})[username := u] && crc == (old(crc) - {previous})[username := p.checksum(u)]
          && sess.values == if previous == v.username then v.(username := username, hash := p.checksum(u), admin := u.admin) else v
        else users == old(users) && crc == old(crc) && sess.values == v
    {
      var valid := IsValidSession(sess, cookie, now);
      if !valid || (!sess.values.admin && previous != sess.values.username) {
        return;
      }
      var grant := admin;
      if !sess.values.admin {
        grant := false;
      }
      if !p.nameOk(previous) || previous !in users {
        return;
      }
      var user := users[previous];
      if username == "" || !p.nameOk(username) {
        return;
      }
      user := user.(name := username);
      if username != previous && username in users {
        return;
      }
      if newHash.Some? {
        user := user.(passwordHash := newHash.value);
      }
      if previous != sess.values.username {
        user := user.(admin := grant);
      }
      DeleteUser(previous);
      SaveUser(user);
      if previous == sess.values.username {
        sess.SetUser(user.name, user.admin, p.checksum(user));
        issued := issued + {sess.values};
      }
    }

    method CreateUser(sess: Session, cookie: Option<string>, now: int, username: string, hash: string, admin: bool)
      modifies this
      ensures View() == Step(p, old(View()), Event.CreateUser(Request(sess.values, cookie, now), username, hash, admin))
      ensures var v := sess.values;
        if Valid(p, old(View()), Request(v, cookie, now)) && v.admin && username != "" && p.nameOk(username) && username !in old(users)
        then users == old(users)[username := User(username, hash, admin)]
             && crc == old(crc)[username := p.checksum(User(username, hash, admin))]
        else users == old(users) && crc == old(crc)
    {
      var valid := IsValidSession(sess, cookie, now);
      if !valid || !sess.values.admin || username == "" || !p.nameOk(username) || username in users {
        return;
      }
      SaveUser(User(username, hash, admin));
    }

    method RemoveUser(sess: Session, cookie: Option<string>, now: int, username: string)
      modifies this
      ensures View() == Step(p, old(View()), Event.RemoveUser(Request(sess.values, cookie, now), username))
      ensures var v := sess.values;
        if Valid(p, old(View()), Request(v, cookie, now)) && v.admin && p.nameOk(username) && username != v.username
        then users == old(users) - {username} && crc == old(crc) - {username}
        else users == old(users) && crc == old(crc)
    {
      var valid := IsValidSession(sess, cookie, now);
      if !valid || !sess.values.admin || !p.nameOk(username) || username == sess.values.username {
        return;
      }
      DeleteUser(username);
    }
  }
}
