/** Login sessions (session.go): the values a session carries and how they age. */
module Sessions {
  import opened CText

  const DAY := 86_400

  function Days(n: int): int { 86_400 * n }

  /** What sess.Values holds once a login has filled it. Times are seconds. */
  datatype Values = Values(token: string, username: string, hash: int, admin: bool, maxAge: int, createdAt: int, updatedAt: int)

  /** The time checks of isValidSession; a session that is not remembered counts as lasting a day. */
  predicate InTime(v: Values, maxDuration: int, now: int) {
    var maxAge := if v.maxAge == 0 then DAY else v.maxAge;
    !(v.updatedAt > now || v.updatedAt + maxAge < now || v.createdAt + maxDuration < now)
  }

  /** What doRefreshSession asks before it moves updated_at. */
  predicate RefreshDue(v: Values, cookie: Option<string>, maxDuration: int, now: int) {
    && v.maxAge > 0 && cookie == Some(v.token)
    && !(v.updatedAt > now || v.updatedAt + v.maxAge < now || now - v.updatedAt < DAY || v.createdAt + maxDuration < now)
  }

  function Opened(token: string, username: string, hash: int, admin: bool, remember: bool, now: int): Values {
    Values(token, username, hash, admin, if remember then 7 * DAY else 0, now, now)
  }

  function Refreshed(v: Values, cookie: Option<string>, maxDuration: int, now: int): Values {
    if RefreshDue(v, cookie, maxDuration, now) then v.(updatedAt := now) else v
  }

  /** setUser. */
  function Restamped(v: Values, username: string, admin: bool, hash: int): Values {
    v.(username := username, hash := hash, admin := admin)
  }

  /** clearSession. */
  function Cleared(v: Values): Values {
    v.(username := "", hash := 0, admin := false, token := "", maxAge := -1)
  }

  /** The session object whose values the handlers of session.go change in place. */
  class Session {
    var values: Values

    constructor (v: Values)
      ensures values == v
    {
      values := v;
    }

    method DoRefreshSession(cookie: Option<string>, maxDuration: int, now: int)
      modifies this
      ensures values == Refreshed(old(values), cookie, maxDuration, now)
    {
      var maxAge := values.maxAge;
      if maxAge <= 0 || cookie != Some(values.token) {
        return;
      }
      var expiration := values.updatedAt + maxAge;
      if values.updatedAt > now || expiration < now || now - values.updatedAt < DAY || values.createdAt + maxDuration < now {
        return;
      }
      values := values.(updatedAt := now);
    }

    method SetUser(username: string, admin: bool, hash: int)
      modifies this
      ensures values == Restamped(old(values), username, admin, hash)
    {
      values := values.(username := username);
      values := values.(hash := hash);
      values := values.(admin := admin);
    }

    method ClearSession()
      modifies this
      ensures values == Cleared(old(values))
    {
      values := values.(username := "", hash := 0, admin := false);
      values := values.(token := "", maxAge := -1);
    }
  }

  // ---- The life of one session ----

  datatype Act =
    | Refresh(cookie: Option<string>, now: int)
    | SelfUpdate(username: string, admin: bool, hash: int)
    | Clear

  function After(v: Values, maxDuration: int, acts: seq<Act>): Values {
    if |acts| == 0 then v
    else
      var w := After(v, maxDuration, acts[..|acts| - 1]);
      match acts[|acts| - 1]
      case Refresh(cookie, now) => Refreshed(w, cookie, maxDuration, now)
      case SelfUpdate(username, admin, hash) => Restamped(w, username, admin, hash)
      case Clear => Cleared(w)
  }

  /** How many of the refreshes moved updated_at. */
  function RefreshCount(v: Values, maxDuration: int, acts: seq<Act>): nat {
    if |acts| == 0 then 0
    else
      var w := After(v, maxDuration, acts[..|acts| - 1]);
      var a := acts[|acts| - 1];
      RefreshCount(v, maxDuration, acts[..|acts| - 1]) + (if a.Refresh? && RefreshDue(w, a.cookie, maxDuration, a.now) then 1 else 0)
  }

  /** What a chain of refreshes, self-updates and clears keeps of a session opened at t0: created_at is still t0,
      every effective refresh moved updated_at by a day or more and not beyond the maximal duration, an unremembered
      session never moves, and a cleared one stays cleared. */
  lemma {:induction false} LifeOfSession(token: string, username: string, hash: int, admin: bool, remember: bool, t0: int, maxDuration: int, acts: seq<Act>)
    requires maxDuration >= 0
    ensures var v := Opened(token, username, hash, admin, remember, t0);
            var w, n := After(v, maxDuration, acts), RefreshCount(v, maxDuration, acts);
            && w.createdAt == t0 && t0 + Days(n) <= w.updatedAt <= t0 + maxDuration
            && (w.maxAge == -1 || w.maxAge == v.maxAge)
            && (!remember ==> w.updatedAt == t0)
            && (if Clear in acts then w.maxAge == -1 else w.maxAge == (if remember then 604_800 else 0) && w.token == token)
  {
    if |acts| > 0 {
      var k := |acts| - 1;
      LifeOfSession(token, username, hash, admin, remember, t0, maxDuration, acts[..k]);
      assert acts == acts[..k] + [acts[k]];
    }
  }

  /** A session passes the time checks exactly when it was never cleared, its maximal duration is not over, and it is
      within a day after the login if it was not remembered, within seven days after its last refresh if it was. It is
      refreshed at most maxDuration / DAY times. */
  lemma SessionsEnd(token: string, username: string, hash: int, admin: bool, remember: bool, t0: int, maxDuration: int, acts: seq<Act>, now: int)
    requires maxDuration >= 0
    ensures var v := Opened(token, username, hash, admin, remember, t0);
            var w := After(v, maxDuration, acts);
            && RefreshCount(v, maxDuration, acts) <= maxDuration / DAY
            && (InTime(w, maxDuration, now) <==>
                  && Clear !in acts && now <= t0 + maxDuration
                  && (if remember then w.updatedAt <= now <= w.updatedAt + 604_800 else t0 <= now <= t0 + 86_400))
  {
    LifeOfSession(token, username, hash, admin, remember, t0, maxDuration, acts);
  }

  /** A visit that passes the time checks moves updated_at to now exactly when the session is remembered and a day or more
      has gone by since; nothing else of the session changes. */
  lemma RefreshExactlyWhen(v: Values, cookie: Option<string>, maxDuration: int, now: int)
    requires InTime(v, maxDuration, now) && cookie == Some(v.token)
    ensures Refreshed(v, cookie, maxDuration, now) == if v.maxAge > 0 && now - v.updatedAt >= 86_400 then v.(updatedAt := now) else v
  {
  }

  function Daily(token: string, t0: int, n: nat): seq<Act> {
    if n == 0 then [] else Daily(token, t0, n - 1) + [Refresh(Some(token), t0 + Days(n))]
  }

  /** The bound is attained: a remembered session visited once a day is refreshed every day up to the maximal duration. */
  lemma {:induction false} DailyRefreshes(v: Values, maxDuration: int, n: nat)
    requires v.maxAge == 7 * DAY && v.updatedAt == v.createdAt && Days(n) <= maxDuration
    ensures var acts := Daily(v.token, v.createdAt, n);
            && RefreshCount(v, maxDuration, acts) == n
            && After(v, maxDuration, acts) == v.(updatedAt := v.createdAt + Days(n))
            && InTime(After(v, maxDuration, acts), maxDuration, v.createdAt + Days(n))
  {
    if n > 0 {
      DailyRefreshes(v, maxDuration, n - 1);
      var acts, now := Daily(v.token, v.createdAt, n - 1), v.createdAt + Days(n);
    }
  }
}
