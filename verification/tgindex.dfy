/** The in-memory index from Telegram users to client IDs (util.go), kept beside the stored clients. */
module TgIndex {
  import opened CText
  import opened Sequences
  import Ipv4

  type Index = map<int, seq<string>>

  /** strconv.ParseInt(s, 10, 64). */
  function ParseInt(s: string): Option<int> {
    var neg := |s| > 0 && s[0] == '-';
    var d := if neg || (|s| > 0 && s[0] == '+') then s[1..] else s;
    if |d| == 0 || exists i :: 0 <= i < |d| && !IsDigit(d[i]) then None
    else
      var v: int := Ipv4.Decimal(d);
      var n := if neg then -v else v;
      if -0x8000_0000_0000_0000 <= n <= 0x7fff_ffff_ffff_ffff then Some(n) else None
  }

  /** The slice without one string. */
  function Filter(s: seq<string>, x: string): seq<string> { Keep(s, v => v != x) }

  /** filterStringSlice: the kept strings move to the front of the same array. */
  method FilterStringSlice(a: array<string>, x: string) returns (n: nat)
    modifies a
    ensures n <= a.Length && a[..n] == Filter(old(a[..]), x)
  {
    ghost var was := a[..];
    n := 0;
    for i := 0 to a.Length
      invariant n <= i && a[i..] == was[i..] && a[..n] == Filter(was[..i], x)
    {
      assert was[..i + 1][..i] == was[..i] && a[i] == was[i];
      if a[i] != x {
        ghost var front := a[..n];
        a[n] := a[i];
        assert a[..n] == front && a[..n + 1] == front + [was[i]];
        n := n + 1;
      }
      assert a[i + 1..] == was[i + 1..];
    }
    assert was[..a.Length] == was;
  }

  // ---- Detach and attach ----

  /** The index without one client; users without clients disappear. */
  function Detach(tg: Index, id: string): Index {
    map u | u in tg && Filter(tg[u], id) != [] :: Filter(tg[u], id)
  }

  function Attach(tg: Index, u: int, id: string): Index {
    tg[u := (if u in tg then tg[u] else []) + [id]]
  }

  /** The entry of one user after the filter. */
  ghost predicate Filtered(tg: Index, r: Index, id: string, u: int) {
    if u in tg && Filter(tg[u], id) != [] then u in r && r[u] == Filter(tg[u], id) else u !in r
  }

  lemma AllFiltered(tg: Index, r: Index, id: string)
    requires forall u :: Filtered(tg, r, id, u)
    ensures r == Detach(tg, id)
  {
    forall u ensures u in r <==> u in Detach(tg, id) { assert Filtered(tg, r, id, u); }
    forall u | u in r ensures r[u] == Detach(tg, id)[u] { assert Filtered(tg, r, id, u); }
  }

  method FilterUser(r: Index, id: string, u: int) returns (r': Index)
    requires u in r
    ensures r' == if Filter(r[u], id) != [] then r[u := Filter(r[u], id)] else r - {u}
  {
    var cls := new string[|r[u]|](i requires 0 <= i < |r[u]| => r[u][i]);
    assert cls[..] == r[u];
    var n := FilterStringSlice(cls, id);
    r' := if n > 0 then r[u := cls[..n]] else r - {u};
  }

  lemma HasMember(s: set<int>)
    requires s != {}
    ensures exists x :: x in s
  {
    assert (forall x :: x !in s) ==> s == {};
  }

  method SomeUser(users: set<int>) returns (u: int)
    requires users != {}
    ensures u in users
  {
    HasMember(users);
    u :| u in users;
  }

  /** The loop over the users, in whatever order the map yields them. */
  method RemoveTgToClientID(tg: Index, id: string) returns (r: Index)
    ensures r == Detach(tg, id)
  {
    r := tg;
    var left: set<int> := tg.Keys;
    while left != {}
      invariant left <= tg.Keys
      invariant forall u :: u in left ==> u in r && r[u] == tg[u]
      invariant forall u :: u !in left ==> Filtered(tg, r, id, u)
      decreases |left|
    {
      var u := SomeUser(left);
      var was := r;
      r := FilterUser(r, id, u);
      left := left - {u};
      forall v | v !in left ensures Filtered(tg, r, id, v) {
        assert v != u ==> Filtered(tg, was, id, v);
      }
    }
    AllFiltered(tg, r, id);
  }

  method UpdateTgToClientID(tg: Index, u: int, id: string) returns (r: Index)
    ensures r == Attach(Detach(tg, id), u, id)
  {
    r := RemoveTgToClientID(tg, id);
    if u in r {
      r := r[u := r[u] + [id]];
    } else {
      assert [] + [id] == [id];
      r := r[u := [id]];
    }
  }

  // ---- What the index lists ----

  ghost predicate Lists(tg: Index, u: int, id: string) { u in tg && id in tg[u] }

  ghost predicate Tidy(tg: Index) { forall u :: u in tg ==> tg[u] != [] && Distinct(tg[u]) }

  lemma DetachLists(tg: Index, id: string)
    requires Tidy(tg)
    ensures Tidy(Detach(tg, id))
    ensures forall u, x :: Lists(Detach(tg, id), u, x) <==> Lists(tg, u, x) && x != id
  {
    forall u | u in tg ensures Distinct(Filter(tg[u], id)) { KeepDistinct(tg[u], v => v != id); }
    forall u, x ensures Lists(Detach(tg, id), u, x) <==> Lists(tg, u, x) && x != id {
      if u in tg { KeepMember(tg[u], v => v != id, x); }
    }
  }

  lemma AttachLists(tg: Index, u: int, id: string)
    requires Tidy(tg) && forall v :: !Lists(tg, v, id)
    ensures Tidy(Attach(tg, u, id))
    ensures forall v, x :: Lists(Attach(tg, u, id), v, x) <==> Lists(tg, v, x) || (v == u && x == id)
  {
    assert !Lists(tg, u, id);
  }
}
