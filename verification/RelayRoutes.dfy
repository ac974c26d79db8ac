/**
 * The relay route store of the snapshot harness, specified by its call history:
 * what a digest may do follows from which calls were made, not from the records kept.
 */
module RelayRoutes {
  import opened Options

  type RouteId = string
  type Digest = string

  datatype Endpoint = Mobile | Desktop
  datatype Authority = Authority(endpoint: Endpoint, selector: Option<string>)
  datatype Route = Route(revision: nat, revoked: bool, authorities: map<Digest, Authority>)

  datatype Call =
    | Rotate(route: RouteId, endpoint: Endpoint, digest: Digest)
    | Issue(route: RouteId, endpoint: Endpoint, digest: Digest, selector: Option<string>)
    | RegisterPairing(route: RouteId, pairing: string, desktop: Digest, mobile: Digest)
    | RevokeCredential(route: RouteId, endpoint: Endpoint, digest: Digest)
    | Revoke(route: RouteId)

  // -------------------------------------------------- what the history says

  /** A call that leaves the route open whatever it was before. */
  predicate Opens(c: Call, r: RouteId) {
    c.route == r && (c.Rotate? || c.RegisterPairing?)
  }

  /** Opened, and not revoked since. */
  ghost predicate Live(h: seq<Call>, r: RouteId) {
    exists i :: 0 <= i < |h| && Opens(h[i], r) && forall j :: i < j < |h| ==> h[j] != Revoke(r)
  }

  /** The store has a record of the route. */
  ghost predicate Known(h: seq<Call>, r: RouteId) {
    exists i :: 0 <= i < |h| && (Opens(h[i], r) || h[i] == Revoke(r))
  }

  /** The authority the call, made after `before`, installs for the digest. */
  ghost function Installs(before: seq<Call>, c: Call, r: RouteId, d: Digest): Option<Authority> {
    if c.route != r then None
    else
      match c
      case Rotate(_, e, digest) => if digest == d then Some(Authority(e, None)) else None
      case Issue(_, e, digest, s) => if digest == d && Live(before, r) then Some(Authority(e, s)) else None
      case RegisterPairing(_, p, desktop, mobile) =>
        if mobile == d then Some(Authority(Mobile, Some(p))) else if desktop == d then Some(Authority(Desktop, Some(p))) else None
      case RevokeCredential(_, _, _) => None
      case Revoke(_) => None
  }

  /** A rotation, a revocation of the route, or one of this very credential. */
  predicate Removes(c: Call, r: RouteId, d: Digest, a: Authority) {
    c.route == r && (c.Rotate? || c.Revoke? || (c.RevokeCredential? && c.endpoint == a.endpoint && c.digest == d))
  }

  /** Call `i` installed the authority, and nothing since has replaced or removed it. */
  ghost predicate HeldSince(h: seq<Call>, i: int, r: RouteId, d: Digest, a: Authority) {
    && 0 <= i < |h|
    && Installs(h[..i], h[i], r, d) == Some(a)
    && forall j :: i < j < |h| ==> Installs(h[..j], h[j], r, d).None? && !Removes(h[j], r, d, a)
  }

  ghost predicate Holds(h: seq<Call>, r: RouteId, d: Digest, a: Authority) {
    exists i :: HeldSince(h, i, r, d, a)
  }

  /** Rotations, revocations, and pairings on a route that is not live each raise the revision by one. */
  ghost predicate Raises(before: seq<Call>, c: Call, r: RouteId) {
    c.route == r && (c.Rotate? || c.Revoke? || (c.RevokeCredential? && Known(before, r)) || (c.RegisterPairing? && !Live(before, r)))
  }

  ghost function Revision(h: seq<Call>, r: RouteId): nat {
    if h == [] then 0
    else Revision(h[..|h| - 1], r) + if Raises(h[..|h| - 1], h[|h| - 1], r) then 1 else 0
  }

  // ------------------------------------------------------------ one more call

  lemma LiveSnoc(h: seq<Call>, c: Call, r: RouteId)
    ensures Live(h + [c], r) <==> Opens(c, r) || (c != Revoke(r) && Live(h, r))
    ensures Known(h + [c], r) <==> Opens(c, r) || c == Revoke(r) || Known(h, r)
  {
    var g := h + [c];
    if Opens(c, r) {
      assert Opens(g[|h|], r);
    }
    if Live(h, r) && c != Revoke(r) {
      var i :| 0 <= i < |h| && Opens(h[i], r) && forall j :: i < j < |h| ==> h[j] != Revoke(r);
      assert Opens(g[i], r) && forall j :: i < j < |g| ==> g[j] != Revoke(r);
    }
    if Live(g, r) && !Opens(c, r) {
      var i :| 0 <= i < |g| && Opens(g[i], r) && forall j :: i < j < |g| ==> g[j] != Revoke(r);
      assert h[i] == g[i] && g[|h|] == c;
      assert forall j :: i < j < |h| ==> h[j] == g[j];
    }
    KnownSnoc(h, c, r);
  }

  lemma KnownSnoc(h: seq<Call>, c: Call, r: RouteId)
    ensures Known(h + [c], r) <==> Opens(c, r) || c == Revoke(r) || Known(h, r)
  {
    var g := h + [c];
    assert g[|h|] == c;
    if Known(h, r) {
      var i :| 0 <= i < |h| && (Opens(h[i], r) || h[i] == Revoke(r));
      assert g[i] == h[i];
    }
    if Known(g, r) {
      var i :| 0 <= i < |g| && (Opens(g[i], r) || g[i] == Revoke(r));
      assert i < |h| ==> h[i] == g[i];
    }
  }

  lemma HoldsSnoc(h: seq<Call>, c: Call, r: RouteId, d: Digest, a: Authority)
    ensures Holds(h + [c], r, d, a) <==>
              if Installs(h, c, r, d).Some? then Installs(h, c, r, d) == Some(a) else Holds(h, r, d, a) && !Removes(c, r, d, a)
  {
    var g := h + [c];
    assert g[..|h|] == h && g[|h|] == c;
    assert forall i :: 0 <= i < |h| ==> g[..i] == h[..i] && g[i] == h[i];
    if Installs(h, c, r, d) == Some(a) {
      assert HeldSince(g, |h|, r, d, a);
    }
    if Installs(h, c, r, d).None? && Holds(h, r, d, a) && !Removes(c, r, d, a) {
      var i :| HeldSince(h, i, r, d, a);
      assert HeldSince(g, i, r, d, a);
    }
    if Holds(g, r, d, a) {
      var i :| HeldSince(g, i, r, d, a);
      if i < |h| {
        assert HeldSince(h, i, r, d, a);
      }
    }
  }

  lemma RevisionSnoc(h: seq<Call>, c: Call, r: RouteId)
    ensures Revision(h + [c], r) == Revision(h, r) + if Raises(h, c, r) then 1 else 0
  {
  }

  /** A live route has a record, and only live routes have authorities. */
  lemma {:induction false} HoldsNeedsLive(h: seq<Call>, r: RouteId, d: Digest, a: Authority)
    ensures Live(h, r) ==> Known(h, r)
    ensures Holds(h, r, d, a) ==> Live(h, r)
  {
    if h != [] {
      var g, c := h[..|h| - 1], h[|h| - 1];
      assert h == g + [c];
      HoldsNeedsLive(g, r, d, a);
      LiveSnoc(g, c, r);
      HoldsSnoc(g, c, r, d, a);
    }
  }

  lemma {:induction false} HoldsIsUnique(h: seq<Call>, r: RouteId, d: Digest, a: Authority, b: Authority)
    requires Holds(h, r, d, a) && Holds(h, r, d, b)
    ensures a == b
  {
    if h != [] {
      var g, c := h[..|h| - 1], h[|h| - 1];
      assert h == g + [c];
      HoldsSnoc(g, c, r, d, a);
      HoldsSnoc(g, c, r, d, b);
      if Installs(g, c, r, d).None? {
        HoldsIsUnique(g, r, d, a, b);
      }
    }
  }

  // ------------------------------------------------------------ main theorems

  /** Stored revisions never decrease, whatever is called. */
  lemma {:induction false} RevisionsNeverDecrease(h: seq<Call>, more: seq<Call>, r: RouteId)
    ensures Revision(h, r) <= Revision(h + more, r)
    decreases |more|
  {
    if more == [] {
      assert h + more == h;
    } else {
      var front, c := more[..|more| - 1], more[|more| - 1];
      RevisionsNeverDecrease(h, front, r);
      RevisionSnoc(h + front, c, r);
      assert h + front + [c] == h + more;
    }
  }

  /** A digest that loses its authority does so under a higher revision. */
  lemma LosingAuthorityRaisesRevision(h: seq<Call>, c: Call, r: RouteId, d: Digest, a: Authority)
    requires Holds(h, r, d, a) && forall b :: !Holds(h + [c], r, d, b)
    ensures Revision(h + [c], r) > Revision(h, r)
  {
    HoldsSnoc(h, c, r, d, a);
    if Installs(h, c, r, d).Some? {
      HoldsSnoc(h, c, r, d, Installs(h, c, r, d).value);
    }
    HoldsNeedsLive(h, r, d, a);
    RevisionSnoc(h, c, r);
  }

  // ------------------------------------------------------------------ the store

  /** The record grants the authority to the digest. */
  predicate Grants(record: Option<Route>, d: Digest, a: Authority) {
    record.Some? && d in record.value.authorities && record.value.authorities[d] == a
  }

  /** What a record grants after the call, going by what it granted before. */
  ghost predicate GrantedAfter(h: seq<Call>, c: Call, record: Option<Route>, d: Digest, a: Authority) {
    var installed := Installs(h, c, c.route, d);
    if installed.Some? then installed == Some(a) else Grants(record, d, a) && !Removes(c, c.route, d, a)
  }

  /** The record a store holds for a route says what the history says. */
  ghost predicate Matches(h: seq<Call>, r: RouteId, record: Option<Route>) {
    && (record.Some? <==> Known(h, r))
    && (record.None? ==> Revision(h, r) == 0 && !Live(h, r))
    && (record.Some? ==>
          && record.value.revision == Revision(h, r)
          && (record.value.revoked <==> !Live(h, r))
          && (forall d, a :: Holds(h, r, d, a) <==> Grants(record, d, a)))
  }

  /** A call on another route changes nothing the history says of this one. */
  lemma OtherRouteStands(h: seq<Call>, c: Call, r: RouteId, record: Option<Route>)
    requires c.route != r && Matches(h, r, record)
    ensures Matches(h + [c], r, record)
  {
    LiveSnoc(h, c, r);
    RevisionSnoc(h, c, r);
    forall d, a
      ensures Holds(h + [c], r, d, a) <==> Holds(h, r, d, a)
    {
      HoldsSnoc(h, c, r, d, a);
    }
  }

  /** What must be shown of the record a call leaves on its own route. */
  lemma OwnRouteFollows(h: seq<Call>, c: Call, record: Option<Route>, after: Option<Route>)
    requires Matches(h, c.route, record)
    requires after.Some? <==> Opens(c, c.route) || c == Revoke(c.route) || record.Some?
    requires after.Some? ==> after.value.revision == (if record.Some? then record.value.revision else 0) + if Raises(h, c, c.route) then 1 else 0
    requires after.Some? ==> (after.value.revoked <==> !(Opens(c, c.route) || (c != Revoke(c.route) && record.Some? && !record.value.revoked)))
    requires after.Some? ==> forall d, a :: Grants(after, d, a) <==> GrantedAfter(h, c, record, d, a)
    ensures Matches(h + [c], c.route, after)
  {
    var r := c.route;
    LiveSnoc(h, c, r);
    RevisionSnoc(h, c, r);
    forall d, a
      ensures after.Some? ==> (Holds(h + [c], r, d, a) <==> Grants(after, d, a))
    {
      HoldsSnoc(h, c, r, d, a);
      HoldsNeedsLive(h, r, d, a);
    }
  }

  class RouteStore {
    var routes: map<RouteId, Route>
    ghost var history: seq<Call>

    ghost predicate Valid()
      reads this
    {
      forall r :: Matches(history, r, if r in routes then Some(routes[r]) else None)
    }

    constructor ()
      ensures Valid() && history == [] && routes == map[]
    {
      routes := map[];
      history := [];
    }

    method RotateRoute(r: RouteId, e: Endpoint, d: Digest) returns (revision: nat)
      requires Valid()
      modifies this
      ensures Valid() && history == old(history) + [Rotate(r, e, d)]
      ensures revision == Revision(history, r)
    {
      ghost var c, before := Rotate(r, e, d), if r in routes then Some(routes[r]) else None;
      revision := (if r in routes then routes[r].revision else 0) + 1;
      routes := routes[r := Route(revision, false, map[d := Authority(e, None)])];
      OwnRouteFollows(history, c, before, Some(routes[r]));
      Remember(c);
    }

    method IssueAuthority(r: RouteId, e: Endpoint, d: Digest, s: Option<string>) returns (revision: Option<nat>)
      requires Valid()
      modifies this
      ensures Valid() && history == old(history) + [Issue(r, e, d, s)]
      ensures revision == if Live(old(history), r) then Some(Revision(history, r)) else None
    {
      ghost var c, before := Issue(r, e, d, s), if r in routes then Some(routes[r]) else None;
      assert Matches(history, r, before);
      if r !in routes || routes[r].revoked {
        revision := None;
      } else {
        routes := routes[r := routes[r].(authorities := routes[r].authorities[d := Authority(e, s)])];
        revision := Some(routes[r].revision);
      }
      OwnRouteFollows(history, c, before, if r in routes then Some(routes[r]) else None);
      RevisionSnoc(history, c, r);
      Remember(c);
    }

    method Register(r: RouteId, p: string, desktop: Digest, mobile: Digest) returns (revision: nat)
      requires Valid()
      modifies this
      ensures Valid() && history == old(history) + [RegisterPairing(r, p, desktop, mobile)]
      ensures revision == Revision(history, r)
    {
      ghost var c, before := RegisterPairing(r, p, desktop, mobile), if r in routes then Some(routes[r]) else None;
      assert Matches(history, r, before);
      var reopened := r !in routes || routes[r].revoked;
      revision := if reopened then (if r in routes then routes[r].revision else 0) + 1 else routes[r].revision;
      var authorities := if reopened then map[] else routes[r].authorities;
      authorities := authorities[desktop := Authority(Desktop, Some(p))];
      authorities := authorities[mobile := Authority(Mobile, Some(p))];
      if reopened {
        NoAuthorityWhenDead(history, r, before);
      }
      routes := routes[r := Route(revision, false, authorities)];
      OwnRouteFollows(history, c, before, Some(routes[r]));
      Remember(c);
    }

    /** Success means exactly that the history lets this digest act as this endpoint. */
    method Authorize(r: RouteId, e: Endpoint, d: Digest) returns (grant: Option<(nat, Option<string>)>)
      requires Valid()
      ensures grant.Some? <==> exists s :: Holds(history, r, d, Authority(e, s))
      ensures grant.Some? ==> grant.value.0 == Revision(history, r) && Holds(history, r, d, Authority(e, grant.value.1))
    {
      assert Matches(history, r, if r in routes then Some(routes[r]) else None);
      if r in routes && !routes[r].revoked && d in routes[r].authorities && routes[r].authorities[d].endpoint == e {
        assert Authority(e, routes[r].authorities[d].selector) == routes[r].authorities[d];
        assert Grants(Some(routes[r]), d, routes[r].authorities[d]);
        grant := Some((routes[r].revision, routes[r].authorities[d].selector));
      } else {
        grant := None;
        forall s
          ensures !Holds(history, r, d, Authority(e, s))
        {
          HoldsNeedsLive(history, r, d, Authority(e, s));
        }
      }
    }

    method RevokeOne(r: RouteId, e: Endpoint, d: Digest) returns (revision: nat)
      requires Valid()
      modifies this
      ensures Valid() && history == old(history) + [RevokeCredential(r, e, d)]
      ensures revision == if Known(old(history), r) then Revision(history, r) else 1
    {
      ghost var c, before := RevokeCredential(r, e, d), if r in routes then Some(routes[r]) else None;
      assert Matches(history, r, before);
      if r !in routes {
        revision := 1;
      } else {
        var route := routes[r];
        if d in route.authorities && route.authorities[d].endpoint == e {
          route := route.(authorities := route.authorities - {d});
        }
        route := route.(revision := route.revision + 1);
        routes := routes[r := route];
        revision := route.revision;
      }
      OwnRouteFollows(history, c, before, if r in routes then Some(routes[r]) else None);
      RevisionSnoc(history, c, r);
      Remember(c);
    }

    method RevokeAll(r: RouteId) returns (revision: nat)
      requires Valid()
      modifies this
      ensures Valid() && history == old(history) + [Revoke(r)]
      ensures revision == Revision(history, r)
    {
      ghost var c, before := Revoke(r), if r in routes then Some(routes[r]) else None;
      assert Matches(history, r, before);
      revision := (if r in routes then routes[r].revision else 0) + 1;
      routes := routes[r := Route(revision, true, map[])];
      OwnRouteFollows(history, c, before, Some(routes[r]));
      Remember(c);
    }

    /** Append the call to the history, once its own route matches. */
    ghost method Remember(c: Call)
      requires Matches(history + [c], c.route, if c.route in routes then Some(routes[c.route]) else None)
      requires forall r :: r != c.route ==> Matches(history, r, if r in routes then Some(routes[r]) else None)
      modifies this`history
      ensures Valid() && history == old(history) + [c]
    {
      forall r | r != c.route
        ensures Matches(history + [c], r, if r in routes then Some(routes[r]) else None)
      {
        OtherRouteStands(history, c, r, if r in routes then Some(routes[r]) else None);
      }
      history := history + [c];
    }
  }

  lemma NoAuthorityWhenDead(h: seq<Call>, r: RouteId, record: Option<Route>)
    requires Matches(h, r, record) && (record.Some? ==> record.value.revoked)
    ensures forall d, a :: !Grants(record, d, a)
  {
  }
}
