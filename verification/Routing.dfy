/** Which CRTC each encoder ends up on when a mode-set request is worked into the routing.
    `Route` follows the connector list as the helper does, link by link; the lemmas give the
    result and the refusals in closed form. */
module Routing {
  import opened KmsObjects

  /** A connector as the second routing pass sees it: its encoder, and whether the request names it. */
  datatype Link = Link(encoder: Encoder?, wanted: bool)

  type Routes = map<Encoder, Crtc?>

  /** The CRTC that one link asks for. */
  function Target(routes: Routes, link: Link, crtc: Crtc): Crtc?
    requires link.encoder != null && link.encoder in routes
  {
    if link.wanted then crtc
    else if routes[link.encoder] == crtc then null
    else routes[link.encoder]
  }

  ghost function RouteLink(cfg: ModeConfig, routes: Routes, link: Link, crtc: Crtc): (r: Option<Routes>)
    requires link.encoder != null ==> link.encoder in routes
  {
    if link.encoder == null then Some(routes)
    else
      var target := Target(routes, link, crtc);
      if target != null && !cfg.CrtcOk(link.encoder, target) then None
      else Some(routes[link.encoder := target])
  }

  ghost predicate Covers(routes: Routes, links: seq<Link>) {
    forall i :: 0 <= i < |links| && links[i].encoder != null ==> links[i].encoder in routes
  }

  /** Work a list of links into the routes, in order; None when a CRTC cannot drive an encoder. */
  ghost function Route(cfg: ModeConfig, routes: Routes, links: seq<Link>, crtc: Crtc): (r: Option<Routes>)
    requires Covers(routes, links)
    ensures r.Some? ==> r.value.Keys == routes.Keys
  {
    if links == [] then Some(routes)
    else
      var n := |links| - 1;
      var before := Route(cfg, routes, links[..n], crtc);
      if before.None? then None else RouteLink(cfg, before.value, links[n], crtc)
  }

  lemma {:induction false} RefusedPrefix(cfg: ModeConfig, routes: Routes, links: seq<Link>, crtc: Crtc, i: int)
    requires Covers(routes, links) && 0 <= i <= |links|
    requires Route(cfg, routes, links[..i], crtc).None?
    ensures Route(cfg, routes, links, crtc).None?
  {
    if i < |links| {
      var shorter := links[..|links| - 1];
      assert shorter[..i] == links[..i];
      RefusedPrefix(cfg, routes, shorter, crtc, i);
    } else {
      assert links[..i] == links;
    }
  }

  /** The position of the last link that holds an encoder, or -1. */
  function LastHolder(links: seq<Link>, e: Encoder): (i: int)
    ensures -1 <= i < |links|
    ensures i >= 0 ==> links[i].encoder == e
    ensures forall k :: i < k < |links| ==> links[k].encoder != e
  {
    if links == [] then -1
    else if links[|links| - 1].encoder == e then |links| - 1
    else LastHolder(links[..|links| - 1], e)
  }

  /** The link's encoder ends up on the requested CRTC: its last holder is one of the request's connectors. */
  predicate Claimed(links: seq<Link>, e: Encoder) {
    var l := LastHolder(links, e);
    l >= 0 && links[l].wanted
  }

  /** The outcome of a successful routing, encoder by encoder: an encoder that nobody holds keeps
      its CRTC; otherwise the last holder decides, and the CRTC it got is one it can be driven by. */
  lemma {:induction false} RouteByLastHolder(cfg: ModeConfig, routes: Routes, links: seq<Link>, crtc: Crtc, e: Encoder)
    requires Covers(routes, links) && e in routes
    requires Route(cfg, routes, links, crtc).Some?
    ensures var r, l := Route(cfg, routes, links, crtc).value, LastHolder(links, e);
      && (l < 0 ==> r[e] == routes[e])
      && (l >= 0 ==> (r[e] == crtc <==> links[l].wanted))
      && (l >= 0 && r[e] != null ==> cfg.CrtcOk(e, r[e]))
      && (r[e] == crtc || r[e] == null || r[e] == routes[e])
  {
    if links != [] {
      RouteByLastHolder(cfg, routes, links[..|links| - 1], crtc, e);
    }
  }

  /** From routes that respect the masks, a request is refused exactly when it wants a connector
      whose encoder the requested CRTC cannot drive. */
  lemma {:induction false} RefusedIffMaskForbids(cfg: ModeConfig, routes: Routes, links: seq<Link>, crtc: Crtc)
    requires Covers(routes, links)
    requires forall e :: e in routes && routes[e] != null ==> cfg.CrtcOk(e, routes[e])
    ensures Route(cfg, routes, links, crtc).None? <==>
      exists i :: 0 <= i < |links| && links[i].wanted && links[i].encoder != null && !cfg.CrtcOk(links[i].encoder, crtc)
    ensures Route(cfg, routes, links, crtc).Some? ==>
      forall e :: e in routes && Route(cfg, routes, links, crtc).value[e] != null ==>
        cfg.CrtcOk(e, Route(cfg, routes, links, crtc).value[e])
  {
    if links != [] {
      var n := |links| - 1;
      RefusedIffMaskForbids(cfg, routes, links[..n], crtc);
      assert forall i :: 0 <= i < n ==> links[..n][i] == links[i];
    }
  }

  /** No encoder is held both by a connector of the request and by one outside it. */
  ghost predicate Unshared(links: seq<Link>) {
    forall j, k ::
      0 <= j < |links| && 0 <= k < |links| && links[j].encoder != null && links[j].encoder == links[k].encoder ==>
      links[j].wanted == links[k].wanted
  }

  /** After a successful routing, the connectors whose encoder is on the requested CRTC are exactly
      the request's, if and only if the request shares no encoder with the other connectors. */
  lemma ExactlyTheRequestIffUnshared(cfg: ModeConfig, routes: Routes, links: seq<Link>, crtc: Crtc)
    requires Covers(routes, links) && Route(cfg, routes, links, crtc).Some?
    ensures var r := Route(cfg, routes, links, crtc).value;
      (forall i :: 0 <= i < |links| && links[i].encoder != null ==> (r[links[i].encoder] == crtc <==> links[i].wanted))
      <==> Unshared(links)
  {
    forall i | 0 <= i < |links| && links[i].encoder != null
      ensures LastHolder(links, links[i].encoder) >= i
      ensures Route(cfg, routes, links, crtc).value[links[i].encoder] == crtc
        <==> links[LastHolder(links, links[i].encoder)].wanted
    {
      RouteByLastHolder(cfg, routes, links, crtc, links[i].encoder);
    }
  }

  /** A connector outside the request that shares the encoder and comes later in the list takes the
      encoder off the CRTC again, although routing succeeds. */
  lemma SharedEncoderIsUnrouted(cfg: ModeConfig, e: Encoder, crtc: Crtc)
    requires cfg.CrtcOk(e, crtc)
    ensures var start: Routes, links := map[e := null], [Link(e, true), Link(e, false)];
      var r := Route(cfg, start, links, crtc);
      r.Some? && e in r.value && r.value[e] == null
  {
    var start: Routes, links := map[e := null], [Link(e, true), Link(e, false)];
    RefusedIffMaskForbids(cfg, start, links, crtc);
    RouteByLastHolder(cfg, start, links, crtc, e);
    assert LastHolder(links, e) == 1;
  }
}
