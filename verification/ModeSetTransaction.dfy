/** The mode-set transaction: work a request into the routing, program the CRTC, and either keep
    the result or put everything back. */
module ModeSetTransaction {
  import opened Errno
  import opened KmsObjects
  import opened SetModeTrace
  import opened Routing
  import CrtcHelper

  const DPMS_ON := 0

  /** A mode-set request. */
  datatype ModeSet = ModeSet(
    crtc: Crtc, fb: Framebuffer?, mode: Option<DisplayMode>, x: int, y: int, connectors: seq<Connector>)

  /** What the interface demands of a request: its objects exist, a framebuffer comes with a mode
      and with connectors, and the driver's choices are encoders of the device. */
  ghost predicate ValidRequest(cfg: ModeConfig, req: ModeSet, best: map<Connector, Encoder?>) {
    && req.crtc in cfg.crtcs
    && (forall c :: c in req.connectors ==> c in cfg.connectors)
    && (req.mode.None? ==> req.fb == null)
    && (req.fb != null ==> req.connectors != [])
    && (forall c :: c in req.connectors ==> c in best && (best[c] != null ==> best[c] in cfg.encoders))
  }

  // ----- the request as a routing problem

  ghost function EncodersOf(connectors: seq<Connector>): (s: seq<Encoder?>)
    reads connectors`encoder
    ensures |s| == |connectors| && forall i :: 0 <= i < |s| ==> s[i] == connectors[i].encoder
  {
    if connectors == [] then []
    else EncodersOf(connectors[..|connectors| - 1]) + [connectors[|connectors| - 1].encoder]
  }

  ghost function EncodersNow(cfg: ModeConfig): (s: seq<Encoder?>)
    reads cfg.connectors`encoder
    ensures |s| == |cfg.connectors| && forall i :: 0 <= i < |s| ==> s[i] == cfg.connectors[i].encoder
  {
    EncodersOf(cfg.connectors)
  }

  ghost function RoutesNow(cfg: ModeConfig): Routes
    reads cfg.encoders`crtc
  {
    map e | e in cfg.encoders :: e.crtc
  }

  /** The link a connector is to get: the driver's choice if the request names it. */
  function ChosenLink(req: ModeSet, best: map<Connector, Encoder?>, c: Connector, encoder: Encoder?): Link
    requires forall c :: c in req.connectors ==> c in best
  {
    Link(if c in req.connectors then best[c] else encoder, c in req.connectors)
  }

  /** The links that the request asks for, in list order. */
  ghost function Links(cfg: ModeConfig, req: ModeSet, best: map<Connector, Encoder?>, encoders: seq<Encoder?>)
    : (links: seq<Link>)
    requires |encoders| == |cfg.connectors| && forall c :: c in req.connectors ==> c in best
    ensures |links| == |encoders|
  {
    seq(|encoders|, i requires 0 <= i < |encoders| => ChosenLink(req, best, cfg.connectors[i], encoders[i]))
  }

  /** The encoders that one of the first i connectors gives up. */
  function Surrendered(encoders: seq<Encoder?>, links: seq<Link>, i: nat): (s: set<Encoder>)
    requires i <= |encoders| == |links|
  {
    if i == 0 then {}
    else
      Surrendered(encoders, links, i - 1)
      + if encoders[i - 1] != null && encoders[i - 1] != links[i - 1].encoder then {encoders[i - 1]} else {}
  }

  lemma NextLink(encoders: seq<Encoder?>, links: seq<Link>, i: nat)
    requires i < |encoders| == |links|
    ensures Surrendered(encoders, links, i + 1) ==
      Surrendered(encoders, links, i) + GivenUp(encoders[i], links[i].encoder)
    ensures Unserved(links, i + 1) == (Unserved(links, i) || (links[i].wanted && links[i].encoder == null))
    ensures encoders[i] == links[i].encoder ==> GivenUp(encoders[i], links[i].encoder) == {}
  {
  }

  lemma FirstLinks(encoders: seq<Encoder?>, links: seq<Link>)
    requires |encoders| == |links|
    ensures Surrendered(encoders, links, 0) == {} && !Unserved(links, 0)
  {
  }

  /** The routes once the first i connectors have given up their encoders. */
  ghost function RoutesWithout(routes: Routes, dropped: set<Encoder>): (r: Routes)
    ensures r.Keys == routes.Keys
  {
    map e | e in routes :: if e in dropped then null else routes[e]
  }

  lemma DropMore(routes: Routes, some: set<Encoder>, more: set<Encoder>)
    ensures RoutesWithout(RoutesWithout(routes, some), more) == RoutesWithout(routes, some + more)
    ensures RoutesWithout(routes, {}) == routes
  {
  }

  /** Whether one of the first n connectors is named by the request but left without an encoder. */
  predicate Unserved(links: seq<Link>, n: nat)
    requires n <= |links|
    ensures Unserved(links, n) <==> exists i :: 0 <= i < n && links[i].wanted && links[i].encoder == null
  {
    n > 0 && (Unserved(links, n - 1) || (links[n - 1].wanted && links[n - 1].encoder == null))
  }

  method Names(req: ModeSet, c: Connector) returns (b: bool)
    ensures b == (c in req.connectors)
  {
    for ro := 0 to |req.connectors|
      invariant c !in req.connectors[..ro]
    {
      if req.connectors[ro] == c {
        return true;
      }
    }
    return false;
  }

  /** Give one connector its encoder; the encoder it had before, if another, loses its CRTC. */
  method MoveConnector(cfg: ModeConfig, connector: Connector, newEncoder: Encoder?) returns (changed: bool)
    requires cfg.Valid() && connector in cfg.connectors
    requires newEncoder != null ==> newEncoder in cfg.encoders
    modifies connector`encoder, cfg.encoders`crtc
    ensures cfg.Valid()
    ensures connector.encoder == newEncoder
    ensures changed == (newEncoder != old(connector.encoder))
    ensures RoutesNow(cfg) == RoutesWithout(old(RoutesNow(cfg)), GivenUp(old(connector.encoder), newEncoder))
  {
    changed := newEncoder != connector.encoder;
    if changed {
      if connector.encoder != null {
        connector.encoder.crtc := null;
      }
      connector.encoder := newEncoder;
    }
  }

  function GivenUp(oldEncoder: Encoder?, newEncoder: Encoder?): (s: set<Encoder>) {
    if oldEncoder != null && oldEncoder != newEncoder then {oldEncoder} else {}
  }

  /** First pass, for one connector. */
  method AssignEncoder(cfg: ModeConfig, req: ModeSet, best: map<Connector, Encoder?>, connector: Connector)
    returns (fail: bool, changed: bool)
    requires cfg.Valid() && connector in cfg.connectors && ValidRequest(cfg, req, best)
    modifies connector`encoder, cfg.encoders`crtc
    ensures cfg.Valid()
    ensures var link := ChosenLink(req, best, connector, old(connector.encoder));
      && connector.encoder == link.encoder
      && RoutesNow(cfg) == RoutesWithout(old(RoutesNow(cfg)), GivenUp(old(connector.encoder), link.encoder))
      && fail == (link.wanted && link.encoder == null)
      && changed == (link.encoder != old(connector.encoder))
  {
    var newEncoder := connector.encoder;
    var named := Names(req, connector);
    fail := false;
    if named {
      newEncoder := best[connector];
      if newEncoder == null {
        fail := true;
      }
    }
    changed := MoveConnector(cfg, connector, newEncoder);
  }

  lemma LinksChosen(cfg: ModeConfig, req: ModeSet, best: map<Connector, Encoder?>, encoders: seq<Encoder?>,
                    links: seq<Link>)
    requires cfg.Valid() && ValidRequest(cfg, req, best)
    requires |encoders| == |cfg.connectors| && links == Links(cfg, req, best, encoders)
    ensures Distinct(cfg.connectors) && forall c :: c in req.connectors ==> c in best
    ensures forall k :: 0 <= k < |links| ==> links[k] == ChosenLink(req, best, cfg.connectors[k], encoders[k])
  {
  }

  /** Some connector gets another encoder than it has. */
  ghost predicate LinksMove(encoders: seq<Encoder?>, links: seq<Link>)
    requires |encoders| == |links|
  {
    exists k :: 0 <= k < |links| && links[k].encoder != encoders[k]
  }

  lemma LinksMoveIs(encoders: seq<Encoder?>, links: seq<Link>)
    requires |encoders| == |links|
    ensures LinksMove(encoders, links) <==> exists k :: 0 <= k < |links| && links[k].encoder != encoders[k]
  {
  }

  /** First pass: give the request's connectors their encoders.  An encoder that a connector gives
      up loses its CRTC. */
  method AssignEncoders(cfg: ModeConfig, req: ModeSet, best: map<Connector, Encoder?>, ghost links: seq<Link>)
    returns (fail: bool, changed: bool)
    requires cfg.Valid() && ValidRequest(cfg, req, best)
    requires links == Links(cfg, req, best, EncodersNow(cfg))
    modifies cfg.connectors`encoder, cfg.encoders`crtc
    ensures cfg.Valid()
    ensures forall i :: 0 <= i < |links| ==> cfg.connectors[i].encoder == links[i].encoder
    ensures RoutesNow(cfg) == RoutesWithout(old(RoutesNow(cfg)), Surrendered(old(EncodersNow(cfg)), links, |links|))
    ensures fail == Unserved(links, |links|)
    ensures !changed ==> RoutesNow(cfg) == old(RoutesNow(cfg))
    ensures changed <==> LinksMove(old(EncodersNow(cfg)), links)
  {
    hide *;
    ghost var encoders, routes := EncodersNow(cfg), RoutesNow(cfg);
    LinksChosen(cfg, req, best, encoders, links);
    DropMore(routes, {}, {});
    FirstLinks(encoders, links);
    fail, changed := false, false;
    for i := 0 to |cfg.connectors|
      invariant cfg.Valid()
      invariant forall k :: 0 <= k < i ==> cfg.connectors[k].encoder == links[k].encoder
      invariant forall k :: i <= k < |links| ==> cfg.connectors[k].encoder == encoders[k]
      invariant RoutesNow(cfg) == RoutesWithout(routes, Surrendered(encoders, links, i))
      invariant fail == Unserved(links, i)
      invariant !changed ==> Surrendered(encoders, links, i) == {}
      invariant changed <==> exists k :: 0 <= k < i && links[k].encoder != encoders[k]
    {
      DistinctAt(cfg.connectors, i);
      NextLink(encoders, links, i);
      DropMore(routes, Surrendered(encoders, links, i), GivenUp(encoders[i], links[i].encoder));
      assert (exists k :: 0 <= k < i + 1 && links[k].encoder != encoders[k]) <==>
        (exists k :: 0 <= k < i && links[k].encoder != encoders[k]) || links[i].encoder != encoders[i];
      var unserved, moved := AssignEncoder(cfg, req, best, cfg.connectors[i]);
      fail, changed := fail || unserved, changed || moved;
    }
    LinksMoveIs(encoders, links);
  }

  /** Route the encoder of one connector, unless the CRTC cannot drive it. */
  method RouteConnector(cfg: ModeConfig, req: ModeSet, connector: Connector) returns (ok: bool, changed: bool)
    requires cfg.Valid() && req.crtc in cfg.crtcs && connector in cfg.connectors
    modifies cfg.encoders`crtc
    ensures cfg.Valid()
    ensures var r := RouteLink(cfg, old(RoutesNow(cfg)),
                                Link(connector.encoder, connector in req.connectors), req.crtc);
      && ok == r.Some? && (ok ==> RoutesNow(cfg) == r.value)
      && changed == (ok && r.value != old(RoutesNow(cfg)))
    ensures !changed ==> RoutesNow(cfg) == old(RoutesNow(cfg))
  {
    if connector.encoder == null {
      return true, false;
    }
    var e := connector.encoder;
    ghost var routes := RoutesNow(cfg);
    var newCrtc := if e.crtc == req.crtc then null else e.crtc;
    var named := Names(req, connector);
    if named {
      newCrtc := req.crtc;
    }
    OneRoute(routes, e, newCrtc);
    if newCrtc != null {
      ok := CrtcHelper.EncoderCrtcOk(cfg, e, newCrtc);
      if !ok {
        return false, false;
      }
    }
    ok, changed := true, newCrtc != e.crtc;
    if changed {
      e.crtc := newCrtc;
    }
    assert RoutesNow(cfg) == routes[e := newCrtc];
  }

  lemma OneRoute(routes: Routes, e: Encoder, crtc: Crtc?)
    requires e in routes
    ensures routes[e := crtc] == routes <==> routes[e] == crtc
  {
    assert routes[e := crtc][e] == crtc;
  }

  /** Second pass: route each connector's encoder, unless a CRTC cannot drive it. */
  method AssignCrtcs(cfg: ModeConfig, req: ModeSet, ghost links: seq<Link>)
    returns (ok: bool, changed: bool)
    requires cfg.Valid() && req.crtc in cfg.crtcs
    requires |links| == |cfg.connectors|
    requires forall i :: 0 <= i < |links| ==>
      links[i] == Link(cfg.connectors[i].encoder, cfg.connectors[i] in req.connectors)
    modifies cfg.encoders`crtc
    ensures cfg.Valid() && Covers(old(RoutesNow(cfg)), links)
    ensures var r := Route(cfg, old(RoutesNow(cfg)), links, req.crtc);
      ok == r.Some? && (ok ==> RoutesNow(cfg) == r.value)
    ensures ok && !changed ==> RoutesNow(cfg) == old(RoutesNow(cfg))
    ensures changed <==> RoutesMove(cfg, old(RoutesNow(cfg)), links, req.crtc)
  {
    hide RoutesNow, RouteLink, RoutesMove, MovedUpTo, MovesAt, Covers, Route, ModeConfig.Valid;
    CoversNow(cfg, links);
    ghost var routes := RoutesNow(cfg);
    NoneMoved(cfg, routes, links, req.crtc);
    ok, changed := true, false;
    for i := 0 to |cfg.connectors|
      invariant cfg.Valid()
      invariant Covers(routes, links[..i]) && Route(cfg, routes, links[..i], req.crtc) == Some(RoutesNow(cfg))
      invariant !changed ==> RoutesNow(cfg) == routes
      invariant changed <==> MovedUpTo(cfg, routes, links, req.crtc, i)
    {
      NextMoves(cfg, routes, links, req.crtc, i, RoutesNow(cfg));
      var moved;
      ok, moved := RouteConnector(cfg, req, cfg.connectors[i]);
      if !ok {
        RefusedPrefix(cfg, routes, links, req.crtc, i + 1);
        RefusedMoves(cfg, routes, links, req.crtc, i);
        return;
      }
      changed := changed || moved;
    }
    AllMoves(cfg, routes, links, req.crtc);
  }

  /** One of the first n links changes the route of its encoder. */
  ghost predicate MovedUpTo(cfg: ModeConfig, routes: Routes, links: seq<Link>, crtc: Crtc, n: nat)
    requires Covers(routes, links) && n <= |links|
  {
    exists k :: 0 <= k < n && MovesAt(cfg, routes, links, crtc, k)
  }

  ghost predicate MovesAt(cfg: ModeConfig, routes: Routes, links: seq<Link>, crtc: Crtc, k: nat)
    requires Covers(routes, links) && k < |links|
  {
    && Route(cfg, routes, links[..k + 1], crtc).Some?
    && Route(cfg, routes, links[..k + 1], crtc) != Route(cfg, routes, links[..k], crtc)
  }

  /** Some link changes the route of its encoder, as the pass comes to it. */
  ghost predicate RoutesMove(cfg: ModeConfig, routes: Routes, links: seq<Link>, crtc: Crtc)
    requires Covers(routes, links)
  {
    MovedUpTo(cfg, routes, links, crtc, |links|)
  }

  lemma NoneMoved(cfg: ModeConfig, routes: Routes, links: seq<Link>, crtc: Crtc)
    requires Covers(routes, links)
    ensures !MovedUpTo(cfg, routes, links, crtc, 0)
    ensures Covers(routes, links[..0]) && Route(cfg, routes, links[..0], crtc) == Some(routes)
  {
  }

  lemma NextMoves(cfg: ModeConfig, routes: Routes, links: seq<Link>, crtc: Crtc, i: nat, r: Routes)
    requires Covers(routes, links) && i < |links|
    requires Covers(routes, links[..i]) && Route(cfg, routes, links[..i], crtc) == Some(r)
    ensures Covers(routes, links[..i + 1])
    ensures links[i].encoder != null ==> links[i].encoder in r
    ensures Route(cfg, routes, links[..i + 1], crtc) == RouteLink(cfg, r, links[i], crtc)
    ensures MovedUpTo(cfg, routes, links, crtc, i + 1) <==>
      || MovedUpTo(cfg, routes, links, crtc, i)
      || (var next := RouteLink(cfg, r, links[i], crtc); next.Some? && next != Some(r))
  {
    hide RouteLink;
    var shorter := links[..i + 1];
    assert shorter[..i] == links[..i] && shorter[i] == links[i];
    assert MovesAt(cfg, routes, links, crtc, i) <==>
      (var next := RouteLink(cfg, r, links[i], crtc); next.Some? && next != Some(r));
    hide MovesAt, Route;
  }

  lemma AllMoves(cfg: ModeConfig, routes: Routes, links: seq<Link>, crtc: Crtc)
    requires Covers(routes, links)
    ensures links[..|links|] == links
    ensures RoutesMove(cfg, routes, links, crtc) <==> MovedUpTo(cfg, routes, links, crtc, |links|)
  {
  }

  /** After a refusal nothing moves. */
  lemma RefusedMoves(cfg: ModeConfig, routes: Routes, links: seq<Link>, crtc: Crtc, i: nat)
    requires Covers(routes, links) && i < |links| && Route(cfg, routes, links[..i + 1], crtc).None?
    ensures RoutesMove(cfg, routes, links, crtc) <==> MovedUpTo(cfg, routes, links, crtc, i)
  {
    hide Route;
    forall k | i <= k < |links|
      ensures !MovesAt(cfg, routes, links, crtc, k)
    {
      assert links[..k + 1][..i + 1] == links[..i + 1];
      RefusedPrefix(cfg, routes, links[..k + 1], crtc, i + 1);
    }
  }

  // ----- the snapshot

  datatype SavedCrtc = SavedCrtc(fb: Framebuffer?, oldFb: Framebuffer?, enabled: bool, mode: DisplayMode,
                                 hwmode: DisplayMode, x: int, y: int)
  datatype SavedConnector = SavedConnector(encoder: Encoder?, dpms: int, status: Status)
  datatype Snapshot = Snapshot(crtcs: seq<SavedCrtc>, encoders: seq<Crtc?>, connectors: seq<SavedConnector>)

  ghost predicate IsCrtc(s: SavedCrtc, c: Crtc)
    reads c
  {
    s == SavedCrtc(c.fb, c.oldFb, c.enabled, c.mode, c.hwmode, c.x, c.y)
  }

  ghost predicate IsConnector(s: SavedConnector, c: Connector)
    reads c
  {
    s == SavedConnector(c.encoder, c.dpms, c.status)
  }

  /** The snapshot describes the present state of all objects. */
  ghost predicate Matches(cfg: ModeConfig, s: Snapshot)
    reads cfg.crtcs, cfg.encoders, cfg.connectors
  {
    && |s.crtcs| == |cfg.crtcs| && |s.encoders| == |cfg.encoders| && |s.connectors| == |cfg.connectors|
    && (forall i :: 0 <= i < |cfg.crtcs| ==> IsCrtc(s.crtcs[i], cfg.crtcs[i]))
    && (forall i :: 0 <= i < |cfg.encoders| ==> cfg.encoders[i].crtc == s.encoders[i])
    && (forall i :: 0 <= i < |cfg.connectors| ==> IsConnector(s.connectors[i], cfg.connectors[i]))
  }

  method Save(cfg: ModeConfig) returns (s: Snapshot)
    ensures Matches(cfg, s)
  {
    var crtcs, encoders, connectors := [], [], [];
    for i := 0 to |cfg.crtcs|
      invariant |crtcs| == i && forall k :: 0 <= k < i ==> IsCrtc(crtcs[k], cfg.crtcs[k])
    {
      var c := cfg.crtcs[i];
      crtcs := crtcs + [SavedCrtc(c.fb, c.oldFb, c.enabled, c.mode, c.hwmode, c.x, c.y)];
    }
    for i := 0 to |cfg.encoders|
      invariant |encoders| == i && forall k :: 0 <= k < i ==> cfg.encoders[k].crtc == encoders[k]
    {
      encoders := encoders + [cfg.encoders[i].crtc];
    }
    for i := 0 to |cfg.connectors|
      invariant |connectors| == i && forall k :: 0 <= k < i ==> IsConnector(connectors[k], cfg.connectors[k])
    {
      var c := cfg.connectors[i];
      connectors := connectors + [SavedConnector(c.encoder, c.dpms, c.status)];
    }
    s := Snapshot(crtcs, encoders, connectors);
  }

  method RestoreCrtcs(cfg: ModeConfig, saved: seq<SavedCrtc>)
    requires Distinct(cfg.crtcs) && |saved| == |cfg.crtcs|
    modifies cfg.crtcs
    ensures forall i :: 0 <= i < |cfg.crtcs| ==> IsCrtc(saved[i], cfg.crtcs[i])
  {
    for i := 0 to |cfg.crtcs|
      invariant forall k :: 0 <= k < i ==> IsCrtc(saved[k], cfg.crtcs[k])
    {
      var c, v := cfg.crtcs[i], saved[i];
      c.fb, c.oldFb, c.enabled, c.mode, c.hwmode, c.x, c.y := v.fb, v.oldFb, v.enabled, v.mode, v.hwmode, v.x, v.y;
    }
  }

  /** Put every object back to the snapshot. */
  method Restore(cfg: ModeConfig, s: Snapshot)
    requires Distinct(cfg.crtcs) && Distinct(cfg.encoders) && Distinct(cfg.connectors)
    requires |s.crtcs| == |cfg.crtcs| && |s.encoders| == |cfg.encoders| && |s.connectors| == |cfg.connectors|
    modifies cfg.crtcs, cfg.encoders, cfg.connectors
    ensures Matches(cfg, s)
  {
    RestoreCrtcs(cfg, s.crtcs);
    for i := 0 to |cfg.encoders|
      modifies cfg.encoders
      invariant forall k :: 0 <= k < i ==> cfg.encoders[k].crtc == s.encoders[k]
    {
      cfg.encoders[i].crtc := s.encoders[i];
    }
    for i := 0 to |cfg.connectors|
      modifies cfg.connectors
      invariant forall k :: 0 <= k < i ==> IsConnector(s.connectors[k], cfg.connectors[k])
    {
      var c, v := cfg.connectors[i], s.connectors[i];
      c.encoder, c.dpms, c.status := v.encoder, v.dpms, v.status;
    }
  }

  // ----- the transaction

  /** Switch the request's connectors on.  The callback may set the level of the connector, as the helper for it
      does, or leave it to the driver. */
  method SwitchOn(cfg: ModeConfig, drv: Driver, req: ModeSet)
    requires forall c :: c in req.connectors ==> c in cfg.connectors
    modifies cfg.connectors`dpms, drv`calls
    ensures forall c :: c in cfg.connectors ==> c.dpms == old(c.dpms) || (c in req.connectors && c.dpms == DPMS_ON)
    ensures drv.calls == old(drv.calls) + Ons(req.connectors)
  {
    for i := 0 to |req.connectors|
      modifies cfg.connectors`dpms, drv`calls
      invariant drv.calls == old(drv.calls) + Ons(req.connectors)[..i]
      invariant forall c :: c in cfg.connectors ==> c.dpms == old(c.dpms) || (c in req.connectors && c.dpms == DPMS_ON)
    {
      drv.Record(ConnectorOn(req.connectors[i]));
      var stores: bool := *;
      if stores {
        assert req.connectors[i] in cfg.connectors;
        req.connectors[i].dpms := DPMS_ON;
      }
    }
  }

  /** What SetMode records, as a protocol. */
  lemma AttemptMeans(cfg: ModeConfig, before: seq<Call>, after: seq<Call>, target: Goal, att: set<Encoder>,
                     idle: set<Encoder>, misplaced: set<Encoder>, o: Outcome)
    requires Fits(o, Members(cfg.encoders, att))
    requires idle <= (set e | e in cfg.encoders) && misplaced <= (set e | e in cfg.encoders)
    requires after == CrtcHelper.Calls(cfg, before, target, att, idle, misplaced, o)
    ensures before <= after
    ensures o.Skipped? ==> after == before
    ensures o.Done? ==> Programs(after[|before|..], target, Members(cfg.encoders, att))
    ensures o.Done? ==>
      forall e :: e in cfg.encoders ==> (EncoderOff(e) in after[|before|..] <==> e in idle || e in misplaced)
    ensures !o.Done? && !o.Skipped? ==> FailedAttempt(before, after, target, Members(cfg.encoders, att))
  {
    hide Programs, Refused, Members, CrtcHelper.Calls;
    CrtcHelper.CallsFollowProtocol(cfg, before, target, att, idle, misplaced, o);
    assert after[|before|..] == CrtcHelper.Calls(cfg, [], target, att, idle, misplaced, o);
  }

  /** The encoders of a route to a CRTC, in list order. */
  ghost function OnCrtc(cfg: ModeConfig, routes: Routes, crtc: Crtc): seq<Encoder> {
    Members(cfg.encoders, set e | e in cfg.encoders && e in routes && routes[e] == crtc)
  }

  /** One attempt at a mode, as a protocol: what it called, given what is in use and routed. */
  method TryMode(cfg: ModeConfig, drv: Driver, crtc: Crtc, mode: DisplayMode, x: int, y: int) returns (ok: bool)
    requires crtc in cfg.crtcs
    modifies crtc`enabled, crtc`mode, crtc`hwmode, crtc`x, crtc`y, drv`calls
    ensures crtc.enabled == old(cfg.CrtcInUse(crtc))
    ensures !crtc.enabled ==> ok && drv.calls == old(drv.calls)
    ensures crtc.enabled && ok ==>
      && crtc.mode == mode && crtc.x == x && crtc.y == y
      && old(drv.calls) <= drv.calls
      && Programs(drv.calls[|old(drv.calls)|..], Goal(crtc, mode, x, y), OnCrtc(cfg, old(RoutesNow(cfg)), crtc))
    ensures crtc.enabled && !ok ==>
      FailedAttempt(old(drv.calls), drv.calls, Goal(crtc, mode, x, y), OnCrtc(cfg, old(RoutesNow(cfg)), crtc))
    ensures crtc.enabled && ok ==> forall e :: e in cfg.encoders ==>
      (EncoderOff(e) in drv.calls[|old(drv.calls)|..] <==>
        old(e.crtc) == null || (e in drv.hwCrtc && old(e.crtc) != drv.hwCrtc[e]))
    ensures !(crtc.enabled && ok) ==>
      crtc.mode == old(crtc.mode) && crtc.x == old(crtc.x) && crtc.y == old(crtc.y) && crtc.hwmode == old(crtc.hwmode)
  {
    hide Programs, FailedAttempt, CrtcHelper.Calls, Members, ModeConfig.CrtcInUse;
    ghost var att, idle, misplaced := Attached(cfg, crtc), Idle(cfg), Misplaced(cfg, drv.hwCrtc);
    ghost var routes := RoutesNow(cfg);
    assert att == set e | e in cfg.encoders && e in routes && routes[e] == crtc;
    ghost var before := drv.calls;
    ghost var outcome;
    ok, outcome := CrtcHelper.SetMode(cfg, drv, crtc, mode, x, y);
    AttemptMeans(cfg, before, drv.calls, Goal(crtc, mode, x, y), att, idle, misplaced, outcome);
  }

  /** Program the CRTC with the request, if anything uses it. */
  method Program(cfg: ModeConfig, drv: Driver, req: ModeSet, mode: DisplayMode) returns (ok: bool)
    requires req.crtc in cfg.crtcs && forall c :: c in req.connectors ==> c in cfg.connectors
    modifies req.crtc`enabled, req.crtc`fb, req.crtc`mode, req.crtc`hwmode, req.crtc`x, req.crtc`y
    modifies cfg.connectors`dpms, drv`calls
    ensures forall c :: c in cfg.connectors ==> c.dpms == old(c.dpms) || (c in req.connectors && c.dpms == DPMS_ON)
    ensures req.crtc.fb == if ok && old(cfg.CrtcInUse(req.crtc)) then req.fb else old(req.crtc.fb)
    ensures ok && old(cfg.CrtcInUse(req.crtc)) ==>
      req.crtc.mode == mode && req.crtc.x == req.x && req.crtc.y == req.y
    ensures var es := OnCrtc(cfg, old(RoutesNow(cfg)), req.crtc);
      if !old(cfg.CrtcInUse(req.crtc)) then ok && drv.calls == old(drv.calls)
      else if ok then
        ProgrammedAndOn(old(drv.calls), drv.calls, Goal(req.crtc, mode, req.x, req.y), es, req.connectors)
      else FailedAttempt(old(drv.calls), drv.calls, Goal(req.crtc, mode, req.x, req.y), es)
  {
    hide *;
    ghost var es, before := OnCrtc(cfg, RoutesNow(cfg), req.crtc), drv.calls;
    req.crtc.enabled := CrtcHelper.CrtcInUse(cfg, req.crtc);
    if !req.crtc.enabled {
      return true;
    }
    var oldFb := req.crtc.fb;
    req.crtc.fb := req.fb;
    assert cfg.CrtcInUse(req.crtc) == old(cfg.CrtcInUse(req.crtc));
    assert RoutesNow(cfg) == old(RoutesNow(cfg));
    ok := TryMode(cfg, drv, req.crtc, mode, req.x, req.y);
    if !ok {
      req.crtc.fb := oldFb;
      return;
    }
    ghost var programmed := drv.calls;
    SwitchOn(cfg, drv, req);
    ThenOn(before, programmed, drv.calls, Goal(req.crtc, mode, req.x, req.y), es, req.connectors);
  }

  lemma ThenOn(before: seq<Call>, programmed: seq<Call>, after: seq<Call>, target: Goal, es: seq<Encoder>,
               connectors: seq<Connector>)
    requires before <= programmed && Programs(programmed[|before|..], target, es)
    requires after == programmed + Ons(connectors)
    ensures ProgrammedAndOn(before, after, target, es, connectors)
  {
    hide Programs;
    assert after[|before|..|programmed|] == programmed[|before|..];
    assert after[|programmed|..] == Ons(connectors);
  }

  /** Program the CRTC and clean up what is no longer in use. */
  method Commit(cfg: ModeConfig, drv: Driver, req: ModeSet, mode: DisplayMode) returns (ok: bool)
    requires cfg.Valid() && req.crtc in cfg.crtcs
    requires forall c :: c in req.connectors ==> c in cfg.connectors
    modifies cfg.connectors`encoder, cfg.connectors`dpms, cfg.encoders`crtc, cfg.crtcs`enabled, cfg.crtcs`fb
    modifies req.crtc`mode, req.crtc`hwmode, req.crtc`x, req.crtc`y, drv`calls
    ensures ok ==> cfg.Valid()
    ensures forall c :: c in cfg.connectors ==> c.dpms == old(c.dpms) || (c in req.connectors && c.dpms == DPMS_ON)
    ensures ok ==> forall c :: c in cfg.connectors ==>
      c.encoder == if c.status == Disconnected then null else old(c.encoder)
    ensures ok ==> forall e :: e in cfg.encoders ==>
      e.crtc == if cfg.EncoderInUse(e) then old(e.crtc) else null
    ensures ok ==> forall c :: c in cfg.crtcs ==> c.enabled == cfg.CrtcInUse(c)
    ensures ok ==> forall c :: c in cfg.crtcs ==>
      c.fb == if !c.enabled then null else if c == req.crtc then req.fb else old(c.fb)
    ensures ok && req.crtc.enabled ==> req.crtc.mode == mode && req.crtc.x == req.x && req.crtc.y == req.y
    ensures var es := OnCrtc(cfg, old(RoutesNow(cfg)), req.crtc);
      if ok then
        FullModeSet(old(drv.calls), drv.calls, old(cfg.CrtcInUse(req.crtc)), Goal(req.crtc, mode, req.x, req.y), es,
                    req.connectors, CrtcHelper.UnusedEncoders(cfg), CrtcHelper.UnusedCrtcs(cfg))
      else FailedAttempt(old(drv.calls), drv.calls, Goal(req.crtc, mode, req.x, req.y), es)
  {
    hide ModeConfig.CrtcInUse, ModeConfig.EncoderInUse, OnCrtc, RoutesNow, CrtcHelper.UnusedEncoders,
         CrtcHelper.UnusedCrtcs, ProgrammedAndOn, FailedAttempt, FullModeSet, CleanUp;
    ghost var es, before, used := OnCrtc(cfg, RoutesNow(cfg), req.crtc), drv.calls, cfg.CrtcInUse(req.crtc);
    ok := Program(cfg, drv, req, mode);
    if ok {
      assert cfg.CrtcInUse(req.crtc) == old(cfg.CrtcInUse(req.crtc));
      ghost var programmed := drv.calls;
      CrtcHelper.DisableUnused(cfg, drv);
      ThenCleanUp(before, programmed, drv.calls, used, Goal(req.crtc, mode, req.x, req.y), es, req.connectors,
                  CrtcHelper.UnusedEncoders(cfg), CrtcHelper.UnusedCrtcs(cfg));
    }
  }

  lemma ThenCleanUp(before: seq<Call>, programmed: seq<Call>, after: seq<Call>, used: bool, target: Goal,
                    es: seq<Encoder>, connectors: seq<Connector>, encoders: set<Encoder>, crtcs: set<Crtc>)
    requires if used then ProgrammedAndOn(before, programmed, target, es, connectors) else programmed == before
    requires programmed <= after && CleanUp(after[|programmed|..], encoders, crtcs)
    ensures FullModeSet(before, after, used, target, es, connectors, encoders, crtcs)
  {
    hide CleanUp, Programs;
    assert after[..|programmed|] == programmed;
  }

  /** Move the scan-out base of a CRTC whose mode and routing stay. */
  method MoveBase(drv: Driver, req: ModeSet) returns (ret: int)
    modifies req.crtc`fb, req.crtc`x, req.crtc`y, drv`calls
    ensures ret == 0 ==> req.crtc.fb == req.fb && req.crtc.x == req.x && req.crtc.y == req.y
    ensures ret != 0 ==> req.crtc.fb == old(req.crtc.fb)
    ensures drv.calls == old(drv.calls) + [CrtcSetBase(req.crtc, req.x, req.y, ret == 0)]
  {
    req.crtc.x, req.crtc.y := req.x, req.y;
    var oldFb := req.crtc.fb;
    if req.crtc.fb != req.fb {
      req.crtc.fb := req.fb;
    }
    ret := *;
    drv.Record(CrtcSetBase(req.crtc, req.x, req.y, ret == 0));
    if ret != 0 {
      req.crtc.fb := oldFb;
    }
  }

  /** Compare the request with what the CRTC does now: does it need a full mode set, or only a
      move of the framebuffer? */
  method Compare(req: ModeSet, mode: DisplayMode) returns (modeChanged: bool, fbChanged: bool)
    requires req.fb != null
    ensures modeChanged == NeedsMode(req, mode)
    ensures !modeChanged ==> fbChanged == !(req.crtc.fb == req.fb && req.crtc.x == req.x && req.crtc.y == req.y)
  {
    modeChanged, fbChanged := false, false;
    if req.crtc.fb != req.fb {
      if req.crtc.fb == null {
        modeChanged := true;
      } else if req.fb.pixelFormat != req.crtc.fb.pixelFormat {
        modeChanged := true;
      } else {
        fbChanged := true;
      }
    }
    if req.x != req.crtc.x || req.y != req.crtc.y {
      fbChanged := true;
    }
    if !ModeEqual(mode, req.crtc.mode) {
      modeChanged := true;
    }
  }

  /** The CRTC shows nothing, or another pixel format, or another mode. */
  ghost predicate NeedsMode(req: ModeSet, mode: DisplayMode)
    requires req.fb != null
    reads req.crtc`fb, req.crtc`mode
  {
    || req.crtc.fb == null
    || req.fb.pixelFormat != req.crtc.fb.pixelFormat
    || !ModeEqual(mode, req.crtc.mode)
  }

  /** Both passes: the connectors have the encoders and the encoders the CRTCs that the request asks for. */
  ghost predicate Rerouted(cfg: ModeConfig, req: ModeSet, links: seq<Link>, routes: Routes)
    requires |links| == |cfg.connectors| && Covers(routes, links)
    reads cfg.connectors`encoder, cfg.connectors`status, cfg.encoders`crtc
  {
    && !Unserved(links, |links|)
    && (forall i :: 0 <= i < |links| ==> cfg.connectors[i].encoder == links[i].encoder)
    && Route(cfg, routes, links, req.crtc) == Some(RoutesNow(cfg))
  }

  method Reroute(cfg: ModeConfig, req: ModeSet, best: map<Connector, Encoder?>, ghost links: seq<Link>,
                 ghost routes: Routes)
    returns (ok: bool, changed: bool)
    requires cfg.Valid() && ValidRequest(cfg, req, best)
    requires links == Links(cfg, req, best, EncodersNow(cfg))
    requires routes == RoutesWithout(RoutesNow(cfg), Surrendered(EncodersNow(cfg), links, |links|))
    modifies cfg.connectors`encoder, cfg.encoders`crtc
    ensures cfg.Valid() && Covers(routes, links)
    ensures ok == (!Unserved(links, |links|) && Route(cfg, routes, links, req.crtc).Some?)
    ensures ok ==> Rerouted(cfg, req, links, routes)
    ensures changed == (LinksMove(old(EncodersNow(cfg)), links) ||
                        (!Unserved(links, |links|) && RoutesMove(cfg, routes, links, req.crtc)))
    ensures ok && !changed ==> EncodersNow(cfg) == old(EncodersNow(cfg))
    ensures ok && !changed ==> RoutesNow(cfg) == old(RoutesNow(cfg))
  {
    LinksShape(cfg, req, best, EncodersNow(cfg));
    hide RoutesWithout, Surrendered, Links, EncodersNow, Unserved, Route, RoutesMove, LinksMove, ChosenLink;
    var fail;
    ghost var encoders := EncodersNow(cfg);
    LinksMoveIs(encoders, links);
    fail, changed := AssignEncoders(cfg, req, best, links);
    CoversNow(cfg, links);
    if fail {
      return false, changed;
    }
    var moved;
    ok, moved := AssignCrtcs(cfg, req, links);
    changed := changed || moved;
  }

  lemma LinksShape(cfg: ModeConfig, req: ModeSet, best: map<Connector, Encoder?>, encoders: seq<Encoder?>)
    requires |encoders| == |cfg.connectors| && forall c :: c in req.connectors ==> c in best
    ensures forall i :: 0 <= i < |encoders| ==>
      Links(cfg, req, best, encoders)[i].wanted == (cfg.connectors[i] in req.connectors)
  {
  }

  lemma CoversNow(cfg: ModeConfig, links: seq<Link>)
    requires cfg.Valid() && |links| == |cfg.connectors|
    requires forall i :: 0 <= i < |links| ==> cfg.connectors[i].encoder == links[i].encoder
    ensures Covers(RoutesNow(cfg), links)
  {
  }

  /** What a request that was granted leaves behind: the links and routes that the two passes
      worked out, less what the clean-up of a full mode set takes away. */
  ghost predicate Granted(cfg: ModeConfig, req: ModeSet, links: seq<Link>, routes: Routes, full: bool)
    requires |links| == |cfg.connectors| && Covers(routes, links)
    reads cfg.connectors`encoder, cfg.connectors`status, cfg.encoders`crtc
  {
    var r := Route(cfg, routes, links, req.crtc);
    && !Unserved(links, |links|)
    && r.Some?
    && (forall i :: 0 <= i < |links| ==>
      cfg.connectors[i].encoder == if full && cfg.connectors[i].status == Disconnected then null else links[i].encoder)
    && (forall e :: e in cfg.encoders ==>
      e in r.value && e.crtc == if full && !cfg.EncoderInUse(e) then null else r.value[e])
  }

  /** What the routing passes decide about a request: the links and routes it starts from. */
  datatype Plan = Plan(links: seq<Link>, routes: Routes)

  /** The passes succeed. */
  ghost predicate Routed(cfg: ModeConfig, req: ModeSet, plan: Plan)
    requires |plan.links| == |cfg.connectors| && Covers(plan.routes, plan.links)
  {
    !Unserved(plan.links, |plan.links|) && Route(cfg, plan.routes, plan.links, req.crtc).Some?
  }

  /** The encoders that they put on the CRTC of the request, in list order. */
  ghost function Served(cfg: ModeConfig, req: ModeSet, plan: Plan): seq<Encoder>
    requires |plan.links| == |cfg.connectors| && Covers(plan.routes, plan.links)
  {
    if Routed(cfg, req, plan) then OnCrtc(cfg, Route(cfg, plan.routes, plan.links, req.crtc).value, req.crtc) else []
  }

  /** They bring the CRTC of the request into use. */
  ghost predicate BroughtIntoUse(cfg: ModeConfig, req: ModeSet, plan: Plan)
    requires |plan.links| == |cfg.connectors| && Covers(plan.routes, plan.links)
  {
    Routed(cfg, req, plan) &&
    Used(LinkEncoders(plan.links), Route(cfg, plan.routes, plan.links, req.crtc).value, req.crtc)
  }

  function LinkEncoders(links: seq<Link>): (s: seq<Encoder?>)
    ensures |s| == |links| && forall i :: 0 <= i < |s| ==> s[i] == links[i].encoder
  {
    seq(|links|, i requires 0 <= i < |links| => links[i].encoder)
  }

  lemma ServedNow(cfg: ModeConfig, req: ModeSet, plan: Plan)
    requires cfg.Valid() && |plan.links| == |cfg.connectors| && Covers(plan.routes, plan.links)
    requires Rerouted(cfg, req, plan.links, plan.routes) && req.crtc in cfg.crtcs
    ensures Routed(cfg, req, plan) && Served(cfg, req, plan) == OnCrtc(cfg, RoutesNow(cfg), req.crtc)
    ensures BroughtIntoUse(cfg, req, plan) == cfg.CrtcInUse(req.crtc)
  {
    InUseIffUsed(cfg);
    hide OnCrtc, RoutesNow, ModeConfig.CrtcInUse, Used, Covers, Route, Unserved;
    assert LinkEncoders(plan.links) == EncodersNow(cfg);
  }

  /** The calls of a full mode set of a routed request. */
  ghost predicate FullCalls(cfg: ModeConfig, req: ModeSet, mode: DisplayMode, plan: Plan, before: seq<Call>,
                            after: seq<Call>)
    requires |plan.links| == |cfg.connectors| && Covers(plan.routes, plan.links)
    reads cfg.connectors`encoder, cfg.encoders`crtc
  {
    FullModeSet(before, after, BroughtIntoUse(cfg, req, plan), Goal(req.crtc, mode, req.x, req.y),
                Served(cfg, req, plan), req.connectors, CrtcHelper.UnusedEncoders(cfg), CrtcHelper.UnusedCrtcs(cfg))
  }

  /** A full mode set of a rerouted request. */
  method CommitRouting(cfg: ModeConfig, drv: Driver, req: ModeSet, mode: DisplayMode, ghost links: seq<Link>,
                       ghost routes: Routes)
    returns (ok: bool)
    requires cfg.Valid() && req.crtc in cfg.crtcs
    requires forall c :: c in req.connectors ==> c in cfg.connectors
    requires |links| == |cfg.connectors| && Covers(routes, links) && Rerouted(cfg, req, links, routes)
    modifies cfg.connectors`encoder, cfg.connectors`dpms, cfg.encoders`crtc, cfg.crtcs`enabled, cfg.crtcs`fb
    modifies req.crtc`mode, req.crtc`hwmode, req.crtc`x, req.crtc`y, drv`calls
    ensures ok ==> cfg.Valid() && Granted(cfg, req, links, routes, true)
    ensures ok ==> forall c :: c in cfg.crtcs ==>
      && c.enabled == cfg.CrtcInUse(c)
      && c.fb == if !c.enabled then null else if c == req.crtc then req.fb else old(c.fb)
    ensures forall c :: c in cfg.connectors ==> c.dpms == old(c.dpms) || (c in req.connectors && c.dpms == DPMS_ON)
    ensures ok && req.crtc.enabled ==> req.crtc.mode == mode && req.crtc.x == req.x && req.crtc.y == req.y
    ensures ok ==> FullCalls(cfg, req, mode, Plan(links, routes), old(drv.calls), drv.calls)
    ensures !ok ==>
      FailedAttempt(old(drv.calls), drv.calls, Goal(req.crtc, mode, req.x, req.y),
                    Served(cfg, req, Plan(links, routes)))
  {
    ServedNow(cfg, req, Plan(links, routes));
    hide Route, Covers, Unserved, ModeConfig.CrtcInUse, ModeConfig.EncoderInUse, FullModeSet, FailedAttempt, OnCrtc,
         Routed, BroughtIntoUse, Served, CrtcHelper.UnusedEncoders, CrtcHelper.UnusedCrtcs;
    ok := Commit(cfg, drv, req, mode);
  }

  /** Both passes worked: bring the CRTC in line, by a full mode set or by moving its base. */
  method Apply(cfg: ModeConfig, drv: Driver, req: ModeSet, mode: DisplayMode, modeChanged: bool, fbChanged: bool,
               ghost links: seq<Link>, ghost routes: Routes)
    returns (ret: int)
    requires cfg.Valid() && req.crtc in cfg.crtcs
    requires forall c :: c in req.connectors ==> c in cfg.connectors
    requires |links| == |cfg.connectors| && Covers(routes, links) && Rerouted(cfg, req, links, routes)
    requires !modeChanged && !fbChanged ==> req.crtc.fb == req.fb && req.crtc.x == req.x && req.crtc.y == req.y
    modifies cfg.connectors`encoder, cfg.connectors`dpms, cfg.encoders`crtc, cfg.crtcs`enabled, cfg.crtcs`fb
    modifies req.crtc`mode, req.crtc`hwmode, req.crtc`x, req.crtc`y, drv`calls
    ensures ret == 0 ==> cfg.Valid() && Granted(cfg, req, links, routes, modeChanged)
    ensures ret == 0 && modeChanged ==> forall c :: c in cfg.crtcs ==>
      && c.enabled == cfg.CrtcInUse(c)
      && c.fb == if !c.enabled then null else if c == req.crtc then req.fb else old(c.fb)
    ensures forall c :: c in cfg.connectors ==> c.dpms == old(c.dpms) || (c in req.connectors && c.dpms == DPMS_ON)
    ensures ret == 0 && !modeChanged ==>
      RoutesNow(cfg) == old(RoutesNow(cfg)) && EncodersNow(cfg) == old(EncodersNow(cfg))
    ensures ret == 0 && modeChanged && req.crtc.enabled ==>
      req.crtc.mode == mode && req.crtc.x == req.x && req.crtc.y == req.y
    ensures ret == 0 && !modeChanged ==>
      && req.crtc.fb == req.fb && req.crtc.x == req.x && req.crtc.y == req.y && req.crtc.mode == old(req.crtc.mode)
      && (forall c :: c in cfg.crtcs ==> c.enabled == old(c.enabled) && (c == req.crtc || c.fb == old(c.fb)))
    ensures modeChanged && ret == 0 ==> FullCalls(cfg, req, mode, Plan(links, routes), old(drv.calls), drv.calls)
    ensures modeChanged && ret != 0 ==>
      FailedAttempt(old(drv.calls), drv.calls, Goal(req.crtc, mode, req.x, req.y),
                    Served(cfg, req, Plan(links, routes)))
    ensures !modeChanged ==>
      drv.calls == old(drv.calls) + if fbChanged then [CrtcSetBase(req.crtc, req.x, req.y, ret == 0)] else []
    ensures !modeChanged && !fbChanged ==> ret == 0
  {
    RoutedWithoutCleanUp(cfg, req, links, routes);
    hide Granted, Rerouted, Covers, FullCalls, FailedAttempt, Served, ModeConfig.CrtcInUse, ModeConfig.EncoderInUse;
    ret := 0;
    if modeChanged {
      var ok := CommitRouting(cfg, drv, req, mode, links, routes);
      if !ok {
        return -EINVAL;
      }
    } else if fbChanged {
      ret := MoveBase(drv, req);
    }
  }

  lemma RoutedWithoutCleanUp(cfg: ModeConfig, req: ModeSet, links: seq<Link>, routes: Routes)
    requires |links| == |cfg.connectors| && Covers(routes, links) && Rerouted(cfg, req, links, routes)
    ensures Granted(cfg, req, links, routes, false)
  {
  }

  /** The CRTC shows another framebuffer or position than the request asks for. */
  ghost predicate BaseMoves(req: ModeSet)
    reads req.crtc`fb, req.crtc`x, req.crtc`y
  {
    !(req.crtc.fb == req.fb && req.crtc.x == req.x && req.crtc.y == req.y)
  }

  /** Whether the request needs a full mode set: the CRTC shows nothing, another pixel format or
      another mode; or a connector changes its encoder, or an encoder its CRTC, on the way; or the
      driver cannot just move the base. */
  ghost predicate NeedsFull(cfg: ModeConfig, req: ModeSet, mode: DisplayMode, plan: Plan, encoders: seq<Encoder?>,
                            hasModeSetBase: bool)
    requires |encoders| == |plan.links| == |cfg.connectors| && Covers(plan.routes, plan.links) && req.fb != null
    reads req.crtc`fb, req.crtc`mode, req.crtc`x, req.crtc`y
  {
    || NeedsMode(req, mode)
    || LinksMove(encoders, plan.links)
    || (!Unserved(plan.links, |plan.links|) && RoutesMove(cfg, plan.routes, plan.links, req.crtc))
    || (Routed(cfg, req, plan) && BaseMoves(req) && !hasModeSetBase)
  }

  lemma RequestIsOfDevice(cfg: ModeConfig, req: ModeSet, best: map<Connector, Encoder?>)
    requires ValidRequest(cfg, req, best)
    ensures req.crtc in cfg.crtcs && forall c :: c in req.connectors ==> c in cfg.connectors
  {
  }

  /** Everything between the snapshot and the decision whether to keep the result. */
  method Attempt(cfg: ModeConfig, drv: Driver, req: ModeSet, mode: DisplayMode, best: map<Connector, Encoder?>,
                 ghost links: seq<Link>, ghost routes: Routes)
    returns (ret: int, modeChanged: bool)
    requires cfg.Valid() && ValidRequest(cfg, req, best) && req.fb != null
    requires links == Links(cfg, req, best, EncodersNow(cfg))
    requires routes == RoutesWithout(RoutesNow(cfg), Surrendered(EncodersNow(cfg), links, |links|))
    modifies cfg.connectors`encoder, cfg.connectors`dpms, cfg.encoders`crtc, cfg.crtcs`enabled, cfg.crtcs`fb
    modifies req.crtc`mode, req.crtc`hwmode, req.crtc`x, req.crtc`y, drv`calls
    ensures Covers(routes, links)
    ensures forall c :: c in cfg.connectors ==> c.dpms == old(c.dpms) || (c in req.connectors && c.dpms == DPMS_ON)
    ensures ret == 0 && !modeChanged ==>
      RoutesNow(cfg) == old(RoutesNow(cfg)) && EncodersNow(cfg) == old(EncodersNow(cfg))
    ensures ret == 0 ==> cfg.Valid() && Granted(cfg, req, links, routes, modeChanged)
    ensures ret == 0 && old(NeedsMode(req, mode)) ==> modeChanged
    ensures ret == 0 && modeChanged ==> forall c :: c in cfg.crtcs ==>
      && c.enabled == cfg.CrtcInUse(c)
      && c.fb == if !c.enabled then null else if c == req.crtc then req.fb else old(c.fb)
    ensures ret == 0 && !modeChanged ==>
      && req.crtc.fb == req.fb && req.crtc.x == req.x && req.crtc.y == req.y && req.crtc.mode == old(req.crtc.mode)
      && (forall c :: c in cfg.crtcs ==> c.enabled == old(c.enabled) && (c == req.crtc || c.fb == old(c.fb)))
    ensures ret == 0 && modeChanged && req.crtc.enabled ==>
      req.crtc.mode == mode && req.crtc.x == req.x && req.crtc.y == req.y
    ensures modeChanged ==
      old(NeedsFull(cfg, req, mode, Plan(links, routes), EncodersNow(cfg), drv.hasModeSetBase))
    ensures !Routed(cfg, req, Plan(links, routes)) ==> ret == -EINVAL && drv.calls == old(drv.calls)
    ensures Routed(cfg, req, Plan(links, routes)) && modeChanged ==>
      if ret == 0 then FullCalls(cfg, req, mode, Plan(links, routes), old(drv.calls), drv.calls)
      else FailedAttempt(old(drv.calls), drv.calls, Goal(req.crtc, mode, req.x, req.y),
                         Served(cfg, req, Plan(links, routes)))
    ensures Routed(cfg, req, Plan(links, routes)) && !modeChanged ==>
      && (old(BaseMoves(req)) ==> drv.hasModeSetBase)
      && (!old(BaseMoves(req)) ==> ret == 0)
      && drv.calls ==
        old(drv.calls) + if old(BaseMoves(req)) then [CrtcSetBase(req.crtc, req.x, req.y, ret == 0)] else []
  {
    hide NeedsMode, Granted, Rerouted, Surrendered, RoutesWithout, RoutesNow, Links, EncodersNow, EncodersOf,
         Unserved, ValidRequest, ModeConfig.CrtcInUse, ModeConfig.EncoderInUse, Served, FullCalls, FailedAttempt,
         LinksMove, RoutesMove, Route;
    RequestIsOfDevice(cfg, req, best);
    var fbChanged;
    modeChanged, fbChanged := Compare(req, mode);
    var rerouted, moved := Reroute(cfg, req, best, links, routes);
    modeChanged := modeChanged || moved;
    if !rerouted {
      return -EINVAL, modeChanged;
    }
    if fbChanged && !drv.hasModeSetBase {
      modeChanged := true;
    }
    ret := Apply(cfg, drv, req, mode, modeChanged, fbChanged, links, routes);
  }

  /** The snapshot describes the present state, except perhaps for whether `crtc` is enabled and, if it
      is, for its hardware mode. */
  ghost predicate MatchesButFor(cfg: ModeConfig, s: Snapshot, crtc: Crtc)
    reads cfg.crtcs, cfg.encoders, cfg.connectors
  {
    && |s.crtcs| == |cfg.crtcs| && |s.encoders| == |cfg.encoders| && |s.connectors| == |cfg.connectors|
    && (forall i :: 0 <= i < |cfg.crtcs| ==>
      var c := cfg.crtcs[i];
      IsCrtc(if c == crtc then s.crtcs[i].(enabled := c.enabled, hwmode := c.hwmode) else s.crtcs[i], c)
      && (!c.enabled ==> c.hwmode == s.crtcs[i].hwmode))
    && (forall i :: 0 <= i < |cfg.encoders| ==> cfg.encoders[i].crtc == s.encoders[i])
    && (forall i :: 0 <= i < |cfg.connectors| ==> IsConnector(s.connectors[i], cfg.connectors[i]))
  }

  /** Program the mode that the CRTC already has; whether or not that works, it keeps it. */
  method Reprogram(cfg: ModeConfig, drv: Driver, crtc: Crtc)
    requires crtc in cfg.crtcs
    modifies crtc`enabled, crtc`mode, crtc`hwmode, crtc`x, crtc`y, drv`calls
    ensures crtc.enabled == old(cfg.CrtcInUse(crtc))
    ensures crtc.mode == old(crtc.mode) && crtc.x == old(crtc.x) && crtc.y == old(crtc.y)
    ensures !crtc.enabled ==> crtc.hwmode == old(crtc.hwmode)
    ensures WentBack(old(drv.calls), drv.calls, crtc.enabled, Goal(crtc, crtc.mode, crtc.x, crtc.y),
                     OnCrtc(cfg, old(RoutesNow(cfg)), crtc))
  {
    hide Programs, FailedAttempt, OnCrtc, RoutesNow, ModeConfig.CrtcInUse;
    var ok := TryMode(cfg, drv, crtc, crtc.mode, crtc.x, crtc.y);
  }

  /** The failure path: put everything back and, if a full mode set was under way, try to program
      the old mode again.  Whether or not that works, the software state is the old one. */
  method RollBack(cfg: ModeConfig, drv: Driver, crtc: Crtc, s: Snapshot, modeChanged: bool)
    requires Distinct(cfg.crtcs) && Distinct(cfg.encoders) && Distinct(cfg.connectors) && crtc in cfg.crtcs
    requires |s.crtcs| == |cfg.crtcs| && |s.encoders| == |cfg.encoders| && |s.connectors| == |cfg.connectors|
    modifies cfg.crtcs, cfg.encoders, cfg.connectors, drv`calls
    ensures MatchesButFor(cfg, s, crtc)
    ensures if modeChanged then crtc.enabled == cfg.CrtcInUse(crtc) else Matches(cfg, s)
    ensures if modeChanged then
        WentBack(old(drv.calls), drv.calls, crtc.enabled, Goal(crtc, crtc.mode, crtc.x, crtc.y),
                 OnCrtc(cfg, RoutesNow(cfg), crtc))
      else drv.calls == old(drv.calls)
  {
    hide IsConnector, ModeConfig.CrtcInUse, OnCrtc, RoutesNow, WentBack;
    Restore(cfg, s);
    if modeChanged {
      Reprogram(cfg, drv, crtc);
    }
  }

  lemma ThenBack(before: seq<Call>, middle: seq<Call>, after: seq<Call>, routed: bool, target: Goal, es: seq<Encoder>,
                 oldUsed: bool, oldTarget: Goal, oldEs: seq<Encoder>)
    requires if routed then FailedAttempt(before, middle, target, es) else middle == before
    requires WentBack(middle, after, oldUsed, oldTarget, oldEs)
    ensures FailedModeSet(before, after, routed, target, es, oldUsed, oldTarget, oldEs)
  {
    hide Refused, Programs;
    assert after[..|middle|] == middle;
  }

  /** The routes that the request starts from, once the connectors gave up their encoders. */
  ghost function StartRoutes(cfg: ModeConfig, links: seq<Link>): Routes
    requires |links| == |cfg.connectors|
    reads cfg.connectors`encoder, cfg.connectors`status, cfg.encoders`crtc
  {
    RoutesWithout(RoutesNow(cfg), Surrendered(EncodersNow(cfg), links, |links|))
  }

  /** Attempt the request, and go back to the snapshot if that fails. */
  method AttemptOrRollBack(cfg: ModeConfig, drv: Driver, req: ModeSet, mode: DisplayMode,
                           best: map<Connector, Encoder?>, s: Snapshot, ghost links: seq<Link>, ghost routes: Routes)
    returns (ret: int, full: bool)
    requires cfg.Valid() && ValidRequest(cfg, req, best) && req.fb != null && Matches(cfg, s)
    requires links == Links(cfg, req, best, EncodersNow(cfg))
    requires routes == RoutesWithout(RoutesNow(cfg), Surrendered(EncodersNow(cfg), links, |links|))
    modifies cfg.crtcs, cfg.encoders, cfg.connectors, drv`calls
    ensures Covers(routes, links)
    ensures ret == 0 ==> cfg.Valid() && Granted(cfg, req, links, routes, full)
    ensures ret == 0 && old(NeedsMode(req, mode)) ==> full
    ensures ret == 0 && full ==> forall c :: c in cfg.crtcs ==>
      && c.enabled == cfg.CrtcInUse(c)
      && c.fb == if !c.enabled then null else if c == req.crtc then req.fb else old(c.fb)
    ensures ret == 0 && !full ==>
      && req.crtc.fb == req.fb && req.crtc.x == req.x && req.crtc.y == req.y && req.crtc.mode == old(req.crtc.mode)
      && (forall c :: c in cfg.crtcs ==> c.enabled == old(c.enabled) && (c == req.crtc || c.fb == old(c.fb)))
    ensures ret == 0 && full && req.crtc.enabled ==>
      req.crtc.mode == mode && req.crtc.x == req.x && req.crtc.y == req.y
    ensures ret == 0 ==> forall c :: c in cfg.crtcs ==> c.oldFb == old(c.oldFb)
    ensures ret == 0 ==> forall c :: c in cfg.crtcs && c != req.crtc ==>
      c.mode == old(c.mode) && c.x == old(c.x) && c.y == old(c.y) && c.hwmode == old(c.hwmode)
    ensures ret == 0 ==> forall c :: c in cfg.connectors ==> c.status == old(c.status)
    ensures ret == 0 ==> forall c :: c in cfg.connectors ==>
      c.dpms == old(c.dpms) || (c in req.connectors && c.dpms == DPMS_ON)
    ensures ret == 0 && !full ==> RoutesNow(cfg) == old(RoutesNow(cfg)) && EncodersNow(cfg) == old(EncodersNow(cfg))
    ensures ret != 0 ==> MatchesButFor(cfg, s, req.crtc)
    ensures ret != 0 ==> if full then req.crtc.enabled == cfg.CrtcInUse(req.crtc) else Matches(cfg, s)
    ensures full == old(NeedsFull(cfg, req, mode, Plan(links, routes), EncodersNow(cfg), drv.hasModeSetBase))
    ensures ret == 0 ==> Routed(cfg, req, Plan(links, routes))
    ensures ret == 0 && full ==> FullCalls(cfg, req, mode, Plan(links, routes), old(drv.calls), drv.calls)
    ensures ret == 0 && !full ==>
      && (old(BaseMoves(req)) ==> drv.hasModeSetBase)
      && drv.calls == old(drv.calls) + if old(BaseMoves(req)) then [CrtcSetBase(req.crtc, req.x, req.y, true)] else []
    ensures ret != 0 && full ==>
      FailedModeSet(old(drv.calls), drv.calls, Routed(cfg, req, Plan(links, routes)),
                    Goal(req.crtc, mode, req.x, req.y), Served(cfg, req, Plan(links, routes)), req.crtc.enabled,
                    Goal(req.crtc, req.crtc.mode, req.crtc.x, req.crtc.y), OnCrtc(cfg, RoutesNow(cfg), req.crtc))
    ensures ret != 0 && !full ==>
      if Routed(cfg, req, Plan(links, routes)) then
        && old(BaseMoves(req)) && drv.hasModeSetBase
        && drv.calls == old(drv.calls) + [CrtcSetBase(req.crtc, req.x, req.y, false)]
      else drv.calls == old(drv.calls)
  {
    hide NeedsMode, NeedsFull, BaseMoves, Granted, Links, EncodersNow, EncodersOf, ValidRequest, RoutesNow,
         RoutesWithout, Surrendered, MatchesButFor, IsCrtc, IsConnector, Routed, Served, FullCalls, FailedAttempt,
         WentBack, FailedModeSet, OnCrtc, ModeConfig.CrtcInUse;
    RequestIsOfDevice(cfg, req, best);
    ghost var before := drv.calls;
    ret, full := Attempt(cfg, drv, req, mode, best, links, routes);
    if ret != 0 {
      ghost var middle := drv.calls;
      RollBack(cfg, drv, req.crtc, s, full);
      if full {
        ThenBack(before, middle, drv.calls, Routed(cfg, req, Plan(links, routes)), Goal(req.crtc, mode, req.x, req.y),
                 Served(cfg, req, Plan(links, routes)), req.crtc.enabled,
                 Goal(req.crtc, req.crtc.mode, req.crtc.x, req.crtc.y), OnCrtc(cfg, RoutesNow(cfg), req.crtc));
      }
    }
  }

  /** A request with a framebuffer: attempt it, and roll back if the attempt fails. */
  method Configure(cfg: ModeConfig, drv: Driver, req: ModeSet, mode: DisplayMode, best: map<Connector, Encoder?>,
                   ghost links: seq<Link>)
    returns (ret: int, full: bool)
    requires cfg.Valid() && ValidRequest(cfg, req, best) && req.fb != null
    requires links == Links(cfg, req, best, EncodersNow(cfg))
    modifies cfg.crtcs, cfg.encoders, cfg.connectors, drv`calls
    ensures cfg.Valid() && Covers(old(StartRoutes(cfg, links)), links)
    ensures ret == 0 ==> Granted(cfg, req, links, old(StartRoutes(cfg, links)), full)
    ensures ret == 0 && old(NeedsMode(req, mode)) ==> full
    ensures ret == 0 && full ==> forall c :: c in cfg.crtcs ==>
      && c.enabled == cfg.CrtcInUse(c)
      && c.fb == if !c.enabled then null else if c == req.crtc then req.fb else old(c.fb)
    ensures ret == 0 && !full ==>
      && req.crtc.fb == req.fb && req.crtc.x == req.x && req.crtc.y == req.y && req.crtc.mode == old(req.crtc.mode)
      && (forall c :: c in cfg.crtcs ==> c.enabled == old(c.enabled) && (c == req.crtc || c.fb == old(c.fb)))
    ensures ret == 0 && full && req.crtc.enabled ==>
      req.crtc.mode == mode && req.crtc.x == req.x && req.crtc.y == req.y
    ensures forall c :: c in cfg.crtcs ==> c.oldFb == old(c.oldFb)
    ensures ret == 0 ==> forall c :: c in cfg.crtcs && c != req.crtc ==>
      c.mode == old(c.mode) && c.x == old(c.x) && c.y == old(c.y) && c.hwmode == old(c.hwmode)
    ensures forall c :: c in cfg.connectors ==> c.status == old(c.status)
    ensures forall c :: c in cfg.connectors ==> c.dpms == old(c.dpms) || (c in req.connectors && c.dpms == DPMS_ON)
    ensures ret != 0 ==> forall c :: c in cfg.connectors ==> c.dpms == old(c.dpms)
    ensures ret == 0 && !full ==> RoutesNow(cfg) == old(RoutesNow(cfg)) && EncodersNow(cfg) == old(EncodersNow(cfg))
    ensures ret != 0 ==> RoutesNow(cfg) == old(RoutesNow(cfg)) && EncodersNow(cfg) == old(EncodersNow(cfg))
    ensures ret != 0 ==> forall c :: c in cfg.connectors ==> c.encoder == old(c.encoder)
    ensures ret != 0 ==> forall e :: e in cfg.encoders ==> e.crtc == old(e.crtc)
    ensures ret != 0 ==> forall c :: c in cfg.crtcs ==>
      && c.fb == old(c.fb) && c.mode == old(c.mode) && c.x == old(c.x) && c.y == old(c.y)
      && (c == req.crtc || (c.hwmode == old(c.hwmode) && c.enabled == old(c.enabled)))
    ensures ret != 0 ==>
      req.crtc.enabled == if full then old(cfg.CrtcInUse(req.crtc)) else old(req.crtc.enabled)
    ensures ret != 0 && !(full && req.crtc.enabled) ==> req.crtc.hwmode == old(req.crtc.hwmode)
    ensures ret == -ENOMEM ||
      full == old(NeedsFull(cfg, req, mode, Plan(links, StartRoutes(cfg, links)), EncodersNow(cfg), drv.hasModeSetBase))
    ensures ret == 0 && full ==>
      FullCalls(cfg, req, mode, Plan(links, old(StartRoutes(cfg, links))), old(drv.calls), drv.calls)
    ensures ret == 0 && !full ==>
      && (old(BaseMoves(req)) ==> drv.hasModeSetBase)
      && drv.calls == old(drv.calls) + if old(BaseMoves(req)) then [CrtcSetBase(req.crtc, req.x, req.y, true)] else []
    ensures ret != 0 && full ==> var plan := Plan(links, old(StartRoutes(cfg, links)));
      FailedModeSet(old(drv.calls), drv.calls, Routed(cfg, req, plan), Goal(req.crtc, mode, req.x, req.y),
                    Served(cfg, req, plan), old(cfg.CrtcInUse(req.crtc)),
                    old(Goal(req.crtc, req.crtc.mode, req.crtc.x, req.crtc.y)),
                    OnCrtc(cfg, old(RoutesNow(cfg)), req.crtc))
    ensures ret != 0 && !full ==>
      || drv.calls == old(drv.calls)
      || (&& old(BaseMoves(req)) && drv.hasModeSetBase
          && drv.calls == old(drv.calls) + [CrtcSetBase(req.crtc, req.x, req.y, false)])
  {
    hide NeedsMode, NeedsFull, BaseMoves, Routed, Served, FullCalls, FailedModeSet, OnCrtc, Granted, Links,
         EncodersNow, EncodersOf, StartRoutes, ValidRequest, RoutesNow, RoutesWithout, Surrendered,
         ModeConfig.CrtcInUse;
    ghost var routes := StartRoutes(cfg, links);
    CoveredAtStart(cfg, req, best, links);
    RequestIsOfDevice(cfg, req, best);
    var haveMemory: bool := *;
    if !haveMemory {
      return -ENOMEM, false;
    }
    var s := Save(cfg);
    ret, full := AttemptOrRollBack(cfg, drv, req, mode, best, s, links, routes);
  }

  lemma CoveredAtStart(cfg: ModeConfig, req: ModeSet, best: map<Connector, Encoder?>, links: seq<Link>)
    requires cfg.Valid() && ValidRequest(cfg, req, best)
    requires links == Links(cfg, req, best, EncodersNow(cfg))
    ensures Covers(StartRoutes(cfg, links), links)
    ensures StartRoutes(cfg, links) == RoutesWithout(RoutesNow(cfg), Surrendered(EncodersNow(cfg), links, |links|))
  {
  }

  /** The connector list gives a CRTC its use: an encoder routed to it that a connector holds. */
  ghost predicate Used(encoders: seq<Encoder?>, routes: Routes, crtc: Crtc) {
    exists e :: e in routes && routes[e] == crtc && e in encoders
  }

  lemma InUseIffUsed(cfg: ModeConfig)
    ensures forall crtc :: crtc in cfg.crtcs ==> cfg.CrtcInUse(crtc) == Used(EncodersNow(cfg), RoutesNow(cfg), crtc)
  {
    var encoders := EncodersNow(cfg);
    forall e | e in cfg.encoders
      ensures cfg.EncoderInUse(e) <==> e in encoders
    {
      if cfg.EncoderInUse(e) {
        var i :| 0 <= i < |cfg.connectors| && cfg.connectors[i].encoder == e;
        assert encoders[i] == e;
      }
    }
  }

  /** `enabled` says which CRTCs are in use. */
  ghost predicate EnabledIsInUse(cfg: ModeConfig)
    reads cfg.crtcs`enabled, cfg.connectors`encoder, cfg.encoders`crtc
  {
    forall c :: c in cfg.crtcs ==> c.enabled == cfg.CrtcInUse(c)
  }

  ghost function PlanOf(cfg: ModeConfig, req: ModeSet, best: map<Connector, Encoder?>): (plan: Plan)
    requires cfg.Valid() && ValidRequest(cfg, req, best)
    reads cfg.connectors`encoder, cfg.connectors`status, cfg.encoders`crtc
    ensures |plan.links| == |cfg.connectors| && Covers(plan.routes, plan.links)
    ensures plan.links == Links(cfg, req, best, EncodersNow(cfg)) && plan.routes == StartRoutes(cfg, plan.links)
  {
    var links := Links(cfg, req, best, EncodersNow(cfg));
    CoveredAtStart(cfg, req, best, links);
    Plan(links, StartRoutes(cfg, links))
  }

  /** The set_config entry point: without a framebuffer the CRTC is switched off, otherwise the
      request is configured.  No CRTC ends up with a framebuffer other than its own, none, or, for
      the CRTC of the request, the requested one. */
  method SetConfig(cfg: ModeConfig, drv: Driver, req: ModeSet, best: map<Connector, Encoder?>)
    returns (ret: int, ghost full: bool)
    requires cfg.Valid() && ValidRequest(cfg, req, best)
    modifies cfg.crtcs, cfg.encoders, cfg.connectors, drv`calls
    ensures cfg.Valid()
    ensures forall c :: c in cfg.crtcs ==> c.fb == old(c.fb) || c.fb == null || (c == req.crtc && c.fb == req.fb)
    ensures forall c :: c in cfg.crtcs ==> c.oldFb == old(c.oldFb)
    ensures forall c :: c in cfg.connectors ==> c.status == old(c.status)
    ensures forall c :: c in cfg.connectors ==>
      c.dpms == old(c.dpms) || (ret == 0 && c in req.connectors && c.dpms == 0)
    ensures ret != 0 ==> forall c :: c in cfg.connectors ==> c.encoder == old(c.encoder)
    ensures ret != 0 ==> forall e :: e in cfg.encoders ==> e.crtc == old(e.crtc)
    ensures ret != 0 ==> forall c :: c in cfg.crtcs ==>
      && c.fb == old(c.fb) && c.mode == old(c.mode) && c.x == old(c.x) && c.y == old(c.y)
      && (c == req.crtc || (c.hwmode == old(c.hwmode) && c.enabled == old(c.enabled)))
    ensures ret != 0 ==>
      req.crtc.enabled == if full then old(cfg.CrtcInUse(req.crtc)) else old(req.crtc.enabled)
    ensures ret != 0 && !(full && old(cfg.CrtcInUse(req.crtc))) ==> req.crtc.hwmode == old(req.crtc.hwmode)
    ensures ret == 0 ==> forall c :: c in cfg.crtcs && (c != req.crtc || req.fb == null) ==>
      c.mode == old(c.mode) && c.x == old(c.x) && c.y == old(c.y) && c.hwmode == old(c.hwmode)
    ensures req.fb == null ==> ret == 0 && req.crtc.fb == null && !req.crtc.enabled
    ensures req.fb == null ==> forall c :: c in cfg.connectors ==>
      c.encoder == if c.status == Disconnected || old(cfg.Reaches(c, req.crtc)) then null else old(c.encoder)
    ensures req.fb == null ==> forall e :: e in cfg.encoders ==>
      e.crtc == if cfg.EncoderInUse(e) then old(e.crtc) else null
    ensures req.fb == null ==> forall c :: c in cfg.crtcs ==> c.fb == if c.enabled then old(c.fb) else null
    ensures req.fb == null || (ret == 0 && full) ==> forall c :: c in cfg.crtcs ==>
      c.enabled == cfg.CrtcInUse(c) && (c.enabled || c.fb == null)
    ensures req.fb != null && ret == 0 && full ==> forall c :: c in cfg.crtcs && c.enabled ==>
      c.fb == if c == req.crtc then req.fb else old(c.fb)
    ensures req.fb != null && ret == 0 && !full ==> forall c :: c in cfg.crtcs ==>
      c.enabled == old(c.enabled) && (c == req.crtc || c.fb == old(c.fb))
    ensures old(EnabledIsInUse(cfg)) ==> EnabledIsInUse(cfg)
    ensures ret != 0 && old(EnabledIsInUse(cfg)) ==> req.crtc.enabled == old(req.crtc.enabled)
    ensures req.fb != null && ret == 0 && (!full || cfg.CrtcInUse(req.crtc)) ==>
      && req.crtc.fb == req.fb && req.crtc.x == req.x && req.crtc.y == req.y
      && req.crtc.mode == if full then req.mode.value else old(req.crtc.mode)
    ensures req.fb != null && ret == 0 && old(NeedsMode(req, req.mode.value)) ==> full
    ensures req.fb == null ==>
      && old(drv.calls) <= drv.calls
      && CleanUp(drv.calls[|old(drv.calls)|..], CrtcHelper.UnusedEncoders(cfg), CrtcHelper.UnusedCrtcs(cfg))
    ensures req.fb != null ==> var plan := old(PlanOf(cfg, req, best));
      && (ret == -ENOMEM ||
          full == old(NeedsFull(cfg, req, req.mode.value, plan, EncodersNow(cfg), drv.hasModeSetBase)))
      && (ret == 0 ==> Granted(cfg, req, plan.links, plan.routes, full))
      && (ret == 0 && full ==> FullCalls(cfg, req, req.mode.value, plan, old(drv.calls), drv.calls))
      && (ret != 0 && full ==>
          FailedModeSet(old(drv.calls), drv.calls, Routed(cfg, req, plan),
                        Goal(req.crtc, req.mode.value, req.x, req.y), Served(cfg, req, plan),
                        old(cfg.CrtcInUse(req.crtc)), old(Goal(req.crtc, req.crtc.mode, req.crtc.x, req.crtc.y)),
                        OnCrtc(cfg, old(RoutesNow(cfg)), req.crtc)))
    ensures req.fb != null && ret == 0 && !full ==>
      && (old(BaseMoves(req)) ==> drv.hasModeSetBase)
      && drv.calls == old(drv.calls) + if old(BaseMoves(req)) then [CrtcSetBase(req.crtc, req.x, req.y, true)] else []
    ensures ret != 0 && !full ==>
      || drv.calls == old(drv.calls)
      || (&& old(BaseMoves(req)) && drv.hasModeSetBase
          && drv.calls == old(drv.calls) + [CrtcSetBase(req.crtc, req.x, req.y, false)])
  {
    hide NeedsMode, NeedsFull, BaseMoves, Routed, Served, FullCalls, FailedModeSet, OnCrtc, CleanUp, Granted, Covers,
         Links, EncodersNow, EncodersOf, RoutesNow, StartRoutes, Used, CrtcHelper.UnusedEncoders,
         CrtcHelper.UnusedCrtcs, ModeConfig.CrtcInUse;
    ghost var links := Links(cfg, req, best, EncodersNow(cfg));
    CoveredAtStart(cfg, req, best, links);
    RequestIsOfDevice(cfg, req, best);
    InUseIffUsed(cfg);
    if req.fb == null {
      full := false;
      ret := 0;
      CrtcHelper.Disable(cfg, drv, req.crtc);
    } else {
      var wasFull;
      ret, wasFull := Configure(cfg, drv, req, req.mode.value, best, links);
      full := wasFull;
      InUseIffUsed(cfg);
    }
  }

  // ----- what a granted request means

  /** A request with a framebuffer was carried out, `calls` being what the driver was told: the
      routing is granted; if the CRTC shows something, then what was asked for, as it was asked for,
      and the driver was told so, and to switch the connectors on. */
  ghost predicate Carried(cfg: ModeConfig, req: ModeSet, plan: Plan, full: bool, moves: bool, calls: seq<Call>)
    requires |plan.links| == |cfg.connectors| && Covers(plan.routes, plan.links) && req.mode.Some?
    reads cfg.connectors`encoder, cfg.connectors`status, cfg.encoders`crtc, req.crtc
  {
    && Granted(cfg, req, plan.links, plan.routes, full)
    && (!full || cfg.CrtcInUse(req.crtc) ==> req.crtc.fb == req.fb)
    && (req.crtc.fb == null ==> !req.crtc.enabled)
    && (req.crtc.fb != null ==>
      && req.crtc.fb == req.fb && req.crtc.x == req.x && req.crtc.y == req.y
      && ModeEqual(req.mode.value, req.crtc.mode)
      && (full ==>
        && CrtcModeSet(req.crtc, req.mode.value, req.x, req.y, true) in calls
        && forall c :: c in req.connectors ==> ConnectorOn(c) in calls)
      && (!full && moves ==> CrtcSetBase(req.crtc, req.x, req.y, true) in calls))
  }

  lemma CarriedOut(cfg: ModeConfig, req: ModeSet, plan: Plan, full: bool, moves: bool, before: seq<Call>,
                   after: seq<Call>)
    requires cfg.Valid() && |plan.links| == |cfg.connectors| && Covers(plan.routes, plan.links)
    requires req.fb != null && req.mode.Some? && Granted(cfg, req, plan.links, plan.routes, full)
    requires full && req.crtc.fb != null ==> cfg.CrtcInUse(req.crtc)
    requires req.crtc.fb == null ==> !req.crtc.enabled
    requires !full || cfg.CrtcInUse(req.crtc) ==>
      && req.crtc.fb == req.fb && req.crtc.x == req.x && req.crtc.y == req.y
      && ModeEqual(req.mode.value, req.crtc.mode)
    requires full ==> FullCalls(cfg, req, req.mode.value, plan, before, after)
    requires !full && moves ==> after == before + [CrtcSetBase(req.crtc, req.x, req.y, true)]
    ensures Carried(cfg, req, plan, full, moves, if before <= after then after[|before|..] else [])
    ensures full && req.crtc.fb != null ==> before <= after
  {
    hide Granted, FullModeSet, Served, CrtcHelper.UnusedEncoders, CrtcHelper.UnusedCrtcs, ModeConfig.CrtcInUse,
         BroughtIntoUse, ModeConfig.Valid, Covers;
    if full && req.crtc.fb != null {
      InUseWasBroughtIntoUse(cfg, req, plan, full);
      FullTells(before, after, Goal(req.crtc, req.mode.value, req.x, req.y), Served(cfg, req, plan), req.connectors,
                CrtcHelper.UnusedEncoders(cfg), CrtcHelper.UnusedCrtcs(cfg));
    }
  }

  /** A CRTC that is in use at the end was in use when it was programmed. */
  lemma InUseWasBroughtIntoUse(cfg: ModeConfig, req: ModeSet, plan: Plan, full: bool)
    requires cfg.Valid() && |plan.links| == |cfg.connectors| && Covers(plan.routes, plan.links)
    requires Granted(cfg, req, plan.links, plan.routes, full) && cfg.CrtcInUse(req.crtc)
    ensures BroughtIntoUse(cfg, req, plan)
  {
    hide Route, Unserved, Covers;
    cfg.InUseIffReached(req.crtc);
    var c :| c in cfg.connectors && cfg.Reaches(c, req.crtc);
    var i :| 0 <= i < |cfg.connectors| && cfg.connectors[i] == c;
    assert LinkEncoders(plan.links)[i] == c.encoder;
  }

  /** What a full mode set told the driver. */
  lemma FullTells(before: seq<Call>, after: seq<Call>, target: Goal, es: seq<Encoder>, connectors: seq<Connector>,
                  encoders: set<Encoder>, crtcs: set<Crtc>)
    requires FullModeSet(before, after, true, target, es, connectors, encoders, crtcs)
    ensures before <= after && ModeSetCall(target, true) in after[|before|..]
    ensures forall c :: c in connectors ==> ConnectorOn(c) in after[|before|..]
  {
    hide CleanUp, Programs;
    var m: nat :| |before| <= m <= |after| && before <= after &&
      ProgrammedAndOn(before, after[..m], target, es, connectors);
    var since, n := after[|before|..], m - |connectors|;
    assert after[..m][|before|..n] == since[..n - |before|];
    ProgramsTells(since[..n - |before|], target, es);
    forall c | c in connectors
      ensures ConnectorOn(c) in since
    {
      var i :| 0 <= i < |connectors| && connectors[i] == c;
      assert after[..m][n..][i] == ConnectorOn(c) == since[n - |before| + i];
    }
  }

  lemma ProgramsTells(t: seq<Call>, target: Goal, es: seq<Encoder>)
    requires Programs(t, target, es)
    ensures ModeSetCall(target, true) in t
  {
    PhaseHasCall(t, 5);
    var c :| c in t && Phase(c) == 5;
    assert !Refusal(c) && Meant(c, target);
  }

  lemma {:induction false} PhaseHasCall(t: seq<Call>, phase: nat)
    requires EncodersIn(t, phase) != []
    ensures exists c :: c in t && Phase(c) == phase
  {
    var n := |t| - 1;
    if Phase(t[n]) != phase {
      PhaseHasCall(t[..n], phase);
    } else {
      assert t[n] in t;
    }
  }

  /** Which connectors reach the requested CRTC: those whose encoder is claimed, that is, whose
      encoder's last holder is named by the request; after a full mode set, connected ones only. */
  lemma GrantedReaches(cfg: ModeConfig, req: ModeSet, links: seq<Link>, routes: Routes, full: bool, i: int)
    requires cfg.Valid() && |links| == |cfg.connectors| && Covers(routes, links)
    requires Granted(cfg, req, links, routes, full) && 0 <= i < |links|
    ensures cfg.Reaches(cfg.connectors[i], req.crtc) <==>
      && links[i].encoder != null
      && Claimed(links, links[i].encoder)
      && !(full && cfg.connectors[i].status == Disconnected)
    ensures cfg.connectors[i].encoder != null && cfg.connectors[i].encoder.crtc != null ==>
      cfg.CrtcOk(cfg.connectors[i].encoder, cfg.connectors[i].encoder.crtc)
  {
    var c := cfg.connectors[i];
    assert c in cfg.connectors;
    if links[i].encoder != null {
      RouteByLastHolder(cfg, routes, links, req.crtc, links[i].encoder);
      assert c.encoder != null ==> cfg.EncoderInUse(c.encoder);
    }
  }

  /** A connector that holds an encoder is named exactly if that encoder's last holder is, and the
      clean-up leaves the connector its encoder. */
  ghost predicate NamedIffKept(links: seq<Link>, statuses: seq<Status>, full: bool)
    requires |links| == |statuses|
  {
    forall i :: 0 <= i < |links| && links[i].encoder != null ==>
      (links[i].wanted <==> Claimed(links, links[i].encoder) && !(full && statuses[i] == Disconnected))
  }

  ghost function StatusesNow(cfg: ModeConfig): (s: seq<Status>)
    reads cfg.connectors`status
    ensures |s| == |cfg.connectors| && forall i :: 0 <= i < |s| ==> s[i] == cfg.connectors[i].status
  {
    StatusesOf(cfg.connectors)
  }

  ghost function StatusesOf(connectors: seq<Connector>): (s: seq<Status>)
    reads connectors`status
    ensures |s| == |connectors| && forall i :: 0 <= i < |s| ==> s[i] == connectors[i].status
  {
    if connectors == [] then []
    else StatusesOf(connectors[..|connectors| - 1]) + [connectors[|connectors| - 1].status]
  }

  /** The connectors that the request names are not disconnected. */
  ghost predicate NamedConnected(links: seq<Link>, statuses: seq<Status>)
    requires |links| == |statuses|
  {
    forall i :: 0 <= i < |links| && links[i].wanted ==> statuses[i] != Disconnected
  }

  /** Nor are those that hold an encoder. */
  ghost predicate HoldersConnected(links: seq<Link>, statuses: seq<Status>)
    requires |links| == |statuses|
  {
    forall i :: 0 <= i < |links| && links[i].encoder != null ==> statuses[i] != Disconnected
  }

  /** Exactly the request's connectors reach the CRTC, if and only if that is so.  If the request's
      connectors are connected, it is enough that they share no encoder with a connector outside;
      and that is needed, as far as connected connectors hold the encoders. */
  lemma ExactlyTheRequestReachesIff(cfg: ModeConfig, req: ModeSet, links: seq<Link>, routes: Routes, full: bool)
    requires cfg.Valid() && |links| == |cfg.connectors| && Covers(routes, links)
    requires Granted(cfg, req, links, routes, full)
    requires forall i :: 0 <= i < |links| ==> links[i].wanted == (cfg.connectors[i] in req.connectors)
    ensures ReachedExactly(cfg, req) <==> NamedIffKept(links, StatusesNow(cfg), full)
    ensures NamedConnected(links, StatusesNow(cfg)) && Unshared(links) ==> ReachedExactly(cfg, req)
    ensures HoldersConnected(links, StatusesNow(cfg)) && ReachedExactly(cfg, req) ==> Unshared(links)
  {
    ExactlyTheRequestIffUnshared(cfg, routes, links, req.crtc);
    hide Granted, Covers, ModeConfig.Valid, Unshared;
    forall i | 0 <= i < |links|
      ensures links[i].encoder == null ==> !links[i].wanted && !cfg.Reaches(cfg.connectors[i], req.crtc)
      ensures links[i].encoder != null ==>
        (cfg.Reaches(cfg.connectors[i], req.crtc) <==>
          Claimed(links, links[i].encoder) && !(full && cfg.connectors[i].status == Disconnected))
    {
      GrantedReaches(cfg, req, links, routes, full, i);
      WantedIsServed(cfg, req, links, routes, full, i);
    }
    forall i | 0 <= i < |links| && links[i].encoder != null
      ensures Claimed(links, links[i].encoder) <==>
        Route(cfg, routes, links, req.crtc).value[links[i].encoder] == req.crtc
    {
      RouteByLastHolder(cfg, routes, links, req.crtc, links[i].encoder);
    }
  }

  ghost predicate ReachedExactly(cfg: ModeConfig, req: ModeSet)
    reads cfg.connectors`encoder, cfg.connectors`status, cfg.encoders`crtc
  {
    forall i :: 0 <= i < |cfg.connectors| ==>
      (cfg.Reaches(cfg.connectors[i], req.crtc) <==> cfg.connectors[i] in req.connectors)
  }

  lemma WantedIsServed(cfg: ModeConfig, req: ModeSet, links: seq<Link>, routes: Routes, full: bool, i: int)
    requires |links| == |cfg.connectors| && Covers(routes, links)
    requires Granted(cfg, req, links, routes, full) && 0 <= i < |links|
    ensures Route(cfg, routes, links, req.crtc).Some?
    ensures links[i].encoder == null ==> !links[i].wanted
  {
  }

  /** The whole transaction, from what the caller knows before it.  A granted request is reached by
      exactly its connectors if and only if each holder of an encoder is named exactly if it keeps
      it; then the CRTC shows the requested framebuffer. */
  method ShowOnConnectors(cfg: ModeConfig, drv: Driver, req: ModeSet, best: map<Connector, Encoder?>)
    returns (ret: int, ghost full: bool)
    requires cfg.Valid() && ValidRequest(cfg, req, best) && req.fb != null
    modifies cfg.crtcs, cfg.encoders, cfg.connectors, drv`calls
    ensures var links, statuses := old(Links(cfg, req, best, EncodersNow(cfg))), old(StatusesNow(cfg));
      ret == 0 ==>
        && (ReachedExactly(cfg, req) <==> NamedIffKept(links, statuses, full))
        && (NamedConnected(links, statuses) && Unshared(links) ==> ReachedExactly(cfg, req))
        && (HoldersConnected(links, statuses) && ReachedExactly(cfg, req) ==> Unshared(links))
    ensures ret == 0 && ReachedExactly(cfg, req) ==>
      && req.crtc.fb == req.fb && req.crtc.x == req.x && req.crtc.y == req.y
      && req.mode.Some? && ModeEqual(req.mode.value, req.crtc.mode)
      && (old(EnabledIsInUse(cfg)) ==> req.crtc.enabled)
  {
    hide Links, Covers, Unshared, StartRoutes, EncodersNow, EncodersOf, Granted, ReachedExactly, StatusesNow,
         StatusesOf,
         NamedIffKept, NamedConnected, HoldersConnected, ModeConfig.CrtcInUse;
    ghost var encoders, statuses := EncodersNow(cfg), StatusesNow(cfg);
    ghost var links, routes := Links(cfg, req, best, encoders), StartRoutes(cfg, Links(cfg, req, best, encoders));
    LinksShape(cfg, req, best, encoders);
    ghost var wasFull;
    ret, wasFull := SetConfig(cfg, drv, req, best);
    full := wasFull;
    if ret == 0 {
      ExactlyTheRequestReachesIff(cfg, req, links, routes, full);
      assert StatusesNow(cfg) == statuses;
      if ReachedExactly(cfg, req) {
        ReachedIsUsed(cfg, req, best);
      }
    }
  }

  lemma ReachedIsUsed(cfg: ModeConfig, req: ModeSet, best: map<Connector, Encoder?>)
    requires cfg.Valid() && ValidRequest(cfg, req, best) && req.fb != null && ReachedExactly(cfg, req)
    ensures cfg.CrtcInUse(req.crtc)
  {
    assert req.connectors[0] in cfg.connectors;
    cfg.InUseIffReached(req.crtc);
  }
}
