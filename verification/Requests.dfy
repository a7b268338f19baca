/**
 What the create, update and delete handlers do, said of the request and of what was stored before, without
 the steps in between (internal/web/handle_services.go:31-541).
 */
module Requests {
  import opened Common
  import opened Entities
  import opened Ingress
  import opened Cloudflare
  import opened Dns
  import opened Tracking
  import opened Handlers
  import opened Runs
  import Catalog
  import Text

  // ---- Create ---------------------------------------------------------------------------------------------

  /** Why nothing is created, or that something is; nothing changes in the first case. */
  lemma CreateStatus(g: Setting, a: Account, s: Sys, req: CreateRequest, id: string, order: int, now: int)
    ensures var (s', status) := Create(g, a, s, req, id, order, now);
      var taken := !req.directOnly && Text.Sanitised(g.unicode, req.subdomain) in s.services;
      var missing := req.discoveredID != "" && forall d | d in s.shelves.discovered :: d.id != req.discoveredID;
      && status == (if taken then Conflict
                    else if missing then NotFound
                    else if req.discoveredID == "" && req.target == "" then BadRequest
                    else NoContent)
      && (status != NoContent ==> s' == s)
  {
    Text.SanitisedIsLabel(g.unicode, req.subdomain);
    hide Text.Sanitised, Reconcile;
    var found := Catalog.Find(s.shelves.discovered, Catalog.IsID(req.discoveredID));
    assert found.None? ==> forall d | d in s.shelves.discovered :: !Catalog.IsID(req.discoveredID)(d);
  }

  lemma Accepted(g: Setting, s: Sys, req: CreateRequest, id: string, order: int, now: int)
    ensures var (draft, status) := DraftIn(g, s, req, id, order, now); draft.Some? <==> status == NoContent
  {
    hide Text.Sanitised;
  }

  /** The key of a created service. */
  function CreatedKey(g: Setting, req: CreateRequest, id: string): string {
    if req.directOnly then "_direct_" + id else Text.Sanitised(g.unicode, req.subdomain)
  }

  /** What is created where no discovered entry is named. */
  lemma CreatedByHand(g: Setting, a: Account, s: Sys, req: CreateRequest, id: string, order: int, now: int)
    requires Create(g, a, s, req, id, order, now).1 == NoContent && req.discoveredID == ""
    ensures var s' := Create(g, a, s, req, id, order, now).0; var k := CreatedKey(g, req, id);
      && s'.shelves == s.shelves
      && k in s'.services && s'.services == s.services[k := s'.services[k]]
      && var nu := s'.services[k];
      nu == Service(
              id,
              if req.name != "" then req.name else Text.Sanitised(g.unicode, req.subdomain),
              k,
              req.target,
              if req.icon == File(true) then "file" else "",
              req.category,
              order,
              "manual",
              "", "",
              nu.dnsRecordID, nu.tunnelRouteID,
              req.skipHealth,
              req.directOnly,
              now)
  {
    hide Text.Sanitised, Reconcile;
  }

  /** What is created from a discovered entry, which leaves the list. */
  lemma CreatedFrom(g: Setting, a: Account, s: Sys, req: CreateRequest, id: string, order: int, now: int,
                    d: Discovered)
    requires Create(g, a, s, req, id, order, now).1 == NoContent && req.discoveredID != ""
    requires d in s.shelves.discovered && d.id == req.discoveredID && Catalog.UniqueShelf(s.shelves.discovered)
    ensures var s' := Create(g, a, s, req, id, order, now).0; var k := CreatedKey(g, req, id);
      && k in s'.services && s'.services == s.services[k := s'.services[k]]
      && var nu := s'.services[k];
      nu == Service(
              id,
              if req.name != "" then req.name
              else if d.title != "" then d.title
              else Text.Sanitised(g.unicode, req.subdomain),
              k,
              (if d.port in {443, 5001, 8006, 8443, 8448, 8920, 9443} then "https://" else "http://")
                + d.ip + ":" + Text.Itoa(d.port),
              match req.icon case File(written) => (if written then "file" else "") case NoFile => d.icon,
              req.category,
              order,
              d.source,
              d.containerID, d.containerName,
              nu.dnsRecordID, nu.tunnelRouteID,
              req.skipHealth,
              req.directOnly,
              now)
  {
    hide Text.Sanitised, Reconcile, Text.Itoa, Catalog.UniqueShelf, Catalog.Find, Catalog.Step;
    Catalog.FindByID(s.shelves.discovered, d);
    TargetInWords(d);
  }

  lemma TargetInWords(d: Discovered)
    ensures TargetOf(d) == (if d.port in {443, 5001, 8006, 8443, 8448, 8920, 9443} then "https://" else "http://")
                           + d.ip + ":" + Text.Itoa(d.port)
  {
    assert "https" + "://" == "https://" && "http" + "://" == "http://";
  }

  /** The display order that a create takes is one past the largest, and 1 if no service has a positive one. */
  lemma OrderInWords(services: Catalog.Services, n: int)
    ensures NextOrder(services, n) <==>
      && (forall k | k in services :: services[k].order < n)
      && ((n == 1 && forall k | k in services :: services[k].order <= 0)
          || (n > 1 && exists k :: k in services && services[k].order == n - 1))
  {
  }

  lemma CreatedLeavesList(g: Setting, a: Account, s: Sys, req: CreateRequest, id: string, order: int, now: int,
                          d: Discovered)
    requires Create(g, a, s, req, id, order, now).1 == NoContent && req.discoveredID != ""
    requires d in s.shelves.discovered && d.id == req.discoveredID && Catalog.UniqueShelf(s.shelves.discovered)
    ensures var after := Create(g, a, s, req, id, order, now).0.shelves;
      && after.ignored == s.shelves.ignored && after.keys == s.shelves.keys
      && forall x :: x in after.discovered <==> x in s.shelves.discovered && x != d
  {
    hide Draft, Reconcile;
    Accepted(g, s, req, id, order, now);
    Catalog.FilterMembers(s.shelves.discovered, Catalog.NotID(d.id));
    forall x | x in s.shelves.discovered && x.id == d.id ensures x == d {
      Catalog.FindByID(s.shelves.discovered, d);
      Catalog.FindByID(s.shelves.discovered, x);
    }
  }

  /** A hostname that leads through the tunnel to the target, by one rule and one CNAME. */
  ghost predicate Tunnels(a: Account, r: Remote, host: string, target: string, id: string) {
    && Only(r.ingress, host) == [Rule(host, target)] && Lookup(r.ingress, host) == Some(target)
    && id in r.records && r.records[id] == Record(CNAME, host, a.tunnelID + ".cfargotunnel.com")
    && (forall i | i in r.records && r.records[i].name == host :: i == id)
  }

  /** A hostname that leads to the server, if that has an address, and not through the tunnel. */
  ghost predicate Points(g: Setting, r: Remote, host: string, id: string) {
    && Only(r.ingress, host) == [] && Lookup(r.ingress, host) == None
    && (g.env.serverIP != "" ==> id in r.records && r.records[id] == Record(A, host, g.env.serverIP))
    && (forall i | i in r.records && r.records[i].name == host :: g.env.serverIP != "" && i == id)
  }

  /** The service is published one way or the other, as its route says. */
  lemma PublishedOneWay(g: Setting, a: Account, o: Outside, s: Sys, k: string)
    requires a.Endpoint() == o.endpoint && Good(g, o, s) && k in s.services && !s.services[k].directOnly
    ensures var svc, host := s.services[k], g.env.Host(k);
      if svc.tunnelRouteID != "" then Tunnels(a, s.remote, host, svc.target, svc.dnsRecordID)
      else Points(g, s.remote, host, svc.dnsRecordID)
  {
    var svc, host := s.services[k], g.env.Host(k);
    PublishedByHost(g.env, o, s.services, s.remote, k);
    assert Coherent(g.env, o, k, svc) && Holds(g.env, o, svc, s.remote);
    HostInjective(g.env, k, k);
    if svc.tunnelRouteID != "" {
      assert Routes(g.env, s.services, k, host);
    }
  }

  /** When the client works, a service has a route afterwards exactly when one was wanted. */
  lemma RouteAsWanted(g: Setting, o: Outside, a: Account, r: Remote, rest: map<string, Service>,
                      was: Option<Service>, nu: Option<Service>, want: DnsState)
    requires Working(g, a, o) && Change(g.env, o, g.world, a, r, rest, was, nu, want)
    ensures Reconcile(g.env, g.world, a, r, StateOfOption(was), want).routeID != "" <==>
            want.tunnel && !want.directOnly
  {
    ChangeReady(g.env, o, g.world, a, r, rest, was, nu, want);
    HostInjective(g.env, want.subdomain, want.subdomain);
    hide Change;
    if PlanDNS(StateOfOption(was), want) != Noop {
      hide Reconcile, Rerouted, Swapped, Ready, Leaks;
      AbleToTakeDown(a, StateOfOption(was), want);
      ReconcileEffect(g.env, g.world, a, r, StateOfOption(was), want);
    }
  }

  /** What a create request asks for is what it gets: a route when the tunnel was asked for, otherwise an A
      record, and nothing at all for a direct link. */
  lemma CreatedAsAsked(g: Setting, a: Account, o: Outside, s: Sys, req: CreateRequest, id: string, order: int, now: int)
    requires Working(g, a, o) && Good(g, o, s) && Fair(g, a, o, s, CreateReq(req, id, order, now))
    requires Create(g, a, s, req, id, order, now).1 == NoContent
    ensures var s' := Create(g, a, s, req, id, order, now).0; var k := CreatedKey(g, req, id);
      && k !in s.services && k in s'.services
      && var nu, host := s'.services[k], k + "." + g.env.domain;
      && (nu.tunnelRouteID != "" <==> req.tunnel && !req.directOnly)
      && if req.directOnly then s'.remote == s.remote && nu.dnsRecordID == ""
         else if req.tunnel then Tunnels(a, s'.remote, host, nu.target, nu.dnsRecordID)
         else Points(g, s'.remote, host, nu.dnsRecordID)
  {
    hide Good, Reconcile, Tunnels, Points, Draft;
    var s' := Create(g, a, s, req, id, order, now).0;
    Accepted(g, s, req, id, order, now);
    CreatedRoute(g, a, o, s, req, id, order, now);
    CreateGood(g, a, o, s, req, id, order, now);
    if !req.directOnly {
      PublishedOneWay(g, a, o, s', CreatedKey(g, req, id));
    }
  }

  lemma DraftInWords(g: Setting, s: Sys, req: CreateRequest, id: string, order: int, now: int)
    requires DraftIn(g, s, req, id, order, now).0.Some?
    ensures var draft := DraftIn(g, s, req, id, order, now).0.value;
      draft.subdomain == CreatedKey(g, req, id) && draft.directOnly == req.directOnly && draft.id == id
  {
    hide Text.Sanitised;
  }

  lemma CreatedRoute(g: Setting, a: Account, o: Outside, s: Sys, req: CreateRequest, id: string, order: int, now: int)
    requires Working(g, a, o) && Good(g, o, s) && Fair(g, a, o, s, CreateReq(req, id, order, now))
    requires DraftIn(g, s, req, id, order, now).0.Some?
    ensures var s' := Create(g, a, s, req, id, order, now).0; var k := CreatedKey(g, req, id);
      && k !in s.services && k in s'.services
      && var nu := s'.services[k];
      && nu.directOnly == req.directOnly
      && (nu.tunnelRouteID != "" <==> req.tunnel && !req.directOnly)
      && (req.directOnly ==> s'.remote == s.remote && nu.dnsRecordID == "")
  {
    hide Tracked, Published, FreshIds, KeysFormed, DraftIn, Reconcile;
    var draft := DraftIn(g, s, req, id, order, now).0.value;
    DraftInWords(g, s, req, id, order, now);
    DraftKeyFree(g, s, req, id, order, now);
    var want := CreateWant(draft, req.tunnel);
    var r := Reconcile(g.env, g.world, a, s.remote, UNPUBLISHED, want);
    var svc := WithRecord(draft, r);
    assert With(s.services, None) == s.services;
    RouteAsWanted(g, o, a, s.remote, s.services, None, Some(svc), want);
    NothingSentIff(g.env, g.world, a, s.remote, UNPUBLISHED, want);
  }

  // ---- Update ---------------------------------------------------------------------------------------------

  /** The key that an edit asks for: direct services are keyed by their ID, others by the text, if it has a
      letter or digit. */
  function EditedKey(g: Setting, svc: Service, edit: UpdateRequest): string {
    if (match edit.directOnly case Some(b) => b case None => svc.directOnly) then
      if svc.directOnly then svc.subdomain else "_direct_" + svc.id
    else if Text.Blank(g.unicode, edit.subdomain) then "service"
    else Text.Normalised(g.unicode, edit.subdomain)
  }

  /** Whether an edit asks for the tunnel; a service that is to be direct has none. */
  predicate AsksTunnel(svc: Service, edit: UpdateRequest) {
    match edit.tunnel case Some(b) => b case None => svc.tunnelRouteID != ""
  }

  /** An edit of a service nobody has is refused and changes nothing. */
  lemma UpdateStatus(g: Setting, a: Account, s: Sys, id: string, edit: UpdateRequest)
    ensures var (s', status) := Update(g, a, s, id, edit);
      if exists k :: k in s.services && s.services[k].id == id then status == NoContent
      else status == NotFound && s' == s
  {
    hide Reconcile;
    assert forall k :: Catalog.At(s.services, k, Catalog.HasID(id)) <==> k in s.services && s.services[k].id == id;
  }

  /** Every field of an edited service: what the edit gives, and otherwise what it was. */
  lemma EditedService(g: Setting, a: Account, s: Sys, k: string, edit: UpdateRequest)
    requires Catalog.DistinctIDs(s.services) && k in s.services
    ensures var svc := s.services[k]; var s' := Update(g, a, s, svc.id, edit).0; var l := EditedKey(g, svc, edit);
      && s'.shelves == s.shelves
      && l in s'.services && s'.services == (s.services - {k})[l := s'.services[l]]
      && var nu := s'.services[l];
      nu == Service(
              svc.id,
              if edit.name != "" then edit.name else svc.name,
              l,
              if edit.target != "" then edit.target else svc.target,
              match edit.icon case Some(icon) => icon case None => svc.icon,
              edit.category,
              svc.order,
              svc.source,
              svc.containerID, svc.containerName,
              nu.dnsRecordID, nu.tunnelRouteID,
              match edit.skipHealth case Some(b) => b case None => svc.skipHealth,
              match edit.directOnly case Some(b) => b case None => svc.directOnly,
              svc.createdAt)
  {
    hide Reconcile, NewKey, EditedKey;
    Catalog.KeyByID(s.services, k);
    KeyInWords(g, s.services[k], edit);
  }

  /** What an edit asks for is what the service has afterwards: a route exactly when the tunnel is asked for,
      or was there and is not spoken of, and the service is not to be direct; its hostname then leads to the
      target by the tunnel, or to the server. */
  lemma EditedAsAsked(g: Setting, a: Account, o: Outside, s: Sys, k: string, edit: UpdateRequest)
    requires Working(g, a, o) && Good(g, o, s) && k in s.services
    requires Fair(g, a, o, s, UpdateReq(s.services[k].id, edit))
    ensures var svc := s.services[k]; var s' := Update(g, a, s, svc.id, edit).0; var l := EditedKey(g, svc, edit);
      && l in s'.services
      && var nu, host := s'.services[l], l + "." + g.env.domain;
      && (nu.tunnelRouteID != "" <==> AsksTunnel(svc, edit) && !nu.directOnly)
      && if nu.directOnly then nu.dnsRecordID == ""
         else if AsksTunnel(svc, edit) then Tunnels(a, s'.remote, host, nu.target, nu.dnsRecordID)
         else Points(g, s'.remote, host, nu.dnsRecordID)
  {
    hide Reconcile, Tunnels, Points, Good, Fair, NewKey, EditedKey;
    var svc := s.services[k];
    var l := EditedKey(g, svc, edit);
    var s' := Update(g, a, s, svc.id, edit).0;
    assert Catalog.DistinctIDs(s.services) by {
      GoodIDs(g, o, s);
    }
    EditedService(g, a, s, k, edit);
    UpdateGood(g, a, o, s, svc.id, edit);
    KeyInWords(g, svc, edit);
    EditedRoute(g, a, o, s, k, edit);
    if !s'.services[l].directOnly {
      PublishedOneWay(g, a, o, s', l);
    } else {
      DirectHasNothing(g, o, s', l);
    }
  }

  lemma EditedRoute(g: Setting, a: Account, o: Outside, s: Sys, k: string, edit: UpdateRequest)
    requires Working(g, a, o) && Good(g, o, s) && k in s.services
    requires Fair(g, a, o, s, UpdateReq(s.services[k].id, edit))
    ensures var svc := s.services[k]; var s' := Update(g, a, s, svc.id, edit).0; var l := NewKey(g, svc, edit);
      && l in s'.services
      && (s'.services[l].tunnelRouteID != "" <==> AsksTunnel(svc, edit) && !s'.services[l].directOnly)
  {
    hide Reconcile, Good, Fair, Working, Change, NewKey;
    var svc := s.services[k];
    var want := UpdateWant(g, svc, edit);
    var r := Reconcile(g.env, g.world, a, s.remote, StateOf(svc), want);
    UpdateChange(g, a, o, s, k, edit);
    RouteAsWanted(g, o, a, s.remote, s.services - {k}, Some(svc), Some(WithRecord(Revised(g, svc, edit), r)), want);
  }

  lemma KeyInWords(g: Setting, svc: Service, edit: UpdateRequest)
    ensures NewKey(g, svc, edit) == EditedKey(g, svc, edit)
  {
    hide Text.Normalised, Text.Blank;
    Text.NormalisedNoneIff(g.unicode, edit.subdomain);
  }

  lemma GoodIDs(g: Setting, o: Outside, s: Sys)
    requires Good(g, o, s)
    ensures Catalog.DistinctIDs(s.services)
  {
  }

  lemma DirectHasNothing(g: Setting, o: Outside, s: Sys, k: string)
    requires Good(g, o, s) && k in s.services && s.services[k].directOnly
    ensures s.services[k].dnsRecordID == "" && s.services[k].tunnelRouteID == ""
  {
    assert Coherent(g.env, o, k, s.services[k]);
  }

  /** The edit asks for what there is: a direct link still, or the same subdomain and way, and by the tunnel the
      same target. */
  predicate AsksSame(g: Setting, svc: Service, edit: UpdateRequest) {
    var direct := match edit.directOnly case Some(b) => b case None => svc.directOnly;
    var target := if edit.target != "" then edit.target else svc.target;
    && direct == svc.directOnly
    && (direct || (&& AsksTunnel(svc, edit) == (svc.tunnelRouteID != "") && EditedKey(g, svc, edit) == svc.subdomain
                   && (AsksTunnel(svc, edit) ==> target == svc.target)))
  }

  /** The service has nothing published, and the client cannot publish what the edit asks for. */
  predicate AsksInVain(g: Setting, a: Account, svc: Service, edit: UpdateRequest) {
    && svc.dnsRecordID == "" && svc.tunnelRouteID == ""
    && ((match edit.directOnly case Some(b) => b case None => svc.directOnly)
        || a.noop || if AsksTunnel(svc, edit) then a.tunnelID == "" || a.accountID == "" else g.env.serverIP == "")
  }

  /** Whatever becomes of requests, an edit sends none and leaves the service its record and route exactly when
      it asks for what there is, or in vain. */
  lemma EditSendsNothingIff(g: Setting, a: Account, s: Sys, k: string, edit: UpdateRequest)
    requires Catalog.DistinctIDs(s.services) && k in s.services
    ensures var svc := s.services[k]; var s' := Update(g, a, s, svc.id, edit).0; var l := EditedKey(g, svc, edit);
      && l in s'.services
      && (s'.remote == s.remote && s'.services[l].dnsRecordID == svc.dnsRecordID
          && s'.services[l].tunnelRouteID == svc.tunnelRouteID
          <==> AsksSame(g, svc, edit) || AsksInVain(g, a, svc, edit))
  {
    hide Reconcile, NewKey, EditedKey;
    var svc := s.services[k];
    Catalog.KeyByID(s.services, k);
    KeyInWords(g, svc, edit);
    NothingSentIff(g.env, g.world, a, s.remote, StateOf(svc), UpdateWant(g, svc, edit));
  }

  // ---- Delete ---------------------------------------------------------------------------------------------

  /** After a delete the service is gone, and its hostname leads nowhere any more. */
  lemma DeletedAsAsked(g: Setting, a: Account, o: Outside, s: Sys, k: string, newID: string, now: int)
    requires Working(g, a, o) && Good(g, o, s) && k in s.services
    ensures var s' := Handlers.Delete(g, a, s, s.services[k].id, newID, now).0; var host := k + "." + g.env.domain;
      && s'.services == s.services - {k}
      && (!s.services[k].directOnly ==>
            && Lookup(s'.remote.ingress, host) == None
            && (forall i | i in s'.remote.records :: s'.remote.records[i].name != host))
      && (s.services[k].directOnly ==> s'.remote == s.remote)
  {
    hide Good, Withdraw, Catalog.Step;
    var s' := Handlers.Delete(g, a, s, s.services[k].id, newID, now).0;
    DeletedKey(g, o, s, k);
    DeleteGood(g, a, o, s, s.services[k].id, newID, now);
    if !s.services[k].directOnly {
      NothingLeft(g, o, s, s', k);
    } else {
      DirectHasNothing(g, o, s, k);
      NothingTaken(g, a, s.remote);
    }
  }

  lemma NothingTaken(g: Setting, a: Account, r: Remote)
    ensures Withdraw(g.world, a, r, "", "") == r
  {
  }

  lemma DeletedKey(g: Setting, o: Outside, s: Sys, k: string)
    requires Good(g, o, s) && k in s.services
    ensures Catalog.KeyWhere(s.services, Catalog.HasID(s.services[k].id)) == Some(k)
  {
    Catalog.KeyByID(s.services, k);
  }

  lemma NothingLeft(g: Setting, o: Outside, s: Sys, s': Sys, k: string)
    requires Good(g, o, s) && Good(g, o, s') && k in s.services && !s.services[k].directOnly && k !in s'.services
    ensures Lookup(s'.remote.ingress, g.env.Host(k)) == None
    ensures forall i | i in s'.remote.records :: s'.remote.records[i].name != g.env.Host(k)
  {
    assert Coherent(g.env, o, k, s.services[k]);
    NothingPublished(g.env, o, s'.services, s'.remote, k);
    LookupOnly(o.ingress, g.env.Host(k));
  }

  /** A container that loses its service so is listed again, without an address, unless it is listed already or
      another entry has none. */
  lemma DeletedListed(g: Setting, a: Account, s: Sys, k: string, newID: string, now: int)
    requires Catalog.DistinctIDs(s.services) && k in s.services
    ensures var svc, ds := s.services[k], s.shelves.discovered;
      var after := Handlers.Delete(g, a, s, svc.id, newID, now).0.shelves;
      && after.ignored == s.shelves.ignored && after.keys == s.shelves.keys
      && after.discovered ==
         if svc.source != "docker" || svc.containerID == ""
            || (exists d :: d in ds && (d.containerID == svc.containerID || (d.ip == "" && d.port == 0)))
         then ds
         else ds + [Discovered(newID, "", 0, svc.name, "", "", 0, "docker", svc.containerName, svc.containerID, "",
                               now)]
  {
    hide Withdraw;
    Catalog.KeyByID(s.services, k);
    var svc, ds := s.services[k], s.shelves.discovered;
    assert (exists d :: d in ds && (d.containerID == svc.containerID || (d.ip == "" && d.port == 0))) <==>
           exists i | 0 <= i < |ds| :: ds[i].containerID == svc.containerID || Catalog.SameEndpoint(ds[i], "", 0);
  }
}
