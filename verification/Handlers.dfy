/**
 The state logic of the service handlers (internal/web/handle_services.go:31-541): what creating,
 editing and deleting a service does to the store and to Cloudflare.
 */
module Handlers {
  import opened Common
  import opened Entities
  import opened Cloudflare
  import opened Dns
  import Catalog
  import Text

  /** Everything a handler can change. */
  datatype Sys = Sys(services: Catalog.Services, shelves: Catalog.Shelves, remote: Remote)

  datatype Status = Ok | NoContent | BadRequest | NotFound | Conflict

  /** An uploaded icon file, and whether writing it to disk works. */
  datatype Upload = NoFile | File(written: bool)

  datatype CreateRequest = CreateRequest(
    discoveredID: string,
    name: string,
    subdomain: string,
    target: string,
    category: string,
    tunnel: bool,
    directOnly: bool,
    skipHealth: bool,
    icon: Upload)

  /** None keeps what the service has. */
  datatype UpdateRequest = UpdateRequest(
    name: string,
    subdomain: string,
    target: string,
    category: string,
    icon: Option<string>,
    tunnel: Option<bool>,
    skipHealth: Option<bool>,
    directOnly: Option<bool>)

  /** The settings that do not change while the server runs. */
  datatype Setting = Setting(env: Env, unicode: Text.Unicode, world: World)

  predicate IsHTTPSPort(port: int) {
    port in {443, 5001, 8006, 8443, 8448, 8920, 9443}
  }

  const DIRECT_PREFIX := "_direct_"

  function OrElse(a: string, b: string): string {
    if a != "" then a else b
  }

  function TargetOf(d: Discovered): string {
    (if IsHTTPSPort(d.port) then "https" else "http") + "://" + d.ip + ":" + Text.Itoa(d.port)
  }

  // ---- Create -------------------------------------------------------------------------------------

  /** The service a create request asks for, before it is published; or why there is none. `taken` says
      whether the subdomain is in use, `disc` is the discovered entry asked for, if it exists. */
  function Draft(g: Setting, taken: bool, disc: Option<Discovered>, req: CreateRequest, id: string, order: int,
                 now: int): (Option<Service>, Status) {
    var sub := Text.Sanitised(g.unicode, req.subdomain);
    var from := if req.discoveredID == "" then None else disc;
    var target := if from.Some? then TargetOf(from.value) else req.target;
    if !req.directOnly && sub == "" then (None, BadRequest)
    else if !req.directOnly && taken then (None, Conflict)
    else if req.discoveredID != "" && disc.None? then (None, NotFound)
    else if target == "" then (None, BadRequest)
    else
      (Some(Service(
         id,
         OrElse(OrElse(req.name, if from.Some? then from.value.title else ""), sub),
         if req.directOnly then DIRECT_PREFIX + id else sub,
         target,
         match req.icon
         case File(written) => if written then ICON_FILE else ""
         case NoFile => if from.Some? then from.value.icon else "",
         req.category,
         order,
         if from.Some? then from.value.source else SOURCE_MANUAL,
         if from.Some? then from.value.containerID else "",
         if from.Some? then from.value.containerName else "",
         "", "",
         req.skipHealth,
         req.directOnly,
         now)), NoContent)
  }

  function DraftIn(g: Setting, s: Sys, req: CreateRequest, id: string, order: int, now: int)
    : (Option<Service>, Status)
  {
    Draft(g, Text.Sanitised(g.unicode, req.subdomain) in s.services,
          Catalog.Find(s.shelves.discovered, Catalog.IsID(req.discoveredID)), req, id, order, now)
  }

  /** One more than the largest display order, and at least 1. */
  ghost predicate NextOrder(services: Catalog.Services, n: int) {
    n >= 1 && (forall k | k in services :: services[k].order < n) &&
    (n == 1 || exists k :: k in services && services[k].order == n - 1)
  }

  lemma DraftIgnoresOther(g: Setting, taken: bool, disc: Option<Discovered>, disc': Option<Discovered>,
                          req: CreateRequest, id: string, order: int, now: int)
    requires req.discoveredID != "" ==> disc == disc'
    ensures Draft(g, taken, disc, req, id, order, now) == Draft(g, taken, disc', req, id, order, now)
  {
  }

  lemma FitsWithRecord(s: Catalog.Services, svc: Service, dnsID: string, routeID: string)
    ensures Catalog.Fits(s, svc.(dnsRecordID := dnsID, tunnelRouteID := routeID)) <==> Catalog.Fits(s, svc)
    ensures Catalog.NewAt(s, svc.(dnsRecordID := dnsID, tunnelRouteID := routeID)) <==> Catalog.NewAt(s, svc)
  {
    var nu := svc.(dnsRecordID := dnsID, tunnelRouteID := routeID);
    assert forall k | k in s :: Catalog.Distinct(s[k], nu) <==> Catalog.Distinct(s[k], svc);
  }

  function CreateWant(draft: Service, tunnel: bool): DnsState {
    DnsState(draft.subdomain, draft.target, draft.directOnly, tunnel, "", "")
  }

  function WithRecord(s: Service, r: Reconciled): Service {
    s.(dnsRecordID := r.dnsID, tunnelRouteID := r.routeID)
  }

  function Create(g: Setting, a: Account, s: Sys, req: CreateRequest, id: string, order: int, now: int): (Sys, Status) {
    var (draft, status) := DraftIn(g, s, req, id, order, now);
    if draft.None? then (s, status)
    else
      var r := Reconcile(g.env, g.world, a, s.remote, UNPUBLISHED, CreateWant(draft.value, req.tunnel));
      (Sys(Catalog.AddService(s.services, WithRecord(draft.value, r)),
           if req.discoveredID == "" then s.shelves else Catalog.Step(Catalog.Remove(req.discoveredID), s.shelves),
           r.remote), status)
  }

  // ---- Update -------------------------------------------------------------------------------------

  /** Whether the service is direct once edited. */
  predicate DirectAfter(svc: Service, req: UpdateRequest) {
    if req.directOnly.Some? then req.directOnly.value else svc.directOnly
  }

  function NewKey(g: Setting, svc: Service, req: UpdateRequest): string {
    if DirectAfter(svc, req) then if svc.directOnly then svc.subdomain else DIRECT_PREFIX + svc.id
    else OrElse(Text.Sanitised(g.unicode, req.subdomain), svc.subdomain)
  }

  function UpdateWant(g: Setting, svc: Service, req: UpdateRequest): DnsState {
    DnsState(
      NewKey(g, svc, req),
      OrElse(req.target, svc.target),
      DirectAfter(svc, req),
      if req.tunnel.Some? then req.tunnel.value else svc.tunnelRouteID != "",
      "", "")
  }

  /** The edited service, before it is republished. */
  function Revised(g: Setting, svc: Service, req: UpdateRequest): Service {
    svc.(name := OrElse(req.name, svc.name),
         subdomain := NewKey(g, svc, req),
         target := OrElse(req.target, svc.target),
         icon := if req.icon.Some? then req.icon.value else svc.icon,
         category := req.category,
         skipHealth := if req.skipHealth.Some? then req.skipHealth.value else svc.skipHealth,
         directOnly := DirectAfter(svc, req))
  }

  ghost function Update(g: Setting, a: Account, s: Sys, id: string, req: UpdateRequest): (Sys, Status) {
    match Catalog.FindWhere(s.services, Catalog.HasID(id))
    case None => (s, NotFound)
    case Some(svc) =>
      var r := Reconcile(g.env, g.world, a, s.remote, StateOf(svc), UpdateWant(g, svc, req));
      (s.(services := Catalog.UpdateService(s.services, id, WithRecord(Revised(g, svc, req), r)), remote := r.remote),
       NoContent)
  }

  /** The edit leaves the service where it is or moves it to a subdomain nobody has. The handler does
      not check this. */
  ghost predicate KeyFree(g: Setting, s: Sys, id: string, req: UpdateRequest) {
    var svc := Catalog.FindWhere(s.services, Catalog.HasID(id));
    svc.Some? ==> var sub := NewKey(g, svc.value, req); sub == svc.value.subdomain || sub !in s.services
  }

  /** An edit keeps the ID, the container and its name, so it fits where the old service was. */
  lemma RevisedFits(services: Catalog.Services, k: string, nu: Service)
    requires Catalog.Unique(services) && k in services && nu.subdomain !in services - {k}
    requires nu.id == services[k].id && nu.containerID == services[k].containerID
    requires nu.containerName == services[k].containerName && nu.source == services[k].source
    ensures Catalog.Fits(services - {k}, nu)
  {
  }

  lemma MissingIsFree(g: Setting, s: Sys, id: string, req: UpdateRequest)
    requires Catalog.FindWhere(s.services, Catalog.HasID(id)).None?
    ensures KeyFree(g, s, id, req)
  {
  }

  /** Exactly the edits that do not move onto another service's subdomain fit among the others. */
  lemma UpdateFits(g: Setting, s: Sys, id: string, req: UpdateRequest, dnsID: string, routeID: string)
    requires Catalog.Unique(s.services)
    ensures var k := Catalog.KeyWhere(s.services, Catalog.HasID(id));
      k.Some? ==>
        Revised(g, s.services[k.value], req).id == id &&
        (Catalog.Fits(s.services - {k.value},
                      Revised(g, s.services[k.value], req).(dnsRecordID := dnsID, tunnelRouteID := routeID))
         <==> KeyFree(g, s, id, req))
  {
  }

  // ---- Delete ---------------------------------------------------------------------------------------

  /** What deleting an attached docker service puts back on the discovered list. */
  function Rediscovered(svc: Service, newID: string, now: int): Discovered {
    Discovered(newID, "", 0, svc.name, "", "", 0, SOURCE_DOCKER, svc.containerName, svc.containerID, "", now)
  }

  ghost function Delete(g: Setting, a: Account, s: Sys, id: string, newID: string, now: int): (Sys, Status) {
    match Catalog.FindWhere(s.services, Catalog.HasID(id))
    case None => (s, Ok)
    case Some(svc) =>
      (Sys(Catalog.DeleteService(s.services, id),
           if svc.source == SOURCE_DOCKER && svc.containerID != "" then
             Catalog.Step(Catalog.Add(Rediscovered(svc, newID, now)), s.shelves)
           else s.shelves,
           Withdraw(g.world, a, s.remote, svc.tunnelRouteID, svc.dnsRecordID)), Ok)
  }

  /** applyServiceIcon and the background favicon fetch. */
  ghost function SetIcon(s: Sys, id: string, icon: string): Sys {
    match Catalog.FindWhere(s.services, Catalog.HasID(id))
    case None => s
    case Some(svc) => s.(services := Catalog.UpdateService(s.services, id, svc.(icon := icon)))
  }

  // ---- Requests ---------------------------------------------------------------------------------------

  datatype Request =
    | CreateReq(req: CreateRequest, id: string, order: int, now: int)
    | UpdateReq(id: string, edit: UpdateRequest)
    | DeleteReq(id: string, newID: string, now: int)
    | IconReq(id: string, icon: string)

  ghost function Handle(g: Setting, a: Account, s: Sys, q: Request): Sys {
    match q
    case CreateReq(req, id, order, now) => Create(g, a, s, req, id, order, now).0
    case UpdateReq(id, edit) => Update(g, a, s, id, edit).0
    case DeleteReq(id, newID, now) => Delete(g, a, s, id, newID, now).0
    case IconReq(id, icon) => SetIcon(s, id, icon)
  }

  ghost function HandleAll(g: Setting, a: Account, s: Sys, qs: seq<Request>): Sys
    decreases |qs|
  {
    if qs == [] then s else HandleAll(g, a, Handle(g, a, s, qs[0]), qs[1..])
  }

  // ---- Keys ---------------------------------------------------------------------------------------------

  /** A service is keyed by the direct prefix and its own ID exactly when it is direct, and by a valid
      label otherwise. */
  ghost predicate KeysFormed(services: Catalog.Services) {
    forall k | k in services :: KeyFormed(k, services[k])
  }

  ghost predicate KeyFormed(k: string, s: Service) {
    && s.subdomain == k
    && (s.directOnly <==> k == DIRECT_PREFIX + s.id)
    && (!s.directOnly ==> Text.Label(k))
  }

  /** A label never looks like the key of a direct service. */
  lemma LabelsAreNotDirect(k: string, id: string)
    requires Text.Label(k)
    ensures k != DIRECT_PREFIX + id
  {
  }

  /** Over every run from an empty store, whatever the remote does and whatever is asked for, keys are
      well formed. */
  lemma {:induction false} KeysStayFormed(g: Setting, a: Account, s: Sys, qs: seq<Request>)
    requires KeysFormed(s.services)
    ensures KeysFormed(HandleAll(g, a, s, qs).services)
    decreases |qs|
  {
    if qs != [] {
      KeysFormedStep(g, a, s, qs[0]);
      KeysStayFormed(g, a, Handle(g, a, s, qs[0]), qs[1..]);
    }
  }

  lemma KeysFormedStep(g: Setting, a: Account, s: Sys, q: Request)
    requires KeysFormed(s.services)
    ensures KeysFormed(Handle(g, a, s, q).services)
  {
    hide Text.Sanitised, Reconcile, Withdraw, Catalog.Step;
    match q {
      case CreateReq(req, id, order, now) =>
        Text.SanitisedIsLabel(g.unicode, req.subdomain);
        LabelsAreNotDirect(Text.Sanitised(g.unicode, req.subdomain), id);
      case UpdateReq(id, edit) =>
        match Catalog.FindWhere(s.services, Catalog.HasID(id)) {
          case None =>
          case Some(svc) =>
            Text.SanitisedIsLabel(g.unicode, edit.subdomain);
            LabelsAreNotDirect(Text.Sanitised(g.unicode, edit.subdomain), svc.id);
        }
      case _ =>
    }
  }

  /** The code falls back to the old subdomain when normalising leaves nothing, but normalising never
      does: an edit to a blank subdomain renames a routed service to "service". An edit keeps the subdomain
      exactly when the text asks for it again, or, of a service that is to be direct, when it was direct or
      was called so. */
  lemma OmittedSubdomainRenames(g: Setting, svc: Service, req: UpdateRequest)
    ensures !DirectAfter(svc, req) && Text.Blank(g.unicode, req.subdomain) ==> NewKey(g, svc, req) == "service"
    ensures NewKey(g, svc, req) == svc.subdomain <==>
            if DirectAfter(svc, req) then svc.directOnly || svc.subdomain == DIRECT_PREFIX + svc.id
            else if Text.Blank(g.unicode, req.subdomain) then svc.subdomain == "service"
            else svc.subdomain == Text.Normalised(g.unicode, req.subdomain)
  {
    Text.NormalisedNoneIff(g.unicode, req.subdomain);
    hide Text.Normalised, Text.Blank;
  }
}
