/**
 Runs in which service requests and container events are mixed: the store's rules hold through all of
 them, and Cloudflare follows the store up to the one thing container events leave behind.
 */
module MixedRuns {
  import Ingress
  import opened Cloudflare
  import opened Dns
  import opened Tracking
  import opened Handlers
  import opened Docker
  import opened Runs
  import Catalog

  datatype Happening = Asked(q: Request) | Happened(e: Event)

  ghost function Take(g: Setting, a: Account, s: Sys, h: Happening): Sys {
    match h
    case Asked(q) => Handle(g, a, s, q)
    case Happened(e) => Happen(g, s, e)
  }

  ghost function TakeAll(g: Setting, a: Account, s: Sys, hs: seq<Happening>): Sys
    decreases |hs|
  {
    if hs == [] then s else TakeAll(g, a, Take(g, a, s, hs[0]), hs[1..])
  }

  /** A good system whose services also differ in container and container name, as events need. */
  ghost predicate Sound(g: Setting, o: Outside, s: Sys) {
    Good(g, o, s) && Catalog.Unique(s.services)
  }

  /** A created service brings a container, or a container name, that another service has; or a container
      name without being a docker service. */
  ghost predicate Clashes(g: Setting, s: Sys, q: Request) {
    q.CreateReq? &&
    var draft := DraftIn(g, s, q.req, q.id, q.order, q.now).0;
    draft.Some? && !Catalog.Fits(s.services - {draft.value.subdomain}, draft.value)
  }

  /** Requests as in Runs.Fair, without a clash; and no event gives a service behind the tunnel a new
      address. */
  ghost predicate Smooth(g: Setting, a: Account, o: Outside, s: Sys, h: Happening) {
    match h
    case Asked(q) => Fair(g, a, o, s, q) && !Clashes(g, s, q)
    case Happened(e) => !Moves(g, s, e)
  }

  ghost predicate SmoothAll(g: Setting, a: Account, o: Outside, s: Sys, hs: seq<Happening>)
    decreases |hs|
  {
    hs == [] || (Smooth(g, a, o, s, hs[0]) && SmoothAll(g, a, o, Take(g, a, s, hs[0]), hs[1..]))
  }

  lemma ContainersKeepRest(g: Setting, s: Catalog.Services, s': Catalog.Services)
    requires SameButContainer(s, s')
    ensures KeysFormed(s) ==> KeysFormed(s')
    ensures Published(g.env, s) ==> Published(g.env, s')
  {
  }

  /** One container event leaves a sound system good exactly when it moves no published route; the services
      stay apart in any case. */
  lemma EventGoodIff(g: Setting, o: Outside, s: Sys, e: Event)
    requires Sound(g, o, s)
    ensures Good(g, o, Happen(g, s, e)) <==> !Moves(g, s, e)
    ensures Catalog.Unique(Happen(g, s, e).services)
  {
    hide Tracked, Published, FreshIds, Catalog.Unique, KeysFormed, Happen, SameButContainer, Moves, Catalog.DistinctIDs;
    EventKeeps(g, s, e);
    Catalog.UniqueIDs(Happen(g, s, e).services);
    ContainersKeepRest(g, s.services, Happen(g, s, e).services);
    EventTrackedIff(g, o, s, e);
  }

  /** A fair request keeps services apart exactly when it is not a create that clashes. The create handler
      does not look. */
  lemma RequestUniqueIff(g: Setting, a: Account, o: Outside, s: Sys, q: Request)
    requires Sound(g, o, s) && Fair(g, a, o, s, q)
    ensures Catalog.Unique(Handle(g, a, s, q).services) <==> !Clashes(g, s, q)
  {
    hide Tracked, Published, FreshIds, Reconcile, Withdraw, DraftIn;
    match q {
      case CreateReq(req, id, order, now) => CreateUniqueIff(g, a, o, s, req, id, order, now);
      case UpdateReq(id, edit) => UpdateUnique(g, a, o, s, id, edit);
      case DeleteReq(id, newID, now) =>
      case IconReq(id, icon) => IconUnique(s, id, icon);
    }
  }

  lemma CreateUniqueIff(g: Setting, a: Account, o: Outside, s: Sys, req: CreateRequest, id: string, order: int,
                        now: int)
    requires Sound(g, o, s) && Fair(g, a, o, s, CreateReq(req, id, order, now))
    ensures Catalog.Unique(Create(g, a, s, req, id, order, now).0.services) <==>
            !Clashes(g, s, CreateReq(req, id, order, now))
  {
    hide Tracked, Published, FreshIds, Reconcile, Catalog.Unique, Catalog.Fits;
    var draft := DraftIn(g, s, req, id, order, now).0;
    if draft.Some? {
      var svc := draft.value;
      if svc.directOnly && svc.subdomain in s.services {
        DirectKeyIsOwn(g, s, svc.subdomain, id);
      }
      assert s.services - {svc.subdomain} == s.services;
      var r := Reconcile(g.env, g.world, a, s.remote, UNPUBLISHED, CreateWant(svc, req.tunnel));
      FitsWithRecord(s.services, svc, r.dnsID, r.routeID);
      Catalog.AddKeepsUniqueIff(s.services, WithRecord(svc, r));
    }
  }

  lemma UpdateUnique(g: Setting, a: Account, o: Outside, s: Sys, id: string, edit: UpdateRequest)
    requires Sound(g, o, s) && Fair(g, a, o, s, UpdateReq(id, edit))
    ensures Catalog.Unique(Update(g, a, s, id, edit).0.services)
  {
    hide Tracked, Published, FreshIds, Reconcile, Catalog.Unique, Catalog.Fits;
    var found := Catalog.KeyWhere(s.services, Catalog.HasID(id));
    if found.Some? {
      var k := found.value;
      var svc := s.services[k];
      var r := Reconcile(g.env, g.world, a, s.remote, StateOf(svc), UpdateWant(g, svc, edit));
      var nu := WithRecord(Revised(g, svc, edit), r);
      assert KeyFormed(k, svc);
      if nu.directOnly && !svc.directOnly && nu.subdomain in s.services {
        DirectKeyAt(g, s, k, nu.subdomain);
      }
      RevisedFits(s.services, k, nu);
      Catalog.UpdateKeepsUniqueIff(s.services, k, nu);
    }
  }

  lemma IconUnique(s: Sys, id: string, icon: string)
    requires Catalog.Unique(s.services)
    ensures Catalog.Unique(SetIcon(s, id, icon).services)
  {
    hide Catalog.Unique, Catalog.Fits;
    var found := Catalog.KeyWhere(s.services, Catalog.HasID(id));
    if found.Some? {
      var k := found.value;
      assert s.services[k].subdomain == k by {
        Catalog.UniqueKeys(s.services);
      }
      var nu := s.services[k].(icon := icon);
      RevisedFits(s.services, k, nu);
      Catalog.UpdateKeepsUniqueIff(s.services, k, nu);
    }
  }

  /** Any mixture of fair requests and such events, in any order, keeps everything published as the store
      says. */
  lemma {:induction false} MixedStaysGood(g: Setting, a: Account, o: Outside, s: Sys, hs: seq<Happening>)
    requires Working(g, a, o) && Sound(g, o, s) && SmoothAll(g, a, o, s, hs)
    ensures Sound(g, o, TakeAll(g, a, s, hs))
    decreases |hs|
  {
    hide Good, Working, Happen, Handle, Fair, Moves, Clashes, Catalog.Unique;
    if hs != [] {
      match hs[0] {
        case Asked(q) =>
          RequestGood(g, a, o, s, q);
          RequestUniqueIff(g, a, o, s, q);
        case Happened(e) => EventGoodIff(g, o, s, e);
      }
      MixedStaysGood(g, a, o, Take(g, a, s, hs[0]), hs[1..]);
    }
  }

  /** Whatever the mixture, two of them that leave the services configured alike leave hostnames answering
      alike and equal records. */
  lemma MixedPathsAgree(g: Setting, a: Account, o: Outside, s: Sys, hs: seq<Happening>, hs': seq<Happening>)
    requires Working(g, a, o) && Sound(g, o, s) && SmoothAll(g, a, o, s, hs) && SmoothAll(g, a, o, s, hs')
    requires SameConfig(TakeAll(g, a, s, hs).services, TakeAll(g, a, s, hs').services)
    ensures var t, t' := TakeAll(g, a, s, hs), TakeAll(g, a, s, hs');
      && (forall h | h != "" :: Ingress.Lookup(t.remote.ingress, h) == Ingress.Lookup(t'.remote.ingress, h))
      && SameRecords(t.services, t'.services, t.remote, t'.remote)
      && Mirrored(o, t.remote, t'.remote) && Mirrored(o, t'.remote, t.remote)
      && (t.services == t'.services ==> t.remote.records == t'.remote.records)
  {
    hide SmoothAll, TakeAll, Good, SameConfig, SameRecords, Mirrored, Catalog.Unique;
    MixedStaysGood(g, a, o, s, hs);
    MixedStaysGood(g, a, o, s, hs');
    GoodAgree(g, o, TakeAll(g, a, s, hs), TakeAll(g, a, s, hs'));
  }
}
