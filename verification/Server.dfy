/**
 The web server's service handlers as they run, on the indexed store and the Cloudflare client
 (internal/web/handle_services.go, internal/web/handle_discovery.go:87-121). Each is proved to do what
 module Handlers says.
 */
module WebServer {
  import opened Common
  import opened Entities
  import opened Cloudflare
  import opened CfClient
  import opened Dns
  import opened Handlers
  import opened IndexedStore
  import Catalog
  import Text

  class Server {
    const env: Env
    const unicode: Text.Unicode
    const store: Store
    const cf: Client

    constructor (env: Env, unicode: Text.Unicode, store: Store, cf: Client)
      ensures this.env == env && this.unicode == unicode && this.store == store && this.cf == cf
    {
      this.env, this.unicode, this.store, this.cf := env, unicode, store, cf;
    }

    ghost function Setting(): Setting {
      Handlers.Setting(env, unicode, cf.world)
    }

    ghost function View(): Sys
      reads store`services, store.services.Values, store`discovered, store.discovered, store`ignored,
            store`ignoredIPPortIdx, cf`remote
    {
      Sys(store.Services(), store.Shelves(), cf.remote)
    }

    method ReconcileDNS(was: DnsState, want: DnsState) returns (dnsID: string, tunnelRouteID: string)
      modifies cf`remote
      ensures Reconciled(cf.remote, dnsID, tunnelRouteID) ==
              Reconcile(env, cf.world, cf.Config(), old(cf.remote), was, want)
    {
      var oldHostname, newHostname := env.Host(was.subdomain), env.Host(want.subdomain);
      match PlanDNS(was, want) {
        case Noop =>
          return was.dnsRecordID, was.tunnelRouteID;
        case CreateA =>
          if env.serverIP != "" {
            var id := cf.CreateRecord(newHostname, env.serverIP);
            if id.Some? {
              return id.value, "";
            }
          }
        case DeleteAll =>
          if was.tunnelRouteID != "" {
            var _ := cf.RemoveTunnelRoute(was.tunnelRouteID, was.dnsRecordID);
          } else if was.dnsRecordID != "" {
            var _ := cf.DeleteRecord(was.dnsRecordID);
          }
        case SwapA =>
          if was.dnsRecordID != "" {
            var _ := cf.DeleteRecord(was.dnsRecordID);
          }
          if env.serverIP != "" {
            var id := cf.CreateRecord(newHostname, env.serverIP);
            if id.Some? {
              return id.value, "";
            }
          }
        case CreateTunnel =>
          if cf.Config().TunnelEnabled() {
            var id := cf.AddTunnelRoute(newHostname, want.target);
            if id.Some? {
              return id.value, newHostname;
            }
          }
        case AToTunnel =>
          if cf.Config().TunnelEnabled() {
            if was.dnsRecordID != "" {
              var _ := cf.DeleteRecord(was.dnsRecordID);
            }
            var id := cf.AddTunnelRoute(newHostname, want.target);
            if id.Some? {
              return id.value, newHostname;
            }
          }
        case TunnelToA =>
          var _ := cf.RemoveTunnelRoute(was.tunnelRouteID, was.dnsRecordID);
          if env.serverIP != "" {
            var id := cf.CreateRecord(newHostname, env.serverIP);
            if id.Some? {
              return id.value, "";
            }
          }
        case ReplaceTunnel =>
          if cf.Config().TunnelEnabled() {
            var id := cf.ReplaceTunnelRoute(oldHostname, newHostname, want.target, was.dnsRecordID);
            if id.None? {
              return was.dnsRecordID, was.tunnelRouteID;
            }
            return id.value, newHostname;
          }
      }
      return "", "";
    }

    ghost predicate Valid()
      reads store`services, store.services.Values, store`idIdx, store`containerIDIdx, store`containerNameIdx,
            store`discovered, store.discovered, store`ignored, store`ignoredIPPortIdx, store`ignoredIdx,
            store`discoveredIdx, store`discoveredContainerIdx
    {
      store.ServicesValid() && store.ShelvesValid()
    }

    method UpdateService(id: string, req: UpdateRequest) returns (status: Status)
      requires Valid()
      modifies store`services, store`idIdx, store`containerIDIdx, store`containerNameIdx, cf`remote
      ensures (View(), status) == Update(Setting(), cf.Config(), old(View()), id, req)
      ensures Valid() <==> KeyFree(Setting(), old(View()), id, req)
    {
      hide Reconcile, Store.ServicesValid, Store.ShelvesValid, Store.Services, Store.Shelves, Catalog.Unique, Revised,
           UpdateWant, NewKey, KeyFree, Catalog.UpdateService, Catalog.KeyWhere, Catalog.Fits;
      ghost var s := View();
      store.UniqueData();
      var found := store.GetServiceByID(id);
      if found.None? {
        MissingIsFree(Setting(), s, id, req);
        return NotFound;
      }
      var svc := found.value.v;
      var g := Handlers.Setting(env, unicode, cf.world);
      var dnsID, routeID := ReconcileDNS(StateOf(svc), UpdateWant(g, svc, req));
      var updated := new Ref(Revised(g, svc, req).(dnsRecordID := dnsID, tunnelRouteID := routeID));
      UpdateFits(g, s, id, req, dnsID, routeID);
      var _, _ := store.UpdateService(id, updated);
      status := NoContent;
    }

    method MaxOrder() returns (m: int)
      ensures NextOrder(store.Services(), m + 1)
    {
      m := 0;
      var todo := store.services.Keys;
      while todo != {}
        invariant todo <= store.services.Keys && m >= 0
        invariant forall k | k in store.services && k !in todo :: store.services[k].v.order <= m
        invariant m == 0 || exists k :: k in store.services && store.services[k].v.order == m
      {
        var k :| k in todo;
        if store.services[k].v.order > m {
          m := store.services[k].v.order;
        }
        todo := todo - {k};
      }
      if k :| k in store.services && store.services[k].v.order == m {
        assert store.Services()[k].order == m;
      }
    }

    /** The first half of createService: validate the request and build the service. */
    method Prepare(req: CreateRequest, id: string, now: int)
      returns (draft: Option<Service>, status: Status, ghost order: int)
      requires Valid()
      ensures NextOrder(View().services, order)
      ensures (draft, status) == DraftIn(Setting(), View(), req, id, order, now)
    {
      hide Store.ServicesValid, Store.ShelvesValid, Store.Services, Store.Shelves, Catalog.Find, NextOrder, Draft;
      var g := Handlers.Setting(env, unicode, cf.world);
      var sub := Text.SanitiseSubdomain(unicode, req.subdomain);
      var taken := store.GetServiceBySubdomain(sub);
      var disc: Option<Discovered> := None;
      if req.discoveredID != "" {
        var found := store.GetDiscoveredByID(req.discoveredID);
        if found.Some? {
          disc := Some(found.value.v);
        }
      }
      var m := MaxOrder();
      order := m + 1;
      var drafted := Draft(g, taken.Some?, disc, req, id, m + 1, now);
      draft, status := drafted.0, drafted.1;
      DraftIgnoresOther(g, taken.Some?, disc, Catalog.Find(View().shelves.discovered, Catalog.IsID(req.discoveredID)),
                        req, id, m + 1, now);
    }

    method CreateService(req: CreateRequest, id: string, now: int) returns (status: Status, ghost order: int)
      requires Valid()
      modifies store`services, store`idIdx, store`containerIDIdx, store`containerNameIdx,
               store`discovered, store`discoveredIdx, store`discoveredContainerIdx, cf`remote
      ensures NextOrder(old(View()).services, order)
      ensures (View(), status) == Create(Setting(), cf.Config(), old(View()), req, id, order, now)
      ensures var draft := DraftIn(Setting(), old(View()), req, id, order, now).0;
        && ((draft.Some? ==> Catalog.Fits(old(View()).services, draft.value)) ==> Valid())
        && (draft.Some? && Catalog.NewAt(old(View()).services, draft.value) && Valid() ==>
              Catalog.Fits(old(View()).services, draft.value))
    {
      hide Reconcile, Store.ServicesValid, Store.ShelvesValid, Store.Services, Store.Shelves, Catalog.AddService,
           Catalog.Step, Catalog.Fits, Catalog.NewAt, NextOrder, DraftIn, CreateWant;
      ghost var s := View();
      var draft: Option<Service>;
      draft, status, order := Prepare(req, id, now);
      if draft.None? {
        return;
      }
      var dnsID, routeID := ReconcileDNS(UNPUBLISHED, CreateWant(draft.value, req.tunnel));
      var svc := new Ref(draft.value.(dnsRecordID := dnsID, tunnelRouteID := routeID));
      FitsWithRecord(s.services, draft.value, dnsID, routeID);
      Register(svc, req.discoveredID);
    }

    /** The end of createService: the new service goes in, the entry it was made from goes away. */
    method Register(svc: Ref<Service>, discoveredID: string)
      requires Valid()
      modifies store`services, store`idIdx, store`containerIDIdx, store`containerNameIdx,
               store`discovered, store`discoveredIdx, store`discoveredContainerIdx
      ensures store.Services() == Catalog.AddService(old(store.Services()), svc.v)
      ensures store.Shelves() == if discoveredID == "" then old(store.Shelves())
                                 else Catalog.Step(Catalog.Remove(discoveredID), old(store.Shelves()))
      ensures Catalog.Fits(old(store.Services()), svc.v) ==> Valid()
      ensures Catalog.NewAt(old(store.Services()), svc.v) && Valid() ==> Catalog.Fits(old(store.Services()), svc.v)
    {
      hide Store.ServicesValid, Store.ShelvesValid, Store.Services, Store.Shelves, Catalog.AddService, Catalog.Step,
           Catalog.Fits, Catalog.NewAt;
      store.AddService(svc);
      if discoveredID != "" {
        store.RemoveDiscovered(discoveredID);
      }
    }

    method Unpublish(tunnelRoute: string, dnsID: string)
      modifies cf`remote
      ensures cf.remote == Withdraw(cf.world, cf.Config(), old(cf.remote), tunnelRoute, dnsID)
    {
      if tunnelRoute != "" {
        var _ := cf.RemoveTunnelRoute(tunnelRoute, dnsID);
      } else if dnsID != "" {
        var _ := cf.DeleteRecord(dnsID);
      }
    }

    method DeleteService(id: string, newID: string, now: int) returns (status: Status)
      requires Valid()
      modifies store`services, store`idIdx, store`containerIDIdx, store`containerNameIdx,
               store`discovered, store`discoveredIdx, store`discoveredContainerIdx, cf`remote
      ensures (View(), status) == Handlers.Delete(Setting(), cf.Config(), old(View()), id, newID, now)
      ensures Catalog.FreshID(old(View()).shelves, newID) ==> Valid()
    {
      hide Store.ServicesValid, Store.ShelvesValid, Store.Services, Store.Shelves, Catalog.DeleteService,
           Catalog.KeyWhere, Catalog.Step, Catalog.FreshID, Withdraw;
      var found := store.GetServiceByID(id);
      if found.None? {
        return Ok;
      }
      var svc := found.value.v;
      var _, dnsID, tunnelRoute := store.DeleteService(id);
      Unpublish(tunnelRoute, dnsID);
      Relist(svc, newID, now);
      status := Ok;
    }

    /** The end of deleteService: an attached container goes back on the discovered list. */
    method Relist(svc: Service, newID: string, now: int)
      requires Valid()
      modifies store`discovered, store`discoveredIdx, store`discoveredContainerIdx
      ensures store.Shelves() == if svc.source == SOURCE_DOCKER && svc.containerID != "" then
                                   Catalog.Step(Catalog.Add(Rediscovered(svc, newID, now)), old(store.Shelves()))
                                 else old(store.Shelves())
      ensures Catalog.FreshID(old(store.Shelves()), newID) ==> Valid()
    {
      hide Store.ServicesValid, Store.ShelvesValid, Store.Services, Store.Shelves, Catalog.Step, Catalog.FreshID;
      if svc.source == SOURCE_DOCKER && svc.containerID != "" {
        var d := new Ref(Rediscovered(svc, newID, now));
        store.AddDiscovered(d);
      }
    }

    method IgnoreDiscovered(id: string, now: int) returns (ok: bool)
      requires store.ShelvesValid()
      modifies store`discovered, store`discoveredIdx, store`discoveredContainerIdx, store`ignored, store`ignoredIdx,
               store`ignoredIPPortIdx
      ensures store.ShelvesValid()
      ensures store.Shelves() == Catalog.Step(Catalog.IgnoreOp(id, now), old(store.Shelves()))
      ensures ok <==> exists d :: d in old(store.Shelves()).discovered && d.id == id
    {
      ok := store.IgnoreDiscovered(id, now);
    }

    /** The unignore handler; see Catalog.RestoreBringsBack for what it achieves. */
    method UnignoreService(id: string, now: int) returns (ok: bool)
      requires store.ShelvesValid()
      modifies store`discovered, store`discoveredIdx, store`discoveredContainerIdx, store`ignored, store`ignoredIdx,
               store`ignoredIPPortIdx
      ensures store.ShelvesValid()
      ensures store.Shelves() == Catalog.Step(Catalog.RestoreOp(id, now), old(store.Shelves()))
      ensures ok <==> exists ig :: ig in old(store.ignored) && ig.id == id
    {
      hide Store.ShelvesValid, Catalog.Find;
      store.ShelvesInOrder();
      ghost var s := store.Shelves();
      var ig := store.UnignoreService(id);
      if ig.None? {
        return false;
      }
      Catalog.UnignoredIsFresh(s, id);
      var x := ig.value;
      var d := new Ref(Discovered(x.id, x.ip, x.port, x.title, "", "", 0, SOURCE_NETWORK, "", "", "", now));
      store.AddDiscovered(d);
      ok := true;
    }
  }
}
