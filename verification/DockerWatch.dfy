/**
 The Docker watcher as it runs on the indexed store (internal/discovery/docker.go:137-287). Each method
 is proved to do what module Docker says.
 */
module DockerWatch {
  import opened Common
  import opened Entities
  import opened Docker
  import Cloudflare
  import opened Handlers
  import opened IndexedStore
  import Catalog
  import Text

  method PickPort(ports: seq<Port>) returns (port: nat)
    ensures port == BestPort(ports)
  {
    var portSet: set<nat> := {};
    for i := 0 to |ports|
      invariant forall n :: n in portSet <==> Publishes(ports[..i], n)
    {
      if ports[i].proto == "tcp" && ports[i].public > 0 {
        portSet := portSet + {ports[i].public};
      }
    }
    assert ports[..|ports|] == ports;
    for i := 0 to |PREFERRED|
      invariant FirstOf(PREFERRED, ports) == FirstOf(PREFERRED[i..], ports)
    {
      if PREFERRED[i] in portSet {
        return PREFERRED[i];
      }
    }
    for i := 0 to |ports|
      invariant FirstTCP(ports) == FirstTCP(ports[i..])
    {
      if ports[i].proto == "tcp" && ports[i].public > 0 {
        return ports[i].public;
      }
    }
    return 0;
  }

  class Watcher {
    const g: Setting
    const store: Store

    constructor (g: Setting, store: Store)
      ensures this.g == g && this.store == store
    {
      this.g, this.store := g, store;
    }

    ghost predicate Valid()
      reads store`services, store.services.Values, store`idIdx, store`containerIDIdx, store`containerNameIdx,
            store`discovered, store.discovered, store`ignored, store`ignoredIPPortIdx, store`ignoredIdx,
            store`discoveredIdx, store`discoveredContainerIdx
    {
      store.ServicesValid() && store.ShelvesValid()
    }

    method ResolveContainer(c: Container, seen: Seen) returns (info: Option<Info>)
      ensures info == Resolve(g, c, seen)
    {
      var name := c.name;
      var subdomain := Text.SanitiseSubdomain(g.unicode, c.name);
      if c.Label(LABEL_NAME) != "" {
        name := c.Label(LABEL_NAME);
      }
      if c.Label(LABEL_URL) != "" {
        if c.Label(LABEL_SUBDOMAIN) != "" {
          subdomain := Text.SanitiseSubdomain(g.unicode, c.Label(LABEL_SUBDOMAIN));
        }
        return Some(Info(name, subdomain, c.Label(LABEL_URL)));
      }
      if c.Label(LABEL_SUBDOMAIN) != "" {
        subdomain := Text.SanitiseSubdomain(g.unicode, c.Label(LABEL_SUBDOMAIN));
      } else if seen.traefikSubdomain != "" {
        subdomain := seen.traefikSubdomain;
      }
      var port := 0;
      if c.Label(LABEL_PORT) != "" {
        port := Text.Atoi(c.Label(LABEL_PORT));
      }
      if port == 0 {
        port := seen.traefikPort;
      }
      if port == 0 {
        port := PickPort(c.ports);
      }
      if port == 0 {
        return None;
      }
      var scheme := c.Label(LABEL_SCHEME);
      if scheme != "https" && scheme != "http" {
        scheme := seen.scheme;
      }
      return Some(Info(name, subdomain, TargetFor(scheme, g.env.serverIP, port)));
    }

    method DetachContainer(cid: string)
      requires Valid()
      modifies store`containerIDIdx, store.services.Values, store`discovered, store`discoveredIdx,
               store`discoveredContainerIdx
      ensures Valid() <==> cid != "" || forall d | d in old(store.Shelves()).discovered :: d.containerID != ""
      ensures store.Services() == Catalog.ClearContainer(old(store.Services()), cid)
      ensures store.Shelves() == Catalog.Step(Catalog.RemoveContainer(cid), old(store.Shelves()))
    {
      hide Store.ServicesValid, Store.ShelvesValid, Store.Services, Store.Shelves, Catalog.Step, Catalog.ClearContainer;
      store.ClearContainerID(cid);
      store.RemoveDiscoveredByContainerID(cid);
    }

    method AddDockerDiscovered(c: Container, info: Info, newID: string, now: int)
      requires store.ShelvesValid()
      modifies store`discovered, store`discoveredIdx, store`discoveredContainerIdx
      ensures store.Shelves() == Catalog.Step(Catalog.Add(Candidate(c, info, newID, now)), old(store.Shelves()))
      ensures Catalog.FreshID(old(store.Shelves()), newID) ==> store.ShelvesValid()
    {
      hide Store.ShelvesValid, Store.Shelves, Catalog.FreshID;
      var known := store.GetDiscoveredByContainerID(c.id);
      if known.Some? {
        return;
      }
      var (ip, port) := SplitTarget(info.target);
      var disc := new Ref(Discovered(newID, ip, port, info.name, "", "", 0, SOURCE_DOCKER, info.name, c.id,
                                     info.subdomain, now));
      store.AddDiscovered(disc);
    }

    /** Point a service at a container: copy the struct, change the copy, put it in the store. */
    method Reattach(existing: Service, c: Container, info: Info, ghost k: string)
      requires store.ServicesValid() && k in store.Services() && store.Services()[k] == existing
      requires Home(store.Services(), c.name, info.subdomain) == Some(k) && c.name != ""
      requires Catalog.KeyWhere(store.Services(), Catalog.HasContainer(c.id)).None?
      modifies store`services, store`idIdx, store`containerIDIdx, store`containerNameIdx
      ensures store.ServicesValid()
      ensures store.Services() == Catalog.UpdateService(old(store.Services()), existing.id, Attached(existing, c, info))
    {
      hide Store.ServicesValid, Store.Services, Catalog.Unique, Catalog.Fits, Catalog.UpdateService;
      store.UniqueData();
      Catalog.KeyWhereUnique(store.Services(), k);
      AttachFits(store.Services(), k, c, info);
      var updated := new Ref(existing.(containerID := c.id, containerName := c.name,
                                       target := PreserveScheme(existing.target, info.target)));
      var _, _ := store.UpdateService(existing.id, updated);
    }

    /** From the lookup by container name on: reattach, or list for review. */
    method Place(c: Container, info: Info, newID: string, now: int, ghost r: Cloudflare.Remote)
      requires Valid() && Catalog.FreshID(store.Shelves(), newID) && c.name != ""
      requires Catalog.KeyWhere(store.Services(), Catalog.HasContainer(c.id)).None?
      modifies store`services, store`idIdx, store`containerIDIdx, store`containerNameIdx,
               store`discovered, store`discoveredIdx, store`discoveredContainerIdx
      ensures Valid()
      ensures Sys(store.Services(), store.Shelves(), r) ==
              Placed(Sys(old(store.Services()), old(store.Shelves()), r), c, info, newID, now)
    {
      hide Store.ServicesValid, Store.ShelvesValid, Store.Services, Store.Shelves, Catalog.Step, Catalog.UpdateService,
           Catalog.FreshID, Attached, Candidate;
      ghost var s := store.Services();
      var named := store.GetServiceByContainerName(c.name);
      if named.Some? {
        Reattach(named.value.v, c, info, Catalog.KeyWhere(s, Catalog.HasName(c.name)).value);
        return;
      }
      var existing := store.GetServiceBySubdomain(info.subdomain);
      if existing.Some? {
        if existing.value.v.source == SOURCE_DOCKER {
          Reattach(existing.value.v, c, info, info.subdomain);
          return;
        }
        AddDockerDiscovered(c, info, newID, now);
        return;
      }
      AddDockerDiscovered(c, info, newID, now);
    }

    method UpsertContainer(c: Container, seen: Seen, newID: string, now: int, ghost r: Cloudflare.Remote)
      requires Valid() && Catalog.FreshID(store.Shelves(), newID)
      modifies store`services, store`idIdx, store`containerIDIdx, store`containerNameIdx,
               store`discovered, store`discoveredIdx, store`discoveredContainerIdx
      ensures Valid()
      ensures Sys(store.Services(), store.Shelves(), r) ==
              Started(g, Sys(old(store.Services()), old(store.Shelves()), r), c, seen, newID, now)
    {
      hide Store.ServicesValid, Store.ShelvesValid, Store.Services, Store.Shelves, Placed, Catalog.FreshID, Resolve;
      if c.name == "" || c.name == "lantern" {
        return;
      }
      if c.Label(LABEL_ENABLE) == "false" {
        return;
      }
      var tracked := store.GetServiceByContainerID(c.id);
      if tracked.Some? {
        return;
      }
      var info := ResolveContainer(c, seen);
      if info.None? {
        return;
      }
      Place(c, info.value, newID, now, r);
    }
  }
}
