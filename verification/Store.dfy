/**
 The store (internal/store/store.go): primary maps and slices of pointers, and lookup maps kept by
 hand beside them. Every method is proved to do to the primary data what module Catalog says, and to
 leave the lookup maps exactly what rebuildIndexes would make of it.
 */
module IndexedStore {
  import opened Common
  import opened Entities
  import opened Indexing
  import Catalog
  import Text

  datatype Snapshot = Snapshot(services: Catalog.Services, discovered: Catalog.Shelf, ignored: seq<Ignored>,
                             bookmarks: seq<Bookmark>)

  /** What every well-kept store saves. */
  ghost predicate Loadable(d: Snapshot) {
    && Catalog.Unique(d.services) && Catalog.UniqueBookmarks(d.bookmarks)
    && ShelvesLoadable(Catalog.Shelves(d.discovered, d.ignored, {}))
  }

  ghost predicate ShelvesLoadable(s: Catalog.Shelves) {
    Catalog.UniqueShelf(s.discovered) && Catalog.UniqueIgnored(s.ignored) && Catalog.Disjoint(s)
  }

  lemma DisjointIs(s: Catalog.Shelves, d: Snapshot)
    requires s.discovered == d.discovered && s.ignored == d.ignored
    ensures Catalog.Disjoint(s) <==> Catalog.Disjoint(Catalog.Shelves(d.discovered, d.ignored, {}))
  {
  }

  class Store {
    var services: Cells<Service>
    var idIdx: Cells<Service>
    var containerIDIdx: Cells<Service>
    var containerNameIdx: Cells<Service>
    var discovered: seq<Ref<Discovered>>
    var discoveredIdx: Cells<Discovered>
    var discoveredContainerIdx: Cells<Discovered>
    var ignored: seq<Ignored>  // never changed once listed, so kept by value
    var ignoredIdx: map<string, Ignored>
    var ignoredIPPortIdx: set<string>
    var bookmarks: seq<Ref<Bookmark>>
    var bookmarkIdx: Cells<Bookmark>

    // ---- Services ---------------------------------------------------------------------------------

    ghost function Services(): Catalog.Services
      reads `services, services.Values
    {
      Deref(services)
    }

    ghost predicate ServicesValid()
      reads `services, services.Values, `idIdx, `containerIDIdx, `containerNameIdx
    {
      ServicesIndexed(Services(), services, idIdx, containerIDIdx, containerNameIdx)
    }

    // ---- Discovered and ignored entries ---------------------------------------------------------------

    ghost function Slice(): Slice<Discovered>
      reads `discovered, discovered
    {
      SliceOf(discovered)
    }

    ghost function Shelves(): Catalog.Shelves
      reads `discovered, discovered, `ignored, `ignoredIPPortIdx
    {
      Catalog.Shelves(Structs(Slice()), ignored, ignoredIPPortIdx)
    }

    ghost predicate ShelvesValid()
      reads `discovered, discovered, `ignored, `ignoredIPPortIdx, `ignoredIdx, `discoveredIdx, `discoveredContainerIdx
    {
      && ShelfIndexed(Slice(), discoveredIdx, discoveredContainerIdx)
      && Catalog.Orderly(Shelves())
      && IgnoredIndexed(ignored, ignoredIdx)
    }

    // ---- Bookmarks --------------------------------------------------------------------------------------

    ghost function Bookmarks(): seq<Bookmark>
      reads `bookmarks, bookmarks
    {
      Structs(SliceOf(bookmarks))
    }

    ghost predicate BookmarksValid()
      reads `bookmarks, bookmarks, `bookmarkIdx
    {
      BookmarksIndexed(SliceOf(bookmarks), bookmarkIdx)
    }

    constructor ()
      ensures ServicesValid() && Services() == map[]
      ensures BookmarksValid() && Bookmarks() == []
      ensures ShelvesValid() && Shelves() == Catalog.Shelves([], [], {})
    {
      services, idIdx, containerIDIdx, containerNameIdx := map[], map[], map[], map[];
      discovered, discoveredIdx, discoveredContainerIdx := [], map[], map[];
      ignored, ignoredIdx, ignoredIPPortIdx := [], map[], {};
      bookmarks, bookmarkIdx := [], map[];
    }

    method IndexService(svc: Ref<Service>)
      modifies this`idIdx, this`containerIDIdx, this`containerNameIdx
      ensures idIdx == old(idIdx)[svc.v.id := svc]
      ensures containerIDIdx ==
        if svc.v.containerID != "" then old(containerIDIdx)[svc.v.containerID := svc] else old(containerIDIdx)
      ensures containerNameIdx ==
        if svc.v.source == SOURCE_DOCKER && svc.v.containerName != "" then
          old(containerNameIdx)[svc.v.containerName := svc]
        else old(containerNameIdx)
    {
      idIdx := idIdx[svc.v.id := svc];
      if svc.v.containerID != "" {
        containerIDIdx := containerIDIdx[svc.v.containerID := svc];
      }
      if svc.v.source == SOURCE_DOCKER && svc.v.containerName != "" {
        containerNameIdx := containerNameIdx[svc.v.containerName := svc];
      }
    }

    method UnindexService(svc: Ref<Service>)
      modifies this`idIdx, this`containerIDIdx, this`containerNameIdx
      ensures idIdx == old(idIdx) - {svc.v.id}
      ensures containerIDIdx == old(containerIDIdx) - {svc.v.containerID}
      ensures containerNameIdx == old(containerNameIdx) - {svc.v.containerName}
    {
      idIdx := idIdx - {svc.v.id};
      containerIDIdx := containerIDIdx - {svc.v.containerID};
      containerNameIdx := containerNameIdx - {svc.v.containerName};
    }

    lemma UniqueData()
      requires ServicesValid()
      ensures Catalog.Unique(Services())
    {
    }

    lemma ShelvesInOrder()
      requires ShelvesValid()
      ensures Catalog.Orderly(Shelves())
    {
    }

    method GetServiceBySubdomain(sub: string) returns (r: Option<Ref<Service>>)
      ensures r.Some? <==> sub in Services()
      ensures r.Some? ==> r.value.v == Services()[sub]
    {
      r := if sub in services then Some(services[sub]) else None;
    }

    /** The three lookup maps answer what a search of the services would. */
    method GetServiceByID(id: string) returns (r: Option<Ref<Service>>)
      requires ServicesValid()
      ensures Catalog.FindWhere(Services(), Catalog.HasID(id)) == if r.Some? then Some(r.value.v) else None
      ensures r.Some? ==> r.value in services.Values
    {
      hide ServicesIndexed;
      LookupByID(Services(), services, idIdx, containerIDIdx, containerNameIdx, id);
      r := if id in idIdx then Some(idIdx[id]) else None;
    }

    method GetServiceByContainerID(cid: string) returns (r: Option<Ref<Service>>)
      requires ServicesValid()
      ensures Catalog.FindWhere(Services(), Catalog.HasContainer(cid)) == if r.Some? then Some(r.value.v) else None
    {
      hide ServicesIndexed;
      LookupByContainer(Services(), services, idIdx, containerIDIdx, containerNameIdx, cid);
      r := if cid in containerIDIdx then Some(containerIDIdx[cid]) else None;
    }

    method GetServiceByContainerName(name: string) returns (r: Option<Ref<Service>>)
      requires ServicesValid()
      ensures Catalog.FindWhere(Services(), Catalog.HasName(name)) == if r.Some? then Some(r.value.v) else None
    {
      hide ServicesIndexed;
      LookupByName(Services(), services, idIdx, containerIDIdx, containerNameIdx, name);
      r := if name in containerNameIdx then Some(containerNameIdx[name]) else None;
    }

    method GetDiscoveredByID(id: string) returns (r: Option<Ref<Discovered>>)
      requires ShelvesValid()
      ensures Catalog.Find(Shelves().discovered, Catalog.IsID(id)) == if r.Some? then Some(r.value.v) else None
    {
      hide ShelfIndexed, Catalog.Orderly, Catalog.Find;
      ghost var i := FindID(Slice(), discoveredIdx, discoveredContainerIdx, id);
      r := if id in discoveredIdx then Some(discoveredIdx[id]) else None;
    }

    method GetDiscoveredByContainerID(cid: string) returns (r: Option<Ref<Discovered>>)
      requires ShelvesValid()
      ensures var ds := Shelves().discovered;
        r.Some? <==> cid != "" && exists i :: 0 <= i < |ds| && ds[i].containerID == cid
    {
      hide ShelfIndexed, Catalog.Orderly;
      FindContainer(Slice(), discoveredIdx, discoveredContainerIdx, cid);
      r := if cid in discoveredContainerIdx then Some(discoveredContainerIdx[cid]) else None;
    }

    method AddService(svc: Ref<Service>)
      requires ServicesValid()
      modifies this`services, this`idIdx, this`containerIDIdx, this`containerNameIdx
      ensures services == old(services)[svc.v.subdomain := svc]
      ensures Services() == Catalog.AddService(old(Services()), svc.v)
      ensures Catalog.Fits(old(Services()), svc.v) ==> ServicesValid()
      ensures Catalog.NewAt(old(Services()), svc.v) && ServicesValid() ==> Catalog.Fits(old(Services()), svc.v)
    {
      hide ServicesIndexed, Catalog.Fits, Catalog.NewAt;
      AddIndexedIff(Services(), services, idIdx, containerIDIdx, containerNameIdx, svc.v, svc);
      services := services[svc.v.subdomain := svc];
      IndexService(svc);
      assert Services() == Catalog.AddService(old(Services()), svc.v);
    }

    method UpdateService(id: string, updated: Ref<Service>) returns (oldSub: string, oldDNSID: string)
      requires ServicesValid()
      modifies this`services, this`idIdx, this`containerIDIdx, this`containerNameIdx
      ensures Services() == Catalog.UpdateService(old(Services()), id, updated.v)
      ensures var was := Catalog.FindWhere(old(Services()), Catalog.HasID(id));
        (oldSub, oldDNSID) == if was.Some? then (was.value.subdomain, was.value.dnsRecordID) else ("", "")
      ensures var was := Catalog.KeyWhere(old(Services()), Catalog.HasID(id));
        && (was.None? || Catalog.Fits(old(Services()) - {was.value}, updated.v) ==> ServicesValid())
        && (was.Some? && updated.v.id == id && ServicesValid() ==>
              Catalog.Fits(old(Services()) - {was.value}, updated.v))
    {
      hide ServicesIndexed, Catalog.Fits, Catalog.KeyWhere;
      LookupByID(Services(), services, idIdx, containerIDIdx, containerNameIdx, id);
      oldSub, oldDNSID := "", "";
      if id in idIdx {
        var svc := idIdx[id];
        oldSub := svc.v.subdomain;
        oldDNSID := svc.v.dnsRecordID;
        EditIndexedIff(Services(), services, idIdx, containerIDIdx, containerNameIdx, oldSub, updated.v, updated);
        DerefExchange(services, oldSub, updated.v.subdomain, updated);
        Exchange(svc, updated);
      }
    }

    /** The end of UpdateService: the old struct goes out of the maps, the new one in. */
    method Exchange(svc: Ref<Service>, updated: Ref<Service>)
      modifies this`services, this`idIdx, this`containerIDIdx, this`containerNameIdx
      ensures services == (old(services) - {svc.v.subdomain})[updated.v.subdomain := updated]
      ensures idIdx == (old(idIdx) - {svc.v.id})[updated.v.id := updated]
      ensures containerIDIdx == WithEntry(old(containerIDIdx) - {svc.v.containerID}, ByContainer()(updated.v), updated)
      ensures containerNameIdx == WithEntry(old(containerNameIdx) - {svc.v.containerName}, ByName()(updated.v), updated)
    {
      UnindexService(svc);
      services := services - {svc.v.subdomain};
      services := services[updated.v.subdomain := updated];
      IndexService(updated);
    }

    method DeleteService(id: string) returns (sub: string, dnsID: string, tunnelRoute: string)
      requires ServicesValid()
      modifies this`services, this`idIdx, this`containerIDIdx, this`containerNameIdx
      ensures ServicesValid() && Services() == Catalog.DeleteService(old(Services()), id)
      ensures var was := Catalog.FindWhere(old(Services()), Catalog.HasID(id));
        (sub, dnsID, tunnelRoute) ==
        if was.Some? then (was.value.subdomain, was.value.dnsRecordID, was.value.tunnelRouteID) else ("", "", "")
    {
      hide ServicesIndexed, Catalog.Fits;
      LookupByID(Services(), services, idIdx, containerIDIdx, containerNameIdx, id);
      sub, dnsID, tunnelRoute := "", "", "";
      if id in idIdx {
        var svc := idIdx[id];
        sub := svc.v.subdomain;
        dnsID := svc.v.dnsRecordID;
        tunnelRoute := svc.v.tunnelRouteID;
        ghost var data := Services();
        RemoveIndexed(data, services, idIdx, containerIDIdx, containerNameIdx, sub);
        UnindexService(svc);
        services := services - {sub};
        assert Services() == data - {sub};
      }
    }

    method ClearContainerID(cid: string)
      requires ServicesValid()
      modifies this`containerIDIdx, services.Values
      ensures ServicesValid() && services == old(services)
      ensures Services() == Catalog.ClearContainer(old(Services()), cid)
    {
      hide ServicesIndexed;
      LookupByContainer(Services(), services, idIdx, containerIDIdx, containerNameIdx, cid);
      ghost var data := Services();
      if cid in containerIDIdx {
        var svc := containerIDIdx[cid];
        ghost var k := Catalog.KeyWhere(data, Catalog.HasContainer(cid)).value;
        ClearIndexed(data, services, idIdx, containerIDIdx, containerNameIdx, k);
        containerIDIdx := containerIDIdx - {cid};
        svc.v := svc.v.(containerID := "");
        assert Services() == Catalog.ClearContainer(data, cid);
      } else {
        forall k | k in data ensures cid == "" || data[k].containerID != cid {
          assert !Catalog.At(data, k, Catalog.HasContainer(cid));
        }
        assert Services() == Catalog.ClearContainer(data, cid);
      }
    }

    // ---- Discovered entries ---------------------------------------------------------------------------

    method IndexDiscovered(d: Ref<Discovered>)
      modifies this`discoveredIdx, this`discoveredContainerIdx
      ensures discoveredIdx == old(discoveredIdx)[d.v.id := d]
      ensures discoveredContainerIdx == WithEntry(old(discoveredContainerIdx), DiscContainer()(d.v), d)
    {
      discoveredIdx := discoveredIdx[d.v.id := d];
      if d.v.containerID != "" {
        discoveredContainerIdx := discoveredContainerIdx[d.v.containerID := d];
      }
    }

    method UnindexDiscovered(d: Ref<Discovered>)
      modifies this`discoveredIdx, this`discoveredContainerIdx
      ensures discoveredIdx == old(discoveredIdx) - {d.v.id}
      ensures discoveredContainerIdx ==
        if d.v.containerID != "" then old(discoveredContainerIdx) - {d.v.containerID} else old(discoveredContainerIdx)
    {
      discoveredIdx := discoveredIdx - {d.v.id};
      if d.v.containerID != "" {
        discoveredContainerIdx := discoveredContainerIdx - {d.v.containerID};
      }
    }

    /** append and indexDiscovered */
    method Append(d: Ref<Discovered>)
      requires ShelvesValid()
      modifies this`discovered, this`discoveredIdx, this`discoveredContainerIdx
      ensures Shelves() == old(Shelves()).(discovered := old(Shelves()).discovered + [d.v])
      ensures discovered == old(discovered) + [d]
      ensures Catalog.Orderly(Shelves()) ==> ShelvesValid()
    {
      hide ShelfIndexed, Catalog.Orderly, IgnoredIndexed, Catalog.UniqueShelf;
      ghost var p, after := Slice(), Shelves().(discovered := Shelves().discovered + [d.v]);
      if Catalog.Orderly(after) {
        OrderlyShelf(after);
        ShelfAppended(p, discoveredIdx, discoveredContainerIdx, d.v, d);
      }
      discovered := discovered + [d];
      IndexDiscovered(d);
      assert Slice() == p + [(d.v, d)];
      assert Structs(Slice()) == Structs(p) + [d.v];
    }

    method AddDiscovered(d: Ref<Discovered>)
      requires ShelvesValid()
      modifies this`discovered, this`discoveredIdx, this`discoveredContainerIdx
      ensures Shelves() == Catalog.Step(Catalog.Add(d.v), old(Shelves()))
      ensures Catalog.FreshID(old(Shelves()), d.v.id) ==> ShelvesValid()
    {
      hide ShelfIndexed, Catalog.Orderly;
      ghost var p, ds := Slice(), Shelves().discovered;
      if d.v.containerID != "" {
        FindContainer(p, discoveredIdx, discoveredContainerIdx, d.v.containerID);
        if d.v.containerID in discoveredContainerIdx {
          return;
        }
      }
      for i := 0 to |discovered|
        invariant forall j | 0 <= j < i :: !Catalog.SameEndpoint(ds[j], d.v.ip, d.v.port)
      {
        var existing := discovered[i];
        if existing.v.ip == d.v.ip && existing.v.port == d.v.port {
          assert Catalog.SameEndpoint(ds[i], d.v.ip, d.v.port);
          return;
        }
      }
      assert !Catalog.Duplicate(ds, d.v);
      if Catalog.FreshID(Shelves(), d.v.id) {
        Catalog.StepOrderly(Catalog.Add(d.v), Shelves());
      }
      Append(d);
    }

    method RemoveDiscovered(id: string)
      requires ShelvesValid()
      modifies this`discovered, this`discoveredIdx, this`discoveredContainerIdx
      ensures ShelvesValid() && Shelves() == Catalog.Step(Catalog.Remove(id), old(Shelves()))
    {
      hide ShelfIndexed, Catalog.Orderly, Catalog.Filter, IgnoredIndexed, SliceOf, Structs;
      Catalog.StepOrderly(Catalog.Remove(id), Shelves());
      StructsFiltered(Slice(), Catalog.NotID(id));
      UnindexID(id);
      discovered := FilterSlice(discovered, Catalog.NotID(id));
    }

    /** The maps lose the entry with this ID, if there is one. */
    method UnindexID(id: string)
      requires ShelvesValid()
      modifies this`discoveredIdx, this`discoveredContainerIdx
      ensures ShelfIndexed(Catalog.Filter(Slice(), OnStruct(Catalog.NotID(id))), discoveredIdx, discoveredContainerIdx)
    {
      hide ShelfIndexed, Catalog.Orderly, Catalog.Filter, Pruned, IgnoredIndexed;
      ghost var p := Slice();
      ghost var idx, cidx := discoveredIdx, discoveredContainerIdx;
      ghost var i := FindID(p, idx, cidx, id);
      if id in discoveredIdx {
        OnePruned(p, idx, cidx, p[i], Catalog.NotID(id));
        UnindexDiscovered(discoveredIdx[id]);
      }
      ShelfFiltered(p, idx, cidx, discoveredIdx, discoveredContainerIdx, Catalog.NotID(id));
    }

    /** Callers pass a container's ID, which is not empty. With "" this drops every entry without a
        container and leaves them in the map of IDs, so the maps stay right only if there are none. */
    method RemoveDiscoveredByContainerID(cid: string)
      requires ShelvesValid()
      modifies this`discovered, this`discoveredIdx, this`discoveredContainerIdx
      ensures Shelves() == Catalog.Step(Catalog.RemoveContainer(cid), old(Shelves()))
      ensures ShelvesValid() <==> cid != "" || forall d | d in old(Shelves()).discovered :: d.containerID != ""
    {
      hide ShelfIndexed, Catalog.Orderly, Catalog.Filter, Pruned;
      Catalog.StepOrderly(Catalog.RemoveContainer(cid), Shelves());
      ghost var p := Slice();
      ghost var idx, cidx := discoveredIdx, discoveredContainerIdx;
      ghost var i := 0;
      FindContainer(p, idx, cidx, cid);
      if cid != "" {
        i := FindContainerEntry(p, idx, cidx, cid);
      }
      if cid in discoveredContainerIdx {
        OnePruned(p, idx, cidx, p[i], Catalog.NotContainer(cid));
        UnindexDiscovered(discoveredContainerIdx[cid]);
      }
      if cid != "" {
        ShelfFiltered(p, idx, cidx, discoveredIdx, discoveredContainerIdx, Catalog.NotContainer(cid));
      } else {
        NoContainerFiltered(p, idx, cidx);
        NoneWithout(p);
      }
      StructsFiltered(p, Catalog.NotContainer(cid));
      discovered := FilterSlice(discovered, Catalog.NotContainer(cid));
    }

    method ClearNetworkDiscovered()
      requires ShelvesValid()
      modifies this`discovered, this`discoveredIdx, this`discoveredContainerIdx
      ensures ShelvesValid() && Shelves() == Catalog.Step(Catalog.Clear, old(Shelves()))
      ensures forall c | c in discovered :: c in old(discovered)
    {
      hide ShelfIndexed, Catalog.Orderly, Catalog.Filter, Pruned, PrunedTo;
      Catalog.StepOrderly(Catalog.Clear, Shelves());
      ghost var p := Slice();
      ghost var idx, cidx := discoveredIdx, discoveredContainerIdx;
      ghost var keep := Catalog.NotNetwork();
      var kept: seq<Ref<Discovered>> := [];
      PrunedNone(p, idx, cidx, keep);
      Catalog.FilterNone(OnStruct(keep));
      for i := 0 to |discovered|
        invariant discovered == old(discovered) && SliceOf(kept) == Catalog.Filter(p[..i], OnStruct(keep))
        invariant PrunedTo(p, idx, discoveredIdx, DiscID(), keep, i)
        invariant PrunedTo(p, cidx, discoveredContainerIdx, DiscContainer(), keep, i)
        invariant forall c | c in kept :: c in discovered
      {
        var d := discovered[i];
        assert p[..i + 1] == p[..i] + [(d.v, d)];
        Catalog.FilterSnoc(p[..i], (d.v, d), OnStruct(keep));
        PruneOne(p, idx, cidx, discoveredIdx, discoveredContainerIdx, keep, i);
        if d.v.source == SOURCE_NETWORK {
          UnindexDiscovered(d);
        } else {
          assert SliceOf(kept + [d]) == SliceOf(kept) + [(d.v, d)];
          kept := kept + [d];
        }
      }
      assert p[..|p|] == p;
      PrunedAll(p, idx, discoveredIdx, DiscID(), keep);
      PrunedAll(p, cidx, discoveredContainerIdx, DiscContainer(), keep);
      ShelfFiltered(p, idx, cidx, discoveredIdx, discoveredContainerIdx, keep);
      StructsFiltered(p, keep);
      discovered := kept;
    }

    /** Overwrite the fields of one entry that a re-probe brings. */
    method RefreshEntry(existing: Ref<Discovered>, svc: Ref<Discovered>, ghost i: nat)
      requires ShelvesValid() && i < |discovered| && discovered[i] == existing
      modifies existing
      ensures Shelves() == old(Shelves()).(discovered :=
                old(Shelves()).discovered[i := Catalog.Refreshed(old(Shelves()).discovered[i], old(svc.v))])
      ensures Catalog.Orderly(Shelves()) ==> ShelvesValid()
    {
      hide ShelfIndexed, Catalog.Orderly, IgnoredIndexed;
      ghost var p := Slice();
      DistinctCells(discovered, p, discoveredIdx, discoveredContainerIdx);
      existing.v := existing.v.(title := svc.v.title, icon := svc.v.icon, serviceName := svc.v.serviceName,
                                suggestedSubdomain := svc.v.suggestedSubdomain, confidence := svc.v.confidence,
                                discoveredAt := svc.v.discoveredAt);
      assert Structs(Slice()) == Structs(p)[i := Catalog.Refreshed(p[i].0, old(svc.v))];
      if Catalog.Orderly(Shelves()) {
        OrderlyShelf(Shelves());
        ShelfUntouched(p, Slice(), discoveredIdx, discoveredContainerIdx);
      }
    }

    method UpsertNetworkDiscovered(svc: Ref<Discovered>) returns (id: string)
      requires ShelvesValid() && svc !in discovered
      modifies this`discovered, this`discoveredIdx, this`discoveredContainerIdx, discovered
      ensures Shelves() == Catalog.Step(Catalog.Upsert(svc.v), old(Shelves()))
      ensures Catalog.Allowed(Catalog.Upsert(svc.v), old(Shelves())) ==> ShelvesValid()
      ensures svc.v.source == SOURCE_NETWORK ==> Catalog.UpsertedID(Shelves().discovered, svc.v, id)
      ensures discovered == old(discovered) || discovered == old(discovered) + [svc]
    {
      hide ShelvesValid, Catalog.Orderly, Catalog.UpsertNetwork, Catalog.Allowed, Catalog.NetworkAt;
      ghost var s, d := Shelves(), svc.v;
      ghost var ds := s.discovered;
      ShelvesInOrder();
      Catalog.UpsertOrderly(s, d);
      for i := 0 to |discovered|
        invariant forall j | 0 <= j < i :: !Catalog.NetworkAt(ds[j], d.ip, d.port)
        invariant unchanged(this) && unchanged(discovered) && ShelvesValid() && Shelves() == s
      {
        var existing := discovered[i];
        Catalog.NetworkAtIs(ds[i], d.ip, d.port);
        if existing.v.source != SOURCE_NETWORK || existing.v.ip != svc.v.ip || existing.v.port != svc.v.port {
          continue;
        }
        Catalog.UpsertFinds(ds, d, i);
        Catalog.UpsertedHere(ds, d, i);
        id := existing.v.id;
        RefreshEntry(existing, svc, i);
        return;
      }
      Catalog.UpsertMembers(ds, d);
      Catalog.UpsertedLast(ds, d);
      id := svc.v.id;
      Append(svc);
    }

    method UpdateDiscoveredIcon(id: string, icon: string)
      requires ShelvesValid()
      modifies discovered
      ensures ShelvesValid() && Shelves() == Catalog.Step(Catalog.Icon(id, icon), old(Shelves()))
    {
      hide ShelfIndexed, Catalog.Orderly;
      Catalog.StepOrderly(Catalog.Icon(id, icon), Shelves());
      OrderlyShelf(Catalog.Step(Catalog.Icon(id, icon), Shelves()));
      ghost var p, ds := Slice(), Shelves().discovered;
      ghost var i := FindID(p, discoveredIdx, discoveredContainerIdx, id);
      if id in discoveredIdx {
        DistinctCells(discovered, p, discoveredIdx, discoveredContainerIdx);
        discoveredIdx[id].v := discoveredIdx[id].v.(icon := icon);
        assert forall j | 0 <= j < |ds| && j != i :: p[j] in p && ds[j].id != id;
      } else {
        assert forall j | 0 <= j < |ds| :: p[j] in p && ds[j].id != id;
      }
      assert Structs(Slice()) == Catalog.SetIcon(ds, id, icon);
      ShelfUntouched(p, Slice(), discoveredIdx, discoveredContainerIdx);
    }

    // ---- Ignored entries ----------------------------------------------------------------------------------

    method IgnoreDiscovered(id: string, now: int) returns (ok: bool)
      requires ShelvesValid()
      modifies this`discovered, this`discoveredIdx, this`discoveredContainerIdx, this`ignored, this`ignoredIdx,
               this`ignoredIPPortIdx
      ensures ShelvesValid() && Shelves() == Catalog.Step(Catalog.IgnoreOp(id, now), old(Shelves()))
      ensures ok <==> exists d :: d in old(Shelves()).discovered && d.id == id
    {
      hide ShelfIndexed, Catalog.Orderly, IgnoredIndexed, Catalog.Filter, Catalog.Find, Pruned;
      Catalog.StepOrderly(Catalog.IgnoreOp(id, now), Shelves());
      ghost var p := Slice();
      ghost var idx, cidx := discoveredIdx, discoveredContainerIdx;
      ghost var i := FindID(p, idx, cidx, id);
      if id !in discoveredIdx {
        return false;
      }
      var found := discoveredIdx[id].v;
      assert Structs(p)[i].id == id;
      IgnoredAppended(Shelves(), ignoredIdx, p[i].0, now);
      RemoveDiscovered(id);  // unindexDiscovered and filterSlice
      var ig := Ignored(found.id, found.ip, found.port, found.title, now);
      ignored := ignored + [ig];
      ignoredIdx := ignoredIdx[ig.id := ig];
      ignoredIPPortIdx := ignoredIPPortIdx + {Text.Key(ig.ip, ig.port)};
      ok := true;
    }

    method UnignoreService(id: string) returns (removed: Option<Ignored>)
      requires ShelvesValid()
      modifies this`ignored, this`ignoredIdx, this`ignoredIPPortIdx
      ensures ShelvesValid() && Shelves() == Catalog.Step(Catalog.UnignoreOp(id), old(Shelves()))
      ensures removed == Catalog.Find(old(ignored), Catalog.IsIgnoredID(id))
    {
      hide ShelfIndexed, Catalog.Orderly, IgnoredIndexed, Catalog.Filter, Catalog.Find;
      Catalog.StepOrderly(Catalog.UnignoreOp(id), Shelves());
      FindIgnored(Shelves(), ignoredIdx, id);
      if id !in ignoredIdx {
        return None;
      }
      var ig := ignoredIdx[id];
      removed := Some(ig);
      IgnoredRemoved(Shelves(), ignoredIdx, id);
      ignoredIdx := ignoredIdx - {ig.id};
      ignoredIPPortIdx := ignoredIPPortIdx - {Text.Key(ig.ip, ig.port)};
      ignored := FilterValues(ignored, Catalog.NotIgnoredID(id));
    }

    // ---- Bookmarks --------------------------------------------------------------------------------------

    method AddBookmark(b: Ref<Bookmark>)
      requires BookmarksValid()
      modifies this`bookmarks, this`bookmarkIdx
      ensures Bookmarks() == old(Bookmarks()) + [b.v]
      ensures BookmarksValid() <==> Catalog.UniqueBookmarks(Bookmarks())
    {
      ghost var p := SliceOf(bookmarks);
      if Catalog.UniqueBookmarks(Structs(p) + [b.v]) {
        BookmarkAppended(p, bookmarkIdx, b.v, b);
      }
      bookmarks := bookmarks + [b];
      bookmarkIdx := bookmarkIdx[b.v.id := b];
      assert SliceOf(bookmarks) == p + [(b.v, b)];
      assert Bookmarks() == old(Bookmarks()) + [b.v];
    }

    method UpdateBookmark(id: string, updated: Ref<Bookmark>) returns (found: bool)
      requires BookmarksValid()
      modifies this`bookmarks, this`bookmarkIdx
      ensures BookmarksValid() <==> Catalog.UniqueBookmarks(Bookmarks())
      ensures found <==> exists i :: Catalog.BookmarkAt(old(Bookmarks()), i, id)
      ensures !found ==> Bookmarks() == old(Bookmarks())
      ensures found ==> exists i :: Catalog.BookmarkAt(old(Bookmarks()), i, id) &&
                                    Bookmarks() == old(Bookmarks())[i := updated.v]
    {
      hide BookmarksIndexed, Catalog.UniqueBookmarks;
      ghost var p := SliceOf(bookmarks);
      BookmarksUnique(p, bookmarkIdx);
      for i := 0 to |bookmarks|
        invariant forall j | 0 <= j < i :: p[j].0.id != id
        invariant unchanged(this)
      {
        if bookmarks[i].v.id == id {
          BookmarkReplaced(p, bookmarkIdx, i, updated.v, updated);
          bookmarkIdx := bookmarkIdx - {bookmarks[i].v.id};
          bookmarks := bookmarks[i := updated];
          bookmarkIdx := bookmarkIdx[updated.v.id := updated];
          assert SliceOf(bookmarks) == p[i := (updated.v, updated)];
          assert Catalog.BookmarkAt(old(Bookmarks()), i, id);
          assert Bookmarks() == old(Bookmarks())[i := updated.v];
          return true;
        }
      }
      return false;
    }

    method DeleteBookmark(id: string) returns (found: bool)
      requires BookmarksValid()
      modifies this`bookmarks, this`bookmarkIdx
      ensures BookmarksValid()
      ensures found <==> exists i :: Catalog.BookmarkAt(old(Bookmarks()), i, id)
      ensures !found ==> Bookmarks() == old(Bookmarks())
      ensures found ==> exists i :: Catalog.BookmarkAt(old(Bookmarks()), i, id) &&
                                    Bookmarks() == old(Bookmarks())[..i] + old(Bookmarks())[i + 1..]
    {
      hide BookmarksIndexed;
      ghost var p := SliceOf(bookmarks);
      for i := 0 to |bookmarks|
        invariant forall j | 0 <= j < i :: p[j].0.id != id
        invariant unchanged(this)
      {
        if bookmarks[i].v.id == id {
          BookmarkDeleted(p, bookmarkIdx, i);
          bookmarkIdx := bookmarkIdx - {bookmarks[i].v.id};
          bookmarks := bookmarks[..i] + bookmarks[i + 1..];
          assert SliceOf(bookmarks) == p[..i] + p[i + 1..];
          assert Catalog.BookmarkAt(old(Bookmarks()), i, id);
          assert Bookmarks() == old(Bookmarks())[..i] + old(Bookmarks())[i + 1..];
          return true;
        }
      }
      return false;
    }

    // ---- Rebuilding --------------------------------------------------------------------------------------

    /** rebuildIndexes for the services. It makes right maps exactly when the data allows it; on a store
        whose maps are right already it changes nothing. */
    method RebuildServiceIndexes()
      modifies this`idIdx, this`containerIDIdx, this`containerNameIdx
      ensures ServicesValid() <==> Catalog.Unique(Services())
      ensures old(ServicesValid()) ==>
        idIdx == old(idIdx) && containerIDIdx == old(containerIDIdx) && containerNameIdx == old(containerNameIdx)
    {
      hide ServicesIndexed, Catalog.Unique;
      ghost var data := Services();
      idIdx, containerIDIdx, containerNameIdx := map[], map[], map[];
      var todo := services.Keys;
      RebuildStart(data, services);
      while todo != {}
        invariant todo <= services.Keys
        invariant Catalog.Unique(data) ==>
          ServicesIndexed(data - todo, services - todo, idIdx, containerIDIdx, containerNameIdx)
        invariant Services() == data && services == old(services)
      {
        var k :| k in todo;
        if Catalog.Unique(data) {
          RebuildStep(data, services, todo, idIdx, containerIDIdx, containerNameIdx, k);
        }
        IndexService(services[k]);
        todo := todo - {k};
      }
      assert data - {} == data && services - {} == services;
      IndexedUnique(data, services, idIdx, containerIDIdx, containerNameIdx);
      IndexedUnique(data, services, old(idIdx), old(containerIDIdx), old(containerNameIdx));
      if old(ServicesValid()) {
        ServicesDetermined(data, services, old(idIdx), old(containerIDIdx), old(containerNameIdx),
                           idIdx, containerIDIdx, containerNameIdx);
      }
    }

    method RebuildDiscoveredIndexes()
      modifies this`discoveredIdx, this`discoveredContainerIdx
      ensures ShelfIndexed(Slice(), discoveredIdx, discoveredContainerIdx) <==>
              Catalog.UniqueShelf(Shelves().discovered)
      ensures old(ShelfIndexed(Slice(), discoveredIdx, discoveredContainerIdx)) ==>
        discoveredIdx == old(discoveredIdx) && discoveredContainerIdx == old(discoveredContainerIdx)
    {
      hide ShelfIndexed;
      ghost var p := Slice();
      discoveredIdx, discoveredContainerIdx := map[], map[];
      NothingIndexed(p, discovered, ignored, bookmarks);
      for i := 0 to |discovered|
        invariant Catalog.UniqueShelf(Structs(p)) ==> ShelfIndexed(p[..i], discoveredIdx, discoveredContainerIdx)
        invariant discovered == old(discovered)
      {
        if Catalog.UniqueShelf(Structs(p)) {
          ShelfRebuildStep(p, discoveredIdx, discoveredContainerIdx, i);
        }
        IndexDiscovered(discovered[i]);
      }
      assert p[..|p|] == p;
      ShelfUnique(p, discoveredIdx, discoveredContainerIdx);
      ShelfUnique(p, old(discoveredIdx), old(discoveredContainerIdx));
      if old(ShelfIndexed(Slice(), discoveredIdx, discoveredContainerIdx)) {
        ShelfDetermined(p, old(discoveredIdx), old(discoveredContainerIdx), discoveredIdx, discoveredContainerIdx);
      }
    }

    /** rebuildIndexes for the ignored list. Unlike the other maps, the key set may come out larger than
        the one kept by hand. */
    method RebuildIgnoredIndexes()
      modifies this`ignoredIdx, this`ignoredIPPortIdx
      ensures Catalog.UniqueIgnored(ignored) ==> IgnoredIndexed(ignored, ignoredIdx)
      ensures ignoredIPPortIdx == Catalog.KeysOf(ignored)
      ensures old(IgnoredIndexed(ignored, ignoredIdx)) && Catalog.UniqueIgnored(ignored) ==>
              ignoredIdx == old(ignoredIdx)
      ensures old(Catalog.Orderly(Shelves())) ==>
        (ignoredIPPortIdx == old(ignoredIPPortIdx) <==> old(Catalog.KeysExact(Shelves())))
    {
      hide Catalog.Orderly, Catalog.KeysExact;
      if Catalog.Orderly(Shelves()) {
        Catalog.RebuiltKeysIff(Shelves());
      }
      ignoredIdx, ignoredIPPortIdx := map[], {};
      for i := 0 to |ignored|
        invariant Catalog.UniqueIgnored(ignored) ==> IgnoredIndexed(ignored[..i], ignoredIdx)
        invariant ignoredIPPortIdx == Catalog.KeysOf(ignored[..i]) && ignored == old(ignored)
      {
        if Catalog.UniqueIgnored(ignored) {
          IgnoredRebuildStep(ignored, ignoredIdx, i);
        }
        Catalog.KeysOfSnoc(ignored, i);
        ignoredIdx := ignoredIdx[ignored[i].id := ignored[i]];
        ignoredIPPortIdx := ignoredIPPortIdx + {Text.Key(ignored[i].ip, ignored[i].port)};
      }
      assert ignored[..|ignored|] == ignored;
    }

    method RebuildBookmarkIndex()
      modifies this`bookmarkIdx
      ensures BookmarksValid() <==> Catalog.UniqueBookmarks(Bookmarks())
      ensures old(BookmarksValid()) ==> bookmarkIdx == old(bookmarkIdx)
    {
      hide BookmarksIndexed;
      ghost var p := SliceOf(bookmarks);
      bookmarkIdx := map[];
      NothingIndexed(Slice(), discovered, ignored, bookmarks);
      for i := 0 to |bookmarks|
        invariant Catalog.UniqueBookmarks(Structs(p)) ==> BookmarksIndexed(p[..i], bookmarkIdx)
        invariant bookmarks == old(bookmarks)
      {
        if Catalog.UniqueBookmarks(Structs(p)) {
          BookmarkRebuildStep(p, bookmarkIdx, i);
        }
        bookmarkIdx := bookmarkIdx[bookmarks[i].v.id := bookmarks[i]];
      }
      assert p[..|p|] == p;
      BookmarksUnique(p, bookmarkIdx);
      BookmarksUnique(p, old(bookmarkIdx));
      if old(BookmarksValid()) {
        BookmarksDetermined(p, old(bookmarkIdx), bookmarkIdx);
      }
    }

    method RebuildShelfIndexes()
      modifies this`discoveredIdx, this`discoveredContainerIdx, this`ignoredIdx, this`ignoredIPPortIdx
      ensures ShelvesValid() <==> ShelvesLoadable(Shelves())
      ensures Catalog.KeysExact(Shelves()) && Shelves() == old(Shelves()).(keys := ignoredIPPortIdx)
      ensures old(ShelvesValid()) ==>
        && discoveredIdx == old(discoveredIdx) && discoveredContainerIdx == old(discoveredContainerIdx)
        && ignoredIdx == old(ignoredIdx)
        && (ignoredIPPortIdx == old(ignoredIPPortIdx) <==> old(Catalog.KeysExact(Shelves())))
    {
      hide ShelfIndexed, IgnoredIndexed, Catalog.UniqueShelf, Catalog.UniqueIgnored, Catalog.KeysExact, Catalog.KeysOf,
           Catalog.Disjoint, Catalog.KeysWitnessed, SliceOf, Structs;
      RebuildDiscoveredIndexes();
      RebuildIgnoredIndexes();
      Catalog.FullKeys(Shelves());
    }

    /** rebuildIndexes. It makes right maps exactly when the data allows it. On a store whose maps are kept
        right it changes none of them, except that it brings back the "ip:port" keys that un-ignoring had
        wrongly dropped. */
    method RebuildIndexes()
      modifies this`idIdx, this`containerIDIdx, this`containerNameIdx, this`discoveredIdx, this`discoveredContainerIdx,
               this`ignoredIdx, this`ignoredIPPortIdx, this`bookmarkIdx
      ensures ServicesValid() <==> Catalog.Unique(Services())
      ensures ShelvesValid() <==> ShelvesLoadable(Shelves())
      ensures BookmarksValid() <==> Catalog.UniqueBookmarks(Bookmarks())
      ensures Catalog.KeysExact(Shelves())
      ensures old(ServicesValid()) ==>
        idIdx == old(idIdx) && containerIDIdx == old(containerIDIdx) && containerNameIdx == old(containerNameIdx)
      ensures old(ShelvesValid()) ==>
        && discoveredIdx == old(discoveredIdx) && discoveredContainerIdx == old(discoveredContainerIdx)
        && ignoredIdx == old(ignoredIdx)
        && (ignoredIPPortIdx == old(ignoredIPPortIdx) <==> old(Catalog.KeysExact(Shelves())))
      ensures old(BookmarksValid()) ==> bookmarkIdx == old(bookmarkIdx)
    {
      hide ServicesValid, BookmarksValid, ShelvesValid, ShelvesLoadable, Catalog.Unique, Catalog.UniqueBookmarks,
           Catalog.KeysExact, Deref, SliceOf, Structs, Services, Bookmarks, Shelves, Slice;
      RebuildServiceIndexes();
      RebuildListIndexes();
    }

    /** The half of it that is about lists. */
    method RebuildListIndexes()
      modifies this`discoveredIdx, this`discoveredContainerIdx, this`ignoredIdx, this`ignoredIPPortIdx, this`bookmarkIdx
      ensures ShelvesValid() <==> ShelvesLoadable(Shelves())
      ensures BookmarksValid() <==> Catalog.UniqueBookmarks(Bookmarks())
      ensures Catalog.KeysExact(Shelves())
      ensures old(ShelvesValid()) ==>
        && discoveredIdx == old(discoveredIdx) && discoveredContainerIdx == old(discoveredContainerIdx)
        && ignoredIdx == old(ignoredIdx)
        && (ignoredIPPortIdx == old(ignoredIPPortIdx) <==> old(Catalog.KeysExact(Shelves())))
      ensures old(BookmarksValid()) ==> bookmarkIdx == old(bookmarkIdx)
    {
      hide ServicesValid, BookmarksValid, ShelvesValid, ShelvesLoadable, Catalog.Unique, Catalog.UniqueBookmarks,
           Catalog.KeysExact, Deref, SliceOf, Structs, Services, Bookmarks, Shelves, Slice;
      RebuildShelfIndexes();
      RebuildBookmarkIndex();
    }

    /** What Save writes: the primary data. */
    ghost function Saved(): Snapshot
      reads `services, services.Values, `discovered, discovered, `ignored, `ignoredIPPortIdx, `bookmarks, bookmarks
    {
      Snapshot(Services(), Shelves().discovered, ignored, Bookmarks())
    }

    /** json.Unmarshal: new structs holding what the file says. The lookup maps are not touched. */
    method Decode(d: Snapshot)
      modifies this`services, this`discovered, this`ignored, this`bookmarks
      ensures Services() == d.services && Shelves().discovered == d.discovered && ignored == d.ignored
              && Bookmarks() == d.bookmarks
    {
      hide Deref, SliceOf, Structs;
      services := NewCells(d.services);
      discovered := NewSlice(d.discovered);
      ignored := d.ignored;
      bookmarks := NewSlice(d.bookmarks);
    }

    /** load: decode the file and rebuild the maps. They are right exactly when the file holds what a
        well-kept store could have saved: loading what one did save gives a well-kept store with the same
        data, so every lookup answers the same; only IsIgnored can differ, and then by answering for an
        ignored entry whose key had been dropped. */
    method Load(d: Snapshot)
      modifies this
      ensures Services() == d.services && Shelves().discovered == d.discovered && ignored == d.ignored
              && Bookmarks() == d.bookmarks
      ensures ServicesValid() && ShelvesValid() && BookmarksValid() <==> Loadable(d)
      ensures Catalog.KeysExact(Shelves())
    {
      hide ServicesValid, ShelvesValid, BookmarksValid, Catalog.Unique, Catalog.UniqueShelf, Catalog.UniqueIgnored,
           Catalog.UniqueBookmarks, Catalog.KeysExact, Catalog.Disjoint, Deref, SliceOf, Structs;
      Decode(d);
      RebuildIndexes();
      DisjointIs(Shelves(), d);
    }

    /** ReorderServices: list positions become display orders. */
    method ReorderServices(ids: seq<string>)
      requires ServicesValid()
      modifies services.Values
      ensures ServicesValid() && Services() == Catalog.Reorder(old(Services()), ids)
    {
      hide ServicesIndexed;
      ghost var data := Services();
      assert ids[..0] == [];
      for i := 0 to |ids|
        invariant Services() == Catalog.Reorder(data, ids[..i])
        invariant ServicesValid() && unchanged(this)
      {
        ghost var now := Services();
        LookupByID(now, services, idIdx, containerIDIdx, containerNameIdx, ids[i]);
        if ids[i] in idIdx {
          var svc := idIdx[ids[i]];
          ghost var k := Catalog.KeyWhere(now, Catalog.HasID(ids[i])).value;
          OneCell(now, services, idIdx, containerIDIdx, containerNameIdx, k);
          svc.v := svc.v.(order := i);
          assert Services() == now[k := now[k].(order := i)];
        }
        ReorderStep(data, services, idIdx, containerIDIdx, containerNameIdx, ids, i, now, Services());
      }
      assert ids[..|ids|] == ids;
    }

    method IsIgnored(ip: string, port: int) returns (yes: bool)
      ensures yes <==> Catalog.IsIgnored(Shelves(), ip, port)
    {
      yes := Text.Key(ip, port) in ignoredIPPortIdx;
    }
  }

  lemma SavedIsLoadable(s: Store)
    requires s.ServicesValid() && s.ShelvesValid() && s.BookmarksValid()
    ensures Loadable(s.Saved())
  {
  }

  method NewCells(data: Catalog.Services) returns (cells: Cells<Service>)
    ensures Deref(cells) == data
    ensures forall k | k in cells :: fresh(cells[k])
  {
    cells := map[];
    var todo := data.Keys;
    while todo != {}
      invariant todo <= data.Keys && forall k | k in cells :: fresh(cells[k])
      invariant Deref(cells) == data - todo
    {
      var k :| k in todo;
      var cell := new Ref(data[k]);
      DerefPut(cells, k, cell);
      assert (data - todo)[k := data[k]] == data - (todo - {k});
      cells := cells[k := cell];
      todo := todo - {k};
    }
    assert data - {} == data;
  }

  method NewSlice<T>(data: seq<T>) returns (cells: seq<Ref<T>>)
    ensures |cells| == |data|
    ensures forall i | 0 <= i < |cells| :: fresh(cells[i]) && cells[i].v == data[i]
    ensures Structs(SliceOf(cells)) == data
  {
    cells := [];
    for i := 0 to |data|
      invariant |cells| == i && forall j | 0 <= j < i :: fresh(cells[j]) && cells[j].v == data[j]
    {
      var cell := new Ref(data[i]);
      cells := cells + [cell];
    }
  }

  /** filterSlice on entries that are kept by value. */
  method FilterValues<T>(s: seq<T>, keep: T -> bool) returns (kept: seq<T>)
    ensures kept == Catalog.Filter(s, keep)
  {
    kept := [];
    for i := 0 to |s|
      invariant kept == Catalog.Filter(s[..i], keep)
    {
      assert s[..i + 1] == s[..i] + [s[i]];
      Catalog.FilterSnoc(s[..i], s[i], keep);
      if keep(s[i]) {
        kept := kept + [s[i]];
      }
    }
    assert s[..|s|] == s;
  }

  /** filterSlice: keep the pointers whose structs pass, in order. */
  method FilterSlice<T>(cells: seq<Ref<T>>, keep: T -> bool) returns (kept: seq<Ref<T>>)
    ensures SliceOf(kept) == Catalog.Filter(SliceOf(cells), OnStruct(keep))
    ensures forall c | c in kept :: c in cells
  {
    kept := [];
    for i := 0 to |cells|
      invariant SliceOf(kept) == Catalog.Filter(SliceOf(cells)[..i], OnStruct(keep))
      invariant forall c | c in kept :: c in cells
    {
      assert SliceOf(cells)[..i + 1] == SliceOf(cells)[..i] + [(cells[i].v, cells[i])];
      Catalog.FilterConcat(SliceOf(cells)[..i], [(cells[i].v, cells[i])], OnStruct(keep));
      if keep(cells[i].v) {
        assert SliceOf(kept + [cells[i]]) == SliceOf(kept) + [(cells[i].v, cells[i])];
        kept := kept + [cells[i]];
      }
    }
    assert SliceOf(cells)[..|cells|] == SliceOf(cells);
  }
}
