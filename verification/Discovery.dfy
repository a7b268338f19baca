/**
 The scans as they run on the indexed store (internal/discovery/discovery.go:130-238). What the scan
 pipeline delivers is a parameter; no other writer is active meanwhile.
 */
module Discovery {
  import opened Common
  import opened Entities
  import opened Scan
  import opened Indexing
  import opened IndexedStore
  import Catalog
  import Text

  /** The results from `from` on bring IDs nothing has. */
  ghost predicate NewIDs(s: Catalog.Shelves, fs: seq<Found>, from: nat) {
    (forall i | from <= i < |fs| :: Catalog.FreshID(s, fs[i].id)) &&
    (forall i, j | from <= i < j < |fs| :: fs[i].id != fs[j].id)
  }

  /** Upserting one result leaves the IDs of the later ones new. */
  lemma StillNew(s: Catalog.Shelves, fs: seq<Found>, i: nat)
    requires i < |fs| && Catalog.Orderly(s) && NewIDs(s, fs, i)
    ensures NewIDs(Catalog.Step(Catalog.Upsert(fs[i].Entry()), s), fs, i + 1)
    ensures Catalog.FreshID(s, fs[i].id) && NewIDs(s, fs, i + 1)
  {
    var s' := Catalog.Step(Catalog.Upsert(fs[i].Entry()), s);
    assert Catalog.FreshID(s, fs[i].id);
    Catalog.UpsertKeepsUnique(s.discovered, fs[i].Entry());
    forall j | i + 1 <= j < |fs| ensures Catalog.FreshID(s', fs[j].id) {
      assert Catalog.FreshID(s, fs[j].id) && fs[i].id != fs[j].id;
    }
  }

  lemma ClearedNew(s: Catalog.Shelves, fs: seq<Found>)
    requires NewIDs(s, fs, 0)
    ensures NewIDs(Catalog.Step(Catalog.Clear, s), fs, 0)
  {
    Catalog.FilterMembers(s.discovered, Catalog.NotNetwork());
    forall i | 0 <= i < |fs| ensures Catalog.FreshID(Catalog.Step(Catalog.Clear, s), fs[i].id) {
      assert Catalog.FreshID(s, fs[i].id);
    }
  }

  /** A set of exactly the services' targets, in both forms, finds what is assigned. */
  lemma AssignedByNames(services: Catalog.Services, m: set<string>, r: ProbeResult)
    requires forall k | k in services :: AllNames(services[k]) <= m
    requires forall t | t in m :: exists k :: NamedBy(services, k, t)
    ensures Assigned(services, r) <==> exists t :: t in m && Reaches(t, r)
  {
    hide Reaches, AllNames;
    if k, t :| NamedBy(services, k, t) && Reaches(t, r) {
      assert t in m;
    }
    if t :| t in m && Reaches(t, r) {
      var k :| NamedBy(services, k, t);
    }
  }

  class Scanner {
    const store: Store

    constructor (store: Store)
      ensures this.store == store
    {
      this.store := store;
    }

    method AssignedTargets() returns (m: set<string>)
      ensures forall r: ProbeResult ::
        Assigned(store.Services(), r) <==> exists t :: t in m && Reaches(t, r)
    {
      m := {};
      ghost var services := store.Services();
      var todo := store.services.Keys;
      while todo != {}
        invariant todo <= store.services.Keys
        invariant forall k | k in services && k !in todo :: AllNames(services[k]) <= m
        invariant forall t | t in m :: exists k :: NamedBy(services, k, t)
      {
        var k :| k in todo;
        var target := store.services[k].v.target;
        m := m + {target, Text.TrimRight(target, Slash())};
        assert forall t | t in AllNames(services[k]) :: NamedBy(services, k, t);
        todo := todo - {k};
      }
      forall r: ProbeResult ensures Assigned(services, r) <==> exists t :: t in m && Reaches(t, r) {
        AssignedByNames(services, m, r);
      }
    }

    method IgnoredSet() returns (m: set<string>)
      ensures forall r: ProbeResult :: Text.Key(r.ip, r.port) in m <==> Suppressed(store.ignored, r)
    {
      m := {};
      for i := 0 to |store.ignored|
        invariant m == Catalog.KeysOf(store.ignored[..i])
      {
        Catalog.KeysOfSnoc(store.ignored, i);
        m := m + {Text.Key(store.ignored[i].ip, store.ignored[i].port)};
      }
      assert store.ignored[..|store.ignored|] == store.ignored;
      forall r: ProbeResult ensures Text.Key(r.ip, r.port) in m <==> Suppressed(store.ignored, r) {
        SuppressedKey(store.ignored, r);
      }
    }

    method UpsertProbeResult(f: Found)
      requires store.ShelvesValid() && Catalog.FreshID(store.Shelves(), f.id)
      modifies store`discovered, store`discoveredIdx, store`discoveredContainerIdx, store.discovered
      ensures store.ShelvesValid()
      ensures store.Shelves() == Catalog.Step(Catalog.Upsert(f.Entry()), old(store.Shelves()))
      ensures forall c | c in store.discovered :: c in old(store.discovered) || fresh(c)
    {
      hide Store.ShelvesValid, Catalog.FreshID, Catalog.Step;
      var svc := new Ref(Discovered(f.id, f.r.ip, f.r.port, f.r.title, f.r.icon, f.r.serviceName, f.r.confidence,
                                    SOURCE_NETWORK, "", "", "", f.now));
      var _ := store.UpsertNetworkDiscovered(svc);
    }

    /** runScan, with the results in the order the channel delivers them. */
    method RunScan(results: seq<Found>)
      requires store.ShelvesValid() && NewIDs(store.Shelves(), results, 0)
      modifies store`discovered, store`discoveredIdx, store`discoveredContainerIdx, store.discovered
      ensures store.ShelvesValid()
      ensures store.Shelves() == old(store.Shelves()).(discovered :=
                FullScan(old(store.Shelves()).discovered, Accepted(store.Services(), store.ignored, results)))
    {
      hide Store.ShelvesValid, Catalog.Filter, Catalog.UpsertNetwork, Store.Services, Wanted, Accepted, Upserted,
           NewIDs, Structs, SliceOf, Text.Key, Reaches;
      var targets := AssignedTargets();
      var ignoredSet := IgnoredSet();
      ghost var igs, services := store.ignored, store.Services();
      ghost var kept := Catalog.ClearNetwork(store.Shelves().discovered);
      ClearedNew(store.Shelves(), results);
      NoneYet(services, igs, kept, results);
      store.ClearNetworkDiscovered();
      for i := 0 to |results|
        invariant store.ShelvesValid() && NewIDs(store.Shelves(), results, i)
        invariant store.Shelves().discovered == Upserted(kept, Accepted(services, igs, results[..i]))
        invariant forall c | c in store.discovered :: c in old(store.discovered) || fresh(c)
      {
        var r := results[i].r;
        OneMore(services, igs, kept, results, i);
        store.ShelvesInOrder();
        StillNew(store.Shelves(), results, i);
        if Text.Key(r.ip, r.port) in ignoredSet {
          continue;
        }
        if IsAssignedTarget(targets, r) {
          continue;
        }
        ghost var cells, before := store.discovered, old(store.discovered);
        forall i | 0 <= i < |cells| ensures fresh(cells[i]) || exists j :: 0 <= j < |before| && before[j] == cells[i] {
          assert cells[i] in cells;
        }
        UpsertProbeResult(results[i]);
      }
      assert results[..|results|] == results;
    }

    /** runLightScan: nothing is cleared first, and the ignored list is not looked at. */
    method RunLightScan(results: seq<Found>)
      requires store.ShelvesValid() && NewIDs(store.Shelves(), results, 0)
      modifies store`discovered, store`discoveredIdx, store`discoveredContainerIdx, store.discovered
      ensures store.ShelvesValid()
      ensures store.Shelves() == old(store.Shelves()).(discovered :=
                Upserted(old(store.Shelves()).discovered, Accepted(store.Services(), [], results)))
    {
      hide Store.ShelvesValid, Catalog.UpsertNetwork, Store.Services, Assigned, Accepted, Upserted, NewIDs, Structs,
           SliceOf, Reaches;
      var targets := AssignedTargets();
      ghost var services, ds := store.Services(), store.Shelves().discovered;
      NoneYet(services, [], ds, results);
      for i := 0 to |results|
        invariant store.ShelvesValid() && NewIDs(store.Shelves(), results, i)
        invariant store.Shelves().discovered == Upserted(ds, Accepted(services, [], results[..i]))
        invariant forall c | c in store.discovered :: c in old(store.discovered) || fresh(c)
      {
        OneMore(services, [], ds, results, i);
        store.ShelvesInOrder();
        StillNew(store.Shelves(), results, i);
        if IsAssignedTarget(targets, results[i].r) {
          continue;
        }
        ghost var cells, before := store.discovered, old(store.discovered);
        forall i | 0 <= i < |cells| ensures fresh(cells[i]) || exists j :: 0 <= j < |before| && before[j] == cells[i] {
          assert cells[i] in cells;
        }
        UpsertProbeResult(results[i]);
      }
      assert results[..|results|] == results;
    }
  }

  lemma OneMore(services: Catalog.Services, igs: seq<Ignored>, kept: Catalog.Shelf, fs: seq<Found>, i: nat)
    requires i < |fs|
    ensures var good, now := Accepted(services, igs, fs[..i]), Accepted(services, igs, fs[..i + 1]);
      Upserted(kept, now) == if Suppressed(igs, fs[i].r) || Assigned(services, fs[i].r) then Upserted(kept, good)
                             else Catalog.UpsertNetwork(Upserted(kept, good), fs[i].Entry())
  {
    var good, more := Accepted(services, igs, fs[..i]), fs[..i + 1];
    assert more[..|more| - 1] == fs[..i] && more[|more| - 1] == fs[i];
    if Wanted(services, igs, fs[i].r) {
      var now := good + [fs[i]];
      assert Accepted(services, igs, more) == now;
      assert now[..|now| - 1] == good && now[|now| - 1] == fs[i];
    } else {
      assert Accepted(services, igs, more) == good;
    }
  }

  lemma NoneYet(services: Catalog.Services, igs: seq<Ignored>, kept: Catalog.Shelf, fs: seq<Found>)
    ensures Upserted(kept, Accepted(services, igs, fs[..0])) == kept
  {
  }

  predicate IsAssignedTarget(targets: set<string>, r: ProbeResult)
    ensures IsAssignedTarget(targets, r) <==> exists t :: t in targets && Reaches(t, r)
  {
    var hp := HostPort(r.ip, r.port);
    assert forall t :: Reaches(t, r) <==> t in {r.url, "http://" + hp, "https://" + hp};
    r.url in targets || "http://" + hp in targets || "https://" + hp in targets
  }

  lemma SuppressedKey(igs: seq<Ignored>, r: ProbeResult)
    ensures Text.Key(r.ip, r.port) in Catalog.KeysOf(igs) <==> Suppressed(igs, r)
  {
    if Text.Key(r.ip, r.port) in Catalog.KeysOf(igs) {
      var i :| 0 <= i < |igs| && Catalog.KeyOf(igs[i]) == Text.Key(r.ip, r.port);
      Text.KeyInjective(igs[i].ip, igs[i].port, r.ip, r.port);
      assert igs[i] in igs;
    }
    if Suppressed(igs, r) {
      var ig :| ig in igs && ig.ip == r.ip && ig.port == r.port;
      var i :| 0 <= i < |igs| && igs[i] == ig;
      assert Catalog.KeyOf(igs[i]) in Catalog.KeysOf(igs);
    }
  }
}
