/**
 Edits that start from, or lead to, a store and a Cloudflare that disagree: of a service whose container
 has moved, and onto a subdomain that another service has (internal/web/handle_services.go:390-506).
 */
module Edits {
  import opened Common
  import opened Entities
  import opened Ingress
  import opened Cloudflare
  import opened Dns
  import opened Tracking
  import opened Handlers
  import opened Runs
  import Catalog
  import Text

  // ---- A stale rule ---------------------------------------------------------------------------------------

  /** Cloudflare holds what the store says but for the service at `k`, whose rule still leads to `old_`. */
  ghost predicate Stale(g: Setting, o: Outside, s: Sys, k: string, old_: string) {
    && k in s.services && s.services[k].subdomain == k && s.services[k].tunnelRouteID != ""
    && s.services[k].target != old_
    && Tracked(g.env, o, s.services[k := s.services[k].(target := old_)], s.remote)
  }

  /** The edit asks for another subdomain, another target, or no tunnel. */
  predicate Changes(g: Setting, svc: Service, edit: UpdateRequest) {
    || NewKey(g, svc, edit) != svc.subdomain
    || OrElse(edit.target, svc.target) != svc.target
    || !UpdateWant(g, svc, edit).Mode().Tunnelled?
  }

  /** What an edit that does something makes of a service whose rule is stale. */
  lemma StaleRepaired(g: Setting, a: Account, o: Outside, s: Sys, k: string, old_: string, edit: UpdateRequest)
    requires Working(g, a, o) && FreshIds(g.world, s.remote) && Stale(g, o, s, k, old_)
    requires var want := UpdateWant(g, s.services[k], edit);
      && want.subdomain !in s.services - {k} && (!want.directOnly ==> o.Free(g.env.Host(want.subdomain)))
    requires Changes(g, s.services[k], edit)
    ensures var want := UpdateWant(g, s.services[k], edit);
      var r := Reconcile(g.env, g.world, a, s.remote, StateOf(s.services[k]), want);
      Tracked(g.env, o, (s.services - {k})[want.subdomain := WithRecord(Revised(g, s.services[k], edit), r)], r.remote)
  {
    var svc, rest := s.services[k], s.services - {k};
    var svc0 := svc.(target := old_);
    var want := UpdateWant(g, svc, edit);
    var r := Reconcile(g.env, g.world, a, s.remote, StateOf(svc), want);
    var nu := WithRecord(Revised(g, svc, edit), r);
    assert With(rest, Some(svc0)) == s.services[k := svc0];
    assert With(rest, Some(nu)) == (s.services - {k})[want.subdomain := nu];
    hide Tracked, Reconcile;
    StaleReady(g, a, o, s, k, old_, want);
    ReconcileEffect(g.env, g.world, a, s.remote, StateOf(svc), want);
    MovedTracked(g.env, o, a, rest, Some(svc0), nu, s.remote, r.remote, want);
  }

  lemma StaleReady(g: Setting, a: Account, o: Outside, s: Sys, k: string, old_: string, want: DnsState)
    requires Working(g, a, o) && FreshIds(g.world, s.remote) && Stale(g, o, s, k, old_)
    requires want.subdomain !in s.services - {k} && (!want.directOnly ==> o.Free(g.env.Host(want.subdomain)))
    ensures Ready(g.env, g.world, a, s.remote, StateOf(s.services[k]), want)
  {
    var rest, svc0 := s.services - {k}, s.services[k].(target := old_);
    var r := Reconcile(g.env, g.world, a, s.remote, StateOf(svc0), want);
    var nu0 := svc0.(subdomain := want.subdomain, target := want.target, directOnly := want.directOnly,
                     dnsRecordID := r.dnsID, tunnelRouteID := r.routeID);
    assert With(rest, Some(svc0)) == s.services[k := svc0];
    hide Tracked, Reconcile;
    ChangeReady(g.env, o, g.world, a, s.remote, rest, Some(svc0), Some(nu0), want);
  }

  /** An edit repairs a stale rule exactly when it changes the service's subdomain, target or mode: saving
      the form again as it is sends nothing to Cloudflare, so the rule stays as it was. */
  lemma EditRepairsIff(g: Setting, a: Account, o: Outside, s: Sys, k: string, old_: string, edit: UpdateRequest)
    requires Working(g, a, o) && FreshIds(g.world, s.remote) && Stale(g, o, s, k, old_)
    requires Catalog.DistinctIDs(s.services)
    requires KeyFree(g, s, s.services[k].id, edit)
    requires var want := UpdateWant(g, s.services[k], edit); !want.directOnly ==> o.Free(g.env.Host(want.subdomain))
    ensures var s' := Update(g, a, s, s.services[k].id, edit).0;
      && (Tracked(g.env, o, s'.services, s'.remote) <==> Changes(g, s.services[k], edit))
      && (!Changes(g, s.services[k], edit) ==> s'.remote == s.remote)
  {
    hide Tracked;
    var svc := s.services[k];
    var s' := Update(g, a, s, svc.id, edit).0;
    Catalog.KeyByID(s.services, k);
    assert s'.services == (s.services - {k})[NewKey(g, svc, edit) := s'.services[NewKey(g, svc, edit)]];
    if Changes(g, svc, edit) {
      StaleRepaired(g, a, o, s, k, old_, edit);
    } else {
      var nu := s'.services[k];
      StaleRouted(g, o, s, k, old_);
      assert PlanDNS(StateOf(svc), UpdateWant(g, svc, edit)) == Noop;
      assert nu.subdomain == k && nu.target == svc.target && nu.tunnelRouteID != "";
      StillStale(g, o, s, s', k, old_);
    }
  }

  lemma StaleRouted(g: Setting, o: Outside, s: Sys, k: string, old_: string)
    requires Stale(g, o, s, k, old_)
    ensures !s.services[k].directOnly
  {
    var was := s.services[k := s.services[k].(target := old_)];
    assert Coherent(g.env, o, k, was[k]);
  }

  lemma StillStale(g: Setting, o: Outside, s: Sys, s': Sys, k: string, old_: string)
    requires Stale(g, o, s, k, old_) && s'.remote == s.remote
    requires k in s'.services && s'.services[k].tunnelRouteID != "" && s'.services[k].target != old_
    ensures !Tracked(g.env, o, s'.services, s'.remote)
  {
    var host := g.env.Host(k);
    HostInjective(g.env, k, k);
    var was := s.services[k := s.services[k].(target := old_)];
    assert Routes(g.env, was, k, host) && Routes(g.env, s'.services, k, host);
    assert Only(s.remote.ingress, host) == [Rule(host, old_)];
  }

  // ---- A subdomain that is taken --------------------------------------------------------------------------

  /** Taking a service and what it has published away together leaves the rest tracked. */
  lemma TakenAway(e: Env, o: Outside, all: map<string, Service>, r: Remote, l: string, r0: Remote)
    requires Tracked(e, o, all, r) && l in all && !all[l].directOnly
    requires r0.records == r.records - {all[l].dnsRecordID}
    requires forall q | q != "" :: Only(r0.ingress, q) == if q == e.Host(l) then [] else Only(r.ingress, q)
    ensures Tracked(e, o, all - {l}, r0)
  {
    assert Coherent(e, o, l, all[l]);
    hide RecordsTracked, IngressTracked, DistinctRecords;
    TakenRecords(e, o, all, r, l, r0);
    TakenRules(e, o, all, r, l, r0);
    forall k | k in all - {l} ensures Coherent(e, o, k, all[k]) {
    }
  }

  lemma TakenRecords(e: Env, o: Outside, all: map<string, Service>, r: Remote, l: string, r0: Remote)
    requires RecordsTracked(e, o, all, r) && DistinctRecords(all) && l in all
    requires r0.records == r.records - {all[l].dnsRecordID} && "" !in r.records
    ensures RecordsTracked(e, o, all - {l}, r0) && DistinctRecords(all - {l})
  {
    var rest, gone := all - {l}, all[l].dnsRecordID;
    assert Holds(e, o, all[l], r);
    forall k | k in rest ensures Holds(e, o, rest[k], r0) {
      assert Holds(e, o, all[k], r);
      assert all[k].dnsRecordID == gone ==> gone == "";
    }
    forall i | i in r0.records && i !in o.records ensures exists k :: Holder(rest, k, i) {
      var k :| Holder(all, k, i);
      assert Holder(rest, k, i);
    }
  }

  lemma TakenRules(e: Env, o: Outside, all: map<string, Service>, r: Remote, l: string, r0: Remote)
    requires IngressTracked(e, o, all, r) && l in all && o.Free(e.Host(l))
    requires forall q | q != "" :: Only(r0.ingress, q) == if q == e.Host(l) then [] else Only(r.ingress, q)
    ensures IngressTracked(e, o, all - {l}, r0)
  {
    var rest := all - {l};
    forall q | q != ""
      ensures forall k | Routes(e, rest, k, q) :: Only(r0.ingress, q) == [Rule(q, rest[k].target)]
      ensures (forall k :: !Routes(e, rest, k, q)) ==> Only(r0.ingress, q) == Only(o.ingress, q)
    {
      forall k ensures Routes(e, rest, k, q) <==> Routes(e, all, k, q) && q != e.Host(l) {
        HostInjective(e, k, l);
      }
      if q != e.Host(l) {
        assert (forall k :: !Routes(e, rest, k, q)) ==> forall k :: !Routes(e, all, k, q);
      }
    }
  }

  /** Adding a tunnel route takes over a hostname that has one record: AddTunnelRoute removes the rules and
      deletes the record it finds. */
  lemma AddOverEffect(e: Env, w: World, a: Account, r: Remote, host: string, backend: string, old_: string)
    requires AllDone(w) && Lists(w) && a.TunnelEnabled() && a.Valid() && FreshIds(w, r) && "" !in r.records
    requires old_ in r.records && forall i | i in r.records :: r.records[i].name == host <==> i == old_
    ensures var (r', id) := AddTunnelRoute(w, a, r, host, backend);
      && id.Some? && (exists n: nat :: r.calls <= n && id.value == w.newId(n))
      && r'.records == (r.records - {old_})[id.value := Record(CNAME, host, a.Endpoint())]
      && forall q | q != "" :: Only(r'.ingress, q) == if q == host then [Rule(host, backend)] else Only(r.ingress, q)
  {
    assert w.outcome(r.calls).Done? && w.outcome(r.calls + 1).Done? && w.outcome(r.calls + 2).Done?
        && w.outcome(r.calls + 3).Done? && w.outcome(r.calls + 4).Done?;
    var (r1, ok) := EditIngress(w, r, AddRoute(host, backend));
    var hits := set i | i in r1.records && r1.records[i].name == host;
    assert hits == {old_};
    assert w.first(r1.calls, hits) in hits;
    assert AddTunnelRoute(w, a, r, host, backend).1 == Some(w.newId(r.calls + 4));
    forall q | q != ""
      ensures Only(Edited(AddRoute(host, backend), r.ingress), q) ==
              if q == host then [Rule(host, backend)] else Only(r.ingress, q)
    {
      OnlyEdited(AddRoute(host, backend), r.ingress, q);
    }
  }

  /** The edit moves the service at `k` onto the subdomain `l` of another one. */
  ghost predicate Overwrites(g: Setting, s: Sys, k: string, edit: UpdateRequest, l: string) {
    && k in s.services && l in s.services && l != k
    && NewKey(g, s.services[k], edit) == l && !UpdateWant(g, s.services[k], edit).directOnly
  }

  /** What the overwritten service has published is taken over: it had nothing, or the edit adds a tunnel
      route, which clears the hostname first. */
  predicate TakesOver(g: Setting, svc: Service, other: Service, edit: UpdateRequest) {
    other.dnsRecordID == "" || (UpdateWant(g, svc, edit).Mode().Tunnelled? && svc.tunnelRouteID == "")
  }

  /** A routed service's hostname is free outside, has its record and no other, and has rules only if the
      service is behind the tunnel. */
  lemma AtHost(e: Env, o: Outside, all: map<string, Service>, r: Remote, l: string)
    requires Tracked(e, o, all, r) && l in all && !all[l].directOnly
    ensures o.Free(e.Host(l)) && all[l].subdomain == l && "" !in r.records
    ensures all[l].dnsRecordID != "" ==> all[l].dnsRecordID !in o.records
    ensures all[l].dnsRecordID != "" ==>
              all[l].dnsRecordID in r.records && r.records[all[l].dnsRecordID].name == e.Host(l)
    ensures forall i | i in r.records && r.records[i].name == e.Host(l) :: i == all[l].dnsRecordID
    ensures all[l].dnsRecordID == "" ==> Only(r.ingress, e.Host(l)) == []
  {
    assert Coherent(e, o, l, all[l]) && Holds(e, o, all[l], r);
    HostInjective(e, l, l);
    forall k ensures Routes(e, all, k, e.Host(l)) ==> k == l {
      HostInjective(e, k, l);
    }
    forall i | i in r.records && r.records[i].name == e.Host(l) ensures i == all[l].dnsRecordID {
      var k :| Holder(all, k, i);
      assert Holds(e, o, all[k], r) && Coherent(e, o, k, all[k]);
      HostInjective(e, k, l);
    }
  }

  /** The overwritten service had nothing published: as if it had not been there. */
  lemma OverwriteNothing(g: Setting, a: Account, o: Outside, s: Sys, k: string, edit: UpdateRequest, l: string)
    requires Working(g, a, o) && Tracked(g.env, o, s.services, s.remote) && FreshIds(g.world, s.remote)
    requires Overwrites(g, s, k, edit, l) && s.services[k].subdomain == k && !s.services[l].directOnly
    requires s.services[l].dnsRecordID == ""
    ensures var want := UpdateWant(g, s.services[k], edit);
      var r := Reconcile(g.env, g.world, a, s.remote, StateOf(s.services[k]), want);
      Tracked(g.env, o, (s.services - {k})[l := WithRecord(Revised(g, s.services[k], edit), r)], r.remote)
  {
    hide Tracked, Reconcile;
    var svc, rest, want := s.services[k], s.services - {k} - {l}, UpdateWant(g, s.services[k], edit);
    var r := Reconcile(g.env, g.world, a, s.remote, StateOf(svc), want);
    var nu := WithRecord(Revised(g, svc, edit), r);
    AtHost(g.env, o, s.services, s.remote, l);
    assert s.remote.records - {""} == s.remote.records;
    TakenAway(g.env, o, s.services, s.remote, l, s.remote);
    assert With(rest, Some(svc)) == s.services - {l};
    assert With(rest, Some(nu)) == (s.services - {k})[l := nu];
    ChangeTracked(g.env, o, g.world, a, s.remote, rest, Some(svc), Some(nu), want);
  }

  /** The edit adds a tunnel route: what the overwritten service had published is cleared away. */
  lemma OverwriteByTunnel(g: Setting, a: Account, o: Outside, s: Sys, k: string, edit: UpdateRequest, l: string)
    requires Working(g, a, o) && Tracked(g.env, o, s.services, s.remote) && FreshIds(g.world, s.remote)
    requires Overwrites(g, s, k, edit, l) && s.services[k].subdomain == k && !s.services[l].directOnly
    requires s.services[l].dnsRecordID != "" && s.services[k].tunnelRouteID == ""
    requires UpdateWant(g, s.services[k], edit).Mode().Tunnelled?
    ensures var want := UpdateWant(g, s.services[k], edit);
      var r := Reconcile(g.env, g.world, a, s.remote, StateOf(s.services[k]), want);
      Tracked(g.env, o, (s.services - {k})[l := WithRecord(Revised(g, s.services[k], edit), r)], r.remote)
  {
    hide Tracked, Reconcile;
    var e, svc, gone := g.env, s.services[k], s.services[l].dnsRecordID;
    var rest, want, host := s.services - {k} - {l}, UpdateWant(g, svc, edit), e.Host(l);
    var r := Reconcile(e, g.world, a, s.remote, StateOf(svc), want);
    var nu := WithRecord(Revised(g, svc, edit), r);
    var r0 := s.remote.(records := s.remote.records - {gone}, ingress := Drop(s.remote.ingress, {host}));
    AtHost(e, o, s.services, s.remote, l);
    forall q | q != "" ensures Only(r0.ingress, q) == if q == host then [] else Only(s.remote.ingress, q) {
      OnlyDrop(s.remote.ingress, {host}, q);
    }
    TakenAway(e, o, s.services, s.remote, l, r0);
    assert With(rest, Some(svc)) == s.services - {l};
    assert With(rest, Some(nu)) == (s.services - {k})[l := nu];
    KeptApart(e, o, s.services, s.remote, k, l);
    TunnelMoves(e, g.world, a, s.remote, StateOf(svc), want, gone, r0);
    MovedTracked(e, o, a, rest, Some(svc), nu, r0, r.remote, want);
  }

  /** The record `gone` of the hostname and its rules make way for a tunnel route. */
  lemma TunnelMoves(e: Env, w: World, a: Account, r: Remote, was: DnsState, want: DnsState, gone: string, r0: Remote)
    requires AllDone(w) && Lists(w) && FreshIds(w, r) && a.Valid() && a.TunnelEnabled() && "" !in r.records
    requires want.Mode().Tunnelled? && !was.tunnel && (was.directOnly ==> was.dnsRecordID == "")
    requires gone in r.records && gone != was.dnsRecordID
    requires forall i | i in r.records :: r.records[i].name == e.Host(want.subdomain) <==> i == gone
    requires r0.records == r.records - {gone}
    requires forall q | q != "" ::
               Only(r0.ingress, q) == if q == e.Host(want.subdomain) then [] else Only(r.ingress, q)
    ensures var s := Reconcile(e, w, a, r, was, want);
      && Swapped(r0, s.remote, was.dnsRecordID, s.dnsID, WantedRecord(e, a, want))
      && Rerouted(e, a, r0, s.remote, was, want) && s.routeID == e.Host(want.subdomain)
  {
    hide Reconcile, AddTunnelRoute, DeleteKnown;
    HostInjective(e, want.subdomain, want.subdomain);
    var r1 := DeleteKnown(w, a, r, was.dnsRecordID);
    DeleteEffect(w, a, r, was.dnsRecordID);
    CallsGrow(w, a, r, was.dnsRecordID);
    AddOverEffect(e, w, a, r1, e.Host(want.subdomain), want.target, gone);
    TunnelPlan(e, w, a, r, was, want);
    assert r1.records - {gone} == r0.records - {was.dnsRecordID};
  }

  lemma CallsGrow(w: World, a: Account, r: Remote, id: string)
    ensures r.calls <= DeleteKnown(w, a, r, id).calls
  {
  }

  lemma TunnelPlan(e: Env, w: World, a: Account, r: Remote, was: DnsState, want: DnsState)
    requires want.Mode().Tunnelled? && !was.Mode().Tunnelled? && a.TunnelEnabled()
    requires was.directOnly ==> was.dnsRecordID == ""
    ensures Reconcile(e, w, a, r, was, want) == PublishTunnel(e, w, a, DeleteKnown(w, a, r, was.dnsRecordID), want)
  {
    hide AddTunnelRoute, DeleteRecord;
  }

  lemma KeptApart(e: Env, o: Outside, all: map<string, Service>, r: Remote, k: string, l: string)
    requires Tracked(e, o, all, r) && k in all && l in all && k != l && all[l].dnsRecordID != ""
    ensures all[k].dnsRecordID != all[l].dnsRecordID
    ensures all[k].directOnly ==> all[k].dnsRecordID == ""
  {
    assert Coherent(e, o, k, all[k]);
  }

  /** Otherwise the overwritten service's record stays, with no service to it. */
  lemma OverwriteOrphans(g: Setting, a: Account, o: Outside, s: Sys, k: string, edit: UpdateRequest, l: string)
    requires Working(g, a, o) && Tracked(g.env, o, s.services, s.remote) && FreshIds(g.world, s.remote)
    requires Overwrites(g, s, k, edit, l) && s.services[k].subdomain == k && !s.services[l].directOnly
    requires !TakesOver(g, s.services[k], s.services[l], edit)
    ensures var want := UpdateWant(g, s.services[k], edit);
      var r := Reconcile(g.env, g.world, a, s.remote, StateOf(s.services[k]), want);
      !Tracked(g.env, o, (s.services - {k})[l := WithRecord(Revised(g, s.services[k], edit), r)], r.remote)
  {
    var e, svc, gone := g.env, s.services[k], s.services[l].dnsRecordID;
    var want := UpdateWant(g, svc, edit);
    var r := Reconcile(e, g.world, a, s.remote, StateOf(svc), want);
    var after := (s.services - {k})[l := WithRecord(Revised(g, svc, edit), r)];
    AtHost(e, o, s.services, s.remote, l);
    KeptApart(e, o, s.services, s.remote, k, l);
    RecordStays(g, a, s.remote, StateOf(svc), want, gone);
    forall m | m in after ensures after[m].dnsRecordID != gone {
      if m != l {
        assert m in s.services && after[m] == s.services[m];
      }
    }
  }

  lemma RecordStays(g: Setting, a: Account, r: Remote, was: DnsState, want: DnsState, id: string)
    requires AllDone(g.world) && FreshIds(g.world, r) && a.Valid() && a.TunnelEnabled()
    requires id != "" && id in r.records && id != was.dnsRecordID
    requires !want.directOnly && want.subdomain != was.subdomain
    requires !(want.Mode().Tunnelled? && !was.Mode().Tunnelled?)
    ensures var s := Reconcile(g.env, g.world, a, r, was, want); id in s.remote.records && s.dnsID != id
  {
    assert g.world.outcome(r.calls).Done? && g.world.outcome(r.calls + 1).Done? && g.world.outcome(r.calls + 2).Done?
        && g.world.outcome(r.calls + 3).Done?;
  }

  /** An edit onto a taken subdomain leaves Cloudflare holding what the store then says exactly when what
      the overwritten service had published is taken over; otherwise its record is orphaned. */
  lemma OverwriteTrackedIff(g: Setting, a: Account, o: Outside, s: Sys, k: string, edit: UpdateRequest, l: string)
    requires Working(g, a, o) && Good(g, o, s) && Overwrites(g, s, k, edit, l)
    ensures var s' := Update(g, a, s, s.services[k].id, edit).0;
      Tracked(g.env, o, s'.services, s'.remote) <==> TakesOver(g, s.services[k], s.services[l], edit)
  {
    hide Tracked, Published, FreshIds, Reconcile;
    Catalog.KeyByID(s.services, k);
    TakenIsRouted(g, s, k, edit, l);
    if !TakesOver(g, s.services[k], s.services[l], edit) {
      OverwriteOrphans(g, a, o, s, k, edit, l);
    } else if s.services[l].dnsRecordID == "" {
      OverwriteNothing(g, a, o, s, k, edit, l);
    } else {
      OverwriteByTunnel(g, a, o, s, k, edit, l);
    }
  }

  lemma TakenIsRouted(g: Setting, s: Sys, k: string, edit: UpdateRequest, l: string)
    requires KeysFormed(s.services) && Overwrites(g, s, k, edit, l)
    ensures s.services[k].subdomain == k && !s.services[l].directOnly
  {
    assert KeyFormed(k, s.services[k]) && KeyFormed(l, s.services[l]);
    Text.SanitisedIsLabel(g.unicode, edit.subdomain);
    LabelsAreNotDirect(l, s.services[l].id);
  }
}
