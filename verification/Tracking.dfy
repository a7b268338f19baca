/**
 The remote state as a function of the store: what it means that Cloudflare holds exactly what the
 services say, and which reconciliations keep it so (internal/web/handle_services.go:253-388).
 */
module Tracking {
  import opened Common
  import opened Entities
  import opened Ingress
  import opened Cloudflare
  import opened Dns

  /** What Cloudflare held before and apart from the services: records, ingress rules, and the
      endpoint name of the tunnel that the services' CNAMEs point at. */
  datatype Outside = Outside(records: map<string, Record>, ingress: seq<Rule>, endpoint: string) {
    /** Nothing outside uses this hostname. */
    ghost predicate Free(host: string) {
      (forall i | i in records :: records[i].name != host) && Only(ingress, host) == []
    }
  }

  /** The record a service's stored ID should name. */
  function RecordOf(e: Env, endpoint: string, s: Service): Record {
    if s.tunnelRouteID != "" then Record(CNAME, e.Host(s.subdomain), endpoint)
    else Record(A, e.Host(s.subdomain), e.serverIP)
  }

  /** The stored IDs of one service fit together. */
  ghost predicate Coherent(e: Env, o: Outside, k: string, s: Service) {
    && s.subdomain == k
    && (s.directOnly ==> s.dnsRecordID == "" && s.tunnelRouteID == "")
    && (s.tunnelRouteID != "" ==> s.tunnelRouteID == e.Host(k) && s.dnsRecordID != "")
    && (!s.directOnly ==> o.Free(e.Host(k)))
  }

  /** No two services hold the same record. */
  ghost predicate DistinctRecords(services: map<string, Service>) {
    forall k, l | k in services && l in services && k != l ::
      services[k].dnsRecordID == services[l].dnsRecordID ==> services[k].dnsRecordID == ""
  }

  ghost predicate Holder(services: map<string, Service>, k: string, id: string) {
    k in services && services[k].dnsRecordID == id
  }

  /** The record one service refers to exists, is its own, and says the right thing. */
  ghost predicate Holds(e: Env, o: Outside, s: Service, r: Remote) {
    s.dnsRecordID != "" ==>
      && s.dnsRecordID !in o.records && s.dnsRecordID in r.records
      && r.records[s.dnsRecordID] == RecordOf(e, o.endpoint, s)
  }

  ghost predicate OutsideKept(o: Outside, r: Remote) {
    forall i | i in o.records :: i in r.records && r.records[i] == o.records[i]
  }

  ghost predicate NoOrphans(o: Outside, services: map<string, Service>, r: Remote) {
    forall i | i in r.records && i !in o.records :: exists k :: Holder(services, k, i)
  }

  ghost predicate RecordsTracked(e: Env, o: Outside, services: map<string, Service>, r: Remote) {
    && (forall k | k in services :: Holds(e, o, services[k], r))
    && OutsideKept(o, r)
    && NoOrphans(o, services, r)
  }

  /** The rules the services ask for at one hostname. */
  ghost predicate Routes(e: Env, services: map<string, Service>, k: string, host: string) {
    k in services && services[k].tunnelRouteID != "" && e.Host(k) == host
  }

  ghost predicate IngressTracked(e: Env, o: Outside, services: map<string, Service>, r: Remote) {
    forall q | q != "" ::
      (forall k | Routes(e, services, k, q) :: Only(r.ingress, q) == [Rule(q, services[k].target)]) &&
      ((forall k :: !Routes(e, services, k, q)) ==> Only(r.ingress, q) == Only(o.ingress, q))
  }

  /** Cloudflare holds what was there before plus exactly what the stored IDs say: no orphans, nothing
      dangling, every record and rule with the right content. */
  ghost predicate Tracked(e: Env, o: Outside, services: map<string, Service>, r: Remote) {
    && (forall k | k in services :: Coherent(e, o, k, services[k]))
    && DistinctRecords(services)
    && RecordsTracked(e, o, services, r)
    && IngressTracked(e, o, services, r)
    && "" !in r.records
  }

  /** Every service that asks for a hostname has it published. */
  ghost predicate Published(e: Env, services: map<string, Service>) {
    forall k | k in services && !services[k].directOnly ::
      services[k].dnsRecordID != "" <==> services[k].tunnelRouteID != "" || e.serverIP != ""
  }

  /** Two remote states that track the same services over the same outside hold the same records and
      answer every hostname alike, however each was reached. */
  lemma TrackedDetermines(e: Env, o: Outside, services: map<string, Service>, r1: Remote, r2: Remote)
    requires Tracked(e, o, services, r1) && Tracked(e, o, services, r2)
    ensures r1.records == r2.records
    ensures forall q | q != "" :: Lookup(r1.ingress, q) == Lookup(r2.ingress, q)
  {
    forall i ensures i in r1.records ==> i in r2.records && r1.records[i] == r2.records[i]
             ensures i in r2.records ==> i in r1.records
    {
    }
    forall q | q != "" ensures Lookup(r1.ingress, q) == Lookup(r2.ingress, q) {
      LookupOnly(r1.ingress, q);
      LookupOnly(r2.ingress, q);
      if k :| Routes(e, services, k, q) {
        assert Only(r1.ingress, q) == [Rule(q, services[k].target)] == Only(r2.ingress, q);
      }
    }
  }

  /** The same services configured the same way; record IDs, which depend on how many requests have been
      made, may differ. */
  ghost predicate SameConfig(s: map<string, Service>, s': map<string, Service>) {
    s'.Keys == s.Keys && forall k | k in s :: s'[k] == s[k].(dnsRecordID := s'[k].dnsRecordID)
  }

  /** Each record that is not of the outside has one of equal content in the other state. */
  ghost predicate Mirrored(o: Outside, r: Remote, r': Remote) {
    forall i | i in r.records && i !in o.records ::
      exists j :: j in r'.records && j !in o.records && r'.records[j] == r.records[i]
  }

  /** Service by service the two states hold equal records, or neither holds one. */
  ghost predicate SameRecords(s: map<string, Service>, s': map<string, Service>, r: Remote, r': Remote) {
    forall k | k in s && k in s' ::
      && (s[k].dnsRecordID == "" <==> s'[k].dnsRecordID == "")
      && (s[k].dnsRecordID != "" ==>
            s[k].dnsRecordID in r.records && s'[k].dnsRecordID in r'.records
            && r.records[s[k].dnsRecordID] == r'.records[s'[k].dnsRecordID])
  }

  lemma SameServiceRecords(e: Env, o: Outside, s: map<string, Service>, s': map<string, Service>, r: Remote, r': Remote)
    requires Tracked(e, o, s, r) && Tracked(e, o, s', r') && Published(e, s) && Published(e, s') && SameConfig(s, s')
    ensures SameRecords(s, s', r, r')
  {
    forall k | k in s
      ensures s[k].dnsRecordID == "" <==> s'[k].dnsRecordID == ""
      ensures Holds(e, o, s[k], r) && Holds(e, o, s'[k], r')
    {
      assert Coherent(e, o, k, s[k]) && Coherent(e, o, k, s'[k]);
    }
  }

  lemma RecordsMirrored(e: Env, o: Outside, s: map<string, Service>, s': map<string, Service>, r: Remote, r': Remote)
    requires RecordsTracked(e, o, s, r) && RecordsTracked(e, o, s', r') && s.Keys == s'.Keys && "" !in r.records
    requires SameRecords(s, s', r, r')
    ensures Mirrored(o, r, r')
  {
    forall i | i in r.records && i !in o.records
      ensures exists j :: j in r'.records && j !in o.records && r'.records[j] == r.records[i]
    {
      var k :| Holder(s, k, i);
      assert Holds(e, o, s'[k], r');
    }
  }

  lemma SameRules(e: Env, o: Outside, s: map<string, Service>, s': map<string, Service>, r: Remote, r': Remote,
                  q: string)
    requires IngressTracked(e, o, s, r) && IngressTracked(e, o, s', r') && SameConfig(s, s') && q != ""
    ensures Lookup(r.ingress, q) == Lookup(r'.ingress, q)
  {
    LookupOnly(r.ingress, q);
    LookupOnly(r'.ingress, q);
    assert forall k :: Routes(e, s, k, q) <==> Routes(e, s', k, q);
    if k :| Routes(e, s, k, q) {
      assert Only(r.ingress, q) == [Rule(q, s[k].target)] == Only(r'.ingress, q);
    }
  }

  /** What is published depends on how the services are configured, and on nothing else: two tracked remote
      states with the same configuration answer every hostname alike and hold equal records, though under
      IDs of their own. */
  lemma ConfigDetermines(e: Env, o: Outside, s: map<string, Service>, s': map<string, Service>, r: Remote, r': Remote)
    requires Tracked(e, o, s, r) && Tracked(e, o, s', r') && Published(e, s) && Published(e, s') && SameConfig(s, s')
    ensures SameRecords(s, s', r, r') && Mirrored(o, r, r') && Mirrored(o, r', r)
    ensures forall q | q != "" :: Lookup(r.ingress, q) == Lookup(r'.ingress, q)
  {
    SameServiceRecords(e, o, s, s', r, r');
    RecordsMirrored(e, o, s, s', r, r');
    RecordsMirrored(e, o, s', s, r', r);
    forall q | q != "" ensures Lookup(r.ingress, q) == Lookup(r'.ingress, q) {
      SameRules(e, o, s, s', r, r', q);
    }
  }

  /** Seen from outside, by hostname: what is published for a subdomain depends only on the mode, the
      target and the settings of the service there, not on record IDs or on how it got there. */
  lemma PublishedByHost(e: Env, o: Outside, services: map<string, Service>, r: Remote, k: string)
    requires Tracked(e, o, services, r) && Published(e, services)
    requires k in services && !services[k].directOnly
    ensures var s := services[k]; var host := e.Host(k);
      && Lookup(r.ingress, host) == (if s.tunnelRouteID != "" then Some(s.target) else None)
      && |Only(r.ingress, host)| == (if s.tunnelRouteID != "" then 1 else 0)
      && (forall i | i in r.records && r.records[i].name == host ::
            i == s.dnsRecordID && r.records[i] == RecordOf(e, o.endpoint, s))
      && ((exists i | i in r.records :: r.records[i].name == host) <==> s.tunnelRouteID != "" || e.serverIP != "")
  {
    var s, host := services[k], e.Host(k);
    forall l | l in services && e.Host(l) == host ensures l == k {
      HostInjective(e, l, k);
    }
    HostInjective(e, k, k);
    assert o.Free(host);
    LookupOnly(r.ingress, host);
    if s.tunnelRouteID != "" {
      assert Routes(e, services, k, host);
    } else {
      assert forall l :: !Routes(e, services, l, host);
    }
  }

  // ---- What one reconciliation does to the remote when every request succeeds ---------------------

  /** The record a wanted state gets; None when it gets none. */
  function WantedRecord(e: Env, a: Account, want: DnsState): Option<Record> {
    if a.noop then None
    else match want.Mode()
      case Direct => None
      case ARecord => if e.serverIP == "" then None else Some(Record(A, e.Host(want.subdomain), e.serverIP))
      case Tunnelled =>
        if a.TunnelEnabled() then Some(Record(CNAME, e.Host(want.subdomain), a.Endpoint())) else None
  }

  predicate Routed(a: Account, want: DnsState) {
    want.Mode().Tunnelled? && a.TunnelEnabled()
  }

  /** Something published is left behind because the client is not able to take it down: the client
      is a no-op, or tunnels are switched off. A caller can test this before reconciling. */
  predicate Leaks(a: Account, was: DnsState, want: DnsState) {
    match PlanDNS(was, want)
    case Noop => false
    case CreateA => false
    case CreateTunnel => false
    case SwapA => a.noop && was.dnsRecordID != ""
    case DeleteAll => if was.tunnelRouteID != "" then !a.TunnelEnabled() else a.noop && was.dnsRecordID != ""
    case AToTunnel => !a.TunnelEnabled() && was.dnsRecordID != ""
    case TunnelToA => !a.TunnelEnabled()
    case ReplaceTunnel => !a.TunnelEnabled()
  }

  /** The records between r and r' if `gone` is taken down and `rec` is put up under `id`. */
  ghost predicate Swapped(r: Remote, r': Remote, gone: string, id: string, rec: Option<Record>) {
    match rec
    case None => id == "" && r'.records == r.records - {gone}
    case Some(x) => id != "" && id !in r.records && r'.records == (r.records - {gone})[id := x]
  }

  /** What is known about the remote before one service is reconciled. */
  ghost predicate Known(e: Env, w: World, a: Account, r: Remote, was: DnsState, want: DnsState) {
    && Lists(w) && FreshIds(w, r) && a.Valid() && "" !in r.records
    && was.tunnel == (was.tunnelRouteID != "")
    && (was.directOnly ==> was.dnsRecordID == "" && was.tunnelRouteID == "")
    && (was.tunnel ==> was.tunnelRouteID == e.Host(was.subdomain) && was.dnsRecordID != "")
    && (was.dnsRecordID != "" ==> was.dnsRecordID in r.records)
    && (!want.directOnly ==>
          && (forall i | i in r.records && r.records[i].name == e.Host(want.subdomain) :: i == was.dnsRecordID)
          && (Only(r.ingress, e.Host(want.subdomain)) == [] || (was.tunnel && was.subdomain == want.subdomain)))
  }

  ghost predicate Ready(e: Env, w: World, a: Account, r: Remote, was: DnsState, want: DnsState) {
    AllDone(w) && Known(e, w, a, r, was, want)
  }

  lemma RemoveEffect(e: Env, w: World, a: Account, r: Remote, host: string, id: string)
    requires AllDone(w) && a.TunnelEnabled() && id != "" && FreshIds(w, r)
    ensures var r' := RemoveTunnelRoute(w, a, r, host, id).0;
      && r'.records == r.records - {id} && FreshIds(w, r')
      && forall q | q != "" :: Only(r'.ingress, q) == if q == host then [] else Only(r.ingress, q)
  {
    assert w.outcome(r.calls).Done? && w.outcome(r.calls + 1).Done? && w.outcome(r.calls + 2).Done?;
    forall q | q != ""
      ensures Only(Edited(RemoveRoute(host), r.ingress), q) == if q == host then [] else Only(r.ingress, q)
    {
      OnlyEdited(RemoveRoute(host), r.ingress, q);
    }
  }

  lemma AddEffect(e: Env, w: World, a: Account, r: Remote, host: string, backend: string)
    requires AllDone(w) && Lists(w) && a.TunnelEnabled() && a.Valid() && FreshIds(w, r) && "" !in r.records
    requires forall i | i in r.records :: r.records[i].name != host
    ensures var (r', id) := AddTunnelRoute(w, a, r, host, backend);
      && id.Some? && Swapped(r, r', "", id.value, Some(Record(CNAME, host, a.Endpoint()))) && FreshIds(w, r')
      && forall q | q != "" :: Only(r'.ingress, q) == if q == host then [Rule(host, backend)] else Only(r.ingress, q)
  {
    assert w.outcome(r.calls).Done? && w.outcome(r.calls + 1).Done? && w.outcome(r.calls + 2).Done?
        && w.outcome(r.calls + 3).Done?;
    var (r1, ok) := EditIngress(w, r, AddRoute(host, backend));
    var hits := set i | i in r1.records && r1.records[i].name == host;
    assert hits == {};
    assert "" !in r.records ==> r.records - {""} == r.records;
    forall q | q != ""
      ensures Only(Edited(AddRoute(host, backend), r.ingress), q) ==
              if q == host then [Rule(host, backend)] else Only(r.ingress, q)
    {
      OnlyEdited(AddRoute(host, backend), r.ingress, q);
    }
  }

  lemma PublishEffect(e: Env, w: World, a: Account, r: Remote, subdomain: string)
    requires AllDone(w) && FreshIds(w, r) && "" !in r.records
    ensures var s := PublishA(e, w, a, r, subdomain);
      && Swapped(r, s.remote, "", s.dnsID, if a.noop || e.serverIP == "" then None
                                           else Some(Record(A, e.Host(subdomain), e.serverIP)))
      && s.routeID == "" && s.remote.ingress == r.ingress && FreshIds(w, s.remote)
  {
  }

  lemma DeleteEffect(w: World, a: Account, r: Remote, id: string)
    requires AllDone(w) && FreshIds(w, r) && "" !in r.records
    requires !a.noop || id == ""
    ensures var r' := DeleteKnown(w, a, r, id);
      r'.records == r.records - {id} && r'.ingress == r.ingress && FreshIds(w, r')
  {
  }

  /** The rules left at each hostname by moving one service from `was` to `want`. */
  ghost predicate Rerouted(e: Env, a: Account, r: Remote, r': Remote, was: DnsState, want: DnsState) {
    forall q | q != "" ::
      Only(r'.ingress, q) ==
        if Routed(a, want) && q == e.Host(want.subdomain) then [Rule(q, want.target)]
        else if was.tunnel && q == e.Host(was.subdomain) then []
        else Only(r.ingress, q)
  }

  lemma ReplaceEffect(e: Env, w: World, a: Account, r: Remote, was: DnsState, want: DnsState)
    requires Ready(e, w, a, r, was, want) && a.TunnelEnabled() && was.tunnel && want.Mode().Tunnelled?
    ensures var (r', id) := ReplaceTunnelRoute(w, a, r, e.Host(was.subdomain), e.Host(want.subdomain), want.target,
                                               was.dnsRecordID);
      && id.Some? && FreshIds(w, r')
      && Swapped(r, r', was.dnsRecordID, id.value, Some(Record(CNAME, e.Host(want.subdomain), a.Endpoint())))
      && Rerouted(e, a, r, r', was, want)
  {
    assert w.outcome(r.calls).Done? && w.outcome(r.calls + 1).Done? && w.outcome(r.calls + 2).Done?
        && w.outcome(r.calls + 3).Done?;
    var o, n := e.Host(was.subdomain), e.Host(want.subdomain);
    HostInjective(e, was.subdomain, want.subdomain);
    var edit := ReplaceRoute(o, n, want.target);
    forall q | q != ""
      ensures Only(Edited(edit, r.ingress), q) ==
              if q == n then [Rule(q, want.target)] else if q == o then [] else Only(r.ingress, q)
    {
      OnlyEdited(edit, r.ingress, q);
    }
  }

  /** The whole effect of a reconciliation that leaves nothing behind: the old record is gone, the
      wanted one is there under the ID handed back, and the rules moved accordingly. */
  lemma ReconcileEffect(e: Env, w: World, a: Account, r: Remote, was: DnsState, want: DnsState)
    requires Ready(e, w, a, r, was, want) && !Leaks(a, was, want) && PlanDNS(was, want) != Noop
    ensures var s := Reconcile(e, w, a, r, was, want);
      && Swapped(r, s.remote, was.dnsRecordID, s.dnsID, WantedRecord(e, a, want))
      && s.routeID == (if Routed(a, want) then e.Host(want.subdomain) else "")
      && Rerouted(e, a, r, s.remote, was, want)
      && FreshIds(w, s.remote)
  {
    HostInjective(e, want.subdomain, was.subdomain);
    var id := was.dnsRecordID;
    assert id == "" ==> r.records - {id} == r.records;
    match PlanDNS(was, want) {
      case CreateA =>
        PublishEffect(e, w, a, r, want.subdomain);
      case DeleteAll =>
        if was.tunnelRouteID != "" {
          RemoveEffect(e, w, a, r, was.tunnelRouteID, id);
        } else {
          DeleteEffect(w, a, r, id);
        }
      case SwapA =>
        DeleteEffect(w, a, r, id);
        PublishEffect(e, w, a, DeleteKnown(w, a, r, id), want.subdomain);
      case CreateTunnel =>
        if a.TunnelEnabled() {
          AddEffect(e, w, a, r, e.Host(want.subdomain), want.target);
        }
      case AToTunnel =>
        if a.TunnelEnabled() {
          DeleteEffect(w, a, r, id);
          AddEffect(e, w, a, DeleteKnown(w, a, r, id), e.Host(want.subdomain), want.target);
        }
      case TunnelToA =>
        RemoveEffect(e, w, a, r, was.tunnelRouteID, id);
        PublishEffect(e, w, a, RemoveTunnelRoute(w, a, r, was.tunnelRouteID, id).0, want.subdomain);
      case ReplaceTunnel =>
        ReplaceEffect(e, w, a, r, was, want);
    }
  }

  /** What is left behind otherwise: the old record is still there and is not handed back. */
  lemma LeakEffect(e: Env, w: World, a: Account, r: Remote, was: DnsState, want: DnsState)
    requires Known(e, w, a, r, was, want) && Leaks(a, was, want)
    ensures var s := Reconcile(e, w, a, r, was, want);
      was.dnsRecordID in s.remote.records && s.dnsID != was.dnsRecordID && was.dnsRecordID != ""
  {
  }

  // ---- One service changes, the others do not -----------------------------------------------------

  /** A collection of services with at most one more. */
  function With(rest: map<string, Service>, s: Option<Service>): map<string, Service> {
    if s.Some? then rest[s.value.subdomain := s.value] else rest
  }

  function StateOfOption(s: Option<Service>): DnsState {
    if s.Some? then StateOf(s.value) else UNPUBLISHED
  }

  /** `nu` is what the service becomes when it is reconciled from `was` to `want`. */
  ghost predicate Becomes(s: Reconciled, want: DnsState, nu: Option<Service>) {
    match nu
    case None => want.directOnly
    case Some(x) =>
      && x.subdomain == want.subdomain && x.target == want.target && x.directOnly == want.directOnly
      && x.dnsRecordID == s.dnsID && x.tunnelRouteID == s.routeID
  }

  /** Everything but the outcome of one change to one service, whatever becomes of its requests. */
  ghost predicate Attempt(e: Env, o: Outside, w: World, a: Account, r: Remote, rest: map<string, Service>,
                          was: Option<Service>, nu: Option<Service>, want: DnsState) {
    && Lists(w) && FreshIds(w, r) && a.Valid()
    && (a.TunnelEnabled() ==> a.Endpoint() == o.endpoint)
    && (was.Some? ==> was.value.subdomain !in rest)
    && (nu.Some? ==> nu.value.subdomain !in rest)
    && Tracked(e, o, With(rest, was), r)
    && (!want.directOnly ==> o.Free(e.Host(want.subdomain)))
    && Becomes(Reconcile(e, w, a, r, StateOfOption(was), want), want, nu)
  }

  /** A change whose requests all succeed. */
  ghost predicate Change(e: Env, o: Outside, w: World, a: Account, r: Remote, rest: map<string, Service>,
                         was: Option<Service>, nu: Option<Service>, want: DnsState) {
    AllDone(w) && Attempt(e, o, w, a, r, rest, was, nu, want)
  }

  lemma ChangeReady(e: Env, o: Outside, w: World, a: Account, r: Remote, rest: map<string, Service>,
                    was: Option<Service>, nu: Option<Service>, want: DnsState)
    requires Change(e, o, w, a, r, rest, was, nu, want)
    ensures Ready(e, w, a, r, StateOfOption(was), want)
  {
    AttemptKnown(e, o, w, a, r, rest, was, nu, want);
  }

  lemma AttemptKnown(e: Env, o: Outside, w: World, a: Account, r: Remote, rest: map<string, Service>,
                     was: Option<Service>, nu: Option<Service>, want: DnsState)
    requires Attempt(e, o, w, a, r, rest, was, nu, want)
    ensures Known(e, w, a, r, StateOfOption(was), want)
  {
    var all := With(rest, was);
    if was.Some? {
      assert was.value.subdomain in all && all[was.value.subdomain] == was.value;
    }
    if !want.directOnly {
      var host := e.Host(want.subdomain);
      HostInjective(e, want.subdomain, want.subdomain);
      forall k | k in all && e.Host(k) == host
        ensures was.Some? && k == was.value.subdomain
      {
        HostInjective(e, k, want.subdomain);
      }
      if k :| Routes(e, all, k, host) {
        HostInjective(e, k, want.subdomain);
      } else {
        assert Only(r.ingress, host) == [];
      }
    }
  }

  /** A service in the rest holds a record other than the one of the service that changes. */
  lemma RestHoldsOthers(e: Env, o: Outside, rest: map<string, Service>, was: Option<Service>, r: Remote, k: string)
    requires (forall l | l in With(rest, was) :: Holds(e, o, With(rest, was)[l], r)) && DistinctRecords(With(rest, was))
    requires k in rest && (was.Some? ==> was.value.subdomain !in rest)
    ensures Holds(e, o, rest[k], r)
    ensures rest[k].dnsRecordID == "" || rest[k].dnsRecordID != StateOfOption(was).dnsRecordID
    ensures rest[k].dnsRecordID == "" || rest[k].dnsRecordID in r.records
  {
    var all := With(rest, was);
    assert k in all && all[k] == rest[k];
    if was.Some? {
      assert was.value.subdomain in all && all[was.value.subdomain] == was.value;
    }
  }

  lemma RecordsAfterSwap(e: Env, o: Outside, rest: map<string, Service>, was: Option<Service>, nu: Option<Service>,
                         r: Remote, r': Remote, gone: string, id: string, rec: Option<Record>)
    requires RecordsTracked(e, o, With(rest, was), r) && DistinctRecords(With(rest, was)) && "" !in r.records
    requires (was.Some? ==> was.value.subdomain !in rest) && (nu.Some? ==> nu.value.subdomain !in rest)
    requires gone == StateOfOption(was).dnsRecordID && Swapped(r, r', gone, id, rec)
    requires nu.Some? ==> nu.value.dnsRecordID == id
    requires rec.Some? ==> nu.Some? && rec.value == RecordOf(e, o.endpoint, nu.value)
    ensures RecordsTracked(e, o, With(rest, nu), r') && DistinctRecords(With(rest, nu)) && "" !in r'.records
  {
    forall k | k in rest
      ensures Holds(e, o, rest[k], r) && (rest[k].dnsRecordID == "" || rest[k].dnsRecordID !in {gone, id})
    {
      RestHoldsOthers(e, o, rest, was, r, k);
    }
    OrphansAfterSwap(o, rest, was, nu, r, r', gone, id, rec);
    DistinctAfter(rest, was, nu);
    if was.Some? {
      assert Holds(e, o, With(rest, was)[was.value.subdomain], r);
    }
    assert OutsideKept(o, r) && gone !in o.records;
    hide NoOrphans, DistinctRecords, RecordsTracked;
    HeldAfterSwap(e, o, rest, nu, r, r', gone, id, rec);
  }

  lemma HeldAfterSwap(e: Env, o: Outside, rest: map<string, Service>, nu: Option<Service>,
                      r: Remote, r': Remote, gone: string, id: string, rec: Option<Record>)
    requires forall k | k in rest ::
               Holds(e, o, rest[k], r) && (rest[k].dnsRecordID == "" || rest[k].dnsRecordID !in {gone, id})
    requires Swapped(r, r', gone, id, rec) && OutsideKept(o, r)
    requires nu.Some? ==> nu.value.dnsRecordID == id
    requires rec.Some? ==> nu.Some? && rec.value == RecordOf(e, o.endpoint, nu.value)
    ensures forall k | k in With(rest, nu) :: Holds(e, o, With(rest, nu)[k], r')
  {
  }

  lemma DistinctAfter(rest: map<string, Service>, was: Option<Service>, nu: Option<Service>)
    requires DistinctRecords(With(rest, was)) && (was.Some? ==> was.value.subdomain !in rest)
    requires nu.Some? ==> forall k | k in rest ::
               rest[k].dnsRecordID == "" || rest[k].dnsRecordID != nu.value.dnsRecordID
    ensures DistinctRecords(With(rest, nu))
  {
    var all := With(rest, was);
    forall k, l | k in rest && l in rest && k != l
      ensures rest[k].dnsRecordID == rest[l].dnsRecordID ==> rest[k].dnsRecordID == ""
    {
      assert all[k] == rest[k] && all[l] == rest[l];
    }
  }

  lemma OrphansAfterSwap(o: Outside, rest: map<string, Service>, was: Option<Service>, nu: Option<Service>,
                         r: Remote, r': Remote, gone: string, id: string, rec: Option<Record>)
    requires NoOrphans(o, With(rest, was), r)
    requires gone == StateOfOption(was).dnsRecordID && Swapped(r, r', gone, id, rec)
    requires nu.Some? ==> nu.value.subdomain !in rest && nu.value.dnsRecordID == id
    requires rec.Some? ==> nu.Some?
    ensures NoOrphans(o, With(rest, nu), r')
  {
    forall i | i in r'.records && i !in o.records ensures exists k :: Holder(With(rest, nu), k, i) {
      if rec.Some? && i == id {
        assert Holder(With(rest, nu), nu.value.subdomain, i);
      } else {
        var k :| Holder(With(rest, was), k, i);
        assert Holder(With(rest, nu), k, i);
      }
    }
  }

  lemma IngressAfterMove(e: Env, o: Outside, a: Account, rest: map<string, Service>, was: Option<Service>,
                         nu: Option<Service>, r: Remote, r': Remote, want: DnsState)
    requires IngressTracked(e, o, With(rest, was), r)
    requires forall k | k in With(rest, was) :: Coherent(e, o, k, With(rest, was)[k])
    requires (was.Some? ==> was.value.subdomain !in rest) && (nu.Some? ==> nu.value.subdomain !in rest)
    requires Rerouted(e, a, r, r', StateOfOption(was), want)
    requires nu.None? ==> want.directOnly
    requires nu.Some? ==> nu.value.subdomain == want.subdomain && nu.value.target == want.target
                          && (nu.value.tunnelRouteID != "" <==> Routed(a, want))
    ensures IngressTracked(e, o, With(rest, nu), r')
  {
    forall q | q != ""
      ensures forall k | Routes(e, With(rest, nu), k, q) :: Only(r'.ingress, q) == [Rule(q, With(rest, nu)[k].target)]
      ensures (forall k :: !Routes(e, With(rest, nu), k, q)) ==> Only(r'.ingress, q) == Only(o.ingress, q)
    {
      HostAt(e, o, a, rest, was, nu, r, r', want, q);
    }
  }

  lemma HostAt(e: Env, o: Outside, a: Account, rest: map<string, Service>, was: Option<Service>,
               nu: Option<Service>, r: Remote, r': Remote, want: DnsState, q: string)
    requires q != "" && IngressTracked(e, o, With(rest, was), r)
    requires forall k | k in With(rest, was) :: Coherent(e, o, k, With(rest, was)[k])
    requires (was.Some? ==> was.value.subdomain !in rest) && (nu.Some? ==> nu.value.subdomain !in rest)
    requires Rerouted(e, a, r, r', StateOfOption(was), want)
    requires nu.None? ==> want.directOnly
    requires nu.Some? ==> nu.value.subdomain == want.subdomain && nu.value.target == want.target
                          && (nu.value.tunnelRouteID != "" <==> Routed(a, want))
    ensures forall k | Routes(e, With(rest, nu), k, q) :: Only(r'.ingress, q) == [Rule(q, With(rest, nu)[k].target)]
    ensures (forall k :: !Routes(e, With(rest, nu), k, q)) ==> Only(r'.ingress, q) == Only(o.ingress, q)
  {
    var all, all' := With(rest, was), With(rest, nu);
    if k :| Routes(e, all', k, q) {
      forall l | Routes(e, all', l, q) ensures l == k {
        HostInjective(e, l, k);
      }
      HostInjective(e, k, want.subdomain);
      if k in rest {
        assert Routes(e, all, k, q);
        HostInjective(e, k, StateOfOption(was).subdomain);
      }
    } else {
      if nu.Some? && Routed(a, want) {
        assert Routes(e, all', nu.value.subdomain, e.Host(nu.value.subdomain));
      }
      if was.Some? && was.value.tunnelRouteID != "" && q == e.Host(was.value.subdomain) {
        assert was.value.subdomain in all && all[was.value.subdomain] == was.value;
        assert o.Free(q);
      } else {
        forall k ensures !Routes(e, all, k, q) {
          assert !Routes(e, all', k, q);
        }
      }
    }
  }

  lemma NoopTracked(e: Env, o: Outside, rest: map<string, Service>, was: Option<Service>, nu: Option<Service>,
                    r: Remote, want: DnsState)
    requires Tracked(e, o, With(rest, was), r)
    requires (was.Some? ==> was.value.subdomain !in rest) && (nu.Some? ==> nu.value.subdomain !in rest)
    requires PlanDNS(StateOfOption(was), want) == Noop
    requires Becomes(Reconciled(r, StateOfOption(was).dnsRecordID, StateOfOption(was).tunnelRouteID), want, nu)
    ensures RecordsTracked(e, o, With(rest, nu), r) && DistinctRecords(With(rest, nu))
  {
    NoopHolds(e, o, rest, was, nu, r, want);
    forall k | k in rest
      ensures Holds(e, o, rest[k], r)
      ensures rest[k].dnsRecordID == "" || rest[k].dnsRecordID != StateOfOption(was).dnsRecordID
    {
      RestHoldsOthers(e, o, rest, was, r, k);
    }
    hide Holds, PlanDNS, Coherent, OutsideKept;
    DistinctAfter(rest, was, nu);
  }

  /** Where there is nothing to do the service keeps its record. */
  lemma NoopSame(e: Env, o: Outside, was: Option<Service>, nu: Option<Service>, r: Remote, want: DnsState)
    requires was.Some? ==> Coherent(e, o, was.value.subdomain, was.value)
    requires PlanDNS(StateOfOption(was), want) == Noop
    requires Becomes(Reconciled(r, StateOfOption(was).dnsRecordID, StateOfOption(was).tunnelRouteID), want, nu)
    ensures nu.Some? ==> nu.value.dnsRecordID == StateOfOption(was).dnsRecordID
    ensures was.Some? && was.value.dnsRecordID != "" ==>
              nu.Some? && RecordOf(e, o.endpoint, nu.value) == RecordOf(e, o.endpoint, was.value)
  {
  }

  lemma NoopHolds(e: Env, o: Outside, rest: map<string, Service>, was: Option<Service>, nu: Option<Service>,
                  r: Remote, want: DnsState)
    requires Tracked(e, o, With(rest, was), r)
    requires (was.Some? ==> was.value.subdomain !in rest) && (nu.Some? ==> nu.value.subdomain !in rest)
    requires PlanDNS(StateOfOption(was), want) == Noop
    requires Becomes(Reconciled(r, StateOfOption(was).dnsRecordID, StateOfOption(was).tunnelRouteID), want, nu)
    ensures nu.Some? ==> Holds(e, o, nu.value, r)
    ensures NoOrphans(o, With(rest, nu), r)
  {
    hide IngressTracked, DistinctRecords, OutsideKept, PlanDNS, Becomes, RecordOf;
    if was.Some? {
      assert With(rest, was)[was.value.subdomain] == was.value;
      assert Coherent(e, o, was.value.subdomain, was.value) && Holds(e, o, was.value, r);
    }
    NoopSame(e, o, was, nu, r, want);
    hide NoOrphans, Coherent;
    NoopOrphans(o, rest, was, nu, r);
  }

  lemma NoopOrphans(o: Outside, rest: map<string, Service>, was: Option<Service>, nu: Option<Service>, r: Remote)
    requires NoOrphans(o, With(rest, was), r) && "" !in r.records && (nu.Some? ==> nu.value.subdomain !in rest)
    requires was.Some? && was.value.dnsRecordID != "" ==> nu.Some? && nu.value.dnsRecordID == was.value.dnsRecordID
    ensures NoOrphans(o, With(rest, nu), r)
  {
    var all, all' := With(rest, was), With(rest, nu);
    forall i | i in r.records && i !in o.records ensures exists k :: Holder(all', k, i) {
      var k :| Holder(all, k, i);
      assert Holder(all', if was.Some? && k == was.value.subdomain then nu.value.subdomain else k, i);
    }
  }

  lemma NoopRoutes(e: Env, o: Outside, rest: map<string, Service>, was: Option<Service>, nu: Option<Service>,
                   r: Remote, want: DnsState)
    requires Tracked(e, o, With(rest, was), r)
    requires (was.Some? ==> was.value.subdomain !in rest) && (nu.Some? ==> nu.value.subdomain !in rest)
    requires PlanDNS(StateOfOption(was), want) == Noop
    requires Becomes(Reconciled(r, StateOfOption(was).dnsRecordID, StateOfOption(was).tunnelRouteID), want, nu)
    ensures IngressTracked(e, o, With(rest, nu), r)
  {
    var all, all' := With(rest, was), With(rest, nu);
    if was.Some? {
      assert Coherent(e, o, was.value.subdomain, all[was.value.subdomain]);
    }
    SameRoutesTracked(e, o, all, all', r);
  }

  lemma SameRoutesTracked(e: Env, o: Outside, all: map<string, Service>, all': map<string, Service>, r: Remote)
    requires IngressTracked(e, o, all, r)
    requires forall k | k in all || k in all' ::
               var routed := k in all && all[k].tunnelRouteID != "";
               routed == (k in all' && all'[k].tunnelRouteID != "") && (routed ==> all[k].target == all'[k].target)
    ensures IngressTracked(e, o, all', r)
  {
    forall q | q != ""
      ensures forall k | Routes(e, all', k, q) :: Only(r.ingress, q) == [Rule(q, all'[k].target)]
      ensures (forall k :: !Routes(e, all', k, q)) ==> Only(r.ingress, q) == Only(o.ingress, q)
    {
      assert forall k :: Routes(e, all, k, q) <==> Routes(e, all', k, q);
    }
  }

  lemma LeakUntracked(e: Env, o: Outside, rest: map<string, Service>, was: Option<Service>, nu: Option<Service>,
                      r: Remote, r': Remote)
    requires Tracked(e, o, With(rest, was), r)
    requires (was.Some? ==> was.value.subdomain !in rest) && (nu.Some? ==> nu.value.subdomain !in rest)
    requires was.Some? && was.value.dnsRecordID != "" && was.value.dnsRecordID in r'.records
    requires nu.Some? ==> nu.value.dnsRecordID != was.value.dnsRecordID
    ensures !Tracked(e, o, With(rest, nu), r')
  {
    var all, all', gone := With(rest, was), With(rest, nu), was.value.dnsRecordID;
    assert was.value.subdomain in all && all[was.value.subdomain] == was.value;
    forall k | k in all' ensures all'[k].dnsRecordID != gone {
      if k in rest {
        assert k in all && all[k] == all'[k];
      }
    }
  }

  /** One change to one service, with every request succeeding, keeps Cloudflare exactly what the
      store says if and only if the client is able to take down what the service had published. */
  lemma ChangeTracked(e: Env, o: Outside, w: World, a: Account, r: Remote, rest: map<string, Service>,
                      was: Option<Service>, nu: Option<Service>, want: DnsState)
    requires Change(e, o, w, a, r, rest, was, nu, want)
    ensures var s := Reconcile(e, w, a, r, StateOfOption(was), want);
      && (Tracked(e, o, With(rest, nu), s.remote) <==> !Leaks(a, StateOfOption(was), want))
      && FreshIds(w, s.remote)
  {
    var state := StateOfOption(was);
    var s := Reconcile(e, w, a, r, state, want);
    var all, all' := With(rest, was), With(rest, nu);
    ReconcileConfined(e, w, a, r, state, want);
    ChangeReady(e, o, w, a, r, rest, was, nu, want);
    if Leaks(a, state, want) {
      LeakEffect(e, w, a, r, state, want);
      LeakUntracked(e, o, rest, was, nu, r, s.remote);
    } else {
      if PlanDNS(state, want) == Noop {
        NoopTracked(e, o, rest, was, nu, r, want);
        NoopRoutes(e, o, rest, was, nu, r, want);
      } else {
        ReconcileEffect(e, w, a, r, state, want);
        RecordsAfterSwap(e, o, rest, was, nu, r, s.remote, state.dnsRecordID, s.dnsID, WantedRecord(e, a, want));
        IngressAfterMove(e, o, a, rest, was, nu, r, s.remote, want);
      }
      CoherentAfter(e, o, w, a, r, rest, was, nu, want);
    }
  }

  lemma CoherentAfter(e: Env, o: Outside, w: World, a: Account, r: Remote, rest: map<string, Service>,
                      was: Option<Service>, nu: Option<Service>, want: DnsState)
    requires Change(e, o, w, a, r, rest, was, nu, want) && !Leaks(a, StateOfOption(was), want)
    requires Ready(e, w, a, r, StateOfOption(was), want)
    ensures forall k | k in With(rest, nu) :: Coherent(e, o, k, With(rest, nu)[k])
  {
    var state := StateOfOption(was);
    if PlanDNS(state, want) != Noop {
      hide Attempt, Reconcile, Rerouted;
      ReconcileEffect(e, w, a, r, state, want);
    } else {
      hide Attempt;
    }
    CoherentWith(e, o, w, a, r, rest, was, nu, want);
  }

  /** Services stay coherent if a route handed back is the right one and comes with a record. */
  lemma CoherentWith(e: Env, o: Outside, w: World, a: Account, r: Remote, rest: map<string, Service>,
                     was: Option<Service>, nu: Option<Service>, want: DnsState)
    requires Attempt(e, o, w, a, r, rest, was, nu, want)
    requires var s := Reconcile(e, w, a, r, StateOfOption(was), want);
      && (s.routeID == "" || (s.routeID == e.Host(want.subdomain) && s.dnsID != "" && !want.directOnly))
      && (want.directOnly ==> s.dnsID == "")
    ensures forall k | k in With(rest, nu) :: Coherent(e, o, k, With(rest, nu)[k])
  {
    hide Reconcile;
    var all, all' := With(rest, was), With(rest, nu);
    forall k | k in all' ensures Coherent(e, o, k, all'[k]) {
      if k in rest {
        assert k in all && all[k] == all'[k];
      }
    }
  }

  /** However a remote state was reached, if from a tracked one just the record and the rules of one
      service were moved, it is tracked with that service moved. */
  lemma MovedTracked(e: Env, o: Outside, a: Account, rest: map<string, Service>, was: Option<Service>, nu: Service,
                     r: Remote, r': Remote, want: DnsState)
    requires Tracked(e, o, With(rest, was), r) && (a.TunnelEnabled() ==> a.Endpoint() == o.endpoint)
    requires (was.Some? ==> was.value.subdomain !in rest) && nu.subdomain !in rest
    requires Swapped(r, r', StateOfOption(was).dnsRecordID, nu.dnsRecordID, WantedRecord(e, a, want))
    requires Rerouted(e, a, r, r', StateOfOption(was), want)
    requires nu.subdomain == want.subdomain && nu.target == want.target && nu.directOnly == want.directOnly
    requires nu.tunnelRouteID == if Routed(a, want) then e.Host(want.subdomain) else ""
    requires !want.directOnly ==> o.Free(e.Host(want.subdomain))
    ensures Tracked(e, o, With(rest, Some(nu)), r')
  {
    hide RecordsTracked, IngressTracked, DistinctRecords;
    HostInjective(e, want.subdomain, want.subdomain);
    RecordsAfterSwap(e, o, rest, was, Some(nu), r, r', StateOfOption(was).dnsRecordID, nu.dnsRecordID,
                     WantedRecord(e, a, want));
    IngressAfterMove(e, o, a, rest, was, Some(nu), r, r', want);
    var all := With(rest, was);
    forall k | k in With(rest, Some(nu)) ensures Coherent(e, o, k, With(rest, Some(nu))[k]) {
      if k in rest {
        assert k in all && all[k] == rest[k];
      }
    }
  }
}
