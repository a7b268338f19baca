/**
 DNS reconciliation (internal/web/handle_services.go:210-388): from the old and the wanted DNS
 configuration of one service to the Cloudflare requests that turn one into the other.
 */
module Dns {
  import opened Entities
  import opened Ingress
  import opened Cloudflare

  datatype DnsState = DnsState(
    subdomain: string,
    target: string,
    directOnly: bool,
    tunnel: bool,
    dnsRecordID: string,
    tunnelRouteID: string)
  {
    function Mode(): Mode {
      if directOnly then Direct else if tunnel then Tunnelled else ARecord
    }
  }

  function StateOf(s: Service): DnsState {
    DnsState(s.subdomain, s.target, s.directOnly, s.tunnelRouteID != "", s.dnsRecordID, s.tunnelRouteID)
  }

  /** The state passed to reconcileDNS for a service that does not exist (yet, or any more). */
  const UNPUBLISHED := DnsState("", "", true, false, "", "")

  datatype Mode = Direct | ARecord | Tunnelled

  datatype Action = Noop | CreateA | DeleteAll | SwapA | CreateTunnel | AToTunnel | TunnelToA | ReplaceTunnel

  /** The server's settings that reconciliation reads. */
  datatype Env = Env(domain: string, serverIP: string) {
    function Host(subdomain: string): string {
      subdomain + "." + domain
    }
  }

  datatype Reconciled = Reconciled(remote: Remote, dnsID: string, routeID: string)

  function PlanDNS(was: DnsState, want: DnsState): Action {
    match (was.Mode(), want.Mode())
    case (Direct, Direct) => Noop
    case (Direct, ARecord) => CreateA
    case (Direct, Tunnelled) => CreateTunnel
    case (ARecord, Direct) => DeleteAll
    case (ARecord, ARecord) => if want.subdomain != was.subdomain then SwapA else Noop
    case (ARecord, Tunnelled) => AToTunnel
    case (Tunnelled, Direct) => DeleteAll
    case (Tunnelled, ARecord) => TunnelToA
    case (Tunnelled, Tunnelled) =>
      if want.subdomain != was.subdomain || want.target != was.target then ReplaceTunnel else Noop
  }

  /** Create the A record, when there is an address to point it at. */
  function PublishA(e: Env, w: World, a: Account, r: Remote, subdomain: string): Reconciled {
    if e.serverIP == "" then Reconciled(r, "", "")
    else
      var (r', id) := CreateRecord(w, a, r, e.Host(subdomain), e.serverIP);
      Reconciled(r', if id.Some? then id.value else "", "")
  }

  function PublishTunnel(e: Env, w: World, a: Account, r: Remote, want: DnsState): Reconciled {
    var (r', id) := AddTunnelRoute(w, a, r, e.Host(want.subdomain), want.target);
    if id.Some? then Reconciled(r', id.value, e.Host(want.subdomain)) else Reconciled(r', "", "")
  }

  function DeleteKnown(w: World, a: Account, r: Remote, dnsID: string): Remote {
    if dnsID == "" then r else DeleteRecord(w, a, r, dnsID).0
  }

  /** Take down whatever a service has published; also what deleting the service does. */
  function Withdraw(w: World, a: Account, r: Remote, routeID: string, dnsID: string): Remote {
    if routeID != "" then RemoveTunnelRoute(w, a, r, routeID, dnsID).0 else DeleteKnown(w, a, r, dnsID)
  }

  function Reconcile(e: Env, w: World, a: Account, r: Remote, was: DnsState, want: DnsState): Reconciled {
    match PlanDNS(was, want)
    case Noop => Reconciled(r, was.dnsRecordID, was.tunnelRouteID)
    case CreateA => PublishA(e, w, a, r, want.subdomain)
    case DeleteAll => Reconciled(Withdraw(w, a, r, was.tunnelRouteID, was.dnsRecordID), "", "")
    case SwapA => PublishA(e, w, a, DeleteKnown(w, a, r, was.dnsRecordID), want.subdomain)
    case CreateTunnel =>
      if a.TunnelEnabled() then PublishTunnel(e, w, a, r, want) else Reconciled(r, "", "")
    case AToTunnel =>
      if a.TunnelEnabled() then PublishTunnel(e, w, a, DeleteKnown(w, a, r, was.dnsRecordID), want)
      else Reconciled(r, "", "")
    case TunnelToA =>
      PublishA(e, w, a, RemoveTunnelRoute(w, a, r, was.tunnelRouteID, was.dnsRecordID).0, want.subdomain)
    case ReplaceTunnel =>
      if a.TunnelEnabled() then
        var (r', id) := ReplaceTunnelRoute(w, a, r, e.Host(was.subdomain), e.Host(want.subdomain), want.target,
                                           was.dnsRecordID);
        if id.Some? then Reconciled(r', id.value, e.Host(want.subdomain))
        else Reconciled(r', was.dnsRecordID, was.tunnelRouteID)
      else Reconciled(r, "", "")
  }

  // ---- When there is nothing to do -----------------------------------------------------------------------

  /** The same is asked for again: the same mode, with what it depends on. */
  predicate SameAgain(was: DnsState, want: DnsState) {
    && was.directOnly == want.directOnly
    && (!was.directOnly ==>
          && was.tunnel == want.tunnel && was.subdomain == want.subdomain
          && (was.tunnel ==> was.target == want.target))
  }

  /** There is nothing to take down, and what is asked for the client cannot put up. */
  predicate NothingToDo(e: Env, a: Account, was: DnsState, want: DnsState) {
    && was.dnsRecordID == "" && was.tunnelRouteID == ""
    && (want.directOnly || if want.tunnel then !a.TunnelEnabled() else a.noop || e.serverIP == "")
  }

  /** Whatever becomes of requests, reconciliation makes none and hands back the old IDs exactly when the
      same is asked for again, or there is nothing to take down and nothing that can be put up. */
  lemma NothingSentIff(e: Env, w: World, a: Account, r: Remote, was: DnsState, want: DnsState)
    requires was.tunnel == (was.tunnelRouteID != "")
    ensures Reconcile(e, w, a, r, was, want) == Reconciled(r, was.dnsRecordID, was.tunnelRouteID) <==>
            SameAgain(was, want) || NothingToDo(e, a, was, want)
  {
    hide AddTunnelRoute, ReplaceTunnelRoute, RemoveTunnelRoute, PublishA, DeleteKnown;
    Counted(e, w, a, DeleteKnown(w, a, r, was.dnsRecordID), want.subdomain, want.target);
    Counted(e, w, a, r, want.subdomain, want.target);
    CountedDown(w, a, r, e.Host(was.subdomain), e.Host(want.subdomain), want.target, was.dnsRecordID);
    var gone := RemoveTunnelRoute(w, a, r, was.tunnelRouteID, was.dnsRecordID).0;
    Counted(e, w, a, gone, want.subdomain, want.target);
  }

  /** So does taking down. */
  lemma CountedDown(w: World, a: Account, r: Remote, was: string, host: string, backend: string, id: string)
    ensures DeleteKnown(w, a, r, id).calls == r.calls + if a.noop || id == "" then 0 else 1
    ensures a.noop || id == "" ==> DeleteKnown(w, a, r, id) == r
    ensures a.TunnelEnabled() ==> ReplaceTunnelRoute(w, a, r, was, host, backend, id).0.calls > r.calls
  {
    hide Edited;
  }

  /** Publishing makes a request whenever the client can. */
  lemma Counted(e: Env, w: World, a: Account, r: Remote, subdomain: string, target: string)
    ensures var s := PublishA(e, w, a, r, subdomain);
      && s.routeID == "" && s.remote.calls == r.calls + (if a.noop || e.serverIP == "" then 0 else 1)
      && (a.noop || e.serverIP == "" ==> s == Reconciled(r, "", ""))
    ensures var (r', id) := AddTunnelRoute(w, a, r, e.Host(subdomain), target);
      r'.calls >= r.calls && (a.TunnelEnabled() ==> r'.calls > r.calls)
  {
    hide Edited;
  }

  /** Different subdomains have different hostnames. */
  lemma HostInjective(e: Env, s: string, t: string)
    ensures e.Host(s) == e.Host(t) <==> s == t
    ensures e.Host(s) != ""
  {
    if e.Host(s) == e.Host(t) {
      assert |s| == |t|;
      assert e.Host(s)[..|s|] == s && e.Host(t)[..|t|] == t;
    }
  }

  // ---- What reconciliation can reach, whatever fails ---------------------------------------------

  /** From r to r', only record `id` and records named `name` came, went or changed, and only rules
      for `hosts` (the rest keep their order; the catch-all stays). */
  ghost predicate Confined(r: Remote, r': Remote, id: string, name: string, hosts: set<string>) {
    && (forall i | i in r.records ::
          (i in r'.records && r'.records[i] == r.records[i]) || i == id || r.records[i].name == name)
    && (forall i | i in r'.records ::
          (i in r.records && r.records[i] == r'.records[i]) || r'.records[i].name == name)
    && Drop(r'.ingress, hosts + {""}) == Drop(r.ingress, hosts + {""})
    && CatchAllOf(r'.ingress) == CatchAllOf(r.ingress)
    && r.calls <= r'.calls
  }

  lemma DeleteConfined(w: World, a: Account, r: Remote, del: string, id: string, name: string, hosts: set<string>)
    requires del == id || (del in r.records ==> r.records[del].name == name)
    ensures Confined(r, DeleteRecord(w, a, r, del).0, id, name, hosts)
    ensures FreshIds(w, r) ==> FreshIds(w, DeleteRecord(w, a, r, del).0)
  {
    hide Drop, CatchAllOf;
  }

  lemma PostConfined(w: World, a: Account, r: Remote, rec: Record, id: string, hosts: set<string>)
    requires FreshIds(w, r)
    ensures Confined(r, Post(w, r, rec).0, id, rec.name, hosts)
    ensures FreshIds(w, Post(w, r, rec).0)
  {
    hide Drop, CatchAllOf;
  }

  lemma EditConfined(w: World, r: Remote, edit: Edit, id: string, name: string, hosts: set<string>)
    requires FreshIds(w, r) && edit.Touched() <= hosts
    ensures Confined(r, EditIngress(w, r, edit).0, id, name, hosts)
    ensures FreshIds(w, EditIngress(w, r, edit).0)
    ensures EditIngress(w, r, edit).0.records == r.records
  {
    hide Drop, CatchAllOf, Edited;
    UntouchedKept(edit, r.ingress, hosts + {""});
    CatchAllKept(edit, r.ingress);
  }

  lemma FindConfined(w: World, a: Account, r: Remote, id: string, name: string, hosts: set<string>)
    requires FreshIds(w, r) && Lists(w)
    ensures var (r', found) := FindRecord(w, a, r, name);
      && Confined(r, r', id, name, hosts) && FreshIds(w, r') && r'.records == r.records
      && (found.At? && found.id in r.records ==> r.records[found.id].name == name)
  {
  }

  lemma ConfinedTrans(r: Remote, r': Remote, r'': Remote, id: string, name: string, hosts: set<string>)
    requires Confined(r, r', id, name, hosts) && Confined(r', r'', id, name, hosts)
    ensures Confined(r, r'', id, name, hosts)
  {
  }

  lemma PublishConfined(e: Env, w: World, a: Account, r: Remote, subdomain: string, id: string, hosts: set<string>)
    requires FreshIds(w, r)
    ensures Confined(r, PublishA(e, w, a, r, subdomain).remote, id, e.Host(subdomain), hosts)
    ensures FreshIds(w, PublishA(e, w, a, r, subdomain).remote)
  {
    hide Drop, CatchAllOf;
  }

  lemma AddConfined(w: World, a: Account, r: Remote, host: string, backend: string, id: string, hosts: set<string>)
    requires FreshIds(w, r) && Lists(w) && host in hosts
    ensures Confined(r, AddTunnelRoute(w, a, r, host, backend).0, id, host, hosts)
    ensures FreshIds(w, AddTunnelRoute(w, a, r, host, backend).0)
  {
    if a.TunnelEnabled() {
      var (r1, ok) := EditIngress(w, r, AddRoute(host, backend));
      EditConfined(w, r, AddRoute(host, backend), id, host, hosts);
      if ok {
        var (r2, found) := FindRecord(w, a, r1, host);
        FindConfined(w, a, r1, id, host, hosts);
        var r3 := DeleteIfFound(w, a, r2, found);
        if found.At? && found.id != "" {
          DeleteConfined(w, a, r2, found.id, id, host, hosts);
        }
        if !a.noop && a.zoneID != "" {
          PostConfined(w, a, r3, Record(CNAME, host, a.Endpoint()), id, hosts);
        }
      }
    }
  }

  lemma RemoveConfined(w: World, a: Account, r: Remote, host: string, id: string, name: string, hosts: set<string>)
    requires FreshIds(w, r) && host in hosts
    ensures Confined(r, RemoveTunnelRoute(w, a, r, host, id).0, id, name, hosts)
    ensures FreshIds(w, RemoveTunnelRoute(w, a, r, host, id).0)
  {
    if a.TunnelEnabled() {
      EditConfined(w, r, RemoveRoute(host), id, name, hosts);
      DeleteConfined(w, a, EditIngress(w, r, RemoveRoute(host)).0, id, id, name, hosts);
    }
  }

  lemma ReplaceConfined(w: World, a: Account, r: Remote, o: string, n: string, backend: string, id: string,
                        hosts: set<string>)
    requires FreshIds(w, r) && {o, n} <= hosts
    ensures Confined(r, ReplaceTunnelRoute(w, a, r, o, n, backend, id).0, id, n, hosts)
    ensures FreshIds(w, ReplaceTunnelRoute(w, a, r, o, n, backend, id).0)
  {
    if a.TunnelEnabled() {
      var edit := ReplaceRoute(o, n, backend);
      EditConfined(w, r, edit, id, n, hosts);
      var (r1, ok) := EditIngress(w, r, edit);
      if ok {
        DeleteConfined(w, a, r1, id, id, n, hosts);
        var r2 := if id != "" then DeleteRecord(w, a, r1, id).0 else r1;
        if !a.noop && a.zoneID != "" {
          PostConfined(w, a, r2, Record(CNAME, n, a.Endpoint()), id, hosts);
        }
      }
    }
  }

  /** Whatever requests fail, a reconciliation leaves alone every record except the old one and those
      named after the new hostname, and every rule except those for the old route, the old hostname
      and the new hostname. */
  lemma ReconcileConfined(e: Env, w: World, a: Account, r: Remote, was: DnsState, want: DnsState)
    requires FreshIds(w, r) && Lists(w)
    ensures Confined(r, Reconcile(e, w, a, r, was, want).remote, was.dnsRecordID, e.Host(want.subdomain),
                     {was.tunnelRouteID, e.Host(was.subdomain), e.Host(want.subdomain)})
    ensures FreshIds(w, Reconcile(e, w, a, r, was, want).remote)
  {
    var id, n, route := was.dnsRecordID, e.Host(want.subdomain), was.tunnelRouteID;
    var hosts := {route, e.Host(was.subdomain), n};
    match PlanDNS(was, want) {
      case Noop =>
      case CreateA =>
        PublishConfined(e, w, a, r, want.subdomain, id, hosts);
      case DeleteAll =>
        RemoveConfined(w, a, r, route, id, n, hosts);
        DeleteConfined(w, a, r, id, id, n, hosts);
      case SwapA =>
        DeleteConfined(w, a, r, id, id, n, hosts);
        var gone := DeleteKnown(w, a, r, id);
        PublishConfined(e, w, a, gone, want.subdomain, id, hosts);
        ConfinedTrans(r, gone, PublishA(e, w, a, gone, want.subdomain).remote, id, n, hosts);
      case CreateTunnel =>
        AddConfined(w, a, r, n, want.target, id, hosts);
      case AToTunnel =>
        DeleteConfined(w, a, r, id, id, n, hosts);
        var gone := DeleteKnown(w, a, r, id);
        AddConfined(w, a, gone, n, want.target, id, hosts);
        ConfinedTrans(r, gone, PublishTunnel(e, w, a, gone, want).remote, id, n, hosts);
      case TunnelToA =>
        RemoveConfined(w, a, r, route, id, n, hosts);
        var gone := RemoveTunnelRoute(w, a, r, route, id).0;
        PublishConfined(e, w, a, gone, want.subdomain, id, hosts);
        ConfinedTrans(r, gone, PublishA(e, w, a, gone, want.subdomain).remote, id, n, hosts);
      case ReplaceTunnel =>
        ReplaceConfined(w, a, r, e.Host(was.subdomain), n, want.target, id, hosts);
    }
  }

  /** Whatever fails, the record ID handed back is empty or names a record that exists, except after
      a replacement, which hands back the old ID on failure. */
  lemma ReconciledIdExists(e: Env, w: World, a: Account, r: Remote, was: DnsState, want: DnsState)
    requires FreshIds(w, r) && Lists(w)
    requires was.dnsRecordID == "" || was.dnsRecordID in r.records
    requires PlanDNS(was, want) != ReplaceTunnel
    ensures var s := Reconcile(e, w, a, r, was, want); s.dnsID == "" || s.dnsID in s.remote.records
  {
  }

  /** After a replacement the ID handed back names no record exactly when the ingress edit went
      through, the old CNAME was really deleted, and creating the new one reported an error. */
  lemma ReplaceDanglesIff(e: Env, w: World, a: Account, r: Remote, was: DnsState, want: DnsState)
    requires FreshIds(w, r) && a.Valid() && a.TunnelEnabled()
    requires was.dnsRecordID == "" || was.dnsRecordID in r.records
    requires PlanDNS(was, want) == ReplaceTunnel
    ensures var s := Reconcile(e, w, a, r, was, want);
      (s.dnsID != "" && s.dnsID !in s.remote.records) <==>
      (&& was.dnsRecordID != ""
       && w.outcome(r.calls).Done? && w.outcome(r.calls + 1).Done?
       && !w.outcome(r.calls + 2).Refused?
       && !w.outcome(r.calls + 3).Done?)
  {
  }
}
