/**
 Changes some of whose Cloudflare requests fail (internal/web/handle_services.go:294-388): after which
 outcomes does Cloudflare still hold exactly what the store says, with nothing orphaned and nothing
 dangling?
 */
module Failures {
  import opened Common
  import opened Entities
  import opened Ingress
  import opened Cloudflare
  import opened Dns
  import opened Tracking

  /** One change of one service, from a tracked state. */
  datatype Try = Try(
    e: Env,
    o: Outside,
    w: World,
    a: Account,
    r: Remote,
    rest: map<string, Service>,
    was: Option<Service>,
    nu: Option<Service>,
    want: DnsState)
  {
    function Old(): DnsState {
      StateOfOption(was)
    }

    function Result(): Reconciled {
      Reconcile(e, w, a, r, Old(), want)
    }

    function Host(): string {
      e.Host(want.subdomain)
    }

    /** The A record that the wish asks for, if it asks for one. */
    function Address(): Record {
      Record(A, Host(), e.serverIP)
    }

    /** The CNAME, likewise. */
    function Alias(): Record {
      Record(CNAME, Host(), a.Endpoint())
    }

    /** The outcome of the i-th request of the change. */
    function O(i: nat): Outcome {
      w.outcome(r.calls + i)
    }

    ghost predicate Started() {
      Attempt(e, o, w, a, r, rest, was, nu, want)
    }

    ghost predicate Able() {
      Started() && a.TunnelEnabled()
    }

    ghost predicate Settled() {
      Tracked(e, o, With(rest, nu), Result().remote)
    }
  }

  // ---- Which outcomes it survives -------------------------------------------------------------------------

  /** The A record, asked for by the c-th request, is not created without its ID coming back. */
  predicate Posts(t: Try, c: nat) {
    t.e.serverIP == "" || !t.O(c).Lost?
  }

  /** The route's rule is not written, or the CNAME is created too. */
  predicate Adds(t: Try, c: nat) {
    !t.O(c).Done? || t.O(c + 1).Refused? || (t.O(c + 1).Done? && t.O(c + 3).Done?)
  }

  predicate Removes(t: Try) {
    t.O(0).Done? && t.O(1).Done? && !t.O(2).Refused?
  }

  /** All goes through; or, on the same hostname, the rule is changed and everything after it is not. */
  predicate Replaces(t: Try) {
    var same := t.want.subdomain == t.Old().subdomain;
    t.O(0).Done? &&
    match t.O(1)
    case Refused => false
    case Lost => same
    case Done => (t.O(3).Done? && !t.O(2).Refused?) || (same && t.O(3).Refused? && t.O(2).Refused?)
  }

  /** The old A record stays where it is, until the adding of the route finds it under its own name. */
  predicate FoundLater(t: Try) {
    t.want.subdomain == t.Old().subdomain && t.O(1).Done? && t.O(2).Done? && t.O(3).Done? && !t.O(4).Refused? &&
    t.O(5).Done?
  }

  /** Nothing is sent: the client is a no-op, or the wish is for a tunnel while tunnels are off. */
  predicate Silent(t: Try) {
    t.a.noop || (t.want.Mode().Tunnelled? && !t.a.TunnelEnabled())
  }

  /** The client can take down what was published (Tracking.Leaks), and if it sends anything the requests
      have the right outcomes. */
  predicate Survives(t: Try) {
    var known := t.Old().dnsRecordID != "";
    !Leaks(t.a, t.Old(), t.want) && (Silent(t) ||
    match PlanDNS(t.Old(), t.want)
    case Noop => true
    case CreateA => Posts(t, 0)
    case CreateTunnel => Adds(t, 0)
    case DeleteAll => if t.Old().tunnelRouteID != "" then Removes(t) else known ==> !t.O(0).Refused?
    case SwapA => if known then !t.O(0).Refused? && Posts(t, 1) else Posts(t, 0)
    case AToTunnel => if !known then Adds(t, 0) else if t.O(0).Refused? then FoundLater(t) else Adds(t, 1)
    case TunnelToA => Removes(t) && Posts(t, 3)
    case ReplaceTunnel => Replaces(t))
  }

  // ---- What is wrong where it does not ----------------------------------------------------------------------

  /** A record is left that is not the one handed back: the old one, or a new one. */
  lemma Orphaned(t: Try, id: string)
    requires t.Started() && id in t.Result().remote.records && id != t.Result().dnsID
    requires id == t.Old().dnsRecordID || id !in t.r.records
    ensures !t.Settled()
  {
    var all, all' := With(t.rest, t.was), With(t.rest, t.nu);
    if id == t.Old().dnsRecordID && id != "" {
      LeakUntracked(t.e, t.o, t.rest, t.was, t.nu, t.r, t.Result().remote);
    } else if id != "" {
      forall k | k in all' ensures all'[k].dnsRecordID != id {
        if k in t.rest {
          assert k in all && all[k] == all'[k] && Holds(t.e, t.o, all[k], t.r);
        }
      }
    }
  }

  /** A rule is left for a hostname that is not routed. */
  lemma Stray(t: Try)
    requires t.Started() && !t.want.directOnly && t.Result().routeID == ""
    requires Only(t.Result().remote.ingress, t.Host()) != []
    ensures !t.Settled()
  {
    HostInjective(t.e, t.want.subdomain, t.want.subdomain);
    forall k ensures !Routes(t.e, With(t.rest, t.nu), k, t.Host()) {
      HostInjective(t.e, k, t.want.subdomain);
    }
  }

  /** The service is said to be routed, but not where or to what it should be. */
  lemma Misrouted(t: Try)
    requires t.Started() && !t.want.directOnly && t.Result().routeID != ""
    requires t.Result().routeID != t.Host()
             || Only(t.Result().remote.ingress, t.Host()) != [Rule(t.Host(), t.want.target)]
    ensures !t.Settled()
  {
    HostInjective(t.e, t.want.subdomain, t.want.subdomain);
    var all' := With(t.rest, t.nu);
    assert t.want.subdomain in all' && all'[t.want.subdomain] == t.nu.value;
    if t.Result().routeID == t.Host() {
      assert Routes(t.e, all', t.want.subdomain, t.Host());
    }
  }

  // ---- What makes it right where it does --------------------------------------------------------------------

  /** The old record has made way for what came of the wish, and the rules follow: `got` is the wish, or
      the wish without the tunnel. */
  lemma Landed(t: Try, got: DnsState, rec: Option<Record>)
    requires t.Started() && (got == t.want || got == t.want.(tunnel := false))
    requires Swapped(t.r, t.Result().remote, t.Old().dnsRecordID, t.Result().dnsID, rec)
    requires Rerouted(t.e, t.a, t.r, t.Result().remote, t.Old(), got)
    requires t.Result().routeID == if Routed(t.a, got) then t.Host() else ""
    requires if Routed(t.a, got) then rec == Some(t.Alias()) else rec == None || rec == Some(t.Address())
    requires t.want.directOnly ==> rec == None
    ensures t.Settled()
  {
    hide RecordsTracked, IngressTracked, DistinctRecords, Reconcile;
    HostInjective(t.e, t.want.subdomain, t.want.subdomain);
    RecordsAfterSwap(t.e, t.o, t.rest, t.was, t.nu, t.r, t.Result().remote, t.Old().dnsRecordID, t.Result().dnsID, rec);
    IngressAfterMove(t.e, t.o, t.a, t.rest, t.was, t.nu, t.r, t.Result().remote, got);
    CoherentWith(t.e, t.o, t.w, t.a, t.r, t.rest, t.was, t.nu, t.want);
  }

  // ---- An A record, after the old one ------------------------------------------------------------------------

  /** What asking for the A record comes to. */
  lemma PublishOutcome(t: Try, r: Remote)
    requires !t.a.noop && FreshIds(t.w, r) && "" !in r.records
    ensures var s := PublishA(t.e, t.w, t.a, r, t.want.subdomain); var id := t.w.newId(r.calls);
      && s.routeID == "" && s.remote.ingress == r.ingress && s.dnsID in {"", id}
      && (forall i | i in r.records :: i in s.remote.records)
      && if t.e.serverIP != "" && t.w.outcome(r.calls).Lost? then s.dnsID == "" && id in s.remote.records
         else Swapped(r, s.remote, "", s.dnsID, None) || Swapped(r, s.remote, "", s.dnsID, Some(t.Address()))
  {
    assert r.records - {""} == r.records;
  }

  /** Everything the change takes down is down at `mid`, and then the A record is asked for. */
  ghost predicate Cleared(t: Try, mid: Remote) {
    && mid.records == t.r.records - {t.Old().dnsRecordID} && mid.calls >= t.r.calls && FreshIds(t.w, mid)
    && Rerouted(t.e, t.a, t.r, mid, t.Old(), t.want.(tunnel := false))
  }

  lemma PublishedIff(t: Try, mid: Remote)
    requires t.Started() && !t.a.noop && Cleared(t, mid) && t.want.Mode() == ARecord
    requires t.Result() == PublishA(t.e, t.w, t.a, mid, t.want.subdomain)
    ensures t.Settled() <==> t.e.serverIP == "" || !t.w.outcome(mid.calls).Lost?
  {
    hide Tracked, PublishA, Reconcile;
    AttemptKnown(t.e, t.o, t.w, t.a, t.r, t.rest, t.was, t.nu, t.want);
    PublishOutcome(t, mid);
    assert t.w.newId(mid.calls) !in t.r.records && t.w.newId(mid.calls) != "";
    if t.e.serverIP != "" && t.w.outcome(mid.calls).Lost? {
      Orphaned(t, t.w.newId(mid.calls));
    } else {
      var rec := if t.Result().dnsID == "" then None else Some(t.Address());
      assert mid.records - {""} == mid.records;
      assert Swapped(t.r, t.Result().remote, t.Old().dnsRecordID, t.Result().dnsID, rec);
      Landed(t, t.want.(tunnel := false), rec);
    }
  }

  /** Where the old record is still there, asking for another makes nothing right. */
  lemma PublishedTooSoon(t: Try, mid: Remote)
    requires t.Started() && !t.a.noop && t.Result() == PublishA(t.e, t.w, t.a, mid, t.want.subdomain)
    requires t.Old().dnsRecordID != "" && t.Old().dnsRecordID in mid.records
    requires mid.calls >= t.r.calls && FreshIds(t.w, mid) && "" !in mid.records
    ensures !t.Settled()
  {
    hide Tracked, PublishA, Reconcile, Swapped;
    AttemptKnown(t.e, t.o, t.w, t.a, t.r, t.rest, t.was, t.nu, t.want);
    PublishOutcome(t, mid);
    Orphaned(t, t.Old().dnsRecordID);
  }

  /** What deleting the old record comes to. */
  lemma DeleteOutcome(t: Try, r: Remote, id: string)
    requires !t.a.noop && FreshIds(t.w, r) && "" !in r.records
    ensures var r' := DeleteKnown(t.w, t.a, r, id);
      if id == "" then r' == r && r.records - {id} == r.records
      else
        && r'.records == (if t.w.outcome(r.calls).Refused? then r.records else r.records - {id})
        && r'.ingress == r.ingress && r'.calls == r.calls + 1 && FreshIds(t.w, r')
  {
  }

  lemma CreateAIff(t: Try)
    requires t.Started() && !t.a.noop && PlanDNS(t.Old(), t.want) == CreateA
    ensures t.Settled() <==> Survives(t)
  {
    hide Tracked, PublishA;
    AttemptKnown(t.e, t.o, t.w, t.a, t.r, t.rest, t.was, t.nu, t.want);
    assert t.r.records - {""} == t.r.records;
    PublishedIff(t, t.r);
  }

  lemma SwapAIff(t: Try)
    requires t.Started() && !t.a.noop && PlanDNS(t.Old(), t.want) == SwapA
    ensures t.Settled() <==> Survives(t)
  {
    hide Tracked, PublishA, DeleteKnown;
    AttemptKnown(t.e, t.o, t.w, t.a, t.r, t.rest, t.was, t.nu, t.want);
    var id := t.Old().dnsRecordID;
    var mid := DeleteKnown(t.w, t.a, t.r, id);
    DeleteOutcome(t, t.r, id);
    if id != "" && t.O(0).Refused? {
      PublishedTooSoon(t, mid);
    } else {
      PublishedIff(t, mid);
    }
  }

  // ---- A route taken down -----------------------------------------------------------------------------------

  lemma RemoveRequests(w: World, a: Account, r: Remote, host: string, id: string)
    requires a.TunnelEnabled() && FreshIds(w, r) && id != "" && id in r.records && "" !in r.records
    ensures var mid := RemoveTunnelRoute(w, a, r, host, id).0;
      && mid.calls >= r.calls && "" !in mid.records
      && if w.outcome(r.calls).Done? && w.outcome(r.calls + 1).Done? && !w.outcome(r.calls + 2).Refused? then
           mid == Remote(r.records - {id}, Edited(RemoveRoute(host), r.ingress), r.calls + 3)
         else id in mid.records
  {
    hide Edited;
  }

  /** The rules left by taking down the old route. */
  lemma RoutesGone(t: Try, mid: Remote)
    requires t.Old().tunnel && t.Old().tunnelRouteID == t.e.Host(t.Old().subdomain)
    requires mid.ingress == Edited(RemoveRoute(t.Old().tunnelRouteID), t.r.ingress)
    ensures Rerouted(t.e, t.a, t.r, mid, t.Old(), t.want.(tunnel := false))
  {
    hide Edited, Only;
    var host := t.Old().tunnelRouteID;
    forall q | q != "" ensures Only(mid.ingress, q) == if q == host then [] else Only(t.r.ingress, q) {
      OnlyEdited(RemoveRoute(host), t.r.ingress, q);
    }
  }

  lemma AllFresh(t: Try)
    requires t.Started()
    ensures FreshIds(t.w, t.r) && "" !in t.r.records && (t.Old().tunnel ==> t.Old().dnsRecordID != "")
  {
    AttemptKnown(t.e, t.o, t.w, t.a, t.r, t.rest, t.was, t.nu, t.want);
  }

  /** What removing a route comes to: all of it, or its record stays. */
  lemma RemoveOutcome(t: Try)
    requires t.Able() && t.Old().tunnel
    ensures var mid := RemoveTunnelRoute(t.w, t.a, t.r, t.Old().tunnelRouteID, t.Old().dnsRecordID).0;
      && mid.calls >= t.r.calls && FreshIds(t.w, mid) && "" !in mid.records
      && if Removes(t) then mid.calls == t.r.calls + 3 && Cleared(t, mid) else t.Old().dnsRecordID in mid.records
  {
    hide Attempt, RemoveTunnelRoute, FreshIds, Rerouted, Lists, Confined, Edited, Only;
    AllFresh(t);
    OldRule(t);
    OldRecord(t);
    var host, id := t.Old().tunnelRouteID, t.Old().dnsRecordID;
    var mid := RemoveTunnelRoute(t.w, t.a, t.r, host, id).0;
    RemoveConfined(t.w, t.a, t.r, host, id, host, {host});
    RemoveRequests(t.w, t.a, t.r, host, id);
    if Removes(t) {
      RoutesGone(t, mid);
    }
  }

  lemma TunnelToAIff(t: Try)
    requires t.Able() && PlanDNS(t.Old(), t.want) == TunnelToA
    ensures t.Settled() <==> Survives(t)
  {
    hide Tracked, PublishA, RemoveTunnelRoute, Cleared;
    AttemptKnown(t.e, t.o, t.w, t.a, t.r, t.rest, t.was, t.nu, t.want);
    var mid := RemoveTunnelRoute(t.w, t.a, t.r, t.Old().tunnelRouteID, t.Old().dnsRecordID).0;
    RemoveOutcome(t);
    if Removes(t) {
      PublishedIff(t, mid);
    } else {
      PublishedTooSoon(t, mid);
    }
  }

  lemma DeleteAllIff(t: Try)
    requires t.Started() && PlanDNS(t.Old(), t.want) == DeleteAll
    requires !t.a.noop && (t.Old().tunnel ==> t.a.TunnelEnabled())
    ensures t.Settled() <==> Survives(t)
  {
    hide Tracked, RemoveTunnelRoute, DeleteKnown;
    AttemptKnown(t.e, t.o, t.w, t.a, t.r, t.rest, t.was, t.nu, t.want);
    DeleteOutcome(t, t.r, t.Old().dnsRecordID);
    if t.Old().tunnel {
      RemoveOutcome(t);
    }
    if Survives(t) {
      assert Swapped(t.r, t.Result().remote, t.Old().dnsRecordID, "", None);
      Landed(t, t.want.(tunnel := false), None);
    } else {
      Orphaned(t, t.Old().dnsRecordID);
    }
  }

  // ---- A route added, after the old record ------------------------------------------------------------------

  /** Whether the request that writes the rule takes effect. */
  predicate Written(t: Try, c: nat) {
    t.O(c).Done? && !t.O(c + 1).Refused?
  }

  lemma AddRequests(w: World, a: Account, r: Remote, host: string, backend: string)
    requires a.TunnelEnabled() && a.Valid() && Lists(w)
    requires forall i | i in r.records :: r.records[i].name != host
    ensures var (r', id) := AddTunnelRoute(w, a, r, host, backend);
      var written := w.outcome(r.calls).Done? && !w.outcome(r.calls + 1).Refused?;
      && r'.ingress == (if written then Edited(AddRoute(host, backend), r.ingress) else r.ingress)
      && (!written ==> r'.records == r.records)
      && if written && w.outcome(r.calls + 1).Done? && w.outcome(r.calls + 3).Done? then
           id == Some(w.newId(r.calls + 3)) && r'.records == r.records[id.value := Record(CNAME, host, a.Endpoint())]
         else id == None
  {
    hide Edited;
  }

  /** The rules left by adding the new route where there was none. */
  lemma RoutesThere(t: Try, r': Remote)
    requires t.want.Mode().Tunnelled? && !t.Old().tunnel && t.a.TunnelEnabled()
    requires r'.ingress == Edited(AddRoute(t.Host(), t.want.target), t.r.ingress)
    ensures Rerouted(t.e, t.a, t.r, r', t.Old(), t.want) && Only(r'.ingress, t.Host()) != []
  {
    hide Edited, Only;
    HostInjective(t.e, t.want.subdomain, t.want.subdomain);
    forall q | q != ""
      ensures Only(r'.ingress, q) == if q == t.Host() then [Rule(q, t.want.target)] else Only(t.r.ingress, q)
    {
      OnlyEdited(AddRoute(t.Host(), t.want.target), t.r.ingress, q);
    }
  }

  /** The old record is down at `mid`, or there was none, and then the route is asked for. */
  ghost predicate Emptied(t: Try, mid: Remote, c: nat) {
    && t.Able() && t.want.Mode().Tunnelled? && !t.Old().tunnel && mid.calls == t.r.calls + c
    && mid.records == t.r.records - {t.Old().dnsRecordID} && mid.ingress == t.r.ingress
    && t.Result() == PublishTunnel(t.e, t.w, t.a, mid, t.want)
  }

  /** What adding the route then comes to. */
  lemma AddOutcome(t: Try, mid: Remote, c: nat)
    requires Emptied(t, mid, c)
    ensures var s := t.Result();
      && s.remote.ingress == (if Written(t, c) then Edited(AddRoute(t.Host(), t.want.target), t.r.ingress)
                              else t.r.ingress)
      && (!Written(t, c) ==> s.remote.records == mid.records)
      && if Written(t, c) && Adds(t, c) then
           && s.routeID == t.Host() && s.dnsID == t.w.newId(mid.calls + 3)
           && s.remote.records == mid.records[s.dnsID := t.Alias()]
         else s.routeID == "" && s.dnsID == ""
  {
    hide Attempt, AddTunnelRoute, Reconcile, FreshIds, Lists, Edited, Only;
    OnlyOld(t);
    AddRequests(t.w, t.a, mid, t.Host(), t.want.target);
  }

  lemma AddedIff(t: Try, mid: Remote, c: nat)
    requires Emptied(t, mid, c)
    ensures t.Settled() <==> Adds(t, c)
  {
    AddOutcome(t, mid, c);
    NewID(t, mid.calls + 3);
    hide Attempt, Reconcile, PublishTunnel, Tracked, Edited;
    if Written(t, c) {
      hide Rerouted;
      RoutesThere(t, t.Result().remote);
      if Adds(t, c) {
        Landed(t, t.want, Some(t.Alias()));
      } else {
        Stray(t);
      }
    } else {
      Landed(t, t.want.(tunnel := false), None);
    }
  }

  lemma NewID(t: Try, n: nat)
    requires t.Started() && n >= t.r.calls
    ensures t.w.newId(n) != "" && t.w.newId(n) !in t.r.records
  {
  }

  lemma CreateTunnelIff(t: Try)
    requires t.Able() && PlanDNS(t.Old(), t.want) == CreateTunnel
    ensures t.Settled() <==> Survives(t)
  {
    hide Tracked, PublishTunnel;
    AttemptKnown(t.e, t.o, t.w, t.a, t.r, t.rest, t.was, t.nu, t.want);
    assert t.r.records - {""} == t.r.records;
    AddedIff(t, t.r, 0);
  }

  // ---- A route added beside an A record that could not be deleted -------------------------------------------

  lemma OldRecord(t: Try)
    requires t.Started() && t.Old().dnsRecordID != ""
    ensures t.Old().dnsRecordID in t.r.records
    ensures t.r.records[t.Old().dnsRecordID] ==
            if t.Old().tunnel then Record(CNAME, t.e.Host(t.Old().subdomain), t.o.endpoint)
            else Record(A, t.e.Host(t.Old().subdomain), t.e.serverIP)
  {
    assert With(t.rest, t.was)[t.was.value.subdomain] == t.was.value;
    assert Holds(t.e, t.o, t.was.value, t.r);
  }

  /** All that can come of adding a route at a name whose only record is, or may be, `id`. */
  lemma AddBeside(w: World, a: Account, r: Remote, host: string, backend: string, id: string)
    requires a.TunnelEnabled() && a.Valid() && Lists(w) && FreshIds(w, r) && id != "" && id in r.records
    requires forall i | i in r.records && r.records[i].name == host :: i == id
    ensures var (r', made) := AddTunnelRoute(w, a, r, host, backend);
      var through := && w.outcome(r.calls).Done? && w.outcome(r.calls + 1).Done? && w.outcome(r.calls + 2).Done?
                     && !w.outcome(r.calls + 3).Refused? && w.outcome(r.calls + 4).Done?;
      if through && r.records[id].name == host then
        && made == Some(w.newId(r.calls + 4)) && r'.ingress == Edited(AddRoute(host, backend), r.ingress)
        && r'.records == (r.records - {id})[made.value := Record(CNAME, host, a.Endpoint())]
      else if id in r'.records then made != Some(id)
      else made == None && r'.ingress == Edited(AddRoute(host, backend), r.ingress)
  {
    hide Edited;
    var hits := set i | i in r.records && r.records[i].name == host;
    assert hits == if r.records[id].name == host then {id} else {};
    assert hits != {} ==> w.first(r.calls + 2, hits) in hits;
  }

  ghost predicate Beside(t: Try, mid: Remote) {
    && t.Able() && PlanDNS(t.Old(), t.want) == AToTunnel && t.Old().dnsRecordID != "" && t.O(0).Refused?
    && mid == t.r.(calls := t.r.calls + 1) && FreshIds(t.w, mid)
    && t.Result() == PublishTunnel(t.e, t.w, t.a, mid, t.want)
  }

  lemma BesideOutcome(t: Try, mid: Remote)
    requires Beside(t, mid)
    ensures var s := t.Result(); var id := t.Old().dnsRecordID;
      if FoundLater(t) then
        && s.routeID == t.Host() && s.dnsID == t.w.newId(mid.calls + 4)
        && s.remote.ingress == Edited(AddRoute(t.Host(), t.want.target), t.r.ingress)
        && s.remote.records == (t.r.records - {id})[s.dnsID := t.Alias()]
      else if id in s.remote.records then s.dnsID != id
      else s.routeID == "" && s.remote.ingress == Edited(AddRoute(t.Host(), t.want.target), t.r.ingress)
  {
    hide Attempt, AddTunnelRoute, Reconcile, Edited, Lists, FreshIds, Only;
    OldRecord(t);
    OnlyOld(t);
    HostInjective(t.e, t.want.subdomain, t.Old().subdomain);
    AddBeside(t.w, t.a, mid, t.Host(), t.want.target, t.Old().dnsRecordID);
  }

  lemma OnlyOld(t: Try)
    requires t.Started() && !t.want.directOnly
    ensures t.a.Valid() && Lists(t.w) && FreshIds(t.w, t.r) && (t.Old().tunnel ==> t.Old().dnsRecordID != "")
    ensures Only(t.r.ingress, t.Host()) == [] || (t.Old().tunnel && t.Old().subdomain == t.want.subdomain)
    ensures forall i | i in t.r.records && t.r.records[i].name == t.Host() :: i == t.Old().dnsRecordID
  {
    AttemptKnown(t.e, t.o, t.w, t.a, t.r, t.rest, t.was, t.nu, t.want);
  }

  lemma KeptBeside(t: Try, mid: Remote)
    requires Beside(t, mid)
    ensures t.Settled() <==> FoundLater(t)
  {
    BesideOutcome(t, mid);
    NewID(t, mid.calls + 4);
    hide Attempt, PublishTunnel, Reconcile, Edited, Tracked, Rerouted;
    if FoundLater(t) {
      RoutesThere(t, t.Result().remote);
      Landed(t, t.want, Some(t.Alias()));
    } else if t.Old().dnsRecordID in t.Result().remote.records {
      Orphaned(t, t.Old().dnsRecordID);
    } else {
      RoutesThere(t, t.Result().remote);
      Stray(t);
    }
  }

  lemma AToTunnelIff(t: Try)
    requires t.Able() && PlanDNS(t.Old(), t.want) == AToTunnel
    ensures t.Settled() <==> Survives(t)
  {
    AttemptKnown(t.e, t.o, t.w, t.a, t.r, t.rest, t.was, t.nu, t.want);
    hide Attempt, Tracked, PublishTunnel, DeleteKnown;
    var id := t.Old().dnsRecordID;
    var mid := DeleteKnown(t.w, t.a, t.r, id);
    DeleteOutcome(t, t.r, id);
    if id != "" && t.O(0).Refused? {
      KeptBeside(t, mid);
    } else {
      AddedIff(t, mid, if id == "" then 0 else 1);
    }
  }

  // ---- A route replaced -------------------------------------------------------------------------------------

  lemma ReplaceRequests(w: World, a: Account, r: Remote, was: string, host: string, backend: string, id: string)
    requires a.TunnelEnabled() && a.Valid() && id != ""
    ensures var (r', made) := ReplaceTunnelRoute(w, a, r, was, host, backend, id);
      var nu, alias := w.newId(r.calls + 3), Record(CNAME, host, a.Endpoint());
      && r'.ingress == (if w.outcome(r.calls).Done? && !w.outcome(r.calls + 1).Refused? then
                          Edited(ReplaceRoute(was, host, backend), r.ingress)
                        else r.ingress)
      && if w.outcome(r.calls).Done? && w.outcome(r.calls + 1).Done? then
           var left := if w.outcome(r.calls + 2).Refused? then r.records else r.records - {id};
           && r'.records == (if w.outcome(r.calls + 3).Refused? then left else left[nu := alias])
           && made == if w.outcome(r.calls + 3).Done? then Some(nu) else None
         else made == None && r'.records == r.records
  {
    hide Edited;
  }

  lemma RoutesMoved(t: Try, r': Remote)
    requires t.Able() && t.want.Mode().Tunnelled? && t.Old().tunnel
    requires r'.ingress == Edited(ReplaceRoute(t.e.Host(t.Old().subdomain), t.Host(), t.want.target), t.r.ingress)
    ensures Rerouted(t.e, t.a, t.r, r', t.Old(), t.want)
  {
    hide Attempt, Edited, Only;
    OnlyOld(t);
    HostInjective(t.e, t.want.subdomain, t.Old().subdomain);
    forall q | q != ""
      ensures Only(r'.ingress, q) ==
              if q == t.Host() then [Rule(q, t.want.target)]
              else if q == t.e.Host(t.Old().subdomain) then [] else Only(t.r.ingress, q)
    {
      OnlyEdited(ReplaceRoute(t.e.Host(t.Old().subdomain), t.Host(), t.want.target), t.r.ingress, q);
    }
  }

  lemma OldRule(t: Try)
    requires t.Started() && t.Old().tunnel
    ensures var host := t.e.Host(t.Old().subdomain);
      t.Old().tunnelRouteID == host && Only(t.r.ingress, host) == [Rule(host, t.Old().target)]
  {
    HostInjective(t.e, t.Old().subdomain, t.Old().subdomain);
    var all := With(t.rest, t.was);
    assert all[t.was.value.subdomain] == t.was.value;
    assert Routes(t.e, all, t.was.value.subdomain, t.e.Host(t.Old().subdomain));
  }

  /** The ID handed back names nothing. */
  lemma Dangling(t: Try)
    requires t.Started() && !t.want.directOnly
    requires t.Result().dnsID != "" && t.Result().dnsID !in t.Result().remote.records
    ensures !t.Settled()
  {
    assert With(t.rest, t.nu)[t.want.subdomain] == t.nu.value;
  }

  /** The record stays as it is, and what it is held for, while its rule gets the new target. */
  lemma Retargeted(t: Try)
    requires t.Able() && t.Old().tunnel && t.want.Mode().Tunnelled? && t.want.subdomain == t.Old().subdomain
    requires t.Result().remote.records == t.r.records && t.Result().dnsID == t.Old().dnsRecordID
    requires t.Result().routeID == t.Host() && Rerouted(t.e, t.a, t.r, t.Result().remote, t.Old(), t.want)
    ensures t.Settled()
  {
    HostInjective(t.e, t.want.subdomain, t.want.subdomain);
    RetargetedRecords(t);
    hide RecordsTracked, IngressTracked, DistinctRecords, Reconcile;
    IngressAfterMove(t.e, t.o, t.a, t.rest, t.was, t.nu, t.r, t.Result().remote, t.want);
    AttemptKnown(t.e, t.o, t.w, t.a, t.r, t.rest, t.was, t.nu, t.want);
    CoherentWith(t.e, t.o, t.w, t.a, t.r, t.rest, t.was, t.nu, t.want);
  }

  lemma RetargetedRecords(t: Try)
    requires t.Started() && t.Old().tunnel && !t.want.directOnly && t.want.subdomain == t.Old().subdomain
    requires t.Result().remote.records == t.r.records && t.Result().dnsID == t.Old().dnsRecordID
    requires t.Result().routeID == t.Host() != ""
    ensures RecordsTracked(t.e, t.o, With(t.rest, t.nu), t.Result().remote) && DistinctRecords(With(t.rest, t.nu))
  {
    hide IngressTracked, Reconcile, DistinctRecords, NoOrphans;
    var r' := t.Result().remote;
    NoopOrphans(t.o, t.rest, t.was, t.nu, t.r);
    assert NoOrphans(t.o, With(t.rest, t.nu), r') by {
      SameOrphans(t.o, With(t.rest, t.nu), t.r, r');
    }
    forall k | k in t.rest
      ensures Holds(t.e, t.o, t.rest[k], t.r)
      ensures t.rest[k].dnsRecordID == "" || t.rest[k].dnsRecordID != t.Old().dnsRecordID
    {
      RestHoldsOthers(t.e, t.o, t.rest, t.was, t.r, k);
    }
    DistinctAfter(t.rest, t.was, t.nu);
    assert With(t.rest, t.was)[t.was.value.subdomain] == t.was.value;
    assert Holds(t.e, t.o, t.was.value, t.r);
    assert Holds(t.e, t.o, t.nu.value, r');
  }

  lemma SameOrphans(o: Outside, services: map<string, Service>, r: Remote, r': Remote)
    requires NoOrphans(o, services, r) && r'.records == r.records
    ensures NoOrphans(o, services, r')
  {
  }

  lemma ReplaceOutcome(t: Try)
    requires t.Able() && PlanDNS(t.Old(), t.want) == ReplaceTunnel
    ensures var s := t.Result(); var was, id := t.e.Host(t.Old().subdomain), t.Old().dnsRecordID;
      var nu := t.w.newId(t.r.calls + 3);
      && id != "" && (t.Old().subdomain == t.want.subdomain <==> was == t.Host())
      && s.remote.ingress == (if Written(t, 0) then Edited(ReplaceRoute(was, t.Host(), t.want.target), t.r.ingress)
                              else t.r.ingress)
      && if t.O(0).Done? && t.O(1).Done? then
           var left := if t.O(2).Refused? then t.r.records else t.r.records - {id};
           && s.remote.records == (if t.O(3).Refused? then left else left[nu := t.Alias()])
           && (s.dnsID, s.routeID) == if t.O(3).Done? then (nu, t.Host()) else (id, was)
         else (s.dnsID, s.routeID) == (id, was) && s.remote.records == t.r.records
  {
    hide Attempt, ReplaceTunnelRoute, Edited, Only, FreshIds, Lists;
    OldRule(t);
    OnlyOld(t);
    HostInjective(t.e, t.want.subdomain, t.Old().subdomain);
    ReplaceRequests(t.w, t.a, t.r, t.e.Host(t.Old().subdomain), t.Host(), t.want.target, t.Old().dnsRecordID);
  }

  lemma ReplaceTunnelIff(t: Try)
    requires t.Able() && PlanDNS(t.Old(), t.want) == ReplaceTunnel
    ensures t.Settled() <==> Survives(t)
  {
    hide Attempt, Reconcile, Edited, Tracked, Rerouted;
    var id, s := t.Old().dnsRecordID, t.Result();
    ReplaceOutcome(t);
    OldRule(t);
    OldRecord(t);
    NewID(t, t.r.calls + 3);
    if !Written(t, 0) {
      Misrouted(t);
    } else {
      RoutesMoved(t, s.remote);
      if t.O(1).Done? && t.O(3).Done? {
        if t.O(2).Refused? {
          Orphaned(t, id);
        } else {
          Landed(t, t.want, Some(t.Alias()));
        }
      } else {
        OldHandedBack(t);
      }
    }
  }

  /** The rule is changed but the old record and route are handed back. */
  lemma OldHandedBack(t: Try)
    requires t.Able() && PlanDNS(t.Old(), t.want) == ReplaceTunnel && Written(t, 0)
    requires !(t.O(1).Done? && t.O(3).Done?)
    requires Rerouted(t.e, t.a, t.r, t.Result().remote, t.Old(), t.want)
    ensures t.Settled() <==> Survives(t)
  {
    hide Attempt, Reconcile, Edited, Tracked, Rerouted;
    ReplaceOutcome(t);
    OldRecord(t);
    NewID(t, t.r.calls + 3);
    if t.Old().subdomain != t.want.subdomain {
      HostInjective(t.e, t.Old().subdomain, t.want.subdomain);
      Misrouted(t);
    } else if t.O(1).Lost? || (t.O(2).Refused? && t.O(3).Refused?) {
      Retargeted(t);
    } else if !t.O(2).Refused? {
      Dangling(t);
    } else {
      Orphaned(t, t.w.newId(t.r.calls + 3));
    }
  }

  /** With nothing to take down and nothing sent, nothing is left. */
  lemma SilentSettled(t: Try)
    requires t.Started() && Silent(t) && !Leaks(t.a, t.Old(), t.want) && PlanDNS(t.Old(), t.want) != Noop
    ensures t.Settled()
  {
    hide Attempt, Tracked;
    AttemptKnown(t.e, t.o, t.w, t.a, t.r, t.rest, t.was, t.nu, t.want);
    assert t.r.records - {""} == t.r.records;
    Landed(t, t.want.(tunnel := false), None);
  }

  lemma NoopSettled(t: Try)
    requires t.Started() && PlanDNS(t.Old(), t.want) == Noop
    ensures t.Settled()
  {
    NoopTracked(t.e, t.o, t.rest, t.was, t.nu, t.r, t.want);
    NoopRoutes(t.e, t.o, t.rest, t.was, t.nu, t.r, t.want);
    AttemptKnown(t.e, t.o, t.w, t.a, t.r, t.rest, t.was, t.nu, t.want);
    CoherentWith(t.e, t.o, t.w, t.a, t.r, t.rest, t.was, t.nu, t.want);
  }

  /** Whatever requests fail: after a change Cloudflare holds exactly what the store says if and only if the
      outcomes are among those that the change survives. In all other cases a record or rule is left that
      the store knows nothing of, or the store names a record or rule that is not there. */
  lemma FailureTrackedIff(t: Try)
    requires t.Started()
    ensures t.Settled() <==> Survives(t)
  {
    hide Attempt, Tracked, Reconcile, Posts, Adds, Removes, Replaces, FoundLater;
    if Leaks(t.a, t.Old(), t.want) {
      AttemptKnown(t.e, t.o, t.w, t.a, t.r, t.rest, t.was, t.nu, t.want);
      LeakEffect(t.e, t.w, t.a, t.r, t.Old(), t.want);
      Orphaned(t, t.Old().dnsRecordID);
    } else if Silent(t) && PlanDNS(t.Old(), t.want) != Noop {
      SilentSettled(t);
    } else {
      SentIff(t);
    }
  }

  lemma SentIff(t: Try)
    requires t.Started() && !Leaks(t.a, t.Old(), t.want) && (Silent(t) ==> PlanDNS(t.Old(), t.want) == Noop)
    ensures t.Settled() <==> Survives(t)
  {
    hide Attempt, Tracked, Reconcile, Posts, Adds, Removes, Replaces, FoundLater;
    AttemptKnown(t.e, t.o, t.w, t.a, t.r, t.rest, t.was, t.nu, t.want);
    hide Known;
    match PlanDNS(t.Old(), t.want) {
      case Noop => NoopSettled(t);
      case CreateA => CreateAIff(t);
      case CreateTunnel => CreateTunnelIff(t);
      case DeleteAll => DeleteAllIff(t);
      case SwapA => SwapAIff(t);
      case AToTunnel => AToTunnelIff(t);
      case TunnelToA => TunnelToAIff(t);
      case ReplaceTunnel => ReplaceTunnelIff(t);
    }
  }
}
