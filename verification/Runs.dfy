/**
 Every run of service requests, with the Cloudflare requests succeeding: Cloudflare always holds
 exactly what was there before plus what the store says.
 */
module Runs {
  import opened Common
  import opened Entities
  import opened Ingress
  import opened Cloudflare
  import opened Dns
  import opened Tracking
  import opened Handlers
  import Catalog
  import Text

  /** The circumstances under which the claims about runs are made: requests succeed, the client is
      configured, tunnels are on, and its tunnel is the one the services use. */
  ghost predicate Working(g: Setting, a: Account, o: Outside) {
    AllDone(g.world) && Lists(g.world) && a.Valid() && a.TunnelEnabled() && a.Endpoint() == o.endpoint
  }

  ghost predicate Good(g: Setting, o: Outside, s: Sys) {
    && Tracked(g.env, o, s.services, s.remote)
    && Published(g.env, s.services)
    && FreshIds(g.world, s.remote)
    && Catalog.DistinctIDs(s.services)
    && KeysFormed(s.services)
  }

  /** What a request must respect: IDs are new, hostnames are not in use outside, and an edit does not move
      a service to a subdomain that is taken. */
  ghost predicate Fair(g: Setting, a: Account, o: Outside, s: Sys, q: Request) {
    match q
    case CreateReq(req, id, order, now) =>
      var draft := DraftIn(g, s, req, id, order, now).0;
      draft.Some? ==>
        && (forall k | k in s.services :: s.services[k].id != id)
        && (!draft.value.directOnly ==> o.Free(g.env.Host(draft.value.subdomain)))
    case UpdateReq(id, edit) =>
      var svc := Catalog.FindWhere(s.services, Catalog.HasID(id));
      svc.Some? && !Revised(g, svc.value, edit).directOnly ==>
        KeyFree(g, s, id, edit) && o.Free(g.env.Host(NewKey(g, svc.value, edit)))
    case DeleteReq(id, newID, now) => true
    case IconReq(id, icon) => true
  }

  ghost predicate FairAll(g: Setting, a: Account, o: Outside, s: Sys, qs: seq<Request>)
    decreases |qs|
  {
    qs == [] || (Fair(g, a, o, s, qs[0]) && FairAll(g, a, o, Handle(g, a, s, qs[0]), qs[1..]))
  }

  /** What is published after one reconciliation, when the client works. */
  lemma ChangePublished(g: Setting, o: Outside, a: Account, r: Remote, rest: map<string, Service>,
                        was: Option<Service>, nu: Option<Service>, want: DnsState)
    requires Working(g, a, o) && Change(g.env, o, g.world, a, r, rest, was, nu, want)
    requires Published(g.env, With(rest, was))
    ensures Published(g.env, With(rest, nu))
  {
    WasPublished(g.env, rest, was);
    hide Tracked, Ready, Published;
    ChangeReady(g.env, o, g.world, a, r, rest, was, nu, want);
    PublishedAs(g, o, a, r, was, want);
    WantPublished(g, o, rest, was, nu, Reconcile(g.env, g.world, a, r, StateOfOption(was), want), want);
  }

  /** What a change publishes for its own service. */
  ghost predicate PublishedRight(e: Env, dnsID: string, routeID: string) {
    dnsID != "" <==> routeID != "" || e.serverIP != ""
  }

  lemma WasPublished(e: Env, rest: map<string, Service>, was: Option<Service>)
    requires Published(e, With(rest, was))
    ensures was.Some? && !was.value.directOnly ==> PublishedRight(e, was.value.dnsRecordID, was.value.tunnelRouteID)
  {
    if was.Some? {
      assert With(rest, was)[was.value.subdomain] == was.value;
    }
  }

  lemma PublishedAs(g: Setting, o: Outside, a: Account, r: Remote, was: Option<Service>, want: DnsState)
    requires Working(g, a, o) && Ready(g.env, g.world, a, r, StateOfOption(was), want)
    requires was.Some? && !was.value.directOnly ==>
               PublishedRight(g.env, was.value.dnsRecordID, was.value.tunnelRouteID)
    ensures var s := Reconcile(g.env, g.world, a, r, StateOfOption(was), want);
      !want.directOnly ==> PublishedRight(g.env, s.dnsID, s.routeID)
  {
    if PlanDNS(StateOfOption(was), want) != Noop {
      hide Reconcile, Rerouted, Leaks;
      AbleToTakeDown(a, StateOfOption(was), want);
      ReconcileEffect(g.env, g.world, a, r, StateOfOption(was), want);
    } else {
      hide Ready;
    }
  }

  lemma WantPublished(g: Setting, o: Outside, rest: map<string, Service>, was: Option<Service>, nu: Option<Service>,
                      s: Reconciled, want: DnsState)
    requires (was.Some? ==> was.value.subdomain !in rest) && Published(g.env, With(rest, was))
    requires Becomes(s, want, nu) && (!want.directOnly ==> PublishedRight(g.env, s.dnsID, s.routeID))
    ensures Published(g.env, With(rest, nu))
  {
    var all := With(rest, was);
    forall k | k in rest ensures k in all && all[k] == rest[k] {
    }
  }

  lemma CreateGood(g: Setting, a: Account, o: Outside, s: Sys, req: CreateRequest, id: string, order: int, now: int)
    requires Working(g, a, o) && Good(g, o, s) && Fair(g, a, o, s, CreateReq(req, id, order, now))
    ensures Good(g, o, Create(g, a, s, req, id, order, now).0)
  {
    hide Tracked, Published, FreshIds, KeysFormed, Reconcile, DraftIn, Leaks;
    var s' := Create(g, a, s, req, id, order, now).0;
    var draft := DraftIn(g, s, req, id, order, now).0;
    KeysFormedStep(g, a, s, CreateReq(req, id, order, now));
    if draft.Some? {
      var want := CreateWant(draft.value, req.tunnel);
      var r := Reconcile(g.env, g.world, a, s.remote, UNPUBLISHED, want);
      var svc := WithRecord(draft.value, r);
      DraftKeyFree(g, s, req, id, order, now);
      AbleToTakeDown(a, UNPUBLISHED, want);
      assert With(s.services, None) == s.services && With(s.services, Some(svc)) == s'.services;
      ChangeTracked(g.env, o, g.world, a, s.remote, s.services, None, Some(svc), want);
      ChangePublished(g, o, a, s.remote, s.services, None, Some(svc), want);
    }
  }

  lemma AbleToTakeDown(a: Account, was: DnsState, want: DnsState)
    requires a.TunnelEnabled()
    ensures !Leaks(a, was, want)
  {
  }

  lemma DraftKeyFree(g: Setting, s: Sys, req: CreateRequest, id: string, order: int, now: int)
    requires KeysFormed(s.services) && forall k | k in s.services :: s.services[k].id != id
    requires DraftIn(g, s, req, id, order, now).0.Some?
    ensures var svc := DraftIn(g, s, req, id, order, now).0.value; svc.id == id && svc.subdomain !in s.services
  {
    hide Text.Sanitised;
    var svc := DraftIn(g, s, req, id, order, now).0.value;
    if svc.directOnly && svc.subdomain in s.services {
      DirectKeyIsOwn(g, s, svc.subdomain, id);
    }
  }

  /** Only the service with an ID can be keyed by the direct prefix and that ID. */
  lemma DirectKeyIsOwn(g: Setting, s: Sys, k: string, id: string)
    requires KeysFormed(s.services) && k in s.services && k == DIRECT_PREFIX + id
    ensures s.services[k].id == id
  {
    assert KeyFormed(k, s.services[k]);
    if !s.services[k].directOnly {
      LabelsAreNotDirect(k, id);
    } else {
      assert k[|DIRECT_PREFIX|..] == id && k[|DIRECT_PREFIX|..] == s.services[k].id;
    }
  }

  lemma DirectKeyAt(g: Setting, s: Sys, k: string, l: string)
    requires KeysFormed(s.services) && Catalog.DistinctIDs(s.services) && k in s.services && l in s.services
    requires l == DIRECT_PREFIX + s.services[k].id
    ensures l == k
  {
    DirectKeyIsOwn(g, s, l, s.services[k].id);
  }

  /** A fair edit is a change of one service. */
  lemma UpdateChange(g: Setting, a: Account, o: Outside, s: Sys, k: string, edit: UpdateRequest)
    requires Working(g, a, o) && Good(g, o, s) && k in s.services
    requires Fair(g, a, o, s, UpdateReq(s.services[k].id, edit))
    ensures var svc := s.services[k]; var want := UpdateWant(g, svc, edit);
      var r := Reconcile(g.env, g.world, a, s.remote, StateOf(svc), want);
      var nu := WithRecord(Revised(g, svc, edit), r);
      && Change(g.env, o, g.world, a, s.remote, s.services - {k}, Some(svc), Some(nu), want)
      && Update(g, a, s, svc.id, edit).0 == s.(services := With(s.services - {k}, Some(nu)), remote := r.remote)
  {
    hide Tracked, Published, FreshIds, KeysFormed, Reconcile;
    var svc := s.services[k];
    OneOf(g, o, s, k);
    if DirectAfter(svc, edit) && !svc.directOnly && DIRECT_PREFIX + svc.id in s.services {
      DirectKeyAt(g, s, k, DIRECT_PREFIX + svc.id);
    }
  }

  lemma UpdateGood(g: Setting, a: Account, o: Outside, s: Sys, id: string, edit: UpdateRequest)
    requires Working(g, a, o) && Good(g, o, s) && Fair(g, a, o, s, UpdateReq(id, edit))
    ensures Good(g, o, Update(g, a, s, id, edit).0)
  {
    hide Tracked, Published, FreshIds, KeysFormed, Reconcile, Leaks, Attempt, Fair;
    KeysFormedStep(g, a, s, UpdateReq(id, edit));
    var found := Catalog.KeyWhere(s.services, Catalog.HasID(id));
    if found.Some? {
      var k := found.value;
      var svc := s.services[k];
      var want := UpdateWant(g, svc, edit);
      var r := Reconcile(g.env, g.world, a, s.remote, StateOf(svc), want);
      var nu := WithRecord(Revised(g, svc, edit), r);
      var rest := s.services - {k};
      OneOf(g, o, s, k);
      UpdateChange(g, a, o, s, k, edit);
      AbleToTakeDown(a, StateOf(svc), want);
      ChangeTracked(g.env, o, g.world, a, s.remote, rest, Some(svc), Some(nu), want);
      ChangePublished(g, o, a, s.remote, rest, Some(svc), Some(nu), want);
    }
  }

  /** Deleting a service takes down what reconciling it to direct mode would. */
  lemma WithdrawIsReconcile(g: Setting, a: Account, r: Remote, svc: Service)
    requires svc.directOnly ==> svc.dnsRecordID == "" && svc.tunnelRouteID == ""
    ensures Reconcile(g.env, g.world, a, r, StateOf(svc), UNPUBLISHED) ==
            Reconciled(Withdraw(g.world, a, r, svc.tunnelRouteID, svc.dnsRecordID), "", "")
  {
  }

  /** What is known of one service in a good state. */
  lemma OneOf(g: Setting, o: Outside, s: Sys, k: string)
    requires Good(g, o, s) && k in s.services
    ensures var svc := s.services[k];
      && svc.subdomain == k && With(s.services - {k}, Some(svc)) == s.services
      && (svc.directOnly ==> svc.dnsRecordID == "" && svc.tunnelRouteID == "")
      && Catalog.KeyWhere(s.services, Catalog.HasID(svc.id)) == Some(k)
  {
    assert Coherent(g.env, o, k, s.services[k]);
    Catalog.KeyByID(s.services, k);
  }

  lemma DeleteGood(g: Setting, a: Account, o: Outside, s: Sys, id: string, newID: string, now: int)
    requires Working(g, a, o) && Good(g, o, s)
    ensures Good(g, o, Handlers.Delete(g, a, s, id, newID, now).0)
  {
    hide Reconcile, Withdraw, Tracked, Published, KeysFormed, FreshIds, Catalog.Step, Leaks;
    KeysFormedStep(g, a, s, DeleteReq(id, newID, now));
    var found := Catalog.KeyWhere(s.services, Catalog.HasID(id));
    if found.Some? {
      var k := found.value;
      OneOf(g, o, s, k);
      DeleteTracked(g, a, o, s, k);
    }
  }

  lemma DeleteTracked(g: Setting, a: Account, o: Outside, s: Sys, k: string)
    requires Working(g, a, o) && Good(g, o, s) && k in s.services
    ensures var svc := s.services[k]; var r := Withdraw(g.world, a, s.remote, svc.tunnelRouteID, svc.dnsRecordID);
      Tracked(g.env, o, s.services - {k}, r) && FreshIds(g.world, r) && Published(g.env, s.services - {k})
  {
    hide Reconcile, Withdraw, Tracked, Published, KeysFormed, FreshIds;
    var svc, rest := s.services[k], s.services - {k};
    OneOf(g, o, s, k);
    WithdrawIsReconcile(g, a, s.remote, svc);
    ChangeTracked(g.env, o, g.world, a, s.remote, rest, Some(svc), None, UNPUBLISHED);
    ChangePublished(g, o, a, s.remote, rest, Some(svc), None, UNPUBLISHED);
    assert With(rest, None) == rest;
  }

  lemma IconGood(g: Setting, a: Account, o: Outside, s: Sys, id: string, icon: string)
    requires Good(g, o, s)
    ensures Good(g, o, SetIcon(s, id, icon))
  {
    hide Tracked, Published, KeysFormed, FreshIds;
    KeysFormedStep(g, a, s, IconReq(id, icon));
    var found := Catalog.KeyWhere(s.services, Catalog.HasID(id));
    if found.Some? {
      var k := found.value;
      var svc := s.services[k];
      var nu, rest := svc.(icon := icon), s.services - {k};
      OneOf(g, o, s, k);
      IconTracked(g.env, o, rest, svc, nu, s.remote);
      IconPublished(g.env, rest, svc, nu);
      assert With(rest, Some(nu)) == SetIcon(s, id, icon).services;
    }
  }

  lemma IconPublished(e: Env, rest: map<string, Service>, svc: Service, nu: Service)
    requires Published(e, With(rest, Some(svc))) && svc.subdomain !in rest && nu == svc.(icon := nu.icon)
    ensures Published(e, With(rest, Some(nu)))
  {
    var all := With(rest, Some(svc));
    assert svc.subdomain in all && forall k | k in rest :: k in all && all[k] == rest[k];
  }

  lemma IconTracked(e: Env, o: Outside, rest: map<string, Service>, svc: Service, nu: Service, r: Remote)
    requires Tracked(e, o, With(rest, Some(svc)), r) && svc.subdomain !in rest && nu == svc.(icon := nu.icon)
    ensures Tracked(e, o, With(rest, Some(nu)), r)
  {
    var all, all' := With(rest, Some(svc)), With(rest, Some(nu));
    forall k | k in all'
      ensures k in all && Coherent(e, o, k, all'[k]) && Holds(e, o, all'[k], r)
      ensures all'[k].dnsRecordID == all[k].dnsRecordID
    {
      assert Coherent(e, o, k, all[k]) && Holds(e, o, all[k], r);
    }
    forall i | i in r.records && i !in o.records ensures exists k :: Holder(all', k, i) {
      var k :| Holder(all, k, i);
      assert Holder(all', k, i);
    }
    SameRoutesTracked(e, o, all, all', r);
  }

  lemma RequestGood(g: Setting, a: Account, o: Outside, s: Sys, q: Request)
    requires Working(g, a, o) && Good(g, o, s) && Fair(g, a, o, s, q)
    ensures Good(g, o, Handle(g, a, s, q))
  {
    hide Good, Working, Fair;
    match q {
      case CreateReq(req, id, order, now) => CreateGood(g, a, o, s, req, id, order, now);
      case UpdateReq(id, edit) => UpdateGood(g, a, o, s, id, edit);
      case DeleteReq(id, newID, now) => DeleteGood(g, a, o, s, id, newID, now);
      case IconReq(id, icon) => IconGood(g, a, o, s, id, icon);
    }
  }

  /** Every run of fair requests, of any length and in any order, keeps Cloudflare exactly what was
      there before plus what the store says, with everything asked for published. */
  lemma {:induction false} RunStaysGood(g: Setting, a: Account, o: Outside, s: Sys, qs: seq<Request>)
    requires Working(g, a, o) && Good(g, o, s) && FairAll(g, a, o, s, qs)
    ensures Good(g, o, HandleAll(g, a, s, qs))
    decreases |qs|
  {
    hide Good, Working, Handle, Fair;
    if qs != [] {
      RequestGood(g, a, o, s, qs[0]);
      RunStaysGood(g, a, o, Handle(g, a, s, qs[0]), qs[1..]);
    }
  }

  /** An empty store is good over any remote state: all of it is outside. */
  lemma EmptyIsGood(g: Setting, shelves: Catalog.Shelves, r: Remote, endpoint: string)
    requires FreshIds(g.world, r) && "" !in r.records
    ensures Good(g, Outside(r.records, r.ingress, endpoint), Sys(map[], shelves, r))
  {
  }

  /** Two runs from the same start that leave the services configured alike, by whatever requests and mode
      changes, leave hostnames answering alike and equal records; and under equal IDs if the services have
      the same. */
  lemma PathsAgree(g: Setting, a: Account, o: Outside, s: Sys, qs: seq<Request>, qs': seq<Request>)
    requires Working(g, a, o) && Good(g, o, s) && FairAll(g, a, o, s, qs) && FairAll(g, a, o, s, qs')
    requires SameConfig(HandleAll(g, a, s, qs).services, HandleAll(g, a, s, qs').services)
    ensures var t, t' := HandleAll(g, a, s, qs), HandleAll(g, a, s, qs');
      && (forall h | h != "" :: Lookup(t.remote.ingress, h) == Lookup(t'.remote.ingress, h))
      && SameRecords(t.services, t'.services, t.remote, t'.remote)
      && Mirrored(o, t.remote, t'.remote) && Mirrored(o, t'.remote, t.remote)
      && (t.services == t'.services ==> t.remote.records == t'.remote.records)
  {
    RunStaysGood(g, a, o, s, qs);
    RunStaysGood(g, a, o, s, qs');
    GoodAgree(g, o, HandleAll(g, a, s, qs), HandleAll(g, a, s, qs'));
  }

  lemma GoodAgree(g: Setting, o: Outside, t: Sys, t': Sys)
    requires Good(g, o, t) && Good(g, o, t') && SameConfig(t.services, t'.services)
    ensures forall h | h != "" :: Lookup(t.remote.ingress, h) == Lookup(t'.remote.ingress, h)
    ensures SameRecords(t.services, t'.services, t.remote, t'.remote)
    ensures Mirrored(o, t.remote, t'.remote) && Mirrored(o, t'.remote, t.remote)
    ensures t.services == t'.services ==> t.remote.records == t'.remote.records
  {
    hide Tracked, Published, SameConfig, SameRecords, Mirrored;
    ConfigDetermines(g.env, o, t.services, t'.services, t.remote, t'.remote);
    if t.services == t'.services {
      TrackedDetermines(g.env, o, t.services, t.remote, t'.remote);
    }
  }

  /** After any run, each hostname is published as the service's current mode and target say: one rule to
      the target behind a CNAME, or one A record to the server's address, or, for a subdomain no service
      has, what was there before. */
  lemma RunPublishes(g: Setting, a: Account, o: Outside, s: Sys, qs: seq<Request>, k: string)
    requires Working(g, a, o) && Good(g, o, s) && FairAll(g, a, o, s, qs)
    ensures var s' := HandleAll(g, a, s, qs); var host := g.env.Host(k); var r := s'.remote;
      if k in s'.services && !s'.services[k].directOnly then
        var svc := s'.services[k];
        && Lookup(r.ingress, host) == (if svc.tunnelRouteID != "" then Some(svc.target) else None)
        && (forall i | i in r.records && r.records[i].name == host ::
              i == svc.dnsRecordID && r.records[i] == RecordOf(g.env, o.endpoint, svc))
        && ((exists i | i in r.records :: r.records[i].name == host) <==>
              svc.tunnelRouteID != "" || g.env.serverIP != "")
      else
        && Lookup(r.ingress, host) == Lookup(o.ingress, host)
        && (forall i | i in r.records && r.records[i].name == host :: i in o.records && o.records[i] == r.records[i])
  {
    RunStaysGood(g, a, o, s, qs);
    var s' := HandleAll(g, a, s, qs);
    if k in s'.services && !s'.services[k].directOnly {
      PublishedByHost(g.env, o, s'.services, s'.remote, k);
    } else {
      NothingPublished(g.env, o, s'.services, s'.remote, k);
    }
  }

  lemma NothingPublished(e: Env, o: Outside, services: map<string, Service>, r: Remote, k: string)
    requires Tracked(e, o, services, r) && (k in services ==> services[k].directOnly)
    ensures Lookup(r.ingress, e.Host(k)) == Lookup(o.ingress, e.Host(k))
    ensures forall i | i in r.records && r.records[i].name == e.Host(k) ::
              i in o.records && o.records[i] == r.records[i]
  {
    var host := e.Host(k);
    HostInjective(e, k, k);
    forall l ensures !Routes(e, services, l, host) {
      HostInjective(e, l, k);
      if l in services {
        assert Coherent(e, o, l, services[l]);
      }
    }
    LookupOnly(r.ingress, host);
    LookupOnly(o.ingress, host);
    forall i | i in r.records && r.records[i].name == host ensures i in o.records {
      if i !in o.records {
        var l :| Holder(services, l, i);
        assert Holds(e, o, services[l], r) && Coherent(e, o, l, services[l]);
        HostInjective(e, l, k);
      }
    }
  }

  // ---- The circumstances can be met ---------------------------------------------------------------------

  ghost const ALL_WELL := World((n: nat) => Done, (n: nat) => "r" + Text.Digits(n),
                                (n: nat, s: set<string>) => if s == {} then "" else var x :| x in s; x)

  lemma AllWell(r: Remote)
    requires r.records == map[]
    ensures AllDone(ALL_WELL) && Lists(ALL_WELL) && FreshIds(ALL_WELL, r)
  {
    forall m: nat, n: nat | m < n ensures ALL_WELL.newId(m) != ALL_WELL.newId(n) {
      Text.DigitsInjective(m, n);
      assert ALL_WELL.newId(m)[1..] == Text.Digits(m) && ALL_WELL.newId(n)[1..] == Text.Digits(n);
    }
  }

  /** There are settings, starts and fair runs of the kind the claims above are about: a first service
      "a", asked for behind the tunnel of an empty account, is published. */
  lemma Feasible(e: Env, u: Text.Unicode, a: Account, id: string, order: int, now: int, target: string)
    requires Text.Sane(u) && a.Valid() && a.TunnelEnabled() && target != ""
    ensures var g := Setting(e, u, ALL_WELL); var o := Outside(map[], [], a.Endpoint());
      var s := Sys(map[], Catalog.Shelves([], [], {}), Remote(map[], [], 0));
      var q := CreateReq(CreateRequest("", "", "a", target, "", true, false, false, NoFile), id, order, now);
      && Working(g, a, o) && Good(g, o, s) && Fair(g, a, o, s, q)
      && Lookup(Handle(g, a, s, q).remote.ingress, e.Host("a")) == Some(target)
  {
    var g, o := Setting(e, u, ALL_WELL), Outside(map[], [], a.Endpoint());
    var s := Sys(map[], Catalog.Shelves([], [], {}), Remote(map[], [], 0));
    var q := CreateReq(CreateRequest("", "", "a", target, "", true, false, false, NoFile), id, order, now);
    AllWell(s.remote);
    EmptyIsGood(g, s.shelves, s.remote, a.Endpoint());
    Text.SanitisedFixesLabels(u, "a");
    assert Text.Sanitised(u, "a") == "a";
    hide Good, Working, Text.Sanitised, Reconcile;
    var want := DnsState("a", target, false, true, "", "");
    var draft := DraftIn(g, s, q.req, id, order, now).0;
    assert draft.Some? && CreateWant(draft.value, true) == want;
    FirstPublished(e, a, s.remote, want);
  }

  lemma FirstPublished(e: Env, a: Account, r: Remote, want: DnsState)
    requires a.Valid() && a.TunnelEnabled() && want.Mode() == Tunnelled && r == Remote(map[], [], 0)
    ensures var r' := Reconcile(e, ALL_WELL, a, r, UNPUBLISHED, want).remote;
      Lookup(r'.ingress, e.Host(want.subdomain)) == Some(want.target)
  {
    var host := e.Host(want.subdomain);
    HostInjective(e, want.subdomain, want.subdomain);
    LookupEdited(AddRoute(host, want.target), [], host);
  }
}
