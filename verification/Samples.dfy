/**
 Inputs at which the code falls short: for each condition under which some result holds, a state and a
 step that do not meet it.
 */
module Samples {
  import opened Common
  import opened Entities
  import opened Ingress
  import opened Cloudflare
  import opened Dns
  import opened Tracking
  import opened Handlers
  import opened Docker
  import opened Runs
  import opened Edits
  import Scan
  import Catalog
  import Failures
  import MixedRuns
  import Text

  // ---- A small published system ----------------------------------------------------------------------------

  const OLD_TARGET := "http://a"
  const NEW_TARGET := "http://b"

  /** A docker service behind the tunnel, its container stopped. */
  function App(e: Env): Service {
    Service("1", "App", "app", OLD_TARGET, "", "", 1, SOURCE_DOCKER, "", "app", "ra", e.Host("app"), false, false, 0)
  }

  /** A service entered by hand, published by an A record. */
  function Files(): Service {
    Service("2", "Files", "files", "http://10.0.0.9", "", "", 2, SOURCE_MANUAL, "", "", "rb", "", false, false, 0)
  }

  function Zone(e: Env, a: Account): Outside {
    Outside(map[], [], a.Endpoint())
  }

  ghost function Settled(e: Env, u: Text.Unicode): Setting {
    Setting(e, u, ALL_WELL)
  }

  function Small(e: Env, a: Account, shelves: Catalog.Shelves): Sys {
    Sys(map["app" := App(e), "files" := Files()], shelves,
        Remote(map["ra" := Record(CNAME, e.Host("app"), a.Endpoint()), "rb" := Record(A, e.Host("files"), e.serverIP)],
               [Rule(e.Host("app"), OLD_TARGET), Rule("", "http_status:404")], 0))
  }

  lemma SmallGood(e: Env, u: Text.Unicode, a: Account, shelves: Catalog.Shelves)
    requires e.serverIP != ""
    ensures Good(Settled(e, u), Zone(e, a), Small(e, a, shelves))
  {
    hide RecordsTracked, IngressTracked, DistinctRecords, Coherent, Catalog.Unique, KeysFormed, Published, FreshIds;
    SmallFresh(Small(e, a, shelves).remote);
    SmallRules(e, u, a, shelves);
    SmallRecords(e, a, shelves);
    SmallServices(e, a, shelves);
    Catalog.UniqueIDs(Small(e, a, shelves).services);
  }

  lemma SmallRecords(e: Env, a: Account, shelves: Catalog.Shelves)
    ensures var s := Small(e, a, shelves);
      && RecordsTracked(e, Zone(e, a), s.services, s.remote) && DistinctRecords(s.services)
      && (forall k | k in s.services :: Coherent(e, Zone(e, a), k, s.services[k]))
      && "" !in s.remote.records
  {
    hide RecordsTracked, NoOrphans;
    SmallTracked(e, a, shelves);
  }

  lemma SmallTracked(e: Env, a: Account, shelves: Catalog.Shelves)
    ensures RecordsTracked(e, Zone(e, a), Small(e, a, shelves).services, Small(e, a, shelves).remote)
  {
    var s := Small(e, a, shelves);
    assert Holder(s.services, "app", "ra") && Holder(s.services, "files", "rb");
    assert Holds(e, Zone(e, a), App(e), s.remote) && Holds(e, Zone(e, a), Files(), s.remote);
  }

  lemma SmallServices(e: Env, a: Account, shelves: Catalog.Shelves)
    requires e.serverIP != ""
    ensures var s := Small(e, a, shelves);
      Catalog.Unique(s.services) && KeysFormed(s.services) && Published(e, s.services)
  {
    hide Catalog.Unique;
    assert KeyFormed("app", App(e)) && KeyFormed("files", Files());
    SmallUnique(e, a, shelves);
  }

  lemma SmallUnique(e: Env, a: Account, shelves: Catalog.Shelves)
    ensures Catalog.Unique(Small(e, a, shelves).services)
  {
    assert Catalog.Distinct(App(e), Files()) && Catalog.Distinct(Files(), App(e));
    assert Catalog.Plain(App(e)) && Catalog.Plain(Files());
  }

  lemma SmallRules(e: Env, u: Text.Unicode, a: Account, shelves: Catalog.Shelves)
    ensures IngressTracked(e, Zone(e, a), Small(e, a, shelves).services, Small(e, a, shelves).remote)
  {
    var s, o := Small(e, a, shelves), Zone(e, a);
    forall q | q != ""
      ensures forall k | Routes(e, s.services, k, q) :: Only(s.remote.ingress, q) == [Rule(q, s.services[k].target)]
      ensures (forall k :: !Routes(e, s.services, k, q)) ==> Only(s.remote.ingress, q) == Only(o.ingress, q)
    {
      TwoRules(e.Host("app"), OLD_TARGET, q);
      assert Routes(e, s.services, "app", q) <==> q == e.Host("app");
    }
  }

  lemma TwoRules(host: string, target: string, q: string)
    requires q != ""
    ensures Only([Rule(host, target), Rule("", "http_status:404")], q) == if q == host then [Rule(q, target)] else []
  {
    var rest := [Rule("", "http_status:404")];
    assert rest[1..] == [] && ([Rule(host, target)] + rest)[1..] == rest;
    assert Only(rest, q) == [];
    assert [Rule(host, target)] + rest == [Rule(host, target), Rule("", "http_status:404")];
  }

  lemma SmallFresh(r: Remote)
    requires r.records.Keys == {"ra", "rb"}
    ensures FreshIds(ALL_WELL, r)
  {
    AllWell(r.(records := map[]));
    forall n: nat ensures ALL_WELL.newId(n) !in {"ra", "rb"} {
      assert ALL_WELL.newId(n)[1] == Text.Digits(n)[0];
    }
  }

  // ---- Services -------------------------------------------------------------------------------------------

  /** Renaming "files" to "app" is an edit onto a taken subdomain, and orphans the record of "app". */
  lemma TakenSubdomain(e: Env, u: Text.Unicode, a: Account, shelves: Catalog.Shelves)
    requires Text.Sane(u) && e.serverIP != "" && a.Valid() && a.TunnelEnabled()
    ensures var g, o, s := Settled(e, u), Zone(e, a), Small(e, a, shelves);
      var edit := UpdateRequest("", "app", "", "", None, None, None, None);
      && Good(g, o, s) && !KeyFree(g, s, "2", edit)
      && !Tracked(e, o, Update(g, a, s, "2", edit).0.services, Update(g, a, s, "2", edit).0.remote)
  {
    var g, o, s := Settled(e, u), Zone(e, a), Small(e, a, shelves);
    var edit := UpdateRequest("", "app", "", "", None, None, None, None);
    hide Good, Tracked, FreshIds, Text.Sanitised, Catalog.Unique, Published, KeysFormed, Update;
    SmallGood(e, u, a, shelves);
    AllWell(s.remote.(records := map[]));
    Text.SanitisedFixesLabels(u, "app");
    SmallServices(e, a, shelves);
    Catalog.UniqueIDs(s.services);
    Catalog.KeyByID(s.services, "files");
    OverwriteTrackedIff(g, a, o, s, "files", edit, "app");
  }

  /** With tunnels switched off, deleting "app" leaves its record behind. */
  lemma SwitchedOff(e: Env, u: Text.Unicode, a: Account, shelves: Catalog.Shelves, newID: string, now: int)
    requires e.serverIP != "" && a.Valid() && !a.TunnelEnabled()
    ensures var g, o, s := Settled(e, u), Zone(e, a), Small(e, a, shelves);
      var s' := Handlers.Delete(g, a, s, "1", newID, now).0;
      && Good(g, o, s) && Leaks(a, StateOf(App(e)), UNPUBLISHED)
      && !Tracked(e, o, s'.services, s'.remote)
  {
    hide Tracked, Reconcile, Withdraw, Catalog.Unique, FreshIds, Published, KeysFormed;
    var g, o, s := Settled(e, u), Zone(e, a), Small(e, a, shelves);
    SmallGood(e, u, a, shelves);
    AllWell(s.remote.(records := map[]));
    SmallServices(e, a, shelves);
    Catalog.KeyByID(s.services, "app");
    var rest := s.services - {"app"};
    WithdrawIsReconcile(g, a, s.remote, App(e));
    assert With(rest, Some(App(e))) == s.services && With(rest, None) == rest;
    ChangeTracked(e, o, g.world, a, s.remote, rest, Some(App(e)), None, UNPUBLISHED);
  }

  const UNCHANGED := UpdateRequest("", "app", "", "", None, None, None, None)

  /** Saving "app" again, when its rule still leads to its old address, sends nothing. */
  lemma SavedAgain(e: Env, u: Text.Unicode, a: Account, shelves: Catalog.Shelves)
    requires Text.Sane(u) && e.serverIP != "" && a.Valid() && a.TunnelEnabled()
    ensures var g, o, s := Settled(e, u), Zone(e, a), Small(e, a, shelves);
      var t := s.(services := s.services["app" := App(e).(target := NEW_TARGET)]);
      && Stale(g, o, t, "app", OLD_TARGET)
      && Update(g, a, t, "1", UNCHANGED).0.remote == t.remote
      && !Tracked(e, o, Update(g, a, t, "1", UNCHANGED).0.services, t.remote)
  {
    hide Good, Tracked, FreshIds, Text.Sanitised, Reconcile, Stale, Catalog.DistinctIDs, Working;
    var g, o, s := Settled(e, u), Zone(e, a), Small(e, a, shelves);
    var t := s.(services := s.services["app" := App(e).(target := NEW_TARGET)]);
    MovedApp(e, u, a, shelves);
    Text.SanitisedFixesLabels(u, "app");
    Catalog.KeyByID(t.services, "app");
    assert NewKey(g, t.services["app"], UNCHANGED) == "app" && !Changes(g, t.services["app"], UNCHANGED);
    EditRepairsIff(g, a, o, t, "app", OLD_TARGET, UNCHANGED);
  }

  lemma MovedApp(e: Env, u: Text.Unicode, a: Account, shelves: Catalog.Shelves)
    requires e.serverIP != "" && a.Valid() && a.TunnelEnabled()
    ensures var g, o, s := Settled(e, u), Zone(e, a), Small(e, a, shelves);
      var t := s.(services := s.services["app" := App(e).(target := NEW_TARGET)]);
      && Working(g, a, o) && FreshIds(g.world, t.remote) && Stale(g, o, t, "app", OLD_TARGET)
      && Catalog.DistinctIDs(t.services)
  {
    hide Tracked, FreshIds, Published, KeysFormed;
    var s := Small(e, a, shelves);
    var t := s.(services := s.services["app" := App(e).(target := NEW_TARGET)]);
    SmallGood(e, u, a, shelves);
    AllWell(s.remote.(records := map[]));
    HostInjective(e, "app", "app");
    assert t.services["app" := t.services["app"].(target := OLD_TARGET)] == s.services;
  }

  /** An edit of "app" that says nothing of its subdomain renames it. */
  lemma OmittedSubdomain(e: Env, u: Text.Unicode)
    ensures NewKey(Settled(e, u), App(e), UNCHANGED.(subdomain := "")) == "service"
  {
    OmittedSubdomainRenames(Settled(e, u), App(e), UNCHANGED.(subdomain := ""));
  }

  /** A service made from a container whose display name is "app" has the container name of another. */
  lemma SameDisplayName(e: Env, u: Text.Unicode, a: Account, d: Discovered, order: int, now: int)
    requires Text.Sane(u) && e.serverIP != "" && a.Valid() && a.TunnelEnabled()
    requires d.id == "d" && d.source == SOURCE_DOCKER && d.containerName == "app"
    ensures var g, o, s := Settled(e, u), Zone(e, a), Small(e, a, Catalog.Shelves([d], [], {}));
      var q := CreateReq(CreateRequest("d", "", "tool", "", "", false, false, false, NoFile), "3", order, now);
      && Good(g, o, s) && Catalog.Unique(s.services) && Fair(g, a, o, s, q) && MixedRuns.Clashes(g, s, q)
      && Good(g, o, Handle(g, a, s, q)) && !Catalog.Unique(Handle(g, a, s, q).services)
  {
    hide Good, Working, Text.Sanitised, Catalog.Unique, Handle, Fair, MixedRuns.Clashes, Draft;
    var g, o, s := Settled(e, u), Zone(e, a), Small(e, a, Catalog.Shelves([d], [], {}));
    var q := CreateReq(CreateRequest("d", "", "tool", "", "", false, false, false, NoFile), "3", order, now);
    SmallGood(e, u, a, s.shelves);
    SmallServices(e, a, s.shelves);
    NameTaken(e, u, a, d, order, now);
    RequestGood(g, a, o, s, q);
    MixedRuns.RequestUniqueIff(g, a, o, s, q);
  }

  lemma NameTaken(e: Env, u: Text.Unicode, a: Account, d: Discovered, order: int, now: int)
    requires Text.Sane(u) && a.Valid() && a.TunnelEnabled()
    requires d.id == "d" && d.source == SOURCE_DOCKER && d.containerName == "app"
    ensures var g, o, s := Settled(e, u), Zone(e, a), Small(e, a, Catalog.Shelves([d], [], {}));
      var q := CreateReq(CreateRequest("d", "", "tool", "", "", false, false, false, NoFile), "3", order, now);
      Working(g, a, o) && Fair(g, a, o, s, q) && MixedRuns.Clashes(g, s, q)
  {
    hide Text.Sanitised, Text.Itoa, Reconcile;
    var g, s := Settled(e, u), Small(e, a, Catalog.Shelves([d], [], {}));
    var q := CreateReq(CreateRequest("d", "", "tool", "", "", false, false, false, NoFile), "3", order, now);
    AllWell(s.remote.(records := map[]));
    Text.SanitisedFixesLabels(u, "tool");
    var draft := DraftIn(g, s, q.req, q.id, order, now).0;
    assert draft.Some? && draft.value.containerName == "app" && draft.value.subdomain == "tool";
    assert "app" in s.services - {"tool"} && !Catalog.Distinct(s.services["app"], draft.value);
  }

  // ---- Requests that fail -----------------------------------------------------------------------------------

  ghost function Refusing(i: nat): World {
    ALL_WELL.(outcome := (n: nat) => if n == i then Refused else Done)
  }

  /** Moving "app" to "tool", when the fourth request fails, leaves it with the ID of a deleted record. */
  lemma LostAlias(e: Env, a: Account, shelves: Catalog.Shelves)
    requires a.Valid() && a.TunnelEnabled()
    ensures var s := Small(e, a, shelves);
      var r := Reconcile(e, Refusing(3), a, s.remote, StateOf(App(e)), StateOf(App(e)).(subdomain := "tool"));
      r.dnsID == "ra" && r.dnsID !in r.remote.records
  {
    var s := Small(e, a, shelves);
    SmallFresh(s.remote);
    HostInjective(e, "app", "app");
    hide Reconcile;
    var want := StateOf(App(e)).(subdomain := "tool");
    ReplaceDanglesIff(e, Refusing(3), a, s.remote, StateOf(App(e)), want);
    OldIDBack(e, a, s.remote, StateOf(App(e)), want);
  }

  lemma OldIDBack(e: Env, a: Account, r: Remote, was: DnsState, want: DnsState)
    requires PlanDNS(was, want) == ReplaceTunnel && r.calls == 0 && a.Valid() && a.TunnelEnabled()
    requires was.dnsRecordID != ""
    ensures Reconcile(e, Refusing(3), a, r, was, want).dnsID == was.dnsRecordID
  {
  }

  /** Deleting "files", when the request is refused, leaves its record behind. */
  lemma RefusedDelete(e: Env, u: Text.Unicode, a: Account, shelves: Catalog.Shelves)
    requires e.serverIP != "" && a.Valid() && a.TunnelEnabled()
    ensures var s := Small(e, a, shelves);
      var t := Failures.Try(e, Zone(e, a), Refusing(0), a, s.remote, s.services - {"files"}, Some(Files()), None,
                            UNPUBLISHED);
      t.Started() && !t.Settled()
  {
    hide Tracked, Reconcile, Published, KeysFormed;
    var s := Small(e, a, shelves);
    var t := Failures.Try(e, Zone(e, a), Refusing(0), a, s.remote, s.services - {"files"}, Some(Files()), None,
                          UNPUBLISHED);
    SmallGood(e, u, a, shelves);
    AllWell(s.remote.(records := map[]));
    assert With(t.rest, t.was) == s.services;
    NotSurvived(t);
    Failures.FailureTrackedIff(t);
  }

  lemma NotSurvived(t: Failures.Try)
    requires t.was == Some(Files()) && t.want == UNPUBLISHED && t.w == Refusing(0) && t.r.calls == 0
    ensures !Failures.Survives(t)
  {
  }

  // ---- Containers, scans and the discovered list ------------------------------------------------------------

  /** "app" starts again at a new address: its rule goes stale. */
  lemma MovedContainer(e: Env, u: Text.Unicode, a: Account, shelves: Catalog.Shelves, newID: string, now: int)
    requires e.serverIP != ""
    ensures var g, o, s := Settled(e, u), Zone(e, a), Small(e, a, shelves);
      var c := Container("c1", "app", [], map[LABEL_URL := NEW_TARGET]);
      var s' := Happen(g, s, Start(c, Seen("", 0, "http"), newID, now));
      && Good(g, o, s) && Moves(g, s, Start(c, Seen("", 0, "http"), newID, now))
      && !Good(g, o, s')
  {
    var g, o, s := Settled(e, u), Zone(e, a), Small(e, a, shelves);
    var c := Container("c1", "app", [], map[LABEL_URL := NEW_TARGET]);
    var event := Start(c, Seen("", 0, "http"), newID, now);
    hide Good, PreserveScheme, Text.Sanitised, Catalog.Unique, Happen;
    SmallGood(e, u, a, shelves);
    SmallServices(e, a, shelves);
    Catalog.KeyWhereUnique(s.services, "app");
    NewTarget();
    assert Watched(c) && Resolve(g, c, event.seen).value.target == NEW_TARGET;
    assert Takes(g, s, event) == Some("app");
    MixedRuns.EventGoodIff(g, o, s, event);
  }

  lemma NewTarget()
    ensures PreserveScheme(OLD_TARGET, NEW_TARGET) == NEW_TARGET
  {
    SchemeAt(OLD_TARGET, 4);
    SchemeAt(NEW_TARGET, 4);
  }

  lemma SchemeAt(s: string, i: nat)
    requires Text.SepAt(s, i) && forall j | 0 <= j < i :: s[j] != ':'
    ensures Text.SchemeEnd(s) == Some(i)
  {
    forall j | 0 <= j < i ensures !Text.SepAt(s, j) {
      assert j + 3 <= |s| ==> s[j..j + 3][0] == s[j];
    }
  }

  /** A container called "app" with the display name "App": its service, put at "tool", is not found again. */
  lemma RenamedContainer(e: Env, target: string)
    ensures var svc := App(e).(subdomain := "tool", containerName := "App"); var s := map["tool" := svc];
      && Catalog.Unique(s) && Home(s, "app", "app").None?
  {
  }

  /** An https backend on port 80: the service made from it is reached by http. */
  lemma GuessedScheme(c: Container, ip: string, newID: string, now: int)
    requires !("https://" <= ip + ":" + Text.Itoa(80))
    ensures var info := Info(c.name, c.name, TargetFor("https", ip, 80));
      TargetOf(Candidate(c, info, newID, now)) != info.target
  {
    MadeTargetIff(c, Info(c.name, c.name, TargetFor("https", ip, 80)), newID, now, "https", ip, 80);
  }

  /** A deleted container is on the list; a second one is dropped. */
  lemma SecondDeleted(e: Env, u: Text.Unicode, a: Account, d: Discovered, newID: string, now: int)
    requires Catalog.SameEndpoint(d, "", 0) && d.containerID != "c1"
    ensures var svc := App(e).(containerID := "c1");
      var s := Sys(map["app" := svc], Catalog.Shelves([d], [], {}), Remote(map[], [], 0));
      && Catalog.Unique(s.services)
      && !Listed(Handlers.Delete(Settled(e, u), a, s, "1", newID, now).0.shelves.discovered, "c1")
  {
    var svc := App(e).(containerID := "c1");
    var s := Sys(map["app" := svc], Catalog.Shelves([d], [], {}), Remote(map[], [], 0));
    Catalog.KeyWhereUnique(s.services, "app");
    assert Catalog.SameEndpoint(s.shelves.discovered[0], "", 0);
    DeletedIsListedIff(Settled(e, u), a, s, svc, newID, now);
  }

  /** A light scan shows what was found at an ignored endpoint; a full scan does not. */
  lemma IgnoredComesBack(f: Scan.Found, ig: Ignored)
    requires ig.ip == f.r.ip && ig.port == f.r.port
    ensures Scan.Shows(Scan.Upserted([], Scan.Accepted(map[], [], [f])), ig.ip, ig.port)
    ensures !Scan.Shows(Scan.FullScan([], Scan.Accepted(map[], [ig], [f])), ig.ip, ig.port)
  {
    Scan.LightScanResult(map[], [], [f], ig.ip, ig.port);
    assert f in [f] && f.At(ig.ip, ig.port);
    assert ig in [ig];
    assert Scan.Accepted(map[], [ig], [f]) == [] && [f][..0] == [];
  }

  /** A result whose URL ends in a slash is not assigned by a target with one more. */
  lemma SlashedUrl(e: Env, title: string)
    ensures var r := Scan.ProbeResult("http://app/", "10.0.0.5", 80, title, "", "", 0);
      !Scan.Assigned(map["app" := App(e).(target := "http://app//")], r)
  {
    hide Text.Itoa;
    var r := Scan.ProbeResult("http://app/", "10.0.0.5", 80, title, "", "", 0);
    var services := map["app" := App(e).(target := "http://app//")];
    Scan.AssignedIff(services, r);
    assert ("http://" + Scan.Endpoint(r))[7] == '1' && ("https://" + Scan.Endpoint(r))[4] == 's';
    assert ("http://app//")[7] == 'a' && ("http://app//")[4] == ':';
  }

  /** Two entries for one endpoint are ignored; un-ignoring the first makes the second be forgotten. */
  lemma ForgottenIgnored(ip: string, port: int)
    ensures var igs := [Ignored("1", ip, port, "", 0), Ignored("2", ip, port, "", 0)];
      var s := Catalog.Shelves([], igs, {Text.Key(ip, port)});
      && Catalog.Orderly(s) && Catalog.KeysExact(s) && Catalog.DropsSharedKey(Catalog.UnignoreOp("1"), s)
      && (exists ig :: ig in Catalog.Unignore(s, "1").ignored && ig.ip == ip && ig.port == port)
      && !Catalog.IsIgnored(Catalog.Unignore(s, "1"), ip, port)
  {
    var one, two := Ignored("1", ip, port, "", 0), Ignored("2", ip, port, "", 0);
    var s := Catalog.Shelves([], [one, two], {Text.Key(ip, port)});
    assert Catalog.KeyHeld(s.ignored, one, Text.Key(ip, port));
    assert one in s.ignored && two in s.ignored;
    Catalog.FilterMembers(s.ignored, Catalog.NotIgnoredID("1"));
  }
}
