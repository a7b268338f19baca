/**
 Docker discovery on the store's data (internal/discovery/docker.go): which service a started container
 is attached to, and what container events do to the services and the discovered list.
 */
module Docker {
  import opened Common
  import opened Entities
  import opened Ingress
  import opened Cloudflare
  import opened Dns
  import opened Tracking
  import opened Handlers
  import Catalog
  import Text

  /** A published port; `public` is zero when the container port is not published. */
  datatype Port = Port(proto: string, public: nat)

  datatype Container = Container(id: string, name: string, ports: seq<Port>, labels: map<string, string>) {
    function Label(key: string): string {
      if key in labels then labels[key] else ""
    }
  }

  const LABEL_ENABLE := "lantern.enable"
  const LABEL_NAME := "lantern.name"
  const LABEL_SUBDOMAIN := "lantern.subdomain"
  const LABEL_PORT := "lantern.port"
  const LABEL_SCHEME := "lantern.scheme"
  const LABEL_URL := "lantern.url"

  /** What the parts that are not modelled found out: the subdomain and port in Traefik labels ("" and 0
      if none), and the scheme a probe of the port suggests. */
  datatype Seen = Seen(traefikSubdomain: string, traefikPort: int, scheme: string)

  datatype Info = Info(name: string, subdomain: string, target: string)

  // ---- Port and target helpers ----------------------------------------------------------------------

  const PREFERRED: seq<nat> := [80, 8080, 3000, 5000, 9443, 9000, 8096, 8123, 443, 8443, 8000]

  predicate PublishedTCP(p: Port) {
    p.proto == "tcp" && p.public > 0
  }

  predicate Publishes(ports: seq<Port>, port: nat) {
    exists i | 0 <= i < |ports| :: PublishedTCP(ports[i]) && ports[i].public == port
  }

  function FirstOf(prefs: seq<nat>, ports: seq<Port>): Option<nat> {
    if prefs == [] then None
    else if Publishes(ports, prefs[0]) then Some(prefs[0])
    else FirstOf(prefs[1..], ports)
  }

  function FirstTCP(ports: seq<Port>): nat {
    if ports == [] then 0 else if PublishedTCP(ports[0]) then ports[0].public else FirstTCP(ports[1..])
  }

  /** The first preferred port that is published, otherwise the first published one, otherwise zero. */
  function BestPort(ports: seq<Port>): nat {
    match FirstOf(PREFERRED, ports)
    case Some(port) => port
    case None => FirstTCP(ports)
  }

  /** strings.TrimSuffix and LastIndexByte: the host and port of "scheme://host:port". */
  function SplitTarget(target: string): (string, int) {
    var s := Text.TrimPrefix(Text.TrimPrefix(target, "http://"), "https://");
    var s := if s != "" && s[|s| - 1] == '/' then s[..|s| - 1] else s;
    match Text.LastColonAt(s)
    case None => (s, 0)
    case Some(i) => (s[..i], Text.Atoi(s[i + 1..]))
  }

  function TargetFor(scheme: string, ip: string, port: int): string {
    scheme + Text.SEP + ip + ":" + Text.Itoa(port)
  }

  lemma WithoutScheme(scheme: string, rest: string)
    requires scheme in {"http", "https"} && !("https://" <= rest)
    ensures Text.TrimPrefix(Text.TrimPrefix(scheme + Text.SEP + rest, "http://"), "https://") == rest
  {
    var t := scheme + Text.SEP + rest;
    if scheme == "http" {
      assert scheme + Text.SEP == "http://";
      assert "http://" <= t && t[7..] == rest;
    } else {
      assert scheme + Text.SEP == "https://";
      assert t[4] == 's' && "https://" <= t && t[8..] == rest;
    }
  }

  /** The address and port of a target made for a container come back out of it. */
  lemma SplitTargetBack(scheme: string, ip: string, port: int)
    requires scheme in {"http", "https"} && -Text.MAX_INT - 1 <= port <= Text.MAX_INT
    requires !("https://" <= ip + ":" + Text.Itoa(port))
    ensures SplitTarget(TargetFor(scheme, ip, port)) == (ip, port)
  {
    hide Text.Itoa, Text.Atoi, Text.TrimPrefix, Text.LastColonAt;
    var t, rest := TargetFor(scheme, ip, port), ip + ":" + Text.Itoa(port);
    assert t == scheme + Text.SEP + rest;
    WithoutScheme(scheme, rest);
    NoSlash(ip, port);
    ColonBetween(ip, port);
    Text.AtoiItoa(port);
  }

  lemma NoSlash(ip: string, port: int)
    ensures var rest := ip + ":" + Text.Itoa(port); rest[|rest| - 1] != '/'
  {
    hide Text.Itoa;
    Text.ItoaEnd(port);
    var rest := ip + ":" + Text.Itoa(port);
    assert rest[|rest| - 1] == Text.Itoa(port)[|Text.Itoa(port)| - 1];
  }

  lemma ColonBetween(ip: string, port: int)
    ensures var rest := ip + ":" + Text.Itoa(port);
      Text.LastColonAt(rest) == Some(|ip|) && rest[..|ip|] == ip && rest[|ip| + 1..] == Text.Itoa(port)
  {
    hide Text.Itoa, Text.LastColonAt;
    Text.LastColon(ip, port);
    var rest := ip + ":" + Text.Itoa(port);
    assert rest[|ip|] == ':';
  }

  function PreserveScheme(was: string, nu: string): string {
    match (Text.SchemeEnd(was), Text.SchemeEnd(nu))
    case (Some(i), Some(j)) => was[..i] + nu[j..]
    case _ => nu
  }

  function Scheme(target: string): Option<string> {
    match Text.SchemeEnd(target)
    case None => None
    case Some(i) => Some(target[..i])
  }

  /** What follows the scheme. */
  function Rest(target: string): string {
    match Text.SchemeEnd(target)
    case None => target
    case Some(i) => target[i + 3..]
  }

  /** The new address under the old scheme, unless only one of the two targets has a scheme. */
  lemma PreserveSchemeKeeps(was: string, nu: string)
    ensures Scheme(PreserveScheme(was, nu)) == Scheme(was) <==> (Scheme(was).Some? <==> Scheme(nu).Some?)
    ensures Rest(PreserveScheme(was, nu)) == Rest(nu)
  {
    hide Text.SchemeEnd;
    match (Text.SchemeEnd(was), Text.SchemeEnd(nu)) {
      case (Some(i), Some(j)) => Joined(was, nu, i, j);
      case _ =>
    }
  }

  /** The first "://" of the joined target is the one that ends the old scheme. */
  lemma Joined(was: string, nu: string, i: nat, j: nat)
    requires Text.SchemeEnd(was) == Some(i) && Text.SchemeEnd(nu) == Some(j)
    ensures var r := was[..i] + nu[j..]; Text.SchemeEnd(r) == Some(i) && r[..i] == was[..i] && r[i + 3..] == nu[j + 3..]
  {
    hide Text.SchemeEnd;
    var r := was[..i] + nu[j..];
    assert r == was[..i + 3] + nu[j + 3..];
    forall k | 0 <= k < i ensures !Text.SepAt(r, k) {
      assert !Text.SepAt(was, k) && r[k..k + 3] == was[k..k + 3];
    }
    assert r[i..i + 3] == was[i..i + 3];
    assert Text.SepAt(r, i);
  }

  // ---- Resolving a container ----------------------------------------------------------------------

  function AskedPort(c: Container): int {
    if c.Label(LABEL_PORT) != "" then Text.Atoi(c.Label(LABEL_PORT)) else 0
  }

  /** The display name, subdomain and backend a container asks for, by its labels or its ports; none when
      there is no port to use. */
  function Resolve(g: Setting, c: Container, seen: Seen): Option<Info> {
    var name := OrElse(c.Label(LABEL_NAME), c.name);
    var byName := Text.Sanitised(g.unicode, c.name);
    var byLabel := Text.Sanitised(g.unicode, c.Label(LABEL_SUBDOMAIN));
    var labelled := c.Label(LABEL_SUBDOMAIN) != "";
    if c.Label(LABEL_URL) != "" then Some(Info(name, if labelled then byLabel else byName, c.Label(LABEL_URL)))
    else
      var subdomain := if labelled then byLabel else OrElse(seen.traefikSubdomain, byName);
      var port := AskedPort(c);
      var port := if port == 0 then seen.traefikPort else port;
      var port := if port == 0 then BestPort(c.ports) else port;
      if port == 0 then None
      else
        var asked := c.Label(LABEL_SCHEME);
        var scheme := if asked in {"https", "http"} then asked else seen.scheme;
        Some(Info(name, subdomain, TargetFor(scheme, g.env.serverIP, port)))
  }

  predicate NoTCP(ports: seq<Port>) {
    forall i | 0 <= i < |ports| :: !PublishedTCP(ports[i])
  }

  lemma {:induction false} FirstTCPIs(ports: seq<Port>)
    ensures FirstTCP(ports) == 0 <==> NoTCP(ports)
    ensures FirstTCP(ports) != 0 ==> Publishes(ports, FirstTCP(ports))
  {
    if ports != [] {
      FirstTCPIs(ports[1..]);
      assert NoTCP(ports) <==> !PublishedTCP(ports[0]) && NoTCP(ports[1..]) by {
        assert forall i | 1 <= i < |ports| :: ports[i] == ports[1..][i - 1];
      }
      if Publishes(ports[1..], FirstTCP(ports[1..])) {
        var i :| 0 <= i < |ports[1..]| && PublishedTCP(ports[1..][i]) && ports[1..][i].public == FirstTCP(ports[1..]);
        assert ports[i + 1] == ports[1..][i];
      }
    }
  }

  lemma {:induction false} FirstOfFirst(prefs: seq<nat>, ports: seq<Port>, i: nat) returns (j: nat)
    requires i < |prefs| && Publishes(ports, prefs[i])
    ensures j <= i && FirstOf(prefs, ports) == Some(prefs[j])
  {
    hide Publishes;
    j := 0;
    if !Publishes(ports, prefs[0]) {
      var k := FirstOfFirst(prefs[1..], ports, i - 1);
      j := k + 1;
    }
  }

  lemma {:induction false} FirstOfPublished(prefs: seq<nat>, ports: seq<Port>)
    ensures FirstOf(prefs, ports).Some? ==>
              FirstOf(prefs, ports).value in prefs && Publishes(ports, FirstOf(prefs, ports).value)
  {
    hide Publishes;
    if prefs != [] && !Publishes(ports, prefs[0]) {
      FirstOfPublished(prefs[1..], ports);
    }
  }

  /** The port picked is published, no published one comes before it among the preferred, and there is none
      only if no TCP port is published. */
  lemma BestPortIs(ports: seq<Port>)
    ensures BestPort(ports) == 0 <==> NoTCP(ports)
    ensures BestPort(ports) != 0 ==> Publishes(ports, BestPort(ports))
    ensures forall i | 0 <= i < |PREFERRED| && Publishes(ports, PREFERRED[i]) ::
              exists j :: 0 <= j <= i && BestPort(ports) == PREFERRED[j]
  {
    FirstTCPIs(ports);
    FirstOfPublished(PREFERRED, ports);
    forall i | 0 <= i < |PREFERRED| && Publishes(ports, PREFERRED[i])
      ensures exists j :: 0 <= j <= i && BestPort(ports) == PREFERRED[j]
    {
      var j := FirstOfFirst(PREFERRED, ports, i);
    }
    if FirstOf(PREFERRED, ports).Some? {
      var p := FirstOf(PREFERRED, ports).value;
      assert Publishes(ports, p) && p > 0;
    }
  }

  /** There is nothing to attach or list exactly when no URL is given and no port is asked for, named by
      Traefik, or published over TCP. */
  lemma ResolveNoneIff(g: Setting, c: Container, seen: Seen)
    ensures Resolve(g, c, seen).None? <==>
      c.Label(LABEL_URL) == "" && AskedPort(c) == 0 && seen.traefikPort == 0 && NoTCP(c.ports)
  {
    BestPortIs(c.ports);
  }

  /** The labels give a URL, or all of subdomain, port and scheme. */
  predicate Decided(c: Container) {
    c.Label(LABEL_URL) != "" ||
    (c.Label(LABEL_SUBDOMAIN) != "" && AskedPort(c) != 0 && c.Label(LABEL_SCHEME) in {"http", "https"})
  }

  /** The labels alone decide what a container asks for, whatever ports are published and whatever was
      seen, exactly when they give that much. A URL is then the target, and only a label overrides the
      subdomain that comes from the name. */
  lemma LabelsDecideIff(g: Setting, c: Container)
    ensures Decided(c) <==>
            forall ports, seen, ports', seen' ::
              Resolve(g, c.(ports := ports), seen) == Resolve(g, c.(ports := ports'), seen')
    ensures c.Label(LABEL_URL) != "" ==>
              forall seen :: Resolve(g, c, seen).Some? && Resolve(g, c, seen).value.target == c.Label(LABEL_URL) &&
                Resolve(g, c, seen).value.subdomain ==
                Text.Sanitised(g.unicode, OrElse(c.Label(LABEL_SUBDOMAIN), c.name))
  {
    hide Text.Sanitised, Text.Atoi, Text.Itoa, BestPort;
    forall ports, seen, ports', seen' | Decided(c)
      ensures Resolve(g, c.(ports := ports), seen) == Resolve(g, c.(ports := ports'), seen')
    {
      SameLabels(c, ports);
      SameLabels(c, ports');
    }
    if !Decided(c) {
      var seen, seen' := Undecided(g, c);
      assert Resolve(g, c.(ports := []), seen) != Resolve(g, c.(ports := []), seen');
    }
  }

  lemma SameLabels(c: Container, ports: seq<Port>)
    ensures forall key :: c.(ports := ports).Label(key) == c.Label(key)
    ensures AskedPort(c.(ports := ports)) == AskedPort(c)
  {
  }

  lemma Undecided(g: Setting, c: Container) returns (seen: Seen, seen': Seen)
    requires !Decided(c)
    ensures Resolve(g, c.(ports := []), seen) != Resolve(g, c.(ports := []), seen')
  {
    hide Text.Sanitised, Text.Atoi, Text.Itoa;
    SameLabels(c, []);
    BestPortIs([]);
    seen := Seen("a", 0, "http");
    if AskedPort(c) == 0 {
      seen' := seen.(traefikPort := 1);
    } else if c.Label(LABEL_SCHEME) !in {"http", "https"} {
      seen' := seen.(scheme := "https");
      var ip, port := g.env.serverIP, AskedPort(c);
      assert |TargetFor("https", ip, port)| == |TargetFor("http", ip, port)| + 1;
    } else {
      seen' := seen.(traefikSubdomain := "b");
    }
  }

  /** The port is the one asked for, otherwise Traefik's, otherwise a published one; the scheme is the one
      asked for, otherwise the one seen. */
  predicate InOrder(c: Container, seen: Seen, scheme: string, port: int) {
    && port != 0
    && (if AskedPort(c) != 0 then port == AskedPort(c)
        else if seen.traefikPort != 0 then port == seen.traefikPort
        else exists i | 0 <= i < |c.ports| :: PublishedTCP(c.ports[i]) && c.ports[i].public == port)
    && scheme == if c.Label(LABEL_SCHEME) in {"http", "https"} then c.Label(LABEL_SCHEME) else seen.scheme
  }

  /** Without a URL the target is at the server's address, port and scheme in that order. */
  lemma PortOrder(g: Setting, c: Container, seen: Seen)
    requires c.Label(LABEL_URL) == "" && Resolve(g, c, seen).Some?
    ensures exists scheme, port :: InOrder(c, seen, scheme, port) &&
              Resolve(g, c, seen).value.target == TargetFor(scheme, g.env.serverIP, port)
  {
    BestPortIs(c.ports);
    var asked := c.Label(LABEL_SCHEME);
    var scheme := if asked in {"https", "http"} then asked else seen.scheme;
    var port := if AskedPort(c) != 0 then AskedPort(c)
                else if seen.traefikPort != 0 then seen.traefikPort else BestPort(c.ports);
    assert InOrder(c, seen, scheme, port);
  }

  // ---- Events -----------------------------------------------------------------------------------------

  datatype Event =
    | Start(c: Container, seen: Seen, newID: string, now: int)
    | Stop(cid: string)

  /** Lantern looks at this container at all. */
  predicate Watched(c: Container) {
    c.name != "" && c.name != "lantern" && c.Label(LABEL_ENABLE) != "false"
  }

  /** The service a container belongs to: the docker service that had a container of this name, or the
      docker service at the subdomain the container asks for. */
  ghost function Home(s: Catalog.Services, name: string, subdomain: string): Option<string> {
    match Catalog.KeyWhere(s, Catalog.HasName(name))
    case Some(k) => Some(k)
    case None => if subdomain in s && s[subdomain].source == SOURCE_DOCKER then Some(subdomain) else None
  }

  function Attached(svc: Service, c: Container, info: Info): Service {
    svc.(containerID := c.id, containerName := c.name, target := PreserveScheme(svc.target, info.target))
  }

  function Candidate(c: Container, info: Info, newID: string, now: int): Discovered {
    var (ip, port) := SplitTarget(info.target);
    Discovered(newID, ip, port, info.name, "", "", 0, SOURCE_DOCKER, info.name, c.id, info.subdomain, now)
  }

  ghost function Started(g: Setting, s: Sys, c: Container, seen: Seen, newID: string, now: int): Sys {
    if !Watched(c) || Catalog.KeyWhere(s.services, Catalog.HasContainer(c.id)).Some? then s
    else match Resolve(g, c, seen)
      case None => s
      case Some(info) => Placed(s, c, info, newID, now)
  }

  /** A container with a known target goes to the service it belongs to, or to the discovered list. */
  ghost function Placed(s: Sys, c: Container, info: Info, newID: string, now: int): Sys {
    match Home(s.services, c.name, info.subdomain)
    case Some(k) =>
      s.(services := Catalog.UpdateService(s.services, s.services[k].id, Attached(s.services[k], c, info)))
    case None => s.(shelves := Catalog.Step(Catalog.Add(Candidate(c, info, newID, now)), s.shelves))
  }

  function Stopped(s: Sys, cid: string): Sys {
    s.(services := Catalog.ClearContainer(s.services, cid),
       shelves := Catalog.Step(Catalog.RemoveContainer(cid), s.shelves))
  }

  /** The service that a start event attaches its container to. */
  ghost function Takes(g: Setting, s: Sys, e: Event): Option<string> {
    match e
    case Stop(_) => None
    case Start(c, seen, _, _) =>
      var info := Resolve(g, c, seen);
      if Watched(c) && Catalog.KeyWhere(s.services, Catalog.HasContainer(c.id)).None? && info.Some? then
        Home(s.services, c.name, info.value.subdomain)
      else None
  }

  ghost function Happen(g: Setting, s: Sys, e: Event): Sys {
    match e
    case Start(c, seen, newID, now) => Started(g, s, c, seen, newID, now)
    case Stop(cid) => Stopped(s, cid)
  }

  ghost function HappenAll(g: Setting, s: Sys, es: seq<Event>): Sys
    decreases |es|
  {
    if es == [] then s else HappenAll(g, Happen(g, s, es[0]), es[1..])
  }

  ghost predicate FreshAll(g: Setting, s: Sys, es: seq<Event>)
    decreases |es|
  {
    es == [] ||
    ((es[0].Start? ==> Catalog.FreshID(s.shelves, es[0].newID)) && FreshAll(g, Happen(g, s, es[0]), es[1..]))
  }

  // ---- What events keep ---------------------------------------------------------------------------------

  /** The same services at the same subdomains, but for which container runs behind them and where. */
  ghost predicate SameButContainer(s: Catalog.Services, s': Catalog.Services) {
    s'.Keys == s.Keys && forall k | k in s :: s'[k] == Recontained(s[k], s'[k])
  }

  function Recontained(svc: Service, nu: Service): Service {
    svc.(containerID := nu.containerID, containerName := nu.containerName, target := nu.target)
  }

  lemma SameAsItself(s: Catalog.Services)
    ensures SameButContainer(s, s)
  {
  }

  lemma ClearedSame(s: Catalog.Services, cid: string)
    ensures SameButContainer(s, Catalog.ClearContainer(s, cid))
  {
  }

  /** Reattaching changes the one service the container belongs to. */
  lemma AttachOne(s: Catalog.Services, k: string, c: Container, info: Info)
    requires Catalog.Unique(s) && k in s
    ensures Catalog.UpdateService(s, s[k].id, Attached(s[k], c, info)) == s[k := Attached(s[k], c, info)]
  {
    Catalog.KeyWhereUnique(s, k);
  }

  /** The guards before a reattach are what uniqueness needs: no service has the container, and either
      this service has the name already or no service has it. */
  lemma AttachFits(s: Catalog.Services, k: string, c: Container, info: Info)
    requires Catalog.Unique(s) && Home(s, c.name, info.subdomain) == Some(k)
    requires Catalog.KeyWhere(s, Catalog.HasContainer(c.id)).None? && c.name != ""
    ensures k in s && s[k].source == SOURCE_DOCKER
    ensures Catalog.Fits(s - {k}, Attached(s[k], c, info))
  {
    var nu := Attached(s[k], c, info);
    forall l | l in s - {k} ensures Catalog.Distinct((s - {k})[l], nu) {
      assert Catalog.Distinct(s[l], s[k]);
      assert !Catalog.At(s, l, Catalog.HasContainer(c.id));
      if Catalog.KeyWhere(s, Catalog.HasName(c.name)).None? {
        assert !Catalog.At(s, l, Catalog.HasName(c.name));
        assert Catalog.Plain(s[l]);
      }
    }
  }

  lemma EventKeeps(g: Setting, s: Sys, e: Event)
    requires Catalog.Unique(s.services)
    ensures Catalog.Unique(Happen(g, s, e).services) && SameButContainer(s.services, Happen(g, s, e).services)
    ensures Happen(g, s, e).remote == s.remote
    ensures Catalog.Orderly(s.shelves) && (e.Start? ==> Catalog.FreshID(s.shelves, e.newID)) ==>
              Catalog.Orderly(Happen(g, s, e).shelves)
  {
    hide Catalog.Orderly, Catalog.FreshID, Catalog.Unique, Catalog.Fits, Catalog.Step, Resolve, SameButContainer,
         Catalog.UpdateService, Catalog.ClearContainer;
    SameAsItself(s.services);
    match e {
      case Start(c, seen, newID, now) =>
        var info := Resolve(g, c, seen);
        if info.Some? {
          var k := Home(s.services, c.name, info.value.subdomain);
          if k.Some? && Watched(c) && Catalog.KeyWhere(s.services, Catalog.HasContainer(c.id)).None? {
            AttachKeeps(s.services, k.value, c, info.value);
          }
          if Catalog.Orderly(s.shelves) && Catalog.FreshID(s.shelves, newID) {
            Catalog.StepOrderly(Catalog.Add(Candidate(c, info.value, newID, now)), s.shelves);
          }
        }
      case Stop(cid) =>
        Catalog.ClearKeepsUnique(s.services, cid);
        ClearedSame(s.services, cid);
        if Catalog.Orderly(s.shelves) {
          Catalog.StepOrderly(Catalog.RemoveContainer(cid), s.shelves);
        }
    }
  }

  lemma AttachKeeps(s: Catalog.Services, k: string, c: Container, info: Info)
    requires Catalog.Unique(s) && Home(s, c.name, info.subdomain) == Some(k)
    requires Catalog.KeyWhere(s, Catalog.HasContainer(c.id)).None? && c.name != ""
    ensures k in s && s[k].subdomain == k
    ensures Catalog.UpdateService(s, s[k].id, Attached(s[k], c, info)) == s[k := Attached(s[k], c, info)]
    ensures Catalog.Unique(s[k := Attached(s[k], c, info)]) && SameButContainer(s, s[k := Attached(s[k], c, info)])
  {
    hide Catalog.UpdateService, Catalog.Fits;
    AttachFits(s, k, c, info);
    AttachOne(s, k, c, info);
    Catalog.UpdateKeepsUniqueIff(s, k, Attached(s[k], c, info));
  }

  /** No sequence of container events adds, deletes or renames a service, or changes any field but the
      three that say what runs behind it; and none breaks uniqueness, whatever the events say. */
  lemma {:induction false} EventsKeep(g: Setting, s: Sys, es: seq<Event>)
    requires Catalog.Unique(s.services)
    ensures var s' := HappenAll(g, s, es);
      Catalog.Unique(s'.services) && SameButContainer(s.services, s'.services) && s'.remote == s.remote
    ensures Catalog.Orderly(s.shelves) && FreshAll(g, s, es) ==> Catalog.Orderly(HappenAll(g, s, es).shelves)
    decreases |es|
  {
    hide Catalog.Orderly, Catalog.Unique, Catalog.FreshID, Happen;
    if es != [] {
      EventKeeps(g, s, es[0]);
      EventsKeep(g, Happen(g, s, es[0]), es[1..]);
    }
  }

  // ---- Where a container ends up --------------------------------------------------------------------------

  /** Some service has this container. */
  ghost predicate Runs(s: Catalog.Services, cid: string) {
    Catalog.KeyWhere(s, Catalog.HasContainer(cid)).Some?
  }

  /** A started container is attached exactly when it was already or it is watched, usable and has a home;
      otherwise, if watched and usable, it is listed for review, unless another entry has its endpoint. */
  lemma StartOutcome(g: Setting, s: Sys, c: Container, seen: Seen, newID: string, now: int)
    requires Catalog.Unique(s.services) && c.id != ""
    ensures var s' := Started(g, s, c, seen, newID, now); var info := Resolve(g, c, seen);
      var usable := Watched(c) && info.Some?;
      && (Runs(s'.services, c.id) <==>
            Runs(s.services, c.id) || (usable && Home(s.services, c.name, info.value.subdomain).Some?))
      && (Listed(s'.shelves.discovered, c.id) <==>
            || Listed(s.shelves.discovered, c.id)
            || (usable && !Runs(s'.services, c.id) && !TakenEndpoint(s.shelves.discovered, info.value.target)))
  {
    hide Catalog.Fits, Resolve, SplitTarget, Catalog.Unique;
    var info := Resolve(g, c, seen);
    if Watched(c) && info.Some? && !Runs(s.services, c.id) {
      match Home(s.services, c.name, info.value.subdomain) {
        case Some(k) =>
          AttachKeeps(s.services, k, c, info.value);
          Catalog.KeyWhereUnique(s.services[k := Attached(s.services[k], c, info.value)], k);
        case None =>
          AddLists(s.shelves.discovered, Candidate(c, info.value, newID, now));
      }
    }
  }

  ghost predicate TakenEndpoint(ds: Catalog.Shelf, target: string) {
    exists i | 0 <= i < |ds| :: Catalog.SameEndpoint(ds[i], SplitTarget(target).0, SplitTarget(target).1)
  }

  ghost predicate Listed(ds: Catalog.Shelf, cid: string) {
    exists i :: 0 <= i < |ds| && ds[i].containerID == cid
  }

  lemma AddLists(ds: Catalog.Shelf, d: Discovered)
    requires d.containerID != ""
    ensures Listed(Catalog.AddDiscovered(ds, d), d.containerID) <==>
            Listed(ds, d.containerID) || !exists i | 0 <= i < |ds| :: Catalog.SameEndpoint(ds[i], d.ip, d.port)
  {
    if !Catalog.Duplicate(ds, d) {
      assert (ds + [d])[|ds|].containerID == d.containerID;
    }
  }

  /** A stopped container is attached nowhere and listed nowhere; every other one is where it was. */
  lemma StopOutcome(s: Sys, cid: string, other: string)
    requires cid != "" && other != ""
    ensures Runs(Stopped(s, cid).services, other) <==> Runs(s.services, other) && other != cid
    ensures Listed(Stopped(s, cid).shelves.discovered, other) <==> Listed(s.shelves.discovered, other) && other != cid
  {
    var services, ds := s.services, s.shelves.discovered;
    var services', ds' := Stopped(s, cid).services, Stopped(s, cid).shelves.discovered;
    Catalog.FilterMembers(ds, Catalog.NotContainer(cid));
    forall k ensures Catalog.At(services', k, Catalog.HasContainer(other)) <==>
                     Catalog.At(services, k, Catalog.HasContainer(other)) && other != cid {
    }
    if i :| 0 <= i < |ds| && ds[i].containerID == other && other != cid {
      assert ds[i] in ds';
    }
    if i :| 0 <= i < |ds'| && ds'[i].containerID == other {
      assert ds'[i] in ds';
    }
  }

  // ---- Stop and start again -------------------------------------------------------------------------------

  /** The service at `k` is the docker service for containers called `name`, and `scheme` is how it is
      reached. */
  ghost predicate Remembers(s: Catalog.Services, k: string, name: string, scheme: string) {
    && k in s && s[k].source == SOURCE_DOCKER && s[k].containerName == name
    && Scheme(s[k].target) == Some(scheme)
  }

  /** The event hands the service at `k` to a container of another name, or gives it a target without a
      scheme. */
  ghost predicate Spoils(g: Setting, s: Sys, e: Event, k: string, name: string) {
    Takes(g, s, e) == Some(k) &&
    (e.c.name != name || Text.SchemeEnd(Resolve(g, e.c, e.seen).value.target).None?)
  }

  /** An event makes the service forget only by spoiling it. */
  lemma EventRemembersIff(g: Setting, s: Sys, e: Event, k: string, name: string, scheme: string)
    requires Catalog.Unique(s.services) && Remembers(s.services, k, name, scheme) && name != ""
    ensures Remembers(Happen(g, s, e).services, k, name, scheme) <==> !Spoils(g, s, e, k, name)
  {
    hide Catalog.Fits, Resolve, Catalog.Step, PreserveScheme, Scheme;
    if Takes(g, s, e).Some? {
      var info := Resolve(g, e.c, e.seen).value;
      AttachKeeps(s.services, Takes(g, s, e).value, e.c, info);
      PreserveSchemeKeeps(s.services[k].target, info.target);
      SchemeIff(info.target);
      SchemeIff(s.services[k].target);
    }
  }

  ghost predicate NeverSpoiled(g: Setting, s: Sys, es: seq<Event>, k: string, name: string)
    decreases |es|
  {
    es == [] || (!Spoils(g, s, es[0], k, name) && NeverSpoiled(g, Happen(g, s, es[0]), es[1..], k, name))
  }

  lemma SchemeIff(target: string)
    ensures Scheme(target).Some? <==> Text.SchemeEnd(target).Some?
  {
  }

  lemma {:induction false} EventsRemember(g: Setting, s: Sys, es: seq<Event>, k: string, name: string, scheme: string)
    requires Catalog.Unique(s.services) && Remembers(s.services, k, name, scheme) && name != ""
    requires NeverSpoiled(g, s, es, k, name)
    ensures Remembers(HappenAll(g, s, es).services, k, name, scheme)
    decreases |es|
  {
    hide Catalog.Unique, Remembers, Happen, Spoils;
    if es != [] {
      EventRemembersIff(g, s, es[0], k, name, scheme);
      EventKeeps(g, s, es[0]);
      EventsRemember(g, Happen(g, s, es[0]), es[1..], k, name, scheme);
    }
  }

  /** However many containers stop and start in between, when a container of the same name comes back
      (recreated, so with a new container ID) it is attached to the same service, which keeps the user's
      changes and its scheme and takes the new address. */
  lemma ComesBack(g: Setting, s: Sys, es: seq<Event>, k: string, scheme: string, c: Container, seen: Seen,
                  newID: string, now: int)
    requires Catalog.Unique(s.services) && Remembers(s.services, k, c.name, scheme)
    requires NeverSpoiled(g, s, es, k, c.name)
    requires Watched(c) && Resolve(g, c, seen).Some? && Text.SchemeEnd(Resolve(g, c, seen).value.target).Some?
    requires Catalog.KeyWhere(HappenAll(g, s, es).services, Catalog.HasContainer(c.id)).None?
    ensures var s' := HappenAll(g, s, es + [Start(c, seen, newID, now)]); var info := Resolve(g, c, seen).value;
      && SameButContainer(s.services, s'.services)
      && s'.services[k].containerID == c.id && s'.services[k].containerName == c.name
      && Scheme(s'.services[k].target) == Some(scheme) && Rest(s'.services[k].target) == Rest(info.target)
      && s'.shelves == HappenAll(g, s, es).shelves
  {
    hide Catalog.Unique, Catalog.Step, Resolve, PreserveScheme, Scheme, Rest, Catalog.UpdateService, SameButContainer;
    var mid := HappenAll(g, s, es);
    var e := Start(c, seen, newID, now);
    EventsRemember(g, s, es, k, c.name, scheme);
    EventsKeep(g, s, es);
    EventsKeep(g, s, es + [e]);
    HappenLast(g, s, es, e);
    Catalog.KeyWhereUnique(mid.services, k);
    var info := Resolve(g, c, seen).value;
    AttachKeeps(mid.services, k, c, info);
    PreserveSchemeKeeps(mid.services[k].target, info.target);
    SchemeIff(info.target);
  }

  lemma {:induction false} HappenLast(g: Setting, s: Sys, es: seq<Event>, e: Event)
    ensures HappenAll(g, s, es + [e]) == Happen(g, HappenAll(g, s, es), e)
    decreases |es|
  {
    hide Happen;
    if es == [] {
      assert HappenAll(g, Happen(g, s, e), []) == Happen(g, s, e);
      assert [e][1..] == [];
    } else {
      assert (es + [e])[0] == es[0] && (es + [e])[1..] == es[1..] + [e];
      HappenLast(g, Happen(g, s, es[0]), es[1..], e);
    }
  }

  /** The event for the same container twice does no more than once. */
  lemma StartTwice(g: Setting, s: Sys, c: Container, seen: Seen, newID: string, now: int, newID': string, now': int)
    requires Catalog.Unique(s.services) && c.id != ""
    ensures Started(g, Started(g, s, c, seen, newID, now), c, seen, newID', now') == Started(g, s, c, seen, newID, now)
  {
    hide Catalog.Fits, Resolve, Catalog.Filter;
    var s' := Started(g, s, c, seen, newID, now);
    var info := Resolve(g, c, seen);
    if Watched(c) && Catalog.KeyWhere(s.services, Catalog.HasContainer(c.id)).None? && info.Some? {
      match Home(s.services, c.name, info.value.subdomain) {
        case Some(k) =>
          AttachKeeps(s.services, k, c, info.value);
          Catalog.KeyWhereUnique(s'.services, k);
        case None =>
          var d, d' := Candidate(c, info.value, newID, now), Candidate(c, info.value, newID', now');
          AddTwice(s.shelves.discovered, d, d');
      }
    }
  }

  lemma AddTwice(ds: Catalog.Shelf, d: Discovered, d': Discovered)
    requires d'.containerID == d.containerID && d'.ip == d.ip && d'.port == d.port
    ensures Catalog.AddDiscovered(Catalog.AddDiscovered(ds, d), d') == Catalog.AddDiscovered(ds, d)
  {
    if !Catalog.Duplicate(ds, d) {
      assert Catalog.SameEndpoint((ds + [d])[|ds|], d'.ip, d'.port);
    }
  }

  // ---- What container events do to what is published ------------------------------------------------------

  /** The address of no published tunnel route has changed. */
  ghost predicate RoutesKept(s: Catalog.Services, s': Catalog.Services) {
    forall k | k in s && s[k].tunnelRouteID != "" :: k in s' && s'[k].target == s[k].target
  }

  lemma RecordsStayTracked(e: Env, o: Outside, s: Catalog.Services, s': Catalog.Services, r: Remote)
    requires SameButContainer(s, s') && Tracked(e, o, s, r)
    ensures RecordsTracked(e, o, s', r) && DistinctRecords(s') && forall k | k in s' :: Coherent(e, o, k, s'[k])
  {
    forall k | k in s ensures Coherent(e, o, k, s'[k]) && Holds(e, o, s'[k], r) {
      assert Coherent(e, o, k, s[k]) && Holds(e, o, s[k], r);
    }
    forall i | i in r.records && i !in o.records ensures exists k :: Holder(s', k, i) {
      var k :| Holder(s, k, i);
      assert Holder(s', k, i);
    }
  }

  lemma TrackedIff(e: Env, o: Outside, s: Catalog.Services, s': Catalog.Services, r: Remote)
    requires SameButContainer(s, s') && Tracked(e, o, s, r)
    ensures Tracked(e, o, s', r) <==> RoutesKept(s, s')
  {
    RecordsStayTracked(e, o, s, s', r);
    hide RecordsTracked, DistinctRecords, Coherent, IngressTracked;
    if RoutesKept(s, s') {
      SameRoutesTracked(e, o, s, s', r);
    } else {
      MovedUntracked(e, o, s, s', r);
    }
  }

  lemma MovedUntracked(e: Env, o: Outside, s: Catalog.Services, s': Catalog.Services, r: Remote)
    requires SameButContainer(s, s') && IngressTracked(e, o, s, r) && !RoutesKept(s, s')
    ensures !IngressTracked(e, o, s', r)
  {
    var k :| k in s && s[k].tunnelRouteID != "" && s'[k].target != s[k].target;
    HostInjective(e, k, k);
    assert Routes(e, s, k, e.Host(k)) && Routes(e, s', k, e.Host(k));
    assert Only(r.ingress, e.Host(k)) == [Rule(e.Host(k), s[k].target)];
  }

  /** The event gives a service behind the tunnel a new address. */
  ghost predicate Moves(g: Setting, s: Sys, e: Event) {
    var k := Takes(g, s, e);
    k.Some? && var svc := s.services[k.value];
      svc.tunnelRouteID != "" && PreserveScheme(svc.target, Resolve(g, e.c, e.seen).value.target) != svc.target
  }

  lemma MovesIff(g: Setting, s: Sys, e: Event)
    requires Catalog.Unique(s.services)
    ensures RoutesKept(s.services, Happen(g, s, e).services) <==> !Moves(g, s, e)
  {
    hide Catalog.Fits, Resolve, Catalog.Step, PreserveScheme;
    var k := Takes(g, s, e);
    if k.Some? {
      AttachKeeps(s.services, k.value, e.c, Resolve(g, e.c, e.seen).value);
    }
  }

  /** Container events never talk to Cloudflare, so one leaves it holding what the store says exactly when
      it does not move a published route. */
  lemma EventTrackedIff(g: Setting, o: Outside, s: Sys, e: Event)
    requires Catalog.Unique(s.services) && Tracked(g.env, o, s.services, s.remote)
    ensures Tracked(g.env, o, Happen(g, s, e).services, Happen(g, s, e).remote) <==> !Moves(g, s, e)
  {
    hide Tracked, RoutesKept, Happen, Moves, SameButContainer, Catalog.Unique;
    EventKeeps(g, s, e);
    MovesIff(g, s, e);
    TrackedIff(g.env, o, s.services, Happen(g, s, e).services, s.remote);
  }

  ghost predicate TrackedAll(g: Setting, o: Outside, s: Sys, es: seq<Event>)
    decreases |es|
  {
    Tracked(g.env, o, s.services, s.remote) && (es == [] || TrackedAll(g, o, Happen(g, s, es[0]), es[1..]))
  }

  ghost predicate NoneMoves(g: Setting, s: Sys, es: seq<Event>)
    decreases |es|
  {
    es == [] || (!Moves(g, s, es[0]) && NoneMoves(g, Happen(g, s, es[0]), es[1..]))
  }

  /** Cloudflare holds what the store says all through a run of events exactly when none of them moves a
      published route. */
  lemma {:induction false} EventsTrackedIff(g: Setting, o: Outside, s: Sys, es: seq<Event>)
    requires Catalog.Unique(s.services) && Tracked(g.env, o, s.services, s.remote)
    ensures TrackedAll(g, o, s, es) <==> NoneMoves(g, s, es)
    decreases |es|
  {
    hide Tracked, Happen, Moves, Catalog.Unique;
    if es != [] {
      EventTrackedIff(g, o, s, es[0]);
      EventKeeps(g, s, es[0]);
      if !Moves(g, s, es[0]) {
        EventsTrackedIff(g, o, Happen(g, s, es[0]), es[1..]);
      }
    }
  }

  /** The target with which an event attaches a container to the service at `k`, if it does. */
  ghost function AskedBy(g: Setting, s: Sys, e: Event, k: string): seq<string> {
    if Takes(g, s, e) == Some(k) then [Resolve(g, e.c, e.seen).value.target] else []
  }

  /** All the targets that the events of a run ask for, in order. */
  ghost function Asked(g: Setting, s: Sys, es: seq<Event>, k: string): seq<string>
    decreases |es|
  {
    if es == [] then [] else AskedBy(g, s, es[0], k) + Asked(g, Happen(g, s, es[0]), es[1..], k)
  }

  /** The scheme of the last target before which there was none, through an unbroken row of targets that
      have one. */
  function SchemeAfter(scheme: Option<string>, asked: seq<string>): Option<string>
    decreases |asked|
  {
    if asked == [] then scheme
    else SchemeAfter(if scheme.Some? && Scheme(asked[0]).Some? then scheme else Scheme(asked[0]), asked[1..])
  }

  function RestAfter(target: string, asked: seq<string>): string {
    if asked == [] then Rest(target) else Rest(asked[|asked| - 1])
  }

  /** The last target asked for leads to where the first one does, by the same scheme. */
  predicate Returns(target: string, asked: seq<string>) {
    RestAfter(target, asked) == Rest(target) && SchemeAfter(Scheme(target), asked) == Scheme(target)
  }

  lemma SchemeAndRest(t: string, t': string)
    requires Scheme(t) == Scheme(t') && Rest(t) == Rest(t')
    ensures t == t'
  {
    match Text.SchemeEnd(t) {
      case None =>
      case Some(i) => assert t == t[..i] + Text.SEP + t[i + 3..] && t' == t'[..i] + Text.SEP + t'[i + 3..];
    }
  }

  lemma TargetStep(g: Setting, s: Sys, e: Event, k: string)
    requires Catalog.Unique(s.services) && k in s.services
    ensures k in Happen(g, s, e).services
    ensures var t, t' := s.services[k].target, Happen(g, s, e).services[k].target;
      && Scheme(t') == SchemeAfter(Scheme(t), AskedBy(g, s, e, k)) && Rest(t') == RestAfter(t, AskedBy(g, s, e, k))
  {
    hide Catalog.Unique, Resolve, Catalog.Step, Scheme, Rest, PreserveScheme, Catalog.UpdateService;
    var l := Takes(g, s, e);
    if l.Some? {
      var nu := Resolve(g, e.c, e.seen).value;
      AttachKeeps(s.services, l.value, e.c, nu);
      if l.value == k {
        AskedOnce(s.services[k].target, nu.target);
      }
    }
  }

  lemma AskedOnce(t: string, nu: string)
    ensures Scheme(PreserveScheme(t, nu)) == SchemeAfter(Scheme(t), [nu])
    ensures Rest(PreserveScheme(t, nu)) == RestAfter(t, [nu])
  {
    hide Scheme, Rest, Text.SchemeEnd;
    PreserveSchemeKeeps(t, nu);
    SchemeIff(t);
    SchemeIff(nu);
    assert [nu][1..] == [];
  }

  lemma AskedInTurn(scheme: Option<string>, t: string, once: seq<string>, more: seq<string>)
    requires |once| <= 1
    ensures SchemeAfter(scheme, once + more) == SchemeAfter(SchemeAfter(scheme, once), more)
    ensures RestAfter(t, once + more) == if more == [] then RestAfter(t, once) else Rest(more[|more| - 1])
  {
    if once == [] {
      assert once + more == more;
    } else {
      assert (once + more)[1..] == more && once[1..] == [];
    }
  }

  /** What a run makes of a service's target. */
  lemma {:induction false} TargetAfter(g: Setting, s: Sys, es: seq<Event>, k: string)
    requires Catalog.Unique(s.services) && k in s.services
    ensures k in HappenAll(g, s, es).services
    ensures var t, t' := s.services[k].target, HappenAll(g, s, es).services[k].target;
      Scheme(t') == SchemeAfter(Scheme(t), Asked(g, s, es, k)) && Rest(t') == RestAfter(t, Asked(g, s, es, k))
    decreases |es|
  {
    hide Catalog.Unique, Happen, Takes, Resolve, Scheme, Rest;
    if es != [] {
      var s' := Happen(g, s, es[0]);
      EventKeeps(g, s, es[0]);
      TargetStep(g, s, es[0], k);
      TargetAfter(g, s', es[1..], k);
      var t := s.services[k].target;
      AskedInTurn(Scheme(t), t, AskedBy(g, s, es[0], k), Asked(g, s', es[1..], k));
    }
  }

  /** And at the end of a run exactly when the containers attached to each service behind the tunnel lead
      back to its old target. */
  lemma EventsTrackedAgainIff(g: Setting, o: Outside, s: Sys, es: seq<Event>)
    requires Catalog.Unique(s.services) && Tracked(g.env, o, s.services, s.remote)
    ensures var s' := HappenAll(g, s, es);
      Tracked(g.env, o, s'.services, s'.remote) <==>
      forall k | k in s.services && s.services[k].tunnelRouteID != "" ::
        Returns(s.services[k].target, Asked(g, s, es, k))
  {
    hide Tracked, HappenAll, Asked, Scheme, Rest, Catalog.Unique, SchemeAfter, RestAfter;
    var s' := HappenAll(g, s, es);
    EventsKeep(g, s, es);
    TrackedIff(g.env, o, s.services, s'.services, s.remote);
    forall k | k in s.services
      ensures s'.services[k].target == s.services[k].target <==>
              Returns(s.services[k].target, Asked(g, s, es, k))
    {
      TargetAfter(g, s, es, k);
      if Returns(s.services[k].target, Asked(g, s, es, k)) {
        SchemeAndRest(s.services[k].target, s'.services[k].target);
      }
    }
  }

  // ---- Services made from discovered containers -----------------------------------------------------------

  /** A discovered entry carries the display name, not the container's own name. So the service made from
      it is found again when its container restarts only if the two are the same, or it was put at the
      very subdomain the container asks for. */
  lemma MadeFromCandidateIff(s: Catalog.Services, k: string, c: Container, info: Info)
    requires Catalog.Unique(s) && k in s && s[k].source == SOURCE_DOCKER && s[k].containerName == info.name
    requires info.name != "" && c.name != ""
    ensures Home(s, c.name, info.subdomain) == Some(k) <==>
      info.name == c.name || (info.subdomain == k && Catalog.KeyWhere(s, Catalog.HasName(c.name)).None?)
  {
    Catalog.KeyWhereUnique(s, k);
  }

  /** The service made from a container's discovered entry has the container's address, but the scheme is
      guessed from the port again: a scheme that was probed or asked for by label is lost when it differs. */
  lemma MadeTargetIff(c: Container, info: Info, newID: string, now: int, scheme: string, ip: string, port: int)
    requires info.target == TargetFor(scheme, ip, port) && scheme in {"http", "https"}
    requires -Text.MAX_INT - 1 <= port <= Text.MAX_INT && !("https://" <= ip + ":" + Text.Itoa(port))
    ensures TargetOf(Candidate(c, info, newID, now)) == info.target <==> (scheme == "https" <==> IsHTTPSPort(port))
  {
    hide SplitTarget, Text.Itoa;
    SplitTargetBack(scheme, ip, port);
    var other := if IsHTTPSPort(port) then "https" else "http";
    assert TargetOf(Candidate(c, info, newID, now)) == TargetFor(other, ip, port);
    assert |TargetFor(scheme, ip, port)| == |scheme| + 4 + |ip| + |Text.Itoa(port)|;
    assert |TargetFor(other, ip, port)| == |other| + 4 + |ip| + |Text.Itoa(port)|;
  }

  ghost predicate Nowhere(ds: Catalog.Shelf) {
    exists i | 0 <= i < |ds| :: Catalog.SameEndpoint(ds[i], "", 0)
  }

  /** Deleting a docker service puts its container back on the discovered list, except that there is room
      for only one deleted container at a time: the second has the same empty address and is dropped. */
  lemma DeletedIsListedIff(g: Setting, a: Account, s: Sys, svc: Service, newID: string, now: int)
    requires Catalog.FindWhere(s.services, Catalog.HasID(svc.id)) == Some(svc)
    requires svc.source == SOURCE_DOCKER && svc.containerID != ""
    ensures var ds, ds' := s.shelves.discovered, Handlers.Delete(g, a, s, svc.id, newID, now).0.shelves.discovered;
      Listed(ds', svc.containerID) <==> Listed(ds, svc.containerID) || !Nowhere(ds)
  {
    var ds, ds' := s.shelves.discovered, Handlers.Delete(g, a, s, svc.id, newID, now).0.shelves.discovered;
    var d := Rediscovered(svc, newID, now);
    assert ds' == Catalog.AddDiscovered(ds, d);
    if !Catalog.Duplicate(ds, d) {
      assert ds'[|ds|].containerID == svc.containerID;
    }
  }
}
