/**
 What the start of a container comes to, said of its labels and of what is stored, without the steps in
 between (internal/discovery/docker.go:160-287).
 */
module Starts {
  import opened Common
  import opened Entities
  import opened Handlers
  import opened Docker
  import Catalog
  import Text

  // ---- Labels ---------------------------------------------------------------------------------------------

  predicate Gives(c: Container, key: string) {
    key in c.labels && c.labels[key] != ""
  }

  /** The subdomain of a container: from its label, otherwise, where it gives no URL, from Traefik, otherwise
      from its name. */
  function AskedSubdomain(g: Setting, c: Container, seen: Seen): string {
    if Gives(c, "lantern.subdomain") then Text.Sanitised(g.unicode, c.labels["lantern.subdomain"])
    else if !Gives(c, "lantern.url") && seen.traefikSubdomain != "" then seen.traefikSubdomain
    else Text.Sanitised(g.unicode, c.name)
  }

  lemma ResolvedNames(g: Setting, c: Container, seen: Seen)
    requires Resolve(g, c, seen).Some?
    ensures var info := Resolve(g, c, seen).value;
      && info.subdomain == AskedSubdomain(g, c, seen)
      && info.name == if Gives(c, "lantern.name") then c.labels["lantern.name"] else c.name
  {
    hide Text.Sanitised, BestPort;
  }

  /** The port of a container without a URL, zero if there is none: from its label, otherwise from Traefik,
      otherwise a published one. */
  function PortOf(c: Container, seen: Seen): int {
    if Gives(c, "lantern.port") && Text.Atoi(c.labels["lantern.port"]) != 0 then Text.Atoi(c.labels["lantern.port"])
    else if seen.traefikPort != 0 then seen.traefikPort
    else BestPort(c.ports)
  }

  lemma ResolvedTarget(g: Setting, c: Container, seen: Seen)
    ensures Resolve(g, c, seen).Some? <==> Gives(c, "lantern.url") || PortOf(c, seen) != 0
    ensures Resolve(g, c, seen).Some? ==>
      Resolve(g, c, seen).value.target ==
        if Gives(c, "lantern.url") then c.labels["lantern.url"]
        else
          (if "lantern.scheme" in c.labels && c.labels["lantern.scheme"] in {"http", "https"} then
             c.labels["lantern.scheme"]
           else seen.scheme) + "://" + g.env.serverIP + ":" + Text.Itoa(PortOf(c, seen))
  {
    hide Text.Sanitised, BestPort, Text.Atoi, Text.Itoa;
  }

  // ---- Events ---------------------------------------------------------------------------------------------

  /** A container that is not looked at, runs behind a service already, or has no target. */
  ghost predicate Skipped(s: Sys, c: Container, seen: Seen) {
    || c.name == "" || c.name == "lantern"
    || ("lantern.enable" in c.labels && c.labels["lantern.enable"] == "false")
    || (c.id != "" && exists k :: k in s.services && s.services[k].containerID == c.id)
    || (!Gives(c, "lantern.url") && PortOf(c, seen) == 0)
  }

  /** The docker service at `k` has had a container of this name. */
  ghost predicate SameName(s: Sys, c: Container, k: string) {
    k in s.services && s.services[k].source == "docker" && s.services[k].containerName == c.name
  }

  lemma StartSkipped(g: Setting, s: Sys, c: Container, seen: Seen, newID: string, now: int)
    requires Skipped(s, c, seen)
    ensures Started(g, s, c, seen, newID, now) == s
  {
    hide Resolve, PortOf, Placed;
    ResolvedTarget(g, c, seen);
    assert forall k :: Catalog.At(s.services, k, Catalog.HasContainer(c.id)) <==>
                       c.id != "" && k in s.services && s.services[k].containerID == c.id;
  }

  lemma NotSkipped(g: Setting, s: Sys, c: Container, seen: Seen)
    requires !Skipped(s, c, seen)
    ensures Watched(c) && Resolve(g, c, seen).Some? && c.name != ""
    ensures Catalog.KeyWhere(s.services, Catalog.HasContainer(c.id)).None?
  {
    hide Resolve, PortOf;
    ResolvedTarget(g, c, seen);
    assert forall k :: Catalog.At(s.services, k, Catalog.HasContainer(c.id)) <==>
                       c.id != "" && k in s.services && s.services[k].containerID == c.id;
  }

  /** Any other container goes to the docker service of its name, otherwise to the docker service at the
      subdomain it asks for; that service gets its ID, its name and its address, and nothing else changes. */
  lemma StartAttaches(g: Setting, s: Sys, c: Container, seen: Seen, newID: string, now: int, k: string)
    requires Catalog.Unique(s.services) && !Skipped(s, c, seen)
    requires SameName(s, c, k)
             || ((forall l :: !SameName(s, c, l)) && k == AskedSubdomain(g, c, seen)
                 && k in s.services && s.services[k].source == "docker")
    ensures Started(g, s, c, seen, newID, now) ==
            s.(services := s.services[k := s.services[k].(
                 containerID := c.id,
                 containerName := c.name,
                 target := PreserveScheme(s.services[k].target, Resolve(g, c, seen).value.target))])
  {
    hide Resolve, PortOf, AskedSubdomain, PreserveScheme, Catalog.Unique, Catalog.UpdateService, Catalog.Step;
    NotSkipped(g, s, c, seen);
    ResolvedNames(g, c, seen);
    NamedHome(s, c, k);
    AttachKeeps(s.services, k, c, Resolve(g, c, seen).value);
  }

  lemma NamedHome(s: Sys, c: Container, k: string)
    requires Catalog.Unique(s.services) && c.name != ""
    ensures SameName(s, c, k) ==> Catalog.KeyWhere(s.services, Catalog.HasName(c.name)) == Some(k)
    ensures (forall l :: !SameName(s, c, l)) <==> Catalog.KeyWhere(s.services, Catalog.HasName(c.name)).None?
  {
    assert forall l :: Catalog.At(s.services, l, Catalog.HasName(c.name)) <==> SameName(s, c, l);
    if SameName(s, c, k) {
      Catalog.KeyWhereUnique(s.services, k);
    }
  }

  /** A container without such a service is listed for review, unless it is listed already or another entry
      has its address and port. */
  lemma StartLists(g: Setting, s: Sys, c: Container, seen: Seen, newID: string, now: int)
    requires Catalog.Unique(s.services) && !Skipped(s, c, seen) && forall k :: !SameName(s, c, k)
    requires var k := AskedSubdomain(g, c, seen); k in s.services ==> s.services[k].source != "docker"
    ensures var s' := Started(g, s, c, seen, newID, now); var ds := s.shelves.discovered;
      var target := Resolve(g, c, seen).value.target;
      var (ip, port) := SplitTarget(target);
      && s' == s.(shelves := s.shelves.(discovered := s'.shelves.discovered))
      && s'.shelves.discovered ==
         if exists d :: d in ds && ((c.id != "" && d.containerID == c.id) || (d.ip == ip && d.port == port)) then ds
         else
           var name := if Gives(c, "lantern.name") then c.labels["lantern.name"] else c.name;
           ds + [Discovered(newID, ip, port, name, "", "", 0, "docker", name, c.id, AskedSubdomain(g, c, seen), now)]
  {
    hide Resolve, PortOf, AskedSubdomain, Catalog.Unique, Catalog.UpdateService, SplitTarget;
    NotSkipped(g, s, c, seen);
    ResolvedNames(g, c, seen);
    NamedHome(s, c, "");
    var ds, d := s.shelves.discovered, Candidate(c, Resolve(g, c, seen).value, newID, now);
    assert Catalog.Duplicate(ds, d) <==>
           exists e :: e in ds && ((c.id != "" && e.containerID == c.id) || (e.ip == d.ip && e.port == d.port)) by {
      assert forall i | 0 <= i < |ds| :: ds[i] in ds;
    }
  }

  // ---- Ports and targets ----------------------------------------------------------------------------------

  /** The port is published over TCP, by the i-th entry. */
  predicate OfferedAt(ports: seq<Port>, i: int, port: nat) {
    0 <= i < |ports| && ports[i].proto == "tcp" && ports[i].public == port && port > 0
  }

  ghost predicate Offered(ports: seq<Port>, port: nat) {
    exists i :: OfferedAt(ports, i, port)
  }

  lemma OfferedIff(ports: seq<Port>, port: nat)
    ensures Offered(ports, port) <==> Publishes(ports, port)
  {
    if i :| 0 <= i < |ports| && PublishedTCP(ports[i]) && ports[i].public == port {
      assert OfferedAt(ports, i, port);
    }
  }

  /** The port picked: the first of the preferred ones that is offered, otherwise the first that is offered at
      all, and zero if there is none. */
  lemma PortPicked(ports: seq<Port>)
    ensures var prefs: seq<nat> := [80, 8080, 3000, 5000, 9443, 9000, 8096, 8123, 443, 8443, 8000];
      var port := BestPort(ports);
      && (port == 0 <==> forall n :: !Offered(ports, n))
      && (port != 0 ==> Offered(ports, port))
      && (forall i | 0 <= i < |prefs| && Offered(ports, prefs[i]) :: exists j :: 0 <= j <= i && port == prefs[j])
      && (port !in prefs && port != 0 ==>
            exists i :: OfferedAt(ports, i, port) && forall j, n | 0 <= j < i :: !OfferedAt(ports, j, n))
  {
    hide Offered, FirstOf, Publishes;
    var port := BestPort(ports);
    forall n: nat ensures Offered(ports, n) <==> Publishes(ports, n) {
      OfferedIff(ports, n);
    }
    BestPortIs(ports);
    if port == 0 {
      NoneOffered(ports);
    }
    FirstOfPublished(PREFERRED, ports);
    if port !in PREFERRED && port != 0 {
      var i := FirstOffered(ports);
    }
  }

  lemma NoneOffered(ports: seq<Port>)
    requires NoTCP(ports)
    ensures forall n :: !Offered(ports, n)
  {
  }

  lemma {:induction false} FirstOffered(ports: seq<Port>) returns (i: int)
    requires FirstTCP(ports) != 0
    ensures OfferedAt(ports, i, FirstTCP(ports)) && forall j, n | 0 <= j < i :: !OfferedAt(ports, j, n)
  {
    i := 0;
    if !PublishedTCP(ports[0]) {
      var rest := ports[1..];
      var k := FirstOffered(rest);
      i := k + 1;
      forall j, n | 0 <= j < i ensures !OfferedAt(ports, j, n) {
        assert j > 0 ==> (OfferedAt(ports, j, n) <==> OfferedAt(rest, j - 1, n));
      }
    }
  }

  /** Taking a target apart: what is after "http://" or "https://", without a slash at the end, has its port
      after its last colon, and no port without a colon. */
  lemma SplitInWords(scheme: string, host: string, slash: string)
    requires scheme in {"http://", "https://"} && slash in {"", "/"}
    requires host != "" && host[|host| - 1] != '/' && !("http://" <= host) && !("https://" <= host)
    ensures var (ip, port) := SplitTarget(scheme + host + slash);
      if ':' in host then
        exists i :: 0 <= i < |host| && host[i] == ':' && (forall j | i < j < |host| :: host[j] != ':')
                    && ip == host[..i] && port == Text.Atoi(host[i + 1..])
      else (ip, port) == (host, 0)
  {
    hide Text.Atoi, Text.LastColonAt, Text.TrimPrefix;
    var t := scheme + host + slash;
    assert t == scheme + (host + slash);
    NoPrefix("http://", host, slash);
    NoPrefix("https://", host, slash);
    Unprefixed(scheme, host + slash);
    assert slash == "/" ==> (host + slash)[..|host + slash| - 1] == host;
    assert slash == "" ==> host + slash == host;
  }

  lemma NoPrefix(prefix: string, host: string, slash: string)
    requires prefix in {"http://", "https://"} && slash in {"", "/"}
    requires host != "" && host[|host| - 1] != '/' && !(prefix <= host)
    ensures !(prefix <= host + slash)
  {
    var t, n := host + slash, |prefix|;
    assert prefix[n - 2] == '/' && t[|host| - 1] == host[|host| - 1];
    assert n <= |host| ==> t[..n] == host[..n];
  }

  lemma Unprefixed(scheme: string, rest: string)
    requires scheme in {"http://", "https://"} && rest != "" && !("http://" <= rest) && !("https://" <= rest)
    ensures Text.TrimPrefix(Text.TrimPrefix(scheme + rest, "http://"), "https://") == rest
  {
    var t := scheme + rest;
    assert scheme <= t && t[|scheme|..] == rest && t[..|scheme|] == scheme;
    assert scheme == "https://" ==> t[4] == 's';
    assert ("http://")[4] == ':';
  }
}
