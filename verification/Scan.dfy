/**
 What a network scan leaves on the discovered list (internal/discovery/discovery.go:130-238): the
 results that are neither assigned nor ignored, one entry per address and port.
 */
module Scan {
  import opened Common
  import opened Entities
  import Catalog
  import Text

  datatype ProbeResult = ProbeResult(
    url: string,
    ip: string,
    port: int,
    title: string,
    icon: string,
    serviceName: string,
    confidence: int)  // the bits of a float32

  /** A result as it arrives, with the new ID and the time its entry would get. */
  datatype Found = Found(r: ProbeResult, id: string, now: int) {
    function Entry(): Discovered {
      Discovered(id, r.ip, r.port, r.title, r.icon, r.serviceName, r.confidence, SOURCE_NETWORK, "", "", "", now)
    }

    predicate At(ip: string, port: int) {
      r.ip == ip && r.port == port
    }
  }

  // ---- Which results count ----------------------------------------------------------------------------

  /** net.JoinHostPort. */
  function HostPort(ip: string, port: int): string {
    (if ':' in ip || '%' in ip then "[" + ip + "]" else ip) + ":" + Text.Itoa(port)
  }

  function Slash(): char -> bool {
    c => c == '/'
  }

  predicate Reaches(target: string, r: ProbeResult) {
    target in {r.url, "http://" + HostPort(r.ip, r.port), "https://" + HostPort(r.ip, r.port)}
  }

  /** A service's target, with and without its trailing slashes. */
  function AllNames(svc: Service): set<string> {
    {svc.target, Text.TrimRight(svc.target, Slash())}
  }

  ghost predicate NamedBy(services: Catalog.Services, k: string, target: string) {
    k in services && target in AllNames(services[k])
  }

  /** Some service's target is where this result was found. */
  ghost predicate Assigned(services: Catalog.Services, r: ProbeResult) {
    exists k, t :: NamedBy(services, k, t) && Reaches(t, r)
  }

  /** The user has ignored this address and port. The scan goes by the list, not by the key set. */
  ghost predicate Suppressed(igs: seq<Ignored>, r: ProbeResult) {
    exists ig :: ig in igs && ig.ip == r.ip && ig.port == r.port
  }

  ghost predicate Wanted(services: Catalog.Services, igs: seq<Ignored>, r: ProbeResult) {
    !Suppressed(igs, r) && !Assigned(services, r)
  }

  ghost function Accepted(services: Catalog.Services, igs: seq<Ignored>, fs: seq<Found>): seq<Found> {
    if fs == [] then []
    else Accepted(services, igs, fs[..|fs| - 1]) + if Wanted(services, igs, fs[|fs| - 1].r) then [fs[|fs| - 1]] else []
  }

  // ---- What they leave behind -----------------------------------------------------------------------------

  function Upserted(ds: Catalog.Shelf, fs: seq<Found>): Catalog.Shelf {
    if fs == [] then ds else Catalog.UpsertNetwork(Upserted(ds, fs[..|fs| - 1]), fs[|fs| - 1].Entry())
  }

  function First(fs: seq<Found>, ip: string, port: int): (r: Option<Found>)
    ensures r.None? <==> forall f | f in fs :: !f.At(ip, port)
    ensures r.Some? ==> r.value in fs && r.value.At(ip, port)
  {
    if fs == [] then None
    else
      var init := First(fs[..|fs| - 1], ip, port);
      assert fs == fs[..|fs| - 1] + [fs[|fs| - 1]];
      if init.Some? then init else if fs[|fs| - 1].At(ip, port) then Some(fs[|fs| - 1]) else None
  }

  function Last(fs: seq<Found>, ip: string, port: int): (r: Option<Found>)
    ensures r.None? <==> forall f | f in fs :: !f.At(ip, port)
    ensures r.Some? ==> r.value in fs && r.value.At(ip, port)
  {
    if fs == [] then None
    else
      assert fs == fs[..|fs| - 1] + [fs[|fs| - 1]];
      if fs[|fs| - 1].At(ip, port) then Some(fs[|fs| - 1]) else Last(fs[..|fs| - 1], ip, port)
  }

  /** The entry for an endpoint: made by the first result there, refreshed by the last. */
  ghost predicate EntryFor(fs: seq<Found>, d: Discovered) {
    && First(fs, d.ip, d.port).Some?
    && d == Catalog.Refreshed(First(fs, d.ip, d.port).value.Entry(), Last(fs, d.ip, d.port).value.Entry())
  }

  /** `ns` holds one entry for each endpoint found, and nothing else. */
  ghost predicate Reflects(ns: Catalog.Shelf, fs: seq<Found>) {
    && (forall i | 0 <= i < |ns| :: EntryFor(fs, ns[i]))
    && (forall i, j | 0 <= i < j < |ns| :: !Catalog.SameEndpoint(ns[j], ns[i].ip, ns[i].port))
    && (forall f | f in fs :: exists i :: Covers(ns, i, f))
  }

  ghost predicate Covers(ns: Catalog.Shelf, i: int, f: Found) {
    0 <= i < |ns| && Catalog.SameEndpoint(ns[i], f.r.ip, f.r.port)
  }

  predicate NoNetwork(ds: Catalog.Shelf) {
    forall i | 0 <= i < |ds| :: ds[i].source != SOURCE_NETWORK
  }

  lemma {:induction false} UpsertBehind(ds: Catalog.Shelf, ns: Catalog.Shelf, d: Discovered)
    requires NoNetwork(ds)
    ensures Catalog.UpsertNetwork(ds + ns, d) == ds + Catalog.UpsertNetwork(ns, d)
  {
    if ds == [] {
      assert ds + ns == ns && ds + Catalog.UpsertNetwork(ns, d) == Catalog.UpsertNetwork(ns, d);
    } else {
      assert (ds + ns)[0] == ds[0] && (ds + ns)[1..] == ds[1..] + ns;
      UpsertBehind(ds[1..], ns, d);
    }
  }

  lemma FirstLastSnoc(fs: seq<Found>, f: Found, ip: string, port: int)
    ensures First(fs + [f], ip, port) == if First(fs, ip, port).Some? then First(fs, ip, port)
                                         else if f.At(ip, port) then Some(f) else None
    ensures Last(fs + [f], ip, port) == if f.At(ip, port) then Some(f) else Last(fs, ip, port)
  {
  }

  /** One more result, new endpoint or not, is reflected. */
  lemma ReflectsUpsert(ns: Catalog.Shelf, fs: seq<Found>, f: Found)
    requires Reflects(ns, fs)
    ensures Reflects(Catalog.UpsertNetwork(ns, f.Entry()), fs + [f])
  {
    var ns', fs' := Catalog.UpsertNetwork(ns, f.Entry()), fs + [f];
    assert forall i | 0 <= i < |ns| :: EntryFor(fs, ns[i]) && ns[i].source == SOURCE_NETWORK;
    Catalog.UpsertMembers(ns, f.Entry());
    if i :| Covers(ns, i, f) {
      forall j | 0 <= j < i ensures !Catalog.NetworkAt(ns[j], f.r.ip, f.r.port) {
        assert !Catalog.SameEndpoint(ns[i], ns[j].ip, ns[j].port);
      }
      Catalog.UpsertFinds(ns, f.Entry(), i);
      Refreshes(ns, fs, f, i);
    } else {
      forall j | 0 <= j < |ns| ensures !Catalog.NetworkAt(ns[j], f.r.ip, f.r.port) {
        assert !Covers(ns, j, f);
      }
      assert ns' == ns + [f.Entry()];
      Appends(ns, fs, f);
    }
  }

  lemma Refreshes(ns: Catalog.Shelf, fs: seq<Found>, f: Found, i: nat)
    requires Reflects(ns, fs) && Covers(ns, i, f)
    ensures Reflects(ns[i := Catalog.Refreshed(ns[i], f.Entry())], fs + [f])
  {
    var ns' := ns[i := Catalog.Refreshed(ns[i], f.Entry())];
    forall j | 0 <= j < |ns'| ensures EntryFor(fs + [f], ns'[j]) {
      assert EntryFor(fs, ns[j]);
      FirstLastSnoc(fs, f, ns[j].ip, ns[j].port);
      if j != i {
        assert !f.At(ns[j].ip, ns[j].port) by {
          assert i < j ==> !Catalog.SameEndpoint(ns[j], ns[i].ip, ns[i].port);
          assert j < i ==> !Catalog.SameEndpoint(ns[i], ns[j].ip, ns[j].port);
        }
      }
    }
    forall x | x in fs + [f] ensures exists j :: Covers(ns', j, x) {
      if x in fs {
        var j :| Covers(ns, j, x);
        assert Covers(ns', j, x);
      } else {
        assert Covers(ns', i, x);
      }
    }
    forall j, k | 0 <= j < k < |ns'| ensures !Catalog.SameEndpoint(ns'[k], ns'[j].ip, ns'[j].port) {
      assert !Catalog.SameEndpoint(ns[k], ns[j].ip, ns[j].port);
    }
  }

  lemma Appends(ns: Catalog.Shelf, fs: seq<Found>, f: Found)
    requires Reflects(ns, fs) && forall i :: !Covers(ns, i, f)
    ensures Reflects(ns + [f.Entry()], fs + [f])
  {
    hide First, Last;
    var ns' := ns + [f.Entry()];
    forall x | x in fs ensures !x.At(f.r.ip, f.r.port) {
      var j :| Covers(ns, j, x);
      assert !Covers(ns, j, f);
    }
    forall j | 0 <= j < |ns'| ensures EntryFor(fs + [f], ns'[j]) {
      FirstLastSnoc(fs, f, ns'[j].ip, ns'[j].port);
      if j < |ns| {
        assert EntryFor(fs, ns[j]) && !Covers(ns, j, f);
      }
    }
    forall x | x in fs + [f] ensures exists j :: Covers(ns', j, x) {
      if x in fs {
        var j :| Covers(ns, j, x);
        assert Covers(ns', j, x);
      } else {
        assert Covers(ns', |ns|, x);
      }
    }
    forall j, k | 0 <= j < k < |ns'| ensures !Catalog.SameEndpoint(ns'[k], ns'[j].ip, ns'[j].port) {
      if k < |ns| {
        assert !Catalog.SameEndpoint(ns[k], ns[j].ip, ns[j].port);
      } else {
        assert !Covers(ns, j, f);
      }
    }
  }

  /** After the old network entries are cleared and the results put in, the list is what it was without
      its network entries, in order, and then one entry for each endpoint found. */
  lemma {:induction false} UpsertedReflects(ds: Catalog.Shelf, fs: seq<Found>) returns (ns: Catalog.Shelf)
    requires NoNetwork(ds)
    ensures Upserted(ds, fs) == ds + ns && Reflects(ns, fs)
  {
    if fs == [] {
      ns := [];
    } else {
      var init, f := fs[..|fs| - 1], fs[|fs| - 1];
      var ns0 := UpsertedReflects(ds, init);
      ReflectsUpsert(ns0, init, f);
      UpsertBehind(ds, ns0, f.Entry());
      assert init + [f] == fs;
      ns := Catalog.UpsertNetwork(ns0, f.Entry());
    }
  }

  lemma ClearedNoNetwork(ds: Catalog.Shelf)
    ensures NoNetwork(Catalog.ClearNetwork(ds))
  {
    Catalog.FilterMembers(ds, Catalog.NotNetwork());
    var kept := Catalog.ClearNetwork(ds);
    forall i | 0 <= i < |kept| ensures kept[i].source != SOURCE_NETWORK {
      assert kept[i] in kept;
    }
  }

  function FullScan(ds: Catalog.Shelf, fs: seq<Found>): Catalog.Shelf {
    Upserted(Catalog.ClearNetwork(ds), fs)
  }

  lemma {:induction false} AcceptedIff(services: Catalog.Services, igs: seq<Ignored>, fs: seq<Found>)
    ensures forall f :: f in Accepted(services, igs, fs) <==> f in fs && Wanted(services, igs, f.r)
  {
    if fs != [] {
      AcceptedIff(services, igs, fs[..|fs| - 1]);
      assert fs == fs[..|fs| - 1] + [fs[|fs| - 1]];
    }
  }

  ghost predicate Shows(ds: Catalog.Shelf, ip: string, port: int) {
    exists i | 0 <= i < |ds| :: Catalog.NetworkAt(ds[i], ip, port)
  }

  ghost predicate WantedAt(services: Catalog.Services, igs: seq<Ignored>, fs: seq<Found>, ip: string, port: int) {
    exists f :: f in fs && f.At(ip, port) && Wanted(services, igs, f.r)
  }

  ghost predicate OnePerEndpoint(ds: Catalog.Shelf) {
    forall i, j | 0 <= i < j < |ds| && ds[j].source == SOURCE_NETWORK ::
      !Catalog.NetworkAt(ds[i], ds[j].ip, ds[j].port)
  }

  /** A completed full scan: entries of other sources stay, in order; the network entries are one for
      each address and port at which there was a result that is neither ignored nor assigned, made by
      the first such result and refreshed by the last. */
  lemma FullScanResult(services: Catalog.Services, igs: seq<Ignored>, ds: Catalog.Shelf, fs: seq<Found>)
    ensures var good := Accepted(services, igs, fs); var after := FullScan(ds, good);
      && Catalog.ClearNetwork(after) == Catalog.ClearNetwork(ds) <= after
      && (forall ip, port :: Shows(after, ip, port) <==> WantedAt(services, igs, fs, ip, port))
      && OnePerEndpoint(after)
      && (forall i | 0 <= i < |after| && after[i].source == SOURCE_NETWORK :: EntryFor(good, after[i]))
  {
    hide Wanted, EntryFor, Catalog.UpsertNetwork, Catalog.Filter;
    var kept, good := Catalog.ClearNetwork(ds), Accepted(services, igs, fs);
    ClearedNoNetwork(ds);
    AcceptedIff(services, igs, fs);
    var ns := UpsertedReflects(kept, good);
    AllNetwork(ns, good);
    OnlyKept(kept, ns);
    Behind(kept, ns, good);
    forall ip, port ensures Shows(ns, ip, port) <==> WantedAt(services, igs, fs, ip, port) {
      ShowsWanted(services, igs, fs, ns, ip, port);
    }
  }

  lemma Behind(kept: Catalog.Shelf, ns: Catalog.Shelf, good: seq<Found>)
    requires NoNetwork(kept) && Reflects(ns, good)
    ensures forall ip, port :: Shows(kept + ns, ip, port) <==> Shows(ns, ip, port)
    ensures OnePerEndpoint(kept + ns)
    ensures forall i | 0 <= i < |kept + ns| && (kept + ns)[i].source == SOURCE_NETWORK :: EntryFor(good, (kept + ns)[i])
  {
    hide EntryFor, First, Last;
    var after := kept + ns;
    forall ip, port | Shows(ns, ip, port) ensures Shows(after, ip, port) {
      var i :| 0 <= i < |ns| && Catalog.NetworkAt(ns[i], ip, port);
      assert after[|kept| + i] == ns[i];
    }
    forall i, j | 0 <= i < j < |after| && after[j].source == SOURCE_NETWORK
      ensures !Catalog.NetworkAt(after[i], after[j].ip, after[j].port)
    {
      if i >= |kept| {
        assert !Catalog.SameEndpoint(ns[j - |kept|], ns[i - |kept|].ip, ns[i - |kept|].port);
      }
    }
  }

  lemma ShowsWanted(services: Catalog.Services, igs: seq<Ignored>, fs: seq<Found>, ns: Catalog.Shelf, ip: string,
                    port: int)
    requires Reflects(ns, Accepted(services, igs, fs))
    ensures Shows(ns, ip, port) <==> WantedAt(services, igs, fs, ip, port)
  {
    hide Wanted, EntryFor;
    var good := Accepted(services, igs, fs);
    AllNetwork(ns, good);
    AcceptedIff(services, igs, fs);
    if Shows(ns, ip, port) {
      var i :| 0 <= i < |ns| && Catalog.NetworkAt(ns[i], ip, port);
      assert First(good, ns[i].ip, ns[i].port).value in fs;
    }
    if WantedAt(services, igs, fs, ip, port) {
      var f :| f in fs && f.At(ip, port) && Wanted(services, igs, f.r);
      var i :| Covers(ns, i, f);
      assert Catalog.NetworkAt(ns[i], ip, port);
    }
  }

  lemma AllNetwork(ns: Catalog.Shelf, fs: seq<Found>)
    requires Reflects(ns, fs)
    ensures forall i | 0 <= i < |ns| :: ns[i].source == SOURCE_NETWORK && First(fs, ns[i].ip, ns[i].port).Some?
  {
  }

  lemma {:induction false} OnlyKept(kept: Catalog.Shelf, ns: Catalog.Shelf)
    requires NoNetwork(kept) && forall i | 0 <= i < |ns| :: ns[i].source == SOURCE_NETWORK
    ensures Catalog.ClearNetwork(kept + ns) == kept
  {
    if kept != [] {
      assert (kept + ns)[0] == kept[0] && (kept + ns)[1..] == kept[1..] + ns;
      OnlyKept(kept[1..], ns);
    } else {
      assert kept + ns == ns;
      NoneKept(ns);
    }
  }

  lemma {:induction false} NoneKept(ns: Catalog.Shelf)
    requires forall i | 0 <= i < |ns| :: ns[i].source == SOURCE_NETWORK
    ensures Catalog.ClearNetwork(ns) == []
  {
    if ns != [] {
      NoneKept(ns[1..]);
    }
  }

  /** A light scan adds to what is shown. An ignored endpoint comes back as soon as something answers
      there and no service has it. */
  lemma LightScanResult(services: Catalog.Services, ds: Catalog.Shelf, fs: seq<Found>, ip: string, port: int)
    ensures var after := Upserted(ds, Accepted(services, [], fs));
      Shows(after, ip, port) <==>
      Shows(ds, ip, port) || exists f :: f in fs && f.At(ip, port) && !Assigned(services, f.r)
  {
    var good := Accepted(services, [], fs);
    AcceptedIff(services, [], fs);
    UpsertedShows(ds, good, ip, port);
    if f :| f in fs && f.At(ip, port) && !Assigned(services, f.r) {
      assert f in good;
    }
  }

  lemma {:induction false} UpsertedShows(ds: Catalog.Shelf, fs: seq<Found>, ip: string, port: int)
    ensures Shows(Upserted(ds, fs), ip, port) <==> Shows(ds, ip, port) || exists f :: f in fs && f.At(ip, port)
  {
    if fs != [] {
      var init, f := fs[..|fs| - 1], fs[|fs| - 1];
      assert fs == init + [f];
      UpsertedShows(ds, init, ip, port);
      UpsertShows(Upserted(ds, init), f, ip, port);
    }
  }

  lemma UpsertShows(ds: Catalog.Shelf, f: Found, ip: string, port: int)
    ensures Shows(Catalog.UpsertNetwork(ds, f.Entry()), ip, port) <==> Shows(ds, ip, port) || f.At(ip, port)
  {
    var ds' := Catalog.UpsertNetwork(ds, f.Entry());
    Catalog.UpsertMembers(ds, f.Entry());
    if Shows(ds, f.r.ip, f.r.port) {
      assert |ds'| == |ds|;
      assert forall i | 0 <= i < |ds| :: Catalog.NetworkAt(ds'[i], ip, port) <==> Catalog.NetworkAt(ds[i], ip, port);
    } else {
      assert ds' == ds + [f.Entry()];
      assert ds'[|ds|] == f.Entry();
      assert forall i | 0 <= i < |ds| :: ds'[i] == ds[i];
    }
  }

  // ---- Assigned endpoints, in words -----------------------------------------------------------------------

  /** `base` followed by any number of slashes. */
  predicate WithSlashes(base: string, target: string) {
    base <= target && forall i | |base| <= i < |target| :: target[i] == '/'
  }

  predicate EndsInSlash(s: string) {
    s != "" && s[|s| - 1] == '/'
  }

  /** The address and port of a result in a URL; addresses with a colon or a zone are put in brackets. */
  function Endpoint(r: ProbeResult): string {
    (if ':' in r.ip || '%' in r.ip then "[" + r.ip + "]" else r.ip) + ":" + Text.Itoa(r.port)
  }

  /** The target is the endpoint by http or https, or the result's own URL, with slashes after it; but a URL
      that ends in a slash itself is compared as it is. */
  predicate LeadsTo(target: string, r: ProbeResult) {
    || WithSlashes("http://" + Endpoint(r), target)
    || WithSlashes("https://" + Endpoint(r), target)
    || (if EndsInSlash(r.url) then target == r.url else WithSlashes(r.url, target))
  }

  lemma {:induction false} TrimRightIff(target: string, base: string)
    ensures Text.TrimRight(target, Slash()) == base <==> WithSlashes(base, target) && !EndsInSlash(base)
  {
    assert WithSlashes(base, target) && |base| < |target| ==> EndsInSlash(target);
    if EndsInSlash(target) {
      var init := target[..|target| - 1];
      TrimRightIff(init, base);
      assert WithSlashes(base, init) ==> WithSlashes(base, target);
      assert WithSlashes(base, target) && base != target ==> WithSlashes(base, init);
    }
  }

  lemma EndpointEnd(r: ProbeResult, scheme: string)
    ensures !EndsInSlash(scheme + Endpoint(r)) && Endpoint(r) == HostPort(r.ip, r.port)
  {
    Text.ItoaEnd(r.port);
    var s := scheme + Endpoint(r);
    assert s[|s| - 1] == Text.Itoa(r.port)[|Text.Itoa(r.port)| - 1];
  }

  lemma NamesLeadTo(svc: Service, r: ProbeResult)
    ensures (exists t :: t in AllNames(svc) && Reaches(t, r)) <==> LeadsTo(svc.target, r)
  {
    hide Text.TrimRight, Endpoint, HostPort;
    EndpointEnd(r, "http://");
    EndpointEnd(r, "https://");
    TrimRightIff(svc.target, "http://" + Endpoint(r));
    TrimRightIff(svc.target, "https://" + Endpoint(r));
    TrimRightIff(svc.target, r.url);
    var trimmed := Text.TrimRight(svc.target, Slash());
    assert svc.target in AllNames(svc) && trimmed in AllNames(svc);
  }

  /** A result counts as assigned exactly when some service's target leads to it. */
  lemma AssignedIff(services: Catalog.Services, r: ProbeResult)
    ensures Assigned(services, r) <==> exists k :: k in services && LeadsTo(services[k].target, r)
  {
    hide AllNames, Reaches, LeadsTo;
    forall k | k in services
      ensures (exists t :: NamedBy(services, k, t) && Reaches(t, r)) <==> LeadsTo(services[k].target, r)
    {
      NamesLeadTo(services[k], r);
      if t :| t in AllNames(services[k]) && Reaches(t, r) {
        assert NamedBy(services, k, t);
      }
    }
  }

  /** A completed full scan shows no endpoint that some service's target leads to by its address, whatever
      answered there, and none that is ignored. */
  lemma AssignedNotShown(services: Catalog.Services, igs: seq<Ignored>, ds: Catalog.Shelf, fs: seq<Found>, k: string,
                         scheme: string, f: Found)
    requires k in services && scheme in {"http://", "https://"}
    requires WithSlashes(scheme + Endpoint(f.r), services[k].target)
    ensures !Shows(FullScan(ds, Accepted(services, igs, fs)), f.r.ip, f.r.port)
  {
    hide Endpoint, Accepted, FullScan, Wanted;
    FullScanResult(services, igs, ds, fs);
    forall f' | f' in fs && f'.At(f.r.ip, f.r.port) ensures !Wanted(services, igs, f'.r) {
      assert Endpoint(f'.r) == Endpoint(f.r) by {
        SameEnd(f.r, f'.r);
      }
      AssignedIff(services, f'.r);
      assert LeadsTo(services[k].target, f'.r);
      NotWanted(services, igs, f'.r);
    }
  }

  lemma SameEnd(r: ProbeResult, r': ProbeResult)
    requires r'.ip == r.ip && r'.port == r.port
    ensures Endpoint(r') == Endpoint(r)
  {
  }

  lemma NotWanted(services: Catalog.Services, igs: seq<Ignored>, r: ProbeResult)
    requires Assigned(services, r)
    ensures !Wanted(services, igs, r)
  {
  }

  /** The fields of an entry that a scan leaves: its ID from the first result there, the rest from the last. */
  lemma EntryInWords(fs: seq<Found>, d: Discovered)
    requires EntryFor(fs, d)
    ensures exists i, j :: EntryFrom(fs, d, i, j)
  {
    var i := FirstAt(fs, d.ip, d.port);
    var j := LastAt(fs, d.ip, d.port);
    assert EntryFrom(fs, d, i, j);
  }

  ghost predicate EntryFrom(fs: seq<Found>, d: Discovered, i: int, j: int) {
    && 0 <= i <= j < |fs|
    && (forall n | 0 <= n < i || j < n < |fs| :: fs[n].r.ip != d.ip || fs[n].r.port != d.port)
    && fs[j].r.ip == d.ip && fs[j].r.port == d.port
    && d == Discovered(fs[i].id, fs[i].r.ip, fs[i].r.port, fs[j].r.title, fs[j].r.icon, fs[j].r.serviceName,
                       fs[j].r.confidence, "network", "", "", "", fs[j].now)
  }

  lemma {:induction false} FirstAt(fs: seq<Found>, ip: string, port: int) returns (i: int)
    requires First(fs, ip, port).Some?
    ensures 0 <= i < |fs| && fs[i] == First(fs, ip, port).value && forall n | 0 <= n < i :: !fs[n].At(ip, port)
  {
    var init := fs[..|fs| - 1];
    assert fs == init + [fs[|fs| - 1]];
    if First(init, ip, port).Some? {
      i := FirstAt(init, ip, port);
    } else {
      i := |fs| - 1;
      assert forall n | 0 <= n < i :: fs[n] == init[n] && fs[n] in init;
    }
  }

  lemma {:induction false} LastAt(fs: seq<Found>, ip: string, port: int) returns (j: int)
    requires Last(fs, ip, port).Some?
    ensures 0 <= j < |fs| && fs[j] == Last(fs, ip, port).value && forall n | j < n < |fs| :: !fs[n].At(ip, port)
  {
    j := |fs| - 1;
    if !fs[j].At(ip, port) {
      j := LastAt(fs[..j], ip, port);
    }
  }
}
