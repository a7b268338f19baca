/**
 The store without its indexes: what each operation of internal/store/store.go does to the primary
 data, with every lookup a search. The indexed store (module IndexedStore) is proved to do the same.
 */
module Catalog {
  import opened Common
  import opened Entities
  import Text

  function Filter<T>(s: seq<T>, keep: T -> bool): seq<T> {
    if s == [] then [] else (if keep(s[0]) then [s[0]] else []) + Filter(s[1..], keep)
  }

  lemma {:induction false} FilterConcat<T>(a: seq<T>, b: seq<T>, keep: T -> bool)
    ensures Filter(a + b, keep) == Filter(a, keep) + Filter(b, keep)
  {
    if a == [] {
      assert a + b == b;
    } else {
      var first := if keep(a[0]) then [a[0]] else [];
      FilterConcat(a[1..], b, keep);
      assert (a + b)[0] == a[0] && (a + b)[1..] == a[1..] + b;
      assert Filter(a + b, keep) == first + (Filter(a[1..], keep) + Filter(b, keep));
      assert Filter(a, keep) == first + Filter(a[1..], keep);
    }
  }

  lemma FilterSnoc<T>(s: seq<T>, x: T, keep: T -> bool)
    ensures Filter(s + [x], keep) == Filter(s, keep) + if keep(x) then [x] else []
    ensures Filter([], keep) == []
  {
    FilterConcat(s, [x], keep);
  }

  lemma FilterNone<T>(keep: T -> bool)
    ensures Filter([], keep) == []
  {
  }

  lemma {:induction false} FilterMembers<T>(s: seq<T>, keep: T -> bool)
    ensures forall x | x in Filter(s, keep) :: x in s && keep(x)
    ensures forall x | x in s && keep(x) :: x in Filter(s, keep)
  {
    if s != [] {
      FilterMembers(s[1..], keep);
      assert s == [s[0]] + s[1..];
    }
  }

  lemma {:induction false} FilterAll<T>(s: seq<T>, keep: T -> bool)
    requires forall x | x in s :: keep(x)
    ensures Filter(s, keep) == s
  {
    if s != [] {
      FilterAll(s[1..], keep);
    }
  }

  // ---- Services -----------------------------------------------------------------------------------

  type Services = map<string, Service>

  /** Keys are subdomains; service IDs, attached containers and docker container names are unique; and
      only docker services have a container name. */
  ghost predicate Unique(s: Services) {
    && (forall k | k in s :: s[k].subdomain == k)
    && (forall k, l | k in s && l in s && k != l :: Distinct(s[k], s[l]))
    && (forall k | k in s :: Plain(s[k]))
  }

  ghost predicate Distinct(a: Service, b: Service) {
    && a.id != b.id
    && (a.containerID == b.containerID ==> a.containerID == "")
    && (a.containerName == b.containerName ==> a.containerName == "")
  }

  ghost predicate Plain(a: Service) {
    a.source != SOURCE_DOCKER ==> a.containerName == ""
  }

  ghost predicate At(s: Services, k: string, p: Service -> bool) {
    k in s && p(s[k])
  }

  ghost function KeyWhere(s: Services, p: Service -> bool): (r: Option<string>)
    ensures r.Some? ==> At(s, r.value, p)
    ensures r.None? ==> forall k :: !At(s, k, p)
  {
    if k :| At(s, k, p) then Some(k) else None
  }

  ghost function HasID(id: string): Service -> bool {
    (s: Service) => s.id == id
  }

  ghost function HasContainer(cid: string): Service -> bool {
    (s: Service) => s.containerID == cid && cid != ""
  }

  ghost function HasName(name: string): Service -> bool {
    (s: Service) => s.source == SOURCE_DOCKER && s.containerName == name && name != ""
  }

  ghost function FindWhere(s: Services, p: Service -> bool): Option<Service> {
    match KeyWhere(s, p)
    case None => None
    case Some(k) => Some(s[k])
  }

  function AddService(s: Services, svc: Service): Services {
    s[svc.subdomain := svc]
  }

  ghost function UpdateService(s: Services, id: string, updated: Service): Services {
    match KeyWhere(s, HasID(id))
    case None => s
    case Some(k) => (s - {k})[updated.subdomain := updated]
  }

  ghost function DeleteService(s: Services, id: string): Services {
    match KeyWhere(s, HasID(id))
    case None => s
    case Some(k) => s - {k}
  }

  function ClearContainer(s: Services, cid: string): Services {
    map k | k in s :: if cid != "" && s[k].containerID == cid then s[k].(containerID := "") else s[k]
  }

  /** `svc` clashes with nothing among the others. */
  ghost predicate Fits(others: Services, svc: Service) {
    && svc.subdomain !in others
    && (forall k | k in others :: Distinct(others[k], svc))
    && Plain(svc)
  }

  /** Where `svc` goes there is no service with its own ID already. */
  ghost predicate NewAt(s: Services, svc: Service) {
    svc.subdomain in s ==> s[svc.subdomain].id != svc.id
  }

  /** The least that finding a service by its ID needs. */
  ghost predicate DistinctIDs(s: Services) {
    forall k, l | k in s && l in s && k != l :: s[k].id != s[l].id
  }

  lemma KeyByID(s: Services, k: string)
    requires DistinctIDs(s) && k in s
    ensures KeyWhere(s, HasID(s[k].id)) == Some(k)
  {
    assert At(s, k, HasID(s[k].id));
  }

  lemma UniqueKeys(s: Services)
    requires Unique(s)
    ensures forall k | k in s :: s[k].subdomain == k
  {
  }

  lemma UniqueIDs(s: Services)
    requires Unique(s)
    ensures DistinctIDs(s)
  {
    forall k, l | k in s && l in s && k != l ensures s[k].id != s[l].id {
      assert Distinct(s[k], s[l]);
    }
  }

  /** A service found by any of its three unique attributes is the one at its own key. */
  lemma KeyWhereUnique(s: Services, k: string)
    requires Unique(s) && k in s
    ensures KeyWhere(s, HasID(s[k].id)) == Some(k)
    ensures s[k].containerID != "" ==> KeyWhere(s, HasContainer(s[k].containerID)) == Some(k)
    ensures s[k].source == SOURCE_DOCKER && s[k].containerName != "" ==>
              KeyWhere(s, HasName(s[k].containerName)) == Some(k)
  {
    assert At(s, k, HasID(s[k].id));
    if s[k].containerID != "" {
      assert At(s, k, HasContainer(s[k].containerID));
    }
    if s[k].source == SOURCE_DOCKER && s[k].containerName != "" {
      assert At(s, k, HasName(s[k].containerName));
    }
  }

  /** Putting in a service at a free key keeps the collection unique exactly when it fits. */
  lemma AddKeepsUniqueIff(s: Services, svc: Service)
    requires Unique(s) && svc.subdomain !in s
    ensures Unique(AddService(s, svc)) <==> Fits(s, svc)
  {
    var s' := AddService(s, svc);
    forall k | k in s ensures k in s' && s'[k] == s[k] && k != svc.subdomain {
    }
    if Unique(s') {
      forall k | k in s ensures Distinct(s[k], svc) {
        assert Distinct(s'[k], s'[svc.subdomain]);
      }
      assert Plain(s'[svc.subdomain]);
    }
  }

  /** Each service of a unique collection fits among any of the others. */
  lemma FitsAmongDone(s: Services, todo: set<string>, k: string)
    requires Unique(s) && k in s && k in todo
    ensures Fits(s - todo, s[k]) && s[k].subdomain == k
  {
  }

  lemma RemoveKeepsUnique(s: Services, k: string)
    requires Unique(s)
    ensures Unique(s - {k})
  {
  }

  lemma ClearKeepsUnique(s: Services, cid: string)
    requires Unique(s)
    ensures Unique(ClearContainer(s, cid))
  {
    var s' := ClearContainer(s, cid);
    forall k, l | k in s' && l in s' && k != l ensures Distinct(s'[k], s'[l]) {
      assert Distinct(s[k], s[l]);
    }
    forall k | k in s' ensures Plain(s'[k]) {
      assert Plain(s[k]);
    }
  }

  /** Replacing the service with a given ID keeps the collection unique exactly when the replacement
      fits among the others. */
  lemma UpdateKeepsUniqueIff(s: Services, k: string, updated: Service)
    requires Unique(s) && k in s && updated.subdomain !in s - {k}
    ensures UpdateService(s, s[k].id, updated) == AddService(s - {k}, updated)
    ensures Unique(UpdateService(s, s[k].id, updated)) <==> Fits(s - {k}, updated)
  {
    KeyWhereUnique(s, k);
    RemoveKeepsUnique(s, k);
    AddKeepsUniqueIff(s - {k}, updated);
  }

  // ---- Discovered entries ---------------------------------------------------------------------------

  type Shelf = seq<Discovered>

  function NotID(id: string): Discovered -> bool {
    (d: Discovered) => d.id != id
  }

  function NotContainer(cid: string): Discovered -> bool {
    (d: Discovered) => d.containerID != cid
  }

  function NotNetwork(): Discovered -> bool {
    (d: Discovered) => d.source != SOURCE_NETWORK
  }

  predicate SameEndpoint(d: Discovered, ip: string, port: int) {
    d.ip == ip && d.port == port
  }

  predicate Duplicate(ds: Shelf, d: Discovered) {
    (d.containerID != "" && exists i | 0 <= i < |ds| :: ds[i].containerID == d.containerID) ||
    (exists i | 0 <= i < |ds| :: SameEndpoint(ds[i], d.ip, d.port))
  }

  function AddDiscovered(ds: Shelf, d: Discovered): Shelf {
    if Duplicate(ds, d) then ds else ds + [d]
  }

  function RemoveDiscovered(ds: Shelf, id: string): Shelf {
    Filter(ds, NotID(id))
  }

  function RemoveByContainer(ds: Shelf, cid: string): Shelf {
    Filter(ds, NotContainer(cid))
  }

  function ClearNetwork(ds: Shelf): Shelf {
    Filter(ds, NotNetwork())
  }

  /** The fields a re-probe overwrites; the ID and the rest stay. */
  function Refreshed(existing: Discovered, svc: Discovered): Discovered {
    existing.(title := svc.title, icon := svc.icon, serviceName := svc.serviceName,
              suggestedSubdomain := svc.suggestedSubdomain, confidence := svc.confidence,
              discoveredAt := svc.discoveredAt)
  }

  predicate NetworkAt(d: Discovered, ip: string, port: int) {
    d.source == SOURCE_NETWORK && SameEndpoint(d, ip, port)
  }

  function UpsertNetwork(ds: Shelf, svc: Discovered): Shelf {
    if ds == [] then [svc]
    else if NetworkAt(ds[0], svc.ip, svc.port) then [Refreshed(ds[0], svc)] + ds[1..]
    else [ds[0]] + UpsertNetwork(ds[1..], svc)
  }

  /** The entry is one of the network's, at the endpoint. */
  predicate ProbedAt(ds: Shelf, i: int, ip: string, port: int) {
    0 <= i < |ds| && ds[i].source == "network" && ds[i].ip == ip && ds[i].port == port
  }

  /** Upserting overwrites the first network entry at the endpoint, `i`, but for its ID and container, or
      appends where there is none. */
  lemma {:induction false} UpsertInWords(ds: Shelf, svc: Discovered) returns (i: nat)
    ensures i <= |ds| && forall j | 0 <= j < i :: !ProbedAt(ds, j, svc.ip, svc.port)
    ensures i == |ds| ==> UpsertNetwork(ds, svc) == ds + [svc]
    ensures i < |ds| ==> ProbedAt(ds, i, svc.ip, svc.port) && UpsertNetwork(ds, svc) == ds[i := Refreshed(ds[i], svc)]
  {
    hide Refreshed;
    i := 0;
    if ds != [] && !NetworkAt(ds[0], svc.ip, svc.port) {
      var rest := ds[1..];
      var k := UpsertInWords(rest, svc);
      i := k + 1;
      forall j | 1 <= j < i ensures !ProbedAt(ds, j, svc.ip, svc.port) {
        assert !ProbedAt(rest, j - 1, svc.ip, svc.port);
      }
      assert k < |rest| ==> ds[i := Refreshed(ds[i], svc)] == [ds[0]] + rest[k := Refreshed(rest[k], svc)];
    }
  }

  lemma RefreshedInWords(was: Discovered, svc: Discovered)
    ensures Refreshed(was, svc) ==
            Discovered(was.id, was.ip, was.port, svc.title, svc.icon, svc.serviceName, svc.confidence, was.source,
                       was.containerName, was.containerID, svc.suggestedSubdomain, svc.discoveredAt)
  {
  }

  function SetIcon(ds: Shelf, id: string, icon: string): Shelf {
    seq(|ds|, i requires 0 <= i < |ds| => if ds[i].id == id then ds[i].(icon := icon) else ds[i])
  }

  /** The entry with the ID gets the icon, and nothing else changes. */
  lemma IconInWords(s: Shelves, i: nat, icon: string)
    requires UniqueShelf(s.discovered) && i < |s.discovered|
    ensures var d := s.discovered[i];
      Step(Icon(d.id, icon), s) ==
      s.(discovered := s.discovered[i := Discovered(d.id, d.ip, d.port, d.title, icon, d.serviceName, d.confidence,
                                                    d.source, d.containerName, d.containerID, d.suggestedSubdomain,
                                                    d.discoveredAt)])
  {
    var ds := s.discovered;
    forall j | 0 <= j < |ds| && j != i ensures ds[j].id != ds[i].id {
      assert if i < j then Apart(ds[i], ds[j]) else Apart(ds[j], ds[i]);
    }
  }

  ghost predicate Apart(a: Discovered, b: Discovered) {
    && a.id != b.id
    && (a.containerID == b.containerID ==> a.containerID == "")
    && !(a.source == b.source && SameEndpoint(a, b.ip, b.port))
  }

  /** Entries differ in ID, in container (if any), and in (source, address, port). */
  ghost predicate UniqueShelf(ds: Shelf) {
    forall i, j | 0 <= i < j < |ds| :: Apart(ds[i], ds[j])
  }

  lemma {:induction false} FilterKeepsUnique(ds: Shelf, keep: Discovered -> bool)
    requires UniqueShelf(ds)
    ensures UniqueShelf(Filter(ds, keep))
  {
    if ds != [] {
      FilterKeepsUnique(ds[1..], keep);
      FilterMembers(ds[1..], keep);
      var rest := Filter(ds[1..], keep);
      forall j | 0 <= j < |rest| ensures Apart(ds[0], rest[j]) {
        assert rest[j] in ds[1..];
      }
    }
  }

  lemma {:induction false} UpsertMembers(ds: Shelf, svc: Discovered)
    ensures (exists i | 0 <= i < |ds| :: NetworkAt(ds[i], svc.ip, svc.port)) ==> |UpsertNetwork(ds, svc)| == |ds|
    ensures (forall i | 0 <= i < |ds| :: !NetworkAt(ds[i], svc.ip, svc.port)) ==> UpsertNetwork(ds, svc) == ds + [svc]
    ensures |ds| <= |UpsertNetwork(ds, svc)| <= |ds| + 1
    ensures forall i | 0 <= i < |ds| ::
              UpsertNetwork(ds, svc)[i] == ds[i] ||
              (NetworkAt(ds[i], svc.ip, svc.port) && UpsertNetwork(ds, svc)[i] == Refreshed(ds[i], svc))
  {
    if ds != [] && !NetworkAt(ds[0], svc.ip, svc.port) {
      UpsertMembers(ds[1..], svc);
      assert ds == [ds[0]] + ds[1..];
      if i :| 0 <= i < |ds| && NetworkAt(ds[i], svc.ip, svc.port) {
        assert ds[1..][i - 1] == ds[i];
      }
    }
  }

  lemma {:induction false} UpsertFinds(ds: Shelf, svc: Discovered, i: nat)
    requires i < |ds| && NetworkAt(ds[i], svc.ip, svc.port)
    requires forall j | 0 <= j < i :: !NetworkAt(ds[j], svc.ip, svc.port)
    ensures UpsertNetwork(ds, svc) == ds[i := Refreshed(ds[i], svc)]
  {
    if i > 0 {
      UpsertFinds(ds[1..], svc, i - 1);
    }
  }

  /** The entry at `i` is the one for svc's endpoint and has this ID. */
  predicate Upserted(ds: Shelf, svc: Discovered, id: string, i: int) {
    0 <= i < |ds| && ds[i].id == id && NetworkAt(ds[i], svc.ip, svc.port)
  }

  ghost predicate UpsertedID(ds: Shelf, svc: Discovered, id: string) {
    exists i :: Upserted(ds, svc, id, i)
  }

  lemma NetworkAtIs(d: Discovered, ip: string, port: int)
    ensures NetworkAt(d, ip, port) <==> d.source == SOURCE_NETWORK && d.ip == ip && d.port == port
  {
  }

  lemma UpsertedHere(ds: Shelf, svc: Discovered, i: nat)
    requires i < |ds| && NetworkAt(ds[i], svc.ip, svc.port)
    ensures UpsertedID(ds[i := Refreshed(ds[i], svc)], svc, ds[i].id)
  {
    assert Upserted(ds[i := Refreshed(ds[i], svc)], svc, ds[i].id, i);
  }

  lemma UpsertedLast(ds: Shelf, svc: Discovered)
    ensures svc.source == SOURCE_NETWORK ==> UpsertedID(ds + [svc], svc, svc.id)
  {
    assert svc.source == SOURCE_NETWORK ==> Upserted(ds + [svc], svc, svc.id, |ds|);
  }

  // ---- Discovered and ignored entries together ----------------------------------------------------------

  /** `keys` is the "ip:port" set the store keeps beside the ignored list; it is not always a function
      of the list (see KeysExactIff). */
  datatype Shelves = Shelves(discovered: Shelf, ignored: seq<Ignored>, keys: set<string>)

  function KeyOf(ig: Ignored): string {
    Text.Key(ig.ip, ig.port)
  }

  function NotIgnoredID(id: string): Ignored -> bool {
    (ig: Ignored) => ig.id != id
  }

  function Find<T>(s: seq<T>, p: T -> bool): (r: Option<T>)
    ensures r.Some? ==> r.value in s && p(r.value)
    ensures r.None? ==> forall i | 0 <= i < |s| :: !p(s[i])
  {
    if s == [] then None else if p(s[0]) then Some(s[0]) else Find(s[1..], p)
  }

  function IsID(id: string): Discovered -> bool {
    (d: Discovered) => d.id == id
  }

  function IsIgnoredID(id: string): Ignored -> bool {
    (ig: Ignored) => ig.id == id
  }

  function ToIgnored(d: Discovered, now: int): Ignored {
    Ignored(d.id, d.ip, d.port, d.title, now)
  }

  /** What the unignore handler puts back (internal/web/handle_discovery.go:110-117). */
  function ToDiscovered(ig: Ignored, now: int): Discovered {
    Discovered(ig.id, ig.ip, ig.port, ig.title, "", "", 0, SOURCE_NETWORK, "", "", "", now)
  }

  function Ignore(s: Shelves, id: string, now: int): Shelves {
    match Find(s.discovered, IsID(id))
    case None => s
    case Some(d) =>
      var ig := ToIgnored(d, now);
      Shelves(RemoveDiscovered(s.discovered, id), s.ignored + [ig], s.keys + {KeyOf(ig)})
  }

  function Unignore(s: Shelves, id: string): Shelves {
    match Find(s.ignored, IsIgnoredID(id))
    case None => s
    case Some(ig) => s.(ignored := Filter(s.ignored, NotIgnoredID(id)), keys := s.keys - {KeyOf(ig)})
  }

  /** The unignore handler: take the entry off the ignored list and put it back as discovered. */
  function Restore(s: Shelves, id: string, now: int): Shelves {
    match Find(s.ignored, IsIgnoredID(id))
    case None => s
    case Some(ig) =>
      var s' := Unignore(s, id);
      s'.(discovered := AddDiscovered(s'.discovered, ToDiscovered(ig, now)))
  }

  predicate IsIgnored(s: Shelves, ip: string, port: int) {
    Text.Key(ip, port) in s.keys
  }

  datatype Op =
    | Add(d: Discovered)
    | Remove(id: string)
    | RemoveContainer(cid: string)
    | Clear
    | Upsert(d: Discovered)
    | Icon(id: string, icon: string)
    | IgnoreOp(id: string, now: int)
    | UnignoreOp(id: string)
    | RestoreOp(id: string, now: int)

  function Step(op: Op, s: Shelves): Shelves {
    match op
    case Add(d) => s.(discovered := AddDiscovered(s.discovered, d))
    case Remove(id) => s.(discovered := RemoveDiscovered(s.discovered, id))
    case RemoveContainer(cid) => s.(discovered := RemoveByContainer(s.discovered, cid))
    case Clear => s.(discovered := ClearNetwork(s.discovered))
    case Upsert(d) => s.(discovered := UpsertNetwork(s.discovered, d))
    case Icon(id, icon) => s.(discovered := SetIcon(s.discovered, id, icon))
    case IgnoreOp(id, now) => Ignore(s, id, now)
    case UnignoreOp(id) => Unignore(s, id)
    case RestoreOp(id, now) => Restore(s, id, now)
  }

  ghost predicate FreshID(s: Shelves, id: string) {
    (forall d | d in s.discovered :: d.id != id) && (forall ig | ig in s.ignored :: ig.id != id)
  }

  /** New entries have new IDs, and only network entries are upserted. */
  ghost predicate Allowed(op: Op, s: Shelves) {
    match op
    case Add(d) => FreshID(s, d.id)
    case Upsert(d) => FreshID(s, d.id) && d.source == SOURCE_NETWORK && d.containerID == ""
    case _ => true
  }

  ghost predicate UniqueIgnored(igs: seq<Ignored>) {
    forall i, j | 0 <= i < j < |igs| :: igs[i].id != igs[j].id
  }

  ghost predicate Disjoint(s: Shelves) {
    forall d, ig | d in s.discovered && ig in s.ignored :: d.id != ig.id
  }

  /** A key in the set always has an ignored entry behind it. */
  ghost predicate KeysWitnessed(s: Shelves) {
    forall key | key in s.keys :: exists ig :: KeyHeld(s.ignored, ig, key)
  }

  ghost predicate KeyHeld(igs: seq<Ignored>, ig: Ignored, key: string) {
    ig in igs && KeyOf(ig) == key
  }

  ghost predicate Orderly(s: Shelves) {
    UniqueShelf(s.discovered) && UniqueIgnored(s.ignored) && Disjoint(s) && KeysWitnessed(s)
  }

  /** Every ignored entry's key is in the set. */
  ghost predicate KeysExact(s: Shelves) {
    forall ig | ig in s.ignored :: KeyOf(ig) in s.keys
  }

  lemma {:induction false} FilterKeepsUniqueIgnored(igs: seq<Ignored>, id: string)
    requires UniqueIgnored(igs)
    ensures UniqueIgnored(Filter(igs, NotIgnoredID(id)))
  {
    if igs != [] {
      FilterKeepsUniqueIgnored(igs[1..], id);
      FilterMembers(igs[1..], NotIgnoredID(id));
      var rest := Filter(igs[1..], NotIgnoredID(id));
      forall j | 0 <= j < |rest| ensures rest[j].id != igs[0].id {
        assert rest[j] in igs[1..];
      }
    }
  }

  lemma UpsertKeepsUnique(ds: Shelf, svc: Discovered)
    requires UniqueShelf(ds) && svc.source == SOURCE_NETWORK && svc.containerID == ""
    requires forall d | d in ds :: d.id != svc.id
    ensures UniqueShelf(UpsertNetwork(ds, svc))
    ensures forall d | d in UpsertNetwork(ds, svc) :: d.id == svc.id || exists c :: c in ds && c.id == d.id
  {
    UpsertMembers(ds, svc);
    var ds' := UpsertNetwork(ds, svc);
    if i :| 0 <= i < |ds| && NetworkAt(ds[i], svc.ip, svc.port) {
      forall j, k | 0 <= j < k < |ds'| ensures Apart(ds'[j], ds'[k]) {
        assert Apart(ds[j], ds[k]);
      }
      forall d | d in ds' ensures exists c :: c in ds && c.id == d.id {
        var j :| 0 <= j < |ds'| && ds'[j] == d;
        assert ds[j] in ds && ds[j].id == d.id;
      }
    }
  }

  lemma IgnoreKeepsOrder(s: Shelves, id: string, now: int)
    requires Orderly(s)
    ensures Orderly(Ignore(s, id, now))
    ensures KeysExact(s) ==> KeysExact(Ignore(s, id, now))
  {
    FilterKeepsUnique(s.discovered, NotID(id));
    FilterMembers(s.discovered, NotID(id));
    var s' := Ignore(s, id, now);
    match Find(s.discovered, IsID(id)) {
      case None =>
      case Some(d) =>
        forall key | key in s'.keys ensures exists ig :: KeyHeld(s'.ignored, ig, key) {
          if key in s.keys {
            var ig :| KeyHeld(s.ignored, ig, key);
            assert KeyHeld(s'.ignored, ig, key);
          } else {
            assert KeyHeld(s'.ignored, ToIgnored(d, now), key);
          }
        }
    }
  }

  lemma UnignoreKeepsOrder(s: Shelves, id: string)
    requires Orderly(s)
    ensures Orderly(Unignore(s, id))
    ensures forall ig | ig in Unignore(s, id).ignored :: ig in s.ignored && ig.id != id
  {
    FilterKeepsUniqueIgnored(s.ignored, id);
    FilterMembers(s.ignored, NotIgnoredID(id));
    var s' := Unignore(s, id);
    match Find(s.ignored, IsIgnoredID(id)) {
      case None =>
      case Some(gone) =>
        forall key | key in s'.keys ensures exists ig :: KeyHeld(s'.ignored, ig, key) {
          var ig :| KeyHeld(s.ignored, ig, key);
          assert KeyHeld(s'.ignored, ig, key);
        }
    }
  }

  /** An un-ignored ID is free to be used for the discovered entry. */
  lemma UnignoredIsFresh(s: Shelves, id: string)
    requires Orderly(s) && Find(s.ignored, IsIgnoredID(id)).Some?
    ensures FreshID(Unignore(s, id), id)
  {
    FilterMembers(s.ignored, NotIgnoredID(id));
  }

  lemma StepOrderly(op: Op, s: Shelves)
    requires Orderly(s) && Allowed(op, s)
    ensures Orderly(Step(op, s))
  {
    match op {
      case Add(d) =>
      case Remove(id) =>
        FilterKeepsUnique(s.discovered, NotID(id));
        FilterMembers(s.discovered, NotID(id));
      case RemoveContainer(cid) =>
        FilterKeepsUnique(s.discovered, NotContainer(cid));
        FilterMembers(s.discovered, NotContainer(cid));
      case Clear =>
        FilterKeepsUnique(s.discovered, NotNetwork());
        FilterMembers(s.discovered, NotNetwork());
      case Upsert(d) =>
        UpsertKeepsUnique(s.discovered, d);
      case Icon(id, icon) =>
        IconKeepsUnique(s.discovered, id, icon);
      case IgnoreOp(id, now) =>
        IgnoreKeepsOrder(s, id, now);
      case UnignoreOp(id) =>
        UnignoreKeepsOrder(s, id);
      case RestoreOp(id, now) =>
        UnignoreKeepsOrder(s, id);
    }
  }

  lemma UpsertOrderly(s: Shelves, d: Discovered)
    requires Orderly(s)
    ensures Allowed(Upsert(d), s) ==> Orderly(s.(discovered := UpsertNetwork(s.discovered, d)))
  {
    if Allowed(Upsert(d), s) {
      StepOrderly(Upsert(d), s);
    }
  }

  lemma IconKeepsUnique(ds: Shelf, id: string, icon: string)
    requires UniqueShelf(ds)
    ensures UniqueShelf(SetIcon(ds, id, icon))
    ensures forall d | d in SetIcon(ds, id, icon) :: exists c :: c in ds && c.id == d.id
  {
  }

  function StepAll(ops: seq<Op>, s: Shelves): Shelves {
    if ops == [] then s else StepAll(ops[1..], Step(ops[0], s))
  }

  ghost predicate AllowedAll(ops: seq<Op>, s: Shelves) {
    ops == [] || (Allowed(ops[0], s) && AllowedAll(ops[1..], Step(ops[0], s)))
  }

  /** Over every run: entries stay unique per ID, per container and per (source, address, port), no ID
      is both discovered and ignored, and every key in the set has an ignored entry behind it. */
  lemma {:induction false} RunOrderly(ops: seq<Op>, s: Shelves)
    requires Orderly(s) && AllowedAll(ops, s)
    ensures Orderly(StepAll(ops, s))
  {
    if ops != [] {
      StepOrderly(ops[0], s);
      RunOrderly(ops[1..], Step(ops[0], s));
    }
  }

  /** Un-ignoring this ID drops a key that another ignored entry still needs. */
  ghost predicate DropsSharedKey(op: Op, s: Shelves) {
    (op.UnignoreOp? || op.RestoreOp?) &&
    exists a, b :: a in s.ignored && b in s.ignored && a.id == op.id && b.id != op.id && KeyOf(a) == KeyOf(b)
  }

  /** The key set goes on answering for exactly the ignored entries, except that un-ignoring one of two
      entries with the same address and port makes it forget the other. */
  lemma KeysExactIff(op: Op, s: Shelves)
    requires Orderly(s) && KeysExact(s)
    ensures KeysExact(Step(op, s)) <==> !DropsSharedKey(op, s)
  {
    match op {
      case IgnoreOp(id, now) =>
        IgnoreKeepsOrder(s, id, now);
      case UnignoreOp(id) =>
        UnignoreExactIff(op, s, id);
      case RestoreOp(id, now) =>
        UnignoreExactIff(op, s, id);
        assert Step(op, s).ignored == Unignore(s, id).ignored && Step(op, s).keys == Unignore(s, id).keys;
      case _ =>
    }
  }

  lemma UnignoreExactIff(op: Op, s: Shelves, id: string)
    requires Orderly(s) && KeysExact(s) && (op.UnignoreOp? || op.RestoreOp?) && op.id == id
    ensures KeysExact(Unignore(s, id)) <==> !DropsSharedKey(op, s)
  {
    FilterMembers(s.ignored, NotIgnoredID(id));
    match Find(s.ignored, IsIgnoredID(id)) {
      case None =>
      case Some(ig) =>
        forall a | a in s.ignored && a.id == id ensures a == ig {
        }
    }
  }

  /** With distinct endpoints on the ignored list, IsIgnored answers exactly for its entries. */
  lemma IsIgnoredExact(s: Shelves, ip: string, port: int)
    requires Orderly(s) && KeysExact(s)
    ensures IsIgnored(s, ip, port) <==> exists ig :: ig in s.ignored && ig.ip == ip && ig.port == port
  {
    if IsIgnored(s, ip, port) {
      var ig :| KeyHeld(s.ignored, ig, Text.Key(ip, port));
      Text.KeyInjective(ig.ip, ig.port, ip, port);
    }
  }

  /** The unignore handler never loses the endpoint: it ends up discovered and not ignored, even when
      an entry for it is already there and the new one is dropped as a duplicate. */
  lemma RestoreBringsBack(s: Shelves, ig: Ignored, now: int)
    requires Orderly(s) && ig in s.ignored
    ensures var s' := Restore(s, ig.id, now);
      && (exists i | 0 <= i < |s'.discovered| :: SameEndpoint(s'.discovered[i], ig.ip, ig.port))
      && !IsIgnored(s', ig.ip, ig.port)
  {
    var found := Find(s.ignored, IsIgnoredID(ig.id));
    assert found == Some(ig);
    var s' := Restore(s, ig.id, now);
    var d := ToDiscovered(ig, now);
    if !Duplicate(s.discovered, d) {
      assert SameEndpoint(s'.discovered[|s'.discovered| - 1], ig.ip, ig.port);
    }
  }

  /** Clearing takes out the network's entries and no other, and leaves the ignored list alone. */
  lemma ClearedInWords(s: Shelves)
    ensures var s' := Step(Clear, s);
      && s' == s.(discovered := s'.discovered)
      && forall d :: d in s'.discovered <==> d in s.discovered && d.source != "network"
  {
    FilterMembers(s.discovered, NotNetwork());
  }

  /** What un-ignoring puts on the list: an entry of the network, under the old ID, with address, port and title
      alone, unless another entry has the endpoint. */
  lemma RestoredInWords(s: Shelves, ig: Ignored, now: int)
    requires Orderly(s) && ig in s.ignored
    ensures var s' := Restore(s, ig.id, now);
      && (forall x :: x in s'.ignored <==> x in s.ignored && x != ig)
      && s'.discovered ==
         if exists d :: d in s.discovered && d.ip == ig.ip && d.port == ig.port then s.discovered
         else s.discovered + [Discovered(ig.id, ig.ip, ig.port, ig.title, "", "", 0, "network", "", "", "", now)]
  {
    assert Find(s.ignored, IsIgnoredID(ig.id)) == Some(ig);
    FilterMembers(s.ignored, NotIgnoredID(ig.id));
    forall x | x in s.ignored && x.id == ig.id ensures x == ig {
      assert Find(s.ignored, IsIgnoredID(x.id)) == Some(x);
    }
    assert (exists d :: d in s.discovered && d.ip == ig.ip && d.port == ig.port) <==>
           exists i | 0 <= i < |s.discovered| :: SameEndpoint(s.discovered[i], ig.ip, ig.port);
  }

  lemma FindByID(ds: Shelf, d: Discovered)
    requires UniqueShelf(ds) && d in ds
    ensures Find(ds, IsID(d.id)) == Some(d)
  {
  }

  /** Ignoring a discovered endpoint and then un-ignoring it, whatever allowed operations come between
      as long as they do not un-ignore it, brings the endpoint back. */
  lemma {:induction false} IgnoreThenRestore(s: Shelves, d: Discovered, now: int, between: seq<Op>, later: int)
    requires Orderly(s) && d in s.discovered
    requires AllowedAll(between, Ignore(s, d.id, now))
    requires forall i | 0 <= i < |between| ::
               (between[i].UnignoreOp? || between[i].RestoreOp?) ==> between[i].id != d.id
    ensures var s' := Restore(StepAll(between, Ignore(s, d.id, now)), d.id, later);
      && (exists i | 0 <= i < |s'.discovered| :: SameEndpoint(s'.discovered[i], d.ip, d.port))
      && !IsIgnored(s', d.ip, d.port)
  {
    FindByID(s.discovered, d);
    var s1 := Ignore(s, d.id, now);
    IgnoreKeepsOrder(s, d.id, now);
    StaysIgnored(between, s1, ToIgnored(d, now));
    RunOrderly(between, s1);
    RestoreBringsBack(StepAll(between, s1), ToIgnored(d, now), later);
  }

  lemma {:induction false} StaysIgnored(ops: seq<Op>, s: Shelves, ig: Ignored)
    requires ig in s.ignored
    requires forall i | 0 <= i < |ops| :: (ops[i].UnignoreOp? || ops[i].RestoreOp?) ==> ops[i].id != ig.id
    ensures ig in StepAll(ops, s).ignored
  {
    if ops != [] {
      if ops[0].UnignoreOp? || ops[0].RestoreOp? {
        FilterMembers(s.ignored, NotIgnoredID(ops[0].id));
      }
      StaysIgnored(ops[1..], Step(ops[0], s), ig);
    }
  }

  // ---- Bookmarks and display order --------------------------------------------------------------------

  ghost predicate UniqueBookmarks(bs: seq<Bookmark>) {
    forall i, j | 0 <= i < j < |bs| :: bs[i].id != bs[j].id
  }

  ghost predicate BookmarkAt(bs: seq<Bookmark>, i: int, id: string) {
    0 <= i < |bs| && bs[i].id == id
  }

  /** The last position of `id` in `ids`; `otherwise` when it is not there. */
  function LastPosition(ids: seq<string>, id: string, otherwise: int): int {
    if ids == [] then otherwise
    else if ids[|ids| - 1] == id then |ids| - 1
    else LastPosition(ids[..|ids| - 1], id, otherwise)
  }

  function Reorder(s: Services, ids: seq<string>): Services {
    map k | k in s :: s[k].(order := LastPosition(ids, s[k].id, s[k].order))
  }

  /** The keys rebuildIndexes computes from the ignored list. */
  function KeysOf(igs: seq<Ignored>): set<string> {
    set i | 0 <= i < |igs| :: KeyOf(igs[i])
  }

  /** Rebuilding leaves the key set as it is exactly when no key has been dropped. */
  lemma RebuiltKeysIff(s: Shelves)
    requires Orderly(s)
    ensures KeysOf(s.ignored) == s.keys <==> KeysExact(s)
  {
  }

  lemma KeysOfSnoc(igs: seq<Ignored>, n: nat)
    requires n < |igs|
    ensures KeysOf(igs[..n + 1]) == KeysOf(igs[..n]) + {KeyOf(igs[n])}
  {
    assert igs[..n + 1][n] == igs[n];
    forall key | key in KeysOf(igs[..n]) ensures key in KeysOf(igs[..n + 1]) {
      var i :| 0 <= i < n && KeyOf(igs[..n][i]) == key;
      assert igs[..n + 1][i] == igs[..n][i];
    }
    forall key | key in KeysOf(igs[..n + 1]) ensures key in KeysOf(igs[..n]) + {KeyOf(igs[n])} {
      var i :| 0 <= i <= n && KeyOf(igs[..n + 1][i]) == key;
      if i < n {
        assert igs[..n + 1][i] == igs[..n][i];
      }
    }
  }

  /** One more ID in the list moves the one service that has it. */
  lemma ReorderNext(s: Services, ids: seq<string>, j: nat, was: Services)
    requires j < |ids| && was == Reorder(s, ids[..j]) && Unique(was)
    ensures var k := KeyWhere(was, HasID(ids[j]));
      Reorder(s, ids[..j + 1]) == if k.Some? then was[k.value := was[k.value].(order := j)] else was
    ensures Unique(s)
  {
    ReorderedUnique(s, ids[..j]);
    UniqueIDs(was);
    hide Unique;
    assert ids[..j + 1][..j] == ids[..j];
    var k := KeyWhere(was, HasID(ids[j]));
    forall l | l in was ensures was[l].id == ids[j] <==> k == Some(l) {
      if was[l].id == ids[j] {
        KeyByID(was, l);
      }
    }
  }

  lemma ReorderedUnique(s: Services, ids: seq<string>)
    requires Unique(Reorder(s, ids))
    ensures Unique(s)
  {
    var was := Reorder(s, ids);
    forall l, m | l in s && m in s && l != m ensures Distinct(s[l], s[m]) {
      assert Distinct(was[l], was[m]);
    }
    forall l | l in s ensures Plain(s[l]) && s[l].subdomain == l {
      assert Plain(was[l]) && was[l].subdomain == l;
    }
  }

  lemma ReorderKeepsUnique(s: Services, ids: seq<string>)
    requires Unique(s)
    ensures Unique(Reorder(s, ids))
  {
  }

  /** A key set computed from the list is right for it. */
  lemma FullKeys(s: Shelves)
    requires s.keys == KeysOf(s.ignored)
    ensures KeysWitnessed(s) && KeysExact(s)
  {
    forall key | key in s.keys ensures exists ig :: KeyHeld(s.ignored, ig, key) {
      var i :| 0 <= i < |s.ignored| && KeyOf(s.ignored[i]) == key;
      assert KeyHeld(s.ignored, s.ignored[i], key);
    }
    forall ig | ig in s.ignored ensures KeyOf(ig) in s.keys {
      var i :| 0 <= i < |s.ignored| && s.ignored[i] == ig;
    }
  }
}
