/**
 The Cloudflare side (a zone's DNS records and one tunnel's ingress list) and what
 each client operation does to it (internal/cf/cf.go, internal/cf/tunnel.go).

 Every API request may succeed, be refused, or take effect although its answer is lost. A World
 fixes which of these happens to the n-th request, the ID the n-th request's new record gets, and
 which of several same-named records a listing puts first. Statements for all worlds therefore
 cover every pattern of failures.
 */
module Cloudflare {
  import opened Common
  import opened Ingress

  datatype RecordType = A | CNAME

  datatype Record = Record(kind: RecordType, name: string, content: string)

  datatype Remote = Remote(records: map<string, Record>, ingress: seq<Rule>, calls: nat)

  datatype Outcome = Done | Refused | Lost

  datatype World = World(
    outcome: nat -> Outcome,
    newId: nat -> string,
    first: (nat, set<string>) -> string)

  /** A listing's first entry is one of its entries. */
  ghost predicate Lists(w: World) {
    forall n: nat, s: set<string> | s != {} :: w.first(n, s) in s
  }

  /** The IDs still to be handed out are non-empty, unused and pairwise different. */
  ghost predicate FreshIds(w: World, r: Remote) {
    && (forall n: nat | r.calls <= n :: w.newId(n) != "" && w.newId(n) !in r.records)
    && (forall m: nat, n: nat | r.calls <= m < n :: w.newId(m) != w.newId(n))
  }

  ghost predicate AllDone(w: World) {
    forall n: nat :: w.outcome(n).Done?
  }

  /** The client's configuration: internal/cf/cf.go:17-24. */
  datatype Account = Account(noop: bool, zoneID: string, accountID: string, tunnelID: string) {
    predicate TunnelEnabled() {
      !noop && tunnelID != "" && accountID != ""
    }

    /** New leaves the client a no-op unless there is a zone. */
    predicate Valid() {
      noop || zoneID != ""
    }

    function Endpoint(): string {
      tunnelID + ".cfargotunnel.com"
    }
  }

  datatype Found = Failed | Absent | At(id: string, content: string)

  // ---- One API request ----------------------------------------------------------------------

  function Post(w: World, r: Remote, rec: Record): (Remote, Option<string>) {
    var id := w.newId(r.calls);
    var next := r.(calls := r.calls + 1);
    match w.outcome(r.calls)
    case Done => (next.(records := r.records[id := rec]), Some(id))
    case Refused => (next, None)
    case Lost => (next.(records := r.records[id := rec]), None)
  }

  function Delete(w: World, r: Remote, id: string): (Remote, bool) {
    var next := r.(calls := r.calls + 1);
    match w.outcome(r.calls)
    case Done => (next.(records := r.records - {id}), id in r.records)
    case Refused => (next, false)
    case Lost => (next.(records := r.records - {id}), false)
  }

  function Patch(w: World, r: Remote, id: string, content: string): (Remote, bool) {
    var next := r.(calls := r.calls + 1);
    if w.outcome(r.calls).Refused? || id !in r.records then (next, false)
    else (next.(records := r.records[id := r.records[id].(content := content)]), w.outcome(r.calls).Done?)
  }

  function List(w: World, r: Remote, name: string): (Remote, Found) {
    var next := r.(calls := r.calls + 1);
    var hits := set id | id in r.records && r.records[id].name == name;
    if !w.outcome(r.calls).Done? then (next, Failed)
    else if hits == {} then (next, Absent)
    else
      var id := w.first(r.calls, hits);
      (next, if id in r.records then At(id, r.records[id].content) else Absent)
  }

  /** modifyIngress: one read and one write of the tunnel configuration. */
  function EditIngress(w: World, r: Remote, edit: Edit): (Remote, bool) {
    var read := r.(calls := r.calls + 1);
    if !w.outcome(r.calls).Done? then (read, false)
    else
      var written := read.(calls := read.calls + 1);
      match w.outcome(read.calls)
      case Done => (written.(ingress := Edited(edit, r.ingress)), true)
      case Refused => (written, false)
      case Lost => (written.(ingress := Edited(edit, r.ingress)), false)
  }

  // ---- The client's operations, as functions of the remote state ---------------------------------
  // None as a second component is an error return.

  function CreateRecord(w: World, a: Account, r: Remote, name: string, ip: string): (Remote, Option<string>) {
    if a.noop then (r, Some("")) else Post(w, r, Record(A, name, ip))
  }

  function DeleteRecord(w: World, a: Account, r: Remote, id: string): (Remote, bool) {
    if a.noop then (r, true) else Delete(w, r, id)
  }

  function FindRecord(w: World, a: Account, r: Remote, name: string): (Remote, Found) {
    if a.noop then (r, Absent) else List(w, r, name)
  }

  function CreateCNAME(w: World, a: Account, r: Remote, hostname: string): (Remote, Option<string>) {
    if a.noop || a.zoneID == "" then (r, Some(""))
    else Post(w, r, Record(CNAME, hostname, a.Endpoint()))
  }

  function EnsureARecord(w: World, a: Account, r: Remote, name: string, ip: string): (Remote, bool) {
    if a.noop then (r, true)
    else
      var (r1, found) := FindRecord(w, a, r, name);
      match found
      case Failed => (r1, false)
      case Absent => var (r2, id) := CreateRecord(w, a, r1, name, ip); (r2, id.Some?)
      case At(id, content) =>
        if id == "" then var (r2, made) := CreateRecord(w, a, r1, name, ip); (r2, made.Some?)
        else if content == ip then (r1, true)
        else Patch(w, r1, id, ip)
  }

  function DeleteIfFound(w: World, a: Account, r: Remote, found: Found): Remote {
    if found.At? && found.id != "" then DeleteRecord(w, a, r, found.id).0 else r
  }

  function AddTunnelRoute(w: World, a: Account, r: Remote, hostname: string, backend: string)
    : (Remote, Option<string>)
  {
    if !a.TunnelEnabled() then (r, Some(""))
    else
      var (r1, ok) := EditIngress(w, r, AddRoute(hostname, backend));
      if !ok then (r1, None)
      else
        var (r2, found) := FindRecord(w, a, r1, hostname);
        CreateCNAME(w, a, DeleteIfFound(w, a, r2, found), hostname)
  }

  function RemoveTunnelRoute(w: World, a: Account, r: Remote, hostname: string, cnameID: string): (Remote, bool) {
    if !a.TunnelEnabled() then (r, true)
    else
      var (r1, ok) := EditIngress(w, r, RemoveRoute(hostname));
      if !ok then (r1, false)
      else if cnameID != "" then DeleteRecord(w, a, r1, cnameID)
      else (r1, true)
  }

  function ReplaceTunnelRoute(w: World, a: Account, r: Remote, oldHostname: string, newHostname: string,
                              backend: string, oldCNAMEID: string): (Remote, Option<string>) {
    if !a.TunnelEnabled() then (r, Some(""))
    else
      var (r1, ok) := EditIngress(w, r, ReplaceRoute(oldHostname, newHostname, backend));
      if !ok then (r1, None)
      else
        var r2 := if oldCNAMEID != "" then DeleteRecord(w, a, r1, oldCNAMEID).0 else r1;
        CreateCNAME(w, a, r2, newHostname)
  }

  // ---- EnsureARecord ---------------------------------------------------------------------------

  function Named(r: Remote, name: string): set<string> {
    set id | id in r.records && r.records[id].name == name
  }

  /** The name has an A record with this address. */
  ghost predicate HasA(r: Remote, name: string, ip: string) {
    exists id :: id in r.records && r.records[id] == Record(A, name, ip)
  }

  /** When every request succeeds, the name ends up with the A record if and only if it had no record,
      or the one that a listing puts first was an A record, or it had the wanted one already: the listing
      is not restricted to A records, and patching a record does not change its type. */
  lemma EnsureARecordIff(w: World, a: Account, r: Remote, name: string, ip: string)
    requires AllDone(w) && Lists(w) && FreshIds(w, r) && !a.noop && "" !in r.records
    ensures var hits := Named(r, name); var (r', ok) := EnsureARecord(w, a, r, name, ip);
      && ok
      && (HasA(r', name, ip) <==>
            hits == {} || HasA(r, name, ip)
            || (w.first(r.calls, hits) in r.records && r.records[w.first(r.calls, hits)].kind == A))
  {
    var hits, r' := Named(r, name), EnsureARecord(w, a, r, name, ip).0;
    assert w.outcome(r.calls).Done? && w.outcome(r.calls + 1).Done?;
    assert hits == set id | id in r.records && r.records[id].name == name;
    if hits == {} {
      assert r'.records[w.newId(r.calls + 1)] == Record(A, name, ip);
    } else {
      var id := w.first(r.calls, hits);
      assert id in hits && id != "";
      if j :| j in r.records && r.records[j] == Record(A, name, ip) {
        assert r'.records[j] == r.records[j];
      }
      if r.records[id].kind == A {
        assert r'.records[id] == Record(A, name, ip);
      }
    }
  }

  /** With at most one record of the name: if and only if there was none, or it was an A record. Either
      way one record is left with the name, with the wanted address, and the rest of the zone stays. */
  lemma EnsureARecordEnsures(w: World, a: Account, r: Remote, name: string, ip: string)
    requires AllDone(w) && Lists(w) && FreshIds(w, r) && !a.noop && "" !in r.records
    requires forall i, j | i in Named(r, name) && j in Named(r, name) :: i == j
    ensures var (r', ok) := EnsureARecord(w, a, r, name, ip);
      && (HasA(r', name, ip) <==> forall id | id in Named(r, name) :: r.records[id].kind == A)
      && ok && r'.ingress == r.ingress
      && (exists id | id in r'.records :: r'.records[id].name == name && r'.records[id].content == ip
            && (id in r.records ==> r.records[id].name == name && r'.records[id].kind == r.records[id].kind)
            && (id !in r.records ==> r'.records[id].kind == A)
            && r'.records - {id} == r.records - {id}
            && (forall j | j in r'.records && j != id :: r'.records[j].name != name))
  {
    EnsureARecordIff(w, a, r, name, ip);
    var hits, r' := Named(r, name), EnsureARecord(w, a, r, name, ip).0;
    assert hits == set id | id in r.records && r.records[id].name == name;
    assert w.outcome(r.calls).Done? && w.outcome(r.calls + 1).Done?;
    var id := if hits == {} then w.newId(r.calls + 1) else w.first(r.calls, hits);
    assert hits != {} ==> id in hits;
    assert r'.records[id].name == name && r'.records[id].content == ip && r'.records - {id} == r.records - {id};
    forall j | j in r'.records && j != id ensures r'.records[j].name != name {
      assert r'.records[j] == (r'.records - {id})[j];
      assert j !in hits;
    }
  }

  /** A CNAME of that name stays one, now with an address where a hostname should be, and success is
      reported. */
  lemma EnsureLeavesCNAME(w: World, a: Account, n: nat, name: string, ip: string, other: string)
    requires AllDone(w) && Lists(w) && !a.noop && other != ip
    ensures var r := Remote(map["x" := Record(CNAME, name, other)], [], n);
      var (r', ok) := EnsureARecord(w, a, r, name, ip);
      ok && r'.records == map["x" := Record(CNAME, name, ip)] && !HasA(r', name, ip)
  {
    var r := Remote(map["x" := Record(CNAME, name, other)], [], n);
    assert w.outcome(n).Done? && w.outcome(n + 1).Done?;
    assert (set id | id in r.records && r.records[id].name == name) == {"x"};
    assert w.first(n, {"x"}) in {"x"};
  }

  // ---- What is reported ----------------------------------------------------------------------------------

  /** Success is reported of a delete exactly when its one request is answered and the record was there. */
  lemma DeleteReports(w: World, a: Account, r: Remote, id: string)
    ensures var (r', ok) := DeleteRecord(w, a, r, id);
      if a.noop then r' == r && ok
      else
        && r'.calls == r.calls + 1 && r'.ingress == r.ingress
        && (ok ==> id in r.records && r'.records == r.records - {id})
        && (w.outcome(r.calls).Done? && id in r.records ==> ok)
        && (w.outcome(r.calls).Refused? ==> r'.records == r.records && !ok)
  {
  }

  /** Whatever happens: success is reported of EnsureARecord only if the name has a record with the address,
      and failure only if one of its requests, of which it makes at most two, was not answered. */
  lemma EnsureReports(w: World, a: Account, r: Remote, name: string, ip: string)
    requires Lists(w)
    ensures var (r', ok) := EnsureARecord(w, a, r, name, ip);
      if a.noop then r' == r && ok
      else
        && r.calls + 1 <= r'.calls <= r.calls + 2
        && (ok ==> exists i :: i in r'.records && r'.records[i].name == name && r'.records[i].content == ip)
        && (!ok ==> exists n :: r.calls <= n < r'.calls && !w.outcome(n).Done?)
        && (ok && r'.calls == r.calls + 1 ==> r'.records == r.records)
        && (!w.outcome(r.calls).Done? ==> !ok && r' == r.(calls := r.calls + 1))
  {
    if !a.noop {
      var hits := set id | id in r.records && r.records[id].name == name;
      var first, made := w.first(r.calls, hits), w.newId(r.calls + 1);
      assert hits != {} ==> first in hits;
      var i := if hits == {} || first == "" then made else first;
      var (r', ok) := EnsureARecord(w, a, r, name, ip);
      assert ok ==> i in r'.records && r'.records[i].name == name && r'.records[i].content == ip;
    }
  }

  /** A route is reported removed only if its rule is gone and its record, if its ID was given; and with tunnels
      off nothing is done. */
  lemma RemoveReports(w: World, a: Account, r: Remote, hostname: string, id: string)
    ensures var (r', ok) := RemoveTunnelRoute(w, a, r, hostname, id);
      if !a.TunnelEnabled() then r' == r && ok
      else
        && (ok ==> r'.ingress == Edited(RemoveRoute(hostname), r.ingress) && (id != "" ==> id !in r'.records))
        && (AllDone(w) && (id == "" || id in r.records) ==> ok)
        && (!w.outcome(r.calls).Done? ==> !ok && r' == r.(calls := r.calls + 1))
  {
    hide Edited;
  }

  /** A route is reported added only with the ID of a new CNAME and its rule written, and replaced likewise. */
  lemma RouteReports(w: World, a: Account, r: Remote, was: string, hostname: string, backend: string, id: string)
    requires a.Valid()
    ensures var (r', made) := AddTunnelRoute(w, a, r, hostname, backend);
      if !a.TunnelEnabled() then r' == r && made == Some("")
      else
        made.Some? ==> r'.ingress == Edited(AddRoute(hostname, backend), r.ingress) && made.value in r'.records
                       && r'.records[made.value] == Record(CNAME, hostname, a.tunnelID + ".cfargotunnel.com")
    ensures var (r', made) := ReplaceTunnelRoute(w, a, r, was, hostname, backend, id);
      if !a.TunnelEnabled() then r' == r && made == Some("")
      else
        made.Some? ==> r'.ingress == Edited(ReplaceRoute(was, hostname, backend), r.ingress) && made.value in r'.records
                       && r'.records[made.value] == Record(CNAME, hostname, a.tunnelID + ".cfargotunnel.com")
  {
    hide Edited;
  }
}
