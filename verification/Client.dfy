/** The Cloudflare client (internal/cf/cf.go, internal/cf/tunnel.go): each method is one request
 after another, proved to do what the function of the same name says. */
module CfClient {
  import opened Common
  import opened Ingress
  import opened Cloudflare

  class Client {
    const noop: bool
    const zoneID: string
    const accountID: string
    var tunnelID: string

    const world: World
    var remote: Remote  // what Cloudflare holds; changed only through requests

    function Config(): Account
      reads this
    {
      Account(noop, zoneID, accountID, tunnelID)
    }

    constructor (token: string, zoneID: string, tunnelID: string, accountID: string, world: World, remote: Remote)
      ensures Config().Valid()
      ensures noop <==> token == "" || zoneID == ""
      ensures !noop ==> Config() == Account(false, zoneID, accountID, tunnelID)
      ensures this.world == world && this.remote == remote
    {
      this.world, this.remote := world, remote;
      if token == "" || zoneID == "" {
        this.noop, this.zoneID, this.accountID, this.tunnelID := true, "", "", "";
      } else {
        this.noop, this.zoneID, this.accountID, this.tunnelID := false, zoneID, accountID, tunnelID;
      }
    }

    method SetTunnelID(id: string)
      modifies this`tunnelID
      ensures tunnelID == id
    {
      tunnelID := id;
    }

    method CreateRecord(name: string, ip: string) returns (id: Option<string>)
      modifies this`remote
      ensures (remote, id) == Cloudflare.CreateRecord(world, Config(), old(remote), name, ip)
    {
      if noop {
        return Some("");
      }
      var (r, created) := Post(world, remote, Record(A, name, ip));
      remote := r;
      id := created;
    }

    method UpdateRecord(recordID: string, ip: string) returns (ok: bool)
      modifies this`remote
      ensures (remote, ok) == if noop then (old(remote), true) else Patch(world, old(remote), recordID, ip)
    {
      if noop {
        return true;
      }
      var (r, done) := Patch(world, remote, recordID, ip);
      remote := r;
      ok := done;
    }

    method DeleteRecord(recordID: string) returns (ok: bool)
      modifies this`remote
      ensures (remote, ok) == Cloudflare.DeleteRecord(world, Config(), old(remote), recordID)
    {
      if noop {
        return true;
      }
      var (r, done) := Delete(world, remote, recordID);
      remote := r;
      ok := done;
    }

    method FindRecord(name: string) returns (found: Found)
      modifies this`remote
      ensures (remote, found) == Cloudflare.FindRecord(world, Config(), old(remote), name)
    {
      if noop {
        return Absent;
      }
      var (r, f) := List(world, remote, name);
      remote := r;
      found := f;
    }

    method EnsureARecord(name: string, ip: string) returns (ok: bool)
      modifies this`remote
      ensures (remote, ok) == Cloudflare.EnsureARecord(world, Config(), old(remote), name, ip)
    {
      if noop {
        return true;
      }
      var found := FindRecord(name);
      match found {
        case Failed => ok := false;
        case Absent =>
          var id := CreateRecord(name, ip);
          ok := id.Some?;
        case At(id, content) =>
          if id == "" {
            var made := CreateRecord(name, ip);
            ok := made.Some?;
          } else if content == ip {
            ok := true;
          } else {
            ok := UpdateRecord(id, ip);
          }
      }
    }

    method CreateCNAME(hostname: string) returns (id: Option<string>)
      modifies this`remote
      ensures (remote, id) == Cloudflare.CreateCNAME(world, Config(), old(remote), hostname)
    {
      if noop || zoneID == "" {
        return Some("");
      }
      var (r, created) := Post(world, remote, Record(CNAME, hostname, Config().Endpoint()));
      remote := r;
      id := created;
    }

    method ModifyIngress(edit: Edit) returns (ok: bool)
      modifies this`remote
      ensures (remote, ok) == EditIngress(world, old(remote), edit)
    {
      var got := world.outcome(remote.calls);
      remote := remote.(calls := remote.calls + 1);
      if !got.Done? {
        return false;
      }
      var rules := Rewrite(edit, remote.ingress);
      var put := world.outcome(remote.calls);
      remote := remote.(calls := remote.calls + 1);
      if !put.Refused? {
        remote := remote.(ingress := rules);
      }
      ok := put.Done?;
    }

    method AddTunnelRoute(hostname: string, backend: string) returns (cnameID: Option<string>)
      modifies this`remote
      ensures (remote, cnameID) == Cloudflare.AddTunnelRoute(world, Config(), old(remote), hostname, backend)
    {
      if !Config().TunnelEnabled() {
        return Some("");
      }
      var ok := ModifyIngress(AddRoute(hostname, backend));
      if !ok {
        return None;
      }
      var found := FindRecord(hostname);
      if found.At? && found.id != "" {
        var _ := DeleteRecord(found.id);
      }
      cnameID := CreateCNAME(hostname);
    }

    method RemoveTunnelRoute(hostname: string, cnameID: string) returns (ok: bool)
      modifies this`remote
      ensures (remote, ok) == Cloudflare.RemoveTunnelRoute(world, Config(), old(remote), hostname, cnameID)
    {
      if !Config().TunnelEnabled() {
        return true;
      }
      ok := ModifyIngress(RemoveRoute(hostname));
      if ok && cnameID != "" {
        ok := DeleteRecord(cnameID);
      }
    }

    method ReplaceTunnelRoute(oldHostname: string, newHostname: string, backend: string, oldCNAMEID: string)
      returns (newCNAMEID: Option<string>)
      modifies this`remote
      ensures (remote, newCNAMEID) ==
        Cloudflare.ReplaceTunnelRoute(world, Config(), old(remote), oldHostname, newHostname, backend, oldCNAMEID)
    {
      if !Config().TunnelEnabled() {
        return Some("");
      }
      var ok := ModifyIngress(ReplaceRoute(oldHostname, newHostname, backend));
      if !ok {
        return None;
      }
      if oldCNAMEID != "" {
        var _ := DeleteRecord(oldCNAMEID);
      }
      newCNAMEID := CreateCNAME(newHostname);
    }
  }
}
