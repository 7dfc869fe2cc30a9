// Peers of a WireGuard server kept in two places: the router's peer list, and the secret store,
// which lives in memory and in one settings file. Each call to either may fail on its own.
module ServerPeers {
  import opened Common
  import opened Text
  import opened Subnet

  /** An allowed-ips entry that parses as address/bits, or one that does not parse. */
  datatype Route = Route(host: Addr, bits: nat) | Garbled

  datatype Peer = Peer(key: string, allowed: seq<Route>, comment: string, enabled: bool)

  /**
   * The tunnel address text of a request: empty, a bare address, address/bits (spelling 0 is the
   * canonical text of either), or anything else. Only address/bits parses as CIDR.
   */
  datatype TunnelText =
    | Blank
    | Bare(host: Addr, spelling: nat)
    | Slash(host: Addr, bits: nat, spelling: nat)
    | Other(text: string)

  datatype Secret = Secret(privateKey: string, presharedKey: string, description: string, tunnelIP: TunnelText)

  type Secrets = map<string, Secret>

  datatype World = World(peers: seq<Peer>, mem: Secrets, disk: Secrets)

  datatype Answer = Done | InvalidIP | InUse | NotFound | SaveFailed | RouterFailed

  function ParseCIDR(t: TunnelText): Option<Addr> {
    if t.Slash? then Some(t.host) else None
  }

  /** The address a request names, whichever way it is written. */
  function Named(t: TunnelText): Option<Addr> {
    match t
    case Bare(h, _) => Some(h)
    case Slash(h, _, _) => Some(h)
    case _ => None
  }

  function IndexOfPeer(peers: seq<Peer>, key: string): (i: Option<nat>)
    ensures i.Some? ==> i.value < |peers| && peers[i.value].key == key
    ensures i.Some? ==> forall k :: 0 <= k < i.value ==> peers[k].key != key
    ensures i.None? ==> forall k :: 0 <= k < |peers| ==> peers[k].key != key
  {
    if peers == [] then None
    else if peers[0].key == key then Some(0)
    else
      var rest := IndexOfPeer(peers[1..], key);
      if rest.Some? then Some(rest.value + 1) else None
  }

  // ---- The address a peer is known by ----

  function FirstHostRoute(allowed: seq<Route>): Option<Addr> {
    if allowed == [] then None
    else if allowed[0].Route? && allowed[0].bits == 32 then Some(allowed[0].host)
    else FirstHostRoute(allowed[1..])
  }

  function HostIP(allowed: seq<Route>): Option<Addr> {
    if FirstHostRoute(allowed).Some? then FirstHostRoute(allowed)
    else if allowed != [] && allowed[0].Route? then Some(allowed[0].host)
    else None
  }

  method PeerTunnelHostIP(peer: Peer) returns (ip: Option<Addr>)
    ensures ip == HostIP(peer.allowed)
  {
    for i := 0 to |peer.allowed|
      invariant FirstHostRoute(peer.allowed) == FirstHostRoute(peer.allowed[i..])
    {
      var a := peer.allowed[i];
      if a.Route? && a.bits == 32 {
        return Some(a.host);
      }
    }
    if |peer.allowed| > 0 && peer.allowed[0].Route? {
      return Some(peer.allowed[0].host);
    }
    ip := None;
  }

  predicate Uses(peers: seq<Peer>, ip: Addr) {
    exists i :: 0 <= i < |peers| && HostIP(peers[i].allowed) == Some(ip)
  }

  method PeerTunnelIPInUse(peers: seq<Peer>, t: TunnelText) returns (used: bool)
    ensures used <==> ParseCIDR(t).Some? && Uses(peers, ParseCIDR(t).value)
  {
    var host := ParseCIDR(t);
    if host.None? {
      return false;
    }
    for i := 0 to |peers|
      invariant forall k :: 0 <= k < i ==> HostIP(peers[k].allowed) != host
    {
      var existing := PeerTunnelHostIP(peers[i]);
      if existing == host {
        return true;
      }
    }
    used := false;
  }

  // ---- One call to the secret store or to the router ----

  function SaveSecret(w: World, key: string, sec: Secret, ok: bool): World {
    var mem := w.mem[key := sec];
    w.(mem := mem, disk := if ok then mem else w.disk)
  }

  function ForgetSecret(w: World, key: string, ok: bool): World {
    if w.mem == map[] then w
    else
      var mem := w.mem - {key};
      w.(mem := mem, disk := if ok then mem else w.disk)
  }

  function RouterAdd(w: World, key: string, comment: string, ip: Addr): World {
    w.(peers := w.peers + [Peer(key, [Route(ip, 32)], comment, true)])
  }

  function Others(peers: seq<Peer>, key: string): (r: seq<Peer>)
    ensures forall p :: p in r <==> p in peers && p.key != key
  {
    if peers == [] then []
    else (if peers[0].key == key then [] else [peers[0]]) + Others(peers[1..], key)
  }

  function RouterRemove(w: World, key: string): World {
    w.(peers := Others(w.peers, key))
  }

  /** An edit of one listed peer. */
  function RouterEdit(w: World, i: nat, p: Peer): World
    requires i < |w.peers|
  {
    w.(peers := w.peers[i := p])
  }

  function WithoutRoute(allowed: seq<Route>, r: Route): seq<Route> {
    if allowed == [] then []
    else (if allowed[0] == r then [] else [allowed[0]]) + WithoutRoute(allowed[1..], r)
  }

  function WithRoute(allowed: seq<Route>, r: Route): seq<Route> {
    if r in allowed then allowed else allowed + [r]
  }

  /** A partial edit carries no comment; on a router that wipes, the stored one is lost. */
  function PartialEdit(p: Peer, allowed: seq<Route>, wipes: bool): Peer {
    p.(allowed := allowed, comment := if wipes then "" else p.comment)
  }

  // ---- Whole requests ----

  datatype AddFaults = AddFaults(saveOk: bool, addOk: bool, forgetOk: bool)
  datatype UpdateFaults = UpdateFaults(dropOk: bool, putOk: bool, commentOk: bool, saveOk: bool)
  datatype DeleteFaults = DeleteFaults(removeOk: bool, forgetOk: bool)

  function Add(w: World, server: Server, description: string, t: TunnelText,
               key: string, privateKey: string, psk: string, f: AddFaults): (World, Answer) {
    if Check(server, ParseCIDR(t)) != Accept then (w, InvalidIP)
    else if ParseCIDR(t).Some? && Uses(w.peers, ParseCIDR(t).value) then (w, InUse)
    else if ParseCIDR(t).None? then (w, InvalidIP)
    else
      var w1 := SaveSecret(w, key, Secret(privateKey, psk, description, t), f.saveOk);
      if !f.saveOk then (w1, SaveFailed)
      else if f.addOk then (RouterAdd(w1, key, TrimSpace(description), ParseCIDR(t).value), Done)
      else (ForgetSecret(w1, key, f.forgetOk), RouterFailed)
  }

  /** The request text spells the current address, with or without its /32. */
  predicate Spells(t: TunnelText, current: Option<Addr>) {
    match current
    case Some(h) => t == Slash(h, 32, 0) || t == Bare(h, 0)
    case None => t == Other("/32") || t == Blank
  }

  predicate WantsIPChange(p: Peer, t: TunnelText) {
    t != Blank && !Spells(t, HostIP(p.allowed))
  }

  function AfterDrop(p: Peer, wipes: bool): Peer {
    match HostIP(p.allowed)
    case None => p
    case Some(h) => PartialEdit(p, WithoutRoute(p.allowed, Route(h, 32)), wipes)
  }

  function AfterPut(p: Peer, ip: Addr, wipes: bool): Peer {
    PartialEdit(p, WithRoute(p.allowed, Route(ip, 32)), wipes)
  }

  /** Replacement of the peer's address: two router calls, either of which may fail. */
  function ChangeIP(w: World, i: nat, ip: Addr, f: UpdateFaults, wipes: bool): (World, bool)
    requires i < |w.peers|
  {
    var p := w.peers[i];
    if HostIP(p.allowed).Some? && !f.dropOk then (w, false)
    else
      var p1 := AfterDrop(p, wipes);
      if f.putOk then (RouterEdit(w, i, AfterPut(p1, ip, wipes)), true) else (RouterEdit(w, i, p1), false)
  }

  function Requested(sec: Secret, description: string, t: TunnelText): Secret {
    sec.(tunnelIP := if t == Blank then sec.tunnelIP else t, description := description)
  }

  function Reconcile(w: World, key: string, description: string, t: TunnelText, saveOk: bool): (World, Answer) {
    if key in w.mem && w.mem[key] != Requested(w.mem[key], description, t) then
      (SaveSecret(w, key, Requested(w.mem[key], description, t), saveOk), if saveOk then Done else SaveFailed)
    else (w, Done)
  }

  /** The checks and router calls of an update, and the answer if one of them ends it. */
  function RouterPart(w: World, server: Server, key: string, description: string, t: TunnelText,
                      f: UpdateFaults, wipes: bool): (r: (World, Option<Answer>))
    ensures r.0.mem == w.mem && r.0.disk == w.disk
  {
    var i := IndexOfPeer(w.peers, key);
    if i.None? then (w, Some(NotFound))
    else
      var listed := w.peers[i.value];
      if WantsIPChange(listed, t) && (Check(server, ParseCIDR(t)) != Accept || ParseCIDR(t).None?)
      then (w, Some(InvalidIP))
      else
        var (w1, moved) :=
          if WantsIPChange(listed, t) then ChangeIP(w, i.value, ParseCIDR(t).value, f, wipes) else (w, true);
        if !moved then (w1, Some(RouterFailed))
        else if description == listed.comment then (w1, None)
        else if !f.commentOk then (w1, Some(RouterFailed))
        else (RouterEdit(w1, i.value, w1.peers[i.value].(comment := TrimSpace(description))), None)
  }

  function Update(w: World, server: Server, key: string, description: string, t: TunnelText,
                  f: UpdateFaults, wipes: bool): (World, Answer) {
    var (w1, ended) := RouterPart(w, server, key, description, t, f, wipes);
    if ended.Some? then (w1, ended.value) else Reconcile(w1, key, description, t, f.saveOk)
  }

  function Delete(w: World, key: string, f: DeleteFaults): (World, Answer) {
    if IndexOfPeer(w.peers, key).None? then (w, NotFound)
    else if !f.removeOk then (w, RouterFailed)
    else (ForgetSecret(RouterRemove(w, key), key, f.forgetOk), Done)
  }

  function Toggle(w: World, key: string, enabled: bool, ok: bool): (World, Answer) {
    var i := IndexOfPeer(w.peers, key);
    if i.None? then (w, NotFound)
    else if !ok then (w, RouterFailed)
    else (RouterEdit(w, i.value, w.peers[i.value].(enabled := enabled)), Done)
  }

  // ---- The handler as it runs ----

  class ServersHandler {
    const server: Server
    const wipes: bool
    var peers: seq<Peer>
    var mem: Secrets
    var disk: Secrets

    ghost function State(): World
      reads this
    {
      World(peers, mem, disk)
    }

    constructor (server: Server, wipes: bool)
      ensures State() == World([], map[], map[])
      ensures this.server == server && this.wipes == wipes
    {
      this.server, this.wipes := server, wipes;
      peers, mem, disk := [], map[], map[];
    }

    method SetServerPeerSecret(key: string, sec: Secret, writeOk: bool) returns (ok: bool)
      modifies this`mem, this`disk
      ensures ok == writeOk && State() == SaveSecret(old(State()), key, sec, writeOk)
    {
      mem := mem[key := sec];
      if writeOk {
        disk := mem;
      }
      ok := writeOk;
    }

    method DeleteServerPeerSecret(key: string, writeOk: bool)
      modifies this`mem, this`disk
      ensures State() == ForgetSecret(old(State()), key, writeOk)
    {
      if mem == map[] {
        return;
      }
      mem := mem - {key};
      if writeOk {
        disk := mem;
      }
    }

    method FindServerPeer(key: string) returns (i: Option<nat>)
      ensures i == IndexOfPeer(peers, key)
    {
      for k := 0 to |peers|
        invariant forall j :: 0 <= j < k ==> peers[j].key != key
      {
        if peers[k].key == key {
          return Some(k);
        }
      }
      i := None;
    }

    method AddServerPeer(description: string, t: TunnelText, key: string, privateKey: string, psk: string,
                         f: AddFaults) returns (answer: Answer)
      modifies this
      ensures (State(), answer) == Add(old(State()), server, description, t, key, privateKey, psk, f)
    {
      var v := ValidateTunnelIP(server, ParseCIDR(t));
      if v != Accept {
        return InvalidIP;
      }
      var used := PeerTunnelIPInUse(peers, t);
      if used {
        return InUse;
      }
      var ip := ParseCIDR(t);
      if ip.None? {
        return InvalidIP;
      }
      var saved := SetServerPeerSecret(key, Secret(privateKey, psk, description, t), f.saveOk);
      if !saved {
        return SaveFailed;
      }
      if !f.addOk {
        DeleteServerPeerSecret(key, f.forgetOk);
        return RouterFailed;
      }
      peers := peers + [Peer(key, [Route(ip.value, 32)], TrimSpace(description), true)];
      answer := Done;
    }

    method UpdatePeerAllowIPs(i: nat, oldIP: Option<Addr>, newIP: Addr, f: UpdateFaults) returns (ok: bool)
      requires i < |peers| && oldIP == HostIP(peers[i].allowed)
      modifies this`peers
      ensures (State(), ok) == ChangeIP(old(State()), i, newIP, f, wipes)
    {
      if oldIP.Some? {
        if !f.dropOk {
          return false;
        }
        peers := peers[i := PartialEdit(peers[i], WithoutRoute(peers[i].allowed, Route(oldIP.value, 32)), wipes)];
      }
      assert peers == RouterEdit(old(State()), i, AfterDrop(old(peers[i]), wipes)).peers;
      if !f.putOk {
        return false;
      }
      peers := peers[i := PartialEdit(peers[i], WithRoute(peers[i].allowed, Route(newIP, 32)), wipes)];
      assert peers == RouterEdit(old(State()), i, AfterPut(AfterDrop(old(peers[i]), wipes), newIP, wipes)).peers;
      ok := true;
    }

    method UpdateServerPeer(key: string, description: string, t: TunnelText, f: UpdateFaults)
      returns (answer: Answer)
      modifies this
      ensures (State(), answer) == Update(old(State()), server, key, description, t, f, wipes)
    {
      var i := FindServerPeer(key);
      if i.None? {
        return NotFound;
      }
      var peer := peers[i.value];
      var oldIP := PeerTunnelHostIP(peer);
      if t != Blank && !Spells(t, oldIP) {
        var v := ValidateTunnelIP(server, ParseCIDR(t));
        if v != Accept {
          return InvalidIP;
        }
        var newHost := ParseCIDR(t);
        if newHost.None? {
          return InvalidIP;
        }
        var ok := UpdatePeerAllowIPs(i.value, oldIP, newHost.value, f);
        if !ok {
          return RouterFailed;
        }
      }
      assert State() ==
        if WantsIPChange(peer, t) then ChangeIP(old(State()), i.value, t.host, f, wipes).0 else old(State());
      if description != peer.comment {
        if !f.commentOk {
          return RouterFailed;
        }
        peers := peers[i.value := peers[i.value].(comment := TrimSpace(description))];
      }
      answer := ReconcileSecret(key, description, t, f.saveOk);
    }

    /** The stored secret follows the request; nothing is written when memory already agrees. */
    method ReconcileSecret(key: string, description: string, t: TunnelText, saveOk: bool) returns (answer: Answer)
      modifies this`mem, this`disk
      ensures (State(), answer) == Reconcile(old(State()), key, description, t, saveOk)
    {
      if key in mem {
        var sec := mem[key];
        var changed := false;
        if t != Blank && sec.tunnelIP != t {
          sec := sec.(tunnelIP := t);
          changed := true;
        }
        if sec.description != description {
          sec := sec.(description := description);
          changed := true;
        }
        if changed {
          var saved := SetServerPeerSecret(key, sec, saveOk);
          if !saved {
            return SaveFailed;
          }
        }
      }
      answer := Done;
    }

    method DeleteServerPeer(key: string, f: DeleteFaults) returns (answer: Answer)
      modifies this
      ensures (State(), answer) == Delete(old(State()), key, f)
    {
      var i := FindServerPeer(key);
      if i.None? {
        return NotFound;
      }
      if !f.removeOk {
        return RouterFailed;
      }
      peers := Others(peers, key);
      DeleteServerPeerSecret(key, f.forgetOk);
      answer := Done;
    }

    method ToggleServerPeer(key: string, enabled: bool, routerOk: bool) returns (answer: Answer)
      modifies this`peers
      ensures (State(), answer) == Toggle(old(State()), key, enabled, routerOk)
    {
      var i := FindServerPeer(key);
      if i.None? {
        return NotFound;
      }
      if !routerOk {
        return RouterFailed;
      }
      peers := peers[i.value := peers[i.value].(enabled := enabled)];
      answer := Done;
    }
  }
}
