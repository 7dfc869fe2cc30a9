// What each peer request answers and what it leaves in the router and in both copies of the
// secrets, told by the request, the listed peers and the outcomes of its calls.
module PeerAnswers {
  import opened Common
  import opened Text
  import opened Subnet
  import opened ServerPeers

  /** Position of the first peer with the key. */
  predicate FirstWith(peers: seq<Peer>, key: string, i: nat) {
    i < |peers| && peers[i].key == key && forall k :: 0 <= k < i ==> peers[k].key != key
  }

  lemma FirstWithIndex(peers: seq<Peer>, key: string, i: nat)
    requires FirstWith(peers, key, i)
    ensures IndexOfPeer(peers, key) == Some(i)
  {
  }

  /** Requests on a key nobody has change nothing. */
  lemma NotFoundExactly(w: World, server: Server, key: string, description: string, t: TunnelText, enabled: bool,
                        uf: UpdateFaults, df: DeleteFaults, ok: bool, wipes: bool)
    ensures var missing := forall k :: 0 <= k < |w.peers| ==> w.peers[k].key != key;
            && (Update(w, server, key, description, t, uf, wipes).1.NotFound? <==> missing)
            && (Delete(w, key, df).1.NotFound? <==> missing)
            && (Toggle(w, key, enabled, ok).1.NotFound? <==> missing)
            && (missing ==>
                  && Update(w, server, key, description, t, uf, wipes).0 == w
                  && Delete(w, key, df).0 == w && Toggle(w, key, enabled, ok).0 == w)
  {
    if IndexOfPeer(w.peers, key).Some? {
      assert w.peers[IndexOfPeer(w.peers, key).value].key == key;
    }
  }

  /** The address a peer is known by: its first /32 route, else its first route if that parses. */
  predicate KnownBy(allowed: seq<Route>, ip: Option<Addr>) {
    if exists k :: 0 <= k < |allowed| && allowed[k].Route? && allowed[k].bits == 32 then
      exists k :: 0 <= k < |allowed| && allowed[k].Route? && allowed[k].bits == 32 && ip == Some(allowed[k].host)
                  && forall j :: 0 <= j < k ==> !(allowed[j].Route? && allowed[j].bits == 32)
    else if allowed != [] && allowed[0].Route? then ip == Some(allowed[0].host)
    else ip == None
  }

  lemma {:induction false} FirstHostRouteExactly(allowed: seq<Route>)
    ensures FirstHostRoute(allowed).None? <==>
              forall k :: 0 <= k < |allowed| ==> !(allowed[k].Route? && allowed[k].bits == 32)
    ensures FirstHostRoute(allowed).Some? ==>
              exists k :: 0 <= k < |allowed| && allowed[k].Route? && allowed[k].bits == 32
                          && FirstHostRoute(allowed) == Some(allowed[k].host)
                          && forall j :: 0 <= j < k ==> !(allowed[j].Route? && allowed[j].bits == 32)
  {
    if allowed == [] {
    } else {
      var rest := allowed[1..];
      FirstHostRouteExactly(rest);
      assert forall j :: 0 < j < |allowed| ==> allowed[j] == rest[j - 1];
      if FirstHostRoute(rest).Some? && !(allowed[0].Route? && allowed[0].bits == 32) {
        var k :| 0 <= k < |rest| && rest[k].Route? && rest[k].bits == 32 && FirstHostRoute(rest) == Some(rest[k].host)
                 && forall j :: 0 <= j < k ==> !(rest[j].Route? && rest[j].bits == 32);
        assert allowed[k + 1] == rest[k];
      }
    }
  }

  lemma HostIPExactly(allowed: seq<Route>)
    ensures KnownBy(allowed, HostIP(allowed))
  {
    FirstHostRouteExactly(allowed);
  }

  /**
   * An add succeeds exactly when the address is written with its bits, accepted and unused, and
   * both calls succeed.
   */
  lemma AddExactly(w: World, server: Server, description: string, t: TunnelText,
                   key: string, privateKey: string, psk: string, f: AddFaults)
    ensures var (w', answer) := Add(w, server, description, t, key, privateKey, psk, f);
            var valid := t.Slash? && Check(server, Some(t.host)) == Accept;
            var taken := t.Slash? && exists i :: 0 <= i < |w.peers| && HostIP(w.peers[i].allowed) == Some(t.host);
            && (answer.InvalidIP? <==> !valid)
            && (answer.InUse? <==> valid && taken)
            && (answer.SaveFailed? <==> valid && !taken && !f.saveOk)
            && (answer.RouterFailed? <==> valid && !taken && f.saveOk && !f.addOk)
            && (answer.Done? <==> valid && !taken && f.saveOk && f.addOk)
            && (answer.InvalidIP? || answer.InUse? ==> w' == w)
            && (answer.SaveFailed? ==> w' == w.(mem := w.mem[key := Secret(privateKey, psk, description, t)]))
  {
  }

  /** The request names an address other than the one the peer has. */
  predicate WantsMove(host: Option<Addr>, t: TunnelText) {
    && t != Blank
    && (host.Some? ==> t != Slash(host.value, 32, 0) && t != Bare(host.value, 0))
    && (host.None? ==> t != Other("/32"))
  }

  /** The stored secret disagrees with the request. */
  predicate Disagrees(mem: Secrets, key: string, description: string, t: TunnelText) {
    key in mem && ((t != Blank && mem[key].tunnelIP != t) || mem[key].description != description)
  }

  /** Exactly when an update gives which answer. */
  lemma UpdateExactly(w: World, server: Server, key: string, description: string, t: TunnelText,
                      f: UpdateFaults, wipes: bool, i: nat)
    requires FirstWith(w.peers, key, i)
    ensures var answer := Update(w, server, key, description, t, f, wipes).1;
            var p := w.peers[i];
            var moves := WantsMove(HostIP(p.allowed), t);
            var valid := moves ==> t.Slash? && Check(server, Some(t.host)) == Accept;
            var routed := moves ==> (HostIP(p.allowed).Some? ==> f.dropOk) && f.putOk;
            var named := description != p.comment ==> f.commentOk;
            var saved := Disagrees(w.mem, key, description, t) ==> f.saveOk;
            && (answer.InvalidIP? <==> !valid)
            && (answer.RouterFailed? <==> valid && !(routed && named))
            && (answer.SaveFailed? <==> valid && routed && named && !saved)
            && (answer.Done? <==> valid && routed && named && saved)
  {
    FirstWithIndex(w.peers, key, i);
  }

  /** What reconciling does to the secrets. */
  lemma ReconcileExactly(w: World, key: string, description: string, t: TunnelText, saveOk: bool)
    ensures var (w', answer) := Reconcile(w, key, description, t, saveOk);
            var differs := Disagrees(w.mem, key, description, t);
            && w'.peers == w.peers
            && (answer.Done? <==> !differs || saveOk) && (answer.SaveFailed? <==> differs && !saveOk)
            && (!differs ==> w' == w)
            && (differs ==> w'.mem == w.mem[key := w'.mem[key]] && w'.disk == if saveOk then w'.mem else w.disk)
            && (differs ==>
                  && w'.mem[key].privateKey == w.mem[key].privateKey
                  && w'.mem[key].presharedKey == w.mem[key].presharedKey
                  && w'.mem[key].description == description
                  && w'.mem[key].tunnelIP == if t == Blank then w.mem[key].tunnelIP else t)
  {
  }

  /** What the update hands to it: the secrets as they were. */
  lemma UpdateReconcilesLast(w: World, server: Server, key: string, description: string, t: TunnelText,
                             f: UpdateFaults, wipes: bool)
    ensures var (w', answer) := Update(w, server, key, description, t, f, wipes);
            if answer.Done? || answer.SaveFailed? then
              (w', answer) == Reconcile(World(w'.peers, w.mem, w.disk), key, description, t, f.saveOk)
            else
              w'.mem == w.mem && w'.disk == w.disk && (answer.NotFound? || answer.InvalidIP? ==> w'.peers == w.peers)
  {
  }

  /**
   * What a failed update leaves in the secrets: nothing is touched unless the save itself failed,
   * and then only this peer's text and description in memory.
   */
  lemma FailedUpdateKeepsSecrets(w: World, server: Server, key: string, description: string, t: TunnelText,
                                 f: UpdateFaults, wipes: bool)
    ensures var (w', answer) := Update(w, server, key, description, t, f, wipes);
            && (!answer.Done? && !answer.SaveFailed? ==> w'.mem == w.mem && w'.disk == w.disk)
            && (answer.NotFound? || answer.InvalidIP? ==> w'.peers == w.peers)
            && (answer.SaveFailed? ==>
                  && w'.disk == w.disk && key in w.mem && key in w'.mem && w'.mem == w.mem[key := w'.mem[key]]
                  && w'.mem[key].privateKey == w.mem[key].privateKey
                  && w'.mem[key].presharedKey == w.mem[key].presharedKey
                  && w'.mem[key].description == description
                  && w'.mem[key].tunnelIP == if t == Blank then w.mem[key].tunnelIP else t)
  {
    var w' := Update(w, server, key, description, t, f, wipes).0;
    UpdateReconcilesLast(w, server, key, description, t, f, wipes);
    ReconcileExactly(World(w'.peers, w.mem, w.disk), key, description, t, f.saveOk);
  }

  /** A successful one keeps the keys as well, and the file either as it was or equal to memory. */
  lemma DoneUpdateKeepsKeys(w: World, server: Server, key: string, description: string, t: TunnelText,
                            f: UpdateFaults, wipes: bool)
    requires Update(w, server, key, description, t, f, wipes).1.Done?
    ensures var w' := Update(w, server, key, description, t, f, wipes).0;
            && (w'.disk == w.disk || w'.disk == w'.mem) && w'.mem.Keys == w.mem.Keys
            && forall k :: k in w.mem ==>
                 && w'.mem[k].privateKey == w.mem[k].privateKey && w'.mem[k].presharedKey == w.mem[k].presharedKey
                 && (k != key ==> w'.mem[k] == w.mem[k])
  {
    var w' := Update(w, server, key, description, t, f, wipes).0;
    UpdateReconcilesLast(w, server, key, description, t, f, wipes);
    ReconcileExactly(World(w'.peers, w.mem, w.disk), key, description, t, f.saveOk);
  }

  // ---- Routes ----

  /** left lists, in order, exactly the entries of allowed other than r, found at these positions. */
  predicate RoutesLeft(left: seq<Route>, allowed: seq<Route>, r: Route, at: seq<nat>) {
    && |left| == |at|
    && (forall i :: 0 <= i < |at| ==> at[i] < |allowed| && left[i] == allowed[at[i]] && left[i] != r)
    && (forall i, j :: 0 <= i < j < |at| ==> at[i] < at[j])
    && forall k :: 0 <= k < |allowed| && allowed[k] != r ==> k in at
  }

  lemma RoutesLeftMore(left: seq<Route>, allowed: seq<Route>, r: Route, at: seq<nat>, x: Route)
    requires RoutesLeft(left, allowed, r, at)
    ensures if x == r then RoutesLeft(left, allowed + [x], r, at)
            else RoutesLeft(left + [x], allowed + [x], r, at + [|allowed|])
  {
  }

  lemma {:induction false} WithoutRouteAppend(allowed: seq<Route>, r: Route, x: Route)
    ensures WithoutRoute(allowed + [x], r) == WithoutRoute(allowed, r) + if x == r then [] else [x]
  {
    if allowed == [] {
      assert ([x])[1..] == [] && [] + [x] == [x];
    } else {
      assert (allowed + [x])[1..] == allowed[1..] + [x];
      WithoutRouteAppend(allowed[1..], r, x);
    }
  }

  lemma {:induction false} WithoutRouteExactly(allowed: seq<Route>, r: Route) returns (at: seq<nat>)
    ensures RoutesLeft(WithoutRoute(allowed, r), allowed, r, at)
  {
    if allowed == [] {
      at := [];
    } else {
      var n := |allowed| - 1;
      var front, x := allowed[..n], allowed[n];
      at := WithoutRouteExactly(front, r);
      WithoutRouteAppend(front, r, x);
      RoutesLeftMore(WithoutRoute(front, r), front, r, at, x);
      assert allowed == front + [x];
      if x == r {
        assert WithoutRoute(front, r) + [] == WithoutRoute(front, r);
      } else {
        at := at + [n];
      }
    }
  }

  /**
   * What the two router calls of an update leave of the peer's routes: the old host route goes, the
   * others keep their order, and the new one stands among them or at the end; a failed first call
   * changes nothing, a failed second leaves the peer without either.
   */
  lemma MoveExactly(w: World, i: nat, ip: Addr, f: UpdateFaults, wipes: bool)
    requires i < |w.peers|
    ensures var (w', ok) := ChangeIP(w, i, ip, f, wipes);
            var p, host := w.peers[i], HostIP(w.peers[i].allowed);
            var rest := if host.Some? then WithoutRoute(p.allowed, Route(host.value, 32)) else p.allowed;
            && w'.mem == w.mem && w'.disk == w.disk && |w'.peers| == |w.peers|
            && (forall k :: 0 <= k < |w.peers| && k != i ==> w'.peers[k] == w.peers[k])
            && w'.peers[i].key == p.key && w'.peers[i].enabled == p.enabled
            && (ok <==> (host.Some? ==> f.dropOk) && f.putOk)
            && w'.peers[i].allowed ==
               (if host.Some? && !f.dropOk then p.allowed
                else if !f.putOk || Route(ip, 32) in rest then rest
                else rest + [Route(ip, 32)])
            && w'.peers[i].comment ==
               if wipes && ((host.Some? && f.dropOk) || ok) then "" else p.comment
  {
  }

  // ---- Toggle and delete ----

  /** A toggle that succeeds sets the flag of that peer as requested and leaves all else alone. */
  lemma ToggleExactly(w: World, key: string, enabled: bool, ok: bool, i: nat)
    requires FirstWith(w.peers, key, i)
    ensures var (w', answer) := Toggle(w, key, enabled, ok);
            && (answer.Done? <==> ok) && (answer.RouterFailed? <==> !ok)
            && w'.mem == w.mem && w'.disk == w.disk && |w'.peers| == |w.peers|
            && (forall k :: 0 <= k < |w.peers| && k != i ==> w'.peers[k] == w.peers[k])
            && w'.peers[i].key == key && w'.peers[i].allowed == w.peers[i].allowed
            && w'.peers[i].comment == w.peers[i].comment
            && w'.peers[i].enabled == if ok then enabled else w.peers[i].enabled
  {
    FirstWithIndex(w.peers, key, i);
  }

  /** left lists, in order, exactly the peers with another key, found at these positions. */
  predicate PeersLeft(left: seq<Peer>, peers: seq<Peer>, key: string, at: seq<nat>) {
    && |left| == |at|
    && (forall i :: 0 <= i < |at| ==> at[i] < |peers| && left[i] == peers[at[i]] && left[i].key != key)
    && (forall i, j :: 0 <= i < j < |at| ==> at[i] < at[j])
    && forall k :: 0 <= k < |peers| && peers[k].key != key ==> k in at
  }

  lemma PeersLeftMore(left: seq<Peer>, peers: seq<Peer>, key: string, at: seq<nat>, p: Peer)
    requires PeersLeft(left, peers, key, at)
    ensures if p.key == key then PeersLeft(left, peers + [p], key, at)
            else PeersLeft(left + [p], peers + [p], key, at + [|peers|])
  {
  }

  lemma {:induction false} OthersAppend(peers: seq<Peer>, key: string, p: Peer)
    ensures Others(peers + [p], key) == Others(peers, key) + if p.key == key then [] else [p]
  {
    if peers == [] {
      assert ([p])[1..] == [] && [] + [p] == [p];
    } else {
      assert (peers + [p])[1..] == peers[1..] + [p];
      OthersAppend(peers[1..], key, p);
    }
  }

  /** The peers a delete leaves are the others, in order. */
  lemma {:induction false} OthersExactly(peers: seq<Peer>, key: string) returns (at: seq<nat>)
    ensures PeersLeft(Others(peers, key), peers, key, at)
  {
    if peers == [] {
      at := [];
    } else {
      var n := |peers| - 1;
      var front, p := peers[..n], peers[n];
      at := OthersExactly(front, key);
      OthersAppend(front, key, p);
      PeersLeftMore(Others(front, key), front, key, at, p);
      assert peers == front + [p];
      if p.key == key {
        assert Others(front, key) + [] == Others(front, key);
      } else {
        at := at + [n];
      }
    }
  }

  /** Exactly when a delete gives which answer, and what a successful one leaves. */
  lemma DeleteExactly(w: World, key: string, f: DeleteFaults, i: nat) returns (at: seq<nat>)
    requires FirstWith(w.peers, key, i)
    ensures var (w', answer) := Delete(w, key, f);
            && (answer.Done? <==> f.removeOk) && (answer.RouterFailed? <==> !f.removeOk)
            && (answer.RouterFailed? ==> w' == w)
            && (answer.Done? ==> PeersLeft(w'.peers, w.peers, key, at))
  {
    FirstWithIndex(w.peers, key, i);
    at := OthersExactly(w.peers, key);
  }
}
