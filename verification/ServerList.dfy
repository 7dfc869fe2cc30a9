// The list of WireGuard servers shown to the user. Peer slices come from a shared query cache:
// they are copied only when a description has to be filled in, and never written to.
module ServerList {

  datatype Peer = Peer(publicKey: string, description: string)

  datatype Server = Server(id: string, description: string, peers: array<Peer>)

  const BUILT_IN := "Wireguard VPN Server"

  /** Stored peer descriptions by server id and public key. */
  type Descriptions = map<(string, string), string>

  /** Shown: built in or marked, and managed in neither of the two other ways. */
  predicate Shown(s: Server, marked: seq<string>, managedTunnels: seq<string>, managedServers: seq<string>) {
    && s.id !in managedTunnels
    && (s.id == "" || s.id !in managedServers)
    && (s.description == BUILT_IN || s.id in marked)
  }

  function Filtered(all: seq<Server>, marked: seq<string>, managedTunnels: seq<string>, managedServers: seq<string>)
    : seq<Server>
  {
    if all == [] then []
    else
      var last := all[|all| - 1];
      Filtered(all[..|all| - 1], marked, managedTunnels, managedServers) +
      if Shown(last, marked, managedTunnels, managedServers) then [last] else []
  }

  /**
   * servers lists, in order, exactly the servers at these positions: built in or marked, and the
   * name of neither a managed tunnel nor a managed server.
   */
  predicate ShownAt(servers: seq<Server>, all: seq<Server>, at: seq<nat>,
                    marked: seq<string>, managedTunnels: seq<string>, managedServers: seq<string>)
  {
    && |servers| == |at|
    && (forall i :: 0 <= i < |at| ==>
          && at[i] < |all| && servers[i] == all[at[i]]
          && (servers[i].description == "Wireguard VPN Server" || servers[i].id in marked)
          && servers[i].id !in managedTunnels && (servers[i].id != "" ==> servers[i].id !in managedServers))
    && (forall i, j :: 0 <= i < j < |at| ==> at[i] < at[j])
    && forall k :: 0 <= k < |all| && k !in at ==>
         || (all[k].description != "Wireguard VPN Server" && all[k].id !in marked)
         || all[k].id in managedTunnels || (all[k].id != "" && all[k].id in managedServers)
  }

  lemma ShownMore(servers: seq<Server>, all: seq<Server>, n: nat, at: seq<nat>,
                  marked: seq<string>, managedTunnels: seq<string>, managedServers: seq<string>)
    requires n + 1 == |all| && ShownAt(servers, all[..n], at, marked, managedTunnels, managedServers)
    ensures if Shown(all[n], marked, managedTunnels, managedServers)
            then ShownAt(servers + [all[n]], all, at + [n], marked, managedTunnels, managedServers)
            else ShownAt(servers + [], all, at, marked, managedTunnels, managedServers)
  {
    assert forall k :: 0 <= k < n ==> all[..n][k] == all[k];
    assert servers + [] == servers;
  }

  lemma {:induction false} FilteredInOrder(all: seq<Server>, marked: seq<string>,
                                          managedTunnels: seq<string>, managedServers: seq<string>)
    returns (at: seq<nat>)
    ensures ShownAt(Filtered(all, marked, managedTunnels, managedServers), all, at,
                    marked, managedTunnels, managedServers)
  {
    if all == [] {
      at := [];
    } else {
      var n := |all| - 1;
      at := FilteredInOrder(all[..n], marked, managedTunnels, managedServers);
      ShownMore(Filtered(all[..n], marked, managedTunnels, managedServers), all, n, at,
                marked, managedTunnels, managedServers);
      if Shown(all[n], marked, managedTunnels, managedServers) {
        at := at + [n];
      }
    }
  }

  method FilterServers(all: seq<Server>, marked: seq<string>, managedTunnels: seq<string>, managedServers: seq<string>)
    returns (servers: seq<Server>)
    ensures servers == Filtered(all, marked, managedTunnels, managedServers)
  {
    var serverSet: set<string> := {};
    for i := 0 to |marked|
      invariant forall x :: x in serverSet <==> x in marked[..i]
    {
      serverSet := serverSet + {marked[i]};
    }
    var managedSet: set<string> := {};
    for i := 0 to |managedTunnels|
      invariant forall x :: x in managedSet <==> x in managedTunnels[..i]
    {
      managedSet := managedSet + {managedTunnels[i]};
    }
    var managedServerSet: set<string> := {};
    for i := 0 to |managedServers|
      invariant forall x :: x in managedServerSet <==> x != "" && x in managedServers[..i]
    {
      if managedServers[i] != "" {
        managedServerSet := managedServerSet + {managedServers[i]};
      }
    }
    servers := [];
    for i := 0 to |all|
      invariant servers == Filtered(all[..i], marked, managedTunnels, managedServers)
    {
      assert all[..i + 1][..i] == all[..i] && all[..i + 1][i] == all[i];
      var s := all[i];
      if s.id in managedSet || s.id in managedServerSet {
        assert !Shown(s, marked, managedTunnels, managedServers);
        continue;
      }
      var isBuiltIn := s.description == BUILT_IN;
      var isMarked := s.id in serverSet;
      if isBuiltIn || isMarked {
        servers := servers + [s];
      }
    }
    assert all[..|all|] == all;
  }

  predicate NeedsFill(id: string, p: Peer, stored: Descriptions) {
    p.description == "" && (id, p.publicKey) in stored && stored[(id, p.publicKey)] != ""
  }

  /** The peers with empty descriptions filled in where one is stored. */
  function Filled(id: string, peers: seq<Peer>, stored: Descriptions): (r: seq<Peer>)
    ensures |r| == |peers|
    ensures forall j :: 0 <= j < |r| ==>
              r[j] == if NeedsFill(id, peers[j], stored)
                      then peers[j].(description := stored[(id, peers[j].publicKey)]) else peers[j]
    ensures forall j :: 0 <= j < |r| ==>
              && r[j].publicKey == peers[j].publicKey
              && (peers[j].description != "" ==> r[j].description == peers[j].description)
              && (peers[j].description == "" ==>
                    r[j].description == if (id, r[j].publicKey) in stored then stored[(id, r[j].publicKey)] else "")
  {
    seq(|peers|, j requires 0 <= j < |peers| =>
      if NeedsFill(id, peers[j], stored) then peers[j].(description := stored[(id, peers[j].publicKey)]) else peers[j])
  }

  predicate AnyNeedsFill(srv: Server, stored: Descriptions)
    reads srv.peers
  {
    exists j :: 0 <= j < srv.peers.Length && NeedsFill(srv.id, srv.peers[j], stored)
  }

  /**
   * One server: its cached slice is kept when nothing needs filling, else a new slice holds the
   * filled copy. Nothing that existed before the call is modified.
   */
  method FillServer(srv: Server, stored: Descriptions) returns (out: Server)
    ensures out.id == srv.id && out.description == srv.description
    ensures out.peers[..] == Filled(srv.id, srv.peers[..], stored)
    ensures if AnyNeedsFill(srv, stored) then fresh(out.peers) else out.peers == srv.peers
  {
    var peers: array?<Peer> := null;
    for j := 0 to srv.peers.Length
      invariant peers == null ==> forall k :: 0 <= k < j ==> !NeedsFill(srv.id, srv.peers[k], stored)
      invariant peers != null ==>
                  && fresh(peers) && peers.Length == srv.peers.Length
                  && (exists k :: 0 <= k < j && NeedsFill(srv.id, srv.peers[k], stored))
                  && (forall k :: 0 <= k < j ==> peers[k] == Filled(srv.id, srv.peers[..], stored)[k])
                  && (forall k :: j <= k < peers.Length ==> peers[k] == srv.peers[k])
    {
      var p := srv.peers[j];
      if p.description != "" {
        continue;
      }
      if (srv.id, p.publicKey) !in stored || stored[(srv.id, p.publicKey)] == "" {
        continue;
      }
      if peers == null {
        peers := new Peer[srv.peers.Length](k requires 0 <= k < srv.peers.Length reads srv.peers => srv.peers[k]);
      }
      peers[j] := peers[j].(description := stored[(srv.id, p.publicKey)]);
    }
    out := srv;
    if peers != null {
      out := srv.(peers := peers);
    }
    assert out.peers[..] == Filled(srv.id, srv.peers[..], stored);
  }

  /**
   * The filtered servers in order, each with its cached slice when nothing is to fill in, else a
   * filled fresh copy.
   */
  method ListServers(all: seq<Server>, marked: seq<string>, managedTunnels: seq<string>, managedServers: seq<string>,
                     stored: Descriptions) returns (servers: seq<Server>)
    ensures var shown := Filtered(all, marked, managedTunnels, managedServers);
            && |servers| == |shown|
            && forall i :: 0 <= i < |servers| ==>
                 && servers[i].id == shown[i].id && servers[i].description == shown[i].description
                 && (if AnyNeedsFill(shown[i], stored) then fresh(servers[i].peers)
                     else servers[i].peers == shown[i].peers)
                 && servers[i].peers[..] == Filled(shown[i].id, shown[i].peers[..], stored)
    ensures forall s :: s in all ==> s.peers[..] == old(s.peers[..])
  {
    servers := FilterServers(all, marked, managedTunnels, managedServers);
    ghost var shown := servers;
    for i := 0 to |servers|
      invariant |servers| == |shown|
      invariant forall k :: i <= k < |servers| ==> servers[k] == shown[k]
      invariant forall k :: 0 <= k < i ==>
                  && servers[k].id == shown[k].id && servers[k].description == shown[k].description
                  && (if AnyNeedsFill(shown[k], stored) then fresh(servers[k].peers)
                      else servers[k].peers == shown[k].peers)
                  && servers[k].peers[..] == Filled(shown[k].id, shown[k].peers[..], stored)
    {
      var srv := FillServer(servers[i], stored);
      servers := servers[i := srv];
    }
  }
}
