// What a successful update guarantees, and what runs of peer requests keep.
module PeerRuns {
  import opened Common
  import opened Text
  import opened Bits
  import opened Subnet
  import opened ServerPeers

  // ---- Update ----

  lemma {:induction false} FirstHostAppend(allowed: seq<Route>, ip: Addr)
    ensures FirstHostRoute(allowed + [Route(ip, 32)]) ==
            if FirstHostRoute(allowed).Some? then FirstHostRoute(allowed) else Some(ip)
    ensures Route(ip, 32) in allowed ==> FirstHostRoute(allowed).Some?
  {
    if allowed == [] {
    } else {
      FirstHostAppend(allowed[1..], ip);
      assert (allowed + [Route(ip, 32)])[1..] == allowed[1..] + [Route(ip, 32)];
    }
  }

  /** After the address is put, the peer is known by its first remaining host route, else by it. */
  lemma PutHost(allowed: seq<Route>, ip: Addr)
    ensures HostIP(WithRoute(allowed, Route(ip, 32))) ==
            if FirstHostRoute(allowed).Some? then FirstHostRoute(allowed) else Some(ip)
  {
    FirstHostAppend(allowed, ip);
  }

  /** Another /32 route of the peer stands in front of the requested address. */
  predicate Shadowed(p: Peer, ip: Addr) {
    var rest := match HostIP(p.allowed)
                case Some(h) => WithoutRoute(p.allowed, Route(h, 32))
                case None => p.allowed;
    FirstHostRoute(rest).Some? && FirstHostRoute(rest).value != ip
  }

  /** The comment is lost: wiped by the address change and not sent again. */
  predicate CommentLost(p: Peer, description: string, t: TunnelText, wipes: bool) {
    wipes && WantsIPChange(p, t) && description == p.comment && TrimSpace(description) != ""
  }

  /** Moving a peer that also has the route second/32 leaves it known by that one, not by ip. */
  lemma ShadowedWitness(first: Addr, second: Addr, ip: Addr)
    requires first != second && second != ip && first != ip
    ensures var p := Peer("k", [Route(first, 32), Route(second, 32)], "", true);
            var (w', answer) := Update(World([p], map[], map[]), Server(None, None), "k", "", Slash(ip, 32, 0),
                                       UpdateFaults(true, true, true, true), false);
            && Shadowed(p, ip) && answer.Done?
            && |w'.peers| == 1 && HostIP(w'.peers[0].allowed) == Some(second)
  {
    var routes := [Route(first, 32), Route(second, 32)];
    assert routes[1..] == [Route(second, 32)] && routes[1..][1..] == [];
    assert WithoutRoute(routes[1..][1..], Route(first, 32)) == [];
    assert WithoutRoute(routes[1..], Route(first, 32)) == [Route(second, 32)];
    assert WithoutRoute(routes, Route(first, 32)) == [Route(second, 32)];
  }

  /** On a wiping router moving a named peer under its own name leaves it nameless. */
  lemma CommentLostWitness(before: Addr, ip: Addr)
    requires before != ip
    ensures var p := Peer("k", [Route(before, 32)], "phone", true);
            var (w', answer) := Update(World([p], map[], map[]), Server(None, None), "k", "phone", Slash(ip, 32, 0),
                                       UpdateFaults(true, true, true, true), true);
            && CommentLost(p, "phone", Slash(ip, 32, 0), true) && answer.Done?
            && |w'.peers| == 1 && w'.peers[0].comment == ""
  {
    TrimmedIsFixed("phone");
  }

  lemma UpdatedPeer(w: World, server: Server, key: string, description: string, t: TunnelText,
                    f: UpdateFaults, wipes: bool) returns (i: nat, p': Peer)
    requires Update(w, server, key, description, t, f, wipes).1.Done?
    ensures IndexOfPeer(w.peers, key) == Some(i)
    ensures Update(w, server, key, description, t, f, wipes).0.peers == w.peers[i := p']
    ensures p'.key == key && p'.enabled == w.peers[i].enabled
    ensures !WantsIPChange(w.peers[i], t) ==> p'.allowed == w.peers[i].allowed
    ensures WantsIPChange(w.peers[i], t) ==>
              && ParseCIDR(t).Some?
              && p'.allowed == WithRoute(AfterDrop(w.peers[i], wipes).allowed, Route(t.host, 32))
    ensures p'.comment == if description != w.peers[i].comment then TrimSpace(description)
                          else if wipes && WantsIPChange(w.peers[i], t) then "" else description
  {
    i := IndexOfPeer(w.peers, key).value;
    var p := w.peers[i];
    p' := p;
    if WantsIPChange(p, t) {
      p' := AfterPut(AfterDrop(p, wipes), t.host, wipes);
      assert ChangeIP(w, i, t.host, f, wipes) == (RouterEdit(w, i, p'), true);
    } else {
      assert w.peers == w.peers[i := p'];
    }
    if description != p.comment {
      p' := p'.(comment := TrimSpace(description));
    }
  }

  lemma UpdatedSecrets(w: World, server: Server, key: string, description: string, t: TunnelText,
                       f: UpdateFaults, wipes: bool)
    requires Update(w, server, key, description, t, f, wipes).1.Done?
    ensures var w' := Update(w, server, key, description, t, f, wipes).0;
            && w'.mem.Keys == w.mem.Keys
            && (forall k :: k in w.mem ==>
                  w'.mem[k] == if k == key then Requested(w.mem[k], description, t) else w.mem[k])
  {
  }

  lemma UpdatedAddress(p: Peer, allowed: seq<Route>, t: TunnelText, wipes: bool)
    requires !WantsIPChange(p, t) ==> allowed == p.allowed
    requires WantsIPChange(p, t) ==>
               t.Slash? && allowed == WithRoute(AfterDrop(p, wipes).allowed, Route(t.host, 32))
    ensures t == Blank ==> allowed == p.allowed
    ensures Named(t).Some? ==>
              (HostIP(allowed) == Named(t) <==> !(WantsIPChange(p, t) && Shadowed(p, Named(t).value)))
  {
    if WantsIPChange(p, t) {
      PutHost(AfterDrop(p, wipes).allowed, t.host);
    }
  }

  lemma UpdatedComment(p: Peer, comment: string, description: string, t: TunnelText, wipes: bool)
    requires comment == if description != p.comment then TrimSpace(description)
                        else if wipes && WantsIPChange(p, t) then "" else description
    ensures TrimSpace(comment) == TrimSpace(description) <==> !CommentLost(p, description, t, wipes)
  {
    TrimSpaceIdempotent(description);
  }

  /**
   * A successful update leaves the peer known by the requested address, unless another /32
   * route shadows it; named as requested up to trimming, unless the comment was wiped and not
   * sent again; and the secret in memory equal to the request.
   */
  lemma UpdateReconciles(w: World, server: Server, key: string, description: string, t: TunnelText,
                         f: UpdateFaults, wipes: bool)
    requires Update(w, server, key, description, t, f, wipes).1.Done?
    ensures var w' := Update(w, server, key, description, t, f, wipes).0;
            var i := IndexOfPeer(w.peers, key).value;
            var p, p' := w.peers[i], w'.peers[i];
            && w'.peers == w.peers[i := p'] && p'.key == key && p'.enabled == p.enabled
            && (t == Blank ==> p'.allowed == p.allowed)
            && (Named(t).Some? ==>
                  (HostIP(p'.allowed) == Named(t) <==> !(WantsIPChange(p, t) && Shadowed(p, Named(t).value))))
            && (TrimSpace(p'.comment) == TrimSpace(description) <==> !CommentLost(p, description, t, wipes))
            && w'.mem.Keys == w.mem.Keys
            && (forall k :: k in w.mem ==>
                  w'.mem[k] == if k == key then Requested(w.mem[k], description, t) else w.mem[k])
  {
    var i, p' := UpdatedPeer(w, server, key, description, t, f, wipes);
    UpdatedAddress(w.peers[i], p'.allowed, t, wipes);
    UpdatedComment(w.peers[i], p'.comment, description, t, wipes);
    UpdatedSecrets(w, server, key, description, t, f, wipes);
  }

  /** The file agrees with the request too exactly when something was left to write, or it did before. */
  lemma UpdateReachesDisk(w: World, server: Server, key: string, description: string, t: TunnelText,
                          f: UpdateFaults, wipes: bool)
    requires Update(w, server, key, description, t, f, wipes).1.Done? && key in w.mem
    ensures var w' := Update(w, server, key, description, t, f, wipes).0;
            (key in w'.disk && w'.disk[key] == Requested(w.mem[key], description, t)) <==>
              (w.mem[key] != Requested(w.mem[key], description, t) || (key in w.disk && w.disk[key] == w.mem[key]))
  {
  }

  lemma FailedSaveUpdate(w: World, server: Server, key: string, description: string, t: TunnelText,
                         f: UpdateFaults, wipes: bool)
    requires Update(w, server, key, description, t, f, wipes).1.SaveFailed?
    ensures var w1 := Update(w, server, key, description, t, f, wipes).0;
            var i := IndexOfPeer(w.peers, key);
            && i.Some? && key in w.mem && w.mem[key] != Requested(w.mem[key], description, t)
            && w1.mem == w.mem[key := Requested(w.mem[key], description, t)] && w1.disk == w.disk
            && |w1.peers| == |w.peers| && (forall k :: 0 <= k < |w.peers| ==> w1.peers[k].key == w.peers[k].key)
            && (WantsIPChange(w1.peers[i.value], t) ==> ParseCIDR(t).Some? && Check(server, ParseCIDR(t)) == Accept)
  {
    var i := IndexOfPeer(w.peers, key).value;
    if WantsIPChange(w.peers[i], t) {
      assert ChangeIP(w, i, t.host, f, wipes).1;
    }
  }

  lemma SettledUpdate(w: World, server: Server, key: string, description: string, t: TunnelText,
                      f: UpdateFaults, wipes: bool)
    requires IndexOfPeer(w.peers, key).Some?
    requires key in w.mem && w.mem[key] == Requested(w.mem[key], description, t)
    requires f.dropOk && f.putOk && f.commentOk
    requires WantsIPChange(w.peers[IndexOfPeer(w.peers, key).value], t) ==>
               ParseCIDR(t).Some? && Check(server, ParseCIDR(t)) == Accept
    ensures var (w', answer) := Update(w, server, key, description, t, f, wipes);
            answer.Done? && w'.mem == w.mem && w'.disk == w.disk
  {
    var i := IndexOfPeer(w.peers, key).value;
    if WantsIPChange(w.peers[i], t) {
      var (w1, moved) := ChangeIP(w, i, t.host, f, wipes);
      assert moved && w1.mem == w.mem && w1.disk == w.disk && |w1.peers| == |w.peers|;
    }
  }

  /**
   * After an update whose save failed, repeating it succeeds without writing: memory already
   * agrees with the request, so the file keeps the old secret.
   */
  lemma RetryAfterFailedSaveWritesNothing(w: World, server: Server, key: string, description: string, t: TunnelText,
                                          f: UpdateFaults, again: UpdateFaults, wipes: bool)
    requires Update(w, server, key, description, t, f, wipes).1.SaveFailed?
    requires again.dropOk && again.putOk && again.commentOk
    ensures var w1 := Update(w, server, key, description, t, f, wipes).0;
            var (w2, answer) := Update(w1, server, key, description, t, again, wipes);
            && answer.Done?
            && w2.disk == w.disk
            && key in w.mem && key in w2.mem && w2.mem[key] != w.mem[key]
            && w2.mem[key] == Requested(w.mem[key], description, t)
  {
    FailedSaveUpdate(w, server, key, description, t, f, wipes);
    var w1 := Update(w, server, key, description, t, f, wipes).0;
    SameIndex(w.peers, w1.peers, key);
    SettledUpdate(w1, server, key, description, t, again, wipes);
  }

  lemma SameIndex(a: seq<Peer>, b: seq<Peer>, key: string)
    requires |a| == |b| && forall k :: 0 <= k < |a| ==> a[k].key == b[k].key
    ensures IndexOfPeer(a, key) == IndexOfPeer(b, key)
  {
    var i, j := IndexOfPeer(a, key), IndexOfPeer(b, key);
    assert i.Some? ==> b[i.value].key == key;
    assert j.Some? ==> a[j.value].key == key;
  }

  /** A peer left without an address takes the text "/32" for its current one and stores it. */
  lemma BareSlashIsStored(w: World, server: Server, key: string, f: UpdateFaults, wipes: bool)
    requires IndexOfPeer(w.peers, key).Some? && key in w.mem
    requires w.peers[IndexOfPeer(w.peers, key).value].allowed == []
    requires w.peers[IndexOfPeer(w.peers, key).value].comment == w.mem[key].description
    requires f.saveOk
    ensures var (w', answer) := Update(w, server, key, w.mem[key].description, Other("/32"), f, wipes);
            answer.Done? && w'.peers == w.peers && w'.mem[key].tunnelIP == Other("/32")
  {
  }

  /** Of the texts that succeed, "/32" is the only one that names no address. */
  lemma OnlyBareSlashNamesNone(w: World, server: Server, key: string, description: string, t: TunnelText,
                               f: UpdateFaults, wipes: bool)
    requires Update(w, server, key, description, t, f, wipes).1.Done?
    ensures Named(t).None? <==> t == Blank || t == Other("/32")
    ensures t == Other("/32") ==> HostIP(w.peers[IndexOfPeer(w.peers, key).value].allowed).None?
  {
  }

  /** A stored text that names an address loses it through a successful update exactly when that is "/32". */
  lemma StoredTextNamesNone(w: World, server: Server, key: string, description: string, t: TunnelText,
                            f: UpdateFaults, wipes: bool)
    requires Update(w, server, key, description, t, f, wipes).1.Done?
    requires key in w.mem && Named(w.mem[key].tunnelIP).Some?
    ensures var w' := Update(w, server, key, description, t, f, wipes).0;
            key in w'.mem && (Named(w'.mem[key].tunnelIP).None? <==> t == Other("/32"))
  {
    UpdateReconciles(w, server, key, description, t, f, wipes);
    OnlyBareSlashNamesNone(w, server, key, description, t, f, wipes);
  }

  /**
   * After a successful update the stored text names the address the listed peer is known by,
   * exactly if the request left the text alone and they agreed before, or gave a new text whose
   * address is not shadowed. No address on either side counts as agreement.
   */
  lemma StoredTextMatchesPeer(w: World, server: Server, key: string, description: string, t: TunnelText,
                              f: UpdateFaults, wipes: bool)
    requires Update(w, server, key, description, t, f, wipes).1.Done? && key in w.mem
    ensures var w' := Update(w, server, key, description, t, f, wipes).0;
            var i := IndexOfPeer(w.peers, key).value;
            var p := w.peers[i];
            && key in w'.mem && i < |w'.peers|
            && (Named(w'.mem[key].tunnelIP) == HostIP(w'.peers[i].allowed) <==>
                  if t == Blank then Named(w.mem[key].tunnelIP) == HostIP(p.allowed)
                  else !(Named(t).Some? && WantsIPChange(p, t) && Shadowed(p, Named(t).value)))
  {
    UpdateReconciles(w, server, key, description, t, f, wipes);
    OnlyBareSlashNamesNone(w, server, key, description, t, f, wipes);
    var i, p' := UpdatedPeer(w, server, key, description, t, f, wipes);
  }

  // ---- Add and delete ----

  /**
   * A successful add lists exactly one new peer, known by the requested address that nobody had,
   * with its secret in memory and in the file. A refused one lists nothing; it leaves the secret
   * behind in memory exactly when the save failed, and in the file exactly when the router
   * refused and the undo could not be written. Other secrets stay as they were in memory; the
   * file keeps its own, or holds those of memory once anything was written.
   */
  lemma AddAllOrNothing(w: World, server: Server, description: string, t: TunnelText,
                        key: string, privateKey: string, psk: string, f: AddFaults)
    requires key !in w.mem && key !in w.disk
    ensures var (w', answer) := Add(w, server, description, t, key, privateKey, psk, f);
            && (answer.Done? ==>
                  && |w'.peers| == |w.peers| + 1 && w'.peers[..|w.peers|] == w.peers
                  && var p := w'.peers[|w.peers|];
                  && p.key == key && p.enabled && p.comment == TrimSpace(description)
                  && Check(server, HostIP(p.allowed)) == Accept
                  && HostIP(p.allowed) == Named(t) && !Uses(w.peers, Named(t).value)
                  && w'.disk == w'.mem == w.mem[key := Secret(privateKey, psk, description, t)])
            && (!answer.Done? ==>
                  && w'.peers == w.peers
                  && (key in w'.mem <==> answer.SaveFailed?)
                  && (key in w'.disk <==> answer.RouterFailed? && !f.forgetOk)
                  && w'.mem - {key} == w.mem
                  && w'.disk - {key} == if answer.RouterFailed? then w.mem else w.disk)
  {
    var stored := w.mem[key := Secret(privateKey, psk, description, t)];
    assert stored - {key} == w.mem && w.mem - {key} == w.mem && w.disk - {key} == w.disk;
    assert key in stored;
  }

  /** The secret an add stranded in memory reaches the file with the next save that succeeds. */
  lemma StrandedSecretSaved(w: World, server: Server, description: string, t: TunnelText,
                            key: string, privateKey: string, psk: string, f: AddFaults,
                            other: string, sec: Secret)
    requires other != key
    ensures var (w1, answer) := Add(w, server, description, t, key, privateKey, psk, f);
            var w' := SaveSecret(w1, other, sec, true);
            answer.SaveFailed? ==> key in w'.disk && w'.disk[key] == Secret(privateKey, psk, description, t)
  {
  }

  lemma {:induction false} OthersOfAppended(peers: seq<Peer>, p: Peer)
    requires IndexOfPeer(peers, p.key).None?
    ensures Others(peers + [p], p.key) == peers
  {
    if peers == [] {
      assert [p][1..] == [];
    } else {
      assert (peers + [p])[1..] == peers[1..] + [p];
      OthersOfAppended(peers[1..], p);
    }
  }

  lemma AddMeans(w: World, server: Server, description: string, t: TunnelText,
                 key: string, privateKey: string, psk: string, f: AddFaults)
    requires Add(w, server, description, t, key, privateKey, psk, f).1.Done?
    ensures t.Slash?
    ensures var secrets := w.mem[key := Secret(privateKey, psk, description, t)];
            Add(w, server, description, t, key, privateKey, psk, f).0 ==
              World(w.peers + [Peer(key, [Route(t.host, 32)], TrimSpace(description), true)], secrets, secrets)
  {
  }

  lemma AppendedIsListed(peers: seq<Peer>, p: Peer)
    ensures IndexOfPeer(peers + [p], p.key).Some?
  {
    assert (peers + [p])[|peers|] == p;
  }

  /** Deleting a peer just added gives the state before the add, the file now agreeing with memory. */
  lemma DeleteUndoesAdd(w: World, server: Server, description: string, t: TunnelText,
                        key: string, privateKey: string, psk: string, af: AddFaults, df: DeleteFaults)
    requires key !in w.mem && IndexOfPeer(w.peers, key).None?
    ensures var (w1, answer) := Add(w, server, description, t, key, privateKey, psk, af);
            answer.Done? && df.removeOk && df.forgetOk ==> Delete(w1, key, df) == (w.(disk := w.mem), Done)
  {
    if Add(w, server, description, t, key, privateKey, psk, af).1.Done? {
      AddMeans(w, server, description, t, key, privateKey, psk, af);
      var p := Peer(key, [Route(t.host, 32)], TrimSpace(description), true);
      var secrets := w.mem[key := Secret(privateKey, psk, description, t)];
      AppendedIsListed(w.peers, p);
      OthersOfAppended(w.peers, p);
      assert key in secrets && secrets - {key} == w.mem;
    }
  }

  /**
   * A deleted peer is no longer listed and its secret gone from memory; all others stay. The file
   * takes over memory unless the write fails or memory was empty, when nothing is written; the
   * secret stays in the file exactly then.
   */
  lemma DeleteForgets(w: World, key: string, f: DeleteFaults)
    ensures var (w', answer) := Delete(w, key, f);
            && (answer.Done? <==> IndexOfPeer(w.peers, key).Some? && f.removeOk)
            && (!answer.Done? ==> w' == w)
            && (answer.Done? ==>
                  && (forall p :: p in w'.peers <==> p in w.peers && p.key != key)
                  && w'.mem == w.mem - {key}
                  && (key in w'.disk <==> key in w.disk && (!f.forgetOk || w.mem == map[]))
                  && w'.disk == if f.forgetOk && w.mem != map[] then w'.mem else w.disk)
  {
    if w.mem == map[] {
      assert w.mem - {key} == w.mem;
    }
  }

  // ---- Runs ----

  datatype Event =
    | Added(description: string, t: TunnelText, key: string, privateKey: string, psk: string, af: AddFaults)
    | Updated(key: string, description: string, t: TunnelText, uf: UpdateFaults)
    | Deleted(key: string, df: DeleteFaults)
    | Toggled(key: string, enabled: bool, routerOk: bool)

  function Happen(w: World, server: Server, wipes: bool, e: Event): World {
    match e
    case Added(d, t, key, priv, psk, f) => Add(w, server, d, t, key, priv, psk, f).0
    case Updated(key, d, t, f) => Update(w, server, key, d, t, f, wipes).0
    case Deleted(key, f) => Delete(w, key, f).0
    case Toggled(key, enabled, ok) => Toggle(w, key, enabled, ok).0
  }

  function After(w: World, server: Server, wipes: bool, events: seq<Event>): World
    decreases |events|
  {
    if events == [] then w else After(Happen(w, server, wipes, events[0]), server, wipes, events[1..])
  }

  const EMPTY := World([], map[], map[])

  /** The peer has at most one route, a host route. */
  predicate PlainPeer(p: Peer) {
    p.allowed == [] || (|p.allowed| == 1 && p.allowed[0].Route? && p.allowed[0].bits == 32)
  }

  ghost predicate Plain(peers: seq<Peer>) {
    forall p :: p in peers ==> PlainPeer(p)
  }

  lemma PlainDrop(p: Peer, wipes: bool)
    requires PlainPeer(p)
    ensures AfterDrop(p, wipes).allowed == []
    ensures forall ip :: PlainPeer(AfterPut(AfterDrop(p, wipes), ip, wipes))
    ensures forall ip :: !Shadowed(p, ip)
  {
    if p.allowed != [] {
      var r := p.allowed[0];
      assert HostIP(p.allowed) == Some(r.host) && r == Route(r.host, 32);
      assert WithoutRoute(p.allowed[1..], r) == [];
    }
  }

  lemma EditPlain(w: World, i: nat, p: Peer)
    requires Plain(w.peers) && i < |w.peers| && PlainPeer(p)
    ensures Plain(RouterEdit(w, i, p).peers)
  {
  }

  lemma ChangeIPPlain(w: World, i: nat, ip: Addr, f: UpdateFaults, wipes: bool)
    requires Plain(w.peers) && i < |w.peers|
    ensures Plain(ChangeIP(w, i, ip, f, wipes).0.peers)
    ensures |ChangeIP(w, i, ip, f, wipes).0.peers| == |w.peers|
  {
    var p := w.peers[i];
    PlainDrop(p, wipes);
    EditPlain(w, i, AfterDrop(p, wipes));
    EditPlain(w, i, AfterPut(AfterDrop(p, wipes), ip, wipes));
  }

  lemma StepPlain(w: World, server: Server, wipes: bool, e: Event)
    requires Plain(w.peers)
    ensures Plain(Happen(w, server, wipes, e).peers)
  {
    if e.Updated? && IndexOfPeer(w.peers, e.key).Some? {
      var i := IndexOfPeer(w.peers, e.key).value;
      var w1 := w;
      if WantsIPChange(w.peers[i], e.t) && ParseCIDR(e.t).Some? {
        ChangeIPPlain(w, i, e.t.host, e.uf, wipes);
        w1 := ChangeIP(w, i, e.t.host, e.uf, wipes).0;
      }
      assert w1.peers[i] in w1.peers;
      EditPlain(w1, i, w1.peers[i].(comment := TrimSpace(e.description)));
    } else if e.Toggled? && IndexOfPeer(w.peers, e.key).Some? {
      var i := IndexOfPeer(w.peers, e.key).value;
      assert w.peers[i] in w.peers;
      EditPlain(w, i, w.peers[i].(enabled := e.enabled));
    }
  }

  lemma {:induction false} RunsStayPlain(w: World, server: Server, wipes: bool, events: seq<Event>)
    requires Plain(w.peers)
    ensures Plain(After(w, server, wipes, events).peers)
    decreases |events|
  {
    if events == [] {
    } else {
      StepPlain(w, server, wipes, events[0]);
      RunsStayPlain(Happen(w, server, wipes, events[0]), server, wipes, events[1..]);
    }
  }

  /** So in runs of this handler alone no address is ever shadowed. */
  lemma NeverShadowed(server: Server, wipes: bool, events: seq<Event>, p: Peer, ip: Addr)
    requires p in After(EMPTY, server, wipes, events).peers
    ensures !Shadowed(p, ip)
  {
    RunsStayPlain(EMPTY, server, wipes, events);
    PlainDrop(p, wipes);
  }

  /** Every peer has one host route, accepted for this server, and no two share an address. */
  ghost predicate Placed(peers: seq<Peer>, server: Server) {
    && (forall p :: p in peers ==>
          |p.allowed| == 1 && p.allowed[0].Route? && p.allowed[0].bits == 32
          && Check(server, Some(p.allowed[0].host)) == Accept)
    && (forall i, j :: 0 <= i < j < |peers| ==> HostIP(peers[i].allowed) != HostIP(peers[j].allowed))
  }

  lemma {:induction false} OthersPlaced(peers: seq<Peer>, server: Server, key: string)
    requires Placed(peers, server)
    ensures Placed(Others(peers, key), server)
  {
    if peers == [] {
    } else {
      assert forall p :: p in peers[1..] ==> p in peers;
      OthersPlaced(peers[1..], server, key);
      var rest := Others(peers[1..], key);
      forall p | p in rest ensures HostIP(p.allowed) != HostIP(peers[0].allowed) {
        var k :| 0 < k < |peers| && peers[k] == p;
      }
    }
  }

  /** The update gets as far as moving the peer to a new address. */
  predicate Moves(p: Peer, server: Server, t: TunnelText) {
    WantsIPChange(p, t) && t.Slash? && Check(server, Some(t.host)) == Accept
  }

  /**
   * The update takes a peer's address away without putting the new one, or puts one that another
   * listed peer has. Nothing in the code prevents either.
   */
  predicate Misplaces(w: World, server: Server, key: string, t: TunnelText, f: UpdateFaults) {
    var i := IndexOfPeer(w.peers, key);
    && i.Some?
    && Moves(w.peers[i.value], server, t) && f.dropOk
    && (!f.putOk || exists k :: 0 <= k < |w.peers| && k != i.value && HostIP(w.peers[k].allowed) == Some(t.host))
  }

  /** Beyond moving an address an update may only change the comment. */
  lemma UpdatedPeers(w: World, server: Server, key: string, description: string, t: TunnelText,
                     f: UpdateFaults, wipes: bool)
    requires IndexOfPeer(w.peers, key).Some?
    ensures var i, now := IndexOfPeer(w.peers, key).value, Update(w, server, key, description, t, f, wipes).0.peers;
            var moved := if Moves(w.peers[i], server, t) then ChangeIP(w, i, t.host, f, wipes).0.peers else w.peers;
            && i < |moved|
            && (now == moved || now == moved[i := moved[i].(comment := TrimSpace(description))])
  {
  }

  lemma MovedRoutes(w: World, i: nat, ip: Addr, f: UpdateFaults, wipes: bool)
    requires i < |w.peers| && PlainPeer(w.peers[i]) && w.peers[i].allowed != []
    ensures var now := ChangeIP(w, i, ip, f, wipes).0.peers;
            && |now| == |w.peers| && (forall k :: 0 <= k < |now| && k != i ==> now[k] == w.peers[k])
            && now[i].allowed == if !f.dropOk then w.peers[i].allowed else if f.putOk then [Route(ip, 32)] else []
  {
    PlainDrop(w.peers[i], wipes);
  }

  /** Only the routes of one peer move, and only when its address is changed. */
  lemma UpdatedRoutes(w: World, server: Server, key: string, description: string, t: TunnelText,
                      f: UpdateFaults, wipes: bool)
    requires Placed(w.peers, server) && IndexOfPeer(w.peers, key).Some?
    ensures var i, now := IndexOfPeer(w.peers, key).value, Update(w, server, key, description, t, f, wipes).0.peers;
            && |now| == |w.peers| && (forall k :: 0 <= k < |now| && k != i ==> now[k] == w.peers[k])
            && now[i].allowed ==
               if !(Moves(w.peers[i], server, t) && f.dropOk) then w.peers[i].allowed
               else if f.putOk then [Route(t.host, 32)] else []
  {
    var i := IndexOfPeer(w.peers, key).value;
    assert w.peers[i] in w.peers;
    UpdatedPeers(w, server, key, description, t, f, wipes);
    if Moves(w.peers[i], server, t) {
      MovedRoutes(w, i, t.host, f, wipes);
    }
  }

  /** From placed peers an update keeps them placed exactly unless it misplaces one. */
  lemma UpdatePlacedExactly(w: World, server: Server, key: string, description: string, t: TunnelText,
                            f: UpdateFaults, wipes: bool)
    requires Placed(w.peers, server)
    ensures Placed(Update(w, server, key, description, t, f, wipes).0.peers, server) <==>
              !Misplaces(w, server, key, t, f)
  {
    var index := IndexOfPeer(w.peers, key);
    if index.Some? {
      var i, now := index.value, Update(w, server, key, description, t, f, wipes).0.peers;
      UpdatedRoutes(w, server, key, description, t, f, wipes);
      assert w.peers[i] in w.peers && now[i] in now;
      if now[i].allowed == w.peers[i].allowed {
        SameRoutesPlaced(w.peers, now, server);
      } else if f.putOk {
        MovedPlaced(w.peers, now, i, t.host, server);
      }
    }
  }

  lemma SameRoutesPlaced(peers: seq<Peer>, now: seq<Peer>, server: Server)
    requires Placed(peers, server) && |now| == |peers|
    requires forall k :: 0 <= k < |now| ==> now[k].allowed == peers[k].allowed
    ensures Placed(now, server)
  {
    forall p | p in now ensures exists q :: q in peers && q.allowed == p.allowed {
      var k :| 0 <= k < |now| && now[k] == p;
      assert peers[k] in peers;
    }
  }

  lemma MovedPlaced(peers: seq<Peer>, now: seq<Peer>, i: nat, ip: Addr, server: Server)
    requires Placed(peers, server) && i < |now| == |peers|
    requires forall k :: 0 <= k < |now| && k != i ==> now[k] == peers[k]
    requires now[i].allowed == [Route(ip, 32)] && Check(server, Some(ip)) == Accept
    ensures Placed(now, server) <==>
              forall k :: 0 <= k < |peers| && k != i ==> HostIP(peers[k].allowed) != Some(ip)
  {
    assert HostIP(now[i].allowed) == Some(ip);
    forall p | p in now && p != now[i] ensures p in peers {
    }
    if k :| 0 <= k < |peers| && k != i && HostIP(peers[k].allowed) == Some(ip) {
      assert HostIP(now[k].allowed) == HostIP(now[i].allowed);
    }
  }

  lemma AppendedPlaced(peers: seq<Peer>, p: Peer, ip: Addr, server: Server)
    requires Placed(peers, server) && p.allowed == [Route(ip, 32)]
    requires Check(server, Some(ip)) == Accept && !Uses(peers, ip)
    ensures Placed(peers + [p], server)
  {
    assert HostIP(p.allowed) == Some(ip);
  }

  lemma AddPlaced(w: World, server: Server, d: string, t: TunnelText,
                  key: string, priv: string, psk: string, f: AddFaults)
    requires Placed(w.peers, server)
    ensures Placed(Add(w, server, d, t, key, priv, psk, f).0.peers, server)
  {
    if Add(w, server, d, t, key, priv, psk, f).1.Done? {
      AppendedPlaced(w.peers, Peer(key, [Route(t.host, 32)], TrimSpace(d), true), t.host, server);
    }
  }

  lemma TogglePlaced(w: World, server: Server, key: string, enabled: bool, ok: bool)
    requires Placed(w.peers, server)
    ensures Placed(Toggle(w, key, enabled, ok).0.peers, server)
  {
    SameRoutesPlaced(w.peers, Toggle(w, key, enabled, ok).0.peers, server);
  }

  lemma StepPlaced(w: World, server: Server, wipes: bool, e: Event)
    requires Placed(w.peers, server) && (e.Updated? ==> !Misplaces(w, server, e.key, e.t, e.uf))
    ensures Placed(Happen(w, server, wipes, e).peers, server)
  {
    match e {
      case Added(d, t, key, priv, psk, f) => AddPlaced(w, server, d, t, key, priv, psk, f);
      case Updated(key, d, t, f) => UpdatePlacedExactly(w, server, key, d, t, f, wipes);
      case Deleted(key, f) => OthersPlaced(w.peers, server, key);
      case Toggled(key, enabled, ok) => TogglePlaced(w, server, key, enabled, ok);
    }
  }

  /** No update of the run misplaces a peer. */
  predicate Careful(w: World, server: Server, wipes: bool, events: seq<Event>)
    decreases |events|
  {
    if events == [] then true
    else
      && (events[0].Updated? ==> !Misplaces(w, server, events[0].key, events[0].t, events[0].uf))
      && Careful(Happen(w, server, wipes, events[0]), server, wipes, events[1..])
  }

  lemma {:induction false} NoUpdatesCareful(w: World, server: Server, wipes: bool, events: seq<Event>)
    requires forall e :: e in events ==> !e.Updated?
    ensures Careful(w, server, wipes, events)
    decreases |events|
  {
    if events == [] {
    } else {
      NoUpdatesCareful(Happen(w, server, wipes, events[0]), server, wipes, events[1..]);
    }
  }

  lemma {:induction false} RunsStayPlaced(w: World, server: Server, wipes: bool, events: seq<Event>)
    requires Placed(w.peers, server) && Careful(w, server, wipes, events)
    ensures Placed(After(w, server, wipes, events).peers, server)
    decreases |events|
  {
    if events == [] {
    } else {
      StepPlaced(w, server, wipes, events[0]);
      RunsStayPlaced(Happen(w, server, wipes, events[0]), server, wipes, events[1..]);
    }
  }

  // ---- How many peers fit ----

  function Between(lo: int, hi: int): (r: set<int>)
    ensures forall x :: x in r <==> lo < x < hi
    ensures |r| == if lo < hi then hi - lo - 1 else 0
    decreases hi - lo
  {
    if hi <= lo + 1 then {} else Between(lo, hi - 1) + {hi - 1}
  }

  lemma SubsetSize(a: set<int>, b: set<int>)
    requires a <= b
    ensures |a| <= |b|
  {
    assert b == a + (b - a);
  }

  lemma {:induction false} DistinctCount(s: seq<int>)
    requires forall i, j :: 0 <= i < j < |s| ==> s[i] != s[j]
    ensures |set x | x in s| == |s|
  {
    if s != [] {
      var rest := s[1..];
      DistinctCount(rest);
      assert (set x | x in s) == {s[0]} + (set x | x in rest);
    } else {
      assert (set x | x in s) == {};
    }
  }

  /** The address of a peer as a number. */
  function Number(p: Peer): int {
    if p.allowed != [] && p.allowed[0].Route? && p.allowed[0].host.V4? then Value(p.allowed[0].host.q) else -1
  }

  lemma DistinctNumbers(p: Peer, q: Peer)
    requires HostIP(p.allowed) != HostIP(q.allowed)
    requires PlainPeer(p) && PlainPeer(q) && p.allowed != [] && q.allowed != []
    requires p.allowed[0].host.V4? && q.allowed[0].host.V4?
    ensures Number(p) != Number(q)
  {
    EqualValues(p.allowed[0].host.q, q.allowed[0].host.q);
  }

  /**
   * Any run of adds, deletes, toggles and updates that misplace no peer, from an empty server,
   * keeps the peers' addresses distinct, and they never outnumber the usable addresses of the subnet: all but network,
   * broadcast and the server itself.
   */
  lemma PeersFitSubnet(own: Quad, p: nat, wipes: bool, events: seq<Event>)
    requires p <= 30
    requires var net := NetworkValue(own, p); net < Value(own) < net + Pow2(32 - p) - 1
    requires Careful(EMPTY, Server(Some(V4(own)), Some(MaskOf(p, 4))), wipes, events)
    ensures var server := Server(Some(V4(own)), Some(MaskOf(p, 4)));
            var peers := After(EMPTY, server, wipes, events).peers;
            && (forall i, j :: 0 <= i < j < |peers| ==> HostIP(peers[i].allowed) != HostIP(peers[j].allowed))
            && |peers| <= Pow2(32 - p) - 3
  {
    var server := Server(Some(V4(own)), Some(MaskOf(p, 4)));
    RunsStayPlaced(EMPTY, server, wipes, events);
    var peers := After(EMPTY, server, wipes, events).peers;
    var net, top := NetworkValue(own, p), NetworkValue(own, p) + Pow2(32 - p) - 1;
    var usable := Between(net, top) - {Value(own)};
    var numbers := seq(|peers|, i requires 0 <= i < |peers| => Number(peers[i]));
    forall i | 0 <= i < |peers| ensures numbers[i] in usable {
      assert peers[i] in peers;
      CheckMeaning(own, p, peers[i].allowed[0].host.q);
    }
    forall i, j | 0 <= i < j < |peers| ensures numbers[i] != numbers[j] {
      assert peers[i] in peers && peers[j] in peers;
      DistinctNumbers(peers[i], peers[j]);
    }
    DistinctCount(numbers);
    SubsetSize((set x | x in numbers), usable);
  }
}
