// Any number of peer requests in flight at once, interleaved call by call, with the process
// crashing at any point: a peer added by this program never loses its private key.
module PeerProtocol {
  import opened Common
  import opened Text
  import opened Subnet
  import opened ServerPeers

  /** What an in-flight request does next. */
  datatype Job =
    | AddSave(key: string, secret: Secret, ip: Addr)
    | AddRouter(key: string, comment: string, ip: Addr)
    | AddUndo(key: string)
    | DeleteRouter(key: string)
    | DeleteForget(key: string)
    | UpdateRouter(key: string, description: string, t: TunnelText)
    | UpdateLoad(key: string, description: string, t: TunnelText)
    | UpdateStore(key: string, secret: Secret)
    | Finished

  /**
   * Outside this program peers may be edited, removed, and added with keys it never generated.
   * issued remembers the private key generated for each public key, for the statement only.
   */
  datatype System = System(world: World, issued: map<string, string>, jobs: seq<Job>)

  datatype Step =
    | StartAdd(key: string, privateKey: string, psk: string, description: string, t: TunnelText)
    | StartDelete(key: string)
    | StartUpdate(key: string, description: string, t: TunnelText)
    | Advance(j: nat, ok: bool)
    | RouterEdits(i: nat, peer: Peer)
    | OutsideAdds(peer: Peer)
    | OutsideRemoves(i: nat)
    | Crash

  predicate Listed(w: World, key: string) {
    exists i :: 0 <= i < |w.peers| && w.peers[i].key == key
  }

  predicate Mentions(job: Job, key: string) {
    !job.Finished? && job.key == key
  }

  /** A newly generated key that occurs nowhere yet. */
  predicate Unused(s: System, key: string) {
    && key !in s.issued && key !in s.world.mem && key !in s.world.disk && !Listed(s.world, key)
    && forall j :: 0 <= j < |s.jobs| ==> !Mentions(s.jobs[j], key)
  }

  predicate Enabled(s: System, server: Server, st: Step) {
    match st
    case StartAdd(key, priv, psk, d, t) =>
      && Check(server, ParseCIDR(t)) == Accept && ParseCIDR(t).Some?
      && !Uses(s.world.peers, ParseCIDR(t).value)
      && Unused(s, key)
    case StartDelete(key) => Listed(s.world, key)
    case StartUpdate(key, d, t) => Listed(s.world, key)
    case Advance(j, ok) => j < |s.jobs|
    case RouterEdits(i, peer) => i < |s.world.peers| && peer.key == s.world.peers[i].key
    case OutsideAdds(peer) => peer.key !in s.issued
    case OutsideRemoves(i) => i < |s.world.peers|
    case Crash => true
  }

  /** One call of one request, with its outcome. */
  function Next(w: World, job: Job, ok: bool): (World, Job) {
    match job
    case AddSave(key, sec, ip) =>
      (SaveSecret(w, key, sec, ok), if ok then AddRouter(key, TrimSpace(sec.description), ip) else Finished)
    case AddRouter(key, comment, ip) =>
      if ok then (RouterAdd(w, key, comment, ip), Finished) else (w, AddUndo(key))
    case AddUndo(key) => (ForgetSecret(w, key, ok), Finished)
    case DeleteRouter(key) => if ok then (RouterRemove(w, key), DeleteForget(key)) else (w, Finished)
    case DeleteForget(key) => (ForgetSecret(w, key, ok), Finished)
    case UpdateRouter(key, d, t) => (w, if ok then UpdateLoad(key, d, t) else Finished)
    case UpdateLoad(key, d, t) =>
      (w, if key in w.mem && w.mem[key] != Requested(w.mem[key], d, t)
          then UpdateStore(key, Requested(w.mem[key], d, t)) else Finished)
    case UpdateStore(key, sec) => (SaveSecret(w, key, sec, ok), Finished)
    case Finished => (w, Finished)
  }

  function Apply(s: System, server: Server, st: Step): System
    requires Enabled(s, server, st)
  {
    match st
    case StartAdd(key, priv, psk, d, t) =>
      s.(issued := s.issued[key := priv],
         jobs := s.jobs + [AddSave(key, Secret(priv, psk, d, t), ParseCIDR(t).value)])
    case StartDelete(key) => s.(jobs := s.jobs + [DeleteRouter(key)])
    case StartUpdate(key, d, t) => s.(jobs := s.jobs + [UpdateRouter(key, d, t)])
    case Advance(j, ok) =>
      var (w', job') := Next(s.world, s.jobs[j], ok);
      s.(world := w', jobs := s.jobs[j := job'])
    case RouterEdits(i, peer) => s.(world := RouterEdit(s.world, i, peer))
    case OutsideAdds(peer) => s.(world := s.world.(peers := s.world.peers + [peer]))
    case OutsideRemoves(i) => s.(world := s.world.(peers := s.world.peers[..i] + s.world.peers[i + 1..]))
    case Crash => s.(world := s.world.(mem := s.world.disk), jobs := [])
  }

  predicate Run(s: System, server: Server, steps: seq<Step>, s': System)
    decreases |steps|
  {
    if steps == [] then s == s'
    else Enabled(s, server, steps[0]) && Run(Apply(s, server, steps[0]), server, steps[1..], s')
  }

  const START := System(World([], map[], map[]), map[], [])

  // ---- The invariant ----

  predicate HasKey(secrets: Secrets, key: string, privateKey: string) {
    key in secrets && secrets[key].privateKey == privateKey
  }

  /** Both copies of the store hold the private key of every listed peer this program added. */
  ghost predicate KeysSafe(s: System) {
    forall key :: key in s.issued && Listed(s.world, key) ==>
      HasKey(s.world.mem, key, s.issued[key]) && HasKey(s.world.disk, key, s.issued[key])
  }

  /** A stored private key is never the wrong one. */
  ghost predicate KeysRight(s: System) {
    && (forall key :: key in s.issued && key in s.world.mem ==> s.world.mem[key].privateKey == s.issued[key])
    && (forall key :: key in s.issued && key in s.world.disk ==> s.world.disk[key].privateKey == s.issued[key])
  }

  predicate Adding(job: Job) { job.AddSave? || job.AddRouter? }

  predicate Forgetting(job: Job) { job.AddUndo? || job.DeleteForget? }

  ghost predicate JobOk(s: System, job: Job) {
    && ((Adding(job) || Forgetting(job)) && job.key in s.issued ==> !Listed(s.world, job.key))
    && (Adding(job) ==> job.key in s.issued)
    && (job.AddSave? ==> job.secret.privateKey == s.issued[job.key])
    && (job.AddRouter? ==>
          HasKey(s.world.mem, job.key, s.issued[job.key]) && HasKey(s.world.disk, job.key, s.issued[job.key]))
    && (job.UpdateStore? && job.key in s.issued ==> job.secret.privateKey == s.issued[job.key])
  }

  ghost predicate JobsOk(s: System) {
    && (forall j :: 0 <= j < |s.jobs| ==> JobOk(s, s.jobs[j]))
    && (forall i, j :: 0 <= i < |s.jobs| && 0 <= j < |s.jobs| && i != j && Adding(s.jobs[i]) ==>
          !Mentions(s.jobs[j], s.jobs[i].key))
  }

  ghost predicate Inv(s: System) { KeysSafe(s) && KeysRight(s) && JobsOk(s) }

  lemma StartAddInv(s: System, server: Server, st: Step)
    requires Inv(s) && Enabled(s, server, st) && st.StartAdd?
    ensures Inv(Apply(s, server, st))
  {
    var s' := Apply(s, server, st);
    forall j | 0 <= j < |s'.jobs| ensures JobOk(s', s'.jobs[j]) {
      if j < |s.jobs| {
        assert JobOk(s, s.jobs[j]) && !Mentions(s.jobs[j], st.key);
      }
    }
  }

  lemma StartInv(s: System, server: Server, st: Step)
    requires Inv(s) && Enabled(s, server, st) && (st.StartDelete? || st.StartUpdate? || st.Crash?)
    ensures Inv(Apply(s, server, st))
  {
  }

  lemma EditInv(s: System, server: Server, st: Step)
    requires Inv(s) && Enabled(s, server, st) && st.RouterEdits?
    ensures Inv(Apply(s, server, st))
  {
    var s' := Apply(s, server, st);
    forall key | Listed(s'.world, key) ensures Listed(s.world, key) {
      var i :| 0 <= i < |s'.world.peers| && s'.world.peers[i].key == key;
      assert s.world.peers[i].key == key;
    }
  }

  lemma OutsideInv(s: System, server: Server, st: Step)
    requires Inv(s) && Enabled(s, server, st) && (st.OutsideAdds? || st.OutsideRemoves?)
    ensures Inv(Apply(s, server, st))
  {
    var now := Apply(s, server, st).world;
    forall key | key in s.issued && Listed(now, key) ensures Listed(s.world, key) {
      var k :| 0 <= k < |now.peers| && now.peers[k].key == key;
      if st.OutsideAdds? {
        assert s.world.peers[k].key == key;
      } else {
        assert s.world.peers[if k < st.i then k else k + 1].key == key;
      }
    }
  }

  /** Writing a secret keeps the others and never touches the router. */
  lemma SaveInv(s: System, server: Server, j: nat, ok: bool)
    requires Inv(s) && j < |s.jobs| && (s.jobs[j].AddSave? || s.jobs[j].UpdateStore?)
    ensures Inv(Apply(s, server, Advance(j, ok)))
  {
    var s' := Apply(s, server, Advance(j, ok));
    assert JobOk(s, s.jobs[j]);
    forall i | 0 <= i < |s'.jobs| ensures JobOk(s', s'.jobs[i]) {
      assert JobOk(s, s.jobs[i]);
    }
  }

  /** Forgetting a secret happens only for keys no listed peer and no unfinished add depends on. */
  lemma ForgetInv(s: System, server: Server, j: nat, ok: bool)
    requires Inv(s) && j < |s.jobs| && Forgetting(s.jobs[j])
    ensures Inv(Apply(s, server, Advance(j, ok)))
  {
    var s' := Apply(s, server, Advance(j, ok));
    assert JobOk(s, s.jobs[j]);
    forall i | 0 <= i < |s'.jobs| ensures JobOk(s', s'.jobs[i]) {
      assert JobOk(s, s.jobs[i]);
      if i != j && Adding(s.jobs[i]) {
        assert !Mentions(s.jobs[j], s.jobs[i].key);
      }
    }
  }

  lemma AddedInv(s: System, server: Server, j: nat, ok: bool)
    requires Inv(s) && j < |s.jobs| && s.jobs[j].AddRouter?
    ensures Inv(Apply(s, server, Advance(j, ok)))
  {
    var s' := Apply(s, server, Advance(j, ok));
    var key := s.jobs[j].key;
    assert JobOk(s, s.jobs[j]);
    forall k | Listed(s'.world, k) ensures k == key || Listed(s.world, k) {
      var i :| 0 <= i < |s'.world.peers| && s'.world.peers[i].key == k;
      if i < |s.world.peers| {
        assert s.world.peers[i].key == k;
      }
    }
    forall i | 0 <= i < |s'.jobs| ensures JobOk(s', s'.jobs[i]) {
      assert JobOk(s, s.jobs[i]);
      if i != j {
        assert !Mentions(s.jobs[i], key);
      }
    }
  }

  lemma RemovedInv(s: System, server: Server, j: nat, ok: bool)
    requires Inv(s) && j < |s.jobs| && s.jobs[j].DeleteRouter?
    ensures Inv(Apply(s, server, Advance(j, ok)))
  {
    var s' := Apply(s, server, Advance(j, ok));
    forall k | Listed(s'.world, k) ensures Listed(s.world, k) && (ok ==> k != s.jobs[j].key) {
      var i :| 0 <= i < |s'.world.peers| && s'.world.peers[i].key == k;
      assert s'.world.peers[i] in s'.world.peers;
      assert s'.world.peers[i] in s.world.peers;
    }
    forall i | 0 <= i < |s'.jobs| ensures JobOk(s', s'.jobs[i]) {
      assert JobOk(s, s.jobs[i]);
    }
  }

  lemma StepInv(s: System, server: Server, st: Step)
    requires Inv(s) && Enabled(s, server, st)
    ensures Inv(Apply(s, server, st))
  {
    match st {
      case RouterEdits(_, _) => EditInv(s, server, st);
      case OutsideAdds(_) => OutsideInv(s, server, st);
      case OutsideRemoves(_) => OutsideInv(s, server, st);
      case Advance(j, ok) =>
        match s.jobs[j] {
          case AddSave(_, _, _) => SaveInv(s, server, j, ok);
          case UpdateStore(_, _) => SaveInv(s, server, j, ok);
          case AddRouter(_, _, _) => AddedInv(s, server, j, ok);
          case AddUndo(_) => ForgetInv(s, server, j, ok);
          case DeleteForget(_) => ForgetInv(s, server, j, ok);
          case DeleteRouter(_) => RemovedInv(s, server, j, ok);
          case _ =>
        }
      case StartAdd(_, _, _, _, _) => StartAddInv(s, server, st);
      case _ => StartInv(s, server, st);
    }
  }

  lemma {:induction false} RunInv(s: System, server: Server, steps: seq<Step>, s': System)
    requires Inv(s) && Run(s, server, steps, s')
    ensures Inv(s')
    decreases |steps|
  {
    if steps == [] {
    } else {
      StepInv(s, server, steps[0]);
      RunInv(Apply(s, server, steps[0]), server, steps[1..], s');
    }
  }

  /**
   * At every point of every interleaved run with crashes, each listed peer this program added
   * has its own private key both in memory and in the file, so its config can be generated.
   */
  lemma PrivateKeysNeverLost(server: Server, steps: seq<Step>, s: System, key: string)
    requires Run(START, server, steps, s)
    requires key in s.issued && Listed(s.world, key)
    ensures HasKey(s.world.mem, key, s.issued[key]) && HasKey(s.world.disk, key, s.issued[key])
  {
    RunInv(START, server, steps, s);
  }

  // ---- Addresses under interleaving ----

  ghost predicate DistinctAddresses(peers: seq<Peer>) {
    forall i, j :: 0 <= i < j < |peers| ==> HostIP(peers[i].allowed) != HostIP(peers[j].allowed)
  }

  /** Another add, checked but not yet listed, holds the address that this one names. */
  predicate Overlaps(s: System, st: Step) {
    st.StartAdd? && exists j :: 0 <= j < |s.jobs| && Adding(s.jobs[j]) && Some(s.jobs[j].ip) == ParseCIDR(st.t)
  }

  /** Someone else gives a peer an address, by editing it or adding it. */
  predicate Foreign(st: Step) { st.RouterEdits? || st.OutsideAdds? }

  /** A run in which no add starts on an address another unfinished add holds, and nobody else gives addresses. */
  predicate OrderlyRun(s: System, server: Server, steps: seq<Step>, s': System)
    decreases |steps|
  {
    if steps == [] then s == s'
    else
      && Enabled(s, server, steps[0]) && !Overlaps(s, steps[0]) && !Foreign(steps[0])
      && OrderlyRun(Apply(s, server, steps[0]), server, steps[1..], s')
  }

  /** Listed addresses and those of unfinished adds are all different. */
  ghost predicate AddressesOk(s: System) {
    && DistinctAddresses(s.world.peers)
    && (forall j :: 0 <= j < |s.jobs| && Adding(s.jobs[j]) ==> !Uses(s.world.peers, s.jobs[j].ip))
    && (forall i, j :: 0 <= i < j < |s.jobs| && Adding(s.jobs[i]) && Adding(s.jobs[j]) ==> s.jobs[i].ip != s.jobs[j].ip)
  }

  lemma {:induction false} OthersDistinct(peers: seq<Peer>, key: string)
    requires DistinctAddresses(peers)
    ensures DistinctAddresses(Others(peers, key))
    ensures forall ip :: Uses(Others(peers, key), ip) ==> Uses(peers, ip)
  {
    var left := Others(peers, key);
    forall ip | Uses(left, ip) ensures Uses(peers, ip) {
      var k :| 0 <= k < |left| && HostIP(left[k].allowed) == Some(ip);
      assert left[k] in peers;
    }
    if peers == [] {
    } else {
      OthersDistinct(peers[1..], key);
      var rest := Others(peers[1..], key);
      forall p | p in rest ensures HostIP(p.allowed) != HostIP(peers[0].allowed) {
        assert p in peers[1..];
      }
    }
  }

  lemma WithoutOne(peers: seq<Peer>, i: nat)
    requires i < |peers| && DistinctAddresses(peers)
    ensures DistinctAddresses(peers[..i] + peers[i + 1..])
    ensures forall ip :: Uses(peers[..i] + peers[i + 1..], ip) ==> Uses(peers, ip)
  {
    var left := peers[..i] + peers[i + 1..];
    assert forall k :: 0 <= k < |left| ==> left[k] == peers[if k < i then k else k + 1];
    forall ip | Uses(left, ip) ensures Uses(peers, ip) {
      var k :| 0 <= k < |left| && HostIP(left[k].allowed) == Some(ip);
      assert HostIP(peers[if k < i then k else k + 1].allowed) == Some(ip);
    }
  }

  lemma UsesAppended(peers: seq<Peer>, p: Peer)
    ensures forall ip :: Uses(peers + [p], ip) <==> Uses(peers, ip) || HostIP(p.allowed) == Some(ip)
  {
    var more := peers + [p];
    forall ip ensures Uses(more, ip) <==> Uses(peers, ip) || HostIP(p.allowed) == Some(ip) {
      if Uses(peers, ip) {
        var k :| 0 <= k < |peers| && HostIP(peers[k].allowed) == Some(ip);
        assert more[k] == peers[k];
      }
      if HostIP(p.allowed) == Some(ip) {
        assert more[|peers|] == p;
      }
    }
  }

  lemma ListedAddress(s: System, server: Server, j: nat, ok: bool)
    requires AddressesOk(s) && j < |s.jobs| && s.jobs[j].AddRouter?
    ensures AddressesOk(Apply(s, server, Advance(j, ok)))
  {
    var ip := s.jobs[j].ip;
    if ok {
      var p := Peer(s.jobs[j].key, [Route(ip, 32)], s.jobs[j].comment, true);
      assert HostIP(p.allowed) == Some(ip);
      UsesAppended(s.world.peers, p);
    }
  }

  lemma RemovedAddress(s: System, server: Server, j: nat, ok: bool)
    requires AddressesOk(s) && j < |s.jobs| && s.jobs[j].DeleteRouter?
    ensures AddressesOk(Apply(s, server, Advance(j, ok)))
  {
    OthersDistinct(s.world.peers, s.jobs[j].key);
  }

  lemma OtherAddress(s: System, server: Server, j: nat, ok: bool)
    requires AddressesOk(s) && j < |s.jobs| && !s.jobs[j].AddRouter? && !s.jobs[j].DeleteRouter?
    ensures AddressesOk(Apply(s, server, Advance(j, ok)))
  {
    var s' := Apply(s, server, Advance(j, ok));
    assert s'.world.peers == s.world.peers;
    assert Adding(s'.jobs[j]) ==> Adding(s.jobs[j]) && s'.jobs[j].ip == s.jobs[j].ip;
  }

  lemma StepKeepsAddresses(s: System, server: Server, st: Step)
    requires AddressesOk(s) && Enabled(s, server, st) && !Overlaps(s, st) && !Foreign(st)
    ensures AddressesOk(Apply(s, server, st))
  {
    match st {
      case Advance(j, ok) =>
        match s.jobs[j] {
          case AddRouter(_, _, _) => ListedAddress(s, server, j, ok);
          case DeleteRouter(_) => RemovedAddress(s, server, j, ok);
          case _ => OtherAddress(s, server, j, ok);
        }
      case StartAdd(key, priv, psk, d, t) =>
        var ip := ParseCIDR(t).value;
        forall j | 0 <= j < |s.jobs| && Adding(s.jobs[j]) ensures s.jobs[j].ip != ip {
        }
      case OutsideRemoves(i) => WithoutOne(s.world.peers, i);
      case _ =>
    }
  }

  lemma {:induction false} OrderlyKeepsAddresses(s: System, server: Server, steps: seq<Step>, s': System)
    requires AddressesOk(s) && OrderlyRun(s, server, steps, s')
    ensures AddressesOk(s')
    decreases |steps|
  {
    if steps == [] {
    } else {
      StepKeepsAddresses(s, server, steps[0]);
      OrderlyKeepsAddresses(Apply(s, server, steps[0]), server, steps[1..], s');
    }
  }

  lemma {:induction false} OrderlyIsRun(s: System, server: Server, steps: seq<Step>, s': System)
    requires OrderlyRun(s, server, steps, s')
    ensures Run(s, server, steps, s')
    decreases |steps|
  {
    if steps == [] {
    } else {
      OrderlyIsRun(Apply(s, server, steps[0]), server, steps[1..], s');
    }
  }

  lemma OrderlyCons(s: System, server: Server, st: Step, rest: seq<Step>, s': System)
    requires Enabled(s, server, st) && !Overlaps(s, st) && !Foreign(st)
    requires OrderlyRun(Apply(s, server, st), server, rest, s')
    ensures OrderlyRun(s, server, [st] + rest, s')
  {
    assert ([st] + rest)[1..] == rest;
  }

  /** An add whose secret is saved is listed by one more step. */
  lemma RouterLists(s: System, server: Server, j: nat) returns (m: System)
    requires j < |s.jobs| && s.jobs[j].AddRouter?
    ensures m.world.peers == s.world.peers + [Peer(s.jobs[j].key, [Route(s.jobs[j].ip, 32)], s.jobs[j].comment, true)]
    ensures m.jobs == s.jobs[j := Finished]
    ensures forall rest, s' :: OrderlyRun(m, server, rest, s') ==> OrderlyRun(s, server, [Advance(j, true)] + rest, s')
  {
    m := Apply(s, server, Advance(j, true));
    forall rest, s' | OrderlyRun(m, server, rest, s') ensures OrderlyRun(s, server, [Advance(j, true)] + rest, s') {
      OrderlyCons(s, server, Advance(j, true), rest, s');
    }
  }

  /** When its calls succeed, an unfinished add ends up listed. */
  lemma AddFinishes(s: System, server: Server, j: nat) returns (m: System, steps: seq<Step>, p: Peer)
    requires j < |s.jobs| && Adding(s.jobs[j])
    ensures m.world.peers == s.world.peers + [p] && p.allowed == [Route(s.jobs[j].ip, 32)]
    ensures m.jobs == s.jobs[j := Finished]
    ensures forall rest, s' :: OrderlyRun(m, server, rest, s') ==> OrderlyRun(s, server, steps + rest, s')
  {
    var step := Advance(j, true);
    if s.jobs[j].AddRouter? {
      m := RouterLists(s, server, j);
      steps := [step];
    } else {
      var saved := Apply(s, server, step);
      m := RouterLists(saved, server, j);
      steps := [step] + [step];
      forall rest, s' | OrderlyRun(m, server, rest, s') ensures OrderlyRun(s, server, steps + rest, s') {
        OrderlyCons(s, server, step, [step] + rest, s');
        assert steps + rest == [step] + ([step] + rest);
      }
    }
    p := m.world.peers[|s.world.peers|];
  }

  /** An add that starts on the address of another unfinished one can end in a collision. */
  lemma OverlapCollides(s: System, server: Server, st: Step)
    returns (steps: seq<Step>, s': System, p: Peer, q: Peer)
    requires Enabled(s, server, st) && Overlaps(s, st)
    ensures OrderlyRun(Apply(s, server, st), server, steps, s')
    ensures s'.world.peers == s.world.peers + [p] + [q]
    ensures HostIP(p.allowed) == HostIP(q.allowed) == ParseCIDR(st.t)
    ensures !DistinctAddresses(s'.world.peers)
  {
    var j :| 0 <= j < |s.jobs| && Adding(s.jobs[j]) && Some(s.jobs[j].ip) == ParseCIDR(st.t);
    var n := |s.jobs|;
    var s1 := Apply(s, server, st);
    assert s1.jobs[j] == s.jobs[j] && Adding(s1.jobs[n]) && Some(s1.jobs[n].ip) == ParseCIDR(st.t);
    var m, first, second;
    m, first, p := AddFinishes(s1, server, j);
    s', second, q := AddFinishes(m, server, n);
    assert OrderlyRun(s', server, [], s');
    assert OrderlyRun(m, server, second + [], s');
    steps := first + (second + []);
    var k := |s.world.peers|;
    assert s'.world.peers[k] == p && s'.world.peers[k + 1] == q;
  }

  /** However an orderly run goes on from here, no two listed peers share an address. */
  ghost predicate NeverCollides(s: System, server: Server) {
    forall steps: seq<Step>, s': System :: OrderlyRun(s, server, steps, s') ==> DistinctAddresses(s'.world.peers)
  }

  lemma AddressesOkNeverCollides(s: System, server: Server)
    requires AddressesOk(s)
    ensures NeverCollides(s, server)
  {
    forall steps: seq<Step>, s': System | OrderlyRun(s, server, steps, s') ensures DistinctAddresses(s'.world.peers) {
      OrderlyKeepsAddresses(s, server, steps, s');
    }
  }

  /**
   * After any orderly run an add keeps all later orderly runs free of shared addresses exactly
   * when no other unfinished add holds its address.
   */
  lemma OverlapExactly(server: Server, steps: seq<Step>, s: System, st: Step)
    requires OrderlyRun(START, server, steps, s) && st.StartAdd?
    ensures Enabled(s, server, st) ==> (NeverCollides(Apply(s, server, st), server) <==> !Overlaps(s, st))
  {
    if !Enabled(s, server, st) {
    } else if Overlaps(s, st) {
      var more, s', _, _ := OverlapCollides(s, server, st);
    } else {
      OrderlyKeepsAddresses(START, server, steps, s);
      StepKeepsAddresses(s, server, st);
      AddressesOkNeverCollides(Apply(s, server, st), server);
    }
  }

  /** Interleaved as they may be, with crashes anywhere: orderly adds never share an address. */
  lemma AddressesStayDistinct(server: Server, steps: seq<Step>, s: System)
    requires OrderlyRun(START, server, steps, s)
    ensures DistinctAddresses(s.world.peers)
  {
    OrderlyKeepsAddresses(START, server, steps, s);
  }

  lemma RunCons(s: System, server: Server, st: Step, rest: seq<Step>, s': System)
    requires Enabled(s, server, st) && Run(Apply(s, server, st), server, rest, s')
    ensures Run(s, server, [st] + rest, s')
  {
    assert ([st] + rest)[1..] == rest;
  }

  /** Overlapping adds do happen: two of one address, both checked before either is listed, both succeed. */
  lemma ConcurrentAddsCollide(server: Server, ip: Addr)
    requires Check(server, Some(ip)) == Accept
    ensures exists steps: seq<Step>, s: System ::
              && Run(START, server, steps, s)
              && |s.world.peers| == 2
              && HostIP(s.world.peers[0].allowed) == HostIP(s.world.peers[1].allowed) == Some(ip)
  {
    var x, y := StartAdd("a", "1", "", "", Slash(ip, 32, 0)), StartAdd("b", "2", "", "", Slash(ip, 32, 0));
    assert Unused(START, "a");
    var s1 := Apply(START, server, x);
    assert Unused(s1, "b");
    assert Adding(s1.jobs[0]) && Overlaps(s1, y);
    var more, s, p, q := OverlapCollides(s1, server, y);
    OrderlyIsRun(Apply(s1, server, y), server, more, s);
    RunCons(s1, server, y, more, s);
    RunCons(START, server, x, [y] + more, s);
    assert s.world.peers == [] + [p] + [q];
  }

  // ---- Undisturbed, the steps are the requests ----

  /** Three calls of one request that nothing interrupts, with their outcomes. */
  function Alone(w: World, job: Job, a: bool, b: bool, c: bool): (World, Job) {
    var (w1, job1) := Next(w, job, a);
    var (w2, job2) := Next(w1, job1, b);
    Next(w2, job2, c)
  }

  /** The steps of an add do what the add does. */
  lemma SequentialAdd(w: World, server: Server, key: string, privateKey: string, psk: string,
                      description: string, t: TunnelText, f: AddFaults)
    requires t.Slash? && Check(server, Some(t.host)) == Accept && !Uses(w.peers, t.host)
    ensures Alone(w, AddSave(key, Secret(privateKey, psk, description, t), t.host), f.saveOk, f.addOk, f.forgetOk)
            == (Add(w, server, description, t, key, privateKey, psk, f).0, Finished)
  {
  }

  lemma SequentialDelete(w: World, key: string, f: DeleteFaults, i: nat)
    requires i < |w.peers| && w.peers[i].key == key
    ensures Alone(w, DeleteRouter(key), f.removeOk, f.forgetOk, true) == (Delete(w, key, f).0, Finished)
  {
    assert IndexOfPeer(w.peers, key).Some?;
  }

  /** So with the part of an update that touches the secrets. */
  lemma SequentialReconcile(w: World, key: string, description: string, t: TunnelText, saveOk: bool)
    ensures Alone(w, UpdateRouter(key, description, t), true, true, saveOk)
            == (Reconcile(w, key, description, t, saveOk).0, Finished)
  {
  }
}
