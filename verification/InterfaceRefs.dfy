// The interfaces the traffic poller follows: system tunnels that are up, and server interfaces;
// an interface named more than once becomes one reference, and being a server wins.
module InterfaceRefs {
  import opened Common

  datatype Ref = Ref(id: string, isServer: bool)

  datatype SystemTunnel = SystemTunnel(id: string, status: string)

  /** Ids in the order of their first occurrence. */
  function FirstIds(refs: seq<Ref>): (ids: seq<string>)
    ensures forall s :: s in ids <==> exists k :: 0 <= k < |refs| && refs[k].id == s
    ensures forall i, j :: 0 <= i < j < |ids| ==> ids[i] != ids[j]
  {
    if refs == [] then []
    else
      var front, last := FirstIds(refs[..|refs| - 1]), refs[|refs| - 1];
      if last.id in front then front else front + [last.id]
  }

  /** at lists, in order, the positions at which the ids occur for the first time. */
  predicate FirstAt(refs: seq<Ref>, ids: seq<string>, at: seq<nat>) {
    && |at| == |ids|
    && (forall i :: 0 <= i < |at| ==> at[i] < |refs| && refs[at[i]].id == ids[i])
    && (forall i :: 0 <= i < |at| ==> forall k :: 0 <= k < at[i] ==> refs[k].id != ids[i])
    && forall i, j :: 0 <= i < j < |at| ==> at[i] < at[j]
  }

  lemma FirstAtStays(refs: seq<Ref>, n: nat, ids: seq<string>, at: seq<nat>)
    requires n <= |refs| && FirstAt(refs[..n], ids, at)
    ensures FirstAt(refs, ids, at) && forall i :: 0 <= i < |at| ==> at[i] < n
  {
    forall i | 0 <= i < |at|
      ensures at[i] < n && refs[at[i]].id == ids[i] && forall k :: 0 <= k < at[i] ==> refs[k].id != ids[i]
    {
      assert refs[at[i]] == refs[..n][at[i]];
      assert forall k :: 0 <= k < at[i] ==> refs[k] == refs[..n][k];
    }
  }

  /** The ids come in the order of their first positions. */
  lemma {:induction false} FirstIdsInOrder(refs: seq<Ref>) returns (at: seq<nat>)
    ensures FirstAt(refs, FirstIds(refs), at)
  {
    if refs == [] {
      at := [];
    } else {
      var n := |refs| - 1;
      var ids := FirstIds(refs[..n]);
      at := FirstIdsInOrder(refs[..n]);
      FirstAtStays(refs, n, ids, at);
      if refs[n].id !in ids {
        forall k | 0 <= k < n ensures refs[k].id != refs[n].id {
          assert refs[..n][k].id in ids;
        }
        at := at + [n];
      }
    }
  }

  predicate ServerSomewhere(refs: seq<Ref>, id: string) {
    exists k :: 0 <= k < |refs| && refs[k].id == id && refs[k].isServer
  }

  /** One reference per id, in first-occurrence order, with the flag of all occurrences together. */
  ghost predicate Merged(out: seq<Ref>, refs: seq<Ref>, ids: seq<string>) {
    && ids == FirstIds(refs) && |out| == |ids|
    && forall i :: 0 <= i < |out| ==> out[i].id == ids[i] && (out[i].isServer <==> ServerSomewhere(refs, ids[i]))
  }

  method DedupeRefs(refs: seq<Ref>) returns (out: seq<Ref>)
    ensures Merged(out, refs, FirstIds(refs))
  {
    var idx: map<string, nat> := map[];
    out := [];
    ghost var ids: seq<string> := [];
    for n := 0 to |refs|
      invariant Merged(out, refs[..n], ids)
      invariant forall s :: s in idx <==> s in ids
      invariant forall s :: s in idx ==> idx[s] < |ids| && ids[idx[s]] == s
    {
      var r := refs[n];
      assert refs[..n + 1] == refs[..n] + [r];
      if r.id in idx {
        var i := idx[r.id];
        MergedKnown(out, refs[..n], ids, r, i);
        if r.isServer {
          out := out[i := out[i].(isServer := true)];
        }
        continue;
      }
      MergedNew(out, refs[..n], ids, r);
      idx := idx[r.id := |out|];
      out := out + [r];
      ids := ids + [r.id];
    }
    assert refs[..|refs|] == refs;
  }

  lemma FirstIdsGrow(refs: seq<Ref>, r: Ref)
    ensures FirstIds(refs + [r]) == if r.id in FirstIds(refs) then FirstIds(refs) else FirstIds(refs) + [r.id]
  {
    assert (refs + [r])[..|refs|] == refs;
  }

  lemma ServerGrows(refs: seq<Ref>, r: Ref)
    ensures forall id :: ServerSomewhere(refs + [r], id) <==> ServerSomewhere(refs, id) || (r.id == id && r.isServer)
    ensures forall id :: ServerSomewhere(refs, id) ==> id in FirstIds(refs)
  {
    var more := refs + [r];
    forall id ensures ServerSomewhere(more, id) <==> ServerSomewhere(refs, id) || (r.id == id && r.isServer) {
      if ServerSomewhere(refs, id) {
        var k :| 0 <= k < |refs| && refs[k].id == id && refs[k].isServer;
        assert more[k] == refs[k];
      }
      if r.id == id && r.isServer {
        assert more[|refs|] == r;
      }
    }
  }

  lemma MergedKnown(out: seq<Ref>, refs: seq<Ref>, ids: seq<string>, r: Ref, i: nat)
    requires Merged(out, refs, ids) && i < |ids| && ids[i] == r.id
    ensures Merged(if r.isServer then out[i := out[i].(isServer := true)] else out, refs + [r], ids)
  {
    FirstIdsGrow(refs, r);
    ServerGrows(refs, r);
  }

  lemma MergedNew(out: seq<Ref>, refs: seq<Ref>, ids: seq<string>, r: Ref)
    requires Merged(out, refs, ids) && r.id !in ids
    ensures Merged(out + [r], refs + [r], ids + [r.id])
  {
    FirstIdsGrow(refs, r);
    ServerGrows(refs, r);
  }

  /** The last status reported for the id is "up". */
  predicate Up(list: seq<SystemTunnel>, id: string) {
    list != [] &&
    var last := list[|list| - 1];
    if last.id == id then last.status == "up" else Up(list[..|list| - 1], id)
  }

  /** The last report of the id decides, and there is one. */
  lemma {:induction false} UpExactly(list: seq<SystemTunnel>, id: string)
    ensures Up(list, id) <==>
              exists k :: 0 <= k < |list| && list[k].id == id && list[k].status == "up"
                          && forall j :: k < j < |list| ==> list[j].id != id
  {
    if list == [] {
    } else {
      var n := |list| - 1;
      UpExactly(list[..n], id);
      if list[n].id != id && Up(list[..n], id) {
        var k :| 0 <= k < n && list[..n][k].id == id && list[..n][k].status == "up"
                 && forall j :: k < j < n ==> list[..n][j].id != id;
        assert forall j :: k < j < |list| ==> list[j].id != id;
      }
      if k :| 0 <= k < |list| && list[k].id == id && list[k].status == "up"
              && forall j :: k < j < |list| ==> list[j].id != id {
        if k < n {
          assert list[..n][k] == list[k] && forall j :: k < j < n ==> list[..n][j].id != id;
        }
      }
    }
  }

  /** Some report of the id says "up"; this is what adds a tunnel. */
  predicate ReportedUp(list: seq<SystemTunnel>, id: string) {
    exists k :: 0 <= k < |list| && list[k].id == id && list[k].status == "up"
  }

  /** A server interface counts unless it is known to be down. */
  predicate ServerRuns(system: Option<seq<SystemTunnel>>, servers: seq<string>, managed: seq<string>, id: string) {
    && (id in servers || (id != "" && id in managed))
    && (system.Some? ==> Up(system.value, id))
  }

  predicate TunnelRuns(system: Option<seq<SystemTunnel>>, managedNWG: set<string>, id: string) {
    system.Some? && ReportedUp(system.value, id) && id !in managedNWG
  }

  ghost predicate Names(refs: seq<Ref>, id: string) {
    exists k :: 0 <= k < |refs| && refs[k].id == id
  }

  lemma NamesGrows(refs: seq<Ref>, r: Ref)
    ensures forall id :: Names(refs + [r], id) <==> Names(refs, id) || r.id == id
  {
    var more := refs + [r];
    forall id ensures Names(more, id) <==> Names(refs, id) || r.id == id {
      if Names(refs, id) {
        var k :| 0 <= k < |refs| && refs[k].id == id;
        assert more[k].id == id;
      }
      if r.id == id {
        assert more[|refs|].id == id;
      }
    }
  }

  /** The references before merging name what runs, and the server ones name the running servers. */
  ghost predicate Covers(refs: seq<Ref>, tunnels: iset<string>, servers: iset<string>) {
    && (forall id :: Names(refs, id) <==> id in tunnels || id in servers)
    && (forall id :: ServerSomewhere(refs, id) <==> id in servers)
  }

  lemma CoversTunnel(refs: seq<Ref>, id: string, tunnels: iset<string>, servers: iset<string>)
    requires Covers(refs, tunnels, servers)
    ensures Covers(refs + [Ref(id, false)], tunnels + iset{id}, servers)
  {
    NamesGrows(refs, Ref(id, false));
    ServerGrows(refs, Ref(id, false));
  }

  lemma CoversServer(refs: seq<Ref>, id: string, tunnels: iset<string>, servers: iset<string>)
    requires Covers(refs, tunnels, servers)
    ensures Covers(refs + [Ref(id, true)], tunnels, servers + iset{id})
  {
    NamesGrows(refs, Ref(id, true));
    ServerGrows(refs, Ref(id, true));
  }

  /**
   * One reference per running interface: a tunnel that is up and not managed elsewhere, or a
   * server interface not known to be down; it is a server reference exactly in the latter case.
   */
  method RunningInterfaces(system: Option<seq<SystemTunnel>>, managedNWG: set<string>,
                           servers: seq<string>, managed: seq<string>) returns (out: seq<Ref>)
    ensures forall i, j :: 0 <= i < j < |out| ==> out[i].id != out[j].id
    ensures forall id :: Names(out, id) <==>
              TunnelRuns(system, managedNWG, id) || ServerRuns(system, servers, managed, id)
    ensures forall r :: r in out ==> (r.isServer <==> ServerRuns(system, servers, managed, r.id))
  {
    var refs: seq<Ref> := [];
    var sysUp: map<string, bool> := map[];
    ghost var t: iset<string> := iset{};
    ghost var s: iset<string> := iset{};
    if system.Some? {
      var list := system.value;
      for i := 0 to |list|
        invariant Covers(refs, t, s) && s == iset{}
        invariant forall id :: id in t <==> ReportedUp(list[..i], id) && id !in managedNWG
        invariant forall id :: (id in sysUp && sysUp[id]) <==> Up(list[..i], id)
      {
        var st := list[i];
        ReportGrows(list[..i], st);
        assert list[..i + 1] == list[..i] + [st];
        sysUp := sysUp[st.id := st.status == "up"];
        if st.status != "up" {
          continue;
        }
        if st.id in managedNWG {
          continue;
        }
        CoversTunnel(refs, st.id, t, s);
        refs := refs + [Ref(st.id, false)];
        t := t + iset{st.id};
      }
      assert list[..|list|] == list;
    }
    for i := 0 to |servers|
      invariant Covers(refs, t, s)
      invariant forall id :: id in s <==> id in servers[..i] && (system.Some? ==> id in sysUp && sysUp[id])
    {
      var id := servers[i];
      if system.Some? && !(id in sysUp && sysUp[id]) {
        continue;
      }
      CoversServer(refs, id, t, s);
      refs := refs + [Ref(id, true)];
      s := s + iset{id};
    }
    for i := 0 to |managed|
      invariant Covers(refs, t, s)
      invariant forall id :: id in s <==>
                  (id in servers || (id != "" && id in managed[..i])) && (system.Some? ==> id in sysUp && sysUp[id])
    {
      var id := managed[i];
      if id == "" {
        continue;
      }
      if system.Some? && !(id in sysUp && sysUp[id]) {
        continue;
      }
      CoversServer(refs, id, t, s);
      refs := refs + [Ref(id, true)];
      s := s + iset{id};
    }
    out := DedupeRefs(refs);
    MergedNames(refs, out);
  }

  lemma MergedNames(refs: seq<Ref>, out: seq<Ref>)
    requires Merged(out, refs, FirstIds(refs))
    ensures forall id :: Names(out, id) <==> Names(refs, id)
  {
    var ids := FirstIds(refs);
    forall id ensures Names(out, id) <==> Names(refs, id) {
      if Names(refs, id) {
        assert id in ids;
        var k :| 0 <= k < |ids| && ids[k] == id;
        assert out[k].id == id;
      }
      if Names(out, id) {
        var k :| 0 <= k < |out| && out[k].id == id;
        assert ids[k] in ids;
      }
    }
  }

  lemma ReportGrows(list: seq<SystemTunnel>, st: SystemTunnel)
    ensures forall id :: ReportedUp(list + [st], id) <==> ReportedUp(list, id) || (st.id == id && st.status == "up")
    ensures forall id :: Up(list + [st], id) <==> if st.id == id then st.status == "up" else Up(list, id)
  {
    var more := list + [st];
    assert more[..|more| - 1] == list;
    forall id
      ensures ReportedUp(more, id) <==> ReportedUp(list, id) || (st.id == id && st.status == "up")
    {
      if ReportedUp(list, id) {
        var k :| 0 <= k < |list| && list[k].id == id && list[k].status == "up";
        assert more[k] == list[k];
      }
      if st.id == id && st.status == "up" {
        assert more[|list|] == st;
      }
    }
  }
}
