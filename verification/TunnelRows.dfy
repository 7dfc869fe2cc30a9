// Where every row of the tunnel listing and every detail in it come from, by position in the inputs.
module TunnelRows {
  import opened Common
  import opened Text
  import opened TunnelLabels

  // ---- Captions ----

  lemma TrimsToNothing(s: string)
    ensures TrimSpace(s) == "" <==> White(s)
  {
    if White(s) {
      TrimSpaceCuts(s, "", "");
      assert s + "" + "" == s;
    }
    var a, b := TrimSpaceParts(s);
  }

  /** The title, if it has any text, else the selector's tag, else the active member's. */
  lemma CaptionExactly(s: Subscription)
    ensures LabelOf(s) == TrimSpace(if !White(s.title) then s.title
                                    else if !White(s.selectorTag) then s.selectorTag else s.activeMember)
  {
    TrimsToNothing(s.title);
    TrimsToNothing(s.selectorTag);
  }

  // ---- Config-backed rows ----

  predicate DetailsFrom(m: Meta, t: Tunnel) {
    && m.protocol == TrimSpace(t.protocol) && m.security == TrimSpace(t.security)
    && m.transport == TrimSpace(t.transport)
  }

  predicate HasRow(t: Tunnel) {
    t.tag != "" && t.kernelInterface != ""
  }

  predicate RowOf(r: Row, t: Tunnel) {
    && r.tag == t.tag && r.name == t.tag && r.interfaceName == t.kernelInterface && !r.subscription
    && DetailsFrom(r.meta, t)
  }

  /** rows are, in order, the rows of the tunnels at these positions, all those with tag and interface. */
  predicate BackedAt(rows: seq<Row>, tunnels: seq<Tunnel>, at: seq<nat>) {
    && |rows| == |at|
    && (forall i :: 0 <= i < |at| ==> at[i] < |tunnels| && HasRow(tunnels[at[i]]) && RowOf(rows[i], tunnels[at[i]]))
    && (forall i, j :: 0 <= i < j < |at| ==> at[i] < at[j])
    && forall k :: 0 <= k < |tunnels| && HasRow(tunnels[k]) ==> k in at
  }

  lemma BackedSkip(rows: seq<Row>, tunnels: seq<Tunnel>, n: nat, at: seq<nat>)
    requires n + 1 == |tunnels| && BackedAt(rows, tunnels[..n], at) && !HasRow(tunnels[n])
    ensures BackedAt(rows, tunnels, at)
  {
    assert forall k :: 0 <= k < n ==> tunnels[..n][k] == tunnels[k];
  }

  lemma BackedTake(rows: seq<Row>, tunnels: seq<Tunnel>, n: nat, at: seq<nat>, row: Row)
    requires n + 1 == |tunnels| && BackedAt(rows, tunnels[..n], at)
    requires HasRow(tunnels[n]) && RowOf(row, tunnels[n])
    ensures BackedAt(rows + [row], tunnels, at + [n])
  {
    var more := at + [n];
    forall i | 0 <= i < |more|
      ensures more[i] < |tunnels| && HasRow(tunnels[more[i]]) && RowOf((rows + [row])[i], tunnels[more[i]])
    {
      if i < |at| {
        assert more[i] == at[i] && tunnels[..n][at[i]] == tunnels[at[i]];
      }
    }
    forall k | 0 <= k < |tunnels| && HasRow(tunnels[k]) ensures k in more {
      if k < n {
        assert HasRow(tunnels[..n][k]) && k in at;
      } else {
        assert more[|at|] == k;
      }
    }
  }

  lemma {:induction false} BackedInOrder(tunnels: seq<Tunnel>) returns (at: seq<nat>)
    ensures BackedAt(BackedRows(tunnels), tunnels, at)
  {
    if tunnels == [] {
      at := [];
    } else {
      var n := |tunnels| - 1;
      at := BackedInOrder(tunnels[..n]);
      var rows, t := BackedRows(tunnels[..n]), tunnels[n];
      if Backed(t) {
        BackedTake(rows, tunnels, n, at, Row(t.tag, t.tag, t.kernelInterface, false, MetaOfTunnel(t)));
        at := at + [n];
      } else {
        BackedSkip(rows, tunnels, n, at);
        assert rows + [] == rows;
      }
    }
  }

  // ---- Where details are looked up ----

  predicate BackedHere(tunnels: seq<Tunnel>, k: int, tag: string) {
    0 <= k < |tunnels| && tunnels[k].tag == tag && HasRow(tunnels[k])
  }

  /** k is the last tunnel with tag and interface that carries the tag. */
  ghost predicate LastBacked(tunnels: seq<Tunnel>, k: int, tag: string) {
    BackedHere(tunnels, k, tag) && forall j :: BackedHere(tunnels, j, tag) ==> j <= k
  }

  lemma BackedEarlier(tunnels: seq<Tunnel>, n: nat, tag: string)
    requires n + 1 == |tunnels| && !BackedHere(tunnels, n, tag)
    ensures forall k :: BackedHere(tunnels[..n], k, tag) <==> BackedHere(tunnels, k, tag)
    ensures forall k :: LastBacked(tunnels[..n], k, tag) ==> LastBacked(tunnels, k, tag)
  {
    forall k ensures BackedHere(tunnels[..n], k, tag) <==> BackedHere(tunnels, k, tag) {
    }
  }

  lemma {:induction false} DetailsExactly(tunnels: seq<Tunnel>, tag: string)
    ensures match MetaFor(tunnels, tag)
            case Some(m) => exists k :: LastBacked(tunnels, k, tag) && DetailsFrom(m, tunnels[k])
            case None => forall k :: !BackedHere(tunnels, k, tag)
  {
    if tunnels == [] {
    } else {
      var n := |tunnels| - 1;
      if tag != "" && BackedHere(tunnels, n, tag) {
        assert LastBacked(tunnels, n, tag);
      } else {
        DetailsExactly(tunnels[..n], tag);
        BackedEarlier(tunnels, n, tag);
        if MetaFor(tunnels[..n], tag).Some? {
          var k :| LastBacked(tunnels[..n], k, tag) && DetailsFrom(MetaFor(tunnels[..n], tag).value, tunnels[..n][k]);
          assert LastBacked(tunnels, k, tag);
        }
      }
    }
  }

  predicate MemberHere(subs: seq<Subscription>, j: int, k: int, t: string) {
    && 0 <= j < |subs| && subs[j].enabled
    && 0 <= k < |subs[j].members| && TrimSpace(subs[j].members[k].tag) == t
  }

  /** Member k of subscription j is the last one with the tag, counting enabled subscriptions only. */
  ghost predicate LastMemberAt(subs: seq<Subscription>, j: int, k: int, t: string) {
    && MemberHere(subs, j, k, t)
    && forall j', k' :: MemberHere(subs, j', k', t) ==> j' < j || (j' == j && k' <= k)
  }

  predicate LastInList(members: seq<Member>, k: int, t: string) {
    && 0 <= k < |members| && TrimSpace(members[k].tag) == t
    && forall i :: k < i < |members| ==> TrimSpace(members[i].tag) != t
  }

  lemma LastInListMore(members: seq<Member>, n: nat, k: int, t: string)
    requires n + 1 == |members| && TrimSpace(members[n].tag) != t && LastInList(members[..n], k, t)
    ensures LastInList(members, k, t)
  {
    assert forall i :: 0 <= i < n ==> members[..n][i] == members[i];
  }

  lemma {:induction false} LastMemberPosition(members: seq<Member>, t: string) returns (k: int)
    requires LastMember(members, t).Some?
    ensures LastInList(members, k, t) && LastMember(members, t).value == members[k]
  {
    var n := |members| - 1;
    if TrimSpace(members[n].tag) == t {
      k := n;
    } else {
      k := LastMemberPosition(members[..n], t);
      LastInListMore(members, n, k, t);
    }
  }

  lemma MemberEarlier(subs: seq<Subscription>, n: nat, t: string)
    requires n + 1 == |subs| && forall k :: !MemberHere(subs, n, k, t)
    ensures forall j, k :: MemberHere(subs[..n], j, k, t) <==> MemberHere(subs, j, k, t)
    ensures forall j, k :: LastMemberAt(subs[..n], j, k, t) ==> LastMemberAt(subs, j, k, t)
  {
    forall j, k ensures MemberHere(subs[..n], j, k, t) <==> MemberHere(subs, j, k, t) {
    }
  }

  lemma {:induction false} MemberExactly(subs: seq<Subscription>, t: string)
    requires t != ""
    ensures match MemberFor(subs, t)
            case Some(m) => exists j, k :: LastMemberAt(subs, j, k, t) && m == subs[j].members[k]
            case None => forall j, k :: !MemberHere(subs, j, k, t)
  {
    if subs == [] {
    } else {
      var n := |subs| - 1;
      if subs[n].enabled && LastMember(subs[n].members, t).Some? {
        var k := LastMemberPosition(subs[n].members, t);
        assert LastMemberAt(subs, n, k, t);
      } else {
        MemberExactly(subs[..n], t);
        assert MemberFor(subs, t) == MemberFor(subs[..n], t);
        assert forall k :: !MemberHere(subs, n, k, t);
        MemberEarlier(subs, n, t);
        if MemberFor(subs[..n], t).Some? {
          var j, k :| LastMemberAt(subs[..n], j, k, t) && MemberFor(subs[..n], t).value == subs[..n][j].members[k];
          assert LastMemberAt(subs, j, k, t) && subs[j] == subs[..n][j];
        }
      }
    }
  }

  lemma OneMember(subs: seq<Subscription>, t: string, j: int, k: int)
    requires t != "" && LastMemberAt(subs, j, k, t)
    ensures MemberFor(subs, t) == Some(subs[j].members[k])
  {
    MemberExactly(subs, t);
    var j', k' :| LastMemberAt(subs, j', k', t) && MemberFor(subs, t).value == subs[j'].members[k'];
    assert MemberHere(subs, j', k', t);
  }

  lemma OneBacked(tunnels: seq<Tunnel>, tag: string, k: int)
    requires LastBacked(tunnels, k, tag)
    ensures MetaFor(tunnels, tag).Some? && DetailsFrom(MetaFor(tunnels, tag).value, tunnels[k])
  {
    DetailsExactly(tunnels, tag);
    var k' :| LastBacked(tunnels, k', tag) && DetailsFrom(MetaFor(tunnels, tag).value, tunnels[k']);
    assert BackedHere(tunnels, k', tag);
  }

  // ---- Runtime rows ----

  /** tags are, in order, the active tags at these positions: first occurrences not shown yet. */
  predicate RuntimeAt(tags: seq<string>, active: seq<string>, shown: set<string>, at: seq<nat>) {
    && |tags| == |at|
    && (forall i :: 0 <= i < |at| ==>
          at[i] < |active| && tags[i] == active[at[i]] && tags[i] != "" && tags[i] !in shown)
    && (forall i, k :: 0 <= i < |at| && 0 <= k < at[i] ==> active[k] != tags[i])
    && (forall i, j :: 0 <= i < j < |at| ==> at[i] < at[j])
    && forall k :: 0 <= k < |active| && active[k] != "" && active[k] !in shown ==> active[k] in tags
  }

  lemma RuntimeMore(tags: seq<string>, active: seq<string>, n: nat, shown: set<string>, at: seq<nat>)
    requires n + 1 == |active| && RuntimeAt(tags, active[..n], shown, at)
    ensures if active[n] == "" || active[n] in shown || active[n] in tags then RuntimeAt(tags, active, shown, at)
            else RuntimeAt(tags + [active[n]], active, shown, at + [n])
  {
    assert forall k :: 0 <= k < n ==> active[..n][k] == active[k];
  }

  lemma {:induction false} RuntimeInOrder(active: seq<string>, shown: set<string>) returns (at: seq<nat>)
    ensures RuntimeAt(RuntimeTags(active, shown), active, shown, at)
  {
    if active == [] {
      at := [];
    } else {
      var n := |active| - 1;
      at := RuntimeInOrder(active[..n], shown);
      RuntimeMore(RuntimeTags(active[..n], shown), active, n, shown, at);
      if !(active[n] == "" || active[n] in shown || active[n] in RuntimeTags(active[..n], shown)) {
        at := at + [n];
      }
    }
  }

  predicate DetailsOf(m: Meta, from: Member) {
    && m.protocol == TrimSpace(from.protocol) && m.security == TrimSpace(from.security)
    && m.transport == TrimSpace(from.transport)
  }

  /** The name and the details of a runtime row. */
  lemma RuntimeRowExactly(subs: seq<Subscription>, tag: string)
    requires tag != ""
    ensures RuntimeRow(subs, tag).tag == tag && RuntimeRow(subs, tag).interfaceName == ""
    ensures RuntimeRow(subs, tag).subscription
    ensures forall k: nat :: Labels(subs, k, tag) && LabelOf(subs[k]) != "" ==>
              RuntimeRow(subs, tag).name == LabelOf(subs[k])
    ensures (forall k: nat :: Labels(subs, k, tag) ==> LabelOf(subs[k]) == "") ==> RuntimeRow(subs, tag).name == tag
    ensures forall j, k :: LastMemberAt(subs, j, k, tag) ==> DetailsOf(RuntimeRow(subs, tag).meta, subs[j].members[k])
    ensures (forall j, k :: !MemberHere(subs, j, k, tag)) ==> RuntimeRow(subs, tag).meta == Meta("", "", "")
  {
    LabelMeaning(subs, tag);
    MemberExactly(subs, tag);
    forall k: nat | Labels(subs, k, tag) ensures LabelFor(subs, tag) == Some(LabelOf(subs[k])) {
      OneLabel(subs, tag, k);
    }
  }

  lemma OneLabel(subs: seq<Subscription>, tag: string, k: nat)
    requires tag != "" && Labels(subs, k, tag)
    ensures LabelFor(subs, tag) == Some(LabelOf(subs[k]))
  {
    LabelMeaning(subs, tag);
    assert ActiveAt(subs, k, tag) || ListedAt(subs, k, tag);
    var j :| 0 <= j < |subs| && Labels(subs, j, tag) && LabelFor(subs, tag).value == LabelOf(subs[j]);
    LabelUnique(subs, tag, j, k);
  }

  // ---- The fill-in ----

  /** What was there stays; an empty text is replaced. */
  predicate Completes(now: string, was: string, from: string) {
    now == if was != "" then was else from
  }

  predicate FilledFromMember(now: Meta, was: Meta, m: Member) {
    && Completes(now.protocol, was.protocol, TrimSpace(m.protocol))
    && Completes(now.security, was.security, TrimSpace(m.security))
    && Completes(now.transport, was.transport, TrimSpace(m.transport))
  }

  predicate FilledFromTunnel(now: Meta, was: Meta, t: Tunnel) {
    && Completes(now.protocol, was.protocol, TrimSpace(t.protocol))
    && Completes(now.security, was.security, TrimSpace(t.security))
    && Completes(now.transport, was.transport, TrimSpace(t.transport))
  }

  /** Some enabled subscription is active on the tag or lists it. */
  predicate Subscribed(subs: seq<Subscription>, tag: string) {
    exists k :: 0 <= k < |subs| && (ActiveAt(subs, k, tag) || ListedAt(subs, k, tag))
  }

  lemma SubscribedExactly(subs: seq<Subscription>, tag: string)
    requires tag != ""
    ensures LabelFor(subs, tag).Some? <==> Subscribed(subs, tag)
  {
    LabelMeaning(subs, tag);
    if LabelFor(subs, tag).Some? {
      var k :| 0 <= k < |subs| && Labels(subs, k, tag) && LabelFor(subs, tag).value == LabelOf(subs[k]);
      assert ActiveAt(subs, k, tag) || ListedAt(subs, k, tag);
    }
  }

  /** A row is marked and completed when its tag is subscribed, and left as it is otherwise. */
  lemma EnrichedExactly(tunnels: seq<Tunnel>, subs: seq<Subscription>, r: Row)
    requires r.tag != ""
    ensures var now := Enriched(tunnels, subs, r);
            && now.tag == r.tag && now.name == r.name && now.interfaceName == r.interfaceName
            && (if Subscribed(subs, r.tag) then now.subscription else now == r)
  {
    SubscribedExactly(subs, r.tag);
  }

  /** Each empty detail of a subscribed row is taken from the last member with the tag. */
  lemma MemberCompletes(tunnels: seq<Tunnel>, subs: seq<Subscription>, r: Row, j: int, k: int)
    requires r.tag != "" && LastMemberAt(subs, j, k, r.tag)
    ensures FilledFromMember(Enriched(tunnels, subs, r).meta, r.meta, subs[j].members[k])
  {
    OneMember(subs, r.tag, j, k);
    assert Lists(subs[j], r.tag) && ListedAt(subs, j, r.tag);
    SubscribedExactly(subs, r.tag);
  }

  /** Without such a member it is taken from the last backed tunnel with the tag, if there is one. */
  lemma TunnelCompletes(tunnels: seq<Tunnel>, subs: seq<Subscription>, r: Row)
    requires r.tag != "" && Subscribed(subs, r.tag) && forall j, k :: !MemberHere(subs, j, k, r.tag)
    ensures forall k :: LastBacked(tunnels, k, r.tag) ==>
              FilledFromTunnel(Enriched(tunnels, subs, r).meta, r.meta, tunnels[k])
    ensures (forall k :: !BackedHere(tunnels, k, r.tag)) ==> Enriched(tunnels, subs, r).meta == r.meta
  {
    SubscribedExactly(subs, r.tag);
    MemberExactly(subs, r.tag);
    DetailsExactly(tunnels, r.tag);
    forall k | LastBacked(tunnels, k, r.tag)
      ensures FilledFromTunnel(Enriched(tunnels, subs, r).meta, r.meta, tunnels[k])
    {
      OneBacked(tunnels, r.tag, k);
    }
  }

  // ---- The listing ----

  lemma PlainParts(tunnels: seq<Tunnel>, source: Source, rows: seq<Row>, tags: seq<string>)
    requires rows == BackedRows(tunnels) && tags == RuntimeTags(source.active, TagsOf(rows))
    ensures PlainRows(tunnels, source) == rows + RuntimeRows(source.subs, tags)
  {
  }

  /** The rows before the fill-in: the backed ones, then one for each new active tag, in order. */
  lemma PlainInOrder(tunnels: seq<Tunnel>, source: Source)
    returns (rows: seq<Row>, extra: seq<Row>, backed: seq<nat>, tags: seq<string>, active: seq<nat>)
    ensures PlainRows(tunnels, source) == rows + extra
    ensures BackedAt(rows, tunnels, backed) && RuntimeAt(tags, source.active, TagsOf(rows), active)
    ensures |extra| == |tags| && forall i :: 0 <= i < |tags| ==> extra[i] == RuntimeRow(source.subs, tags[i])
  {
    rows := BackedRows(tunnels);
    tags := RuntimeTags(source.active, TagsOf(rows));
    extra := RuntimeRows(source.subs, tags);
    PlainParts(tunnels, source, rows, tags);
    backed := BackedInOrder(tunnels);
    active := RuntimeInOrder(source.active, TagsOf(rows));
  }
}
