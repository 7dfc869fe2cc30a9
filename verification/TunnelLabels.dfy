// The monitoring view of sing-box tunnels: config-backed rows, runtime-only rows for active
// subscription members, labels resolved from the subscriptions, and a fill-in of empty fields.
module TunnelLabels {
  import opened Common
  import opened Text

  datatype Tunnel = Tunnel(tag: string, kernelInterface: string, protocol: string, security: string, transport: string)

  datatype Member = Member(tag: string, protocol: string, security: string, transport: string)

  datatype Subscription = Subscription(enabled: bool, title: string, selectorTag: string, activeMember: string,
                                       memberTags: seq<string>, members: seq<Member>)

  datatype Meta = Meta(protocol: string, security: string, transport: string)

  datatype Row = Row(tag: string, name: string, interfaceName: string, subscription: bool, meta: Meta)

  /** The subscriptions and the tags of the members currently active, when there is such a service. */
  datatype Source = Source(subs: seq<Subscription>, active: seq<string>)

  function LabelOf(s: Subscription): string {
    if TrimSpace(s.title) != "" then TrimSpace(s.title)
    else if TrimSpace(s.selectorTag) != "" then TrimSpace(s.selectorTag)
    else TrimSpace(s.activeMember)
  }

  function MetaOf(m: Member): Meta {
    Meta(TrimSpace(m.protocol), TrimSpace(m.security), TrimSpace(m.transport))
  }

  predicate ListsTag(tags: seq<string>, t: string) {
    exists k :: 0 <= k < |tags| && TrimSpace(tags[k]) == t
  }

  predicate ListsMember(members: seq<Member>, t: string) {
    exists k :: 0 <= k < |members| && TrimSpace(members[k].tag) == t
  }

  predicate Lists(s: Subscription, t: string) {
    ListsTag(s.memberTags, t) || ListsMember(s.members, t)
  }

  // ---- Labels: what the fold over the subscriptions computes ----

  function LabelFor(subs: seq<Subscription>, t: string): Option<string> {
    if subs == [] || t == "" then None
    else
      var s, prev := subs[|subs| - 1], LabelFor(subs[..|subs| - 1], t);
      if !s.enabled then prev
      else if s.activeMember == t then Some(LabelOf(s))
      else if prev.Some? then prev
      else if Lists(s, t) then Some(LabelOf(s)) else None
  }

  predicate ActiveAt(subs: seq<Subscription>, k: nat, t: string) {
    k < |subs| && subs[k].enabled && subs[k].activeMember == t
  }

  predicate ListedAt(subs: seq<Subscription>, k: nat, t: string) {
    k < |subs| && subs[k].enabled && Lists(subs[k], t)
  }

  /** k holds the label of t: the last enabled subscription active on it, else the first listing it. */
  predicate Labels(subs: seq<Subscription>, k: nat, t: string) {
    || (ActiveAt(subs, k, t) && forall j :: k < j < |subs| ==> !ActiveAt(subs, j, t))
    || (ListedAt(subs, k, t) && (forall j :: 0 <= j < |subs| ==> !ActiveAt(subs, j, t))
        && forall j :: 0 <= j < k ==> !ListedAt(subs, j, t))
  }

  lemma LabelStays(subs: seq<Subscription>, k: nat, t: string)
    requires subs != [] && !ActiveAt(subs, |subs| - 1, t) && Labels(subs[..|subs| - 1], k, t)
    ensures Labels(subs, k, t)
  {
    var front := subs[..|subs| - 1];
    assert forall j :: 0 <= j < |front| ==> ActiveAt(front, j, t) == ActiveAt(subs, j, t);
    assert forall j :: 0 <= j < |front| ==> ListedAt(front, j, t) == ListedAt(subs, j, t);
  }

  lemma NoLabelStays(subs: seq<Subscription>, front: seq<Subscription>, t: string)
    requires subs != [] && front == subs[..|subs| - 1]
    requires forall k :: 0 <= k < |front| ==> !ActiveAt(front, k, t) && !ListedAt(front, k, t)
    ensures forall k :: 0 <= k < |subs| - 1 ==> !ActiveAt(subs, k, t) && !ListedAt(subs, k, t)
  {
    forall k | 0 <= k < |front| ensures !ActiveAt(subs, k, t) && !ListedAt(subs, k, t) {
      assert !ActiveAt(front, k, t) && !ListedAt(front, k, t);
    }
  }

  lemma {:induction false} LabelMeaning(subs: seq<Subscription>, t: string)
    requires t != ""
    ensures LabelFor(subs, t).Some? ==>
              exists k :: 0 <= k < |subs| && Labels(subs, k, t) && LabelFor(subs, t).value == LabelOf(subs[k])
    ensures LabelFor(subs, t).None? ==>
              forall k :: 0 <= k < |subs| ==> !ActiveAt(subs, k, t) && !ListedAt(subs, k, t)
  {
    if subs == [] {
    } else {
      var n := |subs| - 1;
      var front := subs[..n];
      LabelMeaning(front, t);
      if ActiveAt(subs, n, t) {
        assert Labels(subs, n, t);
      } else if LabelFor(front, t).Some? {
        var k :| 0 <= k < n && Labels(front, k, t) && LabelFor(front, t).value == LabelOf(front[k]);
        LabelStays(subs, k, t);
      } else {
        NoLabelStays(subs, front, t);
        if ListedAt(subs, n, t) {
          assert Labels(subs, n, t);
        }
      }
    }
  }

  /** At most one label qualifies, so the fold's result is the one described. */
  lemma LabelUnique(subs: seq<Subscription>, t: string, j: nat, k: nat)
    requires Labels(subs, j, t) && Labels(subs, k, t)
    ensures j == k
  {
  }

  /** The last member with this tag among the enabled subscriptions. */
  function MemberFor(subs: seq<Subscription>, t: string): Option<Member> {
    if subs == [] || t == "" then None
    else
      var s := subs[|subs| - 1];
      if s.enabled && LastMember(s.members, t).Some? then LastMember(s.members, t)
      else MemberFor(subs[..|subs| - 1], t)
  }

  function LastMember(members: seq<Member>, t: string): (m: Option<Member>)
    ensures m.Some? <==> ListsMember(members, t)
    ensures m.Some? ==> m.value in members && TrimSpace(m.value.tag) == t
  {
    if members == [] then None
    else if TrimSpace(members[|members| - 1].tag) == t then Some(members[|members| - 1])
    else LastMember(members[..|members| - 1], t)
  }

  ghost predicate IsLabelMap(labels: map<string, string>, subs: seq<Subscription>) {
    forall t :: LabelFor(subs, t) == if t in labels then Some(labels[t]) else None
  }

  ghost predicate IsMemberMap(members: map<string, Member>, subs: seq<Subscription>) {
    forall t :: MemberFor(subs, t) == if t in members then Some(members[t]) else None
  }

  /** The listed tags take the caption where no label is set yet. */
  method FoldTags(labels0: map<string, string>, tags: seq<string>, caption: string)
    returns (labels: map<string, string>)
    ensures forall t :: t in labels <==> t in labels0 || (t != "" && ListsTag(tags, t))
    ensures forall t :: t in labels ==> labels[t] == if t in labels0 then labels0[t] else caption
  {
    labels := labels0;
    for i := 0 to |tags|
      invariant forall t :: t in labels <==> t in labels0 || (t != "" && ListsTag(tags[..i], t))
      invariant forall t :: t in labels ==> labels[t] == if t in labels0 then labels0[t] else caption
    {
      var tag := TrimSpace(tags[i]);
      assert tags[..i + 1] == tags[..i] + [tags[i]];
      ListsTagGrows(tags[..i], tags[i]);
      if tag != "" && tag !in labels {
        labels := labels[tag := caption];
      }
    }
    assert tags[..|tags|] == tags;
  }

  /** What folding in the members makes of the labels. */
  ghost predicate LabelsWith(labels: map<string, string>, labels0: map<string, string>,
                             list: seq<Member>, caption: string)
  {
    && (forall t :: t in labels <==> t in labels0 || (t != "" && ListsMember(list, t)))
    && (forall t :: t in labels ==> labels[t] == if t in labels0 then labels0[t] else caption)
  }

  /** And of the members by tag. */
  ghost predicate MembersWith(members: map<string, Member>, members0: map<string, Member>, list: seq<Member>) {
    && (forall t :: t in members <==> t in members0 || (t != "" && ListsMember(list, t)))
    && (forall t :: t in members ==>
          members[t] == if t != "" && ListsMember(list, t) then LastMember(list, t).value else members0[t])
  }

  lemma LabelsWithMore(labels: map<string, string>, labels0: map<string, string>,
                       list: seq<Member>, m: Member, caption: string)
    requires LabelsWith(labels, labels0, list, caption)
    ensures var tag := TrimSpace(m.tag);
            LabelsWith(if tag == "" || tag in labels then labels else labels[tag := caption],
                       labels0, list + [m], caption)
  {
    forall t ensures ListsMember(list + [m], t) <==> ListsMember(list, t) || TrimSpace(m.tag) == t {
      LastMemberGrows(list, m, t);
    }
  }

  lemma MembersWithMore(members: map<string, Member>, members0: map<string, Member>, list: seq<Member>, m: Member)
    requires MembersWith(members, members0, list)
    ensures var tag := TrimSpace(m.tag);
            MembersWith(if tag == "" then members else members[tag := m], members0, list + [m])
  {
    var tag := TrimSpace(m.tag);
    var now := if tag == "" then members else members[tag := m];
    forall t
      ensures t in now <==> t in members0 || (t != "" && ListsMember(list + [m], t))
      ensures t in now ==>
                now[t] == if t != "" && ListsMember(list + [m], t) then LastMember(list + [m], t).value else members0[t]
    {
      LastMemberGrows(list, m, t);
    }
  }

  /** The members likewise; of several members with one tag the last is kept. */
  method FoldMembers(labels0: map<string, string>, members0: map<string, Member>, list: seq<Member>, caption: string)
    returns (labels: map<string, string>, members: map<string, Member>)
    ensures LabelsWith(labels, labels0, list, caption) && MembersWith(members, members0, list)
  {
    labels, members := labels0, members0;
    for i := 0 to |list|
      invariant LabelsWith(labels, labels0, list[..i], caption) && MembersWith(members, members0, list[..i])
    {
      var tag := TrimSpace(list[i].tag);
      assert list[..i + 1] == list[..i] + [list[i]];
      LabelsWithMore(labels, labels0, list[..i], list[i], caption);
      MembersWithMore(members, members0, list[..i], list[i]);
      if tag != "" {
        members := members[tag := list[i]];
        if tag !in labels {
          labels := labels[tag := caption];
        }
      }
    }
    assert list[..|list|] == list;
  }

  /** One enabled subscription: its active member takes the label over, its listed tags only if free. */
  method FoldOne(labels0: map<string, string>, members0: map<string, Member>, sub: Subscription)
    returns (labels: map<string, string>, members: map<string, Member>)
    requires sub.enabled
    ensures forall t :: t in labels <==>
              t in labels0 || (t != "" && (t == sub.activeMember || Lists(sub, t)))
    ensures forall t :: t in labels ==>
              labels[t] == if t == sub.activeMember && t != "" then LabelOf(sub)
                           else if t in labels0 then labels0[t] else LabelOf(sub)
    ensures forall t :: t in members <==> t in members0 || (t != "" && ListsMember(sub.members, t))
    ensures forall t :: t in members ==>
              members[t] == if t != "" && ListsMember(sub.members, t)
                            then LastMember(sub.members, t).value else members0[t]
  {
    var caption := TrimSpace(sub.title);
    if caption == "" {
      caption := TrimSpace(sub.selectorTag);
    }
    if caption == "" {
      caption := TrimSpace(sub.activeMember);
    }
    labels := labels0;
    if sub.activeMember != "" {
      labels := labels[sub.activeMember := caption];
    }
    labels := FoldTags(labels, sub.memberTags, caption);
    labels, members := FoldMembers(labels, members0, sub.members, caption);
  }

  lemma ListsTagGrows(tags: seq<string>, tag: string)
    ensures forall t :: ListsTag(tags + [tag], t) <==> ListsTag(tags, t) || TrimSpace(tag) == t
  {
    forall t ensures ListsTag(tags + [tag], t) <==> ListsTag(tags, t) || TrimSpace(tag) == t {
      var more := tags + [tag];
      if ListsTag(tags, t) {
        var k :| 0 <= k < |tags| && TrimSpace(tags[k]) == t;
        assert TrimSpace(more[k]) == t;
      }
      if TrimSpace(tag) == t {
        assert TrimSpace(more[|tags|]) == t;
      }
    }
  }

  lemma LastMemberGrows(members: seq<Member>, m: Member, t: string)
    ensures ListsMember(members + [m], t) <==> ListsMember(members, t) || TrimSpace(m.tag) == t
    ensures LastMember(members + [m], t) == if TrimSpace(m.tag) == t then Some(m) else LastMember(members, t)
  {
    var more := members + [m];
    assert more[..|more| - 1] == members;
    assert ListsMember(more, t) <==> LastMember(more, t).Some?;
    assert ListsMember(members, t) <==> LastMember(members, t).Some?;
  }

  method FoldSubscriptions(subs: seq<Subscription>)
    returns (labels: map<string, string>, members: map<string, Member>)
    ensures IsLabelMap(labels, subs) && IsMemberMap(members, subs)
  {
    labels, members := map[], map[];
    for i := 0 to |subs|
      invariant IsLabelMap(labels, subs[..i]) && IsMemberMap(members, subs[..i])
    {
      assert subs[..i + 1][..i] == subs[..i] && subs[..i + 1][i] == subs[i];
      if subs[i].enabled {
        labels, members := FoldOne(labels, members, subs[i]);
      }
    }
    assert subs[..|subs|] == subs;
  }

  // ---- Rows ----

  function MetaOfTunnel(t: Tunnel): Meta {
    Meta(TrimSpace(t.protocol), TrimSpace(t.security), TrimSpace(t.transport))
  }

  /** A config-backed tunnel that can be probed by its interface. */
  predicate Backed(t: Tunnel) { t.tag != "" && t.kernelInterface != "" }

  function BackedRows(tunnels: seq<Tunnel>): (rows: seq<Row>)
    ensures forall r :: r in rows ==> r.tag != ""
  {
    if tunnels == [] then []
    else
      var t := tunnels[|tunnels| - 1];
      BackedRows(tunnels[..|tunnels| - 1]) +
      if Backed(t) then [Row(t.tag, t.tag, t.kernelInterface, false, MetaOfTunnel(t))] else []
  }

  function TagsOf(rows: seq<Row>): set<string> {
    set r | r in rows :: r.tag
  }

  /** The details of the last backed tunnel with this tag. */
  function MetaFor(tunnels: seq<Tunnel>, tag: string): Option<Meta> {
    if tunnels == [] then None
    else
      var t := tunnels[|tunnels| - 1];
      if Backed(t) && t.tag == tag then Some(MetaOfTunnel(t)) else MetaFor(tunnels[..|tunnels| - 1], tag)
  }

  /** Active tags not yet shown, each once, in first-occurrence order. */
  function RuntimeTags(active: seq<string>, shown: set<string>): (tags: seq<string>)
    ensures forall t :: t in tags <==> t in active && t != "" && t !in shown
    ensures forall i, j :: 0 <= i < j < |tags| ==> tags[i] != tags[j]
  {
    if active == [] then []
    else
      var tags, t := RuntimeTags(active[..|active| - 1], shown), active[|active| - 1];
      assert active == active[..|active| - 1] + [t];
      if t == "" || t in shown || t in tags then tags else tags + [t]
  }

  function RuntimeRow(subs: seq<Subscription>, tag: string): Row {
    var caption := LabelFor(subs, tag).GetOr("");
    var m := MemberFor(subs, tag).GetOr(Member("", "", "", ""));
    Row(tag, if caption != "" then caption else tag, "", true, MetaOf(m))
  }

  function FilledIn(a: Meta, b: Meta): Meta {
    Meta(if a.protocol == "" then b.protocol else a.protocol,
         if a.security == "" then b.security else a.security,
         if a.transport == "" then b.transport else a.transport)
  }

  /** A row whose tag has a label is marked, and its empty details are filled in. */
  function Enriched(tunnels: seq<Tunnel>, subs: seq<Subscription>, r: Row): Row {
    if LabelFor(subs, r.tag).None? then r
    else
      var marked := r.(subscription := true);
      if MemberFor(subs, r.tag).Some? then marked.(meta := FilledIn(r.meta, MetaOf(MemberFor(subs, r.tag).value)))
      else if MetaFor(tunnels, r.tag).Some? then marked.(meta := FilledIn(r.meta, MetaFor(tunnels, r.tag).value))
      else marked
  }

  /** Rows before the fill-in pass. */
  function PlainRows(tunnels: seq<Tunnel>, source: Source): seq<Row> {
    var rows := BackedRows(tunnels);
    var tags := RuntimeTags(source.active, TagsOf(rows));
    rows + RuntimeRows(source.subs, tags)
  }

  ghost predicate IsMetaMap(metaByTag: map<string, Meta>, tunnels: seq<Tunnel>) {
    forall t :: MetaFor(tunnels, t) == if t in metaByTag then Some(metaByTag[t]) else None
  }

  method CollectBacked(tunnels: seq<Tunnel>)
    returns (out: seq<Row>, seen: set<string>, metaByTag: map<string, Meta>)
    ensures out == BackedRows(tunnels) && seen == TagsOf(out) && IsMetaMap(metaByTag, tunnels)
  {
    out, seen, metaByTag := [], {}, map[];
    for i := 0 to |tunnels|
      invariant out == BackedRows(tunnels[..i]) && seen == TagsOf(out)
      invariant IsMetaMap(metaByTag, tunnels[..i])
    {
      var t := tunnels[i];
      assert tunnels[..i + 1][..i] == tunnels[..i] && tunnels[..i + 1][i] == t;
      if t.tag == "" || t.kernelInterface == "" {
        assert BackedRows(tunnels[..i + 1]) == BackedRows(tunnels[..i]) + [];
        continue;
      }
      seen := seen + {t.tag};
      metaByTag := metaByTag[t.tag := MetaOfTunnel(t)];
      out := out + [Row(t.tag, t.tag, t.kernelInterface, false, MetaOfTunnel(t))];
    }
    assert tunnels[..|tunnels|] == tunnels;
  }

  function RuntimeRows(subs: seq<Subscription>, tags: seq<string>): (rows: seq<Row>)
    ensures |rows| == |tags| && forall i :: 0 <= i < |rows| ==> rows[i] == RuntimeRow(subs, tags[i])
  {
    seq(|tags|, i requires 0 <= i < |tags| => RuntimeRow(subs, tags[i]))
  }

  lemma RuntimeTagsGrow(active: seq<string>, t: string, shown: set<string>)
    ensures var tags := RuntimeTags(active, shown);
            RuntimeTags(active + [t], shown) == if t == "" || t in shown || t in tags then tags else tags + [t]
  {
    assert (active + [t])[..|active|] == active;
  }

  lemma RuntimeRowsGrow(subs: seq<Subscription>, tags: seq<string>, tag: string)
    ensures RuntimeRows(subs, tags + [tag]) == RuntimeRows(subs, tags) + [RuntimeRow(subs, tag)]
  {
  }

  /** The row as the loop builds it from the maps. */
  function RowFrom(labels: map<string, string>, members: map<string, Member>, tag: string): Row {
    var name := if tag in labels && labels[tag] != "" then labels[tag] else tag;
    Row(tag, name, "", true, MetaOf(if tag in members then members[tag] else Member("", "", "", "")))
  }

  lemma RowFromMaps(labels: map<string, string>, members: map<string, Member>, subs: seq<Subscription>, tag: string)
    requires IsLabelMap(labels, subs) && IsMemberMap(members, subs)
    ensures RowFrom(labels, members, tag) == RuntimeRow(subs, tag)
  {
    assert LabelFor(subs, tag) == if tag in labels then Some(labels[tag]) else None;
    assert MemberFor(subs, tag) == if tag in members then Some(members[tag]) else None;
  }

  /** The rows with those of the active tags appended. */
  function WithRuntime(backed: seq<Row>, subs: seq<Subscription>, active: seq<string>, shown: set<string>): seq<Row> {
    backed + RuntimeRows(subs, RuntimeTags(active, shown))
  }

  lemma WithRuntimeGrows(backed: seq<Row>, subs: seq<Subscription>, active: seq<string>, t: string, shown: set<string>)
    ensures WithRuntime(backed, subs, active + [t], shown) ==
            WithRuntime(backed, subs, active, shown)
            + if t == "" || t in shown || t in RuntimeTags(active, shown) then [] else [RuntimeRow(subs, t)]
  {
    RuntimeTagsGrow(active, t, shown);
    RuntimeRowsGrow(subs, RuntimeTags(active, shown), t);
  }

  method AppendRuntime(backed: seq<Row>, shown: set<string>, source: Source,
                       labels: map<string, string>, members: map<string, Member>) returns (out: seq<Row>)
    requires IsLabelMap(labels, source.subs) && IsMemberMap(members, source.subs)
    ensures out == WithRuntime(backed, source.subs, source.active, shown)
  {
    out := backed;
    var seen := shown;
    for i := 0 to |source.active|
      invariant forall t :: t in seen <==> t in shown || t in RuntimeTags(source.active[..i], shown)
      invariant out == WithRuntime(backed, source.subs, source.active[..i], shown)
    {
      var tag := source.active[i];
      assert source.active[..i + 1] == source.active[..i] + [tag];
      RuntimeTagsGrow(source.active[..i], tag, shown);
      WithRuntimeGrows(backed, source.subs, source.active[..i], tag, shown);
      if tag == "" || tag in seen {
        continue;
      }
      seen := seen + {tag};
      var name := tag;
      if tag in labels && labels[tag] != "" {
        name := labels[tag];
      }
      var member := if tag in members then members[tag] else Member("", "", "", "");
      RowFromMaps(labels, members, source.subs, tag);
      out := out + [Row(tag, name, "", true, MetaOf(member))];
    }
    assert source.active[..|source.active|] == source.active;
  }

  /** Edits the rows in place. */
  method Enrich(plain: seq<Row>, tunnels: seq<Tunnel>, subs: seq<Subscription>, metaByTag: map<string, Meta>,
                labels: map<string, string>, members: map<string, Member>) returns (out: seq<Row>)
    requires IsMetaMap(metaByTag, tunnels) && IsLabelMap(labels, subs) && IsMemberMap(members, subs)
    ensures |out| == |plain| && forall i :: 0 <= i < |out| ==> out[i] == Enriched(tunnels, subs, plain[i])
  {
    out := plain;
    for i := 0 to |out|
      invariant |out| == |plain|
      invariant forall k :: 0 <= k < i ==> out[k] == Enriched(tunnels, subs, plain[k])
      invariant forall k :: i <= k < |out| ==> out[k] == plain[k]
    {
      var row := out[i];
      assert LabelFor(subs, row.tag) == if row.tag in labels then Some(labels[row.tag]) else None;
      assert MemberFor(subs, row.tag) == if row.tag in members then Some(members[row.tag]) else None;
      assert MetaFor(tunnels, row.tag) == if row.tag in metaByTag then Some(metaByTag[row.tag]) else None;
      if row.tag in labels {
        var filled := row.meta;
        if row.tag in members {
          filled := FilledIn(row.meta, MetaOf(members[row.tag]));
        } else if row.tag in metaByTag {
          filled := FilledIn(row.meta, metaByTag[row.tag]);
        }
        out := out[i := row.(subscription := true, meta := filled)];
      }
    }
  }

  method ListTunnels(tunnels: seq<Tunnel>, sub: Option<Source>) returns (out: seq<Row>)
    ensures sub.None? ==> out == BackedRows(tunnels)
    ensures sub.Some? ==>
              var plain := PlainRows(tunnels, sub.value);
              |out| == |plain| && forall i :: 0 <= i < |out| ==> out[i] == Enriched(tunnels, sub.value.subs, plain[i])
  {
    var backed, seen, metaByTag := CollectBacked(tunnels);
    if sub.None? {
      return backed;
    }
    var labels, members := FoldSubscriptions(sub.value.subs);
    var plain := AppendRuntime(backed, seen, sub.value, labels, members);
    out := Enrich(plain, tunnels, sub.value.subs, metaByTag, labels, members);
  }

  /** The fill-in changes no row's tag, name or interface and overwrites no detail that was there. */
  lemma FillInKeeps(tunnels: seq<Tunnel>, subs: seq<Subscription>, r: Row)
    ensures var row := Enriched(tunnels, subs, r);
            && row.tag == r.tag && row.name == r.name && row.interfaceName == r.interfaceName
            && (r.meta.protocol != "" ==> row.meta.protocol == r.meta.protocol)
            && (r.meta.security != "" ==> row.meta.security == r.meta.security)
            && (r.meta.transport != "" ==> row.meta.transport == r.meta.transport)
            && (row.subscription <==> r.subscription || LabelFor(subs, r.tag).Some?)
  {
  }

  /** Runtime rows carry the runtime tags, each once and none of them a backed tag. */
  lemma RuntimeRowTags(tunnels: seq<Tunnel>, source: Source, i: nat, j: nat)
    requires var backed := BackedRows(tunnels);
             && |backed| <= i < |PlainRows(tunnels, source)| && j < |PlainRows(tunnels, source)|
             && PlainRows(tunnels, source)[j].tag == PlainRows(tunnels, source)[i].tag
    ensures i == j
  {
    var backed := BackedRows(tunnels);
    var n := |backed|;
    var tags := RuntimeTags(source.active, TagsOf(backed));
    var extra := RuntimeRows(source.subs, tags);
    assert forall k :: 0 <= k < n ==> backed[k].tag in TagsOf(backed);
    assert extra[i - n].tag == tags[i - n] && tags[i - n] in tags;
    if j >= n {
      assert extra[j - n].tag == tags[j - n];
    }
  }

  lemma RuntimeRowFields(tunnels: seq<Tunnel>, source: Source, i: nat)
    requires |BackedRows(tunnels)| <= i < |PlainRows(tunnels, source)|
    ensures var row := PlainRows(tunnels, source)[i];
            && row.tag in source.active && row.tag != "" && row == RuntimeRow(source.subs, row.tag)
  {
    var n := |BackedRows(tunnels)|;
    var tags := RuntimeTags(source.active, TagsOf(BackedRows(tunnels)));
    assert RuntimeRows(source.subs, tags)[i - n] == RuntimeRow(source.subs, tags[i - n]);
    assert tags[i - n] in tags;
  }

  /** Config-backed rows come first; every other active tag gets exactly one row, without interface. */
  lemma RuntimeRowsOnce(tunnels: seq<Tunnel>, source: Source, i: nat)
    requires |BackedRows(tunnels)| <= i < |PlainRows(tunnels, source)|
    ensures var plain := PlainRows(tunnels, source);
            && plain[..|BackedRows(tunnels)|] == BackedRows(tunnels)
            && plain[i].tag in source.active && plain[i].tag != ""
            && plain[i].interfaceName == "" && plain[i].subscription
            && forall j :: 0 <= j < |plain| && plain[j].tag == plain[i].tag ==> j == i
  {
    RuntimeRowFields(tunnels, source, i);
    var plain := PlainRows(tunnels, source);
    forall j | 0 <= j < |plain| && plain[j].tag == plain[i].tag ensures j == i {
      RuntimeRowTags(tunnels, source, i, j);
    }
  }

  lemma EveryActiveTagShown(tunnels: seq<Tunnel>, source: Source, t: string)
    requires t in source.active && t != ""
    ensures t in TagsOf(PlainRows(tunnels, source))
  {
    var backed := BackedRows(tunnels);
    var tags := RuntimeTags(source.active, TagsOf(backed));
    var extra := RuntimeRows(source.subs, tags);
    if t in TagsOf(backed) {
      var r :| r in backed && r.tag == t;
      assert r in backed + extra;
    } else {
      var k :| 0 <= k < |tags| && tags[k] == t;
      assert extra[k].tag == t && extra[k] in backed + extra;
    }
  }
}
