// Which access policy each LAN host is bound to: read from the running config on old firmware,
// listed per device, and counted per policy.
module Hotspot {
  import opened Common
  import opened Text

  // ---- Parsing the "ip hotspot" block ----

  /** Length of the leading run of characters that are not white space. */
  function WordLength(s: string): (n: nat)
    ensures n <= |s|
    ensures forall i :: 0 <= i < n ==> !IsSpace(s[i])
    ensures n < |s| ==> IsSpace(s[n])
  {
    if s == "" || IsSpace(s[0]) then 0 else 1 + WordLength(s[1..])
  }

  /** strings.Fields. */
  function Fields(s: string): seq<string>
    decreases |s|
  {
    if s == "" then []
    else if IsSpace(s[0]) then Fields(s[1..])
    else [s[..WordLength(s)]] + Fields(s[WordLength(s)..])
  }

  predicate Contains(s: string, sub: string) {
    exists i :: 0 <= i <= |s| && sub <= s[i..]
  }

  /** Index of the first "policy" that has a word after it. */
  function PolicyIndex(parts: seq<string>, i: nat): Option<nat>
    requires i <= |parts|
    decreases |parts| - i
  {
    if i + 1 >= |parts| then None
    else if parts[i] == "policy" then Some(i) else PolicyIndex(parts, i + 1)
  }

  /** The host and policy a trimmed line binds, if it binds one. */
  function Binding(line: string): Option<(string, string)> {
    if "host " <= line && Contains(line, " policy ") then
      var parts := Fields(line);
      match PolicyIndex(parts, 0)
      case Some(i) => if i + 1 < |parts| then Some((parts[1], parts[i + 1])) else None
      case None => None
    else None
  }

  /** The bindings of the block, before or inside it, added to acc; later ones overwrite. */
  function Parsed(lines: seq<string>, inside: bool, acc: map<string, string>, lower: string -> string)
    : map<string, string>
    decreases |lines|
  {
    if lines == [] then acc
    else
      var t := TrimSpace(lines[0]);
      if t == "ip hotspot" then Parsed(lines[1..], true, acc, lower)
      else if !inside then Parsed(lines[1..], false, acc, lower)
      else if t == "!" then acc
      else
        var b := Binding(t);
        Parsed(lines[1..], true, if b.Some? then acc[lower(b.value.0) := b.value.1] else acc, lower)
  }

  method ParseHotspotPolicies(lines: seq<string>, lower: string -> string) returns (result: map<string, string>)
    ensures result == Parsed(lines, false, map[], lower)
  {
    result := map[];
    var inHotspot := false;
    for n := 0 to |lines|
      invariant Parsed(lines[n..], inHotspot, result, lower) == Parsed(lines, false, map[], lower)
    {
      var trimmed := TrimSpace(lines[n]);
      assert lines[n..][1..] == lines[n + 1..];
      if trimmed == "ip hotspot" {
        inHotspot := true;
        continue;
      }
      if !inHotspot {
        continue;
      }
      if trimmed == "!" {
        return;
      }
      if "host " <= trimmed && Contains(trimmed, " policy ") {
        var parts := Fields(trimmed);
        var i := 0;
        while i + 1 < |parts| && parts[i] != "policy"
          invariant i <= |parts| && PolicyIndex(parts, i) == PolicyIndex(parts, 0)
        {
          i := i + 1;
        }
        if i + 1 < |parts| {
          result := result[lower(parts[1]) := parts[i + 1]];
        }
      }
    }
  }

  // ---- Rendering, and the round trip ----

  predicate Word(s: string) {
    s != "" && forall i :: 0 <= i < |s| ==> !IsSpace(s[i])
  }

  /** The trimmed text of a binding line, perhaps followed by further words. */
  predicate BindingText(t: string, mac: string, policy: string, extra: string) {
    && Word(mac) && mac != "policy" && Word(policy)
    && (extra != "" ==> IsSpace(extra[0]))
    && t == "host " + (mac + (" policy " + (policy + extra)))
  }

  /** The line renders this binding, or is any other line that neither binds nor ends the block. */
  ghost predicate Renders(line: string, b: Option<(string, string)>) {
    match b
    case Some((mac, policy)) => exists extra :: BindingText(TrimSpace(line), mac, policy, extra)
    case None =>
      && TrimSpace(line) != "!"
      && (TrimSpace(line) == "ip hotspot" || !("host " <= TrimSpace(line)) || !Contains(TrimSpace(line), " policy "))
  }

  /** Host to policy, the last binding of a host winning. */
  function Bindings(bs: seq<Option<(string, string)>>, acc: map<string, string>, lower: string -> string)
    : map<string, string>
    decreases |bs|
  {
    if bs == [] then acc
    else Bindings(bs[1..], if bs[0].Some? then acc[lower(bs[0].value.0) := bs[0].value.1] else acc, lower)
  }

  lemma {:induction false} WordLengthOf(w: string, rest: string)
    requires forall i :: 0 <= i < |w| ==> !IsSpace(w[i])
    requires rest != "" ==> IsSpace(rest[0])
    ensures WordLength(w + rest) == |w|
  {
    if w == "" {
    } else {
      WordLengthOf(w[1..], rest);
      assert (w + rest)[1..] == w[1..] + rest;
    }
  }

  lemma FieldsWord(w: string, rest: string)
    requires Word(w) && (rest != "" ==> IsSpace(rest[0]))
    ensures Fields(w + rest) == [w] + Fields(rest)
  {
    WordLengthOf(w, rest);
    assert (w + rest)[..|w|] == w && (w + rest)[|w|..] == rest;
  }

  lemma FieldsStep(w: string, rest: string)
    requires Word(w)
    ensures Fields(w + (" " + rest)) == [w] + Fields(rest)
  {
    FieldsWord(w, " " + rest);
    assert (" " + rest)[1..] == rest;
  }

  lemma FieldsPolicy(policy: string, extra: string)
    requires Word(policy) && (extra != "" ==> IsSpace(extra[0]))
    ensures Fields("policy" + (" " + (policy + extra))) == ["policy"] + ([policy] + Fields(extra))
  {
    FieldsStep("policy", policy + extra);
    FieldsWord(policy, extra);
  }

  lemma BindingTextFields(t: string, mac: string, policy: string, extra: string)
    requires BindingText(t, mac, policy, extra)
    ensures Fields(t) == ["host"] + ([mac] + (["policy"] + ([policy] + Fields(extra))))
  {
    var r2 := "policy" + (" " + (policy + extra));
    var r1 := mac + (" " + r2);
    assert t == "host" + (" " + r1) by {
      assert " policy " + (policy + extra) == " " + r2;
    }
    FieldsPolicy(policy, extra);
    FieldsStep(mac, r2);
    FieldsStep("host", r1);
  }

  lemma PolicyIsThird(parts: seq<string>)
    requires |parts| >= 4 && parts[0] != "policy" && parts[1] != "policy" && parts[2] == "policy"
    ensures PolicyIndex(parts, 0) == Some(2)
  {
    assert PolicyIndex(parts, 1) == PolicyIndex(parts, 2) == Some(2);
  }

  lemma BindingTextBinds(t: string, mac: string, policy: string, extra: string)
    requires BindingText(t, mac, policy, extra)
    ensures Binding(t) == Some((mac, policy))
    ensures t != "!" && t != "ip hotspot"
  {
    BindingTextFields(t, mac, policy, extra);
    PolicyIsThird(Fields(t));
    assert "host " <= t && t[0] == 'h';
    assert t[5 + |mac|..] == " policy " + (policy + extra);
    assert Contains(t, " policy ");
  }

  lemma {:induction false} ParsedBody(body: seq<string>, bs: seq<Option<(string, string)>>, tail: seq<string>,
                                      acc: map<string, string>, lower: string -> string)
    requires |body| == |bs| && forall i :: 0 <= i < |body| ==> Renders(body[i], bs[i])
    requires tail != [] ==> TrimSpace(tail[0]) == "!"
    ensures Parsed(body + tail, true, acc, lower) == Bindings(bs, acc, lower)
    decreases |body|
  {
    if body == [] {
      assert body + tail == tail;
      if tail != [] {
        assert TrimSpace(tail[0]) != "ip hotspot";
      }
    } else {
      assert Renders(body[0], bs[0]);
      var t := TrimSpace(body[0]);
      assert (body + tail)[0] == body[0] && (body + tail)[1..] == body[1..] + tail;
      if bs[0].Some? {
        var extra :| BindingText(t, bs[0].value.0, bs[0].value.1, extra);
        BindingTextBinds(t, bs[0].value.0, bs[0].value.1, extra);
      }
      var acc' := if bs[0].Some? then acc[lower(bs[0].value.0) := bs[0].value.1] else acc;
      ParsedBody(body[1..], bs[1..], tail, acc', lower);
    }
  }

  lemma {:induction false} ParsedPrelude(prelude: seq<string>, rest: seq<string>, lower: string -> string)
    requires forall i :: 0 <= i < |prelude| ==> TrimSpace(prelude[i]) != "ip hotspot"
    ensures Parsed(prelude + rest, false, map[], lower) == Parsed(rest, false, map[], lower)
  {
    if prelude == [] {
      assert prelude + rest == rest;
    } else {
      assert (prelude + rest)[0] == prelude[0] && (prelude + rest)[1..] == prelude[1..] + rest;
      ParsedPrelude(prelude[1..], rest, lower);
    }
  }

  /**
   * The parser recovers exactly the bindings of the first hotspot block, however its lines are
   * indented and mixed with others, whatever stands before it and after its closing mark.
   */
  lemma ParseInvertsRendering(prelude: seq<string>, header: string, body: seq<string>,
                              bs: seq<Option<(string, string)>>, tail: seq<string>, lower: string -> string)
    requires forall i :: 0 <= i < |prelude| ==> TrimSpace(prelude[i]) != "ip hotspot"
    requires TrimSpace(header) == "ip hotspot"
    requires |body| == |bs| && forall i :: 0 <= i < |body| ==> Renders(body[i], bs[i])
    requires tail != [] ==> TrimSpace(tail[0]) == "!"
    ensures Parsed(prelude + ([header] + (body + tail)), false, map[], lower) == Bindings(bs, map[], lower)
  {
    var rest := [header] + (body + tail);
    ParsedPrelude(prelude, rest, lower);
    assert rest[0] == header && rest[1..] == body + tail;
    ParsedBody(body, bs, tail, map[], lower);
  }

  // ---- Devices and counts ----

  datatype Host = Host(mac: string, ip: string, name: string, hostname: string,
                       active: bool, link: string, policy: string)

  datatype Device = Device(mac: string, ip: string, name: string, hostname: string,
                           active: bool, link: string, policy: string)

  /** The policy reported for the host, else the one the running config binds it to. */
  function PolicyOf(h: Host, rc: Option<map<string, string>>, lower: string -> string): string {
    if h.policy == "" && rc.Some? then (if lower(h.mac) in rc.value then rc.value[lower(h.mac)] else "") else h.policy
  }

  function DeviceOf(h: Host, rc: Option<map<string, string>>, lower: string -> string): Device {
    Device(h.mac, h.ip, h.name, if h.name == "" then h.hostname else h.name, h.active, h.link, PolicyOf(h, rc, lower))
  }

  /** p is the policy of the host: the reported one, or, when none is reported, the configured one. */
  predicate HasPolicy(h: Host, p: string, rc: Option<map<string, string>>, lower: string -> string) {
    && p != ""
    && (|| h.policy == p
        || (h.policy == "" && rc.Some? && lower(h.mac) in rc.value && rc.value[lower(h.mac)] == p))
  }

  /** The device shows the host: its first non-empty name, and a policy exactly when it has one. */
  predicate Shows(d: Device, h: Host, rc: Option<map<string, string>>, lower: string -> string) {
    && d.mac == h.mac && d.ip == h.ip && d.name == h.name && d.active == h.active && d.link == h.link
    && (h.name != "" ==> d.hostname == h.name) && (h.name == "" ==> d.hostname == h.hostname)
    && (d.policy != "" ==> HasPolicy(h, d.policy, rc, lower))
    && (h.policy != "" ==> d.policy == h.policy)
    && (h.policy == "" && rc.Some? && lower(h.mac) in rc.value ==> d.policy == rc.value[lower(h.mac)])
  }

  method ListDevices(hosts: seq<Host>, rc: Option<map<string, string>>, lower: string -> string)
    returns (devices: seq<Device>)
    ensures |devices| == |hosts|
    ensures forall i :: 0 <= i < |hosts| ==> devices[i] == DeviceOf(hosts[i], rc, lower)
    ensures forall i :: 0 <= i < |hosts| ==> Shows(devices[i], hosts[i], rc, lower)
  {
    devices := [];
    for i := 0 to |hosts|
      invariant |devices| == i
      invariant forall k :: 0 <= k < i ==> devices[k] == DeviceOf(hosts[k], rc, lower)
    {
      var h := hosts[i];
      var hostname := h.name;
      if hostname == "" {
        hostname := h.hostname;
      }
      var policy := h.policy;
      if policy == "" && rc.Some? {
        policy := if lower(h.mac) in rc.value then rc.value[lower(h.mac)] else "";
      }
      devices := devices + [Device(h.mac, h.ip, h.name, hostname, h.active, h.link, policy)];
    }
  }

  predicate HasMac(hosts: seq<Host>, mac: string) {
    exists k :: 0 <= k < |hosts| && hosts[k].mac == mac
  }

  /** Hosts with policy p, each MAC counted at its first occurrence only. */
  function CountFirst(hosts: seq<Host>, p: string, rc: Option<map<string, string>>, lower: string -> string): nat {
    if hosts == [] then 0
    else
      var front, h := hosts[..|hosts| - 1], hosts[|hosts| - 1];
      CountFirst(front, p, rc, lower) + if !HasMac(front, h.mac) && PolicyOf(h, rc, lower) == p then 1 else 0
  }

  /** The first host with its MAC. */
  predicate FirstAt(hosts: seq<Host>, i: int) {
    0 <= i < |hosts| && forall k :: 0 <= k < i ==> hosts[k].mac != hosts[i].mac
  }

  /** A first occurrence of a host, with policy p. */
  predicate FirstWith(hosts: seq<Host>, i: int, p: string, rc: Option<map<string, string>>, lower: string -> string) {
    FirstAt(hosts, i) && HasPolicy(hosts[i], p, rc, lower)
  }

  function FirstsWith(hosts: seq<Host>, p: string, rc: Option<map<string, string>>, lower: string -> string): set<int> {
    set i | 0 <= i < |hosts| && FirstWith(hosts, i, p, rc, lower)
  }

  lemma FirstGrows(hosts: seq<Host>, h: Host)
    ensures forall i :: i < |hosts| ==> FirstAt(hosts + [h], i) == FirstAt(hosts, i)
    ensures FirstAt(hosts + [h], |hosts|) <==> !HasMac(hosts, h.mac)
  {
    var more := hosts + [h];
    assert forall k :: 0 <= k < |hosts| ==> more[k] == hosts[k];
    assert more[|hosts|] == h;
  }

  lemma FirstsGrow(hosts: seq<Host>, h: Host, p: string, rc: Option<map<string, string>>, lower: string -> string)
    ensures FirstsWith(hosts + [h], p, rc, lower) ==
            FirstsWith(hosts, p, rc, lower)
            + if !HasMac(hosts, h.mac) && HasPolicy(h, p, rc, lower) then {|hosts|} else {}
  {
    var more := hosts + [h];
    FirstGrows(hosts, h);
    forall i ensures i < |hosts| ==> FirstWith(more, i, p, rc, lower) == FirstWith(hosts, i, p, rc, lower) {
      if 0 <= i < |hosts| {
        assert more[i] == hosts[i];
      }
    }
    assert FirstWith(more, |hosts|, p, rc, lower) <==> !HasMac(hosts, h.mac) && HasPolicy(h, p, rc, lower);
  }

  /** The number of hosts that have the policy, each MAC taken at its first occurrence. */
  lemma {:induction false} CountFirstExactly(hosts: seq<Host>, p: string,
                                             rc: Option<map<string, string>>, lower: string -> string)
    requires p != ""
    ensures CountFirst(hosts, p, rc, lower) == |FirstsWith(hosts, p, rc, lower)|
  {
    if hosts == [] {
      assert FirstsWith(hosts, p, rc, lower) == {};
    } else {
      var front, h := hosts[..|hosts| - 1], hosts[|hosts| - 1];
      assert hosts == front + [h];
      CountFirstExactly(front, p, rc, lower);
      FirstsGrow(front, h, p, rc, lower);
      assert PolicyOf(h, rc, lower) == p <==> HasPolicy(h, p, rc, lower);
    }
  }

  /** The counts of all policies that have any device; devices without policy are not counted. */
  ghost predicate CountsOf(counts: map<string, nat>, hosts: seq<Host>,
                           rc: Option<map<string, string>>, lower: string -> string)
  {
    && "" !in counts
    && (forall p :: p in counts ==> counts[p] > 0)
    && forall p :: p != "" ==> CountFirst(hosts, p, rc, lower) == if p in counts then counts[p] else 0
  }

  lemma CountGrows(hosts: seq<Host>, h: Host, p: string, rc: Option<map<string, string>>, lower: string -> string)
    ensures CountFirst(hosts + [h], p, rc, lower) ==
            CountFirst(hosts, p, rc, lower) + if !HasMac(hosts, h.mac) && PolicyOf(h, rc, lower) == p then 1 else 0
  {
    var more := hosts + [h];
    assert more[..|more| - 1] == hosts;
  }

  lemma CountsGrow(counts: map<string, nat>, hosts: seq<Host>, h: Host,
                   rc: Option<map<string, string>>, lower: string -> string)
    requires CountsOf(counts, hosts, rc, lower)
    ensures var policy := PolicyOf(h, rc, lower);
            CountsOf(if HasMac(hosts, h.mac) || policy == "" then counts
                     else counts[policy := (if policy in counts then counts[policy] else 0) + 1],
                     hosts + [h], rc, lower)
  {
    forall p ensures CountFirst(hosts + [h], p, rc, lower) ==
      CountFirst(hosts, p, rc, lower) + if !HasMac(hosts, h.mac) && PolicyOf(h, rc, lower) == p then 1 else 0
    {
      CountGrows(hosts, h, p, rc, lower);
    }
  }

  lemma HasMacGrows(hosts: seq<Host>, h: Host)
    ensures forall m :: HasMac(hosts + [h], m) <==> HasMac(hosts, m) || h.mac == m
  {
    var more := hosts + [h];
    forall m ensures HasMac(more, m) <==> HasMac(hosts, m) || h.mac == m {
      if HasMac(hosts, m) {
        var k :| 0 <= k < |hosts| && hosts[k].mac == m;
        assert more[k].mac == m;
      }
      if h.mac == m {
        assert more[|hosts|].mac == m;
      }
    }
  }

  method CountDevicesPerPolicy(hosts: seq<Host>, rc: Option<map<string, string>>, lower: string -> string)
    returns (counts: map<string, nat>)
    ensures CountsOf(counts, hosts, rc, lower)
  {
    counts := map[];
    var seen: set<string> := {};
    for i := 0 to |hosts|
      invariant forall m :: m in seen <==> HasMac(hosts[..i], m)
      invariant CountsOf(counts, hosts[..i], rc, lower)
    {
      var h := hosts[i];
      assert hosts[..i + 1] == hosts[..i] + [h];
      HasMacGrows(hosts[..i], h);
      CountsGrow(counts, hosts[..i], h, rc, lower);
      if h.mac in seen {
        continue;
      }
      seen := seen + {h.mac};
      var policy := h.policy;
      if policy == "" && rc.Some? {
        policy := if lower(h.mac) in rc.value then rc.value[lower(h.mac)] else "";
      }
      if policy != "" {
        counts := counts[policy := (if policy in counts then counts[policy] else 0) + 1];
      }
    }
    assert hosts[..|hosts|] == hosts;
  }

  predicate DistinctMacs(hosts: seq<Host>) {
    forall i, j :: 0 <= i < j < |hosts| ==> hosts[i].mac != hosts[j].mac
  }

  function Listed(devices: seq<Device>, p: string): nat {
    if devices == [] then 0
    else Listed(devices[..|devices| - 1], p) + if devices[|devices| - 1].policy == p then 1 else 0
  }

  function Bound(devices: seq<Device>): nat {
    if devices == [] then 0 else Bound(devices[..|devices| - 1]) + if devices[|devices| - 1].policy != "" then 1 else 0
  }

  /** With distinct MACs the count of a policy is the number of listed devices that carry it. */
  lemma {:induction false} CountsMatchList(hosts: seq<Host>, devices: seq<Device>, p: string,
                                          rc: Option<map<string, string>>, lower: string -> string)
    requires DistinctMacs(hosts) && |devices| == |hosts|
    requires forall i :: 0 <= i < |hosts| ==> devices[i] == DeviceOf(hosts[i], rc, lower)
    ensures CountFirst(hosts, p, rc, lower) == Listed(devices, p)
  {
    if hosts == [] {
    } else {
      var n := |hosts| - 1;
      CountsMatchList(hosts[..n], devices[..n], p, rc, lower);
      assert !HasMac(hosts[..n], hosts[n].mac);
    }
  }

  ghost function Pick(policies: set<string>): (p: string)
    requires policies != {}
    ensures p in policies
  {
    var p :| p in policies;
    p
  }

  /** Sum of the counts over a set of policies. */
  ghost function Total(devices: seq<Device>, policies: set<string>): nat {
    if policies == {} then 0
    else Listed(devices, Pick(policies)) + Total(devices, policies - {Pick(policies)})
  }

  lemma {:induction false} TotalEmpty(policies: set<string>)
    ensures Total([], policies) == 0
  {
    if policies == {} {
    } else {
      TotalEmpty(policies - {Pick(policies)});
    }
  }

  lemma {:induction false} TotalStep(devices: seq<Device>, d: Device, policies: set<string>)
    ensures Total(devices + [d], policies) == Total(devices, policies) + if d.policy in policies then 1 else 0
    decreases |policies|
  {
    if policies == {} {
    } else {
      assert (devices + [d])[..|devices|] == devices;
      TotalStep(devices, d, policies - {Pick(policies)});
    }
  }

  /** The counts of all policies in use add up to the number of bound devices. */
  lemma {:induction false} CountsAddUp(devices: seq<Device>, policies: set<string>)
    requires "" !in policies
    requires forall d :: d in devices && d.policy != "" ==> d.policy in policies
    ensures Total(devices, policies) == Bound(devices)
  {
    if devices == [] {
      TotalEmpty(policies);
    } else {
      var n := |devices| - 1;
      CountsAddUp(devices[..n], policies);
      TotalStep(devices[..n], devices[n], policies);
      assert devices == devices[..n] + [devices[n]];
    }
  }

  lemma {:induction false} ListedPositive(devices: seq<Device>, d: Device)
    requires d in devices
    ensures Listed(devices, d.policy) > 0
  {
    var n := |devices| - 1;
    if devices[n] == d {
    } else {
      assert devices == devices[..n] + [devices[n]];
      ListedPositive(devices[..n], d);
    }
  }

  /** The counts that the counting loop returns, over the policies it returns them for. */
  lemma CountsSumToBound(hosts: seq<Host>, devices: seq<Device>, counts: map<string, nat>,
                         rc: Option<map<string, string>>, lower: string -> string)
    requires DistinctMacs(hosts) && |devices| == |hosts|
    requires forall i :: 0 <= i < |hosts| ==> devices[i] == DeviceOf(hosts[i], rc, lower)
    requires CountsOf(counts, hosts, rc, lower)
    ensures forall p :: p in counts ==> counts[p] == Listed(devices, p)
    ensures Total(devices, counts.Keys) == Bound(devices)
  {
    forall p | p != "" ensures Listed(devices, p) == if p in counts then counts[p] else 0 {
      CountsMatchList(hosts, devices, p, rc, lower);
    }
    forall d | d in devices && d.policy != "" ensures d.policy in counts.Keys {
      ListedPositive(devices, d);
    }
    CountsAddUp(devices, counts.Keys);
  }
}
