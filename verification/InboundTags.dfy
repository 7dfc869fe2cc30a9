// Warnings about inbound tags that occur more than once in the merged configuration.
module InboundTags {

  datatype Entry = Entry(tag: string, slot: string)

  /** A warning: the tag, and the slots it occurs in, joined for display. */
  datatype Warning = Warning(tag: string, slots: string)

  const COMMA := ", "
  const AND := " и "

  /** Slots of all entries with the tag, in order. */
  function SlotsOf(entries: seq<Entry>, tag: string): seq<string> {
    if entries == [] then []
    else
      var n := |entries| - 1;
      SlotsOf(entries[..n], tag) + if entries[n].tag == tag then [entries[n].slot] else []
  }

  /** slots lists, in order, the slots of exactly the entries with the tag, found at these positions. */
  predicate SlotsAt(slots: seq<string>, entries: seq<Entry>, tag: string, at: seq<nat>) {
    && |slots| == |at|
    && (forall i :: 0 <= i < |at| ==> at[i] < |entries| && entries[at[i]].tag == tag && slots[i] == entries[at[i]].slot)
    && (forall i, j :: 0 <= i < j < |at| ==> at[i] < at[j])
    && forall k :: 0 <= k < |entries| && entries[k].tag == tag ==> k in at
  }

  lemma {:induction false} SlotsInOrder(entries: seq<Entry>, tag: string) returns (at: seq<nat>)
    ensures SlotsAt(SlotsOf(entries, tag), entries, tag, at)
  {
    if entries == [] {
      at := [];
    } else {
      var n := |entries| - 1;
      at := SlotsInOrder(entries[..n], tag);
      SlotsMore(SlotsOf(entries[..n], tag), entries, tag, n, at);
      if entries[n].tag == tag {
        at := at + [n];
      }
    }
  }

  lemma SlotsMore(slots: seq<string>, entries: seq<Entry>, tag: string, n: nat, at: seq<nat>)
    requires n + 1 == |entries| && SlotsAt(slots, entries[..n], tag, at)
    ensures if entries[n].tag == tag then SlotsAt(slots + [entries[n].slot], entries, tag, at + [n])
            else SlotsAt(slots + [], entries, tag, at)
  {
    assert forall k :: 0 <= k < n ==> entries[..n][k] == entries[k];
    assert slots + [] == slots;
  }

  /** Non-empty tags in the order in which they occur for the second time. */
  function Repeated(entries: seq<Entry>): seq<string> {
    if entries == [] then []
    else
      var n := |entries| - 1;
      var tag := entries[n].tag;
      Repeated(entries[..n]) + if tag != "" && |SlotsOf(entries[..n], tag)| == 1 then [tag] else []
  }

  function Joined(slots: seq<string>): string {
    if slots == [] then "" else if |slots| == 1 then slots[0] else slots[0] + COMMA + Joined(slots[1..])
  }

  /** The list is written with commas between its items, nothing before or after. */
  lemma {:induction false} JoinedConcat(a: seq<string>, b: seq<string>)
    requires a != [] && b != []
    ensures Joined(a + b) == Joined(a) + ", " + Joined(b)
    ensures |b| == 1 ==> Joined(b) == b[0]
  {
    assert (a + b)[1..] == a[1..] + b;
    if |a| == 1 {
      assert a[1..] + b == b;
    } else {
      JoinedConcat(a[1..], b);
    }
  }

  function Display(slots: seq<string>): string
    requires slots != []
  {
    Joined(slots[..|slots| - 1]) + AND + slots[|slots| - 1]
  }

  /** The last item is set off by a conjunction. */
  lemma DisplayConcat(a: seq<string>, slot: string)
    requires a != []
    ensures Display(a + [slot]) == Joined(a) + " и " + slot
  {
    assert (a + [slot])[..|a|] == a;
  }

  /** The slots of every non-empty tag, and the tags in the order of their second occurrence. */
  method CollectSlots(entries: seq<Entry>) returns (slotsByTag: map<string, seq<string>>, order: seq<string>)
    ensures forall t :: t in slotsByTag ==> slotsByTag[t] == SlotsOf(entries, t)
    ensures order == Repeated(entries)
    ensures forall i :: 0 <= i < |order| ==> order[i] in slotsByTag && slotsByTag[order[i]] != []
  {
    slotsByTag, order := map[], [];
    for i := 0 to |entries|
      invariant forall t :: t != "" ==> SlotsOf(entries[..i], t) == if t in slotsByTag then slotsByTag[t] else []
      invariant "" !in slotsByTag
      invariant order == Repeated(entries[..i])
    {
      var e := entries[i];
      assert entries[..i + 1][..i] == entries[..i] && entries[..i + 1][i] == e;
      if e.tag == "" {
        continue;
      }
      var slots := (if e.tag in slotsByTag then slotsByTag[e.tag] else []) + [e.slot];
      slotsByTag := slotsByTag[e.tag := slots];
      if |slots| == 2 {
        order := order + [e.tag];
      }
    }
    assert entries[..|entries|] == entries;
    forall i | 0 <= i < |order| ensures order[i] in slotsByTag && slotsByTag[order[i]] != [] {
      RepeatedTwice(entries, order[i]);
    }
  }

  method DuplicateTagWarnings(entries: seq<Entry>) returns (warnings: seq<Warning>)
    ensures |warnings| == |Repeated(entries)|
    ensures forall i :: 0 <= i < |warnings| ==>
              var slots := SlotsOf(entries, Repeated(entries)[i]);
              slots != [] && warnings[i] == Warning(Repeated(entries)[i], Display(slots))
  {
    var slotsByTag, order := CollectSlots(entries);
    warnings := [];
    for i := 0 to |order|
      invariant |warnings| == i
      invariant forall k :: 0 <= k < i ==> warnings[k] == Warning(order[k], Display(slotsByTag[order[k]]))
    {
      var tag := order[i];
      var slots := slotsByTag[tag];
      var joined := Joined(slots[..|slots| - 1]) + AND + slots[|slots| - 1];
      warnings := warnings + [Warning(tag, joined)];
    }
  }

  /** Exactly the non-empty tags occurring at least twice are reported, each once. */
  lemma {:induction false} RepeatedTwice(entries: seq<Entry>, tag: string)
    ensures tag in Repeated(entries) <==> tag != "" && |SlotsOf(entries, tag)| >= 2
    ensures forall i, j :: 0 <= i < j < |Repeated(entries)| ==> !(Repeated(entries)[i] == Repeated(entries)[j] == tag)
  {
    if entries == [] {
    } else {
      RepeatedTwice(entries[..|entries| - 1], tag);
    }
  }

  /** Position k is the second occurrence of its tag. */
  predicate SecondAt(entries: seq<Entry>, k: nat, tag: string) {
    k < |entries| && entries[k].tag == tag && |SlotsOf(entries[..k], tag)| == 1
  }

  /** at lists, in order, positions at which the tags occur for the second time. */
  predicate InOrder(entries: seq<Entry>, tags: seq<string>, at: seq<nat>) {
    && |at| == |tags|
    && (forall i :: 0 <= i < |at| ==> SecondAt(entries, at[i], tags[i]))
    && forall i, j :: 0 <= i < j < |at| ==> at[i] < at[j]
  }

  lemma InOrderStays(entries: seq<Entry>, n: nat, tags: seq<string>, at: seq<nat>)
    requires n <= |entries| && InOrder(entries[..n], tags, at)
    ensures InOrder(entries, tags, at) && forall i :: 0 <= i < |at| ==> at[i] < n
  {
    forall i | 0 <= i < |at| ensures SecondAt(entries, at[i], tags[i]) {
      assert SecondAt(entries[..n], at[i], tags[i]);
      assert entries[..n][..at[i]] == entries[..at[i]];
    }
  }

  lemma InOrderGrows(entries: seq<Entry>, tags: seq<string>, at: seq<nat>, k: nat, tag: string)
    requires InOrder(entries, tags, at) && (forall i :: 0 <= i < |at| ==> at[i] < k) && SecondAt(entries, k, tag)
    ensures InOrder(entries, tags + [tag], at + [k])
  {
  }

  /** The i-th warning belongs to the i-th position at which some tag occurs for the second time. */
  lemma {:induction false} RepeatedInOrder(entries: seq<Entry>) returns (at: seq<nat>)
    ensures InOrder(entries, Repeated(entries), at)
  {
    if entries == [] {
      at := [];
    } else {
      var n := |entries| - 1;
      var tags := Repeated(entries[..n]);
      at := RepeatedInOrder(entries[..n]);
      InOrderStays(entries, n, tags, at);
      if Repeated(entries) != tags {
        InOrderGrows(entries, tags, at, n, entries[n].tag);
        at := at + [n];
      }
    }
  }
}
