// Import, delete and rename of AWG3 endpoints: change the store, project it into the config
// slot through a validating write, undo the change when the write is refused.
module Awg3Endpoints {
  import opened Common
  import opened Text
  import opened Awg3Store

  /** One projected endpoint: the record's tag over the imported object. */
  datatype Entry = Entry(tag: string, body: string)

  function Project(recs: seq<Record>): seq<Entry> {
    if recs == [] then []
    else
      match recs[0].endpoint
      case Object(body) => [Entry(recs[0].tag, body)] + Project(recs[1..])
      case Opaque(_) => Project(recs[1..])
  }

  /** The entries are those of the records at these positions: every object one, in order, under its own tag. */
  ghost predicate Projects(entries: seq<Entry>, recs: seq<Record>, at: seq<nat>) {
    && |entries| == |at|
    && (forall i :: 0 <= i < |at| ==>
          && at[i] < |recs| && recs[at[i]].endpoint.Object?
          && entries[i] == Entry(recs[at[i]].tag, recs[at[i]].endpoint.body))
    && (forall i, j :: 0 <= i < j < |at| ==> at[i] < at[j])
    && forall k :: 0 <= k < |recs| && recs[k].endpoint.Object? ==> k in at
  }

  lemma {:induction false} ProjectConcat(a: seq<Record>, b: seq<Record>)
    ensures Project(a + b) == Project(a) + Project(b)
  {
    if a == [] {
      assert a + b == b;
    } else {
      ProjectConcat(a[1..], b);
      assert (a + b)[1..] == a[1..] + b;
    }
  }

  lemma ProjectsMore(entries: seq<Entry>, recs: seq<Record>, at: seq<nat>, r: Record) returns (more: seq<nat>)
    requires Projects(entries, recs, at)
    ensures Projects(entries + Project([r]), recs + [r], more)
  {
    match r.endpoint {
      case Object(body) =>
        more := at + [|recs|];
        assert Project([r]) == [Entry(r.tag, body)] + Project([]) == [Entry(r.tag, body)];
      case Opaque(_) =>
        more := at;
        assert entries + Project([r]) == entries;
    }
  }

  /** What the projection holds, position by position. */
  lemma {:induction false} ProjectExactly(recs: seq<Record>) returns (at: seq<nat>)
    ensures Projects(Project(recs), recs, at)
  {
    if recs == [] {
      at := [];
    } else {
      var front, r := recs[..|recs| - 1], recs[|recs| - 1];
      at := ProjectExactly(front);
      ProjectConcat(front, [r]);
      at := ProjectsMore(Project(front), front, at, r);
      assert recs == front + [r];
    }
  }

  /** What the handler was wired with to learn about references from the router config. */
  datatype RefSource = NoRules | RulesOnly | RulesAndLocations

  /**
   * Tags the router config refers to, by who can see the reference: the rules that are listed, by
   * their own outbound; the other places of the router slot; the fakeip slot; and references that
   * neither lookup reads, such as outbounds of nested rules, withheld rules and other slots.
   */
  datatype Refs = Refs(rules: set<string>, places: set<string>, fakeip: set<string>, hidden: set<string>) {
    ghost function All(): set<string> { rules + places + fakeip + hidden }
  }

  /**
   * The store in memory and on disk, the applied slot, and the router config around them. foreign
   * holds the tags of existing outbounds of other kinds, listed those of them the tag lister returns.
   */
  datatype World = World(mem: seq<Record>, disk: seq<Record>, slot: seq<Entry>,
                         refs: Refs, listed: set<string>, foreign: set<string>)

  /**
   * Outcomes of the calls a request makes. A location lookup that cannot read the router slot or
   * the fakeip slot reports no error, it finds nothing there.
   */
  datatype Faults = Faults(listerOk: bool, rulesOk: bool, placesOk: bool, fakeipOk: bool,
                           saveOk: bool, syncOk: bool, undoOk: bool)

  /** The imported config after JSON and schema checks: an endpoint, or the reason to refuse it. */
  datatype Config = Valid(endpoint: Endpoint) | Invalid

  datatype Request =
    | Import(tag: string, config: Config, id: string)
    | Delete(id: string)
    | Rename(id: string, tag: string)

  datatype Answer = Success | BadRequest | NotFound | Conflict | InternalError

  /** The tag character class: letters and numbers as given, space, dot, underscore, hyphen. */
  predicate TagOk(tag: string, letterOrNumber: char -> bool) {
    tag != "" && forall i :: 0 <= i < |tag| ==> letterOrNumber(tag[i]) || tag[i] in " ._-"
  }

  ghost function TakenTags(w: World, f: Faults): set<string> {
    Tags(w.mem) + if f.listerOk then w.listed else {}
  }

  /** Some readable location outside the rules names the tag. */
  predicate Located(refs: Refs, f: Faults, tag: string) {
    (f.placesOk && tag in refs.places) || (f.fakeipOk && tag in refs.fakeip)
  }

  /** Whether the tag is referenced; None when the rules could not be listed. */
  function TagReferenced(w: World, src: RefSource, f: Faults, tag: string): Option<bool> {
    match src
    case NoRules => Some(false)
    case RulesOnly => if f.rulesOk then Some(tag in w.refs.rules) else None
    case RulesAndLocations =>
      if Located(w.refs, f, tag) then Some(true)
      else if f.rulesOk then Some(tag in w.refs.rules) else None
  }

  function ReferenceRefusal(referenced: Option<bool>): Option<Answer> {
    match referenced
    case None => Some(InternalError)
    case Some(yes) => if yes then Some(Conflict) else None
  }

  /** The guards in front of the store write; None lets the request through. */
  ghost function Refusal(w: World, src: RefSource, f: Faults, lon: char -> bool, req: Request): Option<Answer> {
    match req
    case Import(tag, config, id) =>
      var t := TrimSpace(tag);
      if config.Invalid? || !TagOk(t, lon) || t in TakenTags(w, f) then Some(BadRequest) else None
    case Delete(id) =>
      var i := IndexOf(w.mem, id);
      if i.None? then Some(NotFound)
      else
        ReferenceRefusal(TagReferenced(w, src, f, w.mem[i.value].tag))
    case Rename(id, tag) =>
      var i := IndexOf(w.mem, id);
      if i.None? then Some(NotFound)
      else
        var oldTag := w.mem[i.value].tag;
        var newTag := TrimSpace(tag);
        if !TagOk(newTag, lon) then Some(BadRequest)
        else if newTag == oldTag then None
        else if newTag in TakenTags(w, f) then Some(BadRequest)
        else ReferenceRefusal(TagReferenced(w, src, f, oldTag))
  }

  /** The list the request asks for, once it has passed its guards. */
  function Wanted(mem: seq<Record>, req: Request): seq<Record> {
    match req
    case Import(tag, config, id) =>
      mem + if config.Valid? then [Record(id, TrimSpace(tag), config.endpoint)] else []
    case Delete(id) =>
      var i := IndexOf(mem, id);
      if i.Some? then Without(mem, i.value) else mem
    case Rename(id, tag) =>
      var i := LastIndexOf(mem, id);
      if i.Some? then Retagged(mem, i.value, TrimSpace(tag)) else mem
  }

  /** The list after the undo of an accepted but unprojectable change. */
  function Undone(mem: seq<Record>, req: Request): seq<Record> {
    match req
    case Import(tag, config, id) =>
      var now := Wanted(mem, req);
      var i := IndexOf(now, id);
      if i.Some? then Without(now, i.value) else now
    case Delete(id) =>
      var i := IndexOf(mem, id);
      if i.Some? then Without(mem, i.value) + [mem[i.value]] else mem
    case Rename(id, tag) =>
      var i := IndexOf(mem, id);
      var now := Wanted(mem, req);
      var j := LastIndexOf(now, id);
      if i.Some? && j.Some? && !TakenByOther(now, id, mem[i.value].tag)
      then Retagged(now, j.value, mem[i.value].tag) else now
  }

  function FailedWriteAnswer(req: Request): Answer { if req.Rename? then BadRequest else InternalError }

  function FailedSyncAnswer(req: Request): Answer { if req.Import? then BadRequest else InternalError }

  /** A whole request. */
  ghost function Handle(w: World, src: RefSource, f: Faults, lon: char -> bool, req: Request): (World, Answer) {
    var refusal := Refusal(w, src, f, lon, req);
    if refusal.Some? then (w, refusal.value)
    else if req.Rename? && TakenByOther(w.mem, req.id, TrimSpace(req.tag)) then (w, BadRequest)
    else
      var now := Wanted(w.mem, req);
      var w1 := w.(mem := now, disk := if f.saveOk then now else w.disk);
      if !f.saveOk then (w1, FailedWriteAnswer(req))
      else if f.syncOk then (w1.(slot := Project(now)), Success)
      else
        var back := Undone(w.mem, req);
        (w1.(mem := back, disk := if f.undoOk then back else now), FailedSyncAnswer(req))
  }

  // ---- The handler as it runs ----

  class Awg3Handler {
    const store: Store
    const src: RefSource
    const letterOrNumber: char -> bool
    var slot: seq<Entry>
    var refs: Refs
    var listed: set<string>
    var foreign: set<string>

    ghost function State(): World
      reads this, store
    {
      World(store.records, store.file, slot, refs, listed, foreign)
    }

    constructor (store: Store, src: RefSource, letterOrNumber: char -> bool)
      ensures this.store == store && this.src == src && this.letterOrNumber == letterOrNumber
      ensures State() == World(store.records, store.file, [], Refs({}, {}, {}, {}), {}, {})
    {
      this.store, this.src, this.letterOrNumber := store, src, letterOrNumber;
      slot, refs, listed, foreign := [], Refs({}, {}, {}, {}), {}, {};
    }

    /** Projects the store into the slot; a refused or failed validating write leaves the slot. */
    method Sync(accepted: bool) returns (ok: bool)
      modifies this`slot
      ensures ok == accepted
      ensures slot == if accepted then Project(store.records) else old(slot)
      ensures accepted ==> exists at :: Projects(slot, store.records, at)
    {
      var entries: seq<Entry> := [];
      var recs := store.records;
      for i := 0 to |recs|
        invariant entries + Project(recs[i..]) == Project(recs)
      {
        match recs[i].endpoint {
          case Object(body) => entries := entries + [Entry(recs[i].tag, body)];
          case Opaque(_) =>
        }
      }
      assert entries == Project(recs);
      ghost var at := ProjectExactly(recs);
      if accepted {
        slot := entries;
      }
      ok := accepted;
    }

    method CollectTaken(f: Faults) returns (taken: set<string>)
      ensures taken == TakenTags(State(), f)
    {
      taken := store.TagSet();
      if f.listerOk {
        taken := taken + listed;
      }
    }

    method Referenced(tag: string, f: Faults) returns (referenced: Option<bool>)
      ensures referenced == TagReferenced(State(), src, f, tag)
      ensures referenced == Some(true) ==> tag in refs.rules + refs.places + refs.fakeip
      ensures referenced == Some(false) && src.RulesAndLocations? ==>
                && tag !in refs.rules
                && (f.placesOk ==> tag !in refs.places) && (f.fakeipOk ==> tag !in refs.fakeip)
      ensures referenced == None ==> !f.rulesOk
    {
      if src.NoRules? {
        return Some(false);
      }
      if src.RulesAndLocations? && Located(refs, f, tag) {
        return Some(true);
      }
      if !f.rulesOk {
        return None;
      }
      referenced := Some(tag in refs.rules);
    }

    method HandleImport(tag: string, config: Config, id: string, f: Faults) returns (answer: Answer)
      modifies this`slot, store
      ensures (State(), answer) == Handle(old(State()), src, f, letterOrNumber, Import(tag, config, id))
    {
      var taken := CollectTaken(f);
      var t := TrimSpace(tag);
      if config.Invalid? || !TagOk(t, letterOrNumber) || t in taken {
        return BadRequest;
      }
      var rec := Record(id, t, config.endpoint);
      var ok := store.Add(rec, f.saveOk);
      if !ok {
        return InternalError;
      }
      var synced := Sync(f.syncOk);
      if !synced {
        var _ := store.Delete(id, f.undoOk);
        return BadRequest;
      }
      answer := Success;
    }

    method HandleDelete(id: string, f: Faults) returns (answer: Answer)
      modifies this`slot, store
      ensures (State(), answer) == Handle(old(State()), src, f, letterOrNumber, Delete(id))
    {
      var rec := store.Get(id);
      if rec.None? {
        return NotFound;
      }
      var referenced := Referenced(rec.value.tag, f);
      if referenced.None? {
        return InternalError;
      }
      if referenced.value {
        return Conflict;
      }
      var ok := store.Delete(id, f.saveOk);
      if !ok {
        return InternalError;
      }
      var synced := Sync(f.syncOk);
      if !synced {
        var _ := store.Add(rec.value, f.undoOk);
        return InternalError;
      }
      answer := Success;
    }

    method HandleRename(id: string, tag: string, f: Faults) returns (answer: Answer)
      modifies this`slot, store
      ensures (State(), answer) == Handle(old(State()), src, f, letterOrNumber, Rename(id, tag))
    {
      var rec := store.Get(id);
      if rec.None? {
        return NotFound;
      }
      var oldTag := rec.value.tag;
      var newTag := TrimSpace(tag);
      if !TagOk(newTag, letterOrNumber) {
        return BadRequest;
      }
      if newTag != oldTag {
        var taken := CollectTaken(f);
        if newTag in taken {
          return BadRequest;
        }
        var referenced := Referenced(oldTag, f);
        if referenced.None? {
          return InternalError;
        }
        if referenced.value {
          return Conflict;
        }
      }
      var ok := store.Rename(id, newTag, f.saveOk);
      if !ok {
        return BadRequest;
      }
      var synced := Sync(f.syncOk);
      if !synced {
        var _ := store.Rename(id, oldTag, f.undoOk);
        return InternalError;
      }
      answer := Success;
    }
  }
}
