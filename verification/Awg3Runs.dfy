// AWG3 requests are all-or-nothing except after a failed store write, and every run of requests
// and router edits keeps tags distinct and router references grounded.
module Awg3Runs {
  import opened Common
  import opened Text
  import opened Awg3Store
  import opened Awg3Endpoints

  ghost predicate Distinct(recs: seq<Record>) {
    DistinctIds(recs) && DistinctTags(recs)
  }

  ghost predicate FreshId(recs: seq<Record>, req: Request) {
    req.Import? ==> forall r :: r in recs ==> r.id != req.id
  }

  /** False only for a rename to the tag the record already has. */
  predicate Changes(w: World, req: Request) {
    req.Rename? ==>
      var i := IndexOf(w.mem, req.id);
      i.Some? ==> w.mem[i.value].tag != TrimSpace(req.tag)
  }

  /** The request passes every guard and reaches the store. */
  ghost predicate Reaches(w: World, src: RefSource, f: Faults, lon: char -> bool, req: Request) {
    Refusal(w, src, f, lon, req) == None
  }

  // ---- The list operations under distinct ids ----

  lemma IndexUnique(recs: seq<Record>, id: string, i: nat)
    requires DistinctIds(recs) && i < |recs| && recs[i].id == id
    ensures IndexOf(recs, id) == Some(i) && LastIndexOf(recs, id) == Some(i)
  {
    assert IndexOf(recs, id).Some? && LastIndexOf(recs, id).Some?;
  }

  lemma SameElementsById(a: seq<Record>, b: seq<Record>)
    requires DistinctIds(a) && DistinctIds(b)
    requires forall r :: r in a <==> r in b
    ensures ById(a) == ById(b)
  {
    var ma, mb := ById(a), ById(b);
    forall id | id in ma ensures id in mb && mb[id] == ma[id] {
      var i :| 0 <= i < |a| && a[i].id == id;
      assert ma[id] == a[i] by { ByIdAt(a, i); }
      assert a[i] in b;
      var j :| 0 <= j < |b| && b[j] == a[i];
      ByIdAt(b, j);
    }
    forall id | id in mb ensures id in ma {
      var j :| 0 <= j < |b| && b[j].id == id;
      assert b[j] in a;
      var i :| 0 <= i < |a| && a[i] == b[j];
    }
  }

  lemma ByIdAt(recs: seq<Record>, i: nat)
    requires DistinctIds(recs) && i < |recs|
    ensures recs[i].id in ById(recs) && ById(recs)[recs[i].id] == recs[i]
  {
    var j :| 0 <= j < |recs| && recs[j].id == recs[i].id && ById(recs)[recs[i].id] == recs[j];
    assert !(i < j) && !(j < i);
  }

  lemma WantedDistinct(w: World, src: RefSource, f: Faults, lon: char -> bool, req: Request)
    requires Distinct(w.mem) && FreshId(w.mem, req) && Reaches(w, src, f, lon, req)
    ensures Distinct(Wanted(w.mem, req))
    ensures !(req.Rename? && TakenByOther(w.mem, req.id, TrimSpace(req.tag)))
  {
    match req {
      case Import(tag, config, id) =>
        assert forall r :: r in w.mem ==> r.tag in Tags(w.mem);
      case Delete(id) =>
      case Rename(id, tag) =>
        var i := IndexOf(w.mem, id).value;
        IndexUnique(w.mem, id, i);
        forall k | 0 <= k < |w.mem| && k != i
          ensures w.mem[k].tag != TrimSpace(tag) && w.mem[k].id != id
        {
          assert w.mem[k].tag in Tags(w.mem);
        }
    }
  }

  lemma DeleteUndone(mem: seq<Record>, i: nat)
    requires Distinct(mem) && i < |mem|
    ensures multiset(Without(mem, i) + [mem[i]]) == multiset(mem)
    ensures Distinct(Without(mem, i) + [mem[i]])
  {
    var a, m, b := mem[..i], [mem[i]], mem[i + 1..];
    assert mem == a + m + b;
    assert multiset(a + b + m) == multiset(a) + multiset(b) + multiset(m);
    DistinctMoved(mem, i, a + b + m);
  }

  lemma DistinctMoved(mem: seq<Record>, i: nat, now: seq<Record>)
    requires Distinct(mem) && i < |mem| && now == Without(mem, i) + [mem[i]]
    ensures Distinct(now)
  {
    var at := seq(|mem|, k => if k == |mem| - 1 then i else if k < i then k else k + 1);
    assert forall k :: 0 <= k < |now| ==> now[k] == mem[at[k]];
    assert forall j, k :: 0 <= j < k < |now| ==> at[j] != at[k];
    forall j, k | 0 <= j < k < |now| ensures now[j].id != now[k].id && now[j].tag != now[k].tag {
      DistinctAt(mem, at[j], at[k]);
    }
  }

  lemma DistinctAt(mem: seq<Record>, j: nat, k: nat)
    requires Distinct(mem) && j < |mem| && k < |mem| && j != k
    ensures mem[j].id != mem[k].id && mem[j].tag != mem[k].tag
  {
    assert j < k || k < j;
  }

  lemma RenameUndone(mem: seq<Record>, i: nat, tag: string)
    requires Distinct(mem) && i < |mem|
    ensures var now := Retagged(mem, i, tag);
            && LastIndexOf(now, mem[i].id) == Some(i)
            && !TakenByOther(now, mem[i].id, mem[i].tag)
            && Retagged(now, i, mem[i].tag) == mem
  {
    var now := Retagged(mem, i, tag);
    IndexUnique(now, mem[i].id, i);
    forall k | 0 <= k < |now| && now[k].id != mem[i].id ensures now[k].tag != mem[i].tag {
      assert now[k] == mem[k] && k != i;
      assert if k < i then mem[k].tag != mem[i].tag else mem[i].tag != mem[k].tag;
    }
  }

  /** The undo restores the list: in place for import and rename, reordered for delete. */
  lemma UndoRestores(w: World, src: RefSource, f: Faults, lon: char -> bool, req: Request)
    requires Distinct(w.mem) && FreshId(w.mem, req) && Reaches(w, src, f, lon, req)
    ensures !req.Delete? ==> Undone(w.mem, req) == w.mem
    ensures multiset(Undone(w.mem, req)) == multiset(w.mem)
    ensures Distinct(Undone(w.mem, req))
  {
    match req {
      case Import(tag, config, id) =>
        var now := Wanted(w.mem, req);
        IndexUnique(now, id, |w.mem|);
        assert Without(now, |w.mem|) == w.mem;
      case Delete(id) =>
        DeleteUndone(w.mem, IndexOf(w.mem, id).value);
      case Rename(id, tag) =>
        var i := IndexOf(w.mem, id).value;
        IndexUnique(w.mem, id, i);
        RenameUndone(w.mem, i, TrimSpace(tag));
    }
  }

  lemma ImportDiffers(mem: seq<Record>, rec: Record)
    requires DistinctIds(mem) && DistinctIds(mem + [rec]) && forall r :: r in mem ==> r.id != rec.id
    ensures ById(mem + [rec]) != ById(mem)
  {
    ByIdAt(mem + [rec], |mem|);
  }

  lemma DeleteDiffers(mem: seq<Record>, i: nat)
    requires DistinctIds(mem) && i < |mem| && DistinctIds(Without(mem, i))
    ensures ById(Without(mem, i)) != ById(mem)
  {
    var now := Without(mem, i);
    ByIdAt(mem, i);
    forall k | 0 <= k < |now| ensures now[k].id != mem[i].id {
      assert now[k] == if k < i then mem[k] else mem[k + 1];
    }
  }

  lemma RenameDiffers(mem: seq<Record>, i: nat, tag: string)
    requires DistinctIds(mem) && i < |mem| && DistinctIds(Retagged(mem, i, tag))
    ensures ById(Retagged(mem, i, tag)) == ById(mem) <==> mem[i].tag == tag
  {
    ByIdAt(mem, i);
    ByIdAt(Retagged(mem, i, tag), i);
    if mem[i].tag == tag {
      assert Retagged(mem, i, tag) == mem;
    }
  }

  /** A request that changes anything changes the map. */
  lemma WantedDiffers(w: World, src: RefSource, f: Faults, lon: char -> bool, req: Request)
    requires Distinct(w.mem) && FreshId(w.mem, req) && Reaches(w, src, f, lon, req)
    ensures DistinctIds(Wanted(w.mem, req))
    ensures ById(Wanted(w.mem, req)) == ById(w.mem) <==> !Changes(w, req)
  {
    WantedDistinct(w, src, f, lon, req);
    match req {
      case Import(tag, config, id) =>
        ImportDiffers(w.mem, Record(id, TrimSpace(tag), config.endpoint));
      case Delete(id) =>
        DeleteDiffers(w.mem, IndexOf(w.mem, id).value);
      case Rename(id, tag) =>
        var i := IndexOf(w.mem, id).value;
        IndexUnique(w.mem, id, i);
        RenameDiffers(w.mem, i, TrimSpace(tag));
    }
  }

  lemma SuccessMeans(w: World, src: RefSource, f: Faults, lon: char -> bool, req: Request)
    requires Handle(w, src, f, lon, req).1.Success?
    ensures Reaches(w, src, f, lon, req)
    ensures var now := Wanted(w.mem, req);
            Handle(w, src, f, lon, req).0 == w.(mem := now, disk := now, slot := Project(now))
  {
  }

  /** What an error leaves behind, write by write. */
  lemma FailureMeans(w: World, src: RefSource, f: Faults, lon: char -> bool, req: Request)
    requires Distinct(w.mem) && FreshId(w.mem, req) && !Handle(w, src, f, lon, req).1.Success?
    ensures var now, back := Wanted(w.mem, req), Undone(w.mem, req);
            Handle(w, src, f, lon, req).0 ==
              if !Reaches(w, src, f, lon, req) then w
              else if !f.saveOk then w.(mem := now)
              else w.(mem := back, disk := if f.undoOk then back else now)
  {
    if Reaches(w, src, f, lon, req) {
      WantedDistinct(w, src, f, lon, req);
    }
  }

  lemma UndoneById(w: World, src: RefSource, f: Faults, lon: char -> bool, req: Request)
    requires Distinct(w.mem) && FreshId(w.mem, req) && Reaches(w, src, f, lon, req)
    ensures Distinct(Undone(w.mem, req)) && ById(Undone(w.mem, req)) == ById(w.mem)
  {
    UndoRestores(w, src, f, lon, req);
    var back := Undone(w.mem, req);
    forall r ensures r in back <==> r in w.mem {
      assert r in back <==> r in multiset(back);
      assert r in w.mem <==> r in multiset(w.mem);
    }
    SameElementsById(back, w.mem);
  }

  /** After an error: the list in memory, as a map. */
  lemma FailureInMemory(w: World, src: RefSource, f: Faults, lon: char -> bool, req: Request)
    requires Distinct(w.mem) && FreshId(w.mem, req) && !Handle(w, src, f, lon, req).1.Success?
    ensures var mem := Handle(w, src, f, lon, req).0.mem;
            && Distinct(mem)
            && (ById(mem) == ById(w.mem) <==> !(Reaches(w, src, f, lon, req) && !f.saveOk && Changes(w, req)))
  {
    FailureMeans(w, src, f, lon, req);
    if Reaches(w, src, f, lon, req) {
      WantedDistinct(w, src, f, lon, req);
      WantedDiffers(w, src, f, lon, req);
      UndoneById(w, src, f, lon, req);
    }
  }

  /** After an error: the file, as a map, when it agreed with memory before. */
  lemma FailureInFile(w: World, src: RefSource, f: Faults, lon: char -> bool, req: Request)
    requires Distinct(w.mem) && FreshId(w.mem, req) && !Handle(w, src, f, lon, req).1.Success?
    requires w.disk == w.mem
    ensures var disk := Handle(w, src, f, lon, req).0.disk;
            && DistinctIds(disk)
            && (ById(disk) == ById(w.disk) <==>
                  !(Reaches(w, src, f, lon, req) && f.saveOk && !f.undoOk && Changes(w, req)))
  {
    FailureMeans(w, src, f, lon, req);
    if Reaches(w, src, f, lon, req) {
      WantedDistinct(w, src, f, lon, req);
      WantedDiffers(w, src, f, lon, req);
      UndoneById(w, src, f, lon, req);
    }
  }

  /**
   * A success leaves the file and the slot equal to the changed store. An error leaves the slot
   * alone and, as a map, the store in memory, unless it was the store's own write that failed. The
   * file keeps its content until the change is written; then it holds what memory was restored to,
   * or the change itself when the undo could not be written. So a file that agreed with memory is,
   * as a map, left alone unless that undo failed.
   */
  lemma AllOrNothing(w: World, src: RefSource, f: Faults, lon: char -> bool, req: Request)
    requires Distinct(w.mem) && FreshId(w.mem, req)
    ensures var (w', answer) := Handle(w, src, f, lon, req);
            && Distinct(w'.mem)
            && w'.refs == w.refs && w'.listed == w.listed && w'.foreign == w.foreign
            && (answer.Success? ==>
                  w'.mem == w'.disk == Wanted(w.mem, req) && w'.slot == Project(w'.mem))
            && (!answer.Success? ==>
                  && w'.slot == w.slot
                  && (ById(w'.mem) == ById(w.mem) <==>
                        !(Reaches(w, src, f, lon, req) && !f.saveOk && Changes(w, req)))
                  && w'.disk == (if !(Reaches(w, src, f, lon, req) && f.saveOk) then w.disk
                                 else if f.undoOk then w'.mem else Wanted(w.mem, req))
                  && (w.disk == w.mem ==>
                        && DistinctIds(w'.disk)
                        && (ById(w'.disk) == ById(w.disk) <==>
                              !(Reaches(w, src, f, lon, req) && f.saveOk && !f.undoOk && Changes(w, req)))))
  {
    if Handle(w, src, f, lon, req).1.Success? {
      SuccessMeans(w, src, f, lon, req);
      WantedDistinct(w, src, f, lon, req);
    } else {
      FailureMeans(w, src, f, lon, req);
      FailureInMemory(w, src, f, lon, req);
      if w.disk == w.mem {
        FailureInFile(w, src, f, lon, req);
      }
    }
  }

  /** Two requests that succeed one after the other bring memory back, and file and slot in line with it. */
  ghost predicate Cancel(w: World, src: RefSource, f: Faults, g: Faults, lon: char -> bool,
                         req: Request, inverse: Request)
  {
    var (w1, first) := Handle(w, src, f, lon, req);
    var (w2, second) := Handle(w1, src, g, lon, inverse);
    first.Success? && second.Success? ==> w2 == w.(disk := w.mem, slot := Project(w.mem))
  }

  lemma InverseCancels(w: World, src: RefSource, f: Faults, g: Faults, lon: char -> bool,
                       req: Request, inverse: Request)
    requires Handle(w, src, f, lon, req).1.Success? ==> Wanted(Wanted(w.mem, req), inverse) == w.mem
    ensures Cancel(w, src, f, g, lon, req, inverse)
  {
    var (w1, first) := Handle(w, src, f, lon, req);
    if first.Success? && Handle(w1, src, g, lon, inverse).1.Success? {
      SuccessMeans(w, src, f, lon, req);
      SuccessMeans(w1, src, g, lon, inverse);
    }
  }

  lemma DeleteUndoesImport(w: World, src: RefSource, f: Faults, g: Faults, lon: char -> bool,
                           tag: string, config: Config, id: string)
    requires Distinct(w.mem) && FreshId(w.mem, Import(tag, config, id))
    ensures Cancel(w, src, f, g, lon, Import(tag, config, id), Delete(id))
  {
    var req := Import(tag, config, id);
    if Handle(w, src, f, lon, req).1.Success? {
      SuccessMeans(w, src, f, lon, req);
      UndoRestores(w, src, f, lon, req);
      assert Wanted(Wanted(w.mem, req), Delete(id)) == Undone(w.mem, req);
    }
    InverseCancels(w, src, f, g, lon, req, Delete(id));
  }

  lemma RenameBack(w: World, src: RefSource, f: Faults, g: Faults, lon: char -> bool, i: nat, tag: string)
    requires Distinct(w.mem) && i < |w.mem| && TrimSpace(w.mem[i].tag) == w.mem[i].tag
    ensures Cancel(w, src, f, g, lon, Rename(w.mem[i].id, tag), Rename(w.mem[i].id, w.mem[i].tag))
  {
    var id := w.mem[i].id;
    IndexUnique(w.mem, id, i);
    RenameUndone(w.mem, i, TrimSpace(tag));
    InverseCancels(w, src, f, g, lon, Rename(id, tag), Rename(id, w.mem[i].tag));
  }

  /** Every record of the changed list carries an old tag or the requested one. */
  lemma WantedTag(mem: seq<Record>, req: Request, r: Record)
    requires r in Wanted(mem, req)
    ensures r.tag in Tags(mem) || (!req.Delete? && r.tag == TrimSpace(req.tag))
  {
    if r in mem {
      assert r.tag in Tags(mem);
    }
  }

  lemma TagsOfSame(a: seq<Record>, b: seq<Record>)
    requires multiset(a) == multiset(b)
    ensures Tags(a) == Tags(b)
  {
    assert forall r :: r in a <==> r in multiset(a);
    assert forall r :: r in b <==> r in multiset(b);
  }

  /** The tag an import or a rename brings in. */
  function Brought(req: Request): Option<string> {
    match req
    case Import(tag, _, _) => Some(TrimSpace(tag))
    case Rename(_, tag) => Some(TrimSpace(tag))
    case Delete(_) => None
  }

  /** The change of the list stays in memory: applied, or stuck there by a failed write. */
  ghost predicate Sticks(w: World, src: RefSource, f: Faults, lon: char -> bool, req: Request) {
    Reaches(w, src, f, lon, req) && Changes(w, req) && (f.saveOk ==> f.syncOk)
  }

  /** Where the list in memory ends up. */
  lemma MemoryIs(w: World, src: RefSource, f: Faults, lon: char -> bool, req: Request)
    requires Distinct(w.mem) && FreshId(w.mem, req)
    ensures Handle(w, src, f, lon, req).0.mem ==
              if !Reaches(w, src, f, lon, req) then w.mem
              else if f.saveOk && !f.syncOk then Undone(w.mem, req) else Wanted(w.mem, req)
  {
    if Handle(w, src, f, lon, req).1.Success? {
      SuccessMeans(w, src, f, lon, req);
    } else {
      FailureMeans(w, src, f, lon, req);
    }
  }

  lemma UndoneTags(w: World, src: RefSource, f: Faults, lon: char -> bool, req: Request)
    requires Distinct(w.mem) && FreshId(w.mem, req) && Reaches(w, src, f, lon, req)
    ensures Tags(Undone(w.mem, req)) == Tags(w.mem)
  {
    UndoRestores(w, src, f, lon, req);
    TagsOfSame(Undone(w.mem, req), w.mem);
  }

  lemma MemoryAfter(w: World, src: RefSource, f: Faults, lon: char -> bool, req: Request)
    requires Distinct(w.mem) && FreshId(w.mem, req)
    ensures Tags(Handle(w, src, f, lon, req).0.mem) ==
              if Sticks(w, src, f, lon, req) then Tags(Wanted(w.mem, req)) else Tags(w.mem)
  {
    MemoryIs(w, src, f, lon, req);
    if Reaches(w, src, f, lon, req) {
      UndoneTags(w, src, f, lon, req);
      if !Changes(w, req) {
        UnchangedWanted(w, src, f, lon, req);
      }
    }
  }

  lemma UnchangedWanted(w: World, src: RefSource, f: Faults, lon: char -> bool, req: Request)
    requires Distinct(w.mem) && Reaches(w, src, f, lon, req) && !Changes(w, req)
    ensures Wanted(w.mem, req) == w.mem
  {
    IndexUnique(w.mem, req.id, IndexOf(w.mem, req.id).value);
  }

  /** The tag brought in is there, and no other new one. */
  lemma BroughtIsWanted(w: World, src: RefSource, f: Faults, lon: char -> bool, req: Request)
    requires Distinct(w.mem) && Reaches(w, src, f, lon, req)
    ensures Brought(req).Some? ==> Brought(req).value in Tags(Wanted(w.mem, req))
    ensures forall t :: t in Tags(Wanted(w.mem, req)) ==> t in Tags(w.mem) || Brought(req) == Some(t)
  {
    var now := Wanted(w.mem, req);
    forall t | t in Tags(now) ensures t in Tags(w.mem) || Brought(req) == Some(t) {
      var r :| r in now && r.tag == t;
      WantedTag(w.mem, req, r);
    }
    match req {
      case Import(_, _, _) => assert now[|w.mem|] in now;
      case Rename(id, _) => assert now[LastIndexOf(w.mem, id).value] in now;
      case Delete(_) =>
    }
  }

  /**
   * A request takes over the tag of an outbound of another kind exactly when it brings that tag in
   * and the change sticks; the guard prevents it for the tags it got listed.
   */
  lemma ForeignTagsExactly(w: World, src: RefSource, f: Faults, lon: char -> bool, req: Request)
    requires Distinct(w.mem) && FreshId(w.mem, req) && Tags(w.mem) !! w.foreign
    ensures Tags(Handle(w, src, f, lon, req).0.mem) !! w.foreign <==>
              !(Sticks(w, src, f, lon, req) && Brought(req).Some? && Brought(req).value in w.foreign)
    ensures Sticks(w, src, f, lon, req) && Brought(req).Some? && f.listerOk ==> Brought(req).value !in w.listed
  {
    MemoryAfter(w, src, f, lon, req);
    if Sticks(w, src, f, lon, req) {
      BroughtIsWanted(w, src, f, lon, req);
    }
  }

  /** With a working tag lister no request takes over a tag the lister returns. */
  lemma ForeignTagsRespected(w: World, src: RefSource, f: Faults, lon: char -> bool, req: Request)
    requires Distinct(w.mem) && FreshId(w.mem, req)
    requires f.listerOk && Tags(w.mem) !! w.listed
    ensures Tags(Handle(w, src, f, lon, req).0.mem) !! w.listed
  {
    ForeignTagsExactly(w.(foreign := w.listed), src, f, lon, req);
  }

  // ---- Runs ----

  /** Where the router config is edited. */
  datatype Place = InRule | InPlace | InFakeIP | Hidden

  datatype Event =
    | Requested(req: Request, f: Faults)
    | AddRef(tag: string, place: Place)
    | DropRef(tag: string, place: Place)
    | ForeignChange(tags: set<string>, listed: set<string>)
    | Restart(syncOk: bool)

  /** Every reference in the router config names an outbound that exists. */
  ghost predicate Grounded(w: World) {
    w.refs.All() <= Tags(w.mem) + w.foreign
  }

  /** Router edits add references only to existing tags and drop no outbound in use. */
  ghost predicate Allowed(w: World, e: Event) {
    match e
    case Requested(req, f) => FreshId(w.mem, req)
    case AddRef(tag, place) => tag in Tags(w.mem) + w.foreign
    case DropRef(tag, place) => true
    case ForeignChange(tags, listed) => w.refs.All() <= Tags(w.mem) + tags
    case Restart(syncOk) => true
  }

  function At(refs: Refs, place: Place): set<string> {
    match place
    case InRule => refs.rules
    case InPlace => refs.places
    case InFakeIP => refs.fakeip
    case Hidden => refs.hidden
  }

  function Replaced(refs: Refs, place: Place, tags: set<string>): Refs {
    match place
    case InRule => refs.(rules := tags)
    case InPlace => refs.(places := tags)
    case InFakeIP => refs.(fakeip := tags)
    case Hidden => refs.(hidden := tags)
  }

  /** A restart loads the file and projects it into the slot once more. */
  ghost function Happen(w: World, lon: char -> bool, e: Event): World {
    match e
    case Requested(req, f) => Handle(w, RulesAndLocations, f, lon, req).0
    case AddRef(tag, place) => w.(refs := Replaced(w.refs, place, At(w.refs, place) + {tag}))
    case DropRef(tag, place) => w.(refs := Replaced(w.refs, place, At(w.refs, place) - {tag}))
    case ForeignChange(tags, listed) => w.(foreign := tags, listed := listed)
    case Restart(syncOk) => w.(mem := w.disk, slot := if syncOk then Project(w.disk) else w.slot)
  }

  ghost predicate Run(w: World, lon: char -> bool, events: seq<Event>, w': World)
    decreases |events|
  {
    if events == [] then w == w'
    else Allowed(w, events[0]) && Run(Happen(w, lon, events[0]), lon, events[1..], w')
  }

  /** The changed list gives up no tag but that of the record being deleted or retagged. */
  lemma WantedKeepsTags(mem: seq<Record>, req: Request, r: Record)
    requires DistinctIds(mem) && r in mem
    ensures r.tag in Tags(Wanted(mem, req)) || (!req.Import? && r.id == req.id)
  {
    var k :| 0 <= k < |mem| && mem[k] == r;
    var now := Wanted(mem, req);
    match req {
      case Import(_, _, _) => assert now[k] == r;
      case Delete(id) =>
        var i := IndexOf(mem, id);
        if r.id != id {
          if i.Some? {
            assert now[if k < i.value then k else k - 1] == r;
          }
          assert r in now;
        }
      case Rename(id, _) =>
        if r.id != id {
          assert now[k] == r;
        }
    }
  }

  /** The tag a delete or a rename gives up. */
  function GivenUp(w: World, req: Request): Option<string> {
    if req.Import? || IndexOf(w.mem, req.id).None? then None else Some(w.mem[IndexOf(w.mem, req.id).value].tag)
  }

  /** References that escape the guard of this request. */
  ghost function Unseen(w: World, src: RefSource, f: Faults): set<string> {
    w.refs.hidden
    + (if src.RulesAndLocations? && f.placesOk then {} else w.refs.places)
    + (if src.RulesAndLocations? && f.fakeipOk then {} else w.refs.fakeip)
    + (if src.NoRules? then w.refs.rules else {})
  }

  /** The request gives up, for good, a tag that something it did not see refers to. */
  ghost predicate Dangles(w: World, src: RefSource, f: Faults, lon: char -> bool, req: Request) {
    && Sticks(w, src, f, lon, req)
    && GivenUp(w, req).Some? && GivenUp(w, req).value in Unseen(w, src, f) && GivenUp(w, req).value !in w.foreign
  }

  /** What the guard lets through is referred to only where it did not look. */
  lemma PassedGuard(w: World, src: RefSource, f: Faults, lon: char -> bool, req: Request)
    requires Reaches(w, src, f, lon, req) && Changes(w, req) && GivenUp(w, req).Some?
    ensures GivenUp(w, req).value in w.refs.All() <==> GivenUp(w, req).value in Unseen(w, src, f)
  {
  }

  /** The changed list lacks the tag given up and keeps every other. */
  lemma OnlyGivenUp(w: World, src: RefSource, f: Faults, lon: char -> bool, req: Request)
    requires Distinct(w.mem) && FreshId(w.mem, req) && Reaches(w, src, f, lon, req) && Changes(w, req)
    ensures forall t :: t in Tags(w.mem) ==> (t in Tags(Wanted(w.mem, req)) <==> GivenUp(w, req) != Some(t))
  {
    var now := Wanted(w.mem, req);
    forall t | t in Tags(w.mem) && GivenUp(w, req) != Some(t) ensures t in Tags(now) {
      var r :| r in w.mem && r.tag == t;
      WantedKeepsTags(w.mem, req, r);
    }
    if GivenUp(w, req).Some? {
      GivenUpIsGone(w, src, f, lon, req);
    }
  }

  lemma GivenUpIsGone(w: World, src: RefSource, f: Faults, lon: char -> bool, req: Request)
    requires Distinct(w.mem) && Reaches(w, src, f, lon, req) && Changes(w, req) && GivenUp(w, req).Some?
    ensures GivenUp(w, req).value !in Tags(Wanted(w.mem, req))
  {
    var now, i := Wanted(w.mem, req), IndexOf(w.mem, req.id).value;
    IndexUnique(w.mem, req.id, i);
    forall k | 0 <= k < |now| ensures now[k].tag != w.mem[i].tag {
      if req.Delete? {
        DistinctAt(w.mem, if k < i then k else k + 1, i);
      } else if k != i {
        DistinctAt(w.mem, k, i);
      }
    }
  }

  lemma OneTagLess(refs: set<string>, tags: set<string>, left: set<string>, others: set<string>, gone: Option<string>)
    requires refs <= tags + others
    requires forall t :: t in tags ==> (t in left <==> gone != Some(t))
    requires gone.Some? ==> gone.value in tags
    ensures refs <= left + others <==> !(gone.Some? && gone.value in refs && gone.value !in others)
  {
    if gone.Some? && gone.value in refs && gone.value !in others {
      assert gone.value !in left + others;
    }
  }

  lemma SticksExactly(w: World, src: RefSource, f: Faults, lon: char -> bool, req: Request)
    requires Distinct(w.mem) && FreshId(w.mem, req) && Grounded(w) && Sticks(w, src, f, lon, req)
    ensures w.refs.All() <= Tags(Wanted(w.mem, req)) + w.foreign <==> !Dangles(w, src, f, lon, req)
  {
    var gone := GivenUp(w, req);
    OnlyGivenUp(w, src, f, lon, req);
    if gone.Some? {
      PassedGuard(w, src, f, lon, req);
      assert w.mem[IndexOf(w.mem, req.id).value] in w.mem;
      GivenUpIsGone(w, src, f, lon, req);
    }
    OneTagLess(w.refs.All(), Tags(w.mem), Tags(Wanted(w.mem, req)), w.foreign, gone);
  }

  /** From a grounded state exactly such a request leaves a reference dangling. */
  lemma GroundedExactly(w: World, src: RefSource, f: Faults, lon: char -> bool, req: Request)
    requires Distinct(w.mem) && FreshId(w.mem, req) && Grounded(w)
    ensures Grounded(Handle(w, src, f, lon, req).0) <==> !Dangles(w, src, f, lon, req)
  {
    AllOrNothing(w, src, f, lon, req);
    MemoryAfter(w, src, f, lon, req);
    if Sticks(w, src, f, lon, req) {
      SticksExactly(w, src, f, lon, req);
    }
  }

  /** A reference in a fakeip slot that cannot be read does not stop a delete. */
  lemma UnreadableConfigDangles(lon: char -> bool, e: Endpoint)
    ensures var rec := Record("id", "a", e);
            var w := World([rec], [rec], [], Refs({}, {}, {"a"}, {}), {}, {});
            var f := Faults(true, true, true, false, true, true, true);
            var (w', answer) := Handle(w, RulesAndLocations, f, lon, Delete("id"));
            Grounded(w) && answer.Success? && !Grounded(w')
  {
    var rec := Record("id", "a", e);
    assert rec in [rec];
    assert Wanted([rec], Delete("id")) == [];
    assert "a" in {"a"};
  }

  /** Nor does one that neither lookup reads, though every call succeeds. */
  lemma NestedReferenceDangles(lon: char -> bool, e: Endpoint)
    ensures var rec := Record("id", "a", e);
            var w := World([rec], [rec], [], Refs({}, {}, {}, {"a"}), {}, {});
            var f := Faults(true, true, true, true, true, true, true);
            var (w', answer) := Handle(w, RulesAndLocations, f, lon, Delete("id"));
            Grounded(w) && answer.Success? && !Grounded(w')
  {
    var rec := Record("id", "a", e);
    assert rec in [rec];
    assert Wanted([rec], Delete("id")) == [];
    assert "a" in {"a"};
  }

  /** No request of the run gives up a tag that something unseen refers to. */
  ghost predicate Guarded(w: World, lon: char -> bool, events: seq<Event>)
    decreases |events|
  {
    if events == [] then true
    else
      && (events[0].Requested? ==> !Dangles(w, RulesAndLocations, events[0].f, lon, events[0].req))
      && Guarded(Happen(w, lon, events[0]), lon, events[1..])
  }

  /** Every state of the run is grounded. */
  ghost predicate GroundedThroughout(w: World, lon: char -> bool, events: seq<Event>)
    decreases |events|
  {
    Grounded(w) && (events != [] ==> GroundedThroughout(Happen(w, lon, events[0]), lon, events[1..]))
  }

  lemma EditKeeps(w: World, lon: char -> bool, e: Event)
    requires Grounded(w) && Allowed(w, e) && (e.AddRef? || e.DropRef? || e.ForeignChange?)
    ensures var w' := Happen(w, lon, e); Grounded(w') && w'.mem == w.mem && w'.disk == w.disk && w'.slot == w.slot
  {
  }

  /**
   * As long as the process lives no tag doubles, whatever calls fail; and no reference dangles at
   * any time exactly when no request gives up a tag that something its guard did not see refers to.
   */
  lemma {:induction false} RunsStaySound(w: World, lon: char -> bool, events: seq<Event>, w': World)
    requires Run(w, lon, events, w')
    requires forall e :: e in events ==> !e.Restart?
    requires Distinct(w.mem) && Grounded(w)
    ensures Distinct(w'.mem)
    ensures GroundedThroughout(w, lon, events) <==> Guarded(w, lon, events)
    ensures Guarded(w, lon, events) ==> Grounded(w')
    decreases |events|
  {
    if events == [] {
    } else {
      var e := events[0];
      var next := Happen(w, lon, e);
      if e.Requested? {
        AllOrNothing(w, RulesAndLocations, e.f, lon, e.req);
        GroundedExactly(w, RulesAndLocations, e.f, lon, e.req);
      } else {
        EditKeeps(w, lon, e);
      }
      if Grounded(next) {
        RunsStaySound(next, lon, events[1..], w');
      } else {
        RunsKeepTagsDistinct(next, lon, events[1..], w');
      }
    }
  }

  lemma {:induction false} RunsKeepTagsDistinct(w: World, lon: char -> bool, events: seq<Event>, w': World)
    requires Run(w, lon, events, w') && Distinct(w.mem)
    requires forall e :: e in events ==> !e.Restart?
    ensures Distinct(w'.mem)
    decreases |events|
  {
    if events == [] {
    } else {
      var e := events[0];
      if e.Requested? {
        AllOrNothing(w, RulesAndLocations, e.f, lon, e.req);
      }
      RunsKeepTagsDistinct(Happen(w, lon, e), lon, events[1..], w');
    }
  }

  /** The file mirrors the list, and the slot holds its projection up to order. */
  ghost predicate InStep(w: World) {
    w.disk == w.mem && multiset(w.slot) == multiset(Project(w.mem))
  }

  lemma Swapped(a: seq<Entry>, m: seq<Entry>, b: seq<Entry>)
    ensures multiset(a + (b + m)) == multiset(a + (m + b))
  {
    assert multiset(b + m) == multiset(m + b);
  }

  lemma ProjectSwapped(a: seq<Record>, m: seq<Record>, b: seq<Record>)
    ensures multiset(Project(a + (b + m))) == multiset(Project(a + (m + b)))
  {
    ProjectConcat(a, m + b);
    ProjectConcat(m, b);
    ProjectConcat(a, b + m);
    ProjectConcat(b, m);
    Swapped(Project(a), Project(m), Project(b));
  }

  lemma Rearranged(recs: seq<Record>, i: nat)
    requires i < |recs|
    ensures var a, m, b := recs[..i], [recs[i]], recs[i + 1..];
            a + (m + b) == recs && a + (b + m) == Without(recs, i) + [recs[i]]
  {
  }

  lemma ProjectMoved(recs: seq<Record>, i: nat)
    requires i < |recs|
    ensures multiset(Project(Without(recs, i) + [recs[i]])) == multiset(Project(recs))
  {
    Rearranged(recs, i);
    ProjectSwapped(recs[..i], [recs[i]], recs[i + 1..]);
  }

  /** A store write fails: the change itself, or the undo of a refused one. */
  ghost predicate WriteFails(w: World, src: RefSource, f: Faults, lon: char -> bool, req: Request) {
    Reaches(w, src, f, lon, req) && if f.saveOk then !f.syncOk && !f.undoOk else true
  }

  /** A changing request makes a list different from the one before and from the one after its undo. */
  lemma ListsDiffer(w: World, src: RefSource, f: Faults, lon: char -> bool, req: Request)
    requires Distinct(w.mem) && FreshId(w.mem, req) && Reaches(w, src, f, lon, req)
    ensures Wanted(w.mem, req) == w.mem <==> !Changes(w, req)
    ensures Wanted(w.mem, req) == Undone(w.mem, req) <==> !Changes(w, req)
  {
    WantedDiffers(w, src, f, lon, req);
    UndoneById(w, src, f, lon, req);
    if !Changes(w, req) {
      UnchangedWanted(w, src, f, lon, req);
      UndoRestores(w, src, f, lon, req);
    }
  }

  /** Exactly a failed write that would have changed something takes file, memory and slot apart. */
  lemma InStepExactly(w: World, src: RefSource, f: Faults, lon: char -> bool, req: Request)
    requires Distinct(w.mem) && FreshId(w.mem, req) && InStep(w)
    ensures InStep(Handle(w, src, f, lon, req).0) <==> !(WriteFails(w, src, f, lon, req) && Changes(w, req))
  {
    if Handle(w, src, f, lon, req).1.Success? {
      SuccessMeans(w, src, f, lon, req);
    } else {
      FailureMeans(w, src, f, lon, req);
      if Reaches(w, src, f, lon, req) {
        ListsDiffer(w, src, f, lon, req);
        UndoneProjects(w, src, f, lon, req);
      }
    }
  }

  lemma UndoneProjects(w: World, src: RefSource, f: Faults, lon: char -> bool, req: Request)
    requires Distinct(w.mem) && FreshId(w.mem, req) && Reaches(w, src, f, lon, req)
    ensures multiset(Project(Undone(w.mem, req))) == multiset(Project(w.mem))
  {
    UndoRestores(w, src, f, lon, req);
    if req.Delete? {
      ProjectMoved(w.mem, IndexOf(w.mem, req.id).value);
    }
  }

  /** The file always holds some list the store once had. */
  lemma FileStaysDistinct(w: World, src: RefSource, f: Faults, lon: char -> bool, req: Request)
    requires Distinct(w.mem) && Distinct(w.disk) && FreshId(w.mem, req)
    ensures Distinct(Handle(w, src, f, lon, req).0.disk)
  {
    if Handle(w, src, f, lon, req).1.Success? {
      SuccessMeans(w, src, f, lon, req);
      WantedDistinct(w, src, f, lon, req);
    } else {
      FailureMeans(w, src, f, lon, req);
      if Reaches(w, src, f, lon, req) {
        WantedDistinct(w, src, f, lon, req);
        UndoRestores(w, src, f, lon, req);
      }
    }
  }

  // ---- What a restart can lose ----

  ghost predicate OnlyEdits(events: seq<Event>) {
    forall e :: e in events ==> e.AddRef? || e.DropRef? || e.ForeignChange?
  }

  /** However the router config is edited first, a restart leaves no reference dangling. */
  ghost predicate RestartSafe(w: World, lon: char -> bool, syncOk: bool) {
    forall events: seq<Event>, w': World ::
      OnlyEdits(events) && Run(w, lon, events + [Restart(syncOk)], w') ==> Grounded(w')
  }

  lemma {:induction false} EditsThenRestart(w: World, lon: char -> bool, syncOk: bool, events: seq<Event>, w': World)
    requires OnlyEdits(events) && Run(w, lon, events + [Restart(syncOk)], w')
    requires Grounded(w) && Tags(w.mem) <= Tags(w.disk)
    ensures Grounded(w')
    decreases |events|
  {
    var all := events + [Restart(syncOk)];
    if events == [] {
      assert all[0] == Restart(syncOk) && all[1..] == [];
    } else {
      assert all[0] == events[0] && all[1..] == events[1..] + [Restart(syncOk)];
      assert events[0] in events;
      EditKeeps(w, lon, events[0]);
      EditsThenRestart(Happen(w, lon, events[0]), lon, syncOk, events[1..], w');
    }
  }

  /** A rule names the tag, every other outbound of that name goes, the restart forgets it. */
  lemma RestartLoses(w: World, lon: char -> bool, syncOk: bool, t: string)
    requires Grounded(w) && t in Tags(w.mem) && t !in Tags(w.disk)
    ensures !RestartSafe(w, lon, syncOk)
  {
    var edits := [AddRef(t, InRule), ForeignChange(w.foreign - {t}, w.listed - {t})];
    var w1 := Happen(w, lon, edits[0]);
    var w2 := Happen(w1, lon, edits[1]);
    var w3 := Happen(w2, lon, Restart(syncOk));
    var all := edits + [Restart(syncOk)];
    assert all[1..] == [edits[1], Restart(syncOk)] && all[1..][1..] == [Restart(syncOk)] && all[1..][1..][1..] == [];
    assert Run(w3, lon, [], w3);
    assert Run(w2, lon, all[1..][1..], w3);
    assert Allowed(w1, edits[1]);
    assert Run(w1, lon, all[1..], w3);
    assert Run(w, lon, all, w3);
    assert t in w3.refs.All() && t !in Tags(w3.mem) + w3.foreign;
    assert OnlyEdits(edits) && Run(w, lon, edits + [Restart(syncOk)], w3) && !Grounded(w3);
  }

  /** A restart is safe exactly when the file names every tag that memory names. */
  lemma RestartExactly(w: World, lon: char -> bool, syncOk: bool)
    requires Grounded(w)
    ensures RestartSafe(w, lon, syncOk) <==> Tags(w.mem) <= Tags(w.disk)
  {
    if Tags(w.mem) <= Tags(w.disk) {
      forall events: seq<Event>, w': World | OnlyEdits(events) && Run(w, lon, events + [Restart(syncOk)], w')
        ensures Grounded(w')
      {
        EditsThenRestart(w, lon, syncOk, events, w');
      }
    } else {
      var t :| t in Tags(w.mem) && t !in Tags(w.disk);
      RestartLoses(w, lon, syncOk, t);
    }
  }

  /** The failed write would have told the file of a tag that memory holds. */
  ghost predicate LosesTag(w: World, src: RefSource, f: Faults, lon: char -> bool, req: Request) {
    && WriteFails(w, src, f, lon, req) && Changes(w, req)
    && if f.saveOk then !req.Import? else !req.Delete?
  }

  /** Which way the request moves the set of tags. */
  lemma WantedTags(w: World, src: RefSource, f: Faults, lon: char -> bool, req: Request)
    requires Distinct(w.mem) && FreshId(w.mem, req) && Reaches(w, src, f, lon, req)
    ensures Tags(Wanted(w.mem, req)) <= Tags(w.mem) <==> req.Delete? || !Changes(w, req)
    ensures Tags(w.mem) <= Tags(Wanted(w.mem, req)) <==> req.Import? || !Changes(w, req)
  {
    var now := Wanted(w.mem, req);
    match req {
      case Import(tag, config, id) =>
        assert now[|w.mem|].tag in Tags(now);
        assert forall r :: r in w.mem ==> r in now;
      case Delete(id) =>
        var i := IndexOf(w.mem, id).value;
        assert w.mem[i].tag in Tags(w.mem);
        forall k | 0 <= k < |now| ensures now[k].tag != w.mem[i].tag {
          DistinctAt(w.mem, if k < i then k else k + 1, i);
        }
      case Rename(id, tag) =>
        var i := IndexOf(w.mem, id).value;
        IndexUnique(w.mem, id, i);
        if !Changes(w, req) {
          UnchangedWanted(w, src, f, lon, req);
        } else {
          assert now[i].tag in Tags(now) && w.mem[i].tag in Tags(w.mem);
          forall k | 0 <= k < |now| ensures now[k].tag != w.mem[i].tag {
            if k != i {
              DistinctAt(w.mem, k, i);
            }
          }
        }
    }
  }

  /** From agreement exactly such a write leaves memory with a tag the file does not name. */
  lemma LosesTagExactly(w: World, src: RefSource, f: Faults, lon: char -> bool, req: Request)
    requires Distinct(w.mem) && FreshId(w.mem, req) && w.disk == w.mem
    ensures var w' := Handle(w, src, f, lon, req).0;
            Tags(w'.mem) <= Tags(w'.disk) <==> !LosesTag(w, src, f, lon, req)
  {
    if Handle(w, src, f, lon, req).1.Success? {
      SuccessMeans(w, src, f, lon, req);
    } else {
      FailureMeans(w, src, f, lon, req);
      if Reaches(w, src, f, lon, req) {
        WantedTags(w, src, f, lon, req);
        UndoneTags(w, src, f, lon, req);
      }
    }
  }

  /** The request brought a list to the file and memory kept it: the change, or its undo. */
  ghost predicate Writes(w: World, src: RefSource, f: Faults, lon: char -> bool, req: Request) {
    Reaches(w, src, f, lon, req) && f.saveOk && (f.syncOk || f.undoOk)
  }

  /** What the outcomes of the writes say about the file naming all tags of memory. */
  ghost predicate CoveredAfter(w: World, lon: char -> bool, e: Event, covered: bool) {
    match e
    case Requested(req, f) =>
      || Writes(w, RulesAndLocations, f, lon, req)
      || (covered && !LosesTag(w, RulesAndLocations, f, lon, req))
    case Restart(_) => true
    case _ => covered
  }

  lemma CoverKept(w: World, lon: char -> bool, e: Event, covered: bool)
    requires Distinct(w.mem) && Allowed(w, e)
    requires covered ==> Tags(w.mem) <= Tags(w.disk)
    requires CoveredAfter(w, lon, e, covered)
    ensures Tags(Happen(w, lon, e).mem) <= Tags(Happen(w, lon, e).disk)
  {
    if e.Requested? {
      var src := RulesAndLocations;
      if Handle(w, src, e.f, lon, e.req).1.Success? {
        SuccessMeans(w, src, e.f, lon, e.req);
      } else {
        FailureMeans(w, src, e.f, lon, e.req);
        if Reaches(w, src, e.f, lon, e.req) {
          WantedTags(w, src, e.f, lon, e.req);
          UndoneTags(w, src, e.f, lon, e.req);
        }
      }
    }
  }

  /** Since the last list that reached the file, no write that loses a tag fails before a restart. */
  ghost predicate SafeRestarts(w: World, lon: char -> bool, events: seq<Event>, covered: bool)
    decreases |events|
  {
    if events == [] then true
    else
      && (events[0].Restart? ==> covered)
      && SafeRestarts(Happen(w, lon, events[0]), lon, events[1..], CoveredAfter(w, lon, events[0], covered))
  }

  /** In guarded runs with such restarts no reference dangles and no tag doubles, whatever else fails. */
  lemma {:induction false} RunsStayGrounded(w: World, lon: char -> bool, events: seq<Event>, w': World, covered: bool)
    requires Run(w, lon, events, w') && SafeRestarts(w, lon, events, covered) && Guarded(w, lon, events)
    requires covered ==> Tags(w.mem) <= Tags(w.disk)
    requires Distinct(w.mem) && Distinct(w.disk) && Grounded(w)
    ensures Distinct(w'.mem) && Distinct(w'.disk) && Grounded(w')
    decreases |events|
  {
    if events == [] {
    } else {
      var e := events[0];
      if e.Requested? {
        AllOrNothing(w, RulesAndLocations, e.f, lon, e.req);
        GroundedExactly(w, RulesAndLocations, e.f, lon, e.req);
        FileStaysDistinct(w, RulesAndLocations, e.f, lon, e.req);
      }
      var after := CoveredAfter(w, lon, e, covered);
      if after {
        CoverKept(w, lon, e, covered);
      }
      RunsStayGrounded(Happen(w, lon, e), lon, events[1..], w', after);
    }
  }

  // ---- Memory, file and slot in step ----

  /** A success or an accepted boot projection brings all three together; a failed write takes them apart. */
  ghost predicate AgreesAfter(w: World, lon: char -> bool, e: Event, agrees: bool) {
    match e
    case Requested(req, f) =>
      || Handle(w, RulesAndLocations, f, lon, req).1.Success?
      || (agrees && !(WriteFails(w, RulesAndLocations, f, lon, req) && Changes(w, req)))
    case Restart(syncOk) => syncOk || agrees
    case _ => agrees
  }

  /** No write has failed since the last success or accepted boot projection, seen at the end of the run. */
  ghost predicate Agrees(w: World, lon: char -> bool, events: seq<Event>, agrees: bool)
    decreases |events|
  {
    if events == [] then agrees
    else Agrees(Happen(w, lon, events[0]), lon, events[1..], AgreesAfter(w, lon, events[0], agrees))
  }

  lemma AgreementKept(w: World, lon: char -> bool, e: Event, agrees: bool)
    requires Distinct(w.mem) && Allowed(w, e)
    requires agrees ==> InStep(w)
    requires AgreesAfter(w, lon, e, agrees)
    ensures InStep(Happen(w, lon, e))
  {
    if e.Requested? {
      if Handle(w, RulesAndLocations, e.f, lon, e.req).1.Success? {
        SuccessMeans(w, RulesAndLocations, e.f, lon, e.req);
      } else {
        InStepExactly(w, RulesAndLocations, e.f, lon, e.req);
      }
    }
  }

  /** Whatever happened before: after either of them, and until a write fails, all three agree. */
  lemma {:induction false} RunsStayInStep(w: World, lon: char -> bool, events: seq<Event>, w': World, agrees: bool)
    requires Run(w, lon, events, w') && Agrees(w, lon, events, agrees)
    requires agrees ==> InStep(w)
    requires Distinct(w.mem) && Distinct(w.disk)
    ensures Distinct(w'.mem) && InStep(w')
    decreases |events|
  {
    if events == [] {
    } else {
      var e := events[0];
      if e.Requested? {
        AllOrNothing(w, RulesAndLocations, e.f, lon, e.req);
        FileStaysDistinct(w, RulesAndLocations, e.f, lon, e.req);
      }
      var after := AgreesAfter(w, lon, e, agrees);
      if after {
        AgreementKept(w, lon, e, agrees);
      }
      RunsStayInStep(Happen(w, lon, e), lon, events[1..], w', after);
    }
  }

  /**
   * One failed write is enough to lose that: the refused import stays in memory, a rule may
   * then name it, and a restart forgets it.
   */
  lemma FailedWriteThenRestartDangles(lon: char -> bool, endpoint: Endpoint)
    requires lon('a')
    ensures exists events: seq<Event>, w': World ::
              && Run(World([], [], [], Refs({}, {}, {}, {}), {}, {}), lon, events, w')
              && |events| == 3 && events[2].Restart?
              && !Grounded(w')
  {
    var w := World([], [], [], Refs({}, {}, {}, {}), {}, {});
    var f := Faults(true, true, true, true, false, true, true);
    var req := Import("a", Valid(endpoint), "id");
    TrimmedIsFixed("a");
    var rec := Record("id", "a", endpoint);
    var w1 := Happen(w, lon, Requested(req, f));
    assert w1.mem == [rec];
    assert rec in w1.mem;
    var w2 := Happen(w1, lon, AddRef("a", InRule));
    var w3 := Happen(w2, lon, Restart(true));
    assert "a" in w3.refs.All();
    var events := [Requested(req, f), AddRef("a", InRule), Restart(true)];
    assert events[1..] == [events[1], events[2]] && events[1..][1..] == [events[2]] && events[1..][1..][1..] == [];
    assert Run(w3, lon, [], w3);
    assert Run(w2, lon, events[1..][1..], w3);
    assert Run(w1, lon, events[1..], w3);
    assert Run(w, lon, events, w3);
  }
}
