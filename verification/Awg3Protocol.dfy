// Any number of AWG3 requests in flight at once, interleaved between their store calls: tags stay
// distinct as long as no request comes to rely on a tag that another unfinished one may still add.
module Awg3Protocol {
  import opened Common
  import opened Text
  import opened Awg3Store
  import E = Awg3Endpoints
  import R = Awg3Runs

  /** What an in-flight request does next. The store calls are atomic, what lies between them is not. */
  datatype Job =
    | ImportAdd(rec: Record)
    | ImportSync(rec: Record)
    | ImportUndo(rec: Record)
    | DeleteRemove(rec: Record)
    | DeleteSync(rec: Record)
    | DeleteUndo(rec: Record)
    | RenameStore(id: string, oldTag: string, newTag: string)
    | RenameSync(id: string, oldTag: string, newTag: string)
    | RenameUndo(id: string, oldTag: string, newTag: string)
    | Finished

  datatype System = System(recs: seq<Record>, jobs: seq<Job>)

  /** A request starts once its guards have let it through. */
  datatype Step =
    | StartImport(rec: Record)
    | StartDelete(id: string)
    | StartRename(id: string, newTag: string)
    | Advance(j: nat, ok: bool)

  function IdOf(job: Job): Option<string> {
    match job
    case Finished => None
    case RenameStore(id, _, _) => Some(id)
    case RenameSync(id, _, _) => Some(id)
    case RenameUndo(id, _, _) => Some(id)
    case _ => Some(job.rec.id)
  }

  predicate AtWork(s: System, id: string) {
    exists j :: 0 <= j < |s.jobs| && IdOf(s.jobs[j]) == Some(id)
  }

  predicate HasTag(recs: seq<Record>, tag: string) {
    exists k :: 0 <= k < |recs| && recs[k].tag == tag
  }

  predicate Enabled(s: System, st: Step) {
    match st
    case StartImport(rec) => !HasTag(s.recs, rec.tag) && IndexOf(s.recs, rec.id).None? && !AtWork(s, rec.id)
    case StartDelete(id) => IndexOf(s.recs, id).Some?
    case StartRename(id, newTag) => IndexOf(s.recs, id).Some? && !HasTag(s.recs, newTag)
    case Advance(j, ok) => j < |s.jobs|
  }

  function Removed(recs: seq<Record>, id: string): seq<Record> {
    if IndexOf(recs, id).Some? then Without(recs, IndexOf(recs, id).value) else recs
  }

  /** The store refuses a rename onto another record's tag, and one of a missing record. */
  predicate Renames(recs: seq<Record>, id: string, tag: string) {
    LastIndexOf(recs, id).Some? && !TakenByOther(recs, id, tag)
  }

  function Renamed(recs: seq<Record>, id: string, tag: string): seq<Record> {
    if Renames(recs, id, tag) then Retagged(recs, LastIndexOf(recs, id).value, tag) else recs
  }

  /** One store call or one projection, with its outcome; a failed write leaves the change in memory. */
  function Next(recs: seq<Record>, job: Job, ok: bool): (seq<Record>, Job) {
    match job
    case ImportAdd(rec) => (recs + [rec], if ok then ImportSync(rec) else Finished)
    case ImportSync(rec) => (recs, if ok then Finished else ImportUndo(rec))
    case ImportUndo(rec) => (Removed(recs, rec.id), Finished)
    case DeleteRemove(rec) =>
      (Removed(recs, rec.id), if IndexOf(recs, rec.id).Some? && ok then DeleteSync(rec) else Finished)
    case DeleteSync(rec) => (recs, if ok then Finished else DeleteUndo(rec))
    case DeleteUndo(rec) => (recs + [rec], Finished)
    case RenameStore(id, o, n) =>
      (Renamed(recs, id, n), if Renames(recs, id, n) && ok then RenameSync(id, o, n) else Finished)
    case RenameSync(id, o, n) => (recs, if ok then Finished else RenameUndo(id, o, n))
    case RenameUndo(id, o, n) => (Renamed(recs, id, o), Finished)
    case Finished => (recs, Finished)
  }

  function Apply(s: System, st: Step): System
    requires Enabled(s, st)
  {
    match st
    case StartImport(rec) => s.(jobs := s.jobs + [ImportAdd(rec)])
    case StartDelete(id) => s.(jobs := s.jobs + [DeleteRemove(s.recs[IndexOf(s.recs, id).value])])
    case StartRename(id, newTag) =>
      s.(jobs := s.jobs + [RenameStore(id, s.recs[IndexOf(s.recs, id).value].tag, newTag)])
    case Advance(j, ok) =>
      var (recs', job') := Next(s.recs, s.jobs[j], ok);
      System(recs', s.jobs[j := job'])
  }

  // ---- Claims ----

  /** The tag a request may still add without looking whether it is free. */
  function Blindly(job: Job): Option<string> {
    match job
    case ImportAdd(rec) => Some(rec.tag)
    case DeleteRemove(rec) => Some(rec.tag)
    case DeleteSync(rec) => Some(rec.tag)
    case DeleteUndo(rec) => Some(rec.tag)
    case _ => None
  }

  /** The tag a request may still rename its record to, if it is free then. */
  function IfFree(job: Job): Option<string> {
    match job
    case RenameStore(_, _, n) => Some(n)
    case RenameSync(_, o, _) => Some(o)
    case RenameUndo(_, o, _) => Some(o)
    case _ => None
  }

  predicate SomeBlindly(s: System, tag: string) {
    exists j :: 0 <= j < |s.jobs| && Blindly(s.jobs[j]) == Some(tag)
  }

  predicate SomeIfFree(s: System, tag: string) {
    exists j :: 0 <= j < |s.jobs| && IfFree(s.jobs[j]) == Some(tag)
  }

  /** The request that starts and one that is unfinished may both add one tag, one of them blindly. */
  predicate Overlaps(s: System, st: Step) {
    match st
    case StartImport(rec) => SomeBlindly(s, rec.tag) || SomeIfFree(s, rec.tag)
    case StartDelete(id) => IndexOf(s.recs, id).Some? && SomeIfFree(s, s.recs[IndexOf(s.recs, id).value].tag)
    case StartRename(_, newTag) => SomeBlindly(s, newTag)
    case Advance(_, _) => false
  }

  /** Two unfinished requests would be at work on one record. */
  predicate SameRecord(s: System, st: Step) {
    (st.StartDelete? || st.StartRename?) && AtWork(s, st.id)
  }

  /** A run in which no request overlaps another it finds unfinished, nor works on the same record. */
  predicate OrderlyRun(s: System, steps: seq<Step>, s': System)
    decreases |steps|
  {
    if steps == [] then s == s'
    else
      && Enabled(s, steps[0]) && !Overlaps(s, steps[0]) && !SameRecord(s, steps[0])
      && OrderlyRun(Apply(s, steps[0]), steps[1..], s')
  }

  // ---- The invariant ----

  predicate HasId(recs: seq<Record>, id: string) {
    exists k :: 0 <= k < |recs| && recs[k].id == id
  }

  /** How the record of an unfinished request stands in the store. */
  predicate JobOk(recs: seq<Record>, job: Job) {
    match job
    case ImportAdd(rec) => !HasId(recs, rec.id) && !HasTag(recs, rec.tag)
    case DeleteSync(rec) => !HasId(recs, rec.id) && !HasTag(recs, rec.tag)
    case DeleteUndo(rec) => !HasId(recs, rec.id) && !HasTag(recs, rec.tag)
    case DeleteRemove(rec) => rec in recs
    case RenameStore(id, o, _) => exists k :: 0 <= k < |recs| && recs[k].id == id && recs[k].tag == o
    case RenameSync(id, _, _) => HasId(recs, id)
    case RenameUndo(id, _, _) => HasId(recs, id)
    case _ => true
  }

  /** Two requests work on different records, and a tag one may add blindly the other does not add. */
  predicate Apart(a: Job, b: Job) {
    && (IdOf(a) == None || IdOf(a) != IdOf(b))
    && (Blindly(a).Some? ==> Blindly(b) != Blindly(a) && IfFree(b) != Blindly(a))
    && (Blindly(b).Some? ==> IfFree(a) != Blindly(b))
  }

  ghost predicate Sound(s: System) {
    && DistinctIds(s.recs) && DistinctTags(s.recs)
    && (forall j :: 0 <= j < |s.jobs| ==> JobOk(s.recs, s.jobs[j]))
    && forall i, j :: 0 <= i < |s.jobs| && 0 <= j < |s.jobs| && i != j ==> Apart(s.jobs[i], s.jobs[j])
  }

  lemma NewApart(s: System, st: Step, j: nat)
    requires Sound(s) && Enabled(s, st) && !Overlaps(s, st) && !SameRecord(s, st) && !st.Advance? && j < |s.jobs|
    ensures var job := Apply(s, st).jobs[|s.jobs|]; Apart(s.jobs[j], job) && Apart(job, s.jobs[j])
  {
    assert JobOk(s.recs, s.jobs[j]);
  }

  lemma StartKeeps(s: System, st: Step)
    requires Sound(s) && Enabled(s, st) && !Overlaps(s, st) && !SameRecord(s, st) && !st.Advance?
    ensures Sound(Apply(s, st))
  {
    var s' := Apply(s, st);
    var n := |s.jobs|;
    assert JobOk(s.recs, s'.jobs[n]);
    forall j | 0 <= j < n ensures Apart(s'.jobs[j], s'.jobs[n]) && Apart(s'.jobs[n], s'.jobs[j]) {
      NewApart(s, st, j);
    }
  }

  // What the three changes of the list leave of another request's standing.

  lemma AppendedOk(recs: seq<Record>, rec: Record, b: Job)
    requires JobOk(recs, b) && IdOf(b) != Some(rec.id) && Blindly(b) != Some(rec.tag)
    ensures JobOk(recs + [rec], b)
  {
    var more := recs + [rec];
    assert forall k :: 0 <= k < |recs| ==> more[k] == recs[k];
  }

  lemma AppendedDistinct(recs: seq<Record>, rec: Record)
    requires DistinctIds(recs) && DistinctTags(recs) && !HasId(recs, rec.id) && !HasTag(recs, rec.tag)
    ensures DistinctIds(recs + [rec]) && DistinctTags(recs + [rec])
  {
  }

  lemma RemovedIsLess(recs: seq<Record>, id: string)
    ensures forall r :: r in Removed(recs, id) ==> r in recs
    ensures forall r :: r in recs && r.id != id ==> r in Removed(recs, id)
  {
    var i := IndexOf(recs, id);
    if i.Some? {
      forall r | r in recs && r.id != id ensures r in Without(recs, i.value) {
        var k :| 0 <= k < |recs| && recs[k] == r;
        assert Without(recs, i.value)[if k < i.value then k else k - 1] == r;
      }
    }
  }

  lemma HasById(recs: seq<Record>, id: string, tag: string)
    ensures HasId(recs, id) <==> exists r :: r in recs && r.id == id
    ensures HasTag(recs, tag) <==> exists r :: r in recs && r.tag == tag
  {
    if HasId(recs, id) {
      var k :| 0 <= k < |recs| && recs[k].id == id;
      assert recs[k] in recs;
    }
    if HasTag(recs, tag) {
      var k :| 0 <= k < |recs| && recs[k].tag == tag;
      assert recs[k] in recs;
    }
  }

  lemma RemovedOk(recs: seq<Record>, id: string, b: Job)
    requires JobOk(recs, b) && IdOf(b) != Some(id)
    ensures JobOk(Removed(recs, id), b)
  {
    var left := Removed(recs, id);
    RemovedIsLess(recs, id);
    match b {
      case RenameStore(other, o, _) =>
        var k :| 0 <= k < |recs| && recs[k].id == other && recs[k].tag == o;
        assert recs[k] in left;
      case Finished =>
      case ImportSync(_) =>
      case ImportUndo(_) =>
      case _ =>
        var tag := Blindly(b).GetOr("");
        HasById(recs, IdOf(b).value, tag);
        HasById(left, IdOf(b).value, tag);
    }
  }

  lemma RemovedDistinct(recs: seq<Record>, id: string)
    requires DistinctIds(recs) && DistinctTags(recs)
    ensures DistinctIds(Removed(recs, id)) && DistinctTags(Removed(recs, id))
    ensures !HasId(Removed(recs, id), id)
    ensures forall rec :: rec in recs && rec.id == id ==> !HasTag(Removed(recs, id), rec.tag)
  {
    var i := IndexOf(recs, id);
    if i.Some? {
      var left := Without(recs, i.value);
      assert forall k :: 0 <= k < |left| ==> left[k] == recs[if k < i.value then k else k + 1];
    }
  }

  lemma RenamedOk(recs: seq<Record>, id: string, tag: string, b: Job)
    requires JobOk(recs, b) && IdOf(b) != Some(id) && Blindly(b) != Some(tag)
    ensures JobOk(Renamed(recs, id, tag), b)
  {
    if Renames(recs, id, tag) {
      var i, now := LastIndexOf(recs, id).value, Renamed(recs, id, tag);
      assert forall k :: 0 <= k < |recs| && k != i ==> now[k] == recs[k];
      assert forall k :: 0 <= k < |recs| ==> now[k].id == recs[k].id;
      if b.DeleteRemove? {
        var k :| 0 <= k < |recs| && recs[k] == b.rec;
        assert now[k] == b.rec;
      }
    }
  }

  lemma RenamedDistinct(recs: seq<Record>, id: string, tag: string)
    requires DistinctIds(recs) && DistinctTags(recs)
    ensures DistinctIds(Renamed(recs, id, tag)) && DistinctTags(Renamed(recs, id, tag))
    ensures HasId(recs, id) ==> HasId(Renamed(recs, id, tag), id)
  {
    if Renames(recs, id, tag) {
      var i, now := LastIndexOf(recs, id).value, Renamed(recs, id, tag);
      assert forall k :: 0 <= k < |recs| ==> now[k].id == recs[k].id;
      assert now[i].id == id;
      forall k | 0 <= k < |recs| && k != i ensures now[k].tag != tag {
        assert recs[k].id != id;
      }
    }
  }

  /** The request's own standing, and that of the list. */
  lemma OwnKept(s: System, j: nat, ok: bool)
    requires Sound(s) && j < |s.jobs|
    ensures var (recs, job) := Next(s.recs, s.jobs[j], ok);
            DistinctIds(recs) && DistinctTags(recs) && JobOk(recs, job)
  {
    var job := s.jobs[j];
    assert JobOk(s.recs, job);
    match job {
      case ImportAdd(rec) => AppendedDistinct(s.recs, rec);
      case DeleteUndo(rec) => AppendedDistinct(s.recs, rec);
      case ImportUndo(rec) => RemovedDistinct(s.recs, rec.id);
      case DeleteRemove(rec) => RemovedDistinct(s.recs, rec.id);
      case RenameStore(id, _, n) => RenamedDistinct(s.recs, id, n);
      case RenameUndo(id, o, _) => RenamedDistinct(s.recs, id, o);
      case _ =>
    }
  }

  lemma OtherKept(s: System, j: nat, ok: bool, k: nat)
    requires Sound(s) && j < |s.jobs| && k < |s.jobs| && k != j
    ensures JobOk(Next(s.recs, s.jobs[j], ok).0, s.jobs[k])
  {
    var a, b := s.jobs[j], s.jobs[k];
    assert JobOk(s.recs, b) && Apart(a, b) && Apart(b, a);
    match a {
      case ImportAdd(rec) => AppendedOk(s.recs, rec, b);
      case DeleteUndo(rec) => AppendedOk(s.recs, rec, b);
      case ImportUndo(rec) => RemovedOk(s.recs, rec.id, b);
      case DeleteRemove(rec) => RemovedOk(s.recs, rec.id, b);
      case RenameStore(id, _, n) => RenamedOk(s.recs, id, n, b);
      case RenameUndo(id, o, _) => RenamedOk(s.recs, id, o, b);
      case _ =>
    }
  }

  /** The only new claim of a step is that of a rename on the tag it just left. */
  lemma ApartKept(s: System, j: nat, ok: bool, k: nat)
    requires Sound(s) && j < |s.jobs| && k < |s.jobs| && k != j
    ensures var job := Next(s.recs, s.jobs[j], ok).1; Apart(job, s.jobs[k]) && Apart(s.jobs[k], job)
  {
    var a, b := s.jobs[j], s.jobs[k];
    assert JobOk(s.recs, a) && JobOk(s.recs, b) && Apart(a, b) && Apart(b, a);
  }

  lemma StepKeeps(s: System, st: Step)
    requires Sound(s) && Enabled(s, st) && !Overlaps(s, st) && !SameRecord(s, st)
    ensures Sound(Apply(s, st))
  {
    if st.Advance? {
      var s' := Apply(s, st);
      OwnKept(s, st.j, st.ok);
      forall k | 0 <= k < |s.jobs| && k != st.j
        ensures JobOk(s'.recs, s'.jobs[k]) && Apart(s'.jobs[st.j], s'.jobs[k]) && Apart(s'.jobs[k], s'.jobs[st.j])
      {
        OtherKept(s, st.j, st.ok, k);
        ApartKept(s, st.j, st.ok, k);
      }
    } else {
      StartKeeps(s, st);
    }
  }

  lemma {:induction false} OrderlyKeeps(s: System, steps: seq<Step>, s': System)
    requires Sound(s) && OrderlyRun(s, steps, s')
    ensures Sound(s')
    decreases |steps|
  {
    if steps == [] {
    } else {
      StepKeeps(s, steps[0]);
      OrderlyKeeps(Apply(s, steps[0]), steps[1..], s');
    }
  }

  /** The store as it is when no request is under way. */
  function Start(recs: seq<Record>): System { System(recs, []) }

  /** Interleaved as they may be, orderly requests never double a tag or an id. */
  lemma TagsStayDistinct(recs: seq<Record>, steps: seq<Step>, s: System)
    requires DistinctIds(recs) && DistinctTags(recs) && OrderlyRun(Start(recs), steps, s)
    ensures DistinctIds(s.recs) && DistinctTags(s.recs)
  {
    OrderlyKeeps(Start(recs), steps, s);
  }

  // ---- Overlaps can go wrong ----

  lemma OrderlyCons(s: System, j: nat, ok: bool, rest: seq<Step>, s': System)
    requires j < |s.jobs| && OrderlyRun(Apply(s, Advance(j, ok)), rest, s')
    ensures OrderlyRun(s, [Advance(j, ok)] + rest, s')
  {
    assert ([Advance(j, ok)] + rest)[1..] == rest;
  }

  /** After refused or accepted calls of request j alone, s has become m. */
  ghost predicate Leads(s: System, j: nat, steps: seq<Step>, m: System) {
    && |m.jobs| == |s.jobs| && (forall k :: 0 <= k < |s.jobs| && k != j ==> m.jobs[k] == s.jobs[k])
    && forall rest: seq<Step>, s': System :: OrderlyRun(m, rest, s') ==> OrderlyRun(s, steps + rest, s')
  }

  lemma LeadsOne(s: System, j: nat, ok: bool)
    requires j < |s.jobs|
    ensures Leads(s, j, [Advance(j, ok)], Apply(s, Advance(j, ok)))
  {
    var m := Apply(s, Advance(j, ok));
    forall rest: seq<Step>, s': System | OrderlyRun(m, rest, s') ensures OrderlyRun(s, [Advance(j, ok)] + rest, s') {
      OrderlyCons(s, j, ok, rest, s');
    }
  }

  lemma LeadsOn(s: System, j: nat, a: seq<Step>, m: System, k: nat, b: seq<Step>, m': System,
                rest: seq<Step>, s': System)
    requires Leads(s, j, a, m) && Leads(m, k, b, m') && OrderlyRun(m', rest, s')
    ensures OrderlyRun(s, a + (b + rest), s')
  {
  }

  /** The projection is refused first, when that is what the request waits for. */
  lemma LeadsTwo(s: System, j: nat, m: System)
    requires j < |s.jobs|
    requires m == Apply(Apply(s, Advance(j, false)), Advance(j, true))
    ensures Leads(s, j, [Advance(j, false)] + [Advance(j, true)], m)
  {
    var refused := Apply(s, Advance(j, false));
    LeadsOne(s, j, false);
    LeadsOne(refused, j, true);
    var steps := [Advance(j, false)] + [Advance(j, true)];
    forall rest: seq<Step>, s': System | OrderlyRun(m, rest, s') ensures OrderlyRun(s, steps + rest, s') {
      LeadsOn(s, j, [Advance(j, false)], refused, j, [Advance(j, true)], m, rest, s');
      assert steps + rest == [Advance(j, false)] + ([Advance(j, true)] + rest);
    }
  }

  /** A request that is about to add its record does, or does after its projection was refused. */
  lemma BlindAdds(s: System, j: nat) returns (m: System, steps: seq<Step>)
    requires j < |s.jobs| && Blindly(s.jobs[j]).Some? && !s.jobs[j].DeleteRemove?
    ensures Leads(s, j, steps, m) && m.recs == s.recs + [s.jobs[j].rec]
  {
    if s.jobs[j].DeleteSync? {
      m := Apply(Apply(s, Advance(j, false)), Advance(j, true));
      steps := [Advance(j, false)] + [Advance(j, true)];
      LeadsTwo(s, j, m);
    } else {
      m := Apply(s, Advance(j, true));
      steps := [Advance(j, true)];
      LeadsOne(s, j, true);
    }
  }

  /** A rename puts the tag it waits for, if it is free, or puts back the one it left. */
  lemma RenamePuts(s: System, j: nat) returns (m: System, steps: seq<Step>)
    requires j < |s.jobs| && IfFree(s.jobs[j]).Some? && Renames(s.recs, s.jobs[j].id, IfFree(s.jobs[j]).value)
    ensures Leads(s, j, steps, m) && HasTag(m.recs, IfFree(s.jobs[j]).value)
  {
    if s.jobs[j].RenameSync? {
      m := Apply(Apply(s, Advance(j, false)), Advance(j, true));
      steps := [Advance(j, false)] + [Advance(j, true)];
      LeadsTwo(s, j, m);
    } else {
      m := Apply(s, Advance(j, true));
      steps := [Advance(j, true)];
      LeadsOne(s, j, true);
    }
    assert m.recs[LastIndexOf(s.recs, s.jobs[j].id).value].tag == IfFree(s.jobs[j]).value;
  }

  lemma Doubled(recs: seq<Record>, rec: Record)
    requires HasTag(recs, rec.tag)
    ensures !DistinctTags(recs + [rec])
  {
    var k :| 0 <= k < |recs| && recs[k].tag == rec.tag;
    assert (recs + [rec])[k] == recs[k] && (recs + [rec])[|recs|] == rec;
  }

  /** A renaming request finds its record, and a free tag free. */
  lemma CanRename(recs: seq<Record>, job: Job)
    requires JobOk(recs, job) && IfFree(job).Some? && !HasTag(recs, IfFree(job).value)
    ensures Renames(recs, job.id, IfFree(job).value)
  {
    assert HasId(recs, job.id);
  }

  /** Once the tag is there, the request that adds it blindly doubles it. */
  lemma ThenDoubles(s: System, j: nat, a: seq<Step>, m: System, k: nat) returns (steps: seq<Step>, s': System)
    requires Leads(s, j, a, m) && k < |m.jobs| && Blindly(m.jobs[k]).Some? && !m.jobs[k].DeleteRemove?
    requires HasTag(m.recs, m.jobs[k].rec.tag)
    ensures OrderlyRun(s, steps, s') && !DistinctTags(s'.recs)
  {
    var b;
    s', b := BlindAdds(m, k);
    Doubled(m.recs, m.jobs[k].rec);
    assert OrderlyRun(s', [], s');
    LeadsOn(s, j, a, m, k, b, s', [], s');
    steps := a + (b + []);
  }

  lemma ImportDoubles(s: System, st: Step) returns (steps: seq<Step>, s': System)
    requires Sound(s) && Enabled(s, st) && st.StartImport? && Overlaps(s, st)
    ensures OrderlyRun(Apply(s, st), steps, s') && !DistinctTags(s'.recs)
  {
    var s1, n, tag := Apply(s, st), |s.jobs|, st.rec.tag;
    var m, a;
    var j: nat;
    if SomeBlindly(s, tag) {
      j :| j < n && Blindly(s.jobs[j]) == Some(tag);
      assert JobOk(s.recs, s.jobs[j]) && s1.jobs[j] == s.jobs[j];
      m, a := BlindAdds(s1, j);
      assert m.recs[|s.recs|].tag == tag;
    } else {
      j :| j < n && IfFree(s.jobs[j]) == Some(tag);
      assert JobOk(s.recs, s.jobs[j]) && s1.jobs[j] == s.jobs[j];
      CanRename(s.recs, s.jobs[j]);
      m, a := RenamePuts(s1, j);
    }
    steps, s' := ThenDoubles(s1, j, a, m, n);
  }

  lemma RenameDoubles(s: System, st: Step) returns (steps: seq<Step>, s': System)
    requires Sound(s) && Enabled(s, st) && st.StartRename? && Overlaps(s, st)
    ensures OrderlyRun(Apply(s, st), steps, s') && !DistinctTags(s'.recs)
  {
    var s1, n := Apply(s, st), |s.jobs|;
    var j: nat :| j < n && Blindly(s.jobs[j]) == Some(st.newTag);
    assert JobOk(s.recs, s.jobs[j]) && s1.jobs[j] == s.jobs[j];
    assert JobOk(s.recs, s1.jobs[n]);
    CanRename(s.recs, s1.jobs[n]);
    var m, a := RenamePuts(s1, n);
    steps, s' := ThenDoubles(s1, n, a, m, j);
  }

  /** The delete takes its record out and waits for the projection; the others stand as they did. */
  lemma DeleteTakesOut(s: System, st: Step, j: nat) returns (gone: System)
    requires Sound(s) && Enabled(s, st) && st.StartDelete? && !SameRecord(s, st) && j < |s.jobs|
    ensures var rec := s.recs[IndexOf(s.recs, st.id).value];
            && gone.jobs == s.jobs + [DeleteSync(rec)] && !HasTag(gone.recs, rec.tag) && JobOk(gone.recs, s.jobs[j])
    ensures Leads(Apply(s, st), |s.jobs|, [Advance(|s.jobs|, true)], gone)
  {
    var s1, n := Apply(s, st), |s.jobs|;
    var rec := s.recs[IndexOf(s.recs, st.id).value];
    gone := Apply(s1, Advance(n, true));
    LeadsOne(s1, n, true);
    RemovedDistinct(s.recs, rec.id);
    assert rec in s.recs;
    RemovedOk(s.recs, rec.id, s.jobs[j]);
  }

  lemma DeleteDoubles(s: System, st: Step) returns (steps: seq<Step>, s': System)
    requires Sound(s) && Enabled(s, st) && st.StartDelete? && Overlaps(s, st) && !SameRecord(s, st)
    ensures OrderlyRun(Apply(s, st), steps, s') && !DistinctTags(s'.recs)
  {
    var rec := s.recs[IndexOf(s.recs, st.id).value];
    var j: nat :| j < |s.jobs| && IfFree(s.jobs[j]) == Some(rec.tag);
    var gone := DeleteTakesOut(s, st, j);
    CanRename(gone.recs, s.jobs[j]);
    var m, a := RenamePuts(gone, j);
    var b;
    b, s' := ThenDoubles(gone, j, a, m, |s.jobs|);
    steps := [Advance(|s.jobs|, true)] + b;
  }

  /** Two imports of one tag, both checked before either is added, double it. */
  lemma ConcurrentImportsDouble(tag: string, e: Endpoint)
    ensures var s := Apply(Start([]), StartImport(Record("i", tag, e)));
            var second := StartImport(Record("j", tag, e));
            Enabled(s, second) && exists steps, s' :: OrderlyRun(Apply(s, second), steps, s') && !DistinctTags(s'.recs)
  {
    var s := Apply(Start([]), StartImport(Record("i", tag, e)));
    assert s.jobs[0] == ImportAdd(Record("i", tag, e)) && Blindly(s.jobs[0]) == Some(tag);
    StepKeeps(Start([]), StartImport(Record("i", tag, e)));
    var _, _ := ImportDoubles(s, StartImport(Record("j", tag, e)));
  }

  /** However an orderly run goes on from here, no tag doubles. */
  ghost predicate NeverDoubles(s: System) {
    forall steps: seq<Step>, s': System :: OrderlyRun(s, steps, s') ==> DistinctTags(s'.recs)
  }

  lemma SoundNeverDoubles(s: System)
    requires Sound(s)
    ensures NeverDoubles(s)
  {
    forall steps: seq<Step>, s': System | OrderlyRun(s, steps, s') ensures DistinctTags(s'.recs) {
      OrderlyKeeps(s, steps, s');
    }
  }

  lemma OverlapDoubles(s: System, st: Step)
    requires Sound(s) && Enabled(s, st) && Overlaps(s, st) && !SameRecord(s, st)
    ensures !NeverDoubles(Apply(s, st))
  {
    match st {
      case StartImport(_) => var _, _ := ImportDoubles(s, st);
      case StartDelete(_) => var _, _ := DeleteDoubles(s, st);
      case StartRename(_, _) => var _, _ := RenameDoubles(s, st);
    }
  }

  /**
   * After any orderly run, of the requests on records nobody else is at work on, exactly those
   * that overlap no unfinished one leave all later orderly runs without a doubled tag.
   */
  lemma OverlapExactly(recs: seq<Record>, steps: seq<Step>, s: System, st: Step)
    requires DistinctIds(recs) && DistinctTags(recs) && OrderlyRun(Start(recs), steps, s)
    ensures Enabled(s, st) && !SameRecord(s, st) ==> (NeverDoubles(Apply(s, st)) <==> !Overlaps(s, st))
  {
    OrderlyKeeps(Start(recs), steps, s);
    if !Enabled(s, st) || SameRecord(s, st) {
    } else if Overlaps(s, st) {
      OverlapDoubles(s, st);
    } else {
      StepKeeps(s, st);
      SoundNeverDoubles(Apply(s, st));
    }
  }

  // ---- Undisturbed, the steps are the requests ----

  /** The step with which a request that passed its guards starts. */
  function StepOf(req: E.Request): Step
    requires req.Import? ==> req.config.Valid?
  {
    match req
    case Import(tag, config, id) => StartImport(Record(id, TrimSpace(tag), config.endpoint))
    case Delete(id) => StartDelete(id)
    case Rename(id, tag) => StartRename(id, TrimSpace(tag))
  }

  /** The three calls of one request that nothing interrupts, with their outcomes. */
  function Alone(recs: seq<Record>, job: Job, saveOk: bool, syncOk: bool, undoOk: bool): (seq<Record>, Job) {
    var (recs1, job1) := Next(recs, job, saveOk);
    var (recs2, job2) := Next(recs1, job1, syncOk);
    Next(recs2, job2, undoOk)
  }

  lemma StepEnabled(w: E.World, src: E.RefSource, f: E.Faults, lon: char -> bool, req: E.Request)
    requires R.Distinct(w.mem) && R.FreshId(w.mem, req) && R.Reaches(w, src, f, lon, req) && R.Changes(w, req)
    ensures req.Import? ==> req.config.Valid?
    ensures Enabled(Start(w.mem), StepOf(req))
  {
    assert forall k :: 0 <= k < |w.mem| ==> w.mem[k].tag in Tags(w.mem);
    assert forall k :: 0 <= k < |w.mem| ==> w.mem[k] in w.mem;
  }

  lemma SequentialRename(mem: seq<Record>, i: nat, tag: string, saveOk: bool, syncOk: bool, undoOk: bool)
    requires R.Distinct(mem) && i < |mem| && !TakenByOther(mem, mem[i].id, tag)
    ensures Alone(mem, RenameStore(mem[i].id, mem[i].tag, tag), saveOk, syncOk, undoOk)
            == (if saveOk && !syncOk then mem else Retagged(mem, i, tag), Finished)
  {
    R.IndexUnique(mem, mem[i].id, i);
    R.RenameUndone(mem, i, tag);
  }

  lemma SequentialDelete(mem: seq<Record>, i: nat, saveOk: bool, syncOk: bool, undoOk: bool)
    requires R.Distinct(mem) && i < |mem|
    ensures Alone(mem, DeleteRemove(mem[i]), saveOk, syncOk, undoOk)
            == (if saveOk && !syncOk then Without(mem, i) + [mem[i]] else Without(mem, i), Finished)
  {
    R.IndexUnique(mem, mem[i].id, i);
  }

  lemma SequentialImport(mem: seq<Record>, rec: Record, saveOk: bool, syncOk: bool, undoOk: bool)
    requires R.Distinct(mem) && forall r :: r in mem ==> r.id != rec.id
    ensures Alone(mem, ImportAdd(rec), saveOk, syncOk, undoOk)
            == (if saveOk && !syncOk then mem else mem + [rec], Finished)
  {
    var more := mem + [rec];
    assert IndexOf(more, rec.id) == Some(|mem|) by {
      assert more[|mem|] == rec && forall k :: 0 <= k < |mem| ==> more[k].id != rec.id;
    }
    assert Without(more, |mem|) == mem;
  }

  /** They leave the store as the request leaves it. */
  lemma SequentialRequest(w: E.World, src: E.RefSource, f: E.Faults, lon: char -> bool, req: E.Request)
    requires R.Distinct(w.mem) && R.FreshId(w.mem, req) && R.Reaches(w, src, f, lon, req) && R.Changes(w, req)
    ensures (req.Import? ==> req.config.Valid?) && Enabled(Start(w.mem), StepOf(req))
    ensures Alone(w.mem, Apply(Start(w.mem), StepOf(req)).jobs[0], f.saveOk, f.syncOk, f.undoOk)
            == (E.Handle(w, src, f, lon, req).0.mem, Finished)
  {
    StepEnabled(w, src, f, lon, req);
    R.MemoryIs(w, src, f, lon, req);
    R.UndoRestores(w, src, f, lon, req);
    match req {
      case Import(tag, config, id) =>
        SequentialImport(w.mem, Record(id, TrimSpace(tag), config.endpoint), f.saveOk, f.syncOk, f.undoOk);
      case Delete(id) =>
        SequentialDelete(w.mem, IndexOf(w.mem, id).value, f.saveOk, f.syncOk, f.undoOk);
      case Rename(id, tag) =>
        var i := IndexOf(w.mem, id).value;
        R.IndexUnique(w.mem, id, i);
        R.WantedDistinct(w, src, f, lon, req);
        SequentialRename(w.mem, i, TrimSpace(tag), f.saveOk, f.syncOk, f.undoOk);
    }
  }
}
