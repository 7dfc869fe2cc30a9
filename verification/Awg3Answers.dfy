// What each AWG3 request answers and what it leaves, told by the request, the stored records and
// the outcomes of its calls.
module Awg3Answers {
  import opened Common
  import opened Text
  import opened Awg3Store
  import opened Awg3Endpoints
  import opened Awg3Runs

  /** Letters, numbers, space, dot, underscore and hyphen; not empty. */
  ghost predicate Allowed(tag: string, lon: char -> bool) {
    && tag != ""
    && forall c :: c in tag ==> lon(c) || c == ' ' || c == '.' || c == '_' || c == '-'
  }

  lemma AllowedExactly(tag: string, lon: char -> bool)
    ensures TagOk(tag, lon) <==> Allowed(tag, lon)
  {
    if TagOk(tag, lon) {
      forall c | c in tag ensures lon(c) || c == ' ' || c == '.' || c == '_' || c == '-' {
        var i :| 0 <= i < |tag| && tag[i] == c;
      }
    }
    if Allowed(tag, lon) {
      forall i | 0 <= i < |tag| ensures lon(tag[i]) || tag[i] in " ._-" {
        assert tag[i] in tag;
      }
    }
  }

  /** No stored record has the tag, and the lister did not return it. */
  ghost predicate Free(w: World, f: Faults, tag: string) {
    (forall r :: r in w.mem ==> r.tag != tag) && !(f.listerOk && tag in w.listed)
  }

  lemma FreeExactly(w: World, f: Faults, tag: string)
    ensures Free(w, f, tag) <==> tag !in TakenTags(w, f)
  {
    if Free(w, f, tag) {
      assert tag !in Tags(w.mem);
    } else if forall r :: r in w.mem ==> r.tag != tag {
    } else {
      var r :| r in w.mem && r.tag == tag;
      assert r.tag in Tags(w.mem);
    }
  }

  /** A listed rule, or another place of a slot that can be read, names the tag. */
  ghost predicate Named(w: World, src: RefSource, f: Faults, tag: string) {
    || (src.RulesAndLocations? && ((f.placesOk && tag in w.refs.places) || (f.fakeipOk && tag in w.refs.fakeip)))
    || (!src.NoRules? && f.rulesOk && tag in w.refs.rules)
  }

  /** Nothing found names the tag, but the rules could not be listed. */
  ghost predicate Unsure(w: World, src: RefSource, f: Faults, tag: string) {
    !src.NoRules? && !f.rulesOk && !Named(w, src, f, tag)
  }

  /**
   * An import succeeds exactly when the config is valid, the trimmed tag allowed and free, and both
   * calls succeed. Then memory and file hold the old records and, at the end, the new one with this
   * id, tag and endpoint, and the slot holds its object under the tag.
   */
  lemma ImportExactly(w: World, src: RefSource, f: Faults, lon: char -> bool, tag: string, config: Config, id: string)
    ensures var (w', answer) := Handle(w, src, f, lon, Import(tag, config, id));
            var t := TrimSpace(tag);
            var accepted := config.Valid? && Allowed(t, lon) && Free(w, f, t);
            && (answer.Success? <==> accepted && f.saveOk && f.syncOk)
            && (answer.InternalError? <==> accepted && !f.saveOk)
            && (answer.BadRequest? <==> !accepted || (f.saveOk && !f.syncOk))
            && (!accepted ==> w' == w)
            && (answer.InternalError? ==>
                  w' == w.(mem := w.mem + [Record(id, t, config.endpoint)]))
            && (answer.Success? ==>
                  && w'.mem == w'.disk == w.mem + [Record(id, t, config.endpoint)]
                  && (forall body :: config.endpoint == Object(body) ==> Entry(t, body) in w'.slot)
                  && exists at :: Projects(w'.slot, w'.mem, at))
  {
    var (w', answer) := Handle(w, src, f, lon, Import(tag, config, id));
    AllowedExactly(TrimSpace(tag), lon);
    FreeExactly(w, f, TrimSpace(tag));
    if answer.Success? {
      SuccessMeans(w, src, f, lon, Import(tag, config, id));
      ProjectedLast(w.mem, Record(id, TrimSpace(tag), config.endpoint));
      var at := ProjectExactly(w'.mem);
    }
  }

  lemma ProjectedLast(recs: seq<Record>, r: Record)
    ensures forall body :: r.endpoint == Object(body) ==> Entry(r.tag, body) in Project(recs + [r])
  {
    ProjectConcat(recs, [r]);
  }

  /**
   * A delete answers by whether the record exists, whether its tag is known to be in use, and how
   * its calls end; a success takes out the first record with the id and nothing else.
   */
  lemma DeleteExactly(w: World, src: RefSource, f: Faults, lon: char -> bool, id: string, i: nat)
    requires i < |w.mem| && w.mem[i].id == id && forall k :: 0 <= k < i ==> w.mem[k].id != id
    ensures var (w', answer) := Handle(w, src, f, lon, Delete(id));
            var tag := w.mem[i].tag;
            var passes := !Named(w, src, f, tag) && !Unsure(w, src, f, tag);
            && (answer.Conflict? <==> Named(w, src, f, tag))
            && (answer.InternalError? <==> Unsure(w, src, f, tag) || (passes && !(f.saveOk && f.syncOk)))
            && (answer.Success? <==> passes && f.saveOk && f.syncOk)
            && (!passes ==> w' == w)
            && (passes && !f.saveOk ==> w' == w.(mem := w.mem[..i] + w.mem[i + 1..]))
            && (answer.Success? ==>
                  && w'.mem == w'.disk == w.mem[..i] + w.mem[i + 1..]
                  && exists at :: Projects(w'.slot, w'.mem, at))
  {
    assert IndexOf(w.mem, id) == Some(i);
    var (w', answer) := Handle(w, src, f, lon, Delete(id));
    if answer.Success? {
      SuccessMeans(w, src, f, lon, Delete(id));
      var at := ProjectExactly(w'.mem);
    }
  }

  /**
   * A rename answers by whether the tag is allowed, the one the record has, or free; whether the
   * old tag is known to be in use; and how its calls end. A success changes that one tag.
   */
  lemma RenameExactly(w: World, src: RefSource, f: Faults, lon: char -> bool, id: string, tag: string, i: nat)
    requires Distinct(w.mem) && i < |w.mem| && w.mem[i].id == id
    ensures var (w', answer) := Handle(w, src, f, lon, Rename(id, tag));
            var before, t := w.mem[i].tag, TrimSpace(tag);
            var good := Allowed(t, lon) && (t == before || Free(w, f, t));
            var passes := good && (t == before || (!Named(w, src, f, before) && !Unsure(w, src, f, before)));
            && (answer.Conflict? <==> good && t != before && Named(w, src, f, before))
            && (answer.BadRequest? <==> !good || (passes && !f.saveOk))
            && (answer.InternalError? <==>
                  good && ((t != before && Unsure(w, src, f, before)) || (passes && f.saveOk && !f.syncOk)))
            && (answer.Success? <==> passes && f.saveOk && f.syncOk)
            && (!passes ==> w' == w)
            && (passes && !f.saveOk ==> w' == w.(mem := w.mem[i := Record(id, t, w.mem[i].endpoint)]))
            && (answer.Success? ==>
                  && w'.mem == w'.disk == w.mem[i := Record(id, t, w.mem[i].endpoint)]
                  && exists at :: Projects(w'.slot, w'.mem, at))
  {
    var req, t := Rename(id, tag), TrimSpace(tag);
    IndexUnique(w.mem, id, i);
    AllowedExactly(t, lon);
    FreeExactly(w, f, t);
    if Reaches(w, src, f, lon, req) {
      RenameNotTaken(w, src, f, lon, id, tag, i);
    }
    var (w', answer) := Handle(w, src, f, lon, req);
    if answer.Success? {
      SuccessMeans(w, src, f, lon, req);
      var at := ProjectExactly(w'.mem);
    }
  }

  /** The store has no objection of its own once the guards have passed. */
  lemma RenameNotTaken(w: World, src: RefSource, f: Faults, lon: char -> bool, id: string, tag: string, i: nat)
    requires Distinct(w.mem) && i < |w.mem| && w.mem[i].id == id
    requires Reaches(w, src, f, lon, Rename(id, tag))
    ensures !TakenByOther(w.mem, id, TrimSpace(tag))
  {
    IndexUnique(w.mem, id, i);
    forall k | 0 <= k < |w.mem| && w.mem[k].id != id ensures w.mem[k].tag != TrimSpace(tag) {
      DistinctAt(w.mem, k, i);
      assert w.mem[k].tag in Tags(w.mem);
    }
  }

  /** A request for a record that does not exist changes nothing. */
  lemma NotFoundExactly(w: World, src: RefSource, f: Faults, lon: char -> bool, req: Request)
    ensures Handle(w, src, f, lon, req).1.NotFound? <==> !req.Import? && forall r :: r in w.mem ==> r.id != req.id
    ensures Handle(w, src, f, lon, req).1.NotFound? ==> Handle(w, src, f, lon, req).0 == w
  {
    if !req.Import? {
      var i := IndexOf(w.mem, req.id);
      if i.Some? {
        assert w.mem[i.value] in w.mem;
      } else {
        forall r | r in w.mem ensures r.id != req.id {
          var k :| 0 <= k < |w.mem| && w.mem[k] == r;
        }
      }
    }
  }
}
