// The geosite catalogue cache: its fields, and its two critical sections.
// Times are nanoseconds on one monotone clock.
module GeositeCache {
  import opened Common
  import opened Text

  const SECOND: int := 1_000_000_000
  const CACHE_TTL: int := 24 * 60 * 60 * SECOND
  const FAIL_COOLDOWN: int := 60 * SECOND
  const ATTEMPT_DEBOUNCE: int := 5 * SECOND
  const NOT_LOADED := "список ещё не загружен"

  /** time.Time: the zero time lies before every clock reading by more than any pause. */
  datatype Instant = Never | At(t: int)

  /** time.Since(x) < pause, read at the instant now. */
  predicate Within(x: Instant, now: int, pause: int) {
    x.At? && now - x.t < pause
  }

  /** The fields guarded by the mutex; a channel is named by a number, names == None is nil. */
  datatype Cache = Cache(names: Option<seq<string>>, fetchedAt: Instant,
                         lastAttempt: Instant, lastErr: string, inflight: Option<nat>)

  const EMPTY := Cache(None, Never, Never, "", None)

  datatype Answer = Listing(names: seq<string>, fetchedAt: Instant, stale: bool) | Failure(text: string)
  datatype Decision = Reply(answer: Answer) | Wait(ch: nat) | StartFetch(ch: nat)
  datatype FetchResult = Fetched(names: seq<string>) | Failed(text: string)

  /** What the download can hand back: a non-empty list, or an error that says something. */
  predicate Possible(r: FetchResult) {
    match r
    case Fetched(names) => names != []
    case Failed(text) => text != ""
  }

  /** The answer formed from the current cache content. */
  function Finish(c: Cache): Answer {
    if c.names.Some? then Listing(c.names.value, c.fetchedAt, c.lastErr != "")
    else Failure(if c.lastErr == "" then NOT_LOADED else c.lastErr)
  }

  predicate Fresh(c: Cache, now: int) {
    c.names.Some? && Within(c.fetchedAt, now, CACHE_TTL)
  }

  /** First critical section; t1, t2, t3 are its successive clock readings, ch a new channel. */
  function Decide(c: Cache, force: bool, t1: int, t2: int, t3: int, ch: nat): (Cache, Decision) {
    if Fresh(c, t1) && !force then
      (c, Reply(Listing(c.names.value, c.fetchedAt, false)))
    else if Within(c.lastAttempt, t2, ATTEMPT_DEBOUNCE) then
      (c, Reply(Finish(c)))
    else if !force && c.lastErr != "" && Within(c.lastAttempt, t3, FAIL_COOLDOWN) then
      (c, Reply(Finish(c)))
    else if c.inflight.Some? then
      (c, if c.names.Some? then Reply(Listing(c.names.value, c.fetchedAt, true)) else Wait(c.inflight.value))
    else
      (c.(inflight := Some(ch)), StartFetch(ch))
  }

  /** The clock reading on which Decide settled. */
  function SettledAt(c: Cache, force: bool, t1: int, t2: int, t3: int): int {
    if Fresh(c, t1) && !force then t1
    else if Within(c.lastAttempt, t2, ATTEMPT_DEBOUNCE) then t2
    else t3
  }

  /** Second critical section: the outcome of this caller's own fetch is recorded. */
  function Record(c: Cache, r: FetchResult, t1: int, t2: int): Cache {
    match r
    case Failed(text) => c.(inflight := None, lastAttempt := At(t1), lastErr := text)
    case Fetched(names) => Cache(Some(names), At(t2), At(t1), "", None)
  }

  /** The handler; each method is one stretch of code that runs with the mutex held. */
  class GeositesHandler {
    var names: Option<seq<string>>
    var fetchedAt: Instant
    var lastAttempt: Instant
    var lastErr: string
    var inflight: Option<nat>

    ghost function Content(): Cache
      reads this
    {
      Cache(names, fetchedAt, lastAttempt, lastErr, inflight)
    }

    constructor ()
      ensures Content() == EMPTY
    {
      names, fetchedAt, lastAttempt, lastErr, inflight := None, Never, Never, "", None;
    }

    method FinishLocked() returns (answer: Answer)
      ensures answer == Finish(Content())
    {
      if names.Some? {
        return Listing(names.value, fetchedAt, lastErr != "");
      }
      var err := lastErr;
      if err == "" {
        err := NOT_LOADED;
      }
      answer := Failure(err);
    }

    method Enter(force: bool, t1: int, t2: int, t3: int, ch: nat) returns (d: Decision)
      requires t1 <= t2 <= t3
      modifies this
      ensures (Content(), d) == Decide(old(Content()), force, t1, t2, t3, ch)
    {
      var upToDate := names.Some? && Within(fetchedAt, t1, CACHE_TTL);
      if upToDate && !force {
        return Reply(Listing(names.value, fetchedAt, false));
      }
      if Within(lastAttempt, t2, ATTEMPT_DEBOUNCE) {
        var a := FinishLocked();
        return Reply(a);
      }
      if !force && lastErr != "" && Within(lastAttempt, t3, FAIL_COOLDOWN) {
        var a := FinishLocked();
        return Reply(a);
      }
      if inflight.Some? {
        if names.Some? {
          return Reply(Listing(names.value, fetchedAt, true));
        }
        return Wait(inflight.value);
      }
      inflight := Some(ch);
      return StartFetch(ch);
    }

    method Leave(r: FetchResult, t1: int, t2: int) returns (answer: Answer)
      requires t1 <= t2
      modifies this
      ensures Content() == Record(old(Content()), r, t1, t2)
      ensures answer == Finish(Content())
    {
      inflight := None;
      lastAttempt := At(t1);
      match r {
        case Failed(text) => lastErr := text;
        case Fetched(list) =>
          lastErr := "";
          names := Some(list);
          fetchedAt := At(t2);
      }
      answer := FinishLocked();
    }
  }

  // ---- Extraction of catalogue names from the tree listing ----

  const PREFIX := "geosite-"
  const SUFFIX := ".srs"

  /** The file a name stands for: the path whose raw URL the client downloads. */
  function FileOf(name: string): string {
    PREFIX + name + SUFFIX
  }

  /** strings.CutPrefix followed by strings.CutSuffix; None drops the entry. */
  function NameOf(path: string): Option<string> {
    if PREFIX <= path then
      var rest := path[|PREFIX|..];
      if |SUFFIX| < |rest| && rest[|rest| - |SUFFIX|..] == SUFFIX then Some(rest[..|rest| - |SUFFIX|]) else None
    else None
  }

  lemma NameOfInvertsFileOf(path: string, name: string)
    ensures NameOf(path) == Some(name) <==> name != "" && path == "geosite-" + name + ".srs"
  {
    if PREFIX <= path {
      var rest := path[|PREFIX|..];
      assert path == PREFIX + rest;
      if |SUFFIX| <= |rest| && rest[|rest| - |SUFFIX|..] == SUFFIX {
        assert rest == rest[..|rest| - |SUFFIX|] + SUFFIX;
      }
    }
    if path == FileOf(name) {
      assert path == PREFIX + (name + SUFFIX);
      assert path[|PREFIX|..] == name + SUFFIX;
      assert (name + SUFFIX)[..|name|] == name;
      assert (name + SUFFIX)[|name|..] == SUFFIX;
    }
  }

  /** Each name occurs exactly as often as its file does. */
  ghost predicate SameCounts(names: seq<string>, tree: seq<string>) {
    forall n :: multiset(names)[n] == if n == "" then 0 else multiset(tree)[FileOf(n)]
  }

  lemma SameCountsStep(names: seq<string>, tree: seq<string>, path: string)
    requires SameCounts(names, tree)
    ensures SameCounts(names + (if NameOf(path).Some? then [NameOf(path).value] else []), tree + [path])
  {
    var more := if NameOf(path).Some? then [NameOf(path).value] else [];
    forall n
      ensures multiset(names + more)[n] == if n == "" then 0 else multiset(tree + [path])[FileOf(n)]
    {
      NameOfInvertsFileOf(path, n);
      assert multiset(names)[n] == if n == "" then 0 else multiset(tree)[FileOf(n)];
    }
  }

  lemma SameCountsNonEmpty(names: seq<string>, tree: seq<string>)
    requires SameCounts(names, tree)
    ensures names != [] <==> exists n :: n != "" && FileOf(n) in tree
  {
    if names != [] {
      assert multiset(names)[names[0]] > 0;
      assert names[0] != "" && FileOf(names[0]) in tree;
    }
    if n :| n != "" && FileOf(n) in tree {
      assert multiset(names)[n] > 0;
    }
  }

  /**
   * The catalogue built from a complete listing: sorted, and each name occurs exactly as often
   * as its file occurs in the listing; a truncated listing or one without a name is an error.
   */
  method CatalogueOf(truncated: bool, tree: seq<string>) returns (r: Option<seq<string>>)
    ensures r.Some? <==> !truncated && exists n :: n != "" && FileOf(n) in tree
    ensures r.Some? ==> r.value != [] && Sorted(r.value) && SameCounts(r.value, tree)
  {
    if truncated {
      return None;
    }
    var names: seq<string> := [];
    for i := 0 to |tree|
      invariant SameCounts(names, tree[..i])
    {
      SameCountsStep(names, tree[..i], tree[i]);
      assert tree[..i + 1] == tree[..i] + [tree[i]];
      var name := NameOf(tree[i]);
      if name.Some? {
        names := names + [name.value];
      } else {
        assert names == names + [];
      }
    }
    assert tree[..|tree|] == tree;
    SameCountsNonEmpty(names, tree);
    if names == [] {
      return None;
    }
    r := Some(Sort(names));
    assert |r.value| == |names|;
  }
}
