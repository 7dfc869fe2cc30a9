// Any number of callers of the geosite cache, interleaved step by step: every run keeps the
// single flight, the pauses between downloads, and the honesty of the answers.
module GeositeProtocol {
  import opened Common
  import opened GeositeCache

  /** Where a caller stands. Deciding and Recording hold the mutex. */
  datatype Pc =
    | Idle
    | Entering(force: bool)
    | Deciding(force: bool)
    | Waiting(force: bool, ch: nat)
    | Fetching(ch: nat)
    | Returning(ch: nat, r: FetchResult)
    | Recording(ch: nat, r: FetchResult)
    | Answered(answer: Answer, asOf: int, seen: nat, forced: bool)

  /** A recorded outcome: lastAttempt was set to attemptAt, and on success fetchedAt to fetchedAt. */
  datatype Outcome = Outcome(r: FetchResult, attemptAt: int, fetchedAt: int)

  /** One download in the history; download number k owns channel number k. */
  datatype Download = Download(forced: bool, start: int, end: Option<int>, outcome: Option<Outcome>, closes: nat)

  datatype System = System(cache: Cache, mu: Option<nat>, pcs: seq<Pc>, log: seq<Download>, clock: int)

  datatype Step =
    | Call(c: nat, force: bool)
    | Lock(c: nat)
    | DecideStep(c: nat, t1: int, t2: int, t3: int)
    | Wake(c: nat)
    | FetchReturns(c: nat, r: FetchResult)
    | Relock(c: nat)
    | RecordStep(c: nat, t1: int, t2: int)
    | Tick(t: int)

  function Init(callers: nat, clock: int): System {
    System(EMPTY, None, seq(callers, _ => Idle), [], clock)
  }

  predicate Enabled(s: System, st: Step) {
    if st.Tick? then s.clock <= st.t
    else
      && st.c < |s.pcs|
      && var pc := s.pcs[st.c];
         match st
         case Call(c, force) => pc.Idle? || pc.Answered?
         case Lock(c) => pc.Entering? && s.mu == None
         case DecideStep(c, t1, t2, t3) => pc.Deciding? && s.mu == Some(c) && s.clock <= t1 <= t2 <= t3
         case Wake(c) => pc.Waiting? && pc.ch < |s.log| && s.log[pc.ch].closes > 0
         case FetchReturns(c, r) => pc.Fetching? && pc.ch < |s.log| && Possible(r)
         case Relock(c) => pc.Returning? && s.mu == None
         case RecordStep(c, t1, t2) =>
           pc.Recording? && s.mu == Some(c) && pc.ch < |s.log| && s.clock <= t1 <= t2
  }

  /** Number of downloads whose outcome has been recorded. */
  function Recorded(s: System): nat {
    if s.log != [] && s.log[|s.log| - 1].outcome == None then |s.log| - 1 else |s.log|
  }

  function AfterDecide(s: System, c: nat, t1: int, t2: int, t3: int): System
    requires c < |s.pcs| && s.pcs[c].Deciding?
  {
    var force := s.pcs[c].force;
    var (cache', d) := Decide(s.cache, force, t1, t2, t3, |s.log|);
    var at := SettledAt(s.cache, force, t1, t2, t3);
    var s' := s.(cache := cache', mu := None, clock := at);
    match d
    case Reply(a) => s'.(pcs := s.pcs[c := Answered(a, at, Recorded(s), force)])
    case Wait(ch) => s'.(pcs := s.pcs[c := Waiting(force, ch)])
    case StartFetch(ch) =>
      s'.(pcs := s.pcs[c := Fetching(ch)], log := s.log + [Download(force, at, None, None, 0)])
  }

  function AfterRecord(s: System, c: nat, t1: int, t2: int): System
    requires c < |s.pcs| && s.pcs[c].Recording? && s.pcs[c].ch < |s.log|
  {
    var Recording(ch, r) := s.pcs[c];
    var cache' := Record(s.cache, r, t1, t2);
    var done := s.log[ch].(outcome := Some(Outcome(r, t1, t2)), closes := s.log[ch].closes + 1);
    var s' := s.(cache := cache', mu := None, clock := t2, log := s.log[ch := done]);
    s'.(pcs := s.pcs[c := Answered(Finish(cache'), t2, Recorded(s'), done.forced)])
  }

  function Apply(s: System, st: Step): System
    requires Enabled(s, st)
  {
    match st
    case Call(c, force) => s.(pcs := s.pcs[c := Entering(force)])
    case Lock(c) => s.(mu := Some(c), pcs := s.pcs[c := Deciding(s.pcs[c].force)])
    case DecideStep(c, t1, t2, t3) => AfterDecide(s, c, t1, t2, t3)
    case Wake(c) => s.(pcs := s.pcs[c := Entering(s.pcs[c].force)])
    case FetchReturns(c, r) =>
      var ch := s.pcs[c].ch;
      s.(pcs := s.pcs[c := Returning(ch, r)], log := s.log[ch := s.log[ch].(end := Some(s.clock))])
    case Relock(c) => s.(mu := Some(c), pcs := s.pcs[c := Recording(s.pcs[c].ch, s.pcs[c].r)])
    case RecordStep(c, t1, t2) => AfterRecord(s, c, t1, t2)
    case Tick(t) => s.(clock := t)
  }

  /** The steps can be taken one after the other, and lead from s to s'. */
  predicate Leads(s: System, steps: seq<Step>, s': System)
    decreases |steps|
  {
    if steps == [] then s == s'
    else Enabled(s, steps[0]) && Leads(Apply(s, steps[0]), steps[1..], s')
  }

  // ---- The invariant ----

  predicate Owns(pc: Pc) { pc.Fetching? || pc.Returning? || pc.Recording? }

  predicate HoldsMutex(pc: Pc) { pc.Deciding? || pc.Recording? }

  ghost predicate MutexOk(s: System) {
    && (s.mu.Some? ==> s.mu.value < |s.pcs| && HoldsMutex(s.pcs[s.mu.value]))
    && forall c :: 0 <= c < |s.pcs| && HoldsMutex(s.pcs[c]) ==> s.mu == Some(c)
  }

  /** inflight names the newest channel and has one owner; all older channels were closed once. */
  ghost predicate FlightOk(s: System) {
    && (s.cache.inflight.Some? ==> s.cache.inflight.value == |s.log| - 1 && s.log != [])
    && (forall c :: 0 <= c < |s.pcs| && Owns(s.pcs[c]) ==> s.cache.inflight == Some(s.pcs[c].ch))
    && (forall c, d :: 0 <= c < |s.pcs| && 0 <= d < |s.pcs| && Owns(s.pcs[c]) && Owns(s.pcs[d]) ==> c == d)
    && (s.cache.inflight.Some? ==> exists c :: 0 <= c < |s.pcs| && Owns(s.pcs[c]))
    && (forall k :: 0 <= k < |s.log| ==> s.log[k].closes == if s.cache.inflight == Some(k) then 0 else 1)
    && (forall c :: 0 <= c < |s.pcs| && s.pcs[c].Waiting? ==> s.pcs[c].ch < |s.log|)
  }

  /** A caller waits on an open channel only while no list exists. */
  ghost predicate WaitersOk(s: System) {
    s.cache.names.Some? ==>
      forall c :: 0 <= c < |s.pcs| && s.pcs[c].Waiting? ==> s.cache.inflight != Some(s.pcs[c].ch)
  }

  predicate Succeeded(d: Download) { d.outcome.Some? && d.outcome.value.r.Fetched? }

  predicate FailedAttempt(d: Download) { d.outcome.Some? && d.outcome.value.r.Failed? }

  /** Index of the latest success among the first n downloads. */
  function LatestSuccess(log: seq<Download>, n: nat): (k: Option<nat>)
    requires n <= |log|
    ensures k.Some? ==> k.value < n && Succeeded(log[k.value])
    ensures forall j :: (if k.Some? then k.value + 1 else 0) <= j < n ==> !Succeeded(log[j])
  {
    if n == 0 then None
    else if Succeeded(log[n - 1]) then Some(n - 1)
    else LatestSuccess(log, n - 1)
  }

  /** The download has begun, returned and been recorded in this order, none later than now. */
  predicate Timed(d: Download, now: int) {
    && d.start <= now
    && (d.end.Some? ==> d.start <= d.end.value <= now)
    && (d.outcome.Some? ==>
          && d.end.Some?
          && d.end.value <= d.outcome.value.attemptAt <= d.outcome.value.fetchedAt <= now
          && Possible(d.outcome.value.r))
  }

  /** The pause the code keeps between an attempt and the start of the next download. */
  predicate Paused(prev: Download, next: Download) {
    prev.outcome.Some? &&
    var o := prev.outcome.value;
    && next.start >= o.attemptAt + ATTEMPT_DEBOUNCE
    && (!next.forced && o.r.Failed? ==> next.start >= o.attemptAt + FAIL_COOLDOWN)
    && (!next.forced && o.r.Fetched? ==> next.start >= o.fetchedAt + CACHE_TTL)
  }

  /** The history is timed, paused between neighbours, and complete up to the open download. */
  ghost predicate LogOk(log: seq<Download>, open: Option<nat>, now: int) {
    && (forall k :: 0 <= k < |log| ==> Timed(log[k], now))
    && (forall k :: 0 <= k < |log| ==> (log[k].outcome == None <==> open == Some(k)))
    && (forall k :: 0 < k < |log| ==> Paused(log[k - 1], log[k]))
  }

  ghost predicate ReturnsOk(s: System) {
    forall c :: 0 <= c < |s.pcs| && (s.pcs[c].Returning? || s.pcs[c].Recording?) ==>
      s.pcs[c].ch < |s.log| && s.log[s.pcs[c].ch].end.Some? && Possible(s.pcs[c].r)
  }

  /** The cache says exactly what the last attempt and the latest success left behind. */
  ghost predicate CacheOk(c: Cache, log: seq<Download>, n: nat)
    requires n <= |log|
  {
    && (n == 0 ==> c.lastAttempt == Never && c.lastErr == "")
    && (n > 0 ==>
          && log[n - 1].outcome.Some?
          && var o := log[n - 1].outcome.value;
             c.lastAttempt == At(o.attemptAt) && c.lastErr == if o.r.Failed? then o.r.text else "")
    && var k := LatestSuccess(log, n);
       match k
       case None => c.names == None && c.fetchedAt == Never
       case Some(k) =>
         c.names == Some(log[k].outcome.value.r.names) && c.fetchedAt == At(log[k].outcome.value.fetchedAt)
  }

  /** What an answer given after the first n outcomes may say. */
  ghost predicate AnswerOk(a: Answer, asOf: int, log: seq<Download>, n: nat)
    requires n <= |log|
  {
    match LatestSuccess(log, n)
    case Some(k) =>
      && a.Listing?
      && a.names == log[k].outcome.value.r.names
      && a.fetchedAt == At(log[k].outcome.value.fetchedAt)
      && (!a.stale ==> asOf - log[k].outcome.value.fetchedAt < CACHE_TTL)
    case None =>
      n > 0 && FailedAttempt(log[n - 1]) && a == Failure(log[n - 1].outcome.value.r.text)
  }

  ghost predicate AnswersOk(s: System) {
    forall c :: 0 <= c < |s.pcs| && s.pcs[c].Answered? ==>
      && s.pcs[c].seen <= |s.log|
      && (forall k :: 0 <= k < s.pcs[c].seen ==> s.log[k].outcome.Some?)
      && AnswerOk(s.pcs[c].answer, s.pcs[c].asOf, s.log, s.pcs[c].seen)
  }

  /** An unforced download begins no sooner than a list's lifetime after the latest success. */
  ghost predicate RipeOk(log: seq<Download>) {
    forall k :: 0 <= k < |log| && !log[k].forced ==> Ripe(log, k)
  }

  ghost predicate Ripe(log: seq<Download>, k: nat)
    requires k < |log|
  {
    match LatestSuccess(log, k)
    case Some(j) => log[k].start >= log[j].outcome.value.fetchedAt + CACHE_TTL
    case None => true
  }

  /** After n recorded outcomes one more download had begun by asOf and was not yet recorded. */
  predicate OpenAt(log: seq<Download>, n: nat, asOf: int) {
    && n < |log| && log[n].start <= asOf
    && (log[n].outcome.Some? ==> asOf <= log[n].outcome.value.attemptAt)
  }

  /** What a stale mark says: the last attempt failed or another download was open; and to an
      unforced caller, that the list had outlived its lifetime. */
  ghost predicate StaleOk(a: Answer, forced: bool, asOf: int, log: seq<Download>, n: nat)
    requires n <= |log|
  {
    a.Listing? && a.stale ==>
      && ((n > 0 && FailedAttempt(log[n - 1])) || OpenAt(log, n, asOf))
      && (!forced ==> a.fetchedAt.At? && asOf - a.fetchedAt.t >= CACHE_TTL)
  }

  ghost predicate StalesOk(s: System) {
    forall c :: 0 <= c < |s.pcs| && s.pcs[c].Answered? ==>
      && s.pcs[c].seen <= |s.log| && s.pcs[c].asOf <= s.clock
      && StaleOk(s.pcs[c].answer, s.pcs[c].forced, s.pcs[c].asOf, s.log, s.pcs[c].seen)
  }

  ghost predicate Inv(s: System) {
    && MutexOk(s) && FlightOk(s) && WaitersOk(s) && ReturnsOk(s) && AnswersOk(s)
    && RipeOk(s.log) && StalesOk(s)
    && LogOk(s.log, s.cache.inflight, s.clock)
    && CacheOk(s.cache, s.log, Recorded(s))
  }

  // ---- Every step keeps the invariant ----

  lemma InitInv(callers: nat, clock: int)
    ensures Inv(Init(callers, clock))
  {
  }

  lemma {:induction false} LatestSuccessLocal(log: seq<Download>, log': seq<Download>, n: nat)
    requires n <= |log| && n <= |log'|
    requires forall k :: 0 <= k < n ==> log[k].outcome == log'[k].outcome
    ensures LatestSuccess(log, n) == LatestSuccess(log', n)
  {
    if n == 0 {
    } else {
      LatestSuccessLocal(log, log', n - 1);
    }
  }

  /** Answers already given are judged against outcomes that never change. */
  lemma AnswersStay(s: System, s': System)
    requires AnswersOk(s)
    requires |s.log| <= |s'.log|
    requires forall k :: 0 <= k < |s.log| && s.log[k].outcome.Some? ==> s'.log[k].outcome == s.log[k].outcome
    requires |s'.pcs| == |s.pcs|
    requires forall c :: 0 <= c < |s.pcs| && s'.pcs[c].Answered? ==>
               s'.pcs[c] == s.pcs[c] ||
               (var n := s'.pcs[c].seen;
                n <= |s'.log| && (forall k :: 0 <= k < n ==> s'.log[k].outcome.Some?)
                && AnswerOk(s'.pcs[c].answer, s'.pcs[c].asOf, s'.log, n))
    ensures AnswersOk(s')
  {
    forall c | 0 <= c < |s'.pcs| && s'.pcs[c].Answered? && s'.pcs[c] == s.pcs[c]
      ensures AnswerOk(s'.pcs[c].answer, s'.pcs[c].asOf, s'.log, s'.pcs[c].seen)
    {
      LatestSuccessLocal(s.log, s'.log, s.pcs[c].seen);
    }
  }

  lemma MutexKept(s: System, st: Step)
    requires MutexOk(s) && Enabled(s, st)
    ensures MutexOk(Apply(s, st))
  {
  }

  /** A step that moves one caller without passing on the download. */
  lemma FlightUnmoved(s: System, s': System, c: nat, pc: Pc)
    requires FlightOk(s) && c < |s.pcs| && s'.pcs == s.pcs[c := pc]
    requires s'.cache.inflight == s.cache.inflight && |s'.log| == |s.log|
    requires forall k :: 0 <= k < |s.log| ==> s'.log[k].closes == s.log[k].closes
    requires Owns(pc) <==> Owns(s.pcs[c])
    requires Owns(pc) ==> pc.ch == s.pcs[c].ch
    requires pc.Waiting? ==> pc.ch < |s.log|
    ensures FlightOk(s')
  {
    if s.cache.inflight.Some? {
      var d :| 0 <= d < |s.pcs| && Owns(s.pcs[d]);
      assert Owns(s'.pcs[d]);
    }
  }

  lemma FlightStarts(s: System, s': System, c: nat, d: Download)
    requires FlightOk(s) && c < |s.pcs| && s.cache.inflight == None
    requires s'.pcs == s.pcs[c := Fetching(|s.log|)] && s'.cache.inflight == Some(|s.log|)
    requires s'.log == s.log + [d] && d.closes == 0
    ensures FlightOk(s')
  {
    assert Owns(s'.pcs[c]);
  }

  lemma FlightEnds(s: System, s': System, c: nat)
    requires FlightOk(s) && c < |s.pcs| && Owns(s.pcs[c])
    requires |s'.pcs| == |s.pcs| && forall d :: 0 <= d < |s.pcs| && d != c ==> s'.pcs[d] == s.pcs[d]
    requires s'.pcs[c].Answered? && s'.cache.inflight == None && |s'.log| == |s.log|
    requires forall k :: 0 <= k < |s.log| ==>
               s'.log[k].closes == s.log[k].closes + if k == s.pcs[c].ch then 1 else 0
    ensures FlightOk(s')
  {
  }

  lemma FlightKept(s: System, st: Step)
    requires FlightOk(s) && Enabled(s, st)
    ensures FlightOk(Apply(s, st))
  {
    var s' := Apply(s, st);
    if st.RecordStep? {
      FlightEnds(s, s', st.c);
    } else if st.DecideStep? && s'.pcs[st.c].Fetching? {
      FlightStarts(s, s', st.c, s'.log[|s.log|]);
    } else if !st.Tick? {
      FlightUnmoved(s, s', st.c, s'.pcs[st.c]);
    }
  }

  lemma WaitersKept(s: System, st: Step)
    requires WaitersOk(s) && FlightOk(s) && Enabled(s, st)
    ensures WaitersOk(Apply(s, st))
  {
  }

  lemma ReturnsKept(s: System, st: Step)
    requires ReturnsOk(s) && FlightOk(s) && Enabled(s, st)
    ensures ReturnsOk(Apply(s, st))
  {
  }

  /** The three guards in front of a fetch add up to the pause after the last attempt. */
  lemma StartIsPaused(c: Cache, log: seq<Download>, force: bool, t1: int, t2: int, t3: int)
    requires CacheOk(c, log, |log|) && log != [] && t1 <= t2 <= t3
    requires Possible(log[|log| - 1].outcome.value.r)
    requires Decide(c, force, t1, t2, t3, |log|).1.StartFetch?
    ensures Paused(log[|log| - 1], Download(force, t3, None, None, 0))
  {
  }

  lemma LogStarts(log: seq<Download>, d: Download, now: int, later: int)
    requires LogOk(log, None, now) && now <= later
    requires d.start == later && d.end == None && d.outcome == None
    requires log != [] ==> Paused(log[|log| - 1], d)
    ensures LogOk(log + [d], Some(|log|), later)
  {
  }

  lemma LogChanges(log: seq<Download>, ch: nat, d: Download, now: int, later: int)
    requires LogOk(log, Some(ch), now) && now <= later && ch == |log| - 1
    requires d.forced == log[ch].forced && d.start == log[ch].start && Timed(d, later)
    ensures LogOk(log[ch := d], if d.outcome == None then Some(ch) else None, later)
  {
  }

  lemma LogDecided(c: Cache, log: seq<Download>, force: bool, now: int, t1: int, t2: int, t3: int)
    requires LogOk(log, c.inflight, now) && now <= t1 <= t2 <= t3
    requires c.inflight == None ==> CacheOk(c, log, |log|)
    requires Decide(c, force, t1, t2, t3, |log|).1.StartFetch?
    ensures LogOk(log + [Download(force, t3, None, None, 0)], Some(|log|), t3)
  {
    if log != [] {
      StartIsPaused(c, log, force, t1, t2, t3);
    }
    LogStarts(log, Download(force, t3, None, None, 0), now, t3);
  }

  /** The three ways out of the first critical section, seen from outside. */
  lemma DecideApplies(s: System, st: Step)
    requires Enabled(s, st) && st.DecideStep?
    ensures var s', force := Apply(s, st), s.pcs[st.c].force;
            var d := Decide(s.cache, force, st.t1, st.t2, st.t3, |s.log|).1;
            var at := SettledAt(s.cache, force, st.t1, st.t2, st.t3);
            && |s'.pcs| == |s.pcs| && (forall c :: 0 <= c < |s.pcs| && c != st.c ==> s'.pcs[c] == s.pcs[c])
            && st.t1 <= at <= st.t3 && s'.clock == at
            && (d.StartFetch? ==>
                  && at == st.t3 && s.cache.inflight == None && s'.cache.inflight == Some(|s.log|)
                  && s'.pcs[st.c].Fetching? && s'.log == s.log + [Download(force, st.t3, None, None, 0)])
            && (!d.StartFetch? ==> s'.log == s.log && s'.cache == s.cache)
            && (d.Wait? ==> s'.pcs[st.c].Waiting?)
            && (d.Reply? ==> s'.pcs[st.c] == Answered(d.answer, at, Recorded(s), force))
  {
  }

  lemma LogKeptByDecide(s: System, st: Step)
    requires LogOk(s.log, s.cache.inflight, s.clock) && Enabled(s, st) && st.DecideStep?
    requires FlightOk(s) && CacheOk(s.cache, s.log, Recorded(s))
    ensures LogOk(Apply(s, st).log, Apply(s, st).cache.inflight, Apply(s, st).clock)
  {
    var force := s.pcs[st.c].force;
    RecordedCount(s);
    DecideApplies(s, st);
    if Decide(s.cache, force, st.t1, st.t2, st.t3, |s.log|).1.StartFetch? {
      LogDecided(s.cache, s.log, force, s.clock, st.t1, st.t2, st.t3);
    }
  }

  lemma LogKeptByOwner(s: System, st: Step)
    requires LogOk(s.log, s.cache.inflight, s.clock) && Enabled(s, st) && (st.RecordStep? || st.FetchReturns?)
    requires FlightOk(s) && ReturnsOk(s)
    ensures LogOk(Apply(s, st).log, Apply(s, st).cache.inflight, Apply(s, st).clock)
  {
    var s' := Apply(s, st);
    var ch := s.pcs[st.c].ch;
    assert s.cache.inflight == Some(ch);
    LogChanges(s.log, ch, s'.log[ch], s.clock, s'.clock);
  }

  lemma LogKept(s: System, st: Step)
    requires LogOk(s.log, s.cache.inflight, s.clock) && Enabled(s, st)
    requires FlightOk(s) && ReturnsOk(s) && CacheOk(s.cache, s.log, Recorded(s))
    ensures LogOk(Apply(s, st).log, Apply(s, st).cache.inflight, Apply(s, st).clock)
  {
    if st.DecideStep? {
      LogKeptByDecide(s, st);
    } else if st.RecordStep? || st.FetchReturns? {
      LogKeptByOwner(s, st);
    }
  }

  lemma CacheUnmoved(c: Cache, c': Cache, log: seq<Download>, log': seq<Download>, n: nat)
    requires n <= |log| && n <= |log'| && CacheOk(c, log, n)
    requires c' == c.(inflight := c'.inflight)
    requires forall k :: 0 <= k < n ==> log[k].outcome == log'[k].outcome
    ensures CacheOk(c', log', n)
  {
    LatestSuccessLocal(log, log', n);
  }

  lemma CacheRecords(c: Cache, log: seq<Download>, n: nat, d: Download, r: FetchResult, t1: int, t2: int)
    requires n == |log| - 1 && CacheOk(c, log, n)
    requires d.outcome == Some(Outcome(r, t1, t2))
    ensures CacheOk(Record(c, r, t1, t2), log[n := d], n + 1)
  {
    LatestSuccessLocal(log, log[n := d], n);
  }

  lemma RecordedCount(s: System)
    requires LogOk(s.log, s.cache.inflight, s.clock)
    requires s.cache.inflight.Some? ==> s.cache.inflight.value == |s.log| - 1
    ensures Recorded(s) == if s.cache.inflight.Some? then |s.log| - 1 else |s.log|
  {
  }

  lemma CacheKeptByRecord(s: System, st: Step)
    requires CacheOk(s.cache, s.log, Recorded(s)) && FlightOk(s) && Enabled(s, st) && st.RecordStep?
    requires LogOk(s.log, s.cache.inflight, s.clock)
    ensures CacheOk(Apply(s, st).cache, Apply(s, st).log, |s.log|)
  {
    var Recording(ch, r) := s.pcs[st.c];
    assert s.cache.inflight == Some(ch);
    RecordedCount(s);
    CacheRecords(s.cache, s.log, ch, Apply(s, st).log[ch], r, st.t1, st.t2);
  }

  /** Until an outcome is recorded, nothing but inflight and the open download moves. */
  lemma OutcomesUnmoved(s: System, st: Step)
    requires FlightOk(s) && Enabled(s, st) && !st.RecordStep?
    requires LogOk(s.log, s.cache.inflight, s.clock)
    ensures var s' := Apply(s, st);
            && s'.cache == s.cache.(inflight := s'.cache.inflight)
            && Recorded(s') == Recorded(s) <= |s.log| <= |s'.log|
            && forall k :: 0 <= k < |s.log| ==> s'.log[k].outcome == s.log[k].outcome
  {
    RecordedCount(s);
    if st.FetchReturns? {
      assert s.cache.inflight == Some(s.pcs[st.c].ch);
    }
  }

  lemma CacheKept(s: System, st: Step)
    requires CacheOk(s.cache, s.log, Recorded(s)) && FlightOk(s) && Enabled(s, st)
    requires LogOk(s.log, s.cache.inflight, s.clock)
    requires LogOk(Apply(s, st).log, Apply(s, st).cache.inflight, Apply(s, st).clock)
    ensures CacheOk(Apply(s, st).cache, Apply(s, st).log, Recorded(Apply(s, st)))
  {
    if st.RecordStep? {
      CacheKeptByRecord(s, st);
      var s' := Apply(s, st);
      assert s'.cache.inflight == None && |s'.log| == |s.log|;
      RecordedCount(s');
    } else {
      OutcomesUnmoved(s, st);
      CacheUnmoved(s.cache, Apply(s, st).cache, s.log, Apply(s, st).log, Recorded(s));
    }
  }

  /** An answer formed from the cache is honest about the outcomes recorded so far. */
  lemma FinishIsHonest(c: Cache, log: seq<Download>, n: nat, asOf: int)
    requires n <= |log| && CacheOk(c, log, n) && n > 0
    requires forall k :: 0 <= k < n ==> log[k].outcome.Some? && Possible(log[k].outcome.value.r)
    requires asOf - log[n - 1].outcome.value.fetchedAt < CACHE_TTL
    ensures AnswerOk(Finish(c), asOf, log, n)
  {
  }

  /** A reply given before any download of one's own. */
  lemma DecideIsHonest(c: Cache, log: seq<Download>, n: nat, force: bool, t1: int, t2: int, t3: int, ch: nat)
    requires n <= |log| && CacheOk(c, log, n) && t1 <= t2 <= t3
    requires forall k :: 0 <= k < n ==> log[k].outcome.Some? && Timed(log[k], t1)
    requires Decide(c, force, t1, t2, t3, ch).1.Reply?
    ensures AnswerOk(Decide(c, force, t1, t2, t3, ch).1.answer, SettledAt(c, force, t1, t2, t3), log, n)
  {
  }

  lemma DecidedAnswersKept(s: System, st: Step)
    requires AnswersOk(s) && LogOk(s.log, s.cache.inflight, s.clock) && CacheOk(s.cache, s.log, Recorded(s))
    requires FlightOk(s) && Enabled(s, st) && st.DecideStep?
    ensures AnswersOk(Apply(s, st))
  {
    var s' := Apply(s, st);
    var n := Recorded(s);
    RecordedCount(s);
    if s'.pcs[st.c].Answered? {
      DecideIsHonest(s.cache, s.log, n, s.pcs[st.c].force, st.t1, st.t2, st.t3, |s.log|);
    }
    AnswersStay(s, s');
  }

  lemma RecordedAnswersKept(s: System, st: Step)
    requires FlightOk(s) && AnswersOk(s) && LogOk(s.log, s.cache.inflight, s.clock)
    requires Enabled(s, st) && st.RecordStep?
    requires LogOk(Apply(s, st).log, None, Apply(s, st).clock)
    requires CacheOk(Apply(s, st).cache, Apply(s, st).log, |s.log|)
    ensures AnswersOk(Apply(s, st))
  {
    var s' := Apply(s, st);
    assert s.cache.inflight == Some(s.pcs[st.c].ch);
    FinishIsHonest(s'.cache, s'.log, |s.log|, st.t2);
    AnswersStay(s, s');
  }

  lemma OtherAnswersKept(s: System, st: Step)
    requires FlightOk(s) && AnswersOk(s) && LogOk(s.log, s.cache.inflight, s.clock)
    requires Enabled(s, st) && !st.DecideStep? && !st.RecordStep?
    ensures AnswersOk(Apply(s, st))
  {
    AnswersStay(s, Apply(s, st));
  }

  lemma AnswersKept(s: System, st: Step)
    requires Inv(s) && Enabled(s, st)
    requires LogOk(Apply(s, st).log, Apply(s, st).cache.inflight, Apply(s, st).clock)
    ensures AnswersOk(Apply(s, st))
  {
    if st.DecideStep? {
      DecidedAnswersKept(s, st);
    } else if st.RecordStep? {
      CacheKeptByRecord(s, st);
      RecordedAnswersKept(s, st);
    } else {
      OtherAnswersKept(s, st);
    }
  }

  /** An unforced fetch starts only when the list of the latest success has outlived its lifetime. */
  lemma StartIsRipe(c: Cache, log: seq<Download>, force: bool, t1: int, t2: int, t3: int)
    requires CacheOk(c, log, |log|) && t1 <= t2 <= t3
    requires Decide(c, force, t1, t2, t3, |log|).1.StartFetch?
    ensures var more := log + [Download(force, t3, None, None, 0)]; !force ==> Ripe(more, |log|)
  {
    LatestSuccessLocal(log, log + [Download(force, t3, None, None, 0)], |log|);
  }

  lemma RipeStays(log: seq<Download>, log': seq<Download>, k: nat)
    requires k < |log| && k < |log'| && log'[k].start == log[k].start && Ripe(log, k)
    requires forall j :: 0 <= j < k ==> log[j].outcome == log'[j].outcome
    ensures Ripe(log', k)
  {
    LatestSuccessLocal(log, log', k);
  }

  lemma RipeUnmoved(log: seq<Download>, log': seq<Download>)
    requires RipeOk(log) && |log'| == |log|
    requires forall k :: 0 <= k < |log| ==> log'[k].start == log[k].start && log'[k].forced == log[k].forced
    requires forall k :: 0 <= k < |log| - 1 ==> log'[k].outcome == log[k].outcome
    ensures RipeOk(log')
  {
    forall k | 0 <= k < |log'| && !log'[k].forced ensures Ripe(log', k) {
      RipeStays(log, log', k);
    }
  }

  lemma RipeGrows(log: seq<Download>, d: Download)
    requires RipeOk(log) && (!d.forced ==> Ripe(log + [d], |log|))
    ensures RipeOk(log + [d])
  {
    forall k | 0 <= k < |log| && !log[k].forced ensures Ripe(log + [d], k) {
      RipeStays(log, log + [d], k);
    }
  }

  lemma RipeKeptByDecide(s: System, st: Step)
    requires RipeOk(s.log) && FlightOk(s) && LogOk(s.log, s.cache.inflight, s.clock)
    requires CacheOk(s.cache, s.log, Recorded(s)) && Enabled(s, st) && st.DecideStep?
    ensures RipeOk(Apply(s, st).log)
  {
    var force := s.pcs[st.c].force;
    RecordedCount(s);
    DecideApplies(s, st);
    if Decide(s.cache, force, st.t1, st.t2, st.t3, |s.log|).1.StartFetch? {
      StartIsRipe(s.cache, s.log, force, st.t1, st.t2, st.t3);
      RipeGrows(s.log, Download(force, st.t3, None, None, 0));
    }
  }

  lemma RipeKept(s: System, st: Step)
    requires RipeOk(s.log) && FlightOk(s) && LogOk(s.log, s.cache.inflight, s.clock)
    requires CacheOk(s.cache, s.log, Recorded(s)) && Enabled(s, st)
    ensures RipeOk(Apply(s, st).log)
  {
    if st.DecideStep? {
      RipeKeptByDecide(s, st);
    } else if st.RecordStep? || st.FetchReturns? {
      assert s.cache.inflight == Some(s.pcs[st.c].ch);
      RipeUnmoved(s.log, Apply(s, st).log);
    }
  }

  /** A mark once given stays justified: outcomes are final, and an open download ends later. */
  lemma StaleStays(a: Answer, forced: bool, asOf: int, log: seq<Download>, log': seq<Download>, n: nat, now: int)
    requires n <= |log| <= |log'| && asOf <= now && StaleOk(a, forced, asOf, log, n)
    requires forall k :: 0 <= k < |log| ==> log'[k].start == log[k].start
    requires forall k :: 0 <= k < |log| && log[k].outcome.Some? ==> log'[k].outcome == log[k].outcome
    requires forall k :: 0 <= k < |log| && log[k].outcome == None && log'[k].outcome.Some? ==>
               now <= log'[k].outcome.value.attemptAt
    ensures StaleOk(a, forced, asOf, log', n)
  {
  }

  /** What each step leaves of the history: starts, recorded outcomes, and the order of time. */
  lemma HistoryStays(s: System, st: Step)
    requires FlightOk(s) && LogOk(s.log, s.cache.inflight, s.clock) && Enabled(s, st)
    ensures var s' := Apply(s, st);
            && |s.log| <= |s'.log| && s.clock <= s'.clock
            && (forall k :: 0 <= k < |s.log| ==> s'.log[k].start == s.log[k].start)
            && (forall k :: 0 <= k < |s.log| && s.log[k].outcome.Some? ==> s'.log[k].outcome == s.log[k].outcome)
            && (forall k :: 0 <= k < |s.log| && s.log[k].outcome == None && s'.log[k].outcome.Some? ==>
                  s.clock <= s'.log[k].outcome.value.attemptAt)
  {
    if st.RecordStep? || st.FetchReturns? {
      assert s.cache.inflight == Some(s.pcs[st.c].ch);
    }
  }

  lemma DecideIsStale(c: Cache, log: seq<Download>, n: nat, force: bool, now: int, t1: int, t2: int, t3: int, ch: nat)
    requires n <= |log| && CacheOk(c, log, n) && LogOk(log, c.inflight, now) && now <= t1 <= t2 <= t3
    requires n == if c.inflight.Some? then |log| - 1 else |log|
    requires c.inflight.Some? ==> c.inflight.value == |log| - 1
    requires Decide(c, force, t1, t2, t3, ch).1.Reply?
    ensures StaleOk(Decide(c, force, t1, t2, t3, ch).1.answer, force, SettledAt(c, force, t1, t2, t3), log, n)
  {
    if c.inflight.Some? {
      assert Timed(log[n], now) && log[n].outcome == None;
    }
  }

  lemma FinishIsStale(c: Cache, log: seq<Download>, n: nat, asOf: int)
    requires 0 < n <= |log| && CacheOk(c, log, n) && Timed(log[n - 1], asOf)
    requires !log[n - 1].forced ==> Ripe(log, n - 1)
    ensures StaleOk(Finish(c), log[n - 1].forced, asOf, log, n)
  {
  }

  /** Whoever does not answer in this step keeps a justified mark. */
  lemma OtherStaleKept(s: System, st: Step, c: nat)
    requires StalesOk(s) && FlightOk(s) && LogOk(s.log, s.cache.inflight, s.clock) && Enabled(s, st)
    requires c < |s.pcs| && s.pcs[c].Answered?
    ensures s.pcs[c].seen <= |Apply(s, st).log| && s.pcs[c].asOf <= Apply(s, st).clock
    ensures StaleOk(s.pcs[c].answer, s.pcs[c].forced, s.pcs[c].asOf, Apply(s, st).log, s.pcs[c].seen)
  {
    HistoryStays(s, st);
    StaleStays(s.pcs[c].answer, s.pcs[c].forced, s.pcs[c].asOf, s.log, Apply(s, st).log, s.pcs[c].seen, s.clock);
  }

  lemma DecidedStale(s: System, st: Step)
    requires FlightOk(s) && LogOk(s.log, s.cache.inflight, s.clock) && CacheOk(s.cache, s.log, Recorded(s))
    requires Enabled(s, st) && st.DecideStep? && Apply(s, st).pcs[st.c].Answered?
    ensures var s', pc := Apply(s, st), Apply(s, st).pcs[st.c];
            pc.seen <= |s'.log| && pc.asOf <= s'.clock && StaleOk(pc.answer, pc.forced, pc.asOf, s'.log, pc.seen)
  {
    RecordedCount(s);
    DecideApplies(s, st);
    DecideIsStale(s.cache, s.log, Recorded(s), s.pcs[st.c].force, s.clock, st.t1, st.t2, st.t3, |s.log|);
  }

  lemma RecordApplies(s: System, st: Step)
    requires FlightOk(s) && LogOk(s.log, s.cache.inflight, s.clock) && Enabled(s, st) && st.RecordStep?
    ensures var s', n := Apply(s, st), |s.log|;
            && n > 0 && |s'.log| == n && s'.clock == st.t2
            && s'.pcs[st.c] == Answered(Finish(s'.cache), st.t2, n, s'.log[n - 1].forced)
  {
    assert s.cache.inflight == Some(s.pcs[st.c].ch);
  }

  lemma RecordedStale(s: System, st: Step)
    requires FlightOk(s) && LogOk(s.log, s.cache.inflight, s.clock) && Enabled(s, st) && st.RecordStep?
    requires LogOk(Apply(s, st).log, Apply(s, st).cache.inflight, Apply(s, st).clock)
    requires CacheOk(Apply(s, st).cache, Apply(s, st).log, |s.log|) && RipeOk(Apply(s, st).log)
    ensures var s', pc := Apply(s, st), Apply(s, st).pcs[st.c];
            && pc.Answered? && pc.seen <= |s'.log| && pc.asOf <= s'.clock
            && StaleOk(pc.answer, pc.forced, pc.asOf, s'.log, pc.seen)
  {
    RecordApplies(s, st);
    FinishIsStale(Apply(s, st).cache, Apply(s, st).log, |s.log|, st.t2);
  }

  /** Only deciding and recording give answers. */
  lemma AnswersGiven(s: System, st: Step, c: nat)
    requires Enabled(s, st) && c < |s.pcs| && c < |Apply(s, st).pcs| && Apply(s, st).pcs[c].Answered?
    ensures ((st.DecideStep? || st.RecordStep?) && c == st.c) || Apply(s, st).pcs[c] == s.pcs[c]
    ensures |Apply(s, st).pcs| == |s.pcs|
  {
  }

  lemma StalesKept(s: System, st: Step)
    requires StalesOk(s) && FlightOk(s) && LogOk(s.log, s.cache.inflight, s.clock)
    requires CacheOk(s.cache, s.log, Recorded(s)) && Enabled(s, st)
    requires LogOk(Apply(s, st).log, Apply(s, st).cache.inflight, Apply(s, st).clock)
    requires RipeOk(Apply(s, st).log)
    ensures StalesOk(Apply(s, st))
  {
    var s' := Apply(s, st);
    assert |s'.pcs| == |s.pcs|;
    forall c | 0 <= c < |s'.pcs| && s'.pcs[c].Answered?
      ensures s'.pcs[c].seen <= |s'.log| && s'.pcs[c].asOf <= s'.clock
      ensures StaleOk(s'.pcs[c].answer, s'.pcs[c].forced, s'.pcs[c].asOf, s'.log, s'.pcs[c].seen)
    {
      AnswersGiven(s, st, c);
      if st.DecideStep? && c == st.c {
        DecidedStale(s, st);
      } else if st.RecordStep? && c == st.c {
        CacheKeptByRecord(s, st);
        RecordedStale(s, st);
      } else {
        OtherStaleKept(s, st, c);
      }
    }
  }

  lemma StepInv(s: System, st: Step)
    requires Inv(s) && Enabled(s, st)
    ensures Inv(Apply(s, st))
  {
    MutexKept(s, st);
    FlightKept(s, st);
    WaitersKept(s, st);
    ReturnsKept(s, st);
    LogKept(s, st);
    CacheKept(s, st);
    AnswersKept(s, st);
    RipeKept(s, st);
    StalesKept(s, st);
  }

  lemma {:induction false} RunInv(s: System, steps: seq<Step>, s': System)
    requires Inv(s) && Leads(s, steps, s')
    ensures Inv(s')
    decreases |steps|
  {
    if steps == [] {
    } else {
      StepInv(s, steps[0]);
      RunInv(Apply(s, steps[0]), steps[1..], s');
    }
  }

  // ---- What every reachable state satisfies ----

  ghost predicate Reachable(s: System) {
    exists callers: nat, t0: int, steps: seq<Step> :: Leads(Init(callers, t0), steps, s)
  }

  lemma ReachableInv(s: System)
    requires Reachable(s)
    ensures Inv(s)
  {
    var callers: nat, t0: int, steps: seq<Step> :| Leads(Init(callers, t0), steps, s);
    InitInv(callers, t0);
    RunInv(Init(callers, t0), steps, s);
  }

  /** One download at a time, run with the mutex free; no channel is closed twice, none is lost. */
  lemma SingleFlight(s: System)
    requires Reachable(s)
    ensures forall c, d :: 0 <= c < |s.pcs| && 0 <= d < |s.pcs| && Owns(s.pcs[c]) && Owns(s.pcs[d]) ==> c == d
    ensures forall c :: 0 <= c < |s.pcs| && s.pcs[c].Fetching? ==> s.mu != Some(c)
    ensures forall c, d :: 0 <= c < d < |s.pcs| ==> !(HoldsMutex(s.pcs[c]) && HoldsMutex(s.pcs[d]))
    ensures forall k :: 0 <= k < |s.log| ==>
              s.log[k].closes == if exists c :: 0 <= c < |s.pcs| && Owns(s.pcs[c]) && s.pcs[c].ch == k then 0 else 1
    ensures forall c :: 0 <= c < |s.pcs| && s.pcs[c].Waiting? ==>
              s.pcs[c].ch < |s.log| && (s.cache.inflight == Some(s.pcs[c].ch) <==> s.log[s.pcs[c].ch].closes == 0)
  {
    ReachableInv(s);
  }

  /** Once a list exists, nobody is left blocked on a download. */
  lemma NobodyBlocksOnceListed(s: System, c: nat)
    requires Reachable(s) && s.cache.names.Some?
    requires c < |s.pcs| && s.pcs[c].Waiting?
    ensures Enabled(s, Wake(c))
  {
    ReachableInv(s);
  }

  predicate Moves(s: System, st: Step) {
    !st.Tick? && !st.Call? && Enabled(s, st)
  }

  lemma HolderMoves(s: System)
    requires MutexOk(s) && FlightOk(s) && s.mu.Some?
    ensures exists st: Step :: Moves(s, st)
  {
    var c := s.mu.value;
    if s.pcs[c].Deciding? {
      assert Moves(s, DecideStep(c, s.clock, s.clock, s.clock));
    } else {
      assert Moves(s, RecordStep(c, s.clock, s.clock));
    }
  }

  lemma CallerMoves(s: System, c: nat)
    requires MutexOk(s) && FlightOk(s) && s.mu.None?
    requires c < |s.pcs| && !s.pcs[c].Idle? && !s.pcs[c].Answered?
    requires s.pcs[c].Waiting? ==> s.log[s.pcs[c].ch].closes > 0
    ensures exists st: Step :: Moves(s, st)
  {
    match s.pcs[c] {
      case Entering(_) => assert Moves(s, Lock(c));
      case Waiting(_, _) => assert Moves(s, Wake(c));
      case Fetching(_) => assert Moves(s, FetchReturns(c, Failed("timeout")));
      case Returning(_, _) => assert Moves(s, Relock(c));
      case _ =>
    }
  }

  /** A call under way never leaves the whole system stuck. */
  lemma NoDeadlock(s: System)
    requires Reachable(s)
    requires exists c :: 0 <= c < |s.pcs| && !s.pcs[c].Idle? && !s.pcs[c].Answered?
    ensures exists st: Step :: Moves(s, st)
  {
    ReachableInv(s);
    if s.mu.Some? {
      HolderMoves(s);
    } else {
      var c :| 0 <= c < |s.pcs| && !s.pcs[c].Idle? && !s.pcs[c].Answered?;
      if s.pcs[c].Waiting? && s.log[s.pcs[c].ch].closes == 0 {
        c :| 0 <= c < |s.pcs| && Owns(s.pcs[c]);
      }
      CallerMoves(s, c);
    }
  }

  /** Every download starts at least the debounce after its predecessor ended; an unforced one
      waits out the failure cooldown, or the lifetime of the list just fetched. */
  lemma PausesKept(s: System, k: nat)
    requires Reachable(s) && 0 < k < |s.log|
    ensures s.log[k - 1].end.Some? && s.log[k - 1].outcome.Some?
    ensures s.log[k].start >= s.log[k - 1].end.value + ATTEMPT_DEBOUNCE
    ensures !s.log[k].forced ==>
              s.log[k].start >= s.log[k - 1].end.value + if Succeeded(s.log[k - 1]) then CACHE_TTL else FAIL_COOLDOWN
  {
    ReachableInv(s);
    assert Timed(s.log[k - 1], s.clock);
  }

  lemma UnforcedApart(s: System, k: nat)
    requires Reachable(s) && 0 < k < |s.log| && !s.log[k].forced
    ensures s.log[k].start >= s.log[k - 1].start + FAIL_COOLDOWN
  {
    PausesKept(s, k);
    ReachableInv(s);
    assert Timed(s.log[k - 1], s.clock);
  }

  lemma {:induction false} UnforcedSpread(s: System, i: nat, j: nat)
    requires Reachable(s) && i <= j < |s.log|
    requires forall k :: i < k <= j ==> !s.log[k].forced
    ensures s.log[j].start >= s.log[i].start + (j - i) * FAIL_COOLDOWN
    decreases j
  {
    if i == j {
    } else {
      UnforcedSpread(s, i, j - 1);
      UnforcedApart(s, j);
    }
  }

  /** Unforced traffic starts at most T/60s + 1 downloads inside any window of length T. */
  lemma WindowBound(s: System, i: nat, j: nat, from: int, T: nat)
    requires Reachable(s) && i <= j < |s.log|
    requires forall k :: i <= k <= j ==> !s.log[k].forced && from <= s.log[k].start <= from + T
    ensures j - i + 1 <= T / FAIL_COOLDOWN + 1
  {
    UnforcedSpread(s, i, j);
    assert (j - i) * FAIL_COOLDOWN <= T;
  }

  /** An answer not marked stale is the list of the latest successful download, under 24 hours old;
      an error is the last attempt's own text, given only while no download has ever succeeded. */
  lemma AnswersHonest(s: System, c: nat)
    requires Reachable(s) && c < |s.pcs| && s.pcs[c].Answered?
    ensures s.pcs[c].seen <= |s.log|
    ensures s.pcs[c].answer.Failure? <==> forall k :: 0 <= k < s.pcs[c].seen ==> !Succeeded(s.log[k])
    ensures s.pcs[c].answer.Failure? ==>
              && s.pcs[c].seen > 0
              && FailedAttempt(s.log[s.pcs[c].seen - 1])
              && s.pcs[c].answer.text == s.log[s.pcs[c].seen - 1].outcome.value.r.text
    ensures s.pcs[c].answer.Listing? ==>
              exists k :: && 0 <= k < s.pcs[c].seen && Succeeded(s.log[k])
                          && (forall j :: k < j < s.pcs[c].seen ==> !Succeeded(s.log[j]))
                          && s.pcs[c].answer.names == s.log[k].outcome.value.r.names
                          && (!s.pcs[c].answer.stale ==> s.pcs[c].asOf - s.log[k].outcome.value.fetchedAt < CACHE_TTL)
  {
    ReachableInv(s);
    var n := s.pcs[c].seen;
    var k := LatestSuccess(s.log, n);
    assert AnswerOk(s.pcs[c].answer, s.pcs[c].asOf, s.log, n);
    if k.Some? {
      assert Succeeded(s.log[k.value]);
    }
  }

  /** A list is marked stale only after a failed attempt or while another download was open; an
      unforced caller gets the mark only on a list that has outlived its lifetime. */
  lemma StaleMark(s: System, c: nat)
    requires Reachable(s) && c < |s.pcs| && s.pcs[c].Answered?
    requires s.pcs[c].answer.Listing? && s.pcs[c].answer.stale
    ensures var n := s.pcs[c].seen;
            && n <= |s.log|
            && ((n > 0 && FailedAttempt(s.log[n - 1])) || OpenAt(s.log, n, s.pcs[c].asOf))
    ensures !s.pcs[c].forced ==>
              s.pcs[c].answer.fetchedAt.At? && s.pcs[c].asOf - s.pcs[c].answer.fetchedAt.t >= CACHE_TTL
  {
    ReachableInv(s);
  }

  lemma ReachableRipe(s: System)
    requires Reachable(s)
    ensures RipeOk(s.log)
  {
    ReachableInv(s);
  }

  /** However many attempts failed in between, an unforced download starts at least 24 hours after
      the latest success. */
  lemma UnforcedWaitsOutLifetime(s: System, k: nat, j: nat)
    requires Reachable(s) && j < k < |s.log| && !s.log[k].forced && Succeeded(s.log[j])
    requires forall i :: j < i < k ==> !Succeeded(s.log[i])
    ensures s.log[k].start >= s.log[j].outcome.value.fetchedAt + CACHE_TTL
  {
    ReachableRipe(s);
    assert Ripe(s.log, k) && LatestSuccess(s.log, k) == Some(j);
  }

  // ---- The decision, told by the history alone ----

  /** Of the first n downloads the latest success lies less than a lifetime before now. */
  predicate UpToDate(log: seq<Download>, n: nat, now: int)
    requires n <= |log|
  {
    LatestSuccess(log, n).Some? && now - log[LatestSuccess(log, n).value].outcome.value.fetchedAt < CACHE_TTL
  }

  /** The last of the first n attempts ended less than the pause before now. */
  predicate TriedWithin(log: seq<Download>, n: nat, now: int, pause: int)
    requires n <= |log|
  {
    n > 0 && log[n - 1].outcome.Some? && now - log[n - 1].outcome.value.attemptAt < pause
  }

  predicate LastFailed(log: seq<Download>, n: nat)
    requires n <= |log|
  {
    n > 0 && FailedAttempt(log[n - 1])
  }

  /** A list that is current is handed out, unless a refresh is demanded. */
  predicate Served(log: seq<Download>, n: nat, force: bool, t1: int)
    requires n <= |log|
  {
    UpToDate(log, n, t1) && !force
  }

  /** Too soon after the last attempt: for anyone, or for the unforced after a failure. */
  predicate TooSoon(log: seq<Download>, n: nat, force: bool, t2: int, t3: int)
    requires n <= |log|
  {
    TriedWithin(log, n, t2, ATTEMPT_DEBOUNCE) ||
    (!force && LastFailed(log, n) && TriedWithin(log, n, t3, FAIL_COOLDOWN))
  }

  /** Every way out of the decision, for a cache that says what the history says. */
  lemma DecideFromHistory(c: Cache, log: seq<Download>, n: nat, force: bool, t1: int, t2: int, t3: int, ch: nat)
    requires n <= |log| && CacheOk(c, log, n)
    requires forall k :: 0 <= k < n ==> log[k].outcome.Some? && Possible(log[k].outcome.value.r)
    ensures var d := Decide(c, force, t1, t2, t3, ch).1;
            var held := !Served(log, n, force, t1) && !TooSoon(log, n, force, t2, t3);
            && (d.StartFetch? <==> held && c.inflight == None)
            && (d.Wait? <==> held && c.inflight.Some? && LatestSuccess(log, n).None?)
            && (d.StartFetch? ==> d.ch == ch)
            && (d.Wait? ==> c.inflight == Some(d.ch))
            && (d.Reply? && d.answer.Listing? ==>
                  (d.answer.stale <==>
                     !Served(log, n, force, t1) && (TooSoon(log, n, force, t2, t3) ==> LastFailed(log, n))))
  {
  }

  lemma ReachableHistory(s: System)
    requires Reachable(s)
    ensures FlightOk(s) && LogOk(s.log, s.cache.inflight, s.clock) && CacheOk(s.cache, s.log, Recorded(s))
    ensures forall k :: 0 <= k < Recorded(s) ==> s.log[k].outcome.Some? && Possible(s.log[k].outcome.value.r)
    ensures if s.cache.inflight.Some? then Recorded(s) == |s.log| - 1 == s.cache.inflight.value
            else Recorded(s) == |s.log|
  {
    ReachableInv(s);
    RecordedCount(s);
    forall k | 0 <= k < Recorded(s) ensures s.log[k].outcome.Some? && Possible(s.log[k].outcome.value.r) {
      assert Timed(s.log[k], s.clock);
    }
  }

  /**
   * Exactly who starts a download, who waits for one, and who is handed a list marked stale: told
   * by the recorded outcomes and whether a download is open.
   */
  lemma DecisionExactly(s: System, c: nat, t1: int, t2: int, t3: int)
    requires Reachable(s) && Enabled(s, DecideStep(c, t1, t2, t3))
    ensures var s', n, force := Apply(s, DecideStep(c, t1, t2, t3)), Recorded(s), s.pcs[c].force;
            var pc, open := s'.pcs[c], n < |s.log|;
            var held := !Served(s.log, n, force, t1) && !TooSoon(s.log, n, force, t2, t3);
            && (pc.Fetching? <==> held && !open)
            && (pc.Waiting? <==> held && open && LatestSuccess(s.log, n).None?)
            && (!pc.Fetching? && !pc.Waiting? ==> pc.Answered? && s'.log == s.log)
            && (pc.Fetching? ==> pc.ch == |s.log| && s'.log == s.log + [Download(force, t3, None, None, 0)])
            && (pc.Waiting? ==> pc.ch == n && pc.force == force && s'.log == s.log)
            && (pc.Answered? && pc.answer.Listing? ==>
                  (pc.answer.stale <==>
                     !Served(s.log, n, force, t1) && (TooSoon(s.log, n, force, t2, t3) ==> LastFailed(s.log, n))))
  {
    ReachableHistory(s);
    DecideApplies(s, DecideStep(c, t1, t2, t3));
    DecideFromHistory(s.cache, s.log, Recorded(s), s.pcs[c].force, t1, t2, t3, |s.log|);
    DecideWaits(s, c, t1, t2, t3);
  }

  lemma DecideWaits(s: System, c: nat, t1: int, t2: int, t3: int)
    requires Enabled(s, DecideStep(c, t1, t2, t3))
    ensures var d := Decide(s.cache, s.pcs[c].force, t1, t2, t3, |s.log|).1;
            && (d.Wait? ==> Apply(s, DecideStep(c, t1, t2, t3)).pcs[c] == Waiting(s.pcs[c].force, d.ch))
            && (d.StartFetch? ==> Apply(s, DecideStep(c, t1, t2, t3)).pcs[c] == Fetching(d.ch))
  {
  }

  /** A refresh that is demanded happens, however fresh the list, once the debounce has passed. */
  lemma ForcedFetchStarts(s: System, c: nat, t1: int, t2: int, t3: int)
    requires Reachable(s) && Enabled(s, DecideStep(c, t1, t2, t3)) && s.pcs[c].force
    requires forall k :: 0 <= k < |s.log| ==> s.log[k].outcome.Some?
    requires s.log != [] ==> t2 - s.log[|s.log| - 1].outcome.value.attemptAt >= ATTEMPT_DEBOUNCE
    ensures Apply(s, DecideStep(c, t1, t2, t3)).pcs[c].Fetching?
  {
    DecisionExactly(s, c, t1, t2, t3);
  }

  /** So does an unforced one, once no success is under a lifetime old and both pauses have passed. */
  lemma UnforcedFetchStarts(s: System, c: nat, t1: int, t2: int, t3: int)
    requires Reachable(s) && Enabled(s, DecideStep(c, t1, t2, t3)) && !s.pcs[c].force
    requires forall k :: 0 <= k < |s.log| ==> s.log[k].outcome.Some?
    requires forall k :: 0 <= k < |s.log| && Succeeded(s.log[k]) ==> t1 - s.log[k].outcome.value.fetchedAt >= CACHE_TTL
    requires s.log != [] ==>
               var last := s.log[|s.log| - 1].outcome.value;
               && t2 - last.attemptAt >= ATTEMPT_DEBOUNCE
               && (last.r.Failed? ==> t3 - last.attemptAt >= FAIL_COOLDOWN)
    ensures Apply(s, DecideStep(c, t1, t2, t3)).pcs[c].Fetching?
  {
    DecisionExactly(s, c, t1, t2, t3);
  }

  lemma OwnerIsCurrent(s: System, c: nat)
    requires Reachable(s) && c < |s.pcs| && s.pcs[c].Recording?
    ensures s.cache.inflight == Some(s.pcs[c].ch) && s.pcs[c].ch == |s.log| - 1 && s.log[s.pcs[c].ch].closes == 0
    ensures Possible(s.pcs[c].r)
  {
    ReachableInv(s);
  }

  lemma RecordFromHistory(c: Cache, log: seq<Download>, n: nat, r: FetchResult, t1: int, t2: int)
    requires n <= |log| && CacheOk(c, log, n) && Possible(r)
    ensures var answer, before := Finish(Record(c, r, t1, t2)), LatestSuccess(log, n);
            && (r.Fetched? ==> answer == Listing(r.names, At(t2), false))
            && (r.Failed? && before.Some? ==>
                  var o := log[before.value].outcome.value;
                  answer == Listing(o.r.names, At(o.fetchedAt), true))
            && (r.Failed? && before.None? ==> answer == Failure(r.text))
  {
  }

  /**
   * What a caller gets after a fetch of its own: the new list, unmarked; after a failure the list
   * of the latest success, marked stale, or, without any, the failure's own text.
   */
  lemma OwnFetchExactly(s: System, c: nat, t1: int, t2: int)
    requires Reachable(s) && Enabled(s, RecordStep(c, t1, t2))
    ensures var s', n, r := Apply(s, RecordStep(c, t1, t2)), |s.log| - 1, s.pcs[c].r;
            var before := LatestSuccess(s.log, n);
            && n >= 0 && s.pcs[c].ch == n
            && s'.log == s.log[n := s.log[n].(outcome := Some(Outcome(r, t1, t2)), closes := 1)]
            && s'.cache.inflight == None && s'.mu == None
            && s'.pcs[c].Answered?
            && (r.Fetched? ==> s'.pcs[c].answer == Listing(r.names, At(t2), false))
            && (r.Failed? && before.Some? ==>
                  var o := s.log[before.value].outcome.value;
                  s'.pcs[c].answer == Listing(o.r.names, At(o.fetchedAt), true))
            && (r.Failed? && before.None? ==> s'.pcs[c].answer == Failure(r.text))
  {
    ReachableHistory(s);
    OwnerIsCurrent(s, c);
    RecordFromHistory(s.cache, s.log, |s.log| - 1, s.pcs[c].r, t1, t2);
  }
}
