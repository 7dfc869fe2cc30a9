// The boot-time wait for a stable WAN gateway, polled at least a second apart.
module WanStability {

  const SECOND: int := 1_000_000_000
  const WAN_STABLE: int := 5 * SECOND

  /** What one turn of the wait sees: a shutdown, a failed or empty reading, or a gateway name. */
  datatype Poll = Shutdown | Outage(now: int) | Gateway(now: int, name: string)

  datatype Verdict = Stopped | Stable(gateway: string) | DeadlineExpired

  /** Every poll comes at least a second after the one before it. */
  ghost predicate Paced(polls: nat -> Poll) {
    forall i: nat :: PacedAt(polls, i)
  }

  predicate PacedAt(polls: nat -> Poll, i: nat) {
    i > 0 && !polls(i - 1).Shutdown? && !polls(i).Shutdown? ==> polls(i).now >= polls(i - 1).now + SECOND
  }

  /** A reading that names a gateway; an empty name is as good as an outage. */
  predicate Names(p: Poll) { p.Gateway? && p.name != "" }

  /** Poll i succeeded with the same gateway as poll k. */
  predicate SameGateway(polls: nat -> Poll, i: nat, k: nat) {
    Names(polls(i)) && Names(polls(k)) && polls(i).name == polls(k).name
  }

  /** Polls j..k all succeeded with one and the same gateway. */
  ghost predicate Unbroken(polls: nat -> Poll, j: nat, k: nat) {
    j <= k && forall i: nat :: j <= i <= k ==> SameGateway(polls, i, k)
  }

  /** The polls j..k are an unbroken run that spans the stability period. */
  ghost predicate StableRun(polls: nat -> Poll, j: nat, k: nat) {
    Unbroken(polls, j, k) && SameGateway(polls, j, k) && polls(k).now - polls(j).now >= WAN_STABLE
  }

  /** An unbroken run ends at poll k and spans the stability period. */
  ghost predicate StableAt(polls: nat -> Poll, k: nat) {
    exists j: nat :: StableRun(polls, j, k)
  }

  ghost predicate Ends(polls: nat -> Poll, deadline: int, k: nat) {
    polls(k).Shutdown? || StableAt(polls, k) || polls(k).now > deadline
  }

  /** Poll i names the same gateway as the poll before it. */
  predicate Continues(polls: nat -> Poll, i: nat) {
    i > 0 && Names(polls(i - 1)) && Names(polls(i)) && polls(i - 1).name == polls(i).name
  }

  /** j begins the unbroken run that ends at k. */
  ghost predicate RunStart(polls: nat -> Poll, j: nat, k: nat) {
    Unbroken(polls, j, k) && !Continues(polls, j)
  }

  lemma InsideRun(polls: nat -> Poll, i: nat, j: nat, k: nat)
    requires Unbroken(polls, i, k) && i < j <= k
    ensures Continues(polls, j)
  {
    assert SameGateway(polls, j - 1, k) && SameGateway(polls, j, k);
  }

  lemma {:induction false} RunInOrder(polls: nat -> Poll, j: nat, i: nat, k: nat)
    requires Paced(polls) && Unbroken(polls, j, k) && j <= i <= k
    ensures polls(j).Gateway? && polls(i).Gateway? && polls(j).now <= polls(i).now
    decreases i
  {
    assert SameGateway(polls, j, k) && SameGateway(polls, i, k);
    if i == j {
    } else {
      RunInOrder(polls, j, i - 1, k);
      assert PacedAt(polls, i);
    }
  }

  /** Only the start of the run matters: no unbroken run ending at k reaches further back. */
  lemma StableFromRunStart(polls: nat -> Poll, j: nat, k: nat)
    requires Paced(polls) && RunStart(polls, j, k)
    ensures SameGateway(polls, j, k)
    ensures StableAt(polls, k) <==> polls(k).now - polls(j).now >= WAN_STABLE
  {
    assert SameGateway(polls, j, k);
    if i: nat :| StableRun(polls, i, k) {
      if i < j {
        InsideRun(polls, i, j, k);
      }
      RunInOrder(polls, j, i, k);
    }
    if polls(k).now - polls(j).now >= WAN_STABLE {
      assert StableRun(polls, j, k);
    }
  }

  /** A new run starts at k, or the one before goes on. */
  lemma RunAt(polls: nat -> Poll, start: nat, k: nat)
    requires Names(polls(k))
    requires Continues(polls, k) ==> RunStart(polls, start, k - 1)
    ensures RunStart(polls, if Continues(polls, k) then start else k, k)
  {
    if Continues(polls, k) {
      forall i: nat | start <= i <= k ensures SameGateway(polls, i, k) {
        assert i < k ==> SameGateway(polls, i, k - 1);
      }
    }
  }

  /** After k polls lastGW names the gateway of the current run, which began at start, at stableSince. */
  ghost predicate Tracks(polls: nat -> Poll, k: nat, lastGW: string, stableSince: int, start: nat) {
    && lastGW == (if k > 0 && Names(polls(k - 1)) then polls(k - 1).name else "")
    && (lastGW != "" ==>
          RunStart(polls, start, k - 1) && SameGateway(polls, start, k - 1) && stableSince == polls(start).now)
  }

  /** A reading that names a gateway continues the run or begins one; the run's age decides. */
  lemma TracksReading(polls: nat -> Poll, k: nat, lastGW: string, stableSince: int, start: nat)
    requires Paced(polls) && Tracks(polls, k, lastGW, stableSince, start) && Names(polls(k))
    ensures var same, p := polls(k).name == lastGW, polls(k);
            var since := if same then stableSince else p.now;
            && Tracks(polls, k + 1, p.name, since, if same then start else k)
            && (StableAt(polls, k) <==> p.now - since >= WAN_STABLE)
  {
    RunAt(polls, start, k);
    StableFromRunStart(polls, if polls(k).name == lastGW then start else k, k);
  }

  /** Anything else ends it. */
  lemma TracksOutage(polls: nat -> Poll, k: nat)
    requires !Names(polls(k))
    ensures Tracks(polls, k + 1, "", 0, k) && !StableAt(polls, k)
  {
  }

  /**
   * The wait ends at the very first poll that is a shutdown, completes a stable run, or lies past
   * the deadline; stability wins over the deadline at that poll. Each turn takes a second off the
   * time left, so the wait terminates.
   */
  method WaitStable(polls: nat -> Poll, deadline: int) returns (k: nat, v: Verdict)
    requires Paced(polls)
    ensures Ends(polls, deadline, k) && forall i: nat :: i < k ==> !Ends(polls, deadline, i)
    ensures v == if polls(k).Shutdown? then Stopped
                 else if StableAt(polls, k) then Stable(polls(k).name) else DeadlineExpired
  {
    var lastGW := "";
    var stableSince := 0;
    ghost var start: nat := 0;
    k := 0;
    while true
      invariant forall i: nat :: i < k ==> !Ends(polls, deadline, i)
      invariant Tracks(polls, k, lastGW, stableSince, start)
      invariant k > 0 ==> !polls(k - 1).Shutdown? && polls(k - 1).now <= deadline
      decreases k == 0, if k == 0 then 0 else deadline - polls(k - 1).now
    {
      var p := polls(k);
      if p.Shutdown? {
        return k, Stopped;
      }
      if Names(p) {
        TracksReading(polls, k, lastGW, stableSince, start);
        if p.name != lastGW {
          lastGW := p.name;
          stableSince := p.now;
          start := k;
        }
        if p.now - stableSince >= WAN_STABLE {
          return k, Stable(p.name);
        }
      } else {
        TracksOutage(polls, k);
        lastGW := "";
        stableSince := 0;
        start := k;
      }
      if p.now > deadline {
        return k, DeadlineExpired;
      }
      assert !Ends(polls, deadline, k) && PacedAt(polls, k);
      k := k + 1;
    }
  }
}
