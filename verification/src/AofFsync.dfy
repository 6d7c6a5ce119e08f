/** When a flush of the append only file waits, and when it calls for an fsync
    (aof.c:79-156): over any run of flushes, jobs are at least a second apart and no
    flush waits longer than two seconds. */
module AofFsync {
  datatype Fsync = Always | EverySec | Never

  datatype Outcome = Nothing | Postponed | Written | Died

  /** A call of flushAppendOnlyFile: the time, the policy, whether there is anything to
      write, whether it is forced, whether a background fsync is pending, whether
      fsyncs are held back for a child, and whether the write is complete. */
  datatype Call = Call(
    now: int, policy: Fsync, pending: bool, force: bool, syncing: bool, quiet: bool, complete: bool)

  /** server.aof_flush_postponed_start and server.lastfsync. */
  datatype Clock = Clock(postponed: int, last: int)

  datatype Answer = Answer(outcome: Outcome, fsync: bool, job: bool)

  function Decide(s: Clock, c: Call): (Clock, Answer) {
    if !c.pending then (s, Answer(Nothing, false, false))
    else if c.policy == EverySec && !c.force && c.syncing && s.postponed == 0 then
      (s.(postponed := c.now), Answer(Postponed, false, false))
    else if c.policy == EverySec && !c.force && c.syncing && c.now - s.postponed < 2 then
      (s, Answer(Postponed, false, false))
    else if !c.complete then (s.(postponed := 0), Answer(Died, false, false))
    else if c.quiet then (s.(postponed := 0), Answer(Written, false, false))
    else if c.policy == Always then (Clock(0, c.now), Answer(Written, true, false))
    else if c.policy == EverySec && c.now > s.last then (Clock(0, c.now), Answer(Written, false, !c.syncing))
    else (s.(postponed := 0), Answer(Written, false, false))
  }

  /** The state before the n-th of the calls. */
  function Before(s: Clock, cs: seq<Call>, n: nat): Clock
    requires n <= |cs|
  {
    if n == 0 then s else Decide(Before(s, cs, n - 1), cs[n - 1]).0
  }

  function Result(s: Clock, cs: seq<Call>, n: nat): Answer
    requires n < |cs|
  {
    Decide(Before(s, cs, n), cs[n]).1
  }

  /** Time does not go back. */
  predicate Forward(cs: seq<Call>) {
    forall i, j :: 0 <= i <= j < |cs| ==> cs[i].now <= cs[j].now
  }

  lemma {:induction false} LastGrows(s: Clock, cs: seq<Call>, i: nat, n: nat)
    requires Forward(cs) && i < n <= |cs| && (Result(s, cs, i).fsync || Result(s, cs, i).job)
    ensures Before(s, cs, n).last >= cs[i].now
    decreases n
  {
    if n > i + 1 {
      LastGrows(s, cs, i, n - 1);
      assert cs[i].now <= cs[n - 1].now;
    }
  }

  /** No job is queued in a second in which there has been one, or an fsync. */
  lemma OneJobASecond(s: Clock, cs: seq<Call>, i: nat, j: nat)
    requires Forward(cs) && i < j < |cs|
    requires (Result(s, cs, i).fsync || Result(s, cs, i).job) && Result(s, cs, j).job
    ensures cs[i].now < cs[j].now
  {
    LastGrows(s, cs, i, j);
  }

  /** Each second brings a job: a complete write under EverySec, when nothing else is
      pending and no child holds fsyncs back, queues one unless an fsync of this second
      or a later one is on record. */
  lemma JobDue(s: Clock, cs: seq<Call>, n: nat)
    requires n < |cs|
    requires var c := cs[n]; c.pending && c.complete && c.policy == EverySec && !c.syncing && !c.quiet
    ensures Result(s, cs, n).job <==> cs[n].now > Before(s, cs, n).last
  {
  }

  lemma {:induction false} StartStays(s: Clock, cs: seq<Call>, i: nat, n: nat)
    requires i < n <= |cs| && Before(s, cs, i).postponed == 0 && cs[i].now != 0
    requires forall m :: i <= m < n ==> Result(s, cs, m).outcome == Postponed
    ensures Before(s, cs, n).postponed == cs[i].now
    decreases n
  {
    assert Result(s, cs, n - 1).outcome == Postponed;
    if n > i + 1 { StartStays(s, cs, i, n - 1); }
  }

  /** Flushes that are postponed one after the other lie within two seconds. */
  lemma WaitsTwoSeconds(s: Clock, cs: seq<Call>, i: nat, j: nat)
    requires i < j < |cs| && Before(s, cs, i).postponed == 0 && cs[i].now != 0
    requires forall m :: i <= m <= j ==> Result(s, cs, m).outcome == Postponed
    ensures cs[j].now - cs[i].now < 2
  {
    StartStays(s, cs, i, j);
    assert Result(s, cs, j).outcome == Postponed;
  }

  /** Whatever is there to write is written, or the process ends, two seconds after the
      first flush that was postponed. */
  lemma WrittenInTime(s: Clock, cs: seq<Call>, i: nat, j: nat)
    requires i < j < |cs| && Before(s, cs, i).postponed == 0 && cs[i].now != 0
    requires cs[j].pending && cs[j].now >= cs[i].now + 2
    requires forall m :: i <= m < j ==> Result(s, cs, m).outcome == Postponed
    ensures Result(s, cs, j).outcome == if cs[j].complete then Written else Died
  {
    StartStays(s, cs, i, j);
  }
}
