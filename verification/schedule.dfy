/** Successive calls of the check cycle, each with its own clock reading,
    settings snapshot and collaborators, threading the time of the last
    check from one call to the next. The guard is what spaces the cycles
    that actually run. */
module Schedule {
  import opened RuleStore
  import opened Engine
  import Guard

  /** One request to run a cycle: a timer tick or a manual trigger. */
  datatype Call = Call(now: int, store: Store, gateway: Gateway)

  function RunCalls(last: int, calls: seq<Call>): (cs: seq<Cycle>)
    ensures |cs| == |calls|
    decreases |calls|
  {
    if calls == [] then []
    else
      var c := CheckEmails(last, calls[0].now, calls[0].store, calls[0].gateway);
      [c] + RunCalls(c.lastCheckTime, calls[1..])
  }

  /** Any two cycles that get past the guard began at least the minimum
      interval apart, whatever the order of the clock readings, and each
      one at least that long after the initial time of the last check. */
  lemma {:induction false} AdmittedCallsSpaced(last: int, calls: seq<Call>)
    ensures var cs := RunCalls(last, calls);
      forall b :: 0 <= b < |calls| && !cs[b].result.Skipped? ==>
        calls[b].now - last >= Guard.MinimumCheckInterval
    ensures var cs := RunCalls(last, calls);
      forall a, b :: 0 <= a < b < |calls| && !cs[a].result.Skipped? && !cs[b].result.Skipped? ==>
        calls[b].now - calls[a].now >= Guard.MinimumCheckInterval
    decreases |calls|
  {
    if calls != [] {
      var cs := RunCalls(last, calls);
      var c := cs[0];
      var rest := RunCalls(c.lastCheckTime, calls[1..]);
      assert cs == [c] + rest;
      AdmittedCallsSpaced(c.lastCheckTime, calls[1..]);
      assert c.lastCheckTime >= last;
      forall b | 0 < b < |calls| && !cs[b].result.Skipped?
        ensures calls[b].now - c.lastCheckTime >= Guard.MinimumCheckInterval
      {
        assert cs[b] == rest[b - 1] && calls[b] == calls[1..][b - 1];
      }
      forall a, b | 0 <= a < b < |calls| && !cs[a].result.Skipped? && !cs[b].result.Skipped?
        ensures calls[b].now - calls[a].now >= Guard.MinimumCheckInterval
      {
        assert cs[b] == rest[b - 1] && calls[b] == calls[1..][b - 1];
        if a > 0 {
          assert cs[a] == rest[a - 1] && calls[a] == calls[1..][a - 1];
        }
      }
    }
  }

  /** Two requests inside the window: the second is skipped without any
      effect, and the window is still measured from the first. */
  lemma SecondCallInWindowSkipped(last: int, c1: Call, c2: Call)
    requires Guard.Admits(last, c1.now)
    requires c2.now - c1.now < Guard.MinimumCheckInterval
    ensures var cs := RunCalls(last, [c1, c2]);
      cs[1].result.Skipped? && cs[1].trace == [] && cs[1].lastCheckTime == c1.now
  {
    assert [c1, c2][1..] == [c2];
  }

  /** From the start of the server, the time of the last check is the
      initial one, so any clock reading at least the interval past it (every
      real `Date.now()`) gets the first call through, and a second call
      inside the window after it is skipped. */
  lemma FirstCallFromStartRuns(c1: Call, c2: Call)
    requires c1.now >= Guard.InitialLastCheckTime + Guard.MinimumCheckInterval
    requires c2.now - c1.now < Guard.MinimumCheckInterval
    ensures var cs := RunCalls(Guard.InitialLastCheckTime, [c1, c2]);
      !cs[0].result.Skipped? && cs[0].lastCheckTime == c1.now && cs[1].result.Skipped?
  {
    SecondCallInWindowSkipped(Guard.InitialLastCheckTime, c1, c2);
  }
}
