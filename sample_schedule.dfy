/**
 * The non-blocking conversion scheduler, as a state machine over the three
 * fields the sensor object keeps for it. Time is the microsecond counter
 * that the caller reads from the clock and passes in as `now`.
 */
module SampleSchedule {
  import opened AddressCodec
  import opened Resolution

  /** `is_waiting_sample`, `_is_sample_available` and `microseconds_since_last_sample_request`. */
  datatype SchedulerState = SchedulerState(
    isWaitingSample: bool,
    isSampleAvailable: bool,
    lastRequestMicros: int)

  /**
   * The lifecycle the two flags encode. A request made while a sample is
   * available leaves `isSampleAvailable` set; the waiting flag decides, so
   * that state is Pending too.
   */
  datatype Phase = Idle | Pending | Ready

  function PhaseOf(s: SchedulerState): Phase {
    if s.isWaitingSample then Pending
    else if s.isSampleAvailable then Ready
    else Idle
  }

  /** The flags before any request: not waiting, no sample. */
  const Initial: SchedulerState := SchedulerState(false, false, 0)

  /** What a poll answers and the state it leaves behind. */
  datatype PollOutcome = PollOutcome(available: bool, next: SchedulerState)

  /** The wait, in microseconds, for a conversion at `resolution` bits. */
  function MicrosToWait(resolution: Byte): nat {
    1000 * MillisToWaitForConversion(resolution)
  }

  /** A non-blocking conversion request at time `now`: from any state to Pending. */
  function Request(s: SchedulerState, now: int): (t: SchedulerState)
    ensures PhaseOf(t) == Pending && t.lastRequestMicros == now
    ensures t.isSampleAvailable == s.isSampleAvailable
  {
    s.(isWaitingSample := true, lastRequestMicros := now)
  }

  /** A blocking conversion request: straight to Ready, the timestamp untouched. */
  function RequestBlocking(s: SchedulerState): (t: SchedulerState)
    ensures PhaseOf(t) == Ready && t.lastRequestMicros == s.lastRequestMicros
  {
    s.(isWaitingSample := false, isSampleAvailable := true)
  }

  /**
   * The timer check: once `now` is at least the conversion wait for the
   * resolution in force at poll time past the request, the sample becomes
   * available; before that nothing changes.
   */
  function CheckTimer(s: SchedulerState, resolution: Byte, now: int): (o: PollOutcome)
    ensures o.available ==> PhaseOf(o.next) == Ready && o.next.lastRequestMicros == s.lastRequestMicros
    ensures !o.available ==> o.next == s
  {
    if now - s.lastRequestMicros >= MicrosToWait(resolution) then
      PollOutcome(true, s.(isWaitingSample := false, isSampleAvailable := true))
    else
      PollOutcome(false, s)
  }

  /** Polling for a sample: the timer decides while waiting, the flag otherwise. */
  function Poll(s: SchedulerState, resolution: Byte, now: int): (o: PollOutcome)
    ensures o.available <==> PhaseOf(o.next) == Ready
    ensures !o.available ==> o.next == s
    ensures PhaseOf(s) == Ready ==> o.available && o.next == s
    ensures PhaseOf(s) == Idle ==> !o.available
  {
    if s.isWaitingSample then CheckTimer(s, resolution, now)
    else PollOutcome(s.isSampleAvailable, s)
  }

  /**
   * A pending request becomes available exactly when the elapsed time
   * reaches the wait (1000 times the millisecond wait) for the resolution in
   * force at poll time.
   */
  lemma PollThreshold(s: SchedulerState, resolution: Byte, now: int)
    requires PhaseOf(s) == Pending
    ensures Poll(s, resolution, now).available
        <==> now - s.lastRequestMicros >= MicrosToWait(resolution)
  {
  }

  /** A poll that answers true at some time answers true at every later time. */
  lemma PollMonotoneInTime(s: SchedulerState, resolution: Byte, t1: int, t2: int)
    requires t1 <= t2 && Poll(s, resolution, t1).available
    ensures Poll(s, resolution, t2).available
    ensures Poll(s, resolution, t2).next == Poll(s, resolution, t1).next
  {
  }

  /** The answers of successive polls, each given its resolution and time. */
  function PollAll(s: SchedulerState, polls: seq<(Byte, int)>): (answers: seq<bool>)
    ensures |answers| == |polls|
    decreases |polls|
  {
    if polls == [] then []
    else
      var o := Poll(s, polls[0].0, polls[0].1);
      [o.available] + PollAll(o.next, polls[1..])
  }

  /**
   * Once a sample is available, every later poll answers true, whatever the
   * times and resolutions, until the next request.
   */
  lemma {:induction false} ReadyStaysReady(s: SchedulerState, polls: seq<(Byte, int)>)
    requires PhaseOf(s) == Ready
    ensures forall i :: 0 <= i < |polls| ==> PollAll(s, polls)[i]
  {
    if polls != [] {
      ReadyStaysReady(s, polls[1..]);
    }
  }

  /**
   * After a request at t, polls before the wait answer false and change
   * nothing; the first poll at or after the wait answers true, and so does
   * every poll after it.
   */
  lemma {:induction false} PendingUntilDeadline(s: SchedulerState, resolution: Byte, polls: seq<int>, deadline: nat)
    requires PhaseOf(s) == Pending
    requires deadline <= |polls|
    requires deadline < |polls| ==> s.lastRequestMicros + MicrosToWait(resolution) <= polls[deadline]
    requires forall i :: 0 <= i < deadline ==> polls[i] < s.lastRequestMicros + MicrosToWait(resolution)
    ensures forall i :: 0 <= i < |polls| ==> (PollAll(s, Timed(resolution, polls))[i] <==> i >= deadline)
  {
    if polls != [] {
      var o := Poll(s, resolution, polls[0]);
      assert Timed(resolution, polls)[1..] == Timed(resolution, polls[1..]);
      if deadline == 0 {
        ReadyStaysReady(o.next, Timed(resolution, polls[1..]));
      } else {
        PendingUntilDeadline(s, resolution, polls[1..], deadline - 1);
      }
    }
  }

  /** Polls at the given times, all at one resolution. */
  function Timed(resolution: Byte, times: seq<int>): (polls: seq<(Byte, int)>)
  {
    seq(|times|, i requires 0 <= i < |times| => (resolution, times[i]))
  }

  /** A request at 0 at 9 bits (94 ms): a poll at 93999 us answers false, one at 94000 us true. */
  lemma NineBitScenario()
    ensures !Poll(Request(Initial, 0), 9, 93_999).available
    ensures Poll(Request(Initial, 0), 9, 94_000).available
  {
  }

  /**
   * The threshold is taken from the resolution passed at poll time: 94 ms
   * after a request, a poll at 9 bits answers true and one at 12 bits false.
   */
  lemma ThresholdUsesPollTimeResolution()
    ensures Poll(Request(Initial, 0), 9, 94_000).available
    ensures !Poll(Request(Initial, 0), 12, 94_000).available
  {
  }
}
