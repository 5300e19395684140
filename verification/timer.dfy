/**
 * The timeout side of `tokio::select!`. Both channels race their event
 * loop against a sleep of `timeout` milliseconds; arrival times are
 * milliseconds measured from the instant the timer starts; an event that
 * arrives before the timer starts (the browser's loop is already running
 * then) has time 0.
 *
 * Which branch wins when an acceptance and the timer are due at the same
 * instant is up to the runtime; `TieBreak` is that choice, passed in so
 * that no result depends on it silently.
 */
module Timer {

  datatype TieBreak = TimerFirst | ChannelFirst

  /** The channel handles an event arriving at `at` before the timer fires. */
  predicate InTime(at: nat, timeout: nat, tie: TieBreak) {
    at < timeout || (at == timeout && tie == ChannelFirst)
  }

  /**
   * The events the channel gets to before the timer fires: the longest
   * prefix whose events are all in time. Once the timer has fired the
   * race is over, so nothing after the first late event is handled.
   */
  function BeforeTimer<E>(events: seq<E>, at: E -> nat, timeout: nat, tie: TieBreak): (p: seq<E>)
    ensures |p| <= |events| && p == events[..|p|]
    ensures forall i | 0 <= i < |p| :: InTime(at(p[i]), timeout, tie)
    ensures |p| < |events| ==> !InTime(at(events[|p|]), timeout, tie)
  {
    if |events| == 0 || !InTime(at(events[0]), timeout, tie) then []
    else [events[0]] + BeforeTimer(events[1..], at, timeout, tie)
  }

  /** Every event up to and including index k is handled before the timer fires. */
  ghost predicate HandledInTime<E>(events: seq<E>, at: E -> nat, timeout: nat, tie: TieBreak, k: nat) {
    forall j | 0 <= j <= k && j < |events| :: InTime(at(events[j]), timeout, tie)
  }

  /** The events handled before the timer fires are exactly those of the prefix. */
  lemma BeforeTimerHandled<E>(events: seq<E>, at: E -> nat, timeout: nat, tie: TieBreak)
    ensures var p := BeforeTimer(events, at, timeout, tie);
      forall k | 0 <= k < |events| :: HandledInTime(events, at, timeout, tie, k) <==> k < |p|
  {
    var p := BeforeTimer(events, at, timeout, tie);
    forall k | 0 <= k < |events|
      ensures HandledInTime(events, at, timeout, tie, k) <==> k < |p|
    {
      if k < |p| {
        forall j | 0 <= j <= k ensures InTime(at(events[j]), timeout, tie) {
          assert p[j] == events[j];
        }
      }
    }
  }

  /** Arrival times never go backwards along a stream. */
  ghost predicate InArrivalOrder<E>(events: seq<E>, at: E -> nat) {
    forall i, j | 0 <= i < j < |events| :: at(events[i]) <= at(events[j])
  }

  /**
   * On a stream in arrival order, an event is handled iff it is in time:
   * the prefix is exactly the in-time events.
   */
  lemma {:induction false} BeforeTimerExact<E>(events: seq<E>, at: E -> nat, timeout: nat, tie: TieBreak, k: nat)
    requires InArrivalOrder(events, at)
    requires k < |events|
    ensures k < |BeforeTimer(events, at, timeout, tie)| <==> InTime(at(events[k]), timeout, tie)
  {
    var p := BeforeTimer(events, at, timeout, tie);
    if k < |p| {
      assert p[k] == events[k];
    } else {
      assert !InTime(at(events[|p|]), timeout, tie);
      assert at(events[|p|]) <= at(events[k]);
    }
  }

  /** If no event arrives exactly at the deadline, the tie-break does not change the prefix. */
  lemma {:induction false} BeforeTimerTieFree<E>(events: seq<E>, at: E -> nat, timeout: nat)
    requires forall i | 0 <= i < |events| :: at(events[i]) != timeout
    ensures BeforeTimer(events, at, timeout, TimerFirst) == BeforeTimer(events, at, timeout, ChannelFirst)
  {
    if |events| > 0 {
      assert at(events[0]) != timeout;
      assert forall i | 0 <= i < |events| - 1 :: events[1..][i] == events[i + 1];
      BeforeTimerTieFree(events[1..], at, timeout);
    }
  }
}
