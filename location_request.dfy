/** A one-shot location request: it accepts the first sample that is fresh
    and accurate enough, or is forced to complete when its own timer runs out.
    The completion closure is recorded as a log of its calls; the timer is a
    flag; the clock is the `now` parameter, in seconds. */
module Request {
  import opened LocationTypes

  /** How old, in seconds, a sample may be when the request has no timeout. */
  const DefaultWindow: real := 30.0

  /** What a request does to the outside: a call of its completion, or the
      report to the coordinator that its timer ran out. */
  datatype RequestEvent = Completed(location: Option<Location>) | TimeoutReported

  /** The freshness-and-accuracy test. The source compares the sample's
      offset from now, `timestamp - now`, against the negated window; the
      contract states the same test by the sample's age. A sample exactly as
      old as the window is still fresh. */
  function Validate(timeout: Option<real>, desiredAccuracy: Option<real>, location: Location, now: real): (r: bool)
    ensures r <==>
      && now - location.timestamp <= timeout.GetOr(DefaultWindow)
      && (desiredAccuracy.Some? ==>
            location.horizontalAccuracy <= desiredAccuracy.value && location.verticalAccuracy <= desiredAccuracy.value)
  {
    if location.timestamp - now < -timeout.GetOr(DefaultWindow) then false
    else if desiredAccuracy.Some? then
      location.horizontalAccuracy <= desiredAccuracy.value && location.verticalAccuracy <= desiredAccuracy.value
    else true
  }

  class LocationRequest {
    var desiredAccuracy: Option<real>
    var timeout: Option<real>
    /** `timer != nil` in the source. */
    var timerArmed: bool
    /** Every completion call and timeout report so far, in order. */
    var events: seq<RequestEvent>

    /** The timer is armed exactly when a timeout is given. */
    constructor (timeout: Option<real>, desiredAccuracy: Option<real>)
      ensures this.timeout == timeout && this.desiredAccuracy == desiredAccuracy
      ensures timerArmed <==> timeout.Some?
      ensures events == []
    {
      this.timeout := timeout;
      this.desiredAccuracy := desiredAccuracy;
      events := [];
      timerArmed := timeout.Some?;
    }

    /** Completes the request unless, unforced, the sample is missing or
        fails `Validate`; a completion disarms the timer. Nothing records an
        earlier completion, so each successful call completes again. */
    method CompleteWith(location: Option<Location>, now: real, force: bool := false) returns (ok: bool)
      modifies this
      ensures ok <==> force || (location.Some? && Validate(timeout, desiredAccuracy, location.value, now))
      ensures ok ==> events == old(events) + [Completed(location)] && !timerArmed
      ensures !ok ==> events == old(events) && timerArmed == old(timerArmed)
      ensures timeout == old(timeout) && desiredAccuracy == old(desiredAccuracy)
    {
      if !force {
        if location.None? || !Validate(timeout, desiredAccuracy, location.value, now) {
          return false;
        }
      }
      events := events + [Completed(location)];
      timerArmed := false;
      return true;
    }

    /** The timer ran out: complete with whatever the coordinator last saw,
        valid or not, present or not, then report the timeout. */
    method DidTimeout(lastKnownLocation: Option<Location>, now: real)
      modifies this
      ensures events == old(events) + [Completed(lastKnownLocation), TimeoutReported]
      ensures !timerArmed
      ensures timeout == old(timeout) && desiredAccuracy == old(desiredAccuracy)
    {
      var _ := CompleteWith(lastKnownLocation, now, true);
      events := events + [TimeoutReported];
    }
  }

  /** Completion is not exactly-once: a request, in any state, that accepts a
      sample accepts the same sample again and calls its completion a second
      time. */
  method CompletesTwice(request: LocationRequest, location: Location, now: real)
    requires Validate(request.timeout, request.desiredAccuracy, location, now)
    modifies request
    ensures request.events == old(request.events) + [Completed(Some(location)), Completed(Some(location))]
    ensures !request.timerArmed
  {
    var first := request.CompleteWith(Some(location), now);
    var second := request.CompleteWith(Some(location), now);
  }
}
