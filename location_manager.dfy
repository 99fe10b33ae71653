/** The coordinator: it owns the completion queue and the observer list, turns
    the position provider on while anyone is waiting for a location and off
    when no one is, and routes each batch of provider samples to the waiting
    requests and to the observers. The provider, the authorization prompt and
    the promise machinery are outside the model: the provider is the `running`
    flag, authorization and "services enabled" are inputs, and a promise is
    the `Outcome` of a request together with `Settle`. */
module Manager {
  import opened LocationTypes
  import opened CompletionQueue

  /** An observer, by identity (the source compares observers with `===`). */
  type ObserverId = nat

  /** The platform's authorization status for location use. */
  datatype AuthorizationStatus =
    | NotDetermined
    | Restricted
    | Denied
    | AuthorizedAlways
    | AuthorizedWhenInUse

  datatype LocationManagerError = LocationServiceDisabled | CannotFetchLocation

  /** One call of an observer's update callback. */
  datatype Delivery = Delivery(observer: ObserverId, location: Location)

  /** How `getCurrentLocation` answers at once: a rejected promise, a promise
      resolved from the cache, or a promise pending on the completion queue
      item carrying `completion`. */
  datatype Outcome =
    | Rejected(error: LocationManagerError)
    | Resolved(location: Location)
    | Pending(completion: CompletionId)

  /** The three branches of `getCurrentLocation`, before anything is enqueued. */
  datatype Decision = Reject | UseCached(location: Location) | Enqueue

  /** Radius in metres above which a sample is too inaccurate to be routed. */
  const MaxAcceptedAccuracy: real := 100.0

  predicate IsLocationStatusDetermined(status: AuthorizationStatus) {
    status != NotDetermined
  }

  predicate IsLocationAvailable(status: AuthorizationStatus, servicesEnabled: bool) {
    servicesEnabled && (status == AuthorizedAlways || status == AuthorizedWhenInUse)
  }

  /** The accuracy gate a sample must pass before it completes requests and
      reaches observers. */
  predicate ValidateLocation(location: Location) {
    location.horizontalAccuracy <= MaxAcceptedAccuracy && location.verticalAccuracy <= MaxAcceptedAccuracy
  }

  /** The branch `getCurrentLocation` takes. The rejection test comes first,
      so a cached location is never returned when services are disabled. */
  function Decide(status: AuthorizationStatus, servicesEnabled: bool, cached: Option<Location>, force: bool): (d: Decision)
    ensures d == Reject <==> IsLocationStatusDetermined(status) && !IsLocationAvailable(status, servicesEnabled)
    ensures d.UseCached? <==> d != Reject && cached.Some? && !force
    ensures d.UseCached? ==> d.location == cached.value
  {
    if !IsLocationAvailable(status, servicesEnabled) && IsLocationStatusDetermined(status) then Reject
    else if cached.Some? && !force then UseCached(cached.value)
    else Enqueue
  }

  /** The rejection, stated by status: a determined status that is refused,
      or any determined status while services are switched off. */
  lemma RejectExactly(status: AuthorizationStatus, servicesEnabled: bool, cached: Option<Location>, force: bool)
    ensures Decide(status, servicesEnabled, cached, force) == Reject
        <==> (status == Restricted || status == Denied || (!servicesEnabled && status != NotDetermined))
  {
  }

  /** How the completion handed to the queue settles the pending promise:
      a location resolves it, no location rejects it. */
  function Settle(location: Option<Location>): (r: Result<Location, LocationManagerError>)
    ensures r.Success? <==> location.Some?
    ensures r.Success? ==> r.value == location.value
    ensures r.Failure? ==> r.error == CannotFetchLocation
  {
    match location
    case Some(l) => Success(l)
    case None => Failure(CannotFetchLocation)
  }

  /** A queued request whose countdown reaches 0 on a tick is completed with
      the last known location, whatever its accuracy or age, so its promise
      resolves with that location and is rejected with `CannotFetchLocation`
      exactly when no location was ever received. */
  lemma TickSettles(items: seq<QueueItem>, lastKnownLocation: Option<Location>, x: QueueItem)
    requires x in items && Fires(x)
    ensures Firing(x.completion, lastKnownLocation) in Firings(items, lastKnownLocation)
    ensures forall f :: f in Firings(items, lastKnownLocation) ==> Settle(f.location) == Settle(lastKnownLocation)
    ensures Settle(lastKnownLocation) == Failure(CannotFetchLocation) <==> lastKnownLocation == None
    ensures lastKnownLocation.Some? ==> Settle(lastKnownLocation) == Success(lastKnownLocation.value)
  {
    FiredExactly(items);
    var fired := Fired(items);
    var k :| 0 <= k < |fired| && fired[k] == x;
    assert Firings(items, lastKnownLocation)[k] == Firing(x.completion, lastKnownLocation);
  }

  /** One delivery per observer, in list order. */
  function Fanout(observers: seq<ObserverId>, location: Location): seq<Delivery> {
    seq(|observers|, i requires 0 <= i < |observers| => Delivery(observers[i], location))
  }

  class LocationManager {
    const queue: LocationCompletionQueue
    var locationObservers: seq<ObserverId>
    /** Whether the position provider is updating. */
    var running: bool
    /** Read by `getCurrentLocation`; nothing in the coordinator assigns it. */
    var currentLocation: Option<Location>
    var lastKnownLocation: Option<Location>
    /** Every observer callback made so far, in order. */
    var deliveries: seq<Delivery>
    /** The completion identity the next `getCurrentLocation` hands to the queue. */
    var nextPromise: CompletionId

    /** Someone is waiting for a location. */
    predicate HasDemand()
      reads this, queue
    {
      |queue.queueItems| > 0 || |locationObservers| > 0
    }

    /** The provider runs exactly while there is demand, the queue's timer
        runs while a request is queued, and each queued completion is a
        distinct one handed out by `getCurrentLocation`. */
    ghost predicate Valid()
      reads this, queue
    {
      && queue.Valid()
      && running == HasDemand()
      && (queue.queueItems != [] ==> queue.IsActive())
      && CompletionsBelow(queue.queueItems, nextPromise)
    }

    constructor ()
      ensures Valid() && fresh(queue)
      ensures locationObservers == [] && queue.queueItems == [] && !running
      ensures currentLocation == None && lastKnownLocation == None && deliveries == []
      ensures queue.fired == [] && !queue.IsActive() && queue.nextTicket == 0 && nextPromise == 0
    {
      queue := new LocationCompletionQueue();
      locationObservers := [];
      running := false;
      currentLocation := None;
      lastKnownLocation := None;
      deliveries := [];
      nextPromise := 0;
    }

    /** Starts the provider when there is demand; otherwise changes nothing. */
    method StartUpdatingLocationIfNeeded()
      modifies this
      ensures running == (old(running) || HasDemand())
      ensures locationObservers == old(locationObservers) && deliveries == old(deliveries)
      ensures lastKnownLocation == old(lastKnownLocation) && currentLocation == old(currentLocation)
      ensures nextPromise == old(nextPromise)
    {
      if |queue.queueItems| > 0 || |locationObservers| > 0 {
        running := true;
      }
    }

    /** Stops the provider when there is no demand; otherwise changes nothing. */
    method StopUpdatingLocationIfPossible()
      modifies this
      ensures running == (old(running) && HasDemand())
      ensures locationObservers == old(locationObservers) && deliveries == old(deliveries)
      ensures lastKnownLocation == old(lastKnownLocation) && currentLocation == old(currentLocation)
      ensures nextPromise == old(nextPromise)
    {
      if |queue.queueItems| == 0 && |locationObservers| == 0 {
        running := false;
      }
    }

    method AddLocationObserver(observer: ObserverId)
      requires Valid()
      modifies this
      ensures Valid()
      ensures locationObservers == old(locationObservers) + [observer]
      ensures running
      ensures deliveries == old(deliveries) && lastKnownLocation == old(lastKnownLocation)
      ensures currentLocation == old(currentLocation) && nextPromise == old(nextPromise)
    {
      locationObservers := locationObservers + [observer];
      StartUpdatingLocationIfNeeded();
    }

    /** Removes the first entry equal to `observer`, if any, then runs the
        stop check whether or not anything was removed. */
    method RemoveLocationObserver(observer: ObserverId)
      requires Valid()
      modifies this
      ensures Valid()
      ensures locationObservers == RemoveFirst(old(locationObservers), observer)
      ensures running == (old(running) && HasDemand())
      ensures deliveries == old(deliveries) && lastKnownLocation == old(lastKnownLocation)
      ensures currentLocation == old(currentLocation) && nextPromise == old(nextPromise)
    {
      var index := IndexOf(locationObservers, observer);
      if index.Some? {
        RemoveAtIndexOf(locationObservers, observer);
        locationObservers := locationObservers[..index.value] + locationObservers[index.value + 1..];
      } else {
        RemoveFirstAbsent(locationObservers, observer);
      }
      StopUpdatingLocationIfPossible();
    }

    /** Queues `completion` with `timeout` and makes sure the provider runs. */
    method UpdateLocation(timeout: Option<real>, completion: CompletionId)
      requires Valid()
      requires completion < nextPromise
      requires forall i :: 0 <= i < |queue.queueItems| ==> queue.queueItems[i].completion != completion
      modifies this, queue
      ensures Valid()
      ensures queue.queueItems == old(queue.queueItems) + [QueueItem(old(queue.nextTicket), completion, timeout)]
      ensures queue.fired == old(queue.fired) && queue.IsActive()
      ensures queue.nextTicket == old(queue.nextTicket) + 1
      ensures running
      ensures locationObservers == old(locationObservers) && deliveries == old(deliveries)
      ensures lastKnownLocation == old(lastKnownLocation) && currentLocation == old(currentLocation)
      ensures nextPromise == old(nextPromise)
    {
      CompletionsBelowSnoc(queue.queueItems, QueueItem(queue.nextTicket, completion, timeout), nextPromise);
      queue.PushCompletionItem(timeout, completion);
      StartUpdatingLocationIfNeeded();
    }

    /** The answer to a one-shot request. A pending outcome settles later,
        through `Settle`, when the queue calls its completion. */
    method GetCurrentLocation(status: AuthorizationStatus, servicesEnabled: bool,
                              timeout: Option<real> := Some(8.0), force: bool := false)
      returns (outcome: Outcome)
      requires Valid()
      modifies this, queue
      ensures Valid()
      ensures var d := Decide(status, servicesEnabled, old(currentLocation), force);
        && (d == Reject ==> outcome == Rejected(LocationServiceDisabled))
        && (d.UseCached? ==> outcome == Resolved(d.location))
        && (d == Enqueue ==> outcome == Pending(old(nextPromise)))
      ensures outcome.Pending? ==>
        && queue.queueItems == old(queue.queueItems) + [QueueItem(old(queue.nextTicket), outcome.completion, timeout)]
        && queue.fired == old(queue.fired) && queue.IsActive()
        && queue.nextTicket == old(queue.nextTicket) + 1
        && running && nextPromise == old(nextPromise) + 1
      ensures !outcome.Pending? ==>
        && unchanged(queue) && running == old(running)
        && nextPromise == old(nextPromise)
      ensures locationObservers == old(locationObservers) && deliveries == old(deliveries)
      ensures lastKnownLocation == old(lastKnownLocation) && currentLocation == old(currentLocation)
    {
      match Decide(status, servicesEnabled, currentLocation, force)
      case Reject =>
        outcome := Rejected(LocationServiceDisabled);
      case UseCached(location) =>
        outcome := Resolved(location);
      case Enqueue =>
        var completion := nextPromise;
        nextPromise := nextPromise + 1;
        UpdateLocation(timeout, completion);
        outcome := Pending(completion);
    }

    /** The provider's delivery of a batch of samples, oldest first. Only the
        newest one counts: it becomes the last known location and, when
        accurate enough, completes every queued request and reaches every
        observer. The stop check runs in every case. */
    method DidUpdateLocations(locations: seq<Location>)
      requires Valid()
      modifies this, queue
      ensures Valid()
      ensures locations == [] ==> lastKnownLocation == old(lastKnownLocation)
      ensures locations != [] ==> lastKnownLocation == Some(locations[|locations| - 1])
      ensures locations != [] && ValidateLocation(locations[|locations| - 1]) ==>
        var location := locations[|locations| - 1];
        && queue.fired == old(queue.fired) + AllFirings(old(queue.queueItems), Some(location))
        && queue.queueItems == [] && !queue.IsActive()
        && queue.nextTicket == old(queue.nextTicket)
        && deliveries == old(deliveries) + Fanout(old(locationObservers), location)
      ensures locations == [] || !ValidateLocation(locations[|locations| - 1]) ==>
        && unchanged(queue)
        && deliveries == old(deliveries)
      ensures running == (old(running) && HasDemand())
      ensures locationObservers == old(locationObservers)
      ensures currentLocation == old(currentLocation) && nextPromise == old(nextPromise)
    {
      if |locations| > 0 {
        var lastLocation := locations[|locations| - 1];
        lastKnownLocation := Some(lastLocation);
        if ValidateLocation(lastLocation) {
          queue.CompleteWithLocation(lastLocation);
          NotifyObservers(lastLocation);
        }
      }
      StopUpdatingLocationIfPossible();
    }

    /** Calls every observer's update callback with `location`, in list order. */
    method NotifyObservers(location: Location)
      modifies this
      ensures deliveries == old(deliveries) + Fanout(locationObservers, location)
      ensures locationObservers == old(locationObservers) && running == old(running)
      ensures lastKnownLocation == old(lastKnownLocation) && currentLocation == old(currentLocation)
      ensures nextPromise == old(nextPromise)
    {
      var i := 0;
      while i < |locationObservers|
        invariant 0 <= i <= |locationObservers|
        invariant deliveries == old(deliveries) + Fanout(locationObservers[..i], location)
        invariant locationObservers == old(locationObservers) && running == old(running)
        invariant lastKnownLocation == old(lastKnownLocation) && currentLocation == old(currentLocation)
        invariant nextPromise == old(nextPromise)
      {
        assert Fanout(locationObservers[..i + 1], location)
          == Fanout(locationObservers[..i], location) + [Delivery(locationObservers[i], location)];
        deliveries := deliveries + [Delivery(locationObservers[i], location)];
        i := i + 1;
      }
      assert locationObservers[..i] == locationObservers;
    }

    /** One firing of the queue's one-second timer: the queue ticks with the
        last known location, and the stop check runs if it emptied. */
    method QueueTimerFired()
      requires Valid()
      modifies this, queue
      ensures Valid()
      ensures queue.queueItems == Survivors(old(queue.queueItems))
      ensures queue.fired == old(queue.fired) + Firings(old(queue.queueItems), lastKnownLocation)
      ensures queue.IsActive() == (old(queue.IsActive()) && queue.queueItems != [])
      ensures queue.nextTicket == old(queue.nextTicket)
      ensures running == (old(running) && HasDemand())
      ensures locationObservers == old(locationObservers) && deliveries == old(deliveries)
      ensures lastKnownLocation == old(lastKnownLocation) && currentLocation == old(currentLocation)
      ensures nextPromise == old(nextPromise)
    {
      SurvivorsCompletions(queue.queueItems, nextPromise);
      var emptied := queue.Tick(lastKnownLocation);
      if emptied {
        StopUpdatingLocationIfPossible();
      }
    }
  }
}
