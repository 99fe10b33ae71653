# LocationManager, modelled in Dafny

This project models the coordination core of the LocationManager iOS library. It covers three classes.

- **`LocationManager`** (module `Manager`, `location_manager.dfy`) owns an observer list and a completion queue.
  - It switches the position provider on when someone is waiting for a location and off when no one is.
  - It answers `getCurrentLocation` in one of three ways: it rejects, it resolves from a cached location, or it queues a completion.
  - For each batch of provider samples, it keeps the newest sample as the last known location. If that sample is accurate to 100 m both horizontally and vertically, it completes every queued request with it and delivers it to every observer in list order.
- **`LocationCompletionQueue`** (module `CompletionQueue`, `completion_queue.dfy`) holds the pending completions. Each has an optional countdown in seconds, and a repeating one-second timer runs while the queue is non-empty.
  - On each tick, an item at exactly 0 is completed with the last known location (possibly none) and removed. Every other non-nil countdown is lowered by 1.
  - A good sample completes every item in order and empties the queue.
- **`LocationRequest`** (module `Request`, `location_request.dfy`) is a one-shot request.
  - It accepts a sample only if the sample is fresh enough and accurate enough.
  - When its own timer runs out, it is forced to complete with the last known location.

`LocationTypes` (`location_types.dfy`) holds the values the three share: `Option`, `Result`, `Location`, and Swift's `indexOf` together with an independent definition of "remove the first occurrence".

How the model represents the source:
- Every state change is a method on a class whose fields are the source's fields, plus the call logs and identity counters described below. A request's `completion` and `locationManager` fields are not kept: its completion calls go to its `events` log, and the coordinator is the recorded `TimeoutReported` event.
- Every call the source makes into a closure or an observer is appended to a log field: `fired` for queue completions, `deliveries` for observers, `events` for a request.
- Object identity is a counter: the queue's `nextTicket` gives each queued item its identity, and the manager's `nextPromise` gives each `getCurrentLocation` call the identity of the completion it queues, so each pending promise can be traced to the queue item carrying it. The manager's invariant keeps queued completions distinct and below `nextPromise`, and the internal `UpdateLocation` requires a completion that was handed out and is not already queued, as its one caller's new closure is.
- Each method's `ensures` ties the new state to specification functions of the old state. For example, the queue after a tick is `Survivors(old(queueItems))`, and the completions made are `Firings(old(queueItems), lastKnownLocation)`.
- The properties of those functions are proved as lemmas.

The behaviour modelled is the code's, including where it is weaker than a caller might expect:
- **Timeout outcome.** A request that times out on the queue completes with the last known location, however old or inaccurate that location is. The promise is rejected with `CannotFetchLocation` only when no location was ever received (`TickSettles`).
- **Timeout timing.** The tick compares a countdown with 0 by equality, before lowering it. As a result:
  - a whole timeout `n` fires on tick `n + 1`, so the default 8 seconds fires on the ninth tick (`FiresOnTickAfterCountdown`);
  - a negative or fractional timeout never fires (`NeverFiresUnlessWhole`).
- **Exactly-once.** `LocationRequest` keeps no "already completed" flag, so a second successful `completeWith` calls the completion again (`CompletesTwice`).
- **Scope.** The modelled classes have no per-observer accuracy, distance filter, minimum or maximum interval, and no accuracy aggregation across consumers.
- **`currentLocation`.** It is read by `getCurrentLocation` but assigned nowhere in the modelled code. It starts as none, so the cache branch is reachable only in principle.

The queue and the manager each keep an invariant:
- `LocationCompletionQueue.Valid`: item identities are distinct and below the next identity to hand out, and the timer runs only while there is an item.
- `LocationManager.Valid`: the queue's invariant holds; the provider runs exactly when the queue or the observer list is non-empty; the queue's timer runs whenever a request is queued, so every pending promise is ticked; and queued completions are distinct and below `nextPromise`.

Every public operation preserves its class's invariant.

## Model

| member | source | states |
|---|---|---|
| LocationTypes.IndexOf | Pod/Classes/LocationManager.swift:119-121 | The index found holds the element and nothing equal to it comes earlier; none is found exactly when the element is absent. |
| LocationTypes.RemoveAtIndexOf | Pod/Classes/LocationManager.swift:118-123 | Removing at the index `indexOf` returns is removing the first occurrence (`RemoveFirst`). |
| LocationTypes.RemoveAtFirst | Pod/Classes/LocationManager.swift:118-123 | Cutting the sequence at the first position holding `x` equals `RemoveFirst(s, x)`, by induction on the position. |
| LocationTypes.RemoveFirstAbsent | Pod/Classes/LocationManager.swift:118-126 | Removing an observer that is not in the list leaves the list unchanged. |
| LocationTypes.RemoveFirstPresent | Pod/Classes/LocationManager.swift:118-126 | Removing a present observer removes exactly one copy: the multiset loses one occurrence and the length drops by one. |
| LocationTypes.RemoveFirstKeepsPrefix | Pod/Classes/LocationManager.swift:118-126 | Every entry before the first match keeps its position and value. |
| CompletionQueue.LocationCompletionQueue.constructor | Pod/Classes/LocationCompletionQueue.swift:33-44 | A new queue is empty, has no timer, has called no completion, hands out identities from 0, and satisfies the invariant. |
| CompletionQueue.LocationCompletionQueue.IsActive | Pod/Classes/LocationCompletionQueue.swift:40-42 | The queue is active exactly when the timer is set. The timer promises of `PushCompletionItem`, `StartTimerIfNeeded`, `InvalidateTimer`, `Tick` and `CompleteWithLocation`, and of the manager's methods, are stated through it. |
| CompletionQueue.LocationCompletionQueue.PushCompletionItem | Pod/Classes/LocationCompletionQueue.swift:46-50 | Appends exactly one item, carrying the given timeout, completion and a fresh identity, at the end. Earlier items are unchanged, the timer is active afterwards, and no completion is called. |
| CompletionQueue.UniqueTicketsSnoc | Pod/Classes/LocationCompletionQueue.swift:46-50 | Appending an item whose identity is new keeps item identities distinct. |
| CompletionQueue.LocationCompletionQueue.StartTimerIfNeeded | Pod/Classes/LocationCompletionQueue.swift:54-60 | The timer is active afterwards exactly when it was already active or the queue is non-empty. With the timer set or the queue empty, nothing changes. |
| CompletionQueue.LocationCompletionQueue.InvalidateTimer | Pod/Classes/LocationCompletionQueue.swift:62-65 | The timer is inactive afterwards, and the items and the completion log are unchanged. |
| CompletionQueue.LocationCompletionQueue.Tick | Pod/Classes/LocationCompletionQueue.swift:67-92 | The queue becomes `Survivors` of the old queue. The completions called are those of `Fired` of the old queue, in order, each with the last known location. The result reports an empty queue, and the timer stops exactly then. |
| CompletionQueue.LocationCompletionQueue.CountDownPass | Pod/Classes/LocationCompletionQueue.swift:71-80 | The first loop. Items at 0 are completed in order with the last known location and their identities listed. Other non-nil countdowns drop by 1 in place, and nil ones are skipped. |
| CompletionQueue.LocationCompletionQueue.RemovePass | Pod/Classes/LocationCompletionQueue.swift:82-86 | The second loop. Looking up each listed identity and removing the item found leaves exactly the items whose identity is not listed, in order. |
| CompletionQueue.RemovalStep | Pod/Classes/LocationCompletionQueue.swift:82-86 | One step of the removal loop. When the identity is found, removing at that index drops that identity. When it is not found, the queue already lacks it. |
| CompletionQueue.RemoveAtIsWithout | Pod/Classes/LocationCompletionQueue.swift:84 | With distinct identities, removing at index `k` drops exactly the item with `k`'s identity. |
| CompletionQueue.WithoutMembers | Pod/Classes/LocationCompletionQueue.swift:82-86 | After the removal loop, an item remains exactly when it was queued and its identity was not listed. |
| CompletionQueue.CountdownThenDelete | Pod/Classes/LocationCompletionQueue.swift:71-86 | Running the decrement loop and then the removal loop yields `Survivors`: the items that did not fire, counted down, in their original order. |
| CompletionQueue.FiredTicketsExactly | Pod/Classes/LocationCompletionQueue.swift:71-80 | With distinct identities, an item's identity is in the deletion list exactly when the item's countdown is 0. |
| CompletionQueue.SurvivorsKeepOrder | Pod/Classes/LocationCompletionQueue.swift:71-86 | Of two items that stay through a tick, the earlier one still comes first afterwards. |
| CompletionQueue.FiredKeepsOrder | Pod/Classes/LocationCompletionQueue.swift:71-76 | Of two items that fire on a tick, the earlier one is completed first. |
| CompletionQueue.TickPartition | Pod/Classes/LocationCompletionQueue.swift:71-86 | Every item either survives a tick or fires in it, never both: the two counts add up to the queue length. |
| CompletionQueue.FiredExactly | Pod/Classes/LocationCompletionQueue.swift:74-76 | The items completed by a tick are exactly the queued items whose countdown is 0. |
| CompletionQueue.SurvivorsExactly | Pod/Classes/LocationCompletionQueue.swift:71-86 | Every item that does not fire stays, counted down. Everything that stays is such an item. |
| CompletionQueue.NilTimeoutUntouched | Pod/Classes/LocationCompletionQueue.swift:72-73 | An item with no timeout is never completed by a tick and stays unmodified. |
| CompletionQueue.SurvivorsUnique | Pod/Classes/LocationCompletionQueue.swift:67-92 | A tick keeps item identities distinct. |
| CompletionQueue.SurvivorsCompletions | Pod/Classes/LocationCompletionQueue.swift:67-92 | A tick keeps queued completions distinct and below the bound, since every survivor carries the completion of an item that was queued. |
| CompletionQueue.CompletionsBelowSnoc | Pod/Classes/LocationManager.swift:133-138 | Queueing a completion that was handed out and is not already queued keeps queued completions distinct and below the bound. |
| CompletionQueue.CountdownFromWhole | Pod/Classes/LocationCompletionQueue.swift:78 | A whole countdown `n`, lowered `k <= n` times, is `n - k`. |
| CompletionQueue.CountdownFromNonWhole | Pod/Classes/LocationCompletionQueue.swift:74-79 | A negative or fractional countdown only ever drops by 1 per tick and never equals 0. |
| CompletionQueue.TrackItem | Pod/Classes/LocationCompletionQueue.swift:67-92 | Across ticks where an item does not fire, it stays in the queue as its counted-down self, and no other item shares its identity. |
| CompletionQueue.FiresOnTickAfterCountdown | Pod/Classes/LocationCompletionQueue.swift:74-79 | An item with whole timeout `n` stays through `n` ticks without firing, fires on tick `n + 1`, and is gone afterwards. |
| CompletionQueue.NeverFiresUnlessWhole | Pod/Classes/LocationCompletionQueue.swift:74-79 | An item with a negative or fractional timeout is never completed by any number of ticks and stays queued. |
| CompletionQueue.LocationCompletionQueue.CompleteWithLocation | Pod/Classes/LocationCompletionQueue.swift:96-100 | Calls every queued completion once, in queue order, with the given location. Afterwards the queue is empty and the timer inactive. |
| Manager.Decide | Pod/Classes/LocationManager.swift:91-106 | Rejects exactly when the status is determined and location is not available. Otherwise it uses the cache exactly when there is one and the request is not forced, returning that location. Otherwise it enqueues. |
| Manager.RejectExactly | Pod/Classes/LocationManager.swift:48-54 | A request is rejected exactly when the status is Restricted or Denied, or when services are off and the status is determined. |
| Manager.Settle | Pod/Classes/LocationManager.swift:99-105 | A completion that receives a location resolves the promise with it; one that receives none rejects it with `CannotFetchLocation`. Used by `TickSettles`. |
| Manager.TickSettles | Pod/Classes/LocationManager.swift:99-105 | A pending request whose item reaches 0 on a tick is completed with the last known location, whatever its age or accuracy; its promise resolves with that location, and is rejected with `CannotFetchLocation` exactly when no location was ever received. |
| Manager.LocationManager.constructor | Pod/Classes/LocationManager.swift:38-45 | A new manager has no observers, a fresh empty queue with no timer and no completions called, a stopped provider, no locations and no deliveries, hands out identities from 0, and satisfies the invariant. |
| Manager.LocationManager.StartUpdatingLocationIfNeeded | Pod/Classes/LocationManager.swift:75-79 | The provider runs afterwards exactly when it already ran or there is demand. Without demand nothing changes. |
| Manager.LocationManager.StopUpdatingLocationIfPossible | Pod/Classes/LocationManager.swift:80-84 | The provider runs afterwards exactly when it ran and there is still demand. It stops only when the queue and the observer list are both empty. |
| Manager.LocationManager.AddLocationObserver | Pod/Classes/LocationManager.swift:112-116 | Appends the observer at the end, keeps earlier entries, leaves the provider running, and preserves the invariant. |
| Manager.LocationManager.RemoveLocationObserver | Pod/Classes/LocationManager.swift:118-126 | Removes only the first equal entry, or nothing when the observer is absent. The stop check runs either way, and the invariant is preserved. |
| Manager.LocationManager.UpdateLocation | Pod/Classes/LocationManager.swift:133-138 | Queues exactly one item with the given timeout, completion and next identity at the end. The queue's timer and the provider are running afterwards, and no completion is called. Its caller passes a completion handed out by `getCurrentLocation` and not yet queued (its one caller, at :99-105, passes a new closure). |
| Manager.LocationManager.GetCurrentLocation | Pod/Classes/LocationManager.swift:88-108 | Follows `Decide`. A rejection is `LocationServiceDisabled` and a cached answer is the cache; neither changes the queue (items, timer, identities, completions) or the provider. Otherwise exactly one item with the given timeout (8 by default) and the next identity is queued at the end, the queue's timer and the provider run, and the promise is pending on that item. |
| Manager.LocationManager.DidUpdateLocations | Pod/Classes/LocationManager.swift:144-157 | An empty batch changes only the provider, through the stop check, and leaves the queue untouched. Otherwise the newest sample becomes the last known location, valid or not. Within 100 m it completes every queued request in order, empties the queue and stops its timer, and reaches every observer in list order; beyond 100 m the queue is untouched and no observer is reached. The stop check always runs. |
| Manager.LocationManager.NotifyObservers | Pod/Classes/LocationManager.swift:151-153 | One callback per observer, in list order, with the sample. |
| Manager.LocationManager.QueueTimerFired | Pod/Classes/LocationCompletionQueue.swift:88-91 | A queue tick with the manager's last known location: the queue becomes `Survivors`, the completions are `Firings` with that location, the timer keeps running exactly while the queue stays non-empty, and when it empties the stop check runs, so the provider runs exactly while there is demand. |
| Request.Validate | Pod/Classes/LocationRequest.swift:37-48 | A sample passes exactly when its age is at most `timeout ?? 30` seconds (an age equal to the window passes) and, when a desired accuracy is set, both accuracies are within it. |
| Request.LocationRequest.constructor | Pod/Classes/LocationRequest.swift:23-35 | The timer is armed exactly when a timeout is given, and no completion has been called. |
| Request.LocationRequest.CompleteWith | Pod/Classes/LocationRequest.swift:50-63 | Succeeds exactly when forced, or when the sample is present and passes `Validate`. On success the completion is called once with the sample (even none, when forced) and the timer is disarmed. On failure nothing changes. |
| Request.LocationRequest.DidTimeout | Pod/Classes/LocationRequest.swift:65-69 | Calls the completion with the last known location first, then reports the timeout to the coordinator. The timer ends disarmed. |
| Request.CompletesTwice | Pod/Classes/LocationRequest.swift:50-63 | For any request in any state, a sample that passes `Validate` is accepted twice in a row, and the completion is called twice with it; the timer ends disarmed. |

## Left out

- `askForLocationServicesIfNeeded` (Pod/Classes/LocationManager.swift:56-72) is not modelled: it reads the application's property list and calls the platform's authorization prompts. The constructor therefore does not prompt.
- The two provider settings made in the manager's initializer (distance filter and desired accuracy both 0) configure the platform provider and are not modelled.
- The authorization-change callback (Pod/Classes/LocationManager.swift:140-142) only posts a broadcast notification, so it is not modelled.
- The debug `print` in `validateLocation` is not modelled.
- The platform provider is the `running` flag. The authorization status and "services enabled" are inputs to `GetCurrentLocation`.
- Promises are the `Outcome` of `GetCurrentLocation` together with `Settle`, which says how the queued completion settles the promise. Their asynchrony is not modelled.
- Timers and real time are not modelled. The queue's repeating timer is `timerActive`, and each of its firings is a call of `QueueTimerFired`. A request's timer is `timerArmed`, and its firing is a call of `DidTimeout`. The clock is the `now` parameter of request validation.
- Completion closures and observers are identities. Their calls are recorded in the `fired` and `deliveries` logs rather than executed. As a result, a callback that calls back into the manager or the queue in the middle of a loop is not modelled. The two logs are separate, so they do not record that, for a good sample, the queued completions all run before the observer callbacks (Pod/Classes/LocationManager.swift:149 before 151-153); `DidUpdateLocations` performs them in that order.
- Queue items are values carrying a unique `ticket` in place of object identity. The in-place `timeout -= 1` on a shared item object is a replacement of that item in the sequence, so aliasing of item objects is not modelled.
- The queue's back-reference to the manager is cut. `Tick` takes the last known location as a parameter and reports whether the queue emptied, and `QueueTimerFired` then runs the manager's stop check.
- The shared singleton and the lazy creation of the queue are not modelled: a manager builds its queue in its constructor.
- Times, accuracies and countdowns are mathematical reals, not IEEE doubles. The decrement by 1 is exact in the model. On a double, whole countdowns up to 2^53 also count down exactly, and a fractional countdown such as 2.5 also never equals 0, so the firing behaviour the lemmas state holds for doubles in that range too.
- `LocationRequest` is modelled on its own. The modelled manager never creates one, and the `locationRequestDidTimeout` callback a request calls does not exist in it (the request file comes from a later Swift version). That callback is the recorded `TimeoutReported` event.
- The `LocationObserver` protocol (Pod/Classes/LocationObserver.swift) and the example application are not part of this model. An observer is an identity whose callbacks are logged.
- `IsLocationStatusDetermined`, `IsLocationAvailable` and `ValidateLocation` have no contract of their own. Their meaning is stated through `Decide`, `RejectExactly` and `DidUpdateLocations`.
