/** The queue of pending one-shot completions (LocationCompletionQueue.swift):
    items with an optional countdown, a repeating one-second timer that ticks
    them down, and a flush that completes all of them with a fresh sample. */
module CompletionQueue {
  import opened LocationTypes

  /** The identity of a completion closure handed to the queue. */
  type CompletionId = nat

  /** One queued completion. Items are compared by reference in the source;
      `ticket` stands for that identity and is unique within a queue. */
  datatype QueueItem = QueueItem(ticket: nat, completion: CompletionId, timeout: Option<real>)

  /** One invocation of a queued completion, with the location it was given. */
  datatype Firing = Firing(completion: CompletionId, location: Option<Location>)

  /** The equality test of a tick: an item is completed when its countdown is exactly 0. */
  predicate Fires(item: QueueItem) {
    item.timeout == Some(0.0)
  }

  /** What a tick does to one item that stays: nil countdowns are skipped,
      a countdown of 0 is left for completion, any other is lowered by 1. */
  function CountedDown(item: QueueItem): QueueItem {
    match item.timeout
    case None => item
    case Some(t) => if t == 0.0 then item else item.(timeout := Some(t - 1.0))
  }

  /** The queue after the in-place decrement pass of a tick, before removal. */
  function Countdown(items: seq<QueueItem>): seq<QueueItem> {
    seq(|items|, i requires 0 <= i < |items| => CountedDown(items[i]))
  }

  /** The items a tick keeps, counted down, in queue order. */
  function Survivors(items: seq<QueueItem>): seq<QueueItem> {
    if items == [] then []
    else
      var last := items[|items| - 1];
      Survivors(items[..|items| - 1]) + (if Fires(last) then [] else [CountedDown(last)])
  }

  /** The items a tick completes and removes, in queue order. */
  function Fired(items: seq<QueueItem>): seq<QueueItem> {
    if items == [] then []
    else
      var last := items[|items| - 1];
      Fired(items[..|items| - 1]) + (if Fires(last) then [last] else [])
  }

  function Tickets(items: seq<QueueItem>): seq<nat> {
    seq(|items|, i requires 0 <= i < |items| => items[i].ticket)
  }

  /** One completion call per item, in order, all with `location`. */
  function AllFirings(items: seq<QueueItem>, location: Option<Location>): seq<Firing> {
    seq(|items|, i requires 0 <= i < |items| => Firing(items[i].completion, location))
  }

  /** The completion calls a tick makes when the last known location is `location`. */
  function Firings(items: seq<QueueItem>, location: Option<Location>): seq<Firing> {
    AllFirings(Fired(items), location)
  }

  /** `items` without those whose ticket is listed in `tickets`. */
  function Without(items: seq<QueueItem>, tickets: seq<nat>): seq<QueueItem> {
    if items == [] then []
    else
      var last := items[|items| - 1];
      Without(items[..|items| - 1], tickets) + (if last.ticket in tickets then [] else [last])
  }

  ghost predicate UniqueTickets(items: seq<QueueItem>) {
    forall i, j :: 0 <= i < j < |items| ==> items[i].ticket != items[j].ticket
  }

  /** No completion is queued twice, and every queued one was handed out
      before `bound`. */
  ghost predicate CompletionsBelow(items: seq<QueueItem>, bound: nat) {
    && (forall i, j :: 0 <= i < j < |items| ==> items[i].completion != items[j].completion)
    && (forall i :: 0 <= i < |items| ==> items[i].completion < bound)
  }

  /** The queue after `k` ticks during which no location arrived. */
  function AfterTicks(items: seq<QueueItem>, k: nat): seq<QueueItem> {
    if k == 0 then items else Survivors(AfterTicks(items, k - 1))
  }

  /** One item after `k` decrement passes. */
  function CountedDownN(item: QueueItem, k: nat): QueueItem {
    if k == 0 then item else CountedDown(CountedDownN(item, k - 1))
  }

  /** A non-negative whole number of seconds. */
  predicate IsWhole(t: real) {
    t >= 0.0 && t.Floor as real == t
  }

  // ---------------------------------------------------------------------------
  // What one tick does

  lemma {:induction false} SurvivorsAppend(a: seq<QueueItem>, b: seq<QueueItem>)
    ensures Survivors(a + b) == Survivors(a) + Survivors(b)
  {
    if b != [] {
      var b' := b[..|b| - 1];
      assert (a + b)[..|a + b| - 1] == a + b';
      SurvivorsAppend(a, b');
    } else {
      assert a + b == a;
    }
  }

  lemma {:induction false} FiredAppend(a: seq<QueueItem>, b: seq<QueueItem>)
    ensures Fired(a + b) == Fired(a) + Fired(b)
  {
    if b != [] {
      var b' := b[..|b| - 1];
      assert (a + b)[..|a + b| - 1] == a + b';
      FiredAppend(a, b');
    } else {
      assert a + b == a;
    }
  }

  /** Every item either fires or survives, never both and never neither. */
  lemma {:induction false} TickPartition(items: seq<QueueItem>)
    ensures |Survivors(items)| + |Fired(items)| == |items|
  {
    if items != [] {
      TickPartition(items[..|items| - 1]);
    }
  }

  /** Exactly the items whose countdown is 0 are completed. */
  lemma {:induction false} FiredExactly(items: seq<QueueItem>)
    ensures forall y :: y in Fired(items) <==> y in items && Fires(y)
  {
    if items != [] {
      var front := items[..|items| - 1];
      FiredExactly(front);
      assert items == front + [items[|items| - 1]];
    }
  }

  /** Exactly the items whose countdown is not 0 stay, each counted down once. */
  lemma {:induction false} SurvivorsExactly(items: seq<QueueItem>)
    ensures forall x :: x in items && !Fires(x) ==> CountedDown(x) in Survivors(items)
    ensures forall y :: y in Survivors(items) ==> exists x :: x in items && !Fires(x) && y == CountedDown(x)
  {
    if items != [] {
      var front := items[..|items| - 1];
      SurvivorsExactly(front);
      assert items == front + [items[|items| - 1]];
    }
  }

  /** An item with no countdown is neither completed nor changed by a tick. */
  lemma NilTimeoutUntouched(items: seq<QueueItem>, x: QueueItem)
    requires x in items && x.timeout == None
    ensures x in Survivors(items) && x !in Fired(items)
  {
    SurvivorsExactly(items);
    FiredExactly(items);
  }

  /** Surviving items keep their relative order: of two items that stay, the
      earlier one comes first in the queue after the tick. */
  lemma SurvivorsKeepOrder(items: seq<QueueItem>, i: nat, j: nat)
    requires i < j < |items| && !Fires(items[i]) && !Fires(items[j])
    ensures exists p, q ::
      && 0 <= p < q < |Survivors(items)|
      && Survivors(items)[p] == CountedDown(items[i])
      && Survivors(items)[q] == CountedDown(items[j])
  {
    var front, back := items[..j], items[j..];
    assert items == front + back;
    SurvivorsAppend(front, back);
    assert items[i] in front;
    SurvivorsExactly(front);
    var p :| 0 <= p < |Survivors(front)| && Survivors(front)[p] == CountedDown(items[i]);
    assert back == [items[j]] + back[1..];
    SurvivorsAppend([items[j]], back[1..]);
    assert Survivors([items[j]]) == [CountedDown(items[j])];
    var q := |Survivors(front)|;
    assert Survivors(items)[p] == CountedDown(items[i]) && Survivors(items)[q] == CountedDown(items[j]);
  }

  /** Completions happen in queue order: of two items that fire, the earlier
      one is completed first. */
  lemma FiredKeepsOrder(items: seq<QueueItem>, i: nat, j: nat)
    requires i < j < |items| && Fires(items[i]) && Fires(items[j])
    ensures exists p, q :: 0 <= p < q < |Fired(items)| && Fired(items)[p] == items[i] && Fired(items)[q] == items[j]
  {
    var front, back := items[..j], items[j..];
    assert items == front + back;
    FiredAppend(front, back);
    assert items[i] in front;
    FiredExactly(front);
    var p :| 0 <= p < |Fired(front)| && Fired(front)[p] == items[i];
    assert back == [items[j]] + back[1..];
    FiredAppend([items[j]], back[1..]);
    assert Fired([items[j]]) == [items[j]];
    var q := |Fired(front)|;
    assert Fired(items)[p] == items[i] && Fired(items)[q] == items[j];
  }

  lemma UniqueTicketsSnoc(items: seq<QueueItem>, z: QueueItem)
    requires UniqueTickets(items)
    requires forall y :: y in items ==> y.ticket != z.ticket
    ensures UniqueTickets(items + [z])
  {
    var s := items + [z];
    forall i, j | 0 <= i < j < |s| ensures s[i].ticket != s[j].ticket {
      if j == |items| {
        assert s[i] in items;
      } else {
        assert s[i] == items[i] && s[j] == items[j];
      }
    }
  }

  /** A tick keeps tickets unique, so item identity survives it. */
  lemma {:induction false} SurvivorsUnique(items: seq<QueueItem>)
    requires UniqueTickets(items)
    ensures UniqueTickets(Survivors(items))
  {
    if items != [] {
      var front := items[..|items| - 1];
      var last := items[|items| - 1];
      assert UniqueTickets(front);
      SurvivorsUnique(front);
      if !Fires(last) {
        SurvivorsExactly(front);
        forall y | y in Survivors(front) ensures y.ticket != last.ticket {
          var x :| x in front && !Fires(x) && y == CountedDown(x);
          var i :| 0 <= i < |front| && front[i] == x;
          assert items[i] == x;
        }
        UniqueTicketsSnoc(Survivors(front), CountedDown(last));
      }
    }
  }

  // ---------------------------------------------------------------------------
  // The decrement pass and the removal pass of a tick produce the survivors

  lemma {:induction false} WithoutAppend(a: seq<QueueItem>, b: seq<QueueItem>, tickets: seq<nat>)
    ensures Without(a + b, tickets) == Without(a, tickets) + Without(b, tickets)
  {
    if b != [] {
      var b' := b[..|b| - 1];
      assert (a + b)[..|a + b| - 1] == a + b';
      WithoutAppend(a, b', tickets);
    } else {
      assert a + b == a;
    }
  }

  lemma {:induction false} WithoutMembers(items: seq<QueueItem>, tickets: seq<nat>)
    ensures forall y :: y in Without(items, tickets) <==> y in items && y.ticket !in tickets
  {
    if items != [] {
      var front := items[..|items| - 1];
      WithoutMembers(front, tickets);
      assert items == front + [items[|items| - 1]];
    }
  }

  /** Two ticket lists that agree on every ticket present remove the same items. */
  lemma {:induction false} WithoutAgree(items: seq<QueueItem>, d: seq<nat>, e: seq<nat>)
    requires forall i :: 0 <= i < |items| ==> (items[i].ticket in d <==> items[i].ticket in e)
    ensures Without(items, d) == Without(items, e)
  {
    if items != [] {
      var front := items[..|items| - 1];
      assert forall i :: 0 <= i < |front| ==> front[i] == items[i];
      WithoutAgree(front, d, e);
    }
  }

  lemma WithoutNothing(items: seq<QueueItem>, tickets: seq<nat>)
    requires forall i :: 0 <= i < |items| ==> items[i].ticket !in tickets
    ensures Without(items, tickets) == items
  {
    WithoutAgree(items, tickets, []);
    WithoutNone(items);
  }

  lemma {:induction false} WithoutNone(items: seq<QueueItem>)
    ensures Without(items, []) == items
  {
    if items != [] {
      WithoutNone(items[..|items| - 1]);
    }
  }

  lemma {:induction false} WithoutTwice(items: seq<QueueItem>, d: seq<nat>, t: nat)
    ensures Without(Without(items, d), [t]) == Without(items, d + [t])
  {
    if items != [] {
      var front := items[..|items| - 1];
      var last := items[|items| - 1];
      WithoutTwice(front, d, t);
      var inner := if last.ticket in d then [] else [last];
      WithoutAppend(Without(front, d), inner, [t]);
      if last.ticket !in d {
        assert [last][..0] == [];
      }
    }
  }

  lemma WithoutUnique(items: seq<QueueItem>, tickets: seq<nat>)
    requires UniqueTickets(items)
    ensures UniqueTickets(Without(items, tickets))
    decreases |items|
  {
    if items != [] {
      var front := items[..|items| - 1];
      var last := items[|items| - 1];
      assert UniqueTickets(front);
      WithoutUnique(front, tickets);
      if last.ticket !in tickets {
        WithoutMembers(front, tickets);
        forall y | y in Without(front, tickets) ensures y.ticket != last.ticket {
          var i :| 0 <= i < |front| && front[i] == y;
          assert items[i] == y;
        }
        UniqueTicketsSnoc(Without(front, tickets), last);
      }
    }
  }

  /** Removing at the (only) index holding ticket `t` is removing ticket `t`. */
  lemma {:induction false} RemoveAtIsWithout(items: seq<QueueItem>, k: nat)
    requires k < |items|
    requires forall i :: 0 <= i < |items| && i != k ==> items[i].ticket != items[k].ticket
    ensures items[..k] + items[k + 1..] == Without(items, [items[k].ticket])
  {
    var t := items[k].ticket;
    var front, last := items[..|items| - 1], items[|items| - 1];
    if k == |items| - 1 {
      forall i | 0 <= i < |front| ensures front[i].ticket !in [t] {
        assert front[i] == items[i];
      }
      WithoutNothing(front, [t]);
      assert items[..k] + items[k + 1..] == front;
    } else {
      assert front[k] == items[k];
      forall i | 0 <= i < |front| && i != k ensures front[i].ticket != front[k].ticket {
        assert front[i] == items[i];
      }
      RemoveAtIsWithout(front, k);
      assert items[..k] + items[k + 1..] == front[..k] + front[k + 1..] + [last];
    }
  }

  /** One step of the removal pass of a tick: looking ticket `t` up and
      removing it where found deletes ticket `t`. */
  lemma RemovalStep(counted: seq<QueueItem>, d: seq<nat>, t: nat)
    requires UniqueTickets(counted)
    ensures var current := Without(counted, d);
      match IndexOf(Tickets(current), t)
      case Some(k) => k < |current| && current[..k] + current[k + 1..] == Without(counted, d + [t])
      case None => current == Without(counted, d + [t])
  {
    var current := Without(counted, d);
    WithoutUnique(counted, d);
    WithoutTwice(counted, d, t);
    match IndexOf(Tickets(current), t)
    case Some(k) =>
      assert forall i :: 0 <= i < |current| && i != k ==> current[i].ticket != current[k].ticket;
      RemoveAtIsWithout(current, k);
    case None =>
      assert forall a :: 0 <= a < |current| ==> Tickets(current)[a] == current[a].ticket;
      WithoutNothing(current, [t]);
  }

  /** Counting every item down and then deleting the tickets of the items that
      were at 0 leaves exactly the survivors. */
  lemma CountdownThenDelete(items: seq<QueueItem>)
    requires UniqueTickets(items)
    ensures Without(Countdown(items), Tickets(Fired(items))) == Survivors(items)
  {
    FiredTicketsExactly(items);
    CountdownThenDeleteMarked(items, Tickets(Fired(items)));
  }

  /** Deleting, after the decrement pass, any ticket list that names exactly
      the items that were at 0 leaves the survivors. */
  lemma {:induction false} CountdownThenDeleteMarked(items: seq<QueueItem>, tickets: seq<nat>)
    requires forall i :: 0 <= i < |items| ==> (items[i].ticket in tickets <==> Fires(items[i]))
    ensures Without(Countdown(items), tickets) == Survivors(items)
  {
    if items != [] {
      var front := items[..|items| - 1];
      assert forall i :: 0 <= i < |front| ==> front[i] == items[i];
      CountdownThenDeleteMarked(front, tickets);
      assert Countdown(items)[..|items| - 1] == Countdown(front);
    }
  }

  /** With unique tickets, a ticket is among those of the fired items exactly
      when its item fires. */
  lemma FiredTicketsExactly(items: seq<QueueItem>)
    requires UniqueTickets(items)
    ensures forall i :: 0 <= i < |items| ==> (items[i].ticket in Tickets(Fired(items)) <==> Fires(items[i]))
  {
    var fired := Fired(items);
    FiredExactly(items);
    forall i | 0 <= i < |items|
      ensures items[i].ticket in Tickets(fired) <==> Fires(items[i])
    {
      if Fires(items[i]) {
        assert items[i] in fired;
        var j :| 0 <= j < |fired| && fired[j] == items[i];
        assert Tickets(fired)[j] == items[i].ticket;
      }
      if items[i].ticket in Tickets(fired) {
        var j :| 0 <= j < |fired| && Tickets(fired)[j] == items[i].ticket;
        assert fired[j] in items;
        var m :| 0 <= m < |items| && items[m] == fired[j];
        assert m == i;
      }
    }
  }

  // ---------------------------------------------------------------------------
  // When an item fires across a sequence of ticks

  /** A whole countdown `n` reads `n - k` after `k <= n` passes. */
  lemma {:induction false} CountdownFromWhole(item: QueueItem, n: nat, k: nat)
    requires item.timeout == Some(n as real) && k <= n
    ensures CountedDownN(item, k) == item.(timeout := Some((n - k) as real))
  {
    if k > 0 {
      CountdownFromWhole(item, n, k - 1);
    }
  }

  lemma WholeNumber(k: nat)
    ensures IsWhole(k as real)
  {
    assert (k as real).Floor == k;
  }

  /** A negative or fractional countdown never reaches 0: it only goes down by 1 per pass. */
  lemma {:induction false} CountdownFromNonWhole(item: QueueItem, k: nat)
    requires item.timeout.Some? && !IsWhole(item.timeout.value)
    ensures CountedDownN(item, k) == item.(timeout := Some(item.timeout.value - k as real))
    ensures !Fires(CountedDownN(item, k))
  {
    if k > 0 {
      CountdownFromNonWhole(item, k - 1);
    }
    WholeNumber(k);
  }

  /** An item that has not fired during `k` ticks is still queued, counted
      down `k` times, and is the only item with its ticket. */
  lemma {:induction false} TrackItem(items: seq<QueueItem>, x: QueueItem, k: nat)
    requires UniqueTickets(items) && x in items
    requires forall j :: 0 <= j < k ==> !Fires(CountedDownN(x, j))
    ensures UniqueTickets(AfterTicks(items, k))
    ensures CountedDownN(x, k) in AfterTicks(items, k)
    ensures forall y :: y in AfterTicks(items, k) && y.ticket == x.ticket ==> y == CountedDownN(x, k)
  {
    if k > 0 {
      TrackItem(items, x, k - 1);
      var before := AfterTicks(items, k - 1);
      SurvivorsUnique(before);
      SurvivorsExactly(before);
      forall y | y in AfterTicks(items, k) && y.ticket == x.ticket
        ensures y == CountedDownN(x, k)
      {
        var z :| z in before && !Fires(z) && y == CountedDown(z);
        assert z.ticket == y.ticket;
        assert z == CountedDownN(x, k - 1);
      }
    }
    assert CountedDownN(x, k).ticket == x.ticket by {
      TicketKept(x, k);
    }
  }

  lemma {:induction false} TicketKept(x: QueueItem, k: nat)
    ensures CountedDownN(x, k).ticket == x.ticket && CountedDownN(x, k).completion == x.completion
  {
    if k > 0 {
      TicketKept(x, k - 1);
    }
  }

  /** With the equality test of a tick, an item queued with a whole countdown
      `n` survives the first `n` ticks and is completed on tick `n + 1`. */
  lemma FiresOnTickAfterCountdown(items: seq<QueueItem>, x: QueueItem, n: nat)
    requires UniqueTickets(items) && x in items && x.timeout == Some(n as real)
    ensures forall k :: 0 <= k <= n ==> CountedDownN(x, k) in AfterTicks(items, k)
    ensures forall k, y :: 0 <= k < n && y in Fired(AfterTicks(items, k)) ==> y.ticket != x.ticket
    ensures CountedDownN(x, n) in Fired(AfterTicks(items, n))
    ensures forall y :: y in AfterTicks(items, n + 1) ==> y.ticket != x.ticket
  {
    forall j | 0 <= j < n ensures !Fires(CountedDownN(x, j)) {
      CountdownFromWhole(x, n, j);
    }
    forall k | 0 <= k <= n ensures CountedDownN(x, k) in AfterTicks(items, k) {
      TrackItem(items, x, k);
    }
    forall k, y | 0 <= k < n && y in Fired(AfterTicks(items, k)) ensures y.ticket != x.ticket {
      TrackItem(items, x, k);
      FiredExactly(AfterTicks(items, k));
    }
    TrackItem(items, x, n);
    CountdownFromWhole(x, n, n);
    FiredExactly(AfterTicks(items, n));
    var before := AfterTicks(items, n);
    SurvivorsExactly(before);
    TicketKept(x, n);
    forall y | y in AfterTicks(items, n + 1) ensures y.ticket != x.ticket {
      var z :| z in before && !Fires(z) && y == CountedDown(z);
      assert z.ticket == y.ticket;
    }
  }

  /** An item queued with a negative or fractional countdown is never completed by a tick. */
  lemma NeverFiresUnlessWhole(items: seq<QueueItem>, x: QueueItem, k: nat)
    requires UniqueTickets(items) && x in items
    requires x.timeout.Some? && !IsWhole(x.timeout.value)
    ensures CountedDownN(x, k) in AfterTicks(items, k)
    ensures forall y :: y in Fired(AfterTicks(items, k)) ==> y.ticket != x.ticket
  {
    forall j | 0 <= j < k ensures !Fires(CountedDownN(x, j)) {
      CountdownFromNonWhole(x, j);
    }
    TrackItem(items, x, k);
    CountdownFromNonWhole(x, k);
    FiredExactly(AfterTicks(items, k));
  }

  // ---------------------------------------------------------------------------
  // Facts the tick loop uses

  lemma FirstPassStep(items: seq<QueueItem>, i: nat, location: Option<Location>)
    requires i < |items|
    ensures var ext := if Fires(items[i]) then [items[i]] else [];
      && Fired(items[..i + 1]) == Fired(items[..i]) + ext
      && Tickets(Fired(items[..i + 1])) == Tickets(Fired(items[..i])) + Tickets(ext)
      && Firings(items[..i + 1], location) == Firings(items[..i], location) + AllFirings(ext, location)
  {
    assert items[..i + 1][..i] == items[..i];
    var ext := if Fires(items[i]) then [items[i]] else [];
    assert Tickets(Fired(items[..i]) + ext) == Tickets(Fired(items[..i])) + Tickets(ext);
    assert AllFirings(Fired(items[..i]) + ext, location)
      == AllFirings(Fired(items[..i]), location) + AllFirings(ext, location);
  }

  lemma CountdownUnique(items: seq<QueueItem>)
    requires UniqueTickets(items)
    ensures UniqueTickets(Countdown(items))
  {
    var counted := Countdown(items);
    forall a, b | 0 <= a < b < |counted| ensures counted[a].ticket != counted[b].ticket {
      assert counted[a].ticket == items[a].ticket && counted[b].ticket == items[b].ticket;
    }
  }

  lemma SurvivorsValid(items: seq<QueueItem>, bound: nat)
    requires UniqueTickets(items) && forall i :: 0 <= i < |items| ==> items[i].ticket < bound
    ensures UniqueTickets(Survivors(items))
    ensures forall i :: 0 <= i < |Survivors(items)| ==> Survivors(items)[i].ticket < bound
  {
    SurvivorsUnique(items);
    SurvivorsBounded(items, bound);
  }

  lemma {:induction false} SurvivorsBounded(items: seq<QueueItem>, bound: nat)
    requires forall i :: 0 <= i < |items| ==> items[i].ticket < bound
    ensures forall i :: 0 <= i < |Survivors(items)| ==> Survivors(items)[i].ticket < bound
  {
    if items != [] {
      var front := items[..|items| - 1];
      assert forall i :: 0 <= i < |front| ==> front[i] == items[i];
      SurvivorsBounded(front, bound);
    }
  }

  /** Appending a completion not yet queued, below the bound, keeps queued
      completions distinct and below it. */
  lemma CompletionsBelowSnoc(items: seq<QueueItem>, z: QueueItem, bound: nat)
    requires CompletionsBelow(items, bound) && z.completion < bound
    requires forall i :: 0 <= i < |items| ==> items[i].completion != z.completion
    ensures CompletionsBelow(items + [z], bound)
  {
    var s := items + [z];
    forall i, j | 0 <= i < j < |s| ensures s[i].completion != s[j].completion {
      assert s[i] == items[i];
    }
  }

  /** A tick keeps queued completions distinct and below the bound. */
  lemma {:induction false} SurvivorsCompletions(items: seq<QueueItem>, bound: nat)
    requires CompletionsBelow(items, bound)
    ensures CompletionsBelow(Survivors(items), bound)
  {
    if items != [] {
      var front := items[..|items| - 1];
      var last := items[|items| - 1];
      assert forall i :: 0 <= i < |front| ==> front[i] == items[i];
      SurvivorsCompletions(front, bound);
      if !Fires(last) {
        SurvivorsExactly(front);
        forall i | 0 <= i < |Survivors(front)| ensures Survivors(front)[i].completion != last.completion {
          var y := Survivors(front)[i];
          assert y in Survivors(front);
          var x :| x in front && !Fires(x) && y == CountedDown(x);
          var k :| 0 <= k < |front| && front[k] == x;
          assert items[k] == x;
        }
        CompletionsBelowSnoc(Survivors(front), CountedDown(last), bound);
      }
    }
  }

  // ---------------------------------------------------------------------------
  // The queue object

  class LocationCompletionQueue {
    var queueItems: seq<QueueItem>
    /** `timer != nil` in the source. */
    var timerActive: bool
    /** The identity the next pushed item receives. */
    var nextTicket: nat
    /** Every completion call made so far, in order. */
    var fired: seq<Firing>

    /** Item identities are distinct, and the timer only runs while there is an item to time. */
    ghost predicate Valid()
      reads this
    {
      ItemsValid() && (timerActive ==> queueItems != [])
    }

    ghost predicate ItemsValid()
      reads this
    {
      && UniqueTickets(queueItems)
      && (forall i :: 0 <= i < |queueItems| ==> queueItems[i].ticket < nextTicket)
    }

    constructor ()
      ensures Valid()
      ensures queueItems == [] && !IsActive() && fired == [] && nextTicket == 0
    {
      queueItems := [];
      timerActive := false;
      nextTicket := 0;
      fired := [];
    }

    function IsActive(): (r: bool)
      reads this
      ensures r <==> timerActive
    {
      timerActive
    }

    method PushCompletionItem(timeout: Option<real>, completion: CompletionId)
      requires Valid()
      modifies this
      ensures Valid()
      ensures queueItems == old(queueItems) + [QueueItem(old(nextTicket), completion, timeout)]
      ensures IsActive()
      ensures fired == old(fired) && nextTicket == old(nextTicket) + 1
    {
      UniqueTicketsSnoc(queueItems, QueueItem(nextTicket, completion, timeout));
      queueItems := queueItems + [QueueItem(nextTicket, completion, timeout)];
      nextTicket := nextTicket + 1;
      StartTimerIfNeeded();
    }

    method StartTimerIfNeeded()
      requires Valid()
      modifies this
      ensures Valid()
      ensures IsActive() == (old(IsActive()) || queueItems != [])
      ensures queueItems == old(queueItems) && fired == old(fired) && nextTicket == old(nextTicket)
    {
      if timerActive || |queueItems| == 0 {
        return;
      }
      timerActive := true;
    }

    method InvalidateTimer()
      requires ItemsValid()
      modifies this
      ensures Valid() && !IsActive()
      ensures queueItems == old(queueItems) && fired == old(fired) && nextTicket == old(nextTicket)
    {
      timerActive := false;
    }

    /** One timer tick. `lastKnownLocation` is read from the manager in the
        source; `emptied` reports that the manager's stop check is due. */
    method Tick(lastKnownLocation: Option<Location>) returns (emptied: bool)
      requires Valid()
      modifies this
      ensures Valid()
      ensures queueItems == Survivors(old(queueItems))
      ensures fired == old(fired) + Firings(old(queueItems), lastKnownLocation)
      ensures emptied <==> queueItems == []
      ensures IsActive() == (old(IsActive()) && !emptied)
      ensures nextTicket == old(nextTicket)
    {
      ghost var items := queueItems;
      var toDelete := CountDownPass(lastKnownLocation);
      CountdownUnique(items);
      RemovePass(toDelete);
      CountdownThenDelete(items);
      SurvivorsValid(items, nextTicket);
      if |queueItems| == 0 {
        InvalidateTimer();
        emptied := true;
      } else {
        emptied := false;
      }
    }

    /** The first loop of a tick: completes the items at 0 with the last known
        location, lowers every other countdown in place, and lists the
        identities of the completed items. */
    method CountDownPass(lastKnownLocation: Option<Location>) returns (toDelete: seq<nat>)
      modifies this
      ensures queueItems == Countdown(old(queueItems))
      ensures toDelete == Tickets(Fired(old(queueItems)))
      ensures fired == old(fired) + Firings(old(queueItems), lastKnownLocation)
      ensures timerActive == old(timerActive) && nextTicket == old(nextTicket)
    {
      var items := queueItems;
      var counted := items;
      var calls := fired;
      toDelete := [];
      var i := 0;
      while i < |items|
        invariant 0 <= i <= |items| == |counted|
        invariant forall k :: 0 <= k < i ==> counted[k] == CountedDown(items[k])
        invariant forall k :: i <= k < |items| ==> counted[k] == items[k]
        invariant toDelete == Tickets(Fired(items[..i]))
        invariant calls == fired + Firings(items[..i], lastKnownLocation)
        invariant unchanged(this)
      {
        var item := counted[i];
        FirstPassStep(items, i, lastKnownLocation);
        if item.timeout == None {
        } else if item.timeout.value == 0.0 {
          calls := calls + [Firing(item.completion, lastKnownLocation)];
          toDelete := toDelete + [item.ticket];
        } else {
          counted := counted[i := item.(timeout := Some(item.timeout.value - 1.0))];
        }
        i := i + 1;
      }
      assert items[..i] == items;
      assert counted == Countdown(items);
      queueItems := counted;
      fired := calls;
    }

    /** The second loop of a tick: each listed identity is looked up and the
        item holding it, if any, is removed. */
    method RemovePass(toDelete: seq<nat>)
      requires UniqueTickets(queueItems)
      modifies this
      ensures queueItems == Without(old(queueItems), toDelete)
      ensures fired == old(fired) && timerActive == old(timerActive) && nextTicket == old(nextTicket)
    {
      ghost var counted := queueItems;
      WithoutNone(counted);
      var j := 0;
      while j < |toDelete|
        invariant 0 <= j <= |toDelete|
        invariant queueItems == Without(counted, toDelete[..j])
        invariant fired == old(fired) && timerActive == old(timerActive) && nextTicket == old(nextTicket)
      {
        var t := toDelete[j];
        assert toDelete[..j + 1] == toDelete[..j] + [t];
        RemovalStep(counted, toDelete[..j], t);
        var index := IndexOf(Tickets(queueItems), t);
        if index.Some? {
          var k := index.value;
          queueItems := queueItems[..k] + queueItems[k + 1..];
        }
        j := j + 1;
      }
      assert toDelete[..j] == toDelete;
    }

    /** Completes every queued item, in order, with a sample that passed the
        manager's accuracy check, and empties the queue. */
    method CompleteWithLocation(location: Location)
      requires Valid()
      modifies this
      ensures Valid()
      ensures fired == old(fired) + AllFirings(old(queueItems), Some(location))
      ensures queueItems == [] && !IsActive() && nextTicket == old(nextTicket)
    {
      InvalidateTimer();
      var i := 0;
      while i < |queueItems|
        invariant 0 <= i <= |queueItems|
        invariant queueItems == old(queueItems) && !timerActive && nextTicket == old(nextTicket)
        invariant fired == old(fired) + AllFirings(queueItems[..i], Some(location))
      {
        assert AllFirings(queueItems[..i + 1], Some(location))
          == AllFirings(queueItems[..i], Some(location)) + [Firing(queueItems[i].completion, Some(location))];
        fired := fired + [Firing(queueItems[i].completion, Some(location))];
        i := i + 1;
      }
      assert queueItems[..i] == queueItems;
      queueItems := [];
    }
  }
}
