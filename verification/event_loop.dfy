/** The reactor of async_event_loop.cpp: a list of pollables, polled
    together, each ready one notified once per tick. The `poll()` call, the
    clock and what each `notify` does are inputs of a tick. */
module EventLoop {
  import opened Base

  /** What `process_pollable` learns from one `notify`: it threw, or it
      returned, leaving the pollable in state `after`, with `is_done()` then
      answering `done`, and handing back a successor (`None` for null). */
  datatype Outcome<P> = Threw(error: Exception) | Returned(after: P, done: bool, next: Option<P>)

  /** Everything a tick needs from outside: whether `poll()` failed, the
      `revents` it reported for each index of the snapshot, the outcome of
      notifying the pollable at each index, and `past_deadline(now)`. */
  datatype TickInput<!P> = TickInput(
    pollFailed: bool,
    revents: nat -> int,
    outcomes: nat -> Outcome<P>,
    pastDeadline: P -> bool)

  /** `register_pollable`: appends at the end. */
  function RegisterPollable<P>(pollables: seq<P>, p: P): (r: seq<P>)
    ensures |r| == |pollables| + 1 && r[..|pollables|] == pollables && r[|pollables|] == p
  {
    pollables + [p]
  }

  /** `process_pollable` applied to the list of pollables registered so far
      this tick: after a normal return the pollable goes back in unless it
      is done, then its successor, if any; after a throw neither does. */
  function ProcessPollable<P>(registered: seq<P>, outcome: Outcome<P>): seq<P> {
    match outcome
    case Threw(_) => registered
    case Returned(after, done, next) =>
      var kept := if !done then RegisterPollable(registered, after) else registered;
      if next.Some? then RegisterPollable(kept, next.value) else kept
  }

  /** What one notification adds, on its own. */
  function Contribution<P>(outcome: Outcome<P>): seq<P> {
    ProcessPollable([], outcome)
  }

  /** A notification that threw registers nothing; one that returned
      registers the pollable again exactly when it is not done, and its
      successor after it exactly when there is one. */
  lemma ContributionShape<P>(outcome: Outcome<P>)
    ensures outcome.Threw? ==> Contribution(outcome) == []
    ensures outcome.Returned? ==>
              |Contribution(outcome)| == (if outcome.done then 0 else 1) + (if outcome.next.Some? then 1 else 0)
    ensures outcome.Returned? && !outcome.done ==> Contribution(outcome)[0] == outcome.after
    ensures outcome.Returned? && outcome.next.Some? ==>
              Contribution(outcome)[|Contribution(outcome)| - 1] == outcome.next.value
  {
  }

  /** Processing only ever appends, and appends exactly the notification's
      own contribution. */
  lemma ProcessAppends<P>(registered: seq<P>, outcome: Outcome<P>)
    ensures ProcessPollable(registered, outcome) == registered + Contribution(outcome)
  {
  }

  // ---------------------------------------------------------------------
  // One tick, declaratively
  // ---------------------------------------------------------------------

  /** The pollables among the first `k` of the snapshot that `poll()`
      reported nothing for, in snapshot order. */
  function Skipped<P>(snapshot: seq<P>, revents: nat -> int, k: nat): (r: seq<P>)
    requires k <= |snapshot|
    ensures |r| <= k
  {
    if k == 0 then []
    else Skipped(snapshot, revents, k - 1) + (if revents(k - 1) == 0 then [snapshot[k - 1]] else [])
  }

  /** The skipped pollables that are not yet past their deadline. */
  function Kept<P>(skipped: seq<P>, pastDeadline: P -> bool): (r: seq<P>)
    ensures |r| <= |skipped|
  {
    if skipped == [] then []
    else Kept(skipped[..|skipped| - 1], pastDeadline) +
         (if !pastDeadline(skipped[|skipped| - 1]) then [skipped[|skipped| - 1]] else [])
  }

  /** Everything registered while notifying the first `k` pollables of the
      snapshot, in the order it was registered. */
  function Registered<P>(revents: nat -> int, outcomes: nat -> Outcome<P>, k: nat): seq<P> {
    if k == 0 then []
    else Registered(revents, outcomes, k - 1) +
         (if revents(k - 1) != 0 then Contribution(outcomes(k - 1)) else [])
  }

  /** The indices of the first `k` that get notified. */
  function Notified(revents: nat -> int, k: nat): seq<nat> {
    if k == 0 then [] else Notified(revents, k - 1) + (if revents(k - 1) != 0 then [k - 1] else [])
  }

  /** Every pollable `poll()` reported something for is notified, exactly
      once, in snapshot order, and no other is. */
  lemma {:induction false} NotifiedExactlyOnce(revents: nat -> int, k: nat)
    ensures forall j :: 0 <= j < |Notified(revents, k)| ==>
              Notified(revents, k)[j] < k && revents(Notified(revents, k)[j]) != 0
    ensures forall i :: 0 <= i < k && revents(i) != 0 ==> i in Notified(revents, k)
    ensures forall j, j' :: 0 <= j < j' < |Notified(revents, k)| ==> Notified(revents, k)[j] < Notified(revents, k)[j']
  {
    if k > 0 {
      NotifiedExactlyOnce(revents, k - 1);
    }
  }

  /** The list a tick leaves behind: the skipped pollables still within
      their deadline, in snapshot order, then everything registered during
      the tick, in registration order. A failed `poll()` throws
      `runtime_error` out of the loop. */
  function Tick<P>(snapshot: seq<P>, input: TickInput<P>): Result<seq<P>> {
    if input.pollFailed then Err(RuntimeError)
    else Ok(Kept(Skipped(snapshot, input.revents, |snapshot|), input.pastDeadline) +
            Registered(input.revents, input.outcomes, |snapshot|))
  }

  // ---------------------------------------------------------------------
  // One tick, as the loop body of `AsyncEventLoop::loop` computes it
  // ---------------------------------------------------------------------

  /** One more index of the snapshot, for the three accumulations. */
  lemma TickStep<P>(snapshot: seq<P>, revents: nat -> int, outcomes: nat -> Outcome<P>, i: nat)
    requires i < |snapshot|
    ensures revents(i) != 0 ==>
              Registered(revents, outcomes, i + 1) == ProcessPollable(Registered(revents, outcomes, i), outcomes(i)) &&
              Skipped(snapshot, revents, i + 1) == Skipped(snapshot, revents, i) &&
              Notified(revents, i + 1) == Notified(revents, i) + [i]
    ensures revents(i) == 0 ==>
              Registered(revents, outcomes, i + 1) == Registered(revents, outcomes, i) &&
              Skipped(snapshot, revents, i + 1) == Skipped(snapshot, revents, i) + [snapshot[i]] &&
              Notified(revents, i + 1) == Notified(revents, i)
  {
    ProcessAppends(Registered(revents, outcomes, i), outcomes(i));
  }

  /** The first `for` loop of `loop()`: notify each pollable `poll()`
      reported something for, in snapshot order, and set the others
      aside. */
  method NotifyReady<P>(snapshot: seq<P>, input: TickInput<P>)
    returns (registered: seq<P>, skipped: seq<P>, notified: seq<nat>)
    ensures registered == Registered(input.revents, input.outcomes, |snapshot|)
    ensures skipped == Skipped(snapshot, input.revents, |snapshot|)
    ensures notified == Notified(input.revents, |snapshot|)
  {
    registered, skipped, notified := [], [], [];
    var revents, outcomes := input.revents, input.outcomes;
    for i := 0 to |snapshot|
      invariant registered == Registered(revents, outcomes, i)
      invariant skipped == Skipped(snapshot, revents, i)
      invariant notified == Notified(revents, i)
    {
      TickStep(snapshot, revents, outcomes, i);
      if revents(i) != 0 {
        registered := ProcessPollable(registered, outcomes(i));
        notified := notified + [i];
      } else {
        skipped := skipped + [snapshot[i]];
      }
    }
  }

  /** The second `for` loop: keep the set-aside pollables not yet past
      their deadline, in order. */
  method DropExpired<P>(skipped: seq<P>, pastDeadline: P -> bool) returns (live: seq<P>)
    ensures live == Kept(skipped, pastDeadline)
  {
    live := [];
    for i := 0 to |skipped|
      invariant live == Kept(skipped[..i], pastDeadline)
    {
      assert skipped[..i + 1][..i] == skipped[..i];
      if !pastDeadline(skipped[i]) {
        live := live + [skipped[i]];
      }
    }
    assert skipped[..|skipped|] == skipped;
  }

  /** The body of the `while` loop in `loop()`: notify or set aside, drop
      the expired, then append what was registered. Returns the new list
      and the indices notified. */
  method RunTick<P>(snapshot: seq<P>, input: TickInput<P>) returns (next: Result<seq<P>>, notified: seq<nat>)
    ensures next == Tick(snapshot, input)
    ensures next.Ok? ==> notified == Notified(input.revents, |snapshot|)
    ensures next.Err? ==> notified == []
  {
    if input.pollFailed {
      return Err(RuntimeError), [];
    }
    var registered, skipped;
    registered, skipped, notified := NotifyReady(snapshot, input);
    var live := DropExpired(skipped, input.pastDeadline);
    next := Ok(live + registered);
  }

  // ---------------------------------------------------------------------
  // Properties of a tick
  // ---------------------------------------------------------------------

  /** Deadlines are consulted only for pollables `poll()` reported nothing
      for: two clocks that agree on those give the same tick. */
  lemma {:induction false} KeptDependsOnlyOnSkipped<P>(skipped: seq<P>, pd1: P -> bool, pd2: P -> bool)
    requires forall i :: 0 <= i < |skipped| ==> pd1(skipped[i]) == pd2(skipped[i])
    ensures Kept(skipped, pd1) == Kept(skipped, pd2)
    decreases |skipped|
  {
    if skipped != [] {
      KeptDependsOnlyOnSkipped(skipped[..|skipped| - 1], pd1, pd2);
    }
  }

  lemma {:induction false} SkippedMembers<P>(snapshot: seq<P>, revents: nat -> int, k: nat, p: P)
    requires k <= |snapshot|
    ensures p in Skipped(snapshot, revents, k) <==> exists i :: 0 <= i < k && revents(i) == 0 && snapshot[i] == p
  {
    if k > 0 {
      SkippedMembers(snapshot, revents, k - 1, p);
    }
  }

  lemma NotifiedNeverDeadlineChecked<P>(snapshot: seq<P>, input: TickInput<P>, pd: P -> bool)
    requires forall i :: 0 <= i < |snapshot| && input.revents(i) == 0 ==> input.pastDeadline(snapshot[i]) == pd(snapshot[i])
    ensures Tick(snapshot, input) == Tick(snapshot, input.(pastDeadline := pd))
  {
    var skipped := Skipped(snapshot, input.revents, |snapshot|);
    forall j | 0 <= j < |skipped|
      ensures input.pastDeadline(skipped[j]) == pd(skipped[j])
    {
      SkippedMembers(snapshot, input.revents, |snapshot|, skipped[j]);
    }
    KeptDependsOnlyOnSkipped(skipped, input.pastDeadline, pd);
  }

  /** A pollable whose `notify` threw is dropped exactly as one that
      returned done without a successor: with `alt` the same outcomes but
      for that one, what the tick registers is the same either way. */
  lemma {:induction false} ThrowIsDone<P>(revents: nat -> int, outcomes: nat -> Outcome<P>, alt: nat -> Outcome<P>,
                                         k: nat, i: nat, after: P)
    requires i < k && outcomes(i).Threw? && alt(i) == Returned(after, true, None)
    requires forall j: nat :: j != i ==> alt(j) == outcomes(j)
    ensures Registered(revents, outcomes, k) == Registered(revents, alt, k)
  {
    if k - 1 > i {
      ThrowIsDone(revents, outcomes, alt, k - 1, i, after);
      assert alt(k - 1) == outcomes(k - 1);
    } else {
      RegisteredAgreeBelow(revents, outcomes, alt, i);
      ContributionShape(outcomes(i));
      ContributionShape(alt(i));
    }
  }

  lemma {:induction false} RegisteredAgreeBelow<P>(revents: nat -> int, o1: nat -> Outcome<P>, o2: nat -> Outcome<P>, k: nat)
    requires forall j: nat :: j < k ==> o1(j) == o2(j)
    ensures Registered(revents, o1, k) == Registered(revents, o2, k)
  {
    if k > 0 {
      RegisteredAgreeBelow(revents, o1, o2, k - 1);
    }
  }

  // ---------------------------------------------------------------------
  // The loop
  // ---------------------------------------------------------------------

  /** `AsyncEventLoop::loop`, for at most `fuel` ticks, with `env` giving the
      inputs of the tick that runs on a given list. It returns the list
      left when it stopped and the fuel left over. */
  function Run<P>(pollables: seq<P>, env: seq<P> -> TickInput<P>, fuel: nat): (r: (Result<seq<P>>, nat))
    ensures r.1 <= fuel
    ensures r.0.Ok? && r.1 > 0 ==> r.0.value == []
    ensures pollables == [] ==> r == (Ok([]), fuel)
    decreases fuel
  {
    if pollables == [] then (Ok([]), fuel)
    else if fuel == 0 then (Ok(pollables), 0)
    else
      match Tick(pollables, env(pollables))
      case Err(e) => (Err(e), fuel - 1)
      case Ok(next) => Run(next, env, fuel - 1)
  }
}
