/** `waitForElement(selector, timeout)` of the content script: a 500 ms interval polls the page
    for the selector; the promise resolves with the element on the first poll that finds it and
    is rejected once the elapsed time reaches the timeout. The page is abstracted to the sequence
    of what successive polls see. */
module ElementWaiter {
  import opened Wrappers

  /** `intervalTime`. */
  const IntervalTime: int := 500

  /** The default `timeout`. */
  const DefaultTimeout: int := 15000

  /** The promise: not yet settled, resolved with an element, or rejected with a message. */
  datatype Status<E> = Waiting | Resolved(element: E) | Rejected(message: string)

  /** The interval's state: `timeElapsed`, the promise and whether the interval still runs. */
  datatype Poll<E> = Poll(elapsed: int, status: Status<E>, active: bool)

  function Start<E>(): Poll<E> {
    Poll(0, Waiting, true)
  }

  function NotFoundMessage(selector: string): string {
    "Element not found: " + selector
  }

  /** A promise settles once: later calls of `resolve` or `reject` have no effect. */
  function Settle<E>(s: Status<E>, outcome: Status<E>): (r: Status<E>)
    ensures s.Waiting? ==> r == outcome
    ensures !s.Waiting? ==> r == s
  {
    if s.Waiting? then outcome else s
  }

  /** One run of the interval callback, given what `document.querySelector(selector)` returns.
      Clearing the interval stops later runs but not the rest of this one, so the elapsed time is
      still advanced and the timeout still tested after a success. */
  function Tick<E>(p: Poll<E>, seen: Option<E>, selector: string, timeout: int): Poll<E> {
    var found := if seen.Some? then Poll(p.elapsed, Settle(p.status, Resolved(seen.value)), false) else p;
    var elapsed := p.elapsed + IntervalTime;
    if elapsed >= timeout then Poll(elapsed, Settle(found.status, Rejected(NotFoundMessage(selector))), false)
    else Poll(elapsed, found.status, found.active)
  }

  /** The interval runs while it is active and the page still has polls to show. */
  function Run<E>(p: Poll<E>, polls: seq<Option<E>>, selector: string, timeout: int): Poll<E>
    decreases |polls|
  {
    if !p.active || polls == [] then p else Run(Tick(p, polls[0], selector, timeout), polls[1..], selector, timeout)
  }

  /** How many polls a search that never finds the element makes before it is rejected: the
      first multiple of 500 reaching the timeout, and at least one. */
  function PollLimit(timeout: int): (n: nat)
    ensures n >= 1 && IntervalTime * n >= timeout
    ensures n == 1 || IntervalTime * (n - 1) < timeout
  {
    if timeout <= IntervalTime then 1 else (timeout + IntervalTime - 1) / IntervalTime
  }

  /** The default timeout allows 30 polls, and the 10000 used for the search box 20. */
  lemma PollLimitsUsed()
    ensures PollLimit(DefaultTimeout) == 30
    ensures PollLimit(10000) == 20
  {
  }

  /** The interval runs exactly as long as the promise is unsettled. */
  lemma TickKeepsActiveIffWaiting<E>(p: Poll<E>, seen: Option<E>, selector: string, timeout: int)
    requires p.active <==> p.status.Waiting?
    ensures Tick(p, seen, selector, timeout).active <==> Tick(p, seen, selector, timeout).status.Waiting?
  {
  }

  lemma {:induction false} RunKeepsActiveIffWaiting<E>(p: Poll<E>, polls: seq<Option<E>>, selector: string, timeout: int)
    requires p.active <==> p.status.Waiting?
    ensures Run(p, polls, selector, timeout).active <==> Run(p, polls, selector, timeout).status.Waiting?
    decreases |polls|
  {
    if p.active && polls != [] {
      TickKeepsActiveIffWaiting(p, polls[0], selector, timeout);
      RunKeepsActiveIffWaiting(Tick(p, polls[0], selector, timeout), polls[1..], selector, timeout);
    }
  }

  /** A poll that finds the element resolves the promise, even when the same poll also reaches
      the timeout; nothing can change the outcome afterwards. */
  lemma {:induction false} ResolvesFrom<E>(polls: seq<Option<E>>, selector: string, timeout: int, j: nat, k: nat)
    requires k < |polls| && polls[k].Some?
    requires forall i :: 0 <= i < k ==> polls[i].None?
    requires j + k < PollLimit(timeout)
    ensures Run(Poll(IntervalTime * j, Waiting, true), polls, selector, timeout) ==
      Poll(IntervalTime * (j + k + 1), Resolved(polls[k].value), false)
    decreases k
  {
    var p: Poll<E> := Poll(IntervalTime * j, Waiting, true);
    if k > 0 {
      assert Tick(p, polls[0], selector, timeout) == Poll(IntervalTime * (j + 1), Waiting, true);
      ResolvesFrom(polls[1..], selector, timeout, j + 1, k - 1);
    } else {
      assert Run(p, polls, selector, timeout) == Run(Tick(p, polls[0], selector, timeout), polls[1..], selector, timeout);
    }
  }

  /** The search resolves with the element the first sighting shows, if that poll comes within
      the limit. */
  lemma ResolvesOnFirstSighting<E>(polls: seq<Option<E>>, selector: string, timeout: int, k: nat)
    requires k < |polls| && polls[k].Some?
    requires forall i :: 0 <= i < k ==> polls[i].None?
    requires k < PollLimit(timeout)
    ensures Run(Start(), polls, selector, timeout).status == Resolved(polls[k].value)
    ensures !Run(Start(), polls, selector, timeout).active
  {
    ResolvesFrom(polls, selector, timeout, 0, k);
  }

  lemma {:induction false} RejectsFrom<E>(polls: seq<Option<E>>, selector: string, timeout: int, j: nat)
    requires j < PollLimit(timeout) <= j + |polls|
    requires forall i :: 0 <= i < PollLimit(timeout) - j ==> polls[i].None?
    ensures Run(Poll(IntervalTime * j, Waiting, true), polls, selector, timeout) ==
      Poll(IntervalTime * PollLimit(timeout), Rejected(NotFoundMessage(selector)), false)
    decreases |polls|
  {
    var p: Poll<E> := Poll(IntervalTime * j, Waiting, true);
    assert polls[0].None?;
    if j + 1 < PollLimit(timeout) {
      assert Tick(p, polls[0], selector, timeout) == Poll(IntervalTime * (j + 1), Waiting, true);
      RejectsFrom(polls[1..], selector, timeout, j + 1);
    } else {
      assert Run(p, polls, selector, timeout) == Run(Tick(p, polls[0], selector, timeout), polls[1..], selector, timeout);
    }
  }

  /** A search whose first `PollLimit(timeout)` polls all miss is rejected with
      `Element not found: <selector>` when the elapsed time reaches the timeout, and the interval
      stops. */
  lemma RejectsAtTimeout<E>(polls: seq<Option<E>>, selector: string, timeout: int)
    requires PollLimit(timeout) <= |polls|
    requires forall i :: 0 <= i < PollLimit(timeout) ==> polls[i].None?
    ensures Run(Start(), polls, selector, timeout) ==
      Poll(IntervalTime * PollLimit(timeout), Rejected(NotFoundMessage(selector)), false)
  {
    RejectsFrom(polls, selector, timeout, 0);
  }

  lemma {:induction false} StallsFrom<E>(polls: seq<Option<E>>, selector: string, timeout: int, j: nat)
    requires j + |polls| < PollLimit(timeout)
    requires forall i :: 0 <= i < |polls| ==> polls[i].None?
    ensures Run(Poll(IntervalTime * j, Waiting, true), polls, selector, timeout) ==
      Poll(IntervalTime * (j + |polls|), Waiting, true)
    decreases |polls|
  {
    if polls != [] {
      var p: Poll<E> := Poll(IntervalTime * j, Waiting, true);
      assert Tick(p, polls[0], selector, timeout) == Poll(IntervalTime * (j + 1), Waiting, true);
      StallsFrom(polls[1..], selector, timeout, j + 1);
    }
  }

  /** Fewer missing polls than the limit leave the promise pending and the interval running. */
  lemma PendingBeforeTimeout<E>(polls: seq<Option<E>>, selector: string, timeout: int)
    requires |polls| < PollLimit(timeout)
    requires forall i :: 0 <= i < |polls| ==> polls[i].None?
    ensures Run(Start(), polls, selector, timeout) == Poll(IntervalTime * |polls|, Waiting, true)
  {
    StallsFrom(polls, selector, timeout, 0);
  }

  /** The closure of one `waitForElement` call: the mutable `timeElapsed`, the promise it settles
      and the interval it clears. */
  class Waiter<E> {
    var elapsed: int
    var status: Status<E>
    var active: bool
    const selector: string
    const timeout: int

    function State(): Poll<E>
      reads this
    {
      Poll(elapsed, status, active)
    }

    constructor (selector: string, timeout: int)
      ensures State() == Start()
      ensures this.selector == selector && this.timeout == timeout
    {
      this.selector := selector;
      this.timeout := timeout;
      elapsed := 0;
      status := Waiting;
      active := true;
    }

    /** The interval callback, given what the query returns. */
    method OnInterval(seen: Option<E>)
      requires active
      modifies this
      ensures State() == Tick(old(State()), seen, selector, timeout)
    {
      if seen.Some? {
        active := false;
        status := Settle(status, Resolved(seen.value));
      }
      elapsed := elapsed + IntervalTime;
      if elapsed >= timeout {
        active := false;
        status := Settle(status, Rejected(NotFoundMessage(selector)));
      }
    }
  }

  /** Drives the interval over what successive polls see, until the promise settles or the polls
      run out; the outcome is the one `Run` describes. */
  method WaitForElement<E>(selector: string, timeout: int, polls: seq<Option<E>>) returns (outcome: Status<E>)
    ensures outcome == Run(Start(), polls, selector, timeout).status
  {
    var w := new Waiter<E>(selector, timeout);
    var i := 0;
    while i < |polls| && w.active
      invariant 0 <= i <= |polls|
      invariant Run(w.State(), polls[i..], selector, timeout) == Run(Start(), polls, selector, timeout)
    {
      assert polls[i..][1..] == polls[i + 1..];
      w.OnInterval(polls[i]);
      i := i + 1;
    }
    outcome := w.status;
  }
}
