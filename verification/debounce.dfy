/** `debounce(func, wait)` over discrete time: a trailing-edge, single-shot
    timer. Each call cancels the pending timer and starts a new one; a
    timer whose deadline has been reached runs `func` once with the
    arguments of the call that started it. */
module Debounce {
  import opened Wrappers

  /** A scheduled `later` callback: when it is due and what it will pass. */
  datatype Timer<A> = Timer(deadline: int, args: A)

  /** The closure's state: the delay it was built with and the timer its
      `timeout` variable currently refers to, if that timer has not run. */
  datatype Debouncer<A> = Debouncer(wait: nat, pending: Option<Timer<A>>)

  /** What the page does to a debounced function: call it at a time with
      some arguments, or let the clock reach a time. */
  datatype Event<A> = Call(at: int, args: A) | Clock(at: int)

  /** One run of the wrapped function. */
  datatype Firing<A> = Firing(at: int, args: A)

  /** A freshly built debounced function: nothing scheduled. */
  function Fresh<A>(wait: nat): (d: Debouncer<A>)
    ensures d.wait == wait && d.pending == None
  {
    Debouncer(wait, None)
  }

  /** `executedFunction(...args)`: `clearTimeout` drops the pending timer
      and `setTimeout(later, wait)` schedules the only one left. */
  function Invoke<A>(d: Debouncer<A>, now: int, args: A): (e: Debouncer<A>)
    ensures e.wait == d.wait
    ensures e.pending.Some? && e.pending.value.deadline - now == d.wait && e.pending.value.args == args
  {
    d.(pending := Some(Timer(now + d.wait, args)))
  }

  /** The clock reaching `now`: a due timer runs `later`, which calls
      `func` with the stored arguments and leaves nothing pending; a timer
      not yet due, or no timer, does nothing. */
  function Advance<A>(d: Debouncer<A>, now: int): (r: (Debouncer<A>, Option<A>))
    ensures r.1.Some? <==> d.pending.Some? && d.pending.value.deadline <= now
    ensures r.1.Some? ==> r.1.value == d.pending.value.args && r.0 == d.(pending := None)
    ensures r.1.None? ==> r.0 == d
  {
    match d.pending
    case Some(t) =>
      if t.deadline <= now then (d.(pending := None), Some(t.args)) else (d, None)
    case None => (d, None)
  }

  /** The state and all runs of `func` observed so far. */
  datatype Trace<A> = Trace(state: Debouncer<A>, fired: seq<Firing<A>>)

  /** One more event: a call reschedules, a clock event may run `func`. */
  function Step<A>(t: Trace<A>, e: Event<A>): (u: Trace<A>)
  {
    match e
    case Call(at, args) => t.(state := Invoke(t.state, at, args))
    case Clock(at) =>
      var r := Advance(t.state, at);
      if r.1.Some? then Trace(r.0, t.fired + [Firing(at, r.1.value)]) else t
  }

  /** The trace after a sequence of events. */
  function Run<A>(d: Debouncer<A>, es: seq<Event<A>>): (t: Trace<A>)
  {
    if es == [] then Trace(d, []) else Step(Run(d, es[..|es| - 1]), es[|es| - 1])
  }

  /** The run over a non-empty prefix is one step past the run over the
      prefix one event shorter. */
  lemma RunPrefix<A>(d: Debouncer<A>, es: seq<Event<A>>, k: nat)
    requires 0 < k <= |es|
    ensures Run(d, es[..k]) == Step(Run(d, es[..k - 1]), es[k - 1])
  {
    assert es[..k][..k - 1] == es[..k - 1];
  }

  /** Number of calls among `es`. */
  function Calls<A>(es: seq<Event<A>>): nat
  {
    if es == [] then 0 else Calls(es[..|es| - 1]) + (if es[|es| - 1].Call? then 1 else 0)
  }

  /** The most recent call among `es`, if any. */
  function LastCall<A>(es: seq<Event<A>>): (c: Option<Event<A>>)
    ensures c.Some? ==> c.value.Call?
  {
    if es == [] then None
    else if es[|es| - 1].Call? then Some(es[|es| - 1])
    else LastCall(es[..|es| - 1])
  }

  /** The wait never changes, and `func` runs at most once per call: every
      run uses up a distinct call, and a pending timer holds one more. */
  lemma {:induction false} AtMostOneRunPerCall<A>(d: Debouncer<A>, es: seq<Event<A>>)
    ensures Run(d, es).state.wait == d.wait
    ensures |Run(d, es).fired| + (if Run(d, es).state.pending.Some? then 1 else 0)
            <= Calls(es) + (if d.pending.Some? then 1 else 0)
  {
    if es != [] {
      AtMostOneRunPerCall(d, es[..|es| - 1]);
    }
  }

  /** Without calls in between, a debounced function runs at most once. */
  lemma QuietRunsAtMostOnce<A>(d: Debouncer<A>, es: seq<Event<A>>)
    requires Calls(es) == 0
    ensures |Run(d, es).fired| <= 1
  {
    AtMostOneRunPerCall(d, es);
  }

  /** Starting from a fresh debouncer, a pending timer is always the one
      scheduled by the last call, due `wait` after it. */
  lemma {:induction false} PendingIsLastCall<A>(wait: nat, es: seq<Event<A>>)
    ensures var p := Run(Fresh<A>(wait), es).state.pending;
      p.Some? ==> LastCall(es).Some? && p.value == Timer(LastCall(es).value.at + wait, LastCall(es).value.args)
  {
    if es != [] {
      PendingIsLastCall(wait, es[..|es| - 1]);
      AtMostOneRunPerCall(Fresh<A>(wait), es[..|es| - 1]);
    }
  }

  /** A run of `func` happens only on a clock event at least `wait` after
      the last call before it, and passes that call's arguments. */
  lemma RunUsesLastCall<A>(wait: nat, es: seq<Event<A>>, now: int)
    requires |Run(Fresh<A>(wait), es + [Clock(now)]).fired| > |Run(Fresh<A>(wait), es).fired|
    ensures LastCall(es).Some?
    ensures now >= LastCall(es).value.at + wait
    ensures Run(Fresh<A>(wait), es + [Clock(now)]).fired ==
            Run(Fresh<A>(wait), es).fired + [Firing(now, LastCall(es).value.args)]
  {
    assert (es + [Clock(now)])[..|es|] == es;
    PendingIsLastCall(wait, es);
  }

  /** A burst of calls at 0, 5 and 9 with the clock observed in between
      and afterwards. */
  function Burst(): (es: seq<Event<string>>)
    ensures |es| == 10
  {
    [Call(0, "a"), Clock(4), Call(5, "b"), Clock(8), Call(9, "c"),
     Clock(14), Clock(18), Clock(19), Clock(25), Clock(40)]
  }

  /** With a wait of 10, the burst's calls keep rescheduling: up to just
      before 19 nothing has run and the last call's timer is pending. */
  lemma BurstKeepsRescheduling()
    ensures Run(Fresh<string>(10), Burst()[..7]) == Trace(Debouncer(10, Some(Timer(19, "c"))), [])
  {
    var d, evs := Fresh<string>(10), Burst();
    assert evs[..0] == [];
    RunPrefix(d, evs, 1);
    RunPrefix(d, evs, 2);
    assert Run(d, evs[..2]) == Trace(Debouncer(10, Some(Timer(10, "a"))), []);
    RunPrefix(d, evs, 3);
    RunPrefix(d, evs, 4);
    assert Run(d, evs[..4]) == Trace(Debouncer(10, Some(Timer(15, "b"))), []);
    RunPrefix(d, evs, 5);
    RunPrefix(d, evs, 6);
    RunPrefix(d, evs, 7);
  }

  /** The burst runs `func` once, at 19, with the arguments of the last
      call, and later clock events run nothing more. */
  lemma BurstFiresOnceWithLastArgs()
    ensures Run(Fresh<string>(10), Burst()).fired == [Firing(19, "c")]
  {
    var d, evs := Fresh<string>(10), Burst();
    BurstKeepsRescheduling();
    RunPrefix(d, evs, 8);
    assert Run(d, evs[..8]) == Trace(Debouncer(10, None), [Firing(19, "c")]);
    RunPrefix(d, evs, 9);
    RunPrefix(d, evs, 10);
    assert evs[..10] == evs;
  }
}
