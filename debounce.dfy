/** The debounce wrapper that both copies of the mover put around the resize
    handler: one pending-timeout slot, cleared and scheduled again on every
    call. Time is an abstract clock: `Called` is one call of the debounced
    function at time `now`, `Fired` is the host running a due timeout. */
module Debounce {
  import opened Seqs

  /** The pending `later` callback: when it is due and the arguments of the
      call that scheduled it. */
  datatype Timer<+A> = Timer(due: int, args: A)

  /** The debounced closure: its `wait` and `immediate` parameters and its
      `timeout` slot. */
  datatype Debounce<+A> = Debounce(wait: Option<int>, immediate: bool, timeout: Option<Timer<A>>)

  /** The delay `setTimeout` applies. Its `timeout` argument is a WebIDL
      `long`: the number is wrapped to 32 bits, and a negative result then
      counts as 0; an absent wait counts as 0 too. */
  function Delay(wait: Option<int>): (d: nat)
    ensures d < 0x8000_0000
    ensures wait.None? ==> d == 0
    ensures wait.Some? && 0 <= wait.value < 0x8000_0000 ==> d == wait.value
    ensures wait.Some? && -0x8000_0000 <= wait.value < 0 ==> d == 0
    ensures wait.Some? && d != 0 ==> (wait.value - d) % 0x1_0000_0000 == 0
  {
    if wait.None? then 0
    else
      var x := wait.value % 0x1_0000_0000;
      if x < 0x8000_0000 then x else 0
  }

  /** One call: `func` runs at once only in immediate mode and only when no
      timeout is pending; in every mode the pending timeout is replaced by
      one due `Delay(wait)` after `now`, carrying this call's arguments. */
  function Called<A>(d: Debounce<A>, now: int, args: A): (r: (Debounce<A>, Option<A>))
    ensures r.0.wait == d.wait && r.0.immediate == d.immediate
    ensures r.0.timeout == Some(Timer(now + Delay(d.wait), args))
    ensures r.1.Some? <==> d.immediate && d.timeout.None?
    ensures r.1.Some? ==> r.1.value == args
  {
    var callNow := d.immediate && d.timeout.None?;
    (d.(timeout := Some(Timer(now + Delay(d.wait), args))), if callNow then Some(args) else None)
  }

  /** The host runs the pending timeout if it is due: the slot is emptied and
      `func` runs with the stored arguments unless in immediate mode. A
      timeout that is not due, or no timeout, changes nothing. */
  function Fired<A>(d: Debounce<A>, now: int): (r: (Debounce<A>, Option<A>))
    ensures r.0.wait == d.wait && r.0.immediate == d.immediate
    ensures d.timeout.Some? && d.timeout.value.due <= now ==> r.0.timeout.None?
    ensures !(d.timeout.Some? && d.timeout.value.due <= now) ==> r == (d, None)
    ensures r.1.Some? <==> !d.immediate && d.timeout.Some? && d.timeout.value.due <= now
    ensures r.1.Some? ==> r.1.value == d.timeout.value.args
  {
    if d.timeout.Some? && d.timeout.value.due <= now then
      (d.(timeout := None), if d.immediate then None else Some(d.timeout.value.args))
    else
      (d, None)
  }

  function Runs<A>(o: Option<A>): seq<A> {
    if o.Some? then [o.value] else []
  }

  /** A burst of calls, at the given times and with the given arguments, with
      no timeout run in between; yields the final state and every synchronous
      run of `func`, in order. */
  function CallAll<A>(d: Debounce<A>, calls: seq<(int, A)>): (Debounce<A>, seq<A>)
    decreases |calls|
  {
    if calls == [] then
      (d, [])
    else
      var before := CallAll(d, calls[..|calls| - 1]);
      var last := Called(before.0, calls[|calls| - 1].0, calls[|calls| - 1].1);
      (last.0, before.1 + Runs(last.1))
  }

  /** Trailing edge: after a burst of N >= 1 calls, `func` has not run, and
      exactly one timeout is pending, due `Delay(wait)` after the last call
      and carrying the last call's arguments. */
  lemma {:induction false} TrailingEdge<A>(d: Debounce<A>, calls: seq<(int, A)>)
    requires !d.immediate && |calls| > 0
    ensures CallAll(d, calls).1 == []
    ensures CallAll(d, calls).0 ==
      d.(timeout := Some(Timer(calls[|calls| - 1].0 + Delay(d.wait), calls[|calls| - 1].1)))
  {
    if |calls| > 1 {
      TrailingEdge(d, calls[..|calls| - 1]);
    }
  }

  /** The pending timeout of a burst runs `func` once, with the last call's
      arguments, when it is due, and not before; once it has run, nothing is
      pending and no later firing runs `func` again. */
  lemma BurstRunsOnce<A>(d: Debounce<A>, calls: seq<(int, A)>, now: int, later: int)
    requires !d.immediate && |calls| > 0
    ensures var b := CallAll(d, calls).0;
      var due := calls[|calls| - 1].0 + Delay(d.wait);
      && (now < due ==> Fired(b, now) == (b, None))
      && (now >= due ==> Fired(b, now) == (b.(timeout := None), Some(calls[|calls| - 1].1)))
      && Fired(Fired(b, due).0, later).1 == None
  {
    TrailingEdge(d, calls);
  }

  /** Leading edge: in immediate mode a burst runs `func` at most once,
      synchronously, with the first call's arguments, and only if nothing was
      pending when the burst began; the pending timeout is the last call's. */
  lemma {:induction false} LeadingEdge<A>(d: Debounce<A>, calls: seq<(int, A)>)
    requires d.immediate && |calls| > 0
    ensures CallAll(d, calls).1 == if d.timeout.None? then [calls[0].1] else []
    ensures CallAll(d, calls).0 ==
      d.(timeout := Some(Timer(calls[|calls| - 1].0 + Delay(d.wait), calls[|calls| - 1].1)))
  {
    if |calls| > 1 {
      LeadingEdge(d, calls[..|calls| - 1]);
      assert calls[..|calls| - 1][0] == calls[0];
    }
  }

  /** In immediate mode the timeout never runs `func`. */
  lemma ImmediateFiringIsSilent<A>(d: Debounce<A>, now: int)
    requires d.immediate
    ensures Fired(d, now).1 == None
  {
  }

  /** The debounced closure, with its `timeout` variable updated in place. */
  class Debouncer<A> {
    const wait: Option<int>
    const immediate: bool
    var timeout: Option<Timer<A>>

    function State(): Debounce<A>
      reads this
    {
      Debounce(wait, immediate, timeout)
    }

    constructor (wait: Option<int>, immediate: bool)
      ensures State() == Debounce(wait, immediate, None)
    {
      this.wait, this.immediate, timeout := wait, immediate, None;
    }

    /** One call of the debounced function; returns the arguments `func` is
        run with synchronously, if it is. */
    method Call(now: int, args: A) returns (run: Option<A>)
      modifies this
      ensures (State(), run) == Called(old(State()), now, args)
    {
      var callNow := immediate && timeout.None?;
      timeout := Some(Timer(now + Delay(wait), args));
      run := if callNow then Some(args) else None;
    }

    /** The host's timer step at time `now`; returns the arguments `func` is
        run with, if the pending timeout ran and called it. */
    method Fire(now: int) returns (run: Option<A>)
      modifies this
      ensures (State(), run) == Fired(old(State()), now)
    {
      run := None;
      if timeout.Some? && timeout.value.due <= now {
        var args := timeout.value.args;
        timeout := None;
        if !immediate {
          run := Some(args);
        }
      }
    }
  }
}
