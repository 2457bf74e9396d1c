/**
 * The JavaScript runtime's timer table, as a value: the callbacks scheduled
 * with `setTimeout`/`setInterval` that are neither cleared nor finished, keyed
 * by handle. Handles are abstract and never reused. A callback runs only when
 * its handler method is called explicitly.
 */
module Scheduler {

  type Handle = nat

  datatype Timers<J> = Timers(pending: map<Handle, J>, next: Handle)

  /** Every pending handle was handed out already. */
  predicate Valid<J>(t: Timers<J>) {
    forall h :: h in t.pending ==> h < t.next
  }

  function NoTimers<J>(): (t: Timers<J>)
    ensures Valid(t) && t.pending == map[]
  {
    Timers(map[], 0)
  }

  /** `setTimeout`/`setInterval`: a new handle, distinct from every pending one, now runs `job`. */
  function Schedule<J>(t: Timers<J>, job: J): (r: (Timers<J>, Handle))
    requires Valid(t)
    ensures Valid(r.0) && r.1 !in t.pending
    ensures r.0.pending == t.pending[r.1 := job]
    ensures t.next <= r.1 < r.0.next
  {
    (Timers(t.pending[t.next := job], t.next + 1), t.next)
  }

  /** `clearTimeout(h)`/`clearInterval(h)`: drops `h`; a no-op for a handle that is not pending. */
  function Cancel<J>(t: Timers<J>, h: Handle): (r: Timers<J>)
    ensures r.pending == t.pending - {h} && r.next == t.next
    ensures h !in t.pending ==> r == t
    ensures Valid(t) ==> Valid(r)
  {
    Timers(t.pending - {h}, t.next)
  }
}
