/**
 * backend/utils/pollTimer.js: a registry from poll id to the one-shot
 * timeout that closes that poll. The runtime's timer table is a
 * `Scheduler.Timers`; the `callback` argument is an opaque token, and
 * running it appends the token to `invoked`.
 */
module PollTimer {
  import opened PollModel
  import opened Scheduler

  type CallbackId = nat

  /** A pending `setTimeout` of `startPollTimer`: after `delayMs`, run `callback` for `pollId`. */
  datatype Expiry = Expiry(pollId: PollId, callback: CallbackId, delayMs: int)

  /**
   * The registry and the timer table agree: each registered poll's handle
   * is pending with a job for that poll, and each pending job is the one
   * registered for its poll.
   */
  predicate Agree(active: map<PollId, Handle>, t: Timers<Expiry>) {
    && Scheduler.Valid(t)
    && (forall pid :: pid in active ==> active[pid] in t.pending && t.pending[active[pid]].pollId == pid)
    && (forall h :: h in t.pending ==> t.pending[h].pollId in active && active[t.pending[h].pollId] == h)
  }

  /** The timer table once `pollId`'s registered timeout (if any) is cleared. */
  function Withdraw(active: map<PollId, Handle>, t: Timers<Expiry>, pollId: PollId): (r: Timers<Expiry>)
    requires Agree(active, t)
    ensures Agree(active - {pollId}, r)
    ensures forall h :: h in r.pending ==> h in t.pending && r.pending[h] == t.pending[h]
    ensures forall h :: h in t.pending && t.pending[h].pollId != pollId ==> h in r.pending
    ensures forall h :: h in r.pending ==> r.pending[h].pollId != pollId
    ensures r.next == t.next
  {
    if pollId in active then Cancel(t, active[pollId]) else t
  }

  /**
   * Registering a poll's timeout and then stopping it leaves the same
   * pending timeouts as clearing the poll's earlier one alone.
   */
  lemma StartThenStop(active: map<PollId, Handle>, t: Timers<Expiry>, job: Expiry)
    requires Agree(active, t)
    ensures var w := Withdraw(active, t, job.pollId);
      var (t2, h) := Schedule(w, job);
      && Agree(active[job.pollId := h], t2)
      && Withdraw(active[job.pollId := h], t2, job.pollId).pending == w.pending
  {
    var pid := job.pollId;
    var w := Withdraw(active, t, pid);
    var (t2, h) := Schedule(w, job);
    var a2 := active[pid := h];
    assert a2 == (active - {pid})[pid := h];
    assert Agree(a2, t2);
    assert Withdraw(a2, t2, pid) == Cancel(t2, h);
  }

  class PollTimerRegistry {
    var activeTimers: map<PollId, Handle>
    var timers: Timers<Expiry>
    var invoked: seq<CallbackId>

    predicate Valid()
      reads this
    {
      Agree(activeTimers, timers)
    }

    constructor ()
      ensures Valid() && activeTimers == map[] && timers.pending == map[] && invoked == []
    {
      activeTimers := map[];
      timers := NoTimers();
      invoked := [];
    }

    /** `isTimerActive`: a poll is registered exactly when a timeout is pending for it. */
    predicate IsTimerActive(pollId: PollId)
      requires Valid()
      reads this
      ensures IsTimerActive(pollId) <==> exists h :: h in timers.pending && timers.pending[h].pollId == pollId
    {
      assert pollId in activeTimers ==> activeTimers[pollId] in timers.pending;
      pollId in activeTimers
    }

    /**
     * `startPollTimer`: clears the poll's earlier timeout, if any, and
     * registers a new one `duration` seconds away.
     */
    method StartPollTimer(pollId: PollId, duration: int, callback: CallbackId)
      requires Valid()
      modifies this
      ensures Valid() && IsTimerActive(pollId)
      ensures var (t, h) := Schedule(Withdraw(old(activeTimers), old(timers), pollId), Expiry(pollId, callback, duration * 1000));
        timers == t && activeTimers == old(activeTimers)[pollId := h]
      ensures activeTimers.Keys == old(activeTimers.Keys) + {pollId}
      ensures invoked == old(invoked)
    {
      var t := Withdraw(activeTimers, timers, pollId);
      var (t', h) := Schedule(t, Expiry(pollId, callback, duration * 1000));
      timers := t';
      activeTimers := (activeTimers - {pollId})[pollId := h];
      assert activeTimers == old(activeTimers)[pollId := h];
      assert activeTimers[pollId] in timers.pending;
    }

    /** `stopPollTimer`: clears and forgets the poll's timeout; a no-op for an unregistered poll. */
    method StopPollTimer(pollId: PollId)
      requires Valid()
      modifies this
      ensures Valid() && !IsTimerActive(pollId)
      ensures timers == Withdraw(old(activeTimers), old(timers), pollId)
      ensures activeTimers == old(activeTimers) - {pollId}
      ensures old(pollId !in activeTimers) ==> timers == old(timers) && activeTimers == old(activeTimers)
      ensures invoked == old(invoked)
    {
      if pollId in activeTimers {
        timers := Withdraw(activeTimers, timers, pollId);
        activeTimers := activeTimers - {pollId};
      }
    }

    /** `clearAllTimers`: clears every registered timeout, then empties the registry. */
    method ClearAllTimers()
      requires Valid()
      modifies this
      ensures Valid() && activeTimers == map[] && timers.pending == map[]
      ensures timers.next == old(timers.next) && invoked == old(invoked)
    {
      var remaining := activeTimers.Keys;
      while remaining != {}
        invariant remaining <= activeTimers.Keys && activeTimers == old(activeTimers) && invoked == old(invoked)
        invariant Scheduler.Valid(timers) && timers.next == old(timers.next)
        invariant forall h :: h in timers.pending ==> h in old(timers.pending) && timers.pending[h] == old(timers.pending)[h]
        invariant forall h :: h in timers.pending ==> timers.pending[h].pollId in remaining
        invariant forall pid :: pid in remaining ==> activeTimers[pid] in timers.pending
        invariant Agree(activeTimers, old(timers))
        decreases remaining
      {
        var pid :| pid in remaining;
        timers := Cancel(timers, activeTimers[pid]);
        remaining := remaining - {pid};
      }
      assert forall h :: h !in timers.pending;
      activeTimers := map[];
    }

    /**
     * The runtime runs the pending timeout `h`: its callback runs, then its
     * poll is removed from the registry.
     */
    method Fire(h: Handle)
      requires Valid() && h in timers.pending
      modifies this
      ensures Valid() && !IsTimerActive(old(timers.pending[h].pollId))
      ensures invoked == old(invoked) + [old(timers.pending[h].callback)]
      ensures timers == Cancel(old(timers), h)
      ensures activeTimers == old(activeTimers) - {old(timers.pending[h].pollId)}
    {
      var job := timers.pending[h];
      invoked := invoked + [job.callback];
      timers := Cancel(timers, h);
      activeTimers := activeTimers - {job.pollId};
    }
  }
}
