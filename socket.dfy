/**
 * The server side of backend/socket.js as one object: the poll store it
 * reads and writes, its three module-level maps (`activePollTimers`,
 * `connectedStudents`, `connectedUsers`), the runtime's timer table and the
 * log of emitted events. Each socket handler is a method taking the caller's
 * connection id and the current time; a timer callback runs when `Fire` is
 * called with its handle.
 */
module Socket {
  import opened Wrappers
  import Text
  import opened PollModel
  import opened ResponseModel
  import opened Store
  import opened Lifecycle
  import opened Scheduler
  import opened Presence
  import opened SocketEvents

  /**
   * A scheduled callback. `AutoClose` is the `setTimeout` that ends a poll
   * (it also clears the poll's interval); `Tick` is the `setInterval` that
   * broadcasts the remaining time, with the poll fields its closure reads.
   */
  datatype Job =
    | AutoClose(pollId: PollId, interval: Handle, dueAt: int)
    | Tick(pollId: PollId, createdAt: int, duration: int)

  /** An `activePollTimers` entry: `{ timer, interval }`. */
  datatype TimerData = TimerData(timer: Handle, interval: Handle)

  /** The entry field that holds a job of this kind. */
  function Slot(d: TimerData, job: Job): Handle {
    if job.AutoClose? then d.timer else d.interval
  }

  /**
   * Every pending timer job belongs to the `activePollTimers` entry of its
   * poll and sits in that entry's field for its kind; an entry's handles
   * were handed out already, and its timeout (its interval) is, while
   * pending, that poll's `AutoClose` (`Tick`).
   */
  predicate Tracked(apt: map<PollId, TimerData>, t: Timers<Job>) {
    && Scheduler.Valid(t)
    && (forall h :: h in t.pending ==>
          t.pending[h].pollId in apt && h == Slot(apt[t.pending[h].pollId], t.pending[h]))
    && (forall id :: id in apt ==> EntryTracked(id, apt[id], t))
  }

  predicate EntryTracked(id: PollId, d: TimerData, t: Timers<Job>) {
    && d.timer < t.next && d.interval < t.next && d.timer != d.interval
    && (d.timer in t.pending ==>
          t.pending[d.timer].AutoClose? && t.pending[d.timer].pollId == id && t.pending[d.timer].interval == d.interval)
    && (d.interval in t.pending ==>
          t.pending[d.interval].Tick? && t.pending[d.interval].pollId == id)
  }

  /** The two timers `createPoll` starts for a poll. */
  function StartPollTimers(t: Timers<Job>, id: PollId, now: int, duration: int): (r: (Timers<Job>, TimerData))
    requires Scheduler.Valid(t)
    ensures Scheduler.Valid(r.0) && t.next <= r.1.interval < r.1.timer < r.0.next
    ensures r.0.pending == t.pending[r.1.interval := Tick(id, now, duration)]
                                    [r.1.timer := AutoClose(id, r.1.interval, now + duration * 1000)]
  {
    var (t1, interval) := Schedule(t, Tick(id, now, duration));
    var (t2, timer) := Schedule(t1, AutoClose(id, interval, now + duration * 1000));
    (t2, TimerData(timer, interval))
  }

  /** Recording a new poll's two timers keeps the bookkeeping exact. */
  lemma TrackedAfterStart(apt: map<PollId, TimerData>, t: Timers<Job>, id: PollId, now: int, duration: int)
    requires Tracked(apt, t) && id !in apt
    ensures var (t', d) := StartPollTimers(t, id, now, duration);
      Tracked(apt[id := d], t')
  {
    var (t', d) := StartPollTimers(t, id, now, duration);
    var apt' := apt[id := d];
    forall k | k in apt' ensures EntryTracked(k, apt'[k], t') {
      if k != id {
        assert EntryTracked(k, apt[k], t);
      }
    }
    forall h | h in t'.pending ensures t'.pending[h].pollId in apt' && h == Slot(apt'[t'.pending[h].pollId], t'.pending[h]) {
      if h != d.timer && h != d.interval {
        assert t'.pending[h] == t.pending[h];
        assert t.pending[h].pollId != id;
      }
    }
  }

  /** Clearing both of a poll's timers and dropping its entry keeps the bookkeeping exact and leaves no job for that poll. */
  lemma TrackedAfterStop(apt: map<PollId, TimerData>, t: Timers<Job>, id: PollId)
    requires Tracked(apt, t) && id in apt
    ensures var t' := Cancel(Cancel(t, apt[id].timer), apt[id].interval);
      && Tracked(apt - {id}, t')
      && forall h :: h in t'.pending ==> t'.pending[h].pollId != id
  {
    var t' := Cancel(Cancel(t, apt[id].timer), apt[id].interval);
    var apt' := apt - {id};
    forall k | k in apt' ensures EntryTracked(k, apt'[k], t') {
      assert EntryTracked(k, apt[k], t);
    }
  }

  /** A handle leaving the timer table (cleared, or a finished timeout) keeps the bookkeeping exact. */
  lemma TrackedAfterCancel(apt: map<PollId, TimerData>, t: Timers<Job>, h: Handle)
    requires Tracked(apt, t)
    ensures Tracked(apt, Cancel(t, h))
  {
    forall k | k in apt ensures EntryTracked(k, apt[k], Cancel(t, h)) {
      assert EntryTracked(k, apt[k], t);
    }
  }

  /**
   * Connection ids in the roster are distinct, and a connection with a
   * (non-empty) student name is in the roster.
   */
  predicate PresenceOk(students: map<SocketId, string>, users: Roster) {
    && KeysUnique(users)
    && (forall s :: s in students && students[s] != "" ==> s in Keys(users))
  }

  /** `connectedUsers.set` (with or without `connectedStudents.set` of the same id) keeps the presence invariant. */
  lemma PutKeepsPresence(students: map<SocketId, string>, users: Roster, u: User)
    requires PresenceOk(students, users)
    ensures PresenceOk(students, Put(users, u)) && PresenceOk(students[u.socketId := u.name], Put(users, u))
    ensures Keys(Put(users, u)) == Keys(users) + {u.socketId}
  {
    PutProperties(users, u);
  }

  /** `connectedUsers.delete` keeps the presence invariant once the id's student name is gone or empty. */
  lemma DeleteKeepsPresence(students: map<SocketId, string>, users: Roster, sid: SocketId)
    requires PresenceOk(students, users)
    ensures PresenceOk(students - {sid}, Delete(users, sid))
    ensures sid !in students || students[sid] == "" ==> PresenceOk(students, Delete(users, sid))
    ensures Keys(Delete(users, sid)) == Keys(users) - {sid}
  {
    DeleteKeys(users, sid);
    DeleteKeepsUnique(users, sid);
  }

  /** Appending a poll with the next id: that id had no timers yet, and every timed poll is still stored. */
  lemma AppendKeepsStored(apt: map<PollId, TimerData>, db: Db, p: Poll)
    requires ValidDb(db) && p.id == db.nextId
    requires forall id :: id in apt ==> ById(db.polls, id).Some?
    ensures p.id !in apt
    ensures forall id :: id in apt ==> ById(db.polls + [p], id).Some?
    ensures ById(db.polls + [p], p.id).Some?
  {
    forall id | id in apt ensures id != p.id && ById(db.polls + [p], id).Some? {
      ByIdAfterAppend(db.polls, p, id);
    }
    assert (db.polls + [p])[|db.polls|] == p;
  }

  /** Replacing a poll by one with the same id keeps every timed poll stored. */
  lemma ReplaceKeepsStored(apt: map<PollId, TimerData>, polls: seq<Poll>, i: nat, p: Poll)
    requires i < |polls| && p.id == polls[i].id
    requires forall id :: id in apt ==> ById(polls, id).Some?
    ensures forall id :: id in apt ==> ById(polls[i := p], id).Some?
  {
    forall id | id in apt ensures ById(polls[i := p], id).Some? {
      ByIdAfterReplace(polls, i, p, id);
    }
  }

  /** What `endPoll` does to the timer table: both of the poll's handles are cleared, if it has an entry. */
  function StopPollTimers(apt: map<PollId, TimerData>, t: Timers<Job>, id: PollId): (r: Timers<Job>)
    ensures id !in apt ==> r == t
    ensures id in apt ==> r.pending == t.pending - {apt[id].timer, apt[id].interval} && r.next == t.next
  {
    if id in apt then Cancel(Cancel(t, apt[id].timer), apt[id].interval) else t
  }

  class SocketServer {
    const store: PollStore
    var activePollTimers: map<PollId, TimerData>
    var timers: Timers<Job>
    var connectedStudents: map<SocketId, string>
    var connectedUsers: Roster
    var events: seq<Emission>

    predicate TimersTracked()
      reads this`activePollTimers, this`timers
    {
      Tracked(activePollTimers, timers)
    }

    /** Timers are only kept for polls that are stored. */
    predicate TimedPollsStored()
      reads this`activePollTimers, store
    {
      forall id :: id in activePollTimers ==> ById(store.polls, id).Some?
    }

    predicate PresenceValid()
      reads this`connectedStudents, this`connectedUsers
    {
      PresenceOk(connectedStudents, connectedUsers)
    }

    predicate Valid()
      reads this`activePollTimers, this`timers, this`connectedStudents, this`connectedUsers, store
    {
      store.Valid() && TimersTracked() && TimedPollsStored() && PresenceValid()
    }

    constructor ()
      ensures Valid() && fresh(store)
      ensures store.Snapshot() == Db([], [], 0)
      ensures activePollTimers == map[] && timers.pending == map[]
      ensures connectedStudents == map[] && connectedUsers == [] && events == []
    {
      store := new PollStore();
      activePollTimers := map[];
      timers := NoTimers();
      connectedStudents := map[];
      connectedUsers := [];
      events := [];
    }

    /** `studentJoin`: record the name under the caller's id in both maps, confirm, broadcast the roster. */
    method StudentJoin(caller: SocketId, studentName: string)
      requires Valid()
      modifies this
      ensures Valid()
      ensures connectedStudents == old(connectedStudents)[caller := studentName]
      ensures connectedUsers == Put(old(connectedUsers), User(studentName, Student, caller))
      ensures Keys(connectedUsers) == Keys(old(connectedUsers)) + {caller}
      ensures events == old(events) + [Emission(Only(caller), JoinConfirmed(studentName)),
                                       Emission(Everyone, ParticipantsUpdate(connectedUsers))]
      ensures activePollTimers == old(activePollTimers) && timers == old(timers)
    {
      PutKeepsPresence(connectedStudents, connectedUsers, User(studentName, Student, caller));
      connectedStudents := connectedStudents[caller := studentName];
      connectedUsers := Put(connectedUsers, User(studentName, Student, caller));
      events := events + [Emission(Only(caller), JoinConfirmed(studentName))];
      events := events + [Emission(Everyone, ParticipantsUpdate(connectedUsers))];
    }

    /** `teacherJoin`: record the caller in the roster only, as "Teacher", and broadcast it. */
    method TeacherJoin(caller: SocketId)
      requires Valid()
      modifies this
      ensures Valid()
      ensures connectedStudents == old(connectedStudents)
      ensures connectedUsers == Put(old(connectedUsers), User(TeacherName, Teacher, caller))
      ensures Keys(connectedUsers) == Keys(old(connectedUsers)) + {caller}
      ensures events == old(events) + [Emission(Everyone, ParticipantsUpdate(connectedUsers))]
      ensures activePollTimers == old(activePollTimers) && timers == old(timers)
    {
      PutKeepsPresence(connectedStudents, connectedUsers, User(TeacherName, Teacher, caller));
      connectedUsers := Put(connectedUsers, User(TeacherName, Teacher, caller));
      events := events + [Emission(Everyone, ParticipantsUpdate(connectedUsers))];
    }

    /**
     * `disconnect`: the caller leaves the roster. Its `connectedStudents`
     * entry is deleted only when the stored name is truthy, so an entry with
     * the empty name stays.
     */
    method Disconnect(caller: SocketId)
      requires Valid()
      modifies this
      ensures Valid()
      ensures connectedStudents ==
        if caller in old(connectedStudents) && old(connectedStudents)[caller] != "" then old(connectedStudents) - {caller}
        else old(connectedStudents)
      ensures connectedUsers == Delete(old(connectedUsers), caller)
      ensures Keys(connectedUsers) == Keys(old(connectedUsers)) - {caller}
      ensures events == old(events) + [Emission(Everyone, ParticipantsUpdate(connectedUsers))]
      ensures activePollTimers == old(activePollTimers) && timers == old(timers)
    {
      DeleteKeepsPresence(connectedStudents, connectedUsers, caller);
      if caller in connectedStudents && connectedStudents[caller] != "" {
        connectedStudents := connectedStudents - {caller};
      }
      connectedUsers := Delete(connectedUsers, caller);
      events := events + [Emission(Everyone, ParticipantsUpdate(connectedUsers))];
    }

    /** `getParticipants`: send the roster, in insertion order, to the caller. */
    method GetParticipants(caller: SocketId)
      requires Valid()
      modifies this
      ensures Valid()
      ensures events == old(events) + [Emission(Only(caller), ParticipantsUpdate(connectedUsers))]
      ensures connectedUsers == old(connectedUsers) && connectedStudents == old(connectedStudents)
      ensures activePollTimers == old(activePollTimers) && timers == old(timers)
    {
      events := events + [Emission(Only(caller), ParticipantsUpdate(connectedUsers))];
    }

    /**
     * `removeStudent`: walk the roster in order; at the first student with
     * that name, notify its socket, delete its id from both maps, broadcast
     * the roster and stop.
     */
    method RemoveStudent(studentName: string)
      requires Valid()
      modifies this
      ensures Valid()
      ensures var (roster, removed) := Presence.RemoveStudent(old(connectedUsers), studentName);
        && connectedUsers == roster
        && connectedStudents == (if removed.Some? then old(connectedStudents) - {removed.value} else old(connectedStudents))
        && events == old(events) +
             (if removed.Some? then [Emission(Only(removed.value), RemovedFromSession(RemovedMessage)),
                                     Emission(Everyone, ParticipantsUpdate(roster))]
              else [])
      ensures activePollTimers == old(activePollTimers) && timers == old(timers)
    {
      var i := 0;
      while i < |connectedUsers|
        invariant 0 <= i <= |connectedUsers|
        invariant forall j :: 0 <= j < i ==> !IsStudentNamed(connectedUsers[j], studentName)
      {
        var user := connectedUsers[i];
        if user.name == studentName && user.role == Student {
          break;
        }
        i := i + 1;
      }
      var k := FirstStudentNamed(connectedUsers, studentName);
      if i < |connectedUsers| {
        assert k == Some(i);
        RemoveEntry(i);
      } else {
        assert k.None?;
      }
    }

    /** The body of `removeStudent`'s loop at the entry it stops on. */
    method RemoveEntry(i: nat)
      requires Valid() && i < |connectedUsers|
      modifies this
      ensures Valid()
      ensures var sid := old(connectedUsers)[i].socketId;
        && connectedUsers == Delete(old(connectedUsers), sid)
        && connectedStudents == old(connectedStudents) - {sid}
        && events == old(events) + [Emission(Only(sid), RemovedFromSession(RemovedMessage)),
                                    Emission(Everyone, ParticipantsUpdate(connectedUsers))]
      ensures activePollTimers == old(activePollTimers) && timers == old(timers)
    {
      var sid := connectedUsers[i].socketId;
      DeleteKeepsPresence(connectedStudents, connectedUsers, sid);
      var users := Delete(connectedUsers, sid);
      events := events + [Emission(Only(sid), RemovedFromSession(RemovedMessage)), Emission(Everyone, ParticipantsUpdate(users))];
      connectedUsers, connectedStudents := users, connectedStudents - {sid};
    }

    /**
     * `createPoll`: refused while a poll is active; otherwise the new poll is
     * saved and announced, an interval is started that broadcasts its
     * remaining time, and a timeout that ends it after `duration` seconds;
     * both handles are recorded under its id.
     */
    method CreatePoll(caller: SocketId, question: string, texts: seq<string>, duration: Option<int>, now: int)
      requires Valid()
      modifies this, store
      ensures Valid()
      ensures var (db, outcome) := Create(old(store.Snapshot()), question, texts, duration, now);
        && store.Snapshot() == db
        && events == old(events) + CreateEmissions(caller, outcome)
        && (!outcome.Created? ==> activePollTimers == old(activePollTimers) && timers == old(timers))
        && (outcome.Created? ==>
              var p := outcome.poll;
              var (t, d) := StartPollTimers(old(timers), p.id, now, p.duration);
              && p.id !in old(activePollTimers)
              && timers == t && activePollTimers == old(activePollTimers)[p.id := d])
      ensures connectedUsers == old(connectedUsers) && connectedStudents == old(connectedStudents)
    {
      ghost var db0 := store.Snapshot();
      var outcome := SaveNewPoll(store, question, texts, duration, now);
      events := events + CreateEmissions(caller, outcome);
      if outcome.Created? {
        AppendKeepsStored(activePollTimers, db0, outcome.poll);
        Launch(outcome.poll, now);
      }
    }

    /** The last step of `createPoll`, for a poll that was just stored and announced: start its two timers. */
    method Launch(doc: Poll, now: int)
      requires TimersTracked() && TimedPollsStored() && PresenceValid() && store.Valid()
      requires doc.id !in activePollTimers && ById(store.polls, doc.id).Some?
      modifies this
      ensures Valid()
      ensures events == old(events)
      ensures var (t, d) := StartPollTimers(old(timers), doc.id, now, doc.duration);
        timers == t && activePollTimers == old(activePollTimers)[doc.id := d]
      ensures connectedUsers == old(connectedUsers) && connectedStudents == old(connectedStudents)
    {
      TrackedAfterStart(activePollTimers, timers, doc.id, now, doc.duration);
      var (t, d) := StartPollTimers(timers, doc.id, now, doc.duration);
      timers := t;
      activePollTimers := activePollTimers[doc.id := d];
    }

    /**
     * `submitVote`: refused for a missing or non-active poll and for a name
     * that already answered it; otherwise the response is saved, then the
     * chosen option's tally is raised and the new tallies are broadcast with
     * the response count. A save or an increment that throws ends in
     * "Failed to submit vote", with whatever was saved before it kept.
     */
    method SubmitVote(caller: SocketId, pollId: PollId, optionIndex: int, studentName: string, now: int)
      requires Valid()
      modifies this, store
      ensures Valid()
      ensures var (db, outcome) := Vote(old(store.Snapshot()), pollId, optionIndex, studentName, now);
        store.Snapshot() == db && events == old(events) + VoteEmissions(caller, pollId, outcome)
      ensures activePollTimers == old(activePollTimers) && timers == old(timers)
      ensures connectedUsers == old(connectedUsers) && connectedStudents == old(connectedStudents)
    {
      var outcome := SaveVote(pollId, optionIndex, studentName, now);
      events := events + VoteEmissions(caller, pollId, outcome);
    }

    /** The store half of `submitVote`: the two refusals, then the save. */
    method SaveVote(pollId: PollId, optionIndex: int, studentName: string, now: int) returns (outcome: VoteOutcome)
      requires Valid()
      modifies store
      ensures Valid()
      ensures (store.Snapshot(), outcome) == Vote(old(store.Snapshot()), pollId, optionIndex, studentName, now)
    {
      ghost var db0 := store.Snapshot();
      var found := store.FindById(pollId);
      if found.None? || store.polls[found.value].status != Active {
        assert Vote(db0, pollId, optionIndex, studentName, now) == (db0, NotActive);
        return NotActive;
      }
      var i := found.value;
      var voted := store.FindResponse(pollId, studentName);
      if voted {
        assert Vote(db0, pollId, optionIndex, studentName, now) == (db0, AlreadyVoted);
        return AlreadyVoted;
      }
      assert Vote(db0, pollId, optionIndex, studentName, now) == Record(db0, i, optionIndex, studentName, now);
      outcome := RecordVote(i, optionIndex, studentName, now);
    }

    /**
     * The saving half of `submitVote` for the active poll at position `i`,
     * once the name has no response yet: save the response, raise the
     * tally, count the poll's responses.
     */
    method RecordVote(i: nat, optionIndex: int, studentName: string, now: int) returns (outcome: VoteOutcome)
      requires Valid() && i < |store.polls|
      requires !HasResponse(store.responses, store.polls[i].id, Text.Trim(studentName))
      modifies store
      ensures Valid()
      ensures (store.Snapshot(), outcome) == Record(old(store.Snapshot()), i, optionIndex, studentName, now)
    {
      var poll := store.polls[i];
      var response := NewResponse(poll.id, studentName, optionIndex, now);
      Text.TrimFixesTrimmed(studentName);
      var inserted := store.InsertResponse(response);
      if inserted != Inserted || !(0 <= optionIndex < |poll.options|) {
        return VoteFailed;
      }
      var updated := poll.(options := Increment(poll.options, optionIndex));
      IncrementWellFormed(poll, optionIndex);
      ReplaceKeepsStored(activePollTimers, store.polls, i, updated);
      store.SavePoll(i, updated);
      var total := store.CountDocuments(poll.id);
      return Recorded(updated.options, total);
    }

    /** `getActivePoll`: send the caller the active poll with its remaining time and response count, or `noActivePoll`. */
    method GetActivePoll(caller: SocketId, now: int)
      requires Valid()
      modifies this
      ensures Valid()
      ensures events == old(events) + [Emission(Only(caller), ActivePollReply(store.Snapshot(), now))]
      ensures activePollTimers == old(activePollTimers) && timers == old(timers)
      ensures connectedUsers == old(connectedUsers) && connectedStudents == old(connectedStudents)
    {
      var found := store.FindActive();
      if found.None? {
        events := events + [Emission(Only(caller), NoActivePoll)];
        return;
      }
      var p := store.polls[found.value];
      var responses := store.CountDocuments(p.id);
      var remaining := RemainingTime(p.duration, p.createdAt, now);
      events := events + [Emission(Only(caller), ActivePoll(p.id, p.question, Texts(p.options), p.duration,
                                                            remaining, p.options, responses))];
    }

    /** `getPollResults`: send the caller a poll's tallies, response count and status; nothing for an unknown id. */
    method GetPollResults(caller: SocketId, pollId: PollId)
      requires Valid()
      modifies this
      ensures Valid()
      ensures events == old(events) +
        match PollResultsReply(store.Snapshot(), pollId)
        case None => []
        case Some(e) => [Emission(Only(caller), e)]
      ensures activePollTimers == old(activePollTimers) && timers == old(timers)
      ensures connectedUsers == old(connectedUsers) && connectedStudents == old(connectedStudents)
    {
      var found := store.FindById(pollId);
      var responses := store.CountDocuments(pollId);
      if found.Some? {
        var p := store.polls[found.value];
        events := events + [Emission(Only(caller), PollResults(p.id, p.question, p.options, responses, p.status))];
      }
    }

    /**
     * The `endPoll` function (the socket event and the auto-close timeout):
     * nothing for an unknown id; otherwise the poll is ended at `now`, its
     * timeout and interval are cleared and its entry dropped, and the final
     * tallies are broadcast. No timer job for that poll is left.
     */
    method EndPoll(pollId: PollId, now: int)
      requires Valid()
      modifies this, store
      ensures Valid()
      ensures var (db, found) := End(old(store.Snapshot()), pollId, now);
        && store.Snapshot() == db
        && (!found ==> events == old(events) && activePollTimers == old(activePollTimers) && timers == old(timers))
        && (found ==>
              && activePollTimers == old(activePollTimers) - {pollId}
              && timers == StopPollTimers(old(activePollTimers), old(timers), pollId)
              && (forall h :: h in timers.pending ==> timers.pending[h].pollId != pollId)
              && var i := ById(old(store.polls), pollId).value;
                 events == old(events) + [Emission(Everyone, PollEnded(pollId, db.polls[i].options, ResponseCount(db.responses, pollId)))])
      ensures connectedUsers == old(connectedUsers) && connectedStudents == old(connectedStudents)
    {
      ghost var polls0 := store.polls;
      var found := SaveEnded(store, pollId, now);
      if found.None? {
        return;
      }
      var i := found.value;
      ReplaceKeepsStored(activePollTimers, polls0, i, store.polls[i]);
      StopTimers(pollId);
      var total := store.CountDocuments(pollId);
      events := events + [Emission(Everyone, PollEnded(pollId, store.polls[i].options, total))];
    }

    /** The timer half of `endPoll`. */
    method StopTimers(pollId: PollId)
      requires Valid()
      modifies this
      ensures Valid()
      ensures activePollTimers == old(activePollTimers) - {pollId}
      ensures timers == StopPollTimers(old(activePollTimers), old(timers), pollId)
      ensures forall h :: h in timers.pending ==> timers.pending[h].pollId != pollId
      ensures events == old(events) && connectedUsers == old(connectedUsers) && connectedStudents == old(connectedStudents)
    {
      if pollId in activePollTimers {
        TrackedAfterStop(activePollTimers, timers, pollId);
        var d := activePollTimers[pollId];
        timers := Cancel(Cancel(timers, d.timer), d.interval);
        activePollTimers := activePollTimers - {pollId};
      } else {
        assert activePollTimers - {pollId} == activePollTimers;
      }
    }

    /**
     * A timer callback runs. A `Tick` broadcasts the remaining time and
     * clears its own interval once that time is 0. An `AutoClose`, due once
     * its delay has passed, finishes, clears the poll's interval and ends
     * the poll as `EndPoll` does: the final tallies are broadcast and no
     * timer job for the poll is left.
     */
    method Fire(h: Handle, now: int)
      requires Valid() && h in timers.pending
      requires timers.pending[h].AutoClose? ==> now >= timers.pending[h].dueAt
      modifies this, store
      ensures Valid()
      ensures old(timers.pending[h]).Tick? ==>
        var job := old(timers.pending[h]);
        var r := RemainingTime(job.duration, job.createdAt, now);
        && store.Snapshot() == old(store.Snapshot()) && activePollTimers == old(activePollTimers)
        && timers == (if r <= 0 then Cancel(old(timers), h) else old(timers))
        && events == old(events) + [Emission(Everyone, TimerUpdate(job.pollId, r))]
      ensures old(timers.pending[h]).AutoClose? ==>
        var job := old(timers.pending[h]);
        var db := End(old(store.Snapshot()), job.pollId, now).0;
        var i := ById(old(store.polls), job.pollId).value;
        && store.Snapshot() == db
        && End(old(store.Snapshot()), job.pollId, now).1
        && activePollTimers == old(activePollTimers) - {job.pollId}
        && timers == StopPollTimers(old(activePollTimers), Cancel(Cancel(old(timers), h), job.interval), job.pollId)
        && (forall h' :: h' in timers.pending ==> timers.pending[h'].pollId != job.pollId)
        && events == old(events) + [Emission(Everyone, PollEnded(job.pollId, db.polls[i].options, ResponseCount(db.responses, job.pollId)))]
      ensures connectedUsers == old(connectedUsers) && connectedStudents == old(connectedStudents)
    {
      if timers.pending[h].Tick? {
        Tick(h, now);
      } else {
        AutoClose(h, now);
      }
    }

    /** The interval callback: broadcast the remaining time, and clear the interval once it is 0. */
    method Tick(h: Handle, now: int)
      requires Valid() && h in timers.pending && timers.pending[h].Tick?
      modifies this
      ensures Valid()
      ensures var job := old(timers.pending[h]);
        var r := RemainingTime(job.duration, job.createdAt, now);
        && activePollTimers == old(activePollTimers)
        && timers == (if r <= 0 then Cancel(old(timers), h) else old(timers))
        && events == old(events) + [Emission(Everyone, TimerUpdate(job.pollId, r))]
      ensures connectedUsers == old(connectedUsers) && connectedStudents == old(connectedStudents)
    {
      var job := timers.pending[h];
      Report(h, RemainingTime(job.duration, job.createdAt, now));
    }

    /** The body of the interval callback once the remaining time `r` is known. */
    method Report(h: Handle, r: int)
      requires Valid() && h in timers.pending
      modifies this
      ensures Valid()
      ensures activePollTimers == old(activePollTimers)
      ensures timers == if r <= 0 then Cancel(old(timers), h) else old(timers)
      ensures events == old(events) + [Emission(Everyone, TimerUpdate(old(timers.pending[h]).pollId, r))]
      ensures connectedUsers == old(connectedUsers) && connectedStudents == old(connectedStudents)
    {
      events := events + [Emission(Everyone, TimerUpdate(timers.pending[h].pollId, r))];
      if r <= 0 {
        TrackedAfterCancel(activePollTimers, timers, h);
        timers := Cancel(timers, h);
      }
    }

    /** The timeout callback: clear the poll's interval, then `endPoll`. */
    method AutoClose(h: Handle, now: int)
      requires Valid() && h in timers.pending && timers.pending[h].AutoClose?
      requires now >= timers.pending[h].dueAt
      modifies this, store
      ensures Valid()
      ensures var job := old(timers.pending[h]);
        var db := End(old(store.Snapshot()), job.pollId, now).0;
        var i := ById(old(store.polls), job.pollId).value;
        && store.Snapshot() == db
        && End(old(store.Snapshot()), job.pollId, now).1
        && activePollTimers == old(activePollTimers) - {job.pollId}
        && timers == StopPollTimers(old(activePollTimers), Cancel(Cancel(old(timers), h), job.interval), job.pollId)
        && (forall h' :: h' in timers.pending ==> timers.pending[h'].pollId != job.pollId)
        && events == old(events) + [Emission(Everyone, PollEnded(job.pollId, db.polls[i].options, ResponseCount(db.responses, job.pollId)))]
      ensures connectedUsers == old(connectedUsers) && connectedStudents == old(connectedStudents)
    {
      var job := timers.pending[h];
      assert ById(store.polls, job.pollId).Some?;
      TrackedAfterCancel(activePollTimers, timers, h);
      timers := Cancel(timers, h);
      TrackedAfterCancel(activePollTimers, timers, job.interval);
      timers := Cancel(timers, job.interval);
      EndPoll(job.pollId, now);
    }
  }
}
