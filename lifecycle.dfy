/**
 * What the poll lifecycle and vote handlers do to the store, as functions on
 * a store snapshot: create a poll (backend/socket.js `createPoll`, and the
 * REST `createPoll` once its body check has passed), submit a vote (socket
 * `submitVote`) and end a poll (socket `endPoll`, REST `endPoll`). The
 * handlers in Socket and PollController are proved to have exactly these
 * effects, the create and end steps through `SaveNewPoll` and `SaveEnded`,
 * which both kinds of handler share; the lemmas here state what the effects
 * guarantee.
 */
module Lifecycle {
  import opened Wrappers
  import Text
  import opened PollModel
  import opened ResponseModel
  import opened Store

  datatype CreateOutcome = Created(poll: Poll) | AlreadyActive | CreateFailed

  datatype VoteOutcome =
    | Recorded(results: seq<PollOption>, totalResponses: nat)
    | NotActive
    | AlreadyVoted
    | VoteFailed

  /** Some stored poll is active. */
  predicate HasActive(db: Db) {
    exists i :: 0 <= i < |db.polls| && db.polls[i].status == Active
  }

  /**
   * Create: refused while a poll is active; otherwise the new document is
   * saved unless the schema rejects it (blank question or an empty option
   * text).
   */
  function Create(db: Db, question: string, texts: seq<string>, duration: Option<int>, now: int): (r: (Db, CreateOutcome))
    ensures r.1 == AlreadyActive <==> HasActive(db)
    ensures !r.1.Created? ==> r.0 == db
    ensures r.1 == CreateFailed <==> !HasActive(db) && (Text.Trim(question) == [] || exists k :: 0 <= k < |texts| && texts[k] == [])
    ensures r.1.Created? ==>
      && r.0 == db.(polls := db.polls + [r.1.poll], nextId := db.nextId + 1)
      && r.1.poll.id == db.nextId && r.1.poll.question == Text.Trim(question)
      && Texts(r.1.poll.options) == texts
      && (forall k :: 0 <= k < |r.1.poll.options| ==> r.1.poll.options[k].votes == 0)
      && r.1.poll.duration == EffectiveDuration(duration)
      && r.1.poll.status == Active && r.1.poll.createdAt == now && r.1.poll.endedAt == None
  {
    if FirstActive(db.polls).Some? then (db, AlreadyActive)
    else
      var doc := NewPollDocument(db.nextId, question, texts, duration, now);
      if PassesSchema(doc) then
        (db.(polls := db.polls + [doc], nextId := db.nextId + 1), Created(doc))
      else
        assert Texts(doc.options) == texts;
        (db, CreateFailed)
  }

  /**
   * SubmitVote: refused for a missing or non-active poll and for a name that
   * already voted on it; otherwise the response is saved (unless the name is
   * blank, which the schema rejects) and then the chosen option's tally is
   * raised. An index outside the options makes the increment throw after the
   * response was saved: the response stays, no tally moves, and the caller
   * sees a failure.
   */
  function Vote(db: Db, pollId: PollId, optionIndex: int, studentName: string, now: int): (r: (Db, VoteOutcome))
    ensures r.1 == NotActive <==> ById(db.polls, pollId).None? || db.polls[ById(db.polls, pollId).value].status != Active
    ensures r.1 == AlreadyVoted <==>
      && ById(db.polls, pollId).Some? && db.polls[ById(db.polls, pollId).value].status == Active
      && HasResponse(db.responses, pollId, Text.Trim(studentName))
    ensures r.1 == NotActive || r.1 == AlreadyVoted ==> r.0 == db
    ensures r.1.Recorded? <==>
      && ById(db.polls, pollId).Some? && db.polls[ById(db.polls, pollId).value].status == Active
      && !HasResponse(db.responses, pollId, Text.Trim(studentName))
      && Text.Trim(studentName) != []
      && 0 <= optionIndex < |db.polls[ById(db.polls, pollId).value].options|
    ensures r.1.Recorded? ==>
      var i := ById(db.polls, pollId).value;
      && 0 <= optionIndex < |db.polls[i].options|
      && r.0 == db.(responses := db.responses + [NewResponse(pollId, studentName, optionIndex, now)],
                    polls := db.polls[i := db.polls[i].(options := Increment(db.polls[i].options, optionIndex))])
      && r.1.results == r.0.polls[i].options
      && r.1.totalResponses == ResponseCount(r.0.responses, pollId)
    ensures r.1 == VoteFailed ==>
      r.0 == db || r.0 == db.(responses := db.responses + [NewResponse(pollId, studentName, optionIndex, now)])
  {
    match ById(db.polls, pollId)
    case None => (db, NotActive)
    case Some(i) =>
      var p := db.polls[i];
      if p.status != Active then (db, NotActive)
      else if HasResponse(db.responses, pollId, Text.Trim(studentName)) then (db, AlreadyVoted)
      else Record(db, i, optionIndex, studentName, now)
  }

  /**
   * The saving half of a vote on the poll at position `i`: save the
   * response, then raise the chosen tally.
   */
  function Record(db: Db, i: nat, optionIndex: int, studentName: string, now: int): (r: (Db, VoteOutcome))
    requires i < |db.polls|
    ensures r.1 == VoteFailed || r.1.Recorded?
    ensures r.1.Recorded? <==> Text.Trim(studentName) != [] && 0 <= optionIndex < |db.polls[i].options|
    ensures Text.Trim(studentName) == [] ==> r == (db, VoteFailed)
    ensures Text.Trim(studentName) != [] ==>
      var p := db.polls[i];
      var saved := db.responses + [NewResponse(p.id, studentName, optionIndex, now)];
      if 0 <= optionIndex < |p.options| then
        var options := Increment(p.options, optionIndex);
        r == (db.(responses := saved, polls := db.polls[i := p.(options := options)]),
              Recorded(options, ResponseCount(saved, p.id)))
      else
        r == (db.(responses := saved), VoteFailed)
  {
    var p := db.polls[i];
    var resp := NewResponse(p.id, studentName, optionIndex, now);
    if !ResponsePassesSchema(resp) then (db, VoteFailed)
    else
      var saved := db.(responses := db.responses + [resp]);
      if 0 <= optionIndex < |p.options| then
        var p' := p.(options := Increment(p.options, optionIndex));
        (saved.(polls := db.polls[i := p']), Recorded(p'.options, ResponseCount(saved.responses, p.id)))
      else
        (saved, VoteFailed)
  }

  /**
   * End: a missing id changes nothing; otherwise the poll's status becomes
   * ended and `endedAt` becomes `now`, whatever they were before.
   */
  function End(db: Db, pollId: PollId, now: int): (r: (Db, bool))
    ensures r.1 <==> ById(db.polls, pollId).Some?
    ensures !r.1 ==> r.0 == db
    ensures r.1 ==>
      var i := ById(db.polls, pollId).value;
      r.0 == db.(polls := db.polls[i := db.polls[i].(status := Ended, endedAt := Some(now))])
  {
    match ById(db.polls, pollId)
    case None => (db, false)
    case Some(i) => (db.(polls := db.polls[i := db.polls[i].(status := Ended, endedAt := Some(now))]), true)
  }

  /**
   * The store half of both create handlers: look for an active poll, build
   * the document, `save()` it. The store ends as `Create` says.
   */
  method SaveNewPoll(store: PollStore, question: string, texts: seq<string>, duration: Option<int>, now: int)
    returns (outcome: CreateOutcome)
    requires store.Valid()
    modifies store
    ensures store.Valid()
    ensures (store.Snapshot(), outcome) == Create(old(store.Snapshot()), question, texts, duration, now)
    ensures !outcome.Created? ==> store.Snapshot() == old(store.Snapshot())
    ensures outcome.Created? ==>
      && store.polls == old(store.polls) + [outcome.poll] && outcome.poll.id == old(store.nextId)
      && store.responses == old(store.responses)
  {
    ghost var db0 := store.Snapshot();
    var active := store.FindActive();
    if active.Some? {
      CreateWhileActive(db0, question, texts, duration, now);
      return AlreadyActive;
    }
    var doc := NewPollDocument(store.nextId, question, texts, duration, now);
    CreateWhenFree(db0, question, texts, duration, now);
    var saved := store.InsertPoll(doc);
    if !saved {
      assert store.Snapshot() == db0;
      return CreateFailed;
    }
    assert store.polls == db0.polls + [doc] && store.responses == db0.responses;
    return Created(doc);
  }

  /**
   * The store half of both end handlers: `findById`, then the status and
   * `endedAt` change and `save()`. The store ends as `End` says.
   */
  method SaveEnded(store: PollStore, pollId: PollId, now: int) returns (found: Option<nat>)
    requires store.Valid()
    modifies store
    ensures store.Valid()
    ensures found == ById(old(store.polls), pollId)
    ensures (store.Snapshot(), found.Some?) == End(old(store.Snapshot()), pollId, now)
    ensures found.None? ==> store.Snapshot() == old(store.Snapshot())
    ensures found.Some? ==>
      && found.value < |old(store.polls)|
      && store.Snapshot() == old(store.Snapshot()).(polls := old(store.polls)[found.value :=
           old(store.polls)[found.value].(status := Ended, endedAt := Some(now))])
  {
    found := store.FindById(pollId);
    if found.None? {
      return;
    }
    var i := found.value;
    store.SavePoll(i, store.polls[i].(status := Ended, endedAt := Some(now)));
  }

  /** With a poll active, `Create` refuses and changes nothing. */
  lemma CreateWhileActive(db: Db, question: string, texts: seq<string>, duration: Option<int>, now: int)
    requires FirstActive(db.polls).Some?
    ensures Create(db, question, texts, duration, now) == (db, AlreadyActive)
  {
  }

  /** With no poll active, `Create` stores the new document exactly when it passes the schema. */
  lemma CreateWhenFree(db: Db, question: string, texts: seq<string>, duration: Option<int>, now: int)
    requires FirstActive(db.polls).None?
    ensures var doc := NewPollDocument(db.nextId, question, texts, duration, now);
      && (PassesSchema(doc) ==> WellFormed(doc))
      && Create(db, question, texts, duration, now) ==
         if PassesSchema(doc) then (db.(polls := db.polls + [doc], nextId := db.nextId + 1), Created(doc))
         else (db, CreateFailed)
  {
    var doc := NewPollDocument(db.nextId, question, texts, duration, now);
    if PassesSchema(doc) {
      NewPollWellFormed(db.nextId, question, texts, duration, now);
    }
  }

  /** Every poll's tallies add up to the number of its responses. */
  predicate TallyConsistent(db: Db) {
    forall i :: 0 <= i < |db.polls| ==> VoteSum(db.polls[i].options) == ResponseCount(db.responses, db.polls[i].id)
  }

  lemma CreateKeepsValid(db: Db, question: string, texts: seq<string>, duration: Option<int>, now: int)
    requires ValidDb(db)
    ensures ValidDb(Create(db, question, texts, duration, now).0)
  {
    var r := Create(db, question, texts, duration, now);
    if r.1.Created? {
      NewPollWellFormed(db.nextId, question, texts, duration, now);
      AppendKeepsValid(db, r.1.poll);
    }
  }

  /** Appending a poll with no votes that no response names keeps the tallies adding up. */
  lemma AppendUnansweredKeepsTally(db: Db, p: Poll, nextId: PollId)
    requires TallyConsistent(db) && VoteSum(p.options) == 0
    requires forall k :: 0 <= k < |db.responses| ==> db.responses[k].pollId != p.id
    ensures TallyConsistent(db.(polls := db.polls + [p], nextId := nextId))
  {
    ResponseCountZero(db.responses, p.id);
    var q := db.polls + [p];
    forall i | 0 <= i < |q| ensures VoteSum(q[i].options) == ResponseCount(db.responses, q[i].id) {
      if i < |db.polls| {
        assert q[i] == db.polls[i];
      }
    }
  }

  /** A new poll starts with no votes and no responses, so the tallies still add up. */
  lemma CreateKeepsTally(db: Db, question: string, texts: seq<string>, duration: Option<int>, now: int)
    requires ValidDb(db) && TallyConsistent(db)
    ensures TallyConsistent(Create(db, question, texts, duration, now).0)
  {
    var r := Create(db, question, texts, duration, now);
    if r.1.Created? {
      var p := r.1.poll;
      VoteSumFresh(texts);
      assert p.options == FreshOptions(texts);
      assert forall k :: 0 <= k < |db.responses| ==> db.responses[k].pollId < p.id;
      AppendUnansweredKeepsTally(db, p, db.nextId + 1);
    }
  }

  /** While a poll is active every further create is refused and changes nothing. */
  lemma {:induction false} SecondCreateRefused(db: Db, q1: string, t1: seq<string>, d1: Option<int>, n1: int,
                                               q2: string, t2: seq<string>, d2: Option<int>, n2: int)
    requires Create(db, q1, t1, d1, n1).1.Created?
    ensures Create(Create(db, q1, t1, d1, n1).0, q2, t2, d2, n2) == (Create(db, q1, t1, d1, n1).0, AlreadyActive)
  {
    var after := Create(db, q1, t1, d1, n1).0;
    assert after.polls[|after.polls| - 1].status == Active;
  }

  lemma VoteKeepsValid(db: Db, pollId: PollId, optionIndex: int, studentName: string, now: int)
    requires ValidDb(db)
    ensures ValidDb(Vote(db, pollId, optionIndex, studentName, now).0)
  {
    match ById(db.polls, pollId)
    case None =>
    case Some(i) =>
      if db.polls[i].status == Active && !HasResponse(db.responses, pollId, Text.Trim(studentName)) {
        RecordKeepsValid(db, i, optionIndex, studentName, now);
      }
  }

  /** Saving a vote by a name with no response on that poll yet keeps the store valid. */
  lemma RecordKeepsValid(db: Db, i: nat, optionIndex: int, studentName: string, now: int)
    requires ValidDb(db) && i < |db.polls|
    requires !HasResponse(db.responses, db.polls[i].id, Text.Trim(studentName))
    ensures ValidDb(Record(db, i, optionIndex, studentName, now).0)
  {
    var p := db.polls[i];
    if Text.Trim(studentName) != [] {
      var resp := NewResponse(p.id, studentName, optionIndex, now);
      Text.TrimFixesTrimmed(studentName);
      AppendResponseKeepsValid(db, resp);
      if 0 <= optionIndex < |p.options| {
        var p' := p.(options := Increment(p.options, optionIndex));
        assert WellFormed(p');
        ReplaceKeepsValid(db.(responses := db.responses + [resp]), i, p');
      }
    }
  }

  /**
   * A recorded vote keeps every poll's tallies equal to its response count,
   * and the total it reports equals the sum of the results it reports.
   */
  lemma VoteKeepsTally(db: Db, pollId: PollId, optionIndex: int, studentName: string, now: int)
    requires ValidDb(db) && TallyConsistent(db)
    requires Vote(db, pollId, optionIndex, studentName, now).1 != VoteFailed
    ensures TallyConsistent(Vote(db, pollId, optionIndex, studentName, now).0)
    ensures var r := Vote(db, pollId, optionIndex, studentName, now);
      r.1.Recorded? ==> r.1.totalResponses == VoteSum(r.1.results)
  {
    var r := Vote(db, pollId, optionIndex, studentName, now);
    if r.1.Recorded? {
      var i := ById(db.polls, pollId).value;
      var resp := NewResponse(pollId, studentName, optionIndex, now);
      VoteSumIncrement(db.polls[i].options, optionIndex);
      forall j | 0 <= j < |r.0.polls|
        ensures VoteSum(r.0.polls[j].options) == ResponseCount(r.0.responses, r.0.polls[j].id)
      {
        CountAppend(db.responses, resp, db.polls[j].id);
        if j != i {
          assert db.polls[j].id != pollId by {
            if j < i { } else { }
          }
        }
      }
    }
  }

  /**
   * A vote with an index outside the options, on an active poll, by a new
   * non-blank name: the response is saved but no tally moves, so that poll's
   * tallies now add up to one less than its response count.
   */
  lemma OutOfRangeVoteBreaksTally(db: Db, pollId: PollId, optionIndex: int, studentName: string, now: int)
    requires ValidDb(db) && TallyConsistent(db)
    requires ById(db.polls, pollId).Some? && db.polls[ById(db.polls, pollId).value].status == Active
    requires !HasResponse(db.responses, pollId, Text.Trim(studentName)) && Text.Trim(studentName) != []
    requires !(0 <= optionIndex < |db.polls[ById(db.polls, pollId).value].options|)
    ensures var r := Vote(db, pollId, optionIndex, studentName, now);
      var i := ById(db.polls, pollId).value;
      && r.1 == VoteFailed
      && |r.0.responses| == |db.responses| + 1
      && VoteSum(r.0.polls[i].options) + 1 == ResponseCount(r.0.responses, pollId)
      && !TallyConsistent(r.0)
  {
    var i := ById(db.polls, pollId).value;
    var resp := NewResponse(pollId, studentName, optionIndex, now);
    var after := db.(responses := db.responses + [resp]);
    assert db.polls[i].id == pollId;
    assert ResponsePassesSchema(resp);
    assert Record(db, i, optionIndex, studentName, now) == (after, VoteFailed);
    assert Vote(db, pollId, optionIndex, studentName, now) == (after, VoteFailed);
    CountAppend(db.responses, resp, pollId);
    assert VoteSum(db.polls[i].options) == ResponseCount(db.responses, pollId);
    assert VoteSum(after.polls[i].options) != ResponseCount(after.responses, after.polls[i].id);
  }

  /**
   * Once a name's vote is recorded, a second vote by the same name (up to
   * surrounding whitespace) on the same poll is refused and changes nothing.
   */
  lemma SecondVoteRefused(db: Db, pollId: PollId, i1: int, name1: string, t1: int, i2: int, name2: string, t2: int)
    requires Vote(db, pollId, i1, name1, t1).1.Recorded?
    requires Text.Trim(name2) == Text.Trim(name1)
    ensures var after := Vote(db, pollId, i1, name1, t1).0;
      Vote(after, pollId, i2, name2, t2) == (after, AlreadyVoted)
  {
    var after := Vote(db, pollId, i1, name1, t1).0;
    var i := ById(db.polls, pollId).value;
    assert ById(after.polls, pollId) == Some(i) by {
      ByIdAfterReplace(db.polls, i, after.polls[i], pollId);
    }
    var k := |db.responses|;
    assert after.responses[k] == NewResponse(pollId, name1, i1, t1);
  }

  lemma EndKeepsValid(db: Db, pollId: PollId, now: int)
    requires ValidDb(db)
    ensures ValidDb(End(db, pollId, now).0)
  {
    var r := End(db, pollId, now);
    if r.1 {
      var i := ById(db.polls, pollId).value;
      ReplaceKeepsValid(db, i, db.polls[i].(status := Ended, endedAt := Some(now)));
    }
  }

  /** Ending a poll moves no tally and no response. */
  lemma EndKeepsTally(db: Db, pollId: PollId, now: int)
    requires TallyConsistent(db)
    ensures TallyConsistent(End(db, pollId, now).0)
    ensures End(db, pollId, now).0.responses == db.responses
  {
    var r := End(db, pollId, now);
    assert forall j :: 0 <= j < |db.polls| ==> r.0.polls[j].options == db.polls[j].options && r.0.polls[j].id == db.polls[j].id;
  }

  /** Ending the active poll leaves no active poll, so a new one can be created. */
  lemma EndActiveFreesSlot(db: Db, now: int)
    requires ValidDb(db) && HasActive(db)
    ensures var id := db.polls[FirstActive(db.polls).value].id;
      !HasActive(End(db, id, now).0)
  {
    var i := FirstActive(db.polls).value;
    ByIdOfIncreasing(db.polls, i);
    var after := End(db, db.polls[i].id, now).0;
    forall j | 0 <= j < |after.polls| ensures after.polls[j].status != Active {
      if j != i {
        assert after.polls[j] == db.polls[j];
      }
    }
  }

  /**
   * Ending a poll twice is not idempotent: the second call overwrites
   * `endedAt` with its own time. Nothing else differs from ending it once.
   */
  lemma EndTwiceOverwritesEndedAt(db: Db, pollId: PollId, t1: int, t2: int)
    requires ById(db.polls, pollId).Some?
    ensures var once := End(db, pollId, t1).0;
      var twice := End(once, pollId, t2).0;
      var i := ById(db.polls, pollId).value;
      && twice.polls[i].endedAt == Some(t2)
      && (t1 != t2 ==> twice != once)
      && twice.polls[i] == once.polls[i].(endedAt := Some(t2))
      && twice.responses == once.responses
  {
    var i := ById(db.polls, pollId).value;
    var once := End(db, pollId, t1).0;
    ByIdAfterReplace(db.polls, i, once.polls[i], pollId);
  }
}
