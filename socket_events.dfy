/**
 * The values backend/socket.js computes and emits: the remaining time of a
 * poll, the error messages, and the events its handlers send to one client
 * (`socket.emit`) or to every client (`io.emit`). Transport is an appended
 * log of these emissions.
 */
module SocketEvents {
  import opened Wrappers
  import opened PollModel
  import opened ResponseModel
  import opened Store
  import opened Lifecycle
  import opened Presence

  /**
   * `Math.max(0, duration - Math.floor((now - createdAt) / 1000))`, times in
   * milliseconds. The divisor is positive, so Dafny's division is the floor.
   */
  function RemainingTime(duration: int, createdAt: int, now: int): (r: int)
    ensures r >= 0
    ensures r == 0 <==> now - createdAt >= duration * 1000
    ensures now >= createdAt && duration >= 0 ==> r <= duration
  {
    var elapsed := (now - createdAt) / 1000;
    if duration - elapsed > 0 then duration - elapsed else 0
  }

  /** The remaining time never goes up as the clock advances. */
  lemma RemainingMonotone(duration: int, createdAt: int, t1: int, t2: int)
    requires t1 <= t2
    ensures RemainingTime(duration, createdAt, t2) <= RemainingTime(duration, createdAt, t1)
  {
  }

  /** One more second off the clock takes one second off the remaining time, down to zero. */
  lemma RemainingAfterSecond(duration: int, createdAt: int, now: int)
    ensures var r := RemainingTime(duration, createdAt, now);
      RemainingTime(duration, createdAt, now + 1000) == if r > 0 then r - 1 else 0
  {
    assert (now + 1000 - createdAt) / 1000 == (now - createdAt) / 1000 + 1;
  }

  const AlreadyActiveMessage := "A poll is already active"
  const CreateFailedMessage := "Failed to create poll"
  const NotActiveMessage := "Poll is not active"
  const AlreadyVotedMessage := "You have already voted"
  const VoteFailedMessage := "Failed to submit vote"
  const RemovedMessage := "You have been removed from the session by the teacher"

  datatype Event =
    | PollError(message: string)
    | PollCreated(pollId: PollId, question: string, options: seq<string>, duration: int, startTime: int)
    | TimerUpdate(pollId: PollId, timeRemaining: int)
    | VoteError(message: string)
    | VoteSubmitted(pollId: PollId, results: seq<PollOption>, totalResponses: nat)
    | ActivePoll(pollId: PollId, question: string, options: seq<string>, duration: int,
                 timeRemaining: int, results: seq<PollOption>, totalResponses: nat)
    | NoActivePoll
    | PollResults(pollId: PollId, question: string, results: seq<PollOption>, totalResponses: nat, status: Status)
    | PollEnded(pollId: PollId, results: seq<PollOption>, totalResponses: nat)
    | JoinConfirmed(studentName: string)
    | ParticipantsUpdate(participants: Roster)
    | RemovedFromSession(message: string)

  /** `io.emit` reaches every client, `socket.emit` only the caller (or the named socket). */
  datatype Audience = Everyone | Only(socketId: SocketId)

  datatype Emission = Emission(to: Audience, event: Event)

  /** What `createPoll` emits for each outcome: the new poll to all, or an error to the caller. */
  function CreateEmissions(caller: SocketId, outcome: CreateOutcome): (es: seq<Emission>)
    ensures |es| == 1
    ensures es[0].to == Everyone <==> outcome.Created?
    ensures outcome.Created? ==>
      var p := outcome.poll;
      es[0].event == PollCreated(p.id, p.question, Texts(p.options), p.duration, p.createdAt)
    ensures !outcome.Created? ==>
      es == [Emission(Only(caller), PollError(if outcome.AlreadyActive? then AlreadyActiveMessage else CreateFailedMessage))]
  {
    match outcome
    case Created(p) => [Emission(Everyone, PollCreated(p.id, p.question, Texts(p.options), p.duration, p.createdAt))]
    case AlreadyActive => [Emission(Only(caller), PollError(AlreadyActiveMessage))]
    case CreateFailed => [Emission(Only(caller), PollError(CreateFailedMessage))]
  }

  /** What `submitVote` emits: the new tallies to all, or an error to the caller. */
  function VoteEmissions(caller: SocketId, pollId: PollId, outcome: VoteOutcome): (es: seq<Emission>)
    ensures |es| == 1
    ensures es[0].to == Everyone <==> outcome.Recorded?
    ensures outcome.Recorded? ==> es[0].event == VoteSubmitted(pollId, outcome.results, outcome.totalResponses)
    ensures !outcome.Recorded? ==>
      es == [Emission(Only(caller), VoteError(
        match outcome
        case NotActive => NotActiveMessage
        case AlreadyVoted => AlreadyVotedMessage
        case _ => VoteFailedMessage))]
  {
    match outcome
    case Recorded(results, total) => [Emission(Everyone, VoteSubmitted(pollId, results, total))]
    case NotActive => [Emission(Only(caller), VoteError(NotActiveMessage))]
    case AlreadyVoted => [Emission(Only(caller), VoteError(AlreadyVotedMessage))]
    case VoteFailed => [Emission(Only(caller), VoteError(VoteFailedMessage))]
  }

  /**
   * The `getActivePoll` reply: the first active poll with its remaining time,
   * its tallies and its response count, or `noActivePoll`.
   */
  function ActivePollReply(db: Db, now: int): (e: Event)
    ensures e.NoActivePoll? <==> FirstActive(db.polls).None?
    ensures e.ActivePoll? ==>
      var p := db.polls[FirstActive(db.polls).value];
      && e.pollId == p.id && e.results == p.options && e.options == Texts(p.options)
      && e.question == p.question && e.duration == p.duration
      && e.totalResponses == ResponseCount(db.responses, p.id)
      && e.timeRemaining == RemainingTime(p.duration, p.createdAt, now)
      && 0 <= e.timeRemaining
      && (e.timeRemaining == 0 <==> now - p.createdAt >= p.duration * 1000)
  {
    match FirstActive(db.polls)
    case None => NoActivePoll
    case Some(i) =>
      var p := db.polls[i];
      ActivePoll(p.id, p.question, Texts(p.options), p.duration,
                 RemainingTime(p.duration, p.createdAt, now), p.options, ResponseCount(db.responses, p.id))
  }

  /** The `getPollResults` reply, absent for an unknown id. */
  function PollResultsReply(db: Db, pollId: PollId): (e: Option<Event>)
    ensures e.None? <==> ById(db.polls, pollId).None?
    ensures e.Some? ==>
      var p := db.polls[ById(db.polls, pollId).value];
      e.value == PollResults(pollId, p.question, p.options, ResponseCount(db.responses, pollId), p.status)
  {
    match ById(db.polls, pollId)
    case None => None
    case Some(i) =>
      var p := db.polls[i];
      Some(PollResults(p.id, p.question, p.options, ResponseCount(db.responses, pollId), p.status))
  }
}
