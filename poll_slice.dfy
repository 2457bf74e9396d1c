/**
 * The client's poll state (frontend/src/features/poll/pollSlice.js). Each
 * reducer of the slice is a method that assigns fields of the state in
 * place; `State()` reads the whole state as a value so that each method can
 * say which fields it changes and that the others stay put.
 */
module PollSlice {
  import opened Wrappers
  import opened PollModel

  /**
   * A poll as the client holds it: the payload of `pollCreated` or
   * `activePoll`, whose optional members are `None` when absent.
   */
  datatype ClientPoll = ClientPoll(
    pollId: Option<PollId>,
    question: string,
    options: seq<string>,
    duration: Option<int>,
    timeRemaining: Option<int>,
    results: Option<seq<PollOption>>,
    totalResponses: Option<int>,
    status: Option<Status>)

  datatype SliceState = SliceState(
    currentPoll: Option<ClientPoll>,
    pollHistory: seq<ClientPoll>,
    isLoading: bool,
    error: Option<string>,
    studentName: string,
    hasVoted: bool,
    selectedOption: Option<int>,
    timeRemaining: int)

  /**
   * `payload?.timeRemaining || payload?.duration || 0`: the first of the two
   * that is present and non-zero, else 0. A remaining time of 0 falls
   * through to the duration.
   */
  function StartingTime(payload: Option<ClientPoll>): (t: int)
    ensures payload.None? ==> t == 0
    ensures payload.Some? && payload.value.timeRemaining.Some? && payload.value.timeRemaining.value != 0 ==>
      t == payload.value.timeRemaining.value
    ensures t == 0 <==>
      payload.None? || (payload.value.timeRemaining.GetOr(0) == 0 && payload.value.duration.GetOr(0) == 0)
    ensures t != 0 ==> (payload.value.timeRemaining == Some(t) || payload.value.duration == Some(t))
  {
    match payload
    case None => 0
    case Some(p) =>
      if p.timeRemaining.Some? && p.timeRemaining.value != 0 then p.timeRemaining.value
      else if p.duration.Some? && p.duration.value != 0 then p.duration.value
      else 0
  }

  /**
   * The guard of `updatePollResults`: a poll is shown, and the payload either
   * names no poll or names the one shown.
   */
  predicate ResultsApply(current: Option<ClientPoll>, pollId: Option<PollId>) {
    current.Some? && (pollId.None? || current.value.pollId == pollId)
  }

  /** One `decrementTimer`: a positive count goes down by one, anything else is kept. */
  function Decremented(t: int): (r: int)
    ensures t > 0 ==> r == t - 1
    ensures t <= 0 ==> r == t
    ensures r <= t && (r >= 0 <==> t >= 0)
  {
    if t > 0 then t - 1 else t
  }

  /** `n` successive `decrementTimer`s. */
  function Countdown(t: int, n: nat): int {
    if n == 0 then t else Decremented(Countdown(t, n - 1))
  }

  /** From a non-negative count, `n` decrements leave `max(0, t - n)`: never below zero. */
  lemma {:induction false} CountdownFloor(t: int, n: nat)
    requires t >= 0
    ensures Countdown(t, n) == if t - n > 0 then t - n else 0
  {
    if n > 0 {
      CountdownFloor(t, n - 1);
    }
  }

  class PollSliceStore {
    var currentPoll: Option<ClientPoll>
    var pollHistory: seq<ClientPoll>
    var isLoading: bool
    var error: Option<string>
    var studentName: string
    var hasVoted: bool
    var selectedOption: Option<int>
    var timeRemaining: int

    function State(): SliceState
      reads this
    {
      SliceState(currentPoll, pollHistory, isLoading, error, studentName, hasVoted, selectedOption, timeRemaining)
    }

    /** `initialState`; `storedName` is what local storage holds under "studentName". */
    constructor (storedName: Option<string>)
      ensures State() == SliceState(None, [], false, None, storedName.GetOr(""), false, None, 0)
    {
      currentPoll := None;
      pollHistory := [];
      isLoading := false;
      error := None;
      studentName := storedName.GetOr("");
      hasVoted := false;
      selectedOption := None;
      timeRemaining := 0;
    }

    method SetStudentName(name: string)
      modifies this
      ensures State() == old(State()).(studentName := name)
    {
      studentName := name;
    }

    method SetCurrentPoll(payload: Option<ClientPoll>)
      modifies this
      ensures State() == old(State()).(currentPoll := payload, timeRemaining := StartingTime(payload))
    {
      currentPoll := payload;
      timeRemaining := StartingTime(payload);
    }

    method ClearCurrentPoll()
      modifies this
      ensures State() == old(State()).(currentPoll := None, hasVoted := false, selectedOption := None, timeRemaining := 0)
    {
      currentPoll := None;
      hasVoted := false;
      selectedOption := None;
      timeRemaining := 0;
    }

    /**
     * `updatePollResults`: only when the guard holds, and then only the
     * shown poll's results and response count change.
     */
    method UpdatePollResults(pollId: Option<PollId>, results: seq<PollOption>, totalResponses: int)
      modifies this
      ensures ResultsApply(old(currentPoll), pollId) ==>
        State() == old(State()).(currentPoll := Some(old(currentPoll).value.(results := Some(results), totalResponses := Some(totalResponses))))
      ensures !ResultsApply(old(currentPoll), pollId) ==> State() == old(State())
    {
      if ResultsApply(currentPoll, pollId) {
        currentPoll := Some(currentPoll.value.(results := Some(results), totalResponses := Some(totalResponses)));
      }
    }

    method SetPollHistory(history: seq<ClientPoll>)
      modifies this
      ensures State() == old(State()).(pollHistory := history)
    {
      pollHistory := history;
    }

    method SetHasVoted(voted: bool)
      modifies this
      ensures State() == old(State()).(hasVoted := voted)
    {
      hasVoted := voted;
    }

    method SetSelectedOption(option: Option<int>)
      modifies this
      ensures State() == old(State()).(selectedOption := option)
    {
      selectedOption := option;
    }

    method UpdateTimer(t: int)
      modifies this
      ensures State() == old(State()).(timeRemaining := t)
    {
      timeRemaining := t;
    }

    method DecrementTimer()
      modifies this
      ensures State() == old(State()).(timeRemaining := Decremented(old(timeRemaining)))
    {
      if timeRemaining > 0 {
        timeRemaining := timeRemaining - 1;
      }
    }

    method SetLoading(loading: bool)
      modifies this
      ensures State() == old(State()).(isLoading := loading)
    {
      isLoading := loading;
    }

    method SetError(message: Option<string>)
      modifies this
      ensures State() == old(State()).(error := message)
    {
      error := message;
    }

    method ClearError()
      modifies this
      ensures State() == old(State()).(error := None)
    {
      error := None;
    }

    /**
     * `pollEnded`: the clock always goes to 0; a shown poll is marked ended
     * with the final results, whichever poll the payload names; with no poll
     * shown nothing else changes.
     */
    method PollEnded(pollId: Option<PollId>, results: seq<PollOption>, totalResponses: int)
      modifies this
      ensures old(currentPoll).Some? ==>
        State() == old(State()).(
          currentPoll := Some(old(currentPoll).value.(status := Some(Ended), results := Some(results), totalResponses := Some(totalResponses))),
          timeRemaining := 0)
      ensures old(currentPoll).None? ==> State() == old(State()).(timeRemaining := 0)
    {
      if currentPoll.Some? {
        currentPoll := Some(currentPoll.value.(status := Some(Ended), results := Some(results), totalResponses := Some(totalResponses)));
      }
      timeRemaining := 0;
    }
  }
}
