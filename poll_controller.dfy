/**
 * The REST handlers of backend/controllers/pollController.js over the
 * store: each handler reads or updates the store and produces the HTTP
 * status and body it sends.
 */
module PollController {
  import opened Wrappers
  import opened Text
  import opened PollModel
  import opened ResponseModel
  import opened Store
  import opened Lifecycle
  import opened History

  const BadBodyMessage := "Please provide a question and at least 2 options"
  const ActiveExistsMessage := "A poll is already active. Please end it before creating a new one."
  const NoActiveMessage := "No active poll found"
  const NotFoundMessage := "Poll not found"
  const ServerErrorMessage := "Server error"

  /**
   * The `options` field of a request body: absent (or another falsy value),
   * present but not an array, or an array of option texts.
   */
  datatype OptionsField = Missing | NotArray | Items(texts: seq<string>)

  /** A `createPoll` request body; an absent `question` is `None`. */
  datatype CreateBody = CreateBody(question: Option<string>, options: OptionsField, duration: Option<int>)

  /** A poll as sent back, with `totalResponses` where the handler adds it. */
  datatype PollView = PollView(poll: Poll, totalResponses: Option<nat>)

  datatype Body =
    | Failure(message: string)
    | OnePoll(data: PollView)
    | ManyPolls(list: seq<PollView>)
    | VoteCheck(hasVoted: bool)

  datatype Reply = Reply(status: int, body: Body)

  /**
   * The request check of `createPoll`: a truthy question (present and not
   * the empty string) and an array of at least two options.
   */
  predicate BodyAccepted(b: CreateBody) {
    && b.question.Some? && b.question.value != []
    && b.options.Items? && |b.options.texts| >= 2
  }

  /** The reply for each outcome of a create that passed the request check. */
  function CreateReply(outcome: CreateOutcome): (reply: Reply)
    ensures reply.status == 201 <==> outcome.Created?
    ensures outcome.Created? ==> reply.body == OnePoll(PollView(outcome.poll, None))
    ensures outcome == AlreadyActive ==> reply == Reply(400, Failure(ActiveExistsMessage))
    ensures outcome == CreateFailed ==> reply == Reply(500, Failure(ServerErrorMessage))
  {
    match outcome
    case Created(p) => Reply(201, OnePoll(PollView(p, None)))
    case AlreadyActive => Reply(400, Failure(ActiveExistsMessage))
    case CreateFailed => Reply(500, Failure(ServerErrorMessage))
  }

  /**
   * The request check looks at the number of options but not at their
   * texts, and at the question's emptiness but not its blankness: with no
   * poll active, a body it accepts is refused by the schema, and answered
   * 500 rather than 400, exactly when the question is blank or some option
   * text is empty.
   */
  lemma AcceptedBodyCanFailSchema(db: Db, b: CreateBody, now: int)
    requires !HasActive(db) && BodyAccepted(b)
    ensures var out := Create(db, b.question.value, b.options.texts, b.duration, now).1;
      && (out == CreateFailed <==>
           Trim(b.question.value) == [] || exists k :: 0 <= k < |b.options.texts| && b.options.texts[k] == [])
      && (out == CreateFailed ==> CreateReply(out).status == 500)
  {
  }

  /** Both kinds of such bodies exist: a question of one space, and an empty second option. */
  lemma SchemaFailureExamples(db: Db, now: int)
    requires !HasActive(db)
    ensures var b := CreateBody(Some(" "), Items(["a", "b"]), None);
      BodyAccepted(b) && Create(db, " ", ["a", "b"], None, now).1 == CreateFailed
    ensures var b := CreateBody(Some("Q"), Items(["a", ""]), None);
      BodyAccepted(b) && Create(db, "Q", ["a", ""], None, now).1 == CreateFailed
  {
    assert IsJsWhitespace(' ');
    assert TrimStart(" ") == [];
    assert ["a", ""][1] == [];
  }

  /**
   * `POST /api/polls/create`: a body that fails the request check is
   * answered 400 and touches nothing; otherwise the store changes as
   * `Create` says and the reply reports its outcome.
   */
  method CreatePoll(store: PollStore, body: CreateBody, now: int) returns (reply: Reply)
    requires store.Valid()
    modifies store
    ensures store.Valid()
    ensures !BodyAccepted(body) ==>
      reply == Reply(400, Failure(BadBodyMessage)) && store.Snapshot() == old(store.Snapshot())
    ensures BodyAccepted(body) ==>
      var (db, outcome) := Create(old(store.Snapshot()), body.question.value, body.options.texts, body.duration, now);
      store.Snapshot() == db && reply == CreateReply(outcome)
  {
    if !BodyAccepted(body) {
      return Reply(400, Failure(BadBodyMessage));
    }
    var outcome := SaveNewPoll(store, body.question.value, body.options.texts, body.duration, now);
    reply := CreateReply(outcome);
  }

  /**
   * `GET /api/polls/active`: 404 when no poll is active, otherwise the first
   * active poll with its number of responses.
   */
  method GetActivePoll(store: PollStore) returns (reply: Reply)
    ensures FirstActive(store.polls).None? <==> reply == Reply(404, Failure(NoActiveMessage))
    ensures FirstActive(store.polls).Some? ==>
      var p := store.polls[FirstActive(store.polls).value];
      reply == Reply(200, OnePoll(PollView(p, Some(ResponseCount(store.responses, p.id)))))
  {
    var active := store.FindActive();
    if active.None? {
      return Reply(404, Failure(NoActiveMessage));
    }
    var p := store.polls[active.value];
    var count := store.CountDocuments(p.id);
    reply := Reply(200, OnePoll(PollView(p, Some(count))));
  }

  /**
   * `GET /api/polls/:id`: 404 for an unknown id, otherwise that poll with
   * its number of responses.
   */
  method GetPollById(store: PollStore, id: PollId) returns (reply: Reply)
    ensures ById(store.polls, id).None? <==> reply == Reply(404, Failure(NotFoundMessage))
    ensures ById(store.polls, id).Some? ==>
      var p := store.polls[ById(store.polls, id).value];
      p.id == id && reply == Reply(200, OnePoll(PollView(p, Some(ResponseCount(store.responses, id)))))
  {
    var found := store.FindById(id);
    if found.None? {
      return Reply(404, Failure(NotFoundMessage));
    }
    var p := store.polls[found.value];
    var count := store.CountDocuments(id);
    reply := Reply(200, OnePoll(PollView(p, Some(count))));
  }

  /** Each page entry paired with its number of responses. */
  function WithCounts(page: seq<Poll>, responses: seq<Response>): (views: seq<PollView>)
    ensures |views| == |page|
    ensures forall i :: 0 <= i < |page| ==>
      views[i] == PollView(page[i], Some(ResponseCount(responses, page[i].id)))
  {
    if page == [] then []
    else WithCounts(page[..|page| - 1], responses) + [PollView(page[|page| - 1], Some(ResponseCount(responses, page[|page| - 1].id)))]
  }

  /**
   * `GET /api/polls/all`: the history page (ended polls only, newest first,
   * at most 50), each poll with its number of responses.
   */
  method GetAllPolls(store: PollStore) returns (reply: Reply)
    ensures reply == Reply(200, ManyPolls(WithCounts(HistoryPage(store.polls), store.responses)))
  {
    var page := HistoryPage(store.polls);
    var views: seq<PollView> := [];
    var i := 0;
    while i < |page|
      invariant 0 <= i <= |page|
      invariant views == WithCounts(page[..i], store.responses)
    {
      var count := store.CountDocuments(page[i].id);
      assert page[..i + 1][..i] == page[..i];
      views := views + [PollView(page[i], Some(count))];
      i := i + 1;
    }
    assert page[..i] == page;
    reply := Reply(200, ManyPolls(views));
  }

  /**
   * `POST /api/polls/:id/end`: 404 for an unknown id; otherwise the poll is
   * ended at `now` (whatever its status was) and sent back. Socket-side
   * timers of that poll are not touched by this route.
   */
  method EndPoll(store: PollStore, id: PollId, now: int) returns (reply: Reply)
    requires store.Valid()
    modifies store
    ensures store.Valid()
    ensures var (db, found) := End(old(store.Snapshot()), id, now);
      && store.Snapshot() == db
      && (!found <==> reply == Reply(404, Failure(NotFoundMessage)))
      && (found ==> reply == Reply(200, OnePoll(PollView(db.polls[ById(old(store.polls), id).value], None))))
  {
    var found := SaveEnded(store, id, now);
    if found.None? {
      return Reply(404, Failure(NotFoundMessage));
    }
    reply := Reply(200, OnePoll(PollView(store.polls[found.value], None)));
  }

  /**
   * `GET /api/polls/:id/check-vote/:studentName`: whether a response of
   * that (trimmed) name to that poll is stored. An unknown poll id is not
   * an error: it simply has no responses.
   */
  method CheckStudentVoted(store: PollStore, id: PollId, studentName: string) returns (reply: Reply)
    ensures reply.status == 200 && reply.body.VoteCheck?
    ensures reply.body.hasVoted <==> HasResponse(store.responses, id, Trim(studentName))
  {
    var found := store.FindResponse(id, studentName);
    reply := Reply(200, VoteCheck(found));
  }
}
