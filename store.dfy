/**
 * The persistence store as an in-memory collection: the Poll and Response
 * collections in insertion order and the source of fresh ids. The queries the
 * handlers issue (`findOne`, `findById`, `countDocuments`) are scans over it;
 * `save` is an insert or an in-place replacement that runs the schema checks
 * and, for responses, the unique (pollId, studentName) index.
 */
module Store {
  import opened Wrappers
  import Text
  import opened PollModel
  import opened ResponseModel

  datatype Db = Db(polls: seq<Poll>, responses: seq<Response>, nextId: PollId)

  /** Position of the first active poll (`Poll.findOne({ status: "active" })`). */
  function FirstActive(polls: seq<Poll>): (r: Option<nat>)
    ensures r.Some? ==> r.value < |polls| && polls[r.value].status == Active
    ensures r.Some? ==> forall j :: 0 <= j < r.value ==> polls[j].status != Active
    ensures r.None? ==> forall j :: 0 <= j < |polls| ==> polls[j].status != Active
  {
    if polls == [] then None
    else
      var first := FirstActive(polls[..|polls| - 1]);
      if first.Some? then first
      else if polls[|polls| - 1].status == Active then Some(|polls| - 1)
      else None
  }

  /** Position of the poll with the given id (`Poll.findById(id)`). */
  function ById(polls: seq<Poll>, id: PollId): (r: Option<nat>)
    ensures r.Some? ==> r.value < |polls| && polls[r.value].id == id
    ensures r.Some? ==> forall j :: 0 <= j < r.value ==> polls[j].id != id
    ensures r.None? ==> forall j :: 0 <= j < |polls| ==> polls[j].id != id
  {
    if polls == [] then None
    else
      var first := ById(polls[..|polls| - 1], id);
      if first.Some? then first
      else if polls[|polls| - 1].id == id then Some(|polls| - 1)
      else None
  }

  predicate AtMostOneActive(polls: seq<Poll>) {
    forall i, j :: 0 <= i < |polls| && 0 <= j < |polls| && polls[i].status == Active && polls[j].status == Active ==> i == j
  }

  /** Ids are handed out in increasing order and are all below `nextId`. */
  predicate IdsOrdered(polls: seq<Poll>, nextId: PollId) {
    && (forall i, j :: 0 <= i < j < |polls| ==> polls[i].id < polls[j].id)
    && (forall i :: 0 <= i < |polls| ==> polls[i].id < nextId)
  }

  predicate AllWellFormed(polls: seq<Poll>) {
    forall i :: 0 <= i < |polls| ==> WellFormed(polls[i])
  }

  /**
   * Responses have unique keys, name a poll id that was handed out and
   * passed the schema (trimmed, non-empty name).
   */
  predicate ResponsesValid(rs: seq<Response>, nextId: PollId) {
    && UniqueKeys(rs)
    && (forall k :: 0 <= k < |rs| ==> rs[k].pollId < nextId)
    && (forall k :: 0 <= k < |rs| ==> ResponsePassesSchema(rs[k]) && Text.IsTrimmed(rs[k].studentName))
  }

  /**
   * The store invariant: ordered ids below `nextId`, at most one active
   * poll, every poll well formed, every response valid.
   */
  predicate ValidDb(db: Db) {
    && IdsOrdered(db.polls, db.nextId)
    && AtMostOneActive(db.polls)
    && AllWellFormed(db.polls)
    && ResponsesValid(db.responses, db.nextId)
  }

  /** With at most one active poll, the active poll is the first one. */
  lemma OnlyActiveIsFirst(polls: seq<Poll>, i: nat)
    requires AtMostOneActive(polls) && i < |polls| && polls[i].status == Active
    ensures FirstActive(polls) == Some(i)
  {
  }

  /** With increasing ids, a poll's id finds that very poll. */
  lemma ByIdOfIncreasing(polls: seq<Poll>, i: nat)
    requires forall a, b :: 0 <= a < b < |polls| ==> polls[a].id < polls[b].id
    requires i < |polls|
    ensures ById(polls, polls[i].id) == Some(i)
  {
  }

  /** Replacing a poll by one with the same id leaves every id lookup as it was. */
  lemma ByIdAfterReplace(polls: seq<Poll>, i: nat, p: Poll, id: PollId)
    requires i < |polls| && p.id == polls[i].id
    ensures ById(polls[i := p], id) == ById(polls, id)
  {
    var q := polls[i := p];
    assert forall j :: 0 <= j < |q| ==> q[j].id == polls[j].id;
  }

  /** Appending a poll leaves every lookup of an id that was already stored as it was. */
  lemma ByIdAfterAppend(polls: seq<Poll>, p: Poll, id: PollId)
    requires ById(polls, id).Some?
    ensures ById(polls + [p], id) == ById(polls, id)
  {
    assert (polls + [p])[..|polls|] == polls;
  }

  /** Replacing a poll by one with the same id leaves the invariant in place, given the new poll is acceptable. */
  lemma ReplaceKeepsValid(db: Db, i: nat, p: Poll)
    requires ValidDb(db) && i < |db.polls| && p.id == db.polls[i].id && WellFormed(p)
    requires p.status == Active ==> db.polls[i].status == Active
    ensures ValidDb(db.(polls := db.polls[i := p]))
  {
    var q := db.polls[i := p];
    assert IdsOrdered(q, db.nextId) by {
      assert forall j :: 0 <= j < |q| ==> q[j].id == db.polls[j].id;
    }
    assert AtMostOneActive(q) by {
      forall a, b | 0 <= a < |q| && 0 <= b < |q| && q[a].status == Active && q[b].status == Active
        ensures a == b
      {
        assert db.polls[a].status == Active && db.polls[b].status == Active;
      }
    }
    assert AllWellFormed(q);
  }

  /** Appending a poll with the next id keeps the invariant, given it is the only active one. */
  lemma AppendKeepsValid(db: Db, p: Poll)
    requires ValidDb(db) && p.id == db.nextId && WellFormed(p)
    requires p.status == Active ==> FirstActive(db.polls).None?
    ensures ValidDb(db.(polls := db.polls + [p], nextId := db.nextId + 1))
  {
    var q := db.polls + [p];
    assert IdsOrdered(q, db.nextId + 1);
    assert AtMostOneActive(q);
    assert AllWellFormed(q);
    assert ResponsesValid(db.responses, db.nextId + 1);
  }

  /** Appending a response that passed the schema and the unique index keeps the invariant. */
  lemma AppendResponseKeepsValid(db: Db, r: Response)
    requires ValidDb(db) && r.pollId < db.nextId && Text.IsTrimmed(r.studentName)
    requires ResponsePassesSchema(r) && !HasResponse(db.responses, r.pollId, r.studentName)
    ensures ValidDb(db.(responses := db.responses + [r]))
  {
    AppendKeepsUnique(db.responses, r);
    var rs := db.responses + [r];
    assert forall k :: 0 <= k < |db.responses| ==> rs[k] == db.responses[k];
  }

  class PollStore {
    var polls: seq<Poll>
    var responses: seq<Response>
    var nextId: PollId

    /** The store's contents as a value. */
    function Snapshot(): Db
      reads this
    {
      Db(polls, responses, nextId)
    }

    predicate Valid()
      reads this
    {
      ValidDb(Snapshot())
    }

    constructor ()
      ensures Valid() && Snapshot() == Db([], [], 0)
    {
      polls, responses, nextId := [], [], 0;
    }

    /** `Poll.findOne({ status: "active" })`: a scan in insertion order. */
    method FindActive() returns (r: Option<nat>)
      ensures r == FirstActive(polls)
    {
      var i := 0;
      while i < |polls|
        invariant 0 <= i <= |polls|
        invariant forall j :: 0 <= j < i ==> polls[j].status != Active
      {
        if polls[i].status == Active {
          return Some(i);
        }
        i := i + 1;
      }
      return None;
    }

    /** `Poll.findById(id)`. */
    method FindById(id: PollId) returns (r: Option<nat>)
      ensures r == ById(polls, id)
    {
      var i := 0;
      while i < |polls|
        invariant 0 <= i <= |polls|
        invariant forall j :: 0 <= j < i ==> polls[j].id != id
      {
        if polls[i].id == id {
          return Some(i);
        }
        i := i + 1;
      }
      return None;
    }

    /** `Response.countDocuments({ pollId })`. */
    method CountDocuments(pollId: PollId) returns (n: nat)
      ensures n == ResponseCount(responses, pollId)
    {
      n := 0;
      var i := 0;
      while i < |responses|
        invariant 0 <= i <= |responses|
        invariant n == ResponseCount(responses[..i], pollId)
      {
        assert responses[..i + 1][..i] == responses[..i];
        if responses[i].pollId == pollId {
          n := n + 1;
        }
        i := i + 1;
      }
      assert responses[..i] == responses;
    }

    /**
     * `Response.findOne({ pollId, studentName })`. The filter value is cast
     * through the schema, so its `trim` applies to the name looked up.
     */
    method FindResponse(pollId: PollId, studentName: string) returns (found: bool)
      ensures found <==> HasResponse(responses, pollId, Text.Trim(studentName))
    {
      var name := Text.Trim(studentName);
      var i := 0;
      while i < |responses|
        invariant 0 <= i <= |responses|
        invariant forall j :: 0 <= j < i ==> responses[j].pollId != pollId || responses[j].studentName != name
      {
        if responses[i].pollId == pollId && responses[i].studentName == name {
          return true;
        }
        i := i + 1;
      }
      return false;
    }

    /**
     * `save()` of a new poll built with the next id: the schema check, then
     * the insert. The caller has established that a new active poll is the
     * only one.
     */
    method InsertPoll(p: Poll) returns (saved: bool)
      requires Valid() && p.id == nextId
      requires PassesSchema(p) ==> WellFormed(p)
      requires p.status == Active ==> FirstActive(polls).None?
      modifies this
      ensures Valid()
      ensures saved <==> PassesSchema(p)
      ensures Snapshot() == if saved then old(Snapshot()).(polls := old(polls) + [p], nextId := old(nextId) + 1) else old(Snapshot())
    {
      saved := PassesSchema(p);
      if saved {
        ghost var next := Snapshot().(polls := polls + [p], nextId := nextId + 1);
        AppendKeepsValid(Snapshot(), p);
        polls, nextId := polls + [p], nextId + 1;
        assert Snapshot() == next;
      }
    }

    /** `save()` of a poll that was read and changed in memory; its id is kept. */
    method SavePoll(i: nat, p: Poll)
      requires Valid() && i < |polls| && p.id == polls[i].id && WellFormed(p)
      requires p.status == Active ==> polls[i].status == Active
      modifies this
      ensures Valid()
      ensures Snapshot() == old(Snapshot()).(polls := old(polls)[i := p])
    {
      ReplaceKeepsValid(Snapshot(), i, p);
      polls := polls[i := p];
    }

    /**
     * `save()` of a new response: the schema's required check, then the unique
     * (pollId, studentName) index, then the insert.
     */
    method InsertResponse(r: Response) returns (outcome: InsertOutcome)
      requires Valid() && r.pollId < nextId && Text.IsTrimmed(r.studentName)
      modifies this
      ensures Valid()
      ensures outcome == InsertOutcome.Invalid <==> !ResponsePassesSchema(r)
      ensures outcome == DuplicateKey <==> ResponsePassesSchema(r) && HasResponse(old(responses), r.pollId, r.studentName)
      ensures Snapshot() == if outcome == Inserted then old(Snapshot()).(responses := old(responses) + [r]) else old(Snapshot())
    {
      ghost var db0 := Snapshot();
      if !ResponsePassesSchema(r) {
        return InsertOutcome.Invalid;
      }
      Text.TrimFixesTrimmed(r.studentName);
      var dup := FindResponse(r.pollId, r.studentName);
      if dup {
        return DuplicateKey;
      }
      AppendResponseKeepsValid(db0, r);
      responses := responses + [r];
      return Inserted;
    }
  }

  datatype InsertOutcome = Inserted | Invalid | DuplicateKey
}
