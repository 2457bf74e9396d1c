/**
 * The Poll record (backend/models/Poll.js): an ordered list of options with
 * vote counters, a duration in seconds, a status out of {active, ended}, a
 * creation time and an end time that is absent until the poll is ended.
 * Timestamps are integer milliseconds.
 */
module PollModel {
  import opened Wrappers
  import Text

  /** Abstract document id; the store hands them out in increasing order. */
  type PollId = nat

  /** The schema's status enum: no other value can be stored. */
  datatype Status = Active | Ended

  datatype PollOption = PollOption(text: string, votes: int)

  datatype Poll = Poll(
    id: PollId,
    question: string,
    options: seq<PollOption>,
    duration: int,
    status: Status,
    createdAt: int,
    endedAt: Option<int>)

  /** The schema default and the handlers' fallback for `duration`. */
  const DefaultDuration := 60

  /** `duration || 60`: an absent or zero duration becomes 60, any other value is kept. */
  function EffectiveDuration(d: Option<int>): (r: int)
    ensures d.Some? && d.value != 0 ==> r == d.value
    ensures d.None? || d.value == 0 ==> r == DefaultDuration
    ensures r != 0
  {
    if d.Some? && d.value != 0 then d.value else DefaultDuration
  }

  /** `options.map((opt) => ({ text: opt, votes: 0 }))`. */
  function FreshOptions(texts: seq<string>): (r: seq<PollOption>)
    ensures |r| == |texts|
    ensures forall i :: 0 <= i < |r| ==> r[i].text == texts[i] && r[i].votes == 0
  {
    if texts == [] then [] else FreshOptions(texts[..|texts| - 1]) + [PollOption(texts[|texts| - 1], 0)]
  }

  /** The option texts, in order (`poll.options.map((opt) => opt.text)`). */
  function Texts(options: seq<PollOption>): (r: seq<string>)
    ensures |r| == |options|
    ensures forall i :: 0 <= i < |r| ==> r[i] == options[i].text
  {
    if options == [] then [] else Texts(options[..|options| - 1]) + [options[|options| - 1].text]
  }

  lemma {:induction false} TextsOfFreshOptions(texts: seq<string>)
    ensures Texts(FreshOptions(texts)) == texts
  {
    var r := Texts(FreshOptions(texts));
    assert |r| == |texts|;
    assert forall i :: 0 <= i < |r| ==> r[i] == texts[i];
  }

  /**
   * The document `new Poll({...})` builds in both create handlers: the
   * question passes through the schema's `trim`, every option starts at 0
   * votes, the duration defaults to 60, the status is active, `createdAt` is
   * the current time and `endedAt` is unset.
   */
  function NewPollDocument(id: PollId, question: string, texts: seq<string>, duration: Option<int>, now: int): (p: Poll)
    ensures p.id == id && p.question == Text.Trim(question)
    ensures Texts(p.options) == texts
    ensures forall i :: 0 <= i < |p.options| ==> p.options[i].votes == 0
    ensures p.duration == EffectiveDuration(duration)
    ensures p.status == Active && p.createdAt == now && p.endedAt == None
  {
    TextsOfFreshOptions(texts);
    Poll(id, Text.Trim(question), FreshOptions(texts), EffectiveDuration(duration), Active, now, None)
  }

  /**
   * The schema's `required` validators, run by `save()`: Mongoose rejects an
   * empty string, so the (trimmed) question and every option text must be
   * non-empty. Option texts are not trimmed, so a blank text passes.
   */
  predicate PassesSchema(p: Poll) {
    p.question != [] && forall i :: 0 <= i < |p.options| ==> p.options[i].text != []
  }

  /** What holds of every stored poll. */
  predicate WellFormed(p: Poll) {
    && PassesSchema(p)
    && Text.IsTrimmed(p.question)
    && (forall i :: 0 <= i < |p.options| ==> p.options[i].votes >= 0)
    && (p.status == Active ==> p.endedAt == None)
  }

  /** A poll that `save()` accepts is well formed as soon as it is built. */
  lemma NewPollWellFormed(id: PollId, question: string, texts: seq<string>, duration: Option<int>, now: int)
    requires PassesSchema(NewPollDocument(id, question, texts, duration, now))
    ensures WellFormed(NewPollDocument(id, question, texts, duration, now))
  {
    Text.TrimFixesTrimmed(question);
  }

  /** Sum of the option tallies. */
  function VoteSum(options: seq<PollOption>): int {
    if options == [] then 0 else VoteSum(options[..|options| - 1]) + options[|options| - 1].votes
  }

  /** `options[k].votes += 1`, every other option untouched. */
  function Increment(options: seq<PollOption>, k: nat): (r: seq<PollOption>)
    requires k < |options|
    ensures |r| == |options| && r[k] == options[k].(votes := options[k].votes + 1)
    ensures forall i :: 0 <= i < |options| && i != k ==> r[i] == options[i]
  {
    options[k := options[k].(votes := options[k].votes + 1)]
  }

  /** Raising one tally keeps a poll well formed. */
  lemma IncrementWellFormed(p: Poll, k: nat)
    requires WellFormed(p) && k < |p.options|
    ensures WellFormed(p.(options := Increment(p.options, k)))
  {
  }

  /** Raising one tally by one raises the total by exactly one. */
  lemma {:induction false} VoteSumIncrement(options: seq<PollOption>, k: nat)
    requires k < |options|
    ensures VoteSum(Increment(options, k)) == VoteSum(options) + 1
  {
    var r := Increment(options, k);
    var n := |options| - 1;
    if k < n {
      VoteSumIncrement(options[..n], k);
      assert r[..n] == Increment(options[..n], k);
    } else {
      assert r[..n] == options[..n];
    }
  }

  /** A freshly built poll has no votes. */
  lemma {:induction false} VoteSumFresh(texts: seq<string>)
    ensures VoteSum(FreshOptions(texts)) == 0
  {
    if texts != [] {
      VoteSumFresh(texts[..|texts| - 1]);
      assert FreshOptions(texts)[..|texts| - 1] == FreshOptions(texts[..|texts| - 1]);
    }
  }

  /** No tally is negative, so neither is their sum. */
  lemma {:induction false} VoteSumNonNegative(options: seq<PollOption>)
    requires forall i :: 0 <= i < |options| ==> options[i].votes >= 0
    ensures VoteSum(options) >= 0
  {
    if options != [] {
      VoteSumNonNegative(options[..|options| - 1]);
    }
  }
}
