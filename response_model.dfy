/**
 * The Response record (backend/models/Response.js): one student's vote on one
 * poll. The collection is kept in insertion order; the compound unique index
 * on (pollId, studentName) is the predicate `UniqueKeys`.
 */
module ResponseModel {
  import Text
  import opened PollModel

  datatype Response = Response(pollId: PollId, studentName: string, optionIndex: int, submittedAt: int)

  /** The document `new Response({...})` builds: the name passes through the schema's `trim`. */
  function NewResponse(pollId: PollId, studentName: string, optionIndex: int, now: int): (r: Response)
    ensures r.pollId == pollId && r.studentName == Text.Trim(studentName)
    ensures r.optionIndex == optionIndex && r.submittedAt == now
  {
    Response(pollId, Text.Trim(studentName), optionIndex, now)
  }

  /** The `required` validator on the (trimmed) name. */
  predicate ResponsePassesSchema(r: Response) {
    r.studentName != []
  }

  /** No two responses share a (pollId, studentName) key. */
  predicate UniqueKeys(rs: seq<Response>) {
    forall i, j :: 0 <= i < j < |rs| ==> rs[i].pollId != rs[j].pollId || rs[i].studentName != rs[j].studentName
  }

  /** `Response.findOne({ pollId, studentName })` finds something. */
  predicate HasResponse(rs: seq<Response>, pollId: PollId, studentName: string) {
    exists i :: 0 <= i < |rs| && rs[i].pollId == pollId && rs[i].studentName == studentName
  }

  /** `Response.countDocuments({ pollId })`. */
  function ResponseCount(rs: seq<Response>, pollId: PollId): (n: nat)
    ensures n <= |rs|
  {
    if rs == [] then 0
    else ResponseCount(rs[..|rs| - 1], pollId) + (if rs[|rs| - 1].pollId == pollId then 1 else 0)
  }

  /** Appending one response adds one to its own poll's count and nothing to any other. */
  lemma CountAppend(rs: seq<Response>, r: Response, pollId: PollId)
    ensures ResponseCount(rs + [r], pollId) == ResponseCount(rs, pollId) + (if r.pollId == pollId then 1 else 0)
  {
    assert (rs + [r])[..|rs|] == rs;
  }

  /** A poll has no responses exactly when none names it. */
  lemma {:induction false} ResponseCountZero(rs: seq<Response>, pollId: PollId)
    ensures ResponseCount(rs, pollId) == 0 <==> forall i :: 0 <= i < |rs| ==> rs[i].pollId != pollId
  {
    if rs != [] {
      var n := |rs| - 1;
      ResponseCountZero(rs[..n], pollId);
      assert forall i :: 0 <= i < n ==> rs[..n][i] == rs[i];
    }
  }

  /** Appending a response with a new key keeps the keys unique. */
  lemma AppendKeepsUnique(rs: seq<Response>, r: Response)
    requires UniqueKeys(rs) && !HasResponse(rs, r.pollId, r.studentName)
    ensures UniqueKeys(rs + [r])
  {
    var t := rs + [r];
    forall i, j | 0 <= i < j < |t| ensures t[i].pollId != t[j].pollId || t[i].studentName != t[j].studentName {
      if j == |rs| {
        assert t[i] == rs[i];
      }
    }
  }

  /** Two responses with the same key cannot both be in a uniquely keyed collection. */
  lemma UniqueKeyDeterminesResponse(rs: seq<Response>, i: nat, j: nat)
    requires UniqueKeys(rs) && i < |rs| && j < |rs|
    requires rs[i].pollId == rs[j].pollId && rs[i].studentName == rs[j].studentName
    ensures i == j
  {
    if i < j { } else if j < i { }
  }
}
