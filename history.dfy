/**
 * The history query of `getAllPolls` (backend/controllers/pollController.js):
 * `Poll.find({ status: "ended" }).sort({ createdAt: -1 }).limit(50)`. The
 * store is scanned in insertion order, the ended polls are sorted newest
 * first by a stable insertion sort, and the first 50 are kept.
 */
module History {
  import opened PollModel

  const HistoryLimit := 50

  /** The ended polls, in store order. */
  function EndedPolls(polls: seq<Poll>): (e: seq<Poll>)
    ensures forall i :: 0 <= i < |e| ==> e[i].status == Ended
    ensures forall i :: 0 <= i < |e| ==> e[i] in polls
    ensures forall k :: 0 <= k < |polls| && polls[k].status == Ended ==> polls[k] in e
    ensures |e| <= |polls|
    ensures |polls| == 1 ==> e == if polls[0].status == Ended then polls else []
  {
    if polls == [] then []
    else
      var rest := EndedPolls(polls[..|polls| - 1]);
      var last := polls[|polls| - 1];
      assert forall k :: 0 <= k < |polls| - 1 ==> polls[..|polls| - 1][k] == polls[k];
      if last.status == Ended then rest + [last] else rest
  }

  /** A store with one more poll at its end: that poll is kept or dropped on its own. */
  lemma EndedPollsSnoc(polls: seq<Poll>, p: Poll)
    ensures EndedPolls(polls + [p]) == EndedPolls(polls) + if p.status == Ended then [p] else []
  {
    assert (polls + [p])[..|polls + [p]| - 1] == polls;
  }

  /**
   * The scan works poll by poll: the ended polls of two stores one after the
   * other are those of the first followed by those of the second. With the
   * one-poll case, this fixes the result exactly: every ended poll once, in
   * store order.
   */
  lemma {:induction false} EndedPollsAppend(a: seq<Poll>, b: seq<Poll>)
    ensures EndedPolls(a + b) == EndedPolls(a) + EndedPolls(b)
  {
    if b == [] {
      assert a + b == a;
    } else {
      var front, last := b[..|b| - 1], b[|b| - 1];
      var kept := if last.status == Ended then [last] else [];
      assert b == front + [last];
      assert a + b == (a + front) + [last];
      EndedPollsSnoc(a + front, last);
      EndedPollsSnoc(front, last);
      EndedPollsAppend(a, front);
      assert EndedPolls(a) + EndedPolls(front) + kept == EndedPolls(a) + (EndedPolls(front) + kept);
    }
  }

  predicate NewestFirst(s: seq<Poll>) {
    forall i, j :: 0 <= i < j < |s| ==> s[i].createdAt >= s[j].createdAt
  }

  /** A sequence with the polls of `tail` and `p`, all no newer than `top`, stays no newer than `top`. */
  lemma {:induction false} NoNewerThan(r: seq<Poll>, tail: seq<Poll>, p: Poll, top: int)
    requires multiset(r) == multiset(tail) + multiset{p}
    requires p.createdAt <= top
    requires forall j :: 0 <= j < |tail| ==> tail[j].createdAt <= top
    ensures forall k :: 0 <= k < |r| ==> r[k].createdAt <= top
  {
    forall k | 0 <= k < |r| ensures r[k].createdAt <= top {
      assert r[k] in multiset(r);
      if r[k] != p {
        assert r[k] in multiset(tail);
        var j :| 0 <= j < |tail| && tail[j] == r[k];
      }
    }
  }

  /** A poll no older than every poll of a newest-first sequence can go in front of it. */
  lemma {:induction false} ConsNewestFirst(x: Poll, rest: seq<Poll>)
    requires NewestFirst(rest)
    requires forall k :: 0 <= k < |rest| ==> rest[k].createdAt <= x.createdAt
    ensures NewestFirst([x] + rest)
  {
    var r := [x] + rest;
    forall i, j | 0 <= i < j < |r| ensures r[i].createdAt >= r[j].createdAt {
      assert r[j] == rest[j - 1];
      if i > 0 {
        assert r[i] == rest[i - 1];
      }
    }
  }

  /** Dropping the front of a newest-first sequence leaves one whose polls are no newer than the front. */
  lemma {:induction false} TailNewestFirst(s: seq<Poll>)
    requires NewestFirst(s) && s != []
    ensures NewestFirst(s[1..])
    ensures forall j :: 0 <= j < |s[1..]| ==> s[1..][j].createdAt <= s[0].createdAt
  {
    assert forall j :: 0 <= j < |s[1..]| ==> s[1..][j] == s[j + 1];
  }

  /** Insert `p` before the first poll that is no newer than it. */
  function InsertNewestFirst(p: Poll, s: seq<Poll>): (r: seq<Poll>)
    requires NewestFirst(s)
    ensures NewestFirst(r) && multiset(r) == multiset(s) + multiset{p} && |r| == |s| + 1
  {
    if s == [] then [p]
    else if p.createdAt >= s[0].createdAt then
      ConsNewestFirst(p, s);
      [p] + s
    else
      var tail := s[1..];
      assert s == [s[0]] + tail;
      TailNewestFirst(s);
      var rest := InsertNewestFirst(p, tail);
      NoNewerThan(rest, tail, p, s[0].createdAt);
      ConsNewestFirst(s[0], rest);
      assert multiset([s[0]] + rest) == multiset{s[0]} + multiset(rest);
      [s[0]] + rest
  }

  /** `.sort({ createdAt: -1 })`, ties kept in store order. */
  function SortNewestFirst(s: seq<Poll>): (r: seq<Poll>)
    ensures NewestFirst(r) && multiset(r) == multiset(s) && |r| == |s|
  {
    if s == [] then []
    else
      assert s == [s[0]] + s[1..];
      InsertNewestFirst(s[0], SortNewestFirst(s[1..]))
  }

  /** The history page: at most 50 ended polls, newest first. */
  function HistoryPage(polls: seq<Poll>): (h: seq<Poll>)
    ensures |h| == if |EndedPolls(polls)| < HistoryLimit then |EndedPolls(polls)| else HistoryLimit
  {
    var sorted := SortNewestFirst(EndedPolls(polls));
    if |sorted| < HistoryLimit then sorted else sorted[..HistoryLimit]
  }

  /**
   * The first `n` polls of a newest-first sequence are newest first, and
   * no poll of the sequence left out of them is newer than any in them.
   */
  lemma {:induction false} PrefixOfNewestFirst(sorted: seq<Poll>, h: seq<Poll>, n: nat)
    requires NewestFirst(sorted) && n <= |sorted| && h == sorted[..n]
    ensures NewestFirst(h)
    ensures multiset(h) <= multiset(sorted)
    ensures forall q :: q in multiset(sorted) && q !in h ==>
      forall i :: 0 <= i < |h| ==> h[i].createdAt >= q.createdAt
  {
    assert sorted == h + sorted[n..];
    assert multiset(sorted) == multiset(h) + multiset(sorted[n..]);
    assert forall i :: 0 <= i < |h| ==> h[i] == sorted[i];
    forall q | q in multiset(sorted) && q !in h
      ensures forall i :: 0 <= i < |h| ==> h[i].createdAt >= q.createdAt
    {
      var j :| 0 <= j < |sorted| && sorted[j] == q;
      assert j >= n;
    }
  }

  /**
   * The page holds only ended polls taken from the store, newest first,
   * each at most as often as the ended polls hold it; and every ended poll
   * that is left off the page is no newer than any poll on it.
   */
  lemma HistoryProperties(polls: seq<Poll>)
    ensures var h := HistoryPage(polls);
      && (forall i :: 0 <= i < |h| ==> h[i].status == Ended && h[i] in polls)
      && NewestFirst(h)
      && multiset(h) <= multiset(EndedPolls(polls))
      && (forall k :: 0 <= k < |polls| && polls[k].status == Ended && polls[k] !in h ==>
            forall i :: 0 <= i < |h| ==> h[i].createdAt >= polls[k].createdAt)
  {
    var e := EndedPolls(polls);
    var sorted := SortNewestFirst(e);
    var h := HistoryPage(polls);
    PrefixOfNewestFirst(sorted, h, |h|);
    forall i | 0 <= i < |h| ensures h[i].status == Ended && h[i] in polls {
      assert h[i] in multiset(sorted);
      assert h[i] in e;
    }
    forall k | 0 <= k < |polls| && polls[k].status == Ended && polls[k] !in h
      ensures forall i :: 0 <= i < |h| ==> h[i].createdAt >= polls[k].createdAt
    {
      assert polls[k] in multiset(sorted);
    }
  }
}
