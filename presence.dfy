/**
 * The presence roster `connectedUsers` of backend/socket.js: a JavaScript Map
 * from connection id to {name, role, socketId}. A Map keeps insertion order,
 * and `removeStudent` depends on that order, so the roster is a sequence of
 * entries with distinct connection ids; `set` on a present key replaces the
 * entry where it stands.
 */
module Presence {
  import opened Wrappers

  /** Abstract connection id. */
  type SocketId = nat

  datatype Role = Student | Teacher

  datatype User = User(name: string, role: Role, socketId: SocketId)

  type Roster = seq<User>

  predicate KeysUnique(r: Roster) {
    forall i, j :: 0 <= i < j < |r| ==> r[i].socketId != r[j].socketId
  }

  /** The connection ids in the roster (`map.has`). */
  function Keys(r: Roster): (ks: set<SocketId>)
    ensures forall i :: 0 <= i < |r| ==> r[i].socketId in ks
  {
    if r == [] then {} else Keys(r[..|r| - 1]) + {r[|r| - 1].socketId}
  }

  /** The name `teacherJoin` records. */
  const TeacherName := "Teacher"

  /** Position of the entry for `sid`. */
  function IndexOfKey(r: Roster, sid: SocketId): (k: Option<nat>)
    ensures k.Some? ==> k.value < |r| && r[k.value].socketId == sid
    ensures k.None? <==> sid !in Keys(r)
  {
    if r == [] then None
    else if r[|r| - 1].socketId == sid then Some(|r| - 1)
    else IndexOfKey(r[..|r| - 1], sid)
  }

  /** `map.set(u.socketId, u)`: replace the entry for that id where it stands, or append one. */
  function Put(r: Roster, u: User): Roster {
    match IndexOfKey(r, u.socketId)
    case Some(k) => r[k := u]
    case None => r + [u]
  }

  /** `map.delete(sid)`: drop the entry for `sid`, keep the rest in order. */
  function Delete(r: Roster, sid: SocketId): (d: Roster)
    ensures |d| <= |r|
  {
    if r == [] then []
    else Delete(r[..|r| - 1], sid) + (if r[|r| - 1].socketId == sid then [] else [r[|r| - 1]])
  }

  /** Deleting a key removes exactly that key from the key set. */
  lemma {:induction false} DeleteKeys(r: Roster, sid: SocketId)
    ensures Keys(Delete(r, sid)) == Keys(r) - {sid}
  {
    if r != [] {
      var rest := Delete(r[..|r| - 1], sid);
      DeleteKeys(r[..|r| - 1], sid);
      assert Keys(r) == Keys(r[..|r| - 1]) + {r[|r| - 1].socketId};
      if r[|r| - 1].socketId != sid {
        assert Delete(r, sid) == rest + [r[|r| - 1]];
        KeysAppend(rest, r[|r| - 1]);
      } else {
        assert Delete(r, sid) == rest;
      }
    }
  }

  lemma KeysAppend(r: Roster, u: User)
    ensures Keys(r + [u]) == Keys(r) + {u.socketId}
  {
    assert (r + [u])[..|r|] == r;
  }

  /** Replacing an entry by one with the same id keeps the key set. */
  lemma {:induction false} KeysOfReplace(r: Roster, k: nat, u: User)
    requires k < |r| && r[k].socketId == u.socketId
    ensures Keys(r[k := u]) == Keys(r)
  {
    var n := |r| - 1;
    assert r[k := u][..n] == if k == n then r[..n] else r[..n][k := u];
    if k < n {
      KeysOfReplace(r[..n], k, u);
    }
  }

  /** With distinct keys, the entry at `k` is the one `IndexOfKey` finds for its key. */
  lemma UniqueIndex(r: Roster, sid: SocketId, k: nat)
    requires KeysUnique(r) && k < |r| && r[k].socketId == sid
    ensures IndexOfKey(r, sid) == Some(k)
  {
    var f := IndexOfKey(r, sid);
    if f.value < k { } else if f.value > k { }
  }

  /**
   * After `set`, the entry for the id is the new one and the id is the only
   * key added; every entry with another id keeps its place and value.
   */
  lemma PutProperties(r: Roster, u: User)
    requires KeysUnique(r)
    ensures var p := Put(r, u);
      && KeysUnique(p)
      && Keys(p) == Keys(r) + {u.socketId}
      && IndexOfKey(p, u.socketId).Some? && p[IndexOfKey(p, u.socketId).value] == u
      && |p| == (if u.socketId in Keys(r) then |r| else |r| + 1)
      && (forall i :: 0 <= i < |r| && r[i].socketId != u.socketId ==> p[i] == r[i])
  {
    var p := Put(r, u);
    match IndexOfKey(r, u.socketId)
    case Some(k) =>
      KeysOfReplace(r, k, u);
      UniqueIndex(p, u.socketId, k);
    case None =>
      assert p[..|r|] == r;
      UniqueIndex(p, u.socketId, |r|);
  }

  /** With distinct keys, the last entry's id does not occur before it. */
  lemma LastKeyFresh(r: Roster)
    requires KeysUnique(r) && r != []
    ensures r[|r| - 1].socketId !in Keys(r[..|r| - 1])
  {
    var f := IndexOfKey(r[..|r| - 1], r[|r| - 1].socketId);
    assert f.None?;
  }

  /** With distinct keys, deleting the key at `k` removes exactly that entry. */
  lemma {:induction false} DeleteAt(r: Roster, k: nat)
    requires KeysUnique(r) && k < |r|
    ensures Delete(r, r[k].socketId) == r[..k] + r[k + 1..]
  {
    var n := |r| - 1;
    var sid := r[k].socketId;
    var prefix := r[..n];
    if k == n {
      LastKeyFresh(r);
      DeleteAbsent(prefix, sid);
      assert r[..k] + r[k + 1..] == prefix;
    } else {
      assert prefix[k] == r[k];
      DeleteAt(prefix, k);
      assert Delete(r, sid) == Delete(prefix, sid) + [r[n]];
      assert prefix[..k] == r[..k];
      assert prefix[k + 1..] + [r[n]] == r[k + 1..];
    }
  }

  /** Deleting a key that is not there changes nothing. */
  lemma {:induction false} DeleteAbsent(r: Roster, sid: SocketId)
    requires sid !in Keys(r)
    ensures Delete(r, sid) == r
  {
    if r != [] {
      DeleteAbsent(r[..|r| - 1], sid);
    }
  }

  /** Deleting a key keeps the other keys distinct. */
  lemma DeleteKeepsUnique(r: Roster, sid: SocketId)
    requires KeysUnique(r)
    ensures KeysUnique(Delete(r, sid))
  {
    match IndexOfKey(r, sid)
    case None => DeleteAbsent(r, sid);
    case Some(k) =>
      DeleteAt(r, k);
      var d := Delete(r, sid);
      forall i, j | 0 <= i < j < |d| ensures d[i].socketId != d[j].socketId {
        var i' := if i < k then i else i + 1;
        var j' := if j < k then j else j + 1;
        assert d[i] == r[i'] && d[j] == r[j'];
      }
  }

  predicate IsStudentNamed(u: User, name: string) {
    u.name == name && u.role == Student
  }

  /** The first entry in roster order that is a student with that name. */
  function FirstStudentNamed(r: Roster, name: string): (k: Option<nat>)
    ensures k.Some? ==> k.value < |r| && IsStudentNamed(r[k.value], name)
    ensures k.Some? ==> forall j :: 0 <= j < k.value ==> !IsStudentNamed(r[j], name)
    ensures k.None? ==> forall j :: 0 <= j < |r| ==> !IsStudentNamed(r[j], name)
  {
    if r == [] then None
    else
      var first := FirstStudentNamed(r[..|r| - 1], name);
      if first.Some? then first
      else if IsStudentNamed(r[|r| - 1], name) then Some(|r| - 1)
      else None
  }

  /** `removeStudent`: delete the first student entry with that name, if any; report whose it was. */
  function RemoveStudent(r: Roster, name: string): (Roster, Option<SocketId>) {
    match FirstStudentNamed(r, name)
    case None => (r, None)
    case Some(k) => (Delete(r, r[k].socketId), Some(r[k].socketId))
  }

  /**
   * Removing a student by name deletes at most one entry: the first student
   * entry with that name, and nothing when there is none. Every other entry,
   * teachers in particular, stays, in order.
   */
  lemma RemoveStudentProperties(r: Roster, name: string)
    requires KeysUnique(r)
    ensures var (r', removed) := RemoveStudent(r, name);
      && KeysUnique(r')
      && (removed.None? <==> forall j :: 0 <= j < |r| ==> !IsStudentNamed(r[j], name))
      && (removed.None? ==> r' == r)
      && (removed.Some? ==>
            var k := FirstStudentNamed(r, name).value;
            && removed.value == r[k].socketId && IsStudentNamed(r[k], name)
            && r' == r[..k] + r[k + 1..]
            && |r'| == |r| - 1)
      && (forall j :: 0 <= j < |r| && r[j].role == Teacher ==> r[j] in r')
  {
    var (r', removed) := RemoveStudent(r, name);
    match FirstStudentNamed(r, name)
    case None =>
    case Some(k) =>
      DeleteAt(r, k);
      DeleteKeepsUnique(r, r[k].socketId);
      forall j | 0 <= j < |r| && r[j].role == Teacher ensures r[j] in r' {
        assert j != k;
        assert r'[if j < k then j else j - 1] == r[j];
      }
  }
}
