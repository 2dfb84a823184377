/** `UserManager` (user.py): the in-memory member collection and the log of
    every snapshot it hands to the store's `save_users`. */
module Users {
  import opened Results
  import opened Seqs
  import opened Models

  /** The membership. `saved` records, oldest first, each collection passed
      to `save_users`. */
  datatype Members = Members(users: seq<User>, saved: seq<seq<User>>)

  /** No two members share an id. */
  predicate UniqueIds(users: seq<User>) {
    forall i, j :: 0 <= i < j < |users| ==> users[i].userId != users[j].userId
  }

  /** `find_user_by_id`: the position of the first member whose id equals
      the query exactly (no stripping), or `None`. */
  function FindUser(users: seq<User>, userId: string): (r: Option<nat>)
    ensures r.Some? ==> r.value < |users| && users[r.value].userId == userId
    ensures r.Some? ==> forall j :: 0 <= j < r.value ==> users[j].userId != userId
    ensures r.None? <==> forall j :: 0 <= j < |users| ==> users[j].userId != userId
  {
    FirstIndex(users, (u: User) => u.userId == userId)
  }

  /** The first match is determined by the members up to and including it. */
  lemma FindUserAt(users: seq<User>, userId: string, j: nat)
    requires j < |users| && users[j].userId == userId
    requires forall k :: 0 <= k < j ==> users[k].userId != userId
    ensures FindUser(users, userId) == Some(j)
  {
  }

  /** `add_user`: a member whose id is already taken is refused with no
      change and no save; otherwise the member is appended, the collection
      saved once and `true` returned. Distinct ids stay distinct. */
  function AddUser(m: Members, u: User): (r: Attempt<Members>)
    ensures r.ok <==> forall k :: 0 <= k < |m.users| ==> m.users[k].userId != u.userId
    ensures r.ok ==> && |r.next.users| == |m.users| + 1
                     && r.next.users[..|m.users|] == m.users
                     && r.next.users[|m.users|] == u
                     && r.next.saved == m.saved + [r.next.users]
    ensures !r.ok ==> r.next == m
    ensures UniqueIds(m.users) ==> UniqueIds(r.next.users)
  {
    match FindUser(m.users, u.userId)
    case Some(_) => Attempt(false, m)
    case None =>
      var users := m.users + [u];
      Attempt(true, Members(users, m.saved + [users]))
  }

  /** `remove_user`: the first member with the id is removed, the others
      keep their order, the collection is saved once and `true` returned;
      an unknown id changes nothing and gives `false`. */
  function RemoveUser(m: Members, userId: string): (r: Attempt<Members>)
    ensures r.ok <==> exists k :: 0 <= k < |m.users| && m.users[k].userId == userId
    ensures r.ok ==> && r.next.users == RemoveAt(m.users, FindUser(m.users, userId).value)
                     && r.next.saved == m.saved + [r.next.users]
    ensures !r.ok ==> r.next == m
  {
    match FindUser(m.users, userId)
    case None => Attempt(false, m)
    case Some(j) =>
      var users := RemoveAt(m.users, j);
      Attempt(true, Members(users, m.saved + [users]))
  }

  /** With unique ids, a removed member can no longer be found. */
  lemma RemoveThenFind(m: Members, userId: string)
    requires UniqueIds(m.users)
    ensures FindUser(RemoveUser(m, userId).next.users, userId).None?
  {
    var r := RemoveUser(m, userId);
    if r.ok {
      var j := FindUser(m.users, userId).value;
      forall k | 0 <= k < |r.next.users|
        ensures r.next.users[k].userId != userId
      {
        if k < j { assert r.next.users[k] == m.users[k]; }
        else { assert r.next.users[k] == m.users[k + 1]; }
      }
    }
  }

  /** `update_user`: the member with the id gets the supplied non-empty
      name and id; the borrowed list, the other members and their order
      stay, and the collection is saved once. An unknown id changes nothing
      and gives `false`. */
  function UpdateUser(m: Members, userId: string, name: Option<string>, newUserId: Option<string>): (r: Attempt<Members>)
    ensures r.ok <==> FindUser(m.users, userId).Some?
    ensures !r.ok ==> r.next == m
    ensures r.ok ==> var j := FindUser(m.users, userId).value;
                     && |r.next.users| == |m.users|
                     && (forall k :: 0 <= k < |m.users| && k != j ==> r.next.users[k] == m.users[k])
                     && r.next.users[j].borrowed == m.users[j].borrowed
                     && (Supplied(name) ==> r.next.users[j].name == name.value)
                     && (!Supplied(name) ==> r.next.users[j].name == m.users[j].name)
                     && (Supplied(newUserId) ==> r.next.users[j].userId == newUserId.value)
                     && (!Supplied(newUserId) ==> r.next.users[j].userId == userId)
                     && r.next.saved == m.saved + [r.next.users]
  {
    match FindUser(m.users, userId)
    case None => Attempt(false, m)
    case Some(j) =>
      var u := m.users[j];
      var u' := u.(name := Pick(name, u.name), userId := Pick(newUserId, u.userId));
      var users := m.users[j := u'];
      Attempt(true, Members(users, m.saved + [users]))
  }

  /** Unlike `add_user`, `update_user` does not check that a new id is
      free, so it keeps ids distinct only when the new id is not taken by
      another member. */
  lemma UpdateUserKeepsIdsDistinct(m: Members, userId: string, name: Option<string>, newUserId: Option<string>)
    requires UniqueIds(m.users)
    requires Supplied(newUserId) ==> forall k :: 0 <= k < |m.users| && m.users[k].userId != userId ==> m.users[k].userId != newUserId.value
    ensures UniqueIds(UpdateUser(m, userId, name, newUserId).next.users)
  {
    var r := UpdateUser(m, userId, name, newUserId);
    if r.ok {
      var j := FindUser(m.users, userId).value;
      forall a, b | 0 <= a < b < |r.next.users|
        ensures r.next.users[a].userId != r.next.users[b].userId
      {
        if a == j || b == j {
          var other := if a == j then b else a;
          assert r.next.users[other] == m.users[other];
          assert m.users[other].userId != m.users[j].userId;
        }
      }
    }
  }

  /** `update_user` can give two members the same id: renaming the second
      of two distinct members to the first one's id succeeds. */
  lemma UpdateUserCanDuplicateIds(m: Members, a: string, b: string)
    requires a != b && a != ""
    requires m.users == [User("", a, []), User("", b, [])]
    ensures UniqueIds(m.users)
    ensures UpdateUser(m, b, None, Some(a)).ok
    ensures !UniqueIds(UpdateUser(m, b, None, Some(a)).next.users)
  {
    FindUserAt(m.users, b, 1);
    var r := UpdateUser(m, b, None, Some(a));
    assert r.next.users[0].userId == r.next.users[1].userId;
  }
}
