/** The stored user records and the two computations the request handler of
    backend/api/users.php performs on them: allocating the next id
    (`getNextId`) and dropping the records with a given id (the
    `array_filter` of the DELETE branch). */
module Users {

  /** One stored record, `{id, name, email}`. */
  datatype User = User(id: int, name: string, email: string)

  /** Some record carries `id`. */
  predicate HasId(users: seq<User>, id: int)
  {
    exists u :: u in users && u.id == id
  }

  predicate PositiveIds(users: seq<User>)
  {
    forall u :: u in users ==> u.id > 0
  }

  predicate UniqueIds(users: seq<User>)
  {
    forall i, j :: 0 <= i < j < |users| ==> users[i].id != users[j].id
  }

  /** The store invariant: ids are positive and no two records share one. */
  predicate WellFormed(users: seq<User>)
  {
    PositiveIds(users) && UniqueIds(users)
  }

  /** The ids of the records, in store order. */
  function Ids(users: seq<User>): (ids: seq<int>)
    ensures |ids| == |users|
    ensures forall k :: 0 <= k < |users| ==> ids[k] == users[k].id
  {
    if users == [] then [] else [users[0].id] + Ids(users[1..])
  }

  /** PHP `max(array_column($users, 'id'))`: an id that occurs in the
      store and is at least every id in it. */
  function MaxId(users: seq<User>): (m: int)
    requires users != []
    ensures HasId(users, m)
    ensures forall k :: 0 <= k < |users| ==> users[k].id <= m
  {
    if |users| == 1 then users[0].id
    else
      var rest := MaxId(users[1..]);
      assert forall k :: 1 <= k < |users| ==> users[k].id == users[1..][k - 1].id;
      if users[0].id >= rest then users[0].id else rest
  }

  /** `getNextId`: 1 for an empty store, otherwise one more than the largest
      id, so it is greater than every id in the store and positive whenever
      the ids are. */
  function NextId(users: seq<User>): (next: int)
    ensures users == [] ==> next == 1
    ensures users != [] ==> HasId(users, next - 1)
    ensures forall k :: 0 <= k < |users| ==> users[k].id < next
    ensures PositiveIds(users) ==> next > 0
  {
    if users == [] then 1 else MaxId(users) + 1
  }

  /** The two records a missing store file is created with; the next id it
      hands out is 3. */
  function SeedUsers(): (seed: seq<User>)
    ensures WellFormed(seed) && Ids(seed) == [1, 2]
    ensures NextId(seed) == 3
  {
    [User(1, "John Doe", "john@example.com"), User(2, "Jane Smith", "jane@example.com")]
  }

  /** Appending a record under the allocated id keeps the store well formed. */
  lemma AppendKeepsWellFormed(users: seq<User>, name: string, email: string)
    requires WellFormed(users)
    ensures WellFormed(users + [User(NextId(users), name, email)])
  {
    var added := users + [User(NextId(users), name, email)];
    forall i, j | 0 <= i < j < |added|
      ensures added[i].id != added[j].id
    {
      if j == |users| {
        assert added[i] == users[i];
      } else {
        assert added[i] == users[i] && added[j] == users[j];
      }
    }
  }

  /** The records whose id differs from `id`, in their original order: the
      result of the DELETE branch's filter. */
  function Without(users: seq<User>, id: int): (kept: seq<User>)
    ensures |kept| <= |users|
    ensures forall u :: u in kept <==> u in users && u.id != id
  {
    if users == [] then []
    else
      assert forall u :: u in users <==> u == users[0] || u in users[1..];
      (if users[0].id == id then [] else [users[0]]) + Without(users[1..], id)
  }

  /** The filter never duplicates a record: each record survives at most as
      often as it was stored, and a record with another id as often. */
  lemma {:induction false} WithoutMultiset(users: seq<User>, id: int)
    ensures multiset(Without(users, id)) <= multiset(users)
    ensures forall u: User :: u.id != id ==> multiset(Without(users, id))[u] == multiset(users)[u]
  {
    if users != [] {
      var head := if users[0].id == id then [] else [users[0]];
      var tail := users[1..];
      WithoutMultiset(tail, id);
      assert Without(users, id) == head + Without(tail, id);
      assert users == [users[0]] + tail;
      assert multiset(head) <= multiset([users[0]]);
      forall u: User | u.id != id
        ensures multiset(Without(users, id))[u] == multiset(users)[u]
      {
        assert multiset(head)[u] == multiset([users[0]])[u];
      }
    }
  }

  /** `a` is `b` with some records left out and the rest in the same order. */
  predicate IsSubsequence(a: seq<User>, b: seq<User>)
    decreases |b|
  {
    if a == [] then true
    else if b == [] then false
    else if a[0] == b[0] then IsSubsequence(a[1..], b[1..])
    else IsSubsequence(a, b[1..])
  }

  /** The filter keeps the surviving records in their relative order. */
  lemma {:induction false} WithoutIsSubsequence(users: seq<User>, id: int)
    ensures IsSubsequence(Without(users, id), users)
  {
    if users != [] {
      var rest := Without(users[1..], id);
      WithoutIsSubsequence(users[1..], id);
      if users[0].id == id {
        assert Without(users, id) == rest;
        assert rest != [] ==> rest[0] in rest && rest[0] != users[0];
      } else {
        assert ([users[0]] + rest)[1..] == rest;
      }
    }
  }

  /** Deleting an id nobody has changes nothing. */
  lemma {:induction false} WithoutAbsent(users: seq<User>, id: int)
    requires !HasId(users, id)
    ensures Without(users, id) == users
  {
    if users != [] {
      assert !HasId(users[1..], id) by {
        forall v | v in users[1..] ensures v.id != id { assert v in users; }
      }
      WithoutAbsent(users[1..], id);
      assert users == [users[0]] + users[1..];
    }
  }

  /** In a store with unique ids, deleting the id of record `k` removes that
      record and no other, so the store shrinks by exactly one. */
  lemma {:induction false} WithoutPresent(users: seq<User>, id: int, k: int)
    requires UniqueIds(users)
    requires 0 <= k < |users| && users[k].id == id
    ensures Without(users, id) == users[..k] + users[k + 1..]
    ensures |Without(users, id)| == |users| - 1
  {
    SplitUnique(users);
    if k == 0 {
      WithoutAbsent(users[1..], id);
    } else {
      WithoutPresent(users[1..], id, k - 1);
      assert users[0].id != users[k].id;
      SpliceAfterHead(users, k);
    }
  }

  /** Removing position `k` from the tail and putting the head back is
      removing position `k` from the whole. */
  lemma SpliceAfterHead(users: seq<User>, k: int)
    requires 0 < k < |users|
    ensures [users[0]] + (users[1..][..k - 1] + users[1..][k..]) == users[..k] + users[k + 1..]
  {
    assert users[1..][..k - 1] == users[1..k] && users[1..][k..] == users[k + 1..];
    assert [users[0]] + users[1..k] == users[..k];
  }

  /** The first record of a well-formed store has an id no later record
      has, and the later records form a well-formed store. */
  lemma SplitUnique(users: seq<User>)
    requires users != [] && UniqueIds(users)
    ensures UniqueIds(users[1..]) && !HasId(users[1..], users[0].id)
  {
    var tail := users[1..];
    forall i, j | 0 <= i < j < |tail| ensures tail[i].id != tail[j].id {
      assert tail[i] == users[i + 1] && tail[j] == users[j + 1];
    }
    forall u | u in tail ensures u.id != users[0].id {
      var m :| 0 <= m < |tail| && tail[m] == u;
      assert tail[m] == users[m + 1];
    }
  }

  /** Putting a record in front of a store with unique ids that lacks its
      id keeps the ids unique. */
  lemma ConsUnique(u: User, rest: seq<User>)
    requires UniqueIds(rest) && !HasId(rest, u.id)
    ensures UniqueIds([u] + rest)
  {
    var all := [u] + rest;
    forall i, j | 0 <= i < j < |all| ensures all[i].id != all[j].id {
      assert all[j] == rest[j - 1] && rest[j - 1] in rest;
      if i > 0 {
        assert all[i] == rest[i - 1];
      }
    }
  }

  /** Filtering keeps the store well formed. */
  lemma {:induction false} WithoutKeepsWellFormed(users: seq<User>, id: int)
    requires WellFormed(users)
    ensures WellFormed(Without(users, id))
  {
    if users != [] {
      var tail := users[1..];
      SplitUnique(users);
      assert PositiveIds(tail) by {
        forall u | u in tail ensures u.id > 0 { assert u in users; }
      }
      WithoutKeepsWellFormed(tail, id);
      var rest := Without(tail, id);
      if users[0].id != id {
        assert !HasId(rest, users[0].id);
        ConsUnique(users[0], rest);
      }
    }
  }

  /** Deleting the id of a freshly appended record restores the store:
      creating and then deleting a user is a round trip. */
  lemma {:induction false} WithoutAppended(users: seq<User>, u: User)
    requires !HasId(users, u.id)
    ensures Without(users + [u], u.id) == users
  {
    if users == [] {
      assert [u][1..] == [];
    } else {
      assert (users + [u])[1..] == users[1..] + [u];
      assert !HasId(users[1..], u.id) by {
        forall v | v in users[1..] ensures v.id != u.id { assert v in users; }
      }
      WithoutAppended(users[1..], u);
      assert users == [users[0]] + users[1..];
    }
  }

  /** Filtering one more record at the end extends the filtered prefix. */
  lemma {:induction false} WithoutSnoc(users: seq<User>, u: User, id: int)
    ensures Without(users + [u], id) == Without(users, id) + (if u.id == id then [] else [u])
  {
    var last := if u.id == id then [] else [u];
    if users == [] {
      assert [u][1..] == [];
    } else {
      var head := if users[0].id == id then [] else [users[0]];
      assert (users + [u])[0] == users[0];
      assert (users + [u])[1..] == users[1..] + [u];
      calc {
        Without(users + [u], id);
        head + Without(users[1..] + [u], id);
        { WithoutSnoc(users[1..], u, id); }
        head + (Without(users[1..], id) + last);
        (head + Without(users[1..], id)) + last;
        Without(users, id) + last;
      }
    }
  }

  /** The DELETE branch's `array_filter` pass, whose callback sets `$found`
      by reference when it drops a record: returns the filtered records and
      whether any record carried `id`. */
  method FilterOut(users: seq<User>, id: int) returns (kept: seq<User>, found: bool)
    ensures kept == Without(users, id)
    ensures found <==> HasId(users, id)
  {
    kept, found := [], false;
    var i := 0;
    while i < |users|
      invariant 0 <= i <= |users|
      invariant kept == Without(users[..i], id)
      invariant found <==> HasId(users[..i], id)
    {
      assert users[..i + 1] == users[..i] + [users[i]];
      WithoutSnoc(users[..i], users[i], id);
      if users[i].id == id {
        found := true;
      } else {
        kept := kept + [users[i]];
      }
      i := i + 1;
    }
    assert users[..i] == users;
  }
}
