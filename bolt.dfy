// The bucket backend (boltdb.go): a key/value database whose root holds one
// bucket per channel, each mapping a user id to that user's record.
// Serialisation to JSON is the identity here, so a bucket maps keys to
// records directly. The file works on a `user` record the repository never
// defines; it is taken to have the three fields the file uses. boltdb.go
// does not implement the storage interface (its methods take and return
// `user`, and most of the interface is missing), so it stands alone.
module Bolt {
  import opened Records
  import opened Store

  datatype User = User(id: string, channelId: string, rating: int)

  /** The zero value of a user record. */
  function ZeroUser(): (z: User)
    ensures z.id == "" && z.channelId == "" && z.rating == 0
  {
    User("", "", 0)
  }

  type Bucket = map<string, User>
  type Buckets = map<string, Bucket>

  /** Where a record is stored: its bucket and its key. */
  function KeyOf(u: User): (string, string) {
    (u.channelId, u.id)
  }

  /** Bucket c holds record u under key k. */
  predicate Holds(bs: Buckets, c: string, k: string, u: User) {
    c in bs && k in bs[c] && bs[c][k] == u
  }

  /** The work of the `insert` closure on a write transaction's copy of the
      buckets. The channel's bucket is created if it is missing, then the
      record is put under its id, replacing any earlier one. bolt refuses an
      empty bucket name and an empty key. */
  function Insert(tx: Buckets, u: User): (r: (Buckets, Outcome))
    ensures r.1.Pass? <==> u.channelId != "" && u.id != ""
    ensures u.channelId == "" ==> r.1 == Fail(Wrap(NewError("bucket name required"), "unable to create bucket"))
    ensures u.channelId != "" && u.id == "" ==> r.1 == Fail(Wrap(NewError("key required"), "error puting user"))
    ensures r.1.Pass? ==> r.0.Keys == tx.Keys + {u.channelId}
    ensures r.1.Pass? ==> r.0[u.channelId].Keys == (if u.channelId in tx then tx[u.channelId].Keys else {}) + {u.id}
    ensures r.1.Pass? ==> r.0[u.channelId][u.id] == u
    ensures r.1.Pass? ==> forall c, k :: c in tx && k in tx[c] && (c, k) != KeyOf(u) ==> Holds(r.0, c, k, tx[c][k])
  {
    if u.channelId == "" then (tx, Fail(Wrap(NewError("bucket name required"), "unable to create bucket")))
    else
      var bucket := if u.channelId in tx then tx[u.channelId] else map[];
      var created := tx[u.channelId := bucket];
      if u.id == "" then (created, Fail(Wrap(NewError("key required"), "error puting user")))
      else (tx[u.channelId := bucket[u.id := u]], Pass)
  }

  /** `getLastUser`'s loop: the running maximum starts at the zero record
      and is replaced by each record whose rating is strictly greater. So it
      is the earliest record of greatest rating, or the zero record when no
      rating is positive. */
  method MaxByRating(users: seq<User>) returns (u: User)
    ensures forall i :: 0 <= i < |users| ==> users[i].rating <= u.rating
    ensures (forall i :: 0 <= i < |users| ==> users[i].rating <= 0) ==> u == ZeroUser()
    ensures u != ZeroUser() ==>
      (exists i :: 0 <= i < |users| && users[i] == u && 0 < u.rating &&
        forall j :: 0 <= j < i ==> users[j].rating < u.rating)
  {
    u := ZeroUser();
    ghost var at := -1;
    for i := 0 to |users|
      invariant forall j :: 0 <= j < i ==> users[j].rating <= u.rating
      invariant at == -1 ==> u == ZeroUser() && forall j :: 0 <= j < i ==> users[j].rating <= 0
      invariant at != -1 ==>
        (0 <= at < i && users[at] == u && 0 < u.rating &&
         forall j :: 0 <= j < at ==> users[j].rating < u.rating)
    {
      if users[i].rating > u.rating {
        u := users[i];
        at := i;
      }
    }
  }

  class BoltDb {
    var buckets: Buckets

    /** A database file opened with the given contents. */
    constructor (contents: Buckets)
      ensures buckets == contents
    {
      buckets := contents;
    }

    /** `getUser`: a channel without a bucket is a plain error, not the
        not-found sentinel; a bucket without the key gives the zero record
        and no error. */
    function GetUser(userId: string, channelId: string): (r: Result<User>)
      reads this
      ensures channelId !in buckets <==> r.Err?
      ensures r.Err? ==> r.error == NewError("bucket does not exist yet") && !IsNotFound(r.error)
      ensures channelId in buckets && userId !in buckets[channelId] ==> r == Ok(ZeroUser())
      ensures channelId in buckets && userId in buckets[channelId] ==> r == Ok(buckets[channelId][userId])
    {
      if channelId !in buckets then Err(NewError("bucket does not exist yet"))
      else if userId in buckets[channelId] then Ok(buckets[channelId][userId])
      else Ok(ZeroUser())
    }

    /** `getUsers` as written: the transaction never reads the bucket, so
        the list is always empty and there is no error. */
    function GetUsers(channelId: string): (r: Result<seq<User>>)
      ensures r == Ok([])
    {
      Ok([])
    }

    /** `getLastUser`: the running maximum over `getUsers`, which is empty,
        so it is always the zero record. (The source also forwards an error
        of `getUsers`, which never returns one.) */
    method GetLastUser(channelId: string) returns (r: Result<User>)
      ensures r == Ok(ZeroUser())
    {
      var users := GetUsers(channelId).value;
      var u := MaxByRating(users);
      r := Ok(u);
    }

    /** `getBuckets`: the name of every bucket, each once. (bolt visits
        them in byte order, which is not modelled.) */
    method GetBuckets() returns (r: Result<seq<string>>)
      ensures r.Ok?
      ensures forall n :: n in r.value <==> n in buckets
      ensures forall i, j :: 0 <= i < j < |r.value| ==> r.value[i] != r.value[j]
    {
      var names: seq<string> := [];
      var remaining := buckets.Keys;
      while remaining != {}
        invariant remaining <= buckets.Keys
        invariant forall n :: n in names <==> n in buckets && n !in remaining
        invariant forall i, j :: 0 <= i < j < |names| ==> names[i] != names[j]
        decreases remaining
      {
        var n :| n in remaining;
        names := names + [n];
        remaining := remaining - {n};
      }
      r := Ok(names);
    }

    /** `insertOrUpdate`: runs `insert` in its own write transaction, which
        is committed only when it succeeds. A successful write can be read
        back unchanged. */
    method InsertOrUpdate(u: User) returns (o: Outcome)
      modifies this
      ensures o.Pass? <==> u.channelId != "" && u.id != ""
      ensures o.Pass? ==> buckets == Insert(old(buckets), u).0
      ensures o.Pass? ==> GetUser(u.id, u.channelId) == Ok(u)
      ensures o.Fail? ==> buckets == old(buckets) && o.error == Wrap(Insert(old(buckets), u).1.error, "unable to insert user")
    {
      var (tx, out) := Insert(buckets, u);
      if out.Pass? {
        buckets := tx;
      }
      o := WrapOutcome(out, "unable to insert user");
    }

    /** `updateUsers`: every insert runs in one write transaction, which is
        committed only when all of them succeed; the first failure is
        returned and nothing of the batch becomes visible. */
    method UpdateUsers(users: seq<User>) returns (o: Outcome)
      modifies this
      ensures o == WriteEach(Insert, old(buckets), users).1
      ensures o.Pass? ==> buckets == WriteEach(Insert, old(buckets), users).0
      ensures o.Fail? ==> buckets == old(buckets)
      ensures o.Pass? <==> forall i :: 0 <= i < |users| ==> users[i].channelId != "" && users[i].id != ""
    {
      var tx := buckets;
      for i := 0 to |users|
        invariant WriteEach(Insert, old(buckets), users) == WriteEach(Insert, tx, users[i..])
        invariant forall j :: 0 <= j < i ==> users[j].channelId != "" && users[j].id != ""
        invariant buckets == old(buckets)
      {
        assert users[i..][1..] == users[i + 1..];
        var (tx', out) := Insert(tx, users[i]);
        if out.Fail? {
          return out;
        }
        tx := tx';
      }
      buckets := tx;
      o := Pass;
    }
  }

  /** No record of the batch is written under key k of bucket c. */
  predicate Untouched(users: seq<User>, c: string, k: string) {
    forall i :: 0 <= i < |users| ==> KeyOf(users[i]) != (c, k)
  }

  /** No later record of the batch is written under the key of record i. */
  predicate LastFor(users: seq<User>, i: int)
    requires 0 <= i < |users|
  {
    forall j :: i < j < |users| ==> KeyOf(users[j]) != KeyOf(users[i])
  }

  /** A batch of valid records is written in full, and every key it does
      not write keeps its record. */
  lemma {:induction false} WriteEachKeepsUntouched(tx: Buckets, users: seq<User>)
    requires forall i :: 0 <= i < |users| ==> users[i].channelId != "" && users[i].id != ""
    ensures WriteEach(Insert, tx, users).1 == Pass
    ensures forall c, k :: c in tx && k in tx[c] && Untouched(users, c, k) ==>
      Holds(WriteEach(Insert, tx, users).0, c, k, tx[c][k])
    decreases |users|
  {
    if users != [] {
      var tx1 := Insert(tx, users[0]).0;
      var rest := users[1..];
      WriteEachKeepsUntouched(tx1, rest);
      forall c, k | c in tx && k in tx[c] && Untouched(users, c, k)
        ensures Holds(WriteEach(Insert, tx, users).0, c, k, tx[c][k])
      {
        assert KeyOf(users[0]) != (c, k);
        assert Untouched(rest, c, k) by {
          forall i | 0 <= i < |rest| ensures KeyOf(rest[i]) != (c, k) {
            assert rest[i] == users[i + 1];
          }
        }
      }
    }
  }

  /** After a successful batch, the last record the batch writes under a
      key is the one stored there. */
  lemma {:induction false} WriteEachStoresLast(tx: Buckets, users: seq<User>)
    requires forall i :: 0 <= i < |users| ==> users[i].channelId != "" && users[i].id != ""
    ensures forall i :: 0 <= i < |users| && LastFor(users, i) ==>
      Holds(WriteEach(Insert, tx, users).0, users[i].channelId, users[i].id, users[i])
    decreases |users|
  {
    if users != [] {
      var tx1 := Insert(tx, users[0]).0;
      var rest := users[1..];
      WriteEachStoresLast(tx1, rest);
      WriteEachKeepsUntouched(tx1, rest);
      var bs := WriteEach(Insert, tx1, rest).0;
      forall i | 0 <= i < |users| && LastFor(users, i)
        ensures Holds(bs, users[i].channelId, users[i].id, users[i])
      {
        if i == 0 {
          assert Untouched(rest, users[0].channelId, users[0].id) by {
            forall j | 0 <= j < |rest| ensures KeyOf(rest[j]) != KeyOf(users[0]) {
              assert rest[j] == users[j + 1];
            }
          }
        } else {
          assert users[i] == rest[i - 1];
          assert LastFor(rest, i - 1) by {
            forall j | i - 1 < j < |rest| ensures KeyOf(rest[j]) != KeyOf(rest[i - 1]) {
              assert rest[j] == users[j + 1];
            }
          }
        }
      }
    }
  }
}
