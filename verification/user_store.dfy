/**
  The in-memory user repository of intermediate/main.go: a map from ID to user
  and a counter `nextID` that starts at 1 and moves up by one with every
  `Create`. The store's mutex only serialises the calls, so each operation is a
  function from the old store to the new one.

  Go's `int` is 64 bits wide here and `nextID++` wraps around at the top of
  that range; the model writes the wrap-around out.
 */
module UserStore {
  import opened Wrappers

  const MaxInt: int := 0x7fff_ffff_ffff_ffff
  const MinInt: int := -0x8000_0000_0000_0000

  type int64 = x: int | MinInt <= x <= MaxInt

  /**
    Go's `x++` on a 64-bit `int`: two's-complement arithmetic, so the result is
    the one 64-bit value congruent to `x + 1` modulo 2^64.
   */
  function Inc(x: int64): (r: int64)
    ensures (r - x - 1) % 0x1_0000_0000_0000_0000 == 0
  {
    if x == MaxInt then MinInt else x + 1
  }

  /** The instant `time.Now()` returned; the clock is a parameter of `Create`. */
  type Time = int

  datatype User = User(id: int64, username: string, email: string, createdAt: Time)

  datatype Store = Store(users: map<int64, User>, nextID: int64)

  datatype StoreError = UserNotFound {
    function Message(): string {
      "user not found"
    }
  }

  /** A mutating call's new store together with what it returned. */
  datatype Step<T> = Step(store: Store, result: Result<T, StoreError>)

  /**
    The store invariant: every key lies in `[1, nextID)` and the user stored
    under a key carries that key as its ID.
   */
  ghost predicate Inv(s: Store) {
    && 1 <= s.nextID
    && forall k :: k in s.users ==> 1 <= k < s.nextID && s.users[k].id == k
  }

  /** `NewInMemorySore`: no users, and the first ID to hand out is 1. */
  function NewInMemoryStore(): (s: Store)
    ensures |s.users| == 0 && s.nextID == 1
    ensures Inv(s)
  {
    Store(map[], 1)
  }

  /**
    `Create` never fails: the new user gets the old `nextID` as its ID and key,
    the given names and the given time; nobody else changes; `nextID` moves on
    by one. On a store that satisfies the invariant the key is fresh, and the
    invariant survives as long as `nextID` has not reached the top of the range.
   */
  function Create(s: Store, username: string, email: string, now: Time): (r: Step<User>)
    ensures r.result.Success?
    ensures r.result.value == User(s.nextID, username, email, now)
    ensures r.store.users.Keys == s.users.Keys + {s.nextID}
    ensures r.store.users[s.nextID] == r.result.value
    ensures forall k :: k in s.users && k != s.nextID ==> r.store.users[k] == s.users[k]
    ensures s.nextID < MaxInt ==> r.store.nextID == s.nextID + 1
    ensures Inv(s) ==> s.nextID !in s.users && |r.store.users| == |s.users| + 1
    ensures Inv(s) && s.nextID < MaxInt ==> Inv(r.store)
  {
    var user := User(s.nextID, username, email, now);
    Step(Store(s.users[s.nextID := user], Inc(s.nextID)), Success(user))
  }

  /** `GetByID`: the stored user exactly when `id` is a key, "user not found" otherwise. */
  function GetByID(s: Store, id: int64): (r: Result<User, StoreError>)
    ensures r.Success? <==> id in s.users
    ensures r.Success? ==> r.value == s.users[id]
    ensures r.Failure? ==> r.error == UserNotFound
  {
    if id in s.users then Success(s.users[id]) else Failure(UserNotFound)
  }

  /**
    `Update`: a missing ID is an error and leaves the store as it was; a present
    one gets its `Username` and `Email` replaced, keeping its ID and creation
    time, while the other users and `nextID` stay as they were.
   */
  function Update(s: Store, id: int64, username: string, email: string): (r: Step<User>)
    ensures r.result.Failure? <==> id !in s.users
    ensures r.result.Failure? ==> r.result.error == UserNotFound && r.store == s
    ensures r.result.Success? ==>
      && r.store.nextID == s.nextID
      && r.store.users.Keys == s.users.Keys
      && r.result.value == r.store.users[id]
      && r.result.value.username == username && r.result.value.email == email
      && r.result.value.id == s.users[id].id && r.result.value.createdAt == s.users[id].createdAt
      && forall k :: k in s.users && k != id ==> r.store.users[k] == s.users[k]
    ensures Inv(s) ==> Inv(r.store)
  {
    if id !in s.users then Step(s, Failure(UserNotFound))
    else
      var user := s.users[id].(username := username, email := email);
      Step(s.(users := s.users[id := user]), Success(user))
  }

  /**
    `Delete`: a missing ID is an error and leaves the store as it was; a present
    one is removed, and nothing else changes, `nextID` included.
   */
  function Delete(s: Store, id: int64): (r: Step<()>)
    ensures r.result.Failure? <==> id !in s.users
    ensures r.result.Failure? ==> r.result.error == UserNotFound && r.store == s
    ensures r.result.Success? ==>
      && r.store.nextID == s.nextID
      && r.store.users.Keys == s.users.Keys - {id}
      && forall k :: k in r.store.users ==> r.store.users[k] == s.users[k]
    ensures Inv(s) ==> Inv(r.store)
  {
    if id !in s.users then Step(s, Failure(UserNotFound))
    else Step(s.(users := s.users - {id}), Success(()))
  }

  /**
    `GetAll`: every stored user exactly once, in the unspecified order of Go's
    map iteration (here: whichever key the loop picks next). The ghost `keys`
    lists the key each returned user was read from.
   */
  method GetAll(s: Store) returns (users: seq<User>, ghost keys: seq<int64>)
    ensures |users| == |s.users| && |keys| == |users|
    ensures forall i :: 0 <= i < |keys| ==> keys[i] in s.users && users[i] == s.users[keys[i]]
    ensures forall i, j :: 0 <= i < j < |keys| ==> keys[i] != keys[j]
    ensures forall k :: k in s.users ==> k in keys
  {
    var remaining := s.users.Keys;
    users, keys := [], [];
    while remaining != {}
      invariant remaining <= s.users.Keys
      invariant |keys| == |users|
      invariant |keys| + |remaining| == |s.users|
      invariant forall i :: 0 <= i < |keys| ==> keys[i] in s.users && keys[i] !in remaining && users[i] == s.users[keys[i]]
      invariant forall i, j :: 0 <= i < j < |keys| ==> keys[i] != keys[j]
      invariant forall k :: k in s.users ==> k in remaining || k in keys
      decreases remaining
    {
      var k :| k in remaining;
      users := users + [s.users[k]];
      keys := keys + [k];
      remaining := remaining - {k};
    }
  }

  /** Under the invariant, the users `GetAll` returns carry pairwise different IDs. */
  lemma GetAllDistinctIds(s: Store, users: seq<User>, keys: seq<int64>)
    requires Inv(s)
    requires |keys| == |users|
    requires forall i :: 0 <= i < |keys| ==> keys[i] in s.users && users[i] == s.users[keys[i]]
    requires forall i, j :: 0 <= i < j < |keys| ==> keys[i] != keys[j]
    ensures forall i, j :: 0 <= i < j < |users| ==> users[i].id != users[j].id
  {
  }

  /** A call on the store, as the HTTP layer makes them. */
  datatype Op =
    | CreateOp(username: string, email: string, now: Time)
    | GetByIDOp(id: int64)
    | UpdateOp(id: int64, username: string, email: string)
    | DeleteOp(id: int64)

  function Apply(s: Store, op: Op): Store {
    match op
    case CreateOp(u, e, t) => Create(s, u, e, t).store
    case GetByIDOp(_) => s
    case UpdateOp(id, u, e) => Update(s, id, u, e).store
    case DeleteOp(id) => Delete(s, id).store
  }

  function Run(s: Store, ops: seq<Op>): Store
    decreases |ops|
  {
    if |ops| == 0 then s else Run(Apply(s, ops[0]), ops[1..])
  }

  function CreateCount(ops: seq<Op>): nat {
    if |ops| == 0 then 0 else (if ops[0].CreateOp? then 1 else 0) + CreateCount(ops[1..])
  }

  /** The IDs the `Create` calls of `ops` hand out, in call order. */
  function CreatedIds(s: Store, ops: seq<Op>): seq<int64>
    decreases |ops|
  {
    if |ops| == 0 then []
    else (if ops[0].CreateOp? then [s.nextID] else []) + CreatedIds(Apply(s, ops[0]), ops[1..])
  }

  /**
    Across any run of calls that does not push `nextID` past the top of the
    range, the invariant holds throughout, `nextID` only grows, and the IDs
    handed out are strictly increasing and all at or above the starting
    `nextID`: no ID is ever handed out twice, not even one that was deleted.
   */
  lemma {:induction false} RunKeepsIdsFresh(s: Store, ops: seq<Op>)
    requires Inv(s)
    requires s.nextID + CreateCount(ops) <= MaxInt
    ensures Inv(Run(s, ops))
    ensures Run(s, ops).nextID == s.nextID + CreateCount(ops)
    ensures |CreatedIds(s, ops)| == CreateCount(ops)
    ensures forall i :: 0 <= i < |CreatedIds(s, ops)| ==> s.nextID <= CreatedIds(s, ops)[i] < Run(s, ops).nextID
    ensures forall i, j :: 0 <= i < j < |CreatedIds(s, ops)| ==> CreatedIds(s, ops)[i] < CreatedIds(s, ops)[j]
    decreases |ops|
  {
    if |ops| > 0 {
      var s1 := Apply(s, ops[0]);
      assert Inv(s1);
      assert s1.nextID == s.nextID + (if ops[0].CreateOp? then 1 else 0);
      RunKeepsIdsFresh(s1, ops[1..]);
    }
  }

  /**
    What `GetByID` observes after each mutation: the user just created is found
    under its ID, an updated user is found with its new names, and a deleted
    user is no longer found.
   */
  lemma GetByIDAfterMutations(s: Store, id: int64, username: string, email: string, now: Time)
    ensures GetByID(Create(s, username, email, now).store, s.nextID) == Create(s, username, email, now).result
    ensures id in s.users ==> GetByID(Update(s, id, username, email).store, id) == Update(s, id, username, email).result
    ensures GetByID(Delete(s, id).store, id) == Failure(UserNotFound)
  {
  }

  /**
    Deleting a user and then creating one never hands the deleted ID out again.
   */
  lemma DeletedIdNotReused(s: Store, id: int64, username: string, email: string, now: Time)
    requires Inv(s) && id in s.users
    ensures Create(Delete(s, id).store, username, email, now).result.value.id != id
  {
  }

  /** At the top of the 64-bit range `nextID++` wraps around to the most negative `int`. */
  lemma CreateWrapsAtMaxInt(s: Store, username: string, email: string, now: Time)
    requires s.nextID == MaxInt
    ensures Create(s, username, email, now).store.nextID == MinInt
  {
  }
}
