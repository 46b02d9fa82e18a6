/**
 * `MemStorage`, the in-memory record store: a users table and a dividends table,
 * each a JavaScript `Map` from id to row, and one id counter per table that only
 * ever goes up.
 */
module Storage {
  import opened Wrappers
  import opened Records
  import opened OrderedMaps

  /** The message of the error `updateDividend` throws for an unknown id. */
  const NotFound := "Dividend not found"

  /**
   * The five sample records the store is seeded with, in insertion order: five
   * different tickers, each with thirteen yearly amounts (2023 down to 2011).
   */
  function SeedDividends(): (r: seq<NewDividend>)
    ensures |r| == 5
    ensures forall i, j :: 0 <= i < j < |r| ==> r[i].ticker != r[j].ticker
    ensures forall i :: 0 <= i < |r| ==> |r[i].yearWiseData| == 13
  {
    [ NewDividend("Sampath Bank PLC", "SAMP", "Banking", 1987, 1987, "December", 1.00, "annual", 2.50,
        ["2023:1.00", "2022:0.75", "2021:0.50", "2020:0.40", "2019:0.60",
         "2018:0.55", "2017:0.48", "2016:0.42", "2015:0.38", "2014:0.35",
         "2013:0.32", "2012:0.28", "2011:0.25"]),
      NewDividend("Commercial Bank PLC", "COMB", "Banking", 1969, 1970, "December", 6.50, "annual", 4.50,
        ["2023:6.50", "2022:5.00", "2021:4.50", "2020:4.00", "2019:4.75",
         "2018:4.25", "2017:3.90", "2016:3.60", "2015:3.40", "2014:3.20",
         "2013:3.00", "2012:2.75", "2011:2.50"]),
      NewDividend("DFCC Bank PLC", "DFCC", "Banking", 1955, 1956, "December", 5.00, "annual", 3.50,
        ["2023:5.00", "2022:3.00", "2021:2.00", "2020:1.80", "2019:2.50",
         "2018:2.30", "2017:2.10", "2016:1.90", "2015:1.75", "2014:1.60",
         "2013:1.45", "2012:1.30", "2011:1.20"]),
      NewDividend("Hatton National Bank PLC", "HNB", "Banking", 1888, 1970, "December", 8.50, "annual", 5.20,
        ["2023:8.50", "2022:7.75", "2021:7.00", "2020:6.50", "2019:7.25",
         "2018:6.90", "2017:6.50", "2016:6.10", "2015:5.80", "2014:5.50",
         "2013:5.20", "2012:4.90", "2011:4.60"]),
      NewDividend("Ceylon Tobacco Company PLC", "CTC", "Consumer Goods", 1932, 1954, "December", 105.00, "quarterly", 6.80,
        ["2023:105.00", "2022:98.50", "2021:92.00", "2020:87.50", "2019:94.00",
         "2018:90.00", "2017:85.00", "2016:80.00", "2015:76.00", "2014:72.00",
         "2013:68.00", "2012:64.00", "2011:60.00"])
    ]
  }

  /** The ids `start`, `start + 1`, ..., `start + n - 1`. */
  function IdRange(start: int, n: nat): (r: seq<int>)
  {
    seq(n, i => start + i)
  }

  lemma IdRangeSnoc(start: int, n: nat)
    ensures IdRange(start, n + 1) == IdRange(start, n) + [start + n]
  {
  }

  /**
   * `Array.from(users.values()).find(u => u.username === name)`: the position of
   * the first user with exactly that username.
   */
  function FirstWithUsername(users: seq<User>, name: string): (r: Option<nat>)
    ensures r.None? ==> forall i :: 0 <= i < |users| ==> users[i].username != name
    ensures r.Some? ==> r.value < |users| && users[r.value].username == name
    ensures r.Some? ==> forall i :: 0 <= i < r.value ==> users[i].username != name
  {
    if users == [] then None
    else if users[0].username == name then Some(0)
    else
      match FirstWithUsername(users[1..], name)
      case None => None
      case Some(i) => Some(i + 1)
  }

  /**
   * A user registered later never shadows an earlier one with the same name:
   * once a name is found, appending users does not change which one is found.
   */
  lemma {:induction false} FirstWithUsernameStable(users: seq<User>, more: seq<User>, name: string)
    requires FirstWithUsername(users, name).Some?
    ensures FirstWithUsername(users + more, name) == FirstWithUsername(users, name)
  {
    if users[0].username != name {
      assert (users + more)[1..] == users[1..] + more;
      FirstWithUsernameStable(users[1..], more, name);
    }
  }

  class MemStorage {
    var users: OrderedMap<int, User>
    var dividends: OrderedMap<int, Dividend>
    var currentUserId: int
    var currentDividendId: int
    /** Every dividend id handed out so far, whether or not its record still exists. */
    ghost var issuedDividendIds: set<int>
    /** Every user id handed out so far. */
    ghost var issuedUserIds: set<int>

    /**
     * The store's invariant: both tables are well-formed, every id in a table is
     * one the table's counter has already handed out (the handed-out ids are
     * exactly `1 .. counter - 1`), and every row carries the id it is stored under.
     */
    ghost predicate Valid()
      reads this
    {
      && WellFormed(users)
      && WellFormed(dividends)
      && 1 <= currentUserId
      && 1 <= currentDividendId
      && (forall id :: id in users.entries ==> 1 <= id < currentUserId && users.entries[id].id == id)
      && (forall id :: id in dividends.entries ==> 1 <= id < currentDividendId && dividends.entries[id].id == id)
      && (forall id :: id in issuedUserIds <==> 1 <= id < currentUserId)
      && (forall id :: id in issuedDividendIds <==> 1 <= id < currentDividendId)
    }

    /**
     * A fresh store: no users, and the five seed records under ids 1 to 5, in
     * that order, all stamped with the construction time.
     */
    constructor (now: Timestamp)
      ensures Valid()
      ensures users.keys == [] && users.entries == map[] && currentUserId == 1
      ensures dividends.keys == [1, 2, 3, 4, 5] && currentDividendId == 6
      ensures forall id :: 1 <= id <= 5 ==> id in dividends.entries && dividends.entries[id] == Stamp(SeedDividends()[id - 1], id, now)
    {
      users := Empty();
      dividends := Empty();
      currentUserId := 1;
      currentDividendId := 1;
      issuedUserIds, issuedDividendIds := {}, {};
      new;
      AddDummyData(SeedDividends(), now);
      assert IdRange(1, 5) == [1, 2, 3, 4, 5];
    }

    /**
     * Inserts the given records into the empty dividends table one after another,
     * each under the next id (the `forEach` of `addDummyData`).
     */
    method AddDummyData(dummyDividends: seq<NewDividend>, now: Timestamp)
      requires Valid() && dividends.keys == [] && currentDividendId == 1
      modifies this
      ensures Valid()
      ensures users == old(users) && currentUserId == old(currentUserId) && issuedUserIds == old(issuedUserIds)
      ensures currentDividendId == |dummyDividends| + 1
      ensures dividends.keys == IdRange(1, |dummyDividends|)
      ensures Holds(dummyDividends, |dummyDividends|, now)
    {
      for i := 0 to |dummyDividends|
        invariant Valid()
        invariant users == old(users) && currentUserId == old(currentUserId) && issuedUserIds == old(issuedUserIds)
        invariant currentDividendId == i + 1
        invariant dividends.keys == IdRange(1, i)
        invariant Holds(dummyDividends, i, now)
      {
        // The loop body is the same id assignment and insertion as createDividend.
        var d := CreateDividend(dummyDividends[i], now);
        IdRangeSnoc(1, i);
      }
    }

    /** The first `n` of `batch` are stored under ids 1 to `n`, in that order. */
    ghost predicate Holds(batch: seq<NewDividend>, n: nat, now: Timestamp)
      requires n <= |batch|
      reads this
    {
      forall j :: 1 <= j <= n ==> j in dividends.entries && dividends.entries[j] == Stamp(batch[j - 1], j, now)
    }

    /** `getUser(id)`: the user stored under `id`, or nothing. */
    function GetUser(id: int): (r: Option<User>)
      requires Valid()
      reads this
      ensures r.Some? <==> id in users.entries
      ensures r.Some? ==> r.value == users.entries[id] && r.value.id == id
    {
      Get(users, id)
    }

    /**
     * `getUserByUsername(name)`: the earliest-registered user whose username is
     * exactly `name`, or nothing when no user has it.
     */
    function GetUserByUsername(name: string): (r: Option<User>)
      requires Valid()
      reads this
      ensures r.None? <==> forall id :: id in users.entries ==> users.entries[id].username != name
      ensures r.Some? ==> r.value.username == name && r.value.id in users.entries && users.entries[r.value.id] == r.value
      ensures r.Some? ==> exists i :: && 0 <= i < |users.keys|
                                      && users.keys[i] == r.value.id
                                      && forall j :: 0 <= j < i ==> users.entries[users.keys[j]].username != name
    {
      var all := Values(users);
      var found := FirstWithUsername(all, name);
      if found.None? then
        assert forall id :: id in users.entries ==> users.entries[id].username != name by {
          forall id | id in users.entries ensures users.entries[id].username != name {
            var i :| 0 <= i < |users.keys| && users.keys[i] == id;
            assert all[i] == users.entries[id];
          }
        }
        None
      else
        var i := found.value;
        var id := users.keys[i];
        assert id in users.keys && all[i] == users.entries[id];
        assert id in users.entries && users.entries[id].id == id;
        assert users.entries[id].username == name;
        Some(all[i])
    }

    /**
     * `createUser(input)`: stores a new user under the next user id and returns it.
     * Every new user is an admin, and an existing username is not rejected.
     */
    method CreateUser(input: NewUser) returns (u: User)
      requires Valid()
      modifies this
      ensures Valid()
      ensures u == User(old(currentUserId), input.username, input.password, true)
      ensures u.id !in old(issuedUserIds) && issuedUserIds == old(issuedUserIds) + {u.id}
      ensures currentUserId == old(currentUserId) + 1
      ensures users.keys == old(users.keys) + [u.id] && users.entries == old(users.entries)[u.id := u]
      ensures dividends == old(dividends) && currentDividendId == old(currentDividendId)
      ensures issuedDividendIds == old(issuedDividendIds)
    {
      var id := currentUserId;
      currentUserId := currentUserId + 1;
      issuedUserIds := issuedUserIds + {id};
      u := User(id, input.username, input.password, true);
      users := Set(users, id, u);
    }

    /** `getAllDividends()`: every stored record once, in the order the records were created. */
    function GetAllDividends(): (r: seq<Dividend>)
      requires Valid()
      reads this
      ensures |r| == |dividends.keys| == |dividends.entries|
      ensures forall d :: d in r <==> d in dividends.entries.Values
      ensures forall i :: 0 <= i < |r| ==> r[i].id == dividends.keys[i]
    {
      var r := Values(dividends);
      forall id | id in dividends.entries ensures dividends.entries[id] in r {
        var i :| 0 <= i < |dividends.keys| && dividends.keys[i] == id;
        assert r[i] == dividends.entries[id];
      }
      r
    }

    /** `getDividend(id)`: the record stored under `id`, or nothing. */
    function GetDividend(id: int): (r: Option<Dividend>)
      requires Valid()
      reads this
      ensures r.Some? <==> id in dividends.entries
      ensures r.Some? ==> r.value == dividends.entries[id] && r.value.id == id
    {
      Get(dividends, id)
    }

    /**
     * `createDividend(input)`: stores `{...input, id, lastUpdated: now}` under the
     * next dividend id, after every existing record, and returns it. The id has
     * never been handed out before, even if records were deleted since.
     */
    method CreateDividend(input: NewDividend, now: Timestamp) returns (d: Dividend)
      requires Valid()
      modifies this
      ensures Valid()
      ensures d == Stamp(input, old(currentDividendId), now)
      ensures d.id !in old(issuedDividendIds) && issuedDividendIds == old(issuedDividendIds) + {d.id}
      ensures currentDividendId == old(currentDividendId) + 1
      ensures dividends.keys == old(dividends.keys) + [d.id] && dividends.entries == old(dividends.entries)[d.id := d]
      ensures users == old(users) && currentUserId == old(currentUserId) && issuedUserIds == old(issuedUserIds)
    {
      var id := currentDividendId;
      currentDividendId := currentDividendId + 1;
      issuedDividendIds := issuedDividendIds + {id};
      d := Stamp(input, id, now);
      dividends := Set(dividends, id, d);
    }

    /**
     * `updateDividend(id, patch)`: for an unknown id, fails with "Dividend not
     * found" and changes nothing; otherwise replaces the record by
     * `{...existing, ...patch, lastUpdated: now}` in place, keeping its id and its
     * position, and returns it.
     */
    method UpdateDividend(id: int, patch: DividendPatch, now: Timestamp) returns (r: Result<Dividend, string>)
      requires Valid()
      modifies this
      ensures Valid()
      ensures users == old(users) && currentUserId == old(currentUserId) && issuedUserIds == old(issuedUserIds)
      ensures currentDividendId == old(currentDividendId) && issuedDividendIds == old(issuedDividendIds)
      ensures id !in old(dividends.entries) ==> r == Failure(NotFound) && dividends == old(dividends)
      ensures id in old(dividends.entries) ==>
                && r == Success(Merge(old(dividends.entries[id]), patch, now))
                && r.value.id == id
                && dividends.keys == old(dividends.keys)
                && dividends.entries == old(dividends.entries)[id := r.value]
    {
      var existing := GetDividend(id);
      if existing.None? {
        return Failure(NotFound);
      }
      var updated := Merge(existing.value, patch, now);
      dividends := Set(dividends, id, updated);
      r := Success(updated);
    }

    /**
     * `deleteDividend(id)`: removes the record if there is one and does nothing
     * otherwise; the counter is untouched, so the id is never handed out again.
     */
    method DeleteDividend(id: int)
      requires Valid()
      modifies this
      ensures Valid()
      ensures users == old(users) && currentUserId == old(currentUserId) && issuedUserIds == old(issuedUserIds)
      ensures currentDividendId == old(currentDividendId) && issuedDividendIds == old(issuedDividendIds)
      ensures dividends.entries == old(dividends.entries) - {id}
      ensures dividends.keys == Without(old(dividends.keys), id)
      ensures id !in old(dividends.entries) ==> dividends == old(dividends)
    {
      dividends := Delete(dividends, id);
    }
  }
}
