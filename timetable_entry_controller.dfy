/**
 * A user's weekly timetable. Saving a timetable replaces all of the
 * user's entries with the submitted list, in one transaction; the other
 * users' entries are untouched.
 */
module TimetableEntryController {
  import opened Wrappers
  import opened Http
  import Listing

  type EntryId = nat
  type UserId = nat

  const Days: set<string> := {"sunday", "monday", "tuesday", "wednesday", "thursday", "friday", "saturday"}
  const Modes: set<string> := {"fullClass", "groups"}
  const Groups: set<string> := {"first", "second"}

  /**
   * One submitted entry, its strings as the request holds them after the
   * framework's trimming middleware, which turns a blank string into null.
   */
  datatype EntryInput = EntryInput(day: string, timeSlot: string, className: string, mode: string, group: Option<string>)

  datatype Entry = Entry(userId: UserId, day: string, timeSlot: string, className: string, mode: string, group: Option<string>)

  /**
   * The request rules for one entry: a weekday, a non-empty time slot and
   * class, a mode, and no group or one of the two.
   */
  predicate ValidInput(e: EntryInput) {
    e.day in Days && |e.timeSlot| >= 1 && |e.className| >= 1
    && e.mode in Modes && (e.group.None? || e.group.value in Groups)
  }

  predicate AllValid(xs: seq<EntryInput>) {
    forall k :: 0 <= k < |xs| ==> ValidInput(xs[k])
  }

  /** The request rules of `store`: `entries` is required, so it is a non-empty list, and each entry is valid. */
  predicate StoreValid(xs: seq<EntryInput>) {
    |xs| >= 1 && AllValid(xs)
  }

  /** The row `createMany` inserts for the user. */
  function MakeEntry(user: UserId, e: EntryInput): (r: Entry)
    ensures r.userId == user
    ensures r.day == e.day && r.timeSlot == e.timeSlot && r.className == e.className
    ensures r.mode == e.mode && r.group == e.group
  {
    Entry(user, e.day, e.timeSlot, e.className, e.mode, e.group)
  }

  /** The entries of the other users. */
  function OthersOnly(entries: map<EntryId, Entry>, user: UserId): (r: map<EntryId, Entry>)
    ensures forall id :: id in r <==> id in entries && entries[id].userId != user
    ensures forall id :: id in r ==> r[id] == entries[id]
  {
    map id | id in entries && entries[id].userId != user :: entries[id]
  }

  /** The table after deleting the user's entries and inserting `xs` from id `start` on. */
  function Replaced(entries: map<EntryId, Entry>, user: UserId, start: EntryId, xs: seq<EntryInput>): map<EntryId, Entry>
    decreases |xs|
  {
    if xs == [] then OthersOnly(entries, user)
    else Replaced(entries, user, start, xs[..|xs| - 1])[start + |xs| - 1 := MakeEntry(user, xs[|xs| - 1])]
  }

  /**
   * When every existing id lies below `start`, the replaced table holds
   * exactly the other users' old entries and the submitted ones at
   * `start`, `start + 1`, ...
   */
  lemma {:induction false} ReplacedContents(entries: map<EntryId, Entry>, user: UserId, start: EntryId, xs: seq<EntryInput>)
    requires forall id :: id in entries ==> id < start
    ensures forall id :: id in Replaced(entries, user, start, xs) <==>
              (id in entries && entries[id].userId != user) || start <= id < start + |xs|
    ensures forall id :: id in entries && entries[id].userId != user ==>
              Replaced(entries, user, start, xs)[id] == entries[id]
    ensures forall k :: 0 <= k < |xs| ==> Replaced(entries, user, start, xs)[start + k] == MakeEntry(user, xs[k])
    decreases |xs|
  {
    if xs != [] {
      var n := |xs| - 1;
      ReplacedContents(entries, user, start, xs[..n]);
      forall k | 0 <= k < n
        ensures xs[..n][k] == xs[k]
      {
      }
    }
  }

  /** The ids of the user's entries, in id order: what `$user->timetableEntries` lists. */
  function UserIds(entries: map<EntryId, Entry>, user: UserId): (r: seq<EntryId>)
    ensures forall id :: id in r <==> id in entries && entries[id].userId == user
    ensures forall i, j :: 0 <= i < j < |r| ==> r[i] < r[j]
  {
    Listing.Ascending(set id | id in entries && entries[id].userId == user)
  }

  /** The rows with the given ids, in that order. */
  function Rows(entries: map<EntryId, Entry>, ids: seq<EntryId>): (r: seq<Entry>)
    requires forall id :: id in ids ==> id in entries
    ensures |r| == |ids| && forall k :: 0 <= k < |ids| ==> r[k] == entries[ids[k]]
  {
    if ids == [] then [] else [entries[ids[0]]] + Rows(entries, ids[1..])
  }

  class Timetable {
    var entries: map<EntryId, Entry>
    var nextId: EntryId

    /** Ids lie below the next id. */
    predicate Valid()
      reads this
    {
      forall id :: id in entries ==> id < nextId
    }

    constructor ()
      ensures Valid() && entries == map[] && nextId == 0
    {
      entries := map[];
      nextId := 0;
    }

    /** `index`: the caller's entries. */
    function Index(user: UserId): (r: seq<Entry>)
      reads this
      ensures |r| == |UserIds(entries, user)|
      ensures forall k :: 0 <= k < |r| ==> r[k] == entries[UserIds(entries, user)[k]] && r[k].userId == user
    {
      Rows(entries, UserIds(entries, user))
    }

    /**
     * `store`: an empty list or one breaking the entry rules is refused (422) and
     * changes nothing; otherwise the user's entries are deleted and the
     * submitted ones inserted in order, and the created rows returned.
     */
    method Store(user: UserId, submitted: seq<EntryInput>) returns (status: Status, created: seq<Entry>)
      requires Valid()
      modifies this
      ensures Valid()
      ensures status == Success <==> StoreValid(submitted)
      ensures status != Success ==> entries == old(entries) && nextId == old(nextId) && created == []
      ensures status == Success ==> entries == Replaced(old(entries), user, old(nextId), submitted)
      ensures status == Success ==> created == seq(|submitted|, k requires 0 <= k < |submitted| => MakeEntry(user, submitted[k]))
      ensures status == Success ==> Index(user) == created
      ensures forall id :: id in old(entries) && old(entries)[id].userId != user ==>
                id in entries && entries[id] == old(entries)[id]
    {
      if !StoreValid(submitted) {
        return Unprocessable, [];
      }
      ghost var start := nextId;
      entries := OthersOnly(entries, user);
      created := [];
      var k := 0;
      while k < |submitted|
        invariant 0 <= k <= |submitted|
        invariant nextId == start + k
        invariant entries == Replaced(old(entries), user, start, submitted[..k])
        invariant created == seq(k, j requires 0 <= j < k => MakeEntry(user, submitted[j]))
      {
        assert submitted[..k + 1][..k] == submitted[..k];
        var e := MakeEntry(user, submitted[k]);
        entries := entries[nextId := e];
        created := created + [e];
        nextId := nextId + 1;
        k := k + 1;
      }
      assert submitted[..k] == submitted;
      ReplacedContents(old(entries), user, start, submitted);
      ReplacedRows(old(entries), user, start, submitted, entries);
      status := Success;
    }
  }

  /** The ids `start`, `start + 1`, ... of a block of `n`. */
  lemma InBlock(start: nat, n: nat, id: nat)
    ensures id in seq(n, k => start + k) <==> start <= id < start + n
  {
    if start <= id < start + n {
      assert seq(n, k => start + k)[id - start] == id;
    }
  }

  /** A user whose entries hold exactly a block of ids gets that block back in order. */
  lemma UserIdsBlock(r: map<EntryId, Entry>, user: UserId, start: EntryId, n: nat)
    requires forall id :: id in r && r[id].userId == user <==> start <= id < start + n
    ensures UserIds(r, user) == seq(n, k => start + k)
  {
    var q := seq(n, k => start + k);
    var mine := set id | id in r && r[id].userId == user;
    forall id
      ensures id in mine <==> id in q
    {
      InBlock(start, n, id);
    }
    assert UserIds(r, user) == Listing.Ascending(mine);
    Listing.AscendingOfIncreasing(mine, q);
  }

  /** After the replacement the user's ids are exactly `start`, `start + 1`, ... in order. */
  lemma ReplacedIndex(entries: map<EntryId, Entry>, user: UserId, start: EntryId, xs: seq<EntryInput>)
    requires forall id :: id in entries ==> id < start
    ensures UserIds(Replaced(entries, user, start, xs), user) == seq(|xs|, k => start + k)
  {
    var r := Replaced(entries, user, start, xs);
    ReplacedContents(entries, user, start, xs);
    forall id
      ensures id in r && r[id].userId == user <==> start <= id < start + |xs|
    {
      if start <= id < start + |xs| {
        assert r[start + (id - start)] == MakeEntry(user, xs[id - start]);
      }
    }
    UserIdsBlock(r, user, start, |xs|);
  }

  /** The rows of ids holding the submitted entries are those entries, in order. */
  lemma RowsOfBlock(r: map<EntryId, Entry>, user: UserId, ids: seq<EntryId>, xs: seq<EntryInput>)
    requires |ids| == |xs|
    requires forall k :: 0 <= k < |xs| ==> ids[k] in r && r[ids[k]] == MakeEntry(user, xs[k])
    ensures Rows(r, ids) == seq(|xs|, k requires 0 <= k < |xs| => MakeEntry(user, xs[k]))
  {
  }

  /** After the replacement the user's timetable lists the submitted entries in submission order. */
  lemma ReplacedRows(entries: map<EntryId, Entry>, user: UserId, start: EntryId, xs: seq<EntryInput>,
                     r: map<EntryId, Entry>)
    requires forall id :: id in entries ==> id < start
    requires r == Replaced(entries, user, start, xs)
    ensures Rows(r, UserIds(r, user)) == seq(|xs|, k requires 0 <= k < |xs| => MakeEntry(user, xs[k]))
  {
    ReplacedContents(entries, user, start, xs);
    ReplacedIndex(entries, user, start, xs);
    var ids := UserIds(r, user);
    assert ids == seq(|xs|, k => start + k);
    forall k | 0 <= k < |xs|
      ensures ids[k] in r && r[ids[k]] == MakeEntry(user, xs[k])
    {
      assert ids[k] == start + k;
    }
    RowsOfBlock(r, user, ids, xs);
  }
}
