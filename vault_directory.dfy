/** The server side of the vault (convex/files.ts): the "files" table of convex/schema.ts and the
    four handlers that act on it, each given the caller's identity as `getAuthUserId` yields it
    (None when unauthenticated). The blob store is a collaborator: the URL it issues for an
    upload is a parameter, and `ctx.storage.getUrl` is a function from storage id to a URL or
    null. */
module VaultDirectory {

  import opened Optional

  type UserId = string
  type StorageId = string
  type Url = string

  /** One row of "files": the five declared columns plus the id and the creation time the
      backend assigns on insert. */
  datatype FileRecord = FileRecord(
    id: nat,
    creationTime: nat,
    storageId: StorageId,
    filename: string,
    size: real,
    mimeType: string,
    ownerId: UserId)

  datatype Error =
    | NotAuthenticated           // thrown as "Not authenticated"
    | FileNotFoundOrAccessDenied // thrown as "File not found or access denied"
    | UniqueViolation            // thrown by `.unique()` when more than one row matches

  datatype Result<+T> = Ok(value: T) | Err(error: Error)

  // ----- The by_owner index and the lookup by storage id -----

  /** `query("files").withIndex("by_owner", q => q.eq("ownerId", u)).order("desc").collect()`
      over the rows rs, kept in insertion order: the rows of u, the last inserted first. */
  function OwnerIndexDesc(rs: seq<FileRecord>, u: UserId): (r: seq<FileRecord>)
    ensures forall x :: x in r <==> x in rs && x.ownerId == u
    ensures |r| <= |rs|
    decreases |rs|
  {
    if rs == [] then []
    else
      var last := rs[|rs| - 1];
      (if last.ownerId == u then [last] else []) + OwnerIndexDesc(rs[..|rs| - 1], u)
  }

  /** Rows in the order they were inserted, creation times strictly increasing. */
  ghost predicate Ascending(rs: seq<FileRecord>)
  {
    forall i, j :: 0 <= i < j < |rs| ==> rs[i].creationTime < rs[j].creationTime
  }

  ghost predicate NewestFirst(rs: seq<FileRecord>)
  {
    forall i, j :: 0 <= i < j < |rs| ==> rs[i].creationTime > rs[j].creationTime
  }

  /** Read from a table kept in insertion order, the index yields the newest row first. */
  lemma {:induction false} OwnerIndexDescNewestFirst(rs: seq<FileRecord>, u: UserId)
    ensures Ascending(rs) ==> NewestFirst(OwnerIndexDesc(rs, u))
    decreases |rs|
  {
    if rs != [] && Ascending(rs) {
      var init, last := rs[..|rs| - 1], rs[|rs| - 1];
      OwnerIndexDescNewestFirst(init, u);
      var tail := OwnerIndexDesc(init, u);
      forall x | x in tail
        ensures x.creationTime < last.creationTime
      {
        var k :| 0 <= k < |init| && init[k] == x;
        assert rs[k] == x;
      }
    }
  }

  predicate IsMatch(x: FileRecord, u: UserId, sid: StorageId)
  {
    x.ownerId == u && x.storageId == sid
  }

  /** Some row of u carries sid. */
  ghost predicate HasHandle(rs: seq<FileRecord>, u: UserId, sid: StorageId)
  {
    exists i :: 0 <= i < |rs| && IsMatch(rs[i], u, sid)
  }

  /** Two distinct rows of u carry sid. */
  ghost predicate HasDuplicateHandle(rs: seq<FileRecord>, u: UserId, sid: StorageId)
  {
    exists i, j :: 0 <= i < j < |rs| && IsMatch(rs[i], u, sid) && IsMatch(rs[j], u, sid)
  }

  /** The by_owner index of u followed by `.filter(q => q.eq(q.field("storageId"), sid))`. */
  function Matching(rs: seq<FileRecord>, u: UserId, sid: StorageId): (r: seq<FileRecord>)
    ensures forall x :: x in r <==> x in rs && IsMatch(x, u, sid)
    decreases |rs|
  {
    if rs == [] then []
    else
      var last := rs[|rs| - 1];
      (if IsMatch(last, u, sid) then [last] else []) + Matching(rs[..|rs| - 1], u, sid)
  }

  /** Splitting off the last row: a row of u with sid is among the earlier rows or is the last. */
  lemma HandleSplit(rs: seq<FileRecord>, u: UserId, sid: StorageId)
    requires rs != []
    ensures HasHandle(rs, u, sid) <==>
      HasHandle(rs[..|rs| - 1], u, sid) || IsMatch(rs[|rs| - 1], u, sid)
  {
    var init := rs[..|rs| - 1];
    if HasHandle(rs, u, sid) {
      var i :| 0 <= i < |rs| && IsMatch(rs[i], u, sid);
      if i < |init| {
        assert IsMatch(init[i], u, sid);
      }
    }
    if HasHandle(init, u, sid) {
      var i :| 0 <= i < |init| && IsMatch(init[i], u, sid);
      assert IsMatch(rs[i], u, sid);
    }
  }

  /** Splitting off the last row: two rows of u with sid are both earlier, or one is the last. */
  lemma DuplicateSplit(rs: seq<FileRecord>, u: UserId, sid: StorageId)
    requires rs != []
    ensures HasDuplicateHandle(rs, u, sid) <==>
      HasDuplicateHandle(rs[..|rs| - 1], u, sid)
      || (IsMatch(rs[|rs| - 1], u, sid) && HasHandle(rs[..|rs| - 1], u, sid))
  {
    var init, n := rs[..|rs| - 1], |rs| - 1;
    if HasDuplicateHandle(rs, u, sid) {
      var i, j :| 0 <= i < j < |rs| && IsMatch(rs[i], u, sid) && IsMatch(rs[j], u, sid);
      assert IsMatch(init[i], u, sid);
      if j < n {
        assert IsMatch(init[j], u, sid);
      }
    }
    if HasDuplicateHandle(init, u, sid) {
      var i, j :| 0 <= i < j < n && IsMatch(init[i], u, sid) && IsMatch(init[j], u, sid);
      assert IsMatch(rs[i], u, sid) && IsMatch(rs[j], u, sid);
    }
    if IsMatch(rs[n], u, sid) && HasHandle(init, u, sid) {
      var i :| 0 <= i < n && IsMatch(init[i], u, sid);
      assert IsMatch(rs[i], u, sid) && IsMatch(rs[n], u, sid);
    }
  }

  /** The number of matching rows is zero exactly when u has no row with sid, and at least
      two exactly when two distinct rows of u carry sid. */
  lemma {:induction false} MatchingCount(rs: seq<FileRecord>, u: UserId, sid: StorageId)
    ensures |Matching(rs, u, sid)| == 0 <==> !HasHandle(rs, u, sid)
    ensures |Matching(rs, u, sid)| >= 2 <==> HasDuplicateHandle(rs, u, sid)
    decreases |rs|
  {
    if rs != [] {
      var init, last := rs[..|rs| - 1], rs[|rs| - 1];
      MatchingCount(init, u, sid);
      HandleSplit(rs, u, sid);
      DuplicateSplit(rs, u, sid);
      assert |Matching(rs, u, sid)| == (if IsMatch(last, u, sid) then 1 else 0) + |Matching(init, u, sid)|;
    }
  }

  /** `.unique()` on the matching rows: no row, the single row, or an error when there are
      several. */
  function UniqueMatch(rs: seq<FileRecord>, u: UserId, sid: StorageId): (r: Result<Option<FileRecord>>)
    ensures r == Ok(None) <==> !HasHandle(rs, u, sid)
    ensures r.Ok? && r.value.Some? ==> r.value.value in rs && IsMatch(r.value.value, u, sid)
    ensures r.Err? <==> HasDuplicateHandle(rs, u, sid)
    ensures r.Err? ==> r.error == UniqueViolation
  {
    var m := Matching(rs, u, sid);
    MatchingCount(rs, u, sid);
    if |m| == 0 then Ok(None)
    else if |m| == 1 then Ok(Some(m[0]))
    else Err(UniqueViolation)
  }

  /** Nothing stops a caller from registering the same storage id twice; once two rows of u
      carry sid, the lookup of sid fails with the uniqueness error whatever rows follow. */
  lemma DuplicateHandleBlocksLookup(rs: seq<FileRecord>, more: seq<FileRecord>, u: UserId, sid: StorageId)
    requires HasDuplicateHandle(rs, u, sid)
    ensures UniqueMatch(rs + more, u, sid) == Err(UniqueViolation)
  {
    var i, j :| 0 <= i < j < |rs| && IsMatch(rs[i], u, sid) && IsMatch(rs[j], u, sid);
    var t := rs + more;
    assert t[i] == rs[i] && t[j] == rs[j];
    assert HasDuplicateHandle(t, u, sid);
  }

  // ----- The table and its handlers -----

  class FileTable {
    /** The rows of "files", in insertion order. */
    var records: seq<FileRecord>
    /** The id the next insert receives. */
    var nextId: nat
    /** The creation time the next insert receives: the backend's clock, strictly increasing. */
    var clock: nat

    /** Ids are unique and creation times strictly increase along the table. */
    ghost predicate Valid()
      reads this
    {
      && (forall i :: 0 <= i < |records| ==> records[i].id < nextId && records[i].creationTime < clock)
      && (forall i, j :: 0 <= i < j < |records| ==>
            records[i].id < records[j].id && records[i].creationTime < records[j].creationTime)
    }

    constructor ()
      ensures Valid() && records == []
    {
      records, nextId, clock := [], 0, 0;
    }

    /** `generateUploadUrl` (convex/files.ts:6-15): an unauthenticated caller is refused;
        otherwise the upload URL slot that the blob store issues is handed out. The table is
        not read or written. */
    static function GenerateUploadUrl(caller: Option<UserId>, slot: Url): (r: Result<Url>)
      ensures r.Err? <==> caller.None?
      ensures r.Err? ==> r.error == NotAuthenticated
      ensures r.Ok? ==> r.value == slot
    {
      if caller.None? then Err(NotAuthenticated) else Ok(slot)
    }

    /** `saveFile` (convex/files.ts:18-39): inserts one row owned by the caller. */
    method SaveFile(caller: Option<UserId>, storageId: StorageId, filename: string, size: real, mimeType: string)
      returns (r: Result<()>)
      requires Valid()
      modifies this
      ensures Valid()
      ensures r.Err? <==> caller.None?
      ensures r.Err? ==> r.error == NotAuthenticated && records == old(records) && nextId == old(nextId) && clock == old(clock)
      ensures r.Ok? ==> records == old(records) + [FileRecord(old(nextId), old(clock), storageId, filename, size, mimeType, caller.value)]
      ensures r.Ok? ==> forall x :: x in old(records) ==> x.id != records[|records| - 1].id
      ensures forall u :: Some(u) != caller ==> MyFiles(Some(u)) == old(MyFiles(Some(u)))
      ensures r.Ok? ==> MyFiles(caller) == [records[|records| - 1]] + old(MyFiles(caller))
    {
      if caller.None? {
        return Err(NotAuthenticated);
      }
      var row := FileRecord(nextId, clock, storageId, filename, size, mimeType, caller.value);
      ghost var before := records;
      records := records + [row];
      nextId, clock := nextId + 1, clock + 1;
      assert records[..|records| - 1] == before;
      r := Ok(());
    }

    /** `myFiles` (convex/files.ts:42-56): the caller's rows, newest first; nothing for an
        unauthenticated caller. */
    function MyFiles(caller: Option<UserId>): (r: seq<FileRecord>)
      reads this
      ensures caller.None? ==> r == []
      ensures caller.Some? ==> forall x :: x in r <==> x in records && x.ownerId == caller.value
      ensures Valid() ==> NewestFirst(r)
    {
      if caller.None? then []
      else
        OwnerIndexDescNewestFirst(records, caller.value);
        OwnerIndexDesc(records, caller.value)
    }

    /** `getFileUrl` (convex/files.ts:59-80): the URL of the blob only when exactly one row of
        the caller carries the storage id; the same error whether the row is missing or
        belongs to someone else. */
    function GetFileUrl(caller: Option<UserId>, storageId: StorageId, getUrl: StorageId -> Option<Url>)
      : (r: Result<Option<Url>>)
      reads this
      ensures caller.None? ==> r == Err(NotAuthenticated)
      ensures caller.Some? ==>
        (r == Err(FileNotFoundOrAccessDenied) <==> !HasHandle(records, caller.value, storageId))
      ensures caller.Some? ==>
        (r == Err(UniqueViolation) <==> HasDuplicateHandle(records, caller.value, storageId))
      ensures r.Ok? <==>
        caller.Some? && HasHandle(records, caller.value, storageId)
        && !HasDuplicateHandle(records, caller.value, storageId)
      ensures r.Ok? ==> r.value == getUrl(storageId)
    {
      if caller.None? then Err(NotAuthenticated)
      else
        match UniqueMatch(records, caller.value, storageId)
        case Err(e) => Err(e)
        case Ok(None) => Err(FileNotFoundOrAccessDenied)
        case Ok(Some(_)) => Ok(getUrl(storageId))
    }
  }

  /** What one principal stores is invisible to another: after a saves a file, b's listing is
      empty and b's request for its URL is refused exactly as for a missing file. */
  method OwnershipIsolationScenario(a: UserId, b: UserId, sid: StorageId, getUrl: StorageId -> Option<Url>)
    returns (listOfA: seq<FileRecord>, listOfB: seq<FileRecord>, urlForB: Result<Option<Url>>)
    requires a != b
    ensures |listOfA| == 1 && listOfA[0].ownerId == a && listOfA[0].storageId == sid
    ensures listOfB == []
    ensures urlForB == Err(FileNotFoundOrAccessDenied)
  {
    var table := new FileTable();
    var saved := table.SaveFile(Some(a), sid, "memo.txt", 18.0, "text/plain");
    listOfA := table.MyFiles(Some(a));
    listOfB := table.MyFiles(Some(b));
    urlForB := table.GetFileUrl(Some(b), sid, getUrl);
  }

  /** The arguments of one `saveFile` call. */
  datatype SaveArgs = SaveArgs(caller: Option<UserId>, storageId: StorageId, filename: string, size: real, mimeType: string)

  /** `saveFile` once per entry, in order: the rows already in the table stay where they are. */
  method SaveEach(table: FileTable, saves: seq<SaveArgs>)
    requires table.Valid()
    modifies table
    ensures table.Valid()
    ensures |old(table.records)| <= |table.records| && table.records[..|old(table.records)|] == old(table.records)
  {
    ghost var start := table.records;
    for k := 0 to |saves|
      invariant table.Valid()
      invariant |start| <= |table.records| && table.records[..|start|] == start
    {
      ghost var before := table.records;
      var _ := table.SaveFile(saves[k].caller, saves[k].storageId, saves[k].filename, saves[k].size, saves[k].mimeType);
      assert table.records[..|before|] == before;
      assert table.records[..|start|] == before[..|start|];
    }
  }

  /** A user saves sid, any saves by anyone follow, and the user saves sid again: two rows of
      the user now carry sid. */
  method SaveTwice(table: FileTable, u: UserId, sid: StorageId, first: SaveArgs, between: seq<SaveArgs>, second: SaveArgs)
    requires table.Valid()
    requires first.caller == Some(u) && first.storageId == sid
    requires second.caller == Some(u) && second.storageId == sid
    modifies table
    ensures table.Valid()
    ensures HasDuplicateHandle(table.records, u, sid)
  {
    var _ := table.SaveFile(first.caller, first.storageId, first.filename, first.size, first.mimeType);
    ghost var i := |table.records| - 1;
    ghost var withFirst := table.records;
    SaveEach(table, between);
    assert table.records[i] == withFirst[i] by { assert table.records[..|withFirst|] == withFirst; }
    ghost var before := table.records;
    var _ := table.SaveFile(second.caller, second.storageId, second.filename, second.size, second.mimeType);
    assert table.records[i] == before[i];
    assert IsMatch(table.records[i], u, sid) && IsMatch(table.records[|table.records| - 1], u, sid);
  }

  /** A user who saves the same storage id twice, with any saves by anyone between and after,
      can never again get its URL: getFileUrl fails with the uniqueness error. */
  method DuplicateSaveScenario(table: FileTable, u: UserId, sid: StorageId, first: SaveArgs, between: seq<SaveArgs>,
                               second: SaveArgs, after: seq<SaveArgs>, getUrl: StorageId -> Option<Url>)
    returns (answer: Result<Option<Url>>)
    requires table.Valid()
    requires first.caller == Some(u) && first.storageId == sid
    requires second.caller == Some(u) && second.storageId == sid
    modifies table
    ensures table.Valid()
    ensures answer == Err(UniqueViolation)
  {
    SaveTwice(table, u, sid, first, between, second);
    ghost var withSecond := table.records;
    SaveEach(table, after);
    assert table.records == withSecond + table.records[|withSecond|..] by {
      assert table.records[..|withSecond|] == withSecond;
    }
    DuplicateHandleBlocksLookup(withSecond, table.records[|withSecond|..], u, sid);
    answer := table.GetFileUrl(Some(u), sid, getUrl);
  }
}
