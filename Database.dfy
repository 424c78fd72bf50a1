/** The file-metadata table of app/database.py, without SQLite.

    The table is a sequence of records in insertion (row id) order. The
    schema's UNIQUE constraint on file_id is the invariant UniqueIds. Each
    query or statement of the source is a pure function on the table; the
    class FileStore holds the table and runs them in place, one method per
    function of the source. */
module Database {
  import opened Wrappers
  import opened Identifier

  /** One row of the `files` table. `description` is None for SQL NULL. */
  datatype FileRecord = FileRecord(
    filename: string,
    fileId: string,
    filesize: int,
    description: Option<string>,
    uploadDate: int)

  /** The dictionary get_file_by_id returns. */
  datatype FileView = FileView(filename: string, filesize: int, description: string)

  type Table = seq<FileRecord>

  /** No two rows share a file_id (the schema's UNIQUE constraint). */
  predicate UniqueIds(t: Table) {
    forall i, j :: 0 <= i < j < |t| ==> t[i].fileId != t[j].fileId
  }

  /** The design's assumption that one message carries at most one file:
      no two rows match the lookup prefix of the same message id. The store
      does not enforce it. */
  ghost predicate OnePerMessage(t: Table) {
    forall m, i, j :: 0 <= i < j < |t| && HasMessagePrefix(t[i].fileId, m) ==> !HasMessagePrefix(t[j].fileId, m)
  }

  function FileIds(t: Table): set<string> {
    set r | r in t :: r.fileId
  }

  /** `WHERE file_id = ?`: the first row with that file_id. */
  function IndexOfId(t: Table, fileId: string): (r: Option<nat>)
    ensures r.Some? ==> r.value < |t| && t[r.value].fileId == fileId
    ensures r.Some? ==> forall j :: 0 <= j < r.value ==> t[j].fileId != fileId
    ensures r.None? <==> fileId !in FileIds(t)
  {
    if |t| == 0 then None
    else if t[0].fileId == fileId then Some(0)
    else
      match IndexOfId(t[1..], fileId)
      case None =>
        assert t == [t[0]] + t[1..];
        None
      case Some(k) => Some(k + 1)
  }

  /** `SELECT ... WHERE file_id LIKE '<message_id>:%'` with fetchone: the
      first row, in table order, whose file_id has the message's prefix. */
  function FirstWithMessagePrefix(t: Table, messageId: int): (r: Option<nat>)
    ensures r.Some? ==> r.value < |t| && HasMessagePrefix(t[r.value].fileId, messageId)
    ensures r.Some? ==> forall j :: 0 <= j < r.value ==> !HasMessagePrefix(t[j].fileId, messageId)
    ensures r.None? <==> forall j :: 0 <= j < |t| ==> !HasMessagePrefix(t[j].fileId, messageId)
  {
    if |t| == 0 then None
    else if HasMessagePrefix(t[0].fileId, messageId) then Some(0)
    else
      match FirstWithMessagePrefix(t[1..], messageId)
      case None => None
      case Some(k) => Some(k + 1)
  }

  /** `INSERT OR IGNORE`: the table with `rec` appended unless its file_id is taken. */
  function Inserted(t: Table, rec: FileRecord): Table {
    if IndexOfId(t, rec.fileId).Some? then t else t + [rec]
  }

  /** `ORDER BY upload_date DESC`. */
  predicate NewestFirst(t: Table) {
    forall i, j :: 0 <= i < j < |t| ==> t[i].uploadDate >= t[j].uploadDate
  }

  function InsertByDate(rec: FileRecord, t: Table): Table {
    if t == [] || rec.uploadDate >= t[0].uploadDate then [rec] + t
    else [t[0]] + InsertByDate(rec, t[1..])
  }

  /** The rows of `t` newest first; rows with equal dates keep table order. */
  function OrderedByDate(t: Table): Table {
    if t == [] then [] else InsertByDate(t[0], OrderedByDate(t[1..]))
  }

  lemma {:induction false} InsertByDateSpec(rec: FileRecord, t: Table)
    requires NewestFirst(t)
    ensures NewestFirst(InsertByDate(rec, t))
    ensures multiset(InsertByDate(rec, t)) == multiset(t) + multiset{rec}
  {
    if t == [] || rec.uploadDate >= t[0].uploadDate {
      ConsNewestFirst(rec, t);
    } else {
      var rest := InsertByDate(rec, t[1..]);
      InsertByDateSpec(rec, t[1..]);
      InsertedBelowHead(rec, t, rest);
      ConsNewestFirst(t[0], rest);
      assert t == [t[0]] + t[1..];
    }
  }

  /** A row no older than the first of a newest-first table can go in front. */
  lemma ConsNewestFirst(rec: FileRecord, t: Table)
    requires NewestFirst(t)
    requires forall k :: 0 <= k < |t| ==> t[k].uploadDate <= rec.uploadDate
    ensures NewestFirst([rec] + t)
  {
    var r := [rec] + t;
    forall i, j | 0 <= i < j < |r| ensures r[i].uploadDate >= r[j].uploadDate {
      assert r[j] == t[j - 1];
      if i > 0 { assert r[i] == t[i - 1]; }
    }
  }

  lemma InsertedBelowHead(rec: FileRecord, t: Table, rest: Table)
    requires NewestFirst(t) && t != [] && rec.uploadDate < t[0].uploadDate
    requires multiset(rest) == multiset(t[1..]) + multiset{rec}
    ensures forall k :: 0 <= k < |rest| ==> rest[k].uploadDate <= t[0].uploadDate
  {
    forall k | 0 <= k < |rest| ensures rest[k].uploadDate <= t[0].uploadDate {
      var x := rest[k];
      assert x in multiset(rest);
      if x != rec {
        assert x in t[1..];
        var m :| 0 <= m < |t[1..]| && t[1..][m] == x;
        assert t[m + 1] == x;
      }
    }
  }

  /** The ORDER BY result holds every row exactly once, newest first. */
  lemma {:induction false} OrderedByDateSpec(t: Table)
    ensures NewestFirst(OrderedByDate(t))
    ensures multiset(OrderedByDate(t)) == multiset(t)
  {
    if t != [] {
      OrderedByDateSpec(t[1..]);
      InsertByDateSpec(t[0], OrderedByDate(t[1..]));
      assert t == [t[0]] + t[1..];
    }
  }

  /** The row without position `i`. */
  function RemoveAt(t: Table, i: nat): (r: Table)
    requires i < |t|
    ensures |r| == |t| - 1
    ensures forall k :: 0 <= k < i ==> r[k] == t[k]
    ensures forall k :: i <= k < |r| ==> r[k] == t[k + 1]
  {
    t[..i] + t[i + 1..]
  }

  /** The row at position `i` with a new description. */
  function SetDescriptionAt(t: Table, i: nat, description: string): (r: Table)
    requires i < |t|
    ensures |r| == |t|
    ensures forall k :: 0 <= k < |t| && k != i ==> r[k] == t[k]
    ensures r[i] == t[i].(description := Some(description))
  {
    t[i := t[i].(description := Some(description))]
  }

  /** The result dictionary built from a row: NULL description becomes "". */
  function View(rec: FileRecord): FileView {
    FileView(rec.filename, rec.filesize, rec.description.GetOr(""))
  }

  /** get_file_by_id. */
  function Lookup(t: Table, fileId: string): (r: Option<FileView>)
    ensures r.None? <==> fileId !in FileIds(t)
    ensures r.Some? ==> exists i :: 0 <= i < |t| && t[i].fileId == fileId && r.value == View(t[i])
  {
    match IndexOfId(t, fileId)
    case None => None
    case Some(i) => Some(View(t[i]))
  }

  /** delete_file_metadata: whether a row was deleted, and the new table. */
  function DeleteById(t: Table, fileId: string): (Table, bool) {
    match IndexOfId(t, fileId)
    case None => (t, false)
    case Some(i) => (RemoveAt(t, i), true)
  }

  /** update_file_description: whether a row was updated, and the new table. */
  function SetDescriptionById(t: Table, fileId: string, description: string): (Table, bool) {
    match IndexOfId(t, fileId)
    case None => (t, false)
    case Some(i) => (SetDescriptionAt(t, i, description), true)
  }

  /** delete_file_by_message_id: look up the first row with the message's
      prefix, then delete by its file_id. */
  function DeleteByMessageId(t: Table, messageId: int): (Table, Option<string>) {
    match FirstWithMessagePrefix(t, messageId)
    case None => (t, None)
    case Some(i) => (DeleteById(t, t[i].fileId).0, Some(t[i].fileId))
  }

  /** update_description_by_message_id: the same lookup, then an update by file_id. */
  function SetDescriptionByMessageId(t: Table, messageId: int, description: string): (Table, Option<string>) {
    match FirstWithMessagePrefix(t, messageId)
    case None => (t, None)
    case Some(i) => (SetDescriptionById(t, t[i].fileId, description).0, Some(t[i].fileId))
  }

  // ---------------------------------------------------------------------
  // Properties of the table operations

  /** Removing one row keeps file ids unique and one row per message, and
      removes exactly the rows with that row's file_id. */
  lemma RemoveAtSpec(t: Table, i: nat)
    requires UniqueIds(t) && i < |t|
    ensures UniqueIds(RemoveAt(t, i))
    ensures OnePerMessage(t) ==> OnePerMessage(RemoveAt(t, i))
    ensures forall x :: x in RemoveAt(t, i) <==> x in t && x.fileId != t[i].fileId
  {
    var r := RemoveAt(t, i);
    forall x | x in t && x.fileId != t[i].fileId ensures x in r {
      var k :| 0 <= k < |t| && t[k] == x;
      if k < i { assert r[k] == x; } else { assert r[k - 1] == x; }
    }
  }

  /** Changing a description keeps every file id in place. */
  lemma SetDescriptionAtKeepsIds(t: Table, i: nat, description: string)
    requires i < |t|
    ensures var r := SetDescriptionAt(t, i, description);
      && (UniqueIds(t) ==> UniqueIds(r))
      && (OnePerMessage(t) ==> OnePerMessage(r))
      && FileIds(r) == FileIds(t)
  {
    var r := SetDescriptionAt(t, i, description);
    forall x | x in FileIds(t) ensures x in FileIds(r) {
      var k :| 0 <= k < |t| && t[k].fileId == x;
      assert r[k].fileId == x;
    }
  }

  /** INSERT OR IGNORE: a taken file_id leaves the table unchanged, a fresh
      one appends exactly the given row; file ids stay unique. */
  lemma InsertedSpec(t: Table, rec: FileRecord)
    ensures rec.fileId in FileIds(t) ==> Inserted(t, rec) == t
    ensures rec.fileId !in FileIds(t) ==> Inserted(t, rec) == t + [rec]
    ensures UniqueIds(t) ==> UniqueIds(Inserted(t, rec))
    ensures rec.fileId in FileIds(Inserted(t, rec))
  {
    var r := Inserted(t, rec);
    if rec.fileId !in FileIds(t) {
      assert r[|t|] == rec;
      forall k | 0 <= k < |t| ensures t[k].fileId != rec.fileId {
        assert t[k] in t;
      }
    }
  }

  /** Inserting the same file_id twice leaves one row, with the fields of
      the first insert. */
  lemma InsertTwice(t: Table, first: FileRecord, second: FileRecord)
    requires first.fileId == second.fileId
    ensures Inserted(Inserted(t, first), second) == Inserted(t, first)
  {
    InsertedSpec(t, first);
    InsertedSpec(Inserted(t, first), second);
  }

  /** get_file_by_id finds the row with that file_id and maps a NULL
      description to "". */
  lemma LookupSpec(t: Table, fileId: string, i: nat)
    requires UniqueIds(t) && i < |t| && t[i].fileId == fileId
    ensures Lookup(t, fileId) == Some(FileView(t[i].filename, t[i].filesize,
      if t[i].description.None? then "" else t[i].description.value))
  {
  }

  /** delete_file_metadata returns true iff a row had that file_id; afterwards
      none has it and every other row is still there. */
  lemma DeleteByIdSpec(t: Table, fileId: string)
    requires UniqueIds(t)
    ensures var (r, deleted) := DeleteById(t, fileId);
      && (deleted <==> fileId in FileIds(t))
      && UniqueIds(r)
      && (OnePerMessage(t) ==> OnePerMessage(r))
      && (forall x :: x in r <==> x in t && x.fileId != fileId)
      && |r| == (if deleted then |t| - 1 else |t|)
  {
    match IndexOfId(t, fileId)
    case None =>
      forall x | x in t ensures x.fileId != fileId {
        assert x.fileId in FileIds(t);
      }
    case Some(i) => RemoveAtSpec(t, i);
  }

  /** update_file_description returns true iff a row had that file_id, and
      sets the description of every such row, leaving all else unchanged. */
  lemma SetDescriptionByIdSpec(t: Table, fileId: string, description: string)
    requires UniqueIds(t)
    ensures var (r, updated) := SetDescriptionById(t, fileId, description);
      && (updated <==> fileId in FileIds(t))
      && UniqueIds(r)
      && |r| == |t|
      && forall k :: 0 <= k < |t| ==>
           r[k] == if t[k].fileId == fileId then t[k].(description := Some(description)) else t[k]
  {
    match IndexOfId(t, fileId)
    case None =>
    case Some(i) => SetDescriptionAtKeepsIds(t, i, description);
  }

  /** delete_file_by_message_id: with a match, the first matching row is
      removed and its file_id (which carries the prefix) returned; without
      one, nothing changes. */
  lemma DeleteByMessageIdSpec(t: Table, messageId: int)
    requires UniqueIds(t)
    ensures var (r, deleted) := DeleteByMessageId(t, messageId);
      && (deleted.None? <==> forall k :: 0 <= k < |t| ==> !HasMessagePrefix(t[k].fileId, messageId))
      && (deleted.None? ==> r == t)
      && (deleted.Some? ==>
            && HasMessagePrefix(deleted.value, messageId)
            && deleted.value in FileIds(t)
            && (forall x :: x in r <==> x in t && x.fileId != deleted.value)
            && |r| == |t| - 1)
      && UniqueIds(r)
      && (OnePerMessage(t) ==> OnePerMessage(r))
  {
    match FirstWithMessagePrefix(t, messageId)
    case None =>
    case Some(i) =>
      assert t[i] in t;
      DeleteByIdSpec(t, t[i].fileId);
  }

  /** update_description_by_message_id: with a match, exactly the first
      matching row gets the new description and its file_id is returned;
      without one, nothing changes. */
  lemma SetDescriptionByMessageIdSpec(t: Table, messageId: int, description: string)
    ensures var (r, updated) := SetDescriptionByMessageId(t, messageId, description);
      && (updated.None? <==> forall k :: 0 <= k < |t| ==> !HasMessagePrefix(t[k].fileId, messageId))
      && (updated.None? ==> r == t)
      && (updated.Some? ==>
            exists i :: 0 <= i < |t| && t[i].fileId == updated.value
              && HasMessagePrefix(updated.value, messageId)
              && (forall j :: 0 <= j < i ==> !HasMessagePrefix(t[j].fileId, messageId))
              && r == t[i := t[i].(description := Some(description))])
      && (UniqueIds(t) ==> UniqueIds(r))
      && (OnePerMessage(t) ==> OnePerMessage(r))
      && FileIds(r) == FileIds(t)
  {
    match FirstWithMessagePrefix(t, messageId)
    case None =>
    case Some(i) =>
      var j := IndexOfId(t, t[i].fileId).value;
      assert j == i by {
        assert HasMessagePrefix(t[j].fileId, messageId);
      }
      SetDescriptionAtKeepsIds(t, i, description);
  }

  /** Deleting by message id and then looking up the returned file_id finds nothing. */
  lemma DeleteThenLookup(t: Table, messageId: int)
    requires UniqueIds(t)
    ensures var (r, deleted) := DeleteByMessageId(t, messageId);
      deleted.Some? ==> Lookup(r, deleted.value).None?
  {
    DeleteByMessageIdSpec(t, messageId);
  }

  /** INSERT OR IGNORE checks only the file_id, so it can add a second row
      for a message: "1:b" goes into a table holding "1:a". */
  lemma InsertCanBreakOnePerMessage()
    ensures var t := [FileRecord("a", "1:a", 1, None, 0)];
      && UniqueIds(t) && OnePerMessage(t)
      && Inserted(t, FileRecord("b", "1:b", 1, None, 0)) == t + [FileRecord("b", "1:b", 1, None, 0)]
      && !OnePerMessage(Inserted(t, FileRecord("b", "1:b", 1, None, 0)))
  {
    var t := [FileRecord("a", "1:a", 1, None, 0)];
    var rec := FileRecord("b", "1:b", 1, None, 0);
    assert NatDigits(1) == "1";
    assert MessagePrefix(1) == "1:";
    assert IndexOfId(t, "1:b").None?;
    var r := t + [rec];
    assert HasMessagePrefix(r[0].fileId, 1) && HasMessagePrefix(r[1].fileId, 1);
  }

  /** Updating by message id and then looking up the returned file_id sees
      the new description, without assuming unique file ids. */
  lemma UpdateThenLookup(t: Table, messageId: int, description: string)
    ensures var (r, updated) := SetDescriptionByMessageId(t, messageId, description);
      updated.Some? ==> Lookup(r, updated.value).Some? && Lookup(r, updated.value).value.description == description
  {
    match FirstWithMessagePrefix(t, messageId)
    case None =>
    case Some(i) =>
      SetDescriptionByMessageIdSpec(t, messageId, description);
      var r := SetDescriptionAt(t, i, description);
      var j := IndexOfId(r, t[i].fileId).value;
      assert j == i by {
        assert HasMessagePrefix(r[j].fileId, messageId);
      }
  }

  // ---------------------------------------------------------------------
  // The store

  /** The `files` table and the functions of app/database.py that use it.
      The lock around each function makes it atomic; sequential methods
      already are. */
  class FileStore {
    var rows: Table

    ghost predicate Valid()
      reads this
    {
      UniqueIds(rows)
    }

    constructor ()
      ensures Valid() && rows == []
    {
      rows := [];
    }

    /** add_file_metadata; `uploadDate` stands for CURRENT_TIMESTAMP. */
    method AddFileMetadata(filename: string, fileId: string, filesize: int,
                           description: Option<string>, uploadDate: int)
      requires Valid()
      modifies this
      ensures Valid()
      ensures fileId in old(FileIds(rows)) ==> rows == old(rows)
      ensures fileId !in old(FileIds(rows)) ==>
        rows == old(rows) + [FileRecord(filename, fileId, filesize, description, uploadDate)]
      ensures rows == Inserted(old(rows), FileRecord(filename, fileId, filesize, description, uploadDate))
    {
      var rec := FileRecord(filename, fileId, filesize, description, uploadDate);
      InsertedSpec(rows, rec);
      if IndexOfId(rows, fileId).None? {
        rows := rows + [rec];
      }
    }

    /** get_all_files: every row once, newest first; the table is not modified. */
    method GetAllFiles() returns (files: Table)
      ensures NewestFirst(files)
      ensures multiset(files) == multiset(rows)
    {
      files := OrderedByDate(rows);
      OrderedByDateSpec(rows);
    }

    /** get_file_by_id. */
    method GetFileById(fileId: string) returns (result: Option<FileView>)
      requires Valid()
      ensures result.None? <==> fileId !in FileIds(rows)
      ensures forall i :: 0 <= i < |rows| && rows[i].fileId == fileId ==>
        result == Some(FileView(rows[i].filename, rows[i].filesize, rows[i].description.GetOr("")))
    {
      result := Lookup(rows, fileId);
      forall i | 0 <= i < |rows| && rows[i].fileId == fileId
        ensures result == Some(FileView(rows[i].filename, rows[i].filesize, rows[i].description.GetOr("")))
      {
        LookupSpec(rows, fileId, i);
      }
    }

    /** delete_file_metadata. */
    method DeleteFileMetadata(fileId: string) returns (deleted: bool)
      requires Valid()
      modifies this
      ensures Valid()
      ensures deleted <==> fileId in old(FileIds(rows))
      ensures fileId !in FileIds(rows)
      ensures forall x :: x in rows <==> x in old(rows) && x.fileId != fileId
      ensures (rows, deleted) == DeleteById(old(rows), fileId)
    {
      DeleteByIdSpec(rows, fileId);
      var (r, d) := DeleteById(rows, fileId);
      rows, deleted := r, d;
    }

    /** delete_file_by_message_id. */
    method DeleteFileByMessageId(messageId: int) returns (deleted: Option<string>)
      requires Valid()
      modifies this
      ensures Valid()
      ensures deleted.None? ==> rows == old(rows)
      ensures deleted.Some? ==>
        HasMessagePrefix(deleted.value, messageId) && deleted.value in old(FileIds(rows)) && deleted.value !in FileIds(rows)
      ensures (rows, deleted) == DeleteByMessageId(old(rows), messageId)
    {
      DeleteByMessageIdSpec(rows, messageId);
      var found := FirstWithMessagePrefix(rows, messageId);
      deleted := None;
      if found.Some? {
        deleted := Some(rows[found.value].fileId);
        var r := DeleteFileMetadata(deleted.value);
      }
    }

    /** update_file_description. */
    method UpdateFileDescription(fileId: string, description: string) returns (updated: bool)
      requires Valid()
      modifies this
      ensures Valid()
      ensures updated <==> fileId in old(FileIds(rows))
      ensures |rows| == |old(rows)|
      ensures forall k :: 0 <= k < |rows| ==>
        rows[k] == if old(rows)[k].fileId == fileId then old(rows)[k].(description := Some(description)) else old(rows)[k]
      ensures (rows, updated) == SetDescriptionById(old(rows), fileId, description)
    {
      SetDescriptionByIdSpec(rows, fileId, description);
      var (r, u) := SetDescriptionById(rows, fileId, description);
      rows, updated := r, u;
    }

    /** update_description_by_message_id. */
    method UpdateDescriptionByMessageId(messageId: int, description: string) returns (updated: Option<string>)
      requires Valid()
      modifies this
      ensures Valid()
      ensures updated.None? ==> rows == old(rows)
      ensures updated.Some? ==> HasMessagePrefix(updated.value, messageId) && updated.value in FileIds(rows)
      ensures (rows, updated) == SetDescriptionByMessageId(old(rows), messageId, description)
    {
      SetDescriptionByMessageIdSpec(rows, messageId, description);
      var found := FirstWithMessagePrefix(rows, messageId);
      updated := None;
      if found.Some? {
        updated := Some(rows[found.value].fileId);
        var r := UpdateFileDescription(updated.value, description);
      }
    }
  }
}
