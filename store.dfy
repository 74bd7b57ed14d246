/**
 * The enhanced history store of `database_manager.py`: the table with its file
 * and image columns and the `backed_up` flag, the JSON export, and the
 * incremental backup into the `.json` file next to the database.
 *
 * SQLite is replaced by the rows themselves (see `Table`); the JSON files are
 * values (`ExportFile`, `BackupFile`); `datetime.now().isoformat()` is a
 * parameter, and so is whether the target file can be opened for writing.
 */
module HistoryStore {
  import opened Wrappers
  import opened Fingerprint
  import Text
  import Base64
  import opened Table

  type Bytes = seq<Base64.Byte>

  /** The columns only the enhanced table has. */
  datatype FileColumns = FileColumns(
    filePath: Option<string>,
    fileSize: Option<nat>,
    mimeType: Option<string>,
    thumbnail: Option<Bytes>,
    backedUp: bool)

  type Item = Row<FileColumns>

  /** One element of the `items` list of an export or backup file. */
  datatype ExportItem = ExportItem(
    id: nat,
    content: string,
    contentType: string,
    filePath: Option<string>,
    fileSize: Option<nat>,
    mimeType: Option<string>,
    thumbnail: Option<string>,
    timestamp: int,
    isFavorite: bool,
    accessCount: nat)

  /** The `export_info` object: of a manual export, or of the automatic backup. */
  datatype ExportInfo =
    | ManualExport(timestamp: string, totalItems: nat, favoritesOnly: bool, version: string)
    | AutoBackup(timestamp: string, totalItems: nat, version: string)

  /** A file written by `export_to_json`. */
  datatype ExportFile = ExportFile(info: ExportInfo, items: seq<ExportItem>)

  /**
   * What `backup_path` holds: no file, a file `json.load` rejects, or a parsed
   * document; its `items` is `None` when the document has no `items` list to
   * append to.
   */
  datatype BackupFile =
    | Missing
    | Unreadable
    | Parsed(info: Option<ExportInfo>, items: Option<seq<ExportItem>>)

  /** The `item_data` dict built for one row; an empty or absent thumbnail is `None`. */
  function ToExportItem(r: Item): (e: ExportItem)
    ensures e.id == r.id && e.content == r.content && e.contentType == r.contentType
    ensures e.filePath == r.extra.filePath && e.fileSize == r.extra.fileSize && e.mimeType == r.extra.mimeType
    ensures e.timestamp == r.timestamp && e.isFavorite == r.isFavorite && e.accessCount == r.accessCount
    ensures e.thumbnail.Some? <==> r.extra.thumbnail.Some? && r.extra.thumbnail.value != []
    ensures e.thumbnail.Some? ==> e.thumbnail.value == Base64.Encode(r.extra.thumbnail.value)
  {
    var thumb := r.extra.thumbnail;
    ExportItem(r.id, r.content, r.contentType, r.extra.filePath, r.extra.fileSize, r.extra.mimeType,
               if thumb.Some? && thumb.value != [] then Some(Base64.Encode(thumb.value)) else None,
               r.timestamp, r.isFavorite, r.accessCount)
  }

  /** An exported thumbnail decodes back to the stored bytes. */
  lemma ExportedThumbnailRoundTrip(r: Item)
    requires ToExportItem(r).thumbnail.Some?
    ensures Base64.Decode(ToExportItem(r).thumbnail.value) == r.extra.thumbnail
  {
    Base64.RoundTrip(r.extra.thumbnail.value);
  }

  /** The `WHERE` clause of `get_clipboard_history`; `LIKE '%term%'` is read as containment. */
  predicate Matches(r: Item, searchTerm: string, favoritesOnly: bool, typeFilter: string) {
    && (searchTerm != "" ==>
          Text.Contains(r.content, searchTerm)
          || (r.extra.filePath.Some? && Text.Contains(r.extra.filePath.value, searchTerm)))
    && (favoritesOnly ==> r.isFavorite)
    && (typeFilter != "all" ==> r.contentType == typeFilter)
  }

  /** The condition `get_clipboard_history` builds from its filter arguments. */
  function HistoryFilter(searchTerm: string, favoritesOnly: bool, typeFilter: string): Item -> bool {
    r => Matches(r, searchTerm, favoritesOnly, typeFilter)
  }

  /** `WHERE backed_up = 0`. */
  predicate Pending(r: Item) {
    !r.extra.backedUp
  }

  /** The `items` list written for `rows`, one element per row, in order. */
  function ExportList(rows: seq<Item>): (items: seq<ExportItem>)
    ensures |items| == |rows|
    ensures forall i :: 0 <= i < |rows| ==> items[i] == ToExportItem(rows[i])
  {
    if rows == [] then [] else ExportList(rows[..|rows| - 1]) + [ToExportItem(rows[|rows| - 1])]
  }

  /**
   * The items a backup appends to: those of the parsed file, none when there is
   * no file or it cannot be parsed, and `None` when the parsed document has no
   * `items` list (the `KeyError` ends the backup).
   */
  function ItemsBefore(f: BackupFile): (items: Option<seq<ExportItem>>)
    ensures items.None? <==> f.Parsed? && f.items.None?
  {
    match f
    case Parsed(_, items) => items
    case _ => Some([])
  }

  /** The ids of `items` (`item_ids`). */
  function IdsOf(items: seq<Item>): (ids: set<nat>)
    ensures forall r :: r in items ==> r.id in ids
    ensures forall id :: id in ids ==> exists r :: r in items && r.id == id
  {
    set r | r in items :: r.id
  }

  /** A row with `backed_up = 1`. */
  function Marked(r: Item): (m: Item)
    ensures m.extra.backedUp
    ensures m.(extra := r.extra) == r && m.extra.(backedUp := r.extra.backedUp) == r.extra
  {
    r.(extra := r.extra.(backedUp := true))
  }

  /** `UPDATE clipboard_history SET backed_up = 1 WHERE id IN (…)`. */
  function MarkBackedUp(rows: seq<Item>, ids: set<nat>): (out: seq<Item>)
    ensures |out| == |rows|
    ensures forall i :: 0 <= i < |rows| && rows[i].id in ids ==> out[i] == Marked(rows[i])
    ensures forall i :: 0 <= i < |rows| && rows[i].id !in ids ==> out[i] == rows[i]
  {
    if rows == [] then []
    else [if rows[0].id in ids then Marked(rows[0]) else rows[0]] + MarkBackedUp(rows[1..], ids)
  }

  /** Marking changes no id, hash or content, so the table stays well formed. */
  lemma MarkKeepsWellFormed(db: Db<FileColumns>, ids: set<nat>)
    requires WellFormed(db)
    ensures WellFormed(db.(rows := MarkBackedUp(db.rows, ids)))
  {
    var out := MarkBackedUp(db.rows, ids);
    assert forall i :: 0 <= i < |out| ==>
      out[i].id == db.rows[i].id && out[i].content == db.rows[i].content && out[i].contentHash == db.rows[i].contentHash;
  }

  /**
   * Because ids are unique, the ids of the rows a condition selects belong to
   * exactly the rows that satisfy it.
   */
  lemma SelectedIds(db: Db<FileColumns>, keep: Item -> bool)
    requires WellFormed(db)
    ensures forall i :: 0 <= i < |db.rows| ==> (db.rows[i].id in IdsOf(Query(db.rows, keep, 0)) <==> keep(db.rows[i]))
  {
    var selected := Query(db.rows, keep, 0);
    UnlimitedQueryMembers(db.rows, keep);
    forall i | 0 <= i < |db.rows| ensures db.rows[i].id in IdsOf(selected) <==> keep(db.rows[i]) {
      if db.rows[i].id in IdsOf(selected) {
        var r :| r in selected && r.id == db.rows[i].id;
        var j :| 0 <= j < |db.rows| && db.rows[j] == r;
        assert j == i;
      }
    }
  }

  /**
   * Marking the ids of every row a condition selects marks exactly those rows:
   * they get `backed_up = 1`, every other row and every other column is unchanged.
   */
  lemma MarkingSelectedRows(db: Db<FileColumns>, keep: Item -> bool)
    requires WellFormed(db)
    ensures var out := MarkBackedUp(db.rows, IdsOf(Query(db.rows, keep, 0)));
            && |out| == |db.rows|
            && (forall i :: 0 <= i < |db.rows| && keep(db.rows[i]) ==> out[i] == Marked(db.rows[i]))
            && (forall i :: 0 <= i < |db.rows| && !keep(db.rows[i]) ==> out[i] == db.rows[i])
            && WellFormed(db.(rows := out))
  {
    SelectedIds(db, keep);
    MarkKeepsWellFormed(db, IdsOf(Query(db.rows, keep, 0)));
  }

  /** After a backup has marked the rows it found pending, none is pending any more. */
  lemma BackupLeavesNothingPending(db: Db<FileColumns>)
    requires WellFormed(db)
    ensures Select(MarkBackedUp(db.rows, IdsOf(Query(db.rows, Pending, 0))), Pending) == []
  {
    MarkingSelectedRows(db, Pending);
    var out := MarkBackedUp(db.rows, IdsOf(Query(db.rows, Pending, 0)));
    SelectNone(out, Pending);
  }

  /**
   * An export of the whole history marks every row, so a backup right after it
   * finds nothing pending.
   */
  lemma FullExportLeavesNothingToBackUp(db: Db<FileColumns>)
    requires WellFormed(db)
    ensures Query(MarkBackedUp(db.rows, IdsOf(Query(db.rows, HistoryFilter("", false, "all"), 0))), Pending, 0) == []
  {
    var keep := HistoryFilter("", false, "all");
    MarkingSelectedRows(db, keep);
    var out := MarkBackedUp(db.rows, IdsOf(Query(db.rows, keep, 0)));
    assert forall i :: 0 <= i < |db.rows| ==> keep(db.rows[i]);
    SelectNone(out, Pending);
  }

  /** `DatabaseManager` of `database_manager.py`, over an open database and its backup file. */
  class DatabaseManager {
    var rows: seq<Item>
    var nextId: nat
    var backupFile: BackupFile

    function Table(): Db<FileColumns>
      reads this
    {
      Db(rows, nextId)
    }

    ghost predicate Valid()
      reads this
    {
      WellFormed(Table())
    }

    /** Opens a database holding `existing` (`CREATE TABLE IF NOT EXISTS` keeps what is there). */
    constructor (existing: Db<FileColumns>, backup: BackupFile)
      requires WellFormed(existing)
      ensures Valid() && Table() == existing && backupFile == backup
    {
      rows := existing.rows;
      nextId := existing.nextId;
      backupFile := backup;
    }

    /**
     * `add_clipboard_item`: refuses text that is blank once stripped; otherwise
     * inserts the item, or touches the row that already holds the same content.
     */
    method AddClipboardItem(content: string, contentType: string, filePath: Option<string>, fileSize: Option<nat>,
                            mimeType: Option<string>, thumbnail: Option<Bytes>, now: int) returns (added: bool)
      requires Valid()
      modifies this
      ensures Valid() && backupFile == old(backupFile)
      ensures added <==> !(contentType == "text" && Text.Strip(content) == "")
      ensures added ==> Table() == Upserted(old(Table()), content, contentType,
                                            FileColumns(filePath, fileSize, mimeType, thumbnail, false), now)
      ensures !added ==> Table() == old(Table())
    {
      if contentType == "text" && Text.Strip(content) == "" {
        return false;
      }
      ghost var target := Upserted(Table(), content, contentType, FileColumns(filePath, fileSize, mimeType, thumbnail, false), now);
      UpsertKeepsWellFormed(Table(), content, contentType, FileColumns(filePath, fileSize, mimeType, thumbnail, false), now);
      var h := HashContent(content);
      var existing := FindByHash(rows, h);
      if existing.Some? {
        var i := existing.value;
        rows := rows[i := rows[i].(timestamp := now, accessCount := rows[i].accessCount + 1)];
      } else {
        rows := rows + [Row(nextId, content, h, contentType, now, false, 0,
                            FileColumns(filePath, fileSize, mimeType, thumbnail, false))];
        nextId := nextId + 1;
      }
      assert Table() == target;
      return true;
    }

    /**
     * The `UPDATE … SET backed_up = 1 WHERE id IN (…)` that an export and a
     * backup run over the ids they wrote: only the flag of those rows changes,
     * so the table stays well formed.
     */
    method MarkItemsBackedUp(ids: set<nat>)
      requires Valid()
      modifies this
      ensures Valid() && nextId == old(nextId) && backupFile == old(backupFile)
      ensures rows == MarkBackedUp(old(rows), ids)
    {
      ghost var db := Table();
      MarkKeepsWellFormed(db, ids);
      rows := MarkBackedUp(rows, ids);
      assert Table() == db.(rows := MarkBackedUp(db.rows, ids));
    }

    /**
     * `get_clipboard_history`: the matching rows, newest first and each at most
     * as often as stored: `limit` of them when `limit > 0` and that many match,
     * otherwise all, and none left out that is newer than one returned.
     */
    function GetClipboardHistory(limit: int, searchTerm: string, favoritesOnly: bool, typeFilter: string): (items: seq<Item>)
      reads this
      ensures forall r :: r in items ==> r in rows && Matches(r, searchTerm, favoritesOnly, typeFilter)
      ensures NewestFirst(items)
      ensures multiset(items) <= multiset(Select(rows, HistoryFilter(searchTerm, favoritesOnly, typeFilter)))
      ensures limit > 0 ==> |items| == Text.Min(|Select(rows, HistoryFilter(searchTerm, favoritesOnly, typeFilter))|, limit)
      ensures limit <= 0 ==> multiset(items) == multiset(Select(rows, HistoryFilter(searchTerm, favoritesOnly, typeFilter)))
      ensures limit <= 0 ==> forall r :: r in rows && Matches(r, searchTerm, favoritesOnly, typeFilter) ==> r in items
      ensures forall r, i :: r in rows && Matches(r, searchTerm, favoritesOnly, typeFilter) && r !in items && 0 <= i < |items|
                ==> items[i].timestamp >= r.timestamp
    {
      var keep := HistoryFilter(searchTerm, favoritesOnly, typeFilter);
      assert forall r :: keep(r) == Matches(r, searchTerm, favoritesOnly, typeFilter);
      QueryIsNewestMatches(rows, keep, limit);
      SelectExactly(rows, keep);
      var items := Query(rows, keep, limit);
      assert limit <= 0 ==> forall r :: r in Select(rows, keep) ==> r in multiset(items);
      items
    }

    /** `delete_item(item_id)`. */
    method DeleteItem(id: nat)
      requires Valid()
      modifies this
      ensures Valid() && nextId == old(nextId) && backupFile == old(backupFile)
      ensures rows == WithoutId(old(rows), id)
      ensures forall r :: r in rows <==> r in old(rows) && r.id != id
    {
      DeleteRemovesExactlyId(Table(), id);
      rows := WithoutId(rows, id);
    }

    /** `toggle_favorite(item_id)`. */
    method ToggleFavorite(id: nat)
      requires Valid()
      modifies this
      ensures Valid() && nextId == old(nextId) && backupFile == old(backupFile)
      ensures rows == Toggled(old(rows), id)
    {
      ToggleKeepsWellFormed(Table(), id);
      rows := Toggled(rows, id);
    }

    /** `clear_history(keep_favorites)`. */
    method ClearHistory(keepFavorites: bool)
      requires Valid()
      modifies this
      ensures Valid() && nextId == old(nextId) && backupFile == old(backupFile)
      ensures rows == Cleared(old(rows), keepFavorites)
    {
      ClearKeepsExactlyFavorites(Table(), keepFavorites);
      rows := Cleared(rows, keepFavorites);
    }

    /** The loop of `export_to_json` and `backup_unsynced_items` that builds the `items` list. */
    method ExportItems(selected: seq<Item>) returns (items: seq<ExportItem>)
      ensures items == ExportList(selected)
    {
      items := [];
      var i := 0;
      while i < |selected|
        invariant 0 <= i <= |selected|
        invariant items == ExportList(selected[..i])
      {
        assert selected[..i + 1][..i] == selected[..i];
        items := items + [ToExportItem(selected[i])];
        i := i + 1;
      }
      assert selected[..i] == selected;
    }

    /**
     * `export_to_json(file_path, favorites_only)`: writes every row, or every
     * favourite, newest first, marks those rows backed up and returns their
     * number. Nothing is returned when the file cannot be written: the exception
     * leaves the table as it was.
     */
    method ExportToJson(favoritesOnly: bool, exportedAt: string, writable: bool)
      returns (count: Option<nat>, written: Option<ExportFile>)
      requires Valid()
      modifies this
      ensures Valid() && nextId == old(nextId) && backupFile == old(backupFile)
      ensures !writable ==> count.None? && written.None? && rows == old(rows)
      ensures writable ==>
                var selected := Query(old(rows), HistoryFilter("", favoritesOnly, "all"), 0);
                && count == Some(|selected|)
                && written == Some(ExportFile(ManualExport(exportedAt, |selected|, favoritesOnly, "1.0"), ExportList(selected)))
                && rows == MarkBackedUp(old(rows), IdsOf(selected))
    {
      var selected := GetClipboardHistory(0, "", favoritesOnly, "all");
      assert selected == Query(rows, HistoryFilter("", favoritesOnly, "all"), 0);
      var items := ExportItems(selected);
      if !writable {
        return None, None;
      }
      written := Some(ExportFile(ManualExport(exportedAt, |selected|, favoritesOnly, "1.0"), items));
      if |selected| > 0 {
        MarkItemsBackedUp(IdsOf(selected));
      } else {
        assert MarkBackedUp(rows, IdsOf(selected)) == rows;
      }
      count := Some(|selected|);
    }

    /**
     * `backup_unsynced_items()`: appends every row not yet backed up, newest
     * first, to the items of the backup file, rewrites its `export_info`, marks
     * those rows backed up and returns their number. Returns 0 and changes
     * nothing when no row is pending, when the parsed file has no `items` list,
     * or when the file cannot be written.
     */
    method BackupUnsyncedItems(backedUpAt: string, writable: bool) returns (count: nat)
      requires Valid()
      modifies this
      ensures Valid() && nextId == old(nextId)
      ensures Query(old(rows), Pending, 0) == [] || ItemsBefore(old(backupFile)).None? || !writable ==>
                count == 0 && rows == old(rows) && backupFile == old(backupFile)
      ensures Query(old(rows), Pending, 0) != [] && ItemsBefore(old(backupFile)).Some? && writable ==>
                var pending := Query(old(rows), Pending, 0);
                var before := ItemsBefore(old(backupFile)).value;
                && count == |pending|
                && rows == MarkBackedUp(old(rows), IdsOf(pending))
                && backupFile.Parsed?
                && backupFile.items == Some(before + ExportList(pending))
                && backupFile.info == Some(AutoBackup(backedUpAt, |backupFile.items.value|, "1.0"))
    {
      var pending := Query(rows, Pending, 0);
      if pending == [] {
        return 0;
      }
      var before := ItemsBefore(backupFile);
      if before.None? {
        return 0;
      }
      var added := ExportItems(pending);
      if !writable {
        return 0;
      }
      MarkItemsBackedUp(IdsOf(pending));
      ghost var marked := Table();
      count := |pending|;
      var after := before.value + added;
      backupFile := Parsed(Some(AutoBackup(backedUpAt, |after|, "1.0")), Some(after));
      assert Table() == marked;
    }
  }
}
