/**
 * The older `DatabaseManager` inside `clipboard_history_app.py`, the one the
 * runnable application builds. Its table has no file, image or backup columns,
 * it refuses whitespace-only content of every type, and its search looks at
 * the content only.
 */
module LegacyStore {
  import opened Fingerprint
  import Text
  import opened Table

  /** A legacy row carries nothing beyond the shared columns. */
  type Item = Row<()>

  /** The `WHERE` clause of the legacy `get_clipboard_history`. */
  predicate Matches(r: Item, searchTerm: string, favoritesOnly: bool) {
    && (searchTerm != "" ==> Text.Contains(r.content, searchTerm))
    && (favoritesOnly ==> r.isFavorite)
  }

  function HistoryFilter(searchTerm: string, favoritesOnly: bool): Item -> bool {
    r => Matches(r, searchTerm, favoritesOnly)
  }

  /** `DatabaseManager` of `clipboard_history_app.py`, over an open database. */
  class DatabaseManager {
    var rows: seq<Item>
    var nextId: nat

    function Table(): Db<()>
      reads this
    {
      Db(rows, nextId)
    }

    ghost predicate Valid()
      reads this
    {
      WellFormed(Table())
    }

    constructor (existing: Db<()>)
      requires WellFormed(existing)
      ensures Valid() && Table() == existing
    {
      rows := existing.rows;
      nextId := existing.nextId;
    }

    /**
     * `add_clipboard_item`: refuses content that is blank once stripped,
     * whatever its type; otherwise inserts it or touches the row holding it.
     */
    method AddClipboardItem(content: string, contentType: string, now: int) returns (added: bool)
      requires Valid()
      modifies this
      ensures Valid()
      ensures added <==> Text.Strip(content) != ""
      ensures added ==> Table() == Upserted(old(Table()), content, contentType, (), now)
      ensures !added ==> Table() == old(Table())
    {
      if Text.Strip(content) == "" {
        return false;
      }
      ghost var target := Upserted(Table(), content, contentType, (), now);
      UpsertKeepsWellFormed(Table(), content, contentType, (), now);
      var h := HashContent(content);
      var existing := FindByHash(rows, h);
      if existing.Some? {
        var i := existing.value;
        rows := rows[i := rows[i].(timestamp := now, accessCount := rows[i].accessCount + 1)];
      } else {
        rows := rows + [Row(nextId, content, h, contentType, now, false, 0, ())];
        nextId := nextId + 1;
      }
      assert Table() == target;
      return true;
    }

    /**
     * `get_clipboard_history`: rows whose content contains the search term
     * (and favourites only, when asked), newest first and each at most as often
     * as stored: `limit` of them when `limit > 0` and that many match, otherwise
     * all, and none left out that is newer than one returned.
     */
    function GetClipboardHistory(limit: int, searchTerm: string, favoritesOnly: bool): (items: seq<Item>)
      reads this
      ensures forall r :: r in items ==> r in rows && Matches(r, searchTerm, favoritesOnly)
      ensures NewestFirst(items)
      ensures multiset(items) <= multiset(Select(rows, HistoryFilter(searchTerm, favoritesOnly)))
      ensures limit > 0 ==> |items| == Text.Min(|Select(rows, HistoryFilter(searchTerm, favoritesOnly))|, limit)
      ensures limit <= 0 ==> multiset(items) == multiset(Select(rows, HistoryFilter(searchTerm, favoritesOnly)))
      ensures limit <= 0 ==> forall r :: r in rows && Matches(r, searchTerm, favoritesOnly) ==> r in items
      ensures forall r, i :: r in rows && Matches(r, searchTerm, favoritesOnly) && r !in items && 0 <= i < |items|
                ==> items[i].timestamp >= r.timestamp
    {
      var keep := HistoryFilter(searchTerm, favoritesOnly);
      assert forall r :: keep(r) == Matches(r, searchTerm, favoritesOnly);
      QueryIsNewestMatches(rows, keep, limit);
      SelectExactly(rows, keep);
      var items := Query(rows, keep, limit);
      assert limit <= 0 ==> forall r :: r in Select(rows, keep) ==> r in multiset(items);
      items
    }

    /** `delete_item(item_id)`. */
    method DeleteItem(id: nat)
      requires Valid()
      modifies this
      ensures Valid() && nextId == old(nextId)
      ensures rows == WithoutId(old(rows), id)
      ensures forall r :: r in rows <==> r in old(rows) && r.id != id
    {
      DeleteRemovesExactlyId(Table(), id);
      rows := WithoutId(rows, id);
    }

    /** `toggle_favorite(item_id)`. */
    method ToggleFavorite(id: nat)
      requires Valid()
      modifies this
      ensures Valid() && nextId == old(nextId)
      ensures rows == Toggled(old(rows), id)
    {
      ToggleKeepsWellFormed(Table(), id);
      rows := Toggled(rows, id);
    }

    /** `clear_history(keep_favorites)`. */
    method ClearHistory(keepFavorites: bool)
      requires Valid()
      modifies this
      ensures Valid() && nextId == old(nextId)
      ensures rows == Cleared(old(rows), keepFavorites)
    {
      ClearKeepsExactlyFavorites(Table(), keepFavorites);
      rows := Cleared(rows, keepFavorites);
    }
  }
}
