/**
 * The `clipboard_history` table, shared by both history stores: rows keyed by an
 * AUTOINCREMENT id, with a UNIQUE content hash. The SQL each store issues is
 * modelled here once, as functions on the sequence of rows in table order; the
 * stores' classes apply them to their fields.
 *
 * Rows are generic in the columns only the enhanced store has (`X`). Timestamps
 * are a logical clock: the caller passes the value `CURRENT_TIMESTAMP` would
 * have.
 */
module Table {
  import opened Wrappers
  import opened Fingerprint
  import Text

  datatype Row<X> = Row(
    id: nat,
    content: string,
    contentHash: string,
    contentType: string,
    timestamp: int,
    isFavorite: bool,
    accessCount: nat,
    extra: X)

  /** The rows, and the id AUTOINCREMENT hands out next. */
  datatype Db<X> = Db(rows: seq<Row<X>>, nextId: nat)

  /**
   * No two rows share an id or a content hash, every id is below the next one
   * to be handed out, and every hash is its content's fingerprint.
   */
  predicate WellFormed<X>(db: Db<X>) {
    && (forall i, j :: 0 <= i < j < |db.rows| ==>
          db.rows[i].id != db.rows[j].id && db.rows[i].contentHash != db.rows[j].contentHash)
    && (forall i :: 0 <= i < |db.rows| ==>
          db.rows[i].id < db.nextId && db.rows[i].contentHash == HashContent(db.rows[i].content))
  }

  /** `SELECT id FROM clipboard_history WHERE content_hash = ?`: the position of the row with hash `h`. */
  function FindByHash<X>(rows: seq<Row<X>>, h: string): (i: Option<nat>)
    ensures i.Some? ==> i.value < |rows| && rows[i.value].contentHash == h
    ensures i.None? ==> forall k :: 0 <= k < |rows| ==> rows[k].contentHash != h
  {
    if rows == [] then None
    else if rows[0].contentHash == h then Some(0)
    else match FindByHash(rows[1..], h)
      case None => None
      case Some(k) => Some(k + 1)
  }

  /**
   * The insert-or-touch of `add_clipboard_item`: a row with the same content
   * hash gets `timestamp = now` and one more access; otherwise one row is
   * appended with the next id, not a favourite and never accessed.
   */
  function Upserted<X>(db: Db<X>, content: string, contentType: string, extra: X, now: int): Db<X> {
    var h := HashContent(content);
    match FindByHash(db.rows, h)
    case Some(i) =>
      db.(rows := db.rows[i := db.rows[i].(timestamp := now, accessCount := db.rows[i].accessCount + 1)])
    case None =>
      Db(db.rows + [Row(db.nextId, content, h, contentType, now, false, 0, extra)], db.nextId + 1)
  }

  /** Content already stored: only that row changes, in its timestamp and access count. */
  lemma UpsertTouchesExisting<X>(db: Db<X>, content: string, contentType: string, extra: X, now: int, k: nat)
    requires WellFormed(db) && k < |db.rows| && db.rows[k].content == content
    ensures var db' := Upserted(db, content, contentType, extra, now);
            && db'.nextId == db.nextId && |db'.rows| == |db.rows|
            && db'.rows[k] == db.rows[k].(timestamp := now, accessCount := db.rows[k].accessCount + 1)
            && forall j :: 0 <= j < |db.rows| && j != k ==> db'.rows[j] == db.rows[j]
  {
    var i := FindByHash(db.rows, HashContent(content));
    assert i.Some?;
    assert i.value == k;
  }

  /** New content: exactly one row is appended, with a fresh id, not a favourite and never accessed. */
  lemma UpsertInsertsNew<X>(db: Db<X>, content: string, contentType: string, extra: X, now: int)
    requires WellFormed(db)
    requires forall k :: 0 <= k < |db.rows| ==> db.rows[k].content != content
    ensures var db' := Upserted(db, content, contentType, extra, now);
            && db'.rows == db.rows + [Row(db.nextId, content, HashContent(content), contentType, now, false, 0, extra)]
            && db'.nextId == db.nextId + 1
            && forall k :: 0 <= k < |db.rows| ==> db.rows[k].id != db.nextId
  {
    forall k | 0 <= k < |db.rows| ensures db.rows[k].contentHash != HashContent(content) {
      HashIdentifiesContent(db.rows[k].content, content);
    }
  }

  /** Insert-or-touch keeps ids and hashes unique. */
  lemma UpsertKeepsWellFormed<X>(db: Db<X>, content: string, contentType: string, extra: X, now: int)
    requires WellFormed(db)
    ensures WellFormed(Upserted(db, content, contentType, extra, now))
  {
  }

  /** Adding content twice leaves exactly one row holding it. */
  lemma UpsertTwiceKeepsOneRow<X>(db: Db<X>, content: string, contentType: string, extra: X, now: int, later: int)
    requires WellFormed(db)
    ensures var db' := Upserted(Upserted(db, content, contentType, extra, now), content, contentType, extra, later);
            |db'.rows| <= |db.rows| + 1
            && exists k :: 0 <= k < |db'.rows| && db'.rows[k].content == content
                           && forall j :: 0 <= j < |db'.rows| && j != k ==> db'.rows[j].content != content
  {
    var db1 := Upserted(db, content, contentType, extra, now);
    UpsertKeepsWellFormed(db, content, contentType, extra, now);
    var db2 := Upserted(db1, content, contentType, extra, later);
    UpsertKeepsWellFormed(db1, content, contentType, extra, later);
    var h := HashContent(content);
    match FindByHash(db.rows, h) {
      case Some(i) => assert db1.rows[i].contentHash == h;
      case None => assert db1.rows[|db.rows|].contentHash == h;
    }
    var k := FindByHash(db1.rows, h);
    HashIdentifiesContent(db1.rows[k.value].content, content);
    assert db2.rows[k.value].content == content;
    forall j | 0 <= j < |db2.rows| && j != k.value ensures db2.rows[j].content != content {
      HashIdentifiesContent(db2.rows[j].content, content);
    }
  }

  /** Rows in non-increasing timestamp order (`ORDER BY timestamp DESC`). */
  predicate NewestFirst<X>(rows: seq<Row<X>>) {
    forall i, j :: 0 <= i < j < |rows| ==> rows[i].timestamp >= rows[j].timestamp
  }

  /** Puts `r` into newest-first `sorted`, ahead of the rows with the same timestamp. */
  function InsertByTime<X>(r: Row<X>, sorted: seq<Row<X>>): seq<Row<X>> {
    if sorted == [] || r.timestamp >= sorted[0].timestamp then [r] + sorted
    else [sorted[0]] + InsertByTime(r, sorted[1..])
  }

  /** The rows newest first; rows with equal timestamps keep their table order. */
  function NewestFirstOrder<X>(rows: seq<Row<X>>): seq<Row<X>> {
    if rows == [] then [] else InsertByTime(rows[0], NewestFirstOrder(rows[1..]))
  }

  /** A row no older than any of a newest-first sequence can go in front of it. */
  lemma ConsNewestFirst<X>(r: Row<X>, rest: seq<Row<X>>)
    requires NewestFirst(rest)
    requires forall k :: 0 <= k < |rest| ==> r.timestamp >= rest[k].timestamp
    ensures NewestFirst([r] + rest)
  {
    var out := [r] + rest;
    forall i, j | 0 <= i < j < |out| ensures out[i].timestamp >= out[j].timestamp {
      assert out[j] == rest[j - 1];
      if i > 0 {
        assert out[i] == rest[i - 1];
      }
    }
  }

  /** Rows drawn from a sequence no newer than `t` are no newer than `t`. */
  lemma NoNewerByMultiset<X>(a: seq<Row<X>>, b: seq<Row<X>>, t: int)
    requires multiset(a) == multiset(b)
    requires forall k :: 0 <= k < |b| ==> b[k].timestamp <= t
    ensures forall k :: 0 <= k < |a| ==> a[k].timestamp <= t
  {
    forall k | 0 <= k < |a| ensures a[k].timestamp <= t {
      assert a[k] in multiset(b);
    }
  }

  /** Inserting adds exactly the one row. */
  lemma {:induction false} InsertByTimePermutes<X>(r: Row<X>, sorted: seq<Row<X>>)
    ensures var out := InsertByTime(r, sorted);
            multiset(out) == multiset(sorted) + multiset{r} && |out| == |sorted| + 1
  {
    if sorted != [] && r.timestamp < sorted[0].timestamp {
      var head, tail := sorted[0], sorted[1..];
      InsertByTimePermutes(r, tail);
      assert InsertByTime(r, sorted) == [head] + InsertByTime(r, tail);
      assert sorted == [head] + tail;
    } else {
      assert InsertByTime(r, sorted) == [r] + sorted;
    }
  }

  /** Inserting keeps the order newest first. */
  lemma {:induction false} InsertByTimeSorts<X>(r: Row<X>, sorted: seq<Row<X>>)
    requires NewestFirst(sorted)
    ensures NewestFirst(InsertByTime(r, sorted))
  {
    if sorted != [] && r.timestamp < sorted[0].timestamp {
      var head, tail := sorted[0], sorted[1..];
      var rest := InsertByTime(r, tail);
      InsertByTimeSorts(r, tail);
      InsertByTimePermutes(r, tail);
      assert multiset(rest) == multiset(tail + [r]);
      NoNewerByMultiset(rest, tail + [r], head.timestamp);
      assert InsertByTime(r, sorted) == [head] + rest;
      ConsNewestFirst(head, rest);
    } else {
      assert InsertByTime(r, sorted) == [r] + sorted;
      ConsNewestFirst(r, sorted);
    }
  }

  /** The newest-first order holds the same rows, each as often. */
  lemma {:induction false} NewestFirstOrderPermutes<X>(rows: seq<Row<X>>)
    ensures var out := NewestFirstOrder(rows);
            multiset(out) == multiset(rows) && |out| == |rows|
  {
    if rows != [] {
      var head, tail := rows[0], rows[1..];
      var rest := NewestFirstOrder(tail);
      NewestFirstOrderPermutes(tail);
      InsertByTimePermutes(head, rest);
      assert NewestFirstOrder(rows) == InsertByTime(head, rest);
      assert rows == [head] + tail;
      assert multiset(rows) == multiset{head} + multiset(tail);
    }
  }

  /** The newest-first order is sorted by timestamp, descending. */
  lemma {:induction false} NewestFirstOrderSorted<X>(rows: seq<Row<X>>)
    ensures NewestFirst(NewestFirstOrder(rows))
  {
    if rows != [] {
      var rest := NewestFirstOrder(rows[1..]);
      NewestFirstOrderSorted(rows[1..]);
      InsertByTimeSorts(rows[0], rest);
      assert NewestFirstOrder(rows) == InsertByTime(rows[0], rest);
    }
  }

  /** `ORDER BY timestamp DESC` sorts the rows and neither loses nor adds one. */
  lemma NewestFirstOrderSorts<X>(rows: seq<Row<X>>)
    ensures var out := NewestFirstOrder(rows);
            NewestFirst(out) && multiset(out) == multiset(rows) && |out| == |rows|
  {
    NewestFirstOrderSorted(rows);
    NewestFirstOrderPermutes(rows);
  }

  /** The rows `keep` accepts, in table order (a `WHERE` clause). */
  function Select<X>(rows: seq<Row<X>>, keep: Row<X> -> bool): (out: seq<Row<X>>)
    ensures |out| <= |rows|
    ensures forall i :: 0 <= i < |out| ==> keep(out[i])
  {
    if rows == [] then []
    else if keep(rows[0]) then [rows[0]] + Select(rows[1..], keep)
    else Select(rows[1..], keep)
  }

  /** `Select` keeps exactly the accepted rows, each as often as it occurs. */
  lemma {:induction false} SelectExactly<X>(rows: seq<Row<X>>, keep: Row<X> -> bool)
    ensures forall r :: r in Select(rows, keep) ==> r in rows && keep(r)
    ensures forall r :: r in rows && keep(r) ==> r in Select(rows, keep)
    ensures multiset(Select(rows, keep)) <= multiset(rows)
  {
    if rows != [] {
      var head, tail := rows[0], rows[1..];
      SelectExactly(tail, keep);
      assert rows == [head] + tail;
      assert forall r :: r in rows <==> r == head || r in tail;
      if keep(head) {
        assert Select(rows, keep) == [head] + Select(tail, keep);
      } else {
        assert Select(rows, keep) == Select(tail, keep);
      }
    }
  }

  /** A condition no row satisfies selects nothing. */
  lemma {:induction false} SelectNone<X>(rows: seq<Row<X>>, keep: Row<X> -> bool)
    requires forall i :: 0 <= i < |rows| ==> !keep(rows[i])
    ensures Select(rows, keep) == []
  {
    if rows != [] {
      SelectNone(rows[1..], keep);
    }
  }

  /** A condition every row satisfies selects the whole table, in order. */
  lemma {:induction false} SelectAll<X>(rows: seq<Row<X>>, keep: Row<X> -> bool)
    requires forall i :: 0 <= i < |rows| ==> keep(rows[i])
    ensures Select(rows, keep) == rows
  {
    if rows != [] {
      SelectAll(rows[1..], keep);
      assert rows == [rows[0]] + rows[1..];
    }
  }

  /** `LIMIT ?` when `limit > 0`; no limit otherwise. */
  function Limit<X>(rows: seq<Row<X>>, limit: int): (out: seq<Row<X>>)
    ensures limit > 0 ==> |out| == Text.Min(|rows|, limit)
    ensures limit <= 0 ==> out == rows
    ensures out == rows[..|out|]
  {
    if limit > 0 && limit < |rows| then rows[..limit] else rows
  }

  /** `SELECT … WHERE keep ORDER BY timestamp DESC LIMIT limit`. */
  function Query<X>(rows: seq<Row<X>>, keep: Row<X> -> bool, limit: int): seq<Row<X>> {
    Limit(NewestFirstOrder(Select(rows, keep)), limit)
  }

  /** Without a limit, a query returns exactly the rows the condition accepts. */
  lemma UnlimitedQueryMembers<X>(rows: seq<Row<X>>, keep: Row<X> -> bool)
    ensures forall r :: r in Query(rows, keep, 0) <==> r in rows && keep(r)
  {
    var selected := Select(rows, keep);
    var out := NewestFirstOrder(selected);
    SelectExactly(rows, keep);
    NewestFirstOrderPermutes(selected);
    assert Query(rows, keep, 0) == out;
    forall r ensures r in out <==> r in selected {
      assert r in out <==> r in multiset(out);
      assert r in selected <==> r in multiset(selected);
    }
  }

  /** A limited newest-first sequence is newest first, and every row it leaves out is no newer than one it keeps. */
  lemma LimitOfSorted<X>(sorted: seq<Row<X>>, limit: int)
    requires NewestFirst(sorted)
    ensures var out := Limit(sorted, limit);
            && NewestFirst(out)
            && forall r, i :: r in sorted && r !in out && 0 <= i < |out| ==> out[i].timestamp >= r.timestamp
  {
    var out := Limit(sorted, limit);
    forall r, i | r in sorted && r !in out && 0 <= i < |out| ensures out[i].timestamp >= r.timestamp {
      var j :| 0 <= j < |sorted| && sorted[j] == r;
      assert forall k :: 0 <= k < |out| ==> out[k] == sorted[k];
      assert out[i] == sorted[i];
    }
  }

  /** A prefix holds each element no more often than the whole sequence. */
  lemma PrefixMultiset<T>(s: seq<T>, n: nat)
    requires n <= |s|
    ensures multiset(s[..n]) <= multiset(s)
  {
    assert s == s[..n] + s[n..];
  }

  /**
   * A query returns rows of the table that satisfy the condition, each no
   * more often than the table holds it, newest first: `limit` of them when `limit > 0` and there are that many, and all
   * of them otherwise;
   * and no matching row left out is newer than one returned.
   */
  lemma QueryIsNewestMatches<X>(rows: seq<Row<X>>, keep: Row<X> -> bool, limit: int)
    ensures var out := Query(rows, keep, limit);
            && (forall r :: r in out ==> r in rows && keep(r))
            && NewestFirst(out)
            && multiset(out) <= multiset(Select(rows, keep))
            && (limit > 0 ==> |out| == Text.Min(|Select(rows, keep)|, limit))
            && (limit <= 0 ==> multiset(out) == multiset(Select(rows, keep)))
            && (forall r, i :: r in rows && keep(r) && r !in out && 0 <= i < |out| ==> out[i].timestamp >= r.timestamp)
  {
    var selected := Select(rows, keep);
    var sorted := NewestFirstOrder(selected);
    SelectExactly(rows, keep);
    NewestFirstOrderSorts(selected);
    LimitOfSorted(sorted, limit);
    var out := Query(rows, keep, limit);
    assert out == sorted[..|out|];
    PrefixMultiset(sorted, |out|);
    forall r | r in out ensures r in rows && keep(r) {
      assert r in multiset(selected);
    }
    forall r | r in rows && keep(r) ensures r in sorted {
      assert r in multiset(sorted);
    }
  }

  /** Every row that was in the table and did not have the id. */
  function WithoutId<X>(rows: seq<Row<X>>, id: nat): seq<Row<X>> {
    Select(rows, (r: Row<X>) => r.id != id)
  }

  /** `DELETE … WHERE id = ?` removes exactly the row with that id, if any, and keeps ids and hashes unique. */
  lemma DeleteRemovesExactlyId<X>(db: Db<X>, id: nat)
    requires WellFormed(db)
    ensures var rows := WithoutId(db.rows, id);
            && (forall r :: r in rows <==> r in db.rows && r.id != id)
            && WellFormed(Db(rows, db.nextId))
  {
    SelectExactly(db.rows, (r: Row<X>) => r.id != id);
    SelectKeepsWellFormed(db, (r: Row<X>) => r.id != id);
  }

  /** A row whose id and hash no other row has can be put in front of a well-formed table. */
  lemma ConsKeepsWellFormed<X>(r: Row<X>, rest: seq<Row<X>>, nextId: nat)
    requires WellFormed(Db(rest, nextId))
    requires r.id < nextId && r.contentHash == HashContent(r.content)
    requires forall x :: x in rest ==> x.id != r.id && x.contentHash != r.contentHash
    ensures WellFormed(Db([r] + rest, nextId))
  {
    var out := [r] + rest;
    forall i, j | 0 <= i < j < |out| ensures out[i].id != out[j].id && out[i].contentHash != out[j].contentHash {
      assert out[j] == rest[j - 1];
      if i > 0 {
        assert out[i] == rest[i - 1];
      }
    }
  }

  /** A selection of a well-formed table is well formed: ids and hashes stay unique. */
  lemma {:induction false} SelectKeepsWellFormed<X>(db: Db<X>, keep: Row<X> -> bool)
    requires WellFormed(db)
    ensures WellFormed(Db(Select(db.rows, keep), db.nextId))
    decreases |db.rows|
  {
    var rows := db.rows;
    if rows != [] {
      var tail := rows[1..];
      SelectKeepsWellFormed(Db(tail, db.nextId), keep);
      SelectExactly(tail, keep);
      var rest := Select(tail, keep);
      if keep(rows[0]) {
        forall x | x in rest ensures x.id != rows[0].id && x.contentHash != rows[0].contentHash {
          var k :| 0 <= k < |tail| && tail[k] == x;
          assert rows[k + 1] == x;
        }
        ConsKeepsWellFormed(rows[0], rest, db.nextId);
        assert Select(rows, keep) == [rows[0]] + rest;
      } else {
        assert Select(rows, keep) == rest;
      }
    }
  }

  /** `UPDATE … SET is_favorite = CASE WHEN is_favorite = 0 THEN 1 ELSE 0 END WHERE id = ?`. */
  function Toggled<X>(rows: seq<Row<X>>, id: nat): (out: seq<Row<X>>)
    ensures |out| == |rows|
    ensures forall i :: 0 <= i < |rows| && rows[i].id != id ==> out[i] == rows[i]
    ensures forall i :: 0 <= i < |rows| && rows[i].id == id ==>
              out[i] == rows[i].(isFavorite := !rows[i].isFavorite)
  {
    if rows == [] then []
    else [if rows[0].id == id then rows[0].(isFavorite := !rows[0].isFavorite) else rows[0]] + Toggled(rows[1..], id)
  }

  /** Toggling the same row twice restores the table. */
  lemma ToggleTwiceRestores<X>(rows: seq<Row<X>>, id: nat)
    ensures Toggled(Toggled(rows, id), id) == rows
  {
    var twice := Toggled(Toggled(rows, id), id);
    assert forall i :: 0 <= i < |rows| ==> twice[i] == rows[i];
  }

  /** Toggling keeps ids and hashes unique. */
  lemma ToggleKeepsWellFormed<X>(db: Db<X>, id: nat)
    requires WellFormed(db)
    ensures WellFormed(db.(rows := Toggled(db.rows, id)))
  {
  }

  /** `DELETE FROM clipboard_history WHERE is_favorite = 0`, or every row. */
  function Cleared<X>(rows: seq<Row<X>>, keepFavorites: bool): seq<Row<X>> {
    if keepFavorites then Select(rows, (r: Row<X>) => r.isFavorite) else []
  }

  /** Clearing while keeping favourites leaves exactly the favourite rows; otherwise nothing. */
  lemma ClearKeepsExactlyFavorites<X>(db: Db<X>, keepFavorites: bool)
    requires WellFormed(db)
    ensures var rows := Cleared(db.rows, keepFavorites);
            && (keepFavorites ==> forall r :: r in rows <==> r in db.rows && r.isFavorite)
            && (!keepFavorites ==> rows == [])
            && WellFormed(Db(rows, db.nextId))
  {
    SelectExactly(db.rows, (r: Row<X>) => r.isFavorite);
    SelectKeepsWellFormed(db, (r: Row<X>) => r.isFavorite);
  }
}
