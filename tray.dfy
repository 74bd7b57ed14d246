/**
 * The application object of `clipboard_history_app.py` around the legacy
 * store and monitor: each reported text is stored and the five tray entries
 * are refreshed, and the history list shows one line per item.
 */
module LegacyApp {
  import opened Wrappers
  import opened Text
  import LegacyMonitor
  import LegacyStore
  import Table
  import HistoryWidget

  /** The number of recent-item entries in the tray menu. */
  const RecentSlots: nat := 5

  /**
   * The tray menu's recent-item actions: the text, visibility and copy target
   * of each, and whether its `triggered` signal has a connection.
   */
  class TrayMenu {
    const texts: array<string>
    const visible: array<bool>
    const targets: array<string>
    const connected: array<bool>

    ghost predicate Valid()
      reads this
    {
      && texts.Length == RecentSlots && visible.Length == RecentSlots
      && targets.Length == RecentSlots && connected.Length == RecentSlots
      && texts != targets && visible != connected
    }

    /** `setup_system_tray`: five empty, hidden actions, none of them connected. */
    constructor ()
      ensures Valid() && fresh(texts) && fresh(visible) && fresh(targets) && fresh(connected)
      ensures forall i :: 0 <= i < RecentSlots ==> !visible[i] && texts[i] == "" && targets[i] == "" && !connected[i]
    {
      texts := new string[RecentSlots](_ => "");
      visible := new bool[RecentSlots](_ => false);
      targets := new string[RecentSlots](_ => "");
      connected := new bool[RecentSlots](_ => false);
    }

    /**
     * The loop of `update_tray_menu` over the fetched items, with the
     * disconnection succeeding: entry `i` shows the 50-character preview of
     * item `i` and copies its content, when there is such an item; otherwise it
     * is hidden and keeps its text and target.
     */
    method Update(recent: seq<LegacyStore.Item>)
      requires Valid()
      modifies texts, visible, targets, connected
      ensures forall i :: 0 <= i < RecentSlots ==> visible[i] == (i < |recent|)
      ensures forall i :: 0 <= i < RecentSlots && i < |recent| ==>
                texts[i] == Preview(recent[i].content, 50) && targets[i] == recent[i].content && connected[i]
      ensures forall i :: 0 <= i < RecentSlots && i >= |recent| ==>
                texts[i] == old(texts[i]) && targets[i] == old(targets[i]) && connected[i] == old(connected[i])
    {
      for i := 0 to RecentSlots
        invariant forall k :: 0 <= k < i ==> visible[k] == (k < |recent|)
        invariant forall k :: 0 <= k < i && k < |recent| ==>
                    texts[k] == Preview(recent[k].content, 50) && targets[k] == recent[k].content && connected[k]
        invariant forall k :: 0 <= k < RecentSlots && (k >= i || k >= |recent|) ==>
                    texts[k] == old(texts[k]) && targets[k] == old(targets[k]) && connected[k] == old(connected[k])
      {
        if i < |recent| {
          texts[i] := Preview(recent[i].content, 50);
          visible[i] := true;
          connected[i] := true;
          targets[i] := recent[i].content;
        } else {
          visible[i] := false;
        }
      }
    }

    /**
     * The same loop as written: `triggered.disconnect()` with no arguments
     * raises `TypeError` in PyQt6 when the signal has no connection, after the
     * entry's text and visibility are set and before it is connected. The loop
     * then stops there (`raisedAt`), and the entries after it are untouched.
     * Since the actions start unconnected and only a successful disconnection
     * leads to a connection, no action ever gets one.
     */
    method UpdateAsWritten(recent: seq<LegacyStore.Item>) returns (raisedAt: Option<nat>)
      requires Valid()
      modifies texts, visible, targets
      ensures raisedAt.Some? ==>
                var j := raisedAt.value;
                && j < RecentSlots && j < |recent| && !connected[j]
                && texts[j] == Preview(recent[j].content, 50) && visible[j] && targets[j] == old(targets[j])
                && forall k :: j < k < RecentSlots ==>
                     texts[k] == old(texts[k]) && visible[k] == old(visible[k]) && targets[k] == old(targets[k])
      ensures raisedAt.None? ==> forall k :: 0 <= k < RecentSlots && k < |recent| ==> connected[k]
      ensures forall k :: 0 <= k < RecentSlots && (raisedAt.None? || k < raisedAt.value) ==>
                && visible[k] == (k < |recent|)
                && (k < |recent| ==> texts[k] == Preview(recent[k].content, 50) && targets[k] == recent[k].content && connected[k])
                && (k >= |recent| ==> texts[k] == old(texts[k]) && targets[k] == old(targets[k]))
    {
      raisedAt := None;
      for i := 0 to RecentSlots
        invariant raisedAt.None?
        invariant forall k :: 0 <= k < i ==> visible[k] == (k < |recent|)
        invariant forall k :: 0 <= k < i && k < |recent| ==>
                    texts[k] == Preview(recent[k].content, 50) && targets[k] == recent[k].content && connected[k]
        invariant forall k :: 0 <= k < RecentSlots && (k >= i || k >= |recent|) ==>
                    texts[k] == old(texts[k]) && targets[k] == old(targets[k])
        invariant forall k :: i <= k < RecentSlots ==> visible[k] == old(visible[k])
      {
        if i < |recent| {
          texts[i] := Preview(recent[i].content, 50);
          visible[i] := true;
          if !connected[i] {
            raisedAt := Some(i);
            break;
          }
          targets[i] := recent[i].content;
        } else {
          visible[i] := false;
        }
      }
    }
  }

  /**
   * The tray as the application builds it, refreshed as written over at least
   * two items: the refresh raises at the first entry, and the second entry
   * stays hidden although there is an item for it.
   */
  method FreshTrayAsWritten(recent: seq<LegacyStore.Item>) returns (raisedAt: Option<nat>, secondShown: bool)
    requires |recent| >= 2
    ensures raisedAt == Some(0) && !secondShown
  {
    var tray := new TrayMenu();
    raisedAt := tray.UpdateAsWritten(recent);
    assert !tray.connected[0];
    secondShown := tray.visible[1];
  }

  /** `update_tray_menu`: the five newest items (or all, when there are fewer), shown in order. */
  method UpdateTrayMenu(db: LegacyStore.DatabaseManager, tray: TrayMenu)
    requires tray.Valid()
    modifies tray.texts, tray.visible, tray.targets, tray.connected
    ensures var recent := db.GetClipboardHistory(RecentSlots, "", false);
            && |recent| == Min(|db.rows|, RecentSlots)
            && (forall i :: 0 <= i < RecentSlots ==> tray.visible[i] == (i < |recent|))
            && (forall i :: 0 <= i < |recent| ==>
                  tray.texts[i] == Preview(recent[i].content, 50) && tray.targets[i] == recent[i].content)
  {
    Table.SelectAll(db.rows, LegacyStore.HistoryFilter("", false));
    var recent := db.GetClipboardHistory(RecentSlots, "", false);
    tray.Update(recent);
  }

  /** `on_clipboard_changed`: stores the reported text, then refreshes the tray. */
  method OnClipboardChanged(db: LegacyStore.DatabaseManager, tray: TrayMenu, content: string, contentType: string, now: int)
    requires db.Valid() && tray.Valid()
    modifies db, tray.texts, tray.visible, tray.targets, tray.connected
    ensures db.Valid()
    ensures Strip(content) != "" ==> db.Table() == Table.Upserted(old(db.Table()), content, contentType, (), now)
    ensures Strip(content) == "" ==> db.Table() == old(db.Table())
    ensures var recent := db.GetClipboardHistory(RecentSlots, "", false);
            && |recent| == Min(|db.rows|, RecentSlots)
            && (forall i :: 0 <= i < RecentSlots ==> tray.visible[i] == (i < |recent|))
            && (forall i :: 0 <= i < |recent| ==>
                  tray.texts[i] == Preview(recent[i].content, 50) && tray.targets[i] == recent[i].content)
  {
    var _ := db.AddClipboardItem(content, contentType, now);
    UpdateTrayMenu(db, tray);
  }

  /** A line of the legacy history list: the item's mark, timestamp and 100-character preview. */
  function ListEntry(r: LegacyStore.Item, timestamp: string): string {
    HistoryWidget.Entry(r.isFavorite, timestamp, Preview(r.content, 100))
  }

  /** A list line is one line when its timestamp is. */
  lemma ListEntryIsOneLine(r: LegacyStore.Item, timestamp: string)
    requires OneLine(timestamp)
    ensures OneLine(ListEntry(r, timestamp))
  {
    var mark := if r.isFavorite then HistoryWidget.FavouriteMark else "";
    assert OneLine(mark + "[") by {
      assert mark + "[" == if r.isFavorite then ['★', ' ', '['] else ['['];
    }
    OneLineConcat(mark + "[", timestamp);
    OneLineConcat(mark + "[" + timestamp, "] ");
    PreviewIsOneLine(r.content, 100);
    OneLineConcat(mark + "[" + timestamp + "] ", Preview(r.content, 100));
  }

  /**
   * Whitespace-only text that differs from the last text is reported by the
   * legacy monitor, and then refused by the legacy store: it never reaches
   * the table.
   */
  lemma BlankTextIsReportedButNotStored(lastContent: string, text: string)
    requires text != "" && AllSpace(text) && text != lastContent
    ensures LegacyMonitor.LegacyStep(lastContent, Some(text)).event == Some(text)
    ensures Strip(text) == ""
  {
  }
}
