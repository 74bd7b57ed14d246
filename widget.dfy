/**
 * The pieces of `ClipboardHistoryWidget` (`clipboard_history_widget.py`) that
 * decide something: the type-filter mapping of `load_history`, the text each
 * list entry shows, and `copy_to_clipboard`, which arms the monitor's
 * self-copy suppression before putting an item back on the clipboard.
 *
 * Qt widgets are not modelled: `strftime` is a parameter (the formatted
 * timestamp), and a clipboard write is a value saying what was written.
 */
module HistoryWidget {
  import opened Wrappers
  import opened Text
  import opened Fingerprint
  import Base64
  import UrlCheck
  import opened Classifier
  import opened Monitor
  import HistoryStore

  type Item = HistoryStore.Item

  /** `type_mapping.get(entry, "all")`: the content type a combo-box entry selects. */
  function TypeFilter(entry: string): (f: string)
    ensures f == "all" || f == "text" || f == "file" || f == "image"
    ensures f != "all" ==> entry == FilterLabel(f)
  {
    if entry == "Text" then "text"
    else if entry == "Files" then "file"
    else if entry == "Images" then "image"
    else "all"
  }

  /** The combo-box entry that selects content type `f`. */
  function FilterLabel(f: string): string {
    if f == "text" then "Text"
    else if f == "file" then "Files"
    else if f == "image" then "Images"
    else "All"
  }

  /** Each of the four filters has an entry that selects it, and every other entry shows everything. */
  lemma FilterLabelsRoundTrip(f: string, entry: string)
    ensures f in {"all", "text", "file", "image"} ==> TypeFilter(FilterLabel(f)) == f
    ensures entry !in {"Text", "Files", "Images"} ==> TypeFilter(entry) == "all"
  {
  }

  const Megabyte: nat := 1024 * 1024

  /**
   * `file_size / (1024 * 1024)` formatted with one decimal, in tenths. The
   * quotient is exact in binary floating point, so `:.1f` rounds the exact
   * value to the nearest tenth, ties to even.
   */
  function MegabyteTenths(size: nat): (t: nat)
    ensures size * 10 - Megabyte / 2 <= t * Megabyte <= size * 10 + Megabyte / 2
  {
    var q := size * 10 / Megabyte;
    var r := size * 10 % Megabyte;
    if r > Megabyte / 2 || (r == Megabyte / 2 && q % 2 == 1) then q + 1 else q
  }

  /** `size_str`: megabytes with one decimal from 1 MB up, whole kilobytes (rounded down) below. */
  function SizeText(size: nat): (s: string)
    ensures |s| >= 3 && (s[|s| - 2..] == "MB" <==> size >= Megabyte) && (s[|s| - 2..] == "KB" <==> size < Megabyte)
  {
    if size >= Megabyte then
      var t := MegabyteTenths(size);
      NatToString(t / 10) + "." + [DigitChar(t % 10)] + "MB"
    else NatToString(size / 1024) + "KB"
  }

  /** Below a megabyte the suffix reads back as the size in whole kilobytes. */
  lemma KilobytesReadBack(size: nat)
    requires size < Megabyte
    ensures var s := SizeText(size);
            && s == s[..|s| - 2] + "KB"
            && AllDigits(s[..|s| - 2])
            && DecimalValue(s[..|s| - 2]) == size / 1024
  {
    var s := SizeText(size);
    assert s[..|s| - 2] == NatToString(size / 1024);
    DecimalRoundTrip(size / 1024);
  }

  /** From a megabyte up the suffix reads back as the size in tenths of a megabyte, rounded. */
  lemma MegabytesReadBack(size: nat)
    requires size >= Megabyte
    ensures var s := SizeText(size);
            var k := |s| - 4;
            && k >= 1 && s[k] == '.' && s[|s| - 2..] == "MB"
            && AllDigits(s[..k]) && '0' <= s[k + 1] <= '9'
            && DecimalValue(s[..k]) * 10 + (s[k + 1] as int - 48) == MegabyteTenths(size)
  {
    var s := SizeText(size);
    var t := MegabyteTenths(size);
    var k := |s| - 4;
    assert s[..k] == NatToString(t / 10);
    DecimalRoundTrip(t / 10);
  }

  /** `" (" + size_str + ")"` when the size is set and non-zero (`if file_size:`), nothing otherwise. */
  function SizeSuffix(fileSize: Option<nat>): string {
    if fileSize.Some? && fileSize.value > 0 then " (" + SizeText(fileSize.value) + ")" else ""
  }

  const FileIcon := "\U{1F4C1} "
  const ImageIcon := "\U{1F5BC}\U{FE0F} "
  const LinkIcon := "\U{1F517} "
  const FavouriteMark := "★ "

  /**
   * The name a file entry shows: the whole last component of its path (after
   * its last `/`), or `File` when the path is empty or absent.
   */
  function DisplayName(filePath: Option<string>): (name: string)
    ensures filePath.Some? && filePath.value != "" ==>
              var path := filePath.value;
              && |name| <= |path| && path[|path| - |name|..] == name
              && (forall i :: 0 <= i < |name| ==> name[i] != '/')
              && (|name| < |path| ==> path[|path| - |name| - 1] == '/')
    ensures filePath.None? || filePath.value == "" ==> name == "File"
  {
    if filePath.Some? && filePath.value != "" then Basename(filePath.value) else "File"
  }

  /** The preview of a text entry: its first 100 characters on one line, marked when the stripped text is a URL. */
  function TextPreview(content: string): string {
    var p := Preview(content, 100);
    if UrlCheck.IsUrl(Strip(content)) then LinkIcon + p else p
  }

  /** `preview` in `load_history`, by content type. */
  function ItemPreview(r: Item): string {
    if r.contentType == "file" then
      FileIcon + DisplayName(r.extra.filePath) + SizeSuffix(r.extra.fileSize)
    else if r.contentType == "image" then
      ImageIcon + "Image (" + NatToString(|r.content|) + " chars)" + SizeSuffix(r.extra.fileSize)
    else TextPreview(r.content)
  }

  /** `f"{favorite_mark}[{timestamp_str}] {preview}"`. */
  function Entry(favourite: bool, timestamp: string, preview: string): string {
    (if favourite then FavouriteMark else "") + "[" + timestamp + "] " + preview
  }

  /** `display_text` of an item. */
  function DisplayText(r: Item, timestamp: string): string {
    Entry(r.isFavorite, timestamp, ItemPreview(r))
  }

  /**
   * An entry starts with the star exactly when the item is a favourite; behind
   * the star is the entry of the same item unmarked, which starts with the
   * bracketed timestamp and ends with the preview.
   */
  lemma StarMarksFavourites(favourite: bool, timestamp: string, preview: string)
    ensures var d := Entry(favourite, timestamp, preview);
            && (d[0] == '★' <==> favourite)
            && (favourite ==> d[..2] == FavouriteMark && d[2..] == Entry(false, timestamp, preview))
            && (!favourite ==> d[..|timestamp| + 3] == "[" + timestamp + "] " && d[|timestamp| + 3..] == preview)
  {
    var head := "[" + timestamp + "] ";
    var rest := head + preview;
    assert Entry(false, timestamp, preview) == rest;
    assert rest[0] == '[' && rest[..|head|] == head && rest[|head|..] == preview;
    if favourite {
      assert Entry(favourite, timestamp, preview) == FavouriteMark + rest;
    }
  }

  /** A text entry is one line. */
  lemma TextPreviewIsOneLine(content: string)
    ensures OneLine(TextPreview(content))
  {
    PreviewIsOneLine(content, 100);
    assert LinkIcon == ['\U{1F517}', ' '];
    OneLineConcat(LinkIcon, Preview(content, 100));
  }

  /** What `copy_to_clipboard` puts on the clipboard. */
  datatype ClipboardWrite =
    | SetText(text: string)
    | SetFileUrl(path: string)
    | SetImage(png: seq<Base64.Byte>)
    | NoWrite

  /**
   * Text goes back as text; a file whose path still exists as a file URL,
   * otherwise as its content in text; an image as its decoded bytes, or as text
   * when the Base64 does not decode; any other type writes nothing.
   */
  function WriteFor(r: Item, fs: FileSystem): (w: ClipboardWrite)
    ensures w.NoWrite? <==> r.contentType != "text" && r.contentType != "file" && r.contentType != "image"
    ensures w.SetFileUrl? ==> r.contentType == "file" && r.extra.filePath == Some(w.path) && w.path != "" && w.path in fs
    ensures w.SetImage? ==> r.contentType == "image" && Base64.Decode(r.content) == Some(w.png)
    ensures w.SetText? ==> w.text == r.content
    ensures (r.contentType == "file" && r.extra.filePath.Some? && r.extra.filePath.value != ""
             && r.extra.filePath.value in fs) ==> w == SetFileUrl(r.extra.filePath.value)
    ensures r.contentType == "image" && Base64.Decode(r.content).Some? ==> w == SetImage(Base64.Decode(r.content).value)
  {
    if r.contentType == "text" then SetText(r.content)
    else if r.contentType == "file" then
      if r.extra.filePath.Some? && r.extra.filePath.value != "" && r.extra.filePath.value in fs
      then SetFileUrl(r.extra.filePath.value)
      else SetText(r.content)
    else if r.contentType == "image" then
      match Base64.Decode(r.content)
      case Some(png) => SetImage(png)
      case None => SetText(r.content)
    else NoWrite
  }

  /**
   * `copy_to_clipboard` for the selected item: arms the suppression with the
   * fingerprint of the item's content, then writes the item back.
   */
  method CopyToClipboard(app: AppProperties, r: Item, fs: FileSystem) returns (w: ClipboardWrite)
    modifies app
    ensures app.ArmState() == Armed(HashContent(r.content))
    ensures w == WriteFor(r, fs)
  {
    var h := HashContent(r.content);
    app.clipSkipOnce := true;
    app.clipSkipHash := Some(h);
    if r.contentType == "text" {
      w := SetText(r.content);
    } else if r.contentType == "file" {
      if r.extra.filePath.Some? && r.extra.filePath.value != "" && r.extra.filePath.value in fs {
        w := SetFileUrl(r.extra.filePath.value);
      } else {
        w := SetText(r.content);
      }
    } else if r.contentType == "image" {
      var png := Base64.Decode(r.content);
      if png.Some? {
        w := SetImage(png.value);
      } else {
        w := SetText(r.content);
      }
    } else {
      w := NoWrite;
    }
  }

  /**
   * The snapshot the monitor reads after a text or file write: Qt hands back
   * the text, or the single local-file URL, that was written.
   */
  function SnapshotAfter(w: ClipboardWrite): (m: MimeData)
    requires w.SetText? || w.SetFileUrl?
  {
    match w
    case SetText(text) => MimeData([], None, Some(text))
    case SetFileUrl(path) => MimeData([Url(true, path)], None, None)
  }

  /**
   * Copying a stored text or file item back to the clipboard is not reported
   * again: the next tick sees content whose fingerprint is the armed one, skips
   * it, clears the arm and takes it as the last content. This holds for the
   * rows the monitor itself records (stripped text, and files whose content is
   * their path).
   */
  lemma CopiedItemIsNotReported(s: MonitorState, r: Item, fs: FileSystem, now: real, window: real)
    requires ValidState(s)
    requires r.contentType == "text" || (r.contentType == "file" && r.extra.filePath == Some(r.content))
    requires r.content != "" && Strip(r.content) == r.content
    ensures var w := WriteFor(r, fs);
            && (w.SetText? || w.SetFileUrl?)
            && var t := TickStep(s, Armed(HashContent(r.content)), Observation(Some(SnapshotAfter(w)), fs, now, false), window);
               && t.event == None
               && t.arm == Disarmed
               && t.state.lastContentHash == HashContent(r.content)
  {
    var w := WriteFor(r, fs);
    var m := SnapshotAfter(w);
    if w.SetText? {
      TextIsStripped(m, fs);
    } else {
      FileWins(m, fs, None, None);
    }
    assert ProcessClipboardData(m, fs).content == r.content;
    MatchingEchoIsSkippedOnce(HashContent(r.content));
  }
}
