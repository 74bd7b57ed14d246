/**
 * `ClipboardMonitor.process_clipboard_data`: routes one clipboard snapshot to a
 * `(content, content_type, metadata)` triple. A local file that exists wins, then
 * an image, then non-blank text; anything else is `("", "text", {})`.
 *
 * Qt and the operating system are not called: the snapshot already carries the
 * PNG re-encoding of an image, and the file system is a map from path to what
 * `os.stat`, `mimetypes.guess_type` and `create_file_thumbnail` report for it.
 */
module Classifier {
  import opened Wrappers
  import opened Text
  import Base64
  import UrlCheck

  type Bytes = seq<Base64.Byte>

  /** One entry of `mime_data.urls()`. */
  datatype Url = Url(isLocalFile: bool, localPath: string)

  /**
   * What the file system reports about an existing path: its size (`None` when
   * `os.stat` raises), the type `mimetypes.guess_type` guesses, and the thumbnail
   * `create_file_thumbnail` makes (`None` when it cannot).
   */
  datatype FileFacts = FileFacts(size: Option<nat>, guessedMime: Option<string>, thumbnail: Option<Bytes>)

  /** The paths that exist, with their facts (`os.path.exists(p)` is `p in fs`). */
  type FileSystem = map<string, FileFacts>

  /** A non-null `QImage`, with the bytes `QPixmap.save(buffer, "PNG")` produces for it. */
  datatype Image = Image(png: Bytes)

  /**
   * A clipboard snapshot (`QMimeData`): its URLs (empty when `hasUrls()` is false),
   * its image (`None` unless `hasImage()` gives a non-null `QImage`) and its text
   * (`None` unless `hasText()`; `mime_data.text() or ""` otherwise).
   */
  datatype MimeData = MimeData(urls: seq<Url>, image: Option<Image>, text: Option<string>)

  /** The `metadata` dict; absent keys are `None`, and `is_url` is only ever set to `True`. */
  datatype Metadata = Metadata(
    filePath: Option<string>,
    fileSize: Option<nat>,
    mimeType: Option<string>,
    thumbnail: Option<Bytes>,
    isUrl: bool)

  const NoMetadata := Metadata(None, None, None, None, false)

  /** The `(content, content_type, metadata)` triple. */
  datatype Classified = Classified(content: string, contentType: string, metadata: Metadata)

  /** `("", "text", {})`: nothing to report. */
  const Nothing := Classified("", "text", NoMetadata)

  /** The path of the first URL, when it is a local file with a non-empty path that exists. */
  function ExistingFile(m: MimeData, fs: FileSystem): (p: Option<string>)
    ensures p.Some? <==> |m.urls| > 0 && m.urls[0].isLocalFile && m.urls[0].localPath != "" && m.urls[0].localPath in fs
    ensures p.Some? ==> p.value == m.urls[0].localPath
  {
    if |m.urls| > 0 && m.urls[0].isLocalFile && m.urls[0].localPath != "" && m.urls[0].localPath in fs
    then Some(m.urls[0].localPath)
    else None
  }

  /** The metadata of a file entry; only the path when `os.stat` raises. */
  function FileMetadata(path: string, facts: FileFacts): Metadata {
    match facts.size
    case None => NoMetadata.(filePath := Some(path))
    case Some(size) =>
      Metadata(Some(path), Some(size), Some(facts.guessedMime.GetOr("application/octet-stream")),
               facts.thumbnail, false)
  }

  /** `process_clipboard_data(mime_data)`. */
  function ProcessClipboardData(m: MimeData, fs: FileSystem): (c: Classified)
    ensures c.contentType == "file" || c.contentType == "image" || c.contentType == "text"
    ensures c.contentType == "text" ==> c.content == Strip(c.content)
    ensures c.content == "" ==> c == Nothing || (c.contentType == "image" && m.image.Some? && m.image.value.png == [])
  {
    match ExistingFile(m, fs)
    case Some(path) => Classified(path, "file", FileMetadata(path, fs[path]))
    case None =>
      if m.image.Some? then
        var png := m.image.value.png;
        Classified(Base64.Encode(png), "image",
                   Metadata(None, Some(|png|), Some("image/png"), Some(png), false))
      else
        var text := Strip(m.text.GetOr(""));
        if m.text.Some? && text != "" then
          StripIdempotent(m.text.value);
          Classified(text, "text", NoMetadata.(isUrl := UrlCheck.IsUrl(text)))
        else Nothing
  }

  /**
   * A first URL that is a local file with a non-empty path that exists is
   * reported by its path, whatever image or text the snapshot also holds.
   */
  lemma FileWins(m: MimeData, fs: FileSystem, image: Option<Image>, text: Option<string>)
    requires |m.urls| > 0 && m.urls[0].isLocalFile && m.urls[0].localPath != "" && m.urls[0].localPath in fs
    ensures var c := ProcessClipboardData(m.(image := image, text := text), fs);
            && c == ProcessClipboardData(m, fs)
            && c.contentType == "file" && c.content == m.urls[0].localPath
            && c.metadata.filePath == Some(c.content)
  {
  }

  /** Only the first URL counts: when it is not an existing local file, the rest are never looked at. */
  lemma OnlyFirstUrlCounts(m: MimeData, fs: FileSystem)
    requires |m.urls| > 0 && ExistingFile(m, fs).None?
    ensures ProcessClipboardData(m, fs) == ProcessClipboardData(m.(urls := []), fs)
  {
  }

  /**
   * Without an existing file, an image is reported as the Base64 text of its PNG
   * bytes with MIME type `image/png` and the byte count as size, whatever text
   * the snapshot also holds.
   */
  lemma ImageBeforeText(m: MimeData, fs: FileSystem, text: Option<string>)
    requires ExistingFile(m, fs).None? && m.image.Some?
    ensures var c := ProcessClipboardData(m.(text := text), fs);
            && c == ProcessClipboardData(m, fs)
            && c.contentType == "image" && c.content == Base64.Encode(m.image.value.png)
            && c.metadata.mimeType == Some("image/png") && c.metadata.fileSize == Some(|m.image.value.png|)
            && Base64.Decode(c.content) == Some(m.image.value.png)
  {
    Base64.RoundTrip(m.image.value.png);
  }

  /** Text is reported stripped, and only when something is left after stripping. */
  lemma TextIsStripped(m: MimeData, fs: FileSystem)
    requires ExistingFile(m, fs).None? && m.image.None? && m.text.Some?
    ensures var c := ProcessClipboardData(m, fs);
            && (AllSpace(m.text.value) ==> c == Nothing)
            && (!AllSpace(m.text.value) ==>
                  c.contentType == "text" && c.content == Strip(m.text.value)
                  && c.metadata.isUrl == UrlCheck.IsUrl(c.content))
  {
  }

  /** Text that the classifier reported, put back on the clipboard, is reported again unchanged. */
  lemma TextReclassifiesToItself(m: MimeData, fs: FileSystem)
    requires ProcessClipboardData(m, fs).contentType == "text"
    ensures var c := ProcessClipboardData(m, fs);
            ProcessClipboardData(MimeData([], None, Some(c.content)), fs) == c
  {
    var c := ProcessClipboardData(m, fs);
    if c.content != "" {
      StripIdempotent(m.text.value);
    }
  }

  /** An empty snapshot reports nothing. */
  lemma EmptySnapshotIsNothing(fs: FileSystem)
    ensures ProcessClipboardData(MimeData([], None, None), fs) == Nothing
  {
  }
}
