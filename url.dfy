/**
 * `is_url(text)`: `urlparse(text)` has both a scheme and a network location, and
 * a parse error counts as "not a URL". Only the part of `urllib.parse.urlsplit`
 * that decides those two components is modelled.
 */
module UrlCheck {
  import opened Wrappers
  import opened Text

  predicate IsAsciiLetter(c: char) {
    ('a' <= c <= 'z') || ('A' <= c <= 'Z')
  }

  /** `urllib.parse.scheme_chars`. */
  predicate IsSchemeChar(c: char) {
    IsAsciiLetter(c) || ('0' <= c <= '9') || c == '+' || c == '-' || c == '.'
  }

  /** Tab, carriage return and line feed, which `urlsplit` deletes wherever they are. */
  predicate IsUnsafe(c: char) {
    c == '\t' || c == '\r' || c == '\n'
  }

  /** `url.lstrip(_WHATWG_C0_CONTROL_OR_SPACE)`. */
  function StripControlPrefix(url: string): (r: string)
    ensures |r| <= |url| && r == url[|url| - |r|..]
    ensures r != [] ==> r[0] > ' '
  {
    if url != [] && url[0] <= ' ' then StripControlPrefix(url[1..]) else url
  }

  /** `url` with every tab, carriage return and line feed removed. */
  function RemoveUnsafe(url: string): (r: string)
    ensures forall i :: 0 <= i < |r| ==> !IsUnsafe(r[i])
    ensures (forall i :: 0 <= i < |url| ==> !IsUnsafe(url[i])) ==> r == url
  {
    if url == [] then []
    else if IsUnsafe(url[0]) then RemoveUnsafe(url[1..])
    else [url[0]] + RemoveUnsafe(url[1..])
  }

  /** Python's `s.find(c)`: the first index of `c` in `s`, or -1. */
  function Find(s: string, c: char): (i: int)
    ensures -1 <= i < |s|
    ensures i >= 0 ==> s[i] == c
    ensures forall k :: 0 <= k < |s| && (i < 0 || k < i) ==> s[k] != c
  {
    if s == [] then -1
    else if s[0] == c then 0
    else
      var j := Find(s[1..], c);
      if j < 0 then -1 else j + 1
  }

  /** The first index from `start` on that holds `/`, `?` or `#`, or `|url|` (`_splitnetloc`). */
  function NetlocEnd(url: string, start: nat): (e: nat)
    requires start <= |url|
    ensures start <= e <= |url|
    ensures forall k :: start <= k < e ==> url[k] != '/' && url[k] != '?' && url[k] != '#'
    ensures e < |url| ==> url[e] == '/' || url[e] == '?' || url[e] == '#'
    decreases |url| - start
  {
    if start == |url| || url[start] == '/' || url[start] == '?' || url[start] == '#' then start
    else NetlocEnd(url, start + 1)
  }

  datatype UrlParts = UrlParts(scheme: string, netloc: string)

  /** Splits off the scheme: the text before the first `:` when it is a well-formed scheme. */
  function SchemeEnd(url: string): (i: int)
    ensures -1 <= i < |url|
    ensures i >= 0 ==> i > 0 && url[i] == ':' && IsAsciiLetter(url[0])
                       && forall k :: 0 <= k < i ==> IsSchemeChar(url[k])
  {
    var i := Find(url, ':');
    if i > 0 && IsAsciiLetter(url[0]) && forall k :: 0 <= k < i ==> IsSchemeChar(url[k]) then i else -1
  }

  /** The text `urlsplit` works on once it has cleaned its input. */
  function Cleaned(text: string): string {
    RemoveUnsafe(StripControlPrefix(text))
  }

  /**
   * The network location after the scheme: what follows a leading `//` up to the
   * first `/`, `?` or `#`; `None` where `urlsplit` raises `ValueError` (one square
   * bracket without the other).
   */
  function Netloc(rest: string): (r: Option<string>)
    ensures r.Some? && r.value != "" ==> StartsWith(rest, "//")
  {
    if StartsWith(rest, "//") then
      var netloc := rest[2..NetlocEnd(rest, 2)];
      if ('[' in netloc) != (']' in netloc) then None else Some(netloc)
    else Some("")
  }

  /** The scheme and network location of text already cleaned, or `None` where `urlsplit` raises. */
  function SplitCleaned(url: string): Option<UrlParts> {
    var i := SchemeEnd(url);
    var netloc := Netloc(if i >= 0 then url[i + 1..] else url);
    if netloc.None? then None
    else Some(UrlParts(if i >= 0 then url[..i] else "", netloc.value))
  }

  /** The scheme and network location `urlsplit(text)` reports, or `None` where it raises. */
  function UrlSplit(text: string): Option<UrlParts> {
    SplitCleaned(Cleaned(text))
  }

  /** `is_url(text)`. */
  predicate IsUrl(text: string) {
    match UrlSplit(text)
    case None => false
    case Some(parts) => parts.scheme != "" && parts.netloc != ""
  }

  /** Cleaned text with both a scheme and a network location has `://` right after its scheme. */
  lemma SplitHasSchemeAndSlashes(url: string)
    requires var parts := SplitCleaned(url); parts.Some? && parts.value.scheme != "" && parts.value.netloc != ""
    ensures var i := SchemeEnd(url);
            && 0 < i && i + 2 < |url| && IsAsciiLetter(url[0])
            && url[i] == ':' && url[i + 1] == '/' && url[i + 2] == '/'
  {
    SplitParts(url);
    var i := SchemeEnd(url);
    var rest := url[i + 1..];
    assert StartsWith(rest, "//");
    assert url[i + 1] == rest[0] && url[i + 2] == rest[1];
  }

  /** A split with a scheme took it from a well-formed scheme end, and its network location from what follows. */
  lemma SplitParts(url: string)
    requires var parts := SplitCleaned(url); parts.Some? && parts.value.scheme != ""
    ensures var i := SchemeEnd(url);
            i >= 0 && Netloc(url[i + 1..]) == Some(SplitCleaned(url).value.netloc)
  {
  }

  /** Text recognised as a URL begins, once cleaned, with a scheme followed by `://`. */
  lemma UrlHasSchemeAndSlashes(text: string)
    requires IsUrl(text)
    ensures var url := Cleaned(text);
            var i := SchemeEnd(url);
            && 0 < i && i + 2 < |url| && IsAsciiLetter(url[0])
            && url[i] == ':' && url[i + 1] == '/' && url[i + 2] == '/'
  {
    SplitHasSchemeAndSlashes(Cleaned(text));
  }

  /** Text without unsafe characters that starts with a printable character is left as it is. */
  lemma CleanTextUnchanged(text: string)
    requires text != [] && text[0] > ' '
    requires forall k :: 0 <= k < |text| ==> !IsUnsafe(text[k])
    ensures Cleaned(text) == text
  {
  }

  /** A well-formed scheme ends at the first `:`. */
  lemma SchemeEndsAtColon(scheme: string, rest: string)
    requires |scheme| > 0 && IsAsciiLetter(scheme[0])
    requires forall k :: 0 <= k < |scheme| ==> IsSchemeChar(scheme[k])
    ensures SchemeEnd(scheme + ":" + rest) == |scheme|
  {
    var url := scheme + ":" + rest;
    assert url[|scheme|] == ':';
    forall k | 0 <= k < |scheme| ensures url[k] == scheme[k] && url[k] != ':' {
      assert url[k] == scheme[k];
    }
    assert Find(url, ':') == |scheme|;
  }

  /** After `//`, the network location runs up to the first `/`, `?` or `#`. */
  lemma NetlocIsHost(host: string, path: string)
    requires forall k :: 0 <= k < |host| ==> host[k] !in "/?#[]"
    requires path == [] || path[0] == '/'
    ensures Netloc("//" + host + path) == Some(host)
  {
    var rest := "//" + host + path;
    assert forall k :: 2 <= k < 2 + |host| ==> rest[k] == host[k - 2];
    assert 2 + |host| < |rest| ==> rest[2 + |host|] == '/';
    assert NetlocEnd(rest, 2) == 2 + |host|;
    assert rest[2..2 + |host|] == host;
  }

  /** The parts of `scheme://host/path` are free of the characters `urlsplit` deletes. */
  lemma JoinedIsClean(scheme: string, host: string, path: string)
    requires forall k :: 0 <= k < |scheme| ==> IsSchemeChar(scheme[k])
    requires forall k :: 0 <= k < |host| ==> !IsUnsafe(host[k])
    requires forall k :: 0 <= k < |path| ==> !IsUnsafe(path[k])
    ensures var text := scheme + ":" + ("//" + host + path);
            forall k :: 0 <= k < |text| ==> !IsUnsafe(text[k])
  {
    var rest := "//" + host + path;
    var text := scheme + ":" + rest;
    forall k | 0 <= k < |text| ensures !IsUnsafe(text[k]) {
      if k < |scheme| {
        assert text[k] == scheme[k];
      } else if k > |scheme| {
        var j := k - |scheme| - 1;
        assert text[k] == rest[j];
        if j >= 2 + |host| {
          assert rest[j] == path[j - 2 - |host|];
        } else if j >= 2 {
          assert rest[j] == host[j - 2];
        }
      }
    }
  }

  /**
   * `scheme://host` followed by an optional path is recognised as a URL. The
   * host is ASCII, so `urlsplit`'s check of a non-ASCII network location
   * under NFKC normalisation does not apply to it.
   */
  lemma SchemeHostIsUrl(scheme: string, host: string, path: string)
    requires |scheme| > 0 && IsAsciiLetter(scheme[0])
    requires forall k :: 0 <= k < |scheme| ==> IsSchemeChar(scheme[k])
    requires |host| > 0
    requires forall k :: 0 <= k < |host| ==> host[k] < '\U{80}' && host[k] !in "/?#[]\t\r\n"
    requires path == [] || path[0] == '/'
    requires forall k :: 0 <= k < |path| ==> !IsUnsafe(path[k])
    ensures IsUrl(scheme + "://" + host + path)
  {
    var rest := "//" + host + path;
    var text := scheme + ":" + rest;
    assert text == scheme + "://" + host + path;
    JoinedIsClean(scheme, host, path);
    assert text[0] == scheme[0];
    CleanTextUnchanged(text);
    SchemeEndsAtColon(scheme, rest);
    assert text[|scheme| + 1..] == rest;
    assert text[..|scheme|] == scheme;
    NetlocIsHost(host, path);
  }
}
