/**
 * The background script: it writes the default settings on installation,
 * turns a `downloadDirectPdf` message into a download request, announces a
 * created PDF, and downloads the target of the "Download PDF with PDF Knife"
 * link menu entry. Storage, tabs, downloads and notifications are the
 * browser's; here their inputs are parameters and their calls are values.
 */
module Background {
  import opened Wrappers
  import opened Strings
  import opened Settings

  /** The fallback file name of both download paths. */
  const FallbackName: string := "download.pdf"

  /** The identifier of the link menu entry. */
  const MenuItemId: string := "download-pdf"

  /** A call of `downloads.download`. */
  datatype DownloadRequest = DownloadRequest(url: string, filename: string, conflictAction: string)

  /** The active tab, as reading its address reports it: no tab at all (so
      reading `tab.url` throws), a tab without an address, an address that
      `new URL` refuses, or an address with its origin. */
  datatype ActiveTab = Missing | WithoutUrl | Unparsable | WithOrigin(origin: string)

  /** The two local-storage entries the extension writes. */
  datatype Storage = Storage(settings: Option<Settings>, enabled: Option<bool>)

  /** The messages the background script acts on; anything else is `Other`. */
  datatype Message = DownloadDirectPdf(url: Option<string>) | PdfCreated(fileName: string) | Other

  /** What handling a message asks of the browser. */
  datatype Effects = Effects(download: Option<DownloadRequest>, notification: Option<string>)

  /** `runtime.onInstalled`: the defaults, with `enabled: true`, are written
      only when there is no `settings` entry. */
  function OnInstalled(st: Storage): (r: Storage)
    ensures st.settings.None? ==> r == Storage(Some(Defaults), Some(true))
    ensures st.settings.Some? ==> r == st
  {
    if st.settings.None? then Storage(Some(Defaults), Some(true)) else st
  }

  /** Installing twice stores what installing once does, and afterwards a
      `settings` entry always exists. */
  lemma OnInstalledIdempotent(st: Storage)
    ensures OnInstalled(OnInstalled(st)) == OnInstalled(st)
    ensures OnInstalled(st).settings.Some?
  {
  }

  /** The address the direct download uses: a relative one (starting with
      "/") is put after the active tab's origin when the tab has an address;
      a missing or empty one, or a failure reading the tab, downloads nothing. */
  function ResolveUrl(url: Option<string>, tab: ActiveTab): (r: Option<string>)
    ensures r.Some? ==> url.Some? && url.value != "" && EndsWith(r.value, url.value)
    ensures url.Some? && url.value != "" && !StartsWith(url.value, "/") ==> r == url
    ensures url.Some? && StartsWith(url.value, "/") && tab.WithOrigin? ==> r == Some(tab.origin + url.value)
    ensures url.Some? && StartsWith(url.value, "/") && tab.WithoutUrl? ==> r == url
    ensures url.Some? && StartsWith(url.value, "/") && (tab.Missing? || tab.Unparsable?) ==> r.None?
    ensures url.None? || url.value == "" ==> r.None?
  {
    if url.None? || url.value == "" then None
    else if StartsWith(url.value, "/") then
      match tab
      case Missing => None
      case Unparsable => None
      case WithoutUrl => url
      case WithOrigin(origin) => Some(origin + url.value)
    else url
  }

  /** The file part of an address: after the last "/", before the first "?". */
  function BaseName(url: string): (r: string)
    ensures '/' !in r && '?' !in r
  {
    var last := LastPiece(url, '/');
    NotInPrefix(last, FirstPiece(last, '?'), '/');
    FirstPiece(last, '?')
  }

  /** The direct-download file name: the base name, or "download.pdf" when
      it is empty, with ".pdf" added unless it already ends so. */
  function DirectFilename(url: string): (r: string)
    ensures EndsWith(r, ".pdf")
    ensures '/' !in r && '?' !in r
    ensures BaseName(url) != "" && EndsWith(BaseName(url), ".pdf") ==> r == BaseName(url)
    ensures BaseName(url) != "" && !EndsWith(BaseName(url), ".pdf") ==> r == BaseName(url) + ".pdf"
    ensures BaseName(url) == "" ==> r == FallbackName
  {
    var name := BaseName(url);
    FallbackNameClean();
    var filename := if name != "" then name else FallbackName;
    if EndsWith(filename, ".pdf") then filename else filename + ".pdf"
  }

  /** The menu-download file name: the last "/" segment cut at the first "#"
      and then at the first "?", or "download.pdf" when that is empty; no
      suffix is added. */
  function MenuFilename(url: string): (r: string)
    ensures r != ""
    ensures '/' !in r && '#' !in r && '?' !in r
  {
    var last := LastPiece(url, '/');
    var beforeHash := FirstPiece(last, '#');
    var name := FirstPiece(beforeHash, '?');
    NotInPrefix(last, beforeHash, '/');
    NotInPrefix(beforeHash, name, '/');
    NotInPrefix(beforeHash, name, '#');
    FallbackNameClean();
    if name != "" then name else FallbackName
  }

  /** `settings?.downloadPath ? path + "/" + name : name`. */
  function TargetPath(settings: Option<Settings>, filename: string): (r: string)
    ensures EndsWith(r, filename)
    ensures settings.None? || settings.value.downloadPath == "" ==> r == filename
    ensures settings.Some? && settings.value.downloadPath != "" ==>
      StartsWith(r, settings.value.downloadPath + "/")
    ensures settings.Some? && settings.value.downloadPath != "" ==>
      |r| == |settings.value.downloadPath| + 1 + |filename|
  {
    if settings.Some? && settings.value.downloadPath != "" then
      var r := settings.value.downloadPath + "/" + filename;
      assert r[..|settings.value.downloadPath + "/"|] == settings.value.downloadPath + "/";
      r
    else filename
  }

  /** `settings?.conflictAction || "uniquify"`. */
  function ConflictAction(settings: Option<Settings>): (r: string)
    ensures r != ""
    ensures settings.Some? && settings.value.conflictAction != "" ==> r == settings.value.conflictAction
    ensures settings.None? || settings.value.conflictAction == "" ==> r == "uniquify"
  {
    if settings.Some? && settings.value.conflictAction != "" then settings.value.conflictAction
    else "uniquify"
  }

  /** The `downloadDirectPdf` handler. */
  function DirectDownload(settings: Option<Settings>, url: Option<string>, tab: ActiveTab): (r: Option<DownloadRequest>)
    ensures r.Some? <==> ResolveUrl(url, tab).Some?
    ensures r.Some? ==> r.value.url == ResolveUrl(url, tab).value
    ensures r.Some? ==> r.value.filename == TargetPath(settings, DirectFilename(r.value.url))
    ensures r.Some? ==> r.value.conflictAction == ConflictAction(settings)
  {
    var resolved := ResolveUrl(url, tab);
    if resolved.None? then None
    else
      var u := resolved.value;
      Some(DownloadRequest(u, TargetPath(settings, DirectFilename(u)), ConflictAction(settings)))
  }

  /** `browser.runtime.onMessage`: the two actions it knows. */
  function HandleMessage(msg: Message, settings: Option<Settings>, tab: ActiveTab): (r: Effects)
    ensures r.download.Some? <==> msg.DownloadDirectPdf? && ResolveUrl(msg.url, tab).Some?
    ensures r.download.Some? ==> r.download == DirectDownload(settings, msg.url, tab)
    ensures r.notification.Some? <==>
      msg.PdfCreated? && settings.Some? && settings.value.showNotifications
    ensures r.notification.Some? ==> r.notification.value == "PDF downloaded: " + msg.fileName
  {
    match msg
    case DownloadDirectPdf(url) => Effects(DirectDownload(settings, url, tab), None)
    case PdfCreated(fileName) =>
      Effects(None, if settings.Some? && settings.value.showNotifications
                    then Some("PDF downloaded: " + fileName) else None)
    case Other => Effects(None, None)
  }

  /** `downloadPdf(url)`: the download, and a notification when enabled. */
  function DownloadPdf(settings: Option<Settings>, url: string): (r: Effects)
    ensures r.download == Some(DownloadRequest(url, TargetPath(settings, MenuFilename(url)), ConflictAction(settings)))
    ensures r.notification.Some? <==> settings.Some? && settings.value.showNotifications
    ensures r.notification.Some? ==> r.notification.value == "PDF download started: " + MenuFilename(url)
  {
    var filename := MenuFilename(url);
    Effects(Some(DownloadRequest(url, TargetPath(settings, filename), ConflictAction(settings))),
            if settings.Some? && settings.value.showNotifications
            then Some("PDF download started: " + filename) else None)
  }

  /** `contextMenus.onClicked`: only the extension's entry, on a link with an address. */
  function OnMenuClicked(menuItemId: string, linkUrl: Option<string>, settings: Option<Settings>): (r: Effects)
    ensures r.download.Some? <==> menuItemId == MenuItemId && linkUrl.Some? && linkUrl.value != ""
    ensures r.download.Some? ==> r.download.value.url == linkUrl.value
    ensures r.download.Some? ==> r == DownloadPdf(settings, linkUrl.value)
    ensures r.download.None? ==> r.notification.None?
  {
    if menuItemId == MenuItemId && linkUrl.Some? && linkUrl.value != "" then DownloadPdf(settings, linkUrl.value)
    else Effects(None, None)
  }

  /** The fallback name holds none of the characters the names are cut at. */
  lemma FallbackNameClean()
    ensures FallbackName != "" && '/' !in FallbackName && '#' !in FallbackName && '?' !in FallbackName
    ensures EndsWith(FallbackName, ".pdf")
  {
  }

  /** The last "/" segment of `a + "/" + b`, when `b` has no "/", is `b`. */
  lemma LastPieceAfter(a: string, b: string)
    requires '/' !in b
    ensures LastPiece(a + "/" + b, '/') == b
  {
    SplitConcat(a, '/', b);
    SplitSeparatorFree(b, '/');
    assert a + "/" + b == a + ['/'] + b;
  }

  /** With a download folder set, the browser's file name (the part after the
      last "/") is the derived name itself. */
  lemma TargetPathKeepsName(settings: Option<Settings>, filename: string)
    requires '/' !in filename
    ensures LastPiece(TargetPath(settings, filename), '/') == filename
  {
    if settings.Some? && settings.value.downloadPath != "" {
      LastPieceAfter(settings.value.downloadPath, filename);
    } else {
      SplitSeparatorFree(filename, '/');
    }
  }

  /** Both derivations agree on an address without "#", up to the ".pdf"
      that only the direct download adds. */
  lemma FilenamesAgree(url: string)
    requires '#' !in url
    ensures DirectFilename(url) ==
      (if EndsWith(MenuFilename(url), ".pdf") then MenuFilename(url) else MenuFilename(url) + ".pdf")
  {
    var last := LastPiece(url, '/');
    assert last == url[|url| - |last|..];
    assert FirstPiece(last, '#') == last;
  }

  /** An address `prefix/name?query` whose name and query hold no "/" and
      whose name holds no "?" directly downloads as `name`, with ".pdf" added
      when it lacks one. */
  lemma DirectFilenameOfPath(prefix: string, name: string, query: string)
    requires name != "" && '/' !in name && '?' !in name && '/' !in query
    ensures DirectFilename(prefix + "/" + name + "?" + query) ==
      (if EndsWith(name, ".pdf") then name else name + ".pdf")
  {
    var tail := name + "?" + query;
    assert '/' !in tail;
    assert prefix + "/" + name + "?" + query == prefix + "/" + tail;
    LastPieceAfter(prefix, tail);
    SplitConcat(name, '?', query);
    SplitSeparatorFree(name, '?');
    assert tail == name + ['?'] + query;
  }

  /** The link menu cuts the name at "#": the address `prefix/name#frag`,
      with no "/" after the prefix and no "?" anywhere past it, is named
      `name`, while the direct download keeps `name#frag`. */
  lemma MenuFilenameDropsFragment(prefix: string, name: string, frag: string)
    requires name != "" && '/' !in name && '#' !in name && '?' !in name
    requires '/' !in frag && '?' !in frag
    ensures MenuFilename(prefix + "/" + name + "#" + frag) == name
    ensures BaseName(prefix + "/" + name + "#" + frag) == name + "#" + frag
  {
    var tail := name + "#" + frag;
    assert '/' !in tail && '?' !in tail;
    assert prefix + "/" + name + "#" + frag == prefix + "/" + tail;
    LastPieceAfter(prefix, tail);
    SplitConcat(name, '#', frag);
    SplitSeparatorFree(name, '#');
    SplitSeparatorFree(name, '?');
    assert tail == name + ['#'] + frag;
  }

  /** A "/" in the query moves the name to the text after it: the address
      `prefix/name?key=/rest` directly downloads as `rest`, not `name`. */
  lemma SlashInQueryRenames(prefix: string, name: string, key: string, rest: string)
    requires rest != "" && '/' !in rest && '?' !in rest
    ensures DirectFilename(prefix + "/" + name + "?" + key + "/" + rest) ==
      (if EndsWith(rest, ".pdf") then rest else rest + ".pdf")
  {
    LastPieceAfter(prefix + "/" + name + "?" + key, rest);
    SplitSeparatorFree(rest, '?');
  }
}
