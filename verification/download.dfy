/** `Wicked_Application::download()`: serving one attachment of a wiki page.
    The request names a page (default "Wiki/Home"), a file and optionally a
    version. The path checks display permission, resolves the identifier the
    attachment store is addressed by, finds the version to serve when none is
    given, fetches and logs, and picks a content type. The model returns the
    outcome together with the calls made into the stores, in order. */
module Downloads {
  import opened Wrappers
  import opened Php
  import opened Store

  /** The page served when the request names none. */
  const DefaultPage: string := "Wiki/Home"

  /** The request variables download() reads; None is an unset variable. */
  datatype Request = Request(page: Option<string>, file: string, version: Option<string>)

  datatype Outcome =
    | Ok(data: Bytes, file: string, mimeType: string)
      /** Horde_Exception_PermissionDenied. */
    | Denied
      /** A "404 Not Found" status and `body` as the response, never a redirect. */
    | NotFound(body: string)
      /** A Wicked_Exception that no handler in download() catches. */
    | Raised(message: string)

  datatype Response = Response(outcome: Outcome, calls: seq<Call>)

  /** The page asked for, "Wiki/Home" when the request names none. */
  function PageName(req: Request): (name: string)
    ensures req.page.Some? ==> name == req.page.value
    ensures req.page.None? ==> name == DefaultPage
  {
    req.page.GetOr(DefaultPage)
  }

  /** The identifier handed to the attachment store: the page id when the
      driver knows one, otherwise the page name itself. */
  function StoreKey(id: Option<string>, pageName: string): (key: string)
    ensures id.Some? ==> key == id.value
    ensures id.None? ==> key == pageName
  {
    id.GetOr(pageName)
  }

  /** The record's name equals the requested file under PHP's `==`. */
  predicate NameMatches(rt: Runtime, a: Attachment, file: string) {
    LooseEquals(rt, a.name, file)
  }

  ghost predicate NoMatch(rt: Runtime, list: seq<Attachment>, file: string) {
    forall k :: 0 <= k < |list| ==> !NameMatches(rt, list[k], file)
  }

  /** `list[i]` is the last record, in the order the store lists them, whose
      name matches the file. */
  ghost predicate IsLastMatch(rt: Runtime, list: seq<Attachment>, file: string, i: int) {
    && 0 <= i < |list|
    && NameMatches(rt, list[i], file)
    && forall k :: i < k < |list| ==> !NameMatches(rt, list[k], file)
  }

  /** The foreach over the attachment list: every matching record overwrites
      the version found so far, which starts as the requested one. */
  function ScanVersions(rt: Runtime, list: seq<Attachment>, file: string, version: Option<string>): (v: Option<string>)
    ensures v == version || exists i :: 0 <= i < |list| && NameMatches(rt, list[i], file) && v == Some(list[i].version)
    decreases |list|
  {
    if list == [] then
      version
    else
      var next := if NameMatches(rt, list[0], file) then Some(list[0].version) else version;
      var v := ScanVersions(rt, list[1..], file, next);
      assert v != next ==> exists i :: 1 <= i < |list| && NameMatches(rt, list[i], file) && v == Some(list[i].version) by {
        if v != next {
          var i :| 0 <= i < |list[1..]| && NameMatches(rt, list[1..][i], file) && v == Some(list[1..][i].version);
          assert list[1..][i] == list[i + 1];
        }
      }
      v
  }

  /** The scan yields the version of the last matching record, not the
      greatest version; with no match it leaves the version as it was. */
  lemma {:induction false} ScanIsLastMatch(rt: Runtime, list: seq<Attachment>, file: string, version: Option<string>)
    ensures NoMatch(rt, list, file) ==> ScanVersions(rt, list, file, version) == version
    ensures forall i :: IsLastMatch(rt, list, file, i) ==> ScanVersions(rt, list, file, version) == Some(list[i].version)
    decreases |list|
  {
    if list != [] {
      var next := if NameMatches(rt, list[0], file) then Some(list[0].version) else version;
      var tail := list[1..];
      ScanIsLastMatch(rt, tail, file, next);
      if NoMatch(rt, list, file) {
        assert !NameMatches(rt, list[0], file);
        assert NoMatch(rt, tail, file) by {
          forall k | 0 <= k < |tail| ensures !NameMatches(rt, tail[k], file) {
            assert tail[k] == list[k + 1];
          }
        }
      }
      forall i | IsLastMatch(rt, list, file, i)
        ensures ScanVersions(rt, list, file, version) == Some(list[i].version)
      {
        if i == 0 {
          assert NoMatch(rt, tail, file) by {
            forall k | 0 <= k < |tail| ensures !NameMatches(rt, tail[k], file) {
              assert tail[k] == list[k + 1];
            }
          }
        } else {
          assert tail[i - 1] == list[i];
          assert IsLastMatch(rt, tail, file, i - 1) by {
            forall k | i - 1 < k < |tail| ensures !NameMatches(rt, tail[k], file) {
              assert tail[k] == list[k + 1];
            }
          }
        }
      }
    }
  }

  /** A list with some matching record has a last one. */
  lemma {:induction false} LastMatchExists(rt: Runtime, list: seq<Attachment>, file: string)
    ensures !NoMatch(rt, list, file) ==> exists i :: IsLastMatch(rt, list, file, i)
    decreases |list|
  {
    if list != [] && !NoMatch(rt, list, file) {
      var n := |list| - 1;
      if NameMatches(rt, list[n], file) {
        assert IsLastMatch(rt, list, file, n);
      } else {
        var front := list[..n];
        assert !NoMatch(rt, front, file) by {
          var k :| 0 <= k < |list| && NameMatches(rt, list[k], file);
          assert k < n && front[k] == list[k];
        }
        LastMatchExists(rt, front, file);
        var i :| IsLastMatch(rt, front, file, i);
        assert front[i] == list[i];
        assert IsLastMatch(rt, list, file, i) by {
          forall k | i < k < |list| ensures !NameMatches(rt, list[k], file) {
            if k < n {
              assert front[k] == list[k];
            }
          }
        }
      }
    }
  }

  /** For a requested file name PHP does not read as a number, the loose
      comparison is exact: the scan yields the version of the last record named
      exactly like the file, and leaves the version alone when none is. */
  lemma ScanIsLastExactMatch(rt: Runtime, list: seq<Attachment>, file: string, version: Option<string>)
    requires rt.numericValue(file).None?
    ensures (forall k :: 0 <= k < |list| ==> list[k].name != file) ==> ScanVersions(rt, list, file, version) == version
    ensures forall i | 0 <= i < |list| && list[i].name == file && (forall k :: i < k < |list| ==> list[k].name != file) ::
      ScanVersions(rt, list, file, version) == Some(list[i].version)
  {
    ScanIsLastMatch(rt, list, file, version);
    forall i | 0 <= i < |list| && list[i].name == file && (forall k :: i < k < |list| ==> list[k].name != file)
      ensures IsLastMatch(rt, list, file, i)
    {
    }
  }

  datatype Resolution = Resolution(version: Option<string>, calls: seq<Call>)

  /** The version to fetch. A non-empty requested version is
      used as is without listing; an empty one is replaced by the version of
      the last matching record, and is still empty when the listing failed, no
      record matched, or that record's own version is empty. */
  function ResolveVersion(rt: Runtime, w: Wiki, key: string, file: string, requested: Option<string>): (res: Resolution)
    ensures !Empty(requested) ==> res.version == requested && res.calls == []
    ensures Empty(requested) ==> res.calls == [GetAttachedFiles(key)]
    ensures Empty(requested) ==>
      (Empty(res.version) <==>
        || w.getAttachedFiles(key).Failure?
        || NoMatch(rt, w.getAttachedFiles(key).value, file)
        || exists i :: IsLastMatch(rt, w.getAttachedFiles(key).value, file, i)
                       && Empty(Some(w.getAttachedFiles(key).value[i].version)))
    ensures Empty(requested) && !Empty(res.version) ==>
      && w.getAttachedFiles(key).Success?
      && exists i :: IsLastMatch(rt, w.getAttachedFiles(key).value, file, i)
                     && res.version == Some(w.getAttachedFiles(key).value[i].version)
  {
    if !Empty(requested) then
      Resolution(requested, [])
    else
      match w.getAttachedFiles(key)
      case Failure(_) =>
        Resolution(requested, [GetAttachedFiles(key)])
      case Success(list) =>
        ScanIsLastMatch(rt, list, file, requested);
        LastMatchExists(rt, list, file);
        Resolution(ScanVersions(rt, list, file, requested), [GetAttachedFiles(key)])
  }

  /** The content type: the sniffed type when sniffing succeeds, otherwise the
      guess from the file name. */
  function MimeType(magic: Magic, data: Bytes, file: string): (mime: string)
    ensures magic.analyzeData(data).Some? ==> mime == magic.analyzeData(data).value
    ensures magic.analyzeData(data).None? ==> mime == magic.filenameToMime(file)
  {
    magic.analyzeData(data).GetOr(magic.filenameToMime(file))
  }

  /** Fetch, log, and build the result; either store call
      failing ends the request with a 404 carrying the exception message. */
  function Deliver(w: Wiki, magic: Magic, key: string, file: string, version: string): (r: Response)
    ensures r.calls == [GetAttachmentContents(key, file, version)]
         || r.calls == [GetAttachmentContents(key, file, version), LogAttachmentDownload(key, file)]
    ensures |r.calls| == 2 <==> w.getAttachmentContents(key, file, version).Success?
    ensures r.outcome.NotFound? || r.outcome.Ok?
    ensures r.outcome.Ok? <==>
      w.getAttachmentContents(key, file, version).Success? && w.logAttachmentDownload(key, file).Success?
    ensures w.getAttachmentContents(key, file, version).Failure? ==>
      r.outcome == NotFound(w.getAttachmentContents(key, file, version).error)
    ensures w.getAttachmentContents(key, file, version).Success? && w.logAttachmentDownload(key, file).Failure? ==>
      r.outcome == NotFound(w.logAttachmentDownload(key, file).error)
    ensures r.outcome.Ok? ==>
      && w.getAttachmentContents(key, file, version) == Success(r.outcome.data)
      && r.outcome.file == file
      && r.outcome.mimeType == MimeType(magic, r.outcome.data, file)
  {
    var fetch := GetAttachmentContents(key, file, version);
    match w.getAttachmentContents(key, file, version)
    case Failure(e) =>
      Response(NotFound(e), [fetch])
    case Success(data) =>
      match w.logAttachmentDownload(key, file)
      case Failure(e) =>
        Response(NotFound(e), [fetch, LogAttachmentDownload(key, file)])
      case Success(_) =>
        Response(Ok(data, file, MimeType(magic, data, file)), [fetch, LogAttachmentDownload(key, file)])
  }

  /** The whole of download(). */
  function Download(rt: Runtime, w: Wiki, magic: Magic, req: Request): (r: Response)
    // the permission gate is asked first, and a refusal ends the request
    ensures |r.calls| > 0 && r.calls[0] == AllowsDisplay(PageName(req))
    ensures r.outcome.Denied? <==> !w.allowsDisplay(PageName(req))
    ensures r.outcome.Denied? ==> r.calls == [AllowsDisplay(PageName(req))]
    ensures InChainOrder(r.calls)
    // only the page-id lookup throws past download()
    ensures r.outcome.Raised? <==> w.allowsDisplay(PageName(req)) && w.getPageId(PageName(req)).Failure?
    // once display is allowed, the page id is looked up second
    ensures w.allowsDisplay(PageName(req)) ==> |r.calls| >= 2 && r.calls[1] == GetPageId(PageName(req))
    // the escaping exception is getPageId's, and nothing is asked after it
    ensures r.outcome.Raised? ==>
      && r.outcome == Raised(w.getPageId(PageName(req)).error)
      && r.calls == [AllowsDisplay(PageName(req)), GetPageId(PageName(req))]
  {
    var page := PageName(req);
    if !w.allowsDisplay(page) then
      Response(Denied, [AllowsDisplay(page)])
    else
      var asked := [AllowsDisplay(page), GetPageId(page)];
      match w.getPageId(page)
      case Failure(e) =>
        Response(Raised(e), asked)
      case Success(id) =>
        var key := StoreKey(id, page);
        var resolution := ResolveVersion(rt, w, key, req.file, req.version);
        if Empty(resolution.version) then
          Response(NotFound(""), asked + resolution.calls)
        else
          var delivered := Deliver(w, magic, key, req.file, resolution.version.value);
          Response(delivered.outcome, asked + resolution.calls + delivered.calls)
  }

  /** Every attachment-store call addresses the page id, or the page name when
      the driver has no id; fetch and log are for the requested file. */
  lemma DownloadAddressesStore(rt: Runtime, w: Wiki, magic: Magic, req: Request)
    ensures var r := Download(rt, w, magic, req);
      forall c | c in r.calls && c.OnAttachments() ::
        && w.getPageId(PageName(req)).Success?
        && c.key == w.getPageId(PageName(req)).value.GetOr(PageName(req))
        && (c.GetAttachmentContents? || c.LogAttachmentDownload? ==> c.file == req.file)
  {
  }

  /** A non-empty requested version is never looked up, and is the one fetched. */
  lemma DownloadExplicitVersion(rt: Runtime, w: Wiki, magic: Magic, req: Request)
    requires !Empty(req.version)
    ensures var r := Download(rt, w, magic, req);
      forall c | c in r.calls :: !c.GetAttachedFiles? && (c.GetAttachmentContents? ==> c.version == req.version.value)
    // once display is allowed and the id lookup returns, that version is fetched next
    ensures var page := PageName(req);
      var r := Download(rt, w, magic, req);
      w.allowsDisplay(page) && w.getPageId(page).Success? ==>
        && |r.calls| >= 3
        && r.calls[2] == GetAttachmentContents(StoreKey(w.getPageId(page).value, page), req.file, req.version.value)
  {
  }

  /** The download is logged only right after a fetch that succeeded. */
  lemma DownloadLogFollowsFetch(rt: Runtime, w: Wiki, magic: Magic, req: Request)
    ensures var r := Download(rt, w, magic, req);
      forall i | 0 <= i < |r.calls| && r.calls[i].LogAttachmentDownload? ::
        && 0 < i
        && r.calls[i - 1] == GetAttachmentContents(r.calls[i].key, r.calls[i].file, r.calls[i - 1].version)
        && w.getAttachmentContents(r.calls[i].key, r.calls[i].file, r.calls[i - 1].version).Success?
  {
  }

  /** A failing fetch or log ends the request with a 404 carrying the
      exception's message, never with a result. */
  lemma DownloadStoreFailureIsNotFound(rt: Runtime, w: Wiki, magic: Magic, req: Request)
    ensures var r := Download(rt, w, magic, req);
      && (forall c | c in r.calls && c.GetAttachmentContents? && w.getAttachmentContents(c.key, c.file, c.version).Failure? ::
            r.outcome == NotFound(w.getAttachmentContents(c.key, c.file, c.version).error))
      && (forall c | c in r.calls && c.LogAttachmentDownload? && w.logAttachmentDownload(c.key, c.file).Failure? ::
            r.outcome == NotFound(w.logAttachmentDownload(c.key, c.file).error))
  {
  }

  /** A result carries the fetched bytes and the requested name, and its type
      is the sniffed one when sniffing succeeds, the guessed one otherwise. */
  lemma DownloadSuccess(rt: Runtime, w: Wiki, magic: Magic, req: Request)
    ensures var r := Download(rt, w, magic, req);
      r.outcome.Ok? ==>
        && |r.calls| >= 2
        && var fetch := r.calls[|r.calls| - 2];
        && fetch.GetAttachmentContents?
        && w.getAttachmentContents(fetch.key, fetch.file, fetch.version) == Success(r.outcome.data)
        && r.calls[|r.calls| - 1] == LogAttachmentDownload(fetch.key, req.file)
        && w.logAttachmentDownload(fetch.key, req.file).Success?
        && r.outcome.file == req.file
        && (magic.analyzeData(r.outcome.data).Some? ==> r.outcome.mimeType == magic.analyzeData(r.outcome.data).value)
        && (magic.analyzeData(r.outcome.data).None? ==> r.outcome.mimeType == magic.filenameToMime(req.file))
  {
  }

  /** An empty requested version is replaced by the listing's last match:
      the list is asked for exactly once, the request ends in a bare 404
      before any fetch exactly when the listing fails, nothing matches, or the
      last match's own version is empty, and otherwise that version is fetched. */
  lemma DownloadImplicitVersion(rt: Runtime, w: Wiki, magic: Magic, req: Request)
    requires w.allowsDisplay(PageName(req)) && w.getPageId(PageName(req)).Success?
    requires Empty(req.version)
    ensures var key := StoreKey(w.getPageId(PageName(req)).value, PageName(req));
      var r := Download(rt, w, magic, req);
      var listed := w.getAttachedFiles(key);
      && |r.calls| >= 3 && r.calls[2] == GetAttachedFiles(key)
      && (r.outcome == NotFound("") && |r.calls| == 3 <==>
            || listed.Failure?
            || NoMatch(rt, listed.value, req.file)
            || exists i :: IsLastMatch(rt, listed.value, req.file, i) && Empty(Some(listed.value[i].version)))
      && forall c | c in r.calls && c.GetAttachmentContents? ::
            && listed.Success?
            && exists i :: IsLastMatch(rt, listed.value, req.file, i) && c.version == listed.value[i].version
  {
  }

  /** The attachment store only serves contents it also lists: a successful
      fetch is for a (name, version) pair that appears in the page's listing. */
  ghost predicate ServesOnlyListed(w: Wiki) {
    forall key, file, version | w.getAttachmentContents(key, file, version).Success? ::
      && w.getAttachedFiles(key).Success?
      && Attachment(file, version) in w.getAttachedFiles(key).value
  }

  /** A file the page has no record of is not served, whether or not a version
      was requested (given a store that serves only what it lists). */
  lemma DownloadWithoutRecordIsNotFound(rt: Runtime, w: Wiki, magic: Magic, req: Request)
    requires ServesOnlyListed(w)
    requires w.allowsDisplay(PageName(req)) && w.getPageId(PageName(req)).Success?
    requires var key := StoreKey(w.getPageId(PageName(req)).value, PageName(req));
      w.getAttachedFiles(key).Success? ==> forall a | a in w.getAttachedFiles(key).value :: a.name != req.file
    ensures Download(rt, w, magic, req).outcome.NotFound?
  {
    var r := Download(rt, w, magic, req);
    forall c | c in r.calls && c.GetAttachmentContents?
      ensures w.getAttachmentContents(c.key, c.file, c.version).Failure?
    {
      DownloadAddressesStore(rt, w, magic, req);
      if w.getAttachmentContents(c.key, c.file, c.version).Success? {
        assert false;
      }
    }
    DownloadStoreFailureIsNotFound(rt, w, magic, req);
  }

  /** Once a version resolves, it is fetched right after the resolution's
      calls, and the request is served exactly when that fetch and the log both
      succeed. */
  lemma DownloadFetchesResolvedVersion(rt: Runtime, w: Wiki, magic: Magic, req: Request)
    requires w.allowsDisplay(PageName(req)) && w.getPageId(PageName(req)).Success?
    ensures var page := PageName(req);
      var key := StoreKey(w.getPageId(page).value, page);
      var res := ResolveVersion(rt, w, key, req.file, req.version);
      var r := Download(rt, w, magic, req);
      !Empty(res.version) ==>
        && |r.calls| > 2 + |res.calls|
        && r.calls[2 + |res.calls|] == GetAttachmentContents(key, req.file, res.version.value)
        && (r.outcome.Ok? <==>
              && w.getAttachmentContents(key, req.file, res.version.value).Success?
              && w.logAttachmentDownload(key, req.file).Success?)
  {
  }

  /** The request is served exactly when display is allowed, the id lookup
      returns, a version resolves, and its fetch and the log both succeed. */
  lemma DownloadOkExactly(rt: Runtime, w: Wiki, magic: Magic, req: Request)
    ensures Download(rt, w, magic, req).outcome.Ok? <==>
      var page := PageName(req);
      && w.allowsDisplay(page)
      && w.getPageId(page).Success?
      && var key := StoreKey(w.getPageId(page).value, page);
      && var v := ResolveVersion(rt, w, key, req.file, req.version).version;
      && !Empty(v)
      && w.getAttachmentContents(key, req.file, v.value).Success?
      && w.logAttachmentDownload(key, req.file).Success?
  {
  }
}
