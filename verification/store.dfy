/** The collaborators the controller reaches through the global `$wicked`
    driver, `Wicked_Page` and `Horde_Mime_Magic`, as they look from the
    controller: each call either returns a value or throws a Wicked_Exception,
    whose message is the `Failure` payload. Their internals are not modelled. */
module Store {
  import opened Wrappers

  newtype byte = x: int | 0 <= x < 256

  /** The raw contents of an attachment. */
  type Bytes = seq<byte>

  /** One row of `getAttachedFiles`: the fields the controller reads. */
  datatype Attachment = Attachment(name: string, version: string)

  /** The state of the wiki as the controller can observe it through one
      request. Page ids are modelled as strings: an integer id would
      concatenate to the same `pages:<id>` key and be passed through to the
      attachment store unchanged. None is the driver's `false` for an unknown
      page. */
  datatype Wiki = Wiki(
    allowsDisplay: string -> bool,                                   // Wicked_Page::getPage($name)->allows(Wicked::MODE_DISPLAY)
    getPageId: string -> Result<Option<string>, string>,             // $wicked->getPageId($name)
    getPages: Result<seq<string>, string>,                           // $wicked->getPages()
    getAttachedFiles: string -> Result<seq<Attachment>, string>,     // $wicked->getAttachedFiles($page_id)
    getAttachmentContents: (string, string, string) -> Result<Bytes, string>, // ($page_id, $file, $version)
    logAttachmentDownload: (string, string) -> Result<(), string>)  // ($page_id, $file)

  /** Horde_Mime_Magic: content sniffing (None for its `false`) and the
      non-strict file-name guess, which always yields some type. */
  datatype Magic = Magic(analyzeData: Bytes -> Option<string>, filenameToMime: string -> string)

  /** A call the download path makes into the page or attachment store. The
      attachment-store calls share the `key` they address. */
  datatype Call =
    | AllowsDisplay(page: string)
    | GetPageId(page: string)
    | GetAttachedFiles(key: string)
    | GetAttachmentContents(key: string, file: string, version: string)
    | LogAttachmentDownload(key: string, file: string)
  {
    /** The call touches the attachment store. */
    predicate OnAttachments() {
      GetAttachedFiles? || GetAttachmentContents? || LogAttachmentDownload?
    }

    /** Position of the call in the fixed chain the download path follows. */
    function Stage(): nat {
      match this
      case AllowsDisplay(_) => 0
      case GetPageId(_) => 1
      case GetAttachedFiles(_) => 2
      case GetAttachmentContents(_, _, _) => 3
      case LogAttachmentDownload(_, _) => 4
    }
  }

  /** Calls appear in the order of the chain, each stage at most once. */
  ghost predicate InChainOrder(calls: seq<Call>) {
    forall i, j :: 0 <= i < j < |calls| ==> calls[i].Stage() < calls[j].Stage()
  }
}
