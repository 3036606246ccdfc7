# Wicked application controller: attachment download and permission catalogue

This project models the two pieces of decision logic in `Wicked_Application`, the
Horde application class of the Wicked wiki:

- **`download()`** serves one attachment of a wiki page. It checks that the page
  allows display. It then resolves the identifier the attachment store is
  addressed by: the page id, or the page name when the driver knows no id. When
  no version is requested, it finds one by a "last match wins" scan of the
  page's attachment list. It fetches the bytes, logs the download and picks a
  content type: the sniffed type when sniffing succeeds, the file-name guess
  otherwise. The model is the pure function `Downloads.Download`. It returns
  the outcome (`Ok`, `Denied`, `NotFound`, or `Raised` for an exception that
  escapes) together with the ordered list of calls made into the page and
  attachment stores.
- **`perms()`** builds the permission catalogue. This is a map from key to
  title: the root entry `pages`, four fixed entries for the special pages, and
  one `pages:<id>` entry per wiki page, visited in sorted name order. A
  `Wicked_Exception` stops the loop, and the entries made so far are kept. The
  model is `Perms.Perms`: a sequence of writes applied to a `map<string, string>`.
  The order of the returned PHP array's keys is `Perms.KeyOrder`.

The collaborators are the global `$wicked` driver, `Wicked_Page` and
`Horde_Mime_Magic`. They are function-valued fields of the `Store.Wiki` and
`Store.Magic` datatypes and are left uninterpreted. A call either returns a
value or throws a `Wicked_Exception`, which the model writes as a `Result`
whose failure carries the exception message. Two pieces of PHP semantics are
modelled explicitly in `Php`:

- `empty()`: null, `""` and `"0"` are empty.
- loose `==` on strings: two numeric strings compare as numbers. Which strings
  are numeric is the engine's business and stays abstract.

The ordering used by `sort()` is modelled in `Names`, together with an
insertion sort that is proved to yield the unique sorted permutation.

Modules: `Wrappers` (Option, Result), `Php`, `Names`, `Store` (collaborators,
the `Call` trace), `Downloads`, `Perms`, `Scenarios` (worked examples).

Two details of the download path are easy to misread, and the model follows
the code in both:

- A throwing `logAttachmentDownload` is not best-effort here. It sits in the
  same `try` as the fetch, so it ends the request with a 404 that carries its
  message (`lib/Application.php` lines 181-190).
- A throwing `getPageId` in `download()` is outside every `try`, so it escapes
  the method. This is the `Raised` outcome.

## Model

| member | source | states |
|---|---|---|
| `Downloads.Download` | lib/Application.php:148-160 | The display check for the requested page is the first call. The outcome is `Denied` exactly when display is refused, and then no other call is made. The calls follow the fixed chain check, getPageId, list, fetch, log, each at most once. Once display is allowed, the second call is getPageId for the same page. A throwing getPageId escapes (`Raised`) exactly when display was allowed, carrying that exception's message, and then the check and getPageId are the only calls. |
| `Downloads.PageName` | lib/Application.php:152 | The page is the requested one, or "Wiki/Home" when the request names none. |
| `Downloads.StoreKey` | lib/Application.php:158-160 | The attachment-store identifier is the page id when getPageId returns one, and the page name when it returns `false`. |
| `Downloads.DownloadAddressesStore` | lib/Application.php:158-160 | Every attachment-store call (list, fetch, log) addresses getPageId's id when there is one, otherwise the page name. Fetch and log are for the requested file. |
| `Downloads.DownloadExplicitVersion` | lib/Application.php:162-182 | A requested version that is not empty in PHP's sense is never looked up (no listing call), and it is the only version ever fetched. Once display is allowed and getPageId returns, the third call is the fetch of exactly that version for the requested file. |
| `Downloads.ScanVersions` | lib/Application.php:165-170 | The scan's result is either the starting version or the version of some record whose name loosely equals the file. |
| `Downloads.ScanIsLastMatch` | lib/Application.php:165-170 | With no matching record the version is unchanged. Otherwise it is the version of the last matching record in list order, so earlier matches are overwritten and the result need not be the greatest version. |
| `Downloads.ScanIsLastExactMatch` | lib/Application.php:165-170 | For a requested file name that is not numeric, the scan yields the version of the last record named exactly like the file, and leaves the version unchanged when no record has that name. |
| `Downloads.ResolveVersion` | lib/Application.php:162-179 | A non-empty request passes through with no calls. An empty one causes exactly one listing call. The result is still empty exactly when the listing threw, no record matched, or the last match's own version is empty. Otherwise it is that last match's version. |
| `Downloads.DownloadImplicitVersion` | lib/Application.php:162-179 | With an empty requested version, the third call is the listing. The request ends in a bare 404 before any fetch exactly in the three cases of `ResolveVersion`. Any fetch is for the last match's version. |
| `Downloads.Deliver` | lib/Application.php:181-201 | The fetch always happens, and the log happens exactly when the fetch succeeded. A failure of either gives `NotFound` with that exception's message. `Ok` holds exactly when both succeed, and then it carries the fetched bytes, the file name and the chosen type. |
| `Downloads.DownloadFetchesResolvedVersion` | lib/Application.php:179-190 | Once display is allowed, getPageId returns and a version resolves, the call right after the resolution's calls is the fetch of that version for the requested file. The outcome is `Ok` exactly when that fetch and the log succeed. |
| `Downloads.DownloadOkExactly` | lib/Application.php:148-201 | A file is served exactly when all of these hold: display is allowed, getPageId returns, a non-empty version resolves, and that version's fetch and the log both succeed. |
| `Downloads.DownloadLogFollowsFetch` | lib/Application.php:182-183 | A log call is always immediately preceded by a fetch of the same key and file that succeeded. |
| `Downloads.DownloadStoreFailureIsNotFound` | lib/Application.php:181-190 | If a fetch or log call made during the request threw, the outcome is `NotFound` with that exception's message, never `Ok`. |
| `Downloads.DownloadSuccess` | lib/Application.php:192-201 | On success, the data equals the bytes the fetch returned and the file is the requested name. The fetch and log are the last two calls and both succeeded. The type is the sniffed one when sniffing returned a type, otherwise the file-name guess. |
| `Downloads.MimeType` | lib/Application.php:192-195 | The content type is the sniffed type when sniffing returns one, and otherwise the file-name guess. |
| `Downloads.DownloadWithoutRecordIsNotFound` | lib/Application.php:162-190 | Assume the store serves only what it lists. Then a file that has no record on the page is `NotFound`, whether or not a version was requested. |
| `Php.Empty` | lib/Application.php:163 | `empty()` holds of an absent value, and of a string exactly when it has at most one character and that character is `0`. So `""` and `"0"` are empty, while `"00"`, `" "` and `"0.0"` are not. |
| `Php.LooseEquals` | lib/Application.php:167 | Identical strings are always loosely equal. When either side is not a numeric string, loose equality is exact string equality. When both are numeric, they are equal exactly when their numeric values are. |
| `Names.BelowReflexive` | lib/Application.php:133 | Every page name sorts no later than itself under the order `sort()` uses. |
| `Names.BelowAntisymmetric` | lib/Application.php:133 | Two names that each sort no later than the other are the same name. |
| `Names.BelowTransitive` | lib/Application.php:133 | The order `sort()` uses is transitive. |
| `Names.BelowTotal` | lib/Application.php:133 | Any two names are comparable, so the order is total and the sorted list is determined. |
| `Names.SortNames` | lib/Application.php:133 | `sort()` returns the same multiset of names, in order. |
| `Names.SortedUnique` | lib/Application.php:133 | Two sorted lists with the same multiset of names are equal. |
| `Names.SortNamesOrderIndependent` | lib/Application.php:133 | Sorting gives the same list whatever order the names arrive in. |
| `Perms.DynamicKey` | lib/Application.php:135 | Every page key is `pages:` followed by exactly the page id, or by nothing when the driver returns `false`. So it can never be the root key `pages`. |
| `Perms.FixedPerms` | lib/Application.php:119-129 | The fixed catalogue has exactly the keys `pages` and `pages:` followed by each of the four special pages. `pages` is titled "Pages", and each special key is titled with its own page name. |
| `Perms.Writes` | lib/Application.php:134-138 | The loop makes one assignment per name, in order, of `pages:<id>` to the name, up to the first getPageId that throws. When it stops early, the name where it stopped is one whose getPageId threw. |
| `Perms.PageWrites` | lib/Application.php:131-139 | A throwing getPages makes no writes. Otherwise the writes follow the sorted names: one `(pages:<id>, name)` per name in sorted order, up to the first name whose getPageId throws. |
| `Perms.Apply` | lib/Application.php:135 | Successive `$perms[$key] = $title` assignments never remove a key: every key present before stays, and every written key is present. |
| `Perms.ApplyLastWriteWins` | lib/Application.php:126-137 | After successive assignments, a key is present exactly when it was present before or was written. An untouched key keeps its value. A written key holds its last write. |
| `Perms.Perms` | lib/Application.php:117-142 | `pages` is always present and titled "Pages". The four fixed keys are always present, each titled with its own suffix unless a page write hit that key. A throwing getPages gives exactly the five fixed entries. The keys are the fixed ones plus one per page the loop reached. A page key holds its last write. |
| `Perms.PermsTitleSortsLast` | lib/Application.php:133-137 | The entry for a page the loop reached is titled with a page of the same key that sorts no earlier than it. That page is the later one in sorted order when two pages share an id. |
| `Perms.PermsKeepsEntriesBeforeThrow` | lib/Application.php:131-139 | If getPageId throws at the k-th sorted name, exactly k page writes happen. The keys are then the fixed ones plus those of the names before it. |
| `Perms.NewKeys` | lib/Application.php:134-138 | The keys the loop adds to the array are listed once each: exactly the written keys that were not already present. |
| `Perms.NewKeysInFirstWriteOrder` | lib/Application.php:134-138 | A key added to the array comes before another exactly as its first write comes before the other's first write. Later writes to a present key do not move it. |
| `Perms.KeyOrder` | lib/Application.php:119-138 | The returned array's keys, in iteration order, start with `pages` and the four special keys in their insertion order. They list every key of the catalogue exactly once and nothing else. |
| `Perms.PageKeysFollowSortedNames` | lib/Application.php:133-138 | Of two page keys in the returned array, the earlier one is first written by a page whose name sorts no later than every page that writes the later one. |
| `Perms.PermsIgnoresListingOrder` | lib/Application.php:132-133 | The catalogue is the same for any two listings of the same page names in different orders. |
| `Scenarios.ExampleHomeNotes` | lib/Application.php:162-201 | With notes.txt v1 and v2 listed in that order, no version serves v2 and version "1" serves v1. |
| `Scenarios.ExampleZeroVersionIsLookedUp` | lib/Application.php:163 | A requested version "0" counts as empty, so the latest listed record is served. |
| `Scenarios.ExampleLastNotGreatest` | lib/Application.php:165-170 | Records listed as v1, v3, v2 resolve to v2. |
| `Scenarios.ExampleNumericNameMatches` | lib/Application.php:165-170 | When "1" and "1.0" read as the same number, a request for file "1" finds the version of the record named "1.0". |
| `Scenarios.ExampleSecretPageDenied` | lib/Application.php:153-156 | A page that refuses display gives `Denied` after the permission check alone. |
| `Scenarios.ExampleMissingFile` | lib/Application.php:173-178 | A request naming no page uses "Wiki/Home". An unknown file there gives a bare 404 after the check, getPageId and listing. |
| `Scenarios.ExampleSniffWins` | lib/Application.php:192-195 | Bytes that sniff as PNG are typed `image/png` even under a `.txt` name. |
| `Scenarios.ExamplePagesCatalogue` | lib/Application.php:117-142 | Pages listed as "B", "A" with ids 2 and 1 give the fixed entries plus `pages:1` titled "A" and `pages:2` titled "B". |
| `Scenarios.ExamplePagesKeyOrder` | lib/Application.php:117-142 | For the same pages, the array's keys are the five fixed keys, then `pages:1`, then `pages:2`. |
| `Scenarios.ExampleUnknownIdCatalogue` | lib/Application.php:135 | A page the driver has no id for is entered under the key `pages:`. |
| `Scenarios.ExampleThrowingIdCatalogue` | lib/Application.php:131-139 | When getPageId throws at the second sorted page, the entry for the first page is kept and the second gets none. |

## Left out

- `_bootstrap()` and `_init()` (include path, autoloader, injector binding) are environment setup with no decision logic.
- `menu()` is UI assembly from configuration, `$_SERVER` and form data.
- `header()`, `echo` and `exit` are not modelled as I/O. The 404 response is the `NotFound(body)` outcome, where the body is the echoed message, or empty for the bare 404.
- Exceptions other than `Wicked_Exception` are not modelled. That includes any exception from `Wicked_Page::getPage()`, and those propagate in the code anyway. The display check is a plain boolean.
- The `magic_db` argument to `analyzeData` is not modelled, because `$conf` is not global inside `download()` and the argument is always null there.
- The internals of `Horde_Mime_Magic`, `Wicked_Page` and the `Wicked_Driver` storage are not modelled. They are uninterpreted fields of `Store.Magic` and `Store.Wiki`.
- Each catalogue entry is the PHP array `array('title' => $title)`. The model stores the title string alone, because no entry ever gets another field.
- The gettext translation of the "Pages" title is not modelled. It is the constant `Perms.PagesTitle`.
- Names.SortNames orders page names by code point, as PHP's `sort()` does for non-numeric strings. PHP compares two numeric page names as numbers, and that case is not modelled.
- Php.LooseEquals leaves abstract which strings PHP reads as numbers, and the float rounding of that reading.
- An unset `file` request variable (PHP null) is not modelled. The file name is always a string.
- Only the `attachment_name` and `attachment_version` fields of an attachment record are modelled, both as strings. A non-string version column is not modelled.
- Page ids are modelled as strings. An integer id would concatenate to the same `pages:<id>` key and reach the attachment store unchanged, so nothing in the model depends on that choice.
- Downloads.ScanVersions: its own contract only says that the result is the starting version or some match's version. The exact "last match" statement is `Downloads.ScanIsLastMatch`.
