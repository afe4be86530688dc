# Sales file sharing: a Dafny model of the request handlers

This project models the decision logic of a small sales-file-sharing backend and the two pure
helpers of its browser controller. Users upload spreadsheet and CSV files, attach them to sale
records, list and delete them, and take a short advisory edit lock on a sale.

Each handler is modelled as a step over an abstract store (`Store.Store`). The store holds:

- one map or set per key family of the key-value store: `file:<id>`, `files:all`,
  `sale:<id>:files`, `sale:<id>`, `sales:all` and `solis_edit_lock:<id>`;
- the set of URLs the blob store holds.

A handler takes the store, the request and the current time in milliseconds. It returns a
`Reply`: the new store, the HTTP status and the JSON body. The outcomes of the blob store and
the key-value store are parameters (oracles):

- `Upload.Attempt`, one per file part: did `put` succeed, which URL, id and upload date it got,
  and how many of the key-value writes completed;
- the blob-deletion flag and the count of completed metadata deletions for `DeleteFile.Handle`;
- a set of `unreadable` ids whose record fetch throws, for both listings.

Modules:

- `Common`: optional fields, JavaScript truthiness of a string field, status codes, the MIME
  allow-list and the 10 MiB limit, ASCII lower-casing.
- `Store`: the abstract store and `Reply`.
- `EditLock`: the lock handler, and the intended unlocked/locked(owner, since) life cycle of a
  sale's lock, which the handler is proved to follow.
- `Upload`: the per-file filter and storage loop.
- `Sales`: list, upsert and delete of sale records.
- `Files`: the file listing and its newest-first sort.
- `DeleteFile`: deleting one uploaded file.
- `Client`: the browser's upload filter and file icon choice.
- `Scenarios`: properties that span handlers.

Points where the code's behaviour is easy to misread:

- The server checks only the content type of a part; it never looks at the file name. The
  browser also accepts a file by its extension, so `Scenarios.ClientLooserThanServer` exhibits a
  file the browser sends and the server skips.
- Lock expiry compares whole minutes, `Math.floor(age / 60000) >= 5`.
  `EditLock.StaleIffFiveMinutesElapsed` shows this equals `age >= 300000`.
- `release` and `force_release` both require a `saleId` (400 otherwise).

## Model

| member | source | states |
|---|---|---|
| EditLock.Acquire | api/edit-lock.js:28-66 | 400 exactly when saleId or userId is missing or empty. 423 exactly when another user holds a lock younger than five whole minutes; the store is then unchanged and the body names the holder and the whole minutes held. Otherwise 200 and the lock becomes `{userId, saleId, timestamp: now}`. |
| EditLock.Clear | api/edit-lock.js:68-79 | Release (and force release, lines 108-119): 200 exactly when saleId is given. The lock is then deleted whoever held it, and nothing else changes. Without saleId it is 400 and nothing changes. |
| EditLock.Refresh | api/edit-lock.js:81-106 | 400 without both ids. 403 with no change exactly when there is no lock or another user holds it. On 200 the lock keeps its userId and saleId and only its timestamp becomes `now`. |
| EditLock.Handle | api/edit-lock.js:10-123 | OPTIONS gives 200; other non-POST methods give 405; a missing or empty action gives 400; an unknown action gives 400. All of these leave the store unchanged. Every request changes at most the lock of its own saleId. |
| EditLock.HandlerFollowsLifeCycle | api/edit-lock.js:27-119 | For a named sale (and user), each action moves the sale's lock exactly as the unlocked/locked(owner, since) life cycle does: anyone acquires an unlocked sale, the owner re-acquires or refreshes, another user takes over after 300000 ms, and either release unlocks. The status is 200 exactly when the life cycle accepts the action. |
| EditLock.StaleIffFiveMinutesElapsed | api/edit-lock.js:38-42 | Whole minutes held reach 5 exactly when at least 300000 ms have passed. |
| EditLock.Expire | api/edit-lock.js:60 | The store's 300-second expiry touches only the lock of that sale. It drops that lock only once 300000 ms have passed since its timestamp. |
| EditLock.ExpiryInvisibleToAcquire | api/edit-lock.js:36-60 | An acquire gives the same reply whether or not the store has already dropped an expired lock. |
| EditLock.AcquireExcludesOthers | api/edit-lock.js:36-50 | After user A acquires at t, user B acquiring before t + 300000 gets 423 naming A, and the store is unchanged. |
| EditLock.StaleLockChangesHands | api/edit-lock.js:36-60 | After user A acquires at t, user B acquiring at or after t + 300000 gets 200 and becomes the holder with timestamp `now`. |
| EditLock.ReleaseMatchesForceRelease | api/edit-lock.js:68-119 | Release and force release give the same store and status, whatever user ids the two requests carry. |
| Upload.Accepts | api/upload.js:41-52 | The server's filter: the part's content type is one of the three spreadsheet types and its size is at most 10·1024·1024 bytes. The file name is not consulted. |
| Upload.Returned | api/upload.js:34-92 | The response's file list, defined from the parts and their store outcomes alone. Every listed file has an allowed content type, a size of at most 10 MiB and the form's uploader (or 'Anonymous'). |
| Upload.UploadOne | api/upload.js:37-86 | A missing, refused or blob-failed part changes nothing. Otherwise the blob URL joins the blob store. The record `file:<id>` becomes exactly the part's metadata (name, date, URL, size, uploader, content type) once the first write completes. `files:all` gains exactly the id once the second completes. Only the named sale's set gains the id, and only once the third completes. The part is reported exactly when every write completed. Sales and locks never change. |
| Upload.UploadAll | api/upload.js:34-87 | The loop returns exactly `Returned`. Every write lands on an id or URL some attempt was given. Records of other ids keep their value. Neither `files:all` nor any sale set gains another id, and only the named sale's set grows. Every returned id is in `files:all`. When no two attempts share an id, the stored record of each returned file equals the returned record. Sales and locks are untouched. |
| Upload.Handle | api/upload.js:18-93 | OPTIONS gives 200; other non-POST methods give 405; a parse error gives 500, each without change. A parsed form always gives 200, the reported count equals the length of the returned list, and the store changes as `UploadAll` states: writes confined to the attempts' ids and URLs, and each returned record stored as returned when ids are distinct. |
| Upload.ReturnedSplit | api/upload.js:37-87 | The response for two runs of parts is the concatenation of their responses, so input order is kept. |
| Upload.FailureSkipsOnlyThatFile | api/upload.js:54-86 | Making one part's storage fail removes only that part from the response. The parts before and after it are reported unchanged. |
| Upload.HealthyStoreKeepsEveryAccepted | api/upload.js:37-82 | When no store call fails, the response lists as many files as the filter accepted. |
| Upload.RejectedPartsLeaveStoreUntouched | api/upload.js:37-52 | Parts that are missing or fail the type or size filter leave the store unchanged and give an empty response. |
| Upload.SingleActsAsList | api/upload.js:35 | A single non-array part is handled exactly like a one-element list. |
| Upload.TenMiBBoundary | api/upload.js:50-52 | A file of exactly 10·1024·1024 bytes passes the size filter; one byte more does not. |
| Sales.ListSales | api/sales.js:15-35 | The returned ids are exactly those in `sales:all` whose record was fetched and has at least one field, each mapped to its stored record. An empty index gives an empty map. |
| Sales.Save | api/sales.js:37-57 | 400 with no change exactly when saleId is missing or empty, or saleData is missing. Otherwise the record gets every supplied field plus `lastModified = now`. Fields it had that saleData does not name are kept. The id joins `sales:all` and no other sale changes. |
| Sales.Remove | api/sales.js:59-76 | 400 with no change without a query saleId. Otherwise the record, the sale's file set and the `sales:all` entry are gone. File records, `files:all`, other sales' sets, locks and blobs are unchanged. |
| Sales.Handle | api/sales.js:9-80 | OPTIONS gives 200. GET leaves the store unchanged and lists as `ListSales` does. POST acts as `Save` and DELETE as `Remove`. Any other method gives 405 with no change. |
| Sales.SavedSaleIsListed | api/sales.js:46-50 | After a save, the sale appears in the listing (unless its fetch fails) with `lastModified = now`. |
| Sales.SaveKeepsOtherListings | api/sales.js:46-50 | A save does not change whether any other sale is listed. |
| Sales.SaveIdempotent | api/sales.js:46-50 | Saving the same data twice at the same instant has the same effect and reply as saving once. |
| Sales.DeletedSaleUnlisted | api/sales.js:67-70 | A deleted sale is not listed, and deleting it again leaves the store as it is. |
| Files.Kept | api/files.js:35-45 | A listed record exists, its fetch did not throw, and its `id` field is non-empty. |
| Files.Insert | api/files.js:48 | Inserting an id into a newest-first sequence keeps it newest-first. The result holds exactly the old ids plus the new one and has no duplicates. |
| Files.SortNewestFirst | api/files.js:48 | The output is a rearrangement of the input ids (same members, same length, no duplicates), ordered by upload date from newest to oldest. |
| Files.ListFiles | api/files.js:19-50 | The ids behind the result are exactly the ids of the chosen index (the sale's set when saleId is given, else `files:all`) whose record was fetched and carries an id. Each appears once with its stored record, and the records are ordered by upload date, newest first. |
| Files.Handle | api/files.js:9-50 | The store is never changed. OPTIONS gives 200 and other non-GET methods give 405. GET gives 200 with the listing `ListFiles` describes. |
| DeleteFile.Handle | api/delete.js:4-44 | Non-DELETE methods give 405 and a missing id gives 400. 404 comes exactly when the record is missing or has no blob URL, with no change. 200 comes exactly when both metadata deletions succeed: the record and its `files:all` entry are gone, sale sets are untouched, and the body names the record's filename. When a metadata deletion throws, the answer is 500 'Failed to delete file metadata'. The record is gone exactly when the first deletion completed, `files:all` is unchanged, and sale sets, sales and locks are untouched. The blob is removed only if the blob store succeeded. |
| DeleteFile.Found | api/delete.js:17-21 | The delete goes ahead exactly when the record exists and has a non-empty blob URL. |
| DeleteFile.BlobFailureTolerated | api/delete.js:23-29 | A failed blob deletion changes neither the status, the body nor the metadata the delete leaves. |
| DeleteFile.SecondDeleteNotFound | api/delete.js:17-21 | After a successful delete, deleting the same id again gives 404. |
| DeleteFile.DeletedFileNotListed | api/delete.js:31-38 | Once the record is deleted, the file is in no listing, even when the `files:all` removal then failed with 500. |
| Client.ClientAccepts | public/scripts.js:77-89 | The browser's filter: an allowed MIME type or a name ending in .xlsx, .xls or .csv after lower-casing, and a size of at most 10·1024·1024 bytes. |
| Client.ValidFiles | public/scripts.js:76-90 | The kept files are the input files that pass the browser's filter, each kept as many times as it occurs, in their original order (a subsequence). |
| Client.PlanUpload | public/scripts.js:72-108 | An empty or missing selection does nothing. An all-invalid selection only warns. Otherwise one request is sent with the valid files and uploader 'Sales User'. A skipped-count warning is given exactly when files were dropped, with count = selected − valid. |
| Client.LastSegment | public/scripts.js:244 | The extension is the longest suffix without a dot: it has no dot, it ends the string, and it is preceded by a dot unless it is the whole string. |
| Client.FileIcon | public/scripts.js:243-254 | The excel icon for the extensions xlsx and xls, the csv icon for csv, the generic icon otherwise, where the extension is the lower-cased text after the last dot. |
| Client.LastSegmentIs | public/scripts.js:244 | A dot-free text is the extension exactly when the string is that text or ends with a dot followed by it. |
| Client.IconAgreesWithExtensionCheck | public/scripts.js:243-254 | For names containing a dot: the excel icon exactly for names ending in .xlsx or .xls after lower-casing; the csv icon exactly for .csv; the generic icon otherwise. |
| Client.DotlessNameIsItsOwnExtension | public/scripts.js:243-254 | The dotless name `xlsx` gets the excel icon, yet it fails the upload filter's extension check. |
| Scenarios.UploadedCsvIsListed | api/upload.js:54-82 | Uploading one csv of at most 10 MiB with healthy stores reports one file, and that file's record is in the global listing. |
| Scenarios.DeletedSaleKeepsFiles | api/sales.js:67-70 | Deleting a sale leaves the global file listing unchanged and empties the sale's own listing. |
| Scenarios.DeletedFileLeavesSaleEntry | api/delete.js:31-34 | Deleting a file leaves its id in the sale sets that held it. The sale's listing no longer shows the file. |
| Scenarios.ServerAcceptanceImpliesClient | public/scripts.js:76-90 | Every part the server stores also passes the browser's filter. |
| Scenarios.ClientLooserThanServer | api/upload.js:41-47 | A `.csv` file whose browser type is empty passes the browser's filter, but it arrives as `application/octet-stream` and the server skips it. |

## Left out

- api/download.js is not part of this model. Its only logic is a lookup with a 404 guard, the
  same as in `DeleteFile.Handle`; the rest is a fetch of remote bytes.
- api/test.js (a debug dump) and public/index.js (two fixed paths read from disk) are not part
  of this model.
- The browser's DOM and network code (event wiring, rendering, messages, `loadFiles`,
  `downloadFile`, `deleteFile`, the fetch inside `uploadFiles`) is not modelled.
  `Client.PlanUpload` stops at the decision to send.
- `formatFileSize` is left out because it uses floating-point logarithms and rounding.
- CORS headers are not modelled. The OPTIONS answer is modelled as 200 with an empty body.
- Multipart parsing, the blob SDK and the key-value client are oracles, not their real
  behaviour.
- The clock and randomness are parameters. `now` is an integer in milliseconds. Upload ids,
  upload dates and blob URLs come from the `Upload.Attempt` oracle. ISO date strings are
  integers, so `uploadDate` compares as a number. A record without a parseable date is not
  modelled.
- EditLock.Acquire: the handler reads the clock twice (the age check and the new timestamp).
  The model uses one instant for both.
- Concurrency: each request is one atomic step. The race between two concurrent acquires that
  both see no lock, where the last write wins, is not modelled.
- Store failures other than the modelled oracles are not modelled. This covers the handlers'
  outer catch that answers 500, for example a failing `kv.get` in the edit lock, a failing
  `hgetall` in the delete, or a failing `smembers`.
- A request body that cannot be destructured, which ends in the 500 catch, is not modelled.
- Request fields are strings; JSON numbers, booleans or objects in their place are not
  modelled. A sale record is a map from field names to text values or to the `lastModified`
  stamp.
- The key families are modelled as separate maps. A sale id that makes `sale:<id>` collide with
  another sale's `sale:<id>:files` key is not modelled.
- Client.HasValidExtension: `toLowerCase` is modelled for ASCII letters only.
- Upload.UploadOne: the record write is modelled as a replacement. `hset` merges, but the upload
  writes all seven fields of the record, so the result is the same.
