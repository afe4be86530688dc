/**
 The per-file loop of the upload handler (api/upload.js). Each multipart
 file part is filtered (allowed MIME type, at most 10 MiB), its bytes are
 put in the blob store, a metadata record is written at `file:<id>`, the id
 joins `files:all` and, when a sale is named, `sale:<saleId>:files`. A part
 whose storage fails is skipped; the request still answers 200 with the
 files that made it.

 The blob store's and key-value store's behaviour for each part is an
 oracle, an `Attempt`: either `put` threw, or it returned a URL, the clock
 and random suffix gave an id and an upload date, and some number of the
 key-value writes completed before one threw (or all of them did).
 */
module Upload {
  import opened Common
  import opened Store

  /** A file part as the multipart parser delivers it. */
  datatype Part = Part(originalFilename: string, contentType: Option<string>, size: nat)

  /** `files.files`: missing, a single part, or a list whose entries may be missing. */
  datatype FilesField = Absent | Single(part: Part) | Several(entries: seq<Option<Part>>)

  /** The parsed form. A text field is the list of its values; the empty list means the
      field was not sent (the parser never produces an empty list for a sent field). */
  datatype Form = Form(files: FilesField, uploader: seq<string>, saleId: seq<string>)

  /** `form` is `None` when the multipart body could not be parsed. */
  datatype Request = Request(verb: HttpMethod, form: Option<Form>)

  /** What storing one accepted part did. `writesDone` counts the key-value writes
      (`hset` of the record, `sadd` to `files:all`, `sadd` to the sale's set) that
      completed before one threw; a count at or above the number needed means none threw. */
  datatype Attempt = BlobFailed | BlobStored(blobUrl: string, fileId: string, uploadDate: int, writesDone: nat)

  datatype Body = NoContent | Failure(error: string) | Uploaded(count: nat, files: seq<FileMeta>)

  /** `Array.isArray(files.files) ? files.files : [files.files]`. */
  function FileArray(f: FilesField): seq<Option<Part>> {
    match f
    case Absent => [None]
    case Single(p) => [Some(p)]
    case Several(entries) => entries
  }

  /** The server's filter: the content type is one of the three allowed ones (no fallback on the
      file name) and the size is at most 10 MiB. */
  predicate Accepts(p: Part) {
    p.contentType.Some? && AllowedType(p.contentType.value) && p.size <= MaxUploadBytes
  }

  /** `fields.uploader ? fields.uploader[0] : 'Anonymous'`. */
  function Uploader(form: Form): string {
    if |form.uploader| > 0 then form.uploader[0] else "Anonymous"
  }

  /** `fields.saleId && fields.saleId[0]`. */
  predicate NamesSale(form: Form) {
    |form.saleId| > 0 && form.saleId[0] != ""
  }

  /** How many key-value writes storing one part takes. */
  function WritesNeeded(form: Form): nat {
    if NamesSale(form) then 3 else 2
  }

  /** The record written for an accepted part. */
  function Metadata(p: Part, a: Attempt, form: Form): FileMeta
    requires a.BlobStored? && p.contentType.Some?
  {
    FileMeta(a.fileId, p.originalFilename, a.uploadDate, a.blobUrl, p.size, Uploader(form), p.contentType.value)
  }

  /** The entry ends up in the response: present, accepted, and every store call succeeded. */
  predicate Stored(entry: Option<Part>, a: Attempt, form: Form) {
    entry.Some? && Accepts(entry.value) && a.BlobStored? && a.writesDone >= WritesNeeded(form)
  }

  /** The response's file list, defined from the parts and their outcomes alone. */
  function Returned(entries: seq<Option<Part>>, attempts: seq<Attempt>, form: Form): (r: seq<FileMeta>)
    requires |attempts| == |entries|
    ensures |r| <= |entries|
    ensures forall f :: f in r ==>
              AllowedType(f.contentType) && f.size <= MaxUploadBytes && f.uploader == Uploader(form)
    decreases |entries|
  {
    if |entries| == 0 then []
    else
      var first := if Stored(entries[0], attempts[0], form) then [Metadata(entries[0].value, attempts[0], form)] else [];
      first + Returned(entries[1..], attempts[1..], form)
  }

  /** `st'` extends `st` with upload writes only: sales and locks are untouched, and the file
      records, both kinds of file index and the blob store only grow. */
  ghost predicate OnlyGrowsFiles(st: Store, st': Store) {
    && st'.sales == st.sales && st'.salesAll == st.salesAll && st'.locks == st.locks
    && st.files.Keys <= st'.files.Keys && st.filesAll <= st'.filesAll && st.blobs <= st'.blobs
    && forall s :: SaleFileIds(st, s) <= SaleFileIds(st', s)
  }

  /** Every write from `st` to `st'` lands on one of `ids` or `urls`: records of other ids keep
      their value, `files:all` gains only ids from `ids`, the blob store gains only `urls`, and
      only the named sale's set gains anything (again only ids from `ids`). */
  ghost predicate WritesOnly(st: Store, st': Store, ids: set<string>, urls: set<string>, form: Form) {
    && st'.files.Keys <= st.files.Keys + ids
    && (forall id :: id in st.files && id !in ids ==> id in st'.files && st'.files[id] == st.files[id])
    && st'.filesAll <= st.filesAll + ids
    && st'.blobs <= st.blobs + urls
    && forall s :: SaleFileIds(st', s) <= SaleFileIds(st, s) + (if NamesSale(form) && s == form.saleId[0] then ids else {})
  }

  /** The file ids the attempts were given (attempts whose `put` threw have none). */
  function StoredIds(attempts: seq<Attempt>): set<string> {
    if |attempts| == 0 then {}
    else (if attempts[0].BlobStored? then {attempts[0].fileId} else {}) + StoredIds(attempts[1..])
  }

  /** The blob URLs the attempts were given. */
  function StoredUrls(attempts: seq<Attempt>): set<string> {
    if |attempts| == 0 then {}
    else (if attempts[0].BlobStored? then {attempts[0].blobUrl} else {}) + StoredUrls(attempts[1..])
  }

  /** No two successful `put`s were given the same file id (the clock and random suffix differ). */
  predicate DistinctIds(attempts: seq<Attempt>) {
    forall i, j :: 0 <= i < j < |attempts| && attempts[i].BlobStored? && attempts[j].BlobStored? ==>
      attempts[i].fileId != attempts[j].fileId
  }

  /** One pass of the loop body for one entry. A stored blob is followed by the record at
      `file:<id>`, the `files:all` entry and the sale's set entry, in that order, each only if
      the writes before it completed. */
  function UploadOne(st: Store, entry: Option<Part>, a: Attempt, form: Form): (r: (Store, seq<FileMeta>))
    ensures r.1 == (if Stored(entry, a, form) then [Metadata(entry.value, a, form)] else [])
    ensures OnlyGrowsFiles(st, r.0)
    ensures entry.None? || !Accepts(entry.value) || a.BlobFailed? ==> r.0 == st
    ensures entry.Some? && Accepts(entry.value) && a.BlobStored? ==>
              && r.0.blobs == st.blobs + {a.blobUrl}
              && r.0.files == (if a.writesDone >= 1 then st.files[a.fileId := Metadata(entry.value, a, form)] else st.files)
              && r.0.filesAll == (if a.writesDone >= 2 then st.filesAll + {a.fileId} else st.filesAll)
              && (forall s :: SaleFileIds(r.0, s) ==
                    if NamesSale(form) && a.writesDone >= 3 && s == form.saleId[0] then SaleFileIds(st, s) + {a.fileId}
                    else SaleFileIds(st, s))
    ensures Stored(entry, a, form) ==>
              && a.fileId in r.0.files && r.0.files[a.fileId] == Metadata(entry.value, a, form)
              && r.0.filesAll == st.filesAll + {a.fileId}
    ensures Stored(entry, a, form) && NamesSale(form) ==> a.fileId in SaleFileIds(r.0, form.saleId[0])
    ensures !NamesSale(form) ==> r.0.saleFiles == st.saleFiles
    ensures WritesOnly(st, r.0, StoredIds([a]), StoredUrls([a]), form)
  {
    assert [a][1..] == [];
    if entry.None? || !Accepts(entry.value) || a.BlobFailed? then (st, [])
    else
      var meta := Metadata(entry.value, a, form);
      var put := st.(blobs := st.blobs + {a.blobUrl});
      var record := if a.writesDone >= 1 then put.(files := put.files[a.fileId := meta]) else put;
      var indexed := if a.writesDone >= 2 then record.(filesAll := record.filesAll + {a.fileId}) else record;
      var filed := if NamesSale(form) && a.writesDone >= 3 then AddSaleFile(indexed, form.saleId[0], a.fileId)
                   else indexed;
      (filed, if a.writesDone >= WritesNeeded(form) then [meta] else [])
  }

  /** Writes confined to `ids1` followed by writes confined to `ids2` are confined to both. */
  lemma WritesOnlyCompose(st: Store, st1: Store, st2: Store, ids1: set<string>, urls1: set<string>,
                          ids2: set<string>, urls2: set<string>, form: Form)
    requires OnlyGrowsFiles(st, st1)
    requires WritesOnly(st, st1, ids1, urls1, form) && WritesOnly(st1, st2, ids2, urls2, form)
    ensures WritesOnly(st, st2, ids1 + ids2, urls1 + urls2, form)
  {
    forall s ensures SaleFileIds(st2, s) <= SaleFileIds(st, s) + (if NamesSale(form) && s == form.saleId[0] then ids1 + ids2 else {}) {
      assert SaleFileIds(st2, s) <= SaleFileIds(st1, s) + (if NamesSale(form) && s == form.saleId[0] then ids2 else {});
      assert SaleFileIds(st1, s) <= SaleFileIds(st, s) + (if NamesSale(form) && s == form.saleId[0] then ids1 else {});
    }
  }

  /** Under `DistinctIds`, the first attempt's id is given to no later attempt. */
  lemma {:induction false} FirstIdNotReused(attempts: seq<Attempt>)
    requires |attempts| > 0 && attempts[0].BlobStored? && DistinctIds(attempts)
    ensures attempts[0].fileId !in StoredIds(attempts[1..])
  {
    var k := 1;
    while k < |attempts|
      invariant 1 <= k <= |attempts|
      invariant attempts[0].fileId !in StoredIds(attempts[k..]) ==> attempts[0].fileId !in StoredIds(attempts[1..])
      decreases |attempts| - k
    {
      assert attempts[k..][1..] == attempts[k + 1..];
      k := k + 1;
    }
    assert attempts[k..] == [];
  }

  /** The loop over all entries, in order. */
  function UploadAll(st: Store, entries: seq<Option<Part>>, attempts: seq<Attempt>, form: Form): (r: (Store, seq<FileMeta>))
    requires |attempts| == |entries|
    ensures r.1 == Returned(entries, attempts, form)
    ensures OnlyGrowsFiles(st, r.0)
    ensures WritesOnly(st, r.0, StoredIds(attempts), StoredUrls(attempts), form)
    ensures forall f :: f in r.1 ==> f.id in r.0.files && f.id in r.0.filesAll
    ensures DistinctIds(attempts) ==> forall f :: f in r.1 ==> r.0.files[f.id] == f
    ensures NamesSale(form) ==> forall f :: f in r.1 ==> f.id in SaleFileIds(r.0, form.saleId[0])
    ensures !NamesSale(form) ==> r.0.saleFiles == st.saleFiles
    decreases |entries|
  {
    if |entries| == 0 then (st, [])
    else
      var (st1, first) := UploadOne(st, entries[0], attempts[0], form);
      var (st2, rest) := UploadAll(st1, entries[1..], attempts[1..], form);
      assert StoredIds(attempts) == StoredIds([attempts[0]]) + StoredIds(attempts[1..]);
      assert StoredUrls(attempts) == StoredUrls([attempts[0]]) + StoredUrls(attempts[1..]);
      WritesOnlyCompose(st, st1, st2, StoredIds([attempts[0]]), StoredUrls([attempts[0]]),
                        StoredIds(attempts[1..]), StoredUrls(attempts[1..]), form);
      assert DistinctIds(attempts) && first != [] ==> attempts[0].fileId !in StoredIds(attempts[1..]) by {
        if DistinctIds(attempts) && first != [] {
          FirstIdNotReused(attempts);
        }
      }
      (st2, first + rest)
  }

  function Handle(st: Store, req: Request, attempts: seq<Attempt>): (r: Reply<Body>)
    requires req.form.Some? ==> |attempts| == |FileArray(req.form.value.files)|
    ensures req.verb == OPTIONS ==> r == Reply(st, StatusOk, NoContent)
    ensures req.verb != OPTIONS && req.verb != POST ==> r.status == StatusMethodNotAllowed && r.store == st
    ensures req.verb == POST && req.form.None? ==> r.status == StatusInternal && r.store == st
    ensures req.verb == POST && req.form.Some? ==>
              && r.status == StatusOk
              && r.body.Uploaded?
              && r.body.count == |r.body.files|
              && r.body.files == Returned(FileArray(req.form.value.files), attempts, req.form.value)
              && OnlyGrowsFiles(st, r.store)
              && WritesOnly(st, r.store, StoredIds(attempts), StoredUrls(attempts), req.form.value)
              && (forall f :: f in r.body.files ==> f.id in r.store.files && f.id in r.store.filesAll)
              && (DistinctIds(attempts) ==> forall f :: f in r.body.files ==> r.store.files[f.id] == f)
              && (NamesSale(req.form.value) ==>
                    forall f :: f in r.body.files ==> f.id in SaleFileIds(r.store, req.form.value.saleId[0]))
              && (!NamesSale(req.form.value) ==> r.store.saleFiles == st.saleFiles)
  {
    if req.verb == OPTIONS then Reply(st, StatusOk, NoContent)
    else if req.verb != POST then Reply(st, StatusMethodNotAllowed, Failure("Method not allowed"))
    else if req.form.None? then Reply(st, StatusInternal, Failure("Failed to parse form data"))
    else
      var (st', uploaded) := UploadAll(st, FileArray(req.form.value.files), attempts, req.form.value);
      Reply(st', StatusOk, Uploaded(|uploaded|, uploaded))
  }

  /* ---------- Properties of the loop ---------- */

  /** The response list of a concatenation is the concatenation of the response lists. */
  lemma {:induction false} ReturnedSplit(xs: seq<Option<Part>>, ax: seq<Attempt>, ys: seq<Option<Part>>, ay: seq<Attempt>, form: Form)
    requires |ax| == |xs| && |ay| == |ys|
    ensures Returned(xs + ys, ax + ay, form) == Returned(xs, ax, form) + Returned(ys, ay, form)
    decreases |xs|
  {
    if |xs| == 0 {
      assert xs + ys == ys && ax + ay == ay;
    } else {
      assert (xs + ys)[1..] == xs[1..] + ys && (ax + ay)[1..] == ax[1..] + ay;
      ReturnedSplit(xs[1..], ax[1..], ys, ay, form);
    }
  }

  /** A part whose storage fails is skipped and nothing else changes: the response is the
      response for the parts before it followed by the response for the parts after it. */
  lemma FailureSkipsOnlyThatFile(entries: seq<Option<Part>>, attempts: seq<Attempt>, form: Form, i: nat)
    requires |attempts| == |entries| && i < |entries|
    ensures Returned(entries, attempts[i := BlobFailed], form)
         == Returned(entries[..i], attempts[..i], form) + Returned(entries[i+1..], attempts[i+1..], form)
  {
    var failed := attempts[i := BlobFailed];
    assert entries == entries[..i] + ([entries[i]] + entries[i+1..]);
    assert failed == attempts[..i] + ([BlobFailed] + attempts[i+1..]);
    ReturnedSplit(entries[..i], attempts[..i], [entries[i]] + entries[i+1..], [BlobFailed] + attempts[i+1..], form);
    ReturnedSplit([entries[i]], [BlobFailed], entries[i+1..], attempts[i+1..], form);
  }

  /** The number of entries the server's filter lets through. */
  function CountAccepted(entries: seq<Option<Part>>): (n: nat)
    ensures n <= |entries|
  {
    if |entries| == 0 then 0
    else (if entries[0].Some? && Accepts(entries[0].value) then 1 else 0) + CountAccepted(entries[1..])
  }

  /** Every store call succeeds for every part. */
  predicate Healthy(attempts: seq<Attempt>, form: Form) {
    forall a :: a in attempts ==> a.BlobStored? && a.writesDone >= WritesNeeded(form)
  }

  /** When no store call fails, every accepted part appears in the response. */
  lemma {:induction false} HealthyStoreKeepsEveryAccepted(entries: seq<Option<Part>>, attempts: seq<Attempt>, form: Form)
    requires |attempts| == |entries| && Healthy(attempts, form)
    ensures |Returned(entries, attempts, form)| == CountAccepted(entries)
    decreases |entries|
  {
    if |entries| > 0 {
      assert attempts[0] in attempts;
      assert Healthy(attempts[1..], form) by {
        forall a | a in attempts[1..] ensures a.BlobStored? && a.writesDone >= WritesNeeded(form) {
          assert a in attempts;
        }
      }
      HealthyStoreKeepsEveryAccepted(entries[1..], attempts[1..], form);
    }
  }

  /** Parts the filter refuses (or missing entries) leave the store exactly as it was and
      produce an empty response, whatever the store would have done with them. */
  lemma {:induction false} RejectedPartsLeaveStoreUntouched(st: Store, entries: seq<Option<Part>>, attempts: seq<Attempt>, form: Form)
    requires |attempts| == |entries|
    requires forall e :: e in entries ==> e.None? || !Accepts(e.value)
    ensures UploadAll(st, entries, attempts, form) == (st, [])
    decreases |entries|
  {
    if |entries| > 0 {
      assert entries[0] in entries;
      assert forall e :: e in entries[1..] ==> e in entries;
      RejectedPartsLeaveStoreUntouched(st, entries[1..], attempts[1..], form);
    }
  }

  /** A single part is handled exactly like a one-element list of parts. */
  lemma SingleActsAsList(st: Store, verb: HttpMethod, p: Part, uploader: seq<string>, saleId: seq<string>, a: Attempt)
    ensures Handle(st, Request(verb, Some(Form(Single(p), uploader, saleId))), [a]).store
         == Handle(st, Request(verb, Some(Form(Several([Some(p)]), uploader, saleId))), [a]).store
    ensures Handle(st, Request(verb, Some(Form(Single(p), uploader, saleId))), [a]).body
         == Handle(st, Request(verb, Some(Form(Several([Some(p)]), uploader, saleId))), [a]).body
  {
    var f1, f2 := Form(Single(p), uploader, saleId), Form(Several([Some(p)]), uploader, saleId);
    assert FileArray(f1.files) == FileArray(f2.files) == [Some(p)];
    assert UploadOne(st, Some(p), a, f1) == UploadOne(st, Some(p), a, f2);
    assert [Some(p)][1..] == [] && [a][1..] == [];
    assert UploadAll(st, [Some(p)], [a], f1) == UploadAll(st, [Some(p)], [a], f2);
  }

  /** Exactly 10 MiB passes the size filter; one byte more does not. */
  lemma TenMiBBoundary(name: string, t: string)
    requires AllowedType(t)
    ensures Accepts(Part(name, Some(t), 10 * 1024 * 1024))
    ensures !Accepts(Part(name, Some(t), 10 * 1024 * 1024 + 1))
  {
  }
}
