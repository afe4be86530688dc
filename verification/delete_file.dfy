/**
 Deleting one uploaded file (api/delete.js): look up `file:<fileId>`, answer
 404 when it is missing or has no blob URL, try to delete the bytes from the
 blob store (a failure is tolerated), then delete the record and the id's
 `files:all` membership. Per-sale file indexes are not touched.

 The blob store's answer is the `blobDeleted` oracle; `metaWritesDone`
 counts how many of the two key-value deletions completed before one threw
 (two or more means neither threw).
 */
module DeleteFile {
  import opened Common
  import opened Store
  import Files

  /** `fileId` comes from the query string. */
  datatype Request = Request(verb: HttpMethod, fileId: Option<string>)

  datatype Body = Failure(error: string) | Deleted(message: string, deletedFile: string)

  /** The record exists and names a blob, so the delete goes ahead. */
  predicate Found(st: Store, fileId: string) {
    fileId in st.files && st.files[fileId].blobUrl != ""
  }

  /** The handler. There is no OPTIONS branch: any method but DELETE is refused. */
  function Handle(st: Store, req: Request, blobDeleted: bool, metaWritesDone: nat): (r: Reply<Body>)
    ensures req.verb != DELETE ==> r.status == StatusMethodNotAllowed && r.store == st
    ensures req.verb == DELETE && !Truthy(req.fileId) ==> r.status == StatusBadRequest && r.store == st
    ensures req.verb == DELETE && Truthy(req.fileId) ==>
              (r.status == StatusNotFound <==> !Found(st, req.fileId.value))
    ensures r.status == StatusNotFound ==> r.store == st
    ensures r.status == StatusOk <==>
              req.verb == DELETE && Truthy(req.fileId) && Found(st, req.fileId.value) && metaWritesDone >= 2
    ensures r.status == StatusOk ==>
              var id := req.fileId.value;
              && r.store.files == st.files - {id}
              && r.store.filesAll == st.filesAll - {id}
              && r.store.saleFiles == st.saleFiles
              && r.store.sales == st.sales && r.store.salesAll == st.salesAll && r.store.locks == st.locks
              && r.body == Deleted("File deleted successfully", st.files[id].filename)
    ensures req.verb == DELETE && Truthy(req.fileId) && Found(st, req.fileId.value) ==>
              r.store.blobs == (if blobDeleted then st.blobs - {st.files[req.fileId.value].blobUrl} else st.blobs)
    ensures req.verb == DELETE && Truthy(req.fileId) && Found(st, req.fileId.value) && metaWritesDone < 2 ==>
              var id := req.fileId.value;
              && r.status == StatusInternal
              && r.body == Failure("Failed to delete file metadata")
              && (id in r.store.files <==> metaWritesDone == 0)
              && r.store.files == (if metaWritesDone == 0 then st.files else st.files - {id})
              && r.store.filesAll == st.filesAll
              && r.store.saleFiles == st.saleFiles
              && r.store.sales == st.sales && r.store.salesAll == st.salesAll && r.store.locks == st.locks
  {
    if req.verb != DELETE then Reply(st, StatusMethodNotAllowed, Failure("Method not allowed"))
    else if !Truthy(req.fileId) then Reply(st, StatusBadRequest, Failure("File ID is required"))
    else
      var id := req.fileId.value;
      if !Found(st, id) then Reply(st, StatusNotFound, Failure("File not found"))
      else
        var meta := st.files[id];
        // a failed blob deletion is logged and ignored
        var afterBlob := if blobDeleted then st.(blobs := st.blobs - {meta.blobUrl}) else st;
        var unrecorded := if metaWritesDone >= 1 then afterBlob.(files := afterBlob.files - {id}) else afterBlob;
        var unindexed := if metaWritesDone >= 2 then unrecorded.(filesAll := unrecorded.filesAll - {id}) else unrecorded;
        if metaWritesDone < 2 then Reply(unindexed, StatusInternal, Failure("Failed to delete file metadata"))
        else Reply(unindexed, StatusOk, Deleted("File deleted successfully", meta.filename))
  }

  /** The blob store's answer changes neither the status nor the metadata the delete leaves. */
  lemma BlobFailureTolerated(st: Store, req: Request, metaWritesDone: nat)
    ensures var ok, failed := Handle(st, req, true, metaWritesDone), Handle(st, req, false, metaWritesDone);
            ok.status == failed.status && ok.body == failed.body &&
            ok.store.(blobs := st.blobs) == failed.store.(blobs := st.blobs)
  {
  }

  /** Deleting the same file again answers 404. */
  lemma SecondDeleteNotFound(st: Store, fileId: string, b1: bool, w1: nat, b2: bool, w2: nat)
    requires Handle(st, Request(DELETE, Some(fileId)), b1, w1).status == StatusOk
    ensures var st' := Handle(st, Request(DELETE, Some(fileId)), b1, w1).store;
            Handle(st', Request(DELETE, Some(fileId)), b2, w2).status == StatusNotFound
  {
  }

  /** Once its record is deleted a file drops out of every listing, even when the second
      deletion (`files:all`) failed and the request answered 500. */
  lemma DeletedFileNotListed(st: Store, fileId: string, blobDeleted: bool, metaWritesDone: nat,
                             saleId: Option<string>, unreadable: set<string>)
    requires fileId != "" && Found(st, fileId) && metaWritesDone >= 1
    ensures var st' := Handle(st, Request(DELETE, Some(fileId)), blobDeleted, metaWritesDone).store;
            fileId !in Files.KeptIds(st', saleId, unreadable)
  {
  }
}
