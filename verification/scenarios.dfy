/**
 Properties that span several handlers: what an upload makes visible in the
 listing, what deleting a sale or a file leaves behind, and how the
 browser's filter relates to the server's.
 */
module Scenarios {
  import opened Common
  import opened Store
  import Upload
  import Files
  import Sales
  import DeleteFile
  import Client

  /** Uploading one csv file of at most 10 MiB, with every store call succeeding, answers with
      exactly one record, and the global listing then returns that record. */
  lemma UploadedCsvIsListed(st: Store, name: string, size: nat, a: Upload.Attempt, unreadable: set<string>)
    requires size <= MaxUploadBytes
    requires a.BlobStored? && a.writesDone >= 2 && a.fileId != "" && a.fileId !in unreadable
    ensures var form := Upload.Form(Upload.Single(Upload.Part(name, Some(CsvType), size)), [], []);
            var r := Upload.Handle(st, Upload.Request(POST, Some(form)), [a]);
            && |r.body.files| == 1 && r.body.count == 1
            && a.fileId in Files.KeptIds(r.store, None, unreadable)
            && r.store.files[a.fileId] == r.body.files[0]
  {
    var form := Upload.Form(Upload.Single(Upload.Part(name, Some(CsvType), size)), [], []);
    var entries := [Some(Upload.Part(name, Some(CsvType), size))];
    assert Upload.FileArray(form.files) == entries;
    assert entries[1..] == [] && [a][1..] == [];
    var one := Upload.UploadOne(st, entries[0], a, form);
    assert Upload.UploadAll(one.0, [], [], form) == (one.0, []);
    assert one.1 + [] == one.1;
    assert Upload.UploadAll(st, entries, [a], form) == one;
  }

  /** Deleting a sale leaves the global file listing as it was (the sale's files stay listed),
      while the sale's own listing becomes empty. */
  lemma DeletedSaleKeepsFiles(st: Store, saleId: string, unreadable: set<string>)
    requires saleId != ""
    ensures var st' := Sales.Remove(st, Some(saleId)).store;
            && Files.KeptIds(st', None, unreadable) == Files.KeptIds(st, None, unreadable)
            && Files.KeptIds(st', Some(saleId), unreadable) == {}
  {
  }

  /** Deleting a file leaves its id in every sale index that held it; the sale's listing
      skips it from then on because its record is gone. */
  lemma DeletedFileLeavesSaleEntry(st: Store, fileId: string, saleId: string, blobDeleted: bool,
                                   unreadable: set<string>)
    requires fileId != "" && saleId != ""
    requires DeleteFile.Found(st, fileId) && fileId in SaleFileIds(st, saleId)
    ensures var st' := DeleteFile.Handle(st, DeleteFile.Request(DELETE, Some(fileId)), blobDeleted, 2).store;
            fileId in SaleFileIds(st', saleId) && fileId !in Files.KeptIds(st', Some(saleId), unreadable)
  {
  }

  /** Every part the server stores would also pass the browser's filter. */
  lemma ServerAcceptanceImpliesClient(p: Upload.Part)
    requires Upload.Accepts(p)
    ensures Client.ClientAccepts(Client.BrowserFile(p.originalFilename, p.contentType.value, p.size))
  {
  }

  /** The converse fails: a `.csv` file whose browser `type` is empty passes the browser's
      filter, but it travels as `application/octet-stream` and the server, which looks only at
      the content type, skips it. */
  lemma ClientLooserThanServer()
    ensures Client.ClientAccepts(Client.BrowserFile("report.csv", "", 10))
    ensures !Upload.Accepts(Upload.Part("report.csv", Some("application/octet-stream"), 10))
  {
    var lower := Lower("report.csv");
    assert lower == "report.csv";
    assert lower[6..] == ".csv";
  }
}
