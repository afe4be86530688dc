/**
 The abstract state behind every handler: the key-value store, seen as one
 map or set per key family, together with the set of URLs the blob store
 currently holds. Each handler is a step from one `Store` to the next.
 */
module Store {
  import opened Common

  /** The hash record written at `file:<id>` by an upload. An empty `id` or
      `blobUrl` stands for the field being absent or empty in the record. */
  datatype FileMeta = FileMeta(
    id: string,
    filename: string,
    uploadDate: int,        // milliseconds since the epoch
    blobUrl: string,
    size: nat,
    uploader: string,
    contentType: string)

  /** A field of a sale record: caller-supplied text, or the server's `lastModified` stamp. */
  datatype Value = Text(text: string) | Stamp(millis: int)

  /** The hash record at `sale:<id>`: an arbitrary field mapping. */
  type SaleRecord = map<string, Value>

  /** The value at `solis_edit_lock:<saleId>`. */
  datatype Lock = Lock(userId: string, saleId: string, timestamp: int)

  datatype Store = Store(
    files: map<string, FileMeta>,           // file:<id>
    filesAll: set<string>,                  // files:all
    saleFiles: map<string, set<string>>,    // sale:<id>:files
    sales: map<string, SaleRecord>,         // sale:<id>
    salesAll: set<string>,                  // sales:all
    locks: map<string, Lock>,               // solis_edit_lock:<id>
    blobs: set<string>)                     // URLs held by the blob store

  /** What one request does: the store afterwards, the HTTP status and the JSON body. */
  datatype Reply<B> = Reply(store: Store, status: int, body: B)

  /** `smembers('sale:<id>:files')`: a missing key reads as the empty set. */
  function SaleFileIds(st: Store, saleId: string): set<string> {
    if saleId in st.saleFiles then st.saleFiles[saleId] else {}
  }

  /** `sadd('sale:<id>:files', fileId)`. */
  function AddSaleFile(st: Store, saleId: string, fileId: string): (st': Store)
    ensures SaleFileIds(st', saleId) == SaleFileIds(st, saleId) + {fileId}
    ensures forall s :: s != saleId ==> SaleFileIds(st', s) == SaleFileIds(st, s)
    ensures st' == st.(saleFiles := st'.saleFiles)
  {
    st.(saleFiles := st.saleFiles[saleId := SaleFileIds(st, saleId) + {fileId}])
  }
}
