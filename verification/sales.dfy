/**
 Sale records (api/sales.js): GET lists every indexed sale with a non-empty
 record, POST upserts a record at `sale:<saleId>` stamped with
 `lastModified` and indexes it in `sales:all`, DELETE removes the record,
 the sale's file index and its `sales:all` membership, but leaves the
 files themselves and `files:all` alone.
 */
module Sales {
  import opened Common
  import opened Store

  /** `saleId` and `saleData` come from the JSON body, `querySaleId` from the query string. */
  datatype Request = Request(
    verb: HttpMethod,
    saleId: Option<string>,
    saleData: Option<SaleRecord>,
    querySaleId: Option<string>)

  datatype Body =
    | NoContent
    | Failure(error: string)
    | Listing(sales: map<string, SaleRecord>)
    | Saved(message: string, saleId: string, saleData: SaleRecord)
    | Deleted(message: string, saleId: string)

  const LastModified := "lastModified"

  /** A sale id that GET reports: indexed in `sales:all`, its record could be fetched
      (it is not among the `unreadable` ids whose fetch throws) and has at least one field. */
  predicate Listed(st: Store, unreadable: set<string>, id: string) {
    id in st.salesAll && id !in unreadable && id in st.sales && |st.sales[id]| > 0
  }

  /** GET: walks `sales:all` in whatever order the store yields it. */
  method ListSales(st: Store, unreadable: set<string>) returns (sales: map<string, SaleRecord>)
    ensures forall id :: id in sales <==> Listed(st, unreadable, id)
    ensures forall id :: id in sales ==> id in st.sales && sales[id] == st.sales[id]
  {
    sales := map[];
    var todo := st.salesAll;
    while todo != {}
      invariant todo <= st.salesAll
      invariant forall id :: id in sales <==> id !in todo && Listed(st, unreadable, id)
      invariant forall id :: id in sales ==> id in st.sales && sales[id] == st.sales[id]
      decreases todo
    {
      var id :| id in todo;
      if id !in unreadable && id in st.sales && |st.sales[id]| > 0 {
        sales := sales[id := st.sales[id]];
      }
      todo := todo - {id};
    }
  }

  /** The record `hgetall` returns for `sale:<id>`; a missing key has no fields. */
  function RecordOf(st: Store, id: string): SaleRecord {
    if id in st.sales then st.sales[id] else map[]
  }

  /** POST: `hset` merges the stamped data into whatever record is there. */
  function Save(st: Store, saleId: Option<string>, saleData: Option<SaleRecord>, now: int): (r: Reply<Body>)
    ensures r.status == StatusOk <==> Truthy(saleId) && saleData.Some?
    ensures r.status != StatusOk ==> r.status == StatusBadRequest && r.store == st
    ensures r.status == StatusOk ==>
              var id, rec := saleId.value, RecordOf(r.store, saleId.value);
              && id in r.store.sales
              && rec.Keys == RecordOf(st, id).Keys + saleData.value.Keys + {LastModified}
              && rec[LastModified] == Stamp(now)
              && (forall f :: f in saleData.value && f != LastModified ==> rec[f] == saleData.value[f])
              && (forall f :: f in RecordOf(st, id) && f !in saleData.value && f != LastModified ==>
                    rec[f] == RecordOf(st, id)[f])
              && r.store.salesAll == st.salesAll + {id}
              && (forall s :: s != id ==> (s in r.store.sales <==> s in st.sales))
              && (forall s :: s != id && s in st.sales ==> r.store.sales[s] == st.sales[s])
              && r.store == st.(sales := r.store.sales, salesAll := r.store.salesAll)
              && r.body == Saved("Sale saved successfully", id, saleData.value[LastModified := Stamp(now)])
  {
    if !Truthy(saleId) || saleData.None? then
      Reply(st, StatusBadRequest, Failure("Sale ID and data are required"))
    else
      var id := saleId.value;
      var stamped := saleData.value[LastModified := Stamp(now)];
      var merged := RecordOf(st, id) + stamped;
      Reply(st.(sales := st.sales[id := merged], salesAll := st.salesAll + {id}), StatusOk,
            Saved("Sale saved successfully", id, stamped))
  }

  /** DELETE: three key-value calls; the sale's files keep their records and `files:all` entries. */
  function Remove(st: Store, saleId: Option<string>): (r: Reply<Body>)
    ensures r.status == StatusOk <==> Truthy(saleId)
    ensures r.status != StatusOk ==> r.status == StatusBadRequest && r.store == st
    ensures r.status == StatusOk ==>
              var id := saleId.value;
              && id !in r.store.sales && id !in r.store.salesAll && SaleFileIds(r.store, id) == {}
              && r.store.sales == st.sales - {id}
              && r.store.salesAll == st.salesAll - {id}
              && (forall s :: s != id ==> SaleFileIds(r.store, s) == SaleFileIds(st, s))
              && r.store.files == st.files && r.store.filesAll == st.filesAll
              && r.store.locks == st.locks && r.store.blobs == st.blobs
  {
    if !Truthy(saleId) then
      Reply(st, StatusBadRequest, Failure("Sale ID is required"))
    else
      var id := saleId.value;
      Reply(st.(sales := st.sales - {id}, saleFiles := st.saleFiles - {id}, salesAll := st.salesAll - {id}),
            StatusOk, Deleted("Sale deleted successfully", id))
  }

  /** The whole handler: dispatch on the HTTP method. */
  method Handle(st: Store, req: Request, now: int, unreadable: set<string>) returns (r: Reply<Body>)
    ensures req.verb == OPTIONS ==> r == Reply(st, StatusOk, NoContent)
    ensures req.verb == GET ==>
              && r.store == st && r.status == StatusOk && r.body.Listing?
              && (forall id :: id in r.body.sales <==> Listed(st, unreadable, id))
              && (forall id :: id in r.body.sales ==> id in st.sales && r.body.sales[id] == st.sales[id])
    ensures req.verb == POST ==> r == Save(st, req.saleId, req.saleData, now)
    ensures req.verb == DELETE ==> r == Remove(st, req.querySaleId)
    ensures req.verb.OtherMethod? ==> r.status == StatusMethodNotAllowed && r.store == st
  {
    match req.verb
    case OPTIONS =>
      r := Reply(st, StatusOk, NoContent);
    case GET =>
      var sales := ListSales(st, unreadable);
      r := Reply(st, StatusOk, Listing(sales));
    case POST =>
      r := Save(st, req.saleId, req.saleData, now);
    case DELETE =>
      r := Remove(st, req.querySaleId);
    case OtherMethod(_) =>
      r := Reply(st, StatusMethodNotAllowed, Failure("Method not allowed"));
  }

  /* ---------- Saving and deleting, seen through the listing ---------- */

  /** A saved sale is listed afterwards (unless its fetch fails), with its new stamp. */
  lemma SavedSaleIsListed(st: Store, saleId: string, data: SaleRecord, now: int, unreadable: set<string>)
    requires saleId != "" && saleId !in unreadable
    ensures var st' := Save(st, Some(saleId), Some(data), now).store;
            Listed(st', unreadable, saleId) && st'.sales[saleId][LastModified] == Stamp(now)
  {
  }

  /** Saving never hides another sale from the listing, nor reveals one. */
  lemma SaveKeepsOtherListings(st: Store, saleId: Option<string>, data: Option<SaleRecord>, now: int,
                               unreadable: set<string>, other: string)
    requires !Truthy(saleId) || other != saleId.value
    ensures Listed(Save(st, saleId, data, now).store, unreadable, other) <==> Listed(st, unreadable, other)
  {
  }

  /** Saving the same data twice at the same instant leaves the store as saving it once. */
  lemma SaveIdempotent(st: Store, saleId: Option<string>, data: Option<SaleRecord>, now: int)
    ensures var once := Save(st, saleId, data, now);
            Save(once.store, saleId, data, now) == once
  {
    var once := Save(st, saleId, data, now);
    if once.status == StatusOk {
      var id, stamped := saleId.value, data.value[LastModified := Stamp(now)];
      assert RecordOf(once.store, id) + stamped == RecordOf(st, id) + stamped;
      assert once.store.sales[id := RecordOf(st, id) + stamped] == once.store.sales;
    }
  }

  /** A deleted sale is no longer listed, and deleting it again gives the same store. */
  lemma DeletedSaleUnlisted(st: Store, saleId: string, unreadable: set<string>)
    requires saleId != ""
    ensures var st' := Remove(st, Some(saleId)).store;
            !Listed(st', unreadable, saleId) && Remove(st', Some(saleId)).store == st'
  {
    var st' := Remove(st, Some(saleId)).store;
    assert st'.saleFiles - {saleId} == st'.saleFiles;
  }
}
