/**
 The file listing (api/files.js): take the ids of one sale's file index or of
 `files:all`, fetch each record, keep those that were fetched and carry an
 `id`, and order them by upload date, newest first. Nothing is written.
 */
module Files {
  import opened Common
  import opened Store

  /** `saleId` comes from the query string. */
  datatype Request = Request(verb: HttpMethod, saleId: Option<string>)

  datatype Body = NoContent | Failure(error: string) | Listing(files: seq<FileMeta>)

  /** The index the listing reads: the sale's set when a sale id is given, else `files:all`. */
  function SourceIds(st: Store, saleId: Option<string>): set<string> {
    if Truthy(saleId) then SaleFileIds(st, saleId.value) else st.filesAll
  }

  /** A record the listing keeps: present, fetched without error, with a non-empty `id`. */
  predicate Kept(st: Store, unreadable: set<string>, id: string) {
    id in st.files && id !in unreadable && st.files[id].id != ""
  }

  /** The ids whose records a listing returns. */
  function KeptIds(st: Store, saleId: Option<string>, unreadable: set<string>): set<string> {
    set id | id in SourceIds(st, saleId) && Kept(st, unreadable, id)
  }

  /** The upload date of the record behind `id` (0 for an id without one). */
  function DateOf(files: map<string, FileMeta>, id: string): int {
    if id in files then files[id].uploadDate else 0
  }

  predicate NoDuplicates(ids: seq<string>) {
    forall i, j :: 0 <= i < j < |ids| ==> ids[i] != ids[j]
  }

  /** Ids ordered by the upload date of their records, newest first. */
  predicate NewestFirst(files: map<string, FileMeta>, ids: seq<string>) {
    forall i, j :: 0 <= i < j < |ids| ==> DateOf(files, ids[i]) >= DateOf(files, ids[j])
  }

  /** Insert one id into a newest-first sequence, before the first id that is not newer. */
  function Insert(files: map<string, FileMeta>, id: string, sorted: seq<string>): (r: seq<string>)
    requires NewestFirst(files, sorted)
    ensures NewestFirst(files, r)
    ensures |r| == |sorted| + 1
    ensures forall x :: x in r <==> x in sorted || x == id
    ensures NoDuplicates(sorted) && id !in sorted ==> NoDuplicates(r)
    decreases |sorted|
  {
    if |sorted| == 0 || DateOf(files, id) >= DateOf(files, sorted[0]) then [id] + sorted
    else
      var rest := Insert(files, id, sorted[1..]);
      InsertStepKeepsOrder(files, id, sorted, rest);
      InsertStepKeepsDistinct(id, sorted, rest);
      [sorted[0]] + rest
  }

  /** The recursive step of `Insert` puts the head of `sorted` before ids that are not newer. */
  lemma InsertStepKeepsOrder(files: map<string, FileMeta>, id: string, sorted: seq<string>, rest: seq<string>)
    requires |sorted| > 0 && NewestFirst(files, sorted) && DateOf(files, id) < DateOf(files, sorted[0])
    requires NewestFirst(files, rest)
    requires forall x :: x in rest ==> x in sorted[1..] || x == id
    ensures NewestFirst(files, [sorted[0]] + rest)
  {
    var r := [sorted[0]] + rest;
    forall i, j | 0 <= i < j < |r| ensures DateOf(files, r[i]) >= DateOf(files, r[j]) {
      if i == 0 {
        assert r[j] in rest;
        if r[j] != id {
          var k :| 0 <= k < |sorted[1..]| && sorted[1..][k] == r[j];
          assert sorted[k + 1] == r[j];
        }
      } else {
        assert r[i] == rest[i - 1] && r[j] == rest[j - 1];
      }
    }
  }

  /** The recursive step of `Insert` keeps the ids distinct. */
  lemma InsertStepKeepsDistinct(id: string, sorted: seq<string>, rest: seq<string>)
    requires |sorted| > 0
    requires forall x :: x in rest ==> x in sorted[1..] || x == id
    requires NoDuplicates(sorted[1..]) && id !in sorted[1..] ==> NoDuplicates(rest)
    ensures NoDuplicates(sorted) && id !in sorted ==> NoDuplicates([sorted[0]] + rest)
  {
    if NoDuplicates(sorted) && id !in sorted {
      forall k | 0 <= k < |sorted[1..]| ensures sorted[1..][k] != sorted[0] {
        assert sorted[k + 1] != sorted[0];
      }
      forall i, j | 0 <= i < j < |sorted[1..]| ensures sorted[1..][i] != sorted[1..][j] {
        assert sorted[i + 1] != sorted[j + 1];
      }
      var r := [sorted[0]] + rest;
      forall i, j | 0 <= i < j < |r| ensures r[i] != r[j] {
        if i == 0 {
          assert r[j] in rest;
        } else {
          assert r[i] == rest[i - 1] && r[j] == rest[j - 1];
        }
      }
    }
  }

  /** `files.sort((a, b) => date(b) - date(a))`, on the ids of the records. */
  method SortNewestFirst(files: map<string, FileMeta>, ids: seq<string>) returns (sorted: seq<string>)
    requires NoDuplicates(ids)
    ensures NewestFirst(files, sorted)
    ensures NoDuplicates(sorted)
    ensures |sorted| == |ids|
    ensures forall x :: x in sorted <==> x in ids
  {
    sorted := [];
    var i := 0;
    while i < |ids|
      invariant 0 <= i <= |ids|
      invariant NewestFirst(files, sorted)
      invariant NoDuplicates(sorted)
      invariant |sorted| == i
      invariant forall x :: x in sorted <==> x in ids[..i]
    {
      assert ids[i] !in ids[..i];
      sorted := Insert(files, ids[i], sorted);
      assert ids[..i + 1] == ids[..i] + [ids[i]];
      i := i + 1;
    }
    assert ids[..i] == ids;
  }

  /** Walk the chosen index in whatever order the store yields it, keep the readable records
      that carry an id, then sort. `ids` are the keys behind the returned records, in order. */
  method ListFiles(st: Store, saleId: Option<string>, unreadable: set<string>)
    returns (files: seq<FileMeta>, ids: seq<string>)
    ensures |files| == |ids|
    ensures forall i :: 0 <= i < |ids| ==> ids[i] in st.files && files[i] == st.files[ids[i]]
    ensures forall id :: id in ids <==> id in KeptIds(st, saleId, unreadable)
    ensures NoDuplicates(ids)
    ensures forall i, j :: 0 <= i < j < |files| ==> files[i].uploadDate >= files[j].uploadDate
  {
    var source := SourceIds(st, saleId);
    var kept: seq<string> := [];
    var todo := source;
    while todo != {}
      invariant todo <= source
      invariant forall id :: id in kept <==> id in source && id !in todo && Kept(st, unreadable, id)
      invariant NoDuplicates(kept)
      decreases todo
    {
      var id :| id in todo;
      if Kept(st, unreadable, id) {
        kept := kept + [id];
      }
      todo := todo - {id};
    }
    ids := SortNewestFirst(st.files, kept);
    assert forall i :: 0 <= i < |ids| ==> ids[i] in st.files by {
      forall i | 0 <= i < |ids| ensures ids[i] in st.files {
        assert ids[i] in ids;
      }
    }
    files := seq(|ids|, i requires 0 <= i < |ids| => st.files[ids[i]]);
    assert forall i :: 0 <= i < |ids| ==> files[i].uploadDate == DateOf(st.files, ids[i]);
  }

  /** The whole handler. The store is only read. */
  method Handle(st: Store, req: Request, unreadable: set<string>) returns (r: Reply<Body>, ids: seq<string>)
    ensures r.store == st
    ensures req.verb == OPTIONS ==> r.status == StatusOk && r.body == NoContent
    ensures req.verb != OPTIONS && req.verb != GET ==> r.status == StatusMethodNotAllowed
    ensures req.verb == GET ==>
              && r.status == StatusOk && r.body.Listing?
              && |r.body.files| == |ids|
              && (forall i :: 0 <= i < |ids| ==> ids[i] in st.files && r.body.files[i] == st.files[ids[i]])
              && (forall id :: id in ids <==> id in KeptIds(st, req.saleId, unreadable))
              && NoDuplicates(ids)
              && (forall i, j :: 0 <= i < j < |ids| ==> r.body.files[i].uploadDate >= r.body.files[j].uploadDate)
  {
    ids := [];
    if req.verb == OPTIONS {
      r := Reply(st, StatusOk, NoContent);
    } else if req.verb != GET {
      r := Reply(st, StatusMethodNotAllowed, Failure("Method not allowed"));
    } else {
      var files;
      files, ids := ListFiles(st, req.saleId, unreadable);
      r := Reply(st, StatusOk, Listing(files));
    }
  }
}
