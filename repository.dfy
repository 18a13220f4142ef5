/**
 * The `Repository` of db/repository.py, in that file's own record shape:
 * documents carry `gcs_path`, `processed` and `processed_at`; pages carry
 * `document_id`, `page_number`, `gcs_path`, `extracted_text`,
 * `description`, `status` and `error_message`. The document table is a
 * sequence in query order; the page table is keyed by an autoincrement id.
 */
module Repository {
  import opened Wrappers
  import opened Models

  datatype DocRow = DocRow(gcsPath: string, processed: int, processedAt: Option<int>)

  datatype PageRow = PageRow(
    documentId: int,
    pageNumber: int,
    gcsPath: string,
    extractedText: Option<string>,
    description: Option<string>,
    status: PageStatus,
    errorMessage: Option<string>)

  /** The keyword arguments of `update_page_record`; `None` means "not passed". */
  datatype PageUpdate = PageUpdate(
    extractedText: Option<string>,
    description: Option<string>,
    status: Option<PageStatus>,
    errorMessage: Option<string>)

  // ------------------------------------------------------------------
  // Pure queries
  // ------------------------------------------------------------------

  /** Some row of the table has this `gcs_path`. */
  predicate HasPath(rows: seq<DocRow>, path: string) {
    exists i :: 0 <= i < |rows| && rows[i].gcsPath == path
  }

  /** The index of the first row with this `gcs_path` (what `.first()` returns), if any. */
  function FirstWithPath(rows: seq<DocRow>, path: string): (r: Option<nat>)
    ensures r.None? <==> !HasPath(rows, path)
    ensures r.Some? ==> r.value < |rows| && rows[r.value].gcsPath == path
                        && forall j :: 0 <= j < r.value ==> rows[j].gcsPath != path
  {
    if rows == [] then None
    else if rows[0].gcsPath == path then Some(0)
    else match FirstWithPath(rows[1..], path)
      case None => None
      case Some(k) => Some(k + 1)
  }

  /** The rows with `processed == 0`, in table order. */
  function PendingRows(rows: seq<DocRow>): (r: seq<DocRow>)
    ensures |r| <= |rows|
    ensures forall x :: x in r <==> x in rows && x.processed == 0
  {
    if rows == [] then []
    else
      var rest := PendingRows(rows[..|rows| - 1]);
      var last := rows[|rows| - 1];
      assert forall x :: x in rows <==> x in rows[..|rows| - 1] || x == last;
      if last.processed == 0 then rest + [last] else rest
  }

  /** The pending filter keeps table order: filtering a concatenation concatenates the filtered halves. */
  lemma {:induction false} PendingRowsAppend(a: seq<DocRow>, b: seq<DocRow>)
    ensures PendingRows(a + b) == PendingRows(a) + PendingRows(b)
  {
    if b != [] {
      var n := |b| - 1;
      assert (a + b)[..|a + b| - 1] == a + b[..n];
      PendingRowsAppend(a, b[..n]);
    } else {
      assert a + b == a;
    }
  }

  /** `update_page_record`'s field-wise rule: a passed (non-None) argument overwrites, anything else stays. */
  function Overwrite(row: PageRow, u: PageUpdate): (r: PageRow)
    ensures r.documentId == row.documentId && r.pageNumber == row.pageNumber && r.gcsPath == row.gcsPath
    ensures u.extractedText.Some? ==> r.extractedText == u.extractedText
    ensures u.extractedText.None? ==> r.extractedText == row.extractedText
    ensures u.description.Some? ==> r.description == u.description
    ensures u.description.None? ==> r.description == row.description
    ensures u.status.Some? ==> r.status == u.status.value
    ensures u.status.None? ==> r.status == row.status
    ensures u.errorMessage.Some? ==> r.errorMessage == u.errorMessage
    ensures u.errorMessage.None? ==> r.errorMessage == row.errorMessage
  {
    row.(extractedText := if u.extractedText.Some? then u.extractedText else row.extractedText,
         description := if u.description.Some? then u.description else row.description,
         status := if u.status.Some? then u.status.value else row.status,
         errorMessage := if u.errorMessage.Some? then u.errorMessage else row.errorMessage)
  }

  /** An update never resets a field that holds a value back to None. */
  lemma OverwriteNeverClears(row: PageRow, u: PageUpdate)
    ensures row.extractedText.Some? ==> Overwrite(row, u).extractedText.Some?
    ensures row.description.Some? ==> Overwrite(row, u).description.Some?
    ensures row.errorMessage.Some? ==> Overwrite(row, u).errorMessage.Some?
  {
  }

  /** Two updates in a row act as one update in which the later argument wins field by field. */
  function Then(first: PageUpdate, second: PageUpdate): PageUpdate {
    PageUpdate(
      if second.extractedText.Some? then second.extractedText else first.extractedText,
      if second.description.Some? then second.description else first.description,
      if second.status.Some? then second.status else first.status,
      if second.errorMessage.Some? then second.errorMessage else first.errorMessage)
  }

  lemma OverwriteCompose(row: PageRow, first: PageUpdate, second: PageUpdate)
    ensures Overwrite(Overwrite(row, first), second) == Overwrite(row, Then(first, second))
  {
  }

  /** Repeating an update changes nothing more, and an update passing no argument changes nothing. */
  lemma OverwriteIdempotent(row: PageRow, u: PageUpdate)
    ensures Overwrite(Overwrite(row, u), u) == Overwrite(row, u)
    ensures Overwrite(row, PageUpdate(None, None, None, None)) == row
  {
  }

  /** The row `create_page_record` inserts: PENDING, with no text, description or error yet. */
  function NewPageRow(documentId: int, pageNumber: int, gcsPath: string): PageRow {
    PageRow(documentId, pageNumber, gcsPath, None, None, Pending, None)
  }

  // ------------------------------------------------------------------
  // The repository over its session
  // ------------------------------------------------------------------

  class Repository {
    var documents: seq<DocRow>
    var pages: map<nat, PageRow>
    /** The page table's autoincrement counter. */
    var nextPageId: nat

    ghost predicate Valid()
      reads this
    {
      forall id :: id in pages ==> id < nextPageId
    }

    constructor(documents0: seq<DocRow>)
      ensures Valid()
      ensures documents == documents0 && pages == map[]
    {
      documents := documents0;
      pages := map[];
      nextPageId := 0;
    }

    /** `document_exists`. */
    method DocumentExists(path: string) returns (b: bool)
      ensures b <==> exists i :: 0 <= i < |documents| && documents[i].gcsPath == path
    {
      b := HasPath(documents, path);
    }

    /** `create_document`: appends one unprocessed row; the path then exists. */
    method CreateDocument(path: string) returns (row: DocRow)
      modifies this
      ensures row.gcsPath == path && row.processed == 0 && row.processedAt.None?
      ensures documents == old(documents) + [row]
      ensures pages == old(pages) && nextPageId == old(nextPageId)
      ensures HasPath(documents, path)
    {
      row := DocRow(path, 0, None);
      documents := documents + [row];
      assert documents[|documents| - 1].gcsPath == path;
    }

    /** `get_pending_documents`. */
    method GetPendingDocuments() returns (rows: seq<DocRow>)
      ensures rows == PendingRows(documents)
      ensures forall x :: x in rows <==> x in documents && x.processed == 0
    {
      rows := PendingRows(documents);
    }

    /** `mark_document_processed`: the first row with the path gets processed = 1 and the time `now`; with no such row nothing changes. */
    method MarkDocumentProcessed(path: string, now: int)
      modifies this
      ensures pages == old(pages) && nextPageId == old(nextPageId)
      ensures !HasPath(old(documents), path) ==> documents == old(documents)
      ensures HasPath(old(documents), path) ==>
                var i := FirstWithPath(old(documents), path).value;
                documents == old(documents)[i := old(documents)[i].(processed := 1, processedAt := Some(now))]
    {
      var first := FirstWithPath(documents, path);
      if first.Some? {
        var i := first.value;
        documents := documents[i := documents[i].(processed := 1, processedAt := Some(now))];
      }
    }

    /** `create_page_record`: a fresh page id holding a PENDING row with no text, description or error. */
    method CreatePageRecord(documentId: int, pageNumber: int, gcsPath: string) returns (pageId: nat, page: PageRow)
      requires Valid()
      modifies this
      ensures Valid()
      ensures pageId !in old(pages)
      ensures page == NewPageRow(documentId, pageNumber, gcsPath)
      ensures page.status == Pending && page.extractedText.None? && page.description.None? && page.errorMessage.None?
      ensures pages == old(pages)[pageId := page]
      ensures documents == old(documents)
    {
      pageId := nextPageId;
      page := NewPageRow(documentId, pageNumber, gcsPath);
      pages := pages[pageId := page];
      nextPageId := nextPageId + 1;
    }

    /** `update_page_record`: an unknown id changes nothing; otherwise only the passed fields are overwritten. */
    method UpdatePageRecord(pageId: nat, u: PageUpdate)
      requires Valid()
      modifies this
      ensures Valid()
      ensures pageId !in old(pages) ==> pages == old(pages)
      ensures pageId in old(pages) ==> pages == old(pages)[pageId := Overwrite(old(pages)[pageId], u)]
      ensures documents == old(documents) && nextPageId == old(nextPageId)
    {
      if pageId !in pages {
        return;
      }
      pages := pages[pageId := Overwrite(pages[pageId], u)];
    }

    /** `get_failed_pages`: every FAILED page once, in the order the query returns them. */
    method GetFailedPages() returns (ids: seq<nat>)
      ensures forall i, j :: 0 <= i < j < |ids| ==> ids[i] != ids[j]
      ensures forall id :: id in ids <==> id in pages && pages[id].status == PageStatus.Failed
    {
      ids := [];
      var remaining := pages.Keys;
      while remaining != {}
        invariant remaining <= pages.Keys
        invariant forall i, j :: 0 <= i < j < |ids| ==> ids[i] != ids[j]
        invariant forall id :: id in ids ==> id !in remaining
        invariant forall id :: id in ids <==> id in pages && id !in remaining && pages[id].status == PageStatus.Failed
        decreases remaining
      {
        var id :| id in remaining;
        if pages[id].status == PageStatus.Failed {
          ids := ids + [id];
        }
        remaining := remaining - {id};
      }
    }
  }
}
