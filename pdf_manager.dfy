/**
 * `PDFManager.process` and `process_page` of processor/pdf_manager.py.
 *
 * The manager talks to its repository through `create_page_record(doc_id,
 * page_number, gcs_path, gcs_pdf_path)`, `update_page_record(page_id,
 * extracted_text, summary, status, error_message)`, `mark_document_split`
 * and `get_first_n_pages`. db/repository.py defines the first two with other
 * parameters and the last two not at all, so the code as written raises; they
 * are modelled here by `PageStore` as the call sites evidently intend, with
 * contracts limited to what those call sites rely on. Downloading, splitting into images and the two extractors
 * are given as inputs.
 */
module PdfManager {
  import opened Wrappers
  import opened Models

  /** The page record as the manager's calls shape it. */
  datatype PageRecord = PageRecord(
    docId: string,
    pageNumber: nat,
    gcsPath: string,
    gcsPdfPath: string,
    extractedText: Option<string>,
    summary: Option<string>,
    status: PageStatus,
    errorMessage: Option<string>)

  /** What an extractor hands back: a value and an error message, either possibly None. */
  datatype Extraction = Extraction(value: Option<string>, error: Option<string>)

  /** The four values `process_page` returns. */
  datatype PageOutput = PageOutput(text: string, textErr: Option<string>, summary: string, summaryErr: Option<string>)

  /** The status and error message `process` records for one page. */
  datatype Decision = Decision(status: PageStatus, error: Option<string>)

  /** Python truthiness of an optional string: None and "" are false. */
  predicate Truthy(s: Option<string>) {
    s.Some? && s.value != ""
  }

  /**
   * `process_page`: the text from the page image alone, the summary from the
   * page image and the context images; a missing text or summary becomes ""
   * and both errors pass through unchanged.
   */
  function ProcessPage(imagePath: string, context: seq<string>,
                       extractText: string -> Extraction,
                       extractSummary: (string, seq<string>) -> Extraction): (r: PageOutput)
    ensures r.textErr == extractText(imagePath).error
    ensures r.summaryErr == extractSummary(imagePath, context).error
    ensures Truthy(extractText(imagePath).value) ==> r.text == extractText(imagePath).value.value
    ensures !Truthy(extractText(imagePath).value) ==> r.text == ""
    ensures Truthy(extractSummary(imagePath, context).value) ==> r.summary == extractSummary(imagePath, context).value.value
    ensures !Truthy(extractSummary(imagePath, context).value) ==> r.summary == ""
  {
    var t := extractText(imagePath);
    var s := extractSummary(imagePath, context);
    PageOutput(if Truthy(t.value) then t.value.value else "", t.error,
               if Truthy(s.value) then s.value.value else "", s.error)
  }

  /**
   * A page succeeds exactly when neither extractor reported an error; the
   * recorded error is the text error when it is truthy, else the summary
   * error.
   */
  function PageDecision(textErr: Option<string>, summaryErr: Option<string>): (r: Decision)
    ensures r.status == Success <==> textErr.None? && summaryErr.None?
    ensures r.status != Success ==> r.status == PageStatus.Failed
    ensures r.status == Success ==> r.error.None?
    ensures Truthy(textErr) ==> r.error == textErr
    ensures !Truthy(textErr) ==> r.error == summaryErr
  {
    var success := textErr.None? && summaryErr.None?;
    Decision(if success then Success else PageStatus.Failed,
             if Truthy(textErr) then textErr else summaryErr)
  }

  /** A failed page carries an error message whenever the failing extractor's message is non-empty. */
  lemma FailedPageHasMessage(textErr: Option<string>, summaryErr: Option<string>)
    requires Truthy(textErr) || (textErr.None? && Truthy(summaryErr))
    ensures PageDecision(textErr, summaryErr).status == PageStatus.Failed
    ensures PageDecision(textErr, summaryErr).error.Some?
  {
  }

  /** An empty text error still fails the page, but the recorded error then comes from the summary slot and may be None. */
  lemma EmptyTextErrorLosesMessage()
    ensures PageDecision(Some(""), None) == Decision(PageStatus.Failed, None)
  {
  }

  /** The record `create_page_record` is assumed to insert: PENDING, no text, summary or error yet. */
  function Created(docId: string, pageNumber: nat, image: string, pdfPath: string): PageRecord {
    PageRecord(docId, pageNumber, image, pdfPath, None, None, Pending, None)
  }

  /** What `update_page_record` is assumed to do: store the given values, keeping the old error when none is passed. */
  function Updated(rec: PageRecord, text: string, summary: string, status: PageStatus, error: Option<string>): PageRecord {
    rec.(extractedText := Some(text), summary := Some(summary), status := status,
         errorMessage := if error.Some? then error else rec.errorMessage)
  }

  /** Page `pageNumber` of `pdfPath` after `process` has handled it. */
  function Finished(docId: string, pageNumber: nat, image: string, pdfPath: string, context: seq<string>,
                    extractText: string -> Extraction,
                    extractSummary: (string, seq<string>) -> Extraction): PageRecord
  {
    var out := ProcessPage(image, context, extractText, extractSummary);
    var d := PageDecision(out.textErr, out.summaryErr);
    Updated(Created(docId, pageNumber, image, pdfPath), out.text, out.summary, d.status, d.error)
  }

  /**
   * A finished page keeps its identity fields, is SUCCESS exactly when both
   * extractors reported no error, records the decided error, and holds the
   * text and summary `process_page` returned (never None).
   */
  lemma FinishedPage(docId: string, pageNumber: nat, image: string, pdfPath: string, context: seq<string>,
                     extractText: string -> Extraction, extractSummary: (string, seq<string>) -> Extraction)
    ensures var r := Finished(docId, pageNumber, image, pdfPath, context, extractText, extractSummary);
            && r.docId == docId && r.pageNumber == pageNumber && r.gcsPath == image && r.gcsPdfPath == pdfPath
            && (r.status == Success <==> extractText(image).error.None? && extractSummary(image, context).error.None?)
            && (r.status != Success ==> r.status == PageStatus.Failed)
            && (Truthy(extractText(image).error) ==> r.errorMessage == extractText(image).error)
            && (!Truthy(extractText(image).error) ==> r.errorMessage == extractSummary(image, context).error)
            && r.extractedText.Some? && r.summary.Some?
  {
  }

  /** The index of the first document row with this `gcs_path` (the query's `.first()`), if any. */
  function FirstByPath(documents: seq<PDFDocument>, path: string): (r: Option<nat>)
    ensures r.None? <==> forall i :: 0 <= i < |documents| ==> documents[i].gcsPath != path
    ensures r.Some? ==> r.value < |documents| && documents[r.value].gcsPath == path
                        && forall j :: 0 <= j < r.value ==> documents[j].gcsPath != path
  {
    if documents == [] then None
    else if documents[0].gcsPath == path then Some(0)
    else match FirstByPath(documents[1..], path)
      case None => None
      case Some(k) => Some(k + 1)
  }

  // ------------------------------------------------------------------
  // The repository as the manager calls it
  // ------------------------------------------------------------------

  ghost predicate EarlyPagePath(pages: map<nat, PageRecord>, docId: string, n: nat, path: string) {
    exists id :: id in pages && pages[id].docId == docId && 1 <= pages[id].pageNumber <= n && pages[id].gcsPath == path
  }

  class PageStore {
    /** The document table in query order. */
    var documents: seq<PDFDocument>
    var pages: map<nat, PageRecord>
    var nextPageId: nat
    /** The flag `mark_document_split` sets, per doc_id. */
    var split: map<string, bool>
    /** The page ids passed to `update_page_record`, one entry per call. */
    ghost var updateLog: seq<nat>

    ghost predicate Valid()
      reads this
    {
      forall id :: id in pages ==> id < nextPageId
    }

    constructor(documents0: seq<PDFDocument>)
      ensures Valid()
      ensures documents == documents0 && pages == map[] && split == map[] && updateLog == []
    {
      documents := documents0;
      pages := map[];
      nextPageId := 0;
      split := map[];
      updateLog := [];
    }

    /**
     * `create_page_record`: either a fresh page id holding a PENDING record,
     * or a raised error (None) with nothing written.
     */
    method CreatePageRecord(docId: string, pageNumber: nat, image: string, pdfPath: string) returns (pageId: Option<nat>)
      requires Valid()
      modifies this
      ensures Valid()
      ensures pageId.None? ==> pages == old(pages)
      ensures pageId.Some? ==> pageId.value !in old(pages) && pages == old(pages)[pageId.value := Created(docId, pageNumber, image, pdfPath)]
      ensures documents == old(documents) && split == old(split) && updateLog == old(updateLog)
    {
      var accepted: bool :| true;
      if !accepted {
        return None;
      }
      pageId := Some(nextPageId);
      pages := pages[nextPageId := Created(docId, pageNumber, image, pdfPath)];
      nextPageId := nextPageId + 1;
    }

    /** `mark_document_split`. */
    method MarkDocumentSplit(docId: string, success: bool)
      modifies this
      ensures split == old(split)[docId := success]
      ensures documents == old(documents) && pages == old(pages) && nextPageId == old(nextPageId) && updateLog == old(updateLog)
    {
      split := split[docId := success];
    }

    /** `path` is the image of one of this document's pages numbered 1..n. */
    ghost predicate IsEarlyPagePath(docId: string, n: nat, path: string)
      reads this
    {
      EarlyPagePath(pages, docId, n, path)
    }

    /** `get_first_n_pages`: at most n image paths, each of a page of this document numbered 1..n. */
    method GetFirstNPages(docId: string, n: nat) returns (paths: seq<string>)
      ensures |paths| <= n
      ensures forall k :: 0 <= k < |paths| ==> IsEarlyPagePath(docId, n, paths[k])
    {
      paths := [];
      var number := 1;
      while number <= n
        invariant 1 <= number <= n + 1
        invariant |paths| < number
        invariant forall k :: 0 <= k < |paths| ==> IsEarlyPagePath(docId, n, paths[k])
      {
        if id :| id in pages && pages[id].docId == docId && pages[id].pageNumber == number {
          assert IsEarlyPagePath(docId, n, pages[id].gcsPath);
          paths := paths + [pages[id].gcsPath];
        }
        number := number + 1;
      }
    }

    /** `update_page_record` with the four values `process` passes; the call is logged even for an unknown id. */
    method UpdatePageRecord(pageId: nat, text: string, summary: string, status: PageStatus, error: Option<string>)
      requires Valid()
      modifies this
      ensures Valid()
      ensures pageId in old(pages) ==> pages == old(pages)[pageId := Updated(old(pages)[pageId], text, summary, status, error)]
      ensures pageId !in old(pages) ==> pages == old(pages)
      ensures updateLog == old(updateLog) + [pageId]
      ensures documents == old(documents) && split == old(split) && nextPageId == old(nextPageId)
    {
      if pageId in pages {
        pages := pages[pageId := Updated(pages[pageId], text, summary, status, error)];
      }
      updateLog := updateLog + [pageId];
    }
  }

  // ------------------------------------------------------------------
  // process
  // ------------------------------------------------------------------

  datatype ProcessOutcome =
    | NotFound
    | SplitFailed
    | Processed(pageIds: seq<nat>, context: seq<string>)

  predicate DistinctIds(ids: seq<nat>) {
    forall i, j :: 0 <= i < j < |ids| ==> ids[i] != ids[j]
  }

  /**
   * The record-creation loop: page k + 1 for image k, in image order. On a
   * raised error it stops with `ok == false`, keeping the records already
   * written.
   */
  method CreatePages(store: PageStore, docId: string, images: seq<string>, pdfPath: string)
    returns (ok: bool, pageIds: seq<nat>)
    requires store.Valid()
    modifies store
    ensures store.Valid()
    ensures ok ==> |pageIds| == |images|
    ensures |pageIds| <= |images|
    ensures DistinctIds(pageIds)
    ensures forall k :: 0 <= k < |pageIds| ==> pageIds[k] !in old(store.pages)
    ensures forall id :: id in store.pages <==> id in old(store.pages) || id in pageIds
    ensures forall id :: id in old(store.pages) ==> store.pages[id] == old(store.pages)[id]
    ensures forall k :: 0 <= k < |pageIds| ==> store.pages[pageIds[k]] == Created(docId, k + 1, images[k], pdfPath)
    ensures store.documents == old(store.documents) && store.split == old(store.split) && store.updateLog == old(store.updateLog)
  {
    pageIds := [];
    var i := 0;
    while i < |images|
      invariant 0 <= i <= |images| && |pageIds| == i
      invariant store.Valid()
      invariant DistinctIds(pageIds)
      invariant forall k :: 0 <= k < i ==> pageIds[k] !in old(store.pages)
      invariant forall id :: id in store.pages <==> id in old(store.pages) || id in pageIds
      invariant forall id :: id in old(store.pages) ==> store.pages[id] == old(store.pages)[id]
      invariant forall k :: 0 <= k < i ==> store.pages[pageIds[k]] == Created(docId, k + 1, images[k], pdfPath)
      invariant store.documents == old(store.documents) && store.split == old(store.split) && store.updateLog == old(store.updateLog)
    {
      var pageId := store.CreatePageRecord(docId, i + 1, images[i], pdfPath);
      if pageId.None? {
        return false, pageIds;
      }
      assert forall k :: 0 <= k < i ==> pageIds[k] in store.pages;
      pageIds := pageIds + [pageId.value];
      i := i + 1;
    }
    ok := true;
  }

  /** One iteration of the page loop: process the page image, decide its status and error, write them back. */
  method ProcessOne(store: PageStore, pageId: nat, docId: string, pageNumber: nat, image: string, pdfPath: string,
                    context: seq<string>, extractText: string -> Extraction,
                    extractSummary: (string, seq<string>) -> Extraction)
    requires store.Valid()
    requires pageId in store.pages && store.pages[pageId] == Created(docId, pageNumber, image, pdfPath)
    modifies store
    ensures store.Valid()
    ensures store.pages == old(store.pages)[pageId := Finished(docId, pageNumber, image, pdfPath, context, extractText, extractSummary)]
    ensures store.updateLog == old(store.updateLog) + [pageId]
    ensures store.documents == old(store.documents) && store.split == old(store.split)
  {
    var out := ProcessPage(image, context, extractText, extractSummary);
    var d := PageDecision(out.textErr, out.summaryErr);
    store.UpdatePageRecord(pageId, out.text, out.summary, d.status, d.error);
  }

  lemma LogExtends(log: seq<nat>, ids: seq<nat>, j: nat)
    requires j < |ids|
    ensures log + ids[..j] + [ids[j]] == log + ids[..j + 1]
  {
    assert ids[..j + 1] == ids[..j] + [ids[j]];
  }

  /** Two records describe the same page: same document, page number and image path. */
  predicate SamePage(a: PageRecord, b: PageRecord) {
    a.docId == b.docId && a.pageNumber == b.pageNumber && a.gcsPath == b.gcsPath
  }

  /** Every page of `images` as `process` leaves it. */
  function FinishedAll(docId: string, images: seq<string>, pdfPath: string, context: seq<string>,
                       extractText: string -> Extraction,
                       extractSummary: (string, seq<string>) -> Extraction): (r: seq<PageRecord>)
    ensures |r| == |images|
    ensures forall k :: 0 <= k < |images| ==> r[k] == Finished(docId, k + 1, images[k], pdfPath, context, extractText, extractSummary)
  {
    seq(|images|, k requires 0 <= k < |images| => Finished(docId, k + 1, images[k], pdfPath, context, extractText, extractSummary))
  }

  /** The per-page loop: one `update_page_record` per created page, in page order, all with the same context. */
  method ProcessPages(store: PageStore, docId: string, images: seq<string>, pdfPath: string, pageIds: seq<nat>,
                      context: seq<string>, extractText: string -> Extraction,
                      extractSummary: (string, seq<string>) -> Extraction)
    requires store.Valid()
    requires |pageIds| == |images| && DistinctIds(pageIds)
    requires forall k :: 0 <= k < |pageIds| ==> pageIds[k] in store.pages && store.pages[pageIds[k]] == Created(docId, k + 1, images[k], pdfPath)
    modifies store
    ensures store.Valid()
    ensures store.updateLog == old(store.updateLog) + pageIds
    ensures store.pages.Keys == old(store.pages).Keys
    ensures forall id :: id in store.pages && id !in pageIds ==> store.pages[id] == old(store.pages)[id]
    ensures forall k :: 0 <= k < |pageIds| ==>
              store.pages[pageIds[k]] == FinishedAll(docId, images, pdfPath, context, extractText, extractSummary)[k]
    ensures store.documents == old(store.documents) && store.split == old(store.split)
  {
    ghost var targets := FinishedAll(docId, images, pdfPath, context, extractText, extractSummary);
    var j := 0;
    while j < |pageIds|
      invariant 0 <= j <= |pageIds|
      invariant store.Valid()
      invariant store.updateLog == old(store.updateLog) + pageIds[..j]
      invariant store.pages.Keys == old(store.pages).Keys
      invariant forall id :: id in store.pages && id !in pageIds ==> store.pages[id] == old(store.pages)[id]
      invariant forall k :: j <= k < |pageIds| ==> store.pages[pageIds[k]] == old(store.pages)[pageIds[k]]
      invariant forall k :: 0 <= k < j ==> store.pages[pageIds[k]] == targets[k]
      invariant store.documents == old(store.documents) && store.split == old(store.split)
    {
      ProcessOne(store, pageIds[j], docId, j + 1, images[j], pdfPath, context, extractText, extractSummary);
      LogExtends(old(store.updateLog), pageIds, j);
      j := j + 1;
    }
    assert pageIds[..j] == pageIds;
  }

  /**
   * `process`: look the document up by path; with none, change nothing.
   * Otherwise split (`images` is the split result, None when download or
   * splitting raised), create the page records, mark the split outcome,
   * fetch the first five pages as context, and process every page.
   */
  method Process(store: PageStore, pdfPath: string, images: Option<seq<string>>,
                 extractText: string -> Extraction, extractSummary: (string, seq<string>) -> Extraction)
    returns (outcome: ProcessOutcome)
    requires store.Valid()
    modifies store
    ensures store.Valid()
    ensures store.documents == old(store.documents)
    ensures outcome.NotFound? <==> forall i :: 0 <= i < |store.documents| ==> store.documents[i].gcsPath != pdfPath
    ensures outcome.NotFound? ==>
              store.pages == old(store.pages) && store.split == old(store.split) && store.updateLog == old(store.updateLog)
    ensures images.None? && !outcome.NotFound? ==> outcome.SplitFailed? && store.pages == old(store.pages)
    ensures !outcome.NotFound? ==>
              // the document is the first row with the path
              var docId := store.documents[FirstByPath(store.documents, pdfPath).value].docId;
              && (outcome.SplitFailed? ==>
                    && store.split == old(store.split)[docId := false]
                    && store.updateLog == old(store.updateLog)
                    && (forall id :: id in old(store.pages) ==> id in store.pages && store.pages[id] == old(store.pages)[id])
                    && (forall id :: id in store.pages && id !in old(store.pages) ==>
                          images.Some? && exists k :: 0 <= k < |images.value| && store.pages[id] == Created(docId, k + 1, images.value[k], pdfPath)))
              && (outcome.Processed? ==>
                    && images.Some? && |outcome.pageIds| == |images.value| && DistinctIds(outcome.pageIds)
                    && store.split == old(store.split)[docId := true]
                    && store.updateLog == old(store.updateLog) + outcome.pageIds
                    && (forall id :: id in store.pages <==> id in old(store.pages) || id in outcome.pageIds)
                    && (forall id :: id in old(store.pages) ==> store.pages[id] == old(store.pages)[id])
                    && |outcome.context| <= 5
                    && (forall k :: 0 <= k < |outcome.context| ==> store.IsEarlyPagePath(docId, 5, outcome.context[k]))
                    && (forall k :: 0 <= k < |outcome.pageIds| ==>
                          && outcome.pageIds[k] !in old(store.pages)
                          && store.pages[outcome.pageIds[k]]
                             == Finished(docId, k + 1, images.value[k], pdfPath, outcome.context, extractText, extractSummary)))
  {
    var first := FirstByPath(store.documents, pdfPath);
    if first.None? {
      return NotFound;
    }
    var docId := store.documents[first.value].docId;
    if images.None? {
      store.MarkDocumentSplit(docId, false);
      return SplitFailed;
    }
    var ok, pageIds := CreatePages(store, docId, images.value, pdfPath);
    if !ok {
      store.MarkDocumentSplit(docId, false);
      return SplitFailed;
    }
    store.MarkDocumentSplit(docId, true);
    var context := store.GetFirstNPages(docId, 5);
    ghost var before := store.pages;
    assert forall k :: 0 <= k < |context| ==> EarlyPagePath(before, docId, 5, context[k]);
    ProcessPages(store, docId, images.value, pdfPath, pageIds, context, extractText, extractSummary);
    forall k | 0 <= k < |context|
      ensures store.IsEarlyPagePath(docId, 5, context[k])
    {
      var id :| id in before && before[id].docId == docId && 1 <= before[id].pageNumber <= 5 && before[id].gcsPath == context[k];
      if id in pageIds {
        var j :| 0 <= j < |pageIds| && pageIds[j] == id;
        assert store.pages[id] == Finished(docId, j + 1, images.value[j], pdfPath, context, extractText, extractSummary);
        assert SamePage(store.pages[id], before[id]);
      } else {
        assert store.pages[id] == before[id];
      }
    }
    outcome := Processed(pageIds, context);
  }
}
