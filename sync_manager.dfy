/**
 * sync/sync_manager.py: `sync_with_gcs` and the three change handlers.
 *
 * The repository operations the handlers call (`update_document_status`,
 * `get_doc_id_by_content_hash`, `exists_document`, two-argument
 * `create_document`, `update_content_hash`, `sync_page_status_with_documents`,
 * `get_processing_stats`) are not defined in db/repository.py; `DocumentStore`
 * gives each of them the behaviour its call sites rely on, over the
 * doc_id-keyed document table and page_id-keyed page table of db/models.py.
 * A write that raises is modelled by two sets of doc_ids: `rejected`, whose
 * rows the database refuses to create or to change the status of, and
 * `hashRejected`, whose content hash it refuses to store. Creating the row and
 * storing its hash are two separate calls, so a row can be created and then
 * left without a hash. The two-argument `create_document` is taken to write a
 * row with no hash yet, as `get_db_files` expects; db/models.py declares
 * `content_hash` NOT NULL, so such a row breaks that schema constraint, and
 * `KeysAgree` therefore does not require `Models.Storable`.
 */
module SyncManager {
  import opened Wrappers
  import opened Models
  import ChangeDetector

  /** The counters `get_processing_stats` reports (the completion rate, a float, is left out). */
  datatype Stats = Stats(totalActivePages: nat, completedPages: nat, remainingPages: nat)

  /** A page counts as completed once all four stages have succeeded. */
  predicate Completed(p: PDFPage) {
    p.extracted == Success && p.summarized == Success && p.embedded == Success && p.indexed == Success
  }

  function ActivePageIds(pages: map<string, PDFPage>): set<string> {
    set id | id in pages && pages[id].status == Active
  }

  function CompletedPageIds(pages: map<string, PDFPage>): (r: set<string>)
    ensures r <= ActivePageIds(pages)
  {
    set id | id in pages && pages[id].status == Active && Completed(pages[id])
  }

  lemma SubsetCardinality(a: set<string>, b: set<string>)
    requires a <= b
    ensures |a| <= |b|
  {
    if a != {} {
      var x :| x in a;
      SubsetCardinality(a - {x}, b - {x});
    }
  }

  /** Every page takes its owning document's activity status. */
  function SyncedPages(pages: map<string, PDFPage>, documents: map<string, PDFDocument>): (r: map<string, PDFPage>)
    ensures r.Keys == pages.Keys
    ensures forall id :: id in r && pages[id].docId in documents ==> r[id] == pages[id].(status := documents[pages[id].docId].status)
    ensures forall id :: id in r && pages[id].docId !in documents ==> r[id] == pages[id]
  {
    map id | id in pages :: if pages[id].docId in documents then pages[id].(status := documents[pages[id].docId].status) else pages[id]
  }

  function SetStatus(documents: map<string, PDFDocument>, docId: string, status: DocumentStatus): (r: map<string, PDFDocument>)
    ensures r.Keys == documents.Keys
    ensures docId in documents ==> r[docId] == documents[docId].(status := status)
    ensures forall id :: id in documents && id != docId ==> r[id] == documents[id]
  {
    if docId in documents then documents[docId := documents[docId].(status := status)] else documents
  }

  /** Primary keys agree with the rows, and every page's owner exists. */
  ghost predicate KeysAgree(documents: map<string, PDFDocument>, pages: map<string, PDFPage>) {
    && (forall id :: id in documents ==> documents[id].docId == id)
    && (forall id :: id in pages ==> pages[id].pageId == id && pages[id].docId in documents)
  }

  class DocumentStore {
    var documents: map<string, PDFDocument>
    var pages: map<string, PDFPage>
    const rejected: set<string>
    const hashRejected: set<string>

    ghost predicate Valid()
      reads this
    {
      KeysAgree(documents, pages)
    }

    constructor (documents: map<string, PDFDocument>, pages: map<string, PDFPage>, rejected: set<string>, hashRejected: set<string>)
      requires KeysAgree(documents, pages)
      ensures Valid()
      ensures this.documents == documents && this.pages == pages
      ensures this.rejected == rejected && this.hashRejected == hashRejected
    {
      this.documents := documents;
      this.pages := pages;
      this.rejected := rejected;
      this.hashRejected := hashRejected;
    }

    /** `update_document_status(doc_id, status)`: raises for a rejected row; an unknown doc_id is left alone. */
    method UpdateDocumentStatus(docId: string, status: DocumentStatus) returns (ok: bool)
      requires Valid()
      modifies this
      ensures Valid()
      ensures ok == (docId !in rejected)
      ensures documents == if ok then SetStatus(old(documents), docId, status) else old(documents)
      ensures pages == old(pages)
    {
      ok := docId !in rejected;
      if ok {
        documents := SetStatus(documents, docId, status);
      }
    }

    /** `get_doc_id_by_content_hash(h)`: some document holding that hash, or None when there is none. */
    method GetDocIdByContentHash(h: string) returns (r: Option<string>)
      ensures PickOk(documents, h, r)
    {
      if exists id :: id in documents && documents[id].contentHash == Some(h) {
        var id :| id in documents && documents[id].contentHash == Some(h);
        r := Some(id);
      } else {
        r := None;
      }
    }

    /** `exists_document(doc_id)`. */
    method ExistsDocument(docId: string) returns (b: bool)
      ensures b <==> docId in documents
    {
      b := docId in documents;
    }

    /** Two-argument `create_document(doc_id, path)`: a new ACTIVE row without a content hash yet. */
    method CreateDocument(docId: string, path: string) returns (ok: bool)
      requires Valid()
      modifies this
      ensures Valid()
      ensures ok == (docId !in rejected && docId !in old(documents))
      ensures documents == if ok then old(documents)[docId := NewDocument(docId, path, None)] else old(documents)
      ensures pages == old(pages)
    {
      ok := docId !in rejected && docId !in documents;
      if ok {
        documents := documents[docId := NewDocument(docId, path, None)];
      }
    }

    /** `update_content_hash(doc_id, h)`: raises for a doc_id whose hash the database refuses. */
    method UpdateContentHash(docId: string, h: string) returns (ok: bool)
      requires Valid()
      modifies this
      ensures Valid()
      ensures ok == (docId !in hashRejected)
      ensures ok && docId in old(documents) ==> documents == old(documents)[docId := old(documents)[docId].(contentHash := Some(h))]
      ensures !ok || docId !in old(documents) ==> documents == old(documents)
      ensures pages == old(pages)
    {
      ok := docId !in hashRejected;
      if ok && docId in documents {
        documents := documents[docId := documents[docId].(contentHash := Some(h))];
      }
    }

    /** `sync_page_status_with_documents()`: every page mirrors its document's activity status. */
    method SyncPageStatusWithDocuments()
      requires Valid()
      modifies this
      ensures Valid()
      ensures documents == old(documents)
      ensures pages == SyncedPages(old(pages), documents)
      ensures forall id :: id in pages ==> pages[id].status == documents[pages[id].docId].status
    {
      pages := SyncedPages(pages, documents);
    }

    /** `get_processing_stats()`: ACTIVE pages, how many of them are done, and how many remain. */
    method GetProcessingStats() returns (s: Stats)
      ensures s.totalActivePages == |ActivePageIds(pages)|
      ensures s.completedPages == |CompletedPageIds(pages)|
      ensures s.completedPages + s.remainingPages == s.totalActivePages
    {
      SubsetCardinality(CompletedPageIds(pages), ActivePageIds(pages));
      var total := |ActivePageIds(pages)|;
      var done := |CompletedPageIds(pages)|;
      s := Stats(total, done, total - done);
    }

    /** The rows of the document table, each once, in an order the database chooses. */
    method AllDocuments() returns (rows: seq<PDFDocument>)
      requires Valid()
      ensures forall k :: 0 <= k < |rows| ==> rows[k].docId in documents && documents[rows[k].docId] == rows[k]
      ensures forall id :: id in documents ==> documents[id] in rows
      ensures forall j, k :: 0 <= j < k < |rows| ==> rows[j].docId != rows[k].docId
    {
      rows := [];
      var remaining := documents.Keys;
      while remaining != {}
        invariant remaining <= documents.Keys
        invariant forall k :: 0 <= k < |rows| ==> rows[k].docId in documents - remaining && documents[rows[k].docId] == rows[k]
        invariant forall id :: id in documents && id !in remaining ==> documents[id] in rows
        invariant forall j, k :: 0 <= j < k < |rows| ==> rows[j].docId != rows[k].docId
        decreases remaining
      {
        var id :| id in remaining;
        rows := rows + [documents[id]];
        remaining := remaining - {id};
      }
    }
  }

  /** What the lookup by content hash may return: a holder of the hash, or None when nobody holds it. */
  predicate PickOk(documents: map<string, PDFDocument>, h: string, pick: Option<string>) {
    match pick
    case Some(id) => id in documents && documents[id].contentHash == Some(h)
    case None => forall id :: id in documents ==> documents[id].contentHash != Some(h)
  }

  // ------------------------------------------------------------------
  // One item of each handler, and the whole list
  // ------------------------------------------------------------------

  /** One deleted file: its document becomes INACTIVE unless the write raises. */
  function DeleteStep(documents: map<string, PDFDocument>, f: ChangeDetector.FileInfo, rejected: set<string>): map<string, PDFDocument> {
    if f.docId in rejected then documents else SetStatus(documents, f.docId, Inactive)
  }

  function DeletedAll(documents: map<string, PDFDocument>, files: seq<ChangeDetector.FileInfo>, rejected: set<string>): map<string, PDFDocument> {
    if files == [] then documents
    else DeleteStep(DeletedAll(documents, files[..|files| - 1], rejected), files[|files| - 1], rejected)
  }

  /**
   * The row a file registration leaves: `create_document` writes an ACTIVE row
   * without a hash, and `update_content_hash` then stores the hash unless that
   * second write raises.
   */
  function Registered(docId: string, path: string, h: string, hashRejected: set<string>): PDFDocument {
    NewDocument(docId, path, if docId in hashRejected then None else Some(h))
  }

  /**
   * One moved triple, given what the lookup by hash returned: the found
   * document becomes INACTIVE, then the new path's document is created with
   * the hash unless it exists. A raise (a rejected write, a failing
   * `compute_doc_hash`) ends the item where it happens.
   */
  function MoveStep(documents: map<string, PDFDocument>, m: ChangeDetector.Move, pick: Option<string>,
                    docHash: string -> Option<string>, rejected: set<string>, hashRejected: set<string>): map<string, PDFDocument>
  {
    var found := pick.Some? && pick.value != "";
    if found && pick.value in rejected then documents
    else
      var afterOld := if found then SetStatus(documents, pick.value, Inactive) else documents;
      match docHash(m.newPath)
      case None => afterOld
      case Some(newId) =>
        if newId in afterOld || newId in rejected then afterOld
        else afterOld[newId := Registered(newId, m.newPath, m.contentHash, hashRejected)]
  }

  function MovedAll(documents: map<string, PDFDocument>, moves: seq<ChangeDetector.Move>, picks: seq<Option<string>>,
                    docHash: string -> Option<string>, rejected: set<string>, hashRejected: set<string>): map<string, PDFDocument>
    requires |picks| == |moves|
  {
    if moves == [] then documents
    else
      var n := |moves| - 1;
      MoveStep(MovedAll(documents, moves[..n], picks[..n], docHash, rejected, hashRejected), moves[n], picks[n], docHash, rejected, hashRejected)
  }

  /** Each lookup answered against the table as the earlier items left it. */
  ghost predicate ValidPicks(documents: map<string, PDFDocument>, moves: seq<ChangeDetector.Move>, picks: seq<Option<string>>,
                             docHash: string -> Option<string>, rejected: set<string>, hashRejected: set<string>)
    requires |picks| == |moves|
  {
    moves == [] ||
    var n := |moves| - 1;
    && ValidPicks(documents, moves[..n], picks[..n], docHash, rejected, hashRejected)
    && PickOk(MovedAll(documents, moves[..n], picks[..n], docHash, rejected, hashRejected), moves[n].contentHash, picks[n])
  }

  /** One new file: registered only when its doc_id is not in the table. */
  function NewStep(documents: map<string, PDFDocument>, f: ChangeDetector.FileInfo,
                   rejected: set<string>, hashRejected: set<string>): map<string, PDFDocument> {
    if f.docId in documents || f.docId in rejected then documents
    else documents[f.docId := Registered(f.docId, f.path, f.contentHash, hashRejected)]
  }

  function NewAll(documents: map<string, PDFDocument>, files: seq<ChangeDetector.FileInfo>,
                  rejected: set<string>, hashRejected: set<string>): map<string, PDFDocument> {
    if files == [] then documents
    else NewStep(NewAll(documents, files[..|files| - 1], rejected, hashRejected), files[|files| - 1], rejected, hashRejected)
  }

  // ------------------------------------------------------------------
  // What the handlers do to the table
  // ------------------------------------------------------------------

  /**
   * After the deleted list: every listed document whose write is accepted is
   * INACTIVE, whatever happened to the other items; no row is added or
   * removed, and a row no item names is untouched.
   */
  lemma {:induction false} DeletedAllEffect(documents: map<string, PDFDocument>, files: seq<ChangeDetector.FileInfo>, rejected: set<string>)
    ensures DeletedAll(documents, files, rejected).Keys == documents.Keys
    ensures forall f :: f in files && f.docId in documents && f.docId !in rejected ==>
              DeletedAll(documents, files, rejected)[f.docId] == documents[f.docId].(status := Inactive)
    ensures forall id :: id in documents && (forall f :: f in files ==> f.docId != id) ==>
              DeletedAll(documents, files, rejected)[id] == documents[id]
    ensures forall id :: id in documents ==>
              DeletedAll(documents, files, rejected)[id] in {documents[id], documents[id].(status := Inactive)}
  {
    if files != [] {
      var prefix := files[..|files| - 1];
      DeletedAllEffect(documents, prefix, rejected);
      assert forall f :: f in files ==> f in prefix || f == files[|files| - 1];
    }
  }

  /**
   * One moved item never recreates or rewrites an existing row: at most it
   * turns it INACTIVE. The only row it can add is the new path's ACTIVE
   * document, holding the triple's hash unless storing the hash raised.
   */
  lemma MoveStepKeepsRows(documents: map<string, PDFDocument>, m: ChangeDetector.Move, pick: Option<string>,
                          docHash: string -> Option<string>, rejected: set<string>, hashRejected: set<string>)
    ensures var r := MoveStep(documents, m, pick, docHash, rejected, hashRejected);
            && documents.Keys <= r.Keys
            && (forall id :: id in documents ==> r[id] in {documents[id], documents[id].(status := Inactive)})
            && (forall id :: id in r && id !in documents ==>
                  && docHash(m.newPath) == Some(id) && id !in rejected
                  && r[id] == NewDocument(id, m.newPath, if id in hashRejected then None else Some(m.contentHash)))
  {
  }

  /**
   * Over the whole moved list no existing row is recreated or rewritten: each
   * keeps its values or only turns INACTIVE, and an INACTIVE row stays INACTIVE.
   */
  lemma {:induction false} MovedAllKeepsRows(documents: map<string, PDFDocument>, moves: seq<ChangeDetector.Move>, picks: seq<Option<string>>,
                                             docHash: string -> Option<string>, rejected: set<string>, hashRejected: set<string>)
    requires |picks| == |moves|
    ensures var r := MovedAll(documents, moves, picks, docHash, rejected, hashRejected);
            && documents.Keys <= r.Keys
            && (forall id :: id in documents ==> r[id] in {documents[id], documents[id].(status := Inactive)})
  {
    if moves != [] {
      var n := |moves| - 1;
      var before := MovedAll(documents, moves[..n], picks[..n], docHash, rejected, hashRejected);
      MovedAllKeepsRows(documents, moves[..n], picks[..n], docHash, rejected, hashRejected);
      MoveStepKeepsRows(before, moves[n], picks[n], docHash, rejected, hashRejected);
    }
  }

  /**
   * A document found by a moved triple's hash lookup, whose write is accepted,
   * is INACTIVE once the whole moved list has been applied.
   */
  lemma {:induction false} MovedAllDeactivatesFound(documents: map<string, PDFDocument>, moves: seq<ChangeDetector.Move>, picks: seq<Option<string>>,
                                                    docHash: string -> Option<string>, rejected: set<string>, hashRejected: set<string>, k: nat)
    requires |picks| == |moves| && k < |moves|
    requires ValidPicks(documents, moves, picks, docHash, rejected, hashRejected)
    requires picks[k].Some? && picks[k].value != "" && picks[k].value !in rejected
    ensures picks[k].value in MovedAll(documents, moves, picks, docHash, rejected, hashRejected)
    ensures MovedAll(documents, moves, picks, docHash, rejected, hashRejected)[picks[k].value].status == Inactive
  {
    var n := |moves| - 1;
    var before := MovedAll(documents, moves[..n], picks[..n], docHash, rejected, hashRejected);
    if k < n {
      MovedAllDeactivatesFound(documents, moves[..n], picks[..n], docHash, rejected, hashRejected, k);
      MoveStepKeepsRows(before, moves[n], picks[n], docHash, rejected, hashRejected);
    }
  }

  /**
   * The new list never touches an existing row, and registers every listed
   * file whose row write is accepted: each added row is a listed file's ACTIVE
   * document, holding that file's hash unless storing the hash raised.
   */
  lemma {:induction false} NewAllEffect(documents: map<string, PDFDocument>, files: seq<ChangeDetector.FileInfo>,
                                        rejected: set<string>, hashRejected: set<string>)
    ensures var r := NewAll(documents, files, rejected, hashRejected);
            && documents.Keys <= r.Keys
            && (forall id :: id in documents ==> r[id] == documents[id])
            && (forall f :: f in files ==> f.docId in r || f.docId in rejected)
            && (forall id :: id in r && id !in documents ==>
                  exists f :: f in files && f.docId == id && id !in rejected
                            && r[id] == NewDocument(id, f.path, if id in hashRejected then None else Some(f.contentHash)))
  {
    if files != [] {
      var prefix := files[..|files| - 1];
      NewAllEffect(documents, prefix, rejected, hashRejected);
      assert forall f :: f in files ==> f in prefix || f == files[|files| - 1];
    }
  }

  /** A new list whose doc_ids are all present or rejected changes nothing. */
  lemma {:induction false} NewAllNoop(documents: map<string, PDFDocument>, files: seq<ChangeDetector.FileInfo>,
                                      rejected: set<string>, hashRejected: set<string>)
    requires forall f :: f in files ==> f.docId in documents || f.docId in rejected
    ensures NewAll(documents, files, rejected, hashRejected) == documents
  {
    if files != [] {
      NewAllNoop(documents, files[..|files| - 1], rejected, hashRejected);
    }
  }

  /**
   * Handling the same new list a second time, with its own write failures,
   * never recreates or rewrites a row: every row present after the first
   * pass is unchanged, and the second pass only adds files whose row write
   * failed in the first. When every doc_id refused in the first pass is
   * refused again, the second pass changes nothing.
   */
  lemma NewAllSecondPass(documents: map<string, PDFDocument>, files: seq<ChangeDetector.FileInfo>,
                         rejected1: set<string>, hashRejected1: set<string>,
                         rejected2: set<string>, hashRejected2: set<string>)
    ensures var first := NewAll(documents, files, rejected1, hashRejected1);
            var second := NewAll(first, files, rejected2, hashRejected2);
            && first.Keys <= second.Keys
            && (forall id :: id in first ==> second[id] == first[id])
            && (forall id :: id in second && id !in first ==> id in rejected1 && exists f :: f in files && f.docId == id)
            && (rejected1 <= rejected2 ==> second == first)
  {
    var first := NewAll(documents, files, rejected1, hashRejected1);
    NewAllEffect(documents, files, rejected1, hashRejected1);
    NewAllEffect(first, files, rejected2, hashRejected2);
    if rejected1 <= rejected2 {
      NewAllNoop(first, files, rejected2, hashRejected2);
    }
  }

  // ------------------------------------------------------------------
  // The handlers and sync_with_gcs
  // ------------------------------------------------------------------

  /** `_handle_deleted_files`: each item sets its document INACTIVE; a failing item is logged and skipped. */
  method HandleDeletedFiles(store: DocumentStore, deleted: seq<ChangeDetector.FileInfo>)
    requires store.Valid()
    modifies store
    ensures store.Valid()
    ensures store.documents == DeletedAll(old(store.documents), deleted, store.rejected)
    ensures store.pages == old(store.pages)
  {
    if |deleted| == 0 {
      return;
    }
    var i := 0;
    while i < |deleted|
      invariant 0 <= i <= |deleted|
      invariant store.Valid()
      invariant store.documents == DeletedAll(old(store.documents), deleted[..i], store.rejected)
      invariant store.pages == old(store.pages)
    {
      assert deleted[..i + 1][..i] == deleted[..i];
      var ok := store.UpdateDocumentStatus(deleted[i].docId, Inactive);
      i := i + 1;
    }
    assert deleted[..i] == deleted;
  }

  /** One moved triple, as the body of the `_handle_moved_files` loop; `pick` is what the hash lookup returned. */
  method MoveOne(store: DocumentStore, m: ChangeDetector.Move, docHash: string -> Option<string>)
    returns (ghost pick: Option<string>)
    requires store.Valid()
    modifies store
    ensures store.Valid()
    ensures PickOk(old(store.documents), m.contentHash, pick)
    ensures store.documents == MoveStep(old(store.documents), m, pick, docHash, store.rejected, store.hashRejected)
    ensures store.pages == old(store.pages)
  {
    var oldDocId := store.GetDocIdByContentHash(m.contentHash);
    pick := oldDocId;
    var failed := false;
    if oldDocId.Some? && oldDocId.value != "" {
      var ok := store.UpdateDocumentStatus(oldDocId.value, Inactive);
      failed := !ok;
    }
    if !failed {
      var newDocId := docHash(m.newPath);
      if newDocId.Some? {
        var present := store.ExistsDocument(newDocId.value);
        if !present {
          var ok := store.CreateDocument(newDocId.value, m.newPath);
          if ok {
            ok := store.UpdateContentHash(newDocId.value, m.contentHash);
          }
        }
      }
    }
  }

  /**
   * `_handle_moved_files`: for each triple, the document found by its hash is
   * set INACTIVE and the new path's document is registered if absent; a
   * failing item is logged and skipped. `picks` records what each lookup
   * returned.
   */
  method HandleMovedFiles(store: DocumentStore, moved: seq<ChangeDetector.Move>, docHash: string -> Option<string>)
    returns (ghost picks: seq<Option<string>>)
    requires store.Valid()
    modifies store
    ensures store.Valid()
    ensures |picks| == |moved|
    ensures ValidPicks(old(store.documents), moved, picks, docHash, store.rejected, store.hashRejected)
    ensures store.documents == MovedAll(old(store.documents), moved, picks, docHash, store.rejected, store.hashRejected)
    ensures store.pages == old(store.pages)
  {
    picks := [];
    if |moved| == 0 {
      return;
    }
    var i := 0;
    while i < |moved|
      invariant 0 <= i <= |moved| && |picks| == i
      invariant store.Valid()
      invariant ValidPicks(old(store.documents), moved[..i], picks, docHash, store.rejected, store.hashRejected)
      invariant store.documents == MovedAll(old(store.documents), moved[..i], picks, docHash, store.rejected, store.hashRejected)
      invariant store.pages == old(store.pages)
    {
      ghost var pick := MoveOne(store, moved[i], docHash);
      assert moved[..i + 1][..i] == moved[..i];
      assert (picks + [pick])[..i] == picks;
      picks := picks + [pick];
      i := i + 1;
    }
    assert moved[..i] == moved;
  }

  /** `_handle_new_files`: each file is registered with its hash unless its doc_id exists; a failing item is skipped. */
  method HandleNewFiles(store: DocumentStore, added: seq<ChangeDetector.FileInfo>)
    requires store.Valid()
    modifies store
    ensures store.Valid()
    ensures store.documents == NewAll(old(store.documents), added, store.rejected, store.hashRejected)
    ensures store.pages == old(store.pages)
  {
    if |added| == 0 {
      return;
    }
    var i := 0;
    while i < |added|
      invariant 0 <= i <= |added|
      invariant store.Valid()
      invariant store.documents == NewAll(old(store.documents), added[..i], store.rejected, store.hashRejected)
      invariant store.pages == old(store.pages)
    {
      var f := added[i];
      assert added[..i + 1][..i] == added[..i];
      var present := store.ExistsDocument(f.docId);
      if !present {
        var ok := store.CreateDocument(f.docId, f.path);
        if ok {
          ok := store.UpdateContentHash(f.docId, f.contentHash);
        }
      }
      i := i + 1;
    }
    assert added[..i] == added;
  }

  /** The outcome of `sync_with_gcs`: the raised "file sync failed" error, or the detected changes. */
  datatype SyncResult = FileSyncFailed | Synced(changes: ChangeDetector.Changes, stats: Stats)

  /**
   * `sync_with_gcs`: local → bucket file sync (its outcome given as
   * `fileSyncOk`), change detection over the bucket listing and the ACTIVE
   * rows, the deleted, moved and new handlers in that order, the page status
   * reconciliation, then the statistics. `rows` is the table in the order the
   * query returned it and `picks` what each moved item's lookup returned.
   */
  method SyncWithGcs(store: DocumentStore, fileSyncOk: bool, blobNames: seq<string>,
                     docHash: string -> Option<string>, contentHash: string -> Option<string>)
    returns (result: SyncResult, ghost rows: seq<PDFDocument>, ghost picks: seq<Option<string>>)
    requires store.Valid()
    modifies store
    ensures store.Valid()
    ensures !fileSyncOk <==> result.FileSyncFailed?
    ensures !fileSyncOk ==> store.documents == old(store.documents) && store.pages == old(store.pages)
    ensures result.Synced? ==>
      && (forall r :: r in rows <==> exists id :: id in old(store.documents) && old(store.documents)[id] == r)
      && ChangeDetector.Classified(ChangeDetector.ScannedFiles(blobNames, docHash, contentHash),
                                   ChangeDetector.DbFilesUpTo(rows, |rows|), result.changes)
      && |picks| == |result.changes.moved|
      && var afterDeleted := DeletedAll(old(store.documents), result.changes.deleted, store.rejected);
         && ValidPicks(afterDeleted, result.changes.moved, picks, docHash, store.rejected, store.hashRejected)
         && var afterMoved := MovedAll(afterDeleted, result.changes.moved, picks, docHash, store.rejected, store.hashRejected);
            store.documents == NewAll(afterMoved, result.changes.added, store.rejected, store.hashRejected)
    ensures result.Synced? ==> store.pages == SyncedPages(old(store.pages), store.documents)
    ensures result.Synced? ==> forall id :: id in store.pages ==> store.pages[id].status == store.documents[store.pages[id].docId].status
    ensures result.Synced? ==> (result.stats.totalActivePages == |ActivePageIds(store.pages)|
                                && result.stats.completedPages == |CompletedPageIds(store.pages)|)
  {
    rows := [];
    picks := [];
    if !fileSyncOk {
      result := FileSyncFailed;
      return;
    }
    var allRows := store.AllDocuments();
    rows := allRows;
    var changes := ChangeDetector.DetectChanges(blobNames, docHash, contentHash, allRows);
    HandleDeletedFiles(store, changes.deleted);
    picks := HandleMovedFiles(store, changes.moved, docHash);
    HandleNewFiles(store, changes.added);
    store.SyncPageStatusWithDocuments();
    var stats := store.GetProcessingStats();
    result := Synced(changes, stats);
  }
}
