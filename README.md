# PDF ingestion pipeline: document bookkeeping in Dafny

This project models the document-lifecycle bookkeeping of a PDF ingestion
pipeline. A bucket of source PDFs is listed. Each listed file gets a
`doc_id` and a `content_hash`. The listing is diffed against the ACTIVE rows
of the document table, and the resulting new, moved and deleted files are
applied to that table. Page statuses are then reconciled with their
documents, and the processing statistics are read.

A second path, the scheduler, registers every listed PDF that has no row.
It then hands each pending document to the PDF manager. The manager splits
the document into page images, creates one page record per image, and
decides each page's status and error message from the two extractors'
results.

The model also covers the pure helpers these steps use:

- the status enumerations and column defaults of the ORM model;
- the `.pdf` filter of the bucket listing;
- the page-image path builder `make_output_path`;
- the directory-tree renderer `generate_tree`.

One Dafny module per source file:

| module | source | form |
|---|---|---|
| `Wrappers` | none (`Option`) | datatype |
| `Models` | db/models.py | datatypes, default constructors, table constraints |
| `GcsClient` | storage/gcs_client.py | functions and lemmas |
| `ChangeDetector` | sync/change_detector.py | loop methods proved against fold functions |
| `SyncManager` | sync/sync_manager.py | a `DocumentStore` class and loop methods over it |
| `Repository` | db/repository.py | a `Repository` class over that file's own row shape |
| `PdfManager` | processor/pdf_manager.py | a `PageStore` class and the `process` control flow |
| `Orchestrator` | scheduler/orchestrator.py | the two loops of `run_pipeline` and the session |
| `TreeUtils` | utils/utils.py | recursive line functions and the `generate_tree` loop |

Each imperative operation is a method whose `ensures` ties its result, or
the new state, to a specification function over its inputs. A Python dict
keeps insertion order, so it becomes an order plus a map. Python sets
iterate in no fixed order, so those loops pick their next element with
`:|`.

Conventions for things the model does not compute:

- Hashing, the extractors and the split result are function parameters or inputs.
- A raised exception is `None`, or a set of doc_ids whose writes fail. The document store has two such sets: `rejected` for row creation and status updates, and `hashRejected` for storing a content hash. Registration makes these two calls one after the other, so a row can be created and then left without a hash.
- Timestamps are an `int` parameter.

## Model

| member | source | states |
|---|---|---|
| Models.ParsePipelineStatus | db/models.py:18-22 | exactly the four stored names IDLE, RUNNING, COMPLETED, FAILED are accepted, each reading back as its member |
| Models.ParseDocumentStatus | db/models.py:24-26 | exactly ACTIVE and INACTIVE are accepted |
| Models.ParsePageStatus | db/models.py:28-31 | exactly PENDING, SUCCESS and FAILED are accepted |
| Models.StatusNamesRoundTrip | db/models.py:18-31 | every member of the three enums survives a store/load round trip, so the closed sets have distinct names |
| Models.NewPipelineStatus | db/models.py:34-45 | a new pipeline row is IDLE with zero total and processed counters and no stage or error |
| Models.NewDocument | db/models.py:48-58 | a new document takes the given key, path and hash, and defaults to ACTIVE |
| Models.NewPage | db/models.py:65-83 | a new page has extracted, summarized, embedded and indexed PENDING, no payloads, and activity ACTIVE |
| Models.InsertDocument | db/models.py:51-58 | an insert succeeds iff the doc_id is new and the NOT NULL content_hash is present; it then adds exactly that row and keeps the table valid |
| Models.InsertPage | db/models.py:68-69 | a page insert succeeds iff its page_id is new and its doc_id names an existing document; validity is kept |
| Models.DeleteDocument | db/models.py:60-62 | deleting a document removes it and exactly its pages (cascade); every other page is kept unchanged |
| GcsClient.IsPdfNameIgnoresCase | storage/gcs_client.py:13 | the `.pdf` test ignores case: a name passes exactly when its lower-cased form does |
| GcsClient.PdfSuffixExamples | storage/gcs_client.py:13 | "report.PDF", "report.Pdf" and "report.pdf" pass the test; "report.pdf.txt" and "pdf" do not |
| GcsClient.ListPdfs | storage/gcs_client.py:10-13 | a name is kept iff it was listed and its lower-case form ends in ".pdf" |
| GcsClient.ListPdfsAppend | storage/gcs_client.py:13 | the filter distributes over concatenation, so kept names stay in listing order |
| GcsClient.RSplitOnce | storage/gcs_client.py:28 | `rsplit(sep, 1)` gives one part iff sep is absent; otherwise head + sep + tail with no sep in the tail |
| GcsClient.DirPart | storage/gcs_client.py:28-29 | dirs is everything before the last "/", and "" when there is none |
| GcsClient.FileName | storage/gcs_client.py:30 | the file name holds no "/" and is the whole path when there is no "/" |
| GcsClient.BaseName | storage/gcs_client.py:31 | base is the file name up to its last "."; a name without "." is used whole |
| GcsClient.Digits | storage/gcs_client.py:33 | `str(n)` is a non-empty digit string that reads back as n |
| GcsClient.ZeroPad | storage/gcs_client.py:33 | padding yields max(width, length) characters: the original string at the end, preceded only by '0' characters |
| GcsClient.Format05d | storage/gcs_client.py:33 | the field of a non-negative number is all digits; a negative number gives "-" followed by digits; no field holds a "/" |
| GcsClient.Format05dRoundTrip | storage/gcs_client.py:33 | for 0 <= n < 100000 the page field is exactly five digits and reads back as n |
| GcsClient.SplitAtLastSlash | storage/gcs_client.py:28-30 | splitting `a + "/" + t` at its last "/" gives back `a` and `t` when `t` has no "/" |
| GcsClient.MakeOutputPath | storage/gcs_client.py:27-34 | the directory part of the page path is exactly the output folder (`dirs/base`, or `base`), and its file name is exactly base + "-page-" + the padded page number + ".png", and the path is the folder, "/" and that name, even when the folder is empty |
| GcsClient.OutputFolderShape | storage/gcs_client.py:28-32 | with a directory, the folder starts with dirs + "/"; without one it is the base name alone, with no leading "/" |
| GcsClient.MakeOutputPathInjective | storage/gcs_client.py:33-34 | distinct page numbers in [0, 100000) give distinct paths for one source |
| ChangeDetector.DictPut | sync/change_detector.py:38-42 | assigning a key overwrites its value in place, or appends a new key at the end of the order |
| ChangeDetector.HashablePaths | sync/change_detector.py:34-46 | the scanned paths are exactly the listed paths whose two hashes are computed |
| ChangeDetector.ScanMembers | sync/change_detector.py:34-46 | a path is in the scan iff it was listed and both hashes succeed; its entry holds those two hashes |
| ChangeDetector.ScanOrder | sync/change_detector.py:34-42 | the scan's keys are the hashable paths in order of first listing |
| ChangeDetector.ScanCurrentFiles | sync/change_detector.py:29-49 | the loop builds exactly the scan fold: a file whose hashing raises is skipped and the loop goes on |
| ChangeDetector.DocInfo | sync/change_detector.py:60-64 | a row's FileInfo carries its path and doc_id, and a NULL content_hash becomes "" |
| ChangeDetector.ActivePaths | sync/change_detector.py:55-57 | the query keeps exactly the ACTIVE rows' paths |
| ChangeDetector.DbFilesOrder | sync/change_detector.py:59-64 | the DB dictionary's keys are the ACTIVE paths in order of first appearance |
| ChangeDetector.DbFilesLastRowWins | sync/change_detector.py:59-64 | for a path shared by several ACTIVE rows, the later row's values are kept |
| ChangeDetector.GetDbFiles | sync/change_detector.py:51-67 | the loop builds the DB dictionary fold: keys are exactly the ACTIVE paths, each holding its last row's values |
| ChangeDetector.HashIndexUpTo | sync/change_detector.py:77-78 | each indexed hash maps to a key holding that hash; the DB index never holds "" |
| ChangeDetector.HashIndexCovers | sync/change_detector.py:77-78 | every visited key's hash is indexed, except an empty hash in the DB index |
| ChangeDetector.HashIndexLastWins | sync/change_detector.py:77-78 | when several keys share a hash, the index maps it to the last one in dictionary order |
| ChangeDetector.DbIndexHas | sync/change_detector.py:78 | the DB index holds exactly the non-empty hashes of the ACTIVE rows |
| ChangeDetector.LiveIndexHas | sync/change_detector.py:77 | the live index holds exactly the live hashes, "" included |
| ChangeDetector.ClassifyLivePaths | sync/change_detector.py:88-96 | live-only paths go to new iff their hash is not in the DB index; otherwise they go to moved with the indexed old path; each path appears once |
| ChangeDetector.ClassifyMissingPaths | sync/change_detector.py:99-103 | DB-only paths go to deleted iff their hash is non-empty and not in the live index; each appears once |
| ChangeDetector.CollectCommonPaths | sync/change_detector.py:106-108 | unchanged holds exactly the live FileInfo of the paths on both sides |
| ChangeDetector.Classify | sync/change_detector.py:73-108 | the four lists are exactly the new, moved, deleted and unchanged items, each once |
| ChangeDetector.DetectChanges | sync/change_detector.py:69-110 | the result classifies the scanned listing against the ACTIVE rows |
| ChangeDetector.CategoriesDisjoint | sync/change_detector.py:88-108 | new and moved come from live-only paths, deleted from DB-only paths, and a live path is unchanged iff it has an ACTIVE row |
| ChangeDetector.LivePathNewOrMoved | sync/change_detector.py:88-96 | a live path with no ACTIVE row is new iff no ACTIVE row has its non-empty hash, and moved iff one does |
| ChangeDetector.MovedFromLastMatchingRow | sync/change_detector.py:77-96 | a move's old path is an ACTIVE row with the same non-empty hash, and no later row in dictionary order has that hash |
| ChangeDetector.MissingPathDeletedOrDropped | sync/change_detector.py:99-103 | a vanished ACTIVE path is deleted iff its hash is non-empty and no live file has it; otherwise it is in no list |
| ChangeDetector.MovedNeverDeleted | sync/change_detector.py:88-103 | the old path of a move is never also reported deleted |
| ChangeDetector.EmptyHashNeverMoved | sync/change_detector.py:78-92 | a live-only file with an empty hash is always reported new |
| ChangeDetector.RewrittenInPlaceIsUnchanged | sync/change_detector.py:106-108 | a path on both sides is unchanged even when its hash differs, and it is in neither new nor deleted |
| SyncManager.SetStatus | sync/sync_manager.py:84 | a status update changes only the named document's status and leaves an unknown doc_id alone |
| SyncManager.SyncedPages | sync/sync_manager.py:57 | every page whose owner exists takes that owner's status; nothing else changes |
| SyncManager.CompletedPageIds | sync/sync_manager.py:60-63 | completed pages are a subset of the ACTIVE pages |
| SyncManager.DocumentStore.UpdateDocumentStatus | sync/sync_manager.py:84 | a rejected write fails and changes nothing; otherwise only that document's status changes |
| SyncManager.DocumentStore.GetDocIdByContentHash | sync/sync_manager.py:100-101 | returns a document holding the hash, or None exactly when no document holds it |
| SyncManager.DocumentStore.ExistsDocument | sync/sync_manager.py:107 | true iff the doc_id is a key of the table |
| SyncManager.DocumentStore.CreateDocument | sync/sync_manager.py:108 | adds one ACTIVE row with the path and no hash, unless the key exists or the write is rejected |
| SyncManager.DocumentStore.UpdateContentHash | sync/sync_manager.py:109 | raises exactly for a doc_id whose hash the database refuses (`hashRejected`, separate from the row refusals); otherwise sets that document's content hash and nothing else |
| SyncManager.DocumentStore.SyncPageStatusWithDocuments | sync/sync_manager.py:57 | afterwards every page's status equals its document's status; documents are unchanged |
| SyncManager.DocumentStore.GetProcessingStats | sync/sync_manager.py:60-65 | total counts the ACTIVE pages, completed counts the ACTIVE pages with all four stages SUCCESS, and completed + remaining = total |
| SyncManager.DocumentStore.AllDocuments | sync/change_detector.py:55-57 | the query result holds every row of the table once |
| SyncManager.DeletedAllEffect | sync/sync_manager.py:74-88 | after the deleted list, every listed document with an accepted write is INACTIVE, unlisted rows are untouched, and no row is added or removed |
| SyncManager.MoveStepKeepsRows | sync/sync_manager.py:97-110 | one moved item only turns existing rows INACTIVE; a row it adds is the new path's ACTIVE document, holding the triple's hash, or no hash exactly when storing the hash raised |
| SyncManager.MovedAllKeepsRows | sync/sync_manager.py:90-115 | over the moved list no existing row is recreated: each keeps its values or only turns INACTIVE |
| SyncManager.MovedAllDeactivatesFound | sync/sync_manager.py:100-103 | a document found by a move's hash lookup, with an accepted write, is INACTIVE at the end |
| SyncManager.NewAllEffect | sync/sync_manager.py:117-133 | existing rows are untouched; every listed file is present afterwards unless its write is rejected; each added row is a listed file's ACTIVE document, holding that file's hash, or no hash exactly when storing the hash raised |
| SyncManager.NewAllNoop | sync/sync_manager.py:119-130 | a new list whose doc_ids are all present or rejected changes nothing |
| SyncManager.NewAllSecondPass | sync/sync_manager.py:124-133 | a second pass over the same new list, with its own write failures, leaves every row of the first pass unchanged (no duplicate or recreated row) and adds only files whose row write failed in the first pass; with at least the same refusals it changes nothing |
| SyncManager.HandleDeletedFiles | sync/sync_manager.py:74-88 | the loop leaves the table as the deleted fold, a failing item skipped; pages are untouched |
| SyncManager.MoveOne | sync/sync_manager.py:97-115 | one moved triple is the move step for the looked-up document: deactivate the found document, then create the new path's row and store its hash, each write failing on its own |
| SyncManager.HandleMovedFiles | sync/sync_manager.py:90-115 | the loop leaves the table as the moved fold, each lookup answered against the table as the earlier items left it |
| SyncManager.HandleNewFiles | sync/sync_manager.py:117-133 | the loop leaves the table as the new-file fold: a failing row write skips the item, and a failing hash write leaves the created row without a hash |
| SyncManager.SyncWithGcs | sync/sync_manager.py:29-73 | a failed file sync raises before anything changes; otherwise changes are detected, then deleted, moved and new are applied in that order, pages are reconciled, and stats are read |
| Repository.FirstWithPath | db/repository.py:47 | `.first()` finds the first row with the path, and None iff there is none |
| Repository.PendingRows | db/repository.py:41 | a row is returned iff it is in the table with processed == 0 |
| Repository.PendingRowsAppend | db/repository.py:41 | the pending filter keeps table order |
| Repository.Overwrite | db/repository.py:96-103 | each field is overwritten iff its argument is not None; the identity fields never change |
| Repository.OverwriteNeverClears | db/repository.py:96-103 | an update never resets a set field to None |
| Repository.OverwriteCompose | db/repository.py:96-103 | two updates equal one update in which the later argument wins field by field |
| Repository.OverwriteIdempotent | db/repository.py:96-103 | repeating an update changes nothing more, and an empty update changes nothing |
| Repository.Repository.DocumentExists | db/repository.py:20-26 | true iff some row has that gcs_path |
| Repository.Repository.CreateDocument | db/repository.py:28-35 | appends one unprocessed row with the path; the path then exists |
| Repository.Repository.GetPendingDocuments | db/repository.py:37-41 | returns exactly the rows with processed == 0, in table order |
| Repository.Repository.MarkDocumentProcessed | db/repository.py:43-52 | the first row with the path gets processed = 1 and the time; with no such row nothing changes |
| Repository.Repository.CreatePageRecord | db/repository.py:58-78 | a fresh page id holds a PENDING row with no text, description or error |
| Repository.Repository.UpdatePageRecord | db/repository.py:80-105 | an unknown id changes nothing; otherwise only the passed fields are overwritten |
| Repository.Repository.GetFailedPages | db/repository.py:107-111 | returns every FAILED page id once, and nothing else |
| PdfManager.ProcessPage | processor/pdf_manager.py:95-115 | errors pass through unchanged; a None or empty text or summary becomes "" |
| PdfManager.PageDecision | processor/pdf_manager.py:77-79 | SUCCESS iff both errors are None, else FAILED; the error is text_err when truthy, else summary_err |
| PdfManager.FailedPageHasMessage | processor/pdf_manager.py:79 | a page failed with a non-empty error message records a message |
| PdfManager.EmptyTextErrorLosesMessage | processor/pdf_manager.py:79 | an empty-string text error fails the page but records no message |
| PdfManager.FinishedPage | processor/pdf_manager.py:74-87 | a processed page keeps its number and paths, is SUCCESS iff both extractors reported no error, and stores the decided error and the text |
| PdfManager.FirstByPath | processor/pdf_manager.py:28-32 | the document lookup finds the first row with the path, or None iff there is none |
| PdfManager.PageStore.CreatePageRecord | processor/pdf_manager.py:53-58 | either a fresh id holding a PENDING record, or a raised error with nothing written |
| PdfManager.PageStore.MarkDocumentSplit | processor/pdf_manager.py:62-66 | records the split flag for the document and changes nothing else |
| PdfManager.PageStore.GetFirstNPages | processor/pdf_manager.py:71 | at most n paths, each the image of a page of this document numbered 1..n |
| PdfManager.PageStore.UpdatePageRecord | processor/pdf_manager.py:81-87 | stores text, summary, status and error on a known page, and records the call |
| PdfManager.CreatePages | processor/pdf_manager.py:51-59 | page records are created for images 1..n in order, with distinct fresh ids; a failure stops creation early |
| PdfManager.ProcessOne | processor/pdf_manager.py:75-87 | one loop pass leaves the page as its finished record and logs one update |
| PdfManager.ProcessPages | processor/pdf_manager.py:74-87 | exactly one update per created page, in page order, each page ending finished with the same context; other pages untouched |
| PdfManager.Process | processor/pdf_manager.py:26-92 | no document row with the path means no write. Otherwise the document is the first such row. A split or creation failure marks it split = false, updates no page, keeps every old page, and leaves only PENDING records of its images. Otherwise it is marked split = true, exactly the fresh pages 1..n are added, old pages are untouched, each new page is finished in order with the shared context, and the context is at most five image paths of this document's pages 1..5 |
| Orchestrator.Session.Close | scheduler/orchestrator.py:54-55 | the session is closed |
| Orchestrator.RegisterStep | scheduler/orchestrator.py:38-40 | one registration step keeps every row and leaves the visited path existing |
| Orchestrator.RegisteredPrefix | scheduler/orchestrator.py:36-41 | registration keeps the existing rows as a prefix |
| Orchestrator.RegisteredCovers | scheduler/orchestrator.py:36-41 | after registration every listed path exists |
| Orchestrator.RegisteredEffect | scheduler/orchestrator.py:36-41 | the appended rows are unprocessed, one per listed path that had no row, with no path twice |
| Orchestrator.AppendedPathsUnlisted | scheduler/orchestrator.py:36-41 | the appended paths are exactly the listed paths that had no row |
| Orchestrator.RegisteredCount | scheduler/orchestrator.py:35-40 | the number of rows added equals the number of distinct listed paths that had no row |
| Orchestrator.RegisterListed | scheduler/orchestrator.py:35-41 | the loop leaves the table as the registration fold, and cnt counts the rows it added |
| Orchestrator.ProcessPending | scheduler/orchestrator.py:46-52 | each pending document is attempted once, in the returned order, and a raising one does not stop the loop |
| Orchestrator.RunPipeline | scheduler/orchestrator.py:11-55 | the session is closed on every exit. A listing failure changes nothing. A repository failure in the registration step for listed path k keeps exactly the registrations of paths 0..k-1; one in the pending query keeps all registrations; either ends the run. Otherwise every listed path is registered, cnt counts the new paths, and then exactly the pending rows are attempted in order |
| TreeUtils.NameLeTotal | utils/utils.py:29 | name order is total |
| TreeUtils.NameLeTransitive | utils/utils.py:29 | name order is transitive |
| TreeUtils.NameLeAntisymmetric | utils/utils.py:29 | name order is antisymmetric |
| TreeUtils.Insert | utils/utils.py:29 | insertion adds exactly the one entry |
| TreeUtils.InsertSorted | utils/utils.py:29 | insertion into a sorted list keeps it sorted |
| TreeUtils.SortByName | utils/utils.py:29 | `sorted` returns a permutation of the entries |
| TreeUtils.SortByNameSorted | utils/utils.py:29 | `sorted` returns the entries in name order |
| TreeUtils.Visible | utils/utils.py:30 | the dot filter keeps exactly the entries whose name does not start with "." |
| TreeUtils.VisibleSorted | utils/utils.py:30 | the dot filter keeps sorted order |
| TreeUtils.Listing | utils/utils.py:29-30 | the walked entries are exactly the visible children |
| TreeUtils.ListingSorted | utils/utils.py:29-30 | the walked entries are in name order |
| TreeUtils.RenderAppend | utils/utils.py:40 | rendering distributes over concatenation of line lists |
| TreeUtils.GenerateTree | utils/utils.py:27-45 | the loop's text is the rendering of the tree's lines |
| TreeUtils.EmitEntry | utils/utils.py:33-44 | one loop pass emits nothing for an ignored entry, else its line followed by its subtree |
| TreeUtils.TreeLinesShape | utils/utils.py:32-44 | each line either has the directory's prefix, the connector for its index in the dot-filtered listing and a visible, non-ignored name, or has a longer prefix under it |
| TreeUtils.EntrySubtreeUnderExtension | utils/utils.py:39-44 | an entry's own line comes first with the directory's prefix; every line of its subtree extends that prefix by "    " under the last listed entry and by "│   " under any other |
| TreeUtils.CornerOnlyForLastEntry | utils/utils.py:30-39 | "└── " goes only to the entry at the last index of the dot-filtered listing, when that entry is not ignored |
| TreeUtils.SkippedLastEntryMeansNoCorner | utils/utils.py:30-39 | when the ignore rules skip the last listed entry, no line of that directory gets "└── " |
| TreeUtils.TreeLinesCount | utils/utils.py:32-44 | there is one line per visited entry in the whole tree |
| TreeUtils.RenderNewlines | utils/utils.py:40 | each line contributes exactly one newline |
| TreeUtils.TreeLinesClean | utils/utils.py:40-44 | with newline-free names and prefix, no line part holds a newline |
| TreeUtils.GenerateTreeLineCount | utils/utils.py:32-44 | the text holds exactly one newline per visited entry |

## Where the code and the intended design differ

The model follows the code, except where a call the code makes cannot run as written; those cases are named below and modelled as the call site evidently intends.

- **Identifying new files.** New and moved files are found by path, as a set difference of paths (sync/change_detector.py:88), not by `doc_id`.
- **Hash ties.** When several ACTIVE rows share a content hash, the DB index keeps the last row in dictionary order. It does not pick a deterministic lowest `doc_id`, and it logs no anomaly.
- **Empty hashes.** A missing DB row with an empty hash is never reported deleted (sync/change_detector.py:102).
- **One ACTIVE document per hash.** Nothing in the handlers enforces this. Two new files with the same content both become ACTIVE. A file moved back to a path whose document is INACTIVE finds that doc_id present, so the row is not recreated and stays INACTIVE.
- **Repository shape.** db/repository.py does not match db/models.py. It uses `processed`, `processed_at`, `description` and `document_id`. Its `Repository` is therefore modelled over its own row shape.
- **Hashless document rows.** The two-argument `create_document` called at sync/sync_manager.py:108 and :128 is not shown. `SyncManager.DocumentStore.CreateDocument` takes it to write an ACTIVE row with no content hash, which `update_content_hash` fills in next; sync/change_detector.py:63 reads a missing hash as "", which expects such rows. db/models.py:58 declares `content_hash` NOT NULL, and `Models.InsertDocument` refuses such a row. Under that constraint as written, every create in `_handle_new_files` and `_handle_moved_files` would fail. `SyncManager.DocumentStore.Valid` therefore does not require `Models.Storable` of its rows.
- **Undefined repository calls.**
  - The calls made by sync/sync_manager.py are given the semantics their call sites rely on, as `SyncManager.DocumentStore`.
  - The calls made by processor/pdf_manager.py are given the same treatment, as `PdfManager.PageStore`. Here the code as written cannot run. db/repository.py:58-63 defines `create_page_record(document_id, page_number, gcs_path)`, but processor/pdf_manager.py:53-58 passes `doc_id` and `gcs_pdf_path`, which raises `TypeError`. The `except` at processor/pdf_manager.py:65-67 then calls `mark_document_split`, which db/repository.py does not define, so an `AttributeError` escapes `process`. Likewise db/repository.py:80-88 takes `description`, while processor/pdf_manager.py:81-87 passes `summary`. As written, every `process` call that finds its document and splits it raises before any page is stored. `PageStore` models the evident intent instead: these calls with the parameters the call sites pass.
- **One status per page.** The page loop writes a single `status` and a single error per page, not one status per stage.
- **Processing never marks documents.** `process` never calls `mark_document_processed`. A pending document therefore stays pending after `run_pipeline`. `Orchestrator.RunPipeline` leaves the document table as registration left it.

## Left out

- sync/file_sync.py: the `gcloud storage rsync` call is reduced to its boolean outcome `fileSyncOk`.
- Hashing: `compute_doc_hash` and `compute_content_hash` are not part of this model. They are function parameters returning `None` when they raise. `get_file_hash` is left out.
- processor/extractor.py, embedder.py, elastic.py, prompts.py: external model and search calls. The extractors are function parameters returning a value and an error.
- processor/splitter.py: the split result is an input, `None` when download or splitting raises. `split_pdf_to_images_and_upload` is not part of this model.
- Downloads, uploads, temporary directories and the bucket listing are left out. The listing is an input sequence of blob names; `Orchestrator.RunPipeline` takes `None` for a listing that raises.
- Session setup, table creation, configuration, logging and every `print` are left out.
- Timestamps: `processed_at` is an `int` parameter; `created_at` and `updated_at` are not modelled.
- SyncManager.DocumentStore.GetProcessingStats: the `completion_rate` float is not modelled.
- SyncManager.SyncWithGcs: only the file-sync failure is modelled as a raise. A database failure outside the per-item handlers is not.
- SyncManager.DocumentStore.GetDocIdByContentHash: which holder is returned, when several documents share a hash, is left unspecified.
- ChangeDetector.Classify: the order of each list is left unspecified, because Python set iteration order is unspecified. The contracts state contents and no duplicates.
- Repository.Repository.GetFailedPages: the order of the returned ids is left unspecified, because the query has no ORDER BY.
- PdfManager.PageStore.GetFirstNPages: it promises at most n paths of this document's pages numbered 1..n. It does not promise that every existing early page is returned. The query is not shown.
- PdfManager.PageStore.CreatePageRecord: a database failure is nondeterministic; which calls fail is not modelled.
- PdfManager.Process: an exception from a download inside `process_page` escapes the page loop. It is not modelled; the orchestrator's catch covers it as `processRaises`.
- Orchestrator.RunPipeline: whether `process` raises is a given predicate on the path, and its effects on the page table are not carried back into the repository.
- GcsClient.Lower: lower-cases ASCII letters only. Python's Unicode lower-casing of other characters is not modelled.
- TreeUtils.GenerateTree: the directory is a finite tree of entries, so symbolic-link cycles are not modelled. `os.path.relpath` is modelled as the names joined by "/" from the root. The ignore spec is a predicate on that path, and a missing spec matches nothing.
- utils/utils.py: `load_gitignore` and `save_to_readme` are file I/O and are left out.
