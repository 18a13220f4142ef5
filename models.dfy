/**
 * The ORM model of db/models.py: the three closed status enumerations, the
 * `PipelineStatus`, `PDFDocument` and `PDFPage` records with their column
 * defaults, and the table-level constraints the schema declares (primary
 * keys, the page → document foreign key, NOT NULL columns, cascade delete).
 * Timestamps (`created_at`, `updated_at`, `started_at`, `completed_at`,
 * `last_modified`) are not modelled.
 */
module Models {
  import opened Wrappers

  datatype PipelineStatusEnum = Idle | Running | Completed | Failed
  datatype DocumentStatus = Active | Inactive
  datatype PageStatus = Pending | Success | Failed

  /** The string each enum member is stored as (SQLAlchemy `Enum` stores the member name). */
  function PipelineStatusName(s: PipelineStatusEnum): string {
    match s
    case Idle => "IDLE"
    case Running => "RUNNING"
    case Completed => "COMPLETED"
    case Failed => "FAILED"
  }

  function DocumentStatusName(s: DocumentStatus): string {
    match s
    case Active => "ACTIVE"
    case Inactive => "INACTIVE"
  }

  function PageStatusName(s: PageStatus): string {
    match s
    case Pending => "PENDING"
    case Success => "SUCCESS"
    case Failed => "FAILED"
  }

  /** Reading a stored value back: exactly the member names are accepted. */
  function ParsePipelineStatus(name: string): (r: Option<PipelineStatusEnum>)
    ensures r.Some? ==> PipelineStatusName(r.value) == name
    ensures r.None? <==> forall s: PipelineStatusEnum :: PipelineStatusName(s) != name
  {
    if name == "IDLE" then Some(Idle)
    else if name == "RUNNING" then Some(Running)
    else if name == "COMPLETED" then Some(Completed)
    else if name == "FAILED" then Some(PipelineStatusEnum.Failed)
    else None
  }

  function ParseDocumentStatus(name: string): (r: Option<DocumentStatus>)
    ensures r.Some? ==> DocumentStatusName(r.value) == name
    ensures r.None? <==> forall s: DocumentStatus :: DocumentStatusName(s) != name
  {
    if name == "ACTIVE" then Some(Active)
    else if name == "INACTIVE" then Some(Inactive)
    else None
  }

  function ParsePageStatus(name: string): (r: Option<PageStatus>)
    ensures r.Some? ==> PageStatusName(r.value) == name
    ensures r.None? <==> forall s: PageStatus :: PageStatusName(s) != name
  {
    if name == "PENDING" then Some(Pending)
    else if name == "SUCCESS" then Some(Success)
    else if name == "FAILED" then Some(PageStatus.Failed)
    else None
  }

  /** Every member survives a store/load round trip, so the names are pairwise distinct. */
  lemma StatusNamesRoundTrip()
    ensures forall s: PipelineStatusEnum :: ParsePipelineStatus(PipelineStatusName(s)) == Some(s)
    ensures forall s: DocumentStatus :: ParseDocumentStatus(DocumentStatusName(s)) == Some(s)
    ensures forall s: PageStatus :: ParsePageStatus(PageStatusName(s)) == Some(s)
  {
  }

  datatype PipelineStatus = PipelineStatus(
    id: int,
    status: PipelineStatusEnum,
    stage: Option<string>,
    totalDocuments: int,
    processedDocuments: int,
    errorMessage: Option<string>)

  /** A row inserted with only its key given: the column defaults. */
  function NewPipelineStatus(id: int): (p: PipelineStatus)
    ensures p.id == id && p.status == Idle
    ensures p.totalDocuments == 0 && p.processedDocuments == 0
    ensures p.stage.None? && p.errorMessage.None?
  {
    PipelineStatus(id, Idle, None, 0, 0, None)
  }

  datatype PDFDocument = PDFDocument(
    docId: string,
    gcsPath: string,
    fileSize: Option<int>,
    status: DocumentStatus,
    contentHash: Option<string>)

  /** `PDFDocument(doc_id=…, gcs_path=…, content_hash=…)`: status defaults to ACTIVE. */
  function NewDocument(docId: string, gcsPath: string, contentHash: Option<string>): (d: PDFDocument)
    ensures d.docId == docId && d.gcsPath == gcsPath && d.contentHash == contentHash
    ensures d.status == Active && d.fileSize.None?
  {
    PDFDocument(docId, gcsPath, None, Active, contentHash)
  }

  datatype PDFPage = PDFPage(
    pageId: string,
    docId: string,
    pageNumber: string,
    gcsPath: string,
    gcsPdfPath: string,
    extractedText: Option<string>,
    summary: Option<string>,
    embedding: Option<string>,
    extracted: PageStatus,
    summarized: PageStatus,
    embedded: PageStatus,
    indexed: PageStatus,
    errorMessage: Option<string>,
    status: DocumentStatus)

  /** A fresh page: every stage PENDING, no payloads, activity ACTIVE. */
  function NewPage(pageId: string, docId: string, pageNumber: string, gcsPath: string, gcsPdfPath: string): (p: PDFPage)
    ensures p.pageId == pageId && p.docId == docId && p.pageNumber == pageNumber
    ensures p.gcsPath == gcsPath && p.gcsPdfPath == gcsPdfPath
    ensures p.extracted == Pending && p.summarized == Pending && p.embedded == Pending && p.indexed == Pending
    ensures p.extractedText.None? && p.summary.None? && p.embedding.None? && p.errorMessage.None?
    ensures p.status == Active
  {
    PDFPage(pageId, docId, pageNumber, gcsPath, gcsPdfPath, None, None, None,
            Pending, Pending, Pending, Pending, None, Active)
  }

  /** The two tables, keyed by their primary keys. */
  datatype Database = Database(documents: map<string, PDFDocument>, pages: map<string, PDFPage>)

  /** NOT NULL columns of a document that the model can observe. */
  predicate Storable(d: PDFDocument) {
    d.contentHash.Some?
  }

  /** Primary keys agree with the rows, every row is storable, and every page's owner exists. */
  predicate Valid(db: Database) {
    && (forall id :: id in db.documents ==> db.documents[id].docId == id && Storable(db.documents[id]))
    && (forall id :: id in db.pages ==> db.pages[id].pageId == id)
    && (forall id :: id in db.pages ==> db.pages[id].docId in db.documents)
  }

  /** INSERT of a document: refused on a duplicate primary key or a NULL content_hash. */
  function InsertDocument(db: Database, d: PDFDocument): (r: Option<Database>)
    ensures r.Some? <==> d.docId !in db.documents && Storable(d)
    ensures r.Some? ==> r.value.documents == db.documents[d.docId := d] && r.value.pages == db.pages
    ensures r.Some? && Valid(db) ==> Valid(r.value)
  {
    if d.docId in db.documents || !Storable(d) then None
    else Some(db.(documents := db.documents[d.docId := d]))
  }

  /** INSERT of a page: refused on a duplicate primary key or a dangling doc_id. */
  function InsertPage(db: Database, p: PDFPage): (r: Option<Database>)
    ensures r.Some? <==> p.pageId !in db.pages && p.docId in db.documents
    ensures r.Some? ==> r.value.pages == db.pages[p.pageId := p] && r.value.documents == db.documents
    ensures r.Some? && Valid(db) ==> Valid(r.value)
  {
    if p.pageId in db.pages || p.docId !in db.documents then None
    else Some(db.(pages := db.pages[p.pageId := p]))
  }

  /** DELETE of a document with `cascade="all, delete-orphan"`: its pages go with it. */
  function DeleteDocument(db: Database, docId: string): (r: Database)
    ensures r.documents == db.documents - {docId}
    ensures forall id :: id in r.pages ==> r.pages[id].docId != docId
    ensures forall id :: id in db.pages && db.pages[id].docId != docId ==> id in r.pages && r.pages[id] == db.pages[id]
    ensures forall id :: id in r.pages ==> id in db.pages
    ensures Valid(db) ==> Valid(r)
  {
    Database(db.documents - {docId}, map id | id in db.pages && db.pages[id].docId != docId :: db.pages[id])
  }
}
