/**
 * sync/change_detector.py: the live listing and the ACTIVE rows of the
 * document table are each read into a path-keyed dictionary of `FileInfo`,
 * and `detect_changes` sorts paths into new, moved, deleted and unchanged by
 * set differences on the paths plus look-ups in two content-hash indexes.
 *
 * A Python dict keeps its keys in first-insertion order; it is modelled as a
 * `Dict`: that order plus a map. The hash indexes are dict comprehensions over
 * the dict's values, so when several files share a content hash the one
 * visited last wins. Python iterates a `set` in no specified order, so the
 * classification loops pick their next path with `:|` and their contracts
 * speak of which items are in each list, each at most once.
 */
module ChangeDetector {
  import opened Wrappers
  import opened Models
  import GcsClient

  datatype FileInfo = FileInfo(path: string, docId: string, contentHash: string)

  /** `(old_path, new_path, content_hash)` of a moved file. */
  datatype Move = Move(oldPath: string, newPath: string, contentHash: string)

  /** The `changes` dictionary returned by `detect_changes`. */
  datatype Changes = Changes(added: seq<FileInfo>, deleted: seq<FileInfo>, moved: seq<Move>, unmodified: seq<FileInfo>)

  /** A `Dict[str, FileInfo]` keyed by path: keys in insertion order, and their values. */
  datatype Dict = Dict(order: seq<string>, entries: map<string, FileInfo>)

  predicate Distinct(s: seq<string>) {
    forall i, j :: 0 <= i < j < |s| ==> s[i] != s[j]
  }

  /** Every key occurs once in the order, the order holds exactly the keys, and each value carries its own key as path. */
  ghost predicate DictValid(d: Dict) {
    && Distinct(d.order)
    && (forall k :: k in d.entries <==> k in d.order)
    && (forall k :: k in d.entries ==> d.entries[k].path == k)
  }

  function EmptyDict(): (d: Dict)
    ensures DictValid(d) && d.entries == map[]
  {
    Dict([], map[])
  }

  /** `d[f.path] = f`: a new key goes to the end, an existing key keeps its place and gets the new value. */
  function DictPut(d: Dict, f: FileInfo): (r: Dict)
    requires DictValid(d)
    ensures DictValid(r)
    ensures r.entries == d.entries[f.path := f]
    ensures r.order == if f.path in d.entries then d.order else d.order + [f.path]
  {
    if f.path in d.entries then Dict(d.order, d.entries[f.path := f])
    else Dict(d.order + [f.path], d.entries[f.path := f])
  }

  /** Keys in order of first insertion, for a sequence of insertions. */
  function Dedup(s: seq<string>): (r: seq<string>)
    ensures Distinct(r)
    ensures forall x :: x in r <==> x in s
  {
    if s == [] then []
    else
      var t := Dedup(s[..|s| - 1]);
      assert forall x :: x in s <==> x in s[..|s| - 1] || x == s[|s| - 1];
      if s[|s| - 1] in t then t else t + [s[|s| - 1]]
  }

  // ------------------------------------------------------------------
  // scan_current_files
  // ------------------------------------------------------------------

  /** Hashing `path` succeeds: both `compute_doc_hash` and `compute_content_hash` return. */
  predicate Hashable(path: string, docHash: string -> Option<string>, contentHash: string -> Option<string>) {
    docHash(path).Some? && contentHash(path).Some?
  }

  /** The first `n` listed paths whose hashing succeeds, in listing order. */
  function HashablePaths(paths: seq<string>, n: nat, docHash: string -> Option<string>, contentHash: string -> Option<string>): (r: seq<string>)
    requires n <= |paths|
    ensures forall x :: x in r <==> (exists k :: 0 <= k < n && paths[k] == x) && Hashable(x, docHash, contentHash)
  {
    if n == 0 then []
    else if Hashable(paths[n - 1], docHash, contentHash) then HashablePaths(paths, n - 1, docHash, contentHash) + [paths[n - 1]]
    else HashablePaths(paths, n - 1, docHash, contentHash)
  }

  /** `current_files` after the loop of `scan_current_files` has seen the first `n` listed paths. */
  function ScanUpTo(paths: seq<string>, n: nat, docHash: string -> Option<string>, contentHash: string -> Option<string>): (d: Dict)
    requires n <= |paths|
    ensures DictValid(d)
  {
    if n == 0 then EmptyDict()
    else
      var d := ScanUpTo(paths, n - 1, docHash, contentHash);
      var p := paths[n - 1];
      if Hashable(p, docHash, contentHash) then DictPut(d, FileInfo(p, docHash(p).value, contentHash(p).value)) else d
  }

  /** A path is scanned iff it was listed and both hashes were computed; its entry holds those hashes. */
  lemma {:induction false} ScanMembers(paths: seq<string>, n: nat, docHash: string -> Option<string>, contentHash: string -> Option<string>)
    requires n <= |paths|
    ensures forall p :: p in ScanUpTo(paths, n, docHash, contentHash).entries <==>
              (exists k :: 0 <= k < n && paths[k] == p) && Hashable(p, docHash, contentHash)
    ensures forall p :: p in ScanUpTo(paths, n, docHash, contentHash).entries ==>
              Hashable(p, docHash, contentHash) &&
              ScanUpTo(paths, n, docHash, contentHash).entries[p] == FileInfo(p, docHash(p).value, contentHash(p).value)
  {
    if n > 0 {
      ScanMembers(paths, n - 1, docHash, contentHash);
    }
  }

  /** The keys of `current_files` are the scanned paths in order of first listing. */
  lemma {:induction false} ScanOrder(paths: seq<string>, n: nat, docHash: string -> Option<string>, contentHash: string -> Option<string>)
    requires n <= |paths|
    ensures ScanUpTo(paths, n, docHash, contentHash).order == Dedup(HashablePaths(paths, n, docHash, contentHash))
  {
    if n > 0 {
      ScanOrder(paths, n - 1, docHash, contentHash);
      var t := HashablePaths(paths, n - 1, docHash, contentHash);
      if Hashable(paths[n - 1], docHash, contentHash) {
        assert (t + [paths[n - 1]])[..|t|] == t;
      }
    }
  }

  /** `current_files` for a listing of blob names. */
  function ScannedFiles(blobNames: seq<string>, docHash: string -> Option<string>, contentHash: string -> Option<string>): Dict {
    var pdfPaths := GcsClient.ListPdfs(blobNames);
    ScanUpTo(pdfPaths, |pdfPaths|, docHash, contentHash)
  }

  /**
   * `scan_current_files`: lists the source bucket (the `.pdf` filter of
   * `list_pdfs` over the given blob names) and records each file's doc_id and
   * content hash. A file whose hashing raises is left out and the scan goes
   * on. `docHash` and `contentHash` stand for `compute_doc_hash` and
   * `compute_content_hash`; `None` is an exception.
   */
  method ScanCurrentFiles(blobNames: seq<string>, docHash: string -> Option<string>, contentHash: string -> Option<string>)
    returns (current: Dict)
    ensures current == ScannedFiles(blobNames, docHash, contentHash)
    ensures DictValid(current)
    ensures forall p :: p in current.entries <==> p in GcsClient.ListPdfs(blobNames) && Hashable(p, docHash, contentHash)
    ensures forall p :: p in current.entries ==>
              Hashable(p, docHash, contentHash) && current.entries[p] == FileInfo(p, docHash(p).value, contentHash(p).value)
    ensures current.order == Dedup(HashablePaths(GcsClient.ListPdfs(blobNames), |GcsClient.ListPdfs(blobNames)|, docHash, contentHash))
  {
    var pdfPaths := GcsClient.ListPdfs(blobNames);
    current := EmptyDict();
    var i := 0;
    while i < |pdfPaths|
      invariant 0 <= i <= |pdfPaths|
      invariant current == ScanUpTo(pdfPaths, i, docHash, contentHash)
    {
      var path := pdfPaths[i];
      var d := docHash(path);
      if d.Some? {
        var c := contentHash(path);
        if c.Some? {
          current := DictPut(current, FileInfo(path, d.value, c.value));
        }
      }
      i := i + 1;
    }
    ScanMembers(pdfPaths, i, docHash, contentHash);
    ScanOrder(pdfPaths, i, docHash, contentHash);
  }

  // ------------------------------------------------------------------
  // get_db_files
  // ------------------------------------------------------------------

  /** The `FileInfo` of a document row; a NULL content_hash reads as "". */
  function DocInfo(doc: PDFDocument): (f: FileInfo)
    ensures f.path == doc.gcsPath && f.docId == doc.docId
    ensures doc.contentHash.None? ==> f.contentHash == ""
    ensures doc.contentHash.Some? ==> f.contentHash == doc.contentHash.value
  {
    FileInfo(doc.gcsPath, doc.docId, doc.contentHash.GetOr(""))
  }

  /** The gcs_path of every ACTIVE row among the first `n`, in query order. */
  function ActivePaths(rows: seq<PDFDocument>, n: nat): (r: seq<string>)
    requires n <= |rows|
    ensures forall x :: x in r <==> exists k :: 0 <= k < n && rows[k].status == Active && rows[k].gcsPath == x
  {
    if n == 0 then []
    else if rows[n - 1].status == Active then ActivePaths(rows, n - 1) + [rows[n - 1].gcsPath]
    else ActivePaths(rows, n - 1)
  }

  /** Row `k` is ACTIVE and no later ACTIVE row before `n` has the same path. */
  predicate LastActiveRow(rows: seq<PDFDocument>, n: int, k: int)
    requires 0 <= k < n <= |rows|
  {
    rows[k].status == Active &&
    forall j :: k < j < n && rows[j].status == Active ==> rows[j].gcsPath != rows[k].gcsPath
  }

  /** `db_files` after the loop of `get_db_files` has seen the first `n` rows. */
  function DbFilesUpTo(rows: seq<PDFDocument>, n: nat): (d: Dict)
    requires n <= |rows|
    ensures DictValid(d)
  {
    if n == 0 then EmptyDict()
    else
      var d := DbFilesUpTo(rows, n - 1);
      if rows[n - 1].status == Active then DictPut(d, DocInfo(rows[n - 1])) else d
  }

  /** The keys of `db_files` are the ACTIVE rows' paths in order of first appearance. */
  lemma {:induction false} DbFilesOrder(rows: seq<PDFDocument>, n: nat)
    requires n <= |rows|
    ensures DbFilesUpTo(rows, n).order == Dedup(ActivePaths(rows, n))
  {
    if n > 0 {
      DbFilesOrder(rows, n - 1);
      var t := ActivePaths(rows, n - 1);
      if rows[n - 1].status == Active {
        assert (t + [rows[n - 1].gcsPath])[..|t|] == t;
      }
    }
  }

  /** The value kept for a path is the last ACTIVE row with that path. */
  lemma {:induction false} DbFilesLastRowWins(rows: seq<PDFDocument>, n: nat, k: nat)
    requires k < n <= |rows| && LastActiveRow(rows, n, k)
    ensures rows[k].gcsPath in DbFilesUpTo(rows, n).entries
    ensures DbFilesUpTo(rows, n).entries[rows[k].gcsPath] == DocInfo(rows[k])
  {
    if k < n - 1 {
      assert LastActiveRow(rows, n - 1, k);
      DbFilesLastRowWins(rows, n - 1, k);
    }
  }

  /**
   * `get_db_files`: keeps only the ACTIVE rows of the query result and keys
   * them by gcs_path; when two ACTIVE rows share a path, the later row's
   * values are kept at the earlier row's place.
   */
  method GetDbFiles(rows: seq<PDFDocument>) returns (dbFiles: Dict)
    ensures dbFiles == DbFilesUpTo(rows, |rows|)
    ensures DictValid(dbFiles)
    ensures forall p :: p in dbFiles.entries <==> exists k :: 0 <= k < |rows| && rows[k].status == Active && rows[k].gcsPath == p
    ensures forall k :: 0 <= k < |rows| && LastActiveRow(rows, |rows|, k) ==> dbFiles.entries[rows[k].gcsPath] == DocInfo(rows[k])
    ensures dbFiles.order == Dedup(ActivePaths(rows, |rows|))
  {
    dbFiles := EmptyDict();
    var i := 0;
    while i < |rows|
      invariant 0 <= i <= |rows|
      invariant dbFiles == DbFilesUpTo(rows, i)
    {
      var doc := rows[i];
      if doc.status == Active {
        dbFiles := DictPut(dbFiles, DocInfo(doc));
      }
      i := i + 1;
    }
    forall k | 0 <= k < |rows| && LastActiveRow(rows, |rows|, k)
      ensures rows[k].gcsPath in dbFiles.entries && dbFiles.entries[rows[k].gcsPath] == DocInfo(rows[k])
    {
      DbFilesLastRowWins(rows, |rows|, k);
    }
    DbFilesOrder(rows, |rows|);
  }

  // ------------------------------------------------------------------
  // The content-hash indexes
  // ------------------------------------------------------------------

  /**
   * `{f.content_hash: f.path for f in d.values() (if f.content_hash)}` over
   * the first `n` keys: a later value overwrites an earlier one with the same
   * hash. With `skipEmpty` the empty hash is not indexed.
   */
  function HashIndexUpTo(d: Dict, n: nat, skipEmpty: bool): (r: map<string, string>)
    requires DictValid(d) && n <= |d.order|
    ensures forall h :: h in r ==> !(skipEmpty && h == "")
    ensures forall h :: h in r ==> r[h] in d.entries && d.entries[r[h]].contentHash == h
  {
    if n == 0 then map[]
    else
      var m := HashIndexUpTo(d, n - 1, skipEmpty);
      assert d.order[n - 1] in d.order;
      var f := d.entries[d.order[n - 1]];
      if skipEmpty && f.contentHash == "" then m else m[f.contentHash := f.path]
  }

  /** Key `i` among the first `n` has its hash indexed, unless it is an empty hash being skipped. */
  lemma {:induction false} HashIndexCovers(d: Dict, n: nat, skipEmpty: bool, i: nat)
    requires DictValid(d) && n <= |d.order| && i < n
    requires !(skipEmpty && d.entries[d.order[i]].contentHash == "")
    ensures d.entries[d.order[i]].contentHash in HashIndexUpTo(d, n, skipEmpty)
  {
    assert d.order[n - 1] in d.order;
    if i < n - 1 {
      HashIndexCovers(d, n - 1, skipEmpty, i);
    }
  }

  function HashIndex(d: Dict, skipEmpty: bool): map<string, string>
    requires DictValid(d)
  {
    HashIndexUpTo(d, |d.order|, skipEmpty)
  }

  /** The index maps a hash to the path of the last key in order that has it. */
  lemma {:induction false} HashIndexLastWins(d: Dict, n: nat, skipEmpty: bool, i: nat)
    requires DictValid(d) && n <= |d.order| && i < n
    requires !(skipEmpty && d.entries[d.order[i]].contentHash == "")
    requires forall j :: i < j < n ==> d.entries[d.order[j]].contentHash != d.entries[d.order[i]].contentHash
    ensures d.entries[d.order[i]].contentHash in HashIndexUpTo(d, n, skipEmpty)
    ensures HashIndexUpTo(d, n, skipEmpty)[d.entries[d.order[i]].contentHash] == d.order[i]
  {
    assert d.order[i] in d.order;
    if i < n - 1 {
      HashIndexLastWins(d, n - 1, skipEmpty, i);
    }
  }

  /** The live index `current_content_hashes`: every hash, including "". */
  function LiveIndex(current: Dict): map<string, string>
    requires DictValid(current)
  {
    HashIndex(current, false)
  }

  /** The DB index `db_content_hashes`: only non-empty hashes. */
  function DbIndex(dbFiles: Dict): map<string, string>
    requires DictValid(dbFiles)
  {
    HashIndex(dbFiles, true)
  }

  // ------------------------------------------------------------------
  // The classification
  // ------------------------------------------------------------------

  /** A live path that no ACTIVE row has, whose hash the DB index does not hold: reported as new. */
  predicate IsNew(current: Dict, dbFiles: Dict, f: FileInfo)
    requires DictValid(current) && DictValid(dbFiles)
  {
    f.path in current.entries && f.path !in dbFiles.entries && f == current.entries[f.path]
    && f.contentHash !in DbIndex(dbFiles)
  }

  /** A live path that no ACTIVE row has, whose hash the DB index holds: moved from the indexed path. */
  predicate IsMoved(current: Dict, dbFiles: Dict, m: Move)
    requires DictValid(current) && DictValid(dbFiles)
  {
    m.newPath in current.entries && m.newPath !in dbFiles.entries
    && m.contentHash == current.entries[m.newPath].contentHash
    && m.contentHash in DbIndex(dbFiles) && m.oldPath == DbIndex(dbFiles)[m.contentHash]
  }

  /** An ACTIVE row's path missing from the listing, with a non-empty hash that no live file has. */
  predicate IsDeleted(current: Dict, dbFiles: Dict, f: FileInfo)
    requires DictValid(current) && DictValid(dbFiles)
  {
    f.path in dbFiles.entries && f.path !in current.entries && f == dbFiles.entries[f.path]
    && f.contentHash != "" && f.contentHash !in LiveIndex(current)
  }

  /** A path on both sides, reported with its live `FileInfo`. */
  predicate IsUnchanged(current: Dict, dbFiles: Dict, f: FileInfo)
    requires DictValid(current) && DictValid(dbFiles)
  {
    f.path in current.entries && f.path in dbFiles.entries && f == current.entries[f.path]
  }

  predicate DistinctPaths(s: seq<FileInfo>) {
    forall i, j :: 0 <= i < j < |s| ==> s[i].path != s[j].path
  }

  predicate DistinctNewPaths(s: seq<Move>) {
    forall i, j :: 0 <= i < j < |s| ==> s[i].newPath != s[j].newPath
  }

  /** What `detect_changes` reports for the two dictionaries: each list holds exactly its items, once each. */
  ghost predicate Classified(current: Dict, dbFiles: Dict, c: Changes)
    requires DictValid(current) && DictValid(dbFiles)
  {
    && (forall f :: f in c.added <==> IsNew(current, dbFiles, f))
    && (forall m :: m in c.moved <==> IsMoved(current, dbFiles, m))
    && (forall f :: f in c.deleted <==> IsDeleted(current, dbFiles, f))
    && (forall f :: f in c.unmodified <==> IsUnchanged(current, dbFiles, f))
    && DistinctPaths(c.added) && DistinctNewPaths(c.moved) && DistinctPaths(c.deleted) && DistinctPaths(c.unmodified)
  }

  /** The first loop of `detect_changes`: live paths without an ACTIVE row become new or moved. */
  method ClassifyLivePaths(current: Dict, dbFiles: Dict) returns (added: seq<FileInfo>, moved: seq<Move>)
    requires DictValid(current) && DictValid(dbFiles)
    ensures forall f :: f in added <==> IsNew(current, dbFiles, f)
    ensures forall m :: m in moved <==> IsMoved(current, dbFiles, m)
    ensures DistinctPaths(added) && DistinctNewPaths(moved)
  {
    var dbIndex := DbIndex(dbFiles);
    added, moved := [], [];
    var remaining := current.entries.Keys - dbFiles.entries.Keys;
    while remaining != {}
      invariant remaining <= current.entries.Keys - dbFiles.entries.Keys
      invariant forall f :: f in added <==> IsNew(current, dbFiles, f) && f.path !in remaining
      invariant forall m :: m in moved <==> IsMoved(current, dbFiles, m) && m.newPath !in remaining
      invariant DistinctPaths(added) && DistinctNewPaths(moved)
      decreases remaining
    {
      var path :| path in remaining;
      var info := current.entries[path];
      if info.contentHash !in dbIndex {
        added := added + [info];
      } else {
        var oldPath := dbIndex[info.contentHash];
        moved := moved + [Move(oldPath, path, info.contentHash)];
      }
      remaining := remaining - {path};
    }
  }

  /** The second loop: ACTIVE rows missing from the listing whose non-empty hash no live file has. */
  method ClassifyMissingPaths(current: Dict, dbFiles: Dict) returns (deleted: seq<FileInfo>)
    requires DictValid(current) && DictValid(dbFiles)
    ensures forall f :: f in deleted <==> IsDeleted(current, dbFiles, f)
    ensures DistinctPaths(deleted)
  {
    var liveIndex := LiveIndex(current);
    deleted := [];
    var remaining := dbFiles.entries.Keys - current.entries.Keys;
    while remaining != {}
      invariant remaining <= dbFiles.entries.Keys - current.entries.Keys
      invariant forall f :: f in deleted <==> IsDeleted(current, dbFiles, f) && f.path !in remaining
      invariant DistinctPaths(deleted)
      decreases remaining
    {
      var path :| path in remaining;
      var info := dbFiles.entries[path];
      if info.contentHash != "" && info.contentHash !in liveIndex {
        deleted := deleted + [info];
      }
      remaining := remaining - {path};
    }
  }

  /** The third loop: paths on both sides, with their live `FileInfo`. */
  method CollectCommonPaths(current: Dict, dbFiles: Dict) returns (unmodified: seq<FileInfo>)
    requires DictValid(current) && DictValid(dbFiles)
    ensures forall f :: f in unmodified <==> IsUnchanged(current, dbFiles, f)
    ensures DistinctPaths(unmodified)
  {
    unmodified := [];
    var remaining := current.entries.Keys * dbFiles.entries.Keys;
    while remaining != {}
      invariant remaining <= current.entries.Keys * dbFiles.entries.Keys
      invariant forall f :: f in unmodified <==> IsUnchanged(current, dbFiles, f) && f.path !in remaining
      invariant DistinctPaths(unmodified)
      decreases remaining
    {
      var path :| path in remaining;
      unmodified := unmodified + [current.entries[path]];
      remaining := remaining - {path};
    }
  }

  /** The classification part of `detect_changes`, over the two dictionaries. */
  method Classify(current: Dict, dbFiles: Dict) returns (c: Changes)
    requires DictValid(current) && DictValid(dbFiles)
    ensures Classified(current, dbFiles, c)
  {
    var added, moved := ClassifyLivePaths(current, dbFiles);
    var deleted := ClassifyMissingPaths(current, dbFiles);
    var unmodified := CollectCommonPaths(current, dbFiles);
    c := Changes(added, deleted, moved, unmodified);
  }

  /**
   * `detect_changes`: scans the listing, reads the ACTIVE rows (in the order
   * the query returns them) and classifies.
   */
  method DetectChanges(blobNames: seq<string>, docHash: string -> Option<string>, contentHash: string -> Option<string>,
                       rows: seq<PDFDocument>)
    returns (c: Changes)
    ensures Classified(ScannedFiles(blobNames, docHash, contentHash), DbFilesUpTo(rows, |rows|), c)
  {
    var current := ScanCurrentFiles(blobNames, docHash, contentHash);
    var dbFiles := GetDbFiles(rows);
    c := Classify(current, dbFiles);
  }

  // ------------------------------------------------------------------
  // What the classification means
  // ------------------------------------------------------------------

  /** No path is in two categories: new and moved come from live-only paths, deleted from DB-only paths, unchanged is the overlap. */
  lemma CategoriesDisjoint(current: Dict, dbFiles: Dict, c: Changes)
    requires DictValid(current) && DictValid(dbFiles) && Classified(current, dbFiles, c)
    ensures forall f :: f in c.added ==> f.path in current.entries && f.path !in dbFiles.entries
    ensures forall m :: m in c.moved ==> m.newPath in current.entries && m.newPath !in dbFiles.entries
    ensures forall f :: f in c.deleted ==> f.path in dbFiles.entries && f.path !in current.entries
    ensures forall p :: p in current.entries ==> (p in dbFiles.entries <==> current.entries[p] in c.unmodified)
    ensures forall f :: f in c.unmodified ==> f.path in current.entries && f.path in dbFiles.entries
  {
    forall p | p in current.entries && p in dbFiles.entries
      ensures current.entries[p] in c.unmodified
    {
      assert IsUnchanged(current, dbFiles, current.entries[p]);
    }
  }

  /** Membership in the DB index: exactly the non-empty hashes of the ACTIVE rows. */
  lemma DbIndexHas(dbFiles: Dict, h: string)
    requires DictValid(dbFiles)
    ensures h in DbIndex(dbFiles) <==> h != "" && exists q :: q in dbFiles.entries && dbFiles.entries[q].contentHash == h
  {
    if h != "" && exists q :: q in dbFiles.entries && dbFiles.entries[q].contentHash == h {
      var q :| q in dbFiles.entries && dbFiles.entries[q].contentHash == h;
      var i :| 0 <= i < |dbFiles.order| && dbFiles.order[i] == q;
      HashIndexCovers(dbFiles, |dbFiles.order|, true, i);
    }
  }

  /** Membership in the live index: every live hash, "" included. */
  lemma LiveIndexHas(current: Dict, h: string)
    requires DictValid(current)
    ensures h in LiveIndex(current) <==> exists q :: q in current.entries && current.entries[q].contentHash == h
  {
    if exists q :: q in current.entries && current.entries[q].contentHash == h {
      var q :| q in current.entries && current.entries[q].contentHash == h;
      var i :| 0 <= i < |current.order| && current.order[i] == q;
      HashIndexCovers(current, |current.order|, false, i);
    }
  }

  /**
   * Every live path without an ACTIVE row is reported exactly once, as new or
   * as moved: moved iff its hash is non-empty and some ACTIVE row has it.
   */
  lemma LivePathNewOrMoved(current: Dict, dbFiles: Dict, c: Changes, p: string)
    requires DictValid(current) && DictValid(dbFiles) && Classified(current, dbFiles, c)
    requires p in current.entries && p !in dbFiles.entries
    ensures var h := current.entries[p].contentHash;
            var matched := h != "" && exists q :: q in dbFiles.entries && dbFiles.entries[q].contentHash == h;
            && (current.entries[p] in c.added <==> !matched)
            && ((exists m :: m in c.moved && m.newPath == p) <==> matched)
  {
    var h := current.entries[p].contentHash;
    DbIndexHas(dbFiles, h);
    if h in DbIndex(dbFiles) {
      assert IsMoved(current, dbFiles, Move(DbIndex(dbFiles)[h], p, h));
    } else {
      assert IsNew(current, dbFiles, current.entries[p]);
    }
  }

  /**
   * A reported move names as old path an ACTIVE row with the same non-empty
   * hash: the last such row in dictionary order when several share it.
   */
  lemma MovedFromLastMatchingRow(current: Dict, dbFiles: Dict, c: Changes, m: Move)
    requires DictValid(current) && DictValid(dbFiles) && Classified(current, dbFiles, c)
    requires m in c.moved
    ensures m.contentHash != "" && m.contentHash == current.entries[m.newPath].contentHash
    ensures m.oldPath in dbFiles.entries && dbFiles.entries[m.oldPath].contentHash == m.contentHash
    ensures forall i, j :: 0 <= i < j < |dbFiles.order| && dbFiles.order[i] == m.oldPath ==>
              dbFiles.entries[dbFiles.order[j]].contentHash != m.contentHash
  {
    assert IsMoved(current, dbFiles, m);
    forall i, j | 0 <= i < j < |dbFiles.order| && dbFiles.order[i] == m.oldPath
      ensures dbFiles.entries[dbFiles.order[j]].contentHash != m.contentHash
    {
      if dbFiles.entries[dbFiles.order[j]].contentHash == m.contentHash {
        var last := LastWithHash(dbFiles, m.contentHash, j);
        HashIndexLastWins(dbFiles, |dbFiles.order|, true, last);
        assert false;
      }
    }
  }

  /** The last position at or after `j` whose key has hash `h`. */
  function LastWithHash(d: Dict, h: string, j: nat): (k: nat)
    requires DictValid(d) && j < |d.order| && d.entries[d.order[j]].contentHash == h
    ensures j <= k < |d.order| && d.entries[d.order[k]].contentHash == h
    ensures forall l :: k < l < |d.order| ==> d.entries[d.order[l]].contentHash != h
    decreases |d.order| - j
  {
    if exists l :: j < l < |d.order| && d.entries[d.order[l]].contentHash == h then
      var l :| j < l < |d.order| && d.entries[d.order[l]].contentHash == h;
      LastWithHash(d, h, l)
    else j
  }

  /**
   * An ACTIVE row whose path is no longer listed is reported deleted iff its
   * hash is non-empty and no live file has it; otherwise its path is in no list.
   */
  lemma MissingPathDeletedOrDropped(current: Dict, dbFiles: Dict, c: Changes, p: string)
    requires DictValid(current) && DictValid(dbFiles) && Classified(current, dbFiles, c)
    requires p in dbFiles.entries && p !in current.entries
    ensures var h := dbFiles.entries[p].contentHash;
            dbFiles.entries[p] in c.deleted <==>
              h != "" && forall q :: q in current.entries ==> current.entries[q].contentHash != h
    ensures forall f :: f in c.added || f in c.unmodified ==> f.path != p
    ensures forall m :: m in c.moved ==> m.newPath != p
    ensures forall f :: f in c.deleted && f.path == p ==> f == dbFiles.entries[p]
  {
    LiveIndexHas(current, dbFiles.entries[p].contentHash);
  }

  /** The old path of a move is never also reported deleted: its hash lives on at the new path. */
  lemma MovedNeverDeleted(current: Dict, dbFiles: Dict, c: Changes, m: Move)
    requires DictValid(current) && DictValid(dbFiles) && Classified(current, dbFiles, c)
    requires m in c.moved
    ensures forall f :: f in c.deleted ==> f.path != m.oldPath
  {
    assert IsMoved(current, dbFiles, m);
    LiveIndexHas(current, m.contentHash);
  }

  /** A live file with an empty hash is never taken for a move. */
  lemma EmptyHashNeverMoved(current: Dict, dbFiles: Dict, c: Changes, p: string)
    requires DictValid(current) && DictValid(dbFiles) && Classified(current, dbFiles, c)
    requires p in current.entries && p !in dbFiles.entries && current.entries[p].contentHash == ""
    ensures current.entries[p] in c.added
  {
    DbIndexHas(dbFiles, "");
    assert IsNew(current, dbFiles, current.entries[p]);
  }

  /** Content is not compared for a path on both sides: a file rewritten in place is unchanged. */
  lemma RewrittenInPlaceIsUnchanged(current: Dict, dbFiles: Dict, c: Changes, p: string)
    requires DictValid(current) && DictValid(dbFiles) && Classified(current, dbFiles, c)
    requires p in current.entries && p in dbFiles.entries
    requires current.entries[p].contentHash != dbFiles.entries[p].contentHash
    ensures current.entries[p] in c.unmodified
    ensures forall f :: f in c.added || f in c.deleted ==> f.path != p
  {
    assert IsUnchanged(current, dbFiles, current.entries[p]);
  }
}
