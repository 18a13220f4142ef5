/**
 * `run_pipeline` of scheduler/orchestrator.py: open a session, register
 * every listed PDF that is not yet in the document table, then hand each
 * pending document to the PDF manager, isolating one document's failure
 * from the next; the session is closed on every way out.
 *
 * The bucket listing is given as its blob names (None when listing raises),
 * whether `PDFManager.process` raises for a path is given as
 * `processRaises`, and where the repository raises, outside `process`, is
 * given as a `RepoFault`.
 */
module Orchestrator {
  import opened Wrappers
  import GcsClient
  import Repository

  /** The database session `run_pipeline` opens and must close. */
  class Session {
    var isOpen: bool

    constructor()
      ensures isOpen
    {
      isOpen := true;
    }

    method Close()
      modifies this
      ensures !isOpen
    {
      isOpen := false;
    }
  }

  /** One pass of the processing loop: the document's path and whether `process` returned normally. */
  datatype Attempt = Attempt(path: string, ok: bool)

  /**
   * Where a repository call outside `process` raises: in the registration
   * step for the listed path at index `step` (`document_exists` or
   * `create_document`, before that step writes), or in the pending query.
   */
  datatype RepoFault = NoFault | RegistrationFault(step: nat) | PendingQueryFault

  datatype RunOutcome =
    | ListingFailed
    | RepositoryFailed
    | Ran(registered: nat, attempts: seq<Attempt>)

  /** The document table after the registration loop has visited `paths` in order. */
  function Registered(rows: seq<Repository.DocRow>, paths: seq<string>): seq<Repository.DocRow> {
    if paths == [] then rows
    else
      var before := Registered(rows, paths[..|paths| - 1]);
      var path := paths[|paths| - 1];
      if Repository.HasPath(before, path) then before else before + [Repository.DocRow(path, 0, None)]
  }

  /** The rows the loop appends: one unprocessed row per listed path that had none. */
  ghost predicate AppendedOnce(rows: seq<Repository.DocRow>, paths: seq<string>, after: seq<Repository.DocRow>) {
    && |rows| <= |after| && after[..|rows|] == rows
    && (forall k :: |rows| <= k < |after| ==>
          after[k].gcsPath in paths && !Repository.HasPath(rows, after[k].gcsPath)
          && after[k].processed == 0 && after[k].processedAt.None?)
    && (forall k, l :: |rows| <= k < l < |after| ==> after[k].gcsPath != after[l].gcsPath)
  }

  /** One registration step keeps every row and every existing path, and leaves the visited path existing. */
  lemma RegisterStep(before: seq<Repository.DocRow>, path: string)
    ensures var after := if Repository.HasPath(before, path) then before else before + [Repository.DocRow(path, 0, None)];
            && |before| <= |after| && after[..|before|] == before
            && Repository.HasPath(after, path)
            && forall p :: Repository.HasPath(before, p) ==> Repository.HasPath(after, p)
  {
    if !Repository.HasPath(before, path) {
      var after := before + [Repository.DocRow(path, 0, None)];
      assert after[|before|].gcsPath == path;
      forall p | Repository.HasPath(before, p)
        ensures Repository.HasPath(after, p)
      {
        var i :| 0 <= i < |before| && before[i].gcsPath == p;
        assert after[i] == before[i];
      }
    }
  }

  /** Registration keeps the existing rows as a prefix. */
  lemma {:induction false} RegisteredPrefix(rows: seq<Repository.DocRow>, paths: seq<string>)
    ensures |rows| <= |Registered(rows, paths)| && Registered(rows, paths)[..|rows|] == rows
  {
    if paths != [] {
      var n := |paths| - 1;
      var before := Registered(rows, paths[..n]);
      RegisteredPrefix(rows, paths[..n]);
      RegisterStep(before, paths[n]);
      var after := Registered(rows, paths);
      assert after[..|rows|] == after[..|before|][..|rows|];
    }
  }

  /** After registration every listed path exists. */
  lemma {:induction false} RegisteredCovers(rows: seq<Repository.DocRow>, paths: seq<string>)
    ensures forall j :: 0 <= j < |paths| ==> Repository.HasPath(Registered(rows, paths), paths[j])
  {
    if paths != [] {
      var n := |paths| - 1;
      var before := Registered(rows, paths[..n]);
      RegisteredCovers(rows, paths[..n]);
      RegisterStep(before, paths[n]);
      forall j | 0 <= j < n
        ensures Repository.HasPath(Registered(rows, paths), paths[j])
      {
        assert paths[..n][j] == paths[j];
      }
    }
  }

  /**
   * Registration appends exactly one unprocessed row for each listed path
   * that had none, and nothing else.
   */
  lemma {:induction false} RegisteredEffect(rows: seq<Repository.DocRow>, paths: seq<string>)
    ensures AppendedOnce(rows, paths, Registered(rows, paths))
  {
    RegisteredPrefix(rows, paths);
    if paths != [] {
      var n := |paths| - 1;
      var before := Registered(rows, paths[..n]);
      RegisteredEffect(rows, paths[..n]);
      RegisteredPrefix(rows, paths[..n]);
      var after := Registered(rows, paths);
      if !Repository.HasPath(before, paths[n]) {
        assert after == before + [Repository.DocRow(paths[n], 0, None)];
        forall k, l | |rows| <= k < l < |after|
          ensures after[k].gcsPath != after[l].gcsPath
        {
          if l == |before| {
            assert after[k] == before[k];
          }
        }
      }
    }
  }

  /** The paths of the appended rows, as a set. */
  ghost function AppendedPaths(rows: seq<Repository.DocRow>, after: seq<Repository.DocRow>): set<string>
    requires |rows| <= |after|
  {
    set k | |rows| <= k < |after| :: after[k].gcsPath
  }

  /** k distinct values taken from positions [lo, hi) of a sequence form a set of hi - lo elements. */
  lemma {:induction false} DistinctPathsCount(after: seq<Repository.DocRow>, lo: nat, hi: nat)
    requires lo <= hi <= |after|
    requires forall k, l :: lo <= k < l < hi ==> after[k].gcsPath != after[l].gcsPath
    ensures |set k | lo <= k < hi :: after[k].gcsPath| == hi - lo
  {
    if lo < hi {
      DistinctPathsCount(after, lo, hi - 1);
      var s := set k | lo <= k < hi - 1 :: after[k].gcsPath;
      assert (set k | lo <= k < hi :: after[k].gcsPath) == s + {after[hi - 1].gcsPath};
      assert after[hi - 1].gcsPath !in s;
    }
  }

  /**
   * The number of rows registration appends is the number of distinct
   * listed paths that had no row, which is what `cnt` counts.
   */
  lemma RegisteredCount(rows: seq<Repository.DocRow>, paths: seq<string>)
    ensures |Registered(rows, paths)| - |rows|
            == |set p | p in paths && !Repository.HasPath(rows, p)|
  {
    var after := Registered(rows, paths);
    RegisteredEffect(rows, paths);
    DistinctPathsCount(after, |rows|, |after|);
    AppendedPathsUnlisted(rows, paths);
  }

  /** The appended paths are exactly the listed paths that had no row. */
  lemma AppendedPathsUnlisted(rows: seq<Repository.DocRow>, paths: seq<string>)
    ensures |rows| <= |Registered(rows, paths)|
    ensures AppendedPaths(rows, Registered(rows, paths)) == set p | p in paths && !Repository.HasPath(rows, p)
  {
    var after := Registered(rows, paths);
    RegisteredEffect(rows, paths);
    RegisteredCovers(rows, paths);
    var unlisted := set p | p in paths && !Repository.HasPath(rows, p);
    forall p | p in unlisted
      ensures p in AppendedPaths(rows, after)
    {
      var j :| 0 <= j < |paths| && paths[j] == p;
      var i :| 0 <= i < |after| && after[i].gcsPath == p;
      AppendedIndex(rows, after, p, i);
    }
  }

  /** A path with no row among `rows` can only sit past them in `after`. */
  lemma AppendedIndex(rows: seq<Repository.DocRow>, after: seq<Repository.DocRow>, p: string, i: nat)
    requires |rows| <= |after| && after[..|rows|] == rows
    requires !Repository.HasPath(rows, p)
    requires i < |after| && after[i].gcsPath == p
    ensures |rows| <= i
  {
  }

  /** The registration loop: register each listed path that has no row, counting them in `cnt`. */
  method RegisterListed(repo: Repository.Repository, pdfPaths: seq<string>) returns (cnt: nat)
    requires repo.Valid()
    modifies repo
    ensures repo.Valid() && repo.pages == old(repo.pages)
    ensures repo.documents == Registered(old(repo.documents), pdfPaths)
    ensures cnt == |repo.documents| - |old(repo.documents)|
  {
    cnt := 0;
    var i := 0;
    while i < |pdfPaths|
      invariant 0 <= i <= |pdfPaths|
      invariant repo.Valid() && repo.pages == old(repo.pages)
      invariant repo.documents == Registered(old(repo.documents), pdfPaths[..i])
      invariant |old(repo.documents)| <= |repo.documents|
      invariant cnt == |repo.documents| - |old(repo.documents)|
    {
      var path := pdfPaths[i];
      assert pdfPaths[..i + 1][..i] == pdfPaths[..i];
      var registered := repo.DocumentExists(path);
      if !registered {
        cnt := cnt + 1;
        var _ := repo.CreateDocument(path);
      }
      i := i + 1;
    }
    assert pdfPaths[..i] == pdfPaths;
  }

  /** The processing loop: every pending document once, in order; a raising one is recorded and the loop goes on. */
  method ProcessPending(pending: seq<Repository.DocRow>, processRaises: string -> bool) returns (attempts: seq<Attempt>)
    ensures |attempts| == |pending|
    ensures forall k :: 0 <= k < |pending| ==> attempts[k] == Attempt(pending[k].gcsPath, !processRaises(pending[k].gcsPath))
  {
    attempts := [];
    var j := 0;
    while j < |pending|
      invariant 0 <= j <= |pending| && |attempts| == j
      invariant forall k :: 0 <= k < j ==> attempts[k] == Attempt(pending[k].gcsPath, !processRaises(pending[k].gcsPath))
    {
      var ok := !processRaises(pending[j].gcsPath);
      attempts := attempts + [Attempt(pending[j].gcsPath, ok)];
      j := j + 1;
    }
  }

  /**
   * `run_pipeline`. The registration loop counts the paths it registers in
   * `cnt`; the processing loop visits the pending documents once each, in
   * the order the query returned them, and goes on after a failing one. A
   * raise from the listing or the repository ends the run, keeping what was
   * committed before it, and the session is closed on every way out.
   */
  method RunPipeline(repo: Repository.Repository, blobNames: Option<seq<string>>, fault: RepoFault,
                     processRaises: string -> bool)
    returns (outcome: RunOutcome, session: Session)
    requires repo.Valid()
    modifies repo
    ensures repo.Valid()
    ensures !session.isOpen
    ensures repo.pages == old(repo.pages)
    ensures blobNames.None? <==> outcome.ListingFailed?
    ensures outcome.ListingFailed? ==> repo.documents == old(repo.documents)
    ensures outcome.RepositoryFailed? <==>
              blobNames.Some?
              && (fault.PendingQueryFault? || (fault.RegistrationFault? && fault.step < |GcsClient.ListPdfs(blobNames.value)|))
    ensures outcome.RepositoryFailed? ==>
              var pdfPaths := GcsClient.ListPdfs(blobNames.value);
              repo.documents == Registered(old(repo.documents), if fault.RegistrationFault? then pdfPaths[..fault.step] else pdfPaths)
    ensures outcome.Ran? ==>
              var pdfPaths := GcsClient.ListPdfs(blobNames.value);
              && repo.documents == Registered(old(repo.documents), pdfPaths)
              && outcome.registered == |repo.documents| - |old(repo.documents)|
              && outcome.registered == |set p | p in pdfPaths && !Repository.HasPath(old(repo.documents), p)|
              && (forall j :: 0 <= j < |pdfPaths| ==> Repository.HasPath(repo.documents, pdfPaths[j]))
              && var pending := Repository.PendingRows(repo.documents);
                 && |outcome.attempts| == |pending|
                 && forall k :: 0 <= k < |pending| ==>
                      outcome.attempts[k] == Attempt(pending[k].gcsPath, !processRaises(pending[k].gcsPath))
  {
    session := new Session();
    if blobNames.None? {
      session.Close();
      return ListingFailed, session;
    }
    var pdfPaths := GcsClient.ListPdfs(blobNames.value);
    if fault.RegistrationFault? && fault.step < |pdfPaths| {
      var _ := RegisterListed(repo, pdfPaths[..fault.step]);
      session.Close();
      return RepositoryFailed, session;
    }
    var cnt := RegisterListed(repo, pdfPaths);
    RegisteredCovers(old(repo.documents), pdfPaths);
    RegisteredCount(old(repo.documents), pdfPaths);
    if fault.PendingQueryFault? {
      session.Close();
      return RepositoryFailed, session;
    }
    var pending := repo.GetPendingDocuments();
    var attempts := ProcessPending(pending, processRaises);
    session.Close();
    outcome := Ran(cnt, attempts);
  }
}
