/** Properties of whole sequences of requests: resubmission, the window between the scan
    reply and the record becoming visible, and isolation of failed extractions. */
module Scenarios {
  import opened Types
  import opened Naming
  import Store
  import Service
  import opened Controller

  /** The repository after the task of an accepted upload has run. */
  function RunDecision(repo: Store.Repository, d: Decision, load: Bytes -> Extraction, scanned: nat): Store.Repository
    requires d.Accept?
  {
    Service.AfterExtraction(repo, Service.ExtractionOutcome(load(d.task.content), d.task.sha256, d.task.filename, scanned))
  }

  /** The same bytes submitted twice get the same identifier both times; once both
      extractions have run, exactly one entry exists for it, carrying the later name. */
  lemma ResubmissionLastWins(repo: Store.Repository, first: Upload, second: Upload, m1: nat, m2: nat,
                             sha256: Bytes -> Hash, load: Bytes -> Extraction, t1: nat, t2: nat)
    requires |first.content| > 0 && first.content == second.content && load(first.content).Loaded?
    requires HasPdfSuffix(first.originalFilename) && HasPdfSuffix(second.originalFilename)
    ensures ResponseOf(Decide(first, m1, sha256)) == ResponseOf(Decide(second, m2, sha256))
    ensures var key := sha256(first.content);
      var r := RunDecision(RunDecision(repo, Decide(first, m1, sha256), load, t1), Decide(second, m2, sha256), load, t2);
      && r.Keys == repo.Keys + {key}
      && |r| == (if key in repo then |repo| else |repo| + 1)
      && r[key].filename == DerivedName(second.originalFilename, m2)
      && r[key].scanned == t2
  {
    var key := sha256(first.content);
    var info := load(first.content).info;
    var a := Service.ExtractionOutcome(Loaded(info), key, DerivedName(first.originalFilename, m1), t1);
    var b := Service.ExtractionOutcome(Loaded(info), key, DerivedName(second.originalFilename, m2), t2);
    Store.SaveLastWriteWins(repo, a.record, b.record);
    Store.SaveSize(repo, b.record);
  }

  /** Scanning alone stores nothing; once the handed-off task has run with a loadable
      document, lookup by the returned identifier finds the record. */
  lemma VisibleAfterCompletion(repo: Store.Repository, file: Upload, millis: nat,
                               sha256: Bytes -> Hash, load: Bytes -> Extraction, scanned: nat)
    requires Decide(file, millis, sha256).Accept? && load(file.content).Loaded?
    ensures var r := RunDecision(repo, Decide(file, millis, sha256), load, scanned);
      && Store.FindById(r, ResponseOf(Decide(file, millis, sha256)).sha256).Some?
      && Store.FindById(r, sha256(file.content)).value.filename == DerivedName(file.originalFilename, millis)
      && Store.FindById(r, sha256(file.content)).value.scanned == scanned
  {
  }

  /** Bytes the library cannot load: the identifier is still returned, but the task's
      completion writes nothing, so lookup stays absent unless something else saved it. */
  lemma MalformedNeverBecomesVisible(repo: Store.Repository, file: Upload, millis: nat,
                                     sha256: Bytes -> Hash, load: Bytes -> Extraction, scanned: nat)
    requires Decide(file, millis, sha256).Accept? && load(file.content).LoadFailed?
    requires sha256(file.content) !in repo
    ensures ResponseOf(Decide(file, millis, sha256)) == Accepted(sha256(file.content))
    ensures RunDecision(repo, Decide(file, millis, sha256), load, scanned) == repo
    ensures Store.FindById(RunDecision(repo, Decide(file, millis, sha256), load, scanned), sha256(file.content)) == None
  {
  }

  /** A failed extraction does not disturb another upload's record: running the two
      tasks in either order leaves the same repository. */
  lemma FailureIsolated(repo: Store.Repository, good: Upload, bad: Upload, mg: nat, mb: nat,
                        sha256: Bytes -> Hash, load: Bytes -> Extraction, tg: nat, tb: nat)
    requires |good.content| > 0 && HasPdfSuffix(good.originalFilename) && load(good.content).Loaded?
    requires |bad.content| > 0 && HasPdfSuffix(bad.originalFilename) && load(bad.content).LoadFailed?
    ensures var dg := Decide(good, mg, sha256); var db := Decide(bad, mb, sha256);
      && RunDecision(RunDecision(repo, dg, load, tg), db, load, tb) == RunDecision(repo, dg, load, tg)
      && RunDecision(RunDecision(repo, db, load, tb), dg, load, tg) == RunDecision(repo, dg, load, tg)
  {
  }

  /** The end-to-end path through the objects: scan "<stem>.pdf" (say "report.pdf"), look
      it up before and after the extraction task runs. */
  method ScanThenLookup(sha256: Bytes -> Hash, decode: string -> Option<string>, load: Bytes -> Extraction,
                        content: Bytes, stem: string, millis: nat, scanned: nat, encoded: string)
    returns (reply: ScanResponse, before: LookupResponse, after: LookupResponse)
    requires |content| > 0 && load(content).Loaded?
    requires decode(encoded) == Some(sha256(content))
    ensures reply == Accepted(sha256(content))
    ensures before == NotFound("Metadata not found")
    ensures after.Found?
    ensures after.metadata.sha256 == sha256(content)
    ensures after.metadata.filename == stem + "_" + Decimal(millis) + PdfExtension
    ensures after.metadata.version == load(content).info.version
    ensures after.metadata.producer == load(content).info.producer
    ensures after.metadata.author == load(content).info.author
    ensures after.metadata.created == load(content).info.created
    ensures after.metadata.modified == load(content).info.modified
    ensures after.metadata.scanned == scanned
  {
    var service := new Service.PdfService(load);
    var executor := new Service.TaskExecutor(service);
    var controller := new PdfController(executor, sha256, decode);
    var file := Upload(content, stem + PdfExtension);
    var hash, name := sha256(content), stem + "_" + Decimal(millis) + PdfExtension;
    var task := Service.Task(content, hash, name);
    AcceptedLowerCasePdf(stem, content, millis, sha256);
    reply := controller.Scan(file, millis);
    assert executor.pending == [task] && service.repository == map[];
    before := controller.Lookup(encoded);
    var info := load(content).info;
    var expected := PdfMetadata(hash, name, info.version, info.producer, info.author,
                                info.created, info.modified, scanned);
    var outcome := executor.RunTask(0, scanned);
    assert outcome == Service.Saved(expected);
    assert service.repository == map[hash := expected];
    after := controller.Lookup(encoded);
    assert after == Found(expected);
  }

  /** A never-submitted identifier on a fresh store is not found, and that is not an error. */
  method FreshStoreNotFound(sha256: Bytes -> Hash, decode: string -> Option<string>, load: Bytes -> Extraction, id: string)
    returns (response: LookupResponse)
    requires decode(id).Some?
    ensures response == NotFound("Metadata not found") && response.Status() == 404
  {
    var service := new Service.PdfService(load);
    var executor := new Service.TaskExecutor(service);
    var controller := new PdfController(executor, sha256, decode);
    response := controller.Lookup(id);
  }
}
