/** The metadata service: extraction builds a record keyed by the content identifier and
    upserts it, or writes nothing and re-raises when the document cannot be loaded;
    lookup is a read-only get-or-absent. Extraction runs on the asynchronous executor,
    modelled here as a queue of submitted tasks that complete one at a time. */
module Service {
  import opened Types
  import Store

  /** What one extraction did: saved this record, or raised this load error. */
  datatype Outcome = Saved(record: PdfMetadata) | Failed(reason: string)

  /** The outcome of extracting a document the PDF library reported as `loaded`. */
  function ExtractionOutcome(loaded: Extraction, sha256: Hash, filename: string, scanned: nat): (o: Outcome)
    ensures o.Saved? <==> loaded.Loaded?
    ensures o.Saved? ==>
      && o.record.sha256 == sha256
      && o.record.filename == filename
      && o.record.scanned == scanned
      && o.record.version == loaded.info.version
      && o.record.producer == loaded.info.producer
      && o.record.author == loaded.info.author
      && o.record.created == loaded.info.created
      && o.record.modified == loaded.info.modified
    ensures o.Failed? ==> o.reason == loaded.reason
  {
    match loaded
    case Loaded(info) =>
      Saved(PdfMetadata(sha256, filename, info.version, info.producer, info.author,
                        info.created, info.modified, scanned))
    case LoadFailed(reason) => Failed(reason)
  }

  /** The repository after an extraction with outcome `o`. */
  function AfterExtraction(repo: Store.Repository, o: Outcome): (r: Store.Repository)
    ensures o.Failed? ==> r == repo
    ensures o.Saved? ==>
      && r.Keys == repo.Keys + {o.record.sha256}
      && r[o.record.sha256] == o.record
      && forall k :: k in repo && k != o.record.sha256 ==> r[k] == repo[k]
  {
    match o
    case Saved(record) => Store.Save(repo, record)
    case Failed(_) => repo
  }

  /** After a successful extraction the identifier maps to a record carrying that
      identifier and the given filename; no other key changes. */
  lemma ExtractionStoresUnderHash(repo: Store.Repository, info: DocInfo, sha256: Hash, filename: string, scanned: nat)
    ensures var r := AfterExtraction(repo, ExtractionOutcome(Loaded(info), sha256, filename, scanned));
      && Store.FindById(r, sha256).Some?
      && Store.FindById(r, sha256).value.sha256 == sha256
      && Store.FindById(r, sha256).value.filename == filename
      && r.Keys == repo.Keys + {sha256}
      && forall k :: k in repo && k != sha256 ==> r[k] == repo[k]
  {
  }

  /** A document that cannot be loaded leaves the repository as it was. */
  lemma FailedExtractionWritesNothing(repo: Store.Repository, reason: string, sha256: Hash, filename: string, scanned: nat)
    ensures ExtractionOutcome(LoadFailed(reason), sha256, filename, scanned) == Failed(reason)
    ensures AfterExtraction(repo, Failed(reason)) == repo
  {
  }

  /** Extraction keeps every record under its own key. */
  lemma ExtractionKeepsKeyedByHash(repo: Store.Repository, loaded: Extraction, sha256: Hash, filename: string, scanned: nat)
    requires Store.KeyedByHash(repo)
    ensures Store.KeyedByHash(AfterExtraction(repo, ExtractionOutcome(loaded, sha256, filename, scanned)))
  {
  }

  class PdfService {
    /** The PDF library: load the bytes and report the document information, or fail. */
    const load: Bytes -> Extraction
    /** The repository's contents. */
    var repository: Store.Repository

    /** Every stored record sits under its own identifier. */
    ghost predicate Valid()
      reads this
    {
      Store.KeyedByHash(repository)
    }

    constructor (load: Bytes -> Extraction)
      ensures Valid() && this.load == load && repository == map[]
    {
      this.load := load;
      repository := map[];
    }

    /** Load the document, build its record keyed by `sha256` and upsert it; when loading
        fails, write nothing and hand the error back to the caller. */
    method ExtractMetadata(content: Bytes, sha256: Hash, filename: string, scanned: nat) returns (outcome: Outcome)
      requires Valid()
      modifies this
      ensures Valid()
      ensures outcome == ExtractionOutcome(load(content), sha256, filename, scanned)
      ensures repository == AfterExtraction(old(repository), outcome)
    {
      var loaded := load(content);
      match loaded {
        case Loaded(info) =>
          var record := PdfMetadata(sha256, filename, info.version, info.producer, info.author,
                                    info.created, info.modified, scanned);
          repository := Store.Save(repository, record);
          outcome := Saved(record);
        case LoadFailed(reason) =>
          outcome := Failed(reason);
      }
    }

    /** The stored record under `hash`, or absent; reads the repository only. */
    function Lookup(hash: Hash): (r: Option<PdfMetadata>)
      requires Valid()
      reads this
      ensures r.Some? <==> hash in repository
      ensures r.Some? ==> r.value == repository[hash] && r.value.sha256 == hash
    {
      Store.FindById(repository, hash)
    }
  }

  /** The arguments of one asynchronous extractMetadata call. */
  datatype Task = Task(content: Bytes, sha256: Hash, filename: string)

  /** The asynchronous executor in front of the service: submitting a task returns at
      once; a pending task runs later, in any order relative to the others. */
  class TaskExecutor {
    const service: PdfService
    var pending: seq<Task>

    constructor (service: PdfService)
      ensures this.service == service && pending == []
    {
      this.service := service;
      pending := [];
    }

    method Submit(task: Task)
      modifies this
      ensures pending == old(pending) + [task]
    {
      pending := pending + [task];
    }

    /** Run the pending task at index `i` to completion, `scanned` being the clock when it
        builds its record; its load error, if any, is returned and not raised further. */
    method RunTask(i: nat, scanned: nat) returns (outcome: Outcome)
      requires i < |pending| && service.Valid()
      modifies this, service
      ensures service.Valid()
      ensures pending == old(pending[..i] + pending[i + 1..])
      ensures var t := old(pending[i]);
        outcome == ExtractionOutcome(service.load(t.content), t.sha256, t.filename, scanned)
      ensures service.repository == AfterExtraction(old(service.repository), outcome)
    {
      var t := pending[i];
      pending := pending[..i] + pending[i + 1..];
      outcome := service.ExtractMetadata(t.content, t.sha256, t.filename, scanned);
    }
  }
}
