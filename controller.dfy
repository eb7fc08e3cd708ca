/** The HTTP endpoints, without the transport: `scan` validates an upload, computes its
    content identifier, derives the stored name and hands extraction to the executor;
    `lookup` decodes the identifier and reads through the service. */
module Controller {
  import opened Types
  import opened Naming
  import Service

  /** An uploaded multipart file: its bytes and the name the client gave it. */
  datatype Upload = Upload(content: Bytes, originalFilename: string)

  datatype ScanError = FileEmpty | InvalidFileType

  function ErrorMessage(e: ScanError): string {
    match e
    case FileEmpty => "File is empty"
    case InvalidFileType => "Invalid file type"
  }

  /** What `scan` decides to do with an upload: reject it, or hand this task off. */
  datatype Decision = Reject(error: ScanError) | Accept(task: Service.Task)

  /** The gate and the naming rule: empty payload first, then the type check; only then
      the digest, the stored name and the task for extraction. */
  function Decide(file: Upload, millis: nat, sha256: Bytes -> Hash): (d: Decision)
    ensures d == Reject(FileEmpty) <==> |file.content| == 0
    ensures d == Reject(InvalidFileType) <==> |file.content| > 0 && !HasPdfSuffix(file.originalFilename)
    ensures d.Accept? ==>
      d.task == Service.Task(file.content, sha256(file.content), DerivedName(file.originalFilename, millis))
  {
    if |file.content| == 0 then Reject(FileEmpty)
    else if !HasPdfSuffix(file.originalFilename) then Reject(InvalidFileType)
    else
      Accept(Service.Task(file.content, sha256(file.content),
                          DerivedName(file.originalFilename, millis)))
  }

  /** A call `scan` makes on a collaborator: the digest, or the hand-off to extraction. */
  datatype Call = Digest(content: Bytes) | ExtractMetadata(task: Service.Task)

  /** The collaborator calls a decision entails, in order. */
  function CallsOf(d: Decision): (calls: seq<Call>)
    ensures calls == [] <==> d.Reject?
    ensures d.Accept? ==> |calls| == 2 && calls[0] == Digest(d.task.content) && calls[1] == ExtractMetadata(d.task)
  {
    match d
    case Reject(_) => []
    case Accept(t) => [Digest(t.content), ExtractMetadata(t)]
  }

  /** The body of scan's reply: {"sha256": ...} with 200, or {"error": ...} with 400. */
  datatype ScanResponse = Accepted(sha256: Hash) | Rejected(error: string) {
    function Status(): nat {
      if Accepted? then 200 else 400
    }
  }

  function ResponseOf(d: Decision): (r: ScanResponse)
    ensures r.Accepted? <==> d.Accept?
    ensures d.Accept? ==> r.sha256 == d.task.sha256 && r.Status() == 200
    ensures d == Reject(FileEmpty) ==> r == Rejected("File is empty") && r.Status() == 400
    ensures d == Reject(InvalidFileType) ==> r == Rejected("Invalid file type") && r.Status() == 400
  {
    match d
    case Reject(e) => Rejected(ErrorMessage(e))
    case Accept(t) => Accepted(t.sha256)
  }

  /** The reply of lookup: the record with 200, "Metadata not found" with 404, or
      "Invalid hash format" with 400. */
  datatype LookupResponse = Found(metadata: PdfMetadata) | NotFound(error: string) | BadRequest(error: string) {
    function Status(): nat {
      match this
      case Found(_) => 200
      case NotFound(_) => 404
      case BadRequest(_) => 400
    }
  }

  /** An empty payload is refused as empty whatever its name, and nothing is called. */
  lemma EmptyPayloadRejectedFirst(file: Upload, millis: nat, sha256: Bytes -> Hash)
    requires |file.content| == 0
    ensures ResponseOf(Decide(file, millis, sha256)) == Rejected("File is empty")
    ensures ResponseOf(Decide(file, millis, sha256)).Status() == 400
    ensures CallsOf(Decide(file, millis, sha256)) == []
  {
  }

  /** A non-empty payload whose lower-cased name does not end in ".pdf" is refused as the
      wrong type, and neither the digest nor extraction is called. */
  lemma WrongTypeRejected(file: Upload, millis: nat, sha256: Bytes -> Hash)
    requires |file.content| > 0 && !HasPdfSuffix(file.originalFilename)
    ensures ResponseOf(Decide(file, millis, sha256)) == Rejected("Invalid file type")
    ensures CallsOf(Decide(file, millis, sha256)) == []
  {
  }

  /** The empty check runs first: an empty "x.txt" gets "File is empty". */
  lemma EmptyTextFileIsEmptyNotWrongType(millis: nat, sha256: Bytes -> Hash)
    ensures !HasPdfSuffix("x.txt")
    ensures ResponseOf(Decide(Upload([], "x.txt"), millis, sha256)) == Rejected("File is empty")
  {
    HasPdfSuffixByCharacters("x.txt");
  }

  /** An upload is accepted exactly when it is non-empty and passes the type check. */
  lemma AcceptedIff(file: Upload, millis: nat, sha256: Bytes -> Hash)
    ensures Decide(file, millis, sha256).Accept? <==> |file.content| > 0 && HasPdfSuffix(file.originalFilename)
  {
  }

  /** A rejection does not depend on the digest: the identifier is never computed. */
  lemma RejectionIndependentOfDigest(file: Upload, millis: nat, d1: Bytes -> Hash, d2: Bytes -> Hash)
    requires Decide(file, millis, d1).Reject?
    ensures Decide(file, millis, d1) == Decide(file, millis, d2)
  {
  }

  /** On acceptance the reply is exactly the digest of the bytes, and extraction is
      called once, with the same bytes, that digest and the derived name. */
  lemma AcceptedHandOff(file: Upload, millis: nat, sha256: Bytes -> Hash)
    requires |file.content| > 0 && HasPdfSuffix(file.originalFilename)
    ensures var d := Decide(file, millis, sha256);
      && ResponseOf(d) == Accepted(sha256(file.content))
      && ResponseOf(d).Status() == 200
      && CallsOf(d) == [Digest(file.content), ExtractMetadata(Service.Task(file.content, sha256(file.content), DerivedName(file.originalFilename, millis)))]
  {
  }

  /** An upload named "<stem>.pdf" is accepted and handed off as "<stem>_<millis>.pdf". */
  lemma AcceptedLowerCasePdf(stem: string, content: Bytes, millis: nat, sha256: Bytes -> Hash)
    requires |content| > 0
    ensures Decide(Upload(content, stem + PdfExtension), millis, sha256) ==
      Accept(Service.Task(content, sha256(content), stem + "_" + Decimal(millis) + PdfExtension))
  {
    var name := stem + PdfExtension;
    HasPdfSuffixByCharacters(name);
    assert name[|name| - 4..] == PdfExtension;
    DerivedNameOfLowerCaseExtension(stem, millis);
  }

  /** The accepted "sample.pdf" is stored under a name that starts with "sample_" and
      ends in ".pdf". */
  lemma SampleNameContainsStem(content: Bytes, millis: nat, sha256: Bytes -> Hash)
    requires |content| > 0
    ensures var d := Decide(Upload(content, "sample.pdf"), millis, sha256);
      && d.Accept?
      && d.task.filename == "sample_" + Decimal(millis) + PdfExtension
  {
    AcceptedLowerCasePdf("sample", content, millis, sha256);
    assert "sample" + PdfExtension == "sample.pdf";
  }

  class PdfController {
    const executor: Service.TaskExecutor
    const service: Service.PdfService
    /** The digest: Base64 of SHA-256 of the bytes. */
    const sha256: Bytes -> Hash
    /** URL decoding of a path segment; None where the decoder throws. */
    const decode: string -> Option<string>
    /** The collaborator calls made so far, for stating what scan calls and when. */
    ghost var calls: seq<Call>

    constructor (executor: Service.TaskExecutor, sha256: Bytes -> Hash, decode: string -> Option<string>)
      ensures this.executor == executor && service == executor.service
      ensures this.sha256 == sha256 && this.decode == decode && calls == []
    {
      this.executor := executor;
      service := executor.service;
      this.sha256 := sha256;
      this.decode := decode;
      calls := [];
    }

    /** POST /scan. `millis` is the clock read for the stored name. The reply comes back
        before extraction runs: an accepted upload only queues its task. */
    method Scan(file: Upload, millis: nat) returns (response: ScanResponse)
      modifies this, executor
      ensures response == ResponseOf(Decide(file, millis, sha256))
      ensures calls == old(calls) + CallsOf(Decide(file, millis, sha256))
      ensures executor.pending == old(executor.pending) +
        (match Decide(file, millis, sha256) case Accept(t) => [t] case Reject(_) => [])
      ensures service.repository == old(service.repository)
    {
      if |file.content| == 0 {
        return Rejected("File is empty");
      }
      if !HasPdfSuffix(file.originalFilename) {
        return Rejected("Invalid file type");
      }
      var hash := sha256(file.content);
      calls := calls + [Digest(file.content)];
      var stem := StripPdf(file.originalFilename);
      var newFileName := stem + "_" + Decimal(millis) + PdfExtension;
      var task := Service.Task(file.content, hash, newFileName);
      executor.Submit(task);
      calls := calls + [ExtractMetadata(task)];
      response := Accepted(hash);
    }

    /** GET /lookup/{hash}: decode the path segment, then read through the service. */
    method Lookup(hash: string) returns (response: LookupResponse)
      requires service.Valid()
      ensures response.BadRequest? <==> decode(hash).None?
      ensures response.BadRequest? ==> response.error == "Invalid hash format"
      ensures response.NotFound? <==> decode(hash).Some? && decode(hash).value !in service.repository
      ensures response.NotFound? ==> response.error == "Metadata not found"
      ensures response.Found? <==> decode(hash).Some? && decode(hash).value in service.repository
      ensures response.Found? ==> response.metadata == service.repository[decode(hash).value]
      ensures response.Found? ==> response.metadata.sha256 == decode(hash).value
    {
      var decoded := decode(hash);
      match decoded {
        case None =>
          response := BadRequest("Invalid hash format");
        case Some(key) =>
          var metadata := service.Lookup(key);
          if metadata.None? {
            response := NotFound("Metadata not found");
          } else {
            response := Found(metadata.value);
          }
      }
    }
  }
}
