# PDF metadata scanner: upload gate, naming rule and content-addressed store

A model of the two endpoints of the PDF metadata scanner and the service behind them.

- **`POST /scan`** refuses an empty upload ("File is empty"). It then refuses a file whose
  lower-cased name does not end in ".pdf" ("Invalid file type"). Only after both checks
  does it compute the content identifier, Base64 of SHA-256 of the bytes. It derives the
  stored name: one trailing lower-case ".pdf" is removed, then `_<millis>.pdf` is
  appended. It hands the bytes, identifier and name to the asynchronous extraction, and
  replies with the identifier at once.
- **Extraction** loads the document with the PDF library. It builds a `PdfMetadata`
  record whose key is the identifier and upserts it into the repository. If the document
  cannot be loaded, nothing is written and the I/O error is re-raised.
- **`GET /lookup/{hash}`** URL-decodes the path segment. A decoding failure gives 400
  "Invalid hash format" without reading the store. Otherwise the stored record is
  returned with 200, or 404 "Metadata not found" if there is none.

Modules, one file each:

- `Types`: the record, the upload bytes, the identifier, and the PDF library's answer.
- `Naming`: the suffix check, the strip, the decimal timestamp, and the derived name with
  its inverse.
- `Store`: the repository as a map with `FindById` and `Save`.
- `Service`: the extraction outcome, the class `PdfService` holding the repository, and
  the class `TaskExecutor`, the queue of extraction tasks that the asynchronous executor
  has not yet run.
- `Controller`: the gate `Decide`, the collaborator calls it entails, the replies, and
  the class `PdfController`.
- `Scenarios`: properties of request sequences.

The external capabilities are constants of the objects that use them:

- the digest `sha256: Bytes -> Hash` and the URL decoder `decode: string -> Option<string>`
  on the controller;
- the PDF library `load: Bytes -> Extraction` on the service.

The digest is deterministic because it is a function; nothing assumes it is injective.
The two clock reads are `nat` parameters: `millis` for the stored name, `scanned` for the
record.

The application enables asynchronous execution, so `scan` replies before extraction runs
and never sees its error. The model keeps this gap explicit. `Scan` only appends a task to
`TaskExecutor.pending` and changes no record. `TaskExecutor.RunTask(i, scanned)` runs any
pending task to completion, so tasks may complete in any order. Right after a scan, a
lookup of the returned identifier can still be "not found".

Two behaviours of the code are kept exactly as written:

- the type check ignores case but the strip removes only a lower-case ".pdf", so
  "Report.PDF" is accepted and stored as "Report.PDF_<millis>.pdf";
- an extraction error is re-raised out of the asynchronous method, where nothing reports
  it back to the client. `RunTask` returns the outcome, and `Scan`'s reply does not
  depend on it.

## Model

| member | source | states |
|---|---|---|
| Naming.HasPdfSuffix | src/main/java/com/example/pdfscanner/controller/PdfController.java:30 | every name ending in lower-case ".pdf" passes the type check, and every name that passes has at least four characters, the fourth from last being '.' |
| Naming.HasPdfSuffixByCharacters | src/main/java/com/example/pdfscanner/controller/PdfController.java:30 | the type check accepts exactly the names whose last four characters are '.', then p, d, f in either case |
| Naming.StripPdf | src/main/java/com/example/pdfscanner/controller/PdfController.java:37 | the stem is a prefix of the name; a name ending in lower-case ".pdf" loses exactly those four characters, any other name is kept whole |
| Naming.StripPdfRemovesOnlyOne | src/main/java/com/example/pdfscanner/controller/PdfController.java:37 | one trailing ".pdf" is removed, and in "x.pdf.pdf" the inner ".pdf" stays |
| Naming.StripPdfKeepsUpperCaseExtension | src/main/java/com/example/pdfscanner/controller/PdfController.java:30-37 | an accepted name whose extension is not all lower case is not stripped at all (the check ignores case, the strip does not) |
| Naming.Decimal | src/main/java/com/example/pdfscanner/controller/PdfController.java:38 | the timestamp text is a non-empty run of decimal digits with no leading zero |
| Naming.DecimalRoundTrip | src/main/java/com/example/pdfscanner/controller/PdfController.java:38 | reading the timestamp text back as a number gives the clock value |
| Naming.DecimalInjective | src/main/java/com/example/pdfscanner/controller/PdfController.java:38 | distinct clock values give distinct timestamp texts |
| Naming.DerivedName | src/main/java/com/example/pdfscanner/controller/PdfController.java:37-39 | the stored name ends in ".pdf" and starts with the stem followed by "_" |
| Naming.DerivedNameRoundTrip | src/main/java/com/example/pdfscanner/controller/PdfController.java:37-39 | splitting the stored name at its last "_" gives back the stem and the timestamp |
| Naming.DerivedNameInjective | src/main/java/com/example/pdfscanner/controller/PdfController.java:37-39 | two equal stored names come from the same stem and the same timestamp |
| Naming.DerivedNameOfLowerCaseExtension | src/main/java/com/example/pdfscanner/controller/PdfController.java:37-39 | "<stem>.pdf" is stored as "<stem>_<millis>.pdf" |
| Naming.DerivedNameOfUpperCaseExtension | src/main/java/com/example/pdfscanner/controller/PdfController.java:30-39 | "Report.PDF" passes the check and is stored as "Report.PDF_<millis>.pdf" |
| Store.FindById | src/main/java/com/example/pdfscanner/service/PdfService.java:52 | a record is returned exactly when the key is present, and it is the stored one |
| Store.Save | src/main/java/com/example/pdfscanner/service/PdfService.java:41 | after a save the record sits under its own key, the key set grows by that key only, and every other entry is unchanged |
| Store.SaveKeepsKeyedByHash | src/main/java/com/example/pdfscanner/service/PdfService.java:30-41 | if every record sits under its own key, a save keeps it so |
| Store.SaveLastWriteWins | src/main/java/com/example/pdfscanner/service/PdfService.java:41 | two saves under one key equal a single save of the later record |
| Store.SaveSize | src/main/java/com/example/pdfscanner/service/PdfService.java:41 | a save adds one entry for a new key and none for an existing key |
| Store.SaveCommutes | src/main/java/com/example/pdfscanner/service/PdfService.java:41 | saves under different keys can be reordered |
| Service.ExtractionOutcome | src/main/java/com/example/pdfscanner/service/PdfService.java:27-46 | extraction saves exactly when the document loads; the record carries the given identifier, filename and clock and the library's fields; otherwise the load error is raised unchanged |
| Service.ExtractionStoresUnderHash | src/main/java/com/example/pdfscanner/service/PdfService.java:30-41 | after a successful extraction, lookup of the identifier gives a record with that key and filename, and no other key changes |
| Service.FailedExtractionWritesNothing | src/main/java/com/example/pdfscanner/service/PdfService.java:43-46 | when the document cannot be loaded, the error is raised and the repository stays as it was |
| Service.ExtractionKeepsKeyedByHash | src/main/java/com/example/pdfscanner/service/PdfService.java:30-41 | extraction keeps every record under its own key; the class carries this as its invariant `Valid`, kept by the constructor and `ExtractMetadata` |
| Service.AfterExtraction | src/main/java/com/example/pdfscanner/service/PdfService.java:41-46 | a failed extraction leaves the repository as it was; a saved record is upserted: the key set grows by its identifier only, the record sits under it, every other entry is unchanged |
| Service.PdfService.ExtractMetadata | src/main/java/com/example/pdfscanner/service/PdfService.java:24-47 | the outcome is the extraction outcome of the loaded bytes, and the repository is upserted with the record or left alone |
| Service.PdfService.Lookup | src/main/java/com/example/pdfscanner/service/PdfService.java:49-59 | returns the record when the key is present, otherwise absent; the record found carries the key it was looked up by; reads the repository only |
| Service.TaskExecutor.Submit | src/main/java/com/example/pdfscanner/service/PdfService.java:23-24 | an asynchronous call only appends its task to the pending queue |
| Service.TaskExecutor.RunTask | src/main/java/com/example/pdfscanner/service/PdfService.java:23-47 | any pending task can run next; it leaves the queue and has exactly the effect of one extraction with its arguments |
| Controller.Decide | src/main/java/com/example/pdfscanner/controller/PdfController.java:26-39 | an empty upload is rejected as empty whatever its name; a non-empty upload is rejected as the wrong type exactly when its name fails the check; an accepted upload is handed off with its bytes, their digest and the derived name |
| Controller.CallsOf | src/main/java/com/example/pdfscanner/controller/PdfController.java:34-41 | a rejection calls no collaborator; an acceptance makes exactly two calls, the digest of the bytes, then one extraction with the task |
| Controller.ResponseOf | src/main/java/com/example/pdfscanner/controller/PdfController.java:26-42 | 200 with the task's identifier exactly when accepted; 400 "File is empty" or 400 "Invalid file type" for the two rejections |
| Controller.EmptyPayloadRejectedFirst | src/main/java/com/example/pdfscanner/controller/PdfController.java:26-28 | an empty upload gets 400 "File is empty" whatever its name, and no collaborator is called |
| Controller.WrongTypeRejected | src/main/java/com/example/pdfscanner/controller/PdfController.java:30-32 | a non-empty upload failing the type check gets "Invalid file type", with no digest and no extraction call |
| Controller.EmptyTextFileIsEmptyNotWrongType | src/main/java/com/example/pdfscanner/controller/PdfController.java:26-32 | an empty "x.txt" gets "File is empty", not "Invalid file type" |
| Controller.AcceptedIff | src/main/java/com/example/pdfscanner/controller/PdfController.java:26-34 | an upload is accepted exactly when it is non-empty and passes the type check |
| Controller.RejectionIndependentOfDigest | src/main/java/com/example/pdfscanner/controller/PdfController.java:26-34 | a rejection is the same whatever the digest function, so no identifier is computed |
| Controller.AcceptedHandOff | src/main/java/com/example/pdfscanner/controller/PdfController.java:34-42 | on acceptance the reply is 200 with the digest of the bytes; the calls are the digest, then one extraction with the same bytes, that digest and the derived name |
| Controller.AcceptedLowerCasePdf | src/main/java/com/example/pdfscanner/controller/PdfController.java:26-39 | a non-empty "<stem>.pdf" is accepted and handed off with its digest under "<stem>_<millis>.pdf" |
| Controller.SampleNameContainsStem | src/test/java/com/example/pdfscanner/PdfControllerTest.java:97-101 | "sample.pdf" is handed off under "sample_<millis>.pdf" |
| Controller.PdfController.Scan | src/main/java/com/example/pdfscanner/controller/PdfController.java:25-43 | the reply and the calls follow the gate; only an accepted upload queues its task; the repository is untouched |
| Controller.PdfController.Lookup | src/main/java/com/example/pdfscanner/controller/PdfController.java:46-64 | 400 "Invalid hash format" exactly when decoding fails; 404 "Metadata not found" exactly when the decoded key is absent; otherwise 200 with the stored record, whose identifier is the decoded key |
| Scenarios.ResubmissionLastWins | src/main/java/com/example/pdfscanner/service/PdfService.java:30-41 | the same bytes twice give the same identifier; after both extractions there is one entry for it, with the later name and clock |
| Scenarios.VisibleAfterCompletion | src/main/java/com/example/pdfscanner/service/PdfService.java:23-41 | once the task of an accepted, loadable upload has run, lookup of the returned identifier finds its record |
| Scenarios.MalformedNeverBecomesVisible | src/main/java/com/example/pdfscanner/service/PdfService.java:27-46 | an unloadable document still gets its identifier, but its task writes nothing and the key stays absent |
| Scenarios.FailureIsolated | src/main/java/com/example/pdfscanner/service/PdfService.java:41-46 | a failed task does not disturb another upload's record, in either completion order |
| Scenarios.ScanThenLookup | src/main/java/com/example/pdfscanner/controller/PdfController.java:25-62 | scanning "<stem>.pdf" returns the digest; lookup is 404 before the task runs, and afterwards finds a record under the digest named "<stem>_<millis>.pdf" with the document's fields and the scan clock |
| Scenarios.FreshStoreNotFound | src/main/java/com/example/pdfscanner/controller/PdfController.java:48-56 | on a fresh store a decodable identifier gets 404 "Metadata not found", not an error |

## Left out

- SHA-256 and Base64 (`HashUtil.sha256`): library calls, modelled as an arbitrary
  deterministic function that is not assumed injective.
- PDF parsing (`PDDocument.load`, `getDocumentInformation`, `getVersion`): a foreign
  library. It is modelled as a function that either loads the document or fails with an
  I/O error. The version, producer, author and date values it reports are carried as
  opaque values.
- Date conversion: the code passes strings into the date-typed fields and formats the
  scan time. The dates are opaque strings and the scan time is the `scanned` clock value.
- URL decoding: a library call, modelled as a partial function. Plus-to-space and percent
  escapes are not modelled.
- Lower-casing: only the ASCII letters are mapped. No other character lower-cases to '.',
  'p', 'd' or 'f', so the ".pdf" test is the same.
- Regex end anchor: `\.pdf$` can also match before a final line terminator. The strip
  runs only on names that passed the check, and those end in 'f' or 'F', so "remove one
  trailing lower-case .pdf" is exact there.
- A missing original filename (null): not modelled, since the upload name is always a
  string here.
- Concurrency: tasks run one at a time, in any order, between requests. The two clock
  reads are independent parameters. Logging and the executor's handling of the re-raised
  error are not modelled.
- Storage failures, and read failures of the uploaded bytes: not modelled. The repository
  is a map that always answers.
- HTTP transport, JSON bodies, Spring wiring, the JPA mapping and the application entry
  point: framework code, kept only as the reply datatypes and the record.
