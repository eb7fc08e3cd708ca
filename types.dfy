/** Values shared by the controller and the service: the persisted metadata record
    (the JPA entity PdfMetadata), the raw upload bytes, the content identifier and
    what the PDF library hands back when it loads a document. */
module Types {

  datatype Option<+T> = None | Some(value: T)

  /** Raw bytes of an uploaded file. */
  type Bytes = seq<bv8>

  /** The content identifier: Base64 of the SHA-256 digest, used as the primary key. */
  type Hash = string

  /** The persisted record. `sha256` is the primary key. The library-derived fields are
      carried unchanged from the extractor; `scanned` is the clock reading taken when the
      record was built. */
  datatype PdfMetadata = PdfMetadata(
    sha256: Hash,
    filename: string,
    version: string,
    producer: Option<string>,
    author: Option<string>,
    created: string,
    modified: string,
    scanned: nat)

  /** The document information the PDF library reports for a loadable document. */
  datatype DocInfo = DocInfo(
    version: string,
    producer: Option<string>,
    author: Option<string>,
    created: string,
    modified: string)

  /** Result of asking the PDF library to load some bytes: the document information,
      or the I/O error it raises for bytes that are not a loadable document. */
  datatype Extraction = Loaded(info: DocInfo) | LoadFailed(reason: string)
}
