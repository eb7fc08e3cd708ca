/** The metadata repository seen as a key-value store keyed by content identifier:
    `findById` is a lookup, `save` an upsert that replaces the whole record. */
module Store {
  import opened Types

  type Repository = map<Hash, PdfMetadata>

  /** findById: the stored record under `id`, if any. */
  function FindById(repo: Repository, id: Hash): (r: Option<PdfMetadata>)
    ensures r.Some? <==> id in repo
    ensures r.Some? ==> r.value == repo[id]
  {
    if id in repo then Some(repo[id]) else None
  }

  /** save: insert the record under its own key, or replace the one already there. */
  function Save(repo: Repository, record: PdfMetadata): (r: Repository)
    ensures r.Keys == repo.Keys + {record.sha256}
    ensures r[record.sha256] == record
    ensures forall k :: k in repo && k != record.sha256 ==> r[k] == repo[k]
  {
    repo[record.sha256 := record]
  }

  /** Every stored record sits under its own key. */
  ghost predicate KeyedByHash(repo: Repository) {
    forall k :: k in repo ==> repo[k].sha256 == k
  }

  lemma SaveKeepsKeyedByHash(repo: Repository, record: PdfMetadata)
    requires KeyedByHash(repo)
    ensures KeyedByHash(Save(repo, record))
  {
  }

  /** Saving twice under one key is saving the later record once. */
  lemma SaveLastWriteWins(repo: Repository, first: PdfMetadata, second: PdfMetadata)
    requires first.sha256 == second.sha256
    ensures Save(Save(repo, first), second) == Save(repo, second)
  {
  }

  /** A save adds at most one entry, and none when the key is already present. */
  lemma SaveSize(repo: Repository, record: PdfMetadata)
    ensures |Save(repo, record)| == if record.sha256 in repo then |repo| else |repo| + 1
  {
    var r := Save(repo, record);
    if record.sha256 in repo {
      assert r.Keys == repo.Keys;
    } else {
      assert r.Keys == repo.Keys + {record.sha256};
    }
  }

  /** Saves under different keys do not interfere: their order does not matter. */
  lemma SaveCommutes(repo: Repository, a: PdfMetadata, b: PdfMetadata)
    requires a.sha256 != b.sha256
    ensures Save(Save(repo, a), b) == Save(Save(repo, b), a)
  {
  }
}
