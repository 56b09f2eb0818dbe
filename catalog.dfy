/**
 * The catalog: the `ingress` table of (hash, filepath, filename) rows, unique on
 * all three columns, and the `storage` table keyed by hash.
 */
module Catalog {
  import opened Wrappers

  /** A NULL hash is `None`. */
  datatype IngressRow = IngressRow(hash: Option<string>, filepath: string, filename: string)

  /** The columns after the primary key; `scanname` is NULL when a writer leaves it out. */
  datatype StorageRow = StorageRow(filepath: string, filename: string, scanname: Option<string>)

  /** `sqlite3.OperationalError` from a SELECT on a file that does not hold the tables yet. */
  datatype SelectError = NoTables

  /** The two tables of one SQLite file, and whether the file holds them yet. */
  class Catalog {
    var created: bool
    var ingress: set<IngressRow>
    var storage: map<string, StorageRow>

    /** The file `sqlite3.connect` opens when none is there: no tables at all. */
    constructor ()
      ensures !created && ingress == {} && storage == map[]
    {
      created := false;
      ingress := {};
      storage := map[];
    }
  }
}
