/** The `deals` table of database.py: one row per product link, the link
    being the primary key, written with INSERT OR IGNORE. The SQLite file is
    modelled as an object holding whether the table exists and its rows; the
    connection, cursor and commit are not modelled. */
module Database {
  import opened Maybe

  /** The non-key columns of a row: title, price and old_price. */
  datatype Row = Row(title: string, price: string, oldPrice: Option<string>)

  /** `INSERT OR IGNORE INTO deals (link, ...)`: a new link gets the row, a
      link already present keeps the row it has (first write wins), and no
      other row changes. */
  function InsertOrIgnore(rows: map<string, Row>, link: string, row: Row): (r: map<string, Row>)
    ensures r.Keys == rows.Keys + {link}
    ensures forall l :: l in rows ==> r[l] == rows[l]
    ensures link !in rows ==> r[link] == row
  {
    if link in rows then rows else rows[link := row]
  }

  /** Writing the same row twice has the effect of writing it once. */
  lemma InsertOrIgnoreIdempotent(rows: map<string, Row>, link: string, row: Row)
    ensures InsertOrIgnore(InsertOrIgnore(rows, link, row), link, row) == InsertOrIgnore(rows, link, row)
  {
  }

  /** An insert adds at most one row. */
  lemma {:induction false} InsertOrIgnoreSize(rows: map<string, Row>, link: string, row: Row)
    ensures |InsertOrIgnore(rows, link, row)| == if link in rows then |rows| else |rows| + 1
  {
    if link !in rows {
      assert InsertOrIgnore(rows, link, row).Keys == rows.Keys + {link};
    }
  }

  /** The database file. `tableExists` says whether `CREATE TABLE` has run;
      `rows` maps each stored link to its row, so there is at most one row
      per link by construction. */
  class DealStore {
    var tableExists: bool
    var rows: map<string, Row>

    ghost predicate Valid()
      reads this
    {
      !tableExists ==> rows == map[]
    }

    /** Opens a database file as a previous run left it: either without the
        table, or with the table and its rows. */
    constructor Open(hasTable: bool, existing: map<string, Row>)
      requires !hasTable ==> existing == map[]
      ensures Valid()
      ensures tableExists == hasTable && rows == existing
    {
      tableExists := hasTable;
      rows := existing;
    }

    /** `init_db`: CREATE TABLE IF NOT EXISTS. It creates the table when it
        is missing and never removes or alters a row, so calling it again
        changes nothing. */
    method InitDb()
      requires Valid()
      modifies this
      ensures Valid()
      ensures tableExists && rows == old(rows)
    {
      if !tableExists {
        tableExists := true;
        rows := map[];
      }
    }

    /** `deal_exists(link)`: whether a row with this link is stored. It
        changes nothing. */
    method DealExists(link: string) returns (b: bool)
      requires tableExists
      ensures b <==> link in rows
    {
      b := link in rows;
    }

    /** `save_deal(title, price, old_price, link)`. */
    method SaveDeal(title: string, price: string, oldPrice: Option<string>, link: string)
      requires Valid() && tableExists
      modifies this
      ensures Valid() && tableExists
      ensures rows == InsertOrIgnore(old(rows), link, Row(title, price, oldPrice))
    {
      rows := InsertOrIgnore(rows, link, Row(title, price, oldPrice));
    }
  }
}
