/**
 * The record store of idle-qrcode-system/database.py: one `items` table whose
 * primary key is `id`, with seven text columns. The SQLite file becomes a map
 * from id to row. `INSERT OR REPLACE` on a primary key is exactly a map
 * update, and `SELECT ... WHERE id = ?` is exactly a map lookup.
 */
module Database {

  import opened Wrappers

  /** One row of `items`, in column order id, name, location, buy_date, owner, remark, photo. */
  datatype Record = Record(
    id: string,
    name: string,
    location: string,
    buyDate: string,
    owner: string,
    remark: string,
    photo: string)

  /**
   * The dictionary that `save_item` receives. Its `photo` key may be absent.
   * The other keys are always present, because the save handler always sets them.
   */
  datatype ItemData = ItemData(
    id: string,
    name: string,
    location: string,
    buyDate: string,
    owner: string,
    remark: string,
    photo: Option<string>)

  /** Every field except `id` is the empty string. */
  predicate IsBlank(r: Record)
  {
    r.name == "" && r.location == "" && r.buyDate == "" && r.owner == ""
    && r.remark == "" && r.photo == ""
  }

  /** The record `get_item` makes up for an id with no row. */
  function BlankRecord(id: string): Record
  {
    Record(id, "", "", "", "", "", "")
  }

  /** Every row is stored under its own id, as the primary key guarantees. */
  predicate KeysMatch(rows: map<string, Record>)
  {
    forall k :: k in rows ==> rows[k].id == k
  }

  /** The row that `save_item(d)` writes. A missing photo becomes "". */
  function RowOf(d: ItemData): Record
  {
    Record(d.id, d.name, d.location, d.buyDate, d.owner, d.remark, d.photo.GetOr(""))
  }

  /** What `get_item(id)` returns for the table contents `rows`. */
  function Lookup(rows: map<string, Record>, id: string): Record
  {
    if id in rows then rows[id] else BlankRecord(id)
  }

  /** The table contents after `save_item(d)`. */
  function Upsert(rows: map<string, Record>, d: ItemData): map<string, Record>
  {
    rows[d.id := RowOf(d)]
  }

  /** `RowOf` keeps every submitted field in its column and fills the photo with "" when it is missing. */
  lemma RowOfColumns(d: ItemData)
    ensures var r := RowOf(d);
      && r.id == d.id && r.name == d.name && r.location == d.location
      && r.buyDate == d.buyDate && r.owner == d.owner && r.remark == d.remark
      && (d.photo.Some? ==> r.photo == d.photo.value)
      && (d.photo.None? ==> r.photo == "")
  {
  }

  /** A lookup always answers with a record for the requested id, stored or not. */
  lemma LookupId(rows: map<string, Record>, id: string)
    requires KeysMatch(rows)
    ensures Lookup(rows, id).id == id
  {
  }

  /** An id with no row reads as a blank record carrying that id. */
  lemma LookupMissing(rows: map<string, Record>, id: string)
    requires id !in rows
    ensures Lookup(rows, id).id == id && IsBlank(Lookup(rows, id))
  {
  }

  /** A stored id reads back its stored row, field for field. */
  lemma LookupStored(rows: map<string, Record>, id: string)
    requires id in rows
    ensures Lookup(rows, id) == rows[id]
  {
  }

  /** Round trip: reading `d.id` after saving `d` gives back `d`'s fields, photo "" when absent. */
  lemma SaveThenGet(rows: map<string, Record>, d: ItemData)
    ensures Lookup(Upsert(rows, d), d.id) == RowOf(d)
    ensures Lookup(Upsert(rows, d), d.id).photo == d.photo.GetOr("")
  {
  }

  /**
   * Replace, not merge: after two saves to one id only the second one's values
   * can be read, and a second save without a photo leaves the photo "".
   */
  lemma SecondSaveReplaces(rows: map<string, Record>, d1: ItemData, d2: ItemData)
    requires d1.id == d2.id
    ensures Lookup(Upsert(Upsert(rows, d1), d2), d2.id) == RowOf(d2)
    ensures Upsert(Upsert(rows, d1), d2) == Upsert(rows, d2)
    ensures d2.photo.None? ==> Lookup(Upsert(Upsert(rows, d1), d2), d2.id).photo == ""
  {
  }

  /** A save touches only the row of its own id and adds at most one key. */
  lemma SaveFrame(rows: map<string, Record>, d: ItemData)
    ensures Upsert(rows, d).Keys == rows.Keys + {d.id}
    ensures forall k :: k != d.id ==> Lookup(Upsert(rows, d), k) == Lookup(rows, k)
    ensures |Upsert(rows, d)| <= |rows| + 1
    ensures d.id in rows ==> |Upsert(rows, d)| == |rows|
  {
    var after := Upsert(rows, d);
    if d.id in rows {
      assert after.Keys == rows.Keys;
    } else {
      assert after.Keys == rows.Keys + {d.id};
    }
  }

  /** Saving keeps every row under its own id. */
  lemma SaveKeepsKeysMatch(rows: map<string, Record>, d: ItemData)
    requires KeysMatch(rows)
    ensures KeysMatch(Upsert(rows, d))
  {
  }

  /**
   * The database file. `tableExists` says whether `items` has been created;
   * `rows` is its contents.
   */
  class Store {
    var tableExists: bool
    var rows: map<string, Record>

    ghost predicate Valid()
      reads this
    {
      && (!tableExists ==> rows == map[])
      && KeysMatch(rows)
    }

    /** A fresh database file, before `init_db` has run. */
    constructor ()
      ensures Valid() && !tableExists && rows == map[]
    {
      tableExists := false;
      rows := map[];
    }

    /** `init_db`: `CREATE TABLE IF NOT EXISTS` creates an empty table once and changes nothing after that. */
    method InitDb()
      requires Valid()
      modifies this
      ensures Valid() && tableExists
      ensures rows == old(rows)
    {
      tableExists := true;
    }

    /**
     * `get_item`: never fails. A stored id gives back its row; an unknown id
     * gives a blank record with that id. It reads only, so two calls in a row
     * give equal records.
     */
    method GetItem(id: string) returns (r: Record)
      requires Valid() && tableExists
      ensures r == Lookup(rows, id)
      ensures r.id == id
      ensures id in rows ==> r == rows[id]
      ensures id !in rows ==> IsBlank(r)
    {
      if id in rows {
        r := rows[id];
      } else {
        r := BlankRecord(id);
      }
    }

    /** `save_item`: inserts or wholly replaces the row keyed by `d.id`. */
    method SaveItem(d: ItemData)
      requires Valid() && tableExists
      modifies this
      ensures Valid() && tableExists
      ensures rows == Upsert(old(rows), d)
    {
      SaveKeepsKeysMatch(rows, d);
      rows := rows[d.id := RowOf(d)];
    }
  }
}
