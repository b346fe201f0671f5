/** The `entries` table behind `add_value`, `clear_values` and `read_values`.
    Every operation runs under one lock, so each is modelled as one atomic step
    on an abstract table: the rows in ascending id order and the AUTOINCREMENT
    counter. */
module EntryStore {
  import opened Seqs

  datatype Option<T> = None | Some(value: T)

  /** One row: `id INTEGER PRIMARY KEY AUTOINCREMENT`, `value REAL NOT NULL`,
      `created_at TEXT NOT NULL` (an ISO-8601 UTC timestamp, supplied by the caller). */
  datatype Entry = Entry(id: int, value: real, createdAt: string)

  predicate StrictlyAscending(rows: seq<Entry>) {
    forall i, j :: 0 <= i < j < |rows| ==> rows[i].id < rows[j].id
  }

  /** The values column, in row order. */
  function Values(rows: seq<Entry>): (vs: seq<real>)
    ensures |vs| == |rows|
    ensures forall k :: 0 <= k < |rows| ==> vs[k] == rows[k].value
  {
    if rows == [] then [] else [rows[0].value] + Values(rows[1..])
  }

  /** `if limit:` in `read_values`: no limit and a limit of 0 both read everything. */
  predicate Truthy(limit: Option<int>) {
    limit.Some? && limit.value != 0
  }

  /** `read_values(limit)` as the source writes it, over rows kept in ascending id
      order: either `ORDER BY id ASC`, or `ORDER BY id DESC LIMIT ?` followed by
      reversing the frame. */
  function ReadQuery(rows: seq<Entry>, limit: Option<int>): (r: seq<Entry>)
    ensures |r| == if Truthy(limit) && 0 <= limit.value < |rows| then limit.value else |rows|
    ensures !Truthy(limit) ==> r == rows
  {
    if Truthy(limit) then Reverse(Limit(Reverse(rows), limit.value)) else rows
  }

  /** How many rows a read returns: all of them unless a positive limit is smaller. */
  function ReadCount(total: nat, limit: Option<int>): (k: nat)
    ensures k <= total
  {
    if Truthy(limit) && 0 < limit.value < total then limit.value else total
  }

  /** A read returns the last `ReadCount` rows of the table, still in ascending id order. */
  lemma {:induction false} ReadIsSuffix(rows: seq<Entry>, limit: Option<int>)
    ensures ReadQuery(rows, limit) == rows[|rows| - ReadCount(|rows|, limit)..]
  {
    if Truthy(limit) {
      var n := limit.value;
      if n < 0 {
        ReverseReverse(rows);
      } else {
        var k := ReadCount(|rows|, limit);
        assert Limit(Reverse(rows), n) == Reverse(rows)[..k];
        ReversePrefixIsSuffix(rows, k);
      }
    }
  }

  lemma SuffixAscending(rows: seq<Entry>, from: nat)
    requires from <= |rows| && StrictlyAscending(rows)
    ensures StrictlyAscending(rows[from..])
  {
    forall i, j | 0 <= i < j < |rows| - from
      ensures rows[from..][i].id < rows[from..][j].id
    {
      assert rows[from..][i] == rows[from + i] && rows[from..][j] == rows[from + j];
    }
  }

  class EntryTable {
    /** The rows, in ascending id order. */
    var rows: seq<Entry>
    /** The id the next insert receives; AUTOINCREMENT never hands out an id twice,
        even after the table has been emptied. */
    var nextId: int

    ghost predicate Valid()
      reads this
    {
      1 <= nextId &&
      StrictlyAscending(rows) &&
      forall i :: 0 <= i < |rows| ==> 1 <= rows[i].id < nextId
    }

    /** `get_conn` on a fresh database: `CREATE TABLE IF NOT EXISTS entries`. */
    constructor ()
      ensures Valid()
      ensures rows == [] && nextId == 1
    {
      rows := [];
      nextId := 1;
    }

    /** `add_value`: one INSERT; the new row takes an id above every id in the table. */
    method Add(v: real, createdAt: string)
      requires Valid()
      modifies this
      ensures Valid()
      ensures rows == old(rows) + [Entry(old(nextId), v, createdAt)]
      ensures nextId == old(nextId) + 1
      ensures forall i :: 0 <= i < |old(rows)| ==> old(rows)[i].id < rows[|rows| - 1].id
    {
      rows := rows + [Entry(nextId, v, createdAt)];
      nextId := nextId + 1;
    }

    /** `clear_values`: `DELETE FROM entries`; the AUTOINCREMENT counter is kept. */
    method Clear()
      requires Valid()
      modifies this
      ensures Valid()
      ensures rows == [] && nextId == old(nextId)
    {
      rows := [];
    }

    /** `read_values(limit)`: the last `ReadCount` rows in ascending id order; the
        table is not changed. */
    method Read(limit: Option<int>) returns (result: seq<Entry>)
      requires Valid()
      ensures result == ReadQuery(rows, limit)
      ensures |result| == ReadCount(|rows|, limit)
      ensures result == rows[|rows| - |result|..]
      ensures StrictlyAscending(result)
      ensures !Truthy(limit) || limit.value < 0 ==> result == rows
    {
      result := ReadQuery(rows, limit);
      ReadIsSuffix(rows, limit);
      SuffixAscending(rows, |rows| - ReadCount(|rows|, limit));
    }
  }

  /** Inserting 1, 2, 3, 4, 5 into a fresh table and then reading with limit 3
      gives 3, 4, 5, in that order. */
  method ReadRecentThree(now: string) returns (vs: seq<real>)
    ensures vs == [3.0, 4.0, 5.0]
  {
    var table := new EntryTable();
    table.Add(1.0, now);
    table.Add(2.0, now);
    table.Add(3.0, now);
    table.Add(4.0, now);
    table.Add(5.0, now);
    var rows := table.Read(Some(3));
    assert rows == table.rows[2..];
    vs := Values(rows);
  }
}
